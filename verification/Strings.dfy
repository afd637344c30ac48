/** The string helpers the core rests on: first occurrences, splitting and trimming. */
module Strings {

  datatype Option<+T> = None | Some(value: T) {
    function GetOr(default: T): T {
      if None? then default else value
    }
  }

  /** Index of the first `c` in `s`, or `|s|` when there is none (`std::find`). */
  function Find(s: string, c: char): (i: nat)
    ensures i <= |s|
    ensures i < |s| ==> s[i] == c
    ensures forall j :: 0 <= j < i ==> s[j] != c
  {
    if s == "" || s[0] == c then 0 else 1 + Find(s[1..], c)
  }

  lemma FindAt(s: string, c: char, i: nat)
    requires i < |s| && s[i] == c && c !in s[..i]
    ensures Find(s, c) == i
  {
    assert forall j :: 0 <= j < i ==> s[..i][j] == s[j];
  }

  /**
   * Index of the first occurrence of `d` in `s`, or `|s|` when there is none (`std::search`). The
   * empty `d` occurs at the start of every `s` but the empty one.
   */
  function FindSub(s: string, d: string): (i: nat)
    ensures i <= |s|
    ensures i < |s| ==> i + |d| <= |s|
  {
    if s == "" || d <= s then 0 else 1 + FindSub(s[1..], d)
  }

  /** It is an occurrence, and the first one. */
  lemma {:induction false} FindSubIsFirst(s: string, d: string)
    ensures var i := FindSub(s, d); i < |s| ==> d <= s[i..]
    ensures forall j :: 0 <= j < FindSub(s, d) ==> !(d <= s[j..])
    decreases |s|
  {
    if s != "" && !(d <= s) {
      FindSubIsFirst(s[1..], d);
      assert forall j :: 1 <= j <= |s| ==> s[j..] == s[1..][j - 1..];
    }
  }

  predicate Occurs(s: string, d: string) {
    FindSub(s, d) < |s|
  }

  function BeforeFirst(s: string, d: string): (r: string)
    requires Occurs(s, d)
    ensures |r| + |d| <= |s|
  {
    s[..FindSub(s, d)]
  }

  function AfterFirst(s: string, d: string): (r: string)
    requires Occurs(s, d)
    ensures |r| + |d| <= |s|
  {
    s[FindSub(s, d) + |d|..]
  }

  /** Cutting at the first delimiter loses nothing, and the part before holds no delimiter. */
  lemma CutAtFirst(s: string, d: string)
    requires Occurs(s, d)
    ensures s == BeforeFirst(s, d) + d + AfterFirst(s, d)
    ensures !Occurs(BeforeFirst(s, d), d)
  {
    FindSubIsFirst(s, d);
    var i := FindSub(s, d);
    var line := s[..i];
    assert s[i..] == d + AfterFirst(s, d);
    assert line + s[i..] == s;
    if Occurs(line, d) {
      FindSubExtend(line, s[i..], d);
    }
  }

  /** `FindSub` is the only index with these two properties. */
  lemma FirstOccurrence(s: string, d: string, i: nat)
    requires i < |s| && d <= s[i..]
    requires forall j :: 0 <= j < i ==> !(d <= s[j..])
    ensures FindSub(s, d) == i
  {
    FindSubIsFirst(s, d);
    assert FindSub(s, d) <= i;
  }

  /** Bytes that arrive later never move an occurrence that was already found. */
  lemma FindSubExtend(a: string, b: string, d: string)
    requires Occurs(a, d)
    ensures FindSub(a + b, d) == FindSub(a, d)
  {
    FindSubIsFirst(a, d);
    var i := FindSub(a, d);
    assert (a + b)[i..] == a[i..] + b;
    forall j | 0 <= j < i
      ensures !(d <= (a + b)[j..])
    {
      assert (a + b)[j..] == a[j..] + b;
      assert !(d <= a[j..]) && |d| <= |a[j..]|;
    }
    FirstOccurrence(a + b, d, i);
  }

  /** A two-character delimiter placed behind text that does not hold it is found right there. */
  lemma FindSubAfter(a: string, d: string, b: string)
    requires |d| == 2 && d[0] != d[1] && !Occurs(a, d)
    ensures FindSub(a + d + b, d) == |a|
  {
    FindSubIsFirst(a, d);
    var s := a + d + b;
    assert s[|a|..] == d + b;
    forall j | 0 <= j < |a|
      ensures !(d <= s[j..])
    {
      assert !(d <= a[j..]);
      assert s[j] == a[j] && s[j + 1] == if j + 1 < |a| then a[j + 1] else d[0];
      assert s[j..][0] == s[j] && s[j..][1] == s[j + 1];
    }
    FirstOccurrence(s, d, |a|);
  }

  /** A two-character delimiter occurs nowhere. */
  lemma NoOccurrence(s: string, d: string)
    requires |d| == 2
    ensures !Occurs(s, d) <==> forall j :: 0 <= j < |s| - 1 ==> !(s[j] == d[0] && s[j + 1] == d[1])
  {
    FindSubIsFirst(s, d);
    var i := FindSub(s, d);
    if i < |s| {
      assert s[i..][0] == s[i] && s[i..][1] == s[i + 1];
    } else {
      forall j | 0 <= j < |s| - 1
        ensures !(s[j] == d[0] && s[j + 1] == d[1])
      {
        assert !(d <= s[j..]);
        assert s[j..][0] == s[j] && s[j..][1] == s[j + 1];
      }
    }
  }

  predicate Pieces(r: seq<string>, d: char) {
    forall k :: 0 <= k < |r| ==> r[k] != "" && d !in r[k]
  }

  /** A piece in front of the others, unless it is empty. */
  function Prepended(piece: string, rest: seq<string>): seq<string> {
    if piece == "" then rest else [piece] + rest
  }

  /** The non-empty pieces of `s` between occurrences of `d`, in order. */
  function Split(s: string, d: char): (r: seq<string>)
    ensures Pieces(r, d)
    decreases |s|
  {
    var i := Find(s, d);
    Prepended(s[..i], if i == |s| then [] else Split(s[i + 1..], d))
  }

  lemma SplitStep(s: string, d: char)
    ensures var i := Find(s, d); Split(s, d) == Prepended(s[..i], if i == |s| then [] else Split(s[i + 1..], d))
  {
    hide Find, Prepended, Pieces;
  }

  /** Splitting distributes over the delimiter. */
  lemma {:induction false} SplitConcat(a: string, d: char, b: string)
    ensures Split(a + [d] + b, d) == Split(a, d) + Split(b, d)
    decreases |a|
  {
    hide Split, Find, Pieces;
    var i := Find(a, d);
    var s := a + [d] + b;
    FindHere(a, d, b);
    SplitStep(a, d);
    SplitStep(s, d);
    assert s[..i] == a[..i];
    if i < |a| {
      assert s[i + 1..] == a[i + 1..] + [d] + b;
      SplitConcat(a[i + 1..], d, b);
      Associative([a[..i]], Split(a[i + 1..], d), Split(b, d));
    } else {
      assert s[i + 1..] == b;
    }
  }

  lemma Associative<T>(a: seq<T>, b: seq<T>, c: seq<T>)
    ensures a + (b + c) == (a + b) + c
  {
  }

  lemma FindHere(a: string, c: char, b: string)
    ensures Find(a + [c] + b, c) == Find(a, c)
  {
    var s := a + [c] + b;
    assert forall j :: 0 <= j < |a| ==> s[j] == a[j];
    assert s[|a|] == c;
  }

  /** A delimiter-free, non-empty string is its own only piece. */
  lemma SplitWhole(s: string, d: char)
    requires s != "" && d !in s
    ensures Split(s, d) == [s]
  {
    assert Find(s, d) == |s|;
    assert s[..|s|] == s;
  }

  /** `getline` until the stream is exhausted, keeping the non-empty lines. */
  method StrSplit(s: string, d: char) returns (out: seq<string>)
    ensures out == Split(s, d)
  {
    hide Split, Find, Pieces;
    out := [];
    var rest := s;
    SplitStep("", d);
    while rest != ""
      invariant out + Split(rest, d) == Split(s, d)
      decreases |rest|
    {
      SplitStep(rest, d);
      var i := Find(rest, d);
      var line := rest[..i];
      ghost var before := out;
      if line != "" {
        out := out + [line];
      }
      rest := if i == |rest| then "" else rest[i + 1..];
      Associative(before, [line], Split(rest, d));
    }
  }

  predicate IsBlank(c: char) {
    c == ' ' || c == '\t' || c == '\r' || c == '\n'
  }

  lemma BlankSet(c: char)
    ensures IsBlank(c) <==> c in " \t\r\n"
  {
  }

  /** `s` without its leading blanks; an all-blank string becomes empty. */
  function TrimLeft(s: string): (r: string)
    ensures |r| <= |s|
  {
    if s != "" && IsBlank(s[0]) then TrimLeft(s[1..]) else s
  }

  /** `s` without its trailing blanks. */
  function TrimRight(s: string): (r: string)
    ensures |r| <= |s|
  {
    if s != "" && IsBlank(s[|s| - 1]) then TrimRight(s[..|s| - 1]) else s
  }

  /** Cutting all blanks up to a non-blank, or all there are, is trimming. */
  lemma {:induction false} TrimLeftUnique(s: string, n: nat)
    requires n <= |s| && (forall j :: 0 <= j < n ==> IsBlank(s[j])) && (n < |s| ==> !IsBlank(s[n]))
    ensures TrimLeft(s) == s[n..]
    decreases n
  {
    if n > 0 {
      TrimLeftUnique(s[1..], n - 1);
      assert s[1..][n - 1..] == s[n..];
    }
  }

  lemma {:induction false} TrimRightUnique(s: string, n: nat)
    requires n <= |s| && (forall j :: n <= j < |s| ==> IsBlank(s[j])) && (n > 0 ==> !IsBlank(s[n - 1]))
    ensures TrimRight(s) == s[..n]
    decreases |s|
  {
    if n < |s| {
      TrimRightUnique(s[..|s| - 1], n);
      assert s[..|s| - 1][..n] == s[..n];
    } else {
      assert s[..n] == s;
    }
  }

  /** What is left starts with a non-blank. */
  lemma {:induction false} TrimmedStart(s: string)
    ensures TrimLeft(s) != "" ==> !IsBlank(TrimLeft(s)[0])
    ensures TrimLeft(TrimLeft(s)) == TrimLeft(s)
    decreases |s|
  {
    if s != "" && IsBlank(s[0]) {
      TrimmedStart(s[1..]);
    }
  }

  /** What is trimmed does not depend on bytes that arrive later. */
  lemma {:induction false} TrimLeftExtend(a: string, b: string)
    ensures TrimLeft(a + b) == if TrimLeft(a) == "" then TrimLeft(b) else TrimLeft(a) + b
  {
    if a == "" {
      assert a + b == b;
    } else if IsBlank(a[0]) {
      assert (a + b)[1..] == a[1..] + b;
      TrimLeftExtend(a[1..], b);
    }
  }

  /** Equality of the first `end` characters; false when either string is shorter or `end` is 0. */
  method StrEqual(s1: string, s2: string, end: nat) returns (r: bool)
    ensures r <==> 0 < end <= |s1| && end <= |s2| && s1[..end] == s2[..end]
  {
    if end > |s1| || end > |s2| || end == 0 {
      return false;
    }
    var idx := 0;
    while idx < end
      invariant idx <= end
      invariant s1[..idx] == s2[..idx]
    {
      if s1[idx] != s2[idx] {
        assert s1[..end][idx] != s2[..end][idx];
        return false;
      }
      idx := idx + 1;
    }
    return true;
  }

  /** `std::tolower` in the C locale. */
  function LowerChar(c: char): char {
    if 'A' <= c <= 'Z' then (c as int + 32) as char else c
  }

  function Lower(s: string): (r: string)
    ensures |r| == |s|
  {
    seq(|s|, i requires 0 <= i < |s| => LowerChar(s[i]))
  }

  const LOWER_CASE := "abcdefghijklmnopqrstuvwxyz"
  const UPPER_CASE := "ABCDEFGHIJKLMNOPQRSTUVWXYZ"

  /** The same-numbered letters of the two alphabets. */
  predicate CasePair(upper: char, lower: char) {
    exists j :: 0 <= j < 26 && upper == UPPER_CASE[j] && lower == LOWER_CASE[j]
  }

  /** The same character, or the two cases of one letter. */
  predicate SameLetter(a: char, b: char) {
    a == b || CasePair(a, b) || CasePair(b, a)
  }

  /** The two differ in case at most. */
  predicate SameWord(a: string, b: string) {
    |a| == |b| && forall i :: 0 <= i < |a| ==> SameLetter(a[i], b[i])
  }

  lemma Alphabets()
    ensures forall k :: 0 <= k < 26 ==> LOWER_CASE[k] as int == 'a' as int + k
    ensures forall k :: 0 <= k < 26 ==> UPPER_CASE[k] as int == 'A' as int + k
  {
    var s, t := LOWER_CASE, UPPER_CASE;
    assert forall k :: 0 <= k < 26 ==> s[k] as int == 'a' as int + k;
    assert forall k :: 0 <= k < 26 ==> t[k] as int == 'A' as int + k;
  }

  lemma LowerCaseSet(c: char)
    ensures c in LOWER_CASE <==> 'a' <= c <= 'z'
  {
    Alphabets();
    Consecutive(LOWER_CASE, 'a', c);
  }

  lemma UpperCaseSet(c: char)
    ensures c in UPPER_CASE <==> 'A' <= c <= 'Z'
  {
    Alphabets();
    Consecutive(UPPER_CASE, 'A', c);
  }

  lemma Consecutive(s: string, first: char, c: char)
    requires forall k :: 0 <= k < |s| ==> s[k] as int == first as int + k
    ensures c in s <==> first as int <= c as int < first as int + |s|
  {
    if first as int <= c as int < first as int + |s| {
      assert s[c as int - first as int] == c;
    }
  }

  lemma CasePairIff(upper: char, lower: char)
    ensures CasePair(upper, lower) <==> 'A' <= upper <= 'Z' && lower as int == upper as int + 32
  {
    Alphabets();
    var s, t := UPPER_CASE, LOWER_CASE;
    if 'A' <= upper <= 'Z' && lower as int == upper as int + 32 {
      var j := upper as int - 'A' as int;
      assert s[j] == upper && t[j] == lower;
    }
  }

  lemma SameLetterIff(a: char, b: char)
    ensures LowerChar(a) == LowerChar(b) <==> SameLetter(a, b)
  {
    CasePairIff(a, b);
    CasePairIff(b, a);
    hide CasePair;
  }

  /** Two strings have the same lower-case form if and only if they differ in case at most. */
  lemma SameWordIff(a: string, b: string)
    ensures Lower(a) == Lower(b) <==> SameWord(a, b)
  {
    hide SameLetter, LowerChar;
    forall i | 0 <= i < |a| && i < |b|
      ensures LowerChar(a[i]) == LowerChar(b[i]) <==> SameLetter(a[i], b[i])
    {
      SameLetterIff(a[i], b[i]);
    }
    assert forall i :: 0 <= i < |a| ==> Lower(a)[i] == LowerChar(a[i]);
    assert forall i :: 0 <= i < |b| ==> Lower(b)[i] == LowerChar(b[i]);
  }

  /** The part of `s` a C string function sees. */
  function CStr(s: string): string {
    s[..Find(s, '\0')]
  }

  /** All characters in front of the first NUL, if there is one. */
  lemma CStrExact(s: string)
    ensures CStr(s) <= s && '\0' !in CStr(s)
    ensures CStr(s) == s || s[|CStr(s)|] == '\0'
  {
  }

  lemma CStrWhole(s: string)
    requires '\0' !in s
    ensures CStr(s) == s
  {
    assert s[..|s|] == s;
  }

  /** Chunks of bytes put together. */
  function Flat(chunks: seq<string>): string
    decreases |chunks|
  {
    if chunks == [] then "" else chunks[0] + Flat(chunks[1..])
  }

  lemma {:induction false} FlatAppend(chunks: seq<string>, last: string)
    ensures Flat(chunks + [last]) == Flat(chunks) + last
    decreases |chunks|
  {
    if chunks == [] {
      assert ([] + [last])[1..] == [];
    } else {
      assert (chunks + [last])[1..] == chunks[1..] + [last];
      FlatAppend(chunks[1..], last);
      Associative(chunks[0], Flat(chunks[1..]), last);
    }
  }
}
