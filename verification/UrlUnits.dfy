/** Which strings percent decoding accepts and what it makes of them, said without its own tests of characters. */
module UrlUnits {
  import opened Strings
  import opened Multimaps
  import opened Urls

  const DIGITS := "0123456789"
  const MARKS := "-_.~:/?#[]@!$&'()*,;="
  const LOWER_HEX := "0123456789abcdef"
  const UPPER_HEX := "0123456789ABCDEF"

  predicate StandsForItself(c: char) {
    c in LOWER_CASE || c in UPPER_CASE || c in DIGITS || c in MARKS
  }

  predicate HexDigitChar(c: char) {
    c in LOWER_HEX || c in UPPER_HEX
  }

  /** One encoded character: itself, a space as `+`, or two hexadecimal digits. */
  datatype Unit = Itself(c: char) | Space | Pair(hi: char, lo: char) {
    predicate Ok() {
      match this
      case Itself(c) => StandsForItself(c)
      case Space => true
      case Pair(hi, lo) => HexDigitChar(hi) && HexDigitChar(lo)
    }

    function Text(): (r: string)
      ensures r != ""
    {
      match this
      case Itself(c) => [c]
      case Space => "+"
      case Pair(hi, lo) => ['%', hi, lo]
    }

    function Meaning(): char
      requires Ok()
    {
      match this
      case Itself(c) => c
      case Space => ' '
      case Pair(hi, lo) => (16 * DigitOf(hi) + DigitOf(lo)) as char
    }
  }

  /** The place of a hexadecimal digit among its like. */
  function DigitOf(c: char): (v: nat)
    requires HexDigitChar(c)
    ensures v < 16
  {
    if c in LOWER_HEX then Find(LOWER_HEX, c) else Find(UPPER_HEX, c)
  }

  predicate AllOk(us: seq<Unit>) {
    forall k :: 0 <= k < |us| ==> us[k].Ok()
  }

  function Texts(us: seq<Unit>): string {
    if us == [] then "" else us[0].Text() + Texts(us[1..])
  }

  function Meanings(us: seq<Unit>): (r: string)
    requires AllOk(us)
    ensures |r| == |us|
  {
    if us == [] then "" else [us[0].Meaning()] + Meanings(us[1..])
  }

  // -------------------------------------------------------------------------
  // Characters
  // -------------------------------------------------------------------------

  lemma DigitSet(c: char)
    ensures c in DIGITS <==> '0' <= c <= '9'
  {
    var s := DIGITS;
    assert forall k :: 0 <= k < 10 ==> s[k] as int == '0' as int + k;
    if '0' <= c <= '9' {
      assert s[c as int - '0' as int] == c;
    }
  }

  /** The characters that decoding leaves as they are. */
  lemma ItselfSet(c: char)
    ensures StandsForItself(c) <==> IsAlnum(c) || c in "-_.~:/?#[]@!$&'()*,;="
  {
    LowerCaseSet(c);
    UpperCaseSet(c);
    DigitSet(c);
  }

  lemma HexSet(c: char)
    ensures IsHex(c) <==> HexDigitChar(c)
    ensures IsHex(c) ==> HexValue(c) == DigitOf(c)
  {
    hide Find;
    HexAlphabets();
    HexPlaces(LOWER_HEX, c, 'a');
    HexPlaces(UPPER_HEX, c, 'A');
  }

  lemma HexAlphabets()
    ensures forall k :: 0 <= k < 10 ==> LOWER_HEX[k] as int == '0' as int + k == UPPER_HEX[k] as int
    ensures forall k :: 10 <= k < 16 ==> LOWER_HEX[k] as int == 'a' as int + k - 10
    ensures forall k :: 10 <= k < 16 ==> UPPER_HEX[k] as int == 'A' as int + k - 10
  {
    var (s, t) := (LOWER_HEX, UPPER_HEX);
    assert forall k :: 0 <= k < 10 ==> s[k] as int == '0' as int + k && t[k] as int == '0' as int + k;
    assert forall k :: 10 <= k < 16 ==> s[k] as int == 'a' as int + k - 10 && t[k] as int == 'A' as int + k - 10;
  }

  lemma HexPlaces(s: string, c: char, a: char)
    requires |s| == 16 && (a == 'a' || a == 'A')
    requires forall k :: 0 <= k < 10 ==> s[k] as int == '0' as int + k
    requires forall k :: 10 <= k < 16 ==> s[k] as int == a as int + k - 10
    ensures c in s <==> '0' <= c <= '9' || a as int <= c as int < a as int + 6
    ensures c in s ==> Find(s, c) == if '0' <= c <= '9' then c as int - '0' as int else c as int - a as int + 10
  {
    hide Find;
    if '0' <= c <= '9' {
      assert s[c as int - '0' as int] == c;
    } else if a as int <= c as int < a as int + 6 {
      assert s[c as int - a as int + 10] == c;
    }
  }

  // -------------------------------------------------------------------------
  // Decoding
  // -------------------------------------------------------------------------

  lemma PlainFirst(c: char, rest: string)
    requires IsAlnum(c) || c in "-_.~:/?#[]@!$&'()*,;="
    ensures FirstUnit([c] + rest) == Some((c, 1))
  {
  }

  /** A string starts with a unit exactly when decoding takes one off, which is that unit. */
  lemma UnitFirst(u: Unit, rest: string)
    requires u.Ok()
    ensures FirstUnit(u.Text() + rest) == Some((u.Meaning(), |u.Text()|))
  {
    hide StandsForItself, HexDigitChar, IsHex, HexValue, DigitOf, IsAlnum;
    match u
    case Itself(c) =>
      ItselfSet(c);
      PlainFirst(c, rest);
    case Space =>
    case Pair(hi, lo) =>
      HexSet(hi);
      HexSet(lo);
  }

  lemma UnitFound(s: string) returns (u: Unit)
    requires s != "" && FirstUnit(s).Some?
    ensures u.Ok() && u.Text() <= s
  {
    hide StandsForItself, HexDigitChar, IsHex, HexValue, IsAlnum;
    ItselfSet(s[0]);
    if s[0] == '%' {
      HexSet(s[1]);
      HexSet(s[2]);
      u := Pair(s[1], s[2]);
    } else if s[0] == '+' {
      u := Space;
    } else {
      u := Itself(s[0]);
    }
  }

  /** No unit stands at the front. */
  ghost predicate Stuck(s: string) {
    s != "" && forall u: Unit :: u.Ok() ==> !(u.Text() <= s)
  }

  lemma StuckIff(s: string)
    requires s != ""
    ensures FirstUnit(s).None? <==> Stuck(s)
  {
    hide FirstUnit;
    if FirstUnit(s).Some? {
      var u := UnitFound(s);
    } else {
      forall u: Unit | u.Ok()
        ensures !(u.Text() <= s)
      {
        if u.Text() <= s {
          var rest := s[|u.Text()|..];
          assert u.Text() + rest == s;
          UnitFirst(u, rest);
        }
      }
    }
  }

  /** Units in front of a string are decoded one by one, and then the string. */
  lemma {:induction false} UnitsDecode(us: seq<Unit>, rest: string)
    requires AllOk(us)
    ensures Unescaped(Texts(us) + rest) == (Unescaped(rest).0, Meanings(us) + Unescaped(rest).1)
    decreases |us|
  {
    hide Unescaped, FirstUnit, Unit.Ok, Unit.Text, Unit.Meaning;
    if us == [] {
      assert Texts(us) + rest == rest && Meanings(us) + Unescaped(rest).1 == Unescaped(rest).1;
    } else {
      var s := Texts(us[1..]) + rest;
      Associative(us[0].Text(), Texts(us[1..]), rest);
      UnitFirst(us[0], s);
      UnescapedStep(us[0].Text() + s);
      assert (us[0].Text() + s)[|us[0].Text()|..] == s;
      UnitsDecode(us[1..], rest);
      Associative([us[0].Meaning()], Meanings(us[1..]), Unescaped(rest).1);
    }
  }

  /**
   * What decoding does to any string: it takes units off the front, writes what each means, and
   * succeeds if nothing is left. What is left otherwise starts with no unit.
   */
  lemma {:induction false} DecodingExact(s: string) returns (us: seq<Unit>, rest: string)
    ensures AllOk(us) && s == Texts(us) + rest && (rest == "" || Stuck(rest))
    ensures Unescaped(s) == (rest == "", Meanings(us))
    decreases |s|
  {
    hide Unescaped, FirstUnit, Unit.Ok, Unit.Text, Unit.Meaning, Stuck;
    us, rest := [], s;
    if s == "" {
      UnescapedEnds(s);
    } else {
      UnescapedStep(s);
      StuckIff(s);
      if FirstUnit(s).Some? {
        var u := UnitFound(s);
        var tail := s[|u.Text()|..];
        var vs, left := DecodingExact(tail);
        us, rest := [u] + vs, left;
        assert us[1..] == vs;
        assert u.Text() + tail == s;
        Associative(u.Text(), Texts(vs), left);
        UnitFirst(u, tail);
      }
    }
    assert Texts([]) + s == s;
  }

  /** Decoding succeeds if and only if the string consists of units. */
  lemma DecodesIff(s: string)
    ensures Unescaped(s).0 <==> exists us :: AllOk(us) && s == Texts(us)
  {
    hide Unescaped, AllOk, Meanings, Texts;
    var us, rest := DecodingExact(s);
    if rest == "" {
      assert Texts(us) + "" == Texts(us);
    }
    forall us | AllOk(us) && s == Texts(us)
      ensures Unescaped(s).0
    {
      UnitsDecode(us, "");
      UnescapedEnds("");
      assert Texts(us) + "" == s;
    }
  }

  /** A letter behind `f`, a space and a lower-case pair; and a percent sign on its own. */
  lemma DecodingExample()
    ensures Unescaped("z+%7e") == (true, "z ~")
    ensures Unescaped("z%") == (false, "z")
  {
    hide Unescaped, Texts, Meanings;
    ThreeUnits('z', '7', 'e');
    UnitsDecode([Itself('z'), Space, Pair('7', 'e')], "");
    UnitsDecode([Itself('z')], "%");
    UnescapedEnds("");
    UnescapedStep("%");
    assert "z+%7e" + "" == "z+%7e" && "z ~" + "" == "z ~" && "z" + "%" == "z%" && "z" + "" == "z";
  }

  lemma ThreeUnits(c: char, hi: char, lo: char)
    requires c == 'z' && hi == '7' && lo == 'e'
    ensures AllOk([Itself(c), Space, Pair(hi, lo)]) && AllOk([Itself(c)])
    ensures Texts([Itself(c), Space, Pair(hi, lo)]) == "z+%7e" && Texts([Itself(c)]) == "z"
    ensures Meanings([Itself(c), Space, Pair(hi, lo)]) == "z ~" && Meanings([Itself(c)]) == "z"
  {
    LowerCaseSet(c);
    HexSet(hi);
    HexSet(lo);
    hide HexDigitChar, DigitOf;
    assert StandsForItself(c);
    hide StandsForItself;
    var z, u, v := [Itself(c)], [Space, Pair(hi, lo)], [Pair(hi, lo)];
    assert z[1..] == [] && ([Itself(c)] + u)[1..] == u && u[1..] == v && v[1..] == [];
    assert Texts(v) == ['%', hi, lo] && Texts(u) == "+" + ['%', hi, lo];
    assert Meanings(v) == ['~'] && Meanings(u) == [' ', '~'];
    assert [Itself(c)] + u == [Itself(c), Space, Pair(hi, lo)];
  }

  // -------------------------------------------------------------------------
  // Encoding
  // -------------------------------------------------------------------------

  /** The bytes that stay as they are; all others become a percent sign and two upper-case digits. */
  const KEPT := "0123456789abcdefABCDEF-._~"

  lemma EncodingExact(c: Byte)
    ensures EscapedByte(c) == if c in KEPT then [c] else ['%', UPPER_HEX[c as int / 16], UPPER_HEX[c as int % 16]]
  {
    KeptSet(c);
  }

  lemma KeptSet(c: char)
    ensures c in KEPT <==> Unreserved(c)
  {
    HexSet(c);
    var s := KEPT;
    assert s == LOWER_HEX + "ABCDEF" + "-._~" && UPPER_HEX == DIGITS + "ABCDEF" && DIGITS <= LOWER_HEX;
    DigitSet(c);
  }

  /** The encoding of a string is that of its bytes, one after the other. */
  lemma {:induction false} EncodingConcat(a: seq<Byte>, b: seq<Byte>)
    ensures Escaped(a + b) == Escaped(a) + Escaped(b)
    decreases |a|
  {
    hide EscapedByte;
    if a == [] {
      assert a + b == b;
    } else {
      assert (a + b)[1..] == a[1..] + b;
      EncodingConcat(a[1..], b);
      Associative(EscapedByte(a[0]), Escaped(a[1..]), Escaped(b));
    }
  }

  // -------------------------------------------------------------------------
  // The pieces of a query
  // -------------------------------------------------------------------------

  /**
   * One piece of a query: the key is what decodes of the part before the first `=`, the value what
   * decodes of the part behind it, each up to where it gets stuck.
   */
  lemma PieceExact(m: Multimap, us: seq<Unit>, left: string, vs: seq<Unit>, right: string)
    requires AllOk(us) && AllOk(vs) && (left == "" || Stuck(left)) && (right == "" || Stuck(right))
    requires '=' !in Texts(us) + left
    ensures AddedPiece(m, (Texts(us) + left) + ['='] + (Texts(vs) + right)) == Added(m, Meanings(us), Meanings(vs))
  {
    hide AllOk, Stuck, Texts, Meanings, Unescaped, FirstUnit, Added;
    var a, b := Texts(us) + left, Texts(vs) + right;
    var piece := a + ['='] + b;
    assert piece[..|a|] == a && piece[|a|] == '=' && piece[|a| + 1..] == b;
    FindAt(piece, '=', |a|);
    StuckDecode(us, left);
    StuckDecode(vs, right);
  }

  lemma StuckDecode(us: seq<Unit>, rest: string)
    requires AllOk(us) && (rest == "" || Stuck(rest))
    ensures Unescaped(Texts(us) + rest).1 == Meanings(us)
  {
    UnitsDecode(us, rest);
    UnescapedEnds(rest);
    if rest != "" {
      StuckIff(rest);
      UnescapedStep(rest);
    }
    hide AllOk, Stuck, Texts, Meanings, Unescaped;
    assert Meanings(us) + "" == Meanings(us);
  }

  /** A piece without `=` adds nothing. */
  lemma PieceWithoutPair(m: Multimap, piece: string)
    requires '=' !in piece
    ensures AddedPiece(m, piece) == m
  {
  }

  /** Two pairs, as the body of a form and behind the path of a URL. */
  lemma QueryExample()
    ensures Parsed(map[], "a=1&b=z+", true) == map["a" := ["1"], "b" := ["z "]]
    ensures Parsed(map[], "/p?a=1&b=z+", false) == map["a" := ["1"], "b" := ["z "]]
  {
    hide Split, AddedPiece, Find;
    TwoPieces();
    assert "/p?a=1&b=z+"[..2] == "/p" && "/p?a=1&b=z+"[2] == '?' && "/p?a=1&b=z+"[3..] == "a=1&b=z+";
    FindAt("/p?a=1&b=z+", '?', 2);
    PiecesAdded(["a=1", "b=z+"]);
  }

  lemma TwoPieces()
    ensures Split("a=1&b=z+", '&') == ["a=1", "b=z+"]
  {
    hide Split;
    SplitConcat("a=1", '&', "b=z+");
    SplitWhole("a=1", '&');
    SplitWhole("b=z+", '&');
    assert "a=1" + ['&'] + "b=z+" == "a=1&b=z+";
    assert ["a=1"] + ["b=z+"] == ["a=1", "b=z+"];
  }

  lemma PiecesAdded(pieces: seq<string>)
    requires pieces == ["a=1", "b=z+"]
    ensures AddedPieces(map[], pieces) == map["a" := ["1"], "b" := ["z "]]
  {
    hide AddedPiece;
    FirstPair(map[], 'a', '1');
    SecondPair(map["a" := ["1"]], 'b', 'z');
    TwoAdded(map[], pieces[0], pieces[1]);
    assert pieces == [pieces[0], pieces[1]];
    hide AddedPieces;
  }

  lemma TwoAdded(m: Multimap, p: string, q: string)
    ensures AddedPieces(m, [p, q]) == AddedPiece(AddedPiece(m, p), q)
  {
    hide AddedPiece;
    assert [p, q][1..] == [q] && [q][1..] == [];
    var n := AddedPiece(m, p);
    assert AddedPieces(AddedPiece(n, q), []) == AddedPiece(n, q);
    assert AddedPieces(n, [q]) == AddedPiece(n, q);
  }

  lemma FirstPair(m: Multimap, k: char, v: char)
    requires k == 'a' && v == '1' && "a" !in m
    ensures AddedPiece(m, "a=1") == m["a" := ["1"]]
  {
    hide AddedPiece, StandsForItself, AllOk, Texts, Meanings;
    LetterAndMore(k, v);
    PlusText();
    OnePair(m, k, v, []);
    FirstTexts(k, v);
  }

  lemma FirstTexts(k: char, v: char)
    requires k == 'a' && v == '1'
    ensures [k, '=', v] + "" == "a=1" && [v] + "" == "1" && [k] == "a" && [] + ["1"] == ["1"]
  {
  }

  lemma SecondPair(m: Multimap, k: char, v: char)
    requires k == 'b' && v == 'z' && "b" !in m
    ensures AddedPiece(m, "b=z+") == m["b" := ["z "]]
  {
    hide AddedPiece, StandsForItself, AllOk, Texts, Meanings;
    LetterAndMore(k, v);
    PlusText();
    OnePair(m, k, v, [Space]);
    SecondTexts(k, v);
  }

  lemma SecondTexts(k: char, v: char)
    requires k == 'b' && v == 'z'
    ensures [k, '=', v] + "+" == "b=z+" && [v] + " " == "z " && [k] == "b" && [] + ["z "] == ["z "]
  {
  }

  lemma LetterAndMore(k: char, v: char)
    requires 'a' <= k <= 'z' && ('a' <= v <= 'z' || '0' <= v <= '9')
    ensures StandsForItself(k) && StandsForItself(v)
  {
    LowerCaseSet(k);
    LowerCaseSet(v);
    DigitSet(v);
  }

  lemma PlusText()
    ensures AllOk([Space]) && Texts([Space]) == "+" && Meanings([Space]) == " "
    ensures AllOk([]) && Texts([]) == "" && Meanings([]) == ""
  {
    assert [Space][1..] == [];
  }

  /** A key and a value of one character each, and what stands behind the value. */
  lemma OnePair(m: Multimap, k: char, v: char, us: seq<Unit>)
    requires StandsForItself(k) && StandsForItself(v) && k != '=' && AllOk(us)
    ensures AddedPiece(m, [k, '=', v] + Texts(us)) == Added(m, [k], [v] + Meanings(us))
  {
    OneUnit(k, []);
    OneUnit(v, us);
    hide StandsForItself, AddedPiece, Added, AllOk, Texts, Meanings, Stuck, Unit.Ok, Unit.Text, Unit.Meaning;
    var key, value := [Itself(k)] + [], [Itself(v)] + us;
    assert [k] + "" == [k];
    PieceExact(m, key, "", value, "");
    PairText(k, v, Texts(us));
  }

  lemma PairText(k: char, v: char, t: string)
    ensures ([k] + "") + ['='] + (([v] + t) + "") == [k, '=', v] + t
    ensures '=' in [k] + "" ==> k == '='
  {
  }

  lemma OneUnit(c: char, us: seq<Unit>)
    requires StandsForItself(c) && AllOk(us)
    ensures AllOk([Itself(c)] + us)
    ensures Texts([Itself(c)] + us) == [c] + Texts(us) && Meanings([Itself(c)] + us) == [c] + Meanings(us)
    ensures AllOk([]) && Texts([]) == "" && Meanings([]) == ""
  {
    hide StandsForItself;
    assert ([Itself(c)] + us)[1..] == us;
  }
}
