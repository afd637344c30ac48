/** Segments of a route pattern: `name`, `{x}` and `p{x}`, and which request segments they match. */
module RouteSegments {
  import opened Strings

  /** Length of the longest common prefix. */
  function CommonPrefix(s1: string, s2: string): (n: nat)
    ensures n <= |s1| && n <= |s2| && s1[..n] == s2[..n]
    ensures n < |s1| && n < |s2| ==> s1[n] != s2[n]
  {
    if s1 == "" || s2 == "" || s1[0] != s2[0] then 0 else
      var n := CommonPrefix(s1[1..], s2[1..]);
      assert s1[..n + 1] == [s1[0]] + s1[1..][..n] && s2[..n + 1] == [s2[0]] + s2[1..][..n];
      n + 1
  }

  /** No other length has both properties. */
  lemma CommonPrefixUnique(s1: string, s2: string, n: nat)
    requires n <= |s1| && n <= |s2| && s1[..n] == s2[..n]
    requires n < |s1| && n < |s2| ==> s1[n] != s2[n]
    ensures CommonPrefix(s1, s2) == n
  {
    var k := CommonPrefix(s1, s2);
    assert forall j :: 0 <= j < n ==> s1[..n][j] == s2[..n][j];
    assert forall j :: 0 <= j < k ==> s1[..k][j] == s2[..k][j];
  }

  /** The index of the last character of the longest common prefix, -1 when there is none. */
  method LongestCommonPrefix(s1: string, s2: string) returns (last: int)
    ensures last == CommonPrefix(s1, s2) - 1
  {
    var i := 0;
    var limit := if |s1| <= |s2| then |s1| else |s2|;
    while i < limit && s1[i] == s2[i]
      invariant i <= limit && s1[..i] == s2[..i]
    {
      i := i + 1;
    }
    CommonPrefixUnique(s1, s2, i);
    return i - 1;
  }

  /** What `CheckWildcard` finds: -1, -2, or the position of the bracket and the name inside. */
  datatype Shape = Plain | Malformed | Wild(loc: nat, name: string)

  function CheckWildcard(s: string): (r: Shape)
    ensures r.Plain? <==> '{' !in s
    ensures r.Wild? ==> r.loc < |s| && s[r.loc] == '{' && '{' !in s[..r.loc]
  {
    var i := Find(s, '{');
    if i == |s| then Plain else
      var j := i + 1 + Find(s[i + 1..], '}');
      if j + 1 != |s| || j == i + 1 then Malformed else Wild(i, s[i + 1..j])
  }

  /** Every `p{name}` with `{`-free `p` and non-empty, `}`-free `name` is accepted ... */
  lemma WildcardMade(p: string, name: string)
    requires '{' !in p && name != "" && '}' !in name
    ensures CheckWildcard(p + ("{" + (name + "}"))) == Wild(|p|, name)
  {
    var s, t := p + ("{" + (name + "}")), name + "}";
    assert s[..|p|] == p && s[|p|] == '{' && s[|p| + 1..] == t;
    FindAt(s, '{', |p|);
    assert t[..|name|] == name && t[|name|] == '}';
    FindAt(t, '}', |name|);
    hide Find;
    assert s[|p| + 1..|p| + 1 + |name|] == t[..|name|];
  }

  /** ... and nothing else is. */
  lemma WildcardRead(s: string)
    requires CheckWildcard(s).Wild?
    ensures var w := CheckWildcard(s);
      && |s| == w.loc + |w.name| + 2 && '{' !in s[..w.loc] && w.name != "" && '}' !in w.name
      && s[w.loc] == '{' && s[w.loc + 1..|s| - 1] == w.name && s[|s| - 1] == '}'
  {
    var i := Find(s, '{');
    var j := Find(s[i + 1..], '}');
    assert s[i + 1..][..j] == s[i + 1..i + 1 + j];
  }

  predicate Universal(seg: string) {
    CheckWildcard(seg).Wild? && CheckWildcard(seg).loc == 0
  }

  /** The pattern segment `seg` matches the request segment `t`. */
  predicate Matches(seg: string, t: string) {
    match CheckWildcard(seg)
    case Plain => seg == t
    case Malformed => false
    case Wild(loc, _) => loc == 0 || (loc < |t| && seg[..loc] == t[..loc] && t[loc] != '{')
  }

  /** The part of `t` that the wildcard of `seg` stands for. */
  function Value(seg: string, t: string): string
    requires Matches(seg, t) && CheckWildcard(seg).Wild?
  {
    t[CheckWildcard(seg).loc..]
  }

  /** Two prefix wildcards that some request segment matches both of. */
  predicate Overlap(a: string, b: string) {
    var (x, y) := (CheckWildcard(a), CheckWildcard(b));
    x.Wild? && y.Wild? && (a[..x.loc] <= b[..y.loc] || b[..y.loc] <= a[..x.loc])
  }

  /** Siblings: distinct, neither is `{x}`, and no static one is matched by a wildcard one. */
  predicate Apart(a: string, b: string) {
    && a != b && !Universal(a) && !Universal(b)
    && (CheckWildcard(a).Plain? != CheckWildcard(b).Plain? ==> !Matches(a, b) && !Matches(b, a))
  }

  /** A request segment is matched by two siblings only when both are wildcards that overlap. */
  lemma MatchedTwice(a: string, b: string, t: string)
    requires Apart(a, b) && Matches(a, t) && Matches(b, t)
    ensures Overlap(a, b)
  {
    var (x, y) := (CheckWildcard(a), CheckWildcard(b));
    if x.Wild? && y.Wild? {
      assert t[..x.loc] == a[..x.loc] && t[..y.loc] == b[..y.loc];
      assert x.loc <= y.loc ==> t[..y.loc][..x.loc] == t[..x.loc];
      assert y.loc <= x.loc ==> t[..x.loc][..y.loc] == t[..y.loc];
    }
  }

  /** A request segment that `seg` matches. */
  function Instance(seg: string): string {
    match CheckWildcard(seg)
    case Plain => seg
    case Malformed => seg
    case Wild(loc, _) => seg[..loc] + "a"
  }

  lemma InstanceMatches(seg: string)
    requires seg != "" && '/' !in seg && !CheckWildcard(seg).Malformed?
    ensures Matches(seg, Instance(seg)) && Instance(seg) != "" && '/' !in Instance(seg)
  {
  }

  /** Overlapping wildcards do have a request segment in common. */
  lemma OverlapWitness(a: string, b: string) returns (t: string)
    requires Overlap(a, b) && '/' !in a && '/' !in b
    ensures Matches(a, t) && Matches(b, t) && t != "" && '/' !in t
  {
    var (x, y) := (CheckWildcard(a), CheckWildcard(b));
    t := if x.loc <= y.loc then b[..y.loc] + "a" else a[..x.loc] + "a";
  }

  datatype Verdict = Pass | Reuse | Refuse

  /** What one child decides about a new segment: look on, descend here, or give up. */
  function Judge(child: string, wild: bool, seg: string): Verdict {
    var w := CheckWildcard(seg);
    if !wild then
      if w.Plain? then (if child == seg then Reuse else Pass)
      else if w.Malformed? || w.loc == 0 then Refuse
      else if w.loc <= |child| && child[..w.loc] == seg[..w.loc] then Refuse
      else Pass
    else if child != "" && child[0] == '{' then
      if child == seg then Reuse else Refuse
    else if w.Plain? then
      var loc := Find(child, '{');
      if 0 < loc < |seg| && seg[..loc] == child[..loc] then Refuse else Pass
    else if w.Malformed? || w.loc == 0 then Refuse
    else
      var common := CommonPrefix(child, seg);
      if common == 0 then Pass
      else if common == |child| == |seg| then Reuse
      else if common == |child| || common == |seg| then Refuse
      else Pass
  }

  /** The child's wildcard flag is the one its segment calls for. */
  predicate Labelled(seg: string, wildName: string) {
    && seg != "" && '/' !in seg
    && match CheckWildcard(seg)
       case Plain => wildName == ""
       case Malformed => false
       case Wild(_, name) => wildName == name
  }

  lemma LabelledWild(seg: string, wildName: string)
    requires Labelled(seg, wildName)
    ensures wildName != "" <==> CheckWildcard(seg).Wild?
  {
  }

  /** A child that lets a new segment pass can live beside it. */
  lemma PassMeansApart(child: string, wildName: string, seg: string)
    requires Labelled(child, wildName) && seg != "" && !CheckWildcard(seg).Malformed?
    requires Judge(child, wildName != "", seg).Pass?
    ensures Apart(child, seg) && Apart(seg, child)
  {
    LabelledWild(child, wildName);
    CommonPrefixUnique(seg, seg, |seg|);
  }

  /** A static segment that is just the prefix of a new wildcard: refused, though no request matches both. */
  predicate StandAlone(child: string, seg: string) {
    CheckWildcard(child).Plain? && CheckWildcard(seg).Wild? && child == seg[..CheckWildcard(seg).loc]
  }

  /** Exactly what the conflict rules come to, for a labelled child and a well-formed segment. */
  lemma JudgeExact(child: string, wildName: string, seg: string)
    requires Labelled(child, wildName) && seg != "" && !CheckWildcard(seg).Malformed?
    ensures Judge(child, wildName != "", seg).Reuse? <==> child == seg
    ensures Judge(child, wildName != "", seg).Pass? <==> Apart(child, seg) && !StandAlone(child, seg)
  {
    LabelledWild(child, wildName);
    CommonPrefixUnique(seg, seg, |seg|);
    if child == seg {
      assert child[..|child|] == seg[..|seg|];
    } else if CheckWildcard(child).Wild? && CheckWildcard(seg).Wild? && !Universal(child) && !Universal(seg) {
      PrefixWildcardsAlwaysPass(child, wildName, seg);
    }
  }

  /** The segment `second` can be registered below a node that has a child with `first`. */
  predicate Passes(first: string, second: string) {
    Judge(first, CheckWildcard(first).Wild?, second).Pass?
  }

  /**
   * Whether two segments are accepted side by side depends on which comes first, if and only if
   * one is static and just the prefix of the other: the wildcard has to come first then.
   */
  lemma OrderMattersIff(a: string, b: string)
    requires a != "" && '/' !in a && !CheckWildcard(a).Malformed?
    requires b != "" && '/' !in b && !CheckWildcard(b).Malformed?
    ensures Passes(a, b) != Passes(b, a) <==> StandAlone(a, b) || StandAlone(b, a)
    ensures StandAlone(a, b) ==> Passes(b, a) && !Passes(a, b)
  {
    PassesExact(a, b);
    PassesExact(b, a);
    hide Judge, Passes;
  }

  lemma PassesExact(a: string, b: string)
    requires a != "" && '/' !in a && !CheckWildcard(a).Malformed? && b != "" && !CheckWildcard(b).Malformed?
    ensures Passes(a, b) <==> Apart(a, b) && !StandAlone(a, b)
  {
    var name := if CheckWildcard(a).Wild? then CheckWildcard(a).name else "";
    if CheckWildcard(a).Wild? {
      WildcardRead(a);
    }
    JudgeExact(a, name, b);
  }

  /** A child is reused only for the segment it already carries. */
  lemma ReuseMeansSame(child: string, wildName: string, seg: string)
    requires Judge(child, wildName != "", seg).Reuse?
    ensures child == seg
  {
    assert child[..|child|] == child && seg[..|seg|] == seg;
  }

  /**
   * Of two prefix wildcards that differ, neither is a prefix of the other: the test that would
   * refuse such a pair never fires, so two different prefix wildcards are always accepted.
   */
  lemma PrefixWildcardsAlwaysPass(child: string, wildName: string, seg: string)
    requires Labelled(child, wildName) && wildName != "" && CheckWildcard(seg).Wild?
    requires !Universal(child) && !Universal(seg) && child != seg
    ensures Judge(child, true, seg).Pass?
  {
    var n := CommonPrefix(child, seg);
    if n == |child| || n == |seg| {
      ClosedByBracket(child, seg, n);
    }
  }

  lemma ClosedByBracket(a: string, b: string, n: nat)
    requires CheckWildcard(a).Wild? && CheckWildcard(b).Wild?
    requires n <= |a| && n <= |b| && a[..n] == b[..n] && (n == |a| || n == |b|)
    ensures a == b
  {
    assert n == |a| ==> a[..n] == a;
    assert n == |b| ==> b[..n] == b;
  }
}
