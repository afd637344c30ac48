/** The promises of the router, over every run of registrations and every request. */
module RouteTheorems {
  import opened Strings
  import opened RouteSegments
  import opened RouteTree
  import opened RouteSearch
  import opened RouteHistory

  // -------------------------------------------------------------------------
  // The siblings of every reachable tree
  // -------------------------------------------------------------------------

  lemma {:induction false} NodeInv(t: Tree, at: seq<string>, path: seq<string>)
    requires Inv(t, at) && At(t, path).Some?
    ensures Inv(At(t, path).value, at + path)
    decreases |path|
  {
    hide Siblings;
    if path == [] {
      assert at + path == at;
    } else {
      var c := t.children[IndexOf(t.children, path[0], 0)];
      NodeInv(c, at + [c.segment], path[1..]);
      Associative(at, [path[0]], path[1..]);
      assert [path[0]] + path[1..] == path;
    }
  }

  /** The pattern of a node splits into the segments on its path from the root. */
  lemma PatternIsPath(regs: seq<(string, Handler)>, path: seq<string>)
    requires Entry(Run(EMPTY_ROOT, regs), path).Some?
    ensures Split(Entry(Run(EMPTY_ROOT, regs), path).value.0, '/') == path
  {
    EmptyRootInv();
    RunKeepsInv(EMPTY_ROOT, regs);
    EntryInv(Run(EMPTY_ROOT, regs), [], path);
    assert [] + path == path;
  }

  /**
   * At every node of every reachable tree: a `{x}` child has no sibling, siblings carry distinct
   * segments, a node is wild exactly when its segment is `p{name}`, and a request segment that
   * two children match is matched by two overlapping prefix wildcards, never by a static child.
   */
  lemma SiblingRules(regs: seq<(string, Handler)>, path: seq<string>, i: nat, j: nat, seg: string)
    requires At(Run(EMPTY_ROOT, regs), path).Some?
    requires var cs := At(Run(EMPTY_ROOT, regs), path).value.children; i < |cs| && j < |cs| && i != j
    ensures var cs := At(Run(EMPTY_ROOT, regs), path).value.children;
      && !Universal(cs[i].segment) && cs[i].segment != cs[j].segment
      && (cs[i].wild != "" <==> CheckWildcard(cs[i].segment).Wild?)
      && (Matches(cs[i].segment, seg) && Matches(cs[j].segment, seg) ==> Overlap(cs[i].segment, cs[j].segment))
  {
    var t := Run(EMPTY_ROOT, regs);
    EmptyRootInv();
    RunKeepsInv(EMPTY_ROOT, regs);
    NodeInv(t, [], path);
    var cs := At(t, path).value.children;
    hide Matches, Overlap, At, Run;
    assert Apart(cs[i].segment, cs[j].segment);
    LabelledChild(cs, i);
    LabelledWild(cs[i].segment, cs[i].wild);
    if Matches(cs[i].segment, seg) && Matches(cs[j].segment, seg) {
      MatchedTwice(cs[i].segment, cs[j].segment, seg);
    }
  }

  // -------------------------------------------------------------------------
  // Routing is exact if and only if no registered route is shadowed
  // -------------------------------------------------------------------------

  ghost predicate ServesAll(t: Tree) {
    forall url, q, h :: Registers(t, q, h) && PatternMatches(q, url) ==> Serves(t, url, q, h)
  }

  lemma ServesRegistered(t: Tree, url: string, q: string, h: Handler)
    requires RootInv(t) && NoShadow(t) && Registers(t, q, h) && PatternMatches(q, url)
    ensures Serves(t, url, q, h)
  {
    hide NoShadow, PathMatches;
    var path, segs := Split(q, '/'), Split(url, '/');
    if path != [] {
      SameLength(path, segs);
      SlashSplit();
      NoShadowExact(t, [], path, segs);
      SearchSound(t, [], segs, map[]);
    }
  }

  lemma ShadowedIsNotServed(t: Tree)
    requires RootInv(t) && !NoShadow(t)
    ensures !ServesAll(t)
  {
    hide NoShadow, PathMatches, Inv;
    var path, segs := ShadowBreaks(t, []);
    var (q, h) := Entry(t, path).value;
    EntryInv(t, [], path);
    assert [] + path == path;
    var url := Render(segs);
    SplitRender(segs);
    SameLength(path, segs);
    SlashSplit();
    assert Registers(t, q, h) && PatternMatches(q, url);
    if Serves(t, url, q, h) {
      ServesSound(t, url, q, h);
    }
  }

  /**
   * Over every run of registrations: a request resolves to a pattern exactly when that pattern
   * was accepted with that handler and matches, for all requests, if and only if no accepted
   * route lies below a prefix wildcard that an earlier sibling overlaps. In particular it does
   * when sibling prefix wildcards are prefix-free.
   */
  lemma RoutingIsExact(regs: seq<(string, Handler)>)
    ensures NoShadow(Run(EMPTY_ROOT, regs)) <==>
      forall url, q, h :: Serves(Run(EMPTY_ROOT, regs), url, q, h) <==>
        q != "" && (q, h) in Accepted(EMPTY_ROOT, regs) && PatternMatches(q, url)
  {
    hide NoShadow, PatternMatches, Serves, Registers, Inv;
    var t := Run(EMPTY_ROOT, regs);
    EmptyRootInv();
    RunKeepsInv(EMPTY_ROOT, regs);
    forall q, h
      ensures Registers(t, q, h) <==> q != "" && (q, h) in Accepted(EMPTY_ROOT, regs)
    {
      RunRegisters(EMPTY_ROOT, regs, q, h);
      NothingRegistered(q, h);
    }
    forall url, q, h | Serves(t, url, q, h)
      ensures Registers(t, q, h) && PatternMatches(q, url)
    {
      ServesSound(t, url, q, h);
    }
    if NoShadow(t) {
      forall url, q, h | Registers(t, q, h) && PatternMatches(q, url)
        ensures Serves(t, url, q, h)
      {
        ServesRegistered(t, url, q, h);
      }
    } else {
      ShadowedIsNotServed(t);
    }
  }

  lemma NothingRegistered(q: string, h: Handler)
    ensures !Registers(EMPTY_ROOT, q, h)
  {
  }

  /**
   * The same with a hypothesis that is easy to see in the patterns: when no two sibling prefix
   * wildcards overlap, requests resolve to exactly the accepted patterns that match them.
   */
  lemma PrefixFreeRoutingIsExact(regs: seq<(string, Handler)>)
    requires PrefixFree(Run(EMPTY_ROOT, regs))
    ensures forall url, q, h :: Serves(Run(EMPTY_ROOT, regs), url, q, h) <==>
      q != "" && (q, h) in Accepted(EMPTY_ROOT, regs) && PatternMatches(q, url)
  {
    hide NoShadow, PrefixFree, PatternMatches, Serves, Run, Accepted;
    PrefixFreeIsEnough(Run(EMPTY_ROOT, regs));
    RoutingIsExact(regs);
  }

  /** Then no request matches two accepted routes. */
  lemma PrefixFreeMatchIsUnique(regs: seq<(string, Handler)>, url: string, q: string, h: Handler,
                                q': string, h': Handler)
    requires PrefixFree(Run(EMPTY_ROOT, regs))
    requires q != "" && (q, h) in Accepted(EMPTY_ROOT, regs) && PatternMatches(q, url)
    requires q' != "" && (q', h') in Accepted(EMPTY_ROOT, regs) && PatternMatches(q', url)
    ensures q == q' && h == h'
  {
    hide PrefixFree, PatternMatches, SearchRoute, Run, Accepted;
    PrefixFreeRoutingIsExact(regs);
    assert Serves(Run(EMPTY_ROOT, regs), url, q, h) && Serves(Run(EMPTY_ROOT, regs), url, q', h');
  }

  /** No two sibling prefix wildcards anywhere in the tree overlap. */
  predicate PrefixFree(t: Tree)
    decreases t
  {
    && (forall i, j | 0 <= i < j < |t.children| :: !Overlap(t.children[i].segment, t.children[j].segment))
    && (forall i | 0 <= i < |t.children| :: PrefixFree(t.children[i]))
  }

  lemma {:induction false} PrefixFreeIsEnough(t: Tree)
    requires PrefixFree(t)
    ensures NoShadow(t)
    decreases t
  {
    forall i | 0 <= i < |t.children|
      ensures NoShadow(t.children[i])
    {
      PrefixFreeIsEnough(t.children[i]);
    }
  }

  /**
   * In every reachable tree a registration succeeds if and only if the URL has segments, its path
   * exists as far as its segments do without a pattern at its end, or the first new segment goes
   * with its siblings and all segments from there on are well-formed; `/` succeeds once.
   */
  lemma RegistrationSucceedsIff(regs: seq<(string, Handler)>, url: string, h: Handler)
    ensures var t := Run(EMPTY_ROOT, regs);
      InsertRoute(t, url, h).1 <==>
        if url == "/" then t.pattern == "" else Split(url, '/') != [] && Admits(t, Split(url, '/'))
  {
    hide Split, Insert, Admits;
    var t := Run(EMPTY_ROOT, regs);
    EmptyRootInv();
    RunKeepsInv(EMPTY_ROOT, regs);
    InsertSucceedsIff(t, [], url, Split(url, '/'), h);
  }

  // -------------------------------------------------------------------------
  // Later registrations never disturb what is there
  // -------------------------------------------------------------------------

  /** `t2` is `t1` with children added behind the others and patterns set where there was none. */
  ghost predicate Extends(t1: Tree, t2: Tree)
    decreases t1
  {
    && (t1.pattern != "" ==> t2.pattern == t1.pattern && t2.handler == t1.handler)
    && |t1.children| <= |t2.children|
    && forall i :: 0 <= i < |t1.children| ==>
         && t2.children[i].segment == t1.children[i].segment && t2.children[i].wild == t1.children[i].wild
         && Extends(t1.children[i], t2.children[i])
  }

  lemma {:induction false} ExtendsItself(t: Tree)
    ensures Extends(t, t)
    decreases t
  {
    forall i | 0 <= i < |t.children|
      ensures Extends(t.children[i], t.children[i])
    {
      ExtendsItself(t.children[i]);
    }
  }

  lemma {:induction false} ExtendsTransitive(t1: Tree, t2: Tree, t3: Tree)
    requires Extends(t1, t2) && Extends(t2, t3)
    ensures Extends(t1, t3)
    decreases t1
  {
    forall i | 0 <= i < |t1.children|
      ensures Extends(t1.children[i], t3.children[i])
    {
      ExtendsTransitive(t1.children[i], t2.children[i], t3.children[i]);
    }
  }

  lemma {:induction false} InsertExtends(t: Tree, url: string, segs: seq<string>, h: Handler)
    ensures Extends(t, Insert(t, url, segs, h).0)
    decreases |segs|
  {
    hide Judge;
    forall i | 0 <= i < |t.children|
      ensures Extends(t.children[i], t.children[i])
    {
      ExtendsItself(t.children[i]);
    }
    if segs != [] && !CheckWildcard(segs[0]).Malformed? && Choose(t.children, segs[0], 0).Child? {
      var i := Choose(t.children, segs[0], 0).i;
      InsertExtends(t.children[i], url, segs[1..], h);
      SegmentKept(t.children[i], url, segs[1..], h);
    }
  }

  lemma {:induction false} RunExtends(t: Tree, regs: seq<(string, Handler)>)
    ensures Extends(t, Run(t, regs))
    decreases |regs|
  {
    ExtendsItself(t);
    if regs != [] {
      var (url, h) := regs[0];
      var t' := InsertRoute(t, url, h).0;
      if url != "/" && Split(url, '/') != [] {
        InsertExtends(t, url, Split(url, '/'), h);
      }
      RunExtends(t', regs[1..]);
      ExtendsTransitive(t, t', Run(t', regs[1..]));
    }
  }

  lemma PickStable(c1: seq<Tree>, c2: seq<Tree>, seg: string)
    requires |c1| <= |c2|
    requires forall i :: 0 <= i < |c1| ==> c2[i].segment == c1[i].segment && c2[i].wild == c1[i].wild
    ensures Pick(c1, seg, 0) < |c1| ==> Pick(c2, seg, 0) == Pick(c1, seg, 0)
    ensures Pick(c1, seg, 0) == |c1| ==> Pick(c2, seg, 0) >= |c1|
  {
    assert forall i :: 0 <= i < |c1| ==> Enters(c1[i], seg) == Enters(c2[i], seg);
  }

  /** Extending a tree keeps every search result: the same node, grown, and the same parameters. */
  lemma {:induction false} SearchStable(t1: Tree, t2: Tree, segs: seq<string>, params: Params)
    requires Extends(t1, t2)
    ensures Search(t1, segs, params).0.Some? ==>
      && Search(t2, segs, params).0.Some? && Search(t2, segs, params).1 == Search(t1, segs, params).1
      && Extends(Search(t1, segs, params).0.value, Search(t2, segs, params).0.value)
    decreases |segs|
  {
    if segs != [] {
      PickStable(t1.children, t2.children, segs[0]);
      hide Enters;
      var i := Pick(t1.children, segs[0], 0);
      if i < |t1.children| {
        SearchStable(t1.children[i], t2.children[i], segs[1..], Bind(params, t1.children[i], segs[0]));
      }
    }
  }

  /**
   * Once a request resolves to a non-null handler, every later sequence of registrations leaves
   * it resolving to the same pattern and handler, with the same parameters.
   */
  lemma ResolutionIsStable(regs: seq<(string, Handler)>, more: seq<(string, Handler)>, url: string, params: Params)
    requires SearchHandler(Run(EMPTY_ROOT, regs), url, params).0 != Null
    ensures var t := Run(EMPTY_ROOT, regs);
      && SearchHandler(Run(t, more), url, params) == SearchHandler(t, url, params)
      && SearchRoute(Run(t, more), url, params).0.value.pattern == SearchRoute(t, url, params).0.value.pattern
  {
    hide Search;
    var t := Run(EMPTY_ROOT, regs);
    EmptyRootInv();
    RunKeepsInv(EMPTY_ROOT, regs);
    RunKeepsInv(t, more);
    RunExtends(t, more);
    SlashSplit();
    if url != t.pattern {
      SearchStable(t, Run(t, more), Split(url, '/'), params);
      SearchSound(t, [], Split(url, '/'), params);
    }
  }

  // -------------------------------------------------------------------------
  // Static routes are always reachable
  // -------------------------------------------------------------------------

  ghost predicate AllPlain(path: seq<string>) {
    forall k :: 0 <= k < |path| ==> CheckWildcard(path[k]).Plain?
  }

  lemma {:induction false} PlainPathFound(t: Tree, at: seq<string>, path: seq<string>, params: Params)
    requires Inv(t, at) && At(t, path).Some? && AllPlain(path) && Request(path)
    ensures Search(t, path, params) == (At(t, path), params)
    decreases |path|
  {
    hide Siblings;
    if path != [] {
      var j := IndexOf(t.children, path[0], 0);
      PlainChildPicked(t.children, j, params);
      PlainPathFound(t.children[j], at + [path[0]], path[1..], params);
    }
  }

  lemma PlainChildPicked(children: seq<Tree>, j: nat, params: Params)
    requires Siblings(children) && j < |children| && CheckWildcard(children[j].segment).Plain?
    ensures Pick(children, children[j].segment, 0) == j
    ensures Bind(params, children[j], children[j].segment) == params
  {
    var seg := children[j].segment;
    LabelledWild(seg, children[j].wild);
    FirstChoice(Node("", "", "", Null, children), j, seg);
  }

  /** Splitting invents no character. */
  lemma {:induction false} SplitKeepsOut(s: string, d: char, c: char)
    requires c !in s
    ensures forall k :: 0 <= k < |Split(s, d)| ==> c !in Split(s, d)[k]
    decreases |s|
  {
    hide Split, Find, Pieces;
    SplitStep(s, d);
    var i := Find(s, d);
    if i < |s| {
      SplitKeepsOut(s[i + 1..], d, c);
    }
  }

  /**
   * A wildcard-free URL that was accepted in any reachable tree resolves to its own callback and
   * binds no parameter, then and after every later sequence of registrations.
   */
  lemma StaticRoutesAreReachable(regs: seq<(string, Handler)>, url: string, h: Handler,
                                 more: seq<(string, Handler)>, params: Params)
    requires '{' !in url && InsertRoute(Run(EMPTY_ROOT, regs), url, h).1
    ensures SearchHandler(Run(InsertRoute(Run(EMPTY_ROOT, regs), url, h).0, more), url, params) == (h, params)
  {
    hide Search, Inv;
    var t0 := Run(EMPTY_ROOT, regs);
    EmptyRootInv();
    RunKeepsInv(EMPTY_ROOT, regs);
    var t1 := InsertRoute(t0, url, h).0;
    InsertRouteKeepsInv(t0, url, h);
    var t2 := Run(t1, more);
    RunKeepsInv(t1, more);
    var segs := Split(url, '/');
    InsertRouteEntry(t0, url, h, segs);
    RunRegisters(t1, more, url, h);
    if segs != [] {
      SplitKeepsOut(url, '/', '{');
      PlainPathFound(t2, [], segs, params);
      SlashSplit();
    }
  }

  // -------------------------------------------------------------------------
  // Parameters invert the pattern
  // -------------------------------------------------------------------------

  /** What binding the wildcards of `path` to the request `segs`, in order, leaves in `params`. */
  function BindAll(params: Params, path: seq<string>, segs: seq<string>): Params
    requires PathMatches(path, segs)
    decreases |path|
  {
    if path == [] then params else
      BindAll(if CheckWildcard(path[0]).Wild? then params[WildName(path[0]) := Value(path[0], segs[0])] else params,
              path[1..], segs[1..])
  }

  lemma BindFirst(params: Params, seg: string, path: seq<string>, segs: seq<string>)
    requires segs != [] && Matches(seg, segs[0]) && PathMatches(path, segs[1..])
    ensures PathMatches([seg] + path, segs)
    ensures var p := if CheckWildcard(seg).Wild? then params[WildName(seg) := Value(seg, segs[0])] else params;
      BindAll(params, [seg] + path, segs) == BindAll(p, path, segs[1..])
  {
    hide Matches;
    assert ([seg] + path)[1..] == path;
    assert forall k :: 0 < k < |segs| ==> segs[k] == segs[1..][k - 1];
  }

  lemma EnteredBinds(c: Tree, seg: string, params: Params)
    requires Labelled(c.segment, c.wild) && seg != "" && Enters(c, seg)
    ensures Matches(c.segment, seg)
    ensures Bind(params, c, seg) ==
      if CheckWildcard(c.segment).Wild? then params[WildName(c.segment) := Value(c.segment, seg)] else params
  {
    EntersIffMatches(c, seg, params);
    LabelledWild(c.segment, c.wild);
    hide Enters, Bind, Matches, Value;
  }

  lemma {:induction false} SearchBinds(t: Tree, at: seq<string>, segs: seq<string>, params: Params)
    requires Inv(t, at) && Request(segs) && Trail(t, segs).Some?
    ensures PathMatches(Trail(t, segs).value, segs)
    ensures Search(t, segs, params).1 == BindAll(params, Trail(t, segs).value, segs)
    decreases |segs|
  {
    if segs != [] {
      hide Matches, Enters, Bind, Value, CheckWildcard, WildName, Inv, PathMatches, BindAll;
      var i := Pick(t.children, segs[0], 0);
      var c := t.children[i];
      ChildInv(t, i, at);
      EnteredBinds(c, segs[0], params);
      SearchBinds(c, at + [c.segment], segs[1..], Bind(params, c, segs[0]));
      BindFirst(params, c.segment, Trail(c, segs[1..]).value, segs);
    }
  }

  /** Names that no wildcard of the path carries keep their value. */
  lemma {:induction false} OthersUntouched(params: Params, path: seq<string>, segs: seq<string>, name: string)
    requires PathMatches(path, segs)
    requires forall k :: 0 <= k < |path| && CheckWildcard(path[k]).Wild? ==> WildName(path[k]) != name
    ensures name in BindAll(params, path, segs) <==> name in params
    ensures name in params ==> BindAll(params, path, segs)[name] == params[name]
    decreases |path|
  {
    hide Matches;
    if path != [] {
      var p := if CheckWildcard(path[0]).Wild? then params[WildName(path[0]) := Value(path[0], segs[0])] else params;
      OthersUntouched(p, path[1..], segs[1..], name);
    }
  }

  /** The last wildcard of a name decides its value. */
  lemma {:induction false} LastBinding(params: Params, path: seq<string>, segs: seq<string>, k: nat)
    requires PathMatches(path, segs) && k < |path| && CheckWildcard(path[k]).Wild?
    requires forall j :: k < j < |path| && CheckWildcard(path[j]).Wild? ==> WildName(path[j]) != WildName(path[k])
    ensures var r := BindAll(params, path, segs);
      WildName(path[k]) in r && r[WildName(path[k])] == Value(path[k], segs[k])
    decreases |path|
  {
    hide Matches;
    var p := if CheckWildcard(path[0]).Wild? then params[WildName(path[0]) := Value(path[0], segs[0])] else params;
    if k == 0 {
      OthersUntouched(p, path[1..], segs[1..], WildName(path[0]));
    } else {
      LastBinding(p, path[1..], segs[1..], k - 1);
    }
  }

  /** A pattern segment with its wildcard replaced by the parameter's value. */
  function Substituted(seg: string, params: Params): string {
    match CheckWildcard(seg)
    case Wild(loc, name) => seg[..loc] + (if name in params then params[name] else "")
    case _ => seg
  }

  predicate SameName(a: string, b: string) {
    CheckWildcard(a).Wild? && CheckWildcard(b).Wild? && WildName(a) == WildName(b)
  }

  /** Wildcards of the same name stand for the same text. */
  ghost predicate Consistent(path: seq<string>, segs: seq<string>)
    requires PathMatches(path, segs)
  {
    forall j, k :: 0 <= j < k < |path| && SameName(path[j], path[k]) ==>
      Value(path[j], segs[j]) == Value(path[k], segs[k])
  }

  /** Some wildcard of the same name, not before `k`, decides the value that the name ends up with. */
  lemma LastOf(params: Params, path: seq<string>, segs: seq<string>, k: nat) returns (m: nat)
    requires PathMatches(path, segs) && k < |path| && CheckWildcard(path[k]).Wild?
    ensures k <= m < |path| && SameName(path[k], path[m])
    ensures var r := BindAll(params, path, segs);
      WildName(path[k]) in r && r[WildName(path[k])] == Value(path[m], segs[m])
  {
    hide Matches, WildName, BindAll;
    m := |path| - 1;
    while !SameName(path[k], path[m])
      invariant k <= m < |path|
      invariant forall j :: m < j < |path| ==> !SameName(path[k], path[j])
      decreases m
    {
      m := m - 1;
    }
    LastBinding(params, path, segs, m);
  }

  lemma SubstitutedValue(seg: string, t: string, params: Params)
    requires Matches(seg, t)
    ensures CheckWildcard(seg).Plain? || CheckWildcard(seg).Wild?
    ensures CheckWildcard(seg).Plain? ==> Substituted(seg, params) == t
    ensures CheckWildcard(seg).Wild? && WildName(seg) in params ==>
      (Substituted(seg, params) == t <==> params[WildName(seg)] == Value(seg, t))
  {
    hide Find;
    if CheckWildcard(seg).Wild? && WildName(seg) in params {
      var loc := CheckWildcard(seg).loc;
      assert t == seg[..loc] + Value(seg, t);
      SameFront(seg[..loc], params[WildName(seg)], Value(seg, t));
    }
  }

  lemma SameFront(front: string, a: string, b: string)
    ensures front + a == front + b <==> a == b
  {
    assert (front + a)[|front|..] == a && (front + b)[|front|..] == b;
  }

  ghost predicate Restores(path: seq<string>, segs: seq<string>, r: Params)
    requires |path| == |segs|
  {
    forall k :: 0 <= k < |path| ==> Substituted(path[k], r) == segs[k]
  }

  lemma ConsistentRestores(params: Params, path: seq<string>, segs: seq<string>)
    requires PathMatches(path, segs) && Consistent(path, segs)
    ensures Restores(path, segs, BindAll(params, path, segs))
  {
    hide WildName, BindAll, Matches, Substituted, Value;
    var r := BindAll(params, path, segs);
    forall k | 0 <= k < |path|
      ensures Substituted(path[k], r) == segs[k]
    {
      SubstitutedValue(path[k], segs[k], r);
      if CheckWildcard(path[k]).Wild? {
        var m := LastOf(params, path, segs, k);
      }
    }
  }

  lemma RestoresConsistent(params: Params, path: seq<string>, segs: seq<string>)
    requires PathMatches(path, segs) && Restores(path, segs, BindAll(params, path, segs))
    ensures Consistent(path, segs)
  {
    hide BindAll, Matches, Substituted, Value;
    var r := BindAll(params, path, segs);
    forall j, k | 0 <= j < k < |path| && SameName(path[j], path[k])
      ensures Value(path[j], segs[j]) == Value(path[k], segs[k])
    {
      SubstitutedValue(path[j], segs[j], r);
      SubstitutedValue(path[k], segs[k], r);
      var m := LastOf(params, path, segs, k);
    }
  }

  /**
   * The parameters a request binds: those of the pattern's wildcards in order, over whatever was
   * there before. Substituting them into the pattern gives back the request, segment by segment,
   * if and only if wildcards of the same name stood for the same text; distinct names always do.
   */
  lemma ParametersInvertPattern(regs: seq<(string, Handler)>, url: string, params: Params)
    requires var n := SearchRoute(Run(EMPTY_ROOT, regs), url, params).0; n.Some? && n.value.pattern != ""
    ensures var (n, r) := SearchRoute(Run(EMPTY_ROOT, regs), url, params);
      var path, segs := Split(n.value.pattern, '/'), Split(url, '/');
      && PathMatches(path, segs)
      && r == BindAll(params, path, segs)
      && (Restores(path, segs, r) <==> Consistent(path, segs))
  {
    hide Restores, Consistent;
    var t := Run(EMPTY_ROOT, regs);
    EmptyRootInv();
    RunKeepsInv(EMPTY_ROOT, regs);
    var (n, r) := SearchRoute(t, url, params);
    var path, segs := Split(n.value.pattern, '/'), Split(url, '/');
    if url == t.pattern {
      SlashSplit();
    } else {
      SearchSound(t, [], segs, params);
      SearchBinds(t, [], segs, params);
      assert [] + Trail(t, segs).value == Trail(t, segs).value;
    }
    if Consistent(path, segs) {
      ConsistentRestores(params, path, segs);
    }
    if Restores(path, segs, r) {
      RestoresConsistent(params, path, segs);
    }
  }

  // -------------------------------------------------------------------------
  // What a callback is called with
  // -------------------------------------------------------------------------

  /** Which node a URL leads to does not depend on the parameters. */
  lemma {:induction false} SameNode(t: Tree, segs: seq<string>, p1: Params, p2: Params)
    ensures Search(t, segs, p1).0 == Search(t, segs, p2).0
    decreases |segs|
  {
    if segs != [] {
      hide Enters, Bind;
      var i := Pick(t.children, segs[0], 0);
      if i < |t.children| {
        var c := t.children[i];
        SameNode(c, segs[1..], Bind(p1, c, segs[0]), Bind(p2, c, segs[0]));
      }
    }
  }

  lemma ServedParameters(t: Tree, url: string, q: string, h: Handler, params: Params)
    requires RootInv(t) && Serves(t, url, q, h)
    ensures PathMatches(Split(q, '/'), Split(url, '/'))
    ensures SearchHandler(t, url, params) == (h, BindAll(params, Split(q, '/'), Split(url, '/')))
  {
    hide Search, Inv, BindAll, PathMatches;
    var path, segs := Split(q, '/'), Split(url, '/');
    if url == t.pattern {
      assert path == [] && segs == [] by { SlashSplit(); }
      NothingBound(params);
    } else {
      ServesSound(t, url, q, h);
      SameNode(t, segs, map[], params);
      SearchSound(t, [], segs, params);
      SearchBinds(t, [], segs, params);
    }
  }

  lemma NothingBound(params: Params)
    ensures PathMatches([], []) && BindAll(params, [], []) == params
  {
  }

  /**
   * A request that resolves to a route is handled by the handler of that route, with the text that
   * each wildcard of the pattern stands for, over what the parameters held before.
   */
  lemma CallbackParameters(regs: seq<(string, Handler)>, url: string, q: string, h: Handler, params: Params)
    requires Serves(Run(EMPTY_ROOT, regs), url, q, h)
    ensures PathMatches(Split(q, '/'), Split(url, '/'))
    ensures SearchHandler(Run(EMPTY_ROOT, regs), url, params) ==
      (h, BindAll(params, Split(q, '/'), Split(url, '/')))
  {
    EmptyRootInv();
    RunKeepsInv(EMPTY_ROOT, regs);
    ServedParameters(Run(EMPTY_ROOT, regs), url, q, h, params);
  }

  /** A handler that is found is that of some accepted route that matches, to which the request resolves. */
  lemma CallbackIsRegistered(regs: seq<(string, Handler)>, url: string, params: Params) returns (q: string)
    requires SearchHandler(Run(EMPTY_ROOT, regs), url, params).0 != Null
    ensures var h := SearchHandler(Run(EMPTY_ROOT, regs), url, params).0;
      && q != "" && (q, h) in Accepted(EMPTY_ROOT, regs) && PatternMatches(q, url)
      && Serves(Run(EMPTY_ROOT, regs), url, q, h)
  {
    hide Search, PatternMatches, Registers, Accepted, At, Trail;
    var t := Run(EMPTY_ROOT, regs);
    EmptyRootInv();
    RunKeepsInv(EMPTY_ROOT, regs);
    var segs := Split(url, '/');
    var n := SearchRoute(t, url, params).0.value;
    q := n.pattern;
    if url != t.pattern {
      SameNode(t, segs, map[], params);
      SearchSound(t, [], segs, params);
    }
    ServesSound(t, url, q, n.handler);
    RunRegisters(EMPTY_ROOT, regs, q, n.handler);
    NothingRegistered(q, n.handler);
  }

  /** Without shadowed routes, every accepted route that matches handles the request, with its own parameters. */
  lemma MatchingRouteHandles(regs: seq<(string, Handler)>, url: string, q: string, h: Handler, params: Params)
    requires NoShadow(Run(EMPTY_ROOT, regs))
    requires q != "" && (q, h) in Accepted(EMPTY_ROOT, regs) && PatternMatches(q, url)
    ensures PathMatches(Split(q, '/'), Split(url, '/'))
    ensures SearchHandler(Run(EMPTY_ROOT, regs), url, params) ==
      (h, BindAll(params, Split(q, '/'), Split(url, '/')))
  {
    hide NoShadow, PatternMatches, SearchHandler, BindAll, Serves;
    RoutingIsExact(regs);
    CallbackParameters(regs, url, q, h, params);
  }

  // -------------------------------------------------------------------------
  // Failed registrations
  // -------------------------------------------------------------------------

  /** What only the grown tree finds was nowhere in the old one. */
  lemma {:induction false} NewTrail(t1: Tree, t2: Tree, at: seq<string>, segs: seq<string>)
    requires Extends(t1, t2) && Inv(t2, at)
    ensures Trail(t1, segs).Some? ==> Trail(t2, segs) == Trail(t1, segs)
    ensures Trail(t1, segs).None? && Trail(t2, segs).Some? ==> At(t1, Trail(t2, segs).value) == None
    decreases |segs|
  {
    hide Siblings;
    if segs != [] {
      PickStable(t1.children, t2.children, segs[0]);
      hide Enters;
      var i, j := Pick(t1.children, segs[0], 0), Pick(t2.children, segs[0], 0);
      if j < |t2.children| {
        var seg := t2.children[j].segment;
        ChildIndex(t2.children, j);
        IndexUnique(t1.children, seg, if j < |t1.children| then j else |t1.children|);
        if i < |t1.children| {
          NewTrail(t1.children[i], t2.children[i], at + [seg], segs[1..]);
        }
        assert Trail(t2, segs).Some? ==> Trail(t2, segs).value[1..] == Trail(t2.children[j], segs[1..]).value;
      }
    }
  }

  function HandlerOf(n: Option<Tree>): Handler {
    if n.None? then Null else n.value.handler
  }

  /** A grown tree that registers nothing new where its search leads to finds the same handler. */
  lemma SameEntrySameHandler(t1: Tree, t2: Tree, segs: seq<string>, params: Params)
    requires Inv(t1, []) && Inv(t2, []) && Extends(t1, t2) && Request(segs)
    requires Trail(t2, segs).Some? ==> Entry(t2, Trail(t2, segs).value) == Entry(t1, Trail(t2, segs).value)
    ensures HandlerOf(Search(t2, segs, params).0) == HandlerOf(Search(t1, segs, params).0)
  {
    SearchSound(t1, [], segs, params);
    SearchSound(t2, [], segs, params);
    NewTrail(t1, t2, [], segs);
    hide Search, At, Extends, PathMatches, Trail, Siblings;
  }

  /** A failed registration changes the handler of no request. */
  lemma FailureIsInvisible(regs: seq<(string, Handler)>, url: string, h: Handler, request: string, params: Params)
    requires !InsertRoute(Run(EMPTY_ROOT, regs), url, h).1
    ensures SearchHandler(InsertRoute(Run(EMPTY_ROOT, regs), url, h).0, request, params).0
         == SearchHandler(Run(EMPTY_ROOT, regs), request, params).0
  {
    hide Search, At, Extends, Trail, Insert, Inv, Entry, Split;
    var t := Run(EMPTY_ROOT, regs);
    EmptyRootInv();
    RunKeepsInv(EMPTY_ROOT, regs);
    InsertRouteKeepsInv(t, url, h);
    var t' := InsertRoute(t, url, h).0;
    if url != "/" && Split(url, '/') != [] {
      InsertKeepsPattern(t, url, Split(url, '/'), h);
      InsertExtends(t, url, Split(url, '/'), h);
      var segs := Split(request, '/');
      if Trail(t', segs).Some? {
        InsertRouteEntry(t, url, h, Trail(t', segs).value);
      }
      SameEntrySameHandler(t, t', segs, params);
    }
  }

  /** The insertion reaches a segment that no child of the node it is at takes or refuses. */
  predicate CreatesNode(t: Tree, segs: seq<string>)
    decreases |segs|
  {
    segs != [] && !CheckWildcard(segs[0]).Malformed? &&
    match Choose(t.children, segs[0], 0)
    case Nowhere => false
    case Child(i) => CreatesNode(t.children[i], segs[1..])
    case Fresh => true
  }

  /** Once a node is created for a URL whose segments are all well-formed, the insertion cannot fail. */
  lemma {:induction false} CreatedMeansAccepted(t: Tree, url: string, segs: seq<string>, h: Handler)
    requires WellFormed(segs) && CreatesNode(t, segs)
    ensures Insert(t, url, segs, h).1
    decreases |segs|
  {
    hide Judge;
    match Choose(t.children, segs[0], 0)
    case Nowhere =>
    case Child(i) => CreatedMeansAccepted(t.children[i], url, segs[1..], h);
    case Fresh => FreshInsertSucceeds(segs[0], WildName(segs[0]), url, segs[1..], h);
  }

  /** A failed insertion leaves the tree as it was if and only if it created no node on the way. */
  lemma {:induction false} UnchangedUnlessCreated(t: Tree, url: string, segs: seq<string>, h: Handler)
    requires !Insert(t, url, segs, h).1
    ensures Insert(t, url, segs, h).0 == t <==> !CreatesNode(t, segs)
    decreases |segs|
  {
    hide Judge;
    if segs != [] && !CheckWildcard(segs[0]).Malformed? {
      match Choose(t.children, segs[0], 0)
      case Nowhere =>
      case Child(i) =>
        var c := Insert(t.children[i], url, segs[1..], h).0;
        UnchangedUnlessCreated(t.children[i], url, segs[1..], h);
        assert t.children[i := c] == t.children <==> c == t.children[i] by {
          assert t.children[i := c][i] == c;
        }
      case Fresh =>
        assert |Insert(t, url, segs, h).0.children| == |t.children| + 1;
    }
  }

  /** In particular when the segments of the URL are all well-formed. */
  lemma WellFormedFailureChangesNothing(t: Tree, url: string, h: Handler)
    requires !InsertRoute(t, url, h).1 && WellFormed(Split(url, '/'))
    ensures InsertRoute(t, url, h).0 == t
  {
    var segs := Split(url, '/');
    if url != "/" && segs != [] {
      UnchangedUnlessCreated(t, url, segs, h);
      if CreatesNode(t, segs) {
        CreatedMeansAccepted(t, url, segs, h);
      }
    }
  }

  /**
   * The path does not exist, the segment where it ends is well-formed, and that segment goes with
   * the children of the last node that does exist.
   */
  predicate Grows(t: Tree, segs: seq<string>)
    decreases |segs|
  {
    segs != [] && !CheckWildcard(segs[0]).Malformed? &&
    var i := IndexOf(t.children, segs[0], 0);
    if i < |t.children| then Grows(t.children[i], segs[1..]) else GoesWith(t.children, segs[0])
  }

  lemma {:induction false} CreatesIffGrows(t: Tree, at: seq<string>, segs: seq<string>)
    requires Inv(t, at) && Request(segs)
    ensures CreatesNode(t, segs) <==> Grows(t, segs)
    decreases |segs|
  {
    hide Siblings, GoesWith, CheckWildcard;
    if segs != [] && !CheckWildcard(segs[0]).Malformed? {
      ChooseExact(t.children, segs[0]);
      var i := IndexOf(t.children, segs[0], 0);
      if i < |t.children| {
        CreatesIffGrows(t.children[i], at + [segs[0]], segs[1..]);
      }
    }
  }

  /** Where a path can grow, it is admitted if and only if all its segments are well-formed. */
  lemma {:induction false} GrowsAdmits(t: Tree, segs: seq<string>)
    requires Grows(t, segs)
    ensures Admits(t, segs) <==> WellFormed(segs)
    decreases |segs|
  {
    hide GoesWith, CheckWildcard;
    WellFormedStep(segs);
    hide WellFormed;
    var i := IndexOf(t.children, segs[0], 0);
    if i < |t.children| {
      GrowsAdmits(t.children[i], segs[1..]);
    }
  }

  lemma WellFormedStep(segs: seq<string>)
    requires segs != []
    ensures WellFormed(segs) <==> !CheckWildcard(segs[0]).Malformed? && WellFormed(segs[1..])
  {
    hide CheckWildcard;
    assert forall k :: 0 < k < |segs| ==> segs[k] == segs[1..][k - 1];
  }

  /**
   * In every reachable tree a failed registration leaves the tree as it was if and only if its
   * path could not grow there, and a registration fails and yet leaves nodes behind if and only
   * if the path could grow and some segment of the URL is malformed.
   */
  lemma FailureUnchangedIff(regs: seq<(string, Handler)>, url: string, h: Handler)
    ensures var (t, segs) := (Run(EMPTY_ROOT, regs), Split(url, '/'));
      var (t', ok) := InsertRoute(t, url, h);
      && (!ok ==> (t' == t <==> !Grows(t, segs)))
      && (!ok && t' != t <==> Grows(t, segs) && !WellFormed(segs))
  {
    hide Insert, Grows, Admits, WellFormed, CreatesNode;
    var (t, segs) := (Run(EMPTY_ROOT, regs), Split(url, '/'));
    EmptyRootInv();
    RunKeepsInv(EMPTY_ROOT, regs);
    SlashSplit();
    NothingGrows(t);
    if segs != [] {
      CreatesIffGrows(t, [], segs);
      InsertSucceedsIff(t, [], url, segs, h);
      if !Insert(t, url, segs, h).1 {
        UnchangedUnlessCreated(t, url, segs, h);
      }
      if Grows(t, segs) {
        GrowsAdmits(t, segs);
      }
    }
  }

  lemma NothingGrows(t: Tree)
    ensures !Grows(t, [])
  {
  }
}
