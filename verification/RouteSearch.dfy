/** What greedy search finds, and when that is exactly what the registered patterns ask for. */
module RouteSearch {
  import opened Strings
  import opened RouteSegments
  import opened RouteTree

  /** Request segments: what splitting a URL at its slashes yields. */
  ghost predicate Request(segs: seq<string>) {
    forall k :: 0 <= k < |segs| ==> segs[k] != "" && '/' !in segs[k]
  }

  /** The path of a node, as the segments on the way from the root, matches a request. */
  predicate PathMatches(path: seq<string>, segs: seq<string>) {
    |path| == |segs| && forall k :: 0 <= k < |path| ==> Matches(path[k], segs[k])
  }

  lemma SameLength(path: seq<string>, segs: seq<string>)
    requires PathMatches(path, segs)
    ensures |path| == |segs|
  {
  }

  // -------------------------------------------------------------------------
  // Nodes by their path
  // -------------------------------------------------------------------------

  /** The first child from number `i` on that carries the segment `seg`. */
  function IndexOf(children: seq<Tree>, seg: string, i: nat): (r: nat)
    requires i <= |children|
    ensures i <= r <= |children|
    ensures r < |children| ==> children[r].segment == seg
    ensures forall j :: i <= j < r ==> children[j].segment != seg
    decreases |children| - i
  {
    if i == |children| || children[i].segment == seg then i else IndexOf(children, seg, i + 1)
  }

  function At(t: Tree, path: seq<string>): Option<Tree>
    decreases |path|
  {
    if path == [] then Some(t) else
      var i := IndexOf(t.children, path[0], 0);
      if i == |t.children| then None else At(t.children[i], path[1..])
  }

  /** The pattern and the handler registered at a path. */
  function Entry(t: Tree, path: seq<string>): Option<(string, Handler)> {
    match At(t, path)
    case Some(n) => if n.pattern != "" then Some((n.pattern, n.handler)) else None
    case None => None
  }

  /** Siblings carry different segments, so a child is found by its own. */
  lemma ChildIndex(children: seq<Tree>, i: nat)
    requires Siblings(children) && i < |children|
    ensures IndexOf(children, children[i].segment, 0) == i
  {
    var j := IndexOf(children, children[i].segment, 0);
    assert j <= i;
    assert j != i ==> Apart(children[j].segment, children[i].segment);
  }

  lemma LabelledChild(children: seq<Tree>, i: nat)
    requires Siblings(children) && i < |children|
    ensures Labelled(children[i].segment, children[i].wild)
  {
  }

  // -------------------------------------------------------------------------
  // Greedy search is sound on every tree
  // -------------------------------------------------------------------------

  /** The test search makes at a child is the declarative one, and it binds the wildcard's value. */
  lemma EntersIffMatches(c: Tree, seg: string, params: Params)
    requires Labelled(c.segment, c.wild) && seg != ""
    ensures Enters(c, seg) <==> Matches(c.segment, seg)
    ensures Enters(c, seg) ==>
      Bind(params, c, seg) == if c.wild == "" then params else params[c.wild := Value(c.segment, seg)]
  {
    LabelledWild(c.segment, c.wild);
    if c.wild != "" {
      var loc := CheckWildcard(c.segment).loc;
      if loc < |seg| && c.segment[..loc] == seg[..loc] && seg[loc] != '{' {
        CommonPrefixUnique(c.segment, seg, loc);
      }
    }
  }

  /** The segments of the nodes greedy search walks through. */
  function Trail(t: Tree, segs: seq<string>): Option<seq<string>>
    decreases |segs|
  {
    if segs == [] then Some([]) else
      var i := Pick(t.children, segs[0], 0);
      if i == |t.children| then None else
        match Trail(t.children[i], segs[1..])
        case None => None
        case Some(p) => Some([t.children[i].segment] + p)
  }

  /**
   * With no hypothesis on the routes: whatever node search returns lies at a path that matches
   * the request segment by segment, and the node satisfies the tree invariant there.
   */
  lemma {:induction false} SearchSound(t: Tree, at: seq<string>, segs: seq<string>, params: Params)
    requires Inv(t, at) && Request(segs)
    ensures Search(t, segs, params).0.Some? <==> Trail(t, segs).Some?
    ensures Trail(t, segs).Some? ==>
      var path := Trail(t, segs).value;
      && At(t, path) == Search(t, segs, params).0
      && PathMatches(path, segs)
      && Inv(At(t, path).value, at + path)
    decreases |segs|
  {
    hide PathMatches, At, Siblings, Bind;
    if segs == [] {
      EmptyPath(t, at);
    } else {
      var i := Pick(t.children, segs[0], 0);
      if i < |t.children| {
        var c := t.children[i];
        SearchSound(c, at + [c.segment], segs[1..], Bind(params, c, segs[0]));
        if Trail(c, segs[1..]).Some? {
          var p := Trail(c, segs[1..]).value;
          EnteredChild(t, i, p, segs);
          Associative(at, [c.segment], p);
        }
      }
    }
  }

  lemma EmptyPath(t: Tree, at: seq<string>)
    ensures At(t, []) == Some(t) && PathMatches([], []) && at + [] == at
  {
  }

  lemma EnteredChild(t: Tree, i: nat, p: seq<string>, segs: seq<string>)
    requires Siblings(t.children) && i < |t.children| && segs != [] && segs[0] != "" && Enters(t.children[i], segs[0])
    requires PathMatches(p, segs[1..])
    ensures PathMatches([t.children[i].segment] + p, segs)
    ensures At(t, [t.children[i].segment] + p) == At(t.children[i], p)
  {
    LabelledChild(t.children, i);
    EntersIffMatches(t.children[i], segs[0], map[]);
    hide Matches, Siblings, Labelled, Enters;
    ChildIndex(t.children, i);
    var path := [t.children[i].segment] + p;
    assert path[1..] == p;
    assert forall k :: 0 < k < |segs| ==> segs[k] == segs[1..][k - 1] && path[k] == p[k - 1];
  }

  // -------------------------------------------------------------------------
  // When greedy search is exact
  // -------------------------------------------------------------------------

  predicate HasRoute(t: Tree)
    decreases t
  {
    t.pattern != "" || exists i | 0 <= i < |t.children| :: HasRoute(t.children[i])
  }

  /** No registered route lies below a prefix wildcard that an earlier sibling overlaps. */
  predicate NoShadow(t: Tree)
    decreases t
  {
    && (forall i, j | 0 <= i < j < |t.children| ::
          Overlap(t.children[i].segment, t.children[j].segment) ==> !HasRoute(t.children[j]))
    && (forall i | 0 <= i < |t.children| :: NoShadow(t.children[i]))
  }

  ghost predicate Exact(t: Tree) {
    forall path, segs :: Request(segs) && Entry(t, path).Some? && PathMatches(path, segs) ==>
      Trail(t, segs) == Some(path)
  }

  /** A route found at a path below a child is a route of that child. */
  lemma {:induction false} EntryMeansRoute(t: Tree, path: seq<string>)
    requires Entry(t, path).Some?
    ensures HasRoute(t)
    decreases |path|
  {
    if path != [] {
      EntryMeansRoute(t.children[IndexOf(t.children, path[0], 0)], path[1..]);
    }
  }

  /** A child that no earlier sibling overlaps is the one search picks for what it matches. */
  lemma FirstChoice(t: Tree, i: nat, seg: string)
    requires Siblings(t.children) && i < |t.children| && Matches(t.children[i].segment, seg) && seg != ""
    requires forall k :: 0 <= k < i ==> !Overlap(t.children[k].segment, t.children[i].segment)
    ensures Pick(t.children, seg, 0) == i
  {
    hide Matches, Apart, Overlap, Enters;
    var k := Pick(t.children, seg, 0);
    EntersIffMatches(t.children[i], seg, map[]);
    assert k <= i;
    if k < i {
      EntersIffMatches(t.children[k], seg, map[]);
      MatchedTwice(t.children[k].segment, t.children[i].segment, seg);
    }
  }

  /** Without shadowed routes a registered path that matches is the one search takes. */
  lemma {:induction false} NoShadowExact(t: Tree, at: seq<string>, path: seq<string>, segs: seq<string>)
    requires Inv(t, at) && NoShadow(t) && Request(segs) && Entry(t, path).Some? && PathMatches(path, segs)
    ensures Trail(t, segs) == Some(path)
    decreases |path|
  {
    hide Matches, Siblings, Overlap, Enters;
    if path != [] {
      var j := IndexOf(t.children, path[0], 0);
      var c := t.children[j];
      EntryMeansRoute(c, path[1..]);
      FirstChoice(t, j, segs[0]);
      NoShadowExact(c, at + [c.segment], path[1..], segs[1..]);
      assert [path[0]] + path[1..] == path;
    }
  }

  /** A subtree with a route has a request that a registered path of it matches. */
  lemma {:induction false} RouteWitness(t: Tree, at: seq<string>) returns (path: seq<string>, segs: seq<string>)
    requires Inv(t, at) && HasRoute(t)
    ensures Entry(t, path).Some? && Request(segs) && PathMatches(path, segs)
    decreases t
  {
    hide Matches, Apart, Instance;
    if t.pattern != "" {
      path, segs := [], [];
    } else {
      var i :| 0 <= i < |t.children| && HasRoute(t.children[i]);
      var c := t.children[i];
      var p, s := RouteWitness(c, at + [c.segment]);
      InstanceMatches(c.segment);
      path, segs := ExtendBoth(t, i, p, s, Instance(c.segment));
    }
  }

  /** Puts a child's segment in front of a path below it, and a request segment it matches in front of the request. */
  lemma ExtendBoth(t: Tree, i: nat, p: seq<string>, s: seq<string>, seg: string)
    returns (path: seq<string>, segs: seq<string>)
    requires Siblings(t.children) && i < |t.children|
    requires Entry(t.children[i], p).Some? && Request(s) && PathMatches(p, s)
    requires Matches(t.children[i].segment, seg) && seg != "" && '/' !in seg
    ensures path == [t.children[i].segment] + p && segs == [seg] + s
    ensures Entry(t, path) == Entry(t.children[i], p) && Request(segs) && PathMatches(path, segs)
  {
    hide Matches, Siblings;
    path, segs := [t.children[i].segment] + p, [seg] + s;
    ChildIndex(t.children, i);
    assert path[1..] == p;
    forall k | 0 <= k < |path|
      ensures Matches(path[k], segs[k])
    {
      assert k > 0 ==> path[k] == p[k - 1] && segs[k] == s[k - 1];
    }
  }

  /** A request that a child search would be led astray by leads astray at the node as well. */
  lemma LiftBreak(t: Tree, i: nat, p: seq<string>, s: seq<string>) returns (path: seq<string>, segs: seq<string>)
    requires Siblings(t.children) && i < |t.children|
    requires forall k :: 0 <= k < i ==> !Overlap(t.children[k].segment, t.children[i].segment)
    requires Entry(t.children[i], p).Some? && Request(s) && PathMatches(p, s) && Trail(t.children[i], s) != Some(p)
    ensures Entry(t, path).Some? && Request(segs) && PathMatches(path, segs) && Trail(t, segs) != Some(path)
  {
    var c := t.children[i];
    LabelledChild(t.children, i);
    InstanceMatches(c.segment);
    hide Siblings, Matches, Overlap, Instance, Enters, Labelled;
    var seg := Instance(c.segment);
    path, segs := ExtendBoth(t, i, p, s, seg);
    FirstChoice(t, i, seg);
    assert segs[1..] == s && segs[0] == seg && path[1..] == p;
    assert Trail(c, s).Some? ==> ([c.segment] + Trail(c, s).value)[1..] == Trail(c, s).value;
  }

  /** A shadowed route: a request that it matches, and that search does not lead to it. */
  lemma {:induction false} ShadowBreaks(t: Tree, at: seq<string>) returns (path: seq<string>, segs: seq<string>)
    requires Inv(t, at) && !NoShadow(t)
    ensures Entry(t, path).Some? && Request(segs) && PathMatches(path, segs) && Trail(t, segs) != Some(path)
    decreases t
  {
    hide Siblings, Overlap, Entry, Request, PathMatches, Trail;
    if i, j :| 0 <= i < j < |t.children| && Overlap(t.children[i].segment, t.children[j].segment)
               && HasRoute(t.children[j]) {
      path, segs := OverlapBreaks(t, at, i, j);
    } else {
      var i :| 0 <= i < |t.children| && !NoShadow(t.children[i]);
      var c := t.children[i];
      var p, s := ShadowBreaks(c, at + [c.segment]);
      EntryMeansRoute(c, p);
      path, segs := LiftBreak(t, i, p, s);
    }
  }

  lemma OverlapBreaks(t: Tree, at: seq<string>, i: nat, j: nat) returns (path: seq<string>, segs: seq<string>)
    requires Inv(t, at) && i < j < |t.children|
    requires Overlap(t.children[i].segment, t.children[j].segment) && HasRoute(t.children[j])
    ensures Entry(t, path).Some? && Request(segs) && PathMatches(path, segs) && Trail(t, segs) != Some(path)
  {
    hide Matches, Overlap, Enters;
    var a, b := t.children[i], t.children[j];
    var seg := OverlapWitness(a.segment, b.segment);
    var p, s := RouteWitness(b, at + [b.segment]);
    path, segs := ExtendBoth(t, j, p, s, seg);
    EntersIffMatches(a, seg, map[]);
    var k := Pick(t.children, seg, 0);
    assert k <= i;
    assert t.children[k].segment != b.segment by {
      assert Apart(t.children[k].segment, b.segment);
    }
    assert Trail(t, segs).Some? ==> Trail(t, segs).value[0] == t.children[k].segment;
  }

  /** Greedy search without backtracking is exact on a tree if and only if no route of it is shadowed. */
  lemma ExactIffNoShadow(t: Tree, at: seq<string>)
    requires Inv(t, at)
    ensures Exact(t) <==> NoShadow(t)
  {
    hide Inv, NoShadow, Request, PathMatches, Entry, Trail;
    if NoShadow(t) {
      forall path, segs | Request(segs) && Entry(t, path).Some? && PathMatches(path, segs)
        ensures Trail(t, segs) == Some(path)
      {
        NoShadowExact(t, at, path, segs);
      }
    } else {
      var path, segs := ShadowBreaks(t, at);
    }
  }
}
