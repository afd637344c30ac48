/** Whole runs of registrations: what is registered, what requests resolve to, and what later calls change. */
module RouteHistory {
  import opened Strings
  import opened RouteSegments
  import opened RouteTree
  import opened RouteSearch

  // -------------------------------------------------------------------------
  // Insertion refines a map from paths to entries
  // -------------------------------------------------------------------------

  /** `IndexOf` is the only index with its two properties. */
  lemma IndexUnique(children: seq<Tree>, seg: string, r: nat)
    requires r <= |children| && (r < |children| ==> children[r].segment == seg)
    requires forall j :: 0 <= j < r ==> children[j].segment != seg
    ensures IndexOf(children, seg, 0) == r
  {
    assert IndexOf(children, seg, 0) <= r || r == |children|;
  }

  lemma EntryOfReplaced(t: Tree, i: nat, c: Tree, path: seq<string>)
    requires i < |t.children| && Siblings(t.children) && c.segment == t.children[i].segment
    ensures Entry(t.(children := t.children[i := c]), path) ==
      if path != [] && path[0] == c.segment then Entry(c, path[1..]) else Entry(t, path)
  {
    hide Siblings;
    if path != [] {
      ChildIndex(t.children, i);
      IndexUnique(t.children[i := c], path[0], IndexOf(t.children, path[0], 0));
    }
  }

  lemma EntryOfAppended(t: Tree, c: Tree, path: seq<string>)
    requires forall j :: 0 <= j < |t.children| ==> t.children[j].segment != c.segment
    ensures Entry(t.(children := t.children + [c]), path) ==
      if path != [] && path[0] == c.segment then Entry(c, path[1..]) else Entry(t, path)
    ensures path != [] && path[0] == c.segment ==> Entry(t, path) == None
  {
    if path != [] {
      var i := IndexOf(t.children, path[0], 0);
      IndexUnique(t.children + [c], path[0], if i < |t.children| || path[0] == c.segment then i else i + 1);
    }
  }

  /** A successful insertion adds one entry where there was none; a failing one changes no entry. */
  lemma {:induction false} InsertEntry(t: Tree, url: string, segs: seq<string>, h: Handler,
                                       at: seq<string>, path: seq<string>)
    requires Inv(t, at) && url != "" && Request(segs)
    ensures var (t', ok) := Insert(t, url, segs, h);
      && Entry(t', path) == (if ok && path == segs then Some((url, h)) else Entry(t, path))
      && (ok && path == segs ==> Entry(t, path) == None)
    decreases |segs|
  {
    hide Entry, Siblings, Judge, CheckWildcard, WildName, Choose, Insert;
    InsertStep(t, url, segs, h);
    if segs == [] {
      EntryOfNode(t, path);
      EntryOfNode(Insert(t, url, segs, h).0, path);
    } else if !CheckWildcard(segs[0]).Malformed? {
      match Choose(t.children, segs[0], 0)
      case Nowhere =>
      case Child(i) =>
        var c := t.children[i];
        ReuseMeansSame(c.segment, c.wild, segs[0]);
        SegmentKept(c, url, segs[1..], h);
        ChildEntry(t, i, path);
        EntryOfReplaced(t, i, Insert(c, url, segs[1..], h).0, path);
        if path != [] {
          InsertEntry(c, url, segs[1..], h, at + [c.segment], path[1..]);
          SamePath(path, segs);
        }
      case Fresh =>
        var c := NewNode(segs[0], WildName(segs[0]));
        FreshNode(segs[0], at + [segs[0]]);
        SegmentKept(c, url, segs[1..], h);
        PassedDiffer(t.children, segs[0]);
        EntryOfAppended(t, Insert(c, url, segs[1..], h).0, path);
        if path != [] {
          InsertEntry(c, url, segs[1..], h, at + [c.segment], path[1..]);
          EntryOfNode(c, path[1..]);
          SamePath(path, segs);
        }
    }
  }

  /** A node's own entry, and the entries of a node without children. */
  lemma EntryOfNode(t: Tree, path: seq<string>)
    ensures path == [] ==> Entry(t, path) == if t.pattern != "" then Some((t.pattern, t.handler)) else None
    ensures path != [] && t.children == [] ==> Entry(t, path) == None
    ensures path != [] ==> forall p, h :: Entry(t.(pattern := p, handler := h), path) == Entry(t, path)
  {
  }

  lemma ChildEntry(t: Tree, i: nat, path: seq<string>)
    requires Siblings(t.children) && i < |t.children|
    ensures path != [] && path[0] == t.children[i].segment ==> Entry(t, path) == Entry(t.children[i], path[1..])
  {
    ChildIndex(t.children, i);
  }

  lemma SegmentKept(t: Tree, url: string, segs: seq<string>, h: Handler)
    ensures Insert(t, url, segs, h).0.segment == t.segment && Insert(t, url, segs, h).0.wild == t.wild
  {
  }

  lemma SamePath(path: seq<string>, segs: seq<string>)
    requires path != [] && segs != []
    ensures path == segs <==> path[0] == segs[0] && path[1..] == segs[1..]
  {
    assert path == [path[0]] + path[1..] && segs == [segs[0]] + segs[1..];
  }

  lemma PassedDiffer(children: seq<Tree>, seg: string)
    requires Siblings(children) && seg != "" && !CheckWildcard(seg).Malformed?
    requires forall j :: 0 <= j < |children| ==> Judge(children[j].segment, children[j].wild != "", seg).Pass?
    ensures forall j :: 0 <= j < |children| ==> children[j].segment != seg
  {
    forall j | 0 <= j < |children|
      ensures children[j].segment != seg
    {
      PassMeansApart(children[j].segment, children[j].wild, seg);
    }
  }

  // -------------------------------------------------------------------------
  // Exactly which insertions succeed
  // -------------------------------------------------------------------------

  predicate WellFormed(segs: seq<string>) {
    forall k :: 0 <= k < |segs| ==> !CheckWildcard(segs[k]).Malformed?
  }

  /** A new segment goes with all children of a node. */
  predicate GoesWith(children: seq<Tree>, seg: string) {
    forall j :: 0 <= j < |children| ==> Apart(children[j].segment, seg) && !StandAlone(children[j].segment, seg)
  }

  /**
   * The path exists as far as its segments do, has no pattern yet if all exist, and otherwise the
   * first new segment goes with its siblings and the rest is well-formed.
   */
  predicate Admits(t: Tree, segs: seq<string>)
    decreases |segs|
  {
    if segs == [] then t.pattern == ""
    else if CheckWildcard(segs[0]).Malformed? then false
    else
      var i := IndexOf(t.children, segs[0], 0);
      if i < |t.children| then Admits(t.children[i], segs[1..])
      else GoesWith(t.children, segs[0]) && WellFormed(segs[1..])
  }

  /** A child is always found again by its own segment; a new segment needs to go with all children. */
  lemma ChooseExact(children: seq<Tree>, seg: string)
    requires Siblings(children) && seg != "" && !CheckWildcard(seg).Malformed?
    ensures var i := IndexOf(children, seg, 0);
      && (i < |children| ==> Choose(children, seg, 0) == Child(i))
      && (i == |children| ==> (Choose(children, seg, 0) == Fresh <==> GoesWith(children, seg)))
      && (i == |children| ==> !Choose(children, seg, 0).Child?)
  {
    forall j | 0 <= j < |children|
      ensures JudgedExactly(children[j], seg)
    {
      JudgeExact(children[j].segment, children[j].wild, seg);
    }
    hide Judge, Labelled, Apart, StandAlone;
    var i := IndexOf(children, seg, 0);
    if i < |children| {
      ChosenFrom(children, seg, i, 0);
    } else if GoesWith(children, seg) {
      ChosenFrom(children, seg, i, 0);
    }
  }

  ghost predicate JudgedExactly(c: Tree, seg: string) {
    && (Judge(c.segment, c.wild != "", seg).Reuse? <==> c.segment == seg)
    && (Judge(c.segment, c.wild != "", seg).Pass? <==> Apart(c.segment, seg) && !StandAlone(c.segment, seg))
  }

  /** Children that let a segment pass are skipped. */
  lemma {:induction false} ChosenFrom(children: seq<Tree>, seg: string, i: nat, from: nat)
    requires from <= i <= |children|
    requires forall j :: from <= j < i ==> Judge(children[j].segment, children[j].wild != "", seg).Pass?
    ensures Choose(children, seg, from) == Choose(children, seg, i)
    decreases i - from
  {
    hide Judge;
    if from < i {
      ChosenFrom(children, seg, i, from + 1);
    }
  }

  /** Below a new node an insertion succeeds exactly when all remaining segments are well-formed. */
  lemma {:induction false} FreshInsertSucceeds(seg: string, wild: string, url: string, segs: seq<string>, h: Handler)
    ensures Insert(NewNode(seg, wild), url, segs, h).1 <==> WellFormed(segs)
    decreases |segs|
  {
    if segs != [] && !CheckWildcard(segs[0]).Malformed? {
      FreshInsertSucceeds(segs[0], WildName(segs[0]), url, segs[1..], h);
    }
  }

  lemma {:induction false} InsertSucceedsIff(t: Tree, at: seq<string>, url: string, segs: seq<string>, h: Handler)
    requires Inv(t, at) && Request(segs)
    ensures Insert(t, url, segs, h).1 <==> Admits(t, segs)
    decreases |segs|
  {
    hide Siblings, GoesWith, WellFormed, CheckWildcard;
    if segs != [] && !CheckWildcard(segs[0]).Malformed? {
      ChooseExact(t.children, segs[0]);
      var i := IndexOf(t.children, segs[0], 0);
      if i < |t.children| {
        InsertSucceedsIff(t.children[i], at + [segs[0]], url, segs[1..], h);
      } else {
        FreshInsertSucceeds(segs[0], WildName(segs[0]), url, segs[1..], h);
      }
    }
  }

  /** `q` is registered with handler `h`. */
  ghost predicate Registers(t: Tree, q: string, h: Handler) {
    q != "" && Entry(t, Split(q, '/')) == Some((q, h))
  }

  lemma InsertRouteEntry(t: Tree, url: string, h: Handler, path: seq<string>)
    requires RootInv(t)
    ensures var (t', ok) := InsertRoute(t, url, h);
      && Entry(t', path) == (if ok && path == Split(url, '/') then Some((url, h)) else Entry(t, path))
      && (ok && path == Split(url, '/') ==> Entry(t, path) == None)
  {
    SlashSplit();
    hide Split, Insert, Inv;
    if url == "/" {
      assert path != [] ==> At(InsertRoute(t, url, h).0, path) == At(t, path);
    } else if Split(url, '/') != [] {
      InsertEntry(t, url, Split(url, '/'), h, [], path);
    }
  }

  /** The registrations of a run that were accepted, in order. */
  function Accepted(t: Tree, regs: seq<(string, Handler)>): seq<(string, Handler)>
    decreases |regs|
  {
    if regs == [] then [] else
      var (t', ok) := InsertRoute(t, regs[0].0, regs[0].1);
      (if ok then [regs[0]] else []) + Accepted(t', regs[1..])
  }

  /** What is registered after a run is what was before, and what the run accepted. */
  lemma {:induction false} RunRegisters(t: Tree, regs: seq<(string, Handler)>, q: string, h: Handler)
    requires RootInv(t)
    ensures Registers(Run(t, regs), q, h) <==> Registers(t, q, h) || (q != "" && (q, h) in Accepted(t, regs))
    decreases |regs|
  {
    hide Entry;
    if regs != [] {
      var (t', ok) := InsertRoute(t, regs[0].0, regs[0].1);
      InsertRouteKeepsInv(t, regs[0].0, regs[0].1);
      InsertRouteEntry(t, regs[0].0, regs[0].1, Split(q, '/'));
      RunRegisters(t', regs[1..], q, h);
    }
  }

  // -------------------------------------------------------------------------
  // Requests by URL
  // -------------------------------------------------------------------------

  /** The declarative reading of a pattern: segment by segment, and `/` for itself. */
  predicate PatternMatches(q: string, url: string) {
    var path := Split(q, '/');
    if path == [] then q == url else PathMatches(path, Split(url, '/'))
  }

  /** The request resolves to the route with pattern `q` and handler `h`. */
  ghost predicate Serves(t: Tree, url: string, q: string, h: Handler) {
    var n := SearchRoute(t, url, map[]).0;
    q != "" && n.Some? && n.value.pattern == q && n.value.handler == h
  }

  lemma {:induction false} EntryInv(t: Tree, at: seq<string>, path: seq<string>)
    requires Inv(t, at) && Entry(t, path).Some?
    ensures Split(Entry(t, path).value.0, '/') == at + path
    decreases |path|
  {
    hide Siblings, Split;
    if path == [] {
      assert at + path == at;
    } else {
      var c := t.children[IndexOf(t.children, path[0], 0)];
      EntryInv(c, at + [c.segment], path[1..]);
      Associative(at, [path[0]], path[1..]);
      assert [path[0]] + path[1..] == path;
    }
  }

  /** Whatever a request resolves to is registered and matches it. */
  lemma ServesSound(t: Tree, url: string, q: string, h: Handler)
    requires RootInv(t) && Serves(t, url, q, h)
    ensures Registers(t, q, h) && PatternMatches(q, url)
    ensures url != t.pattern ==> Trail(t, Split(url, '/')) == Some(Split(q, '/'))
  {
    hide PathMatches;
    if url != t.pattern {
      var segs := Split(url, '/');
      SearchSound(t, [], segs, map[]);
      var path := Trail(t, segs).value;
      assert [] + path == path;
      SameLength(path, segs);
    } else {
      SlashSplit();
    }
  }

  /** A URL for every list of request segments. */
  function Render(segs: seq<string>): string {
    if segs == [] then "" else "/" + segs[0] + Render(segs[1..])
  }

  lemma SplitRender(segs: seq<string>)
    requires Request(segs)
    ensures Split(Render(segs), '/') == segs
  {
    SplitOnto("", segs);
    assert "" + Render(segs) == Render(segs);
    assert [] + segs == segs;
  }

  lemma {:induction false} SplitOnto(s: string, segs: seq<string>)
    requires '/' !in s && Request(segs)
    ensures Split(s + Render(segs), '/') == (if s == "" then [] else [s]) + segs
    decreases |segs|
  {
    hide Split;
    SplitPiece(s);
    if segs == [] {
      assert s + Render(segs) == s;
    } else {
      var rest := segs[0] + Render(segs[1..]);
      assert s + Render(segs) == s + ['/'] + rest;
      SplitConcat(s, '/', rest);
      SplitOnto(segs[0], segs[1..]);
      assert [segs[0]] + segs[1..] == segs;
    }
  }

  lemma SplitPiece(s: string)
    requires '/' !in s
    ensures Split(s, '/') == if s == "" then [] else [s]
  {
    if s != "" {
      SplitWhole(s, '/');
    }
  }
}
