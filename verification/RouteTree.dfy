/** The route tree as a value: insertion with its conflict rules, greedy search, and what both keep. */
module RouteTree {
  import opened Strings
  import opened RouteSegments

  /** A request callback; null is the empty `std::function`. */
  datatype Handler = Null | Callback(id: int)

  type Params = map<string, string>

  datatype Tree = Node(segment: string, wild: string, pattern: string, handler: Handler, children: seq<Tree>)

  function NewNode(segment: string, wild: string): Tree {
    Node(segment, wild, "", Null, [])
  }

  const EMPTY_ROOT := NewNode("", "")

  // -------------------------------------------------------------------------
  // Insertion
  // -------------------------------------------------------------------------

  /** Where an insertion goes on below a node. */
  datatype Choice = Nowhere | Child(i: nat) | Fresh

  /** The first child from number `i` on that does not let `seg` pass decides. */
  function Choose(children: seq<Tree>, seg: string, i: nat): (r: Choice)
    requires i <= |children|
    ensures r.Child? ==> i <= r.i < |children| && Judge(children[r.i].segment, children[r.i].wild != "", seg).Reuse?
    ensures r.Fresh? ==> forall j :: i <= j < |children| ==>
      Judge(children[j].segment, children[j].wild != "", seg).Pass?
    decreases |children| - i
  {
    if i == |children| then Fresh else
      match Judge(children[i].segment, children[i].wild != "", seg)
      case Pass => Choose(children, seg, i + 1)
      case Reuse => Child(i)
      case Refuse => Nowhere
  }

  function WildName(seg: string): string {
    if CheckWildcard(seg).Wild? then CheckWildcard(seg).name else ""
  }

  /** Registers `url`, whose segments below this node are `segs`; tells whether that worked. */
  function Insert(t: Tree, url: string, segs: seq<string>, h: Handler): (Tree, bool)
    decreases |segs|
  {
    if segs == [] then
      if t.pattern == "" then (t.(pattern := url, handler := h), true) else (t, false)
    else if CheckWildcard(segs[0]).Malformed? then (t, false)
    else
      match Choose(t.children, segs[0], 0)
      case Nowhere => (t, false)
      case Child(i) =>
        var (c, ok) := Insert(t.children[i], url, segs[1..], h);
        (t.(children := t.children[i := c]), ok)
      case Fresh =>
        var (c, ok) := Insert(NewNode(segs[0], WildName(segs[0])), url, segs[1..], h);
        (t.(children := t.children + [c]), ok)
  }

  function InsertRoute(t: Tree, url: string, h: Handler): (Tree, bool) {
    if url == "/" then
      if t.pattern != "" then (t, false) else (t.(pattern := "/", segment := "/", handler := h), true)
    else
      var segs := Split(url, '/');
      if segs == [] then (t, false) else Insert(t, url, segs, h)
  }

  // -------------------------------------------------------------------------
  // Search
  // -------------------------------------------------------------------------

  /** The test a child has to pass to be entered for the request segment `seg`. */
  predicate Enters(c: Tree, seg: string) {
    if c.wild == "" then c.segment == seg
    else if c.segment != "" && c.segment[0] == '{' then true
    else
      var common := CommonPrefix(c.segment, seg);
      0 < common < |seg| && common == Find(c.segment, '{')
  }

  /** The parameter that entering `c` binds. */
  function Bind(params: Params, c: Tree, seg: string): Params
    requires Enters(c, seg)
  {
    if c.wild == "" then params
    else if c.segment != "" && c.segment[0] == '{' then params[c.wild := seg]
    else params[c.wild := seg[CommonPrefix(c.segment, seg)..]]
  }

  /** The first child from number `i` on that is entered; there is no way back from it. */
  function Pick(children: seq<Tree>, seg: string, i: nat): (r: nat)
    requires i <= |children|
    ensures i <= r <= |children|
    ensures r < |children| ==> Enters(children[r], seg)
    ensures forall j :: i <= j < r ==> !Enters(children[j], seg)
    decreases |children| - i
  {
    if i == |children| || Enters(children[i], seg) then i else Pick(children, seg, i + 1)
  }

  function Search(t: Tree, segs: seq<string>, params: Params): (Option<Tree>, Params)
    decreases |segs|
  {
    if segs == [] then (Some(t), params)
    else
      var i := Pick(t.children, segs[0], 0);
      if i == |t.children| then (None, params)
      else Search(t.children[i], segs[1..], Bind(params, t.children[i], segs[0]))
  }

  function SearchRoute(t: Tree, url: string, params: Params): (Option<Tree>, Params) {
    if url == t.pattern then (Some(t), params)
    else
      var segs := Split(url, '/');
      if segs == [] then (None, params) else Search(t, segs, params)
  }

  function SearchHandler(t: Tree, url: string, params: Params): (Handler, Params) {
    var (n, ps) := SearchRoute(t, url, params);
    (if n.None? then Null else n.value.handler, ps)
  }

  // -------------------------------------------------------------------------
  // The tree invariant
  // -------------------------------------------------------------------------

  ghost predicate Siblings(children: seq<Tree>) {
    && (forall i :: 0 <= i < |children| ==> Labelled(children[i].segment, children[i].wild))
    && (forall i, j :: 0 <= i < |children| && 0 <= j < |children| && i != j ==>
          Apart(children[i].segment, children[j].segment))
    && (forall i, j :: 0 <= i < j < |children| ==>
          Judge(children[i].segment, children[i].wild != "", children[j].segment).Pass?)
  }

  /** What every insertion keeps, for a node whose path from the root carries the segments `path`. */
  ghost predicate Inv(t: Tree, path: seq<string>)
    decreases t
  {
    && (t.pattern != "" ==> Split(t.pattern, '/') == path)
    && (t.pattern == "" ==> t.handler == Null)
    && Siblings(t.children)
    && forall i :: 0 <= i < |t.children| ==> Inv(t.children[i], path + [t.children[i].segment])
  }

  ghost predicate RootInv(t: Tree) {
    Inv(t, []) && t.pattern in {"", "/"}
  }

  lemma {:induction false} InsertKeepsInv(t: Tree, url: string, segs: seq<string>, h: Handler, path: seq<string>)
    requires Inv(t, path) && url != "" && Split(url, '/') == path + segs
    requires forall k :: 0 <= k < |segs| ==> segs[k] != "" && '/' !in segs[k]
    ensures Inv(Insert(t, url, segs, h).0, path)
    ensures Insert(t, url, segs, h).0.segment == t.segment && Insert(t, url, segs, h).0.wild == t.wild
    decreases |segs|
  {
    hide Inv, Judge, CheckWildcard, WildName, Choose, Insert;
    InsertStep(t, url, segs, h);
    if segs == [] {
      assert path + segs == path;
      PatternSet(t, url, h, path);
    } else if !CheckWildcard(segs[0]).Malformed? {
      var path' := path + [segs[0]];
      assert path' + segs[1..] == path + segs;
      match Choose(t.children, segs[0], 0)
      case Nowhere =>
      case Child(i) =>
        ReuseMeansSame(t.children[i].segment, t.children[i].wild, segs[0]);
        ChildInv(t, i, path);
        InsertKeepsInv(t.children[i], url, segs[1..], h, path');
        ReplacedChild(t, i, Insert(t.children[i], url, segs[1..], h).0, path);
      case Fresh =>
        var c := NewNode(segs[0], WildName(segs[0]));
        FreshNode(segs[0], path');
        InsertKeepsInv(c, url, segs[1..], h, path');
        AppendedChild(t, Insert(c, url, segs[1..], h).0, path);
    }
  }

  /** One step of an insertion, case by case. */
  lemma InsertStep(t: Tree, url: string, segs: seq<string>, h: Handler)
    ensures segs == [] && t.pattern == "" ==> Insert(t, url, segs, h) == (t.(pattern := url, handler := h), true)
    ensures segs == [] && t.pattern != "" ==> Insert(t, url, segs, h) == (t, false)
    ensures segs != [] && CheckWildcard(segs[0]).Malformed? ==> Insert(t, url, segs, h) == (t, false)
    ensures segs != [] && !CheckWildcard(segs[0]).Malformed? ==>
      match Choose(t.children, segs[0], 0)
      case Nowhere => Insert(t, url, segs, h) == (t, false)
      case Child(i) =>
        var (c, ok) := Insert(t.children[i], url, segs[1..], h);
        Insert(t, url, segs, h) == (t.(children := t.children[i := c]), ok)
      case Fresh =>
        var (c, ok) := Insert(NewNode(segs[0], WildName(segs[0])), url, segs[1..], h);
        Insert(t, url, segs, h) == (t.(children := t.children + [c]), ok)
  {
    hide CheckWildcard, WildName, Choose;
  }

  lemma PatternSet(t: Tree, url: string, h: Handler, path: seq<string>)
    requires Inv(t, path) && Split(url, '/') == path
    ensures url != "" ==> Inv(t.(pattern := url, handler := h), path)
  {
    hide Siblings;
  }

  lemma ChildInv(t: Tree, i: nat, path: seq<string>)
    requires Inv(t, path) && i < |t.children|
    ensures Inv(t.children[i], path + [t.children[i].segment])
    ensures Labelled(t.children[i].segment, t.children[i].wild)
  {
  }

  lemma FreshNode(seg: string, path: seq<string>)
    requires seg != "" && '/' !in seg && !CheckWildcard(seg).Malformed?
    ensures Labelled(seg, WildName(seg)) && Inv(NewNode(seg, WildName(seg)), path)
  {
  }

  lemma ReplacedChild(t: Tree, i: nat, c: Tree, path: seq<string>)
    requires Inv(t, path) && i < |t.children| && Inv(c, path + [c.segment])
    requires c.segment == t.children[i].segment && c.wild == t.children[i].wild
    ensures Inv(t.(children := t.children[i := c]), path)
  {
  }

  lemma AppendedChild(t: Tree, c: Tree, path: seq<string>)
    requires Inv(t, path) && Inv(c, path + [c.segment]) && Labelled(c.segment, c.wild)
    requires forall j :: 0 <= j < |t.children| ==>
      Judge(t.children[j].segment, t.children[j].wild != "", c.segment).Pass?
    ensures Inv(t.(children := t.children + [c]), path)
  {
    hide Siblings, Labelled, Judge;
    FreshSibling(t.children, c);
  }

  /** A child that all others let pass joins the siblings. */
  lemma FreshSibling(children: seq<Tree>, c: Tree)
    requires Siblings(children) && Labelled(c.segment, c.wild)
    requires forall j :: 0 <= j < |children| ==> Judge(children[j].segment, children[j].wild != "", c.segment).Pass?
    ensures Siblings(children + [c])
  {
    hide Apart, Judge;
    forall j | 0 <= j < |children|
      ensures Apart(children[j].segment, c.segment) && Apart(c.segment, children[j].segment)
    {
      PassMeansApart(children[j].segment, children[j].wild, c.segment);
    }
  }

  lemma SlashSplit()
    ensures Split("/", '/') == [] && Split("", '/') == []
  {
  }

  lemma InsertRouteKeepsInv(t: Tree, url: string, h: Handler)
    requires RootInv(t)
    ensures RootInv(InsertRoute(t, url, h).0)
  {
    var segs := Split(url, '/');
    if url == "/" {
      SlashSplit();
    } else if segs != [] {
      assert [] + segs == segs;
      InsertKeepsInv(t, url, segs, h, []);
      InsertKeepsPattern(t, url, segs, h);
    }
  }

  lemma InsertKeepsPattern(t: Tree, url: string, segs: seq<string>, h: Handler)
    requires segs != []
    ensures Insert(t, url, segs, h).0.pattern == t.pattern && Insert(t, url, segs, h).0.handler == t.handler
  {
  }

  /** The tree after a sequence of registrations, each with its outcome ignored. */
  function Run(t: Tree, regs: seq<(string, Handler)>): Tree
    decreases |regs|
  {
    if regs == [] then t else Run(InsertRoute(t, regs[0].0, regs[0].1).0, regs[1..])
  }

  /** Every reachable tree satisfies the invariant. */
  lemma {:induction false} RunKeepsInv(t: Tree, regs: seq<(string, Handler)>)
    requires RootInv(t)
    ensures RootInv(Run(t, regs))
    decreases |regs|
  {
    if regs != [] {
      InsertRouteKeepsInv(t, regs[0].0, regs[0].1);
      RunKeepsInv(InsertRoute(t, regs[0].0, regs[0].1).0, regs[1..]);
    }
  }

  lemma EmptyRootInv()
    ensures RootInv(EMPTY_ROOT)
  {
  }
}
