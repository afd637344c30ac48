/** Two runs of registrations that do not do what a reader of the patterns may expect. */
module RouteExamples {
  import opened Strings
  import opened RouteSegments
  import opened RouteTree
  import opened RouteSearch
  import opened RouteHistory
  import opened RouteTheorems

  // -------------------------------------------------------------------------
  // A shadowed route
  // -------------------------------------------------------------------------

  const SHADOWING := ("/a{x}/b", Callback(1))
  const SHADOWED := ("/ab{y}/c", Callback(2))

  function Leaf(seg: string, url: string, h: Handler): Tree {
    Node(seg, WildName(seg), url, h, [])
  }

  function Branch(a: string, b: string, url: string, h: Handler): Tree {
    Node(a, WildName(a), "", Null, [Leaf(b, url, h)])
  }

  lemma Segments()
    ensures Split("/a{x}/b", '/') == ["a{x}", "b"] && Split("/ab{y}/c", '/') == ["ab{y}", "c"]
    ensures Split("/abz/c", '/') == ["abz", "c"]
  {
    hide Split;
    SplitTwo("a{x}", "b", "/a{x}/b");
    SplitTwo("ab{y}", "c", "/ab{y}/c");
    SplitTwo("abz", "c", "/abz/c");
  }

  lemma SplitTwo(a: string, b: string, url: string)
    requires a != "" && b != "" && '/' !in a && '/' !in b && url == "/" + a + "/" + b
    ensures Split(url, '/') == [a, b]
  {
    hide Split;
    SplitRender([a, b]);
    assert Render([b]) == "/" + b + Render([]);
    assert Render([a, b]) == "/" + a + Render([b]);
    assert "/" + a + "/" + b == Render([a, b]);
  }

  lemma Shapes()
    ensures CheckWildcard("a{x}") == Wild(1, "x") && CheckWildcard("ab{y}") == Wild(2, "y")
    ensures CheckWildcard("b").Plain? && CheckWildcard("c").Plain?
  {
    WildcardMade("a", "x");
    WildcardMade("ab", "y");
    assert "a{x}" == "a" + ("{" + ("x" + "}"));
    assert "ab{y}" == "ab" + ("{" + ("y" + "}"));
  }

  /** A pattern of one segment below a node where no child is concerned. */
  lemma InsertOne(t: Tree, url: string, b: string, h: Handler)
    requires !CheckWildcard(b).Malformed? && Choose(t.children, b, 0) == Fresh
    ensures Insert(t, url, [b], h) == (t.(children := t.children + [Leaf(b, url, h)]), true)
  {
    hide CheckWildcard, WildName, Choose;
    assert [b][1..] == [];
  }

  /** A pattern of two segments, likewise. */
  lemma InsertTwo(t: Tree, url: string, a: string, b: string, h: Handler)
    requires !CheckWildcard(a).Malformed? && !CheckWildcard(b).Malformed? && Choose(t.children, a, 0) == Fresh
    ensures Insert(t, url, [a, b], h) == (t.(children := t.children + [Branch(a, b, url, h)]), true)
  {
    var node := NewNode(a, WildName(a));
    assert Choose(node.children, b, 0) == Fresh;
    InsertOne(node, url, b, h);
    assert [] + [Leaf(b, url, h)] == [Leaf(b, url, h)];
    hide CheckWildcard, WildName, Choose;
    assert [a, b][1..] == [b];
  }

  lemma RegisterTwo(t: Tree, url: string, a: string, b: string, h: Handler)
    requires url != "/" && Split(url, '/') == [a, b]
    requires !CheckWildcard(a).Malformed? && !CheckWildcard(b).Malformed? && Choose(t.children, a, 0) == Fresh
    ensures InsertRoute(t, url, h) == (t.(children := t.children + [Branch(a, b, url, h)]), true)
  {
    hide Split, CheckWildcard, Choose, Insert, Branch;
    InsertTwo(t, url, a, b, h);
  }

  /** Two different prefix wildcards pass each other, however they overlap. */
  lemma SecondPasses(first: Tree, a: string, q: string)
    requires first.segment == a && Labelled(a, first.wild) && a != q
    requires CheckWildcard(a).Wild? && CheckWildcard(q).Wild? && !Universal(a) && !Universal(q)
    ensures Choose([first], q, 0) == Fresh
  {
    LabelledWild(a, first.wild);
    hide Judge, CheckWildcard;
    PrefixWildcardsAlwaysPass(a, first.wild, q);
    assert Choose([first], q, 1) == Fresh;
  }

  /** Two patterns that start with different prefix wildcards are both accepted, side by side. */
  lemma BothAccepted(url1: string, a: string, b: string, h1: Handler, url2: string, q: string, c: string, h2: Handler)
    requires url1 != "/" && Split(url1, '/') == [a, b] && url2 != "/" && Split(url2, '/') == [q, c]
    requires CheckWildcard(a).Wild? && CheckWildcard(q).Wild? && !Universal(a) && !Universal(q) && a != q
    requires CheckWildcard(b).Plain? && CheckWildcard(c).Plain? && '/' !in a
    ensures Run(EMPTY_ROOT, [(url1, h1), (url2, h2)])
         == EMPTY_ROOT.(children := [Branch(a, b, url1, h1), Branch(q, c, url2, h2)])
    ensures Accepted(EMPTY_ROOT, [(url1, h1), (url2, h2)]) == [(url1, h1), (url2, h2)]
  {
    SecondPasses(Branch(a, b, url1, h1), a, q);
    assert Choose([], a, 0) == Fresh;
    hide Split, CheckWildcard, Branch, Universal, InsertRoute, Run, Accepted, Choose;
    var (x, y) := (Branch(a, b, url1, h1), Branch(q, c, url2, h2));
    var t1 := EMPTY_ROOT.(children := [x]);
    assert [] + [x] == [x] && [x] + [y] == [x, y];
    RegisterTwo(EMPTY_ROOT, url1, a, b, h1);
    assert InsertRoute(EMPTY_ROOT, url1, h1) == (t1, true);
    RegisterTwo(t1, url2, q, c, h2);
    RunTwo(url1, h1, url2, h2);
  }

  lemma RunTwo(url1: string, h1: Handler, url2: string, h2: Handler)
    requires var (t1, ok1) := InsertRoute(EMPTY_ROOT, url1, h1); ok1 && InsertRoute(t1, url2, h2).1
    ensures var t1 := InsertRoute(EMPTY_ROOT, url1, h1).0;
      Run(EMPTY_ROOT, [(url1, h1), (url2, h2)]) == InsertRoute(t1, url2, h2).0
    ensures Accepted(EMPTY_ROOT, [(url1, h1), (url2, h2)]) == [(url1, h1), (url2, h2)]
  {
    hide InsertRoute;
    var (r1, r2) := ((url1, h1), (url2, h2));
    var t1 := InsertRoute(EMPTY_ROOT, url1, h1).0;
    var t2 := InsertRoute(t1, url2, h2).0;
    assert [r1, r2][1..] == [r2] && [r2][1..] == [];
    assert Run(t2, []) == t2 && Run(t1, [r2]) == t2;
    assert Accepted(t2, []) == [] && Accepted(t1, [r2]) == [r2] + [];
  }

  /** Search enters the first branch for a segment both match, and does not come back. */
  lemma GreedyGivesUp(t: Tree, a: string, b: string, url: string, h: Handler, seg: string, c: string, params: Params)
    requires t.children != [] && t.children[0] == Branch(a, b, url, h) && Labelled(a, WildName(a))
    requires Matches(a, seg) && seg != "" && CheckWildcard(b).Plain? && b != c
    ensures Search(t, [seg, c], params).0 == None
  {
    EntersIffMatches(t.children[0], seg, params);
    hide CheckWildcard, Bind, Matches;
    var leaf := t.children[0].children[0];
    assert Pick(t.children, seg, 0) == 0;
    assert [seg, c][1..] == [c];
    assert !Enters(leaf, c) by { assert leaf.wild == ""; }
    assert Pick([leaf], c, 1) == 1;
  }

  /**
   * Exactness fails for overlapping prefix wildcards: both routes are accepted, the second one
   * matches the request, and yet the request resolves to nothing.
   */
  lemma OverlappingWildcardsShadow(params: Params)
    ensures var regs := [SHADOWING, SHADOWED];
      && Accepted(EMPTY_ROOT, regs) == regs
      && PatternMatches(SHADOWED.0, "/abz/c")
      && SearchHandler(Run(EMPTY_ROOT, regs), "/abz/c", params).0 == Null
  {
    hide Split, InsertRoute, Search, Run, Accepted, Branch;
    Segments();
    Shapes();
    BothAccepted("/a{x}/b", "a{x}", "b", Callback(1), "/ab{y}/c", "ab{y}", "c", Callback(2));
    RequestMatches();
    GreedyGivesUp(Run(EMPTY_ROOT, [SHADOWING, SHADOWED]), "a{x}", "b", "/a{x}/b", Callback(1), "abz", "c", params);
  }

  lemma RequestMatches()
    ensures Matches("a{x}", "abz") && Matches("ab{y}", "abz") && Matches("c", "c")
    ensures Labelled("a{x}", WildName("a{x}"))
  {
    Shapes();
    assert "abz"[..1] == "a" && "a{x}"[..1] == "a";
    assert "abz"[..2] == "ab" && "ab{y}"[..2] == "ab";
  }

  // -------------------------------------------------------------------------
  // A failed registration that lingers
  // -------------------------------------------------------------------------

  /**
   * A registration that fails on a malformed later segment leaves the nodes before it behind, and
   * they can make a later registration fail that would have been accepted without.
   */
  lemma FailureLingers(url1: string, a: string, bad: string, url2: string, s: string, h: Handler)
    requires url1 != "/" && Split(url1, '/') == [a, bad] && url2 != "/" && Split(url2, '/') == [s]
    requires Universal(a) && CheckWildcard(bad).Malformed? && CheckWildcard(s).Plain?
    ensures !InsertRoute(EMPTY_ROOT, url1, h).1
    ensures InsertRoute(EMPTY_ROOT, url2, h).1
    ensures !InsertRoute(InsertRoute(EMPTY_ROOT, url1, h).0, url2, h).1
  {
    var node := NewNode(a, WildName(a));
    assert Judge(a, node.wild != "", s).Refuse? by { WildcardRead(a); }
    assert Choose([], a, 0) == Fresh && Choose([], s, 0) == Fresh;
    hide Split, CheckWildcard, WildName, Judge;
    assert [a, bad][1..] == [bad] && [s][1..] == [];
    assert Insert(node, url1, [bad], h) == (node, false);
    assert [] + [node] == [node];
    assert InsertRoute(EMPTY_ROOT, url1, h).0.children == [node];
    assert Choose([node], s, 0) == Nowhere;
    InsertOne(EMPTY_ROOT, url2, s, h);
  }

  lemma LingeringShapes()
    ensures Universal("{x}") && CheckWildcard("{").Malformed? && CheckWildcard("a").Plain?
  {
    ShapeOf("{x}", "", "x");
  }

  lemma FailureLingersExample(h: Handler)
    ensures !InsertRoute(EMPTY_ROOT, "/{x}/{", h).1
    ensures InsertRoute(EMPTY_ROOT, "/a", h).1
    ensures !InsertRoute(InsertRoute(EMPTY_ROOT, "/{x}/{", h).0, "/a", h).1
  {
    hide InsertRoute, Split, CheckWildcard;
    SplitTwo("{x}", "{", "/{x}/{");
    SplitRender(["a"]);
    assert Render(["a"]) == "/a";
    LingeringShapes();
    FailureLingers("/{x}/{", "{x}", "{", "/a", "a", h);
  }

  // -------------------------------------------------------------------------
  // The order of two registrations
  // -------------------------------------------------------------------------

  /** Behind a route of one segment, another one is accepted exactly when its segment passes. */
  lemma SecondAcceptedIff(url1: string, a: string, h1: Handler, url2: string, b: string, h2: Handler)
    requires url1 != "/" && Split(url1, '/') == [a] && !CheckWildcard(a).Malformed?
    requires url2 != "/" && Split(url2, '/') == [b] && !CheckWildcard(b).Malformed?
    ensures InsertRoute(EMPTY_ROOT, url1, h1).1
    ensures InsertRoute(InsertRoute(EMPTY_ROOT, url1, h1).0, url2, h2).1 <==> Passes(a, b)
  {
    assert url1 != "" by { assert Split("", '/') == []; }
    FlagFits(a);
    hide Split, CheckWildcard, WildName, Judge;
    assert Choose([], a, 0) == Fresh;
    InsertOne(EMPTY_ROOT, url1, a, h1);
    var t := InsertRoute(EMPTY_ROOT, url1, h1).0;
    assert [] + [Leaf(a, url1, h1)] == [Leaf(a, url1, h1)];
    assert t.children == [Leaf(a, url1, h1)] && [b][1..] == [];
    assert Choose(t.children, b, 1) == Fresh;
    if Passes(a, b) {
      InsertOne(t, url2, b, h2);
    } else {
      assert !Insert(t, url2, [b], h2).1;
    }
  }

  lemma FlagFits(seg: string)
    ensures WildName(seg) != "" <==> CheckWildcard(seg).Wild?
  {
    if CheckWildcard(seg).Wild? {
      WildcardRead(seg);
    }
  }

  /** The static `user_` is accepted behind `user_{x}`, and `user_{x}` is refused behind `user_`. */
  lemma OrderExample(h1: Handler, h2: Handler)
    ensures !InsertRoute(InsertRoute(EMPTY_ROOT, "/user_", h1).0, "/user_{x}", h2).1
    ensures InsertRoute(InsertRoute(EMPTY_ROOT, "/user_{x}", h2).0, "/user_", h1).1
  {
    UserShapes();
    hide Split, InsertRoute, CheckWildcard, Passes, StandAlone;
    SplitRender(["user_"]);
    SplitRender(["user_{x}"]);
    assert Render(["user_"]) == "/user_" && Render(["user_{x}"]) == "/user_{x}";
    OrderMattersIff("user_", "user_{x}");
    SecondAcceptedIff("/user_", "user_", h1, "/user_{x}", "user_{x}", h2);
    SecondAcceptedIff("/user_{x}", "user_{x}", h2, "/user_", "user_", h1);
  }

  lemma UserShapes()
    ensures CheckWildcard("user_").Plain? && CheckWildcard("user_{x}") == Wild(5, "x")
    ensures StandAlone("user_", "user_{x}")
  {
    WildcardMade("user_", "x");
    assert "user_{x}" == "user_" + ("{" + ("x" + "}"));
    assert "user_{x}"[..5] == "user_";
  }

  // -------------------------------------------------------------------------
  // The parameter a callback gets
  // -------------------------------------------------------------------------

  /** A route of a static segment and a wildcard, and a request that it matches. */
  lemma OneWildcardRoute(url: string, a: string, b: string, h: Handler, request: string, v: string, params: Params)
    requires url != "/" && url != "" && Split(url, '/') == [a, b] && Split(request, '/') == [a, v]
    requires CheckWildcard(a).Plain? && CheckWildcard(b).Wild? && Matches(b, v)
    ensures SearchHandler(Run(EMPTY_ROOT, [(url, h)]), request, params) ==
      (h, params[CheckWildcard(b).name := v[CheckWildcard(b).loc..]])
  {
    assert Choose([], a, 0) == Fresh;
    RegisterTwo(EMPTY_ROOT, url, a, b, h);
    RunOne(url, h);
    BranchPrefixFree(a, b, url, h);
    BindPair(params, a, b, v);
    hide Split, Run, Accepted, InsertRoute, CheckWildcard, SearchHandler, NoShadow, Matches, BindAll, Branch;
    assert [] + [Branch(a, b, url, h)] == [Branch(a, b, url, h)];
    assert PatternMatches(url, request);
    MatchingRouteHandles([(url, h)], request, url, h, params);
  }

  lemma RunOne(url: string, h: Handler)
    requires InsertRoute(EMPTY_ROOT, url, h).1
    ensures Run(EMPTY_ROOT, [(url, h)]) == InsertRoute(EMPTY_ROOT, url, h).0
    ensures Accepted(EMPTY_ROOT, [(url, h)]) == [(url, h)]
  {
    hide InsertRoute;
    var t := InsertRoute(EMPTY_ROOT, url, h).0;
    assert [(url, h)][1..] == [] && Run(t, []) == t && Accepted(t, []) == [];
  }

  lemma BranchPrefixFree(a: string, b: string, url: string, h: Handler)
    ensures NoShadow(EMPTY_ROOT.(children := [Branch(a, b, url, h)]))
  {
    var leaf := Leaf(b, url, h);
    assert NoShadow(leaf);
    assert NoShadow(Branch(a, b, url, h));
  }

  lemma BindPair(params: Params, a: string, b: string, v: string)
    requires CheckWildcard(a).Plain? && CheckWildcard(b).Wild? && Matches(b, v)
    ensures Matches(a, a) && PathMatches([a, b], [a, v])
    ensures BindAll(params, [a, b], [a, v]) == params[CheckWildcard(b).name := v[CheckWildcard(b).loc..]]
  {
    assert Matches(a, a);
    hide CheckWildcard, Matches;
    assert [a, b][1..] == [b] && [a, v][1..] == [v] && [b][1..] == [] && [v][1..] == [];
    assert PathMatches([b], [v]) && PathMatches([], []);
    var r := params[CheckWildcard(b).name := v[CheckWildcard(b).loc..]];
    assert BindAll(r, [], []) == r;
    assert BindAll(params, [b], [v]) == r;
  }

  /** `/user/{id}` called with `/user/7` gets `id` as `7`, and `/u_{id}` does with `/u_7`. */
  lemma ParameterExample(h: Handler)
    ensures SearchHandler(Run(EMPTY_ROOT, [("/user/{id}", h)]), "/user/7", map[]) == (h, map["id" := "7"])
    ensures SearchHandler(Run(EMPTY_ROOT, [("/user/u_{id}", h)]), "/user/u_7", map[]) == (h, map["id" := "7"])
  {
    ExampleSplits();
    ExampleShapes();
    PlainShape();
    ExampleMatches();
    hide Split, Run, SearchHandler, CheckWildcard, Matches;
    OneWildcardRoute("/user/{id}", "user", "{id}", h, "/user/7", "7", map[]);
    OneWildcardRoute("/user/u_{id}", "user", "u_{id}", h, "/user/u_7", "u_7", map[]);
    assert "7"[0..] == "7" && "u_7"[2..] == "7";
  }

  lemma ExampleShapes()
    ensures CheckWildcard("{id}") == Wild(0, "id") && CheckWildcard("u_{id}") == Wild(2, "id")
  {
    hide CheckWildcard;
    ShapeOf("{id}", "", "id");
    ShapeOf("u_{id}", "u_", "id");
  }

  lemma ShapeOf(seg: string, p: string, name: string)
    requires seg == p + "{" + name + "}" && '{' !in p && name != "" && '}' !in name
    ensures CheckWildcard(seg) == Wild(|p|, name)
  {
    hide CheckWildcard;
    WildcardMade(p, name);
    assert seg == p + ("{" + (name + "}"));
  }

  lemma PlainShape()
    ensures CheckWildcard("user").Plain?
  {
  }

  lemma ExampleMatches()
    ensures Matches("{id}", "7") && Matches("u_{id}", "u_7")
  {
    ExampleShapes();
    hide CheckWildcard;
    assert "u_{id}"[..2] == "u_" && "u_7"[..2] == "u_";
  }

  lemma ExampleSplits()
    ensures Split("/user/{id}", '/') == ["user", "{id}"] && Split("/user/7", '/') == ["user", "7"]
    ensures Split("/user/u_{id}", '/') == ["user", "u_{id}"] && Split("/user/u_7", '/') == ["user", "u_7"]
  {
    hide Split;
    SplitTwo("user", "{id}", "/user/{id}");
    SplitTwo("user", "7", "/user/7");
    SplitTwo("user", "u_{id}", "/user/u_{id}");
    SplitTwo("user", "u_7", "/user/u_7");
  }
}
