/** The route tree as the program keeps it: nodes that are linked and updated in place. */
module RouteNodes {
  import opened Strings
  import opened RouteSegments
  import T = RouteTree

  class Params {
    var bindings: T.Params

    constructor ()
      ensures bindings == map[]
    {
      bindings := map[];
    }

    method Set(key: string, value: string)
      modifies this
      ensures forall k :: Get(k) == if k == key then value else old(Get(k))
      ensures bindings == old(bindings)[key := value]
    {
      bindings := bindings[key := value];
    }

    /** The value of `key`, or the empty string when it is not bound. */
    function Get(key: string): string
      reads this
    {
      if key in bindings then bindings[key] else ""
    }

    method Reset()
      modifies this
      ensures bindings == map[]
    {
      bindings := map[];
    }
  }

  lemma AppendThenReplace<X>(s: seq<X>, x: X, r: seq<X>)
    ensures |r| == |s| + 1 && r == (s + [x])[|s| := r[|s|]] ==> r == s + [r[|s|]]
  {
  }

  class RouteNode {
    var pattern: string
    var segment: string
    var children: seq<RouteNode>
    var handler: T.Handler
    var wildcardName: string

    ghost var repr: set<RouteNode>  // this node and all below
    ghost var view: T.Tree          // the tree they represent

    ghost predicate Valid()
      reads this, repr
      decreases repr
    {
      && this in repr
      && view.segment == segment && view.wild == wildcardName
      && view.pattern == pattern && view.handler == handler
      && |view.children| == |children|
      && (forall i :: 0 <= i < |children| ==>
            && children[i] in repr && children[i].repr <= repr && this !in children[i].repr
            && children[i].Valid() && children[i].view == view.children[i])
      && (forall i, j :: 0 <= i < j < |children| ==> children[i].repr !! children[j].repr)
    }

    constructor Root()
      ensures Valid() && fresh(repr) && view == T.EMPTY_ROOT
    {
      pattern, segment, children, handler, wildcardName := "", "", [], T.Null, "";
      repr, view := {this}, T.EMPTY_ROOT;
    }

    constructor (segment: string, wildcardName: string)
      ensures Valid() && repr == {this} && view == T.NewNode(segment, wildcardName)
    {
      this.segment, this.wildcardName := segment, wildcardName;
      pattern, children, handler := "", [], T.Null;
      repr, view := {this}, T.NewNode(segment, wildcardName);
    }

    predicate IsWildNode()
      reads this
    {
      wildcardName != ""
    }

    /** How this child stands to a new sibling segment: the conflict rules, in the order they are tried. */
    method Judge(seg: string, wildcard: Shape) returns (v: Verdict)
      requires wildcard == CheckWildcard(seg) && !wildcard.Malformed? && seg != ""
      ensures v == RouteSegments.Judge(segment, IsWildNode(), seg)
    {
      if !IsWildNode() {
        if wildcard.Plain? {
          return if segment == seg then Reuse else Pass;
        }
        if seg[0] == '{' {
          return Refuse;
        }
        var same := StrEqual(segment, seg, wildcard.loc);
        return if same then Refuse else Pass;
      }
      if segment != "" && segment[0] == '{' {
        return if segment == seg then Reuse else Refuse;
      }
      if wildcard.Plain? {
        var loc := Find(segment, '{');
        var same := StrEqual(seg, segment, loc);
        return if same && |seg| > loc then Refuse else Pass;
      }
      if seg[0] == '{' {
        return Refuse;
      }
      var last := LongestCommonPrefix(segment, seg);
      var l1, l2 := |segment| - 1, |seg| - 1;
      if last != -1 {
        if l1 == l2 && l2 == last {
          return Reuse;
        } else if l1 == last || l2 == last {
          return Refuse;
        }
      }
      return Pass;
    }

    method Insert(url: string, segments: seq<string>, index: nat, callback: T.Handler) returns (ok: bool)
      requires Valid() && index <= |segments|
      requires forall k :: 0 <= k < |segments| ==> segments[k] != ""
      modifies repr
      ensures Valid() && fresh(repr - old(repr))
      ensures (view, ok) == T.Insert(old(view), url, segments[index..], callback)
      decreases |segments| - index
    {
      hide RouteSegments.Judge, T.Choose, T.WildName, CheckWildcard;
      if index == |segments| {
        if pattern == "" {
          pattern, handler := url, callback;
          view := view.(pattern := url, handler := callback);
          return true;
        }
        return false;
      }
      var seg := segments[index];
      if CheckWildcard(seg).Malformed? {
        return false;
      }
      assert segments[index..][1..] == segments[index + 1..];
      ghost var below := view.children;
      var next := ChooseChild(seg);
      if next.Nowhere? {
        return false;
      }
      if next.Fresh? {
        AddChild(seg, T.WildName(seg));
      }
      ok := InsertBelow(if next.Child? then next.i else |children| - 1, url, segments, index, callback);
      AppendThenReplace(below, T.NewNode(seg, T.WildName(seg)), view.children);
    }

    /** Looks through the children for the one to descend to, or for a conflict. */
    method ChooseChild(seg: string) returns (next: T.Choice)
      requires Valid() && seg != "" && !CheckWildcard(seg).Malformed?
      ensures next == T.Choose(view.children, seg, 0)
    {
      hide RouteSegments.Judge;
      var wildcard := CheckWildcard(seg);
      for i := 0 to |children|
        invariant T.Choose(view.children, seg, 0) == T.Choose(view.children, seg, i)
      {
        var verdict := children[i].Judge(seg, wildcard);
        if verdict.Refuse? {
          return T.Nowhere;
        }
        if verdict.Reuse? {
          return T.Child(i);
        }
      }
      return T.Fresh;
    }

    /** Puts a new, childless node behind the children. */
    method AddChild(seg: string, wildcardName: string)
      requires Valid()
      modifies this
      ensures Valid() && fresh(repr - old(repr))
      ensures |children| == |old(children)| + 1
      ensures view == old(view).(children := old(view).children + [T.NewNode(seg, wildcardName)])
    {
      var next := new RouteNode(seg, wildcardName);
      children := children + [next];
      repr := repr + {next};
      view := view.(children := view.children + [next.view]);
    }

    /** Goes on with the insertion below child `i`. */
    method InsertBelow(i: nat, url: string, segments: seq<string>, index: nat, callback: T.Handler) returns (ok: bool)
      requires Valid() && index < |segments| && i < |children|
      requires forall k :: 0 <= k < |segments| ==> segments[k] != ""
      modifies repr
      ensures Valid() && fresh(repr - old(repr))
      ensures var (c, done) := T.Insert(old(view).children[i], url, segments[index + 1..], callback);
        view == old(view).(children := old(view).children[i := c]) && ok == done
      decreases |segments| - index, 0
    {
      hide T.Insert;
      var next := children[i];
      ok := next.Insert(url, segments, index + 1, callback);
      repr := repr + next.repr;
      view := view.(children := view.children[i := next.view]);
    }

    method InsertRoute(url: string, callback: T.Handler) returns (ok: bool)
      requires Valid()
      modifies repr
      ensures Valid() && fresh(repr - old(repr))
      ensures (view, ok) == T.InsertRoute(old(view), url, callback)
    {
      if url == "/" {
        if pattern != "" {
          return false;
        }
        pattern, segment, handler := "/", "/", callback;
        view := view.(pattern := "/", segment := "/", handler := callback);
        return true;
      }
      var segments := StrSplit(url, '/');
      if segments == [] {
        return false;
      }
      ok := Insert(url, segments, 0, callback);
      assert segments[0..] == segments;
    }

    /** Whether a search enters this child for `seg`; when it does, the wildcard's parameter is bound. */
    method Enter(seg: string, params: Params) returns (found: bool)
      requires Valid() && (IsWildNode() ==> '{' in segment)
      modifies params
      ensures found == T.Enters(view, seg)
      ensures params.bindings == if found then T.Bind(old(params.bindings), view, seg) else old(params.bindings)
    {
      if !IsWildNode() {
        return segment == seg;
      }
      if segment[0] == '{' {
        params.Set(wildcardName, seg);
        return true;
      }
      var last := LongestCommonPrefix(segment, seg);
      if last != -1 {
        var value := seg[last + 1..];
        if value != "" {
          var loc := Find(segment, '{');
          if last == loc - 1 {
            params.Set(wildcardName, value);
            return true;
          }
        }
      }
      return false;
    }

    /**
     * Greedy search from this node, which the search entered for the segment before `index`. When
     * no segment is left the node itself is the result, so no segment behind the last one is read.
     */
    method Search(segments: seq<string>, index: nat, params: Params, ghost at: seq<string>)
      returns (node: RouteNode?)
      requires Valid() && T.Inv(view, at) && segments != [] && index <= |segments|
      requires index > 0 ==> IsWildNode() || segments[index - 1] == segment
      modifies params
      ensures (if node == null then None else Some(node.view), params.bindings)
           == T.Search(view, segments[index..], old(params.bindings))
      ensures node != null ==> node in repr && node.Valid()
      decreases |segments| - index
    {
      if index == |segments| {
        if !IsWildNode() {
          if segments[index - 1] == segment {
            return this;
          }
        } else {
          return this;
        }
      }
      var i := PickChild(segments[index], params);
      if i == |children| {
        return null;
      }
      assert T.Enters(children[i].view, segments[index]);
      node := children[i].Search(segments, index + 1, params, at + [children[i].segment]);
    }

    /** The first child that a search for `seg` enters, whose parameter is then bound. */
    method PickChild(seg: string, params: Params) returns (i: nat)
      requires Valid() && T.Siblings(view.children)
      modifies params
      ensures i == T.Pick(view.children, seg, 0)
      ensures params.bindings ==
        if i < |view.children| then T.Bind(old(params.bindings), view.children[i], seg) else old(params.bindings)
    {
      hide T.Enters, T.Bind;
      i := 0;
      while i < |children|
        modifies params
        invariant i <= |children| && params.bindings == old(params.bindings)
        invariant T.Pick(view.children, seg, 0) == T.Pick(view.children, seg, i)
      {
        assert Labelled(view.children[i].segment, view.children[i].wild);
        var found := children[i].Enter(seg, params);
        if found {
          return;
        }
        i := i + 1;
      }
    }

    method SearchRoute(url: string, params: Params) returns (node: RouteNode?)
      requires Valid() && T.RootInv(view)
      modifies params
      ensures (if node == null then None else Some(node.view), params.bindings)
           == T.SearchRoute(view, url, old(params.bindings))
      ensures node != null ==> node in repr && node.Valid()
    {
      if url == pattern {
        return this;
      }
      var segments := StrSplit(url, '/');
      if segments == [] {
        return null;
      }
      node := Search(segments, 0, params, []);
      assert segments[0..] == segments;
    }

    method SearchHandler(url: string, params: Params) returns (callback: T.Handler)
      requires Valid() && T.RootInv(view)
      modifies params
      ensures (callback, params.bindings) == T.SearchHandler(view, url, old(params.bindings))
    {
      var node := SearchRoute(url, params);
      if node == null {
        return T.Null;
      }
      return node.handler;
    }
  }
}
