/**
 * The router object: a tree of nodes that `add` and `with_base` grow in
 * place and `recognize` reads. The tree is kept as an arena, a sequence of
 * nodes whose children are indices into it; a handle the caller holds on
 * a subtree (the router itself, or what `with_base` returned) is the index
 * of its root.
 */
module PathRouter {
  import opened Wrappers
  import opened Segments
  import opened Validate
  import opened Trie
  import opened Recognition

  /** The names node `n` recorded in `nodes`, or none for a node not created yet. */
  ghost function Recorded<T>(nodes: seq<Node<T>>, n: nat): seq<string> {
    if n < |nodes| then nodes[n].params else []
  }

  /** Mount points stay at depth 0 while the depths only grow at the end. */
  lemma MountsKept(mounts: set<nat>, depth: seq<nat>, depth': seq<nat>, size: nat)
    requires forall m | m in mounts :: m < |depth| && depth[m] == 0
    requires |depth| <= |depth'| == size && depth'[..|depth|] == depth
    ensures forall m | m in mounts :: m < size && depth'[m] == 0
  {
    forall m | m in mounts ensures m < size && depth'[m] == 0 {
      assert depth'[..|depth|][m] == depth'[m];
    }
  }

  class Router<T> {
    /** Every node of the tree; node 0 is the root `Router::new` creates. */
    var nodes: seq<Node<T>>
    /** The number of wildcard nodes on the path from node 0 to each node, the node itself included. */
    ghost var depth: seq<nat>
    /** The root and every subtree `with_base` handed out: where `add` may start. */
    ghost var mounts: set<nat>

    ghost predicate Valid()
      reads this
    {
      && ArenaValid(nodes, depth)
      && 0 in mounts
      && (forall m | m in mounts :: m < |nodes| && depth[m] == 0)
    }

    /** `Router::new`: a static root with an empty name and no children. */
    constructor ()
      ensures Valid()
      ensures nodes == [EmptyNode(Static, "")] && mounts == {0}
    {
      nodes := [EmptyNode(Static, "")];
      depth := [0];
      mounts := {0};
    }

    /**
     * `add_segment`: the child of node `at` for one pattern segment,
     * created if missing; a kind clash with an existing wildcard child
     * is a conflict and leaves the tree alone.
     */
    method AddSegment(at: nat, segment: string) returns (r: Result<nat, Error>)
      requires Valid() && at < |nodes|
      modifies this
      ensures Valid() && mounts == old(mounts)
      ensures r.Err? <==> WillConflict(old(nodes)[at], segment)
      ensures r.Err? ==> r.error == RouteConflict && nodes == old(nodes) && depth == old(depth)
      ensures r.Ok? && Child(old(nodes), at, segment).Some? ==>
                && r.value == Child(old(nodes), at, segment).value
                && nodes == old(nodes) && depth == old(depth)
      ensures r.Ok? && Child(old(nodes), at, segment).None? ==>
                && r.value == |old(nodes)|
                && nodes == Attached(old(nodes), at, segment)
                && depth == AttachedDepth(old(depth), at, segment)
    {
      if WillConflict(nodes[at], segment) {
        return Err(RouteConflict);
      }
      ghost var before, depthBefore := nodes, depth;
      assert NodeShaped(before, at);
      var ns := nodes;
      ghost var ds := depth;
      var c := |ns|;
      if IsParamSeg(segment) {
        if ns[at].paramChild.Some? {
          r := Ok(ns[at].paramChild.value);
        } else {
          ns := ns[at := ns[at].(paramChild := Some(c))] + [NewParamNode()];
          ds := ds + [ds[at] + 1];
          r := Ok(c);
          assert ns == Attached(before, at, segment);
        }
      } else if IsCatchAllSeg(segment) {
        if ns[at].catchAllChild.Some? {
          r := Ok(ns[at].catchAllChild.value);
        } else {
          ns := ns[at := ns[at].(catchAllChild := Some(c))] + [NewCatchAllNode()];
          ds := ds + [ds[at] + 1];
          r := Ok(c);
          assert ns == Attached(before, at, segment);
        }
      } else {
        ghost var existing := StaticChild(before, at, segment);
        if ChildIndex(ns[at].statics, segment).None? {
          // pushing the new child and sorting by name gives the one sorted
          // arrangement of those children (Trie.SortedUnique)
          ns := ns[at := ns[at].(statics := SortedInsert(ns[at].statics, Edge(segment, c)))]
                + [NewStaticNode(segment)];
          ds := ds + [ds[at]];
          AttachValid(before, depthBefore, at, segment);
          assert ns == Attached(before, at, segment);
          StaticChildIff(ns, at, segment, c);
        }
        var idx := ChildIndex(ns[at].statics, segment).value;
        r := Ok(ns[at].statics[idx].child);
        assert existing.Some? ==> r.value == existing.value;
      }
      StepTaken(before, depthBefore, ns, ds, at, segment, r.value);
      MountsKept(mounts, depthBefore, ds, |ns|);
      nodes, depth := ns, ds;
    }

    /** `set_data`: node `n` now holds `data`; nothing else changes. */
    method SetData(n: nat, data: T)
      requires Valid() && n < |nodes| && |nodes[n].params| == depth[n]
      modifies this
      ensures Valid() && mounts == old(mounts) && depth == old(depth)
      ensures nodes == old(nodes)[n := old(nodes)[n].(data := Some(data))]
    {
      assert NodeDepthOk(nodes, depth, n);
      RelabelValid(nodes, depth, n, Some(data), nodes[n].params);
      nodes := nodes[n := nodes[n].(data := Some(data))];
    }

    /**
     * The walk `add` and `with_base` share: from `at`, `add_segment` for
     * each segment up to the first empty one, collecting the names of
     * the wildcards met; it stops at the first conflict.
     */
    method Descend(at: nat, segs: seq<string>) returns (r: Result<nat, Error>, names: seq<string>)
      requires Valid() && at < |nodes|
      modifies this
      ensures Valid() && mounts == old(mounts)
      ensures Extends(old(nodes), nodes) && DataKept(old(nodes), nodes)
      ensures |old(depth)| <= |depth| && depth[..|old(depth)|] == old(depth)
      ensures r.Err? ==> r.error == RouteConflict && Follow(nodes, at, Consumed(segs)) == Clash
      ensures r.Ok? ==> && Follow(nodes, at, Consumed(segs)) == Reached(r.value)
                        && names == WildcardNames(Consumed(segs))
                        && depth[r.value] == depth[at] + |names|
      ensures var g := Grown(old(nodes), old(depth), at, Consumed(segs));
              && nodes == g.nodes && depth == g.depth
              && (r.Ok? <==> g.end.Reached?) && (r.Ok? ==> r.value == g.end.node)
    {
      var last: nat := at;
      names := [];
      var i := 0;
      while i < |segs|
        invariant Valid() && mounts == old(mounts)
        invariant |old(depth)| <= |depth| && depth[..|old(depth)|] == old(depth)
        invariant Descent(old(nodes), nodes, depth, at, segs, i, last, names)
        invariant i <= |Consumed(segs)|
        invariant Grown(old(nodes), old(depth), at, Consumed(segs)) == Grown(nodes, depth, last, Consumed(segs)[i..])
        decreases |segs| - i
      {
        var segment := segs[i];
        if |segment| == 0 {
          break;
        }
        ConsumedPast(segs, i);
        ghost var rest := Consumed(segs)[i..];
        assert rest[0] == segment && rest[1..] == Consumed(segs)[i + 1..];
        ghost var prev, prevDepth := nodes, depth;
        var rs := AddSegment(last, segment);
        match rs
        case Err(e) =>
          FollowClash(nodes, at, segs, i);
          return Err(e), names;
        case Ok(child) =>
          GrownStep(prev, prevDepth, nodes, depth, last, rest, child);
          DescentStep(old(nodes), old(depth), prev, prevDepth, nodes, depth, at, segs, i, last, names, child);
          if nodes[child].kind == Param || nodes[child].kind == CatchAll {
            names := names + [ParamName(segment).value];
          }
          last := child;
          i := i + 1;
      }
      ConsumedAt(segs, i);
      assert Consumed(segs)[i..] == [];
      return Ok(last), names;
    }

    /**
     * `add`: registers `data` under `route`, starting from the subtree
     * `at`. An inadmissible pattern changes nothing; a kind clash or a
     * disagreement over parameter names is a conflict that stores
     * nothing (nodes created on the way stay). On success the result is
     * the node that now holds `data` and records the pattern's names.
     */
    method Add(at: nat, route: string, data: T) returns (r: Result<nat, Error>)
      requires Valid() && at in mounts
      modifies this
      ensures Valid() && mounts == old(mounts) && Extends(old(nodes), nodes)
      ensures r == Err(InvalidFormat) <==> !ValidRoute(route)
      ensures !ValidRoute(route) ==> nodes == old(nodes) && depth == old(depth)
      ensures ValidRoute(route) ==> !Follow(nodes, at, Segs(route)).Absent?
      ensures ValidRoute(route) && Follow(nodes, at, Segs(route)).Clash? ==>
                r == Err(RouteConflict) && DataKept(old(nodes), nodes)
      ensures ValidRoute(route) && Follow(nodes, at, Segs(route)).Reached? ==>
                var n := Follow(nodes, at, Segs(route)).node;
                var names := WildcardNames(Segs(route));
                && (r.Ok? <==> MayRecord(Recorded(old(nodes), n), names))
                && (r.Ok? ==> r.value == n && nodes[n].data == Some(data) && nodes[n].params == names
                              && DataKeptBut(old(nodes), nodes, n))
                && (r.Err? ==> r.error == RouteConflict && DataKept(old(nodes), nodes))
      ensures ValidRoute(route) ==>
                var g := Grown(old(nodes), old(depth), at, Segs(route));
                && depth == g.depth
                && (r.Err? ==> nodes == g.nodes)
                && (r.Ok? ==> nodes == g.nodes[r.value := g.nodes[r.value].(data := Some(data),
                                                                           params := WildcardNames(Segs(route)))])
    {
      var ok := IsValidRoute(route);
      if !ok {
        return Err(InvalidFormat);
      }
      ValidRouteConsumed(route);
      ValidRouteSegs(route);
      ValidPatternNamesDistinct(Segs(route));
      var rs, params := Descend(at, Split(route[1..]));
      if rs.Err? {
        return Err(rs.error);
      }
      var last := rs.value;
      assert Recorded(old(nodes), last) == nodes[last].params;
      ghost var reached := nodes;
      if |params| > 0 && |nodes[last].params| == 0 {
        RelabelValid(nodes, depth, last, nodes[last].data, params);
        nodes := nodes[last := nodes[last].(params := params)];
      } else if params != nodes[last].params {
        return Err(RouteConflict);
      }
      StoreKeeps(old(nodes), reached, depth, at, Segs(route), last, params, data);
      SetData(last, data);
      assert nodes == reached[last := reached[last].(data := Some(data), params := params)];
      return Ok(last);
    }

    /**
     * `with_base`: the subtree for a literal prefix, created as needed,
     * where further routes can be added; an inadmissible prefix changes
     * nothing.
     */
    method WithBase(at: nat, route: string) returns (r: Result<nat, Error>)
      requires Valid() && at in mounts
      modifies this
      ensures Valid() && Extends(old(nodes), nodes) && DataKept(old(nodes), nodes)
      ensures r.Ok? <==> ValidBase(route)
      ensures r.Err? ==> r.error == InvalidFormat && nodes == old(nodes) && mounts == old(mounts)
      ensures r.Ok? ==> Follow(nodes, at, Segs(route)) == Reached(r.value)
      ensures r.Ok? ==> mounts == old(mounts) + {r.value}
      ensures r.Ok? ==> var g := Grown(old(nodes), old(depth), at, Segs(route));
                        nodes == g.nodes && depth == g.depth && g.end == Reached(r.value)
    {
      var ok := IsValidBase(route);
      if !ok {
        return Err(InvalidFormat);
      }
      ValidBaseIsValidRoute(route);
      ValidRouteConsumed(route);
      var rs, _ := Descend(at, Split(route[1..]));
      LiteralsNeverClash(nodes, at, Segs(route));
      LiteralsHaveNoNames(Segs(route));
      var last := rs.value;
      mounts := mounts + {last};
      return Ok(last);
    }

    /**
     * `recognize`: one greedy pass over the path from the subtree `at`,
     * then the value stored where it ended with the captured values
     * paired with that node's names.
     */
    method Recognize(at: nat, path: string) returns (m: Option<Match<T>>)
      requires Valid() && at < |nodes|
      ensures m == RecognizeSpec(nodes, at, path)
    {
      var p := if path == "" then "/" else path;
      if p[0] != '/' {
        return None;
      }
      var last: nat := at;
      var isCatchingAll := false;
      var catchAll := "";
      var values: seq<string> := [];
      var segs := Split(p[1..]);
      ghost var start: nat := 0;
      assert segs[0..] == segs;
      PrefixNothing(Walk(nodes, at, segs));
      for i := 0 to |segs|
        invariant last < |nodes|
        invariant !isCatchingAll ==> catchAll == ""
        invariant !isCatchingAll ==> Walk(nodes, at, segs) == Prefix(values, Walk(nodes, last, segs[i..]))
        invariant isCatchingAll ==> start < i && catchAll == Join(segs[start..i])
        invariant isCatchingAll ==> Walk(nodes, at, segs) == Some(Walked(last, values + [Join(segs[start..])], true))
      {
        var segment := segs[i];
        if isCatchingAll {
          JoinStep(segs, start, i);
          catchAll := catchAll + "/" + segment;
          continue;
        }
        WalkAt(nodes, last, segs, i);
        if |segment| == 0 {
          continue;
        }
        var idx := ChildIndex(nodes[last].statics, segment);
        if idx.Some? {
          last := nodes[last].statics[idx.value].child;
          continue;
        }
        if nodes[last].paramChild.Some? {
          PrefixPrefix(values, [segment], Walk(nodes, nodes[last].paramChild.value, segs[i + 1..]));
          values := values + [segment];
          last := nodes[last].paramChild.value;
          continue;
        }
        if nodes[last].catchAllChild.Some? {
          isCatchingAll := true;
          catchAll := catchAll + segment;
          start := i;
          last := nodes[last].catchAllChild.value;
          assert segs[start..i + 1] == [segment];
          continue;
        }
        return None;
      }
      if isCatchingAll {
        assert segs[start..] == segs[start..|segs|];
        values := values + [catchAll];
      } else {
        assert segs[|segs|..] == [] && values + [] == values;
      }
      assert Normalize(path) == p;
      assert Capture(nodes, at, path) == Some(Walked(last, values, isCatchingAll));
      if nodes[last].data.None? {
        return None;
      }
      var names := nodes[last].params;
      var n := if |names| <= |values| then |names| else |values|;
      var params: map<string, string> := map[];
      for j := 0 to n
        invariant params == ZipMap(names[..j], values[..j])
      {
        ZipMapStep(names, values, j);
        params := params[names[j] := values[j]];
      }
      assert params == Zip(names, values);
      return Some(Match(nodes[last].data.value, params));
    }
  }
}
