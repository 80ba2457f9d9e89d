/**
 * The trie of route segments kept as an arena: node `i` of `nodes` names
 * its children by index. A node has a sorted list of static children, at
 * most one param child and at most one catch-all child.
 */
module Trie {
  import opened Wrappers
  import opened Order
  import opened Validate

  datatype Error = InvalidFormat | RouteConflict

  datatype NodeKind = Static | Param | CatchAll

  /** A static child, under the name it is searched by (its own `name`). */
  datatype Edge = Edge(name: string, child: nat)

  datatype Node<T> = Node(
    kind: NodeKind,
    name: string,
    data: Option<T>,
    params: seq<string>,
    statics: seq<Edge>,
    paramChild: Option<nat>,
    catchAllChild: Option<nat>)

  /** A node with no value, no recorded names and no children (`Router::default`). */
  function EmptyNode<T>(kind: NodeKind, name: string): Node<T> {
    Node(kind, name, None, [], [], None, None)
  }

  function NewStaticNode<T>(segment: string): Node<T> {
    EmptyNode(Static, segment)
  }

  function NewParamNode<T>(): Node<T> {
    EmptyNode(Param, "")
  }

  function NewCatchAllNode<T>(): Node<T> {
    EmptyNode(CatchAll, "")
  }

  // ---------------------------------------------------------------------
  // Static children: sorted by name, found by binary search
  // ---------------------------------------------------------------------

  ghost predicate EdgesSorted(es: seq<Edge>) {
    forall i, j | 0 <= i < j < |es| :: Compare(es[i].name, es[j].name) == Less
  }

  /** Binary search of `es[lo..hi]` for the edge named `seg`. */
  function Search(es: seq<Edge>, seg: string, lo: nat, hi: nat): (r: Option<nat>)
    requires lo <= hi <= |es|
    ensures r.Some? ==> lo <= r.value < hi && es[r.value].name == seg
    decreases hi - lo
  {
    if lo == hi then None
    else
      var mid := lo + (hi - lo) / 2;
      match Compare(es[mid].name, seg)
      case Equal => CompareEqual(es[mid].name, seg); Some(mid)
      case Less => Search(es, seg, mid + 1, hi)
      case Greater => Search(es, seg, lo, mid)
  }

  /** `child_index`: the position of the static child named `seg`, if any. */
  function ChildIndex(es: seq<Edge>, seg: string): (r: Option<nat>)
    ensures r.Some? ==> r.value < |es| && es[r.value].name == seg
  {
    Search(es, seg, 0, |es|)
  }

  lemma {:induction false} SearchComplete(es: seq<Edge>, seg: string, lo: nat, hi: nat)
    requires lo <= hi <= |es| && EdgesSorted(es)
    requires Search(es, seg, lo, hi).None?
    ensures forall k | lo <= k < hi :: es[k].name != seg
    decreases hi - lo
  {
    if lo < hi {
      var mid := lo + (hi - lo) / 2;
      CompareEqual(es[mid].name, seg);
      if Compare(es[mid].name, seg) == Less {
        SearchComplete(es, seg, mid + 1, hi);
        forall k | lo <= k < mid ensures es[k].name != seg {
          CompareFlip(es[k].name, es[mid].name);
        }
      } else {
        SearchComplete(es, seg, lo, mid);
        forall k | mid < k < hi ensures es[k].name != seg {
          CompareFlip(es[mid].name, es[k].name);
        }
      }
    }
  }

  /** On sorted children, `child_index` finds a child exactly when one has that name. */
  lemma ChildIndexExact(es: seq<Edge>, seg: string)
    requires EdgesSorted(es)
    ensures ChildIndex(es, seg).None? <==> forall k | 0 <= k < |es| :: es[k].name != seg
  {
    if ChildIndex(es, seg).None? {
      SearchComplete(es, seg, 0, |es|);
    }
  }

  /** Sorted children have pairwise distinct names. */
  lemma SortedNamesUnique(es: seq<Edge>, i: nat, j: nat)
    requires EdgesSorted(es) && i < |es| && j < |es|
    requires es[i].name == es[j].name
    ensures i == j
  {
    if i < j {
      CompareEqual(es[i].name, es[j].name);
    } else if j < i {
      CompareEqual(es[j].name, es[i].name);
    }
  }

  /**
   * Where `push` followed by `sort_by` puts a new child: before the first
   * child whose name is greater.
   */
  function SortedInsert(es: seq<Edge>, e: Edge): (r: seq<Edge>)
    decreases |es|
  {
    if es == [] then [e]
    else if Compare(es[0].name, e.name) == Less then [es[0]] + SortedInsert(es[1..], e)
    else [e] + es
  }

  lemma {:induction false} SortedInsertElements(es: seq<Edge>, e: Edge)
    ensures multiset(SortedInsert(es, e)) == multiset(es) + multiset{e}
    decreases |es|
  {
    if es != [] && Compare(es[0].name, e.name) == Less {
      SortedInsertElements(es[1..], e);
      assert es == [es[0]] + es[1..];
    }
  }

  lemma {:induction false} SortedInsertSorted(es: seq<Edge>, e: Edge)
    requires EdgesSorted(es)
    requires forall k | 0 <= k < |es| :: es[k].name != e.name
    ensures EdgesSorted(SortedInsert(es, e))
    decreases |es|
  {
    if es == [] {
    } else if Compare(es[0].name, e.name) == Less {
      var tail := es[1..];
      SortedInsertSorted(tail, e);
      SortedInsertElements(tail, e);
      var r := SortedInsert(es, e);
      assert r == [es[0]] + SortedInsert(tail, e);
      forall j | 1 <= j < |r| ensures Compare(es[0].name, r[j].name) == Less {
        assert r[j] in multiset(SortedInsert(tail, e));
        if r[j] != e {
          assert r[j] in multiset(tail);
          var k :| 0 <= k < |tail| && tail[k] == r[j];
          assert es[k + 1] == r[j];
        }
      }
    } else {
      CompareEqual(es[0].name, e.name);
      CompareFlip(e.name, es[0].name);
      var r := SortedInsert(es, e);
      forall j | 1 <= j < |r| ensures Compare(e.name, r[j].name) == Less {
        if j > 1 {
          CompareTransitive(e.name, es[0].name, es[j - 1].name);
        }
      }
    }
  }

  /** Two sorted arrangements of the same children start with the same child. */
  lemma SortedHeadsAgree(a: seq<Edge>, b: seq<Edge>)
    requires EdgesSorted(a) && EdgesSorted(b) && a != []
    requires multiset(a) == multiset(b)
    ensures b != [] && a[0] == b[0]
  {
    assert a[0] in multiset(b);
    var i :| 0 <= i < |b| && b[i] == a[0];
    assert b[0] in multiset(a);
    var j :| 0 <= j < |a| && a[j] == b[0];
    if i != 0 {
      CompareEqual(b[0].name, b[i].name);
      CompareFlip(a[0].name, a[j].name);
      assert false;
    }
  }

  lemma MultisetTail(s: seq<Edge>)
    requires s != []
    ensures multiset(s[1..]) == multiset(s) - multiset{s[0]}
  {
    assert s == [s[0]] + s[1..];
  }

  /**
   * A sorted arrangement of given children is unique, so whatever order
   * `sort_by` visits them in, it produces `SortedInsert`.
   */
  lemma {:induction false} SortedUnique(a: seq<Edge>, b: seq<Edge>)
    requires EdgesSorted(a) && EdgesSorted(b)
    requires multiset(a) == multiset(b)
    ensures a == b
    decreases |a|
  {
    if a == [] {
      assert |b| == |multiset(b)| == 0;
    } else {
      SortedHeadsAgree(a, b);
      MultisetTail(a);
      MultisetTail(b);
      SortedUnique(a[1..], b[1..]);
      assert a == [a[0]] + a[1..] && b == [b[0]] + b[1..];
    }
  }

  // ---------------------------------------------------------------------
  // Shape of the arena
  // ---------------------------------------------------------------------

  /**
   * Node `i` is well linked: its static children are sorted, in range,
   * static and carry the name they are filed under; the param child is a
   * Param node, the catch-all child a CatchAll node, and not both exist.
   */
  ghost predicate NodeShaped<T>(nodes: seq<Node<T>>, i: nat)
    requires i < |nodes|
  {
    var n := nodes[i];
    && EdgesSorted(n.statics)
    && (forall e | e in n.statics ::
          e.child < |nodes| && nodes[e.child].kind == Static && nodes[e.child].name == e.name)
    && (n.paramChild.Some? ==> n.paramChild.value < |nodes| && nodes[n.paramChild.value].kind == Param)
    && (n.catchAllChild.Some? ==> n.catchAllChild.value < |nodes| && nodes[n.catchAllChild.value].kind == CatchAll)
    && !(n.paramChild.Some? && n.catchAllChild.Some?)
  }

  ghost predicate Shaped<T>(nodes: seq<Node<T>>) {
    forall i | 0 <= i < |nodes| :: NodeShaped(nodes, i)
  }

  /** The static child of `cur` named `seg`, found through `child_index`. */
  function StaticChild<T>(nodes: seq<Node<T>>, cur: nat, seg: string): (r: Option<nat>)
    requires Shaped(nodes) && cur < |nodes|
    ensures r.Some? ==> r.value < |nodes| && Edge(seg, r.value) in nodes[cur].statics
  {
    assert NodeShaped(nodes, cur);
    match ChildIndex(nodes[cur].statics, seg)
    case None => None
    case Some(k) =>
      assert nodes[cur].statics[k] in nodes[cur].statics;
      Some(nodes[cur].statics[k].child)
  }

  /** In a shaped arena the static child named `seg` is the child of the edge with that name. */
  lemma StaticChildIff<T>(nodes: seq<Node<T>>, cur: nat, seg: string, c: nat)
    requires Shaped(nodes) && cur < |nodes|
    ensures StaticChild(nodes, cur, seg) == Some(c) <==> Edge(seg, c) in nodes[cur].statics
  {
    var es := nodes[cur].statics;
    assert NodeShaped(nodes, cur);
    if Edge(seg, c) in es {
      var k :| 0 <= k < |es| && es[k] == Edge(seg, c);
      ChildIndexExact(es, seg);
      var m := ChildIndex(es, seg).value;
      SortedNamesUnique(es, k, m);
    }
  }

  /** `will_conflit`: a `:` segment where a catch-all child exists, or a `*` segment where a param child exists. */
  predicate WillConflict<T>(n: Node<T>, seg: string) {
    (IsParamSeg(seg) && n.catchAllChild.Some?) || (IsCatchAllSeg(seg) && n.paramChild.Some?)
  }

  /** `param_name`: the name after a `:` or `*` marker. */
  function ParamName(seg: string): (r: Option<string>)
    ensures r.Some? <==> IsWildcard(seg)
    ensures r.Some? ==> [seg[0]] + r.value == seg
  {
    if IsWildcard(seg) then Some(NameOf(seg)) else None
  }

  /** The child `add_segment` goes to for `seg`, when it exists already. */
  function Child<T>(nodes: seq<Node<T>>, cur: nat, seg: string): (r: Option<nat>)
    requires Shaped(nodes) && cur < |nodes|
    ensures r.Some? ==> r.value < |nodes|
  {
    assert NodeShaped(nodes, cur);
    if IsParamSeg(seg) then nodes[cur].paramChild
    else if IsCatchAllSeg(seg) then nodes[cur].catchAllChild
    else StaticChild(nodes, cur, seg)
  }

  // ---------------------------------------------------------------------
  // Following a pattern through the tree
  // ---------------------------------------------------------------------

  /** Where following pattern segments ends: at a node, at a kind clash, or where a node is still missing. */
  datatype Outcome = Reached(node: nat) | Clash | Absent

  /** One step of `add`'s walk from node `cur`. */
  ghost function Step<T>(nodes: seq<Node<T>>, cur: nat, seg: string): (r: Outcome)
    requires Shaped(nodes) && cur < |nodes|
    ensures r.Reached? ==> r.node < |nodes|
  {
    if WillConflict(nodes[cur], seg) then Clash
    else match Child(nodes, cur, seg)
      case None => Absent
      case Some(c) => Reached(c)
  }

  /** The node a pattern leads to from `cur`, state of the tree fixed. */
  ghost function Follow<T>(nodes: seq<Node<T>>, cur: nat, ps: seq<string>): (r: Outcome)
    requires Shaped(nodes) && cur < |nodes|
    ensures r.Reached? ==> r.node < |nodes|
    decreases |ps|
  {
    if ps == [] then Reached(cur)
    else match Step(nodes, cur, ps[0])
      case Reached(c) => Follow(nodes, c, ps[1..])
      case other => other
  }

  lemma {:induction false} FollowSnoc<T>(nodes: seq<Node<T>>, cur: nat, ps: seq<string>, s: string)
    requires Shaped(nodes) && cur < |nodes|
    ensures Follow(nodes, cur, ps + [s]) ==
              match Follow(nodes, cur, ps)
              case Reached(m) => Step(nodes, m, s)
              case other => other
    decreases |ps|
  {
    if ps == [] {
      assert ([] + [s])[1..] == [];
    } else {
      assert (ps + [s])[0] == ps[0] && (ps + [s])[1..] == ps[1..] + [s];
      match Step(nodes, cur, ps[0])
      case Reached(c) => FollowSnoc(nodes, c, ps[1..], s);
      case other =>
    }
  }

  /** A walk that stops short stops at the same place whatever follows. */
  lemma {:induction false} FollowStuck<T>(nodes: seq<Node<T>>, cur: nat, ps: seq<string>, qs: seq<string>)
    requires Shaped(nodes) && cur < |nodes|
    requires !Follow(nodes, cur, ps).Reached?
    ensures Follow(nodes, cur, ps + qs) == Follow(nodes, cur, ps)
    decreases |ps|
  {
    assert ps != [];
    assert (ps + qs)[0] == ps[0] && (ps + qs)[1..] == ps[1..] + qs;
    match Step(nodes, cur, ps[0])
    case Reached(c) => FollowStuck(nodes, c, ps[1..], qs);
    case other =>
  }

  // ---------------------------------------------------------------------
  // How the tree may change: it only grows
  // ---------------------------------------------------------------------

  /** `b` is `a` with possibly more children and other data, never fewer children or a different identity. */
  ghost predicate Grows<T>(a: Node<T>, b: Node<T>) {
    && b.kind == a.kind && b.name == a.name
    && (forall e | e in a.statics :: e in b.statics)
    && (a.paramChild.Some? ==> b.paramChild == a.paramChild)
    && (a.catchAllChild.Some? ==> b.catchAllChild == a.catchAllChild)
  }

  ghost predicate Extends<T>(before: seq<Node<T>>, after: seq<Node<T>>) {
    |before| <= |after| && forall i | 0 <= i < |before| :: Grows(before[i], after[i])
  }

  /** Values and recorded names are unchanged, and added nodes carry neither. */
  ghost predicate DataKept<T>(before: seq<Node<T>>, after: seq<Node<T>>) {
    && |before| <= |after|
    && (forall i | 0 <= i < |before| :: after[i].data == before[i].data && after[i].params == before[i].params)
    && (forall i | |before| <= i < |after| :: after[i].data.None? && after[i].params == [])
  }

  lemma ExtendsTransitive<T>(a: seq<Node<T>>, b: seq<Node<T>>, c: seq<Node<T>>)
    requires Extends(a, b) && Extends(b, c)
    ensures Extends(a, c)
  {
    forall i | 0 <= i < |a| ensures Grows(a[i], c[i]) {
      assert Grows(a[i], b[i]) && Grows(b[i], c[i]);
    }
  }

  /** Growing the tree keeps every completed walk where it was. */
  lemma {:induction false} FollowExtends<T>(before: seq<Node<T>>, after: seq<Node<T>>, cur: nat, ps: seq<string>)
    requires Shaped(before) && Shaped(after) && Extends(before, after) && cur < |before|
    requires Follow(before, cur, ps).Reached?
    ensures Follow(after, cur, ps) == Follow(before, cur, ps)
    decreases |ps|
  {
    if ps != [] {
      var seg := ps[0];
      assert Grows(before[cur], after[cur]);
      assert NodeShaped(after, cur);
      var c := Child(before, cur, seg).value;
      if !IsWildcard(seg) {
        StaticChildIff(before, cur, seg, c);
        StaticChildIff(after, cur, seg, c);
      }
      assert Step(after, cur, seg) == Reached(c);
      FollowExtends(before, after, c, ps[1..]);
    }
  }

  lemma DataKeptTransitive<T>(a: seq<Node<T>>, b: seq<Node<T>>, c: seq<Node<T>>)
    requires DataKept(a, b) && DataKept(b, c)
    ensures DataKept(a, c)
  {
  }

  /** A walk over the first `i` segments, the tree grown, and segment `i` taken in the grown tree. */
  lemma FollowGrow<T>(before: seq<Node<T>>, after: seq<Node<T>>, cur: nat, ps: seq<string>, i: nat, c: nat)
    requires Shaped(before) && Shaped(after) && Extends(before, after) && cur < |before| && i < |ps|
    requires Follow(before, cur, ps[..i]).Reached?
    requires Step(after, Follow(before, cur, ps[..i]).node, ps[i]) == Reached(c)
    ensures Follow(after, cur, ps[..i + 1]) == Reached(c)
  {
    FollowExtends(before, after, cur, ps[..i]);
    FollowSnoc(after, cur, ps[..i], ps[i]);
    assert ps[..i + 1] == ps[..i] + [ps[i]];
  }

  /** A clash at segment `i` is where the walk over everything read ends. */
  lemma FollowClash<T>(nodes: seq<Node<T>>, cur: nat, ps: seq<string>, i: nat)
    requires Shaped(nodes) && cur < |nodes| && i < |ps| && ps[i] != ""
    requires forall k | 0 <= k < i :: ps[k] != ""
    requires Follow(nodes, cur, ps[..i]).Reached?
    requires WillConflict(nodes[Follow(nodes, cur, ps[..i]).node], ps[i])
    ensures Follow(nodes, cur, Consumed(ps)) == Clash
  {
    var c := Consumed(ps);
    ConsumedPast(ps, i);
    assert ps[..i + 1] == ps[..i] + [ps[i]];
    FollowSnoc(nodes, cur, ps[..i], ps[i]);
    FollowStuck(nodes, cur, ps[..i + 1], c[i + 1..]);
    assert ps[..i + 1] + c[i + 1..] == c;
  }

  /** A pattern of literal segments never clashes. */
  lemma {:induction false} LiteralsNeverClash<T>(nodes: seq<Node<T>>, cur: nat, ps: seq<string>)
    requires Shaped(nodes) && cur < |nodes|
    requires forall k | 0 <= k < |ps| :: !IsWildcard(ps[k])
    ensures !Follow(nodes, cur, ps).Clash?
    decreases |ps|
  {
    if ps != [] {
      assert !IsWildcard(ps[0]);
      if Step(nodes, cur, ps[0]).Reached? {
        LiteralsNeverClash(nodes, Step(nodes, cur, ps[0]).node, ps[1..]);
      }
    }
  }

  /** The walk only looks at a wildcard's kind, never at its name. */
  lemma {:induction false} FollowSameShape<T>(nodes: seq<Node<T>>, cur: nat, ps: seq<string>, qs: seq<string>)
    requires Shaped(nodes) && cur < |nodes| && SameShape(ps, qs)
    ensures Follow(nodes, cur, ps) == Follow(nodes, cur, qs)
    decreases |ps|
  {
    if ps != [] {
      assert Step(nodes, cur, ps[0]) == Step(nodes, cur, qs[0]);
      SameShapeTail(ps, qs);
      if Step(nodes, cur, ps[0]).Reached? {
        FollowSameShape(nodes, Step(nodes, cur, ps[0]).node, ps[1..], qs[1..]);
      }
    }
  }

  // ---------------------------------------------------------------------
  // Recorded names and wildcard depth
  // ---------------------------------------------------------------------

  /**
   * `depth[i]` counts the Param and CatchAll nodes on the way from the top
   * root to node `i`, node `i` itself included. A node records exactly that many names once it
   * records any or holds a value, and the names are pairwise distinct.
   */
  ghost predicate NodeDepthOk<T>(nodes: seq<Node<T>>, depth: seq<nat>, i: nat)
    requires |depth| == |nodes| && i < |nodes|
  {
    var n := nodes[i];
    && (forall e | e in n.statics :: e.child < |depth| && depth[e.child] == depth[i])
    && (n.paramChild.Some? ==> n.paramChild.value < |depth| && depth[n.paramChild.value] == depth[i] + 1)
    && (n.catchAllChild.Some? ==> n.catchAllChild.value < |depth| && depth[n.catchAllChild.value] == depth[i] + 1)
    && ((n.params != [] || n.data.Some?) ==> |n.params| == depth[i])
    && Distinct(n.params)
  }

  ghost predicate ArenaValid<T>(nodes: seq<Node<T>>, depth: seq<nat>) {
    && Shaped(nodes)
    && |depth| == |nodes|
    && forall i | 0 <= i < |nodes| :: NodeDepthOk(nodes, depth, i)
  }

  /** Following a pattern descends one wildcard level per wildcard segment. */
  lemma {:induction false} FollowDepth<T>(nodes: seq<Node<T>>, depth: seq<nat>, cur: nat, ps: seq<string>)
    requires ArenaValid(nodes, depth) && cur < |nodes|
    requires Follow(nodes, cur, ps).Reached?
    ensures depth[Follow(nodes, cur, ps).node] == depth[cur] + |WildcardNames(ps)|
    decreases |ps|
  {
    if ps != [] {
      assert NodeShaped(nodes, cur) && NodeDepthOk(nodes, depth, cur);
      var c := Child(nodes, cur, ps[0]).value;
      if !IsWildcard(ps[0]) {
        assert Edge(ps[0], c) in nodes[cur].statics;
      }
      FollowDepth(nodes, depth, c, ps[1..]);
    }
  }

  /** The kind of node `add_segment` reaches is the kind of segment it was given. */
  lemma ChildKind<T>(nodes: seq<Node<T>>, cur: nat, seg: string)
    requires Shaped(nodes) && cur < |nodes| && Child(nodes, cur, seg).Some?
    ensures nodes[Child(nodes, cur, seg).value].kind ==
              if IsParamSeg(seg) then Param else if IsCatchAllSeg(seg) then CatchAll else Static
  {
    assert NodeShaped(nodes, cur);
    if !IsWildcard(seg) {
      assert Edge(seg, Child(nodes, cur, seg).value) in nodes[cur].statics;
    }
  }

  // ---------------------------------------------------------------------
  // Changes `add_segment`, `add` and `set_data` make
  // ---------------------------------------------------------------------

  /** The fresh node `add_segment` creates for `seg`. */
  function NewChildFor<T>(seg: string): Node<T> {
    if IsParamSeg(seg) then NewParamNode()
    else if IsCatchAllSeg(seg) then NewCatchAllNode()
    else NewStaticNode(seg)
  }

  /** Node `n` with a new child `c` for `seg`: the param or catch-all slot, or one more sorted static child. */
  function Attach<T>(n: Node<T>, seg: string, c: nat): (r: Node<T>) {
    if IsParamSeg(seg) then n.(paramChild := Some(c))
    else if IsCatchAllSeg(seg) then n.(catchAllChild := Some(c))
    else n.(statics := SortedInsert(n.statics, Edge(seg, c)))
  }

  /** One more wildcard level below a wildcard segment, the same level below a literal. */
  function Level(seg: string): nat {
    if IsWildcard(seg) then 1 else 0
  }

  /** The arena after `add_segment` creates the missing child of `at` for `seg`. */
  function Attached<T>(nodes: seq<Node<T>>, at: nat, seg: string): seq<Node<T>>
    requires at < |nodes|
  {
    nodes[at := Attach(nodes[at], seg, |nodes|)] + [NewChildFor(seg)]
  }

  /** The depths after `Attached`. */
  function AttachedDepth(depth: seq<nat>, at: nat, seg: string): seq<nat>
    requires at < |depth|
  {
    depth + [depth[at] + Level(seg)]
  }

  /** Inserting a new name into sorted static children keeps them sorted and adds exactly that edge. */
  lemma SortedInsertHas(es: seq<Edge>, e: Edge)
    requires EdgesSorted(es) && forall x | x in es :: x.name != e.name
    ensures EdgesSorted(SortedInsert(es, e))
    ensures forall x :: x in SortedInsert(es, e) <==> x in es || x == e
  {
    SortedInsertSorted(es, e);
    SortedInsertElements(es, e);
    forall x ensures x in SortedInsert(es, e) <==> x in es || x == e {
      assert x in SortedInsert(es, e) <==> x in multiset(SortedInsert(es, e));
      assert x in es <==> x in multiset(es);
    }
  }

  /** The node that gains a static child has it filed in sorted place, next to the old ones. */
  lemma AttachStatic<T>(nodes: seq<Node<T>>, at: nat, seg: string)
    requires Shaped(nodes) && at < |nodes|
    requires !IsWildcard(seg) && Child(nodes, at, seg).None?
    ensures EdgesSorted(Attached(nodes, at, seg)[at].statics)
    ensures forall x :: x in Attached(nodes, at, seg)[at].statics <==> x in nodes[at].statics || x == Edge(seg, |nodes|)
  {
    assert NodeShaped(nodes, at);
    ChildIndexExact(nodes[at].statics, seg);
    SortedInsertHas(nodes[at].statics, Edge(seg, |nodes|));
  }

  /** Attaching keeps every old node's kind and name, and the new node is the one for `seg`. */
  lemma AttachedIdentity<T>(nodes: seq<Node<T>>, at: nat, seg: string)
    requires at < |nodes|
    ensures |Attached(nodes, at, seg)| == |nodes| + 1
    ensures forall j | 0 <= j < |nodes| ::
              Attached(nodes, at, seg)[j].kind == nodes[j].kind && Attached(nodes, at, seg)[j].name == nodes[j].name
    ensures Attached(nodes, at, seg)[|nodes|] == NewChildFor(seg)
  {
  }

  /** The node that gains the child is still well formed. */
  lemma AttachAt<T>(nodes: seq<Node<T>>, depth: seq<nat>, at: nat, seg: string)
    requires ArenaValid(nodes, depth) && at < |nodes|
    requires !WillConflict(nodes[at], seg) && Child(nodes, at, seg).None?
    ensures NodeShaped(Attached(nodes, at, seg), at)
    ensures NodeDepthOk(Attached(nodes, at, seg), AttachedDepth(depth, at, seg), at)
  {
    var after, depth' := Attached(nodes, at, seg), AttachedDepth(depth, at, seg);
    assert NodeShaped(nodes, at) && NodeDepthOk(nodes, depth, at);
    AttachedIdentity(nodes, at, seg);
    if !IsWildcard(seg) {
      AttachStatic(nodes, at, seg);
      forall e | e in after[at].statics
        ensures e.child < |after| && after[e.child].kind == Static && after[e.child].name == e.name
        ensures depth'[e.child] == depth'[at]
      {
        if e != Edge(seg, |nodes|) {
          assert e in nodes[at].statics;
        }
      }
    }
  }

  /** Every other node keeps its children, whose kinds and names are unchanged. */
  lemma AttachOther<T>(nodes: seq<Node<T>>, depth: seq<nat>, at: nat, seg: string, i: nat)
    requires ArenaValid(nodes, depth) && at < |nodes| && i < |nodes| && i != at
    ensures NodeShaped(Attached(nodes, at, seg), i)
    ensures NodeDepthOk(Attached(nodes, at, seg), AttachedDepth(depth, at, seg), i)
  {
    assert NodeShaped(nodes, i) && NodeDepthOk(nodes, depth, i);
    var after := Attached(nodes, at, seg);
    assert after[i] == nodes[i];
    assert forall j | 0 <= j < |nodes| :: after[j].kind == nodes[j].kind && after[j].name == nodes[j].name;
  }

  /** Creating a missing child keeps the arena well formed. */
  lemma AttachArena<T>(nodes: seq<Node<T>>, depth: seq<nat>, at: nat, seg: string)
    requires ArenaValid(nodes, depth) && at < |nodes|
    requires !WillConflict(nodes[at], seg) && Child(nodes, at, seg).None?
    ensures ArenaValid(Attached(nodes, at, seg), AttachedDepth(depth, at, seg))
  {
    var after := Attached(nodes, at, seg);
    var depth' := AttachedDepth(depth, at, seg);
    forall i | 0 <= i < |after|
      ensures NodeShaped(after, i) && NodeDepthOk(after, depth', i)
    {
      if i == at {
        AttachAt(nodes, depth, at, seg);
      } else if i < |nodes| {
        AttachOther(nodes, depth, at, seg, i);
      }
    }
  }

  /** Creating a missing child only adds to the arena. */
  lemma AttachGrowth<T>(nodes: seq<Node<T>>, at: nat, seg: string)
    requires Shaped(nodes) && at < |nodes|
    requires !WillConflict(nodes[at], seg) && Child(nodes, at, seg).None?
    ensures Extends(nodes, Attached(nodes, at, seg)) && DataKept(nodes, Attached(nodes, at, seg))
  {
    var after := Attached(nodes, at, seg);
    if !IsWildcard(seg) {
      AttachStatic(nodes, at, seg);
    }
    forall i | 0 <= i < |nodes| ensures Grows(nodes[i], after[i]) {
    }
  }

  /**
   * Creating a missing child keeps the arena well formed, only adds to
   * it, and the new node is where the step for `seg` now leads.
   */
  lemma AttachValid<T>(nodes: seq<Node<T>>, depth: seq<nat>, at: nat, seg: string)
    requires ArenaValid(nodes, depth) && at < |nodes|
    requires !WillConflict(nodes[at], seg) && Child(nodes, at, seg).None?
    ensures ArenaValid(Attached(nodes, at, seg), AttachedDepth(depth, at, seg))
    ensures Extends(nodes, Attached(nodes, at, seg)) && DataKept(nodes, Attached(nodes, at, seg))
    ensures Step(Attached(nodes, at, seg), at, seg) == Reached(|nodes|)
  {
    AttachArena(nodes, depth, at, seg);
    AttachGrowth(nodes, at, seg);
    var after := Attached(nodes, at, seg);
    if !IsWildcard(seg) {
      AttachStatic(nodes, at, seg);
      StaticChildIff(after, at, seg, |nodes|);
    }
  }

  /**
   * Whichever way `add_segment` found its child (there already, or just
   * created), the arena is well formed, has only grown, and the step for
   * `seg` from `at` leads to that child one wildcard level deeper or not.
   */
  lemma StepTaken<T>(nodes: seq<Node<T>>, depth: seq<nat>, nodes': seq<Node<T>>, depth': seq<nat>,
                     at: nat, seg: string, c: nat)
    requires ArenaValid(nodes, depth) && at < |nodes| && !WillConflict(nodes[at], seg)
    requires Child(nodes, at, seg).Some? ==> c == Child(nodes, at, seg).value && nodes' == nodes && depth' == depth
    requires Child(nodes, at, seg).None? ==>
               c == |nodes| && nodes' == Attached(nodes, at, seg) && depth' == AttachedDepth(depth, at, seg)
    ensures ArenaValid(nodes', depth') && c < |nodes'|
    ensures Step(nodes', at, seg) == Reached(c) && depth'[c] == depth'[at] + Level(seg)
    ensures Extends(nodes, nodes') && DataKept(nodes, nodes')
    ensures |depth| <= |depth'| && depth'[..|depth|] == depth
  {
    if Child(nodes, at, seg).None? {
      AttachValid(nodes, depth, at, seg);
    } else {
      assert NodeShaped(nodes, at) && NodeDepthOk(nodes, depth, at);
      if !IsWildcard(seg) {
        assert Edge(seg, c) in nodes[at].statics;
      }
      forall i | 0 <= i < |nodes| ensures Grows(nodes[i], nodes'[i]) {
      }
    }
  }

  /**
   * Changing what one node stores (its value and recorded names) keeps
   * the arena well formed as long as the names agree with its depth.
   */
  lemma RelabelValid<T>(nodes: seq<Node<T>>, depth: seq<nat>, n: nat, data: Option<T>, params: seq<string>)
    requires ArenaValid(nodes, depth) && n < |nodes|
    requires (params != [] || data.Some?) ==> |params| == depth[n]
    requires Distinct(params)
    ensures var after := nodes[n := nodes[n].(data := data, params := params)];
            ArenaValid(after, depth) && Extends(nodes, after)
  {
    var after := nodes[n := nodes[n].(data := data, params := params)];
    forall i | 0 <= i < |after|
      ensures NodeShaped(after, i) && NodeDepthOk(after, depth, i)
    {
      assert NodeShaped(nodes, i) && NodeDepthOk(nodes, depth, i);
    }
    assert Shaped(after);
    forall i | 0 <= i < |nodes| ensures Grows(nodes[i], after[i]) {
    }
  }

  /**
   * What `add` demands of the names `names` collected for a node that
   * recorded `recorded`: record them if it has none yet, else the same.
   */
  predicate MayRecord(recorded: seq<string>, names: seq<string>) {
    (|names| > 0 && recorded == []) || names == recorded
  }

  /** `DataKept` except at node `n`. */
  ghost predicate DataKeptBut<T>(before: seq<Node<T>>, after: seq<Node<T>>, n: nat) {
    && |before| <= |after|
    && (forall i | 0 <= i < |before| && i != n :: after[i].data == before[i].data && after[i].params == before[i].params)
    && (forall i | |before| <= i < |after| && i != n :: after[i].data.None? && after[i].params == [])
  }

  /**
   * Recording names and a value at the node a pattern leads to keeps the
   * arena well formed and the walk where it was, and changes no other
   * node's value or names.
   */
  lemma StoreKeeps<T>(start: seq<Node<T>>, reached: seq<Node<T>>, depth: seq<nat>, at: nat, ps: seq<string>,
                      n: nat, names: seq<string>, data: T)
    requires ArenaValid(reached, depth) && Shaped(start) && at < |start|
    requires Extends(start, reached) && DataKept(start, reached)
    requires Follow(reached, at, ps) == Reached(n)
    requires |names| == depth[n] && Distinct(names)
    ensures var final := reached[n := reached[n].(data := Some(data), params := names)];
            && ArenaValid(final, depth) && Extends(start, final) && DataKeptBut(start, final, n)
            && Follow(final, at, ps) == Reached(n)
  {
    RelabelValid(reached, depth, n, Some(data), names);
    var final := reached[n := reached[n].(data := Some(data), params := names)];
    ExtendsTransitive(start, reached, final);
    FollowExtends(reached, final, at, ps);
  }

  // ---------------------------------------------------------------------
  // The walk `add` and `with_base` make, creating nodes as they go
  // ---------------------------------------------------------------------

  /**
   * After `i` segments of `segs` from `at`: the tree has only grown since
   * `start`, keeps every stored value, the walk so far ends at `last`,
   * and `names` are the wildcard names met, one per level descended.
   */
  ghost predicate Descent<T>(start: seq<Node<T>>, nodes: seq<Node<T>>, depth: seq<nat>, at: nat,
                             segs: seq<string>, i: nat, last: nat, names: seq<string>)
  {
    && i <= |segs|
    && ArenaValid(nodes, depth) && at < |start|
    && Extends(start, nodes) && DataKept(start, nodes)
    && last < |nodes|
    && Follow(nodes, at, segs[..i]) == Reached(last)
    && names == WildcardNames(segs[..i])
    && depth[last] == depth[at] + |names|
    && (forall k | 0 <= k < i :: segs[k] != "")
  }

  /** Taking segment `i` (the child found or created by `add_segment`) extends the descent by one. */
  lemma DescentStep<T>(start: seq<Node<T>>, startDepth: seq<nat>, prev: seq<Node<T>>, prevDepth: seq<nat>,
                       nodes: seq<Node<T>>, depth: seq<nat>, at: nat, segs: seq<string>, i: nat, last: nat,
                       names: seq<string>, c: nat)
    requires Descent(start, prev, prevDepth, at, segs, i, last, names) && i < |segs| && segs[i] != ""
    requires Shaped(start)
    requires |startDepth| <= |prevDepth| && prevDepth[..|startDepth|] == startDepth
    requires !WillConflict(prev[last], segs[i])
    requires Child(prev, last, segs[i]).Some? ==>
               c == Child(prev, last, segs[i]).value && nodes == prev && depth == prevDepth
    requires Child(prev, last, segs[i]).None? ==>
               c == |prev| && nodes == Attached(prev, last, segs[i]) && depth == AttachedDepth(prevDepth, last, segs[i])
    ensures c < |nodes| && (nodes[c].kind != Static <==> IsWildcard(segs[i]))
    ensures Descent(start, nodes, depth, at, segs, i + 1, c,
                    names + (if IsWildcard(segs[i]) then [NameOf(segs[i])] else []))
    ensures |startDepth| <= |depth| && depth[..|startDepth|] == startDepth
  {
    StepTaken(prev, prevDepth, nodes, depth, last, segs[i], c);
    ExtendsTransitive(start, prev, nodes);
    DataKeptTransitive(start, prev, nodes);
    FollowGrow(prev, nodes, at, segs, i, c);
    ChildKind(nodes, last, segs[i]);
    WildcardNamesStep(segs, i);
    assert depth[at] == prevDepth[at] && depth[last] == prevDepth[last];
    assert depth[..|startDepth|] == prevDepth[..|startDepth|];
  }

  // ---------------------------------------------------------------------
  // The tree `add`'s walk builds
  // ---------------------------------------------------------------------

  /** An arena with its depths, and where a walk over it ended. */
  datatype Growth<T> = Growth(nodes: seq<Node<T>>, depth: seq<nat>, end: Outcome)

  /**
   * The arena after `add_segment` for each of `ps` in turn from `cur`,
   * each step from the child the previous one returned: an existing
   * child is taken as it is, a missing one is created (`Attached`), and
   * a kind clash stops the walk with the tree as it stands.
   */
  ghost function Grown<T>(nodes: seq<Node<T>>, depth: seq<nat>, cur: nat, ps: seq<string>): (g: Growth<T>)
    requires ArenaValid(nodes, depth) && cur < |nodes|
    ensures ArenaValid(g.nodes, g.depth) && !g.end.Absent?
    ensures g.end.Reached? ==> g.end.node < |g.nodes|
    decreases |ps|
  {
    if ps == [] then Growth(nodes, depth, Reached(cur))
    else if WillConflict(nodes[cur], ps[0]) then Growth(nodes, depth, Clash)
    else match Child(nodes, cur, ps[0])
      case Some(c) => Grown(nodes, depth, c, ps[1..])
      case None =>
        AttachArena(nodes, depth, cur, ps[0]);
        Grown(Attached(nodes, cur, ps[0]), AttachedDepth(depth, cur, ps[0]), |nodes|, ps[1..])
  }

  /** One `add_segment` that returned `c` leaves the rest of the walk to do from `c`. */
  lemma GrownStep<T>(nodes: seq<Node<T>>, depth: seq<nat>, nodes': seq<Node<T>>, depth': seq<nat>,
                     cur: nat, ps: seq<string>, c: nat)
    requires ArenaValid(nodes, depth) && cur < |nodes| && ps != [] && !WillConflict(nodes[cur], ps[0])
    requires Child(nodes, cur, ps[0]).Some? ==> c == Child(nodes, cur, ps[0]).value && nodes' == nodes && depth' == depth
    requires Child(nodes, cur, ps[0]).None? ==>
               c == |nodes| && nodes' == Attached(nodes, cur, ps[0]) && depth' == AttachedDepth(depth, cur, ps[0])
    ensures ArenaValid(nodes', depth') && c < |nodes'|
    ensures Grown(nodes, depth, cur, ps) == Grown(nodes', depth', c, ps[1..])
  {
    if Child(nodes, cur, ps[0]).None? {
      AttachArena(nodes, depth, cur, ps[0]);
    }
  }

  /**
   * The tree the walk builds is the old one grown, with every value kept,
   * and following the pattern through it ends where the walk ended.
   */
  lemma {:induction false} GrownFollow<T>(nodes: seq<Node<T>>, depth: seq<nat>, cur: nat, ps: seq<string>)
    requires ArenaValid(nodes, depth) && cur < |nodes|
    ensures var g := Grown(nodes, depth, cur, ps);
            Extends(nodes, g.nodes) && DataKept(nodes, g.nodes) && Follow(g.nodes, cur, ps) == g.end
    decreases |ps|
  {
    var g := Grown(nodes, depth, cur, ps);
    if ps == [] {
      assert Extends(nodes, nodes);
    } else if WillConflict(nodes[cur], ps[0]) {
      assert Extends(nodes, nodes);
    } else {
      var seg := ps[0];
      var mid, midDepth, c;
      if Child(nodes, cur, seg).Some? {
        mid, midDepth, c := nodes, depth, Child(nodes, cur, seg).value;
      } else {
        mid, midDepth, c := Attached(nodes, cur, seg), AttachedDepth(depth, cur, seg), |nodes|;
      }
      StepTaken(nodes, depth, mid, midDepth, cur, seg, c);
      GrownStep(nodes, depth, mid, midDepth, cur, ps, c);
      GrownFollow(mid, midDepth, c, ps[1..]);
      ExtendsTransitive(nodes, mid, g.nodes);
      DataKeptTransitive(nodes, mid, g.nodes);
      assert Follow(mid, cur, [seg]) == Reached(c) by {
        assert [seg][1..] == [];
      }
      FollowExtends(mid, g.nodes, cur, [seg]);
      assert [seg][1..] == [];
      assert Step(g.nodes, cur, seg) == Reached(c);
    }
  }

  /** A pattern whose nodes all exist already creates nothing. */
  lemma {:induction false} GrownExisting<T>(nodes: seq<Node<T>>, depth: seq<nat>, cur: nat, ps: seq<string>)
    requires ArenaValid(nodes, depth) && cur < |nodes|
    requires Follow(nodes, cur, ps).Reached?
    ensures Grown(nodes, depth, cur, ps) == Growth(nodes, depth, Follow(nodes, cur, ps))
    decreases |ps|
  {
    if ps != [] {
      GrownExisting(nodes, depth, Child(nodes, cur, ps[0]).value, ps[1..]);
    }
  }
}
