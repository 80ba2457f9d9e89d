/**
 * A concrete tree on which the greedy walk of `recognize` misses a route
 * that the path spells out: it holds `/users/new` (value 1) and
 * `/:id/edit` (value 2), written out in the shape two `add` calls on a
 * new router give.
 */
module Vectors {
  import opened Wrappers
  import opened Segments
  import opened Order
  import opened Validate
  import opened Trie
  import opened Recognition

  /** `Split` of `a/b`, for slash-free `a` and `b`. */
  lemma SplitTwo(a: string, b: string)
    requires NoSlash(a) && NoSlash(b)
    ensures Split(a + "/" + b) == [a, b]
  {
    SplitAtSlash(a, b);
    NoSlashSplit(a);
    NoSlashSplit(b);
  }

  /** `recognize` on `/a/b` walks the two segments `a` and `b`. */
  lemma CaptureTwo<T>(nodes: seq<Node<T>>, a: string, b: string)
    requires Shaped(nodes) && |nodes| > 0 && NoSlash(a) && NoSlash(b)
    ensures Capture(nodes, 0, "/" + (a + "/" + b)) == Walk(nodes, 0, [a, b])
  {
    var body := a + "/" + b;
    SplitTwo(a, b);
    assert ("/" + body)[1..] == body;
    assert ("/" + body)[0] == '/';
  }

  /** The tree of `add("/users/new", 1)` and `add("/:id/edit", 2)`, node by node. */
  function UsersTree(): seq<Node<int>> {
    [ Node(Static, "", None, [], [Edge("users", 1)], Some(3), None),
      Node(Static, "users", None, [], [Edge("new", 2)], None, None),
      Node(Static, "new", Some(1), [], [], None, None),
      Node(Param, "", None, [], [Edge("edit", 4)], None, None),
      Node(Static, "edit", Some(2), ["id"], [], None, None) ]
  }

  lemma UsersTreeValid()
    ensures ArenaValid(UsersTree(), [0, 0, 0, 1, 1])
  {
    var t := UsersTree();
    forall i | 0 <= i < |t| ensures NodeShaped(t, i) && NodeDepthOk(t, [0, 0, 0, 1, 1], i) {
    }
  }

  lemma UsersTreeShaped()
    ensures Shaped(UsersTree())
  {
    UsersTreeValid();
  }

  /** The static and param steps the examples take. */
  lemma UsersTreeSteps()
    ensures Shaped(UsersTree())
    ensures StaticChild(UsersTree(), 0, "users") == Some(1)
    ensures StaticChild(UsersTree(), 0, "bob") == None
    ensures StaticChild(UsersTree(), 1, "edit") == None
    ensures StaticChild(UsersTree(), 3, "edit") == Some(4)
  {
    UsersTreeShaped();
    assert Compare("users", "users") == Equal;
    assert Compare("users", "bob") == Greater;
    assert Compare("new", "edit") == Greater;
    assert Compare("edit", "edit") == Equal;
  }

  /** The pattern `/:id/edit` leads to node 4 through the root's param child. */
  lemma ParamPatternFollowed()
    ensures Shaped(UsersTree())
    ensures Follow(UsersTree(), 0, [":id", "edit"]) == Reached(4)
  {
    var t := UsersTree();
    UsersTreeSteps();
    var ps := [":id", "edit"];
    assert ps[1..] == ["edit"] && ps[1..][1..] == [];
    assert Follow(t, 3, ["edit"]) == Reached(4);
  }

  /** The walk of `/users/edit` takes the static child `users`, where `edit` is missing. */
  lemma UsersEditMissed()
    ensures Shaped(UsersTree())
    ensures Walk(UsersTree(), 0, ["users", "edit"]) == None
  {
    var t := UsersTree();
    UsersTreeSteps();
    var segs := ["users", "edit"];
    assert segs[1..] == ["edit"] && segs[1..][1..] == [];
    assert Walk(t, 1, ["edit"]) == None;
  }

  /**
   * `/users/edit` fills the pattern `/:id/edit`, which leads to a node
   * holding a value, yet `recognize` returns nothing: the static child
   * `users` wins at the root, and the walk does not come back to try the
   * param child.
   */
  lemma GreedyWalkMisses()
    ensures Shaped(UsersTree())
    ensures Follow(UsersTree(), 0, [":id", "edit"]) == Reached(4) && UsersTree()[4].data == Some(2)
    ensures Fills([":id", "edit"], ["users", "edit"])
    ensures RecognizeSpec(UsersTree(), 0, "/users/edit") == None
  {
    ParamPatternFollowed();
    UsersEditFills();
    UsersEditUnrecognized();
  }

  lemma UsersEditFills()
    ensures Fills([":id", "edit"], ["users", "edit"])
  {
    var ps, segs := [":id", "edit"], ["users", "edit"];
    assert ps[1..] == ["edit"] && segs[1..] == ["edit"] && ps[1..][1..] == [] && segs[1..][1..] == [];
  }

  lemma UsersEditUnrecognized()
    ensures Shaped(UsersTree())
    ensures RecognizeSpec(UsersTree(), 0, "/users/edit") == None
  {
    UsersEditMissed();
    assert "/users/edit" == "/" + ("users" + "/" + "edit");
    CaptureTwo(UsersTree(), "users", "edit");
  }

  /** The walk of `/bob/edit` falls through to the param child at the root. */
  lemma BobWalk()
    ensures Shaped(UsersTree())
    ensures Walk(UsersTree(), 0, ["bob", "edit"]) == Some(Walked(4, ["bob"], false))
  {
    var t := UsersTree();
    UsersTreeSteps();
    var segs := ["bob", "edit"];
    assert segs[1..] == ["edit"] && segs[1..][1..] == [];
    assert Walk(t, 4, []) == Some(Walked(4, [], false));
    assert Walk(t, 3, ["edit"]) == Some(Walked(4, [], false));
    assert ["bob"] + [] == ["bob"];
  }

  lemma ZipOne(k: string, v: string)
    ensures Zip([k], [v]) == map[k := v]
  {
    assert [k][..1] == [k] && [v][..1] == [v];
    assert [k][..0] == [] && [v][..0] == [];
    assert ZipMap([], []) == map[];
    assert ZipMap([k], [v]) == ZipMap([], [])[k := v];
  }

  /** The same pattern is found when the value is not also a static name at the root. */
  lemma ParamRouteFound()
    ensures Shaped(UsersTree())
    ensures RecognizeSpec(UsersTree(), 0, "/bob/edit") == Some(Match(2, map["id" := "bob"]))
  {
    var t := UsersTree();
    BobWalk();
    assert "/bob/edit" == "/" + ("bob" + "/" + "edit");
    CaptureTwo(t, "bob", "edit");
    ZipOne("id", "bob");
  }
}
