/**
 * What a caller sees when `add` is called twice for the same node:
 * the names the first success recorded stay, so the same pattern again
 * overwrites the value, and the same pattern with other names is refused.
 */
module Scenarios {
  import opened Wrappers
  import opened Validate
  import opened Trie
  import opened PathRouter

  /** The same pattern twice: the second `add` succeeds at the same node and its value replaces the first. */
  method AddTwice<T>(router: Router<T>, at: nat, route: string, first: T, second: T)
    returns (r1: Result<nat, Error>, r2: Result<nat, Error>)
    requires router.Valid() && at in router.mounts
    modifies router
    ensures router.Valid()
    ensures r1 == Err(InvalidFormat) <==> r2 == Err(InvalidFormat)
    ensures r1.Ok? ==> r2 == r1 && r1.value < |router.nodes| && router.nodes[r1.value].data == Some(second)
  {
    r1 := router.Add(at, route, first);
    ghost var mid := router.nodes;
    r2 := router.Add(at, route, second);
    if ValidRoute(route) && Follow(mid, at, Segs(route)).Reached? {
      FollowExtends(mid, router.nodes, at, Segs(route));
    }
  }

  /**
   * The same shape with other names (`/p/:a` then `/p/:b`): once the
   * first succeeds, the second is a conflict and the first value stays.
   */
  method AddRenamed<T>(router: Router<T>, at: nat, route1: string, route2: string, first: T, second: T)
    returns (r1: Result<nat, Error>, r2: Result<nat, Error>)
    requires router.Valid() && at in router.mounts
    requires ValidRoute(route1) && ValidRoute(route2)
    requires SameShape(Segs(route1), Segs(route2))
    requires WildcardNames(Segs(route1)) != WildcardNames(Segs(route2))
    modifies router
    ensures router.Valid()
    ensures r1.Ok? ==> r2 == Err(RouteConflict) && r1.value < |router.nodes| && router.nodes[r1.value].data == Some(first)
  {
    r1 := router.Add(at, route1, first);
    ghost var mid := router.nodes;
    r2 := router.Add(at, route2, second);
    if r1.Ok? {
      SameShapeNameCount(Segs(route1), Segs(route2));
      FollowSameShape(mid, at, Segs(route1), Segs(route2));
      FollowExtends(mid, router.nodes, at, Segs(route2));
    }
  }
}
