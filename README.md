# path-router, modelled in Dafny

A model of the core of the Rust crate `path-router` (`src/lib.rs`). The crate keeps
URL-path patterns in a segment trie, `Router<T>`, and maps each registered pattern
to a value. Pattern segments come in three kinds:

- a literal (`users`);
- a param (`:id`), which captures one path segment;
- a catch-all (`*any`), which captures the rest of the path.

The model covers:

- **the validators** `is_route_in_good_shape`, `is_valid_route` and `is_valid_base` (module `Validate`);
- **the node helpers.** These are `new_*_node`, the sorted static children with `child_index`'s binary
  search, `will_conflit`, `param_name`, `add_segment` and `set_data` (modules `Trie` and `PathRouter`);
- **insertion and mounting**, `add` and `with_base` (module `PathRouter`);
- **lookup**, `recognize` (module `PathRouter`; its reference definition is in `Recognition`);
- **the types** `Error`, `NodeKind` and `Match`.

`str::split('/')` is modelled exactly in module `Segments`: the empty string splits into one
empty piece, and a leading, doubled or trailing slash yields an empty piece. `str::cmp` is the
lexicographic order of characters, in module `Order`; it agrees with Rust's byte order because
UTF-8 keeps the order of code points.

**Representation.** The tree of boxed `Router<T>` nodes is modelled as an arena, the class
`PathRouter.Router<T>`:

- `nodes: seq<Node<T>>` holds every node, and children are indices into it.
- A `&mut Router<T>` the caller holds is the index of that subtree's root (`at`). Node 0 is the
  router itself.
- An `Edge(name, child)` stands for a static child. `Node.statics` is the `normal_children`
  vector; it is kept sorted by name and searched by binary search.
- The ghost field `depth` counts the Param/CatchAll nodes on the path from node 0 to each node, the node itself included.
- The ghost field `mounts` holds the router root and every subtree `with_base` has handed out.
  All of them sit at depth 0.

`Valid()` is the invariant that every method keeps:

- static children are sorted, so their names are unique;
- each child agrees in kind with the slot it is in;
- no node has both a param child and a catch-all child;
- a node that holds a value or records names records exactly `depth` pairwise distinct names.

**Methods and their specifications.** Each imperative operation is a method proved against a
function:

| Method | Proved equal to |
|---|---|
| `Validate.IsValidRoute` | `ValidRoute` |
| `Validate.IsValidBase` | `ValidBase` |
| `PathRouter.Router.Recognize` | `Recognition.RecognizeSpec`, the greedy `Walk` followed by the zip |

`Add` and `WithBase` are stated in two ways:

- in terms of `Trie.Follow`, the node that following a pattern leads to;
- exactly, as the tree `Trie.Grown` builds by applying `add_segment` to each segment in turn.

**Greedy lookup can miss.** `recognize` is one greedy pass with no backtracking: a static child
is taken whenever one matches, then the param child is tried, then the catch-all child. So a
path that spells out a registered pattern is not always recognized. With `/users/new` and
`/:id/edit` registered, `/users/edit` gives `None`: the walk goes into `users`, finds no `edit`
there, and never tries `:id` (`Vectors.GreedyWalkMisses`). The model follows the code. The
positive result, `Recognition.RegisteredRouteRecognized`, is proved under the condition that
no captured value is also the name of a static sibling on the pattern's branch
(`Recognition.Unshadowed`).

## Model

| member | source | states |
|---|---|---|
| Validate.IsRouteInGoodShape | src/lib.rs:168-177 | true exactly when the route starts with `/` and is `/` or does not end with `/` |
| Validate.IsValidRoute | src/lib.rs:179-212 | returns true exactly for `ValidRoute`: good shape, and (unless the route is `/`) no empty body segment, every `:`/`*` segment names something, all wildcard names are pairwise distinct whatever their kind, and nothing follows a `*` segment |
| Validate.PatternStep | src/lib.rs:191-209 | a segment passing the loop's checks extends the checked prefix by one, and `checker` gains exactly its wildcard name |
| Validate.PatternFails | src/lib.rs:192-202 | each early `return false` of the loop (empty segment, segment after a catch-all, nameless or repeated wildcard) means the pattern is inadmissible |
| Validate.IsValidBase | src/lib.rs:214-233 | returns true exactly for `ValidBase`: good shape and every body segment a non-empty literal |
| Validate.ValidBaseIsValidRoute | src/lib.rs:214-233 | every admissible mount prefix is also an admissible pattern |
| Validate.ValidPatternNamesDistinct | src/lib.rs:193-203 | the wildcard names of an admissible pattern are pairwise distinct |
| Validate.Consumed | src/lib.rs:243-247 | the segments `add`'s loop handles before its `break` form a prefix of the input without empty segments, that stops at the first empty segment or at the end |
| Validate.ValidRouteConsumed | src/lib.rs:240-247 | for an admissible pattern, `add`'s loop consumes exactly its segments (none for `/`) |
| Segments.JoinSplit | src/lib.rs:191 | joining the pieces of `split('/')` with `/` gives back the string |
| Segments.SplitJoin | src/lib.rs:314 | splitting the join of a non-empty list of slash-free pieces gives back the list |
| Segments.SplitAtSlash | src/lib.rs:314 | `split('/')` of `s + "/" + t` is the split of `s` followed by the split of `t` |
| Segments.SplitPiecesHaveNoSlash | src/lib.rs:314 | no piece of `split('/')` contains a slash |
| Order.CompareEqual | src/lib.rs:93-98 | `str::cmp` says `Equal` exactly for equal strings |
| Order.CompareFlip | src/lib.rs:93-98 | `a < b` exactly when `b > a` |
| Order.CompareTransitive | src/lib.rs:155-156 | the order `sort_by` uses is transitive |
| Trie.ChildIndex | src/lib.rs:93-101 | an index `child_index` returns is in range and names a child with that name |
| Trie.SearchComplete | src/lib.rs:93-101 | when the binary search over sorted children finds nothing, no child in the range has that name |
| Trie.ChildIndexExact | src/lib.rs:93-101 | on sorted children, `child_index` is `None` exactly when no child has that name |
| Trie.SortedNamesUnique | src/lib.rs:153-156 | sorted static children have pairwise distinct names |
| Trie.StaticChildIff | src/lib.rs:93-101 | in a well-formed tree, the static child found for a segment is `c` exactly when `Edge(segment, c)` is among the children |
| Trie.SortedInsertElements | src/lib.rs:154-155 | `push` then `sort_by` holds the old children plus the new one (as a multiset) |
| Trie.SortedInsertSorted | src/lib.rs:154-155 | inserting a name not present keeps the children sorted |
| Trie.SortedUnique | src/lib.rs:155 | two sorted arrangements of the same children are equal, so the sort's result is the sorted insertion whichever way it sorts |
| Trie.ParamName | src/lib.rs:114-120 | `Some` exactly for a `:`/`*` segment, and the name is what follows the marker |
| PathRouter.Router.constructor | src/lib.rs:52-70 | a new router is one static root with an empty name, no value and no children, and satisfies the invariant |
| PathRouter.Router.AddSegment | src/lib.rs:122-159 | `RouteConflict` exactly when a `:` segment meets an existing catch-all child or a `*` segment meets an existing param child, and then nothing changes; an existing child of the segment's kind (static: the one with that name) is returned with nothing changed; otherwise exactly one new node of that kind is created, filed in the param/catch-all slot or in sorted place among the static children, and returned; the invariant is kept |
| Trie.AttachValid | src/lib.rs:126-158 | creating a missing child keeps the tree well formed (sorted unique static children, at most one wildcard kind, depths), only adds to it, keeps all values, and the step for the segment now leads to the new node |
| Trie.StepTaken | src/lib.rs:122-159 | whichever way `add_segment` got its child, the step for the segment from the node leads to it, one wildcard level deeper exactly for a wildcard segment, and the tree has only grown |
| Trie.ChildKind | src/lib.rs:248-256 | the node `add_segment` returns has kind Param, CatchAll or Static according to the segment, so the `param_name(..).unwrap()` at line 253 never fails |
| Trie.FollowClash | src/lib.rs:256-258 | a conflict at some segment is where following the whole consumed pattern ends (`Clash`) |
| Trie.DescentStep | src/lib.rs:243-261 | one more loop iteration of `add`/`with_base` extends the walk by one segment, adds the wildcard's name exactly for a wildcard segment, and keeps the tree grown-only with values untouched |
| Trie.GrownFollow | src/lib.rs:240-261 | the tree built by applying `add_segment` segment by segment only grows the old one, keeps every value and recorded name, and the pattern followed through it ends where the fold ended (a node or a clash, never a missing node) |
| Trie.GrownExisting | src/lib.rs:122-159 | when every node of the pattern exists already, the walk creates nothing and ends at the node the pattern leads to |
| PathRouter.Router.Descend | src/lib.rs:240-261 | the shared loop of `add` and `with_base` ends where following the consumed segments leads, having collected exactly their wildcard names (one per wildcard level), or reports the `RouteConflict` where that walk clashes; the new tree and depths are exactly `Trie.Grown`'s for those segments, and it succeeds exactly where that fold ends at a node |
| PathRouter.Router.SetData | src/lib.rs:161-163 | the node now holds the value, and nothing else changes |
| Trie.RelabelValid | src/lib.rs:264-266 | recording as many distinct names as the node's wildcard depth keeps the tree well formed |
| Trie.StoreKeeps | src/lib.rs:264-270 | storing names and value at the reached node changes no other node's value or names and keeps every walk |
| PathRouter.Router.Add | src/lib.rs:235-275 | `InvalidFormat` exactly for an inadmissible pattern, which changes nothing; otherwise the pattern leads to a node (creating nodes as needed) or clashes, a clash being a `RouteConflict` that stores nothing; at the node reached, success exactly when the node recorded no names and the pattern has some, or the names equal those recorded; success stores the value and the names there and touches no other value; a name mismatch is a `RouteConflict` that stores nothing; the new tree is exactly `Trie.Grown`'s for the pattern, plus the value and names at the node on success |
| Trie.FollowExtends | src/lib.rs:235-275 | a pattern that led to a node still leads there after later insertions |
| Trie.FollowDepth | src/lib.rs:251-253 | following a pattern descends one wildcard level per wildcard segment |
| Trie.LiteralsNeverClash | src/lib.rs:289-290 | a literal-only prefix never clashes, so `rs.unwrap()` in `with_base` never fails |
| Validate.LiteralsHaveNoNames | src/lib.rs:284-291 | a literal-only prefix has no wildcard names, so the node `with_base` returns is at depth 0 |
| PathRouter.Router.WithBase | src/lib.rs:277-294 | succeeds exactly for an admissible mount prefix and then returns the node the prefix leads to, created as needed, with every value kept; an inadmissible prefix is `InvalidFormat` and changes nothing; on success the new tree is exactly `Trie.Grown`'s for the prefix, which ends at the returned node |
| Scenarios.AddTwice | src/lib.rs:264-274 | adding the same pattern twice: both or neither are `InvalidFormat`, and after a first success the second returns the same node, which now holds the second value |
| Scenarios.AddRenamed | src/lib.rs:489-493 | after `/p/:a` succeeded, `/p/:b` (same shape, other names) is a `RouteConflict` and the first value stays |
| PathRouter.Router.Recognize | src/lib.rs:296-362 | returns exactly `RecognizeSpec`: `""` read as `/`, `None` for a path without a leading `/`, the greedy walk (static, then param capturing the segment, then catch-all taking the rest verbatim; empty segments skipped outside catch-all mode; a miss is `None`), `None` at a node without value, else the value with the recorded names zipped to the captured values |
| Recognition.EmptyPathIsRoot | src/lib.rs:297-304 | the empty path is the root path `/`: the walk ends at the subtree's root with nothing captured |
| Recognition.WalkDepth | src/lib.rs:319-349 | the walk captures one value per wildcard level it descends |
| Recognition.RecognizeBindsEveryName | src/lib.rs:348-357 | from a mount point, a match binds exactly the names the matched node records, each to the value captured at its position |
| Recognition.ZipMapBinds | src/lib.rs:353-355 | zipping distinct names with as many values binds exactly those names, each to its own value |
| Recognition.TrailingSlash | src/lib.rs:314-323 | `recognize(path + "/")` is `recognize(path)`, except that a catch-all value gains the trailing `/` |
| Recognition.TrailingSlashSameMatch | src/lib.rs:319-321 | without a catch-all in play, `/users/` is recognized exactly as `/users` |
| Recognition.CatchAllValue | src/lib.rs:315-318 | a catch-all value is the join, with `/`, of the segments from some non-empty one to the end |
| Recognition.CatchAllIsPathSuffix | src/lib.rs:338-350 | a catch-all value is non-empty, does not start with `/`, and is exactly what follows some `/` of the path |
| Recognition.FilledPathFollowsPattern | src/lib.rs:314-346 | on a path filling a pattern with no captured value shadowed by a static sibling, the greedy walk ends where the pattern leads, with the filling's values in order |
| Recognition.RegisteredRouteRecognized | src/lib.rs:296-362 | after a pattern is registered at a node, every unshadowed path filling it is recognized with that node's value and every wildcard name bound to its value; without a catch-all a trailing slash changes nothing |
| Recognition.LiteralRouteRecognized | src/lib.rs:296-362 | from a mount point, a registered literal-only route, with or without one trailing slash, is recognized by its own text with no parameters |
| Vectors.UsersTreeValid | src/lib.rs:235-275 | a hand-built five-node tree holding `/users/new` (value 1) and `/:id/edit` (value 2), in the shape two `add` calls give, satisfies the invariant |
| Vectors.GreedyWalkMisses | src/lib.rs:323-346 | in that tree `/users/edit` fills `/:id/edit`, which leads to a node holding a value, yet `recognize` returns `None` |
| Vectors.ParamRouteFound | src/lib.rs:329-333 | in that tree `/bob/edit` is recognized with value 2 and `id` bound to `bob` |

## Left out

- `impl fmt::Display` and `impl error::Error` for `Error` (src/lib.rs:12-21): these only format.
- Rust ownership:
  - `Box` and borrows are not modelled; the arena of indices replaces them.
  - `add` returns `&mut T`; the model returns the index of the node holding the value.
  - `with_base` returns `&mut Router<T>`; the model returns the subtree's index.
  - `recognize` returns `&T`; the model returns the value.
- The `panic!("impossible")` arms (src/lib.rs:134, 147, 273) and the `unwrap`s: the model shows they are never reached, and has no behaviour for them.
- The payload `T` is left generic. `BTreeMap<String, String>` in `Match` is a `map<string, string>`, and `BTreeSet` in `is_valid_route` is a `set<string>`.
- `benches/benchmarks.rs` and `examples/user.rs`: timing against other crates, and HTTP server plumbing with threads. They are not part of this model.
- The crate has no sub-route and no route-listing operation, so none is modelled.
- PathRouter.Router.Add: a request starting from a handle that is not the root or a mount point (`at in mounts`) is not covered. The depth invariant that makes the recorded names line up is stated for those starting points.
- PathRouter.Router.Recognize: Rust's UTF-8 byte strings are sequences of characters here.
- The tests at src/lib.rs:369-536 are not restated case by case. Of them, the re-add and renaming cases (lines 489-493) are modelled as `Scenarios.AddTwice` and `Scenarios.AddRenamed`. The greedy-walk tree in `Vectors` is this model's own example, not one of those tests.
- Vectors.UsersTreeValid: the example tree is written out by hand. No lemma shows that `Trie.Grown` for the two patterns yields this tree.
