/**
 * What `recognize` computes, as functions of the tree: a single greedy
 * pass over the path's segments, static child first, then the param
 * child, then the catch-all child, with no backtracking.
 */
module Recognition {
  import opened Wrappers
  import opened Segments
  import opened Validate
  import opened Trie

  /** A successful recognition: the stored value and the captured parameters by name. */
  datatype Match<T> = Match(data: T, params: map<string, string>)

  /** Where the walk ended, the values captured on the way (in order), and whether it ended in catch-all mode. */
  datatype Walked = Walked(node: nat, values: seq<string>, catching: bool)

  /** Puts `vs` in front of the values of a walk, if there is one. */
  function Prefix(vs: seq<string>, w: Option<Walked>): Option<Walked> {
    match w
    case None => None
    case Some(x) => Some(x.(values := vs + x.values))
  }

  lemma PrefixNothing(w: Option<Walked>)
    ensures Prefix([], w) == w
  {
    if w.Some? {
      assert [] + w.value.values == w.value.values;
    }
  }

  lemma PrefixPrefix(a: seq<string>, b: seq<string>, w: Option<Walked>)
    ensures Prefix(a, Prefix(b, w)) == Prefix(a + b, w)
  {
    if w.Some? {
      assert a + (b + w.value.values) == (a + b) + w.value.values;
    }
  }

  /** The greedy walk from `cur` over path segments; `None` is a miss. */
  ghost function Walk<T>(nodes: seq<Node<T>>, cur: nat, segs: seq<string>): (r: Option<Walked>)
    requires Shaped(nodes) && cur < |nodes|
    ensures r.Some? ==> r.value.node < |nodes|
    ensures r.Some? && r.value.catching ==> |r.value.values| >= 1
    decreases |segs|
  {
    if segs == [] then Some(Walked(cur, [], false))
    else if segs[0] == "" then Walk(nodes, cur, segs[1..])
    else match StaticChild(nodes, cur, segs[0])
      case Some(c) => Walk(nodes, c, segs[1..])
      case None =>
        assert NodeShaped(nodes, cur);
        if nodes[cur].paramChild.Some? then
          Prefix([segs[0]], Walk(nodes, nodes[cur].paramChild.value, segs[1..]))
        else if nodes[cur].catchAllChild.Some? then
          Some(Walked(nodes[cur].catchAllChild.value, [Join(segs)], true))
        else None
  }

  /** The walk over `segs[i..]`, one segment unfolded. */
  lemma WalkAt<T>(nodes: seq<Node<T>>, cur: nat, segs: seq<string>, i: nat)
    requires Shaped(nodes) && cur < |nodes| && i < |segs|
    ensures NodeShaped(nodes, cur)
    ensures Walk(nodes, cur, segs[i..]) ==
              if segs[i] == "" then Walk(nodes, cur, segs[i + 1..])
              else match StaticChild(nodes, cur, segs[i])
                case Some(c) => Walk(nodes, c, segs[i + 1..])
                case None =>
                  if nodes[cur].paramChild.Some? then
                    Prefix([segs[i]], Walk(nodes, nodes[cur].paramChild.value, segs[i + 1..]))
                  else if nodes[cur].catchAllChild.Some? then
                    Some(Walked(nodes[cur].catchAllChild.value, [Join(segs[i..])], true))
                  else None
  {
    assert segs[i..][0] == segs[i] && segs[i..][1..] == segs[i + 1..];
  }

  /** `recognize` reads the empty path as `/`. */
  function Normalize(path: string): (p: string)
    ensures |p| >= 1
  {
    if path == "" then "/" else path
  }

  /** The walk `recognize` makes for `path`; `None` if the path does not start with `/` or misses. */
  ghost function Capture<T>(nodes: seq<Node<T>>, at: nat, path: string): (r: Option<Walked>)
    requires Shaped(nodes) && at < |nodes|
    ensures r.Some? ==> r.value.node < |nodes|
  {
    var p := Normalize(path);
    if p[0] != '/' then None else Walk(nodes, at, Split(p[1..]))
  }

  /** The map built by inserting `ks[i] |-> vs[i]` for i = 0, 1, ... in turn. */
  function ZipMap(ks: seq<string>, vs: seq<string>): (r: map<string, string>)
    requires |ks| == |vs|
    decreases |ks|
  {
    if ks == [] then map[]
    else ZipMap(ks[..|ks| - 1], vs[..|vs| - 1])[ks[|ks| - 1] := vs[|vs| - 1]]
  }

  /** `keys.iter().zip(values)` into a map: pairs up to the shorter of the two. */
  function Zip(ks: seq<string>, vs: seq<string>): (r: map<string, string>) {
    var n := if |ks| <= |vs| then |ks| else |vs|;
    ZipMap(ks[..n], vs[..n])
  }

  /** `recognize(path)` on the tree `nodes` rooted at `at`. */
  ghost function RecognizeSpec<T>(nodes: seq<Node<T>>, at: nat, path: string): (m: Option<Match<T>>)
    requires Shaped(nodes) && at < |nodes|
  {
    match Capture(nodes, at, path)
    case None => None
    case Some(w) =>
      var n := nodes[w.node];
      if n.data.None? then None else Some(Match(n.data.value, Zip(n.params, w.values)))
  }

  /** One more pair inserted into the map. */
  lemma ZipMapStep(ks: seq<string>, vs: seq<string>, j: nat)
    requires j < |ks| && j < |vs|
    ensures ZipMap(ks[..j + 1], vs[..j + 1]) == ZipMap(ks[..j], vs[..j])[ks[j] := vs[j]]
  {
    assert ks[..j + 1][..j] == ks[..j] && vs[..j + 1][..j] == vs[..j];
  }

  // ---------------------------------------------------------------------
  // Pairing names with values
  // ---------------------------------------------------------------------

  /** Zipping distinct names binds exactly those names, each to its own value. */
  lemma ZipMapBinds(ks: seq<string>, vs: seq<string>)
    requires |ks| == |vs| && Distinct(ks)
    ensures ZipMap(ks, vs).Keys == set k | k in ks
    ensures forall i | 0 <= i < |ks| :: ZipMap(ks, vs)[ks[i]] == vs[i]
  {
    ZipMapKeys(ks, vs);
    ZipMapValues(ks, vs);
  }

  lemma {:induction false} ZipMapKeys(ks: seq<string>, vs: seq<string>)
    requires |ks| == |vs|
    ensures ZipMap(ks, vs).Keys == set k | k in ks
    decreases |ks|
  {
    if ks != [] {
      var n := |ks| - 1;
      ZipMapKeys(ks[..n], vs[..n]);
      assert ks == ks[..n] + [ks[n]];
    }
  }

  lemma {:induction false} ZipMapValues(ks: seq<string>, vs: seq<string>)
    requires |ks| == |vs| && Distinct(ks)
    ensures forall i | 0 <= i < |ks| :: ks[i] in ZipMap(ks, vs) && ZipMap(ks, vs)[ks[i]] == vs[i]
    decreases |ks|
  {
    if ks != [] {
      var n := |ks| - 1;
      ZipMapValues(ks[..n], vs[..n]);
      forall i | 0 <= i < n ensures ks[i] != ks[n] && ks[..n][i] == ks[i] && vs[..n][i] == vs[i] {
      }
    }
  }

  /** A walk captures one value per wildcard level it descends. */
  lemma {:induction false} WalkDepth<T>(nodes: seq<Node<T>>, depth: seq<nat>, cur: nat, segs: seq<string>)
    requires ArenaValid(nodes, depth) && cur < |nodes|
    requires Walk(nodes, cur, segs).Some?
    ensures depth[Walk(nodes, cur, segs).value.node] == depth[cur] + |Walk(nodes, cur, segs).value.values|
    decreases |segs|
  {
    if segs != [] {
      assert NodeShaped(nodes, cur) && NodeDepthOk(nodes, depth, cur);
      if segs[0] == "" {
        WalkDepth(nodes, depth, cur, segs[1..]);
      } else {
        match StaticChild(nodes, cur, segs[0])
        case Some(c) =>
          assert Edge(segs[0], c) in nodes[cur].statics;
          WalkDepth(nodes, depth, c, segs[1..]);
        case None =>
          if nodes[cur].paramChild.Some? {
            WalkDepth(nodes, depth, nodes[cur].paramChild.value, segs[1..]);
          }
      }
    }
  }

  /**
   * From a mount point (wildcard depth 0), a match binds every name the
   * matched node records, each to the value captured at its position.
   */
  lemma RecognizeBindsEveryName<T>(nodes: seq<Node<T>>, depth: seq<nat>, at: nat, path: string)
    requires ArenaValid(nodes, depth) && at < |nodes| && depth[at] == 0
    requires RecognizeSpec(nodes, at, path).Some?
    ensures var w := Capture(nodes, at, path).value;
            var m := RecognizeSpec(nodes, at, path).value;
            && nodes[w.node].data == Some(m.data)
            && |nodes[w.node].params| == |w.values|
            && m.params.Keys == set k | k in nodes[w.node].params
            && forall i | 0 <= i < |w.values| ::
                 nodes[w.node].params[i] in m.params && m.params[nodes[w.node].params[i]] == w.values[i]
  {
    var w := Capture(nodes, at, path).value;
    CaptureDepth(nodes, depth, at, path);
    var ks := nodes[w.node].params;
    ZipFull(ks, w.values);
    ZipMapBinds(ks, w.values);
  }

  /** From a mount point, the node a match ends at records one distinct name per captured value. */
  lemma CaptureDepth<T>(nodes: seq<Node<T>>, depth: seq<nat>, at: nat, path: string)
    requires ArenaValid(nodes, depth) && at < |nodes| && depth[at] == 0
    requires RecognizeSpec(nodes, at, path).Some?
    ensures var w := Capture(nodes, at, path).value;
            |nodes[w.node].params| == |w.values| && Distinct(nodes[w.node].params)
  {
    var w := Capture(nodes, at, path).value;
    var p := Normalize(path);
    WalkDepth(nodes, depth, at, Split(p[1..]));
    assert NodeDepthOk(nodes, depth, w.node);
  }

  // ---------------------------------------------------------------------
  // Trailing slashes and the catch-all
  // ---------------------------------------------------------------------

  /** The effect of one more empty segment: nothing, unless the walk is in catch-all mode. */
  function AddSlash(w: Option<Walked>): Option<Walked> {
    match w
    case None => None
    case Some(x) =>
      if x.catching && |x.values| >= 1 then
        Some(x.(values := x.values[..|x.values| - 1] + [x.values[|x.values| - 1] + "/"]))
      else w
  }

  lemma {:induction false} WalkTrailingEmpty<T>(nodes: seq<Node<T>>, cur: nat, segs: seq<string>)
    requires Shaped(nodes) && cur < |nodes|
    ensures Walk(nodes, cur, segs + [""]) == AddSlash(Walk(nodes, cur, segs))
    decreases |segs|
  {
    var t := segs + [""];
    if segs == [] {
      assert t[1..] == [];
    } else {
      assert t[0] == segs[0] && t[1..] == segs[1..] + [""];
      if segs[0] == "" {
        WalkTrailingEmpty(nodes, cur, segs[1..]);
      } else {
        match StaticChild(nodes, cur, segs[0])
        case Some(c) =>
          WalkTrailingEmpty(nodes, c, segs[1..]);
        case None =>
          assert NodeShaped(nodes, cur);
          if nodes[cur].paramChild.Some? {
            var p := nodes[cur].paramChild.value;
            WalkTrailingEmpty(nodes, p, segs[1..]);
            assert Walk(nodes, cur, t) == Prefix([segs[0]], Walk(nodes, p, t[1..]));
            match Walk(nodes, p, segs[1..])
            case None =>
            case Some(x) =>
              if x.catching {
                var n := |x.values|;
                var vs := [segs[0]] + x.values;
                assert vs[..n] == [segs[0]] + x.values[..n - 1];
                assert vs[n] == x.values[n - 1];
                assert vs[..n] + [vs[n] + "/"] == [segs[0]] + (x.values[..n - 1] + [x.values[n - 1] + "/"]);
              }
          } else if nodes[cur].catchAllChild.Some? {
            JoinSnoc(segs, "");
            assert Join(t) == Join(segs) + "/";
            var x := Walk(nodes, cur, segs).value;
            assert x.values == [Join(segs)];
            assert x.values[..0] + [x.values[0] + "/"] == [Join(t)];
          }
      }
    }
  }

  /** `recognize(path + "/")` is `recognize(path)`, except that a catch-all value gains the slash. */
  lemma TrailingSlash<T>(nodes: seq<Node<T>>, at: nat, path: string)
    requires Shaped(nodes) && at < |nodes|
    requires |path| >= 1 && path[0] == '/'
    ensures Capture(nodes, at, path + "/") == AddSlash(Capture(nodes, at, path))
  {
    assert (path + "/")[1..] == path[1..] + "/" + "";
    SplitAtSlash(path[1..], "");
    WalkTrailingEmpty(nodes, at, Split(path[1..]));
  }

  /** So `/users/` matches exactly as `/users` does whenever no catch-all is involved. */
  lemma TrailingSlashSameMatch<T>(nodes: seq<Node<T>>, at: nat, path: string)
    requires Shaped(nodes) && at < |nodes|
    requires |path| >= 1 && path[0] == '/'
    requires Capture(nodes, at, path).None? || !Capture(nodes, at, path).value.catching
    ensures RecognizeSpec(nodes, at, path + "/") == RecognizeSpec(nodes, at, path)
  {
    TrailingSlash(nodes, at, path);
  }

  /** A tail of `segs[1..]` starting at a non-empty segment is a tail of `segs` starting at one. */
  lemma TailWitness(segs: seq<string>, v: string)
    requires |segs| >= 1
    requires exists k | 0 <= k < |segs[1..]| :: segs[1..][k] != "" && v == Join(segs[1..][k..])
    ensures exists k | 0 <= k < |segs| :: segs[k] != "" && v == Join(segs[k..])
  {
    var k :| 0 <= k < |segs[1..]| && segs[1..][k] != "" && v == Join(segs[1..][k..]);
    assert segs[1..][k..] == segs[k + 1..];
  }

  lemma {:induction false} CatchAllValue<T>(nodes: seq<Node<T>>, cur: nat, segs: seq<string>)
    requires Shaped(nodes) && cur < |nodes|
    requires Walk(nodes, cur, segs).Some? && Walk(nodes, cur, segs).value.catching
    ensures var vs := Walk(nodes, cur, segs).value.values;
            exists k | 0 <= k < |segs| :: segs[k] != "" && vs[|vs| - 1] == Join(segs[k..])
    decreases |segs|
  {
    var vs := Walk(nodes, cur, segs).value.values;
    if segs[0] == "" {
      CatchAllValue(nodes, cur, segs[1..]);
      TailWitness(segs, vs[|vs| - 1]);
    } else {
      match StaticChild(nodes, cur, segs[0])
      case Some(c) =>
        CatchAllValue(nodes, c, segs[1..]);
        TailWitness(segs, vs[|vs| - 1]);
      case None =>
        assert NodeShaped(nodes, cur);
        if nodes[cur].paramChild.Some? {
          var p := nodes[cur].paramChild.value;
          CatchAllValue(nodes, p, segs[1..]);
          var ws := Walk(nodes, p, segs[1..]).value.values;
          assert vs == [segs[0]] + ws;
          TailWitness(segs, ws[|ws| - 1]);
        } else {
          assert segs[0..] == segs;
        }
    }
  }

  /** A joined list begins with its first piece. */
  lemma JoinHead(ps: seq<string>)
    requires |ps| >= 1
    ensures |Join(ps)| >= |ps[0]| && Join(ps)[..|ps[0]|] == ps[0]
  {
  }

  /** The value a catch-all captures from `body` is `body` itself or what follows one of its slashes. */
  lemma CatchAllInBody(body: string, k: nat, v: string)
    requires k < |Split(body)| && v == Join(Split(body)[k..])
    ensures k == 0 ==> v == body
    ensures k > 0 ==> exists j | 0 <= j < |body| :: body[j] == '/' && body[j + 1..] == v
  {
    var segs := Split(body);
    JoinSplit(body);
    if k == 0 {
      assert segs[0..] == segs;
    } else {
      JoinSplitAt(segs, k);
      var pre := Join(segs[..k]);
      assert body == pre + "/" + v;
      assert body[|pre|] == '/' && body[|pre| + 1..] == v;
    }
  }

  lemma EmptyPathIsRoot<T>(nodes: seq<Node<T>>, at: nat)
    requires Shaped(nodes) && at < |nodes|
    ensures Capture(nodes, at, "") == Some(Walked(at, [], false))
  {
    assert Normalize("")[1..] == "";
    assert Split("") == [""];
    assert [""][1..] == [];
  }

  /** The catch-all value taken from the body of a path is a non-empty tail of the body after a slash, or the body. */
  lemma CatchAllInWalk<T>(nodes: seq<Node<T>>, at: nat, body: string)
    requires Shaped(nodes) && at < |nodes|
    requires Walk(nodes, at, Split(body)).Some? && Walk(nodes, at, Split(body)).value.catching
    ensures var vs := Walk(nodes, at, Split(body)).value.values;
            var v := vs[|vs| - 1];
            && v != "" && v[0] != '/'
            && (v == body || exists j | 0 <= j < |body| :: body[j] == '/' && body[j + 1..] == v)
  {
    CatchAllValue(nodes, at, Split(body));
    var vs := Walk(nodes, at, Split(body)).value.values;
    CatchValueShape(body, vs[|vs| - 1]);
  }

  /** A join of the pieces of `body` from a non-empty one on is a non-empty tail of `body` not starting with a slash. */
  lemma CatchValueShape(body: string, v: string)
    requires exists k | 0 <= k < |Split(body)| :: Split(body)[k] != "" && v == Join(Split(body)[k..])
    ensures v != "" && v[0] != '/'
    ensures v == body || exists j | 0 <= j < |body| :: body[j] == '/' && body[j + 1..] == v
  {
    var segs := Split(body);
    var k :| 0 <= k < |segs| && segs[k] != "" && v == Join(segs[k..]);
    SplitPiecesHaveNoSlash(body);
    JoinHead(segs[k..]);
    assert NoSlash(segs[k]) && v[0] == segs[k][0];
    CatchAllInBody(body, k, v);
  }

  /**
   * A catch-all captures the rest of the path verbatim: the captured value
   * is what follows some slash of the path, and it begins with a non-empty
   * segment.
   */
  lemma CatchAllIsPathSuffix<T>(nodes: seq<Node<T>>, at: nat, path: string)
    requires Shaped(nodes) && at < |nodes|
    requires Capture(nodes, at, path).Some? && Capture(nodes, at, path).value.catching
    ensures var vs := Capture(nodes, at, path).value.values;
            var v := vs[|vs| - 1];
            && v != "" && v[0] != '/'
            && exists k | 1 <= k <= |path| :: path[k - 1] == '/' && path[k..] == v
  {
    CaptureOfBody(nodes, at, path);
    CatchAllInWalk(nodes, at, path[1..]);
    var vs := Capture(nodes, at, path).value.values;
    BodySuffix(path, vs[|vs| - 1]);
  }

  /** A catching capture is the walk over the body of a path that starts with a slash. */
  lemma CaptureOfBody<T>(nodes: seq<Node<T>>, at: nat, path: string)
    requires Shaped(nodes) && at < |nodes|
    requires Capture(nodes, at, path).Some? && Capture(nodes, at, path).value.catching
    ensures |path| >= 1 && path[0] == '/' && Capture(nodes, at, path) == Walk(nodes, at, Split(path[1..]))
  {
    EmptyPathIsRoot(nodes, at);
  }

  /** The body itself, or what follows a slash in the body, is what follows a slash in the path. */
  lemma BodySuffix(path: string, v: string)
    requires |path| >= 1 && path[0] == '/'
    requires var body := path[1..]; v == body || exists j | 0 <= j < |body| :: body[j] == '/' && body[j + 1..] == v
    ensures exists k | 1 <= k <= |path| :: path[k - 1] == '/' && path[k..] == v
  {
    var body := path[1..];
    if v == body {
      assert path[0] == '/' && path[1..] == v;
    } else {
      var j :| 0 <= j < |body| && body[j] == '/' && body[j + 1..] == v;
      assert path[j + 1] == '/' && path[j + 2..] == v;
    }
  }

  // ---------------------------------------------------------------------
  // Registered patterns are recognized
  // ---------------------------------------------------------------------

  /**
   * The path segments `segs` fill the pattern `ps`: a literal segment
   * verbatim, a `:` segment with one non-empty segment, and a final `*`
   * segment with a non-empty segment followed by any others.
   */
  predicate Fills(ps: seq<string>, segs: seq<string>)
    decreases |ps|
  {
    if ps == [] then segs == []
    else if IsCatchAllSeg(ps[0]) then
      |ps| == 1 && |segs| >= 1 && segs[0] != "" && forall k | 0 <= k < |segs| :: NoSlash(segs[k])
    else
      && |segs| >= 1 && segs[0] != "" && NoSlash(segs[0])
      && (IsParamSeg(ps[0]) || segs[0] == ps[0])
      && Fills(ps[1..], segs[1..])
  }

  /** The values a filling gives the pattern's wildcards, in order. */
  function Captures(ps: seq<string>, segs: seq<string>): seq<string>
    requires Fills(ps, segs)
    decreases |ps|
  {
    if ps == [] then []
    else if IsCatchAllSeg(ps[0]) then [Join(segs)]
    else if IsParamSeg(ps[0]) then [segs[0]] + Captures(ps[1..], segs[1..])
    else Captures(ps[1..], segs[1..])
  }

  predicate EndsInCatchAll(ps: seq<string>) {
    ps != [] && IsCatchAllSeg(ps[|ps| - 1])
  }

  /**
   * No value given to a wildcard is also the name of a static sibling on
   * the pattern's own branch (the static child would win, and the walk
   * never comes back).
   */
  ghost predicate Unshadowed<T>(nodes: seq<Node<T>>, cur: nat, ps: seq<string>, segs: seq<string>)
    requires Shaped(nodes) && cur < |nodes| && Fills(ps, segs)
    decreases |ps|
  {
    if ps == [] then true
    else
      && (IsWildcard(ps[0]) ==> StaticChild(nodes, cur, segs[0]).None?)
      && (IsCatchAllSeg(ps[0]) ||
          match Child(nodes, cur, ps[0])
          case None => true
          case Some(c) => Unshadowed(nodes, c, ps[1..], segs[1..]))
  }

  lemma {:induction false} CapturesPerName(ps: seq<string>, segs: seq<string>)
    requires Fills(ps, segs)
    ensures |Captures(ps, segs)| == |WildcardNames(ps)|
    decreases |ps|
  {
    if ps != [] && !IsCatchAllSeg(ps[0]) {
      CapturesPerName(ps[1..], segs[1..]);
    }
  }

  lemma {:induction false} FillsNoSlash(ps: seq<string>, segs: seq<string>)
    requires Fills(ps, segs)
    ensures forall k | 0 <= k < |segs| :: NoSlash(segs[k])
    decreases |ps|
  {
    if ps != [] && !IsCatchAllSeg(ps[0]) {
      FillsNoSlash(ps[1..], segs[1..]);
      assert forall k | 1 <= k < |segs| :: segs[k] == segs[1..][k - 1];
    }
  }

  /** The greedy walk over a filling of a pattern ends where the pattern leads, with the filling's values. */
  lemma {:induction false} FilledPathFollowsPattern<T>(nodes: seq<Node<T>>, cur: nat, ps: seq<string>, segs: seq<string>)
    requires Shaped(nodes) && cur < |nodes|
    requires Fills(ps, segs) && Unshadowed(nodes, cur, ps, segs)
    requires Follow(nodes, cur, ps).Reached?
    ensures Walk(nodes, cur, segs) == Some(Walked(Follow(nodes, cur, ps).node, Captures(ps, segs), EndsInCatchAll(ps)))
    decreases |ps|
  {
    if ps != [] {
      var seg := ps[0];
      assert NodeShaped(nodes, cur);
      var c := Child(nodes, cur, seg).value;
      if IsCatchAllSeg(seg) {
        assert ps[1..] == [];
      } else {
        FilledPathFollowsPattern(nodes, c, ps[1..], segs[1..]);
        assert ps[1..] != [] ==> ps[|ps| - 1] == ps[1..][|ps[1..]| - 1];
      }
    }
  }

  /** `recognize` on `/` followed by slash-free segments walks exactly those segments. */
  lemma CaptureOfJoin<T>(nodes: seq<Node<T>>, at: nat, segs: seq<string>)
    requires Shaped(nodes) && at < |nodes|
    requires forall k | 0 <= k < |segs| :: NoSlash(segs[k])
    ensures Capture(nodes, at, "/" + Join(segs)) == Walk(nodes, at, segs)
  {
    assert ("/" + Join(segs))[1..] == Join(segs);
    if segs == [] {
      assert Split("") == [""];
      assert [""][1..] == [];
    } else {
      SplitJoin(segs);
    }
  }

  /** The walk over a route's filling, seen from `recognize`'s side. */
  lemma RegisteredCapture<T>(nodes: seq<Node<T>>, at: nat, ps: seq<string>, segs: seq<string>, n: nat)
    requires Shaped(nodes) && at < |nodes|
    requires Follow(nodes, at, ps) == Reached(n)
    requires Fills(ps, segs) && Unshadowed(nodes, at, ps, segs)
    ensures Capture(nodes, at, "/" + Join(segs)) == Some(Walked(n, Captures(ps, segs), EndsInCatchAll(ps)))
  {
    FilledPathFollowsPattern(nodes, at, ps, segs);
    FillsNoSlash(ps, segs);
    CaptureOfJoin(nodes, at, segs);
  }

  /** Zipping names with as many values is the full pairing. */
  lemma ZipFull(ks: seq<string>, vs: seq<string>)
    requires |ks| == |vs|
    ensures Zip(ks, vs) == ZipMap(ks, vs)
  {
    assert ks[..|ks|] == ks && vs[..|vs|] == vs;
  }

  /** The match for a route's filling: the route's value, each wildcard name bound to its value. */
  lemma RegisteredMatch<T>(nodes: seq<Node<T>>, at: nat, route: string, segs: seq<string>, n: nat)
    requires Shaped(nodes) && at < |nodes|
    requires ValidRoute(route)
    requires Follow(nodes, at, Segs(route)) == Reached(n)
    requires nodes[n].data.Some? && nodes[n].params == WildcardNames(Segs(route))
    requires Fills(Segs(route), segs) && Unshadowed(nodes, at, Segs(route), segs)
    ensures var names := WildcardNames(Segs(route));
            var values := Captures(Segs(route), segs);
            && |names| == |values|
            && RecognizeSpec(nodes, at, "/" + Join(segs)) == Some(Match(nodes[n].data.value, ZipMap(names, values)))
  {
    var ps := Segs(route);
    RegisteredCapture(nodes, at, ps, segs, n);
    CapturesPerName(ps, segs);
    ZipFull(WildcardNames(ps), Captures(ps, segs));
  }

  /**
   * After a route is registered at node `n` (what a successful `add`
   * leaves behind), `recognize` on any path filling the route, with no
   * wildcard value shadowed by a static sibling, returns `n`'s value and
   * binds every wildcard name to its value; without a catch-all, one
   * trailing slash changes nothing.
   */
  lemma RegisteredRouteRecognized<T>(nodes: seq<Node<T>>, at: nat, route: string, segs: seq<string>, n: nat)
    requires Shaped(nodes) && at < |nodes|
    requires ValidRoute(route)
    requires Follow(nodes, at, Segs(route)) == Reached(n)
    requires nodes[n].data.Some? && nodes[n].params == WildcardNames(Segs(route))
    requires Fills(Segs(route), segs) && Unshadowed(nodes, at, Segs(route), segs)
    ensures var names := WildcardNames(Segs(route));
            var values := Captures(Segs(route), segs);
            && |names| == |values|
            && RecognizeSpec(nodes, at, "/" + Join(segs)) == Some(Match(nodes[n].data.value, ZipMap(names, values)))
            && ZipMap(names, values).Keys == set k | k in names
            && (forall i | 0 <= i < |names| :: names[i] in ZipMap(names, values) && ZipMap(names, values)[names[i]] == values[i])
    ensures !EndsInCatchAll(Segs(route)) ==>
              RecognizeSpec(nodes, at, "/" + Join(segs) + "/") == RecognizeSpec(nodes, at, "/" + Join(segs))
  {
    var ps := Segs(route);
    RegisteredMatch(nodes, at, route, segs, n);
    RegisteredBinds(route, segs);
    if !EndsInCatchAll(ps) {
      RegisteredCapture(nodes, at, ps, segs, n);
      TrailingSlashSameMatch(nodes, at, "/" + Join(segs));
    }
  }

  /** The names of a valid route are distinct, so zipping binds each to its own value. */
  lemma RegisteredBinds(route: string, segs: seq<string>)
    requires ValidRoute(route) && Fills(Segs(route), segs)
    ensures var names := WildcardNames(Segs(route));
            var values := Captures(Segs(route), segs);
            && |names| == |values|
            && ZipMap(names, values).Keys == set k | k in names
            && (forall i | 0 <= i < |names| :: names[i] in ZipMap(names, values) && ZipMap(names, values)[names[i]] == values[i])
  {
    var ps := Segs(route);
    CapturesPerName(ps, segs);
    ValidRouteSegs(route);
    ValidPatternNamesDistinct(ps);
    ZipMapBinds(WildcardNames(ps), Captures(ps, segs));
  }

  lemma {:induction false} LiteralFills<T>(nodes: seq<Node<T>>, cur: nat, ps: seq<string>)
    requires Shaped(nodes) && cur < |nodes|
    requires forall k | 0 <= k < |ps| :: ps[k] != "" && NoSlash(ps[k]) && !IsWildcard(ps[k])
    ensures Fills(ps, ps) && Unshadowed(nodes, cur, ps, ps) && WildcardNames(ps) == []
    decreases |ps|
  {
    if ps != [] {
      assert forall k | 0 <= k < |ps[1..]| :: ps[1..][k] == ps[k + 1];
      var next := if Child(nodes, cur, ps[0]).Some? then Child(nodes, cur, ps[0]).value else cur;
      LiteralFills(nodes, next, ps[1..]);
    }
  }
  /** A route with only literal segments is recognized by its own text, with no parameters, from a mount point. */
  lemma LiteralRouteRecognized<T>(nodes: seq<Node<T>>, depth: seq<nat>, at: nat, route: string, n: nat)
    requires ArenaValid(nodes, depth) && at < |nodes| && depth[at] == 0
    requires ValidRoute(route) && forall k | 0 <= k < |Segs(route)| :: !IsWildcard(Segs(route)[k])
    requires Follow(nodes, at, Segs(route)) == Reached(n) && nodes[n].data.Some?
    ensures RecognizeSpec(nodes, at, route) == Some(Match(nodes[n].data.value, map[]))
    ensures RecognizeSpec(nodes, at, route + "/") == RecognizeSpec(nodes, at, route)
  {
    var ps := Segs(route);
    ValidRouteSegs(route);
    if route != "/" {
      SplitPiecesHaveNoSlash(route[1..]);
      JoinSplit(route[1..]);
      assert route == "/" + route[1..];
    }
    LiteralFills(nodes, at, ps);
    assert route == "/" + Join(ps);
    FollowDepth(nodes, depth, at, ps);
    assert NodeDepthOk(nodes, depth, n);
    RegisteredRouteRecognized(nodes, at, route, ps, n);
  }
}
