/**
 * Admissibility of route patterns (`is_route_in_good_shape`,
 * `is_valid_route`) and of mount prefixes (`is_valid_base`).
 */
module Validate {
  import opened Segments

  /** `segment.starts_with(':')`: captures one path segment. */
  predicate IsParamSeg(seg: string) {
    |seg| > 0 && seg[0] == ':'
  }

  /** `segment.starts_with('*')`: captures the rest of the path. */
  predicate IsCatchAllSeg(seg: string) {
    |seg| > 0 && seg[0] == '*'
  }

  predicate IsWildcard(seg: string) {
    IsParamSeg(seg) || IsCatchAllSeg(seg)
  }

  /** The name a wildcard segment binds: everything after its marker. */
  function NameOf(seg: string): string
    requires IsWildcard(seg)
  {
    seg[1..]
  }

  /** Starts with a slash, and does not end with one unless it is `/`. */
  function IsRouteInGoodShape(route: string): (ok: bool)
    ensures ok <==> |route| >= 1 && route[0] == '/' && (route == "/" || route[|route| - 1] != '/')
  {
    if |route| == 0 || route[0] != '/' then false
    else !(|route| > 1 && route[|route| - 1] == '/')
  }

  /** The segments a pattern's body splits into */
  function Body(route: string): seq<string>
    requires |route| >= 1
  {
    Split(route[1..])
  }

  /**
   * The segments of an admissible pattern: none empty, every wildcard
   * names something, no two wildcards share a name (whatever their
   * kind), and a catch-all comes last.
   */
  predicate ValidPattern(segs: seq<string>) {
    && (forall i | 0 <= i < |segs| :: segs[i] != "")
    && (forall i | 0 <= i < |segs| :: IsWildcard(segs[i]) ==> |segs[i]| > 1)
    && (forall i, j | 0 <= i < j < |segs| && IsWildcard(segs[i]) && IsWildcard(segs[j]) ::
          NameOf(segs[i]) != NameOf(segs[j]))
    && (forall i | 0 <= i < |segs| - 1 :: !IsCatchAllSeg(segs[i]))
  }

  predicate ValidRoute(route: string) {
    IsRouteInGoodShape(route) && (route == "/" || ValidPattern(Body(route)))
  }

  /** A mount prefix: well shaped, and every segment a non-empty literal. */
  predicate ValidBase(route: string) {
    && IsRouteInGoodShape(route)
    && (route == "/" || forall i | 0 <= i < |Body(route)| :: Body(route)[i] != "" && !IsWildcard(Body(route)[i]))
  }

  /** The segments `add` and `with_base` thread through the tree. */
  function Segs(route: string): seq<string>
    requires |route| >= 1
  {
    if route == "/" then [] else Body(route)
  }

  /** The wildcard names of a pattern, in order. */
  function WildcardNames(segs: seq<string>): (names: seq<string>)
    ensures |names| <= |segs|
  {
    if segs == [] then []
    else if IsWildcard(segs[0]) then [NameOf(segs[0])] + WildcardNames(segs[1..])
    else WildcardNames(segs[1..])
  }

  predicate Distinct(xs: seq<string>) {
    forall i, j | 0 <= i < j < |xs| :: xs[i] != xs[j]
  }

  /** `is_valid_route`: one pass over the body with a set of seen names and a catch-all flag. */
  method IsValidRoute(route: string) returns (ok: bool)
    ensures ok == ValidRoute(route)
  {
    if !IsRouteInGoodShape(route) {
      return false;
    }
    if |route| == 1 {
      return true;
    }
    var segs := Split(route[1..]);
    assert segs == Body(route);
    var checker: set<string> := {};
    var hasCatchAll := false;
    for i := 0 to |segs|
      invariant PatternUpTo(segs, i)
      invariant hasCatchAll <==> i > 0 && IsCatchAllSeg(segs[i - 1])
      invariant checker == NamesUpTo(segs, i)
    {
      var segment := segs[i];
      if |segment| == 0 || hasCatchAll {
        PatternFails(segs, i);
        return false;
      }
      if IsWildcard(segment) {
        if |segment| == 1 {
          PatternFails(segs, i);
          return false;
        }
        var name := segment[1..];
        if name in checker {
          PatternFails(segs, i);
          return false;
        }
        checker := checker + {name};
      }
      if IsCatchAllSeg(segment) {
        hasCatchAll := true;
      }
      PatternStep(segs, i);
    }
    return true;
  }

  /** `ValidPattern` for the first `i` segments, as `is_valid_route`'s loop has checked them. */
  predicate PatternUpTo(segs: seq<string>, i: nat)
    requires i <= |segs|
  {
    && (forall k | 0 <= k < i :: segs[k] != "")
    && (forall k | 0 <= k < i :: IsWildcard(segs[k]) ==> |segs[k]| > 1)
    && (forall k, j | 0 <= k < j < i && IsWildcard(segs[k]) && IsWildcard(segs[j]) ::
          NameOf(segs[k]) != NameOf(segs[j]))
    && (forall k | 0 <= k < i - 1 :: !IsCatchAllSeg(segs[k]))
  }

  /** The names the wildcards among the first `i` segments bind (`checker`). */
  function NamesUpTo(segs: seq<string>, i: nat): set<string>
    requires i <= |segs|
  {
    set k | 0 <= k < i && IsWildcard(segs[k]) :: NameOf(segs[k])
  }

  /** A segment that passes the checks extends the checked prefix by one. */
  lemma PatternStep(segs: seq<string>, i: nat)
    requires i < |segs| && PatternUpTo(segs, i)
    requires segs[i] != "" && !(i > 0 && IsCatchAllSeg(segs[i - 1]))
    requires IsWildcard(segs[i]) ==> |segs[i]| > 1 && NameOf(segs[i]) !in NamesUpTo(segs, i)
    ensures PatternUpTo(segs, i + 1)
    ensures NamesUpTo(segs, i + 1) == NamesUpTo(segs, i) + (if IsWildcard(segs[i]) then {NameOf(segs[i])} else {})
  {
    forall k | 0 <= k < i && IsWildcard(segs[k]) && IsWildcard(segs[i])
      ensures NameOf(segs[k]) != NameOf(segs[i])
    {
      assert NameOf(segs[k]) in NamesUpTo(segs, i);
    }
  }

  /** A segment that fails a check makes the whole pattern inadmissible. */
  lemma PatternFails(segs: seq<string>, i: nat)
    requires i < |segs|
    requires || segs[i] == ""
             || (i > 0 && IsCatchAllSeg(segs[i - 1]))
             || (IsWildcard(segs[i]) && (|segs[i]| == 1 || NameOf(segs[i]) in NamesUpTo(segs, i)))
    ensures !ValidPattern(segs)
  {
    if IsWildcard(segs[i]) && |segs[i]| > 1 && NameOf(segs[i]) in NamesUpTo(segs, i) {
      var k :| 0 <= k < i && IsWildcard(segs[k]) && NameOf(segs[k]) == NameOf(segs[i]);
    }
  }

  /** `is_valid_base`: one pass over the body rejecting empty and wildcard segments. */
  method IsValidBase(route: string) returns (ok: bool)
    ensures ok == ValidBase(route)
  {
    if !IsRouteInGoodShape(route) {
      return false;
    }
    if |route| == 1 {
      return true;
    }
    var segs := Split(route[1..]);
    assert segs == Body(route);
    for i := 0 to |segs|
      invariant forall k | 0 <= k < i :: segs[k] != "" && !IsWildcard(segs[k])
    {
      var segment := segs[i];
      if |segment| == 0 {
        return false;
      }
      if IsWildcard(segment) {
        return false;
      }
    }
    return true;
  }

  /** Every mount prefix is also an admissible pattern. */
  lemma ValidBaseIsValidRoute(route: string)
    requires ValidBase(route)
    ensures ValidRoute(route)
  {
  }

  /** What an admissible pattern gives `add` to walk: its body, or nothing for `/`. */
  lemma ValidRouteSegs(route: string)
    requires ValidRoute(route)
    ensures route == "/" ==> Body(route) == [""]
    ensures route != "/" ==> Segs(route) == Body(route) && forall k | 0 <= k < |Segs(route)| :: Segs(route)[k] != ""
    ensures ValidPattern(Segs(route))
  {
  }

  lemma {:induction false} WildcardNameSource(segs: seq<string>, x: string)
    requires x in WildcardNames(segs)
    ensures exists k | 0 <= k < |segs| :: IsWildcard(segs[k]) && NameOf(segs[k]) == x
    decreases |segs|
  {
    if IsWildcard(segs[0]) && x == NameOf(segs[0]) {
    } else {
      WildcardNameSource(segs[1..], x);
      var k :| 0 <= k < |segs[1..]| && IsWildcard(segs[1..][k]) && NameOf(segs[1..][k]) == x;
      assert segs[k + 1] == segs[1..][k];
    }
  }

  /** The names an admissible pattern records are pairwise distinct and non-empty. */
  lemma {:induction false} ValidPatternNamesDistinct(segs: seq<string>)
    requires ValidPattern(segs)
    ensures Distinct(WildcardNames(segs))
    ensures forall k | 0 <= k < |WildcardNames(segs)| :: WildcardNames(segs)[k] != ""
    decreases |segs|
  {
    if segs != [] {
      assert ValidPattern(segs[1..]);
      ValidPatternNamesDistinct(segs[1..]);
      if IsWildcard(segs[0]) {
        var rest := WildcardNames(segs[1..]);
        forall j | 0 <= j < |rest|
          ensures rest[j] != NameOf(segs[0])
        {
          WildcardNameSource(segs[1..], rest[j]);
          var k :| 0 <= k < |segs[1..]| && IsWildcard(segs[1..][k]) && NameOf(segs[1..][k]) == rest[j];
          assert segs[k + 1] == segs[1..][k];
        }
      }
    }
  }

  /** One more segment adds its name, if it is a wildcard. */
  lemma {:induction false} WildcardNamesSnoc(segs: seq<string>, s: string)
    ensures WildcardNames(segs + [s]) == WildcardNames(segs) + (if IsWildcard(s) then [NameOf(s)] else [])
    decreases |segs|
  {
    if segs == [] {
      assert [s][1..] == [];
    } else {
      assert (segs + [s])[1..] == segs[1..] + [s];
      WildcardNamesSnoc(segs[1..], s);
    }
  }

  /** The names of the first `i + 1` segments: those of the first `i`, then segment `i`'s, if any. */
  lemma WildcardNamesStep(segs: seq<string>, i: nat)
    requires i < |segs|
    ensures WildcardNames(segs[..i + 1]) ==
              WildcardNames(segs[..i]) + (if IsWildcard(segs[i]) then [NameOf(segs[i])] else [])
  {
    assert segs[..i + 1] == segs[..i] + [segs[i]];
    WildcardNamesSnoc(segs[..i], segs[i]);
  }

  /**
   * The segments before the first empty one: how far `add` and
   * `with_base` read before they `break`.
   */
  function Consumed(segs: seq<string>): (r: seq<string>)
    ensures |r| <= |segs| && r == segs[..|r|]
    ensures |r| == |segs| || segs[|r|] == ""
    ensures forall k | 0 <= k < |r| :: r[k] != ""
  {
    if segs == [] || segs[0] == "" then [] else [segs[0]] + Consumed(segs[1..])
  }

  /** For an admissible pattern, reading up to the first empty segment reads exactly its segments. */
  lemma ValidRouteConsumed(route: string)
    requires ValidRoute(route)
    ensures Consumed(Body(route)) == Segs(route)
  {
    ValidRouteSegs(route);
    if route == "/" {
      ConsumedAt(Body(route), 0);
    } else {
      ConsumedAt(Body(route), |Body(route)|);
    }
  }

  /** Stopping at position `i`, with nothing empty before it, reads exactly the first `i` segments. */
  lemma {:induction false} ConsumedAt(segs: seq<string>, i: nat)
    requires i <= |segs| && (i == |segs| || segs[i] == "")
    requires forall k | 0 <= k < i :: segs[k] != ""
    ensures Consumed(segs) == segs[..i]
    decreases i
  {
    if i > 0 {
      ConsumedAt(segs[1..], i - 1);
      assert segs[..i] == [segs[0]] + segs[1..][..i - 1];
    }
  }

  /** Literal segments carry no names. */
  lemma {:induction false} LiteralsHaveNoNames(segs: seq<string>)
    requires forall k | 0 <= k < |segs| :: !IsWildcard(segs[k])
    ensures WildcardNames(segs) == []
    decreases |segs|
  {
    if segs != [] {
      assert !IsWildcard(segs[0]);
      LiteralsHaveNoNames(segs[1..]);
    }
  }

  /** With nothing empty up to position `i`, reading goes past it. */
  lemma {:induction false} ConsumedPast(segs: seq<string>, i: nat)
    requires i < |segs| && forall k | 0 <= k <= i :: segs[k] != ""
    ensures |Consumed(segs)| > i
    decreases i
  {
    if i > 0 {
      ConsumedPast(segs[1..], i - 1);
    }
  }

  /** Two patterns with the same literals and the same kind of wildcard in the same places; names may differ. */
  predicate SameShape(ps: seq<string>, qs: seq<string>) {
    && |ps| == |qs|
    && forall k | 0 <= k < |ps| ::
         || ps[k] == qs[k]
         || (IsParamSeg(ps[k]) && IsParamSeg(qs[k]))
         || (IsCatchAllSeg(ps[k]) && IsCatchAllSeg(qs[k]))
  }

  lemma SameShapeTail(ps: seq<string>, qs: seq<string>)
    requires SameShape(ps, qs) && ps != []
    ensures SameShape(ps[1..], qs[1..])
  {
    forall k | 0 <= k < |ps| - 1
      ensures ps[1..][k] == ps[k + 1] && qs[1..][k] == qs[k + 1]
    {
    }
  }

  /** Patterns of the same shape collect as many names. */
  lemma {:induction false} SameShapeNameCount(ps: seq<string>, qs: seq<string>)
    requires SameShape(ps, qs)
    ensures |WildcardNames(ps)| == |WildcardNames(qs)|
    decreases |ps|
  {
    if ps != [] {
      assert IsWildcard(ps[0]) <==> IsWildcard(qs[0]);
      SameShapeTail(ps, qs);
      SameShapeNameCount(ps[1..], qs[1..]);
    }
  }
}
