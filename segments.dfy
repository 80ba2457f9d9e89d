/**
 * Path segments as Rust's `str::split('/')` produces them: the pieces
 * between slashes, in order. The empty string splits into one empty
 * piece, and a leading, trailing or doubled slash yields an empty piece.
 */
module Segments {

  /** `s.split('/')`: never empty, and no piece contains a slash. */
  function Split(s: string): (r: seq<string>)
    ensures |r| >= 1
    decreases |s|
  {
    if s == [] then [[]]
    else
      var rest := Split(s[1..]);
      if s[0] == '/' then [[]] + rest else [[s[0]] + rest[0]] + rest[1..]
  }

  /** The pieces glued back together with a slash between neighbours. */
  function Join(ps: seq<string>): (r: string)
    decreases |ps|
  {
    if ps == [] then []
    else if |ps| == 1 then ps[0]
    else ps[0] + "/" + Join(ps[1..])
  }

  predicate NoSlash(s: string) {
    '/' !in s
  }

  lemma {:induction false} SplitPiecesHaveNoSlash(s: string)
    ensures forall k | 0 <= k < |Split(s)| :: NoSlash(Split(s)[k])
    decreases |s|
  {
    if s != [] {
      SplitPiecesHaveNoSlash(s[1..]);
    }
  }

  /** Splitting and re-joining gives back the string. */
  lemma {:induction false} JoinSplit(s: string)
    ensures Join(Split(s)) == s
    decreases |s|
  {
    if s != [] {
      var rest := Split(s[1..]);
      JoinSplit(s[1..]);
      if s[0] == '/' {
        assert Split(s) == [[]] + rest;
        assert Split(s)[1..] == rest;
      } else {
        assert Split(s) == [[s[0]] + rest[0]] + rest[1..];
        if |rest| == 1 {
          assert Join(rest) == rest[0];
        } else {
          assert Join(rest) == rest[0] + "/" + Join(rest[1..]);
          assert Split(s)[1..] == rest[1..];
        }
      }
    }
  }

  /** A slash splits a string exactly where it stands. */
  lemma {:induction false} SplitAtSlash(s: string, t: string)
    ensures Split(s + "/" + t) == Split(s) + Split(t)
    decreases |s|
  {
    if s == [] {
      assert s + "/" + t == "/" + t;
      assert ("/" + t)[1..] == t;
    } else {
      var u := s + "/" + t;
      assert u[0] == s[0] && u[1..] == s[1..] + "/" + t;
      SplitAtSlash(s[1..], t);
    }
  }

  /** Splitting undoes joining, for a non-empty list of slash-free pieces. */
  lemma {:induction false} SplitJoin(ps: seq<string>)
    requires |ps| >= 1
    requires forall k | 0 <= k < |ps| :: NoSlash(ps[k])
    ensures Split(Join(ps)) == ps
    decreases |ps|
  {
    if |ps| == 1 {
      NoSlashSplit(ps[0]);
    } else {
      SplitJoin(ps[1..]);
      SplitAtSlash(ps[0], Join(ps[1..]));
      NoSlashSplit(ps[0]);
      assert ps == [ps[0]] + ps[1..];
    }
  }

  /** A slash-free string is a single piece. */
  lemma {:induction false} NoSlashSplit(s: string)
    requires NoSlash(s)
    ensures Split(s) == [s]
    decreases |s|
  {
    if s != [] {
      NoSlashSplit(s[1..]);
      assert [s[0]] + s[1..] == s;
    }
  }

  /** Joining one more piece adds a slash and that piece. */
  lemma {:induction false} JoinSnoc(ps: seq<string>, q: string)
    requires |ps| >= 1
    ensures Join(ps + [q]) == Join(ps) + "/" + q
    decreases |ps|
  {
    if |ps| == 1 {
      assert (ps + [q])[1..] == [q];
    } else {
      assert (ps + [q])[1..] == ps[1..] + [q];
      JoinSnoc(ps[1..], q);
    }
  }

  /** Joining a list cut in two puts a slash at the cut. */
  lemma {:induction false} JoinSplitAt(ps: seq<string>, k: nat)
    requires 0 < k < |ps|
    ensures Join(ps) == Join(ps[..k]) + "/" + Join(ps[k..])
    decreases k
  {
    if k == 1 {
      assert ps[..1] == [ps[0]];
      assert ps[1..] == ps[k..];
    } else {
      JoinSplitAt(ps[1..], k - 1);
      assert ps[1..][..k - 1] == ps[..k][1..];
      assert ps[1..][k - 1..] == ps[k..];
    }
  }

  /** The pieces from `start` joined, one piece further. */
  lemma JoinStep(ps: seq<string>, start: nat, i: nat)
    requires start < i < |ps|
    ensures Join(ps[start..i + 1]) == Join(ps[start..i]) + "/" + ps[i]
  {
    JoinSnoc(ps[start..i], ps[i]);
    assert ps[start..i + 1] == ps[start..i] + [ps[i]];
  }
}
