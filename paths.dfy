/** Paths and reachability in an adjacency table, with an edge counted when
    either directional entry is set (the traversal's rule). */
module Paths {
  import opened Tables

  /** `p` is a walk of consecutive adjacent nodes of `m` that stays inside `s`. */
  ghost predicate IsPath(m: Matrix, p: seq<nat>, s: set<nat>)
  {
    |p| > 0 &&
    (forall k :: 0 <= k < |p| ==> p[k] < |m| && p[k] in s) &&
    (forall k :: 0 <= k < |p| - 1 ==> Adjacent(m, p[k], p[k + 1]))
  }

  /** `w` can be reached from `u` through nodes of `s` only. */
  ghost predicate Reach(m: Matrix, s: set<nat>, u: nat, w: nat)
  {
    exists p :: IsPath(m, p, s) && p[0] == u && p[|p| - 1] == w
  }

  /** The nodes reachable from `u` through nodes of `s`. */
  ghost function ReachSet(m: Matrix, s: set<nat>, u: nat): (r: set<nat>)
    ensures forall w: nat :: w in r <==> w < |m| && Reach(m, s, u, w)
  {
    set w: nat | w < |m| && Reach(m, s, u, w)
  }

  /** `u` and `w` lie in the same connected component of `m`. */
  ghost predicate Connected(m: Matrix, u: nat, w: nat)
  {
    Reach(m, Nodes(|m|), u, w)
  }

  /** Every neighbour inside `s` of a node of `c` is itself in `c`. */
  ghost predicate ClosedIn(m: Matrix, c: set<nat>, s: set<nat>)
  {
    forall x: nat, w: nat :: x in c && w in s && Adjacent(m, x, w) ==> w in c
  }

  lemma ReachSelf(m: Matrix, s: set<nat>, u: nat)
    requires u < |m| && u in s
    ensures Reach(m, s, u, u)
  {
    assert IsPath(m, [u], s);
  }

  lemma ReachEnds(m: Matrix, s: set<nat>, u: nat, w: nat)
    requires Reach(m, s, u, w)
    ensures u < |m| && u in s && w < |m| && w in s
  {
  }

  /** Going one edge back: a neighbour inside `s` of `v` reaches what `v` reaches. */
  lemma {:induction false} ReachPrepend(m: Matrix, s: set<nat>, u: nat, v: nat, w: nat)
    requires u < |m| && u in s && Adjacent(m, u, v)
    requires Reach(m, s, v, w)
    ensures Reach(m, s, u, w)
  {
    var p :| IsPath(m, p, s) && p[0] == v && p[|p| - 1] == w;
    var q := [u] + p;
    assert forall k :: 1 <= k < |q| ==> q[k] == p[k - 1];
    assert IsPath(m, q, s);
  }

  /** Reachability is symmetric, since adjacency is. */
  lemma {:induction false} ReachSymmetric(m: Matrix, s: set<nat>, u: nat, w: nat)
    requires Reach(m, s, u, w)
    ensures Reach(m, s, w, u)
  {
    var p :| IsPath(m, p, s) && p[0] == u && p[|p| - 1] == w;
    var q := seq(|p|, k requires 0 <= k < |p| => p[|p| - 1 - k]);
    forall k | 0 <= k < |q| - 1
      ensures Adjacent(m, q[k], q[k + 1])
    {
      assert Adjacent(m, p[|p| - 2 - k], p[|p| - 1 - k]);
    }
    assert IsPath(m, q, s);
  }

  /** Reachability is transitive. */
  lemma {:induction false} ReachTrans(m: Matrix, s: set<nat>, u: nat, v: nat, w: nat)
    requires Reach(m, s, u, v) && Reach(m, s, v, w)
    ensures Reach(m, s, u, w)
  {
    var p :| IsPath(m, p, s) && p[0] == u && p[|p| - 1] == v;
    var q :| IsPath(m, q, s) && q[0] == v && q[|q| - 1] == w;
    var r := p + q[1..];
    forall k | 0 <= k < |r| - 1
      ensures Adjacent(m, r[k], r[k + 1])
    {
      if k + 1 < |p| {
        assert r[k] == p[k] && r[k + 1] == p[k + 1];
      } else {
        assert r[k] == q[k + 1 - |p|] && r[k + 1] == q[k + 2 - |p|];
      }
    }
    assert IsPath(m, r, s);
  }

  /** More allowed nodes and more entries keep every path. */
  lemma {:induction false} ReachMono(m: Matrix, big: Matrix, s: set<nat>, t: set<nat>, u: nat, w: nat)
    requires Includes(m, big) && s <= t
    requires Reach(m, s, u, w)
    ensures Reach(big, t, u, w)
  {
    var p :| IsPath(m, p, s) && p[0] == u && p[|p| - 1] == w;
    forall k | 0 <= k < |p| - 1
      ensures Adjacent(big, p[k], p[k + 1])
    {
      assert Adjacent(m, p[k], p[k + 1]);
    }
    assert IsPath(big, p, t);
  }

  /** A path that starts in a set closed inside `s` never leaves it. */
  lemma {:induction false} PathStaysIn(m: Matrix, p: seq<nat>, s: set<nat>, c: set<nat>)
    requires IsPath(m, p, s) && p[0] in c && ClosedIn(m, c, s)
    ensures forall k :: 0 <= k < |p| ==> p[k] in c
  {
    if |p| > 1 {
      var q := p[..|p| - 1];
      assert IsPath(m, q, s);
      PathStaysIn(m, q, s, c);
      assert p[|p| - 2] in c && Adjacent(m, p[|p| - 2], p[|p| - 1]);
    }
  }

  /** Whatever `v` reaches inside `s` lies in any set that holds `v` and is closed inside `s`. */
  lemma ClosedHoldsReach(m: Matrix, s: set<nat>, c: set<nat>, v: nat, w: nat)
    requires v in c && ClosedIn(m, c, s) && Reach(m, s, v, w)
    ensures w in c
  {
    var p :| IsPath(m, p, s) && p[0] == v && p[|p| - 1] == w;
    PathStaysIn(m, p, s, c);
  }
}
