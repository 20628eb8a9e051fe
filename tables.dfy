/** The adjacency table of the generator: an n-by-n table of 0/1 entries.
    The program keeps it as a list of n lists that it updates in place; the
    methods of this model keep it in an `array2<bool>` (0 is false, 1 is true)
    and state their contracts over its value, a `Matrix`. */
module Tables {

  /** The value of an adjacency table: row i, column j. */
  type Matrix = seq<seq<bool>>

  /** Node indices 0 .. n-1. */
  ghost function Nodes(n: nat): (s: set<nat>)
    ensures forall x: nat :: x in s <==> x < n
  {
    if n == 0 then {} else Nodes(n - 1) + {n - 1}
  }

  ghost predicate IsSquare(m: Matrix)
  {
    forall i :: 0 <= i < |m| ==> |m[i]| == |m|
  }

  /** Entry (u, v) is set; false for indices outside the table. */
  predicate Edge(m: Matrix, u: nat, v: nat)
  {
    u < |m| && v < |m[u]| && m[u][v]
  }

  /** The traversal's notion of an edge: either directional entry is set. */
  predicate Adjacent(m: Matrix, u: nat, v: nat)
  {
    Edge(m, u, v) || Edge(m, v, u)
  }

  ghost predicate Symmetric(m: Matrix)
  {
    forall u: nat, v: nat :: Edge(m, u, v) ==> Edge(m, v, u)
  }

  ghost predicate ZeroDiagonal(m: Matrix)
  {
    forall u: nat :: !Edge(m, u, u)
  }

  /** `big` has the shape of `small` and keeps every entry `small` sets. */
  ghost predicate Includes(small: Matrix, big: Matrix)
  {
    |small| == |big| &&
    (forall i :: 0 <= i < |small| ==> |small[i]| == |big[i]|) &&
    (forall u: nat, v: nat :: Edge(small, u, v) ==> Edge(big, u, v))
  }

  /** The all-zero table of size n. */
  function Zero(n: nat): (m: Matrix)
    ensures |m| == n && IsSquare(m)
    ensures forall u: nat, v: nat :: !Edge(m, u, v)
  {
    seq(n, i => seq(n, j => false))
  }

  ghost function Row(a: array2<bool>, i: nat): (r: seq<bool>)
    reads a
    requires i < a.Length0
    ensures |r| == a.Length1
    ensures forall j :: 0 <= j < a.Length1 ==> r[j] == a[i, j]
  {
    seq(a.Length1, j requires 0 <= j < a.Length1 reads a => a[i, j])
  }

  /** The current value of an array-held table. */
  ghost function Snapshot(a: array2<bool>): (m: Matrix)
    reads a
    ensures |m| == a.Length0
    ensures forall i :: 0 <= i < a.Length0 ==> m[i] == Row(a, i)
  {
    seq(a.Length0, i requires 0 <= i < a.Length0 reads a => Row(a, i))
  }

  lemma SnapshotEntries(a: array2<bool>)
    requires a.Length0 == a.Length1
    ensures IsSquare(Snapshot(a))
    ensures forall u: nat, v: nat :: Edge(Snapshot(a), u, v) <==> u < a.Length0 && v < a.Length1 && a[u, v]
  {
  }

  /** A square table whose entries agree with the array is its snapshot. */
  lemma SnapshotEqual(a: array2<bool>, m: Matrix)
    requires a.Length0 == a.Length1 == |m| && IsSquare(m)
    requires forall u, v :: 0 <= u < |m| && 0 <= v < |m| ==> a[u, v] == m[u][v]
    ensures Snapshot(a) == m
  {
    var s := Snapshot(a);
    forall i | 0 <= i < |m|
      ensures s[i] == m[i]
    {
      assert |s[i]| == |m[i]|;
    }
  }
}
