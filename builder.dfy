/** Building the initial random table: `getAdj` and `fillGraph`.

    The generator's draws are inputs here. `fillGraph` asks
    `random.random() < p` once per unordered pair i < j, rows in ascending
    order and columns ascending inside a row; `draws` holds those outcomes in
    the same order, so draw number PairIndex(n, i, j) decides pair (i, j).
    The probability p matters only through these outcomes. */
module Builder {
  import opened Tables

  /** `getAdj(n)`: a fresh n-by-n table of zeros (no rows when n <= 0). */
  method GetAdj(n: int) returns (adj: array2<bool>)
    ensures fresh(adj)
    ensures adj.Length0 == adj.Length1 == (if n < 0 then 0 else n)
    ensures Snapshot(adj) == Zero(adj.Length0)
  {
    var size := if n < 0 then 0 else n;
    adj := new bool[size, size]((i, j) => false);
    SnapshotEqual(adj, Zero(size));
  }

  /** Number of pairs (r, c), r < c < n, in the rows before row i. */
  function RowStart(n: nat, i: nat): nat
    requires i <= n
  {
    if i == 0 then 0 else RowStart(n, i - 1) + (n - i)
  }

  /** Number of draws `fillGraph` makes for an n-node table. */
  function PairCount(n: nat): nat
  {
    RowStart(n, n)
  }

  /** Position of pair (i, j) in the row-major order of the upper triangle. */
  function PairIndex(n: nat, i: nat, j: nat): nat
    requires i < j < n
  {
    RowStart(n, i) + (j - i - 1)
  }

  lemma {:induction false} RowStartMono(n: nat, i: nat, k: nat)
    requires i <= k <= n
    ensures RowStart(n, i) <= RowStart(n, k)
    decreases k - i
  {
    if i < k {
      RowStartMono(n, i, k - 1);
    }
  }

  /** Pair (i, j) has a draw of its own: indices lie in range and differ for different pairs. */
  lemma PairIndexInRange(n: nat, i: nat, j: nat)
    requires i < j < n
    ensures PairIndex(n, i, j) < RowStart(n, i + 1) <= PairCount(n)
  {
    RowStartMono(n, i + 1, n);
  }

  lemma PairIndexInjective(n: nat, i: nat, j: nat, i': nat, j': nat)
    requires i < j < n && i' < j' < n
    requires PairIndex(n, i, j) == PairIndex(n, i', j')
    ensures i == i' && j == j'
  {
    if i < i' {
      PairIndexInRange(n, i, j);
      RowStartMono(n, i + 1, i');
    } else if i' < i {
      PairIndexInRange(n, i', j');
      RowStartMono(n, i' + 1, i);
    }
  }

  /** The draw that decides the unordered pair {i, j}; none for i == j. */
  function Drawn(n: nat, draws: seq<bool>, i: nat, j: nat): bool
    requires |draws| == PairCount(n)
  {
    if i < j < n then
      PairIndexInRange(n, i, j);
      draws[PairIndex(n, i, j)]
    else if j < i < n then
      PairIndexInRange(n, j, i);
      draws[PairIndex(n, j, i)]
    else
      false
  }

  /** The table `fillGraph` leaves: every pair whose draw succeeded is set both ways. */
  ghost function Fill(m: Matrix, draws: seq<bool>): (r: Matrix)
    requires IsSquare(m) && |draws| == PairCount(|m|)
    ensures |r| == |m| && IsSquare(r)
  {
    seq(|m|, i requires 0 <= i < |m| =>
      seq(|m|, j requires 0 <= j < |m| => m[i][j] || Drawn(|m|, draws, i, j)))
  }

  /** `fillGraph(p, adj)`, the loops over pairs i < j, in place. */
  method FillGraph(adj: array2<bool>, draws: seq<bool>)
    requires adj.Length0 == adj.Length1 && |draws| == PairCount(adj.Length0)
    modifies adj
    ensures IsSquare(old(Snapshot(adj)))
    ensures Snapshot(adj) == Fill(old(Snapshot(adj)), draws)
  {
    var n := adj.Length0;
    SnapshotEntries(adj);
    ghost var m0 := Snapshot(adj);
    var k := 0;
    for i := 0 to n
      invariant k == RowStart(n, i)
      invariant forall r, c :: 0 <= r < n && 0 <= c < n ==>
        adj[r, c] == (m0[r][c] || ((r < i || c < i) && Drawn(n, draws, r, c)))
    {
      for j := i + 1 to n
        invariant k == RowStart(n, i) + (j - i - 1)
        invariant forall r, c :: 0 <= r < n && 0 <= c < n ==>
          adj[r, c] == (m0[r][c] || ((r < i || c < i || (r == i && c < j) || (c == i && r < j)) && Drawn(n, draws, r, c)))
      {
        PairIndexInRange(n, i, j);
        if draws[k] {
          adj[i, j] := true;
          adj[j, i] := true;
        }
        k := k + 1;
      }
    }
    SnapshotEqual(adj, Fill(m0, draws));
  }

  /** Filling keeps the table symmetric. */
  lemma FillSymmetric(m: Matrix, draws: seq<bool>)
    requires IsSquare(m) && |draws| == PairCount(|m|) && Symmetric(m)
    ensures Symmetric(Fill(m, draws))
  {
    var f := Fill(m, draws);
    forall u: nat, v: nat | Edge(f, u, v)
      ensures Edge(f, v, u)
    {
      assert Drawn(|m|, draws, u, v) == Drawn(|m|, draws, v, u);
      assert Edge(m, u, v) || Drawn(|m|, draws, u, v);
    }
  }

  /** Filling never sets a diagonal entry. */
  lemma FillZeroDiagonal(m: Matrix, draws: seq<bool>)
    requires IsSquare(m) && |draws| == PairCount(|m|) && ZeroDiagonal(m)
    ensures ZeroDiagonal(Fill(m, draws))
  {
    var f := Fill(m, draws);
    forall u: nat | u < |m|
      ensures !Edge(f, u, u)
    {
      assert !Edge(m, u, u) && !Drawn(|m|, draws, u, u);
    }
  }

  /** Filling never clears an entry, and sets exactly the pairs whose draw succeeded. */
  lemma FillSetsDrawnPairs(m: Matrix, draws: seq<bool>)
    requires IsSquare(m) && |draws| == PairCount(|m|)
    ensures Includes(m, Fill(m, draws))
    ensures forall i: nat, j: nat :: i < j < |m| ==>
      (PairIndexInRange(|m|, i, j);
       Edge(Fill(m, draws), i, j) == (Edge(m, i, j) || draws[PairIndex(|m|, i, j)]) &&
       Edge(Fill(m, draws), j, i) == (Edge(m, j, i) || draws[PairIndex(|m|, i, j)]))
  {
  }

  /** The built table, `fillGraph(p, getAdj(n))`, is symmetric with a zero diagonal,
      and its edges are exactly the pairs whose draw succeeded. */
  lemma BuiltTable(n: nat, draws: seq<bool>)
    requires |draws| == PairCount(n)
    ensures Symmetric(Fill(Zero(n), draws)) && ZeroDiagonal(Fill(Zero(n), draws))
    ensures forall i: nat, j: nat :: Edge(Fill(Zero(n), draws), i, j) <==> Drawn(n, draws, i, j)
  {
  }

  /** With p = 0 no draw succeeds and the table stays empty. */
  lemma NoDrawsNoEdges(n: nat, draws: seq<bool>)
    requires |draws| == PairCount(n) && forall k :: 0 <= k < |draws| ==> !draws[k]
    ensures Fill(Zero(n), draws) == Zero(n)
  {
    BuiltTable(n, draws);
    var f := Fill(Zero(n), draws);
    forall i | 0 <= i < n
      ensures f[i] == Zero(n)[i]
    {
      forall j | 0 <= j < n
        ensures f[i][j] == Zero(n)[i][j]
      {
        if i < j {
          PairIndexInRange(n, i, j);
        } else if j < i {
          PairIndexInRange(n, j, i);
        }
      }
    }
  }

  /** With p = 1 every draw succeeds and every two distinct nodes are joined. */
  lemma AllDrawsCompleteGraph(n: nat, draws: seq<bool>)
    requires |draws| == PairCount(n) && forall k :: 0 <= k < |draws| ==> draws[k]
    ensures forall i: nat, j: nat :: i < n && j < n ==> (Edge(Fill(Zero(n), draws), i, j) <==> i != j)
  {
    BuiltTable(n, draws);
    forall i: nat, j: nat | i < n && j < n && i != j
      ensures Drawn(n, draws, i, j)
    {
      if i < j {
        PairIndexInRange(n, i, j);
      } else {
        PairIndexInRange(n, j, i);
      }
    }
  }
}
