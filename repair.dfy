/** Repairing connectivity: `makeConnected`.

    While more than one component is left, the program pops two components
    a and b at random positions, joins a random number of random pairs (one
    end drawn from a, the other from b) in both directions, and pushes a
    component back. The random choices are inputs here: one `MergeChoice`
    per round. */
module Repair {
  import opened Tables
  import opened Paths
  import opened Lists
  import opened Components
  import opened Options

  /** The choices of one round: the position popped first, the position
      popped second (in the list the first pop leaves), and for each edge
      drawn the positions of its ends in a and in b. */
  datatype MergeChoice = MergeChoice(first: nat, second: nat, edges: seq<(nat, nat)>)

  /** The upper end of the edge count drawn for components of sizes la and lb:
      half the smaller size, rounded down, but at least 1. */
  function EdgeBound(la: nat, lb: nat): (r: nat)
    ensures 1 <= r
    ensures r == 1 || (2 * r <= la && 2 * r <= lb)
    ensures la >= 2 && lb >= 2 ==> 2 * r <= la && 2 * r <= lb
  {
    var low := if la < lb then la else lb;
    if low / 2 < 1 then 1 else low / 2
  }

  /** The bound as line 49 computes it under Python 3, where `/` is true
      division: an odd smaller size of 3 or more gives a non-integral upper
      end, on which `random.randint` raises (None). */
  function EdgeBoundAsWritten(la: nat, lb: nat): (r: Option<nat>)
    ensures r.Some? ==> r.value == EdgeBound(la, lb)
  {
    var low := if la < lb then la else lb;
    if low >= 3 && low % 2 == 1 then None
    else Some(if low / 2 < 1 then 1 else low / 2)
  }

  /** A round the program can carry out: two components to pop, between one
      and `EdgeBound` edges, every end a position inside its component. */
  predicate ValidChoice(comp: seq<seq<nat>>, ch: MergeChoice)
  {
    |comp| >= 2 && ch.first < |comp| && ch.second < |comp| - 1 &&
    var a := comp[ch.first];
    var b := Remove(comp, ch.first)[ch.second];
    1 <= |ch.edges| <= EdgeBound(|a|, |b|) &&
    forall t :: 0 <= t < |ch.edges| ==> ch.edges[t].0 < |a| && ch.edges[t].1 < |b|
  }

  /** The component popped first. */
  function First(comp: seq<seq<nat>>, ch: MergeChoice): seq<nat>
    requires ValidChoice(comp, ch)
  {
    comp[ch.first]
  }

  /** The component popped second. */
  function Second(comp: seq<seq<nat>>, ch: MergeChoice): seq<nat>
    requires ValidChoice(comp, ch)
  {
    Remove(comp, ch.first)[ch.second]
  }

  /** The components left after both pops. */
  function Rest(comp: seq<seq<nat>>, ch: MergeChoice): seq<seq<nat>>
    requires ValidChoice(comp, ch)
  {
    Remove(Remove(comp, ch.first), ch.second)
  }

  /** The component list after one round: the joined component is pushed back. */
  function Merged(comp: seq<seq<nat>>, ch: MergeChoice): (r: seq<seq<nat>>)
    requires ValidChoice(comp, ch)
    ensures |r| == |comp| - 1
  {
    Rest(comp, ch) + [First(comp, ch) + Second(comp, ch)]
  }

  /** The component list after one round as line 53 writes it: the second
      component alone is pushed back, and the extended first one is dropped. */
  function MergedAsWritten(comp: seq<seq<nat>>, ch: MergeChoice): (r: seq<seq<nat>>)
    requires ValidChoice(comp, ch)
    ensures |r| == |comp| - 1
  {
    Rest(comp, ch) + [Second(comp, ch)]
  }

  /** The node pairs drawn by the edge loop: for each pair of positions
      (x, y), the x-th node of a and the y-th node of b. */
  function Pairs(a: seq<nat>, b: seq<nat>, edges: seq<(nat, nat)>): (es: seq<(nat, nat)>)
    requires forall t :: 0 <= t < |edges| ==> edges[t].0 < |a| && edges[t].1 < |b|
    ensures |es| == |edges|
    ensures forall t :: 0 <= t < |es| ==> es[t].0 in a && es[t].1 in b
  {
    seq(|edges|, t requires 0 <= t < |edges| => (a[edges[t].0], b[edges[t].1]))
  }

  /** The node pairs joined in one round, in drawing order. */
  function MergeEdges(comp: seq<seq<nat>>, ch: MergeChoice): (es: seq<(nat, nat)>)
    requires ValidChoice(comp, ch)
    ensures 1 <= |es| <= EdgeBound(|First(comp, ch)|, |Second(comp, ch)|)
    ensures forall t :: 0 <= t < |es| ==> es[t].0 in First(comp, ch) && es[t].1 in Second(comp, ch)
  {
    Pairs(First(comp, ch), Second(comp, ch), ch.edges)
  }

  /** Some pair of `es` joins u and v, in either order. */
  predicate Joined(es: seq<(nat, nat)>, u: nat, v: nat)
  {
    (u, v) in es || (v, u) in es
  }

  lemma JoinedSnoc(es: seq<(nat, nat)>, p: (nat, nat))
    ensures forall u: nat, v: nat :: Joined(es + [p], u, v) <==> Joined(es, u, v) || p == (u, v) || p == (v, u)
  {
  }

  /** The table with every pair of `es` set in both directions. */
  ghost function AddEdges(m: Matrix, es: seq<(nat, nat)>): (r: Matrix)
    requires IsSquare(m)
    ensures |r| == |m| && IsSquare(r)
  {
    seq(|m|, i requires 0 <= i < |m| =>
      seq(|m|, j requires 0 <= j < |m| => m[i][j] || Joined(es, i, j)))
  }

  /** Every node of every component is a row of an n-node table. */
  ghost predicate InRange(comp: seq<seq<nat>>, n: nat)
  {
    forall k, x :: 0 <= k < |comp| && x in comp[k] ==> x < n
  }

  /** Choices for every round the loop makes, each valid for the list it meets. */
  ghost predicate ValidSchedule(comp: seq<seq<nat>>, merges: seq<MergeChoice>)
    decreases |comp|
  {
    if |comp| <= 1 then merges == []
    else merges != [] && ValidChoice(comp, merges[0]) && ValidSchedule(Merged(comp, merges[0]), merges[1..])
  }

  /** The table and the component list `makeConnected` leaves. */
  ghost function Repaired(m: Matrix, comp: seq<seq<nat>>, merges: seq<MergeChoice>): (Matrix, seq<seq<nat>>)
    requires IsSquare(m) && ValidSchedule(comp, merges)
    decreases |comp|
  {
    if |comp| <= 1 then (m, comp)
    else Repaired(AddEdges(m, MergeEdges(comp, merges[0])), Merged(comp, merges[0]), merges[1..])
  }

  lemma MergedInRange(comp: seq<seq<nat>>, ch: MergeChoice, n: nat)
    requires ValidChoice(comp, ch) && InRange(comp, n)
    ensures InRange(Merged(comp, ch), n)
  {
    var r := Merged(comp, ch);
    MergeSplit(comp, ch);
    forall k, x | 0 <= k < |r| && x in r[k]
      ensures x < n
    {
      if k < |Rest(comp, ch)| {
        assert r[k] in comp;
      } else {
        assert First(comp, ch) in comp && Second(comp, ch) in comp;
      }
    }
  }

  /** `makeConnected(adj, comp)`, with the random choices as `merges`; the
      table is updated in place and the final component list returned. */
  method MakeConnected(adj: array2<bool>, comp: seq<seq<nat>>, merges: seq<MergeChoice>)
      returns (rest: seq<seq<nat>>)
    requires adj.Length0 == adj.Length1
    requires InRange(comp, adj.Length0) && ValidSchedule(comp, merges)
    modifies adj
    ensures IsSquare(old(Snapshot(adj)))
    ensures (Snapshot(adj), rest) == Repaired(old(Snapshot(adj)), comp, merges)
  {
    var n := adj.Length0;
    SnapshotEntries(adj);
    ghost var goal := Repaired(Snapshot(adj), comp, merges);
    rest := comp;
    var t := 0;
    while |rest| > 1
      invariant t <= |merges|
      invariant InRange(rest, n) && ValidSchedule(rest, merges[t..])
      invariant IsSquare(Snapshot(adj))
      invariant Repaired(Snapshot(adj), rest, merges[t..]) == goal
      decreases |rest|
    {
      var ch := merges[t];
      assert ValidChoice(rest, ch);
      var a := rest[ch.first];
      var left := Remove(rest, ch.first);
      var b := left[ch.second];
      MergeSplit(rest, ch);
      assert a in rest && b in rest;
      JoinPairs(adj, a, b, ch.edges);
      MergedInRange(rest, ch, n);
      assert merges[t..][1..] == merges[t + 1..];
      // Line 53 pushes back `b`, dropping the extended `a`; the joined list is pushed here.
      rest := Remove(left, ch.second) + [a + b];
      t := t + 1;
    }
  }

  /** The edge loop of one round (lines 49-51): for each drawn pair of
      positions (x, y), the x-th node u of a and the y-th node v of b are
      joined, entry (u, v) and entry (v, u). */
  method JoinPairs(adj: array2<bool>, a: seq<nat>, b: seq<nat>, edges: seq<(nat, nat)>)
    requires adj.Length0 == adj.Length1
    requires forall x :: x in a ==> x < adj.Length0
    requires forall x :: x in b ==> x < adj.Length0
    requires forall t :: 0 <= t < |edges| ==> edges[t].0 < |a| && edges[t].1 < |b|
    modifies adj
    ensures IsSquare(old(Snapshot(adj)))
    ensures Snapshot(adj) == AddEdges(old(Snapshot(adj)), Pairs(a, b, edges))
  {
    var n := adj.Length0;
    SnapshotEntries(adj);
    ghost var m0 := Snapshot(adj);
    ghost var es := Pairs(a, b, edges);
    for e := 0 to |edges|
      invariant forall r, c :: 0 <= r < n && 0 <= c < n ==> adj[r, c] == (m0[r][c] || Joined(es[..e], r, c))
    {
      var u, v := a[edges[e].0], b[edges[e].1];
      assert es[..e + 1] == es[..e] + [(u, v)];
      JoinedSnoc(es[..e], (u, v));
      adj[u, v] := true;
      adj[v, u] := true;
    }
    assert es[..|edges|] == es;
    SnapshotEqual(adj, AddEdges(m0, es));
  }

  /* ---------------------------------------------------------------------- */
  /* One round                                                              */

  /** The two pops take two components of the list out, and keep the others. */
  lemma MergeSplit(comp: seq<seq<nat>>, ch: MergeChoice)
    requires ValidChoice(comp, ch)
    ensures multiset(Flatten(comp)) ==
      multiset(Flatten(Rest(comp, ch))) + multiset(First(comp, ch)) + multiset(Second(comp, ch))
    ensures First(comp, ch) in comp && Second(comp, ch) in comp
    ensures forall c :: c in Rest(comp, ch) ==> c in comp
  {
    RemoveFlatten(comp, ch.first);
    RemoveFlatten(Remove(comp, ch.first), ch.second);
  }

  /** A round keeps every node in exactly one component. */
  lemma MergedPartition(comp: seq<seq<nat>>, ch: MergeChoice, n: nat)
    requires ValidChoice(comp, ch) && IsPartition(comp, n)
    ensures IsPartition(Merged(comp, ch), n)
  {
    var a, b := First(comp, ch), Second(comp, ch);
    MergeSplit(comp, ch);
    FlattenSnoc(Rest(comp, ch), a + b);
    var r := Merged(comp, ch);
    forall k | 0 <= k < |r|
      ensures r[k] != []
    {
      if k < |r| - 1 {
        assert r[k] in Rest(comp, ch);
      }
    }
  }

  /** The round as written loses the nodes of the first component. */
  lemma AsWrittenDropsFirst(comp: seq<seq<nat>>, ch: MergeChoice)
    requires ValidChoice(comp, ch)
    ensures multiset(Flatten(MergedAsWritten(comp, ch))) + multiset(First(comp, ch)) == multiset(Flatten(comp))
  {
    MergeSplit(comp, ch);
    FlattenSnoc(Rest(comp, ch), Second(comp, ch));
  }

  /** Two components, one node each: the round as written leaves only [1],
      and node 0 belongs to no component any more. */
  lemma AsWrittenLosesNode()
    ensures IsPartition([[0], [1]], 2)
    ensures ValidChoice([[0], [1]], MergeChoice(0, 0, [(0, 0)]))
    ensures MergedAsWritten([[0], [1]], MergeChoice(0, 0, [(0, 0)])) == [[1]]
    ensures !IsPartition([[1]], 2)
  {
    var ch := MergeChoice(0, 0, [(0, 0)]);
    assert Nodes(2) == {0, 1};
    assert Flatten([[0], [1]]) == [0, 1] by {
      FlattenSnoc([[0]], [1]);
      FlattenSingle([0]);
      assert [[0], [1]] == [[0]] + [[1]];
    }
    assert multiset([0, 1]) == multiset({0, 1});
    assert Remove([[0], [1]], 0) == [[1]];
    assert Rest([[0], [1]], ch) == [];
    FlattenSingle([1]);
    assert multiset(Flatten([[1]]))[0] == 0;
  }

  /** Line 49 as written under Python 3: sizes 3 and 4 give the upper end 1.5. */
  lemma OddMinimumRejected()
    ensures EdgeBoundAsWritten(3, 4) == None && EdgeBound(3, 4) == 1
    ensures EdgeBoundAsWritten(5, 9) == None && EdgeBound(5, 9) == 2
  {
  }

  /** A node is in at most one of the lists the round works with. */
  lemma MergeDisjoint(comp: seq<seq<nat>>, ch: MergeChoice, n: nat)
    requires ValidChoice(comp, ch) && IsPartition(comp, n)
    ensures forall x :: x in First(comp, ch) ==> x !in Second(comp, ch)
    ensures forall c, x :: c in Rest(comp, ch) && x in c ==> x !in First(comp, ch) && x !in Second(comp, ch)
  {
    var a, b, rest := First(comp, ch), Second(comp, ch), Rest(comp, ch);
    MergeSplit(comp, ch);
    forall x | x in a
      ensures x !in b
    {
      assert multiset(Nodes(n))[x] <= 1;
    }
    forall c, x | c in rest && x in c
      ensures x !in a && x !in b
    {
      var k :| 0 <= k < |rest| && rest[k] == c;
      FlattenHolds(rest, k);
      assert multiset(Flatten(rest))[x] >= 1;
      assert multiset(Nodes(n))[x] <= 1;
    }
  }

  /** The pairs joined in a round link two different components, so none is a loop. */
  lemma MergeEdgesNoLoop(comp: seq<seq<nat>>, ch: MergeChoice, n: nat)
    requires ValidChoice(comp, ch) && IsPartition(comp, n)
    ensures forall t :: 0 <= t < |MergeEdges(comp, ch)| ==> MergeEdges(comp, ch)[t].0 != MergeEdges(comp, ch)[t].1
  {
    MergeDisjoint(comp, ch, n);
  }

  /** No pair joined in a round touches a node of the components left alone. */
  lemma MergeEdgesAvoid(comp: seq<seq<nat>>, ch: MergeChoice, n: nat, x: nat)
    requires ValidChoice(comp, ch) && IsPartition(comp, n)
    requires exists c :: c in Rest(comp, ch) && x in c
    ensures forall t :: 0 <= t < |MergeEdges(comp, ch)| ==>
      MergeEdges(comp, ch)[t].0 != x && MergeEdges(comp, ch)[t].1 != x
  {
    MergeDisjoint(comp, ch, n);
  }

  /* ---------------------------------------------------------------------- */
  /* Adding edges                                                           */

  /** The entries of the table after adding `es`. */
  lemma AddEdgesEntries(m: Matrix, es: seq<(nat, nat)>)
    requires IsSquare(m)
    ensures forall u: nat, v: nat :: Edge(AddEdges(m, es), u, v) <==>
      Edge(m, u, v) || (u < |m| && v < |m| && ((u, v) in es || (v, u) in es))
  {
  }

  /** Adding edges clears no entry. */
  lemma AddEdgesIncludes(m: Matrix, es: seq<(nat, nat)>)
    requires IsSquare(m)
    ensures Includes(m, AddEdges(m, es))
  {
    AddEdgesEntries(m, es);
  }

  /** Adding edges in both directions keeps the table symmetric. */
  lemma AddEdgesSymmetric(m: Matrix, es: seq<(nat, nat)>)
    requires IsSquare(m) && Symmetric(m)
    ensures Symmetric(AddEdges(m, es))
  {
    AddEdgesEntries(m, es);
  }

  /** Adding edges that are no loops keeps the diagonal zero. */
  lemma AddEdgesZeroDiagonal(m: Matrix, es: seq<(nat, nat)>)
    requires IsSquare(m) && ZeroDiagonal(m)
    requires forall t :: 0 <= t < |es| ==> es[t].0 != es[t].1
    ensures ZeroDiagonal(AddEdges(m, es))
  {
    AddEdgesEntries(m, es);
    forall u: nat
      ensures !Edge(AddEdges(m, es), u, u)
    {
      assert (u, u) !in es;
    }
  }

  lemma IncludesTrans(a: Matrix, b: Matrix, c: Matrix)
    requires Includes(a, b) && Includes(b, c)
    ensures Includes(a, c)
  {
  }

  /* ---------------------------------------------------------------------- */
  /* Components after a round                                               */

  /** Nodes connected in a table stay connected once entries are added. */
  lemma ConnectedKept(m: Matrix, big: Matrix, c: seq<nat>)
    requires Includes(m, big)
    requires forall x: nat, y: nat :: x in c && y in c ==> Connected(m, x, y)
    ensures forall x: nat, y: nat :: x in c && y in c ==> Connected(big, x, y)
  {
    forall x: nat, y: nat | x in c && y in c
      ensures Connected(big, x, y)
    {
      assert Connected(m, x, y);
      ReachMono(m, big, Nodes(|m|), Nodes(|big|), x, y);
    }
  }

  /** A pair of `es`, in either order, has one end in a and the other in b. */
  lemma EdgeEnds(es: seq<(nat, nat)>, a: seq<nat>, b: seq<nat>, x: nat, w: nat)
    requires forall t :: 0 <= t < |es| ==> es[t].0 in a && es[t].1 in b
    requires (x, w) in es || (w, x) in es
    ensures (x in a && w in b) || (x in b && w in a)
  {
    if (x, w) in es {
      var t :| 0 <= t < |es| && es[t] == (x, w);
    } else {
      var t :| 0 <= t < |es| && es[t] == (w, x);
    }
  }

  /** A component the round leaves alone is still a component of the new table. */
  lemma OtherStaysComponent(m: Matrix, comp: seq<seq<nat>>, ch: MergeChoice, c: seq<nat>)
    requires IsSquare(m) && IsComponentPartition(m, comp) && ValidChoice(comp, ch)
    requires c in Rest(comp, ch)
    ensures IsComponent(AddEdges(m, MergeEdges(comp, ch)), c)
  {
    var es := MergeEdges(comp, ch);
    var m' := AddEdges(m, es);
    MergeSplit(comp, ch);
    ComponentIsClosed(m, c);
    AddEdgesEntries(m, es);
    AddEdgesIncludes(m, es);
    forall x: nat, w: nat | x in Elems(c) && w in Nodes(|m'|) && Adjacent(m', x, w)
      ensures w in Elems(c)
    {
      MergeEdgesAvoid(comp, ch, |m|, x);
      assert (x, w) !in es && (w, x) !in es;
      assert Adjacent(m, x, w);
    }
    ConnectedKept(m, m', c);
    ClosedConnectedIsComponent(m', c);
  }

  /** Whatever is joined to the first end of the first new edge. */
  lemma JoinedConnected(m: Matrix, comp: seq<seq<nat>>, ch: MergeChoice)
    requires IsSquare(m) && IsComponentPartition(m, comp) && ValidChoice(comp, ch)
    ensures forall x: nat, y: nat :: x in First(comp, ch) + Second(comp, ch) && y in First(comp, ch) + Second(comp, ch) ==>
      Connected(AddEdges(m, MergeEdges(comp, ch)), x, y)
  {
    var a, b, es := First(comp, ch), Second(comp, ch), MergeEdges(comp, ch);
    var m' := AddEdges(m, es);
    var all := Nodes(|m|);
    MergeSplit(comp, ch);
    AddEdgesEntries(m, es);
    AddEdgesIncludes(m, es);
    var u0, v0 := es[0].0, es[0].1;
    assert u0 in a && v0 in b;
    assert Adjacent(m', u0, v0) by {
      assert IsComponent(m, a) && IsComponent(m, b);
      assert (u0, v0) in es;
    }
    forall x: nat | x in a + b
      ensures Connected(m', u0, x)
    {
      assert IsComponent(m, a) && IsComponent(m, b);
      if x in a {
        assert Connected(m, u0, x);
        ReachMono(m, m', all, all, u0, x);
      } else {
        assert Connected(m, v0, x);
        ReachMono(m, m', all, all, v0, x);
        ReachPrepend(m', all, u0, v0, x);
      }
    }
    forall x: nat, y: nat | x in a + b && y in a + b
      ensures Connected(m', x, y)
    {
      ReachSymmetric(m', all, u0, x);
      ReachTrans(m', all, x, u0, y);
    }
  }

  /** The joined list is closed in the new table. */
  lemma JoinedClosed(m: Matrix, comp: seq<seq<nat>>, ch: MergeChoice)
    requires IsSquare(m) && IsComponentPartition(m, comp) && ValidChoice(comp, ch)
    ensures ClosedIn(AddEdges(m, MergeEdges(comp, ch)), Elems(First(comp, ch) + Second(comp, ch)), Nodes(|m|))
  {
    var a, b, es := First(comp, ch), Second(comp, ch), MergeEdges(comp, ch);
    var m' := AddEdges(m, es);
    MergeSplit(comp, ch);
    ComponentIsClosed(m, a);
    ComponentIsClosed(m, b);
    AddEdgesEntries(m, es);
    forall x: nat, w: nat | x in Elems(a + b) && w in Nodes(|m|) && Adjacent(m', x, w)
      ensures w in Elems(a + b)
    {
      if Adjacent(m, x, w) {
        if x in a {
          assert w in Elems(a);
        } else {
          assert w in Elems(b);
        }
      } else {
        EdgeEnds(es, a, b, x, w);
      }
    }
  }

  /** The joined list is a component of the new table. */
  lemma JoinedIsComponent(m: Matrix, comp: seq<seq<nat>>, ch: MergeChoice)
    requires IsSquare(m) && IsComponentPartition(m, comp) && ValidChoice(comp, ch)
    ensures IsComponent(AddEdges(m, MergeEdges(comp, ch)), First(comp, ch) + Second(comp, ch))
  {
    var a, b := First(comp, ch), Second(comp, ch);
    MergeSplit(comp, ch);
    assert IsComponent(m, a) && IsComponent(m, b);
    JoinedClosed(m, comp, ch);
    JoinedConnected(m, comp, ch);
    ClosedConnectedIsComponent(AddEdges(m, MergeEdges(comp, ch)), a + b);
  }

  /** One round turns the components of the table into the components of the
      table with the new edges. */
  lemma MergePreservesComponents(m: Matrix, comp: seq<seq<nat>>, ch: MergeChoice)
    requires IsSquare(m) && IsComponentPartition(m, comp) && ValidChoice(comp, ch)
    ensures IsComponentPartition(AddEdges(m, MergeEdges(comp, ch)), Merged(comp, ch))
  {
    var r := Merged(comp, ch);
    MergedPartition(comp, ch, |m|);
    forall k | 0 <= k < |r|
      ensures IsComponent(AddEdges(m, MergeEdges(comp, ch)), r[k])
    {
      if k < |r| - 1 {
        assert r[k] in Rest(comp, ch);
        OtherStaysComponent(m, comp, ch, r[k]);
      } else {
        JoinedIsComponent(m, comp, ch);
      }
    }
  }

  /* ---------------------------------------------------------------------- */
  /* The whole loop                                                         */

  /** The loop makes one round per component but one, and leaves one component
      (none when it starts with none). */
  lemma {:induction false} ScheduleLength(m: Matrix, comp: seq<seq<nat>>, merges: seq<MergeChoice>)
    requires IsSquare(m) && ValidSchedule(comp, merges)
    ensures |merges| == if |comp| == 0 then 0 else |comp| - 1
    ensures |Repaired(m, comp, merges).1| == if |comp| == 0 then 0 else 1
    decreases |comp|
  {
    if |comp| > 1 {
      ScheduleLength(AddEdges(m, MergeEdges(comp, merges[0])), Merged(comp, merges[0]), merges[1..]);
    }
  }

  /** The repair clears no entry of the table. */
  lemma {:induction false} RepairIncludes(m: Matrix, comp: seq<seq<nat>>, merges: seq<MergeChoice>)
    requires IsSquare(m) && ValidSchedule(comp, merges)
    ensures Includes(m, Repaired(m, comp, merges).0)
    decreases |comp|
  {
    if |comp| > 1 {
      var m' := AddEdges(m, MergeEdges(comp, merges[0]));
      AddEdgesIncludes(m, MergeEdges(comp, merges[0]));
      RepairIncludes(m', Merged(comp, merges[0]), merges[1..]);
      IncludesTrans(m, m', Repaired(m, comp, merges).0);
    }
  }

  /** The repair keeps the table symmetric. */
  lemma {:induction false} RepairSymmetric(m: Matrix, comp: seq<seq<nat>>, merges: seq<MergeChoice>)
    requires IsSquare(m) && ValidSchedule(comp, merges) && Symmetric(m)
    ensures Symmetric(Repaired(m, comp, merges).0)
    decreases |comp|
  {
    if |comp| > 1 {
      AddEdgesSymmetric(m, MergeEdges(comp, merges[0]));
      RepairSymmetric(AddEdges(m, MergeEdges(comp, merges[0])), Merged(comp, merges[0]), merges[1..]);
    }
  }

  /** Starting from a partition of the nodes, the repair adds no loop. */
  lemma {:induction false} RepairZeroDiagonal(m: Matrix, comp: seq<seq<nat>>, merges: seq<MergeChoice>)
    requires IsSquare(m) && ValidSchedule(comp, merges) && ZeroDiagonal(m) && IsPartition(comp, |m|)
    ensures ZeroDiagonal(Repaired(m, comp, merges).0)
    decreases |comp|
  {
    if |comp| > 1 {
      var es := MergeEdges(comp, merges[0]);
      MergeEdgesNoLoop(comp, merges[0], |m|);
      AddEdgesZeroDiagonal(m, es);
      MergedPartition(comp, merges[0], |m|);
      RepairZeroDiagonal(AddEdges(m, es), Merged(comp, merges[0]), merges[1..]);
    }
  }

  /** Starting from the components of the table, every list the loop keeps
      is a component of the table as it then stands. */
  lemma {:induction false} RepairComponents(m: Matrix, comp: seq<seq<nat>>, merges: seq<MergeChoice>)
    requires IsSquare(m) && ValidSchedule(comp, merges) && IsComponentPartition(m, comp)
    ensures IsComponentPartition(Repaired(m, comp, merges).0, Repaired(m, comp, merges).1)
    decreases |comp|
  {
    if |comp| > 1 {
      MergePreservesComponents(m, comp, merges[0]);
      RepairComponents(AddEdges(m, MergeEdges(comp, merges[0])), Merged(comp, merges[0]), merges[1..]);
    }
  }

  /** Starting from the components of a non-empty table, the repaired table
      is connected and one component, holding every node, is left. */
  lemma RepairConnects(m: Matrix, comp: seq<seq<nat>>, merges: seq<MergeChoice>)
    requires IsSquare(m) && |m| > 0 && ValidSchedule(comp, merges) && IsComponentPartition(m, comp)
    ensures |Repaired(m, comp, merges).1| == 1
    ensures multiset(Repaired(m, comp, merges).1[0]) == multiset(Nodes(|m|))
    ensures forall x: nat, y: nat :: x < |m| && y < |m| ==> Connected(Repaired(m, comp, merges).0, x, y)
  {
    var r := Repaired(m, comp, merges);
    ScheduleLength(m, comp, merges);
    RepairComponents(m, comp, merges);
    RepairIncludes(m, comp, merges);
    assert 0 in multiset(Nodes(|m|));
    assert comp != [];
    FlattenSingle(r.1[0]);
    assert r.1 == [r.1[0]];
    OneComponentIffConnected(r.0, r.1);
  }

  /** After the repair, any list of the components of the table, as `getComp`
      computes one, has exactly one entry. */
  lemma RepairedFindsOne(m: Matrix, comp: seq<seq<nat>>, merges: seq<MergeChoice>, cc: seq<seq<nat>>)
    requires IsSquare(m) && |m| > 0 && ValidSchedule(comp, merges) && IsComponentPartition(m, comp)
    requires IsComponentPartition(Repaired(m, comp, merges).0, cc)
    ensures |cc| == 1
  {
    var r := Repaired(m, comp, merges).0;
    RepairConnects(m, comp, merges);
    RepairIncludes(m, comp, merges);
    assert IsSquare(r);
    OneComponentIffConnected(r, cc);
  }
}
