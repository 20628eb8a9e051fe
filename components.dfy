/** Finding connected components: `DFS` and `getComp`.

    `getComp` keeps a `visited` list of 0/1 flags, here an `array<bool>`, and
    calls the recursive `DFS` on each node still unvisited. `DFS` marks its
    node, appends it to the list it was handed and recurses into every
    unvisited neighbour, counting an edge when either directional entry of
    the table is set. */
module Components {
  import opened Tables
  import opened Paths
  import opened Lists

  /** The nodes flagged in a `visited` list. */
  function Marked(s: seq<bool>): (r: set<nat>)
    ensures forall x: nat :: x in r <==> x < |s| && s[x]
  {
    set x: nat | x < |s| && s[x]
  }

  /** The nodes not yet flagged. */
  function Unmarked(s: seq<bool>): (r: set<nat>)
    ensures forall x: nat :: x in r <==> x < |s| && !s[x]
  {
    set x: nat | x < |s| && !s[x]
  }

  /** Every node 0 .. n-1 occurs exactly once over all lists, and no list is empty. */
  ghost predicate IsPartition(cc: seq<seq<nat>>, n: nat)
  {
    (forall k :: 0 <= k < |cc| ==> cc[k] != []) &&
    multiset(Flatten(cc)) == multiset(Nodes(n))
  }

  /** `c` holds exactly the nodes connected to any one of its members. */
  ghost predicate IsComponent(m: Matrix, c: seq<nat>)
  {
    c != [] &&
    (forall x :: x in c ==> x < |m|) &&
    forall x: nat, y: nat :: x in c && y < |m| ==> (y in c <==> Connected(m, x, y))
  }

  /** `cc` is the list of connected components of `m`: a partition of its
      nodes into lists that are each one component. */
  ghost predicate IsComponentPartition(m: Matrix, cc: seq<seq<nat>>)
  {
    IsPartition(cc, |m|) &&
    forall k :: 0 <= k < |cc| ==> IsComponent(m, cc[k])
  }

  lemma UnmarkedShrinks(a: seq<bool>, b: seq<bool>)
    requires |a| == |b| && Marked(a) <= Marked(b)
    ensures Unmarked(b) <= Unmarked(a)
  {
    forall x: nat | x in Unmarked(b)
      ensures x in Unmarked(a)
    {
      assert x !in Marked(b);
    }
  }

  /** The set reached from `v` inside `s` is closed inside `s`. */
  lemma ReachSetClosed(m: Matrix, s: set<nat>, v: nat)
    requires IsSquare(m)
    ensures ClosedIn(m, ReachSet(m, s, v), s)
  {
    forall x: nat, w: nat | x in ReachSet(m, s, v) && w in s && Adjacent(m, x, w)
      ensures w in ReachSet(m, s, v)
    {
      ReachEnds(m, s, v, x);
      var p :| IsPath(m, p, s) && p[0] == v && p[|p| - 1] == x;
      var q := p + [w];
      assert q[|q| - 2] == x;
      assert IsPath(m, q, s);
    }
  }

  /** What a neighbour of `v` reaches inside fewer nodes, `v` reaches too. */
  lemma ReachSetFromNeighbour(m: Matrix, s: set<nat>, t: set<nat>, v: nat, i: nat)
    requires s <= t && v in t && v < |m| && Adjacent(m, v, i)
    ensures ReachSet(m, s, i) <= ReachSet(m, t, v)
  {
    forall w: nat | w in ReachSet(m, s, i)
      ensures w in ReachSet(m, t, v)
    {
      ReachMono(m, m, s, t, i, w);
      ReachPrepend(m, t, v, i, w);
    }
  }

  /** What holds of one call `DFS(temp, v, ...)` after it has looked at the
      neighbours below `i`: `vis` is the visited list now, `before` the list
      on entry, `s` what the call has appended so far. */
  ghost predicate SearchState(m: Matrix, before: seq<bool>, vis: seq<bool>, v: nat, s: seq<nat>, i: nat)
  {
    |vis| == |before| == |m| &&
    Marked(before) + {v} <= Marked(vis) &&
    |s| > 0 && s[0] == v && Distinct(s) &&
    Elems(s) == Marked(vis) - Marked(before) &&
    Elems(s) <= ReachSet(m, Unmarked(before), v) &&
    (forall w: nat :: w < i && Adjacent(m, v, w) ==> w in Marked(vis)) &&
    (forall x: nat, w: nat :: x in Elems(s) && x != v && w < |m| && Adjacent(m, x, w) ==> w in Marked(vis))
  }

  lemma SearchStart(m: Matrix, before: seq<bool>, v: nat)
    requires |before| == |m| && v < |m| && !before[v]
    ensures SearchState(m, before, before[v := true], v, [v], 0)
  {
    ReachSelf(m, Unmarked(before), v);
    assert Elems([v]) == {v};
  }

  /** The loop moves past neighbour i, which was already visited or is no neighbour. */
  lemma SearchSkip(m: Matrix, before: seq<bool>, vis: seq<bool>, v: nat, s: seq<nat>, i: nat)
    requires SearchState(m, before, vis, v, s, i) && i < |m|
    requires !Adjacent(m, v, i) || vis[i]
    ensures SearchState(m, before, vis, v, s, i + 1)
  {
  }

  /** The loop recursed into neighbour i, which appended `s2` and left `vis1`. */
  lemma SearchVisit(m: Matrix, before: seq<bool>, vis0: seq<bool>, vis1: seq<bool>, v: nat, s0: seq<nat>, s2: seq<nat>, i: nat)
    requires IsSquare(m)
    requires SearchState(m, before, vis0, v, s0, i) && i < |m| && Adjacent(m, v, i) && !vis0[i]
    requires |vis1| == |vis0| && Marked(vis0) <= Marked(vis1)
    requires |s2| > 0 && s2[0] == i && Distinct(s2)
    requires Elems(s2) == Marked(vis1) - Marked(vis0)
    requires Elems(s2) == ReachSet(m, Unmarked(vis0), i)
    ensures SearchState(m, before, vis1, v, s0 + s2, i + 1)
  {
    UnmarkedShrinks(before, vis0);
    ReachSetClosed(m, Unmarked(vis0), i);
    ReachSetFromNeighbour(m, Unmarked(vis0), Unmarked(before), v, i);
    DistinctConcat(s0, s2);
    ElemsConcat(s0, s2);
    assert i in Elems(s2);
    var s := s0 + s2;
    assert (s0 + s2)[0] == v;
    forall x: nat, w: nat | x in Elems(s) && x != v && w < |m| && Adjacent(m, x, w)
      ensures w in Marked(vis1)
    {
      if x in Elems(s2) && w in Unmarked(vis0) {
        assert w in ReachSet(m, Unmarked(vis0), i);
      }
    }
  }

  /** Once every neighbour of `v` is looked at, what was appended is exactly what `v` reaches. */
  lemma SearchDone(m: Matrix, before: seq<bool>, vis: seq<bool>, v: nat, s: seq<nat>)
    requires SearchState(m, before, vis, v, s, |m|)
    ensures Elems(s) == ReachSet(m, Unmarked(before), v)
  {
    assert ClosedIn(m, Elems(s), Unmarked(before));
    forall w: nat | w in ReachSet(m, Unmarked(before), v)
      ensures w in Elems(s)
    {
      ClosedHoldsReach(m, Unmarked(before), Elems(s), v, w);
    }
  }

  /** A list that extends `temp + s0` is `temp` followed by `s0` and the rest. */
  lemma ExtendedList(temp: seq<nat>, s0: seq<nat>, r: seq<nat>)
    requires |r| >= |temp + s0| && r[..|temp + s0|] == temp + s0
    ensures r == temp + (s0 + r[|temp + s0|..])
  {
    assert r == r[..|temp + s0|] + r[|temp + s0|..];
  }

  /** `DFS(temp, v, visited, adj)`: marks every node reachable from `v` through
      nodes unvisited on entry, appends each of them once, `v` first, and
      returns the extended list. */
  method DFS(temp: seq<nat>, v: nat, visited: array<bool>, adj: array2<bool>) returns (r: seq<nat>)
    requires adj.Length0 == adj.Length1 == visited.Length
    requires v < visited.Length && !visited[v]
    modifies visited
    ensures Marked(old(visited[..])) <= Marked(visited[..])
    ensures |r| > |temp| && r[..|temp|] == temp && r[|temp|] == v
    ensures Distinct(r[|temp|..])
    ensures Elems(r[|temp|..]) == Marked(visited[..]) - Marked(old(visited[..]))
    ensures Elems(r[|temp|..]) == ReachSet(Snapshot(adj), Unmarked(old(visited[..])), v)
    decreases Unmarked(visited[..])
  {
    var n := adj.Length0;
    SnapshotEntries(adj);
    ghost var m := Snapshot(adj);
    ghost var before := visited[..];
    visited[v] := true;
    r := temp + [v];
    ghost var s := [v];
    SearchStart(m, before, v);
    var i := 0;
    while i < n
      invariant 0 <= i <= n
      invariant r == temp + s
      invariant SearchState(m, before, visited[..], v, s, i)
    {
      if adj[v, i] || adj[i, v] {
        if !visited[i] {
          ghost var r0, s0, vis0 := r, s, visited[..];
          UnmarkedShrinks(before, vis0);
          assert v in Unmarked(before) && v !in Unmarked(vis0);
          r := DFS(r, i, visited, adj);
          ghost var s2 := r[|r0|..];
          ExtendedList(temp, s0, r);
          s := s + s2;
          SearchVisit(m, before, vis0, visited[..], v, s0, s2, i);
        } else {
          SearchSkip(m, before, visited[..], v, s, i);
        }
      } else {
        SearchSkip(m, before, visited[..], v, s, i);
      }
      i := i + 1;
    }
    SearchDone(m, before, visited[..], v, s);
    assert r[|temp|..] == s;
  }

  /** A closed, internally connected list of nodes is a connected component. */
  lemma ClosedConnectedIsComponent(m: Matrix, c: seq<nat>)
    requires c != [] && forall x :: x in c ==> x < |m|
    requires ClosedIn(m, Elems(c), Nodes(|m|))
    requires forall x: nat, y: nat :: x in c && y in c ==> Connected(m, x, y)
    ensures IsComponent(m, c)
  {
    forall x: nat, y: nat | x in c && y < |m| && Connected(m, x, y)
      ensures y in c
    {
      ClosedHoldsReach(m, Nodes(|m|), Elems(c), x, y);
    }
  }

  /** A connected component is closed and internally connected. */
  lemma ComponentIsClosed(m: Matrix, c: seq<nat>)
    requires IsSquare(m) && IsComponent(m, c)
    ensures ClosedIn(m, Elems(c), Nodes(|m|))
    ensures forall x: nat, y: nat :: x in c && y in c ==> Connected(m, x, y)
  {
    forall x: nat, w: nat | x in Elems(c) && w in Nodes(|m|) && Adjacent(m, x, w)
      ensures w in Elems(c)
    {
      assert x in c && x < |m| && w < |m|;
      ReachSelf(m, Nodes(|m|), w);
      ReachPrepend(m, Nodes(|m|), x, w, w);
      assert Connected(m, x, w);
      assert w in c;
    }
  }

  /** What `IsPartition` means member by member: every member is a node, and
      every node lies in exactly one list. */
  lemma PartitionExactlyOnce(cc: seq<seq<nat>>, n: nat)
    requires IsPartition(cc, n)
    ensures forall k, x :: 0 <= k < |cc| && x in cc[k] ==> x < n
    ensures forall x: nat :: x in Nodes(n) ==> exists k :: 0 <= k < |cc| && x in cc[k]
    ensures forall k, l, x :: 0 <= k < |cc| && 0 <= l < |cc| && x in cc[k] && x in cc[l] ==> k == l
  {
    forall k, x | 0 <= k < |cc| && x in cc[k]
      ensures x < n
    {
      FlattenHolds(cc, k);
      assert multiset(Nodes(n))[x] > 0;
    }
    forall x: nat | x in Nodes(n)
      ensures exists k :: 0 <= k < |cc| && x in cc[k]
    {
      assert x in multiset(Nodes(n));
      FlattenMember(cc, x);
    }
    forall k, l, x | 0 <= k < |cc| && 0 <= l < |cc| && x in cc[k] && x in cc[l]
      ensures k == l
    {
      if k < l {
        FlattenTwice(cc, k, l, x);
      } else if l < k {
        FlattenTwice(cc, l, k, x);
      }
      FlattenHolds(cc, k);
      assert multiset(Nodes(n))[x] <= 1;
    }
  }

  /** What `getComp` knows after the nodes below some index are visited. */
  ghost predicate FinderState(m: Matrix, vis: seq<bool>, cc: seq<seq<nat>>)
  {
    |vis| == |m| &&
    multiset(Flatten(cc)) == multiset(Marked(vis)) &&
    (forall k :: 0 <= k < |cc| ==> IsComponent(m, cc[k])) &&
    ClosedIn(m, Marked(vis), Nodes(|m|))
  }

  /** What `DFS` collects from an unvisited node, when the visited nodes are
      closed, is closed in the whole table. */
  lemma NewComponentClosed(m: Matrix, vis0: seq<bool>, c: seq<nat>, i: nat)
    requires IsSquare(m) && |vis0| == |m| && ClosedIn(m, Marked(vis0), Nodes(|m|))
    requires Elems(c) == ReachSet(m, Unmarked(vis0), i)
    ensures ClosedIn(m, Elems(c), Nodes(|m|))
  {
    ReachSetClosed(m, Unmarked(vis0), i);
    forall x: nat, w: nat | x in Elems(c) && w in Nodes(|m|) && Adjacent(m, x, w)
      ensures w in Elems(c)
    {
      if w in Marked(vis0) {
        assert Adjacent(m, w, x);
        assert false;
      }
    }
  }

  /** Any two nodes `DFS` collects from i are connected in the whole table. */
  lemma NewComponentConnected(m: Matrix, vis0: seq<bool>, c: seq<nat>, i: nat)
    requires |vis0| == |m| && Elems(c) == ReachSet(m, Unmarked(vis0), i)
    ensures forall x: nat, y: nat :: x in c && y in c ==> Connected(m, x, y)
  {
    var u0 := Unmarked(vis0);
    assert u0 <= Nodes(|m|);
    forall x: nat, y: nat | x in c && y in c
      ensures Connected(m, x, y)
    {
      assert x in ReachSet(m, u0, i) && y in ReachSet(m, u0, i);
      ReachMono(m, m, u0, Nodes(|m|), i, x);
      ReachMono(m, m, u0, Nodes(|m|), i, y);
      ReachSymmetric(m, Nodes(|m|), i, x);
      ReachTrans(m, Nodes(|m|), x, i, y);
    }
  }

  lemma ClosedUnion(m: Matrix, a: set<nat>, b: set<nat>, s: set<nat>)
    requires ClosedIn(m, a, s) && ClosedIn(m, b, s)
    ensures ClosedIn(m, a + b, s)
  {
  }

  /** What `DFS` collects from an unvisited node is a closed connected component. */
  lemma NewComponent(m: Matrix, vis0: seq<bool>, c: seq<nat>, i: nat)
    requires IsSquare(m) && |vis0| == |m| && ClosedIn(m, Marked(vis0), Nodes(|m|))
    requires c != [] && Elems(c) == ReachSet(m, Unmarked(vis0), i)
    ensures IsComponent(m, c) && ClosedIn(m, Elems(c), Nodes(|m|))
  {
    NewComponentClosed(m, vis0, c, i);
    NewComponentConnected(m, vis0, c, i);
    forall x | x in c
      ensures x < |m|
    {
      assert x in ReachSet(m, Unmarked(vis0), i);
    }
    ClosedConnectedIsComponent(m, c);
  }

  /** Appending a list of new distinct nodes to lists covering `a` covers `a`
      and those nodes, each once. */
  lemma CoverStep(cc: seq<seq<nat>>, c: seq<nat>, a: set<nat>)
    requires multiset(Flatten(cc)) == multiset(a) && Distinct(c) && a !! Elems(c)
    ensures multiset(Flatten(cc + [c])) == multiset(a + Elems(c))
  {
    FlattenSnoc(cc, c);
    DistinctMultiset(c);
    DisjointUnion(a, Elems(c));
  }

  /** One more component found by `DFS` from the unvisited node i. */
  lemma FinderStep(m: Matrix, vis0: seq<bool>, vis1: seq<bool>, cc: seq<seq<nat>>, c: seq<nat>, i: nat)
    requires IsSquare(m) && FinderState(m, vis0, cc) && i < |m| && !vis0[i]
    requires |vis1| == |vis0| && Marked(vis0) <= Marked(vis1)
    requires |c| > 0 && c[0] == i && Distinct(c)
    requires Elems(c) == Marked(vis1) - Marked(vis0)
    requires Elems(c) == ReachSet(m, Unmarked(vis0), i)
    ensures FinderState(m, vis1, cc + [c])
  {
    assert Marked(vis1) == Marked(vis0) + Elems(c);
    CoverStep(cc, c, Marked(vis0));
    NewComponent(m, vis0, c, i);
    ClosedUnion(m, Marked(vis0), Elems(c), Nodes(|m|));
  }

  /** The order `getComp` finds components in: each list starts at its
      lowest node, lists in ascending order of that node, all below `i`. */
  ghost predicate FoundInOrder(cc: seq<seq<nat>>, i: nat)
  {
    (forall k :: 0 <= k < |cc| ==> cc[k] != [] && cc[k][0] < i) &&
    (forall k, x :: 0 <= k < |cc| && x in cc[k] ==> cc[k][0] <= x) &&
    (forall k, l :: 0 <= k < l < |cc| ==> cc[k][0] < cc[l][0])
  }

  lemma FoundInOrderStep(cc: seq<seq<nat>>, c: seq<nat>, i: nat)
    requires FoundInOrder(cc, i) && c != [] && c[0] == i
    requires forall x :: x in c ==> i <= x
    ensures FoundInOrder(cc + [c], i + 1)
  {
  }

  /** A search from the lowest unvisited node i leaves 0 .. i visited and
      collects no node below i. */
  lemma VisitedStep(vis0: seq<bool>, vis1: seq<bool>, c: seq<nat>, i: nat)
    requires i < |vis0| == |vis1| && !vis0[i] && forall x :: 0 <= x < i ==> vis0[x]
    requires Marked(vis0) <= Marked(vis1)
    requires c != [] && c[0] == i && Elems(c) == Marked(vis1) - Marked(vis0)
    ensures forall x :: 0 <= x <= i ==> vis1[x]
    ensures forall x :: x in c ==> i <= x
  {
    assert c[0] in Elems(c);
    forall x | 0 <= x <= i
      ensures vis1[x]
    {
      assert x == i || x in Marked(vis0);
      assert x in Marked(vis1);
    }
    forall x | x in c
      ensures i <= x
    {
      assert x in Elems(c) && x !in Marked(vis0);
    }
  }

  /** The state of `getComp` before node i: nodes below i visited, the
      components found so far in order and covering exactly the visited nodes. */
  ghost predicate FinderLoop(m: Matrix, vis: seq<bool>, cc: seq<seq<nat>>, i: nat)
  {
    i <= |vis| &&
    (forall x :: 0 <= x < i ==> vis[x]) &&
    FinderState(m, vis, cc) &&
    FoundInOrder(cc, i)
  }

  /** Node i unvisited: the search from it adds one component. */
  lemma FinderLoopStep(m: Matrix, vis0: seq<bool>, vis1: seq<bool>, cc: seq<seq<nat>>, c: seq<nat>, i: nat)
    requires IsSquare(m) && FinderLoop(m, vis0, cc, i) && i < |m| && !vis0[i]
    requires |vis1| == |vis0| && Marked(vis0) <= Marked(vis1)
    requires |c| > 0 && c[0] == i && Distinct(c)
    requires Elems(c) == Marked(vis1) - Marked(vis0)
    requires Elems(c) == ReachSet(m, Unmarked(vis0), i)
    ensures FinderLoop(m, vis1, cc + [c], i + 1)
  {
    FinderStep(m, vis0, vis1, cc, c, i);
    VisitedStep(vis0, vis1, c, i);
    FoundInOrderStep(cc, c, i);
  }

  /** Once every node is visited, the components found partition the nodes. */
  lemma FinderDone(m: Matrix, vis: seq<bool>, cc: seq<seq<nat>>)
    requires FinderState(m, vis, cc)
    requires forall x :: 0 <= x < |vis| ==> vis[x]
    ensures IsComponentPartition(m, cc)
  {
    assert Marked(vis) == Nodes(|m|);
  }

  /** `getComp(adj)`: the connected components of the table, in ascending
      order of their lowest node, each list starting at that node. */
  method GetComp(adj: array2<bool>) returns (cc: seq<seq<nat>>)
    requires adj.Length0 == adj.Length1
    ensures IsComponentPartition(Snapshot(adj), cc)
    ensures FoundInOrder(cc, adj.Length0)
  {
    var n := adj.Length0;
    SnapshotEntries(adj);
    ghost var m := Snapshot(adj);
    var visited := new bool[n](_ => false);
    cc := [];
    assert Marked(visited[..]) == {};
    for i := 0 to n
      invariant FinderLoop(m, visited[..], cc, i)
    {
      if !visited[i] {
        ghost var vis0 := visited[..];
        var temp := [];
        var c := DFS(temp, i, visited, adj);
        assert c[|temp|..] == c;
        FinderLoopStep(m, vis0, visited[..], cc, c, i);
        cc := cc + [c];
      }
    }
    FinderDone(m, visited[..], cc);
  }

  /** One component exactly when the graph is connected (for a non-empty table). */
  lemma OneComponentIffConnected(m: Matrix, cc: seq<seq<nat>>)
    requires IsComponentPartition(m, cc) && |m| > 0
    ensures |cc| == 1 <==> forall x: nat, y: nat :: x < |m| && y < |m| ==> Connected(m, x, y)
  {
    PartitionExactlyOnce(cc, |m|);
    if |cc| == 1 {
      forall x: nat, y: nat | x < |m| && y < |m|
        ensures Connected(m, x, y)
      {
        assert x in Nodes(|m|) && y in Nodes(|m|);
        assert x in cc[0] && y in cc[0];
      }
    }
    if forall x: nat, y: nat :: x < |m| && y < |m| ==> Connected(m, x, y) {
      assert 0 in Nodes(|m|);
      var x, y := cc[0][0], cc[|cc| - 1][0];
      assert x in cc[0] && y in cc[|cc| - 1];
      assert Connected(m, x, y);
      assert y in cc[0];
    }
  }
}
