/** Writing the table as GraphML: `write`.

    The program writes a fixed header, one node element per index in
    ascending order, one edge element per set entry (i, j) with i < j in
    row-major order, and a fixed footer, each with one `f.write` call. The
    file is modelled as the sequence of those chunks; the file name and
    the opening and closing of the file are left out. A reader for the same
    format is the writer's partner: it recovers the node count and the edge
    list from a written file. */
module Writer {
  import opened Tables
  import opened Options

  const Header: string := "<?xml version=\"1.0\" encoding=\"UTF-8\"?>\n<graphml xmlns=\"http://graphml.graphdrawing.org/xmlns\"  \n    xmlns:xsi=\"http://www.w3.org/2001/XMLSchema-instance\"\n    xsi:schemaLocation=\"http://graphml.graphdrawing.org/xmlns\n     http://graphml.graphdrawing.org/xmlns/1.0/graphml.xsd\">\n  <graph id=\"G\" edgedefault=\"undirected\">\n"
  const Footer: string := "  </graph>\n</graphml>"

  const NodeOpen: string := "<node id=\""
  const EdgeOpen: string := "<edge source=\""
  const EdgeMid: string := "\" target=\""
  const Close: string := "\"/>\n"

  /* ---------------------------------------------------------------------- */
  /* Decimal numerals, as Python's `str` writes a non-negative int           */

  predicate IsDigit(c: char)
  {
    '0' <= c <= '9'
  }

  predicate AllDigits(s: string)
  {
    forall i :: 0 <= i < |s| ==> IsDigit(s[i])
  }

  function Digit(d: nat): (c: char)
    requires d < 10
    ensures IsDigit(c) && c as int - '0' as int == d
  {
    ('0' as int + d) as char
  }

  /** The decimal numeral of k: digits only, no leading zero. */
  function NatToString(k: nat): (s: string)
    ensures |s| > 0 && AllDigits(s)
    ensures s[0] == '0' ==> k == 0
    decreases k
  {
    if k < 10 then [Digit(k)] else NatToString(k / 10) + [Digit(k % 10)]
  }

  /** The number a string of digits denotes. */
  function Value(s: string): nat
    requires AllDigits(s)
  {
    if s == [] then 0 else Value(s[..|s| - 1]) * 10 + (s[|s| - 1] as int - '0' as int)
  }

  function ParseDecimal(s: string): Option<nat>
  {
    if s != [] && AllDigits(s) then Some(Value(s)) else None
  }

  /** Reading a numeral back gives the number written. */
  lemma {:induction false} ParseNatToString(k: nat)
    ensures ParseDecimal(NatToString(k)) == Some(k)
    decreases k
  {
    var s := NatToString(k);
    if k >= 10 {
      ParseNatToString(k / 10);
      assert s[..|s| - 1] == NatToString(k / 10);
      assert s[|s| - 1] == Digit(k % 10);
      assert Value(s) == (k / 10) * 10 + k % 10;
    }
  }

  /** The number of leading digits of s. */
  function DigitRun(s: string): (r: nat)
    ensures r <= |s| && AllDigits(s[..r])
    ensures r < |s| ==> !IsDigit(s[r])
  {
    if s == [] || !IsDigit(s[0]) then 0
    else
      assert s[..1 + DigitRun(s[1..])] == [s[0]] + s[1..][..DigitRun(s[1..])];
      1 + DigitRun(s[1..])
  }

  lemma {:induction false} DigitRunOf(d: string, t: string)
    requires AllDigits(d) && (t == [] || !IsDigit(t[0]))
    ensures DigitRun(d + t) == |d|
  {
    if d != [] {
      assert (d + t)[1..] == d[1..] + t;
      DigitRunOf(d[1..], t);
    } else {
      assert d + t == t;
    }
  }

  /* ---------------------------------------------------------------------- */
  /* Elements                                                                */

  function NodeElement(i: nat): string
  {
    NodeOpen + NatToString(i) + Close
  }

  function EdgeElement(i: nat, j: nat): string
  {
    EdgeOpen + NatToString(i) + EdgeMid + NatToString(j) + Close
  }

  /** The node index in a node element, if the line is one. */
  function ReadNode(line: string): Option<nat>
  {
    if |line| >= |NodeOpen| + |Close| && line[..|NodeOpen|] == NodeOpen && line[|line| - |Close|..] == Close then
      ParseDecimal(line[|NodeOpen|..|line| - |Close|])
    else
      None
  }

  /** The source and target in an edge element, if the line is one. */
  function ReadEdge(line: string): Option<(nat, nat)>
  {
    if |line| >= |EdgeOpen| + |Close| && line[..|EdgeOpen|] == EdgeOpen && line[|line| - |Close|..] == Close then
      ReadEdgeBody(line[|EdgeOpen|..|line| - |Close|])
    else
      None
  }

  /** The two numerals of an edge element, around `EdgeMid`. */
  function ReadEdgeBody(body: string): Option<(nat, nat)>
  {
    var k := DigitRun(body);
    if k + |EdgeMid| <= |body| && body[k..k + |EdgeMid|] == EdgeMid then
      match (ParseDecimal(body[..k]), ParseDecimal(body[k + |EdgeMid|..]))
      case (Some(i), Some(j)) => Some((i, j))
      case _ => None
    else
      None
  }

  /** The parts of a line made of an opening, a middle and a closing. */
  lemma Unframe(open: string, mid: string, close: string)
    ensures (open + mid + close)[..|open|] == open
    ensures (open + mid + close)[|open + mid + close| - |close|..] == close
    ensures (open + mid + close)[|open|..|open + mid + close| - |close|] == mid
  {
    var line := open + mid + close;
    assert line[..|open|] == open;
    assert line[|line| - |close|..] == close;
    assert line[|open|..|line| - |close|] == mid;
  }

  lemma ReadNodeElement(i: nat)
    ensures ReadNode(NodeElement(i)) == Some(i)
  {
    Unframe(NodeOpen, NatToString(i), Close);
    ParseNatToString(i);
  }

  lemma ReadEdgeBodyOf(i: nat, j: nat)
    ensures ReadEdgeBody(NatToString(i) + EdgeMid + NatToString(j)) == Some((i, j))
  {
    var si, sj := NatToString(i), NatToString(j);
    var body := si + EdgeMid + sj;
    assert body == si + (EdgeMid + sj);
    DigitRunOf(si, EdgeMid + sj);
    assert body[..|si|] == si;
    assert body[|si|..|si| + |EdgeMid|] == EdgeMid;
    assert body[|si| + |EdgeMid|..] == sj;
    ParseNatToString(i);
    ParseNatToString(j);
  }

  lemma ReadEdgeElement(i: nat, j: nat)
    ensures ReadEdge(EdgeElement(i, j)) == Some((i, j))
  {
    var mid := NatToString(i) + EdgeMid + NatToString(j);
    assert EdgeElement(i, j) == EdgeOpen + mid + Close;
    Unframe(EdgeOpen, mid, Close);
    ReadEdgeBodyOf(i, j);
  }

  /* ---------------------------------------------------------------------- */
  /* The edges written, in the order written                                 */

  /** The pairs (i, v) with i < v < j whose entry is set, v ascending. */
  function RowPairs(m: Matrix, i: nat, j: nat): seq<(nat, nat)>
    decreases j
  {
    if j <= i + 1 then [] else RowPairs(m, i, j - 1) + (if Edge(m, i, j - 1) then [(i, j - 1)] else [])
  }

  /** The pairs written for rows 0 .. i-1, rows in ascending order. */
  function PairsBefore(m: Matrix, i: nat): seq<(nat, nat)>
  {
    if i == 0 then [] else PairsBefore(m, i - 1) + RowPairs(m, i - 1, |m|)
  }

  /** The edges `write` emits, in the order it emits them. */
  function EdgePairs(m: Matrix): seq<(nat, nat)>
  {
    PairsBefore(m, |m|)
  }

  lemma {:induction false} RowPairsMembers(m: Matrix, i: nat, j: nat)
    ensures forall u: nat, v: nat :: (u, v) in RowPairs(m, i, j) <==> u == i && i < v < j && Edge(m, i, v)
    decreases j
  {
    if j > i + 1 {
      RowPairsMembers(m, i, j - 1);
    }
  }

  lemma {:induction false} PairsBeforeMembers(m: Matrix, i: nat)
    ensures forall u: nat, v: nat :: (u, v) in PairsBefore(m, i) <==> u < i && u < v < |m| && Edge(m, u, v)
  {
    if i > 0 {
      PairsBeforeMembers(m, i - 1);
      RowPairsMembers(m, i - 1, |m|);
    }
  }

  /** Exactly the entries (u, v) with u < v are written as edges. */
  lemma EdgePairsMembers(m: Matrix)
    ensures forall u: nat, v: nat :: (u, v) in EdgePairs(m) <==> u < v < |m| && Edge(m, u, v)
  {
    PairsBeforeMembers(m, |m|);
  }

  /** p comes before q in row-major order. */
  predicate Before(p: (nat, nat), q: (nat, nat))
  {
    p.0 < q.0 || (p.0 == q.0 && p.1 < q.1)
  }

  predicate RowMajor(ps: seq<(nat, nat)>)
  {
    forall k, l :: 0 <= k < l < |ps| ==> Before(ps[k], ps[l])
  }

  lemma {:induction false} RowPairsOrdered(m: Matrix, i: nat, j: nat)
    ensures RowMajor(RowPairs(m, i, j))
    ensures forall k :: 0 <= k < |RowPairs(m, i, j)| ==> RowPairs(m, i, j)[k].0 == i && RowPairs(m, i, j)[k].1 < j
    decreases j
  {
    if j > i + 1 {
      RowPairsOrdered(m, i, j - 1);
    }
  }

  lemma {:induction false} PairsBeforeOrdered(m: Matrix, i: nat)
    ensures RowMajor(PairsBefore(m, i))
    ensures forall k :: 0 <= k < |PairsBefore(m, i)| ==> PairsBefore(m, i)[k].0 < i
  {
    if i > 0 {
      var a, b := PairsBefore(m, i - 1), RowPairs(m, i - 1, |m|);
      PairsBeforeOrdered(m, i - 1);
      RowPairsOrdered(m, i - 1, |m|);
      var c := a + b;
      forall k, l | 0 <= k < l < |c|
        ensures Before(c[k], c[l])
      {
        if l < |a| {
          assert c[k] == a[k] && c[l] == a[l];
        } else if k < |a| {
          assert c[k] == a[k] && c[l] == b[l - |a|];
        } else {
          assert c[k] == b[k - |a|] && c[l] == b[l - |a|];
        }
      }
    }
  }

  /** Edges are written in strictly ascending row-major order, so each once. */
  lemma EdgePairsOrdered(m: Matrix)
    ensures RowMajor(EdgePairs(m))
  {
    PairsBeforeOrdered(m, |m|);
  }

  /* ---------------------------------------------------------------------- */
  /* The document                                                            */

  function NodeLines(n: nat): (r: seq<string>)
    ensures |r| == n
  {
    seq(n, i requires 0 <= i => NodeElement(i))
  }

  function EdgeLines(ps: seq<(nat, nat)>): (r: seq<string>)
    ensures |r| == |ps|
  {
    seq(|ps|, k requires 0 <= k < |ps| => EdgeElement(ps[k].0, ps[k].1))
  }

  /** The chunks `write` hands to `f.write`, in order. */
  function Document(m: Matrix): seq<string>
  {
    [Header] + NodeLines(|m|) + EdgeLines(EdgePairs(m)) + [Footer]
  }

  /** One more column of row i: its element follows when the entry is set. */
  lemma RowStep(m: Matrix, i: nat, j: nat)
    requires i < j
    ensures EdgeLines(PairsBefore(m, i) + RowPairs(m, i, j + 1)) ==
      EdgeLines(PairsBefore(m, i) + RowPairs(m, i, j)) + (if Edge(m, i, j) then [EdgeElement(i, j)] else [])
  {
    var ps := PairsBefore(m, i) + RowPairs(m, i, j);
    if Edge(m, i, j) {
      assert PairsBefore(m, i) + RowPairs(m, i, j + 1) == ps + [(i, j)];
      assert EdgeLines(ps + [(i, j)]) == EdgeLines(ps) + [EdgeElement(i, j)];
    } else {
      assert PairsBefore(m, i) + RowPairs(m, i, j + 1) == ps;
    }
  }

  /** `write(adj, fileName)`: the chunks written to the file. */
  method Write(adj: array2<bool>) returns (file: seq<string>)
    requires adj.Length0 == adj.Length1
    ensures file == Document(Snapshot(adj))
  {
    var n := adj.Length0;
    SnapshotEntries(adj);
    ghost var m := Snapshot(adj);
    file := [Header];
    for i := 0 to n
      invariant file == [Header] + NodeLines(i)
    {
      assert NodeLines(i + 1) == NodeLines(i) + [NodeElement(i)];
      file := file + [NodeElement(i)];
    }
    ghost var front := file;
    for i := 0 to n
      invariant file == front + EdgeLines(PairsBefore(m, i))
    {
      for j := i + 1 to n
        invariant file == front + EdgeLines(PairsBefore(m, i) + RowPairs(m, i, j))
      {
        RowStep(m, i, j);
        if adj[i, j] {
          file := file + [EdgeElement(i, j)];
        }
      }
    }
    file := file + [Footer];
  }

  /* ---------------------------------------------------------------------- */
  /* Reading a document back                                                 */

  predicate IsNodeLine(s: string)
  {
    |s| >= |NodeOpen| && s[..|NodeOpen|] == NodeOpen
  }

  /** The number of node elements at the front of `lines`. */
  function CountNodes(lines: seq<string>): (r: nat)
    ensures r <= |lines|
  {
    if lines == [] || !IsNodeLine(lines[0]) then 0 else 1 + CountNodes(lines[1..])
  }

  /** The edges of a run of edge elements; None if a line is not one. */
  function ReadEdges(lines: seq<string>): Option<seq<(nat, nat)>>
  {
    if lines == [] then Some([])
    else
      match (ReadEdge(lines[0]), ReadEdges(lines[1..]))
      case (Some(p), Some(ps)) => Some([p] + ps)
      case _ => None
  }

  /** The node count and the edges of a GraphML document in this format. */
  function ReadGraph(doc: seq<string>): Option<(nat, seq<(nat, nat)>)>
  {
    if |doc| < 2 || doc[0] != Header || doc[|doc| - 1] != Footer then None
    else
      var body := doc[1..|doc| - 1];
      var n := CountNodes(body);
      if forall k :: 0 <= k < n ==> ReadNode(body[k]) == Some(k) then
        match ReadEdges(body[n..])
        case Some(es) => Some((n, es))
        case None => None
      else
        None
  }

  lemma {:induction false} CountNodeLines(n: nat, k: nat, rest: seq<string>)
    requires k <= n
    requires rest == [] || !IsNodeLine(rest[0])
    ensures CountNodes(NodeLines(n)[k..] + rest) == n - k
    decreases n - k
  {
    var lines := NodeLines(n)[k..] + rest;
    if k < n {
      assert lines[0] == NodeElement(k);
      assert lines[1..] == NodeLines(n)[k + 1..] + rest;
      CountNodeLines(n, k + 1, rest);
    } else {
      assert lines == rest;
    }
  }

  lemma {:induction false} ReadEdgeLines(ps: seq<(nat, nat)>)
    ensures ReadEdges(EdgeLines(ps)) == Some(ps)
  {
    if ps != [] {
      ReadEdgeElement(ps[0].0, ps[0].1);
      assert EdgeLines(ps)[1..] == EdgeLines(ps[1..]);
      ReadEdgeLines(ps[1..]);
      assert [ps[0]] + ps[1..] == ps;
    }
  }

  /** Reading a written document gives back the node count and the edges in
      the order written. */
  lemma ReadWritten(m: Matrix)
    ensures ReadGraph(Document(m)) == Some((|m|, EdgePairs(m)))
  {
    var doc := Document(m);
    var n, es := |m|, EdgePairs(m);
    var body := doc[1..|doc| - 1];
    assert body == NodeLines(n) + EdgeLines(es);
    var tail := EdgeLines(es) + [Footer];
    assert tail[0][1] == if es == [] then ' ' else 'e';
    assert doc[1..] == NodeLines(n)[0..] + tail;
    CountNodeLines(n, 0, EdgeLines(es));
    assert NodeLines(n)[0..] == NodeLines(n);
    forall k | 0 <= k < n
      ensures ReadNode(body[k]) == Some(k)
    {
      ReadNodeElement(k);
    }
    assert body[n..] == EdgeLines(es);
    ReadEdgeLines(es);
  }

  /** The table with entry (i, j) set when (i, j) or (j, i) is listed. */
  function FromEdges(n: nat, es: seq<(nat, nat)>): (m: Matrix)
    ensures |m| == n && IsSquare(m)
  {
    seq(n, i requires 0 <= i < n => seq(n, j requires 0 <= j < n => (i, j) in es || (j, i) in es))
  }

  /** A symmetric table with a zero diagonal is rebuilt from its written edges. */
  lemma Rebuild(m: Matrix)
    requires IsSquare(m) && Symmetric(m) && ZeroDiagonal(m)
    ensures FromEdges(|m|, EdgePairs(m)) == m
  {
    var r := FromEdges(|m|, EdgePairs(m));
    EdgePairsMembers(m);
    forall i | 0 <= i < |m|
      ensures r[i] == m[i]
    {
      forall j | 0 <= j < |m|
        ensures r[i][j] == m[i][j]
      {
        assert Edge(m, i, j) == m[i][j];
        assert !Edge(m, i, i);
      }
    }
  }

  /** The written file determines a symmetric, zero-diagonal table. */
  lemma WrittenDeterminesTable(m1: Matrix, m2: Matrix)
    requires IsSquare(m1) && Symmetric(m1) && ZeroDiagonal(m1)
    requires IsSquare(m2) && Symmetric(m2) && ZeroDiagonal(m2)
    requires Document(m1) == Document(m2)
    ensures m1 == m2
  {
    ReadWritten(m1);
    ReadWritten(m2);
    Rebuild(m1);
    Rebuild(m2);
  }
}
