/** Lists of node indices and lists of such lists, as the component finder
    and the repair step build them. */
module Lists {

  predicate Distinct(s: seq<nat>)
  {
    forall i, j :: 0 <= i < j < |s| ==> s[i] != s[j]
  }

  function Elems(s: seq<nat>): set<nat>
  {
    set x | x in s
  }

  lemma ElemsConcat(a: seq<nat>, b: seq<nat>)
    ensures Elems(a + b) == Elems(a) + Elems(b)
  {
  }

  /** All members of all lists, in order. */
  function Flatten(ss: seq<seq<nat>>): (r: seq<nat>)
  {
    if ss == [] then [] else Flatten(ss[..|ss| - 1]) + ss[|ss| - 1]
  }

  /** The list left by Python's `s.pop(k)`. */
  function Remove<T>(s: seq<T>, k: nat): (r: seq<T>)
    requires k < |s|
    ensures |r| == |s| - 1
    ensures forall x :: x in r ==> x in s
  {
    s[..k] + s[k + 1..]
  }

  lemma {:induction false} FlattenConcat(a: seq<seq<nat>>, b: seq<seq<nat>>)
    ensures Flatten(a + b) == Flatten(a) + Flatten(b)
    decreases |b|
  {
    if b != [] {
      var b' := b[..|b| - 1];
      assert (a + b)[..|a + b| - 1] == a + b';
      FlattenConcat(a, b');
    } else {
      assert a + b == a;
    }
  }

  lemma FlattenSingle(s: seq<nat>)
    ensures Flatten([s]) == s
  {
    assert [s][..0] == [];
  }

  lemma FlattenSnoc(ss: seq<seq<nat>>, s: seq<nat>)
    ensures Flatten(ss + [s]) == Flatten(ss) + s
  {
    assert (ss + [s])[..|ss|] == ss;
  }

  /** Flattening around position k. */
  lemma {:induction false} FlattenAround(ss: seq<seq<nat>>, k: nat)
    requires k < |ss|
    ensures Flatten(ss) == Flatten(ss[..k]) + ss[k] + Flatten(ss[k + 1..])
  {
    var front, back := ss[..k], [ss[k]] + ss[k + 1..];
    assert ss == front + back;
    FlattenConcat(front, back);
    FlattenConcat([ss[k]], ss[k + 1..]);
    FlattenSingle(ss[k]);
  }

  /** Popping list k leaves every other member in place. */
  lemma RemoveFlatten(ss: seq<seq<nat>>, k: nat)
    requires k < |ss|
    ensures multiset(Flatten(ss)) == multiset(Flatten(Remove(ss, k))) + multiset(ss[k])
  {
    FlattenAround(ss, k);
    FlattenConcat(ss[..k], ss[k + 1..]);
  }

  lemma FlattenHolds(ss: seq<seq<nat>>, k: nat)
    requires k < |ss|
    ensures multiset(ss[k]) <= multiset(Flatten(ss))
    ensures forall x :: x in ss[k] ==> x in Flatten(ss)
  {
    FlattenAround(ss, k);
  }

  lemma {:induction false} FlattenMember(ss: seq<seq<nat>>, x: nat)
    requires x in Flatten(ss)
    ensures exists k :: 0 <= k < |ss| && x in ss[k]
  {
    if ss != [] {
      if x !in ss[|ss| - 1] {
        FlattenMember(ss[..|ss| - 1], x);
        var k :| 0 <= k < |ss| - 1 && x in ss[..|ss| - 1][k];
        assert x in ss[k];
      }
    }
  }

  /** Two different lists of `ss` share no member that occurs once in the whole. */
  lemma FlattenTwice(ss: seq<seq<nat>>, i: nat, j: nat, x: nat)
    requires i < j < |ss| && x in ss[i] && x in ss[j]
    ensures multiset(Flatten(ss))[x] >= 2
  {
    FlattenAround(ss, j);
    FlattenHolds(ss[..j], i);
    assert ss[..j][i] == ss[i];
    assert multiset(Flatten(ss[..j]))[x] >= 1;
  }

  lemma {:induction false} DistinctMultiset(s: seq<nat>)
    requires Distinct(s)
    ensures multiset(s) == multiset(Elems(s))
  {
    if s != [] {
      var s' := s[..|s| - 1];
      assert s == s' + [s[|s| - 1]];
      DistinctMultiset(s');
      assert s[|s| - 1] !in Elems(s');
      assert Elems(s) == Elems(s') + {s[|s| - 1]};
    }
  }

  lemma DisjointUnion(a: set<nat>, b: set<nat>)
    requires a !! b
    ensures multiset(a) + multiset(b) == multiset(a + b)
  {
    forall x
      ensures (multiset(a) + multiset(b))[x] == multiset(a + b)[x]
    {
    }
  }

  lemma DistinctConcat(a: seq<nat>, b: seq<nat>)
    requires Distinct(a) && Distinct(b) && Elems(a) !! Elems(b)
    ensures Distinct(a + b)
  {
    var c := a + b;
    forall i, j | 0 <= i < j < |c|
      ensures c[i] != c[j]
    {
      if i < |a| && |a| <= j {
        assert c[i] in Elems(a) && c[j] == b[j - |a|] && c[j] in Elems(b);
      }
    }
  }
}
