/** Lists of numbers with one taken out. */
module Seqs {

  /** A list with every occurrence of one number taken out. */
  function Without(q: seq<nat>, x: nat): seq<nat> {
    if |q| == 0 then [] else Without(q[..|q| - 1], x) + (if q[|q| - 1] == x then [] else [q[|q| - 1]])
  }

  /** Taking a number out keeps exactly the others, in their order. */
  lemma {:induction false} WithoutMembers(q: seq<nat>, x: nat)
    ensures |Without(q, x)| <= |q|
    ensures forall y :: y in Without(q, x) <==> y in q && y != x
  {
    if |q| > 0 {
      WithoutMembers(q[..|q| - 1], x);
      assert q == q[..|q| - 1] + [q[|q| - 1]];
    }
  }

  /** If the entries are in an order, the ones that stay are in it too. */
  lemma {:induction false} WithoutKeepsOrder(q: seq<nat>, x: nat, rank: seq<nat>)
    requires forall i :: 0 <= i < |q| ==> q[i] < |rank|
    requires forall i, j :: 0 <= i < j < |q| ==> rank[q[i]] < rank[q[j]]
    ensures var w := Without(q, x);
      (forall i :: 0 <= i < |w| ==> w[i] < |rank|) && forall i, j :: 0 <= i < j < |w| ==> rank[w[i]] < rank[w[j]]
  {
    if |q| > 0 {
      var p := q[..|q| - 1];
      WithoutKeepsOrder(p, x, rank);
      WithoutMembers(p, x);
      var w := Without(p, x);
      forall i | 0 <= i < |w| ensures rank[w[i]] < rank[q[|q| - 1]] {
        assert w[i] in p;
      }
    }
  }

  lemma {:induction false} WithoutAbsent(q: seq<nat>, x: nat)
    requires x !in q
    ensures Without(q, x) == q
  {
    if |q| > 0 {
      WithoutAbsent(q[..|q| - 1], x);
      assert q == q[..|q| - 1] + [q[|q| - 1]];
    }
  }

  lemma WithoutNext(q: seq<nat>, i: nat, x: nat)
    requires i < |q|
    ensures Without(q[..i + 1], x) == Without(q[..i], x) + (if q[i] == x then [] else [q[i]])
  {
    assert q[..i + 1][..i] == q[..i];
  }

  lemma {:induction false} WithoutConcat(p: seq<nat>, q: seq<nat>, x: nat)
    ensures Without(p + q, x) == Without(p, x) + Without(q, x)
  {
    if |q| == 0 {
      assert p + q == p;
    } else {
      WithoutConcat(p, q[..|q| - 1], x);
      assert (p + q)[..|p + q| - 1] == p + q[..|q| - 1];
    }
  }

  predicate Distinct(q: seq<nat>) {
    forall i, j :: 0 <= i < j < |q| ==> q[i] != q[j]
  }

  lemma {:induction false} WithoutDistinct(q: seq<nat>, x: nat)
    requires Distinct(q)
    ensures Distinct(Without(q, x))
  {
    if |q| > 0 {
      WithoutDistinct(q[..|q| - 1], x);
      WithoutMembers(q[..|q| - 1], x);
      var w := Without(q[..|q| - 1], x);
      forall i | 0 <= i < |w| ensures w[i] != q[|q| - 1] {
        assert w[i] in q[..|q| - 1];
      }
    }
  }

  lemma {:induction false} WithoutOne(q: seq<nat>, k: nat)
    requires k < |q| && Distinct(q)
    ensures Without(q, q[k]) == q[..k] + q[k + 1..]
  {
    var p := q[..|q| - 1];
    if k == |q| - 1 {
      WithoutAbsent(p, q[k]);
    } else {
      WithoutOne(p, k);
      hide Distinct;
      assert p[..k] == q[..k] && p[k + 1..] + [q[|q| - 1]] == q[k + 1..];
    }
  }
}
