/** Sizes of finite sets of numbers. */
module Sets {

  function Below(n: nat): (b: set<nat>)
    ensures forall k: nat :: k in b <==> k < n
    ensures |b| == n
  {
    if n == 0 then {} else Below(n - 1) + {n - 1}
  }

  function Ids(q: seq<nat>): (ids: set<nat>)
    ensures forall k: nat :: k in ids <==> k in q
    ensures (forall i, j :: 0 <= i < j < |q| ==> q[i] != q[j]) ==> |ids| == |q|
  {
    if |q| == 0 then {}
    else
      assert q == q[..|q| - 1] + [q[|q| - 1]];
      Ids(q[..|q| - 1]) + {q[|q| - 1]}
  }

  lemma {:induction false} Smaller(a: set<nat>, b: set<nat>)
    requires a <= b
    ensures |a| <= |b|
  {
    if a != {} {
      var x :| x in a;
      Smaller(a - {x}, b - {x});
    }
  }
}
