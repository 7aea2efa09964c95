/** Division facts and the 16-bit and 32-bit words of the C targets. */
module Arith {

  const U16 := 0x1_0000
  const U32 := 0x1_0000_0000

  function Max(a: nat, b: nat): nat { if a < b then b else a }

  function Min(a: nat, b: nat): nat { if a < b then a else b }

  lemma MulMonotone(a: nat, b: nat, d: nat)
    requires a <= b
    ensures a * d <= b * d
  {
  }

  lemma OneMore(q: nat, d: nat)
    ensures (q + 1) * d == q * d + d
  {
  }

  /** A larger multiple is at least one d larger. */
  lemma Above(p: nat, q: nat, d: nat)
    ensures p > q ==> p * d >= q * d + d
  {
    if p > q {
      OneMore(q, d);
      MulMonotone(q + 1, p, d);
    }
  }

  lemma NotAbove(p: nat, r: nat, q: nat, s: nat, d: nat)
    requires r < d && s < d && p * d + r == q * d + s
    ensures p <= q
  {
    Above(p, q, d);
  }

  /** Quotient and remainder are determined by the equation. */
  lemma DivModUnique(x: nat, q: nat, r: nat, d: nat)
    requires d > 0 && r < d && x == q * d + r
    ensures x / d == q && x % d == r
  {
    NotAbove(x / d, x % d, q, r, d);
    NotAbove(q, r, x / d, x % d, d);
  }

  lemma ModSmall(x: nat, d: nat)
    requires x < d
    ensures x % d == x
  {
  }

  /** Adding multiples of d changes nothing modulo d. */
  lemma ModShift(k: nat, x: nat, d: nat)
    requires d > 0
    ensures (k * d + x) % d == x % d
  {
    var q, r := x / d, x % d;
    assert x == q * d + r;
    assert (k + q) * d + r == k * d + x;
    DivModUnique(k * d + x, k + q, r, d);
  }

  /** Reducing a summand first changes nothing. */
  lemma ModSum(x: nat, y: nat, d: nat)
    requires d > 0
    ensures (x % d + y) % d == (x + y) % d
  {
    var q := x / d;
    assert x + y == q * d + (x % d + y);
    ModShift(q, x % d + y, d);
  }

  /** Below 2 d the remainder is one subtraction. */
  lemma ModOnce(x: nat, d: nat)
    requires 0 < d && x < 2 * d
    ensures x % d == if x < d then x else x - d
  {
    if x >= d {
      DivModUnique(x, 1, x - d, d);
    } else {
      ModSmall(x, d);
    }
  }

  /** Two numbers less than d apart have different remainders. */
  lemma ModDistinct(x: nat, y: nat, d: nat)
    requires d > 0 && x < y < x + d
    ensures x % d != y % d
  {
    var r := x % d;
    ModSum(x, y - x, d);
    ModOnce(r + (y - x), d);
  }

  /** A divisor of a modulus sees the same remainder through it. */
  lemma ModThrough(x: nat, d: nat, k: nat)
    requires d > 0 && k > 0
    ensures k * d > 0 && (x % (k * d)) % d == x % d
  {
    MulMonotone(1, k, d);
    var m := k * d;
    var q := x / m;
    assert x == q * m + x % m;
    assert q * m == (q * k) * d;
    ModShift(q * k, x % m, d);
  }

  /** How far an index is from the first entry of a ring. */
  function Offset(first: nat, capacity: nat, index: nat): int {
    if index >= first then index - first else index + capacity - first
  }

  /** Index of the i-th entry of a ring of that capacity that starts at first. */
  function At(first: nat, capacity: nat, i: nat): (index: nat)
    requires first < capacity && i < capacity
    ensures index < capacity && Offset(first, capacity, index) == i
  {
    if first + i < capacity then first + i else first + i - capacity
  }

  lemma AtIsMod(first: nat, capacity: nat, i: nat)
    requires first < capacity && i < capacity
    ensures At(first, capacity, i) == (first + i) % capacity
  {
    ModOnce(first + i, capacity);
  }

  /** The index after k in a circular buffer. */
  function NextIndex(k: nat, capacity: nat): (n: nat)
    requires capacity > 0
    ensures n < capacity
  {
    (k + 1) % capacity
  }

  /** The index behind `count` entries from `first` on. */
  function EndIndex(first: nat, count: nat, capacity: nat): (n: nat)
    requires capacity > 0
    ensures n < capacity
  {
    (first + count) % capacity
  }

  lemma EndPush(first: nat, count: nat, capacity: nat)
    requires first < capacity
    ensures EndIndex(first, count + 1, capacity) == NextIndex(EndIndex(first, count, capacity), capacity)
    ensures count < capacity ==> EndIndex(first, count, capacity) == At(first, capacity, count)
  {
    ModSum(first + count, 1, capacity);
    if count < capacity {
      AtIsMod(first, capacity, count);
    }
  }

  lemma EndPop(first: nat, count: nat, capacity: nat)
    requires first < capacity && 0 < count
    ensures EndIndex(NextIndex(first, capacity), count - 1, capacity) == EndIndex(first, count, capacity)
  {
    ModSum(first + 1, count - 1, capacity);
  }

  /** The `count` entries of a circular buffer from `first` on. */
  function Wrapped<T>(cells: seq<T>, first: nat, count: nat): (q: seq<T>)
    requires first < |cells| && count <= |cells|
    ensures |q| == count
  {
    seq(count, i requires 0 <= i < count => cells[At(first, |cells|, i)])
  }

  lemma WrappedPush<T>(cells: seq<T>, first: nat, count: nat, x: T)
    requires first < |cells| && count < |cells|
    ensures Wrapped(cells[At(first, |cells|, count) := x], first, count + 1) == Wrapped(cells, first, count) + [x]
  {
  }

  lemma WrappedPop<T>(cells: seq<T>, first: nat, count: nat, x: T)
    requires first < |cells| && 0 < count <= |cells|
    ensures Wrapped(cells, first, count)[0] == cells[first]
    ensures Wrapped(cells[first := x], NextIndex(first, |cells|), count - 1) == Wrapped(cells, first, count)[1..]
    ensures Wrapped(cells, NextIndex(first, |cells|), count - 1) == Wrapped(cells, first, count)[1..]
  {
    ModOnce(first + 1, |cells|);
    var next := NextIndex(first, |cells|);
    forall i | 0 <= i < count - 1
      ensures At(next, |cells|, i) == At(first, |cells|, i + 1) != first {
    }
  }
}
