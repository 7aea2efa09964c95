/** Bitwise operators of C on non-negative numbers, and the two bit tricks of the event queue:
    the power-of-two test and the round-up by smearing. */
module Bits {
  import opened Arith

  function Pow2(k: nat): (p: nat)
    ensures p > 0
  {
    if k == 0 then 1 else 2 * Pow2(k - 1)
  }

  function And(x: nat, y: nat): nat
    decreases x
  {
    if x == 0 then 0 else 2 * And(x / 2, y / 2) + (if x % 2 == 1 && y % 2 == 1 then 1 else 0)
  }

  function Or(x: nat, y: nat): nat
    decreases x + y
  {
    if x == 0 && y == 0 then 0 else 2 * Or(x / 2, y / 2) + (if x % 2 == 1 || y % 2 == 1 then 1 else 0)
  }

  function Shr(x: nat, k: nat): nat {
    if k == 0 then x else Shr(x / 2, k - 1)
  }

  ghost predicate IsPow2(n: nat) { exists k: nat :: n == Pow2(k) }

  lemma Mod2(x: nat, m: nat)
    requires m > 0
    ensures x % (2 * m) == 2 * ((x / 2) % m) + x % 2
  {
    var q, r := (x / 2) / m, (x / 2) % m;
    assert x / 2 == q * m + r;
    assert x == 2 * (q * m + r) + x % 2;
    assert q * (2 * m) == 2 * (q * m);
    DivModUnique(x, q, 2 * r + x % 2, 2 * m);
  }

  /** Masking with 2^k - 1 is the remainder modulo 2^k. */
  lemma {:induction false} MaskIsMod(x: nat, k: nat)
    ensures And(x, Pow2(k) - 1) == x % Pow2(k)
  {
    if k == 0 {
      AndZero(x);
    } else if x > 0 {
      assert (Pow2(k) - 1) / 2 == Pow2(k - 1) - 1 && (Pow2(k) - 1) % 2 == 1;
      MaskIsMod(x / 2, k - 1);
      Mod2(x, Pow2(k - 1));
    } else {
      ModSmall(0, Pow2(k));
    }
  }

  lemma {:induction false} AndZero(x: nat)
    ensures And(x, 0) == 0
  {
    if x > 0 {
      AndZero(x / 2);
    }
  }

  lemma {:induction false} AndSelf(x: nat)
    ensures And(x, x) == x
  {
    if x > 0 {
      AndSelf(x / 2);
    }
  }

  lemma HalfPow2(n: nat)
    requires n > 0 && n % 2 == 0
    ensures IsPow2(n) <==> IsPow2(n / 2)
  {
    if IsPow2(n) {
      var k: nat :| n == Pow2(k);
      assert n / 2 == Pow2(k - 1);
    }
    if IsPow2(n / 2) {
      var k: nat :| n / 2 == Pow2(k);
      assert n == Pow2(k + 1);
    }
  }

  lemma OddPow2(n: nat)
    requires n % 2 == 1
    ensures IsPow2(n) <==> n == 1
  {
    assert Pow2(0) == 1;
    forall k: nat ensures Pow2(k) == 1 || Pow2(k) % 2 == 0 {
      if k > 0 {
        assert Pow2(k) == 2 * Pow2(k - 1);
      }
    }
  }

  /** n & (n - 1) vanishes exactly on the powers of two, among positive n. */
  lemma {:induction false} PowerTest(n: nat)
    requires n > 0
    ensures And(n, n - 1) == 0 <==> IsPow2(n)
  {
    if n % 2 == 1 {
      OddPow2(n);
      assert (n - 1) / 2 == n / 2;
      AndSelf(n / 2);
    } else {
      HalfPow2(n);
      assert (n - 1) / 2 == n / 2 - 1;
      PowerTest(n / 2);
    }
  }

  lemma {:induction false} Pow2Sum(a: nat, b: nat)
    ensures Pow2(a + b) == Pow2(a) * Pow2(b)
  {
    if a > 0 {
      Pow2Sum(a - 1, b);
      assert Pow2(a) * Pow2(b) == 2 * (Pow2(a - 1) * Pow2(b));
    }
  }

  lemma {:induction false} Pow2Monotone(a: nat, b: nat)
    requires a <= b
    ensures Pow2(a) <= Pow2(b) && (a < b ==> 2 * Pow2(a) <= Pow2(b))
    decreases b - a
  {
    if a < b {
      Pow2Monotone(a + 1, b);
    }
  }

  lemma Pow2Is32()
    ensures Pow2(31) == 0x8000_0000 && Pow2(32) == U32
  {
    assert Pow2(8) == 256;
    Pow2Sum(8, 8);
    Pow2Sum(16, 8);
    assert Pow2(7) == 128;
    Pow2Sum(24, 7);
    Pow2Sum(24, 8);
  }

  // ---------- round_up_pow2 ----------

  /** The source's smear, on 32-bit words. */
  function Smear(v: nat): nat {
    var a := Or(v, Shr(v, 1));
    var b := Or(a, Shr(a, 2));
    var c := Or(b, Shr(b, 4));
    var d := Or(c, Shr(c, 8));
    Or(d, Shr(d, 16))
  }

  function RoundUpPow2(v: nat): nat
    requires v < U32
  {
    if v == 0 then 1 else (Smear(v - 1) + 1) % U32
  }

  lemma {:induction false} OrShr(x: nat, y: nat, m: nat)
    ensures Shr(Or(x, y), m) == Or(Shr(x, m), Shr(y, m))
  {
    if m > 0 {
      if x > 0 || y > 0 {
        assert Or(x, y) / 2 == Or(x / 2, y / 2);
      }
      OrShr(x / 2, y / 2, m - 1);
    }
  }

  lemma HalfThenDiv(x: nat, d: nat)
    requires d > 0
    ensures x / (2 * d) == (x / 2) / d
  {
    var q, r := (x / 2) / d, (x / 2) % d;
    assert x / 2 == q * d + r;
    MulDouble(q, d);
    DivModUnique(x, q, 2 * r + x % 2, 2 * d);
  }

  lemma {:induction false} ShrIsDiv(x: nat, k: nat)
    ensures Shr(x, k) == x / Pow2(k)
  {
    if k > 0 {
      ShrIsDiv(x / 2, k - 1);
      HalfThenDiv(x, Pow2(k - 1));
    }
  }

  lemma {:induction false} ShrShr(x: nat, a: nat, b: nat)
    ensures Shr(Shr(x, a), b) == Shr(x, a + b)
  {
    if a > 0 {
      ShrShr(x / 2, a - 1, b);
    }
  }

  lemma ShrZero(x: nat, m: nat)
    ensures Shr(x, m) == 0 <==> x < Pow2(m)
  {
    ShrIsDiv(x, m);
    if x < Pow2(m) {
      DivModUnique(x, 0, x, Pow2(m));
    }
  }

  lemma {:induction false} OrBound(x: nat, y: nat, m: nat)
    requires x < Pow2(m) && y < Pow2(m)
    ensures Or(x, y) < Pow2(m)
  {
    if m > 0 {
      OrBound(x / 2, y / 2, m - 1);
    }
  }

  function Ones(k: nat): nat { Pow2(k) - 1 }

  lemma {:induction false} OrOnes(x: nat, j: nat)
    ensures Or(x, Ones(j)) == Shr(x, j) * Pow2(j) + Ones(j)
  {
    if j == 0 {
      OrZero(x);
    } else {
      assert Ones(j) / 2 == Ones(j - 1) && Ones(j) % 2 == 1;
      OrOnes(x / 2, j - 1);
      MulDouble(Shr(x, j), Pow2(j - 1));
    }
  }

  lemma MulDouble(s: nat, p: nat)
    ensures s * (2 * p) == 2 * (s * p)
  {
  }

  lemma {:induction false} OrZero(x: nat)
    ensures Or(x, 0) == x
  {
    if x > 0 {
      OrZero(x / 2);
    }
  }

  lemma OnesShr(k: nat, d: nat)
    requires d <= k
    ensures Shr(Ones(k), d) == Ones(k - d)
  {
    ShrIsDiv(Ones(k), d);
    Pow2Sum(k - d, d);
    assert Ones(k) == (Pow2(k - d) - 1) * Pow2(d) + (Pow2(d) - 1);
    DivModUnique(Ones(k), Pow2(k - d) - 1, Pow2(d) - 1, Pow2(d));
  }

  /** w has length L and its k leading bits are ones. */
  predicate TopOnes(w: nat, L: nat, k: nat) {
    k <= L && w < Pow2(L) && Shr(w, L - k) == Ones(k)
  }

  /** The half of a run of k ones that stays above position d. */
  lemma LowerRun(w: nat, L: nat, k: nat, n: nat)
    requires TopOnes(w, L, k) && k <= n <= L && n <= 2 * k
    ensures Shr(Shr(w, k), L - n) == Ones(n - k)
    ensures Shr(Shr(w, L - n), n - k) == Ones(k)
  {
    hide Shr;
    ShrShr(w, k, L - n);
    ShrShr(w, L - k, 2 * k - n);
    OnesShr(k, 2 * k - n);
    ShrShr(w, L - n, n - k);
  }

  lemma OnesConcat(a: nat, b: nat)
    ensures Ones(a) * Pow2(b) + Ones(b) == Ones(a + b)
  {
    Pow2Sum(a, b);
  }

  /** Or-ing a word with itself moved down by k doubles the run of leading ones. */
  lemma SmearGrows(w: nat, L: nat, k: nat)
    requires TopOnes(w, L, k)
    ensures TopOnes(Or(w, Shr(w, k)), L, Min(2 * k, L))
  {
    hide Shr, Ones;
    var n := Min(2 * k, L);
    var v := Shr(w, k);
    ShrBelow(w, k);
    OrBound(w, v, L);
    OrShr(w, v, L - n);
    LowerRun(w, L, k, n);
    OrOnes(Shr(w, L - n), n - k);
    OnesConcat(k, n - k);
  }

  lemma SmearDoubles(w: nat, L: nat, k: nat, sh: nat)
    requires TopOnes(w, L, k) && (sh == k || k == L)
    ensures TopOnes(Or(w, Shr(w, sh)), L, Min(2 * k, L))
  {
    hide Shr;
    if sh == k {
      SmearGrows(w, L, k);
    } else {
      ShrBelow(w, sh);
      OrBound(w, Shr(w, sh), L);
      FullOr(w, Shr(w, sh), L);
    }
  }

  lemma FullOr(w: nat, v: nat, L: nat)
    requires Shr(w, 0) == Ones(L) && v < Pow2(L)
    ensures Shr(Or(w, v), 0) == Ones(L)
  {
    assert w == Ones(L);
    OrCommutes(w, v);
    OrOnes(v, L);
    ShrZero(v, L);
  }

  lemma {:induction false} OrCommutes(x: nat, y: nat)
    ensures Or(x, y) == Or(y, x)
    decreases x + y
  {
    if x > 0 || y > 0 {
      OrCommutes(x / 2, y / 2);
    }
  }

  lemma ShrBelow(w: nat, k: nat)
    ensures Shr(w, k) <= w
  {
    ShrIsDiv(w, k);
    MulMonotone(1, Pow2(k), w / Pow2(k));
  }

  /** The length of a positive number in bits. */
  function Length(w: nat): nat {
    if w == 0 then 0 else 1 + Length(w / 2)
  }

  lemma {:induction false} LengthBounds(w: nat)
    requires w > 0
    ensures Length(w) > 0 && Pow2(Length(w) - 1) <= w < Pow2(Length(w))
  {
    if w / 2 > 0 {
      LengthBounds(w / 2);
    } else {
      assert w == 1 && Length(1) == 1;
    }
  }

  lemma LengthAtMost(w: nat, n: nat)
    requires w > 0
    ensures w < Pow2(n) <==> Length(w) <= n
  {
    LengthBounds(w);
    if Length(w) <= n {
      Pow2Monotone(Length(w), n);
    } else {
      Pow2Monotone(n, Length(w) - 1);
    }
  }

  lemma LeadingOne(w: nat)
    requires w > 0
    ensures TopOnes(w, Length(w), 1)
  {
    LengthBounds(w);
    var d := Pow2(Length(w) - 1);
    ShrIsDiv(w, Length(w) - 1);
    DivModUnique(w, 1, w - d, d);
  }

  /** Smearing a 32-bit word sets every bit below its leading one. */
  lemma SmearFills(w: nat)
    requires 0 < w < U32
    ensures Smear(w) == Ones(Length(w)) && Length(w) <= 32
  {
    var L := Length(w);
    LengthBounds(w);
    Pow2Is32();
    if L > 32 {
      Pow2Monotone(32, L - 1);
    }
    LeadingOne(w);
    SmearDoubles(w, L, 1, 1);
    var a := Or(w, Shr(w, 1));
    SmearDoubles(a, L, Min(2, L), 2);
    var b := Or(a, Shr(a, 2));
    SmearDoubles(b, L, Min(4, L), 4);
    var c := Or(b, Shr(b, 4));
    SmearDoubles(c, L, Min(8, L), 8);
    var d := Or(c, Shr(c, 8));
    SmearDoubles(d, L, Min(16, L), 16);
    assert Shr(Smear(w), 0) == Smear(w);
  }

  /** round_up_pow2 is the least power of two that is at least v, as long as that fits a word;
      above 2^31 it wraps to zero. */
  lemma RoundUpIsLeast(v: nat)
    requires 0 < v < U32
    ensures v <= 0x8000_0000 ==> IsPow2(RoundUpPow2(v)) && v <= RoundUpPow2(v) < 2 * v && RoundUpPow2(v) <= 0x8000_0000
    ensures v > 0x8000_0000 ==> RoundUpPow2(v) == 0
  {
    hide Smear, Length;
    Pow2Is32();
    if v == 1 {
      SmearZero();
      assert Pow2(0) == 1;
    } else {
      var L := Length(v - 1);
      SmearFills(v - 1);
      LengthBounds(v - 1);
      LengthAtMost(v - 1, 31);
      hide Pow2;
      RoundUpLength(v, L);
    }
  }

  lemma RoundUpLength(v: nat, L: nat)
    requires 2 <= v < U32 && 0 < L <= 32 && Smear(v - 1) == Pow2(L) - 1
    requires Pow2(L - 1) <= v - 1 < Pow2(L) && (v <= 0x8000_0000 <==> L <= 31)
    ensures v <= 0x8000_0000 ==> RoundUpPow2(v) == Pow2(L) && v <= Pow2(L) < 2 * v && Pow2(L) <= 0x8000_0000
    ensures v > 0x8000_0000 ==> RoundUpPow2(v) == 0
  {
    hide Smear;
    Pow2Is32();
    if L <= 31 {
      Pow2Monotone(L, 31);
    }
  }

  lemma SmearZero()
    ensures Smear(0) == 0
  {
    hide Shr;
    ZeroShr(1);
    ZeroShr(2);
    ZeroShr(4);
    ZeroShr(8);
    ZeroShr(16);
  }

  lemma ZeroShr(k: nat)
    ensures Shr(0, k) == 0
  {
    ShrZero(0, k);
  }
}
