/** The probe table of health_pot.c: 12-bit ADC codes, high when cold, to degrees Celsius. */
module Ntc {

  const POINTS := 48

  /** The ADC code of row i (ntc_lut_raw). */
  function Raw(i: nat): nat
    requires i < POINTS
  {
    match i
    case 0 => 571 case 1 => 458 case 2 => 369 case 3 => 298
    case 4 => 241 case 5 => 196 case 6 => 160 case 7 => 131
    case 8 => 126 case 9 => 122 case 10 => 117 case 11 => 113
    case 12 => 108 case 13 => 104 case 14 => 100 case 15 => 97
    case 16 => 93 case 17 => 89 case 18 => 86 case 19 => 83
    case 20 => 80 case 21 => 78 case 22 => 76 case 23 => 73
    case 24 => 70 case 25 => 67 case 26 => 65 case 27 => 63
    case 28 => 61 case 29 => 58 case 30 => 56 case 31 => 54
    case 32 => 52 case 33 => 48 case 34 => 43 case 35 => 39
    case 36 => 35 case 37 => 32 case 38 => 30 case 39 => 28
    case 40 => 26 case 41 => 25 case 42 => 24 case 43 => 22
    case 44 => 21 case 45 => 20 case 46 => 19 case _ => 16
  }

  /** The temperature of row i (ntc_lut_temp). */
  function Deg(i: nat): nat
    requires i < POINTS
  {
    match i
    case 0 => 5 case 1 => 10 case 2 => 15 case 3 => 20
    case 4 => 25 case 5 => 30 case 6 => 35 case 7 => 40
    case 8 => 41 case 9 => 42 case 10 => 43 case 11 => 44
    case 12 => 45 case 13 => 46 case 14 => 47 case 15 => 48
    case 16 => 49 case 17 => 50 case 18 => 51 case 19 => 52
    case 20 => 53 case 21 => 54 case 22 => 55 case 23 => 56
    case 24 => 57 case 25 => 58 case 26 => 59 case 27 => 60
    case 28 => 61 case 29 => 62 case 30 => 63 case 31 => 64
    case 32 => 65 case 33 => 68 case 34 => 71 case 35 => 74
    case 36 => 77 case 37 => 80 case 38 => 82 case 39 => 85
    case 40 => 87 case 41 => 88 case 42 => 90 case 43 => 92
    case 44 => 94 case 45 => 96 case 46 => 98 case _ => 105
  }

  lemma TableEnds()
    ensures Raw(0) == 571 && Deg(0) == 5 && Deg(POINTS - 1) == 105
  {
  }

  /** Codes strictly fall and temperatures strictly rise along the table, checked row by row. */
  lemma Table(i: nat)
    requires 1 <= i < POINTS
    ensures Raw(i - 1) > Raw(i) && Deg(i - 1) < Deg(i)
    ensures (Deg(i) - Deg(i - 1)) * (Raw(i - 1) - Raw(i)) < 65536
  {
    match i
    case 1 =>
    case 2 =>
    case 3 =>
    case 4 =>
    case 5 =>
    case 6 =>
    case 7 =>
    case 8 =>
    case 9 =>
    case 10 =>
    case 11 =>
    case 12 =>
    case 13 =>
    case 14 =>
    case 15 =>
    case 16 =>
    case 17 =>
    case 18 =>
    case 19 =>
    case 20 =>
    case 21 =>
    case 22 =>
    case 23 =>
    case 24 =>
    case 25 =>
    case 26 =>
    case 27 =>
    case 28 =>
    case 29 =>
    case 30 =>
    case 31 =>
    case 32 =>
    case 33 =>
    case 34 =>
    case 35 =>
    case 36 =>
    case 37 =>
    case 38 =>
    case 39 =>
    case 40 =>
    case 41 =>
    case 42 =>
    case 43 =>
    case 44 =>
    case 45 =>
    case 46 =>
    case 47 =>
  }

  lemma {:induction false} TableOrder(i: nat, j: nat)
    requires i <= j < POINTS
    ensures Raw(i) >= Raw(j) && Deg(i) <= Deg(j)
    ensures i < j ==> Raw(i) > Raw(j)
    decreases j - i
  {
    hide Raw, Deg;
    if i < j {
      Table(i + 1);
      TableOrder(i + 1, j);
    }
  }

  /** First row from i on whose code is at or below `code`, or the table length. */
  function Row(code: nat, i: nat): (r: nat)
    requires 1 <= i <= POINTS
    ensures i <= r <= POINTS
    ensures r < POINTS ==> code >= Raw(r)
    ensures forall j :: i <= j < r ==> code < Raw(j)
    decreases POINTS - i
  {
    if i == POINTS || code >= Raw(i) then i else Row(code, i + 1)
  }

  /** Straight line between two rows, truncated as unsigned division does. */
  function Line(t0: nat, t1: nat, r0: nat, r1: nat, code: nat): nat
    requires t0 <= t1 && r1 < r0 && r1 <= code <= r0
  {
    t0 + Part(t1 - t0, r0 - code, r0 - r1)
  }

  function Part(k: nat, x: nat, d: nat): nat
    requires d > 0
  {
    (k * x) / d
  }

  function Between(code: nat, i: nat): nat
    requires 1 <= i < POINTS && Raw(i) <= code <= Raw(i - 1)
  {
    Table(i);
    Line(Deg(i - 1), Deg(i), Raw(i - 1), Raw(i), code)
  }

  function Celsius(code: nat): nat {
    if code >= Raw(0) then Deg(0)
    else
      var i := Row(code, 1);
      if i == POINTS then 105 else Between(code, i)
  }

  method CodeToTemp(code: nat) returns (t: nat)
    ensures t == Celsius(code)
  {
    hide Raw, Deg;
    if code >= Raw(0) {
      return Deg(0);
    }
    var i := 1;
    while i < POINTS
      invariant 1 <= i <= POINTS
      invariant forall j :: 0 <= j < i ==> code < Raw(j)
      invariant Row(code, 1) == Row(code, i)
    {
      if code >= Raw(i) {
        Table(i);
        return Line(Deg(i - 1), Deg(i), Raw(i - 1), Raw(i), code);
      }
      i := i + 1;
    }
    return 105;
  }

  lemma Scaled(d: nat, a: nat, b: nat)
    requires a <= b
    ensures d * a <= d * b
  {
  }

  lemma QuotientBelow(a: nat, d: nat, k: nat)
    requires d > 0 && a < k * d
    ensures a / d < k
  {
    if a / d >= k {
      Scaled(d, k, a / d);
    }
  }

  lemma QuotientExact(k: nat, d: nat)
    requires d > 0
    ensures k * d / d == k
  {
    QuotientBelow(k * d, d, k + 1);
    if k * d / d < k {
      Scaled(d, k * d / d + 1, k);
    }
  }

  lemma PartMonotone(k: nat, x: nat, y: nat, d: nat)
    requires x <= y && d > 0
    ensures Part(k, x, d) <= Part(k, y, d)
  {
    Scaled(k, x, y);
    QuotientBelow(k * x, d, k * y / d + 1);
  }

  lemma PartBounds(k: nat, x: nat, d: nat)
    requires x <= d && d > 0 && k > 0
    ensures Part(k, x, d) <= k && (x == d ==> Part(k, x, d) == k) && (x < d ==> Part(k, x, d) < k)
  {
    QuotientExact(k, d);
    if x < d {
      assert k * x < k * d;
      QuotientBelow(k * x, d, k);
    }
  }

  lemma SegmentBounds(code: nat, i: nat)
    requires 1 <= i < POINTS && Raw(i) <= code <= Raw(i - 1)
    ensures Deg(i - 1) <= Between(code, i) <= Deg(i)
    ensures code == Raw(i) ==> Between(code, i) == Deg(i)
    ensures code > Raw(i) ==> Between(code, i) < Deg(i)
  {
    hide Raw, Deg, Part;
    Table(i);
    PartBounds(Deg(i) - Deg(i - 1), Raw(i - 1) - code, Raw(i - 1) - Raw(i));
  }

  lemma LineMonotone(hot: nat, cold: nat, i: nat)
    requires 1 <= i < POINTS && Raw(i) <= hot <= cold <= Raw(i - 1)
    ensures Between(hot, i) >= Between(cold, i)
  {
    hide Raw, Deg, Part;
    Table(i);
    PartMonotone(Deg(i) - Deg(i - 1), Raw(i - 1) - cold, Raw(i - 1) - hot, Raw(i - 1) - Raw(i));
  }

  /** The interpolation never leaves the controller's 16-bit unsigned integers. */
  lemma NoWrap(code: nat, i: nat)
    requires 1 <= i < POINTS && Raw(i) <= code <= Raw(i - 1)
    ensures (Deg(i) - Deg(i - 1)) * (Raw(i - 1) - code) < 65536
  {
    hide Raw, Deg;
    Table(i);
    Scaled(Deg(i) - Deg(i - 1), Raw(i - 1) - code, Raw(i - 1) - Raw(i));
  }

  /** The reading is always within the table's scale. */
  lemma Scale(code: nat)
    ensures 5 <= Celsius(code) <= 105
  {
    hide Raw, Deg, Between;
    TableEnds();
    TableOrder(0, POINTS - 1);
    if code < Raw(0) {
      var i := Row(code, 1);
      if i < POINTS {
        SegmentBounds(code, i);
        TableOrder(0, i - 1);
        TableOrder(i, POINTS - 1);
      }
    }
  }

  /** A hotter probe (lower code) never reads colder: no rounding step goes backwards. */
  lemma Monotone(hot: nat, cold: nat)
    requires hot <= cold
    ensures Celsius(hot) >= Celsius(cold)
  {
    hide Raw, Deg, Between;
    TableEnds();
    Scale(hot);
    Scale(cold);
    TableOrder(0, POINTS - 1);
    if cold < Raw(0) {
      var i, j := Row(cold, 1), Row(hot, 1);
      if i < POINTS && j < POINTS {
        SegmentBounds(cold, i);
        SegmentBounds(hot, j);
        if i == j {
          Table(i);
          LineMonotone(hot, cold, i);
        } else {
          TableOrder(i, j - 1);
        }
      }
    }
  }

  /** Every table row is an exact threshold: the reading reaches its temperature at its code and not one code earlier. */
  lemma ThresholdAt(code: nat, i: nat)
    requires 1 <= i < POINTS
    ensures Celsius(code) >= Deg(i) <==> code <= Raw(i)
  {
    hide Raw, Deg, Between;
    TableEnds();
    TableOrder(0, i - 1);
    TableOrder(i, POINTS - 1);
    Table(i);
    if code < Raw(0) {
      var j := Row(code, 1);
      if j < POINTS {
        SegmentBounds(code, j);
        if j < i {
          TableOrder(j, i - 1);
        } else if j > i {
          TableOrder(i, j - 1);
        }
      }
    }
  }

  /** Between two rows the reading is the straight line through them, rounded down: no whole degree is missed
      and none is added. */
  lemma OnTheLine(code: nat, i: nat)
    requires 1 <= i < POINTS && Raw(i) <= code <= Raw(i - 1)
    ensures OnLine(Celsius(code) - Deg(i - 1), Deg(i) - Deg(i - 1), Raw(i - 1) - code, Raw(i - 1) - Raw(i))
  {
    hide Raw, Deg, OnLine, Celsius, Part, Between;
    Table(i);
    TableOrder(0, i - 1);
    if code == Raw(i - 1) {
      RowReads(i - 1);
      FirstOnLine(Deg(i) - Deg(i - 1), Raw(i - 1) - Raw(i));
    } else {
      OwnRow(code, i);
      BetweenIs(code, i);
      PartOnLine(Deg(i) - Deg(i - 1), Raw(i - 1) - code, Raw(i - 1) - Raw(i));
    }
  }

  lemma BetweenIs(code: nat, i: nat)
    requires 1 <= i < POINTS && Raw(i) <= code <= Raw(i - 1)
    ensures Raw(i - 1) > Raw(i) && Deg(i - 1) < Deg(i)
    ensures Between(code, i) == Deg(i - 1) + Part(Deg(i) - Deg(i - 1), Raw(i - 1) - code, Raw(i - 1) - Raw(i))
  {
    Table(i);
    hide Raw, Deg, Part;
  }

  /** t is k * x / d rounded down, said without division. */
  predicate OnLine(t: int, k: int, x: int, d: int) {
    t * d <= k * x < (t + 1) * d
  }

  lemma FirstOnLine(k: int, d: int)
    requires d > 0
    ensures OnLine(0, k, 0, d)
  {
  }

  lemma PartOnLine(k: nat, x: nat, d: nat)
    requires d > 0
    ensures OnLine(Part(k, x, d), k, x, d)
  {
    DivisionBounds(k * x, d);
  }

  /** Beyond the ends of the table the reading stays at its ends. */
  lemma BeyondTheTable(code: nat)
    ensures code >= 571 ==> Celsius(code) == 5
    ensures code <= 16 ==> Celsius(code) == 105
  {
    assert Raw(0) == 571 && Deg(0) == 5 && Raw(POINTS - 1) == 16 && Deg(POINTS - 1) == 105;
    hide Raw, Deg, Celsius;
    Scale(code);
    if code <= 16 {
      ThresholdAt(code, POINTS - 1);
    }
    if code >= 571 {
      ColdEnd(code);
    }
  }

  lemma ColdEnd(code: nat)
    requires code >= Raw(0)
    ensures Celsius(code) == Deg(0)
  {
  }

  lemma DivisionBounds(n: nat, d: nat)
    requires d > 0
    ensures n / d * d <= n < (n / d + 1) * d
  {
  }

  /** The row that the search finds is the one the code lies in. */
  lemma OwnRow(code: nat, i: nat)
    requires 1 <= i < POINTS && Raw(i) <= code < Raw(i - 1)
    ensures code < Raw(0) && Celsius(code) == Between(code, i)
  {
    hide Raw, Deg, Between;
    TableOrder(0, i - 1);
    var j := Row(code, 1);
    if j < i {
      TableOrder(j, i - 1);
    }
  }

  lemma RowReads(i: nat)
    requires i < POINTS
    ensures Celsius(Raw(i)) == Deg(i)
  {
    hide Raw, Deg, Between;
    TableEnds();
    if i > 0 {
      Table(i);
      OwnRow(Raw(i), i);
      SegmentBounds(Raw(i), i);
    }
  }
}
