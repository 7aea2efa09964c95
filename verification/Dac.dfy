/** DAC codes and millivolts (pal_hal_dac_host.c), one channel: 16-bit codes and millivolts,
    32-bit intermediate results. */
module Dac {
  import opened Arith
  import opened Bits
  import opened Status

  datatype Channel = Channel(on: bool, fullScale: nat, bits: nat, lastRaw: nat, lastMv: nat)

  const OFF := Channel(false, 0, 0, 0, 0)

  function MaxRaw(bits: nat): nat
    requires bits > 0
    ensures MaxRaw(bits) >= 1
  {
    assert Pow2(bits) == 2 * Pow2(bits - 1);
    Pow2(bits) - 1
  }

  /** An initialized channel; shifting by 32 or more is undefined in C. */
  predicate Valid(c: Channel) {
    c.on ==> 0 < c.fullScale < U16 && 0 < c.bits < 32
  }

  function Init(c: Channel, fullScale: nat, bits: nat): Channel {
    Channel(true, if fullScale > 0 then fullScale else 3300, if bits > 0 then bits else 8, 0, 0)
  }

  function Clamp(raw: nat, max: nat): nat {
    if raw > max then max % U16 else raw
  }

  /** Code to millivolts, rounded, in 32-bit arithmetic. */
  function ToMv(raw: nat, fullScale: nat, max: nat): nat
    requires max > 0
  {
    (raw * fullScale + max / 2) % U32 / max % U16
  }

  /** Millivolts to code, rounded, in 32-bit arithmetic. */
  function ToRaw(mv: nat, fullScale: nat, max: nat): nat
    requires fullScale > 0
  {
    (mv * max + fullScale / 2) % U32 / fullScale % U16
  }

  function WriteRaw(c: Channel, raw: nat): Channel
    requires c.on && Valid(c)
  {
    var max := MaxRaw(c.bits);
    var r := Clamp(raw, max);
    c.(lastRaw := r, lastMv := ToMv(r, c.fullScale, max))
  }

  function WriteVoltage(c: Channel, mv: nat): Channel
    requires c.on && Valid(c)
  {
    WriteRaw(c, ToRaw(if mv > c.fullScale then c.fullScale else mv, c.fullScale, MaxRaw(c.bits)))
  }

  // ---------- exact rounding ----------

  function Rounded(n: nat, d: nat): nat
    requires d > 0
  {
    (n + d / 2) / d
  }

  /** It is the nearest integer to n / d. */
  lemma Nearest(n: nat, d: nat)
    requires d > 0
    ensures 2 * n - d <= 2 * (Rounded(n, d) * d) <= 2 * n + d
  {
    var q, r := (n + d / 2) / d, (n + d / 2) % d;
    assert n + d / 2 == q * d + r;
  }

  lemma AtMost(n: nat, d: nat, m: nat)
    requires d > 0 && n <= m * d
    ensures Rounded(n, d) <= m
  {
    var q, r := (n + d / 2) / d, (n + d / 2) % d;
    assert n + d / 2 == q * d + r;
    Above(q, m, d);
  }

  lemma ProductFits(a: nat, b: nat, h: nat)
    requires a < U16 && b < U16 && h < U16 / 2
    ensures a * b + h < U32
  {
    MulMonotone(a, U16 - 1, b);
  }

  lemma WordsExact(n: nat, d: nat)
    requires d > 0 && n < U32 && n / d < U16
    ensures n % U32 / d % U16 == n / d
  {
    ModSmall(n, U32);
    ModSmall(n / d, U16);
  }

  /** At up to 16 bits nothing wraps and nothing is truncated. */
  lemma RawExact(mv: nat, fs: nat, max: nat)
    requires mv <= fs && 0 < fs < U16 && 0 < max < U16
    ensures ToRaw(mv, fs, max) == Rounded(mv * max, fs) <= max
  {
    ProductFits(mv, max, fs / 2);
    MulMonotone(mv, fs, max);
    AtMost(mv * max, fs, max);
    WordsExact(mv * max + fs / 2, fs);
  }

  lemma MvExact(raw: nat, fs: nat, max: nat)
    requires raw <= max && 0 < fs < U16 && 0 < max < U16
    ensures ToMv(raw, fs, max) == Rounded(raw * fs, max) <= fs
  {
    ProductFits(raw, fs, max / 2);
    MulMonotone(raw, max, fs);
    AtMost(raw * fs, max, fs);
    WordsExact(raw * fs + max / 2, max);
  }

  function Distance(a: nat, b: nat): nat {
    if a < b then b - a else a - b
  }

  /** v is within half a code step and half a millivolt of mv. */
  predicate Near(v: nat, mv: nat, fs: nat, max: nat) {
    2 * (max * Distance(v, mv)) <= fs + max
  }

  /** How close to what was written the channel reads back. */
  predicate Accurate(c: Channel, mv: nat)
    requires c.on && Valid(c)
  {
    Near(WriteVoltage(c, mv).lastMv, mv, c.fullScale, MaxRaw(c.bits))
  }

  lemma SixteenBits(bits: nat)
    requires 0 < bits < 32
    ensures bits <= 16 ==> MaxRaw(bits) < U16
    ensures bits > 16 ==> MaxRaw(bits) >= 2 * U16 - 1
  {
    assert Pow2(8) == 256;
    Pow2Sum(8, 8);
    assert Pow2(17) == 2 * Pow2(16);
    if bits <= 16 {
      Pow2Monotone(bits, 16);
    } else {
      Pow2Monotone(17, bits);
    }
  }

  /** A code in millivolts, and millivolts as a code, rounded and in unbounded numbers. */
  function Mv(raw: nat, fs: nat, max: nat): nat
    requires max > 0
  {
    Rounded(raw * fs, max)
  }

  function Code(mv: nat, fs: nat, max: nat): nat
    requires fs > 0
  {
    Rounded(mv * max, fs)
  }

  /** Rounding there and back is off by at most half a step of each. */
  lemma ThereAndBack(mv: nat, fs: nat, max: nat)
    requires 0 < fs && 0 < max
    ensures Near(Mv(Code(mv, fs, max), fs, max), mv, fs, max)
  {
    var raw := Rounded(mv * max, fs);
    var v := Rounded(raw * fs, max);
    Nearest(mv * max, fs);
    Nearest(raw * fs, max);
    DistanceScales(v, mv, max);
    hide Rounded, Distance;
    TwoSteps(v * max, raw * fs, mv * max, max, fs);
  }

  /** Up to 16 bits a write computes the two exact quotients. */
  lemma WritesExact(c: Channel, mv: nat)
    requires c.on && Valid(c) && c.bits <= 16 && mv <= c.fullScale
    ensures var fs, max := c.fullScale, MaxRaw(c.bits);
      WriteVoltage(c, mv).lastMv == Mv(Code(mv, fs, max), fs, max)
  {
    var fs, max := c.fullScale, MaxRaw(c.bits);
    SixteenBits(c.bits);
    RawExact(mv, fs, max);
    MvExact(ToRaw(mv, fs, max), fs, max);
    hide MaxRaw, ToRaw, ToMv, Rounded;
  }

  lemma AccurateBelow(c: Channel, mv: nat)
    requires c.on && Valid(c) && c.bits <= 16 && mv <= c.fullScale
    ensures Accurate(c, mv)
  {
    WritesExact(c, mv);
    ThereAndBack(mv, c.fullScale, MaxRaw(c.bits));
    hide WriteVoltage, MaxRaw, Mv, Code, Near;
  }

  lemma TwoSteps(a: nat, b: nat, c: nat, x: nat, y: nat)
    requires 2 * b - x <= 2 * a <= 2 * b + x && 2 * c - y <= 2 * b <= 2 * c + y
    ensures 2 * Distance(a, c) <= x + y
  {
  }

  lemma DistanceScales(a: nat, b: nat, m: nat)
    ensures m * Distance(a, b) == Distance(a * m, b * m)
  {
    if a < b {
      MulMonotone(a, b, m);
      assert m * (b - a) == b * m - a * m;
    } else {
      MulMonotone(b, a, m);
      assert m * (a - b) == a * m - b * m;
    }
  }

  /** Beyond 16 bits the code is truncated, and writing the full scale reads back far too low. */
  lemma TruncatedAbove(c: Channel)
    requires c.on && Valid(c) && c.bits > 16
    ensures !Accurate(c, c.fullScale)
  {
    var fs, max := c.fullScale, MaxRaw(c.bits);
    SixteenBits(c.bits);
    var raw := ToRaw(fs, fs, max);
    var v := ToMv(raw, fs, max);
    assert raw <= U16 - 1 && Clamp(raw, max) == raw;
    LowReading(raw, fs, max);
    assert v * max <= (U16 - 1) * fs + max / 2;
    FarOff(v, fs, max);
  }

  lemma DivDown(n: nat, d: nat)
    requires d > 0
    ensures n / d * d <= n
  {
    assert n == n / d * d + n % d;
  }

  lemma ModDown(n: nat, d: nat)
    requires d > 0
    ensures n % d <= n
  {
    DivDown(n, d);
  }

  lemma LowReading(raw: nat, fs: nat, max: nat)
    requires max > 0 && raw < U16
    ensures ToMv(raw, fs, max) * max <= (U16 - 1) * fs + max / 2
  {
    MulMonotone(raw, U16 - 1, fs);
    WordsDown(raw * fs + max / 2, max);
  }

  lemma WordsDown(n: nat, d: nat)
    requires d > 0
    ensures n % U32 / d % U16 * d <= n
  {
    var q := n % U32 / d;
    ModDown(n, U32);
    DivDown(n % U32, d);
    ModDown(q, U16);
    MulMonotone(q % U16, q, d);
  }

  lemma BelowScale(v: nat, fs: nat, max: nat)
    requires fs > 0 && max >= 2 * U16 - 1 && v * max <= (U16 - 1) * fs + max / 2
    ensures v < fs
  {
    MulMonotone(1, fs, max - (U16 - 1));
    assert fs * max == fs * (max - (U16 - 1)) + (U16 - 1) * fs;
    assert v * max < fs * max;
    MulMonotone(fs, if v >= fs then v else fs, max);
  }

  lemma FarOff(v: nat, fs: nat, max: nat)
    requires fs > 0 && max >= 2 * U16 - 1 && fs < U16 && v * max <= (U16 - 1) * fs + max / 2
    ensures !Near(v, fs, fs, max)
  {
    BelowScale(v, fs, max);
    DistanceScales(v, fs, max);
    MulMonotone(1, fs - v, max);
    assert max * Distance(v, fs) == (fs - v) * max;
    hide *;
    if fs >= 3 {
      WideGap(v * max, fs * max, fs, max);
    }
  }

  lemma WideGap(low: nat, high: nat, fs: nat, max: nat)
    requires fs >= 3 && max >= 2 * U16 - 1 && low <= (U16 - 1) * fs + max / 2 && high == fs * max
    ensures 2 * (high - low) > fs + max
  {
    var d := max - (U16 - 1);
    assert fs * max == fs * d + fs * (U16 - 1);
    MulMonotone(3, fs, 2 * d - 1);
    assert (2 * d - 1) * fs == 2 * (fs * d) - fs;
  }

  /** On every initialized channel: all voltages up to full scale read back accurately exactly when
      the resolution is at most 16 bits. */
  lemma AccurateIff(c: Channel)
    requires c.on && Valid(c)
    ensures (forall mv: nat :: mv <= c.fullScale ==> Accurate(c, mv)) <==> c.bits <= 16
  {
    if c.bits <= 16 {
      forall mv: nat | mv <= c.fullScale ensures Accurate(c, mv) {
        AccurateBelow(c, mv);
      }
    } else {
      TruncatedAbove(c);
    }
  }

  // ---------- code to millivolts to code ----------

  predicate Returns(c: Channel, raw: nat)
    requires c.on && Valid(c)
  {
    var d := WriteRaw(c, raw);
    WriteVoltage(d, d.lastMv).lastRaw == raw
  }

  lemma ReturnsExact(c: Channel, raw: nat)
    requires c.on && Valid(c) && c.bits <= 16 && raw <= MaxRaw(c.bits)
    ensures var fs, max := c.fullScale, MaxRaw(c.bits);
      WriteRaw(c, raw).lastMv == Mv(raw, fs, max) <= fs && (Returns(c, raw) <==> Code(Mv(raw, fs, max), fs, max) == raw)
  {
    var fs, max := c.fullScale, MaxRaw(c.bits);
    SixteenBits(c.bits);
    MvExact(raw, fs, max);
    RawExact(ToMv(raw, fs, max), fs, max);
    hide MaxRaw, ToRaw, ToMv, Rounded;
  }

  lemma BackToCode(raw: nat, fs: nat, max: nat)
    requires 0 < max <= fs
    ensures Code(Mv(raw, fs, max), fs, max) == raw
  {
    Nearest(raw * fs, max);
    if max == fs {
      RoundsTo(raw * fs, max, raw);
    }
    RoundsTo(Rounded(raw * fs, max) * max, fs, raw);
    hide Rounded;
  }

  lemma CodeReturns(c: Channel, raw: nat)
    requires c.on && Valid(c) && c.bits <= 16 && raw <= MaxRaw(c.bits) <= c.fullScale
    ensures Returns(c, raw)
  {
    ReturnsExact(c, raw);
    BackToCode(raw, c.fullScale, MaxRaw(c.bits));
    hide Returns, WriteRaw, MaxRaw, Mv, Code;
  }

  /** The rounded quotient is q when the numerator is within half a divisor of q divisors. */
  lemma RoundsTo(n: nat, d: nat, q: nat)
    requires d > 0
    requires 2 * (q * d) - (d - 1) <= 2 * n <= 2 * (q * d) + (d - 1)
    ensures Rounded(n, d) == q
  {
    var r := n + d / 2 - q * d;
    DivModUnique(n + d / 2, q, r, d);
  }

  /** If codes below and up to raw come back, their millivolts grow at least as fast as they do. */
  lemma {:induction false} MvGrows(c: Channel, raw: nat)
    requires c.on && Valid(c) && c.bits <= 16 && raw <= MaxRaw(c.bits)
    requires forall k: nat :: k <= raw ==> Returns(c, k)
    ensures WriteRaw(c, raw).lastMv >= raw
  {
    hide *;
    if raw > 0 {
      MvGrows(c, raw - 1);
      assert Returns(c, raw) && Returns(c, raw - 1);
      OneMoreMv(c, raw);
    }
  }

  lemma OneMoreMv(c: Channel, raw: nat)
    requires c.on && Valid(c) && c.bits <= 16 && 0 < raw <= MaxRaw(c.bits)
    requires Returns(c, raw) && Returns(c, raw - 1) && WriteRaw(c, raw - 1).lastMv >= raw - 1
    ensures WriteRaw(c, raw).lastMv >= raw
  {
    assert 0 < c.bits && 0 < c.fullScale;
    hide *;
    ReturnsExact(c, raw);
    ReturnsExact(c, raw - 1);
    MvMonotone(raw - 1, raw, c.fullScale, MaxRaw(c.bits));
  }

  lemma MvMonotone(a: nat, b: nat, fs: nat, max: nat)
    requires a <= b && max > 0
    ensures Mv(a, fs, max) <= Mv(b, fs, max)
  {
    MulMonotone(a, b, fs);
    QuotientMonotone(a * fs, b * fs, max);
    hide Rounded;
  }

  lemma QuotientMonotone(m: nat, n: nat, d: nat)
    requires d > 0 && m <= n
    ensures Rounded(m, d) <= Rounded(n, d)
  {
    var a, b := m + d / 2, n + d / 2;
    DivParts(a, d);
    DivParts(b, d);
    NotAboveBy(a / d, a % d, b / d, b % d, d);
  }

  lemma DivParts(n: nat, d: nat)
    requires d > 0
    ensures n == n / d * d + n % d
  {
  }

  lemma NotAboveBy(p: nat, r: nat, q: nat, s: nat, d: nat)
    requires p * d + r <= q * d + s && s < d
    ensures p <= q
  {
    Above(p, q, d);
  }

  /** Beyond 16 bits the first two codes are both less than half a millivolt. */
  lemma FirstCodesMeet(c: Channel)
    requires c.on && Valid(c) && c.bits > 16
    ensures MaxRaw(c.bits) > c.fullScale && !(Returns(c, 0) && Returns(c, 1))
  {
    var fs, max := c.fullScale, MaxRaw(c.bits);
    SixteenBits(c.bits);
    assert ToMv(0, fs, max) == 0 by { SmallQuotient(max / 2, max); }
    assert ToMv(1, fs, max) == 0 by { SmallQuotient(fs + max / 2, max); }
    hide MaxRaw, ToRaw, ToMv;
    assert WriteRaw(c, 0).(lastRaw := 0) == WriteRaw(c, 1).(lastRaw := 0);
  }

  lemma SmallQuotient(n: nat, d: nat)
    requires n < d
    ensures n % U32 / d % U16 == 0
  {
    ModDown(n, U32);
    DivModUnique(n % U32, 0, n % U32, d);
  }

  /** Every 16-bit code up to the highest survives the way to millivolts and back exactly when there
      are no more code steps than millivolts. */
  lemma CodesReturnIff(c: Channel)
    requires c.on && Valid(c)
    ensures (forall raw: nat :: raw < U16 && raw <= MaxRaw(c.bits) ==> Returns(c, raw)) <==> MaxRaw(c.bits) <= c.fullScale
  {
    var max := MaxRaw(c.bits);
    SixteenBits(c.bits);
    if c.bits > 16 {
      FirstCodesMeet(c);
    } else {
      hide MaxRaw, Returns;
      if max <= c.fullScale {
        forall raw: nat | raw <= max ensures Returns(c, raw) {
          CodeReturns(c, raw);
        }
      } else if forall raw: nat :: raw <= max ==> Returns(c, raw) {
        MvGrows(c, max);
        ReturnsExact(c, max);
      }
    }
  }

  // ---------- clamping ----------

  /** Up to 16 bits a code above the highest writes the highest, and a voltage above full scale writes full scale,
      which is the highest code and reads back as full scale. */
  lemma WritesClamp(c: Channel, raw: nat, mv: nat)
    requires c.on && Valid(c) && c.bits <= 16
    ensures raw > MaxRaw(c.bits) ==> WriteRaw(c, raw) == WriteRaw(c, MaxRaw(c.bits))
    ensures raw <= MaxRaw(c.bits) ==> WriteRaw(c, raw).lastRaw == raw
    ensures mv > c.fullScale ==> WriteVoltage(c, mv) == WriteVoltage(c, c.fullScale)
    ensures WriteVoltage(c, c.fullScale).lastRaw == MaxRaw(c.bits) && WriteVoltage(c, c.fullScale).lastMv == c.fullScale
    ensures WriteRaw(c, raw).(lastRaw := c.lastRaw, lastMv := c.lastMv) == c
  {
    var fs, max := c.fullScale, MaxRaw(c.bits);
    SixteenBits(c.bits);
    ModSmall(max, U16);
    RawExact(fs, fs, max);
    MvExact(max, fs, max);
    RoundsTo(fs * max, fs, max);
    RoundsTo(max * fs, max, fs);
    hide MaxRaw, ToRaw, ToMv, Rounded;
  }

  /** A fresh channel is usable: what is not given is 3300 mV and 8 bits, and nothing has been written. */
  lemma InitExact(c: Channel, fullScale: nat, bits: nat)
    requires fullScale < U16 && bits < 32
    ensures var d := Init(c, fullScale, bits);
      && d.on && Valid(d) && d.lastRaw == d.lastMv == 0
      && d.fullScale == (if fullScale == 0 then 3300 else fullScale) && d.bits == (if bits == 0 then 8 else bits)
  {
  }
}
