/** CRC-32/ISO-HDLC as wink_dev_config.c computes it, one bit at a time, and its theory:
    the register is linear in the message and the bit step is invertible, so every error
    burst of at most 32 bits changes the register (RFC 1662, Appendix C.3, gives the
    algorithm and its good-FCS residue). */
module Crc32 {
  import opened LinearRegister

  const POLY: bv32 := 0xEDB8_8320
  const INIT: bv32 := 0xFFFF_FFFF
  const RESIDUE: bv32 := 0xDEBB_20E3

  function Add(a: bv32, b: bv32): bv32 { a ^ b }

  function Half(w: bv32): bv32 { w >> 1 }

  predicate Odd(w: bv32) { w & 1 == 1 }

  /** One turn of the inner loop. */
  function BitStep(c: bv32): bv32 {
    if Odd(c) then Add(Half(c), POLY) else Half(c)
  }

  /** The 32-bit shift register of the source. */
  function Word(): Register<bv32> {
    Register(BitStep, Add, 0, 1)
  }

  /** One turn of the outer loop: fold a byte in, then eight bit steps. */
  function Update(c: bv32, b: bv8): bv32 {
    Word().Steps(Add(c, b as bv32), 8)
  }

  function Feed(c: bv32, data: seq<bv8>): bv32 {
    if |data| == 0 then c
    else Update(Feed(c, data[..|data| - 1]), data[|data| - 1])
  }

  /** The checksum of a byte string: the complement of the register. */
  function Checksum(data: seq<bv8>): bv32 {
    Add(Feed(INIT, data), INIT)
  }

  method UpdateByte(c: bv32, b: bv8) returns (crc: bv32)
    ensures crc == Update(c, b)
  {
    crc := c ^ (b as bv32);
    ghost var folded := crc;
    for k := 0 to 8
      invariant crc == Word().Steps(folded, k)
    {
      ghost var before := crc;
      if crc & 1 == 1 {
        crc := (crc >> 1) ^ POLY;
      } else {
        crc := crc >> 1;
      }
      assert crc == BitStep(before);
    }
  }

  method Compute(data: array<bv8>, len: nat) returns (crc: bv32)
    requires len <= data.Length
    ensures crc == Checksum(data[..len])
  {
    hide Update;
    crc := INIT;
    for i := 0 to len
      invariant crc == Feed(INIT, data[..i])
    {
      assert data[..i + 1][..i] == data[..i];
      crc := UpdateByte(crc, data[i]);
    }
    crc := crc ^ INIT;
  }

  // ---------- the word register obeys the laws; each bit-vector fact is a lemma of its own ----------

  lemma AddInterchange(a: bv32, b: bv32, p: bv32, q: bv32)
    ensures Add(Add(a, p), Add(b, q)) == Add(Add(a, b), Add(p, q))
  {
    hide Add;
    AddAssociative(Add(a, p), b, q);
    AddAssociative(a, p, b);
    AddCommutative(p, b);
    AddAssociative(a, b, p);
    AddAssociative(Add(a, b), p, q);
  }

  lemma AddAssociative(a: bv32, b: bv32, c: bv32)
    ensures Add(a, Add(b, c)) == Add(Add(a, b), c)
  {
    assert a ^ (b ^ c) == (a ^ b) ^ c;
  }

  lemma AddCommutative(a: bv32, b: bv32)
    ensures Add(a, b) == Add(b, a)
  {
  }

  lemma AddNeutral(a: bv32)
    ensures Add(a, 0) == a && Add(0, a) == a && Add(a, a) == 0
  {
  }

  lemma AddPoly(x: bv32, y: bv32)
    ensures Add(Add(x, POLY), y) == Add(Add(x, y), POLY)
    ensures Add(x, Add(y, POLY)) == Add(Add(x, y), POLY)
    ensures Add(Add(x, POLY), Add(y, POLY)) == Add(x, y)
  {
    hide Add;
    AddNeutral(x);
    AddNeutral(y);
    AddNeutral(Add(x, y));
    AddNeutral(POLY);
    AddInterchange(x, y, POLY, 0);
    AddInterchange(x, y, 0, POLY);
    AddInterchange(x, y, POLY, POLY);
  }

  lemma HalfAdd(a: bv32, b: bv32)
    ensures Half(Add(a, b)) == Add(Half(a), Half(b))
  {
  }

  lemma OddAdd(a: bv32, b: bv32)
    ensures Odd(Add(a, b)) == (Odd(a) != Odd(b))
  {
    assert (a ^ b) & 1 == (a & 1) ^ (b & 1);
    assert a & 1 == 0 || a & 1 == 1;
    assert b & 1 == 0 || b & 1 == 1;
  }

  lemma BitStepLinear(a: bv32, b: bv32)
    ensures BitStep(Add(a, b)) == Add(BitStep(a), BitStep(b))
  {
    hide Add, Half, Odd;
    HalfAdd(a, b);
    OddAdd(a, b);
    AddPoly(Half(a), Half(b));
  }

  lemma BitStepKernel(c: bv32)
    requires BitStep(c) == 0
    ensures c == 0
  {
  }

  lemma WordGroup()
    ensures Group(Word())
  {
    hide Add, BitStep;
    var r := Word();
    forall a, b, p, q ensures r.add(r.add(a, p), r.add(b, q)) == r.add(r.add(a, b), r.add(p, q)) {
      AddInterchange(a, b, p, q);
    }
    forall a ensures r.add(a, r.zero) == a && r.add(r.zero, a) == a && r.add(a, a) == r.zero {
      AddNeutral(a);
    }
  }

  lemma WordLawful()
    ensures Lawful(Word())
  {
    hide Add, BitStep, Group;
    WordGroup();
    var r := Word();
    forall a, b ensures r.step(r.add(a, b)) == r.add(r.step(a), r.step(b)) {
      BitStepLinear(a, b);
    }
    forall a | r.step(a) == r.zero ensures a == r.zero {
      BitStepKernel(a);
    }
  }

  /** The low k bits. */
  function Mask(k: nat): bv32 {
    if k == 0 then 0 else Wider(Mask(k - 1))
  }

  function Wider(m: bv32): bv32 { (m << 1) | 1 }

  predicate Solid(m: bv32) { m & (m + 1) == 0 }

  predicate BelowTop(m: bv32) { m <= 0x7FFF_FFFF }

  lemma WiderSolid(m: bv32)
    requires Solid(m)
    ensures Solid(Wider(m))
  {
  }

  lemma WiderBelowTop(m: bv32)
    requires Solid(m) && BelowTop(Wider(m))
    ensures BelowTop(m)
  {
  }

  lemma {:induction false} MaskSolid(k: nat)
    ensures Solid(Mask(k))
  {
    hide Wider, Solid;
    if k > 0 {
      MaskSolid(k - 1);
      WiderSolid(Mask(k - 1));
    } else {
      assert Solid(0) by { ZeroSolid(); }
    }
  }

  lemma ZeroSolid()
    ensures Solid(0)
  {
  }

  lemma MaskNext(k: nat)
    ensures Mask(k + 4) == Wider(Wider(Wider(Wider(Mask(k)))))
  {
    hide Wider;
    assert Mask(k + 2) == Wider(Wider(Mask(k)));
  }

  lemma Mask31()
    ensures Mask(31) == 0x7FFF_FFFF
  {
    hide Mask;
    Mask3();
    MaskNext(3);
    assert Mask(7) == 0x7F;
    MaskNext(7);
    assert Mask(11) == 0x7FF;
    MaskNext(11);
    assert Mask(15) == 0x7FFF;
    MaskNext(15);
    assert Mask(19) == 0x7_FFFF;
    MaskNext(19);
    assert Mask(23) == 0x7F_FFFF;
    MaskNext(23);
    assert Mask(27) == 0x7FF_FFFF;
    MaskNext(27);
  }

  lemma Mask3()
    ensures Mask(3) == 7
  {
    assert Mask(1) == 1;
    assert Mask(2) == 3;
  }

  lemma {:induction false} MaskBelowTop(k: nat)
    requires k <= 31
    ensures BelowTop(Mask(k))
    decreases 31 - k
  {
    if k == 31 {
      Mask31();
    } else {
      hide Wider, Solid, BelowTop;
      MaskBelowTop(k + 1);
      MaskSolid(k);
      WiderBelowTop(Mask(k));
    }
  }

  predicate AtMost(a: bv32, b: bv32) { a <= b }

  /** w is at most the low k bits. */
  predicate Low(k: nat, w: bv32) { AtMost(w, Mask(k)) }

  function Twice(w: bv32): bv32 { w << 1 }

  lemma UndoStep(y: bv32)
    requires BelowTop(BitStep(y))
    ensures y == Twice(BitStep(y))
  {
  }

  lemma TwiceBound(r: bv32, m: bv32)
    requires AtMost(r, m) && BelowTop(m)
    ensures AtMost(Twice(r), Wider(m))
  {
  }

  lemma TwiceOneBound(r: bv32, m: bv32)
    requires AtMost(r, m) && BelowTop(m)
    ensures AtMost(Add(Twice(r), 1), Wider(m))
  {
    assert (r << 1) ^ 1 == (r << 1) | 1;
  }

  lemma AtMostBelowTop(r: bv32, m: bv32)
    requires AtMost(r, m) && BelowTop(m)
    ensures BelowTop(r)
  {
  }

  lemma TwiceEven(r: bv32)
    ensures Add(Twice(r), 1) != 0
  {
  }

  lemma AddBack(q: bv32, i: bv32)
    ensures Add(Add(q, i), i) == q
  {
  }

  lemma StepBack(k: nat, q: bv32, b: bool)
    requires k < 32 && Low(k, BitStep(Add(q, Word().In(b))))
    ensures Low(k + 1, q) && (q == 0 ==> !b)
  {
    hide BitStep, Add, Twice, Wider, AtMost, BelowTop;
    var i := Word().In(b);
    var r := BitStep(Add(q, i));
    MaskBelowTop(k);
    TwiceBound(r, Mask(k));
    TwiceOneBound(r, Mask(k));
    AtMostBelowTop(r, Mask(k));
    UndoStep(Add(q, i));
    AddBack(q, i);
    AddNeutral(Twice(r));
    TwiceEven(r);
  }

  lemma WordBanded()
    ensures Banded(Word(), Low, 32)
  {
    hide BitStep, Add;
    var r := Word();
    forall k: nat, q, b | k < 32 && Low(k, r.step(r.add(q, r.In(b)))) ensures Low(k + 1, q) && (q == 0 ==> !b) {
      StepBack(k, q, b);
    }
  }

  // ---------- bytes as bits, least significant first ----------

  function BitsOf(b: bv8): (s: seq<bool>)
    ensures |s| == 8
  {
    [b & 1 != 0, b & 2 != 0, b & 4 != 0, b & 8 != 0, b & 16 != 0, b & 32 != 0, b & 64 != 0, b & 128 != 0]
  }

  /** The transmission order of a byte string. */
  function Stream(data: seq<bv8>): (s: seq<bool>)
    ensures |s| == 8 * |data|
  {
    if |data| == 0 then [] else Stream(data[..|data| - 1]) + BitsOf(data[|data| - 1])
  }

  lemma BitsOfInjective(a: bv8, b: bv8)
    requires BitsOf(a) == BitsOf(b)
    ensures a == b
  {
    assert forall i :: 0 <= i < 8 ==> BitsOf(a)[i] == BitsOf(b)[i];
  }

  lemma {:induction false} StreamAt(data: seq<bv8>, i: nat, j: nat)
    requires i < |data| && j < 8
    ensures Stream(data)[8 * i + j] == BitsOf(data[i])[j]
  {
    hide BitsOf;
    if i < |data| - 1 {
      StreamAt(data[..|data| - 1], i, j);
    }
  }

  lemma StreamInjective(x: seq<bv8>, y: seq<bv8>)
    requires Stream(x) == Stream(y)
    ensures x == y
  {
    hide *;
    assert |x| == |y|;
    forall i | 0 <= i < |x| ensures x[i] == y[i] {
      forall j | 0 <= j < 8 ensures BitsOf(x[i])[j] == BitsOf(y[i])[j] {
        StreamAt(x, i, j);
        StreamAt(y, i, j);
      }
      assert BitsOf(x[i]) == BitsOf(y[i]);
      BitsOfInjective(x[i], y[i]);
    }
  }

  function Even(w: bv32): bv32 { w & 0xFFFF_FFFE }

  lemma EvenPart(w: bv32)
    ensures w == Add(Word().In(Odd(w)), Even(w))
  {
    if Odd(w) {
      assert w == 1 ^ (w & 0xFFFF_FFFE);
    } else {
      assert w == 0 ^ (w & 0xFFFF_FFFE);
    }
  }

  lemma EvenStep(w: bv32)
    ensures BitStep(Even(w)) == Half(w)
  {
    assert (w & 0xFFFF_FFFE) & 1 == 0;
    assert (w & 0xFFFF_FFFE) >> 1 == w >> 1;
  }

  /** Half, n times over. */
  function Halved(w: bv32, n: nat): bv32 {
    if n == 0 then w else Half(Halved(w, n - 1))
  }

  lemma HalvedShifts(w: bv32)
    ensures Halved(w, 1) == w >> 1 && Halved(w, 2) == w >> 2 && Halved(w, 3) == w >> 3 && Halved(w, 4) == w >> 4
    ensures Halved(w, 5) == w >> 5 && Halved(w, 6) == w >> 6 && Halved(w, 7) == w >> 7 && Halved(w, 8) == w >> 8
  {
    assert Halved(w, 1) == w >> 1;
    assert Halved(w, 2) == w >> 2;
    assert Halved(w, 3) == w >> 3;
    assert Halved(w, 4) == w >> 4;
    assert Halved(w, 5) == w >> 5;
    assert Halved(w, 6) == w >> 6;
    assert Halved(w, 7) == w >> 7;
  }

  lemma ByteShifts(b: bv8)
    ensures var w := b as bv32; var s := BitsOf(b);
      && Odd(w) == s[0] && Odd(w >> 1) == s[1] && Odd(w >> 2) == s[2] && Odd(w >> 3) == s[3]
      && Odd(w >> 4) == s[4] && Odd(w >> 5) == s[5] && Odd(w >> 6) == s[6] && Odd(w >> 7) == s[7]
      && w >> 8 == 0
  {
  }

  lemma ByteBits(b: bv8, k: nat)
    requires k < 8
    ensures Odd(Halved(b as bv32, k)) == BitsOf(b)[k] && Halved(b as bv32, 8) == 0
  {
    var w := b as bv32;
    assert Halved(w, 0) == w;
    hide Odd, BitsOf, Half, Halved;
    ByteShifts(b);
    HalvedShifts(w);
  }

  /** Folding a whole byte in and stepping eight times is feeding its eight bits. */
  lemma UpdateIsSerial(c: bv32, b: bv8)
    ensures Update(c, b) == Word().Serial(c, BitsOf(b))
  {
    hide BitStep, BitsOf, Lawful, Add, Half, Even, Odd;
    var w: bv32, s := b as bv32, BitsOf(b);
    var pending := seq(9, k requires 0 <= k < 9 => Halved(w, k));
    var even := seq(8, k requires 0 <= k < 8 => Even(Halved(w, k)));
    forall k | 0 <= k < 8
      ensures pending[k] == Add(Word().In(s[k]), even[k]) && BitStep(even[k]) == pending[k + 1]
    {
      ByteBits(b, k);
      EvenPart(Halved(w, k));
      EvenStep(Halved(w, k));
    }
    WordLawful();
    FoldIsSerial(Word(), c, pending, even, s, 8);
    assert s[..8] == s;
    ByteBits(b, 0);
    AddNeutral(Word().Serial(c, s));
  }

  lemma {:induction false} FeedIsSerial(c: bv32, data: seq<bv8>)
    ensures Feed(c, data) == Word().Serial(c, Stream(data))
  {
    hide Update, BitStep, BitsOf, Add;
    if |data| > 0 {
      var init := data[..|data| - 1];
      FeedIsSerial(c, init);
      UpdateIsSerial(Feed(c, init), data[|data| - 1]);
      SerialConcat(Word(), c, Stream(init), BitsOf(data[|data| - 1]));
    }
  }

  // ---------- burst detection ----------

  /** The bit streams of x and y agree outside the 32 consecutive bits from p on. */
  predicate AgreeOutside(x: seq<bv8>, y: seq<bv8>, p: nat)
    requires |x| == |y|
  {
    forall i :: 0 <= i < 8 * |x| && !(p <= i < p + 32) ==> Stream(x)[i] == Stream(y)[i]
  }

  /** For messages of any length, a nonzero error confined to any 32 consecutive bits,
      byte-aligned or not, changes the register. */
  lemma BurstChangesRegister(c: bv32, x: seq<bv8>, y: seq<bv8>, p: nat)
    requires |x| == |y| && AgreeOutside(x, y, p)
    ensures Feed(c, x) == Feed(c, y) <==> x == y
  {
    hide Feed, Word, Lawful, Banded, Stream;
    if Feed(c, x) == Feed(c, y) {
      FeedIsSerial(c, x);
      FeedIsSerial(c, y);
      WordLawful();
      WordBanded();
      BurstDetected(Word(), Low, 32, c, Stream(x), Stream(y), p);
      StreamInjective(x, y);
    }
  }

  /** Four consecutive bytes are such a window. */
  lemma BytesAgreeOutside(x: seq<bv8>, y: seq<bv8>, k: nat)
    requires |x| == |y|
    requires forall i :: 0 <= i < |x| && !(k <= i < k + 4) ==> x[i] == y[i]
    ensures AgreeOutside(x, y, 8 * k)
  {
    hide Stream, BitsOf;
    forall i | 0 <= i < 8 * |x| && !(8 * k <= i < 8 * k + 32)
      ensures Stream(x)[i] == Stream(y)[i]
    {
      StreamAt(x, i / 8, i % 8);
      StreamAt(y, i / 8, i % 8);
    }
  }

  // ---------- the good-message residue ----------

  /** What memcpy into a uint32_t reads on the little-endian targets. */
  function Le32(b: seq<bv8>): bv32
    requires |b| == 4
  {
    (b[0] as bv32) | ((b[1] as bv32) << 8) | ((b[2] as bv32) << 16) | ((b[3] as bv32) << 24)
  }

  function Byte(w: bv32): bv8 { (w & 0xFF) as bv8 }

  function ToLe32(w: bv32): (s: seq<bv8>)
    ensures |s| == 4
  {
    [Byte(w), Byte(w >> 8), Byte(w >> 16), Byte(w >> 24)]
  }

  lemma LeRoundTrip(w: bv32)
    ensures Le32(ToLe32(w)) == w
  {
  }

  lemma LeRoundTripBytes(b: seq<bv8>)
    requires |b| == 4
    ensures ToLe32(Le32(b)) == b
  {
  }

  function High(w: bv32): bv32 { w & 0xFFFF_FF00 }

  function Not(w: bv32): bv32 { w ^ INIT }

  lemma {:induction false} StepsFront(c: bv32, n: nat)
    requires n > 0
    ensures Word().Steps(c, n) == Word().Steps(BitStep(c), n - 1)
  {
    hide BitStep;
    if n > 1 {
      StepsFront(c, n - 1);
    }
  }

  predicate Clear(w: bv32, m: bv32) { w & m == 0 }

  lemma ClearStep(w: bv32, m: bv32)
    requires Clear(w, Wider(m))
    ensures BitStep(w) == Half(w) && Clear(Half(w), m)
  {
    assert w & 1 == 0;
  }

  /** A word whose low n bits are clear just moves down by n bits. */
  lemma {:induction false} ClearSteps(w: bv32, n: nat)
    requires Clear(w, Mask(n))
    ensures Word().Steps(w, n) == Halved(w, n)
    decreases n
  {
    hide BitStep, Wider, Clear, Half;
    if n > 0 {
      ClearStep(w, Mask(n - 1));
      StepsFront(w, n);
      ClearSteps(Half(w), n - 1);
      HalvedFront(w, n);
    }
  }

  lemma {:induction false} HalvedFront(w: bv32, n: nat)
    requires n > 0
    ensures Halved(w, n) == Halved(Half(w), n - 1)
  {
    hide Half;
    if n > 1 {
      HalvedFront(w, n - 1);
    }
  }

  lemma HighClear(w: bv32)
    ensures Clear(High(w), 0xFF)
  {
  }

  lemma HighShift(w: bv32)
    ensures High(w) >> 8 == w >> 8
  {
  }

  lemma Mask8()
    ensures Mask(8) == 0xFF
  {
  }

  lemma CancelWord(k: bv32, r: bv32)
    ensures Add(Add(k, r), Byte(Not(r)) as bv32) == Add(Add(k, 0xFF), High(r))
  {
    assert Byte(Not(r)) as bv32 == (r ^ INIT) & 0xFF;
    assert r ^ ((r ^ INIT) & 0xFF) == 0xFF ^ (r & 0xFFFF_FF00);
  }

  function Down8(r: bv32): bv32 { r >> 8 }

  /** Feeding the low byte of the complement of r cancels that byte of r. */
  lemma CancelByte(k: bv32, r: bv32)
    ensures Update(Add(k, r), Byte(Not(r))) == Add(Update(k, 0xFF), Down8(r))
  {
    hide BitStep, Lawful, Add, High, Byte, Not, Clear, Mask, Half;
    CancelWord(k, r);
    WordLawful();
    StepsLinear(Word(), Add(k, 0xFF), High(r), 8);
    HighClear(r);
    Mask8();
    ClearSteps(High(r), 8);
    HalvedShifts(High(r));
    HighShift(r);
  }

  lemma EightSteps(x0: bv32, x1: bv32, x2: bv32, x3: bv32, x4: bv32, x5: bv32, x6: bv32, x7: bv32, x8: bv32)
    requires BitStep(x0) == x1 && BitStep(x1) == x2 && BitStep(x2) == x3 && BitStep(x3) == x4
    requires BitStep(x4) == x5 && BitStep(x5) == x6 && BitStep(x6) == x7 && BitStep(x7) == x8
    ensures Word().Steps(x0, 8) == x8
  {
  }

  lemma ResidueByte0()
    ensures Update(0, 0xFF) == 0x2D02_EF8D
  {
    EightSteps(0xFF, 0xEDB8_835F, 0x9B64_C28F, 0xA00A_E267, 0xBDBD_F213, 0xB366_7A29, 0xB40B_BE34, 0x5A05_DF1A, 0x2D02_EF8D);
  }

  lemma ResidueByte1()
    ensures Update(0x2D02_EF8D, 0xFF) == 0xBE26_12FF
  {
    EightSteps(0x2D02_EF72, 0x1681_77B9, 0xE6F8_38FC, 0x737C_1C7E, 0x39BE_0E3F, 0xF167_843F, 0x950B_413F, 0xA73D_23BF, 0xBE26_12FF);
  }

  lemma ResidueByte2()
    ensures Update(0xBE26_12FF, 0xFF) == 0x00BE_2612
  {
    EightSteps(0xBE26_1200, 0x5F13_0900, 0x2F89_8480, 0x17C4_C240, 0x0BE2_6120, 0x05F1_3090, 0x02F8_9848, 0x017C_4C24, 0x00BE_2612);
  }

  lemma ResidueByte3()
    ensures Update(0x00BE_2612, 0xFF) == RESIDUE
  {
    EightSteps(0x00BE_26ED, 0xEDE7_9056, 0x76F3_C82B, 0xD6C1_6735, 0x86D8_30BA, 0x436C_185D, 0xCC0E_8F0E, 0x6607_4787, 0xDEBB_20E3);
  }

  lemma {:induction false} FeedConcat(c: bv32, s: seq<bv8>, t: seq<bv8>)
    ensures Feed(c, s + t) == Feed(Feed(c, s), t)
  {
    hide Update;
    if |t| == 0 {
      assert s + t == s;
    } else {
      assert (s + t)[..|s + t| - 1] == s + t[..|t| - 1];
      FeedConcat(c, s, t[..|t| - 1]);
    }
  }

  lemma FeedFour(c: bv32, b: seq<bv8>)
    requires |b| == 4
    ensures Feed(c, b) == Update(Update(Update(Update(c, b[0]), b[1]), b[2]), b[3])
  {
    hide Update;
    assert b[..3][..2] == b[..2] && b[..2][..1] == b[..1] && b[..1][..0] == [];
    assert Feed(c, b[..1]) == Update(c, b[0]);
    assert Feed(c, b[..2]) == Update(Update(c, b[0]), b[1]);
    assert Feed(c, b[..3]) == Update(Update(Update(c, b[0]), b[1]), b[2]);
  }

  lemma NotBytes(r: bv32)
    ensures ToLe32(Not(r)) == [Byte(Not(r)), Byte(Not(Down8(r))), Byte(Not(Down8(Down8(r)))), Byte(Not(Down8(Down8(Down8(r)))))]
  {
  }

  lemma DownToZero(r: bv32)
    ensures Down8(Down8(Down8(Down8(r)))) == 0
  {
  }

  /** Whatever the register, following it with its own complement leaves the constant residue. */
  lemma ComplementLeavesResidue(r: bv32)
    ensures Feed(r, ToLe32(Not(r))) == RESIDUE
  {
    hide *;
    NotBytes(r);
    FeedFour(r, ToLe32(Not(r)));
    AddNeutral(r);
    CancelByte(0, r);
    ResidueByte0();
    var r1 := Down8(r);
    CancelByte(0x2D02_EF8D, r1);
    ResidueByte1();
    var r2 := Down8(r1);
    CancelByte(0xBE26_12FF, r2);
    ResidueByte2();
    CancelByte(0x00BE_2612, Down8(r2));
    ResidueByte3();
    DownToZero(r);
    AddNeutral(RESIDUE);
  }

  /** A body followed by four bytes leaves the residue exactly when those bytes are its checksum. */
  lemma ResidueIff(body: seq<bv8>, stored: seq<bv8>)
    requires |stored| == 4
    ensures Feed(INIT, body + stored) == RESIDUE <==> Le32(stored) == Checksum(body)
  {
    hide Feed, Stream, Le32, Not;
    var r := Feed(INIT, body);
    var good := ToLe32(Not(r));
    assert Not(r) == Checksum(body) by { NotIsAdd(r); }
    FeedConcat(INIT, body, stored);
    ComplementLeavesResidue(r);
    BytesAgreeOutside(stored, good, 0);
    BurstChangesRegister(r, stored, good, 0);
    LeRoundTrip(Not(r));
    LeRoundTripBytes(stored);
  }

  lemma NotIsAdd(r: bv32)
    ensures Not(r) == Add(r, INIT)
  {
  }

  // ---------- the check value ----------

  lemma Digit1()
    ensures Update(0xFFFF_FFFF, 0x31) == 0x7C23_1048
  {
    EightSteps(0xFFFF_FFCE, 0x7FFF_FFE7, 0xD247_7CD3, 0x849B_3D49, 0xAFF5_1D84, 0x57FA_8EC2, 0x2BFD_4761, 0xF846_2090, 0x7C23_1048);
  }

  lemma Digit2()
    ensures Update(0x7C23_1048, 0x32) == 0xB0AC_BB32
  {
    EightSteps(0x7C23_107A, 0x3E11_883D, 0xF2B0_473E, 0x7958_239F, 0xD114_92EF, 0x8532_CA57, 0xAF21_E60B, 0xBA28_7025, 0xB0AC_BB32);
  }

  lemma Digit3()
    ensures Update(0xB0AC_BB32, 0x33) == 0x77B7_9C2D
  {
    EightSteps(0xB0AC_BB01, 0xB5EE_DEA0, 0x5AF7_6F50, 0x2D7B_B7A8, 0x16BD_DBD4, 0x0B5E_EDEA, 0x05AF_76F5, 0xEF6F_385A, 0x77B7_9C2D);
  }

  lemma Digit4()
    ensures Update(0x77B7_9C2D, 0x34) == 0x641C_1F5C
  {
    EightSteps(0x77B7_9C19, 0xD663_4D2C, 0x6B31_A696, 0x3598_D34B, 0xF774_EA85, 0x9602_F662, 0x4B01_7B31, 0xC838_3EB8, 0x641C_1F5C);
  }

  lemma Digit5()
    ensures Update(0x641C_1F5C, 0x35) == 0x340A_C5E3
  {
    EightSteps(0x641C_1F69, 0xDFB6_8C94, 0x6FDB_464A, 0x37ED_A325, 0xF64E_52B2, 0x7B27_2959, 0xD02B_178C, 0x6815_8BC6, 0x340A_C5E3);
  }

  lemma Digit6()
    ensures Update(0x340A_C5E3, 0x36) == 0xF68D_2C9E
  {
    EightSteps(0x340A_C5D5, 0xF7BD_E1CA, 0x7BDE_F0E5, 0xD057_FB52, 0x682B_FDA9, 0xD9AD_7DF4, 0x6CD6_BEFA, 0x366B_5F7D, 0xF68D_2C9E);
  }

  lemma Digit7()
    ensures Update(0xF68D_2C9E, 0x37) == 0xAFFC_9660
  {
    EightSteps(0xF68D_2CA9, 0x96FE_1574, 0x4B7F_0ABA, 0x25BF_855D, 0xFF67_418E, 0x7FB3_A0C7, 0xD261_5343, 0x8488_2A81, 0xAFFC_9660);
  }

  lemma Digit8()
    ensures Update(0xAFFC_9660, 0x38) == 0x651F_2550
  {
    EightSteps(0xAFFC_9658, 0x57FE_4B2C, 0x2BFF_2596, 0x15FF_92CB, 0xE747_4A45, 0x9E1B_2602, 0x4F0D_9301, 0xCA3E_4AA0, 0x651F_2550);
  }

  lemma Digit9()
    ensures Update(0x651F_2550, 0x39) == 0x340B_C6D9
  {
    EightSteps(0x651F_2569, 0xDF37_1194, 0x6F9B_88CA, 0x37CD_C465, 0xF65E_6112, 0x7B2F_3089, 0xD02F_1B64, 0x6817_8DB2, 0x340B_C6D9);
  }

  lemma FeedNext(c: bv32, data: seq<bv8>, b: bv8)
    ensures Feed(c, data + [b]) == Update(Feed(c, data), b) && Feed(c, []) == c
  {
    hide Update;
    assert (data + [b])[..|data|] == data;
  }

  /** The check value of CRC-32/ISO-HDLC: the checksum of the nine bytes "123456789". It fixes the initial
      register, the polynomial, the bit order and the final complement. */
  lemma CheckValue()
    ensures Checksum([0x31, 0x32, 0x33, 0x34, 0x35, 0x36, 0x37, 0x38, 0x39]) == 0xCBF4_3926
  {
    hide Update, Feed, Add;
    var d: seq<bv8> := [];
    Digit1();
    FeedNext(INIT, d, 0x31);
    d := d + [0x31];
    assert Feed(INIT, d) == 0x7C23_1048;
    Digit2();
    FeedNext(INIT, d, 0x32);
    d := d + [0x32];
    assert Feed(INIT, d) == 0xB0AC_BB32;
    Digit3();
    FeedNext(INIT, d, 0x33);
    d := d + [0x33];
    assert Feed(INIT, d) == 0x77B7_9C2D;
    Digit4();
    FeedNext(INIT, d, 0x34);
    d := d + [0x34];
    assert Feed(INIT, d) == 0x641C_1F5C;
    Digit5();
    FeedNext(INIT, d, 0x35);
    d := d + [0x35];
    assert Feed(INIT, d) == 0x340A_C5E3;
    Digit6();
    FeedNext(INIT, d, 0x36);
    d := d + [0x36];
    assert Feed(INIT, d) == 0xF68D_2C9E;
    Digit7();
    FeedNext(INIT, d, 0x37);
    d := d + [0x37];
    assert Feed(INIT, d) == 0xAFFC_9660;
    Digit8();
    FeedNext(INIT, d, 0x38);
    d := d + [0x38];
    assert Feed(INIT, d) == 0x651F_2550;
    Digit9();
    FeedNext(INIT, d, 0x39);
    d := d + [0x39];
    assert Feed(INIT, d) == 0x340B_C6D9;
    assert d == [0x31, 0x32, 0x33, 0x34, 0x35, 0x36, 0x37, 0x38, 0x39];
    CheckComplement();
  }

  lemma CheckComplement()
    ensures Add(0x340B_C6D9, INIT) == 0xCBF4_3926
  {
  }
}
