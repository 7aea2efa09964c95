/** A serial shift register over an arbitrary exclusive-or group: each message bit is
    added in, then the register steps. Everything here follows from the step being
    linear and injective; Crc32 instantiates it with 32-bit words. */
module LinearRegister {

  datatype Register<!W> = Register(step: W -> W, add: (W, W) -> W, zero: W, one: W) {

    function In(b: bool): W { if b then one else zero }

    function Steps(c: W, n: nat): W {
      if n == 0 then c else step(Steps(c, n - 1))
    }

    function Serial(c: W, bits: seq<bool>): W {
      if |bits| == 0 then c
      else step(add(Serial(c, bits[..|bits| - 1]), In(bits[|bits| - 1])))
    }
  }

  ghost predicate Group<W(!new)>(r: Register<W>) {
    && (forall a, b, p, q :: r.add(r.add(a, p), r.add(b, q)) == r.add(r.add(a, b), r.add(p, q)))
    && (forall a :: r.add(a, r.zero) == a)
    && (forall a :: r.add(r.zero, a) == a)
    && (forall a :: r.add(a, a) == r.zero)
  }

  ghost predicate LinearStep<W(!new)>(r: Register<W>) {
    && (forall a, b :: r.step(r.add(a, b)) == r.add(r.step(a), r.step(b)))
    && (forall a :: r.step(a) == r.zero ==> a == r.zero)
  }

  ghost predicate Lawful<W(!new)>(r: Register<W>) {
    Group(r) && LinearStep(r)
  }

  // The laws, one instance at a time: left in the open they rewrite each other forever.

  lemma Interchange<W(!new)>(r: Register<W>, a: W, b: W, p: W, q: W)
    requires Lawful(r)
    ensures r.add(r.add(a, p), r.add(b, q)) == r.add(r.add(a, b), r.add(p, q))
  {
  }

  lemma Neutral<W(!new)>(r: Register<W>, a: W)
    requires Lawful(r)
    ensures r.add(a, r.zero) == a == r.add(r.zero, a) && r.add(a, a) == r.zero
  {
  }

  lemma StepAdd<W(!new)>(r: Register<W>, a: W, b: W)
    requires Lawful(r)
    ensures r.step(r.add(a, b)) == r.add(r.step(a), r.step(b))
  {
  }

  lemma StepKernel<W(!new)>(r: Register<W>, a: W)
    requires Lawful(r)
    ensures r.step(a) == r.zero <==> a == r.zero
  {
    assert r.step(r.add(r.zero, r.zero)) == r.add(r.step(r.zero), r.step(r.zero));
  }

  lemma Cancel<W(!new)>(r: Register<W>, x: W, y: W)
    requires Lawful(r)
    ensures r.add(x, y) == r.zero <==> x == y
  {
    hide Lawful;
    Neutral(r, x);
    Neutral(r, y);
    if r.add(x, y) == r.zero {
      Interchange(r, x, y, x, r.zero);
    }
  }

  lemma {:induction false} StepsLinear<W(!new)>(r: Register<W>, a: W, b: W, n: nat)
    requires Lawful(r)
    ensures r.Steps(r.add(a, b), n) == r.add(r.Steps(a, n), r.Steps(b, n))
  {
    hide Lawful;
    if n > 0 {
      StepsLinear(r, a, b, n - 1);
      StepAdd(r, r.Steps(a, n - 1), r.Steps(b, n - 1));
    }
  }

  lemma {:induction false} SerialConcat<W>(r: Register<W>, c: W, s: seq<bool>, t: seq<bool>)
    ensures r.Serial(c, s + t) == r.Serial(r.Serial(c, s), t)
  {
    if |t| == 0 {
      assert s + t == s;
    } else {
      assert (s + t)[..|s + t| - 1] == s + t[..|t| - 1];
      SerialConcat(r, c, s, t[..|t| - 1]);
    }
  }

  function Xor(s: seq<bool>, t: seq<bool>): (e: seq<bool>)
    requires |s| == |t|
    ensures |e| == |s| && forall i :: 0 <= i < |s| ==> e[i] == (s[i] != t[i])
  {
    seq(|s|, i requires 0 <= i < |s| => s[i] != t[i])
  }

  lemma InXor<W(!new)>(r: Register<W>, a: bool, b: bool)
    requires Lawful(r)
    ensures r.add(r.In(a), r.In(b)) == r.In(a != b)
  {
    hide Lawful;
    Neutral(r, r.one);
    Neutral(r, r.zero);
  }

  /** The difference of two registers depends only on the difference of the messages. */
  lemma {:induction false} SerialLinear<W(!new)>(r: Register<W>, c: W, d: W, s: seq<bool>, t: seq<bool>)
    requires Lawful(r) && |s| == |t|
    ensures r.add(r.Serial(c, s), r.Serial(d, t)) == r.Serial(r.add(c, d), Xor(s, t))
  {
    hide Lawful;
    var n := |s| - 1;
    if n >= 0 {
      SerialLinear(r, c, d, s[..n], t[..n]);
      assert Xor(s, t)[..n] == Xor(s[..n], t[..n]);
      InXor(r, s[n], t[n]);
      var x, y := r.Serial(c, s[..n]), r.Serial(d, t[..n]);
      Interchange(r, x, y, r.In(s[n]), r.In(t[n]));
      StepAdd(r, r.add(x, r.In(s[n])), r.add(y, r.In(t[n])));
    }
  }

  /** A silent stretch neither sets nor clears a difference. */
  lemma {:induction false} ZeroTail<W(!new)>(r: Register<W>, c: W, e: seq<bool>)
    requires Lawful(r)
    requires forall i :: 0 <= i < |e| ==> !e[i]
    ensures r.Serial(c, e) == r.zero <==> c == r.zero
  {
    hide Lawful;
    if |e| > 0 {
      var x := r.Serial(c, e[..|e| - 1]);
      ZeroTail(r, c, e[..|e| - 1]);
      Neutral(r, x);
      StepKernel(r, x);
    }
  }

  /** low(k, w): w is reachable from a zero register by stepping back over k bits. */
  ghost predicate Banded<W(!new)>(r: Register<W>, low: (nat, W) -> bool, width: nat) {
    && low(0, r.zero)
    && (forall k: nat, q, b :: k < width && low(k, r.step(r.add(q, r.In(b)))) ==> low(k + 1, q))
    && (forall k: nat, b :: k < width && low(k, r.step(r.add(r.zero, r.In(b)))) ==> !b)
  }

  lemma {:induction false} BackBound<W(!new)>(r: Register<W>, low: (nat, W) -> bool, width: nat, e: seq<bool>, k: nat)
    requires Banded(r, low, width)
    requires k <= |e| && k <= width && r.Serial(r.zero, e) == r.zero
    ensures low(k, r.Serial(r.zero, e[..|e| - k]))
  {
    if k == 0 {
      assert e[..|e|] == e;
    } else {
      BackBound(r, low, width, e, k - 1);
      var n := |e| - k;
      assert e[..n + 1][..n] == e[..n];
      assert low(k - 1, r.step(r.add(r.Serial(r.zero, e[..n]), r.In(e[n]))));
    }
  }

  /** At most `width` bits that bring the zero register back to zero are all zero. */
  lemma {:induction false} ShortKernel<W(!new)>(r: Register<W>, low: (nat, W) -> bool, width: nat, e: seq<bool>)
    requires Lawful(r) && Banded(r, low, width)
    requires |e| <= width && r.Serial(r.zero, e) == r.zero
    ensures forall i :: 0 <= i < |e| ==> !e[i]
  {
    hide Lawful;
    if |e| > 0 {
      BackBound(r, low, width, e, |e| - 1);
      var first, rest := e[..1], e[1..];
      assert first == [e[0]] && first[..0] == [];
      assert low(|e| - 1, r.step(r.add(r.zero, r.In(e[0]))));
      assert !e[0];
      ZeroTail(r, r.zero, first);
      SerialConcat(r, r.zero, first, rest);
      assert first + rest == e;
      ShortKernel(r, low, width, rest);
      assert forall i :: 1 <= i < |e| ==> e[i] == rest[i - 1];
    }
  }

  /** An error pattern confined to `width` consecutive bits that the register does not see is no error. */
  lemma SilentPattern<W(!new)>(r: Register<W>, low: (nat, W) -> bool, width: nat, head: seq<bool>, window: seq<bool>, tail: seq<bool>)
    requires Lawful(r) && Banded(r, low, width) && |window| <= width
    requires forall i :: 0 <= i < |head| ==> !head[i]
    requires forall i :: 0 <= i < |tail| ==> !tail[i]
    requires r.Serial(r.zero, (head + window) + tail) == r.zero
    ensures forall i :: 0 <= i < |window| ==> !window[i]
  {
    hide Lawful, Banded;
    SerialConcat(r, r.zero, head + window, tail);
    SerialConcat(r, r.zero, head, window);
    ZeroTail(r, r.Serial(r.zero, head + window), tail);
    ZeroTail(r, r.zero, head);
    ShortKernel(r, low, width, window);
  }

  /** The detection theorem: two messages of one length that differ at most within
      `width` consecutive bits and leave the register in the same state are the same message. */
  lemma BurstDetected<W(!new)>(r: Register<W>, low: (nat, W) -> bool, width: nat,
                               c: W, s: seq<bool>, t: seq<bool>, p: nat)
    requires Lawful(r) && Banded(r, low, width)
    requires |s| == |t|
    requires forall i :: 0 <= i < |s| && !(p <= i < p + width) ==> s[i] == t[i]
    requires r.Serial(c, s) == r.Serial(c, t)
    ensures s == t
  {
    hide *;
    SerialLinear(r, c, c, s, t);
    Neutral(r, c);
    Cancel(r, r.Serial(c, s), r.Serial(c, t));
    var e := Xor(s, t);
    var lo := if p < |e| then p else |e|;
    var hi := if p + width < |e| then p + width else |e|;
    assert e == (e[..lo] + e[lo..hi]) + e[hi..];
    SilentPattern(r, low, width, e[..lo], e[lo..hi], e[hi..]);
    forall i | 0 <= i < |e| ensures s[i] == t[i] {
      if lo <= i < hi {
        assert !e[lo..hi][i - lo];
      }
    }
  }

  /** Words pending[0], pending[1], ... whose low bits are `bits`, each the previous one shifted down. */
  ghost predicate Unfolds<W>(r: Register<W>, pending: seq<W>, even: seq<W>, bits: seq<bool>) {
    && |pending| == |bits| + 1 && |even| == |bits|
    && (forall k :: 0 <= k < |bits| ==> pending[k] == r.add(r.In(bits[k]), even[k]))
    && (forall k :: 0 <= k < |bits| ==> r.step(even[k]) == pending[k + 1])
  }

  /** Adding a whole word in and stepping is feeding its bits one by one. */
  lemma {:induction false} FoldIsSerial<W(!new)>(r: Register<W>, c: W, pending: seq<W>, even: seq<W>, bits: seq<bool>, n: nat)
    requires Lawful(r) && Unfolds(r, pending, even, bits) && n <= |bits|
    ensures r.Steps(r.add(c, pending[0]), n) == r.add(r.Serial(c, bits[..n]), pending[n])
  {
    hide Lawful;
    if n > 0 {
      FoldIsSerial(r, c, pending, even, bits, n - 1);
      assert bits[..n][..n - 1] == bits[..n - 1];
      var reg, b, ev := r.Serial(c, bits[..n - 1]), r.In(bits[n - 1]), even[n - 1];
      Neutral(r, reg);
      Neutral(r, ev);
      Interchange(r, reg, r.zero, b, ev);
      Interchange(r, reg, b, r.zero, ev);
      StepAdd(r, r.add(reg, b), ev);
    }
  }
}
