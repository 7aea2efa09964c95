/** The event queue of wink_event.c over the byte ring, in the 24-byte record layout of the 32-bit
    targets. The list functions come first; the class below is proved equal to them byte by byte. */
module EventQueue {
  import opened Status
  import opened Arith
  import opened Bits
  import opened RingBuf

  const EVENT_SIZE := 24
  /** offsetof(device) + sizeof(void *): the type and the device. */
  const MATCH_SIZE := 8
  const DISTANCE_READY := 4
  const U64 := 0x1_0000_0000_0000_0000

  /** `pad` is the four alignment bytes before the timestamp. */
  datatype Event = Event(kind: nat, device: nat, param: nat, pad: seq<Byte>, timestamp: nat)

  predicate Fits(e: Event) {
    e.kind < U32 && e.device < U32 && e.param < U32 && |e.pad| == 4 && e.timestamp < U64
  }

  predicate SameSource(a: Event, b: Event) { a.kind == b.kind && a.device == b.device }

  // ---------- the queue as a list ----------

  /** First queued event from i on with the same type and device, or the length. */
  function FindSame(q: seq<Event>, e: Event, i: nat): (r: nat)
    requires i <= |q|
    ensures i <= r <= |q|
    ensures r < |q| ==> SameSource(q[r], e)
    ensures forall k :: i <= k < r ==> !SameSource(q[k], e)
    decreases |q| - i
  {
    if i == |q| || SameSource(q[i], e) then i else FindSame(q, e, i + 1)
  }

  /** A post: coalesce a distance event into the one already queued, refuse at the ceiling, else append. */
  function Posted(q: seq<Event>, capacity: nat, e: Event): (Status, seq<Event>) {
    var r := FindSame(q, e, 0);
    if e.kind == DISTANCE_READY && r < |q| then (Ok, q[r := e])
    else if |q| >= capacity then (ResourceExhausted, q)
    else (Ok, q + [e])
  }

  // ---------- records as bytes ----------

  function Le(n: nat, k: nat): (s: seq<Byte>)
    ensures |s| == k
  {
    if k == 0 then [] else [n % 256] + Le(n / 256, k - 1)
  }

  function UnLe(s: seq<Byte>): nat {
    if |s| == 0 then 0 else s[0] + 256 * UnLe(s[1..])
  }

  function Pow256(k: nat): nat { if k == 0 then 1 else 256 * Pow256(k - 1) }

  lemma {:induction false} LeRoundTrip(n: nat, k: nat)
    requires n < Pow256(k)
    ensures UnLe(Le(n, k)) == n
  {
    if k > 0 {
      assert n / 256 < Pow256(k - 1);
      LeRoundTrip(n / 256, k - 1);
      assert Le(n, k)[1..] == Le(n / 256, k - 1);
    }
  }

  lemma Widths()
    ensures Pow256(4) == U32 && Pow256(8) == U64
  {
    assert Pow256(2) == 65536;
    assert Pow256(4) == U32;
    assert Pow256(6) == 65536 * U32;
  }

  function Encode(e: Event): (b: seq<Byte>)
    requires Fits(e)
    ensures |b| == EVENT_SIZE
  {
    Le(e.kind, 4) + Le(e.device, 4) + Le(e.param, 4) + e.pad + Le(e.timestamp, 8)
  }

  function Decode(b: seq<Byte>): Event
    requires |b| == EVENT_SIZE
  {
    Event(UnLe(b[0..4]), UnLe(b[4..8]), UnLe(b[8..12]), b[12..16], UnLe(b[16..24]))
  }

  lemma Parts(k: seq<Byte>, d: seq<Byte>, p: seq<Byte>, pad: seq<Byte>, t: seq<Byte>)
    requires |k| == |d| == |p| == |pad| == 4 && |t| == 8
    ensures var b := k + d + p + pad + t;
      b[0..4] == k && b[4..8] == d && b[8..12] == p && b[12..16] == pad && b[16..24] == t && b[0..8] == k + d
  {
  }

  lemma EventRoundTrip(e: Event)
    requires Fits(e)
    ensures Decode(Encode(e)) == e
  {
    hide Le, UnLe, Pow256;
    Parts(Le(e.kind, 4), Le(e.device, 4), Le(e.param, 4), e.pad, Le(e.timestamp, 8));
    Widths();
    LeRoundTrip(e.kind, 4);
    LeRoundTrip(e.device, 4);
    LeRoundTrip(e.param, 4);
    LeRoundTrip(e.timestamp, 8);
  }

  /** The first eight bytes are the type and the device, and nothing else. */
  lemma KeyBytes(a: Event, b: Event)
    requires Fits(a) && Fits(b)
    ensures Encode(a)[0..0 + MATCH_SIZE] == Encode(b)[0..0 + MATCH_SIZE] <==> SameSource(a, b)
  {
    hide Le, UnLe, Pow256;
    Parts(Le(a.kind, 4), Le(a.device, 4), Le(a.param, 4), a.pad, Le(a.timestamp, 8));
    Parts(Le(b.kind, 4), Le(b.device, 4), Le(b.param, 4), b.pad, Le(b.timestamp, 8));
    var ka, kb := Le(a.kind, 4) + Le(a.device, 4), Le(b.kind, 4) + Le(b.device, 4);
    if ka == kb {
      Widths();
      LeRoundTrip(a.kind, 4);
      LeRoundTrip(a.device, 4);
      LeRoundTrip(b.kind, 4);
      LeRoundTrip(b.device, 4);
      assert ka[0..4] == kb[0..4] && ka[4..8] == kb[4..8];
    }
  }

  predicate AllFit(q: seq<Event>) { forall i :: 0 <= i < |q| ==> Fits(q[i]) }

  function Flatten(q: seq<Event>): (b: seq<Byte>)
    requires AllFit(q)
    ensures |b| == EVENT_SIZE * |q|
  {
    if |q| == 0 then [] else Flatten(q[..|q| - 1]) + Encode(q[|q| - 1])
  }

  lemma {:induction false} RecordAt(q: seq<Event>, i: nat)
    requires AllFit(q) && i < |q|
    ensures Flatten(q)[i * EVENT_SIZE..i * EVENT_SIZE + EVENT_SIZE] == Encode(q[i])
  {
    hide Encode;
    var init := q[..|q| - 1];
    if i < |q| - 1 {
      RecordAt(init, i);
      assert Flatten(q)[i * EVENT_SIZE..i * EVENT_SIZE + EVENT_SIZE] == Flatten(init)[i * EVENT_SIZE..i * EVENT_SIZE + EVENT_SIZE];
    }
  }

  lemma {:induction false} FlattenConcat(p: seq<Event>, q: seq<Event>)
    requires AllFit(p) && AllFit(q)
    ensures AllFit(p + q) && Flatten(p + q) == Flatten(p) + Flatten(q)
  {
    hide Encode;
    if |q| == 0 {
      assert p + q == p;
    } else {
      assert (p + q)[..|p + q| - 1] == p + q[..|q| - 1];
      FlattenConcat(p, q[..|q| - 1]);
    }
  }

  lemma FlattenOne(e: Event)
    requires Fits(e)
    ensures AllFit([e]) && Flatten([e]) == Encode(e)
  {
    hide Encode;
    assert [e][..0] == [];
  }

  /** Rewriting record r is updating entry r. */
  lemma ReplaceRecord(q: seq<Event>, r: nat, e: Event)
    requires AllFit(q) && Fits(e) && r < |q|
    ensures AllFit(q[r := e]) && |Flatten(q)| / EVENT_SIZE == |q|
    ensures Replace(Flatten(q), Encode(e), r) == Flatten(q[r := e])
  {
    hide Encode, Flatten;
    var head, tail := q[..r], q[r + 1..];
    assert q == head + [q[r]] + tail && q[r := e] == head + [e] + tail;
    FlattenOne(e);
    FlattenOne(q[r]);
    FlattenConcat(head, [q[r]]);
    FlattenConcat(head + [q[r]], tail);
    FlattenConcat(head, [e]);
    FlattenConcat(head + [e], tail);
  }

  lemma RecordCount(q: seq<Event>)
    requires AllFit(q)
    ensures |Flatten(q)| / EVENT_SIZE == |q|
  {
  }

  lemma SlicePrefix(c: seq<Byte>, at: nat, size: nat, n: nat)
    requires n <= size && at + size <= |c|
    ensures c[at..at + n] == c[at..at + size][..n]
  {
  }

  /** Record r carries the key of e exactly when entry r has its source. */
  lemma RecordMatches(q: seq<Event>, e: Event, r: nat)
    requires AllFit(q) && Fits(e) && r < |q|
    ensures |Flatten(q)| / EVENT_SIZE == |q|
    ensures MatchesAt(Flatten(q), Encode(e), 0, MATCH_SIZE, r) <==> SameSource(q[r], e)
  {
    hide Encode, Flatten, Fits, AllFit, SameSource;
    assert Fits(q[r]) by { OneFits(q, r); }
    RecordCount(q);
    RecordAt(q, r);
    KeyBytes(q[r], e);
    SlicePrefix(Flatten(q), r * EVENT_SIZE, EVENT_SIZE, MATCH_SIZE);
  }

  lemma OneFits(q: seq<Event>, r: nat)
    requires AllFit(q) && r < |q|
    ensures Fits(q[r])
  {
  }

  lemma FindSameStep(q: seq<Event>, e: Event, i: nat)
    requires i < |q|
    ensures FindSame(q, e, i) == if SameSource(q[i], e) then i else FindSame(q, e, i + 1)
  {
  }

  /** The byte-level search finds the same entry as the list search. */
  lemma {:induction false} SearchAgrees(q: seq<Event>, e: Event, i: nat)
    requires AllFit(q) && Fits(e) && i <= |q|
    ensures |Flatten(q)| / EVENT_SIZE == |q|
    ensures FirstMatch(Flatten(q), Encode(e), 0, MATCH_SIZE, i) == FindSame(q, e, i)
    decreases |q| - i
  {
    hide Encode, Flatten;
    RecordCount(q);
    if i < |q| {
      hide Fits, AllFit, SameSource, MatchesAt, FindSame, FirstMatch;
      RecordMatches(q, e, i);
      FindSameStep(q, e, i);
      FirstMatchStep(Flatten(q), Encode(e), 0, MATCH_SIZE, i);
      SearchAgrees(q, e, i + 1);
    }
  }

  lemma CoalesceAgrees(q: seq<Event>, e: Event)
    requires AllFit(q) && Fits(e)
    ensures var r := FindSame(q, e, 0);
      Coalesced(Flatten(q), Encode(e), 0, MATCH_SIZE)
      == if r < |q| then (Flatten(q[r := e]), true) else (Flatten(q), false)
  {
    hide Encode, Flatten, FirstMatch, Replace;
    SearchAgrees(q, e, 0);
    var r := FindSame(q, e, 0);
    if r < |q| {
      ReplaceRecord(q, r, e);
    }
  }

  // ---------- the ring is large enough ----------

  /** The byte size init asks for, with both overflows of the source. */
  function BufferSize(capacity: nat): nat {
    RoundUpPow2(Ceiling(capacity))
  }

  /** The logical ceiling in bytes, as init and post compute it. */
  function Ceiling(capacity: nat): nat {
    (capacity * EVENT_SIZE) % U32
  }

  /** How many events the queue takes: post refuses at the ceiling, the ring when its buffer is full. */
  function Room(capacity: nat): nat {
    Min((Ceiling(capacity) + EVENT_SIZE - 1) / EVENT_SIZE, BufferSize(capacity) / EVENT_SIZE)
  }

  /** The buffer can hold `capacity` events exactly when their bytes fit half the 32-bit range. */
  lemma BufferHoldsIff(capacity: nat)
    requires 0 < capacity < U32
    ensures capacity * EVENT_SIZE <= BufferSize(capacity) <==> capacity * EVENT_SIZE <= 0x8000_0000
    ensures capacity * EVENT_SIZE <= 0x8000_0000 ==> RingSize(BufferSize(capacity))
  {
    hide RoundUpPow2;
    var v := capacity * EVENT_SIZE;
    if v % U32 > 0 {
      RoundUpIsLeast(v % U32);
    } else {
      assert RoundUpPow2(0) == 1 by { RoundUpZero(); }
    }
    if v <= 0x8000_0000 {
      ModSmall(v, U32);
      Pow2Is32();
      PowerFits(BufferSize(capacity));
    }
  }

  /** The queue takes exactly the capacity asked for if and only if that many events fit half the 32-bit
      range; then the ring never refuses below the ceiling. */
  lemma RoomIff(capacity: nat)
    requires 0 < capacity < U32
    ensures Room(capacity) == capacity <==> capacity * EVENT_SIZE <= 0x8000_0000
    ensures Room(capacity) == capacity ==> capacity * EVENT_SIZE == Ceiling(capacity) <= BufferSize(capacity)
  {
    BufferHoldsIff(capacity);
    if capacity * EVENT_SIZE <= 0x8000_0000 {
      ModSmall(capacity * EVENT_SIZE, U32);
    }
    hide BufferSize;
  }

  lemma RoundUpZero()
    ensures RoundUpPow2(0) == 1
  {
  }

  lemma PowerFits(n: nat)
    requires IsPow2(n) && n <= 0x8000_0000
    ensures RingSize(n)
  {
    var k: nat :| n == Pow2(k);
    Pow2Is32();
    if k >= 32 {
      Pow2Monotone(32, k);
    }
  }

  // ---------- the queue in place ----------

  class Queue {
    const ring: Ring
    const capacity: nat
    ghost var events: seq<Event>

    ghost predicate Valid()
      reads this, ring, ring.buffer
    {
      && ring.Valid() && AllFit(events) && ring.Contents() == Flatten(events)
      && |events| <= Room(capacity) && ring.size == BufferSize(capacity) <= 0x8000_0000
    }

    /** wink_event_queue_init, past its power-of-two check, unless it asks for an empty buffer. */
    constructor (capacity: nat)
      requires BufferSize(capacity) > 0
      ensures Valid() && fresh(ring) && fresh(ring.buffer) && events == [] && this.capacity == capacity
    {
      BufferBound(capacity);
      hide BufferSize, RingSize;
      var size := BufferSize(capacity);
      this.capacity := capacity;
      ring := new Ring(size);
      events := [];
    }

    /** The update in place that a DISTANCE_READY event tries first. */
    method TryCoalesce(e: Event, record: array<Byte>) returns (found: bool)
      requires Valid() && Fits(e) && record.Length == EVENT_SIZE && record[..] == Encode(e) && record != ring.buffer
      modifies this, ring.buffer
      ensures Valid() && record[..] == Encode(e)
      ensures var r := FindSame(old(events), e, 0);
        found == (r < |old(events)|) && events == if found then old(events)[r := e] else old(events)
    {
      hide Encode, Flatten, FirstMatch, Replace, Coalesced;
      CoalesceAgrees(events, e);
      assert record[..EVENT_SIZE] == record[..];
      found := ring.Coalesce(record, EVENT_SIZE, 0, MATCH_SIZE);
      if found {
        events := events[FindSame(events, e, 0) := e];
      }
    }

    /** The push, below the logical ceiling. */
    method Append(e: Event, record: array<Byte>) returns (status: Status)
      requires Valid() && Fits(e) && record.Length == EVENT_SIZE && record[..] == Encode(e) && record != ring.buffer
      requires |events| * EVENT_SIZE < Ceiling(capacity)
      modifies this, ring, ring.buffer
      ensures Valid()
      ensures status == if |old(events)| < Room(capacity) then Ok else Full
      ensures events == if status == Ok then old(events) + [e] else old(events)
    {
      hide Encode, Flatten, BufferSize, Ceiling;
      ghost var before := ring.Contents();
      assert record[..EVENT_SIZE] == record[..];
      status := ring.Push(record, EVENT_SIZE);
      ModSmall(|before| + EVENT_SIZE, U32);
      if status == Ok {
        AppendedBytes(before, Encode(e), EVENT_SIZE * |events|);
        FlattenOne(e);
        FlattenConcat(events, [e]);
        events := events + [e];
      }
    }

    /** wink_event_post; `give` tells whether it signals the semaphore. */
    method Post(e: Event) returns (status: Status, give: bool)
      requires Valid() && Fits(e)
      modifies this, ring, ring.buffer
      ensures Valid()
      ensures (status, events) == Posted(old(events), Room(capacity), e)
      ensures give == (|events| > |old(events)|)
    {
      hide Encode, Flatten, FindSame;
      var bytes := Encode(e);
      var record := new Byte[EVENT_SIZE](i requires 0 <= i < EVENT_SIZE => bytes[i]);
      assert record[..] == bytes;
      if e.kind == DISTANCE_READY {
        var found := TryCoalesce(e, record);
        if found {
          return Ok, false;
        }
      }
      if ring.Used() >= Ceiling(capacity) {
        return ResourceExhausted, false;
      }
      status := Append(e, record);
      give := status == Ok;
      if status == Full {
        status := ResourceExhausted;
      }
    }

    /** The pop that wink_event_pend tries first and after every wake-up. */
    method TryPop() returns (status: Status, e: Event)
      requires Valid()
      modifies this, ring
      ensures Valid()
      ensures old(events) == [] ==> status == Empty && events == []
      ensures old(events) != [] ==> status == Ok && e == old(events)[0] && events == old(events)[1..]
    {
      hide Encode, Decode, Flatten;
      var out := new Byte[EVENT_SIZE](_ => 0);
      ghost var before := events;
      status := ring.Pop(out, EVENT_SIZE);
      e := Decode(out[..]);
      if status == Ok {
        assert before == [before[0]] + before[1..];
        FlattenOne(before[0]);
        FlattenConcat([before[0]], before[1..]);
        assert out[..] == out[..EVENT_SIZE] == Encode(before[0]);
        EventRoundTrip(before[0]);
        events := before[1..];
      }
    }
  }

  lemma BufferBound(capacity: nat)
    requires BufferSize(capacity) > 0
    ensures BufferSize(capacity) <= 0x8000_0000 && RingSize(BufferSize(capacity))
  {
    hide RoundUpPow2;
    if Ceiling(capacity) > 0 {
      RoundUpIsLeast(Ceiling(capacity));
    } else {
      RoundUpZero();
      assert IsPow2(1) by { assert Pow2(0) == 1; }
    }
    PowerFits(BufferSize(capacity));
  }

  lemma AppendedBytes(c: seq<Byte>, d: seq<Byte>, n: nat)
    requires |c| == n
    ensures Last(c + d, n + |d|) == c + d
  {
  }
}
