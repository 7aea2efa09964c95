/** The byte ring buffer of pal_osal_ringbuf.c: free-running 32-bit indices, masked into the buffer. */
module RingBuf {
  import opened Status
  import opened Arith
  import opened Bits

  type Byte = b: int | 0 <= b < 256

  /** Where stream position j of a ring that starts at `tail` lives. */
  function Cell(tail: nat, j: nat, size: nat): (c: nat)
    requires size > 0
    ensures c < size
  {
    (tail + j) % size
  }

  function Last(s: seq<Byte>, n: nat): seq<Byte>
    requires n <= |s|
  {
    s[|s| - n..]
  }

  /** Sizes the buffer may have: 1, 2, 4, ..., 2^31. */
  ghost predicate RingSize(size: nat) {
    exists k: nat :: k <= 31 && size == Pow2(k)
  }

  lemma SizeDividesWord(size: nat) returns (k: nat)
    requires RingSize(size)
    ensures k > 0 && k * size == U32 && size > 0
    ensures forall x: nat :: And(x, size - 1) == x % size
  {
    var e: nat :| e <= 31 && size == Pow2(e);
    Pow2Is32();
    Pow2Sum(32 - e, e);
    k := Pow2(32 - e);
    forall x: nat ensures And(x, size - 1) == x % size {
      MaskIsMod(x, e);
    }
  }

  /** A wrapped index lands in the cell of its stream position. */
  lemma MaskedCell(tail: nat, j: nat, size: nat)
    requires RingSize(size)
    ensures size > 0 && And((tail + j) % U32, size - 1) == Cell(tail, j, size)
  {
    var k := SizeDividesWord(size);
    ModThrough(tail + j, size, k);
  }

  /** A whole number of words further is the same cell. */
  lemma WordLater(tail: nat, j: nat, size: nat)
    requires RingSize(size)
    ensures size > 0 && Cell(tail, j + U32, size) == Cell(tail, j, size)
  {
    var k := SizeDividesWord(size);
    ModShift(k, tail + j, size);
  }

  lemma CellsDistinct(tail: nat, i: nat, j: nat, size: nat)
    requires size > 0 && i < j < i + size
    ensures Cell(tail, i, size) != Cell(tail, j, size)
  {
    ModDistinct(tail + i, tail + j, size);
  }

  /** The source's creation check, which a size of zero also passes. */
  predicate CreateAccepts(size: nat)
    requires size < U32
  {
    And(size, (size + U32 - 1) % U32) == 0
  }

  lemma CreateChecksPowers(size: nat)
    requires size < U32
    ensures CreateAccepts(size) <==> size == 0 || RingSize(size)
  {
    Pow2Is32();
    if size > 0 {
      ModShift(1, size - 1, U32);
      ModSmall(size - 1, U32);
      PowerTest(size);
      forall k: nat | size == Pow2(k) ensures k <= 31 {
        if k >= 32 {
          Pow2Monotone(32, k);
        }
      }
    }
  }

  /** The cells hold the last |cells| bytes of the stream st written since `tail`. */
  predicate Stored(cells: seq<Byte>, tail: nat, st: seq<Byte>)
    requires |cells| > 0
  {
    forall j :: 0 <= j < |st| && |st| - |cells| <= j ==> cells[Cell(tail, j, |cells|)] == st[j]
  }

  lemma StoreOne(cells: seq<Byte>, tail: nat, st: seq<Byte>, b: Byte)
    requires |cells| > 0 && Stored(cells, tail, st)
    ensures Stored(cells[Cell(tail, |st|, |cells|) := b], tail, st + [b])
  {
    forall j | 0 <= j < |st| && |st| + 1 - |cells| <= j
      ensures Cell(tail, j, |cells|) != Cell(tail, |st|, |cells|)
    {
      CellsDistinct(tail, j, |st|, |cells|);
    }
    hide Cell;
  }

  lemma StoredAt(cells: seq<Byte>, tail: nat, st: seq<Byte>, j: nat)
    requires |cells| > 0 && Stored(cells, tail, st) && j < |st| && |st| - |cells| <= j
    ensures cells[Cell(tail, j, |cells|)] == st[j]
  {
  }

  class Ring {
    const buffer: array<Byte>
    const size: nat
    var head: nat
    var tail: nat

    /** head - tail in 32-bit arithmetic. */
    function Used(): (u: nat)
      reads this
      requires head < U32 && tail < U32
      ensures u < U32
    {
      (head + U32 - tail) % U32
    }

    ghost predicate Valid()
      reads this, buffer
    {
      RingSize(size) && 0 < size && buffer.Length == size && head < U32 && tail < U32 && Used() <= size
    }

    /** The queued bytes, oldest first. */
    ghost function Contents(): (c: seq<Byte>)
      reads this, buffer
      requires Valid()
      ensures |c| == Used()
    {
      seq(Used(), j requires Valid() && 0 <= j < Used() reads this, buffer => buffer[Cell(tail, j, size)])
    }

    constructor (size: nat)
      requires RingSize(size)
      ensures Valid() && fresh(buffer) && this.size == size && Contents() == []
    {
      this.size := size;
      buffer := new Byte[size](_ => 0);
      head := 0;
      tail := 0;
      new;
      var k := SizeDividesWord(size);
    }

    /** The cells hold the last `size` bytes of the stream st written since `tail`. */
    ghost predicate Holds(st: seq<Byte>)
      reads this, buffer
    {
      0 < size && buffer.Length == size && head == EndIndex(tail, |st|, U32) && Stored(buffer[..], tail, st)
    }

    lemma StreamOfContents()
      requires Valid()
      ensures Holds(Contents()) && |Contents()| == Used()
    {
      HeadFromUsed(head, tail);
    }

    /** Reading the contents back from a stream: the last Used() bytes of it. */
    lemma ContentsOfStream(st: seq<Byte>)
      requires RingSize(size) && head < U32 && tail < U32 && Holds(st) && |st| < 2 * U32 && |st| % U32 <= size
      ensures Valid() && Used() == |st| % U32 && Contents() == Last(st, Used())
    {
      hide Cell;
      UsedFromHead(tail, |st|);
      forall j | 0 <= j < Used() ensures Contents()[j] == Last(st, Used())[j] {
        StreamByte(st, j, Used());
      }
    }

    lemma StreamByte(st: seq<Byte>, j: nat, used: nat)
      requires RingSize(size) && Holds(st) && |st| < 2 * U32 && used == |st| % U32 <= size && j < used <= |st|
      ensures buffer[Cell(tail, j, size)] == st[|st| - used + j]
    {
      hide Cell;
      ModOnce(|st|, U32);
      WordLater(tail, j, size);
    }

    /** Append n bytes, or refuse: the source compares used + n with the size in 32-bit arithmetic. */
    method Push(data: array<Byte>, n: nat) returns (status: Status)
      requires Valid() && n < U32 && n <= data.Length && data != buffer
      modifies this`head, buffer
      ensures Valid() && tail == old(tail)
      ensures status == (if (old(Used()) + n) % U32 > size then Full else Ok)
      ensures status == Full ==> Contents() == old(Contents())
      ensures status == Ok ==>
        Used() == (old(Used()) + n) % U32 && Contents() == Last(old(Contents()) + data[..n], Used())
    {
      if (Used() + n) % U32 > size {
        return Full;
      }
      ghost var before := Contents();
      StreamOfContents();
      PushBytes(data, n, before);
      ContentsOfStream(before + data[..n]);
      status := Ok;
    }

    method PushBytes(data: array<Byte>, n: nat, ghost before: seq<Byte>)
      requires RingSize(size) && head < U32 && tail < U32 && Holds(before) && n <= data.Length && data != buffer
      modifies this`head, buffer
      ensures head < U32 && Holds(before + data[..n])
    {
      hide RingSize, Holds;
      assert before + data[..0] == before;
      for i := 0 to n
        invariant head < U32 && Holds(before + data[..i])
      {
        PutByte(data[i], before + data[..i]);
        assert before + data[..i] + [data[i]] == before + data[..i + 1];
      }
    }

    /** The body of the write loop. */
    method PutByte(b: Byte, ghost st: seq<Byte>)
      requires RingSize(size) && head < U32 && tail < U32 && Holds(st)
      modifies this`head, buffer
      ensures head < U32 && Holds(st + [b])
    {
      BeforePut(st, b);
      hide *;
      buffer[And(head, size - 1)] := b;
      head := NextIndex(head, U32);
      assert buffer[..] == old(buffer[..])[And(old(head), size - 1) := b];
      AfterPut(st + [b]);
    }

    lemma BeforePut(st: seq<Byte>, b: Byte)
      requires RingSize(size) && head < U32 && tail < U32 && Holds(st)
      ensures 0 < size == buffer.Length && And(head, size - 1) < size
      ensures Stored(buffer[..][And(head, size - 1) := b], tail, st + [b])
      ensures NextIndex(head, U32) == EndIndex(tail, |st + [b]|, U32)
    {
      MaskedCell(tail, |st|, size);
      EndPush(tail, |st|, U32);
      hide RingSize, Cell, Stored, And, NextIndex;
      StoreOne(buffer[..], tail, st, b);
    }

    lemma AfterPut(st: seq<Byte>)
      requires 0 < size == buffer.Length && head == EndIndex(tail, |st|, U32) && Stored(buffer[..], tail, st)
      ensures Holds(st)
    {
      hide Stored, EndIndex;
    }

    /** Take the n oldest bytes out, or refuse. */
    method Pop(data: array<Byte>, n: nat) returns (status: Status)
      requires Valid() && n < U32 && n <= data.Length && data != buffer
      modifies this`tail, data
      ensures Valid() && head == old(head)
      ensures status == (if old(Used()) < n then Empty else Ok)
      ensures status == Empty ==> Contents() == old(Contents()) && data[..] == old(data[..])
      ensures status == Ok ==> data[..n] == old(Contents())[..n] && Contents() == old(Contents())[n..]
      ensures status == Ok ==> data[n..] == old(data[n..])
    {
      if Used() < n {
        return Empty;
      }
      ghost var before := Contents();
      ghost var t0 := tail;
      StreamOfContents();
      PopBytes(data, n, before);
      ContentsAfterPop(before, t0, n);
      assert data[..n] == before[..n];
      status := Ok;
    }

    method PopBytes(data: array<Byte>, n: nat, ghost before: seq<Byte>)
      requires RingSize(size) && 0 < size && buffer.Length == size && data != buffer && tail < U32
      requires n <= data.Length && n <= |before| <= size && Stored(buffer[..], tail, before)
      modifies this`tail, data
      ensures tail == (old(tail) + n) % U32
      ensures data[..] == before[..n] + old(data[n..])
    {
      ghost var original := data[..];
      ghost var t0 := tail;
      ModSmall(tail, U32);
      hide Cell, And, RingSize, Stored;
      for i := 0 to n
        invariant tail == (t0 + i) % U32
        invariant data[..] == before[..i] + original[i..]
      {
        StoredAt(buffer[..], t0, before, i);
        Splice(before, original, i);
        TakeByte(data, i, t0);
      }
    }

    /** The body of the read loop. */
    method TakeByte(data: array<Byte>, i: nat, ghost t0: nat)
      requires RingSize(size) && 0 < size && buffer.Length == size && data != buffer
      requires i < data.Length && tail == (t0 + i) % U32
      modifies this`tail, data
      ensures tail == (t0 + i + 1) % U32
      ensures data[..] == old(data[..])[i := buffer[Cell(t0, i, size)]]
    {
      MaskedCell(t0, i, size);
      data[i] := buffer[And(tail, size - 1)];
      tail := (tail + 1) % U32;
      ModSum(t0 + i, 1, U32);
    }

    lemma ContentsAfterPop(before: seq<Byte>, t0: nat, n: nat)
      requires RingSize(size) && 0 < size && buffer.Length == size && head < U32 && t0 < U32
      requires tail == (t0 + n) % U32 && n <= |before| == (head + U32 - t0) % U32 <= size
      requires forall j :: 0 <= j < |before| ==> buffer[Cell(t0, j, size)] == before[j]
      ensures Valid() && Contents() == before[n..]
    {
      UsedAfterPop(head, t0, n);
      forall j | 0 <= j < Used() ensures Contents()[j] == before[n..][j] {
        ShiftedCell(t0, n, j, size);
      }
    }

    /** The comparison loop of the coalescer, for one queued record. */
    method Compare(itemTail: nat, event: array<Byte>, matchOffset: nat, matchSize: nat, ghost at: nat) returns (match_: bool)
      requires Valid() && itemTail == (tail + at) % U32 && matchOffset + matchSize <= event.Length
      requires at + matchOffset + matchSize <= Used()
      ensures match_ <==> Contents()[at + matchOffset..at + matchOffset + matchSize] == event[matchOffset..matchOffset + matchSize]
    {
      hide And, Cell, Valid, Contents, RingSize;
      match_ := true;
      ghost var key := Contents()[at + matchOffset..at + matchOffset + matchSize];
      ghost var pattern := event[matchOffset..matchOffset + matchSize];
      var k := 0;
      while k < matchSize
        invariant k <= matchSize && match_
        invariant key[..k] == pattern[..k]
      {
        ItemByte(at, matchOffset + k);
        var pos := And((itemTail + matchOffset + k) % U32, size - 1);
        OneMoreEqual(key, pattern, k);
        if buffer[pos] != event[matchOffset + k] {
          match_ := false;
          break;
        }
        k := k + 1;
      }
      assert key[..matchSize] == key && pattern[..matchSize] == pattern;
    }

    lemma ItemByte(at: nat, k: nat)
      requires Valid() && at + k < Used()
      ensures Cell(tail, at + k, size) < buffer.Length && Contents()[at + k] == buffer[Cell(tail, at + k, size)]
      ensures And(((tail + at) % U32 + k) % U32, size - 1) == Cell(tail, at + k, size)
    {
      ItemCell(at, k);
    }

    /** The index arithmetic of the coalescer addresses the intended stream position. */
    lemma ItemCell(at: nat, k: nat)
      requires Valid()
      ensures And(((tail + at) % U32 + k) % U32, size - 1) == Cell(tail, at + k, size)
    {
      ModSum(tail + at, k, U32);
      MaskedCell(tail, at + k, size);
    }

    /** The rewrite loop of the coalescer. */
    method Rewrite(itemTail: nat, event: array<Byte>, eventSize: nat, ghost at: nat)
      requires Valid() && itemTail == (tail + at) % U32 && eventSize <= event.Length && event != buffer
      requires at + eventSize <= Used()
      modifies buffer
      ensures Valid() && Contents() == old(Contents())[..at] + event[..eventSize] + old(Contents())[at + eventSize..]
    {
      hide Cell, And;
      ghost var before := Contents();
      for k := 0 to eventSize
        invariant Valid()
        invariant Contents() == before[..at] + event[..k] + before[at + k..]
      {
        ItemCell(at, k);
        var pos := And((itemTail + k) % U32, size - 1);
        SetByte(pos, event[k], at + k);
        Overlay(before, event[..eventSize], at, k);
        assert event[..eventSize][..k] == event[..k] && event[..eventSize][..k + 1] == event[..k + 1];
      }
    }

    method SetByte(pos: nat, b: Byte, ghost j: nat)
      requires Valid() && j < Used() && pos == Cell(tail, j, size)
      modifies buffer
      ensures Valid() && Contents() == old(Contents())[j := b]
    {
      ghost var before := Contents();
      forall i | 0 <= i < Used() && i != j ensures Cell(tail, i, size) != pos {
        if i < j {
          CellsDistinct(tail, i, j, size);
        } else {
          CellsDistinct(tail, j, i, size);
        }
      }
      buffer[pos] := b;
      assert Contents() == before[j := b];
    }

    /** Overwrite the first queued record whose key bytes match the event's; the contents are
        taken as whole records of eventSize bytes. */
    method Coalesce(event: array<Byte>, eventSize: nat, matchOffset: nat, matchSize: nat) returns (found: bool)
      requires Valid() && event != buffer && eventSize < U32
      requires matchOffset + matchSize <= eventSize <= event.Length
      modifies buffer
      ensures Valid() && head == old(head) && tail == old(tail)
      ensures eventSize == 0 || matchSize == 0 ==> !found && Contents() == old(Contents())
      ensures eventSize > 0 && matchSize > 0 ==>
        (Contents(), found) == Coalesced(old(Contents()), event[..eventSize], matchOffset, matchSize)
    {
      hide FirstMatch, Replace, Cell, And, MatchesAt;
      if eventSize == 0 || matchSize == 0 {
        return false;
      }
      var used := Used();
      if used < eventSize {
        DivModUnique(used, 0, used, eventSize);
        return false;
      }
      var count := used / eventSize;
      ghost var c := Contents();
      ghost var e := event[..eventSize];
      var idx := 0;
      while idx < count
        invariant idx <= count && Valid() && Contents() == c
        invariant FirstMatch(c, e, matchOffset, matchSize, 0) == FirstMatch(c, e, matchOffset, matchSize, idx)
      {
        FirstMatchStep(c, e, matchOffset, matchSize, idx);
        var m := TryRecord(event, eventSize, matchOffset, matchSize, idx);
        if m {
          return true;
        }
        idx := idx + 1;
      }
      return false;
    }

    /** One turn of the outer loop. */
    method TryRecord(event: array<Byte>, eventSize: nat, matchOffset: nat, matchSize: nat, idx: nat) returns (m: bool)
      requires Valid() && event != buffer && HasRecord(Contents(), eventSize, idx)
      requires matchOffset + matchSize <= eventSize <= event.Length
      modifies buffer
      ensures Valid() && m == MatchesAt(old(Contents()), event[..eventSize], matchOffset, matchSize, idx)
      ensures Contents() == if m then Replace(old(Contents()), event[..eventSize], idx) else old(Contents())
    {
      hide MatchesAt, Contents, Replace, Valid, HasRecord;
      m := RecordMatches(event, eventSize, matchOffset, matchSize, idx);
      if m {
        RewriteRecord(event, eventSize, idx);
      }
    }

    method RecordMatches(event: array<Byte>, eventSize: nat, matchOffset: nat, matchSize: nat, idx: nat) returns (m: bool)
      requires Valid() && event != buffer && HasRecord(Contents(), eventSize, idx)
      requires matchOffset + matchSize <= eventSize <= event.Length
      ensures m == MatchesAt(Contents(), event[..eventSize], matchOffset, matchSize, idx)
    {
      hide *;
      ghost var e := event[..eventSize];
      var at := idx * eventSize;
      MatchesWhen(Contents(), e, matchOffset, matchSize, idx, at);
      SliceOfPrefix(event, eventSize, matchOffset, matchOffset + matchSize);
      m := Compare((tail + at) % U32, event, matchOffset, matchSize, at);
    }

    method RewriteRecord(event: array<Byte>, eventSize: nat, idx: nat)
      requires Valid() && event != buffer && HasRecord(Contents(), eventSize, idx) && eventSize <= event.Length
      modifies buffer
      ensures Valid() && Contents() == Replace(old(Contents()), event[..eventSize], idx)
    {
      ghost var c := Contents();
      RecordInside(c, eventSize, idx);
      hide Cell, And, RingSize, HasRecord;
      var at := idx * eventSize;
      Rewrite((tail + at) % U32, event, eventSize, at);
    }
  }

  lemma OneMoreEqual(x: seq<Byte>, y: seq<Byte>, k: nat)
    requires k < |x| == |y| && x[..k] == y[..k]
    ensures x[k] == y[k] ==> x[..k + 1] == y[..k + 1]
    ensures x[k] != y[k] ==> x != y
  {
    assert x[..k + 1] == x[..k] + [x[k]] && y[..k + 1] == y[..k] + [y[k]];
  }

  lemma SliceOfPrefix(a: array<Byte>, n: nat, lo: nat, hi: nat)
    requires lo <= hi <= n <= a.Length
    ensures a[lo..hi] == a[..n][lo..hi]
  {
  }

  /** There is a whole record of that size and index. */
  ghost predicate HasRecord(c: seq<Byte>, size: nat, idx: nat) {
    0 < size && idx < |c| / size
  }

  ghost predicate MatchesAt(c: seq<Byte>, e: seq<Byte>, off: nat, len: nat, idx: nat)
    requires HasRecord(c, |e|, idx) && off + len <= |e|
  {
    RecordInside(c, |e|, idx);
    c[idx * |e| + off..idx * |e| + off + len] == e[off..off + len]
  }

  lemma MatchesWhen(c: seq<Byte>, e: seq<Byte>, off: nat, len: nat, idx: nat, at: nat)
    requires HasRecord(c, |e|, idx) && off + len <= |e| && at == idx * |e|
    ensures at + |e| <= |c|
    ensures MatchesAt(c, e, off, len, idx) <==> c[at + off..at + off + len] == e[off..off + len]
  {
    RecordInside(c, |e|, idx);
  }

  /** First record from idx on whose key bytes equal the event's, or the record count. */
  ghost function FirstMatch(c: seq<Byte>, e: seq<Byte>, off: nat, len: nat, idx: nat): (r: nat)
    requires 0 < |e| && off + len <= |e| && idx <= |c| / |e|
    ensures idx <= r <= |c| / |e|
    decreases |c| / |e| - idx
  {
    if idx == |c| / |e| then idx
    else if MatchesAt(c, e, off, len, idx) then idx
    else FirstMatch(c, e, off, len, idx + 1)
  }

  lemma FirstMatchStep(c: seq<Byte>, e: seq<Byte>, off: nat, len: nat, idx: nat)
    requires HasRecord(c, |e|, idx) && off + len <= |e|
    ensures FirstMatch(c, e, off, len, idx) == if MatchesAt(c, e, off, len, idx) then idx else FirstMatch(c, e, off, len, idx + 1)
  {
  }

  /** What coalescing does to the contents, and whether it found a record. */
  ghost function Coalesced(c: seq<Byte>, e: seq<Byte>, off: nat, len: nat): (seq<Byte>, bool)
    requires 0 < |e| && off + len <= |e|
  {
    var r := FirstMatch(c, e, off, len, 0);
    if r < |c| / |e| then (Replace(c, e, r), true) else (c, false)
  }

  ghost function Replace(c: seq<Byte>, e: seq<Byte>, r: nat): seq<Byte>
    requires HasRecord(c, |e|, r)
  {
    RecordInside(c, |e|, r);
    c[..r * |e|] + e + c[r * |e| + |e|..]
  }

  lemma RecordInside(c: seq<Byte>, size: nat, idx: nat)
    requires HasRecord(c, size, idx)
    ensures idx * size + size <= |c|
  {
    MulMonotone(idx + 1, |c| / size, size);
    OneMore(idx, size);
  }

  lemma Overlay(c: seq<Byte>, e: seq<Byte>, at: nat, k: nat)
    requires k < |e| && at + |e| <= |c|
    ensures (c[..at] + e[..k] + c[at + k..])[at + k := e[k]] == c[..at] + e[..k + 1] + c[at + k + 1..]
  {
  }

  lemma Splice(s: seq<Byte>, t: seq<Byte>, i: nat)
    requires i < |s| && i < |t|
    ensures (s[..i] + t[i..])[i := s[i]] == s[..i + 1] + t[i + 1..]
  {
  }

  lemma LastWhole(s: seq<Byte>, n: nat)
    requires n <= |s|
    ensures Last(s, n) == s <==> n == |s|
  {
  }

  /** A push that is accepted appends exactly when used + n does not overflow the word. When it does
      overflow, the full check is passed by mistake and older bytes are lost. */
  lemma PushAppendsIff(c: seq<Byte>, d: seq<Byte>)
    requires |c| < U32 && |d| < U32
    ensures (|c| + |d|) % U32 <= |c| + |d|
    ensures Last(c + d, (|c| + |d|) % U32) == c + d <==> |c| + |d| < U32
  {
    var all := c + d;
    ModOnce(|all|, U32);
    LastWhole(all, |all| % U32);
  }

  lemma HeadFromUsed(head: nat, tail: nat)
    requires head < U32 && tail < U32
    ensures head == (tail + (head + U32 - tail) % U32) % U32
  {
    ModOnce(head + U32 - tail, U32);
    ModOnce(tail + (head + U32 - tail) % U32, U32);
  }

  lemma UsedFromHead(tail: nat, n: nat)
    requires tail < U32
    ensures ((tail + n) % U32 + U32 - tail) % U32 == n % U32
  {
    ModSum(tail + n, U32 - tail, U32);
    ModShift(1, n, U32);
  }

  lemma UsedAfterPop(head: nat, tail: nat, n: nat)
    requires head < U32 && tail < U32 && n <= (head + U32 - tail) % U32
    ensures (head + U32 - (tail + n) % U32) % U32 == (head + U32 - tail) % U32 - n
  {
    ModOnce(head + U32 - tail, U32);
    ModOnce(tail + n, U32);
    ModOnce(head + U32 - (tail + n) % U32, U32);
  }

  lemma ShiftedCell(tail: nat, n: nat, j: nat, size: nat)
    requires RingSize(size)
    ensures size > 0 && Cell((tail + n) % U32, j, size) == Cell(tail, n + j, size)
  {
    var k := SizeDividesWord(size);
    ModThrough(tail + n, size, k);
    ModSum((tail + n) % U32, j, size);
    ModSum(tail + n, j, size);
  }
}
