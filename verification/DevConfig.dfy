/** The device-override blob of wink_dev_config.c: an 8-byte header (magic, version, item
    count), 20-byte items (device id and 16 parameter bytes), and a little-endian CRC-32. */
module DevConfig {
  import opened Arith
  import opened Bits
  import opened Crc32
  import opened Status

  const MAGIC: bv32 := 0x5749_4E4B
  const VERSION: bv16 := 1
  const PARAMS_SIZE := 16
  const ITEM_SIZE := 20
  const HEADER_SIZE := 8
  const CRC_SIZE := 4

  datatype Item = Item(deviceId: bv32, params: seq<bv8>)

  /** A registry entry; its apply callback is known by its index. */
  datatype Entry = Entry(deviceId: bv32, dev: int)

  /** One callback run: which registry entry, with which parameter bytes. */
  datatype Call = Call(entry: nat, params: seq<bv8>)

  // ---------- the format ----------

  function Le16(b: seq<bv8>): bv16
    requires |b| == 2
  {
    (b[0] as bv16) | ((b[1] as bv16) << 8)
  }

  function ToLe16(w: bv16): (s: seq<bv8>)
    ensures |s| == 2
  {
    [(w & 0xFF) as bv8, (w >> 8) as bv8]
  }

  /** The number with these binary digits, lowest first. */
  function Value(s: seq<bool>): (n: nat)
    ensures n < Pow2(|s|)
  {
    if |s| == 0 then 0 else (if s[0] then 1 else 0) + 2 * Value(s[1..])
  }

  function Digits(n: nat, k: nat): (s: seq<bool>)
    ensures |s| == k
  {
    if k == 0 then [] else [n % 2 == 1] + Digits(n / 2, k - 1)
  }

  function NatOf(b: bv8): (n: nat)
    ensures n < 256
  {
    assert Pow2(8) == 256;
    Value(BitsOf(b))
  }

  function Join(s: seq<bool>): bv8
    requires |s| == 8
  {
    (if s[0] then 1 else 0) | (if s[1] then 2 else 0) | (if s[2] then 4 else 0) | (if s[3] then 8 else 0)
    | (if s[4] then 16 else 0) | (if s[5] then 32 else 0) | (if s[6] then 64 else 0) | (if s[7] then 128 else 0)
  }

  function ByteOf(n: nat): bv8 {
    Join(Digits(n, 8))
  }

  /** The item count in the header, as a number. */
  function Count(b: seq<bv8>): (n: nat)
    requires |b| == 2
    ensures n < U16
  {
    NatOf(b[0]) + 256 * NatOf(b[1])
  }

  function ToCount(n: nat): (s: seq<bv8>)
    requires n < U16
    ensures |s| == 2
  {
    [ByteOf(n % 256), ByteOf(n / 256)]
  }

  predicate WellFormed(items: seq<Item>) {
    |items| < U16 && forall i :: 0 <= i < |items| ==> |items[i].params| == PARAMS_SIZE
  }

  function EncodeItem(item: Item): seq<bv8> {
    ToLe32(item.deviceId) + item.params
  }

  function EncodeItems(items: seq<Item>): (b: seq<bv8>)
    requires forall i :: 0 <= i < |items| ==> |items[i].params| == PARAMS_SIZE
    ensures |b| == ITEM_SIZE * |items|
  {
    if |items| == 0 then [] else EncodeItems(items[..|items| - 1]) + EncodeItem(items[|items| - 1])
  }

  function EncodeBody(items: seq<Item>): (b: seq<bv8>)
    requires WellFormed(items)
    ensures |b| == HEADER_SIZE + ITEM_SIZE * |items|
  {
    ToLe32(MAGIC) + ToLe16(VERSION) + ToCount(|items|) + EncodeItems(items)
  }

  /** A blob as the provisioning side builds it. */
  function Encode(items: seq<Item>): (b: seq<bv8>)
    requires WellFormed(items)
    ensures |b| == HEADER_SIZE + ITEM_SIZE * |items| + CRC_SIZE
  {
    EncodeBody(items) + ToLe32(Checksum(EncodeBody(items)))
  }

  // ---------- what the parser decides ----------

  /** The checks of the parser, in order. */
  function Verdict(b: seq<bv8>): Status {
    if |b| < HEADER_SIZE + CRC_SIZE then InvalidArg
    else if Le32(b[0..4]) != MAGIC then ConfigCorruptDegraded
    else if Le16(b[4..6]) != VERSION then ConfigCorruptDegraded
    else if |b| != HEADER_SIZE + Count(b[6..8]) * ITEM_SIZE + CRC_SIZE then ConfigCorruptDegraded
    else if Checksum(b[..|b| - CRC_SIZE]) != Le32(b[|b| - CRC_SIZE..]) then ChecksumError
    else Ok
  }

  function ItemAt(b: seq<bv8>, i: nat): (item: Item)
    requires HEADER_SIZE + ITEM_SIZE * (i + 1) <= |b|
    ensures |item.params| == PARAMS_SIZE
  {
    var off := HEADER_SIZE + ITEM_SIZE * i;
    Item(Le32(b[off..off + 4]), b[off + 4..off + ITEM_SIZE])
  }

  function Items(b: seq<bv8>, n: nat): (items: seq<Item>)
    requires HEADER_SIZE + ITEM_SIZE * n <= |b|
    ensures |items| == n
  {
    seq(n, i requires 0 <= i < n => ItemAt(b, i))
  }

  lemma ItemsShape(b: seq<bv8>, n: nat)
    requires HEADER_SIZE + ITEM_SIZE * n <= |b|
    ensures forall i :: 0 <= i < n ==> |Items(b, n)[i].params| == PARAMS_SIZE
  {
    hide ItemAt;
  }

  lemma ItemsNext(b: seq<bv8>, n: nat)
    requires HEADER_SIZE + ITEM_SIZE * (n + 1) <= |b|
    ensures Items(b, n + 1) == Items(b, n) + [ItemAt(b, n)]
  {
    hide ItemAt;
  }

  /** First entry from r on with this id, or the table length. */
  function Lookup(registry: seq<Entry>, id: bv32, r: nat): (k: nat)
    requires r <= |registry|
    ensures r <= k <= |registry|
    ensures k < |registry| ==> registry[k].deviceId == id
    ensures forall j :: r <= j < k ==> registry[j].deviceId != id
    decreases |registry| - r
  {
    if r == |registry| || registry[r].deviceId == id then r else Lookup(registry, id, r + 1)
  }

  /** The callbacks a list of items runs: for each item the first entry with its id, if any. */
  function Dispatch(items: seq<Item>, registry: seq<Entry>): seq<Call> {
    if |items| == 0 then []
    else
      var last := items[|items| - 1];
      var k := Lookup(registry, last.deviceId, 0);
      Dispatch(items[..|items| - 1], registry) + (if k < |registry| then [Call(k, last.params)] else [])
  }

  /** The registry the caller passed, as a list. */
  function Table(registry: array?<Entry>, registryCount: nat): (t: seq<Entry>)
    requires registryCount > 0 ==> registry != null
    requires registry != null ==> registryCount <= registry.Length
    reads if registry == null then {} else {registry}
    ensures |t| == registryCount
  {
    if registry == null then [] else registry[..registryCount]
  }

  method ReadWord(buf: array<bv8>, off: nat) returns (w: bv32)
    requires off + 4 <= buf.Length
    ensures w == Le32(buf[off..off + 4])
  {
    hide Le32;
    w := Le32(buf[off..off + 4]);
  }

  /** wink_dev_config_apply, with the callback runs as a result. */
  method Apply(buf: array?<bv8>, len: nat, registry: array?<Entry>, registryCount: nat)
    returns (status: Status, calls: seq<Call>)
    requires len < U16 && registryCount < U16
    requires buf != null ==> len <= buf.Length
    requires registry != null ==> registryCount <= registry.Length
    ensures buf == null || (registryCount > 0 && registry == null) ==> status == InvalidArg
    ensures buf != null && (registryCount > 0 ==> registry != null) ==> status == Verdict(buf[..len])
    ensures status != Ok ==> calls == []
    ensures status == Ok ==>
      buf != null && Verdict(buf[..len]) == Ok
      && (registryCount > 0 ==> registry != null)
      && calls == Dispatch(Items(buf[..len], Count(buf[6..8])), Table(registry, registryCount))
  {
    calls := [];
    if buf == null || (registryCount > 0 && registry == null) || len < HEADER_SIZE + CRC_SIZE {
      return InvalidArg, [];
    }
    hide Le32, Le16, Count, Checksum, Dispatch, Items;
    ghost var blob := buf[..len];
    HeaderSlices(buf, len);
    var magic := ReadWord(buf, 0);
    var version := Le16(buf[4..6]);
    var count := Count(buf[6..8]);
    if magic != MAGIC || version != VERSION {
      return ConfigCorruptDegraded, [];
    }
    if len != HEADER_SIZE + count * ITEM_SIZE + CRC_SIZE {
      return ConfigCorruptDegraded, [];
    }
    var bodyLen := len - CRC_SIZE;
    var stored := ReadWord(buf, bodyLen);
    var crc := Crc32.Compute(buf, bodyLen);
    if crc != stored {
      return ChecksumError, [];
    }
    calls := RunItems(buf, len, count, registry, registryCount);
    status := Ok;
  }

  lemma HeaderSlices(buf: array<bv8>, len: nat)
    requires HEADER_SIZE + CRC_SIZE <= len <= buf.Length
    ensures var blob, body := buf[..len], len - CRC_SIZE;
      && blob[0..4] == buf[0..4] && blob[4..6] == buf[4..6] && blob[6..8] == buf[6..8]
      && blob[body..] == buf[body..body + 4] && blob[..body] == buf[..body]
  {
  }

  method FindEntry(registry: array?<Entry>, registryCount: nat, deviceId: bv32) returns (r: nat)
    requires registryCount > 0 ==> registry != null
    requires registry != null ==> registryCount <= registry.Length
    ensures r == Lookup(Table(registry, registryCount), deviceId, 0)
  {
    r := 0;
    while r < registryCount
      invariant r <= registryCount
      invariant Lookup(Table(registry, registryCount), deviceId, 0) == Lookup(Table(registry, registryCount), deviceId, r)
    {
      if registry[r].deviceId == deviceId {
        break;
      }
      r := r + 1;
    }
  }

  lemma EmptyDispatch(blob: seq<bv8>, table: seq<Entry>)
    requires HEADER_SIZE <= |blob|
    ensures Dispatch(Items(blob, 0), table) == []
  {
  }

  lemma DispatchNext(blob: seq<bv8>, i: nat, table: seq<Entry>, deviceId: bv32, params: seq<bv8>)
    requires HEADER_SIZE + ITEM_SIZE * (i + 1) <= |blob| && ItemAt(blob, i) == Item(deviceId, params)
    ensures var r := Lookup(table, deviceId, 0);
      Dispatch(Items(blob, i + 1), table)
      == Dispatch(Items(blob, i), table) + (if r < |table| then [Call(r, params)] else [])
  {
    hide ItemAt, Lookup;
    ItemsNext(blob, i);
    assert Items(blob, i + 1)[..i] == Items(blob, i);
  }

  method RunItems(buf: array<bv8>, len: nat, count: nat, registry: array?<Entry>, registryCount: nat)
    returns (calls: seq<Call>)
    requires len <= buf.Length && HEADER_SIZE + count * ITEM_SIZE <= len
    requires registryCount > 0 ==> registry != null
    requires registry != null ==> registryCount <= registry.Length
    ensures calls == Dispatch(Items(buf[..len], count), Table(registry, registryCount))
  {
    hide Le32, Lookup, Table, Dispatch, Items;
    EmptyDispatch(buf[..len], Table(registry, registryCount));
    ghost var blob := buf[..len];
    calls := [];
    for i := 0 to count
      invariant calls == Dispatch(Items(blob, i), Table(registry, registryCount))
    {
      var off := HEADER_SIZE + i * ITEM_SIZE;
      var deviceId := ReadWord(buf, off);
      var params := buf[off + 4..off + ITEM_SIZE];
      assert blob[off..off + 4] == buf[off..off + 4] && blob[off + 4..off + ITEM_SIZE] == params;
      DispatchNext(blob, i, Table(registry, registryCount), deviceId, params);
      var r := FindEntry(registry, registryCount, deviceId);
      if r < registryCount {
        calls := calls + [Call(r, params)];
      }
    }
  }

  // ---------- the parser accepts exactly the encodings ----------

  lemma Le16RoundTrip(w: bv16)
    ensures Le16(ToLe16(w)) == w
  {
  }

  lemma Le16RoundTripBytes(b: seq<bv8>)
    requires |b| == 2
    ensures ToLe16(Le16(b)) == b
  {
  }

  lemma {:induction false} ValueDigits(n: nat, k: nat)
    requires n < Pow2(k)
    ensures Value(Digits(n, k)) == n
  {
    if k > 0 {
      ValueDigits(n / 2, k - 1);
      assert Digits(n, k)[1..] == Digits(n / 2, k - 1);
    }
  }

  lemma {:induction false} DigitsValue(s: seq<bool>)
    ensures Digits(Value(s), |s|) == s
  {
    if |s| > 0 {
      DigitsValue(s[1..]);
      assert s == [s[0]] + s[1..];
    }
  }

  lemma BitsJoin(s: seq<bool>)
    requires |s| == 8
    ensures BitsOf(Join(s)) == s
  {
    var t := BitsOf(Join(s));
    assert t[0] == s[0] && t[1] == s[1] && t[2] == s[2] && t[3] == s[3];
    assert t[4] == s[4] && t[5] == s[5] && t[6] == s[6] && t[7] == s[7];
  }

  lemma JoinBits(b: bv8)
    ensures Join(BitsOf(b)) == b
  {
  }

  lemma ByteRoundTrip(n: nat)
    requires n < 256
    ensures NatOf(ByteOf(n)) == n
  {
    hide BitsOf, Join, Value, Digits;
    assert Pow2(8) == 256;
    BitsJoin(Digits(n, 8));
    ValueDigits(n, 8);
  }

  lemma NatRoundTrip(b: bv8)
    ensures ByteOf(NatOf(b)) == b
  {
    hide BitsOf, Join, Value, Digits;
    DigitsValue(BitsOf(b));
    JoinBits(b);
  }

  lemma CountRoundTrip(n: nat)
    requires n < U16
    ensures Count(ToCount(n)) == n
  {
    hide NatOf, ByteOf;
    ByteRoundTrip(n % 256);
    ByteRoundTrip(n / 256);
  }

  lemma CountRoundTripBytes(b: seq<bv8>)
    requires |b| == 2
    ensures ToCount(Count(b)) == b
  {
    hide NatOf, ByteOf;
    NatRoundTrip(b[0]);
    NatRoundTrip(b[1]);
  }

  /** The item with index |items| of a body that carries one more item. */
  lemma LastItem(head: seq<bv8>, body: seq<bv8>, item: Item, tail: seq<bv8>, n: nat)
    requires |head| == HEADER_SIZE && |body| == ITEM_SIZE * n && |item.params| == PARAMS_SIZE
    ensures ItemAt(head + body + (EncodeItem(item) + tail), n) == item
  {
    hide Le32, ToLe32;
    var b := head + body + (EncodeItem(item) + tail);
    var off := HEADER_SIZE + ITEM_SIZE * n;
    assert b[off..off + 4] == ToLe32(item.deviceId);
    LeRoundTrip(item.deviceId);
    assert b[off + 4..off + ITEM_SIZE] == item.params;
  }

  lemma EncodeNext(items: seq<Item>, item: Item)
    requires |item.params| == PARAMS_SIZE && forall i :: 0 <= i < |items| ==> |items[i].params| == PARAMS_SIZE
    ensures EncodeItems(items + [item]) == EncodeItems(items) + EncodeItem(item)
  {
    assert (items + [item])[..|items|] == items;
  }

  lemma {:induction false} ItemsOfEncoded(head: seq<bv8>, items: seq<Item>, tail: seq<bv8>)
    requires |head| == HEADER_SIZE
    requires forall i :: 0 <= i < |items| ==> |items[i].params| == PARAMS_SIZE
    ensures Items(head + EncodeItems(items) + tail, |items|) == items
  {
    var n := |items|;
    if n > 0 {
      var init, last := items[..n - 1], items[n - 1];
      hide *;
      ItemsOfEncoded(head, init, EncodeItem(last) + tail);
      OneMoreEncoded(head, init, last, tail);
      assert items == init + [last];
    }
  }

  lemma OneMoreEncoded(head: seq<bv8>, init: seq<Item>, last: Item, tail: seq<bv8>)
    requires |head| == HEADER_SIZE && |last.params| == PARAMS_SIZE
    requires forall i :: 0 <= i < |init| ==> |init[i].params| == PARAMS_SIZE
    requires Items(head + EncodeItems(init) + (EncodeItem(last) + tail), |init|) == init
    ensures Items(head + EncodeItems(init + [last]) + tail, |init| + 1) == init + [last]
  {
    hide *;
    var body := EncodeItems(init);
    EncodeNext(init, last);
    LastItem(head, body, last, tail, |init|);
    assert head + EncodeItems(init + [last]) + tail == head + body + (EncodeItem(last) + tail);
    ItemsNext(head + EncodeItems(init + [last]) + tail, |init|);
  }

  lemma EncodedItem(b: seq<bv8>, n: nat)
    requires HEADER_SIZE + ITEM_SIZE * (n + 1) <= |b|
    ensures var off := HEADER_SIZE + ITEM_SIZE * n;
      EncodeItem(ItemAt(b, n)) == b[off..off + ITEM_SIZE]
  {
    hide Le32, ToLe32;
    var off := HEADER_SIZE + ITEM_SIZE * n;
    LeRoundTripBytes(b[off..off + 4]);
    assert b[off..off + 4] + b[off + 4..off + ITEM_SIZE] == b[off..off + ITEM_SIZE];
  }

  lemma {:induction false} EncodedItems(b: seq<bv8>, n: nat)
    requires HEADER_SIZE + ITEM_SIZE * n <= |b|
    ensures (forall i :: 0 <= i < n ==> |Items(b, n)[i].params| == PARAMS_SIZE)
      && EncodeItems(Items(b, n)) == b[HEADER_SIZE..HEADER_SIZE + ITEM_SIZE * n]
  {
    ItemsShape(b, n);
    if n > 0 {
      hide *;
      EncodedItems(b, n - 1);
      ItemsNext(b, n - 1);
      EncodedItem(b, n - 1);
      EncodeNext(Items(b, n - 1), ItemAt(b, n - 1));
      var off := HEADER_SIZE + ITEM_SIZE * (n - 1);
      JoinSlices(b, HEADER_SIZE, off, off + ITEM_SIZE);
    }
  }

  lemma JoinSlices(b: seq<bv8>, lo: nat, mid: nat, hi: nat)
    requires lo <= mid <= hi <= |b|
    ensures b[lo..mid] + b[mid..hi] == b[lo..hi]
  {
  }

  lemma BlobParts(magic: seq<bv8>, version: seq<bv8>, count: seq<bv8>, items: seq<bv8>, crc: seq<bv8>)
    requires |magic| == 4 && |version| == 2 && |count| == 2 && |crc| == 4
    ensures var b := magic + version + count + items + crc;
      && b[0..4] == magic && b[4..6] == version && b[6..8] == count
      && b[..|b| - 4] == magic + version + count + items && b[|b| - 4..] == crc
  {
  }

  /** Round trip: every list of items, encoded, is accepted and read back as it was. */
  lemma EncodeAccepted(items: seq<Item>)
    requires WellFormed(items)
    ensures Verdict(Encode(items)) == Ok
    ensures Count(Encode(items)[6..8]) == |items| && Items(Encode(items), |items|) == items
  {
    hide Le32, ToLe32, Le16, ToLe16, Count, ToCount, Checksum, EncodeItems, Items;
    var crc := ToLe32(Checksum(EncodeBody(items)));
    BlobParts(ToLe32(MAGIC), ToLe16(VERSION), ToCount(|items|), EncodeItems(items), crc);
    LeRoundTrip(MAGIC);
    Le16RoundTrip(VERSION);
    CountRoundTrip(|items|);
    LeRoundTrip(Checksum(EncodeBody(items)));
    ItemsOfEncoded(ToLe32(MAGIC) + ToLe16(VERSION) + ToCount(|items|), items, crc);
  }

  lemma BlobJoined(b: seq<bv8>)
    requires |b| >= 12
    ensures b[..|b| - 4] == b[0..4] + b[4..6] + b[6..8] + b[8..|b| - 4]
    ensures b == b[..|b| - 4] + b[|b| - 4..]
  {
  }

  /** Nothing else is accepted: an accepted blob is the encoding of the items read from it. */
  lemma AcceptedIsEncoding(b: seq<bv8>)
    requires Verdict(b) == Ok
    ensures var n := Count(b[6..8]);
      HEADER_SIZE + ITEM_SIZE * n <= |b| && WellFormed(Items(b, n)) && b == Encode(Items(b, n))
  {
    hide Le32, ToLe32, Le16, ToLe16, Count, ToCount, Checksum, EncodeItems, Items;
    var n := Count(b[6..8]);
    EncodedItems(b, n);
    LeRoundTripBytes(b[0..4]);
    Le16RoundTripBytes(b[4..6]);
    CountRoundTripBytes(b[6..8]);
    BlobJoined(b);
    LeRoundTripBytes(b[|b| - CRC_SIZE..]);
  }

  /** The acceptance theorem: Ok exactly on the encodings, which are never ambiguous. */
  lemma AcceptsExactlyEncodings(b: seq<bv8>)
    ensures Verdict(b) == Ok <==> exists items :: WellFormed(items) && b == Encode(items)
    ensures forall i, j :: WellFormed(i) && WellFormed(j) && b == Encode(i) && b == Encode(j) ==> i == j
  {
    hide Verdict, Encode, Count, WellFormed;
    if Verdict(b) == Ok {
      AcceptedIsEncoding(b);
    }
    forall items | WellFormed(items) && b == Encode(items) ensures Verdict(b) == Ok {
      EncodeAccepted(items);
    }
    forall i, j | WellFormed(i) && WellFormed(j) && b == Encode(i) && b == Encode(j) ensures i == j {
      EncodeAccepted(i);
      EncodeAccepted(j);
    }
  }

  // ---------- damage is detected ----------

  /** An accepted blob leaves the good-message residue in the register. */
  lemma AcceptedResidue(b: seq<bv8>)
    requires Verdict(b) == Ok
    ensures Feed(INIT, b) == RESIDUE
  {
    hide Le32, Checksum, Feed;
    var n := |b| - CRC_SIZE;
    assert b == b[..n] + b[n..];
    ResidueIff(b[..n], b[n..]);
  }

  /** Any nonzero damage to an accepted blob, of any length, that stays within 32
      consecutive bits (header, items, stored CRC or across them) is rejected. */
  lemma BurstRejected(good: seq<bv8>, bad: seq<bv8>, p: nat)
    requires Verdict(good) == Ok && |good| == |bad| && AgreeOutside(good, bad, p)
    ensures Verdict(bad) == Ok <==> bad == good
  {
    hide Verdict, Feed, AgreeOutside;
    AcceptedResidue(good);
    BurstChangesRegister(INIT, good, bad, p);
    if Verdict(bad) == Ok {
      AcceptedResidue(bad);
    }
  }

  /** In particular damage confined to four consecutive bytes. */
  lemma FourBytesRejected(good: seq<bv8>, bad: seq<bv8>, k: nat)
    requires Verdict(good) == Ok && |good| == |bad|
    requires forall i :: 0 <= i < |good| && !(k <= i < k + 4) ==> good[i] == bad[i]
    ensures Verdict(bad) == Ok <==> bad == good
  {
    hide *;
    BytesAgreeOutside(good, bad, k);
    BurstRejected(good, bad, 8 * k);
  }

  // ---------- the callbacks ----------

  /** Lists of items dispatch one after the other. */
  lemma {:induction false} DispatchConcat(a: seq<Item>, b: seq<Item>, registry: seq<Entry>)
    ensures Dispatch(a + b, registry) == Dispatch(a, registry) + Dispatch(b, registry)
  {
    hide Lookup;
    if |b| == 0 {
      assert a + b == a;
    } else {
      assert (a + b)[..|a + b| - 1] == a + b[..|b| - 1];
      DispatchConcat(a, b[..|b| - 1], registry);
    }
  }

  /** One item runs one callback, with its parameters, of the first entry with its id; and none exactly if there
      is no such entry. With DispatchConcat this determines the callbacks of every list. */
  lemma DispatchOne(item: Item, registry: seq<Entry>)
    ensures var calls := Dispatch([item], registry);
      && (calls == [] <==> forall j: nat :: j < |registry| ==> registry[j].deviceId != item.deviceId)
      && (calls != [] ==>
            && |calls| == 1 && calls[0].params == item.params
            && calls[0].entry < |registry| && registry[calls[0].entry].deviceId == item.deviceId
            && forall j: nat :: j < calls[0].entry ==> registry[j].deviceId != item.deviceId)
  {
    assert [item][..0] == [];
    var k := Lookup(registry, item.deviceId, 0);
  }

  // ---------- the layout in bytes ----------

  lemma MagicBytes(b: seq<bv8>)
    requires |b| == 4
    ensures Le32(b) == MAGIC <==> b[0] == 0x4B && b[1] == 0x4E && b[2] == 0x49 && b[3] == 0x57
  {
    LeRoundTripBytes(b);
    LeRoundTrip(MAGIC);
    MagicWord();
    hide Le32, ToLe32;
    assert Le32(b) == MAGIC ==> b == ToLe32(MAGIC);
    assert b == [b[0], b[1], b[2], b[3]];
  }

  lemma MagicWord()
    ensures ToLe32(MAGIC) == [0x4B, 0x4E, 0x49, 0x57]
  {
  }

  lemma VersionBytes(b: seq<bv8>)
    requires |b| == 2
    ensures Le16(b) == VERSION <==> b[0] == 0x01 && b[1] == 0x00
  {
  }

  function Weight(bit: bool, w: nat): nat {
    if bit then w else 0
  }

  lemma ValueStep(s: seq<bool>)
    requires |s| > 0
    ensures Value(s) == Weight(s[0], 1) + 2 * Value(s[1..])
  {
  }

  lemma FourBits(s: seq<bool>, t: seq<bool>)
    requires |s| == 4 + |t| && s[4..] == t
    ensures Value(s) == Weight(s[0], 1) + Weight(s[1], 2) + Weight(s[2], 4) + Weight(s[3], 8) + 16 * Value(t)
  {
    assert s[1..][1..] == s[2..] && s[2..][1..] == s[3..] && s[3..][1..] == t;
    ValueStep(s);
    ValueStep(s[1..]);
    ValueStep(s[2..]);
    ValueStep(s[3..]);
    hide Value;
  }

  /** The number in a byte: bit 0 is the lowest. */
  lemma ByteValue(b: bv8)
    ensures var s := BitsOf(b);
      NatOf(b) == Weight(s[0], 1) + Weight(s[1], 2) + Weight(s[2], 4) + Weight(s[3], 8)
                + Weight(s[4], 16) + Weight(s[5], 32) + Weight(s[6], 64) + Weight(s[7], 128)
  {
    var s := BitsOf(b);
    hide BitsOf;
    var t := s[4..];
    FourBits(s, t);
    FourBits(t, []);
    assert Value([]) == 0;
    hide Value;
  }

  /** The i-th item: its id, low byte first, then sixteen parameter bytes. */
  lemma ItemLayout(b: seq<bv8>, n: nat, i: nat)
    requires i < n && |b| == 8 + 20 * n + 4
    ensures Items(b, n)[i].params == b[12 + 20 * i..28 + 20 * i]
    ensures ToLe32(Items(b, n)[i].deviceId) == b[8 + 20 * i..12 + 20 * i]
  {
    LeRoundTripBytes(b[8 + 20 * i..12 + 20 * i]);
    hide Le32, ToLe32;
    assert 28 + 20 * i <= |b|;
  }

  lemma WholeSlices(b: seq<bv8>)
    requires |b| >= 12
    ensures b[..6] == [b[0], b[1], b[2], b[3], b[4], b[5]]
    ensures b[0..4] == [b[0], b[1], b[2], b[3]] && b[4..6] == [b[4], b[5]] && b[6..8] == [b[6], b[7]]
  {
  }

  /** What an accepted blob looks like, byte by byte: the letters of the magic word from its low byte, version 1,
      a little-endian count, twenty bytes an item (ItemLayout), and four bytes of checksum, low byte first. */
  lemma AcceptedLayout(b: seq<bv8>)
    requires Verdict(b) == Ok
    ensures |b| >= 12 && b[..6] == [0x4B, 0x4E, 0x49, 0x57, 0x01, 0x00]
    ensures |b| == 8 + 20 * (NatOf(b[6]) + 256 * NatOf(b[7])) + 4
    ensures ToLe32(Checksum(b[..|b| - 4])) == b[|b| - 4..]
  {
    WholeSlices(b);
    MagicBytes(b[0..4]);
    VersionBytes(b[4..6]);
    LeRoundTripBytes(b[|b| - 4..]);
    hide Le32, Le16, ToLe32, NatOf, Checksum;
  }
}
