/** The I2C device cache of pal_hal_i2c_esp32.c, one port: what an access does to the four slots,
    and the plain list it stands for, least recently used first. */
module Lru {
  import opened Status

  const MAX_DEVICES: nat := 4

  /** A device address (0 marks an empty slot) and its bus handle (0 is NULL). */
  datatype Entry = Entry(addr: nat, handle: nat)

  const EMPTY_ENTRY := Entry(0, 0)

  datatype EspErr = EspTimeout | EspNotFound | EspInvalidArg | EspNoMem | EspInvalidState | EspOther

  function MapEspErr(e: EspErr): Status {
    match e
    case EspTimeout => Timeout
    case EspNotFound => Disconnected
    case EspInvalidArg => InvalidArg
    case EspNoMem => ResourceExhausted
    case EspInvalidState => NotInitialized
    case EspOther => Hardware
  }

  /** What the bus driver answers when asked to add a device. */
  datatype AddResult = Added(handle: nat) | Refused(err: EspErr)

  /** `live` is what the bus driver has handed out and not taken back. */
  datatype Outcome = Outcome(status: Status, handle: nat, slots: seq<Entry>, live: set<nat>)

  // ---------- the four slots ----------

  /** Index of the first slot with that address, or the number of slots. */
  function Find(slots: seq<Entry>, addr: nat): (k: nat)
    ensures k <= |slots| && (k < |slots| ==> slots[k].addr == addr)
    ensures forall i :: 0 <= i < k ==> slots[i].addr != addr
  {
    if |slots| == 0 || slots[0].addr == addr then 0 else
      var k := Find(slots[1..], addr);
      assert forall i :: 1 <= i < k + 1 ==> slots[i] == slots[1..][i - 1];
      k + 1
  }

  /** The first empty slot after that one, or the number of slots. */
  function NextEmpty(slots: seq<Entry>, hit: nat): (n: nat)
    requires hit < |slots|
    ensures hit < n <= |slots| && (n < |slots| ==> slots[n].addr == 0)
    ensures forall i :: hit < i < n ==> slots[i].addr != 0
  {
    hit + 1 + Find(slots[hit + 1..], 0)
  }

  /** A hit moves to the end of the occupied slots. */
  function Touched(slots: seq<Entry>, hit: nat): (t: seq<Entry>)
    requires hit < |slots|
    ensures |t| == |slots|
  {
    var n := NextEmpty(slots, hit);
    slots[..hit] + slots[hit + 1..n] + [slots[hit]] + slots[n..]
  }

  lemma TouchedAt(slots: seq<Entry>, hit: nat)
    requires hit < |slots|
    ensures var n := NextEmpty(slots, hit);
      forall j :: 0 <= j < |slots| ==>
        Touched(slots, hit)[j] == if hit <= j < n - 1 then slots[j + 1] else if j == n - 1 then slots[hit] else slots[j]
  {
  }

  function Access(slots: seq<Entry>, live: set<nat>, addr: nat, add: AddResult, removed: bool): (o: Outcome)
    requires |slots| == MAX_DEVICES
    ensures |o.slots| == MAX_DEVICES
  {
    var k, free := Find(slots, addr), Find(slots, 0);
    if k < MAX_DEVICES then Outcome(Ok, slots[k].handle, Touched(slots, k), live)
    else match add
      case Refused(e) => Outcome(MapEspErr(e), 0, slots, live)
      case Added(h) =>
        if free < MAX_DEVICES then Outcome(Ok, h, slots[free := Entry(addr, h)], live + {h})
        else Outcome(Ok, h, slots[1..] + [Entry(addr, h)], (live + {h}) - (if removed then {slots[0].handle} else {}))
  }

  // ---------- the list they stand for ----------

  function Entries(slots: seq<Entry>): seq<Entry> {
    slots[..Find(slots, 0)]
  }

  /** Every slot after the first empty one is empty. */
  predicate Prefix(slots: seq<Entry>) {
    |slots| == MAX_DEVICES && forall i :: Find(slots, 0) <= i < MAX_DEVICES ==> slots[i].addr == 0
  }

  datatype Cache = Cache(entries: seq<Entry>, live: set<nat>)

  /** Least-recently-used caching of the devices of a bus. */
  function Use(c: Cache, addr: nat, add: AddResult, removed: bool): (Status, nat, Cache) {
    var es := c.entries;
    var k := Find(es, addr);
    if k < |es| then (Ok, es[k].handle, c.(entries := es[..k] + es[k + 1..] + [es[k]]))
    else match add
      case Refused(e) => (MapEspErr(e), 0, c)
      case Added(h) =>
        if |es| < MAX_DEVICES then (Ok, h, Cache(es + [Entry(addr, h)], c.live + {h}))
        else (Ok, h, Cache(es[1..] + [Entry(addr, h)], (c.live + {h}) - (if removed then {es[0].handle} else {})))
  }

  /** The outcome on the slots is the outcome on the list. */
  predicate Agrees(o: Outcome, u: (Status, nat, Cache)) {
    o.status == u.0 && o.handle == u.1 && Prefix(o.slots) && Cache(Entries(o.slots), o.live) == u.2
  }

  lemma FindUnique(slots: seq<Entry>, addr: nat, k: nat)
    requires k <= |slots| && (k < |slots| ==> slots[k].addr == addr) && forall i :: 0 <= i < k ==> slots[i].addr != addr
    ensures Find(slots, addr) == k
  {
  }

  lemma EntriesAre(slots: seq<Entry>, es: seq<Entry>)
    requires |slots| == MAX_DEVICES && |es| <= MAX_DEVICES && es == slots[..|es|]
    requires forall i :: 0 <= i < |es| ==> es[i].addr != 0
    requires forall i :: |es| <= i < MAX_DEVICES ==> slots[i].addr == 0
    ensures Prefix(slots) && Entries(slots) == es
  {
    FindUnique(slots, 0, |es|);
  }

  lemma TouchAgrees(slots: seq<Entry>, k: nat)
    requires Prefix(slots) && k < |Entries(slots)|
    ensures var es := Entries(slots);
      Prefix(Touched(slots, k)) && Entries(Touched(slots, k)) == es[..k] + es[k + 1..] + [es[k]]
  {
    var es := Entries(slots);
    var n := NextEmpty(slots, k);
    assert n == |es|;
    var fs := es[..k] + es[k + 1..] + [es[k]];
    assert slots[..k] == es[..k] && slots[k + 1..n] == es[k + 1..];
    assert Touched(slots, k) == fs + slots[n..];
    forall i | 0 <= i < |fs| ensures fs[i].addr != 0 {
      assert fs[i] in es;
    }
    EntriesAre(Touched(slots, k), fs);
  }

  lemma StoreAgrees(slots: seq<Entry>, e: Entry)
    requires Prefix(slots) && e.addr != 0
    ensures var es := Entries(slots);
      var t := if |es| < MAX_DEVICES then slots[|es| := e] else slots[1..] + [e];
      (|es| == MAX_DEVICES ==> es == slots)
      && Prefix(t) && Entries(t) == (if |es| < MAX_DEVICES then es else es[1..]) + [e]
  {
    var es := Entries(slots);
    if |es| < MAX_DEVICES {
      EntriesAre(slots[|es| := e], es + [e]);
    } else {
      EntriesAre(slots[1..] + [e], es[1..] + [e]);
    }
  }

  /** Whatever the bus answers, an access to a nonzero address is exactly a use of the list. */
  lemma AccessAgrees(slots: seq<Entry>, live: set<nat>, addr: nat, add: AddResult, removed: bool)
    requires Prefix(slots) && addr != 0
    ensures Agrees(Access(slots, live, addr, add, removed), Use(Cache(Entries(slots), live), addr, add, removed))
  {
    var es := Entries(slots);
    var k := Find(es, addr);
    var free := Find(slots, 0);
    if k < |es| {
      FindUnique(slots, addr, k);
      TouchAgrees(slots, k);
      hide Find, Touched, Entries, Prefix;
    } else {
      forall i | 0 <= i < MAX_DEVICES ensures slots[i].addr != addr {
        assert i < free ==> slots[i] == es[i];
      }
      FindUnique(slots, addr, MAX_DEVICES);
      if add.Added? {
        StoreAgrees(slots, Entry(addr, add.handle));
      }
      hide Find, Entries, Prefix;
    }
  }

  /** The general call address breaks this: the cache agrees with the list exactly when the address
      is nonzero, or the cache is full and the bus refuses the device. */
  lemma AgreesIff(slots: seq<Entry>, live: set<nat>, addr: nat, add: AddResult, removed: bool)
    requires Prefix(slots)
    ensures Agrees(Access(slots, live, addr, add, removed), Use(Cache(Entries(slots), live), addr, add, removed))
      <==> addr != 0 || (|Entries(slots)| == MAX_DEVICES && add.Refused?)
  {
    if addr != 0 {
      AccessAgrees(slots, live, addr, add, removed);
    } else {
      var es := Entries(slots);
      FindUnique(es, 0, |es|);
      var o := Access(slots, live, 0, add, removed);
      if |es| < MAX_DEVICES {
        ZeroAddressIgnored(slots, live, add, removed);
      } else if add.Added? {
        ZeroAddressLost(slots, live, add.handle, removed);
        assert |Entries(o.slots)| < |Use(Cache(es, live), 0, add, removed).2.entries|;
      }
    }
  }

  /** With a free slot, address 0 reports success with whatever handle the free slot holds; the bus
      is never asked and nothing changes. */
  lemma ZeroAddressIgnored(slots: seq<Entry>, live: set<nat>, add: AddResult, removed: bool)
    requires Prefix(slots) && |Entries(slots)| < MAX_DEVICES
    ensures Access(slots, live, 0, add, removed) == Outcome(Ok, slots[|Entries(slots)|].handle, slots, live)
  {
    var k := Find(slots, 0);
    assert NextEmpty(slots, k) == k + 1;
    assert slots[k + 1..k + 1] == [];
    assert slots == slots[..k] + [slots[k]] + slots[k + 1..];
  }

  /** In a full cache it evicts a device and takes a handle that no listed entry holds. */
  lemma ZeroAddressLost(slots: seq<Entry>, live: set<nat>, h: nat, removed: bool)
    requires Prefix(slots) && |Entries(slots)| == MAX_DEVICES
    ensures var o := Access(slots, live, 0, Added(h), removed);
      o.status == Ok && o.handle == h && Prefix(o.slots) && Entries(o.slots) == Entries(slots)[1..]
  {
    var es := Entries(slots);
    assert es == slots;
    EntriesAre(slots[1..] + [Entry(0, h)], es[1..]);
  }

  /** An access succeeds exactly if the device is listed or the bus takes it, and gives out the listed handle or
      the new one; a refusal is passed on as an error. */
  lemma ServedIff(slots: seq<Entry>, live: set<nat>, addr: nat, add: AddResult, removed: bool)
    requires Prefix(slots) && addr != 0
    ensures var o := Access(slots, live, addr, add, removed);
      var listed := exists k: nat :: k < MAX_DEVICES && slots[k].addr == addr;
      && (o.status == Ok <==> listed || add.Added?)
      && (listed ==> exists k: nat :: k < MAX_DEVICES && slots[k] == Entry(addr, o.handle))
      && (!listed && add.Added? ==> o.handle == add.handle && o.handle in o.live + {slots[0].handle})
      && (!listed && add.Refused? ==> o.slots == slots && o.live == live && (o.status == Timeout <==> add.err == EspTimeout))
  {
    var k := Find(slots, addr);
    if k < MAX_DEVICES {
      assert slots[k] == Entry(addr, slots[k].handle);
    }
  }

  /** How the bus driver's errors are passed on. */
  lemma ErrorsPassedOn(e: EspErr)
    ensures MapEspErr(e) != Ok
    ensures MapEspErr(e) == Timeout <==> e == EspTimeout
    ensures MapEspErr(e) == Disconnected <==> e == EspNotFound
    ensures MapEspErr(e) == InvalidArg <==> e == EspInvalidArg
    ensures MapEspErr(e) == ResourceExhausted <==> e == EspNoMem
    ensures MapEspErr(e) == NotInitialized <==> e == EspInvalidState
    ensures MapEspErr(e) == Hardware <==> e == EspOther
  {
  }
}
