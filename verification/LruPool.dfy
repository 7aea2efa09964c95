/** The cache as the C code updates it, in place, one port. */
module LruPool {
  import opened Status
  import opened Lru

  class DeviceCache {
    const slots: array<Entry>
    /** The bus driver's side. */
    var live: set<nat>

    predicate Valid()
      reads this
    {
      slots.Length == MAX_DEVICES
    }

    constructor ()
      ensures Valid() && fresh(slots) && slots[..] == [EMPTY_ENTRY, EMPTY_ENTRY, EMPTY_ENTRY, EMPTY_ENTRY] && live == {}
    {
      slots := new Entry[MAX_DEVICES](_ => EMPTY_ENTRY);
      live := {};
    }

    method Touch(hit: nat)
      requires Valid() && hit < MAX_DEVICES
      modifies slots
      ensures slots[..] == Touched(old(slots[..]), hit)
    {
      var entry := slots[hit];
      ghost var was := slots[..];
      ghost var n := NextEmpty(was, hit);
      var i := hit;
      while i < MAX_DEVICES - 1 && slots[i + 1].addr != 0
        invariant hit <= i < n
        invariant forall j :: hit <= j < i ==> slots[j] == was[j + 1]
        invariant forall j :: 0 <= j < hit || i <= j < MAX_DEVICES ==> slots[j] == was[j]
      {
        slots[i] := slots[i + 1];
        i := i + 1;
      }
      assert n == i + 1;
      slots[i] := entry;
      TouchedAt(was, hit);
    }

    /** `add` and `removed` are the bus driver's answers, should it be asked. */
    method GetOrCreate(addr: nat, add: AddResult, removed: bool) returns (status: Status, handle: nat)
      requires Valid()
      modifies slots, `live
      ensures Outcome(status, handle, slots[..], live) == Access(old(slots[..]), old(live), addr, add, removed)
    {
      ghost var was := slots[..];
      var free := MAX_DEVICES;
      for i := 0 to MAX_DEVICES
        invariant slots[..] == was && live == old(live)
        invariant i <= Find(was, addr)
        invariant free == if Find(was, 0) < i then Find(was, 0) else MAX_DEVICES
      {
        if slots[i].addr == addr {
          status, handle := Ok, slots[i].handle;
          Touch(i);
          return;
        }
        if slots[i].addr == 0 && free == MAX_DEVICES {
          free := i;
        }
      }
      if add.Refused? {
        return MapEspErr(add.err), 0;
      }
      status, handle := Ok, add.handle;
      live := live + {handle};
      if free == MAX_DEVICES {
        if removed {
          live := live - {slots[0].handle};
        }
        Shift();
        free := MAX_DEVICES - 1;
      }
      slots[free] := Entry(addr, handle);
    }

    method Shift()
      requires Valid()
      modifies slots
      ensures forall j :: 0 <= j < MAX_DEVICES - 1 ==> slots[j] == old(slots[j + 1])
    {
      ghost var was := slots[..];
      for i := 0 to MAX_DEVICES - 1
        invariant forall j :: 0 <= j < i ==> slots[j] == was[j + 1]
        invariant forall j :: i <= j < MAX_DEVICES ==> slots[j] == was[j]
      {
        slots[i] := slots[i + 1];
      }
    }

    /** Shutting the port down removes every listed device; `removed` are the driver's answers. */
    method Deinit(removed: seq<bool>)
      requires Valid() && |removed| == MAX_DEVICES
      modifies slots, `live
      ensures forall i :: 0 <= i < MAX_DEVICES ==> slots[i].addr == 0
      ensures live == old(live) - set i | 0 <= i < MAX_DEVICES && old(slots[..])[i].addr != 0 && removed[i] :: old(slots[..])[i].handle
    {
      ghost var was := slots[..];
      for i := 0 to MAX_DEVICES
        invariant forall j :: 0 <= j < i ==> slots[j].addr == 0
        invariant forall j :: i <= j < MAX_DEVICES ==> slots[j] == was[j]
        invariant live == old(live) - set j | 0 <= j < i && was[j].addr != 0 && removed[j] :: was[j].handle
      {
        if slots[i].addr != 0 {
          if removed[i] {
            live := live - {slots[i].handle};
          }
          slots[i] := EMPTY_ENTRY;
        }
      }
    }
  }
}
