/** The periodic table as the C code keeps it, over the timer table. */
module PeriodicPool {
  import opened Arith
  import opened Status
  import Soft = SoftTimer
  import SoftTimerPool
  import opened Spec = Periodic

  class Tasks {
    const entries: array<Entry>
    const timers: SoftTimerPool.Timers

    predicate Valid()
    {
      entries.Length == MAX_PERIODIC && timers.Valid()
    }

    function View(): State
      requires Valid()
      reads entries, timers, timers.slots
    {
      State(entries[..], timers.View())
    }

    constructor ()
      ensures Valid() && fresh(entries) && fresh(timers) && fresh(timers.slots) && View() == Init()
    {
      entries := new Entry[MAX_PERIODIC](_ => FreeEntry);
      timers := new SoftTimerPool.Timers();
    }

    method StartEx(named: bool, stackHint: nat, ms: nat, fn: nat, light: bool, mayBlock: bool, spawned: Status) returns (r: Started)
      requires Valid()
      modifies entries, timers.slots
      ensures (r, View()) == Spec.StartEx(old(View()), named, stackHint, ms, fn, light, mayBlock, spawned)
    {
      if !named || fn == 0 || ms == 0 {
        return Failed(InvalidArg);
      }
      if light && mayBlock {
        return Failed(InvalidArg);
      }
      var useTask := if mayBlock then true else if light then false else ms >= 50 || stackHint >= 2048;
      var slot := 0;
      while slot < MAX_PERIODIC && !entries[slot].FreeEntry?
        invariant slot <= MAX_PERIODIC && FreeEntryFrom(entries[..], 0) == FreeEntryFrom(entries[..], slot)
      {
        slot := slot + 1;
      }
      if slot == MAX_PERIODIC {
        return Failed(ResourceExhausted);
      }
      if useTask {
        if !spawned.Ok? {
          return Failed(spawned);
        }
        entries[slot] := TaskEntry(fn, ms);
        return Handle(slot + 1);
      }
      r := StartLight(slot, ms, fn);
    }

    method StartLight(slot: nat, ms: nat, fn: nat) returns (r: Started)
      requires Valid() && slot < MAX_PERIODIC
      modifies entries, timers.slots
      ensures (r, View()) == Spec.StartLight(old(View()), slot, ms, fn)
    {
      var ticks := (ms + Soft.TICK_MS - 1) % U32 / Soft.TICK_MS;
      var created := timers.Create(LIGHT_CB, slot, Soft.Periodic, ticks * Soft.TICK_MS % U32);
      if created.Failed? {
        return Failed(ResourceExhausted);
      }
      var status := timers.Start(created.h);
      if !status.Ok? {
        var ignored := timers.Destroy(created.h);
        return Failed(status);
      }
      entries[slot] := LightEntry(fn, ms, created.h);
      return Handle(slot + 1);
    }

    method Stop(h: int)
      requires Valid()
      modifies entries, timers.slots
      ensures View() == Spec.Stop(old(View()), h)
    {
      if h <= 0 || h > MAX_PERIODIC || entries[h - 1].FreeEntry? {
        return;
      }
      var e := entries[h - 1];
      if e.LightEntry? {
        var ignored := timers.Destroy(e.handle);
      }
      entries[h - 1] := FreeEntry;
    }

    method ActiveCount() returns (n: nat)
      requires Valid()
      ensures n == Spec.ActiveCount(entries[..])
    {
      n := 0;
      for i := 0 to MAX_PERIODIC
        invariant n == Spec.ActiveCount(entries[..i])
      {
        assert entries[..i + 1][..i] == entries[..i];
        if !entries[i].FreeEntry? {
          n := n + 1;
        }
      }
      assert entries[..MAX_PERIODIC] == entries[..];
    }

    method ChangePeriod(h: int, ms: nat) returns (status: Status)
      requires Valid()
      modifies entries, timers.slots
      ensures (status, View()) == Spec.ChangePeriod(old(View()), h, ms)
    {
      if h <= 0 || ms == 0 || h > MAX_PERIODIC || entries[h - 1].FreeEntry? {
        return InvalidArg;
      }
      var e := entries[h - 1];
      if e.LightEntry? {
        status := timers.ChangePeriod(e.handle, ms);
        return;
      }
      entries[h - 1] := TaskEntry(e.fn, ms);
      return Ok;
    }
  }
}
