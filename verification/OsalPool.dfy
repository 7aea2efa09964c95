/** The same calls as the C code makes them: objects updated in place. The host and the wasm
    targets test their conditions in different orders; both meet one specification. */
module OsalPool {
  import opened Status
  import opened WaiterRing
  import Spec = Osal

  class Scheduler {
    const tasks: array<Spec.Task>

    constructor ()
      ensures tasks.Length == MAX_TASKS && fresh(tasks)
      ensures forall i :: 0 <= i < MAX_TASKS ==> tasks[i] == Spec.Task(Spec.Ready, 0, false)
    {
      tasks := new Spec.Task[MAX_TASKS](_ => Spec.Task(Spec.Ready, 0, false));
    }

    method Block(t: nat, now: nat, timeoutUs: nat)
      requires tasks.Length == MAX_TASKS
      modifies tasks
      ensures tasks[..] == Spec.Block(old(tasks[..]), t, now, timeoutUs)
    {
      if t < MAX_TASKS {
        var wakeup := if timeoutUs == 0 then 0 else now + timeoutUs;
        tasks[t] := Spec.Task(Spec.Blocked, wakeup, false);
      }
    }

    method Resume(t: nat)
      requires tasks.Length == MAX_TASKS
      modifies tasks
      ensures tasks[..] == Spec.Resume(old(tasks[..]), t)
    {
      if t < MAX_TASKS {
        if tasks[t].phase.Blocked? {
          tasks[t] := Spec.Task(Spec.Ready, 0, false);
        }
      }
    }

    method YieldTimed(t: nat, now: nat, us: nat)
      requires tasks.Length == MAX_TASKS
      modifies tasks
      ensures tasks[..] == Spec.YieldTimed(old(tasks[..]), t, now, us)
    {
      if t < MAX_TASKS {
        tasks[t] := tasks[t].(phase := Spec.Waiting, wakeup := now + us);
      }
    }

    method WakeupByTime(now: nat) returns (count: nat)
      requires tasks.Length == MAX_TASKS
      modifies tasks
      ensures tasks[..] == Spec.WakeByTime(old(tasks[..]), now)
      ensures count == |set i | 0 <= i < MAX_TASKS && !old(tasks[..])[i].phase.Ready? && tasks[..][i].phase.Ready?|
    {
      count := 0;
      ghost var was := tasks[..];
      ghost var woken: set<int> := {};
      for i := 0 to MAX_TASKS
        invariant forall j :: 0 <= j < i ==> tasks[j] == Spec.Woken(was[j], now)
        invariant forall j :: i <= j < MAX_TASKS ==> tasks[j] == was[j]
        invariant woken == (set j | 0 <= j < i && !was[j].phase.Ready? && Spec.Woken(was[j], now).phase.Ready?)
        invariant count == |woken|
      {
        var t := tasks[i];
        if !t.phase.Ready? && t.wakeup > 0 && t.wakeup <= now {
          tasks[i] := Spec.Task(Spec.Ready, 0, t.fired || t.phase.Blocked?);
          woken := woken + {i};
          count := count + 1;
        }
      }
      assert woken == set i | 0 <= i < MAX_TASKS && !was[i].phase.Ready? && tasks[..][i].phase.Ready?;
    }
  }

  class Mutex {
    var owner: nat
    const ring: Ring

    constructor ()
      ensures owner == Spec.NO_OWNER && fresh(ring) && fresh(ring.waiters) && ring.Valid() && ring.Contents() == []
    {
      owner := Spec.NO_OWNER;
      ring := new Ring();
    }

    function View(): Spec.Mutex
      reads this, ring, ring.waiters
      requires ring.Valid()
    {
      Spec.Mutex(owner, ring.Contents())
    }

    /** The host target, up to the context switch. */
    method Lock(sched: Scheduler, self: nat, now: nat, ms: nat) returns (reply: Spec.Reply)
      requires ring.Valid() && sched.tasks.Length == MAX_TASKS
      modifies `owner, ring, ring.waiters, sched.tasks
      ensures ring.Valid()
      ensures (reply, View(), sched.tasks[..]) == Spec.Lock(old(View()), old(sched.tasks[..]), self, now, ms)
    {
      if owner == Spec.NO_OWNER {
        owner := self;
        return Spec.Returns(Ok);
      }
      if self == Spec.NO_READY {
        return Spec.Returns(Timeout);
      }
      if owner == self {
        return Spec.Returns(Busy);
      }
      var timeoutUs := if ms == Spec.WAIT_FOREVER then 0 else ms * 1000;
      ring.Push(self);
      sched.Block(self, now, timeoutUs);
      return Spec.Blocks;
    }

    /** The wasm target tests for a caller outside any task first. */
    method LockWasm(sched: Scheduler, self: nat, now: nat, ms: nat) returns (reply: Spec.Reply)
      requires ring.Valid() && sched.tasks.Length == MAX_TASKS
      modifies `owner, ring, ring.waiters, sched.tasks
      ensures ring.Valid()
      ensures (reply, View(), sched.tasks[..]) == Spec.Lock(old(View()), old(sched.tasks[..]), self, now, ms)
    {
      if self == Spec.NO_READY {
        if owner == Spec.NO_OWNER {
          owner := self;
          return Spec.Returns(Ok);
        }
        return Spec.Returns(Timeout);
      }
      if owner == Spec.NO_OWNER {
        owner := self;
        return Spec.Returns(Ok);
      }
      if owner == self {
        return Spec.Returns(Busy);
      }
      var timeoutUs := if ms == Spec.WAIT_FOREVER then 0 else ms * 1000;
      ring.Push(self);
      sched.Block(self, now, timeoutUs);
      return Spec.Blocks;
    }

    /** The rest of the call after the switch back. */
    method LockWoken(sched: Scheduler, self: nat) returns (status: Status)
      requires ring.Valid() && sched.tasks.Length == MAX_TASKS && self < MAX_TASKS
      modifies ring, ring.waiters
      ensures ring.Valid() && (status, View()) == Spec.LockWoken(old(View()), old(sched.tasks[..]), self)
    {
      if sched.tasks[self].fired {
        ring.Remove(self);
        return Timeout;
      }
      if owner != self {
        return Io;
      }
      return Ok;
    }

    method Unlock(sched: Scheduler, self: nat) returns (status: Status)
      requires ring.Valid() && sched.tasks.Length == MAX_TASKS
      modifies `owner, ring, sched.tasks
      ensures ring.Valid()
      ensures (status, View(), sched.tasks[..]) == Spec.Unlock(old(View()), old(sched.tasks[..]), self)
    {
      if owner == Spec.NO_OWNER {
        return InvalidState;
      }
      if owner != self {
        return Permission;
      }
      status := HandOver(sched);
    }

    /** The wasm target spells the permission test differently. */
    method UnlockWasm(sched: Scheduler, self: nat) returns (status: Status)
      requires ring.Valid() && sched.tasks.Length == MAX_TASKS
      modifies `owner, ring, sched.tasks
      ensures ring.Valid()
      ensures (status, View(), sched.tasks[..]) == Spec.Unlock(old(View()), old(sched.tasks[..]), self)
    {
      if owner == Spec.NO_OWNER {
        return InvalidState;
      }
      if owner != self && !(owner == Spec.NO_READY && self == Spec.NO_READY) {
        return Permission;
      }
      status := HandOver(sched);
    }

    /** Direct handoff to the first waiter, or release. */
    method HandOver(sched: Scheduler) returns (status: Status)
      requires ring.Valid() && sched.tasks.Length == MAX_TASKS && owner != Spec.NO_OWNER
      modifies `owner, ring, sched.tasks
      ensures ring.Valid()
      ensures (status, View(), sched.tasks[..]) == Spec.Unlock(old(View()), old(sched.tasks[..]), old(owner))
    {
      ghost var was := View().waiters;
      var ok, waiter := ring.Pop();
      if ok {
        assert was[0] == waiter && was[1..] == ring.Contents();
        owner := waiter;
        sched.Resume(waiter);
      } else {
        owner := Spec.NO_OWNER;
      }
      status := Ok;
    }
  }

  class Sem {
    var count: nat
    const ring: Ring

    constructor ()
      ensures count == 0 && fresh(ring) && fresh(ring.waiters) && ring.Valid() && ring.Contents() == []
    {
      count := 0;
      ring := new Ring();
    }

    function View(): Spec.Sem
      reads this, ring, ring.waiters
      requires ring.Valid()
    {
      Spec.Sem(count, ring.Contents())
    }

    method Take(sched: Scheduler, self: nat, now: nat, ms: nat) returns (reply: Spec.Reply)
      requires ring.Valid() && sched.tasks.Length == MAX_TASKS
      modifies `count, ring, ring.waiters, sched.tasks
      ensures ring.Valid()
      ensures (reply, View(), sched.tasks[..]) == Spec.Take(old(View()), old(sched.tasks[..]), self, now, ms)
    {
      if count > 0 {
        count := 0;
        return Spec.Returns(Ok);
      }
      if self == Spec.NO_READY {
        return Spec.Returns(Timeout);
      }
      var timeoutUs := if ms == Spec.WAIT_FOREVER then 0 else ms * 1000;
      ring.Push(self);
      sched.Block(self, now, timeoutUs);
      return Spec.Blocks;
    }

    method TakeWoken(sched: Scheduler, self: nat) returns (status: Status)
      requires ring.Valid() && sched.tasks.Length == MAX_TASKS && self < MAX_TASKS
      modifies ring, ring.waiters
      ensures ring.Valid() && (status, View()) == Spec.TakeWoken(old(View()), old(sched.tasks[..]), self)
    {
      if sched.tasks[self].fired {
        ring.Remove(self);
        return Timeout;
      }
      return Ok;
    }

    method Give(sched: Scheduler) returns (status: Status)
      requires ring.Valid() && sched.tasks.Length == MAX_TASKS
      modifies `count, ring, sched.tasks
      ensures ring.Valid() && status == Ok
      ensures (View(), sched.tasks[..]) == Spec.Give(old(View()), old(sched.tasks[..]))
    {
      ghost var was := View().waiters;
      var ok, next := ring.Pop();
      if ok {
        assert was[0] == next && was[1..] == ring.Contents();
        sched.Resume(next);
      } else {
        count := 1;
      }
      status := Ok;
    }
  }
}
