/** What one call of the cooperative scheduler, of a mutex or of a semaphore does, as functions on
    the task table and the object: wink_sim_scheduler.c with pal_osal_host.c and its twin
    pal_osal_wasm.c. A call that blocks is cut in two at the context switch. */
module Osal {
  import opened Status
  import opened Seqs
  import opened WaiterRing

  const NO_OWNER: nat := MAX_TASKS + 1
  /** The caller's id when no task runs: the main loop or an interrupt. */
  const NO_READY: nat := 0xFFFF_FFFF
  const WAIT_FOREVER: nat := 0xFFFF_FFFF

  datatype Phase = Ready | Waiting | Blocked

  datatype Task = Task(phase: Phase, wakeup: nat, fired: bool)

  datatype Mutex = Mutex(owner: nat, waiters: seq<nat>)

  datatype Sem = Sem(count: nat, waiters: seq<nat>)

  datatype Reply = Blocks | Returns(status: Status)

  // ---------- the scheduler ----------

  function Block(ts: seq<Task>, t: nat, now: nat, timeoutUs: nat): seq<Task> {
    if t < |ts| then ts[t := Task(Blocked, if timeoutUs == 0 then 0 else now + timeoutUs, false)] else ts
  }

  /** Only a blocked task is woken by a release. */
  function Resume(ts: seq<Task>, t: nat): seq<Task> {
    if t < |ts| && ts[t].phase.Blocked? then ts[t := Task(Ready, 0, false)] else ts
  }

  function YieldTimed(ts: seq<Task>, t: nat, now: nat, us: nat): seq<Task> {
    if t < |ts| then ts[t := ts[t].(phase := Waiting, wakeup := now + us)] else ts
  }

  function Woken(task: Task, now: nat): Task {
    if !task.phase.Ready? && 0 < task.wakeup <= now then Task(Ready, 0, task.fired || task.phase.Blocked?) else task
  }

  function WakeByTime(ts: seq<Task>, now: nat): seq<Task> {
    seq(|ts|, i requires 0 <= i < |ts| => Woken(ts[i], now))
  }

  function TimeoutUs(ms: nat): nat {
    if ms == WAIT_FOREVER then 0 else ms * 1000
  }

  // ---------- the mutex ----------

  function Lock(m: Mutex, ts: seq<Task>, self: nat, now: nat, ms: nat): (Reply, Mutex, seq<Task>) {
    if m.owner == NO_OWNER then (Returns(Ok), m.(owner := self), ts)
    else if self == NO_READY then (Returns(Timeout), m, ts)
    else if m.owner == self then (Returns(Busy), m, ts)
    else (Blocks, m.(waiters := Pushed(m.waiters, self)), Block(ts, self, now, TimeoutUs(ms)))
  }

  /** The rest of the call, once the task runs again. */
  function LockWoken(m: Mutex, ts: seq<Task>, self: nat): (Status, Mutex)
    requires self < |ts|
  {
    if ts[self].fired then (Timeout, m.(waiters := Without(m.waiters, self)))
    else if m.owner != self then (Io, m)
    else (Ok, m)
  }

  function Unlock(m: Mutex, ts: seq<Task>, self: nat): (Status, Mutex, seq<Task>) {
    if m.owner == NO_OWNER then (InvalidState, m, ts)
    else if m.owner != self then (Permission, m, ts)
    else if |m.waiters| > 0 then (Ok, Mutex(m.waiters[0], m.waiters[1..]), Resume(ts, m.waiters[0]))
    else (Ok, m.(owner := NO_OWNER), ts)
  }

  // ---------- the binary semaphore ----------

  function Take(s: Sem, ts: seq<Task>, self: nat, now: nat, ms: nat): (Reply, Sem, seq<Task>) {
    if s.count > 0 then (Returns(Ok), s.(count := 0), ts)
    else if self == NO_READY then (Returns(Timeout), s, ts)
    else (Blocks, s.(waiters := Pushed(s.waiters, self)), Block(ts, self, now, TimeoutUs(ms)))
  }

  function TakeWoken(s: Sem, ts: seq<Task>, self: nat): (Status, Sem)
    requires self < |ts|
  {
    if ts[self].fired then (Timeout, s.(waiters := Without(s.waiters, self))) else (Ok, s)
  }

  function Give(s: Sem, ts: seq<Task>): (Sem, seq<Task>) {
    if |s.waiters| > 0 then (s.(waiters := s.waiters[1..]), Resume(ts, s.waiters[0]))
    else (s.(count := 1), ts)
  }
}
