/** When the calls of the cooperative kernel return at once, how long they wait, and with what outcome. */
module OsalTiming {
  import opened Status
  import opened WaiterRing
  import opened Osal
  import opened OsalRuns
  import OsalSafety

  // ---------- one call ----------

  /** What a caller asks for with this timeout, as an absolute time; 0 is none. */
  predicate DeadlineOf(deadline: nat, now: nat, ms: nat) {
    if 0 < ms < WAIT_FOREVER then deadline == now + 1000 * ms else ms == 0 || ms == WAIT_FOREVER ==> deadline == 0
  }

  /** A lock succeeds exactly on a free mutex, is busy exactly for the owner, and otherwise waits (or, outside
      of a task, times out at once); a waiting task is blocked until 1000 * ms microseconds from now. */
  lemma {:induction false} LockExact(m: Mutex, ts: seq<Task>, t: nat, now: nat, ms: nat)
    ensures var (reply, n, us) := Lock(m, ts, t, now, ms);
      && (reply == Returns(Ok) <==> m.owner == NO_OWNER)
      && (reply == Returns(Ok) ==> n.owner == t && n.waiters == m.waiters && us == ts)
      && (reply == Returns(Busy) <==> m.owner == t != NO_OWNER && t != NO_READY)
      && (reply == Returns(Timeout) <==> m.owner != NO_OWNER && t == NO_READY)
      && (reply.Blocks? <==> m.owner != NO_OWNER && m.owner != t && t != NO_READY)
      && (reply.Returns? && reply.status != Ok ==> n == m && us == ts)
      && (reply.Blocks? ==> n.owner == m.owner && BlockedUntil(ts, us, t, now, ms))
  {
  }

  /** Only task t changes: it is blocked with the deadline of its call. */
  predicate BlockedUntil(ts: seq<Task>, us: seq<Task>, t: nat, now: nat, ms: nat) {
    && |us| == |ts|
    && (forall k: nat :: k < |ts| && k != t ==> us[k] == ts[k])
    && (t < |ts| ==> us[t].phase.Blocked? && !us[t].fired && DeadlineOf(us[t].wakeup, now, ms))
  }

  /** An unlock is for the owner alone, and hands over to the first waiter if there is one. */
  lemma {:induction false} UnlockExact(m: Mutex, ts: seq<Task>, t: nat)
    ensures var (status, n, us) := Unlock(m, ts, t);
      && (status == Ok <==> m.owner == t != NO_OWNER)
      && (status == InvalidState <==> m.owner == NO_OWNER)
      && (status != Ok ==> n == m && us == ts && (m.owner != NO_OWNER ==> status == Permission))
      && (status == Ok && m.waiters == [] ==> n == Mutex(NO_OWNER, []) && us == ts)
      && (status == Ok && m.waiters != [] ==>
            n.owner == m.waiters[0] && [m.waiters[0]] + n.waiters == m.waiters && Roused(ts, us, m.waiters[0]))
  {
  }

  /** Task t runs again if it was blocked; nobody else changes. */
  predicate Roused(ts: seq<Task>, us: seq<Task>, t: nat) {
    && |us| == |ts|
    && (forall k: nat :: k < |ts| && k != t ==> us[k] == ts[k])
    && (t < |ts| ==> us[t] == if ts[t].phase.Blocked? then Task(Ready, 0, false) else ts[t])
  }

  /** A take succeeds exactly when the token is there, and consumes it. */
  lemma {:induction false} TakeExact(s: Sem, ts: seq<Task>, t: nat, now: nat, ms: nat)
    ensures var (reply, n, us) := Take(s, ts, t, now, ms);
      && (reply == Returns(Ok) <==> s.count > 0)
      && (reply == Returns(Ok) ==> n == Sem(0, s.waiters) && us == ts)
      && (reply.Blocks? <==> s.count == 0 && t != NO_READY)
      && (reply == Returns(Timeout) <==> s.count == 0 && t == NO_READY)
      && (reply == Returns(Timeout) ==> n == s && us == ts)
      && (reply.Blocks? ==> n.count == 0 && BlockedUntil(ts, us, t, now, ms))
  {
  }

  /** A give goes to the first waiter, or else is stored. */
  lemma {:induction false} GiveExact(s: Sem, ts: seq<Task>)
    ensures var (n, us) := Give(s, ts);
      && (s.waiters == [] ==> n == Sem(1, []) && us == ts)
      && (s.waiters != [] ==> n.count == s.count && [s.waiters[0]] + n.waiters == s.waiters && Roused(ts, us, s.waiters[0]))
  {
  }

  /** The wake-up by time wakes exactly the tasks whose time has come, and marks the blocked ones among them. */
  lemma {:induction false} WakeExact(ts: seq<Task>, now: nat, k: nat)
    requires k < |ts|
    ensures var us := WakeByTime(ts, now);
      && |us| == |ts|
      && us[k] == if !ts[k].phase.Ready? && 0 < ts[k].wakeup <= now then Task(Ready, 0, ts[k].fired || ts[k].phase.Blocked?) else ts[k]
  {
  }

  /** A sleeping task is ready again after the first wake-up that is due. */
  lemma {:induction false} SleepExact(ts: seq<Task>, t: nat, now: nat, us: nat, later: nat)
    requires t < |ts| && now + us > 0
    ensures var vs := WakeByTime(YieldTimed(ts, t, now, us), later);
      |vs| == |ts| && (vs[t].phase.Ready? <==> later >= now + us) && (vs[t].phase.Ready? || vs[t].phase.Waiting?)
  {
  }

  // ---------- waiting calls over runs ----------

  /** The move starts a call of task t on object r with this timeout, and has to wait. */
  predicate Starts(s: State, m: Move, t: nat, r: nat, ms: nat) {
    && Enabled(s, m) && t < |s.tasks| == |s.calls|
    && ((m == StartLock(t, r, ms) && Lock(s.objects[r].m, s.tasks, t, s.now, ms).0.Blocks?)
        || (m == StartTake(t, r, ms) && Take(s.objects[r].s, s.tasks, t, s.now, ms).0.Blocks?))
  }

  /** Task t is inside its call on r, with this deadline, and blocked. */
  predicate Waits(s: State, t: nat, r: nat, deadline: nat) {
    && t < |s.tasks| == |s.calls| && s.calls[t].In? && s.calls[t].r == r < |s.objects| && s.calls[t].deadline == deadline
    && s.tasks[t].phase.Blocked? && s.tasks[t].wakeup == deadline
  }

  lemma {:induction false} StartsWaiting(s: State, m: Move, t: nat, r: nat, ms: nat)
    requires Starts(s, m, t, r, ms)
    ensures var e := Step(s, m);
      exists deadline :: DeadlineOf(deadline, s.now, ms) && Waits(e, t, r, deadline)
  {
    var e := Step(s, m);
    if m.StartLock? {
      LockExact(s.objects[r].m, s.tasks, t, s.now, ms);
    } else {
      TakeExact(s.objects[r].s, s.tasks, t, s.now, ms);
    }
    assert Waits(e, t, r, e.tasks[t].wakeup);
  }

  /** A release of r that pops t, or the clock: nothing else ends the wait of a blocked task. */
  predicate EndsWait(s: State, m: Move, t: nat) {
    || (m.WakeUp? && t < |s.tasks| && 0 < s.tasks[t].wakeup <= s.now)
    || ((m.UnlockMove? || m.GiveMove?) && m.r < |s.objects| && |Queue(s.objects[m.r])| > 0 && Queue(s.objects[m.r])[0] == t)
  }

  lemma {:induction false} WaitStays(s: State, m: Move, t: nat, r: nat, deadline: nat)
    requires Waits(s, t, r, deadline) && !EndsWait(s, m, t)
    ensures Waits(Step(s, m), t, r, deadline)
  {
  }

  /** Inside its call, whatever the others do, a task keeps its place and, once it is ready, its outcome. */
  lemma {:induction false} CallStays(s: State, m: Move, t: nat)
    requires t < |s.tasks| == |s.calls| && s.calls[t].In? && s.calls[t].r < |s.objects| && m != Continue(t)
    ensures var e := Step(s, m);
      && |e.tasks| == |e.calls| == |s.calls| && |e.objects| == |s.objects| && e.calls[t] == s.calls[t] && e.now >= s.now
      && (s.tasks[t].phase.Ready? ==> e.tasks[t] == s.tasks[t])
  {
  }

  lemma {:induction false} CallStaysRun(s: State, ms: seq<Move>, t: nat)
    requires t < |s.tasks| == |s.calls| && s.calls[t].In? && s.calls[t].r < |s.objects| && forall k :: 0 <= k < |ms| ==> ms[k] != Continue(t)
    ensures var e := Run(s, ms);
      && |e.tasks| == |e.calls| == |s.calls| && |e.objects| == |s.objects| && e.calls[t] == s.calls[t] && e.now >= s.now
      && (s.tasks[t].phase.Ready? ==> e.tasks[t] == s.tasks[t])
  {
    hide Step;
    if |ms| > 0 {
      var init := ms[..|ms| - 1];
      CallStaysRun(s, init, t);
      CallStays(Run(s, init), ms[|ms| - 1], t);
    }
  }

  lemma {:induction false} RunConcat(s: State, a: seq<Move>, b: seq<Move>)
    ensures Run(s, a + b) == Run(Run(s, a), b)
  {
    hide Step;
    if |b| == 0 {
      assert a + b == a;
    } else {
      assert (a + b)[..|a + b| - 1] == a + b[..|b| - 1];
      RunConcat(s, a, b[..|b| - 1]);
    }
  }

  lemma {:induction false} RunOne(s: State, m: Move)
    ensures Run(s, [m]) == Step(s, m)
  {
    hide Step;
    assert [m][..0] == [];
  }

  /** A call that had to wait times out only after its whole timeout, counted from the call. */
  lemma {:induction false} TimeoutIsOnTime(kinds: seq<bool>, before: seq<Move>, m: Move, t: nat, r: nat, ms: nat, mid: seq<Move>)
    requires Starts(Run(Init(kinds), before), m, t, r, ms) && ms < WAIT_FOREVER
    requires forall k :: 0 <= k < |mid| ==> mid[k] != Continue(t)
    requires var e := Run(Step(Run(Init(kinds), before), m), mid);
      Enabled(e, Continue(t)) && e.calls[t].In? && Verdict(e, t) == Timeout
    ensures ms > 0 && Run(Step(Run(Init(kinds), before), m), mid).now >= Run(Init(kinds), before).now + 1000 * ms
  {
    var s := Run(Init(kinds), before);
    var all := before + [m] + mid;
    RunConcat(Init(kinds), before, [m]);
    RunOne(s, m);
    RunConcat(Init(kinds), before + [m], mid);
    StartsWaiting(s, m, t, r, ms);
    CallStaysRun(Step(s, m), mid, t);
    hide Run, Step, Starts, Verdict;
    OsalSafety.VerdictSound(kinds, all, t);
  }

  /** The call of task t on r is ready to return with this status. */
  predicate ReturnsNow(s: State, t: nat, r: nat, status: Status) {
    Enabled(s, Continue(t)) && s.calls[t].In? && s.calls[t].r == r < |s.objects| && Verdict(s, t) == status
  }

  /** And it does time out: if nothing has ended the wait when the clock wakes the sleepers at or after the
      deadline, the call is ready to return from then on, and returns TIMEOUT. */
  lemma {:induction false} WakeTimesOut(s: State, t: nat, r: nat, deadline: nat, mid: seq<Move>)
    requires Waits(s, t, r, deadline) && 0 < deadline <= s.now
    requires forall k :: 0 <= k < |mid| ==> mid[k] != Continue(t)
    ensures var e := Run(Step(s, WakeUp), mid);
      ReturnsNow(e, t, r, Timeout)
  {
    var u := Step(s, WakeUp);
    WakeExact(s.tasks, s.now, t);
    assert u.tasks[t] == Task(Ready, 0, true);
    CallStaysRun(u, mid, t);
    hide Run, Step;
  }

  /** The whole wait: a call with timeout ms that starts now and whose wait nothing ends before the first
      wake-up at or after now + 1000 * ms returns TIMEOUT. */
  lemma {:induction false} TimesOut(s: State, m: Move, t: nat, r: nat, ms: nat, mid: seq<Move>, rest: seq<Move>)
    requires Starts(s, m, t, r, ms) && 0 < ms < WAIT_FOREVER
    requires forall k :: 0 <= k < |mid| ==> !EndsWait(Run(Step(s, m), mid[..k]), mid[k], t)
    requires Run(Step(s, m), mid).now >= s.now + 1000 * ms
    requires forall k :: 0 <= k < |rest| ==> rest[k] != Continue(t)
    ensures var e := Run(Step(Run(Step(s, m), mid), WakeUp), rest);
      ReturnsNow(e, t, r, Timeout)
  {
    hide Step, Starts, EndsWait, Waits, Run, ReturnsNow;
    StartsWaiting(s, m, t, r, ms);
    var u := Step(s, m);
    var deadline :| DeadlineOf(deadline, s.now, ms) && Waits(u, t, r, deadline);
    WaitStaysRun(u, mid, t, r, deadline);
    WakeTimesOut(Run(u, mid), t, r, deadline, rest);
  }

  lemma {:induction false} WaitStaysRun(s: State, ms: seq<Move>, t: nat, r: nat, deadline: nat)
    requires Waits(s, t, r, deadline) && forall k :: 0 <= k < |ms| ==> !EndsWait(Run(s, ms[..k]), ms[k], t)
    ensures Waits(Run(s, ms), t, r, deadline)
  {
    hide Step, Waits, EndsWait;
    if |ms| > 0 {
      var init := ms[..|ms| - 1];
      forall k | 0 <= k < |init| ensures !EndsWait(Run(s, init[..k]), init[k], t) {
        assert init[..k] == ms[..k];
      }
      WaitStaysRun(s, init, t, r, deadline);
      WaitStays(Run(s, init), ms[|ms| - 1], t, r, deadline);
    }
  }

  /** A release of r that finds t first in the queue. */
  predicate Frees(s: State, m: Move, t: nat, r: nat) {
    && Enabled(s, m) && r < |s.objects| && |Queue(s.objects[r])| > 0 && Queue(s.objects[r])[0] == t
    && (m == GiveMove(r) || (m.UnlockMove? && m.r == r && s.objects[r].MutexObject? && s.objects[r].m.owner == m.t != NO_OWNER))
  }

  lemma {:induction false} FreesReadies(s: State, m: Move, t: nat, r: nat, deadline: nat)
    requires Waits(s, t, r, deadline) && Frees(s, m, t, r)
    ensures var u := Step(s, m);
      && |u.tasks| == |u.calls| == |s.calls| && |u.objects| == |s.objects|
      && u.tasks[t] == Task(Ready, 0, false) && u.calls[t] == s.calls[t]
  {
  }

  /** A release that pops a blocked task decides its call: it is ready from then on and returns OK. */
  lemma {:induction false} ReleaseSucceeds(kinds: seq<bool>, before: seq<Move>, m: Move, t: nat, r: nat, deadline: nat, mid: seq<Move>)
    requires Waits(Run(Init(kinds), before), t, r, deadline) && Frees(Run(Init(kinds), before), m, t, r)
    requires forall k :: 0 <= k < |mid| ==> mid[k] != Continue(t)
    ensures ReturnsNow(Run(Step(Run(Init(kinds), before), m), mid), t, r, Ok)
  {
    var s := Run(Init(kinds), before);
    var all := before + [m] + mid;
    RunConcat(Init(kinds), before, [m]);
    RunOne(s, m);
    RunConcat(Init(kinds), before + [m], mid);
    FreesReadies(s, m, t, r, deadline);
    CallStaysRun(Step(s, m), mid, t);
    hide Run, Step, Frees;
    OsalSafety.VerdictSound(kinds, all, t);
    NotFired(Run(Init(kinds), all), t);
  }

  lemma {:induction false} NotFired(s: State, t: nat)
    requires t < |s.tasks| == |s.calls| && s.calls[t].In? && s.calls[t].r < |s.objects| && !s.tasks[t].fired
    ensures Verdict(s, t) != Timeout
  {
  }
}
