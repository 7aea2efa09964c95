/** What the mutexes and semaphores guarantee over every run, and the one case in which a mutex
    ends up owned by a task that was told it had timed out. */
module OsalSafety {
  import opened Status
  import opened Seqs
  import opened WaiterRing
  import opened Osal
  import opened OsalRuns

  // ---------- mutexes ----------

  /** At most one task at a time has been told OK and has not unlocked, and it is the owner; a free
      mutex has no waiters; waiters are distinct and never include the owner. */
  lemma MutualExclusion(kinds: seq<bool>, ms: seq<Move>, r: nat)
    requires r < |kinds| && kinds[r]
    ensures r < |Run(Init(kinds), ms).objects|
    ensures var x := Run(Init(kinds), ms).objects[r];
      x.MutexObject?
      && (forall a, b :: a in x.held && b in x.held ==> a == b == x.m.owner)
      && (x.m.owner == NO_OWNER ==> x.m.waiters == [] && x.held == {})
      && x.m.owner !in x.m.waiters
      && forall i, j :: 0 <= i < j < |x.m.waiters| ==> x.m.waiters[i] != x.m.waiters[j]
  {
    KindsStay(kinds, ms, r);
    var s := Run(Init(kinds), ms);
    AlwaysInv(kinds, ms);
    assert ObjectSound(s, r);
  }

  lemma KindStays(s: State, m: Move, r: nat)
    requires r < |s.objects|
    ensures r < |Step(s, m).objects| && Step(s, m).objects[r].MutexObject? == s.objects[r].MutexObject?
  {
  }

  lemma {:induction false} KindsStay(kinds: seq<bool>, ms: seq<Move>, r: nat)
    requires r < |kinds|
    ensures r < |Run(Init(kinds), ms).objects| && Run(Init(kinds), ms).objects[r].MutexObject? == kinds[r]
  {
    hide Step;
    if |ms| > 0 {
      KindsStay(kinds, ms[..|ms| - 1], r);
      KindStays(Run(Init(kinds), ms[..|ms| - 1]), ms[|ms| - 1], r);
    }
  }

  /** A lock that has to wait always finds room in the ring, and joins at its end. */
  lemma NeverDropped(kinds: seq<bool>, ms: seq<Move>, t: nat, r: nat, timeout: nat)
    requires var s := Run(Init(kinds), ms);
      Enabled(s, StartLock(t, r, timeout)) && Lock(s.objects[r].m, s.tasks, t, s.now, timeout).0.Blocks?
    ensures var s := Run(Init(kinds), ms);
      Queue(Step(s, StartLock(t, r, timeout)).objects[r]) == Queue(s.objects[r]) + [t]
  {
    var s := Run(Init(kinds), ms);
    AlwaysInv(kinds, ms);
    hide Run;
    assert ObjectSound(s, r);
    var q := Queue(s.objects[r]);
    forall i | 0 <= i < |q| ensures q[i] != t {
      assert Member(s, r, q[i]);
    }
    RoomFor(q, t, MAX_TASKS);
  }

  /** A call that waited returns OK only to the owner, a timeout only after a deadline it was given
      has passed, and never an I/O error. In particular a call without a deadline (wait forever, or
      a timeout of zero) never times out. */
  lemma VerdictSound(kinds: seq<bool>, ms: seq<Move>, t: nat)
    requires Enabled(Run(Init(kinds), ms), Continue(t)) && Run(Init(kinds), ms).calls[t].In?
    ensures var s := Run(Init(kinds), ms);
      var e := Step(s, Continue(t));
      var r := s.calls[t].r;
      && (Verdict(s, t) == Ok || Verdict(s, t) == Timeout)
      && (Verdict(s, t) == Timeout ==> 0 < s.calls[t].deadline <= s.now)
      && (Verdict(s, t) == Ok && s.objects[r].MutexObject? ==> e.objects[r].m.owner == t && e.objects[r].held == {t})
      && t !in Queue(e.objects[r])
  {
    var s := Run(Init(kinds), ms);
    AlwaysInv(kinds, ms);
    hide Run, Init;
    var r := s.calls[t].r;
    assert CallSound(s.tasks[t], t, s.calls[t], s.objects, s.now, s.next);
    assert ObjectSound(s, r);
    LeavesQueue(s, t);
    WithoutMembers(Queue(s.objects[r]), t);
  }

  /** A wait without a deadline: the documented forever, and also a timeout of zero. */
  lemma ZeroWaitsForever(kinds: seq<bool>, ms: seq<Move>, t: nat, r: nat, timeout: nat)
    requires timeout == 0 || timeout == WAIT_FOREVER
    requires var s := Run(Init(kinds), ms);
      Enabled(s, StartLock(t, r, timeout)) && Lock(s.objects[r].m, s.tasks, t, s.now, timeout).0.Blocks?
    ensures var e := Step(Run(Init(kinds), ms), StartLock(t, r, timeout));
      t < |e.calls| && e.calls[t].In? && e.calls[t].deadline == 0
  {
    AlwaysInv(kinds, ms);
  }

  /** Releases hand over in the order in which the calls blocked: the tickets popped so far ascend,
      and everyone still queued blocked later than all of them and is queued in that order. */
  lemma GrantsInBlockingOrder(kinds: seq<bool>, ms: seq<Move>, r: nat)
    requires r < |kinds|
    ensures var s := Run(Init(kinds), ms);
      r < |s.objects| && InOrder(s.calls, Queue(s.objects[r]), s.objects[r].granted, s.next)
  {
    AlwaysInv(kinds, ms);
    var s := Run(Init(kinds), ms);
    hide Run;
    assert ObjectSound(s, r);
  }

  // ---------- the handoff to a task that timed out ----------

  /** The owner has been told, or is certain to be. */
  predicate OwnerTold(s: State, r: nat)
    requires r < |s.objects| && s.objects[r].MutexObject?
  {
    var x := s.objects[r];
    x.m.owner == NO_OWNER || Granted(s, r, x.m.owner)
    || (x.m.owner in x.held && !(x.m.owner < |s.calls| && s.calls[x.m.owner].In? && s.calls[x.m.owner].r == r))
  }

  predicate NoLeak(s: State) {
    forall r :: 0 <= r < |s.objects| && s.objects[r].MutexObject? ==> OwnerTold(s, r)
  }

  /** The guard of the handoff: an unlock finds its first waiter still blocked. */
  predicate Clean(s: State, m: Move) {
    Enabled(s, m) && m.UnlockMove? && s.objects[m.r].m.owner == m.t != NO_OWNER && |Queue(s.objects[m.r])| > 0 ==>
      var w := Queue(s.objects[m.r])[0];
      w < |s.tasks| && s.tasks[w].phase.Blocked?
  }

  /** What a step must leave alone for the owner of r to stay told. */
  lemma ToldKept(s: State, e: State, r: nat)
    requires r < |s.objects| == |e.objects| && s.objects[r].MutexObject? && e.objects[r].MutexObject? && OwnerTold(s, r)
    requires e.objects[r].m.owner == s.objects[r].m.owner && e.objects[r].held == s.objects[r].held
    requires |s.calls| == |e.calls| == |s.tasks| == |e.tasks|
    requires var o := s.objects[r].m.owner;
      o < |s.calls| ==>
        (Granted(s, r, o) ==> Granted(e, r, o)) && (e.calls[o].In? && e.calls[o].r == r ==> s.calls[o].In? && s.calls[o].r == r)
    ensures OwnerTold(e, r)
  {
  }

  lemma ToldCall(s: State, m: Move, r: nat)
    requires Inv(s) && Enabled(s, m) && (m.StartLock? || m.StartTake?)
    requires r < |s.objects| && s.objects[r].MutexObject? && OwnerTold(s, r)
    ensures r < |Step(s, m).objects| && Step(s, m).objects[r].MutexObject? && OwnerTold(Step(s, m), r)
  {
  }

  lemma ToldRelease(s: State, m: Move, r: nat)
    requires Inv(s) && Enabled(s, m) && Clean(s, m) && (m.UnlockMove? || m.GiveMove?)
    requires r < |s.objects| && s.objects[r].MutexObject? && OwnerTold(s, r)
    ensures r < |Step(s, m).objects| && Step(s, m).objects[r].MutexObject? && OwnerTold(Step(s, m), r)
  {
    var q := Queue(s.objects[m.r]);
    assert ObjectSound(s, m.r);
    if |q| > 0 {
      assert Member(s, m.r, q[0]);
    }
    if r != m.r || m.GiveMove? {
      hide Inv, Clean, CallSound;
      ToldKept(s, Step(s, m), r);
    }
  }

  lemma ToldContinue(s: State, t: nat, r: nat)
    requires Inv(s) && Enabled(s, Continue(t)) && s.calls[t].In?
    requires r < |s.objects| && s.objects[r].MutexObject? && OwnerTold(s, r)
    ensures r < |DoContinue(s, t).objects| && DoContinue(s, t).objects[r].MutexObject? && OwnerTold(DoContinue(s, t), r)
  {
    assert CallSound(s.tasks[t], t, s.calls[t], s.objects, s.now, s.next);
    assert ObjectSound(s, r);
    hide Inv, CallSound, ObjectSound;
  }

  lemma ToldStays(s: State, m: Move, r: nat)
    requires Inv(s) && Clean(s, m) && r < |s.objects| && s.objects[r].MutexObject? && OwnerTold(s, r)
    ensures r < |Step(s, m).objects| && Step(s, m).objects[r].MutexObject? && OwnerTold(Step(s, m), r)
  {
    KindStays(s, m, r);
    if Enabled(s, m) {
      match m {
        case StartLock(t, k, ms) => ToldCall(s, m, r);
        case StartTake(t, k, ms) => ToldCall(s, m, r);
        case UnlockMove(t, k) => ToldRelease(s, m, r);
        case GiveMove(k) => ToldRelease(s, m, r);
        case Continue(t) => if s.calls[t].In? { ToldContinue(s, t, r); } else { ToldKept(s, Step(s, m), r); }
        case Sleep(t, us) => ToldKept(s, Step(s, m), r);
        case BlockElsewhere(t, us) => ToldKept(s, Step(s, m), r);
        case ResumeElsewhere(t) => ToldKept(s, Step(s, m), r);
        case Advance(us) => ToldKept(s, Step(s, m), r);
        case WakeUp => ToldKept(s, Step(s, m), r);
      }
    }
  }

  lemma LeakAppears(s: State, m: Move)
    requires Inv(s) && !Clean(s, m)
    ensures !NoLeak(Step(s, m))
  {
    var e := Step(s, m);
    var w := Queue(s.objects[m.r])[0];
    assert ObjectSound(s, m.r);
    assert Member(s, m.r, w);
    assert CallSound(s.tasks[w], w, s.calls[w], s.objects, s.now, s.next);
    assert !OwnerTold(e, m.r);
  }

  /** Every mutex is always owned by a task that knows it (or by none) if and only if every unlock of
      the run finds its first waiter still blocked. */
  lemma {:induction false} LeaksIff(kinds: seq<bool>, ms: seq<Move>)
    ensures (forall i :: 0 <= i <= |ms| ==> NoLeak(Run(Init(kinds), ms[..i])))
      <==> (forall i :: 0 <= i < |ms| ==> Clean(Run(Init(kinds), ms[..i]), ms[i]))
  {
    if forall i :: 0 <= i < |ms| ==> Clean(Run(Init(kinds), ms[..i]), ms[i]) {
      forall i | 0 <= i <= |ms| ensures NoLeak(Run(Init(kinds), ms[..i])) {
        CleanPrefix(kinds, ms, i);
      }
    } else {
      var i :| 0 <= i < |ms| && !Clean(Run(Init(kinds), ms[..i]), ms[i]);
      AlwaysInv(kinds, ms[..i]);
      LeakAppears(Run(Init(kinds), ms[..i]), ms[i]);
      assert ms[..i + 1][..i] == ms[..i];
      assert !NoLeak(Run(Init(kinds), ms[..i + 1]));
    }
  }

  lemma {:induction false} CleanPrefix(kinds: seq<bool>, ms: seq<Move>, i: nat)
    requires i <= |ms| && forall k :: 0 <= k < i ==> Clean(Run(Init(kinds), ms[..k]), ms[k])
    ensures NoLeak(Run(Init(kinds), ms[..i]))
  {
    if i > 0 {
      CleanPrefix(kinds, ms, i - 1);
      var s := Run(Init(kinds), ms[..i - 1]);
      AlwaysInv(kinds, ms[..i - 1]);
      assert ms[..i][..i - 1] == ms[..i - 1];
      assert Run(Init(kinds), ms[..i]) == Step(s, ms[i - 1]);
      assert Clean(s, ms[i - 1]);
      hide Run, Init, Step, Inv, OwnerTold, Clean;
      NoLeakStep(s, ms[i - 1]);
    }
  }

  lemma NoLeakStep(s: State, m: Move)
    requires Inv(s) && Clean(s, m) && NoLeak(s)
    ensures NoLeak(Step(s, m))
  {
    forall r: nat | r < |Step(s, m).objects| && Step(s, m).objects[r].MutexObject? ensures OwnerTold(Step(s, m), r) {
      SameObjects(s, m);
      KindStays(s, m, r);
      hide Step, Inv, OwnerTold, Clean;
      ToldStays(s, m, r);
    }
  }

  lemma SameObjects(s: State, m: Move)
    ensures |Step(s, m).objects| == |s.objects|
  {
  }

  /** Where the owner is always told, no call times out on a mutex it owns. */
  lemma TimeoutOwnsNothing(s: State, t: nat)
    requires Inv(s) && NoLeak(s) && Enabled(s, Continue(t)) && s.calls[t].In? && s.objects[s.calls[t].r].MutexObject?
    requires Verdict(s, t) == Timeout
    ensures Step(s, Continue(t)).objects[s.calls[t].r].m.owner != t
  {
    assert OwnerTold(s, s.calls[t].r);
    assert CallSound(s.tasks[t], t, s.calls[t], s.objects, s.now, s.next);
  }

  const LEAK := [StartLock(0, 0, WAIT_FOREVER), StartLock(1, 0, 1), Advance(1000), WakeUp, UnlockMove(0, 0), Continue(1)]

  const IDLE := Task(Ready, 0, false)

  /** One mutex, with only task 1 away from its initial state. */
  function Snapshot(task: Task, call: Call, x: Object, now: nat, next: nat): State {
    State(seq(MAX_TASKS, i => if i == 1 then task else IDLE), seq(MAX_TASKS, i => if i == 1 then call else Idle), [x], now, next)
  }

  /** The states of that run. */
  function Stage(n: nat): State {
    var waiting := MutexObject(Mutex(0, [1]), {0}, []);
    var handed := MutexObject(Mutex(1, []), {}, [0]);
    if n == 0 then Snapshot(IDLE, Idle, NEW_MUTEX, 0, 0)
    else if n == 1 then Snapshot(IDLE, Idle, MutexObject(Mutex(0, []), {0}, []), 0, 0)
    else if n == 2 then Snapshot(Task(Blocked, 1000, false), In(0, 1000, 0), waiting, 0, 1)
    else if n == 3 then Snapshot(Task(Blocked, 1000, false), In(0, 1000, 0), waiting, 1000, 1)
    else if n == 4 then Snapshot(Task(Ready, 0, true), In(0, 1000, 0), waiting, 1000, 1)
    else if n == 5 then Snapshot(Task(Ready, 0, true), In(0, 1000, 0), handed, 1000, 1)
    else Snapshot(Task(Ready, 0, true), Idle, handed, 1000, 1)
  }

  lemma StageStep(n: nat)
    requires n < |LEAK|
    ensures Step(Stage(n), LEAK[n]) == Stage(n + 1)
  {
    var s, e := Stage(n), Stage(n + 1);
    assert Without([], 1) == [];
    if n == 4 {
      StageUnlock();
    } else {
      var nobody: set<nat> := {0};
      var log: seq<nat> := [];
      assert {} + nobody == nobody && log + [1] == [1];
      hide Unlock, Without;
      assert Step(s, LEAK[n]).tasks == e.tasks;
      assert Step(s, LEAK[n]).calls == e.calls;
      assert Step(s, LEAK[n]).objects[0] == e.objects[0];
    }
  }

  lemma StageUnlock()
    ensures Step(Stage(4), LEAK[4]) == Stage(5)
  {
    var s, e := Stage(4), Stage(5);
    var nobody: set<nat> := {0};
    var queue: seq<nat> := [1];
    var log: seq<nat> := [];
    assert nobody - {0} == {} && queue[1..] == [] && log + [0] == [0];
    assert Popped(s, s.objects[0]) == [0] && Unlock(s.objects[0].m, s.tasks, 0).1 == Mutex(1, []);
    assert Step(s, LEAK[4]) == DoUnlock(s, 0, 0);
    assert DoUnlock(s, 0, 0).objects[0] == e.objects[0];
    assert DoUnlock(s, 0, 0).tasks == e.tasks;
  }

  lemma {:induction false} StageRun(n: nat)
    requires n <= |LEAK|
    ensures Run(Init([true]), LEAK[..n]) == Stage(n)
  {
    if n == 0 {
      assert Init([true]) == Stage(0);
    } else {
      StageRun(n - 1);
      StageStep(n - 1);
      hide Step, Stage;
      assert LEAK[..n][..n - 1] == LEAK[..n - 1];
    }
  }

  /** A run in which task 1 times out and owns the mutex all the same: nobody holds it, and every
      other task could ask for it now and would wait. */
  lemma TimedOutOwner()
    ensures var s := Run(Init([true]), LEAK[..5]);
      var e := Run(Init([true]), LEAK);
      && Enabled(s, Continue(1)) && s.calls[1].In? && Verdict(s, 1) == Timeout
      && e.calls[1].Idle? && e.objects == [MutexObject(Mutex(1, []), {}, [0])]
      && forall t: nat :: t < MAX_TASKS && t != 1 ==>
        Enabled(e, StartLock(t, 0, WAIT_FOREVER)) && Lock(e.objects[0].m, e.tasks, t, e.now, WAIT_FOREVER).0.Blocks?
  {
    StageRun(5);
    StageRun(6);
    assert LEAK[..6] == LEAK;
    forall t: nat | t < MAX_TASKS && t != 1
      ensures Enabled(Stage(6), StartLock(t, 0, WAIT_FOREVER))
        && Lock(Stage(6).objects[0].m, Stage(6).tasks, t, Stage(6).now, WAIT_FOREVER).0.Blocks? {
    }
  }

  // ---------- semaphores ----------

  /** Takers that a give has chosen and that have not returned yet. */
  function Pending(s: State, r: nat): set<nat> {
    set t: nat | t < MAX_TASKS && Granted(s, r, t)
  }

  /** Every give is accounted for: taken, promised to a woken taker, stored, absorbed by a stored
      token, or lost on a taker that had already timed out. */
  predicate Balanced(s: State, r: nat)
    requires r < |s.objects| && s.objects[r].SemObject?
  {
    var x := s.objects[r];
    x.gives == x.taken + |Pending(s, r)| + x.s.count + x.saturated + x.lost
  }

  lemma SamePending(s: State, e: State, r: nat)
    requires forall t: nat :: t < MAX_TASKS ==> (Granted(s, r, t) <==> Granted(e, r, t))
    ensures Pending(e, r) == Pending(s, r)
  {
  }

  lemma GiveBalanced(s: State, r: nat)
    requires Inv(s) && Enabled(s, GiveMove(r)) && Balanced(s, r)
    ensures Balanced(DoGive(s, r), r)
  {
    var e := DoGive(s, r);
    var q := Queue(s.objects[r]);
    assert ObjectSound(s, r);
    if |q| == 0 {
      SamePending(s, e, r);
    } else {
      var w := q[0];
      assert Member(s, r, w);
      if s.tasks[w].phase.Blocked? {
        assert Pending(e, r) == Pending(s, r) + {w};
      } else {
        SamePending(s, e, r);
      }
    }
  }

  lemma ContinueBalanced(s: State, t: nat, r: nat)
    requires Inv(s) && Enabled(s, Continue(t)) && s.calls[t].In? && r < |s.objects| && s.objects[r].SemObject? && Balanced(s, r)
    ensures Balanced(DoContinue(s, t), r)
  {
    var e := DoContinue(s, t);
    if s.calls[t].r == r && Granted(s, r, t) {
      assert Pending(e, r) == Pending(s, r) - {t};
    } else {
      SamePending(s, e, r);
    }
  }

  lemma UnlockBalanced(s: State, t: nat, k: nat, r: nat)
    requires Inv(s) && Enabled(s, UnlockMove(t, k)) && r < |s.objects| && s.objects[r].SemObject? && Balanced(s, r)
    ensures Balanced(DoUnlock(s, t, k), r)
  {
    var q := Queue(s.objects[k]);
    assert ObjectSound(s, k);
    if |q| > 0 {
      assert Member(s, k, q[0]);
    }
    SamePending(s, DoUnlock(s, t, k), r);
  }

  lemma OtherGiveBalanced(s: State, k: nat, r: nat)
    requires Inv(s) && Enabled(s, GiveMove(k)) && r < |s.objects| && s.objects[r].SemObject? && Balanced(s, r) && r != k
    ensures Balanced(DoGive(s, k), r)
  {
    var q := Queue(s.objects[k]);
    assert ObjectSound(s, k);
    if |q| > 0 {
      assert Member(s, k, q[0]);
    }
    SamePending(s, DoGive(s, k), r);
  }

  lemma CallBalanced(s: State, m: Move, r: nat)
    requires Inv(s) && Enabled(s, m) && (m.StartLock? || m.StartTake?) && r < |s.objects| && s.objects[r].SemObject? && Balanced(s, r)
    ensures var e := Step(s, m);
      r < |e.objects| && e.objects[r].SemObject? && Balanced(e, r)
  {
    assert ObjectSound(s, r);
    SamePending(s, Step(s, m), r);
  }

  lemma StepBalanced(s: State, m: Move, r: nat)
    requires Inv(s) && r < |s.objects| && s.objects[r].SemObject? && Balanced(s, r)
    ensures var e := Step(s, m);
      r < |e.objects| && e.objects[r].SemObject? && Balanced(e, r)
  {
    KindStays(s, m, r);
    if Enabled(s, m) {
      match m {
        case GiveMove(k) => if k == r { GiveBalanced(s, r); } else { OtherGiveBalanced(s, k, r); }
        case Continue(t) => if s.calls[t].In? { ContinueBalanced(s, t, r); } else { SamePending(s, Step(s, m), r); }
        case UnlockMove(t, k) => UnlockBalanced(s, t, k, r);
        case StartLock(t, k, ms) => CallBalanced(s, m, r);
        case StartTake(t, k, ms) => CallBalanced(s, m, r);
        case Sleep(t, us) => SamePending(s, Step(s, m), r);
        case BlockElsewhere(t, us) => SamePending(s, Step(s, m), r);
        case ResumeElsewhere(t) => SamePending(s, Step(s, m), r);
        case Advance(us) => SamePending(s, Step(s, m), r);
        case WakeUp => SamePending(s, Step(s, m), r);
      }
    }
  }

  /** Gives are conserved on every run, the token count is binary, and a stored token means nobody waits. */
  lemma {:induction false} GivesConserved(kinds: seq<bool>, ms: seq<Move>, r: nat)
    requires r < |kinds| && !kinds[r]
    ensures var s := Run(Init(kinds), ms);
      && r < |s.objects| && s.objects[r].SemObject? && Balanced(s, r)
      && s.objects[r].s.count <= 1 && (s.objects[r].s.count == 1 ==> s.objects[r].s.waiters == [])
  {
    var s := Run(Init(kinds), ms);
    if |ms| == 0 {
      assert Pending(s, r) == {};
    } else {
      var p := Run(Init(kinds), ms[..|ms| - 1]);
      GivesConserved(kinds, ms[..|ms| - 1], r);
      AlwaysInv(kinds, ms[..|ms| - 1]);
      AlwaysInv(kinds, ms);
      assert s == Step(p, ms[|ms| - 1]);
      assert ObjectSound(s, r) by { hide Run, Step, ObjectSound, TasksSound; }
      hide Run, Init, Step, Inv, Balanced;
      StepBalanced(p, ms[|ms| - 1], r);
    }
  }
}
