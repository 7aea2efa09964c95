/** Tearing down a GPIO interrupt on a multi-core ESP32 (pal_hal_gpio_esp32.c), one pin.
    Any number of cores run the interrupt wrapper and any number of tasks register, disable
    and synchronize, in any interleaving of the atomic steps below. The handler table is
    only touched under its spinlock; the in-flight counter is a wrapping 32-bit word. */
module GpioIsr {

  import opened Arith

  /** A handler: the callback's address (0 is NULL) and its argument. */
  datatype Handler = Handler(isr: nat, arg: int)

  /** Where a core is in the wrapper. */
  datatype Core =
    | Idle
    | Dispatched                 // entered, not yet counted
    | Counted                    // counter incremented, pin masked
    | Reading                    // holds the lock, first look at the table
    | Decided(h: Handler)        // lock released, local copy taken
    | Calling(h: Handler)        // inside the callback
    | Finished(reenable: bool)   // callback done or skipped
    | Rechecking                 // holds the lock, second look
    | Leaving                    // about to decrement

  /** Where a task is. `seen` is the number of registrations there had been when it cleared the table. */
  datatype Task =
    | Free
    | WantClear
    | Clearing                   // holds the lock
    | Cleared(seen: nat)         // disable has returned
    | Syncing(seen: nat)         // polling the counter
    | Quiet(seen: nat)           // synchronize returned after reading zero
    | TimedOut(seen: nat)        // synchronize gave up, and also returned OK
    | WantRegister(h: Handler)
    | Registering(h: Handler)    // holds the lock
    | WantUndo
    | Undoing                    // holds the lock

  datatype Holder = Nobody | CoreHolds(c: nat) | TaskHolds(t: nat)

  /** `registrations` only counts, for the proof, how often a handler was stored. */
  datatype State = State(table: Handler, inFlight: nat, lock: Holder, registrations: nat, cores: seq<Core>, tasks: seq<Task>)

  datatype Move =
    | Fire(c: nat) | Count(c: nat) | LockTable(c: nat) | ReadTable(c: nat) | Call(c: nat) | Return(c: nat)
    | LockAgain(c: nat) | ReadAgain(c: nat) | Uncount(c: nat)
    | Disable(t: nat) | LockClear(t: nat) | Clear(t: nat)
    | Synchronize(t: nat) | Poll(t: nat) | GiveUp(t: nat) | Done(t: nat)
    | Register(t: nat, h: Handler) | LockRegister(t: nat) | Store(t: nat, accepted: bool) | LockUndo(t: nat) | Undo(t: nat)

  const NULL_HANDLER := Handler(0, 0)

  function Init(cores: nat, tasks: nat): State {
    State(NULL_HANDLER, 0, Nobody, 0, seq(cores, _ => Idle), seq(tasks, _ => Free))
  }

  // ---------- steps; a move that is not enabled changes nothing ----------

  function CoreStep(s: State, m: Move, c: nat): State
    requires c < |s.cores|
  {
    var at := (pc: Core) => s.cores[c := pc];
    match (m, s.cores[c])
    case (Fire(_), Idle) => s.(cores := at(Dispatched))
    case (Count(_), Dispatched) => s.(cores := at(Counted), inFlight := (s.inFlight + 1) % U32)
    case (LockTable(_), Counted) => if s.lock.Nobody? then s.(cores := at(Reading), lock := CoreHolds(c)) else s
    case (ReadTable(_), Reading) => s.(cores := at(Decided(s.table)), lock := Nobody)
    case (Call(_), Decided(h)) => if h.isr != 0 then s.(cores := at(Calling(h))) else s.(cores := at(Finished(false)))
    case (Return(_), Calling(_)) => s.(cores := at(Finished(true)))
    case (LockAgain(_), Finished(true)) => if s.lock.Nobody? then s.(cores := at(Rechecking), lock := CoreHolds(c)) else s
    case (ReadAgain(_), Rechecking) => s.(cores := at(Leaving), lock := Nobody)
    case (Uncount(_), Finished(false)) => s.(cores := at(Idle), inFlight := (s.inFlight + U32 - 1) % U32)
    case (Uncount(_), Leaving) => s.(cores := at(Idle), inFlight := (s.inFlight + U32 - 1) % U32)
    case _ => s
  }

  function TaskStep(s: State, m: Move, t: nat): State
    requires t < |s.tasks|
  {
    var at := (pc: Task) => s.tasks[t := pc];
    match (m, s.tasks[t])
    case (Disable(_), Free) => s.(tasks := at(WantClear))
    case (LockClear(_), WantClear) => if s.lock.Nobody? then s.(tasks := at(Clearing), lock := TaskHolds(t)) else s
    case (Clear(_), Clearing) => s.(tasks := at(Cleared(s.registrations)), table := NULL_HANDLER, lock := Nobody)
    case (Synchronize(_), Cleared(n)) => s.(tasks := at(Syncing(n)))
    case (Poll(_), Syncing(n)) => if s.inFlight > 0 then s else s.(tasks := at(Quiet(n)))
    case (GiveUp(_), Syncing(n)) => if s.inFlight > 0 then s.(tasks := at(TimedOut(n))) else s
    case (Done(_), Quiet(_)) => s.(tasks := at(Free))
    case (Done(_), TimedOut(_)) => s.(tasks := at(Free))
    case (Register(_, h), Free) => if h.isr != 0 then s.(tasks := at(WantRegister(h))) else s
    case (LockRegister(_), WantRegister(h)) =>
      if s.lock.Nobody? then s.(tasks := at(Registering(h)), lock := TaskHolds(t)) else s
    case (Store(_, accepted), Registering(h)) =>
      s.(tasks := at(if accepted then Free else WantUndo), table := h, registrations := s.registrations + 1, lock := Nobody)
    case (LockUndo(_), WantUndo) => if s.lock.Nobody? then s.(tasks := at(Undoing), lock := TaskHolds(t)) else s
    case (Undo(_), Undoing) => s.(tasks := at(Free), table := s.table.(isr := 0), lock := Nobody)
    case _ => s
  }

  predicate IsCoreMove(m: Move) {
    m.Fire? || m.Count? || m.LockTable? || m.ReadTable? || m.Call? || m.Return? || m.LockAgain? || m.ReadAgain? || m.Uncount?
  }

  function Step(s: State, m: Move): State {
    if IsCoreMove(m) then (if m.c < |s.cores| then CoreStep(s, m, m.c) else s)
    else if m.t < |s.tasks| then TaskStep(s, m, m.t)
    else s
  }

  function Run(s: State, ms: seq<Move>): State {
    if |ms| == 0 then s else Step(Run(s, ms[..|ms| - 1]), ms[|ms| - 1])
  }

  // ---------- the invariant ----------

  predicate Active(pc: Core) { !pc.Idle? && !pc.Dispatched? }

  function ActiveCount(cores: seq<Core>): nat {
    if |cores| == 0 then 0
    else ActiveCount(cores[..|cores| - 1]) + (if Active(cores[|cores| - 1]) then 1 else 0)
  }

  /** The core holds a live callback: about to call it, or inside it. */
  predicate Live(pc: Core) {
    (pc.Decided? || pc.Calling?) && pc.h.isr != 0
  }

  /** No core is inside a callback or about to enter one, and none is installed. */
  predicate Quiescent(s: State) {
    s.table.isr == 0 && forall c :: 0 <= c < |s.cores| ==> !Live(s.cores[c])
  }

  predicate InCritical(pc: Task) { pc.Clearing? || pc.Registering? || pc.Undoing? }

  predicate LockRight(s: State) {
    && (forall c :: 0 <= c < |s.cores| ==> ((s.cores[c].Reading? || s.cores[c].Rechecking?) <==> s.lock == CoreHolds(c)))
    && (forall t :: 0 <= t < |s.tasks| ==> (InCritical(s.tasks[t]) <==> s.lock == TaskHolds(t)))
  }

  predicate Remembers(pc: Task) { pc.Cleared? || pc.Syncing? || pc.Quiet? || pc.TimedOut? }

  predicate Inv(s: State) {
    && |s.cores| < U32
    && s.inFlight == ActiveCount(s.cores)
    && LockRight(s)
    && (forall t :: 0 <= t < |s.tasks| && Remembers(s.tasks[t]) ==> s.tasks[t].seen <= s.registrations)
    && (forall t :: 0 <= t < |s.tasks| && Remembers(s.tasks[t]) && s.tasks[t].seen == s.registrations ==> s.table.isr == 0)
    && (forall t :: 0 <= t < |s.tasks| && s.tasks[t].Quiet? && s.tasks[t].seen == s.registrations ==> Quiescent(s))
  }

  lemma {:induction false} CountBound(cores: seq<Core>)
    ensures ActiveCount(cores) <= |cores|
    ensures ActiveCount(cores) == 0 ==> forall c :: 0 <= c < |cores| ==> !Active(cores[c])
  {
    if |cores| > 0 {
      CountBound(cores[..|cores| - 1]);
    }
  }

  lemma {:induction false} CountUpdate(cores: seq<Core>, c: nat, pc: Core)
    requires c < |cores|
    ensures ActiveCount(cores[c := pc]) == ActiveCount(cores) - (if Active(cores[c]) then 1 else 0) + (if Active(pc) then 1 else 0)
  {
    var n := |cores| - 1;
    if c < n {
      assert cores[c := pc][..n] == cores[..n][c := pc];
      CountUpdate(cores[..n], c, pc);
    } else {
      assert cores[c := pc][..n] == cores[..n];
    }
  }

  /** The counter word, with its wrap-around, is the number of counted cores. */
  lemma CoreCount(s: State, m: Move, c: nat)
    requires Inv(s) && c < |s.cores|
    ensures var q := CoreStep(s, m, c); |q.cores| == |s.cores| && q.inFlight == ActiveCount(q.cores)
  {
    var q := CoreStep(s, m, c);
    CountBound(q.cores);
    CountBound(s.cores);
    if q.cores != s.cores {
      CountUpdate(s.cores, c, q.cores[c]);
    }
  }

  lemma CoreStepInv(s: State, m: Move, c: nat)
    requires Inv(s) && c < |s.cores|
    ensures Inv(CoreStep(s, m, c))
    ensures Quiescent(s) ==> Quiescent(CoreStep(s, m, c))
  {
    CoreCount(s, m, c);
    CoreLock(s, m, c);
    hide ActiveCount, LockRight;
  }

  lemma CoreLock(s: State, m: Move, c: nat)
    requires LockRight(s) && c < |s.cores|
    ensures LockRight(CoreStep(s, m, c))
  {
  }

  lemma TaskLock(s: State, m: Move, t: nat)
    requires LockRight(s) && t < |s.tasks|
    ensures LockRight(TaskStep(s, m, t))
  {
  }

  /** Reading zero proves every core is outside the wrapper or not yet past the counter. */
  lemma ZeroMeansNoLiveCore(s: State)
    requires Inv(s) && s.inFlight == 0
    ensures forall c :: 0 <= c < |s.cores| ==> !Live(s.cores[c])
  {
    CountBound(s.cores);
  }

  lemma TaskStepInv(s: State, m: Move, t: nat)
    requires Inv(s) && t < |s.tasks|
    ensures Inv(TaskStep(s, m, t))
    ensures Quiescent(s) && TaskStep(s, m, t).registrations == s.registrations ==> Quiescent(TaskStep(s, m, t))
  {
    TaskLock(s, m, t);
    if s.inFlight == 0 {
      ZeroMeansNoLiveCore(s);
    }
    hide ActiveCount, LockRight, Live;
  }

  lemma StepInv(s: State, m: Move)
    requires Inv(s)
    ensures Inv(Step(s, m)) && Step(s, m).registrations >= s.registrations
    ensures |Step(s, m).cores| == |s.cores| && |Step(s, m).tasks| == |s.tasks|
    ensures Quiescent(s) && Step(s, m).registrations == s.registrations ==> Quiescent(Step(s, m))
  {
    hide Inv, Quiescent;
    if IsCoreMove(m) {
      if m.c < |s.cores| {
        CoreStepInv(s, m, m.c);
      }
    } else if m.t < |s.tasks| {
      TaskStepInv(s, m, m.t);
    }
  }

  lemma {:induction false} IdleCount(n: nat)
    ensures ActiveCount(seq(n, _ => Idle)) == 0
  {
    if n > 0 {
      assert seq(n, _ => Idle)[..n - 1] == seq(n - 1, _ => Idle);
      IdleCount(n - 1);
    }
  }

  lemma {:induction false} RunInv(s: State, ms: seq<Move>)
    requires Inv(s)
    ensures Inv(Run(s, ms)) && Run(s, ms).registrations >= s.registrations
    ensures |Run(s, ms).cores| == |s.cores| && |Run(s, ms).tasks| == |s.tasks|
    ensures Quiescent(s) && Run(s, ms).registrations == s.registrations ==> Quiescent(Run(s, ms))
  {
    hide Inv, Quiescent, Step;
    if |ms| > 0 {
      RunInv(s, ms[..|ms| - 1]);
      StepInv(Run(s, ms[..|ms| - 1]), ms[|ms| - 1]);
    }
  }

  lemma {:induction false} AlwaysInv(cores: nat, tasks: nat, ms: seq<Move>)
    requires cores < U32
    ensures Inv(Run(Init(cores, tasks), ms))
  {
    IdleCount(cores);
    RunInv(Init(cores, tasks), ms);
  }

  // ---------- what disable-then-synchronize promises ----------

  /** Once a task that cleared the table leaves synchronize by reading zero, and as long as nobody
      registers a handler, no core is inside a callback or will ever enter one: for any number of
      cores and tasks, any interleaving before and any interleaving after. */
  lemma SynchronizeQuiesces(cores: nat, tasks: nat, before: seq<Move>, t: nat, after: seq<Move>)
    requires cores < U32 && t < tasks
    requires var s := Run(Init(cores, tasks), before);
      t < |s.tasks| && s.tasks[t] == Quiet(s.registrations)
    requires var s := Run(Init(cores, tasks), before);
      Run(s, after).registrations == s.registrations
    ensures Quiescent(Run(Run(Init(cores, tasks), before), after))
  {
    hide Run, Quiescent, Init;
    AlwaysInv(cores, tasks, before);
    RunInv(Run(Init(cores, tasks), before), after);
  }

  /** The core holds the lock: its first or its second look at the table. */
  predicate Looking(c: Core) { c.Reading? || c.Rechecking? }

  /** Mutual exclusion of the table: of all cores and tasks at most one is in a critical section. */
  lemma TableExclusive(cores: nat, tasks: nat, ms: seq<Move>)
    requires cores < U32
    ensures var s := Run(Init(cores, tasks), ms);
      && (forall c, d :: 0 <= c < d < |s.cores| ==> !(Looking(s.cores[c]) && Looking(s.cores[d])))
      && (forall t, u :: 0 <= t < u < |s.tasks| ==> !(InCritical(s.tasks[t]) && InCritical(s.tasks[u])))
      && (forall c, t :: 0 <= c < |s.cores| && 0 <= t < |s.tasks| ==> !(Looking(s.cores[c]) && InCritical(s.tasks[t])))
  {
    hide Run, Init;
    AlwaysInv(cores, tasks, ms);
  }

  /** One core in state c and one task in state t. */
  function Pair(table: Handler, inFlight: nat, lock: Holder, n: nat, c: Core, t: Task): State {
    State(table, inFlight, lock, n, [c], [t])
  }

  lemma RunFour(s: State, a: Move, b: Move, c: Move, d: Move)
    ensures Run(s, [a, b, c, d]) == Step(Step(Step(Step(s, a), b), c), d)
  {
    hide Step;
    assert [a, b, c, d][..3] == [a, b, c] && [a, b, c][..2] == [a, b] && [a, b][..1] == [a] && [a][..0] == [];
    assert Run(s, [a]) == Step(s, a);
    assert Run(s, [a, b]) == Step(Step(s, a), b);
    assert Run(s, [a, b, c]) == Step(Step(Step(s, a), b), c);
  }

  lemma StoreSteps(h: Handler)
    requires h.isr != 0
    ensures Step(Pair(NULL_HANDLER, 0, Nobody, 0, Idle, Free), Register(0, h)) == Pair(NULL_HANDLER, 0, Nobody, 0, Idle, WantRegister(h))
    ensures Step(Pair(NULL_HANDLER, 0, Nobody, 0, Idle, WantRegister(h)), LockRegister(0))
         == Pair(NULL_HANDLER, 0, TaskHolds(0), 0, Idle, Registering(h))
    ensures Step(Pair(NULL_HANDLER, 0, TaskHolds(0), 0, Idle, Registering(h)), Store(0, true)) == Pair(h, 0, Nobody, 1, Idle, Free)
  {
  }

  lemma EnterSteps(h: Handler)
    requires h.isr != 0
    ensures Step(Pair(h, 0, Nobody, 1, Idle, Free), Fire(0)) == Pair(h, 0, Nobody, 1, Dispatched, Free)
    ensures Step(Pair(h, 0, Nobody, 1, Dispatched, Free), Count(0)) == Pair(h, 1, Nobody, 1, Counted, Free)
    ensures Step(Pair(h, 1, Nobody, 1, Counted, Free), LockTable(0)) == Pair(h, 1, CoreHolds(0), 1, Reading, Free)
  {
  }

  lemma CallSteps(h: Handler)
    requires h.isr != 0
    ensures Step(Pair(h, 1, CoreHolds(0), 1, Reading, Free), ReadTable(0)) == Pair(h, 1, Nobody, 1, Decided(h), Free)
    ensures Step(Pair(h, 1, Nobody, 1, Decided(h), Free), Call(0)) == Pair(h, 1, Nobody, 1, Calling(h), Free)
  {
  }

  lemma DisableSteps(h: Handler, c: Core)
    ensures Step(Pair(h, 1, Nobody, 1, c, Free), Disable(0)) == Pair(h, 1, Nobody, 1, c, WantClear)
    ensures Step(Pair(h, 1, Nobody, 1, c, WantClear), LockClear(0)) == Pair(h, 1, TaskHolds(0), 1, c, Clearing)
    ensures Step(Pair(h, 1, TaskHolds(0), 1, c, Clearing), Clear(0)) == Pair(NULL_HANDLER, 1, Nobody, 1, c, Cleared(1))
  {
  }

  lemma GiveUpSteps(c: Core)
    ensures Step(Pair(NULL_HANDLER, 1, Nobody, 1, c, Cleared(1)), Synchronize(0)) == Pair(NULL_HANDLER, 1, Nobody, 1, c, Syncing(1))
    ensures Step(Pair(NULL_HANDLER, 1, Nobody, 1, c, Syncing(1)), GiveUp(0)) == Pair(NULL_HANDLER, 1, Nobody, 1, c, TimedOut(1))
  {
  }

  lemma {:induction false} RunConcat(s: State, a: seq<Move>, b: seq<Move>)
    ensures Run(s, a + b) == Run(Run(s, a), b)
  {
    hide Step;
    if |b| == 0 {
      assert a + b == a;
    } else {
      assert (a + b)[..|a + b| - 1] == a + b[..|b| - 1];
      RunConcat(s, a, b[..|b| - 1]);
    }
  }

  /** Synchronize returns OK on a timeout too, and then promises nothing: there is a run after which
      it has returned while the old callback is still running. */
  lemma TimeoutPromisesNothing() returns (ms: seq<Move>)
    ensures Run(Init(1, 1), ms) == Pair(NULL_HANDLER, 1, Nobody, 1, Calling(Handler(7, 0)), TimedOut(1))
  {
    var h := Handler(7, 0);
    var a := [Register(0, h), LockRegister(0), Store(0, true), Fire(0)];
    var b := [Count(0), LockTable(0), ReadTable(0), Call(0)];
    var c := [Disable(0), LockClear(0), Clear(0), Synchronize(0)];
    assert Init(1, 1) == Pair(NULL_HANDLER, 0, Nobody, 0, Idle, Free);
    hide Run, Init, Step, Pair;
    StoreSteps(h);
    EnterSteps(h);
    CallSteps(h);
    DisableSteps(h, Calling(h));
    GiveUpSteps(Calling(h));
    RunFour(Init(1, 1), Register(0, h), LockRegister(0), Store(0, true), Fire(0));
    RunFour(Pair(h, 0, Nobody, 1, Dispatched, Free), Count(0), LockTable(0), ReadTable(0), Call(0));
    RunFour(Pair(h, 1, Nobody, 1, Calling(h), Free), Disable(0), LockClear(0), Clear(0), Synchronize(0));
    RunConcat(Init(1, 1), a, b);
    RunConcat(Init(1, 1), a + b, c);
    ms := ((a + b) + c) + [GiveUp(0)];
    RunLast(Init(1, 1), (a + b) + c, GiveUp(0));
  }

  lemma RunLast(s: State, ms: seq<Move>, m: Move)
    ensures Run(s, ms + [m]) == Step(Run(s, ms), m)
  {
    hide Step;
    assert (ms + [m])[..|ms|] == ms;
  }

  // ---------- delivery ----------

  /** The state with core c at pc. */
  function At(s: State, c: nat, pc: Core): State
    requires c < |s.cores|
  {
    s.(cores := s.cores[c := pc])
  }

  lemma EnterMoves(s: State, c: nat)
    requires c < |s.cores| && s.lock.Nobody?
    ensures Step(At(s, c, Idle), Fire(c)) == At(s, c, Dispatched)
    ensures Step(At(s, c, Dispatched), Count(c)) == At(s.(inFlight := (s.inFlight + 1) % U32), c, Counted)
    ensures Step(At(s, c, Counted), LockTable(c)) == At(s.(lock := CoreHolds(c)), c, Reading)
  {
  }

  lemma CallMoves(s: State, c: nat, h: Handler)
    requires c < |s.cores| && s.lock.Nobody?
    ensures Step(At(s.(lock := CoreHolds(c)), c, Reading), ReadTable(c)) == At(s, c, Decided(s.table))
    ensures Step(At(s, c, Decided(h)), Call(c)) == At(s, c, if h.isr != 0 then Calling(h) else Finished(false))
    ensures Step(At(s, c, Calling(h)), Return(c)) == At(s, c, Finished(true))
  {
  }

  lemma LeaveMoves(s: State, c: nat)
    requires c < |s.cores| && s.lock.Nobody?
    ensures Step(At(s, c, Finished(true)), LockAgain(c)) == At(s.(lock := CoreHolds(c)), c, Rechecking)
    ensures Step(At(s.(lock := CoreHolds(c)), c, Rechecking), ReadAgain(c)) == At(s, c, Leaving)
    ensures Step(At(s, c, Leaving), Uncount(c)) == At(s.(inFlight := (s.inFlight + U32 - 1) % U32), c, Idle)
    ensures Step(At(s, c, Finished(false)), Uncount(c)) == At(s.(inFlight := (s.inFlight + U32 - 1) % U32), c, Idle)
  {
  }

  /** An interrupt on an idle core, left alone, runs the handler that is installed, with its argument, and the
      core leaves the wrapper again; without a handler it passes through. */
  lemma InterruptDelivered(s: State, c: nat)
    requires Inv(s) && c < |s.cores| && s.cores[c].Idle? && s.lock.Nobody?
    ensures var e := Step(Step(Step(Step(Step(s, Fire(c)), Count(c)), LockTable(c)), ReadTable(c)), Call(c));
      var counted := s.(inFlight := s.inFlight + 1);
      if s.table.isr != 0 then
        && e == At(counted, c, Calling(s.table))
        && Step(Step(Step(Step(e, Return(c)), LockAgain(c)), ReadAgain(c)), Uncount(c)) == s
      else
        && e == At(counted, c, Finished(false))
        && Step(e, Uncount(c)) == s
  {
    CountBound(s.cores);
    IdleNotCounted(s.cores, c);
    CountsBack(s.inFlight);
    WayIn(s, c, s.inFlight + 1);
    WayOut(s.(inFlight := s.inFlight + 1), c, s.table, s.inFlight);
    hide Step, ActiveCount, LockRight, Inv;
    assert s.(inFlight := s.inFlight + 1).(inFlight := s.inFlight) == s;
    assert s.cores[c := Idle] == s.cores;
  }

  lemma WayIn(s: State, c: nat, n: nat)
    requires c < |s.cores| && s.cores[c].Idle? && s.lock.Nobody? && n == (s.inFlight + 1) % U32
    ensures Step(Step(Step(Step(Step(s, Fire(c)), Count(c)), LockTable(c)), ReadTable(c)), Call(c))
         == At(s.(inFlight := n), c, if s.table.isr != 0 then Calling(s.table) else Finished(false))
  {
    assert s.cores[c := Idle] == s.cores;
    assert At(s, c, Idle) == s;
    hide Step, At;
    EnterMoves(s, c);
    EnterMoves(s.(inFlight := n), c);
    CallMoves(s.(inFlight := n), c, s.table);
  }

  lemma WayOut(s: State, c: nat, h: Handler, n: nat)
    requires c < |s.cores| && s.lock.Nobody? && n == (s.inFlight + U32 - 1) % U32
    ensures Step(Step(Step(Step(At(s, c, Calling(h)), Return(c)), LockAgain(c)), ReadAgain(c)), Uncount(c)) == At(s.(inFlight := n), c, Idle)
    ensures Step(At(s, c, Finished(false)), Uncount(c)) == At(s.(inFlight := n), c, Idle)
  {
    hide Step, At;
    CallMoves(s, c, h);
    LeaveMoves(s, c);
  }

  lemma CountsBack(n: nat)
    requires n + 1 < U32
    ensures (n + 1) % U32 == n + 1 && ((n + 1) + U32 - 1) % U32 == n
  {
    ModSmall(n + 1, U32);
    ModSmall(n, U32);
    ModShift(1, n, U32);
  }

  lemma {:induction false} IdleNotCounted(cores: seq<Core>, c: nat)
    requires c < |cores| && !Active(cores[c])
    ensures ActiveCount(cores) < |cores|
  {
    CountBound(cores[..|cores| - 1]);
    if c < |cores| - 1 {
      IdleNotCounted(cores[..|cores| - 1], c);
    }
  }

  /** The state with task t at pc. */
  function As(s: State, t: nat, pc: Task): State
    requires t < |s.tasks|
  {
    s.(tasks := s.tasks[t := pc])
  }

  lemma RegisterMoves(s: State, t: nat, h: Handler)
    requires t < |s.tasks| && s.lock.Nobody? && h.isr != 0
    ensures Step(As(s, t, Free), Register(t, h)) == As(s, t, WantRegister(h))
    ensures Step(As(s, t, WantRegister(h)), LockRegister(t)) == As(s.(lock := TaskHolds(t)), t, Registering(h))
  {
  }

  lemma StoreMoves(s: State, t: nat, h: Handler)
    requires t < |s.tasks| && s.lock.Nobody?
    ensures var held := As(s.(lock := TaskHolds(t)), t, Registering(h));
      var stored := s.(table := h, registrations := s.registrations + 1);
      Step(held, Store(t, true)) == As(stored, t, Free) && Step(held, Store(t, false)) == As(stored, t, WantUndo)
  {
  }

  lemma UndoMoves(s: State, t: nat)
    requires t < |s.tasks| && s.lock.Nobody?
    ensures Step(As(s, t, WantUndo), LockUndo(t)) == As(s.(lock := TaskHolds(t)), t, Undoing)
    ensures Step(As(s.(lock := TaskHolds(t)), t, Undoing), Undo(t)) == As(s.(table := Handler(0, s.table.arg)), t, Free)
  {
  }

  /** A registration, left alone, installs the handler; where the interrupt cannot be enabled it is taken back. */
  lemma RegisterInstalls(s: State, t: nat, h: Handler)
    requires t < |s.tasks| && s.tasks[t].Free? && s.lock.Nobody? && h.isr != 0
    ensures var locked := Step(Step(s, Register(t, h)), LockRegister(t));
      var stored := s.(table := h, registrations := s.registrations + 1);
      && Step(locked, Store(t, true)) == stored
      && Step(Step(Step(locked, Store(t, false)), LockUndo(t)), Undo(t)) == stored.(table := Handler(0, h.arg))
  {
    var stored := s.(table := h, registrations := s.registrations + 1);
    assert s.tasks[t := Free] == s.tasks;
    assert As(s, t, Free) == s && As(stored, t, Free) == stored;
    assert As(stored.(table := Handler(0, h.arg)), t, Free) == stored.(table := Handler(0, h.arg));
    hide Step, As;
    RegisterMoves(s, t, h);
    StoreMoves(s, t, h);
    UndoMoves(stored, t);
  }

  lemma DisableMoves(s: State, t: nat)
    requires t < |s.tasks| && s.lock.Nobody?
    ensures Step(As(s, t, Free), Disable(t)) == As(s, t, WantClear)
    ensures Step(As(s, t, WantClear), LockClear(t)) == As(s.(lock := TaskHolds(t)), t, Clearing)
    ensures Step(As(s.(lock := TaskHolds(t)), t, Clearing), Clear(t)) == As(s.(table := NULL_HANDLER), t, Cleared(s.registrations))
  {
  }

  lemma SyncMoves(s: State, t: nat, n: nat)
    requires t < |s.tasks|
    ensures Step(As(s, t, Cleared(n)), Synchronize(t)) == As(s, t, Syncing(n))
    ensures Step(As(s, t, Syncing(n)), Poll(t)) == As(s, t, if s.inFlight > 0 then Syncing(n) else Quiet(n))
    ensures s.inFlight > 0 ==> Step(As(s, t, Syncing(n)), GiveUp(t)) == As(s, t, TimedOut(n))
    ensures Step(As(s, t, Quiet(n)), Done(t)) == As(s, t, Free) == Step(As(s, t, TimedOut(n)), Done(t))
  {
  }

  /** A disable, left alone, clears the table; synchronizing then returns quietly exactly when nothing is in flight,
      and otherwise polls until it does or gives up. */
  lemma DisableClears(s: State, t: nat)
    requires t < |s.tasks| && s.tasks[t].Free? && s.lock.Nobody?
    ensures var cleared, n := s.(table := NULL_HANDLER), s.registrations;
      var d := Step(Step(Step(s, Disable(t)), LockClear(t)), Clear(t));
      var e := Step(Step(d, Synchronize(t)), Poll(t));
      && d == As(cleared, t, Cleared(n))
      && (if s.inFlight > 0 then e == As(cleared, t, Syncing(n)) && Step(e, GiveUp(t)) == As(cleared, t, TimedOut(n))
          else e == As(cleared, t, Quiet(n)) && Step(e, Done(t)) == cleared)
  {
    var cleared := s.(table := NULL_HANDLER);
    assert s.tasks[t := Free] == s.tasks;
    assert As(s, t, Free) == s && As(cleared, t, Free) == cleared;
    hide Step, As;
    DisableMoves(s, t);
    SyncMoves(cleared, t, s.registrations);
  }
}
