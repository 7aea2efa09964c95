/** Timing over whole runs: a timer that nobody touches fires exactly at the multiples of its period. */
module SoftTimerRuns {
  import opened Arith
  import opened Status
  import opened SoftTimer

  /** A call from outside a dispatch, or one dispatch. */
  datatype Event = Call(op: Op) | Tick(scripts: seq<Script>)

  /** `log` is the slots whose callbacks have run. */
  datatype World = World(t: Table, log: seq<nat>)

  function Step(w: World, e: Event): World {
    match e
    case Call(op) => World(Apply(w.t, op), w.log)
    case Tick(scripts) =>
      if |scripts| != MAX_TIMERS then w
      else
        var p := Dispatch(w.t, scripts);
        World(p.t, w.log + p.fired)
  }

  function Run(w: World, es: seq<Event>): World {
    if |es| == 0 then w else Step(Run(w, es[..|es| - 1]), es[|es| - 1])
  }

  /** However calls, callbacks and dispatches interleave, between them every active timer has a
      callback and is due within its period. */
  lemma {:induction false} AlwaysSound(es: seq<Event>)
    ensures Sound(Run(World(Cold(), []), es).t)
  {
    if |es| > 0 {
      AlwaysSound(es[..|es| - 1]);
      var w := Run(World(Cold(), []), es[..|es| - 1]);
      match es[|es| - 1] {
        case Call(op) => ApplySound(w.t, op, MAX_TIMERS);
        case Tick(scripts) =>
          if |scripts| == MAX_TIMERS && w.t.on {
            VisitUpToSound(w.t, scripts, MAX_TIMERS);
          }
      }
    }
  }

  // ---------- undisturbed timers ----------

  predicate Spares(op: Op, h: nat) {
    match op
    case InitOp => false
    case CreateOp(_, _, _, _) => true
    case StartOp(k) => k != h
    case StopOp(k) => k != h
    case DestroyOp(k) => k != h
    case ChangeOp(k, _) => k != h
  }

  predicate SparesAll(ops: seq<Op>, h: nat) {
    forall i :: 0 <= i < |ops| ==> Spares(ops[i], h)
  }

  /** Nobody else touches timer h, and its callback returns OK. */
  predicate Undisturbed(e: Event, h: nat)
    requires h < MAX_TIMERS
  {
    match e
    case Call(op) => Spares(op, h)
    case Tick(scripts) =>
      |scripts| == MAX_TIMERS && scripts[h].ok && forall i :: 0 <= i < MAX_TIMERS ==> SparesAll(scripts[i].ops, h)
  }

  /** Timer h is in the table, live. */
  predicate Present(t: Table, h: nat) {
    t.on && |t.ts| == MAX_TIMERS && h < MAX_TIMERS && t.ts[h].cb != 0
  }

  lemma ApplySpares(t: Table, op: Op, h: nat)
    requires Present(t, h) && Spares(op, h)
    ensures Present(Apply(t, op), h) && Apply(t, op).ts[h] == t.ts[h]
  {
  }

  lemma {:induction false} ApplyAllSpares(t: Table, ops: seq<Op>, h: nat)
    requires Present(t, h) && SparesAll(ops, h)
    ensures Present(ApplyAll(t, ops), h) && ApplyAll(t, ops).ts[h] == t.ts[h]
  {
    if |ops| > 0 {
      ApplyAllSpares(t, ops[..|ops| - 1], h);
      ApplySpares(ApplyAll(t, ops[..|ops| - 1]), ops[|ops| - 1], h);
    }
  }

  /** What one dispatch does to an undisturbed timer. */
  function Ticked(timer: Timer): Timer {
    if Due(timer) then Settle(CountDown(timer), true) else CountDown(timer)
  }

  lemma VisitSpares(t: Table, i: nat, script: Script, h: nat)
    requires Present(t, h) && i < MAX_TIMERS && SparesAll(script.ops, h) && (i == h ==> script.ok)
    ensures Present(Visit(t, i, script), h)
    ensures Visit(t, i, script).ts[h] == if i == h then Ticked(t.ts[h]) else t.ts[h]
  {
    var d := t.(ts := t.ts[i := CountDown(t.ts[i])]);
    ApplyAllSpares(d, script.ops, h);
    hide ApplyAll, SparesAll;
  }

  function Count(log: seq<nat>, h: nat): nat {
    if |log| == 0 then 0 else Count(log[..|log| - 1], h) + if log[|log| - 1] == h then 1 else 0
  }

  lemma CountNext(log: seq<nat>, k: nat, h: nat)
    ensures Count(log + [k], h) == Count(log, h) + if k == h then 1 else 0
  {
    assert (log + [k])[..|log|] == log;
  }

  lemma {:induction false} CountConcat(a: seq<nat>, b: seq<nat>, h: nat)
    ensures Count(a + b, h) == Count(a, h) + Count(b, h)
  {
    if |b| == 0 {
      assert a + b == a;
    } else {
      CountConcat(a, b[..|b| - 1], h);
      assert (a + b)[..|a + b| - 1] == a + b[..|b| - 1];
    }
  }

  /** Timer h when the dispatch has dealt with the first i slots. */
  predicate Reached(p: Pass, timer: Timer, i: nat, h: nat) {
    && Present(p.t, h)
    && p.t.ts[h] == (if h < i then Ticked(timer) else timer)
    && Count(p.fired, h) == if h < i && Due(timer) then 1 else 0
  }

  lemma VisitUpToNext(t: Table, scripts: seq<Script>, i: nat)
    requires i < |scripts|
    ensures var p := VisitUpTo(t, scripts, i);
      i < |p.t.ts| ==>
        VisitUpTo(t, scripts, i + 1) == Pass(Visit(p.t, i, scripts[i]), if Due(p.t.ts[i]) then p.fired + [i] else p.fired)
  {
    hide Visit, Due;
  }

  lemma VisitReaches(p: Pass, timer: Timer, i: nat, script: Script, h: nat)
    requires Reached(p, timer, i, h) && i < MAX_TIMERS && SparesAll(script.ops, h) && (i == h ==> script.ok)
    ensures Reached(Pass(Visit(p.t, i, script), if Due(p.t.ts[i]) then p.fired + [i] else p.fired), timer, i + 1, h)
  {
    VisitSpares(p.t, i, script, h);
    CountNext(p.fired, i, h);
    hide Visit, Ticked, Count, SparesAll;
  }

  lemma UndisturbedAt(scripts: seq<Script>, i: nat, h: nat)
    requires i < MAX_TIMERS && h < MAX_TIMERS && Undisturbed(Tick(scripts), h)
    ensures i < |scripts| && SparesAll(scripts[i].ops, h) && (i == h ==> scripts[i].ok)
  {
    hide SparesAll;
  }

  lemma NoVisit(t: Table, scripts: seq<Script>, h: nat)
    requires Present(t, h)
    ensures Reached(VisitUpTo(t, scripts, 0), t.ts[h], 0, h)
  {
  }

  lemma OneVisit(t: Table, scripts: seq<Script>, timer: Timer, i: nat, h: nat)
    requires h < MAX_TIMERS && i < MAX_TIMERS && Undisturbed(Tick(scripts), h)
    requires i < |scripts| && Reached(VisitUpTo(t, scripts, i), timer, i, h)
    ensures Reached(VisitUpTo(t, scripts, i + 1), timer, i + 1, h)
  {
    UndisturbedAt(scripts, i, h);
    VisitUpToNext(t, scripts, i);
    VisitReaches(VisitUpTo(t, scripts, i), timer, i, scripts[i], h);
    hide VisitUpTo, Undisturbed, SparesAll, Ticked, Count, Due, Visit;
  }

  lemma {:induction false} VisitUpToSpares(t: Table, scripts: seq<Script>, i: nat, h: nat)
    requires Present(t, h) && i <= MAX_TIMERS && Undisturbed(Tick(scripts), h)
    ensures i <= |scripts| && Reached(VisitUpTo(t, scripts, i), t.ts[h], i, h)
  {
    if i > 0 {
      UndisturbedAt(scripts, i - 1, h);
      VisitUpToSpares(t, scripts, i - 1, h);
      OneVisit(t, scripts, t.ts[h], i - 1, h);
    } else {
      NoVisit(t, scripts, h);
    }
    hide VisitUpTo, Undisturbed, Reached;
  }

  /** Dispatches in a run. */
  function TicksIn(es: seq<Event>): nat {
    if |es| == 0 then 0 else TicksIn(es[..|es| - 1]) + if es[|es| - 1].Tick? then 1 else 0
  }

  /** A just started periodic timer, and one that k dispatches have passed. */
  function Later(timer: Timer, k: nat): Timer
    requires timer.period > 0
  {
    if timer.mode.Periodic? then timer.(remaining := timer.period - k % timer.period)
    else if k < timer.period then timer.(remaining := timer.period - k)
    else timer.(remaining := 0, active := false)
  }

  function Firings(timer: Timer, k: nat): nat
    requires timer.period > 0
  {
    if timer.mode.Periodic? then k / timer.period else if k < timer.period then 0 else 1
  }

  predicate JustStarted(timer: Timer) {
    timer.cb != 0 && timer.active && timer.remaining == timer.period > 0
  }

  lemma NextDiv(k: nat, p: nat)
    requires p > 0
    ensures (k + 1) % p == (if k % p == p - 1 then 0 else k % p + 1)
    ensures (k + 1) / p == k / p + if k % p == p - 1 then 1 else 0
  {
    var q, r := k / p, k % p;
    assert k == q * p + r;
    if r == p - 1 {
      OneMore(q, p);
      DivModUnique(k + 1, q + 1, 0, p);
    } else {
      DivModUnique(k + 1, q, r + 1, p);
    }
  }

  lemma LaterTicked(timer: Timer, k: nat)
    requires JustStarted(timer)
    ensures Ticked(Later(timer, k)) == Later(timer, k + 1)
    ensures Firings(timer, k + 1) == Firings(timer, k) + if Due(Later(timer, k)) then 1 else 0
  {
    NextDiv(k, timer.period);
  }

  /** Exact periods: after k dispatches in which nobody disturbs it, a periodic timer started with
      period p has fired exactly k / p times and is due in p - k % p more; a one-shot has fired
      exactly once from the p-th on, and is stopped. */
  lemma {:induction false} ExactPeriod(w: World, h: nat, es: seq<Event>)
    requires Present(w.t, h) && JustStarted(w.t.ts[h])
    requires forall i :: 0 <= i < |es| ==> Undisturbed(es[i], h)
    ensures var e := Run(w, es);
      Present(e.t, h) && e.t.ts[h] == Later(w.t.ts[h], TicksIn(es))
      && Count(e.log, h) == Count(w.log, h) + Firings(w.t.ts[h], TicksIn(es))
  {
    if |es| > 0 {
      var p := es[..|es| - 1];
      ExactPeriod(w, h, p);
      OneMoreEvent(Run(w, p), w.t.ts[h], TicksIn(p), h, es[|es| - 1]);
      hide Undisturbed, Later, Firings, Step, Count;
    } else {
      FreshIsLater(w.t.ts[h]);
    }
  }

  lemma FreshIsLater(timer: Timer)
    requires JustStarted(timer)
    ensures Later(timer, 0) == timer && Firings(timer, 0) == 0
  {
    DivModUnique(0, 0, 0, timer.period);
  }

  lemma OneMoreEvent(u: World, timer: Timer, k: nat, h: nat, e: Event)
    requires JustStarted(timer) && Present(u.t, h) && u.t.ts[h] == Later(timer, k) && Undisturbed(e, h)
    ensures var v, n := Step(u, e), k + if e.Tick? then 1 else 0;
      Present(v.t, h) && v.t.ts[h] == Later(timer, n)
      && Count(v.log, h) == Count(u.log, h) + Firings(timer, n) - Firings(timer, k)
  {
    match e {
      case Call(op) =>
        ApplySpares(u.t, op, h);
        hide Later, Firings, Apply;
      case Tick(scripts) =>
        LaterTicked(timer, k);
        VisitUpToSpares(u.t, scripts, MAX_TIMERS, h);
        CountConcat(u.log, Dispatch(u.t, scripts).fired, h);
        hide Undisturbed, Ticked, Later, Firings, Due, VisitUpTo, Count;
    }
  }

  // ---------- stopped timers ----------

  /** No call and no callback of this event starts timer h. */
  predicate NotStarting(e: Event, h: nat) {
    match e
    case Call(op) => op != StartOp(h)
    case Tick(scripts) => forall i :: 0 <= i < |scripts| ==> NeverStarts(scripts[i].ops, h)
  }

  lemma {:induction false} VisitUpToSilent(t: Table, scripts: seq<Script>, i: nat, h: nat)
    requires Silent(t, h) && i <= |scripts| == MAX_TIMERS && NotStarting(Tick(scripts), h)
    ensures var p := VisitUpTo(t, scripts, i);
      Silent(p.t, h) && Count(p.fired, h) == 0
  {
    if i > 0 {
      VisitUpToSilent(t, scripts, i - 1, h);
      assert NeverStarts(scripts[i - 1].ops, h);
      VisitUpToNext(t, scripts, i - 1);
      var p := VisitUpTo(t, scripts, i - 1);
      VisitSilent(p.t, i - 1, scripts[i - 1], h);
      CountNext(p.fired, i - 1, h);
      hide VisitUpTo, Visit, Due, NeverStarts, NotStarting, Count;
    }
  }

  lemma StepSilent(w: World, e: Event, h: nat)
    requires Silent(w.t, h) && NotStarting(e, h)
    ensures Silent(Step(w, e).t, h) && Count(Step(w, e).log, h) == Count(w.log, h)
  {
    match e {
      case Call(op) => ApplySilent(w.t, op, h);
      case Tick(scripts) =>
        if |scripts| == MAX_TIMERS {
          VisitUpToSilent(w.t, scripts, MAX_TIMERS, h);
          CountConcat(w.log, Dispatch(w.t, scripts).fired, h);
          CountConcat(w.log, [], h);
        }
        hide VisitUpTo, NotStarting, Apply;
    }
  }

  lemma {:induction false} SilentRun(w: World, h: nat, es: seq<Event>)
    requires Silent(w.t, h) && forall i :: 0 <= i < |es| ==> NotStarting(es[i], h)
    ensures Silent(Run(w, es).t, h) && Count(Run(w, es).log, h) == Count(w.log, h)
  {
    hide Step, NotStarting, Count;
    if |es| > 0 {
      SilentRun(w, h, es[..|es| - 1]);
      StepSilent(Run(w, es[..|es| - 1]), es[|es| - 1], h);
    }
  }

  /** Stopping is final: after a stop of timer h its callback does not run again, through any calls, dispatches
      and callbacks, until somebody starts it. */
  lemma StoppedNeverFires(w: World, h: nat, es: seq<Event>)
    requires w.t.on && |w.t.ts| == MAX_TIMERS && h < MAX_TIMERS
    requires forall i :: 0 <= i < |es| ==> NotStarting(es[i], h)
    ensures var s := Step(w, Call(StopOp(h)));
      Count(Run(s, es).log, h) == Count(w.log, h) && Silent(Run(s, es).t, h)
  {
    var s := Step(w, Call(StopOp(h)));
    StopExact(w.t, h);
    assert s == World(Stop(w.t, h).1, w.log);
    assert Silent(s.t, h);
    hide Run, Stop, NotStarting, Silent;
    SilentRun(s, h, es);
  }

  /** Starting a timer begins its period afresh, so ExactPeriod applies from there. */
  lemma StartedIsFresh(w: World, h: nat)
    requires Sound(w.t) && Present(w.t, h)
    ensures var s := Step(w, Call(StartOp(h)));
      Present(s.t, h) && JustStarted(s.t.ts[h]) && s.log == w.log
  {
  }
}
