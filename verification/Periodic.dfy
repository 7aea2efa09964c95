/** Periodic handles over the software timers (wink_runtime_tasks.c). The LIGHT path is modelled in
    full; of the task path only its slot and whether the task could be created. */
module Periodic {
  import opened Arith
  import opened Status
  import Soft = SoftTimer

  const MAX_PERIODIC: nat := 12

  /** The callback every LIGHT timer is created with; its argument is the entry. */
  const LIGHT_CB: nat := 1

  datatype Entry =
    | FreeEntry
    | LightEntry(fn: nat, ms: nat, handle: nat)
    | TaskEntry(fn: nat, ms: nat)

  datatype State = State(entries: seq<Entry>, table: Soft.Table)

  datatype Started = Handle(h: nat) | Failed(status: Status)

  function Init(): State {
    State(seq(MAX_PERIODIC, _ => FreeEntry), Soft.Cold())
  }

  function FreeEntryFrom(es: seq<Entry>, i: nat): (k: nat)
    requires i <= |es|
    ensures i <= k <= |es| && (forall j :: i <= j < k ==> !es[j].FreeEntry?) && (k < |es| ==> es[k].FreeEntry?)
    decreases |es| - i
  {
    if i == |es| || es[i].FreeEntry? then i else FreeEntryFrom(es, i + 1)
  }

  /** The period handed to the timer: rounded up to whole ticks in 32-bit arithmetic. */
  function RoundedUp(ms: nat): nat {
    ((ms + Soft.TICK_MS - 1) % U32 / Soft.TICK_MS * Soft.TICK_MS) % U32
  }

  /** `spawned` is the outcome of creating the task, should one be needed. */
  function StartEx(p: State, named: bool, stackHint: nat, ms: nat, fn: nat, light: bool, mayBlock: bool, spawned: Status): (Started, State) {
    if !named || fn == 0 || ms == 0 || (light && mayBlock) then (Failed(InvalidArg), p)
    else
      var slot := FreeEntryFrom(p.entries, 0);
      if slot == |p.entries| then (Failed(ResourceExhausted), p)
      else if mayBlock || (!light && (ms >= 50 || stackHint >= 2048)) then
        if spawned.Ok? then (Handle(slot + 1), p.(entries := p.entries[slot := TaskEntry(fn, ms)])) else (Failed(spawned), p)
      else StartLight(p, slot, ms, fn)
  }

  function StartLight(p: State, slot: nat, ms: nat, fn: nat): (Started, State)
    requires slot < |p.entries|
  {
    var (created, t) := Soft.Create(p.table, LIGHT_CB, slot, Soft.Periodic, RoundedUp(ms));
    if created.Failed? then (Failed(ResourceExhausted), p)
    else
      var (status, u) := Soft.Start(t, created.h);
      if !status.Ok? then (Failed(status), p.(table := Soft.Destroy(u, created.h).1))
      else (Handle(slot + 1), State(p.entries[slot := LightEntry(fn, ms, created.h)], u))
  }

  predicate Known(p: State, h: int) {
    0 < h <= |p.entries| && !p.entries[h - 1].FreeEntry?
  }

  function Stop(p: State, h: int): State {
    if !Known(p, h) then p
    else
      var e := p.entries[h - 1];
      State(p.entries[h - 1 := FreeEntry], if e.LightEntry? then Soft.Destroy(p.table, e.handle).1 else p.table)
  }

  function ChangePeriod(p: State, h: int, ms: nat): (Status, State) {
    if ms == 0 || !Known(p, h) then (InvalidArg, p)
    else
      var e := p.entries[h - 1];
      if e.LightEntry? then
        var (status, t) := Soft.ChangePeriod(p.table, e.handle, ms);
        (status, p.(table := t))
      else (Ok, p.(entries := p.entries[h - 1 := TaskEntry(e.fn, ms)]))
  }

  function ActiveCount(es: seq<Entry>): nat {
    if |es| == 0 then 0 else ActiveCount(es[..|es| - 1]) + if es[|es| - 1].FreeEntry? then 0 else 1
  }

  // ---------- rounding ----------

  lemma RoundedUpIs(ms: nat)
    requires 0 < ms < U32
    ensures ms + 9 < U32 ==> ms <= RoundedUp(ms) < ms + 10 && RoundedUp(ms) % 10 == 0 && RoundedUp(ms) > 0
    ensures ms + 9 >= U32 ==> RoundedUp(ms) == 0
  {
    ModOnce(ms + 9, U32);
  }

  /** A LIGHT start with a free entry and a free timer succeeds exactly when rounding its period up
      does not overflow 32 bits, and its timer then runs at the least number of whole ticks that is
      not shorter than requested. */
  lemma LightNeverShorter(p: State, slot: nat, ms: nat, fn: nat)
    requires slot < |p.entries| && 0 < ms < U32 && p.table.on && Soft.FreeSlot(p.table.ts, 0) < |p.table.ts|
    ensures var (r, e) := StartLight(p, slot, ms, fn);
      (r.Handle? <==> ms + 9 < U32) && (r.Failed? ==> r.status == ResourceExhausted && e == p)
      && (r.Handle? ==>
        slot < |e.entries| && e.entries[slot].LightEntry? && e.entries[slot].handle < |e.table.ts|
        && var timer := e.table.ts[e.entries[slot].handle];
          timer.active && timer.remaining == timer.period
          && timer.period * Soft.TICK_MS >= ms && (timer.period - 1) * Soft.TICK_MS < ms)
  {
    RoundedUpIs(ms);
  }

  /** Changing the period rounds down instead: the new period is shorter than requested exactly when
      the request is at least one tick and not a whole number of ticks. */
  lemma ChangeMayShorten(p: State, h: int, ms: nat)
    requires ms > 0 && Known(p, h) && p.entries[h - 1].LightEntry? && ChangePeriod(p, h, ms).0.Ok?
    ensures var k := p.entries[h - 1].handle;
      var e := ChangePeriod(p, h, ms).1;
      k < |e.table.ts| && (e.table.ts[k].period * Soft.TICK_MS < ms <==> ms >= Soft.TICK_MS && ms % Soft.TICK_MS != 0)
  {
  }

  // ---------- ownership over runs ----------

  /** Every LIGHT entry has its own timer, and every LIGHT timer its own entry. */
  predicate Inv(p: State) {
    && |p.entries| == MAX_PERIODIC && |p.table.ts| == Soft.MAX_TIMERS
    && (forall s: nat :: s < MAX_PERIODIC && p.entries[s].LightEntry? ==>
          p.entries[s].handle < Soft.MAX_TIMERS && p.table.on && Owned(p.table.ts[p.entries[s].handle], s))
    && (forall k: nat :: k < Soft.MAX_TIMERS && p.table.ts[k].cb == LIGHT_CB ==>
          p.table.ts[k].arg < MAX_PERIODIC && p.entries[p.table.ts[k].arg].LightEntry? && p.entries[p.table.ts[k].arg].handle == k)
  }

  predicate Owned(timer: Soft.Timer, s: nat) {
    timer.cb == LIGHT_CB && timer.arg == s && timer.mode.Periodic?
  }

  /** Calls into this layer, calls into the timers by other code, and the two halves of a slot's
      turn in a dispatch; the calls a callback makes come between the halves. */
  datatype Move =
    | StartMove(named: bool, stackHint: nat, ms: nat, fn: nat, light: bool, mayBlock: bool, spawned: Status)
    | StopMove(h: int) | ChangeMove(h: int, ms: nat)
    | TimerMove(op: Soft.Op)
    | CountMove(k: nat) | SettleMove(k: nat, ok: bool)

  /** Other code creates timers with its own callbacks, destroys only timers that are not LIGHT
      timers, and initializes the table only when no LIGHT entry exists. */
  predicate Allowed(p: State, m: Move) {
    match m
    case TimerMove(InitOp) => forall s: nat :: s < |p.entries| ==> !p.entries[s].LightEntry?
    case TimerMove(CreateOp(cb, arg, mode, ms)) => cb != LIGHT_CB
    case TimerMove(DestroyOp(h)) => 0 <= h < |p.table.ts| ==> p.table.ts[h].cb != LIGHT_CB
    case _ => true
  }

  function Step(p: State, m: Move): State {
    match m
    case StartMove(named, stackHint, ms, fn, light, mayBlock, spawned) => StartEx(p, named, stackHint, ms, fn, light, mayBlock, spawned).1
    case StopMove(h) => Stop(p, h)
    case ChangeMove(h, ms) => ChangePeriod(p, h, ms).1
    case TimerMove(op) => if Allowed(p, m) then p.(table := Soft.Apply(p.table, op)) else p
    case CountMove(k) =>
      if k < |p.table.ts| then p.(table := p.table.(ts := p.table.ts[k := Soft.CountDown(p.table.ts[k])])) else p
    case SettleMove(k, ok) =>
      if k < |p.table.ts| then p.(table := p.table.(ts := p.table.ts[k := Soft.Settle(p.table.ts[k], ok)])) else p
  }

  function Run(ms: seq<Move>): State {
    if |ms| == 0 then Init() else Step(Run(ms[..|ms| - 1]), ms[|ms| - 1])
  }

  lemma StartInv(p: State, slot: nat, ms: nat, fn: nat)
    requires Inv(p) && slot < |p.entries| && p.entries[slot].FreeEntry?
    ensures Inv(StartLight(p, slot, ms, fn).1)
  {
  }

  lemma StopInv(p: State, h: int)
    requires Inv(p)
    ensures Inv(Stop(p, h))
  {
  }

  lemma TimerInv(p: State, op: Soft.Op)
    requires Inv(p) && Allowed(p, TimerMove(op))
    ensures Inv(p.(table := Soft.Apply(p.table, op)))
  {
  }

  /** Changes to one timer that keep its identity. */
  lemma SameOwner(p: State, k: nat, timer: Soft.Timer)
    requires Inv(p) && k < Soft.MAX_TIMERS
    requires timer.cb == p.table.ts[k].cb && timer.arg == p.table.ts[k].arg && timer.mode == p.table.ts[k].mode
    ensures Inv(p.(table := p.table.(ts := p.table.ts[k := timer])))
  {
  }

  lemma ChangeInv(p: State, h: int, ms: nat)
    requires Inv(p)
    ensures Inv(ChangePeriod(p, h, ms).1)
  {
  }

  lemma StepInv(p: State, m: Move)
    requires Inv(p)
    ensures Inv(Step(p, m))
  {
    match m {
      case StartMove(named, stackHint, ms, fn, light, mayBlock, spawned) =>
        var slot := FreeEntryFrom(p.entries, 0);
        if slot < |p.entries| {
          StartInv(p, slot, ms, fn);
        }
      case StopMove(h) => StopInv(p, h);
      case ChangeMove(h, ms) => ChangeInv(p, h, ms);
      case TimerMove(op) =>
        hide Soft.Apply, Inv;
        if Allowed(p, m) {
          TimerInv(p, op);
        }
      case CountMove(k) =>
        if k < |p.table.ts| {
          SameOwner(p, k, Soft.CountDown(p.table.ts[k]));
        }
      case SettleMove(k, ok) =>
        if k < |p.table.ts| {
          SameOwner(p, k, Soft.Settle(p.table.ts[k], ok));
        }
    }
  }

  /** In every run, callbacks included, LIGHT entries and LIGHT timers correspond one to one. */
  lemma {:induction false} AlwaysInv(ms: seq<Move>)
    ensures Inv(Run(ms))
  {
    if |ms| > 0 {
      AlwaysInv(ms[..|ms| - 1]);
      StepInv(Run(ms[..|ms| - 1]), ms[|ms| - 1]);
    }
  }

  /** Two LIGHT entries never share a timer. */
  lemma TimersDistinct(ms: seq<Move>, s: nat, u: nat)
    requires s < u < MAX_PERIODIC
    ensures var es := Run(ms).entries;
      |es| == MAX_PERIODIC && (es[s].LightEntry? && es[u].LightEntry? ==> es[s].handle != es[u].handle)
  {
    AlwaysInv(ms);
  }

  // ---------- stopping undoes starting ----------

  lemma {:induction false} CountUpdate(es: seq<Entry>, k: nat, e: Entry)
    requires k < |es|
    ensures ActiveCount(es[k := e]) == ActiveCount(es) - (if es[k].FreeEntry? then 0 else 1) + (if e.FreeEntry? then 0 else 1)
  {
    var n := |es| - 1;
    if k == n {
      assert es[k := e][..n] == es[..n];
    } else {
      CountUpdate(es[..n], k, e);
      assert es[k := e][..n] == es[..n][k := e];
    }
  }

  /** A timer slot without a callback is blank, between and during dispatches. */
  predicate Blank(t: Soft.Table) {
    |t.ts| == Soft.MAX_TIMERS && forall k: nat :: k < |t.ts| && t.ts[k].cb == 0 ==> t.ts[k] == Soft.FREE
  }

  lemma ApplyBlank(t: Soft.Table, op: Soft.Op)
    requires Blank(t)
    ensures Blank(Soft.Apply(t, op))
  {
  }

  lemma UpdateBlank(t: Soft.Table, k: nat, timer: Soft.Timer)
    requires Blank(t) && (timer.cb == 0 ==> timer == Soft.FREE) && k < |t.ts|
    ensures Blank(t.(ts := t.ts[k := timer]))
  {
  }

  lemma LightBlank(p: State, slot: nat, ms: nat, fn: nat)
    requires Blank(p.table) && slot < |p.entries|
    ensures Blank(StartLight(p, slot, ms, fn).1.table)
  {
    var c := Soft.CreateOp(LIGHT_CB, slot, Soft.Periodic, RoundedUp(ms));
    var (created, t) := Soft.Create(p.table, LIGHT_CB, slot, Soft.Periodic, RoundedUp(ms));
    ApplyBlank(p.table, c);
    if created.Handle? {
      ApplyBlank(t, Soft.StartOp(created.h));
      ApplyBlank(Soft.Start(t, created.h).1, Soft.DestroyOp(created.h));
    }
    hide Blank, Soft.Create, Soft.Start, Soft.Destroy, RoundedUp;
  }

  lemma StepBlank(p: State, m: Move)
    requires Blank(p.table)
    ensures Blank(Step(p, m).table)
  {
    match m {
      case StartMove(named, stackHint, ms, fn, light, mayBlock, spawned) =>
        var slot := FreeEntryFrom(p.entries, 0);
        if slot < |p.entries| {
          LightBlank(p, slot, ms, fn);
        }
        hide Blank, StartLight;
      case StopMove(h) =>
        if Known(p, h) && p.entries[h - 1].LightEntry? {
          ApplyBlank(p.table, Soft.DestroyOp(p.entries[h - 1].handle));
        }
        hide Blank, Soft.Destroy;
      case ChangeMove(h, ms) =>
        if Known(p, h) && p.entries[h - 1].LightEntry? {
          ApplyBlank(p.table, Soft.ChangeOp(p.entries[h - 1].handle, ms));
        }
        hide Blank, Soft.ChangePeriod;
      case TimerMove(op) =>
        ApplyBlank(p.table, op);
        hide Blank, Soft.Apply, Allowed;
      case CountMove(k) =>
        if k < |p.table.ts| {
          UpdateBlank(p.table, k, Soft.CountDown(p.table.ts[k]));
        }
      case SettleMove(k, ok) =>
        if k < |p.table.ts| {
          UpdateBlank(p.table, k, Soft.Settle(p.table.ts[k], ok));
        }
    }
  }

  lemma {:induction false} AlwaysBlank(ms: seq<Move>)
    ensures Blank(Run(ms).table)
  {
    hide Step;
    if |ms| > 0 {
      AlwaysBlank(ms[..|ms| - 1]);
      StepBlank(Run(ms[..|ms| - 1]), ms[|ms| - 1]);
    }
  }

  lemma StopRestores(p: State, named: bool, stackHint: nat, ms: nat, fn: nat, light: bool, mayBlock: bool, spawned: Status)
    requires Inv(p) && Blank(p.table)
    ensures var (r, e) := StartEx(p, named, stackHint, ms, fn, light, mayBlock, spawned);
      if r.Handle? then Stop(e, r.h) == p && ActiveCount(e.entries) == ActiveCount(p.entries) + 1 else e == p
  {
    var (r, e) := StartEx(p, named, stackHint, ms, fn, light, mayBlock, spawned);
    if r.Handle? {
      var slot := FreeEntryFrom(p.entries, 0);
      CountUpdate(p.entries, slot, e.entries[slot]);
      assert Stop(e, r.h).entries == p.entries;
      if e.entries[slot].LightEntry? {
        var k := e.entries[slot].handle;
        assert p.table.ts[k] == Soft.FREE;
        assert Stop(e, r.h).table.ts == p.table.ts;
      }
    }
  }

  /** At any point of any run: a successful start occupies one more entry, and stopping the new handle
      restores entries and timers exactly; a failed one changes nothing. */
  lemma StopUndoesStart(moves: seq<Move>, named: bool, stackHint: nat, ms: nat, fn: nat, light: bool, mayBlock: bool, spawned: Status)
    ensures var p := Run(moves);
      var (r, e) := StartEx(p, named, stackHint, ms, fn, light, mayBlock, spawned);
      if r.Handle? then Stop(e, r.h) == p && ActiveCount(e.entries) == ActiveCount(p.entries) + 1 else e == p
  {
    AlwaysInv(moves);
    AlwaysBlank(moves);
    hide Run, StartEx, Stop, ActiveCount, Inv, Blank;
    StopRestores(Run(moves), named, stackHint, ms, fn, light, mayBlock, spawned);
  }

  // ---------- what the calls do ----------

  /** The heavy path: asked for, or too long a period or too large a stack for a timer callback. */
  predicate NeedsTask(light: bool, mayBlock: bool, ms: nat, stackHint: nat) {
    mayBlock || (!light && (ms >= 50 || stackHint >= 2048))
  }

  /** A start fails exactly for invalid arguments, without a free entry, or when its task or its timer cannot
      be had; a successful one puts its callback and period into the first free entry. */
  lemma StartExact(p: State, named: bool, stackHint: nat, ms: nat, fn: nat, light: bool, mayBlock: bool, spawned: Status)
    requires Inv(p) && p.table.on && ms < U32
    ensures var (r, e) := StartEx(p, named, stackHint, ms, fn, light, mayBlock, spawned);
      var valid := named && fn != 0 && ms != 0 && !(light && mayBlock);
      var room := exists s: nat :: s < |p.entries| && p.entries[s].FreeEntry?;
      var timer := ms + 9 < U32 && exists k: nat :: k < |p.table.ts| && p.table.ts[k].cb == 0;
      && (r.Handle? <==> valid && room && if NeedsTask(light, mayBlock, ms, stackHint) then spawned == Ok else timer)
      && (r.Failed? ==> e == p && (r.status == InvalidArg || r.status == ResourceExhausted || r.status == spawned != Ok))
      && (!valid ==> r == Failed(InvalidArg))
      && (r.Handle? ==>
            && 0 < r.h <= |p.entries| == |e.entries| && p.entries[r.h - 1].FreeEntry?
            && (forall s: nat :: s < r.h - 1 ==> !p.entries[s].FreeEntry?)
            && e.entries == p.entries[r.h - 1 := e.entries[r.h - 1]]
            && !e.entries[r.h - 1].FreeEntry? && e.entries[r.h - 1].fn == fn && e.entries[r.h - 1].ms == ms
            && (e.entries[r.h - 1].TaskEntry? <==> NeedsTask(light, mayBlock, ms, stackHint)))
  {
    var slot := FreeEntryFrom(p.entries, 0);
    var k := Soft.FreeSlot(p.table.ts, 0);
    if slot < |p.entries| && 0 < ms {
      RoundedUpIs(ms);
      Soft.CreateExact(p.table, LIGHT_CB, slot, Soft.Periodic, RoundedUp(ms));
      hide RoundedUp;
    }
  }

  /** Stopping a known handle frees its entry, and its timer if it has one; nothing else changes. */
  lemma StopExact(p: State, h: int)
    requires Inv(p)
    ensures var e := Stop(p, h);
      if !(0 < h <= |p.entries|) || p.entries[h - 1].FreeEntry? then e == p
      else
        && e.entries == p.entries[h - 1 := FreeEntry]
        && if p.entries[h - 1].LightEntry? then Soft.OnlySlot(p.table, e.table, p.entries[h - 1].handle) && e.table.ts[p.entries[h - 1].handle] == Soft.FREE
           else e.table == p.table
  {
  }

  /** A period change succeeds exactly for a known handle and a nonzero period. */
  lemma ChangeExact(p: State, h: int, ms: nat)
    requires Inv(p)
    ensures var (status, e) := ChangePeriod(p, h, ms);
      && (status == Ok <==> ms != 0 && 0 < h <= |p.entries| && !p.entries[h - 1].FreeEntry?)
      && (status != Ok ==> status == InvalidArg && e == p)
      && (status == Ok && p.entries[h - 1].TaskEntry? ==> e == p.(entries := p.entries[h - 1 := TaskEntry(p.entries[h - 1].fn, ms)]))
      && (status == Ok && p.entries[h - 1].LightEntry? ==>
            var k := p.entries[h - 1].handle;
            e.entries == p.entries && Soft.OnlySlot(p.table, e.table, k) && (e.table.ts[k].period * Soft.TICK_MS <= ms || e.table.ts[k].period == 1))
  {
    if 0 < h <= |p.entries| && p.entries[h - 1].LightEntry? {
      Soft.ChangeExact(p.table, p.entries[h - 1].handle, ms);
    }
  }

  lemma {:induction false} CountsUsed(es: seq<Entry>)
    ensures ActiveCount(es) == |set s: nat | s < |es| && !es[s].FreeEntry?|
  {
    if |es| > 0 {
      var n := |es| - 1;
      CountsUsed(es[..n]);
      var before := set s: nat | s < n && !es[..n][s].FreeEntry?;
      var after := set s: nat | s < |es| && !es[s].FreeEntry?;
      assert after == if es[n].FreeEntry? then before else before + {n};
    }
  }
}
