/** The software timers of wink_soft_timer.c: what each call and each dispatch does to the table.
    A callback is whatever it does to the table (a list of calls back into the timer API) and the
    status it returns; both are inputs here. */
module SoftTimer {
  import opened Status

  const MAX_TIMERS: nat := 16
  const TICK_MS: nat := 10

  datatype Mode = Oneshot | Periodic

  /** `cb` is 0 in a free slot. */
  datatype Timer = Timer(cb: nat, arg: nat, mode: Mode, period: nat, remaining: nat, active: bool)

  const FREE := Timer(0, 0, Oneshot, 0, 0, false)

  datatype Table = Table(on: bool, ts: seq<Timer>)

  datatype Created = Handle(h: nat) | Failed(status: Status)

  /** The static table before initialization. */
  function Cold(): Table {
    Table(false, seq(MAX_TIMERS, _ => FREE))
  }

  function Init(t: Table): Table {
    Table(true, seq(MAX_TIMERS, _ => FREE))
  }

  /** Milliseconds to ticks, rounded down but never to zero. */
  function Ticks(ms: nat): nat {
    if ms / TICK_MS == 0 then 1 else ms / TICK_MS
  }

  function FreeSlot(ts: seq<Timer>, i: nat): (k: nat)
    requires i <= |ts|
    ensures i <= k <= |ts| && (forall j :: i <= j < k ==> ts[j].cb != 0) && (k < |ts| ==> ts[k].cb == 0)
    decreases |ts| - i
  {
    if i == |ts| || ts[i].cb == 0 then i else FreeSlot(ts, i + 1)
  }

  function Create(t: Table, cb: nat, arg: nat, mode: Mode, ms: nat): (Created, Table) {
    if !t.on || cb == 0 || ms == 0 then (Failed(InvalidArg), t)
    else
      var i := FreeSlot(t.ts, 0);
      if i >= |t.ts| then (Failed(NoMem), t)
      else (Handle(i), t.(ts := t.ts[i := Timer(cb, arg, mode, Ticks(ms), Ticks(ms), false)]))
  }

  predicate Known(t: Table, h: int) {
    t.on && 0 <= h < |t.ts|
  }

  function Start(t: Table, h: int): (Status, Table) {
    if !Known(t, h) || t.ts[h].cb == 0 then (InvalidArg, t)
    else (Ok, t.(ts := t.ts[h := t.ts[h].(remaining := t.ts[h].period, active := true)]))
  }

  function Stop(t: Table, h: int): (Status, Table) {
    if !Known(t, h) then (InvalidArg, t) else (Ok, t.(ts := t.ts[h := t.ts[h].(active := false)]))
  }

  function Destroy(t: Table, h: int): (Status, Table) {
    if !Known(t, h) then (InvalidArg, t)
    else if t.ts[h].cb == 0 then (Ok, t)
    else (Ok, t.(ts := t.ts[h := FREE]))
  }

  function ChangePeriod(t: Table, h: int, ms: nat): (Status, Table) {
    if !Known(t, h) || t.ts[h].cb == 0 || ms == 0 then (InvalidArg, t)
    else
      var p := Ticks(ms);
      var r := t.ts[h].remaining;
      (Ok, t.(ts := t.ts[h := t.ts[h].(period := p, remaining := if t.ts[h].active && r > p then p else r)]))
  }

  // ---------- dispatch ----------

  datatype Op =
    | InitOp | CreateOp(cb: nat, arg: nat, mode: Mode, ms: nat)
    | StartOp(h: int) | StopOp(h: int) | DestroyOp(h: int) | ChangeOp(h: int, ms: nat)

  function Apply(t: Table, op: Op): (u: Table)
  {
    match op
    case InitOp => Init(t)
    case CreateOp(cb, arg, mode, ms) => Create(t, cb, arg, mode, ms).1
    case StartOp(h) => Start(t, h).1
    case StopOp(h) => Stop(t, h).1
    case DestroyOp(h) => Destroy(t, h).1
    case ChangeOp(h, ms) => ChangePeriod(t, h, ms).1
  }

  function ApplyAll(t: Table, ops: seq<Op>): Table {
    if |ops| == 0 then t else Apply(ApplyAll(t, ops[..|ops| - 1]), ops[|ops| - 1])
  }

  /** What the callback of one slot does when it runs, and whether it returns OK. */
  datatype Script = Script(ops: seq<Op>, ok: bool)

  predicate Due(timer: Timer) {
    timer.cb != 0 && timer.active && timer.remaining <= 1
  }

  function CountDown(timer: Timer): Timer {
    if timer.cb != 0 && timer.active && timer.remaining > 0 then timer.(remaining := timer.remaining - 1) else timer
  }

  /** The bookkeeping after the callback: stop, or start the next period. */
  function Settle(timer: Timer, ok: bool): Timer {
    if !ok || timer.mode.Oneshot? then timer.(active := false) else timer.(remaining := timer.period)
  }

  /** One slot's turn. */
  function Visit(t: Table, i: nat, script: Script): Table
    requires i < |t.ts|
  {
    var d := t.(ts := t.ts[i := CountDown(t.ts[i])]);
    if !Due(t.ts[i]) then d
    else
      var u := ApplyAll(d, script.ops);
      if i < |u.ts| then u.(ts := u.ts[i := Settle(u.ts[i], script.ok)]) else u
  }

  /** The slots before i have had their turn; `fired` are those whose callbacks ran. */
  datatype Pass = Pass(t: Table, fired: seq<nat>)

  function VisitUpTo(t: Table, scripts: seq<Script>, i: nat): Pass
    requires i <= |scripts|
  {
    if i == 0 then Pass(t, [])
    else
      var p := VisitUpTo(t, scripts, i - 1);
      if i - 1 >= |p.t.ts| then p
      else Pass(Visit(p.t, i - 1, scripts[i - 1]), if Due(p.t.ts[i - 1]) then p.fired + [i - 1] else p.fired)
  }

  /** One dispatch of the whole table. */
  function Dispatch(t: Table, scripts: seq<Script>): Pass
    requires |scripts| == MAX_TIMERS
  {
    if !t.on then Pass(t, []) else VisitUpTo(t, scripts, MAX_TIMERS)
  }

  // ---------- the invariant ----------

  /** A free slot is blank; a created timer has a period; an active one is due within its period. */
  predicate TimerSound(timer: Timer) {
    && (if timer.cb != 0 then timer.period >= 1 else timer == FREE)
    && (timer.active ==> timer.cb != 0 && 1 <= timer.remaining <= timer.period)
  }

  /** As it may look inside its own callback. */
  predicate TimerFiring(timer: Timer) {
    && (if timer.cb != 0 then timer.period >= 1 else timer == FREE)
    && (timer.active ==> timer.cb != 0 && timer.remaining <= timer.period)
  }

  predicate SoundExcept(t: Table, k: nat) {
    && |t.ts| == MAX_TIMERS && (!t.on ==> t.ts == Cold().ts)
    && forall i :: 0 <= i < MAX_TIMERS ==> (i == k && TimerFiring(t.ts[i])) || (i != k && TimerSound(t.ts[i]))
  }

  predicate Sound(t: Table) {
    SoundExcept(t, MAX_TIMERS)
  }

  lemma ApplySound(t: Table, op: Op, k: nat)
    requires SoundExcept(t, k)
    ensures SoundExcept(Apply(t, op), k) && (t.on ==> Apply(t, op).on)
  {
  }

  lemma {:induction false} ApplyAllSound(t: Table, ops: seq<Op>, k: nat)
    requires SoundExcept(t, k)
    ensures SoundExcept(ApplyAll(t, ops), k) && (t.on ==> ApplyAll(t, ops).on)
  {
    if |ops| > 0 {
      ApplyAllSound(t, ops[..|ops| - 1], k);
      hide Apply, SoundExcept;
      ApplySound(ApplyAll(t, ops[..|ops| - 1]), ops[|ops| - 1], k);
    }
  }

  /** Whatever a callback does to the timers (its own included), the table is sound again after its turn. */
  lemma VisitSound(t: Table, i: nat, script: Script)
    requires Sound(t) && i < MAX_TIMERS && t.on
    ensures Sound(Visit(t, i, script)) && Visit(t, i, script).on
  {
    var d := t.(ts := t.ts[i := CountDown(t.ts[i])]);
    assert SoundExcept(d, i);
    ApplyAllSound(d, script.ops, i);
  }

  lemma {:induction false} VisitUpToSound(t: Table, scripts: seq<Script>, i: nat)
    requires Sound(t) && t.on && i <= |scripts| == MAX_TIMERS
    ensures Sound(VisitUpTo(t, scripts, i).t) && VisitUpTo(t, scripts, i).t.on
  {
    if i > 0 {
      VisitUpToSound(t, scripts, i - 1);
      VisitSound(VisitUpTo(t, scripts, i - 1).t, i - 1, scripts[i - 1]);
    }
  }

  /** After its callback a timer is active exactly if the callback returned OK, the slot is now
      periodic, and the callback left it active. So a one-shot that restarts itself is stopped again. */
  lemma ActiveAfterFiring(t: Table, i: nat, script: Script)
    requires Sound(t) && i < MAX_TIMERS && t.on && Due(t.ts[i])
    ensures var u := ApplyAll(t.(ts := t.ts[i := CountDown(t.ts[i])]), script.ops);
      var e := Visit(t, i, script);
      |u.ts| == |e.ts| == MAX_TIMERS
      && (e.ts[i].active <==> script.ok && u.ts[i].mode.Periodic? && u.ts[i].active)
      && (e.ts[i].active ==> e.ts[i].remaining == u.ts[i].period)
      && forall k :: 0 <= k < MAX_TIMERS && k != i ==> e.ts[k] == u.ts[k]
  {
    var d := t.(ts := t.ts[i := CountDown(t.ts[i])]);
    assert SoundExcept(d, i);
    ApplyAllSound(d, script.ops, i);
  }

  // ---------- what each call does, slot by slot ----------

  /** Nothing but slot h differs. */
  predicate OnlySlot(t: Table, u: Table, h: int) {
    u.on == t.on && |u.ts| == |t.ts| && forall k: nat :: k < |t.ts| && k != h ==> u.ts[k] == t.ts[k]
  }

  /** Creating takes the first free slot, stopped and with the period in whole ticks, at least one; it fails
      exactly without a callback, a period, an initialized table or a free slot. */
  lemma CreateExact(t: Table, cb: nat, arg: nat, mode: Mode, ms: nat)
    ensures var (r, u) := Create(t, cb, arg, mode, ms);
      && (r.Handle? <==> t.on && cb != 0 && ms != 0 && exists k: nat :: k < |t.ts| && t.ts[k].cb == 0)
      && (r.Failed? ==> u == t && (r.status == NoMem <==> t.on && cb != 0 && ms != 0) && (r.status == NoMem || r.status == InvalidArg))
      && (r.Handle? ==>
            && r.h < |t.ts| && t.ts[r.h].cb == 0 && (forall k: nat :: k < r.h ==> t.ts[k].cb != 0) && OnlySlot(t, u, r.h)
            && var timer := u.ts[r.h];
               && timer.cb == cb && timer.arg == arg && timer.mode == mode && !timer.active && timer.period >= 1
               && (timer.period * TICK_MS <= ms < (timer.period + 1) * TICK_MS || (ms < TICK_MS && timer.period == 1)))
  {
    var k := FreeSlot(t.ts, 0);
    assert k == |t.ts| ==> forall j: nat :: j < |t.ts| ==> t.ts[j].cb != 0;
  }

  /** Initializing frees every slot. */
  lemma InitExact(t: Table)
    ensures Init(t).on && |Init(t).ts| == MAX_TIMERS && forall k: nat :: k < MAX_TIMERS ==> Init(t).ts[k] == FREE
    ensures !Cold().on && Cold().ts == Init(t).ts
  {
  }

  /** Starting a timer reloads and activates it. */
  lemma StartExact(t: Table, h: int)
    ensures var (status, u) := Start(t, h);
      && (status == Ok <==> t.on && 0 <= h < |t.ts| && t.ts[h].cb != 0)
      && (status != Ok ==> status == InvalidArg && u == t)
      && (status == Ok ==>
            && OnlySlot(t, u, h) && SameTimer(t.ts[h], u.ts[h])
            && u.ts[h].active && u.ts[h].remaining == u.ts[h].period == t.ts[h].period)
  {
  }

  /** Callback, argument and mode. */
  predicate SameTimer(a: Timer, b: Timer) {
    b.cb == a.cb && b.arg == a.arg && b.mode == a.mode
  }

  /** Stopping it makes it inactive and changes nothing else. */
  lemma StopExact(t: Table, h: int)
    ensures var (status, u) := Stop(t, h);
      && (status == Ok <==> t.on && 0 <= h < |t.ts|)
      && (status != Ok ==> status == InvalidArg && u == t)
      && (status == Ok ==> OnlySlot(t, u, h) && !u.ts[h].active && u.ts[h].(active := t.ts[h].active) == t.ts[h])
  {
  }

  /** Destroying it frees its slot. */
  lemma DestroyExact(t: Table, h: int)
    requires t.on && 0 <= h < |t.ts| && TimerSound(t.ts[h])
    ensures var (status, u) := Destroy(t, h);
      status == Ok && OnlySlot(t, u, h) && u.ts[h] == FREE
  {
  }

  /** A new period takes effect at once only for what remains beyond it. */
  lemma ChangeExact(t: Table, h: int, ms: nat)
    ensures var (status, u) := ChangePeriod(t, h, ms);
      && (status == Ok <==> t.on && 0 <= h < |t.ts| && t.ts[h].cb != 0 && ms != 0)
      && (status != Ok ==> status == InvalidArg && u == t)
      && (status == Ok ==>
            && OnlySlot(t, u, h) && SameTimer(t.ts[h], u.ts[h]) && u.ts[h].active == t.ts[h].active
            && var period, remaining := u.ts[h].period, u.ts[h].remaining;
               && period >= 1 && (period * TICK_MS <= ms < (period + 1) * TICK_MS || (ms < TICK_MS && period == 1))
               && remaining == if t.ts[h].active && t.ts[h].remaining > period then period else t.ts[h].remaining)
  {
  }

  // ---------- a stopped timer stays silent ----------

  predicate Silent(t: Table, h: nat) {
    |t.ts| == MAX_TIMERS && h < MAX_TIMERS && !t.ts[h].active
  }

  /** Only a start of h can make it active again. */
  lemma ApplySilent(t: Table, op: Op, h: nat)
    requires Silent(t, h) && op != StartOp(h)
    ensures Silent(Apply(t, op), h)
  {
  }

  predicate NeverStarts(ops: seq<Op>, h: nat) {
    forall i :: 0 <= i < |ops| ==> ops[i] != StartOp(h)
  }

  lemma {:induction false} ApplyAllSilent(t: Table, ops: seq<Op>, h: nat)
    requires Silent(t, h) && NeverStarts(ops, h)
    ensures Silent(ApplyAll(t, ops), h)
  {
    if |ops| > 0 {
      ApplyAllSilent(t, ops[..|ops| - 1], h);
      ApplySilent(ApplyAll(t, ops[..|ops| - 1]), ops[|ops| - 1], h);
    }
  }

  lemma VisitSilent(t: Table, i: nat, script: Script, h: nat)
    requires Silent(t, h) && i < MAX_TIMERS && NeverStarts(script.ops, h)
    ensures Silent(Visit(t, i, script), h) && (i == h ==> !Due(t.ts[i]))
  {
    var d := t.(ts := t.ts[i := CountDown(t.ts[i])]);
    ApplyAllSilent(d, script.ops, h);
    hide ApplyAll, NeverStarts;
  }
}
