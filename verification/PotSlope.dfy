/** The dry-fire detector over whole runs: the ring is the window of the codes that the run has read,
    and the verdict is a comparison on that history. */
module PotSlope {
  import opened Pot
  import opened PotSafety
  import opened PotRuns
  import Ntc

  // ---------- the slope window ----------

  /** How many writes ago slot k was written, when idx was written last. */
  function Age(idx: nat, k: nat): nat
    requires idx < 16 && k < 16
  {
    if k <= idx then idx - k else idx + 16 - k
  }

  /** The entry `age` before the last one, or the baseline if there are not that many. */
  function Back(h: seq<nat>, age: nat): nat
    requires |h| > 0
  {
    if |h| - 1 >= age then h[|h| - 1 - age] else h[0]
  }

  /** The ring holds the last sixteen codes of the history h, whose first entry is the refill baseline. */
  ghost predicate Window(s: Slope, h: seq<nat>) {
    && s.Shaped() && |h| > 0
    && s.prev == h[|h| - 1]
    && s.valid == (if |h| - 1 < 255 then |h| - 1 else 255)
    && forall k :: 0 <= k < 16 ==> s.ring[k] == Back(h, Age(s.idx, k))
  }

  lemma RefillWindow(adc: nat)
    ensures Window(Refill(adc), [adc])
  {
  }

  lemma ShiftWindow(s: Slope, adc: nat, h: seq<nat>)
    requires Window(s, h)
    ensures Window(Shift(s, adc), h + [adc])
  {
    var r, g := Shift(s, adc), h + [adc];
    assert r.idx == if s.idx == 15 then 0 else s.idx + 1;
    forall k | 0 <= k < 16 ensures r.ring[k] == Back(g, Age(r.idx, k)) {
      if k != r.idx {
        assert Age(r.idx, k) == Age(s.idx, k) + 1;
        assert r.ring[k] == Back(h, Age(s.idx, k));
      }
    }
  }

  /** The slot about to be overwritten is the code of sixteen clean seconds ago. */
  lemma OldestIsSixteenBack(s: Slope, adc: nat, h: seq<nat>)
    requires Window(s, h)
    ensures s.ring[Shift(s, adc).idx] == Back(h + [adc], SLOPE_WINDOW_SEC)
  {
    var k := Shift(s, adc).idx;
    assert k == if s.idx == 15 then 0 else s.idx + 1;
    assert s.ring[k] == Back(h, 15);
  }

  // ---------- the codes of a run ----------

  /** FUNC starts a new heating phase: the next mode of HEAT, or boiling again after the last setpoint. */
  predicate FuncRestarts(p: Pot) {
    p.state.Heat? || (p.state.Warm? && p.warmSet !in {55, 60, 80} && p.cooldown == 0)
  }

  /** ON starts one from standby, with a sound probe and no lock. */
  predicate OnStarts(p: Pot) {
    p.state.Off? && p.cooldown == 0 && Healthy(p.adc)
  }

  predicate KeyRestarts(p: Pot, i: Input) {
    (i.func && FuncRestarts(p)) || (i.onoff && OnStarts(if i.func then PressFunc(p) else p))
  }

  predicate Jumps(h: seq<nat>, adc: nat)
    requires |h| > 0
  {
    adc > h[|h| - 1] + COLDWATER_JUMP
  }

  /** The history when a one-second task reads p: a clean closed second adds its code, a cold-water
      jump that is not yet a fault starts over from the new code. */
  function Sampled(h: seq<nat>, p: Pot): (r: seq<nat>)
    requires |h| > 0
    ensures |r| > 0
  {
    if !p.state.Heat? || !p.heater then h
    else if !Jumps(h, p.adc) then h + [p.adc]
    else if p.glitch + 1 >= GLITCH_TRIP_COUNT then h
    else [p.adc]
  }

  /** The history after the keys of a pass. */
  function Keyed(h: seq<nat>, p: Pot, i: Input): (r: seq<nat>)
    requires |h| > 0
    ensures |r| > 0
  {
    if KeyRestarts(p, i) then [p.adc] else h
  }

  /** The codes the dry-fire detector has seen since heating last (re)started: the code of that moment,
      then one for every clean second with the contact closed. */
  function History(adc: nat, ins: seq<Input>): (h: seq<nat>)
    ensures |h| > 0
  {
    if |ins| == 0 then [adc]
    else
      var q, i := Run(Boot(adc), ins[..|ins| - 1]), ins[|ins| - 1];
      var h := Keyed(History(adc, ins[..|ins| - 1]), q, i);
      if Due(q) then Sampled(h, Front(q, i)) else h
  }

  lemma FuncWindow(p: Pot)
    requires p.slope.Shaped()
    ensures PressFunc(p).adc == p.adc
    ensures PressFunc(p).slope == if FuncRestarts(p) then Refill(p.adc) else p.slope
  {
    hide Refill;
  }

  lemma OnWindow(p: Pot)
    requires p.slope.Shaped()
    ensures PressOnOff(p).slope == if OnStarts(p) then Refill(p.adc) else p.slope
  {
    hide Refill;
  }

  lemma KeysWindow(p: Pot, i: Input)
    requires p.slope.Shaped()
    ensures HandleButtons(p, i.func, i.onoff).slope == if KeyRestarts(p, i) then Refill(p.adc) else p.slope
  {
    FuncWindow(p);
    OnWindow(if i.func then PressFunc(p) else p);
    hide PressFunc, PressOnOff, Refill, FuncRestarts, OnStarts;
  }

  lemma SenseWindow(p: Pot, adc: nat)
    ensures Sense(p, adc).slope == p.slope
  {
    hide Ntc.Celsius;
  }

  lemma BranchWindow(p: Pot)
    ensures Branch(p).slope == p.slope
  {
  }

  lemma FrontWindow(p: Pot, i: Input, h: seq<nat>)
    requires p.slope.Shaped() && Window(p.slope, h)
    ensures Window(Front(p, i).slope, Keyed(h, p, i))
  {
    KeysWindow(p, i);
    RefillWindow(p.adc);
    var b := HandleButtons(p, i.func, i.onoff).(div100 := 0);
    SenseWindow(b, i.adc);
    BranchWindow(Sense(b, i.adc));
    hide HandleButtons, Sense, Branch, Refill, KeyRestarts, Window;
  }

  /** Before the slope task nothing in the one-second task concerns a closed contact in HEAT. */
  lemma WatchIdle(p: Pot)
    requires Valid(p)
    ensures var w := OvertempWatch(Cool(RelayClock(p)));
      && w.slope == p.slope && w.adc == p.adc && w.glitch == p.glitch && w.temp == p.temp && w.mode == p.mode
      && w.heatSeconds == p.heatSeconds
      && (w.state.Heat? && w.heater <==> p.state.Heat? && p.heater)
      && (ThermallyFaulted(w) && w.fault == 3 ==> ThermallyFaulted(p))
  {
    hide Ntc.Celsius;
  }

  lemma SlopeWindow(p: Pot, h: seq<nat>)
    requires Valid(p) && Window(p.slope, h)
    ensures Window(SlopeTask(p).slope, Sampled(h, p))
  {
    ShiftWindow(p.slope, p.adc, h);
    RefillWindow(p.adc);
    assert ColdWater(p) <==> Jumps(h, p.adc);
    RingAfter(p);
    hide SlopeTask, Valid, ColdWater, Jumps, Refill, Shift, Window;
  }

  lemma RingAfter(p: Pot)
    requires Valid(p)
    ensures SlopeTask(p).slope ==
      if !p.state.Heat? || !p.heater || (ColdWater(p) && p.glitch + 1 >= GLITCH_TRIP_COUNT) then p.slope
      else if ColdWater(p) then Refill(p.adc)
      else Shift(p.slope, p.adc)
  {
    assert U8(p.glitch + 1) == p.glitch + 1;
    hide Ntc.Celsius, Refill, Shift, ColdWater;
  }

  lemma SecondWindow(p: Pot, h: seq<nat>)
    requires Valid(p) && Window(p.slope, h)
    ensures Window(Second(p).slope, Sampled(h, p))
  {
    hide Window, SlopeTask, OvertempWatch, Cool, RelayClock, Valid;
    ClockValid(p);
    OvertempValid(Cool(RelayClock(p)));
    WatchIdle(p);
    SlopeWindow(OvertempWatch(Cool(RelayClock(p))), h);
  }

  lemma TickWindow(p: Pot, i: Input, h: seq<nat>)
    requires p.slope.Shaped() && Valid(p) && Window(p.slope, h)
    ensures var k := Keyed(h, p, i);
      Window(Tick(p, i).slope, if Due(p) then Sampled(k, Front(p, i)) else k)
  {
    assert |h| > 0;
    hide Window, Front, Second, Keyed, Valid;
    FrontValid(p, i);
    FrontClock(p, i);
    FrontWindow(p, i, h);
    var f := Front(p, i).(div1000 := 0);
    if Due(p) {
      assert Valid(f) by { ResetClockValid(Front(p, i)); }
      SecondWindow(f, Keyed(h, p, i));
    }
  }

  /** On every run the ring, its baseline and its counter are the window of the codes the run has read. */
  lemma {:induction false} AlwaysWindow(adc: nat, ins: seq<Input>)
    ensures Window(Run(Boot(adc), ins).slope, History(adc, ins))
  {
    hide Tick, Window, Front;
    if |ins| == 0 {
      BootWindow(adc);
    } else {
      var init := ins[..|ins| - 1];
      AlwaysWindow(adc, init);
      AlwaysValid(adc, init);
      TickWindow(Run(Boot(adc), init), ins[|ins| - 1], History(adc, init));
    }
  }

  lemma BootWindow(adc: nat)
    ensures Window(Boot(adc).slope, [adc])
  {
    hide Ntc.Celsius, Refill;
    RefillWindow(adc);
  }

  // ---------- the verdict ----------

  /** At least sixteen clean seconds since heating last started, and over the last sixteen the code
      has come down by less than six. */
  predicate Flat(h: seq<nat>)
    requires |h| > 0
  {
    |h| > SLOPE_WINDOW_SEC && h[|h| - 1] + SLOPE_MIN_DELTA > h[|h| - 1 - SLOPE_WINDOW_SEC]
  }

  /** When a clean closed second is the last one: `h` includes its code, `seconds` is heat_seconds with it. */
  predicate CutsOff(h: seq<nat>, seconds: nat, temp: nat, mode: Mode)
    requires |h| > 0
  {
    || (seconds >= SLOPE_ARM_HEAT_SEC && temp < DRYFIRE_TEMP_C && Flat(h))
    || (seconds > DRYFIRE_SECONDS && temp < DRYFIRE_TEMP_C)
    || (mode.Boil100? && seconds > BOIL_TIMEOUT_SECONDS && temp < BOIL_TEMP_C)
  }

  predicate ShowsDryFire(p: Pot) {
    p.state.Fault? && p.fault == 3
  }

  lemma FlatIsNotFalling(s: Slope, adc: nat, h: seq<nat>)
    requires Window(s, h)
    ensures var t := Shift(s, adc);
      t.valid >= SLOPE_WINDOW_SEC && !Falling(s.ring[t.idx], adc) <==> Flat(h + [adc])
  {
    OldestIsSixteenBack(s, adc, h);
  }

  lemma VerdictExact(p: Pot, h: seq<nat>)
    requires Valid(p) && Window(p.slope, h) && p.state.Heat? && p.heater && !Jumps(h, p.adc)
    ensures var q := SlopeTask(p);
      var cuts := CutsOff(h + [p.adc], U16(p.heatSeconds + 1), p.temp, p.mode);
      (ShowsDryFire(q) <==> cuts) && (cuts ==> !q.heater && q.cooldown == COOLDOWN_SECONDS) && (!cuts ==> q == CleanSecond(p))
  {
    FlatIsNotFalling(p.slope, p.adc, h);
    assert !ColdWater(p);
    hide Ntc.Celsius, Window, Shift, Flat, Falling;
  }

  lemma OnlyCleanSecondsCut(p: Pot, h: seq<nat>)
    requires Valid(p) && Window(p.slope, h) && !ThermallyFaulted(p)
    requires !p.state.Heat? || !p.heater || Jumps(h, p.adc)
    ensures !ShowsDryFire(SlopeTask(p))
  {
    hide Ntc.Celsius, Refill;
  }

  /** This pass's one-second task finds a clean second with the contact closed, after which the
      history and the second count call for the cut. */
  predicate DryFireDue(adc: nat, ins: seq<Input>, i: Input) {
    var q := Run(Boot(adc), ins);
    var f := Front(q, i);
    var h := Keyed(History(adc, ins), q, i);
    && Due(q) && f.state.Heat? && f.heater && !Jumps(h, f.adc)
    && CutsOff(h + [f.adc], U16(f.heatSeconds + 1), f.temp, f.mode)
  }

  lemma SecondVerdict(p: Pot, h: seq<nat>)
    requires Valid(p) && Window(p.slope, h) && !ThermallyFaulted(p)
    ensures ShowsDryFire(Second(p)) <==>
      p.state.Heat? && p.heater && !Jumps(h, p.adc) && CutsOff(h + [p.adc], U16(p.heatSeconds + 1), p.temp, p.mode)
  {
    var w := OvertempWatch(Cool(RelayClock(p)));
    ClockValid(p);
    OvertempValid(Cool(RelayClock(p)));
    WatchIdle(p);
    hide Window, SlopeTask, OvertempWatch, Cool, RelayClock, Valid, CutsOff, Jumps;
    if w.state.Heat? && w.heater && !Jumps(h, w.adc) {
      VerdictExact(w, h);
    } else if ThermallyFaulted(w) {
      SlopeIdle(w);
    } else {
      OnlyCleanSecondsCut(w, h);
    }
  }

  /** E-03 appears in a pass exactly when that pass's one-second task finds a clean second with the
      contact closed and either the last sixteen codes of the run are flat, at least twenty seconds
      into the heating and below 45 C, or one of the two time limits is exceeded. */
  lemma DryFireIff(adc: nat, ins: seq<Input>, i: Input)
    requires !ThermallyFaulted(Run(Boot(adc), ins))
    ensures ShowsDryFire(Tick(Run(Boot(adc), ins), i)) <==> DryFireDue(adc, ins, i)
  {
    hide Window, Front, Second, Keyed, Valid, Boot, Run, CutsOff, Jumps;
    var p := Run(Boot(adc), ins);
    var h := Keyed(History(adc, ins), p, i);
    AlwaysValid(adc, ins);
    AlwaysWindow(adc, ins);
    FrontValid(p, i);
    FrontClock(p, i);
    FrontThermal(p, i);
    FrontWindow(p, i, History(adc, ins));
    if Due(p) {
      var f := Front(p, i).(div1000 := 0);
      assert Valid(f) by { ResetClockValid(Front(p, i)); }
      SecondVerdict(f, h);
    }
  }

  /** A cold-water jump while heating is forgiven twice in a row, with the window started over from the new code;
      the third one is E-01. Neither counts as a second of heating. */
  lemma JumpExact(p: Pot, h: seq<nat>)
    requires Valid(p) && Window(p.slope, h) && p.state.Heat? && p.heater && Jumps(h, p.adc)
    ensures var q := SlopeTask(p);
      && q.heatSeconds == p.heatSeconds && q.cooldown == p.cooldown
      && if p.glitch < GLITCH_TRIP_COUNT - 1 then
           q.state.Heat? && q.heater && q.glitch == p.glitch + 1 && q.slope == Refill(p.adc)
         else q.state.Fault? && q.fault == 1 && !q.heater
  {
    assert ColdWater(p);
    assert U8(p.glitch + 1) == p.glitch + 1;
    hide Ntc.Celsius, Refill, ColdWater, Jumps, Window;
  }
}
