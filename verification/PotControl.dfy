/** What the control task, the over-temperature watchdog and the keys must do, and the sequences they
    carry out over whole runs: keeping warm, confirming the boil, recovering from a sensor fault, and
    tripping on a beyond-scale probe. */
module PotControl {
  import opened Pot
  import opened PotSafety
  import opened PotRuns
  import opened PotRelay
  import Ntc

  // ---------- keeping warm ----------

  /** A control task that keeps warm leaves the contact closed exactly up to 2 C above the setpoint, if it
      was closed or the water is more than 2 C below the setpoint and the dwell is over. */
  lemma WarmExact(p: Pot, a: nat)
    requires Valid(p) && p.state.Warm? && OVERTEMP_RAW < a < NTC_OPEN_RAW
    ensures var q, t := Control(p, a), Ntc.Celsius(a);
      && q.state.Warm? && q.warmSet == p.warmSet
      && (q.heater <==>
            t <= p.warmSet + WARM_HYST_C && (p.heater || (t + WARM_HYST_C < p.warmSet && p.relayOff >= RELAY_DWELL_SECONDS)))
  {
    hide Ntc.Celsius;
  }

  /** A pass without keys whose code is sound and reads more than 2 C below that setpoint. */
  predicate Cold(i: Input, warmSet: nat) {
    !i.func && !i.onoff && OVERTEMP_RAW < i.adc < NTC_OPEN_RAW && Ntc.Celsius(i.adc) + WARM_HYST_C < warmSet
  }

  predicate Warming(p: Pot, warmSet: nat) {
    Valid(p) && InStep(p) && p.state.Warm? && p.warmSet == warmSet
  }

  lemma WarmFront(p: Pot, i: Input)
    requires p.slope.Shaped() && Valid(p) && p.state.Warm? && Cold(i, p.warmSet)
    ensures var f := Front(p, i);
      && f.state.Warm? && f.warmSet == p.warmSet && (p.div100 == 9 ==> f.adc == i.adc)
      && (f.heater <==> p.heater || (p.div100 == 9 && p.relayOff >= RELAY_DWELL_SECONDS))
  {
    InStepRange(p);
    assert i == Same(i.adc);
    NoKeys(p, i.adc);
    assert Valid(p.(div100 := 0)) by { ResetTicksValid(p); }
    WarmExact(p.(div100 := 0), i.adc);
    FrontTicks(p, i);
    hide Valid, Control, Front, Ntc.Celsius;
  }

  lemma ResetTicksValid(p: Pot)
    requires Valid(p)
    ensures Valid(p.(div100 := 0))
  {
  }

  lemma WarmSecond(f: Pot)
    requires f.slope.Shaped() && f.state.Warm? && f.adc > OVERTEMP_RAW
    ensures var q := Second(f); q.state.Warm? && q.warmSet == f.warmSet && q.heater == f.heater
  {
  }

  lemma WarmPass(p: Pot, i: Input)
    requires p.slope.Shaped() && Valid(p) && InStep(p) && p.state.Warm? && Cold(i, p.warmSet)
    ensures var q := Tick(p, i);
      && q.state.Warm? && q.warmSet == p.warmSet
      && (q.heater <==> p.heater || (p.div100 == 9 && p.relayOff >= RELAY_DWELL_SECONDS))
  {
    assert Due(p) ==> p.div100 == 9;
    FrontClock(p, i);
    WarmFront(p, i);
    hide Valid, InStep, Front, Second;
    if Due(p) {
      WarmSecond(Front(p, i).(div1000 := 0));
    }
  }

  lemma TickTicks(p: Pot, i: Input)
    requires p.slope.Shaped()
    ensures Tick(p, i).div100 == if p.div100 + 1 >= 10 then 0 else p.div100 + 1
  {
    hide Front, Second;
    FrontTicks(p, i);
    SecondRest(Front(p, i).(div1000 := 0));
  }

  lemma WarmTick(p: Pot, i: Input)
    requires p.slope.Shaped() && Warming(p, p.warmSet) && Cold(i, p.warmSet)
    ensures var q := Tick(p, i);
      && Warming(q, p.warmSet) && q.div100 == (if p.div100 + 1 >= 10 then 0 else p.div100 + 1)
      && (q.heater <==> p.heater || (p.div100 == 9 && p.relayOff >= RELAY_DWELL_SECONDS))
      && (!q.heater ==> q.relayOff == if Due(p) && p.relayOff < 255 then p.relayOff + 1 else p.relayOff)
  {
    InStepRange(p);
    TickValid(p, i);
    TickInStep(p, i);
    WarmPass(p, i);
    hide Valid, InStep, Tick, Cold;
    TickTicks(p, i);
    OpenClock(p, i);
  }

  lemma OpenClock(p: Pot, i: Input)
    requires p.slope.Shaped() && Valid(p) && InStep(p) && p.state.Warm? && Cold(i, p.warmSet)
    ensures var q := Tick(p, i);
      !q.heater ==> q.relayOff == if Due(p) && p.relayOff < 255 then p.relayOff + 1 else p.relayOff
  {
    TickRelay(p, i);
    WarmPass(p, i);
    WarmFront(p, i);
    ClosedSecondCloses(p, i);
    hide Valid, InStep, Tick, Front, ClosedSecond, Cold;
  }

  /** With the dwell over, the next control task closes the contact, and it stays closed. */
  lemma {:induction false} WarmSoon(p: Pot, ins: seq<Input>)
    requires p.slope.Shaped() && Warming(p, p.warmSet) && forall k :: 0 <= k < |ins| ==> Cold(ins[k], p.warmSet)
    requires p.div100 < 10 && (p.heater || p.relayOff >= RELAY_DWELL_SECONDS)
    ensures var q := Run(p, ins);
      && Warming(q, p.warmSet) && (q.heater || (q.relayOff >= RELAY_DWELL_SECONDS && q.div100 == (p.div100 + |ins|) % 10))
      && (p.heater || |ins| >= 10 - p.div100 ==> q.heater)
  {
    hide Tick, Warming, Cold, Due;
    if |ins| > 0 {
      var init := ins[..|ins| - 1];
      WarmSoon(p, init);
      assert Run(p, init).warmSet == p.warmSet by { WarmingSet(Run(p, init), p.warmSet); }
      WarmTick(Run(p, init), ins[|ins| - 1]);
    }
  }

  lemma WarmingSet(p: Pot, warmSet: nat)
    requires Warming(p, warmSet)
    ensures p.warmSet == warmSet && p.div100 < 10 && p.div1000 < 100
  {
  }

  /** The dwell counts on while the contact is open. */
  lemma {:induction false} WarmWaits(p: Pot, ins: seq<Input>)
    requires p.slope.Shaped() && Warming(p, p.warmSet) && forall k :: 0 <= k < |ins| ==> Cold(ins[k], p.warmSet)
    ensures var q := Run(p, ins);
      Warming(q, p.warmSet) && (q.heater || q.relayOff >= RELAY_DWELL_SECONDS || q.relayOff >= Seconds(p, ins))
  {
    hide Tick, Warming, Cold, Due;
    if |ins| > 0 {
      var init := ins[..|ins| - 1];
      WarmWaits(p, init);
      assert Run(p, init).warmSet == p.warmSet by { WarmingSet(Run(p, init), p.warmSet); }
      WarmTick(Run(p, init), ins[|ins| - 1]);
    }
  }

  /** Keep-warm heats: whatever the dwell has still to run, with sound readings more than 2 C below the
      setpoint and no keys the contact is closed after 310 passes (3.1 s), and stays closed. */
  lemma WarmCloses(p: Pot, ins: seq<Input>)
    requires p.slope.Shaped() && Warming(p, p.warmSet) && |ins| >= 310
    requires forall k :: 0 <= k < |ins| ==> Cold(ins[k], p.warmSet)
    ensures Run(p, ins).heater && Run(p, ins).state.Warm?
  {
    var early, late := ins[..300], ins[300..];
    WarmingSet(p, p.warmSet);
    hide Run, Cold, Warming;
    WarmWaits(p, early);
    SecondsAreHundredths(p, early);
    var q := Run(p, early);
    WarmingSet(q, p.warmSet);
    WarmSoon(q, late);
    WarmingIs(Run(q, late), p.warmSet);
    RunConcat(p, early, late);
    assert early + late == ins;
  }

  lemma WarmingIs(p: Pot, warmSet: nat)
    requires Warming(p, warmSet)
    ensures p.state.Warm?
  {
  }

  // ---------- every other control task ----------

  /** On an open or shorted probe the contact opens and the pot shows E-01 or E-02: silently in muted
      standby, else as a fault, unless a thermal fault is showing. */
  lemma UnsoundExact(p: Pot, a: nat)
    requires Valid(p) && !Healthy(a)
    ensures var q, code := Control(p, a), if a >= NTC_OPEN_RAW then 1 else 2;
      && !q.heater && q.recover == 0 && q.cooldown == p.cooldown
      && if p.state.Off? && p.muted then q.state.Off? && q.muted && q.fault == code
         else q.state.Fault? && q.fault == (if ThermallyFaulted(p) then p.fault else code)
  {
    hide Ntc.Celsius;
  }

  /** A sensor fault clears at the third sound reading in a row; a thermal one does not. */
  lemma FaultExact(p: Pot, a: nat)
    requires Valid(p) && p.state.Fault? && Healthy(a)
    ensures var q := Control(p, a);
      && !q.heater && q.cooldown == p.cooldown
      && if ThermallyFaulted(p) then ThermallyFaulted(q) && q.fault == p.fault
         else if p.recover >= FAULT_RECOVER_TICKS - 1 then q.state.Off? && q.fault == 0 && !q.muted && q.recover == 0
         else q.state.Fault? && q.fault == p.fault && q.recover == p.recover + 1
  {
    var r := Sense(p, a);
    assert r.state.Fault? && r.fault == p.fault && r.cooldown == p.cooldown && r.recover == if ThermallyFaulted(p) then 0 else if p.recover < 255 then p.recover + 1 else 255 by {
      hide Ntc.Celsius, Branch;
    }
    hide Sense, Valid;
  }

  /** Standby stays standby; a muted fault clears in the same way. */
  lemma OffExact(p: Pot, a: nat)
    requires Valid(p) && p.state.Off? && Healthy(a)
    ensures var q := Control(p, a);
      && q.state.Off? && !q.heater && q.cooldown == p.cooldown && q.mode == p.mode
      && if p.muted && p.recover < FAULT_RECOVER_TICKS - 1 then q.muted && q.fault == p.fault && q.recover == p.recover + 1
         else !q.muted && q.fault == 0 && q.recover == 0
  {
    hide Ntc.Celsius;
  }

  /** The boil is being confirmed: from the first reading of 98 C on, except beyond the scale. */
  predicate Boiling(p: Pot, a: nat) {
    p.mode.Boil100? && (p.boilConfirm || Ntc.Celsius(a) >= BOIL_TEMP_C) && a > OVERTEMP_RAW
  }

  /** Heating ends with this control task: the thirtieth one of the confirmation, or at the DIRECT target. */
  predicate Reached(p: Pot, a: nat) {
    if p.mode.Boil100? then Boiling(p, a) && p.boilHold + 1 >= BOIL_HOLD_TICKS else Ntc.Celsius(a) >= Target(p.mode)
  }

  /** Heating goes over to keep-warm exactly when it has reached its end, and the contact is closed exactly
      while it has not, the boil is not being confirmed, the code is on the scale, and the dwell allows it. */
  lemma HeatExact(p: Pot, a: nat)
    requires Valid(p) && p.state.Heat? && Healthy(a)
    ensures var q := Control(p, a);
      && q.mode == p.mode && q.cooldown == p.cooldown
      && q.state == (if Reached(p, a) then Warm else Heat)
      && q.overtemp == (if Reached(p, a) then 0 else p.overtemp)
      && (q.heater <==> !Reached(p, a) && !Boiling(p, a) && a > OVERTEMP_RAW && (p.heater || p.relayOff >= RELAY_DWELL_SECONDS))
      && (q.state.Heat? ==>
            && q.boilHold == (if Boiling(p, a) then p.boilHold + 1 else p.boilHold)
            && (q.boilConfirm <==> p.boilConfirm || Boiling(p, a)))
      && (q.state.Warm? ==> q.warmSet == if p.mode.Boil100? then p.warmSet else Target(p.mode))
  {
    hide Ntc.Celsius;
  }

  // ---------- the keys ----------

  /** The FUNC key: standby cycles through the three modes; heating does too, going over to keep-warm where
      the new target is already reached; keep-warm steps through its setpoints and then boils again. */
  lemma FuncExact(p: Pot)
    requires Valid(p)
    ensures var q := HandleButtons(p, true, false);
      match p.state
      case Off => q == p.(mode := q.mode) && Follows(p.mode, q.mode)
      case Heat =>
        && Follows(p.mode, q.mode) && q.heatSeconds == 0 && q.glitch == 0
        && (q.state == if !q.mode.Boil100? && p.temp >= Target(q.mode) then Warm else Heat)
        && (q.heater <==> q.state.Heat? && p.heater)
        && (!q.mode.Boil100? ==> q.warmSet == Target(q.mode))
      case Warm =>
        if p.warmSet < 90 then
          q == p.(warmSet := q.warmSet) && q.warmSet == if p.warmSet == 55 then 60 else if p.warmSet == 60 then 80 else 90
        else q.state.Heat? && q.mode.Boil100? && q.heatSeconds == 0 && q.glitch == 0 && q.heater == p.heater && q.warmSet == WARM_DEFAULT_C
      case Fault => q == p
  {
    hide Ntc.Celsius, Refill;
  }

  /** 100 C, 55 C, 80 C, and again. */
  predicate Follows(m: Mode, n: Mode) {
    (m.Boil100? && n.Direct55?) || (m.Direct55? && n.Direct80?) || (m.Direct80? && n.Boil100?)
  }

  /** The ON/OFF key: starts heating in the chosen mode on a sound probe without a lock, shows the sensor
      fault on an unsound one, stops what is running, and acknowledges a fault, which mutes a sensor fault. */
  lemma OnOffExact(p: Pot)
    requires Valid(p)
    ensures var q := HandleButtons(p, false, true);
      && !q.heater && q.cooldown == p.cooldown
      && match p.state
         case Off =>
           if p.cooldown > 0 then q == p
           else if !Healthy(p.adc) then q.state.Fault? && q.fault == if p.adc >= NTC_OPEN_RAW then 1 else 2
           else StartedIn(q, p.mode)
         case Heat => q.state.Off? && q.fault == 0 && !q.muted && q.mode.Boil100?
         case Warm => q.state.Off? && q.fault == 0 && !q.muted && q.mode.Boil100?
         case Fault => q.state.Off? && q.mode.Boil100? && q.muted == !ThermallyFaulted(p) && (q.muted ==> q.fault == p.fault) && (!q.muted ==> q.fault == 0)
  {
    hide Ntc.Celsius, Refill;
  }

  predicate StartedIn(q: Pot, m: Mode) {
    && q.state.Heat? && q.mode == m && q.fault == 0 && !q.muted && q.heatSeconds == 0
    && q.warmSet == (if m.Boil100? then WARM_DEFAULT_C else Target(m))
  }

  /** Both keys in one pass: FUNC first. */
  lemma BothKeys(p: Pot)
    ensures HandleButtons(p, true, true) == HandleButtons(HandleButtons(p, true, false), false, true)
    ensures HandleButtons(p, false, false) == p
  {
    hide PressFunc, PressOnOff;
  }

  // ---------- confirming the boil ----------

  /** A pass without keys that reads a sound code on the scale. */
  predicate Plain(i: Input) {
    !i.func && !i.onoff && OVERTEMP_RAW < i.adc < NTC_OPEN_RAW
  }

  /** n control tasks into the confirmation. */
  predicate Confirming(p: Pot, n: nat) {
    && Valid(p) && InStep(p) && p.mode.Boil100? && p.boilHold <= BOIL_HOLD_TICKS
    && (n > 0 ==> !p.heater)
    && if n < BOIL_HOLD_TICKS then p.state.Heat? && p.boilHold == n && p.boilConfirm == (n > 0) else p.state.Warm?
  }

  lemma OpenSecond(f: Pot)
    requires f.slope.Shaped() && Valid(f) && !f.heater && f.adc > OVERTEMP_RAW
    ensures var q := Second(f);
      && q.state == f.state && !q.heater && q.mode == f.mode && q.boilHold == f.boilHold && q.boilConfirm == f.boilConfirm
      && q.fault == f.fault && q.recover == f.recover
  {
    hide Ntc.Celsius, Refill, Shift;
  }

  lemma ConfirmFront(p: Pot, i: Input, n: nat)
    requires p.slope.Shaped() && Confirming(p, n) && n < BOIL_HOLD_TICKS && Plain(i)
    requires n == 0 && p.div100 == 9 ==> Ntc.Celsius(i.adc) >= BOIL_TEMP_C
    ensures var f, m := Front(p, i), if p.div100 == 9 then n + 1 else n;
      && f.mode.Boil100? && (m > 0 ==> !f.heater) && (p.div100 == 9 ==> f.adc == i.adc)
      && if m < BOIL_HOLD_TICKS then f.state.Heat? && f.boilHold == m && f.boilConfirm == (m > 0) else f.state.Warm?
  {
    InStepRange(p);
    assert i == Same(i.adc);
    NoKeys(p, i.adc);
    assert Valid(p.(div100 := 0)) by { ResetTicksValid(p); }
    HeatExact(p.(div100 := 0), i.adc);
    FrontTicks(p, i);
    hide Valid, Control, Front, Ntc.Celsius;
  }

  lemma ConfirmTick(p: Pot, i: Input, n: nat)
    requires p.slope.Shaped() && Confirming(p, n) && n < BOIL_HOLD_TICKS && Plain(i)
    requires n == 0 && p.div100 == 9 ==> Ntc.Celsius(i.adc) >= BOIL_TEMP_C
    ensures Confirming(Tick(p, i), if p.div100 == 9 then n + 1 else n)
  {
    assert Due(p) ==> p.div100 == 9;
    TickValid(p, i);
    TickInStep(p, i);
    FrontValid(p, i);
    FrontClock(p, i);
    ConfirmFront(p, i, n);
    ValidHold(Tick(p, i));
    hide Valid, InStep, Front, Second, Ntc.Celsius;
    if Due(p) {
      var f := Front(p, i).(div1000 := 0);
      assert Valid(f) by { ResetClockValid(Front(p, i)); }
      OpenSecond(f);
    }
  }

  lemma ValidHold(p: Pot)
    requires Valid(p)
    ensures p.boilHold <= BOIL_HOLD_TICKS
  {
  }

  /** Control tasks in the next n passes. */
  function Controls(p: Pot, n: nat): nat {
    (p.div100 + n) / 10
  }

  lemma {:induction false} TicksAdvance(p: Pot, ins: seq<Input>)
    requires p.slope.Shaped() && p.div100 < 10
    ensures Run(p, ins).div100 == (p.div100 + |ins|) % 10
  {
    hide Tick;
    if |ins| > 0 {
      TicksAdvance(p, ins[..|ins| - 1]);
      TickTicks(Run(p, ins[..|ins| - 1]), ins[|ins| - 1]);
    }
  }

  /** From the first reading of 98 C in boil mode, however the readings go on (sound and on the scale, no
      keys): the contact is open, heating lasts until the thirtieth control task, and then it keeps warm. */
  lemma {:induction false} BoilConfirms(p: Pot, ins: seq<Input>)
    requires p.slope.Shaped() && Confirming(p, 0) && p.div100 < 10 && Controls(p, |ins|) <= BOIL_HOLD_TICKS
    requires forall k :: 0 <= k < |ins| ==> Plain(ins[k])
    requires |ins| > 9 - p.div100 ==> Ntc.Celsius(ins[9 - p.div100].adc) >= BOIL_TEMP_C
    ensures Confirming(Run(p, ins), Controls(p, |ins|))
  {
    hide Tick, Confirming, Plain, Ntc.Celsius;
    if |ins| > 0 {
      var init := ins[..|ins| - 1];
      BoilConfirms(p, init);
      TicksAdvance(p, init);
      var n := Controls(p, |init|);
      var q := Run(p, init);
      if n < BOIL_HOLD_TICKS {
        ConfirmTick(q, ins[|ins| - 1], n);
      } else {
        ConfirmedTick(q, ins[|ins| - 1]);
      }
    }
  }

  /** Until the next control task nothing happens any more. */
  lemma ConfirmedTick(p: Pot, i: Input)
    requires p.slope.Shaped() && Confirming(p, BOIL_HOLD_TICKS) && p.div100 < 9 && Plain(i)
    ensures Confirming(Tick(p, i), BOIL_HOLD_TICKS)
  {
    TickValid(p, i);
    TickInStep(p, i);
    BeforeControl(p, i);
    hide Valid, InStep, Tick;
  }

  lemma BeforeControl(p: Pot, i: Input)
    requires p.slope.Shaped() && Valid(p) && InStep(p) && p.div100 < 9 && !i.func && !i.onoff
    ensures Tick(p, i) == p.(div100 := p.div100 + 1, div1000 := p.div1000 + 1)
  {
    assert p.div1000 % 10 == p.div100 && p.div1000 < 100;
    KeyTick(p, i);
    BothKeys(p);
    hide Valid, InStep, Tick, HandleButtons;
  }

  // ---------- recovering from a sensor fault ----------

  /** n sound control tasks after E-01 or E-02. */
  predicate Recovering(p: Pot, code: nat, n: nat) {
    && Valid(p) && InStep(p) && !p.heater && 1 <= code <= 2
    && if n < FAULT_RECOVER_TICKS then p.state.Fault? && p.fault == code && p.recover == n else p.state.Off? && p.fault == 0
  }

  lemma RecoverTick(p: Pot, i: Input, code: nat, n: nat)
    requires p.slope.Shaped() && Recovering(p, code, n) && n < FAULT_RECOVER_TICKS && Plain(i)
    ensures Recovering(Tick(p, i), code, if p.div100 == 9 then n + 1 else n)
  {
    InStepRange(p);
    TickValid(p, i);
    TickInStep(p, i);
    if p.div100 == 9 {
      RecoverPass(p, i, code, n);
    } else {
      BeforeControl(p, i);
    }
    hide Valid, InStep, Tick;
  }

  lemma RecoverPass(p: Pot, i: Input, code: nat, n: nat)
    requires p.slope.Shaped() && Recovering(p, code, n) && n < FAULT_RECOVER_TICKS && Plain(i) && p.div100 == 9
    ensures var q := Tick(p, i);
      !q.heater && if n + 1 < FAULT_RECOVER_TICKS then q.state.Fault? && q.fault == code && q.recover == n + 1 else q.state.Off? && q.fault == 0
  {
    assert i == Same(i.adc);
    NoKeys(p, i.adc);
    assert Valid(p.(div100 := 0)) by { ResetTicksValid(p); }
    FaultExact(p.(div100 := 0), i.adc);
    FrontTicks(p, i);
    FrontValid(p, i);
    FrontClock(p, i);
    var f := Front(p, i).(div1000 := 0);
    assert Valid(f) by { ResetClockValid(Front(p, i)); }
    hide Valid, Control, Front, Second, Ntc.Celsius;
    OpenSecond(f);
  }

  /** A sensor fault lasts until the third control task in a row with a sound code, and then is over. */
  lemma {:induction false} SensorRecovers(p: Pot, code: nat, ins: seq<Input>)
    requires p.slope.Shaped() && Recovering(p, code, 0) && p.div100 < 10 && Controls(p, |ins|) <= FAULT_RECOVER_TICKS
    requires forall k :: 0 <= k < |ins| ==> Plain(ins[k])
    ensures Recovering(Run(p, ins), code, Controls(p, |ins|))
  {
    hide Tick, Recovering, Plain;
    if |ins| > 0 {
      var init := ins[..|ins| - 1];
      SensorRecovers(p, code, init);
      TicksAdvance(p, init);
      var n := Controls(p, |init|);
      var q := Run(p, init);
      if n < FAULT_RECOVER_TICKS {
        RecoverTick(q, ins[|ins| - 1], code, n);
      } else {
        RecoveredTick(q, ins[|ins| - 1], code);
      }
    }
  }

  lemma RecoveredTick(p: Pot, i: Input, code: nat)
    requires p.slope.Shaped() && Recovering(p, code, FAULT_RECOVER_TICKS) && p.div100 < 9 && Plain(i)
    ensures Recovering(Tick(p, i), code, FAULT_RECOVER_TICKS)
  {
    TickValid(p, i);
    TickInStep(p, i);
    BeforeControl(p, i);
    hide Valid, InStep, Tick;
  }

  // ---------- tripping on a beyond-scale probe ----------

  predicate ShowsOvertemp(p: Pot) {
    p.state.Fault? && p.fault == 4
  }

  predicate OffScale(a: nat) {
    NTC_SHORT_RAW < a <= OVERTEMP_RAW
  }

  lemma NoOvertempFromSlope(p: Pot)
    requires p.slope.Shaped() && !ShowsOvertemp(p)
    ensures !ShowsOvertemp(SlopeTask(p))
  {
    hide Refill, Shift;
  }

  /** E-04 appears in a pass exactly when its one-second task is the tenth in a row to find an active pot
      with a code beyond the scale. */
  lemma OvertempIff(p: Pot, i: Input)
    requires p.slope.Shaped() && Valid(p) && !ThermallyFaulted(p)
    ensures var f := Front(p, i);
      ShowsOvertemp(Tick(p, i)) <==> Due(p) && Active(f) && OffScale(f.adc) && f.overtemp == OVERTEMP_SECONDS - 1
  {
    FrontValid(p, i);
    FrontClock(p, i);
    FrontThermal(p, i);
    var f := Front(p, i).(div1000 := 0);
    if Due(p) {
      assert Valid(f) by { ResetClockValid(Front(p, i)); }
      WatchIff(f);
      var w := OvertempWatch(Cool(RelayClock(f)));
      hide Valid, Front, OvertempWatch, Cool, RelayClock, SlopeTask;
      if ShowsOvertemp(w) {
        SlopeIdle(w);
      } else {
        NoOvertempFromSlope(w);
      }
    }
    hide Valid, Front, Second;
  }

  /** The count goes up by one in such a second and restarts in any other. */
  lemma WatchIff(f: Pot)
    requires Valid(f) && !ThermallyFaulted(f)
    ensures var w := OvertempWatch(Cool(RelayClock(f)));
      && w.slope.Shaped()
      && (ShowsOvertemp(w) <==> Active(f) && OffScale(f.adc) && f.overtemp == OVERTEMP_SECONDS - 1)
      && w.overtemp == if Active(f) && OffScale(f.adc) then f.overtemp + 1 else 0
  {
    hide Ntc.Celsius;
  }

  predicate Scorching(i: Input) {
    !i.func && !i.onoff && OffScale(i.adc)
  }

  /** Beyond the scale the contact opens; a DIRECT target counts as reached, the boil is not confirmed. */
  lemma OffScaleControl(p: Pot, a: nat)
    requires Valid(p) && Active(p) && OffScale(a)
    ensures var q := Control(p, a);
      && !q.heater && q.mode == p.mode
      && if p.state.Heat? && !p.mode.Boil100? then q.state.Warm? && q.overtemp == 0 else q.state == p.state && q.overtemp == p.overtemp
  {
    if p.state.Heat? {
      OffScaleReads(a);
      HeatExact(p, a);
      hide Valid, Control, Ntc.Celsius;
    } else {
      OffScaleWarm(p, a);
    }
  }

  lemma OffScaleWarm(p: Pot, a: nat)
    requires Valid(p) && p.state.Warm? && OffScale(a)
    ensures var q := Control(p, a); !q.heater && q.mode == p.mode && q.state.Warm? && q.overtemp == p.overtemp
  {
    hide Ntc.Celsius;
  }

  lemma OffScaleReads(a: nat)
    requires a <= OVERTEMP_RAW
    ensures Ntc.Celsius(a) >= 105
  {
    assert Ntc.Raw(47) == 16 && Ntc.Deg(47) == 105;
    hide Ntc.Celsius, Ntc.Raw, Ntc.Deg;
    Ntc.ThresholdAt(a, 47);
  }

  /** n beyond-scale seconds in a row. */
  predicate Scorched(p: Pot, n: nat) {
    && Valid(p) && InStep(p) && p.div1000 < 100
    && if n < OVERTEMP_SECONDS then Active(p) && p.overtemp == n && (p.state.Heat? && !p.mode.Boil100? ==> n == 0)
       else ShowsOvertemp(p) && p.cooldown == COOLDOWN_SECONDS
  }

  lemma ScorchFront(p: Pot, i: Input, n: nat)
    requires p.slope.Shaped() && Scorched(p, n) && n < OVERTEMP_SECONDS && Scorching(i)
    ensures var f := Front(p, i);
      && Active(f) && f.overtemp == n && (f.state.Heat? && !f.mode.Boil100? ==> n == 0)
      && (p.div100 == 9 ==> !f.heater && OffScale(f.adc) && !(f.state.Heat? && !f.mode.Boil100?))
  {
    InStepRange(p);
    assert i == Same(i.adc);
    NoKeys(p, i.adc);
    assert Valid(p.(div100 := 0)) by { ResetTicksValid(p); }
    OffScaleControl(p.(div100 := 0), i.adc);
    FrontTicks(p, i);
    hide Valid, Control, Front, Ntc.Celsius;
  }

  lemma ScorchSecond(f: Pot, n: nat)
    requires f.slope.Shaped() && Valid(f) && Active(f) && !f.heater && OffScale(f.adc) && f.overtemp == n < OVERTEMP_SECONDS
    ensures var q := Second(f);
      if n + 1 < OVERTEMP_SECONDS then q.state == f.state && q.mode == f.mode && q.overtemp == n + 1
      else ShowsOvertemp(q) && q.cooldown == COOLDOWN_SECONDS
  {
    var r := Cool(RelayClock(f));
    assert r == f.(relayOff := r.relayOff, cooldown := r.cooldown);
    hide Cool, RelayClock, Valid;
    ScorchWatch(r, n);
    OpenSlope(OvertempWatch(r));
    hide OvertempWatch, SlopeTask;
  }

  lemma ScorchWatch(r: Pot, n: nat)
    requires r.slope.Shaped() && Active(r) && !r.heater && OffScale(r.adc) && r.overtemp == n < OVERTEMP_SECONDS
    ensures var w := OvertempWatch(r);
      && w.slope.Shaped() && !w.heater
      && if n + 1 < OVERTEMP_SECONDS then w.state == r.state && w.mode == r.mode && w.overtemp == n + 1
         else ShowsOvertemp(w) && w.cooldown == COOLDOWN_SECONDS
  {
  }

  lemma OpenSlope(w: Pot)
    requires w.slope.Shaped() && !w.heater
    ensures SlopeTask(w) == w
  {
  }

  lemma ScorchTick(p: Pot, i: Input, n: nat)
    requires p.slope.Shaped() && Scorched(p, n) && n < OVERTEMP_SECONDS && Scorching(i)
    ensures Scorched(Tick(p, i), if Due(p) then n + 1 else n)
  {
    assert Due(p) ==> p.div100 == 9;
    TickValid(p, i);
    TickInStep(p, i);
    InStepRange(Tick(p, i));
    FrontValid(p, i);
    FrontClock(p, i);
    ScorchFront(p, i, n);
    hide Valid, InStep, Front, Second, OffScale, Ntc.Celsius;
    if Due(p) {
      var f := Front(p, i).(div1000 := 0);
      assert Valid(f) by { ResetClockValid(Front(p, i)); }
      ScorchSecond(f, n);
    }
  }

  lemma ScorchedStays(p: Pot, i: Input)
    requires p.slope.Shaped() && Scorched(p, OVERTEMP_SECONDS) && !Due(p) && Scorching(i)
    ensures Scorched(Tick(p, i), OVERTEMP_SECONDS)
  {
    TickValid(p, i);
    TickInStep(p, i);
    InStepRange(Tick(p, i));
    ThermalFaultStays(p, i);
    LockedTick(p, i);
    hide Valid, InStep, Tick;
  }

  /** An active pot whose codes are beyond the scale goes on (contact open from the first control task on)
      for nine one-second tasks and trips with the full lock at the tenth. */
  lemma {:induction false} OvertempTrips(p: Pot, ins: seq<Input>)
    requires p.slope.Shaped() && Scorched(p, 0) && p.div1000 + |ins| < 1100
    requires forall k :: 0 <= k < |ins| ==> Scorching(ins[k])
    ensures Scorched(Run(p, ins), Seconds(p, ins)) && Seconds(p, ins) <= OVERTEMP_SECONDS
  {
    hide Tick, Scorched, Scorching;
    assert p.div1000 < 100 by { ScorchedClock(p, 0); }
    SecondsAreHundredths(p, ins);
    if |ins| > 0 {
      var init := ins[..|ins| - 1];
      OvertempTrips(p, init);
      SecondsAreHundredths(p, init);
      var n := Seconds(p, init);
      var q := Run(p, init);
      if n < OVERTEMP_SECONDS {
        ScorchTick(q, ins[|ins| - 1], n);
      } else {
        ScorchedStays(q, ins[|ins| - 1]);
      }
    }
  }

  lemma ScorchedClock(p: Pot, n: nat)
    requires Scorched(p, n)
    ensures p.div1000 < 100
  {
  }
}
