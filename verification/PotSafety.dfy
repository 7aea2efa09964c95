/** What every run of the thermostat keeps. */
module PotSafety {
  import opened Pot
  import Ntc

  predicate Active(p: Pot) { p.state.Heat? || p.state.Warm? }

  /** The thermal lock and the contact. */
  predicate Locked(p: Pot) {
    && p.cooldown <= COOLDOWN_SECONDS
    && (p.cooldown > 0 ==> !Active(p))
    && (Active(p) ==> Healthy(p.adc))
    && (p.heater ==> Active(p) && OVERTEMP_RAW < p.adc < NTC_OPEN_RAW)
  }

  /** Fault codes agree with the state; only standby can be muted. */
  predicate Coded(p: Pot) {
    && (Active(p) ==> p.fault == 0)
    && (p.state.Fault? ==> 1 <= p.fault <= 4)
    && (p.state.Off? ==> p.fault <= 2 && (!p.muted ==> p.fault == 0))
    && (p.muted ==> p.state.Off?)
  }

  /** The counters stay in their ranges. Only heat_seconds can wrap (PotBackstop.SecondsCanWrap); no
      other byte or word increment ever does. */
  predicate Counted(p: Pot) {
    && p.warmSet in {55, 60, 80, 90}
    && p.relayOff <= 255 && p.recover <= 255
    && p.overtemp <= OVERTEMP_SECONDS && (Active(p) ==> p.overtemp < OVERTEMP_SECONDS)
    && p.boilHold <= BOIL_HOLD_TICKS && (p.state.Heat? ==> p.boilHold < BOIL_HOLD_TICKS)
    && p.glitch <= GLITCH_TRIP_COUNT && (p.state.Heat? ==> p.glitch < GLITCH_TRIP_COUNT)
    && p.heatSeconds < 65536
  }

  predicate Valid(p: Pot) {
    && p.slope.Shaped() && p.temp == Ntc.Celsius(p.adc) && p.div100 < 10 && p.div1000 < 100
    && Locked(p) && Coded(p) && Counted(p)
  }

  // ---------- one task at a time ----------

  lemma FuncValid(p: Pot)
    requires Valid(p)
    ensures Valid(PressFunc(p))
  {
    hide Ntc.Celsius, Refill;
    assert Locked(PressFunc(p)) && Coded(PressFunc(p));
    assert Counted(PressFunc(p));
  }

  lemma OnOffValid(p: Pot)
    requires Valid(p)
    ensures Valid(PressOnOff(p))
  {
    hide Ntc.Celsius, Refill;
  }

  /** After the sample: the invariant, except that the contact may still be closed on a code the control task is about to judge. */
  predicate Sampled(p: Pot, q: Pot, adc: nat) {
    && q.slope.Shaped() && q.adc == adc && q.temp == Ntc.Celsius(adc)
    && Locked(q.(heater := false)) && Coded(q) && Counted(q)
    && (q.heater ==> Active(q))
    && (Active(q) ==> Healthy(adc))
    && q.relayOff == p.relayOff && q.cooldown == p.cooldown && q.div1000 == p.div1000 && q.div100 == p.div100
  }

  lemma SenseSampled(p: Pot, adc: nat)
    requires Valid(p)
    ensures Sampled(p, Sense(p, adc), adc)
  {
    hide Ntc.Celsius, Refill;
  }

  lemma OffSampled(p: Pot, q: Pot, adc: nat)
    requires Sampled(p, q, adc) && q.state.Off?
    ensures Sampled(p, OffBranch(q), adc)
    ensures OffBranch(q).heater && !q.heater ==> q.relayOff >= RELAY_DWELL_SECONDS
  {
    hide Ntc.Celsius, Refill;
  }

  lemma HeatSampled(p: Pot, q: Pot, adc: nat)
    requires Sampled(p, q, adc) && q.state.Heat?
    ensures Sampled(p, HeatBranch(q), adc)
    ensures HeatBranch(q).heater && !q.heater ==> q.relayOff >= RELAY_DWELL_SECONDS
  {
    hide Ntc.Celsius, Refill;
  }

  lemma WarmSampled(p: Pot, q: Pot, adc: nat)
    requires Sampled(p, q, adc) && q.state.Warm?
    ensures Sampled(p, WarmBranch(q), adc)
    ensures WarmBranch(q).heater && !q.heater ==> q.relayOff >= RELAY_DWELL_SECONDS
  {
    hide Ntc.Celsius, Refill;
  }

  lemma FaultSampled(p: Pot, q: Pot, adc: nat)
    requires Sampled(p, q, adc) && q.state.Fault?
    ensures Sampled(p, FaultBranch(q), adc)
    ensures FaultBranch(q).heater && !q.heater ==> q.relayOff >= RELAY_DWELL_SECONDS
  {
    hide Ntc.Celsius, Refill;
  }

  lemma BranchSampled(p: Pot, q: Pot, adc: nat)
    requires Sampled(p, q, adc)
    ensures Sampled(p, Branch(q), adc)
    ensures Branch(q).heater && !q.heater ==> q.relayOff >= RELAY_DWELL_SECONDS
  {
    match q.state {
      case Off => OffSampled(p, q, adc);
      case Heat => HeatSampled(p, q, adc);
      case Warm => WarmSampled(p, q, adc);
      case Fault => FaultSampled(p, q, adc);
    }
    hide Sampled, OffBranch, HeatBranch, WarmBranch, FaultBranch;
  }

  lemma ControlValid(p: Pot, adc: nat)
    requires Valid(p)
    ensures Valid(Control(p, adc))
  {
    hide Sense, Branch, Ntc.Celsius;
    SenseSampled(p, adc);
    BranchSampled(p, Sense(p, adc), adc);
  }

  lemma FaultValid(p: Pot, code: nat)
    requires Valid(p) && (p.state.Heat? || p.state.Fault?) && 1 <= code <= 4
    ensures Valid(EnterFault(p, code)) && EnterFault(p, code).state.Fault?
  {
    hide Ntc.Celsius;
  }

  lemma GlitchValid(p: Pot)
    requires Valid(p) && p.state.Heat?
    ensures Valid(Glitch(p))
  {
    hide Ntc.Celsius, Refill;
  }

  lemma CleanValid(p: Pot)
    requires Valid(p) && p.state.Heat?
    ensures Valid(CleanSecond(p)) && CleanSecond(p).state.Heat?
  {
    hide Ntc.Celsius, Shift;
  }

  lemma BackstopValid(p: Pot)
    requires Valid(p) && p.state.Heat?
    ensures Valid(Backstop(p))
  {
    FaultValid(p, 3);
    FaultValid(EnterFault(p, 3), 3);
    hide Valid, EnterFault;
  }

  lemma SlopeValid(p: Pot)
    requires Valid(p)
    ensures Valid(SlopeTask(p))
  {
    if p.state.Heat? {
      GlitchValid(p);
      CleanValid(p);
      FaultValid(CleanSecond(p), 3);
      BackstopValid(CleanSecond(p));
    }
    assert p.slope.Shaped();
    hide Valid, Glitch, CleanSecond, Backstop, EnterFault, DryFire, ColdWater;
  }

  lemma SlopeIdle(p: Pot)
    requires p.slope.Shaped() && !p.state.Heat?
    ensures SlopeTask(p) == p
  {
  }

  lemma ClockValid(p: Pot)
    requires Valid(p)
    ensures Valid(RelayClock(p)) && Valid(Cool(RelayClock(p)))
  {
    hide Ntc.Celsius;
  }

  lemma OvertempValid(p: Pot)
    requires Valid(p)
    ensures Valid(OvertempWatch(p))
  {
    hide Ntc.Celsius;
  }

  lemma SecondValid(p: Pot)
    requires Valid(p)
    ensures Valid(Second(p))
  {
    hide SlopeTask, OvertempWatch, RelayClock, Cool, Valid;
    ClockValid(p);
    OvertempValid(Cool(RelayClock(p)));
    SlopeValid(OvertempWatch(Cool(RelayClock(p))));
  }

  lemma ButtonsValid(p: Pot, func: bool, onoff: bool)
    requires Valid(p)
    ensures Valid(HandleButtons(p, func, onoff).(div100 := 0))
  {
    hide PressFunc, PressOnOff, Ntc.Celsius;
    FuncValid(p);
    OnOffValid(if func then PressFunc(p) else p);
  }

  lemma FrontValid(p: Pot, i: Input)
    requires Valid(p)
    ensures Valid(Front(p, i))
  {
    hide HandleButtons, Control, Ntc.Celsius;
    ButtonsValid(p, i.func, i.onoff);
    var b := HandleButtons(p, i.func, i.onoff);
    ControlValid(b.(div100 := 0), i.adc);
  }

  lemma TickValid(p: Pot, i: Input)
    requires Valid(p)
    ensures Valid(Tick(p, i))
  {
    hide Front, Second, Ntc.Celsius;
    FrontValid(p, i);
    SecondValid(Front(p, i).(div1000 := 0));
  }

  lemma ResetClockValid(p: Pot)
    requires Valid(p)
    ensures Valid(p.(div1000 := 0))
  {
  }

  lemma BootValid(adc: nat)
    ensures Valid(Boot(adc))
  {
    Ntc.Scale(adc);
  }

  /** The invariant holds in every state a powered-up pot ever reaches, whatever keys and readings arrive. */
  lemma {:induction false} AlwaysValid(adc: nat, ins: seq<Input>)
    ensures Valid(Run(Boot(adc), ins))
  {
    hide Valid, Tick, Boot;
    if |ins| == 0 {
      BootValid(adc);
    } else {
      AlwaysValid(adc, ins[..|ins| - 1]);
      TickValid(Run(Boot(adc), ins[..|ins| - 1]), ins[|ins| - 1]);
    }
  }
}
