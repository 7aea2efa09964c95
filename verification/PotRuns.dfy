/** Whole-run theorems about the thermostat: the output clamp, the one-second clock, the cooling lock and
    the thermal faults. */
module PotRuns {
  import opened Pot
  import opened PotSafety
  import Ntc

  /** The output clamp never changes the result: the state machine already keeps the contact open. */
  lemma ClampNeverMatters(adc: nat, ins: seq<Input>)
    ensures var p := Run(Boot(adc), ins); Pin(p) == p.heater
  {
    hide Run, Boot;
    AlwaysValid(adc, ins);
  }

  /** And where the state machine failed to, the clamp would: under the lock the pin is low in any state. */
  lemma ClampHolds(p: Pot)
    ensures p.cooldown > 0 ==> !Pin(p)
    ensures p.cooldown == 0 ==> Pin(p) == p.heater
  {
  }

  /** Power-up: standby in boil mode, contact open and free to close, no fault; locked exactly on a hot plate. */
  lemma BootExact(adc: nat)
    ensures var p := Boot(adc);
      && p.state.Off? && p.mode.Boil100? && !p.heater && p.relayOff == 255 && p.fault == 0 && !p.muted
      && p.adc == adc && p.temp == Ntc.Celsius(adc) && p.div100 == p.div1000 == 0
      && p.cooldown == (if Ntc.Celsius(adc) >= DRYFIRE_TEMP_C then COOLDOWN_SECONDS else 0)
  {
    hide Ntc.Celsius;
  }

  // ---------- clocks ----------

  /** What no part of the one-second task after the relay clock touches; and it never closes the contact. */
  predicate SameRest(p: Pot, q: Pot) {
    && q.div100 == p.div100 && q.div1000 == p.div1000 && q.relayOff == p.relayOff && q.mode == p.mode
    && q.adc == p.adc && q.temp == p.temp && (q.heater ==> p.heater)
  }

  lemma FaultRest(p: Pot, code: nat)
    ensures SameRest(p, EnterFault(p, code))
  {
  }

  lemma GlitchRest(p: Pot)
    ensures SameRest(p, Glitch(p))
  {
    FaultRest(p.(glitch := U8(p.glitch + 1)), 1);
    hide EnterFault, Refill;
  }

  lemma BackstopRest(p: Pot)
    ensures SameRest(p, Backstop(p))
  {
    FaultRest(p, 3);
    FaultRest(EnterFault(p, 3), 3);
    hide EnterFault;
  }

  lemma SlopeRest(p: Pot)
    requires p.slope.Shaped()
    ensures SameRest(p, SlopeTask(p))
  {
    GlitchRest(p);
    BackstopRest(CleanSecond(p));
    FaultRest(CleanSecond(p), 3);
    hide EnterFault, Glitch, Backstop, DryFire, Shift;
  }

  lemma OvertempRest(p: Pot)
    ensures SameRest(p, OvertempWatch(p))
  {
    FaultRest(p.(overtemp := U8(p.overtemp + 1)), 4);
    hide EnterFault;
  }

  /** All of it, except for the relay clock itself. */
  lemma SecondRest(p: Pot)
    requires p.slope.Shaped()
    ensures SameRest(p, Second(p).(relayOff := p.relayOff))
  {
    OvertempRest(Cool(RelayClock(p)));
    SlopeRest(OvertempWatch(Cool(RelayClock(p))));
    hide SlopeTask, OvertempWatch;
  }

  /** Fields that neither the keys nor the control task touch. */
  predicate SameClocks(p: Pot, q: Pot) {
    q.div1000 == p.div1000 && q.relayOff == p.relayOff && q.cooldown == p.cooldown
  }

  lemma ButtonsClock(p: Pot, func: bool, onoff: bool)
    ensures SameClocks(p, HandleButtons(p, func, onoff))
  {
    hide PressFunc, PressOnOff;
    FuncClock(p);
    OnOffClock(if func then PressFunc(p) else p);
  }

  lemma FrontClock(p: Pot, i: Input)
    requires p.slope.Shaped()
    ensures SameClocks(p, Front(p, i))
  {
    hide HandleButtons, Control;
    ButtonsClock(p, i.func, i.onoff);
    ControlClock(HandleButtons(p, i.func, i.onoff).(div100 := 0), i.adc);
  }

  lemma FuncClock(p: Pot)
    ensures SameClocks(p, PressFunc(p))
  {
    hide Refill;
  }

  lemma OnOffClock(p: Pot)
    ensures SameClocks(p, PressOnOff(p))
  {
    hide Refill;
  }

  lemma SenseClock(p: Pot, adc: nat)
    ensures SameClocks(p, Sense(p, adc))
  {
    hide Ntc.Celsius;
  }

  lemma BranchClock(p: Pot)
    ensures SameClocks(p, Branch(p))
  {
  }

  lemma ControlClock(p: Pot, adc: nat)
    ensures SameClocks(p, Control(p, adc))
  {
    hide Sense, Branch;
    SenseClock(p, adc);
    BranchClock(Sense(p, adc));
  }

  lemma FuncTicks(p: Pot)
    ensures PressFunc(p).div100 == p.div100
  {
    hide Refill;
  }

  lemma OnOffTicks(p: Pot)
    ensures PressOnOff(p).div100 == p.div100
  {
    hide Refill;
  }

  lemma SenseTicks(p: Pot, adc: nat)
    ensures Sense(p, adc).div100 == p.div100 && Sense(p, adc).adc == adc
  {
    hide Ntc.Celsius;
  }

  lemma BranchTicks(p: Pot)
    ensures Branch(p).div100 == p.div100 && Branch(p).adc == p.adc
  {
  }

  lemma FrontTicks(p: Pot, i: Input)
    requires p.slope.Shaped()
    ensures Front(p, i).div100 == if p.div100 + 1 >= 10 then 0 else p.div100 + 1
    ensures p.div100 + 1 >= 10 ==> Front(p, i).adc == i.adc
  {
    hide PressFunc, PressOnOff, Sense, Branch;
    FuncTicks(p);
    OnOffTicks(if i.func then PressFunc(p) else p);
    var b := HandleButtons(p, i.func, i.onoff).(div100 := 0);
    SenseTicks(b, i.adc);
    BranchTicks(Sense(b, i.adc));
  }

  /** The control task runs in every pass in which the one-second task does. */
  predicate InStep(p: Pot) { p.div100 == p.div1000 % 10 }

  lemma TickInStep(p: Pot, i: Input)
    requires p.slope.Shaped() && InStep(p) && p.div1000 < 100
    ensures InStep(Tick(p, i))
  {
    hide Front, Second;
    FrontTicks(p, i);
    FrontClock(p, i);
    SecondRest(Front(p, i).(div1000 := 0));
  }

  lemma {:induction false} AlwaysInStep(adc: nat, ins: seq<Input>)
    ensures InStep(Run(Boot(adc), ins))
  {
    hide Tick, InStep, Valid;
    if |ins| == 0 {
      assert InStep(Boot(adc)) by { BootInStep(adc); }
    } else {
      AlwaysInStep(adc, ins[..|ins| - 1]);
      AlwaysValid(adc, ins[..|ins| - 1]);
      Unfold(Run(Boot(adc), ins[..|ins| - 1]));
      TickInStep(Run(Boot(adc), ins[..|ins| - 1]), ins[|ins| - 1]);
    }
  }

  lemma BootInStep(adc: nat)
    ensures InStep(Boot(adc))
  {
  }

  /** One-second tasks run so far. */
  function Seconds(p: Pot, ins: seq<Input>): nat
    requires p.slope.Shaped()
  {
    if |ins| == 0 then 0
    else Seconds(p, ins[..|ins| - 1]) + (if Due(Run(p, ins[..|ins| - 1])) then 1 else 0)
  }

  /** Every hundredth pass is a one-second pass, whatever happens in between. */
  lemma {:induction false} SecondsAreHundredths(p: Pot, ins: seq<Input>)
    requires p.slope.Shaped() && p.div1000 < 100
    ensures Run(p, ins).div1000 == (p.div1000 + |ins|) % 100
    ensures Seconds(p, ins) == (p.div1000 + |ins|) / 100
  {
    hide Front, Second;
    if |ins| > 0 {
      var q, i := Run(p, ins[..|ins| - 1]), ins[|ins| - 1];
      SecondsAreHundredths(p, ins[..|ins| - 1]);
      FrontClock(q, i);
      SecondRest(Front(q, i).(div1000 := 0));
    }
  }

  // ---------- the 60 s cooling lock ----------

  lemma FrontLocked(p: Pot, i: Input)
    requires Valid(p) && p.cooldown > 0
    ensures var q := Front(p, i); Valid(q) && q.cooldown == p.cooldown && !Active(q)
  {
    hide Front;
    FrontValid(p, i);
    FrontClock(p, i);
  }

  lemma InactiveSecond(p: Pot)
    requires p.slope.Shaped() && !Active(p)
    ensures Second(p).state == p.state
    ensures Second(p).cooldown == if p.cooldown > 0 then p.cooldown - 1 else 0
  {
  }

  /** While the lock runs, a pass leaves the pot inactive and takes at most one second off the lock. */
  lemma LockedTick(p: Pot, i: Input)
    requires Valid(p) && p.cooldown > 0
    ensures Valid(Tick(p, i)) && !Active(Tick(p, i)) && !Tick(p, i).heater
    ensures Tick(p, i).cooldown == p.cooldown - (if Due(p) then 1 else 0)
  {
    hide Front, Second;
    TickValid(p, i);
    FrontLocked(p, i);
    FrontClock(p, i);
    InactiveSecond(Front(p, i).(div1000 := 0));
  }

  /** From a full lock the contact stays open, under any keys and readings, for every pass up to
      and including the sixtieth one-second task. */
  lemma {:induction false} LockHolds(p: Pot, ins: seq<Input>)
    requires Valid(p) && p.cooldown == COOLDOWN_SECONDS
    requires |ins| <= 6000 - p.div1000
    ensures var q := Run(p, ins); Valid(q) && !Active(q) && !Pin(q) && q.cooldown == COOLDOWN_SECONDS - Seconds(p, ins)
  {
    hide Valid, Tick;
    assert p.slope.Shaped() && p.div1000 < 100 && !Active(p) && !Pin(p) by { Unfold(p); }
    if |ins| > 0 {
      var init := ins[..|ins| - 1];
      LockHolds(p, init);
      SecondsAreHundredths(p, init);
      LockedTick(Run(p, init), ins[|ins| - 1]);
    }
  }

  lemma Unfold(p: Pot)
    requires Valid(p)
    ensures p.slope.Shaped() && p.div1000 < 100 && (p.cooldown > 0 ==> !Active(p) && !Pin(p))
  {
  }

  predicate ThermallyFaulted(p: Pot) { p.state.Fault? && ThermalFault(p.fault) }

  lemma SenseKeepsThermal(p: Pot, adc: nat)
    ensures ThermallyFaulted(Sense(p, adc)) <==> ThermallyFaulted(p)
    ensures ThermallyFaulted(p) ==> Sense(p, adc).fault == p.fault
  {
    hide Ntc.Celsius;
  }

  lemma BranchKeepsThermal(p: Pot)
    ensures ThermallyFaulted(Branch(p)) <==> ThermallyFaulted(p)
    ensures ThermallyFaulted(p) ==> Branch(p).fault == p.fault
  {
  }

  lemma FrontThermal(p: Pot, i: Input)
    requires Valid(p)
    ensures ThermallyFaulted(Front(p, i)) ==> ThermallyFaulted(p)
    ensures ThermallyFaulted(p) && !i.onoff ==> ThermallyFaulted(Front(p, i)) && Front(p, i).fault == p.fault
  {
    hide Ntc.Celsius, Refill, Sense, Branch;
    var f := if i.func then PressFunc(p) else p;
    assert ThermallyFaulted(f) <==> ThermallyFaulted(p);
    var b := HandleButtons(p, i.func, i.onoff);
    assert ThermallyFaulted(b) ==> ThermallyFaulted(p) by { OnOffThermal(f); }
    hide HandleButtons;
    SenseKeepsThermal(b.(div100 := 0), i.adc);
    BranchKeepsThermal(Sense(b.(div100 := 0), i.adc));
  }

  lemma OnOffThermal(p: Pot)
    ensures ThermallyFaulted(PressOnOff(p)) ==> ThermallyFaulted(p)
  {
    hide Refill;
  }

  lemma SecondThermal(p: Pot)
    requires Valid(p)
    ensures ThermallyFaulted(Second(p)) && !ThermallyFaulted(p) ==> Second(p).cooldown == COOLDOWN_SECONDS
    ensures ThermallyFaulted(p) ==> ThermallyFaulted(Second(p)) && Second(p).fault == p.fault
  {
    hide Ntc.Celsius, Refill, Shift;
    var q := OvertempWatch(Cool(RelayClock(p)));
    assert (q.state == p.state && q.fault == p.fault) || (ThermallyFaulted(q) && q.cooldown == COOLDOWN_SECONDS);
    hide OvertempWatch, Cool, RelayClock;
    SlopeThermal(q);
  }

  lemma SlopeThermal(q: Pot)
    requires q.slope.Shaped()
    ensures q.state.Heat? || SlopeTask(q) == q
    ensures q.state.Heat? && ThermallyFaulted(SlopeTask(q)) ==> SlopeTask(q).cooldown == COOLDOWN_SECONDS
  {
    hide Refill, Shift;
  }

  /** A thermal fault (E-03 or E-04) always latches the full lock, on a one-second boundary. */
  lemma ThermalFaultLatches(p: Pot, i: Input)
    requires Valid(p) && !ThermallyFaulted(p) && ThermallyFaulted(Tick(p, i))
    ensures Tick(p, i).cooldown == COOLDOWN_SECONDS && Tick(p, i).div1000 == 0
  {
    hide Front, Second, Ntc.Celsius;
    FrontValid(p, i);
    FrontThermal(p, i);
    SecondThermal(Front(p, i).(div1000 := 0));
    SecondRest(Front(p, i).(div1000 := 0));
  }

  /** A latched thermal fault leaves only by the ON/OFF key and is never downgraded to a self-clearing one. */
  lemma ThermalFaultStays(p: Pot, i: Input)
    requires Valid(p) && ThermallyFaulted(p) && !i.onoff
    ensures ThermallyFaulted(Tick(p, i)) && Tick(p, i).fault == p.fault
  {
    hide Front, Second, Ntc.Celsius;
    FrontValid(p, i);
    FrontThermal(p, i);
    SecondThermal(Front(p, i).(div1000 := 0));
  }

  /** After E-03 or E-04, at any point of any run, the relay pin is low for the next 6000
      passes (60 s), whatever keys are pressed and whatever the probe reads. */
  lemma ThermalLockout(adc: nat, ins: seq<Input>, i: Input, more: seq<Input>)
    requires !ThermallyFaulted(Run(Boot(adc), ins)) && ThermallyFaulted(Tick(Run(Boot(adc), ins), i))
    requires |more| <= 6000
    ensures !Pin(Run(Tick(Run(Boot(adc), ins), i), more))
  {
    hide Valid, Tick, Boot;
    var p := Run(Boot(adc), ins);
    AlwaysValid(adc, ins);
    ThermalFaultLatches(p, i);
    TickValid(p, i);
    LockHolds(Tick(p, i), more);
  }

  /** Unplug and replug a hot pot: 60 s of lock. */
  lemma HotBootLockout(adc: nat, ins: seq<Input>)
    requires Ntc.Celsius(adc) >= DRYFIRE_TEMP_C && |ins| <= 6000
    ensures !Pin(Run(Boot(adc), ins))
  {
    hide Valid, Run;
    BootValid(adc);
    LockHolds(Boot(adc), ins);
  }

  /** The latch at power-up is exactly the codes at or below 108. */
  lemma HotBootCodes(adc: nat)
    ensures Boot(adc).cooldown == COOLDOWN_SECONDS <==> adc <= 108
  {
    hide Ntc.Celsius;
    Ntc.ThresholdAt(adc, 12);
  }

  // ---------- runs pass by pass ----------

  /** The one-second task of this pass, if there is one, finds the contact closed. */
  predicate ClosedSecond(q: Pot, i: Input)
    requires q.slope.Shaped()
  {
    Due(q) && Front(q, i).heater
  }

  function ClosedSeconds(p: Pot, ins: seq<Input>): nat
    requires p.slope.Shaped()
  {
    if |ins| == 0 then 0
    else ClosedSeconds(p, ins[..|ins| - 1]) + (if ClosedSecond(Run(p, ins[..|ins| - 1]), ins[|ins| - 1]) then 1 else 0)
  }

  function Same(a: nat): Input { Input(false, false, a) }

  function Repeat(a: nat, n: nat): (ins: seq<Input>)
    ensures |ins| == n
  {
    seq(n, _ => Same(a))
  }

  lemma NoKeys(p: Pot, a: nat)
    requires p.slope.Shaped()
    ensures Front(p, Same(a)) == if p.div100 + 1 >= 10 then Control(p.(div100 := 0), a) else p.(div100 := p.div100 + 1)
  {
    hide Control;
  }

  /** A pass before the next control task only handles the keys. */
  lemma KeyTick(p: Pot, i: Input)
    requires p.slope.Shaped() && p.div100 < 9 && p.div1000 < 99
    ensures Tick(p, i) == HandleButtons(p, i.func, i.onoff).(div100 := p.div100 + 1, div1000 := p.div1000 + 1)
  {
    hide PressFunc, PressOnOff, Control, Second;
    ButtonsClock(p, i.func, i.onoff);
    FuncTicks(p);
    OnOffTicks(if i.func then PressFunc(p) else p);
  }

  lemma RunNext(p: Pot, ins: seq<Input>, i: Input)
    requires p.slope.Shaped()
    ensures Run(p, ins + [i]) == Tick(Run(p, ins), i) && Run(p, []) == p
  {
    hide Tick;
    assert (ins + [i])[..|ins|] == ins;
  }

  function Target(m: Mode): nat {
    match m
    case Boil100 => BOIL_TEMP_C
    case Direct55 => 55
    case Direct80 => 80
  }

  /** In HEAT, on a sound code below the target, the control task leaves the contact closed. */
  lemma Energizes(p: Pot, a: nat)
    requires p.state.Heat? && !p.muted && (p.mode.Boil100? ==> !p.boilConfirm)
    requires p.heater || p.relayOff >= RELAY_DWELL_SECONDS
    requires OVERTEMP_RAW < a < NTC_OPEN_RAW && Ntc.Celsius(a) < Target(p.mode)
    ensures Control(p.(div100 := 0), a) == p.(div100 := 0, adc := a, temp := Ntc.Celsius(a), recover := 0, heater := true)
  {
    hide Ntc.Celsius;
    var s := p.(div100 := 0, adc := a, temp := Ntc.Celsius(a), recover := 0);
    assert Sense(p.(div100 := 0), a) == s;
    hide Sense;
    assert Branch(s) == s.(heater := true);
  }

  lemma {:induction false} RunConcat(p: Pot, ins: seq<Input>, more: seq<Input>)
    requires p.slope.Shaped()
    ensures Run(p, ins + more) == Run(Run(p, ins), more)
  {
    hide Tick;
    if |more| == 0 {
      assert ins + more == ins;
    } else {
      RunConcat(p, ins, more[..|more| - 1]);
      assert (ins + more)[..|ins + more| - 1] == ins + more[..|more| - 1];
    }
  }
}
