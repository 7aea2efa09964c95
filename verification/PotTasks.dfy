/** The tasks of health_pot.c as they are written, updating the firmware's variables in place.
    Each is proved to compute the corresponding function of Pot. */
module PotTasks {
  import opened Spec = Pot
  import PotSafety
  import PotRuns
  import Ntc

  /** adc_read_filtered: sort three raw reads with three swaps and keep the middle one. */
  method ReadFiltered(r0: nat, r1: nat, r2: nat) returns (m: nat)
    ensures m == r0 || m == r1 || m == r2
    ensures (r0 <= m && r1 <= m) || (r0 <= m && r2 <= m) || (r1 <= m && r2 <= m)
    ensures (r0 >= m && r1 >= m) || (r0 >= m && r2 >= m) || (r1 >= m && r2 >= m)
  {
    var a, b, c := r0, r1, r2;
    if a > b { a, b := b, a; }
    if b > c { b, c := c, b; }
    if a > b { a, b := b, a; }
    return b;
  }

  class HealthPot {
    var state: State
    var tempC: nat
    var adcCode: nat
    var faultCode: nat
    var warmSet: nat
    var heatMode: Mode
    var heaterOn: bool
    var relayOffSec: nat
    var cooldownSeconds: nat
    var heatSeconds: nat
    var boilHold: nat
    var boilConfirm: bool
    var overtempSeconds: nat
    var recoverTicks: nat
    var sensorMuted: bool
    var div100ms: nat
    var div1000ms: nat
    const adcHist: array<nat>
    var adcHistIdx: nat
    var adcPrev1s: nat
    var glitchCnt: nat
    var slopeValidSec: nat

    predicate Shaped()
      reads this, adcHist
    {
      adcHist.Length == 16 && adcHistIdx < 16 && slopeValidSec <= 255
    }

    /** The dry-fire detector's part of the state. */
    function Ring(): (s: Slope)
      reads adcHist, this`adcHistIdx, this`adcPrev1s, this`slopeValidSec
      ensures adcHist.Length == 16 && adcHistIdx < 16 && slopeValidSec <= 255 <==> s.Shaped()
    {
      Slope(adcHist[..], adcHistIdx, adcPrev1s, slopeValidSec)
    }

    lemma RingFields()
      ensures Ring().prev == adcPrev1s && Ring().idx == adcHistIdx && Ring().valid == slopeValidSec
    {
    }

    function View(): (p: Pot)
      reads this, adcHist
    {
      Pot(state, tempC, adcCode, faultCode, warmSet, heatMode, heaterOn, relayOffSec, cooldownSeconds, heatSeconds,
          boilHold, boilConfirm, overtempSeconds, recoverTicks, sensorMuted, div100ms, div1000ms, glitchCnt, Ring())
    }

    /** Power-up, steps 7b and 9 of main. */
    constructor (adc: nat)
      ensures Shaped() && fresh(adcHist) && View() == Boot(adc)
    {
      hide Ntc.Celsius, Refill;
      var t := Ntc.CodeToTemp(adc);
      adcCode := adc;
      tempC := t;
      cooldownSeconds := if t >= DRYFIRE_TEMP_C then COOLDOWN_SECONDS else 0;
      state := Off;
      faultCode := 0;
      warmSet := WARM_DEFAULT_C;
      heatMode := Boil100;
      heaterOn := false;
      relayOffSec := 255;
      heatSeconds := 0;
      boilHold := 0;
      boilConfirm := false;
      overtempSeconds := 0;
      recoverTicks := 0;
      sensorMuted := false;
      div100ms := 0;
      div1000ms := 0;
      glitchCnt := 0;
      adcHist := new nat[16];
      new;
      HeatSlopeReset();
    }

    method ClearBoil()
      modifies this`boilConfirm, this`boilHold, this`overtempSeconds
      ensures View() == old(View()).(boilConfirm := false, boilHold := 0, overtemp := 0)
    {
      hide Ring;
      boilConfirm := false;
      boilHold := 0;
      overtempSeconds := 0;
    }

    method ClearFault()
      modifies this`faultCode, this`sensorMuted, this`recoverTicks
      ensures View() == old(View()).(fault := 0, muted := false, recover := 0)
    {
      hide Ring;
      faultCode := 0;
      sensorMuted := false;
      recoverTicks := 0;
    }

    method NewFault(code: nat)
      modifies this`state, this`faultCode, this`heaterOn, this`recoverTicks
      ensures View() == old(View()).(state := Fault, fault := code, heater := false, recover := 0)
    {
      hide Ring;
      state := Fault;
      faultCode := code;
      heaterOn := false;
      recoverTicks := 0;
    }

    method EnterFault(code: nat)
      modifies this`state, this`faultCode, this`heaterOn, this`cooldownSeconds, this`recoverTicks
      ensures View() == Spec.EnterFault(old(View()), code)
    {
      hide Ring;
      if code == 3 || code == 4 {
        cooldownSeconds := COOLDOWN_SECONDS;
      }
      if state.Fault? {
        heaterOn := false;
        if faultCode != 3 && faultCode != 4 {
          faultCode := code;
        }
        return;
      }
      NewFault(code);
    }

    method HeatSlopeReset()
      requires adcHist.Length == 16
      modifies this`adcHistIdx, this`adcPrev1s, this`slopeValidSec, adcHist
      ensures Shaped() && View() == SlopeReset(old(View()))
    {
      for i := 0 to 16
        invariant forall k :: 0 <= k < i ==> adcHist[k] == adcCode
      {
        adcHist[i] := adcCode;
      }
      adcHistIdx := 0;
      adcPrev1s := adcCode;
      slopeValidSec := 0;
      assert adcHist[..] == Refill(adcCode).ring;
    }

    method RotateRing() returns (adcOld: nat)
      requires Shaped()
      modifies this`adcHistIdx, this`adcPrev1s, this`slopeValidSec, adcHist
      ensures Shaped() && Ring() == Shift(old(Ring()), adcCode) && adcOld == old(Ring()).ring[adcHistIdx]
    {
      adcPrev1s := adcCode;
      adcHistIdx := (adcHistIdx + 1) % 16;
      adcOld := adcHist[adcHistIdx];
      adcHist[adcHistIdx] := adcCode;
      if slopeValidSec < 255 {
        slopeValidSec := slopeValidSec + 1;
      }
    }

    method ShiftRing() returns (adcOld: nat)
      requires Shaped()
      modifies this`adcHistIdx, this`adcPrev1s, this`slopeValidSec, this`glitchCnt, this`heatSeconds, adcHist
      ensures Shaped() && View() == CleanSecond(old(View())) && adcOld == old(View()).slope.ring[View().slope.idx]
    {
      hide Shift;
      RingFields();
      adcOld := RotateRing();
      RingFields();
      hide Ring;
      glitchCnt := 0;
      heatSeconds := U16(heatSeconds + 1);
    }

    method TimeoutBackstop()
      requires Shaped()
      modifies this
      ensures Shaped() && View() == Backstop(old(View()))
    {
      hide Ring;
      if heatSeconds > DRYFIRE_SECONDS && tempC < DRYFIRE_TEMP_C {
        EnterFault(3);
      }
      assert View().slope == old(View()).slope;
      if heatMode.Boil100? && heatSeconds > BOIL_TIMEOUT_SECONDS && tempC < BOIL_TEMP_C {
        EnterFault(3);
      }
      assert View().slope == old(View()).slope;
    }

    method SlopeVerdict(adcOld: nat)
      requires Shaped()
      modifies this
      ensures Shaped() && View() == if DryFire(old(View()), adcOld) then Spec.EnterFault(old(View()), 3) else Backstop(old(View()))
    {
      hide Ring, Spec.EnterFault, Backstop;
      RingFields();
      if heatSeconds >= SLOPE_ARM_HEAT_SEC && slopeValidSec >= SLOPE_WINDOW_SEC && tempC < DRYFIRE_TEMP_C {
        if adcOld <= adcCode || adcOld - adcCode < SLOPE_MIN_DELTA {
          EnterFault(3);
          return;
        }
      }
      TimeoutBackstop();
    }

    method GlitchGuard()
      requires Shaped()
      modifies this, adcHist
      ensures Shaped() && View() == Glitch(old(View()))
    {
      hide Ring, Refill, Spec.EnterFault;
      glitchCnt := U8(glitchCnt + 1);
      if glitchCnt >= GLITCH_TRIP_COUNT {
        EnterFault(1);
        return;
      }
      HeatSlopeReset();
    }

    method HeatSlopeTask()
      requires Shaped()
      modifies this, adcHist
      ensures Shaped() && View() == SlopeTask(old(View()))
    {
      hide Ring, Glitch, CleanSecond, Spec.EnterFault, Backstop, DryFire;
      RingFields();
      if !state.Heat? || !heaterOn {
        return;
      }
      if adcCode > adcPrev1s && adcCode - adcPrev1s > COLDWATER_JUMP {
        GlitchGuard();
        return;
      }
      var adcOld := ShiftRing();
      SlopeVerdict(adcOld);
    }

    method EnterWarm()
      modifies this
      ensures View() == ToWarm(old(View()))
      ensures Ring() == old(Ring())
    {
      hide Ring;
      heaterOn := false;
      state := Warm;
      ClearBoil();
    }

    /** Every HEAT entry: restart the seconds and refill the detector. */
    method FreshHeat()
      requires adcHist.Length == 16
      modifies this, adcHist
      ensures Shaped() && View() == SlopeReset(old(View()).(heatSeconds := 0, glitch := 0))
    {
      hide Ring, Refill;
      heatSeconds := 0;
      glitchCnt := 0;
      HeatSlopeReset();
    }

    method AdvanceMode()
      requires Shaped()
      modifies this
      ensures Shaped() && View() == ModeInHeat(old(View()))
    {
      hide Ring;
      if heatMode.Boil100? {
        heatMode := Direct55;
        warmSet := 55;
        if tempC >= 55 {
          EnterWarm();
        }
      } else if heatMode.Direct55? {
        heatMode := Direct80;
        warmSet := 80;
        if tempC >= 80 {
          EnterWarm();
        }
      } else {
        heatMode := Boil100;
      }
    }

    method OnFuncInHeat()
      requires Shaped()
      modifies this, adcHist
      ensures Shaped() && View() == FuncInHeat(old(View()))
    {
      hide Ring, Refill, ModeInHeat;
      AdvanceMode();
      FreshHeat();
    }

    method OnFuncInWarm()
      requires Shaped()
      modifies this, adcHist
      ensures Shaped() && View() == FuncInWarm(old(View()))
    {
      hide Ring, Refill;
      if warmSet == 55 {
        warmSet := 60;
      } else if warmSet == 60 {
        warmSet := 80;
      } else if warmSet == 80 {
        warmSet := 90;
      } else if cooldownSeconds == 0 {
        Reboil();
      }
    }

    method Reboil()
      requires Shaped()
      modifies this, adcHist
      ensures Shaped() && View() == SlopeReset(old(View()).(state := Heat, mode := Boil100, warmSet := WARM_DEFAULT_C,
        heatSeconds := 0, boilConfirm := false, boilHold := 0, overtemp := 0, glitch := 0))
    {
      hide Ring, Refill;
      state := Heat;
      heatMode := Boil100;
      warmSet := WARM_DEFAULT_C;
      ClearBoil();
      FreshHeat();
    }

    method OnFunc()
      requires Shaped()
      modifies this, adcHist
      ensures Shaped() && View() == PressFunc(old(View()))
    {
      hide Ring, FuncInHeat, FuncInWarm;
      if state.Off? {
        if heatMode.Boil100? {
          heatMode := Direct55;
        } else if heatMode.Direct55? {
          heatMode := Direct80;
        } else {
          heatMode := Boil100;
        }
      } else if state.Heat? {
        OnFuncInHeat();
      } else if state.Warm? {
        OnFuncInWarm();
      }
    }

    method SetStartSetpoint()
      modifies this`warmSet
      ensures View() == old(View()).(warmSet := StartSetpoint(heatMode))
    {
      hide Ring;
      if heatMode.Direct55? {
        warmSet := 55;
      } else if heatMode.Direct80? {
        warmSet := 80;
      } else {
        warmSet := WARM_DEFAULT_C;
      }
    }

    method BeginHeat()
      requires Shaped()
      modifies this, adcHist
      ensures Shaped() && View() == SlopeReset(old(View()).(state := Heat, fault := 0, muted := false,
        warmSet := StartSetpoint(heatMode), boilHold := 0, boilConfirm := false, heatSeconds := 0, overtemp := 0, glitch := 0))
    {
      hide Ring, Refill, StartSetpoint;
      state := Heat;
      faultCode := 0;
      sensorMuted := false;
      SetStartSetpoint();
      ClearBoil();
      FreshHeat();
    }

    method OnStart()
      requires Shaped()
      modifies this, adcHist
      ensures Shaped() && View() == Start(old(View()))
    {
      hide Ring, Refill, Spec.EnterFault, StartSetpoint;
      if cooldownSeconds > 0 {
        return;
      }
      if adcCode >= NTC_OPEN_RAW || adcCode <= NTC_SHORT_RAW {
        sensorMuted := false;
        EnterFault(if adcCode >= NTC_OPEN_RAW then 1 else 2);
        return;
      }
      BeginHeat();
    }

    method OnStandBy()
      requires Shaped()
      modifies this
      ensures Shaped() && View() == StandBy(old(View()))
    {
      hide Ring;
      state := Off;
      heaterOn := false;
      heatSeconds := 0;
      heatMode := Boil100;
      ClearBoil();
    }

    method OnAcknowledge()
      requires Shaped()
      modifies this
      ensures Shaped() && View() == Acknowledge(old(View()))
    {
      hide Ring;
      if faultCode == 3 || faultCode == 4 {
        state := Off;
        heatSeconds := 0;
        overtempSeconds := 0;
        heatMode := Boil100;
        ClearFault();
      } else {
        AcknowledgeSensor();
      }
    }

    method AcknowledgeSensor()
      requires Shaped()
      modifies this
      ensures Shaped() && View() == old(View()).(state := Off, muted := true, heater := false, mode := Boil100)
    {
      hide Ring;
      state := Off;
      sensorMuted := true;
      heaterOn := false;
      heatMode := Boil100;
    }

    method OnOnOff()
      requires Shaped()
      modifies this, adcHist
      ensures Shaped() && View() == PressOnOff(old(View()))
    {
      hide Ring, Start, StandBy, Acknowledge;
      if state.Off? {
        OnStart();
      } else if state.Heat? || state.Warm? {
        OnStandBy();
      } else {
        OnAcknowledge();
      }
    }

    method HandleButtons(evtFunc: bool, evtOnOff: bool)
      requires Shaped()
      modifies this, adcHist
      ensures Shaped() && View() == Spec.HandleButtons(old(View()), evtFunc, evtOnOff)
    {
      hide Ring;
      if evtFunc {
        OnFunc();
      }
      if evtOnOff {
        OnOnOff();
      }
    }

    method JudgeProbe()
      requires Shaped()
      modifies this`state, this`faultCode, this`heaterOn, this`cooldownSeconds, this`recoverTicks
      ensures Shaped() && View() == Judge(old(View()))
    {
      hide Ring, Spec.EnterFault;
      if adcCode >= NTC_OPEN_RAW {
        if state.Off? && sensorMuted {
          faultCode := 1;
        } else {
          EnterFault(1);
        }
      } else if adcCode <= NTC_SHORT_RAW {
        if state.Off? && sensorMuted {
          faultCode := 2;
        } else {
          EnterFault(2);
        }
      }
    }

    method CountStreak()
      requires Shaped()
      modifies this`recoverTicks
      ensures Shaped() && View() == Streak(old(View()))
    {
      hide Ring;
      if adcCode > NTC_SHORT_RAW && adcCode < NTC_OPEN_RAW
         && ((state.Fault? && (faultCode == 1 || faultCode == 2)) || (state.Off? && sensorMuted))
      {
        if recoverTicks < 255 {
          recoverTicks := recoverTicks + 1;
        }
      } else {
        recoverTicks := 0;
      }
    }

    method SampleProbe(raw: nat)
      requires Shaped()
      modifies this`adcCode, this`tempC, this`state, this`faultCode, this`heaterOn, this`cooldownSeconds, this`recoverTicks
      ensures Shaped() && View() == Sense(old(View()), raw)
    {
      hide Ring, Ntc.Celsius, Judge, Streak;
      ReadProbe(raw);
      JudgeProbe();
      CountStreak();
    }

    method ReadProbe(raw: nat)
      requires Shaped()
      modifies this`adcCode, this`tempC
      ensures Shaped() && View() == Read(old(View()), raw)
    {
      hide Ring, Ntc.Celsius;
      adcCode := raw;
      tempC := Ntc.CodeToTemp(adcCode);
    }

    method DirectCase(target: nat)
      requires Shaped()
      modifies this
      ensures Shaped() && View() == if old(View()).temp >= target then ToWarm(old(View())).(warmSet := target) else Demand(old(View()))
    {
      hide Ring;
      if tempC >= target {
        EnterWarm();
        warmSet := target;
      } else if relayOffSec >= RELAY_DWELL_SECONDS {
        heaterOn := true;
      }
    }

    method ConfirmBoil()
      requires Shaped()
      modifies this
      ensures Shaped() && View() == BoilTick(old(View()))
    {
      hide Ring;
      heaterOn := false;
      boilConfirm := true;
      boilHold := U8(boilHold + 1);
      if boilHold >= BOIL_HOLD_TICKS {
        BoilDone();
      }
    }

    method BoilDone()
      requires Shaped()
      modifies this
      ensures Shaped() && View() == old(View()).(state := Warm, boilConfirm := false, overtemp := 0)
    {
      hide Ring;
      state := Warm;
      boilConfirm := false;
      overtempSeconds := 0;
    }

    method HeatCase()
      requires Shaped()
      modifies this
      ensures Shaped() && View() == HeatBranch(old(View()))
    {
      hide Ring, BoilTick, ToWarm;
      if heatMode.Direct55? {
        DirectCase(55);
      } else if heatMode.Direct80? {
        DirectCase(80);
      } else if (boilConfirm || tempC >= BOIL_TEMP_C) && adcCode > OVERTEMP_RAW {
        ConfirmBoil();
      } else if relayOffSec >= RELAY_DWELL_SECONDS {
        heaterOn := true;
      }
    }

    method OffCase()
      requires Shaped()
      modifies this
      ensures Shaped() && View() == OffBranch(old(View()))
    {
      hide Ring;
      heaterOn := false;
      heatSeconds := 0;
      ClearBoil();
      if sensorMuted && recoverTicks >= FAULT_RECOVER_TICKS {
        ClearFault();
      }
    }

    method WarmCase()
      requires Shaped()
      modifies this
      ensures Shaped() && View() == WarmBranch(old(View()))
    {
      hide Ring;
      if warmSet > WARM_HYST_C && tempC < warmSet - WARM_HYST_C {
        if relayOffSec >= RELAY_DWELL_SECONDS {
          heaterOn := true;
        }
      } else if tempC > U8(warmSet + WARM_HYST_C) {
        heaterOn := false;
      }
    }

    method FaultCase()
      requires Shaped()
      modifies this
      ensures Shaped() && View() == FaultBranch(old(View()))
    {
      hide Ring;
      heaterOn := false;
      if faultCode != 3 && faultCode != 4 {
        if recoverTicks >= FAULT_RECOVER_TICKS {
          state := Off;
          ClearFault();
        }
      }
    }

    method StateSwitch()
      requires Shaped()
      modifies this
      ensures Shaped() && View() == Branch(old(View()))
    {
      hide Ring, OffBranch, HeatBranch, WarmBranch, FaultBranch;
      match state {
        case Off => OffCase();
        case Heat => HeatCase();
        case Warm => WarmCase();
        case Fault => FaultCase();
      }
    }

    method ControlTask(raw: nat)
      requires Shaped()
      modifies this
      ensures Shaped() && View() == Control(old(View()), raw)
    {
      hide Ring, Sense, Branch;
      SampleProbe(raw);
      StateSwitch();
      if (state.Heat? || state.Warm?) && adcCode <= OVERTEMP_RAW {
        heaterOn := false;
      }
    }

    method RelayTimer()
      requires Shaped()
      modifies this`relayOffSec
      ensures View() == RelayClock(old(View()))
    {
      hide Ring;
      if heaterOn {
        relayOffSec := 0;
      } else if relayOffSec < 255 {
        relayOffSec := relayOffSec + 1;
      }
    }

    method OvertempTimer()
      requires Shaped()
      modifies this`overtempSeconds, this`state, this`faultCode, this`heaterOn, this`cooldownSeconds, this`recoverTicks
      ensures View() == OvertempWatch(old(View()))
    {
      hide Ring, Spec.EnterFault;
      if (state.Heat? || state.Warm?) && adcCode > NTC_SHORT_RAW && adcCode <= OVERTEMP_RAW {
        overtempSeconds := U8(overtempSeconds + 1);
        if overtempSeconds >= OVERTEMP_SECONDS {
          EnterFault(4);
        }
      } else {
        overtempSeconds := 0;
      }
    }

    method OneSecondTask()
      requires Shaped()
      modifies this, adcHist
      ensures Shaped() && View() == Second(old(View()))
    {
      hide Ring, RelayClock, OvertempWatch, SlopeTask;
      RelayTimer();
      if cooldownSeconds > 0 {
        cooldownSeconds := cooldownSeconds - 1;
      }
      assert View() == Cool(RelayClock(old(View())));
      OvertempTimer();
      HeatSlopeTask();
    }

    /** One pass of the super-loop; the result is the level of the HEATER pin. */
    method Pass(i: Input) returns (pin: bool)
      requires Shaped()
      modifies this, adcHist
      ensures Shaped() && View() == Tick(old(View()), i) && pin == Pin(View())
      ensures PotSafety.Valid(old(View())) ==> PotSafety.Valid(View()) && pin == heaterOn
    {
      hide Ring, Spec.HandleButtons, Control, Second, PotSafety.Valid;
      pin := Advance(i);
      if PotSafety.Valid(old(View())) {
        PotSafety.TickValid(old(View()), i);
        ValidPin(View());
      }
    }

    method FrontPass(i: Input)
      requires Shaped()
      modifies this, adcHist
      ensures Shaped() && View() == Front(old(View()), i)
    {
      hide Ring, Spec.HandleButtons, Control;
      HandleButtons(i.func, i.onoff);
      div100ms := div100ms + 1;
      if div100ms >= 10 {
        div100ms := 0;
        ControlTask(i.adc);
      }
    }

    method Advance(i: Input) returns (pin: bool)
      requires Shaped()
      modifies this, adcHist
      ensures Shaped() && View() == Tick(old(View()), i) && pin == Pin(View())
    {
      hide Ring, Front, Second;
      FrontPass(i);
      div1000ms := div1000ms + 1;
      if div1000ms >= 100 {
        div1000ms := 0;
        OneSecondTask();
      }
      pin := if cooldownSeconds > 0 then false else heaterOn;
    }

    lemma ValidPin(p: Pot)
      requires PotSafety.Valid(p)
      ensures Pin(p) == p.heater
    {
    }
  }
}
