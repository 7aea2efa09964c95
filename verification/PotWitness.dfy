/** Runs that show the thermostat's bounds are exact, and one that breaks a comment in the source. */
module PotWitness {
  import opened Pot
  import opened PotSafety
  import opened PotRuns
  import opened PotHeat
  import opened PotBackstop
  import Ntc

  // ---------- a frozen probe: cut off after exactly twenty closed seconds ----------

  /** Heating with the contact closed, k clean seconds in, the code stuck at a below 45 C. */
  predicate Frozen(p: Pot, a: nat, k: nat) {
    && Valid(p) && p.state.Heat? && p.heater && !p.boilConfirm && p.adc == a && p.temp < DRYFIRE_TEMP_C
    && p.heatSeconds == k && p.slope.valid == k < SLOPE_ARM_HEAT_SEC && p.slope.prev == a
    && forall j :: 0 <= j < 16 ==> p.slope.ring[j] == a
  }

  lemma FrozenFront(p: Pot, a: nat, k: nat)
    requires Frozen(p, a, k)
    ensures Frozen(Front(p, Input(false, false, a)), a, k)
  {
    hide Ntc.Celsius;
    var i := Input(false, false, a);
    var q := p.(div100 := 0);
    assert Sense(q, a).(recover := 0) == q.(recover := 0);
    assert Branch(Sense(q, a)).(recover := 0) == q.(recover := 0);
    assert Front(p, i).(recover := 0, div100 := 0) == p.(recover := 0, div100 := 0);
    FrontValid(p, i);
  }

  lemma FrozenSlope(p: Pot, a: nat, k: nat)
    requires Frozen(p, a, k)
    ensures k + 1 < SLOPE_ARM_HEAT_SEC ==> Frozen(SlopeTask(p), a, k + 1)
    ensures k + 1 == SLOPE_ARM_HEAT_SEC ==> ThermallyFaulted(SlopeTask(p)) && SlopeTask(p).cooldown == COOLDOWN_SECONDS
  {
    hide Ntc.Celsius;
    SlopeValid(p);
  }

  lemma FrozenWatch(p: Pot, a: nat, k: nat)
    requires Frozen(p, a, k)
    ensures Frozen(OvertempWatch(Cool(RelayClock(p))), a, k)
  {
    hide Ntc.Celsius;
    ClockValid(p);
    OvertempValid(Cool(RelayClock(p)));
  }

  lemma FrozenTick(p: Pot, a: nat, k: nat)
    requires Frozen(p, a, k)
    ensures var q := Tick(p, Input(false, false, a));
      if !Due(p) then Frozen(q, a, k)
      else if k + 1 < SLOPE_ARM_HEAT_SEC then Frozen(q, a, k + 1)
      else ThermallyFaulted(q) && q.cooldown == COOLDOWN_SECONDS
  {
    hide Front, SlopeTask, OvertempWatch, Cool, RelayClock, Ntc.Celsius;
    var i := Input(false, false, a);
    FrozenFront(p, a, k);
    FrontClock(p, i);
    if Due(p) {
      var f := Front(p, i).(div1000 := 0);
      assert Frozen(f, a, k);
      FrozenWatch(f, a, k);
      FrozenSlope(OvertempWatch(Cool(RelayClock(f))), a, k);
    }
  }

  /** Dry fire, in any mode: a code that does not move below 45 C stops the heater at the twentieth
      closed second, not before and not after, and latches the 60 s lock. */
  lemma {:induction false} DryFireCutsAtTwentySeconds(p: Pot, a: nat, ins: seq<Input>)
    requires p.slope.Shaped() && Frozen(p, a, 0) && p.div1000 + |ins| <= 2000
    requires forall j :: 0 <= j < |ins| ==> ins[j] == Input(false, false, a)
    ensures p.div1000 + |ins| < 2000 ==> Frozen(Run(p, ins), a, (p.div1000 + |ins|) / 100)
    ensures p.div1000 + |ins| == 2000 ==>
      ThermallyFaulted(Run(p, ins)) && Run(p, ins).cooldown == COOLDOWN_SECONDS
  {
    hide Tick;
    if |ins| > 0 {
      DryFireCutsAtTwentySeconds(p, a, ins[..|ins| - 1]);
      SecondsAreHundredths(p, ins[..|ins| - 1]);
      FrozenTick(Run(p, ins[..|ins| - 1]), a, (p.div1000 + |ins| - 1) / 100);
    }
  }

  /** Heating has just been started on a pot at code a; the control task has not run yet. */
  predicate Chilled(p: Pot, a: nat, n: nat) {
    && Valid(p) && p.state.Heat? && p.mode.Boil100? && !p.heater && !p.boilConfirm && p.slope == Refill(a) && p.adc == a
    && p.heatSeconds == 0 && p.relayOff == 255 && p.div100 == p.div1000 == n
  }

  const ON := Input(false, true, 0)

  lemma ChilledStart(a: nat)
    requires 108 < a < NTC_OPEN_RAW
    ensures Chilled(Tick(Boot(a), ON), a, 1)
  {
    BootValid(a);
    HotBootCodes(a);
    TickValid(Boot(a), ON);
    KeyTick(Boot(a), ON);
    hide Valid, Tick, Refill, Ntc.Celsius;
  }

  lemma ChilledWait(p: Pot, a: nat, n: nat)
    requires p.slope.Shaped() && Chilled(p, a, n) && n < 9
    ensures Chilled(Tick(p, Same(a)), a, n + 1)
  {
    TickValid(p, Same(a));
    KeyTick(p, Same(a));
    hide Valid, Tick, Refill, Ntc.Celsius;
  }

  lemma ChilledControl(p: Pot, a: nat)
    requires p.slope.Shaped() && Chilled(p, a, 9) && 108 < a < NTC_OPEN_RAW
    ensures Frozen(Tick(p, Same(a)), a, 0)
  {
    TickValid(p, Same(a));
    NoKeys(p, a);
    Ntc.ThresholdAt(a, 12);
    Energizes(p, a);
    Thermometer(p);
    hide Ntc.Celsius, Valid, Control, Front;
  }

  lemma {:induction false} ChilledRuns(a: nat, n: nat)
    requires 108 < a < NTC_OPEN_RAW && n <= 8
    ensures Chilled(Run(Boot(a), [ON] + Repeat(a, n)), a, n + 1)
  {
    hide Tick, Chilled, Boot;
    if n == 0 {
      assert [ON] + Repeat(a, 0) == [] + [ON];
      RunNext(Boot(a), [], ON);
      ChilledStart(a);
    } else {
      assert [ON] + Repeat(a, n) == ([ON] + Repeat(a, n - 1)) + [Same(a)];
      ChilledRuns(a, n - 1);
      RunNext(Boot(a), [ON] + Repeat(a, n - 1), Same(a));
      ChilledWait(Run(Boot(a), [ON] + Repeat(a, n - 1)), a, n);
    }
  }

  /** From power-up at any code a below 45 C, ON and the first control task lead there. */
  lemma FrozenReachable(a: nat)
    requires 108 < a < NTC_OPEN_RAW
    ensures var p := Run(Boot(a), [ON] + Repeat(a, 9)); Frozen(p, a, 0) && p.div1000 == 10
  {
    var ins := [ON] + Repeat(a, 8);
    assert [ON] + Repeat(a, 9) == ins + [Same(a)];
    ChilledRuns(a, 8);
    RunNext(Boot(a), ins, Same(a));
    ChilledControl(Run(Boot(a), ins), a);
    SecondsAreHundredths(Boot(a), ins + [Same(a)]);
    hide *;
  }

  /** So with the probe stuck at any such code the heater is cut 1990 passes later, after twenty closed seconds. */
  lemma StuckProbeCutsOff(a: nat)
    requires 108 < a < NTC_OPEN_RAW
    ensures var p := Run(Boot(a), [ON] + Repeat(a, 9));
      && (forall n: nat :: n < 1990 ==> Run(p, Repeat(a, n)).heater)
      && ThermallyFaulted(Run(p, Repeat(a, 1990))) && Run(p, Repeat(a, 1990)).cooldown == COOLDOWN_SECONDS
  {
    FrozenReachable(a);
    var p := Run(Boot(a), [ON] + Repeat(a, 9));
    hide Run, Tick, Boot;
    forall n: nat | n < 1990 ensures Run(p, Repeat(a, n)).heater {
      DryFireCutsAtTwentySeconds(p, a, Repeat(a, n));
    }
    DryFireCutsAtTwentySeconds(p, a, Repeat(a, 1990));
  }

  // ---------- the 1652-second bound is attained ----------

  /** Codes of second s: two cold-water jumps, then a clean second back at the start. */
  function Code(s: nat): (c: nat)
    ensures c >= 571
  {
    if s % 3 == 0 then 641 else if s % 3 == 1 then 682 else 600
  }

  /** The code last seen by the slope task after s seconds. */
  function Last(s: nat): nat {
    if s % 3 == 0 then 600 else if s % 3 == 1 then 641 else 682
  }

  function Key(): Input { Input(false, true, 600) }

  /** Press ON, then n passes of the storm. */
  function Storm(n: nat): (ins: seq<Input>)
    ensures |ins| == n
    ensures forall k :: 0 <= k < n ==> !ins[k].func && !ins[k].onoff
  {
    seq(n, (k: nat) => Input(false, false, Code((k + 1) / 100)))
  }

  function Started(): (p: Pot)
    ensures p.slope.Shaped()
  {
    Tick(Boot(600), Key())
  }

  /** n passes after power-up, the first of which pressed ON. */
  predicate Stormy(p: Pot, n: nat) {
    var s := n / 100;
    && Valid(p) && p.state.Heat? && p.mode.Boil100? && !p.boilConfirm
    && p.div100 == n % 10 && p.div1000 == n % 100
    && (n < 10 ==> p.relayOff == 255) && p.heater == (n >= 10)
    && p.glitch == s % 3 && p.heatSeconds == s / 3
    && p.slope.prev == Last(s) && p.slope.valid == (if s % 3 == 0 && s > 0 then 1 else 0)
    && p.adc >= 571
  }

  lemma ColdReading(code: nat)
    requires code >= 571
    ensures Ntc.Celsius(code) == 5
  {
    Ntc.TableEnds();
  }

  lemma StormStarts()
    ensures Stormy(Started(), 1)
  {
    hide Ntc.Celsius;
    ColdReading(600);
    BootValid(600);
    TickValid(Boot(600), Key());
  }

  lemma StormFront(p: Pot, n: nat, i: Input)
    requires Stormy(p, n) && n >= 1 && !i.func && !i.onoff && i.adc == Code(n / 100)
    ensures var q := Front(p, i);
      Valid(q) && q.state.Heat? && q.mode.Boil100? && !q.boilConfirm && q.temp == 5
      && q.div100 == (n + 1) % 10 && q.div1000 == p.div1000 && q.heater == (n + 1 >= 10)
      && (n + 1 < 10 ==> q.relayOff == 255) && q.glitch == p.glitch && q.heatSeconds == p.heatSeconds && q.slope == p.slope
      && q.adc >= 571 && ((n + 1) % 10 == 0 ==> q.adc == i.adc)
  {
    ColdReading(i.adc);
    ColdReading(p.adc);
    FrontValid(p, i);
    assert i == Same(i.adc) && i.adc < NTC_OPEN_RAW;
    NoKeys(p, i.adc);
    if p.div100 == 9 {
      Energizes(p, i.adc);
    }
    assert p.temp == 5 by { Thermometer(p); }
    hide Ntc.Celsius, Front, Control, Valid;
  }

  lemma StormSlope(p: Pot, s: nat)
    requires Valid(p) && p.state.Heat? && p.heater && p.mode.Boil100? && p.temp == 5
    requires p.glitch == s % 3 && p.heatSeconds == s / 3 && p.slope.prev == Last(s) && p.slope.valid == (if s % 3 == 0 && s > 0 then 1 else 0) && p.adc == Code(s)
    requires s < 1652
    ensures var q := SlopeTask(p);
      q.state.Heat? && q.heater && q.mode == p.mode && q.boilConfirm == p.boilConfirm
      && q.glitch == (s + 1) % 3 && q.heatSeconds == (s + 1) / 3 && q.slope.prev == Last(s + 1) && q.slope.valid == (if (s + 1) % 3 == 0 then 1 else 0)
      && q.adc == p.adc && q.div100 == p.div100 && q.div1000 == p.div1000
  {
    hide Ntc.Celsius;
    if s % 3 == 0 {
      assert (s + 1) % 3 == 1 && (s + 1) / 3 == s / 3;
    } else if s % 3 == 1 {
      assert (s + 1) % 3 == 2 && (s + 1) / 3 == s / 3;
    } else {
      assert (s + 1) % 3 == 0 && (s + 1) / 3 == s / 3 + 1;
      assert s / 3 + 1 <= 550;
    }
  }

  lemma StormWatch(p: Pot)
    requires Valid(p) && p.state.Heat? && p.heater
    ensures OvertempWatch(Cool(RelayClock(p))) == p.(relayOff := 0, overtemp := 0)
  {
  }

  lemma StormTick(p: Pot, n: nat, i: Input)
    requires Stormy(p, n) && 1 <= n < 165299 && !i.func && !i.onoff && i.adc == Code(n / 100)
    ensures Stormy(Tick(p, i), n + 1)
    ensures Due(p) <==> (n + 1) % 100 == 0
    ensures Front(p, i).heater == (n + 1 >= 10)
  {
    hide Front, SlopeTask, OvertempWatch, Cool, RelayClock, Valid, Ntc.Celsius;
    assert p.slope.Shaped() by { Unfold(p); }
    StormFront(p, n, i);
    TickValid(p, i);
    if (n + 1) % 100 == 0 {
      assert (n + 1) % 10 == 0 && (n + 1) / 100 == n / 100 + 1;
      var f := Front(p, i).(div1000 := 0);
      assert Valid(f) by { ResetClockValid(Front(p, i)); }
      StormWatch(f);
      var w := f.(relayOff := 0, overtemp := 0);
      assert Valid(w) by { WatchedValid(f); }
      StormSlope(w, n / 100);
    } else {
      assert (n + 1) / 100 == n / 100;
    }
  }

  lemma WatchedValid(p: Pot)
    requires Valid(p) && p.state.Heat?
    ensures Valid(p.(relayOff := 0, overtemp := 0))
  {
  }

  const STORM_CODES := iset{600, 641, 682}

  lemma {:induction false} StormRuns(n: nat)
    requires n < 165299
    ensures Stormy(Run(Started(), Storm(n)), n + 1)
    ensures Episode(Started(), Boil100, STORM_CODES, Storm(n)) && ClosedSeconds(Started(), Storm(n)) == (n + 1) / 100
  {
    hide Stormy, Tick, Front, Due, Started;
    if n == 0 {
      StormStarts();
      StormyIsHeating(Started());
    } else {
      StormRuns(n - 1);
      var q, i := Run(Started(), Storm(n - 1)), Storm(n)[n - 1];
      assert Storm(n)[..n - 1] == Storm(n - 1);
      StormTick(q, n, i);
      StormyIsHeating(Tick(q, i));
      if (n + 1) % 100 == 0 {
        assert (n + 1) / 100 == n / 100 + 1;
      } else {
        assert (n + 1) / 100 == n / 100;
      }
    }
  }

  lemma StormyIsHeating(p: Pot)
    ensures forall n :: Stormy(p, n) ==> p.state.Heat? && p.mode.Boil100?
  {
  }

  lemma LastStormPass(p: Pot, i: Input)
    requires p.slope.Shaped() && Stormy(p, 165299) && !i.func && !i.onoff && i.adc == Code(1652)
    ensures ClosedSecond(p, i)
  {
    hide Front, Valid, Ntc.Celsius;
    StormFront(p, 165299, i);
  }

  /** A reachable HEAT episode in which exactly 1652 one-second tasks find the contact closed, and the
      next one finds it closed as well. */
  lemma BackstopBoundIsExact()
    ensures var ins := Storm(165298);
      && Episode(Started(), Boil100, STORM_CODES, ins) && ClosedSeconds(Started(), ins) == 1652
      && ClosedSeconds(Started(), Storm(165299)) == 1653
  {
    hide Stormy, Episode, Run, Started, ClosedSecond;
    StormRuns(165298);
    assert Storm(165299)[..165298] == Storm(165298);
    LastStormPass(Run(Started(), Storm(165298)), Storm(165299)[165298]);
  }

  // ---------- a sub-second pulse escapes the dwell ----------

  /** ON in pass 1, OFF in pass 11, ON again in pass 15, cold water throughout. */
  function Toggles(n: nat): (ins: seq<Input>)
    ensures |ins| == n
  {
    seq(n, k => Input(false, k == 0 || k == 10 || k == 14, 600))
  }

  /** Passes since power-up with the contact not yet sampled by any one-second task. */
  predicate Toggling(p: Pot, n: nat) {
    && Valid(p) && p.div100 == n % 10 && p.div1000 == n && p.relayOff == 255 && p.cooldown == 0 && p.adc == 600
    && !p.boilConfirm && !p.muted && p.mode.Boil100?
    && p.state == (if n == 0 || 11 <= n < 15 then Off else Heat)
    && p.heater == (n == 10 || n == 20)
  }

  lemma ToggleTick(p: Pot, n: nat)
    requires Toggling(p, n) && n < 20
    ensures Toggling(Tick(p, Input(false, n == 0 || n == 10 || n == 14, 600)), n + 1)
  {
    hide Ntc.Celsius, Refill;
    var i := Input(false, n == 0 || n == 10 || n == 14, 600);
    ColdReading(600);
    TickValid(p, i);
    var b := HandleButtons(p, i.func, i.onoff);
    assert b.heater == false && b.adc == 600 && b.temp == 5 && b.relayOff == 255;
    if n % 10 == 9 {
      var r := b.(div100 := 0);
      assert Sense(r, 600) == r.(recover := 0);
    }
  }

  lemma {:induction false} ToggleRuns(n: nat)
    requires n <= 20
    ensures Toggling(Run(Boot(600), Toggles(n)), n)
  {
    hide Tick;
    ColdReading(600);
    if n == 0 {
      BootValid(600);
    } else {
      ToggleRuns(n - 1);
      assert Toggles(n)[..n - 1] == Toggles(n - 1);
      ToggleTick(Run(Boot(600), Toggles(n - 1)), n - 1);
    }
  }

  /** Contrary to the comment at the dwell gate, a rapid OFF-ON toggle can reclose the contact at
      once: closed after pass 10, open after pass 11, closed again after pass 20 (90 ms later),
      because no one-second task saw the first pulse. */
  lemma RapidToggleRecloses()
    ensures Run(Boot(600), Toggles(10)).heater
    ensures !Run(Boot(600), Toggles(11)).heater
    ensures Run(Boot(600), Toggles(20)).heater
  {
    hide Run, Boot;
    ToggleRuns(10);
    ToggleRuns(11);
    ToggleRuns(20);
  }
}
