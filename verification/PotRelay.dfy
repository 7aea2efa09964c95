/** The relay dwell over whole runs: what relay_off_sec counts, and when the contact may close again. */
module PotRelay {
  import opened Pot
  import opened PotSafety
  import opened PotRuns
  import Ntc

  // ---------- relay dwell ----------

  /** What each one-second task so far saw of the contact. */
  function Samples(p: Pot, ins: seq<Input>): seq<bool>
    requires p.slope.Shaped()
  {
    if |ins| == 0 then []
    else
      var q, i := Run(p, ins[..|ins| - 1]), ins[|ins| - 1];
      Samples(p, ins[..|ins| - 1]) + (if Due(q) then [Front(q, i).heater] else [])
  }

  /** Open samples since the last closed one. */
  function OpenTail(s: seq<bool>): (n: nat)
    ensures n <= |s| && forall j :: |s| - n <= j < |s| ==> !s[j]
  {
    if |s| == 0 || s[|s| - 1] then 0 else OpenTail(s[..|s| - 1]) + 1
  }

  /** What relay_off_sec must be after these samples, starting from 255 at power-up. */
  function Dwell(s: seq<bool>): nat {
    if |s| == 0 then 255
    else if s[|s| - 1] then 0
    else if Dwell(s[..|s| - 1]) < 255 then Dwell(s[..|s| - 1]) + 1
    else 255
  }

  lemma {:induction false} DwellCountsOpenTail(s: seq<bool>)
    ensures Dwell(s) < 255 ==> Dwell(s) == OpenTail(s)
    ensures Dwell(s) == 255 ==> OpenTail(s) == |s| || OpenTail(s) >= 255
  {
    if |s| > 0 {
      DwellCountsOpenTail(s[..|s| - 1]);
    }
  }

  lemma SecondRelay(p: Pot)
    requires p.slope.Shaped()
    ensures Second(p).relayOff == if p.heater then 0 else if p.relayOff < 255 then p.relayOff + 1 else p.relayOff
  {
    SlopeRest(OvertempWatch(Cool(RelayClock(p))));
    OvertempRest(Cool(RelayClock(p)));
    hide SlopeTask, OvertempWatch;
  }

  lemma {:induction false} RelayClockIsDwell(adc: nat, ins: seq<Input>)
    ensures Run(Boot(adc), ins).relayOff == Dwell(Samples(Boot(adc), ins)) <= 255
  {
    hide Front, Second, Ntc.Celsius;
    if |ins| > 0 {
      var q, i := Run(Boot(adc), ins[..|ins| - 1]), ins[|ins| - 1];
      RelayClockIsDwell(adc, ins[..|ins| - 1]);
      FrontClock(q, i);
      SecondRelay(Front(q, i).(div1000 := 0));
      var s := Samples(Boot(adc), ins[..|ins| - 1]);
      assert (s + [Front(q, i).heater])[..|s|] == s;
      assert s + [] == s;
    }
  }

  lemma ButtonsNeverClose(p: Pot, func: bool, onoff: bool)
    ensures HandleButtons(p, func, onoff).heater ==> p.heater
  {
    hide PressFunc, PressOnOff;
    FuncNeverCloses(p);
    OnOffNeverCloses(if func then PressFunc(p) else p);
  }

  lemma FuncNeverCloses(p: Pot)
    ensures PressFunc(p).heater ==> p.heater
  {
    hide Refill;
  }

  lemma OnOffNeverCloses(p: Pot)
    ensures PressOnOff(p).heater ==> p.heater
  {
    hide Refill;
  }

  lemma FrontCloses(p: Pot, i: Input)
    requires Valid(p) && !p.heater && Front(p, i).heater
    ensures p.relayOff >= RELAY_DWELL_SECONDS
  {
    hide HandleButtons, Sense, Branch, Ntc.Celsius, Refill;
    ButtonsNeverClose(p, i.func, i.onoff);
    ButtonsClock(p, i.func, i.onoff);
    var b := HandleButtons(p, i.func, i.onoff).(div100 := 0);
    assert Valid(b) by { ButtonsValid(p, i.func, i.onoff); }
    SenseSampled(b, i.adc);
    SenseNeverCloses(b, i.adc);
    BranchSampled(b, Sense(b, i.adc), i.adc);
  }

  lemma SenseNeverCloses(p: Pot, adc: nat)
    ensures Sense(p, adc).heater ==> p.heater
  {
    hide Ntc.Celsius;
  }

  lemma SecondNeverCloses(p: Pot)
    requires p.slope.Shaped()
    ensures Second(p).heater ==> p.heater
  {
    hide Second;
    SecondRest(p);
  }

  /** Whenever the contact closes, the last three one-second tasks (or all there were) saw it open. */
  lemma ClosingNeedsThreeOpenSeconds(adc: nat, ins: seq<Input>, i: Input)
    requires !Run(Boot(adc), ins).heater && Front(Run(Boot(adc), ins), i).heater
    ensures var s := Samples(Boot(adc), ins);
      forall j :: 0 <= j < |s| && |s| - RELAY_DWELL_SECONDS <= j ==> !s[j]
  {
    hide Front, Boot, Run, Samples, Valid;
    AlwaysValid(adc, ins);
    FrontCloses(Run(Boot(adc), ins), i);
    RelayClockIsDwell(adc, ins);
    DwellCountsOpenTail(Samples(Boot(adc), ins));
  }

  // ---------- when the dwell holds ----------

  /** Whatever keys and readings follow, the contact is open after each of the next n passes. */
  ghost predicate StaysOpen(p: Pot, n: nat)
    requires p.slope.Shaped()
  {
    forall more :: |more| <= n ==> !Run(p, more).heater
  }

  /** The contact is open, then closed after every pass, and open again after the last. */
  ghost predicate Pulse(p: Pot, ins: seq<Input>)
    requires p.slope.Shaped()
  {
    && |ins| > 1 && !p.heater && !Run(p, ins).heater
    && forall k :: 0 < k < |ins| ==> Run(p, ins[..k]).heater
  }

  lemma TickRelay(p: Pot, i: Input)
    requires p.slope.Shaped()
    ensures Tick(p, i).relayOff ==
      if ClosedSecond(p, i) then 0 else if Due(p) && p.relayOff < 255 then p.relayOff + 1 else p.relayOff
    ensures Tick(p, i).heater ==> Front(p, i).heater
  {
    hide Front, Second;
    FrontClock(p, i);
    SecondRelay(Front(p, i).(div1000 := 0));
    SecondNeverCloses(Front(p, i).(div1000 := 0));
  }

  /** What the relay clock says about a pulse with this many closed samples. */
  predicate ClockTells(relayOff: nat, closed: nat) {
    if closed > 0 then relayOff == 0 else relayOff >= RELAY_DWELL_SECONDS
  }

  lemma ClosedNext(p: Pot, ins: seq<Input>)
    requires p.slope.Shaped() && |ins| > 0
    ensures var init := ins[..|ins| - 1]; var q, i := Run(p, init), ins[|ins| - 1];
      Run(p, ins) == Tick(q, i) && ClosedSeconds(p, ins) == ClosedSeconds(p, init) + (if ClosedSecond(q, i) then 1 else 0)
  {
    hide Tick, ClosedSecond;
  }

  /** While the contact is closed, the clock tells whether any one-second task has seen the pulse. */
  lemma {:induction false} PulseClock(p: Pot, ins: seq<Input>, k: nat)
    requires p.slope.Shaped() && Valid(p) && Pulse(p, ins) && 0 < k < |ins|
    ensures ClockTells(Run(p, ins[..k]).relayOff, ClosedSeconds(p, ins[..k]))
  {
    var q, i := Run(p, ins[..k - 1]), ins[k - 1];
    assert ins[..k][..k - 1] == ins[..k - 1];
    assert Run(p, ins[..0]) == p && ClosedSeconds(p, ins[..0]) == 0;
    ClosedNext(p, ins[..k]);
    assert Tick(q, i).heater;
    TickRelay(q, i);
    ClosedIfDue(q, i);
    if k == 1 {
      FrontCloses(p, i);
    } else {
      PulseClock(p, ins, k - 1);
    }
    hide Tick, ClosedSecond, Valid, Run, ClosedSeconds, Due, Front;
  }

  lemma ClosedIfDue(p: Pot, i: Input)
    requires p.slope.Shaped()
    ensures Front(p, i).heater ==> (ClosedSecond(p, i) <==> Due(p))
  {
  }

  lemma AfterPulse(p: Pot, ins: seq<Input>)
    requires p.slope.Shaped() && Valid(p) && Pulse(p, ins)
    ensures var q := Run(p, ins);
      if ClosedSeconds(p, ins) > 0 then q.relayOff == 0 || (q.relayOff == 1 && q.div1000 == 0)
      else q.relayOff >= RELAY_DWELL_SECONDS
  {
    var n := |ins| - 1;
    PulseClock(p, ins, n);
    ClosedNext(p, ins);
    TickRelay(Run(p, ins[..n]), ins[n]);
    TickReset(Run(p, ins[..n]), ins[n]);
    hide Tick, ClosedSecond, Valid, Pulse, Run, ClosedSeconds, Due;
    var r, i, q := Run(p, ins[..n]), ins[n], Run(p, ins);
    LastSample(r.relayOff, ClosedSeconds(p, ins[..n]), ClosedSecond(r, i), Due(r), q.relayOff, q.div1000);
  }

  lemma LastSample(before: nat, closed: nat, seen: bool, due: bool, after: nat, div1000: nat)
    requires ClockTells(before, closed) && after == if seen then 0 else if due && before < 255 then before + 1 else before
    requires due ==> div1000 == 0
    ensures if closed + (if seen then 1 else 0) > 0 then after == 0 || (after == 1 && div1000 == 0) else after >= RELAY_DWELL_SECONDS
  {
  }

  lemma TickReset(p: Pot, i: Input)
    requires p.slope.Shaped()
    ensures Due(p) ==> Tick(p, i).div1000 == 0
    ensures ClosedSecond(p, i) ==> Due(p)
  {
    hide Front, Second;
    FrontClock(p, i);
    SecondRest(Front(p, i).(div1000 := 0));
  }

  /** Before three open samples no pass can close the contact. */
  lemma {:induction false} DwellHolds(p: Pot, more: seq<Input>)
    requires p.slope.Shaped() && Valid(p) && !p.heater && |more| <= 200
    requires p.relayOff == 0 || (p.relayOff == 1 && p.div1000 == 0)
    ensures var q := Run(p, more); Valid(q) && !q.heater && q.relayOff == p.relayOff + Seconds(p, more)
  {
    hide Tick, Valid, Due, ClosedSecond;
    if |more| > 0 {
      var init := more[..|more| - 1];
      var q, i := Run(p, init), more[|more| - 1];
      DwellHolds(p, init);
      Unfold(p);
      SecondsAreHundredths(p, init);
      TickValid(q, i);
      TickRelay(q, i);
      ClosedSecondCloses(q, i);
      assert !Front(q, i).heater by {
        if Front(q, i).heater {
          FrontCloses(q, i);
        }
      }
    }
  }

  lemma ClosedSecondCloses(p: Pot, i: Input)
    requires p.slope.Shaped()
    ensures ClosedSecond(p, i) ==> Front(p, i).heater
  {
  }

  // ---------- reclosing ----------

  /** Open long enough, and no lock. */
  predicate Free(p: Pot) {
    Valid(p) && InStep(p) && !p.heater && p.relayOff >= RELAY_DWELL_SECONDS && p.cooldown == 0
  }

  const COLD := Input(false, false, 600)
  const KEY := Input(false, true, 600)

  lemma ColdCode()
    ensures Ntc.Celsius(600) == 5 && Healthy(600)
  {
    Ntc.TableEnds();
  }

  /** The key that leads to standby, or none if that is where the pot is. */
  function Quit(p: Pot): Input {
    if p.state.Off? then COLD else KEY
  }

  lemma QuitKeys(p: Pot)
    requires p.slope.Shaped() && !p.heater
    ensures var b := HandleButtons(p, false, Quit(p).onoff); b.state.Off? && !b.heater && b.adc == p.adc
  {
  }

  lemma OffControl(p: Pot)
    requires p.state.Off? && !p.heater
    ensures var q := Control(p, 600); q.state.Off? && !q.heater && q.adc == 600
  {
    hide Ntc.Celsius;
  }

  lemma OffFront(p: Pot)
    requires p.slope.Shaped() && !p.heater
    ensures var f := Front(p, Quit(p));
      f.state.Off? && !f.heater && (p.adc == 600 || p.div100 == 9 ==> f.adc == 600)
  {
    QuitKeys(p);
    var b := HandleButtons(p, false, Quit(p).onoff);
    OffControl(b.(div100 := 0));
    FrontTicks(p, Quit(p));
    hide HandleButtons, Control;
  }

  lemma OffSecond(f: Pot)
    requires f.slope.Shaped() && f.state.Off? && !f.heater
    ensures var q := Second(f); q.state.Off? && !q.heater && q.adc == f.adc && q.div100 == f.div100
  {
    SecondRest(f);
    InactiveSecond(f);
    hide Second;
  }

  lemma QuitTick(p: Pot)
    requires p.slope.Shaped() && Free(p) && p.div100 < 10
    ensures var q := Tick(p, Quit(p));
      && q.slope.Shaped() && Free(q) && q.state.Off? && q.div100 == (p.div100 + 1) % 10
      && (p.adc == 600 || p.div100 == 9 ==> q.adc == 600)
  {
    var i := Quit(p);
    TickValid(p, i);
    InStepRange(p);
    TickInStep(p, i);
    TickRelay(p, i);
    hide Valid, InStep;
    assert Tick(p, i).cooldown == 0 by { QuitCooldown(p); }
    QuitState(p);
    ClosedSecondCloses(p, i);
    OffFront(p);
    hide Front, Second, Tick, Due, ClosedSecond;
  }

  lemma QuitState(p: Pot)
    requires p.slope.Shaped() && !p.heater && p.div100 < 10
    ensures var q := Tick(p, Quit(p));
      && q.state.Off? && !q.heater && q.div100 == (p.div100 + 1) % 10
      && (p.adc == 600 || p.div100 == 9 ==> q.adc == 600)
  {
    var i := Quit(p);
    OffFront(p);
    FrontTicks(p, i);
    OffSecond(Front(p, i).(div1000 := 0));
    hide Front, Second;
  }

  lemma QuitCooldown(p: Pot)
    requires p.slope.Shaped() && !p.heater && p.cooldown == 0
    ensures Tick(p, Quit(p)).cooldown == 0
  {
    var i := Quit(p);
    OffFront(p);
    FrontClock(p, i);
    InactiveSecond(Front(p, i).(div1000 := 0));
    hide Front, Second;
  }

  lemma InStepRange(p: Pot)
    requires Valid(p)
    ensures p.div1000 < 100 && p.div100 < 10
  {
  }

  /** n passes on, the pot is in standby. */
  lemma {:induction false} Standby(p: Pot, n: nat)
    requires p.slope.Shaped() && Free(p) && p.state.Off? && p.div100 < 10 && n <= 10 - p.div100
    ensures var q := Run(p, Repeat(600, n));
      && Free(q) && q.state.Off? && q.div100 == (p.div100 + n) % 10
      && (p.adc == 600 || n == 10 - p.div100 ==> q.adc == 600)
  {
    hide Tick, Free;
    if n > 0 {
      var init := Repeat(600, n - 1);
      assert Repeat(600, n)[..n - 1] == init && Repeat(600, n)[n - 1] == COLD;
      Standby(p, n - 1);
      QuitTick(Run(p, init));
    }
  }

  /** Heating has just been started on cold water; k passes until the control task. */
  predicate Kindled(p: Pot, n: nat) {
    && Free(p) && p.state.Heat? && p.slope == Refill(600) && p.adc == 600 && !p.boilConfirm
    && p.heatSeconds == 0 && p.div100 == n
  }

  lemma KindleTick(p: Pot)
    requires p.slope.Shaped() && Free(p) && p.state.Off? && p.div100 == 0 && p.adc == 600
    ensures Kindled(Tick(p, KEY), 1)
  {
    assert p.div1000 % 10 == 0 && p.div1000 < 100;
    TickValid(p, KEY);
    TickInStep(p, KEY);
    KeyTick(p, KEY);
    hide Valid, InStep, Tick, Refill, Ntc.Celsius;
  }

  lemma WaitTick(p: Pot, n: nat)
    requires p.slope.Shaped() && Kindled(p, n) && n < 9
    ensures Kindled(Tick(p, COLD), n + 1)
  {
    assert p.div1000 % 10 == n && p.div1000 < 100;
    TickValid(p, COLD);
    TickInStep(p, COLD);
    KeyTick(p, COLD);
    hide Valid, InStep, Tick, Refill, Ntc.Celsius;
  }

  lemma {:induction false} Waiting(p: Pot, n: nat)
    requires p.slope.Shaped() && Kindled(p, 1) && n <= 8
    ensures Kindled(Run(p, Repeat(600, n)), n + 1)
  {
    hide Tick, Kindled;
    if n > 0 {
      var init := Repeat(600, n - 1);
      assert Repeat(600, n)[..n - 1] == init && Repeat(600, n)[n - 1] == COLD;
      Waiting(p, n - 1);
      WaitTick(Run(p, init), n);
    }
  }

  /** The control task closes the contact, and the one-second task of the same pass, if any, leaves it. */
  lemma ClosesTick(p: Pot)
    requires p.slope.Shaped() && Kindled(p, 9)
    ensures Tick(p, COLD).heater
  {
    ColdCode();
    Energizes(p, 600);
    NoKeys(p, 600);
    var f := Front(p, COLD);
    if Due(p) {
      var w := f.(div1000 := 0, relayOff := 0, overtemp := 0);
      assert OvertempWatch(Cool(RelayClock(f.(div1000 := 0)))) == w;
      hide Valid, OvertempWatch, Cool, RelayClock, Front, Control, Ntc.Celsius;
      assert SlopeTask(w) == CleanSecond(w) by { FirstClean(w); }
    }
  }

  lemma FirstClean(w: Pot)
    requires w.slope == Refill(600) && w.adc == 600 && w.state.Heat? && w.heater && w.heatSeconds == 0
    ensures SlopeTask(w) == CleanSecond(w)
  {
    hide Shift;
  }

  /** Quit to standby, wait for a control task, start, and wait for the next one. */
  function Restart(p: Pot): (ins: seq<Input>)
    requires p.div100 < 10
    ensures |ins| <= 20
  {
    [Quit(p)] + Repeat(600, 9 - p.div100) + [KEY] + Repeat(600, 9)
  }

  lemma RunOne(p: Pot, i: Input)
    requires p.slope.Shaped()
    ensures Run(p, [i]) == Tick(p, i)
  {
    RunNext(p, [], i);
    assert [] + [i] == [i];
  }

  /** Without the dwell or the lock in the way, the contact can close again within two control periods. */
  lemma Recloses(p: Pot)
    requires p.slope.Shaped() && Free(p) && p.div100 < 10
    ensures Run(p, Restart(p)).heater
  {
    hide Run, Tick, Free, Kindled, Quit, Repeat;
    var d := 9 - p.div100;
    var a := [Quit(p)];
    var b := a + Repeat(600, d);
    var c := b + [KEY];
    RunOne(p, Quit(p));
    QuitTick(p);
    var q := Tick(p, Quit(p));
    RunConcat(p, a, Repeat(600, d));
    RepeatNone(q);
    if d > 0 {
      Standby(q, d);
    }
    var s := Run(p, b);
    assert Free(s) && s.state.Off? && s.div100 == 0 && s.adc == 600;
    KindleTick(s);
    RunNext(p, b, KEY);
    var k := Tick(s, KEY);
    Waiting(k, 8);
    RunConcat(p, c, Repeat(600, 9));
    RepeatNext(8);
    RunNext(k, Repeat(600, 8), COLD);
    ClosesTick(Run(k, Repeat(600, 8)));
  }

  lemma RepeatNone(p: Pot)
    requires p.slope.Shaped()
    ensures Run(p, Repeat(600, 0)) == p
  {
  }

  lemma RepeatNext(n: nat)
    ensures Repeat(600, n + 1) == Repeat(600, n) + [COLD]
  {
  }

  // ---------- exactly ----------

  lemma LockIsFull(p: Pot, i: Input)
    requires p.slope.Shaped() && Valid(p) && p.heater
    ensures Tick(p, i).cooldown == 0 || Tick(p, i).cooldown == COOLDOWN_SECONDS
  {
    FrontClock(p, i);
    SecondLocks(Front(p, i).(div1000 := 0));
    hide Front, Second;
  }

  lemma FaultLocks(p: Pot, code: nat)
    ensures EnterFault(p, code).cooldown == p.cooldown || EnterFault(p, code).cooldown == COOLDOWN_SECONDS
  {
  }

  lemma SecondLocks(p: Pot)
    requires p.slope.Shaped() && p.cooldown == 0
    ensures Second(p).cooldown == 0 || Second(p).cooldown == COOLDOWN_SECONDS
  {
    var r := Cool(RelayClock(p));
    var w := OvertempWatch(r);
    FaultLocks(r.(overtemp := U8(r.overtemp + 1)), 4);
    assert w.cooldown == 0 || w.cooldown == COOLDOWN_SECONDS by { hide EnterFault; }
    hide OvertempWatch, Cool, RelayClock;
    SlopeLocks(w);
    hide SlopeTask;
  }

  lemma SlopeLocks(p: Pot)
    requires p.slope.Shaped()
    ensures SlopeTask(p).cooldown == p.cooldown || SlopeTask(p).cooldown == COOLDOWN_SECONDS
  {
    FaultLocks(p.(glitch := U8(p.glitch + 1)), 1);
    FaultLocks(CleanSecond(p), 3);
    FaultLocks(EnterFault(CleanSecond(p), 3), 3);
    hide EnterFault, Refill, Shift;
  }

  lemma LockKeepsOpen(p: Pot)
    requires p.slope.Shaped() && Valid(p) && p.cooldown == COOLDOWN_SECONDS
    ensures StaysOpen(p, 200)
  {
    hide Run;
    forall more: seq<Input> | |more| <= 200 ensures !Run(p, more).heater {
      InStepRange(p);
      LockHolds(p, more);
    }
  }

  lemma DwellKeepsOpen(p: Pot)
    requires p.slope.Shaped() && Valid(p) && !p.heater && (p.relayOff == 0 || (p.relayOff == 1 && p.div1000 == 0))
    ensures StaysOpen(p, 200)
  {
    hide Run, Valid;
    forall more: seq<Input> | |more| <= 200 ensures !Run(p, more).heater {
      DwellHolds(p, more);
    }
  }

  lemma CanReclose(p: Pot)
    requires p.slope.Shaped() && Free(p)
    ensures !StaysOpen(p, 20) && !StaysOpen(p, 200)
  {
    InStepRange(p);
    hide Run, Free;
    Recloses(p);
    assert |Restart(p)| <= 20;
  }

  /** The dwell comment of the source holds exactly for pulses that a one-second task has seen. On every
      run, whenever the contact opens: it stays open for 200 passes under all keys and readings if and
      only if some one-second task found the pulse closed, or the opening came with a thermal lock.
      Otherwise some keys and readings close it again within 20 passes. */
  lemma RecloseIff(adc: nat, before: seq<Input>, pulse: seq<Input>)
    requires Pulse(Run(Boot(adc), before), pulse)
    ensures var p := Run(Boot(adc), before); var q := Run(p, pulse);
      && (StaysOpen(q, 200) <==> ClosedSeconds(p, pulse) > 0 || q.cooldown > 0)
      && (StaysOpen(q, 200) <==> q.relayOff < RELAY_DWELL_SECONDS || q.cooldown > 0)
      && (!StaysOpen(q, 200) ==> !StaysOpen(q, 20))
  {
    var p := Run(Boot(adc), before);
    var q := Run(p, pulse);
    var n := |pulse| - 1;
    var r := Run(p, pulse[..n]);
    assert q == Tick(r, pulse[n]) && !q.heater && r.heater;
    assert Run(Boot(adc), before + pulse[..n]) == r && Run(Boot(adc), before + pulse) == q by {
      RunConcat(Boot(adc), before, pulse[..n]);
      RunConcat(Boot(adc), before, pulse);
    }
    hide Run, Boot, Tick, StaysOpen, ClosedSeconds, Valid, InStep;
    AlwaysValid(adc, before);
    AlwaysValid(adc, before + pulse[..n]);
    AlwaysValid(adc, before + pulse);
    AlwaysInStep(adc, before + pulse);
    AfterPulse(p, pulse);
    LockIsFull(r, pulse[n]);
    hide Pulse;
    if q.cooldown > 0 {
      LockKeepsOpen(q);
    } else if q.relayOff < RELAY_DWELL_SECONDS {
      DwellKeepsOpen(q);
    } else {
      CanReclose(q);
    }
  }
}
