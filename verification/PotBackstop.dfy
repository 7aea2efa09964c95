/** The timeout backstop over whole runs: which readings it covers, and how long the contact can stay
    closed. */
module PotBackstop {
  import opened Pot
  import opened PotSafety
  import opened PotRuns
  import opened PotHeat
  import Ntc

  /** Temperatures at which one of the two time limits applies. */
  predicate Covered(m: Mode, temp: nat) {
    temp < DRYFIRE_TEMP_C || (m.Boil100? && temp < BOIL_TEMP_C)
  }

  function Limit(m: Mode): nat {
    if m.Boil100? then BOIL_TIMEOUT_SECONDS else DRYFIRE_SECONDS
  }

  /** Every counted second may be followed by two cold-water jumps that are not counted. */
  function Most(m: Mode): nat {
    3 * Limit(m) + 2
  }

  /** The pot is in HEAT in mode m throughout, no key arrives, and the one-second passes read codes of this set. */
  ghost predicate Episode(p: Pot, m: Mode, codes: iset<nat>, ins: seq<Input>)
    requires p.slope.Shaped()
  {
    if |ins| == 0 then p.state.Heat? && p.mode == m
    else
      var q, i := Run(p, ins[..|ins| - 1]), ins[|ins| - 1];
      && Episode(p, m, codes, ins[..|ins| - 1]) && !i.func && !i.onoff
      && (Due(q) ==> i.adc in codes) && Tick(q, i).state.Heat?
  }

  // ---------- one pass of an episode ----------

  /** Fields that decide the backstop. */
  predicate SameEpisode(p: Pot, q: Pot) {
    q.state.Heat? && q.mode == p.mode && q.heatSeconds == p.heatSeconds && q.glitch == p.glitch && q.slope == p.slope
  }

  lemma SenseEpisode(p: Pot, adc: nat)
    requires p.state.Heat?
    ensures Sense(p, adc).state.Heat? ==> SameEpisode(p, Sense(p, adc))
    ensures Sense(p, adc).state.Heat? || Sense(p, adc).state.Fault?
  {
    hide Ntc.Celsius;
  }

  lemma BranchEpisode(p: Pot)
    ensures Branch(p).state.Heat? ==> p.state.Heat? && SameEpisode(p, Branch(p))
  {
  }

  lemma FrontEpisode(p: Pot, i: Input)
    requires p.slope.Shaped() && p.state.Heat? && !i.func && !i.onoff
    ensures Front(p, i).state.Heat? ==> SameEpisode(p, Front(p, i))
  {
    hide Sense, Branch;
    SenseEpisode(p.(div100 := 0), i.adc);
    BranchEpisode(Sense(p.(div100 := 0), i.adc));
  }

  /** A one-second task that finds the contact closed runs right after a control task that read below the target. */
  lemma ClosedBelowTarget(p: Pot, i: Input)
    requires Valid(p) && InStep(p) && Due(p) && Front(p, i).heater && Front(p, i).state.Heat?
    ensures Front(p, i).temp == Ntc.Celsius(i.adc) < Target(Front(p, i).mode)
  {
    hide HandleButtons, Control, Ntc.Celsius;
    assert p.div100 == 9;
    FrontTicks(p, i);
    FrontValid(p, i);
    ButtonsValid(p, i.func, i.onoff);
    ClosedOnlyBelowTarget(HandleButtons(p, i.func, i.onoff).(div100 := 0), i.adc);
  }

  lemma WatchEpisode(p: Pot)
    requires Valid(p)
    ensures var q := OvertempWatch(Cool(RelayClock(p)));
      q.state.Heat? ==> p.state.Heat? && SameEpisode(p, q) && q.heater == p.heater && q.temp == p.temp && Valid(q)
  {
    hide Valid, OvertempWatch, Cool, RelayClock;
    ClockValid(p);
    OvertempValid(Cool(RelayClock(p)));
    WatchFields(p);
  }

  lemma WatchFields(p: Pot)
    ensures var q := OvertempWatch(Cool(RelayClock(p)));
      q.state.Heat? ==> p.state.Heat? && SameEpisode(p, q) && q.heater == p.heater && q.temp == p.temp
  {
  }

  /** One watchdog second: a closed second costs one unit of 3 * heatSeconds + glitch, and the limit is never passed. */
  lemma SlopeSpends(p: Pot)
    requires Valid(p) && p.state.Heat? && (p.heater ==> Covered(p.mode, p.temp)) && p.heatSeconds <= Limit(p.mode)
    requires SlopeTask(p).state.Heat?
    ensures var q := SlopeTask(p);
      q.mode == p.mode && q.heatSeconds <= Limit(p.mode)
      && 3 * q.heatSeconds + q.glitch >= 3 * p.heatSeconds + p.glitch + (if p.heater then 1 else 0)
  {
    hide Ntc.Celsius, Refill, Shift;
  }

  /** No code of the set leaves the contact closed outside the two time limits. */
  ghost predicate Harmless(m: Mode, codes: iset<nat>) {
    forall a :: a in codes && Ntc.Celsius(a) < Target(m) ==> Covered(m, Ntc.Celsius(a))
  }

  lemma SecondSpends(f: Pot)
    requires Valid(f) && f.state.Heat? && (f.heater ==> Covered(f.mode, f.temp)) && f.heatSeconds <= Limit(f.mode)
    requires Second(f).state.Heat?
    ensures var q := Second(f);
      q.mode == f.mode && q.heatSeconds <= Limit(f.mode)
      && 3 * q.heatSeconds + q.glitch >= 3 * f.heatSeconds + f.glitch + (if f.heater then 1 else 0)
  {
    var w := OvertempWatch(Cool(RelayClock(f)));
    ClockValid(f);
    OvertempValid(Cool(RelayClock(f)));
    WatchEpisode(f);
    hide Valid, OvertempWatch, Cool, RelayClock, SlopeTask, Covered;
    assert w.slope.Shaped() by { Unfold(w); }
    if w.state.Heat? {
      SlopeSpends(w);
    } else {
      SlopeIdle(w);
    }
  }

  lemma EpisodeSpends(p: Pot, codes: iset<nat>, i: Input)
    requires p.slope.Shaped() && Valid(p) && InStep(p) && p.state.Heat? && !i.func && !i.onoff && p.heatSeconds <= Limit(p.mode)
    requires Harmless(p.mode, codes) && (Due(p) ==> i.adc in codes) && Tick(p, i).state.Heat?
    ensures var q := Tick(p, i);
      q.mode == p.mode && q.heatSeconds <= Limit(p.mode)
      && 3 * q.heatSeconds + q.glitch >= 3 * p.heatSeconds + p.glitch + (if ClosedSecond(p, i) then 1 else 0)
  {
    hide Front, Valid, InStep, Second, Ntc.Celsius, Covered;
    FrontValid(p, i);
    FrontClock(p, i);
    var f := Front(p, i);
    FrontEpisode(p, i);
    if Due(p) {
      var g := f.(div1000 := 0);
      assert Valid(g) by { ResetClockValid(f); }
      assert f.state.Heat? by { NoEntryInSecond(g); }
      if f.heater {
        ClosedBelowTarget(p, i);
      }
      SecondSpends(g);
    }
  }

  lemma NoEntryInSecond(f: Pot)
    requires f.slope.Shaped() && Second(f).state.Heat?
    ensures f.state.Heat?
  {
    hide Refill, Shift;
  }

  lemma {:induction false} EpisodeBudget(p: Pot, m: Mode, codes: iset<nat>, ins: seq<Input>)
    requires p.slope.Shaped() && Valid(p) && InStep(p) && p.heatSeconds == 0 && p.glitch == 0
    requires Harmless(m, codes) && Episode(p, m, codes, ins)
    ensures var q := Run(p, ins);
      Valid(q) && InStep(q) && q.state.Heat? && q.mode == m && q.heatSeconds <= Limit(m)
      && ClosedSeconds(p, ins) <= 3 * q.heatSeconds + q.glitch <= Most(m)
  {
    hide Tick, Front, Due, InStep, Harmless, Ntc.Celsius;
    if |ins| > 0 {
      var q, i := Run(p, ins[..|ins| - 1]), ins[|ins| - 1];
      EpisodeBudget(p, m, codes, ins[..|ins| - 1]);
      TickValid(q, i);
      TickInStep(q, i);
      EpisodeSpends(q, codes, i);
    }
  }

  /** The backstop. If every reading that leaves the contact closed is below 45 C, or below 98 C in boil
      mode, then from heat_seconds and glitch_cnt zero at most 1952 one-second tasks (1652 in boil mode)
      find the contact closed while the pot stays in HEAT, and one more with the pass that ends it. */
  lemma BackstopBound(p: Pot, m: Mode, codes: iset<nat>, ins: seq<Input>, i: Input)
    requires p.slope.Shaped() && Valid(p) && InStep(p) && p.heatSeconds == 0 && p.glitch == 0
    requires Harmless(m, codes) && Episode(p, m, codes, ins)
    ensures ClosedSeconds(p, ins) <= Most(m) && ClosedSeconds(p, ins + [i]) <= Most(m) + 1
    ensures Most(Boil100) == 1652 && Most(Direct55) == Most(Direct80) == 1952
  {
    EpisodeBudget(p, m, codes, ins);
    hide Episode, Run, Valid, Harmless;
    assert (ins + [i])[..|ins|] == ins;
  }

  /** In boil mode that is every reading. */
  lemma BoilIsHarmless(codes: iset<nat>)
    ensures Harmless(Boil100, codes)
  {
  }

  /** Seconds of heating towards 100 C never pass the limit. */
  predicate BoilLimited(p: Pot) {
    p.state.Heat? && p.mode.Boil100? ==> p.heatSeconds <= BOIL_TIMEOUT_SECONDS
  }

  lemma FuncLimited(p: Pot)
    requires BoilLimited(p)
    ensures BoilLimited(PressFunc(p))
  {
    hide Refill;
  }

  lemma OnOffLimited(p: Pot)
    requires BoilLimited(p)
    ensures BoilLimited(PressOnOff(p))
  {
    hide Refill;
  }

  lemma SenseLimited(p: Pot, adc: nat)
    requires BoilLimited(p)
    ensures BoilLimited(Sense(p, adc))
  {
    hide Ntc.Celsius;
  }

  lemma BranchLimited(p: Pot)
    requires BoilLimited(p)
    ensures BoilLimited(Branch(p))
  {
  }

  lemma FrontLimited(p: Pot, i: Input)
    requires p.slope.Shaped() && BoilLimited(p)
    ensures BoilLimited(Front(p, i))
  {
    hide PressFunc, PressOnOff, Sense, Branch;
    FuncLimited(p);
    OnOffLimited(if i.func then PressFunc(p) else p);
    var b := HandleButtons(p, i.func, i.onoff).(div100 := 0);
    SenseLimited(b, i.adc);
    BranchLimited(Sense(b, i.adc));
  }

  lemma TickLimited(p: Pot, i: Input)
    requires p.slope.Shaped() && Valid(p) && InStep(p) && BoilLimited(p)
    ensures BoilLimited(Tick(p, i))
  {
    hide Front, Valid, InStep, Second, Ntc.Celsius;
    FrontValid(p, i);
    FrontClock(p, i);
    FrontLimited(p, i);
    var f := Front(p, i);
    var g := f.(div1000 := 0);
    if Due(p) && Second(g).state.Heat? {
      assert Valid(g) by { ResetClockValid(f); }
      NoEntryInSecond(g);
      SecondRest(g);
      if g.mode.Boil100? {
        if f.heater {
          ClosedBelowTarget(p, i);
        }
        SecondSpends(g);
      }
    }
  }

  /** On every run, whatever keys and readings: while heating towards 100 C, heat_seconds is at most 550,
      so in that mode it never wraps. */
  lemma {:induction false} BoilAlwaysLimited(adc: nat, ins: seq<Input>)
    ensures BoilLimited(Run(Boot(adc), ins))
  {
    hide Tick, BoilLimited, InStep, Valid;
    if |ins| == 0 {
      assert BoilLimited(Boot(adc)) by { BootLimited(adc); }
    } else {
      var init := ins[..|ins| - 1];
      BoilAlwaysLimited(adc, init);
      AlwaysValid(adc, init);
      AlwaysInStep(adc, init);
      TickLimited(Run(Boot(adc), init), ins[|ins| - 1]);
    }
  }

  lemma BootLimited(adc: nat)
    ensures BoilLimited(Boot(adc))
  {
  }

  // ---------- readings that the backstop does not cover ----------

  /** The keys that start heating in a DIRECT mode. */
  function Lobby(m: Mode): seq<Input> {
    match m
    case Boil100 => [Input(false, true, 600)]
    case Direct55 => [Input(true, false, 600), Input(false, true, 600)]
    case Direct80 => [Input(true, false, 600), Input(true, false, 600), Input(false, true, 600)]
  }

  /** The state in which heating in mode m starts, on a cold pot. */
  function Entered(m: Mode): (p: Pot)
    ensures p.slope.Shaped()
  {
    Run(Boot(600), Lobby(m))
  }

  /** A code between 45 C and the target of a DIRECT mode. */
  predicate Uncovered(m: Mode, a: nat) {
    !m.Boil100? && DRYFIRE_TEMP_C <= Ntc.Celsius(a) < Target(m)
  }

  lemma UncoveredCode(m: Mode, a: nat)
    requires Uncovered(m, a)
    ensures 32 < a <= 108
  {
    hide Ntc.Celsius;
    Ntc.ThresholdAt(a, 12);
    Ntc.ThresholdAt(a, 37);
  }

  /** Heating goes on at code a; only in the first ten passes is the contact not closed yet. */
  predicate Steady(p: Pot, m: Mode, a: nat) {
    && Valid(p) && InStep(p) && p.state.Heat? && p.mode == m && p.slope.prev >= a
    && if p.heater then p.adc == a else p.div1000 < 10 && p.relayOff == 255
  }

  lemma SteadyPowered(p: Pot, m: Mode, a: nat)
    requires Steady(p, m, a) && Uncovered(m, a)
    ensures Control(p.(div100 := 0), a) == p.(div100 := 0, adc := a, temp := Ntc.Celsius(a), recover := 0, heater := true)
  {
    UncoveredCode(m, a);
    Energizes(p, a);
    hide Control, Ntc.Celsius;
  }

  lemma SteadyFront(p: Pot, m: Mode, a: nat)
    requires p.slope.Shaped() && Steady(p, m, a) && Uncovered(m, a)
    ensures var f := Front(p, Same(a));
      && Valid(f) && SameEpisode(p, f) && f.div1000 == p.div1000 && (p.heater ==> f.heater)
      && (if f.heater then f.adc == a else p.div1000 < 9 && f.relayOff == 255)
  {
    FrontValid(p, Same(a));
    SteadyPowered(p, m, a);
    NoKeys(p, a);
    hide Control, Front, Valid, Ntc.Celsius, Uncovered;
  }

  lemma SteadySecond(f: Pot, m: Mode, a: nat)
    requires f.slope.Shaped() && Valid(f) && f.state.Heat? && f.mode == m && f.heater && f.adc == a && f.slope.prev >= a && Uncovered(m, a)
    ensures var q := Second(f);
      && q.state.Heat? && q.mode == m && q.heater && q.adc == a && q.slope.prev == a
      && q.heatSeconds == U16(f.heatSeconds + 1)
  {
    UncoveredCode(m, a);
    var w := f.(relayOff := 0, overtemp := 0);
    assert OvertempWatch(Cool(RelayClock(f))) == w;
    hide OvertempWatch, Cool, RelayClock, Ntc.Celsius, Valid;
    assert f.temp == Ntc.Celsius(a) by { Thermometer(f); }
    assert CleanSecond(w).slope.prev == a;
    hide Shift;
    assert SlopeTask(w) == CleanSecond(w);
  }

  lemma Thermometer(p: Pot)
    requires Valid(p)
    ensures p.temp == Ntc.Celsius(p.adc)
  {
  }

  lemma SteadyTick(p: Pot, m: Mode, a: nat)
    requires p.slope.Shaped() && Steady(p, m, a) && Uncovered(m, a)
    ensures var q := Tick(p, Same(a));
      && q.slope.Shaped() && Steady(q, m, a)
      && q.heatSeconds == (if Due(p) then U16(p.heatSeconds + 1) else p.heatSeconds)
      && (ClosedSecond(p, Same(a)) <==> Due(p)) && (p.heater || Due(p) ==> q.heater)
  {
    SteadyFront(p, m, a);
    TickValid(p, Same(a));
    TickInStep(p, Same(a));
    var f := Front(p, Same(a));
    hide Front, Valid, InStep, Second, Uncovered;
    if Due(p) {
      var g := f.(div1000 := 0);
      assert Valid(g) by { ResetClockValid(f); }
      SecondRest(g);
      SteadySecond(g, m, a);
    }
  }

  lemma {:induction false} SteadyRun(p: Pot, m: Mode, a: nat, n: nat)
    requires p.slope.Shaped() && Steady(p, m, a) && Uncovered(m, a) && p.heatSeconds == 0
    ensures var ins := Repeat(a, n); var q := Run(p, ins);
      && Steady(q, m, a) && Episode(p, m, iset{a}, ins)
      && ClosedSeconds(p, ins) == Seconds(p, ins) && q.heatSeconds == U16(Seconds(p, ins))
      && (Seconds(p, ins) > 0 ==> q.heater)
  {
    hide Tick, Steady, Uncovered, Due, ClosedSecond;
    SteadyHeats(p, m, a);
    if n > 0 {
      var init := Repeat(a, n - 1);
      assert Repeat(a, n)[..n - 1] == init && Repeat(a, n)[n - 1] == Same(a);
      SteadyRun(p, m, a, n - 1);
      SteadyTick(Run(p, init), m, a);
      SteadyHeats(Tick(Run(p, init), Same(a)), m, a);
    }
  }

  lemma SteadyHeats(p: Pot, m: Mode, a: nat)
    requires Steady(p, m, a)
    ensures p.state.Heat? && p.mode == m && p.div1000 < 100
  {
  }

  /** Standing by on a cold pot. */
  predicate Ready(p: Pot, m: Mode, n: nat) {
    && p.slope == Refill(600) && p.adc == 600 && p.state.Off? && p.mode == m && !p.heater && p.cooldown == 0
    && p.glitch == 0 && p.relayOff == 255 && p.div100 == p.div1000 == n
  }

  lemma BootReady()
    ensures Ready(Boot(600), Boil100, 0)
  {
    hide Refill;
    Ntc.ThresholdAt(600, 12);
  }

  lemma ReadyFunc(p: Pot, m: Mode, n: nat)
    requires Ready(p, m, n) && n < 9
    ensures p.slope.Shaped() && Ready(Tick(p, Input(true, false, 600)), NextMode(m), n + 1)
  {
    KeyTick(p, Input(true, false, 600));
    hide Refill, Tick;
  }

  lemma ReadyOn(p: Pot, m: Mode, n: nat)
    requires Ready(p, m, n) && n < 9
    ensures p.slope.Shaped()
    ensures var q := Tick(p, Input(false, true, 600));
      && q.slope == Refill(600) && q.state.Heat? && q.mode == m && !q.heater && q.heatSeconds == 0 && q.glitch == 0
      && q.relayOff == 255 && q.div1000 == n + 1
  {
    KeyTick(p, Input(false, true, 600));
    hide Refill, Tick;
  }

  lemma LobbyRun(m: Mode)
    requires !m.Boil100?
    ensures var p := Entered(m);
      && p.slope == Refill(600) && p.state.Heat? && p.mode == m && !p.heater && p.heatSeconds == 0 && p.glitch == 0
      && p.relayOff == 255 && p.div1000 == |Lobby(m)|
  {
    hide Run, Tick, Boot, Refill, Ready;
    var b, f, on := Boot(600), Input(true, false, 600), Input(false, true, 600);
    BootReady();
    RunNext(b, [], f);
    RunNext(b, [f], f);
    RunNext(b, [f], on);
    RunNext(b, [f, f], on);
    assert [] + [f] == [f] && [f] + [f] == [f, f] && [f] + [on] == [f, on] && [f, f] + [on] == [f, f, on];
    ReadyFunc(b, Boil100, 0);
    if m.Direct55? {
      ReadyOn(Run(b, [f]), m, 1);
    } else {
      ReadyFunc(Run(b, [f]), Direct55, 1);
      ReadyOn(Run(b, [f, f]), m, 2);
    }
  }

  lemma LobbySteady(m: Mode, a: nat)
    requires Uncovered(m, a)
    ensures Steady(Entered(m), m, a) && Entered(m).heatSeconds == 0 && Entered(m).glitch == 0 && Entered(m).div1000 == |Lobby(m)|
  {
    UncoveredCode(m, a);
    AlwaysValid(600, Lobby(m));
    AlwaysInStep(600, Lobby(m));
    LobbyRun(m);
    hide Valid, InStep, Run, Boot, Uncovered;
  }

  /** In a DIRECT mode at a code between 45 C and the target no number of seconds ends the heating:
      from power-up, after the keys, any number n of one-second tasks in a row find the contact closed. */
  lemma UncoveredNeverEnds(m: Mode, a: nat, n: nat)
    requires Uncovered(m, a)
    ensures var ins := Repeat(a, 100 * n);
      && Episode(Entered(m), m, iset{a}, ins) && ClosedSeconds(Entered(m), ins) == n
      && Run(Entered(m), ins).heatSeconds == U16(n) && (n > 0 ==> Run(Entered(m), ins).heater)
  {
    LobbySteady(m, a);
    hide Entered, Steady, Uncovered, Episode, ClosedSeconds, Run, Repeat;
    SteadyRun(Entered(m), m, a, 100 * n);
    SecondsAreHundredths(Entered(m), Repeat(a, 100 * n));
  }

  // ---------- exactly ----------

  /** Over all runs from power-up, b bounds the closed seconds of every such episode that starts with
      heat_seconds and glitch_cnt zero, as HEAT always does (PotHeat.HeatEntryIsFresh). */
  ghost predicate Bounds(b: nat, m: Mode, codes: iset<nat>) {
    forall adc, before, ins ::
      var p := Run(Boot(adc), before);
      p.heatSeconds == 0 && p.glitch == 0 && Episode(p, m, codes, ins) ==> ClosedSeconds(p, ins) <= b
  }

  /** The readings of a mode for which key-free heating is bounded at all are exactly those that, where
      they are below the target, are below 45 C or the mode is boiling. In the DIRECT modes nothing
      bounds the heating between 45 C and the target. */
  lemma BackstopCovers(m: Mode, codes: iset<nat>)
    ensures (exists b: nat :: Bounds(b, m, codes)) <==> Harmless(m, codes)
  {
    if Harmless(m, codes) {
      HarmlessBounded(m, codes);
    } else {
      var a :| a in codes && Ntc.Celsius(a) < Target(m) && !Covered(m, Ntc.Celsius(a));
      forall b: nat ensures !Bounds(b, m, codes) {
        NotBounded(m, codes, a, b);
      }
    }
  }

  lemma HarmlessBounded(m: Mode, codes: iset<nat>)
    requires Harmless(m, codes)
    ensures Bounds(Most(m), m, codes)
  {
    hide Harmless, Valid, InStep, Episode, ClosedSeconds, Run, Boot;
    forall adc, before, ins | var p := Run(Boot(adc), before); p.heatSeconds == 0 && p.glitch == 0 && Episode(p, m, codes, ins)
      ensures ClosedSeconds(Run(Boot(adc), before), ins) <= Most(m) {
      AlwaysValid(adc, before);
      AlwaysInStep(adc, before);
      EpisodeBudget(Run(Boot(adc), before), m, codes, ins);
    }
  }

  lemma {:induction false} EpisodeWider(p: Pot, m: Mode, codes: iset<nat>, wider: iset<nat>, ins: seq<Input>)
    requires p.slope.Shaped() && Episode(p, m, codes, ins) && codes <= wider
    ensures Episode(p, m, wider, ins)
  {
    hide Tick, Due;
    if |ins| > 0 {
      EpisodeWider(p, m, codes, wider, ins[..|ins| - 1]);
    }
  }

  lemma NotBounded(m: Mode, codes: iset<nat>, a: nat, b: nat)
    requires a in codes && Uncovered(m, a)
    ensures !Bounds(b, m, codes)
  {
    hide *;
    LobbySteady(m, a);
    UncoveredNeverEnds(m, a, b + 1);
    EpisodeWider(Entered(m), m, iset{a}, codes, Repeat(a, 100 * (b + 1)));
    EpisodeExceeds(m, codes, Repeat(a, 100 * (b + 1)), b);
  }

  lemma EpisodeExceeds(m: Mode, codes: iset<nat>, ins: seq<Input>, b: nat)
    requires Entered(m).heatSeconds == 0 && Entered(m).glitch == 0
    requires Episode(Entered(m), m, codes, ins) && ClosedSeconds(Entered(m), ins) > b
    ensures !Bounds(b, m, codes)
  {
    hide Episode, ClosedSeconds, Run, Boot, Lobby;
    assert Entered(m) == Run(Boot(600), Lobby(m));
  }

  /** heat_seconds is a 16-bit count: after 65536 closed seconds of such heating it is back at zero,
      with the contact still closed. */
  lemma SecondsCanWrap(m: Mode, a: nat)
    requires Uncovered(m, a)
    ensures var ins := Repeat(a, 100 * 65536);
      ClosedSeconds(Entered(m), ins) == 65536 && Run(Entered(m), ins).heatSeconds == 0 && Run(Entered(m), ins).heater
  {
    hide Entered, Uncovered, Episode, ClosedSeconds, Run, Repeat;
    UncoveredNeverEnds(m, a, 65536);
  }
}
