/** The thermostat of health_pot.c as a function from one state to the next: the button
    handler, the 100 ms control task, the 1 s watchdog task, and one pass of the super-loop.
    PotTasks has the same tasks as the source writes them; each is proved equal to its
    function here. */
module Pot {
  import Ntc

  const NTC_OPEN_RAW := 3900
  const NTC_SHORT_RAW := 8
  const OVERTEMP_RAW := 16
  const OVERTEMP_SECONDS := 10
  const BOIL_TEMP_C := 98
  const BOIL_HOLD_TICKS := 30
  const WARM_HYST_C := 2
  const WARM_DEFAULT_C := 60
  const RELAY_DWELL_SECONDS := 3
  const FAULT_RECOVER_TICKS := 3
  const DRYFIRE_SECONDS := 650
  const DRYFIRE_TEMP_C := 45
  const BOIL_TIMEOUT_SECONDS := 550
  const SLOPE_WINDOW_SEC := 16
  const SLOPE_MIN_DELTA := 6
  const SLOPE_ARM_HEAT_SEC := 20
  const COLDWATER_JUMP := 40
  const GLITCH_TRIP_COUNT := 3
  const COOLDOWN_SECONDS := 60

  datatype State = Off | Heat | Warm | Fault
  datatype Mode = Boil100 | Direct55 | Direct80

  datatype Pot = Pot(
    state: State,
    temp: nat,
    adc: nat,
    fault: nat,
    warmSet: nat,
    mode: Mode,
    heater: bool,
    relayOff: nat,
    cooldown: nat,
    heatSeconds: nat,
    boilHold: nat,
    boilConfirm: bool,
    overtemp: nat,
    recover: nat,
    muted: bool,
    div100: nat,
    div1000: nat,
    glitch: nat,
    slope: Slope)

  /** The 16-slot code ring of the dry-fire detector, its write index, the code one clean
      second ago, and the clean seconds since the last refill (saturating). */
  datatype Slope = Slope(ring: seq<nat>, idx: nat, prev: nat, valid: nat) {
    predicate Shaped() { |ring| == 16 && idx < 16 && valid <= 255 }
  }

  /** What one super-loop pass sees: the two debounced key events and the filtered ADC code. */
  datatype Input = Input(func: bool, onoff: bool, adc: nat)

  /** unsigned char and unsigned int increments. */
  function U8(x: nat): nat { x % 256 }
  function U16(x: nat): nat { x % 65536 }

  predicate ThermalFault(code: nat) { code == 3 || code == 4 }

  predicate Healthy(adc: nat) { NTC_SHORT_RAW < adc < NTC_OPEN_RAW }

  // ---------- faults ----------

  function EnterFault(p: Pot, code: nat): Pot {
    var q := if ThermalFault(code) then p.(cooldown := COOLDOWN_SECONDS) else p;
    if p.state.Fault? then
      q.(heater := false, fault := if ThermalFault(p.fault) then p.fault else code)
    else
      q.(state := Fault, fault := code, heater := false, recover := 0)
  }

  // ---------- dry-fire slope detector ----------

  function Refill(adc: nat): (s: Slope)
    ensures s.Shaped()
  {
    Slope(seq(16, _ => adc), 0, adc, 0)
  }

  function SlopeReset(p: Pot): Pot {
    p.(slope := Refill(p.adc))
  }

  predicate ColdWater(p: Pot) {
    p.adc > p.slope.prev && p.adc - p.slope.prev > COLDWATER_JUMP
  }

  predicate Falling(oldest: nat, now: nat) {
    oldest > now && oldest - now >= SLOPE_MIN_DELTA
  }

  /** A clean second: shift the ring in place and count. */
  function Shift(s: Slope, adc: nat): (r: Slope)
    requires s.Shaped()
    ensures r.Shaped()
  {
    var idx := (s.idx + 1) % 16;
    Slope(s.ring[idx := adc], idx, adc, if s.valid < 255 then s.valid + 1 else s.valid)
  }

  function CleanSecond(p: Pot): Pot
    requires p.slope.Shaped()
  {
    p.(glitch := 0, slope := Shift(p.slope, p.adc), heatSeconds := U16(p.heatSeconds + 1))
  }

  function Glitch(p: Pot): Pot {
    var q := p.(glitch := U8(p.glitch + 1));
    if q.glitch >= GLITCH_TRIP_COUNT then EnterFault(q, 1) else SlopeReset(q)
  }

  /** Sixteen clean seconds and the code is not coming down. */
  predicate DryFire(q: Pot, oldest: nat) {
    && q.heatSeconds >= SLOPE_ARM_HEAT_SEC && q.slope.valid >= SLOPE_WINDOW_SEC
    && q.temp < DRYFIRE_TEMP_C && !Falling(oldest, q.adc)
  }

  /** The two-stage timeout backstop. */
  function Backstop(q: Pot): Pot {
    var r := if q.heatSeconds > DRYFIRE_SECONDS && q.temp < DRYFIRE_TEMP_C then EnterFault(q, 3) else q;
    if r.mode.Boil100? && r.heatSeconds > BOIL_TIMEOUT_SECONDS && r.temp < BOIL_TEMP_C then EnterFault(r, 3) else r
  }

  function SlopeTask(p: Pot): (q: Pot)
    requires p.slope.Shaped()
    ensures q.slope.Shaped()
  {
    if !p.state.Heat? || !p.heater then p
    else if ColdWater(p) then Glitch(p)
    else
      var q := CleanSecond(p);
      if DryFire(q, p.slope.ring[q.slope.idx]) then EnterFault(q, 3) else Backstop(q)
  }

  // ---------- keys ----------

  function NextMode(m: Mode): Mode {
    match m
    case Boil100 => Direct55
    case Direct55 => Direct80
    case Direct80 => Boil100
  }

  function ToWarm(p: Pot): Pot {
    p.(heater := false, state := Warm, boilConfirm := false, boilHold := 0, overtemp := 0)
  }

  /** FUNC while heating: next target, which may already be reached. */
  function ModeInHeat(p: Pot): Pot {
    match p.mode
    case Boil100 =>
      var r := p.(mode := Direct55, warmSet := 55);
      if p.temp >= 55 then ToWarm(r) else r
    case Direct55 =>
      var r := p.(mode := Direct80, warmSet := 80);
      if p.temp >= 80 then ToWarm(r) else r
    case Direct80 => p.(mode := Boil100)
  }

  function FuncInHeat(p: Pot): (q: Pot)
    ensures q.slope.Shaped()
  {
    SlopeReset(ModeInHeat(p).(heatSeconds := 0, glitch := 0))
  }

  /** FUNC while keeping warm: next setpoint, and from the last one back to boiling. */
  function FuncInWarm(p: Pot): (q: Pot)
    ensures p.slope.Shaped() ==> q.slope.Shaped()
  {
    if p.warmSet == 55 then p.(warmSet := 60)
    else if p.warmSet == 60 then p.(warmSet := 80)
    else if p.warmSet == 80 then p.(warmSet := 90)
    else if p.cooldown > 0 then p
    else
      SlopeReset(p.(state := Heat, mode := Boil100, warmSet := WARM_DEFAULT_C, heatSeconds := 0,
                    boilConfirm := false, boilHold := 0, overtemp := 0, glitch := 0))
  }

  function PressFunc(p: Pot): (q: Pot)
    ensures p.slope.Shaped() ==> q.slope.Shaped()
  {
    match p.state
    case Off => p.(mode := NextMode(p.mode))
    case Heat => FuncInHeat(p)
    case Warm => FuncInWarm(p)
    case Fault => p
  }

  function StartSetpoint(m: Mode): nat {
    match m
    case Boil100 => WARM_DEFAULT_C
    case Direct55 => 55
    case Direct80 => 80
  }

  /** ON/OFF in standby: refused under the lock, a fault on a bad probe, otherwise start heating. */
  function Start(p: Pot): (q: Pot)
    ensures p.slope.Shaped() ==> q.slope.Shaped()
  {
    if p.cooldown > 0 then p
    else if p.adc >= NTC_OPEN_RAW || p.adc <= NTC_SHORT_RAW then
      EnterFault(p.(muted := false), if p.adc >= NTC_OPEN_RAW then 1 else 2)
    else
      SlopeReset(p.(state := Heat, fault := 0, muted := false, warmSet := StartSetpoint(p.mode), boilHold := 0,
                    boilConfirm := false, heatSeconds := 0, overtemp := 0, glitch := 0))
  }

  /** ON/OFF in a fault: acknowledge it; a sensor fault becomes muted standby. */
  function Acknowledge(p: Pot): Pot {
    if ThermalFault(p.fault) then
      p.(state := Off, fault := 0, muted := false, heatSeconds := 0, overtemp := 0, recover := 0, mode := Boil100)
    else
      p.(state := Off, muted := true, heater := false, mode := Boil100)
  }

  function PressOnOff(p: Pot): (q: Pot)
    ensures p.slope.Shaped() ==> q.slope.Shaped()
  {
    match p.state
    case Off => Start(p)
    case Heat => StandBy(p)
    case Warm => StandBy(p)
    case Fault => Acknowledge(p)
  }

  function StandBy(p: Pot): Pot {
    p.(state := Off, heater := false, boilConfirm := false, boilHold := 0, heatSeconds := 0, overtemp := 0, mode := Boil100)
  }

  function HandleButtons(p: Pot, func: bool, onoff: bool): (q: Pot)
    ensures p.slope.Shaped() ==> q.slope.Shaped()
  {
    var q := if func then PressFunc(p) else p;
    if onoff then PressOnOff(q) else q
  }

  // ---------- 100 ms control task ----------

  function Read(p: Pot, adc: nat): (q: Pot)
    ensures q.slope == p.slope
  {
    p.(adc := adc, temp := Ntc.Celsius(adc))
  }

  /** Judge the probe on the code just read. */
  function Judge(q: Pot): (r: Pot)
    ensures r.slope == q.slope
  {
    if q.adc >= NTC_OPEN_RAW then
      if q.state.Off? && q.muted then q.(fault := 1) else EnterFault(q, 1)
    else if q.adc <= NTC_SHORT_RAW then
      if q.state.Off? && q.muted then q.(fault := 2) else EnterFault(q, 2)
    else q
  }

  /** Count the healthy streak of a sensor fault, audible or muted. */
  function Streak(r: Pot): (q: Pot)
    ensures q.slope == r.slope
  {
    if Healthy(r.adc) && ((r.state.Fault? && (r.fault == 1 || r.fault == 2)) || (r.state.Off? && r.muted)) then
      if r.recover < 255 then r.(recover := r.recover + 1) else r
    else
      r.(recover := 0)
  }

  function Sense(p: Pot, adc: nat): (q: Pot)
    ensures p.slope.Shaped() ==> q.slope.Shaped()
  {
    Streak(Judge(Read(p, adc)))
  }

  /** Every re-energize path goes through the dwell gate. */
  function Demand(p: Pot): Pot {
    if p.relayOff >= RELAY_DWELL_SECONDS then p.(heater := true) else p
  }

  /** One 100 ms tick of the boil confirmation, contact open. */
  function BoilTick(p: Pot): Pot {
    var q := p.(heater := false, boilConfirm := true, boilHold := U8(p.boilHold + 1));
    if q.boilHold >= BOIL_HOLD_TICKS then q.(state := Warm, boilConfirm := false, overtemp := 0) else q
  }

  function HeatBranch(p: Pot): Pot {
    match p.mode
    case Direct55 => if p.temp >= 55 then ToWarm(p).(warmSet := 55) else Demand(p)
    case Direct80 => if p.temp >= 80 then ToWarm(p).(warmSet := 80) else Demand(p)
    case Boil100 =>
      if (p.boilConfirm || p.temp >= BOIL_TEMP_C) && p.adc > OVERTEMP_RAW then
        BoilTick(p)
      else Demand(p)
  }

  function OffBranch(p: Pot): Pot {
    var q := p.(heater := false, boilHold := 0, boilConfirm := false, heatSeconds := 0, overtemp := 0);
    if q.muted && q.recover >= FAULT_RECOVER_TICKS then q.(muted := false, fault := 0, recover := 0) else q
  }

  function WarmBranch(p: Pot): Pot {
    if p.warmSet > WARM_HYST_C && p.temp < p.warmSet - WARM_HYST_C then Demand(p)
    else if p.temp > U8(p.warmSet + WARM_HYST_C) then p.(heater := false)
    else p
  }

  function FaultBranch(p: Pot): Pot {
    var q := p.(heater := false);
    if !ThermalFault(q.fault) && q.recover >= FAULT_RECOVER_TICKS then
      q.(state := Off, fault := 0, muted := false, recover := 0)
    else q
  }

  function Branch(p: Pot): (q: Pot)
    ensures p.slope.Shaped() ==> q.slope.Shaped()
  {
    match p.state
    case Off => OffBranch(p)
    case Heat => HeatBranch(p)
    case Warm => WarmBranch(p)
    case Fault => FaultBranch(p)
  }

  function Control(p: Pot, adc: nat): (q: Pot)
    ensures p.slope.Shaped() ==> q.slope.Shaped()
  {
    var q := Branch(Sense(p, adc));
    if (q.state.Heat? || q.state.Warm?) && q.adc <= OVERTEMP_RAW then q.(heater := false) else q
  }

  // ---------- 1 s task ----------

  function RelayClock(p: Pot): Pot {
    if p.heater then p.(relayOff := 0)
    else if p.relayOff < 255 then p.(relayOff := p.relayOff + 1)
    else p
  }

  function OvertempWatch(p: Pot): (q: Pot)
    ensures p.slope.Shaped() ==> q.slope.Shaped()
  {
    if (p.state.Heat? || p.state.Warm?) && p.adc > NTC_SHORT_RAW && p.adc <= OVERTEMP_RAW then
      var q := p.(overtemp := U8(p.overtemp + 1));
      if q.overtemp >= OVERTEMP_SECONDS then EnterFault(q, 4) else q
    else p.(overtemp := 0)
  }

  /** The unconditional countdown of the cooling lock. */
  function Cool(p: Pot): Pot {
    if p.cooldown > 0 then p.(cooldown := p.cooldown - 1) else p
  }

  function Second(p: Pot): (q: Pot)
    requires p.slope.Shaped()
    ensures q.slope.Shaped()
  {
    SlopeTask(OvertempWatch(Cool(RelayClock(p))))
  }

  // ---------- one super-loop pass ----------

  /** Up to and including the 100 ms task. */
  function Front(p: Pot, i: Input): (q: Pot)
    requires p.slope.Shaped()
    ensures q.slope.Shaped()
  {
    var b := HandleButtons(p, i.func, i.onoff);
    if b.div100 + 1 >= 10 then Control(b.(div100 := 0), i.adc) else b.(div100 := b.div100 + 1)
  }

  /** The 1 s task runs in this pass. */
  predicate Due(p: Pot) { p.div1000 + 1 >= 100 }

  function Tick(p: Pot, i: Input): (q: Pot)
    requires p.slope.Shaped()
    ensures q.slope.Shaped()
  {
    var c := Front(p, i);
    if c.div1000 + 1 >= 100 then Second(c.(div1000 := 0)) else c.(div1000 := c.div1000 + 1)
  }

  /** The relay pin as the output stage drives it. */
  function Pin(p: Pot): bool { p.cooldown == 0 && p.heater }

  /** Power-up: sample the probe, latch the lock if the plate is hot, then initialise. */
  function Boot(adc: nat): (p: Pot)
    ensures p.slope.Shaped()
  {
    var t := Ntc.Celsius(adc);
    SlopeReset(Pot(Off, t, adc, 0, WARM_DEFAULT_C, Boil100, false, 255,
                   if t >= DRYFIRE_TEMP_C then COOLDOWN_SECONDS else 0,
                   0, 0, false, 0, 0, false, 0, 0, 0, Refill(adc)))
  }

  function Run(p: Pot, ins: seq<Input>): (q: Pot)
    requires p.slope.Shaped()
    ensures q.slope.Shaped()
  {
    if |ins| == 0 then p else Tick(Run(p, ins[..|ins| - 1]), ins[|ins| - 1])
  }
}
