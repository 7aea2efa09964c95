/** Sharing the hardware timers among PWM channels (pal_pwm_router.c): what each call does to the
    timer slots and the channel tables. */
module Pwm {
  import opened Status

  const TIMERS: nat := 4
  const NO_TIMER: nat := 0xFF

  datatype Profile = Profile(freq: nat, bits: nat, clock: nat)

  const NO_PROFILE := Profile(0, 0, 0)

  /** A profile pointer. */
  datatype Arg = Null | Given(p: Profile)

  /** `refs` is an eight-bit counter. */
  datatype Slot = Slot(profile: Profile, refs: nat)

  const FREE := Slot(NO_PROFILE, 0)

  datatype State = State(timers: seq<Slot>, ready: seq<bool>, profiles: seq<Profile>, timerOf: seq<nat>)

  /** Four timers and the target's channels, whose ids are eight bits wide. */
  predicate Shape(s: State) {
    |s.timers| == TIMERS && |s.ready| == |s.profiles| == |s.timerOf| <= 255
  }

  predicate ValidProfile(a: Arg) {
    a.Given? && a.p.freq > 0 && 0 < a.p.bits <= 20 && a.p.clock <= 1
  }

  function Blank(channels: nat): State {
    State(seq(TIMERS, _ => FREE), seq(channels, _ => false), seq(channels, _ => NO_PROFILE), seq(channels, _ => NO_TIMER))
  }

  predicate Match(t: Slot, p: Profile) {
    t.refs > 0 && t.profile == p
  }

  /** The first live timer with that profile, else the first free one, else -1. */
  function FindSlot(timers: seq<Slot>, p: Profile): (k: int)
    ensures -1 <= k < |timers|
    ensures k >= 0 ==> Match(timers[k], p) || (timers[k].refs == 0 && forall i :: 0 <= i < |timers| ==> !Match(timers[i], p))
    ensures k == -1 <==> forall i :: 0 <= i < |timers| ==> timers[i].refs > 0 && timers[i].profile != p
    ensures k >= 0 ==> forall i :: 0 <= i < k ==> !Match(timers[i], p) && (timers[k].refs == 0 ==> timers[i].refs > 0)
  {
    var hit, free := FirstMatch(timers, p, 0), FirstFree(timers, 0);
    if hit < |timers| then hit else if free < |timers| then free else -1
  }

  function FirstMatch(timers: seq<Slot>, p: Profile, i: nat): (k: nat)
    requires i <= |timers|
    ensures i <= k <= |timers| && (forall j :: i <= j < k ==> !Match(timers[j], p)) && (k < |timers| ==> Match(timers[k], p))
    decreases |timers| - i
  {
    if i == |timers| || Match(timers[i], p) then i else FirstMatch(timers, p, i + 1)
  }

  function FirstFree(timers: seq<Slot>, i: nat): (k: nat)
    requires i <= |timers|
    ensures i <= k <= |timers| && (forall j :: i <= j < k ==> timers[j].refs > 0) && (k < |timers| ==> timers[k].refs == 0)
    decreases |timers| - i
  {
    if i == |timers| || timers[i].refs == 0 then i else FirstFree(timers, i + 1)
  }

  /** The status, the timer (meaningful with OK) and the new state. */
  function Acquire(s: State, c: nat, a: Arg): (Status, nat, State)
    requires Shape(s)
  {
    if c >= |s.ready| || !ValidProfile(a) then (InvalidArg, 0, s)
    else if s.ready[c] then (if s.profiles[c] == a.p then (Ok, s.timerOf[c], s) else (Busy, 0, s))
    else
      var k := FindSlot(s.timers, a.p);
      if k < 0 then (ResourceExhausted, 0, s)
      else (Ok, k, State(s.timers[k := Slot(a.p, (s.timers[k].refs + 1) % 256)],
                         s.ready[c := true], s.profiles[c := a.p], s.timerOf[c := k]))
  }

  function Release(s: State, c: nat): State
    requires Shape(s)
  {
    if c >= |s.ready| || !s.ready[c] then s
    else
      var t := s.timerOf[c];
      var timers := if t < TIMERS && s.timers[t].refs > 0 then
                      s.timers[t := if s.timers[t].refs == 1 then FREE else s.timers[t].(refs := s.timers[t].refs - 1)]
                    else s.timers;
      State(timers, s.ready[c := false], s.profiles[c := NO_PROFILE], s.timerOf[c := NO_TIMER])
  }

  function SetFreq(s: State, c: nat, freq: nat): (Status, State)
    requires Shape(s)
  {
    if c >= |s.ready| || !s.ready[c] || freq == 0 then (InvalidArg, s)
    else
      var t := s.timerOf[c];
      (Ok, s.(profiles := s.profiles[c := s.profiles[c].(freq := freq)],
              timers := if t < TIMERS then s.timers[t := s.timers[t].(profile := s.timers[t].profile.(freq := freq))] else s.timers))
  }
}
