/** The router as the C code keeps it: static tables updated in place. */
module PwmPool {
  import opened Status
  import opened Spec = Pwm

  class Router {
    const timers: array<Slot>
    const ready: array<bool>
    const profiles: array<Profile>
    const timerOf: array<nat>

    predicate Valid()
    {
      && timers.Length == TIMERS && ready.Length == profiles.Length == timerOf.Length <= 255
    }

    function View(): (s: State)
      requires Valid()
      reads timers, ready, profiles, timerOf
      ensures Shape(s)
    {
      State(timers[..], ready[..], profiles[..], timerOf[..])
    }

    constructor (channels: nat)
      requires channels <= 255
      ensures Valid() && fresh(timers) && fresh(ready) && fresh(profiles) && fresh(timerOf) && View() == Blank(channels)
    {
      timers := new Slot[TIMERS](_ => FREE);
      ready := new bool[channels](_ => false);
      profiles := new Profile[channels](_ => NO_PROFILE);
      timerOf := new nat[channels](_ => NO_TIMER);
    }

    method Reset()
      requires Valid()
      modifies timers, ready, profiles, timerOf
      ensures View() == Blank(ready.Length)
    {
      for t := 0 to TIMERS
        invariant forall i :: 0 <= i < t ==> timers[i] == FREE
      {
        timers[t] := FREE;
      }
      for c := 0 to ready.Length
        invariant timers[..] == Blank(ready.Length).timers
        invariant forall i :: 0 <= i < c ==> !ready[i] && profiles[i] == NO_PROFILE && timerOf[i] == NO_TIMER
      {
        ready[c] := false;
        profiles[c] := NO_PROFILE;
        timerOf[c] := NO_TIMER;
      }
    }

    method FindSlot(p: Profile) returns (k: int)
      requires Valid()
      ensures k == Spec.FindSlot(timers[..], p)
    {
      var free := -1;
      for t := 0 to TIMERS
        invariant forall i :: 0 <= i < t ==> !Match(timers[i], p)
        invariant -1 <= free < t && (free >= 0 ==> timers[free].refs == 0)
        invariant forall i :: 0 <= i < (if free >= 0 then free else t) ==> timers[i].refs > 0
      {
        if timers[t].refs > 0 && timers[t].profile == p {
          return t;
        }
        if timers[t].refs == 0 && free < 0 {
          free := t;
        }
      }
      return free;
    }

    method Acquire(c: nat, a: Arg) returns (status: Status, timer: nat)
      requires Valid()
      modifies timers, ready, profiles, timerOf
      ensures (status, timer, View()) == Spec.Acquire(old(View()), c, a)
    {
      if c >= ready.Length || !ValidProfile(a) {
        return InvalidArg, 0;
      }
      if ready[c] {
        if profiles[c] == a.p {
          return Ok, timerOf[c];
        }
        return Busy, 0;
      }
      var k := FindSlot(a.p);
      if k < 0 {
        return ResourceExhausted, 0;
      }
      hide Spec.FindSlot;
      assert Match(timers[..][k], a.p) || timers[..][k].refs == 0;
      if timers[k].refs == 0 {
        timers[k] := timers[k].(profile := a.p);
      }
      timers[k] := timers[k].(refs := (timers[k].refs + 1) % 256);
      ready[c] := true;
      profiles[c] := a.p;
      timerOf[c] := k;
      assert timers[..] == old(timers[..])[k := Slot(a.p, (old(timers[..])[k].refs + 1) % 256)];
      assert ready[..] == old(ready[..])[c := true] && profiles[..] == old(profiles[..])[c := a.p];
      assert timerOf[..] == old(timerOf[..])[c := k];
      return Ok, k;
    }

    method Release(c: nat)
      requires Valid()
      modifies timers, ready, profiles, timerOf
      ensures View() == Spec.Release(old(View()), c)
    {
      if c >= ready.Length || !ready[c] {
        return;
      }
      var t := timerOf[c];
      if t < TIMERS && timers[t].refs > 0 {
        timers[t] := timers[t].(refs := timers[t].refs - 1);
        if timers[t].refs == 0 {
          timers[t] := timers[t].(profile := NO_PROFILE);
        }
      }
      ready[c] := false;
      profiles[c] := NO_PROFILE;
      timerOf[c] := NO_TIMER;
    }

    method SetFreq(c: nat, freq: nat) returns (status: Status)
      requires Valid()
      modifies timers, profiles
      ensures (status, View()) == Spec.SetFreq(old(View()), c, freq)
    {
      if c >= ready.Length || !ready[c] || freq == 0 {
        return InvalidArg;
      }
      profiles[c] := profiles[c].(freq := freq);
      var t := timerOf[c];
      if t < TIMERS {
        timers[t] := timers[t].(profile := timers[t].profile.(freq := freq));
      }
      return Ok;
    }
  }
}
