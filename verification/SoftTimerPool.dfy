/** The timer table as the C code keeps it, updated in place. */
module SoftTimerPool {
  import opened Status
  import opened Spec = SoftTimer

  class Timers {
    var on: bool
    const slots: array<Timer>

    predicate Valid()
    {
      slots.Length == MAX_TIMERS
    }

    function View(): Table
      requires Valid()
      reads this, slots
    {
      Table(on, slots[..])
    }

    constructor ()
      ensures Valid() && fresh(slots) && View() == Cold()
    {
      on := false;
      slots := new Timer[MAX_TIMERS](_ => FREE);
    }

    method Init()
      requires Valid()
      modifies `on, slots
      ensures View() == Spec.Init(old(View()))
    {
      for i := 0 to MAX_TIMERS
        invariant forall j :: 0 <= j < i ==> slots[j] == FREE
      {
        slots[i] := FREE;
      }
      on := true;
    }

    method Create(cb: nat, arg: nat, mode: Mode, ms: nat) returns (r: Created)
      requires Valid()
      modifies slots
      ensures (r, View()) == Spec.Create(old(View()), cb, arg, mode, ms)
    {
      if !on || cb == 0 || ms == 0 {
        return Failed(InvalidArg);
      }
      var period := ms / TICK_MS;
      if period == 0 {
        period := 1;
      }
      var i := 0;
      while i < MAX_TIMERS && slots[i].cb != 0
        invariant i <= MAX_TIMERS && FreeSlot(slots[..], 0) == FreeSlot(slots[..], i)
      {
        i := i + 1;
      }
      if i >= MAX_TIMERS {
        return Failed(NoMem);
      }
      slots[i] := Timer(cb, arg, mode, period, period, false);
      return Handle(i);
    }

    method Start(h: int) returns (status: Status)
      requires Valid()
      modifies slots
      ensures (status, View()) == Spec.Start(old(View()), h)
    {
      if !on || h < 0 || h >= MAX_TIMERS {
        return InvalidArg;
      }
      if slots[h].cb == 0 {
        return InvalidArg;
      }
      slots[h] := slots[h].(remaining := slots[h].period, active := true);
      return Ok;
    }

    method Stop(h: int) returns (status: Status)
      requires Valid()
      modifies slots
      ensures (status, View()) == Spec.Stop(old(View()), h)
    {
      if !on || h < 0 || h >= MAX_TIMERS {
        return InvalidArg;
      }
      slots[h] := slots[h].(active := false);
      return Ok;
    }

    method Destroy(h: int) returns (status: Status)
      requires Valid()
      modifies slots
      ensures (status, View()) == Spec.Destroy(old(View()), h)
    {
      if !on || h < 0 || h >= MAX_TIMERS {
        return InvalidArg;
      }
      if slots[h].cb == 0 {
        return Ok;
      }
      slots[h] := FREE;
      return Ok;
    }

    method ChangePeriod(h: int, ms: nat) returns (status: Status)
      requires Valid()
      modifies slots
      ensures (status, View()) == Spec.ChangePeriod(old(View()), h, ms)
    {
      if !on || h < 0 || h >= MAX_TIMERS {
        return InvalidArg;
      }
      if slots[h].cb == 0 {
        return InvalidArg;
      }
      if ms == 0 {
        return InvalidArg;
      }
      var period := ms / TICK_MS;
      if period == 0 {
        period := 1;
      }
      slots[h] := slots[h].(period := period);
      if slots[h].active && slots[h].remaining > period {
        slots[h] := slots[h].(remaining := period);
      }
      assert slots[..] == old(slots[..])[h := slots[h]];
      return Ok;
    }

    /** What a callback does before it returns. */
    method RunCallback(ops: seq<Op>)
      requires Valid()
      modifies `on, slots
      ensures View() == ApplyAll(old(View()), ops)
    {
      for i := 0 to |ops|
        invariant View() == ApplyAll(old(View()), ops[..i])
      {
        assert ops[..i + 1][..i] == ops[..i];
        label before:
        match ops[i] {
          case InitOp => Init();
          case CreateOp(cb, arg, mode, ms) => var r := Create(cb, arg, mode, ms);
          case StartOp(h) => var s := Start(h);
          case StopOp(h) => var s := Stop(h);
          case DestroyOp(h) => var s := Destroy(h);
          case ChangeOp(h, ms) => var s := ChangePeriod(h, ms);
        }
        assert View() == Apply(old@before(View()), ops[i]);
      }
      assert ops[..|ops|] == ops;
    }

    /** One slot's turn; a callback may change this very slot. */
    method Visit(i: nat, script: Script)
      requires Valid() && i < MAX_TIMERS
      modifies `on, slots
      ensures View() == Spec.Visit(old(View()), i, script)
    {
      if slots[i].cb == 0 || !slots[i].active {
        assert CountDown(slots[i]) == slots[i];
        assert View().ts[i := slots[i]] == View().ts;
        return;
      }
      ghost var d := Table(on, slots[..][i := CountDown(slots[i])]);
      ghost var due := Due(slots[i]);
      if slots[i].remaining > 0 {
        slots[i] := slots[i].(remaining := slots[i].remaining - 1);
      }
      assert View() == d && due == (slots[i].remaining == 0);
      if slots[i].remaining != 0 {
        return;
      }
      RunCallback(script.ops);
      if !script.ok || slots[i].mode.Oneshot? {
        slots[i] := slots[i].(active := false);
      } else {
        slots[i] := slots[i].(remaining := slots[i].period);
      }
    }

    method Dispatch(scripts: seq<Script>)
      requires Valid() && |scripts| == MAX_TIMERS
      modifies `on, slots
      ensures View() == Spec.Dispatch(old(View()), scripts).t
    {
      if !on {
        return;
      }
      hide Spec.Visit;
      for i := 0 to MAX_TIMERS
        invariant View() == VisitUpTo(old(View()), scripts, i).t
      {
        Visit(i, scripts[i]);
      }
    }
  }
}
