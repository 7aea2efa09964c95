/** The DAC channels as the C code keeps them, updated in place. */
module DacPool {
  import opened Arith
  import opened Status
  import opened Spec = Dac

  class Dac {
    const channels: array<Channel>

    constructor (n: nat)
      ensures fresh(channels) && channels.Length == n && forall i :: 0 <= i < n ==> channels[i] == OFF
    {
      channels := new Channel[n](_ => OFF);
    }

    predicate AllValid()
      reads channels
    {
      forall i :: 0 <= i < channels.Length ==> Valid(channels[i])
    }

    /** `given` is false for a missing configuration. */
    method Init(ch: nat, given: bool, fullScale: nat, bits: nat) returns (status: Status)
      modifies channels
      ensures status == (if ch >= channels.Length || !given then InvalidArg
                         else if old(channels[..])[ch].on then AlreadyInitialized
                         else Ok)
      ensures channels[..] == if status.Ok? then old(channels[..])[ch := Spec.Init(old(channels[..])[ch], fullScale, bits)] else old(channels[..])
    {
      if ch >= channels.Length || !given {
        return InvalidArg;
      }
      if channels[ch].on {
        return AlreadyInitialized;
      }
      var scale := if fullScale > 0 then fullScale else 3300;
      var width := if bits > 0 then bits else 8;
      channels[ch] := Channel(true, scale, width, 0, 0);
      return Ok;
    }

    method Deinit(ch: nat)
      modifies channels
      ensures channels[..] == if ch < channels.Length then old(channels[..])[ch := OFF] else old(channels[..])
    {
      if ch < channels.Length {
        channels[ch] := OFF;
      }
    }

    method WriteRaw(ch: nat, raw: nat) returns (status: Status)
      requires AllValid()
      modifies channels
      ensures AllValid()
      ensures status == (if ch >= channels.Length then InvalidArg else if !old(channels[..])[ch].on then NotInitialized else Ok)
      ensures channels[..] == if status.Ok? then old(channels[..])[ch := Spec.WriteRaw(old(channels[..])[ch], raw)] else old(channels[..])
    {
      if ch >= channels.Length {
        return InvalidArg;
      }
      if !channels[ch].on {
        return NotInitialized;
      }
      var c := channels[ch];
      var max := MaxRaw(c.bits);
      var r := raw;
      if r > max {
        r := max % U16;
      }
      channels[ch] := channels[ch].(lastRaw := r);
      channels[ch] := channels[ch].(lastMv := (r * c.fullScale + max / 2) % U32 / max % U16);
      assert channels[..] == old(channels[..])[ch := Spec.WriteRaw(c, raw)];
      return Ok;
    }

    method WriteVoltage(ch: nat, mv: nat) returns (status: Status)
      requires AllValid()
      modifies channels
      ensures AllValid()
      ensures status == (if ch >= channels.Length then InvalidArg else if !old(channels[..])[ch].on then NotInitialized else Ok)
      ensures channels[..] == if status.Ok? then old(channels[..])[ch := Spec.WriteVoltage(old(channels[..])[ch], mv)] else old(channels[..])
    {
      if ch >= channels.Length {
        return InvalidArg;
      }
      if !channels[ch].on {
        return NotInitialized;
      }
      var c := channels[ch];
      var m := mv;
      if m > c.fullScale {
        m := c.fullScale;
      }
      var raw := (m * MaxRaw(c.bits) + c.fullScale / 2) % U32 / c.fullScale % U16;
      assert raw == ToRaw(m, c.fullScale, MaxRaw(c.bits));
      hide Spec.WriteRaw;
      status := WriteRaw(ch, raw);
    }

    method GetVoltage(ch: nat) returns (status: Status, mv: nat)
      ensures status == (if ch >= channels.Length then InvalidArg else if !channels[ch].on then NotInitialized else Ok)
      ensures status.Ok? ==> mv == channels[ch].lastMv
    {
      if ch >= channels.Length {
        return InvalidArg, 0;
      }
      if !channels[ch].on {
        return NotInitialized, 0;
      }
      return Ok, channels[ch].lastMv;
    }
  }
}
