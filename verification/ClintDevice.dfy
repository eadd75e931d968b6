/** The interruptor with its own fields, each method proved against the step machine. */
module ClintDevice {
  import opened Arithmetic
  import opened Bytes
  import opened Tlm
  import opened Clint

  /** `slice_write`: the register's bytes are patched in a local buffer. */
  method PatchSlice(value: nat, sub: nat, src: seq<Byte>) returns (r: nat)
    requires sub + |src| <= REG_BYTES
    ensures r == SliceWrite(value, sub, src)
  {
    var image := FromNat(value, REG_BYTES);
    var bytes := new Byte[REG_BYTES];
    for i := 0 to REG_BYTES
      invariant forall j :: 0 <= j < i ==> bytes[j] == image[j]
    {
      bytes[i] := image[i];
    }
    for i := 0 to |src|
      invariant forall j :: 0 <= j < REG_BYTES ==> bytes[j] == if sub <= j < sub + i then src[j - sub] else image[j]
    {
      bytes[sub + i] := src[i];
    }
    assert bytes[..] == Patch(image, sub, src);
    r := ToNat(bytes[..]);
  }

  class Device {
    var mtimecmp: nat
    var msip: nat
    var mtip: bool
    var msipLevel: bool
    var now: nat
    var event: Pending
    var ready: bool

    function View(): State
      reads this
    {
      State(mtimecmp, msip, mtip, msipLevel, now, event, ready)
    }

    constructor ()
      ensures View() == INITIAL
    {
      mtimecmp, msip, mtip, msipLevel, now, event, ready := 0, 0, false, false, 0, Nothing, false;
    }

    method RescheduleEvent()
      modifies this`event
      ensures View() == Reschedule(old(View()))
    {
      if mtimecmp == 0 {
        return;
      }
      var goal := mtimecmp * SCALER % TWO64;
      if goal > now {
        if event == Nothing || (event.At? && goal < event.time) {
          event := At(goal);
        }
      } else {
        event := Delta;
      }
    }

    /** One turn of `timer_proc`, after its wait. */
    method TimerTurn()
      modifies this`mtip, this`event, this`ready
      ensures View() == RunTimer(old(View()))
    {
      ready := false;
      if mtimecmp != 0 && now / SCALER >= mtimecmp {
        mtip := true;
      } else {
        mtip := false;
        RescheduleEvent();
      }
    }

    method BTransport(a: Access) returns (response: Response, ptr: Option<seq<Byte>>)
      requires WellFormed(a)
      modifies this`msip, this`msipLevel, this`mtimecmp, this`event
      ensures (View(), response, ptr) == Transport(old(View()), a)
    {
      ptr := a.ptr;
      if a.ptr.None? {
        return GenericError, ptr;
      }
      response := Ok;
      if a.addr == MSIP && a.len == 4 {
        if a.read {
          ptr := Some(FromNat(msip, 4));
        } else {
          msip := ToNat(a.ptr.value) % 2;
          msipLevel := msip != 0;
        }
      } else if a.addr >= MTIMECMP && a.addr + a.len <= MTIMECMP + REG_BYTES {
        var sub := a.addr - MTIMECMP;
        if a.read {
          ptr := Some(SliceRead(mtimecmp, sub, a.len));
        } else {
          mtimecmp := PatchSlice(mtimecmp, sub, a.ptr.value);
          event := Delta;
        }
      } else if a.addr >= MTIME && a.addr + a.len <= MTIME + REG_BYTES {
        if a.read {
          ptr := Some(SliceRead(now / SCALER, a.addr - MTIME, a.len));
        }
      } else {
        response := AddressError;
      }
    }
  }
}
