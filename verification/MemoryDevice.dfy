/** The memory with its own byte array, updated in place. */
module MemoryDevice {
  import opened Arithmetic
  import opened Bytes
  import opened Memory
  import opened Tlm

  class Device {
    const data: array<Byte>
    const readOnly: bool

    function View(): Mem
      reads data
    {
      Mem(data[..], readOnly)
    }

    constructor (size: nat, readOnly: bool)
      ensures this.readOnly == readOnly && fresh(data)
      ensures View() == Mem(seq(size, _ => 0), readOnly)
    {
      var bytes := new Byte[size](_ => 0);
      this.readOnly := readOnly;
      data := bytes;
      new;
      assert data[..] == seq(size, _ => 0);
    }

    /** `memcpy` into the store. */
    method CopyIn(src: seq<Byte>, offset: nat)
      requires offset + |src| <= data.Length
      modifies data
      ensures data[..] == Patch(old(data[..]), offset, src)
    {
      for i := 0 to |src|
        invariant forall j :: 0 <= j < data.Length ==>
                    data[j] == if offset <= j < offset + i then src[j - offset] else old(data[j])
      {
        data[offset + i] := src[i];
      }
      assert data[..] == Patch(old(data[..]), offset, src);
    }

    method LoadImage(src: seq<Byte>, offset: nat) returns (ok: bool)
      modifies data
      ensures (View(), ok) == Load(old(View()), src, offset)
    {
      if offset > data.Length || |src| > data.Length - offset {
        return false;
      }
      CopyIn(src, offset);
      return true;
    }

    method BTransport(p: Payload) returns (q: Payload)
      requires WellFormed(p)
      modifies data
      ensures (View(), q) == Memory.BTransport(old(View()), p)
    {
      if p.address > data.Length || p.len > data.Length - p.address {
        return p.(response := AddressError);
      }
      if p.ptr.None? {
        return p.(response := GenericError);
      }
      q := p;
      if p.command.ReadCommand? {
        q := q.(ptr := Some(Patch(p.ptr.value, 0, data[p.address..p.address + p.len])));
      } else if p.command.WriteCommand? {
        if readOnly {
          return p.(response := CommandError);
        }
        CopyIn(p.ptr.value[..p.len], p.address);
      } else {
        return p.(response := CommandError);
      }
      q := q.(dmiAllowed := true, response := Ok);
    }

    method TransportDbg(p: Payload) returns (q: Payload, n: nat)
      requires WellFormed(p)
      modifies data
      ensures (View(), q, n) == Memory.TransportDbg(old(View()), p)
    {
      if p.address > data.Length || p.ptr.None? {
        return p.(response := AddressError), 0;
      }
      n := Min(p.len, data.Length - p.address);
      q := p;
      if p.command.ReadCommand? {
        q := q.(ptr := Some(Patch(p.ptr.value, 0, data[p.address..p.address + n])));
      } else if p.command.WriteCommand? && !readOnly {
        CopyIn(p.ptr.value[..n], p.address);
      } else {
        return p, 0;
      }
      q := q.(response := Ok);
    }
  }
}
