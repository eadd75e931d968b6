/** A flat memory, ROM or RAM, addressed from 0, and the payload it is accessed with. */
module Memory {
  import opened Arithmetic
  import opened Bytes
  import opened Tlm

  datatype Command = ReadCommand | WriteCommand | IgnoreCommand

  /** `ptr` is the data buffer, or None for a null pointer; it holds at least `len` bytes. */
  datatype Payload = Payload(
    command: Command, address: nat, len: nat, ptr: Option<seq<Byte>>, dmiAllowed: bool, response: Response)

  predicate WellFormed(p: Payload) {
    p.ptr.Some? ==> p.len <= |p.ptr.value|
  }

  datatype Mem = Mem(bytes: seq<Byte>, readOnly: bool)

  /** The buffer after n bytes have been copied to its front. */
  function Filled(buffer: seq<Byte>, data: seq<Byte>): seq<Byte>
    requires |data| <= |buffer|
  {
    Patch(buffer, 0, data)
  }

  function Load(m: Mem, data: seq<Byte>, offset: nat): (Mem, bool) {
    if offset > |m.bytes| || |data| > |m.bytes| - offset then (m, false)
    else (m.(bytes := Patch(m.bytes, offset, data)), true)
  }

  function BTransport(m: Mem, p: Payload): (Mem, Payload)
    requires WellFormed(p)
  {
    if p.address > |m.bytes| || p.len > |m.bytes| - p.address then (m, p.(response := AddressError))
    else if p.ptr.None? then (m, p.(response := GenericError))
    else
      match p.command
      case ReadCommand =>
        var data := m.bytes[p.address..p.address + p.len];
        (m, p.(ptr := Some(Filled(p.ptr.value, data)), dmiAllowed := true, response := Ok))
      case WriteCommand =>
        if m.readOnly then (m, p.(response := CommandError))
        else (m.(bytes := Patch(m.bytes, p.address, p.ptr.value[..p.len])), p.(dmiAllowed := true, response := Ok))
      case IgnoreCommand => (m, p.(response := CommandError))
  }

  /** The count is the number of bytes moved. */
  function TransportDbg(m: Mem, p: Payload): (Mem, Payload, nat)
    requires WellFormed(p)
  {
    if p.address > |m.bytes| || p.ptr.None? then (m, p.(response := AddressError), 0)
    else
      var n := Min(p.len, |m.bytes| - p.address);
      match p.command
      case ReadCommand =>
        var data := m.bytes[p.address..p.address + n];
        (m, p.(ptr := Some(Filled(p.ptr.value, data)), response := Ok), n)
      case WriteCommand =>
        if m.readOnly then (m, p, 0)
        else (m.(bytes := Patch(m.bytes, p.address, p.ptr.value[..n])), p.(response := Ok), n)
      case IgnoreCommand => (m, p, 0)
  }
}
