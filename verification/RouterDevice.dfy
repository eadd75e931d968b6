/** The router as an object: a growing list of ranges in front of memories that it updates in place. */
module RouterDevice {
  import opened Memory
  import opened Tlm
  import opened Router
  import MemoryDevice

  class Device {
    var ranges: seq<Range>
    const sockets: seq<MemoryDevice.Device>   // the memory bound to each downstream socket

    ghost function Stores(): set<object> {
      set m | m in sockets :: m.data
    }

    ghost predicate Valid()
      reads this
    {
      && |ranges| <= |sockets|
      && forall i, j :: 0 <= i < j < |sockets| ==> sockets[i].data != sockets[j].data
    }

    ghost function View(): System
      requires Valid()
      reads this, Stores()
    {
      System(ranges, seq(|ranges|, i requires 0 <= i < |sockets| reads Stores() => sockets[i].View()))
    }

    constructor (sockets: seq<MemoryDevice.Device>)
      requires forall i, j :: 0 <= i < j < |sockets| ==> sockets[i].data != sockets[j].data
      ensures Valid() && this.sockets == sockets && ranges == []
    {
      this.sockets := sockets;
      ranges := [];
    }

    /** Maps the next socket; refused once every socket is in use. */
    method AddTarget(base: nat, size: nat) returns (socket: Option<nat>)
      requires Valid()
      modifies this`ranges
      ensures Valid()
      ensures socket.Some? <==> |old(ranges)| < |sockets|
      ensures ranges == if socket.Some? then old(ranges) + [Range(base, size)] else old(ranges)
      ensures socket.Some? ==> socket.value == |old(ranges)|
    {
      if |ranges| >= |sockets| {
        return None;
      }
      socket := Some(|ranges|);
      ranges := ranges + [Range(base, size)];
    }

    /** `decode`: the first range containing the address, or -1. */
    method DecodeAddress(addr: nat) returns (index: int)
      ensures match Decode(ranges, addr)
              case Some(i) => index == i
              case None => index == -1
    {
      for i := 0 to |ranges|
        invariant DecodeFrom(ranges, addr, i) == Decode(ranges, addr)
      {
        if Contains(ranges[i], addr) {
          return i;
        }
      }
      return -1;
    }

    method BTransport(p: Payload) returns (q: Payload)
      requires Valid() && WellFormed(p)
      modifies Stores()
      ensures Valid() && (View(), q) == Router.BTransport(old(View()), p)
    {
      var index := DecodeAddress(p.address);
      if index < 0 {
        return p.(response := AddressError);
      }
      DecodeFromSpec(ranges, p.address, 0);
      ghost var before := View();
      q := sockets[index].BTransport(p.(address := p.address - ranges[index].base));
      q := q.(address := p.address);
      assert View().memories == before.memories[index := sockets[index].View()];
    }

    method TransportDbg(p: Payload) returns (q: Payload, n: nat)
      requires Valid() && WellFormed(p)
      modifies Stores()
      ensures Valid() && (View(), q, n) == Router.TransportDbg(old(View()), p)
    {
      var index := DecodeAddress(p.address);
      if index < 0 {
        return p.(response := AddressError), 0;
      }
      DecodeFromSpec(ranges, p.address, 0);
      ghost var before := View();
      q, n := sockets[index].TransportDbg(p.(address := p.address - ranges[index].base));
      q := q.(address := p.address);
      assert View().memories == before.memories[index := sockets[index].View()];
    }
  }
}
