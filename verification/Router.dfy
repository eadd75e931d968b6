/** The address-decoding router in front of a set of memories, and the flat byte store it stands for. */
module Router {
  import opened Arithmetic
  import opened Bytes
  import opened Memory
  import opened Tlm

  datatype Range = Range(base: nat, size: nat)

  /** `address_range::contains`: the end of the region is computed in 64 bits. */
  predicate Contains(r: Range, addr: nat) {
    addr >= r.base && addr < (r.base + r.size) % TWO64
  }

  /** One memory behind each range, in registration order. */
  datatype System = System(ranges: seq<Range>, memories: seq<Mem>)

  function DecodeFrom(ranges: seq<Range>, addr: nat, i: nat): Option<nat>
    requires i <= |ranges|
    decreases |ranges| - i
  {
    if i == |ranges| then None
    else if Contains(ranges[i], addr) then Some(i)
    else DecodeFrom(ranges, addr, i + 1)
  }

  function Decode(ranges: seq<Range>, addr: nat): Option<nat> {
    DecodeFrom(ranges, addr, 0)
  }

  lemma {:induction false} DecodeFromSpec(ranges: seq<Range>, addr: nat, i: nat)
    requires i <= |ranges|
    ensures var d := DecodeFrom(ranges, addr, i);
            && (d.Some? ==> i <= d.value < |ranges| && Contains(ranges[d.value], addr))
            && (d.None? ==> forall j :: i <= j < |ranges| ==> !Contains(ranges[j], addr))
    decreases |ranges| - i
  {
    if i < |ranges| {
      DecodeFromSpec(ranges, addr, i + 1);
    }
  }

  /** Every range is bound to a memory. */
  predicate Bound(sys: System) {
    |sys.ranges| == |sys.memories|
  }

  function BTransport(sys: System, p: Payload): (r: (System, Payload))
    requires Bound(sys) && WellFormed(p)
    ensures Bound(r.0) && r.0.ranges == sys.ranges && r.1.address == p.address
  {
    var d := Decode(sys.ranges, p.address);
    if d.None? then (sys, p.(response := AddressError))
    else
      DecodeFromSpec(sys.ranges, p.address, 0);
      var (m, q) := Memory.BTransport(sys.memories[d.value], p.(address := p.address - sys.ranges[d.value].base));
      (sys.(memories := sys.memories[d.value := m]), q.(address := p.address))
  }

  function TransportDbg(sys: System, p: Payload): (r: (System, Payload, nat))
    requires Bound(sys) && WellFormed(p)
    ensures Bound(r.0) && r.0.ranges == sys.ranges && r.1.address == p.address && r.2 <= p.len
  {
    var d := Decode(sys.ranges, p.address);
    if d.None? then (sys, p.(response := AddressError), 0)
    else
      DecodeFromSpec(sys.ranges, p.address, 0);
      var (m, q, n) := Memory.TransportDbg(sys.memories[d.value], p.(address := p.address - sys.ranges[d.value].base));
      (sys.(memories := sys.memories[d.value := m]), q.(address := p.address), n)
  }

  // ---------------------------------------------------------------- the flat store

  datatype Region = Region(base: nat, size: nat, readOnly: bool)

  predicate Covers(g: Region, addr: nat) {
    g.base <= addr < g.base + g.size
  }

  predicate Disjoint(a: Range, b: Range) {
    a.base + a.size <= b.base || b.base + b.size <= a.base
  }

  /** Regions do not wrap, do not overlap, and have the size of their memory. */
  predicate Good(sys: System) {
    && Bound(sys)
    && (forall i :: 0 <= i < |sys.ranges| ==>
          sys.ranges[i].base + sys.ranges[i].size < TWO64 && |sys.memories[i].bytes| == sys.ranges[i].size)
    && (forall i, j :: 0 <= i < j < |sys.ranges| ==> Disjoint(sys.ranges[i], sys.ranges[j]))
  }

  function RegionAt(sys: System, i: nat): Region
    requires Bound(sys) && i < |sys.ranges|
  {
    Region(sys.ranges[i].base, sys.ranges[i].size, sys.memories[i].readOnly)
  }

  /** The memory map as an unordered set. */
  ghost function Layout(sys: System): set<Region>
    requires Bound(sys)
  {
    set i | 0 <= i < |sys.ranges| :: RegionAt(sys, i)
  }

  /** The one address-to-byte map. */
  ghost function Flat(sys: System): map<nat, Byte>
    requires Good(sys)
  {
    map addr: nat | 0 <= addr < TWO64 && Mapped(sys, addr) :: ByteAt(sys, addr)
  }

  predicate Mapped(sys: System, addr: nat) {
    Decode(sys.ranges, addr).Some?
  }

  function ByteAt(sys: System, addr: nat): Byte
    requires Good(sys) && Mapped(sys, addr)
  {
    DecodeFromSpec(sys.ranges, addr, 0);
    var i := Decode(sys.ranges, addr).value;
    NoWrap(sys, i, addr);
    sys.memories[i].bytes[addr - sys.ranges[i].base]
  }

  lemma NoWrap(sys: System, i: nat, addr: nat)
    requires Good(sys) && i < |sys.ranges|
    ensures Contains(sys.ranges[i], addr) <==> Covers(RegionAt(sys, i), addr)
  {
  }

  /** Bytes written over the store, address by address. */
  ghost function Overlay(store: map<nat, Byte>, addr: nat, data: seq<Byte>): map<nat, Byte> {
    map a | a in store :: if addr <= a < addr + |data| then data[a - addr] else store[a]
  }

  ghost function Fetch(store: map<nat, Byte>, addr: nat, n: nat): seq<Byte> {
    seq(n, i requires 0 <= i < n => if addr + i in store then store[addr + i] else 0)
  }

  /** The region covering an address; in a good layout there is at most one. */
  ghost function TheRegion(layout: set<Region>, addr: nat): Option<Region> {
    if exists g :: g in layout && Covers(g, addr) then
      var g :| g in layout && Covers(g, addr);
      Some(g)
    else None
  }

  /** What an access means on the flat store, with no routing and no registration order. */
  ghost function FlatBTransport(layout: set<Region>, store: map<nat, Byte>, p: Payload): (map<nat, Byte>, Payload)
    requires WellFormed(p)
  {
    var g := TheRegion(layout, p.address);
    if g.None? || p.address + p.len > g.value.base + g.value.size then (store, p.(response := AddressError))
    else if p.ptr.None? then (store, p.(response := GenericError))
    else
      match p.command
      case ReadCommand =>
        var data := Fetch(store, p.address, p.len);
        (store, p.(ptr := Some(Filled(p.ptr.value, data)), dmiAllowed := true, response := Ok))
      case WriteCommand =>
        if g.value.readOnly then (store, p.(response := CommandError))
        else (Overlay(store, p.address, p.ptr.value[..p.len]), p.(dmiAllowed := true, response := Ok))
      case IgnoreCommand => (store, p.(response := CommandError))
  }

  ghost function FlatTransportDbg(layout: set<Region>, store: map<nat, Byte>, p: Payload)
    : (map<nat, Byte>, Payload, nat)
    requires WellFormed(p)
  {
    var g := TheRegion(layout, p.address);
    if g.None? || p.ptr.None? then (store, p.(response := AddressError), 0)
    else
      var n := Min(p.len, g.value.base + g.value.size - p.address);
      match p.command
      case ReadCommand =>
        (store, p.(ptr := Some(Filled(p.ptr.value, Fetch(store, p.address, n))), response := Ok), n)
      case WriteCommand =>
        if g.value.readOnly then (store, p, 0)
        else (Overlay(store, p.address, p.ptr.value[..n]), p.(response := Ok), n)
      case IgnoreCommand => (store, p, 0)
  }
}
