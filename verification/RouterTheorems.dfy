/** Router plus memories refine one flat byte store, whatever the accesses and the registration order. */
module RouterTheorems {
  import opened Arithmetic
  import opened Bytes
  import opened Memory
  import opened Tlm
  import opened Router

  // ---------------------------------------------------------------- decoding

  /** `contains` is the half-open interval for every address exactly when the end does not wrap. */
  lemma ContainsExactly(r: Range)
    requires r.base < TWO64 && r.size < TWO64
    ensures (forall addr: nat :: Contains(r, addr) <==> r.base <= addr < r.base + r.size)
            <==> r.size == 0 || r.base + r.size < TWO64
    ensures r.base + r.size == TWO64 ==> forall addr: nat :: !Contains(r, addr)
  {
    if r.size > 0 && r.base + r.size >= TWO64 {
      assert (r.base + r.size) % TWO64 == r.base + r.size - TWO64;
      assert !Contains(r, r.base);
    }
  }

  lemma NotBoth(sys: System, i: nat, j: nat, a: nat)
    requires Good(sys) && i < |sys.ranges| && j < |sys.ranges| && i != j && Covers(RegionAt(sys, j), a)
    ensures !Covers(RegionAt(sys, i), a)
  {
    if i < j {
      assert Disjoint(sys.ranges[i], sys.ranges[j]);
    } else {
      assert Disjoint(sys.ranges[j], sys.ranges[i]);
    }
  }

  lemma DecodeUnique(sys: System, i: nat, addr: nat)
    requires Good(sys) && i < |sys.ranges| && Covers(RegionAt(sys, i), addr)
    ensures Decode(sys.ranges, addr) == Some(i)
  {
    DecodeFromSpec(sys.ranges, addr, 0);
    NoWrap(sys, i, addr);
    forall j: nat | j < |sys.ranges| && j != i
      ensures !Contains(sys.ranges[j], addr)
    {
      NotBoth(sys, j, i, addr);
      NoWrap(sys, j, addr);
    }
  }

  /** The region the router finds is the one the unordered map names. */
  lemma DecodeIsTheRegion(sys: System, addr: nat)
    requires Good(sys)
    ensures match Decode(sys.ranges, addr)
            case Some(i) => i < |sys.ranges| && Covers(RegionAt(sys, i), addr) &&
                            TheRegion(Layout(sys), addr) == Some(RegionAt(sys, i))
            case None => TheRegion(Layout(sys), addr) == None
  {
    DecodeFromSpec(sys.ranges, addr, 0);
    var d := Decode(sys.ranges, addr);
    if d.Some? {
      NoWrap(sys, d.value, addr);
      assert RegionAt(sys, d.value) in Layout(sys);
    }
    forall g | g in Layout(sys) && Covers(g, addr)
      ensures d.Some? && g == RegionAt(sys, d.value)
    {
      var j :| 0 <= j < |sys.ranges| && g == RegionAt(sys, j);
      DecodeUnique(sys, j, addr);
    }
  }

  /** In a good system the region covering an address is unique. */
  lemma RegionIsUnique(sys: System, g: Region, addr: nat)
    requires Good(sys) && g in Layout(sys) && Covers(g, addr)
    ensures TheRegion(Layout(sys), addr) == Some(g)
  {
    var j :| 0 <= j < |sys.ranges| && g == RegionAt(sys, j);
    DecodeUnique(sys, j, addr);
    DecodeIsTheRegion(sys, addr);
  }

  lemma FlatAt(sys: System, i: nat, addr: nat)
    requires Good(sys) && i < |sys.ranges| && Covers(RegionAt(sys, i), addr)
    ensures addr in Flat(sys) && Flat(sys)[addr] == sys.memories[i].bytes[addr - sys.ranges[i].base]
  {
    DecodeUnique(sys, i, addr);
    assert Mapped(sys, addr);
  }

  // ---------------------------------------------------------------- one access

  /** The system is a good one with this map and these bytes. */
  ghost predicate Holds(sys: System, layout: set<Region>, store: map<nat, Byte>) {
    Good(sys) && Layout(sys) == layout && Flat(sys) == store
  }

  predicate Inside(r: Range, addr: nat, n: nat) {
    r.base <= addr && addr + n <= r.base + r.size
  }

  function Patched(sys: System, i: nat, addr: nat, data: seq<Byte>): System
    requires Good(sys) && i < |sys.memories| && Inside(sys.ranges[i], addr, |data|)
  {
    var m := sys.memories[i];
    sys.(memories := sys.memories[i := m.(bytes := Patch(m.bytes, addr - sys.ranges[i].base, data))])
  }

  lemma PatchedGood(sys: System, i: nat, addr: nat, data: seq<Byte>)
    requires Good(sys) && i < |sys.memories| && Inside(sys.ranges[i], addr, |data|)
    ensures var t := Patched(sys, i, addr, data); Good(t) && Layout(t) == Layout(sys)
  {
    var t := Patched(sys, i, addr, data);
    assert forall j :: 0 <= j < |sys.ranges| ==> RegionAt(t, j) == RegionAt(sys, j);
  }

  lemma PatchedByte(sys: System, i: nat, addr: nat, data: seq<Byte>, j: nat, a: nat)
    requires Good(sys) && i < |sys.memories| && Inside(sys.ranges[i], addr, |data|)
    requires j < |sys.ranges| && Covers(RegionAt(sys, j), a)
    ensures var t := Patched(sys, i, addr, data);
            && Good(t) && a in Flat(t) && a in Flat(sys)
            && Flat(t)[a] == if addr <= a < addr + |data| then data[a - addr] else Flat(sys)[a]
  {
    var t := Patched(sys, i, addr, data);
    PatchedGood(sys, i, addr, data);
    FlatAt(sys, j, a);
    FlatAt(t, j, a);
    if j != i {
      assert t.memories[j] == sys.memories[j];
      NotBoth(sys, i, j, a);
    }
  }

  /** Patching one memory is an overlay on the flat store and keeps the map. */
  lemma PatchIsOverlay(sys: System, i: nat, addr: nat, data: seq<Byte>)
    requires Good(sys) && i < |sys.memories| && Inside(sys.ranges[i], addr, |data|)
    ensures Holds(Patched(sys, i, addr, data), Layout(sys), Overlay(Flat(sys), addr, data))
  {
    PatchedGood(sys, i, addr, data);
    var t, store := Patched(sys, i, addr, data), Overlay(Flat(sys), addr, data);
    assert Flat(t).Keys == store.Keys;
    forall a: nat | a in store
      ensures Flat(t)[a] == store[a]
    {
      DecodeIsTheRegion(sys, a);
      PatchedByte(sys, i, addr, data, Decode(sys.ranges, a).value, a);
    }
  }

  lemma FetchIsSlice(sys: System, i: nat, addr: nat, n: nat)
    requires Good(sys) && i < |sys.ranges| && sys.ranges[i].base <= addr
    requires addr + n <= sys.ranges[i].base + sys.ranges[i].size
    ensures Fetch(Flat(sys), addr, n) ==
            sys.memories[i].bytes[addr - sys.ranges[i].base..addr - sys.ranges[i].base + n]
  {
    forall a | addr <= a < addr + n
      ensures a in Flat(sys) && Flat(sys)[a] == sys.memories[i].bytes[a - sys.ranges[i].base]
    {
      FlatAt(sys, i, a);
    }
  }

  /** The outcome `r` in the system is the outcome `f` on the flat store. */
  ghost predicate BRefines(sys: System, p: Payload)
    requires Good(sys) && WellFormed(p)
  {
    var r, f := Router.BTransport(sys, p), FlatBTransport(Layout(sys), Flat(sys), p);
    Holds(r.0, Layout(sys), f.0) && r.1 == f.1
  }

  ghost predicate DbgRefines(sys: System, p: Payload)
    requires Good(sys) && WellFormed(p)
  {
    var r, f := Router.TransportDbg(sys, p), FlatTransportDbg(Layout(sys), Flat(sys), p);
    Holds(r.0, Layout(sys), f.0) && r.1 == f.1 && r.2 == f.2
  }

  /** A memory that an access leaves as it is leaves the system as it is. */
  lemma SameMemories(sys: System, i: nat)
    requires i < |sys.memories|
    ensures sys.(memories := sys.memories[i := sys.memories[i]]) == sys
  {
    assert sys.memories[i := sys.memories[i]] == sys.memories;
  }

  /** A blocking access that is unmapped or runs past its region's end changes nothing but the response. */
  lemma StraddleChangesNothing(sys: System, p: Payload)
    requires Good(sys) && WellFormed(p)
    requires var g := TheRegion(Layout(sys), p.address);
             g.None? || p.address + p.len > g.value.base + g.value.size
    ensures Router.BTransport(sys, p) == (sys, p.(response := AddressError))
  {
    DecodeIsTheRegion(sys, p.address);
    var d := Decode(sys.ranges, p.address);
    if d.Some? {
      SameMemories(sys, d.value);
    }
  }

  /** The write a RAM access performs, as a patch of one memory. */
  lemma WriteEffect(sys: System, p: Payload, i: nat)
    requires Good(sys) && WellFormed(p) && p.command.WriteCommand? && p.ptr.Some?
    requires i < |sys.ranges| && Decode(sys.ranges, p.address) == Some(i)
    requires Covers(RegionAt(sys, i), p.address) && !sys.memories[i].readOnly
    ensures var n := Min(p.len, sys.ranges[i].base + sys.ranges[i].size - p.address);
            && Router.TransportDbg(sys, p) == (Patched(sys, i, p.address, p.ptr.value[..n]), p.(response := Ok), n)
            && (p.len == n ==>
                  Router.BTransport(sys, p) ==
                    (Patched(sys, i, p.address, p.ptr.value[..n]), p.(dmiAllowed := true, response := Ok)))
  {
  }

  /** The write that does not take place. */
  lemma NoWriteRefines(sys: System, p: Payload, i: nat)
    requires Good(sys) && WellFormed(p) && p.command.WriteCommand?
    requires i < |sys.ranges| && Decode(sys.ranges, p.address) == Some(i)
    requires p.ptr.None? || sys.memories[i].readOnly
    ensures BRefines(sys, p) && DbgRefines(sys, p)
  {
    DecodeIsTheRegion(sys, p.address);
    SameMemories(sys, i);
  }

  /** The same write on the flat store. */
  lemma FlatWriteEffect(layout: set<Region>, store: map<nat, Byte>, p: Payload, g: Region)
    requires WellFormed(p) && p.command.WriteCommand? && p.ptr.Some?
    requires TheRegion(layout, p.address) == Some(g) && Covers(g, p.address) && !g.readOnly
    ensures var n := Min(p.len, g.base + g.size - p.address);
            && FlatTransportDbg(layout, store, p) ==
                 (Overlay(store, p.address, p.ptr.value[..n]), p.(response := Ok), n)
            && (p.len == n ==>
                  FlatBTransport(layout, store, p) ==
                    (Overlay(store, p.address, p.ptr.value[..n]), p.(dmiAllowed := true, response := Ok)))
  {
  }

  lemma BWriteRefines(sys: System, p: Payload, i: nat)
    requires Good(sys) && WellFormed(p) && p.command.WriteCommand?
    requires i < |sys.ranges| && Decode(sys.ranges, p.address) == Some(i)
    requires p.ptr.Some? && !sys.memories[i].readOnly
    requires Inside(sys.ranges[i], p.address, p.len)
    ensures BRefines(sys, p)
  {
    DecodeIsTheRegion(sys, p.address);
    var t := Patched(sys, i, p.address, p.ptr.value[..p.len]);
    assert Router.BTransport(sys, p) == (t, p.(dmiAllowed := true, response := Ok)) by {
      WriteEffect(sys, p, i);
    }
    assert FlatBTransport(Layout(sys), Flat(sys), p) ==
           (Overlay(Flat(sys), p.address, p.ptr.value[..p.len]), p.(dmiAllowed := true, response := Ok)) by {
      FlatWriteEffect(Layout(sys), Flat(sys), p, RegionAt(sys, i));
    }
    PatchIsOverlay(sys, i, p.address, p.ptr.value[..p.len]);
  }

  lemma DbgWriteRefines(sys: System, p: Payload, i: nat)
    requires Good(sys) && WellFormed(p) && p.command.WriteCommand?
    requires i < |sys.ranges| && Decode(sys.ranges, p.address) == Some(i)
    requires p.ptr.Some? && !sys.memories[i].readOnly
    ensures DbgRefines(sys, p)
  {
    DecodeIsTheRegion(sys, p.address);
    var n := Min(p.len, sys.ranges[i].base + sys.ranges[i].size - p.address);
    var t := Patched(sys, i, p.address, p.ptr.value[..n]);
    assert Router.TransportDbg(sys, p) == (t, p.(response := Ok), n) by {
      WriteEffect(sys, p, i);
    }
    assert FlatTransportDbg(Layout(sys), Flat(sys), p) ==
           (Overlay(Flat(sys), p.address, p.ptr.value[..n]), p.(response := Ok), n) by {
      FlatWriteEffect(Layout(sys), Flat(sys), p, RegionAt(sys, i));
    }
    PatchIsOverlay(sys, i, p.address, p.ptr.value[..n]);
  }

  /** A read hands over the bytes of the flat store. */
  lemma ReadEffect(sys: System, p: Payload, i: nat, data: seq<Byte>)
    requires Good(sys) && WellFormed(p) && p.command.ReadCommand? && p.ptr.Some?
    requires i < |sys.ranges| && Decode(sys.ranges, p.address) == Some(i)
    requires Inside(sys.ranges[i], p.address, p.len) && data == Fetch(Flat(sys), p.address, p.len)
    ensures Router.BTransport(sys, p) ==
            (sys, p.(ptr := Some(Filled(p.ptr.value, data)), dmiAllowed := true, response := Ok))
  {
    SameMemories(sys, i);
    FetchIsSlice(sys, i, p.address, p.len);
  }

  lemma BOtherRefines(sys: System, p: Payload, i: nat)
    requires Good(sys) && WellFormed(p) && !p.command.WriteCommand?
    requires i < |sys.ranges| && Decode(sys.ranges, p.address) == Some(i)
    requires Inside(sys.ranges[i], p.address, p.len)
    ensures BRefines(sys, p)
  {
    DecodeIsTheRegion(sys, p.address);
    if p.ptr.Some? && p.command.ReadCommand? {
      ReadEffect(sys, p, i, Fetch(Flat(sys), p.address, p.len));
    } else {
      SameMemories(sys, i);
    }
  }

  lemma DbgOtherRefines(sys: System, p: Payload, i: nat)
    requires Good(sys) && WellFormed(p) && !p.command.WriteCommand?
    requires i < |sys.ranges| && Decode(sys.ranges, p.address) == Some(i)
    ensures DbgRefines(sys, p)
  {
    DecodeIsTheRegion(sys, p.address);
    SameMemories(sys, i);
    FetchIsSlice(sys, i, p.address, Min(p.len, sys.ranges[i].base + sys.ranges[i].size - p.address));
  }

  /**
   An access through the router is the flat access: same bytes, same response,
   same buffer, the payload address as it came; and a debug access moves exactly
   the part that lies in the region.
   */
  lemma AccessRefines(sys: System, p: Payload)
    requires Good(sys) && WellFormed(p)
    ensures BRefines(sys, p) && DbgRefines(sys, p)
  {
    DecodeIsTheRegion(sys, p.address);
    var d := Decode(sys.ranges, p.address);
    if d.Some? {
      var i := d.value;
      if !Inside(sys.ranges[i], p.address, p.len) {
        StraddleChangesNothing(sys, p);
      }
      if p.command.WriteCommand? && p.ptr.Some? && !sys.memories[i].readOnly {
        if Inside(sys.ranges[i], p.address, p.len) {
          BWriteRefines(sys, p, i);
        }
        DbgWriteRefines(sys, p, i);
      } else if p.command.WriteCommand? {
        NoWriteRefines(sys, p, i);
      } else {
        if Inside(sys.ranges[i], p.address, p.len) {
          BOtherRefines(sys, p, i);
        }
        DbgOtherRefines(sys, p, i);
      }
    }
  }

  // ---------------------------------------------------------------- every sequence of accesses

  datatype Access = Blocking(p: Payload) | Debug(p: Payload)

  /** The payload as it comes back, with the byte count of a debug access. */
  datatype Reply = Reply(p: Payload, count: nat)

  function Serve(sys: System, a: Access): (r: (System, Reply))
    requires Bound(sys) && WellFormed(a.p)
    ensures Bound(r.0)
  {
    match a
    case Blocking(p) => var (t, q) := Router.BTransport(sys, p); (t, Reply(q, 0))
    case Debug(p) => var (t, q, n) := Router.TransportDbg(sys, p); (t, Reply(q, n))
  }

  ghost function FlatServe(layout: set<Region>, store: map<nat, Byte>, a: Access): (map<nat, Byte>, Reply)
    requires WellFormed(a.p)
  {
    match a
    case Blocking(p) => var (t, q) := FlatBTransport(layout, store, p); (t, Reply(q, 0))
    case Debug(p) => var (t, q, n) := FlatTransportDbg(layout, store, p); (t, Reply(q, n))
  }

  predicate AllWellFormed(accesses: seq<Access>) {
    forall i :: 0 <= i < |accesses| ==> WellFormed(accesses[i].p)
  }

  function Run(sys: System, accesses: seq<Access>): (System, seq<Reply>)
    requires Bound(sys) && AllWellFormed(accesses)
    decreases |accesses|
  {
    if accesses == [] then (sys, [])
    else
      var (t, reply) := Serve(sys, accesses[0]);
      var (u, replies) := Run(t, accesses[1..]);
      (u, [reply] + replies)
  }

  ghost function FlatRun(layout: set<Region>, store: map<nat, Byte>, accesses: seq<Access>)
    : (map<nat, Byte>, seq<Reply>)
    requires AllWellFormed(accesses)
    decreases |accesses|
  {
    if accesses == [] then (store, [])
    else
      var (t, reply) := FlatServe(layout, store, accesses[0]);
      var (u, replies) := FlatRun(layout, t, accesses[1..]);
      (u, [reply] + replies)
  }

  lemma ServeRefines(sys: System, a: Access)
    requires Good(sys) && WellFormed(a.p)
    ensures var (t, reply) := Serve(sys, a);
            Good(t) && Layout(t) == Layout(sys) && (Flat(t), reply) == FlatServe(Layout(sys), Flat(sys), a)
  {
    AccessRefines(sys, a.p);
  }

  /** Any sequence of accesses ends in the same bytes and gives the same replies as on the flat store. */
  lemma {:induction false} RunRefines(sys: System, accesses: seq<Access>)
    requires Good(sys) && AllWellFormed(accesses)
    ensures var (t, replies) := Run(sys, accesses);
            Good(t) && Layout(t) == Layout(sys) && (Flat(t), replies) == FlatRun(Layout(sys), Flat(sys), accesses)
    decreases |accesses|
  {
    if accesses != [] {
      ServeRefines(sys, accesses[0]);
      RunRefines(Serve(sys, accesses[0]).0, accesses[1..]);
    }
  }

  /** Registration order does not matter: systems with the same map and bytes cannot be told apart. */
  lemma OrderIndependent(sys: System, sys': System, accesses: seq<Access>)
    requires Good(sys) && Good(sys') && AllWellFormed(accesses)
    requires Layout(sys) == Layout(sys') && Flat(sys) == Flat(sys')
    ensures Run(sys, accesses).1 == Run(sys', accesses).1
    ensures Good(Run(sys, accesses).0) && Good(Run(sys', accesses).0)
    ensures Flat(Run(sys, accesses).0) == Flat(Run(sys', accesses).0)
  {
    RunRefines(sys, accesses);
    RunRefines(sys', accesses);
  }

  /** `sys'` registers the same regions and memories as `sys`, in the order given by `perm`. */
  predicate Reordered(sys: System, sys': System, perm: seq<nat>) {
    && Bound(sys) && Bound(sys') && |perm| == |sys'.ranges| == |sys.ranges|
    && (forall i :: 0 <= i < |perm| ==> perm[i] < |perm|)
    && (forall i, j :: 0 <= i < j < |perm| ==> perm[i] != perm[j])
    && (forall j: nat :: j < |perm| ==> j in perm)
    && (forall i :: 0 <= i < |perm| ==>
          sys'.ranges[i] == sys.ranges[perm[i]] && sys'.memories[i] == sys.memories[perm[i]])
  }

  lemma ReorderedGood(sys: System, sys': System, perm: seq<nat>)
    requires Good(sys) && Reordered(sys, sys', perm)
    ensures Good(sys') && Layout(sys') == Layout(sys)
  {
    forall i, j | 0 <= i < j < |perm|
      ensures Disjoint(sys'.ranges[i], sys'.ranges[j])
    {
      assert perm[i] != perm[j];
      if perm[i] < perm[j] {
        assert Disjoint(sys.ranges[perm[i]], sys.ranges[perm[j]]);
      } else {
        assert Disjoint(sys.ranges[perm[j]], sys.ranges[perm[i]]);
      }
    }
    forall i | 0 <= i < |perm|
      ensures RegionAt(sys', i) in Layout(sys) && RegionAt(sys, i) in Layout(sys')
    {
      assert RegionAt(sys', i) == RegionAt(sys, perm[i]);
      assert i in perm;
      var k :| 0 <= k < |perm| && perm[k] == i;
      assert RegionAt(sys, i) == RegionAt(sys', k);
    }
  }

  /** Any registration order gives such a pair. */
  lemma ReorderedSame(sys: System, sys': System, perm: seq<nat>)
    requires Good(sys) && Reordered(sys, sys', perm)
    ensures Good(sys') && Layout(sys') == Layout(sys) && Flat(sys') == Flat(sys)
  {
    ReorderedGood(sys, sys', perm);
    forall a: nat
      ensures a in Flat(sys') <==> a in Flat(sys)
      ensures a in Flat(sys) && a in Flat(sys') ==> Flat(sys')[a] == Flat(sys)[a]
    {
      DecodeIsTheRegion(sys, a);
      DecodeIsTheRegion(sys', a);
      if Mapped(sys, a) {
        var i := Decode(sys.ranges, a).value;
        assert i in perm;
        var k :| 0 <= k < |perm| && perm[k] == i;
        assert RegionAt(sys', k) == RegionAt(sys, i);
        FlatAt(sys, i, a);
        FlatAt(sys', k, a);
      }
    }
  }

  // ---------------------------------------------------------------- what never changes

  ghost predicate InRom(layout: set<Region>, a: nat) {
    TheRegion(layout, a).Some? && TheRegion(layout, a).value.readOnly
  }

  lemma RomStep(sys: System, access: Access, a: nat)
    requires Good(sys) && WellFormed(access.p) && InRom(Layout(sys), a)
    ensures Good(Serve(sys, access).0) && a in Flat(sys) && a in Flat(Serve(sys, access).0)
    ensures Flat(Serve(sys, access).0)[a] == Flat(sys)[a]
  {
    ServeRefines(sys, access);
    DecodeIsTheRegion(sys, a);
    FlatAt(sys, Decode(sys.ranges, a).value, a);
    var p := access.p;
    DecodeIsTheRegion(sys, p.address);
    if Mapped(sys, p.address) && !InRom(Layout(sys), p.address) {
      var i, j := Decode(sys.ranges, p.address).value, Decode(sys.ranges, a).value;
      assert i != j;
      NotBoth(sys, i, j, a);
    }
  }

  /** ROM bytes survive every run. */
  lemma {:induction false} RomNeverChanges(sys: System, accesses: seq<Access>, a: nat)
    requires Good(sys) && AllWellFormed(accesses) && InRom(Layout(sys), a)
    ensures Good(Run(sys, accesses).0) && a in Flat(sys) && a in Flat(Run(sys, accesses).0)
    ensures Flat(Run(sys, accesses).0)[a] == Flat(sys)[a]
    decreases |accesses|
  {
    DecodeIsTheRegion(sys, a);
    FlatAt(sys, Decode(sys.ranges, a).value, a);
    if accesses != [] {
      ServeRefines(sys, accesses[0]);
      RomStep(sys, accesses[0], a);
      RomNeverChanges(Serve(sys, accesses[0]).0, accesses[1..], a);
    }
  }

  // ---------------------------------------------------------------- reading back

  /** Bytes written by an accepted access, or loaded, are the bytes a later read of them returns. */
  lemma MemoryReadBack(m: Mem, p: Payload, buffer: seq<Byte>)
    requires WellFormed(p) && p.command.WriteCommand? && p.len <= |buffer|
    requires Memory.BTransport(m, p).1.response.Ok?
    ensures var (t, _) := Memory.BTransport(m, p);
            var q := Memory.BTransport(t, p.(command := ReadCommand, ptr := Some(buffer))).1;
            q.response.Ok? && q.ptr.Some? && q.ptr.value[..p.len] == p.ptr.value[..p.len] &&
            q.ptr.value[p.len..] == buffer[p.len..]
    ensures Load(m, p.ptr.value[..p.len], p.address) == (Memory.BTransport(m, p).0, true)
  {
  }
}
