/** Loading an ELF image through the debug port of the router, from the bytes of the file. */
module Elf {
  import opened Arithmetic
  import opened Bytes
  import opened Memory
  import opened Tlm
  import opened Router

  datatype Error =
    | NotElf | NotLittleEndian
    | ReadPastEnd              // vector::at throws
    | SegmentPastEnd
    | WriteIncomplete
    | WrappedSegment           // offset + size wraps in 64 bits: the copy would leave the file buffer

  datatype Result<T> = Success(value: T) | Failure(error: Error)

  datatype Header = Header(is64: bool, entry: nat, phoff: nat, phentsize: nat, phnum: nat)

  /** `rd16`, `rd32` and `rd64`: little-endian reads inside the file. */
  function Field(b: seq<Byte>, off: nat, n: nat): nat
    requires off + n <= |b|
  {
    ToNat(b[off..off + n])
  }

  function ParseHeader(b: seq<Byte>): Result<Header> {
    if |b| < 64 || b[..4] != [0x7F, 0x45, 0x4C, 0x46] then Failure(NotElf)
    else if b[5] != 1 then Failure(NotLittleEndian)
    else if b[4] == 2 then Success(Header(true, Field(b, 24, 8), Field(b, 32, 8), Field(b, 54, 2), Field(b, 56, 2)))
    else Success(Header(false, Field(b, 24, 4), Field(b, 28, 4), Field(b, 42, 2), Field(b, 44, 2)))
  }

  /** What a program header asks for. */
  datatype Plan = Skip | Copy(offset: nat, paddr: nat, filesz: nat)

  function HeaderOffset(h: Header, i: nat): nat {
    (h.phoff + i * h.phentsize) % TWO64
  }

  /** The i-th program header, up to the decision to write. */
  function PlanOf(b: seq<Byte>, h: Header, i: nat): Result<Plan> {
    var ph := HeaderOffset(h, i);
    var width := if h.is64 then 8 else 4;
    if ph + 4 > |b| then Failure(ReadPastEnd)
    else if Field(b, ph, 4) != 1 then Success(Skip)
    else if ph + (if h.is64 then 40 else 20) > |b| then Failure(ReadPastEnd)
    else
      var offset := Field(b, ph + (if h.is64 then 8 else 4), width);
      var paddr := Field(b, ph + (if h.is64 then 16 else 12), width);
      var filesz := Field(b, ph + (if h.is64 then 32 else 16), width);
      if filesz == 0 then Success(Skip)
      else if (offset + filesz) % TWO64 > |b| then Failure(SegmentPastEnd)
      else if offset + filesz > |b| then Failure(WrappedSegment)
      else Success(Copy(offset, paddr, filesz))
  }

  /** `dbg_write`: the length parameter is 32 bits wide, and a short count is an error. */
  function DbgWrite(sys: System, addr: nat, data: seq<Byte>): (r: (System, Result<()>))
    requires Bound(sys)
    ensures Bound(r.0) && r.0.ranges == sys.ranges
  {
    var len := |data| % TWO32;
    var (t, _, n) := Router.TransportDbg(sys, Payload(WriteCommand, addr, len, Some(data), false, Incomplete));
    (t, if n != len then Failure(WriteIncomplete) else Success(()))
  }

  lemma PlanInFile(b: seq<Byte>, h: Header, i: nat)
    ensures var p := PlanOf(b, h, i);
            p.Success? && p.value.Copy? ==> 0 < p.value.filesz && p.value.offset + p.value.filesz <= |b|
  {
  }

  /** One turn of the program-header loop. */
  function LoadOne(sys: System, b: seq<Byte>, h: Header, i: nat): (r: (System, Result<()>))
    requires Bound(sys)
    ensures Bound(r.0)
  {
    match PlanOf(b, h, i)
    case Failure(e) => (sys, Failure(e))
    case Success(Skip) => (sys, Success(()))
    case Success(Copy(offset, paddr, filesz)) =>
      PlanInFile(b, h, i);
      DbgWrite(sys, paddr, b[offset..offset + filesz])
  }

  /** The loop from header i on; a failure keeps what was written before it. */
  function LoadFrom(sys: System, b: seq<Byte>, h: Header, i: nat): (r: (System, Result<nat>))
    requires Bound(sys) && i <= h.phnum
    ensures Bound(r.0)
    decreases h.phnum - i
  {
    if i == h.phnum then (sys, Success(h.entry))
    else
      var (t, w) := LoadOne(sys, b, h, i);
      if w.Failure? then (t, Failure(w.error)) else LoadFrom(t, b, h, i + 1)
  }

  function LoadElf(sys: System, b: seq<Byte>): (System, Result<nat>)
    requires Bound(sys)
  {
    match ParseHeader(b)
    case Failure(e) => (sys, Failure(e))
    case Success(h) => LoadFrom(sys, b, h, 0)
  }

  // ---------------------------------------------------------------- the image the file describes

  datatype Segment = Segment(paddr: nat, data: seq<Byte>)

  /** The non-empty PT_LOAD segments from header i on, in file order; unreadable headers count for nothing. */
  function Segments(b: seq<Byte>, h: Header, i: nat): seq<Segment>
    requires i <= h.phnum
    decreases h.phnum - i
  {
    if i == h.phnum then []
    else
      var rest := Segments(b, h, i + 1);
      match PlanOf(b, h, i)
      case Success(Copy(offset, paddr, filesz)) =>
        PlanInFile(b, h, i);
        [Segment(paddr, b[offset..offset + filesz])] + rest
      case _ => rest
  }

  /** What `dbg_write` is asked to write: its length parameter keeps 32 bits. */
  function Cut(data: seq<Byte>): seq<Byte> {
    data[..|data| % TWO32]
  }

  function CutAll(segments: seq<Segment>): (r: seq<Segment>)
    ensures |r| == |segments|
  {
    if segments == [] then [] else [Segment(segments[0].paddr, Cut(segments[0].data))] + CutAll(segments[1..])
  }

  /** The store with each segment laid over it in turn. */
  ghost function OverlayAll(store: map<nat, Byte>, segments: seq<Segment>): map<nat, Byte> {
    if segments == [] then store
    else OverlayAll(Overlay(store, segments[0].paddr, segments[0].data), segments[1..])
  }

  /** The whole segment lies inside one writable region. */
  ghost predicate FitsRegion(layout: set<Region>, s: Segment) {
    exists g :: g in layout && !g.readOnly && g.base <= s.paddr && s.paddr + |s.data| <= g.base + g.size
  }

  /** There is nothing to write, or it fits. */
  ghost predicate Writable(layout: set<Region>, s: Segment) {
    s.data == [] || FitsRegion(layout, s)
  }

  ghost predicate AllWritable(layout: set<Region>, segments: seq<Segment>) {
    forall s :: s in segments ==> Writable(layout, s)
  }
}
