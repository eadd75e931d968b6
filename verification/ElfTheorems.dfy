/** A load that returns leaves exactly the image of the file in memory. */
module ElfTheorems {
  import opened Arithmetic
  import opened Bytes
  import opened Memory
  import opened Tlm
  import opened Router
  import opened Elf
  import RouterTheorems

  lemma EmptyOverlay(store: map<nat, Byte>, addr: nat)
    ensures Overlay(store, addr, []) == store
  {
  }

  /** A debug write of no bytes moves none and reports none. */
  lemma EmptyFlatWrite(layout: set<Region>, store: map<nat, Byte>, p: Payload)
    requires WellFormed(p) && p.command.WriteCommand? && p.len == 0
    ensures FlatTransportDbg(layout, store, p).0 == store && FlatTransportDbg(layout, store, p).2 == 0
  {
    EmptyOverlay(store, p.address);
    assert p.ptr.Some? ==> p.ptr.value[..0] == [];
  }

  /** The access `dbg_write` makes, on the flat store. */
  lemma DbgWriteIsFlat(sys: System, addr: nat, data: seq<Byte>)
    requires Good(sys)
    ensures var (t, w) := DbgWrite(sys, addr, data);
            var p := Payload(WriteCommand, addr, |data| % TWO32, Some(data), false, Incomplete);
            var flat := FlatTransportDbg(Layout(sys), Flat(sys), p);
            && Good(t) && Layout(t) == Layout(sys) && Flat(t) == flat.0
            && (w.Success? <==> flat.2 == |data| % TWO32)
  {
    RouterTheorems.AccessRefines(sys, Payload(WriteCommand, addr, |data| % TWO32, Some(data), false, Incomplete));
  }

  /** On the flat store a debug write that moves all its bytes is an overlay inside one writable region. */
  lemma CompleteFlatWrite(layout: set<Region>, store: map<nat, Byte>, p: Payload)
    requires WellFormed(p) && p.command.WriteCommand? && p.ptr.Some? && p.len > 0
    requires FlatTransportDbg(layout, store, p).2 == p.len
    ensures FlatTransportDbg(layout, store, p).0 == Overlay(store, p.address, p.ptr.value[..p.len])
    ensures FitsRegion(layout, Segment(p.address, p.ptr.value[..p.len]))
  {
    var g := TheRegion(layout, p.address).value;
    assert g in layout && Covers(g, p.address);
  }

  /** A backdoor write of any length that succeeds overlays the block cut to 32 bits of length. */
  lemma DbgWriteIsOverlay(sys: System, addr: nat, data: seq<Byte>)
    requires Good(sys)
    ensures var (t, w) := DbgWrite(sys, addr, data);
            && Good(t) && Layout(t) == Layout(sys)
            && (w.Success? ==>
                  && Flat(t) == Overlay(Flat(sys), addr, Cut(data))
                  && Writable(Layout(sys), Segment(addr, Cut(data))))
  {
    var p := Payload(WriteCommand, addr, |data| % TWO32, Some(data), false, Incomplete);
    DbgWriteIsFlat(sys, addr, data);
    if p.len == 0 {
      EmptyFlatWrite(Layout(sys), Flat(sys), p);
      EmptyOverlay(Flat(sys), addr);
      assert Cut(data) == [];
    } else if FlatTransportDbg(Layout(sys), Flat(sys), p).2 == p.len {
      CompleteFlatWrite(Layout(sys), Flat(sys), p);
    }
  }

  /** A backdoor write succeeds exactly when the block, cut so, is empty or fits in one writable region. */
  lemma DbgWriteIff(sys: System, addr: nat, data: seq<Byte>)
    requires Good(sys)
    ensures DbgWrite(sys, addr, data).1.Success? <==> Writable(Layout(sys), Segment(addr, Cut(data)))
  {
    DbgWriteIsOverlay(sys, addr, data);
    DbgWriteIsFlat(sys, addr, data);
    var p := Payload(WriteCommand, addr, |data| % TWO32, Some(data), false, Incomplete);
    if p.len == 0 {
      EmptyFlatWrite(Layout(sys), Flat(sys), p);
    } else if FitsRegion(Layout(sys), Segment(addr, Cut(data))) {
      var g :| g in Layout(sys) && !g.readOnly && g.base <= addr && addr + |Cut(data)| <= g.base + g.size;
      RouterTheorems.RegionIsUnique(sys, g, addr);
    }
  }

  // ---------------------------------------------------------------- a list of segments

  /** The segments written one after the other, up to the first that fails. */
  function WriteAll(sys: System, segments: seq<Segment>): (r: (System, bool))
    requires Bound(sys)
    ensures Bound(r.0)
    decreases |segments|
  {
    if segments == [] then (sys, true)
    else
      var (t, w) := DbgWrite(sys, segments[0].paddr, segments[0].data);
      if w.Failure? then (t, false) else WriteAll(t, segments[1..])
  }

  lemma CutStep(first: Segment, rest: seq<Segment>)
    ensures CutAll([first] + rest) == [Segment(first.paddr, Cut(first.data))] + CutAll(rest)
  {
    assert ([first] + rest)[1..] == rest;
  }

  lemma WritableStep(layout: set<Region>, first: Segment, rest: seq<Segment>)
    ensures AllWritable(layout, [first] + rest) <==> Writable(layout, first) && AllWritable(layout, rest)
  {
    assert first in [first] + rest && forall s :: s in rest ==> s in [first] + rest;
  }

  lemma OverlayStep(store: map<nat, Byte>, first: Segment, rest: seq<Segment>)
    ensures OverlayAll(store, [first] + rest) == OverlayAll(Overlay(store, first.paddr, first.data), rest)
  {
    assert ([first] + rest)[1..] == rest;
  }

  /** All are written exactly when each, cut, has a place to go; memory is then overlaid by them in order. */
  lemma {:induction false} WriteAllImage(sys: System, segments: seq<Segment>)
    requires Good(sys)
    ensures var (t, ok) := WriteAll(sys, segments);
            && Good(t) && Layout(t) == Layout(sys)
            && (ok <==> AllWritable(Layout(sys), CutAll(segments)))
            && (ok ==> Flat(t) == OverlayAll(Flat(sys), CutAll(segments)))
    decreases |segments|
  {
    if segments != [] {
      var first, rest := segments[0], segments[1..];
      var (t, w) := DbgWrite(sys, first.paddr, first.data);
      DbgWriteIff(sys, first.paddr, first.data);
      DbgWriteIsOverlay(sys, first.paddr, first.data);
      WriteAllImage(t, rest);
      assert segments == [first] + rest;
      CutStep(first, rest);
      WritableStep(Layout(sys), Segment(first.paddr, Cut(first.data)), CutAll(rest));
      OverlayStep(Flat(sys), Segment(first.paddr, Cut(first.data)), CutAll(rest));
    }
  }

  // ---------------------------------------------------------------- the loop

  predicate HeadersReadable(b: seq<Byte>, h: Header, i: nat) {
    forall j: nat :: i <= j < h.phnum ==> PlanOf(b, h, j).Success?
  }

  /** Bytes of program header i that the loader reads: the type, and the rest if it is loadable. */
  function BytesRead(b: seq<Byte>, h: Header, i: nat): nat {
    var at := HeaderOffset(h, i);
    if at + 4 <= |b| && Field(b, at, 4) == 1 then if h.is64 then 40 else 20 else 4
  }

  /** A header is read past the end of the file exactly when those bytes do not lie in it. */
  lemma ReadPastEndIff(b: seq<Byte>, h: Header, i: nat)
    ensures PlanOf(b, h, i) == Failure(ReadPastEnd) <==> HeaderOffset(h, i) + BytesRead(b, h, i) > |b|
  {
  }

  /** Offsets wrap in 64 bits: a header that would lie beyond them is looked for from the start of the file. */
  lemma TableWraps(b: seq<Byte>, h: Header, i: nat)
    requires TWO64 <= h.phoff + i * h.phentsize < 2 * TWO64
    ensures PlanOf(b, h, i) == PlanOf(b, h.(phoff := h.phoff + i * h.phentsize - TWO64), 0)
  {
    var x := h.phoff + i * h.phentsize;
    Unique(x, TWO64, 1, x - TWO64);
    Small(x - TWO64, TWO64);
    assert HeaderOffset(h, i) == HeaderOffset(h.(phoff := x - TWO64), 0);
  }

  /** So a file whose table is cut short never loads. */
  lemma TruncatedTableFails(sys: System, b: seq<Byte>, i: nat)
    requires Good(sys) && ParseHeader(b).Success? && i < ParseHeader(b).value.phnum
    requires var h := ParseHeader(b).value; HeaderOffset(h, i) + BytesRead(b, h, i) > |b|
    ensures LoadElf(sys, b).1.Failure?
  {
    var h := ParseHeader(b).value;
    ReadPastEndIff(b, h, i);
    LoadElfIff(sys, b);
    assert HeadersReadable(b, h, 0) ==> PlanOf(b, h, i).Success?;
  }

  /** A slice past the end of the file is refused; which error depends on whether its end wraps in 64 bits. */
  lemma SliceRefused(b: seq<Byte>, h: Header, i: nat)
    requires |b| < TWO64 && HeaderOffset(h, i) + BytesRead(b, h, i) <= |b|
    requires Field(b, HeaderOffset(h, i), 4) == 1
    ensures var at, w := HeaderOffset(h, i), if h.is64 then 8 else 4;
            var from := Field(b, at + (if h.is64 then 8 else 4), w);
            var size := Field(b, at + (if h.is64 then 32 else 16), w);
            PlanOf(b, h, i).Failure? ==>
              && size > 0 && from + size > |b|
              && PlanOf(b, h, i).error == if (from + size) % TWO64 <= |b| then WrappedSegment else SegmentPastEnd
  {
  }

  /** The segments before the first unreadable header. */
  function Reached(b: seq<Byte>, h: Header, i: nat): seq<Segment>
    requires i <= h.phnum
    decreases h.phnum - i
  {
    if i == h.phnum then []
    else
      match PlanOf(b, h, i)
      case Failure(_) => []
      case Success(Skip) => Reached(b, h, i + 1)
      case Success(Copy(offset, paddr, filesz)) =>
        PlanInFile(b, h, i);
        [Segment(paddr, b[offset..offset + filesz])] + Reached(b, h, i + 1)
  }

  lemma {:induction false} ReachedIsAll(b: seq<Byte>, h: Header, i: nat)
    requires i <= h.phnum && HeadersReadable(b, h, i)
    ensures Reached(b, h, i) == Segments(b, h, i)
    decreases h.phnum - i
  {
    if i < h.phnum {
      ReachedIsAll(b, h, i + 1);
      assert PlanOf(b, h, i).Success?;
    }
  }

  lemma ReadableStep(b: seq<Byte>, h: Header, i: nat)
    requires i < h.phnum
    ensures HeadersReadable(b, h, i) <==> PlanOf(b, h, i).Success? && HeadersReadable(b, h, i + 1)
  {
  }

  lemma WriteAllStep(sys: System, first: Segment, rest: seq<Segment>)
    requires Bound(sys)
    ensures var (t, w) := DbgWrite(sys, first.paddr, first.data);
            WriteAll(sys, [first] + rest) == if w.Failure? then (t, false) else WriteAll(t, rest)
  {
    assert ([first] + rest)[1..] == rest;
  }

  lemma LoadOneCopies(sys: System, b: seq<Byte>, h: Header, i: nat, first: Segment)
    requires Bound(sys) && i < h.phnum && PlanOf(b, h, i).Success? && PlanOf(b, h, i).value.Copy?
    requires var p := PlanOf(b, h, i).value;
             && p.offset + p.filesz <= |b|
             && first == Segment(p.paddr, b[p.offset..p.offset + p.filesz])
    ensures LoadOne(sys, b, h, i) == DbgWrite(sys, first.paddr, first.data)
    ensures Reached(b, h, i) == [first] + Reached(b, h, i + 1)
  {
  }

  predicate Agree(load: (System, Result<nat>), write: (System, bool), readable: bool, entry: nat) {
    load.0 == write.0 && load.1.Success? == (write.1 && readable) && (load.1.Success? ==> load.1.value == entry)
  }

  /** The loop writes the segments it reaches, and completes if that succeeds and every header is readable. */
  lemma {:induction false} LoadFromWrites(sys: System, b: seq<Byte>, h: Header, i: nat)
    requires Bound(sys) && i <= h.phnum
    ensures Agree(LoadFrom(sys, b, h, i), WriteAll(sys, Reached(b, h, i)), HeadersReadable(b, h, i), h.entry)
    decreases h.phnum - i
  {
    if i < h.phnum {
      var p := PlanOf(b, h, i);
      ReadableStep(b, h, i);
      var one := LoadOne(sys, b, h, i);
      LoadFromWrites(one.0, b, h, i + 1);
      if p.Success? && p.value.Copy? {
        PlanInFile(b, h, i);
        var first := Segment(p.value.paddr, b[p.value.offset..p.value.offset + p.value.filesz]);
        LoadOneCopies(sys, b, h, i, first);
        WriteAllStep(sys, first, Reached(b, h, i + 1));
      }
    }
  }

  /** The segments of the file, as `dbg_write` writes them. */
  function Written(b: seq<Byte>, h: Header): seq<Segment> {
    CutAll(Segments(b, h, 0))
  }

  /** So a file loads exactly when its headers are readable and the memory map has room for what they say. */
  lemma LoadElfIff(sys: System, b: seq<Byte>)
    requires Good(sys)
    ensures LoadElf(sys, b).1.Success? <==>
            && ParseHeader(b).Success?
            && var h := ParseHeader(b).value;
               HeadersReadable(b, h, 0) && AllWritable(Layout(sys), Written(b, h))
  {
    if ParseHeader(b).Success? {
      var h := ParseHeader(b).value;
      LoadFromWrites(sys, b, h, 0);
      WriteAllImage(sys, Reached(b, h, 0));
      if HeadersReadable(b, h, 0) {
        ReachedIsAll(b, h, 0);
      }
    }
  }

  /**
   If the load returns, it returns the header's entry point, and the memory is
   the old memory overlaid, in program-header order, by the non-empty loadable
   segments, each cut to 32 bits of length and inside one writable region.
   */
  lemma LoadElfImage(sys: System, b: seq<Byte>)
    requires Good(sys) && LoadElf(sys, b).1.Success?
    ensures ParseHeader(b).Success?
    ensures var (t, r) := LoadElf(sys, b);
            var h := ParseHeader(b).value;
            && r == Success(h.entry)
            && Good(t) && Layout(t) == Layout(sys)
            && Flat(t) == OverlayAll(Flat(sys), Written(b, h))
            && AllWritable(Layout(sys), Written(b, h))
  {
    var h := ParseHeader(b).value;
    LoadFromWrites(sys, b, h, 0);
    WriteAllImage(sys, Reached(b, h, 0));
    ReachedIsAll(b, h, 0);
  }

  // ---------------------------------------------------------------- when nothing is cut

  predicate AllShort(segments: seq<Segment>) {
    forall s :: s in segments ==> |s.data| < TWO32
  }

  /** The segments are written whole exactly when each is shorter than 2^32 bytes. */
  lemma {:induction false} NothingCutIff(segments: seq<Segment>)
    ensures CutAll(segments) == segments <==> AllShort(segments)
  {
    if segments != [] {
      var first, rest := segments[0], segments[1..];
      NothingCutIff(rest);
      CutStep(first, rest);
      assert segments == [first] + rest;
      assert |first.data| < TWO32 ==> Cut(first.data) == first.data;
      assert CutAll(segments)[0].data == Cut(first.data) && CutAll(segments)[1..] == CutAll(rest);
      assert AllShort(segments) <==> |first.data| < TWO32 && AllShort(rest);
    }
  }

  lemma FieldSmall(b: seq<Byte>, off: nat)
    requires off + 4 <= |b|
    ensures Field(b, off, 4) < TWO32
  {
    Powers();
  }

  lemma PlanLength(b: seq<Byte>, h: Header, i: nat)
    requires !h.is64
    ensures var p := PlanOf(b, h, i); p.Success? && p.value.Copy? ==> p.value.filesz < TWO32
  {
    var ph := HeaderOffset(h, i);
    if ph + 20 <= |b| {
      FieldSmall(b, ph + 16);
    }
  }

  /** Which is so for every 32-bit file, and for every file shorter than 2^32 bytes. */
  lemma {:induction false} ShortSegments(b: seq<Byte>, h: Header, i: nat)
    requires i <= h.phnum && (!h.is64 || |b| < TWO32)
    ensures AllShort(Segments(b, h, i))
    decreases h.phnum - i
  {
    if i < h.phnum {
      ShortSegments(b, h, i + 1);
      PlanInFile(b, h, i);
      if !h.is64 {
        PlanLength(b, h, i);
      }
    }
  }

  /** No segment is empty, so one that is written whole lies inside one writable region. */
  lemma {:induction false} NoEmptySegments(b: seq<Byte>, h: Header, i: nat)
    requires i <= h.phnum
    ensures forall s :: s in Segments(b, h, i) ==> s.data != []
    decreases h.phnum - i
  {
    if i < h.phnum {
      NoEmptySegments(b, h, i + 1);
      PlanInFile(b, h, i);
    }
  }

  /** A load that returns, of a file without such long segments, leaves the very image the file describes. */
  lemma LoadElfWhole(sys: System, b: seq<Byte>)
    requires Good(sys) && LoadElf(sys, b).1.Success?
    requires ParseHeader(b).Success? && AllShort(Segments(b, ParseHeader(b).value, 0))
    ensures var h := ParseHeader(b).value;
            var t := LoadElf(sys, b).0;
            && Good(t) && Flat(t) == OverlayAll(Flat(sys), Segments(b, h, 0))
            && (forall s :: s in Segments(b, h, 0) ==> FitsRegion(Layout(sys), s))
  {
    LoadElfImage(sys, b);
    NothingCutIff(Segments(b, ParseHeader(b).value, 0));
    NoEmptySegments(b, ParseHeader(b).value, 0);
  }

  // ---------------------------------------------------------------- failures

  /** Some of the segments in order, the last of them possibly cut short. */
  ghost predicate PartOfImage(store: map<nat, Byte>, segments: seq<Segment>, result: map<nat, Byte>)
    decreases |segments|
  {
    || result == store
    || (segments != [] &&
        var s := segments[0];
        || (exists n: nat :: n <= |s.data| && result == Overlay(store, s.paddr, s.data[..n]))
        || PartOfImage(Overlay(store, s.paddr, s.data), segments[1..], result))
  }

  lemma DbgWritePrefix(sys: System, addr: nat, data: seq<Byte>)
    requires Good(sys)
    ensures var t := DbgWrite(sys, addr, data).0;
            && Good(t) && Layout(t) == Layout(sys)
            && (Flat(t) == Flat(sys) ||
                exists n: nat :: n <= |Cut(data)| && Flat(t) == Overlay(Flat(sys), addr, Cut(data)[..n]))
  {
    var p := Payload(WriteCommand, addr, |data| % TWO32, Some(data), false, Incomplete);
    var flat := FlatTransportDbg(Layout(sys), Flat(sys), p);
    DbgWriteIsFlat(sys, addr, data);
    if flat.0 != Flat(sys) {
      assert flat.2 <= |Cut(data)| && Cut(data)[..flat.2] == data[..flat.2];
      assert flat.0 == Overlay(Flat(sys), addr, data[..flat.2]);
    }
  }

  lemma {:induction false} WriteAllPart(sys: System, segments: seq<Segment>)
    requires Good(sys)
    ensures var t := WriteAll(sys, segments).0;
            Good(t) && PartOfImage(Flat(sys), CutAll(segments), Flat(t))
    decreases |segments|
  {
    if segments != [] {
      var first, rest := segments[0], segments[1..];
      var (t, w) := DbgWrite(sys, first.paddr, first.data);
      DbgWritePrefix(sys, first.paddr, first.data);
      DbgWriteIsOverlay(sys, first.paddr, first.data);
      WriteAllPart(t, rest);
      assert CutAll(segments)[1..] == CutAll(rest);
    }
  }

  /**
   Whatever the outcome, memory differs from the old one only by segments that come before
   the first unreadable header, written in order.
   */
  lemma LoadElfPart(sys: System, b: seq<Byte>)
    requires Good(sys)
    ensures var t := LoadElf(sys, b).0;
            && Good(t)
            && (ParseHeader(b).Success? ==>
                  PartOfImage(Flat(sys), CutAll(Reached(b, ParseHeader(b).value, 0)), Flat(t)))
            && (ParseHeader(b).Failure? ==> t == sys)
  {
    if ParseHeader(b).Success? {
      var h := ParseHeader(b).value;
      LoadFromWrites(sys, b, h, 0);
      WriteAllPart(sys, Reached(b, h, 0));
    }
  }

  // ---------------------------------------------------------------- byte by byte

  predicate Touches(s: Segment, a: nat) {
    s.paddr <= a < s.paddr + |s.data|
  }

  /** Read back byte by byte: the last segment that covers an address decides, and no other byte changes. */
  lemma {:induction false} ImageByte(store: map<nat, Byte>, segments: seq<Segment>, a: nat)
    requires a in store
    ensures a in OverlayAll(store, segments)
    ensures (forall s :: s in segments ==> !Touches(s, a)) ==> OverlayAll(store, segments)[a] == store[a]
    ensures forall k :: 0 <= k < |segments| && Touches(segments[k], a) &&
                        (forall j :: k < j < |segments| ==> !Touches(segments[j], a)) ==>
                          OverlayAll(store, segments)[a] == segments[k].data[a - segments[k].paddr]
    decreases |segments|
  {
    if segments != [] {
      var next := Overlay(store, segments[0].paddr, segments[0].data);
      ImageByte(next, segments[1..], a);
      assert segments[0] in segments && forall s :: s in segments[1..] ==> s in segments;
      forall k | 0 <= k < |segments| && Touches(segments[k], a) &&
                 (forall j :: k < j < |segments| ==> !Touches(segments[j], a))
        ensures OverlayAll(store, segments)[a] == segments[k].data[a - segments[k].paddr]
      {
        if k == 0 {
          forall s | s in segments[1..]
            ensures !Touches(s, a)
          {
            var j :| 0 <= j < |segments[1..]| && segments[1..][j] == s;
            assert segments[j + 1] == s;
          }
        } else {
          assert segments[1..][k - 1] == segments[k];
          forall j | k - 1 < j < |segments[1..]|
            ensures !Touches(segments[1..][j], a)
          {
            assert segments[1..][j] == segments[j + 1];
          }
        }
      }
    }
  }
}
