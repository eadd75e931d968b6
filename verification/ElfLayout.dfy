/**
 The file headers as the System V gABI (chapters 4 and 5) lays them out, written
 down from the format's side, and what the loader makes of a file that holds them.
 */
module ElfLayout {
  import opened Arithmetic
  import opened Bytes
  import opened Router
  import opened Elf
  import opened ElfTheorems

  // ---------------------------------------------------------------- records of little-endian numbers

  datatype Num = Num(value: nat, width: nat)

  function Encode(fields: seq<Num>): seq<Byte> {
    if fields == [] then [] else FromNat(fields[0].value, fields[0].width) + Encode(fields[1..])
  }

  function Offset(fields: seq<Num>, k: nat): nat
    requires k <= |fields|
  {
    if k == 0 then 0 else Offset(fields, k - 1) + fields[k - 1].width
  }

  /** The bytes `part` stand at `off`. */
  predicate Holds(b: seq<Byte>, off: nat, part: seq<Byte>) {
    off + |part| <= |b| && b[off..off + |part|] == part
  }

  lemma {:induction false} OffsetTail(fields: seq<Num>, k: nat)
    requires 0 < k <= |fields|
    ensures Offset(fields, k) == fields[0].width + Offset(fields[1..], k - 1)
  {
    if k > 1 {
      OffsetTail(fields, k - 1);
    }
  }

  lemma HoldsSplit(b: seq<Byte>, off: nat, x: seq<Byte>, y: seq<Byte>)
    requires Holds(b, off, x + y)
    ensures Holds(b, off, x) && Holds(b, off + |x|, y)
  {
    assert b[off..off + |x|] == (x + y)[..|x|];
    assert b[off + |x|..off + |x| + |y|] == (x + y)[|x|..];
  }

  lemma {:induction false} EncodedField(b: seq<Byte>, off: nat, fields: seq<Num>, k: nat)
    requires k < |fields| && Holds(b, off, Encode(fields))
    ensures Holds(b, off + Offset(fields, k), FromNat(fields[k].value, fields[k].width))
    decreases k
  {
    var first := FromNat(fields[0].value, fields[0].width);
    HoldsSplit(b, off, first, Encode(fields[1..]));
    if k > 0 {
      EncodedField(b, off + |first|, fields[1..], k - 1);
      OffsetTail(fields, k);
    }
  }

  lemma {:induction false} EncodeLength(fields: seq<Num>)
    ensures |Encode(fields)| == Offset(fields, |fields|)
  {
    if fields != [] {
      EncodeLength(fields[1..]);
      OffsetTail(fields, |fields|);
    }
  }

  lemma HeldNumber(b: seq<Byte>, at: nat, v: nat, n: nat)
    requires Holds(b, at, FromNat(v, n)) && v < Pow256(n)
    ensures Field(b, at, n) == v
  {
    RoundTripNat(v, n);
  }

  /** Each field that was encoded is read back at its offset. */
  lemma FieldReads(b: seq<Byte>, off: nat, fields: seq<Num>, k: nat)
    requires k < |fields| && Holds(b, off, Encode(fields))
    requires fields[k].value < Pow256(fields[k].width)
    ensures off + Offset(fields, k) + fields[k].width <= |b|
    ensures Field(b, off + Offset(fields, k), fields[k].width) == fields[k].value
  {
    var at, n := off + Offset(fields, k), fields[k];
    assert Holds(b, at, FromNat(n.value, n.width)) by {
      EncodedField(b, off, fields, k);
    }
    HeldNumber(b, at, n.value, n.width);
  }

  // ---------------------------------------------------------------- the two headers

  datatype Ehdr = Ehdr(is64: bool, ident: nat, kind: nat, machine: nat, version: nat, entry: nat, phoff: nat,
                       shoff: nat, flags: nat, ehsize: nat, phentsize: nat, phnum: nat,
                       shentsize: nat, shnum: nat, shstrndx: nat)

  datatype Phdr = Phdr(kind: nat, flags: nat, offset: nat, vaddr: nat, paddr: nat, filesz: nat, memsz: nat, align: nat)

  const MAGIC: nat := 0x464C457F
  const PT_LOAD: nat := 1

  function Width(is64: bool): nat {
    if is64 then 8 else 4
  }

  function EhdrFields(e: Ehdr): seq<Num> {
    var w := Width(e.is64);
    [Num(MAGIC, 4), Num(if e.is64 then 2 else 1, 1), Num(1, 1), Num(e.ident, 10), Num(e.kind, 2), Num(e.machine, 2),
     Num(e.version, 4), Num(e.entry, w), Num(e.phoff, w), Num(e.shoff, w), Num(e.flags, 4), Num(e.ehsize, 2),
     Num(e.phentsize, 2), Num(e.phnum, 2), Num(e.shentsize, 2), Num(e.shnum, 2), Num(e.shstrndx, 2)]
  }

  /** The two classes order the fields differently: the flags follow the type in 64 bits. */
  function PhdrFields(is64: bool, p: Phdr): seq<Num> {
    if is64 then
      [Num(p.kind, 4), Num(p.flags, 4), Num(p.offset, 8), Num(p.vaddr, 8), Num(p.paddr, 8), Num(p.filesz, 8),
       Num(p.memsz, 8), Num(p.align, 8)]
    else
      [Num(p.kind, 4), Num(p.offset, 4), Num(p.vaddr, 4), Num(p.paddr, 4), Num(p.filesz, 4), Num(p.memsz, 4),
       Num(p.flags, 4), Num(p.align, 4)]
  }

  predicate Encodable(fields: seq<Num>) {
    forall k :: 0 <= k < |fields| ==> fields[k].value < Pow256(fields[k].width)
  }

  /** The file starts with header `e`, and its program header table holds `ps`. */
  predicate Describes(b: seq<Byte>, e: Ehdr, ps: seq<Phdr>) {
    && Encodable(EhdrFields(e)) && Holds(b, 0, Encode(EhdrFields(e)))
    && |ps| == e.phnum
    && (forall i :: 0 <= i < |ps| ==> HoldsHeader(b, e, ps, i))
  }

  predicate HoldsHeader(b: seq<Byte>, e: Ehdr, ps: seq<Phdr>, i: nat)
    requires i < |ps|
  {
    && Encodable(PhdrFields(e.is64, ps[i]))
    && Holds(b, e.phoff + i * e.phentsize, Encode(PhdrFields(e.is64, ps[i])))
  }

  // ---------------------------------------------------------------- reading them

  lemma EhdrOffsets(e: Ehdr)
    ensures var f, w := EhdrFields(e), Width(e.is64);
            && Offset(f, 0) == 0 && Offset(f, 1) == 4 && Offset(f, 2) == 5 && Offset(f, 3) == 6 && Offset(f, 4) == 16
            && Offset(f, 5) == 18 && Offset(f, 6) == 20 && Offset(f, 7) == 24 && Offset(f, 8) == 24 + w
            && Offset(f, 9) == 24 + 2 * w && Offset(f, 10) == 24 + 3 * w && Offset(f, 11) == 28 + 3 * w
            && Offset(f, 12) == 30 + 3 * w && Offset(f, 13) == 32 + 3 * w && Offset(f, 14) == 34 + 3 * w
            && Offset(f, 15) == 36 + 3 * w && Offset(f, 16) == 38 + 3 * w && Offset(f, 17) == 40 + 3 * w
  {
    var f, w := EhdrFields(e), Width(e.is64);
    assert Offset(f, 1) == 4;
    assert Offset(f, 2) == 5;
    assert Offset(f, 3) == 6;
    assert Offset(f, 4) == 16;
    assert Offset(f, 6) == 20;
    assert Offset(f, 7) == 24;
    assert Offset(f, 8) == 24 + w;
    assert Offset(f, 9) == 24 + 2 * w;
    assert Offset(f, 10) == 24 + 3 * w;
    assert Offset(f, 12) == 30 + 3 * w;
    assert Offset(f, 13) == 32 + 3 * w;
    assert Offset(f, 15) == 36 + 3 * w;
  }

  lemma PhdrOffsets(is64: bool, p: Phdr)
    ensures var f := PhdrFields(is64, p);
            && Offset(f, 0) == 0
            && Offset(f, 1) == 4 && Offset(f, 2) == 8
            && Offset(f, 3) == (if is64 then 16 else 12) && Offset(f, 4) == (if is64 then 24 else 16)
            && Offset(f, 5) == (if is64 then 32 else 20) && Offset(f, 6) == (if is64 then 40 else 24)
            && Offset(f, 7) == (if is64 then 48 else 28) && Offset(f, 8) == (if is64 then 56 else 32)
  {
    var f := PhdrFields(is64, p);
    assert Offset(f, 1) == 4;
    assert Offset(f, 2) == 8;
    assert Offset(f, 3) == if is64 then 16 else 12;
    assert Offset(f, 4) == if is64 then 24 else 16;
    assert Offset(f, 5) == if is64 then 32 else 20;
    assert Offset(f, 6) == if is64 then 40 else 24;
    assert Offset(f, 7) == if is64 then 48 else 28;
  }

  lemma MagicBytes()
    ensures FromNat(MAGIC, 4) == [0x7F, 0x45, 0x4C, 0x46]
  {
    assert FromNat(0x46, 1) == [0x46];
    assert FromNat(0x464C, 2) == [0x4C, 0x46];
    assert FromNat(0x464C45, 3) == [0x45, 0x4C, 0x46];
  }

  function HeaderOf(e: Ehdr): Header {
    Header(e.is64, e.entry, e.phoff, e.phentsize, e.phnum)
  }

  lemma IdentReads(b: seq<Byte>, e: Ehdr)
    requires Encodable(EhdrFields(e)) && Holds(b, 0, Encode(EhdrFields(e)))
    ensures |b| >= 6 && b[..4] == [0x7F, 0x45, 0x4C, 0x46] && b[4] == (if e.is64 then 2 else 1) && b[5] == 1
  {
    var f := EhdrFields(e);
    EhdrOffsets(e);
    EncodedField(b, 0, f, 0);
    MagicBytes();
    FieldReads(b, 0, f, 1);
    FieldReads(b, 0, f, 2);
    assert Field(b, 4, 1) == b[4] && Field(b, 5, 1) == b[5];
  }

  lemma EhdrReads(b: seq<Byte>, e: Ehdr)
    requires Encodable(EhdrFields(e)) && Holds(b, 0, Encode(EhdrFields(e)))
    ensures var w := Width(e.is64);
            && |b| >= 40 + 3 * w
            && Field(b, 24, w) == e.entry && Field(b, 24 + w, w) == e.phoff
            && Field(b, 30 + 3 * w, 2) == e.phentsize && Field(b, 32 + 3 * w, 2) == e.phnum
  {
    var f := EhdrFields(e);
    EhdrOffsets(e);
    EncodeLength(f);
    FieldReads(b, 0, f, 7);
    FieldReads(b, 0, f, 8);
    FieldReads(b, 0, f, 12);
    FieldReads(b, 0, f, 13);
  }

  /** The file header is decoded field for field, provided the file has the 64 bytes the loader asks of either class. */
  lemma HeaderDecodes(b: seq<Byte>, e: Ehdr)
    requires Encodable(EhdrFields(e)) && Holds(b, 0, Encode(EhdrFields(e)))
    ensures ParseHeader(b) == if |b| < 64 then Failure(NotElf) else Success(HeaderOf(e))
  {
    IdentReads(b, e);
    EhdrReads(b, e);
  }

  predicate Loads(p: Phdr) {
    p.kind == PT_LOAD && p.filesz != 0
  }

  predicate InFile(b: seq<Byte>, p: Phdr) {
    Loads(p) ==> p.offset + p.filesz <= |b|
  }

  /** Where the loader puts a segment: the 64-bit branch reads the address one field too early. */
  function Target(is64: bool, p: Phdr): nat {
    if is64 then p.vaddr else p.paddr
  }

  /** The numbers at the places where the loader looks for type, offset, address and size. */
  predicate Shows(b: seq<Byte>, off: nat, is64: bool, p: Phdr) {
    && off + (if is64 then 56 else 32) <= |b|
    && Field(b, off, 4) == p.kind
    && Field(b, off + (if is64 then 8 else 4), Width(is64)) == p.offset
    && Field(b, off + (if is64 then 16 else 12), Width(is64)) == Target(is64, p)
    && Field(b, off + (if is64 then 32 else 16), Width(is64)) == p.filesz
  }

  lemma PhdrReads(b: seq<Byte>, off: nat, is64: bool, p: Phdr)
    requires Encodable(PhdrFields(is64, p)) && Holds(b, off, Encode(PhdrFields(is64, p)))
    ensures Shows(b, off, is64, p)
  {
    var f := PhdrFields(is64, p);
    PhdrOffsets(is64, p);
    EncodeLength(f);
    FieldReads(b, off, f, 0);
    FieldReads(b, off, f, if is64 then 2 else 1);
    FieldReads(b, off, f, 3);
    FieldReads(b, off, f, if is64 then 5 else 4);
  }

  /** What the loader decides from those numbers. */
  lemma PlanFromFields(b: seq<Byte>, h: Header, i: nat, off: nat, p: Phdr)
    requires off == HeaderOffset(h, i) && |b| < TWO64 && Shows(b, off, h.is64, p)
    ensures Planned(b, h, i, p)
  {
  }

  /** Header i reads as `p`: it is refused exactly when its segment is not in the file. */
  predicate Planned(b: seq<Byte>, h: Header, i: nat, p: Phdr) {
    var plan := PlanOf(b, h, i);
    && (plan.Success? <==> InFile(b, p))
    && (plan.Success? ==> plan.value == if Loads(p) then Copy(p.offset, Target(h.is64, p), p.filesz) else Skip)
  }

  lemma PlanFromEncoding(b: seq<Byte>, h: Header, i: nat, off: nat, p: Phdr)
    requires off == HeaderOffset(h, i) && |b| < TWO64
    requires Encodable(PhdrFields(h.is64, p)) && Holds(b, off, Encode(PhdrFields(h.is64, p)))
    ensures Planned(b, h, i, p)
  {
    PhdrReads(b, off, h.is64, p);
    PlanFromFields(b, h, i, off, p);
  }

  /** The loader reads program header i as the format has it, the address of a 64-bit header excepted. */
  lemma PhdrDecodes(b: seq<Byte>, e: Ehdr, ps: seq<Phdr>, i: nat)
    requires i < |ps| && HoldsHeader(b, e, ps, i) && |b| < TWO64
    ensures Planned(b, HeaderOf(e), i, ps[i])
  {
    var off := e.phoff + i * e.phentsize;
    assert off == HeaderOffset(HeaderOf(e), i) by {
      EncodeLength(PhdrFields(e.is64, ps[i]));
      Small(off, TWO64);
    }
    PlanFromEncoding(b, HeaderOf(e), i, off, ps[i]);
  }

  // ---------------------------------------------------------------- every accepted file holds such headers

  lemma TailReads(b: seq<Byte>, off: nat, fields: seq<Num>, k: nat)
    requires k + 1 < |fields| && ReadsAs(b, off, fields, k + 1)
    ensures ReadsAs(b, off + fields[0].width, fields[1..], k)
  {
    OffsetTail(fields, k + 1);
  }

  lemma HeadHolds(b: seq<Byte>, off: nat, fields: seq<Num>)
    requires fields != [] && ReadsAs(b, off, fields, 0)
    ensures fields[0].value < Pow256(fields[0].width) && Holds(b, off, FromNat(fields[0].value, fields[0].width))
  {
    RoundTripBytes(b[off..off + fields[0].width]);
  }

  /** Bytes whose fields read so are their encoding. */
  lemma {:induction false} EncodesPart(b: seq<Byte>, off: nat, fields: seq<Num>)
    requires off + Offset(fields, |fields|) <= |b|
    requires forall k :: 0 <= k < |fields| ==> ReadsAs(b, off, fields, k)
    ensures Encodable(fields) && Holds(b, off, Encode(fields))
    decreases |fields|
  {
    if fields != [] {
      var first, rest, next := fields[0], fields[1..], off + fields[0].width;
      OffsetTail(fields, |fields|);
      forall k | 0 <= k < |rest|
        ensures ReadsAs(b, next, rest, k)
      {
        assert ReadsAs(b, off, fields, k + 1);
        TailReads(b, off, fields, k);
      }
      EncodesPart(b, next, rest);
      assert ReadsAs(b, off, fields, 0);
      HeadHolds(b, off, fields);
      HoldsJoin(b, off, FromNat(first.value, first.width), Encode(rest));
      EncodableCons(first, rest);
      assert fields == [first] + rest;
    }
  }

  lemma EncodableCons(first: Num, rest: seq<Num>)
    requires first.value < Pow256(first.width) && Encodable(rest)
    ensures Encodable([first] + rest)
  {
  }

  predicate ReadsAs(b: seq<Byte>, off: nat, fields: seq<Num>, k: nat)
    requires k < |fields|
  {
    && off + Offset(fields, k) + fields[k].width <= |b|
    && fields[k].value == Field(b, off + Offset(fields, k), fields[k].width)
  }

  lemma HoldsJoin(b: seq<Byte>, off: nat, x: seq<Byte>, y: seq<Byte>)
    requires Holds(b, off, x) && Holds(b, off + |x|, y)
    ensures Holds(b, off, x + y)
  {
    assert b[off..off + |x + y|] == b[off..off + |x|] + b[off + |x|..off + |x| + |y|];
  }

  function EhdrOf(b: seq<Byte>): Ehdr
    requires |b| >= 64
  {
    var is64 := b[4] == 2;
    var w := Width(is64);
    Ehdr(is64, Field(b, 6, 10), Field(b, 16, 2), Field(b, 18, 2), Field(b, 20, 4), Field(b, 24, w), Field(b, 24 + w, w),
         Field(b, 24 + 2 * w, w), Field(b, 24 + 3 * w, 4), Field(b, 28 + 3 * w, 2), Field(b, 30 + 3 * w, 2),
         Field(b, 32 + 3 * w, 2), Field(b, 34 + 3 * w, 2), Field(b, 36 + 3 * w, 2), Field(b, 38 + 3 * w, 2))
  }

  /** The marks of a little-endian file of one of the two classes. */
  predicate Marked(b: seq<Byte>) {
    |b| >= 64 && b[..4] == [0x7F, 0x45, 0x4C, 0x46] && (b[4] == 1 || b[4] == 2) && b[5] == 1
  }

  lemma MarksRead(b: seq<Byte>)
    requires Marked(b)
    ensures Field(b, 0, 4) == MAGIC && Field(b, 4, 1) == (if b[4] == 2 then 2 else 1) && Field(b, 5, 1) == 1
  {
    MagicBytes();
    Powers();
    RoundTripNat(MAGIC, 4);
    assert b[0..4] == FromNat(MAGIC, 4);
    assert Field(b, 4, 1) == b[4] && Field(b, 5, 1) == b[5];
  }

  lemma MarkedReads(b: seq<Byte>, k: nat)
    requires Marked(b) && k < 17
    ensures ReadsAs(b, 0, EhdrFields(EhdrOf(b)), k)
  {
    MarksRead(b);
    EhdrOffsets(EhdrOf(b));
  }

  /** A marked file begins with the encoding of the header that is read from it. */
  lemma MarkedIsEncoded(b: seq<Byte>)
    requires Marked(b)
    ensures Encodable(EhdrFields(EhdrOf(b))) && Holds(b, 0, Encode(EhdrFields(EhdrOf(b))))
  {
    forall k: nat | k < 17
      ensures ReadsAs(b, 0, EhdrFields(EhdrOf(b)), k)
    {
      MarkedReads(b, k);
    }
    EhdrOffsets(EhdrOf(b));
    EncodesPart(b, 0, EhdrFields(EhdrOf(b)));
  }

  /**
   The loader accepts exactly the files of at least 64 bytes with the magic number and
   little-endian data, takes every class but 2 for 32 bits, and says what is missing.
   */
  lemma ParsesIff(b: seq<Byte>)
    ensures ParseHeader(b).Success? <==> |b| >= 64 && b[..4] == [0x7F, 0x45, 0x4C, 0x46] && b[5] == 1
    ensures ParseHeader(b).Success? ==> (ParseHeader(b).value.is64 <==> b[4] == 2)
    ensures |b| < 64 || b[..4] != [0x7F, 0x45, 0x4C, 0x46] ==> ParseHeader(b) == Failure(NotElf)
    ensures |b| >= 64 && b[..4] == [0x7F, 0x45, 0x4C, 0x46] && b[5] != 1 ==> ParseHeader(b) == Failure(NotLittleEndian)
  {
  }

  /** Of the files of either class, it accepts exactly those of at least 64 bytes that begin with an encoded header. */
  lemma AcceptsEncodedIff(b: seq<Byte>)
    requires |b| >= 64 && (b[4] == 1 || b[4] == 2)
    ensures ParseHeader(b).Success? <==> exists e :: Encodable(EhdrFields(e)) && Holds(b, 0, Encode(EhdrFields(e)))
  {
    if ParseHeader(b).Success? {
      MarkedIsEncoded(b);
    }
    if e :| Encodable(EhdrFields(e)) && Holds(b, 0, Encode(EhdrFields(e))) {
      HeaderDecodes(b, e);
    }
  }

  function PhdrOf(b: seq<Byte>, off: nat, is64: bool): Phdr
    requires off + (if is64 then 56 else 32) <= |b|
  {
    if is64 then
      Phdr(Field(b, off, 4), Field(b, off + 4, 4), Field(b, off + 8, 8), Field(b, off + 16, 8), Field(b, off + 24, 8),
           Field(b, off + 32, 8), Field(b, off + 40, 8), Field(b, off + 48, 8))
    else
      Phdr(Field(b, off, 4), Field(b, off + 24, 4), Field(b, off + 4, 4), Field(b, off + 8, 4), Field(b, off + 12, 4),
           Field(b, off + 16, 4), Field(b, off + 20, 4), Field(b, off + 28, 4))
  }

  lemma PhdrIsEncoded(b: seq<Byte>, off: nat, is64: bool)
    requires off + (if is64 then 56 else 32) <= |b|
    ensures var f := PhdrFields(is64, PhdrOf(b, off, is64)); Encodable(f) && Holds(b, off, Encode(f))
  {
    var f := PhdrFields(is64, PhdrOf(b, off, is64));
    PhdrOffsets(is64, PhdrOf(b, off, is64));
    forall k | 0 <= k < |f|
      ensures ReadsAs(b, off, f, k)
    {
    }
    EncodesPart(b, off, f);
  }

  /** The whole program header table lies in the file. */
  predicate TableInFile(b: seq<Byte>, e: Ehdr) {
    forall i: nat :: i < e.phnum ==> EntryEnd(e, i) <= |b|
  }

  function EntryEnd(e: Ehdr, i: nat): nat {
    e.phoff + i * e.phentsize + if e.is64 then 56 else 32
  }

  function PhdrsOf(b: seq<Byte>, e: Ehdr): (ps: seq<Phdr>)
    requires TableInFile(b, e)
  {
    seq(e.phnum, i requires 0 <= i < e.phnum =>
      assert EntryEnd(e, i) <= |b|; PhdrOf(b, e.phoff + i * e.phentsize, e.is64))
  }

  /**
   So every marked file whose table lies in it is described by headers of the format, and
   what is proved of described files is proved of it.
   */
  lemma EveryFileIsDescribed(b: seq<Byte>)
    requires Marked(b) && TableInFile(b, EhdrOf(b))
    ensures Describes(b, EhdrOf(b), PhdrsOf(b, EhdrOf(b)))
  {
    MarkedIsEncoded(b);
    DescribedBy(b, EhdrOf(b));
  }

  lemma EntryHolds(b: seq<Byte>, e: Ehdr, i: nat)
    requires TableInFile(b, e) && i < e.phnum
    ensures HoldsHeader(b, e, PhdrsOf(b, e), i)
  {
    assert EntryEnd(e, i) <= |b|;
    PhdrIsEncoded(b, e.phoff + i * e.phentsize, e.is64);
  }

  lemma DescribedBy(b: seq<Byte>, e: Ehdr)
    requires Encodable(EhdrFields(e)) && Holds(b, 0, Encode(EhdrFields(e))) && TableInFile(b, e)
    ensures Describes(b, e, PhdrsOf(b, e))
  {
    forall i: nat | i < e.phnum
      ensures HoldsHeader(b, e, PhdrsOf(b, e), i)
    {
      EntryHolds(b, e, i);
    }
  }

  // ---------------------------------------------------------------- the whole load

  predicate AllInFile(b: seq<Byte>, ps: seq<Phdr>) {
    forall p :: p in ps ==> InFile(b, p)
  }

  /** The segments the program headers describe, at their virtual or at their physical addresses. */
  function Placed(b: seq<Byte>, ps: seq<Phdr>, virtual: bool): seq<Segment>
    requires AllInFile(b, ps)
  {
    if ps == [] then []
    else
      var p := ps[0];
      assert p in ps;
      var rest := Placed(b, ps[1..], virtual);
      if Loads(p) then [Segment(Target(virtual, p), b[p.offset..p.offset + p.filesz])] + rest else rest
  }

  predicate AllPlanned(b: seq<Byte>, h: Header, ps: seq<Phdr>) {
    h.phnum == |ps| && forall i: nat :: i < |ps| ==> Planned(b, h, i, ps[i])
  }

  lemma AllDecode(b: seq<Byte>, e: Ehdr, ps: seq<Phdr>)
    requires Describes(b, e, ps) && |b| < TWO64
    ensures AllPlanned(b, HeaderOf(e), ps)
  {
    forall i: nat | i < |ps|
      ensures Planned(b, HeaderOf(e), i, ps[i])
    {
      assert HoldsHeader(b, e, ps, i);
      PhdrDecodes(b, e, ps, i);
    }
  }

  lemma {:induction false} SegmentsArePlaced(b: seq<Byte>, h: Header, ps: seq<Phdr>, i: nat)
    requires AllPlanned(b, h, ps) && AllInFile(b, ps) && i <= |ps|
    ensures Segments(b, h, i) == Placed(b, ps[i..], h.is64)
    decreases |ps| - i
  {
    if i < |ps| {
      SegmentsArePlaced(b, h, ps, i + 1);
      assert Planned(b, h, i, ps[i]) && ps[i] in ps;
      assert ps[i..][0] == ps[i] && ps[i..][1..] == ps[i + 1..];
    }
  }

  lemma ReadableIff(b: seq<Byte>, h: Header, ps: seq<Phdr>)
    requires AllPlanned(b, h, ps)
    ensures HeadersReadable(b, h, 0) <==> AllInFile(b, ps)
  {
    forall i: nat | i < |ps|
      ensures PlanOf(b, h, i).Success? <==> InFile(b, ps[i])
    {
      assert Planned(b, h, i, ps[i]);
    }
    if HeadersReadable(b, h, 0) {
      forall p | p in ps
        ensures InFile(b, p)
      {
        var i: nat :| i < |ps| && ps[i] == p;
        assert PlanOf(b, h, i).Success?;
      }
    }
  }

  /**
   A file with these headers loads exactly when each loadable segment lies in the
   file and has a writable region to go to; the load then returns the entry point
   and lays the segments over the memory, in header order.
   */
  lemma LoadsWhatTheHeadersSay(sys: System, b: seq<Byte>, e: Ehdr, ps: seq<Phdr>)
    requires Good(sys) && Describes(b, e, ps) && 64 <= |b| < TWO64
    ensures LoadElf(sys, b).1.Success? <==>
            AllInFile(b, ps) && AllWritable(Layout(sys), CutAll(Placed(b, ps, e.is64)))
    ensures var (t, r) := LoadElf(sys, b);
            r.Success? ==> && r.value == e.entry && AllInFile(b, ps) && Good(t) && Layout(t) == Layout(sys)
                           && Flat(t) == OverlayAll(Flat(sys), CutAll(Placed(b, ps, e.is64)))
  {
    HeaderDecodes(b, e);
    LoadElfIff(sys, b);
    AllDecode(b, e, ps);
    ReadableIff(b, HeaderOf(e), ps);
    if AllInFile(b, ps) {
      SegmentsArePlaced(b, HeaderOf(e), ps, 0);
      assert ps[0..] == ps;
    }
    if LoadElf(sys, b).1.Success? {
      LoadElfImage(sys, b);
    }
  }

  /** A program header whose segment the 32-bit length parameter does not cut. */
  predicate Short(p: Phdr) {
    Loads(p) ==> p.filesz < TWO32
  }

  lemma {:induction false} PlacedShortIff(b: seq<Byte>, ps: seq<Phdr>, virtual: bool)
    requires AllInFile(b, ps)
    ensures AllShort(Placed(b, ps, virtual)) <==> forall p :: p in ps ==> Short(p)
  {
    if ps != [] {
      PlacedShortIff(b, ps[1..], virtual);
      assert ps[0] in ps && ps == [ps[0]] + ps[1..];
      assert (forall p :: p in ps ==> Short(p)) <==> Short(ps[0]) && forall p :: p in ps[1..] ==> Short(p);
      var all, rest := Placed(b, ps, virtual), Placed(b, ps[1..], virtual);
      if Loads(ps[0]) {
        assert all == [all[0]] + rest && |all[0].data| == ps[0].filesz;
        assert AllShort(all) <==> |all[0].data| < TWO32 && AllShort(rest);
      }
    }
  }

  /** Each segment is laid down whole exactly when every loadable header asks for fewer than 2^32 bytes. */
  lemma WholeIff(b: seq<Byte>, ps: seq<Phdr>, virtual: bool)
    requires AllInFile(b, ps)
    ensures CutAll(Placed(b, ps, virtual)) == Placed(b, ps, virtual) <==> forall p :: p in ps ==> Short(p)
  {
    NothingCutIff(Placed(b, ps, virtual));
    PlacedShortIff(b, ps, virtual);
  }

  // ---------------------------------------------------------------- virtual and physical addresses

  predicate IdentityMapped(ps: seq<Phdr>) {
    forall p :: p in ps && Loads(p) ==> p.vaddr == p.paddr
  }

  lemma {:induction false} PlacedAlike(b: seq<Byte>, ps: seq<Phdr>)
    requires AllInFile(b, ps)
    ensures Placed(b, ps, true) == Placed(b, ps, false) <==> IdentityMapped(ps)
  {
    if ps != [] {
      PlacedAlike(b, ps[1..]);
      assert IdentityMapped(ps) <==> (Loads(ps[0]) ==> ps[0].vaddr == ps[0].paddr) && IdentityMapped(ps[1..]);
      var v, p := Placed(b, ps, true), Placed(b, ps, false);
      if Loads(ps[0]) {
        assert v[1..] == Placed(b, ps[1..], true) && p[1..] == Placed(b, ps[1..], false);
        assert v[0].paddr == ps[0].vaddr && p[0].paddr == ps[0].paddr;
      }
    }
  }

  /**
   The loader's segments are those at the physical addresses exactly for 32-bit
   files and for 64-bit files whose loadable headers have equal addresses.
   */
  lemma PhysicalIff(b: seq<Byte>, e: Ehdr, ps: seq<Phdr>)
    requires Describes(b, e, ps) && |b| < TWO64 && AllInFile(b, ps)
    ensures Segments(b, HeaderOf(e), 0) == Placed(b, ps, false) <==> !e.is64 || IdentityMapped(ps)
  {
    AllDecode(b, e, ps);
    SegmentsArePlaced(b, HeaderOf(e), ps, 0);
    assert ps[0..] == ps;
    PlacedAlike(b, ps);
  }

  /** A file made of the header, one program header right behind it, and a body. */
  lemma OneSegmentFile(e: Ehdr, p: Phdr, body: seq<Byte>)
    requires Encodable(EhdrFields(e)) && Encodable(PhdrFields(e.is64, p))
    requires e.phoff == |Encode(EhdrFields(e))| && e.phnum == 1
    ensures Describes(Encode(EhdrFields(e)) + Encode(PhdrFields(e.is64, p)) + body, e, [p])
  {
    var b := Encode(EhdrFields(e)) + Encode(PhdrFields(e.is64, p)) + body;
    assert HoldsHeader(b, e, [p], 0);
  }

  /** Headers of a 64-bit file linked at 0x8000_0000 with load address 0x1000. */
  lemma HighImageHeader() returns (e: Ehdr)
    ensures e.is64 && e.phoff == |Encode(EhdrFields(e))| == 64 && e.phnum == 1 && Encodable(EhdrFields(e))
  {
    e := Ehdr(true, 0, 2, 243, 1, 0x8000_0000, 64, 0, 0, 64, 56, 1, 0, 0, 0);
    Powers();
    EhdrOffsets(e);
    EncodeLength(EhdrFields(e));
  }

  lemma HighImageSegment(filesz: nat) returns (p: Phdr)
    requires 0 < filesz < TWO64
    ensures |Encode(PhdrFields(true, p))| == 56 && Encodable(PhdrFields(true, p))
    ensures Loads(p) && p.offset == 120 && p.filesz == filesz && p.vaddr == 0x8000_0000 && p.paddr == 0x1000
  {
    p := Phdr(PT_LOAD, 5, 120, 0x8000_0000, 0x1000, filesz, filesz, 1);
    Powers();
    PhdrOffsets(true, p);
    EncodeLength(PhdrFields(true, p));
  }

  /** The one segment of the file does not go to its load address. */
  predicate Misplaced(b: seq<Byte>, e: Ehdr, p: Phdr) {
    Describes(b, e, [p]) && AllInFile(b, [p]) && Segments(b, HeaderOf(e), 0) != Placed(b, [p], false)
  }

  lemma MisplacedFile(b: seq<Byte>, e: Ehdr, p: Phdr)
    requires Describes(b, e, [p]) && |b| < TWO64 && e.is64
    requires Loads(p) && InFile(b, p) && p.vaddr != p.paddr
    ensures Misplaced(b, e, p)
  {
    PhysicalIff(b, e, [p]);
    assert p in [p];
  }

  /** There is such a file. */
  lemma VirtualAddressIsUsed()
    ensures exists b, e, p :: Misplaced(b, e, p) && p.vaddr == 0x8000_0000 && p.paddr == 0x1000
  {
    var e := HighImageHeader();
    var p := HighImageSegment(1);
    OneSegmentFile(e, p, [0x13]);
    MisplacedFile(Encode(EhdrFields(e)) + Encode(PhdrFields(true, p)) + [0x13], e, p);
  }

  /** The load of the file returns and leaves memory as it was, although it has a segment. */
  ghost predicate Lost(sys: System, b: seq<Byte>, e: Ehdr, p: Phdr)
    requires Good(sys)
  {
    && Describes(b, e, [p]) && Loads(p) && InFile(b, p)
    && LoadElf(sys, b).1 == Success(e.entry)
    && Good(LoadElf(sys, b).0) && Flat(LoadElf(sys, b).0) == Flat(sys)
  }

  lemma PlacedOne(b: seq<Byte>, p: Phdr, virtual: bool)
    requires Loads(p) && InFile(b, p)
    ensures AllInFile(b, [p])
    ensures Placed(b, [p], virtual) == [Segment(Target(virtual, p), b[p.offset..p.offset + p.filesz])]
  {
    assert [p][1..] == [];
  }

  lemma LostFile(sys: System, b: seq<Byte>, e: Ehdr, p: Phdr)
    requires Good(sys) && Describes(b, e, [p]) && 64 <= |b| < TWO64
    requires Loads(p) && InFile(b, p) && p.filesz == TWO32
    ensures Lost(sys, b, e, p)
  {
    var data := b[p.offset..p.offset + p.filesz];
    var whole := Segment(Target(e.is64, p), data);
    PlacedOne(b, p, e.is64);
    LoadsWhatTheHeadersSay(sys, b, e, [p]);
    assert Cut(data) == [];
    CutStep(whole, []);
    assert [whole] + [] == [whole];
    assert CutAll([whole]) == [Segment(whole.paddr, [])];
    OverlayStep(Flat(sys), Segment(whole.paddr, []), []);
    assert [Segment(whole.paddr, [])] + [] == [Segment(whole.paddr, [])];
    EmptyOverlay(Flat(sys), whole.paddr);
  }

  /** There is such a file, for every memory map: its segment has 2^32 bytes. */
  lemma LongSegmentIsLost(sys: System)
    requires Good(sys)
    ensures exists b, e, p :: Lost(sys, b, e, p) && p.filesz == TWO32
  {
    var e := HighImageHeader();
    var p := HighImageSegment(TWO32);
    var body: seq<Byte> := seq(TWO32, _ => 1);
    OneSegmentFile(e, p, body);
    LostFile(sys, Encode(EhdrFields(e)) + Encode(PhdrFields(true, p)) + body, e, p);
  }
}
