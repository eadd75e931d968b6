/** The SPI registers over the bus, in every run. */
module SpiRegisters {
  import opened Arithmetic
  import opened Spi
  import SpiTheorems

  /** CR0, CR1, CPSR, IMSC and DMACR. */
  predicate IsControl(offset: nat) {
    offset == 0x00 || offset == 0x04 || offset == 0x10 || offset == 0x14 || offset == 0x24
  }

  /** The bits of a written word that a control register keeps. */
  function Kept(offset: nat, value: Word): Word {
    if offset == 0x04 || offset == 0x14 then value % 16
    else if offset == 0x10 then value % 0x100 / 2 * 2
    else if offset == 0x24 then value % 4
    else value
  }

  predicate WritesTo(a: Action, offset: nat) {
    a.Write? && a.addr <= 0xFFC && a.len <= 2 && a.addr % 0x100 == offset
  }

  /** What the bus last wrote to the register, or 0 after a later reset. */
  function LastWritten(r: Run, offset: nat): Word {
    match r
    case PowerUp(s) => ReadReg(s, offset).2
    case Then(q, a) =>
      if a.Reset? then 0 else if WritesTo(a, offset) then Kept(offset, a.value) else LastWritten(q, offset)
  }

  lemma RegisterWrite(s: State, offset: nat, value: Word, other: nat)
    requires IsControl(other)
    ensures Peek(WriteReg(s, offset, value).0, other) == if other == offset then Kept(offset, value) else Peek(s, other)
  {
    SpiTheorems.IrqsRoundTrip(value);
  }

  lemma RegisterStep(s: State, a: Action, offset: nat)
    requires IsControl(offset)
    ensures Peek(Step(s, a).0, offset) ==
            if a.Reset? then 0 else if WritesTo(a, offset) then Kept(offset, a.value) else Peek(s, offset)
  {
    if a.Write? {
      RegisterWrite(s, a.addr % 0x100, a.value, offset);
    }
  }

  /** In every run each control register reads what the bus last wrote to it, and nothing else changes it. */
  lemma {:induction false} RegistersAreHistory(r: Run, offset: nat)
    requires IsControl(offset)
    ensures ReadReg(End(r), offset).2 == LastWritten(r, offset)
  {
    match r
    case PowerUp(s) => assert Boot(s).cfg == s.cfg;
    case Then(q, a) =>
      RegistersAreHistory(q, offset);
      RegisterStep(End(q), a, offset);
  }

  /** What an unrefused write answers: read-only and unknown registers, and DR without room, are errors. */
  lemma WriteAnswer(s: State, offset: nat, value: Word)
    ensures WriteReg(s, offset, value).2 <==> IsControl(offset) || offset == 0x20 || (offset == 0x08 && HasRoom(s.tx))
    ensures var (t, _, ok) := WriteReg(s, offset, value); !ok ==> t == s.(cfg := t.cfg)
  {
  }

  /** An access is refused exactly beyond the last register or with more than two bytes, and does nothing. */
  lemma RefusalIsExact(s: State, addr: nat, len: nat, value: Word)
    ensures Refused(addr, len) <==> addr >= 0xFFD || len >= 3
    ensures Refused(addr, len) ==> Step(s, Write(addr, len, value)) == Step(s, Read(addr, len)) == (s, Quiet)
  {
  }

  /** Reading a register other than DR changes nothing. */
  lemma ReadChangesNothing(s: State, a: Action)
    requires a.Read? && !ReadsData(a)
    ensures Step(s, a).0 == s
  {
  }

  /** The four bytes of an identification word. */
  function Word32(s: State, offset: nat): nat {
    ReadReg(s, offset).2 + 0x100 * ReadReg(s, offset + 4).2 + 0x1_0000 * ReadReg(s, offset + 8).2 +
    0x100_0000 * ReadReg(s, offset + 12).2
  }

  /** The identification registers spell the PL022 part and the PrimeCell identification. */
  lemma IdentifiesAsPl022(s: State)
    ensures Word32(s, 0xFE0) == 0x0034_1022 && Word32(s, 0xFF0) == 0xB105_F00D
  {
  }
}
