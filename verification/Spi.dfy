/**
 The PL022-style SPI controller as an interleaved step machine.

 The `transmit` thread, the two event-driven methods, the reset method and the
 bus accesses are the actions of the machine.  A pending delta notification is a
 flag, a triggered method is a "ready" flag, and the thread's program counter is
 a datatype.  Scheduling follows clauses 4.2.1 and 5.10 of IEEE 1666-2011: all
 pending delta notifications are delivered together, and only once every ready
 process has run.  A flight may end at any moment, which covers every clock
 setting and every peripheral delay.

 An `sc_fifo` (clause 6.23) counts in two halves: a read is seen at once by
 `num_available` but only after the next update phase by `num_free`, and a write
 the other way round.  The update phase is part of the delta step.
 */
module Spi {
  import opened Arithmetic

  const FIFO_SIZE: nat := 8

  /** A sixteen-bit value.  Masks are written as remainders, single bits as named fields. */
  type Word = nat

  /** RIS, MIS and IMSC: receive overrun, receive timeout, receive level, transmit level. */
  datatype Irqs = Irqs(ror: bool, rt: bool, rx: bool, tx: bool)

  /** SR: TX empty, TX not full, RX not empty, RX full, busy. */
  datatype Status = Status(tfe: bool, tnf: bool, rne: bool, rff: bool, bsy: bool)

  function Weigh(bit: bool, weight: nat): nat {
    if bit then weight else 0
  }

  function ToIrqs(value: Word): Irqs {
    Irqs(Bit(value, 1), Bit(value, 2), Bit(value, 4), Bit(value, 8))
  }

  function IrqsValue(q: Irqs): Word {
    Weigh(q.ror, 1) + Weigh(q.rt, 2) + Weigh(q.rx, 4) + Weigh(q.tx, 8)
  }

  function StatusValue(s: Status): Word {
    Weigh(s.tfe, 1) + Weigh(s.tnf, 2) + Weigh(s.rne, 4) + Weigh(s.rff, 8) + Weigh(s.bsy, 16)
  }

  function And(a: Irqs, b: Irqs): Irqs {
    Irqs(a.ror && b.ror, a.rt && b.rt, a.rx && b.rx, a.tx && b.tx)
  }

  const NO_IRQS := Irqs(false, false, false, false)

  /** Where the `transmit` thread is. */
  datatype Pc =
    | LoopTop                            // runnable, about to test the loop condition
    | Parked                             // wait(transmission_event)
    | InFlight(word: Word, bits: nat)    // popped, peripheral access and wait(delay)
    | ZeroWait                           // wait(SC_ZERO_TIME)
    | AfterZero                          // runnable, after the zero-time wait

  /** Delta notifications of the three events, and methods the kernel has made ready. */
  datatype Kernel = Kernel(
    txPending: bool, intrPending: bool, statusPending: bool,
    intrReady: bool, statusReady: bool, resetReady: bool)

  datatype Config = Config(cr0: Word, cr1: Word, dr: Word, cpsr: Word, imsc: Irqs, icr: Word, dmacr: Word)

  /** The words in the queue, and the reads and writes since the last update phase. */
  datatype Fifo = Fifo(items: seq<Word>, read: nat, written: nat)

  const EMPTY := Fifo([], 0, 0)

  datatype State = State(
    cfg: Config,
    sr: Status, ris: Irqs, mis: Irqs, intr: bool,
    rx: Fifo, tx: Fifo,
    transmitting: bool,
    pc: Pc,
    k: Kernel)

  datatype Action =
    | Write(addr: nat, len: nat, value: Word)
    | Read(addr: nat, len: nat)
    | Reset                    // falling edge of the reset input, or the initial run
    | RunTransmit
    | FlightEnd(reply: Word)   // wait(delay) is over; `reply` is what the peripheral left in the buffer
    | RunIntr
    | RunStatus
    | Delta

  /** What an action shows at the interface. */
  datatype Event =
    | Quiet
    | Accepted(word: Word)                                           // write to DR taken
    | Rejected                                                       // write to DR on a full FIFO
    | Sent(word: Word, bits: nat)                                   // word handed to the peripheral
    | Completed(word: Word, bits: nat, frame: Word, stored: bool)   // frame finished
    | Received(raw: Word)                                            // word taken from the RX FIFO by a read of DR
    | ReadEmpty                                                      // read of DR on an empty FIFO
    | WasReset

  // ---------------------------------------------------------------- FIFO calls

  /** Words written since the last update phase are not yet available. */
  function NumAvailable(f: Fifo): nat {
    if f.written <= |f.items| then |f.items| - f.written else 0
  }

  /** Places read since the last update phase are not yet free. */
  function NumFree(f: Fifo): nat {
    if |f.items| + f.read < FIFO_SIZE then FIFO_SIZE - (|f.items| + f.read) else 0
  }

  /** `sc_fifo::write`; the precondition is what makes the call return at once. */
  function Put(f: Fifo, w: Word): Fifo
    requires NumFree(f) > 0
  {
    f.(items := f.items + [w], written := f.written + 1)
  }

  /** `sc_fifo::read`; the precondition is what makes the call return at once. */
  function Get(f: Fifo): (Word, Fifo)
    requires NumAvailable(f) > 0
  {
    (f.items[0], f.(items := f.items[1..], read := f.read + 1))
  }

  /** `nb_read` until it fails: words written since the last update phase stay. */
  function Drained(f: Fifo): Fifo {
    f.(items := f.items[NumAvailable(f)..], read := f.read + NumAvailable(f))
  }

  /** The update phase. */
  function Updated(f: Fifo): Fifo {
    Fifo(f.items, 0, 0)
  }

  // ---------------------------------------------------------------- the processes

  function FrameBits(cr0: Word): nat {
    cr0 % 16 + 1
  }

  /** `value & mask` for the mask of a frame of that many bits. */
  function Masked(value: Word, bits: nat): Word {
    value % Pow2(bits)
  }

  /** SSE, bit 1 of CR1. */
  predicate Enabled(cr1: Word) {
    Bit(cr1, 2)
  }

  function UpdateIntr(s: State): State {
    var ris := s.ris.(tx := NumAvailable(s.tx) <= FIFO_SIZE / 2, rx := NumAvailable(s.rx) >= FIFO_SIZE / 2);
    var mis := And(ris, s.cfg.imsc);
    s.(ris := ris, mis := mis, intr := mis != NO_IRQS)
  }

  function UpdateStatus(s: State): State {
    s.(sr := Status(NumFree(s.tx) == FIFO_SIZE, NumFree(s.tx) != 0,
                    NumAvailable(s.rx) != 0, NumAvailable(s.rx) == FIFO_SIZE,
                    s.transmitting || NumFree(s.tx) != FIFO_SIZE))
  }

  /** The registers at their reset values and both FIFOs drained. */
  function Cleared(s: State): State {
    State(Config(0, 0, s.cfg.dr, 0, NO_IRQS, 0, 0),
          s.sr, NO_IRQS.(tx := true), NO_IRQS, s.intr, Drained(s.rx), Drained(s.tx), false, s.pc,
          s.k.(intrPending := true, resetReady := false))
  }

  function HandleReset(s: State): State {
    UpdateStatus(Cleared(s))
  }

  /** One activation of the thread, from the loop top to its next wait. */
  function Transmit(s: State): (State, Event) {
    if NumAvailable(s.tx) == 0 || !Enabled(s.cfg.cr1) then
      (s.(transmitting := false, pc := Parked, k := s.k.(statusPending := true)), Quiet)
    else
      var (word, rest) := Get(s.tx);
      var bits := FrameBits(s.cfg.cr0);
      (s.(transmitting := true, tx := rest, pc := InFlight(word, bits), k := s.k.(statusPending := true)),
       Sent(word, bits))
  }

  /** The thread resumes after its timed wait and stores the reply. */
  function EndFlight(s: State, reply: Word): (State, Event)
    requires s.pc.InFlight?
  {
    var frame := Masked(reply, s.pc.bits);
    if NumFree(s.rx) == 0 then
      (s.(ris := s.ris.(ror := true), pc := ZeroWait), Completed(s.pc.word, s.pc.bits, frame, false))
    else
      (s.(rx := Put(s.rx, frame), pc := ZeroWait), Completed(s.pc.word, s.pc.bits, frame, true))
  }

  /** `write_reg` on DR. */
  function WriteData(s: State, value: Word): (State, Event, bool) {
    var t := s.(cfg := s.cfg.(dr := value));
    if NumFree(s.tx) != 0 then
      (UpdateStatus(t.(tx := Put(s.tx, value), k := s.k.(intrPending := true, txPending := true))),
       Accepted(value), true)
    else
      (t, Rejected, false)
  }

  /** `write_reg` on the other registers, field by field. */
  function WriteControl(s: State, offset: nat, value: Word): State {
    var c := s.cfg;
    s.(cfg := c.(cr0 := if offset == 0x00 then value else c.cr0,
                 cr1 := if offset == 0x04 then value % 16 else c.cr1,
                 cpsr := if offset == 0x10 then value % 0x100 - value % 2 else c.cpsr,
                 imsc := if offset == 0x14 then ToIrqs(value) else c.imsc,
                 icr := if offset == 0x20 then 3 - value % 4 else c.icr,
                 dmacr := if offset == 0x24 then value % 4 else c.dmacr),
       ris := if offset == 0x20 then s.ris.(ror := s.ris.ror && !Bit(value, 1), rt := s.ris.rt && !Bit(value, 2))
              else s.ris,
       k := s.k.(txPending := s.k.txPending || (offset == 0x04 && Enabled(value % 16)),
                 intrPending := s.k.intrPending || offset == 0x14 || offset == 0x20))
  }

  /** `write_reg`; the flag is its return value. */
  function WriteReg(s: State, offset: nat, value: Word): (State, Event, bool) {
    if offset == 0x08 then WriteData(s, value)
    else (WriteControl(s, offset, value), Quiet, offset in {0x00, 0x04, 0x10, 0x14, 0x20, 0x24})
  }

  /** `read_reg` on DR. */
  function ReadData(s: State): (State, Event, Word) {
    if NumAvailable(s.rx) == 0 then
      (s.(ris := s.ris.(ror := true), k := s.k.(intrPending := true)), ReadEmpty, 0)
    else
      var (raw, rest) := Get(s.rx);
      var value := Masked(raw, FrameBits(s.cfg.cr0));
      (s.(rx := rest, k := s.k.(intrPending := true, statusPending := true)), Received(raw), value)
  }

  /** `read_reg` on the registers that are only looked at. */
  function Peek(s: State, offset: nat): Word {
    if offset == 0x00 then s.cfg.cr0
    else if offset == 0x04 then s.cfg.cr1
    else if offset == 0x0C then StatusValue(s.sr)
    else if offset == 0x10 then s.cfg.cpsr
    else if offset == 0x14 then IrqsValue(s.cfg.imsc)
    else if offset == 0x18 then IrqsValue(s.ris)
    else if offset == 0x1C then IrqsValue(s.mis)
    else if offset == 0x24 then s.cfg.dmacr
    else Identification(offset)
  }

  const IDENTIFICATION: seq<Word> := [0x22, 0x10, 0x34, 0x00, 0x0D, 0xF0, 0x05, 0xB1]

  /** The identification registers at 0xFE0, 0xFE4 and so on; every other address reads 0. */
  function Identification(offset: nat): Word {
    if 0xFE0 <= offset < 0x1000 && offset % 4 == 0 then IDENTIFICATION[(offset - 0xFE0) / 4] else 0
  }

  function ReadReg(s: State, offset: nat): (State, Event, Word) {
    if offset == 0x08 then ReadData(s) else (s, Quiet, Peek(s, offset))
  }

  // ---------------------------------------------------------------- the kernel

  predicate AnyReady(s: State) {
    s.pc.LoopTop? || s.pc.AfterZero? || s.k.intrReady || s.k.statusReady || s.k.resetReady
  }

  predicate AnyPending(s: State) {
    s.k.txPending || s.k.intrPending || s.k.statusPending || s.pc.ZeroWait?
  }

  /** No delta notification, no zero-time wait and no ready process is left. */
  predicate Settled(s: State) {
    !AnyReady(s) && !AnyPending(s)
  }

  /** The update phase, then the delta notification phase: every pending notification is delivered. */
  function DeltaPhase(s: State): State {
    s.(rx := Updated(s.rx), tx := Updated(s.tx),
       pc := if s.pc.ZeroWait? then AfterZero else if s.pc.Parked? && s.k.txPending then LoopTop else s.pc,
       k := Kernel(false, false, false, s.k.intrPending, s.k.statusPending, false))
  }

  /** An access the target refuses with an error report changes nothing. */
  predicate Refused(addr: nat, len: nat) {
    addr > 0xFFC || len > 2
  }

  predicate CanStep(s: State, a: Action) {
    match a
    case Write(addr, len, _) => !Refused(addr, len)
    case Read(addr, len) => !Refused(addr, len)
    case Reset => true
    case RunTransmit => s.pc.LoopTop? || s.pc.AfterZero?
    case FlightEnd(_) => s.pc.InFlight?
    case RunIntr => s.k.intrReady
    case RunStatus => s.k.statusReady
    case Delta => !AnyReady(s) && AnyPending(s)
  }

  function Step(s: State, a: Action): (State, Event) {
    if !CanStep(s, a) then (s, Quiet) else
    match a
    case Write(addr, _, value) => var (t, e, _) := WriteReg(s, addr % 0x100, value); (t, e)
    case Read(addr, _) => var (t, e, _) := ReadReg(s, addr); (t, e)
    case Reset => (HandleReset(s), WasReset)
    case RunTransmit =>
      Transmit(if s.pc.AfterZero? then s.(k := s.k.(statusPending := true, intrPending := true)) else s)
    case FlightEnd(reply) => EndFlight(s, reply)
    case RunIntr => (UpdateIntr(s).(k := s.k.(intrReady := false)), Quiet)
    case RunStatus => (UpdateStatus(s).(k := s.k.(statusReady := false)), Quiet)
    case Delta => (DeltaPhase(s), Quiet)
  }

  // ---------------------------------------------------------------- runs

  /** Every interleaving: power-up with arbitrary register contents, then any actions. */
  datatype Run = PowerUp(registers: State) | Then(before: Run, act: Action)

  function Boot(s: State): State {
    s.(rx := EMPTY, tx := EMPTY, transmitting := false, intr := false, pc := LoopTop,
       k := Kernel(false, false, false, false, false, true))
  }

  function End(r: Run): State {
    match r
    case PowerUp(s) => Boot(s)
    case Then(q, a) => Step(End(q), a).0
  }

  function Last(r: Run): Event {
    match r
    case PowerUp(_) => Quiet
    case Then(q, a) => Step(End(q), a).1
  }

  // What the bus and the peripheral do, told from the actions and the room in the queues.

  predicate WritesData(a: Action) {
    a.Write? && a.addr <= 0xFFC && a.len <= 2 && a.addr % 0x100 == 0x08
  }

  predicate ReadsData(a: Action) {
    a.Read? && a.len <= 2 && a.addr == 0x08
  }

  predicate HasRoom(f: Fifo) {
    |f.items| + f.read < 8
  }

  predicate HasWord(f: Fifo) {
    f.written < |f.items|
  }

  /** A write of DR that finds room. */
  predicate Takes(s: State, a: Action) {
    WritesData(a) && HasRoom(s.tx)
  }

  /** A frame that ends and finds room. */
  predicate Keeps(s: State, a: Action) {
    a.FlightEnd? && s.pc.InFlight? && HasRoom(s.rx)
  }

  // Histories since the last reset, which begin with the words the reset leaves in the queue.

  /** What the bus has written to DR. */
  function AcceptedWords(r: Run): seq<Word> {
    match r
    case PowerUp(_) => []
    case Then(q, a) =>
      if a.Reset? then End(r).tx.items
      else if Takes(End(q), a) then AcceptedWords(q) + [a.value]
      else AcceptedWords(q)
  }

  function SentWords(r: Run): seq<Word> {
    match r
    case PowerUp(_) => []
    case Then(q, a) =>
      if a.Reset? then []
      else if Last(r).Sent? then SentWords(q) + [Last(r).word]
      else SentWords(q)
  }

  /** Replies of the peripheral cut to the width of their frame, without those dropped. */
  function KeptFrames(r: Run): seq<Word> {
    match r
    case PowerUp(_) => []
    case Then(q, a) =>
      if a.Reset? then End(r).rx.items
      else if Keeps(End(q), a) then KeptFrames(q) + [a.reply % Pow2(End(q).pc.bits)]
      else KeptFrames(q)
  }

  /** The width each of those frames was sent with. */
  function KeptBits(r: Run): seq<nat> {
    match r
    case PowerUp(_) => []
    case Then(q, a) =>
      if a.Reset? then Suffix(KeptBits(q), |End(r).rx.items|)
      else if Keeps(End(q), a) then KeptBits(q) + [End(q).pc.bits]
      else KeptBits(q)
  }

  function Suffix<T>(s: seq<T>, n: nat): seq<T> {
    if n <= |s| then s[|s| - n..] else s
  }

  /** Words as they leave the RX FIFO. */
  function ReadFrames(r: Run): seq<Word> {
    match r
    case PowerUp(_) => []
    case Then(q, a) =>
      if a.Reset? then []
      else if Last(r).Received? then ReadFrames(q) + [Last(r).raw]
      else ReadFrames(q)
  }

  /** Words as the bus gets them. */
  function SeenWords(r: Run): seq<Word> {
    match r
    case PowerUp(_) => []
    case Then(q, a) =>
      if a.Reset? then []
      else if ReadsData(a) && HasWord(End(q).rx) then SeenWords(q) + [ReadReg(End(q), a.addr).2]
      else SeenWords(q)
  }

  /** Places of the TX FIFO that had been read but were not yet free when SR was last computed. */
  function Lag(r: Run): nat {
    match r
    case PowerUp(_) => 0
    case Then(q, a) =>
      if a.Reset? || (a.RunStatus? && CanStep(End(q), a)) || Takes(End(q), a) then End(r).tx.read else Lag(q)
  }

  /** A word has been sent since RIS was last computed. */
  predicate Popped(r: Run) {
    match r
    case PowerUp(_) => false
    case Then(q, a) =>
      if a.Reset? || (a.RunIntr? && CanStep(End(q), a)) then false else Last(r).Sent? || Popped(q)
  }

  // Histories of the whole run: a reset does not recall a word already on the wire.

  function AllSent(r: Run): seq<(Word, nat)> {
    match r
    case PowerUp(_) => []
    case Then(q, _) =>
      match Last(r)
      case Sent(w, m) => AllSent(q) + [(w, m)]
      case _ => AllSent(q)
  }

  function AllCompleted(r: Run): seq<(Word, nat)> {
    match r
    case PowerUp(_) => []
    case Then(q, _) =>
      match Last(r)
      case Completed(w, m, _, _) => AllCompleted(q) + [(w, m)]
      case _ => AllCompleted(q)
  }

  function OnTheWire(pc: Pc): seq<(Word, nat)> {
    if pc.InFlight? then [(pc.word, pc.bits)] else []
  }

  predicate ClearsOverrun(a: Action) {
    a.Write? && !Refused(a.addr, a.len) && a.addr % 0x100 == 0x20 && Bit(a.value, 1)
  }

  /** An overrun or an empty read happened since RIS bit 0 was last cleared. */
  predicate OverrunLatched(r: Run) {
    match r
    case PowerUp(s) => s.ris.ror
    case Then(q, a) =>
      if a.Reset? then false
      else if ReadsData(a) && !HasWord(End(q).rx) then true
      else if a.FlightEnd? && End(q).pc.InFlight? && !HasRoom(End(q).rx) then true
      else OverrunLatched(q) && !ClearsOverrun(a)
  }

  predicate ClearsTimeout(a: Action) {
    a.Write? && !Refused(a.addr, a.len) && a.addr % 0x100 == 0x20 && Bit(a.value, 2)
  }

  /** RIS bit 1 of the power-up contents has been neither cleared nor reset; the code never sets it. */
  predicate TimeoutLatched(r: Run) {
    match r
    case PowerUp(s) => s.ris.rt
    case Then(q, a) => TimeoutLatched(q) && !a.Reset? && !ClearsTimeout(a)
  }
}
