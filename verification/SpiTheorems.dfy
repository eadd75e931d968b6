/** What every interleaving of the SPI controller keeps. */
module SpiTheorems {
  import opened Spi
  import opened Arithmetic

  lemma IrqsRoundTrip(value: Word)
    ensures IrqsValue(ToIrqs(value)) == value % 16
  {
    Nibble(value);
  }

  lemma StatusWord(st: Status)
    ensures var v := StatusValue(st);
            Status(Bit(v, 1), Bit(v, 2), Bit(v, 4), Bit(v, 8), Bit(v, 16)) == st
  {
  }

  /** A word carries the four interrupt flags at bits 0 to 3. */
  predicate Carries(v: Word, q: Irqs) {
    v < 16 && (Bit(v, 1) <==> q.ror) && (Bit(v, 2) <==> q.rt) && (Bit(v, 4) <==> q.rx) && (Bit(v, 8) <==> q.tx)
  }

  lemma IrqsCarried(q: Irqs)
    ensures Carries(IrqsValue(q), q)
  {
  }

  /** The words read from SR, IMSC, RIS and MIS carry each flag at its documented bit. */
  lemma RegisterBits(s: State)
    ensures var v := ReadReg(s, 0x0C).2;
            Status(Bit(v, 1), Bit(v, 2), Bit(v, 4), Bit(v, 8), Bit(v, 16)) == s.sr
    ensures Carries(ReadReg(s, 0x14).2, s.cfg.imsc)
    ensures Carries(ReadReg(s, 0x18).2, s.ris)
    ensures Carries(ReadReg(s, 0x1C).2, s.mis)
  {
    StatusWord(s.sr);
    IrqsCarried(s.cfg.imsc);
    IrqsCarried(s.ris);
    IrqsCarried(s.mis);
  }

  /** Each writable register reads back the bits the code keeps. */
  lemma ReadBack(s: State, value: Word)
    ensures ReadReg(WriteReg(s, 0x00, value).0, 0x00).2 == value
    ensures ReadReg(WriteReg(s, 0x04, value).0, 0x04).2 == value % 16
    ensures ReadReg(WriteReg(s, 0x10, value).0, 0x10).2 == value % 0x100 - value % 2
    ensures ReadReg(WriteReg(s, 0x14, value).0, 0x14).2 == value % 16
    ensures ReadReg(WriteReg(s, 0x24, value).0, 0x24).2 == value % 4
  {
    IrqsRoundTrip(value);
  }

  /**
   What software finds after a reset, whatever was there before.  Words written
   since the last update phase outlive it, and SR shows its reset value exactly
   when no word of the TX FIFO has been read or drained since then.
   */
  lemma ResetValues(s: State)
    requires Sound(s.tx) && Sound(s.rx)
    ensures var t := HandleReset(s);
            && |t.tx.items| == s.tx.written && |t.rx.items| == s.rx.written && !t.transmitting && t.pc == s.pc
            && (ReadReg(t, 0x0C).2 == 0x03 <==> s.tx.items == [] && s.tx.read == 0)
            && ReadReg(t, 0x18).2 == 0x08
            && forall offset :: offset in {0x00, 0x04, 0x10, 0x14, 0x1C, 0x24} ==> ReadReg(t, offset).2 == 0
  {
    var t := HandleReset(s);
    assert t.sr == Status(NumFree(t.tx) == FIFO_SIZE, NumFree(t.tx) != 0, false, false, NumFree(t.tx) != FIFO_SIZE);
  }

  // ---------------------------------------------------------------- what an event does to the queues

  /** The TX queue changes only by an accepted word, a sent word or a reset. */
  lemma TxQueueStep(s: State, a: Action)
    ensures var (t, e) := Step(s, a);
            match e
            case Accepted(w) => t.tx.items == s.tx.items + [w] && |s.tx.items| + s.tx.read < FIFO_SIZE
            case Sent(w, _) => s.tx.items == [w] + t.tx.items
            case WasReset => t.tx.items == Suffix(s.tx.items, s.tx.written)
            case _ => t.tx.items == s.tx.items
  {
  }

  /** A write of DR is taken, whole, exactly when there is room; no other action is. */
  lemma DataWrite(s: State, a: Action)
    ensures WritesData(a) ==> Step(s, a).1 == if HasRoom(s.tx) then Accepted(a.value) else Rejected
    ensures WritesData(a) ==> (WriteReg(s, a.addr % 0x100, a.value).2 <==> HasRoom(s.tx))
    ensures Step(s, a).1.Accepted? ==> Takes(s, a)
  {
  }

  /**
   A read of DR takes the oldest available word and returns it cut to the width in CR0;
   with no word available it takes none and returns 0.
   */
  lemma DataRead(s: State, a: Action)
    ensures ReadsData(a) ==> Step(s, a).1 == if HasWord(s.rx) then Received(s.rx.items[0]) else ReadEmpty
    ensures ReadsData(a) ==>
              ReadReg(s, a.addr).2 == if HasWord(s.rx) then s.rx.items[0] % Pow2(s.cfg.cr0 % 16 + 1) else 0
    ensures Step(s, a).1.Received? || Step(s, a).1.ReadEmpty? ==> ReadsData(a)
  {
  }

  /** The RX queue changes only by a stored frame, a read word or a reset. */
  lemma RxQueueStep(s: State, a: Action)
    ensures var (t, e) := Step(s, a);
            match e
            case Completed(_, _, frame, stored) =>
              && t.rx.items == s.rx.items + (if stored then [frame] else [])
              && (stored <==> |s.rx.items| + s.rx.read < FIFO_SIZE)
            case Received(raw) => s.rx.items == [raw] + t.rx.items
            case WasReset => t.rx.items == Suffix(s.rx.items, s.rx.written)
            case _ => t.rx.items == s.rx.items
  {
  }

  /** The end of a flight completes the word on the wire with the reply cut to its width; no other action does. */
  lemma FrameEnd(s: State, a: Action)
    ensures a.FlightEnd? && s.pc.InFlight? ==>
              && Step(s, a).1 == Completed(s.pc.word, s.pc.bits, a.reply % Pow2(s.pc.bits), HasRoom(s.rx))
              && (!HasRoom(s.rx) ==> Step(s, a).0.ris.ror)
    ensures Step(s, a).1.Completed? ==> a.FlightEnd? && s.pc.InFlight?
    ensures Step(s, a).1.WasReset? <==> a.Reset?
  {
  }

  /** The wire carries a word from its send to its completion. */
  lemma WireStep(s: State, a: Action)
    ensures var (t, e) := Step(s, a);
            match e
            case Sent(w, m) => !s.pc.InFlight? && t.pc == InFlight(w, m)
            case Completed(w, m, _, _) => s.pc == InFlight(w, m) && !t.pc.InFlight?
            case _ => OnTheWire(t.pc) == OnTheWire(s.pc)
  {
  }

  // ---------------------------------------------------------------- conservation and order

  predicate Sound(f: Fifo) {
    f.written <= |f.items| && |f.items| + f.read <= FIFO_SIZE
  }

  /** Every FIFO call leaves something pending that brings on the update phase. */
  predicate FifoInv(s: State) {
    && Sound(s.tx) && Sound(s.rx)
    && (s.tx.written > 0 ==> s.k.txPending && s.k.intrPending)
    && (s.tx.read > 0 ==> s.k.statusPending || s.k.intrPending)
    && (s.rx.written > 0 ==> s.pc.ZeroWait?)
    && (s.rx.read > 0 ==> s.k.intrPending)
  }

  lemma FifoInvWrite(s: State, offset: nat, value: Word)
    requires FifoInv(s)
    ensures FifoInv(WriteReg(s, offset, value).0)
  {
  }

  lemma FifoInvReset(s: State)
    requires FifoInv(s)
    ensures FifoInv(HandleReset(s))
  {
    var t := HandleReset(s);
    assert t.tx == Drained(s.tx) && t.rx == Drained(s.rx) && t.pc == s.pc;
    assert t.k == s.k.(intrPending := true, resetReady := false);
  }

  lemma FifoInvTransmit(s: State)
    requires FifoInv(s)
    ensures FifoInv(Step(s, RunTransmit).0)
  {
  }

  lemma FifoInvFlightEnd(s: State, reply: Word)
    requires FifoInv(s)
    ensures FifoInv(Step(s, FlightEnd(reply)).0)
  {
  }

  lemma FifoInvStep(s: State, a: Action)
    requires FifoInv(s)
    ensures FifoInv(Step(s, a).0)
  {
    if a.Write? {
      FifoInvWrite(s, a.addr % 0x100, a.value);
    } else if a.Reset? {
      FifoInvReset(s);
    } else if a.RunTransmit? {
      FifoInvTransmit(s);
    } else if a.FlightEnd? {
      FifoInvFlightEnd(s, a.reply);
    }
  }

  lemma {:induction false} FifoInvAlways(r: Run)
    ensures FifoInv(End(r))
  {
    match r
    case PowerUp(_) =>
    case Then(q, a) =>
      FifoInvAlways(q);
      FifoInvStep(End(q), a);
  }

  /** Words that have left a queue, and words that have joined it, since the last update phase. */
  datatype Traffic = Traffic(left: nat, joined: nat)

  function Moved(t: Traffic, before: seq<Word>, after: seq<Word>): Traffic {
    if |after| <= |before| then t.(left := t.left + |before| - |after|)
    else t.(joined := t.joined + |after| - |before|)
  }

  /** The traffic of the two queues, told from their contents and the update phases. */
  function PhaseTraffic(r: Run): (Traffic, Traffic) {
    match r
    case PowerUp(_) => (Traffic(0, 0), Traffic(0, 0))
    case Then(q, a) =>
      if a.Delta? && CanStep(End(q), a) then (Traffic(0, 0), Traffic(0, 0))
      else
        (Moved(PhaseTraffic(q).0, End(q).tx.items, End(r).tx.items),
         Moved(PhaseTraffic(q).1, End(q).rx.items, End(r).rx.items))
  }

  predicate Counted(f: Fifo, t: Traffic) {
    f.read == t.left && f.written == t.joined
  }

  lemma CountsStep(s: State, a: Action, tx: Traffic, rx: Traffic)
    requires FifoInv(s) && Counted(s.tx, tx) && Counted(s.rx, rx)
    ensures var t := Step(s, a).0;
            if a.Delta? && CanStep(s, a) then t.tx == Fifo(s.tx.items, 0, 0) && t.rx == Fifo(s.rx.items, 0, 0)
            else Counted(t.tx, Moved(tx, s.tx.items, t.tx.items)) && Counted(t.rx, Moved(rx, s.rx.items, t.rx.items))
  {
    if a.Write? {
      CountsWrite(s, a.addr % 0x100, a.value, tx);
    } else if a.Reset? {
      CountsReset(s, tx, rx);
    }
  }

  lemma CountsWrite(s: State, offset: nat, value: Word, tx: Traffic)
    requires Counted(s.tx, tx)
    ensures var t := WriteReg(s, offset, value).0;
            t.rx == s.rx && Counted(t.tx, Moved(tx, s.tx.items, t.tx.items))
  {
  }

  lemma CountsReset(s: State, tx: Traffic, rx: Traffic)
    requires FifoInv(s) && Counted(s.tx, tx) && Counted(s.rx, rx)
    ensures var t := Step(s, Reset).0;
            Counted(t.tx, Moved(tx, s.tx.items, t.tx.items)) && Counted(t.rx, Moved(rx, s.rx.items, t.rx.items))
  {
  }

  /**
   In every run the places not yet free are the words that left since the last update
   phase, and the words not yet available are those that joined since then.
   */
  lemma {:induction false} CountsAreTraffic(r: Run)
    ensures Counted(End(r).tx, PhaseTraffic(r).0) && Counted(End(r).rx, PhaseTraffic(r).1)
    ensures var s, t := End(r), PhaseTraffic(r);
            && NumAvailable(s.tx) == |s.tx.items| - t.0.joined && NumFree(s.tx) == 8 - |s.tx.items| - t.0.left
            && NumAvailable(s.rx) == |s.rx.items| - t.1.joined && NumFree(s.rx) == 8 - |s.rx.items| - t.1.left
  {
    FifoInvAlways(r);
    match r
    case PowerUp(_) =>
    case Then(q, a) =>
      CountsAreTraffic(q);
      FifoInvAlways(q);
      CountsStep(End(q), a, PhaseTraffic(q).0, PhaseTraffic(q).1);
  }

  /** Neither FIFO overflows, and in a settled state both counts are those of a plain queue. */
  lemma FifosBounded(r: Run)
    ensures var s := End(r);
            && |s.tx.items| <= 8 && |s.rx.items| <= 8
            && (Settled(s) ==>
                  && NumAvailable(s.tx) == |s.tx.items| && NumFree(s.tx) == 8 - |s.tx.items|
                  && NumAvailable(s.rx) == |s.rx.items| && NumFree(s.rx) == 8 - |s.rx.items|)
  {
    FifoInvAlways(r);
  }

  lemma TxMoves(s: State, a: Action)
    ensures var (t, e) := Step(s, a);
            if a.Reset? then e.WasReset?
            else if Takes(s, a) then t.tx.items == s.tx.items + [a.value] && !e.Sent? && !e.WasReset?
            else if e.Sent? then s.tx.items == [e.word] + t.tx.items
            else t.tx.items == s.tx.items && !e.WasReset?
  {
    TxQueueStep(s, a);
    DataWrite(s, a);
    FrameEnd(s, a);
  }

  lemma RxMoves(s: State, a: Action)
    ensures var (t, e) := Step(s, a);
            if a.Reset? then e.WasReset?
            else if Keeps(s, a) then
              t.rx.items == s.rx.items + [a.reply % Pow2(s.pc.bits)] && !e.Received? && !e.WasReset?
            else if e.Received? then s.rx.items == [e.raw] + t.rx.items
            else t.rx.items == s.rx.items && !e.WasReset?
  {
    RxQueueStep(s, a);
    FrameEnd(s, a);
  }

  predicate TxLedger(r: Run) {
    AcceptedWords(r) == SentWords(r) + End(r).tx.items
  }

  predicate RxLedger(r: Run) {
    KeptFrames(r) == ReadFrames(r) + End(r).rx.items
  }

  /** After a reset both ledgers start over with what is left in the queues. */
  lemma LedgersStartOver(q: Run, a: Action)
    requires a.Reset?
    ensures TxLedger(Then(q, a)) && RxLedger(Then(q, a))
  {
  }

  lemma TxLedgerStep(q: Run, a: Action)
    requires TxLedger(q) && !a.Reset?
    ensures TxLedger(Then(q, a))
  {
    TxMoves(End(q), a);
  }

  lemma RxLedgerStep(q: Run, a: Action)
    requires RxLedger(q) && !a.Reset?
    ensures RxLedger(Then(q, a))
  {
    RxMoves(End(q), a);
  }

  /** Since the last reset, words accepted on DR are exactly those sent, in order, then those queued. */
  lemma {:induction false} TransmitConservation(r: Run)
    ensures AcceptedWords(r) == SentWords(r) + End(r).tx.items
  {
    match r
    case PowerUp(_) =>
    case Then(q, a) =>
      if a.Reset? {
        LedgersStartOver(q, a);
      } else {
        TransmitConservation(q);
        TxLedgerStep(q, a);
      }
  }

  /** Since the last reset, frames kept are exactly those read out, in order, then those queued. */
  lemma {:induction false} ReceiveConservation(r: Run)
    ensures KeptFrames(r) == ReadFrames(r) + End(r).rx.items
  {
    match r
    case PowerUp(_) =>
    case Then(q, a) =>
      if a.Reset? {
        LedgersStartOver(q, a);
      } else {
        ReceiveConservation(q);
        RxLedgerStep(q, a);
      }
  }

  /** Over the whole run every sent word completes in order, and at most one is on the wire. */
  lemma {:induction false} WireConservation(r: Run)
    ensures AllSent(r) == AllCompleted(r) + OnTheWire(End(r).pc)
  {
    match r
    case PowerUp(_) =>
    case Then(q, a) =>
      WireConservation(q);
      WireStep(End(q), a);
  }

  /**
   A finishing frame is dropped exactly when the history says that eight places
   hold kept frames, unread or read only since the last update phase, and every
   drop latches the overrun bit.
   */
  lemma DropExactlyWhenFull(r: Run, reply: Word)
    requires End(r).pc.InFlight?
    ensures var s := End(r);
            var taken := |KeptFrames(r)| - |ReadFrames(r)| + s.rx.read;
            && Step(s, FlightEnd(reply)).1 ==
                 Completed(s.pc.word, s.pc.bits, reply % Pow2(s.pc.bits), taken < 8)
            && (taken >= 8 ==> Step(s, FlightEnd(reply)).0.ris.ror)
            && (Settled(s) ==> s.rx.read == 0)
  {
    ReceiveConservation(r);
    FrameEnd(End(r), FlightEnd(reply));
    FifoInvAlways(r);
  }

  lemma OverrunStep(s: State, a: Action)
    requires FifoInv(s)
    ensures Step(s, a).0.ris.ror <==>
            if a.Reset? then false
            else if ReadsData(a) && !HasWord(s.rx) then true
            else if a.FlightEnd? && s.pc.InFlight? && !HasRoom(s.rx) then true
            else s.ris.ror && !ClearsOverrun(a)
  {
  }

  /** RIS bit 0 is exactly "an overrun or an empty read since the last clear or reset". */
  lemma {:induction false} OverrunBitIsExact(r: Run)
    ensures End(r).ris.ror <==> OverrunLatched(r)
  {
    match r
    case PowerUp(_) =>
    case Then(q, a) =>
      OverrunBitIsExact(q);
      FifoInvAlways(q);
      OverrunStep(End(q), a);
  }

  lemma TimeoutStep(s: State, a: Action)
    ensures Step(s, a).0.ris.rt <==> s.ris.rt && !a.Reset? && !ClearsTimeout(a)
  {
    if a.Write? {
      TimeoutWrite(s, a.addr % 0x100, a.value);
    }
  }

  lemma TimeoutWrite(s: State, offset: nat, value: Word)
    ensures WriteReg(s, offset, value).0.ris.rt <==> s.ris.rt && !(offset == 0x20 && Bit(value, 2))
  {
  }

  /** RIS bit 1 is never set: it only survives from power-up until it is cleared or reset. */
  lemma {:induction false} TimeoutBitIsExact(r: Run)
    ensures End(r).ris.rt <==> TimeoutLatched(r)
  {
    match r
    case PowerUp(_) =>
    case Then(q, a) =>
      TimeoutBitIsExact(q);
      TimeoutStep(End(q), a);
  }

  // ---------------------------------------------------------------- what software reads

  /** The second mask leaves a word alone exactly when the word fits in it. */
  lemma MaskExactIff(raw: Word, bits: nat)
    ensures Masked(raw, bits) == raw <==> raw < Pow2(bits)
  {
    if raw < Pow2(bits) {
      Small(raw, Pow2(bits));
    }
  }

  /** A mask of `width` keeps every frame of `bits` exactly when it is no narrower. */
  lemma WideExactlyIff(bits: nat, width: nat)
    ensures (forall reply: Word :: Masked(Masked(reply, bits), width) == Masked(reply, bits)) <==> bits <= width
  {
    if bits <= width {
      Pow2Monotone(bits, width);
      forall reply: Word
        ensures Masked(Masked(reply, bits), width) == Masked(reply, bits)
      {
        MaskExactIff(Masked(reply, bits), width);
      }
    } else {
      Pow2Monotone(width + 1, bits);
      MaskExactIff(Pow2(width), bits);
      MaskExactIff(Pow2(width), width);
      assert Masked(Masked(Pow2(width), bits), width) != Masked(Pow2(width), bits);
    }
  }

  predicate Fit(words: seq<Word>, bits: seq<nat>) {
    |bits| == |words| && forall i :: 0 <= i < |words| ==> words[i] < Pow2(bits[i])
  }

  lemma SuffixFits(words: seq<Word>, bits: seq<nat>, n: nat)
    requires Fit(words, bits) && n <= |words|
    ensures Fit(Suffix(words, n), Suffix(bits, n))
  {
  }

  lemma AppendFits(words: seq<Word>, bits: seq<nat>, word: Word, width: nat)
    requires Fit(words, bits) && word < Pow2(width)
    ensures Fit(words + [word], bits + [width])
  {
  }

  lemma SuffixOfTail(front: seq<Word>, tail: seq<Word>, n: nat)
    requires n <= |tail|
    ensures Suffix(front + tail, n) == Suffix(tail, n)
  {
  }

  lemma ResetRx(s: State, a: Action)
    requires a.Reset? && Sound(s.rx)
    ensures Step(s, a).0.rx.items == Suffix(s.rx.items, s.rx.written)
    ensures |Step(s, a).0.rx.items| == s.rx.written
  {
    RxQueueStep(s, a);
  }

  /** What a reset leaves in the RX queue is the end of what was kept. */
  lemma LeftIsSuffix(kept: seq<Word>, read: seq<Word>, items: seq<Word>, left: seq<Word>, n: nat)
    requires kept == read + items && n <= |items| && left == Suffix(items, n)
    ensures |left| == n <= |kept| && left == Suffix(kept, n)
  {
    SuffixOfTail(read, items, n);
  }

  /** Every kept frame fits in the width it was sent with. */
  lemma {:induction false} FramesFit(r: Run)
    ensures Fit(KeptFrames(r), KeptBits(r))
  {
    match r
    case PowerUp(_) =>
    case Then(q, a) =>
      FramesFit(q);
      if a.Reset? {
        var s, left := End(q), Step(End(q), a).0.rx.items;
        FifoInvAlways(q);
        ReceiveConservation(q);
        ResetRx(s, a);
        LeftIsSuffix(KeptFrames(q), ReadFrames(q), s.rx.items, left, s.rx.written);
        SuffixFits(KeptFrames(q), KeptBits(q), s.rx.written);
      } else if Keeps(End(q), a) {
        AppendFits(KeptFrames(q), KeptBits(q), a.reply % Pow2(End(q).pc.bits), End(q).pc.bits);
      }
  }

  function WidthAt(bits: seq<nat>, i: nat): nat {
    if i < |bits| then bits[i] else 0
  }

  /** Since the last reset, DR was read only with a width in CR0 no smaller than that of the frame at the head. */
  predicate WideReads(r: Run) {
    match r
    case PowerUp(_) => true
    case Then(q, _) =>
      match Last(r)
      case WasReset => true
      case Received(_) =>
        WideReads(q) && WidthAt(KeptBits(q), |ReadFrames(q)|) <= FrameBits(End(q).cfg.cr0)
      case _ => WideReads(q)
  }

  /** Since the last reset, every word read on DR fitted in the width in CR0. */
  predicate FitAtRead(r: Run) {
    match r
    case PowerUp(_) => true
    case Then(q, _) =>
      match Last(r)
      case WasReset => true
      case Received(raw) => FitAtRead(q) && raw < Pow2(FrameBits(End(q).cfg.cr0))
      case _ => FitAtRead(q)
  }

  /** Software gets the frames themselves exactly when each fits in the width in CR0 at its read. */
  lemma {:induction false} SeenExactlyIff(r: Run)
    ensures |SeenWords(r)| == |ReadFrames(r)|
    ensures SeenWords(r) == ReadFrames(r) <==> FitAtRead(r)
  {
    match r
    case PowerUp(_) =>
    case Then(q, a) =>
      SeenExactlyIff(q);
      DataRead(End(q), a);
      FifoInvAlways(q);
      FrameEnd(End(q), a);
      if Last(r).Received? {
        var n := |SeenWords(q)|;
        MaskExactIff(Last(r).raw, FrameBits(End(q).cfg.cr0));
        assert SeenWords(r)[..n] == SeenWords(q) && ReadFrames(r)[..n] == ReadFrames(q);
        assert SeenWords(r)[n] == Masked(Last(r).raw, FrameBits(End(q).cfg.cr0)) && ReadFrames(r)[n] == Last(r).raw;
      }
  }

  lemma {:induction false} WideReadsFit(r: Run)
    requires WideReads(r)
    ensures FitAtRead(r)
  {
    match r
    case PowerUp(_) =>
    case Then(q, a) =>
      if Last(r).Received? {
        WideReadsFit(q);
        FramesFit(q);
        ReceiveConservation(q);
        RxQueueStep(End(q), a);
        var k := |ReadFrames(q)|;
        assert KeptFrames(q)[k] == Last(r).raw;
        Pow2Monotone(KeptBits(q)[k], FrameBits(End(q).cfg.cr0));
      } else if !Last(r).WasReset? {
        WideReadsFit(q);
      }
  }

  /**
   Read with widths no smaller than those the frames were sent with, the words
   software has seen, then those queued, are the completed frames in order, each
   the reply cut to its width.
   */
  lemma SoftwareSeesMaskedReply(r: Run)
    requires WideReads(r)
    ensures KeptFrames(r) == SeenWords(r) + End(r).rx.items
  {
    WideReadsFit(r);
    SeenExactlyIff(r);
    ReceiveConservation(r);
  }

  // ---------------------------------------------------------------- no lost wakeup

  predicate WakeupHeld(s: State) {
    s.pc.Parked? && s.tx.items != [] && Enabled(s.cfg.cr1) ==> s.k.txPending
  }

  lemma WakeupWrite(s: State, offset: nat, value: Word)
    requires WakeupHeld(s)
    ensures WakeupHeld(WriteReg(s, offset, value).0)
  {
  }

  lemma WakeupTransmit(s: State)
    requires WakeupHeld(s) && FifoInv(s)
    ensures WakeupHeld(Step(s, RunTransmit).0)
  {
  }

  lemma WakeupStep(s: State, a: Action)
    requires WakeupHeld(s) && FifoInv(s)
    ensures WakeupHeld(Step(s, a).0)
  {
    if a.Write? {
      WakeupWrite(s, a.addr % 0x100, a.value);
    } else if a.RunTransmit? {
      WakeupTransmit(s);
    }
  }

  lemma {:induction false} NoLostWakeup(r: Run)
    ensures WakeupHeld(End(r))
  {
    match r
    case PowerUp(_) =>
    case Then(q, a) =>
      NoLostWakeup(q);
      FifoInvAlways(q);
      WakeupStep(End(q), a);
  }

  /** A settled controller is idle only if it has nothing to send or is switched off. */
  lemma SettledMeansNoWork(r: Run)
    requires Settled(End(r))
    ensures End(r).pc.Parked? || End(r).pc.InFlight?
    ensures End(r).tx.items != [] && Enabled(End(r).cfg.cr1) ==> End(r).pc.InFlight?
  {
    NoLostWakeup(r);
  }

  /** A frame starts only with SSE set, and carries the oldest queued word and the width of CR0. */
  lemma FrameStart(s: State, a: Action)
    requires Step(s, a).1.Sent?
    ensures s.cfg.cr1 / 2 % 2 == 1 && s.tx.items != [] && !s.pc.InFlight?
    ensures Step(s, a).1 == Sent(s.tx.items[0], s.cfg.cr0 % 16 + 1)
  {
  }
}
