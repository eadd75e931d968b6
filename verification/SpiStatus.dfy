/** The interrupt and status registers of the SPI controller in every settled state, and what a reset does to them. */
module SpiStatus {
  import opened Spi
  import opened SpiTheorems
  import opened Arithmetic

  // ---------------------------------------------------------------- interrupts

  predicate InterruptsAgree(s: State) {
    && s.mis == And(s.ris, s.cfg.imsc)
    && s.intr == (s.mis != NO_IRQS)
    && (s.ris.rx <==> |s.rx.items| >= 4)
  }

  /** RIS bit 3 against the TX level; a pop alone does not refresh it. */
  predicate TransmitBitAgrees(s: State, popped: bool) {
    && (s.ris.tx <==> |s.tx.items| + (if popped then 1 else 0) <= 4)
    && (popped ==> s.pc.InFlight?)
  }

  /** Between the end of a flight and the notifications that follow it, or before the first reset. */
  predicate Unannounced(s: State) {
    s.pc.ZeroWait? || s.pc.AfterZero? || s.k.resetReady
  }

  predicate IntrCoherent(s: State, popped: bool) {
    s.k.intrPending || s.k.intrReady || Unannounced(s) || (InterruptsAgree(s) && TransmitBitAgrees(s, popped))
  }

  predicate NextPopped(s: State, a: Action, popped: bool) {
    if a.Reset? || (a.RunIntr? && CanStep(s, a)) then false else Step(s, a).1.Sent? || popped
  }

  lemma IntrCoherentWrite(s: State, offset: nat, value: Word, popped: bool)
    requires IntrCoherent(s, popped)
    ensures IntrCoherent(WriteReg(s, offset, value).0, popped)
  {
  }

  lemma IntrCoherentTransmit(s: State, popped: bool)
    requires IntrCoherent(s, popped)
    ensures IntrCoherent(Step(s, RunTransmit).0, NextPopped(s, RunTransmit, popped))
  {
  }

  lemma IntrCoherentRefresh(s: State)
    requires FifoInv(s) && CanStep(s, RunIntr)
    ensures IntrCoherent(Step(s, RunIntr).0, false)
  {
  }

  lemma IntrCoherentStep(s: State, a: Action, popped: bool)
    requires IntrCoherent(s, popped) && FifoInv(s)
    ensures IntrCoherent(Step(s, a).0, NextPopped(s, a, popped))
  {
    if a.Write? {
      IntrCoherentWrite(s, a.addr % 0x100, a.value, popped);
    } else if a.RunTransmit? {
      IntrCoherentTransmit(s, popped);
    } else if a.RunIntr? && CanStep(s, a) {
      IntrCoherentRefresh(s);
    }
  }

  // ---------------------------------------------------------------- status

  /** SR as a function of the TX level, the RX FIFO and the flag. */
  function StatusOf(level: nat, rx: seq<Word>, transmitting: bool): Status {
    Status(level == 0, level < 8, rx != [], |rx| == 8, transmitting || level != 0)
  }

  predicate StatusCoherent(s: State, lag: nat) {
    || s.k.statusPending || s.k.statusReady || Unannounced(s)
    || s.sr == StatusOf(|s.tx.items| + lag, s.rx.items, s.transmitting)
  }

  /** The lag after an action, from the lag before it. */
  function NextLag(s: State, a: Action, lag: nat): nat {
    var t := Step(s, a).0;
    if a.Reset? || (a.RunStatus? && CanStep(s, a)) || Takes(s, a) then t.tx.read else lag
  }

  lemma UpdateStatusIsStatusOf(s: State)
    requires Sound(s.tx) && s.rx.written == 0
    ensures UpdateStatus(s) == s.(sr := StatusOf(|s.tx.items| + s.tx.read, s.rx.items, s.transmitting))
  {
  }

  lemma StatusCoherentWrite(s: State, offset: nat, value: Word, lag: nat)
    requires StatusCoherent(s, lag) && FifoInv(s)
    ensures var (t, e, _) := WriteReg(s, offset, value);
            StatusCoherent(t, if e.Accepted? then t.tx.read else lag)
  {
    var (t, e, _) := WriteReg(s, offset, value);
    if e.Accepted? {
      FifoInvWrite(s, offset, value);
      if s.rx.written == 0 {
        UpdateStatusIsStatusOf(t);
        assert t == UpdateStatus(t);
      }
    }
  }

  lemma ClearedQueues(s: State)
    requires FifoInv(s)
    ensures var t := Cleared(s); Sound(t.tx) && t.rx.written == s.rx.written && t.pc == s.pc
  {
  }

  lemma StatusCoherentReset(s: State)
    requires FifoInv(s)
    ensures var t := Step(s, Reset).0; StatusCoherent(t, t.tx.read)
  {
    ClearedQueues(s);
    if s.rx.written == 0 {
      UpdateStatusIsStatusOf(Cleared(s));
    }
  }

  lemma StatusCoherentThread(s: State, a: Action, lag: nat)
    requires StatusCoherent(s, lag) && (a.RunTransmit? || a.FlightEnd?)
    ensures StatusCoherent(Step(s, a).0, lag)
  {
  }

  lemma StatusCoherentRefresh(s: State, a: Action)
    requires FifoInv(s) && a.RunStatus? && CanStep(s, a)
    ensures var t := Step(s, a).0; StatusCoherent(t, t.tx.read)
  {
    if s.rx.written == 0 {
      UpdateStatusIsStatusOf(s);
    }
  }

  lemma StatusCoherentQuiet(s: State, a: Action, lag: nat)
    requires StatusCoherent(s, lag) && (a.Read? || a.RunIntr? || a.Delta?)
    ensures StatusCoherent(Step(s, a).0, lag)
  {
  }

  lemma StatusCoherentStep(s: State, a: Action, lag: nat)
    requires StatusCoherent(s, lag) && FifoInv(s)
    ensures StatusCoherent(Step(s, a).0, NextLag(s, a, lag))
  {
    match a
    case Write(addr, _, value) =>
      StatusCoherentWrite(s, addr % 0x100, value, lag);
      DataWrite(s, a);
    case Reset => StatusCoherentReset(s);
    case RunTransmit => StatusCoherentThread(s, a, lag);
    case FlightEnd(_) => StatusCoherentThread(s, a, lag);
    case RunStatus =>
      if CanStep(s, a) {
        StatusCoherentRefresh(s, a);
      }
    case _ => StatusCoherentQuiet(s, a, lag);
  }

  /** In every reachable state the registers are up to date or a refresh is under way. */
  lemma {:induction false} AlwaysCoherent(r: Run)
    ensures IntrCoherent(End(r), Popped(r)) && StatusCoherent(End(r), Lag(r))
  {
    match r
    case PowerUp(_) =>
    case Then(q, a) =>
      AlwaysCoherent(q);
      FifoInvAlways(q);
      IntrCoherentStep(End(q), a, Popped(q));
      StatusCoherentStep(End(q), a, Lag(q));
      assert Popped(r) == NextPopped(End(q), a, Popped(q));
      assert Lag(r) == NextLag(End(q), a, Lag(q));
  }

  lemma CoherentWhenSettled(s: State, popped: bool, lag: nat)
    requires Settled(s) && IntrCoherent(s, popped) && StatusCoherent(s, lag)
    ensures InterruptsAgree(s) && TransmitBitAgrees(s, popped)
    ensures s.sr == StatusOf(|s.tx.items| + lag, s.rx.items, s.transmitting)
  {
  }

  /**
   The registers software polls, and the pin, in every settled state of every run.
   RIS bit 3 counts the word on the wire if its pop is the latest thing the TX FIFO
   has seen, and SR the TX places that were not yet free when it was last computed.
   */
  lemma SettledInterrupts(r: Run)
    requires Settled(End(r))
    ensures InterruptsAgree(End(r))
    ensures End(r).ris.tx <==> |End(r).tx.items| + (if Popped(r) then 1 else 0) <= 4
    ensures Popped(r) ==> End(r).pc.InFlight?
    ensures End(r).sr == StatusOf(|End(r).tx.items| + Lag(r), End(r).rx.items, End(r).transmitting)
  {
    AlwaysCoherent(r);
    CoherentWhenSettled(End(r), Popped(r), Lag(r));
  }

  // ---------------------------------------------------------------- when SR lags

  /** Every reset of the run, the initial one included, found the TX FIFO empty and no place of it just read. */
  predicate ResetsFindNothing(r: Run) {
    match r
    case PowerUp(_) => true
    case Then(q, a) => ResetsFindNothing(q) && (a.Reset? ==> End(q).tx.items == [] && End(q).tx.read == 0)
  }

  predicate LagExplained(s: State, lag: nat) {
    (s.tx.read > 0 ==> s.k.statusPending) && (lag > 0 ==> s.k.statusPending || s.k.statusReady)
  }

  lemma LagStep(s: State, a: Action, lag: nat)
    requires LagExplained(s, lag) && (a.Reset? ==> s.tx.items == [] && s.tx.read == 0)
    ensures LagExplained(Step(s, a).0, NextLag(s, a, lag))
  {
  }

  lemma {:induction false} LagAlwaysExplained(r: Run)
    requires ResetsFindNothing(r)
    ensures LagExplained(End(r), Lag(r))
  {
    match r
    case PowerUp(_) =>
    case Then(q, a) =>
      LagAlwaysExplained(q);
      LagStep(End(q), a, Lag(q));
      assert Lag(r) == NextLag(End(q), a, Lag(q));
  }

  /** Unless a reset found words to drain, SR of a settled controller is the function of its FIFOs. */
  lemma StatusExactWithoutDrain(r: Run)
    requires Settled(End(r)) && ResetsFindNothing(r)
    ensures End(r).sr == StatusOf(|End(r).tx.items|, End(r).rx.items, End(r).transmitting)
  {
    SettledInterrupts(r);
    LagAlwaysExplained(r);
  }

  /** A reset, and the kernel until it settles again. */
  function ResetAndSettle(r: Run): Run {
    Then(Then(Then(r, Reset), Delta), RunIntr)
  }

  const IDLE := Kernel(false, false, false, false, false, false)

  lemma DrainSound(f: Fifo)
    requires f.read == 0 && f.written == 0
    ensures Drained(f) == Fifo([], |f.items|, 0)
  {
  }

  /** Both queues just drained: their places are not yet free, and SR reports the `level` words of the TX FIFO. */
  predicate JustDrained(s: State, level: nat) {
    && s.k == IDLE.(intrPending := true) && (s.pc.Parked? || s.pc.InFlight?) && !s.transmitting
    && s.tx.items == [] && s.rx.items == [] && s.sr == StatusOf(level, [], false)
  }

  lemma ResetWhenSettled(s: State)
    requires Settled(s) && FifoInv(s)
    ensures JustDrained(Step(s, Reset).0, |s.tx.items|) && Step(s, Reset).0.pc == s.pc
  {
    DrainSound(s.tx);
    DrainSound(s.rx);
    UpdateStatusIsStatusOf(Cleared(s));
  }

  lemma SettleAfterReset(s: State, level: nat)
    requires JustDrained(s, level)
    ensures var t := Step(Step(s, Delta).0, RunIntr).0;
            && Settled(t) && t.tx == EMPTY && t.rx == EMPTY && t.pc == s.pc && !t.transmitting && t.sr == s.sr
  {
    assert Step(s, Delta).0 == s.(rx := EMPTY, tx := EMPTY, k := IDLE.(intrReady := true));
  }

  lemma RunSettles(r: Run, level: nat)
    requires JustDrained(End(r), level)
    ensures var s, t := End(r), End(Then(Then(r, Delta), RunIntr));
            && Settled(t) && t.tx == EMPTY && t.rx == EMPTY && t.pc == s.pc && !t.transmitting && t.sr == s.sr
  {
    SettleAfterReset(End(r), level);
    assert End(Then(r, Delta)) == Step(End(r), Delta).0;
  }

  lemma RunDrains(r: Run)
    requires Settled(End(r))
    ensures JustDrained(End(Then(r, Reset)), |End(r).tx.items|) && End(Then(r, Reset)).pc == End(r).pc
  {
    FifoInvAlways(r);
    ResetWhenSettled(End(r));
  }

  lemma EndOfReset(r: Run)
    requires Settled(End(r))
    ensures var s, t := End(r), End(ResetAndSettle(r));
            && Settled(t) && t.tx == EMPTY && t.rx == EMPTY && t.pc == s.pc && !t.transmitting
            && t.sr == StatusOf(|s.tx.items|, [], false)
  {
    RunDrains(r);
    RunSettles(Then(r, Reset), |End(r).tx.items|);
  }

  /**
   A reset from a settled state empties both FIFOs, but SR, once the controller has
   settled again, shows its reset value exactly if the TX FIFO was already empty;
   otherwise it goes on reporting the drained words.
   */
  lemma ResetStatus(r: Run)
    requires Settled(End(r))
    ensures var q := ResetAndSettle(r);
            && Settled(End(q)) && End(q).tx.items == [] && End(q).rx.items == []
            && (ReadReg(End(q), 0x0C).2 == 0x03 <==> End(r).tx.items == [])
            && (End(q).sr.bsy <==> End(r).tx.items != [])
  {
    EndOfReset(r);
  }

  // ---------------------------------------------------------------- the busy bit

  lemma TransmittingStep(s: State, a: Action)
    ensures var (t, e) := Step(s, a);
            && (s.pc.Parked? && !s.transmitting && t.pc.Parked? ==> !t.transmitting)
            && (!s.pc.Parked? && t.pc.Parked? ==> !t.transmitting)
            && (e.WasReset? ==> !t.transmitting && t.pc == s.pc)
            && (e.Sent? ==> t.transmitting && t.pc.InFlight?)
            && (!e.WasReset? && !e.Sent? && t.pc.InFlight? ==> s.pc == t.pc && t.transmitting == s.transmitting)
  {
  }

  lemma {:induction false} TransmittingFlag(r: Run)
    ensures End(r).pc.Parked? ==> !End(r).transmitting
    ensures End(r).pc.InFlight? ==> (End(r).transmitting <==> SentWords(r) != [])
  {
    match r
    case PowerUp(_) =>
    case Then(q, a) =>
      TransmittingFlag(q);
      TransmittingStep(End(q), a);
  }

  /** The busy bit of a settled controller: queued or lagging words, or a frame started since the last reset. */
  lemma BusyBit(r: Run)
    requires Settled(End(r))
    ensures End(r).sr.bsy <==>
            End(r).tx.items != [] || Lag(r) > 0 || (End(r).pc.InFlight? && SentWords(r) != [])
  {
    AlwaysCoherent(r);
    TransmittingFlag(r);
  }

  lemma FlightEndEmpty(s: State, reply: Word)
    requires s.pc.InFlight? && s.rx == EMPTY
    ensures Step(s, FlightEnd(reply)).0.rx.items == [reply % Pow2(s.pc.bits)]
  {
  }

  /** A frame on the wire, and an RX queue just drained of `taken` words. */
  predicate Flying(s: State, bits: nat, taken: nat) {
    s.pc.InFlight? && s.pc.bits == bits && s.rx.items == [] && s.rx.read == taken
  }

  lemma ResetStepMidFrame(s: State)
    requires s.pc.InFlight? && FifoInv(s)
    ensures var t := Step(s, Reset).0;
            t.pc == s.pc && Flying(t, s.pc.bits, |s.rx.items| + s.rx.read)
  {
  }

  lemma ResetRunMidFrame(r: Run)
    requires End(r).pc.InFlight?
    ensures var s, t := End(r), End(Then(r, Reset));
            t.pc == s.pc && Flying(t, s.pc.bits, |s.rx.items| + s.rx.read)
  {
    FifoInvAlways(r);
    ResetStepMidFrame(End(r));
  }

  lemma FlightEndDrained(r: Run, reply: Word, bits: nat, taken: nat)
    requires Flying(End(r), bits, taken)
    ensures End(Then(r, FlightEnd(reply))).rx.items == if taken < 8 then [reply % Pow2(bits)] else []
  {
    FrameEnd(End(r), FlightEnd(reply));
    RxQueueStep(End(r), FlightEnd(reply));
  }

  /**
   A reset does not stop a frame: it stays on the wire, the busy bit meanwhile tells
   only of drained words, and the reply lands in the emptied RX FIFO.  If the frame
   ends before the update phase that follows the reset, a full RX FIFO still drops it.
   */
  lemma ResetMidFrame(r: Run, reply: Word)
    requires End(r).pc.InFlight?
    ensures var q := Then(r, Reset);
            && End(q).pc == End(r).pc
            && End(Then(q, FlightEnd(reply))).rx.items ==
                 if |End(r).rx.items| + End(r).rx.read < 8 then [reply % Pow2(End(r).pc.bits)] else []
    ensures Settled(End(r)) ==>
              var q := ResetAndSettle(r);
              && End(q).pc == End(r).pc && (End(q).sr.bsy <==> End(r).tx.items != [])
              && End(Then(q, FlightEnd(reply))).rx.items == [reply % Pow2(End(r).pc.bits)]
  {
    var s := End(r);
    FifoInvAlways(r);
    ResetRunMidFrame(r);
    FlightEndDrained(Then(r, Reset), reply, s.pc.bits, |s.rx.items| + s.rx.read);
    if Settled(s) {
      EndOfReset(r);
      FlightEndEmpty(End(ResetAndSettle(r)), reply);
    }
  }
}
