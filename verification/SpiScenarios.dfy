/** Runs from power-up that reach the states where the SPI registers and FIFOs surprise. */
module SpiScenarios {
  import opened Spi
  import opened SpiTheorems
  import opened SpiStatus
  import opened Arithmetic

  // ---------------------------------------------------------------- power-up

  /** The initial activations, until the controller settles. */
  function Booted(registers: State): Run {
    Then(Then(Then(Then(Then(PowerUp(registers), Reset), RunTransmit), Delta), RunIntr), RunStatus)
  }

  predicate Idle(s: State) {
    s.pc == Parked && s.k == IDLE
  }

  lemma FirstResetQueues(b: State)
    requires b.rx == EMPTY && b.tx == EMPTY
    ensures var t := Step(b, Reset).0; t.rx == EMPTY && t.tx == EMPTY
  {
  }

  lemma FirstResetRest(b: State)
    ensures var t := Step(b, Reset).0;
            t.pc == b.pc && t.k == b.k.(intrPending := true, resetReady := false) && t.cfg.cr1 == 0
  {
  }

  lemma BootStates(b1: State)
    requires b1.rx == EMPTY && b1.tx == EMPTY && b1.pc == LoopTop && b1.k == IDLE.(intrPending := true)
    ensures var b2 := Step(b1, RunTransmit).0;
            var b5 := Step(Step(Step(b2, Delta).0, RunIntr).0, RunStatus).0;
            Idle(b5) && b5.rx == EMPTY && b5.tx == EMPTY && b5.cfg == b1.cfg
  {
    var b2 := Step(b1, RunTransmit).0;
    assert b2 == b1.(transmitting := false, pc := Parked, k := IDLE.(intrPending := true, statusPending := true));
    var b3 := Step(b2, Delta).0;
    assert b3 == b2.(k := IDLE.(intrReady := true, statusReady := true));
    var b4 := Step(b3, RunIntr).0;
    assert b4.pc == Parked && b4.k == IDLE.(statusReady := true) && b4.rx == EMPTY && b4.tx == EMPTY;
    assert b4.cfg == b3.cfg;
  }

  predicate JustReset(s: State) {
    s.rx == EMPTY && s.tx == EMPTY && s.pc == LoopTop && s.k == IDLE.(intrPending := true) && s.cfg.cr1 == 0
  }

  predicate JustBooted(s: State) {
    s.rx == EMPTY && s.tx == EMPTY && s.pc == LoopTop && s.k == IDLE.(resetReady := true)
  }

  lemma FirstReset(b: State)
    requires JustBooted(b)
    ensures JustReset(Step(b, Reset).0)
  {
    FirstResetQueues(b);
    FirstResetRest(b);
  }

  lemma BootResets(r: Run)
    requires JustBooted(End(r))
    ensures JustReset(End(Then(r, Reset)))
  {
    FirstReset(End(r));
  }

  lemma BootRests(r1: Run)
    requires JustReset(End(r1))
    ensures var s := End(Then(Then(Then(Then(r1, RunTransmit), Delta), RunIntr), RunStatus));
            Idle(s) && s.rx == EMPTY && s.tx == EMPTY && s.cfg.cr1 == 0
  {
    var r2 := Then(r1, RunTransmit);
    var r3 := Then(r2, Delta);
    var r4 := Then(r3, RunIntr);
    BootStates(End(r1));
    assert End(r3) == Step(End(r2), Delta).0;
    assert End(r4) == Step(End(r3), RunIntr).0;
  }

  lemma BootSettles(registers: State)
    ensures var s := End(Booted(registers));
            Idle(s) && s.rx == EMPTY && s.tx == EMPTY && s.cfg.cr1 == 0
  {
    BootResets(PowerUp(registers));
    BootRests(Then(PowerUp(registers), Reset));
  }

  // ---------------------------------------------------------------- words queued with SSE clear

  /** n words written to DR. */
  function Queued(r: Run, n: nat): Run {
    if n == 0 then r else Then(Queued(r, n - 1), Write(0x08, 2, 0x55))
  }

  predicate Waiting(s: State, n: nat) {
    && s.pc == Parked && s.cfg.cr1 == 0 && s.rx == EMPTY
    && s.k == (if n == 0 then IDLE else IDLE.(txPending := true, intrPending := true))
    && |s.tx.items| == n && s.tx.read == 0 && s.tx.written == n
  }

  lemma QueueOne(s: State, n: nat)
    requires Waiting(s, n) && n < FIFO_SIZE
    ensures Waiting(Step(s, Write(0x08, 2, 0x55)).0, n + 1)
  {
  }

  lemma {:induction false} QueueWaits(r: Run, n: nat)
    requires Waiting(End(r), 0) && n <= FIFO_SIZE
    ensures Waiting(End(Queued(r, n)), n)
  {
    if n > 0 {
      QueueWaits(r, n - 1);
      QueueOne(End(Queued(r, n - 1)), n - 1);
    }
  }

  /** A reset before the next update phase finds none of these words, and leaves them all in the queue. */
  lemma FreshWordsOutliveReset(registers: State, n: nat)
    requires n <= FIFO_SIZE
    ensures var q := Queued(Booted(registers), n);
            |End(q).tx.items| == n && End(Then(q, Reset)).tx.items == End(q).tx.items
  {
    BootSettles(registers);
    QueueWaits(Booted(registers), n);
    TxQueueStep(End(Queued(Booted(registers), n)), Reset);
  }

  /** The kernel after such writes, until the controller settles. */
  function Rested(r: Run): Run {
    Then(Then(Then(Then(Then(r, Delta), RunTransmit), RunIntr), Delta), RunStatus)
  }

  lemma RestStates(s: State, n: nat)
    requires Waiting(s, n) && n > 0
    ensures var s3 := Step(Step(Step(s, Delta).0, RunTransmit).0, RunIntr).0;
            var s5 := Step(Step(s3, Delta).0, RunStatus).0;
            Idle(s5) && |s5.tx.items| == n && s5.rx == EMPTY
  {
    var s1 := Step(s, Delta).0;
    assert s1 == s.(tx := Fifo(s.tx.items, 0, 0), pc := LoopTop, k := IDLE.(intrReady := true));
    var s2 := Step(s1, RunTransmit).0;
    assert s2 == s1.(transmitting := false, pc := Parked, k := IDLE.(intrReady := true, statusPending := true));
    var s3 := Step(s2, RunIntr).0;
    assert s3.pc == Parked && s3.k == IDLE.(statusPending := true) && s3.tx == s1.tx && s3.rx == EMPTY;
    var s4 := Step(s3, Delta).0;
    assert s4.pc == Parked && s4.k == IDLE.(statusReady := true) && s4.tx == s1.tx && s4.rx == EMPTY;
  }

  lemma RestSettles(r: Run, n: nat)
    requires Waiting(End(r), n) && n > 0
    ensures var s := End(Rested(r)); Idle(s) && |s.tx.items| == n && s.rx == EMPTY
  {
    var r1 := Then(r, Delta);
    var r2 := Then(r1, RunTransmit);
    var r3 := Then(r2, RunIntr);
    var r4 := Then(r3, Delta);
    RestStates(End(r), n);
    assert End(r2) == Step(End(r1), RunTransmit).0;
    assert End(r3) == Step(End(r2), RunIntr).0;
    assert End(r4) == Step(End(r3), Delta).0;
    assert End(Rested(r)) == Step(End(r4), RunStatus).0;
  }

  /** A settled run from power-up with n words queued and the thread parked. */
  function Loaded(registers: State, n: nat): Run {
    Rested(Queued(Booted(registers), n))
  }

  lemma LoadedSettles(registers: State, n: nat)
    requires 0 < n <= FIFO_SIZE
    ensures var s := End(Loaded(registers, n)); Settled(s) && Idle(s) && |s.tx.items| == n && s.rx == EMPTY
  {
    BootSettles(registers);
    QueueWaits(Booted(registers), n);
    RestSettles(Queued(Booted(registers), n), n);
  }

  /** The lagging status is reached: with n words queued, a reset leaves SR reporting them. */
  lemma LaggingStatusIsReached(registers: State, n: nat)
    requires 0 < n <= FIFO_SIZE
    ensures var s := End(ResetAndSettle(Loaded(registers, n)));
            && Settled(s) && s.tx.items == [] && !s.sr.tfe && s.sr.bsy
            && (s.sr.tnf <==> n < FIFO_SIZE)
  {
    LoadedSettles(registers, n);
    EndOfReset(Loaded(registers, n));
  }

  // ---------------------------------------------------------------- a frame on the wire

  /** SSE is switched on and the kernel runs until it settles. */
  function FirstFrame(r: Run): Run {
    Then(Then(Then(Then(Then(r, Write(0x04, 2, 0x2)), Delta), RunTransmit), Delta), RunStatus)
  }

  lemma FirstFrameStates(s: State)
    requires Idle(s) && s.tx.items != []
    ensures var s3 := Step(Step(Step(s, Write(0x04, 2, 0x2)).0, Delta).0, RunTransmit).0;
            var s5 := Step(Step(s3, Delta).0, RunStatus).0;
            && Settled(s5) && s5.pc == InFlight(s.tx.items[0], FrameBits(s.cfg.cr0))
            && s5.tx.items == s.tx.items[1..] && s5.ris == s.ris && s5.rx == Updated(s.rx)
  {
    var s1 := Step(s, Write(0x04, 2, 0x2)).0;
    assert s1 == s.(cfg := s.cfg.(cr1 := 0x2), k := IDLE.(txPending := true));
    var s2 := Step(s1, Delta).0;
    assert s2 == s1.(tx := Updated(s.tx), rx := Updated(s.rx), pc := LoopTop, k := IDLE);
    var s3 := Step(s2, RunTransmit).0;
    assert s3.pc == InFlight(s.tx.items[0], FrameBits(s.cfg.cr0)) && s3.tx.items == s.tx.items[1..];
    assert s3.ris == s.ris && s3.rx == s2.rx && s3.k == IDLE.(statusPending := true);
    var s4 := Step(s3, Delta).0;
    assert s4 == s3.(tx := Updated(s3.tx), k := IDLE.(statusReady := true));
  }

  lemma FirstFrameEnd(r: Run)
    requires Idle(End(r)) && End(r).tx.items != []
    ensures var s, t := End(r), End(FirstFrame(r));
            && Settled(t) && t.pc == InFlight(s.tx.items[0], FrameBits(s.cfg.cr0))
            && t.tx.items == s.tx.items[1..] && t.ris == s.ris && t.rx == Updated(s.rx)
  {
    var r1 := Then(r, Write(0x04, 2, 0x2));
    var r2 := Then(r1, Delta);
    var r3 := Then(r2, RunTransmit);
    var r4 := Then(r3, Delta);
    FirstFrameStates(End(r));
    assert End(r2) == Step(End(r1), Delta).0;
    assert End(r3) == Step(End(r2), RunTransmit).0;
    assert End(r4) == Step(End(r3), Delta).0;
    assert End(FirstFrame(r)) == Step(End(r4), RunStatus).0;
  }

  /** The pop of the fifth word leaves RIS bit 3 clear with four words queued, in a settled state. */
  lemma PopLeavesTransmitBitStale(registers: State)
    ensures var s := End(FirstFrame(Loaded(registers, FIFO_SIZE / 2 + 1)));
            Settled(s) && s.pc.InFlight? && |s.tx.items| == FIFO_SIZE / 2 && !s.ris.tx
  {
    var r := Loaded(registers, FIFO_SIZE / 2 + 1);
    LoadedSettles(registers, FIFO_SIZE / 2 + 1);
    SettledInterrupts(r);
    FirstFrameEnd(r);
  }

  // ---------------------------------------------------------------- a frame read with a smaller width

  /** A sixteen-bit frame comes back as 0x1FF, CR0 is set to eight bits, and DR is read. */
  function Narrowed(r: Run): Run {
    Then(Then(Then(Then(FirstFrame(Then(r, Write(0x00, 2, 0xF))), FlightEnd(0x1FF)), Delta), Write(0x00, 2, 0x7)),
         Read(0x08, 2))
  }

  lemma NarrowStates(s: State)
    requires Settled(s) && s.pc.InFlight? && s.pc.bits == 16 && s.rx == EMPTY
    ensures var s3 := Step(Step(Step(s, FlightEnd(0x1FF)).0, Delta).0, Write(0x00, 2, 0x7)).0;
            Step(s3, Read(0x08, 2)).1.Received? && Step(s3, Read(0x08, 2)).1.raw == 0x1FF && FrameBits(s3.cfg.cr0) == 8
  {
    assert Pow2(4) == 16 && Pow2(8) == 0x100 && Pow2(12) == 0x1000;
    Small(0x1FF, Pow2(16));
    var s1 := Step(s, FlightEnd(0x1FF)).0;
    assert s1.rx == Fifo([0x1FF], 0, 1) && s1.pc == ZeroWait && s1.k == s.k;
    var s2 := Step(s1, Delta).0;
    assert s2.rx == Fifo([0x1FF], 0, 0);
    var s3 := Step(s2, Write(0x00, 2, 0x7)).0;
    assert s3 == s2.(cfg := s2.cfg.(cr0 := 0x7));
  }

  /** Software does not get the frame: the run shows that the condition on widths is needed. */
  lemma NarrowedFrameIsCut(registers: State)
    ensures var q := Narrowed(Loaded(registers, 1));
            && !FitAtRead(q) && SeenWords(q) != ReadFrames(q)
            && KeptFrames(q) != SeenWords(q) + End(q).rx.items
  {
    var r := Loaded(registers, 1);
    LoadedSettles(registers, 1);
    var w := Then(r, Write(0x00, 2, 0xF));
    assert End(w) == End(r).(cfg := End(r).cfg.(cr0 := 0xF));
    FirstFrameEnd(w);
    var f := FirstFrame(w);
    var f1 := Then(f, FlightEnd(0x1FF));
    var f2 := Then(f1, Delta);
    var f3 := Then(f2, Write(0x00, 2, 0x7));
    var q := Then(f3, Read(0x08, 2));
    NarrowStates(End(f));
    assert End(f2) == Step(End(f1), Delta).0;
    assert End(f3) == Step(End(f2), Write(0x00, 2, 0x7)).0;
    assert Last(q).raw == 0x1FF && !FitAtRead(q) by {
      assert Pow2(8) == 0x100;
    }
    SeenExactlyIff(q);
    ReceiveConservation(q);
    var n := |SeenWords(q)|;
    assert (SeenWords(q) + End(q).rx.items)[..n] == SeenWords(q);
    assert (ReadFrames(q) + End(q).rx.items)[..n] == ReadFrames(q);
  }
}
