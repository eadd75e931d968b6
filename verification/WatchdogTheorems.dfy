/** Service bounds, the exact timeline and the lock of the watchdog. */
module WatchdogTheorems {
  import opened Watchdog
  import opened Arithmetic

  // ---------------------------------------------------------------- the reachable-state invariant

  predicate Inv(s: State) {
    && s.counter <= s.load
    && s.out.mis == (s.ris && s.inten) && s.out.irqLevel == s.out.mis
    && s.out.resetLevel == s.resetAsserted
    && (s.out.changed || (s.out.irq == s.out.irqLevel && s.out.reset == s.out.resetLevel))
  }

  lemma InvStep(s: State, a: Action)
    requires Inv(s)
    ensures Inv(Step(s, a))
  {
  }

  /** Whatever holds of the start holds for ever; the power-up state satisfies it. */
  lemma {:induction false} InvAlways(r: Run)
    requires Inv(Start(r))
    ensures Inv(End(r)) && Inv(INITIAL)
  {
    match r
    case From(_) =>
    case Then(q, a) =>
      InvAlways(q);
      InvStep(End(q), a);
  }

  // ---------------------------------------------------------------- service bounds

  /** Counted ticks that must pass before reset can be asserted. */
  function Distance(s: State): nat {
    s.counter + 1 + if s.ris then 0 else s.load + 1
  }

  lemma DistanceStep(s: State, a: Action)
    requires Inv(s) && !s.resetAsserted && !IsLoadWrite(s, a)
    ensures var t := Step(s, a);
            var spent := if a.Ticking? && s.inten && !s.resetAsserted then 1 else 0;
            && t.load == s.load
            && (if t.resetAsserted then spent == Distance(s) == 1 else Distance(t) + spent >= Distance(s))
            && (t.ris && !s.ris ==> spent == 1 && s.counter == 0)
            && (!t.ris && !s.ris ==> t.counter + spent >= s.counter)
  {
  }

  /** With WdogLoad left alone, reset cannot be asserted before `Distance` counted ticks. */
  lemma {:induction false} NoEarlyReset(r: Run)
    requires Inv(Start(r)) && !Start(r).resetAsserted && LoadKept(r)
    ensures End(r).resetAsserted ==> CountedTicks(r) >= Distance(Start(r))
    ensures !End(r).resetAsserted ==> CountedTicks(r) + Distance(End(r)) >= Distance(Start(r))
  {
    match r
    case From(_) =>
    case Then(q, a) =>
      NoEarlyReset(q);
      InvAlways(q);
      if End(q).resetAsserted {
        ResetIsPermanent(End(q), a);
      } else {
        DistanceStep(End(q), a);
      }
  }

  /** Nor can the interrupt be raised before `counter + 1` counted ticks. */
  lemma {:induction false} NoEarlyInterrupt(r: Run)
    requires Inv(Start(r)) && !Start(r).ris && !Start(r).resetAsserted && LoadKept(r)
    ensures CountedTicks(r) > Start(r).counter || (!End(r).ris && CountedTicks(r) + End(r).counter >= Start(r).counter)
    ensures End(r).ris ==> CountedTicks(r) >= Start(r).counter + 1
  {
    match r
    case From(_) =>
    case Then(q, a) =>
      NoEarlyInterrupt(q);
      NoEarlyReset(q);
      InvAlways(q);
      if End(q).resetAsserted {
        ResetIsPermanent(End(q), a);
      } else {
        DistanceStep(End(q), a);
      }
  }

  /** An effective WdogIntClr buys the full two periods before reset and one before the next interrupt. */
  lemma ServiceBound(s: State, addr: nat, data: nat, r: Run)
    requires Inv(s) && !s.locked && !s.resetAsserted && addr % 0x1000 == WDOG_INTCLR
    requires Start(r) == Step(s, Write(addr, data)) && LoadKept(r)
    ensures End(r).resetAsserted ==> CountedTicks(r) >= 2 * (s.load + 1)
    ensures End(r).ris ==> CountedTicks(r) >= s.load + 1
  {
    InvStep(s, Write(addr, data));
    NoEarlyReset(r);
    NoEarlyInterrupt(r);
  }

  /** Once asserted, reset stays asserted and ticks no longer move the counter. */
  lemma ResetIsPermanent(s: State, a: Action)
    requires s.resetAsserted
    ensures Step(s, a).resetAsserted && (a.Ticking? ==> Step(s, a) == s)
  {
  }

  // ---------------------------------------------------------------- the exact timeline

  /** Where an armed watchdog, not yet timed out, is after k undisturbed ticks. */
  function Timeline(s: State, k: nat): State {
    var first := s.counter + 1;
    var second := first + s.load + 1;
    if k < first then s.(counter := s.counter - k)
    else
      var out := s.out.(mis := true, irqLevel := true, changed := true);
      if k < second then s.(ris := true, counter := s.load - (k - first), out := out)
      else s.(ris := true, counter := 0, resetAsserted := true, out := out.(resetLevel := true))
  }

  /** Interrupt at tick counter + 1 exactly, reset load + 1 ticks later exactly, then nothing moves. */
  lemma {:induction false} ExactTimeline(s: State, k: nat)
    requires Inv(s) && s.inten && s.resen && !s.ris && !s.resetAsserted
    ensures Ticks(s, k) == Timeline(s, k)
  {
    if k > 0 {
      ExactTimeline(s, k - 1);
    }
  }

  /**
   From the write that sets both control bits the timeouts are fixed: a full period
   each if INTEN was clear, and no postponement if it was already set.
   */
  lemma EnableTimeline(s: State, data: nat, k: nat)
    requires Inv(s) && !s.locked && !s.ris && !s.resetAsserted && data % 4 == 3
    ensures var t := Ticks(WriteReg(s, WDOG_CONTROL, data), k);
            var first := (if s.inten then s.counter else s.load) + 1;
            && (t.ris <==> k >= first) && (t.out.irqLevel <==> k >= first)
            && (t.resetAsserted <==> k >= first + s.load + 1)
  {
    var t := WriteReg(s, WDOG_CONTROL, data);
    InvStep(s, Write(WDOG_CONTROL, data));
    ExactTimeline(t, k);
  }

  /** With RESEN clear the counter has period load + 1 for ever and reset is never asserted. */
  lemma {:induction false} WithoutResetEnable(s: State, k: nat)
    requires Inv(s) && s.inten && !s.resen && !s.resetAsserted
    ensures var t := Ticks(s, k);
            && t.counter == (s.counter - k) % (s.load + 1)
            && !t.resetAsserted && t.inten && !t.resen && t.load == s.load
            && (t.ris <==> s.ris || k > s.counter)
  {
    if k == 0 {
      Small(s.counter, s.load + 1);
    } else {
      WithoutResetEnable(s, k - 1);
      Pred(s.counter - (k - 1), s.load + 1);
      if k - 1 <= s.counter {
        Small(s.counter - (k - 1), s.load + 1);
      }
    }
  }

  // ---------------------------------------------------------------- the lock

  /** While locked, bus accesses other than the unlock write leave no trace beside a notification. */
  lemma LockedAccess(s: State, a: Action)
    requires Inv(s) && s.locked && !IsUnlock(a) && (a.Write? || a.Read?)
    ensures SameButPending(Step(s, a), s)
  {
  }

  predicate SameButPending(s: State, t: State) {
    s == t.(out := t.out.(changed := s.out.changed))
  }

  lemma SameStep(s: State, t: State, a: Action)
    requires Inv(s) && Inv(t) && SameButPending(s, t) && (a.Ticking? || a.Drive?)
    ensures SameButPending(Step(s, a), Step(t, a))
  {
    if a.Ticking? && Counts(s) {
      assert Counts(t);
      if s.counter == 0 {
        assert t.counter == 0;
      }
    }
  }

  /** A locked run ends, registers and pins alike, where the run with only its ticks ends. */
  lemma {:induction false} LockErasure(r: Run)
    requires Inv(Start(r)) && Start(r).locked && NoUnlock(r)
    ensures SameButPending(End(r), End(Erased(r)))
    ensures End(r).locked && Start(Erased(r)) == Start(r)
  {
    match r
    case From(_) =>
    case Then(q, a) =>
      LockErasure(q);
      InvAlways(q);
      InvAlways(Erased(q));
      if a.Ticking? || a.Drive? {
        SameStep(End(q), End(Erased(q)), a);
      } else {
        LockedAccess(End(q), a);
      }
  }

  // ---------------------------------------------------------------- the registers, in every run

  /** An effective write: to the lock always, to another register while unlocked. */
  predicate WritesTo(s: State, a: Action, addr: nat) {
    a.Write? && a.addr % 0x1000 == addr && (addr == 0xC00 || !s.locked)
  }

  /** The word last written with effect to the register, or what it read at the start. */
  function LastWritten(r: Run, addr: nat): nat {
    match r
    case From(s) => Value(s, addr)
    case Then(q, a) => if WritesTo(End(q), a, addr) then a.data else LastWritten(q, addr)
  }

  lemma RegisterStep(s: State, a: Action)
    ensures var t := Step(s, a);
            && t.load == (if WritesTo(s, a, 0x000) then a.data else s.load)
            && t.inten == (if WritesTo(s, a, 0x008) then a.data % 2 == 1 else s.inten)
            && t.resen == (if WritesTo(s, a, 0x008) then a.data / 2 % 2 == 1 else s.resen)
            && t.locked == (if WritesTo(s, a, 0xC00) then a.data != 0x1ACC_E551 else s.locked)
  {
    if a.Write? {
      RegisterWrite(s, a.addr % 0x1000, a.data);
    }
  }

  lemma RegisterWrite(s: State, addr: nat, data: nat)
    ensures var t := WriteReg(s, addr, data);
            && t.load == (if !s.locked && addr == 0x000 then data else s.load)
            && t.inten == (if !s.locked && addr == 0x008 then data % 2 == 1 else s.inten)
            && t.resen == (if !s.locked && addr == 0x008 then data / 2 % 2 == 1 else s.resen)
            && t.locked == (if addr == 0xC00 then data != 0x1ACC_E551 else s.locked)
  {
  }

  /** In every run load and control read what was last written with effect, and the lock is open only by its key. */
  lemma {:induction false} RegistersAreHistory(r: Run)
    ensures Value(End(r), 0x000) == LastWritten(r, 0x000)
    ensures Value(End(r), 0x008) == LastWritten(r, 0x008) % 4
    ensures Value(End(r), 0xC00) ==
            if LocksWritten(r) then if LastWritten(r, 0xC00) == 0x1ACC_E551 then 0 else 1 else Value(Start(r), 0xC00)
  {
    match r
    case From(_) =>
    case Then(q, a) =>
      RegistersAreHistory(q);
      RegisterStep(End(q), a);
      ControlWord(LastWritten(r, 0x008));
  }

  lemma ControlWord(data: nat)
    ensures data % 4 == data % 2 + 2 * (data / 2 % 2)
  {
  }

  predicate LocksWritten(r: Run) {
    match r
    case From(_) => false
    case Then(q, a) => WritesTo(End(q), a, 0xC00) || LocksWritten(q)
  }

  /** A tick that finds the counter at 0 with INTEN set and reset not asserted. */
  predicate TimesOut(s: State, a: Action) {
    a.Ticking? && s.inten && !s.resetAsserted && s.counter == 0
  }

  /** A timeout has come since the last effective clear. */
  predicate TimeoutSinceClear(r: Run) {
    match r
    case From(s) => s.ris
    case Then(q, a) => TimesOut(End(q), a) || (TimeoutSinceClear(q) && !WritesTo(End(q), a, 0x00C))
  }

  /** A timeout has come with RESEN set while an earlier one was not cleared. */
  predicate SecondTimeout(r: Run) {
    match r
    case From(s) => s.resetAsserted
    case Then(q, a) => SecondTimeout(q) || (TimesOut(End(q), a) && TimeoutSinceClear(q) && End(q).resen)
  }

  lemma StatusStep(s: State, a: Action)
    ensures var t := Step(s, a);
            && (t.ris <==> TimesOut(s, a) || (s.ris && !WritesTo(s, a, 0x00C)))
            && (t.resetAsserted <==> s.resetAsserted || (TimesOut(s, a) && s.ris && s.resen))
  {
  }

  /**
   In every run the raw status is "a timeout since the last effective clear", the masked
   status is that with INTEN, and reset is asserted exactly after a second timeout.
   */
  lemma {:induction false} StatusIsHistory(r: Run)
    requires Inv(Start(r))
    ensures Value(End(r), 0x010) == (if TimeoutSinceClear(r) then 1 else 0)
    ensures Value(End(r), 0x014) == (if TimeoutSinceClear(r) && End(r).inten then 1 else 0)
    ensures End(r).resetAsserted <==> SecondTimeout(r)
  {
    match r
    case From(_) =>
    case Then(q, a) =>
      StatusIsHistory(q);
      StatusStep(End(q), a);
      InvAlways(q);
      InvStep(End(q), a);
  }

  /** A load write, a clear or the setting of INTEN restarts the counter, a counted tick moves it, nothing else does. */
  lemma CounterStep(s: State, a: Action)
    ensures var t := Step(s, a);
            Value(t, 0x004) ==
            if WritesTo(s, a, 0x000) then a.data
            else if WritesTo(s, a, 0x00C) then s.load
            else if WritesTo(s, a, 0x008) && a.data % 2 == 1 && !s.inten && !s.resetAsserted then s.load
            else if a.Ticking? && s.inten && !s.resetAsserted then
              if s.counter > 0 then s.counter - 1 else if s.ris && s.resen then 0 else s.load
            else s.counter
  {
  }

  /** INTEN was clear all along, and the counter was not written. */
  predicate Idle(r: Run) {
    match r
    case From(s) => !s.inten
    case Then(q, a) => Idle(q) && !End(r).inten && !WritesTo(End(q), a, 0x000) && !WritesTo(End(q), a, 0x00C)
  }

  /** While INTEN is clear, however many ticks pass, the counter, the status and reset stay as they are. */
  lemma {:induction false} IdleStandsStill(r: Run)
    requires Idle(r)
    ensures var s, t := Start(r), End(r);
            t.counter == s.counter && t.ris == s.ris && t.resetAsserted == s.resetAsserted && t.load == s.load
  {
    match r
    case From(_) =>
    case Then(q, a) =>
      IdleStandsStill(q);
      StatusStep(End(q), a);
      CounterStep(End(q), a);
      RegisterStep(End(q), a);
  }

  /** At power-up the watchdog is unlocked and off with its largest load, and ticks change nothing. */
  lemma {:induction false} PowerUpStandsStill(k: nat)
    ensures Ticks(INITIAL, k) == INITIAL
    ensures Value(INITIAL, 0x000) == Value(INITIAL, 0x004) == 0xFFFF_FFFF
    ensures Value(INITIAL, 0x008) == Value(INITIAL, 0x010) == Value(INITIAL, 0x014) == Value(INITIAL, 0xC00) == 0
  {
    if k > 0 {
      PowerUpStandsStill(k - 1);
    }
  }

  /** Once driven, the pins show the masked status and reset, and nothing is left to drive. */
  lemma DriveIsFinal(r: Run)
    requires Inv(Start(r))
    ensures var s, t := End(r), End(Then(r, Drive));
            && t == s.(out := t.out) && !t.out.changed
            && (t.out.irq <==> s.ris && s.inten) && (t.out.reset <==> s.resetAsserted)
  {
    InvAlways(r);
  }

  /** A read changes nothing but that the pins are driven again. */
  lemma ReadOnlyNotifies(r: Run, addr: nat)
    requires Inv(Start(r))
    ensures var s := End(r);
            End(Then(r, Read(addr))) == s.(out := s.out.(changed := true))
  {
    InvAlways(r);
  }

  /** The four bytes of an identification word. */
  function Word32(s: State, addr: nat): nat {
    Value(s, addr) + 0x100 * Value(s, addr + 4) + 0x1_0000 * Value(s, addr + 8) + 0x100_0000 * Value(s, addr + 12)
  }

  /** The identification registers spell the SP805 part and the PrimeCell identification. */
  lemma IdentifiesAsSp805(s: State)
    ensures Word32(s, 0xFE0) == 0x0014_1805 && Word32(s, 0xFF0) == 0xB105_F00D
  {
  }

  /** An unlocked write lands where it is read back; a load write also restarts the counter. */
  lemma ReadBack(s: State, data: nat)
    requires !s.locked
    ensures Value(WriteReg(s, WDOG_LOAD, data), WDOG_LOAD) == Value(WriteReg(s, WDOG_LOAD, data), WDOG_VALUE) == data
    ensures Value(WriteReg(s, WDOG_CONTROL, data), WDOG_CONTROL) == data % 4
    ensures Value(WriteReg(s, WDOG_LOCK, data), WDOG_LOCK) == if data == UNLOCK_KEY then 0 else 1
  {
  }
}
