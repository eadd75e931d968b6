/** The interrupt pin over every history, and the exact countdown. */
module TimerTheorems {
  import opened Timer
  import opened Tlm
  import opened Arithmetic

  // ---------------------------------------------------------------- the pin

  predicate PinExplained(s: State) {
    s.pin ==> s.intrStatus || s.clearPending
  }

  lemma {:induction false} PinAlwaysExplained(r: History)
    ensures PinExplained(End(r))
  {
    match r
    case PowerUp(_) =>
    case Then(q, a) => PinAlwaysExplained(q);
  }

  /** The thread serves an expiry with INTR_EN set. */
  predicate Raises(s: State, a: Action) {
    a.Run? && s.ready && s.prstn && s.pc.Counting? && Counts(s, a.extin) && s.value == 0 && s.ctrl.intrEn
  }

  /** The thread finds the reset input low, or serves a clear. */
  predicate Lowers(s: State, a: Action) {
    a.Run? && s.ready && (!s.prstn || (s.pc.Counting? && s.clearPending))
  }

  /** The latest of these was an expiry. */
  predicate RaisedLast(r: History) {
    match r
    case PowerUp(_) => false
    case Then(q, a) => Raises(End(q), a) || (!Lowers(End(q), a) && RaisedLast(q))
  }

  /** The pin is high exactly if an expiry with INTR_EN set came after the last served clear and the last reset. */
  lemma {:induction false} PinIsHistory(r: History)
    ensures End(r).pin <==> RaisedLast(r)
  {
    match r
    case PowerUp(_) =>
    case Then(q, a) => PinIsHistory(q);
  }

  /** The pin is raised only by an expiry with INTR_EN set. */
  lemma PinRises(r: History, a: Action)
    requires !End(r).pin && End(Then(r, a)).pin
    ensures var s := End(r);
            a.Run? && s.ready && s.pc.Counting? && Counts(s, a.extin) && s.value == 0 && s.ctrl.intrEn
  {
  }

  // ---------------------------------------------------------------- clearing the interrupt

  /** After a clear and the turn that follows it. */
  function AfterClear(r: History, data: nat, extin: bool): State {
    End(Then(Then(r, BusWrite(INTSTATUS, data)), Run(extin)))
  }

  /**
   A clear lowers the pin by the next turn exactly if the pin was low anyway, the thread
   was at the counting wait, or it was about to enter reset.
   */
  lemma ClearTakesEffectIff(r: History, data: nat, extin: bool)
    requires data % 2 == 1
    ensures var s := End(r);
            !AfterClear(r, data, extin).pin <==> !s.pin || s.pc.Counting? || (s.ready && !s.prstn)
  {
    var s := End(r);
    var cleared := Then(r, BusWrite(INTSTATUS, data));
    assert End(cleared) == WakeOnClear(s.(intrStatus := false, clearPending := true));
    assert AfterClear(r, data, extin) == Step(End(cleared), Run(extin));
  }

  /** At the counting wait the clear is served by the next turn, without counting. */
  lemma ClearIsServed(r: History, data: nat, extin: bool)
    requires End(r).pc.Counting? && data % 2 == 1
    ensures var s := End(r);
            var t := AfterClear(r, data, extin);
            !t.pin && !t.intrStatus && !t.clearPending && (s.prstn ==> t.value == s.value)
  {
    var cleared := Then(r, BusWrite(INTSTATUS, data));
    assert End(cleared) == End(r).(intrStatus := false, clearPending := true, ready := true);
    assert AfterClear(r, data, extin) == Step(End(cleared), Run(extin));
  }

  /**
   A pending clear is served by a turn exactly if the thread was woken at the counting
   wait, whatever woke it; that turn counts nothing.
   */
  lemma PendingClearIsServed(r: History, extin: bool)
    requires End(r).clearPending
    ensures var s, t := End(r), End(Then(r, Run(extin)));
            && (!t.clearPending <==> s.pc.Counting? && s.ready)
            && (!t.clearPending ==> !t.pin && (s.prstn ==> t.value == s.value && t.intrStatus == s.intrStatus))
  {
  }

  /**
   With the timer disabled the clear is heard by nobody: the pin keeps its level, and
   stays so after re-enabling until something wakes the thread, which then counts nothing.
   */
  lemma ClearWhileDisabled(r: History, data: nat, control: nat, wake: Action, extin: bool)
    requires End(r).pc.Disabled? && End(r).prstn && data % 2 == 1 && control % 2 == 1
    ensures var cleared := Then(r, BusWrite(INTSTATUS, data));
            var enabled := Then(Then(cleared, BusWrite(CTRL, control)), Run(extin));
            var woken := Then(enabled, wake);
            var served := Then(woken, Run(extin));
            && End(cleared).pin == End(r).pin && !End(cleared).intrStatus
            && End(enabled).pin == End(r).pin && End(enabled).pc.Counting? && End(enabled).clearPending
            && (End(woken).ready ==>
                  && !End(served).pin && !End(served).clearPending
                  && (End(woken).prstn ==> End(served).value == End(woken).value))
  {
    var cleared := Then(r, BusWrite(INTSTATUS, data));
    var written := Then(cleared, BusWrite(CTRL, control));
    var enabled := Then(written, Run(extin));
    var woken := Then(enabled, wake);
    var s := End(r);
    assert End(cleared) == s.(intrStatus := false, clearPending := true);
    assert End(written) == End(cleared).(ctrl := ToControl(control), ready := true);
    assert End(enabled) == End(written).(pc := Counting, ready := false);
    WakeKeepsClear(End(enabled), wake);
    if End(woken).ready {
      PendingClearIsServed(woken, extin);
    }
  }

  lemma WakeKeepsClear(s: State, wake: Action)
    requires s.pc.Counting? && s.clearPending && !s.ready
    ensures Step(s, wake).pc.Counting? && Step(s, wake).clearPending
  {
  }

  /** Power up, enable with INTR_EN, let it expire, and disable: the thread is at the disabled wait, the pin high. */
  function ExpiredAndDisabled(): History {
    var on := Then(Then(Then(PowerUp(true), Run(false)), BusWrite(CTRL, 9)), Run(false));
    var expired := Then(Then(on, Trigger), Run(false));
    Then(Then(expired, BusWrite(CTRL, 0)), Run(false))
  }

  lemma ExpiredAndDisabledEnd()
    ensures var s := End(ExpiredAndDisabled()); s.pin && s.prstn && !s.ready && s.pc.Disabled?
  {
    var h1 := Then(PowerUp(true), Run(false));
    var h2 := Then(h1, BusWrite(CTRL, 9));
    var h3 := Then(h2, Run(false));
    var h4 := Then(h3, Trigger);
    var h5 := Then(h4, Run(false));
    var h6 := Then(h5, BusWrite(CTRL, 0));
    assert End(h1) == State(OFF, 0, 0, false, false, false, true, Disabled, false);
    assert End(h2) == End(h1).(ctrl := Control(true, false, false, true), ready := true);
    assert End(h3) == End(h2).(pc := Counting, ready := false);
    assert End(h4) == End(h3).(ready := true);
    assert End(h5) == End(h3).(intrStatus := true, pin := true);
    assert End(h6) == End(h5).(ctrl := OFF, ready := true);
    assert End(Then(h6, Run(false))) == End(h6).(pc := Disabled, ready := false);
  }

  /** The clear then leaves the pin high with the status low. */
  lemma UnservedClearExample()
    ensures var t := AfterClear(ExpiredAndDisabled(), 1, false); t.pin && !t.intrStatus && t.clearPending
  {
    ExpiredAndDisabledEnd();
    var cleared := Then(ExpiredAndDisabled(), BusWrite(INTSTATUS, 1));
    assert End(cleared) == End(ExpiredAndDisabled()).(intrStatus := false, clearPending := true);
  }

  // ---------------------------------------------------------------- reset

  /** No bus write has come since the thread last ran. */
  predicate Untouched(r: History) {
    match r
    case PowerUp(_) => true
    case Then(q, a) => !a.BusWrite? && ((a.Run? && End(q).ready) || Untouched(q))
  }

  predicate ResetHolds(s: State, untouched: bool) {
    s.pc.InReset? ==>
      && !s.pin && !s.intrStatus
      && (untouched ==> s.ctrl == OFF && s.value == 0 && s.reload == 0)
  }

  /**
   In every reachable reset wait the pin and the status are low, and the registers are
   clear unless the bus has written since.
   */
  lemma {:induction false} ResetClears(r: History)
    ensures ResetHolds(End(r), Untouched(r))
  {
    match r
    case PowerUp(_) =>
    case Then(q, a) => ResetClears(q);
  }

  /** A falling and a rising edge of the reset input, each with the turn of the thread. */
  function Pulse(r: History, low: bool, high: bool): History {
    Then(Then(Then(Then(r, ResetPin(false)), Run(low)), ResetPin(true)), Run(high))
  }

  lemma PulseStates(s: State, low: bool, high: bool)
    requires s.prstn
    ensures var s2 := Step(Step(s, ResetPin(false)), Run(low));
            var s4 := Step(Step(s2, ResetPin(true)), Run(high));
            && (s4.clearPending <==> s.clearPending && !s.pc.Counting?)
            && (s.pc.Disabled? || s.pc.Counting? ==> s4.pc.Disabled? && s4.ctrl == OFF && s4.value == 0 && !s4.pin)
  {
    var s2 := Step(Step(s, ResetPin(false)), Run(low));
    assert s2.clearPending <==> s.clearPending && !s.pc.Counting?;
    assert !s2.pc.Counting? && !s2.prstn;
    assert s.pc.Disabled? || s.pc.Counting? ==> s2.pc.InReset? && s2.ctrl == OFF && s2.value == 0 && !s2.pin;
  }

  /**
   The clear flag is not a register: pending before a whole reset pulse, it is pending after
   it exactly if the thread was not at the counting wait, where the falling edge serves it.
   */
  lemma PendingClearOutlivesReset(r: History, low: bool, high: bool)
    requires End(r).prstn
    ensures var s, t := End(r), End(Pulse(r, low, high));
            && (t.clearPending <==> s.clearPending && !s.pc.Counting?)
            && (s.pc.Disabled? || s.pc.Counting? ==> t.pc.Disabled? && t.ctrl == OFF && t.value == 0 && !t.pin)
  {
    var r1 := Then(r, ResetPin(false));
    var r2 := Then(r1, Run(low));
    var r3 := Then(r2, ResetPin(true));
    PulseStates(End(r), low, high);
    assert End(r2) == Step(End(r1), Run(low));
    assert End(r3) == Step(End(r2), ResetPin(true));
    assert End(Pulse(r, low, high)) == Step(End(r3), Run(high));
  }

  /** Both cases are reached: cleared while disabled, then pulsed, before and after re-enabling. */
  lemma PulseExample(low: bool, high: bool)
    ensures var cleared := Then(Then(PowerUp(true), Run(false)), BusWrite(INTSTATUS, 1));
            var enabled := Then(Then(cleared, BusWrite(CTRL, 1)), Run(false));
            && End(cleared).clearPending && End(Pulse(cleared, low, high)).clearPending
            && End(enabled).clearPending && !End(Pulse(enabled, low, high)).clearPending
  {
    var off := Then(PowerUp(true), Run(false));
    var cleared := Then(off, BusWrite(INTSTATUS, 1));
    var written := Then(cleared, BusWrite(CTRL, 1));
    var enabled := Then(written, Run(false));
    assert End(off) == State(OFF, 0, 0, false, false, false, true, Disabled, false);
    assert End(cleared) == End(off).(clearPending := true);
    assert End(written) == End(cleared).(ctrl := OFF.(enable := true), ready := true);
    assert End(enabled) == End(written).(pc := Counting, ready := false);
    PendingClearOutlivesReset(cleared, low, high);
    PendingClearOutlivesReset(enabled, low, high);
  }

  // ---------------------------------------------------------------- a write wakes the thread

  /** What is left of a register write once the thread it wakes has run. */
  function AfterWrite(r: History, addr: nat, data: nat, extin: bool): State {
    End(Then(Then(r, BusWrite(addr, data)), Run(extin)))
  }

  /** The turn that a write causes takes a count. */
  predicate CostsCount(s: State, ctrl: Control, extin: bool) {
    s.pc.Counting? && Counts(s.(ctrl := ctrl), extin)
  }

  /** A value written to a timer stays exactly if its thread is not at the counting wait or the turn does not count. */
  lemma WrittenValue(r: History, data: nat, extin: bool)
    requires End(r).prstn
    ensures var s := End(r);
            AfterWrite(r, VALUE, data, extin).value == data <==>
            !CostsCount(s, s.ctrl, extin) || (data == 0 && s.reload == 0)
  {
    assert End(Then(r, BusWrite(VALUE, data))) == Write(End(r), VALUE, data);
  }

  /** RELOAD itself stays; the value it loads is at once counted down in the same cases. */
  lemma WrittenReload(r: History, data: nat, extin: bool)
    requires End(r).prstn
    ensures var s := End(r);
            var t := AfterWrite(r, RELOAD, data, extin);
            t.reload == data && (t.value == data <==> !CostsCount(s, s.ctrl, extin) || data == 0)
  {
    assert End(Then(r, BusWrite(RELOAD, data))) == Write(End(r), RELOAD, data);
  }

  lemma ControlWord(data: nat)
    ensures ControlValue(ToControl(data)) == data % 16
  {
    Nibble(data);
  }

  lemma LoopTopKeeps(s: State)
    requires s.prstn
    ensures LoopTop(s).ctrl == s.ctrl && LoopTop(s).value == s.value
  {
  }

  lemma ControlTurn(s: State, ctrl: Control, extin: bool)
    requires s.prstn
    ensures var t := Step(WakeOnUpdate(s.(ctrl := ctrl)), Run(extin));
            && t.ctrl == ctrl
            && (t.value == s.value <==> !CostsCount(s, ctrl, extin) || (s.value == 0 && s.reload == 0))
  {
    var w := WakeOnUpdate(s.(ctrl := ctrl));
    if s.pc.Counting? {
      LoopTopKeeps(CountDown(w, extin));
    } else {
      LoopTopKeeps(w);
    }
  }

  /** CTRL stays, but the write costs a count under the new control bits, even if it switches the timer off. */
  lemma WrittenControl(r: History, data: nat, extin: bool)
    requires End(r).prstn
    ensures var s := End(r);
            var t := AfterWrite(r, CTRL, data, extin);
            && Read(t, CTRL) == Some(data % 16)
            && (t.value == s.value <==>
                !CostsCount(s, ToControl(data), extin) || (s.value == 0 && s.reload == 0))
  {
    ControlWord(data);
    ControlTurn(End(r), ToControl(data), extin);
    assert End(Then(r, BusWrite(CTRL, data))) == WakeOnUpdate(End(r).(ctrl := ToControl(data)));
  }

  /** Power up, enable, write 5: the register reads 4. */
  lemma WriteExample(extin: bool)
    ensures var enabled := Then(Then(Then(PowerUp(true), Run(extin)), BusWrite(CTRL, 1)), Run(extin));
            && End(enabled).pc.Counting? && Counts(End(enabled), extin)
            && AfterWrite(enabled, VALUE, 5, extin).value == 4
  {
    var off := Then(PowerUp(true), Run(extin));
    assert End(off) == State(OFF, 0, 0, false, false, false, true, Disabled, false);
    var written := Then(off, BusWrite(CTRL, 1));
    assert End(written) == End(off).(ctrl := OFF.(enable := true), ready := true);
    var enabled := Then(written, Run(extin));
    assert End(enabled) == End(written).(pc := Counting, ready := false);
    assert End(Then(enabled, BusWrite(VALUE, 5))) == End(enabled).(value := 5, ready := true);
  }

  // ---------------------------------------------------------------- the registers, in every history

  /** The thread finds the reset input low and clears the registers. */
  predicate Resets(s: State, a: Action) {
    a.Run? && s.ready && !s.prstn
  }

  /** What was last written to CTRL or RELOAD, or 0 after a later reset. */
  function LastWritten(r: History, addr: nat): nat {
    match r
    case PowerUp(_) => 0
    case Then(q, a) =>
      if Resets(End(q), a) then 0 else if a.BusWrite? && a.addr == addr then a.data else LastWritten(q, addr)
  }

  function ControlOf(w: nat): Control {
    Control(Bit(w, 1), Bit(w, 2), Bit(w, 4), Bit(w, 8))
  }

  lemma TurnKeepsRegisters(s: State, extin: bool)
    requires s.ready
    ensures var t := Step(s, Run(extin));
            t.ctrl == (if s.prstn then s.ctrl else OFF) && t.reload == (if s.prstn then s.reload else 0)
  {
    assert CountDown(s, extin).ctrl == s.ctrl && CountDown(s, extin).reload == s.reload;
    assert CountDown(s, extin).prstn == s.prstn;
  }

  lemma RegisterStep(s: State, a: Action)
    ensures var t := Step(s, a);
            && t.ctrl == (if Resets(s, a) then OFF
                          else if a.BusWrite? && a.addr == 0x00 then ToControl(a.data) else s.ctrl)
            && t.reload == (if Resets(s, a) then 0 else if a.BusWrite? && a.addr == 0x08 then a.data else s.reload)
  {
    if a.Run? && s.ready {
      TurnKeepsRegisters(s, a.extin);
    }
  }

  lemma ControlBits(w: nat)
    ensures ToControl(w) == ControlOf(w)
  {
  }

  /** In every history CTRL reads the low four bits last written to it, and RELOAD the word. */
  lemma RegistersAreHistory(r: History)
    ensures var c, w := End(r).ctrl, LastWritten(r, 0x00);
            && (c.enable <==> Bit(w, 1)) && (c.exEn <==> Bit(w, 2))
            && (c.exClk <==> Bit(w, 4)) && (c.intrEn <==> Bit(w, 8))
    ensures Read(End(r), 0x00) == Some(LastWritten(r, 0x00) % 16)
    ensures Read(End(r), 0x08) == Some(LastWritten(r, 0x08))
  {
    WordsAreHistory(r);
    ControlWord(LastWritten(r, 0x00));
    ControlBits(LastWritten(r, 0x00));
  }

  lemma {:induction false} WordsAreHistory(r: History)
    ensures End(r).ctrl == ToControl(LastWritten(r, 0x00)) && End(r).reload == LastWritten(r, 0x08)
  {
    match r
    case PowerUp(_) =>
    case Then(q, a) =>
      WordsAreHistory(q);
      RegisterStep(End(q), a);
  }

  /** The thread counts and finds 0. */
  predicate Expires(s: State, a: Action) {
    a.Run? && s.ready && s.pc.Counting? && !s.clearPending && (s.ctrl.exEn ==> a.extin) && s.value == 0
  }

  predicate WritesClear(a: Action) {
    a.BusWrite? && a.addr == 0x0C && a.data % 2 == 1
  }

  /** An expiry has come since the last clear and the last reset. */
  predicate Expired(r: History) {
    match r
    case PowerUp(_) => false
    case Then(q, a) =>
      !Resets(End(q), a) && (Expires(End(q), a) || (Expired(q) && !WritesClear(a)))
  }

  /** In every history INTSTATUS reads 1 exactly if an expiry came after the last clear and the last reset. */
  lemma {:induction false} StatusIsHistory(r: History)
    ensures Read(End(r), 0x0C) == Some(if Expired(r) then 1 else 0)
  {
    match r
    case PowerUp(_) =>
    case Then(q, a) =>
      StatusIsHistory(q);
      StatusStep(End(q), a);
  }

  lemma StatusStep(s: State, a: Action)
    ensures Step(s, a).intrStatus <==> !Resets(s, a) && (Expires(s, a) || (s.intrStatus && !WritesClear(a)))
  {
  }

  /** VALUE changes only by a write of it or of RELOAD, a counted turn, or a reset. */
  lemma ValueStep(s: State, a: Action)
    ensures Read(Step(s, a), 0x04) ==
            Some(if Resets(s, a) then 0
                 else if a.BusWrite? && (a.addr == 0x04 || a.addr == 0x08) then a.data
                 else if Expires(s, a) then s.reload
                 else if a.Run? && s.ready && s.pc.Counting? && Counts(s, a.extin) then s.value - 1
                 else s.value)
  {
  }

  /** What the thread is waiting for comes about. */
  predicate WokenBy(s: State, a: Action) {
    match a
    case BusWrite(addr, _) =>
      || (addr in {0x00, 0x04, 0x08} && (s.pc.Disabled? || s.pc.Counting?))
      || (WritesClear(a) && s.pc.Counting?)
    case ResetPin(level) =>
      if level then !s.prstn && s.pc.InReset? else s.prstn && (s.pc.Disabled? || s.pc.Counting?)
    case Trigger => s.pc.Counting?
    case Run(_) => false
  }

  /** The thread is woken by exactly these, and stays woken until it runs. */
  lemma WakesExactly(s: State, a: Action)
    ensures Step(s, a).ready <==> !a.Run? && (s.ready || WokenBy(s, a))
    ensures !a.Run? ==> Step(s, a).pc == s.pc
  {
  }

  /** Where the thread waits, once it has run: for the end of reset, for a write, or for a tick. */
  lemma ThreadWaits(s: State, extin: bool)
    requires s.ready
    ensures var t := Step(s, Run(extin));
            && !t.ready && t.prstn == s.prstn
            && t.pc == (if !s.prstn then InReset else if s.ctrl.enable then Counting else Disabled)
  {
  }

  // ---------------------------------------------------------------- the countdown

  lemma WakeEffect(s: State, extin: bool)
    requires Free(s)
    ensures var t := Wake(s, extin);
            && Free(t) && t.ctrl == s.ctrl && t.reload == s.reload
            && t.value == (if !Counts(s, extin) then s.value else if s.value == 0 then s.reload else s.value - 1)
  {
  }

  /** How c counted wakes, e expiries and the present value fit together. */
  predicate Tally(c: nat, e: nat, start: nat, value: nat, reload: nat) {
    if e == 0 then c + value == start
    else value <= reload && c == start + 1 + (e - 1) * (reload + 1) + (reload - value)
  }

  lemma TallyStep(c: nat, e: nat, start: nat, value: nat, reload: nat)
    requires Tally(c, e, start, value, reload)
    ensures if value == 0 then Tally(c + 1, e + 1, start, reload, reload) else Tally(c + 1, e, start, value - 1, reload)
  {
    Distribute(e, 1, reload + 1);
  }

  /** Counted wakes, expiries and the present value determine each other. */
  lemma {:induction false} Countdown(s: State, exts: seq<bool>)
    requires Free(s)
    ensures var t := Wakes(s, exts);
            && Free(t) && t.ctrl == s.ctrl && t.reload == s.reload
            && Tally(Counted(s, exts), Expiries(s, exts), s.value, t.value, s.reload)
  {
    if exts != [] {
      var front, last := exts[..|exts| - 1], exts[|exts| - 1];
      Countdown(s, front);
      WakeEffect(Wakes(s, front), last);
      TallyStep(Counted(s, front), Expiries(s, front), s.value, Wakes(s, front).value, s.reload);
    }
  }

  lemma Compare(c: nat, e: nat, start: nat, value: nat, reload: nat, k: nat)
    requires Tally(c, e, start, value, reload) && k > 0
    ensures e >= k <==> c >= start + 1 + (k - 1) * (reload + 1)
  {
    var m := reload + 1;
    if e >= k {
      MulMonotone(k - 1, e - 1, m);
    } else {
      MulMonotone(e, k - 1, m);
      Distribute(e, 1, m);
      MulMonotone(0, k - 1, m);
    }
  }

  /** The k-th expiry falls on counted wake value + 1 + (k - 1)(reload + 1), neither earlier nor later. */
  lemma KthExpiry(s: State, exts: seq<bool>, k: nat)
    requires Free(s) && k > 0
    ensures Expiries(s, exts) >= k <==> Counted(s, exts) >= s.value + 1 + (k - 1) * (s.reload + 1)
  {
    var c, e, value := Counted(s, exts), Expiries(s, exts), Wakes(s, exts).value;
    assert Tally(c, e, s.value, value, s.reload) by {
      Countdown(s, exts);
    }
    Compare(c, e, s.value, value, s.reload, k);
  }

  lemma {:induction false} StatusTellsExpiry(s: State, exts: seq<bool>)
    requires Free(s)
    ensures var t := Wakes(s, exts);
            && (t.intrStatus <==> s.intrStatus || Expiries(s, exts) > 0)
            && (t.pin <==> s.pin || (Expiries(s, exts) > 0 && s.ctrl.intrEn))
  {
    if exts != [] {
      var front := exts[..|exts| - 1];
      StatusTellsExpiry(s, front);
      Countdown(s, front);
    }
  }

  /** Software sees the first expiry at counted wake value + 1: the status then, and the pin if INTR_EN is set. */
  lemma ExpiryIsVisible(s: State, exts: seq<bool>)
    requires Free(s)
    ensures var t := Wakes(s, exts);
            && (t.intrStatus <==> s.intrStatus || Counted(s, exts) >= s.value + 1)
            && (t.pin <==> s.pin || (Counted(s, exts) >= s.value + 1 && s.ctrl.intrEn))
  {
    StatusTellsExpiry(s, exts);
    KthExpiry(s, exts, 1);
  }

  /** The wake of the k-th expiry, for every k, is the one that sets the status, and the pin if INTR_EN is set. */
  lemma KthExpirySets(s: State, exts: seq<bool>, last: bool)
    requires Free(s) && Expiries(s, exts + [last]) == Expiries(s, exts) + 1
    ensures var before, after := Wakes(s, exts), Wakes(s, exts + [last]);
            && before.value == 0 && after.value == s.reload
            && after.intrStatus && (after.pin <==> before.pin || s.ctrl.intrEn)
  {
    var all := exts + [last];
    assert all[..|all| - 1] == exts && all[|all| - 1] == last;
    Countdown(s, exts);
  }

  /** Before the woken thread runs, what was written reads back, and RELOAD has also loaded VALUE. */
  lemma ReadBack(s: State, data: nat)
    ensures Read(Write(s, CTRL, data), CTRL) == Some(data % 16)
    ensures Read(Write(s, VALUE, data), VALUE) == Some(data)
    ensures Read(Write(s, RELOAD, data), RELOAD) == Read(Write(s, RELOAD, data), VALUE) == Some(data)
  {
    ControlWord(data);
  }
}
