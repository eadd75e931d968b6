/**
 The APB timer: a thread that waits for a tick, a bus write, an interrupt clear
 or a reset edge, and then counts down.

 The bus notifies its two events immediately, so a write makes a waiting thread
 runnable at once; other accesses may still come before the thread runs.
 */
module Timer {
  import opened Tlm

  const CTRL: nat := 0x00
  const VALUE: nat := 0x04
  const RELOAD: nat := 0x08
  const INTSTATUS: nat := 0x0C

  /** Which wait the thread is in. */
  datatype Pc =
    | Starting   // not yet run
    | Disabled   // wait(update_reg | negedge)
    | Counting   // wait for a tick or an external edge, or update_reg, negedge, intr_clear
    | InReset    // wait(posedge)

  datatype Control = Control(enable: bool, exEn: bool, exClk: bool, intrEn: bool)

  const OFF := Control(false, false, false, false)

  datatype State = State(
    ctrl: Control, value: nat, reload: nat,
    intrStatus: bool,
    clearPending: bool,   // intr_clear_inc
    pin: bool,            // level last written to timerint
    prstn: bool,          // the reset input, active low
    pc: Pc,
    ready: bool)          // the thread has been woken and has not run yet

  function ToControl(data: nat): Control {
    Control(data % 2 == 1, data / 2 % 2 == 1, data / 4 % 2 == 1, data / 8 % 2 == 1)
  }

  function ControlValue(c: Control): nat {
    (if c.enable then 1 else 0) + (if c.exEn then 2 else 0) + (if c.exClk then 4 else 0) + (if c.intrEn then 8 else 0)
  }

  // ---------------------------------------------------------------- bus accesses

  /** `update_reg.notify()`. */
  function WakeOnUpdate(s: State): State {
    if s.pc.Disabled? || s.pc.Counting? then s.(ready := true) else s
  }

  /** `intr_clear.notify()`. */
  function WakeOnClear(s: State): State {
    if s.pc.Counting? then s.(ready := true) else s
  }

  function Write(s: State, addr: nat, data: nat): State {
    if addr == CTRL then WakeOnUpdate(s.(ctrl := ToControl(data)))
    else if addr == VALUE then WakeOnUpdate(s.(value := data))
    else if addr == RELOAD then WakeOnUpdate(s.(reload := data, value := data))
    else if addr == INTSTATUS && data % 2 == 1 then WakeOnClear(s.(intrStatus := false, clearPending := true))
    else s
  }

  function Read(s: State, addr: nat): Option<nat> {
    if addr == CTRL then Some(ControlValue(s.ctrl))
    else if addr == VALUE then Some(s.value)
    else if addr == RELOAD then Some(s.reload)
    else if addr == INTSTATUS then Some(if s.intrStatus then 1 else 0)
    else None
  }

  // ---------------------------------------------------------------- the thread

  /** From the top of the loop to the next wait. */
  function LoopTop(s: State): State {
    var t := s.(ready := false);
    if !s.prstn then t.(ctrl := OFF, value := 0, reload := 0, intrStatus := false, pin := false, pc := InReset)
    else if !s.ctrl.enable then t.(pc := Disabled)
    else t.(pc := Counting)
  }

  /** This wake takes part in the count. */
  predicate Counts(s: State, extin: bool) {
    !s.clearPending && (!s.ctrl.exEn || extin)
  }

  /** What follows the counting wait. */
  function CountDown(s: State, extin: bool): State {
    if s.clearPending then s.(clearPending := false, pin := false)
    else if s.ctrl.exEn && !extin then s
    else if s.value == 0 then s.(value := s.reload, intrStatus := true, pin := s.ctrl.intrEn || s.pin)
    else s.(value := s.value - 1)
  }

  function RunThread(s: State, extin: bool): State {
    LoopTop(if s.pc.Counting? then CountDown(s, extin) else s)
  }

  // ---------------------------------------------------------------- runs

  datatype Action =
    | BusWrite(addr: nat, data: nat)
    | ResetPin(level: bool)
    | Trigger                  // tick_period has elapsed, or a rising edge of extin
    | Run(extin: bool)

  function Step(s: State, a: Action): State {
    match a
    case BusWrite(addr, data) => Write(s, addr, data)
    case ResetPin(level) =>
      var wakes := level != s.prstn && (if level then s.pc.InReset? else s.pc.Disabled? || s.pc.Counting?);
      s.(prstn := level, ready := s.ready || wakes)
    case Trigger => if s.pc.Counting? then s.(ready := true) else s
    case Run(extin) => if s.ready then RunThread(s, extin) else s
  }

  datatype History = PowerUp(prstn: bool) | Then(before: History, act: Action)

  function End(r: History): State {
    match r
    case PowerUp(level) => State(OFF, 0, 0, false, false, false, level, Starting, true)
    case Then(q, a) => Step(End(q), a)
  }

  // ---------------------------------------------------------------- undisturbed counting

  /** A timer that is enabled, out of reset, and has no clear to serve. */
  predicate Free(s: State) {
    s.pc.Counting? && s.ctrl.enable && s.prstn && !s.clearPending && !s.ready
  }

  /** One trigger and the thread's turn. */
  function Wake(s: State, extin: bool): State {
    Step(Step(s, Trigger), Run(extin))
  }

  function Wakes(s: State, exts: seq<bool>): State {
    if exts == [] then s else Wake(Wakes(s, exts[..|exts| - 1]), exts[|exts| - 1])
  }

  /** Wakes that count: all of them, or those with extin high when EX_EN gates the count. */
  function Counted(s: State, exts: seq<bool>): nat {
    if exts == [] then 0
    else Counted(s, exts[..|exts| - 1]) + if !s.ctrl.exEn || exts[|exts| - 1] then 1 else 0
  }

  /** Wakes that find the counter at zero and reload it. */
  function Expiries(s: State, exts: seq<bool>): nat {
    if exts == [] then 0
    else
      var t := Wakes(s, exts[..|exts| - 1]);
      Expiries(s, exts[..|exts| - 1]) + if Counts(t, exts[|exts| - 1]) && t.value == 0 then 1 else 0
  }
}
