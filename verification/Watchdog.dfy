/**
 The SP805-style watchdog: a down counter whose first timeout raises an
 interrupt and whose second, if the first is not serviced, asserts reset.
 */
module Watchdog {

  const WDOG_LOAD: nat := 0x000
  const WDOG_VALUE: nat := 0x004
  const WDOG_CONTROL: nat := 0x008
  const WDOG_INTCLR: nat := 0x00C
  const WDOG_RIS: nat := 0x010
  const WDOG_MIS: nat := 0x014
  const WDOG_LOCK: nat := 0xC00
  const UNLOCK_KEY: nat := 0x1ACCE551

  /** The masked status, the levels computed from it, and the pins a later delta cycle drives. */
  datatype Outputs = Outputs(
    mis: bool, irqLevel: bool, resetLevel: bool,
    changed: bool,              // m_output_changed is pending
    irq: bool, reset: bool)     // the output pins

  datatype State = State(
    load: nat, counter: nat,    // 32 bits
    inten: bool, resen: bool,   // the two control bits
    ris: bool,
    locked: bool,
    resetAsserted: bool,
    out: Outputs)

  const INITIAL := State(0xFFFF_FFFF, 0xFFFF_FFFF, false, false, false, false, false,
                         Outputs(false, false, false, true, false, false))

  function UpdateOutputs(s: State): State {
    var mis := s.ris && s.inten;
    s.(out := Outputs(mis, mis, s.resetAsserted, true, s.out.irq, s.out.reset))
  }

  function Reload(s: State): State {
    s.(counter := s.load)
  }

  function HandleTimeout(s: State): State {
    if s.ris then
      if s.resen then UpdateOutputs(s.(resetAsserted := true)) else Reload(s)
    else
      Reload(UpdateOutputs(s.(ris := true)))
  }

  function ClearInterrupt(s: State): State {
    UpdateOutputs(Reload(s.(ris := false)))
  }

  /** One period of `counter_thread`. */
  function Tick(s: State): State {
    if !Counts(s) then s
    else if s.counter == 0 then HandleTimeout(s)
    else s.(counter := s.counter - 1)
  }

  predicate Counts(s: State) {
    s.inten && !s.resetAsserted
  }

  function WriteControl(s: State, data: nat): State {
    var t := s.(inten := data % 2 == 1, resen := data / 2 % 2 == 1);
    UpdateOutputs(if !s.inten && t.inten && !s.resetAsserted then Reload(t) else t)
  }

  function WriteReg(s: State, addr: nat, data: nat): State {
    if addr == WDOG_LOCK then s.(locked := data != UNLOCK_KEY)
    else if s.locked then s
    else if addr == WDOG_LOAD then Reload(s.(load := data))
    else if addr == WDOG_CONTROL then WriteControl(s, data)
    else if addr == WDOG_INTCLR then ClearInterrupt(s)
    else s
  }

  function Flag(b: bool): nat {
    if b then 1 else 0
  }

  /** The value of a register. */
  function Value(s: State, addr: nat): nat {
    if addr == WDOG_LOAD then s.load
    else if addr == WDOG_VALUE then s.counter
    else if addr == WDOG_CONTROL then Flag(s.inten) + 2 * Flag(s.resen)
    else if addr == WDOG_RIS then Flag(s.ris)
    else if addr == WDOG_MIS then Flag(s.out.mis)
    else if addr == WDOG_LOCK then Flag(s.locked)
    else Identification(addr)
  }

  const IDENTIFICATION: seq<nat> := [0x05, 0x18, 0x14, 0x00, 0x0D, 0xF0, 0x05, 0xB1]

  /** The identification registers at 0xFE0, 0xFE4 and so on; every other address reads 0. */
  function Identification(addr: nat): nat {
    if 0xFE0 <= addr < 0x1000 && addr % 4 == 0 then IDENTIFICATION[(addr - 0xFE0) / 4] else 0
  }

  function DriveOutputs(s: State): State {
    if s.out.changed then
      s.(out := s.out.(irq := s.out.irqLevel, reset := s.out.resetLevel, changed := false))
    else s
  }

  // ---------------------------------------------------------------- runs

  datatype Action = Ticking | Write(addr: nat, data: nat) | Read(addr: nat) | Drive

  function Step(s: State, a: Action): State {
    match a
    case Ticking => Tick(s)
    case Write(addr, data) => WriteReg(s, addr % 0x1000, data)
    case Read(_) => UpdateOutputs(s)
    case Drive => DriveOutputs(s)
  }

  datatype Run = From(start: State) | Then(before: Run, act: Action)

  function Start(r: Run): State {
    match r
    case From(s) => s
    case Then(q, _) => Start(q)
  }

  function End(r: Run): State {
    match r
    case From(s) => s
    case Then(q, a) => Step(End(q), a)
  }

  /** Ticks at which the counter was running. */
  function CountedTicks(r: Run): nat {
    match r
    case From(_) => 0
    case Then(q, a) => CountedTicks(q) + if a.Ticking? && End(q).inten && !End(q).resetAsserted then 1 else 0
  }

  predicate IsLoadWrite(s: State, a: Action) {
    a.Write? && a.addr % 0x1000 == WDOG_LOAD && !s.locked
  }

  /** WdogLoad is not written in the run. */
  predicate LoadKept(r: Run) {
    match r
    case From(_) => true
    case Then(q, a) => LoadKept(q) && !IsLoadWrite(End(q), a)
  }

  predicate IsUnlock(a: Action) {
    a.Write? && a.addr % 0x1000 == WDOG_LOCK && a.data == UNLOCK_KEY
  }

  predicate NoUnlock(r: Run) {
    match r
    case From(_) => true
    case Then(q, a) => NoUnlock(q) && !IsUnlock(a)
  }

  /** The run without its bus accesses. */
  function Erased(r: Run): Run {
    match r
    case From(_) => r
    case Then(q, a) => if a.Ticking? || a.Drive? then Then(Erased(q), a) else Erased(q)
  }

  function Ticks(s: State, k: nat): State {
    if k == 0 then s else Tick(Ticks(s, k - 1))
  }
}
