/**
 The core-local interruptor: a timer process that re-arms one event, and bus
 accesses that patch `mtimecmp` byte by byte.

 Time is the simulator's 64-bit count of resolution units.  An event holds at
 most one pending notification, and a delta notification overrides a timed one
 (clause 5.10 of IEEE 1666-2011).
 */
module Clint {
  import opened Arithmetic
  import opened Bytes
  import opened Tlm

  const SCALER: nat := 1_000_000
  const REG_BYTES: nat := 8   // width of a register in bytes
  const MSIP: nat := 0x0000
  const MTIMECMP: nat := 0x4000
  const MTIME: nat := 0xBFF8

  datatype Pending = Nothing | Delta | At(time: nat)

  datatype State = State(
    mtimecmp: nat,     // 64 bits
    msip: nat,
    mtip: bool,        // level last given to set_irq for cause 7
    msipLevel: bool,   // level last given to set_irq for cause 3
    now: nat,          // 64 bits
    event: Pending,
    ready: bool)       // timer_proc has been woken and has not run yet

  // ---------------------------------------------------------------- slices

  function SliceRead(value: nat, sub: nat, len: nat): (r: seq<Byte>)
    requires sub + len <= REG_BYTES
    ensures |r| == len
  {
    FromNat(value, REG_BYTES)[sub..sub + len]
  }

  function SliceWrite(value: nat, sub: nat, src: seq<Byte>): (r: nat)
    requires sub + |src| <= REG_BYTES
    ensures r < TWO64
  {
    Powers();
    ToNat(Patch(FromNat(value, REG_BYTES), sub, src))
  }

  // ---------------------------------------------------------------- the timer process

  function NowMtime(now: nat): nat {
    now / SCALER
  }

  /** What section 3.2.1 of the RISC-V privileged architecture asks of MTIP, with 0 meaning "off". */
  predicate Due(mtimecmp: nat, now: nat) {
    mtimecmp != 0 && NowMtime(now) >= mtimecmp
  }

  /** `mtimecmp * kScaler` in 64-bit arithmetic. */
  function Goal(mtimecmp: nat): nat {
    mtimecmp * SCALER % TWO64
  }

  function NotifyAt(e: Pending, time: nat): Pending {
    match e
    case Nothing => At(time)
    case Delta => Delta
    case At(t) => if t <= time then e else At(time)
  }

  function Reschedule(s: State): State {
    if s.mtimecmp == 0 then s
    else s.(event := if Goal(s.mtimecmp) > s.now then NotifyAt(s.event, Goal(s.mtimecmp)) else Delta)
  }

  /** One turn of the `timer_proc` loop. */
  function RunTimer(s: State): State {
    var t := s.(ready := false);
    if Due(s.mtimecmp, s.now) then t.(mtip := true) else Reschedule(t.(mtip := false))
  }

  // ---------------------------------------------------------------- bus accesses

  /** `ptr` is the buffer before the access, or None for a null pointer. */
  datatype Access = Access(read: bool, addr: nat, len: nat, ptr: Option<seq<Byte>>)

  predicate WellFormed(a: Access) {
    a.addr + a.len < TWO64 && (a.ptr.Some? ==> |a.ptr.value| == a.len)
  }

  predicate HitsMtimecmp(a: Access) {
    a.addr >= MTIMECMP && a.addr + a.len <= MTIMECMP + REG_BYTES
  }

  predicate WritesMtimecmp(a: Access) {
    a.ptr.Some? && !a.read && HitsMtimecmp(a)
  }

  /** New state, response and buffer after the access. */
  function Transport(s: State, a: Access): (State, Response, Option<seq<Byte>>)
    requires WellFormed(a)
  {
    if a.ptr.None? then (s, GenericError, None)
    else if a.addr == MSIP && a.len == 4 then
      if a.read then (s, Ok, Some(FromNat(s.msip, 4)))
      else
        var v := ToNat(a.ptr.value) % 2;
        (s.(msip := v, msipLevel := v != 0), Ok, a.ptr)
    else if HitsMtimecmp(a) then
      if a.read then (s, Ok, Some(SliceRead(s.mtimecmp, a.addr - MTIMECMP, a.len)))
      else
        (s.(mtimecmp := SliceWrite(s.mtimecmp, a.addr - MTIMECMP, a.ptr.value), event := Delta), Ok, a.ptr)
    else if a.addr >= MTIME && a.addr + a.len <= MTIME + REG_BYTES then
      if a.read then (s, Ok, Some(SliceRead(NowMtime(s.now), a.addr - MTIME, a.len))) else (s, Ok, a.ptr)
    else (s, AddressError, a.ptr)
  }

  // ---------------------------------------------------------------- runs

  datatype Action = Bus(access: Access) | DeltaPhase | Wake | Advance(time: nat)

  predicate Settled(s: State) {
    !s.ready && !s.event.Delta?
  }

  /** Time moves only when nothing is left at the present instant, and not past the timed notification. */
  predicate CanStep(s: State, a: Action) {
    match a
    case Bus(access) => WellFormed(access)
    case DeltaPhase => s.event.Delta? && !s.ready
    case Wake => s.ready
    case Advance(t) => Settled(s) && s.now < t < TWO64 && (s.event.At? ==> t <= s.event.time)
  }

  function Step(s: State, a: Action): State {
    if !CanStep(s, a) then s else
    match a
    case Bus(access) => Transport(s, access).0
    case DeltaPhase => s.(event := Nothing, ready := true)
    case Wake => RunTimer(s)
    case Advance(t) =>
      if s.event == At(t) then s.(now := t, event := Nothing, ready := true) else s.(now := t)
  }

  datatype Run = PowerUp | Then(before: Run, act: Action)

  const INITIAL := State(0, 0, false, false, 0, Nothing, false)

  function End(r: Run): State {
    match r
    case PowerUp => INITIAL
    case Then(q, a) => Step(End(q), a)
  }

  predicate IsWrite(s: State, a: Action) {
    a.Bus? && CanStep(s, a) && WritesMtimecmp(a.access)
  }

  /** Writes of `mtimecmp` in the run. */
  function Writes(r: Run): nat {
    match r
    case PowerUp => 0
    case Then(q, a) => Writes(q) + if IsWrite(End(q), a) then 1 else 0
  }

  /** Turns of the timer process in the run. */
  function Wakes(r: Run): nat {
    match r
    case PowerUp => 0
    case Then(q, a) => Wakes(q) + if a.Wake? && CanStep(End(q), a) then 1 else 0
  }

  /** Turns made ready by a delta notification. */
  function DeltaWakes(r: Run): nat {
    match r
    case PowerUp => 0
    case Then(q, a) => DeltaWakes(q) + if a.DeltaPhase? && CanStep(End(q), a) then 1 else 0
  }

  /** The action brings time to the armed instant. */
  predicate ReachesInstant(s: State, a: Action) {
    a.Advance? && CanStep(s, a) && s.event == At(a.time)
  }

  /** Turns made ready by the timed notification. */
  function TimedWakes(r: Run): nat {
    match r
    case PowerUp => 0
    case Then(q, a) => TimedWakes(q) + if ReachesInstant(End(q), a) then 1 else 0
  }
}
