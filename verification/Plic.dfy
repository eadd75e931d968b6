/**
 The platform-level interrupt controller: level-sensitive sources, a
 claim/complete gateway and one hart context (chapters 7 to 9 of the RISC-V
 Platform-Level Interrupt Controller Specification).
 */
module Plic {
  import opened Arithmetic
  import opened Tlm

  const PENDING: nat := 0x001000
  const ENABLE: nat := 0x002000
  const THRESHOLD: nat := 0x200000
  const CLAIM: nat := 0x200004

  datatype State = State(
    priority: seq<nat>,    // by id; index 0 unused
    claimed: seq<bool>,    // by id: the source is being serviced
    enable: nat,           // bit id
    threshold: nat,
    lines: seq<bool>,      // irq_in, source id = index + 1
    meip: bool,            // level last given to set_irq for cause 11
    ready: bool)           // on_sources has been triggered and has not run yet
  {
    /** Number of sources, `n_`. */
    function N(): nat {
      |lines|
    }
  }

  /** One 32-bit word of sources. */
  predicate Valid(s: State) {
    s.N() <= 31 && |s.priority| == s.N() + 1 && |s.claimed| == s.N() + 1
  }

  /** The word whose bit i is `bits[i]`. */
  function Encode(bits: seq<bool>): nat {
    if bits == [] then 0 else (if bits[0] then 1 else 0) + 2 * Encode(bits[1..])
  }

  predicate Eligible(s: State, id: nat)
    requires Valid(s)
  {
    1 <= id <= s.N() && s.lines[id - 1] && Bit(s.enable, Pow2(id)) && !s.claimed[id] && s.priority[id] > s.threshold
  }

  function EligibleIds(s: State): set<nat>
    requires Valid(s)
  {
    set id: nat | 1 <= id <= s.N() && Eligible(s, id)
  }

  function UpdateMeip(s: State): State
    requires Valid(s)
  {
    s.(meip := EligibleIds(s) != {})
  }

  /** The scan of `do_claim` over ids 1 to k. */
  function BestUpTo(s: State, k: nat): nat
    requires Valid(s) && k <= s.N()
  {
    if k == 0 then 0
    else
      var best := BestUpTo(s, k - 1);
      if Eligible(s, k) && s.priority[k] > PriorityOf(s, best) then k else best
  }

  function PriorityOf(s: State, best: nat): nat {
    if 0 < best < |s.priority| then s.priority[best] else 0
  }

  function Best(s: State): nat
    requires Valid(s)
  {
    BestUpTo(s, s.N())
  }

  function Claim(s: State): State
    requires Valid(s)
  {
    var best := Best(s);
    UpdateMeip(if 0 < best < |s.claimed| then s.(claimed := s.claimed[best := true]) else s)
  }

  function Complete(s: State, id: nat): State
    requires Valid(s)
  {
    UpdateMeip(if 1 <= id <= s.N() then s.(claimed := s.claimed[id := false]) else s)
  }

  // ---------------------------------------------------------------- bus accesses

  /** `ptr` is the 32-bit word in the buffer, or None for a null pointer. */
  datatype Access = Access(read: bool, addr: nat, len: nat, ptr: Option<nat>)

  predicate Refused(s: State, a: Access) {
    a.ptr.None? || a.len != 4 ||
    !(a.addr < 4 * (s.N() + 1) || a.addr == PENDING || a.addr == ENABLE || a.addr == THRESHOLD || a.addr == CLAIM)
  }

  function Write(s: State, addr: nat, value: nat): State
    requires Valid(s)
  {
    if addr < 4 * (s.N() + 1) then
      if addr / 4 >= 1 then UpdateMeip(s.(priority := s.priority[addr / 4 := value])) else s
    else if addr == ENABLE then UpdateMeip(s.(enable := value))
    else if addr == THRESHOLD then UpdateMeip(s.(threshold := value))
    else if addr == CLAIM then Complete(s, value)
    else s
  }

  /** The value read; only a read of CLAIM changes the state. */
  function Read(s: State, addr: nat): nat
    requires Valid(s)
  {
    if addr < 4 * (s.N() + 1) then s.priority[addr / 4]
    else if addr == PENDING then Encode([false] + s.lines)
    else if addr == ENABLE then s.enable
    else if addr == THRESHOLD then s.threshold
    else if addr == CLAIM then Best(s)
    else 0
  }

  /** New state, response and buffer word. */
  function Transport(s: State, a: Access): (State, Response, Option<nat>)
    requires Valid(s)
  {
    if Refused(s, a) then (s, AddressError, a.ptr)
    else if a.read then (if a.addr == CLAIM then Claim(s) else s, Ok, Some(Read(s, a.addr)))
    else (Write(s, a.addr, a.ptr.value), Ok, a.ptr)
  }

  // ---------------------------------------------------------------- runs

  datatype Action = Bus(access: Access) | Lines(lines: seq<bool>) | RunSources

  /** What an action does to the gateway. */
  datatype Event = Quiet | Claimed(id: nat) | Completed(id: nat)

  function Step(s: State, a: Action): State
    requires Valid(s)
  {
    match a
    case Bus(access) => Transport(s, access).0
    case Lines(lines) =>
      if |lines| == s.N() && lines != s.lines then s.(lines := lines, ready := true) else s
    case RunSources => if s.ready then UpdateMeip(s).(ready := false) else s
  }

  /** Seen from the bus alone: the value a claim read returned, or the id a complete write carried. */
  function Observed(s: State, a: Action): Event
    requires Valid(s)
  {
    if !a.Bus? || Refused(s, a.access) || a.access.addr != CLAIM then Quiet
    else if a.access.read then Claimed(Transport(s, a.access).2.value)
    else Completed(a.access.ptr.value)
  }

  datatype Run = PowerUp(sources: nat) | Then(before: Run, act: Action)

  function Initial(n: nat): State {
    State(seq(n + 1, _ => 0), seq(n + 1, _ => false), 0, 0, seq(n, _ => false), false, false)
  }

  function Sources(r: Run): nat {
    match r
    case PowerUp(n) => n
    case Then(q, _) => Sources(q)
  }

  function End(r: Run): (s: State)
    requires Sources(r) <= 31
    ensures Valid(s) && s.N() == Sources(r)
  {
    match r
    case PowerUp(n) => Initial(n)
    case Then(q, a) => Step(End(q), a)
  }

  function Last(r: Run): Event
    requires Sources(r) <= 31
  {
    match r
    case PowerUp(_) => Quiet
    case Then(q, a) => Observed(End(q), a)
  }

  /** The latest event for `id` among its claims and its completes is a claim. */
  predicate LatestIsClaim(r: Run, id: nat)
    requires Sources(r) <= 31
  {
    match r
    case PowerUp(_) => false
    case Then(q, _) =>
      if Last(r) == Claimed(id) then true
      else if Last(r) == Completed(id) then false
      else LatestIsClaim(q, id)
  }
}
