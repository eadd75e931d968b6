/** Every run of bus accesses, wakes and time steps drives MTIP as the specification asks. */
module ClintTheorems {
  import opened Arithmetic
  import opened Bytes
  import opened Tlm
  import opened Clint

  // ---------------------------------------------------------------- MTIP and its specification

  /** Nothing is armed exactly when the level is final; otherwise the goal is armed and ahead. */
  predicate Armed(s: State) {
    if s.mtimecmp == 0 || Due(s.mtimecmp, s.now) then s.event == Nothing
    else s.event == At(Goal(s.mtimecmp)) && s.now < Goal(s.mtimecmp)
  }

  predicate Inv(s: State) {
    && s.now < TWO64 && s.mtimecmp < TWO64
    && (Settled(s) ==> s.mtip == Due(s.mtimecmp, s.now) && Armed(s))
    && (s.ready ==> !s.event.At?)
  }

  lemma InvStep(s: State, a: Action)
    requires Inv(s)
    ensures Inv(Step(s, a))
  {
  }

  lemma {:induction false} InvAlways(r: Run)
    ensures Inv(End(r))
  {
    match r
    case PowerUp =>
    case Then(q, a) =>
      InvAlways(q);
      InvStep(End(q), a);
  }

  /** In every settled state of every run, MTIP is high exactly when it is due. */
  lemma TimerAgrees(r: Run)
    requires Settled(End(r))
    ensures End(r).mtip <==> End(r).mtimecmp != 0 && End(r).now / SCALER >= End(r).mtimecmp
  {
    InvAlways(r);
  }

  // ---------------------------------------------------------------- the exact instant

  /** The compare value has been looked at since it was last written. */
  predicate Served(r: Run) {
    match r
    case PowerUp => true
    case Then(q, a) =>
      if IsWrite(End(q), a) then false
      else Served(q) || (a.Wake? && CanStep(End(q), a) && !End(q).event.Delta?)
  }

  /** Once served, a wake in progress comes from the armed goal; a product that wraps keeps MTIP low. */
  predicate ServedInv(s: State, served: bool) {
    if !served then !Settled(s)
    else
      && (s.ready ==> s.mtimecmp != 0 && !s.mtip && (s.now == Goal(s.mtimecmp) || !NoWrap(s.mtimecmp)))
      && (s.event.Delta? ==> !s.mtip && !NoWrap(s.mtimecmp))
  }

  lemma ServedStep(s: State, a: Action, served: bool)
    requires Inv(s) && ServedInv(s, served)
    ensures IsWrite(s, a) ==> ServedInv(Step(s, a), false)
    ensures !IsWrite(s, a) ==> ServedInv(Step(s, a), served || (a.Wake? && CanStep(s, a) && !s.event.Delta?))
  {
    RescheduleBranch(s);
  }

  lemma {:induction false} ServedAlways(r: Run)
    ensures ServedInv(End(r), Served(r))
  {
    match r
    case PowerUp =>
    case Then(q, a) =>
      InvAlways(q);
      ServedAlways(q);
      ServedStep(End(q), a, Served(q));
  }

  /** Once served, MTIP rises at `mtimecmp` microseconds sharp; otherwise it rises because the time has passed. */
  lemma RisesOnTime(r: Run, a: Action)
    requires !End(r).mtip && End(Then(r, a)).mtip
    ensures a == Wake && End(r).now >= End(r).mtimecmp * SCALER
    ensures Served(r) ==> End(r).now == End(r).mtimecmp * SCALER
  {
    InvAlways(r);
    ServedAlways(r);
  }

  /** MTIP falls only when a new compare value is looked at. */
  lemma FallsOnlyAfterWrite(r: Run, a: Action)
    requires End(r).mtip && !End(Then(r, a)).mtip
    ensures a == Wake && !Served(r)
  {
    InvAlways(r);
    ServedAlways(r);
    HighMeansDue(r);
  }

  lemma {:induction false} HighMeansDue(r: Run)
    ensures Served(r) && End(r).mtip ==> Due(End(r).mtimecmp, End(r).now)
  {
    match r
    case PowerUp =>
    case Then(q, a) =>
      InvAlways(q);
      ServedAlways(q);
      HighMeansDue(q);
  }

  // ---------------------------------------------------------------- wake bound and the 64-bit goal

  predicate NoWrap(mtimecmp: nat) {
    mtimecmp * SCALER < TWO64
  }

  /** The zero-time branch of `reschedule` is taken only with a product that does not fit in 64 bits. */
  lemma RescheduleBranch(s: State)
    ensures s.mtimecmp != 0 && !Due(s.mtimecmp, s.now) && Goal(s.mtimecmp) <= s.now ==> !NoWrap(s.mtimecmp)
  {
  }

  /** An event keeps the earliest of its notifications, a delta notification before all timed ones. */
  lemma EarliestWins(e: Pending, time: nat)
    ensures NotifyAt(e, time).Delta? <==> e.Delta?
    ensures !e.Delta? ==> NotifyAt(e, time) == At(if e.At? then Min(e.time, time) else time)
  {
  }

  /** One delta cycle settles the timer exactly when its goal is not stuck in the past. */
  lemma SettlesIff(s: State)
    requires s.event.Delta? && !s.ready && s.now < TWO64
    ensures Settled(Step(Step(s, DeltaPhase), Wake)) <==>
            s.mtimecmp == 0 || Due(s.mtimecmp, s.now) || Goal(s.mtimecmp) > s.now
  {
  }

  function Spin(s: State, n: nat): State
    decreases n
  {
    if n == 0 then s else Spin(Step(Step(s, DeltaPhase), Wake), n - 1)
  }

  /** A stuck goal spins for ever: after any number of delta cycles time still cannot advance. */
  lemma {:induction false} StuckGoalSpins(s: State, n: nat, time: nat)
    requires s.event.Delta? && !s.ready && s.mtimecmp != 0
    requires !Due(s.mtimecmp, s.now) && Goal(s.mtimecmp) <= s.now
    ensures !Settled(Spin(s, n)) && Spin(s, n).now == s.now && !CanStep(Spin(s, n), Advance(time))
    decreases n
  {
    if n > 0 {
      StuckGoalSpins(Step(Step(s, DeltaPhase), Wake), n - 1, time);
    }
  }

  /** What happens when time reaches the armed goal: the compare value is due, or the goal is stuck for ever. */
  lemma ReachedGoal(r: Run, n: nat, time: nat)
    requires Settled(End(r)) && End(r).event.At?
    ensures var s := End(r);
            var q := Then(Then(r, Advance(s.event.time)), Wake);
            && s.event.time == Goal(s.mtimecmp) == End(q).now
            && (NoWrap(s.mtimecmp) ==> Settled(End(q)) && End(q).mtip)
            && (!NoWrap(s.mtimecmp) ==>
                  !Settled(Spin(End(q), n)) && !End(q).mtip && !CanStep(Spin(End(q), n), Advance(time)))
  {
    InvAlways(r);
    var s := End(r);
    var t := Step(s, Advance(s.event.time));
    assert End(Then(r, Advance(s.event.time))) == t;
    assert t.now == Goal(s.mtimecmp) && t.ready && t.event == Nothing && t.mtimecmp == s.mtimecmp;
    if NoWrap(s.mtimecmp) {
      assert Due(t.mtimecmp, t.now);
    } else {
      assert !Due(t.mtimecmp, t.now);
      StuckGoalSpins(Step(t, Wake), n, time);
    }
  }

  function Store(addr: nat, word: seq<Byte>): Action {
    Bus(Access(false, addr, |word|, Some(word)))
  }

  const STUCK: seq<Byte> := [0, 0, 0, 0, 0, 0, 0, 4]

  lemma StuckValue()
    ensures SliceWrite(0, 0, STUCK) == 0x0400_0000_0000_0000
  {
    var zeros := FromNat(0, REG_BYTES);
    assert Patch(zeros, 0, STUCK) == STUCK;
    assert STUCK == [0, 0, 0, 0] + [0, 0, 0, 4];
    ToNatConcat([0, 0, 0, 0], [0, 0, 0, 4]);
    ToNatConcat([0, 0], [0, 0]);
    ToNatConcat([0, 0], [0, 4]);
    assert [0, 0, 0, 0] == [0, 0] + [0, 0] && [0, 0, 0, 4] == [0, 0] + [0, 4];
    assert ToNat([0, 0]) == 0 && ToNat([0, 4]) == 0x400;
    Powers();
  }

  /** One store of 2^58 after power-up stops time for ever: its product with 10^6 is 0 in 64 bits. */
  lemma OneStoreSpins(n: nat, time: nat)
    ensures var s := End(Then(PowerUp, Store(MTIMECMP, STUCK)));
            s.mtimecmp == 0x0400_0000_0000_0000 && !Settled(Spin(s, n)) && !CanStep(Spin(s, n), Advance(time))
  {
    StuckValue();
    StuckGoalSpins(End(Then(PowerUp, Store(MTIMECMP, STUCK))), n, time);
  }

  predicate AlwaysFits(r: Run) {
    NoWrap(End(r).mtimecmp) && (r.Then? ==> AlwaysFits(r.before))
  }

  /** A timed wake is still to come without another write. */
  function OwedTimed(s: State): nat {
    match s.event
    case Nothing => if s.ready && s.mtimecmp != 0 && !Due(s.mtimecmp, s.now) then 1 else 0
    case _ => 1
  }

  function OwedDelta(s: State): nat {
    if s.event.Delta? then 1 else 0
  }

  lemma OwedStep(s: State, a: Action)
    requires Inv(s) && NoWrap(s.mtimecmp)
    ensures var t := Step(s, a);
            var write := if IsWrite(s, a) then 1 else 0;
            && (if ReachesInstant(s, a) then 1 else 0) + OwedTimed(t) <= OwedTimed(s) + write
            && (if a.DeltaPhase? && CanStep(s, a) then 1 else 0) + OwedDelta(t) <= OwedDelta(s) + write
  {
    RescheduleBranch(s);
  }

  /**
   Each write of `mtimecmp` costs at most one turn of the timer process by a delta
   notification and at most one by the timed one, and there are no other turns.
   */
  lemma {:induction false} WakeBound(r: Run)
    requires AlwaysFits(r)
    ensures DeltaWakes(r) + OwedDelta(End(r)) <= Writes(r)
    ensures TimedWakes(r) + OwedTimed(End(r)) <= Writes(r)
    ensures Wakes(r) + (if End(r).ready then 1 else 0) == DeltaWakes(r) + TimedWakes(r)
  {
    match r
    case PowerUp =>
    case Then(q, a) =>
      WakeBound(q);
      InvAlways(q);
      OwedStep(End(q), a);
  }

  // ---------------------------------------------------------------- the software interrupt

  predicate WritesMsip(s: State, a: Action) {
    a.Bus? && CanStep(s, a) && !a.access.read && a.access.ptr.Some? && a.access.addr == MSIP && a.access.len == 4
  }

  /** Bit 0 of the word last written to MSIP. */
  function LastMsip(r: Run): nat {
    match r
    case PowerUp => 0
    case Then(q, a) => if WritesMsip(End(q), a) then ToNat(a.access.ptr.value) % 2 else LastMsip(q)
  }

  /** The register and its level follow bit 0 of the last write to it; nothing else touches them. */
  lemma {:induction false} SoftwareInterrupt(r: Run)
    ensures End(r).msip == LastMsip(r) < 2 && (End(r).msipLevel <==> LastMsip(r) == 1)
  {
    match r
    case PowerUp =>
    case Then(q, a) => SoftwareInterrupt(q);
  }

  // ---------------------------------------------------------------- byte slices

  /** A slice write gives each byte it covers its new value and leaves the others alone. */
  lemma SliceWriteBytes(value: nat, sub: nat, src: seq<Byte>)
    requires sub + |src| <= REG_BYTES
    ensures FromNat(SliceWrite(value, sub, src), REG_BYTES) == Patch(FromNat(value, REG_BYTES), sub, src)
  {
    RoundTripBytes(Patch(FromNat(value, REG_BYTES), sub, src));
  }

  /** What is written is what is read back, at any alignment. */
  lemma SliceReadBack(value: nat, sub: nat, src: seq<Byte>)
    requires sub + |src| <= REG_BYTES
    ensures SliceRead(SliceWrite(value, sub, src), sub, |src|) == src
  {
    SliceWriteBytes(value, sub, src);
  }

  /** Two half writes, in either order, are one 64-bit write. */
  lemma HalvesMakeWhole(value: nat, lo: seq<Byte>, hi: seq<Byte>)
    requires |lo| == 4 && |hi| == 4
    ensures SliceWrite(SliceWrite(value, 0, lo), 4, hi) == SliceWrite(value, 0, lo + hi)
    ensures SliceWrite(SliceWrite(value, 4, hi), 0, lo) == SliceWrite(value, 0, lo + hi)
  {
    SliceWriteBytes(value, 0, lo);
    SliceWriteBytes(value, 4, hi);
    var whole := Patch(FromNat(value, REG_BYTES), 0, lo + hi);
    assert Patch(Patch(FromNat(value, REG_BYTES), 0, lo), 4, hi) == whole;
    assert Patch(Patch(FromNat(value, REG_BYTES), 4, hi), 0, lo) == whole;
  }

  /** Full-width reads return the compare value and the microseconds since the start, little-endian. */
  lemma RegisterReads(r: Run, buffer: seq<Byte>)
    requires |buffer| == REG_BYTES
    ensures var s := End(r);
            var cmp := Transport(s, Access(true, MTIMECMP, REG_BYTES, Some(buffer))).2;
            var time := Transport(s, Access(true, MTIME, REG_BYTES, Some(buffer))).2;
            cmp.Some? && ToNat(cmp.value) == s.mtimecmp && time.Some? && ToNat(time.value) == s.now / SCALER
  {
    var s := End(r);
    InvAlways(r);
    Powers();
    RoundTripNat(s.mtimecmp, REG_BYTES);
    RoundTripNat(s.now / SCALER, REG_BYTES);
    var cmp, time := FromNat(s.mtimecmp, REG_BYTES), FromNat(s.now / SCALER, REG_BYTES);
    assert cmp[0..REG_BYTES] == cmp && time[0..REG_BYTES] == time;
  }

  // ---------------------------------------------------------------- the registers on the bus, byte by byte

  /** The action writes byte k of mtimecmp. */
  predicate WritesByte(a: Action, k: nat) {
    && a.Bus? && !a.access.read && a.access.ptr.Some? && WellFormed(a.access)
    && 0x4000 <= a.access.addr <= 0x4000 + k < a.access.addr + a.access.len <= 0x4008
  }

  /** The byte the bus last wrote there, or 0. */
  function LastByte(r: Run, k: nat): Byte {
    match r
    case PowerUp => 0
    case Then(q, a) => if WritesByte(a, k) then a.access.ptr.value[0x4000 + k - a.access.addr] else LastByte(q, k)
  }

  lemma CompareAfter(s: State, a: Action)
    ensures IsWrite(s, a) ==>
              && 0x4000 <= a.access.addr && a.access.addr + |a.access.ptr.value| <= 0x4008
              && Step(s, a).mtimecmp == SliceWrite(s.mtimecmp, a.access.addr - 0x4000, a.access.ptr.value)
    ensures !IsWrite(s, a) ==> Step(s, a).mtimecmp == s.mtimecmp
  {
  }

  lemma CompareByteStep(s: State, a: Action, k: nat)
    requires k < REG_BYTES
    ensures FromNat(Step(s, a).mtimecmp, REG_BYTES)[k] ==
            if WritesByte(a, k) then a.access.ptr.value[0x4000 + k - a.access.addr]
            else FromNat(s.mtimecmp, REG_BYTES)[k]
  {
    CompareAfter(s, a);
    if IsWrite(s, a) {
      var sub, src := a.access.addr - 0x4000, a.access.ptr.value;
      SliceWriteBytes(s.mtimecmp, sub, src);
      assert WritesByte(a, k) <==> sub <= k < sub + |src|;
    }
  }

  /** In every run each byte of mtimecmp is the one last written to its address. */
  lemma {:induction false} CompareIsHistory(r: Run, k: nat)
    requires k < REG_BYTES
    ensures FromNat(End(r).mtimecmp, REG_BYTES)[k] == LastByte(r, k)
  {
    match r
    case PowerUp => ByteOf(0, REG_BYTES, k);
    case Then(q, a) =>
      CompareIsHistory(q, k);
      CompareByteStep(End(q), a, k);
  }

  /** A bus read, with the state it leaves, its response and the buffer. */
  function BusRead(s: State, addr: nat, buffer: seq<Byte>): (State, Response, Option<seq<Byte>>)
    requires addr + |buffer| < TWO64
  {
    Transport(s, Access(true, addr, |buffer|, Some(buffer)))
  }

  lemma CompareSlice(s: State, sub: nat, buffer: seq<Byte>)
    requires sub + |buffer| <= REG_BYTES
    ensures BusRead(s, 0x4000 + sub, buffer) == (s, Ok, Some(FromNat(s.mtimecmp, REG_BYTES)[sub..sub + |buffer|]))
  {
  }

  lemma TimeSlice(s: State, sub: nat, buffer: seq<Byte>)
    requires sub + |buffer| <= REG_BYTES
    ensures BusRead(s, 0xBFF8 + sub, buffer) ==
            (s, Ok, Some(FromNat(s.now / 1_000_000, REG_BYTES)[sub..sub + |buffer|]))
  {
  }

  /** A read of any part of mtimecmp returns the bytes last written there. */
  lemma CompareRead(r: Run, sub: nat, buffer: seq<Byte>, i: nat)
    requires sub + |buffer| <= REG_BYTES && i < |buffer|
    ensures var (t, response, data) := BusRead(End(r), 0x4000 + sub, buffer);
            && t == End(r) && response == Ok && data.Some? && |data.value| == |buffer|
            && data.value[i] == LastByte(r, sub + i)
  {
    var s := End(r);
    CompareSlice(s, sub, buffer);
    CompareIsHistory(r, sub + i);
    var bytes := FromNat(s.mtimecmp, REG_BYTES);
    assert bytes[sub..sub + |buffer|][i] == bytes[sub + i];
  }

  /** A read of any part of mtime returns those bytes of the microseconds since the start. */
  lemma TimeRead(r: Run, sub: nat, buffer: seq<Byte>, i: nat)
    requires sub + |buffer| <= REG_BYTES && i < |buffer|
    ensures var (t, response, data) := BusRead(End(r), 0xBFF8 + sub, buffer);
            && t == End(r) && response == Ok && data.Some? && |data.value| == |buffer|
            && data.value[i] == End(r).now / 1_000_000 / Pow256(sub + i) % 0x100
  {
    var s := End(r);
    TimeSlice(s, sub, buffer);
    ByteOf(s.now / 1_000_000, REG_BYTES, sub + i);
    var bytes := FromNat(s.now / 1_000_000, REG_BYTES);
    assert bytes[sub..sub + |buffer|][i] == bytes[sub + i];
  }

  /** A 4-byte read of MSIP returns the bit last written. */
  lemma SoftwareInterruptRead(r: Run, buffer: seq<Byte>)
    requires |buffer| == 4
    ensures BusRead(End(r), 0x0000, buffer) == (End(r), Ok, Some([LastMsip(r), 0, 0, 0]))
  {
    SoftwareInterrupt(r);
    assert FromNat(0, 1) == [0];
    assert FromNat(0, 2) == [0, 0];
    assert FromNat(0, 3) == [0, 0, 0];
    var v := LastMsip(r);
    assert FromNat(v, 4) == [v % 0x100] + FromNat(v / 0x100, 3) == [v, 0, 0, 0];
  }

  predicate Inside(a: Access, base: nat) {
    base <= a.addr && a.addr + a.len <= base + 8
  }

  /** Which accesses are answered with an error; those change neither the state nor the buffer. */
  lemma BusAnswer(s: State, a: Access)
    requires WellFormed(a)
    ensures var (t, response, data) := Transport(s, a);
            var known := (a.addr == 0x0000 && a.len == 4) || Inside(a, 0x4000) || Inside(a, 0xBFF8);
            && response == (if a.ptr.None? then GenericError else if known then Ok else AddressError)
            && (response != Ok || Inside(a, 0xBFF8) ==> t == s)
            && (response != Ok || !a.read ==> data == a.ptr)
  {
  }

  lemma Halves(value: nat)
    requires value < TWO64
    ensures value == ToNat(FromNat(value, REG_BYTES)[..4]) + 0x1_0000_0000 * ToNat(FromNat(value, REG_BYTES)[4..])
  {
    Powers();
    RoundTripNat(value, 8);
    var bs := FromNat(value, REG_BYTES);
    ToNatConcat(bs[..4], bs[4..]);
    assert bs[..4] + bs[4..] == bs;
  }

  /** A half write replaces that half of the bytes. */
  lemma SliceWriteHalf(value: nat, half: seq<Byte>)
    requires value < TWO64 && |half| == 4
    ensures SliceWrite(value, 0, half) == ToNat(half) + 0x1_0000_0000 * ToNat(FromNat(value, REG_BYTES)[4..])
    ensures SliceWrite(value, 4, half) == ToNat(FromNat(value, REG_BYTES)[..4]) + 0x1_0000_0000 * ToNat(half)
  {
    Powers();
    var bs := FromNat(value, REG_BYTES);
    assert Patch(bs, 0, half) == half + bs[4..];
    ToNatConcat(half, bs[4..]);
    assert Patch(bs, 4, half) == bs[..4] + half;
    ToNatConcat(bs[..4], half);
  }

  /** The same, for a number given by its halves. */
  lemma SliceWriteParts(value: nat, lo: nat, hi: nat, half: seq<Byte>)
    requires lo < 0x1_0000_0000 && hi < 0x1_0000_0000 && value == lo + hi * 0x1_0000_0000 && |half| == 4
    ensures SliceWrite(value, 0, half) == ToNat(half) + hi * 0x1_0000_0000
    ensures SliceWrite(value, 4, half) == lo + ToNat(half) * 0x1_0000_0000
  {
    var bs := FromNat(value, REG_BYTES);
    var lo', hi' := ToNat(bs[..4]), ToNat(bs[4..]);
    assert lo' == lo && hi' == hi by {
      Powers();
      Halves(value);
      UniqueHalves(lo, hi, lo', hi');
    }
    SliceWriteHalf(value, half);
  }

  lemma UniqueHalves(lo: nat, hi: nat, lo': nat, hi': nat)
    requires lo < 0x1_0000_0000 && lo' < 0x1_0000_0000
    requires lo + hi * 0x1_0000_0000 == lo' + 0x1_0000_0000 * hi'
    ensures lo == lo' && hi == hi'
  {
  }

  // ---------------------------------------------------------------- updating mtimecmp from a 32-bit hart

  const ALL_ONES: seq<Byte> := [0xFF, 0xFF, 0xFF, 0xFF]

  function Extend(r: Run, acts: seq<Action>): Run {
    if acts == [] then r else Then(Extend(r, acts[..|acts| - 1]), acts[|acts| - 1])
  }

  /** Any wakes, time steps and bus accesses, but no write of `mtimecmp`. */
  predicate NoStores(acts: seq<Action>) {
    forall i :: 0 <= i < |acts| && acts[i].Bus? ==> !WritesMtimecmp(acts[i].access)
  }

  lemma {:induction false} ExtendKeeps(r: Run, acts: seq<Action>)
    requires NoStores(acts)
    ensures End(Extend(r, acts)).mtimecmp == End(r).mtimecmp
    ensures End(Extend(r, acts)).now >= End(r).now
  {
    if acts != [] {
      ExtendKeeps(r, acts[..|acts| - 1]);
    }
  }

  lemma AllOnes()
    ensures ToNat(ALL_ONES) == 0xFFFF_FFFF
  {
    assert ALL_ONES[1..] == [0xFF, 0xFF, 0xFF] && ALL_ONES[1..][1..] == [0xFF, 0xFF];
    assert ToNat([0xFF, 0xFF]) == 0xFFFF;
    assert ToNat([0xFF, 0xFF, 0xFF]) == 0xFF_FFFF;
  }

  lemma StoreHalf(s: State, lo: nat, hi: nat, half: seq<Byte>)
    requires lo < 0x1_0000_0000 && hi < 0x1_0000_0000 && s.mtimecmp == lo + hi * 0x1_0000_0000 && |half| == 4
    ensures Step(s, Store(MTIMECMP, half)).mtimecmp == ToNat(half) + hi * 0x1_0000_0000
    ensures Step(s, Store(MTIMECMP + 4, half)).mtimecmp == lo + ToNat(half) * 0x1_0000_0000
    ensures Step(s, Store(MTIMECMP, half)).now == Step(s, Store(MTIMECMP + 4, half)).now == s.now
  {
    SliceWriteParts(s.mtimecmp, lo, hi, half);
  }

  /**
   The store sequence lo = all ones, hi = new hi, lo = new lo, with any wakes, time
   steps and other accesses in between, never shows MTIP in a settled state while the
   clock stays below both the old and the new compare value.
   */
  lemma UpdateIsGlitchFree(r: Run, lo: seq<Byte>, hi: seq<Byte>,
                           gap1: seq<Action>, gap2: seq<Action>, gap3: seq<Action>)
    requires |lo| == 4 && |hi| == 4 && NoStores(gap1) && NoStores(gap2) && NoStores(gap3)
    ensures var r1 := Extend(Then(r, Store(MTIMECMP, ALL_ONES)), gap1);
            var r2 := Extend(Then(r1, Store(MTIMECMP + 4, hi)), gap2);
            var r3 := Extend(Then(r2, Store(MTIMECMP, lo)), gap3);
            && End(r3).mtimecmp == ToNat(lo + hi)
            && (NowMtime(End(r3).now) < End(r).mtimecmp && NowMtime(End(r3).now) < ToNat(lo + hi) ==>
                  && (Settled(End(r1)) ==> !End(r1).mtip)
                  && (Settled(End(r2)) ==> !End(r2).mtip)
                  && (Settled(End(r3)) ==> !End(r3).mtip))
  {
    InvAlways(r);
    Powers();
    AllOnes();
    ToNatConcat(lo, hi);
    var oldLo, oldHi := End(r).mtimecmp % 0x1_0000_0000, End(r).mtimecmp / 0x1_0000_0000;
    var r0' := Then(r, Store(MTIMECMP, ALL_ONES));
    var r1 := Extend(r0', gap1);
    var r1' := Then(r1, Store(MTIMECMP + 4, hi));
    var r2 := Extend(r1', gap2);
    var r2' := Then(r2, Store(MTIMECMP, lo));
    var r3 := Extend(r2', gap3);
    ExtendKeeps(r0', gap1);
    ExtendKeeps(r1', gap2);
    ExtendKeeps(r2', gap3);
    StoreHalf(End(r), oldLo, oldHi, ALL_ONES);
    StoreHalf(End(r1), 0xFFFF_FFFF, oldHi, hi);
    StoreHalf(End(r2), 0xFFFF_FFFF, ToNat(hi), lo);
    InvAlways(r1);
    InvAlways(r2);
    InvAlways(r3);
  }
}
