/** Claims are sorted, the gateway is exact, and the level agrees with the claim. */
module PlicTheorems {
  import opened Arithmetic
  import opened Plic
  import opened Tlm

  // ---------------------------------------------------------------- which source is claimed

  /** Higher priority first, lower id on a tie. */
  predicate Outranks(s: State, a: nat, b: nat)
    requires a < |s.priority| && b < |s.priority|
  {
    s.priority[a] > s.priority[b] || (s.priority[a] == s.priority[b] && a < b)
  }

  lemma {:induction false} BestUpToSpec(s: State, k: nat)
    requires Valid(s) && k <= s.N()
    ensures var b := BestUpTo(s, k);
            && b <= k
            && (b != 0 ==> Eligible(s, b))
            && (forall id: nat :: 1 <= id <= k && Eligible(s, id) ==> b != 0 && (id == b || Outranks(s, b, id)))
  {
    if k > 0 {
      BestUpToSpec(s, k - 1);
    }
  }

  /** A claim takes the highest-ranked eligible source, and 0 exactly when there is none. */
  lemma BestIsTop(s: State)
    requires Valid(s)
    ensures Best(s) == 0 <==> EligibleIds(s) == {}
    ensures Best(s) != 0 ==> Best(s) in EligibleIds(s)
    ensures forall id :: id in EligibleIds(s) && id != Best(s) ==> Outranks(s, Best(s), id)
  {
    BestUpToSpec(s, s.N());
    if Best(s) != 0 {
      assert Best(s) in EligibleIds(s);
    }
    assert forall id :: id in EligibleIds(s) ==> 1 <= id <= s.N() && Eligible(s, id);
  }

  /** A claim removes exactly the source it returns and leaves the configuration alone. */
  lemma ClaimEffect(s: State)
    requires Valid(s)
    ensures Valid(Claim(s)) && EligibleIds(Claim(s)) == EligibleIds(s) - {Best(s)}
    ensures Claim(s).priority == s.priority
    ensures Claim(s).meip <==> EligibleIds(s) - {Best(s)} != {}
  {
    BestUpToSpec(s, s.N());
    var t := Claim(s);
    forall id: nat
      ensures id in EligibleIds(t) <==> id in EligibleIds(s) - {Best(s)}
    {
    }
  }

  // ---------------------------------------------------------------- draining is sorting

  /** The ids returned by successive claims, up to the first 0. */
  function DrainOrder(s: State): seq<nat>
    requires Valid(s)
    decreases |EligibleIds(s)|
  {
    BestIsTop(s);
    ClaimEffect(s);
    if Best(s) == 0 then [] else [Best(s)] + DrainOrder(Claim(s))
  }

  predicate Ranked(s: State, ids: seq<nat>) {
    && (forall i :: 0 <= i < |ids| ==> ids[i] < |s.priority|)
    && (forall i, j :: 0 <= i < j < |ids| ==> Outranks(s, ids[i], ids[j]))
  }

  lemma {:induction false} DrainMembers(s: State)
    requires Valid(s)
    ensures forall id :: id in DrainOrder(s) <==> id in EligibleIds(s)
    ensures |DrainOrder(s)| == |EligibleIds(s)|
    decreases |EligibleIds(s)|
  {
    BestIsTop(s);
    ClaimEffect(s);
    if Best(s) != 0 {
      DrainMembers(Claim(s));
    }
  }

  lemma {:induction false} DrainRanked(s: State)
    requires Valid(s)
    ensures Ranked(s, DrainOrder(s))
    decreases |EligibleIds(s)|
  {
    BestIsTop(s);
    ClaimEffect(s);
    if Best(s) != 0 {
      DrainRanked(Claim(s));
      DrainMembers(Claim(s));
      var rest := DrainOrder(Claim(s));
      forall i | 0 <= i < |rest|
        ensures rest[i] < |s.priority| && Outranks(s, Best(s), rest[i])
      {
        assert rest[i] in rest;
        assert rest[i] in EligibleIds(s);
      }
    }
  }

  /** Draining returns every eligible source exactly once, in rank order. */
  lemma DrainSorts(s: State)
    requires Valid(s)
    ensures forall id :: id in DrainOrder(s) <==> id in EligibleIds(s)
    ensures |DrainOrder(s)| == |EligibleIds(s)|
    ensures Ranked(s, DrainOrder(s))
  {
    DrainMembers(s);
    DrainRanked(s);
  }

  function AfterClaims(s: State, k: nat): (t: State)
    requires Valid(s)
    ensures Valid(t)
    decreases k
  {
    if k == 0 then s
    else
      ClaimEffect(s);
      AfterClaims(Claim(s), k - 1)
  }

  lemma {:induction false} ClaimResult(s: State, k: nat)
    requires Valid(s)
    ensures Best(AfterClaims(s, k)) == if k < |DrainOrder(s)| then DrainOrder(s)[k] else 0
    decreases k
  {
    BestIsTop(s);
    ClaimEffect(s);
    if k > 0 {
      ClaimResult(Claim(s), k - 1);
      BestIsTop(Claim(s));
    }
  }

  lemma {:induction false} ClaimLevel(s: State, k: nat)
    requires Valid(s) && k > 0
    ensures AfterClaims(s, k).meip <==> Best(AfterClaims(s, k)) != 0
    decreases k
  {
    ClaimEffect(s);
    if k == 1 {
      BestIsTop(Claim(s));
    } else {
      ClaimLevel(Claim(s), k - 1);
    }
  }

  /** The k-th claim returns the k-th ranked source, then 0 for ever; MEIP falls at the last non-zero claim. */
  lemma ClaimSequence(s: State, k: nat)
    requires Valid(s)
    ensures Best(AfterClaims(s, k)) == if k < |DrainOrder(s)| then DrainOrder(s)[k] else 0
    ensures k > 0 ==> (AfterClaims(s, k).meip <==> k < |DrainOrder(s)|)
  {
    ClaimResult(s, k);
    if k > 0 {
      ClaimLevel(s, k);
      DrainMembers(s);
      if k < |DrainOrder(s)| {
        assert DrainOrder(s)[k] in DrainOrder(s);
      }
    }
  }

  // ---------------------------------------------------------------- level and claim

  /** Unless `on_sources` is still to run, MEIP is high exactly when a claim would return a source. */
  lemma {:induction false} LevelAgrees(r: Run)
    requires Sources(r) <= 31
    ensures !End(r).ready ==> (End(r).meip <==> Best(End(r)) != 0)
  {
    BestIsTop(End(r));
    match r
    case PowerUp(n) =>
      assert EligibleIds(Initial(n)) == {};
    case Then(q, a) =>
      LevelAgrees(q);
      BestIsTop(End(q));
      LevelStep(End(q), a);
  }

  /** Eligibility depends on neither the level nor the trigger. */
  lemma LevelIrrelevant(s: State, meip: bool, ready: bool)
    requires Valid(s)
    ensures EligibleIds(s.(meip := meip, ready := ready)) == EligibleIds(s)
  {
    var t := s.(meip := meip, ready := ready);
    assert forall id: nat :: Eligible(t, id) == Eligible(s, id);
  }

  lemma WriteLevel(s: State, addr: nat, value: nat)
    requires Valid(s)
    ensures var t := Write(s, addr, value);
            t == s || (Valid(t) && t.ready == s.ready && (t.meip <==> EligibleIds(t) != {}))
  {
    var t := Write(s, addr, value);
    if t != s {
      var u := t.(meip := s.meip);
      assert EligibleIds(t) == EligibleIds(u);
    }
  }

  lemma LevelStep(s: State, a: Action)
    requires Valid(s) && (!s.ready ==> (s.meip <==> EligibleIds(s) != {}))
    ensures var t := Step(s, a); !t.ready ==> (t.meip <==> EligibleIds(t) != {})
  {
    match a
    case Bus(access) =>
      if !Refused(s, access) {
        if !access.read {
          WriteLevel(s, access.addr, access.ptr.value);
        } else if access.addr == CLAIM {
          ClaimEffect(s);
        }
      }
    case Lines(_) =>
    case RunSources => LevelIrrelevant(s, UpdateMeip(s).meip, false);
  }

  /** Every access that recomputes the level makes it right at once, even before `on_sources` runs. */
  lemma AccessRefreshesLevel(s: State, addr: nat, value: nat)
    requires Valid(s)
    requires addr == ENABLE || addr == THRESHOLD || addr == CLAIM || 4 <= addr < 4 * (s.N() + 1)
    ensures var t := Write(s, addr, value); Valid(t) && (t.meip <==> Best(t) != 0)
  {
    var t := Write(s, addr, value);
    var u := t.(meip := s.meip);
    assert EligibleIds(t) == EligibleIds(u);
    BestIsTop(t);
  }

  // ---------------------------------------------------------------- the gateway

  lemma GatewayStep(s: State, a: Action, id: nat)
    requires Valid(s) && 1 <= id <= s.N()
    ensures var t := Step(s, a);
            && id < |t.claimed|
            && (t.claimed[id] <==> if Observed(s, a) == Claimed(id) then true
                                   else if Observed(s, a) == Completed(id) then false
                                   else s.claimed[id])
  {
    BestUpToSpec(s, s.N());
  }

  /** The claimed flag is exactly "the latest event for this id is a claim". */
  lemma {:induction false} GatewayIsHistory(r: Run, id: nat)
    requires Sources(r) <= 31 && 1 <= id <= Sources(r)
    ensures End(r).claimed[id] <==> LatestIsClaim(r, id)
  {
    match r
    case PowerUp(_) =>
    case Then(q, a) =>
      GatewayIsHistory(q, id);
      GatewayStep(End(q), a, id);
  }

  /** So a source is claimed again only after it has been completed. */
  lemma NoReclaim(r: Run, a: Action, id: nat)
    requires Sources(r) <= 31 && 1 <= id <= Sources(r)
    requires Observed(End(r), a) == Claimed(id)
    ensures !LatestIsClaim(r, id)
  {
    GatewayIsHistory(r, id);
    BestUpToSpec(End(r), End(r).N());
  }

  /** Completing a source whose line is still high, enabled and above threshold leaves MEIP high. */
  lemma CompleteReasserts(s: State, id: nat)
    requires Valid(s) && 1 <= id <= s.N()
    requires s.lines[id - 1] && Bit(s.enable, Pow2(id)) && s.priority[id] > s.threshold
    ensures Complete(s, id).meip && Best(Complete(s, id)) != 0
  {
    var t := Complete(s, id);
    assert Eligible(s.(claimed := s.claimed[id := false]), id);
    assert id in EligibleIds(s.(claimed := s.claimed[id := false]));
    assert id in EligibleIds(t);
    BestIsTop(t);
  }

  // ---------------------------------------------------------------- the pending word

  /** A bit above the lowest is a bit of the half. */
  lemma HalfBit(bit: nat, rest: nat, weight: nat)
    requires bit < 2 && weight > 0
    ensures Bit(bit + 2 * rest, 2 * weight) == Bit(rest, weight)
  {
    var q, r := rest / weight, rest % weight;
    assert bit + 2 * rest == q * (2 * weight) + (bit + 2 * r);
    Unique(bit + 2 * rest, 2 * weight, q, bit + 2 * r);
  }

  lemma {:induction false} EncodeBit(bits: seq<bool>, i: nat)
    requires i < |bits|
    ensures Bit(Encode(bits), Pow2(i)) == bits[i]
  {
    if i > 0 {
      EncodeBit(bits[1..], i - 1);
      HalfBit(if bits[0] then 1 else 0, Encode(bits[1..]), Pow2(i - 1));
    }
  }

  /** The pending register shows the raw line levels, bit by bit. */
  lemma PendingShowsLines(s: State, id: nat)
    requires Valid(s) && 1 <= id <= s.N()
    ensures Bit(Read(s, PENDING), Pow2(id)) == s.lines[id - 1]
    ensures !Bit(Read(s, PENDING), 1)
  {
    EncodeBit([false] + s.lines, id);
    EncodeBit([false] + s.lines, 0);
  }

  lemma {:induction false} EncodeSnoc(bits: seq<bool>, b: bool)
    ensures Encode(bits + [b]) == Encode(bits) + if b then Pow2(|bits|) else 0
  {
    if bits != [] {
      assert (bits + [b])[1..] == bits[1..] + [b];
      EncodeSnoc(bits[1..], b);
    }
  }

  // ---------------------------------------------------------------- the registers

  /** Enable, threshold and each priority read back what was written, and no write disturbs another. */
  lemma ReadBack(s: State, addr: nat, other: nat, value: nat)
    requires Valid(s)
    requires addr == ENABLE || addr == THRESHOLD || 4 <= addr < 4 * (s.N() + 1)
    requires other == ENABLE || other == THRESHOLD || other < 4 * (s.N() + 1)
    ensures Valid(Write(s, addr, value))
    ensures Read(Write(s, addr, value), other) ==
            if other == addr || (addr / 4 == other / 4 && addr < 4 * (s.N() + 1)) then value else Read(s, other)
  {
  }

  // ---------------------------------------------------------------- the registers on the bus, in every run

  /** A 4-byte write with a buffer. */
  predicate IsBusWrite(a: Action) {
    a.Bus? && !a.access.read && a.access.len == 4 && a.access.ptr.Some?
  }

  /** Enable, threshold, or the priority of a source. */
  predicate IsRegister(n: nat, addr: nat) {
    addr == 0x2000 || addr == 0x20_0000 || 4 <= addr < 4 * (n + 1)
  }

  predicate SameRegister(n: nat, addr: nat, other: nat) {
    addr == other || (addr < 4 * (n + 1) && other < 4 * (n + 1) && addr / 4 == other / 4)
  }

  /** The word the bus last wrote to the register, or 0. */
  function LastWritten(r: Run, addr: nat): nat {
    match r
    case PowerUp(_) => 0
    case Then(q, a) =>
      if IsBusWrite(a) && SameRegister(Sources(r), a.access.addr, addr) then a.access.ptr.value
      else LastWritten(q, addr)
  }

  /** The word in a register. */
  function Register(s: State, addr: nat): nat
    requires Valid(s) && IsRegister(s.N(), addr)
  {
    if addr == 0x2000 then s.enable else if addr == 0x20_0000 then s.threshold else s.priority[addr / 4]
  }

  lemma RegisterStep(s: State, a: Action, addr: nat)
    requires Valid(s) && IsRegister(s.N(), addr)
    ensures var t := Step(s, a);
            && Valid(t) && t.N() == s.N()
            && Register(t, addr) ==
                 if IsBusWrite(a) && SameRegister(s.N(), a.access.addr, addr) then a.access.ptr.value
                 else Register(s, addr)
  {
    BestUpToSpec(s, s.N());
  }

  lemma {:induction false} RegisterIsHistory(r: Run, addr: nat)
    requires Sources(r) <= 31 && IsRegister(Sources(r), addr)
    ensures Register(End(r), addr) == LastWritten(r, addr)
  {
    match r
    case PowerUp(_) =>
    case Then(q, a) =>
      RegisterIsHistory(q, addr);
      RegisterStep(End(q), a, addr);
  }

  /** In every run a bus read of such a register returns the word the bus last wrote to it, and changes nothing. */
  lemma BusReadsLastWritten(r: Run, addr: nat, word: nat)
    requires Sources(r) <= 31 && IsRegister(Sources(r), addr)
    ensures Transport(End(r), Access(true, addr, 4, Some(word))) == (End(r), Ok, Some(LastWritten(r, addr)))
  {
    RegisterIsHistory(r, addr);
  }

  /** The words below the first source's priority read 0 in every run, whatever was written there. */
  lemma {:induction false} SourceZeroReadsZero(r: Run, addr: nat, word: nat)
    requires Sources(r) <= 31 && addr < 4
    ensures End(r).priority[0] == 0
    ensures Transport(End(r), Access(true, addr, 4, Some(word))) == (End(r), Ok, Some(0))
  {
    match r
    case PowerUp(_) =>
    case Then(q, a) =>
      SourceZeroReadsZero(q, addr, word);
      SourceZeroStep(End(q), a);
  }

  lemma SourceZeroStep(s: State, a: Action)
    requires Valid(s)
    ensures Step(s, a).priority[..1] == s.priority[..1]
  {
  }

  /** The line levels last driven. */
  function LastLines(r: Run): seq<bool> {
    match r
    case PowerUp(n) => seq(n, _ => false)
    case Then(q, a) => if a.Lines? && |a.lines| == Sources(r) then a.lines else LastLines(q)
  }

  lemma {:induction false} LinesAreHistory(r: Run)
    requires Sources(r) <= 31
    ensures End(r).lines == LastLines(r)
  {
    match r
    case PowerUp(_) =>
    case Then(q, a) => LinesAreHistory(q);
  }

  /** A bus read of the pending register shows the raw line levels and changes nothing. */
  lemma BusReadsPending(r: Run, id: nat, word: nat)
    requires Sources(r) <= 31 && 1 <= id <= Sources(r)
    ensures |LastLines(r)| == Sources(r)
    ensures var (t, response, data) := Transport(End(r), Access(true, 0x1000, 4, Some(word)));
            && t == End(r) && response == Ok && data.Some?
            && Bit(data.value, Pow2(id)) == LastLines(r)[id - 1] && !Bit(data.value, 1)
  {
    LinesAreHistory(r);
    PendingShowsLines(End(r), id);
  }

  /**
   Seen from outside: a source is eligible exactly if its line is high, its enable bit and
   its priority were last written so, and it is not being serviced.
   */
  lemma EligibleIsHistory(r: Run, id: nat)
    requires Sources(r) <= 31 && 1 <= id <= Sources(r)
    ensures |LastLines(r)| == Sources(r)
    ensures Eligible(End(r), id) <==>
            && LastLines(r)[id - 1] && Bit(LastWritten(r, 0x2000), Pow2(id)) && !LatestIsClaim(r, id)
            && LastWritten(r, 4 * id) > LastWritten(r, 0x20_0000)
  {
    LinesAreHistory(r);
    GatewayIsHistory(r, id);
    RegisterIsHistory(r, 0x2000);
    RegisterIsHistory(r, 0x20_0000);
    RegisterIsHistory(r, 4 * id);
  }

  /** A bus read of the claim register returns the top source, or 0 if none is eligible. */
  lemma BusReadsClaim(s: State, word: nat)
    requires Valid(s)
    ensures var (t, response, data) := Transport(s, Access(true, 0x20_0004, 4, Some(word)));
            && response == Ok && data == Some(Best(s)) && Valid(t)
            && EligibleIds(t) == EligibleIds(s) - {Best(s)}
            && (t.meip <==> EligibleIds(t) != {})
  {
    BestIsTop(s);
    ClaimEffect(s);
  }

  /** Which accesses are answered with an error; those change neither the state nor the buffer. */
  lemma BusAnswer(s: State, a: Access)
    requires Valid(s)
    ensures var (t, response, data) := Transport(s, a);
            var known := a.addr < 4 * (s.N() + 1) || a.addr in {0x1000, 0x2000, 0x20_0000, 0x20_0004};
            && response == (if a.ptr.Some? && a.len == 4 && known then Ok else AddressError)
            && (response != Ok ==> t == s && data == a.ptr)
            && (!a.read ==> data == a.ptr)
  {
  }
}
