/** The duty cycle is exact over any full period, and the phase only rotates the waveform. */
module PwmTheorems {
  import opened Pwm
  import opened Tlm
  import opened Arithmetic

  // ---------------------------------------------------------------- the code's arithmetic

  /** The counter counts modulo the period, or modulo 2^16 if the period does not fit in the counter. */
  lemma {:induction false} CounterAfter(s: State, k: nat)
    requires On(s) && s.counter < TWO16 && k > 0
    ensures Ticks(s, k).counter == (s.counter + k) % Min(s.period, TWO16)
  {
    var m := Min(s.period, TWO16);
    var before := if k == 1 then s.counter else (s.counter + k - 1) % m;
    if k > 1 {
      CounterAfter(s, k - 1);
      Succ(s.counter + k - 1, m);
    }
    assert (before + 1) % m == (s.counter + k) % m;
    if s.period <= TWO16 {
      Small((before + 1) % m, TWO16);
    } else {
      Small(before + 1, s.period);
    }
  }

  /** The phase subtraction of the code, for a counter below the period. */
  function Shifted(period: nat, phase: nat, counter: nat): nat
    requires period > 0
  {
    (counter + period - phase) % TWO32 % period % TWO16
  }

  /** The phases for which the 32-bit subtraction cannot spoil the remainder. */
  predicate PhaseFits(period: nat, phase: nat)
    requires period > 0
  {
    phase <= period || TWO32 % period == 0
  }

  lemma AddMultiple(x: int, y: int, m: int)
    requires m > 0 && y % m == 0
    ensures (x + y) % m == x % m
  {
    var q, r := x / m, x % m;
    Distribute(q, -(y / m), m);
    Unique(x + y, m, q + y / m, r);
  }

  /** A shift that is right at one counter value and wraps there shows that the period divides 2^32. */
  lemma WrapNeedsDivisor(x: int, m: int)
    requires m > 0 && (x + TWO32) % m == x % m
    ensures TWO32 % m == 0
  {
    var q, r := x / m, x % m;
    var q', r' := (x + TWO32) / m, (x + TWO32) % m;
    Distribute(q', q, m);
    Unique(TWO32, m, q' - q, 0);
  }

  lemma ShiftExactAt(period: nat, phase: nat, counter: nat)
    requires 1 <= period <= TWO16 && phase < TWO32 && counter < period && PhaseFits(period, phase)
    ensures Shifted(period, phase, counter) == (counter - phase) % period
  {
    var x := counter + period - phase;
    AddModulus(counter - phase, period);
    if x >= 0 {
      Small(x, TWO32);
    } else {
      Unique(x, TWO32, -1, x + TWO32);
      AddMultiple(x, TWO32, period);
    }
    Small(x % period, TWO16);
  }

  /**
   The shifted position is the mathematical one at every counter value exactly
   when the phase is at most the period or the period divides 2^32.
   */
  lemma ShiftExactIff(period: nat, phase: nat)
    requires 1 <= period <= TWO16 && phase < TWO32
    ensures (forall c: nat :: c < period ==> Shifted(period, phase, c) == (c - phase) % period)
            <==> PhaseFits(period, phase)
  {
    if PhaseFits(period, phase) {
      forall c: nat | c < period
        ensures Shifted(period, phase, c) == (c - phase) % period
      {
        ShiftExactAt(period, phase, c);
      }
    } else {
      var x: int := period - phase;
      AddModulus(x - period, period);
      Unique(x, TWO32, -1, x + TWO32);
      Small((x + TWO32) % period, TWO16);
      assert Shifted(period, phase, 0) == (x + TWO32) % period;
      if Shifted(period, phase, 0) == (0 - phase) % period {
        WrapNeedsDivisor(x, period);
      }
    }
  }

  /** The phases whose subtraction wraps at every counter value or at none, or wraps without harm. */
  predicate Rotates(period: nat, phase: nat)
    requires period > 0
  {
    phase <= period || phase >= 2 * period || TWO32 % period == 0
  }

  /** The delay the code gives to such a phase. */
  function Delay(period: nat, phase: nat): int
    requires period > 0
  {
    if PhaseFits(period, phase) then phase else phase - TWO32
  }

  lemma ShiftIsRotation(period: nat, phase: nat, counter: nat)
    requires 1 <= period <= TWO16 && phase < TWO32 && counter < period && Rotates(period, phase)
    ensures Shifted(period, phase, counter) == (counter - Delay(period, phase)) % period
  {
    if PhaseFits(period, phase) {
      ShiftExactAt(period, phase, counter);
    } else {
      var x := counter + period - phase;
      Unique(x, TWO32, -1, x + TWO32);
      AddModulus(x + TWO32 - period, period);
      Small((x + TWO32) % period, TWO16);
    }
  }

  // ---------------------------------------------------------------- the waveform

  /** The counter runs modulo the period. */
  predicate Running(s: State) {
    On(s) && s.period <= TWO16 && s.counter < TWO16 && s.phaseDelay < TWO32
  }

  /** The output is a function of the counter. */
  predicate Level(s: State, counter: nat)
    requires s.period > 0
  {
    var pwm := s.pwmEn % 2 == 1 && Shifted(s.period, s.phaseDelay, counter) < s.dutyCycle;
    if s.invert % 2 == 1 then !pwm else pwm
  }

  lemma LevelAfter(s: State, k: nat)
    requires On(s) && s.counter < TWO16 && k > 0
    ensures Ticks(s, k).out == Level(s, (s.counter + k) % Min(s.period, TWO16))
  {
    CounterAfter(s, k);
    var t := Ticks(s, k - 1);
    assert Ticks(s, k) == Tick(t);
    assert Ticks(s, k).out == Level(s, Ticks(s, k).counter);
  }

  lemma SubtractInRemainder(c: nat, d: int, m: nat)
    requires m > 0
    ensures (c % m - d) % m == (c - d) % m
  {
    var q, x := c / m, c % m - d;
    Distribute(x / m, -q, m);
    Unique(c - d, m, x / m + q, x % m);
  }

  /** The waveform repeats with the period, or with 2^16 ticks if the period does not fit in the counter. */
  lemma WaveformRepeats(s: State, k: nat)
    requires On(s) && s.counter < TWO16 && k > 0
    ensures Ticks(s, k + Min(s.period, TWO16)).out == Ticks(s, k).out
  {
    var m := Min(s.period, TWO16);
    LevelAfter(s, k);
    LevelAfter(s, k + m);
    AddModulus(s.counter + k, m);
  }

  lemma SubtractMultiple(x: int, q: int, m: int)
    requires m > 0
    ensures (x - q * m) % m == x % m
  {
    Distribute(x / m, q, m);
    Unique(x - q * m, m, x / m - q, x % m);
  }

  /** Waiting for the delay and then subtracting it comes back to where one was. */
  lemma DelayCancels(n: nat, d: int, p: nat)
    requires p > 0
    ensures ((n + d % p) % p - d) % p == n % p
  {
    var q := d / p;
    assert d == q * p + d % p;
    SubtractInRemainder(n + d % p, d, p);
    SubtractMultiple(n, q, p);
  }

  lemma AddInRemainder(n: nat, d: nat, p: nat)
    requires p > 0
    ensures (n + d) % p == (n + d % p) % p
  {
    var q := d / p;
    assert d == q * p + d % p;
    SubtractMultiple(n + d, q, p);
  }

  lemma ShiftAfterDelay(period: nat, phase: nat, n: nat)
    requires 1 <= period <= TWO16 && phase < TWO32 && Rotates(period, phase)
    ensures Shifted(period, phase, (n + Delay(period, phase) % period) % period) == Shifted(period, 0, n % period)
  {
    var d := Delay(period, phase);
    var c, c0 := (n + d % period) % period, n % period;
    assert Shifted(period, phase, c) == (c - d) % period by {
      ShiftIsRotation(period, phase, c);
    }
    assert Shifted(period, 0, c0) == c0 % period by {
      ShiftIsRotation(period, 0, c0);
    }
    DelayCancels(n, d, period);
    Small(c0, period);
  }

  /** A phase only rotates the phase-0 waveform, by the delay the code gives to it. */
  lemma PhaseRotates(s: State, k: nat)
    requires Running(s) && Rotates(s.period, s.phaseDelay) && k > 0
    ensures Ticks(s, k + Delay(s.period, s.phaseDelay) % s.period).out == Ticks(s.(phaseDelay := 0), k).out
  {
    var t, p, e := s.(phaseDelay := 0), s.period, Delay(s.period, s.phaseDelay) % s.period;
    var n := s.counter + k;
    LevelAfter(s, k + e);
    LevelAfter(t, k);
    ShiftAfterDelay(p, s.phaseDelay, n);
    assert s.counter + (k + e) == n + e;
  }

  /** Whole periods more or less do not matter. */
  lemma WholePeriods(s: State, k: nat, d: nat)
    requires Running(s) && k > 0
    ensures Ticks(s, k + d).out == Ticks(s, k + d % s.period).out
  {
    var e, n := d % s.period, s.counter + k;
    AddInRemainder(n, d, s.period);
    LevelAfter(s, k + d);
    LevelAfter(s, k + e);
    assert s.counter + (k + d) == n + d && s.counter + (k + e) == n + e;
  }

  /** So a phase of at most the period, or any phase if the period divides 2^32, delays by that many ticks. */
  lemma PhaseDelays(s: State, k: nat)
    requires Running(s) && PhaseFits(s.period, s.phaseDelay) && k > 0
    ensures Ticks(s, k + s.phaseDelay).out == Ticks(s.(phaseDelay := 0), k).out
  {
    PhaseRotates(s, k);
    WholePeriods(s, k, s.phaseDelay);
  }

  // ---------------------------------------------------------------- counting over a window

  /** How many of the n numbers from a on have a remainder below d. */
  function Count(a: int, n: nat, p: nat, d: nat): nat
    requires p > 0
    decreases n
  {
    if n == 0 then 0 else Count(a, n - 1, p, d) + if (a + n - 1) % p < d then 1 else 0
  }

  lemma {:induction false} CountFirst(a: int, n: nat, p: nat, d: nat)
    requires p > 0 && n > 0
    ensures Count(a, n, p, d) == (if a % p < d then 1 else 0) + Count(a + 1, n - 1, p, d)
    decreases n
  {
    if n > 1 {
      CountFirst(a, n - 1, p, d);
    }
  }

  /** A full window counts the same wherever it starts. */
  lemma CountSlide(a: int, p: nat, d: nat)
    requires p > 0
    ensures Count(a, p, p, d) == Count(a + 1, p, p, d)
  {
    CountFirst(a, p, p, d);
    AddModulus(a, p);
  }

  lemma {:induction false} CountWindow(a: int, p: nat, d: nat)
    requires p > 0
    ensures Count(a, p, p, d) == Count(0, p, p, d)
    decreases if a < 0 then -a else a
  {
    if a > 0 {
      CountWindow(a - 1, p, d);
      CountSlide(a - 1, p, d);
    } else if a < 0 {
      CountWindow(a + 1, p, d);
      CountSlide(a, p, d);
    }
  }

  lemma {:induction false} CountFromZero(n: nat, p: nat, d: nat)
    requires p > 0 && n <= p
    ensures Count(0, n, p, d) == Min(d, n)
  {
    if n > 0 {
      CountFromZero(n - 1, p, d);
      Small(n - 1, p);
    }
  }

  /** How many of the n counter values from a on, modulo the period, the comparison accepts. */
  function Hits(s: State, a: nat, n: nat): nat
    requires s.period > 0
    decreases n
  {
    if n == 0 then 0
    else Hits(s, a, n - 1) + if Shifted(s.period, s.phaseDelay, (a + n - 1) % s.period) < s.dutyCycle then 1 else 0
  }

  lemma {:induction false} HighIsHits(s: State, k: nat)
    requires Running(s)
    ensures var n := if s.pwmEn % 2 == 1 then Hits(s, s.counter + 1, k) else 0;
            n <= k && HighTicks(s, k) == if s.invert % 2 == 1 then k - n else n
  {
    if k > 0 {
      HighIsHits(s, k - 1);
      LevelAfter(s, k);
      assert s.counter + 1 + k - 1 == s.counter + k;
    }
  }

  lemma {:induction false} HitsAreCount(s: State, a: nat, n: nat)
    requires Running(s) && Rotates(s.period, s.phaseDelay)
    ensures Hits(s, a, n) == Count(a - Delay(s.period, s.phaseDelay), n, s.period, s.dutyCycle)
  {
    if n > 0 {
      HitsAreCount(s, a, n - 1);
      ShiftIsRotation(s.period, s.phaseDelay, (a + n - 1) % s.period);
      SubtractInRemainder(a + n - 1, Delay(s.period, s.phaseDelay), s.period);
      assert a + n - 1 - Delay(s.period, s.phaseDelay) == a - Delay(s.period, s.phaseDelay) + n - 1;
    }
  }

  lemma FullWindow(s: State, a: nat)
    requires Running(s) && Rotates(s.period, s.phaseDelay)
    ensures Hits(s, a, s.period) == Min(s.dutyCycle, s.period)
  {
    var p, from := s.period, a - Delay(s.period, s.phaseDelay);
    assert Hits(s, a, p) == Count(from, p, p, s.dutyCycle) by {
      HitsAreCount(s, a, p);
    }
    CountWindow(from, p, s.dutyCycle);
    CountFromZero(p, p, s.dutyCycle);
  }

  /** What the duty promises of one full period. */
  function Promised(s: State): int {
    var high := if s.pwmEn % 2 == 1 then Min(s.dutyCycle, s.period) else 0;
    if s.invert % 2 == 1 then s.period - high else high
  }

  lemma HighFromHits(s: State)
    requires Running(s) && Hits(s, s.counter + 1, s.period) == Min(s.dutyCycle, s.period)
    ensures HighTicks(s, s.period) == Promised(s)
  {
    HighIsHits(s, s.period);
  }

  /** Over any `period` consecutive ticks, from any counter value, the high time is exactly the duty. */
  lemma DutyIsExact(s: State)
    requires Running(s) && Rotates(s.period, s.phaseDelay)
    ensures HighTicks(s, s.period) == Promised(s)
  {
    FullWindow(s, s.counter + 1);
    HighFromHits(s);
  }

  // ---------------------------------------------------------------- the phases that spoil the duty

  lemma {:induction false} HitsFirst(s: State, a: nat, n: nat)
    requires s.period > 0 && n > 0
    ensures Hits(s, a, n) ==
            (if Shifted(s.period, s.phaseDelay, a % s.period) < s.dutyCycle then 1 else 0) + Hits(s, a + 1, n - 1)
    decreases n
  {
    if n > 1 {
      HitsFirst(s, a, n - 1);
    }
  }

  /** A full window has the same hits wherever it starts. */
  lemma {:induction false} HitsWindow(s: State, a: nat)
    requires s.period > 0
    ensures Hits(s, a, s.period) == Hits(s, 0, s.period)
  {
    if a > 0 {
      HitsWindow(s, a - 1);
      HitsFirst(s, a - 1, s.period);
      AddModulus(a - 1, s.period);
    }
  }

  /** With a phase between one and two periods, the counter values from phase - period on do not wrap. */
  lemma ShiftAbove(period: nat, phase: nat, c: nat)
    requires 1 <= period <= TWO16 && period < phase < 2 * period && phase - period <= c < period
    ensures Shifted(period, phase, c) == c - (phase - period)
  {
    var x := c - (phase - period);
    Small(x, TWO32);
    Small(x, period);
    Small(x, TWO16);
  }

  /** Below it they wrap, and one of them lands among the positions already taken. */
  lemma ShiftBelow(period: nat, phase: nat) returns (c: nat)
    requires 1 <= period <= TWO16 && period < phase < 2 * period && TWO32 % period != 0
    ensures c < phase - period && Shifted(period, phase, c) < 2 * period - phase
  {
    var d, r, q := phase - period, TWO32 % period, TWO32 / period;
    var j := if r - 1 < period - d then 0 else r - period + d;
    c := d - 1 - j;
    var x: int := c - d;
    assert x == -1 - j && c + period - phase == x;
    Unique(x, TWO32, -1, x + TWO32);
    assert x + TWO32 == q * period + (r - 1 - j);
    Unique(x + TWO32, period, q, r - 1 - j);
    Small(r - 1 - j, TWO16);
  }

  lemma {:induction false} HitsAtLeast(s: State, c: nat, n: nat)
    requires 1 <= s.period <= TWO16 && s.period < s.phaseDelay < 2 * s.period && n <= s.period
    requires s.dutyCycle == 2 * s.period - s.phaseDelay
    requires c < s.phaseDelay - s.period && Shifted(s.period, s.phaseDelay, c) < s.dutyCycle
    ensures var d := s.phaseDelay - s.period;
            Hits(s, 0, n) >= (if n > c then 1 else 0) + (if n > d then n - d else 0)
  {
    if n > 0 {
      HitsAtLeast(s, c, n - 1);
      Small(n - 1, s.period);
      if n - 1 >= s.phaseDelay - s.period {
        ShiftAbove(s.period, s.phaseDelay, n - 1);
      }
    }
  }

  lemma DutyIsSpoilt(s: State)
    requires Running(s) && s.pwmEn % 2 == 1 && !Rotates(s.period, s.phaseDelay)
    requires s.dutyCycle == 2 * s.period - s.phaseDelay
    ensures HighTicks(s, s.period) != Promised(s)
    ensures s.invert % 2 == 0 ==> s.dutyCycle < HighTicks(s, s.period) <= s.period
  {
    var c := ShiftBelow(s.period, s.phaseDelay);
    HitsAtLeast(s, c, s.period);
    HitsWindow(s, s.counter + 1);
    HighIsHits(s, s.period);
  }

  /**
   An enabled output keeps every duty exactly when the phase is at most the period, at
   least twice the period, or the period divides 2^32.
   */
  lemma DutyExactIff(s: State)
    requires Running(s) && s.pwmEn % 2 == 1
    ensures (forall duty: nat :: HighTicks(s.(dutyCycle := duty), s.period) == Promised(s.(dutyCycle := duty)))
            <==> Rotates(s.period, s.phaseDelay)
  {
    if Rotates(s.period, s.phaseDelay) {
      forall duty: nat
        ensures HighTicks(s.(dutyCycle := duty), s.period) == Promised(s.(dutyCycle := duty))
      {
        DutyIsExact(s.(dutyCycle := duty));
      }
    } else {
      var duty := 2 * s.period - s.phaseDelay;
      DutyIsSpoilt(s.(dutyCycle := duty));
    }
  }

  /** Period 3, phase 4, duty 2: the output is high for three ticks of three. */
  lemma SpoiltExample(counter: nat)
    requires counter < TWO16
    ensures var s := INITIAL.(cfg := 0x8000_0000, pwmEn := 1, period := 3, phaseDelay := 4, dutyCycle := 2,
                              counter := counter);
            On(s) && HighTicks(s, 3) == 3
  {
    var s := INITIAL.(cfg := 0x8000_0000, pwmEn := 1, period := 3, phaseDelay := 4, dutyCycle := 2, counter := counter);
    DutyIsSpoilt(s);
  }

  // ---------------------------------------------------------------- the counter off

  /** Bit 31 of the configuration switches the counter: without it a tick changes nothing, whatever the period. */
  lemma OffStandsStill(s: State)
    requires s.cfg < 0x8000_0000
    ensures !CounterEnabled(s) && Tick(s) == s
  {
  }

  /** With it every tick moves the counter on. */
  lemma OnMoves(s: State)
    requires 0x8000_0000 <= s.cfg < TWO32 && s.period > 0
    ensures CounterEnabled(s) && Tick(s).counter == (s.counter + 1) % s.period % TWO16
  {
  }

  /** The six registers, for reads and writes alike; every other address is an error. */
  lemma KnownRegisters(s: State, addr: nat, data: nat)
    ensures Write(s, addr, data).Some? <==> addr in {0x08, 0x0C, 0x10, 0x14, 0x2C, 0x30}
    ensures Read(s, addr).Some? <==> addr in {0x08, 0x0C, 0x10, 0x14, 0x2C, 0x30}
  {
  }

  /** At power-up the engine is off with a period of 256 and everything else 0, and stays so. */
  lemma PowerUpStandsStill(addr: nat)
    ensures Tick(INITIAL) == INITIAL && !INITIAL.out
    ensures Read(INITIAL, addr).Some? ==> Read(INITIAL, addr).value == if addr == 0x30 then 256 else 0
  {
  }

  /** Each register reads back what was written to it and no write disturbs another register. */
  lemma ReadBack(s: State, addr: nat, other: nat, data: nat)
    requires Write(s, addr, data).Some?
    ensures var t := Write(s, addr, data).value;
            && t.counter == s.counter && t.out == s.out
            && Read(t, other) == if other == addr then Some(data) else Read(s, other)
  {
  }
}
