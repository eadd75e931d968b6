/** Left to itself, under every schedule, the SPI controller settles and sends every accepted word. */
module SpiProgress {
  import opened Spi
  import opened SpiTheorems

  // ---------------------------------------------------------------- the delta loop ends

  predicate IsKernelStep(s: State, a: Action) {
    a == RunTransmit || a == RunIntr || a == RunStatus || a == Delta || (a == Reset && s.k.resetReady)
  }

  function ThreadWork(pc: Pc): nat {
    match pc case LoopTop => 3 case AfterZero => 5 case ZeroWait => 6 case _ => 0
  }

  function KernelWork(k: Kernel): nat {
    (if k.txPending then 4 else 0) + (if k.intrPending then 2 else 0) + (if k.statusPending then 2 else 0) +
    (if k.intrReady then 1 else 0) + (if k.statusReady then 1 else 0) + (if k.resetReady then 3 else 0)
  }

  function Work(s: State): nat {
    ThreadWork(s.pc) + KernelWork(s.k)
  }

  lemma TransmitUsesWork(s: State)
    requires s.pc.LoopTop? || s.pc.AfterZero?
    ensures Work(Step(s, RunTransmit).0) < Work(s)
  {
  }

  /** Delta cycles cannot go on for ever: every kernel step uses up work. */
  lemma KernelStepUsesWork(s: State, a: Action)
    requires IsKernelStep(s, a) && CanStep(s, a)
    ensures Work(Step(s, a).0) < Work(s)
  {
    var t := Step(s, a).0;
    match a
    case RunTransmit => TransmitUsesWork(s);
    case RunIntr => assert t.pc == s.pc && t.k == s.k.(intrReady := false);
    case RunStatus => assert t.pc == s.pc && t.k == s.k.(statusReady := false);
    case Reset => assert t.pc == s.pc && t.k == s.k.(intrPending := true, resetReady := false);
    case Delta =>
  }

  // ---------------------------------------------------------------- runs without the outside world

  /** What the controller does by itself: kernel steps, and frames that end with any reply. */
  predicate IsOwnStep(s: State, a: Action) {
    CanStep(s, a) && (IsKernelStep(s, a) || a.FlightEnd?)
  }

  /** `q` is `r` extended by own steps, in any order. */
  predicate Continues(r: Run, q: Run) {
    q == r || (q.Then? && Continues(r, q.before) && IsOwnStep(End(q.before), q.act))
  }

  function Length(r: Run): nat {
    match r
    case PowerUp(_) => 0
    case Then(q, _) => 1 + Length(q)
  }

  lemma {:induction false} ContinuesFromNext(r: Run, a: Action, q: Run)
    requires IsOwnStep(End(r), a) && Continues(Then(r, a), q)
    ensures Continues(r, q)
    decreases q
  {
    if q != Then(r, a) {
      ContinuesFromNext(r, a, q.before);
    }
  }

  function NextKernelStep(s: State): (a: Action)
    requires !Settled(s)
    ensures IsKernelStep(s, a) && CanStep(s, a)
  {
    if s.k.resetReady then Reset
    else if s.pc.LoopTop? || s.pc.AfterZero? then RunTransmit
    else if s.k.intrReady then RunIntr
    else if s.k.statusReady then RunStatus
    else Delta
  }

  /** The kernel left alone: a run extended until it settles. */
  function Quiesce(r: Run): (q: Run)
    ensures Continues(r, q) && Settled(End(q))
    decreases Work(End(r))
  {
    if Settled(End(r)) then r
    else
      var a := NextKernelStep(End(r));
      KernelStepUsesWork(End(r), a);
      var q := Quiesce(Then(r, a));
      ContinuesFromNext(r, a, q);
      q
  }

  // ---------------------------------------------------------------- progress under every schedule

  /** Own steps left at most: the delta cycles, the queued words and the frame on the wire. */
  function Effort(s: State): nat {
    Work(s) + 20 * |s.tx.items| + if s.pc.InFlight? then 12 else 0
  }

  lemma TransmitEffort(s: State)
    requires CanStep(s, RunTransmit)
    ensures Effort(Step(s, RunTransmit).0) < Effort(s)
  {
  }

  /** Every own step, whatever is chosen and whatever the peripheral replies, brings the end nearer. */
  lemma OwnStepUsesEffort(s: State, a: Action)
    requires IsOwnStep(s, a) && !s.k.resetReady
    ensures Effort(Step(s, a).0) < Effort(s)
  {
    if a.RunTransmit? {
      TransmitEffort(s);
    } else {
      var t := Step(s, a).0;
      assert t.tx.items == s.tx.items;
      if a.FlightEnd? {
        assert t.pc == ZeroWait && t.k == s.k;
      } else {
        KernelStepUsesWork(s, a);
        assert t.pc.InFlight? == s.pc.InFlight?;
      }
    }
  }

  lemma OwnStepFrame(s: State, a: Action)
    requires IsOwnStep(s, a) && !s.k.resetReady
    ensures var (t, e) := Step(s, a);
            t.cfg == s.cfg && !t.k.resetReady && !e.Accepted? && !e.WasReset?
  {
  }

  /** No schedule runs for longer than the effort at its start. */
  lemma {:induction false} ScheduleIsBounded(r: Run, q: Run)
    requires Continues(r, q) && !End(r).k.resetReady
    ensures Length(q) + Effort(End(q)) <= Length(r) + Effort(End(r))
    ensures End(q).cfg == End(r).cfg && !End(q).k.resetReady && AcceptedWords(q) == AcceptedWords(r)
    decreases q
  {
    if q != r {
      ScheduleIsBounded(r, q.before);
      OwnStepUsesEffort(End(q.before), q.act);
      OwnStepFrame(End(q.before), q.act);
    }
  }

  /** The controller has no step of its own left exactly when it is settled with nothing on the wire. */
  lemma ExhaustedIff(s: State)
    ensures (forall a :: !IsOwnStep(s, a)) <==> Settled(s) && !s.pc.InFlight?
  {
    if !Settled(s) {
      assert IsOwnStep(s, NextKernelStep(s));
    } else if s.pc.InFlight? {
      assert IsOwnStep(s, FlightEnd(0));
    }
  }

  /**
   No accepted word is forgotten: under every schedule, whatever the replies, an enabled
   controller that has come to its end has sent every word, in order, and completed it.
   */
  lemma EveryAcceptedWordIsSent(r: Run, q: Run)
    requires !End(r).k.resetReady && Enabled(End(r).cfg.cr1)
    requires Continues(r, q) && (forall a :: !IsOwnStep(End(q), a))
    ensures SentWords(q) == AcceptedWords(r) && End(q).tx.items == []
    ensures AllCompleted(q) == AllSent(q)
  {
    ScheduleIsBounded(r, q);
    ExhaustedIff(End(q));
    SettledMeansNoWork(q);
    TransmitConservation(q);
    WireConservation(q);
  }

  /** And every schedule can be carried on to such an end, with any reply to each frame. */
  function Finish(r: Run, reply: Run -> Word): (q: Run)
    requires !End(r).k.resetReady
    ensures Continues(r, q) && forall a :: !IsOwnStep(End(q), a)
    decreases Effort(End(r))
  {
    ExhaustedIff(End(r));
    if Settled(End(r)) && !End(r).pc.InFlight? then r
    else
      var a := if Settled(End(r)) then FlightEnd(reply(r)) else NextKernelStep(End(r));
      OwnStepUsesEffort(End(r), a);
      OwnStepFrame(End(r), a);
      var q := Finish(Then(r, a), reply);
      ContinuesFromNext(r, a, q);
      q
  }
}
