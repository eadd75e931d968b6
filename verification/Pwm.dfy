/** The PWM engine: a modular counter compared with the duty cycle. */
module Pwm {
  import opened Arithmetic
  import opened Tlm

  datatype State = State(
    cfg: nat, pwmEn: nat, invert: nat, phaseDelay: nat, dutyCycle: nat, period: nat,   // 32 bits
    counter: nat,                                                                       // 16 bits
    out: bool)                                                                          // level last written to pwm_out

  const INITIAL := State(0, 0, 0, 0, 0, 256, 0, false)

  predicate CounterEnabled(s: State) {
    s.cfg / 0x8000_0000 % 2 == 1
  }

  /** The comparison, in the code's 32- and 16-bit arithmetic. */
  predicate Compare(s: State, counter: nat)
    requires s.period > 0
  {
    (counter + s.period - s.phaseDelay) % TWO32 % s.period % TWO16 < s.dutyCycle
  }

  /** One period of `pwm_thread`. */
  function Tick(s: State): State
    requires CounterEnabled(s) ==> s.period > 0
  {
    if !CounterEnabled(s) then s
    else
      var counter := (s.counter + 1) % s.period % TWO16;
      var pwm := s.pwmEn % 2 == 1 && Compare(s, counter);
      s.(counter := counter, out := if s.invert % 2 == 1 then !pwm else pwm)
  }

  /** A register write; None stands for the address error, which changes nothing. */
  function Write(s: State, addr: nat, data: nat): Option<State> {
    match addr
    case 0x08 => Some(s.(cfg := data))
    case 0x0C => Some(s.(pwmEn := data))
    case 0x10 => Some(s.(invert := data))
    case 0x14 => Some(s.(phaseDelay := data))
    case 0x2C => Some(s.(dutyCycle := data))
    case 0x30 => Some(s.(period := data))
    case _ => None
  }

  function Read(s: State, addr: nat): Option<nat> {
    match addr
    case 0x08 => Some(s.cfg)
    case 0x0C => Some(s.pwmEn)
    case 0x10 => Some(s.invert)
    case 0x14 => Some(s.phaseDelay)
    case 0x2C => Some(s.dutyCycle)
    case 0x30 => Some(s.period)
    case _ => None
  }

  /** The counter is on and the modulus is not zero. */
  predicate On(s: State) {
    CounterEnabled(s) && s.period > 0
  }

  function Ticks(s: State, k: nat): (t: State)
    requires On(s)
    ensures t == s.(counter := t.counter, out := t.out)
  {
    if k == 0 then s else Tick(Ticks(s, k - 1))
  }

  /** How many of the next k ticks leave the output high. */
  function HighTicks(s: State, k: nat): nat
    requires On(s)
  {
    if k == 0 then 0 else HighTicks(s, k - 1) + if Ticks(s, k).out then 1 else 0
  }
}
