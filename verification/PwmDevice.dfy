/** The PWM engine with its own registers. */
module PwmDevice {
  import opened Arithmetic
  import opened Pwm

  class Device {
    var cfg: nat
    var pwmEn: nat
    var invert: nat
    var phaseDelay: nat
    var dutyCycle: nat
    var period: nat
    var counter: nat
    var out: bool

    function View(): State
      reads this
    {
      State(cfg, pwmEn, invert, phaseDelay, dutyCycle, period, counter, out)
    }

    constructor ()
      ensures View() == INITIAL
    {
      cfg, pwmEn, invert, phaseDelay, dutyCycle, period := 0, 0, 0, 0, 0, 256;
      counter, out := 0, false;
    }

    /** One period of `pwm_thread`; with the counter on, a period of 0 would divide by zero. */
    method TickOnce()
      requires CounterEnabled(View()) ==> period > 0
      modifies this`counter, this`out
      ensures View() == Tick(old(View()))
    {
      if cfg / 0x8000_0000 % 2 == 0 {
        return;
      }
      counter := (counter + 1) % period % TWO16;
      var pwm := false;
      if pwmEn % 2 == 1 {
        var shifted := (counter + period - phaseDelay) % TWO32 % period % TWO16;
        if shifted < dutyCycle {
          pwm := true;
        }
      }
      if invert % 2 == 1 {
        pwm := !pwm;
      }
      out := pwm;
    }

    method WriteRegister(addr: nat, data: nat) returns (ok: bool)
      modifies this
      ensures ok == Write(old(View()), addr, data).Some?
      ensures View() == if ok then Write(old(View()), addr, data).value else old(View())
    {
      ok := true;
      match addr
      case 0x08 => cfg := data;
      case 0x0C => pwmEn := data;
      case 0x10 => invert := data;
      case 0x14 => phaseDelay := data;
      case 0x2C => dutyCycle := data;
      case 0x30 => period := data;
      case _ => ok := false;
    }
  }
}
