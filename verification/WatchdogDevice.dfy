/** The watchdog with its own fields, each method proved against the step machine. */
module WatchdogDevice {
  import opened Watchdog

  class Device {
    var load: nat
    var counter: nat
    var inten: bool
    var resen: bool
    var ris: bool
    var locked: bool
    var resetAsserted: bool
    var out: Outputs

    ghost function View(): State
      reads this
    {
      State(load, counter, inten, resen, ris, locked, resetAsserted, out)
    }

    constructor ()
      ensures View() == INITIAL
    {
      load, counter := 0xFFFF_FFFF, 0xFFFF_FFFF;
      inten, resen, ris, locked, resetAsserted := false, false, false, false, false;
      out := Outputs(false, false, false, true, false, false);
    }

    method RefreshOutputs()
      modifies this`out
      ensures View() == UpdateOutputs(old(View()))
    {
      var mis := ris && inten;
      out := out.(mis := mis, irqLevel := mis, resetLevel := resetAsserted, changed := true);
    }

    method Timeout()
      modifies this`ris, this`counter, this`resetAsserted, this`out
      ensures View() == HandleTimeout(old(View()))
    {
      if ris {
        if resen {
          resetAsserted := true;
          RefreshOutputs();
          return;
        }
        counter := load;
        return;
      }
      ris := true;
      RefreshOutputs();
      counter := load;
    }

    /** One period of `counter_thread`. */
    method TickOnce()
      modifies this`ris, this`counter, this`resetAsserted, this`out
      ensures View() == Tick(old(View()))
    {
      if !inten || resetAsserted {
        return;
      }
      if counter == 0 {
        Timeout();
      } else {
        counter := counter - 1;
      }
    }

    method WriteRegister(addr: nat, data: nat)
      modifies this
      ensures View() == WriteReg(old(View()), addr, data)
    {
      if addr == WDOG_LOCK {
        locked := data != UNLOCK_KEY;
        return;
      }
      if locked {
        return;
      }
      if addr == WDOG_LOAD {
        load := data;
        counter := load;
      } else if addr == WDOG_CONTROL {
        var wasEnabled := inten;
        inten, resen := data % 2 == 1, data / 2 % 2 == 1;
        if !wasEnabled && inten && !resetAsserted {
          counter := load;
        }
        RefreshOutputs();
      } else if addr == WDOG_INTCLR {
        ris := false;
        counter := load;
        RefreshOutputs();
      }
    }

    method ReadRegister(addr: nat) returns (value: nat)
      modifies this`out
      ensures View() == UpdateOutputs(old(View())) && value == Value(View(), addr)
    {
      RefreshOutputs();
      match addr
      case 0x000 => value := load;
      case 0x004 => value := counter;
      case 0x008 => value := (if inten then 1 else 0) + (if resen then 2 else 0);
      case 0x010 => value := if ris then 1 else 0;
      case 0x014 => value := if out.mis then 1 else 0;
      case 0xC00 => value := if locked then 1 else 0;
      case _ => value := Identification(addr);
    }

    method DrivePins()
      requires out.changed
      modifies this`out
      ensures View() == DriveOutputs(old(View()))
    {
      out := out.(irq := out.irqLevel, reset := out.resetLevel, changed := false);
    }
  }
}
