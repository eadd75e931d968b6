/** The timer with its own registers. */
module TimerDevice {
  import opened Timer

  class Device {
    var ctrl: Control
    var value: nat
    var reload: nat
    var intrStatus: bool
    var clearPending: bool
    var pin: bool
    var prstn: bool
    var pc: Pc
    var ready: bool

    function View(): State
      reads this
    {
      State(ctrl, value, reload, intrStatus, clearPending, pin, prstn, pc, ready)
    }

    constructor (level: bool)
      ensures View() == End(PowerUp(level))
    {
      ctrl, value, reload := OFF, 0, 0;
      intrStatus, clearPending, pin := false, false, false;
      prstn, pc, ready := level, Starting, true;
    }

    /** The write half of `b_transport`. */
    method WriteRegister(addr: nat, data: nat) returns (ok: bool)
      modifies this
      ensures View() == Write(old(View()), addr, data)
      ensures ok <==> addr == CTRL || addr == VALUE || addr == RELOAD || addr == INTSTATUS
    {
      ok := true;
      var update := true;
      if addr == CTRL {
        ctrl := ToControl(data);
      } else if addr == VALUE {
        value := data;
      } else if addr == RELOAD {
        reload := data;
        value := data;
      } else if addr == INTSTATUS {
        update := false;
        if data % 2 == 1 {
          intrStatus := false;
          clearPending := true;
          if pc == Counting {
            ready := true;
          }
        }
      } else {
        update, ok := false, false;
      }
      if update && (pc == Disabled || pc == Counting) {
        ready := true;
      }
    }

    /** One turn of `timer_thread`: what follows its wait, then the loop top. */
    method Turn(extin: bool)
      requires ready
      modifies this
      ensures View() == RunThread(old(View()), extin)
    {
      if pc == Counting {
        if clearPending {
          clearPending := false;
          pin := false;
        } else if ctrl.exEn && !extin {
        } else if value == 0 {
          value := reload;
          intrStatus := true;
          if ctrl.intrEn {
            pin := true;
          }
        } else {
          value := value - 1;
        }
      }
      ready := false;
      if !prstn {
        ctrl, value, reload := OFF, 0, 0;
        intrStatus, pin := false, false;
        pc := InReset;
      } else if !ctrl.enable {
        pc := Disabled;
      } else {
        pc := Counting;
      }
    }
  }
}
