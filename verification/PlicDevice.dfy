/** The controller with its own vectors and its scanning loops, each method proved against the model. */
module PlicDevice {
  import opened Arithmetic
  import opened Plic
  import opened Tlm
  import PlicTheorems

  class Device {
    var priority: seq<nat>
    var claimed: seq<bool>
    var enable: nat
    var threshold: nat
    var lines: seq<bool>
    var meip: bool
    var ready: bool

    function View(): State
      reads this
    {
      State(priority, claimed, enable, threshold, lines, meip, ready)
    }

    constructor (n: nat)
      requires n <= 31
      ensures View() == Initial(n) && Valid(View())
    {
      priority := seq(n + 1, _ => 0);
      claimed := seq(n + 1, _ => false);
      enable, threshold := 0, 0;
      lines := seq(n, _ => false);
      meip, ready := false, false;
    }

    /** `update_meip`: stops at the first eligible source. */
    method RefreshMeip()
      requires Valid(View())
      modifies this`meip
      ensures View() == UpdateMeip(old(View()))
    {
      var any := false;
      var id := 1;
      while id <= |lines|
        invariant 1 <= id <= |lines| + 1
        invariant !any && forall j: nat :: 1 <= j < id ==> !Eligible(View(), j)
      {
        if Eligible(View(), id) {
          assert id in EligibleIds(View());
          any := true;
          break;
        }
        id := id + 1;
      }
      assert any <==> EligibleIds(View()) != {};
      meip := any;
    }

    /** `do_claim`. */
    method DoClaim() returns (best: nat)
      requires Valid(View())
      modifies this`claimed, this`meip
      ensures best == Best(old(View())) && View() == Claim(old(View()))
    {
      best := 0;
      var bestPriority := 0;
      for id := 1 to |lines| + 1
        invariant best == BestUpTo(View(), id - 1) && bestPriority == PriorityOf(View(), best)
        invariant best < |claimed|
      {
        if Eligible(View(), id) && priority[id] > bestPriority {
          best := id;
          bestPriority := priority[id];
        }
      }
      if best != 0 {
        claimed := claimed[best := true];
      }
      RefreshMeip();
    }

    /** The loop that assembles the pending word; its bits are disjoint, so `|=` adds. */
    method PendingWord() returns (value: nat)
      requires Valid(View())
      ensures value == Encode([false] + lines)
    {
      value := 0;
      for id := 1 to |lines| + 1
        invariant value == Encode([false] + lines[..id - 1])
      {
        ghost var prefix := [false] + lines[..id - 1];
        PlicTheorems.EncodeSnoc(prefix, lines[id - 1]);
        assert [false] + lines[..id] == prefix + [lines[id - 1]];
        if lines[id - 1] {
          value := value + Pow2(id);
        }
      }
      assert lines[..|lines|] == lines;
    }

    method BTransport(a: Access) returns (response: Response, ptr: Option<nat>)
      requires Valid(View())
      modifies this`priority, this`claimed, this`enable, this`threshold, this`meip
      ensures (View(), response, ptr) == Transport(old(View()), a)
    {
      ptr := a.ptr;
      response := Ok;
      if a.ptr.None? || a.len != 4 {
        return AddressError, ptr;
      }
      var value := a.ptr.value;
      if a.addr < 4 * (|lines| + 1) {
        var id := a.addr / 4;
        if a.read {
          ptr := Some(priority[id]);
        } else if 1 <= id <= |lines| {
          priority := priority[id := value];
          RefreshMeip();
        }
      } else if a.addr == PENDING {
        if a.read {
          value := PendingWord();
          ptr := Some(value);
        }
      } else if a.addr == ENABLE {
        if a.read {
          ptr := Some(enable);
        } else {
          enable := value;
          RefreshMeip();
        }
      } else if a.addr == THRESHOLD {
        if a.read {
          ptr := Some(threshold);
        } else {
          threshold := value;
          RefreshMeip();
        }
      } else if a.addr == CLAIM {
        if a.read {
          value := DoClaim();
          ptr := Some(value);
        } else {
          if 1 <= value <= |lines| {
            claimed := claimed[value := false];
          }
          RefreshMeip();
        }
      } else {
        response := AddressError;
      }
    }
  }
}
