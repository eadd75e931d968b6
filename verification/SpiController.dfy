/** The controller with its own registers and FIFOs, each method proved against the step machine. */
module SpiController {
  import opened Arithmetic
  import opened Bytes
  import opened Spi
  import opened Tlm

  class Controller {
    var cfg: Config      // CR0, CR1, DR, CPSR, IMSC, ICR and DMACR
    var sr: Status
    var ris: Irqs
    var mis: Irqs
    var rxFifo: Fifo
    var txFifo: Fifo
    var transmitting: bool
    var intr: bool
    var pc: Pc
    var kernel: Kernel

    function View(): State
      reads this
    {
      State(cfg, sr, ris, mis, intr, rxFifo, txFifo, transmitting, pc, kernel)
    }

    /** Elaboration: empty FIFOs, every process ready, and registers of any contents until the first reset. */
    constructor (registers: State)
      ensures View() == Boot(registers)
    {
      cfg, sr, ris, mis := registers.cfg, registers.sr, registers.ris, registers.mis;
      rxFifo, txFifo := EMPTY, EMPTY;
      transmitting, intr := false, false;
      pc, kernel := LoopTop, Kernel(false, false, false, false, false, true);
    }

    method UpdateIntr()
      modifies this`ris, this`mis, this`intr
      ensures View() == Spi.UpdateIntr(old(View()))
    {
      if NumAvailable(txFifo) <= FIFO_SIZE / 2 {
        ris := ris.(tx := true);
      } else {
        ris := ris.(tx := false);
      }
      if NumAvailable(rxFifo) >= FIFO_SIZE / 2 {
        ris := ris.(rx := true);
      } else {
        ris := ris.(rx := false);
      }
      mis := And(ris, cfg.imsc);
      intr := mis != NO_IRQS;
    }

    method UpdateStatusReg()
      modifies this`sr
      ensures View() == UpdateStatus(old(View()))
    {
      sr := sr.(rff := NumAvailable(rxFifo) == FIFO_SIZE);
      sr := sr.(rne := NumAvailable(rxFifo) != 0);
      sr := sr.(tnf := NumFree(txFifo) != 0);
      sr := sr.(tfe := NumFree(txFifo) == FIFO_SIZE);
      sr := sr.(bsy := transmitting || NumFree(txFifo) != FIFO_SIZE);
    }

    method DrainFifos()
      modifies this`rxFifo, this`txFifo
      ensures rxFifo == Drained(old(rxFifo)) && txFifo == Drained(old(txFifo))
    {
      while NumAvailable(rxFifo) > 0
        invariant Drained(rxFifo) == Drained(old(rxFifo)) && txFifo == old(txFifo)
        decreases |rxFifo.items|
      {
        rxFifo := Get(rxFifo).1;
      }
      assert rxFifo.items[0..] == rxFifo.items;
      while NumAvailable(txFifo) > 0
        invariant Drained(txFifo) == Drained(old(txFifo)) && rxFifo == Drained(old(rxFifo))
        decreases |txFifo.items|
      {
        txFifo := Get(txFifo).1;
      }
      assert txFifo.items[0..] == txFifo.items;
    }

    method HandleReset()
      modifies this
      ensures View() == Spi.HandleReset(old(View()))
    {
      cfg := Config(0, 0, cfg.dr, 0, NO_IRQS, 0, 0);
      sr := Status(true, true, false, false, false);
      ris := NO_IRQS.(tx := true);
      mis := NO_IRQS;
      DrainFifos();
      transmitting := false;
      kernel := kernel.(intrPending := true, resetReady := false);
      assert View() == Cleared(old(View())).(sr := sr);
      UpdateStatusReg();
    }

    /** The thread from the loop top to its next wait. */
    method Transmit() returns (e: Event)
      modifies this`transmitting, this`kernel, this`pc, this`txFifo
      ensures (View(), e) == Spi.Transmit(old(View()))
    {
      if NumAvailable(txFifo) == 0 || !Enabled(cfg.cr1) {
        transmitting := false;
        kernel := kernel.(statusPending := true);
        pc := Parked;
        return Quiet;
      }
      transmitting := true;
      kernel := kernel.(statusPending := true);
      var (data, rest) := Get(txFifo);
      txFifo := rest;
      var bits := FrameBits(cfg.cr0);
      pc := InFlight(data, bits);
      e := Sent(data, bits);
    }

    /** The thread from the end of its timed wait to its zero-time wait. */
    method EndFlight(reply: Word) returns (e: Event)
      requires pc.InFlight?
      modifies this`ris, this`rxFifo, this`pc
      ensures (View(), e) == Spi.EndFlight(old(View()), reply)
    {
      var stored := NumFree(rxFifo) != 0;
      var frame := Masked(reply, pc.bits);
      e := Completed(pc.word, pc.bits, frame, stored);
      if stored {
        rxFifo := Put(rxFifo, frame);
      } else {
        ris := ris.(ror := true);
      }
      pc := ZeroWait;
    }

    method WriteData(value: Word) returns (ok: bool, e: Event)
      modifies this`cfg, this`txFifo, this`kernel, this`sr
      ensures (View(), e, ok) == Spi.WriteData(old(View()), value)
    {
      cfg := cfg.(dr := value);
      if NumFree(txFifo) == 0 {
        return false, Rejected;
      }
      txFifo := Put(txFifo, value);
      kernel := kernel.(intrPending := true, txPending := true);
      UpdateStatusReg();
      return true, Accepted(value);
    }

    /** The registers other than DR. */
    method WriteControl(offset: nat, value: Word)
      requires offset != 0x08
      modifies this`cfg, this`kernel, this`ris
      ensures View() == Spi.WriteControl(old(View()), offset, value)
    {
      if offset == 0x00 {
        cfg := cfg.(cr0 := value);
      } else if offset == 0x04 {
        cfg := cfg.(cr1 := value % 16);
        if Enabled(value % 16) {
          kernel := kernel.(txPending := true);
        }
      } else if offset == 0x10 {
        cfg := cfg.(cpsr := value % 0x100 - value % 2);
      } else if offset == 0x14 {
        cfg := cfg.(imsc := ToIrqs(value));
        kernel := kernel.(intrPending := true);
      } else if offset == 0x20 {
        cfg := cfg.(icr := 3 - value % 4);
        ris := ris.(ror := ris.ror && !Bit(value, 1), rt := ris.rt && !Bit(value, 2));
        kernel := kernel.(intrPending := true);
      } else if offset == 0x24 {
        cfg := cfg.(dmacr := value % 4);
      }
    }

    method WriteReg(offset: nat, value: Word) returns (ok: bool, e: Event)
      modifies this`cfg, this`txFifo, this`kernel, this`sr, this`ris
      ensures (View(), e, ok) == Spi.WriteReg(old(View()), offset, value)
    {
      if offset == 0x08 {
        ok, e := WriteData(value);
      } else {
        WriteControl(offset, value);
        ok, e := offset in {0x00, 0x04, 0x10, 0x14, 0x20, 0x24}, Quiet;
      }
    }

    method ReadData() returns (value: Word, e: Event)
      modifies this`ris, this`kernel, this`rxFifo
      ensures (View(), e, value) == Spi.ReadData(old(View()))
    {
      if NumAvailable(rxFifo) == 0 {
        ris := ris.(ror := true);
        kernel := kernel.(intrPending := true);
        return 0, ReadEmpty;
      }
      var (data, rest) := Get(rxFifo);
      rxFifo := rest;
      kernel := kernel.(intrPending := true, statusPending := true);
      value := Masked(data, FrameBits(cfg.cr0));
      e := Received(data);
    }

    method ReadReg(offset: nat) returns (value: Word, e: Event)
      modifies this`ris, this`kernel, this`rxFifo
      ensures (View(), e, value) == Spi.ReadReg(old(View()), offset)
    {
      if offset == 0x08 {
        value, e := ReadData();
      } else {
        value, e := Peek(View(), offset), Quiet;
      }
    }

    /** A bus write; the offset parameter of `write_reg` keeps eight bits of the address. */
    method BusWrite(addr: nat, len: nat, value: Word) returns (response: Response, e: Event)
      modifies this
      ensures (View(), e) == Step(old(View()), Write(addr, len, value))
      ensures response == if Refused(addr, len) then ErrorReport
                          else if Spi.WriteReg(old(View()), addr % 0x100, value).2 then Ok
                          else GenericError
    {
      if addr > 0xFFC || len > 2 {
        return ErrorReport, Quiet;
      }
      var ok;
      ok, e := WriteReg(addr % 0x100, value);
      response := if ok then Ok else GenericError;
    }

    /** A bus read; as many bytes of the value are copied as the buffer holds. */
    method BusRead(addr: nat, len: nat, buffer: seq<Byte>) returns (response: Response, data: seq<Byte>, e: Event)
      requires |buffer| == len
      modifies this
      ensures (View(), e) == Step(old(View()), Read(addr, len))
      ensures response == if Refused(addr, len) then ErrorReport else Ok
      ensures |data| == len
      ensures forall i :: 0 <= i < len ==>
                data[i] == if response == Ok then FromNat(Spi.ReadReg(old(View()), addr).2, 2)[i] else buffer[i]
    {
      if addr > 0xFFC || len > 2 {
        return ErrorReport, buffer, Quiet;
      }
      var value;
      value, e := ReadReg(addr);
      data := Patch(buffer, 0, FromNat(value, 2)[..Min(2, len)]);
      response := Ok;
    }
  }
}
