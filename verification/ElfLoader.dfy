/** The loader's loop, writing through the router object. */
module ElfLoader {
  import opened Arithmetic
  import opened Bytes
  import opened Memory
  import opened Tlm
  import opened Elf
  import RouterDevice

  method WriteBlock(router: RouterDevice.Device, addr: nat, data: seq<Byte>) returns (r: Result<()>)
    requires router.Valid()
    modifies router.Stores()
    ensures router.Valid() && (router.View(), r) == DbgWrite(old(router.View()), addr, data)
  {
    var len := |data| % TWO32;
    var trans := Payload(WriteCommand, addr, len, Some(data), false, Incomplete);
    var q, n := router.TransportDbg(trans);
    r := if n != len then Failure(WriteIncomplete) else Success(());
  }

  /** One turn of the program-header loop. */
  method LoadHeader(router: RouterDevice.Device, b: seq<Byte>, h: Header, i: nat) returns (w: Result<()>)
    requires router.Valid()
    modifies router.Stores()
    ensures router.Valid() && (router.View(), w) == LoadOne(old(router.View()), b, h, i)
  {
    var plan := PlanOf(b, h, i);
    if plan.Failure? {
      return Failure(plan.error);
    }
    if plan.value.Skip? {
      return Success(());
    }
    PlanInFile(b, h, i);
    w := WriteBlock(router, plan.value.paddr, b[plan.value.offset..plan.value.offset + plan.value.filesz]);
  }

  method Load(router: RouterDevice.Device, b: seq<Byte>) returns (r: Result<nat>)
    requires router.Valid()
    modifies router.Stores()
    ensures router.Valid() && (router.View(), r) == LoadElf(old(router.View()), b)
  {
    var header := ParseHeader(b);
    if header.Failure? {
      return Failure(header.error);
    }
    var h := header.value;
    var i := 0;
    while i < h.phnum
      invariant i <= h.phnum && router.Valid()
      invariant LoadFrom(router.View(), b, h, i) == LoadFrom(old(router.View()), b, h, 0)
    {
      var w := LoadHeader(router, b, h, i);
      if w.Failure? {
        return Failure(w.error);
      }
      i := i + 1;
    }
    r := Success(h.entry);
  }
}
