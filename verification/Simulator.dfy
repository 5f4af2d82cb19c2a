/**
 The simulated programmer and target of tests/sim_programmer.c, in the form the C
 has: one object that every operation updates in place.  Each operation is proved
 to do what its specification function in Target or DebugModule says, and nothing
 else.
 */
module Simulator {
  import opened Words
  import opened RiscV
  import T = Target
  import D = DebugModule

  class Sim {
    var target: T.Target
    var dm: D.Dm
    var programmer: D.Programmer

    ghost predicate Valid()
      reads this
    {
      target.Valid() && dm.Valid()
    }

    ghost function State(): (s: D.State)
      reads this
    {
      D.State(target, dm, programmer)
    }

    /** A part that has just been built: flash erased, everything else zero. */
    constructor (flashSize: nat, ramSize: nat, ramBase: nat, lag: nat -> nat, dmLag: nat -> nat, flashBase: word,
                 refusesReattach: bool, familyId: byte, modelHigh: byte, modelLow: byte)
      ensures Valid()
      ensures target == T.Target(T.Blank(flashSize), seq(ramSize, i => 0), ramBase, 0, 0, false, false,
                                 0, 0, T.Blank(T.PAGE),
                                 0, 0, 0, 0, 0, [], [], lag)
      ensures dm == D.Dm(seq(128, i => 0), seq(32, i => 0), seq(8, i => 0), 0, flashBase, 0, 0, 0, 0, 0, 0, dmLag)
      ensures programmer == D.Programmer(false, 0, 0, false, 0, refusesReattach, familyId, modelHigh, modelLow)
    {
      target := T.Target(T.Blank(flashSize), seq(ramSize, i => 0), ramBase, 0, 0, false, false, 0, 0, T.Blank(T.PAGE),
                         0, 0, 0, 0, 0, [], [], lag);
      dm := D.Dm(seq(128, i => 0), seq(32, i => 0), seq(8, i => 0), 0, flashBase, 0, 0, 0, 0, 0, 0, dmLag);
      programmer := D.Programmer(false, 0, 0, false, 0, refusesReattach, familyId, modelHigh, modelLow);
    }

    // Flash arrays.

    method EraseBytes(offset: nat, n: nat)
      requires Valid()
      modifies this`target
      ensures Valid()
      ensures target == old(target).(flash := T.Erased(old(target.flash), offset, n))
    {
      ghost var was := target.flash;
      var i := 0;
      while i < n && offset + i < |target.flash|
        invariant i <= n
        invariant target == old(target).(flash := T.Erased(was, offset, i))
      {
        target := target.(flash := target.flash[offset + i := 0xff]);
        i := i + 1;
        assert target.flash == T.Erased(was, offset, i);
      }
      assert target.flash == T.Erased(was, offset, n);
    }

    /** Programs `data` and counts the bytes that asked for a 0 bit to be set. */
    method ProgramBytes(offset: nat, data: seq<byte>)
      requires Valid()
      modifies this`target
      ensures Valid()
      ensures target == old(target).(
        flash := T.Programmed(old(target.flash), offset, data),
        errors := old(target.errors) + T.SetRequests(old(target.flash), offset, data, |data|))
    {
      hide T.ClearBits, T.AsksToSet, T.Programmed, T.SetRequests;
      ProgrammedNothing(target.flash, offset, data);
      ghost var was := target.flash;
      var i := 0;
      while i < |data| && offset + i < |target.flash|
        invariant i <= |data|
        invariant target == old(target).(
          flash := T.Programmed(was, offset, data[..i]),
          errors := old(target.errors) + T.SetRequests(was, offset, data, i))
      {
        if T.AsksToSet(target.flash[offset + i], data[i]) {
          target := target.(errors := target.errors + 1);
        }
        ProgrammedOneMore(was, offset, data, i);
        RequestsOneMore(was, offset, data, i);
        target := target.(flash := target.flash[offset + i := T.ClearBits(target.flash[offset + i], data[i])]);
        i := i + 1;
      }
      SetRequestsPastEnd(was, offset, data, i, |data|);
      ProgrammedPastEnd(was, offset, data, i);
    }

    static lemma RequestsOneMore(m: seq<byte>, offset: nat, data: seq<byte>, i: nat)
      requires i < |data| && offset + i < |m|
      ensures T.SetRequests(m, offset, data, i + 1) ==
        T.SetRequests(m, offset, data, i) + if T.AsksToSet(m[offset + i], data[i]) then 1 else 0
    {}

    static lemma ProgrammedNothing(m: seq<byte>, offset: nat, data: seq<byte>)
      ensures T.Programmed(m, offset, data[..0]) == m && T.SetRequests(m, offset, data, 0) == 0
    {}

    static lemma ProgrammedOneMore(m: seq<byte>, offset: nat, data: seq<byte>, i: nat)
      requires i < |data| && offset + i < |m|
      ensures var part := T.Programmed(m, offset, data[..i]);
        part[offset + i] == m[offset + i] &&
        T.Programmed(m, offset, data[..i + 1]) == part[offset + i := T.ClearBits(m[offset + i], data[i])]
    {}

    static lemma ProgrammedPastEnd(m: seq<byte>, offset: nat, data: seq<byte>, i: nat)
      requires i <= |data|
      requires i == |data| || offset + i >= |m|
      ensures T.Programmed(m, offset, data) == T.Programmed(m, offset, data[..i])
    {}

    static lemma SetRequestsPastEnd(m: seq<byte>, offset: nat, data: seq<byte>, i: nat, k: nat)
      requires i <= k <= |data|
      requires i == k || offset + i >= |m|
      ensures T.SetRequests(m, offset, data, k) == T.SetRequests(m, offset, data, i)
    {}

    // The flash controller.

    method Begin()
      requires Valid()
      modifies this`target
      ensures Valid()
      ensures target == old(target).Begin()
    {
      target := target.(busy := target.lag(target.started));
      target := target.(started := target.started + 1);
    }

    method FlashProgramPage()
      requires Valid()
      modifies this`target
      ensures Valid()
      ensures target == T.ProgramPage(old(target))
    {
      hide Nat, T.Programmed, T.SetRequests;
      var offset := T.FlashOffset(Nat(target.addr));
      if !target.modeUnlocked {
        target := target.(errors := target.errors + 1);
        return;
      }
      ProgramBytes(offset, target.pageBuf);
      target := target.(programs := target.programs + 1);
      Begin();
    }

    method EraseBlock(n: nat)
      requires Valid()
      modifies this`target
      ensures Valid()
      ensures target == T.EraseBlock(old(target), n)
    {
      hide Nat, T.Erased;
      EraseBytes(T.FlashOffset(Nat(target.addr)), n);
      target := target.(erases := target.erases + 1);
      Begin();
    }

    method WriteCtlr(value: word)
      requires Valid()
      modifies this`target
      ensures Valid()
      ensures target == T.WriteCtlr(old(target), value)
    {
      hide T.EraseBlock, T.ProgramPage, Has;
      if Has(value, T.CTLR_STRT) {
        target := target.(starts := target.starts + [T.Start(value, target.addr, target.busy > 0)]);
      }
      target := target.(ctlr := value);
      if Has(value, T.CTLR_BUF_RST) {
        if target.modeUnlocked {
          target := target.(pageBuf := T.Blank(T.PAGE));
        } else {
          target := target.(errors := target.errors + 1);
        }
        Begin();
        return;
      }
      if !Has(value, T.CTLR_STRT) {
        return;
      }
      if Has(value, T.CTLR_PAGE_ER) {
        if !target.modeUnlocked {
          target := target.(errors := target.errors + 1);
          return;
        }
        EraseBlock(T.PAGE);
      } else if Has(value, T.CTLR_PAGE_PG) {
        FlashProgramPage();
      } else if Has(value, T.CTLR_PER) {
        EraseBlock(1024);
      } else {
        Begin();
      }
    }

    method CtrlWrite(address: nat, value: word)
      requires Valid()
      modifies this`target
      ensures Valid()
      ensures target == T.CtrlWrite(old(target), address, value)
    {
      hide T.WriteCtlr;
      if address == T.KEYR {
        if value == T.KEY1 {
          target := target.(keyStage := 1);
        } else if value == T.KEY2 && target.keyStage == 1 {
          target := target.(unlocked := true);
          target := target.(keyStage := 0);
        } else {
          target := target.(keyStage := 0);
        }
      } else if address == T.MODEKEYR {
        if value == T.KEY1 {
          target := target.(modeKeyStage := 1);
        } else if value == T.KEY2 && target.modeKeyStage == 1 {
          target := target.(modeUnlocked := true);
          target := target.(modeKeyStage := 0);
        } else {
          target := target.(modeKeyStage := 0);
        }
      } else if address == T.ADDR {
        target := target.(addr := value);
      } else if address == T.CTLR {
        WriteCtlr(value);
      }
    }

    method CtrlRead(address: nat) returns (value: word)
      requires Valid()
      modifies this`target
      ensures Valid()
      ensures (target, value) == T.CtrlRead(old(target), address)
    {
      hide Or, AndNot;
      if address == T.STATR {
        value := 0;
        if target.busy > 0 {
          target := target.(busy := target.busy - 1);
          value := Or(value, T.STATR_BSY);
        }
        if target.errors > 0 {
          value := Or(value, T.STATR_WRPRTERR);
        }
      } else if address == T.CTLR {
        value := if target.unlocked then AndNot(target.ctlr, T.CTLR_LOCK) else Or(target.ctlr, T.CTLR_LOCK);
      } else if address == T.ADDR {
        value := target.addr;
      } else {
        value := 0;
      }
    }

    // Accesses by the core.

    method FlashStore(offset: nat, size: nat, value: word)
      requires Valid() && size <= 2 && offset + T.Width(size) <= |target.flash|
      modifies this`target
      ensures Valid()
      ensures target == T.FlashStore(old(target), offset, size, value)
    {
      hide T.Programmed, T.SetRequests, Bytes, Has, T.StoreTo;
      if target.modeUnlocked && Has(target.ctlr, T.CTLR_PAGE_PG) && size == 2 {
        var at := offset % T.PAGE;
        if at + 4 <= T.PAGE {
          var buffer := StoreBytes(target.pageBuf, at, 2, value);
          target := target.(pageBuf := buffer);
          Begin();
          return;
        }
        target := target.(errors := target.errors + 1);
        return;
      }
      if !target.unlocked || !Has(target.ctlr, T.CTLR_PG) {
        target := target.(errors := target.errors + 1);
        return;
      }
      ProgramBytes(offset, Bytes(value)[..T.Width(size)]);
      target := target.(programs := target.programs + 1);
      Begin();
    }

    static method StoreBytes(m: seq<byte>, offset: nat, size: nat, value: word) returns (r: seq<byte>)
      requires size <= 2 && offset + T.Width(size) <= |m|
      ensures r == T.StoreTo(m, offset, size, value)
    {
      hide Bytes;
      r := m;
      var i := 0;
      while i < T.Width(size)
        invariant i <= T.Width(size)
        invariant r == m[..offset] + Bytes(value)[..i] + m[offset + i..]
      {
        r := r[offset + i := Bytes(value)[i]];
        i := i + 1;
      }
    }

    method Store(address: nat, size: nat, value: word)
      requires Valid()
      modifies this`target
      ensures Valid()
      ensures target == T.AccessStore(old(target), address, size, value)
    {
      hide T.CtrlWrite, T.FlashStore, T.StoreTo;
      target := target.(bus := target.bus + [T.Put(address, size, value)]);
      if T.IsCtrl(address) {
        CtrlWrite(address - address % 4, value);
      } else if size > 2 {
        return;
      } else if T.IsFlash(address) {
        if T.FlashOffset(address) + T.Width(size) <= |target.flash| {
          FlashStore(T.FlashOffset(address), size, value);
        }
      } else if T.IsRam(target, address) {
        if address - target.ramBase + T.Width(size) <= |target.ram| {
          var ram := StoreBytes(target.ram, address - target.ramBase, size, value);
          target := target.(ram := ram);
        }
      }
    }

    method Load(address: nat, size: nat) returns (value: word)
      requires Valid()
      modifies this`target
      ensures Valid()
      ensures (target, value) == T.AccessLoad(old(target), address, size)
    {
      hide T.CtrlRead, T.LoadFrom;
      target := target.(bus := target.bus + [T.Fetch(address, size)]);
      value := 0;
      if T.IsCtrl(address) {
        value := CtrlRead(address - address % 4);
      } else if size > 2 {
        return;
      } else if T.IsFlash(address) {
        if T.FlashOffset(address) + T.Width(size) <= |target.flash| {
          value := T.LoadFrom(target.flash, T.FlashOffset(address), size);
        }
      } else if T.IsRam(target, address) {
        if address - target.ramBase + T.Width(size) <= |target.ram| {
          value := T.LoadFrom(target.ram, address - target.ramBase, size);
        }
      }
    }

    // The program buffer.

    /** Runs the buffer until ebreak; false on a bad instruction or an exhausted budget. */
    method RunProgbuf() returns (ok: bool)
      requires Valid() && dm.pc / 4 < 8
      modifies this`target, this`dm
      ensures Valid()
      ensures (target, dm) == D.Run(old(target), old(dm), D.MAX_STEPS)
      ensures ok <==> dm.illegal == old(dm.illegal)
    {
      hide D.StepInstruction;
      var steps := 0;
      while steps < D.MAX_STEPS
        invariant Valid() && steps <= D.MAX_STEPS && dm.pc / 4 < 8
        invariant D.Run(target, dm, D.MAX_STEPS - steps) == D.Run(old(target), old(dm), D.MAX_STEPS)
        invariant dm.illegal == old(dm.illegal)
      {
        var stop, good := RunInstruction();
        if stop {
          return good;
        }
        if dm.pc / 4 >= 8 {
          dm := dm.(illegal := dm.illegal + 1);
          return false;
        }
        steps := steps + 1;
      }
      dm := dm.(illegal := dm.illegal + 1);
      return false;
    }

    method RunStore(i: word)
      requires Valid()
      modifies this`target, this`dm
      ensures Valid() && D.Go(target, dm) == D.StepStore(old(target), old(dm), i) && dm.illegal == old(dm.illegal)
    {
      hide T.AccessStore, D.EffectiveAddress, D.AccessSize, D.StoreOffset, D.Base, D.Source;
      Store(D.EffectiveAddress(dm.gpr[D.Base(i)], D.StoreOffset(i)), D.AccessSize(i), dm.gpr[D.Source(i)]);
      dm := dm.(pc := dm.pc + 4);
    }

    method RunLoad(i: word)
      requires Valid()
      modifies this`target, this`dm
      ensures Valid() && D.Go(target, dm) == D.StepLoad(old(target), old(dm), i) && dm.illegal == old(dm.illegal)
    {
      hide T.AccessLoad, D.EffectiveAddress, D.AccessSize, D.LoadOffset, D.SetGpr, D.Extract, D.Base, D.Destination;
      var value := Load(D.EffectiveAddress(dm.gpr[D.Base(i)], D.LoadOffset(i)), D.AccessSize(i));
      dm := dm.(gpr := D.SetGpr(dm.gpr, D.Destination(i), D.Extract(i, value)));
      dm := dm.(pc := dm.pc + 4);
    }

    method RunAddi(i: word)
      requires Valid()
      modifies this`dm
      ensures Valid() && D.Go(target, dm) == D.StepAddi(target, old(dm), i) && dm.illegal == old(dm.illegal)
    {
      hide D.SetGpr, D.Base, D.Destination, D.AddImmediate;
      dm := dm.(gpr := D.SetGpr(dm.gpr, D.Destination(i), D.AddImmediate(dm.gpr[D.Base(i)], i)));
      dm := dm.(pc := dm.pc + 4);
    }

    method RunBne(i: word)
      requires Valid()
      modifies this`dm
      ensures Valid() && D.Go(target, dm) == D.StepBne(target, old(dm), i) && dm.illegal == old(dm.illegal)
    {
      hide D.Base, D.Source, D.BranchOffset, D.BranchTarget;
      if dm.gpr[D.Base(i)] != dm.gpr[D.Source(i)] {
        dm := dm.(pc := D.BranchTarget(dm.pc, i));
      } else {
        dm := dm.(pc := dm.pc + 4);
      }
    }

    method RunInstruction() returns (stop: bool, good: bool)
      requires Valid() && dm.pc / 4 < 8
      modifies this`target, this`dm
      ensures Valid()
      ensures D.StepInstruction(old(target), old(dm)) == if stop then D.Done(target, dm) else D.Go(target, dm)
      ensures good <==> dm.illegal == old(dm.illegal)
      ensures !stop ==> good
    {
      hide D.StepStore, D.StepLoad, D.StepAddi, D.StepBne, D.IsEbreak, Opcode;
      var i := dm.progbuf[dm.pc / 4];
      stop, good := false, true;
      if Opcode(i) == 0x23 {
        RunStore(i);
      } else if Opcode(i) == 0x03 {
        RunLoad(i);
      } else if Opcode(i) == 0x13 {
        RunAddi(i);
      } else if Opcode(i) == 0x63 {
        RunBne(i);
      } else if D.IsEbreak(i) {
        stop := true;
      } else {
        dm := dm.(illegal := dm.illegal + 1);
        stop, good := true, false;
      }
    }

    // The debug module.

    method TransferRegister(c: word)
      requires Valid()
      modifies this`dm
      ensures Valid()
      ensures dm == D.TransferRegister(old(dm), c)
    {
      hide D.SetGpr, D.Reg, D.RegNo, D.Write, D.AarSize, D.IsGpr, D.Narrow;
      var regno := D.RegNo(c);
      if regno == D.DPC || regno == D.DCSR {
        if D.Write(c) {
          if regno == D.DPC {
            dm := dm.(dpc := dm.dmi[D.DATA0]);
          } else {
            dm := dm.(dcsr := dm.dmi[D.DATA0]);
          }
        } else {
          dm := dm.(dmi := dm.dmi[D.DATA0 := if regno == D.DPC then dm.dpc else dm.dcsr]);
        }
      } else if D.IsGpr(regno) {
        if D.Write(c) {
          dm := dm.(gpr := D.SetGpr(dm.gpr, D.Reg(regno), dm.dmi[D.DATA0]));
        } else {
          dm := dm.(dmi := dm.dmi[D.DATA0 := D.Narrow(D.AarSize(c), dm.gpr[D.Reg(regno)])]);
        }
      }
    }

    method ExecuteCommand(c: word)
      requires Valid()
      modifies this`target, this`dm
      ensures Valid()
      ensures (target, dm) == D.Execute(old(target), old(dm), c)
    {
      hide D.TransferRegister, D.Run, D.Supported, D.Transfer, D.PostExec;
      dm := dm.(misissued := dm.misissued + if dm.cmderr != 0 then 1 else 0);
      dm := dm.(pending := dm.lag(dm.issued));
      dm := dm.(issued := dm.issued + 1);
      if !D.Supported(c) {
        dm := dm.(cmderr := 2);
        return;
      }
      if D.Transfer(c) {
        TransferRegister(c);
      }
      if D.PostExec(c) {
        dm := dm.(pc := 0);
        var ok := RunProgbuf();
      }
    }

    method DmiWrite(reg: nat, value: word)
      requires Valid()
      modifies this`target, this`dm
      ensures Valid()
      ensures (target, dm) == D.DmiWrite(old(target), old(dm), reg, value)
    {
      hide D.Execute, D.ClearErrors;
      if reg < 128 {
        dm := dm.(dmi := dm.dmi[reg := value]);
      }
      if reg == D.ABSTRACTCS {
        dm := dm.(cmderr := D.ClearErrors(dm.cmderr, value));
      } else if D.PROGBUF0 <= reg < D.PROGBUF0 + 8 {
        dm := dm.(progbuf := dm.progbuf[reg - D.PROGBUF0 := value]);
      } else if reg == D.COMMAND {
        ExecuteCommand(value);
      }
    }

    method DmiRead(reg: nat) returns (value: word)
      requires Valid()
      modifies this`dm
      ensures Valid()
      ensures (dm, value) == D.DmiRead(old(dm), reg)
    {
      hide D.AbstractcsValue;
      if reg == D.ABSTRACTCS {
        value := D.AbstractcsValue(dm.pending > 0, dm.cmderr);
        if dm.pending > 0 {
          dm := dm.(pending := dm.pending - 1);
        }
      } else if reg < 128 {
        value := dm.dmi[reg];
      } else {
        value := 0;
      }
    }

    // Packets.

    method Control(sub: byte) returns (reply: seq<byte>)
      requires Valid()
      modifies this`programmer
      ensures (programmer, reply) == D.Control(old(programmer), sub)
    {
      if sub == 0x01 {
        reply := [0x82, 0x0d, 0x04, 0x02, 0x07, 18, 0x00];
      } else if sub == 0x02 {
        if programmer.attached && programmer.refusesReattach {
          reply := [0x82, 0x0d, 0x05, 0x09];
        } else {
          programmer := programmer.(attached := true);
          reply := [0x82, 0x0d, 0x05, programmer.familyId, programmer.modelHigh, programmer.modelLow, 0x05, 0x00];
        }
      } else if sub == 0x13 {
        if programmer.attached {
          programmer := programmer.(resets := programmer.resets + 1);
        }
        reply := [0x82, 0x0d, 0x05, 0x09];
      } else {
        if sub == 0xff {
          programmer := programmer.(attached := false);
        }
        reply := [0x82, 0x0d, 0x05, 0x09];
      }
    }

    method RegisterAccess(reg: byte, value: word, operation: byte) returns (reply: seq<byte>)
      requires Valid()
      modifies this`target, this`dm
      ensures Valid()
      ensures (State(), reply) == D.RegisterAccess(old(State()), reg, value, operation)
    {
      hide D.DmiWrite, D.DmiRead, Val, D.RegisterReply;
      if !programmer.configured {
        return D.REFUSAL;
      }
      if operation == 0x02 {
        DmiWrite(Val(reg), value);
      } else if operation != 0x01 {
        return D.REFUSAL;
      }
      var v := DmiRead(Val(reg));
      reply := D.RegisterReply(reg, v);
    }

    /** One packet; a negative rc is a transport error and changes nothing. */
    method Command(request: seq<byte>) returns (rc: int, reply: seq<byte>)
      requires Valid()
      modifies this
      ensures Valid()
      ensures D.WellFormed(request) ==> rc == 0 && (State(), reply) == D.Command(old(State()), request)
      ensures !D.WellFormed(request) ==> rc < 0 && State() == old(State())
    {
      hide D.Control, D.RegisterAccess, Join;
      if |request| < 3 || request[0] != 0x81 {
        return -1, [];
      }
      rc := 0;
      if request[1] == 0x0d {
        reply := Control(if |request| > 3 then request[3] else 0);
      } else if request[1] == 0x0c {
        if |request| < 5 {
          reply := D.REFUSAL;
        } else {
          programmer := programmer.(chipId := request[3]);
          programmer := programmer.(speed := request[4]);
          programmer := programmer.(configured := true);
          reply := [0x82, 0x0c, 0x02, request[3]];
        }
      } else if request[1] == 0x0b {
        programmer := programmer.(attached := false);
        reply := [0x82, 0x0b, 0x01];
      } else if request[1] == 0x08 {
        if |request| < 9 {
          reply := D.REFUSAL;
        } else {
          reply := RegisterAccess(request[3], Join(request[7], request[6], request[5], request[4]), request[8]);
        }
      } else {
        reply := D.REFUSAL;
      }
    }
  }
}
