/**
 The debug module and the programmer in front of it, as tests/sim_programmer.c
 defines them: the program-buffer interpreter, abstract commands, debug-module
 registers and the packets that reach them.

 Specification only; module Simulator carries it out in place.  The simulator's
 debug module is never busy.  Here the n-th abstract command reports busy for
 `lag(n)` polls, and `misissued` counts the commands issued while cmderr was set,
 which section 3.12.6 of the RISC-V Debug Specification 0.13.2 forbids.
 */
module DebugModule {
  import opened Words
  import opened Target
  import opened RiscV

  const DATA0 := 0x04
  const ABSTRACTCS := 0x16
  const COMMAND := 0x17
  const ABSTRACTAUTO := 0x18
  const PROGBUF0 := 0x20

  const DCSR: word := 0x7b0
  const DPC: word := 0x7b1

  const ABSTRACTCS_BUSY: word := 0x1000
  const MAX_STEPS := 256

  datatype Dm = Dm(
    dmi: seq<word>,
    gpr: seq<word>,
    progbuf: seq<word>,
    pc: nat,
    dpc: word,
    dcsr: word,
    cmderr: word,
    illegal: nat,
    pending: nat,
    issued: nat,
    misissued: nat,
    lag: nat -> nat)
  {
    ghost predicate Valid() {
      |dmi| == 128 && |gpr| == 32 && |progbuf| == 8 && cmderr <= 7
    }
  }

  /** A five-bit register field as an index. */
  function Reg(field: word): (r: nat)
    ensures r < 32
  {
    RegBound(field);
    Val((field & 0x1f) as byte)
  }

  lemma RegBound(field: word)
    ensures Val((field & 0x1f) as byte) < 32
  {}

  function SetGpr(gpr: seq<word>, r: nat, value: word): (s: seq<word>)
    requires r < |gpr|
    ensures |s| == |gpr|
  {
    gpr[r := if r == 0 then 0 else value]
  }

  // The interpreter.

  datatype Outcome = Go(t: Target, d: Dm) | Done(t: Target, d: Dm)

  function Bad(t: Target, d: Dm): Outcome { Done(t, d.(illegal := d.illegal + 1)) }

  function Base(i: word): (r: nat)
    ensures r < 32
  {
    Reg(i >> 15)
  }
  function Source(i: word): (r: nat)
    ensures r < 32
  {
    Reg(i >> 20)
  }
  function Destination(i: word): (r: nat)
    ensures r < 32
  {
    Reg(i >> 7)
  }
  function StoreOffset(i: word): word { ((i >> 25) << 5) | ((i >> 7) & 0x1f) }
  function LoadOffset(i: word): word { i >> 20 }
  function EffectiveAddress(base: word, offset: word): nat { Nat(base + offset) }
  function AddImmediate(v: word, i: word): word { v + SignExtend(i >> 20, 0x800) }
  predicate IsEbreak(i: word) { Opcode(i) == 0x73 && i >> 20 == 0x001 }
  function AccessSize(i: word): nat { Val((Funct3(i) & 0x3) as byte) }

  function StepStore(t: Target, d: Dm, i: word): Outcome
    requires t.Valid() && d.Valid()
  {
    Go(AccessStore(t, EffectiveAddress(d.gpr[Base(i)], StoreOffset(i)), AccessSize(i), d.gpr[Source(i)]),
       d.(pc := d.pc + 4))
  }

  /** The simulator narrows only lbu's result; lh arrives sign-extended. */
  function Extract(i: word, v: word): word { if Funct3(i) == 4 then v & 0xff else v }

  function StepLoad(t: Target, d: Dm, i: word): Outcome
    requires t.Valid() && d.Valid()
  {
    var r := AccessLoad(t, EffectiveAddress(d.gpr[Base(i)], LoadOffset(i)), AccessSize(i));
    Go(r.0, d.(gpr := SetGpr(d.gpr, Destination(i), Extract(i, r.1)), pc := d.pc + 4))
  }

  function StepAddi(t: Target, d: Dm, i: word): Outcome
    requires d.Valid()
  {
    Go(t, d.(gpr := SetGpr(d.gpr, Destination(i), AddImmediate(d.gpr[Base(i)], i)), pc := d.pc + 4))
  }

  /** The simulator places instruction bit 7 at imm[0]; the ISA places it at imm[11]. */
  function BranchOffset(i: word): word {
    ((i >> 31) << 12) | (((i >> 25) & 0x3f) << 5) | (((i >> 8) & 0xf) << 1) | ((i >> 7) & 0x1)
  }

  function BranchTarget(pc: nat, i: word): nat {
    (pc + Nat(SignExtend(BranchOffset(i), 0x1000))) % WORD_LIMIT
  }

  function StepBne(t: Target, d: Dm, i: word): Outcome
    requires d.Valid()
  {
    Go(t, d.(pc := if d.gpr[Base(i)] != d.gpr[Source(i)] then BranchTarget(d.pc, i) else d.pc + 4))
  }

  /** One instruction; every operand is taken from raw bit fields, as the simulator does. */
  function StepInstruction(t: Target, d: Dm): (r: Outcome)
    requires t.Valid() && d.Valid() && d.pc / 4 < 8
    ensures r.t.Valid() && r.d.Valid()
    ensures r.d == d.(gpr := r.d.gpr, pc := r.d.pc, illegal := r.d.illegal)
  {
    var i := d.progbuf[d.pc / 4];
    if Opcode(i) == 0x23 then StepStore(t, d, i)
    else if Opcode(i) == 0x03 then StepLoad(t, d, i)
    else if Opcode(i) == 0x13 then StepAddi(t, d, i)
    else if Opcode(i) == 0x63 then StepBne(t, d, i)
    else if IsEbreak(i) then Done(t, d)
    else Bad(t, d)
  }

  /** Run until ebreak, a bad instruction, or the end of the buffer or of the step budget. */
  function Run(t: Target, d: Dm, steps: nat): (r: (Target, Dm))
    requires t.Valid() && d.Valid() && d.pc / 4 < 8
    ensures r.0.Valid() && r.1.Valid()
    ensures r.1 == d.(gpr := r.1.gpr, pc := r.1.pc, illegal := r.1.illegal)
    decreases steps
  {
    if steps == 0 then (t, d.(illegal := d.illegal + 1))
    else
      match StepInstruction(t, d)
      case Done(t1, d1) => (t1, d1)
      case Go(t1, d1) => if d1.pc / 4 >= 8 then (t1, d1.(illegal := d1.illegal + 1)) else Run(t1, d1, steps - 1)
  }

  // Branches, and where the simulator leaves the ISA.

  /** The simulator reads a branch offset as the ISA does exactly when instruction bit 7 is clear. */
  lemma BranchOffsetAgrees(i: word)
    ensures SignExtend(BranchOffset(i), 0x1000) == ImmB(i) <==> (i >> 7) & 0x1 == 0
  {}

  /** Instruction bit 7 of an encoded branch is bit 11 of its offset. */
  lemma BneBit7(src1: word, src2: word, imm: word)
    requires src1 < 32 && src2 < 32
    ensures (Bne(src1, src2, imm) >> 7) & 0x1 == (imm >> 11) & 0x1
  {}

  lemma BneRegisters(b1: byte, b2: byte, imm: word)
    requires b1 < 32 && b2 < 32
    ensures var i := Bne(b1 as word, b2 as word, imm);
      Opcode(i) == 0x63 && ((i >> 15) & 0x1f) as byte == b1 && ((i >> 20) & 0x1f) as byte == b2
  {}

  lemma SmallByte(b: byte)
    requires Val(b) < 32
    ensures b < 32 && (b as word) < 32
  {}

  /** Where a taken branch goes by section 2.5 of the ISA: the offset is added to the branch's own address. */
  function IsaTarget(pc: nat, imm: word): nat { (pc + Nat(imm)) % WORD_LIMIT }

  lemma TargetsDiffer(pc: nat, a: word, b: word)
    ensures (pc + Nat(a)) % WORD_LIMIT == (pc + Nat(b)) % WORD_LIMIT <==> a == b
  {
    hide Nat;
    if (pc + Nat(a)) % WORD_LIMIT == (pc + Nat(b)) % WORD_LIMIT {
      SumsUnique(pc, Nat(a), Nat(b));
      NatInjective(a, b);
    }
  }

  lemma SumsUnique(pc: nat, a: nat, b: nat)
    requires a < WORD_LIMIT && b < WORD_LIMIT && (pc + a) % WORD_LIMIT == (pc + b) % WORD_LIMIT
    ensures a == b
  {
    var q, r := (pc + a) / WORD_LIMIT, (pc + b) / WORD_LIMIT;
    assert pc + a - WORD_LIMIT * q == pc + b - WORD_LIMIT * r;
  }

  /**
   The simulator runs the tool's own taken branch to where the ISA says exactly when
   bit 11 of the offset is clear; a branch that is not taken it always runs right.
   */
  lemma BneRunsByIsaIff(t: Target, d: Dm, r1: nat, r2: nat, imm: word)
    requires t.Valid() && d.Valid() && d.pc / 4 < 8 && r1 < 32 && r2 < 32 && FitsBranch(imm)
    requires d.progbuf[d.pc / 4] == Bne(Byte(r1) as word, Byte(r2) as word, imm)
    ensures d.gpr[r1] == d.gpr[r2] ==> StepInstruction(t, d) == Go(t, d.(pc := d.pc + 4))
    ensures d.gpr[r1] != d.gpr[r2] ==>
      (StepInstruction(t, d) == Go(t, d.(pc := IsaTarget(d.pc, imm))) <==> (imm >> 11) & 0x1 == 0)
  {
    hide Byte, Nat, SignExtend, BranchOffset, ImmB, Bne, Opcode, Base, Source, FitsBranch, StepStore, StepLoad,
      StepAddi;
    var i := d.progbuf[d.pc / 4];
    BneReads(r1, r2, imm);
    TargetsDiffer(d.pc, SignExtend(BranchOffset(i), 0x1000), imm);
    assert StepInstruction(t, d) == StepBne(t, d, i);
    assert StepBne(t, d, i).d.pc == if d.gpr[r1] != d.gpr[r2] then BranchTarget(d.pc, i) else d.pc + 4;
  }

  /** What the simulator makes of the operands of an encoded branch. */
  lemma BneReads(r1: nat, r2: nat, imm: word)
    requires r1 < 32 && r2 < 32 && FitsBranch(imm)
    ensures var i := Bne(Byte(r1) as word, Byte(r2) as word, imm);
      && Opcode(i) == 0x63 && Base(i) == r1 && Source(i) == r2
      && (SignExtend(BranchOffset(i), 0x1000) == imm <==> (imm >> 11) & 0x1 == 0)
  {
    hide Val, Byte, SignExtend, BranchOffset, Bne, Opcode, FitsBranch, Base, Source;
    SmallByte(Byte(r1));
    SmallByte(Byte(r2));
    BneOperands(Byte(r1), Byte(r2), imm);
    BneOffset(Byte(r1) as word, Byte(r2) as word, imm);
  }

  lemma BneOperands(b1: byte, b2: byte, imm: word)
    requires b1 < 32 && b2 < 32
    ensures var i := Bne(b1 as word, b2 as word, imm); Opcode(i) == 0x63 && Base(i) == Val(b1) && Source(i) == Val(b2)
  {
    hide Val, Bne;
    BneRegisters(b1, b2, imm);
  }

  lemma BneOffset(src1: word, src2: word, imm: word)
    requires src1 < 32 && src2 < 32 && FitsBranch(imm)
    ensures SignExtend(BranchOffset(Bne(src1, src2, imm)), 0x1000) == imm <==> (imm >> 11) & 0x1 == 0
  {
    hide SignExtend, BranchOffset, ImmB, Bne, FitsBranch;
    BneBit7(src1, src2, imm);
    BranchOffsetAgrees(Bne(src1, src2, imm));
    BneImmediateIs(src1, src2, imm);
  }

  lemma BneImmediateIs(src1: word, src2: word, imm: word)
    requires src1 < 32 && src2 < 32 && FitsBranch(imm)
    ensures ImmB(Bne(src1, src2, imm)) == imm
  {
    hide Bne, ImmB, SignExtend, FitsBranch;
    BneImmediate(src1, src2, imm);
    ExtendBranch(imm);
  }

  /** A branch that the simulator sends elsewhere: 0x800 ahead becomes one byte ahead. */
  lemma BneMisread(t: Target, d: Dm)
    requires t.Valid() && d.Valid() && d.pc == 0 && d.gpr[1] != d.gpr[2] && d.progbuf[0] == Bne(1, 2, 0x800)
    ensures StepInstruction(t, d) == Go(t, d.(pc := 1)) && IsaTarget(0, 0x800) == 0x800
  {
    hide Nat, Val;
    MisreadFields();
    assert StepInstruction(t, d) == StepBne(t, d, d.progbuf[0]);
  }

  lemma MisreadFields()
    ensures var i := Bne(1, 2, 0x800);
      Opcode(i) == 0x63 && Base(i) == 1 && Source(i) == 2 && BranchTarget(0, i) == 1
    ensures Nat(0x800) == 0x800
  {
    var i := Bne(1, 2, 0x800);
    assert (i >> 15) & 0x1f == 1 && (i >> 20) & 0x1f == 2 && SignExtend(BranchOffset(i), 0x1000) == 1;
    assert Nat(1) == 1;
  }

  /** funct3 of the stores the tool uses: sb, sh, sw. */
  function StoreKind(size: nat): word {
    if size == 2 then 2 else if size == 1 then 1 else 0
  }

  /** funct3 of the loads the tool uses: lbu, lh, lw. */
  function LoadKind(size: nat): word {
    if size == 2 then 0x2 else if size == 1 then 0x1 else 0x4
  }

  lemma StoreFields(size: nat)
    requires size <= 2
    ensures var i := Store(StoreKind(size), 8, 9);
      Opcode(i) == 0x23 && AccessSize(i) == size && Base(i) == 9 && Source(i) == 8 && StoreOffset(i) == 0
  {}

  lemma EbreakFields()
    ensures Opcode(Ebreak()) == 0x73 && Ebreak() >> 20 == 0x001
  {}

  /** One step into the second word of the buffer, which is ebreak. */
  lemma RunThenBreak(t: Target, d: Dm, t1: Target, d1: Dm)
    requires t.Valid() && d.Valid() && t1.Valid() && d1.Valid()
    requires d.pc == 0 && StepInstruction(t, d) == Go(t1, d1) && d1.pc == 4 && d1.progbuf[1] == Ebreak()
    ensures Run(t, d, MAX_STEPS) == (t1, d1)
  {}

  lemma AddZero(v: word, zero: word)
    requires zero == 0
    ensures EffectiveAddress(v, zero) == Nat(v)
  {}

  /** `sb`/`sh`/`sw` x8, 0(x9) followed by ebreak is one store of that width. */
  lemma RunStore(t: Target, d: Dm, size: nat)
    requires t.Valid() && d.Valid() && size <= 2
    requires d.pc == 0 && d.progbuf[0] == Store(StoreKind(size), 8, 9) && d.progbuf[1] == Ebreak()
    ensures Run(t, d, MAX_STEPS) == (AccessStore(t, Nat(d.gpr[9]), size, d.gpr[8]), d.(pc := 4))
  {
    StoreFields(size);
    EbreakFields();
    hide AccessStore, Nat, Store, StoreKind, Ebreak, Opcode, Base, Source, StoreOffset, EffectiveAddress, AccessSize,
      Run;
    hide StepLoad, StepAddi, StepBne;
    AddZero(d.gpr[9], StoreOffset(d.progbuf[0]));
    var t1, d1 := AccessStore(t, Nat(d.gpr[9]), size, d.gpr[8]), d.(pc := 4);
    assert StepInstruction(t, d) == StepStore(t, d, d.progbuf[0]) == Go(t1, d1);
    RunThenBreak(t, d, t1, d1);
  }

  lemma LoadFields(size: nat)
    requires size <= 2
    ensures var i := Load(LoadKind(size), 8, 9);
      Opcode(i) == 0x03 && AccessSize(i) == size && Base(i) == 9 && Destination(i) == 8 &&
      LoadOffset(i) == 0 && (Funct3(i) == 4 <==> size == 0)
  {}

  /** What lbu, lh or lw leaves in the register. */
  function Loaded(size: nat, v: word): word {
    if size == 0 then v & 0xff else v
  }

  lemma StepLoadIs(t: Target, d: Dm, size: nat, i: word)
    requires t.Valid() && d.Valid() && size <= 2
    requires AccessSize(i) == size && Base(i) == 9 && Destination(i) == 8 && LoadOffset(i) == 0
    requires Funct3(i) == 4 <==> size == 0
    ensures var r := AccessLoad(t, Nat(d.gpr[9]), size);
      StepLoad(t, d, i) == Go(r.0, d.(gpr := d.gpr[8 := Loaded(size, r.1)], pc := d.pc + 4))
  {}

  lemma SetGprIsUpdate(gpr: seq<word>, r: nat, v: word)
    requires 0 < r < |gpr|
    ensures SetGpr(gpr, r, v) == gpr[r := v]
  {}

  /** `lbu`/`lh`/`lw` x8, 0(x9) followed by ebreak is one load of that width, left in x8. */
  lemma RunLoad(t: Target, d: Dm, size: nat)
    requires t.Valid() && d.Valid() && size <= 2
    requires d.pc == 0 && d.progbuf[0] == Load(LoadKind(size), 8, 9) && d.progbuf[1] == Ebreak()
    ensures var (t1, v) := AccessLoad(t, Nat(d.gpr[9]), size);
      Run(t, d, MAX_STEPS) == (t1, d.(gpr := d.gpr[8 := Loaded(size, v)], pc := 4))
  {
    LoadFields(size);
    EbreakFields();
    StepLoadIs(t, d, size, d.progbuf[0]);
    hide AccessLoad, Nat, Load, LoadKind, Ebreak, Opcode, Loaded, Run;
    hide StepStore, StepLoad, StepAddi, StepBne;
    var (t1, v) := AccessLoad(t, Nat(d.gpr[9]), size);
    RunThenBreak(t, d, t1, d.(gpr := d.gpr[8 := Loaded(size, v)], pc := d.pc + 4));
  }

  // Abstract commands: section 3.6.1.1 of the RISC-V Debug Specification.

  function CmdType(c: word): word { (c >> 24) & 0x7f }
  function AarSize(c: word): word { (c >> 20) & 0x7 }
  predicate PostExec(c: word) { (c >> 18) & 0x1 != 0 }
  predicate Transfer(c: word) { (c >> 17) & 0x1 != 0 }
  predicate Write(c: word) { (c >> 16) & 0x1 != 0 }
  function RegNo(c: word): word { c & 0xffff }

  predicate IsGpr(regno: word) { 0x1000 <= regno <= 0x101f }

  function Narrow(aarsize: word, v: word): word {
    if aarsize == 0 then v & 0xff else if aarsize == 1 then v & 0xffff else v
  }

  /** The transfer between DATA0 and the register the command names. */
  function TransferRegister(d: Dm, c: word): (r: Dm)
    requires d.Valid()
    ensures r.Valid()
    ensures r == d.(dpc := r.dpc, dcsr := r.dcsr, gpr := r.gpr, dmi := r.dmi)
  {
    var regno := RegNo(c);
    if regno == DPC then
      if Write(c) then d.(dpc := d.dmi[DATA0]) else d.(dmi := d.dmi[DATA0 := d.dpc])
    else if regno == DCSR then
      if Write(c) then d.(dcsr := d.dmi[DATA0]) else d.(dmi := d.dmi[DATA0 := d.dcsr])
    else if IsGpr(regno) then
      if Write(c) then d.(gpr := SetGpr(d.gpr, Reg(regno), d.dmi[DATA0]))
      else
        d.(dmi := d.dmi[DATA0 := Narrow(AarSize(c), d.gpr[Reg(regno)])])
    else d
  }

  predicate Supported(c: word) {
    CmdType(c) == 0 && (Transfer(c) ==> RegNo(c) == DPC || RegNo(c) == DCSR || IsGpr(RegNo(c)))
  }

  /** A command is accepted: how long it will look busy, and whether cmderr was clear. */
  function Counted(d: Dm): (r: Dm)
    ensures d.Valid() ==> r.Valid()
  {
    d.(pending := d.lag(d.issued), issued := d.issued + 1, misissued := d.misissued + if d.cmderr != 0 then 1 else 0)
  }

  function Execute(t: Target, d: Dm, c: word): (r: (Target, Dm))
    requires t.Valid() && d.Valid()
    ensures r.0.Valid() && r.1.Valid()
    ensures r.1.progbuf == d.progbuf && r.1.lag == d.lag && r.1.pending == d.lag(d.issued)
    ensures r.1.misissued == Counted(d).misissued
  {
    var d0 := Counted(d);
    if !Supported(c) then (t, d0.(cmderr := 2))
    else
      var d1 := if Transfer(c) then TransferRegister(d0, c) else d0;
      if PostExec(c) then Run(t, d1.(pc := 0), MAX_STEPS) else (t, d1)
  }

  // Debug-module registers.

  /** cmderr is write-1-to-clear. */
  function ClearErrors(cmderr: word, value: word): (r: word)
    ensures cmderr <= 7 ==> r <= 7
  {
    cmderr & !((value >> 8) & 0x7)
  }

  function DmiWrite(t: Target, d: Dm, reg: nat, value: word): (r: (Target, Dm))
    requires t.Valid() && d.Valid()
    ensures r.0.Valid() && r.1.Valid()
  {
    var d1 := if reg < 128 then d.(dmi := d.dmi[reg := value]) else d;
    if reg == ABSTRACTCS then (t, d1.(cmderr := ClearErrors(d1.cmderr, value)))
    else if PROGBUF0 <= reg < PROGBUF0 + 8 then (t, d1.(progbuf := d1.progbuf[reg - PROGBUF0 := value]))
    else if reg == COMMAND then Execute(t, d1, value)
    else (t, d1)
  }

  function AbstractcsValue(busy: bool, cmderr: word): word {
    (if busy then ABSTRACTCS_BUSY else 0) | (cmderr << 8)
  }

  function DmiRead(d: Dm, reg: nat): (r: (Dm, word))
    requires d.Valid()
    ensures r.0.Valid()
  {
    if reg == ABSTRACTCS then
      (if d.pending > 0 then d.(pending := d.pending - 1) else d,
       AbstractcsValue(d.pending > 0, d.cmderr))
    else if reg < 128 then (d, d.dmi[reg])
    else (d, 0)
  }

  // The programmer.

  datatype Programmer = Programmer(
    configured: bool,
    chipId: byte,
    speed: byte,
    attached: bool,
    resets: nat,
    refusesReattach: bool,
    familyId: byte,
    modelHigh: byte,
    modelLow: byte)

  datatype State = State(target: Target, dm: Dm, programmer: Programmer)
  {
    ghost predicate Valid() {
      target.Valid() && dm.Valid()
    }
  }

  const REFUSAL: seq<byte> := [0x81, 0x55, 0x01, 0x00]

  function Control(p: Programmer, sub: byte): (Programmer, seq<byte>) {
    if sub == 0x01 then (p, [0x82, 0x0d, 0x04, 0x02, 0x07, 18, 0x00])
    else if sub == 0x02 then
      if p.attached && p.refusesReattach then (p, [0x82, 0x0d, 0x05, 0x09])
      else (p.(attached := true), [0x82, 0x0d, 0x05, p.familyId, p.modelHigh, p.modelLow, 0x05, 0x00])
    else if sub == 0x13 then (if p.attached then p.(resets := p.resets + 1) else p, [0x82, 0x0d, 0x05, 0x09])
    else (if sub == 0xff then p.(attached := false) else p, [0x82, 0x0d, 0x05, 0x09])
  }

  function RegisterReply(reg: byte, value: word): seq<byte> {
    [0x82, 0x08, 0x06, reg, B3(value), B2(value), B1(value), B0(value), 0x00]
  }

  function RegisterAccess(s: State, reg: byte, value: word, operation: byte): (r: (State, seq<byte>))
    requires s.Valid()
    ensures r.0.Valid()
  {
    if !s.programmer.configured || (operation != 0x01 && operation != 0x02) then (s, REFUSAL)
    else
      var (t, d) := if operation == 0x02 then DmiWrite(s.target, s.dm, Val(reg), value) else (s.target, s.dm);
      var (d', v) := DmiRead(d, Val(reg));
      (s.(target := t, dm := d'), RegisterReply(reg, v))
  }

  predicate WellFormed(request: seq<byte>) {
    |request| >= 3 && request[0] == 0x81
  }

  /** What one well-formed packet does, and what the programmer answers. */
  function Command(s: State, request: seq<byte>): (r: (State, seq<byte>))
    requires s.Valid() && WellFormed(request)
    ensures r.0.Valid()
  {
    var p := s.programmer;
    if request[1] == 0x0d then
      var (p', reply) := Control(p, if |request| > 3 then request[3] else 0);
      (s.(programmer := p'), reply)
    else if request[1] == 0x0c then
      if |request| < 5 then (s, REFUSAL)
      else (s.(programmer := p.(chipId := request[3], speed := request[4], configured := true)),
            [0x82, 0x0c, 0x02, request[3]])
    else if request[1] == 0x0b then (s.(programmer := p.(attached := false)), [0x82, 0x0b, 0x01])
    else if request[1] == 0x08 then
      if |request| < 9 then (s, REFUSAL)
      else RegisterAccess(s, request[3], Join(request[7], request[6], request[5], request[4]), request[8])
    else (s, REFUSAL)
  }

  // The two register packets the host sends, and what they come to.

  function RegisterRequest(reg: byte, value: word, operation: byte): seq<byte> {
    [0x81, 0x08, 0x06, reg, B3(value), B2(value), B1(value), B0(value), operation]
  }

  function ReplyValue(reply: seq<byte>): word
    requires |reply| == 9
  {
    Join(reply[7], reply[6], reply[5], reply[4])
  }

  /** A register write also reads the register back for its reply. */
  function RegWritten(s: State, reg: nat, value: word): (r: State)
    requires s.Valid() && reg < 256
    ensures r.Valid() && r.programmer == s.programmer
  {
    var (t, d) := DmiWrite(s.target, s.dm, reg, value);
    s.(target := t, dm := DmiRead(d, reg).0)
  }

  function RegFetched(s: State, reg: nat): (r: State)
    requires s.Valid() && reg < 256
    ensures r.Valid() && r.programmer == s.programmer
  {
    s.(dm := DmiRead(s.dm, reg).0)
  }

  /** Packing a register write into bytes and back loses nothing. */
  lemma WritePacket(s: State, reg: nat, value: word)
    requires s.Valid() && reg < 256
    ensures var r := Command(s, RegisterRequest(Byte(reg), value, 0x02));
      if s.programmer.configured then
        r.0 == RegWritten(s, reg, value) && |r.1| == 9 && r.1[0] == 0x82 && r.1[8] == 0x00
      else r == (s, REFUSAL)
  {
    hide DmiWrite, DmiRead, B0, B1, B2, B3, Join, Val;
    JoinSplit(value);
  }

  /** A register read brings back the register's value through its big-endian reply. */
  lemma ReadPacket(s: State, reg: nat, value: word)
    requires s.Valid() && reg < 256
    ensures var r := Command(s, RegisterRequest(Byte(reg), value, 0x01));
      if s.programmer.configured then
        r.0 == RegFetched(s, reg) && |r.1| == 9 && r.1[0] == 0x82 && r.1[8] == 0x00 &&
        ReplyValue(r.1) == DmiRead(s.dm, reg).1
      else r == (s, REFUSAL)
  {
    hide DmiWrite, DmiRead, B0, B1, B2, B3, Join, Val;
    JoinSplit(value);
    JoinSplit(DmiRead(s.dm, reg).1);
  }
}
