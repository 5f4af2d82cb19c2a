/**
 Memory and register access through the target's debug module (src/dm.c).

 Every byte the tool reads or writes in the target goes through here: a
 two-instruction program is encoded, loaded into the program buffer, given its
 operands in x9 and x8 by abstract commands, and run.  The contracts say what the
 whole chain of packets comes to, on a wire where any request may fail.
 */
module DmHost {
  import opened Words
  import opened RiscV
  import opened Chips
  import opened Linke
  import Transport
  import T = Target
  import D = DebugModule

  const CMD_GPR_BASE: word := 0x0020_0000
  const CMD_TRANSFER: word := 0x0002_0000
  const CMD_WRITE: word := 0x0001_0000
  const CMD_POSTEXEC: word := 0x0004_0000
  const ABSTRACTCS_CMDMASK: word := 0x700
  const ABSTRACTCS_CLEAR: word := 0x700
  const TIMEOUT := 2_000_000
  const PROGBUF_WORDS := 8

  /** The debug module never looks busy for longer than the tool is willing to poll. */
  ghost predicate Prompt(d: D.Dm) {
    forall n: nat :: d.lag(n) < TIMEOUT
  }

  lemma SamePrompt(d: D.Dm, d': D.Dm)
    requires d.lag == d'.lag
    ensures Prompt(d) == Prompt(d')
  {}

  /** It is never busy at all. */
  ghost predicate Swift(d: D.Dm) {
    forall n: nat :: d.lag(n) == 0
  }

  lemma SameSwift(d: D.Dm, d': D.Dm)
    requires d.lag == d'.lag
    ensures Swift(d) == Swift(d') && (Swift(d) ==> Prompt(d))
  {}

  lemma NextLag(d: D.Dm)
    ensures (Prompt(d) ==> d.lag(d.issued) < TIMEOUT) && (Swift(d) ==> d.lag(d.issued) == 0)
  {}

  /** At most n requests have been sent, and exactly n if all went well. */
  twostate predicate Spent(wire: Transport.Wire, status: Status, n: nat)
    reads wire
  {
    wire.sent <= old(wire.sent) + n && (status == Ok ==> wire.sent == old(wire.sent) + n)
  }

  /** The first of them was answered. */
  twostate predicate Arrives(wire: Transport.Wire)
    reads wire
  {
    wire.fault(old(wire.sent)) == Transport.Answered
  }

  /** What a sized store and a sized load cost. */
  const STORE := 9
  const LOAD := 12

  // Command words.

  function GprCommand(reg: nat, write: bool, postexec: bool): word
    requires reg < 32
  {
    CMD_GPR_BASE | CMD_TRANSFER | (if write then CMD_WRITE else 0) | (if postexec then CMD_POSTEXEC else 0) |
    (0x1000 + ((Byte(reg) as word) & 0x1f))
  }

  /** Transfers between DATA0 and x0 to x31 do exactly that. */
  lemma ExecuteGprWrite(t: T.Target, d: D.Dm, reg: nat)
    requires t.Valid() && d.Valid() && reg < 32
    ensures D.Execute(t, d, GprCommand(reg, true, false)) ==
      (t, D.Counted(d).(gpr := D.SetGpr(d.gpr, reg, d.dmi[D.DATA0])))
  {
    GprFields(reg, true, false);
    hide D.SetGpr, D.Reg, D.RegNo, D.Write, D.AarSize, D.IsGpr, D.Narrow, D.CmdType, D.PostExec, D.Transfer,
      GprCommand;
  }

  lemma ExecuteGprRead(t: T.Target, d: D.Dm, reg: nat)
    requires t.Valid() && d.Valid() && reg < 32
    ensures D.Execute(t, d, GprCommand(reg, false, false)) ==
      (t, D.Counted(d).(dmi := d.dmi[D.DATA0 := d.gpr[reg]]))
  {
    GprFields(reg, false, false);
    hide D.SetGpr, D.Reg, D.RegNo, D.Write, D.AarSize, D.IsGpr, D.CmdType, D.PostExec, D.Transfer, GprCommand;
  }

  /** x8 := DATA0, then the program buffer runs. */
  lemma ExecuteRun(t: T.Target, d: D.Dm)
    requires t.Valid() && d.Valid()
    ensures D.Execute(t, d, GprCommand(8, true, true)) ==
      D.Run(t, D.Counted(d).(gpr := D.SetGpr(d.gpr, 8, d.dmi[D.DATA0]), pc := 0), D.MAX_STEPS)
  {
    GprFields(8, true, true);
    hide D.SetGpr, D.Reg, D.RegNo, D.Write, D.AarSize, D.IsGpr, D.Narrow, D.CmdType, D.PostExec, D.Transfer,
      GprCommand, D.Run;
  }

  lemma GprFields(reg: nat, write: bool, postexec: bool)
    requires reg < 32 && (postexec ==> write)
    ensures var c := GprCommand(reg, write, postexec);
      D.CmdType(c) == 0 && D.AarSize(c) == 2 && D.Transfer(c) && D.IsGpr(D.RegNo(c)) && D.Reg(D.RegNo(c)) == reg &&
      (D.Write(c) <==> write) && (D.PostExec(c) <==> postexec) && D.RegNo(c) != D.DPC && D.RegNo(c) != D.DCSR
  {}

  // Polling.

  lemma AbstractcsBits(busy: bool, cmderr: word)
    requires cmderr <= 7
    ensures Has(D.AbstractcsValue(busy, cmderr), D.ABSTRACTCS_BUSY) <==> busy
    ensures Has(D.AbstractcsValue(busy, cmderr), ABSTRACTCS_CMDMASK) <==> cmderr != 0
    ensures D.ClearErrors(cmderr, ABSTRACTCS_CLEAR) == 0
  {}

  /** Waits for the last command, and clears whatever error it left. */
  method DmWait(link: Link) returns (status: Status)
    requires link.Ready()
    modifies link.wire, link.wire.sim
    ensures link.Ready()
    ensures var d, d' := old(link.State().dm), link.State().dm;
      link.State() == old(link.State()).(dm := d.(pending := d'.pending, cmderr := d'.cmderr, dmi := d'.dmi))
    ensures status == Ok ==> old(link.State().dm.cmderr) == 0 && link.State().dm == old(link.State().dm).(pending := 0)
    ensures old(link.State().dm.cmderr) == 0 ==>
      link.State().dm.cmderr == 0 && link.State().dm.dmi == old(link.State().dm.dmi)
    ensures old(link.wire.failed) <= link.wire.failed
    ensures link.wire.failed == old(link.wire.failed) && old(link.State().dm.pending) < TIMEOUT ==>
      link.State().dm.cmderr == 0 && (status == Ok <==> old(link.State().dm.cmderr) == 0)
    ensures status == Ok ==> link.wire.failed == old(link.wire.failed)
    ensures status != VerifyError
    ensures old(link.State().dm.pending) == 0 && old(link.State().dm.cmderr) == 0 ==> Spent(link.wire, status, 1)
    ensures old(link.wire.Dead()) ==> link.wire.Dead() && status != Ok && link.State() == old(link.State())
  {
    hide D.AbstractcsValue, D.ClearErrors, Has;
    ghost var was := link.State();
    var abstractcs := 0;
    var spins := 0;
    assert !Has(abstractcs, D.ABSTRACTCS_BUSY) by { HasNothing(D.ABSTRACTCS_BUSY); }
    while spins < TIMEOUT
      invariant 0 <= spins <= TIMEOUT && spins <= was.dm.pending && link.Ready()
      invariant link.State() == was.(dm := was.dm.(pending := was.dm.pending - spins))
      invariant link.wire.sent == old(link.wire.sent) + spins
      invariant link.wire.failed == old(link.wire.failed)
      invariant old(link.wire.Dead()) ==> link.wire.Dead() && spins == 0
      invariant Has(abstractcs, D.ABSTRACTCS_BUSY) <==> spins > 0
    {
      ghost var before := link.State();
      AbstractcsBits(before.dm.pending > 0, before.dm.cmderr);
      status, abstractcs := link.DmiRead(D.ABSTRACTCS);
      if status != Ok {
        return;
      }
      if !Has(abstractcs, D.ABSTRACTCS_BUSY) {
        break;
      }
      spins := spins + 1;
    }
    if Has(abstractcs, D.ABSTRACTCS_BUSY) {
      return TargetError;
    }
    if Has(abstractcs, ABSTRACTCS_CMDMASK) {
      ClearCmderr(link);
      return TargetError;
    }
    status := Ok;
  }

  /** Best effort: the caller is already reporting the error. */
  method ClearCmderr(link: Link)
    requires link.Ready()
    modifies link.wire, link.wire.sim
    ensures link.Ready()
    ensures var d, d' := old(link.State().dm), link.State().dm;
      link.State() == old(link.State()).(dm := d.(pending := d'.pending, cmderr := d'.cmderr, dmi := d'.dmi))
    ensures old(link.wire.failed) <= link.wire.failed
    ensures link.wire.failed == old(link.wire.failed) ==> link.State().dm.cmderr == 0
  {
    AbstractcsBits(false, link.State().dm.cmderr);
    hide D.AbstractcsValue, D.ClearErrors;
    var status := link.DmiWrite(D.ABSTRACTCS, ABSTRACTCS_CLEAR);
  }

  lemma HasNothing(mask: word)
    ensures !Has(0, mask)
  {}

  // Abstract commands.

  /** The state once the operand is in DATA0 and the command has been carried out. */
  ghost function Issue(s: D.State, command: word, value: word, transferIn: bool): (r: D.State)
    requires s.Valid()
    ensures r.Valid() && r.programmer == s.programmer
    ensures r.dm.progbuf == s.dm.progbuf && r.dm.lag == s.dm.lag && r.dm.pending == s.dm.lag(s.dm.issued)
    ensures s.dm.cmderr == 0 ==> r.dm.misissued == s.dm.misissued
  {
    var d := if transferIn then s.dm.(dmi := s.dm.dmi[D.DATA0 := value]) else s.dm;
    var (t', d') := D.Execute(s.target, d.(dmi := d.dmi[D.COMMAND := command]), command);
    s.(target := t', dm := d')
  }

  /** The same state, up to what only the next command would look at. */
  ghost predicate Near(s: D.State, r: D.State) {
    r == s.(dm := s.dm.(pending := r.dm.pending, cmderr := r.dm.cmderr, dmi := r.dm.dmi))
  }

  lemma RegWrittenData(s: D.State, value: word)
    requires s.Valid()
    ensures D.RegWritten(s, D.DATA0, value) == s.(dm := s.dm.(dmi := s.dm.dmi[D.DATA0 := value]))
    ensures D.RegFetched(s, D.DATA0) == s && D.DmiRead(s.dm, D.DATA0).1 == s.dm.dmi[D.DATA0]
  {}

  lemma RegWrittenCommand(s: D.State, command: word)
    requires s.Valid()
    ensures D.RegWritten(s, D.COMMAND, command) == Issue(s, command, 0, false)
  {}

  lemma IssueTransfer(s: D.State, command: word, value: word)
    requires s.Valid()
    ensures Issue(D.RegWritten(s, D.DATA0, value), command, 0, false) == Issue(s, command, value, true)
  {}

  /** One abstract command, from its operand to its result. */
  method DmCommand(link: Link, command: word, value: word, transferIn: bool, wantResult: bool)
    returns (status: Status, result: word)
    requires link.Ready() && link.State().dm.cmderr == 0
    modifies link.wire, link.wire.sim
    ensures link.Ready()
    ensures var after := Issue(old(link.State()), command, value, transferIn);
      && (Near(old(link.State()), link.State()) || Near(after, link.State()))
      && (status == Ok ==> after.dm.cmderr == 0 && link.State() == after.(dm := after.dm.(pending := 0)))
      && (status == Ok && wantResult ==> result == after.dm.dmi[D.DATA0])
      && (after.dm.cmderr == 0 ==> link.State().dm.cmderr == 0)
      && (link.wire.failed == old(link.wire.failed) && Prompt(old(link.State().dm)) ==>
            link.State().dm.cmderr == 0 && (status == Ok <==> after.dm.cmderr == 0))
    ensures link.State().dm.misissued == old(link.State().dm.misissued)
    ensures link.State().dm.lag == old(link.State().dm.lag)
    ensures old(link.wire.failed) <= link.wire.failed
    ensures status == Ok ==> link.wire.failed == old(link.wire.failed)
    ensures status != VerifyError
    ensures Swift(old(link.State().dm)) && Issue(old(link.State()), command, value, transferIn).dm.cmderr == 0 ==>
      Spent(link.wire, status, 2 + (if transferIn then 1 else 0) + if wantResult then 1 else 0)
    ensures old(link.wire.Dead()) ==> link.wire.Dead() && status != Ok && link.State() == old(link.State())
  {
    hide D.RegWritten, D.RegFetched, D.DmiRead, D.Execute;
    result := 0;
    ghost var s := link.State();
    RegWrittenData(s, value);
    RegWrittenCommand(s, command);
    IssueTransfer(s, command, value);
    if transferIn {
      status := link.DmiWrite(D.DATA0, value);
      if status != Ok {
        return;
      }
      RegWrittenCommand(link.State(), command);
    }
    ghost var after := Issue(s, command, value, transferIn);
    NextLag(s.dm);
    hide Issue, Prompt, Swift;
    status := link.DmiWrite(D.COMMAND, command);
    if status != Ok {
      return;
    }
    status := DmWait(link);
    if status != Ok {
      return;
    }
    if wantResult {
      RegWrittenData(link.State(), 0);
      status, result := link.DmiRead(D.DATA0);
    }
  }

  // Target registers.

  /** What the rest of the tool can see of the debug module between operations. */
  ghost function Settled(d: D.Dm): D.Dm {
    d.(dmi := [], progbuf := [], pc := 0, pending := 0, issued := 0)
  }

  method GprWrite(link: Link, reg: nat, value: word) returns (status: Status)
    requires link.Ready() && link.State().dm.cmderr == 0
    modifies link.wire, link.wire.sim
    ensures link.Ready() && link.State() == old(link.State()).(dm := link.State().dm)
    ensures link.State().dm.progbuf == old(link.State().dm.progbuf)
    ensures reg > 31 ==> status == Usage && link.State() == old(link.State())
    ensures reg <= 31 ==> var d := Settled(old(link.State()).dm); var d' := d.(gpr := D.SetGpr(d.gpr, reg, value));
      && (Settled(link.State().dm) == d || Settled(link.State().dm) == d')
      && (status == Ok ==> Settled(link.State().dm) == d')
      && (link.wire.failed == old(link.wire.failed) && Prompt(d) ==> status == Ok)
    ensures old(link.wire.failed) <= link.wire.failed
    ensures status == Ok ==> link.wire.failed == old(link.wire.failed)
    ensures status != VerifyError
    ensures reg <= 31 && Swift(old(link.State().dm)) ==> Spent(link.wire, status, 3)
    ensures old(link.wire.Dead()) ==> link.wire.Dead() && status != Ok && link.State() == old(link.State())
  {
    if reg > 31 {
      return Usage;
    }
    ghost var s := link.State();
    ExecuteGprWrite(s.target, s.dm.(dmi := s.dm.dmi[D.DATA0 := value][D.COMMAND := GprCommand(reg, true, false)]), reg);
    hide GprCommand, D.Execute, D.SetGpr;
    var result;
    status, result := DmCommand(link, GprCommand(reg, true, false), value, true, false);
  }

  method GprRead(link: Link, reg: nat) returns (status: Status, value: word)
    requires link.Ready() && link.State().dm.cmderr == 0
    modifies link.wire, link.wire.sim
    ensures link.Ready() && link.State() == old(link.State()).(dm := link.State().dm)
    ensures link.State().dm.progbuf == old(link.State().dm.progbuf)
    ensures reg > 31 ==> status == Usage && link.State() == old(link.State())
    ensures Settled(link.State().dm) == Settled(old(link.State()).dm)
    ensures status == Ok ==> reg < |old(link.State().dm.gpr)| && value == old(link.State().dm.gpr)[reg]
    ensures reg <= 31 && link.wire.failed == old(link.wire.failed) && Prompt(old(link.State()).dm) ==> status == Ok
    ensures old(link.wire.failed) <= link.wire.failed
    ensures status == Ok ==> link.wire.failed == old(link.wire.failed)
    ensures status != VerifyError
    ensures reg <= 31 && Swift(old(link.State().dm)) ==> Spent(link.wire, status, 3)
    ensures old(link.wire.Dead()) ==> link.wire.Dead() && status != Ok && link.State() == old(link.State())
  {
    if reg > 31 {
      return Usage, 0;
    }
    ghost var s := link.State();
    ExecuteGprRead(s.target, s.dm.(dmi := s.dm.dmi[D.COMMAND := GprCommand(reg, false, false)]), reg);
    hide GprCommand, D.Execute;
    status, value := DmCommand(link, GprCommand(reg, false, false), 0, false, true);
  }

  // Programs.

  function StoreProgram(size: nat): seq<word> {
    [Store(D.StoreKind(size), 8, 9), Ebreak()]
  }

  function LoadProgram(size: nat): seq<word> {
    [Load(D.LoadKind(size), 8, 9), Ebreak()]
  }

  ghost predicate ProgramsBuilt(programs: Programs)
    reads programs
  {
    programs.ready ==> programs.write == [StoreProgram(0), StoreProgram(1), StoreProgram(2)] &&
                       programs.read == [LoadProgram(0), LoadProgram(1), LoadProgram(2)]
  }

  /** Encodes the six programs once; later calls find them ready. */
  method BuildPrograms(programs: Programs)
    requires ProgramsBuilt(programs)
    modifies programs
    ensures ProgramsBuilt(programs) && programs.ready
  {
    hide Store, Load;
    if programs.ready {
      return;
    }
    var write, read: seq<seq<word>> := [], [];
    for size := 0 to 3
      invariant |write| == |read| == size
      invariant forall k :: 0 <= k < size ==> write[k] == StoreProgram(k) && read[k] == LoadProgram(k)
    {
      write := write + [[Store(if size == 2 then 2 else if size == 1 then 1 else 0, 8, 9), Ebreak()]];
      read := read + [[Load(if size == 2 then 0x2 else if size == 1 then 0x1 else 0x4, 8, 9), Ebreak()]];
    }
    programs.write, programs.read := write, read;
    programs.ready := true;
  }

  /** One program-buffer word. */
  method WriteProgbuf(link: Link, i: nat, value: word) returns (status: Status)
    requires link.Ready() && i < PROGBUF_WORDS
    modifies link.wire, link.wire.sim
    ensures link.Ready()
    ensures var d, d' := old(link.State().dm), link.State().dm;
      link.State() == old(link.State()).(dm := d.(dmi := d'.dmi, progbuf := d'.progbuf))
    ensures status == Ok ==> link.State().dm.progbuf == old(link.State().dm.progbuf)[i := value]
    ensures status == Ok ==> link.State().dm.dmi == old(link.State().dm.dmi)[D.PROGBUF0 + i := value]
    ensures status != VerifyError
    ensures link.wire.failed == old(link.wire.failed) + if status == Ok then 0 else 1
    ensures link.wire.sent == old(link.wire.sent) + 1
    ensures old(link.wire.Dead()) ==> link.wire.Dead() && status != Ok && link.State() == old(link.State())
  {
    status := link.DmiWrite(D.PROGBUF0 + i, value);
  }

  /** Automatic execution off. */
  method ClearAutoexec(link: Link) returns (status: Status)
    requires link.Ready()
    modifies link.wire, link.wire.sim
    ensures link.Ready()
    ensures var d := old(link.State().dm); link.State() == old(link.State()).(dm := d.(dmi := link.State().dm.dmi))
    ensures status == Ok ==> link.State().dm.dmi[D.ABSTRACTAUTO] == 0
    ensures status != VerifyError
    ensures link.wire.failed == old(link.wire.failed) + if status == Ok then 0 else 1
    ensures link.wire.sent == old(link.wire.sent) + 1 && (status == Ok <==> Arrives(link.wire))
    ensures old(link.wire.Dead()) ==> link.wire.Dead() && status != Ok && link.State() == old(link.State())
  {
    status := link.DmiWrite(D.ABSTRACTAUTO, 0);
  }

  /** Loads the program buffer, with automatic execution switched off first. */
  method DmLoadProgram(link: Link, program: seq<word>) returns (status: Status)
    requires link.Ready()
    modifies link.wire, link.wire.sim
    ensures link.Ready()
    ensures var d, d' := old(link.State().dm), link.State().dm;
      link.State() == old(link.State()).(dm := d.(dmi := d'.dmi, progbuf := d'.progbuf))
    ensures |program| > PROGBUF_WORDS ==> status == Usage && link.State() == old(link.State())
    ensures status == Ok ==> |program| <= PROGBUF_WORDS && link.State().dm.progbuf[..|program|] == program
    ensures status == Ok ==> link.State().dm.dmi[D.ABSTRACTAUTO] == 0
    ensures |program| <= PROGBUF_WORDS ==> link.wire.failed == old(link.wire.failed) + if status == Ok then 0 else 1
    ensures status != VerifyError
    ensures old(link.wire.failed) <= link.wire.failed
    ensures Spent(link.wire, status, 1 + |program|) && (status == Ok ==> Arrives(link.wire))
    ensures old(link.wire.Dead()) ==> link.wire.Dead() && status != Ok && link.State() == old(link.State())
  {
    hide D.RegWritten, D.DmiWrite, D.RegFetched, D.DmiRead;
    if |program| > PROGBUF_WORDS {
      return Usage;
    }
    status := ClearAutoexec(link);
    if status != Ok {
      return;
    }
    var i := 0;
    ghost var done: seq<word> := [];
    while i < |program|
      invariant i <= |program| && status == Ok && link.Ready() && done == program[..i]
      invariant var d, d' := old(link.State().dm), link.State().dm;
        link.State() == old(link.State()).(dm := d.(dmi := d'.dmi, progbuf := d'.progbuf))
      invariant link.State().dm.progbuf[..i] == done && link.State().dm.dmi[D.ABSTRACTAUTO] == 0
      invariant link.wire.sent == old(link.wire.sent) + 1 + i && Arrives(link.wire)
      invariant link.wire.failed == old(link.wire.failed)
      invariant !old(link.wire.Dead())
    {
      status := WriteProgbuf(link, i, program[i]);
      if status != Ok {
        return;
      }
      assert link.State().dm.progbuf[..i + 1] == done + [program[i]] == program[..i + 1];
      i := i + 1;
      done := program[..i];
    }
    assert done == program;
  }

  /** One load or store of the target's core: the memory afterwards, and what x8 then holds. */
  function Effect(t: T.Target, store: bool, size: nat, address: nat, value: word): (r: (T.Target, word))
    requires t.Valid() && size <= 2
    ensures r.0.Valid()
  {
    if store then (T.AccessStore(t, address, size, value), value)
    else
      var (t', v) := T.AccessLoad(t, address, size);
      (t', D.Loaded(size, v))
  }

  function AccessProgram(store: bool, size: nat): seq<word> {
    if store then StoreProgram(size) else LoadProgram(size)
  }

  /** Running the loaded program is one access; x8 and x9 are the only registers it and its set-up touch. */
  lemma RunAccess(s: D.State, store: bool, size: nat, address: nat, value: word)
    requires s.Valid() && size <= 2 && address < WORD_LIMIT
    requires s.dm.progbuf[..2] == AccessProgram(store, size) && s.dm.gpr[9] == Word(address)
    ensures var after, e :=
      Issue(s, GprCommand(8, true, true), value, true), Effect(s.target, store, size, address, value);
      && after.target == e.0
      && Settled(after.dm) == Settled(s.dm).(gpr := s.dm.gpr[8 := e.1], misissued := after.dm.misissued)
  {
    hide GprCommand, D.Execute, D.Run, Nat, Word, Store, Load, Ebreak, D.StoreKind, D.LoadKind, T.AccessStore,
      T.AccessLoad, D.Loaded, D.SetGpr;
    var c := GprCommand(8, true, true);
    var d := s.dm.(dmi := s.dm.dmi[D.DATA0 := value][D.COMMAND := c]);
    ExecuteRun(s.target, d);
    D.SetGprIsUpdate(d.gpr, 8, value);
    var d1 := D.Counted(d).(gpr := d.gpr[8 := value], pc := 0);
    assert d1.progbuf[0] == AccessProgram(store, size)[0] && d1.progbuf[1] == Ebreak();
    NatWord(address);
    if store {
      D.RunStore(s.target, d1, size);
    } else {
      D.RunLoad(s.target, d1, size);
      assert d1.gpr[8 := Effect(s.target, store, size, address, value).1] ==
             s.dm.gpr[8 := Effect(s.target, store, size, address, value).1];
    }
  }

  /** Nothing but the target's memory, x8, x9 and debug-module scratch has changed. */
  ghost predicate OnlyScratch(s: D.State, s': D.State) {
    && s'.programmer == s.programmer
    && |s'.dm.gpr| == |s.dm.gpr|
    && Settled(s'.dm) == Settled(s.dm).(gpr := s'.dm.gpr)
    && (forall r :: 0 <= r < |s.dm.gpr| && r != 8 && r != 9 ==> s'.dm.gpr[r] == s.dm.gpr[r])
  }

  lemma ScratchRefl(s: D.State)
    ensures OnlyScratch(s, s)
  {}

  lemma ScratchLag(s: D.State, s': D.State)
    requires OnlyScratch(s, s')
    ensures s'.dm.lag == s.dm.lag && s'.dm.misissued == s.dm.misissued && s'.programmer == s.programmer
  {}

  lemma ScratchTrans(s: D.State, s1: D.State, s2: D.State)
    requires OnlyScratch(s, s1) && OnlyScratch(s1, s2)
    ensures OnlyScratch(s, s2) && s2.dm.lag == s.dm.lag
  {}

  lemma ScratchWrite(s: D.State, s1: D.State, s2: D.State, r: nat, v: word)
    requires s.Valid() && s1.Valid() && s2.Valid() && OnlyScratch(s, s1) && s2.programmer == s1.programmer
    requires (r == 8 || r == 9)
    requires Settled(s2.dm) == Settled(s1.dm) || Settled(s2.dm) == Settled(s1.dm).(gpr := s1.dm.gpr[r := v])
    ensures OnlyScratch(s, s2)
  {}

  /** x9 = address, then x8 = value with the program run after it, then x8 read back if asked. */
  method DmRun(link: Link, program: seq<word>, address: nat, value: word, wantResult: bool, ghost size: nat)
    returns (status: Status, result: word)
    requires link.Ready() && link.State().dm.cmderr == 0
    requires size <= 2 && address < WORD_LIMIT && program == AccessProgram(!wantResult, size)
    modifies link.wire, link.wire.sim
    ensures link.Ready()
    ensures OnlyScratch(old(link.State()), link.State())
    ensures var e := Effect(old(link.State().target), !wantResult, size, address, value);
      && (link.State().target == old(link.State().target) || link.State().target == e.0)
      && (status == Ok ==> link.State().target == e.0)
      && (status == Ok ==> link.State().dm.gpr == old(link.State().dm.gpr)[9 := Word(address)][8 := e.1])
      && (status == Ok && wantResult ==> result == e.1)
    ensures link.wire.failed == old(link.wire.failed) && Prompt(old(link.State().dm)) ==> status == Ok
    ensures old(link.wire.failed) <= link.wire.failed
    ensures status == Ok ==> link.wire.failed == old(link.wire.failed)
    ensures status != VerifyError
    ensures Swift(old(link.State().dm)) ==> Spent(link.wire, status, if wantResult then 12 else 9)
    ensures !Arrives(link.wire) ==> status != Ok && link.wire.failed > old(link.wire.failed)
    ensures old(link.wire.Dead()) ==> link.wire.Dead() && status != Ok && link.State() == old(link.State())
  {
    hide Word, Nat, AccessProgram, Effect, D.SetGpr, Settled;
    result := 0;
    ghost var s := link.State();
    status := LoadOperands(link, program, address, !wantResult, size);
    if status != Ok {
      return;
    }
    ghost var s2 := link.State();
    status, result := RunLoaded(link, address, value, wantResult, size);
    ScratchTrans(s, s2, link.State());
  }

  /** The first half of dm_run: the program is loaded, and x9 gets the address. */
  method LoadOperands(link: Link, program: seq<word>, address: nat, ghost store: bool, ghost size: nat)
    returns (status: Status)
    requires link.Ready() && link.State().dm.cmderr == 0
    requires size <= 2 && address < WORD_LIMIT && program == AccessProgram(store, size)
    modifies link.wire, link.wire.sim
    ensures link.Ready() && OnlyScratch(old(link.State()), link.State())
    ensures link.State().target == old(link.State().target)
    ensures link.State().dm.lag == old(link.State().dm.lag) && link.State().dm.cmderr == 0
    ensures status == Ok ==> link.State().dm.gpr == old(link.State().dm.gpr)[9 := Word(address)]
    ensures status == Ok ==> link.State().dm.progbuf[..2] == AccessProgram(store, size)
    ensures link.wire.failed == old(link.wire.failed) && Prompt(old(link.State().dm)) ==> status == Ok
    ensures old(link.wire.failed) <= link.wire.failed
    ensures status == Ok ==> link.wire.failed == old(link.wire.failed)
    ensures status != VerifyError
    ensures Swift(old(link.State().dm)) ==> Spent(link.wire, status, 6)
    ensures !Arrives(link.wire) ==> status != Ok && link.wire.failed > old(link.wire.failed)
    ensures old(link.wire.Dead()) ==> link.wire.Dead() && status != Ok && link.State() == old(link.State())
  {
    assert |program| == 2;
    hide Word, Nat, AccessProgram, D.SetGpr;
    ghost var s := link.State();
    status := DmLoadProgram(link, program);
    if status != Ok {
      return;
    }
    ghost var s1 := link.State();
    D.SetGprIsUpdate(s1.dm.gpr, 9, Word(address));
    status := GprWrite(link, 9, Word(address));
    ScratchWrite(s, s1, link.State(), 9, Word(address));
  }

  /** The second half of dm_run: the program is loaded and x9 holds the address. */
  method RunLoaded(link: Link, ghost address: nat, value: word, wantResult: bool, ghost size: nat)
    returns (status: Status, result: word)
    requires link.Ready() && link.State().dm.cmderr == 0
    requires size <= 2 && address < WORD_LIMIT
    requires link.State().dm.progbuf[..2] == AccessProgram(!wantResult, size) && link.State().dm.gpr[9] == Word(address)
    modifies link.wire, link.wire.sim
    ensures link.Ready()
    ensures OnlyScratch(old(link.State()), link.State())
    ensures var e := Effect(old(link.State().target), !wantResult, size, address, value);
      && (link.State().target == old(link.State().target) || link.State().target == e.0)
      && (status == Ok ==> link.State().target == e.0)
      && (status == Ok ==> link.State().dm.gpr == old(link.State().dm.gpr)[8 := e.1])
      && (status == Ok && wantResult ==> result == e.1)
    ensures link.wire.failed == old(link.wire.failed) && Prompt(old(link.State().dm)) ==> status == Ok
    ensures old(link.wire.failed) <= link.wire.failed
    ensures status == Ok ==> link.wire.failed == old(link.wire.failed)
    ensures status != VerifyError
    ensures Swift(old(link.State().dm)) ==> Spent(link.wire, status, if wantResult then 6 else 3)
    ensures old(link.wire.Dead()) ==> link.wire.Dead() && status != Ok && link.State() == old(link.State())
  {
    ghost var s2 := link.State();
    RunAccess(s2, !wantResult, size, address, value);
    hide GprCommand, Word, Nat, Issue, Effect, AccessProgram;
    result := 0;
    ghost var e := Effect(s2.target, !wantResult, size, address, value);
    ghost var after := Issue(s2, GprCommand(8, true, true), value, true);
    assert after.dm.gpr == s2.dm.gpr[8 := e.1];
    ScratchWrite(s2, s2, after, 8, e.1);
    var ignored;
    status, ignored := DmCommand(link, GprCommand(8, true, true), value, true, false);
    ScratchWrite(s2, s2, link.State(), 8, e.1);
    if status != Ok {
      return;
    }
    if wantResult {
      status, result := GprRead(link, 8);
    }
  }

  // Memory.

  /** The link is set up, the debug module holds no error, and the programs are what they should be. */
  ghost predicate Usable(link: Link)
    reads link, link.wire, link.wire.sim, link.programs
  {
    link.Ready() && link.State().dm.cmderr == 0 && ProgramsBuilt(link.programs)
  }

  /** A store of 1, 2 or 4 bytes (size 0, 1 or 2). */
  method WriteSized(link: Link, size: nat, address: nat, value: word) returns (status: Status)
    requires Usable(link) && size <= 2 && address < WORD_LIMIT
    modifies link.wire, link.wire.sim, link.programs
    ensures Usable(link) && OnlyScratch(old(link.State()), link.State())
    ensures var t' := T.AccessStore(old(link.State().target), address, size, value);
      && (link.State().target == old(link.State().target) || link.State().target == t')
      && (status == Ok ==> link.State().target == t')
    ensures status == Ok ==> link.State().dm.gpr == old(link.State().dm.gpr)[9 := Word(address)][8 := value]
    ensures link.wire.failed == old(link.wire.failed) && Prompt(old(link.State().dm)) ==> status == Ok
    ensures old(link.wire.failed) <= link.wire.failed
    ensures status == Ok ==> link.wire.failed == old(link.wire.failed)
    ensures status != VerifyError
    ensures Swift(old(link.State().dm)) ==> Spent(link.wire, status, STORE)
    ensures !Arrives(link.wire) ==> status != Ok && link.wire.failed > old(link.wire.failed)
    ensures old(link.wire.Dead()) ==> link.wire.Dead() && status != Ok && link.State() == old(link.State())
  {
    hide T.AccessStore, Word, StoreProgram, LoadProgram;
    BuildPrograms(link.programs);
    var ignored;
    status, ignored := DmRun(link, link.programs.write[size], address, value, false, size);
  }

  /** A load of 1, 2 or 4 bytes: lbu, lh or lw. */
  method ReadSized(link: Link, size: nat, address: nat) returns (status: Status, value: word)
    requires Usable(link) && size <= 2 && address < WORD_LIMIT
    modifies link.wire, link.wire.sim, link.programs
    ensures Usable(link) && OnlyScratch(old(link.State()), link.State())
    ensures var r := T.AccessLoad(old(link.State().target), address, size);
      && (link.State().target == old(link.State().target) || link.State().target == r.0)
      && (status == Ok ==> link.State().target == r.0 && value == D.Loaded(size, r.1))
    ensures status == Ok ==> link.State().dm.gpr == old(link.State().dm.gpr)[9 := Word(address)][8 := value]
    ensures link.wire.failed == old(link.wire.failed) && Prompt(old(link.State().dm)) ==> status == Ok
    ensures old(link.wire.failed) <= link.wire.failed
    ensures status == Ok ==> link.wire.failed == old(link.wire.failed)
    ensures status != VerifyError
    ensures Swift(old(link.State().dm)) ==> Spent(link.wire, status, LOAD)
    ensures !Arrives(link.wire) ==> status != Ok && link.wire.failed > old(link.wire.failed)
    ensures old(link.wire.Dead()) ==> link.wire.Dead() && status != Ok && link.State() == old(link.State())
  {
    hide T.AccessLoad, Word, D.Loaded, StoreProgram, LoadProgram;
    BuildPrograms(link.programs);
    status, value := DmRun(link, link.programs.read[size], address, 0, true, size);
  }
}
