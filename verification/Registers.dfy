/** The target's pc and control registers (src/dm.c). */
module Registers {
  import opened Words
  import opened Chips
  import opened Linke
  import opened DmHost
  import T = Target
  import D = DebugModule

  /** An access-register command for a register number the caller picks. */
  function CsrCommand(regno: word, write: bool): word {
    var command := CMD_GPR_BASE | CMD_TRANSFER | regno;
    if write then command | CMD_WRITE else command
  }

  lemma CsrFields(regno: word, write: bool)
    requires regno <= 0xffff
    ensures var c := CsrCommand(regno, write);
      D.CmdType(c) == 0 && D.Transfer(c) && (D.Write(c) <==> write) && !D.PostExec(c) && D.RegNo(c) == regno
  {}

  /** dpc and dcsr are transferred as they are; a number that names no register is refused. */
  lemma ExecuteCsr(t: T.Target, d: D.Dm, regno: word, write: bool)
    requires t.Valid() && d.Valid() && regno <= 0xffff && !D.IsGpr(regno)
    ensures var r := D.Execute(t, d, CsrCommand(regno, write)); var v := d.dmi[D.DATA0];
      r == (t,
        if regno == D.DPC then
          if write then D.Counted(d).(dpc := v) else D.Counted(d).(dmi := d.dmi[D.DATA0 := d.dpc])
        else if regno == D.DCSR then
          if write then D.Counted(d).(dcsr := v) else D.Counted(d).(dmi := d.dmi[D.DATA0 := d.dcsr])
        else D.Counted(d).(cmderr := 2))
  {
    CsrFields(regno, write);
    hide CsrCommand, D.CmdType, D.PostExec, D.Transfer, D.Write, D.RegNo, D.IsGpr, D.Run, D.SetGpr, D.Narrow;
  }

  /** Neither the debug module's error state nor the count of commands issued in error has moved. */
  twostate predicate Recovered(link: Link)
    reads link, link.wire, link.wire.sim
  {
    && link.Ready() && link.State().dm.misissued == old(link.State().dm.misissued)
    && link.State().dm.lag == old(link.State().dm.lag)
    && old(link.wire.failed) <= link.wire.failed
    && (link.wire.failed == old(link.wire.failed) && Prompt(old(link.State().dm)) ==> link.State().dm.cmderr == 0)
  }

  /** What such a command comes to, as the rest of the tool sees it. */
  lemma IssueCsr(s: D.State, regno: word, value: word, write: bool)
    requires s.Valid() && regno <= 0xffff && !D.IsGpr(regno) && s.dm.cmderr == 0
    ensures var r := Issue(s, CsrCommand(regno, write), value, write); var d, d' := s.dm, r.dm;
      && r.target == s.target
      && (d'.cmderr == 0 <==> regno == D.DPC || regno == D.DCSR)
      && (regno == D.DPC ==> Settled(d') == if write then Settled(d).(dpc := value) else Settled(d))
      && (regno == D.DCSR ==> Settled(d') == if write then Settled(d).(dcsr := value) else Settled(d))
      && (!write && regno == D.DPC ==> d'.dmi[D.DATA0] == d.dpc)
      && (!write && regno == D.DCSR ==> d'.dmi[D.DATA0] == d.dcsr)
  {
    var d := if write then s.dm.(dmi := s.dm.dmi[D.DATA0 := value]) else s.dm;
    ExecuteCsr(s.target, d.(dmi := d.dmi[D.COMMAND := CsrCommand(regno, write)]), regno, write);
    hide CsrCommand, D.Execute, D.IsGpr;
  }

  method CsrAccess(link: Link, regno: word, value: word, write: bool) returns (status: Status, result: word)
    requires link.Ready() && link.State().dm.cmderr == 0
    modifies link.wire, link.wire.sim
    ensures Recovered(link)
    ensures regno <= 0xffff && !D.IsGpr(regno) ==> link.State().target == old(link.State().target)
    ensures regno <= 0xffff && !D.IsGpr(regno) ==>
      link.wire.failed == old(link.wire.failed) && Prompt(old(link.State().dm)) ==>
      (status == Ok <==> regno == D.DPC || regno == D.DCSR)
    ensures status == Ok && write && regno == D.DPC ==>
      Settled(link.State().dm) == Settled(old(link.State().dm)).(dpc := value)
    ensures status == Ok && write && regno == D.DCSR ==>
      Settled(link.State().dm) == Settled(old(link.State().dm)).(dcsr := value)
    ensures status == Ok && !write && regno == D.DPC ==> result == old(link.State().dm.dpc)
    ensures status == Ok && !write && regno == D.DCSR ==> result == old(link.State().dm.dcsr)
    ensures status == Ok && !write && (regno == D.DPC || regno == D.DCSR) ==>
      Settled(link.State().dm) == Settled(old(link.State().dm))
  {
    NotGpr();
    if regno <= 0xffff && !D.IsGpr(regno) { IssueCsr(link.State(), regno, value, write); }
    hide CsrCommand, D.IsGpr, Prompt, Issue;
    status, result := DmCommand(link, CsrCommand(regno, write), value, write, !write);
  }

  method PcRead(link: Link) returns (status: Status, value: word)
    requires link.Ready() && link.State().dm.cmderr == 0
    modifies link.wire, link.wire.sim
    ensures Recovered(link) && link.State().target == old(link.State().target)
    ensures status == Ok ==>
      value == old(link.State().dm.dpc) && Settled(link.State().dm) == Settled(old(link.State().dm))
    ensures link.wire.failed == old(link.wire.failed) && Prompt(old(link.State().dm)) ==> status == Ok
  {
    NotGpr();
    hide Prompt, D.IsGpr;
    status, value := CsrAccess(link, D.DPC, 0, false);
  }

  method PcWrite(link: Link, value: word) returns (status: Status)
    requires link.Ready() && link.State().dm.cmderr == 0
    modifies link.wire, link.wire.sim
    ensures Recovered(link) && link.State().target == old(link.State().target)
    ensures status == Ok ==> Settled(link.State().dm) == Settled(old(link.State().dm)).(dpc := value)
    ensures link.wire.failed == old(link.wire.failed) && Prompt(old(link.State().dm)) ==> status == Ok
  {
    NotGpr();
    hide Prompt, D.IsGpr;
    var ignored;
    status, ignored := CsrAccess(link, D.DPC, value, true);
  }

  lemma NotGpr()
    ensures !D.IsGpr(D.DPC) && !D.IsGpr(D.DCSR) && D.DPC <= 0xffff && D.DCSR <= 0xffff
  {}
}
