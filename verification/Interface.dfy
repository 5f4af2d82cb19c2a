/**
 Telling the programmer which part it talks to (src/linke.c), and the cache that
 saves telling it twice.
 */
module Interface {
  import opened Words
  import opened Chips
  import opened Linke
  import D = DebugModule
  import Transport

  // The table.

  /** The debug clock of a LinkE family, as the rows of the table have it. */
  function SpeedOf(id: byte): byte {
    if id == 0x8b || id == 0x07 || id == 0x0b then 0x03 else if id == 0x02 || id == 0x4b then 0x02 else 0x01
  }

  lemma RowSpeeds()
    ensures forall i :: 0 <= i < |CHIPS| ==> CHIPS[i].speed == SpeedOf(CHIPS[i].linkeId)
  {}

  /** Rows that share a LinkE family share its clock, so the family is all the cache has to remember. */
  lemma FamilyDeterminesSpeed(a: Chip, b: Chip)
    requires a in CHIPS && b in CHIPS && a.linkeId == b.linkeId
    ensures a.speed == b.speed
  {
    RowSpeeds();
    hide SpeedOf, CHIPS;
  }

  // What the tool believes, and what the programmer holds.

  datatype View = View(configured: bool, chipId: byte, told: bool, family: byte, speed: byte)

  ghost function ViewOf(link: Link): View
    reads link, link.wire.sim
  {
    var p := link.State().programmer;
    View(link.configured, link.chipId, p.configured, p.chipId, p.speed)
  }

  /** The cache tells the truth: the programmer holds the family and clock of a row with this id. */
  ghost predicate Agrees(v: View) {
    v.configured ==>
      v.told && v.family == v.chipId && exists c :: c in CHIPS && c.linkeId == v.chipId && c.speed == v.speed
  }

  /** The tool never believes that it has told the programmer something when it has told it nothing. */
  predicate Informed(v: View) { v.configured ==> v.told }

  function Tell(v: View, family: byte, speed: byte): View {
    v.(told := true, family := family, speed := speed)
  }

  predicate Sends(v: View, chip: Chip) {
    !(v.configured && v.chipId == chip.linkeId)
  }

  function Attempt(v: View, family: byte, speed: byte, fault: Transport.Fault): View {
    if fault == Transport.RequestLost then v else Tell(v, family, speed)
  }

  function AfterSet(v: View, chip: Chip, fault: Transport.Fault): View {
    if !Sends(v, chip) then v
    else
      var w := Attempt(v, chip.linkeId, chip.speed, fault);
      if fault == Transport.Answered then w.(configured := true, chipId := chip.linkeId) else w
  }

  /** Identification tells the programmer a family and clock that belong to no row. */
  function AfterIdentify(v: View, fault: Transport.Fault): View {
    var w := Attempt(v, 0x01, 0x02, fault);
    if fault == Transport.Answered then w.(configured := false) else w
  }

  datatype Event = Set(chip: Chip, fault: Transport.Fault) | Identify(fault: Transport.Fault)

  function After(v: View, e: Event): View {
    match e
    case Set(chip, fault) => AfterSet(v, chip, fault)
    case Identify(fault) => AfterIdentify(v, fault)
  }

  predicate FromTable(e: Event) { e.Set? ==> e.chip in CHIPS }

  /** The generic setting is nobody's. */
  lemma GenericIsNoRow(c: Chip)
    requires c in CHIPS && c.linkeId == 0x01
    ensures c.speed != 0x02
  {}

  /**
   The cache goes on telling the truth exactly as long as no request that takes
   effect is left unanswered while the cache holds something.
   */
  lemma AgreesUnless(v: View, e: Event)
    requires Agrees(v) && FromTable(e)
    ensures Agrees(After(v, e)) <==> !(e.fault == Transport.ReplyLost && v.configured && (e.Set? ==> Sends(v, e.chip)))
  {
    hide CHIPS;
    if e.Identify? && e.fault == Transport.ReplyLost && v.configured && Agrees(After(v, e)) {
      var c :| c in CHIPS && c.linkeId == v.chipId && c.speed == 0x02;
      GenericIsNoRow(c);
    }
  }

  /**
   The other side of it is reached: a programmer set up for the CH32V003 has its clock
   and family changed by a request whose answer is lost.
   */
  lemma LostReplyLies()
    ensures |CHIPS| > 7
    ensures var v, e := View(true, 0x09, true, 0x09, 0x01), Set(CHIPS[7], Transport.ReplyLost);
      Agrees(v) && FromTable(e) && !Agrees(After(v, e)) && !Sends(After(v, e), CHIPS[0])
  {
    TwoRows();
    hide CHIPS;
    assert CHIPS[0] in CHIPS && CHIPS[7] in CHIPS;
  }

  lemma TwoRows()
    ensures |CHIPS| > 7 && CHIPS[0].linkeId == 0x09 && CHIPS[0].speed == 0x01 && CHIPS[7].linkeId == 0x05
  {}

  /** Over any run at all, telling nothing is not mistaken for having told something. */
  lemma {:induction false} AlwaysInformed(v: View, events: seq<Event>)
    requires Informed(v)
    ensures Informed(AfterAll(v, events))
    decreases |events|
  {
    if events != [] {
      AlwaysInformed(After(v, events[0]), events[1..]);
    }
  }

  function AfterAll(v: View, events: seq<Event>): View
    decreases |events|
  {
    if events == [] then v else AfterAll(After(v, events[0]), events[1..])
  }

  /** Over any run in which a request that fails has had no effect, the cache tells the truth. */
  lemma {:induction false} RunAgrees(v: View, events: seq<Event>)
    requires Agrees(v)
    requires forall i :: 0 <= i < |events| ==> FromTable(events[i]) && events[i].fault != Transport.ReplyLost
    ensures Agrees(AfterAll(v, events))
    decreases |events|
  {
    if events != [] {
      assert FromTable(events[0]);
      AgreesUnless(v, events[0]);
      RunAgrees(After(v, events[0]), events[1..]);
    }
  }

  /** When the cache tells the truth, the request it saves would have changed nothing. */
  lemma SkippingIsSending(v: View, chip: Chip)
    requires Agrees(v) && chip in CHIPS && !Sends(v, chip)
    ensures Tell(v, chip.linkeId, chip.speed) == v
  {
    var c :| c in CHIPS && c.linkeId == v.chipId && c.speed == v.speed;
    FamilyDeterminesSpeed(c, chip);
    hide CHIPS;
  }

  // The requests.

  /** The fault that request number n of the link will meet. */
  ghost function FaultOf(link: Link, n: nat): Transport.Fault
  {
    link.wire.fault(n)
  }

  /** Only the programmer has changed. */
  ghost predicate SameTarget(s: D.State, s': D.State) {
    s'.target == s.target && s'.dm == s.dm
  }

  /** What no request changes: the part behind the programmer, and its habits. */
  predicate SamePart(p: D.Programmer, p': D.Programmer) {
    p'.familyId == p.familyId && p'.modelHigh == p.modelHigh && p'.modelLow == p.modelLow &&
    p'.refusesReattach == p.refusesReattach
  }

  method SetInterfaceRaw(link: Link, family: byte, speed: byte) returns (status: Status)
    requires link.Valid()
    modifies link.wire, link.wire.sim
    ensures link.Valid() && SameTarget(old(link.State()), link.State())
    ensures ViewOf(link) == Attempt(old(ViewOf(link)), family, speed, FaultOf(link, old(link.wire.sent)))
    ensures status == Ok <==> FaultOf(link, old(link.wire.sent)) == Transport.Answered
    ensures (link.wire.Clean() <==> old(link.wire.Clean()) && status == Ok) && status != VerifyError
    ensures old(link.wire.Dead()) ==> link.wire.Dead() && link.State() == old(link.State())
    ensures SamePart(old(link.State()).programmer, link.State().programmer)
    ensures link.State().programmer.attached == old(link.State().programmer.attached)
    ensures link.wire.sent == old(link.wire.sent) + 1
  {
    var request := [0x81, 0x0c, 0x02, family, speed];
    var reply;
    status, reply := link.Command(request);
    if status != Ok {
      return;
    }
    if !ReplyOk(reply) {
      return TargetError;
    }
  }

  method SetInterface(link: Link, chip: Chip) returns (status: Status)
    requires link.Valid()
    modifies link, link.wire, link.wire.sim
    ensures link.Valid() && SameTarget(old(link.State()), link.State())
    ensures ViewOf(link) == AfterSet(old(ViewOf(link)), chip, FaultOf(link, old(link.wire.sent)))
    ensures status == Ok ==> link.configured && link.chipId == chip.linkeId
    ensures old(Informed(ViewOf(link))) ==> Informed(ViewOf(link)) && (status == Ok ==> link.Ready())
    ensures !Sends(old(ViewOf(link)), chip) ==>
      status == Ok && link.wire.sent == old(link.wire.sent) && link.State() == old(link.State())
    ensures Sends(old(ViewOf(link)), chip) ==>
      link.wire.sent == old(link.wire.sent) + 1 &&
      (status == Ok <==> FaultOf(link, old(link.wire.sent)) == Transport.Answered)
    ensures link.wire.Clean() ==> old(link.wire.Clean()) && status == Ok
    ensures (status == Ok ==> link.wire.Clean() == old(link.wire.Clean())) && status != VerifyError
    ensures old(link.wire.Dead()) ==> link.wire.Dead() && link.State() == old(link.State())
  {
    if link.configured && link.chipId == chip.linkeId {
      return Ok;
    }
    status := SetInterfaceRaw(link, chip.linkeId, chip.speed);
    if status != Ok {
      return;
    }
    link.chipId := chip.linkeId;
    link.configured := true;
  }

  /**
   What the lie does.  The tool holds one part, switches to another, and loses the
   answer; when it is asked for the first part again it says Ok and sends nothing,
   while the programmer is set up for the second.
   */
  method SwitchBack(link: Link, held: Chip, other: Chip) returns (first: Status, second: Status)
    requires link.Valid() && link.configured && link.chipId == held.linkeId && other.linkeId != held.linkeId
    requires FaultOf(link, link.wire.sent) == Transport.ReplyLost
    modifies link, link.wire, link.wire.sim
    ensures link.Valid() && first != Ok && second == Ok && link.wire.sent == old(link.wire.sent) + 1
    ensures link.configured && link.chipId == held.linkeId && link.State().programmer.chipId == other.linkeId
    ensures !Agrees(ViewOf(link))
  {
    hide CHIPS;
    first := SetInterface(link, other);
    second := SetInterface(link, held);
  }

  lemma AttachPacket(s: D.State, argument: byte)
    requires s.Valid()
    ensures var (p, reply) := D.Control(s.programmer, argument);
      D.Command(s, [0x81, 0x0d, 0x01, argument]) == (s.(programmer := p), reply)
  {
    hide D.Control;
    var request: seq<byte> := [0x81, 0x0d, 0x01, argument];
    assert request[1] == 0x0d && request[3] == argument && |request| > 3;
  }

  lemma ReleasePacket(s: D.State, argument: byte)
    requires s.Valid()
    ensures D.Command(s, [0x81, 0x0b, 0x01, argument]).0 == s.(programmer := s.programmer.(attached := false))
  {}

  lemma ControlKeepsPart(p: D.Programmer, argument: byte)
    ensures var p' := D.Control(p, argument).0;
      SamePart(p, p') && p'.chipId == p.chipId && p'.speed == p.speed && p'.configured == p.configured
  {}

  lemma ControlPacket(s: D.State, command: byte, argument: byte)
    requires s.Valid() && (command == 0x0d || command == 0x0b)
    ensures var r := D.Command(s, [0x81, command, 0x01, argument]); var p, p' := s.programmer, r.0.programmer;
      && r.0 == s.(programmer := p') && SamePart(p, p') && p'.chipId == p.chipId && p'.speed == p.speed
      && p'.configured == p.configured
      && (command == 0x0d ==> (p', r.1) == D.Control(p, argument))
      && (command == 0x0b ==> !p'.attached)
  {
    hide D.Command, D.Control;
    if command == 0x0d {
      AttachPacket(s, argument);
      ControlKeepsPart(s.programmer, argument);
    } else {
      ReleasePacket(s, argument);
    }
  }

  /** One control command; what it says back is the caller's business. */
  method SendControl(link: Link, command: byte, argument: byte) returns (status: Status, reply: seq<byte>)
    requires link.Valid() && (command == 0x0d || command == 0x0b)
    modifies link.wire, link.wire.sim
    ensures link.Valid() && SameTarget(old(link.State()), link.State()) && ViewOf(link) == old(ViewOf(link))
    ensures status == Ok <==> FaultOf(link, old(link.wire.sent)) == Transport.Answered
    ensures SamePart(old(link.State()).programmer, link.State().programmer)
    ensures status == Ok && command == 0x0d ==>
      (link.State().programmer, reply) == D.Control(old(link.State()).programmer, argument)
    ensures status == Ok && command == 0x0b ==> !link.State().programmer.attached
    ensures (link.wire.Clean() <==> old(link.wire.Clean()) && status == Ok) && status != VerifyError
    ensures link.wire.sent == old(link.wire.sent) + 1
    ensures old(link.wire.Dead()) ==> link.wire.Dead() && link.State() == old(link.State()) && status != Ok
  {
    ControlPacket(link.State(), command, argument);
    hide D.Command, D.Control;
    var request := [0x81, command, 0x01, argument];
    status, reply := link.Command(request);
  }

  /** Attaching is what stops the core. */
  method Halt(link: Link) returns (status: Status)
    requires link.Valid()
    modifies link.wire, link.wire.sim
    ensures link.Valid() && SameTarget(old(link.State()), link.State()) && ViewOf(link) == old(ViewOf(link))
    ensures status == Ok ==> link.State().programmer.attached
    ensures link.wire.sent == old(link.wire.sent) + 1
    ensures status == Ok <==> FaultOf(link, old(link.wire.sent)) == Transport.Answered
    ensures (link.wire.Clean() <==> old(link.wire.Clean()) && status == Ok) && status != VerifyError
    ensures old(link.wire.Dead()) ==> link.wire.Dead() && link.State() == old(link.State()) && status != Ok
  {
    var reply;
    status, reply := SendControl(link, 0x0d, 0x02);
  }

  /** Three control commands that end with the core running. */
  method Resume(link: Link) returns (status: Status)
    requires link.Valid()
    modifies link.wire, link.wire.sim
    ensures link.Valid() && SameTarget(old(link.State()), link.State()) && ViewOf(link) == old(ViewOf(link))
    ensures status == Ok ==> !link.State().programmer.attached
    ensures (link.wire.Clean() <==> old(link.wire.Clean()) && status == Ok) && status != VerifyError
    ensures old(link.wire.Dead()) ==> link.wire.Dead() && link.State() == old(link.State()) && status != Ok
  {
    var reply;
    status, reply := SendControl(link, 0x0b, 0x01);
    if status != Ok {
      return;
    }
    status, reply := SendControl(link, 0x0d, 0x02);
    if status != Ok {
      return;
    }
    status, reply := SendControl(link, 0x0d, 0xff);
  }

  // Identification.

  /** The model of an answer: sixteen revisions of a part share one row. */
  function ModelOf(high: byte, low: byte): nat {
    Val(high) * 0x100 + Val(low) / 16 * 16
  }

  predicate Detected(c: Chip, family: byte, model: nat) {
    c.linkeId == family && c.modelId == model
  }

  /** Where in the table a model stands. */
  function RowOf(model: nat): nat {
    if model < 0x1000 then
      if model == 0x0030 then 0 else if model == 0x0020 then 1 else if model == 0x0040 then 2
      else if model == 0x0050 then 3
      else if model == 0x0060 then 4 else if model == 0x0070 then 5 else if model == 0x0330 then 12 else 13
    else if model < 0x7000 then
      if model == 0x2500 then 6 else if model == 0x2030 then 7 else if model == 0x2080 then 8
      else if model == 0x3030 then 9
      else if model == 0x3050 then 10 else if model == 0x3070 then 11 else 14
    else if model < 0x8000 then
      if model == 0x7000 then 15 else if model == 0x7200 then 16 else if model == 0x7100 then 17 else 18
    else if model == 0x8200 then 19 else if model == 0x8300 then 20 else if model == 0x8400 then 21
    else if model == 0x9300 then 22 else if model == 0x9100 then 23 else 24
  }

  lemma RowsByModel()
    ensures forall i :: 0 <= i < |CHIPS| ==> RowOf(CHIPS[i].modelId) == i
  {
    FirstRowsByModel();
    LastRowsByModel();
    hide CHIPS, RowOf;
  }

  lemma FirstRowsByModel()
    ensures forall i :: 0 <= i < 13 && i < |CHIPS| ==> RowOf(CHIPS[i].modelId) == i
  {}

  lemma LastRowsByModel()
    ensures forall i :: 13 <= i < |CHIPS| ==> RowOf(CHIPS[i].modelId) == i
  {}

  /** No two rows answer to the same ids. */
  lemma DetectedOnce(a: Chip, b: Chip, family: byte, model: nat)
    requires a in CHIPS && b in CHIPS && Detected(a, family, model) && Detected(b, family, model)
    ensures a == b
  {
    RowsByModel();
    hide CHIPS, RowOf;
  }

  /** The first row that matches, which is the only one. */
  method ChipByDetectId(family: byte, high: byte, low: byte) returns (found: bool, chip: Chip)
    ensures found <==> exists c :: c in CHIPS && Detected(c, family, ModelOf(high, low))
    ensures found ==> chip in CHIPS && Detected(chip, family, ModelOf(high, low))
  {
    hide CHIPS, ModelOf;
    var i := 0;
    while i < |CHIPS|
      invariant 0 <= i <= |CHIPS|
      invariant forall k :: 0 <= k < i ==> !Detected(CHIPS[k], family, ModelOf(high, low))
    {
      if Detected(CHIPS[i], family, ModelOf(high, low)) {
        return true, CHIPS[i];
      }
      i := i + 1;
    }
    found, chip := false, Chip("", 0, 0, 0, 0, 0, 0, 0, 0, Unsupported);
  }

  /** The part that answers is in the table. */
  ghost predicate Known(p: D.Programmer) {
    exists c :: c in CHIPS && Detected(c, p.familyId, ModelOf(p.modelHigh, p.modelLow))
  }

  ghost predicate RightChip(chip: Chip, p: D.Programmer) {
    chip in CHIPS && Detected(chip, p.familyId, ModelOf(p.modelHigh, p.modelLow))
  }

  /** What a reattaching programmer will not do. */
  predicate Reluctant(p: D.Programmer) { p.attached && p.refusesReattach }

  /** The chip-id block, or the short refusal of a programmer that is attached already. */
  lemma AttachReply(p: D.Programmer)
    ensures var reply := D.Control(p, 0x02).1;
      if Reluctant(p) then |reply| == 4
      else
        |reply| == 8 && reply[0] == 0x82 && reply[1] == 0x0d &&
        reply[3] == p.familyId && reply[4] == p.modelHigh && reply[5] == p.modelLow
  {}

  method IdentifyOnce(link: Link) returns (status: Status, chip: Chip)
    requires link.Valid()
    modifies link, link.wire, link.wire.sim
    ensures link.Valid() && SameTarget(old(link.State()), link.State())
    ensures ViewOf(link) == AfterIdentify(old(ViewOf(link)), FaultOf(link, old(link.wire.sent)))
    ensures status == Ok ==> RightChip(chip, old(link.State()).programmer)
    ensures link.wire.Clean() ==> old(link.wire.Clean())
    ensures link.wire.Clean() ==>
      (status == Ok <==> Known(old(link.State()).programmer) && !Reluctant(old(link.State()).programmer))
    ensures SamePart(old(link.State()).programmer, link.State().programmer)
  {
    hide CHIPS, ModelOf, Detected, Agrees, Val, D.Command, D.Control;
    chip := Chip("", 0, 0, 0, 0, 0, 0, 0, 0, Unsupported);
    status := SetInterfaceRaw(link, 0x01, 0x02);
    if status != Ok {
      return;
    }
    link.configured := false;
    AttachReply(link.State().programmer);
    var reply;
    status, reply := SendControl(link, 0x0d, 0x02);
    if status != Ok {
      return;
    }
    if |reply| < 6 || reply[0] != 0x82 || reply[1] != 0x0d {
      return TargetError, chip;
    }
    var found;
    found, chip := ChipByDetectId(reply[3], reply[4], reply[5]);
    if !found {
      return TargetError, chip;
    }
    status := Ok;
  }

  /** If the first attempt fails, let the target run and try the whole sequence once more. */
  method IdentifyChip(link: Link) returns (status: Status, chip: Chip)
    requires link.Valid()
    modifies link, link.wire, link.wire.sim
    ensures link.Valid() && SameTarget(old(link.State()), link.State())
    ensures status == Ok ==> RightChip(chip, old(link.State()).programmer)
    ensures link.wire.Clean() ==> (status == Ok <==> Known(old(link.State()).programmer))
    ensures link.wire.Clean() ==> old(link.wire.Clean())
    ensures old(Agrees(ViewOf(link))) && Honest(link) ==> Agrees(ViewOf(link))
  {
    hide CHIPS, Known, RightChip, Agrees, Detected, ModelOf, D.Control;
    ghost var p := link.State().programmer;
    if Agrees(ViewOf(link)) { AgreesUnless(ViewOf(link), Identify(FaultOf(link, link.wire.sent))); }
    status, chip := IdentifyOnce(link);
    if status == Ok {
      return;
    }
    LetRun(link);
    if Agrees(ViewOf(link)) { AgreesUnless(ViewOf(link), Identify(FaultOf(link, link.wire.sent))); }
    KnownSame(p, link.State().programmer);
    status, chip := IdentifyOnce(link);
  }

  /** Leave reset and release, for what it is worth: both statuses are ignored. */
  method LetRun(link: Link)
    requires link.Valid()
    modifies link, link.wire, link.wire.sim
    ensures link.Valid() && SameTarget(old(link.State()), link.State()) && ViewOf(link) == old(ViewOf(link))
    ensures SamePart(old(link.State()).programmer, link.State().programmer)
    ensures link.wire.Clean() ==> old(link.wire.Clean()) && !link.State().programmer.attached
  {
    hide D.Control;
    var ignored, reply := SendControl(link, 0x0b, 0x01);
    ControlRelease(link.State().programmer);
    ignored, reply := SendControl(link, 0x0d, 0xff);
  }

  lemma ControlRelease(p: D.Programmer)
    ensures !D.Control(p, 0xff).0.attached
  {}

  lemma KnownSame(p: D.Programmer, p': D.Programmer)
    requires SamePart(p, p')
    ensures Known(p) == Known(p') && forall c :: RightChip(c, p) == RightChip(c, p')
  {}

  /** A request that fails has had no effect. */
  ghost predicate Honest(link: Link) {
    forall n: nat :: FaultOf(link, n) != Transport.ReplyLost
  }
}
