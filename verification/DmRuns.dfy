/**
 Runs of operations on the debug module (src/dm.c).

 Recovery: over a run of any register and memory operations, no abstract command is
 issued while cmderr is set, as section 3.12.6 of the RISC-V Debug Specification
 0.13.2 demands.  Refinement: on any wire, a run of loads and stores leaves the
 target exactly as those of them that took effect would have, in order; if no request
 failed, that is all of them.
 */
module DmRuns {
  import opened Words
  import opened Chips
  import opened Linke
  import opened DmHost
  import opened Registers
  import T = Target
  import D = DebugModule

  // Recovery.

  /** Everything dm.c offers that issues abstract commands. */
  datatype Op =
    | ReadGpr(reg: nat)
    | WriteGpr(reg: nat, value: word)
    | ReadPc
    | WritePc(value: word)
    | ReadCsr(regno: word)
    | WriteCsr(regno: word, value: word)
    | LoadAt(size: nat, address: nat)
    | StoreAt(size: nat, address: nat, value: word)
  {
    predicate Valid() {
      (LoadAt? || StoreAt?) ==> size <= 2 && address < WORD_LIMIT
    }
  }

  method Perform(link: Link, op: Op) returns (status: Status)
    requires Usable(link) && op.Valid()
    modifies link.wire, link.wire.sim, link.programs
    ensures Recovered(link) && ProgramsBuilt(link.programs)
  {
    hide Prompt, OnlyScratch, T.AccessLoad, T.AccessStore, D.Loaded;
    ghost var s := link.State();
    var ignored;
    match op {
      case ReadGpr(reg) =>
        status, ignored := GprRead(link, reg);
      case WriteGpr(reg, value) =>
        status := GprWrite(link, reg, value);
      case ReadPc =>
        status, ignored := PcRead(link);
      case WritePc(value) =>
        status := PcWrite(link, value);
      case ReadCsr(regno) =>
        status, ignored := CsrAccess(link, regno, 0, false);
      case WriteCsr(regno, value) =>
        status, ignored := CsrAccess(link, regno, value, true);
      case LoadAt(size, address) =>
        status, ignored := ReadSized(link, size, address);
        ScratchLag(s, link.State());
      case StoreAt(size, address, value) =>
        status := WriteSized(link, size, address, value);
        ScratchLag(s, link.State());
    }
  }

  /** Any sequence of operations on a wire that answers, refused commands included. */
  method PerformAll(link: Link, ops: seq<Op>) returns (statuses: seq<Status>)
    requires Usable(link) && link.wire.Reliable() && Prompt(link.State().dm)
    requires forall i :: 0 <= i < |ops| ==> ops[i].Valid()
    modifies link.wire, link.wire.sim, link.programs
    ensures Usable(link) && |statuses| == |ops|
    ensures link.State().dm.misissued == old(link.State().dm.misissued)
  {
    hide Prompt;
    ghost var lag := link.State().dm.lag;
    statuses := [];
    link.wire.ReliableIsClean();
    while |statuses| < |ops|
      invariant |statuses| <= |ops| && Usable(link) && link.State().dm.lag == lag
      invariant link.State().dm.misissued == old(link.State().dm.misissued)
      decreases |ops| - |statuses|
    {
      ghost var d := link.State().dm;
      SamePrompt(old(link.State()).dm, d);
      var status := Perform(link, ops[|statuses|]);
      link.wire.ReliableIsClean();
      statuses := statuses + [status];
    }
  }

  // Refinement.

  datatype Access = Access(store: bool, size: nat, address: nat, value: word)
  {
    predicate Valid() {
      size <= 2 && address < WORD_LIMIT
    }
  }

  /** The target after those accesses that took effect, each of them one load or store by the core. */
  ghost function Carried(t: T.Target, accesses: seq<Access>, took: seq<bool>): (r: T.Target)
    requires t.Valid() && |took| <= |accesses| && forall i :: 0 <= i < |accesses| ==> accesses[i].Valid()
    ensures r.Valid()
    decreases |took|
  {
    if took == [] then t
    else
      var n := |took| - 1;
      var before := Carried(t, accesses, took[..n]);
      var a := accesses[n];
      if took[n] then Effect(before, a.store, a.size, a.address, a.value).0 else before
  }

  /** The accesses that took effect are the only ones on the core's bus. */
  lemma {:induction false} BusIsWhatTookEffect(t: T.Target, accesses: seq<Access>, took: seq<bool>)
    requires t.Valid() && |took| <= |accesses| && forall i :: 0 <= i < |accesses| ==> accesses[i].Valid()
    ensures Carried(t, accesses, took).bus == t.bus + Requested(accesses, took)
    decreases |took|
  {
    if took != [] {
      var n := |took| - 1;
      BusIsWhatTookEffect(t, accesses, took[..n]);
      var before := Carried(t, accesses, took[..n]);
      EffectOnBus(before, accesses[n]);
      hide Effect;
    }
  }

  function Requested(accesses: seq<Access>, took: seq<bool>): seq<T.Bus>
    requires |took| <= |accesses|
    decreases |took|
  {
    if took == [] then []
    else
      var n := |took| - 1;
      Requested(accesses, took[..n]) + if took[n] then [BusOf(accesses[n])] else []
  }

  function BusOf(a: Access): T.Bus {
    if a.store then T.Put(a.address, a.size, a.value) else T.Fetch(a.address, a.size)
  }

  lemma FlashStoreOffBus(t: T.Target, offset: nat, size: nat, v: word)
    requires t.Valid() && size <= 2 && offset + T.Width(size) <= |t.flash|
    ensures T.FlashStore(t, offset, size, v).bus == t.bus
  {
    hide T.Programmed, T.SetRequests, Has, T.StoreTo, B0, B1, B2, B3;
  }

  lemma StoreOnBus(t: T.Target, address: nat, size: nat, v: word)
    requires t.Valid()
    ensures T.AccessStore(t, address, size, v).bus == t.bus + [T.Put(address, size, v)]
  {
    var t1 := t.(bus := t.bus + [T.Put(address, size, v)]);
    if size <= 2 && T.FlashOffset(address) + T.Width(size) <= |t.flash| {
      FlashStoreOffBus(t1, T.FlashOffset(address), size, v);
    }
    hide T.FlashStore, T.CtrlWrite, T.StoreTo;
  }

  lemma LoadOnBus(t: T.Target, address: nat, size: nat)
    requires t.Valid()
    ensures T.AccessLoad(t, address, size).0.bus == t.bus + [T.Fetch(address, size)]
  {}

  lemma EffectOnBus(t: T.Target, a: Access)
    requires t.Valid() && a.Valid()
    ensures Effect(t, a.store, a.size, a.address, a.value).0.bus == t.bus + [BusOf(a)]
  {
    StoreOnBus(t, a.address, a.size, a.value);
    LoadOnBus(t, a.address, a.size);
    hide T.AccessStore, T.AccessLoad;
  }

  /** Any sequence of loads and stores, on any wire. */
  method AccessAll(link: Link, accesses: seq<Access>) returns (statuses: seq<Status>, ghost took: seq<bool>)
    requires Usable(link) && forall i :: 0 <= i < |accesses| ==> accesses[i].Valid()
    modifies link.wire, link.wire.sim, link.programs
    ensures Usable(link) && OnlyScratch(old(link.State()), link.State())
    ensures |statuses| == |took| == |accesses|
    ensures forall i :: 0 <= i < |accesses| ==> (statuses[i] == Ok ==> took[i])
    ensures link.State().target == Carried(old(link.State().target), accesses, took)
    ensures old(link.wire.failed) <= link.wire.failed
    ensures link.wire.failed == old(link.wire.failed) && Prompt(old(link.State().dm)) ==>
      forall i :: 0 <= i < |accesses| ==> statuses[i] == Ok && took[i]
  {
    hide OnlyScratch, Effect, T.AccessLoad, T.AccessStore, D.Loaded, Word, ProgramsBuilt, Prompt;
    ghost var s := link.State();
    ScratchRefl(s);
    statuses, took := [], [];
    while |statuses| < |accesses|
      invariant |statuses| == |took| <= |accesses| && Usable(link) && OnlyScratch(s, link.State())
      invariant forall i :: 0 <= i < |statuses| ==> (statuses[i] == Ok ==> took[i])
      invariant link.State().target == Carried(s.target, accesses, took)
      invariant old(link.wire.failed) <= link.wire.failed
      invariant link.wire.failed == old(link.wire.failed) && Prompt(s.dm) ==>
        forall i :: 0 <= i < |statuses| ==> statuses[i] == Ok
      decreases |accesses| - |statuses|
    {
      ghost var mid := link.State();
      ScratchLag(s, mid);
      SamePrompt(s.dm, mid.dm);
      var a := accesses[|statuses|];
      var status, ignored;
      if a.store {
        status := WriteSized(link, a.size, a.address, a.value);
      } else {
        status, ignored := ReadSized(link, a.size, a.address);
      }
      ScratchTrans(s, mid, link.State());
      ghost var effect := Effect(mid.target, a.store, a.size, a.address, a.value).0;
      EffectIs(mid.target, a);
      assert (took + [link.State().target == effect])[..|took|] == took;
      statuses := statuses + [status];
      took := took + [link.State().target == effect];
    }
  }

  lemma EffectIs(t: T.Target, a: Access)
    requires t.Valid() && a.Valid()
    ensures Effect(t, a.store, a.size, a.address, a.value).0 ==
      if a.store then T.AccessStore(t, a.address, a.size, a.value) else T.AccessLoad(t, a.address, a.size).0
  {}
}
