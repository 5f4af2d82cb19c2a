/**
 The wire between the tool and the programmer (src/transport.h), with its faults.

 Whether request number n gets through is a parameter of the run.  A request may be
 lost before it takes effect, or take effect and have its reply lost; the host
 cannot tell the two apart.
 */
module Transport {
  import opened Words
  import D = DebugModule
  import Simulator

  datatype Fault = Answered | ReplyLost | RequestLost

  class Wire {
    const sim: Simulator.Sim
    const fault: nat -> Fault
    var sent: nat
    /** How many requests have failed so far. */
    ghost var failed: nat

    constructor (sim: Simulator.Sim, fault: nat -> Fault)
      requires sim.Valid()
      ensures this.sim == sim && this.fault == fault && sent == 0 && failed == 0 && Valid()
    {
      this.sim, this.fault, sent, failed := sim, fault, 0, 0;
    }

    /** How many of the first n requests fail. */
    ghost function Failures(n: nat): nat {
      if n == 0 then 0 else Failures(n - 1) + if fault(n - 1) == Answered then 0 else 1
    }

    lemma FailuresGrow(m: nat, n: nat)
      requires m <= n
      ensures Failures(m) <= Failures(n)
      ensures Failures(m) == Failures(n) <==> forall k: nat :: m <= k < n ==> fault(k) == Answered
    {
      if m < n { FailuresGrow(m, n - 1); }
    }

    ghost predicate Valid()
      reads this, sim
    {
      sim.Valid() && failed == Failures(sent)
    }

    /** No request has failed so far. */
    ghost predicate Clean()
      reads this
    {
      failed == 0
    }

    ghost function State(): D.State
      reads sim
    {
      sim.State()
    }

    /** Every request of this run is answered. */
    ghost predicate Reliable() {
      forall n: nat :: fault(n) == Answered
    }

    /** Once a request has failed, no later one reaches the programmer. */
    ghost predicate FailStop() {
      forall m: nat, n: nat :: m < n && fault(m) != Answered ==> fault(n) == RequestLost
    }

    /** Nothing sent from now on will reach the programmer. */
    ghost predicate Dead()
      reads this
    {
      forall n: nat :: n >= sent ==> fault(n) == RequestLost
    }

    lemma ReliableIsClean()
      requires Valid() && Reliable()
      ensures Clean()
    {
      FailuresGrow(0, sent);
    }

    lemma FailStopKills()
      requires Valid() && FailStop() && !Clean()
      ensures Dead()
    {
      FailuresGrow(0, sent);
    }

    /** One exchange.  A negative rc means that no answer came. */
    method Command(request: seq<byte>) returns (rc: int, reply: seq<byte>)
      requires Valid() && D.WellFormed(request)
      modifies this, sim
      ensures Valid() && sent == old(sent) + 1
      ensures rc == 0 <==> fault(old(sent)) == Answered
      ensures rc <= 0
      ensures failed == old(failed) + if rc == 0 then 0 else 1
      ensures State() == if fault(old(sent)) == RequestLost then old(State()) else D.Command(old(State()), request).0
      ensures rc == 0 ==> reply == D.Command(old(State()), request).1
    {
      var outcome := fault(sent);
      failed := failed + if outcome == Answered then 0 else 1;
      sent := sent + 1;
      if outcome == RequestLost {
        return -1, [];
      }
      rc, reply := sim.Command(request);
      if outcome == ReplyLost {
        return -1, [];
      }
    }
  }
}
