/** The request layer of src/linke.c: one open programmer and its debug-module registers. */
module Linke {
  import opened Words
  import opened Chips
  import D = DebugModule
  import Transport

  /** The instruction tables of src/dm.c, built on first use. */
  class Programs {
    var ready: bool
    var write: seq<seq<word>>
    var read: seq<seq<word>>

    constructor ()
      ensures !ready
    {
      ready, write, read := false, [], [];
    }
  }

  /** A reply is an acknowledgement unless its header or its status byte says otherwise. */
  predicate ReplyOk(reply: seq<byte>) {
    |reply| > 0 && reply[0] == 0x82 && !(|reply| == 9 && (reply[8] == 0x02 || reply[8] == 0x03))
  }

  class Link {
    const wire: Transport.Wire
    const programs: Programs
    var open: bool
    var chipId: byte
    var configured: bool

    constructor (wire: Transport.Wire, programs: Programs)
      requires wire.Valid()
      ensures this.wire == wire && this.programs == programs && open && chipId == 0 && !configured
    {
      this.wire, this.programs, open, chipId, configured := wire, programs, true, 0, false;
    }

    ghost predicate Valid()
      reads this, wire, wire.sim
    {
      open && wire.Valid()
    }

    ghost function State(): (s: D.State)
      reads wire.sim
    {
      wire.State()
    }

    /** The programmer has been told which part it talks to, so debug registers answer. */
    ghost predicate Ready()
      reads this, wire, wire.sim
    {
      Valid() && State().programmer.configured
    }

    method Command(request: seq<byte>) returns (status: Status, reply: seq<byte>)
      requires wire.Valid() && D.WellFormed(request)
      modifies wire, wire.sim
      ensures wire.Valid()
      ensures !open ==>
        status == Usb && State() == old(State()) && unchanged(wire)
      ensures open ==> wire.sent == old(wire.sent) + 1
      ensures open ==> (status == Ok <==> wire.fault(old(wire.sent)) == Transport.Answered)
      ensures open ==> wire.failed == old(wire.failed) + if status == Ok then 0 else 1
      ensures open && wire.fault(old(wire.sent)) == Transport.RequestLost ==> State() == old(State())
      ensures open && wire.fault(old(wire.sent)) != Transport.RequestLost ==>
        State() == D.Command(old(State()), request).0
      ensures status == Ok ==> reply == D.Command(old(State()), request).1
      ensures status == Ok || status == Usb
    {
      if !open {
        return Usb, [];
      }
      var rc;
      rc, reply := wire.Command(request);
      if rc < 0 {
        return Usb, [];
      }
      status := Ok;
    }

    /** The packet, most significant byte of the value first. */
    static method RegisterRequest(reg: nat, value: word, operation: byte) returns (request: array<byte>)
      requires reg < 256
      ensures fresh(request) && request[..] == D.RegisterRequest(Byte(reg), value, operation)
    {
      hide B0, B1, B2, B3, Val;
      request := new byte[9];
      request[0] := 0x81;
      request[1] := 0x08;
      request[2] := 0x06;
      request[3] := Byte(reg);
      request[4] := B3(value);
      request[5] := B2(value);
      request[6] := B1(value);
      request[7] := B0(value);
      request[8] := operation;
    }

    /** One debug-module register access: a nine-byte packet out, a nine-byte packet back. */
    method RegAccess(reg: nat, value: word, operation: byte) returns (status: Status, result: word)
      requires Valid() && reg < 256 && (operation == 0x01 || operation == 0x02)
      modifies wire, wire.sim
      ensures Valid() && wire.sent == old(wire.sent) + 1
      ensures !old(Ready()) ==> status != Ok && State() == old(State())
      ensures old(Ready()) ==> (status == Ok <==> wire.fault(old(wire.sent)) == Transport.Answered)
      ensures status != VerifyError
      ensures wire.failed == old(wire.failed) + if wire.fault(old(wire.sent)) == Transport.Answered then 0 else 1
      ensures wire.fault(old(wire.sent)) == Transport.RequestLost ==> State() == old(State())
      ensures old(Ready()) && wire.fault(old(wire.sent)) != Transport.RequestLost && operation == 0x02 ==>
        State() == D.RegWritten(old(State()), reg, value)
      ensures old(Ready()) && wire.fault(old(wire.sent)) != Transport.RequestLost && operation == 0x01 ==>
        State() == D.RegFetched(old(State()), reg)
      ensures status == Ok && operation == 0x01 ==> result == D.DmiRead(old(State().dm), reg).1
    {
      hide D.Command, D.RegWritten, D.RegFetched, D.DmiRead, B0, B1, B2, B3, Join, Val;
      var request := RegisterRequest(reg, value, operation);
      D.WritePacket(State(), reg, value);
      D.ReadPacket(State(), reg, value);
      result := 0;
      var reply;
      status, reply := Command(request[..]);
      if status != Ok {
        return;
      }
      if |reply| != 9 {
        return TargetError, 0;
      }
      if !ReplyOk(reply) {
        return TargetError, 0;
      }
      result := D.ReplyValue(reply);
    }

    method DmiRead(reg: nat) returns (status: Status, result: word)
      requires Ready() && reg < 256
      modifies wire, wire.sim
      ensures Ready()
      ensures status == Ok ==> State() == D.RegFetched(old(State()), reg) && result == D.DmiRead(old(State().dm), reg).1
      ensures State() == old(State()) || State() == D.RegFetched(old(State()), reg)
      ensures status != VerifyError
      ensures wire.failed == old(wire.failed) + if status == Ok then 0 else 1
      ensures wire.sent == old(wire.sent) + 1 && (status == Ok <==> wire.fault(old(wire.sent)) == Transport.Answered)
      ensures old(wire.Dead()) ==> wire.Dead() && status != Ok && State() == old(State())
    {
      hide D.RegFetched, D.DmiRead;
      status, result := RegAccess(reg, 0, 0x01);
    }

    method DmiWrite(reg: nat, value: word) returns (status: Status)
      requires Ready() && reg < 256
      modifies wire, wire.sim
      ensures Ready()
      ensures status == Ok ==> State() == D.RegWritten(old(State()), reg, value)
      ensures State() == old(State()) || State() == D.RegWritten(old(State()), reg, value)
      ensures status != VerifyError
      ensures wire.failed == old(wire.failed) + if status == Ok then 0 else 1
      ensures wire.sent == old(wire.sent) + 1 && (status == Ok <==> wire.fault(old(wire.sent)) == Transport.Answered)
      ensures old(wire.Dead()) ==> wire.Dead() && status != Ok && State() == old(State())
    {
      hide D.RegFetched, D.DmiRead, D.DmiWrite;
      var result;
      status, result := RegAccess(reg, value, 0x02);
    }
  }
}
