/**
 Acknowledgements as control packets: how the bridge and the probe build them,
 and what they set off in the session that receives them.
 */
module Acknowledgements {
  import opened Basics
  import opened Gip
  import opened AuthTransport
  import opened GipAuth
  import opened BridgeAuth
  import opened AuthSession
  import Probe
  import Sequence

  /**
   The acknowledgement of a packet: a header for nine bytes, an unknown byte,
   the command and the options of the acknowledged packet, what has arrived,
   two bytes of padding, and what remains, low bytes first.
   */
  function AckBytes(command: byte, sequence: byte, length: nat, remaining: nat): (p: seq<byte>)
    requires length < 0x1_0000 && remaining < 0x1_0000
    ensures |p| == 13
  {
    [0x01, 0x20, sequence, 9, 0, command, 0x20, length % 256, length / 256, 0, 0, remaining % 256, remaining / 256]
  }

  /** Two acknowledgements read the same only if they are the same. */
  lemma AckBytesTell(command: byte, sequence: byte, length: nat, remaining: nat)
    requires length < 0x1_0000 && remaining < 0x1_0000
    ensures var p := AckBytes(command, sequence, length, remaining);
            p[2] == sequence && p[5] == command && FromBe16(p[8], p[7]) == length && FromBe16(p[12], p[11]) == remaining
  {
  }

  /** The counter of control packets. */
  class ControlSender {
    var counter: byte

    constructor ()
      ensures counter == 1
    {
      counter := 1;
    }

    /** A packet that is no chunk, numbered as the caller says or, for 0, by the counter. */
    method BuildControl(command: byte, options: byte, sequence: byte, payload: seq<byte>) returns (packet: seq<byte>)
      requires counter != 0 && options < 128 && |payload| <= PKT_MAX_LENGTH
      modifies this
      ensures packet == [command, options, if sequence != 0 then sequence else old(counter), |payload|] + payload
      ensures counter == if sequence != 0 then old(counter) else if old(counter) == 255 then 1 else old(counter) + 1
    {
      var buf := new byte[ENDPOINT_SIZE](_ => 0);
      var used := sequence;
      if used == 0 {
        used := counter;
        counter := (counter + 1) % 0x100;
      }
      var h := Header(command, options, used, |payload|, 0);
      HeaderInNumbers(h);
      hide HeaderBytes, Encodable;
      assert |HeaderBytes(h)| == 4;
      var n := Sender.BuildPacket(h, payload, buf);
      if counter == 0 {
        counter := 1;
      }
      packet := buf[..n];
    }

    method SendAck(h: Header, length: nat, remaining: nat) returns (packet: seq<byte>)
      requires counter != 0 && length < 0x1_0000 && remaining < 0x1_0000
      modifies this
      ensures packet == AckBytes(h.command, if h.sequence != 0 then h.sequence else old(counter), length, remaining)
      ensures counter != 0 && (h.sequence != 0 ==> counter == old(counter))
    {
      var pkt := [0, h.command, OPT_INTERNAL, length % 0x100, length / 0x100, 0, 0, remaining % 0x100, remaining / 0x100];
      packet := BuildControl(CMD_ACKNOWLEDGE, OPT_INTERNAL, h.sequence, pkt);
    }
  }

  /**
   What the receiver of a long message answers to its packets: the first 58
   bytes, then at the last fragment the whole message, with the command and the
   sequence number of the transfer, and to the other packets nothing.
   */
  lemma TransferAnswered(msg: seq<byte>, sequence: byte, i: nat)
    requires 58 < |msg| <= 4096 && i < |Ideal(msg, true, sequence)|
    ensures var d := DecodeHeader(Ideal(msg, true, sequence)[i]);
            && d.Decoded? && d.header.command == 0x06 && d.header.sequence == sequence
            && BridgeAck(d.header) ==
               if i == 0 then Some(58) else if i == (|msg| - 1) / 58 then Some(|msg|) else None
  {
    var h := IdealHeader(msg, true, sequence, i);
    IdealHeaderFields(msg, true, sequence, i);
    IdealPacket(msg, true, sequence, i);
    HeaderRoundTrip(h, msg[PieceEnd(msg, i)..PieceEnd(msg, i + 1)]);
    LastPiece(msg, i);
    hide *;
    var from, to := PieceEnd(msg, i), PieceEnd(msg, i + 1);
    PieceEndsInNumbers(msg, i);
    ChunkAnswered(i == 0, if i == 0 then true else i == Pieces(msg) - 1, sequence, to - from, if i == 0 then |msg| else from);
  }

  lemma ChunkAnswered(start: bool, acknowledge: bool, sequence: byte, length: nat, offset: nat)
    requires length <= 58 && offset <= 4096
    ensures var h := AuthHeader(ChunkOptions(start, acknowledge), sequence, length, offset);
            && h.command == 0x06 && h.sequence == sequence && OnWire(h) == h
            && BridgeAck(h) == if !acknowledge then None else if start then Some(length) else Some(offset + length)
  {
    hide HasOption, ChunkOptions;
  }

  // ----- received by a session -------------------------------------------------------------

  /** Which packets with a four-byte header acknowledge authentication traffic, by their bytes. */
  lemma AckLayout(data: seq<byte>)
    requires |data| >= 4 && data[1] < 128 && data[3] < 128
    ensures AcksAuth(data) <==> data[0] == 0x01 && |data| >= 9 && data[5] == 0x06
  {
    OptionBits(data[1]);
    OneGroup(data[3..]);
    hide VarintAt, HasOption;
    assert DecodeHeader(data) == Decoded(Header(data[0], data[1], data[2], data[3], 0), 4);
  }

  lemma OneGroup(data: seq<byte>)
    requires data != [] && data[0] < 128
    ensures VarintAt(data) == (data[0], 1)
  {
  }

  /** An acknowledgement is looked at by the sender if and only if it is for authentication traffic, and completes no message. */
  lemma AckRecognised(rx: Rx, command: byte, sequence: byte, length: nat, remaining: nat)
    requires rx.Ok() && length < 0x1_0000 && remaining < 0x1_0000
    ensures var data := AckBytes(command, sequence, length, remaining);
            && IsPacket(data)
            && DecodeHeader(data) == Decoded(Header(0x01, 0x20, sequence, 9, 0), 4)
            && (AcksAuth(data) <==> command == 0x06)
            && Receive(rx, data) == (rx, None)
  {
    var data, h := AckBytes(command, sequence, length, remaining), Header(0x01, 0x20, sequence, 9, 0);
    HeaderInNumbers(h);
    HeaderRoundTrip(h, data[4..]);
    OptionBits(0x20);
    assert data == HeaderBytes(h) + data[4..];
    hide HeaderBytes, DecodeHeader, HasOption, AckBytes;
    assert data[5] == command by {
      AckBytesTell(command, sequence, length, remaining);
    }
  }

  /**
   What an acknowledgement sets off, whatever it reports: if it is for
   authentication traffic, the transfer goes on with its sequence number, and
   then authentication is completed if a client finish has been asked for; if it
   is for any other command, nothing.
   */
  lemma AckHandled(c: Crypto, l: Link, command: byte, sequence: byte, length: nat, remaining: nat, env: Env)
    requires LinkOk(c, l) && length < 0x1_0000 && remaining < 0x1_0000
    ensures IsPacket(AckBytes(command, sequence, length, remaining))
    ensures var m := Handle(c, l, Packet(AckBytes(command, sequence, length, remaining), env));
            var (tx, line) := Acknowledged(l.tx, l.line, sequence);
            var done := Send(tx, line, [1, 0], false);
            if command != 0x06 then m == l
            else if l.a.lastCmd != 0x08 || l.a.authenticated then m == Link(tx, line, l.rx, l.a)
            else m == Link(done.t, done.line, l.rx, l.a.(authenticated := line.Accepts()))
  {
    AckRecognised(l.rx, command, sequence, length, remaining);
    hide AckBytes, IsPacket, AcksAuth, DecodeHeader, Receive, Acknowledged, Send;
  }

  /** An acknowledgement of authentication traffic, whatever it reports. */
  ghost predicate IsAuthAck(data: seq<byte>, sequence: byte) {
    exists length: nat, remaining: nat | length < 0x1_0000 && remaining < 0x1_0000 ::
      data == AckBytes(0x06, sequence, length, remaining)
  }

  /** While no client finish has been asked for, such an acknowledgement only lets the transfer go on. */
  lemma AckContinues(c: Crypto, l: Link, data: seq<byte>, sequence: byte, env: Env)
    requires LinkOk(c, l) && IsAuthAck(data, sequence) && l.a.lastCmd != 0x08
    ensures IsPacket(data)
    ensures var (tx, line) := Acknowledged(l.tx, l.line, sequence);
            Handle(c, l, Packet(data, env)) == Link(tx, line, l.rx, l.a)
  {
    var length: nat, remaining: nat :|
      length < 0x1_0000 && remaining < 0x1_0000 && data == AckBytes(0x06, sequence, length, remaining);
    AckHandled(c, l, 0x06, sequence, length, remaining, env);
    hide Handle, IsPacket, Acknowledged, AckBytes;
  }

  lemma TwoAcknowledged(t: Tx, line: Line, first: byte, second: byte)
    requires t.Ok()
    ensures var (t1, line1) := Acknowledged(t, line, first);
            AllAcknowledged(t, line, [first, second]) == Acknowledged(t1, line1, second)
  {
    hide Acknowledged;
    assert [first, second][..1] == [first] && [first][..0] == [];
    assert AllAcknowledged(t, line, []) == (t, line);
    assert AllAcknowledged(t, line, [first]) == Acknowledged(t, line, first);
  }

  /** A long message is a secret or a public key, and becomes the last command. */
  lemma LongHandedOver(c: Crypto, l: Link, e: Event, m: Message)
    requires LinkOk(c, l) && (e.Packet? ==> IsPacket(e.data))
    requires OrdersFor(c, l, e) == [Deliver(m)] && |m.data| > 58
    ensures var after := Handle(c, l, e);
            && LinkOk(c, after) && IsLong(m.data) && after.a.lastCmd in {0x05, 0x25}
            && (after.tx, after.line) == (Send(l.tx, l.line, m.data, m.acknowledge).t, Send(l.tx, l.line, m.data, m.acknowledge).line)
  {
    EventIsStep(c, l, e);
    StepsFit(c, l, e);
    CarryOne(l.tx, l.line, Deliver(m));
    OrdersHandOver(c, l, e);
    var steps := StepsFor(c, l, e);
    hide Send, Carry, Apply, Handle, OrdersFor, Consistent;
    assert HandedOver([Deliver(m)]) == [m] by {
      assert [Deliver(m)][..0] == [];
      assert HandedOver([]) == [];
    }
    assert steps != [] && Apply(c, l.a, steps[0]).sent == Some(m);
    MessageSizes(c, l.a, steps[0]);
    StepKeeps(c, l.a, steps[0]);
  }

  /**
   After an event that hands a long message over, two acknowledgements of
   authentication traffic finish its transfer, whatever numbers they carry, if
   no write is refused: exactly the packets of the transfer have gone out, and
   whoever receives them has exactly that message.
   */
  lemma TwoAcksFinish(c: Crypto, l: Link, e: Event, m: Message, first: seq<byte>, second: seq<byte>, s1: byte, s2: byte,
                      env: Env, rx: Rx)
    requires LinkOk(c, l) && (e.Packet? ==> IsPacket(e.data)) && rx.Ok()
    requires OrdersFor(c, l, e) == [Deliver(m)] && |m.data| > 58
    requires IsAuthAck(first, s1) && IsAuthAck(second, s2)
    requires forall k | k >= l.line.attempts :: l.line.accept(k)
    ensures PacketsOk([e, Packet(first, env), Packet(second, env)]) && IsLong(m.data)
    ensures var done := HandleAll(c, l, [e, Packet(first, env), Packet(second, env)]);
            var sent := Ideal(m.data, m.acknowledge, if l.tx.counter == 0 then 1 else l.tx.counter);
            && done.tx.len == 0 && !done.tx.terminatorPending
            && done.line.sent == l.line.sent + sent
            && done.a == Handle(c, l, e).a && done.rx == Handle(c, l, e).rx
            && AllStayInside(sent) && Feed(rx, sent).1 == [m.data]
  {
    assert l.tx.Ok();
    LongHandedOver(c, l, e, m);
    hide *;
    var l1 := Handle(c, l, e);
    AckContinues(c, l1, first, s1, env);
    var l2 := Handle(c, l1, Packet(first, env));
    AckContinues(c, l2, second, s2, env);
    ThreeEvents(c, l, e, Packet(first, env), Packet(second, env));
    TwoAcknowledged(l1.tx, l1.line, s1, s2);
    WholeTransfer(l.tx, l.line, m, [s1, s2], rx);
  }

  lemma WholeTransfer(t: Tx, line: Line, m: Message, acks: seq<byte>, rx: Rx)
    requires t.Ok() && IsLong(m.data) && rx.Ok() && |acks| == 2 && forall k | k >= line.attempts :: line.accept(k)
    ensures var r := Send(t, line, m.data, m.acknowledge);
            var done := AllAcknowledged(r.t, r.line, acks);
            var sent := Ideal(m.data, m.acknowledge, if t.counter == 0 then 1 else t.counter);
            && done.0.len == 0 && !done.0.terminatorPending && done.1.sent == line.sent + sent
            && AllStayInside(sent) && Feed(rx, sent).1 == [m.data]
  {
    hide Send, AllAcknowledged, Ideal, AllStayInside, Feed, Pieces, IsLong;
    var sequence: byte := if t.counter == 0 then 1 else t.counter;
    var j := ExactlyOnce(t, line, m.data, m.acknowledge, acks);
    var sent := Ideal(m.data, m.acknowledge, sequence);
    assert sent[..Pieces(m.data) + 1] == sent;
    IdealPrefixDelivers(rx, m.data, m.acknowledge, sequence, Pieces(m.data) + 1);
  }

  lemma ThreeEvents(c: Crypto, l: Link, e: Event, f: Event, g: Event)
    requires LinkOk(c, l) && (e.Packet? ==> IsPacket(e.data)) && (f.Packet? ==> IsPacket(f.data)) && (g.Packet? ==> IsPacket(g.data))
    ensures PacketsOk([e, f, g]) && HandleAll(c, l, [e, f, g]) == Handle(c, Handle(c, Handle(c, l, e), f), g)
  {
    hide Handle, LinkOk, IsPacket;
    assert [e, f, g][..2] == [e, f] && [e, f][..1] == [e] && [e][..0] == [];
    assert HandleAll(c, l, []) == l;
    assert HandleAll(c, l, [e]) == Handle(c, l, e);
    assert HandleAll(c, l, [e, f]) == Handle(c, HandleAll(c, l, [e]), f);
  }
}
