/**
 The authentication branches of on_rx: packets from the headset drive the
 reassembler, the handshake and the sender together.
 */
module AuthSession {
  import opened Basics
  import opened Gip
  import opened AuthTransport
  import opened GipAuth
  import opened BridgeAuth
  import opened AuthState
  import Sequence

  /** The three parts of a session and the endpoint they write to. */
  datatype Link = Link(tx: Tx, line: Line, rx: Rx, a: Auth)

  ghost predicate LinkOk(c: Crypto, l: Link) {
    l.tx.Ok() && l.rx.Ok() && Consistent(c, l.a)
  }

  /** A handshake step whose message goes straight to auth_send: the step sees what the endpoint says. */
  function RunStep(c: Crypto, l: Link, input: Input, env: Env): (m: Link)
    requires l.tx.Ok() && l.rx.Ok() && |l.a.transcriptBuf| <= TRANSCRIPT_SIZE
    requires Fits(GipAuth.Step(input, env))
    ensures m.tx.Ok() && m.rx == l.rx
  {
    var r := Apply(c, l.a, GipAuth.Step(input, env.(accepts := l.line.Accepts())));
    if r.sent.Some? then
      var s := Send(l.tx, l.line, r.sent.value.data, r.sent.value.acknowledge);
      Link(s.t, s.line, l.rx, r.a)
    else l.(a := r.a)
  }

  /** The result the handshake was told is the result of sending its message. */
  lemma StepSeesTheEndpoint(c: Crypto, l: Link, input: Input, env: Env)
    requires LinkOk(c, l) && Fits(GipAuth.Step(input, env))
    ensures var r := Apply(c, l.a, GipAuth.Step(input, env.(accepts := l.line.Accepts())));
            && LinkOk(c, RunStep(c, l, input, env))
            && (r.sent.Some? ==> Send(l.tx, l.line, r.sent.value.data, r.sent.value.acknowledge).ok == l.line.Accepts())
  {
    var step := GipAuth.Step(input, env.(accepts := l.line.Accepts()));
    StepKeeps(c, l.a, step);
    MessageSizes(c, l.a, step);
    hide Apply, Contribution, Needed, Issued, Overwrite, FirstPacket, Consistent;
  }

  /** Packets of the interrupt endpoint. */
  predicate IsPacket(data: seq<byte>) {
    |data| <= ENDPOINT_SIZE && StaysInside(data)
  }

  /** A GIP acknowledgement of authentication traffic. */
  predicate AcksAuth(data: seq<byte>) {
    var d := DecodeHeader(data);
    d.Decoded? && d.header.command == CMD_ACKNOWLEDGE && d.length + 5 <= |data| && data[d.length + 1] == CMD_AUTHENTICATE
  }

  lemma MessageFits(r: Rx, data: seq<byte>)
    requires r.Ok() && IsPacket(data)
    ensures Receive(r, data).1.Some? ==> |Receive(r, data).1.value| <= MAX_RECORD
  {
  }

  function OnPacket(c: Crypto, l: Link, data: seq<byte>, env: Env): (m: Link)
    requires l.tx.Ok() && l.rx.Ok() && |l.a.transcriptBuf| <= TRANSCRIPT_SIZE && IsPacket(data)
  {
    var (rx, message) := Receive(l.rx, data);
    MessageFits(l.rx, data);
    if message.Some? then RunStep(c, l.(rx := rx), ProcessInput(message.value), env)
    else if AcksAuth(data) then
      var (tx, line) := Acknowledged(l.tx, l.line, DecodeHeader(data).header.sequence);
      RunStep(c, l.(tx := tx, line := line, rx := rx), CompleteInput, env)
    else l.(rx := rx)
  }

  datatype Event = Started(env: Env) | Packet(data: seq<byte>, env: Env)

  predicate PacketsOk(events: seq<Event>) {
    forall i | 0 <= i < |events| && events[i].Packet? :: IsPacket(events[i].data)
  }

  ghost function Handle(c: Crypto, l: Link, e: Event): (m: Link)
    requires LinkOk(c, l) && (e.Packet? ==> IsPacket(e.data))
    ensures LinkOk(c, m)
  {
    match e
    case Started(env) =>
      StepSeesTheEndpoint(c, l, StartInput, env);
      RunStep(c, l, StartInput, env)
    case Packet(data, env) =>
      HandleOk(c, l, data, env);
      OnPacket(c, l, data, env)
  }

  lemma HandleOk(c: Crypto, l: Link, data: seq<byte>, env: Env)
    requires LinkOk(c, l) && IsPacket(data)
    ensures LinkOk(c, OnPacket(c, l, data, env))
  {
    hide RunStep, Receive, Acknowledged, Consistent;
    var (rx, message) := Receive(l.rx, data);
    MessageFits(l.rx, data);
    if message.Some? {
      StepSeesTheEndpoint(c, l.(rx := rx), ProcessInput(message.value), env);
    } else if AcksAuth(data) {
      var (tx, line) := Acknowledged(l.tx, l.line, DecodeHeader(data).header.sequence);
      StepSeesTheEndpoint(c, l.(tx := tx, line := line, rx := rx), CompleteInput, env);
    }
  }

  ghost function HandleAll(c: Crypto, l: Link, events: seq<Event>): (m: Link)
    requires LinkOk(c, l) && PacketsOk(events)
    ensures LinkOk(c, m)
  {
    if events == [] then l
    else Handle(c, HandleAll(c, l, events[..|events| - 1]), events[|events| - 1])
  }

  // ----- sessions are runs of the handshake -------------------------------------------------

  /** The calls into the handshake that an event leads to: at most one. */
  ghost function StepsFor(c: Crypto, l: Link, e: Event): (steps: seq<GipAuth.Step>)
    requires LinkOk(c, l) && (e.Packet? ==> IsPacket(e.data))
    ensures |steps| <= 1
  {
    match e
    case Started(env) => [GipAuth.Step(StartInput, env.(accepts := l.line.Accepts()))]
    case Packet(data, env) =>
      var message := Receive(l.rx, data).1;
      if message.Some? then [GipAuth.Step(ProcessInput(message.value), env.(accepts := l.line.Accepts()))]
      else if AcksAuth(data) then
        var line := Acknowledged(l.tx, l.line, DecodeHeader(data).header.sequence).1;
        [GipAuth.Step(CompleteInput, env.(accepts := line.Accepts()))]
      else []
  }

  /** What the sender is asked to do: go on with its transfer, or send a message. */
  datatype Order = Continue(sequence: byte) | Deliver(message: Message)

  /** The orders to the sender that an event leads to: an acknowledgement first, and then the handshake's message if it has one. */
  ghost function OrdersFor(c: Crypto, l: Link, e: Event): seq<Order>
    requires LinkOk(c, l) && (e.Packet? ==> IsPacket(e.data))
  {
    var steps := StepsFor(c, l, e);
    StepsFit(c, l, e);
    (if e.Packet? && Receive(l.rx, e.data).1.None? && AcksAuth(e.data)
     then [Continue(DecodeHeader(e.data).header.sequence)] else []) +
    (if steps != [] && Apply(c, l.a, steps[0]).sent.Some? then [Deliver(Apply(c, l.a, steps[0]).sent.value)] else [])
  }

  lemma StepsFit(c: Crypto, l: Link, e: Event)
    requires LinkOk(c, l) && (e.Packet? ==> IsPacket(e.data))
    ensures RecordsFit(StepsFor(c, l, e)) && |l.a.transcriptBuf| <= TRANSCRIPT_SIZE
    ensures StepsFor(c, l, e) != [] ==> Fits(StepsFor(c, l, e)[0])
  {
    hide Receive, Acknowledged, AcksAuth;
    if e.Packet? {
      MessageFits(l.rx, e.data);
    }
  }

  /** The sender carrying out an order. */
  function CarryOut(tx: Tx, line: Line, order: Order): (r: (Tx, Line))
    requires tx.Ok()
    ensures r.0.Ok()
  {
    match order
    case Continue(sequence) => Acknowledged(tx, line, sequence)
    case Deliver(m) => var sent := Send(tx, line, m.data, m.acknowledge); (sent.t, sent.line)
  }

  function Carry(tx: Tx, line: Line, orders: seq<Order>): (r: (Tx, Line))
    requires tx.Ok()
    ensures r.0.Ok()
  {
    if orders == [] then (tx, line)
    else
      var (t, l) := Carry(tx, line, orders[..|orders| - 1]);
      CarryOut(t, l, orders[|orders| - 1])
  }

  lemma CarryOne(tx: Tx, line: Line, order: Order)
    requires tx.Ok()
    ensures Carry(tx, line, [order]) == CarryOut(tx, line, order)
  {
    hide CarryOut;
    assert [order][..0] == [];
    assert Carry(tx, line, []) == (tx, line);
  }

  lemma {:induction false} CarryMore(tx: Tx, line: Line, first: seq<Order>, rest: seq<Order>)
    requires tx.Ok()
    ensures var (t, l) := Carry(tx, line, first); Carry(tx, line, first + rest) == Carry(t, l, rest)
  {
    hide CarryOut;
    if rest == [] {
      assert first + rest == first;
    } else {
      assert (first + rest)[..|first + rest| - 1] == first + rest[..|rest| - 1];
      CarryMore(tx, line, first, rest[..|rest| - 1]);
    }
  }

  /** An event leaves the sender as its orders do, and the handshake as its call does. */
  lemma EventIsStep(c: Crypto, l: Link, e: Event)
    requires LinkOk(c, l) && (e.Packet? ==> IsPacket(e.data))
    ensures var steps, m := StepsFor(c, l, e), Handle(c, l, e);
            && RecordsFit(steps)
            && m.a == (if steps == [] then l.a else Apply(c, l.a, steps[0]).a)
            && (m.tx, m.line) == Carry(l.tx, l.line, OrdersFor(c, l, e))
  {
    hide Apply, Receive, Acknowledged, DecodeHeader, Send, Carry, Consistent;
    StepsFit(c, l, e);
    var steps := StepsFor(c, l, e);
    if steps == [] {
      assert OrdersFor(c, l, e) == [];
      CarryNothing(l.tx, l.line);
    } else {
      var sent := Apply(c, l.a, steps[0]).sent;
      var orders := if sent.Some? then [Deliver(sent.value)] else [];
      CarryNothing(l.tx, l.line);
      if e.Packet? && Receive(l.rx, e.data).1.None? && AcksAuth(e.data) {
        var sequence := DecodeHeader(e.data).header.sequence;
        CarryOne(l.tx, l.line, Continue(sequence));
        CarryMore(l.tx, l.line, [Continue(sequence)], orders);
        var (tx, line) := Acknowledged(l.tx, l.line, sequence);
        CarryNothing(tx, line);
        if sent.Some? {
          CarryOne(tx, line, Deliver(sent.value));
        }
      } else {
        assert [] + orders == orders;
        if sent.Some? {
          CarryOne(l.tx, l.line, Deliver(sent.value));
        }
      }
    }
  }

  lemma CarryNothing(tx: Tx, line: Line)
    requires tx.Ok()
    ensures Carry(tx, line, []) == (tx, line)
  {
  }

  /** The calls of a whole session, event by event. */
  ghost function SessionSteps(c: Crypto, l: Link, events: seq<Event>): seq<GipAuth.Step>
    requires LinkOk(c, l) && PacketsOk(events)
  {
    if events == [] then []
    else
      var init := events[..|events| - 1];
      SessionSteps(c, l, init) + StepsFor(c, HandleAll(c, l, init), events[|events| - 1])
  }

  /** The orders to the sender of a whole session. */
  ghost function SessionOrders(c: Crypto, l: Link, events: seq<Event>): seq<Order>
    requires LinkOk(c, l) && PacketsOk(events)
  {
    if events == [] then []
    else
      var init := events[..|events| - 1];
      SessionOrders(c, l, init) + OrdersFor(c, HandleAll(c, l, init), events[|events| - 1])
  }

  /** The messages handed to auth_send, in order. */
  function HandedOver(orders: seq<Order>): seq<Message> {
    if orders == [] then []
    else
      var last := orders[|orders| - 1];
      HandedOver(orders[..|orders| - 1]) + if last.Deliver? then [last.message] else []
  }

  lemma {:induction false} HandedOverMore(first: seq<Order>, rest: seq<Order>)
    ensures HandedOver(first + rest) == HandedOver(first) + HandedOver(rest)
  {
    if rest == [] {
      assert first + rest == first;
    } else {
      assert (first + rest)[..|first + rest| - 1] == first + rest[..|rest| - 1];
      HandedOverMore(first, rest[..|rest| - 1]);
    }
  }

  lemma OrdersHandOver(c: Crypto, l: Link, e: Event)
    requires LinkOk(c, l) && (e.Packet? ==> IsPacket(e.data))
    ensures RecordsFit(StepsFor(c, l, e))
    ensures HandedOver(OrdersFor(c, l, e)) ==
            var steps := StepsFor(c, l, e);
            if steps != [] && Apply(c, l.a, steps[0]).sent.Some? then [Apply(c, l.a, steps[0]).sent.value] else []
  {
    hide Apply, Receive, Acknowledged, AcksAuth, Send, Consistent;
    StepsFit(c, l, e);
    HandedOverOne(DecodeHeader(if e.Packet? then e.data else []));
    var steps := StepsFor(c, l, e);
    if steps != [] && Apply(c, l.a, steps[0]).sent.Some? {
      var order := Deliver(Apply(c, l.a, steps[0]).sent.value);
      assert [order][..0] == [];
      assert HandedOver([order]) == [order.message];
    }
    if e.Packet? && DecodeHeader(e.data).Decoded? {
      var first := [Continue(DecodeHeader(e.data).header.sequence)];
      HandedOverMore(first, if steps != [] && Apply(c, l.a, steps[0]).sent.Some? then [Deliver(Apply(c, l.a, steps[0]).sent.value)] else []);
    }
  }

  lemma HandedOverOne(d: Decoded)
    ensures HandedOver([]) == []
    ensures d.Decoded? ==> HandedOver([Continue(d.header.sequence)]) == []
  {
    if d.Decoded? {
      assert [Continue(d.header.sequence)][..0] == [];
    }
  }

  /** What came in: the packets of a session. */
  function PacketsOf(events: seq<Event>): (packets: seq<seq<byte>>)
    requires PacketsOk(events)
    ensures AllStayInside(packets)
  {
    if events == [] then []
    else
      var last := events[|events| - 1];
      PacketsOf(events[..|events| - 1]) + if last.Packet? then [last.data] else []
  }

  /** The records a list of calls processes. */
  function RecordsOf(steps: seq<GipAuth.Step>): seq<seq<byte>> {
    if steps == [] then []
    else
      var last := steps[|steps| - 1].input;
      RecordsOf(steps[..|steps| - 1]) + if last.ProcessInput? then [last.data] else []
  }

  lemma EventReceives(c: Crypto, l: Link, e: Event)
    requires LinkOk(c, l) && (e.Packet? ==> IsPacket(e.data))
    ensures Handle(c, l, e).rx == if e.Packet? then Receive(l.rx, e.data).0 else l.rx
    ensures RecordsOf(StepsFor(c, l, e)) ==
            if e.Packet? && Receive(l.rx, e.data).1.Some? then [Receive(l.rx, e.data).1.value] else []
  {
    hide Apply, Receive, Acknowledged, AcksAuth, Send, Consistent;
    var steps := StepsFor(c, l, e);
    if steps != [] {
      assert steps[..0] == [];
    }
  }

  /** The records processed are exactly what the reassembler makes of the packets, in order. */
  lemma {:induction false} SessionReassembles(c: Crypto, l: Link, events: seq<Event>)
    requires LinkOk(c, l) && PacketsOk(events)
    ensures (HandleAll(c, l, events).rx, RecordsOf(SessionSteps(c, l, events))) == Feed(l.rx, PacketsOf(events))
  {
    if events == [] {
      FeedNone(l.rx);
      hide LinkOk, Feed, Handle;
    } else {
      assert l.rx.Ok();
      hide *;
      var init, e := events[..|events| - 1], events[|events| - 1];
      SessionLast(c, l, events);
      SessionReassembles(c, l, init);
      var before := HandleAll(c, l, init);
      EventReceives(c, before, e);
      RecordsMore(SessionSteps(c, l, init), StepsFor(c, before, e));
      PacketsLast(events);
      var first := RecordsOf(SessionSteps(c, l, init));
      if e.Packet? {
        FeedMore(l.rx, PacketsOf(init), e.data);
      } else {
        assert first + [] == first;
      }
    }
  }

  lemma FeedNone(r: Rx)
    requires r.Ok()
    ensures Feed(r, []) == (r, [])
  {
  }

  lemma PacketsLast(events: seq<Event>)
    requires PacketsOk(events) && events != []
    ensures var init, e := events[..|events| - 1], events[|events| - 1];
            && PacketsOk(init) && PacketsOf(events) == (if e.Packet? then PacketsOf(init) + [e.data] else PacketsOf(init))
            && (e.Packet? ==> StaysInside(e.data))
  {
    hide StaysInside;
    var init := events[..|events| - 1];
    assert PacketsOf(init) + [] == PacketsOf(init);
  }

  lemma RecordsMore(first: seq<GipAuth.Step>, rest: seq<GipAuth.Step>)
    requires |rest| <= 1
    ensures RecordsOf(first + rest) == RecordsOf(first) + RecordsOf(rest)
  {
    if rest == [] {
      assert first + rest == first;
    } else {
      assert (first + rest)[..|first|] == first;
      assert rest[..0] == [];
    }
  }

  /**
   Whatever packets arrive and whichever writes fail, a session is a run of the
   handshake's state machine: its calls are those of the events, in order; the
   records it processes are what the reassembler makes of the packets; and the
   messages it sends, with the acknowledgements in between, are all that the
   sender is given. So what holds of all runs holds of every session.
   */
  lemma {:induction false} SessionIsRun(c: Crypto, random: Digest, l: Link, events: seq<Event>)
    requires LinkOk(c, l) && l.a == Initial(c, random) && PacketsOk(events)
    ensures var m, steps, orders := HandleAll(c, l, events), SessionSteps(c, l, events), SessionOrders(c, l, events);
            && RecordsFit(steps)
            && Run(c, random, steps).a == m.a
            && Messages(Run(c, random, steps).calls) == HandedOver(orders)
            && (m.tx, m.line) == Carry(l.tx, l.line, orders)
            && (m.rx, RecordsOf(steps)) == Feed(l.rx, PacketsOf(events))
  {
    SessionReassembles(c, l, events);
    if events == [] {
      hide LinkOk;
      assert Messages([]) == [];
    } else {
      hide *;
      var init, e := events[..|events| - 1], events[|events| - 1];
      SessionLast(c, l, events);
      SessionIsRun(c, random, l, init);
      var before := HandleAll(c, l, init);
      EventIsStep(c, before, e);
      OrdersHandOver(c, before, e);
      HandedOverMore(SessionOrders(c, l, init), OrdersFor(c, before, e));
      CarryMore(l.tx, l.line, SessionOrders(c, l, init), OrdersFor(c, before, e));
      var more, first := StepsFor(c, before, e), SessionSteps(c, l, init);
      if more == [] {
        assert first + more == first;
      } else {
        RunMore(c, random, first, more[0]);
        assert first + more == first + [more[0]];
      }
    }
  }

  lemma SessionLast(c: Crypto, l: Link, events: seq<Event>)
    requires LinkOk(c, l) && PacketsOk(events) && events != []
    ensures var init, e := events[..|events| - 1], events[|events| - 1];
            && PacketsOk(init) && (e.Packet? ==> IsPacket(e.data))
            && HandleAll(c, l, events) == Handle(c, HandleAll(c, l, init), e)
            && SessionSteps(c, l, events) == SessionSteps(c, l, init) + StepsFor(c, HandleAll(c, l, init), e)
            && SessionOrders(c, l, events) == SessionOrders(c, l, init) + OrdersFor(c, HandleAll(c, l, init), e)
  {
    hide Handle, StepsFor, OrdersFor, LinkOk;
  }

  // ----- completion ---------------------------------------------------------------------------

  /** An event completes authentication by a bare acknowledgement: the completion is handed over and accepted. */
  ghost predicate CompletesByAck(c: Crypto, l: Link, e: Event)
    requires LinkOk(c, l) && (e.Packet? ==> IsPacket(e.data))
  {
    var steps := StepsFor(c, l, e);
    StepsFit(c, l, e);
    steps != [] && CompletedByAck(CallOf(c, l.a, steps[0]))
  }

  lemma EventKeepsAuthentication(c: Crypto, l: Link, e: Event)
    requires LinkOk(c, l) && (e.Packet? ==> IsPacket(e.data))
    ensures l.a.authenticated || CompletesByAck(c, l, e) ==> Handle(c, l, e).a.authenticated
    ensures CompletesByAck(c, l, e) ==> !l.a.authenticated
  {
    EventIsStep(c, l, e);
    StepsFit(c, l, e);
    hide Handle, OrdersFor, Carry;
    var steps := StepsFor(c, l, e);
    if steps != [] {
      StepKeeps(c, l.a, steps[0]);
      if CompletesByAck(c, l, e) {
        OnlyUnauthenticatedComplete(c, l.a, steps[0]);
      }
      hide StepsFor;
    }
  }

  /** Before `i` events of a session. */
  ghost function LinkAt(c: Crypto, l: Link, events: seq<Event>, i: nat): (m: Link)
    requires LinkOk(c, l) && PacketsOk(events) && i <= |events|
    ensures LinkOk(c, m)
  {
    HandleAll(c, l, events[..i])
  }

  lemma LinkAfter(c: Crypto, l: Link, events: seq<Event>, i: nat)
    requires LinkOk(c, l) && PacketsOk(events) && i < |events|
    ensures LinkAt(c, l, events, i + 1) == Handle(c, LinkAt(c, l, events, i), events[i])
  {
    hide Handle, LinkOk;
    assert events[..i + 1][..i] == events[..i];
  }

  lemma {:induction false} StaysAuthenticated(c: Crypto, l: Link, events: seq<Event>, i: nat, j: nat)
    requires LinkOk(c, l) && PacketsOk(events) && i <= j <= |events| && LinkAt(c, l, events, i).a.authenticated
    ensures LinkAt(c, l, events, j).a.authenticated
    decreases j - i
  {
    if i < j {
      LinkAfter(c, l, events, i);
      EventKeepsAuthentication(c, LinkAt(c, l, events, i), events[i]);
      hide Handle, LinkAt, CompletesByAck;
      StaysAuthenticated(c, l, events, i + 1, j);
    }
  }

  /** The last commands handed to the sender are secret, finish and finish request. */
  ghost predicate FinishRequested(c: Crypto, l: Link, events: seq<Event>)
    requires LinkOk(c, l) && PacketsOk(events)
  {
    var cmds := IssuedIn(HandedOver(SessionOrders(c, l, events)));
    |cmds| >= 3 && cmds[|cmds| - 3..] == [0x05, 0x07, 0x08]
  }

  lemma CompletionFollowsFinish(c: Crypto, random: Digest, l: Link, events: seq<Event>, e: Event)
    requires LinkOk(c, l) && l.a == Initial(c, random) && PacketsOk(events) && (e.Packet? ==> IsPacket(e.data))
    ensures CompletesByAck(c, HandleAll(c, l, events), e) ==> FinishRequested(c, l, events)
  {
    SessionIsRun(c, random, l, events);
    var before, steps := HandleAll(c, l, events), SessionSteps(c, l, events);
    StepsFit(c, before, e);
    hide Apply, Run, Commands, Messages, HandedOver, HandleAll, StepsFor, SessionSteps, SessionOrders, Feed, Carry, IssuedIn;
    if CompletesByAck(c, before, e) {
      CompletedFirstTime(c, random, steps, StepsFor(c, before, e)[0]);
      CommandsOfMessages(Run(c, random, steps).calls);
    }
  }

  /** Event `i` of a session completes authentication by a bare acknowledgement. */
  ghost predicate CompletesAt(c: Crypto, l: Link, events: seq<Event>, i: nat)
    requires LinkOk(c, l) && PacketsOk(events) && i < |events|
  {
    CompletesByAck(c, LinkAt(c, l, events, i), events[i])
  }

  lemma NotBoth(c: Crypto, l: Link, events: seq<Event>, i: nat, j: nat)
    requires LinkOk(c, l) && PacketsOk(events) && i < j < |events|
    ensures !CompletesAt(c, l, events, i) || !CompletesAt(c, l, events, j)
  {
    hide CompletesByAck, Handle, LinkAt, LinkOk;
    EventKeepsAuthentication(c, LinkAt(c, l, events, i), events[i]);
    EventKeepsAuthentication(c, LinkAt(c, l, events, j), events[j]);
    LinkAfter(c, l, events, i);
    if CompletesAt(c, l, events, i) {
      StaysAuthenticated(c, l, events, i + 1, j);
    }
  }

  /**
   In a session, whatever arrives, completion by a bare acknowledgement succeeds
   at most once, and only when secret, finish and finish request were the last
   commands handed to the sender.
   */
  lemma SessionCompletesAtMostOnce(c: Crypto, random: Digest, l: Link, events: seq<Event>, j: nat)
    requires LinkOk(c, l) && l.a == Initial(c, random) && PacketsOk(events) && j < |events|
    ensures CompletesAt(c, l, events, j) ==>
              && (forall i | 0 <= i < j :: !CompletesAt(c, l, events, i))
              && FinishRequested(c, l, events[..j])
  {
    hide CompletesByAck, Handle, FinishRequested, LinkOk;
    if CompletesAt(c, l, events, j) {
      CompletionFollowsFinish(c, random, l, events[..j], events[j]);
      hide CompletesAt;
      forall i | 0 <= i < j ensures !CompletesAt(c, l, events, i) {
        NotBoth(c, l, events, i, j);
      }
    }
  }

  /** An acknowledgement packet that brings authentication about finds secret, finish and finish request handed over last. */
  lemma AckCompletesAfterFinish(c: Crypto, random: Digest, l: Link, events: seq<Event>, data: seq<byte>, env: Env)
    requires LinkOk(c, l) && l.a == Initial(c, random) && PacketsOk(events) && IsPacket(data)
    requires AcksAuth(data)
    requires var before := HandleAll(c, l, events); !before.a.authenticated && OnPacket(c, before, data, env).a.authenticated
    ensures FinishRequested(c, l, events)
  {
    var before := HandleAll(c, l, events);
    assert Receive(before.rx, data).1.None?;
    assert CompletesByAck(c, before, Packet(data, env)) by {
      hide Send, Acknowledged, HandleAll, Carry;
      EventIsStep(c, before, Packet(data, env));
    }
    CompletionFollowsFinish(c, random, l, events, Packet(data, env));
  }

  // ----- a hello in the middle of a transfer ------------------------------------------------

  /** Only a secret or a public key is ever sent in fragments. */
  ghost predicate TransfersKeys(tx: Tx) {
    tx.Ok() && (tx.len != 0 ==> tx.buf[3] in {0x05, 0x25})
  }

  lemma SendTransfersKeys(tx: Tx, line: Line, m: seq<byte>, acknowledge: bool)
    requires TransfersKeys(tx) && (|m| > PKT_MAX_LENGTH ==> m[3] in {0x05, 0x25})
    ensures TransfersKeys(Send(tx, line, m, acknowledge).t)
  {
    hide FirstPacket, Sequence.DrawNonzero;
  }

  lemma BurstOnce(tx: Tx, line: Line, sequence: byte)
    requires tx.Ok()
    ensures if tx.off >= tx.len then Burst(tx, line, sequence).0 == tx.(len := 0, terminatorPending := true)
            else if !line.Accepts() then Burst(tx, line, sequence).0 == tx
            else Burst(tx, line, sequence) ==
                 Burst(tx.(off := tx.off + ContinuationSize(tx)), line.Write(Continuation(tx, sequence)), sequence)
  {
    hide Continuation;
  }

  lemma {:induction false} BurstKeepsBuffer(tx: Tx, line: Line, sequence: byte)
    requires tx.Ok()
    ensures var t := Burst(tx, line, sequence).0; t.buf == tx.buf && (t.len == 0 || t.len == tx.len)
    decreases tx.len - tx.off
  {
    hide Continuation, Burst;
    BurstOnce(tx, line, sequence);
    if tx.off < tx.len && line.Accepts() {
      BurstKeepsBuffer(tx.(off := tx.off + ContinuationSize(tx)), line.Write(Continuation(tx, sequence)), sequence);
    }
  }

  lemma RunStepTransfersKeys(c: Crypto, l: Link, input: Input, env: Env)
    requires LinkOk(c, l) && Fits(GipAuth.Step(input, env)) && TransfersKeys(l.tx)
    ensures TransfersKeys(RunStep(c, l, input, env).tx)
  {
    hide Apply, Send, TransfersKeys;
    var step := GipAuth.Step(input, env.(accepts := l.line.Accepts()));
    MessageSizes(c, l.a, step);
    var sent := Apply(c, l.a, step).sent;
    if sent.Some? {
      SendTransfersKeys(l.tx, l.line, sent.value.data, sent.value.acknowledge);
    }
  }

  lemma HandleTransfersKeys(c: Crypto, l: Link, e: Event)
    requires LinkOk(c, l) && (e.Packet? ==> IsPacket(e.data)) && TransfersKeys(l.tx)
    ensures TransfersKeys(Handle(c, l, e).tx)
  {
    hide RunStep, Receive, Burst, Consistent, StaysInside;
    match e
    case Started(env) =>
      RunStepTransfersKeys(c, l, StartInput, env);
    case Packet(data, env) =>
      MessageFits(l.rx, data);
      var (rx, message) := Receive(l.rx, data);
      if message.Some? {
        RunStepTransfersKeys(c, l.(rx := rx), ProcessInput(message.value), env);
      } else if AcksAuth(data) {
        var sequence := DecodeHeader(data).header.sequence;
        BurstKeepsBuffer(l.tx, l.line, sequence);
        var (tx, line) := Acknowledged(l.tx, l.line, sequence);
        RunStepTransfersKeys(c, l.(tx := tx, line := line, rx := rx), CompleteInput, env);
      }
  }

  lemma {:induction false} SessionTransfersKeys(c: Crypto, l: Link, events: seq<Event>)
    requires LinkOk(c, l) && PacketsOk(events) && TransfersKeys(l.tx)
    ensures TransfersKeys(HandleAll(c, l, events).tx)
  {
    if events != [] {
      hide Handle, LinkOk, TransfersKeys;
      var init := events[..|events| - 1];
      SessionTransfersKeys(c, l, init);
      HandleTransfersKeys(c, HandleAll(c, l, init), events[|events| - 1]);
    }
  }

  function Hello(a: Auth): (h: seq<byte>)
    ensures |h| == PKT_MAX_LENGTH && h[3] == 0x01
  {
    FullPacket(0x01, HelloBody(a.randomHost))
  }

  /** The packet that carries a message of at most 58 bytes as it is. */
  function Plain(tx: Tx, m: seq<byte>): seq<byte>
    requires |m| <= PKT_MAX_LENGTH
  {
    HeaderBytes(AuthHeader(MessageOptions(true), Sequence.DrawNonzero(tx.counter).used, |m|, 0)) + m
  }

  /** What goes out at the start: the hello, or 58 bytes of an unfinished transfer in its place. */
  lemma StartSends(c: Crypto, l: Link, env: Env)
    requires LinkOk(c, l)
    ensures Handle(c, l, Started(env)).line
         == l.line.Write(Plain(l.tx, if l.tx.len != 0 then l.tx.buf[..PKT_MAX_LENGTH] else Hello(l.a)))
  {
    hide FullPacket, HostRecord, TranscriptUpdate, HeaderBytes, Sequence.DrawNonzero;
    var hello := Hello(l.a);
    assert Apply(c, l.a, GipAuth.Step(StartInput, env.(accepts := l.line.Accepts()))).sent == Some(Message(hello, true));
    assert FirstPacket(l.tx, hello, true, Sequence.DrawNonzero(l.tx.counter).used)
        == Plain(l.tx, if l.tx.len != 0 then l.tx.buf[..PKT_MAX_LENGTH] else hello);
  }

  lemma PlainDiffers(tx: Tx, m: seq<byte>, n: seq<byte>)
    requires |m| == |n| <= PKT_MAX_LENGTH
    ensures Plain(tx, m) == Plain(tx, n) <==> m == n
  {
    hide HeaderBytes, Sequence.DrawNonzero;
    var header := HeaderBytes(AuthHeader(MessageOptions(true), Sequence.DrawNonzero(tx.counter).used, |m|, 0));
    assert (header + m)[|header|..] == m && (header + n)[|header|..] == n;
  }

  /**
   In every session, however it got there, the hello goes out as it is if and
   only if no transfer is unfinished when it is sent.
   */
  lemma HelloUnchangedExactly(c: Crypto, l: Link, events: seq<Event>, env: Env)
    requires LinkOk(c, l) && l.tx.len == 0 && PacketsOk(events)
    ensures var before := HandleAll(c, l, events);
            Handle(c, before, Started(env)).line == before.line.Write(Plain(before.tx, Hello(before.a)))
            <==> before.tx.len == 0 || !before.line.Accepts()
  {
    SessionTransfersKeys(c, l, events);
    var before := HandleAll(c, l, events);
    hide HandleAll, Handle, Plain, Hello, LinkOk;
    StartSends(c, before, env);
    if before.tx.len != 0 {
      var other := before.tx.buf[..PKT_MAX_LENGTH];
      assert other[3] != Hello(before.a)[3];
      PlainDiffers(before.tx, other, Hello(before.a));
      if before.line.Accepts() {
        WritesDiffer(before.line, Plain(before.tx, other), Plain(before.tx, Hello(before.a)));
      }
    }
  }

  lemma WritesDiffer(line: Line, p: seq<byte>, q: seq<byte>)
    requires line.Accepts() && p != q
    ensures line.Write(p) != line.Write(q)
  {
    assert (line.sent + [p])[|line.sent|] == p && (line.sent + [q])[|line.sent|] == q;
  }

  /** Packets as events of a session. */
  function Arrivals(packets: seq<seq<byte>>, env: Env): (events: seq<Event>)
    ensures |events| == |packets|
    ensures forall i | 0 <= i < |packets| :: events[i] == Packet(packets[i], env)
  {
    seq(|packets|, i requires 0 <= i < |packets| => Packet(packets[i], env))
  }

  /** Authentication packets that complete no message change nothing but the reassembler. */
  lemma {:induction false} QuietArrivals(c: Crypto, l: Link, packets: seq<seq<byte>>, env: Env)
    requires LinkOk(c, l) && AllStayInside(packets) && PacketsOk(Arrivals(packets, env))
    requires forall i | 0 <= i < |packets| :: !AcksAuth(packets[i])
    requires Feed(l.rx, packets).1 == []
    ensures HandleAll(c, l, Arrivals(packets, env)) == l.(rx := Feed(l.rx, packets).0)
  {
    if packets != [] {
      var init, last := packets[..|packets| - 1], packets[|packets| - 1];
      assert Arrivals(packets, env)[..|packets| - 1] == Arrivals(init, env);
      hide RunStep, Receive, Acknowledged, StaysInside, AcksAuth, LinkOk;
      QuietArrivals(c, l, init, env);
      assert Arrivals(packets, env)[|packets| - 1] == Packet(last, env);
    }
  }

  lemma IdealArrives(msg: seq<byte>, acknowledge: bool, sequence: byte, env: Env)
    requires IsLong(msg)
    ensures AllStayInside(Ideal(msg, acknowledge, sequence)) && PacketsOk(Arrivals(Ideal(msg, acknowledge, sequence), env))
    ensures forall i | 0 <= i <= Pieces(msg) :: !AcksAuth(Ideal(msg, acknowledge, sequence)[i])
  {
    IdealStaysInside(msg, acknowledge, sequence);
    forall i | 0 <= i <= Pieces(msg)
      ensures !AcksAuth(Ideal(msg, acknowledge, sequence)[i]) && |Ideal(msg, acknowledge, sequence)[i]| <= ENDPOINT_SIZE
    {
      IdealPacketsFit(msg, acknowledge, sequence, i);
      IdealIsAuth(msg, acknowledge, sequence, i);
    }
    hide Ideal, StaysInside, AcksAuth, Pieces;
  }

  lemma IdealIsAuth(msg: seq<byte>, acknowledge: bool, sequence: byte, i: nat)
    requires IsLong(msg) && i <= Pieces(msg)
    ensures !AcksAuth(Ideal(msg, acknowledge, sequence)[i])
  {
    CutIsFragmentation(msg);
    TransferDecodes(CMD_AUTHENTICATE, Cut(msg), CutAcks(msg, acknowledge), sequence, i);
    hide DecodeHeader, TransferPacket, Cut, CutAcks, IsFragmentation, Payload;
  }

  /** A certificate that arrives in fragments is answered with the secret, whose first 58 bytes stand in the transfer buffer. */
  lemma CertificateArrives(c: Crypto, l: Link, d: seq<byte>, enc: seq<byte>, acknowledge: bool, sequence: byte, env: Env)
    requires LinkOk(c, l) && Usable(c, d, enc, env) && IsLong(d)
    ensures PacketsOk(Arrivals(Ideal(d, acknowledge, sequence), env))
    ensures var m := HandleAll(c, l, Arrivals(Ideal(d, acknowledge, sequence), env));
            && m.tx.len == 274 && m.tx.buf[..PKT_MAX_LENGTH] == FullPacket(0x05, enc)[..PKT_MAX_LENGTH]
            && m.a.started == l.a.started && m.a.randomHost == l.a.randomHost
            && m.line.accept == l.line.accept && m.line.attempts == l.line.attempts + 1
  {
    hide *;
    IdealArrives(d, acknowledge, sequence, env);
    var packets, n := Ideal(d, acknowledge, sequence), Pieces(d);
    ArrivalsLast(c, l, packets, env);
    QuietUntilEnd(c, l, d, acknowledge, sequence, env);
    CertificateCompletes(c, HandleAll(c, l, Arrivals(packets[..n], env)), packets[n], d, enc, env);
  }

  /** Until the terminator a transfer only fills the reassembler; the terminator completes it. */
  lemma QuietUntilEnd(c: Crypto, l: Link, msg: seq<byte>, acknowledge: bool, sequence: byte, env: Env)
    requires LinkOk(c, l) && IsLong(msg)
    ensures var packets, n := Ideal(msg, acknowledge, sequence), Pieces(msg);
            && |packets| - 1 == n && PacketsOk(Arrivals(packets[..n], env)) && StaysInside(packets[n])
            && var m := HandleAll(c, l, Arrivals(packets[..n], env));
               m == l.(rx := m.rx) && Receive(m.rx, packets[n]).1 == Some(msg)
  {
    assert l.rx.Ok();
    IdealArrives(msg, acknowledge, sequence, env);
    hide Ideal, Pieces, HandleAll, Feed, IsLong, LinkOk, IsPacket, StaysInside, Receive, AcksAuth;
    IdealCompletes(l.rx, msg, acknowledge, sequence);
    IdealPrefixDelivers(l.rx, msg, acknowledge, sequence, Pieces(msg));
    var packets, n := Ideal(msg, acknowledge, sequence), Pieces(msg);
    assert Arrivals(packets, env)[..n] == Arrivals(packets[..n], env);
    QuietArrivals(c, l, packets[..n], env);
  }

  lemma ArrivalsLast(c: Crypto, l: Link, packets: seq<seq<byte>>, env: Env)
    requires LinkOk(c, l) && PacketsOk(Arrivals(packets, env)) && packets != []
    ensures var init, last := packets[..|packets| - 1], packets[|packets| - 1];
            && PacketsOk(Arrivals(init, env)) && IsPacket(last)
            && HandleAll(c, l, Arrivals(packets, env)) == Handle(c, HandleAll(c, l, Arrivals(init, env)), Packet(last, env))
  {
    hide Handle, LinkOk, IsPacket;
    var n := |packets| - 1;
    assert Arrivals(packets, env)[..n] == Arrivals(packets[..n], env);
    assert Arrivals(packets, env)[n] == Packet(packets[n], env);
  }

  lemma CertificateCompletes(c: Crypto, l: Link, data: seq<byte>, d: seq<byte>, enc: seq<byte>, env: Env)
    requires LinkOk(c, l) && Usable(c, d, enc, env) && IsPacket(data) && Receive(l.rx, data).1 == Some(d)
    ensures var m := Handle(c, l, Packet(data, env));
            && m.tx.len == 274 && m.tx.buf[..PKT_MAX_LENGTH] == FullPacket(0x05, enc)[..PKT_MAX_LENGTH]
            && m.a.started == l.a.started && m.a.randomHost == l.a.randomHost
            && m.line.accept == l.line.accept && m.line.attempts == l.line.attempts + 1
  {
    CertificateAlwaysAnswered(c, l.a, d, enc, env.(accepts := l.line.Accepts()));
    hide Process, Receive, FullPacket, Send, Usable, StaysInside;
    LongSent(l.tx, l.line, FullPacket(0x05, enc), true);
  }

  lemma LongSent(tx: Tx, line: Line, m: seq<byte>, acknowledge: bool)
    requires tx.Ok() && IsLong(m)
    ensures var r := Send(tx, line, m, acknowledge);
            && r.t.len == |m| && r.t.buf[..PKT_MAX_LENGTH] == m[..PKT_MAX_LENGTH]
            && r.line.accept == line.accept && r.line.attempts == line.attempts + 1
  {
    hide FirstPacket, Sequence.DrawNonzero;
  }

  /**
   How it comes to that: a certificate record before the first hello. The host
   answers it with its secret, the handshake not being started, and the start
   then sends the first 58 bytes of the secret as its hello.
   */
  lemma HelloReplaced(c: Crypto, l: Link, d: seq<byte>, enc: seq<byte>, acknowledge: bool, sequence: byte, env: Env)
    requires LinkOk(c, l) && l.tx.len == 0 && !l.a.started && Usable(c, d, enc, env) && IsLong(d)
    requires l.line.accept(l.line.attempts + 1)
    ensures PacketsOk(Arrivals(Ideal(d, acknowledge, sequence), env))
    ensures var before := HandleAll(c, l, Arrivals(Ideal(d, acknowledge, sequence), env));
            var after := Handle(c, before, Started(env));
            && !before.a.started
            && after.line == before.line.Write(Plain(before.tx, FullPacket(0x05, enc)[..PKT_MAX_LENGTH]))
            && after.line != before.line.Write(Plain(before.tx, Hello(before.a)))
  {
    CertificateArrives(c, l, d, enc, acknowledge, sequence, env);
    hide HandleAll, Handle, Ideal, Plain, Hello, LinkOk, FullPacket, Usable, IsLong;
    var events := Arrivals(Ideal(d, acknowledge, sequence), env);
    StartSends(c, HandleAll(c, l, events), env);
    HelloUnchangedExactly(c, l, events, env);
  }

  /** There are such certificates. */
  lemma UsableCertificate(env: Env) returns (c: Crypto, d: seq<byte>, enc: seq<byte>)
    requires env.allocates
    ensures Usable(c, d, enc, env) && IsLong(d)
  {
    enc := Zeros(256);
    c := Crypto(_ => Zeros(32), (_, _) => Zeros(32), (_, _) => Some(Zeros(256)), _ => None, (_, _) => None);
    d := [0, 0, 0, 3, 0, 0, 3, 0, 1, 14] + RSA_KEY_PREFIX + Zeros(266);
    assert Body(d)[0..4] == RSA_KEY_PREFIX;
    assert KeyAt(Body(d), 0);
  }

  /** A session as it begins, with an endpoint that accepts everything. */
  function Fresh(c: Crypto, random: Digest): Link {
    Link(Tx(Zeros(BUF_SIZE), 0, 0, 0, false, 0, 1), Line(_ => true, 0, []), Rx(Zeros(BUF_SIZE), 0, 0), Initial(c, random))
  }

  /** A session from its very beginning in which the hello is replaced. */
  lemma HelloCanBeReplaced(random: Digest, env: Env) returns (c: Crypto, events: seq<Event>)
    requires env.allocates
    ensures LinkOk(c, Fresh(c, random)) && PacketsOk(events) && forall i | 0 <= i < |events| :: events[i].Packet?
    ensures var before := HandleAll(c, Fresh(c, random), events);
            && !before.a.started && before.line.Accepts()
            && Handle(c, before, Started(env)).line != before.line.Write(Plain(before.tx, Hello(before.a)))
  {
    var d, enc;
    c, d, enc := UsableCertificate(env);
    var l := Fresh(c, random);
    assert LinkOk(c, l);
    hide HandleAll, Handle, Ideal, Plain, Hello, LinkOk, FullPacket, Usable, IsLong, PacketsOk;
    events := Arrivals(Ideal(d, true, 1), env);
    CertificateArrives(c, l, d, enc, true, 1, env);
    HelloReplaced(c, l, d, enc, true, 1, env);
  }

  // ----- the bridge's objects together ------------------------------------------------------

  class Session {
    const sender: Sender
    const reassembler: Reassembler
    const auth: GipAuthState

    ghost predicate Valid()
      reads this, sender, sender.outBuf, reassembler, reassembler.inBuf, auth, auth.transcriptBuf
    {
      && sender.Valid() && reassembler.Valid() && auth.Valid()
      && sender.outBuf != reassembler.inBuf && sender.outBuf != auth.transcriptBuf && reassembler.inBuf != auth.transcriptBuf
    }

    ghost function View(): Link
      requires Valid()
      reads this, sender, sender.outBuf, reassembler, reassembler.inBuf, auth, auth.transcriptBuf
    {
      Link(sender.View(), sender.Wire(), reassembler.View(), auth.View())
    }

    constructor (c: Crypto, random: Digest, accept: nat -> bool)
      ensures Valid() && fresh(sender) && fresh(reassembler) && fresh(auth)
      ensures auth.crypto == c && View().a == Initial(c, random) && View().line == Line(accept, 0, [])
    {
      sender := new Sender(accept);
      reassembler := new Reassembler();
      auth := new GipAuthState(c, random);
    }

    /** The handshake's send callback. */
    method Forward(sent: Option<Message>, ghost accepts: bool)
      requires Valid() && (sent.Some? ==> |sent.value.data| <= BUF_SIZE && accepts == sender.Wire().Accepts())
      modifies sender, sender.outBuf
      ensures Valid() && reassembler.View() == old(reassembler.View()) && auth.View() == old(auth.View())
      ensures if sent.Some? then
                var s := old(Send(sender.View(), sender.Wire(), sent.value.data, sent.value.acknowledge));
                sender.View() == s.t && sender.Wire() == s.line && s.ok == accepts
              else sender.View() == old(sender.View()) && sender.Wire() == old(sender.Wire())
    {
      if sent.Some? {
        var ok := sender.AuthSend(sent.value.data, sent.value.acknowledge);
      }
    }

    method Begin(env: Env)
      requires Valid()
      modifies sender, sender.outBuf, auth, auth.transcriptBuf
      ensures Valid() && View() == RunStep(auth.crypto, old(View()), StartInput, env)
    {
      ghost var l := View();
      var told := env.(accepts := sender.accept(sender.attempts));
      MessageSizes(auth.crypto, auth.View(), GipAuth.Step(StartInput, told));
      var sent, ok := auth.StartHandshake(told);
      Forward(sent, told.accepts);
    }

    /** Hand a reassembled record to the handshake. */
    method ProcessMessage(record: seq<byte>, env: Env)
      requires Valid() && |record| <= MAX_RECORD
      modifies sender, sender.outBuf, auth, auth.transcriptBuf
      ensures Valid() && View() == RunStep(auth.crypto, old(View()), ProcessInput(record), env)
    {
      hide Process, Send;
      var told := env.(accepts := sender.accept(sender.attempts));
      MessageSizes(auth.crypto, auth.View(), GipAuth.Step(ProcessInput(record), told));
      var sent, ok := auth.ProcessRecord(record, told);
      Forward(sent, told.accepts);
    }

    /** Complete without a client finish, if one has been asked for. */
    method CompleteIfAsked(env: Env)
      requires Valid()
      modifies sender, sender.outBuf, auth, auth.transcriptBuf
      ensures Valid() && View() == RunStep(auth.crypto, old(View()), CompleteInput, env)
    {
      hide Send;
      if auth.lastCmd == 0x08 && !auth.authenticated {
        var told := env.(accepts := sender.accept(sender.attempts));
        var sent, ok := auth.CompleteOnAck(told);
        Forward(sent, told.accepts);
      }
    }

    /** The AUTHENTICATE and ACKNOWLEDGE branches of on_rx. */
    method OnRx(data: seq<byte>, env: Env)
      requires Valid() && IsPacket(data)
      modifies sender, sender.outBuf, reassembler, reassembler.inBuf, auth, auth.transcriptBuf
      ensures Valid() && View() == OnPacket(auth.crypto, old(View()), data, env)
    {
      hide RunStep, Acknowledged, Receive, DecodeHeader, Consistent;
      MessageFits(reassembler.View(), data);
      var message, ack := reassembler.OnRx(data);
      if message.Some? {
        ProcessMessage(message.value, env);
        return;
      }
      var d := DecodeHeaderBytes(data);
      if d.Decoded? && d.header.command == CMD_ACKNOWLEDGE && d.length + 5 <= |data| && data[d.length + 1] == CMD_AUTHENTICATE {
        sender.AuthSendNextChunk(d.header.sequence);
        CompleteIfAsked(env);
      }
    }
  }
}
