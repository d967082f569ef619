/**
 A transfer with other messages in between. A short message sent while a
 transfer is unfinished sets the transfer's offset back, so that fragments are
 sent again; the message still arrives, once.
 */
module Interruptions {
  import opened Basics
  import opened Gip
  import opened AuthTransport
  import Sequence

  /** What the sender is called for after a long message: an acknowledgement, or a message of one packet. */
  datatype Call = Acked(sequence: byte) | Short(m: seq<byte>, acknowledge: bool)

  predicate AllShort(calls: seq<Call>) {
    forall i | 0 <= i < |calls| && calls[i].Short? :: |calls[i].m| <= PKT_MAX_LENGTH
  }

  function Answer(t: Tx, line: Line, call: Call): (r: (Tx, Line))
    requires t.Ok()
    ensures r.0.Ok()
  {
    match call
    case Acked(sequence) => Acknowledged(t, line, sequence)
    case Short(m, acknowledge) => var s := Send(t, line, m, acknowledge); (s.t, s.line)
  }

  function Drive(t: Tx, line: Line, calls: seq<Call>): (r: (Tx, Line))
    requires t.Ok()
    ensures r.0.Ok()
  {
    if calls == [] then (t, line)
    else
      var (t1, line1) := Drive(t, line, calls[..|calls| - 1]);
      Answer(t1, line1, calls[|calls| - 1])
  }

  /** The payload of a short message: 58 bytes of it are taken from an unfinished transfer. */
  function ShortPayload(t: Tx, m: seq<byte>): seq<byte>
    requires t.Ok()
  {
    if |m| == PKT_MAX_LENGTH && t.len != 0 then t.buf[..PKT_MAX_LENGTH] else m
  }

  /** The call sends the terminator, and it is accepted. */
  predicate Finishes(t: Tx, line: Line, call: Call) {
    call.Acked? && t.len == 0 && t.terminatorPending && line.Accepts()
  }

  /** What a call ought to deliver: the long message with the terminator, a short one at once. */
  function Due(t: Tx, line: Line, msg: seq<byte>, call: Call): seq<seq<byte>>
    requires t.Ok()
  {
    match call
    case Acked(_) => if Finishes(t, line, call) then [msg] else []
    case Short(m, _) => if line.Accepts() && ShortPayload(t, m) != [] then [ShortPayload(t, m)] else []
  }

  function AllDue(t: Tx, line: Line, msg: seq<byte>, calls: seq<Call>): seq<seq<byte>>
    requires t.Ok()
  {
    if calls == [] then []
    else
      var init := calls[..|calls| - 1];
      var (t1, line1) := Drive(t, line, init);
      AllDue(t, line, msg, init) + Due(t1, line1, msg, calls[|calls| - 1])
  }

  /** How often the terminator went out. */
  function TimesFinished(t: Tx, line: Line, calls: seq<Call>): nat
    requires t.Ok()
  {
    if calls == [] then 0
    else
      var init := calls[..|calls| - 1];
      var (t1, line1) := Drive(t, line, init);
      TimesFinished(t, line, init) + if Finishes(t1, line1, calls[|calls| - 1]) then 1 else 0
  }

  // ----- sender and receiver in step ------------------------------------------------------

  /** The sender still has `msg` in its buffer. */
  ghost predicate Holds(t: Tx, msg: seq<byte>) {
    t.Ok() && IsLong(msg) && t.buf[..|msg|] == msg && t.total == |msg|
  }

  /** The receiver has the first fragment of `msg`, and `n` bytes of it or more. */
  ghost predicate Covers(r: Rx, msg: seq<byte>, n: nat) {
    r.Ok() && r.total == |msg| && Max(n, PKT_MAX_LENGTH) <= r.len <= |msg| && r.buf[..r.len] == msg[..r.len]
  }

  /** Inside a burst. */
  ghost predicate Bursting(t: Tx, r: Rx, msg: seq<byte>) {
    Holds(t, msg) && t.len == |msg| && t.off <= |msg| && !t.terminatorPending && Covers(r, msg, t.off)
  }

  /** Between calls: the receiver has all that lies before the sender's offset, and everything once a terminator is due. */
  ghost predicate InStep(t: Tx, r: Rx, msg: seq<byte>) {
    && Holds(t, msg) && r.Ok()
    && (if t.len != 0 then Bursting(t, r, msg) && t.off < |msg|
        else t.terminatorPending ==> Covers(r, msg, |msg|))
  }

  /** The receiver, given what was accepted, has delivered `due`. */
  ghost predicate Delivered(rx: Rx, line: Line, r: Rx, due: seq<seq<byte>>) {
    rx.Ok() && AllStayInside(line.sent) && Feed(rx, line.sent) == (r, due)
  }

  lemma DeliveredMore(rx: Rx, line: Line, packet: seq<byte>, r: Rx, due: seq<seq<byte>>)
    requires Delivered(rx, line, r, due) && r.Ok() && StaysInside(packet)
    ensures var (r1, m) := Receive(r, packet);
            if line.Accepts() then Delivered(rx, line.Write(packet), r1, due + if m.Some? then [m.value] else [])
            else Delivered(rx, line.Write(packet), r, due)
  {
    hide Receive, StaysInside;
    FeedMore(rx, line.sent, packet);
  }

  lemma CoversMore(r: Rx, msg: seq<byte>, from: nat, to: nat)
    requires IsLong(msg) && from <= to <= |msg| && Covers(r, msg, from)
    ensures Covers(Rx(Overwrite(r.buf, from, msg[from..to]), Max(r.len, to), r.total), msg, to)
  {
    var buf, len := Overwrite(r.buf, from, msg[from..to]), Max(r.len, to);
    forall k | 0 <= k < len ensures buf[k] == msg[k] {
      if k < r.len {
        assert r.buf[..r.len][k] == msg[..r.len][k];
      }
    }
    assert buf[..len] == msg[..len];
  }

  /** A continuation, wherever it starts, tells the receiver nothing new but what lies beyond. */
  lemma ContinuationReceived(t: Tx, r: Rx, msg: seq<byte>, any: byte)
    requires Bursting(t, r, msg) && t.off < |msg|
    ensures var packet, t1 := Continuation(t, any), t.(off := t.off + ContinuationSize(t));
            && StaysInside(packet)
            && Receive(r, packet).1.None? && Bursting(t1, Receive(r, packet).0, msg)
  {
    var n := ContinuationSize(t);
    var h := AuthHeader(ChunkOptions(false, t.off + n == t.len), ContinuationSeq(t, any), n, t.off);
    var p := t.buf[t.off..t.off + n];
    HeaderRoundTrip(h, p);
    SliceOfPrefix(t.buf, msg, t.off, t.off + n);
    CoversMore(r, msg, t.off, t.off + n);
    hide HeaderBytes, DecodeHeader, HasOption, ChunkOptions, Overwrite;
    assert (HeaderBytes(h) + p)[|HeaderBytes(h)|..] == p;
  }

  lemma TerminatorReceived(t: Tx, r: Rx, msg: seq<byte>, any: byte)
    requires Holds(t, msg) && Covers(r, msg, |msg|)
    ensures var packet := Terminator(t, any);
            && StaysInside(packet)
            && Receive(r, packet) == (Rx(r.buf, 0, 0), Some(msg))
  {
    var h := AuthHeader(ChunkOptions(false, false), ContinuationSeq(t, any), 0, t.total);
    HeaderRoundTrip(h, []);
    hide HeaderBytes, DecodeHeader, HasOption, ChunkOptions, Overwrite;
    assert HeaderBytes(h) + [] == HeaderBytes(h);
    assert HeaderBytes(h)[|HeaderBytes(h)|..] == [];
    OverwriteNothing(r.buf, |msg|);
    assert msg[..|msg|] == msg;
  }

  lemma ShortReceived(t: Tx, r: Rx, m: seq<byte>, acknowledge: bool, sequence: byte)
    requires t.Ok() && r.Ok() && |m| <= PKT_MAX_LENGTH
    ensures var packet, p := FirstPacket(t, m, acknowledge, sequence), ShortPayload(t, m);
            && StaysInside(packet)
            && Receive(r, packet) == (r, if p != [] then Some(p) else None)
  {
    var h, p := AuthHeader(MessageOptions(acknowledge), sequence, |m|, 0), ShortPayload(t, m);
    HeaderRoundTrip(h, p);
    assert FirstPacket(t, m, acknowledge, sequence) == HeaderBytes(h) + p;
    hide HeaderBytes, DecodeHeader, FirstPacket;
    assert (HeaderBytes(h) + p)[|HeaderBytes(h)|..] == p;
  }

  lemma {:induction false} BurstInStep(rx: Rx, t: Tx, line: Line, r: Rx, due: seq<seq<byte>>, msg: seq<byte>, any: byte)
    returns (r': Rx)
    requires Bursting(t, r, msg) && Delivered(rx, line, r, due)
    ensures var (t', line') := Burst(t, line, any); InStep(t', r', msg) && Delivered(rx, line', r', due)
    decreases |msg| - t.off
  {
    hide Continuation, Receive, Delivered, StaysInside;
    if t.off == |msg| {
      r' := r;
    } else {
      ContinuationReceived(t, r, msg, any);
      var packet := Continuation(t, any);
      DeliveredMore(rx, line, packet, r, due);
      if line.Accepts() {
        assert due + [] == due;
        r' := BurstInStep(rx, t.(off := t.off + ContinuationSize(t)), line.Write(packet), Receive(r, packet).0, due, msg, any);
      } else {
        r' := r;
      }
    }
  }

  /** One call, whatever it is and whether or not its packets are accepted. */
  lemma AnswerInStep(rx: Rx, t: Tx, line: Line, r: Rx, due: seq<seq<byte>>, msg: seq<byte>, call: Call) returns (r': Rx)
    requires InStep(t, r, msg) && Delivered(rx, line, r, due)
    requires call.Short? ==> |call.m| <= PKT_MAX_LENGTH
    ensures var (t', line') := Answer(t, line, call);
            InStep(t', r', msg) && Delivered(rx, line', r', due + Due(t, line, msg, call))
  {
    hide Delivered, Receive, StaysInside, Burst, Terminator, FirstPacket, Sequence.DrawNonzero;
    assert due + [] == due;
    r' := r;
    match call
    case Acked(sequence) =>
      if t.len != 0 {
        r' := BurstInStep(rx, t, line, r, due, msg, sequence);
      } else if t.terminatorPending {
        TerminatorReceived(t, r, msg, sequence);
        DeliveredMore(rx, line, Terminator(t, sequence), r, due);
        r' := if line.Accepts() then Rx(r.buf, 0, 0) else r;
      }
    case Short(m, acknowledge) =>
      var sequence := Sequence.DrawNonzero(t.counter).used;
      ShortReceived(t, r, m, acknowledge, sequence);
      DeliveredMore(rx, line, FirstPacket(t, m, acknowledge, sequence), r, due);
  }

  lemma {:induction false} DriveInStep(rx: Rx, t: Tx, line: Line, r: Rx, due: seq<seq<byte>>, msg: seq<byte>, calls: seq<Call>)
    returns (r': Rx)
    requires InStep(t, r, msg) && Delivered(rx, line, r, due) && AllShort(calls)
    ensures var (t', line') := Drive(t, line, calls);
            InStep(t', r', msg) && Delivered(rx, line', r', due + AllDue(t, line, msg, calls))
  {
    assert t.Ok();
    hide Delivered, InStep, Answer, Due;
    if calls == [] {
      assert due + [] == due;
      r' := r;
    } else {
      var init, last := calls[..|calls| - 1], calls[|calls| - 1];
      var middle := DriveInStep(rx, t, line, r, due, msg, init);
      var (t1, line1) := Drive(t, line, init);
      r' := AnswerInStep(rx, t1, line1, middle, due + AllDue(t, line, msg, init), msg, last);
      Associate(due, AllDue(t, line, msg, init), Due(t1, line1, msg, last));
    }
  }

  lemma Associate<T>(a: seq<T>, b: seq<T>, c: seq<T>)
    ensures (a + b) + c == a + (b + c)
  {
  }

  // ----- exactly once ---------------------------------------------------------------------

  /** The transfer is over. */
  predicate Over(t: Tx) {
    t.len == 0 && !t.terminatorPending
  }

  lemma BurstNotOver(t: Tx, line: Line, any: byte)
    requires t.Ok() && t.len != 0
    ensures !Over(Burst(t, line, any).0)
    decreases t.len - t.off
  {
    hide Continuation;
    if t.off < t.len && line.Accepts() {
      BurstNotOver(t.(off := t.off + ContinuationSize(t)), line.Write(Continuation(t, any)), any);
    }
  }

  /** Only the terminator ends a transfer, and an ended one stays ended. */
  lemma AnswerEnds(t: Tx, line: Line, call: Call)
    requires t.Ok() && (call.Short? ==> |call.m| <= PKT_MAX_LENGTH)
    ensures Over(Answer(t, line, call).0) <==> Over(t) || Finishes(t, line, call)
  {
    hide Burst, Terminator, FirstPacket, Sequence.DrawNonzero;
    if call.Acked? && t.len != 0 && t.off < t.len {
      BurstNotOver(t, line, call.sequence);
    }
  }

  lemma {:induction false} FinishesOnce(t: Tx, line: Line, calls: seq<Call>)
    requires t.Ok() && !Over(t) && AllShort(calls)
    ensures TimesFinished(t, line, calls) == if Over(Drive(t, line, calls).0) then 1 else 0
  {
    if calls != [] {
      hide Answer;
      var init, last := calls[..|calls| - 1], calls[|calls| - 1];
      FinishesOnce(t, line, init);
      var (t1, line1) := Drive(t, line, init);
      AnswerEnds(t1, line1, last);
    }
  }

  /** The first fragment brings sender and receiver in step. */
  lemma FirstInStep(t: Tx, line: Line, msg: seq<byte>, acknowledge: bool, rx: Rx) returns (r: Rx)
    requires t.Ok() && IsLong(msg) && line.Accepts() && line.sent == [] && rx.Ok()
    ensures var s := Send(t, line, msg, acknowledge);
            InStep(s.t, r, msg) && Delivered(rx, s.line, r, []) && !Over(s.t)
  {
    var sequence := Sequence.DrawNonzero(t.counter).used;
    SendReaches(t, line, msg, acknowledge);
    FirstReceived(rx, msg, acknowledge, sequence);
    var s := Send(t, line, msg, acknowledge);
    hide Send, Ideal, Feed, Sequence.DrawNonzero;
    var packets := Ideal(msg, acknowledge, sequence)[..1];
    assert s.line.sent == packets;
    r := Feed(rx, packets).0;
    PieceBounds(msg, 1);
  }

  lemma FirstReceived(rx: Rx, msg: seq<byte>, acknowledge: bool, sequence: byte)
    requires IsLong(msg) && rx.Ok()
    ensures var packets := Ideal(msg, acknowledge, sequence)[..1];
            && AllStayInside(packets)
            && Feed(rx, packets).1 == [] && Covers(Feed(rx, packets).0, msg, PKT_MAX_LENGTH)
  {
    CutIsFragmentation(msg);
    NoneEmptyComplete(Cut(msg));
    FeedTransfer(rx, Cut(msg), CutAcks(msg, acknowledge), sequence, 1);
    PrefixStaysInside(Ideal(msg, acknowledge, sequence), 1);
    FlattenCut(msg, 1);
    hide Feed, AllStayInside, Cut, CutAcks, Transfer, Flatten, Pieces;
  }

  /**
   Once the first fragment of a long message is accepted, whatever
   acknowledgements and short messages follow, and whichever writes are refused,
   a receiver in any state delivers exactly the short messages that were
   accepted and, with the terminator, the long message: once if the transfer
   got to its end, and not at all otherwise.
   */
  lemma InterruptedDelivery(t: Tx, line: Line, msg: seq<byte>, acknowledge: bool, calls: seq<Call>, rx: Rx)
    requires t.Ok() && IsLong(msg) && line.Accepts() && line.sent == [] && rx.Ok() && AllShort(calls)
    ensures var s := Send(t, line, msg, acknowledge);
            var (t', line') := Drive(s.t, s.line, calls);
            && AllStayInside(line'.sent)
            && Feed(rx, line'.sent).1 == AllDue(s.t, s.line, msg, calls)
            && TimesFinished(s.t, s.line, calls) == if Over(t') then 1 else 0
  {
    hide Send, Drive, Feed, AllDue, TimesFinished, InStep, Over, AllStayInside;
    var s := Send(t, line, msg, acknowledge);
    var r := FirstInStep(t, line, msg, acknowledge, rx);
    var r' := DriveInStep(rx, s.t, s.line, r, [], msg, calls);
    assert [] + AllDue(s.t, s.line, msg, calls) == AllDue(s.t, s.line, msg, calls);
    FinishesOnce(s.t, s.line, calls);
  }

  // ----- and it does end ------------------------------------------------------------------

  ghost predicate AcceptsAll(line: Line) {
    forall k :: line.accept(k)
  }

  lemma {:induction false} BurstEndsIt(t: Tx, line: Line, any: byte)
    requires t.Ok() && AcceptsAll(line)
    ensures var (t', line') := Burst(t, line, any); t'.len == 0 && t'.terminatorPending && AcceptsAll(line')
    decreases t.len - t.off
  {
    hide Continuation;
    if t.off < t.len {
      BurstEndsIt(t.(off := t.off + ContinuationSize(t)), line.Write(Continuation(t, any)), any);
    }
  }

  lemma {:induction false} DriveAccepts(t: Tx, line: Line, calls: seq<Call>)
    requires t.Ok()
    ensures Drive(t, line, calls).1.accept == line.accept
  {
    if calls != [] {
      var init := calls[..|calls| - 1];
      DriveAccepts(t, line, init);
      var (t1, line1) := Drive(t, line, init);
      if calls[|calls| - 1].Acked? {
        BurstAccepts(t1, line1, calls[|calls| - 1].sequence);
      }
      hide Burst, FirstPacket, Terminator, Sequence.DrawNonzero;
    }
  }

  lemma {:induction false} BurstAccepts(t: Tx, line: Line, any: byte)
    requires t.Ok()
    ensures Burst(t, line, any).1.accept == line.accept
    decreases t.len - t.off
  {
    hide Continuation;
    if t.off < t.len && line.Accepts() {
      BurstAccepts(t.(off := t.off + ContinuationSize(t)), line.Write(Continuation(t, any)), any);
    }
  }

  lemma DriveTwo(t: Tx, line: Line, calls: seq<Call>, a: Call, b: Call)
    requires t.Ok()
    ensures var (t1, line1) := Drive(t, line, calls); var (t2, line2) := Answer(t1, line1, a);
            Drive(t, line, calls + [a, b]) == Answer(t2, line2, b)
  {
    hide Answer;
    var all := calls + [a, b];
    assert all[..|all| - 1] == calls + [a] && (calls + [a])[..|calls|] == calls;
  }

  /** If nothing is refused any more, two acknowledgements finish the transfer, whatever came in between. */
  lemma InterruptedEnds(t: Tx, line: Line, msg: seq<byte>, acknowledge: bool, calls: seq<Call>, a: byte, b: byte)
    requires t.Ok() && IsLong(msg) && line.sent == [] && AllShort(calls) && AcceptsAll(line)
    ensures var s := Send(t, line, msg, acknowledge);
            Over(Drive(s.t, s.line, calls + [Acked(a), Acked(b)]).0)
  {
    var s := Send(t, line, msg, acknowledge);
    assert AcceptsAll(s.line) by {
      hide FirstPacket, Sequence.DrawNonzero;
    }
    var rx := Rx(Zeros(BUF_SIZE), 0, 0);
    hide Send, Drive, Delivered, Burst, Terminator;
    var r := FirstInStep(t, line, msg, acknowledge, rx);
    r := DriveInStep(rx, s.t, s.line, r, [], msg, calls);
    DriveTwo(s.t, s.line, calls, Acked(a), Acked(b));
    DriveAccepts(s.t, s.line, calls);
    var (t1, line1) := Drive(s.t, s.line, calls);
    BurstEndsIt(t1, line1, a);
    assert line1.Accepts() && line1.Write([]).Accepts();
  }
}
