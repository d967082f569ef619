/**
 Authentication messages on the wire: the fragmenting sender driven by
 acknowledgements and write failures, and the reassembler on the other side.
 */
module AuthTransport {
  import opened Basics
  import opened Gip
  import Sequence

  const BUF_SIZE: nat := 4096
  const ENDPOINT_SIZE: nat := 64

  // ----- transfers ------------------------------------------------------------------

  /** A message cut into fragments, empty ones allowed, that fits the receive buffer. */
  predicate IsFragmentation(frags: seq<seq<byte>>) {
    frags != [] && |Flatten(frags)| <= BUF_SIZE
  }

  function ChunkOptions(start: bool, acknowledge: bool): (o: byte)
    ensures HasOption(o, OPT_CHUNK) && HasOption(o, OPT_INTERNAL)
    ensures HasOption(o, OPT_CHUNK_START) == start
    ensures HasOption(o, OPT_ACKNOWLEDGE) == acknowledge
  {
    OPT_INTERNAL + OPT_CHUNK + (if start then OPT_CHUNK_START else 0) + (if acknowledge then OPT_ACKNOWLEDGE else 0)
  }

  lemma {:induction false} PrefixFits(frags: seq<seq<byte>>, i: nat)
    requires i <= |frags|
    ensures Flatten(frags[..i]) <= Flatten(frags)
  {
    if i == |frags| {
      assert frags[..i] == frags;
    } else {
      var init := frags[..|frags| - 1];
      PrefixFits(init, i);
      assert init[..i] == frags[..i];
    }
  }

  /** The first packet, at or after packet `i`, before which the whole message has been sent. */
  function CompleteFrom(frags: seq<seq<byte>>, i: nat): (e: nat)
    requires i <= |frags|
    ensures i <= e <= |frags| && Flatten(frags[..e]) == Flatten(frags)
    ensures forall k | i <= k < e :: |Flatten(frags[..k])| < |Flatten(frags)|
    decreases |frags| - i
  {
    PrefixFits(frags, i);
    if |Flatten(frags[..i])| == |Flatten(frags)| then i
    else
      assert frags[..|frags|] == frags;
      CompleteFrom(frags, i + 1)
  }

  function FirstComplete(frags: seq<seq<byte>>): (e: nat)
    ensures e <= |frags| && Flatten(frags[..e]) == Flatten(frags)
    ensures forall k | 0 <= k < e :: |Flatten(frags[..k])| < |Flatten(frags)|
  {
    CompleteFrom(frags, 0)
  }

  /** From the first complete packet on there is nothing to carry. */
  lemma NothingMore(frags: seq<seq<byte>>, i: nat)
    requires FirstComplete(frags) <= i <= |frags|
    ensures |Flatten(frags[..i])| == |Flatten(frags)|
    ensures i < |frags| ==> frags[i] == []
  {
    hide Flatten, CompleteFrom;
    PrefixOfPrefix(frags, FirstComplete(frags), i);
    PrefixFits(frags, i);
    if i < |frags| {
      FlattenPrefix(frags, i);
      PrefixFits(frags, i + 1);
    }
  }

  lemma PrefixOfPrefix(frags: seq<seq<byte>>, i: nat, j: nat)
    requires i <= j <= |frags|
    ensures Flatten(frags[..i]) <= Flatten(frags[..j])
  {
    PrefixFits(frags[..j], i);
    assert frags[..j][..i] == frags[..i];
  }

  predicate NoneEmpty(frags: seq<seq<byte>>) {
    forall i | 0 <= i < |frags| :: frags[i] != []
  }

  /** Where no fragment is empty, only the terminator comes after the whole message. */
  lemma NoneEmptyComplete(frags: seq<seq<byte>>)
    requires NoneEmpty(frags)
    ensures FirstComplete(frags) == |frags|
  {
    NothingMore(frags, FirstComplete(frags));
  }

  /**
   Header of packet `i` of a chunked transfer. The first packet announces the
   total length in its offset field, later ones give their position, and an
   empty packet at the total length closes the transfer.
   */
  function TransferHeader(command: byte, frags: seq<seq<byte>>, acks: seq<bool>, sequence: byte, i: nat): (h: Header)
    requires IsFragmentation(frags) && |acks| == |frags| + 1 && i <= |frags|
    ensures Encodable(h) && IsChunk(h)
  {
    PrefixFits(frags, i);
    Header(command, ChunkOptions(i == 0, acks[i]), sequence, |Payload(frags, i)|,
           if i == 0 then |Flatten(frags)| else |Flatten(frags[..i])|)
  }

  function Payload(frags: seq<seq<byte>>, i: nat): (p: seq<byte>)
    requires IsFragmentation(frags) && i <= |frags|
    ensures |p| <= BUF_SIZE
  {
    if i == |frags| then []
    else
      PrefixFits(frags, i + 1); FlattenPrefix(frags, i);
      frags[i]
  }

  function TransferPacket(command: byte, frags: seq<seq<byte>>, acks: seq<bool>, sequence: byte, i: nat): seq<byte>
    requires IsFragmentation(frags) && |acks| == |frags| + 1 && i <= |frags|
  {
    HeaderBytes(TransferHeader(command, frags, acks, sequence, i)) + Payload(frags, i)
  }

  function Transfer(command: byte, frags: seq<seq<byte>>, acks: seq<bool>, sequence: byte): (packets: seq<seq<byte>>)
    requires IsFragmentation(frags) && |acks| == |frags| + 1
    ensures |packets| == |frags| + 1
  {
    seq(|frags| + 1, i requires 0 <= i <= |frags| => TransferPacket(command, frags, acks, sequence, i))
  }

  // ----- receiving ------------------------------------------------------------------

  datatype Rx = Rx(buf: seq<byte>, len: nat, total: nat) {
    predicate Ok() { |buf| == BUF_SIZE && len <= BUF_SIZE }
  }

  /** 32-bit arithmetic of the receive path. */
  function Wrap32(x: int): (w: nat)
    ensures w < 0x1_0000_0000
    ensures 0 <= x < 0x1_0000_0000 ==> w == x
  {
    x % 0x1_0000_0000
  }

  /** Where a chunk's data goes; a start packet uses its offset field for the total. */
  function DataOffset(h: Header): nat {
    if HasOption(h.options, OPT_CHUNK_START) then 0 else h.chunkOffset
  }

  /**
   The receive path stays inside the packet. A header that runs past its packet
   makes the payload length wrap; that is harmless only in packets that are not
   looked into, and in chunks too large for the buffer to be copied.
   */
  predicate StaysInside(data: seq<byte>) {
    var d := DecodeHeader(data);
    d.Decoded? && d.header.command == CMD_AUTHENTICATE && d.length > |data| ==>
      IsChunk(d.header) && Wrap32(DataOffset(d.header) + Wrap32(|data| - d.length)) > BUF_SIZE
  }

  predicate AllStayInside(packets: seq<seq<byte>>) {
    forall i | 0 <= i < |packets| :: StaysInside(packets[i])
  }

  /** A start packet opens a transfer. */
  function Opened(r: Rx, h: Header): Rx {
    if HasOption(h.options, OPT_CHUNK_START) then Rx(r.buf, 0, h.chunkOffset) else r
  }

  /** What one AUTHENTICATE packet does to the reassembler, and the message it completes. */
  function Receive(r: Rx, data: seq<byte>): (out: (Rx, Option<seq<byte>>))
    requires r.Ok() && StaysInside(data)
    ensures out.0.Ok()
  {
    match DecodeHeader(data)
    case TooShort => (r, None)
    case Decoded(h, n) =>
      if h.command != CMD_AUTHENTICATE then (r, None)
      else if n > |data| then (Opened(r, h), None)
      else if IsChunk(h) then ReceiveChunk(r, h, data[n..])
      else (r, if data[n..] != [] then Some(data[n..]) else None)
  }

  function ReceiveChunk(r: Rx, h: Header, p: seq<byte>): (out: (Rx, Option<seq<byte>>))
    requires r.Ok()
    ensures out.0.Ok()
  {
    var offset, r1 := DataOffset(h), Opened(r, h);
    var r2 := if offset + |p| <= BUF_SIZE
              then Rx(Overwrite(r1.buf, offset, p), Max(r1.len, offset + |p|), r1.total)
              else r1;
    if p == [] && r2.total != 0 && offset == r2.total && r2.len == r2.total then
      (Rx(r2.buf, 0, 0), Some(r2.buf[..r2.total]))
    else
      (r2, None)
  }

  /** Packets in order, collecting the messages they complete. */
  function Feed(r: Rx, packets: seq<seq<byte>>): (out: (Rx, seq<seq<byte>>))
    requires r.Ok() && AllStayInside(packets)
    ensures out.0.Ok()
  {
    if packets == [] then (r, [])
    else
      var last := |packets| - 1;
      var (r1, messages) := Feed(r, packets[..last]);
      var (r2, m) := Receive(r1, packets[last]);
      (r2, messages + if m.Some? then [m.value] else [])
  }

  /** After `i` fragments the buffer starts with exactly those, and nothing has been delivered. */
  ghost predicate Reassembled(r: Rx, frags: seq<seq<byte>>, i: nat)
    requires i <= |frags|
  {
    && r.Ok()
    && r.total == |Flatten(frags)|
    && r.len == |Flatten(frags[..i])|
    && r.buf[..r.len] == Flatten(frags[..i])
  }

  lemma TransferDecodes(command: byte, frags: seq<seq<byte>>, acks: seq<bool>, sequence: byte, i: nat)
    requires IsFragmentation(frags) && |acks| == |frags| + 1 && i <= |frags|
    ensures var data := TransferPacket(command, frags, acks, sequence, i);
            && StaysInside(data)
            && DecodeHeader(data).Decoded?
            && DecodeHeader(data).header == TransferHeader(command, frags, acks, sequence, i)
            && DecodeHeader(data).length <= |data|
            && data[DecodeHeader(data).length..] == Payload(frags, i)
  {
    var h := TransferHeader(command, frags, acks, sequence, i);
    HeaderRoundTrip(h, Payload(frags, i));
  }

  lemma ReceiveTransferPacket(r: Rx, frags: seq<seq<byte>>, acks: seq<bool>, sequence: byte, i: nat)
    requires IsFragmentation(frags) && |acks| == |frags| + 1 && i <= |frags| && r.Ok()
    ensures var data := TransferPacket(CMD_AUTHENTICATE, frags, acks, sequence, i);
            && StaysInside(data)
            && Receive(r, data) == ReceiveChunk(r, TransferHeader(CMD_AUTHENTICATE, frags, acks, sequence, i), Payload(frags, i))
  {
    TransferDecodes(CMD_AUTHENTICATE, frags, acks, sequence, i);
    hide TransferPacket, DecodeHeader, ReceiveChunk, Payload, TransferHeader, Opened, Wrap32, IsFragmentation;
  }

  lemma ReceiveFragment(r: Rx, frags: seq<seq<byte>>, acks: seq<bool>, sequence: byte, i: nat)
    requires IsFragmentation(frags) && |acks| == |frags| + 1 && i < FirstComplete(frags)
    requires r.Ok() && (i > 0 ==> Reassembled(r, frags, i))
    ensures var data := TransferPacket(CMD_AUTHENTICATE, frags, acks, sequence, i);
            && StaysInside(data)
            && Reassembled(Receive(r, data).0, frags, i + 1) && Receive(r, data).1.None?
  {
    hide TransferPacket, StaysInside, Receive, Flatten;
    ReceiveTransferPacket(r, frags, acks, sequence, i);
    FlattenPrefix(frags, i);
    PrefixFits(frags, i + 1);
    FlattenNone(frags);
    var h := TransferHeader(CMD_AUTHENTICATE, frags, acks, sequence, i);
    var offset := |Flatten(frags[..i])|;
    var after := ReceiveChunk(r, h, frags[i]).0;
    assert after.buf[..offset] == r.buf[..offset];
    assert after.buf[..offset + |frags[i]|] == after.buf[..offset] + frags[i];
  }

  lemma FlattenNone(frags: seq<seq<byte>>)
    ensures Flatten(frags[..0]) == []
  {
  }

  /** The first packet after the whole message, a terminator or an empty fragment, delivers it. */
  lemma ReceiveCompletes(r: Rx, frags: seq<seq<byte>>, acks: seq<bool>, sequence: byte)
    requires IsFragmentation(frags) && |acks| == |frags| + 1 && FirstComplete(frags) > 0
    requires Reassembled(r, frags, FirstComplete(frags))
    ensures var data := TransferPacket(CMD_AUTHENTICATE, frags, acks, sequence, FirstComplete(frags));
            && StaysInside(data)
            && Receive(r, data) == (Rx(r.buf, 0, 0), Some(Flatten(frags)))
  {
    hide TransferPacket, StaysInside, Receive, Flatten;
    var e := FirstComplete(frags);
    ReceiveTransferPacket(r, frags, acks, sequence, e);
    NothingMore(frags, e);
    assert |Flatten(frags[..0])| < |Flatten(frags)|;
    assert Overwrite(r.buf, r.total, []) == r.buf;
  }

  /** A reassembler without an open transfer waits for a start packet, and an empty transfer opens none. */
  lemma ReceiveIdle(r: Rx, frags: seq<seq<byte>>, acks: seq<bool>, sequence: byte, i: nat)
    requires IsFragmentation(frags) && |acks| == |frags| + 1 && i <= |frags|
    requires r.Ok() && if i == 0 then Flatten(frags) == [] else r.total == 0
    ensures var data := TransferPacket(CMD_AUTHENTICATE, frags, acks, sequence, i);
            && StaysInside(data)
            && Receive(r, data).0.total == 0 && Receive(r, data).1.None?
  {
    hide TransferPacket, StaysInside, Receive, Flatten;
    ReceiveTransferPacket(r, frags, acks, sequence, i);
  }

  lemma TransferStaysInside(command: byte, frags: seq<seq<byte>>, acks: seq<bool>, sequence: byte)
    requires IsFragmentation(frags) && |acks| == |frags| + 1
    ensures AllStayInside(Transfer(command, frags, acks, sequence))
  {
    forall i | 0 <= i <= |frags| ensures StaysInside(Transfer(command, frags, acks, sequence)[i]) {
      TransferDecodes(command, frags, acks, sequence, i);
    }
  }

  lemma FeedOneMore(r: Rx, packets: seq<seq<byte>>, k: nat)
    requires r.Ok() && AllStayInside(packets) && k < |packets|
    ensures AllStayInside(packets[..k]) && AllStayInside(packets[..k + 1])
    ensures var before := Feed(r, packets[..k]);
            var (r', m) := Receive(before.0, packets[k]);
            Feed(r, packets[..k + 1]) == (r', before.1 + if m.Some? then [m.value] else [])
  {
    assert packets[..k + 1][..k] == packets[..k];
  }

  lemma TransferAt(command: byte, frags: seq<seq<byte>>, acks: seq<bool>, sequence: byte, i: nat)
    requires IsFragmentation(frags) && |acks| == |frags| + 1 && i <= |frags|
    ensures Transfer(command, frags, acks, sequence)[i] == TransferPacket(command, frags, acks, sequence, i)
  {
  }

  lemma FeedMore(r: Rx, packets: seq<seq<byte>>, data: seq<byte>)
    requires r.Ok() && AllStayInside(packets) && StaysInside(data)
    ensures AllStayInside(packets + [data])
    ensures var (r1, messages) := Feed(r, packets); var (r2, m) := Receive(r1, data);
            Feed(r, packets + [data]) == (r2, messages + if m.Some? then [m.value] else [])
  {
    hide Receive, StaysInside;
    assert (packets + [data])[..|packets|] == packets;
  }

  /** What has been delivered, and the state, after `k` packets of a transfer. */
  ghost predicate FedSoFar(out: (Rx, seq<seq<byte>>), frags: seq<seq<byte>>, k: nat)
    requires k <= |frags| + 1
  {
    if k <= FirstComplete(frags) then
      out.1 == [] && (k > 0 ==> Reassembled(out.0, frags, k))
    else
      out.1 == (if Flatten(frags) == [] then [] else [Flatten(frags)]) && out.0.total == 0
  }

  lemma FeedNothing(r: Rx, packets: seq<seq<byte>>, frags: seq<seq<byte>>)
    requires r.Ok() && AllStayInside(packets)
    ensures FedSoFar(Feed(r, packets[..0]), frags, 0)
  {
    hide Receive;
  }

  lemma {:induction false} FeedTransfer(r: Rx, frags: seq<seq<byte>>, acks: seq<bool>, sequence: byte, k: nat)
    requires IsFragmentation(frags) && |acks| == |frags| + 1 && k <= |frags| + 1 && r.Ok()
    ensures var packets := Transfer(CMD_AUTHENTICATE, frags, acks, sequence);
            AllStayInside(packets) && FedSoFar(Feed(r, packets[..k]), frags, k)
  {
    hide *;
    TransferStaysInside(CMD_AUTHENTICATE, frags, acks, sequence);
    var packets := Transfer(CMD_AUTHENTICATE, frags, acks, sequence);
    if k == 0 {
      FeedNothing(r, packets, frags);
    } else {
      TransferAt(CMD_AUTHENTICATE, frags, acks, sequence, k - 1);
      FeedOneMore(r, packets, k - 1);
      FeedTransfer(r, frags, acks, sequence, k - 1);
      FedOneMore(Feed(r, packets[..k - 1]), frags, acks, sequence, k - 1);
    }
  }

  /** One more packet, whatever it finds. */
  lemma FedOneMore(before: (Rx, seq<seq<byte>>), frags: seq<seq<byte>>, acks: seq<bool>, sequence: byte, i: nat)
    requires IsFragmentation(frags) && |acks| == |frags| + 1 && i <= |frags|
    requires before.0.Ok() && FedSoFar(before, frags, i)
    ensures var data := TransferPacket(CMD_AUTHENTICATE, frags, acks, sequence, i);
            && StaysInside(data)
            && var (r, m) := Receive(before.0, data);
               FedSoFar((r, before.1 + if m.Some? then [m.value] else []), frags, i + 1)
  {
    hide TransferPacket, StaysInside, Receive, Reassembled, Flatten;
    var e := FirstComplete(frags);
    if i < e {
      ReceiveFragment(before.0, frags, acks, sequence, i);
    } else if i == e > 0 {
      FlattenNone(frags);
      ReceiveCompletes(before.0, frags, acks, sequence);
    } else {
      FlattenNone(frags);
      ReceiveIdle(before.0, frags, acks, sequence, i);
    }
  }

  /**
   Any transfer, however it is cut up and whatever state the reassembler was
   left in, delivers exactly its message, once, at the first packet after the
   whole message has been sent: the terminator, unless an empty fragment stands
   before it there. An empty message is never delivered.
   */
  lemma TransferDelivers(r: Rx, frags: seq<seq<byte>>, acks: seq<bool>, sequence: byte, k: nat)
    requires IsFragmentation(frags) && |acks| == |frags| + 1 && k <= |frags| + 1 && r.Ok()
    ensures var packets, e := Transfer(CMD_AUTHENTICATE, frags, acks, sequence), FirstComplete(frags);
            && AllStayInside(packets)
            && Feed(r, packets[..k]).1 == (if k > e && Flatten(frags) != [] then [Flatten(frags)] else [])
            && (k > e ==> Feed(r, packets[..k]).0.total == 0)
    ensures NoneEmpty(frags) ==> FirstComplete(frags) == |frags|
  {
    FeedTransfer(r, frags, acks, sequence, k);
    if NoneEmpty(frags) {
      NoneEmptyComplete(frags);
    }
  }

  /** The length the bridge acknowledges for a packet that asks for it. */
  function BridgeAck(h: Header): Option<nat> {
    if HasOption(h.options, OPT_ACKNOWLEDGE) then
      Some((if HasOption(h.options, OPT_CHUNK_START) then h.packetLength else h.chunkOffset + h.packetLength) % 0x1_0000)
    else None
  }

  lemma HeaderAcknowledged(frags: seq<seq<byte>>, acks: seq<bool>, sequence: byte, i: nat)
    requires IsFragmentation(frags) && |acks| == |frags| + 1 && i < |frags| && acks[i]
    ensures BridgeAck(TransferHeader(CMD_AUTHENTICATE, frags, acks, sequence, i)) == Some(|Flatten(frags[..i + 1])|)
  {
    hide Flatten, HasOption, ChunkOptions;
    FlattenPrefix(frags, i);
    PrefixFits(frags, i + 1);
    FlattenNone(frags);
  }

  /** Every acknowledgement reports how much of the message has arrived without a gap. */
  lemma AckReportsProgress(r: Rx, frags: seq<seq<byte>>, acks: seq<bool>, sequence: byte, i: nat)
    requires IsFragmentation(frags) && |acks| == |frags| + 1 && i < FirstComplete(frags) && acks[i]
    requires r.Ok() && (i > 0 ==> Reassembled(r, frags, i))
    ensures var data := TransferPacket(CMD_AUTHENTICATE, frags, acks, sequence, i);
            && StaysInside(data)
            && BridgeAck(DecodeHeader(data).header) == Some(|Flatten(frags[..i + 1])|)
            && Receive(r, data).0.len == |Flatten(frags[..i + 1])|
  {
    ReceiveFragment(r, frags, acks, sequence, i);
    TransferDecodes(CMD_AUTHENTICATE, frags, acks, sequence, i);
    HeaderAcknowledged(frags, acks, sequence, i);
    hide TransferPacket, Receive, StaysInside, DecodeHeader, ReceiveChunk, BridgeAck, IsFragmentation, Flatten, FirstComplete;
  }

  // ----- sending --------------------------------------------------------------------

  /** The sender's message in progress: what is left of it, and the counter for the next message. */
  datatype Tx = Tx(
    buf: seq<byte>, len: nat, off: nat, total: nat,
    terminatorPending: bool, outSeq: byte, counter: byte)
  {
    predicate Ok() { |buf| == BUF_SIZE && len <= BUF_SIZE && total <= BUF_SIZE }
  }

  /** The interrupt endpoint: whether write attempt `k` is accepted, attempts so far, packets accepted so far. */
  datatype Line = Line(accept: nat -> bool, attempts: nat, sent: seq<seq<byte>>) {
    predicate Accepts() { accept(attempts) }

    function Write(packet: seq<byte>): Line {
      Line(accept, attempts + 1, if Accepts() then sent + [packet] else sent)
    }
  }

  function AuthHeader(options: byte, sequence: byte, length: uint32, offset: uint32): Header {
    Header(CMD_AUTHENTICATE, options, sequence, length, offset)
  }

  function MessageOptions(acknowledge: bool): byte {
    OPT_INTERNAL + if acknowledge then OPT_ACKNOWLEDGE else 0
  }

  /** The packet for a message of at most 58 bytes, or for the first 58 bytes of a longer one. */
  function FirstPacket(t: Tx, msg: seq<byte>, acknowledge: bool, sequence: byte): seq<byte>
    requires t.Ok() && |msg| <= BUF_SIZE
  {
    if |msg| > PKT_MAX_LENGTH then
      HeaderBytes(AuthHeader(ChunkOptions(true, acknowledge), sequence, PKT_MAX_LENGTH, |msg|)) + msg[..PKT_MAX_LENGTH]
    else
      // A message of exactly 58 bytes is taken from the transfer buffer while a transfer is unfinished.
      HeaderBytes(AuthHeader(MessageOptions(acknowledge), sequence, |msg|, 0)) +
      if |msg| == PKT_MAX_LENGTH && t.len != 0 then t.buf[..PKT_MAX_LENGTH] else msg
  }

  datatype Sent = Sent(t: Tx, line: Line, ok: bool)

  function Send(t: Tx, line: Line, msg: seq<byte>, acknowledge: bool): (r: Sent)
    requires t.Ok()
    ensures r.t.Ok()
  {
    var draw := Sequence.DrawNonzero(t.counter);
    if |msg| > BUF_SIZE then
      Sent(t.(counter := draw.counter), line, false)
    else
      var first := FirstPacket(t, msg, acknowledge, draw.used);
      var t' :=
        if |msg| > PKT_MAX_LENGTH then
          Tx(Overwrite(t.buf, 0, msg), |msg|, PKT_MAX_LENGTH, |msg|, false, draw.used, draw.counter)
        else
          t.(counter := draw.counter, off := if t.len != 0 then |msg| else t.off);
      Sent(t', line.Write(first), line.Accepts())
  }

  function ContinuationSize(t: Tx): nat
    requires t.off < t.len
  {
    Min(t.len - t.off, PKT_MAX_LENGTH)
  }

  /** The sequence number of a continuation: that of its first fragment, if it has one. */
  function ContinuationSeq(t: Tx, sequence: byte): byte {
    if t.outSeq != 0 then t.outSeq else sequence
  }

  function Continuation(t: Tx, sequence: byte): seq<byte>
    requires t.Ok() && t.off < t.len
  {
    var n := ContinuationSize(t);
    HeaderBytes(AuthHeader(ChunkOptions(false, t.off + n == t.len), ContinuationSeq(t, sequence), n, t.off)) +
    t.buf[t.off..t.off + n]
  }

  function Terminator(t: Tx, sequence: byte): seq<byte>
    requires t.Ok()
  {
    HeaderBytes(AuthHeader(ChunkOptions(false, false), ContinuationSeq(t, sequence), 0, t.total))
  }

  /** Send fragments back to back until one is refused or the message is out. */
  function Burst(t: Tx, line: Line, sequence: byte): (r: (Tx, Line))
    requires t.Ok()
    ensures r.0.Ok()
    decreases t.len - t.off
  {
    if t.off >= t.len then (t.(len := 0, terminatorPending := true), line)
    else if line.Accepts() then
      Burst(t.(off := t.off + ContinuationSize(t)), line.Write(Continuation(t, sequence)), sequence)
    else
      (t, line.Write(Continuation(t, sequence)))
  }

  /** What an acknowledgement sets off. */
  function Acknowledged(t: Tx, line: Line, sequence: byte): (r: (Tx, Line))
    requires t.Ok()
    ensures r.0.Ok()
  {
    if t.len == 0 || t.off >= t.len then
      if t.terminatorPending then
        (if line.Accepts() then t.(terminatorPending := false) else t, line.Write(Terminator(t, sequence)))
      else
        (t, line)
    else
      Burst(t, line, sequence)
  }

  /** One acknowledgement after another, each with whatever sequence number it carried. */
  function AllAcknowledged(t: Tx, line: Line, sequences: seq<byte>): (r: (Tx, Line))
    requires t.Ok()
    ensures r.0.Ok()
  {
    if sequences == [] then (t, line)
    else
      var last := |sequences| - 1;
      var before := AllAcknowledged(t, line, sequences[..last]);
      Acknowledged(before.0, before.1, sequences[last])
  }

  // ----- the ideal transfer of a message ---------------------------------------------

  predicate IsLong(msg: seq<byte>) {
    PKT_MAX_LENGTH < |msg| <= BUF_SIZE
  }

  function PieceEnd(msg: seq<byte>, i: nat): nat {
    Min(PKT_MAX_LENGTH * i, |msg|)
  }

  function Pieces(msg: seq<byte>): (n: nat)
    ensures IsLong(msg) ==> n >= 2
  {
    (|msg| + PKT_MAX_LENGTH - 1) / PKT_MAX_LENGTH
  }

  /** A message in pieces of 58 bytes, the last one shorter. */
  function Cut(msg: seq<byte>): (frags: seq<seq<byte>>)
    ensures |frags| == Pieces(msg)
  {
    seq(Pieces(msg), i requires 0 <= i < Pieces(msg) => msg[PieceEnd(msg, i)..PieceEnd(msg, i + 1)])
  }

  /** Where the pieces lie. */
  lemma PieceBounds(msg: seq<byte>, i: nat)
    requires IsLong(msg)
    ensures PieceEnd(msg, i) <= PieceEnd(msg, i + 1) <= |msg|
    ensures i < Pieces(msg) ==> PieceEnd(msg, i) < |msg|
    ensures i < Pieces(msg) ==> PieceEnd(msg, i + 1) == PieceEnd(msg, i) + Min(|msg| - PieceEnd(msg, i), PKT_MAX_LENGTH)
    ensures i < Pieces(msg) ==> (PieceEnd(msg, i + 1) == |msg| <==> i == Pieces(msg) - 1)
    ensures i >= Pieces(msg) ==> PieceEnd(msg, i) == |msg|
  {
  }

  lemma CutAt(msg: seq<byte>, i: nat)
    requires i < Pieces(msg)
    ensures PieceEnd(msg, i) <= PieceEnd(msg, i + 1) && Cut(msg)[i] == msg[PieceEnd(msg, i)..PieceEnd(msg, i + 1)]
  {
  }

  lemma {:induction false} FlattenCut(msg: seq<byte>, i: nat)
    requires i <= Pieces(msg)
    ensures Flatten(Cut(msg)[..i]) == msg[..PieceEnd(msg, i)]
  {
    if i == 0 {
      hide Flatten, Cut, Pieces;
      FlattenNone(Cut(msg));
    } else {
      hide *;
      FlattenCut(msg, i - 1);
      FlattenPrefix(Cut(msg), i - 1);
      CutAt(msg, i - 1);
      assert msg[..PieceEnd(msg, i)] == msg[..PieceEnd(msg, i - 1)] + msg[PieceEnd(msg, i - 1)..PieceEnd(msg, i)];
    }
  }

  lemma CutIsFragmentation(msg: seq<byte>)
    requires IsLong(msg)
    ensures IsFragmentation(Cut(msg)) && Flatten(Cut(msg)) == msg && NoneEmpty(Cut(msg))
  {
    FlattenCut(msg, Pieces(msg));
    assert Cut(msg)[..Pieces(msg)] == Cut(msg);
    assert PieceEnd(msg, Pieces(msg)) == |msg|;
  }

  /** Only the first and the last fragment ask for an acknowledgement. */
  function CutAcks(msg: seq<byte>, acknowledge: bool): (acks: seq<bool>)
    ensures |acks| == Pieces(msg) + 1
  {
    seq(Pieces(msg) + 1, i requires 0 <= i <= Pieces(msg) => if i == 0 then acknowledge else i == Pieces(msg) - 1)
  }

  /** First fragment, continuations, terminator. */
  function Ideal(msg: seq<byte>, acknowledge: bool, sequence: byte): (packets: seq<seq<byte>>)
    requires IsLong(msg)
    ensures |packets| == Pieces(msg) + 1
  {
    CutIsFragmentation(msg);
    Transfer(CMD_AUTHENTICATE, Cut(msg), CutAcks(msg, acknowledge), sequence)
  }

  function IdealHeader(msg: seq<byte>, acknowledge: bool, sequence: byte, i: nat): Header
    requires IsLong(msg) && i <= Pieces(msg)
  {
    CutIsFragmentation(msg);
    TransferHeader(CMD_AUTHENTICATE, Cut(msg), CutAcks(msg, acknowledge), sequence, i)
  }

  lemma IdealHeaderFields(msg: seq<byte>, acknowledge: bool, sequence: byte, i: nat)
    requires IsLong(msg) && i <= Pieces(msg)
    ensures IdealHeader(msg, acknowledge, sequence, i) ==
            AuthHeader(ChunkOptions(i == 0, if i == 0 then acknowledge else i == Pieces(msg) - 1), sequence,
                       PieceEnd(msg, i + 1) - PieceEnd(msg, i),
                       if i == 0 then |msg| else PieceEnd(msg, i))
  {
    CutIsFragmentation(msg);
    FlattenCut(msg, i);
  }

  lemma IdealPayload(msg: seq<byte>, i: nat)
    requires IsLong(msg) && i <= Pieces(msg)
    ensures IsFragmentation(Cut(msg)) && PieceEnd(msg, i) <= PieceEnd(msg, i + 1) <= |msg|
    ensures Payload(Cut(msg), i) == msg[PieceEnd(msg, i)..PieceEnd(msg, i + 1)]
  {
    CutIsFragmentation(msg);
    PieceBounds(msg, i);
    PieceBounds(msg, i + 1);
    hide Pieces, PieceEnd, IsFragmentation;
    if i < Pieces(msg) {
      CutAt(msg, i);
    }
  }

  lemma IdealPacket(msg: seq<byte>, acknowledge: bool, sequence: byte, i: nat)
    requires IsLong(msg) && i <= Pieces(msg)
    ensures Ideal(msg, acknowledge, sequence)[i]
         == HeaderBytes(IdealHeader(msg, acknowledge, sequence, i)) + msg[PieceEnd(msg, i)..PieceEnd(msg, i + 1)]
  {
    IdealPayload(msg, i);
    hide HeaderBytes, TransferHeader, Payload, PieceEnd, Pieces, Cut, CutAcks, IsFragmentation;
  }

  /** Every header of the ideal transfer has exactly 6 bytes, so that 58 payload bytes just fit the endpoint. */
  lemma IdealPacketsFit(msg: seq<byte>, acknowledge: bool, sequence: byte, i: nat)
    requires IsLong(msg) && i <= Pieces(msg)
    ensures EncodedLength(IdealHeader(msg, acknowledge, sequence, i)) == 6
    ensures |Ideal(msg, acknowledge, sequence)[i]| == 6 + PieceEnd(msg, i + 1) - PieceEnd(msg, i) <= ENDPOINT_SIZE
    ensures i == 0 ==> |Ideal(msg, acknowledge, sequence)[i]| == ENDPOINT_SIZE
  {
    IdealHeaderFields(msg, acknowledge, sequence, i);
    IdealPacket(msg, acknowledge, sequence, i);
    PieceBounds(msg, i);
    hide Ideal, IdealHeader, VarintLength, ChunkOptions, Pieces;
    var h := IdealHeader(msg, acknowledge, sequence, i);
    VarintLengthBounds(h.packetLength);
    VarintLengthBounds(h.chunkOffset);
  }

  /** A message of at most 58 bytes goes out behind a header of 4 bytes. */
  lemma ShortPacketFits(t: Tx, msg: seq<byte>, acknowledge: bool, sequence: byte)
    requires t.Ok() && |msg| <= PKT_MAX_LENGTH
    ensures |FirstPacket(t, msg, acknowledge, sequence)| == 4 + |msg| <= ENDPOINT_SIZE
  {
    VarintLengthBounds(|msg|);
  }

  // ----- packets in numbers ---------------------------------------------------------------

  /** The header of a chunk, byte for byte. */
  function ChunkBytes(options: byte, sequence: byte, length: nat, offset: nat): seq<byte>
    requires length <= 58 && offset <= 4096
  {
    if offset < 128 then [0x06, options, sequence, length + 128, 0, offset]
    else [0x06, options, sequence, length, offset % 128 + 128, offset / 128]
  }

  /**
   Every packet of the transfer of a long message: 58 bytes at a time, the total
   length in the first header and the position in the others, an
   acknowledgement asked for with the first if the caller wants it and always
   with the last fragment, and a header alone at the end.
   */
  lemma TransferInNumbers(msg: seq<byte>, acknowledge: bool, sequence: byte, i: nat)
    requires 58 < |msg| <= 4096 && i < |Ideal(msg, acknowledge, sequence)|
    ensures |Ideal(msg, acknowledge, sequence)| == (|msg| + 57) / 58 + 1
    ensures var packet, last := Ideal(msg, acknowledge, sequence)[i], (|msg| - 1) / 58;
            && (i == 0 ==> packet == ChunkBytes(if acknowledge then 0xf0 else 0xe0, sequence, 58, |msg|) + msg[..58])
            && (0 < i < last ==> packet == ChunkBytes(0xa0, sequence, 58, 58 * i) + msg[58 * i..58 * i + 58])
            && (i == last ==> packet == ChunkBytes(0xb0, sequence, |msg| - 58 * i, 58 * i) + msg[58 * i..])
            && (i > last ==> packet == ChunkBytes(0xa0, sequence, 0, |msg|))
  {
    LastPiece(msg, i);
    hide *;
    if i == 0 {
      FirstInNumbers(msg, acknowledge, sequence);
    } else if i < Pieces(msg) {
      FragmentInNumbers(msg, acknowledge, sequence, i);
    } else {
      EndInNumbers(msg, acknowledge, sequence);
    }
  }

  lemma FirstInNumbers(msg: seq<byte>, acknowledge: bool, sequence: byte)
    requires 58 < |msg| <= 4096
    ensures Ideal(msg, acknowledge, sequence)[0]
         == ChunkBytes(if acknowledge then 0xf0 else 0xe0, sequence, 58, |msg|) + msg[..58]
  {
    PieceInNumbers(msg, acknowledge, sequence, 0);
    PieceEndsInNumbers(msg, 0);
    PieceEndsInNumbers(msg, 1);
    hide *;
    assert msg[0..58] == msg[..58];
  }

  lemma FragmentInNumbers(msg: seq<byte>, acknowledge: bool, sequence: byte, i: nat)
    requires 58 < |msg| <= 4096 && 0 < i < Pieces(msg)
    ensures var at, packet := 58 * i, Ideal(msg, acknowledge, sequence)[i];
            && at < |msg|
            && (if i < Pieces(msg) - 1 then at + 58 <= |msg| && packet == ChunkBytes(0xa0, sequence, 58, at) + msg[at..at + 58]
                else |msg| <= at + 58 && packet == ChunkBytes(0xb0, sequence, |msg| - at, at) + msg[at..])
  {
    LastPiece(msg, i);
    PieceInNumbers(msg, acknowledge, sequence, i);
    PieceEndsInNumbers(msg, i);
    PieceEndsInNumbers(msg, i + 1);
    hide *;
    var at := 58 * i;
    assert 58 * (i + 1) == at + 58;
    if i == Pieces(msg) - 1 {
      assert msg[at..|msg|] == msg[at..];
    }
  }

  lemma EndInNumbers(msg: seq<byte>, acknowledge: bool, sequence: byte)
    requires 58 < |msg| <= 4096
    ensures Ideal(msg, acknowledge, sequence)[Pieces(msg)] == ChunkBytes(0xa0, sequence, 0, |msg|)
  {
    var n := Pieces(msg);
    LastPiece(msg, n);
    PieceInNumbers(msg, acknowledge, sequence, n);
    PieceEndsInNumbers(msg, n);
    PieceEndsInNumbers(msg, n + 1);
    hide *;
    assert msg[|msg|..|msg|] == [];
  }

  lemma PieceEndsInNumbers(msg: seq<byte>, i: nat)
    ensures PieceEnd(msg, i) == (if 58 * i < |msg| then 58 * i else |msg|) <= PieceEnd(msg, i + 1)
    ensures PieceEnd(msg, 1) == if 58 < |msg| then 58 else |msg|
  {
  }

  lemma PieceInNumbers(msg: seq<byte>, acknowledge: bool, sequence: byte, i: nat)
    requires 58 < |msg| <= 4096 && i <= Pieces(msg)
    ensures var from, to := PieceEnd(msg, i), PieceEnd(msg, i + 1);
            && from <= to <= from + 58 && to <= |msg|
            && Ideal(msg, acknowledge, sequence)[i] ==
               ChunkBytes(0xa0 + (if i == 0 then 0x40 else 0)
                          + (if (if i == 0 then acknowledge else i == Pieces(msg) - 1) then 0x10 else 0),
                          sequence, to - from, if i == 0 then |msg| else from) + msg[from..to]
  {
    IdealHeaderFields(msg, acknowledge, sequence, i);
    IdealPacket(msg, acknowledge, sequence, i);
    PieceEndsInNumbers(msg, i);
    PieceEndsInNumbers(msg, i + 1);
    LastPiece(msg, i);
    hide *;
    var from, to := PieceEnd(msg, i), PieceEnd(msg, i + 1);
    ChunkInNumbers(i == 0, if i == 0 then acknowledge else i == Pieces(msg) - 1, sequence, to - from, if i == 0 then |msg| else from);
  }

  lemma ChunkInNumbers(start: bool, acknowledge: bool, sequence: byte, length: nat, offset: nat)
    requires length <= 58 && 0 < offset <= 4096
    ensures var h := AuthHeader(ChunkOptions(start, acknowledge), sequence, length, offset);
            && Encodable(h)
            && HeaderBytes(h) == ChunkBytes(0xa0 + (if start then 0x40 else 0) + (if acknowledge then 0x10 else 0),
                                            sequence, length, offset)
  {
    var h := AuthHeader(ChunkOptions(start, acknowledge), sequence, length, offset);
    HeaderInNumbers(h);
    hide HeaderBytes, Encodable;
  }

  lemma LastPiece(msg: seq<byte>, i: nat)
    requires 58 < |msg|
    ensures Pieces(msg) == (|msg| + 57) / 58 == (|msg| - 1) / 58 + 1
    ensures i < Pieces(msg) - 1 ==> 58 * i + 58 < |msg|
    ensures i == Pieces(msg) - 1 ==> 58 * i < |msg| <= 58 * i + 58
    ensures i == Pieces(msg) ==> |msg| <= 58 * i
  {
  }

  /**
   A message of at most 58 bytes goes out behind four bytes: the command, the
   options with the acknowledgement asked for exactly if the caller wants it,
   the sequence number and the length. Nothing marks it as a chunk.
   */
  lemma ShortInNumbers(t: Tx, msg: seq<byte>, acknowledge: bool, sequence: byte)
    requires t.Ok() && |msg| <= 58
    ensures var packet := FirstPacket(t, msg, acknowledge, sequence);
            && packet == [0x06, if acknowledge then 0x30 else 0x20, sequence, |msg|]
                         + (if |msg| == 58 && t.len != 0 then t.buf[..58] else msg)
            && DecodeHeader(packet) == Decoded(Header(0x06, if acknowledge then 0x30 else 0x20, sequence, |msg|, 0), 4)
  {
    var h := AuthHeader(MessageOptions(acknowledge), sequence, |msg|, 0);
    OptionBits(h.options);
    HeaderInNumbers(h);
    HeaderRoundTrip(h, if |msg| == 58 && t.len != 0 then t.buf[..58] else msg);
    hide HeaderBytes, DecodeHeader, HasOption;
  }

  /** What the endpoint gets when a short message is sent. */
  lemma ShortOnWire(t: Tx, line: Line, msg: seq<byte>, acknowledge: bool)
    requires t.Ok() && |msg| <= 58 && line.Accepts()
    ensures Send(t, line, msg, acknowledge).line.sent
         == line.sent + [[0x06, if acknowledge then 0x30 else 0x20, if t.counter == 0 then 1 else t.counter, |msg|]
                         + (if |msg| == 58 && t.len != 0 then t.buf[..58] else msg)]
  {
    ShortInNumbers(t, msg, acknowledge, if t.counter == 0 then 1 else t.counter);
    hide FirstPacket;
  }

  /** A message of more than 4096 bytes is refused: it costs a number, but no write. */
  lemma OversizeRefused(t: Tx, line: Line, msg: seq<byte>, acknowledge: bool)
    requires t.Ok()
    ensures var r := Send(t, line, msg, acknowledge);
            && r.line.attempts == line.attempts + (if |msg| > 4096 then 0 else 1)
            && r.ok == (|msg| <= 4096 && line.accept(line.attempts))
            && (|msg| > 4096 ==> r.line == line && r.t == t.(counter := r.t.counter))
            && r.t.counter == if t.counter == 0 then 2 else if t.counter == 255 then 0 else t.counter + 1
  {
    hide FirstPacket, Overwrite;
  }

  /** The length a packet is acknowledged with, low 16 bits: a start packet counts from 0. */
  lemma AckInNumbers(h: Header)
    ensures BridgeAck(h) ==
            if h.options / 16 % 2 == 0 then None
            else Some(((if h.options / 64 % 2 == 1 then 0 else h.chunkOffset) + h.packetLength) % 65536)
  {
    OptionBits(h.options);
    hide HasOption;
  }

  /**
   What a packet that holds its header does to the receiver: other commands
   nothing, and a packet that is no chunk is a message unless it is empty. A
   chunk is stored where it says, and a start packet at 0, if it ends within 4096
   bytes; otherwise no byte changes. An empty chunk at the total length, when
   that much and no more has arrived, completes the message.
   */
  lemma ReceiveInNumbers(r: Rx, data: seq<byte>, h: Header, n: nat)
    requires r.Ok() && DecodeHeader(data) == Decoded(h, n) && n <= |data|
    ensures StaysInside(data)
    ensures var (after, message), p, start := Receive(r, data), data[n..], h.options / 64 % 2 == 1;
            var at, total, len := if start then 0 else h.chunkOffset, if start then h.chunkOffset else r.total, if start then 0 else r.len;
            if h.command != 0x06 then after == r && message == None
            else if h.options < 128 then after == r && message == if p == [] then None else Some(p)
            else if at + |p| > 4096 then after == Rx(r.buf, len, total) && message == None
            else
              var buf := r.buf[..at] + p + r.buf[at + |p|..];
              if p == [] && 0 < total == at == Max(len, at) then after == Rx(buf, 0, 0) && message == Some(buf[..at])
              else after == Rx(buf, Max(len, at + |p|), total) && message == None
  {
    OptionBits(h.options);
    hide DecodeHeader, HasOption;
  }

  // ----- exactly once under faults -----------------------------------------------------

  /** The first `j` packets of the ideal transfer have been accepted, and the sender knows it. */
  ghost predicate Reached(t: Tx, msg: seq<byte>, sequence: byte, j: nat) {
    && t.Ok() && IsLong(msg) && 1 <= j <= Pieces(msg) + 1
    && t.buf[..|msg|] == msg
    && t.total == |msg|
    && t.outSeq == sequence != 0
    && t.len == (if j < Pieces(msg) then |msg| else 0)
    && (j < Pieces(msg) ==> t.off == PieceEnd(msg, j))
    && t.terminatorPending == (j == Pieces(msg))
  }

  /** The same inside a burst, which clears the length only once the last fragment is out. */
  ghost predicate InBurst(t: Tx, msg: seq<byte>, sequence: byte, j: nat) {
    && t.Ok() && IsLong(msg) && 1 <= j <= Pieces(msg)
    && t.buf[..|msg|] == msg
    && t.total == t.len == |msg|
    && t.outSeq == sequence != 0
    && t.off == PieceEnd(msg, j)
    && !t.terminatorPending
  }

  lemma ContinuationIsIdeal(t: Tx, msg: seq<byte>, acknowledge: bool, sequence: byte, any: byte, j: nat)
    requires InBurst(t, msg, sequence, j) && j < Pieces(msg)
    ensures t.off < t.len && Continuation(t, any) == Ideal(msg, acknowledge, sequence)[j]
    ensures t.off + ContinuationSize(t) == PieceEnd(msg, j + 1)
  {
    hide Ideal, IdealHeader, HeaderBytes, ChunkOptions, Pieces, PieceEnd;
    IdealHeaderFields(msg, acknowledge, sequence, j);
    IdealPacket(msg, acknowledge, sequence, j);
    PieceBounds(msg, j);
    SliceOfPrefix(t.buf, msg, PieceEnd(msg, j), PieceEnd(msg, j + 1));
  }

  lemma SliceOfPrefix(buf: seq<byte>, msg: seq<byte>, i: nat, j: nat)
    requires i <= j <= |msg| <= |buf| && buf[..|msg|] == msg
    ensures buf[i..j] == msg[i..j]
  {
    forall k | i <= k < j ensures buf[k] == msg[k] {
      assert buf[..|msg|][k] == buf[k];
    }
  }

  lemma TerminatorIsIdeal(t: Tx, msg: seq<byte>, acknowledge: bool, sequence: byte, any: byte)
    requires Reached(t, msg, sequence, Pieces(msg))
    ensures Terminator(t, any) == Ideal(msg, acknowledge, sequence)[Pieces(msg)]
  {
    IdealHeaderFields(msg, acknowledge, sequence, Pieces(msg));
    IdealPacket(msg, acknowledge, sequence, Pieces(msg));
  }

  /** `line'` is `line` after packets `j` to `j'` of the ideal transfer were accepted. */
  ghost predicate SentPart(line: Line, line': Line, msg: seq<byte>, acknowledge: bool, sequence: byte, j: nat, j': nat)
    requires IsLong(msg)
  {
    && j <= j' <= Pieces(msg) + 1
    && line'.accept == line.accept && line'.attempts >= line.attempts
    && line'.sent == line.sent + Ideal(msg, acknowledge, sequence)[j..j']
  }

  lemma SentPartsJoin(l0: Line, l1: Line, l2: Line, msg: seq<byte>, acknowledge: bool, sequence: byte, i: nat, j: nat, k: nat)
    requires IsLong(msg)
    requires SentPart(l0, l1, msg, acknowledge, sequence, i, j) && SentPart(l1, l2, msg, acknowledge, sequence, j, k)
    ensures SentPart(l0, l2, msg, acknowledge, sequence, i, k)
  {
    hide Ideal, Pieces;
    var ideal := Ideal(msg, acknowledge, sequence);
    assert ideal[i..k] == ideal[i..j] + ideal[j..k];
  }

  /** One turn of the burst loop. */
  lemma BurstStep(t: Tx, line: Line, msg: seq<byte>, acknowledge: bool, sequence: byte, any: byte, j: nat)
    returns (t1: Tx, line1: Line)
    requires InBurst(t, msg, sequence, j) && j < Pieces(msg)
    ensures t1.Ok() && line1 == line.Write(Ideal(msg, acknowledge, sequence)[j])
    ensures line.Accepts() ==> Burst(t, line, any) == Burst(t1, line1, any)
    ensures !line.Accepts() ==> Burst(t, line, any) == (t1, line1)
    ensures InBurst(t1, msg, sequence, if line.Accepts() then j + 1 else j)
  {
    hide Ideal, Continuation, Pieces;
    ContinuationIsIdeal(t, msg, acknowledge, sequence, any, j);
    t1 := if line.Accepts() then t.(off := t.off + ContinuationSize(t)) else t;
    line1 := line.Write(Continuation(t, any));
  }

  lemma BurstEnds(t: Tx, line: Line, msg: seq<byte>, sequence: byte, any: byte)
    requires InBurst(t, msg, sequence, Pieces(msg))
    ensures Reached(Burst(t, line, any).0, msg, sequence, Pieces(msg)) && Burst(t, line, any).1 == line
  {
  }

  lemma WriteIsPart(line: Line, msg: seq<byte>, acknowledge: bool, sequence: byte, j: nat)
    requires IsLong(msg) && j <= Pieces(msg)
    ensures SentPart(line, line.Write(Ideal(msg, acknowledge, sequence)[j]), msg, acknowledge, sequence, j,
                     if line.Accepts() then j + 1 else j)
  {
    hide Ideal, Pieces;
    var ideal := Ideal(msg, acknowledge, sequence);
    assert ideal[j..j + 1] == [ideal[j]];
  }

  lemma {:induction false} BurstKeeps(t: Tx, line: Line, msg: seq<byte>, acknowledge: bool, sequence: byte, any: byte, j: nat)
    returns (j': nat)
    requires InBurst(t, msg, sequence, j)
    ensures j <= j' <= Pieces(msg) && Reached(Burst(t, line, any).0, msg, sequence, j')
    ensures SentPart(line, Burst(t, line, any).1, msg, acknowledge, sequence, j, j')
    ensures j < Pieces(msg) && line.Accepts() ==> j' > j
    ensures (forall k | k >= line.attempts :: line.accept(k)) ==> j' == Pieces(msg)
    decreases Pieces(msg) - j
  {
    hide Ideal, Burst, Continuation, Pieces, PieceEnd;
    if j == Pieces(msg) {
      BurstEnds(t, line, msg, sequence, any);
      j' := j;
      assert Ideal(msg, acknowledge, sequence)[j..j'] == [];
    } else {
      var t1, line1 := BurstStep(t, line, msg, acknowledge, sequence, any, j);
      WriteIsPart(line, msg, acknowledge, sequence, j);
      j' := j;
      if line.Accepts() {
        j' := BurstKeeps(t1, line1, msg, acknowledge, sequence, any, j + 1);
        SentPartsJoin(line, line1, Burst(t1, line1, any).1, msg, acknowledge, sequence, j, j + 1, j');
      }
    }
  }

  lemma AcknowledgedKeeps(t: Tx, line: Line, msg: seq<byte>, acknowledge: bool, sequence: byte, any: byte, j: nat)
    returns (j': nat)
    requires Reached(t, msg, sequence, j)
    ensures Reached(Acknowledged(t, line, any).0, msg, sequence, j')
    ensures SentPart(line, Acknowledged(t, line, any).1, msg, acknowledge, sequence, j, j')
    ensures j <= Pieces(msg) && line.Accepts() ==> j' > j
    ensures (forall k | k >= line.attempts :: line.accept(k)) ==> j' >= if j < Pieces(msg) then Pieces(msg) else Pieces(msg) + 1
  {
    if j < Pieces(msg) {
      j' := BurstKeeps(t, line, msg, acknowledge, sequence, any, j);
    } else if j == Pieces(msg) {
      TerminatorIsIdeal(t, msg, acknowledge, sequence, any);
      WriteIsPart(line, msg, acknowledge, sequence, j);
      j' := if line.Accepts() then j + 1 else j;
    } else {
      j' := j;
    }
  }

  lemma {:induction false} AllAcknowledgedKeeps(t: Tx, line: Line, msg: seq<byte>, acknowledge: bool, sequence: byte, acks: seq<byte>, j: nat)
    returns (j': nat)
    requires Reached(t, msg, sequence, j)
    ensures Reached(AllAcknowledged(t, line, acks).0, msg, sequence, j')
    ensures SentPart(line, AllAcknowledged(t, line, acks).1, msg, acknowledge, sequence, j, j')
    ensures (forall k | k >= line.attempts :: line.accept(k)) && |acks| >= 2 ==> j' == Pieces(msg) + 1
    ensures (forall k | k >= line.attempts :: line.accept(k)) && |acks| == 1 ==> j' >= Pieces(msg)
  {
    hide Ideal, Acknowledged, Pieces;
    if acks == [] {
      j' := j;
      assert Ideal(msg, acknowledge, sequence)[j..j] == [];
    } else {
      var init, last := acks[..|acks| - 1], acks[|acks| - 1];
      var middle := AllAcknowledgedKeeps(t, line, msg, acknowledge, sequence, init, j);
      var (t1, line1) := AllAcknowledged(t, line, init);
      j' := AcknowledgedKeeps(t1, line1, msg, acknowledge, sequence, last, middle);
      SentPartsJoin(line, line1, AllAcknowledged(t, line, acks).1, msg, acknowledge, sequence, j, middle, j');
    }
  }

  lemma SendReaches(t: Tx, line: Line, msg: seq<byte>, acknowledge: bool)
    requires t.Ok() && IsLong(msg)
    ensures var r, sequence := Send(t, line, msg, acknowledge), Sequence.DrawNonzero(t.counter).used;
            && Reached(r.t, msg, sequence, 1)
            && r.line == line.Write(Ideal(msg, acknowledge, sequence)[0])
  {
    var sequence := Sequence.DrawNonzero(t.counter).used;
    IdealHeaderFields(msg, acknowledge, sequence, 0);
    IdealPacket(msg, acknowledge, sequence, 0);
  }

  /**
   Once the first fragment of a long message is accepted, whatever
   acknowledgements follow and whichever writes are refused, the packets
   accepted are a prefix of the ideal transfer: none lost, repeated or out of
   order, all with the one sequence number. Two acknowledgements finish the
   transfer if no write is refused.
   */
  lemma ExactlyOnce(t: Tx, line: Line, msg: seq<byte>, acknowledge: bool, acks: seq<byte>) returns (j: nat)
    requires t.Ok() && IsLong(msg) && line.Accepts()
    ensures var r, sequence := Send(t, line, msg, acknowledge), Sequence.DrawNonzero(t.counter).used;
            var (t', line') := AllAcknowledged(r.t, r.line, acks);
            && r.ok
            && 1 <= j <= Pieces(msg) + 1
            && line'.sent == line.sent + Ideal(msg, acknowledge, sequence)[..j]
            && Reached(t', msg, sequence, j)
            && ((forall k | k >= line.attempts :: line.accept(k)) && |acks| >= 2 ==> j == Pieces(msg) + 1)
  {
    var r, sequence := Send(t, line, msg, acknowledge), Sequence.DrawNonzero(t.counter).used;
    SendReaches(t, line, msg, acknowledge);
    WriteIsPart(line, msg, acknowledge, sequence, 0);
    j := AllAcknowledgedKeeps(r.t, r.line, msg, acknowledge, sequence, acks, 1);
    SentPartsJoin(line, r.line, AllAcknowledged(r.t, r.line, acks).1, msg, acknowledge, sequence, 0, 1, j);
  }

  lemma IdealPrefixDelivers(rx: Rx, msg: seq<byte>, acknowledge: bool, sequence: byte, j: nat)
    requires IsLong(msg) && rx.Ok() && j <= Pieces(msg) + 1
    ensures AllStayInside(Ideal(msg, acknowledge, sequence)[..j])
    ensures Feed(rx, Ideal(msg, acknowledge, sequence)[..j]).1 == if j == Pieces(msg) + 1 then [msg] else []
  {
    CutIsFragmentation(msg);
    hide NoneEmpty, IsFragmentation, Feed, AllStayInside, Transfer, FirstComplete, Cut;
    TransferDelivers(rx, Cut(msg), CutAcks(msg, acknowledge), sequence, j);
  }

  lemma IdealStaysInside(msg: seq<byte>, acknowledge: bool, sequence: byte)
    requires IsLong(msg)
    ensures AllStayInside(Ideal(msg, acknowledge, sequence))
  {
    CutIsFragmentation(msg);
    TransferStaysInside(CMD_AUTHENTICATE, Cut(msg), CutAcks(msg, acknowledge), sequence);
  }

  lemma OneDelivered(before: seq<seq<byte>>, m: Option<seq<byte>>, msg: seq<byte>)
    requires before == [] && before + (if m.Some? then [m.value] else []) == [msg]
    ensures m == Some(msg)
  {
    assert (before + if m.Some? then [m.value] else [])[0] == msg;
  }

  lemma LastDelivers(r: Rx, packets: seq<seq<byte>>, n: nat, msg: seq<byte>)
    requires r.Ok() && AllStayInside(packets) && n < |packets|
    requires AllStayInside(packets[..n]) && Feed(r, packets[..n]).1 == []
    requires AllStayInside(packets[..n + 1]) && Feed(r, packets[..n + 1]).1 == [msg]
    ensures StaysInside(packets[n]) && Receive(Feed(r, packets[..n]).0, packets[n]).1 == Some(msg)
  {
    assert StaysInside(packets[n]);
    hide Feed, Receive, StaysInside;
    FeedOneMore(r, packets, n);
    OneDelivered(Feed(r, packets[..n]).1, Receive(Feed(r, packets[..n]).0, packets[n]).1, msg);
  }

  /** The terminator completes the message for a receiver that got everything before it. */
  lemma {:induction false} IdealCompletes(rx: Rx, msg: seq<byte>, acknowledge: bool, sequence: byte)
    requires rx.Ok() && IsLong(msg)
    ensures var packets, n := Ideal(msg, acknowledge, sequence), Pieces(msg);
            && AllStayInside(packets[..n]) && StaysInside(packets[n])
            && Receive(Feed(rx, packets[..n]).0, packets[n]).1 == Some(msg)
  {
    hide *;
    IdealStaysInside(msg, acknowledge, sequence);
    IdealPrefixDelivers(rx, msg, acknowledge, sequence, Pieces(msg));
    IdealPrefixDelivers(rx, msg, acknowledge, sequence, Pieces(msg) + 1);
    LastDelivers(rx, Ideal(msg, acknowledge, sequence), Pieces(msg), msg);
  }

  /**
   End to end: whatever the faults, the receiver, in any state, gets the
   message exactly once if the whole transfer went out and nothing if it did
   not.
   */
  lemma EndToEnd(t: Tx, line: Line, msg: seq<byte>, acknowledge: bool, acks: seq<byte>, rx: Rx)
    requires t.Ok() && IsLong(msg) && line.Accepts() && line.sent == [] && rx.Ok()
    ensures var r := Send(t, line, msg, acknowledge);
            var (t', line') := AllAcknowledged(r.t, r.line, acks);
            && AllStayInside(line'.sent)
            && Feed(rx, line'.sent).1 == (if t'.len == 0 && !t'.terminatorPending then [msg] else [])
            && ((forall k | k >= line.attempts :: line.accept(k)) && |acks| >= 2 ==> Feed(rx, line'.sent).1 == [msg])
  {
    hide Ideal, Pieces, Feed, Send, AllAcknowledged, AllStayInside;
    var j := ExactlyOnce(t, line, msg, acknowledge, acks);
    var sequence := Sequence.DrawNonzero(t.counter).used;
    IdealPrefixDelivers(rx, msg, acknowledge, sequence, j);
    var r := Send(t, line, msg, acknowledge);
    assert AllAcknowledged(r.t, r.line, acks).1.sent == Ideal(msg, acknowledge, sequence)[..j];
  }

  /** The sender does not look back: if the first fragment is refused, the rest of the transfer still goes out. */
  lemma FirstRefused(t: Tx, line: Line, msg: seq<byte>, acknowledge: bool, acks: seq<byte>) returns (j: nat)
    requires t.Ok() && IsLong(msg) && !line.Accepts()
    ensures var r, sequence := Send(t, line, msg, acknowledge), Sequence.DrawNonzero(t.counter).used;
            var (t', line') := AllAcknowledged(r.t, r.line, acks);
            && !r.ok
            && 1 <= j <= Pieces(msg) + 1
            && line'.sent == line.sent + Ideal(msg, acknowledge, sequence)[1..j]
            && Reached(t', msg, sequence, j)
  {
    SendReaches(t, line, msg, acknowledge);
    var r := Send(t, line, msg, acknowledge);
    hide Send, Ideal, Pieces, Reached;
    j := AllAcknowledgedKeeps(r.t, r.line, msg, acknowledge, Sequence.DrawNonzero(t.counter).used, acks, 1);
  }

  /** Packet `i` of the ideal transfer as the receiver sees it. */
  lemma ReceiveIdeal(r: Rx, msg: seq<byte>, acknowledge: bool, sequence: byte, i: nat)
    requires IsLong(msg) && i <= Pieces(msg) && r.Ok()
    ensures var data := Ideal(msg, acknowledge, sequence)[i];
            && StaysInside(data)
            && Receive(r, data) == ReceiveChunk(r, IdealHeader(msg, acknowledge, sequence, i),
                                                msg[PieceEnd(msg, i)..PieceEnd(msg, i + 1)])
  {
    IdealPayload(msg, i);
    hide Receive, ReceiveChunk, StaysInside, TransferPacket, TransferHeader, Payload, Pieces, PieceEnd, Cut, CutAcks, IsFragmentation;
    ReceiveTransferPacket(r, Cut(msg), CutAcks(msg, acknowledge), sequence, i);
  }

  /** After the fragments from the second to the `k + 1`-st, with the first one missing. */
  ghost predicate RestReceived(r: Rx, rx: Rx, msg: seq<byte>, k: nat) {
    var end := PieceEnd(msg, k + 1);
    && r.Ok() && rx.Ok() && IsLong(msg) && k < Pieces(msg)
    && r.total == rx.total
    && r.len == (if k == 0 then rx.len else Max(rx.len, end))
    && r.buf[..end] == rx.buf[..PKT_MAX_LENGTH] + msg[PKT_MAX_LENGTH..end]
  }

  lemma StoreRest(r: Rx, rx: Rx, msg: seq<byte>, h: Header, k: nat)
    requires RestReceived(r, rx, msg, k) && k + 1 < Pieces(msg)
    requires !HasOption(h.options, OPT_CHUNK_START) && h.chunkOffset == PieceEnd(msg, k + 1)
    ensures var out := ReceiveChunk(r, h, msg[PieceEnd(msg, k + 1)..PieceEnd(msg, k + 2)]);
            RestReceived(out.0, rx, msg, k + 1) && out.1.None?
  {
    var from, to := PieceEnd(msg, k + 1), PieceEnd(msg, k + 2);
    assert PKT_MAX_LENGTH <= from < to <= |msg|;
    hide HasOption, Pieces, PieceEnd;
    assert Overwrite(r.buf, from, msg[from..to])[..to] == r.buf[..from] + msg[from..to];
    assert msg[PKT_MAX_LENGTH..to] == msg[PKT_MAX_LENGTH..from] + msg[from..to];
  }

  lemma ReceiveRest(r: Rx, rx: Rx, msg: seq<byte>, acknowledge: bool, sequence: byte, k: nat)
    requires RestReceived(r, rx, msg, k) && k + 1 < Pieces(msg)
    ensures var data := Ideal(msg, acknowledge, sequence)[k + 1];
            && StaysInside(data)
            && RestReceived(Receive(r, data).0, rx, msg, k + 1) && Receive(r, data).1.None?
  {
    hide Ideal, IdealHeader, Receive, ReceiveChunk, StaysInside, HasOption, ChunkOptions, Pieces, PieceEnd;
    ReceiveIdeal(r, msg, acknowledge, sequence, k + 1);
    IdealHeaderFields(msg, acknowledge, sequence, k + 1);
    StoreRest(r, rx, msg, IdealHeader(msg, acknowledge, sequence, k + 1), k);
  }

  /** The terminator finds the transfer complete if it was opened with the same length and nothing lies beyond. */
  lemma ReceiveEnd(r: Rx, rx: Rx, msg: seq<byte>, acknowledge: bool, sequence: byte)
    requires IsLong(msg) && RestReceived(r, rx, msg, Pieces(msg) - 1)
    ensures var data := Ideal(msg, acknowledge, sequence)[Pieces(msg)];
            && StaysInside(data)
            && Receive(r, data).1 == if rx.total == |msg| && rx.len <= |msg| then Some(Mixed(rx, msg)) else None
  {
    LastPieceEnd(msg);
    hide Ideal, IdealHeader, Receive, StaysInside, HasOption, ChunkOptions, Pieces, PieceEnd, Overwrite, IsLong;
    ReceiveIdeal(r, msg, acknowledge, sequence, Pieces(msg));
    IdealHeaderFields(msg, acknowledge, sequence, Pieces(msg));
    assert msg[|msg|..|msg|] == [];
    OverwriteNothing(r.buf, |msg|);
    assert msg[PKT_MAX_LENGTH..|msg|] == msg[PKT_MAX_LENGTH..];
    assert r.buf[..|msg|] == Mixed(rx, msg);
  }

  lemma LastPieceEnd(msg: seq<byte>)
    requires IsLong(msg)
    ensures PieceEnd(msg, Pieces(msg)) == PieceEnd(msg, Pieces(msg) + 1) == |msg|
  {
  }

  /** The receiver's old first 58 bytes and the rest of the message. */
  function Mixed(rx: Rx, msg: seq<byte>): seq<byte>
    requires rx.Ok() && IsLong(msg)
  {
    rx.buf[..PKT_MAX_LENGTH] + msg[PKT_MAX_LENGTH..]
  }

  lemma {:induction false} RestFed(rx: Rx, msg: seq<byte>, acknowledge: bool, sequence: byte, k: nat)
    requires IsLong(msg) && rx.Ok() && k < Pieces(msg)
    ensures var rest := Ideal(msg, acknowledge, sequence)[1..];
            && AllStayInside(rest)
            && Feed(rx, rest[..k]).1 == [] && RestReceived(Feed(rx, rest[..k]).0, rx, msg, k)
  {
    RestStaysInside(msg, acknowledge, sequence);
    var rest := Ideal(msg, acknowledge, sequence)[1..];
    if k == 0 {
      assert rx.buf[..PKT_MAX_LENGTH] + msg[PKT_MAX_LENGTH..PKT_MAX_LENGTH] == rx.buf[..PKT_MAX_LENGTH];
    } else {
      hide *;
      RestFed(rx, msg, acknowledge, sequence, k - 1);
      ReceiveRest(Feed(rx, rest[..k - 1]).0, rx, msg, acknowledge, sequence, k - 1);
      FeedOneMore(rx, rest, k - 1);
    }
  }

  lemma RestStaysInside(msg: seq<byte>, acknowledge: bool, sequence: byte)
    requires IsLong(msg)
    ensures AllStayInside(Ideal(msg, acknowledge, sequence)[1..])
  {
    CutIsFragmentation(msg);
    TransferStaysInside(CMD_AUTHENTICATE, Cut(msg), CutAcks(msg, acknowledge), sequence);
  }

  /**
   What a receiver in any state makes of a transfer without its first fragment.
   If it has a transfer of the same length open and holds nothing beyond that
   length, it delivers at the terminator its own first 58 bytes with the rest
   of the message; otherwise, and before the terminator, it delivers nothing.
   */
  lemma WithoutFirst(rx: Rx, msg: seq<byte>, acknowledge: bool, sequence: byte, k: nat)
    requires IsLong(msg) && rx.Ok() && k <= Pieces(msg)
    ensures var rest := Ideal(msg, acknowledge, sequence)[1..];
            && AllStayInside(rest)
            && Feed(rx, rest[..k]).1 ==
               if k == Pieces(msg) && rx.total == |msg| && rx.len <= |msg| then [Mixed(rx, msg)] else []
    ensures Mixed(rx, msg) == msg <==> rx.buf[..PKT_MAX_LENGTH] == msg[..PKT_MAX_LENGTH]
  {
    hide *;
    MixedIsMessage(rx, msg);
    if k < Pieces(msg) {
      RestFed(rx, msg, acknowledge, sequence, k);
    } else {
      var rest := Ideal(msg, acknowledge, sequence)[1..];
      RestFed(rx, msg, acknowledge, sequence, k - 1);
      PrefixStaysInside(rest, k - 1);
      ReceiveEnd(Feed(rx, rest[..k - 1]).0, rx, msg, acknowledge, sequence);
      FeedOneMore(rx, rest, k - 1);
    }
  }

  lemma MixedIsMessage(rx: Rx, msg: seq<byte>)
    requires IsLong(msg) && rx.Ok()
    ensures Mixed(rx, msg) == msg <==> rx.buf[..PKT_MAX_LENGTH] == msg[..PKT_MAX_LENGTH]
  {
    assert msg[..PKT_MAX_LENGTH] + msg[PKT_MAX_LENGTH..] == msg;
    assert Mixed(rx, msg)[..PKT_MAX_LENGTH] == rx.buf[..PKT_MAX_LENGTH];
  }

  /** End to end, when the first fragment was refused. */
  lemma EndToEndWithoutFirst(t: Tx, line: Line, msg: seq<byte>, acknowledge: bool, acks: seq<byte>, rx: Rx)
    requires t.Ok() && IsLong(msg) && !line.Accepts() && line.sent == [] && rx.Ok()
    ensures var r := Send(t, line, msg, acknowledge);
            var (t', line') := AllAcknowledged(r.t, r.line, acks);
            && AllStayInside(line'.sent)
            && Feed(rx, line'.sent).1 ==
               if t'.len == 0 && !t'.terminatorPending && rx.total == |msg| && rx.len <= |msg| then [Mixed(rx, msg)] else []
  {
    hide Ideal, Pieces, Feed, Send, AllAcknowledged, AllStayInside, Mixed, Sequence.DrawNonzero, Flatten;
    var j := FirstRefused(t, line, msg, acknowledge, acks);
    var ideal := Ideal(msg, acknowledge, Sequence.DrawNonzero(t.counter).used);
    WithoutFirst(rx, msg, acknowledge, Sequence.DrawNonzero(t.counter).used, j - 1);
    assert ideal[1..j] == ideal[1..][..j - 1];
    var r := Send(t, line, msg, acknowledge);
    assert AllAcknowledged(r.t, r.line, acks).1.sent == ideal[1..j];
    PrefixStaysInside(ideal[1..], j - 1);
  }

  lemma PrefixStaysInside(packets: seq<seq<byte>>, k: nat)
    requires AllStayInside(packets) && k <= |packets|
    ensures AllStayInside(packets[..k])
  {
  }

  // ----- short messages ---------------------------------------------------------------

  /** A message of 1 to 58 bytes arrives in one packet, unless it is read from the transfer buffer by mistake. */
  lemma ShortMessageDelivered(t: Tx, line: Line, msg: seq<byte>, acknowledge: bool, rx: Rx)
    requires t.Ok() && 0 < |msg| <= PKT_MAX_LENGTH && rx.Ok()
    requires !(|msg| == PKT_MAX_LENGTH && t.len != 0)
    requires line.Accepts()
    ensures var line' := Send(t, line, msg, acknowledge).line;
            && |line'.sent| == |line.sent| + 1
            && StaysInside(line'.sent[|line.sent|])
            && Receive(rx, line'.sent[|line.sent|]) == (rx, Some(msg))
  {
    HeaderRoundTrip(AuthHeader(MessageOptions(acknowledge), Sequence.DrawNonzero(t.counter).used, |msg|, 0), msg);
  }

  /**
   A short message in the middle of a transfer sets the transfer's offset to its
   own length. That leaves the transfer in step exactly when the length is the
   offset already, or when no fragment is left to send.
   */
  lemma ShortMessageInterrupts(t: Tx, line: Line, msg: seq<byte>, sequence: byte, j: nat, m: seq<byte>, acknowledge: bool)
    requires Reached(t, msg, sequence, j) && |m| <= PKT_MAX_LENGTH
    ensures var t' := Send(t, line, m, acknowledge).t;
            && t' == t.(counter := t'.counter, off := if j < Pieces(msg) then |m| else t.off)
            && (Reached(t', msg, sequence, j) <==> j >= Pieces(msg) || |m| == PieceEnd(msg, j))
  {
    hide FirstPacket, Sequence.DrawNonzero;
  }

  /**
   The exact condition for a short message to go out as it is: it must not have
   58 bytes while a transfer is unfinished. The host hello is such a message.
   */
  lemma ShortPayloadExactly(t: Tx, msg: seq<byte>, acknowledge: bool, sequence: byte)
    requires t.Ok() && |msg| <= PKT_MAX_LENGTH
    ensures !(|msg| == PKT_MAX_LENGTH && t.len != 0) <==>
            forall buf: seq<byte> | |buf| == BUF_SIZE ::
              FirstPacket(t.(buf := buf), msg, acknowledge, sequence)
              == HeaderBytes(AuthHeader(MessageOptions(acknowledge), sequence, |msg|, 0)) + msg
  {
    if |msg| == PKT_MAX_LENGTH && t.len != 0 {
      var other: byte := if msg[0] == 0 then 1 else 0;
      var buf: seq<byte> := seq(BUF_SIZE, _ => other);
      var header := HeaderBytes(AuthHeader(MessageOptions(acknowledge), sequence, |msg|, 0));
      assert FirstPacket(t.(buf := buf), msg, acknowledge, sequence)[|header|] == other;
      assert (header + msg)[|header|] != other;
    }
  }
}
