/** The probe's reassembler: a second implementation of chunked reception, compared with the bridge's. */
module Probe {
  import opened Basics
  import opened Gip
  import opened AuthTransport

  datatype Px = Px(chunk: Option<seq<byte>>, len: nat, got: nat, command: byte) {
    predicate Ok() { chunk.Some? ==> |chunk.value| == len }
  }

  datatype ProbeAck = ProbeAck(length: nat, remaining: nat)

  /** What one packet leads to: the state, a reassembled message, an acknowledgement. */
  datatype Handled = Handled(x: Px, done: Option<seq<byte>>, ack: Option<ProbeAck>)

  function StartChunk(x: Px, h: Header): Px {
    if HasOption(h.options, OPT_CHUNK_START)
    then Px(Some(Zeros(h.chunkOffset)), h.chunkOffset, 0, h.command)
    else x
  }

  function AckFor(x: Px, h: Header): Option<ProbeAck> {
    if HasOption(h.options, OPT_ACKNOWLEDGE) then
      var l := DataOffset(h) + h.packetLength;
      Some(ProbeAck(l % 0x1_0000, if IsChunk(h) && x.chunk.Some? then (x.len - l) % 0x1_0000 else 0))
    else None
  }

  function StoreChunk(x: Px, h: Header, payload: seq<byte>): (r: (Px, Option<seq<byte>>))
    requires x.Ok()
    ensures r.0.Ok()
  {
    if !IsChunk(h) || x.chunk.None? || h.command != x.command then (x, None)
    else if h.packetLength == 0 then (Px(None, 0, 0, x.command), x.chunk)
    else if DataOffset(h) + |payload| <= x.len then
      (Px(Some(Overwrite(x.chunk.value, DataOffset(h), payload)), x.len, DataOffset(h) + |payload|, x.command), None)
    else (x, None)
  }

  /** A chunk is read inside its packet unless its header runs past the end and announces data. */
  predicate ReadsInside(data: seq<byte>) {
    var d := DecodeHeader(data);
    d.Decoded? && d.length > |data| ==> !IsChunk(d.header) || d.header.packetLength == 0
  }

  predicate AllReadInside(packets: seq<seq<byte>>) {
    forall i | 0 <= i < |packets| :: ReadsInside(packets[i])
  }

  /** The data of a packet: as much as the header announces, without what follows. */
  function Announced(data: seq<byte>, h: Header, n: nat): seq<byte> {
    if n <= |data| then data[n..n + Min(|data| - n, h.packetLength)] else []
  }

  function Handle(x: Px, data: seq<byte>): (r: Handled)
    requires x.Ok() && ReadsInside(data)
    ensures r.x.Ok()
  {
    match DecodeHeader(data)
    case TooShort => Handled(x, None, None)
    case Decoded(h, n) =>
      var payload := Announced(data, h, n);
      var x1 := StartChunk(x, h);
      var (x2, done) := StoreChunk(x1, h, payload);
      Handled(x2, done, AckFor(x1, h))
  }

  function HandleAll(x: Px, packets: seq<seq<byte>>): (out: (Px, seq<seq<byte>>))
    requires x.Ok() && AllReadInside(packets)
    ensures out.0.Ok()
  {
    if packets == [] then (x, [])
    else
      var last := |packets| - 1;
      var (x1, messages) := HandleAll(x, packets[..last]);
      var r := Handle(x1, packets[last]);
      (r.x, messages + if r.done.Some? then [r.done.value] else [])
  }

  /**
   The probe's acknowledgement in numbers: low 16 bits of what has arrived by
   the header's account and, inside a chunked transfer, of what is left of its
   total, which wraps if the header goes beyond it.
   */
  lemma ProbeAckInNumbers(x: Px, h: Header)
    ensures var arrived := (if h.options / 64 % 2 == 1 then 0 else h.chunkOffset) + h.packetLength;
            AckFor(x, h) ==
            if h.options / 16 % 2 == 0 then None
            else Some(ProbeAck(arrived % 65536, if h.options >= 128 && x.chunk.Some? then (x.len - arrived) % 65536 else 0))
  {
    OptionBits(h.options);
    hide HasOption;
  }

  // ----- agreement with the bridge ------------------------------------------------------

  /** The probe's buffer after `i` nonempty fragments: those, and zeros for the rest. */
  ghost predicate Gathered(x: Px, command: byte, frags: seq<seq<byte>>, i: nat)
    requires i <= |frags|
  {
    var n := |Flatten(frags[..i])|;
    && x.Ok() && x.chunk.Some?
    && x.command == command && x.len == |Flatten(frags)| && x.got == n <= x.len
    && x.chunk.value == Flatten(frags[..i]) + Zeros(x.len - n)
  }

  lemma HandleTransferPacket(x: Px, command: byte, frags: seq<seq<byte>>, acks: seq<bool>, sequence: byte, i: nat)
    requires IsFragmentation(frags) && |acks| == |frags| + 1 && i <= |frags| && x.Ok()
    ensures var data, h := TransferPacket(command, frags, acks, sequence, i), TransferHeader(command, frags, acks, sequence, i);
            && ReadsInside(data)
            && Handle(x, data) == Handled(StoreChunk(StartChunk(x, h), h, Payload(frags, i)).0,
                                          StoreChunk(StartChunk(x, h), h, Payload(frags, i)).1,
                                          AckFor(StartChunk(x, h), h))
  {
    TransferDecodes(command, frags, acks, sequence, i);
    hide TransferPacket, DecodeHeader, StoreChunk, StartChunk, AckFor, Payload, IsFragmentation;
    var data, h := TransferPacket(command, frags, acks, sequence, i), TransferHeader(command, frags, acks, sequence, i);
    assert Announced(data, h, DecodeHeader(data).length) == Payload(frags, i);
  }

  lemma HandleFragment(x: Px, command: byte, frags: seq<seq<byte>>, acks: seq<bool>, sequence: byte, i: nat)
    requires IsFragmentation(frags) && |acks| == |frags| + 1 && i < |frags| && frags[i] != []
    requires x.Ok() && (i > 0 ==> Gathered(x, command, frags, i))
    ensures var data := TransferPacket(command, frags, acks, sequence, i);
            && ReadsInside(data)
            && Gathered(Handle(x, data).x, command, frags, i + 1)
            && Handle(x, data).done.None?
            && (acks[i] ==> var ack, got := Handle(x, data).ack, |Flatten(frags[..i + 1])|;
                            ack.Some? && ack.value.length == got && got + ack.value.remaining == |Flatten(frags)|)
  {
    hide Handle, TransferPacket, ReadsInside, TransferHeader, StartChunk, StoreChunk, AckFor, Gathered;
    HandleTransferPacket(x, command, frags, acks, sequence, i);
    StoreFragment(x, command, frags, acks, sequence, i);
    AckFragment(x, command, frags, acks, sequence, i);
  }

  lemma AckFragment(x: Px, command: byte, frags: seq<seq<byte>>, acks: seq<bool>, sequence: byte, i: nat)
    requires IsFragmentation(frags) && |acks| == |frags| + 1 && i < |frags| && x.Ok()
    requires i > 0 ==> Gathered(x, command, frags, i)
    ensures var h, got := TransferHeader(command, frags, acks, sequence, i), |Flatten(frags[..i + 1])|;
            acks[i] ==> var ack := AckFor(StartChunk(x, h), h);
                        ack.Some? && ack.value.length == got && got + ack.value.remaining == |Flatten(frags)|
  {
    hide Flatten, HasOption, ChunkOptions, Zeros;
    FlattenPrefix(frags, i);
    PrefixFits(frags, i + 1);
    FlattenNone(frags);
  }

  lemma StoreFragment(x: Px, command: byte, frags: seq<seq<byte>>, acks: seq<bool>, sequence: byte, i: nat)
    requires IsFragmentation(frags) && |acks| == |frags| + 1 && i < |frags| && frags[i] != []
    requires x.Ok() && (i > 0 ==> Gathered(x, command, frags, i))
    ensures var h := TransferHeader(command, frags, acks, sequence, i);
            var r := StoreChunk(StartChunk(x, h), h, Payload(frags, i));
            Gathered(r.0, command, frags, i + 1) && r.1.None?
  {
    hide Flatten, HasOption, ChunkOptions, AckFor;
    FlattenPrefix(frags, i);
    PrefixFits(frags, i + 1);
    FlattenNone(frags);
    var h := TransferHeader(command, frags, acks, sequence, i);
    var x1 := StartChunk(x, h);
    var total, offset := |Flatten(frags)|, |Flatten(frags[..i])|;
    assert x1.chunk.value == Flatten(frags[..i]) + Zeros(total - offset);
    OverwriteZeros(Flatten(frags[..i]), frags[i], total);
  }

  lemma OverwriteZeros(front: seq<byte>, p: seq<byte>, total: nat)
    requires |front| + |p| <= total
    ensures Overwrite(front + Zeros(total - |front|), |front|, p) == front + p + Zeros(total - |front| - |p|)
  {
  }

  /** The first empty packet: an empty fragment, or else the terminator. */
  function FirstEmpty(frags: seq<seq<byte>>): (z: nat)
    ensures z <= |frags| && (z < |frags| ==> frags[z] == [])
    ensures forall i | 0 <= i < z :: frags[i] != []
    decreases |frags|
  {
    if frags == [] || frags[0] == [] then 0 else 1 + FirstEmpty(frags[1..])
  }

  /** What the probe takes for the message: what came before the first empty packet, and zeros up to the announced length. */
  function Gatherable(frags: seq<seq<byte>>): seq<byte> {
    var front := Flatten(frags[..FirstEmpty(frags)]);
    PrefixFits(frags, FirstEmpty(frags));
    front + Zeros(|Flatten(frags)| - |front|)
  }

  /** The first empty packet completes the message, wherever it stands. */
  lemma HandleEmpty(x: Px, command: byte, frags: seq<seq<byte>>, acks: seq<bool>, sequence: byte)
    requires IsFragmentation(frags) && |acks| == |frags| + 1 && x.Ok()
    requires FirstEmpty(frags) > 0 ==> Gathered(x, command, frags, FirstEmpty(frags))
    ensures var data := TransferPacket(command, frags, acks, sequence, FirstEmpty(frags));
            && ReadsInside(data)
            && Handle(x, data).done == Some(Gatherable(frags)) && Handle(x, data).x.chunk.None?
  {
    hide Handle, TransferPacket, ReadsInside, AckFor, Flatten, FirstEmpty, HasOption, ChunkOptions, Zeros;
    HandleTransferPacket(x, command, frags, acks, sequence, FirstEmpty(frags));
    FlattenNone(frags);
    assert [] + Zeros(|Flatten(frags)|) == Zeros(|Flatten(frags)|);
  }

  lemma HandleIdle(x: Px, command: byte, frags: seq<seq<byte>>, acks: seq<bool>, sequence: byte, i: nat)
    requires IsFragmentation(frags) && |acks| == |frags| + 1 && 0 < i <= |frags| && x.Ok() && x.chunk.None?
    ensures var data := TransferPacket(command, frags, acks, sequence, i);
            && ReadsInside(data)
            && Handle(x, data).done.None? && Handle(x, data).x.chunk.None?
  {
    hide Handle, TransferPacket, ReadsInside, AckFor;
    HandleTransferPacket(x, command, frags, acks, sequence, i);
  }

  lemma HandleOneMore(x: Px, packets: seq<seq<byte>>, k: nat)
    requires x.Ok() && AllReadInside(packets) && k < |packets|
    ensures AllReadInside(packets[..k]) && AllReadInside(packets[..k + 1])
    ensures var before := HandleAll(x, packets[..k]);
            var r := Handle(before.0, packets[k]);
            HandleAll(x, packets[..k + 1]) == (r.x, before.1 + if r.done.Some? then [r.done.value] else [])
  {
    assert packets[..k + 1][..k] == packets[..k];
  }

  lemma TransferReadsInside(command: byte, frags: seq<seq<byte>>, acks: seq<bool>, sequence: byte)
    requires IsFragmentation(frags) && |acks| == |frags| + 1
    ensures AllReadInside(Transfer(command, frags, acks, sequence))
  {
    forall i | 0 <= i <= |frags| ensures ReadsInside(Transfer(command, frags, acks, sequence)[i]) {
      TransferDecodes(command, frags, acks, sequence, i);
    }
  }

  /** What the probe has taken for messages, and its state, after `k` packets of a transfer. */
  ghost predicate HandledSoFar(out: (Px, seq<seq<byte>>), command: byte, frags: seq<seq<byte>>, k: nat)
    requires k <= |frags| + 1
  {
    if k <= FirstEmpty(frags) then
      out.1 == [] && (k > 0 ==> Gathered(out.0, command, frags, k))
    else
      out.1 == [Gatherable(frags)] && out.0.chunk.None?
  }

  lemma HandledOneMore(before: (Px, seq<seq<byte>>), command: byte, frags: seq<seq<byte>>, acks: seq<bool>, sequence: byte, i: nat)
    requires IsFragmentation(frags) && |acks| == |frags| + 1 && i <= |frags|
    requires before.0.Ok() && HandledSoFar(before, command, frags, i)
    ensures var data := TransferPacket(command, frags, acks, sequence, i);
            && ReadsInside(data)
            && var r := Handle(before.0, data);
               HandledSoFar((r.x, before.1 + if r.done.Some? then [r.done.value] else []), command, frags, i + 1)
  {
    hide TransferPacket, ReadsInside, Handle, Gathered, FirstEmpty, Gatherable;
    if i < FirstEmpty(frags) {
      HandleFragment(before.0, command, frags, acks, sequence, i);
    } else if i == FirstEmpty(frags) {
      HandleEmpty(before.0, command, frags, acks, sequence);
    } else {
      HandleIdle(before.0, command, frags, acks, sequence, i);
    }
  }

  lemma HandleNothing(x: Px, packets: seq<seq<byte>>, command: byte, frags: seq<seq<byte>>)
    requires x.Ok() && AllReadInside(packets)
    ensures HandledSoFar(HandleAll(x, packets[..0]), command, frags, 0)
  {
    hide Handle, FirstEmpty;
  }

  lemma {:induction false} HandleTransfer(x: Px, command: byte, frags: seq<seq<byte>>, acks: seq<bool>, sequence: byte, k: nat)
    requires IsFragmentation(frags) && |acks| == |frags| + 1 && k <= |frags| + 1 && x.Ok()
    ensures var packets := Transfer(command, frags, acks, sequence);
            AllReadInside(packets) && HandledSoFar(HandleAll(x, packets[..k]), command, frags, k)
  {
    hide *;
    TransferReadsInside(command, frags, acks, sequence);
    var packets := Transfer(command, frags, acks, sequence);
    if k == 0 {
      HandleNothing(x, packets, command, frags);
    } else {
      TransferAt(command, frags, acks, sequence, k - 1);
      HandleOneMore(x, packets, k - 1);
      HandleTransfer(x, command, frags, acks, sequence, k - 1);
      HandledOneMore(HandleAll(x, packets[..k - 1]), command, frags, acks, sequence, k - 1);
    }
  }

  /**
   The probe delivers once in any transfer, at the first empty packet, filling
   up with zeros what has not come; if no fragment is empty, that is the message,
   at the terminator.
   */
  lemma ProbeDelivers(x: Px, command: byte, frags: seq<seq<byte>>, acks: seq<bool>, sequence: byte, k: nat)
    requires IsFragmentation(frags) && |acks| == |frags| + 1 && k <= |frags| + 1 && x.Ok()
    ensures var packets := Transfer(command, frags, acks, sequence);
            && AllReadInside(packets)
            && HandleAll(x, packets[..k]).1 == if k > FirstEmpty(frags) then [Gatherable(frags)] else []
    ensures NoneEmpty(frags) ==> FirstEmpty(frags) == |frags| && Gatherable(frags) == Flatten(frags)
  {
    hide Transfer, HandleAll, AllReadInside, FirstEmpty, Gatherable, Gathered;
    HandleTransfer(x, command, frags, acks, sequence, k);
    if NoneEmpty(frags) {
      WholeGathered(frags);
    }
  }

  lemma WholeGathered(frags: seq<seq<byte>>)
    ensures |Flatten(frags[..FirstEmpty(frags)])| == |Flatten(frags)| ==> Gatherable(frags) == Flatten(frags)
    ensures FirstEmpty(frags) == |frags| ==> Gatherable(frags) == Flatten(frags)
  {
    PrefixFits(frags, FirstEmpty(frags));
    assert frags[..|frags|] == frags;
  }

  /** Every empty fragment comes after the whole message, and there is a message. */
  predicate EmptyOnlyAtEnd(frags: seq<seq<byte>>) {
    && Flatten(frags) != []
    && forall i | 0 <= i < |frags| && frags[i] == [] :: |Flatten(frags[..i])| == |Flatten(frags)|
  }

  /** Both wait for the same packet exactly under this condition. */
  lemma SamePacket(frags: seq<seq<byte>>)
    requires frags != []
    ensures FirstComplete(frags) <= FirstEmpty(frags) <==>
            forall i | 0 <= i < |frags| && frags[i] == [] :: |Flatten(frags[..i])| == |Flatten(frags)|
    ensures FirstEmpty(frags) <= FirstComplete(frags)
  {
    hide Flatten, CompleteFrom;
    NothingMore(frags, FirstComplete(frags));
    if FirstComplete(frags) <= FirstEmpty(frags) {
      forall i | 0 <= i < |frags| && frags[i] == [] ensures |Flatten(frags[..i])| == |Flatten(frags)| {
        NothingMore(frags, i);
      }
    } else {
      assert |Flatten(frags[..FirstEmpty(frags)])| < |Flatten(frags)|;
    }
  }

  /** After `k` packets of a transfer both have delivered the same. */
  ghost predicate SameSoFar(frags: seq<seq<byte>>, k: nat) {
    (if k > FirstEmpty(frags) then [Gatherable(frags)] else [])
    == (if k > FirstComplete(frags) && Flatten(frags) != [] then [Flatten(frags)] else [])
  }

  lemma SameThroughout(frags: seq<seq<byte>>)
    requires frags != []
    ensures EmptyOnlyAtEnd(frags) <==> forall k | 0 <= k <= |frags| + 1 :: SameSoFar(frags, k)
  {
    hide Flatten, CompleteFrom, FirstComplete, FirstEmpty, Gatherable;
    SamePacket(frags);
    WholeGathered(frags);
    var z := FirstEmpty(frags);
    if EmptyOnlyAtEnd(frags) {
      NothingMore(frags, z);
    } else if Flatten(frags) == [] {
      assert !SameSoFar(frags, |frags| + 1);
    } else {
      assert !SameSoFar(frags, z + 1);
    }
  }

  lemma SameAfter(r: Rx, x: Px, frags: seq<seq<byte>>, acks: seq<bool>, sequence: byte, k: nat)
    requires IsFragmentation(frags) && |acks| == |frags| + 1 && k <= |frags| + 1 && r.Ok() && x.Ok()
    ensures var packets := Transfer(CMD_AUTHENTICATE, frags, acks, sequence);
            && AllReadInside(packets) && AllStayInside(packets)
            && (HandleAll(x, packets[..k]).1 == Feed(r, packets[..k]).1 <==> SameSoFar(frags, k))
  {
    hide Transfer, HandleAll, Feed, AllReadInside, AllStayInside, FirstEmpty, FirstComplete, Gatherable, Flatten;
    TransferDelivers(r, frags, acks, sequence, k);
    ProbeDelivers(x, CMD_AUTHENTICATE, frags, acks, sequence, k);
  }

  /**
   On a transfer without gaps, the two reassemblers have delivered the same
   messages after every packet if and only if the message is not empty and no
   fragment is empty except where the whole message has been sent.
   */
  lemma ReassemblersAgreeExactly(r: Rx, x: Px, frags: seq<seq<byte>>, acks: seq<bool>, sequence: byte)
    requires IsFragmentation(frags) && |acks| == |frags| + 1 && r.Ok() && x.Ok()
    ensures var packets := Transfer(CMD_AUTHENTICATE, frags, acks, sequence);
            && AllReadInside(packets) && AllStayInside(packets)
            && (EmptyOnlyAtEnd(frags) <==>
                forall k | 0 <= k <= |frags| + 1 :: HandleAll(x, packets[..k]).1 == Feed(r, packets[..k]).1)
  {
    hide Transfer, HandleAll, Feed, SameSoFar, EmptyOnlyAtEnd, ReadsInside, StaysInside, Flatten;
    SameThroughout(frags);
    var packets := Transfer(CMD_AUTHENTICATE, frags, acks, sequence);
    SameAfter(r, x, frags, acks, sequence, 0);
    forall k | 0 <= k <= |frags| + 1
      ensures HandleAll(x, packets[..k]).1 == Feed(r, packets[..k]).1 <==> SameSoFar(frags, k)
    {
      SameAfter(r, x, frags, acks, sequence, k);
    }
  }

  /** An acknowledgement of data reports the same contiguous length from both, and what the probe says remains is the rest. */
  lemma AcknowledgementsAgree(r: Rx, x: Px, frags: seq<seq<byte>>, acks: seq<bool>, sequence: byte, i: nat)
    requires IsFragmentation(frags) && |acks| == |frags| + 1 && i < |frags| && frags[i] != [] && acks[i]
    requires r.Ok() && (i > 0 ==> Reassembled(r, frags, i))
    requires x.Ok() && (i > 0 ==> Gathered(x, CMD_AUTHENTICATE, frags, i))
    ensures var data := TransferPacket(CMD_AUTHENTICATE, frags, acks, sequence, i);
            && StaysInside(data) && ReadsInside(data) && Handle(x, data).ack.Some?
            && var ack, r', x' := Handle(x, data).ack.value, Receive(r, data).0, Handle(x, data).x;
               && BridgeAck(DecodeHeader(data).header) == Some(ack.length)
               && ack.length == r'.len == x'.got
               && ack.remaining == x'.len - r'.len
  {
    hide Handle, Receive, TransferPacket, StaysInside, ReadsInside, DecodeHeader, BridgeAck, FirstComplete, Flatten;
    DataBeforeEnd(frags, i);
    AckReportsProgress(r, frags, acks, sequence, i);
    HandleFragment(x, CMD_AUTHENTICATE, frags, acks, sequence, i);
  }

  lemma DataBeforeEnd(frags: seq<seq<byte>>, i: nat)
    requires i < |frags| && frags[i] != []
    ensures i < FirstComplete(frags)
  {
    if FirstComplete(frags) <= i {
      NothingMore(frags, i);
    }
  }

  /**
   How they part: an empty fragment in the middle, an empty start packet
   included, completes a message for the probe and nothing for the bridge.
   */
  lemma EmptyFragmentSeparatesThem(r: Rx, x: Px, frags: seq<seq<byte>>, acks: seq<bool>, sequence: byte)
    requires IsFragmentation(frags) && |acks| == |frags| + 1 && r.Ok() && x.Ok()
    requires FirstEmpty(frags) < FirstComplete(frags)
    ensures var packets, z := Transfer(CMD_AUTHENTICATE, frags, acks, sequence), FirstEmpty(frags);
            && AllReadInside(packets) && AllStayInside(packets)
            && Feed(r, packets[..z + 1]).1 == []
            && HandleAll(x, packets[..z + 1]).1 == [Gatherable(frags)]
            && Gatherable(frags)[..|Flatten(frags[..z])|] == Flatten(frags[..z])
            && forall j | |Flatten(frags[..z])| <= j < |Gatherable(frags)| :: Gatherable(frags)[j] == 0
  {
    hide Transfer, HandleAll, Feed, AllReadInside, AllStayInside, FirstEmpty, FirstComplete, Flatten;
    TransferDelivers(r, frags, acks, sequence, FirstEmpty(frags) + 1);
    ProbeDelivers(x, CMD_AUTHENTICATE, frags, acks, sequence, FirstEmpty(frags) + 1);
  }

  // ----- the probe's state ----------------------------------------------------------------

  class Prober {
    var chunk: array?<byte>
    var chunkLen: nat
    var chunkGot: nat
    var chunkCmd: byte

    ghost predicate Valid()
      reads this, chunk
    {
      chunk != null ==> chunk.Length == chunkLen
    }

    ghost function View(): Px
      reads this, chunk
    {
      Px(if chunk == null then None else Some(chunk[..]), chunkLen, chunkGot, chunkCmd)
    }

    constructor ()
      ensures Valid() && chunk == null && chunkLen == chunkGot == 0
    {
      chunk, chunkLen, chunkGot, chunkCmd := null, 0, 0, 0;
    }

    method HandlePacket(data: seq<byte>) returns (done: Option<seq<byte>>, ack: Option<ProbeAck>)
      requires Valid() && ReadsInside(data)
      modifies this, chunk
      ensures Valid()
      ensures Handled(View(), done, ack) == Handle(old(View()), data)
    {
      hide StoreChunk, DecodeHeader;
      done, ack := None, None;
      var d := DecodeHeaderBytes(data);
      if d.TooShort? {
        return;
      }
      var h := d.header;
      var payloadLen := if d.length <= |data| then |data| - d.length else Wrap32(|data| - d.length);
      if payloadLen > h.packetLength {
        payloadLen := h.packetLength;
      }
      // Of a packet that its header runs past, nothing is read.
      var payload := if d.length <= |data| then data[d.length..d.length + payloadLen] else [];
      var offset := h.chunkOffset;
      if HasOption(h.options, OPT_CHUNK_START) {
        chunkLen, chunkGot, chunkCmd := h.chunkOffset, 0, h.command;
        chunk := new byte[chunkLen](_ => 0);
        offset := 0;
        assert chunk[..] == Zeros(h.chunkOffset);
      }
      if HasOption(h.options, OPT_ACKNOWLEDGE) {
        var l := offset + h.packetLength;
        var remaining := if HasOption(h.options, OPT_CHUNK) && chunk != null then (chunkLen - l) % 0x1_0000 else 0;
        ack := Some(ProbeAck(l % 0x1_0000, remaining));
      }
      done := Store(h, offset, payload);
    }

    /** The chunk branch of handle_packet. */
    method Store(h: Header, offset: nat, payload: seq<byte>) returns (done: Option<seq<byte>>)
      requires Valid() && offset == DataOffset(h)
      modifies this, chunk
      ensures Valid()
      ensures (View(), done) == StoreChunk(old(View()), h, payload)
    {
      done := None;
      if !HasOption(h.options, OPT_CHUNK) || chunk == null || h.command != chunkCmd {
        return;
      }
      if h.packetLength != 0 {
        if offset + |payload| <= chunkLen {
          forall k | 0 <= k < |payload| {
            chunk[offset + k] := payload[k];
          }
          chunkGot := offset + |payload|;
          assert chunk[..] == Overwrite(old(View()).chunk.value, offset, payload);
        }
        return;
      }
      done := Some(chunk[..]);
      chunk, chunkLen, chunkGot := null, 0, 0;
    }
  }
}
