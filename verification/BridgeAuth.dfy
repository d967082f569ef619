/** The bridge's own state for authentication traffic: file-scope buffers updated in place. */
module BridgeAuth {
  import opened Basics
  import opened Gip
  import opened AuthTransport
  import Sequence

  /** The first header takes at most 6 bytes, so the packet always fits and the source's size check never fires. */
  lemma FirstHeaderLength(h: Header)
    requires h.packetLength <= PKT_MAX_LENGTH && h.chunkOffset <= BUF_SIZE
    ensures EncodedLength(h) <= ENDPOINT_SIZE - PKT_MAX_LENGTH
  {
    VarintLengthBounds(h.packetLength);
    VarintLengthBounds(h.chunkOffset);
  }

  lemma PrefixOfOverwrite(buf: seq<byte>, p: seq<byte>)
    requires PKT_MAX_LENGTH <= |p| <= |buf|
    ensures Overwrite(buf, 0, p)[..PKT_MAX_LENGTH] == p[..PKT_MAX_LENGTH]
  {
  }

  class Sender {
    const outBuf: array<byte>
    var outLen: nat
    var outOff: nat
    var outTotal: nat
    var terminatorPending: bool
    var outSeq: byte
    var authSeq: byte

    // The endpoint behind gipusb_write.
    const accept: nat -> bool
    var attempts: nat
    var sent: seq<seq<byte>>

    ghost predicate Valid()
      reads this, outBuf
    {
      View().Ok()
    }

    ghost function View(): Tx
      reads this, outBuf
    {
      Tx(outBuf[..], outLen, outOff, outTotal, terminatorPending, outSeq, authSeq)
    }

    ghost function Wire(): Line
      reads this
    {
      Line(accept, attempts, sent)
    }

    /** The state after reset_counters. */
    constructor (accept: nat -> bool)
      ensures Valid() && fresh(outBuf)
      ensures outLen == outOff == outTotal == 0 && !terminatorPending && authSeq == 1
      ensures Wire() == Line(accept, 0, [])
    {
      outBuf := new byte[BUF_SIZE](_ => 0);
      outLen, outOff, outTotal := 0, 0, 0;
      terminatorPending := false;
      outSeq, authSeq := 0, 1;
      this.accept := accept;
      attempts, sent := 0, [];
    }

    method Write(buf: array<byte>, n: nat) returns (ok: bool)
      requires n <= buf.Length
      modifies `attempts, `sent
      ensures ok == old(Wire().Accepts())
      ensures Wire() == old(Wire()).Write(buf[..n])
    {
      ok := accept(attempts);
      attempts := attempts + 1;
      if ok {
        sent := sent + [buf[..n]];
      }
    }

    /** Header and payload, put together in the packet buffer. */
    static method BuildPacket(h: Header, payload: seq<byte>, buf: array<byte>) returns (n: nat)
      requires Encodable(h) && EncodedLength(h) + |payload| <= buf.Length
      modifies buf
      ensures n == EncodedLength(h) + |payload| && buf[..n] == HeaderBytes(h) + payload
    {
      hide HeaderBytes, EncodedLength, Encodable, VarintLength, Overwrite, WithHeader;
      ghost var before, header := buf[..], HeaderBytes(h);
      var hdrLen := EncodeHeader(h, buf, 0);
      CopyInto(payload, buf, hdrLen);
      OverwriteMore(before, 0, header, payload);
      Overwritten(before, 0, header + payload);
      n := hdrLen + |payload|;
    }

    /** The memcpy calls. */
    static method CopyInto(payload: seq<byte>, buf: array<byte>, at: nat)
      requires at + |payload| <= buf.Length
      modifies buf
      ensures buf[..] == Overwrite(old(buf[..]), at, payload)
    {
      forall k | 0 <= k < |payload| {
        buf[at + k] := payload[k];
      }
    }

    method TakeSequence() returns (s: byte)
      modifies `authSeq
      ensures Sequence.Draw(s, authSeq) == Sequence.DrawNonzero(old(authSeq))
    {
      s := authSeq;
      authSeq := (authSeq + 1) % 0x100;
      if s == 0 {
        s := authSeq;
        authSeq := (authSeq + 1) % 0x100;
      }
    }

    method AuthSend(payload: seq<byte>, acknowledge: bool) returns (ok: bool)
      requires Valid()
      modifies this, outBuf
      ensures Valid()
      ensures Sent(View(), Wire(), ok) == Send(old(View()), old(Wire()), payload, acknowledge)
    {
      hide FirstPacket, Overwrite, Sequence.DrawNonzero;
      ghost var t := View();
      var packetSeq := TakeSequence();
      if |payload| > BUF_SIZE {
        return false;
      }
      var buf := new byte[ENDPOINT_SIZE](_ => 0);
      var size := BuildFirst(payload, acknowledge, packetSeq, t, buf);
      if outLen != 0 {
        outOff := if |payload| > PKT_MAX_LENGTH then PKT_MAX_LENGTH else |payload|;
      }
      ok := Write(buf, size);
    }

    /** Keep a long message for its transfer, and put the first packet together. */
    method BuildFirst(payload: seq<byte>, acknowledge: bool, packetSeq: byte, ghost t: Tx, buf: array<byte>) returns (size: nat)
      requires Valid() && |payload| <= BUF_SIZE && buf != outBuf && buf.Length == ENDPOINT_SIZE
      requires t.Ok() && View() == t.(counter := authSeq)
      modifies this, outBuf, buf
      ensures Valid() && Wire() == old(Wire())
      ensures View() == if |payload| > PKT_MAX_LENGTH
                        then Tx(Overwrite(t.buf, 0, payload), |payload|, 0, |payload|, false, packetSeq, old(authSeq))
                        else old(View())
      ensures size <= ENDPOINT_SIZE && buf[..size] == FirstPacket(t, payload, acknowledge, packetSeq)
    {
      var options := OPT_INTERNAL + if acknowledge then OPT_ACKNOWLEDGE else 0;
      if |payload| > PKT_MAX_LENGTH {
        Keep(payload, packetSeq);
        PrefixOfOverwrite(t.buf, payload);
        var h := Header(CMD_AUTHENTICATE, options + OPT_CHUNK + OPT_CHUNK_START, packetSeq, PKT_MAX_LENGTH, |payload|);
        FirstHeaderLength(h);
        size := BuildPacket(h, outBuf[..PKT_MAX_LENGTH], buf);
      } else {
        var h := Header(CMD_AUTHENTICATE, options, packetSeq, |payload|, 0);
        FirstHeaderLength(h);
        var from := if |payload| == PKT_MAX_LENGTH && outLen != 0 then outBuf[..PKT_MAX_LENGTH] else payload;
        size := BuildPacket(h, from, buf);
      }
    }

    method Keep(payload: seq<byte>, packetSeq: byte)
      requires Valid() && |payload| <= BUF_SIZE
      modifies `outLen, `outOff, `outTotal, `terminatorPending, `outSeq, outBuf
      ensures Valid()
      ensures View() == Tx(Overwrite(old(outBuf[..]), 0, payload), |payload|, 0, |payload|, false, packetSeq, authSeq)
    {
      CopyInto(payload, outBuf, 0);
      outLen, outOff, outTotal := |payload|, 0, |payload|;
      terminatorPending := false;
      outSeq := packetSeq;
    }

    method AuthSendNextChunk(sequence: byte)
      requires Valid()
      modifies this
      ensures Valid()
      ensures (View(), Wire()) == Acknowledged(old(View()), old(Wire()), sequence)
    {
      var buf := new byte[ENDPOINT_SIZE](_ => 0);
      var used := if outSeq != 0 then outSeq else sequence;
      if outLen == 0 || outOff >= outLen {
        if terminatorPending {
          var h := Header(CMD_AUTHENTICATE, OPT_INTERNAL + OPT_CHUNK, used, 0, outTotal);
          VarintLengthBounds(outTotal);
          var size := BuildPacket(h, [], buf);
          assert buf[..size] == Terminator(View(), sequence);
          var ok := Write(buf, size);
          if ok {
            terminatorPending := false;
          }
        }
        return;
      }
      SendBurst(used, sequence, buf);
    }

    /** The loop of AuthSendNextChunk. */
    method SendBurst(used: byte, ghost sequence: byte, buf: array<byte>)
      requires Valid() && used == ContinuationSeq(View(), sequence)
      requires buf.Length == ENDPOINT_SIZE && buf != outBuf
      modifies this, buf
      ensures Valid()
      ensures (View(), Wire()) == Burst(old(View()), old(Wire()), sequence)
    {
      hide Continuation;
      while outOff < outLen
        invariant Valid() && used == ContinuationSeq(View(), sequence)
        invariant Burst(View(), Wire(), sequence) == Burst(old(View()), old(Wire()), sequence)
        decreases outLen - outOff
      {
        var ok := SendFragment(used, sequence, buf);
        if !ok {
          return;
        }
      }
      outLen := 0;
      terminatorPending := true;
    }

    /** One turn of the loop: the offset moves on only if the write is accepted. */
    method SendFragment(used: byte, ghost sequence: byte, buf: array<byte>) returns (ok: bool)
      requires Valid() && used == ContinuationSeq(View(), sequence) && outOff < outLen
      requires buf.Length == ENDPOINT_SIZE && buf != outBuf
      modifies `outOff, `attempts, `sent, buf
      ensures Valid()
      ensures ok == old(Wire().Accepts())
      ensures Wire() == old(Wire()).Write(Continuation(old(View()), sequence))
      ensures View() == if ok then old(View()).(off := old(outOff + ContinuationSize(View()))) else old(View())
    {
      hide Sequence.DrawNonzero, HeaderBytes, VarintLength;
      var n := outLen - outOff;
      if n > PKT_MAX_LENGTH {
        n := PKT_MAX_LENGTH;
      }
      var final := outOff + n == outLen;
      var options := OPT_INTERNAL + OPT_CHUNK + if final then OPT_ACKNOWLEDGE else 0;
      var h := Header(CMD_AUTHENTICATE, options, used, n, outOff);
      VarintLengthBounds(n);
      VarintLengthBounds(outOff);
      var size := BuildPacket(h, outBuf[outOff..outOff + n], buf);
      ok := Write(buf, size);
      if ok {
        outOff := outOff + n;
      }
    }
  }

  class Reassembler {
    const inBuf: array<byte>
    var inLen: nat
    var inTotal: nat

    ghost predicate Valid()
      reads this, inBuf
    {
      View().Ok()
    }

    ghost function View(): Rx
      reads this, inBuf
    {
      Rx(inBuf[..], inLen, inTotal)
    }

    constructor ()
      ensures Valid() && fresh(inBuf) && inLen == inTotal == 0
    {
      inBuf := new byte[BUF_SIZE](_ => 0);
      inLen, inTotal := 0, 0;
    }

    /** The AUTHENTICATE branch of on_rx and its acknowledgement; `message` is what goes to gip_auth_process. */
    method OnRx(data: seq<byte>) returns (message: Option<seq<byte>>, ack: Option<nat>)
      requires Valid() && StaysInside(data)
      modifies this, inBuf
      ensures Valid()
      ensures (View(), message) == Receive(old(View()), data)
      ensures ack == if DecodeHeader(data).Decoded? then BridgeAck(DecodeHeader(data).header) else None
    {
      hide DecodeHeader, ReceiveChunk, HasOption;
      var d := DecodeHeaderBytes(data);
      message, ack := None, None;
      if d.TooShort? {
        return;
      }
      var h := d.header;
      if h.command == CMD_AUTHENTICATE {
        if d.length > |data| {
          // The payload length wraps to one that is not 0 and, by StaysInside, does not fit the buffer.
          OpenTransfer(h);
        } else if HasOption(h.options, OPT_CHUNK) {
          message := StoreChunk(h, data[d.length..]);
        } else if d.length < |data| {
          message := Some(data[d.length..]);
        }
      }
      if HasOption(h.options, OPT_ACKNOWLEDGE) {
        var l := if HasOption(h.options, OPT_CHUNK_START) then h.packetLength else h.chunkOffset + h.packetLength;
        ack := Some(l % 0x1_0000);
      }
    }

    method OpenTransfer(h: Header)
      requires Valid()
      modifies `inLen, `inTotal
      ensures Valid() && View() == Opened(old(View()), h)
    {
      if HasOption(h.options, OPT_CHUNK_START) {
        inTotal := h.chunkOffset;
        inLen := 0;
      }
    }

    /** The chunk branch: copy the fragment, and hand the message over at the empty packet that ends it. */
    method StoreChunk(h: Header, p: seq<byte>) returns (message: Option<seq<byte>>)
      requires Valid()
      modifies this, inBuf
      ensures Valid() && (View(), message) == ReceiveChunk(old(View()), h, p)
    {
      hide HasOption;
      var plen, offset := |p|, if HasOption(h.options, OPT_CHUNK_START) then 0 else h.chunkOffset;
      OpenTransfer(h);
      ghost var start := View();
      if offset + plen <= BUF_SIZE {
        forall k | 0 <= k < plen {
          inBuf[offset + k] := p[k];
        }
        if offset + plen > inLen {
          inLen := offset + plen;
        }
        assert inBuf[..] == Overwrite(start.buf, offset, p);
      }
      message := None;
      if plen == 0 && inTotal != 0 && offset == inTotal && inLen == inTotal {
        message := Some(inBuf[..inTotal]);
        inTotal, inLen := 0, 0;
      }
    }
  }
}
