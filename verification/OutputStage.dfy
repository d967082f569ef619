/** The static state of fill_out_xfer and the loops that fill a transfer. */
module OutputStage {
  import opened Basics
  import opened Gip
  import opened RingModel
  import opened Playback
  import opened AudioPackets
  import opened StereoPlayback
  import Sequence

  /** Channel `c` of an interleaved buffer. */
  function LaneOf(samples: seq<real>, c: nat): (lane: seq<real>)
    requires c < OUT_CHANNELS
    ensures |lane| == |samples| / 2
  {
    seq(|samples| / 2, i requires 0 <= i < |samples| / 2 => samples[2 * i + c])
  }

  lemma ScratchIsRawBlock(q: Queue<Stereo>, samples: seq<real>, c: nat)
    requires q.Ok() && |samples| == 2 * XFER_FRAMES && c < OUT_CHANNELS
    requires var block := Deliver(q, XFER_FRAMES);
             Frames(samples, XFER_FRAMES) == block + seq(XFER_FRAMES - |block|, _ => SILENCE)
    ensures LaneOf(samples, c) == RawBlock(LaneQueue(q, c))
  {
    LaneDeliver(q, c, XFER_FRAMES);
    var lane, raw := LaneOf(samples, c), RawBlock(LaneQueue(q, c));
    hide Deliver, AfterRead, Skipped;
    var block := Deliver(q, XFER_FRAMES);
    forall i | 0 <= i < XFER_FRAMES ensures lane[i] == raw[i] {
      var f := Frames(samples, XFER_FRAMES)[i];
      assert lane[i] == Side(f, c);
      if i < |block| {
        assert LaneHist(block, c)[i] == Side(block[i], c);
      }
    }
  }

  lemma FillLane(s: Stage, c: nat)
    requires s.q.Ok() && c < OUT_CHANNELS
    ensures Fill(s.Lane(c)).1.out
         == Smooth(RawBlock(LaneQueue(s.q, c)), |Deliver(s.q, XFER_FRAMES)|,
                   Skipped(s.q, XFER_FRAMES) || s.prevShort, Side(s.last, c))
  {
    hide Fill, Smooth, RawBlock, Deliver, Skipped, AfterRead, FadedIn, FadeFrom;
    LaneDeliver(s.q, c, XFER_FRAMES);
    FillFields(s.Lane(c));
    FillEmits(s.Lane(c));
  }

  lemma LastFrame(samples: seq<real>)
    requires |samples| == OUT_CHANNELS * XFER_FRAMES
    ensures Frames(samples, XFER_FRAMES)[XFER_FRAMES - 1]
         == Stereo(samples[(XFER_FRAMES - 1) * OUT_CHANNELS], samples[(XFER_FRAMES - 1) * OUT_CHANNELS + 1])
  {
  }

  /** Two channels make the frames of a transfer. */
  lemma FramesFromLanes(s: Stage, samples: seq<real>)
    requires s.q.Ok() && |samples| == OUT_CHANNELS * XFER_FRAMES
    requires forall c | 0 <= c < OUT_CHANNELS :: LaneOf(samples, c) == Fill(s.Lane(c)).1.out
    ensures Frames(samples, XFER_FRAMES) == FilledFrames(s)
  {
    hide Fill;
    assert LaneOf(samples, 0) == Fill(s.Lane(0)).1.out && LaneOf(samples, 1) == Fill(s.Lane(1)).1.out;
    var frames := Frames(samples, XFER_FRAMES);
    forall i | 0 <= i < XFER_FRAMES ensures frames[i] == FilledFrames(s)[i] {
      assert frames[i] == Stereo(LaneOf(samples, 0)[i], LaneOf(samples, 1)[i]);
    }
  }

  /** The inner loop of declick, for channel `c`. */
  method FadeLane(buf: array<real>, start: nat, end: nat, from: real, c: nat)
    requires start < end && 2 * end <= buf.Length && c < OUT_CHANNELS
    modifies buf
    ensures LaneOf(buf[..], c) == Faded(old(LaneOf(buf[..], c)), start, end, from)
    ensures LaneOf(buf[..], 1 - c) == old(LaneOf(buf[..], 1 - c))
  {
    hide LaneOf, Faded;
    var n := if end - start < DECLICK_FRAMES then end - start else DECLICK_FRAMES;
    var offset := from - buf[start * OUT_CHANNELS + c];
    ghost var before := buf[..];
    for i := 0 to n
      invariant forall j | 0 <= j < buf.Length :: buf[j] == FadedSample(before, start, i, n, offset, c, j)
    {
      var at, share := (start + i) * OUT_CHANNELS + c, offset * ((n - i) as real) / ((n + 1) as real);
      assert share == Ramp(offset, n, i);
      hide Ramp;
      assert at / 2 == start + i && at % 2 == c;
      assert buf[at] == FadedSample(before, start, i, n, offset, c, at) == before[at];
      buf[at] := buf[at] + share;
    }
    FadedLanes(before, buf[..], start, end, from, c);
  }

  /** Sample `j` of an interleaved buffer after `i` of `n` frames of channel `c` have been faded. */
  ghost function FadedSample(s: seq<real>, start: nat, i: nat, n: nat, offset: real, c: nat, j: nat): real
    requires j < |s| && i <= n
  {
    if j % 2 == c && start <= j / 2 < start + i then s[j] + Ramp(offset, n, j / 2 - start) else s[j]
  }

  lemma FadedLanes(s: seq<real>, r: seq<real>, start: nat, end: nat, from: real, c: nat)
    requires start < end && 2 * end <= |s| && |r| == |s| && c < OUT_CHANNELS
    requires var n := FadeLength(start, end);
             forall j | 0 <= j < |s| :: r[j] == FadedSample(s, start, n, n, from - s[2 * start + c], c, j)
    ensures LaneOf(r, c) == Faded(LaneOf(s, c), start, end, from)
    ensures LaneOf(r, 1 - c) == LaneOf(s, 1 - c)
  {
    hide Ramp, FadeLength;
    var n, offset := FadeLength(start, end), from - s[2 * start + c];
    forall k | 0 <= k < |s| / 2
      ensures LaneOf(r, c)[k] == Faded(LaneOf(s, c), start, end, from)[k] && LaneOf(r, 1 - c)[k] == LaneOf(s, 1 - c)[k]
    {
      assert r[2 * k + c] == FadedSample(s, start, n, n, offset, c, 2 * k + c);
      assert r[2 * k + (1 - c)] == FadedSample(s, start, n, n, offset, c, 2 * k + (1 - c));
      assert (2 * k + c) / 2 == k && (2 * k + c) % 2 == c && (2 * k + (1 - c)) % 2 == 1 - c;
    }
  }

  /** Remove a step at frame `start` of an interleaved buffer. */
  method Declick(buf: array<real>, start: nat, end: nat, from: Stereo)
    requires start < end && 2 * end <= buf.Length
    modifies buf
    ensures forall c | 0 <= c < OUT_CHANNELS :: LaneOf(buf[..], c) == Faded(old(LaneOf(buf[..], c)), start, end, Side(from, c))
  {
    ghost var left, right := LaneOf(buf[..], 0), LaneOf(buf[..], 1);
    for c := 0 to OUT_CHANNELS
      invariant LaneOf(buf[..], 0) == if c > 0 then Faded(left, start, end, from.left) else left
      invariant LaneOf(buf[..], 1) == if c > 1 then Faded(right, start, end, from.right) else right
    {
      FadeLane(buf, start, end, Side(from, c), c);
    }
  }

  /** One sample as 16-bit PCM at byte `at`. */
  method StoreSample(buf: array<byte>, at: nat, sample: real)
    requires at + 2 <= buf.Length
    modifies buf
    ensures buf[..] == Overwrite(old(buf[..]), at, Le16(ToS16(sample)))
  {
    var v := sample;
    if v > 1.0 {
      v := 1.0;
    } else if v < -1.0 {
      v := -1.0;
    }
    var s := Truncate(v * 32767.0);
    buf[at], buf[at + 1] := s % 0x100, s / 0x100 % 0x100;
  }

  /** The four bytes of one frame. */
  function FramePcm(f: Stereo): (b: seq<byte>)
    ensures |b| == 4
  {
    Le16(ToS16(f.left)) + Le16(ToS16(f.right))
  }

  lemma PcmMore(frames: seq<Stereo>, f: Stereo)
    ensures PcmBytes(frames + [f]) == PcmBytes(frames) + FramePcm(f)
  {
    PcmJoin(frames, [f]);
    hide Le16, ToS16;
    assert PcmBytes([f]) == FramePcm(f);
  }

  /** The channel loop: frame `frame` of the scratch buffer at byte `at`. */
  method StoreFrame(scratch: array<real>, frame: nat, buf: array<byte>, at: nat)
    requires 2 * (frame + 1) <= scratch.Length && at + 4 <= buf.Length
    modifies buf
    ensures buf[..] == Overwrite(old(buf[..]), at, FramePcm(Stereo(scratch[2 * frame], scratch[2 * frame + 1])))
  {
    hide ToS16, Le16, Overwrite;
    ghost var before, left, right := buf[..], Le16(ToS16(scratch[2 * frame])), Le16(ToS16(scratch[2 * frame + 1]));
    OverwriteNothing(before, at);
    for c := 0 to OUT_CHANNELS
      invariant buf[..] == Overwrite(before, at, if c == 0 then [] else if c == 1 then left else left + right)
    {
      StoreSample(buf, at + 2 * c, scratch[frame * OUT_CHANNELS + c]);
      OverwriteMore(before, at, left, right);
    }
  }

  /** The frame loop of one packet: `count` frames from frame `first` on. */
  method StoreFrames(scratch: array<real>, first: nat, count: nat, buf: array<byte>, at: nat)
    requires 2 * (first + count) <= scratch.Length && at + 4 * count <= buf.Length
    modifies buf
    ensures buf[..] == Overwrite(old(buf[..]), at, PcmBytes(Frames(scratch[..], first + count)[first..]))
  {
    hide PcmBytes, FramePcm, Frames, Overwrite;
    ghost var before, frames := buf[..], Frames(scratch[..], first + count)[first..];
    OverwriteNothing(before, at);
    NoPcm(frames);
    for i := 0 to count
      invariant buf[..] == Overwrite(before, at, PcmBytes(frames[..i]))
    {
      StoreFrame(scratch, first + i, buf, at + 4 * i);
      NextPcm(scratch[..], first, count, i);
      OverwriteMore(before, at, PcmBytes(frames[..i]), FramePcm(frames[i]));
    }
    NoPcm(frames);
  }

  lemma NoPcm(frames: seq<Stereo>)
    ensures PcmBytes(frames[..0]) == [] && frames[..|frames|] == frames
  {
  }

  lemma NextPcm(samples: seq<real>, first: nat, count: nat, i: nat)
    requires 2 * (first + count) <= |samples| && i < count
    ensures var frames := Frames(samples, first + count)[first..];
            && frames[i] == Stereo(samples[2 * (first + i)], samples[2 * (first + i) + 1])
            && PcmBytes(frames[..i + 1]) == PcmBytes(frames[..i]) + FramePcm(frames[i])
  {
    var frames := Frames(samples, first + count)[first..];
    assert frames[..i + 1] == frames[..i] + [frames[i]];
    PcmMore(frames[..i], frames[i]);
    hide PcmBytes, FramePcm;
  }

  lemma FramesOfPart(samples: seq<real>, first: nat, count: nat, n: nat)
    requires 2 * n <= |samples| && first + count <= n
    ensures Frames(samples, first + count)[first..] == Frames(samples, n)[first..first + count]
  {
  }

  class OutputStage {
    const ring: Ring
    const scratch: array<real>
    var last: Stereo
    var prevShort: bool
    var audioSeq: byte
    var framesOut: nat
    var underruns: nat

    ghost predicate Valid()
      reads this, ring, ring.outData, ring.inData
    {
      ring.Valid() && scratch.Length == OUT_CHANNELS * XFER_FRAMES && scratch != ring.outData && scratch != ring.inData
    }

    ghost function View(): Stage
      reads this, ring
    {
      Stage(ring.Out(), last, prevShort, audioSeq)
    }

    constructor (ring: Ring)
      requires ring.Valid()
      ensures Valid() && this.ring == ring && fresh(scratch)
      ensures last == SILENCE && !prevShort && audioSeq == 1
    {
      this.ring := ring;
      scratch := new real[OUT_CHANNELS * XFER_FRAMES](_ => 0.0);
      last, prevShort, audioSeq := SILENCE, false, 1;
      framesOut, underruns := 0, 0;
    }

    /** The do-while that takes the next nonzero sequence number. */
    method TakeSequence() returns (s: byte)
      modifies `audioSeq
      ensures Sequence.Draw(s, audioSeq) == Sequence.DrawNonzero(old(audioSeq))
    {
      s := audioSeq;
      audioSeq := (audioSeq + 1) % 0x100;
      while s == 0
        invariant audioSeq == Sequence.Bump(s)
        invariant s == old(audioSeq) || (old(audioSeq) == 0 && s == 1)
        decreases if s == 0 then 1 else 0
      {
        s := audioSeq;
        audioSeq := (audioSeq + 1) % 0x100;
      }
    }

    /** Packet `p` of the transfer buffer. */
    method PackPacket(buf: array<byte>, p: nat, ghost counter: byte)
      requires Valid() && buf.Length == OUT_PACKET_SIZE * AUDIO_PKTS && p < AUDIO_PKTS
      requires audioSeq == CounterAfter(counter, p)
      modifies `audioSeq, buf
      ensures Valid() && audioSeq == CounterAfter(counter, p + 1)
      ensures buf[..] == Overwrite(old(buf[..]), OUT_PACKET_SIZE * p, AudioPacket(Frames(scratch[..], XFER_FRAMES), counter, p))
    {
      hide PcmBytes, HeaderBytes, EncodedLength, Sequence.DrawNonzero, Frames, Overwrite, WithHeader;
      ghost var before := buf[..];
      var at := p * OUT_PACKET_SIZE;
      var sequence := TakeSequence();
      var hdr := Header(CMD_AUDIO_SAMPLES, OPT_INTERNAL, sequence, OUT_FRAG_SIZE, 0);
      AudioHeaderLength(sequence);
      var hdrLen := EncodeHeader(hdr, buf, at);
      StoreFrames(scratch, FRAG_FRAMES * p, FRAG_FRAMES, buf, at + hdrLen);
      FramesOfPart(scratch[..], FRAG_FRAMES * p, FRAG_FRAMES, XFER_FRAMES);
      OverwriteMore(before, at, HeaderBytes(hdr), PcmBytes(PacketFrames(Frames(scratch[..], XFER_FRAMES), p)));
    }

    /** The packet loop. */
    method PackTransfer(buf: array<byte>)
      requires Valid() && buf.Length == OUT_PACKET_SIZE * AUDIO_PKTS
      modifies `audioSeq, buf
      ensures Valid()
      ensures buf[..] == XferBytes(Frames(scratch[..], XFER_FRAMES), old(audioSeq), AUDIO_PKTS)
      ensures audioSeq == CounterAfter(old(audioSeq), AUDIO_PKTS)
    {
      hide AudioPacket, Overwrite, Frames;
      ghost var before, out, counter := buf[..], Frames(scratch[..], XFER_FRAMES), audioSeq;
      OverwriteNothing(before, 0);
      for p := 0 to AUDIO_PKTS
        invariant Valid() && audioSeq == CounterAfter(counter, p)
        invariant buf[..] == Overwrite(before, 0, XferBytes(out, counter, p))
      {
        PackPacket(buf, p, counter);
        OverwriteMore(before, 0, XferBytes(out, counter, p), AudioPacket(out, counter, p));
      }
      Overwritten(before, 0, XferBytes(out, counter, AUDIO_PKTS));
    }

    /** One step of the stage; a run of transfers and ring writes is a run of PlayStage. */
    method FillOutXfer(buf: array<byte>)
      requires Valid() && buf.Length == OUT_PACKET_SIZE * AUDIO_PKTS
      modifies this, ring`outRead, scratch, buf
      ensures Valid() && ring.In() == old(ring.In())
      ensures View() == FillStage(old(View())).0
      ensures buf[..] == FillStage(old(View())).1.bytes
      ensures var got := FillStage(old(View())).1.got;
              && framesOut == old(framesOut) + got
              && underruns == old(underruns) + if got < XFER_FRAMES && ring.outIoRunning then 1 else 0
    {
      hide FilledFrames, XferBytes, CounterAfter, Deliver, Skipped, AfterRead;
      var got := PlayFrames();
      if got < XFER_FRAMES && ring.outIoRunning {
        underruns := underruns + 1;
      }
      framesOut := framesOut + got;
      PackTransfer(buf);
    }

    /** The first half of fill_out_xfer: read the ring and fade across breaks. */
    method PlayFrames() returns (got: nat)
      requires Valid()
      modifies `last, `prevShort, ring`outRead, scratch
      ensures Valid() && ring.In() == old(ring.In())
      ensures View() == FillStage(old(View())).0.(counter := audioSeq)
      ensures Frames(scratch[..], XFER_FRAMES) == FilledFrames(old(View()))
      ensures got == FillStage(old(View())).1.got
    {
      ghost var s := View();
      var before := ring.outRead;
      got := ring.OutRead(scratch, XFER_FRAMES);
      var skipped := ring.outRead != before + got;
      assert skipped == Skipped(s.q, XFER_FRAMES);
      hide Fill, Smooth, RawBlock, Deliver, Skipped, AfterRead, ReadPlan, LaneOf, XferBytes, CounterAfter, FilledFrames, Frames, LaneQueue;
      ghost var raw := scratch[..];
      FadeBreaks(got, skipped);
      forall c | 0 <= c < OUT_CHANNELS
        ensures LaneOf(scratch[..], c) == Fill(s.Lane(c)).1.out
      {
        ScratchIsRawBlock(s.q, raw, c);
        FillLane(s, c);
      }
      FramesFromLanes(s, scratch[..]);
      LastFrame(scratch[..]);
    }

    method FadeBreaks(got: nat, skipped: bool)
      requires scratch.Length == OUT_CHANNELS * XFER_FRAMES && got <= XFER_FRAMES
      modifies `last, `prevShort, scratch
      ensures forall c | 0 <= c < OUT_CHANNELS ::
                var out := Smooth(old(LaneOf(scratch[..], c)), got, skipped || old(prevShort), Side(old(last), c));
                LaneOf(scratch[..], c) == out
      ensures prevShort == (got < XFER_FRAMES)
      ensures last == Stereo(scratch[(XFER_FRAMES - 1) * OUT_CHANNELS], scratch[(XFER_FRAMES - 1) * OUT_CHANNELS + 1])
    {
      hide Faded;
      if got > 0 && (skipped || prevShort) {
        Declick(scratch, 0, got, last);
      }
      assert forall c | 0 <= c < OUT_CHANNELS ::
               LaneOf(scratch[..], c) == FadedIn(old(LaneOf(scratch[..], c)), got, skipped || old(prevShort), Side(old(last), c));
      if got < XFER_FRAMES {
        var from := if got > 0 then Stereo(scratch[(got - 1) * OUT_CHANNELS], scratch[(got - 1) * OUT_CHANNELS + 1]) else last;
        assert forall c | 0 <= c < OUT_CHANNELS :: Side(from, c) == FadeFrom(LaneOf(scratch[..], c), got, Side(last, c));
        Declick(scratch, got, XFER_FRAMES, from);
      }
      prevShort := got < XFER_FRAMES;
      last := Stereo(scratch[(XFER_FRAMES - 1) * OUT_CHANNELS], scratch[(XFER_FRAMES - 1) * OUT_CHANNELS + 1]);
    }
  }
}
