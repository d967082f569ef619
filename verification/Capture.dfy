/** The capture path: 24 kHz mono packets from the headset become 48 kHz samples in the capture ring. */
module Capture {
  import opened Basics
  import opened Gip
  import opened RingModel
  import opened AudioPackets

  const MIC_SAMPLES_MAX: nat := 64
  const OUT_BUF: nat := 2 * MIC_SAMPLES_MAX

  /** Bytes before the PCM data of an audio payload. */
  const SAMPLES_HEADER: nat := 2

  // ----- upsampling -------------------------------------------------------------------

  function Level(s: int): real {
    s as real / 32767.0
  }

  /** The conversion of the playback path takes every level back to its sample, but for the lowest, which it clips. */
  lemma LevelRoundTrip(s: int)
    requires -32768 <= s <= 32767
    ensures ToS16(Level(s)) == if s == -32768 then -32767 else s
  {
  }

  /** The sample after sample `i`; the last one is held. */
  function NextSample(samples: seq<int>, i: nat): int
    requires i < |samples|
  {
    if i + 1 < |samples| then samples[i + 1] else samples[i]
  }

  function Midpoint(samples: seq<int>, i: nat): real
    requires i < |samples|
  {
    (Level(samples[i]) + Level(NextSample(samples, i))) * 0.5
  }

  function UpsampledCount(n: nat): nat {
    Min(2 * n, OUT_BUF)
  }

  function Upsampled(samples: seq<int>): (out: seq<real>)
    ensures |out| == UpsampledCount(|samples|)
  {
    seq(UpsampledCount(|samples|), k requires 0 <= k < UpsampledCount(|samples|) =>
      if k % 2 == 0 then Level(samples[k / 2]) else Midpoint(samples, k / 2))
  }

  /** Every other sample. */
  function Decimated(s: seq<real>): seq<real> {
    seq((|s| + 1) / 2, i requires 0 <= i < (|s| + 1) / 2 => s[2 * i])
  }

  function Levels(samples: seq<int>): seq<real> {
    seq(|samples|, i requires 0 <= i < |samples| => Level(samples[i]))
  }

  /** Decimation undoes upsampling, up to the 64 samples a packet may bring. */
  lemma DecimationInverts(samples: seq<int>)
    ensures Decimated(Upsampled(samples)) == Levels(samples)[..Min(|samples|, MIC_SAMPLES_MAX)]
  {
    var out, n := Upsampled(samples), Min(|samples|, MIC_SAMPLES_MAX);
    forall i | 0 <= i < n ensures Decimated(out)[i] == Levels(samples)[i] {
      assert 2 * i / 2 == i && 2 * i % 2 == 0;
    }
  }

  /**
   An inserted sample lies halfway between its neighbours. The last one repeats
   the sample before it, unless the packet holds more than the 64 samples that
   go out; then it lies halfway to the first one that does not.
   */
  lemma InsertedSamples(samples: seq<int>, k: nat)
    requires k < |Upsampled(samples)| && k % 2 == 1
    ensures var out := Upsampled(samples);
            && (k + 1 < |out| ==> out[k] == (out[k - 1] + out[k + 1]) * 0.5)
            && (k + 1 == |out| && |samples| <= MIC_SAMPLES_MAX ==> out[k] == out[k - 1])
            && (k + 1 == |out| && |samples| > MIC_SAMPLES_MAX ==>
                  k == OUT_BUF - 1 && out[k] == (out[k - 1] + Level(samples[MIC_SAMPLES_MAX])) * 0.5)
  {
    assert (k - 1) / 2 == k / 2 && (k - 1) % 2 == 0;
    assert (k + 1) / 2 == k / 2 + 1 && (k + 1) % 2 == 0;
  }

  /** In numbers: 48 kHz samples of the first 64 inputs, each as it is and then halfway to the next, the last input held. */
  lemma UpsampledInNumbers(samples: seq<int>, i: nat)
    ensures |Upsampled(samples)| == if |samples| < 64 then 2 * |samples| else 128
    ensures i < |samples| && i < 64 ==>
              && Upsampled(samples)[2 * i] * 32767.0 == samples[i] as real
              && Upsampled(samples)[2 * i + 1] * 65534.0
                 == (samples[i] + if i + 1 < |samples| then samples[i + 1] else samples[i]) as real
  {
    if i < |samples| && i < 64 {
      assert 2 * i / 2 == i && 2 * i % 2 == 0 && (2 * i + 1) / 2 == i && (2 * i + 1) % 2 == 1;
    }
  }

  /** No output leaves the range of the input. */
  lemma UpsampledRange(samples: seq<int>, lo: int, hi: int)
    requires forall i | 0 <= i < |samples| :: lo <= samples[i] <= hi
    ensures forall k | 0 <= k < |Upsampled(samples)| :: Level(lo) <= Upsampled(samples)[k] <= Level(hi)
  {
    forall k | 0 <= k < |Upsampled(samples)| ensures Level(lo) <= Upsampled(samples)[k] <= Level(hi) {
      var a, b := samples[k / 2], NextSample(samples, k / 2);
      assert lo <= a <= hi && lo <= b <= hi;
    }
  }

  // ----- packets ------------------------------------------------------------------------

  function SamplesOf(pcm: seq<byte>): (samples: seq<int>)
    ensures |samples| == |pcm| / 2
  {
    seq(|pcm| / 2, i requires 0 <= i < |pcm| / 2 => FromLe16(pcm[2 * i], pcm[2 * i + 1]))
  }

  /** The samples of a received packet; none if it is not a complete audio packet. Padding after the payload is ignored. */
  function MicSamples(data: seq<byte>): seq<int> {
    match DecodeHeader(data)
    case TooShort => []
    case Decoded(h, n) =>
      if h.command != CMD_AUDIO_SAMPLES then []
      else if n > |data| || h.packetLength > |data| - n || h.packetLength < SAMPLES_HEADER then []
      else SamplesOf(data[n + SAMPLES_HEADER..n + h.packetLength])
  }

  /**
   Which packets are audio, and their samples: command 60, a header and a payload
   that lie inside the packet, at least the two bytes before the samples, and
   then two bytes for each, low byte first.
   */
  lemma MicInNumbers(data: seq<byte>)
    ensures |data| < 4 ==> MicSamples(data) == []
    ensures |data| >= 4 ==>
              var Decoded(h, n) := DecodeHeader(data);
              if h.command == 0x60 && n + h.packetLength <= |data| && h.packetLength >= 2
              then
                && |MicSamples(data)| == (h.packetLength - 2) / 2
                && forall i | 0 <= i < (h.packetLength - 2) / 2 ::
                     && Congruent(MicSamples(data)[i], data[n + 2 + 2 * i], data[n + 3 + 2 * i])
                     && -32768 <= MicSamples(data)[i] <= 32767
              else MicSamples(data) == []
  {
    hide DecodeHeader, Congruent, SamplesOf;
    if |data| >= 4 {
      var Decoded(h, n) := DecodeHeader(data);
      if h.command == 0x60 && n + h.packetLength <= |data| && h.packetLength >= 2 {
        assert MicSamples(data) == SamplesOf(data[n + 2..n + h.packetLength]);
        SamplesInNumbers(data, n + 2, n + h.packetLength);
      }
    }
  }

  lemma SamplesInNumbers(data: seq<byte>, from: nat, to: nat)
    requires from <= to <= |data|
    ensures |SamplesOf(data[from..to])| == (to - from) / 2
    ensures forall i | 0 <= i < (to - from) / 2 ::
              && Congruent(SamplesOf(data[from..to])[i], data[from + 2 * i], data[from + 1 + 2 * i])
              && -32768 <= SamplesOf(data[from..to])[i] <= 32767
  {
    hide FromLe16, Congruent;
    forall i | 0 <= i < (to - from) / 2
      ensures Congruent(SamplesOf(data[from..to])[i], data[from + 2 * i], data[from + 1 + 2 * i])
              && -32768 <= SamplesOf(data[from..to])[i] <= 32767
    {
      LittleEndian(0, data[from + 2 * i], data[from + 1 + 2 * i]);
    }
  }

  function PcmOf(samples: seq<int>): (pcm: seq<byte>)
    ensures |pcm| == 2 * |samples|
  {
    seq(2 * |samples|, k requires 0 <= k < 2 * |samples| => Le16(samples[k / 2])[k % 2])
  }

  /** A headset's audio packet: two bytes of metadata and the samples, then padding. */
  function MicPacket(sequence: byte, options: byte, meta: seq<byte>, samples: seq<int>, padding: seq<byte>): seq<byte>
    requires |meta| == SAMPLES_HEADER && SAMPLES_HEADER + 2 * |samples| < VARINT_LIMIT
    requires !HasOption(options, OPT_CHUNK)
  {
    HeaderBytes(Header(CMD_AUDIO_SAMPLES, options, sequence, SAMPLES_HEADER + 2 * |samples|, 0)) + meta + PcmOf(samples) + padding
  }

  predicate Are16Bit(samples: seq<int>) {
    forall i | 0 <= i < |samples| :: -0x8000 <= samples[i] < 0x8000
  }

  lemma SamplesRoundTrip(samples: seq<int>)
    requires Are16Bit(samples)
    ensures SamplesOf(PcmOf(samples)) == samples
  {
    forall i | 0 <= i < |samples| ensures SamplesOf(PcmOf(samples))[i] == samples[i] {
      Le16RoundTrip(samples[i]);
      hide Le16, FromLe16;
      assert 2 * i / 2 == i && 2 * i % 2 == 0 && (2 * i + 1) / 2 == i && (2 * i + 1) % 2 == 1;
    }
  }

  /** Whatever samples a headset packs, they come out as they went in. */
  lemma MicRoundTrip(sequence: byte, options: byte, meta: seq<byte>, samples: seq<int>, padding: seq<byte>)
    requires |meta| == SAMPLES_HEADER && SAMPLES_HEADER + 2 * |samples| < VARINT_LIMIT
    requires !HasOption(options, OPT_CHUNK) && Are16Bit(samples)
    ensures MicSamples(MicPacket(sequence, options, meta, samples, padding)) == samples
  {
    hide HeaderBytes, DecodeHeader, PcmOf, SamplesOf, HasOption, Are16Bit;
    var h := Header(CMD_AUDIO_SAMPLES, options, sequence, SAMPLES_HEADER + 2 * |samples|, 0);
    HeaderRoundTrip(h, meta + PcmOf(samples) + padding);
    PcmInside(HeaderBytes(h), meta, PcmOf(samples), padding);
    SamplesRoundTrip(samples);
  }

  lemma PcmInside(header: seq<byte>, meta: seq<byte>, pcm: seq<byte>, padding: seq<byte>)
    ensures header + meta + pcm + padding == header + (meta + pcm + padding)
    ensures (header + meta + pcm + padding)[|header| + |meta|..|header| + |meta| + |pcm|] == pcm
  {
  }

  // ----- through the ring -----------------------------------------------------------------

  /** The capture queue after packets have been processed in order. */
  function Captured(q: Queue<real>, packets: seq<seq<byte>>): Queue<real> {
    if packets == [] then q
    else AfterWrite(Captured(q, packets[..|packets| - 1]), Upsampled(MicSamples(packets[|packets| - 1])))
  }

  function Blocks(packets: seq<seq<byte>>): (blocks: seq<seq<real>>)
    ensures |blocks| == |packets|
  {
    seq(|packets|, i requires 0 <= i < |packets| => Upsampled(MicSamples(packets[i])))
  }

  lemma LastBlock(packets: seq<seq<byte>>)
    requires packets != []
    ensures Flatten(Blocks(packets)) ==
            Flatten(Blocks(packets[..|packets| - 1])) + Upsampled(MicSamples(packets[|packets| - 1]))
  {
    assert Blocks(packets)[..|packets| - 1] == Blocks(packets[..|packets| - 1]);
  }

  lemma {:induction false} CapturedHistory(q: Queue<real>, packets: seq<seq<byte>>)
    ensures Captured(q, packets) == Queue(q.hist + Flatten(Blocks(packets)), q.rd)
  {
    if packets == [] {
      assert Flatten(Blocks(packets)) == [];
      assert q.hist + [] == q.hist;
    } else {
      var init, block := packets[..|packets| - 1], Upsampled(MicSamples(packets[|packets| - 1]));
      CapturedHistory(q, init);
      LastBlock(packets);
      hide Flatten, Upsampled, MicSamples, Blocks;
      Reassociate(q.hist, Flatten(Blocks(init)), block);
    }
  }

  lemma Reassociate<T>(a: seq<T>, b: seq<T>, c: seq<T>)
    ensures a + (b + c) == (a + b) + c
  {
  }

  /** A read that neither trims nor skips takes the waiting samples from the front. */
  lemma PlainRead(q: Queue<real>, frames: nat)
    requires q.Ok() && !Lapped(q) && RingTrim(q.Backlog(), frames) == 0
    ensures Deliver(q, frames) == q.Waiting()[..Min(frames, q.Backlog())]
  {
    ReadIsFaithful(q, frames);
    hide Deliver;
  }

  /**
   With no trim and no lap, a read after any number of packets returns what was
   waiting and then the packets' blocks in arrival order, as far as it reaches.
   */
  lemma CaptureInOrder(q: Queue<real>, packets: seq<seq<byte>>, frames: nat)
    requires q.Ok()
    requires var backlog := Captured(q, packets).Backlog();
             backlog <= RING_FRAMES && RingTrim(Max(0, backlog), frames) == 0
    ensures Captured(q, packets).Ok()
    ensures var all := q.Waiting() + Flatten(Blocks(packets));
            Deliver(Captured(q, packets), frames) == all[..Min(frames, |all|)]
  {
    CapturedHistory(q, packets);
    hide Captured, Flatten, Blocks;
    var after := Captured(q, packets);
    assert after.Waiting() == q.Waiting() + Flatten(Blocks(packets));
    PlainRead(after, frames);
  }

  // ----- the loops ------------------------------------------------------------------------

  class CaptureStage {
    const ring: Ring
    var framesIn: nat

    ghost predicate Valid()
      reads this, ring, ring.outData, ring.inData
    {
      ring.Valid()
    }

    constructor (ring: Ring)
      requires ring.Valid()
      ensures Valid() && this.ring == ring && framesIn == 0
    {
      this.ring := ring;
      framesIn := 0;
    }

    method ProcessIncomingMic(src: seq<byte>)
      requires Valid()
      modifies `framesIn, ring`inWrite, ring`inHist, ring.inData
      ensures Valid()
      ensures ring.In() == AfterWrite(old(ring.In()), Upsampled(MicSamples(src)))
      ensures ring.Out() == old(ring.Out())
      ensures framesIn == old(framesIn) + |Upsampled(MicSamples(src))|
    {
      var pcm := AcceptedPcm(src);
      var outBuf := new real[OUT_BUF](_ => 0.0);
      var outCount := Upsample(pcm, outBuf);
      hide Upsampled, MicSamples, SamplesOf;
      if outCount > 0 {
        ring.InWrite(outBuf, outCount);
        framesIn := framesIn + outCount;
      } else {
        assert ring.inHist + [] == ring.inHist;
      }
    }
  }

  /** The checks of process_incoming_mic: the PCM bytes of an acceptable packet, or none. */
  method AcceptedPcm(src: seq<byte>) returns (pcm: seq<byte>)
    ensures SamplesOf(pcm) == MicSamples(src)
  {
    hide DecodeHeader, FromLe16;
    var d := DecodeHeaderBytes(src);
    if d.TooShort? || d.header.command != CMD_AUDIO_SAMPLES {
      return [];
    }
    var hdrLen, payloadLen := d.length, d.header.packetLength;
    if hdrLen > |src| || payloadLen > |src| - hdrLen || payloadLen < SAMPLES_HEADER {
      return [];
    }
    return src[hdrLen + SAMPLES_HEADER..hdrLen + payloadLen];
  }

  /** One turn of the loop brings both output samples of one input sample, as the buffer has an even length. */
  lemma UpsampledPair(pcm: seq<byte>, i: nat)
    requires i < |pcm| / 2 && 2 * i < OUT_BUF
    ensures 2 * i + 1 < |Upsampled(SamplesOf(pcm))|
    ensures var cur := Sample16(pcm, i);
            var next := if i + 1 < |pcm| / 2 then Sample16(pcm, i + 1) else cur;
            && Upsampled(SamplesOf(pcm))[2 * i] == cur
            && Upsampled(SamplesOf(pcm))[2 * i + 1] == (cur + next) * 0.5
  {
    hide FromLe16;
    assert 2 * i / 2 == i && 2 * i % 2 == 0 && (2 * i + 1) / 2 == i && (2 * i + 1) % 2 == 1;
  }

  /** Sample `i` of little-endian PCM data, scaled. */
  function Sample16(pcm: seq<byte>, i: nat): real
    requires i < |pcm| / 2
  {
    FromLe16(pcm[2 * i], pcm[2 * i + 1]) as real / 32767.0
  }

  /** The resampling loop. */
  method Upsample(pcm: seq<byte>, outBuf: array<real>) returns (outCount: nat)
    requires outBuf.Length == OUT_BUF
    modifies outBuf
    ensures outCount == UpsampledCount(|pcm| / 2) && outBuf[..outCount] == Upsampled(SamplesOf(pcm))
  {
    hide Sample16, Upsampled, SamplesOf;
    var inSamples := |pcm| / 2;
    ghost var all := Upsampled(SamplesOf(pcm));
    var i := 0;
    outCount := 0;
    while i < inSamples && outCount < OUT_BUF
      invariant outCount == UpsampledCount(i) == 2 * i && i <= inSamples
      invariant forall k | 0 <= k < outCount :: outBuf[k] == all[k]
    {
      UpsampledPair(pcm, i);
      var cur := Sample16(pcm, i);
      var next := if i + 1 < inSamples then Sample16(pcm, i + 1) else cur;
      outBuf[outCount] := cur;
      outCount := outCount + 1;
      if outCount < OUT_BUF {
        outBuf[outCount] := (cur + next) * 0.5;
        outCount := outCount + 1;
      }
      i := i + 1;
    }
  }
}
