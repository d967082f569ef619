/** Playback samples as 16-bit PCM in GIP audio packets. */
module AudioPackets {
  import opened Basics
  import opened Gip
  import opened RingModel
  import opened Playback
  import Sequence

  const OUT_CHANNELS: nat := 2

  /** Header and payload of an audio packet; the header of a 192-byte payload is padded to 6 bytes. */
  const OUT_PACKET_SIZE: nat := 198

  const FRAG_FRAMES: nat := OUT_FRAG_SIZE / 2 / OUT_CHANNELS

  // ----- samples ----------------------------------------------------------------------

  function Clamp(v: real): real {
    if v > 1.0 then 1.0 else if v < -1.0 then -1.0 else v
  }

  /** Conversion to an integer drops the fraction. */
  function Truncate(x: real): int {
    if x >= 0.0 then x.Floor else -(-x).Floor
  }

  function ToS16(v: real): int {
    Truncate(Clamp(v) * 32767.0)
  }

  /** Clamping keeps every sample in range, and a sample in range is off by less than one step. */
  lemma S16Range(v: real)
    ensures -32767 <= ToS16(v) <= 32767
    ensures -1.0 <= v <= 1.0 ==> Abs(v * 32767.0 - ToS16(v) as real) < 1.0
    ensures ToS16(-v) == -ToS16(v)
  {
    var x := Clamp(v) * 32767.0;
    assert -32767.0 <= x <= 32767.0;
  }

  /** Samples beyond full scale are full scale; in between, the fraction of the scaled value is dropped. */
  lemma S16Exactly(v: real)
    ensures v >= 1.0 ==> ToS16(v) == 32767
    ensures v <= -1.0 ==> ToS16(v) == -32767
    ensures 0.0 <= v <= 1.0 ==> ToS16(v) as real <= v * 32767.0 < (ToS16(v) + 1) as real
    ensures -1.0 <= v <= 0.0 ==> (ToS16(v) - 1) as real < v * 32767.0 <= ToS16(v) as real
  {
  }

  /** Low byte first, two's complement. */
  function Le16(s: int): (b: seq<byte>)
    ensures |b| == 2
  {
    [s % 0x100, s / 0x100 % 0x100]
  }

  function FromLe16(lo: byte, hi: byte): int {
    var u := lo + 0x100 * hi;
    if u >= 0x8000 then u - 0x1_0000 else u
  }

  predicate Congruent(s: int, once: int, times256: int) {
    (s - (once + 256 * times256)) % 65536 == 0
  }

  /** In numbers: the first byte counts once and the second 256 times, and the value read back is the 16-bit one. */
  lemma LittleEndian(s: int, lo: byte, hi: byte)
    ensures Congruent(s, Le16(s)[0], Le16(s)[1])
    ensures Congruent(FromLe16(lo, hi), lo, hi) && -32768 <= FromLe16(lo, hi) <= 32767
  {
    var q := s / 256;
    assert s == 256 * q + s % 256 && q == 256 * (q / 256) + q % 256;
    WholeRounds(s, s % 256, q % 256, q / 256);
    var read := FromLe16(lo, hi);
    WholeRounds(read, lo, hi, if read < 0 then -1 else 0);
    hide Congruent;
  }

  lemma WholeRounds(s: int, once: int, times256: int, rounds: int)
    requires s == once + 256 * times256 + 65536 * rounds
    ensures Congruent(s, once, times256)
  {
    assert s - (once + 256 * times256) == 65536 * rounds;
  }

  lemma Le16RoundTrip(s: int)
    requires -0x8000 <= s < 0x8000
    ensures FromLe16(Le16(s)[0], Le16(s)[1]) == s
  {
  }

  function Side(f: Stereo, c: nat): real {
    if c == 0 then f.left else f.right
  }

  /** Byte `k` of interleaved 16-bit samples. */
  function PcmByte(frames: seq<Stereo>, k: nat): byte
    requires k < 4 * |frames|
  {
    Le16(ToS16(Side(frames[k / 4], k % 4 / 2)))[k % 4 % 2]
  }

  function PcmBytes(frames: seq<Stereo>): (b: seq<byte>)
    ensures |b| == 4 * |frames|
  {
    seq(4 * |frames|, k requires 0 <= k < 4 * |frames| => PcmByte(frames, k))
  }

  lemma ByteOfSample(frames: seq<Stereo>, i: nat, c: nat, h: nat)
    requires i < |frames| && c < 2 && h < 2
    ensures PcmBytes(frames)[4 * i + 2 * c + h] == Le16(ToS16(Side(frames[i], c)))[h]
  {
    hide Le16, ToS16, Side;
    var k := 4 * i + 2 * c + h;
    QuotientIs(k, i, 2 * c + h);
  }

  /** Reading the bytes back gives every sample of every frame. */
  lemma PcmRoundTrip(frames: seq<Stereo>, i: nat, c: nat)
    requires i < |frames| && c < 2
    ensures var b := PcmBytes(frames); FromLe16(b[4 * i + 2 * c], b[4 * i + 2 * c + 1]) == ToS16(Side(frames[i], c))
  {
    ByteOfSample(frames, i, c, 0);
    ByteOfSample(frames, i, c, 1);
    S16Range(Side(frames[i], c));
    Le16RoundTrip(ToS16(Side(frames[i], c)));
    hide PcmBytes, ToS16, Le16, Side, FromLe16;
  }

  /** The bytes of frame `i`: the left sample and then the right one, each low byte first. */
  lemma FrameBytes(frames: seq<Stereo>, i: nat)
    requires i < |frames|
    ensures var b := PcmBytes(frames);
            && Congruent(ToS16(frames[i].left), b[4 * i], b[4 * i + 1])
            && Congruent(ToS16(frames[i].right), b[4 * i + 2], b[4 * i + 3])
  {
    hide PcmBytes, ToS16, Le16, Congruent;
    ByteOfSample(frames, i, 0, 0);
    ByteOfSample(frames, i, 0, 1);
    ByteOfSample(frames, i, 1, 0);
    ByteOfSample(frames, i, 1, 1);
    LittleEndian(ToS16(frames[i].left), 0, 0);
    LittleEndian(ToS16(frames[i].right), 0, 0);
  }

  lemma PcmSlice(frames: seq<Stereo>, i: nat, j: nat)
    requires i <= j <= |frames|
    ensures PcmBytes(frames[i..j]) == PcmBytes(frames)[4 * i..4 * j]
  {
    hide Le16, ToS16, Side;
    var part, whole := PcmBytes(frames[i..j]), PcmBytes(frames);
    forall k | 0 <= k < 4 * (j - i) ensures part[k] == whole[4 * i + k] {
      QuotientIs(4 * i + k, i + k / 4, k % 4);
      assert PcmByte(frames[i..j], k) == PcmByte(frames, 4 * i + k);
    }
  }

  lemma QuotientIs(k: nat, q: nat, r: nat)
    requires k == 4 * q + r && r < 4
    ensures k / 4 == q && k % 4 == r
  {
  }

  // ----- packets ------------------------------------------------------------------------

  function AudioHeader(sequence: byte): Header {
    Header(CMD_AUDIO_SAMPLES, OPT_INTERNAL, sequence, OUT_FRAG_SIZE, 0)
  }

  lemma AudioHeaderLength(sequence: byte)
    ensures EncodedLength(AudioHeader(sequence)) == OUT_PACKET_SIZE - OUT_FRAG_SIZE == 6
  {
    VarintLengthBounds(OUT_FRAG_SIZE);
  }

  /** The counter after `p` packets of a transfer. */
  function CounterAfter(counter: byte, p: nat): byte {
    if p == 0 then counter else Sequence.DrawNonzero(CounterAfter(counter, p - 1)).counter
  }

  function PacketSequence(counter: byte, p: nat): byte {
    Sequence.DrawNonzero(CounterAfter(counter, p)).used
  }

  function PacketFrames(out: seq<Stereo>, p: nat): (frames: seq<Stereo>)
    requires |out| == XFER_FRAMES && p < AUDIO_PKTS
    ensures |frames| == FRAG_FRAMES
  {
    out[FRAG_FRAMES * p..FRAG_FRAMES * (p + 1)]
  }

  function AudioHeaderBytes(sequence: byte): (bytes: seq<byte>)
    ensures |bytes| == OUT_PACKET_SIZE - OUT_FRAG_SIZE
  {
    AudioHeaderLength(sequence);
    HeaderBytes(AudioHeader(sequence))
  }

  function AudioPacket(out: seq<Stereo>, counter: byte, p: nat): (packet: seq<byte>)
    requires |out| == XFER_FRAMES && p < AUDIO_PKTS
    ensures |packet| == OUT_PACKET_SIZE
  {
    AudioHeaderBytes(PacketSequence(counter, p)) + PcmBytes(PacketFrames(out, p))
  }

  /** The first `n` packets of a transfer buffer. */
  function XferBytes(out: seq<Stereo>, counter: byte, n: nat): (b: seq<byte>)
    requires |out| == XFER_FRAMES && n <= AUDIO_PKTS
    ensures |b| == OUT_PACKET_SIZE * n
  {
    if n == 0 then [] else XferBytes(out, counter, n - 1) + AudioPacket(out, counter, n - 1)
  }

  /** Packet `p` of a transfer buffer. */
  function Packet(buf: seq<byte>, p: nat): seq<byte>
    requires OUT_PACKET_SIZE * (p + 1) <= |buf|
  {
    buf[OUT_PACKET_SIZE * p..OUT_PACKET_SIZE * (p + 1)]
  }

  /** The share of packet `p` in the PCM data. */
  function PcmShare(pcm: seq<byte>, p: nat): seq<byte>
    requires OUT_FRAG_SIZE * (p + 1) <= |pcm|
  {
    pcm[OUT_FRAG_SIZE * p..OUT_FRAG_SIZE * (p + 1)]
  }

  lemma {:induction false} XferSlice(out: seq<Stereo>, counter: byte, n: nat, p: nat)
    requires |out| == XFER_FRAMES && p < n <= AUDIO_PKTS
    ensures Packet(XferBytes(out, counter, n), p) == AudioPacket(out, counter, p)
  {
    hide AudioPacket;
    if p < n - 1 {
      XferSlice(out, counter, n - 1, p);
      assert Packet(XferBytes(out, counter, n), p) == Packet(XferBytes(out, counter, n - 1), p);
    }
  }

  /** What a receiver takes out of a packet. */
  function PayloadOf(packet: seq<byte>): seq<byte> {
    var d := DecodeHeader(packet);
    if d.Decoded? && d.length <= |packet| then packet[d.length..] else []
  }

  lemma AudioPacketDecodes(out: seq<Stereo>, counter: byte, p: nat)
    requires |out| == XFER_FRAMES && p < AUDIO_PKTS
    ensures var packet := AudioPacket(out, counter, p);
            && DecodeHeader(packet) == Decoded(AudioHeader(PacketSequence(counter, p)), 6)
            && PayloadOf(packet) == PcmBytes(PacketFrames(out, p))
  {
    hide PcmBytes, HeaderBytes, DecodeHeader, PacketSequence, EncodedLength;
    AudioHeaderLength(PacketSequence(counter, p));
    HeaderRoundTrip(AudioHeader(PacketSequence(counter, p)), PcmBytes(PacketFrames(out, p)));
  }

  /** Packet `p` of a transfer decodes to an audio header, and its payload is its share of the PCM data. */
  lemma PacketDecodes(out: seq<Stereo>, counter: byte, p: nat)
    requires |out| == XFER_FRAMES && p < AUDIO_PKTS
    ensures var packet := Packet(XferBytes(out, counter, AUDIO_PKTS), p);
            && DecodeHeader(packet) == Decoded(AudioHeader(PacketSequence(counter, p)), 6)
            && PayloadOf(packet) == PcmShare(PcmBytes(out), p)
  {
    hide PcmBytes, DecodeHeader, XferBytes, PacketSequence, AudioPacket, PayloadOf, Packet, PacketFrames, PcmShare;
    XferSlice(out, counter, AUDIO_PKTS, p);
    AudioPacketDecodes(out, counter, p);
    ShareOfFrames(out, p);
  }

  /** The packet byte for byte: the header of a 192-byte audio packet is padded to six bytes. */
  lemma AudioInNumbers(out: seq<Stereo>, counter: byte, p: nat)
    requires |out| == 384 && p < 8
    ensures AudioPacket(out, counter, p)
         == [0x60, 0x20, PacketSequence(counter, p), 0xc0, 0x81, 0] + PcmBytes(out[48 * p..48 * p + 48])
  {
    HeaderInNumbers(AudioHeader(PacketSequence(counter, p)));
    hide HeaderBytes, PcmBytes, PacketSequence;
  }

  lemma ShareOfFrames(out: seq<Stereo>, p: nat)
    requires |out| == XFER_FRAMES && p < AUDIO_PKTS
    ensures PcmBytes(PacketFrames(out, p)) == PcmShare(PcmBytes(out), p)
  {
    PcmSlice(out, FRAG_FRAMES * p, FRAG_FRAMES * (p + 1));
    hide PcmBytes;
    assert 4 * (FRAG_FRAMES * p) == OUT_FRAG_SIZE * p && 4 * (FRAG_FRAMES * (p + 1)) == OUT_FRAG_SIZE * (p + 1);
  }

  /** The payloads of the first `n` packets, as a receiver would collect them. */
  function Payloads(buf: seq<byte>, n: nat): seq<byte>
    requires |buf| == OUT_PACKET_SIZE * AUDIO_PKTS && n <= AUDIO_PKTS
  {
    if n == 0 then [] else Payloads(buf, n - 1) + PayloadOf(Packet(buf, n - 1))
  }

  lemma {:induction false} PayloadsArePcm(out: seq<Stereo>, counter: byte, n: nat)
    requires |out| == XFER_FRAMES && n <= AUDIO_PKTS
    ensures Payloads(XferBytes(out, counter, AUDIO_PKTS), n) == PcmBytes(out)[..OUT_FRAG_SIZE * n]
  {
    hide XferBytes, PcmBytes, PayloadOf, DecodeHeader, PacketSequence, Packet, PcmShare;
    if n > 0 {
      PayloadsArePcm(out, counter, n - 1);
      PacketDecodes(out, counter, n - 1);
      NextShare(PcmBytes(out), n);
    }
  }

  lemma NextShare(pcm: seq<byte>, n: nat)
    requires 0 < n && OUT_FRAG_SIZE * n <= |pcm|
    ensures pcm[..OUT_FRAG_SIZE * n] == pcm[..OUT_FRAG_SIZE * (n - 1)] + PcmShare(pcm, n - 1)
  {
  }

  /** The payloads of a whole transfer are the PCM data of all its frames. */
  lemma TransferRoundTrip(out: seq<Stereo>, counter: byte)
    requires |out| == XFER_FRAMES
    ensures Payloads(XferBytes(out, counter, AUDIO_PKTS), AUDIO_PKTS) == PcmBytes(out)
  {
    hide XferBytes, Payloads, PcmBytes;
    PayloadsArePcm(out, counter, AUDIO_PKTS);
    assert PcmBytes(out)[..OUT_FRAG_SIZE * AUDIO_PKTS] == PcmBytes(out);
  }

  lemma {:induction false} CounterRuns(k: nat, p: nat)
    ensures CounterAfter(Sequence.AfterNonzero(k), p) == Sequence.AfterNonzero(k + p)
  {
    if p > 0 {
      CounterRuns(k, p - 1);
    }
  }

  /** Over a session, packet `p` of transfer `j` is packet 8 * j + p: its number runs from 1 to 255 and around, never 0. */
  lemma SessionNumbering(j: nat, p: nat)
    ensures PacketSequence(Sequence.AfterNonzero(AUDIO_PKTS * j), p) == Sequence.Numbering(AUDIO_PKTS * j + p)
    ensures CounterAfter(Sequence.AfterNonzero(AUDIO_PKTS * j), AUDIO_PKTS) == Sequence.AfterNonzero(AUDIO_PKTS * (j + 1))
  {
    CounterRuns(AUDIO_PKTS * j, p);
    CounterRuns(AUDIO_PKTS * j, AUDIO_PKTS);
    Sequence.NonzeroNumbering(AUDIO_PKTS * j + p);
  }
}
