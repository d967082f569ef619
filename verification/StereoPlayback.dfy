/**
 Playback runs in stereo, down to the bytes of the USB packets: both channels go
 through the same reads and breaks, and each transfer is packed as it is filled.
 */
module StereoPlayback {
  import opened Basics
  import opened Gip
  import opened RingModel
  import opened Playback
  import opened AudioPackets
  import Sequence

  // ----- channels -------------------------------------------------------------------------

  function LaneHist(hist: seq<Stereo>, c: nat): (lane: seq<real>)
    ensures |lane| == |hist|
  {
    seq(|hist|, i requires 0 <= i < |hist| => Side(hist[i], c))
  }

  function LaneQueue(q: Queue<Stereo>, c: nat): (lane: Queue<real>)
    ensures q.Ok() ==> lane.Ok()
  {
    Queue(LaneHist(q.hist, c), q.rd)
  }

  /** Taking one channel of what is delivered is the same as delivering from one channel. */
  lemma LaneDeliver(q: Queue<Stereo>, c: nat, frames: nat)
    requires q.Ok()
    ensures LaneHist(Deliver(q, frames), c) == Deliver(LaneQueue(q, c), frames)
    ensures Skipped(LaneQueue(q, c), frames) == Skipped(q, frames)
    ensures AfterRead(LaneQueue(q, c), frames) == LaneQueue(AfterRead(q, frames), c)
  {
    var block, lane := LaneHist(Deliver(q, frames), c), Deliver(LaneQueue(q, c), frames);
    var start := ReadPlan(|q.hist|, q.rd, frames).start;
    forall i | 0 <= i < |block| ensures block[i] == lane[i] {
      var k := Newest(|q.hist|, start + i);
      assert LaneHist(q.hist, c)[k] == Side(q.hist[k], c);
    }
  }

  /** Writing stereo frames is writing each channel. */
  lemma LaneWrite(q: Queue<Stereo>, src: seq<Stereo>, c: nat)
    ensures LaneQueue(AfterWrite(q, src), c) == AfterWrite(LaneQueue(q, c), LaneHist(src, c))
  {
    assert LaneHist(q.hist + src, c) == LaneHist(q.hist, c) + LaneHist(src, c);
  }

  lemma LaneJoin(a: seq<Stereo>, b: seq<Stereo>, c: nat)
    ensures LaneHist(a + b, c) == LaneHist(a, c) + LaneHist(b, c)
  {
  }

  lemma LaneSlice(s: seq<Stereo>, i: nat, j: nat, c: nat)
    requires i <= j <= |s|
    ensures LaneHist(s[i..j], c) == LaneHist(s, c)[i..j]
  {
  }

  /** Frames with the same channels are the same. */
  lemma SameChannels(s: seq<Stereo>, t: seq<Stereo>)
    requires LaneHist(s, 0) == LaneHist(t, 0) && LaneHist(s, 1) == LaneHist(t, 1)
    ensures s == t
  {
    assert |s| == |LaneHist(s, 0)| == |t|;
    forall i | 0 <= i < |s| ensures s[i] == t[i] {
      assert LaneHist(s, 0)[i] == LaneHist(t, 0)[i] && LaneHist(s, 1)[i] == LaneHist(t, 1)[i];
    }
  }

  // ----- the stage ------------------------------------------------------------------------

  /** The ring with everything fill_out_xfer keeps between transfers. */
  datatype Stage = Stage(q: Queue<Stereo>, last: Stereo, prevShort: bool, counter: byte) {
    function Lane(c: nat): (p: Player)
      ensures q.Ok() ==> p.q.Ok()
    {
      Player(LaneQueue(q, c), Side(last, c), prevShort)
    }
  }

  /** A transfer: its frames, how many were played, whether there was a break before them, and its packets. */
  datatype AnyFilled = Filled(frames: seq<Stereo>, got: nat, cut: bool, bytes: seq<byte>)

  type Filled = f: AnyFilled | |f.frames| == XFER_FRAMES && |f.bytes| == OUT_PACKET_SIZE * AUDIO_PKTS
    witness Filled(seq(XFER_FRAMES, _ => SILENCE), 0, false, seq(OUT_PACKET_SIZE * AUDIO_PKTS, _ => 0))

  function Interleaved(left: seq<real>, right: seq<real>): (frames: seq<Stereo>)
    requires |left| == |right|
    ensures |frames| == |left|
  {
    seq(|left|, i requires 0 <= i < |left| => Stereo(left[i], right[i]))
  }

  lemma InterleavedLanes(left: seq<real>, right: seq<real>)
    requires |left| == |right|
    ensures LaneHist(Interleaved(left, right), 0) == left && LaneHist(Interleaved(left, right), 1) == right
  {
  }

  function FilledFrames(s: Stage): (frames: seq<Stereo>)
    requires s.q.Ok()
    ensures |frames| == XFER_FRAMES
  {
    Interleaved(Fill(s.Lane(0)).1.out, Fill(s.Lane(1)).1.out)
  }

  function FillStage(s: Stage): (r: (Stage, Filled))
    requires s.q.Ok()
    ensures r.0.q == AfterRead(s.q, XFER_FRAMES)
  {
    var frames := FilledFrames(s);
    var got, cut := |Deliver(s.q, XFER_FRAMES)|, Skipped(s.q, XFER_FRAMES) || s.prevShort;
    (Stage(AfterRead(s.q, XFER_FRAMES), frames[XFER_FRAMES - 1], got < XFER_FRAMES, CounterAfter(s.counter, AUDIO_PKTS)),
     Filled(frames, got, cut, XferBytes(frames, s.counter, AUDIO_PKTS)))
  }

  /** What one channel makes of a stereo transfer. */
  ghost predicate IsLane(e: Emitted, f: Filled, c: nat) {
    e.out == LaneHist(f.frames, c) && e.got == f.got && e.cut == f.cut
  }

  lemma FillStageLane(s: Stage, c: nat)
    requires s.q.Ok() && c < OUT_CHANNELS
    ensures FillStage(s).0.Lane(c) == Fill(s.Lane(c)).0
    ensures IsLane(Fill(s.Lane(c)).1, FillStage(s).1, c)
  {
    hide Fill, Deliver, Skipped, ReadPlan, AfterRead, XferBytes, CounterAfter, LaneQueue, Interleaved;
    LaneDeliver(s.q, c, XFER_FRAMES);
    FillFields(s.Lane(c));
    InterleavedLanes(Fill(s.Lane(0)).1.out, Fill(s.Lane(1)).1.out);
    var out := FillStage(s).1.frames;
    assert LaneHist(out, c)[XFER_FRAMES - 1] == Side(out[XFER_FRAMES - 1], c);
  }

  // ----- runs -----------------------------------------------------------------------------

  datatype StageEvent = Wrote(src: seq<Stereo>) | Transferred

  function PlayStage(s: Stage, events: seq<StageEvent>): (r: (Stage, seq<Filled>))
    requires s.q.Ok()
    ensures r.0.q.Ok()
  {
    if events == [] then (s, [])
    else
      var (s1, filled) := PlayStage(s, events[..|events| - 1]);
      match events[|events| - 1]
      case Wrote(src) => (s1.(q := AfterWrite(s1.q, src)), filled)
      case Transferred =>
        ReadRefinesLossyFifo(s1.q, XFER_FRAMES);
        var (s2, f) := FillStage(s1);
        (s2, filled + [f])
  }

  function LaneEvent(e: StageEvent, c: nat): Event {
    match e
    case Wrote(src) => HalWrite(LaneHist(src, c))
    case Transferred => Transfer
  }

  function LaneEvents(events: seq<StageEvent>, c: nat): (lane: seq<Event>)
    ensures |lane| == |events|
  {
    seq(|events|, i requires 0 <= i < |events| => LaneEvent(events[i], c))
  }

  ghost predicate AreLanes(emitted: seq<Emitted>, filled: seq<Filled>, c: nat) {
    |emitted| == |filled| && forall j | 0 <= j < |filled| :: IsLane(emitted[j], filled[j], c)
  }

  lemma LanesMore(emitted: seq<Emitted>, filled: seq<Filled>, e: Emitted, f: Filled, c: nat)
    requires AreLanes(emitted, filled, c) && IsLane(e, f, c)
    ensures AreLanes(emitted + [e], filled + [f], c)
  {
    hide IsLane;
  }

  lemma PlayStageLast(s: Stage, events: seq<StageEvent>)
    requires s.q.Ok() && events != []
    ensures var (s1, filled) := PlayStage(s, events[..|events| - 1]);
            match events[|events| - 1]
            case Wrote(src) => PlayStage(s, events) == (s1.(q := AfterWrite(s1.q, src)), filled)
            case Transferred => FillStage(s1).0.q.Ok() && PlayStage(s, events) == (FillStage(s1).0, filled + [FillStage(s1).1])
  {
    var s1 := PlayStage(s, events[..|events| - 1]).0;
    ReadRefinesLossyFifo(s1.q, XFER_FRAMES);
    hide FillStage, AfterRead;
  }

  lemma LanePlayLast(p: Player, events: seq<StageEvent>, c: nat)
    requires p.q.Ok() && events != []
    ensures var (p1, emitted) := Play(p, LaneEvents(events[..|events| - 1], c));
            match events[|events| - 1]
            case Wrote(src) => Play(p, LaneEvents(events, c)) == (p1.(q := AfterWrite(p1.q, LaneHist(src, c))), emitted)
            case Transferred => Play(p, LaneEvents(events, c)) == (Fill(p1).0, emitted + [Fill(p1).1])
  {
    assert LaneEvents(events, c)[..|events| - 1] == LaneEvents(events[..|events| - 1], c);
    hide Fill;
  }

  lemma LaneAfterWrite(s: Stage, src: seq<Stereo>, c: nat)
    requires s.q.Ok()
    ensures s.(q := AfterWrite(s.q, src)).Lane(c) == s.Lane(c).(q := AfterWrite(s.Lane(c).q, LaneHist(src, c)))
  {
    LaneWrite(s.q, src, c);
  }

  /** Each channel of a stereo run is a run of its own, with the same breaks. */
  lemma {:induction false} StageLanes(s: Stage, events: seq<StageEvent>, c: nat)
    requires s.q.Ok() && c < OUT_CHANNELS
    ensures var (s', filled) := PlayStage(s, events);
            var (p', emitted) := Play(s.Lane(c), LaneEvents(events, c));
            && p' == s'.Lane(c) && p'.q.hist == LaneHist(s'.q.hist, c) && p'.q.rd == s'.q.rd
            && AreLanes(emitted, filled, c)
  {
    if events != [] {
      hide Fill, FillStage, IsLane, AreLanes, PlayStage, Play;
      var init := events[..|events| - 1];
      StageLanes(s, init, c);
      PlayStageLast(s, events);
      LanePlayLast(s.Lane(c), events, c);
      var (s1, filled) := PlayStage(s, init);
      match events[|events| - 1]
      case Wrote(src) =>
        LaneAfterWrite(s1, src, c);
      case Transferred =>
        FillStageLane(s1, c);
        LanesMore(Play(s.Lane(c), LaneEvents(init, c)).1, filled, Fill(s1.Lane(c)).1, FillStage(s1).1, c);
    }
  }

  // ----- continuity on both channels --------------------------------------------------------

  /** The sample before frame `i` of transfer `j`, on channel `c`. */
  function SampleBefore(filled: seq<Filled>, j: nat, i: nat, c: nat): real
    requires j < |filled| && i < XFER_FRAMES && (j > 0 || i > 0)
  {
    Side(if i > 0 then filled[j].frames[i - 1] else filled[j - 1].frames[XFER_FRAMES - 1], c)
  }

  lemma LaneSamples(emitted: seq<Emitted>, filled: seq<Filled>, j: nat, i: nat, c: nat)
    requires AreLanes(emitted, filled, c) && j < |filled| && i < XFER_FRAMES && (j > 0 || i > 0)
    ensures IsLane(emitted[j], filled[j], c)
    ensures emitted[j].out[i] == Side(filled[j].frames[i], c)
    ensures (if i > 0 then emitted[j].out[i - 1] else emitted[j - 1].out[XFER_FRAMES - 1]) == SampleBefore(filled, j, i, c)
  {
    assert IsLane(emitted[j], filled[j], c);
    if i == 0 {
      assert IsLane(emitted[j - 1], filled[j - 1], c);
    }
  }

  lemma SeamlessStep(hist: seq<real>, emitted: seq<Emitted>, j: nat, i: nat)
    requires Seamless(hist, emitted) && j < |emitted| && i < XFER_FRAMES && (j > 0 || i > 0)
    ensures StepIs(hist, emitted[j], i, if i > 0 then emitted[j].out[i - 1] else emitted[j - 1].out[XFER_FRAMES - 1])
  {
    hide StepIs;
    assert SeamlessAt(hist, emitted, j, i);
  }

  /**
   Over any stereo run, each sample of each channel follows the one before it by
   the history's step and the fade's share, and by nothing else; `e` says which
   block of the history is played and what the fades spread out.
   */
  lemma StereoContinuity(s: Stage, events: seq<StageEvent>, c: nat, j: nat, i: nat) returns (e: Emitted)
    requires s.q.Ok() && c < OUT_CHANNELS
    requires j < |PlayStage(s, events).1| && i < XFER_FRAMES && (j > 0 || i > 0)
    ensures var (s', filled) := PlayStage(s, events);
            && IsLane(e, filled[j], c)
            && StepIs(LaneHist(s'.q.hist, c), e, i, SampleBefore(filled, j, i, c))
  {
    hide Play, PlayStage, StepIs, Follows, Seamless, IsLane, SampleBefore, LaneHist;
    StageLanes(s, events, c);
    PlaybackContinuity(s.Lane(c), LaneEvents(events, c));
    var (p', emitted) := Play(s.Lane(c), LaneEvents(events, c));
    SeamlessStep(p'.q.hist, emitted, j, i);
    LaneSamples(emitted, PlayStage(s, events).1, j, i, c);
    e := emitted[j];
  }

  ghost predicate StereoWithin(hist: seq<Stereo>, a: real) {
    forall i, c | 0 <= i < |hist| && 0 <= c < OUT_CHANNELS :: Abs(Side(hist[i], c)) <= a
  }

  lemma LaneWithin(hist: seq<Stereo>, a: real, c: nat)
    requires StereoWithin(hist, a) && c < OUT_CHANNELS
    ensures Within(LaneHist(hist, c), a)
  {
  }

  /** The same as a bound, in numbers, for samples in [-a, a]. */
  lemma StereoSteps(s: Stage, events: seq<StageEvent>, a: real, c: nat, j: nat, i: nat) returns (e: Emitted)
    requires s.q.Ok() && c < OUT_CHANNELS && Abs(Side(s.last, c)) <= a && StereoWithin(PlayStage(s, events).0.q.hist, a)
    requires j < |PlayStage(s, events).1| && i < 384 && (j > 0 || i > 0)
    ensures var (s', filled) := PlayStage(s, events);
            IsLane(e, filled[j], c) && StepWithin(LaneHist(s'.q.hist, c), e, i, SampleBefore(filled, j, i, c), a)
  {
    hide Play, PlayStage, StepWithin, Within, StereoWithin, IsLane, SampleBefore, Abs, Side, LaneHist;
    StageLanes(s, events, c);
    var (p', emitted) := Play(s.Lane(c), LaneEvents(events, c));
    LaneWithin(PlayStage(s, events).0.q.hist, a, c);
    PlaybackSteps(s.Lane(c), LaneEvents(events, c), a, j, i);
    LaneSamples(emitted, PlayStage(s, events).1, j, i, c);
    e := emitted[j];
  }

  /** And every sample of each channel. */
  lemma StereoExactly(s: Stage, events: seq<StageEvent>, c: nat) returns (emitted: seq<Emitted>)
    requires s.q.Ok() && c < OUT_CHANNELS
    ensures var (s', filled) := PlayStage(s, events);
            AreLanes(emitted, filled, c) && AllSamplesAre(LaneHist(s'.q.hist, c), emitted, Side(s.last, c))
  {
    hide Play, PlayStage, AllSamplesAre, AreLanes, LaneHist;
    StageLanes(s, events, c);
    PlaybackExactly(s.Lane(c), LaneEvents(events, c));
    emitted := Play(s.Lane(c), LaneEvents(events, c)).1;
  }

  // ----- the bytes of a run -----------------------------------------------------------------

  /** What a receiver collects from the packets of a run. */
  function PayloadStream(filled: seq<Filled>): seq<byte> {
    if filled == [] then []
    else PayloadStream(filled[..|filled| - 1]) + Payloads(filled[|filled| - 1].bytes, AUDIO_PKTS)
  }

  function FrameStream(filled: seq<Filled>): seq<Stereo> {
    if filled == [] then [] else FrameStream(filled[..|filled| - 1]) + filled[|filled| - 1].frames
  }

  lemma PcmJoin(a: seq<Stereo>, b: seq<Stereo>)
    ensures PcmBytes(a + b) == PcmBytes(a) + PcmBytes(b)
  {
    hide PcmBytes;
    var all := a + b;
    PcmSlice(all, 0, |a|);
    PcmSlice(all, |a|, |all|);
    assert all[0..|a|] == a;
    assert all[|a|..|all|] == b;
    InTwo(PcmBytes(all), 4 * |a|);
  }

  lemma InTwo<T>(s: seq<T>, k: nat)
    requires k <= |s|
    ensures s[0..k] + s[k..|s|] == s
  {
  }

  /** The packets of transfer `j` carry its frames, with the sequence numbers that follow those of the transfers before. */
  ghost predicate PackedInTurn(s: Stage, filled: seq<Filled>, m: nat) {
    && s.counter == Sequence.AfterNonzero(m + AUDIO_PKTS * |filled|)
    && forall j | 0 <= j < |filled| ::
         filled[j].bytes == XferBytes(filled[j].frames, Sequence.AfterNonzero(m + AUDIO_PKTS * j), AUDIO_PKTS)
  }

  lemma PackedMore(s: Stage, filled: seq<Filled>, m: nat)
    requires s.q.Ok() && PackedInTurn(s, filled, m)
    ensures PackedInTurn(FillStage(s).0, filled + [FillStage(s).1], m)
  {
    hide Fill, FilledFrames, XferBytes, Deliver, Skipped, AfterRead, Sequence.AfterNonzero, CounterAfter;
    CounterRuns(m + AUDIO_PKTS * |filled|, AUDIO_PKTS);
    assert m + AUDIO_PKTS * |filled| + AUDIO_PKTS == m + AUDIO_PKTS * (|filled| + 1);
  }

  lemma PackedStart(s: Stage, m: nat)
    requires s.q.Ok() && s.counter == Sequence.AfterNonzero(m)
    ensures PlayStage(s, []) == (s, []) && PackedInTurn(s, [], m)
  {
    hide Sequence.AfterNonzero;
    assert m + AUDIO_PKTS * 0 == m;
  }

  lemma PackedWrite(s: Stage, filled: seq<Filled>, src: seq<Stereo>, m: nat)
    requires PackedInTurn(s, filled, m)
    ensures PackedInTurn(s.(q := AfterWrite(s.q, src)), filled, m)
  {
    hide XferBytes, Sequence.AfterNonzero;
  }

  lemma {:induction false} RunPackedInTurn(s: Stage, events: seq<StageEvent>, m: nat)
    requires s.q.Ok() && s.counter == Sequence.AfterNonzero(m)
    ensures var (s', filled) := PlayStage(s, events); PackedInTurn(s', filled, m)
  {
    hide *;
    if events == [] {
      PackedStart(s, m);
    } else {
      var init := events[..|events| - 1];
      RunPackedInTurn(s, init, m);
      PlayStageLast(s, events);
      var (s1, filled) := PlayStage(s, init);
      match events[|events| - 1]
      case Wrote(src) => PackedWrite(s1, filled, src, m);
      case Transferred => PackedMore(s1, filled, m);
    }
  }

  lemma PacketNumber(s: Stage, filled: seq<Filled>, j: nat, p: nat)
    requires PackedInTurn(s, filled, 0) && j < |filled| && p < AUDIO_PKTS
    ensures DecodeHeader(Packet(filled[j].bytes, p)) == Decoded(AudioHeader(Sequence.Numbering(AUDIO_PKTS * j + p)), 6)
  {
    hide XferBytes, DecodeHeader, Packet, PacketSequence, AudioHeader, Sequence.AfterNonzero, Sequence.Numbering;
    PacketDecodes(filled[j].frames, Sequence.AfterNonzero(AUDIO_PKTS * j), p);
    SessionNumbering(j, p);
  }

  lemma PacketPosition(k: nat)
    ensures AUDIO_PKTS * (k / AUDIO_PKTS) + k % AUDIO_PKTS == k && k % AUDIO_PKTS < AUDIO_PKTS
    ensures Sequence.Numbering(k) == 1 + k % 255
    ensures Sequence.AfterNonzero(0) == 1
  {
  }

  /** The `k`-th packet of a session is an audio packet of 192 bytes with number 1 + k mod 255, however long the session. */
  lemma PacketNumbers(s: Stage, events: seq<StageEvent>, k: nat)
    requires s.q.Ok() && s.counter == 1
    requires k / AUDIO_PKTS < |PlayStage(s, events).1|
    ensures DecodeHeader(Packet(PlayStage(s, events).1[k / AUDIO_PKTS].bytes, k % AUDIO_PKTS))
         == Decoded(AudioHeader(1 + k % 255), 6)
  {
    hide *;
    PacketPosition(k);
    RunPackedInTurn(s, events, 0);
    PacketNumber(PlayStage(s, events).0, PlayStage(s, events).1, k / AUDIO_PKTS, k % AUDIO_PKTS);
  }

  /** Over any run, the payloads of all packets are the PCM data of all frames sent. */
  lemma {:induction false} RunRoundTrip(s: Stage, events: seq<StageEvent>)
    requires s.q.Ok()
    ensures var filled := PlayStage(s, events).1; PayloadStream(filled) == PcmBytes(FrameStream(filled))
  {
    if events == [] {
      assert PcmBytes([]) == [];
    } else {
      var init := events[..|events| - 1];
      RunRoundTrip(s, init);
      if events[|events| - 1].Transferred? {
        var (s1, filled) := PlayStage(s, init);
        ReadRefinesLossyFifo(s1.q, XFER_FRAMES);
        FilledRoundTrip(s1);
        StreamsMore(filled, FillStage(s1).1);
        hide FillStage, PayloadStream, FrameStream, Payloads, PcmBytes;
        PcmJoin(FrameStream(filled), FillStage(s1).1.frames);
      }
    }
  }

  lemma FilledRoundTrip(s: Stage)
    requires s.q.Ok()
    ensures Payloads(FillStage(s).1.bytes, AUDIO_PKTS) == PcmBytes(FillStage(s).1.frames)
  {
    hide Fill, XferBytes, Payloads, PcmBytes;
    TransferRoundTrip(FillStage(s).1.frames, s.counter);
  }

  lemma StreamsMore(filled: seq<Filled>, f: Filled)
    ensures PayloadStream(filled + [f]) == PayloadStream(filled) + Payloads(f.bytes, AUDIO_PKTS)
    ensures FrameStream(filled + [f]) == FrameStream(filled) + f.frames
  {
    assert (filled + [f])[..|filled|] == filled;
  }

  /** No frame was skipped or missing. */
  predicate AllWhole(filled: seq<Filled>) {
    forall j | 0 <= j < |filled| :: filled[j].got == XFER_FRAMES && !filled[j].cut
  }

  lemma {:induction false} LaneStream(emitted: seq<Emitted>, filled: seq<Filled>, c: nat)
    requires AreLanes(emitted, filled, c)
    ensures Stream(emitted) == LaneHist(FrameStream(filled), c)
  {
    if filled != [] {
      var n := |filled| - 1;
      assert IsLane(emitted[n], filled[n], c);
      forall j | 0 <= j < n ensures IsLane(emitted[..n][j], filled[..n][j], c) {
        assert IsLane(emitted[j], filled[j], c);
      }
      LaneStream(emitted[..n], filled[..n], c);
      LaneJoin(FrameStream(filled[..n]), filled[n].frames, c);
    }
  }

  lemma CleanLane(s: Stage, events: seq<StageEvent>, c: nat)
    requires s.q.Ok() && c < OUT_CHANNELS && AllWhole(PlayStage(s, events).1)
    ensures var (s', filled) := PlayStage(s, events);
            && s.q.rd <= s'.q.rd <= |s'.q.hist|
            && LaneHist(FrameStream(filled), c) == LaneHist(s'.q.hist[s.q.rd..s'.q.rd], c)
  {
    StageLanes(s, events, c);
    hide Play, PlayStage, Stream, FrameStream;
    var (p', emitted) := Play(s.Lane(c), LaneEvents(events, c));
    var (s', filled) := PlayStage(s, events);
    forall j | 0 <= j < |emitted| ensures emitted[j].got == XFER_FRAMES && !emitted[j].cut {
      assert IsLane(emitted[j], filled[j], c);
    }
    CleanPlayback(s.Lane(c), LaneEvents(events, c));
    LaneStream(emitted, filled, c);
    LaneSlice(s'.q.hist, s.q.rd, s'.q.rd, c);
  }

  /**
   Over any run of writes and transfers with no skip and no short read, the
   payloads of all packets are exactly the history that was played, as 16-bit
   PCM, from the read index at the start to the read index at the end.
   */
  lemma CleanRunCarriesHistory(s: Stage, events: seq<StageEvent>)
    requires s.q.Ok() && AllWhole(PlayStage(s, events).1)
    ensures var (s', filled) := PlayStage(s, events);
            && s.q.rd <= s'.q.rd <= |s'.q.hist|
            && FrameStream(filled) == s'.q.hist[s.q.rd..s'.q.rd]
            && PayloadStream(filled) == PcmBytes(s'.q.hist[s.q.rd..s'.q.rd])
  {
    hide PlayStage, FrameStream, PayloadStream, PcmBytes;
    CleanLane(s, events, 0);
    CleanLane(s, events, 1);
    var (s', filled) := PlayStage(s, events);
    SameChannels(FrameStream(filled), s'.q.hist[s.q.rd..s'.q.rd]);
    RunRoundTrip(s, events);
  }
}
