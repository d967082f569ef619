/**
 The playback path: every 8 ms the bridge takes 384 frames out of the ring,
 fades across any break in the waveform and packs the result into eight USB
 packets. The two channels are treated alike, so the signal theory here is
 about one channel; `Side` picks a channel of a stereo signal.
 */
module Playback {
  import opened Basics
  import opened RingModel

  const AUDIO_PKTS: nat := 8
  const OUT_FRAG_SIZE: nat := 192
  const XFER_FRAMES: nat := AUDIO_PKTS * OUT_FRAG_SIZE / 2 / 2
  const DECLICK_FRAMES: nat := 64

  // ----- fading across a step --------------------------------------------------------

  function FadeLength(start: nat, end: nat): nat
    requires start <= end
  {
    Min(end - start, DECLICK_FRAMES)
  }

  /** What is left of `offset` after `k` of `n` frames of fading. */
  function Ramp(offset: real, n: nat, k: nat): real
    requires k <= n
  {
    offset * ((n - k) as real) / ((n + 1) as real)
  }

  function Slope(offset: real, n: nat): real {
    offset / ((n + 1) as real)
  }

  lemma RampIsSlope(offset: real, n: nat, k: nat)
    requires k <= n
    ensures Ramp(offset, n, k) == Slope(offset, n) * ((n - k) as real)
  {
    var d, m := (n + 1) as real, (n - k) as real;
    assert offset == Slope(offset, n) * d;
    assert offset * m == (Slope(offset, n) * m) * d;
  }

  lemma RampSteps(offset: real, n: nat, k: nat)
    requires k <= n
    ensures k < n ==> Ramp(offset, n, k + 1) - Ramp(offset, n, k) == -Slope(offset, n)
    ensures Ramp(offset, n, n) == 0.0
    ensures Ramp(offset, n, 0) == offset - Slope(offset, n)
  {
    RampIsSlope(offset, n, k);
    RampIsSlope(offset, n, n);
    RampIsSlope(offset, n, 0);
    var s := Slope(offset, n);
    assert s * ((n + 1) as real) == offset;
    assert s * (n as real) == s * ((n + 1) as real) - s;
    if k < n {
      RampIsSlope(offset, n, k + 1);
      assert s * ((n - k) as real) == s * ((n - k - 1) as real) + s;
    }
  }

  lemma QuotientOrder(x: real, y: real, d: real)
    requires x <= y && d > 0.0
    ensures x / d <= y / d
  {
    var p, r := x / d, (y - x) / d;
    assert r >= 0.0;
    assert p * d == x && r * d == y - x;
    assert (p + r) * d == y;
  }

  lemma SlopeBound(offset: real, n: nat, a: real)
    requires Abs(offset) <= a
    ensures Abs(Slope(offset, n)) <= a / ((n + 1) as real) <= a
    ensures n > 0 ==> a / ((n + 1) as real) <= a / 2.0
  {
    var d := (n + 1) as real;
    QuotientOrder(offset, a, d);
    QuotientOrder(-offset, a, d);
    assert -offset / d == -(offset / d) by {
      assert (offset / d) * d == offset && (-offset / d) * d == -offset;
    }
    DivideLess(a, 1.0, d);
    if n > 0 {
      DivideLess(a, 2.0, d);
    }
  }

  lemma DivideLess(a: real, c: real, d: real)
    requires a >= 0.0 && 0.0 < c <= d
    ensures a / d <= a / c
  {
    var p := a / d;
    assert p >= 0.0 && p * d == a;
    assert p * (d - c) >= 0.0 && p * c == p * d - p * (d - c);
    QuotientOrder(p * c, a, c);
  }

  /** One channel of declick: the difference from `from` is added at `start` and dies away. */
  function Faded(s: seq<real>, start: nat, end: nat, from: real): (r: seq<real>)
    requires start < end <= |s|
    ensures |r| == |s|
  {
    var n, offset := FadeLength(start, end), from - s[start];
    seq(|s|, i requires 0 <= i < |s| => if start <= i < start + n then s[i] + Ramp(offset, n, i - start) else s[i])
  }

  /** The sample before sample `i` of a block that follows `last`. */
  function Previous(s: seq<real>, i: nat, last: real): real
    requires i < |s|
  {
    if i == 0 then last else s[i - 1]
  }

  /**
   Fading replaces the step into `start` by a fraction of it, and pays for that
   with the same fraction on each step it covers.
   */
  lemma FadeSteps(s: seq<real>, start: nat, end: nat, from: real, i: nat)
    requires start < end <= |s| && start <= i < |s|
    ensures var n, slope, r := FadeLength(start, end), Slope(from - s[start], FadeLength(start, end)), Faded(s, start, end, from);
            && (i == start ==> r[i] - from == -slope)
            && (start < i <= start + n ==> r[i] - r[i - 1] == s[i] - s[i - 1] - slope)
            && (start + n < i ==> r[i] - r[i - 1] == s[i] - s[i - 1])
  {
    var n, offset := FadeLength(start, end), from - s[start];
    RampSteps(offset, n, 0);
    if start < i <= start + n {
      RampSteps(offset, n, i - start - 1);
    }
  }

  // ----- one transfer, one channel -------------------------------------------------------

  /** The two fades of fill_out_xfer. `cut` says that the block does not continue what was sent before. */
  function Smooth(raw: seq<real>, got: nat, cut: bool, last: real): (out: seq<real>)
    requires |raw| == XFER_FRAMES && got <= XFER_FRAMES
    ensures |out| == XFER_FRAMES
  {
    var a := if got > 0 && cut then Faded(raw, 0, got, last) else raw;
    if got < XFER_FRAMES then Faded(a, got, XFER_FRAMES, if got > 0 then a[got - 1] else last) else a
  }

  ghost predicate Within(s: seq<real>, a: real) {
    forall i | 0 <= i < |s| :: Abs(s[i]) <= a
  }

  /** A block of signal and then silence. */
  ghost predicate SignalThenSilence(raw: seq<real>, got: nat) {
    && |raw| == XFER_FRAMES && got <= XFER_FRAMES
    && forall i | got <= i < XFER_FRAMES :: raw[i] == 0.0
  }

  /** After the first fade, if there is one. */
  function FadedIn(raw: seq<real>, got: nat, cut: bool, last: real): (r: seq<real>)
    requires |raw| == XFER_FRAMES && got <= XFER_FRAMES
    ensures |r| == XFER_FRAMES
    ensures forall i | got <= i < XFER_FRAMES :: r[i] == raw[i]
  {
    if got > 0 && cut then Faded(raw, 0, got, last) else raw
  }

  /** The sample the silence is faded from. */
  function FadeFrom(r: seq<real>, got: nat, last: real): real
    requires got <= |r|
  {
    if got > 0 then r[got - 1] else last
  }

  /** What a fade over `n` frames adds to the step into the `k`-th frame from its start: the same for each frame it covers, and nothing after. */
  function FadeShare(offset: real, n: nat, k: nat): real {
    if k <= n then -Slope(offset, n) else 0.0
  }

  /** Each step of a played part that is faded in. */
  lemma FadedInSteps(raw: seq<real>, got: nat, last: real, i: nat)
    requires |raw| == XFER_FRAMES && i < got <= XFER_FRAMES
    ensures var r := Faded(raw, 0, got, last);
            r[i] - Previous(r, i, last)
            == (if i == 0 then 0.0 else raw[i] - raw[i - 1]) + FadeShare(last - raw[0], FadeLength(0, got), i)
  {
    FadeSteps(raw, 0, got, last, i);
    hide Faded, Slope;
  }

  /** Each step of the silence that follows the played part. */
  lemma SilenceSteps(r: seq<real>, got: nat, from: real, i: nat)
    requires SignalThenSilence(r, got) && got <= i < XFER_FRAMES
    ensures var out := Faded(r, got, XFER_FRAMES, from);
            && out[i] - (if i == got then from else out[i - 1]) == FadeShare(from, FadeLength(got, XFER_FRAMES), i - got)
            && (forall k | 0 <= k < got :: out[k] == r[k])
  {
    FadeSteps(r, got, XFER_FRAMES, from, i);
    assert from - r[got] == from;
  }

  /**
   Every step of a transfer, the one across the seam included, exactly: the
   signal's own step and the share of the fade that covers it. The step into a
   cut block is replaced by a share of itself, and silence has no steps but the
   fade's.
   */
  lemma TransferSteps(raw: seq<real>, got: nat, cut: bool, last: real, i: nat)
    requires SignalThenSilence(raw, got) && i < XFER_FRAMES
    ensures var out := Smooth(raw, got, cut, last);
            var step := out[i] - Previous(out, i, last);
            && (i < got && !cut ==> step == raw[i] - Previous(raw, i, last))
            && (i < got && cut ==>
                  step == (if i == 0 then 0.0 else raw[i] - raw[i - 1]) + FadeShare(last - raw[0], FadeLength(0, got), i))
            && (got <= i ==>
                  step == FadeShare(FadeFrom(FadedIn(raw, got, cut, last), got, last), FadeLength(got, XFER_FRAMES), i - got))
  {
    hide Faded, FadeShare;
    var r := FadedIn(raw, got, cut, last);
    if i < got && cut {
      FadedInSteps(raw, got, last, i);
    }
    if got < XFER_FRAMES {
      SilenceSteps(r, got, FadeFrom(r, got, last), Max(i, got));
    }
  }

  ghost predicate Bounded(raw: seq<real>, got: nat, last: real, a: real) {
    SignalThenSilence(raw, got) && Within(raw, a) && Abs(last) <= a
  }

  /** What the first fade leaves where it ends. */
  lemma FirstFadeBound(raw: seq<real>, got: nat, last: real, a: real)
    requires Bounded(raw, got, last, a) && got > 0
    ensures var r := Faded(raw, 0, got, last);
            && Abs(r[got - 1]) <= 2.0 * a
            && (got > DECLICK_FRAMES ==> r[got - 1] == raw[got - 1])
  {
    var n, offset := FadeLength(0, got), last - raw[0];
    SlopeBound(offset, n, 2.0 * a);
    hide Slope, Ramp;
    if got <= DECLICK_FRAMES {
      RampSteps(offset, n, n - 1);
    }
  }

  lemma FadeFromBound(raw: seq<real>, got: nat, cut: bool, last: real, a: real)
    requires Bounded(raw, got, last, a)
    ensures Abs(FadeFrom(FadedIn(raw, got, cut, last), got, last)) <= 2.0 * a
    ensures got == 0 || !cut || got > DECLICK_FRAMES ==> Abs(FadeFrom(FadedIn(raw, got, cut, last), got, last)) <= a
  {
    if got > 0 && cut {
      FirstFadeBound(raw, got, last, a);
    }
  }

  /** The last sample of a transfer is back within the range of the signal. */
  lemma TransferLast(raw: seq<real>, got: nat, cut: bool, last: real, a: real)
    requires Bounded(raw, got, last, a)
    ensures Abs(Smooth(raw, got, cut, last)[XFER_FRAMES - 1]) <= a
    ensures got == XFER_FRAMES ==> Smooth(raw, got, cut, last)[XFER_FRAMES - 1] == raw[XFER_FRAMES - 1]
  {
    var r, end := FadedIn(raw, got, cut, last), XFER_FRAMES - 1;
    if got == XFER_FRAMES {
      if cut {
        FirstFadeBound(raw, got, last, a);
      }
    } else {
      var from, n := FadeFrom(r, got, last), FadeLength(got, XFER_FRAMES);
      FadeFromBound(raw, got, cut, last, a);
      if end < got + n {
        assert end - got == n - 1;
        RampSteps(from, n, n - 1);
        SlopeBound(from, n, a);
      }
    }
  }

  // ----- whole runs, one channel ----------------------------------------------------------

  /** One channel of the ring with what fill_out_xfer keeps between transfers. */
  datatype Player = Player(q: Queue<real>, last: real, prevShort: bool)

  /**
   The samples of one transfer, how many of them were played, whether there was
   a break before them, where in the history they start, and the differences
   that its two fades spread out.
   */
  datatype AnyEmitted = Emitted(out: seq<real>, got: nat, cut: bool, start: int, fadeIn: real, fadeOut: real)

  type Emitted = e: AnyEmitted | |e.out| == XFER_FRAMES && e.got <= XFER_FRAMES
    witness Emitted(seq(XFER_FRAMES, _ => 0.0), 0, false, 0, 0.0, 0.0)

  /** The `skipped` test: the read index moved by more than was delivered. */
  predicate Skipped<F>(q: Queue<F>, frames: nat)
    requires q.Ok()
  {
    AfterRead(q, frames).rd != q.rd + |Deliver(q, frames)|
  }

  /** The test is true exactly when the read discarded a frame. */
  lemma SkippedExactly<F>(q: Queue<F>, frames: nat)
    requires q.Ok() && frames <= RING_FRAMES
    ensures Skipped(q, frames) <==> Discarded(q, frames) != []
  {
  }

  function RawBlock(q: Queue<real>): (raw: seq<real>)
    requires q.Ok()
    ensures |raw| == XFER_FRAMES
  {
    var block := Deliver(q, XFER_FRAMES);
    block + seq(XFER_FRAMES - |block|, _ => 0.0)
  }

  function Fill(p: Player): (r: (Player, Emitted))
    requires p.q.Ok()
    ensures r.0.q == AfterRead(p.q, XFER_FRAMES)
    ensures r.0.last == r.1.out[XFER_FRAMES - 1]
  {
    var raw, got, cut := RawBlock(p.q), |Deliver(p.q, XFER_FRAMES)|, Skipped(p.q, XFER_FRAMES) || p.prevShort;
    var out := Smooth(raw, got, cut, p.last);
    (Player(AfterRead(p.q, XFER_FRAMES), out[XFER_FRAMES - 1], got < XFER_FRAMES),
     Emitted(out, got, cut, ReadPlan(|p.q.hist|, p.q.rd, XFER_FRAMES).start,
             p.last - raw[0], FadeFrom(FadedIn(raw, got, cut, p.last), got, p.last)))
  }

  /** What a transfer keeps and reports, apart from its samples. */
  lemma FillFields(p: Player)
    requires p.q.Ok()
    ensures var (p', e) := Fill(p);
            && p' == Player(AfterRead(p.q, XFER_FRAMES), e.out[XFER_FRAMES - 1], e.got < XFER_FRAMES)
            && e.got == |Deliver(p.q, XFER_FRAMES)|
            && (e.cut <==> Skipped(p.q, XFER_FRAMES) || p.prevShort)
  {
    hide Smooth, RawBlock, FadedIn, FadeFrom, Deliver, Skipped, AfterRead, ReadPlan;
  }

  datatype Event = HalWrite(src: seq<real>) | Transfer

  function Play(p: Player, events: seq<Event>): (r: (Player, seq<Emitted>))
    requires p.q.Ok()
    ensures r.0.q.Ok()
  {
    if events == [] then (p, [])
    else
      var (p1, emitted) := Play(p, events[..|events| - 1]);
      match events[|events| - 1]
      case HalWrite(src) => (p1.(q := AfterWrite(p1.q, src)), emitted)
      case Transfer =>
        ReadRefinesLossyFifo(p1.q, XFER_FRAMES);
        var (p2, e) := Fill(p1);
        (p2, emitted + [e])
  }

  /** What a player keeps: the last sample in range and, unless the stream is broken there, equal to the last frame played. */
  ghost predicate Keeps(p: Player, begun: bool, a: real) {
    && p.q.Ok() && Within(p.q.hist, a) && Abs(p.last) <= a
    && (begun && !p.prevShort ==> p.q.rd > 0 && p.last == p.q.hist[p.q.rd - 1])
  }

  lemma RawBlockIsHistory(q: Queue<real>)
    requires q.Ok()
    ensures var raw, got, start := RawBlock(q), |Deliver(q, XFER_FRAMES)|, ReadPlan(|q.hist|, q.rd, XFER_FRAMES).start;
            && q.rd <= start && start + got == AfterRead(q, XFER_FRAMES).rd <= |q.hist|
            && (forall i | 0 <= i < got :: raw[i] == q.hist[start + i])
            && (forall i | got <= i < XFER_FRAMES :: raw[i] == 0.0)
  {
    ReadIsFaithful(q, XFER_FRAMES);
    var plan, block := ReadPlan(|q.hist|, q.rd, XFER_FRAMES), Deliver(q, XFER_FRAMES);
    hide ReadPlan, Deliver;
    forall i | 0 <= i < |block| ensures RawBlock(q)[i] == q.hist[plan.start + i] {
      assert block[i] == q.hist[plan.start..plan.start + plan.count][i];
    }
  }

  lemma RawBlockBounded(p: Player, begun: bool, a: real)
    requires Keeps(p, begun, a)
    ensures var raw, got := RawBlock(p.q), |Deliver(p.q, XFER_FRAMES)|;
            && Bounded(raw, got, p.last, a)
            && (got == XFER_FRAMES ==> AfterRead(p.q, XFER_FRAMES).rd > 0
                                       && raw[XFER_FRAMES - 1] == p.q.hist[AfterRead(p.q, XFER_FRAMES).rd - 1])
  {
    RawBlockIsHistory(p.q);
    hide RawBlock, Deliver, ReadPlan, AfterRead;
  }

  lemma FillKeeps(p: Player, begun: bool, a: real)
    requires Keeps(p, begun, a)
    ensures Keeps(Fill(p).0, true, a)
  {
    RawBlockBounded(p, begun, a);
    ReadRefinesLossyFifo(p.q, XFER_FRAMES);
    var raw, got, cut := RawBlock(p.q), |Deliver(p.q, XFER_FRAMES)|, Skipped(p.q, XFER_FRAMES) || p.prevShort;
    hide Smooth, RawBlock, Deliver, Skipped, Bounded, ReadPlan;
    TransferLast(raw, got, cut, p.last, a);
  }

  /** The differences that the fades of a transfer spread out. */
  ghost predicate FadesBounded(e: Emitted, a: real) {
    && Abs(e.fadeIn) <= 2.0 * a && Abs(e.fadeOut) <= 2.0 * a
    && (e.got == 0 || !e.cut || e.got > DECLICK_FRAMES ==> Abs(e.fadeOut) <= a)
  }

  lemma FillFadesBounded(p: Player, begun: bool, a: real)
    requires Keeps(p, begun, a)
    ensures FadesBounded(Fill(p).1, a)
  {
    RawBlockBounded(p, begun, a);
    var raw, got, cut := RawBlock(p.q), |Deliver(p.q, XFER_FRAMES)|, Skipped(p.q, XFER_FRAMES) || p.prevShort;
    hide Smooth, RawBlock, Deliver, Skipped, ReadPlan, FadedIn, AfterRead;
    FadeFromBound(raw, got, cut, p.last, a);
    assert Abs(raw[0]) <= a;
  }

  /** The block of history that a transfer plays. */
  ghost predicate PlaysFrom(hist: seq<real>, e: Emitted) {
    0 <= e.start && e.start + e.got <= |hist|
  }

  /** What sample `i` adds to the sample before it: the history's own step there, and the share of the fade that covers it. */
  ghost predicate StepIs(hist: seq<real>, e: Emitted, i: nat, before: real)
    requires i < XFER_FRAMES
  {
    && PlaysFrom(hist, e)
    && (i < e.got && !e.cut ==> e.start + i > 0)
    && e.out[i] - before ==
         if i >= e.got then FadeShare(e.fadeOut, FadeLength(e.got, XFER_FRAMES), i - e.got)
         else if !e.cut then hist[e.start + i] - hist[e.start + i - 1]
         else (if i == 0 then 0.0 else hist[e.start + i] - hist[e.start + i - 1]) + FadeShare(e.fadeIn, FadeLength(0, e.got), i)
  }

  /** What a player remembers of the last transfer. */
  ghost predicate Follows(p: Player, emitted: seq<Emitted>) {
    p.q.Ok() &&
    (emitted != [] ==>
       var e := emitted[|emitted| - 1];
       && PlaysFrom(p.q.hist, e)
       && p.last == e.out[XFER_FRAMES - 1] && p.prevShort == (e.got < XFER_FRAMES) && p.q.rd == e.start + e.got
       && (e.got == XFER_FRAMES ==> p.last == p.q.hist[p.q.rd - 1]))
  }

  lemma FillEmits(p: Player)
    requires p.q.Ok()
    ensures var e, raw := Fill(p).1, RawBlock(p.q);
            && e.out == Smooth(raw, e.got, e.cut, p.last)
            && SignalThenSilence(raw, e.got)
            && PlaysFrom(p.q.hist, e)
            && (forall k | 0 <= k < e.got :: raw[k] == p.q.hist[e.start + k])
            && e.fadeIn == p.last - raw[0]
            && e.fadeOut == FadeFrom(FadedIn(raw, e.got, e.cut, p.last), e.got, p.last)
  {
    RawBlockIsHistory(p.q);
    hide Smooth, RawBlock, Deliver, ReadPlan, FadedIn, FadeFrom, AfterRead, Skipped;
  }

  /** After a full read the fades have died away by the last sample. */
  lemma WholeTransferLast(raw: seq<real>, got: nat, cut: bool, last: real)
    requires |raw| == XFER_FRAMES && got <= XFER_FRAMES
    ensures got == XFER_FRAMES ==> Smooth(raw, got, cut, last)[XFER_FRAMES - 1] == raw[XFER_FRAMES - 1]
  {
  }

  /** Where a transfer starts and ends, and when it is cut. */
  lemma FillContinues(p: Player)
    requires p.q.Ok()
    ensures var (p', e) := Fill(p);
            && p'.q == Queue(p.q.hist, e.start + e.got) && p'.q.Ok()
            && p'.prevShort == (e.got < XFER_FRAMES)
            && p.q.rd <= e.start && (e.cut <==> p.prevShort || p.q.rd < e.start)
  {
    RawBlockIsHistory(p.q);
    hide Smooth, RawBlock, Deliver, ReadPlan, FadedIn, FadeFrom;
  }

  lemma FillFollows(p: Player, emitted: seq<Emitted>)
    requires p.q.Ok()
    ensures Follows(Fill(p).0, emitted + [Fill(p).1])
  {
    hide Fill, Smooth, RawBlock, FadedIn, FadeFrom;
    FillContinues(p);
    FillEmits(p);
    var e := Fill(p).1;
    WholeTransferLast(RawBlock(p.q), e.got, e.cut, p.last);
  }

  lemma FillSteps(p: Player, i: nat)
    requires p.q.Ok() && i < XFER_FRAMES
    requires i == 0 && !p.prevShort ==> p.q.rd > 0 && p.last == p.q.hist[p.q.rd - 1]
    ensures var e := Fill(p).1; StepIs(p.q.hist, e, i, Previous(e.out, i, p.last))
  {
    hide Fill, Smooth, RawBlock, FadedIn, FadeFrom, FadeShare, FadeLength, Follows;
    FillEmits(p);
    FillContinues(p);
    var e := Fill(p).1;
    TransferSteps(RawBlock(p.q), e.got, e.cut, p.last, i);
  }

  /**
   Sample `i` of transfer `j` follows the sample before it, in its own transfer
   or the one before, and a transfer is cut exactly if it does not go on where a
   full one before it ended.
   */
  ghost predicate SeamlessAt(hist: seq<real>, emitted: seq<Emitted>, j: nat, i: nat)
    requires j < |emitted| && i < XFER_FRAMES && (j > 0 || i > 0)
  {
    var e := emitted[j];
    && StepIs(hist, e, i, if i > 0 then e.out[i - 1] else emitted[j - 1].out[XFER_FRAMES - 1])
    && (j > 0 ==> var d := emitted[j - 1];
                  d.start + d.got <= e.start && (e.cut <==> d.got < XFER_FRAMES || d.start + d.got < e.start))
  }

  ghost predicate Seamless(hist: seq<real>, emitted: seq<Emitted>)
  {
    forall j, i | 0 <= j < |emitted| && 0 <= i < XFER_FRAMES && (j > 0 || i > 0) :: SeamlessAt(hist, emitted, j, i)
  }

  lemma LongerHistory(hist: seq<real>, longer: seq<real>, p: Player, p': Player, emitted: seq<Emitted>)
    requires hist <= longer && Seamless(hist, emitted)
    requires Follows(p, emitted) && p.q.hist == hist && p' == p.(q := Queue(longer, p.q.rd))
    ensures Seamless(longer, emitted) && Follows(p', emitted)
  {
    hide FadeShare;
    forall j, i | 0 <= j < |emitted| && 0 <= i < XFER_FRAMES && (j > 0 || i > 0) ensures SeamlessAt(longer, emitted, j, i) {
      assert SeamlessAt(hist, emitted, j, i);
    }
  }

  lemma AppendSeamless(p: Player, emitted: seq<Emitted>)
    requires Follows(p, emitted) && Seamless(p.q.hist, emitted)
    ensures Seamless(p.q.hist, emitted + [Fill(p).1])
  {
    hide Fill, StepIs;
    FillContinues(p);
    var more, n := emitted + [Fill(p).1], |emitted|;
    forall j, i | 0 <= j <= n && 0 <= i < XFER_FRAMES && (j > 0 || i > 0) ensures SeamlessAt(p.q.hist, more, j, i) {
      if j < n {
        assert SeamlessAt(p.q.hist, emitted, j, i);
      } else if j > 0 || i > 0 {
        FillSteps(p, i);
      }
    }
  }

  /**
   Whole-run continuity, exactly. Whatever is written and whenever, every sample
   emitted after the first, seams between transfers included, differs from the
   one before it by the step the history makes there and the share of the fade
   that covers it, and by nothing else; and a fade runs exactly after a break.
   */
  lemma {:induction false} PlaybackContinuity(p: Player, events: seq<Event>)
    requires p.q.Ok()
    ensures var (p', emitted) := Play(p, events); Follows(p', emitted) && Seamless(p'.q.hist, emitted)
  {
    if events != [] {
      hide Fill, Seamless, Follows;
      var init := events[..|events| - 1];
      var (p1, emitted) := Play(p, init);
      PlaybackContinuity(p, init);
      match events[|events| - 1]
      case HalWrite(src) =>
        LongerHistory(p1.q.hist, p1.q.hist + src, p1, Play(p, events).0, emitted);
      case Transfer =>
        ReadRefinesLossyFifo(p1.q, XFER_FRAMES);
        FillFollows(p1, emitted);
        AppendSeamless(p1, emitted);
    }
  }

  /** Samples within `a` make differences of at most `2 a`, and the carried sample is always back within `a`. */
  lemma {:induction false} PlaybackRange(p: Player, events: seq<Event>, a: real)
    requires p.q.Ok() && Abs(p.last) <= a && Within(Play(p, events).0.q.hist, a)
    ensures var (p', emitted) := Play(p, events);
            && Abs(p'.last) <= a
            && forall j | 0 <= j < |emitted| :: FadesBounded(emitted[j], a)
  {
    if events != [] {
      hide Fill, FadesBounded;
      var init := events[..|events| - 1];
      var (p1, emitted) := Play(p, init);
      HistoryStep(p, events);
      PrefixWithin(p1.q.hist, Play(p, events).0.q.hist, a);
      PlaybackRange(p, init, a);
      if events[|events| - 1].Transfer? {
        FillKeeps(p1, false, a);
        FillFadesBounded(p1, false, a);
      }
    }
  }

  lemma PrefixWithin(s: seq<real>, t: seq<real>, a: real)
    requires s <= t && Within(t, a)
    ensures Within(s, a)
  {
    forall i | 0 <= i < |s| ensures Abs(s[i]) <= a {
      assert s[i] == t[i];
    }
  }

  // ----- the size of the steps --------------------------------------------------------------

  /**
   Sample `i` of a transfer against the one before it, for samples in [-a, a],
   in numbers. Inside a block the step is at most the history's own, and for
   the 64 frames after a break, or as many as there are, 2 a / (m + 1) more, m
   being the number of frames faded. The step into a block after a break, and
   every step of the silence, is at most that 2 a / (m + 1) alone, and 0 from
   the 65th on.
   */
  ghost predicate StepWithin(hist: seq<real>, e: Emitted, i: nat, before: real, a: real)
    requires i < 384
  {
    var step := Abs(e.out[i] - before);
    && 0 <= e.start && e.start + e.got <= |hist|
    && if i >= e.got then
         step <= if i - e.got <= 64 then 2.0 * a / ((Min(384 - e.got, 64) + 1) as real) else 0.0
       else if i == 0 && e.cut then
         step <= 2.0 * a / ((Min(e.got, 64) + 1) as real)
       else
         && e.start + i > 0
         && step <= Abs(hist[e.start + i] - hist[e.start + i - 1])
                    + if e.cut && i <= 64 then 2.0 * a / ((Min(e.got, 64) + 1) as real) else 0.0
  }

  lemma ShareSize(offset: real, n: nat, k: nat, a: real)
    requires Abs(offset) <= 2.0 * a
    ensures Abs(FadeShare(offset, n, k)) <= if k <= n then 2.0 * a / ((n + 1) as real) else 0.0
    ensures n <= 64 && k > 64 ==> FadeShare(offset, n, k) == 0.0
    ensures 2.0 * a / ((n + 1) as real) >= 0.0
  {
    SlopeBound(offset, n, 2.0 * a);
    hide Slope;
  }

  lemma StepSize(hist: seq<real>, e: Emitted, i: nat, before: real, a: real)
    requires i < XFER_FRAMES && StepIs(hist, e, i, before) && FadesBounded(e, a)
    ensures StepWithin(hist, e, i, before, a)
  {
    hide FadeShare;
    if i >= e.got {
      ShareSize(e.fadeOut, FadeLength(e.got, XFER_FRAMES), i - e.got, a);
    } else if e.cut {
      ShareSize(e.fadeIn, FadeLength(0, e.got), i, a);
    }
  }

  /** No step of the emitted stream after its first sample, seams included, is larger than that. */
  lemma PlaybackSteps(p: Player, events: seq<Event>, a: real, j: nat, i: nat)
    requires p.q.Ok() && Abs(p.last) <= a && Within(Play(p, events).0.q.hist, a)
    requires j < |Play(p, events).1| && i < 384 && (j > 0 || i > 0)
    ensures var (p', emitted) := Play(p, events);
            StepWithin(p'.q.hist, emitted[j], i, if i > 0 then emitted[j].out[i - 1] else emitted[j - 1].out[383], a)
  {
    hide Play, StepIs, FadesBounded, Follows, StepWithin;
    PlaybackContinuity(p, events);
    PlaybackRange(p, events, a);
    var (p', emitted) := Play(p, events);
    assert SeamlessAt(p'.q.hist, emitted, j, i);
    StepSize(p'.q.hist, emitted[j], i, if i > 0 then emitted[j].out[i - 1] else emitted[j - 1].out[383], a);
  }

  // ----- every sample, in numbers -------------------------------------------------------------

  /** What is left of a difference `offset` at the `k`-th of `m` frames, of which at most 64 are faded. */
  function Remainder(offset: real, m: nat, k: nat): real
    requires k < m
  {
    if k < 64 then offset * ((Min(m, 64) - k) as real) / ((Min(m, 64) + 1) as real) else 0.0
  }

  /**
   Every sample of a transfer that follows `last`: the history, in a cut block
   with what is left of the difference from `last`; then silence, with what is
   left of the last sample before it. From the 64th frame on nothing is left.
   */
  ghost predicate SamplesAre(hist: seq<real>, e: Emitted, last: real) {
    && 0 <= e.start && e.start + e.got <= |hist|
    && (forall i | 0 <= i < e.got ::
          e.out[i] == hist[e.start + i] + if e.cut then Remainder(last - hist[e.start], e.got, i) else 0.0)
    && (forall i | e.got <= i < 384 ::
          e.out[i] == Remainder(if e.got > 0 then e.out[e.got - 1] else last, 384 - e.got, i - e.got))
  }

  lemma FadedSample(s: seq<real>, start: nat, end: nat, from: real, i: nat)
    requires start < end <= |s| && i < |s|
    ensures Faded(s, start, end, from)[i] == s[i] + if start <= i < end then Remainder(from - s[start], end - start, i - start) else 0.0
  {
    if start <= i < end {
      var k, n := i - start, FadeLength(start, end);
      assert n == Min(end - start, 64);
      assert k < n ==> Ramp(from - s[start], n, k) == Remainder(from - s[start], end - start, k);
    }
  }

  lemma FillSamples(p: Player)
    requires p.q.Ok()
    ensures SamplesAre(p.q.hist, Fill(p).1, p.last)
  {
    hide Fill, RawBlock, Faded, Remainder;
    FillEmits(p);
    var e, raw := Fill(p).1, RawBlock(p.q);
    var r := FadedIn(raw, e.got, e.cut, p.last);
    forall i | 0 <= i < e.got
      ensures e.out[i] == p.q.hist[e.start + i] + if e.cut then Remainder(p.last - p.q.hist[e.start], e.got, i) else 0.0
    {
      if e.cut {
        FadedSample(raw, 0, e.got, p.last, i);
      }
      if e.got < XFER_FRAMES {
        FadedSample(r, e.got, XFER_FRAMES, FadeFrom(r, e.got, p.last), i);
      }
    }
    if e.got < XFER_FRAMES {
      var from := FadeFrom(r, e.got, p.last);
      if e.got > 0 {
        FadedSample(r, e.got, XFER_FRAMES, from, e.got - 1);
      }
      forall i | e.got <= i < 384
        ensures e.out[i] == Remainder(if e.got > 0 then e.out[e.got - 1] else p.last, 384 - e.got, i - e.got)
      {
        FadedSample(r, e.got, XFER_FRAMES, from, i);
        assert from - r[e.got] == from;
      }
    }
  }

  ghost predicate AllSamplesAre(hist: seq<real>, emitted: seq<Emitted>, last: real) {
    forall j | 0 <= j < |emitted| :: SamplesAre(hist, emitted[j], if j == 0 then last else emitted[j - 1].out[383])
  }

  lemma LongerSamples(hist: seq<real>, longer: seq<real>, emitted: seq<Emitted>, last: real)
    requires hist <= longer && AllSamplesAre(hist, emitted, last)
    ensures AllSamplesAre(longer, emitted, last)
  {
    hide Remainder;
    forall j | 0 <= j < |emitted|
      ensures SamplesAre(longer, emitted[j], if j == 0 then last else emitted[j - 1].out[383])
    {
      assert SamplesAre(hist, emitted[j], if j == 0 then last else emitted[j - 1].out[383]);
    }
  }

  /** Over any run of writes and transfers, every sample that is emitted. */
  lemma {:induction false} PlaybackExactly(p: Player, events: seq<Event>)
    requires p.q.Ok()
    ensures var (p', emitted) := Play(p, events);
            && AllSamplesAre(p'.q.hist, emitted, p.last)
            && p'.last == if emitted == [] then p.last else emitted[|emitted| - 1].out[383]
  {
    hide Fill, SamplesAre;
    if events != [] {
      var init := events[..|events| - 1];
      PlaybackExactly(p, init);
      PlayLast(p, events);
      hide Play, AllSamplesAre;
      var (p1, emitted) := Play(p, init);
      match events[|events| - 1]
      case HalWrite(src) =>
        LongerSamples(p1.q.hist, p1.q.hist + src, emitted, p.last);
      case Transfer =>
        FillSamples(p1);
        SamplesMore(p1.q.hist, emitted, p.last, Fill(p1).1, p1.last);
    }
  }

  lemma PlayLast(p: Player, events: seq<Event>)
    requires p.q.Ok() && events != []
    ensures var (p1, emitted) := Play(p, events[..|events| - 1]);
            match events[|events| - 1]
            case HalWrite(src) => Play(p, events) == (p1.(q := AfterWrite(p1.q, src)), emitted)
            case Transfer => Play(p, events) == (Fill(p1).0, emitted + [Fill(p1).1]) && Fill(p1).0.q.hist == p1.q.hist
  {
    hide Fill;
  }

  lemma SamplesMore(hist: seq<real>, emitted: seq<Emitted>, last: real, e: Emitted, before: real)
    requires AllSamplesAre(hist, emitted, last) && SamplesAre(hist, e, before)
    requires before == if emitted == [] then last else emitted[|emitted| - 1].out[383]
    ensures AllSamplesAre(hist, emitted + [e], last)
  {
    hide SamplesAre;
  }

  lemma HistoryStep(p: Player, events: seq<Event>)
    requires p.q.Ok() && events != []
    ensures Play(p, events[..|events| - 1]).0.q.hist <= Play(p, events).0.q.hist
  {
  }

  /** Nothing was skipped, missing or faded. */
  predicate Clean(emitted: seq<Emitted>) {
    forall j | 0 <= j < |emitted| :: emitted[j].got == XFER_FRAMES && !emitted[j].cut
  }

  function Stream(emitted: seq<Emitted>): seq<real> {
    if emitted == [] then [] else Stream(emitted[..|emitted| - 1]) + emitted[|emitted| - 1].out
  }

  lemma CleanFill(p: Player)
    requires p.q.Ok() && Clean([Fill(p).1])
    ensures p.q.rd <= Fill(p).0.q.rd <= |p.q.hist| && Fill(p).1.out == p.q.hist[p.q.rd..Fill(p).0.q.rd]
  {
    assert [Fill(p).1][0] == Fill(p).1;
    RawBlockIsHistory(p.q);
    hide RawBlock, Deliver, ReadPlan;
    var raw := RawBlock(p.q);
    assert Fill(p).1.out == raw;
  }

  lemma CleanPrefix(emitted: seq<Emitted>, e: Emitted)
    requires Clean(emitted + [e])
    ensures Clean(emitted) && Clean([e])
  {
    var more := emitted + [e];
    forall j | 0 <= j < |emitted| ensures emitted[j].got == XFER_FRAMES && !emitted[j].cut {
      assert emitted[j] == more[j];
    }
    assert more[|emitted|] == e;
  }

  lemma StreamMore(emitted: seq<Emitted>, e: Emitted)
    ensures Stream(emitted + [e]) == Stream(emitted) + e.out
  {
    assert (emitted + [e])[..|emitted|] == emitted;
  }

  /** What has been played so far is a stretch of the history. */
  ghost predicate Played(hist: seq<real>, from: nat, to: nat, stream: seq<real>) {
    from <= to <= |hist| && stream == hist[from..to]
  }

  lemma PlayedMore(hist: seq<real>, longer: seq<real>, from: nat, to: nat, stream: seq<real>)
    requires Played(hist, from, to, stream) && hist <= longer
    ensures Played(longer, from, to, stream)
  {
    assert longer[..|hist|][from..to] == longer[from..to];
  }

  /** Without breaks, what is emitted is the history from where playing began, sample for sample. */
  lemma {:induction false} CleanPlayback(p: Player, events: seq<Event>)
    requires p.q.Ok() && Clean(Play(p, events).1)
    ensures var (p', emitted) := Play(p, events); Played(p'.q.hist, p.q.rd, p'.q.rd, Stream(emitted))
  {
    if events != [] {
      var init := events[..|events| - 1];
      var (p1, emitted) := Play(p, init);
      hide Fill, Clean, Played, Stream;
      if events[|events| - 1].Transfer? {
        var e := Fill(p1).1;
        CleanPrefix(emitted, e);
        CleanPlayback(p, init);
        CleanFill(p1);
        StreamMore(emitted, e);
        PlayedTransfer(p1.q.hist, p.q.rd, p1.q.rd, AfterRead(p1.q, XFER_FRAMES).rd, Stream(emitted));
      } else {
        CleanPlayback(p, init);
        HistoryStep(p, events);
        PlayedMore(p1.q.hist, Play(p, events).0.q.hist, p.q.rd, p1.q.rd, Stream(emitted));
      }
    } else {
      assert p.q.hist[p.q.rd..p.q.rd] == [];
    }
  }

  lemma PlayedTransfer(hist: seq<real>, from: nat, to: nat, on: nat, stream: seq<real>)
    requires Played(hist, from, to, stream) && to <= on <= |hist|
    ensures Played(hist, from, on, stream + hist[to..on])
  {
  }
}
