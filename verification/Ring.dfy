/**
 The shared audio ring: index arithmetic, latency trim, lap handling, and the
 two channels (stereo playback, mono capture) stored in fixed buffers.

 A `Queue` is the meaning of one channel: every frame ever written, in order,
 and the published read index. The published write index is the length of that
 history. The class `Ring` keeps only the last RING_FRAMES frames in its
 buffers and is proved to compute the same reads.
 */
module RingModel {
  import opened Basics

  const RING_FRAMES: nat := 32768
  const RING_TARGET_BACKLOG: nat := 1536
  const RING_TRIM_FRAMES: nat := 64

  datatype Stereo = Stereo(left: real, right: real)

  const SILENCE := Stereo(0.0, 0.0)

  datatype Queue<F> = Queue(hist: seq<F>, rd: nat) {
    predicate Ok() { rd <= |hist| }

    function Backlog(): int { |hist| - rd }

    function Waiting(): seq<F>
      requires Ok()
    {
      hist[rd..]
    }
  }

  /** The block of frames a read takes: its first position and its size. It never ends before position 0. */
  datatype AnyPlan = Plan(start: int, count: nat)

  type Plan = p: AnyPlan | 0 <= p.start + p.count witness Plan(0, 0)

  // ----- one read -------------------------------------------------------------

  function RingTrim(avail: nat, frames: nat): (trim: nat)
    ensures trim <= RING_TRIM_FRAMES
    ensures trim > 0 ==> avail - trim >= frames + RING_TARGET_BACKLOG
    ensures trim < RING_TRIM_FRAMES ==> avail - trim <= frames + RING_TARGET_BACKLOG
  {
    if avail <= frames + RING_TARGET_BACKLOG then 0
    else
      var excess := avail - frames - RING_TARGET_BACKLOG;
      if excess > RING_TRIM_FRAMES then RING_TRIM_FRAMES else excess
  }

  /**
   `start` is negative only when the reader was lapped and asks for more frames
   than were ever written. The source's unsigned index wraps there; slots and
   the published sum come out the same, as 2^64 is a multiple of RING_FRAMES.
   */
  function ReadPlan(w: nat, rd: nat, frames: nat): (p: Plan)
    ensures p.count <= frames
  {
    var avail := if w > rd then w - rd else 0;
    if avail > RING_FRAMES then
      Plan(w - frames, frames)
    else
      var trim := RingTrim(avail, frames);
      Plan(rd + trim, Min(avail - trim, frames))
  }

  /** Position of the latest of the first `w` frames to be stored in the slot of position `p`. */
  function Newest(w: nat, p: int): (q: int)
    ensures w - RING_FRAMES <= q < w
    ensures w - RING_FRAMES <= p < w ==> q == p
    ensures p < w ==> p <= q
    ensures q % RING_FRAMES == p % RING_FRAMES
  {
    NewestSlot(w, p);
    w - 1 - (w - 1 - p) % RING_FRAMES
  }

  lemma NewestSlot(w: nat, p: int)
    ensures (w - 1 - (w - 1 - p) % RING_FRAMES) % RING_FRAMES == p % RING_FRAMES
  {
    var k := (w - 1 - p) / RING_FRAMES;
    assert w - 1 - (w - 1 - p) % RING_FRAMES == p + k * RING_FRAMES;
    ModShift(p, k);
  }

  lemma ModShift(p: int, k: int)
    ensures (p + k * RING_FRAMES) % RING_FRAMES == p % RING_FRAMES
  {
  }

  /** Every position of the block lies before `w`, and its slot has been stored to. */
  predicate InReach(w: nat, start: int, n: nat) {
    n > 0 ==> start + n <= w && (0 <= start || RING_FRAMES <= w)
  }

  /** What the slots of `n` positions from `start` on hold after all of `hist` was stored. */
  function SlotContents<F>(hist: seq<F>, start: int, n: nat): (block: seq<F>)
    requires InReach(|hist|, start, n)
    ensures |block| == n
  {
    seq(n, i requires 0 <= i < n => hist[Newest(|hist|, start + i)])
  }

  function Deliver<F>(q: Queue<F>, frames: nat): (block: seq<F>)
    requires q.Ok()
    ensures |block| == ReadPlan(|q.hist|, q.rd, frames).count
  {
    var plan := ReadPlan(|q.hist|, q.rd, frames);
    SlotContents(q.hist, plan.start, plan.count)
  }

  function AfterRead<F>(q: Queue<F>, frames: nat): Queue<F> {
    var plan := ReadPlan(|q.hist|, q.rd, frames);
    q.(rd := plan.start + plan.count)
  }

  function AfterWrite<F>(q: Queue<F>, src: seq<F>): Queue<F> {
    q.(hist := q.hist + src)
  }

  /** The reader was lapped: the writer is more than a whole ring ahead. */
  predicate Lapped<F>(q: Queue<F>) {
    q.Backlog() > RING_FRAMES
  }

  /** The read hands out one contiguous stretch of unread history. */
  predicate Faithful<F(==)>(q: Queue<F>, frames: nat)
    requires q.Ok()
  {
    var plan := ReadPlan(|q.hist|, q.rd, frames);
    && q.rd <= plan.start
    && plan.start + plan.count <= |q.hist|
    && Deliver(q, frames) == q.hist[plan.start..plan.start + plan.count]
  }

  lemma ReadIsFaithful<F>(q: Queue<F>, frames: nat)
    requires q.Ok()
    requires frames <= RING_FRAMES || !Lapped(q)
    ensures Faithful(q, frames)
  {
    var plan := ReadPlan(|q.hist|, q.rd, frames);
    var block, stretch := Deliver(q, frames), q.hist[plan.start..plan.start + plan.count];
    forall i | 0 <= i < plan.count ensures block[i] == stretch[i] {
      assert Newest(|q.hist|, plan.start + i) == plan.start + i;
    }
  }

  /** The history in which frame k is the number k, so that no two frames are equal. */
  function Numbered(w: nat): seq<nat> {
    seq(w, i => i)
  }

  /** A read of more than RING_FRAMES frames goes wrong exactly when the reader was lapped. */
  lemma FaithfulExactly(w: nat, rd: nat, frames: nat)
    requires rd <= w
    ensures Faithful(Queue(Numbered(w), rd), frames) <==> frames <= RING_FRAMES || w - rd <= RING_FRAMES
  {
    var q := Queue(Numbered(w), rd);
    if frames <= RING_FRAMES || w - rd <= RING_FRAMES {
      ReadIsFaithful(q, frames);
    } else if q.rd <= w - frames {
      assert Deliver(q, frames)[0] == Newest(w, w - frames);
      assert q.hist[w - frames..w][0] == w - frames;
    }
  }

  /**
   A read in numbers. A reader more than 32768 frames behind gets the latest
   frames. Otherwise it gets the oldest ones, unless the backlog beyond the
   request is over 1536: then it skips what is over, but at most 64 frames.
   */
  lemma ReadInNumbers<F>(q: Queue<F>, frames: nat)
    requires q.Ok()
    ensures var behind, end := |q.hist| - q.rd, AfterRead(q, frames).rd;
            && end == (if behind > 32768 then |q.hist|
                       else if behind <= frames then |q.hist|
                       else if behind <= frames + 1536 then q.rd + frames
                       else if behind <= frames + 1600 then |q.hist| - 1536
                       else q.rd + frames + 64)
            && |Deliver(q, frames)| == (if behind > 32768 || behind > frames then frames else behind)
            && (frames <= 32768 || behind <= 32768 ==>
                  0 <= end - |Deliver(q, frames)| && end <= |q.hist|
                  && Deliver(q, frames) == q.hist[end - |Deliver(q, frames)|..end])
  {
    if frames <= 32768 || !Lapped(q) {
      ReadIsFaithful(q, frames);
    }
    hide SlotContents;
  }

  // ----- refinement of a lossy FIFO ------------------------------------------------

  /**
   One read of a lossy FIFO: the waiting frames split into frames thrown away,
   frames delivered and frames still waiting. Nothing is thrown away on a short
   read, and nothing but a lap throws away more than one trim step or cuts
   below the backlog ceiling.
   */
  ghost predicate LossyRead<F>(waiting: seq<F>, frames: nat, lost: seq<F>, block: seq<F>, rest: seq<F>) {
    && waiting == lost + block + rest
    && |block| <= frames
    && (|block| < frames ==> lost == [] && rest == [])
    && (lost != [] ==>
          || (|lost| <= RING_TRIM_FRAMES && |rest| >= RING_TARGET_BACKLOG)
          || (|waiting| > RING_FRAMES && rest == []))
  }

  /** What one read did, as frames. */
  datatype Segment<F> = Segment(lost: seq<F>, block: seq<F>)

  function Discarded<F>(q: Queue<F>, frames: nat): seq<F>
    requires q.Ok()
  {
    var start := ReadPlan(|q.hist|, q.rd, frames).start;
    if q.rd <= start <= |q.hist| then q.hist[q.rd..start] else []
  }

  lemma ReadRefinesLossyFifo<F>(q: Queue<F>, frames: nat)
    requires q.Ok() && frames <= RING_FRAMES
    ensures AfterRead(q, frames).Ok()
    ensures LossyRead(q.Waiting(), frames, Discarded(q, frames), Deliver(q, frames), AfterRead(q, frames).Waiting())
  {
    ReadIsFaithful(q, frames);
    var plan := ReadPlan(|q.hist|, q.rd, frames);
    var w, s, e := |q.hist|, plan.start, plan.start + plan.count;
    assert q.hist[q.rd..] == q.hist[q.rd..s] + q.hist[s..e] + q.hist[e..];
  }

  datatype Op<F> = Write(src: seq<F>) | Read(frames: nat)

  predicate ReadsFit<F>(ops: seq<Op<F>>) {
    forall i | 0 <= i < |ops| && ops[i].Read? :: ops[i].frames <= RING_FRAMES
  }

  function Apply<F>(q: Queue<F>, op: Op<F>): (r: Queue<F>)
    requires q.Ok()
    requires op.Read? ==> op.frames <= RING_FRAMES
    ensures r.Ok()
  {
    match op
    case Write(src) => AfterWrite(q, src)
    case Read(frames) => AfterRead(q, frames)
  }

  function Run<F>(q: Queue<F>, ops: seq<Op<F>>): (r: Queue<F>)
    requires q.Ok() && ReadsFit(ops)
    ensures r.Ok()
  {
    if ops == [] then q
    else Apply(Run(q, ops[..|ops| - 1]), ops[|ops| - 1])
  }

  function WrittenBy<F>(op: Op<F>): seq<F> {
    if op.Write? then op.src else []
  }

  function Written<F>(ops: seq<Op<F>>): seq<F> {
    if ops == [] then []
    else Written(ops[..|ops| - 1]) + WrittenBy(ops[|ops| - 1])
  }

  function TakenBy<F>(q: Queue<F>, op: Op<F>): seq<Segment<F>>
    requires q.Ok()
  {
    match op
    case Write(_) => []
    case Read(frames) => [Segment(Discarded(q, frames), Deliver(q, frames))]
  }

  /** Everything taken out of the queue by the reads of a run: discarded and delivered, in order. */
  function Taken<F>(q: Queue<F>, ops: seq<Op<F>>): seq<Segment<F>>
    requires q.Ok() && ReadsFit(ops)
  {
    if ops == [] then []
    else Taken(q, ops[..|ops| - 1]) + TakenBy(Run(q, ops[..|ops| - 1]), ops[|ops| - 1])
  }

  function Unroll<F>(segments: seq<Segment<F>>): seq<F> {
    if segments == [] then []
    else
      var s := segments[|segments| - 1];
      Unroll(segments[..|segments| - 1]) + s.lost + s.block
  }

  function LostFrames<F>(segments: seq<Segment<F>>): nat {
    if segments == [] then 0
    else LostFrames(segments[..|segments| - 1]) + |segments[|segments| - 1].lost|
  }

  function DeliveredFrames<F>(segments: seq<Segment<F>>): nat {
    if segments == [] then 0
    else DeliveredFrames(segments[..|segments| - 1]) + |segments[|segments| - 1].block|
  }

  lemma StepConservesFrames<F>(q: Queue<F>, op: Op<F>)
    requires q.Ok() && (op.Read? ==> op.frames <= RING_FRAMES)
    ensures Apply(q, op).hist == q.hist + WrittenBy(op)
    ensures q.Waiting() + WrittenBy(op) == Unroll(TakenBy(q, op)) + Apply(q, op).Waiting()
  {
    match op
    case Write(src) =>
      assert TakenBy(q, op) == [];
      assert (q.hist + src)[q.rd..] == q.hist[q.rd..] + src;
    case Read(frames) =>
      ReadRefinesLossyFifo(q, frames);
      var s := TakenBy(q, op);
      assert s[..|s| - 1] == [];
  }

  lemma {:induction false} UnrollConcat<F>(a: seq<Segment<F>>, b: seq<Segment<F>>)
    ensures Unroll(a + b) == Unroll(a) + Unroll(b)
  {
    if b == [] {
      assert a + b == a;
    } else {
      assert (a + b)[..|a + b| - 1] == a + b[..|b| - 1];
      UnrollConcat(a, b[..|b| - 1]);
    }
  }

  /** Two accounts of a queue, one after the other. */
  lemma Join<T>(start: seq<T>, written: seq<T>, taken: seq<T>, middle: seq<T>, more: seq<T>, moreTaken: seq<T>, end: seq<T>)
    requires start + written == taken + middle
    requires middle + more == moreTaken + end
    ensures start + (written + more) == (taken + moreTaken) + end
  {
    assert start + (written + more) == (start + written) + more;
    assert taken + (middle + more) == (taken + middle) + more;
    assert taken + (moreTaken + end) == (taken + moreTaken) + end;
  }

  /**
   Over any run, the frames waiting at the start followed by the frames written
   are exactly the discarded and delivered blocks, in order, followed by the
   frames still waiting: nothing is repeated, reordered or made up.
   */
  lemma {:induction false} RunConservesFrames<F>(q: Queue<F>, ops: seq<Op<F>>)
    requires q.Ok() && ReadsFit(ops)
    ensures Run(q, ops).hist == q.hist + Written(ops)
    ensures q.Waiting() + Written(ops) == Unroll(Taken(q, ops)) + Run(q, ops).Waiting()
  {
    if ops != [] {
      var init, last := ops[..|ops| - 1], ops[|ops| - 1];
      RunConservesFrames(q, init);
      var before, after := Run(q, init), Run(q, ops);
      StepConservesFrames(before, last);
      UnrollConcat(Taken(q, init), TakenBy(before, last));
      assert Taken(q, ops) == Taken(q, init) + TakenBy(before, last);
      assert Written(ops) == Written(init) + WrittenBy(last);
      assert after == Apply(before, last);
      hide *;
      Join(q.Waiting(), Written(init), Unroll(Taken(q, init)), before.Waiting(),
           WrittenBy(last), Unroll(TakenBy(before, last)), after.Waiting());
    }
  }

  lemma {:induction false} UnrollLength<F>(segments: seq<Segment<F>>)
    ensures |Unroll(segments)| == LostFrames(segments) + DeliveredFrames(segments)
  {
    if segments != [] {
      UnrollLength(segments[..|segments| - 1]);
    }
  }

  lemma RunConservesCounts<F>(q: Queue<F>, ops: seq<Op<F>>)
    requires q.Ok() && ReadsFit(ops)
    ensures q.Backlog() + |Written(ops)|
         == LostFrames(Taken(q, ops)) + DeliveredFrames(Taken(q, ops)) + Run(q, ops).Backlog()
  {
    RunConservesFrames(q, ops);
    UnrollLength(Taken(q, ops));
    assert |q.Waiting() + Written(ops)| == |Unroll(Taken(q, ops))| + |Run(q, ops).Waiting()|;
  }

  // ----- latency ceiling ---------------------------------------------------------

  /** Alternate one batch of writes and one read of `frames`. */
  function Rounds<F>(q: Queue<F>, frames: nat, batches: seq<seq<F>>): (r: Queue<F>)
    requires q.Ok()
    ensures r.Ok()
  {
    if batches == [] then q
    else
      var before := Rounds(q, frames, batches[..|batches| - 1]);
      AfterRead(AfterWrite(before, batches[|batches| - 1]), frames)
  }

  lemma OneRound<F>(q: Queue<F>, frames: nat, batch: seq<F>)
    requires q.Ok()
    ensures var b := AfterRead(AfterWrite(q, batch), frames).Backlog();
            && (|batch| <= frames ==> b <= Max(RING_TARGET_BACKLOG, q.Backlog() - RING_TRIM_FRAMES))
            && (|batch| <= frames + RING_TRIM_FRAMES && q.Backlog() <= RING_TARGET_BACKLOG ==> b <= RING_TARGET_BACKLOG)
            && (|batch| == frames && RING_TARGET_BACKLOG <= q.Backlog() <= RING_FRAMES - frames ==>
                  b == Max(RING_TARGET_BACKLOG, q.Backlog() - RING_TRIM_FRAMES))
  {
  }

  lemma {:induction false} LatencyCeiling<F>(q: Queue<F>, frames: nat, batches: seq<seq<F>>)
    requires q.Ok()
    requires forall i | 0 <= i < |batches| :: |batches[i]| <= frames
    ensures Rounds(q, frames, batches).Backlog()
         <= Max(RING_TARGET_BACKLOG, q.Backlog() - RING_TRIM_FRAMES * |batches|)
  {
    if batches != [] {
      LatencyCeiling(q, frames, batches[..|batches| - 1]);
      OneRound(Rounds(q, frames, batches[..|batches| - 1]), frames, batches[|batches| - 1]);
    }
  }

  /** 488 reads bring even a full ring down to the ceiling. */
  lemma CeilingReached<F>(q: Queue<F>, frames: nat, batches: seq<seq<F>>)
    requires q.Ok() && q.Backlog() <= RING_FRAMES
    requires forall i | 0 <= i < |batches| :: |batches[i]| <= frames
    requires |batches| >= 488
    ensures Rounds(q, frames, batches).Backlog() <= RING_TARGET_BACKLOG
  {
    LatencyCeiling(q, frames, batches);
  }

  lemma {:induction false} CeilingKept<F>(q: Queue<F>, frames: nat, batches: seq<seq<F>>)
    requires q.Ok() && q.Backlog() <= RING_TARGET_BACKLOG
    requires forall i | 0 <= i < |batches| :: |batches[i]| <= frames + RING_TRIM_FRAMES
    ensures Rounds(q, frames, batches).Backlog() <= RING_TARGET_BACKLOG
  {
    if batches != [] {
      CeilingKept(q, frames, batches[..|batches| - 1]);
      OneRound(Rounds(q, frames, batches[..|batches| - 1]), frames, batches[|batches| - 1]);
    }
  }

  /** The bound is exact for a writer that keeps pace and never laps the reader. */
  lemma {:induction false} LatencyExact<F>(q: Queue<F>, frames: nat, batches: seq<seq<F>>)
    requires q.Ok() && RING_TARGET_BACKLOG <= q.Backlog() <= RING_FRAMES - frames
    requires forall i | 0 <= i < |batches| :: |batches[i]| == frames
    ensures Rounds(q, frames, batches).Backlog()
         == Max(RING_TARGET_BACKLOG, q.Backlog() - RING_TRIM_FRAMES * |batches|)
  {
    if batches != [] {
      LatencyExact(q, frames, batches[..|batches| - 1]);
      OneRound(Rounds(q, frames, batches[..|batches| - 1]), frames, batches[|batches| - 1]);
    }
  }

  // ----- the buffers ---------------------------------------------------------------

  /** The first `n` frames of an interleaved stereo buffer. */
  function Frames(samples: seq<real>, n: nat): (f: seq<Stereo>)
    requires 2 * n <= |samples|
    ensures |f| == n
  {
    seq(n, i requires 0 <= i < n => Stereo(samples[2 * i], samples[2 * i + 1]))
  }

  /** Sample `j` of the interleaved form of a block. */
  function Sample(block: seq<Stereo>, j: nat): real
    requires j < 2 * |block|
  {
    if j % 2 == 0 then block[j / 2].left else block[j / 2].right
  }

  /** An interleaved buffer that holds a block and then zeroes reads back as the block and then silence. */
  lemma BlockThenSilence(samples: seq<real>, block: seq<Stereo>, n: nat)
    requires |block| <= n && 2 * n <= |samples|
    requires forall j | 0 <= j < 2 * |block| :: samples[j] == Sample(block, j)
    requires forall j | 2 * |block| <= j < 2 * n :: samples[j] == 0.0
    ensures Frames(samples, n) == block + seq(n - |block|, _ => SILENCE)
  {
  }

  /** The playback buffer holds the last RING_FRAMES frames of a history, each in its own slot. */
  ghost predicate HoldsFrames(data: seq<real>, hist: seq<Stereo>)
    requires |data| == 2 * RING_FRAMES
  {
    forall k {:trigger hist[k]} | Max(0, |hist| - RING_FRAMES) <= k < |hist| ::
      data[2 * (k % RING_FRAMES)] == hist[k].left && data[2 * (k % RING_FRAMES) + 1] == hist[k].right
  }

  ghost predicate HoldsSamples(data: seq<real>, hist: seq<real>)
    requires |data| == RING_FRAMES
  {
    forall k {:trigger hist[k]} | Max(0, |hist| - RING_FRAMES) <= k < |hist| :: data[k % RING_FRAMES] == hist[k]
  }

  /** Whatever position a reader asks for, its slot holds the latest frame stored there. */
  lemma FrameInSlot(data: seq<real>, hist: seq<Stereo>, p: int)
    requires |data| == 2 * RING_FRAMES && HoldsFrames(data, hist)
    requires p < |hist| && 0 <= Newest(|hist|, p)
    ensures Stereo(data[2 * (p % RING_FRAMES)], data[2 * (p % RING_FRAMES) + 1]) == hist[Newest(|hist|, p)]
  {
  }

  lemma SampleInSlot(data: seq<real>, hist: seq<real>, p: int)
    requires |data| == RING_FRAMES && HoldsSamples(data, hist)
    requires p < |hist| && 0 <= Newest(|hist|, p)
    ensures data[p % RING_FRAMES] == hist[Newest(|hist|, p)]
  {
  }

  lemma StoreFrame(data: seq<real>, hist: seq<Stereo>, f: Stereo)
    requires |data| == 2 * RING_FRAMES && HoldsFrames(data, hist)
    ensures var slot := |hist| % RING_FRAMES;
            HoldsFrames(data[slot * 2 := f.left][slot * 2 + 1 := f.right], hist + [f])
  {
    forall k | Max(0, |hist| + 1 - RING_FRAMES) <= k < |hist| ensures k % RING_FRAMES != |hist| % RING_FRAMES {
      SlotsDiffer(k, |hist|);
    }
  }

  lemma StoreSample(data: seq<real>, hist: seq<real>, x: real)
    requires |data| == RING_FRAMES && HoldsSamples(data, hist)
    ensures HoldsSamples(data[|hist| % RING_FRAMES := x], hist + [x])
  {
    forall k | Max(0, |hist| + 1 - RING_FRAMES) <= k < |hist| ensures k % RING_FRAMES != |hist| % RING_FRAMES {
      SlotsDiffer(k, |hist|);
    }
  }

  class Ring {
    const outData: array<real>
    const inData: array<real>
    var outWrite: nat
    var outRead: nat
    var inWrite: nat
    var inRead: nat
    var outIoRunning: bool
    var inIoRunning: bool

    // Every frame ever written to either channel.
    ghost var outHist: seq<Stereo>
    ghost var inHist: seq<real>

    ghost predicate Valid()
      reads this, outData, inData
    {
      && outData != inData
      && outData.Length == 2 * RING_FRAMES
      && inData.Length == RING_FRAMES
      && outRead <= outWrite == |outHist|
      && inRead <= inWrite == |inHist|
      && HoldsFrames(outData[..], outHist)
      && HoldsSamples(inData[..], inHist)
    }

    ghost function Out(): Queue<Stereo>
      reads this
    {
      Queue(outHist, outRead)
    }

    ghost function In(): Queue<real>
      reads this
    {
      Queue(inHist, inRead)
    }

    constructor ()
      ensures Valid() && fresh(outData) && fresh(inData)
      ensures Out() == Queue([], 0) && In() == Queue([], 0)
      ensures !outIoRunning && !inIoRunning
    {
      outData := new real[2 * RING_FRAMES](_ => 0.0);
      inData := new real[RING_FRAMES](_ => 0.0);
      outWrite, outRead, inWrite, inRead := 0, 0, 0, 0;
      outIoRunning, inIoRunning := false, false;
      outHist, inHist := [], [];
    }

    method OutWrite(src: array<real>, frames: nat)
      requires Valid() && 2 * frames <= src.Length && src != outData && src != inData
      modifies `outWrite, `outHist, outData
      ensures Valid()
      ensures Out() == AfterWrite(old(Out()), Frames(src[..], frames))
    {
      var w := outWrite;
      ghost var before := outHist;
      for i := 0 to frames
        invariant outHist == before + Frames(src[..], frames)[..i]
        invariant outWrite == w == |before| && outRead == old(outRead)
        invariant HoldsFrames(outData[..], outHist)
      {
        var slot := (w + i) % RING_FRAMES;
        StoreFrame(outData[..], outHist, Stereo(src[2 * i], src[2 * i + 1]));
        outData[slot * 2] := src[i * 2];
        outData[slot * 2 + 1] := src[i * 2 + 1];
        outHist := outHist + [Stereo(src[2 * i], src[2 * i + 1])];
      }
      outWrite := w + frames;
    }

    /** The copy loop of OutRead: frames from position `rd` on, taken out of their slots. */
    method TakeFrames(dst: array<real>, rd: int, n: nat)
      requires Valid() && 2 * n <= dst.Length && dst != outData && dst != inData
      requires InReach(outWrite, rd, n)
      modifies dst
      ensures var block := SlotContents(outHist, rd, n); forall j | 0 <= j < 2 * n :: dst[j] == Sample(block, j)
      ensures forall j | 2 * n <= j < dst.Length :: dst[j] == old(dst[j])
    {
      ghost var block := SlotContents(outHist, rd, n);
      for i := 0 to n
        invariant outData[..] == old(outData[..])
        invariant forall j | 0 <= j < 2 * i :: dst[j] == Sample(block, j)
        invariant forall j | 2 * i <= j < dst.Length :: dst[j] == old(dst[j])
      {
        var slot := (rd + i) % RING_FRAMES;
        FrameInSlot(outData[..], outHist, rd + i);
        dst[i * 2] := outData[slot * 2];
        dst[i * 2 + 1] := outData[slot * 2 + 1];
      }
    }

    /** The silence loop of OutRead: zeroes for the frames that were not there. */
    method PadSilence(dst: array<real>, n: nat, frames: nat)
      requires n <= frames && 2 * frames <= dst.Length
      modifies dst
      ensures forall j | 2 * n <= j < 2 * frames :: dst[j] == 0.0
      ensures forall j | 0 <= j < dst.Length && (j < 2 * n || 2 * frames <= j) :: dst[j] == old(dst[j])
    {
      for i := n to frames
        invariant forall j | 2 * n <= j < 2 * i :: dst[j] == 0.0
        invariant forall j | 0 <= j < dst.Length && (j < 2 * n || 2 * i <= j) :: dst[j] == old(dst[j])
      {
        dst[i * 2] := 0.0;
        dst[i * 2 + 1] := 0.0;
      }
    }

    method OutRead(dst: array<real>, frames: nat) returns (n: nat)
      requires Valid() && 2 * frames <= dst.Length && dst != outData && dst != inData
      modifies `outRead, dst
      ensures Valid()
      ensures Out() == AfterRead(old(Out()), frames)
      ensures n == |Deliver(old(Out()), frames)|
      ensures Frames(dst[..], frames) == Deliver(old(Out()), frames) + seq(frames - n, _ => SILENCE)
      ensures forall j | 2 * frames <= j < dst.Length :: dst[j] == old(dst[j])
    {
      var w, rd: int := outWrite, outRead;
      var avail := if w > rd then w - rd else 0;
      if avail > RING_FRAMES {
        rd := w - frames;
        avail := frames;
      } else {
        var trim := RingTrim(avail, frames);
        rd := rd + trim;
        avail := avail - trim;
      }
      n := if avail > frames then frames else avail;
      ghost var block := Deliver(Out(), frames);
      TakeFrames(dst, rd, n);
      PadSilence(dst, n, frames);
      BlockThenSilence(dst[..], block, frames);
      outRead := rd + n;
    }

    method InWrite(src: array<real>, frames: nat)
      requires Valid() && frames <= src.Length && src != outData && src != inData
      modifies `inWrite, `inHist, inData
      ensures Valid()
      ensures In() == AfterWrite(old(In()), src[..frames])
    {
      var w := inWrite;
      ghost var before := inHist;
      for i := 0 to frames
        invariant inHist == before + src[..i]
        invariant inWrite == w == |before| && inRead == old(inRead)
        invariant HoldsSamples(inData[..], inHist)
      {
        var slot := (w + i) % RING_FRAMES;
        StoreSample(inData[..], inHist, src[i]);
        inData[slot] := src[i];
        inHist := inHist + [src[i]];
      }
      inWrite := w + frames;
    }

    /** The copy loop of InRead. */
    method TakeSamples(dst: array<real>, rd: int, n: nat)
      requires Valid() && n <= dst.Length && dst != outData && dst != inData
      requires InReach(inWrite, rd, n)
      modifies dst
      ensures dst[..n] == SlotContents(inHist, rd, n)
      ensures forall j | n <= j < dst.Length :: dst[j] == old(dst[j])
    {
      ghost var block := SlotContents(inHist, rd, n);
      for i := 0 to n
        invariant inData[..] == old(inData[..])
        invariant forall j | 0 <= j < i :: dst[j] == block[j]
        invariant forall j | i <= j < dst.Length :: dst[j] == old(dst[j])
      {
        var slot := (rd + i) % RING_FRAMES;
        SampleInSlot(inData[..], inHist, rd + i);
        dst[i] := inData[slot];
      }
    }

    /** The silence loop of InRead. */
    method PadZeroes(dst: array<real>, n: nat, frames: nat)
      requires n <= frames <= dst.Length
      modifies dst
      ensures forall j | n <= j < frames :: dst[j] == 0.0
      ensures forall j | 0 <= j < dst.Length && (j < n || frames <= j) :: dst[j] == old(dst[j])
    {
      for i := n to frames
        invariant forall j | n <= j < i :: dst[j] == 0.0
        invariant forall j | 0 <= j < dst.Length && (j < n || i <= j) :: dst[j] == old(dst[j])
      {
        dst[i] := 0.0;
      }
    }

    method InRead(dst: array<real>, frames: nat) returns (n: nat)
      requires Valid() && frames <= dst.Length && dst != outData && dst != inData
      modifies `inRead, dst
      ensures Valid()
      ensures In() == AfterRead(old(In()), frames)
      ensures n == |Deliver(old(In()), frames)|
      ensures dst[..frames] == Deliver(old(In()), frames) + seq(frames - n, _ => 0.0)
      ensures forall j | frames <= j < dst.Length :: dst[j] == old(dst[j])
    {
      var w, rd: int := inWrite, inRead;
      var avail := if w > rd then w - rd else 0;
      if avail > RING_FRAMES {
        rd := w - frames;
        avail := frames;
      } else {
        var trim := RingTrim(avail, frames);
        rd := rd + trim;
        avail := avail - trim;
      }
      n := if avail > frames then frames else avail;
      ghost var block := Deliver(In(), frames);
      TakeSamples(dst, rd, n);
      PadZeroes(dst, n, frames);
      hide Deliver, SlotContents, ReadPlan;
      assert dst[..frames] == block + seq(frames - n, _ => 0.0);
      inRead := rd + n;
    }
  }

  /** Two positions less than a ring apart never share a slot. */
  lemma SlotsDiffer(a: nat, b: nat)
    requires a < b < a + RING_FRAMES
    ensures a % RING_FRAMES != b % RING_FRAMES
  {
  }
}
