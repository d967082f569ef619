/**
 The playback ring under concurrency. Three parties share the ring: the HAL
 writer, the bridge reader, and StartIO, which also stores the read index. Each
 atomic load or store and each sample copy is one step, and steps interleave
 freely.

 `hist` records every sample the writer has stored, published or not; `seen`
 records how far the writer had got when the reader copied each sample. Both
 only record: no step consults them.
 */
module RingSteps {
  import opened Basics
  import opened RingModel

  const SAMPLES: nat := 2 * RING_FRAMES

  datatype Writer = NotWriting | Storing(base: nat, src: seq<real>, done: nat)

  datatype Reader =
    | NotReading
    | LoadedWrite(frames: nat, w: nat)
    | Copying(w: nat, plan: Plan, dst: seq<real>, seen: seq<nat>)

  datatype Starter = NotStarting | LoadedForStart(w: nat)

  datatype State = State(
    mem: seq<real>, published: nat, consumed: nat, hist: seq<real>,
    writer: Writer, reader: Reader, starter: Starter)

  datatype Step =
    | WriterLoad(src: seq<real>)
    | WriterStore
    | WriterPublish
    | ReaderLoadWrite(frames: nat)
    | ReaderLoadRead
    | ReaderCopy
    | ReaderPublish
    | StartLoad
    | StartStore

  /** Where sample `j` of a block that starts at frame `start` lives. */
  function Cell(start: int, j: nat): (c: nat)
    ensures c < SAMPLES
  {
    (start + j / 2) % RING_FRAMES * 2 + j % 2
  }

  lemma CellIsPosition(start: int, j: nat)
    ensures Cell(start, j) == (2 * start + j) % SAMPLES
  {
    var f := start + j / 2;
    assert 2 * start + j == 2 * f + j % 2;
    assert f == f / RING_FRAMES * RING_FRAMES + f % RING_FRAMES;
  }

  ghost predicate Enabled(s: State, step: Step)
    requires |s.mem| == SAMPLES
  {
    match step
    case WriterLoad(src) => s.writer.NotWriting? && |src| % 2 == 0
    case WriterStore => s.writer.Storing? && s.writer.done < |s.writer.src|
    case WriterPublish => s.writer.Storing? && s.writer.done == |s.writer.src|
    case ReaderLoadWrite(_) => s.reader.NotReading?
    case ReaderLoadRead => s.reader.LoadedWrite?
    case ReaderCopy => s.reader.Copying? && |s.reader.dst| < 2 * s.reader.plan.count
    case ReaderPublish => s.reader.Copying? && |s.reader.dst| == 2 * s.reader.plan.count
    case StartLoad => s.starter.NotStarting?
    case StartStore => s.starter.LoadedForStart?
  }

  function Next(s: State, step: Step): (t: State)
    requires |s.mem| == SAMPLES && Enabled(s, step)
    ensures |t.mem| == SAMPLES
  {
    match step
    case WriterLoad(src) =>
      s.(writer := Storing(s.published, src, 0))
    case WriterStore =>
      var Storing(base, src, done) := s.writer;
      s.(mem := s.mem[Cell(base, done) := src[done]],
         hist := s.hist + [src[done]],
         writer := Storing(base, src, done + 1))
    case WriterPublish =>
      s.(published := s.writer.base + |s.writer.src| / 2, writer := NotWriting)
    case ReaderLoadWrite(frames) =>
      s.(reader := LoadedWrite(frames, s.published))
    case ReaderLoadRead =>
      s.(reader := Copying(s.reader.w, ReadPlan(s.reader.w, s.consumed, s.reader.frames), [], []))
    case ReaderCopy =>
      var Copying(w, plan, dst, seen) := s.reader;
      s.(reader := Copying(w, plan, dst + [s.mem[Cell(plan.start, |dst|)]], seen + [|s.hist|]))
    case ReaderPublish =>
      s.(consumed := s.reader.plan.start + s.reader.plan.count, reader := NotReading)
    case StartLoad =>
      s.(starter := LoadedForStart(s.published))
    case StartStore =>
      s.(consumed := s.starter.w, starter := NotStarting)
  }

  function Initial(): (s: State)
    ensures |s.mem| == SAMPLES
  {
    State(seq(SAMPLES, _ => 0.0), 0, 0, [], NotWriting, NotReading, NotStarting)
  }

  ghost predicate IsRun(steps: seq<Step>)
    decreases |steps|, 0
  {
    steps == [] ||
    (IsRun(steps[..|steps| - 1]) && Enabled(Reached(steps[..|steps| - 1]), steps[|steps| - 1]))
  }

  ghost function Reached(steps: seq<Step>): (s: State)
    requires IsRun(steps)
    ensures |s.mem| == SAMPLES
    decreases |steps|, 1
  {
    if steps == [] then Initial()
    else Next(Reached(steps[..|steps| - 1]), steps[|steps| - 1])
  }

  // ----- invariant ------------------------------------------------------------------

  /** The latest of the first `stored` samples to be put in the cell of position `p`. */
  function NewestSample(stored: nat, p: int): (q: int)
    ensures stored - SAMPLES <= q < stored
    ensures stored - SAMPLES <= p < stored ==> q == p
    ensures p < stored ==> p <= q
    ensures q % SAMPLES == p % SAMPLES
  {
    SampleShift(p, (stored - 1 - p) / SAMPLES);
    stored - 1 - (stored - 1 - p) % SAMPLES
  }

  lemma SampleShift(p: int, k: int)
    ensures (p + k * SAMPLES) % SAMPLES == p % SAMPLES
  {
  }

  ghost predicate MemoryHoldsNewest(mem: seq<real>, hist: seq<real>)
    requires |mem| == SAMPLES
  {
    forall p {:trigger hist[p]} | Max(0, |hist| - SAMPLES) <= p < |hist| :: mem[p % SAMPLES] == hist[p]
  }

  ghost predicate WriterInv(s: State) {
    match s.writer
    case NotWriting => |s.hist| == 2 * s.published
    case Storing(base, src, done) =>
      base == s.published && done <= |src| && |src| % 2 == 0 && |s.hist| == 2 * base + done
  }

  /** `x` is what the cell of position `p` held when `stored` samples had been stored. */
  ghost predicate WasNewest(hist: seq<real>, stored: nat, p: int, x: real) {
    stored <= |hist| && 0 <= NewestSample(stored, p) && x == hist[NewestSample(stored, p)]
  }

  /** Sample `j` of a copy was the newest sample in its cell at the moment it was copied. */
  ghost predicate CopiedSoFar(hist: seq<real>, w: nat, plan: Plan, dst: seq<real>, seen: seq<nat>) {
    && |seen| == |dst| <= 2 * plan.count
    && forall j {:trigger dst[j]} | 0 <= j < |dst| ::
         2 * w <= seen[j] && WasNewest(hist, seen[j], 2 * plan.start + j, dst[j])
  }

  ghost predicate ReaderInv(s: State) {
    match s.reader
    case NotReading => true
    case LoadedWrite(_, w) => w <= s.published
    case Copying(w, plan, dst, seen) =>
      && w <= s.published
      && 0 <= plan.start + plan.count <= s.published
      && InReach(w, plan.start, plan.count)
      && CopiedSoFar(s.hist, w, plan, dst, seen)
  }

  ghost predicate Inv(s: State) {
    && |s.mem| == SAMPLES
    && MemoryHoldsNewest(s.mem, s.hist)
    && WriterInv(s)
    && ReaderInv(s)
    && s.consumed <= s.published
    && (s.starter.LoadedForStart? ==> s.starter.w <= s.published)
  }

  lemma StoreKeepsMemory(mem: seq<real>, hist: seq<real>, x: real)
    requires |mem| == SAMPLES && MemoryHoldsNewest(mem, hist)
    ensures MemoryHoldsNewest(mem[|hist| % SAMPLES := x], hist + [x])
  {
    forall p | Max(0, |hist| + 1 - SAMPLES) <= p < |hist| ensures p % SAMPLES != |hist| % SAMPLES {
    }
  }

  lemma StoreKeepsCopies(hist: seq<real>, x: real, w: nat, plan: Plan, dst: seq<real>, seen: seq<nat>)
    requires CopiedSoFar(hist, w, plan, dst, seen)
    ensures CopiedSoFar(hist + [x], w, plan, dst, seen)
  {
    forall j | 0 <= j < |dst|
      ensures WasNewest(hist + [x], seen[j], 2 * plan.start + j, dst[j])
    {
      assert WasNewest(hist, seen[j], 2 * plan.start + j, dst[j]);
    }
  }

  lemma CopyNewest(s: State)
    requires Inv(s) && Enabled(s, ReaderCopy)
    ensures ReaderInv(Next(s, ReaderCopy))
  {
    hide NewestSample, Cell;
    var Copying(w, plan, dst, seen) := s.reader;
    var j, p := |dst|, 2 * plan.start + |dst|;
    assert 2 * w <= |s.hist|;
    assert p < 2 * w;
    assert 0 <= NewestSample(|s.hist|, p);
    CellIsPosition(plan.start, j);
    assert s.hist[NewestSample(|s.hist|, p)] == s.mem[p % SAMPLES];
    var dst', seen' := dst + [s.mem[Cell(plan.start, j)]], seen + [|s.hist|];
    forall i | 0 <= i < j
      ensures WasNewest(s.hist, seen'[i], 2 * plan.start + i, dst'[i])
    {
      assert dst'[i] == dst[i];
    }
  }

  lemma StepKeepsInv(s: State, step: Step)
    requires Inv(s) && Enabled(s, step)
    ensures Inv(Next(s, step))
  {
    match step
    case WriterStore =>
      var Storing(base, src, done) := s.writer;
      CellIsPosition(base, done);
      StoreKeepsMemory(s.mem, s.hist, src[done]);
      if s.reader.Copying? {
        StoreKeepsCopies(s.hist, src[done], s.reader.w, s.reader.plan, s.reader.dst, s.reader.seen);
      }
    case ReaderCopy =>
      CopyNewest(s);
    case _ =>
  }

  lemma {:induction false} ReachedInv(steps: seq<Step>)
    requires IsRun(steps)
    ensures Inv(Reached(steps))
  {
    if steps != [] {
      var before := steps[..|steps| - 1];
      ReachedInv(before);
      StepKeepsInv(Reached(before), steps[|steps| - 1]);
    }
  }

  // ----- what readers get ------------------------------------------------------------

  /** The samples of a block of frames of the history. */
  function Block(hist: seq<real>, plan: Plan): seq<real>
    requires 0 <= plan.start && 2 * (plan.start + plan.count) <= |hist|
  {
    hist[2 * plan.start..2 * (plan.start + plan.count)]
  }

  /**
   Every sample a reader has copied, in any interleaving, is some sample of the
   history: the newest one that had been stored in its cell at that moment.
   While the writer was at most a whole ring past the position, that is the
   sample of the position itself, which had been published when the reader
   loaded the write index.
   */
  ghost predicate CopyExact(s: State, j: nat)
    requires s.reader.Copying? && |s.reader.seen| == |s.reader.dst| && j < |s.reader.dst|
  {
    var Copying(w, plan, dst, seen) := s.reader;
    && 2 * plan.start + j < 2 * w <= seen[j]
    && WasNewest(s.hist, seen[j], 2 * plan.start + j, dst[j])
    && (seen[j] <= 2 * plan.start + j + SAMPLES ==>
          0 <= 2 * plan.start + j < |s.hist| && dst[j] == s.hist[2 * plan.start + j])
  }

  lemma InvMakesCopiesExact(s: State, j: nat)
    requires Inv(s) && s.reader.Copying? && j < |s.reader.dst|
    ensures |s.reader.seen| == |s.reader.dst| && CopyExact(s, j)
  {
    hide NewestSample;
    var x := s.reader.dst[j];
  }

  lemma ConcurrentExactness(steps: seq<Step>, j: nat)
    requires IsRun(steps)
    requires var r := Reached(steps).reader; r.Copying? && j < |r.dst|
    ensures var s := Reached(steps); |s.reader.seen| == |s.reader.dst| && CopyExact(s, j)
  {
    ReachedInv(steps);
    InvMakesCopiesExact(Reached(steps), j);
  }

  /** A nonempty finished copy is the planned block if the writer has not gone a whole ring past its start. */
  ghost predicate CopiedItsBlock(s: State)
    requires s.reader.Copying?
  {
    var Copying(w, plan, dst, _) := s.reader;
    0 <= plan.start && plan.start + plan.count <= w && 2 * w <= |s.hist| && dst == Block(s.hist, plan)
  }

  lemma FinishedCopyIsBlock(s: State)
    requires Inv(s) && Enabled(s, ReaderPublish) && s.reader.plan.count > 0
    requires |s.hist| <= 2 * s.reader.plan.start + SAMPLES
    ensures CopiedItsBlock(s)
  {
    hide NewestSample;
    var Copying(w, plan, dst, seen) := s.reader;
    forall j | 0 <= j < |dst|
      ensures 0 <= 2 * plan.start + j < |s.hist| && dst[j] == s.hist[2 * plan.start + j]
    {
      InvMakesCopiesExact(s, j);
    }
    assert 0 <= 2 * plan.start + 0;
  }

  lemma BlockExact(steps: seq<Step>)
    requires IsRun(steps)
    requires var s := Reached(steps);
             && Enabled(s, ReaderPublish) && s.reader.plan.count > 0
             && |s.hist| <= 2 * s.reader.plan.start + SAMPLES
    ensures CopiedItsBlock(Reached(steps))
  {
    ReachedInv(steps);
    FinishedCopyIsBlock(Reached(steps));
  }

  /** Sample and frame positions agree on which sample of a slot is the newest. */
  lemma NewestSampleIsNewest(w: nat, f: int, c: nat)
    requires c < 2
    ensures NewestSample(2 * w, 2 * f + c) == 2 * Newest(w, f) + c
  {
    var x := w - 1 - f;
    DoubledRemainder(x, 1 - c);
    assert 2 * w - 1 - (2 * f + c) == 2 * x + (1 - c);
  }

  lemma DoubledRemainder(x: int, r: nat)
    requires r < 2
    ensures (2 * x + r) % SAMPLES == 2 * (x % RING_FRAMES) + r
  {
    assert x == x / RING_FRAMES * RING_FRAMES + x % RING_FRAMES;
  }

  /**
   A copy during which the writer stored nothing gives what the sequential read
   gives: sample for sample, the contents of the planned slots.
   */
  lemma UndisturbedCopyIsSequential(s: State, j: nat)
    requires Inv(s) && s.reader.Copying? && j < |s.reader.dst| && s.reader.seen[j] == 2 * s.reader.w
    ensures var Copying(w, plan, dst, _) := s.reader;
            && 2 * w <= |s.hist|
            && dst[j] == Sample(SlotContents(Frames(s.hist, w), plan.start, plan.count), j)
  {
    var Copying(w, plan, dst, seen) := s.reader;
    InvMakesCopiesExact(s, j);
    NewestSampleIsNewest(w, plan.start + j / 2, j % 2);
    hide NewestSample, Newest;
    assert 2 * plan.start + j == 2 * (plan.start + j / 2) + j % 2;
  }

  // ----- the operations, read off the schedule ---------------------------------------

  /** The state before step `i`. */
  ghost function Before(steps: seq<Step>, i: nat): (s: State)
    requires IsRun(steps) && i <= |steps|
    ensures |s.mem| == SAMPLES
  {
    PrefixIsRun(steps, i);
    Reached(steps[..i])
  }

  lemma {:induction false} PrefixIsRun(steps: seq<Step>, i: nat)
    requires IsRun(steps) && i <= |steps|
    ensures IsRun(steps[..i])
  {
    if i == |steps| {
      assert steps[..i] == steps;
    } else {
      var init := steps[..|steps| - 1];
      PrefixIsRun(init, i);
      assert init[..i] == steps[..i];
    }
  }

  lemma OneStep(steps: seq<Step>, i: nat)
    requires IsRun(steps) && i < |steps|
    ensures Enabled(Before(steps, i), steps[i]) && Before(steps, i + 1) == Next(Before(steps, i), steps[i])
    ensures Inv(Before(steps, i)) && Inv(Before(steps, i + 1))
  {
    PrefixIsRun(steps, i);
    PrefixIsRun(steps, i + 1);
    assert steps[..i + 1][..i] == steps[..i];
    ReachedInv(steps[..i]);
    ReachedInv(steps[..i + 1]);
    hide Inv, Next, Enabled;
  }

  predicate LoadsOrPublishes(step: Step) {
    step.ReaderLoadWrite? || step.ReaderLoadRead? || step.ReaderPublish?
  }

  /** Steps `a`, `b` and `p` are the write index load, the read index load and the publish of one read. */
  predicate IsRead(steps: seq<Step>, a: nat, b: nat, p: nat) {
    && a < b < p < |steps|
    && steps[a].ReaderLoadWrite? && steps[b].ReaderLoadRead? && steps[p].ReaderPublish?
    && forall i | a < i < p && i != b :: !LoadsOrPublishes(steps[i])
  }

  /** The playback channel as it stood at the loads of a read: the frames published then, and the read index. */
  ghost function QueueAt(steps: seq<Step>, a: nat, b: nat): Queue<Stereo>
    requires IsRun(steps) && a <= b <= |steps|
  {
    PrefixIsRun(steps, a);
    ReachedInv(steps[..a]);
    Queue(Frames(Before(steps, a).hist, Before(steps, a).published), Before(steps, b).consumed)
  }

  lemma {:induction false} WaitsToLoadRead(steps: seq<Step>, a: nat, b: nat, p: nat, i: nat)
    requires IsRun(steps) && IsRead(steps, a, b, p) && a < i <= b
    ensures Before(steps, i).reader == LoadedWrite(steps[a].frames, Before(steps, a).published)
  {
    hide Inv, Before, Cell, ReadPlan;
    OneStep(steps, i - 1);
    if i > a + 1 {
      assert !LoadsOrPublishes(steps[i - 1]);
      WaitsToLoadRead(steps, a, b, p, i - 1);
    }
  }

  /** While a read copies, it keeps to what it planned at its loads. */
  ghost predicate CopiesAsLoaded(r: Reader, frames: nat, w: nat, rd: nat) {
    r.Copying? && r.w == w && r.plan == ReadPlan(w, rd, frames)
  }

  lemma {:induction false} CopiesToPublish(steps: seq<Step>, a: nat, b: nat, p: nat, i: nat)
    requires IsRun(steps) && IsRead(steps, a, b, p) && b < i <= p
    ensures CopiesAsLoaded(Before(steps, i).reader, steps[a].frames, Before(steps, a).published, Before(steps, b).consumed)
  {
    hide Inv, Before, Cell, ReadPlan;
    OneStep(steps, i - 1);
    if i == b + 1 {
      WaitsToLoadRead(steps, a, b, p, b);
    } else {
      assert !LoadsOrPublishes(steps[i - 1]);
      CopiesToPublish(steps, a, b, p, i - 1);
    }
  }

  /**
   Whatever the writer and StartIO do meanwhile, a read publishes the index that
   a sequential read of what its loads saw would leave; if StartIO came between
   the loads and put the read index beyond, it publishes that index again.
   */
  lemma ReadPublishes(steps: seq<Step>, a: nat, b: nat, p: nat)
    requires IsRun(steps) && IsRead(steps, a, b, p)
    ensures var q := QueueAt(steps, a, b);
            Before(steps, p + 1).consumed == if q.Ok() then AfterRead(q, steps[a].frames).rd else q.rd
  {
    OneStep(steps, p);
    CopiesToPublish(steps, a, b, p, p);
    hide Inv, Before;
  }

  /** No more than a whole ring has been stored past the start of the block a read of `q` takes. */
  ghost predicate WithinRing(q: Queue<Stereo>, frames: nat, stored: nat)
    requires q.Ok()
  {
    stored <= 2 * (AfterRead(q, frames).rd - |Deliver(q, frames)|) + SAMPLES
  }

  /** The writer has left the block alone: it has stored nothing since, or no more than a ring past the block's start. */
  ghost predicate BlockLeftAlone(q: Queue<Stereo>, frames: nat, stored: nat)
    requires q.Ok()
  {
    stored == 2 * |q.hist| || ((frames <= RING_FRAMES || !Lapped(q)) && WithinRing(q, frames, stored))
  }

  /**
   A read hands out exactly what a sequential read of what its loads saw would
   hand out, if by the time it publishes the writer has left the block alone.
   */
  lemma ReadDelivers(steps: seq<Step>, a: nat, b: nat, p: nat)
    requires IsRun(steps) && IsRead(steps, a, b, p) && QueueAt(steps, a, b).Ok()
    ensures var q, frames, s := QueueAt(steps, a, b), steps[a].frames, Before(steps, p);
            && s.reader.Copying? && |s.reader.dst| == 2 * |Deliver(q, frames)|
            && (BlockLeftAlone(q, frames, |s.hist|) ==>
                  Frames(s.reader.dst, |Deliver(q, frames)|) == Deliver(q, frames))
  {
    hide Inv, Before, QueueAt, Deliver, BlockLeftAlone, Cell, ReadPlan, Frames;
    AtPublish(steps, a, b, p);
    CopyDelivers(Before(steps, p), QueueAt(steps, a, b), steps[a].frames);
  }

  /** A finished read, the queue its loads saw being part of the history. */
  ghost predicate Finished(s: State, q: Queue<Stereo>, frames: nat) {
    && Inv(s) && CopiesAsLoaded(s.reader, frames, |q.hist|, q.rd) && |s.reader.dst| == 2 * s.reader.plan.count
    && 2 * |q.hist| <= |s.hist| && q.hist == Frames(s.hist, |q.hist|)
  }

  lemma AtPublish(steps: seq<Step>, a: nat, b: nat, p: nat)
    requires IsRun(steps) && IsRead(steps, a, b, p)
    ensures Finished(Before(steps, p), QueueAt(steps, a, b), steps[a].frames)
  {
    OneStep(steps, p);
    OneStep(steps, a);
    CopiesToPublish(steps, a, b, p, p);
    HistoryGrows(steps, a, p);
    FramesOfPrefix(Before(steps, a).hist, Before(steps, p).hist, Before(steps, a).published);
    hide Before, Cell, ReadPlan, Frames, MemoryHoldsNewest, ReaderInv;
  }

  lemma FramesOfPrefix(hist: seq<real>, longer: seq<real>, n: nat)
    requires hist <= longer && 2 * n <= |hist|
    ensures Frames(hist, n) == Frames(longer, n)
  {
  }

  lemma CopyDelivers(s: State, q: Queue<Stereo>, frames: nat)
    requires Finished(s, q, frames) && q.Ok()
    ensures |s.reader.dst| == 2 * |Deliver(q, frames)|
    ensures BlockLeftAlone(q, frames, |s.hist|) ==>
              Frames(s.reader.dst, |Deliver(q, frames)|) == Deliver(q, frames)
  {
    hide Inv, BlockLeftAlone, Cell;
    if BlockLeftAlone(q, frames, |s.hist|) {
      var n := |Deliver(q, frames)|;
      forall k | 0 <= k < n ensures Frames(s.reader.dst, n)[k] == Deliver(q, frames)[k] {
        CopiedSample(s, q, frames, 2 * k);
        CopiedSample(s, q, frames, 2 * k + 1);
      }
    }
  }

  lemma {:induction false} HistoryGrows(steps: seq<Step>, i: nat, j: nat)
    requires IsRun(steps) && i <= j <= |steps|
    ensures Before(steps, i).hist <= Before(steps, j).hist
    decreases j - i
  {
    hide Inv, Before, Cell, ReadPlan;
    if i < j {
      HistoryGrows(steps, i, j - 1);
      OneStep(steps, j - 1);
    }
  }

  /** One sample of a finished copy, in the block the sequential read delivers. */
  lemma CopiedSample(s: State, q: Queue<Stereo>, frames: nat, j: nat)
    requires Finished(s, q, frames) && q.Ok() && j < |s.reader.dst|
    requires BlockLeftAlone(q, frames, |s.hist|)
    ensures j < 2 * |Deliver(q, frames)| && s.reader.dst[j] == Sample(Deliver(q, frames), j)
  {
    InvMakesCopiesExact(s, j);
    if |s.hist| == 2 * |q.hist| {
      assert s.reader.seen[j] == 2 * |q.hist|;
      UndisturbedCopyIsSequential(s, j);
    } else {
      ReadIsFaithful(q, frames);
      assert s.reader.seen[j] <= |s.hist|;
    }
  }

  /** StartIO publishes as read index the write index that it loaded. */
  lemma {:induction false} StartPublishes(steps: seq<Step>, l: nat, k: nat)
    requires IsRun(steps) && l < k < |steps| && steps[l] == StartLoad && steps[k] == StartStore
    requires forall i | l < i < k :: steps[i] != StartStore
    ensures Before(steps, k + 1).consumed == Before(steps, l).published
  {
    OneStep(steps, k);
    StartWaits(steps, l, k);
    hide Inv, Before;
  }

  lemma {:induction false} StartWaits(steps: seq<Step>, l: nat, k: nat)
    requires IsRun(steps) && l < k <= |steps| && steps[l] == StartLoad
    requires forall i | l < i < k :: steps[i] != StartStore
    ensures Before(steps, k).starter == LoadedForStart(Before(steps, l).published)
  {
    hide Inv, Before, Cell, ReadPlan;
    OneStep(steps, k - 1);
    if k > l + 1 {
      StartWaits(steps, l, k - 1);
    }
  }

  /** A write appends its samples to the history, in order, and then publishes as many frames more. */
  lemma WritePublishes(steps: seq<Step>, l: nat, k: nat)
    requires IsRun(steps) && l < k < |steps| && steps[l].WriterLoad? && steps[k] == WriterPublish
    requires forall i | l < i < k :: steps[i] != WriterPublish
    ensures Before(steps, k + 1).hist == Before(steps, l).hist + steps[l].src
    ensures Before(steps, k + 1).published == Before(steps, l).published + |steps[l].src| / 2
  {
    OneStep(steps, k);
    WriteStores(steps, l, k);
    hide Inv, Before;
    var src := steps[l].src;
    assert src[..|src|] == src;
  }

  lemma {:induction false} WriteStores(steps: seq<Step>, l: nat, k: nat)
    requires IsRun(steps) && l < k <= |steps| && steps[l].WriterLoad?
    requires forall i | l < i < k :: steps[i] != WriterPublish
    ensures var s, t, src := Before(steps, l), Before(steps, k), steps[l].src;
            && t.writer.Storing? && t.writer.base == s.published == t.published && t.writer.src == src && t.writer.done <= |src|
            && t.hist == s.hist + src[..t.writer.done]
  {
    hide Before, Cell, ReadPlan, MemoryHoldsNewest, ReaderInv;
    OneStep(steps, k - 1);
    if k > l + 1 {
      WriteStores(steps, l, k - 1);
      var s, src := Before(steps, k - 1), steps[l].src;
      if steps[k - 1] == WriterStore {
        assert src[..s.writer.done + 1] == src[..s.writer.done] + [src[s.writer.done]];
      }
    }
  }

  // ----- indices -------------------------------------------------------------------

  /** No step, StartIO's included, ever publishes a read index beyond the write index. */
  lemma IndexSafety(steps: seq<Step>)
    requires IsRun(steps)
    ensures Reached(steps).consumed <= Reached(steps).published
  {
    ReachedInv(steps);
  }

  // The schedule alone tells whether a read is copying and whether StartIO is between its load and its store.

  /** The reader has loaded both indices and not yet published. */
  predicate CopyOpen(steps: seq<Step>) {
    if steps == [] then false
    else
      match steps[|steps| - 1]
      case ReaderLoadRead | ReaderCopy => true
      case ReaderLoadWrite(_) | ReaderPublish => false
      case _ => CopyOpen(steps[..|steps| - 1])
  }

  /** StartIO has loaded the write index and not yet stored it. */
  predicate StartOpen(steps: seq<Step>) {
    if steps == [] then false
    else
      match steps[|steps| - 1]
      case StartLoad => true
      case StartStore => false
      case _ => StartOpen(steps[..|steps| - 1])
  }

  /** StartIO never stores while a read is copying, and no read publishes while StartIO is between load and store. */
  predicate NonOverlapping(steps: seq<Step>) {
    steps == [] ||
    (var init, last := steps[..|steps| - 1], steps[|steps| - 1];
     && NonOverlapping(init)
     && (last.StartStore? ==> !CopyOpen(init))
     && (last.ReaderPublish? ==> !StartOpen(init)))
  }

  lemma {:induction false} ScheduleTells(steps: seq<Step>)
    requires IsRun(steps)
    ensures CopyOpen(steps) == Reached(steps).reader.Copying?
    ensures StartOpen(steps) == Reached(steps).starter.LoadedForStart?
  {
    if steps != [] {
      ScheduleTells(steps[..|steps| - 1]);
    }
  }

  /** Neither the reader nor StartIO is about to store an index behind the read index. */
  ghost predicate NothingBehind(s: State) {
    && (s.reader.Copying? ==> s.consumed <= s.reader.plan.start + s.reader.plan.count)
    && (s.starter.LoadedForStart? ==> s.consumed <= s.starter.w)
  }

  /** One step without overlap. */
  lemma StepKeepsOrder(s: State, step: Step)
    requires Inv(s) && Enabled(s, step) && NothingBehind(s)
    requires step.StartStore? ==> !s.reader.Copying?
    requires step.ReaderPublish? ==> !s.starter.LoadedForStart?
    ensures NothingBehind(Next(s, step)) && s.consumed <= Next(s, step).consumed
  {
    hide Cell, MemoryHoldsNewest, CopiedSoFar;
  }

  lemma {:induction false} NonOverlappingOrder(steps: seq<Step>)
    requires IsRun(steps) && NonOverlapping(steps)
    ensures NothingBehind(Reached(steps))
    ensures steps != [] ==> Reached(steps[..|steps| - 1]).consumed <= Reached(steps).consumed
  {
    if steps != [] {
      var init := steps[..|steps| - 1];
      NonOverlappingOrder(init);
      ReachedInv(init);
      ScheduleTells(init);
      hide Inv, NothingBehind, Next, Enabled;
      StepKeepsOrder(Reached(init), steps[|steps| - 1]);
    }
  }

  /** As long as StartIO and reads do not overlap, StartIO included, the read index never goes back. */
  lemma {:induction false} ReadIndexMonotone(steps: seq<Step>, more: seq<Step>)
    requires IsRun(steps) && IsRun(steps + more) && NonOverlapping(steps + more)
    ensures Reached(steps).consumed <= Reached(steps + more).consumed
    decreases |more|
  {
    if more == [] {
      assert steps + more == steps;
    } else {
      var all, before := steps + more, steps + more[..|more| - 1];
      assert all[..|all| - 1] == before;
      ReadIndexMonotone(steps, more[..|more| - 1]);
      NonOverlappingOrder(all);
    }
  }

  lemma Extend(steps: seq<Step>, step: Step) returns (longer: seq<Step>)
    requires IsRun(steps) && Enabled(Reached(steps), step)
    ensures longer == steps + [step] && IsRun(longer) && Reached(longer) == Next(Reached(steps), step)
  {
    longer := steps + [step];
    assert longer[..|longer| - 1] == steps;
  }

  /** `t` is `s` after `k` more stores by the writer. */
  ghost predicate StoredMore(s: State, t: State, k: nat) {
    && s.writer.Storing? && s.writer.done + k <= |s.writer.src|
    && t.writer == s.writer.(done := s.writer.done + k)
    && t.hist == s.hist + s.writer.src[s.writer.done..s.writer.done + k]
    && t.published == s.published && t.consumed == s.consumed && t.reader == s.reader && t.starter == s.starter
  }

  lemma StoreStep(s: State, t: State, k: nat)
    requires |t.mem| == SAMPLES && StoredMore(s, t, k) && s.writer.done + k < |s.writer.src|
    ensures StoredMore(s, Next(t, WriterStore), k + 1)
  {
    var Storing(base, src, done) := s.writer;
    assert src[done..done + k + 1] == src[done..done + k] + [src[done + k]];
  }

  lemma {:induction false} StoreMany(steps: seq<Step>, k: nat) returns (longer: seq<Step>)
    requires IsRun(steps)
    requires var w := Reached(steps).writer; w.Storing? && w.done + k <= |w.src|
    ensures IsRun(longer) && steps <= longer && StoredMore(Reached(steps), Reached(longer), k)
  {
    if k == 0 {
      longer := steps;
    } else {
      longer := StoreMany(steps, k - 1);
      StoreStep(Reached(steps), Reached(longer), k - 1);
      longer := Extend(longer, WriterStore);
    }
  }

  /** A writer that publishes one silent frame, from any state in which it is idle. */
  lemma WriteOneFrame(steps: seq<Step>) returns (longer: seq<Step>)
    requires IsRun(steps) && Reached(steps).writer.NotWriting?
    ensures IsRun(longer) && steps < longer
    ensures var s, t := Reached(steps), Reached(longer);
            && t.writer.NotWriting? && t.published == s.published + 1 && t.consumed == s.consumed
            && t.reader == s.reader && t.starter == s.starter && t.hist == s.hist + [0.0, 0.0]
  {
    var silent := [0.0, 0.0];
    var loaded := Extend(steps, WriterLoad(silent));
    var stored := StoreMany(loaded, 2);
    assert silent[0..2] == silent;
    longer := Extend(stored, WriterPublish);
  }

  /**
   The reader's two loads can see a read index beyond the write index, so
   without the `w > rd` guard the available count would wrap.
   */
  lemma GuardIsNeeded() returns (steps: seq<Step>, w: nat)
    ensures IsRun(steps)
    ensures Reached(steps).reader == LoadedWrite(1, w) && w < Reached(steps).consumed
  {
    steps := Extend([], ReaderLoadWrite(1));
    w := 0;
    steps := WriteOneFrame(steps);
    steps := Extend(steps, StartLoad);
    steps := Extend(steps, StartStore);
  }

  /** From any state a run can bring the writer to rest. */
  lemma RestWriter(steps: seq<Step>) returns (longer: seq<Step>)
    requires IsRun(steps)
    ensures IsRun(longer) && steps <= longer
    ensures var s, t := Reached(steps), Reached(longer);
            && t.writer.NotWriting? && t.published >= s.published && t.consumed == s.consumed
            && t.reader == s.reader && t.starter == s.starter
  {
    longer := steps;
    var w := Reached(steps).writer;
    if w.Storing? {
      ReachedInv(steps);
      longer := StoreMany(steps, |w.src| - w.done);
      longer := Extend(longer, WriterPublish);
    }
  }

  lemma {:induction false} CopyMany(steps: seq<Step>, k: nat) returns (longer: seq<Step>)
    requires IsRun(steps)
    requires var r := Reached(steps).reader; r.Copying? && |r.dst| + k <= 2 * r.plan.count
    ensures IsRun(longer) && steps <= longer
    ensures var s, t := Reached(steps), Reached(longer);
            && t.reader.Copying? && t.reader.plan == s.reader.plan && |t.reader.dst| == |s.reader.dst| + k
            && t.consumed == s.consumed && t.published == s.published && t.starter == s.starter && t.writer == s.writer
  {
    if k == 0 {
      longer := steps;
    } else {
      longer := CopyMany(steps, k - 1);
      longer := Extend(longer, ReaderCopy);
    }
  }

  /** Copy what is left of a planned block; what remains is to publish. */
  lemma FinishCopy(steps: seq<Step>) returns (longer: seq<Step>)
    requires IsRun(steps) && Reached(steps).reader.Copying?
    ensures IsRun(longer) && steps <= longer && Enabled(Reached(longer), ReaderPublish)
    ensures var s, t := Reached(steps), Reached(longer);
            && t.reader.plan == s.reader.plan && t.consumed == s.consumed
            && t.published == s.published && t.starter == s.starter && t.writer == s.writer
  {
    ReachedInv(steps);
    var r := Reached(steps).reader;
    longer := CopyMany(steps, 2 * r.plan.count - |r.dst|);
  }

  /** From any state a run can bring the reader to rest. */
  lemma RestReader(steps: seq<Step>) returns (longer: seq<Step>)
    requires IsRun(steps)
    ensures IsRun(longer) && steps <= longer
    ensures var s, t := Reached(steps), Reached(longer);
            && t.reader.NotReading? && t.published == s.published && t.starter == s.starter && t.writer == s.writer
  {
    longer := steps;
    if Reached(longer).reader.LoadedWrite? {
      longer := Extend(longer, ReaderLoadRead);
    }
    if Reached(longer).reader.Copying? {
      longer := FinishCopy(longer);
      longer := Extend(longer, ReaderPublish);
    }
  }

  /** A read of everything published takes the read index up to the write index. */
  lemma ReadUpToWriter(steps: seq<Step>) returns (copied: seq<Step>)
    requires IsRun(steps) && Reached(steps).reader.NotReading?
    ensures IsRun(copied) && steps <= copied && Enabled(Reached(copied), ReaderPublish)
    ensures var s, t := Reached(steps), Reached(copied);
            && t.reader.plan.start + t.reader.plan.count == s.published && t.starter == s.starter
  {
    ReachedInv(steps);
    var s := Reached(steps);
    copied := Extend(steps, ReaderLoadWrite(s.published - s.consumed));
    copied := Extend(copied, ReaderLoadRead);
    copied := FinishCopy(copied);
  }

  /** Whenever a read is copying, StartIO can come to hold a later index than the read will publish. */
  lemma LoadDuringCopy(steps: seq<Step>) returns (loaded: seq<Step>)
    requires IsRun(steps) && Reached(steps).reader.Copying?
    ensures IsRun(loaded) && steps <= loaded
    ensures var t := Reached(loaded);
            && t.reader.Copying? && t.starter.LoadedForStart?
            && t.reader.plan.start + t.reader.plan.count < t.starter.w
  {
    hide MemoryHoldsNewest, CopiedSoFar, Cell;
    ReachedInv(steps);
    loaded := RestWriter(steps);
    if Reached(loaded).starter.LoadedForStart? {
      loaded := Extend(loaded, StartStore);
    }
    loaded := WriteOneFrame(loaded);
    loaded := Extend(loaded, StartLoad);
  }

  /**
   The first overlap. Whenever a read is copying, StartIO can store in the
   middle of it and the read then takes the index back to what it had planned.
   */
  lemma StoreDuringCopyGoesBack(steps: seq<Step>) returns (before: seq<Step>, after: seq<Step>)
    requires IsRun(steps) && CopyOpen(steps)
    ensures IsRun(before) && IsRun(after) && steps < before < after
    ensures before[|before| - 1].StartStore? && CopyOpen(before[..|before| - 1])
    ensures Reached(after).consumed < Reached(before).consumed
  {
    hide CopyOpen;
    ScheduleTells(steps);
    var loaded := LoadDuringCopy(steps);
    ScheduleTells(loaded);
    before := Extend(loaded, StartStore);
    assert before[..|before| - 1] == loaded;
    after := FinishCopy(before);
    after := Extend(after, ReaderPublish);
  }

  /**
   The second overlap. Whenever StartIO is between its load and its store, a
   read can publish a later index first, which StartIO then takes back.
   */
  lemma PublishDuringStartGoesBack(steps: seq<Step>) returns (before: seq<Step>, after: seq<Step>)
    requires IsRun(steps) && StartOpen(steps)
    ensures IsRun(before) && IsRun(after) && steps < before < after
    ensures before[|before| - 1].ReaderPublish? && StartOpen(before[..|before| - 1])
    ensures Reached(after).consumed < Reached(before).consumed
  {
    ScheduleTells(steps);
    ReachedInv(steps);
    before := RestWriter(steps);
    before := RestReader(before);
    before := WriteOneFrame(before);
    var copied := ReadUpToWriter(before);
    ScheduleTells(copied);
    before := Extend(copied, ReaderPublish);
    assert before[..|before| - 1] == copied;
    after := Extend(before, StartStore);
  }

  lemma OverlapsInReach() returns (copying: seq<Step>, starting: seq<Step>)
    ensures IsRun(copying) && CopyOpen(copying) && IsRun(starting) && StartOpen(starting)
  {
    copying := Extend([], ReaderLoadWrite(1));
    copying := Extend(copying, ReaderLoadRead);
    starting := Extend([], StartLoad);
  }

  /** Both overlaps can be reached, and each takes the read index back. */
  lemma ReadIndexCanGoBack(storeDuringCopy: bool) returns (before: seq<Step>, after: seq<Step>)
    ensures IsRun(before) && IsRun(after) && [] < before < after
    ensures var init, last := before[..|before| - 1], before[|before| - 1];
            if storeDuringCopy then last.StartStore? && CopyOpen(init) else last.ReaderPublish? && StartOpen(init)
    ensures Reached(after).consumed < Reached(before).consumed
  {
    hide *;
    var copying, starting := OverlapsInReach();
    if storeDuringCopy {
      before, after := StoreDuringCopyGoesBack(copying);
    } else {
      before, after := PublishDuringStartGoesBack(starting);
    }
  }

  // ----- the exactness condition is tight -------------------------------------------

  /** One sample further than ConcurrentExactness allows, and a reader gets a sample from another place. */
  lemma OverrunReplacesSamples() returns (steps: seq<Step>)
    ensures IsRun(steps)
    ensures var s := Reached(steps);
            && s.reader.Copying? && s.reader.plan == Plan(0, 1)
            && |s.reader.seen| == |s.reader.dst| == 1 && s.reader.seen[0] == 0 + SAMPLES + 1
            && |s.hist| > 0 && s.reader.dst[0] != s.hist[0]
  {
    steps := WriteOneFrame([]);
    steps := Extend(steps, ReaderLoadWrite(1));
    steps := Extend(steps, ReaderLoadRead);
    var loud := seq(SAMPLES, _ => 1.0);
    steps := Extend(steps, WriterLoad(loud));
    steps := StoreMany(steps, SAMPLES - 1);
    ReachedInv(steps);
    OverrunCell(Reached(steps), loud);
    steps := Extend(steps, ReaderCopy);
  }

  lemma OverrunCell(s: State, loud: seq<real>)
    requires Inv(s) && |loud| == SAMPLES && forall i | 0 <= i < SAMPLES :: loud[i] == 1.0
    requires s.hist == [0.0, 0.0] + loud[..SAMPLES - 1]
    ensures s.hist[0] == 0.0 && s.mem[Cell(0, 0)] == 1.0
  {
    assert s.hist[SAMPLES] == 1.0 && s.mem[SAMPLES % SAMPLES] == s.hist[SAMPLES];
  }
}
