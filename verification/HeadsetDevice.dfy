/** The HAL side: the device clock, starting and stopping IO, and the two IO operations. */
module HeadsetDevice {
  import opened Basics
  import opened RingModel

  const ZERO_TIME_STAMP_PERIOD: nat := 2048

  // ----- the device clock ----------------------------------------------------------------

  /** Host ticks per frame of a running machine: some positive number. */
  type Rate = r: real | r > 0.0 witness 1.0

  datatype Clock = Clock(anchor: nat, count: nat)

  /** Host time of the start of period `k`, dropping the fraction. */
  function Boundary(rate: Rate, anchor: nat, k: nat): (t: nat)
    ensures t >= anchor
  {
    ProductNonnegative((k * ZERO_TIME_STAMP_PERIOD) as real, rate);
    anchor + ((k * ZERO_TIME_STAMP_PERIOD) as real * rate).Floor
  }

  lemma ProductNonnegative(x: real, y: real)
    requires x >= 0.0 && y >= 0.0
    ensures x * y >= 0.0
  {
  }

  function SampleTime(c: Clock): nat {
    c.count * ZERO_TIME_STAMP_PERIOD
  }

  function HostTime(rate: Rate, c: Clock): nat {
    Boundary(rate, c.anchor, c.count)
  }

  /**
   Sample time is 2048 frames per period, and host time is that many frames
   after the anchor, dropping the fraction of one tick and no more, however many
   periods have gone by.
   */
  lemma TimesExactly(rate: Rate, c: Clock)
    ensures SampleTime(c) == 2048 * c.count
    ensures HostTime(rate, c) as real <= c.anchor as real + (2048 * c.count) as real * rate < HostTime(rate, c) as real + 1.0
  {
    assert c.count * ZERO_TIME_STAMP_PERIOD == 2048 * c.count;
  }

  /** One call moves the clock on by at most one period. */
  function Tick(rate: Rate, c: Clock, now: nat): Clock {
    if now >= Boundary(rate, c.anchor, c.count + 1) then c.(count := c.count + 1) else c
  }

  function TickAll(rate: Rate, c: Clock, times: seq<nat>): Clock {
    if times == [] then c else Tick(rate, TickAll(rate, c, times[..|times| - 1]), times[|times| - 1])
  }

  /** Call times do not go back, and start no earlier than the anchor. */
  ghost predicate Nondecreasing(anchor: nat, times: seq<nat>) {
    && (times != [] ==> anchor <= times[0])
    && forall i | 0 < i < |times| :: times[i - 1] <= times[i]
  }

  lemma BoundaryOrder(rate: Rate, anchor: nat, j: nat, k: nat)
    requires j <= k
    ensures Boundary(rate, anchor, j) <= Boundary(rate, anchor, k)
  {
    var x, y := (j * ZERO_TIME_STAMP_PERIOD) as real, (k * ZERO_TIME_STAMP_PERIOD) as real;
    ProductNonnegative(y - x, rate);
    assert (y - x) * rate == y * rate - x * rate;
  }

  /** Two periods, each rounded down, are no longer than both together rounded down. */
  lemma BoundarySum(rate: Rate, anchor: nat, k: nat)
    ensures Boundary(rate, anchor, k) + (ZERO_TIME_STAMP_PERIOD as real * rate).Floor <= Boundary(rate, anchor, k + 1)
  {
    var x, p := (k * ZERO_TIME_STAMP_PERIOD) as real, ZERO_TIME_STAMP_PERIOD as real;
    assert ((k + 1) * ZERO_TIME_STAMP_PERIOD) as real == x + p;
    assert (x + p) * rate == x * rate + p * rate;
  }

  /** The reported host time is never in the future, and the anchor never moves. */
  lemma {:induction false} NeverAhead(rate: Rate, anchor: nat, times: seq<nat>)
    requires Nondecreasing(anchor, times)
    ensures var c := TickAll(rate, Clock(anchor, 0), times);
            && c.anchor == anchor
            && HostTime(rate, c) <= (if times == [] then anchor else times[|times| - 1])
  {
    if times == [] {
      assert (0 * ZERO_TIME_STAMP_PERIOD) as real * rate == 0.0;
    } else {
      NeverAhead(rate, anchor, times[..|times| - 1]);
    }
  }

  /** Reported times never go back: an earlier call of a session reports no more than a later one. */
  lemma {:induction false} ReportsMonotone(rate: Rate, anchor: nat, times: seq<nat>, i: nat, j: nat)
    requires Nondecreasing(anchor, times) && i <= j <= |times|
    ensures var earlier, later := TickAll(rate, Clock(anchor, 0), times[..i]), TickAll(rate, Clock(anchor, 0), times[..j]);
            && earlier.anchor == later.anchor
            && SampleTime(earlier) <= SampleTime(later) <= SampleTime(earlier) + (j - i) * ZERO_TIME_STAMP_PERIOD
            && HostTime(rate, earlier) <= HostTime(rate, later)
    decreases j - i
  {
    if i < j {
      ReportsMonotone(rate, anchor, times, i, j - 1);
      assert times[..j][..j - 1] == times[..j - 1];
      var c := TickAll(rate, Clock(anchor, 0), times[..j - 1]);
      BoundaryOrder(rate, c.anchor, c.count, c.count + 1);
    }
  }

  /** Calls come at least once per period. */
  ghost predicate Regular(rate: Rate, anchor: nat, times: seq<nat>) {
    var period := (ZERO_TIME_STAMP_PERIOD as real * rate).Floor;
    && (times != [] ==> times[0] <= anchor + period)
    && forall i | 0 < i < |times| :: times[i] <= times[i - 1] + period
  }

  /** Called at least once per period of at least one tick, the clock keeps up: now is always before the next boundary. */
  lemma {:induction false} KeepsUp(rate: Rate, anchor: nat, times: seq<nat>)
    requires Nondecreasing(anchor, times) && Regular(rate, anchor, times)
    requires ZERO_TIME_STAMP_PERIOD as real * rate >= 1.0
    ensures var c := TickAll(rate, Clock(anchor, 0), times);
            (if times == [] then anchor else times[|times| - 1]) < Boundary(rate, anchor, c.count + 1)
  {
    if times == [] {
      BoundarySum(rate, anchor, 0);
    } else {
      var init := times[..|times| - 1];
      KeepsUp(rate, anchor, init);
      NeverAhead(rate, anchor, init);
      BoundarySum(rate, anchor, TickAll(rate, Clock(anchor, 0), init).count + 1);
    }
  }

  /** One call catches up with the present exactly when no more than one boundary has gone by. */
  lemma CatchesUpExactly(rate: Rate, c: Clock, now: nat)
    ensures now < Boundary(rate, c.anchor, Tick(rate, c, now).count + 1) <==> now < Boundary(rate, c.anchor, c.count + 2)
  {
    BoundaryOrder(rate, c.anchor, c.count + 1, c.count + 2);
  }

  // ----- repositioning ---------------------------------------------------------------------

  /** StartIO moves a read index up to the write index. */
  function Repositioned<F>(q: Queue<F>): Queue<F> {
    q.(rd := |q.hist|)
  }

  /** After it, everything a reader takes was written after it. */
  lemma NothingStale<F>(q: Queue<F>, ops: seq<Op<F>>)
    requires ReadsFit(ops)
    ensures Written(ops) == Unroll(Taken(Repositioned(q), ops)) + Run(Repositioned(q), ops).Waiting()
  {
    RunConservesFrames(Repositioned(q), ops);
    assert Repositioned(q).Waiting() + Written(ops) == Written(ops);
  }

  // ----- the plug-in's globals -------------------------------------------------------------

  /** The volume loop; a gain of exactly 1 is skipped. */
  method ScaleMix(mix: array<real>, n: nat, gain: real)
    requires n <= mix.Length
    modifies mix
    ensures forall k | 0 <= k < n :: mix[k] == old(mix[k]) * gain
    ensures forall k | n <= k < mix.Length :: mix[k] == old(mix[k])
  {
    if gain != 1.0 {
      for i := 0 to n
        invariant forall k | 0 <= k < i :: mix[k] == old(mix[k]) * gain
        invariant forall k | i <= k < mix.Length :: mix[k] == old(mix[k])
      {
        mix[i] := mix[i] * gain;
      }
    }
  }

  lemma WrittenFrames(hist: seq<Stereo>, samples: seq<real>, n: nat)
    requires 2 * n <= |samples|
    ensures var after := hist + Frames(samples, n);
            && hist <= after
            && forall i | 0 <= i < n :: after[|hist| + i] == Stereo(samples[2 * i], samples[2 * i + 1])
  {
  }

  class Device {
    const ring: Ring
    const hostTicksPerFrame: Rate
    var ioCount: nat
    var anchorHostTime: nat
    var timeStampCount: nat

    ghost predicate Valid()
      reads this, ring, ring.outData, ring.inData
    {
      ring.Valid()
    }

    ghost function View(): Clock
      reads this
    {
      Clock(anchorHostTime, timeStampCount)
    }

    constructor (ring: Ring, rate: Rate)
      requires ring.Valid()
      ensures Valid() && this.ring == ring && hostTicksPerFrame == rate && ioCount == 0
    {
      this.ring, hostTicksPerFrame := ring, rate;
      ioCount, anchorHostTime, timeStampCount := 0, 0, 0;
    }

    /** Only the first client anchors the clock and repositions the readers. */
    method StartIO(now: nat)
      requires Valid()
      modifies this, ring`outRead, ring`inRead, ring`outIoRunning, ring`inIoRunning
      ensures Valid() && ioCount == old(ioCount) + 1
      ensures old(ioCount) == 0 ==>
                && View() == Clock(now, 0)
                && ring.Out() == Repositioned(old(ring.Out())) && ring.In() == Repositioned(old(ring.In()))
                && ring.outIoRunning && ring.inIoRunning
      ensures old(ioCount) > 0 ==>
                && View() == old(View())
                && ring.Out() == old(ring.Out()) && ring.In() == old(ring.In())
                && ring.outIoRunning == old(ring.outIoRunning) && ring.inIoRunning == old(ring.inIoRunning)
    {
      if ioCount == 0 {
        anchorHostTime := now;
        timeStampCount := 0;
        ring.outRead := ring.outWrite;
        ring.inRead := ring.inWrite;
        ring.outIoRunning, ring.inIoRunning := true, true;
      }
      ioCount := ioCount + 1;
    }

    method StopIO()
      requires Valid()
      modifies `ioCount, ring`outIoRunning, ring`inIoRunning
      ensures Valid() && ioCount == Max(0, old(ioCount) - 1)
      ensures ioCount == 0 ==> !ring.outIoRunning && !ring.inIoRunning
      ensures ioCount > 0 ==> ring.outIoRunning == old(ring.outIoRunning) && ring.inIoRunning == old(ring.inIoRunning)
    {
      if ioCount > 0 {
        ioCount := ioCount - 1;
      }
      if ioCount == 0 {
        ring.outIoRunning, ring.inIoRunning := false, false;
      }
    }

    method GetZeroTimeStamp(now: nat) returns (sampleTime: nat, hostTime: nat)
      modifies `timeStampCount
      ensures View() == Tick(hostTicksPerFrame, old(View()), now)
      ensures sampleTime == SampleTime(View()) && hostTime == HostTime(hostTicksPerFrame, View())
      ensures timeStampCount == old(timeStampCount)
                || (timeStampCount == old(timeStampCount) + 1 && hostTime <= now && sampleTime == 2048 * timeStampCount)
    {
      var next := Boundary(hostTicksPerFrame, anchorHostTime, timeStampCount + 1);
      if now >= next {
        timeStampCount := timeStampCount + 1;
      }
      sampleTime := timeStampCount * ZERO_TIME_STAMP_PERIOD;
      hostTime := Boundary(hostTicksPerFrame, anchorHostTime, timeStampCount);
    }

    /** WriteMix: the mix is scaled in place and written to the ring, left sample first. */
    method WriteMix(mix: array<real>, frames: nat, gain: real)
      requires Valid() && 2 * frames <= mix.Length && mix != ring.outData && mix != ring.inData
      modifies mix, ring`outWrite, ring`outHist, ring.outData
      ensures Valid()
      ensures forall k | 0 <= k < 2 * frames :: mix[k] == old(mix[k]) * gain
      ensures forall k | 2 * frames <= k < mix.Length :: mix[k] == old(mix[k])
      ensures ring.outRead == old(ring.outRead) && ring.outWrite == old(ring.outWrite) + frames
      ensures old(ring.outHist) <= ring.outHist
      ensures forall i | 0 <= i < frames ::
                ring.outHist[old(ring.outWrite) + i] == Stereo(old(mix[2 * i]) * gain, old(mix[2 * i + 1]) * gain)
    {
      hide Frames, HoldsFrames, HoldsSamples;
      ScaleMix(mix, 2 * frames, gain);
      WrittenFrames(ring.outHist, mix[..], frames);
      ring.OutWrite(mix, frames);
    }

    /** ReadInput: captured samples and then silence. */
    method ReadInput(buffer: array<real>, frames: nat)
      requires Valid() && frames <= buffer.Length && buffer != ring.outData && buffer != ring.inData
      modifies buffer, ring`inRead
      ensures Valid()
      ensures ring.In() == AfterRead(old(ring.In()), frames)
      ensures var block := Deliver(old(ring.In()), frames); buffer[..frames] == block + seq(frames - |block|, _ => 0.0)
    {
      var n := ring.InRead(buffer, frames);
    }
  }
}
