/** The profile of the signal-based scheduler
    (`ext/pf2/src/signal_scheduler/profile.rs`): collected samples plus a
    fixed array of optional samples filled from index 0 upwards by the
    signal handler and emptied into the sample list by the flusher. The
    profile is generic in the sample type. */
module SignalProfile {
  import opened Wrappers

  /** `TEMPORARY_SAMPLE_BUFFER_CAPACITY`. */
  const Capacity: nat := 100000

  /** The panic raised by a push into a full buffer. */
  datatype Panic = Panic(message: string)

  datatype TemporarySampleBuffer<S> = TemporarySampleBuffer(buffer: seq<Option<S>>, index: nat)

  datatype Profile<S> = Profile(startTimestamp: int, samples: seq<S>, temporarySampleBuffer: TemporarySampleBuffer<S>)

  /** A buffer as `new` and `push` keep it: `Capacity` slots, the first
      `index` of them filled. */
  predicate Valid<S>(b: TemporarySampleBuffer<S>) {
    && |b.buffer| == Capacity
    && b.index <= Capacity
    && forall k :: 0 <= k < b.index ==> b.buffer[k].Some?
  }

  /** The samples waiting in the buffer, in push order. */
  function Pending<S>(b: TemporarySampleBuffer<S>): (r: seq<S>)
    requires Valid(b)
    ensures |r| == b.index
  {
    seq(b.index, k requires 0 <= k < b.index => b.buffer[k].value)
  }

  /** `Profile::new`: no samples, a zeroed (all `None`) buffer, index 0. */
  function New<S>(now: int): (p: Profile<S>)
    ensures p.samples == [] && p.startTimestamp == now
    ensures Valid(p.temporarySampleBuffer) && p.temporarySampleBuffer.index == 0
    ensures Pending(p.temporarySampleBuffer) == []
  {
    Profile(now, [], TemporarySampleBuffer(seq(Capacity, _ => None), 0))
  }

  /** `TemporarySampleBuffer::push`: panics when `index == Capacity`;
      otherwise stores the sample at `index`, increments it, and the sample
      joins the end of the pending list. */
  function Push<S>(b: TemporarySampleBuffer<S>, sample: S): (r: Result<TemporarySampleBuffer<S>, Panic>)
    requires Valid(b)
    ensures r.Failure? <==> b.index == Capacity
    ensures r.Failure? ==> r.error == Panic("TemporarySampleBuffer is full")
    ensures r.Success? ==> && Valid(r.value) && r.value.index == b.index + 1
                           && r.value.buffer[b.index] == Some(sample)
                           && Pending(r.value) == Pending(b) + [sample]
  {
    if b.index == Capacity then
      Failure(Panic("TemporarySampleBuffer is full"))
    else
      Success(TemporarySampleBuffer(b.buffer[b.index := Some(sample)], b.index + 1))
  }

  /** `Profile::flush_temporary_sample_buffer`: takes `buffer[0..index)` out
      in order, appends them to `samples` and resets `index` to 0. Samples
      already in the list keep their positions. */
  method Flush<S>(p: Profile<S>) returns (q: Profile<S>)
    requires Valid(p.temporarySampleBuffer)
    ensures q.samples == p.samples + Pending(p.temporarySampleBuffer)
    ensures q.samples[..|p.samples|] == p.samples
    ensures Valid(q.temporarySampleBuffer) && q.temporarySampleBuffer.index == 0
    ensures forall k :: 0 <= k < p.temporarySampleBuffer.index ==> q.temporarySampleBuffer.buffer[k].None?
    ensures q.startTimestamp == p.startTimestamp
  {
    var buffer := p.temporarySampleBuffer.buffer;
    var samples := p.samples;
    var i := 0;
    while i < p.temporarySampleBuffer.index
      invariant 0 <= i <= p.temporarySampleBuffer.index
      invariant |buffer| == Capacity
      invariant forall k :: 0 <= k < i ==> buffer[k].None?
      invariant forall k :: i <= k < Capacity ==> buffer[k] == p.temporarySampleBuffer.buffer[k]
      invariant samples == p.samples + Pending(p.temporarySampleBuffer)[..i]
    {
      var taken := buffer[i];
      buffer := buffer[i := None];
      samples := samples + [taken.value];
      assert Pending(p.temporarySampleBuffer)[..i + 1] == Pending(p.temporarySampleBuffer)[..i] + [taken.value];
      i := i + 1;
    }
    q := p.(samples := samples, temporarySampleBuffer := TemporarySampleBuffer(buffer, 0));
  }

  /** Pushes every sample in turn, stopping at the first panic. */
  function PushAll<S>(b: TemporarySampleBuffer<S>, samples: seq<S>): (r: Result<TemporarySampleBuffer<S>, Panic>)
    requires Valid(b)
    ensures r.Success? ==> Valid(r.value)
    decreases |samples|
  {
    if samples == [] then Success(b)
    else
      match Push(b, samples[0])
      case Failure(e) => Failure(e)
      case Success(b') => PushAll(b', samples[1..])
  }

  /** Pushes that fit in the buffer succeed and queue the samples in order;
      one push more than the capacity panics. */
  lemma {:induction false} PushAllPending<S>(b: TemporarySampleBuffer<S>, samples: seq<S>)
    requires Valid(b)
    ensures b.index + |samples| <= Capacity ==>
      PushAll(b, samples).Success? && Pending(PushAll(b, samples).value) == Pending(b) + samples
    ensures b.index + |samples| > Capacity ==> PushAll(b, samples).Failure?
    decreases |samples|
  {
    if samples != [] {
      if b.index < Capacity {
        PushAllPending(Push(b, samples[0]).value, samples[1..]);
        assert [samples[0]] + samples[1..] == samples;
      }
    }
  }
}
