/** The profile of the Rust extension (`ext/pf2/src/profile.rs`): the samples
    collected so far, the ring buffer the sampler pushes into, and the set of
    Ruby values (threads and frames) that must be kept alive for the garbage
    collector. */
module RustProfile {
  import opened Wrappers
  import opened RustSample
  import RB = RustRingbuffer

  /** Capacity of the temporary sample ring buffer. */
  const TemporaryBufferCapacity: nat := 10000

  datatype Profile = Profile(
    startTimestamp: int,
    samples: seq<Sample>,
    temporarySampleBuffer: RB.Ringbuffer<Sample>,
    knownValues: set<int>)

  /** `Profile::new`: no samples, an empty ring buffer of capacity 10000 and
      no known values; the start instant is an input. */
  function New(now: int): (p: Profile)
    ensures p.samples == [] && p.knownValues == {} && p.startTimestamp == now
    ensures RB.Valid(p.temporarySampleBuffer)
    ensures p.temporarySampleBuffer.capacity == 10000
    ensures RB.Items(p.temporarySampleBuffer) == []
  {
    Profile(now, [], RB.New(TemporaryBufferCapacity), {})
  }

  /** The frames the flush walks before it meets the first 0 frame. */
  function FramesBeforeZero(frames: seq<int>): (r: seq<int>)
    ensures |r| <= |frames| && r == frames[..|r|]
    ensures forall k :: 0 <= k < |r| ==> r[k] != 0
    ensures |r| < |frames| ==> frames[|r|] == 0
  {
    if frames == [] || frames[0] == 0 then []
    else [frames[0]] + FramesBeforeZero(frames[1..])
  }

  /** The values one sample adds to the known set: its thread and its frames
      up to, but not including, the first 0 frame. */
  function SampleValues(s: Sample): set<int> {
    {s.rubyThread} + set k | 0 <= k < |FramesBeforeZero(s.frames)| :: FramesBeforeZero(s.frames)[k]
  }

  /** The values a run of flushed samples adds to the known set. */
  function FlushedValues(samples: seq<Sample>): set<int>
    decreases |samples|
  {
    if samples == [] then {} else FlushedValues(samples[..|samples| - 1]) + SampleValues(samples[|samples| - 1])
  }

  /** The body of the flush loop for one popped sample: insert its thread,
      then its frames until the first 0 frame. */
  method RecordKnownValues(known: set<int>, sample: Sample) returns (r: set<int>)
    ensures r == known + SampleValues(sample)
  {
    r := known + {sample.rubyThread};
    var i := 0;
    while i < |sample.frames|
      invariant 0 <= i <= |sample.frames|
      invariant forall k :: 0 <= k < i ==> sample.frames[k] != 0
      invariant r == known + {sample.rubyThread} + set k | 0 <= k < i :: sample.frames[k]
    {
      if sample.frames[i] == 0 {
        break;
      }
      r := r + {sample.frames[i]};
      i := i + 1;
    }
    var before := FramesBeforeZero(sample.frames);
    assert |before| == i;
    assert (set k | 0 <= k < i :: sample.frames[k]) == set k | 0 <= k < |before| :: before[k];
  }

  /** `Profile::flush_temporary_sample_buffer`: pops every sample out of the
      ring buffer, adds its thread and leading non-zero frames to the known
      values, and appends it to `samples`. Afterwards the ring buffer is
      empty, the flushed samples follow the earlier ones in FIFO order, and
      the known values have only grown. */
  method FlushTemporarySampleBuffer(p: Profile) returns (q: Profile)
    requires RB.Valid(p.temporarySampleBuffer)
    ensures RB.Valid(q.temporarySampleBuffer) && RB.Items(q.temporarySampleBuffer) == []
    ensures q.temporarySampleBuffer.capacity == p.temporarySampleBuffer.capacity
    ensures q.samples == p.samples + RB.Items(p.temporarySampleBuffer)
    ensures q.knownValues == p.knownValues + FlushedValues(RB.Items(p.temporarySampleBuffer))
    ensures p.knownValues <= q.knownValues
    ensures q.startTimestamp == p.startTimestamp
  {
    q := p;
    ghost var flushed: seq<Sample> := [];
    while true
      invariant RB.Valid(q.temporarySampleBuffer)
      invariant q.temporarySampleBuffer.capacity == p.temporarySampleBuffer.capacity
      invariant flushed + RB.Items(q.temporarySampleBuffer) == RB.Items(p.temporarySampleBuffer)
      invariant q.samples == p.samples + flushed
      invariant q.knownValues == p.knownValues + FlushedValues(flushed)
      invariant q.startTimestamp == p.startTimestamp
      decreases RB.Len(q.temporarySampleBuffer)
    {
      var (popped, rest) := RB.Pop(q.temporarySampleBuffer);
      if popped.None? {
        assert RB.Items(q.temporarySampleBuffer) == [];
        assert flushed == flushed + RB.Items(q.temporarySampleBuffer);
        break;
      }
      var sample := popped.value;
      var known := RecordKnownValues(q.knownValues, sample);
      assert (flushed + [sample])[..|flushed|] == flushed;
      assert flushed + RB.Items(q.temporarySampleBuffer) == (flushed + [sample]) + RB.Items(rest);
      flushed := flushed + [sample];
      q := q.(temporarySampleBuffer := rest, knownValues := known, samples := q.samples + [sample]);
    }
  }
}
