/** The Rust single-producer/single-consumer sample queue
    (`ext/pf2/src/ringbuffer.rs`). A buffer of capacity `c` owns `c + 1`
    optional slots; the signal handler pushes, the collector pops. The atomics
    of the original only make the two ends safe to run concurrently, so the
    model is sequential: every operation returns the new buffer. */
module RustRingbuffer {
  import opened Wrappers
  import opened RingMath

  /** The only way a push can fail. */
  datatype PushError = Full

  datatype Ringbuffer<T> = Ringbuffer(
    capacity: nat,
    buffer: seq<Option<T>>,
    readIndex: nat,
    writeIndex: nat)

  /** The invariant every buffer made by `New` keeps: `capacity + 1` slots,
      both indices in range, and every queued slot filled. */
  predicate Valid<T>(rb: Ringbuffer<T>) {
    && |rb.buffer| == rb.capacity + 1
    && rb.readIndex <= rb.capacity
    && rb.writeIndex <= rb.capacity
    && forall k :: 0 <= k < Len(rb) ==> Queued(rb)[k].Some?
  }

  /** Number of queued samples, `(write_index - read_index) mod (capacity + 1)`. */
  function Len<T>(rb: Ringbuffer<T>): nat
    requires |rb.buffer| == rb.capacity + 1
    requires rb.readIndex <= rb.capacity && rb.writeIndex <= rb.capacity
  {
    Count(rb.readIndex, rb.writeIndex, |rb.buffer|)
  }

  /** The queued slots, oldest first. */
  function Queued<T>(rb: Ringbuffer<T>): seq<Option<T>>
    requires |rb.buffer| == rb.capacity + 1
    requires rb.readIndex <= rb.capacity && rb.writeIndex <= rb.capacity
  {
    Window(rb.buffer, rb.readIndex, Len(rb))
  }

  /** The queued samples, oldest first: the abstract FIFO queue. */
  function Items<T>(rb: Ringbuffer<T>): (items: seq<T>)
    requires Valid(rb)
    ensures |items| == Len(rb)
  {
    seq(Len(rb), k requires 0 <= k < Len(rb) => Queued(rb)[k].value)
  }

  /** `Ringbuffer::new`: `capacity + 1` empty slots, both indices 0. */
  function New<T>(capacity: nat): (rb: Ringbuffer<T>)
    ensures Valid(rb) && rb.capacity == capacity
    ensures |rb.buffer| == capacity + 1
    ensures forall k :: 0 <= k < |rb.buffer| ==> rb.buffer[k] == None
    ensures rb.readIndex == 0 && rb.writeIndex == 0
    ensures Items(rb) == []
  {
    Ringbuffer(capacity, seq(capacity + 1, _ => None), 0, 0)
  }

  /** `Ringbuffer::push`. It is `Full` exactly when the slot after the write
      index is the read index, i.e. when `capacity` samples are queued; a
      failed push leaves the buffer as it was. A successful push appends the
      sample to the queue. */
  function Push<T>(rb: Ringbuffer<T>, sample: T): (r: Result<Ringbuffer<T>, PushError>)
    requires Valid(rb)
    ensures r.Failure? <==> Next(rb.writeIndex, rb.capacity + 1) == rb.readIndex
    ensures r.Failure? <==> Len(rb) == rb.capacity
    ensures r.Success? ==> Valid(r.value) && r.value.capacity == rb.capacity
    ensures r.Success? ==> Items(r.value) == Items(rb) + [sample]
  {
    var next := Next(rb.writeIndex, rb.capacity + 1);
    FullIffCount(rb.readIndex, rb.writeIndex, rb.capacity + 1);
    if next == rb.readIndex then
      Failure(Full)
    else
      var rb' := rb.(buffer := rb.buffer[rb.writeIndex := Some(sample)], writeIndex := next);
      WindowAfterWrite(rb.buffer, rb.readIndex, rb.writeIndex, Some(sample));
      assert Queued(rb') == Queued(rb) + [Some(sample)];
      Success(rb')
  }

  /** `Ringbuffer::pop`. An empty buffer (`read_index == write_index`) yields
      `None` and is left unchanged; otherwise the oldest sample is taken out of
      its slot and the read index advances. */
  function Pop<T>(rb: Ringbuffer<T>): (r: (Option<T>, Ringbuffer<T>))
    requires Valid(rb)
    ensures r.0.None? <==> rb.readIndex == rb.writeIndex
    ensures r.0.None? ==> r.1 == rb
    ensures Valid(r.1) && r.1.capacity == rb.capacity
    ensures r.0.Some? ==> Items(rb) == [r.0.value] + Items(r.1)
  {
    if rb.readIndex == rb.writeIndex then
      (None, rb)
    else
      var item := rb.buffer[rb.readIndex];
      var rb' := rb.(buffer := rb.buffer[rb.readIndex := None], readIndex := Next(rb.readIndex, rb.capacity + 1));
      WindowAfterRead(rb.buffer, rb.readIndex, rb.writeIndex, None);
      NextInRange(rb.readIndex, rb.capacity + 1);
      assert Queued(rb') == Queued(rb)[1..];
      assert Queued(rb)[0] == item;
      (item, rb')
  }

  /** Pushes `samples` one by one, stopping at the first failure. */
  function PushAll<T>(rb: Ringbuffer<T>, samples: seq<T>): (r: Result<Ringbuffer<T>, PushError>)
    requires Valid(rb)
    ensures r.Success? ==> Valid(r.value) && r.value.capacity == rb.capacity
    decreases |samples|
  {
    if samples == [] then Success(rb)
    else
      match Push(rb, samples[0])
      case Failure(e) => Failure(e)
      case Success(rb') => PushAll(rb', samples[1..])
  }

  /** Pops until `pop` returns `None`, collecting the samples in pop order.
      Popping everything yields the queued samples oldest first and leaves the
      buffer empty. */
  function PopAll<T>(rb: Ringbuffer<T>): (r: (seq<T>, Ringbuffer<T>))
    requires Valid(rb)
    ensures r.0 == Items(rb)
    ensures Valid(r.1) && r.1.capacity == rb.capacity && Len(r.1) == 0
    decreases Len(rb)
  {
    match Pop(rb)
    case (None, _) => ([], rb)
    case (Some(x), rb') =>
      var (rest, last) := PopAll(rb');
      ([x] + rest, last)
  }

  /** Pushing samples into a buffer with room for all of them succeeds and
      appends them in order. */
  lemma {:induction false} PushAllFits<T>(rb: Ringbuffer<T>, samples: seq<T>)
    requires Valid(rb)
    requires Len(rb) + |samples| <= rb.capacity
    ensures PushAll(rb, samples).Success?
    ensures Valid(PushAll(rb, samples).value)
    ensures PushAll(rb, samples).value.capacity == rb.capacity
    ensures Items(PushAll(rb, samples).value) == Items(rb) + samples
    decreases |samples|
  {
    if samples != [] {
      var rb' := Push(rb, samples[0]).value;
      PushAllFits(rb', samples[1..]);
      assert [samples[0]] + samples[1..] == samples;
    }
  }

  /** Starting from an empty buffer, exactly `capacity` pushes succeed and the
      next one is `Full`. */
  lemma FillThenFull<T>(capacity: nat, samples: seq<T>, extra: T)
    requires |samples| == capacity
    ensures PushAll(New<T>(capacity), samples).Success?
    ensures Push(PushAll(New<T>(capacity), samples).value, extra) == Failure(Full)
  {
    PushAllFits(New<T>(capacity), samples);
  }

  /** FIFO: whatever is pushed into an empty buffer (within capacity) is popped
      back in the same order, and the buffer ends empty. */
  lemma FifoOrder<T>(capacity: nat, samples: seq<T>)
    requires |samples| <= capacity
    ensures PushAll(New<T>(capacity), samples).Success?
    ensures PopAll(PushAll(New<T>(capacity), samples).value).0 == samples
  {
    PushAllFits(New<T>(capacity), samples);
  }

  /** The queue never holds more than `capacity` samples and both indices stay
      in `[0, capacity]`. */
  lemma Bounded<T>(rb: Ringbuffer<T>)
    requires Valid(rb)
    ensures Len(rb) <= rb.capacity
    ensures |Items(rb)| <= rb.capacity
  {
  }

  /** After a successful pop there is room again: the next push succeeds. */
  lemma PushAfterPop<T>(rb: Ringbuffer<T>, sample: T)
    requires Valid(rb)
    requires Pop(rb).0.Some?
    ensures Push(Pop(rb).1, sample).Success?
  {
    assert |Items(rb)| == 1 + |Items(Pop(rb).1)|;
  }

  /** The scenario of the `test_ringbuffer` unit test: with capacity 2, pop on
      the empty buffer is `None`; after pushing 1 and 2 the pops return 1, 2
      and then `None`. */
  lemma UnitTestRingbuffer()
    ensures var rb := New<int>(2);
      && Pop(rb).0 == None
      && Push(rb, 1).Success?
      && Push(Push(rb, 1).value, 2).Success?
      && var full := Push(Push(rb, 1).value, 2).value;
      && Pop(full).0 == Some(1)
      && Pop(Pop(full).1).0 == Some(2)
      && Pop(Pop(Pop(full).1).1).0 == None
  {
    var rb := New<int>(2);
    FifoOrder(2, [1, 2]);
    var full := Push(Push(rb, 1).value, 2).value;
    assert Items(full) == [1, 2];
    assert Items(Pop(full).1) == [2];
    assert Items(Pop(Pop(full).1).1) == [];
  }

  /** The scenario of `test_ringbuffer_full`: with capacity 1 the second push
      is `Full`. */
  lemma UnitTestRingbufferFull()
    ensures Push(New<int>(1), 1).Success?
    ensures Push(Push(New<int>(1), 1).value, 2) == Failure(Full)
  {
    FillThenFull(1, [1], 2);
    assert PushAll(New<int>(1), [1]) == Push(New<int>(1), 1);
  }

  /** The scenario of `test_ringbuffer_write_a_lot`: with capacity 2,
      alternating push/pop across the wrap point still returns the sample just
      pushed. */
  lemma UnitTestRingbufferWriteALot()
    ensures var rb0 := New<int>(2);
      && Push(rb0, 1).Success?
      && var rb1 := Pop(Push(rb0, 1).value);
      && rb1.0 == Some(1)
      && Push(rb1.1, 2).Success?
      && var rb2 := Pop(Push(rb1.1, 2).value);
      && rb2.0 == Some(2)
      && Push(rb2.1, 3).Success?
      && Pop(Push(rb2.1, 3).value).0 == Some(3)
  {
    var rb0 := New<int>(2);
    var a := Push(rb0, 1).value;
    assert Items(a) == [1];
    var rb1 := Pop(a);
    PushAfterPop(a, 2);
    var b := Push(rb1.1, 2).value;
    assert Items(b) == [2];
    var rb2 := Pop(b);
    PushAfterPop(b, 3);
    var c := Push(rb2.1, 3).value;
    assert Items(c) == [3];
  }
}
