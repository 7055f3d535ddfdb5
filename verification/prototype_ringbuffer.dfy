/** The sample queue of the C prototype (`ext/pf2c/ringbuffer.c`). Unlike the
    reserve/commit queue of the current extension, `push` copies a finished
    sample into the slot at `tail` and publishes it in one call. Slots that
    were never written hold indeterminate memory in C and are `None` here. The
    queue is generic in the sample type. */
module PrototypeRingbuffer {
  import opened Wrappers
  import opened RingMath

  datatype Ringbuffer<S> = Ringbuffer(size: int, head: int, tail: int, samples: seq<Option<S>>)

  /** Every queue made by `New` satisfies this: `size` slots, both indices in
      range, every queued slot written. */
  predicate Valid<S>(rb: Ringbuffer<S>) {
    && rb.size == |rb.samples| && rb.size >= 1
    && 0 <= rb.head < rb.size && 0 <= rb.tail < rb.size
    && forall k :: 0 <= k < Count(rb.head, rb.tail, rb.size) ==>
         Window(rb.samples, rb.head, Count(rb.head, rb.tail, rb.size))[k].Some?
  }

  /** Number of queued samples. */
  function Len<S>(rb: Ringbuffer<S>): nat
    requires Valid(rb)
  {
    Count(rb.head, rb.tail, rb.size)
  }

  /** The queued samples, oldest first. */
  function Items<S>(rb: Ringbuffer<S>): (items: seq<S>)
    requires Valid(rb)
    ensures |items| == Len(rb)
  {
    var win := Window(rb.samples, rb.head, Len(rb));
    seq(Len(rb), k requires 0 <= k < Len(rb) => win[k].value)
  }

  /** `pf2_ringbuffer_new`. A non-positive size, or a failed allocation, gives
      `NULL`; otherwise `size + 1` unwritten slots with head = tail = 0. */
  function New<S>(size: int, allocOk: bool): (r: Option<Ringbuffer<S>>)
    ensures r.None? <==> size <= 0 || !allocOk
    ensures r.Some? ==> && Valid(r.value) && r.value.size == size + 1
                        && r.value.head == 0 && r.value.tail == 0 && Items(r.value) == []
  {
    if size <= 0 || !allocOk then None
    else Some(Ringbuffer(size + 1, 0, 0, seq(size + 1, _ => None)))
  }

  /** `pf2_ringbuffer_push`. It returns false and leaves the queue unchanged
      iff `(tail + 1) % size == head`; otherwise it copies the sample into
      `samples[tail]`, advances tail modulo size, and the sample joins the end
      of the queue. */
  function Push<S>(rb: Ringbuffer<S>, sample: S): (r: (bool, Ringbuffer<S>))
    requires Valid(rb)
    ensures !r.0 <==> Next(rb.tail, rb.size) == rb.head
    ensures !r.0 ==> r.1 == rb
    ensures r.0 ==> r.1 == rb.(samples := rb.samples[rb.tail := Some(sample)], tail := Next(rb.tail, rb.size))
    ensures Valid(r.1)
    ensures r.0 ==> Items(r.1) == Items(rb) + [sample]
  {
    var nextTail := Next(rb.tail, rb.size);
    if nextTail == rb.head then
      (false, rb)
    else
      var rb' := rb.(samples := rb.samples[rb.tail := Some(sample)], tail := nextTail);
      WindowAfterWrite(rb.samples, rb.head, rb.tail, Some(sample));
      NextInRange(rb.tail, rb.size);
      (true, rb')
  }

  /** `pf2_ringbuffer_pop`. It returns false iff head == tail; otherwise it
      copies out `samples[head]`, the oldest queued sample, and advances head
      modulo size. */
  function Pop<S>(rb: Ringbuffer<S>): (r: Option<(S, Ringbuffer<S>)>)
    requires Valid(rb)
    ensures r.None? <==> rb.head == rb.tail
    ensures r.Some? ==> && Some(r.value.0) == rb.samples[rb.head]
                        && r.value.1 == rb.(head := Next(rb.head, rb.size))
                        && Valid(r.value.1)
                        && Items(rb) == [r.value.0] + Items(r.value.1)
  {
    if rb.head == rb.tail then
      None
    else
      var rb' := rb.(head := Next(rb.head, rb.size));
      NextInRange(rb.head, rb.size);
      WindowAfterRead(rb.samples, rb.head, rb.tail, rb.samples[rb.head]);
      assert rb.samples[rb.head := rb.samples[rb.head]] == rb.samples;
      assert Window(rb.samples, rb.head, Len(rb))[0] == rb.samples[rb.head];
      Some((rb.samples[rb.head].value, rb'))
  }

  /** A queue created with size `n` holds at most `n` samples at once: the
      `n`-th push into it fills it and the next one is refused. */
  lemma AtMostSizeSamples<S>(size: int, rb: Ringbuffer<S>, sample: S)
    requires New<S>(size, true).Some?
    requires Valid(rb) && rb.size == New<S>(size, true).value.size
    ensures Len(rb) <= size
    ensures Len(rb) == size ==> !Push(rb, sample).0
  {
    FullIffCount(rb.head, rb.tail, rb.size);
  }
}
