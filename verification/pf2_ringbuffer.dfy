/** The reserve/commit sample queue of the C extension
    (`ext/pf2/ringbuffer.c`). A queue for `n` samples keeps `size = n + 1`
    preallocated sample slots. The signal handler reserves the slot at `tail`,
    fills it in place and only then commits the new tail, so a half-written
    slot is never visible to the consumer. The model is sequential; the
    producer's in-place write is the separate step `Fill`. */
module Pf2Ringbuffer {
  import opened Wrappers
  import opened RingMath
  import opened SampleCapture

  datatype Ringbuffer = Ringbuffer(size: int, head: int, tail: int, samples: seq<Sample>)

  /** What a successful `pf2_ringbuffer_reserve` hands back: the slot the
      producer may write (`*sample`) and the tail to commit afterwards. */
  datatype Reservation = Reservation(slot: nat, nextTail: int)

  /** Every queue made by `New` satisfies this: `size` slots, both indices in
      range. */
  predicate Valid(rb: Ringbuffer) {
    && rb.size == |rb.samples| && rb.size >= 1
    && 0 <= rb.head < rb.size && 0 <= rb.tail < rb.size
  }

  /** The committed samples, oldest first. */
  function Items(rb: Ringbuffer): seq<Sample>
    requires Valid(rb)
  {
    Window(rb.samples, rb.head, Count(rb.head, rb.tail, rb.size))
  }

  /** `pf2_sample_init` for one slot: allocate the three arrays for the given
      depths; if any allocation fails, all three pointers are left `NULL` and
      the call fails. On success the depth, native depth, consumed time and
      timestamp are 0. The contents of freshly allocated arrays are
      indeterminate in C and are modelled as zeros. */
  function InitSample(sample: Sample, maxRubyDepth: nat, maxNativeDepth: nat, allocOk: bool): (r: (bool, Sample))
    ensures r.0 == allocOk
    ensures !r.0 ==> r.1.cmes.None? && r.1.linenos.None? && r.1.nativeStack.None?
    ensures r.0 ==> Initialized(r.1, maxRubyDepth, maxNativeDepth)
  {
    if !allocOk then
      (false, sample.(cmes := None, linenos := None, nativeStack := None))
    else
      (true, sample.(cmes := Some(seq(maxRubyDepth, _ => 0)), linenos := Some(seq(maxRubyDepth, _ => 0)),
                     nativeStack := Some(seq(maxNativeDepth, _ => 0)),
                     depth := 0, nativeStackDepth := 0, consumedTimeNs := 0, timestampNs := 0))
  }

  /** A slot as `pf2_sample_init` leaves it. */
  predicate Initialized(s: Sample, maxRubyDepth: nat, maxNativeDepth: nat) {
    && s.cmes.Some? && |s.cmes.value| == maxRubyDepth
    && s.linenos.Some? && |s.linenos.value| == maxRubyDepth
    && s.nativeStack.Some? && |s.nativeStack.value| == maxNativeDepth
    && s.depth == 0 && s.nativeStackDepth == 0 && s.consumedTimeNs == 0 && s.timestampNs == 0
  }

  /** `pf2_ringbuffer_new`. A non-positive size gives `NULL`. Otherwise
      `size + 1` slots are created with head = tail = 0 and each slot is
      initialised in turn; if the header/array allocation fails
      (`!structOk`) or slot `i` fails to initialise (`!slotOk(i)`), the slots
      made so far are released and the result is `NULL`. `blank` is the
      indeterminate content of the freshly allocated slot array. */
  method New(size: int, maxRubyDepth: nat, maxNativeDepth: nat, structOk: bool, slotOk: nat -> bool, blank: Sample)
    returns (r: Option<Ringbuffer>)
    ensures r.None? <==> size <= 0 || !structOk || exists i :: 0 <= i < size + 1 && !slotOk(i)
    ensures r.Some? ==> var rb := r.value;
      && Valid(rb) && rb.size == size + 1 && rb.head == 0 && rb.tail == 0
      && (forall i :: 0 <= i < rb.size ==> Initialized(rb.samples[i], maxRubyDepth, maxNativeDepth))
      && Items(rb) == []
  {
    if size <= 0 || !structOk {
      return None;
    }
    var slots := seq(size + 1, _ => blank);
    var i := 0;
    while i < size + 1
      invariant 0 <= i <= size + 1 && |slots| == size + 1
      invariant forall j :: 0 <= j < i ==> slotOk(j) && Initialized(slots[j], maxRubyDepth, maxNativeDepth)
    {
      var (ok, slot) := InitSample(slots[i], maxRubyDepth, maxNativeDepth, slotOk(i));
      if !ok {
        return None;
      }
      slots := slots[i := slot];
      i := i + 1;
    }
    return Some(Ringbuffer(size + 1, 0, 0, slots));
  }

  /** `pf2_ringbuffer_reserve`. It fails exactly when `(tail + 1) % size ==
      head`, i.e. when `size - 1` samples are committed. Otherwise it hands
      out the slot at the current tail and the next tail, and moves nothing. */
  function Reserve(rb: Ringbuffer): (r: Option<Reservation>)
    requires Valid(rb)
    ensures r.None? <==> Next(rb.tail, rb.size) == rb.head
    ensures r.None? <==> |Items(rb)| == rb.size - 1
    ensures r.Some? ==> r.value.slot == rb.tail && r.value.nextTail == Next(rb.tail, rb.size)
  {
    FullIffCount(rb.head, rb.tail, rb.size);
    var nextTail := Next(rb.tail, rb.size);
    if nextTail == rb.head then None else Some(Reservation(rb.tail, nextTail))
  }

  /** The producer writing the reserved slot through the pointer it was given.
      The write is invisible to the consumer until it is committed. */
  function Fill(rb: Ringbuffer, slot: nat, sample: Sample): (r: Ringbuffer)
    requires Valid(rb) && slot < rb.size
    ensures Valid(r) && r.size == rb.size && r.head == rb.head && r.tail == rb.tail
    ensures slot == rb.tail ==> Items(r) == Items(rb)
  {
    if slot == rb.tail then
      WindowUntouchedByWrite(rb.samples, rb.head, rb.tail, sample);
      rb.(samples := rb.samples[slot := sample])
    else
      rb.(samples := rb.samples[slot := sample])
  }

  /** `pf2_ringbuffer_commit`: publishes the supplied tail, whatever it is. */
  function Commit(rb: Ringbuffer, nextTail: int): (r: Ringbuffer)
    ensures r.tail == nextTail
    ensures r.head == rb.head && r.size == rb.size && r.samples == rb.samples
  {
    rb.(tail := nextTail)
  }

  /** `pf2_ringbuffer_pop`. It fails iff head == tail; otherwise it copies out
      `samples[head]` and advances head modulo size, which removes the oldest
      committed sample. */
  function Pop(rb: Ringbuffer): (r: Option<(Sample, Ringbuffer)>)
    requires Valid(rb)
    ensures r.None? <==> rb.head == rb.tail
    ensures r.None? <==> Items(rb) == []
    ensures r.Some? ==> && r.value.0 == rb.samples[rb.head]
                        && r.value.1 == rb.(head := Next(rb.head, rb.size))
                        && Valid(r.value.1)
                        && Items(rb) == [r.value.0] + Items(r.value.1)
  {
    if rb.head == rb.tail then
      None
    else
      var rb' := rb.(head := Next(rb.head, rb.size));
      NextInRange(rb.head, rb.size);
      WindowAfterRead(rb.samples, rb.head, rb.tail, rb.samples[rb.head]);
      assert rb.samples[rb.head := rb.samples[rb.head]] == rb.samples;
      Some((rb.samples[rb.head], rb'))
  }

  /** What the signal handler does with a captured sample: reserve, fill the
      slot, commit. It fails (and changes nothing) exactly when the queue is
      full; otherwise the sample joins the end of the queue. */
  function Produce(rb: Ringbuffer, sample: Sample): (r: Option<Ringbuffer>)
    requires Valid(rb)
    ensures r.None? <==> |Items(rb)| == rb.size - 1
    ensures r.Some? ==> Valid(r.value) && r.value.size == rb.size && Items(r.value) == Items(rb) + [sample]
  {
    match Reserve(rb)
    case None => None
    case Some(res) =>
      WindowAfterWrite(rb.samples, rb.head, rb.tail, sample);
      NextInRange(rb.tail, rb.size);
      Some(Commit(Fill(rb, res.slot, sample), res.nextTail))
  }

  /** Produces every sample in turn; stops at the first full queue. */
  function ProduceAll(rb: Ringbuffer, samples: seq<Sample>): (r: Option<Ringbuffer>)
    requires Valid(rb)
    ensures r.Some? ==> Valid(r.value) && r.value.size == rb.size
    decreases |samples|
  {
    if samples == [] then Some(rb)
    else
      match Produce(rb, samples[0])
      case None => None
      case Some(rb') => ProduceAll(rb', samples[1..])
  }

  /** Pops until the queue is empty, returning the samples in pop order. */
  function Drain(rb: Ringbuffer): (r: seq<Sample>)
    requires Valid(rb)
    ensures r == Items(rb)
    decreases |Items(rb)|
  {
    match Pop(rb)
    case None => []
    case Some((s, rb')) => [s] + Drain(rb')
  }

  /** FIFO: reserve/commit rounds that fit in the queue succeed, and popping
      afterwards yields the queued samples followed by the new ones, in
      order. */
  lemma {:induction false} ProduceThenDrain(rb: Ringbuffer, samples: seq<Sample>)
    requires Valid(rb)
    requires |Items(rb)| + |samples| <= rb.size - 1
    ensures ProduceAll(rb, samples).Some?
    ensures Drain(ProduceAll(rb, samples).value) == Items(rb) + samples
    decreases |samples|
  {
    if samples != [] {
      var p := Produce(rb, samples[0]);
      assert p.Some?;
      var rb' := p.value;
      assert ProduceAll(rb, samples) == ProduceAll(rb', samples[1..]);
      ProduceThenDrain(rb', samples[1..]);
      assert Items(rb') + samples[1..] == Items(rb) + samples by {
        assert Items(rb') == Items(rb) + [samples[0]];
        assert [samples[0]] + samples[1..] == samples;
      }
    }
  }

  /** A reserved but uncommitted slot is not seen by `pop`: filling it leaves
      the sequence of poppable samples unchanged. */
  lemma UncommittedInvisible(rb: Ringbuffer, sample: Sample)
    requires Valid(rb)
    requires Reserve(rb).Some?
    ensures Drain(Fill(rb, Reserve(rb).value.slot, sample)) == Drain(rb)
  {
  }
}
