# pf2 profiler core, modelled in Dafny

pf2 is a sampling profiler for Ruby. A signal handler or a timer thread
captures the Ruby and native stacks of running threads into fixed-size
ring buffers. A collector drains them into deduplicated tables of
functions, locations and samples. A serializer turns those tables into a
profile, and Ruby reporters turn the profile into Firefox Profiler
JSON, pprof protobuf or annotated source listings.

The repository holds several generations of this pipeline, and they do
not agree with each other:

- a C prototype (`ext/pf2c`);
- the current C extension (`ext/pf2/*.c`, `*.h`);
- a Rust extension (`ext/pf2/src`);
- three Firefox Profiler reporters (`lib/pf2/reporter.rb`,
  `lib/pf2/reporter/firefox_profiler.rb`, `firefox_profiler_ser2.rb`).

Each source file is modelled as written, in a Dafny module of its own:

| area | modules |
|---|---|
| sample queues | `RingMath` (shared index arithmetic), `RustRingbuffer`, `Pf2Ringbuffer` (reserve/commit), `PrototypeRingbuffer` |
| sample accumulators | `RustProfile`, `SignalProfile`, `RustSample` |
| capture | `SampleCapture` (bounded native stack walk) |
| dedup tables and keys | `Pf2Session`, `IndexedMaps` (FNV-1a, fmix64), `SessionKeys` |
| serializers | `Pf2Serializer`, `PrototypeSerializer`, `ProfileSerializer2` with `SerializationProfile`, `ProfileSerializer` (per-thread stack trie) |
| configuration | `CConfiguration`, `RustConfiguration`, `RustSession` |
| thread hooks | `NewThreadWatcher`, `TimerInstaller` |
| reporters | `ReportProfile`, `StackWeaver`, `StackTree`, `StringTable`, `CamelCase`, `FirefoxProfiler`, `FirefoxProfilerSer2`, `LegacyReporter`, `Annotate`, `Protobuf` |
| values | `Wrappers` (Option, Result), `RubyValue` (Ruby value trees built by the serializers) |

**How the source is represented.**

- Operations are pure functions over immutable datatypes.
- The ring buffers are modelled sequentially. Their atomics only make the
  two ends safe to run at once.
- Opaque Ruby handles (`VALUE`, thread ids, frame ids, program counters)
  are integers, compared only for equality.
- These all enter as parameters:
  - frame metadata and symbol lookup;
  - clocks;
  - the khashl integer hashes;
  - allocation failure.
- Fixed-width C and Rust arithmetic is written out modulo `2^32` or
  `2^64` wherever it matters:
  - the FNV-1a and fmix64 hashes;
  - the unsigned elapsed-time subtraction;
  - the wall-clock start in nanoseconds;
  - pprof's `int32`/`int64` masking.
- A raised Ruby exception, a Rust `Err` or panic, and a C failure return
  are all the `Failure` case of a `Result`.

**Partners for each operation.**

- The ring buffers are checked against a FIFO queue.
- The dedup tables are checked against key equality.
- The encoders are checked against decoders written from their standards:
  - base-128 varints and field tags, as in the Protocol Buffers encoding
    guide;
  - FNV-1a, as in its published reference values.
- The configuration writers are checked against their readers, as round
  trips.
- The tree and table builders are checked against reference descriptions:
  - the root-to-leaf paths;
  - the prefix-linked rows;
  - the per-thread grouping.

**Where the source files disagree with each other** (each file is
modelled as written):

- `ext/pf2/session.c:335` calls `pf2_ringbuffer_push`, but
  `ext/pf2/ringbuffer.h` declares only reserve/commit/pop. The model
  follows `ringbuffer.c`.
- `ext/pf2/session.c` sets a sample `count` field that
  `ext/pf2/serializer.h` does not declare. The model keeps the count,
  because `serializer.c` emits it.
- `ext/pf2/src/session.rs:81` sets `use_experimental_serializer`, which
  the `Configuration` struct of `configuration.rs` lacks. `RustSession` keeps
  the flag on the session instead.
- `PF2_MAX_RUBY_STACK_DEPTH` and `PF2_MAX_NATIVE_STACK_DEPTH` are not
  defined in any file of this model. `CConfiguration` takes them as
  `Limits`.
- `ext/pf2/session.h:162-190` gives the session khashl tables
  (`location_table`, `stack_table`, `native_stack_table`,
  `sample_table`), which `session.c` never touches. `session.c` instead
  reads and grows `locations`, `locations_count` and
  `locations_capacity`, which that struct lacks. The model follows
  `session.c`.
- `ext/pf2/session.c:697` calls `pf2_ringbuffer_new(1000)` with one
  argument, but `ringbuffer.c:9` and `ringbuffer.h:18` take three: the
  size and the two stack depths. The model follows `ringbuffer.c`.

**Behaviour of the code as written that the model keeps:**

- `profile_serializer.rs`: the `pf2` filter runs before the cut at
  `rb_vm_exec`/`vm_call_cfunc_with_frame`. A frame that matches both is
  dropped and does not cut the stack.
- `profile_serializer.rs`: the argument of `or_insert` is evaluated
  eagerly, so the node-id counter advances on every frame visit, not only
  when a node is created.
- `firefox_profiler_ser2.rb` builds every thread's stack table from the
  samples of the whole profile.
- `reporter.rb`'s `markers` raises `NoMethodError` when the middle GVL
  timings have odd length.
- `pprof.rb` encodes `int32(-1)` as the five-byte varint of `0xFFFFFFFF`,
  not as the ten-byte sign extension of the Protocol Buffers guide.
- `annotate.rb` raises on a sample with an empty stack. When two
  locations share a file and line, it shows the hits of the last one
  filed.

## Model

| member | source | states |
|---|---|---|
| RingMath.NextInRange | ext/pf2/src/ringbuffer.rs:30 | advancing an in-range index by one modulo `capacity + 1` is a plain increment that wraps to slot 0 |
| RingMath.Count | ext/pf2/src/ringbuffer.rs:29-45 | the number of queued slots between the read and write index is below the slot count and reaches the write index from the read index |
| RingMath.SlotInjective | ext/pf2/src/ringbuffer.rs:29-45 | distinct queue positions occupy distinct slots, so queued samples never overlap |
| RingMath.FullIffCount | ext/pf2/src/ringbuffer.rs:30-33 | the "next write slot is the read slot" test is true exactly when `capacity` samples are queued |
| RingMath.WindowAfterWrite | ext/pf2/src/ringbuffer.rs:34-35 | writing the write slot and advancing the write index appends exactly one element to the queue |
| RingMath.WindowUntouchedByWrite | ext/pf2/ringbuffer.c:85-90 | writing into the write slot before committing it leaves the queued elements untouched |
| RingMath.WindowAfterRead | ext/pf2/src/ringbuffer.rs:43-44 | taking the read slot and advancing the read index removes exactly the oldest queued element |
| RustRingbuffer.New | ext/pf2/src/ringbuffer.rs:17-26 | a new buffer has `capacity + 1` empty slots, both indices 0, and an empty queue |
| RustRingbuffer.Push | ext/pf2/src/ringbuffer.rs:29-37 | a push fails with `Full` exactly when `capacity` samples are queued and then changes nothing; otherwise the sample joins the back of the queue |
| RustRingbuffer.Pop | ext/pf2/src/ringbuffer.rs:39-46 | a pop yields `None` exactly on an empty buffer, leaving it unchanged; otherwise it yields the oldest sample and the rest of the queue stays |
| RustRingbuffer.PopAll | ext/pf2/src/ringbuffer.rs:39-46 | popping until `None` returns every queued sample oldest first and empties the buffer |
| RustRingbuffer.PushAllFits | ext/pf2/src/ringbuffer.rs:29-37 | pushes that fit within the capacity all succeed and append in order |
| RustRingbuffer.FillThenFull | ext/pf2/src/ringbuffer.rs:29-37 | from an empty buffer exactly `capacity` pushes succeed and the next is `Full` |
| RustRingbuffer.FifoOrder | ext/pf2/src/ringbuffer.rs:29-46 | samples pushed into an empty buffer are popped back in the order they were pushed |
| RustRingbuffer.Bounded | ext/pf2/src/ringbuffer.rs:29-46 | the buffer never holds more than `capacity` samples |
| RustRingbuffer.PushAfterPop | ext/pf2/src/ringbuffer.rs:29-46 | after a successful pop the next push succeeds |
| RustRingbuffer.UnitTestRingbuffer | ext/pf2/src/ringbuffer.rs:63-91 | with capacity 2, pushing 1 and 2 pops back 1, 2 and then nothing |
| RustRingbuffer.UnitTestRingbufferFull | ext/pf2/src/ringbuffer.rs:93-115 | with capacity 1 the second push is `Full` |
| RustRingbuffer.UnitTestRingbufferWriteALot | ext/pf2/src/ringbuffer.rs:117-151 | alternating push and pop across the wrap point returns the sample just pushed |
| Pf2Ringbuffer.InitSample | ext/pf2/ringbuffer.c:38-60 | a slot initialises exactly when all three arrays can be allocated; on failure all three pointers are left NULL, on success the depths and times start at 0 |
| Pf2Ringbuffer.New | ext/pf2/ringbuffer.c:8-36 | creation fails exactly for a non-positive size or a failed allocation of the header or of any slot; otherwise there are `size + 1` initialised slots, head = tail = 0, and nothing queued |
| Pf2Ringbuffer.Reserve | ext/pf2/ringbuffer.c:72-93 | a reservation fails exactly when `size - 1` samples are committed; otherwise it hands out the current tail slot and the following tail |
| Pf2Ringbuffer.Fill | ext/pf2/ringbuffer.c:85-90 | writing the reserved slot leaves the indices and the committed samples unchanged |
| Pf2Ringbuffer.Pop | ext/pf2/ringbuffer.c:103-122 | a pop fails exactly on an empty queue; otherwise it copies out the oldest committed sample and the rest of the queue stays |
| Pf2Ringbuffer.Produce | ext/pf2/ringbuffer.c:72-100 | reserve, fill and commit fail exactly on a full queue; otherwise the sample joins the back of the queue |
| Pf2Ringbuffer.Drain | ext/pf2/ringbuffer.c:103-122 | popping until failure yields the committed samples oldest first |
| Pf2Ringbuffer.ProduceThenDrain | ext/pf2/ringbuffer.c:72-122 | reserve/commit rounds that fit all succeed and are popped back after the earlier samples, in order |
| Pf2Ringbuffer.UncommittedInvisible | ext/pf2/ringbuffer.c:85-100 | a reserved slot filled but not yet committed is never seen by pop |
| PrototypeRingbuffer.New | ext/pf2c/ringbuffer.c:6-23 | creation fails exactly for a non-positive size or a failed allocation; otherwise there are `size + 1` slots, head = tail = 0, and nothing queued |
| PrototypeRingbuffer.Push | ext/pf2c/ringbuffer.c:32-52 | a push is refused, changing nothing, exactly when the slot after the tail is the head; otherwise the sample joins the back of the queue |
| PrototypeRingbuffer.Pop | ext/pf2c/ringbuffer.c:55-74 | a pop fails exactly on an empty queue; otherwise it returns the oldest sample and the rest of the queue stays |
| PrototypeRingbuffer.AtMostSizeSamples | ext/pf2c/ringbuffer.c:12-43 | a queue created for `size` samples never holds more, and a push into a full one is refused |
| SampleCapture.OnBacktraceFrame | ext/pf2/sample.c:82-95 | each delivered program counter is stored at the next index while the index is below `max_native_depth`, later ones are dropped, and the walk is always told to continue |
| SampleCapture.WalkFramesStores | ext/pf2/sample.c:64-95 | a walk stores the first `min(n, max - index)` delivered program counters, in order, and leaves every other slot untouched |
| SampleCapture.CaptureNativeBacktrace | ext/pf2/sample.c:64-80 | the native capture returns how many program counters it stored, never more than `max_native_depth`, and they are the first ones the walk delivered |
| SampleCapture.ProfileFrames | ext/pf2/sample.c:48-49 | the Ruby capture copies at most `max_ruby_depth` innermost frames and their line numbers and returns how many |
| SampleCapture.Capture | ext/pf2/sample.c:27-55 | capture refuses a slot with a missing array and leaves it untouched; otherwise it records the monotonic time as 64-bit nanoseconds, the calling thread, and the truncated Ruby and native stacks, with consumed time 0 |
| SampleCapture.CaptureRespectsLimits | ext/pf2/sample.c:49-52 | a captured sample never holds more Ruby frames than `max_ruby_depth` nor more native frames than `max_native_depth` |
| RustProfile.New | ext/pf2/src/profile.rs:18-25 | a new profile has no samples, no known values and an empty ring buffer of capacity 10000 |
| RustProfile.FramesBeforeZero | ext/pf2/src/profile.rs:30-35 | the frames walked are the leading non-zero frames, stopping at the first 0 |
| RustProfile.RecordKnownValues | ext/pf2/src/profile.rs:29-35 | one popped sample adds its thread and its frames before the first 0 to the known values |
| RustProfile.FlushTemporarySampleBuffer | ext/pf2/src/profile.rs:27-38 | a flush empties the ring buffer, appends its samples after the earlier ones in FIFO order, and grows the known values by exactly their threads and leading frames |
| SignalProfile.New | ext/pf2/src/signal_scheduler/profile.rs:15-24 | a new profile has no samples and an empty pending buffer |
| SignalProfile.Push | ext/pf2/src/signal_scheduler/profile.rs:43-49 | a push panics exactly when 100000 samples are pending; otherwise the sample joins the end of the pending list |
| SignalProfile.Flush | ext/pf2/src/signal_scheduler/profile.rs:26-32 | a flush appends the pending samples in push order after the earlier samples, empties their slots and resets the index |
| SignalProfile.PushAllPending | ext/pf2/src/signal_scheduler/profile.rs:5-49 | pushes that fit all succeed and queue the samples in order; one more than the capacity panics |
| IndexedMaps.Content | ext/pf2/indexed_maps.h:57-61 | the bytes hashed and compared are exactly those before the first NUL |
| IndexedMaps.HashCStr | ext/pf2/indexed_maps.h:50-63 | NULL hashes to 0; any other string hashes as FNV-1a steps over its content, from the basis the code writes (1469598103934665603) |
| IndexedMaps.Fnv1aCStr | ext/pf2/indexed_maps.h:50-63 | the same string hash from the FNV-1a 64-bit offset basis 14695981039346656037 |
| IndexedMaps.HashUntilNulIsFnv | ext/pf2/indexed_maps.h:56-62 | the byte loop that stops at NUL computes FNV-1a of the string's content |
| IndexedMaps.FnvReferenceValues | ext/pf2/indexed_maps.h:56-62 | with the reference basis the empty string and "a" hash to the published FNV-1a values, and bytes after a NUL are ignored |
| IndexedMaps.SourceBasisIsNotFnv | ext/pf2/indexed_maps.h:56 | with the basis as written the empty string and "a" do not hash to the FNV-1a values |
| IndexedMaps.StrcmpEqualIffContent | ext/pf2/indexed_maps.h:71 | `strcmp` reports equality exactly when the two contents agree |
| IndexedMaps.StrEqual | ext/pf2/indexed_maps.h:65-72 | NULL equals only NULL; two strings are equal exactly when their contents agree |
| IndexedMaps.FunctionKeyEqualIff | ext/pf2/indexed_maps.h:74-112 | two built function keys are equal exactly when the functions agree on implementation, start line, start address, name and file name |
| IndexedMaps.FunctionKeyHashConsistent | ext/pf2/indexed_maps.h:88-112 | equal function keys have equal hashes, so the map finds a known function again |
| IndexedMaps.LocationKeyEqual | ext/pf2/indexed_maps.h:114-129 | location keys are equal exactly when all three fields agree, and equal keys hash equally |
| IndexedMaps.CombineFromReadsPrefix | ext/pf2/indexed_maps.h:131-140 | the stack hash reads only the first `stack_count` entries |
| IndexedMaps.StackKeyEqualIff | ext/pf2/indexed_maps.h:148-161 | stack keys are equal exactly when thread, count and the first `count` entries agree; two empty stacks of one thread are equal |
| IndexedMaps.StackKeyHashConsistent | ext/pf2/indexed_maps.h:131-161 | equal stack keys whose stored hashes came from the stack hash have equal hashes |
| SessionKeys.EqLocationKey | ext/pf2/session.h:40-49 | location keys are equal exactly when frame and line agree, and equal keys hash equally |
| SessionKeys.EqualFromIff | ext/pf2/session.h:67-74 | the element-by-element comparison loop succeeds exactly when the remaining entries agree |
| SessionKeys.FoldFromReadsPrefix | ext/pf2/session.h:59-66 | the stack hash loop reads only the first `depth` entries |
| SessionKeys.EqStackKey | ext/pf2/session.h:67-74 | Ruby stack keys are equal exactly when depths agree and the first `depth` location ids agree |
| SessionKeys.StackKeyHashConsistent | ext/pf2/session.h:59-74 | equal Ruby stack keys hash equally |
| SessionKeys.EqNativeStackKey | ext/pf2/session.h:92-99 | native stack keys are equal exactly when depths agree and the first `depth` program counters agree |
| SessionKeys.NativeStackKeyHashConsistent | ext/pf2/session.h:84-99 | equal native stack keys hash equally |
| SessionKeys.EqCombinedStackKey | ext/pf2/session.h:109-118 | combined keys are equal exactly when both stack ids agree, and equal keys hash equally |
| Pf2Session.IdentityIsKeyEquality | ext/pf2/indexed_maps.h:99-112 | keying the function table by a function's identity is the same as comparing built keys with `pf2_function_key_equal` |
| Pf2Session.NewSession | ext/pf2/session.c:708-737 | a new session has empty tables with room for 256 samples, 128 functions and 256 locations, and both counters at 0 |
| Pf2Session.Start | ext/pf2/session.c:94-98 | the start time is the monotonic seconds times 10^9 plus nanoseconds, wrapped to 64 bits, and nothing else changes |
| Pf2Session.EnsureCapacity | ext/pf2/session.c:357-423 | nothing happens while there is room; a full array grows to 16 slots from 0 and doubles otherwise, in one allocation attempt; on success there is room for one more entry, on failure the capacity is kept |
| Pf2Session.FunctionIndexFor | ext/pf2/session.c:465-497 | a known function yields its stored index and changes nothing; a new one is appended at the old count and registered; any failed allocation leaves the function table as it was |
| Pf2Session.LocationIndexFor | ext/pf2/session.c:499-536 | a known (function, line, address) yields its stored index; a new one is appended and registered; a failure leaves the location table as it was |
| Pf2Session.RubyFunction | ext/pf2/session.c:538-570 | a Ruby frame becomes a Ruby function named by its full label and path, starting at its first line or -1, at address 0 |
| Pf2Session.NativeFunction | ext/pf2/session.c:572-607 | a program counter becomes a native function with no file and start line 0, named by the symbol and starting at the symbol's address when the lookup finds one, else NULL and 0 |
| Pf2Session.LocatesFrameStable | ext/pf2/session.c:465-536 | once a location stands for a frame it keeps doing so as the tables grow |
| Pf2Session.FrameIndexFor | ext/pf2/session.c:231-244 | indexing a frame finds or adds its function, then its location, and the location found stands for that frame at that line |
| Pf2Session.MemEqualFrom | ext/pf2/session.c:456 | the `memcmp` of two stacks reports equality exactly when every entry agrees |
| Pf2Session.FindSampleByRubyStack | ext/pf2/session.c:437-463 | the search finds the first stored sample with the same thread and Ruby stack, and reports none exactly when no stored sample matches |
| Pf2Session.Merge | ext/pf2/session.c:276-281 | a repeated sample adds one to the stored count and keeps the later elapsed time; its own native stack is discarded |
| Pf2Session.Aggregate | ext/pf2/session.c:274-292 | a new sample is merged into the first stored sample with the same thread and Ruby stack, leaving the others alone, or else appended |
| Pf2Session.AggregateCountsOnce | ext/pf2/session.c:274-292 | merging or appending a freshly indexed sample adds exactly one to the total count |
| Pf2Session.AggregateKeepsDistinct | ext/pf2/session.c:274-292 | the stored samples never hold two entries with the same thread and Ruby stack |
| Pf2Session.IndexRubyFrames | ext/pf2/session.c:219-246 | the Ruby stack succeeds exactly when every allocation does, and then entry `j` is the location of frame `j` at its line |
| Pf2Session.IndexNativeFrames | ext/pf2/session.c:248-272 | the native stack succeeds exactly when every allocation does, and then entry `j` is the location of program counter `j` at line 0 |
| Pf2Session.RubyFramesStable | ext/pf2/session.c:219-272 | Ruby frames located earlier stay located as later frames grow the tables |
| Pf2Session.NativeFramesStable | ext/pf2/session.c:248-292 | native frames located earlier stay located as the tables grow |
| Pf2Session.StoreSample | ext/pf2/session.c:274-292 | storing merges or appends the sample and adds one to the total count; only the growth of the sample array can fail, and then the samples are unchanged |
| Pf2Session.IndexSample | ext/pf2/session.c:212-272 | an indexed sample carries the thread, the time since the session start modulo 2^64, count 1, and the location of every Ruby and native frame |
| Pf2Session.DrainSample | ext/pf2/session.c:210-305 | a popped sample is collected exactly when every allocation it needs succeeds, and is then merged or appended; a dropped sample leaves the samples alone; the total count grows exactly with the collected counter |
| Pf2Session.DrainRingbuffer | ext/pf2/session.c:207-306 | a drain empties the queue and counts every popped sample exactly once, as collected or as dropped |
| Pf2Session.SigprofHandler | ext/pf2/session.c:309-341 | a sample is dropped and counted as dropped while the garbage collector is marking, when capture fails, or when the queue is full; otherwise it joins the back of the queue and no counter changes |
| Pf2Serializer.New | ext/pf2/serializer.c:12-38 | creation fails exactly when the header cannot be allocated; otherwise all tables are empty, all capacities and counters 0, and the serializer owns its tables |
| Pf2Serializer.Prepare | ext/pf2/serializer.c:65-88 | a prepared serializer carries the wall-clock start in 64-bit nanoseconds, the duration and both counters, and shares the session's three tables without owning them |
| Pf2Serializer.Free | ext/pf2/serializer.c:41-62 | the header is always freed, last; the arrays and every sample's stacks and every function's strings are freed only when the serializer owns them |
| Pf2Serializer.PreparedFreesOnlyHeader | ext/pf2/serializer.c:41-88 | freeing a prepared serializer releases only its header, never the session's tables |
| Pf2Serializer.SampleValue | ext/pf2/serializer.c:102-131 | a sample's hash reads back its stack, native stack, thread id (`nil` for 0), elapsed time and count |
| Pf2Serializer.LocationValue | ext/pf2/serializer.c:137-153 | a location's hash reads back its function index and line, with address `nil` |
| Pf2Serializer.CStringValue | ext/pf2/serializer.c:171-176 | a NULL string becomes `nil`, any other the Ruby string of its bytes before the NUL |
| Pf2Serializer.FunctionValue | ext/pf2/serializer.c:159-185 | a function's hash reads back `:ruby` or `:native`, its two strings, its start line (`nil` when negative), with start address `nil` |
| RubyValue.ArrayOf | ext/pf2/serializer.c:101-131 | a table becomes a Ruby array of the same length whose i-th element renders the i-th entry; both serializers build their `samples`, `locations` and `functions` arrays this way, differing only in how one entry renders |
| Pf2Serializer.ToRubyHash | ext/pf2/serializer.c:91-190 | the hash carries the four metadata numbers and one entry per sample, location and function, in table order |
| Pf2Serializer.ExportedIndicesResolve | ext/pf2/serializer.c:65-190 | in the hash of a prepared serializer every sample's stack is the session's stack, every stack entry indexes the locations array and every location's function index the functions array |
| PrototypeSerializer.New | ext/pf2c/serializer.c:26-48 | creation fails exactly when the header cannot be allocated; otherwise all tables are empty and every number is 0 |
| PrototypeSerializer.Free | ext/pf2c/serializer.c:51-70 | every sample's two stacks, every function's two strings and the three arrays are freed, then the header, last |
| PrototypeSerializer.Grow | ext/pf2c/serializer.c:353-377 | a table is grown only once it is full, and then has room for one more entry |
| PrototypeSerializer.FunctionMatches | ext/pf2c/serializer.c:311-322 | a stored function matches exactly when name and file name agree (NULL only with NULL) and the start lines agree |
| PrototypeSerializer.FindFunction | ext/pf2c/serializer.c:309-324 | the search finds the first matching stored function, or reports that none matches |
| PrototypeSerializer.FindLocation | ext/pf2c/serializer.c:336-350 | the search finds the first location with the same function index and line, or reports that none has them |
| PrototypeSerializer.FunctionIndexFor | ext/pf2c/serializer.c:307-331 | a matching function yields the first match's index and changes nothing; otherwise the function is appended at the end, growing the table when full |
| PrototypeSerializer.LocationIndexFor | ext/pf2c/serializer.c:334-350 | a known (function index, line) yields its index and changes nothing; otherwise a location with address 0 is appended |
| PrototypeSerializer.LookupsKeepTablesDistinct | ext/pf2c/serializer.c:307-350 | the function and location tables never gain a duplicate entry |
| PrototypeSerializer.FunctionIndexForIdempotent | ext/pf2c/serializer.c:307-331 | looking a function up twice gives the same index and the second lookup changes nothing |
| PrototypeSerializer.NativeFunctionsMergeByName | ext/pf2c/serializer.c:311-322 | since neither implementation nor start address is compared, a native function is folded into a Ruby function with the same name, file and start line |
| PrototypeSerializer.AllLocatedStable | ext/pf2c/serializer.c:92-114 | frames located earlier stay located as the tables grow |
| PrototypeSerializer.IndexFrames | ext/pf2c/serializer.c:92-101 | every frame is located, in order, at a location that stands for its function and line |
| PrototypeSerializer.IndexSampleFrames | ext/pf2c/serializer.c:89-118 | a sample's Ruby frames are located at their lines; its native frames at line 0, or NULL when there are none |
| PrototypeSerializer.AppendSample | ext/pf2c/serializer.c:83-85 | storing a sample appends it and leaves the other tables alone |
| PrototypeSerializer.Elapsed | ext/pf2c/serializer.c:87 | the elapsed time is the 64-bit difference of stamp and start: the true difference when the stamp is later, wrapped to near 2^64 when it is earlier |
| PrototypeSerializer.PrepareSample | ext/pf2c/serializer.c:81-120 | one iteration appends exactly one serialized form of the session sample |
| PrototypeSerializer.Nanos | ext/pf2c/serializer.c:75-77 | a clock reading becomes seconds times 10^9 plus nanoseconds, modulo 2^64 |
| PrototypeSerializer.PrepareFrom | ext/pf2c/serializer.c:73-121 | preparing keeps the entries already held and appends one serialized form per session sample, in order, with the wall-clock start and the duration as metadata |
| PrototypeSerializer.Prepare | ext/pf2c/serializer.c:73-121 | elapsed times are measured from the wall-clock start, so a sample stamped before it on the monotonic clock wraps to nearly 2^64 |
| PrototypeSerializer.PrepareIntended | ext/pf2c/serializer.c:73-121 | elapsed times are measured from the monotonic start, so a sample stamped `d` nanoseconds after the start reports `d` |
| PrototypeSerializer.ClockMixCounterexample | ext/pf2c/serializer.c:75-87 | a sample one second into a session reports one second from the monotonic start but about 1.6 * 10^19 ns as written |
| PrototypeSerializer.IntendedElapsedKeepsSpacing | ext/pf2c/serializer.c:87 | measured from a common start, stamps in order report times in order, exactly as far apart |
| PrototypeSerializer.SampleValue | ext/pf2c/serializer.c:133-161 | a sample's hash reads back its stack, its native stack (empty for NULL), its thread id (`nil` for 0) and its elapsed time |
| PrototypeSerializer.ToRubyHash | ext/pf2c/serializer.c:124-220 | the hash carries start and duration and one entry per sample, location and function, in table order |
| PrototypeSerializer.ExportedSampleReadsBack | ext/pf2c/serializer.c:86-118 | an exported sample has a `nil` thread id, its elapsed time, one stack entry per Ruby frame, and an empty native stack when there were no native frames |
| SerializationProfile.Leaf | ext/pf2/src/serialization/profile.rs:16-18 | a sample has a leaf exactly when its stack is non-empty, and the leaf is `stack[0]` |
| ProfileSerializer2.New | ext/pf2/src/serialization/serializer.rs:15-25 | a new serializer holds an empty profile with zero timestamps |
| ProfileSerializer2.Position | ext/pf2/src/serialization/serializer.rs:69-73 | `position` finds the first index holding the value, and nothing exactly when the value is absent |
| ProfileSerializer2.FunctionIndexFor | ext/pf2/src/serialization/serializer.rs:68-81 | a function already present yields its first index and changes nothing; otherwise it is appended and its index is the old length |
| ProfileSerializer2.LocationIndexFor | ext/pf2/src/serialization/serializer.rs:85-104 | the location (function index, line, no address) is found where it first occurs or appended |
| ProfileSerializer2.LookupsKeepNoDuplicates | ext/pf2/src/serialization/serializer.rs:68-104 | the function and location tables never gain a duplicate |
| ProfileSerializer2.FunctionIndexForIdempotent | ext/pf2/src/serialization/serializer.rs:68-81 | a second lookup of a function finds it where the first put it and changes nothing |
| ProfileSerializer2.ExtractFunctionFromFrame | ext/pf2/src/serialization/serializer.rs:106-147 | a frame becomes a Ruby function with its full label, path and first line, and no address |
| ProfileSerializer2.ResolvesToStable | ext/pf2/src/serialization/serializer.rs:46-55 | stack entries that stand for frames keep doing so as the tables grow |
| ProfileSerializer2.Depth | ext/pf2/src/serialization/serializer.rs:45-46 | the loop visits `line_count` frames, none when it is negative |
| ProfileSerializer2.IndexStack | ext/pf2/src/serialization/serializer.rs:42-55 | the stack built for a sample holds, for each frame in order, a location standing for the frame's function and line |
| ProfileSerializer2.Serialize | ext/pf2/src/serialization/serializer.rs:27-64 | serializing fails exactly when there is no end instant; otherwise it sets the metadata and appends one sample per source sample, in order, each with its thread and its frames' locations |
| ProfileSerializer.NewThread | ext/pf2/src/profile_serializer.rs:26-40 | a new thread profile holds only the root node, numbered 0, an empty frame table and no samples |
| ProfileSerializer.ContainsIffOccurs | ext/pf2/src/profile_serializer.rs:123-126 | the substring test `frame.contains(..)` holds exactly when the needle occurs at some position of the frame name |
| ProfileSerializer.Strip | ext/pf2/src/profile_serializer.rs:115-131 | no frame left after the `retain` pass is a profiler frame or a VM-entry frame, and the pass never lengthens the stack |
| ProfileSerializer.Cut | ext/pf2/src/profile_serializer.rs:118-129 | the stack is cut at the first frame that is a VM entry but not a profiler frame; every earlier frame is a profiler frame or not a VM entry |
| ProfileSerializer.StripIsFilterBeforeCut | ext/pf2/src/profile_serializer.rs:115-131 | stripping equals dropping the profiler frames from the part of the stack before the cut, keeping their order |
| ProfileSerializer.CStack | ext/pf2/src/profile_serializer.rs:98-113 | symbolising panics, on `to_str().unwrap()`, exactly when some recorded program counter has a symbol name that is not UTF-8; otherwise the C stack has at most one name per recorded program counter, with the placeholder name for a null symbol |
| ProfileSerializer.MergedStack | ext/pf2/src/profile_serializer.rs:133-156 | merging panics exactly when the full label of one of the first `line_count` Ruby frames is not UTF-8; otherwise the merged stack is the kept native frames, with hashed ids, followed by those Ruby frames, with their frame values as ids and their full labels |
| ProfileSerializer.Descend | ext/pf2/src/profile_serializer.rs:164-176 | descending the stack tree never changes or removes an existing node |
| ProfileSerializer.DescendAddsPrefixes | ext/pf2/src/profile_serializer.rs:164-176 | after a descent every prefix of the walked path has a node, and the only nodes added are such prefixes |
| ProfileSerializer.DescendReuses | ext/pf2/src/profile_serializer.rs:168 | a path that is already in the tree is walked without creating any node |
| ProfileSerializer.DescendKeepsIdsUnique | ext/pf2/src/profile_serializer.rs:168-176 | node ids stay pairwise distinct and below the counter, and each new node takes one of the counter values the descent passed |
| ProfileSerializer.DescendKeepsTree | ext/pf2/src/profile_serializer.rs:164-176 | a descent from an existing node keeps the set of node paths closed under prefixes, so it stays a tree |
| ProfileSerializer.AddFrames | ext/pf2/src/profile_serializer.rs:187-191 | the frame table keeps its entries, gains for each new id the first popped entry carrying it, and gains nothing else |
| ProfileSerializer.WalkThread | ext/pf2/src/profile_serializer.rs:164-192 | walking a sample records exactly one sample, at the node of the full root-first path (the leaf), when the stack is non-empty, and none otherwise |
| ProfileSerializer.WalkThreadKeepsGood | ext/pf2/src/profile_serializer.rs:164-192 | a walk keeps the thread's tree rooted, prefix-closed and with unique ids, keeps every old node, and numbers new nodes from the counter range it used |
| ProfileSerializer.ThreadOfGood | ext/pf2/src/profile_serializer.rs:158-162 | the profile found or created for a thread is a well-formed tree filed under that thread |
| ProfileSerializer.UpdateKeepsGood | ext/pf2/src/profile_serializer.rs:158-192 | replacing one thread's profile by a grown one whose new ids come from the new counter range keeps node ids unique across all threads |
| ProfileSerializer.ElapsedNs | ext/pf2/src/profile_serializer.rs:180 | the elapsed time is the timestamp minus the start, saturating at zero as `Instant` subtraction does |
| ProfileSerializer.AddSample | ext/pf2/src/profile_serializer.rs:158-192 | the pop loop panics exactly when the sample's frame visits take the `i32` node counter past `i32::MAX`; otherwise the sample lands in its own thread's profile, created on first use, with one new sample at its leaf for a non-empty stack and none for an empty one; the thread keeps its old nodes, other threads are untouched, the counter advances by one per frame and ids stay unique |
| ProfileSerializer.RepeatedStackSharesLeaf | ext/pf2/src/profile_serializer.rs:167-185 | a stack seen again on the same thread adds no node and records its sample at the same leaf as before |
| ProfileSerializer.SampledThreads | ext/pf2/src/profile_serializer.rs:90-162 | the sampled threads are exactly the threads of the samples |
| ProfileSerializer.SampleWalk | ext/pf2/src/profile_serializer.rs:96-156 | a sample's merged stack fails only with one of the two UTF-8 panics, and otherwise holds at least its `line_count` Ruby frames |
| ProfileSerializer.WalkLands | ext/pf2/src/profile_serializer.rs:158-192 | a walk that stays within the counter's range keeps node ids unique across threads and lands as `SampleAdded` describes |
| ProfileSerializer.CollectSucceedsIff | ext/pf2/src/profile_serializer.rs:89-156 | the samples processed so far panic on no name or label exactly when each of their walks succeeds, and then the walks are listed in sample order |
| ProfileSerializer.OverflowFailsRun | ext/pf2/src/profile_serializer.rs:174 | once the frame visits of the first samples take the counter past `i32::MAX`, every longer run does too, since the counter never goes back |
| ProfileSerializer.OverflowStep | ext/pf2/src/profile_serializer.rs:166-176 | a sample whose frame visits take the counter past `i32::MAX` leaves every complete run either panicking on a name or label or overflowing as well |
| ProfileSerializer.ThreadSamplesFrame | ext/pf2/src/profile_serializer.rs:178-185 | the samples a thread should hold depend only on the walks so far and on the leaves' node ids, which a growing tree keeps |
| ProfileSerializer.NewThreadRecorded | ext/pf2/src/profile_serializer.rs:158-162 | a thread created on its first sample has recorded nothing from the samples before it |
| ProfileSerializer.RecordedOther | ext/pf2/src/profile_serializer.rs:158-162 | a sample of another thread leaves a thread's recorded samples as they were |
| ProfileSerializer.RecordedOwn | ext/pf2/src/profile_serializer.rs:178-185 | a thread's own sample extends its recorded samples by exactly one sample at the leaf for a non-empty stack and by nothing for an empty one |
| ProfileSerializer.RecordStep | ext/pf2/src/profile_serializer.rs:158-192 | after one more sample, the set of filed threads is the set of threads sampled so far and every thread still holds exactly the samples it should |
| ProfileSerializer.StepRecorded | ext/pf2/src/profile_serializer.rs:158-192 | a sample added without overflow keeps the loop's account: threads filed, counter equal to one plus all frame visits, and each thread's samples as they should be |
| ProfileSerializer.SerializeSample | ext/pf2/src/profile_serializer.rs:89-192 | one iteration of the sample loop panics exactly when this sample's names or labels are not UTF-8 or its frame visits overflow the counter, and then the whole run panics; otherwise the loop's account holds for one more sample |
| ProfileSerializer.Serialize | ext/pf2/src/profile_serializer.rs:81-197 | serializing panics exactly when some sample has a symbol name or label that is not UTF-8 or when the frame visits of all samples take the `i32` counter past `i32::MAX`; otherwise every sampled thread gets a profile, and no other, node ids are unique across threads, and each thread holds, in order, one sample per non-empty stack of its own, at the node of that stack's full path, with the time since the profile's start |
| RubyValue.Get | ext/pf2/configuration.c:34 | a hash lookup finds only a value actually stored under the key, and a non-hash finds nothing |
| RubyValue.Lookup | ext/pf2/configuration.c:34 | a lookup result is stored under the key; no result means no entry has the key |
| RubyValue.LookupFirst | ext/pf2/configuration.c:34 | the first entry carrying the key decides the lookup |
| RubyValue.Record | ext/pf2/serializer.c:104-129 | a hash filled by `rb_hash_aset` under distinct symbols has one entry per name and reads back each stored value |
| RubyValue.IntArray | ext/pf2/serializer.c:107-110 | the array built by pushing integers has one integer per element, in order |
| RubyValue.IntArrayRoundTrip | ext/pf2/serializer.c:107-110 | reading an integer array back recovers exactly the integers pushed |
| RubyValue.Latin1 | ext/pf2/serializer.c:171 | `rb_str_new_cstr` gives a string of one character per byte, with the byte's code |
| RubyValue.NumToInt | ext/pf2/configuration.c:39 | `NUM2INT` converts exactly the integers of the signed 32-bit range, raising `RangeError` for other integers and `TypeError` for non-integers |
| RubyValue.Digits | ext/pf2/configuration.c:81 | `%d` prints only decimal digits, at least one |
| RustConfiguration.DefaultScheduler | ext/pf2/src/session/configuration.rs:9-14 | the default scheduler is the signal scheduler exactly on Linux |
| RustConfiguration.DefaultTimeMode | ext/pf2/src/session/configuration.rs:11-16 | the default time mode is CPU time exactly on Linux |
| RustConfiguration.SchedulerFromStr | ext/pf2/src/session/configuration.rs:34-44 | exactly the names `signal` and `timer_thread` parse, each to its scheduler |
| RustConfiguration.TimeModeFromStr | ext/pf2/src/session/configuration.rs:52-62 | exactly the names `cpu` and `wall` parse, each to its time mode |
| RustConfiguration.NamesRoundTrip | ext/pf2/src/session/configuration.rs:34-62 | the names written out parse back to the same value, and no other spelling parses to it |
| RustConfiguration.Validate | ext/pf2/src/session/configuration.rs:71-84 | validation fails exactly for the timer-thread scheduler combined with CPU time or all threads, reporting CPU time first, with the source's messages |
| RustConfiguration.ToRbHash | ext/pf2/src/session/configuration.rs:86-112 | writing the hash panics exactly when the interval does not fit a signed 64-bit integer; otherwise it has three entries |
| RustConfiguration.RbHashReadsBack | ext/pf2/src/session/configuration.rs:86-112 | the written hash holds the scheduler and time mode as symbols that parse back to them, and the interval in milliseconds |
| NewThreadWatcher.Watch | ext/pf2/src/session/new_thread_watcher.rs:31-53 | a new watcher knows no thread |
| NewThreadWatcher.OnThreadResume | ext/pf2/src/session/new_thread_watcher.rs:55-70 | the callback fires exactly for a thread not yet known, with that thread, and the thread is known afterwards |
| NewThreadWatcher.Replay | ext/pf2/src/session/new_thread_watcher.rs:55-70 | after a run of resume events the known threads are the old ones plus every thread that resumed |
| NewThreadWatcher.FiresOncePerThread | ext/pf2/src/session/new_thread_watcher.rs:55-70 | over any run of events the callback fires at most once per thread, only for threads unknown at the start, and for every such thread that resumes |
| CConfiguration.Aref | ext/pf2/configuration.c:34-37 | a missing option reads as `nil`, a present one as its stored value |
| CConfiguration.ExtractIntervalMs | ext/pf2/configuration.c:27-40 | a `nil` options hash or option gives 9 ms; otherwise the interval is the option through `NUM2INT`, errors included |
| CConfiguration.ExtractTimeMode | ext/pf2/configuration.c:42-62 | `nil` gives CPU time, the symbols `:cpu` and `:wall` their modes, and anything else raises `ArgumentError` naming the value |
| CConfiguration.ExtractDepth | ext/pf2/configuration.c:64-108 | a `nil` option gives the default; otherwise the depth is accepted exactly when it converts and lies in 1 to the limit, with the source's messages for the two rejections |
| CConfiguration.NewFromOptionsHash | ext/pf2/configuration.c:11-25 | the options are read in the source's order, the first failure is raised, and success carries the four values read |
| CConfiguration.AcceptedDepthsInRange | ext/pf2/configuration.c:76-84 | every accepted configuration has both depths between 1 and their limits |
| CConfiguration.ToRubyHash | ext/pf2/configuration.c:116-146 | the configuration is written as a hash of exactly four options |
| CConfiguration.HashRoundTrip | ext/pf2/configuration.c:11-146 | every configuration the reader can accept reads back unchanged from the hash the writer makes |
| TimerInstaller.Install | ext/pf2/src/signal_scheduler/timer_installer.rs:35-72 | the installer starts with the given target threads, no registered pthread and an empty kernel-thread map |
| TimerInstaller.RegisterTimer | ext/pf2/src/signal_scheduler/timer_installer.rs:136-191 | registering panics exactly in wall-time mode; otherwise the timer fires every 10 ms for the calling pthread, on behalf of the Ruby thread mapped to its kernel thread |
| TimerInstaller.OnThreadResume | ext/pf2/src/signal_scheduler/timer_installer.rs:79-118 | a non-target thread or an already registered pthread changes nothing; otherwise the pthread is recorded, its kernel thread mapped to the Ruby thread, and one timer registered |
| TimerInstaller.OnThreadStart | ext/pf2/src/signal_scheduler/timer_installer.rs:63-71 | a started thread becomes a target exactly when new threads are tracked, and registrations are unchanged |
| TimerInstaller.Replay | ext/pf2/src/signal_scheduler/timer_installer.rs:79-133 | over a run of events the registered pthreads only grow, and every timer belongs to a registered pthread |
| TimerInstaller.OneTimerPerPthread | ext/pf2/src/signal_scheduler/timer_installer.rs:95-105 | over any run of events no pthread gets two timers, and none gets one if it was registered before the run |
| RustSession.ParseIntervalMs | ext/pf2/src/session.rs:128-142 | an absent interval gives the default; a given one converts exactly when `rb_num2long` accepts it, and a negative one falls back to 9 ms |
| RustSession.ParseThreads | ext/pf2/src/session.rs:144-161 | absent or `nil` means the default, exactly `:all` means all threads, and an array means exactly the set of its elements |
| RustSession.ParseTimeMode | ext/pf2/src/session.rs:163-183 | an absent mode gives the platform default; a given one is accepted exactly when its `to_s` names a mode, which is then the mode read, and otherwise raises the source's message |
| RustSession.ParseScheduler | ext/pf2/src/session.rs:185-214 | an absent scheduler gives the platform default; a given one is accepted exactly when its `to_s` names a scheduler that the platform supports, and off Linux only the timer thread is accepted |
| RustSession.ParseUseExperimentalSerializer | ext/pf2/src/session.rs:216-221 | the experimental serializer is on exactly when the option is given a truthy value |
| RustSession.DefaultThreads | ext/pf2/src/session.rs:62-72 | leaving out `threads` means all threads exactly for the signal scheduler |
| RustSession.Parse | ext/pf2/src/session.rs:59-82 | the options are parsed in the source's order, the first failure is raised, and success carries every parsed value, with the scheduler's default threads when none were given |
| RustSession.New | ext/pf2/src/session.rs:35-126 | a parsed configuration is validated first, and a rejected one raises `ArgumentError` with the validation message; a session has a thread watcher exactly for `threads: :all`, starts stopped and holds a fresh profile |
| RustSession.DefaultThreadsValidate | ext/pf2/src/session.rs:62-89 | leaving out `threads` is always valid with the signal scheduler, which then gets a watcher, and valid with the timer thread exactly in wall-time mode |
| RustSession.Start | ext/pf2/src/session.rs:223-227 | starting only sets the running flag |
| RustSession.Stop | ext/pf2/src/session.rs:252-255 | stopping only clears the running flag |
| RustSession.OnThreadResume | ext/pf2/src/session.rs:111-123 | a resumed thread is handed to the scheduler exactly when a watcher exists, the thread is new to it and the session runs; the session's flag and configuration do not change |
| RustSession.ResumedWhileStoppedIsNeverForwarded | ext/pf2/src/session.rs:111-123 | a thread that first resumes while the session is stopped is never handed on, even after a later start |
| ReportProfile.FunctionOf | lib/pf2/reporter/stack_weaver.rb:58-59 | a location's function is found exactly when both indices are inside their tables, and is then one of the profile's functions |
| StackWeaver.InterleavesKeepsElements | lib/pf2/reporter/stack_weaver.rb:18-53 | an interleaving of the two stacks holds each of their frames exactly as often as they do, and nothing else |
| StackWeaver.InterleavesWithEmpty | lib/pf2/reporter/stack_weaver.rb:18-53 | interleaving a stack with an empty one gives the stack back |
| StackWeaver.AnyStartsAt | lib/pf2/reporter/stack_weaver.rb:66-75 | the search of the native remainder succeeds with true exactly when some remaining frame, all of which resolve, has the given start address |
| StackWeaver.ShouldSwitchToNative | lib/pf2/reporter/stack_weaver.rb:57-76 | an unresolved location raises `NoMethodError` and a non-Ruby function raises; a function without a start address never switches; otherwise it switches exactly when a remaining native frame has its start address |
| StackWeaver.ShouldSwitchToRuby | lib/pf2/reporter/stack_weaver.rb:78-86 | an unresolved location raises `NoMethodError` and a non-native function raises; a native function switches exactly when it is `vm_exec_core` |
| StackWeaver.WeaveFrom | lib/pf2/reporter/stack_weaver.rb:25-50 | a successful weave, from any state, interleaves the two stacks, and the stacks are well-kinded |
| StackWeaver.WeaveFromSucceeds | lib/pf2/reporter/stack_weaver.rb:25-50 | on well-kinded stacks the loop never raises, whichever side it is on |
| StackWeaver.Weave | lib/pf2/reporter/stack_weaver.rb:18-53 | a successful weave is an interleaving of the Ruby and the native stack |
| StackWeaver.WeaveStartsAtNativeRoot | lib/pf2/reporter/stack_weaver.rb:24 | weaving starts from the native root, which ends up as the outermost frame |
| StackWeaver.WeaveSucceedsIffWellKinded | lib/pf2/reporter/stack_weaver.rb:18-86 | weaving succeeds exactly on well-kinded stacks, and then keeps every frame of both stacks once per occurrence |
| StackWeaver.RubyOnly | lib/pf2/reporter/stack_weaver.rb:18-53 | with no native frames the woven stack is the Ruby stack |
| StackWeaver.RubyStep | lib/pf2/reporter/stack_weaver.rb:34-37 | a Ruby step puts the leafmost remaining Ruby frame in front of the rest of the weave |
| StackWeaver.NativeStep | lib/pf2/reporter/stack_weaver.rb:45-48 | a native step puts the leafmost remaining native frame in front of the rest of the weave |
| StackWeaver.WeaveRubyOnlyExample | test/reporter/stack_weaver_test.rb:9-31 | the Ruby-only example of the tests weaves to its Ruby stack |
| StackWeaver.WeaveBothExample | test/reporter/stack_weaver_test.rb:33-59 | the example where native `main` enters the VM weaves to the Ruby frames above the native ones, as the tests expect |
| StackWeaver.WeaveCfuncExample | test/reporter/stack_weaver_test.rb:61-89 | the example with a C function called from Ruby hands the leaf back to the native side, as the tests expect |
| Protobuf.PutByte | lib/pf2/reporter/pprof.rb:21-23 | `put_byte` appends one byte equal to the value modulo 256, and the value itself when it fits a byte |
| Protobuf.VarintShape | lib/pf2/reporter/pprof.rb:25-33 | every varint byte but the last has the continuation bit and the last does not; a value below 128 is its own byte, a negative value emits its low byte alone, and no group is redundant |
| Protobuf.VarintValue | lib/pf2/reporter/pprof.rb:25-33 | the seven-bit groups of a varint, least significant first, add up to the value written |
| Protobuf.VarintLength | lib/pf2/reporter/pprof.rb:25-33 | a value below 128^k takes at most k bytes |
| Protobuf.DecodeVarint | lib/pf2/reporter/pprof.rb:25-33 | a varint read consumes at least one byte and never more than are there |
| Protobuf.VarintRoundTrip | lib/pf2/reporter/pprof.rb:25-33 | reading a varint back gives the value written and its length, whatever follows it |
| Protobuf.PutVarint | lib/pf2/reporter/pprof.rb:25-33 | `put_varint` only appends, and the appended bytes read back as the value for every non-negative value |
| Protobuf.WireVarintBytes | lib/pf2/reporter/pprof.rb:35-38 | `wire_varint` appends the tag's varint and then the value's |
| Protobuf.WireLenBytes | lib/pf2/reporter/pprof.rb:40-44 | `wire_len` appends the tag's varint, the length's varint and then the payload |
| Protobuf.TagSplits | lib/pf2/reporter/pprof.rb:36 | a tag `(field << 3) \| wire_type` splits back into the field number and the wire type |
| Protobuf.WireVarintWritesField | lib/pf2/reporter/pprof.rb:35-38 | `wire_varint` appends exactly the encoding of one VARINT field |
| Protobuf.WireLenWritesField | lib/pf2/reporter/pprof.rb:40-44 | `wire_len` appends exactly the encoding of one LEN field |
| Protobuf.DecodeVarintField | lib/pf2/reporter/pprof.rb:35-38 | a tag with wire type VARINT followed by a varint reads as one VARINT field of the tag's field number |
| Protobuf.DecodeLenField | lib/pf2/reporter/pprof.rb:40-44 | a tag with wire type LEN followed by a length and that many bytes reads as one LEN field holding them |
| Protobuf.VarintFieldRoundTrip | lib/pf2/reporter/pprof.rb:35-38 | a VARINT field written by the encoder reads back as itself, whatever follows it |
| Protobuf.LenFieldRoundTrip | lib/pf2/reporter/pprof.rb:40-44 | a LEN field written by the encoder reads back as itself, whatever follows it |
| Protobuf.FieldRoundTrip | lib/pf2/reporter/pprof.rb:35-44 | any field the encoder writes reads back as itself, whatever follows it |
| Protobuf.FieldsRoundTrip | lib/pf2/reporter/pprof.rb:35-44 | a message written field by field decodes to exactly those fields, in order |
| Protobuf.DecodeFieldsStep | lib/pf2/reporter/pprof.rb:35-44 | a field decoded at the front of decodable fields comes first in the decoded message |
| Protobuf.LenBytesReadsBack | lib/pf2/reporter/pprof.rb:71-79 | `string` and `submessage` append one LEN field holding the bytes, which reads back as itself |
| Protobuf.Int32ReadsBack | lib/pf2/reporter/pprof.rb:53-56 | `int32` writes the 32-bit two's complement of every in-range value as a VARINT field, and that complement reads back as the value |
| Protobuf.Int64ReadsBack | lib/pf2/reporter/pprof.rb:58-61 | `int64` writes the 64-bit two's complement of every in-range value as a VARINT field, and that complement reads back as the value |
| Protobuf.UnsignedAndBoolReadBack | lib/pf2/reporter/pprof.rb:63-69 | `uint64` writes a non-negative value as it is, and `bool` writes 1 or 0 |
| Protobuf.Int32MinusOne | lib/pf2/reporter/pprof.rb:53-56 | `int32` of -1 writes five payload bytes, not the ten bytes of a sign-extended 64-bit varint |
| Protobuf.MaskedMinusOneBytes | lib/pf2/reporter/pprof.rb:25-33 | the varint of 0xFFFFFFFF is the five bytes 0xFF 0xFF 0xFF 0xFF 0x0F |
| CamelCase.Upcase | lib/pf2/reporter/firefox_profiler.rb:363 | an ASCII lower-case letter becomes the upper-case letter that lower-cases back to it; any other character is kept |
| CamelCase.Downcase | lib/pf2/reporter/firefox_profiler.rb:363 | an ASCII upper-case letter becomes a lower-case letter; any other character is kept |
| CamelCase.Capitalize | lib/pf2/reporter/firefox_profiler.rb:363 | `capitalize` keeps the length, upper-cases the first character and lower-cases every other one |
| CamelCase.Fields | lib/pf2/reporter/firefox_profiler.rb:363 | the pieces between underscores contain no underscore, and there is at least one |
| CamelCase.TrimTrailingEmpty | lib/pf2/reporter/firefox_profiler.rb:363 | `split` drops exactly the empty pieces at the end, keeping the others as a prefix |
| CamelCase.SnakeToCamel | lib/pf2/reporter/firefox_profiler.rb:359-364 | the three fixed names get their fixed spellings, and a name without underscores is kept |
| CamelCase.NoUnderscoreSplit | lib/pf2/reporter/firefox_profiler.rb:363 | a string without underscores splits into itself, or into nothing when it is empty |
| CamelCase.FieldsOfJoin | lib/pf2/reporter/firefox_profiler.rb:363 | splitting a piece joined by an underscore to a rest gives the piece followed by the rest's pieces |
| CamelCase.SplitJoinSnake | lib/pf2/reporter/firefox_profiler.rb:363 | splitting the underscore join of snake_case pieces gives the pieces back |
| CamelCase.CamelToSnakeAppend | lib/pf2/reporter/firefox_profiler.rb:363 | putting underscores back before capitals works piece by piece over a concatenation |
| CamelCase.CapitalizedWordBack | lib/pf2/reporter/firefox_profiler.rb:363 | a capitalized lower-case word spells back as an underscore followed by the word |
| CamelCase.SnakeToCamelOfPieces | lib/pf2/reporter/firefox_profiler.rb:359-364 | a snake_case name other than the fixed three camelizes to its first piece followed by every later piece capitalized |
| CamelCase.SnakeToCamelRoundTrip | lib/pf2/reporter/firefox_profiler.rb:359-364 | for a snake_case name other than the fixed three, the camelized name has no underscore and putting underscores back before the capitals recovers the name |
| CamelCase.Store | lib/pf2/reporter/firefox_profiler.rb:371 | `Hash[...]` storing a new key appends it, and storing a known key keeps the number of entries |
| CamelCase.HashFromDistinctPairs | lib/pf2/reporter/firefox_profiler.rb:371 | pairs with distinct keys make a hash of exactly those pairs, in order |
| CamelCase.HashFromPairsLength | lib/pf2/reporter/firefox_profiler.rb:371 | a hash built from pairs never has more entries than pairs |
| CamelCase.DeepTransformKeys | lib/pf2/reporter/firefox_profiler.rb:366-375 | scalars are kept, arrays keep their length, and hashes stay hashes with at most as many entries |
| CamelCase.TransformRoundTrip | lib/pf2/reporter/firefox_profiler.rb:366-375 | rewriting the keys with a function and then with its left inverse gives the value back: the rewrite changes keys and nothing else |
| CamelCase.TransformHashRoundTrip | lib/pf2/reporter/firefox_profiler.rb:370-371 | the hash case of the round trip, given it for every value of the hash |
| CamelCase.StoreKeys | lib/pf2/reporter.rb:359 | storing a key adds no key other than the one stored |
| CamelCase.StoreSymbolKeys | lib/pf2/reporter.rb:359 | storing a symbol key into a hash whose keys are all symbols keeps every key a symbol |
| CamelCase.HashFromPairsKeys | lib/pf2/reporter.rb:359 | every key of `Hash[pairs]` is the key of one of the pairs |
| CamelCase.HashFromPairsSymbolKeys | lib/pf2/reporter.rb:359 | pairs whose keys are all symbols make a hash whose keys are all symbols |
| CamelCase.CamelizedKeysAreSymbols | lib/pf2/reporter.rb:355-364 | the shared reporter helper turns a hash into a hash whose every key is a symbol, namely the camelCase spelling of some original key's `to_s` |
| CamelCase.DigitsCanonical | lib/pf2/reporter/firefox_profiler.rb:385 | the decimal digits of a natural number have no leading zero and read back as the number |
| CamelCase.CanonicalDigits | lib/pf2/reporter/firefox_profiler.rb:385 | a canonical digit string is the digits of the number it denotes |
| CamelCase.ParseDecimalWritten | lib/pf2/reporter/firefox_profiler.rb:385 | a string that passes the `to_i.to_s` test is how its integer prints |
| CamelCase.ParseDecimalReads | lib/pf2/reporter/firefox_profiler.rb:385 | how an integer prints passes the test and reads back as that integer |
| CamelCase.ParseDecimalIff | lib/pf2/reporter/firefox_profiler.rb:385 | a string passes the `to_i.to_s` test with integer n exactly when it is how n prints |
| CamelCase.IntizeKey | lib/pf2/reporter/firefox_profiler.rb:383-391 | a key is either kept or replaced by an integer that prints the same way |
| CamelCase.IntizeKeyIff | lib/pf2/reporter/firefox_profiler.rb:383-391 | a key becomes the integer n exactly when it prints as n does |
| StackTree.TreeToPathsSound | lib/pf2/reporter/firefox_profiler.rb:275-284 | every collected path is the path passed in followed by a path from the node to a leaf, and there are as many paths as leaves |
| StackTree.ChildrenToPathsSound | lib/pf2/reporter/firefox_profiler.rb:280-282 | the paths collected below siblings number their leaves, and each runs through one of them |
| StackTree.TreeToPathsComplete | lib/pf2/reporter/firefox_profiler.rb:275-284 | every path from the node to a leaf is collected |
| StackTree.ChildrenToPathsComplete | lib/pf2/reporter/firefox_profiler.rb:280-282 | every leaf path below one of the siblings is collected |
| StackTree.OnePathPerLeaf | lib/pf2/reporter/firefox_profiler.rb:275-284 | `tree_to_array_of_paths` yields one path per leaf, and the collected paths are exactly the root-to-leaf paths |
| StackTree.ChildWithFrame | lib/pf2/reporter/firefox_profiler.rb:293 | `children[frame_id]` finds the first child with the frame id, and finds none exactly when no child has it |
| StackTree.InsertPath | lib/pf2/reporter/firefox_profiler.rb:289-295 | inserting one path keeps the node's own node id and frame id |
| StackTree.ArrayOfPathsToTree | lib/pf2/reporter/firefox_profiler.rb:286-298 | rebuilding succeeds exactly when no path is empty (`path[1..]` of an empty path is `nil`), under a root with node id and frame id 0 |
| StackTree.InsertStepsAppend | lib/pf2/reporter/firefox_profiler.rb:288-296 | inserting two lists of paths is inserting one after the other |
| StackTree.PrefixAll | lib/pf2/reporter/firefox_profiler.rb:276 | each path gains the same prefix |
| StackTree.TreeToPathsBehind | lib/pf2/reporter/firefox_profiler.rb:276 | the paths collected behind a longer path are the short-path ones with the extra prefix |
| StackTree.InsertIntoChild | lib/pf2/reporter/firefox_profiler.rb:293-294 | paths that start with the frame of an existing child are inserted into that child, which keeps its node id |
| StackTree.InsertNewChild | lib/pf2/reporter/firefox_profiler.rb:293-294 | paths that start with a frame no child has add one last child holding them |
| StackTree.InsertLeaf | lib/pf2/reporter/firefox_profiler.rb:293 | a leaf whose frame no child has is added as a new last child |
| StackTree.RebuildSubtree | lib/pf2/reporter/firefox_profiler.rb:286-298 | the paths of a well-formed subtree, inserted under a node without its frame, rebuild the subtree as a new last child |
| StackTree.RebuildChildren | lib/pf2/reporter/firefox_profiler.rb:286-298 | the paths of well-formed siblings with distinct new frames rebuild them, in order |
| StackTree.PathsOfInnerNode | lib/pf2/reporter/firefox_profiler.rb:275-284 | every collected path is non-empty, and an inner node's paths are its step in front of its children's paths |
| StackTree.PathsToTreeRoundTrip | lib/pf2/reporter/firefox_profiler.rb:271-298 | `array_of_paths_to_tree` undoes `tree_to_array_of_paths`: a well-formed tree's children are rebuilt under a fresh root with ids 0 |
| StackTree.Enqueue | lib/pf2/reporter/firefox_profiler.rb:310 | every child is queued, in order, with the given prefix |
| StackTree.EnqueueSize | lib/pf2/reporter/firefox_profiler.rb:326 | queuing children queues all the nodes below them |
| StackTree.Bfs | lib/pf2/reporter/firefox_profiler.rb:312-327 | the walk gives one row per node queued or below a queued node, after the rows already made |
| StackTree.StackVisits | lib/pf2/reporter/firefox_profiler.rb:308-331 | `build_stack_table` gives every node below the root one row |
| StackTree.BfsLinked | lib/pf2/reporter/firefox_profiler.rb:312-327 | the walk keeps every row's prefix equal to an earlier row of its parent node |
| StackTree.StackVisitsLinked | lib/pf2/reporter/firefox_profiler.rb:308-331 | every row's prefix is the row of its parent node and comes before it; the root's children have no prefix |
| StackTree.BfsIds | lib/pf2/reporter/firefox_profiler.rb:312-327 | the walk makes a row for every node id queued, once per occurrence |
| StackTree.StackVisitsCover | lib/pf2/reporter/firefox_profiler.rb:308-331 | the rows are exactly the nodes below the root, each node id as often as in the tree |
| StackTree.LastIndex | lib/pf2/reporter/firefox_profiler.rb:165 | `map[key] = index` for every index maps each key to the last index holding it |
| StackTree.RowOfNodeIsOwnRow | lib/pf2/reporter/firefox_profiler.rb:323 | with distinct node ids below the root, each node id maps to its own node's row |
| StackTree.BuildSamples | lib/pf2/reporter/firefox_profiler.rb:116-135 | each sample gets the row of its node, or `nil` when no row has it, its time in whole milliseconds, duration 1 and event delay 0 |
| StackTree.SampleFindsItsNode | lib/pf2/reporter/firefox_profiler.rb:116-135 | a sample whose node is below the root points at a row of that very node |
| StringTable.Lookup | lib/pf2/reporter/firefox_profiler.rb:338 | a string has an id exactly when it is among the table's keys, and the id is the one stored with it |
| StringTable.StringId | lib/pf2/reporter/firefox_profiler.rb:337-341 | a known string keeps the table and its id; an unknown one is appended with the table's length as id; either way the id names the string |
| StringTable.SortInterned | lib/pf2/reporter/firefox_profiler.rb:333-335 | sorting a table whose ids are its positions leaves it unchanged |
| StringTable.StringIdInStringTable | lib/pf2/reporter/firefox_profiler.rb:333-341 | `build_string_table` lists every interned string at its id, and nothing else |
| StringTable.StringIdIdempotent | lib/pf2/reporter/firefox_profiler.rb:338 | asking again for a string changes nothing and gives the same id |
| StringTable.InternAll | lib/pf2/reporter/firefox_profiler.rb:337-341 | interning a list keeps old ids and gives each string an id that names it |
| StringTable.InternAllConsistent | lib/pf2/reporter/firefox_profiler.rb:333-341 | from an empty table, each string's id reads back the string, and two ids are equal exactly when their strings are |
| FirefoxProfiler.Label | lib/pf2/reporter/firefox_profiler.rb:184-185 | a native frame's name starts with `Native:`; any other frame's name is its full label |
| FirefoxProfiler.ResolvesInExtension | lib/pf2/reporter/firefox_profiler.rb:186-190 | a function row keeps pointing at its strings as the table grows |
| FirefoxProfiler.FuncRowOf | lib/pf2/reporter/firefox_profiler.rb:183-195 | one frame's row points, through the grown table, at its name and file name |
| FirefoxProfiler.FuncTable | lib/pf2/reporter/firefox_profiler.rb:172-199 | `build_func_table` has one row per frame and only adds strings to the table |
| FirefoxProfiler.FuncTableResolves | lib/pf2/reporter/firefox_profiler.rb:172-199 | every function row reads back, through the final string table, its frame's name and file name |
| FirefoxProfiler.FrameTable | lib/pf2/reporter/firefox_profiler.rb:152-166 | `build_frame_table` has one row per frame, and row `i` names function `i` |
| FirefoxProfiler.Category | lib/pf2/reporter/firefox_profiler.rb:317 | when the lookup chain does not raise, the category is 1 or 2 |
| FirefoxProfiler.StackRows | lib/pf2/reporter/firefox_profiler.rb:312-327 | the rows are built exactly when every visited node's category lookup succeeds; then there is one per visit with the visit's prefix |
| FirefoxProfiler.Lookup | lib/pf2/reporter/firefox_profiler.rb:316 | `@frame_id_map[id]` is `nil` exactly when the id is missing, and the mapped index otherwise |
| FirefoxProfiler.CategoryOfFrameId | lib/pf2/reporter/firefox_profiler.rb:152-199 | through the tables built from the frames, a frame id's category is found exactly when the frames hash has the id, and is 2 exactly when that frame's name starts with `Native:` |
| FirefoxProfiler.CategoryFound | lib/pf2/reporter/firefox_profiler.rb:317 | a lookup chain whose every step exists yields 2 for a `Native:` name and 1 otherwise |
| FirefoxProfiler.StackTableCategories | lib/pf2/reporter/firefox_profiler.rb:300-331 | `build_stack_table` succeeds exactly when every node's frame id is in the frames hash; then each row points at the last frame with that id, keeps its node's prefix and has that frame's category |
| FirefoxProfiler.StackRowAt | lib/pf2/reporter/firefox_profiler.rb:315-319 | row `i` of a built stack table is made from visit `i` |
| FirefoxProfiler.NativeFramesAreCategoryTwo | lib/pf2/reporter/firefox_profiler.rb:184-185 | a native frame is always category 2; a Ruby frame is category 2 only if its own label starts with `Native:` |
| LegacyReporter.Pairs | lib/pf2/reporter.rb:283-299 | the slice loop finishes exactly when the middle has an even length (an odd last slice raises on `nil[:type]`); every marker it adds is named `Acquired GVL` in the grown table |
| LegacyReporter.Markers | lib/pf2/reporter.rb:271-303 | two timings or fewer give no markers and leave the table alone; `markers` raises exactly when there are more than two timings and an odd number of them |
| LegacyReporter.Reported | lib/pf2/reporter.rb:283-287 | every reported pair number lies in the range walked |
| LegacyReporter.ReportedExactly | lib/pf2/reporter.rb:284 | a pair is reported exactly when it is a `:resumed` timing followed by a `:waiting` one |
| LegacyReporter.ReportedIncreasing | lib/pf2/reporter.rb:283 | pairs are reported in the order of the timings |
| LegacyReporter.PairsStep | lib/pf2/reporter.rb:283-299 | one slice contributes its marker, if the pair matches, before the markers of the later slices |
| LegacyReporter.MarkersOfPairsCons | lib/pf2/reporter.rb:289-298 | a matching pair's marker put in front of the later markers describes the pair followed by the later reported pairs |
| LegacyReporter.PairsAreReported | lib/pf2/reporter.rb:283-299 | the markers are exactly the matching pairs, in order, each with the pair's first time (in ms) as time and start and its second time as end |
| LegacyReporter.MarkersAreReported | lib/pf2/reporter.rb:271-303 | a completed `markers` reports exactly the `:resumed`/`:waiting` pairs among the timings without the first and the last |
| LegacyReporter.Labels | lib/pf2/reporter.rb:212-213 | the full labels in the order of the frames hash |
| LegacyReporter.Emit | lib/pf2/reporter.rb:107-145 | `emit` raises exactly when `markers` does: more than two GVL timings and an odd number of them |
| LegacyReporter.EmitStrings | lib/pf2/reporter.rb:201-269 | in an emitted report every function name reads back its frame's full label and every marker name reads back `Acquired GVL` from the string array |
| LegacyReporter.EmitStackTable | lib/pf2/reporter.rb:147-259 | the stack table has one row of category 1 per node below the root, each prefix is the row of the parent node, and there is one sample row per sample |
| FirefoxProfilerSer2.SamplesOf | lib/pf2/reporter/firefox_profiler_ser2.rb:19 | a thread's samples are samples of the profile, all of that thread |
| FirefoxProfilerSer2.AddToGroup | lib/pf2/reporter/firefox_profiler_ser2.rb:19 | a sample joins an existing group or opens exactly one new one |
| FirefoxProfilerSer2.AddToGroupCases | lib/pf2/reporter/firefox_profiler_ser2.rb:19 | a sample either opens a group at the end for a thread not seen before, or joins the one group of its thread and changes nothing else |
| FirefoxProfilerSer2.JoinKeepsGrouped | lib/pf2/reporter/firefox_profiler_ser2.rb:19 | a sample joining its thread's group keeps every group exactly its thread's samples |
| FirefoxProfilerSer2.OpenKeepsGrouped | lib/pf2/reporter/firefox_profiler_ser2.rb:19 | a sample of a new thread opening a group keeps the grouping exact |
| FirefoxProfilerSer2.GroupByThreadPartitions | lib/pf2/reporter/firefox_profiler_ser2.rb:19-22 | `group_by` gives distinct threads, exactly the threads that have samples, each group exactly its thread's samples in profile order |
| FirefoxProfilerSer2.DescribesInExtension | lib/pf2/reporter/firefox_profiler_ser2.rb:200-204 | a function row keeps describing its function as the string table grows |
| FirefoxProfilerSer2.FuncRowOf | lib/pf2/reporter/firefox_profiler_ser2.rb:197-207 | one function's row names its name and file name through the grown table, `is_js` for Ruby functions |
| FirefoxProfilerSer2.FuncTable | lib/pf2/reporter/firefox_profiler_ser2.rb:186-211 | `build_func_table` has one row per function and only adds strings |
| FirefoxProfilerSer2.FuncTableDescribes | lib/pf2/reporter/firefox_profiler_ser2.rb:186-211 | every function row describes its function through the final string table |
| FirefoxProfilerSer2.FrameTable | lib/pf2/reporter/firefox_profiler_ser2.rb:153-184 | `build_frame_table` has one row per location with its function index, line and address |
| FirefoxProfilerSer2.CategoryOf | lib/pf2/reporter/firefox_profiler_ser2.rb:34-55 | the category a stack row should get names its function's implementation in the report's category list: "Ruby" for Ruby functions, "Native" otherwise; it is 3 minus the category written, so a corrected stack table differs from the built one only by swapping 1 and 2 in the category column |
| FirefoxProfilerSer2.CategoryAsWritten | lib/pf2/reporter/firefox_profiler_ser2.rb:239 | the category written is an index into the report's category list |
| FirefoxProfilerSer2.CategoryAsWrittenSwapsNames | lib/pf2/reporter/firefox_profiler_ser2.rb:239 | as written, a Ruby function's rows are filed under "Native" and a native function's under "Ruby" |
| FirefoxProfilerSer2.RootFirst | lib/pf2/reporter/firefox_profiler_ser2.rb:224 | the stack reversed: the outermost location first |
| FirefoxProfilerSer2.Visit | lib/pf2/reporter/firefox_profiler_ser2.rb:228-244 | a step down the trie succeeds exactly when the path is known, or its location and that location's function exist (`nil[...]` raises otherwise) |
| FirefoxProfilerSer2.VisitFilesUnderOtherCategory | lib/pf2/reporter/firefox_profiler_ser2.rb:230-241 | a new stack row carries the category line 239 writes, which names the other implementation: "Native" for a Ruby function, "Ruby" for a native one |
| FirefoxProfilerSer2.RubyOnlyRowIsCategoryTwo | lib/pf2/reporter/firefox_profiler_ser2.rb:230-241 | a profile whose one sample runs one Ruby function gets a single stack row, with category 2 and no prefix |
| FirefoxProfilerSer2.EntryKept | lib/pf2/reporter/firefox_profiler_ser2.rb:230 | a registered path keeps its row as the trie grows |
| FirefoxProfilerSer2.EntriesAfterInsert | lib/pf2/reporter/firefox_profiler_ser2.rb:230-241 | the new path gets the next row, naming its location's function, that function's category as line 239 writes it (2 for Ruby, 1 otherwise) and the parent's row as prefix; old paths keep theirs |
| FirefoxProfilerSer2.VisitValid | lib/pf2/reporter/firefox_profiler_ser2.rb:228-244 | a step keeps the trie valid, only adds to it, and registers the path under the id it returns |
| FirefoxProfilerSer2.WalkStep | lib/pf2/reporter/firefox_profiler_ser2.rb:228-244 | one step of the walk succeeds exactly when that location resolves, and then continues from the visited row |
| FirefoxProfilerSer2.WalkKeeps | lib/pf2/reporter/firefox_profiler_ser2.rb:227-245 | a completed walk over one stack keeps the trie valid and registers every prefix of the stack |
| FirefoxProfilerSer2.WalkSucceeds | lib/pf2/reporter/firefox_profiler_ser2.rb:227-245 | the walk over one stack succeeds exactly when every location from that depth on resolves |
| FirefoxProfilerSer2.AddSamplesKeeps | lib/pf2/reporter/firefox_profiler_ser2.rb:221-246 | a completed loop over samples keeps the trie valid and registers every prefix of every sample's root-first stack |
| FirefoxProfilerSer2.AddSamplesSucceeds | lib/pf2/reporter/firefox_profiler_ser2.rb:221-246 | the loop over samples succeeds exactly when all their locations resolve |
| FirefoxProfilerSer2.StackTableSound | lib/pf2/reporter/firefox_profiler_ser2.rb:213-250 | `build_stack_table` succeeds exactly when every location of every sample resolves; then every prefix of every root-first stack has its own row, whose frame is the prefix's last function and whose prefix is the row of the prefix one shorter |
| FirefoxProfilerSer2.BuildSamples | lib/pf2/reporter/firefox_profiler_ser2.rb:129-151 | one entry per sample: the time is `elapsed_ns` in whole milliseconds rounded down, the duration 100 and the event delay 0 |
| FirefoxProfilerSer2.EmitThreads | lib/pf2/reporter/firefox_profiler_ser2.rb:20-22 | one thread report per group |
| FirefoxProfilerSer2.EmitThreadsAll | lib/pf2/reporter/firefox_profiler_ser2.rb:20-22 | with at least one group the reports succeed exactly when the shared stack table does, and report `i` is group `i`'s |
| FirefoxProfilerSer2.SampleLeafRow | lib/pf2/reporter/firefox_profiler_ser2.rb:140-143 | `dig` along a registered root-first stack finds the row of the sample's innermost location |
| FirefoxProfilerSer2.EmitSucceeds | lib/pf2/reporter/firefox_profiler_ser2.rb:18-63 | `emit` succeeds exactly when every location of every sample resolves; a profile without samples gives no thread reports |
| FirefoxProfilerSer2.FuncTableNames | lib/pf2/reporter/firefox_profiler_ser2.rb:186-254 | every function row reads back its function's name and file name from the string array, and `is_js` is set exactly for Ruby functions |
| FirefoxProfilerSer2.DescribedRowsName | lib/pf2/reporter/firefox_profiler_ser2.rb:252-254 | rows that describe their functions through an interned table name them through its string array |
| FirefoxProfilerSer2.SamplesLeafRows | lib/pf2/reporter/firefox_profiler_ser2.rb:139-147 | every sample of the profile gets the row of its innermost location in the stack column |
| FirefoxProfilerSer2.EmitThreadReport | lib/pf2/reporter/firefox_profiler_ser2.rb:82-127 | a thread's report succeeds once the stack table does, and holds its tables, string array and samples |
| FirefoxProfilerSer2.EmitReports | lib/pf2/reporter/firefox_profiler_ser2.rb:18-127 | a completed report has one thread report per thread in first-appearance order, each with exactly that thread's samples pointing at their leaf rows, over the stack table of the whole profile |
| Annotate.Find | lib/pf2/reporter/annotate.rb:68-90 | the position found for a key is its last entry, and none is found exactly when no entry has the key |
| Annotate.FindSameKeys | lib/pf2/reporter/annotate.rb:68-69 | finding a key depends on the keys only, not on the counts stored |
| Annotate.LookupPut | lib/pf2/reporter/annotate.rb:68-90 | after `h[k] = v` the key `k` reads `v` and every other key reads as before |
| Annotate.AddTotalCounts | lib/pf2/reporter/annotate.rb:68-69 | one total hit adds the weight to that location's total only, and makes it present |
| Annotate.AddTotalsCounts | lib/pf2/reporter/annotate.rb:67-70 | over one stack every location gains the weight once per occurrence, and every location on it is present afterwards |
| Annotate.TallySampleCounts | lib/pf2/reporter/annotate.rb:64-75 | one sample is tallied exactly when its stack is not empty (`nil.self` raises otherwise); then its weight (`count`, else 1) goes to its leaf's self count and to every occurrence's total |
| Annotate.TallySucceeds | lib/pf2/reporter/annotate.rb:61-75 | the tally succeeds exactly when no sample has an empty stack |
| Annotate.TallyCounts | lib/pf2/reporter/annotate.rb:61-75 | when it succeeds, every location's total is its weighted number of occurrences on all stacks and its self count the weight of the samples it is the leaf of |
| Annotate.SelfWithinTotal | lib/pf2/reporter/annotate.rb:64-75 | with weights that are never negative, a location's self hits lie between 0 and its total hits |
| Annotate.SelfHitsSumToWeight | lib/pf2/reporter/annotate.rb:72-74 | the self hits of all locations add up to the weight of all samples |
| Annotate.SampleSelfSum | lib/pf2/reporter/annotate.rb:64-75 | one sample adds its weight to the sum of self hits |
| Annotate.AddSelfSum | lib/pf2/reporter/annotate.rb:73-74 | filing a self hit adds its weight to the sum of self hits |
| Annotate.SumSelfPut | lib/pf2/reporter/annotate.rb:68 | storing a hit count under a key trades that key's self hits for the new ones |
| Annotate.AddTotalsSelf | lib/pf2/reporter/annotate.rb:67-70 | adding total hits leaves the sum of self hits alone |
| Annotate.FileEntry | lib/pf2/reporter/annotate.rb:79-91 | one location is filed exactly when it and its function exist (`nil[...]` raises otherwise) |
| Annotate.FileHitsSucceed | lib/pf2/reporter/annotate.rb:77-93 | filing succeeds exactly when every tallied location and its function exist |
| Annotate.FileHitsShowLast | lib/pf2/reporter/annotate.rb:77-93 | then each file and line shows the hits of the last location filed there, nothing where none is, and functions without a file name are skipped |
| Annotate.ShowLastStep | lib/pf2/reporter/annotate.rb:89-90 | filing one more location keeps every file and line showing the last location filed there |
| Annotate.FileEntryShown | lib/pf2/reporter/annotate.rb:89-90 | filing one location changes only what its own file and line show |
| Annotate.IgnorablePath | lib/pf2/reporter/annotate.rb:96-99 | an ignorable path starts with `<` and is at least ten characters long |
| Annotate.InternalPathsIgnorable | lib/pf2/reporter/annotate.rb:96-99 | every `<internal:...>` path is ignorable and no absolute path is |
| CConfiguration.ReadsFields | ext/pf2/configuration.c:11-25 | a hash whose four options hold a configuration's values, within their ranges, reads back as that configuration |
| Pf2Ringbuffer.Commit | ext/pf2/ringbuffer.c:96-99 | commit publishes the tail it is given and leaves the head, the capacity and the slots alone |
| IndexedMaps.FunctionKeyBuild | ext/pf2/indexed_maps.h:74-86 | the key copies every field of the function and carries the hashes of its name and file name |
| Pf2Session.FindFrom | ext/pf2/session.c:444-460 | the loop stops at the first index holding the same thread and Ruby stack, and finds none exactly when no later sample matches |
| PrototypeSerializer.IndexFrame | ext/pf2c/serializer.c:93-100 | one frame yields a location standing for its function at its line, and the tables only grow |
| ProfileSerializer2.IndexFrame | ext/pf2/src/serialization/serializer.rs:47-53 | one frame yields a location at its line whose function is the one extracted from the frame, and the tables only grow |
| SampleCapture.Stored | ext/pf2/sample.c:89-92 | a walk stores no more frames than are delivered nor more than the limit, and stops short only at the limit |
| Pf2Serializer.OwnedBlocks | ext/pf2/serializer.c:41-62 | the owned blocks are freed in the order each sample's two stacks, the sample array, each function's two strings, the function array, the location array |
| RubyValue.ToS | ext/pf2/configuration.c:58-59 | `rb_obj_as_string` gives a symbol's name, a string itself, `nil` the empty string, and an array or hash its `inspect` form, so the error message shows the contents |
| RubyValue.Inspect | ext/pf2/configuration.c:58-59 | a string option value inside an array or hash is shown quoted and escaped; arrays are shown in brackets and hashes in braces |
| RubyValue.EscapeRoundTrip | ext/pf2/configuration.c:58-59 | the escaped form of a string in the message loses no character: reading the escapes back gives the string |

## Left out

**Runtime machinery, by design of the model:**

- Concurrency: signals, POSIX timers, postponed jobs, the flusher and
  collector threads, `RwLock` and atomic memory orderings. The queues are
  sequential, and contention drops are boolean inputs.
- The driver files `ext/pf2c/session.c`, `timer_collector.rs`,
  `sample_collector.rs`, `signal_scheduler.rs` and
  `timer_thread_scheduler.rs` are not part of this model.
  `ext/pf2c/session.c` is only cited for the clocks it stamps.
- Ruby C-API and TypedData glue: allocation, `dsize`, GC marking
  (`dmark`) and `rb_hash_aset` plumbing. Serializer output is an abstract
  value tree.
- Clock reads (`clock_gettime`, `Instant::now`): timestamps are inputs.
- libbacktrace symbolisation and stack walking: program-counter lookup is
  a function parameter, and the walk is the sequence of program counters
  it delivers.
- Hash-table internals (khashl) and Rust's `DefaultHasher` in
  `calculate_id_for_c_frame`. The tables are maps, the khashl integer
  hashes are a parameter, and the C-frame hash is a function parameter.
- `malloc`/`realloc`/`strdup`/`free`:
  - allocation failure is a boolean input where the source checks it;
  - `realloc` in `ext/pf2c/serializer.c` is taken to succeed, as the
    source never checks it;
  - freeing is the list of blocks released.
- Encoding of strings: a C string is its bytes, with no UTF-8 decoding.
  Whether a symbol name or frame label is valid UTF-8 is an input of the
  Rust serializer. Ruby `capitalize` is modelled on ASCII letters only.
- JSON text rendering (`serde_json`, `JSON.generate`): the model stops at
  the profile value the text would render.
- `weave_native_stack` in `lib/pf2/reporter/firefox_profiler.rb`, which
  `FirefoxProfiler#emit` calls. The tables are built from the stack tree
  as given. `StackWeaver` models the standalone weaving algorithm.
- The `Pf2::Reporter::Pprof` reporter class. Only its `Protobuf` encoder
  is modelled.
- Printing and file access in `Annotate#annotate`: only the tallying,
  filing and `ignorable_path?` are modelled.
- The constant report metadata (`meta`, `libs`, the categories' colours
  and subcategories), the empty `markers` of the two newer Firefox
  reporters, `@func_id_map`, and the "not pair" `puts` of `reporter.rb`.
  None of these is read back by anything modelled.
- The scheduler objects that `RustSession` creates. Only the
  configuration, the watcher decision and the `running` flag are
  modelled.
- CLI, HTTP server, build scripts and the old hash-based prototypes
  (`ext/pf2/pf2.c`, `ext/pf2/ruby.c`).

**Contracts stated more weakly than the source's behaviour:**

- RubyValue.Inspect: hashes are written as `{k=>v}`, the form before
  Ruby 3.4, which writes `{k => v}` and `{name: v}` for symbol keys.
  `String#inspect` also escapes `#{`, control characters other than
  newline, tab and carriage return, and non-printable characters; the
  model writes them as they are, and writes every symbol as `:name`
  without the quotes Ruby adds to names that need them.
- Protobuf.Varint: the round trip is stated for non-negative values. A
  negative value emits its low byte alone, which is modelled but not
  given a decoder.
- ProfileSerializer.AddSample: the `i32` node counter is modelled as
  built with overflow checks, where passing `i32::MAX` panics. A build
  without them wraps the counter instead, and node ids repeat; that
  behaviour is not modelled.
- TimerInstaller.RegisterTimer: creating the timer (`timer_create`, `timer_settime`)
  is a description of the timer requested. Whether the system call
  succeeds is not modelled.

## Findings

| source | as written | input that shows it | evidently intended | confidence | as-written member | corrected member |
|---|---|---|---|---|---|---|
| ext/pf2/indexed_maps.h:56 | the FNV-1a offset basis is `1469598103934665603`, the reference basis `14695981039346656037` with its last digit dropped | the empty string hashes to `1469598103934665603` instead of `0xcbf29ce484222325`; "a" does not hash to `0xaf63dc4c8601ec8c` | 64-bit FNV-1a from the reference offset basis | not executed | IndexedMaps.HashCStr, IndexedMaps.SourceBasisIsNotFnv | IndexedMaps.Fnv1aCStr, IndexedMaps.FnvReferenceValues |
| ext/pf2c/serializer.c:75-87 | `start_timestamp_ns` is read from `CLOCK_REALTIME`, but samples are stamped with `CLOCK_MONOTONIC` (`ext/pf2c/session.c`), and `elapsed_ns` is their unsigned difference | realtime start 1000 s, monotonic start 0, a sample 1 s later: elapsed is about `1.6 * 10^19` ns instead of `10^9` | elapsed time measured on one clock, from the monotonic start | not executed | PrototypeSerializer.Prepare, PrototypeSerializer.ClockMixCounterexample | PrototypeSerializer.PrepareIntended, PrototypeSerializer.IntendedElapsedKeepsSpacing |
| lib/pf2/reporter/firefox_profiler_ser2.rb:239 | a stack row gets category 2 for a Ruby function and 1 otherwise, but the category list at lines 34-55 names index 1 "Ruby" and index 2 "Native" | any Ruby function: its stack rows are filed under "Native", and every native function's under "Ruby" | 1 for Ruby functions and 2 for native ones, as `firefox_profiler.rb` assigns by the `Native:` prefix | not executed | FirefoxProfilerSer2.CategoryAsWritten, FirefoxProfilerSer2.CategoryAsWrittenSwapsNames | FirefoxProfilerSer2.CategoryOf |

In all three rows the main model follows the code as written:
the hash of `IndexedMaps.FunctionKeyBuild` is `HashCStr`,
`PrototypeSerializer.Prepare` measures from the wall-clock start, and the
stack table of `FirefoxProfilerSer2` carries `CategoryAsWritten`. The
corrected members state the intended behaviour beside it.
