/** Keys of the khashl tables declared in `ext/pf2/session.h`: locations
    (frame, line), Ruby stacks (location ids), native stacks (program
    counters) and combined (Ruby stack id, native stack id) pairs, each with
    its hash and equality. Hashes are 32-bit (`khint_t`); the integer hashes
    `kh_hash_uint32`/`kh_hash_uint64` belong to khashl and are a parameter
    `kh` here. The model assumes a 64-bit `size_t`, so `hash_size_t` is
    `kh_hash_uint64`. */
module SessionKeys {

  /** khashl's integer hash of a 64-bit value. */
  type KhHash = bv64 -> bv32

  /** A C integer converted to a 64-bit unsigned value. */
  function Word(x: int): bv64 {
    (x % 0x1_0000_0000_0000_0000) as bv64
  }

  /** A C integer converted to `khint_t` (32-bit unsigned). */
  function Word32(x: int): bv32 {
    (x % 0x1_0000_0000) as bv32
  }

  /** The mixing step shared by all four hashes:
      `h ^= v + 0x9e3779b9 + (h << 6) + (h >> 2)` in 32-bit arithmetic. */
  function Fold(h: bv32, v: bv32): bv32 {
    h ^ (v + 0x9e3779b9 + (h << 6) + (h >> 2))
  }

  datatype LocationKey = LocationKey(cme: int, lineno: int)

  /** `hash_location_key`. */
  function HashLocationKey(k: LocationKey, kh: KhHash): bv32 {
    Fold(kh(Word(k.cme)), Word32(k.lineno))
  }

  /** `eq_location_key`: frame and line both equal, i.e. the keys are the
      same; equal keys hash equally. */
  function EqLocationKey(a: LocationKey, b: LocationKey): (eq: bool)
    ensures eq <==> a == b
    ensures forall kh: KhHash :: eq ==> HashLocationKey(a, kh) == HashLocationKey(b, kh)
  {
    a.cme == b.cme && a.lineno == b.lineno
  }

  /** `struct pf2_stack_key` and `struct pf2_native_stack_key`: the array the
      `frames` pointer points to, and the number of entries used. */
  datatype StackKey = StackKey(frames: seq<int>, depth: nat)

  predicate WellFormed(k: StackKey) {
    k.depth <= |k.frames|
  }

  /** The hash loop over entries `i..depth`. */
  function FoldFrom(h: bv32, frames: seq<int>, i: nat, depth: nat, kh: KhHash): bv32
    requires depth <= |frames|
    decreases depth - i
  {
    if i >= depth then h else FoldFrom(Fold(h, kh(Word(frames[i]))), frames, i + 1, depth, kh)
  }

  /** The comparison loop over entries `i..depth`: stop at the first
      difference. */
  function EqualFrom(a: seq<int>, b: seq<int>, i: nat, depth: nat): bool
    requires depth <= |a| && depth <= |b|
    decreases depth - i
  {
    if i >= depth then true
    else if a[i] != b[i] then false
    else EqualFrom(a, b, i + 1, depth)
  }

  /** The comparison loop succeeds iff the remaining entries agree. */
  lemma {:induction false} EqualFromIff(a: seq<int>, b: seq<int>, i: nat, depth: nat)
    requires i <= depth <= |a| && depth <= |b|
    ensures EqualFrom(a, b, i, depth) <==> a[i..depth] == b[i..depth]
    decreases depth - i
  {
    if i < depth {
      EqualFromIff(a, b, i + 1, depth);
      assert a[i..depth] == [a[i]] + a[i + 1..depth];
      assert b[i..depth] == [b[i]] + b[i + 1..depth];
    }
  }

  /** The hash loop reads only the entries it folds in. */
  lemma {:induction false} FoldFromReadsPrefix(h: bv32, a: seq<int>, b: seq<int>, i: nat, depth: nat, kh: KhHash)
    requires i <= depth <= |a| && depth <= |b|
    requires a[i..depth] == b[i..depth]
    ensures FoldFrom(h, a, i, depth, kh) == FoldFrom(h, b, i, depth, kh)
    decreases depth - i
  {
    if i < depth {
      assert a[i] == a[i..depth][0] == b[i..depth][0] == b[i];
      assert a[i + 1..depth] == a[i..depth][1..] == b[i..depth][1..] == b[i + 1..depth];
      FoldFromReadsPrefix(Fold(h, kh(Word(a[i]))), a, b, i + 1, depth, kh);
    }
  }

  /** `hash_stack_key`: fold the depth, then every location id. */
  function HashStackKey(k: StackKey, kh: KhHash): bv32
    requires WellFormed(k)
  {
    FoldFrom(kh(Word(k.depth)), k.frames, 0, k.depth, kh)
  }

  /** `eq_stack_key`: equal depths and elementwise identical frames. */
  function EqStackKey(a: StackKey, b: StackKey): (eq: bool)
    requires WellFormed(a) && WellFormed(b)
    ensures eq <==> a.depth == b.depth && a.frames[..a.depth] == b.frames[..b.depth]
  {
    if a.depth != b.depth then false
    else
      EqualFromIff(a.frames, b.frames, 0, a.depth);
      assert a.frames[0..a.depth] == a.frames[..a.depth];
      assert b.frames[0..a.depth] == b.frames[..a.depth];
      EqualFrom(a.frames, b.frames, 0, a.depth)
  }

  /** Equal Ruby-stack keys hash equally. */
  lemma StackKeyHashConsistent(a: StackKey, b: StackKey, kh: KhHash)
    requires WellFormed(a) && WellFormed(b)
    requires EqStackKey(a, b)
    ensures HashStackKey(a, kh) == HashStackKey(b, kh)
  {
    assert a.frames[0..a.depth] == a.frames[..a.depth];
    assert b.frames[0..b.depth] == b.frames[..b.depth];
    FoldFromReadsPrefix(kh(Word(a.depth)), a.frames, b.frames, 0, a.depth, kh);
  }

  /** `hash_native_stack_key`: the same fold over program counters, each
      hashed with `kh_hash_uint64` (which is `hash_size_t` on a 64-bit
      target). */
  function HashNativeStackKey(k: StackKey, kh: KhHash): bv32
    requires WellFormed(k)
  {
    FoldFrom(kh(Word(k.depth)), k.frames, 0, k.depth, kh)
  }

  /** `eq_native_stack_key`: equal depths and elementwise identical program
      counters. */
  function EqNativeStackKey(a: StackKey, b: StackKey): (eq: bool)
    requires WellFormed(a) && WellFormed(b)
    ensures eq <==> a.depth == b.depth && a.frames[..a.depth] == b.frames[..b.depth]
  {
    if a.depth != b.depth then false
    else
      EqualFromIff(a.frames, b.frames, 0, a.depth);
      assert a.frames[0..a.depth] == a.frames[..a.depth];
      assert b.frames[0..a.depth] == b.frames[..a.depth];
      EqualFrom(a.frames, b.frames, 0, a.depth)
  }

  /** Equal native-stack keys hash equally. */
  lemma NativeStackKeyHashConsistent(a: StackKey, b: StackKey, kh: KhHash)
    requires WellFormed(a) && WellFormed(b)
    requires EqNativeStackKey(a, b)
    ensures HashNativeStackKey(a, kh) == HashNativeStackKey(b, kh)
  {
    assert a.frames[0..a.depth] == a.frames[..a.depth];
    assert b.frames[0..b.depth] == b.frames[..b.depth];
    FoldFromReadsPrefix(kh(Word(a.depth)), a.frames, b.frames, 0, a.depth, kh);
  }

  datatype CombinedStackKey = CombinedStackKey(rubyStackId: nat, nativeStackId: nat)

  /** `hash_combined_stack_key`. */
  function HashCombinedStackKey(k: CombinedStackKey, kh: KhHash): bv32 {
    Fold(kh(Word(k.rubyStackId)), kh(Word(k.nativeStackId)))
  }

  /** `eq_combined_stack_key`: both ids equal, i.e. the keys are the same;
      equal keys hash equally. */
  function EqCombinedStackKey(a: CombinedStackKey, b: CombinedStackKey): (eq: bool)
    ensures eq <==> a == b
    ensures forall kh: KhHash :: eq ==> HashCombinedStackKey(a, kh) == HashCombinedStackKey(b, kh)
  {
    a.rubyStackId == b.rubyStackId && a.nativeStackId == b.nativeStackId
  }
}
