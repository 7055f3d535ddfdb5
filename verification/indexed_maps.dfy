/** Keys, hashes and key equality of the deduplication tables of the C
    extension (`ext/pf2/indexed_maps.h`). The tables themselves are hash maps
    from keys to indices; only the agreement between a key's hash and its
    equality matters for them, and that is what this module states.

    A C string is a pointer that is `NULL` (`None`) or points at bytes; its
    content is the bytes before the first NUL (`0`) byte, the end of the
    sequence counting as a terminator. */
module IndexedMaps {
  import opened Wrappers

  type CString = Option<seq<bv8>>

  /** `enum function_implementation` of the serializer. */
  datatype Implementation = Ruby | Native

  /** The numeric value of the enumerator (declaration order). */
  function ImplementationCode(i: Implementation): bv64 {
    match i
    case Ruby => 0
    case Native => 1
  }

  /** A C integer converted to `uint64_t`: its value modulo 2^64. */
  function Word(x: int): bv64 {
    (x % 0x1_0000_0000_0000_0000) as bv64
  }

  /** `(uint64_t)(uint32_t)x` for a 32-bit signed `x`. */
  function Word32(x: int): bv64 {
    (x % 0x1_0000_0000) as bv64
  }

  /** The MurmurHash3 `fmix64` finalizer, `pf2_hash_mix`. */
  function Mix(value: bv64): bv64 {
    var v1 := value ^ (value >> 33);
    var v2 := v1 * 0xff51afd7ed558ccd;
    var v3 := v2 ^ (v2 >> 33);
    var v4 := v3 * 0xc4ceb9fe1a85ec53;
    v4 ^ (v4 >> 33)
  }

  /** `pf2_hash_combine(seed, value)`: mix the exclusive or of both. */
  function Combine(seed: bv64, value: bv64): bv64 {
    Mix(seed ^ value)
  }

  /** The offset basis `pf2_hash_cstr` starts from. */
  const SourceOffsetBasis: bv64 := 1469598103934665603

  /** The 64-bit FNV offset basis and prime of the FNV reference
      (14695981039346656037 and 1099511628211). */
  const FnvOffsetBasis: bv64 := 0xcbf29ce484222325
  const FnvPrime: bv64 := 0x100000001b3

  /** One FNV-1a step: exclusive-or the byte in, multiply by the prime. */
  function FnvStep(hash: bv64, b: bv8): bv64 {
    (hash ^ (b as bv64)) * FnvPrime
  }

  /** The bytes of a C string before its first NUL. */
  function Content(bytes: seq<bv8>): (c: seq<bv8>)
    ensures |c| <= |bytes| && c == bytes[..|c|]
    ensures forall k :: 0 <= k < |c| ==> c[k] != 0
    ensures |c| < |bytes| ==> bytes[|c|] == 0
  {
    if bytes == [] || bytes[0] == 0 then [] else [bytes[0]] + Content(bytes[1..])
  }

  /** 64-bit FNV-1a over a byte sequence, starting from `hash`. */
  function Fnv1a(hash: bv64, bytes: seq<bv8>): bv64
    decreases |bytes|
  {
    if bytes == [] then hash else Fnv1a(FnvStep(hash, bytes[0]), bytes[1..])
  }

  /** The loop of `pf2_hash_cstr`: fold FNV-1a steps over the bytes until a
      NUL byte. */
  function HashUntilNul(hash: bv64, bytes: seq<bv8>): bv64
    decreases |bytes|
  {
    if bytes == [] || bytes[0] == 0 then hash
    else HashUntilNul(FnvStep(hash, bytes[0]), bytes[1..])
  }

  /** A NUL-terminated string hash in the shape of `pf2_hash_cstr`, starting
      from the given offset basis: 0 for `NULL`, otherwise FNV-1a steps over
      the string's content. */
  function HashCStrFrom(basis: bv64, s: CString): (h: bv64)
    ensures s.None? ==> h == 0
    ensures s.Some? ==> h == Fnv1a(basis, Content(s.value))
  {
    match s
    case None => 0
    case Some(bytes) =>
      HashUntilNulIsFnv(basis, bytes);
      HashUntilNul(basis, bytes)
  }

  /** `pf2_hash_cstr` as written, with the offset basis
      1469598103934665603. */
  function HashCStr(s: CString): (h: bv64)
    ensures s.None? ==> h == 0
    ensures s.Some? ==> h == Fnv1a(SourceOffsetBasis, Content(s.value))
  {
    HashCStrFrom(SourceOffsetBasis, s)
  }

  /** The string hash with the FNV-1a reference offset basis. */
  function Fnv1aCStr(s: CString): (h: bv64)
    ensures s.None? ==> h == 0
    ensures s.Some? ==> h == Fnv1a(FnvOffsetBasis, Content(s.value))
  {
    HashCStrFrom(FnvOffsetBasis, s)
  }

  /** The NUL-terminated loop computes FNV-1a of the string's content. */
  lemma {:induction false} HashUntilNulIsFnv(hash: bv64, bytes: seq<bv8>)
    ensures HashUntilNul(hash, bytes) == Fnv1a(hash, Content(bytes))
    decreases |bytes|
  {
    if bytes != [] && bytes[0] != 0 {
      HashUntilNulIsFnv(FnvStep(hash, bytes[0]), bytes[1..]);
      assert Content(bytes)[1..] == Content(bytes[1..]);
    }
  }

  /** Reference values of 64-bit FNV-1a: the empty string hashes to the
      offset basis 0xcbf29ce484222325 and "a" to 0xaf63dc4c8601ec8c; bytes
      after a NUL are not hashed. */
  lemma FnvReferenceValues()
    ensures Fnv1aCStr(Some([])) == 0xcbf29ce484222325
    ensures Fnv1aCStr(Some([0x61])) == 0xaf63dc4c8601ec8c
    ensures Fnv1aCStr(Some([0x61, 0, 0x62])) == Fnv1aCStr(Some([0x61]))
  {
    assert Content([]) == [];
    assert Content([0x61]) == [0x61];
    assert Content([0x61, 0, 0x62]) == [0x61];
  }

  /** The offset basis of `pf2_hash_cstr` is the reference basis
      14695981039346656037 with its last digit dropped, so the empty string
      and "a" do not hash to the reference FNV-1a values. */
  lemma SourceBasisIsNotFnv()
    ensures HashCStr(Some([])) == 1469598103934665603
    ensures HashCStr(Some([])) != Fnv1aCStr(Some([]))
    ensures HashCStr(Some([0x61])) != 0xaf63dc4c8601ec8c
  {
    assert Content([]) == [];
    assert Content([0x61]) == [0x61];
  }

  /** The byte at position `i`, reading past the end as NUL. */
  function ByteAt(s: seq<bv8>, i: nat): bv8 {
    if i < |s| then s[i] else 0
  }

  /** `strcmp(left, right) == 0`: compare byte by byte until a difference or
      a common NUL. */
  function StrcmpEqualFrom(left: seq<bv8>, right: seq<bv8>, i: nat): bool
    decreases |left| + |right| - i
  {
    if ByteAt(left, i) != ByteAt(right, i) then false
    else if ByteAt(left, i) == 0 then true
    else StrcmpEqualFrom(left, right, i + 1)
  }

  /** `strcmp` reports equality exactly when the contents agree. */
  lemma {:induction false} StrcmpEqualIffContent(left: seq<bv8>, right: seq<bv8>, i: nat)
    requires i <= |left| && i <= |right|
    ensures StrcmpEqualFrom(left, right, i) <==> Content(left[i..]) == Content(right[i..])
    decreases |left| + |right| - i
  {
    if ByteAt(left, i) != ByteAt(right, i) {
      if i < |left| && i < |right| {
        assert Content(left[i..]) == [] || Content(left[i..])[0] == left[i];
        assert Content(right[i..]) == [] || Content(right[i..])[0] == right[i];
      }
    } else if ByteAt(left, i) != 0 {
      StrcmpEqualIffContent(left, right, i + 1);
      assert left[i..][1..] == left[i + 1..];
      assert right[i..][1..] == right[i + 1..];
    }
  }

  /** `pf2_str_equal`: if either side is `NULL`, equal only if both are;
      otherwise `strcmp`. */
  function StrEqual(left: CString, right: CString): (eq: bool)
    ensures left.None? || right.None? ==> (eq <==> left.None? && right.None?)
    ensures left.Some? && right.Some? ==> (eq <==> Content(left.value) == Content(right.value))
  {
    if left.None? || right.None? then left.None? && right.None?
    else
      StrcmpEqualIffContent(left.value, right.value, 0);
      assert left.value[0..] == left.value && right.value[0..] == right.value;
      StrcmpEqualFrom(left.value, right.value, 0)
  }

  /** Two C strings denote the same value: both `NULL`, or the same
      content. */
  predicate SameString(left: CString, right: CString) {
    (left.None? && right.None?) || (left.Some? && right.Some? && Content(left.value) == Content(right.value))
  }

  /** `struct pf2_ser_function`, the record a function key is built from. */
  datatype SerFunction = SerFunction(
    implementation: Implementation,
    name: CString,
    filename: CString,
    startLineno: int,
    startAddress: nat)

  datatype FunctionKey = FunctionKey(
    implementation: Implementation,
    startLineno: int,
    startAddress: nat,
    nameHash: bv64,
    filenameHash: bv64,
    name: CString,
    filename: CString)

  /** `pf2_function_key_build`: copy the fields and hash both strings. */
  function FunctionKeyBuild(f: SerFunction): (k: FunctionKey)
    ensures k.nameHash == HashCStr(f.name) && k.filenameHash == HashCStr(f.filename)
    ensures k.implementation == f.implementation && k.startLineno == f.startLineno
    ensures k.startAddress == f.startAddress && k.name == f.name && k.filename == f.filename
  {
    FunctionKey(f.implementation, f.startLineno, f.startAddress, HashCStr(f.name), HashCStr(f.filename), f.name, f.filename)
  }

  /** `pf2_function_key_hash`: mix the implementation, then combine the line
      (as an unsigned 32-bit value), the address and both string hashes. */
  function FunctionKeyHash(k: FunctionKey): bv64 {
    var h0 := Mix(ImplementationCode(k.implementation));
    var h1 := Combine(h0, Word32(k.startLineno));
    var h2 := Combine(h1, Word(k.startAddress));
    var h3 := Combine(h2, k.nameHash);
    Combine(h3, k.filenameHash)
  }

  /** `pf2_function_key_equal`: implementation, line and address, then the
      two hashes, then the two strings. */
  function FunctionKeyEqual(left: FunctionKey, right: FunctionKey): bool {
    if left.implementation != right.implementation then false
    else if left.startLineno != right.startLineno || left.startAddress != right.startAddress then false
    else if left.nameHash != right.nameHash || left.filenameHash != right.filenameHash then false
    else StrEqual(left.name, right.name) && StrEqual(left.filename, right.filename)
  }

  /** For built keys, equality holds exactly when the two functions agree on
      implementation, start line, start address, name and filename (strings
      compared by content, `NULL` only equal to `NULL`). The hash comparison
      never rejects a pair whose strings agree. */
  lemma FunctionKeyEqualIff(f: SerFunction, g: SerFunction)
    ensures FunctionKeyEqual(FunctionKeyBuild(f), FunctionKeyBuild(g)) <==>
      && f.implementation == g.implementation
      && f.startLineno == g.startLineno
      && f.startAddress == g.startAddress
      && SameString(f.name, g.name)
      && SameString(f.filename, g.filename)
  {
  }

  /** For built keys, equal keys have equal hashes, so the map finds an
      existing function again. */
  lemma FunctionKeyHashConsistent(f: SerFunction, g: SerFunction)
    requires FunctionKeyEqual(FunctionKeyBuild(f), FunctionKeyBuild(g))
    ensures FunctionKeyHash(FunctionKeyBuild(f)) == FunctionKeyHash(FunctionKeyBuild(g))
  {
  }

  datatype LocationKey = LocationKey(functionIndex: nat, lineno: int, address: nat)

  /** `pf2_location_key_hash`. */
  function LocationKeyHash(k: LocationKey): bv64 {
    var h0 := Mix(Word(k.functionIndex));
    var h1 := Combine(h0, Word32(k.lineno));
    Combine(h1, Word(k.address))
  }

  /** `pf2_location_key_equal`: all three fields agree. Equal keys hash
      equally. */
  function LocationKeyEqual(left: LocationKey, right: LocationKey): (eq: bool)
    ensures eq <==> left == right
    ensures eq ==> LocationKeyHash(left) == LocationKeyHash(right)
  {
    left.functionIndex == right.functionIndex && left.lineno == right.lineno && left.address == right.address
  }

  /** `struct pf2_stack_key`: a thread, a pointer to the stack's location
      indices (the array it points to), the number of entries used, and the
      hash stored at construction. */
  datatype StackKey = StackKey(rubyThreadId: nat, stack: seq<nat>, stackCount: nat, hash: bv64)

  /** A key whose pointer covers `stack_count` entries. */
  predicate WellFormedStackKey(k: StackKey) {
    k.stackCount <= |k.stack|
  }

  /** The loop of `pf2_stack_hash` from entry `i` on. */
  function CombineFrom(hash: bv64, stack: seq<nat>, i: nat, count: nat): bv64
    requires count <= |stack|
    decreases count - i
  {
    if i >= count then hash else CombineFrom(Combine(hash, Word(stack[i])), stack, i + 1, count)
  }

  /** `pf2_stack_hash`: mix the thread, combine the count, then every
      entry. */
  function StackHash(stack: seq<nat>, count: nat, threadId: nat): bv64
    requires count <= |stack|
  {
    CombineFrom(Combine(Mix(Word(threadId)), Word(count)), stack, 0, count)
  }

  /** The hash loop reads only the entries before `count`. */
  lemma {:induction false} CombineFromReadsPrefix(hash: bv64, a: seq<nat>, b: seq<nat>, i: nat, count: nat)
    requires count <= |a| && count <= |b|
    requires a[..count] == b[..count]
    ensures CombineFrom(hash, a, i, count) == CombineFrom(hash, b, i, count)
    decreases count - i
  {
    if i < count {
      assert a[i] == a[..count][i] == b[..count][i] == b[i];
      CombineFromReadsPrefix(Combine(hash, Word(a[i])), a, b, i + 1, count);
    }
  }

  /** `pf2_stack_key_equal`: same thread, same count, and (only when the
      count is positive) the same entries. */
  function StackKeyEqual(left: StackKey, right: StackKey): bool
    requires WellFormedStackKey(left) && WellFormedStackKey(right)
  {
    if left.rubyThreadId != right.rubyThreadId then false
    else if left.stackCount != right.stackCount then false
    else if left.stackCount > 0 && left.stack[..left.stackCount] != right.stack[..left.stackCount] then false
    else true
  }

  /** Stack keys are equal iff thread, count and the first `count` entries
      agree; in particular two empty stacks of one thread are equal whatever
      their arrays hold. */
  lemma StackKeyEqualIff(left: StackKey, right: StackKey)
    requires WellFormedStackKey(left) && WellFormedStackKey(right)
    ensures StackKeyEqual(left, right) <==>
      && left.rubyThreadId == right.rubyThreadId
      && left.stackCount == right.stackCount
      && left.stack[..left.stackCount] == right.stack[..right.stackCount]
    ensures left.rubyThreadId == right.rubyThreadId && left.stackCount == 0 && right.stackCount == 0 ==>
      StackKeyEqual(left, right)
  {
  }

  /** `pf2_stack_key_hash` returns the stored hash; when both stored hashes
      came from `pf2_stack_hash`, equal keys hash equally. */
  lemma StackKeyHashConsistent(left: StackKey, right: StackKey)
    requires WellFormedStackKey(left) && WellFormedStackKey(right)
    requires left.hash == StackHash(left.stack, left.stackCount, left.rubyThreadId)
    requires right.hash == StackHash(right.stack, right.stackCount, right.rubyThreadId)
    requires StackKeyEqual(left, right)
    ensures left.hash == right.hash
  {
    CombineFromReadsPrefix(Combine(Mix(Word(left.rubyThreadId)), Word(left.stackCount)),
                           left.stack, right.stack, 0, left.stackCount);
  }
}
