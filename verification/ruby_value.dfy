/** Ruby objects as the serializers build them: `nil`, integers, symbols,
    strings, arrays and hashes, as an immutable value tree. A hash keeps its
    entries in insertion order. C strings become Ruby strings byte by byte
    (each byte is the character with that code). */
module RubyValue {
  import opened Wrappers

  datatype RValue =
    | Nil
    | Bool(b: bool)
    | Int(i: int)
    | Sym(name: string)
    | Str(s: string)
    | Array(items: seq<RValue>)
    | Hash(entries: seq<(RValue, RValue)>)

  /** `hash[key]`: the value of the first entry with that key, if any. */
  function Get(h: RValue, key: RValue): (r: Option<RValue>)
    ensures h.Hash? && r.Some? ==> exists i :: 0 <= i < |h.entries| && h.entries[i] == (key, r.value)
    ensures !h.Hash? ==> r.None?
  {
    if !h.Hash? then None else Lookup(h.entries, key)
  }

  /** The value of the first entry of `entries` whose key is `key`. */
  function Lookup(entries: seq<(RValue, RValue)>, key: RValue): (r: Option<RValue>)
    ensures r.Some? ==> exists i :: 0 <= i < |entries| && entries[i] == (key, r.value)
    ensures r.None? ==> forall i :: 0 <= i < |entries| ==> entries[i].0 != key
  {
    if |entries| == 0 then None
    else if entries[0].0 == key then Some(entries[0].1)
    else
      var r := Lookup(entries[1..], key);
      assert forall i :: 1 <= i < |entries| ==> entries[i] == entries[1..][i - 1];
      r
  }

  /** The first entry with a given key decides the lookup. */
  lemma {:induction false} LookupFirst(entries: seq<(RValue, RValue)>, key: RValue, i: nat)
    requires i < |entries| && entries[i].0 == key
    requires forall k :: 0 <= k < i ==> entries[k].0 != key
    ensures Lookup(entries, key) == Some(entries[i].1)
  {
    if i > 0 {
      LookupFirst(entries[1..], key, i - 1);
    }
  }

  /** `hash[:name]`. */
  function Field(h: RValue, name: string): Option<RValue> {
    Get(h, Sym(name))
  }

  /** No name occurs twice. */
  predicate DistinctNames(names: seq<string>) {
    forall a, b :: 0 <= a < b < |names| ==> names[a] != names[b]
  }

  /** A hash built by storing `values[i]` under the symbol `names[i]`, in
      order; with distinct names every field reads back its value. */
  function Record(names: seq<string>, values: seq<RValue>): (h: RValue)
    requires |names| == |values| && DistinctNames(names)
    ensures h.Hash? && |h.entries| == |names|
    ensures forall i :: 0 <= i < |names| ==> Field(h, names[i]) == Some(values[i])
  {
    var entries := seq(|names|, i requires 0 <= i < |names| => (Sym(names[i]), values[i]));
    forall i | 0 <= i < |names|
      ensures Lookup(entries, Sym(names[i])) == Some(values[i])
    {
      LookupFirst(entries, Sym(names[i]), i);
    }
    Hash(entries)
  }

  /** A Ruby array of integers. */
  function IntArray(xs: seq<int>): (v: RValue)
    ensures v.Array? && |v.items| == |xs|
    ensures forall i :: 0 <= i < |xs| ==> v.items[i] == Int(xs[i])
  {
    Array(seq(|xs|, i requires 0 <= i < |xs| => Int(xs[i])))
  }

  /** A Ruby array holding the image under `f` of each element, in order:
      the serializers' `rb_ary_new` and `rb_ary_push` loop over one table. */
  function ArrayOf<T>(xs: seq<T>, f: T -> RValue): (v: RValue)
    ensures v.Array? && |v.items| == |xs|
    ensures forall i :: 0 <= i < |xs| ==> v.items[i] == f(xs[i])
  {
    Array(seq(|xs|, i requires 0 <= i < |xs| => f(xs[i])))
  }

  /** Read a Ruby array of integers back; anything else is `None`. */
  function AsInts(v: RValue): Option<seq<int>> {
    if v.Array? then IntsOf(v.items) else None
  }

  /** The integers of a list of values, if every value is an integer. */
  function IntsOf(items: seq<RValue>): (r: Option<seq<int>>)
    ensures r.Some? ==> |r.value| == |items|
  {
    if |items| == 0 then Some([])
    else
      var last := items[|items| - 1];
      match IntsOf(items[..|items| - 1])
      case None => None
      case Some(prefix) => if last.Int? then Some(prefix + [last.i]) else None
  }

  /** Reading an integer array back gives the integers it was built from. */
  lemma {:induction false} IntArrayRoundTrip(xs: seq<int>)
    ensures AsInts(IntArray(xs)) == Some(xs)
  {
    IntsOfInts(xs);
  }

  lemma {:induction false} IntsOfInts(xs: seq<int>)
    ensures IntsOf(IntArray(xs).items) == Some(xs)
    decreases |xs|
  {
    if |xs| > 0 {
      var n := |xs| - 1;
      IntsOfInts(xs[..n]);
      assert IntArray(xs).items[..n] == IntArray(xs[..n]).items;
      assert xs[..n] + [xs[n]] == xs;
    }
  }

  /** The characters of a byte string, one per byte. */
  function Latin1(bytes: seq<bv8>): (s: string)
    ensures |s| == |bytes|
    ensures forall i :: 0 <= i < |bytes| ==> s[i] as int == bytes[i] as int
  {
    seq(|bytes|, i requires 0 <= i < |bytes| => (bytes[i] as int) as char)
  }

  /** The exceptions the extensions raise, as far as the model tells them
      apart. */
  datatype RubyError = ArgumentError(message: string) | TypeError | RangeError

  /** `NUM2INT` (`bits` = 32) and `NUM2LONG` (`bits` = 64): an Integer in
      the signed range converts, a larger one raises `RangeError`, and
      `nil`, booleans, symbols, strings, arrays and hashes raise
      `TypeError`. */
  function NumToInt(v: RValue, bits: nat): (r: Result<int, RubyError>)
    requires bits > 0
    ensures r.Success? <==> v.Int? && -Pow2(bits - 1) <= v.i < Pow2(bits - 1)
    ensures r.Success? ==> r.value == v.i
    ensures r.Failure? ==> r.error == (if v.Int? then RangeError else TypeError)
  {
    if !v.Int? then Failure(TypeError)
    else if v.i < -Pow2(bits - 1) || v.i >= Pow2(bits - 1) then Failure(RangeError)
    else Success(v.i)
  }

  /** 2 to the power `n`. */
  function Pow2(n: nat): (p: int)
    ensures p >= 1
  {
    if n == 0 then 1 else 2 * Pow2(n - 1)
  }

  /** `RTEST`: everything but `nil` and `false` is true. */
  predicate Truthy(v: RValue) {
    !(v.Nil? || v == Bool(false))
  }

  /** The decimal digits of a natural number. */
  function Digits(n: nat): (s: string)
    ensures |s| >= 1 && forall i :: 0 <= i < |s| ==> '0' <= s[i] <= '9'
  {
    if n < 10 then [('0' as int + n) as char]
    else Digits(n / 10) + [('0' as int + n % 10) as char]
  }

  /** `to_s`: an integer in decimal, a symbol's name, a string itself,
      `nil` as the empty string, and an array or a hash as its `inspect`
      form, which `Array#to_s` and `Hash#to_s` are aliases of. */
  function ToS(v: RValue): (s: string)
    ensures v.Sym? ==> s == v.name
    ensures v.Str? ==> s == v.s
    ensures v.Nil? ==> s == ""
    ensures v.Array? || v.Hash? ==> s == Inspect(v)
  {
    match v
    case Nil => ""
    case Bool(b) => if b then "true" else "false"
    case Int(i) => if i < 0 then "-" + Digits(-i) else Digits(i)
    case Sym(name) => name
    case Str(s) => s
    case Array(_) => Inspect(v)
    case Hash(_) => Inspect(v)
  }

  /** `inspect`: `nil`, `true`, `false` and integers as `to_s` writes
      them, a symbol as `:name`, a string between double quotes with its
      special characters escaped, an array as `[a, b]` and a hash as
      `{k=>v}`, each element in its own `inspect` form. */
  function Inspect(v: RValue): (s: string)
    ensures |s| > 0
    ensures v.Str? ==> s == "\"" + Escape(v.s) + "\""
    ensures v.Array? ==> s[0] == '[' && s[|s| - 1] == ']'
    ensures v.Hash? ==> s[0] == '{' && s[|s| - 1] == '}'
  {
    match v
    case Nil => "nil"
    case Bool(b) => if b then "true" else "false"
    case Int(i) => if i < 0 then "-" + Digits(-i) else Digits(i)
    case Sym(name) => ":" + name
    case Str(t) => "\"" + Escape(t) + "\""
    case Array(items) => "[" + InspectItems(items) + "]"
    case Hash(entries) => "{" + InspectEntries(entries) + "}"
  }

  /** The elements of an array, inspected and joined by `", "`. */
  function InspectItems(items: seq<RValue>): string {
    if |items| == 0 then ""
    else if |items| == 1 then Inspect(items[0])
    else Inspect(items[0]) + ", " + InspectItems(items[1..])
  }

  /** One hash entry as `key=>value`. */
  function InspectPair(e: (RValue, RValue)): string {
    Inspect(e.0) + "=>" + Inspect(e.1)
  }

  /** The entries of a hash, inspected and joined by `", "`. */
  function InspectEntries(entries: seq<(RValue, RValue)>): string {
    if |entries| == 0 then ""
    else if |entries| == 1 then InspectPair(entries[0])
    else InspectPair(entries[0]) + ", " + InspectEntries(entries[1..])
  }

  /** The letter `inspect` writes after a backslash for a character it
      escapes: a double quote, a backslash, newline, tab or carriage
      return. */
  function EscapeLetter(c: char): Option<char> {
    if c == '"' then Some('"')
    else if c == '\\' then Some('\\')
    else if c == '\n' then Some('n')
    else if c == '\t' then Some('t')
    else if c == '\r' then Some('r')
    else None
  }

  /** The character a backslash followed by `l` stands for. */
  function UnescapeLetter(l: char): (c: Option<char>)
    ensures c.Some? ==> EscapeLetter(c.value) == Some(l)
  {
    if l == '"' then Some('"')
    else if l == '\\' then Some('\\')
    else if l == 'n' then Some('\n')
    else if l == 't' then Some('\t')
    else if l == 'r' then Some('\r')
    else None
  }

  /** The body of a string's `inspect` form. */
  function Escape(s: string): (e: string)
    ensures |e| >= |s|
  {
    if |s| == 0 then ""
    else
      var head := match EscapeLetter(s[0]) case Some(l) => ['\\', l] case None => [s[0]];
      head + Escape(s[1..])
  }

  /** Read the body of a string literal back: every backslash starts an
      escape, and no special character appears unescaped. */
  function Unescape(e: string): (r: Option<string>)
    decreases |e|
  {
    if |e| == 0 then Some("")
    else if e[0] == '\\' then
      if |e| < 2 then None
      else match (UnescapeLetter(e[1]), Unescape(e[2..]))
        case (Some(c), Some(rest)) => Some([c] + rest)
        case _ => None
    else if EscapeLetter(e[0]).Some? then None
    else match Unescape(e[1..])
      case Some(rest) => Some([e[0]] + rest)
      case None => None
  }

  /** Escaping loses nothing: the escaped body reads back as the string. */
  lemma {:induction false} EscapeRoundTrip(s: string)
    ensures Unescape(Escape(s)) == Some(s)
  {
    if |s| > 0 {
      EscapeRoundTrip(s[1..]);
      var rest := Escape(s[1..]);
      match EscapeLetter(s[0])
      case Some(l) =>
        assert Escape(s) == ['\\', l] + rest;
        assert (['\\', l] + rest)[2..] == rest;
        assert [s[0]] + s[1..] == s;
      case None =>
        assert Escape(s) == [s[0]] + rest;
        assert ([s[0]] + rest)[1..] == rest;
        assert [s[0]] + s[1..] == s;
    }
  }
}
