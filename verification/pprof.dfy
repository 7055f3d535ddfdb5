/** The minimal Protocol Buffers encoder of the pprof reporter
    (`Pf2::Reporter::Protobuf`, `lib/pf2/reporter/pprof.rb`): base-128
    varints and tagged fields of the VARINT and LEN wire types, appended
    to a byte buffer. A decoder written from the "Base 128 Varints" and
    "Message Structure" sections of the Protocol Buffers encoding guide is
    the partner every encoding is checked against. Ruby's `&` and `>>`
    on the non-negative values involved are `%` and `/` by powers of two;
    a Ruby string argument is its byte sequence. */
module Protobuf {
  import opened Wrappers

  type Byte = b: int | 0 <= b < 256

  const WireTypeVarint: nat := 0
  const WireTypeLen: nat := 2

  /** 128 to the power `n`. */
  function Pow128(n: nat): (p: nat)
    ensures p >= 1
  {
    if n == 0 then 1 else 128 * Pow128(n - 1)
  }

  /** `put_byte`: appends the low eight bits of `b`. */
  function PutByte(data: seq<Byte>, b: int): (r: seq<Byte>)
    ensures |r| == |data| + 1 && r[..|data|] == data
    ensures (b - r[|data|]) % 256 == 0
    ensures 0 <= b < 256 ==> r[|data|] == b
  {
    data + [b % 256]
  }

  /** The bytes `put_varint` emits for `val`: seven-bit groups, least
      significant first, with the continuation bit on every byte but the
      last. A negative value does not enter the loop and emits its low
      byte alone. */
  function Varint(val: int): (bytes: seq<Byte>)
    ensures |bytes| >= 1
    decreases if val > 0 then val else 0
  {
    if val > 0x7F then [val % 128 + 128] + Varint(val / 128)
    else [val % 256]
  }

  /** Every byte of a varint but the last carries the continuation bit;
      the last of a non-negative value does not. A value below 128 is its
      own single byte, and a value takes no more groups than it needs. */
  lemma {:induction false} VarintShape(val: int)
    ensures var bytes := Varint(val);
      && (forall i :: 0 <= i < |bytes| - 1 ==> bytes[i] >= 128)
      && (val >= 0 ==> bytes[|bytes| - 1] < 128)
      && (0 <= val < 128 ==> bytes == [val])
      && (val < 0 ==> bytes == [val % 256])
      && (val >= 0 ==> val < Pow128(|bytes|))
    decreases if val > 0 then val else 0
  {
    if val > 0x7F {
      VarintShape(val / 128);
      var rest := Varint(val / 128);
      assert Varint(val) == [val % 128 + 128] + rest;
      assert forall i :: 1 <= i < |Varint(val)| ==> Varint(val)[i] == rest[i - 1];
    }
  }

  /** The number a sequence of varint bytes stands for: the low seven bits
      of byte `i` are worth `128^i`. */
  function GroupValue(bytes: seq<Byte>): nat
    decreases |bytes|
  {
    if |bytes| == 0 then 0 else bytes[0] % 128 + 128 * GroupValue(bytes[1..])
  }

  /** The varint of a non-negative value adds up to that value. */
  lemma {:induction false} VarintValue(val: nat)
    ensures GroupValue(Varint(val)) == val
    decreases val
  {
    if val > 0x7F {
      VarintValue(val / 128);
      assert Varint(val)[1..] == Varint(val / 128);
    }
  }

  /** A non-negative value below 128^k takes at most k bytes: the encoding
      has no redundant groups. */
  lemma {:induction false} VarintLength(val: nat, k: nat)
    requires val < Pow128(k)
    ensures |Varint(val)| <= if k == 0 then 1 else k
    decreases val
  {
    if val > 0x7F {
      assert Varint(val) == [val % 128 + 128] + Varint(val / 128);
      assert Pow128(1) == 128;
      VarintLength(val / 128, k - 1);
    }
  }

  /** Read one varint from the front of `bytes`: its value and how many
      bytes it took, or `None` when the bytes end before a byte without
      the continuation bit. */
  function DecodeVarint(bytes: seq<Byte>): (r: Option<(nat, nat)>)
    ensures r.Some? ==> 1 <= r.value.1 <= |bytes|
    decreases |bytes|
  {
    if |bytes| == 0 then None
    else if bytes[0] < 128 then Some((bytes[0], 1))
    else match DecodeVarint(bytes[1..])
      case None => None
      case Some((v, n)) => Some((bytes[0] - 128 + 128 * v, n + 1))
  }

  /** Decoding reads back exactly the value `put_varint` wrote, whatever
      follows it. */
  lemma {:induction false} VarintRoundTrip(val: nat, rest: seq<Byte>)
    ensures DecodeVarint(Varint(val) + rest) == Some((val, |Varint(val)|))
    decreases val
  {
    if val > 0x7F {
      VarintRoundTrip(val / 128, rest);
      assert (Varint(val) + rest)[1..] == Varint(val / 128) + rest;
    }
  }

  /** `put_varint`. */
  function PutVarint(data: seq<Byte>, val: int): (r: seq<Byte>)
    ensures |r| > |data| && r[..|data|] == data
    ensures val >= 0 ==> DecodeVarint(r[|data|..]) == Some((val, |r| - |data|))
  {
    var r := data + Varint(val);
    if val >= 0 then
      assert r[|data|..] == Varint(val) + [];
      VarintRoundTrip(val, []);
      r
    else r
  }

  /** The tag of a field: its number shifted past the three wire-type
      bits. */
  function Tag(field: int, wireType: nat): int {
    field * 8 + wireType
  }

  /** `wire_varint`: the tag with wire type VARINT, then the value. */
  function WireVarint(data: seq<Byte>, field: int, val: int): seq<Byte> {
    PutVarint(PutVarint(data, Tag(field, WireTypeVarint)), val)
  }

  /** `wire_len`: the tag with wire type LEN, the byte length, then the
      bytes unchanged. */
  function WireLen(data: seq<Byte>, field: int, bytes: seq<Byte>): seq<Byte> {
    PutVarint(PutVarint(data, Tag(field, WireTypeLen)), |bytes|) + bytes
  }

  /** A decoded field: its number and its payload. */
  datatype Field =
    | VarintField(number: nat, value: nat)
    | LenField(number: nat, bytes: seq<Byte>)

  /** Read one field from the front of `bytes`: the tag, then a varint or a
      length-prefixed payload. Other wire types are not decoded. */
  function DecodeField(bytes: seq<Byte>): (r: Option<(Field, nat)>)
    ensures r.Some? ==> 1 <= r.value.1 <= |bytes|
  {
    match DecodeVarint(bytes)
    case None => None
    case Some((tag, n)) => FieldAfterTag(bytes, tag, n)
  }

  /** The rest of a field once its tag `tag` has been read from the first
      `n` bytes: the wire type picks how the payload is read. */
  function FieldAfterTag(bytes: seq<Byte>, tag: nat, n: nat): (r: Option<(Field, nat)>)
    requires 1 <= n <= |bytes|
    ensures r.Some? ==> 1 <= r.value.1 <= |bytes|
  {
    var rest := bytes[n..];
    if tag % 8 == WireTypeVarint then
      match DecodeVarint(rest)
      case None => None
      case Some((v, m)) => Some((VarintField(tag / 8, v), n + m))
    else if tag % 8 == WireTypeLen then
      match DecodeVarint(rest)
      case None => None
      case Some((len, m)) =>
        if n + m + len <= |bytes| then Some((LenField(tag / 8, bytes[n + m..n + m + len]), n + m + len))
        else None
    else None
  }

  /** Read fields from the front of `bytes` until they run out. */
  function DecodeFields(bytes: seq<Byte>): Option<seq<Field>>
    decreases |bytes|
  {
    if |bytes| == 0 then Some([])
    else match DecodeField(bytes)
      case None => None
      case Some((f, n)) =>
        match DecodeFields(bytes[n..])
        case None => None
        case Some(fs) => Some([f] + fs)
  }

  /** The bytes a field is written as, by `wire_varint` or `wire_len`. */
  function EncodeField(f: Field): seq<Byte> {
    match f
    case VarintField(number, value) => Varint(Tag(number, WireTypeVarint)) + Varint(value)
    case LenField(number, bytes) => Varint(Tag(number, WireTypeLen)) + Varint(|bytes|) + bytes
  }

  /** The bytes `wire_varint` appends: the tag's varint, then the
      value's. */
  lemma WireVarintBytes(data: seq<Byte>, field: int, val: int)
    ensures WireVarint(data, field, val) == data + Varint(Tag(field, WireTypeVarint)) + Varint(val)
  {
  }

  /** `wire_varint` of a non-negative number and value appends the bytes
      of one VARINT field. */
  lemma WireVarintWritesField(data: seq<Byte>, field: nat, val: nat)
    ensures WireVarint(data, field, val) == data + EncodeField(VarintField(field, val))
  {
    WireVarintBytes(data, field, val);
    var t := Varint(Tag(field, WireTypeVarint));
    assert data + t + Varint(val) == data + (t + Varint(val));
  }

  /** `wire_len` of a non-negative number appends the bytes of one LEN
      field. */
  lemma WireLenWritesField(data: seq<Byte>, field: nat, bytes: seq<Byte>)
    ensures WireLen(data, field, bytes) == data + EncodeField(LenField(field, bytes))
  {
    WireLenBytes(data, field, bytes);
    var t := Varint(Tag(field, WireTypeLen));
    assert data + t + Varint(|bytes|) + bytes == data + (t + Varint(|bytes|) + bytes);
  }

  /** The bytes `wire_len` appends: the tag's varint, the length's, then
      the payload. */
  lemma WireLenBytes(data: seq<Byte>, field: int, bytes: seq<Byte>)
    ensures WireLen(data, field, bytes) == data + Varint(Tag(field, WireTypeLen)) + Varint(|bytes|) + bytes
  {
  }

  /** A tag splits back into the field number and the wire type. */
  lemma TagSplits(field: nat, wireType: nat)
    requires wireType < 8
    ensures Tag(field, wireType) >= 0
    ensures Tag(field, wireType) / 8 == field && Tag(field, wireType) % 8 == wireType
  {
  }

  /** A VARINT field as `DecodeField` reads it: the tag's varint, then the
      value's. */
  lemma DecodeVarintField(bytes: seq<Byte>, tag: nat, n: nat, v: nat, m: nat)
    requires DecodeVarint(bytes) == Some((tag, n)) && n <= |bytes| && tag % 8 == WireTypeVarint
    requires DecodeVarint(bytes[n..]) == Some((v, m))
    ensures DecodeField(bytes) == Some((VarintField(tag / 8, v), n + m))
  {
    AfterVarintTag(bytes, tag, n, v, m);
  }

  /** The payload of a VARINT field once its tag is read. */
  lemma AfterVarintTag(bytes: seq<Byte>, tag: nat, n: nat, v: nat, m: nat)
    requires 1 <= n <= |bytes| && tag % 8 == WireTypeVarint
    requires DecodeVarint(bytes[n..]) == Some((v, m))
    ensures FieldAfterTag(bytes, tag, n) == Some((VarintField(tag / 8, v), n + m))
  {
  }

  /** A LEN field as `DecodeField` reads it: the tag's varint, the length's
      varint, then that many bytes. */
  lemma DecodeLenField(bytes: seq<Byte>, tag: nat, n: nat, len: nat, m: nat)
    requires DecodeVarint(bytes) == Some((tag, n)) && n <= |bytes| && tag % 8 == WireTypeLen
    requires DecodeVarint(bytes[n..]) == Some((len, m)) && n + m + len <= |bytes|
    ensures DecodeField(bytes) == Some((LenField(tag / 8, bytes[n + m..n + m + len]), n + m + len))
  {
    AfterLenTag(bytes, tag, n, len, m);
  }

  /** The payload of a LEN field once its tag is read. */
  lemma AfterLenTag(bytes: seq<Byte>, tag: nat, n: nat, len: nat, m: nat)
    requires 1 <= n <= |bytes| && tag % 8 == WireTypeLen
    requires DecodeVarint(bytes[n..]) == Some((len, m)) && n + m + len <= |bytes|
    ensures FieldAfterTag(bytes, tag, n) == Some((LenField(tag / 8, bytes[n + m..n + m + len]), n + m + len))
  {
  }

  /** A VARINT field reads back as itself, whatever follows it. */
  lemma {:induction false} VarintFieldRoundTrip(number: nat, value: nat, rest: seq<Byte>)
    ensures var bytes := Varint(Tag(number, WireTypeVarint)) + Varint(value);
      DecodeField(bytes + rest) == Some((VarintField(number, value), |bytes|))
  {
    var tag := Varint(Tag(number, WireTypeVarint));
    var second := Varint(value);
    var all := tag + second + rest;
    TagSplits(number, WireTypeVarint);
    assert all == tag + (second + rest);
    VarintRoundTrip(Tag(number, WireTypeVarint), second + rest);
    assert all[|tag|..] == second + rest;
    VarintRoundTrip(value, rest);
    DecodeVarintField(all, Tag(number, WireTypeVarint), |tag|, value, |second|);
  }

  /** A LEN field reads back as itself, whatever follows it. */
  lemma {:induction false} LenFieldRoundTrip(number: nat, payload: seq<Byte>, rest: seq<Byte>)
    ensures var bytes := Varint(Tag(number, WireTypeLen)) + Varint(|payload|) + payload;
      DecodeField(bytes + rest) == Some((LenField(number, payload), |bytes|))
  {
    var tag := Varint(Tag(number, WireTypeLen));
    var second := Varint(|payload|);
    var all := tag + second + payload + rest;
    TagSplits(number, WireTypeLen);
    LenFieldLayout(tag, second, payload, rest);
    VarintRoundTrip(Tag(number, WireTypeLen), second + payload + rest);
    VarintRoundTrip(|payload|, payload + rest);
    DecodeLenField(all, Tag(number, WireTypeLen), |tag|, |payload|, |second|);
  }

  /** Where the parts of a LEN field sit in its bytes and what follows. */
  lemma LenFieldLayout(tag: seq<Byte>, second: seq<Byte>, payload: seq<Byte>, rest: seq<Byte>)
    ensures tag + second + payload + rest == tag + (second + payload + rest)
    ensures (tag + second + payload + rest)[|tag|..] == second + (payload + rest)
    ensures (tag + second + payload + rest)[|tag| + |second|..|tag| + |second| + |payload|] == payload
  {
    var all := tag + second + payload + rest;
    assert all[|tag|..] == second + (payload + rest);
    assert all[|tag| + |second|..|tag| + |second| + |payload|] == payload;
  }

  /** A field written by `wire_varint` or `wire_len` reads back as itself,
      whatever follows it. */
  lemma {:induction false} FieldRoundTrip(f: Field, rest: seq<Byte>)
    ensures DecodeField(EncodeField(f) + rest) == Some((f, |EncodeField(f)|))
  {
    match f
    case VarintField(number, value) => VarintFieldRoundTrip(number, value, rest);
    case LenField(number, bytes) => LenFieldRoundTrip(number, bytes, rest);
  }

  /** The bytes of a message written field by field. */
  function EncodeFields(fields: seq<Field>): seq<Byte>
    decreases |fields|
  {
    if |fields| == 0 then [] else EncodeField(fields[0]) + EncodeFields(fields[1..])
  }

  /** A message written with the encoder decodes to the fields written, in
      order. */
  lemma {:induction false} FieldsRoundTrip(fields: seq<Field>)
    ensures DecodeFields(EncodeFields(fields)) == Some(fields)
    decreases |fields|
  {
    if |fields| > 0 {
      var first := EncodeField(fields[0]);
      var rest := EncodeFields(fields[1..]);
      FieldRoundTrip(fields[0], rest);
      assert (first + rest)[|first|..] == rest;
      FieldsRoundTrip(fields[1..]);
      DecodeFieldsStep(first + rest, fields[0], |first|, fields[1..]);
      assert [fields[0]] + fields[1..] == fields;
    }
  }

  /** A field decoded at the front, followed by decodable fields, decodes
      as that field before them. */
  lemma DecodeFieldsStep(bytes: seq<Byte>, f: Field, n: nat, fs: seq<Field>)
    requires |bytes| > 0 && DecodeField(bytes) == Some((f, n)) && n <= |bytes|
    requires DecodeFields(bytes[n..]) == Some(fs)
    ensures DecodeFields(bytes) == Some([f] + fs)
  {
  }

  /** `int32`: the value's two's complement masked to 32 bits is written as
      an unsigned varint (so -1 is 0xFFFFFFFF, where the encoding guide
      sign-extends to 64 bits). */
  function Int32(data: seq<Byte>, field: int, val: int): seq<Byte> {
    WireVarint(data, field, val % 0x1_0000_0000)
  }

  /** `int64`: the two's complement masked to 64 bits. */
  function Int64(data: seq<Byte>, field: int, val: int): seq<Byte> {
    WireVarint(data, field, val % 0x1_0000_0000_0000_0000)
  }

  /** `uint64`: the value as it is. */
  function UInt64(data: seq<Byte>, field: int, val: int): seq<Byte> {
    WireVarint(data, field, val)
  }

  /** `bool`: 1 for true, 0 for false. */
  function Bool(data: seq<Byte>, field: int, val: bool): seq<Byte> {
    WireVarint(data, field, if val then 1 else 0)
  }

  /** `string` and `submessage`: a LEN field holding the bytes. */
  function LenBytes(data: seq<Byte>, field: int, bytes: seq<Byte>): seq<Byte> {
    WireLen(data, field, bytes)
  }

  /** `string` and `submessage` append one LEN field holding the bytes,
      and that field reads back as itself. */
  lemma LenBytesReadsBack(data: seq<Byte>, field: nat, bytes: seq<Byte>, rest: seq<Byte>)
    ensures LenBytes(data, field, bytes) == data + EncodeField(LenField(field, bytes))
    ensures DecodeField(LenBytes([], field, bytes) + rest)
      == Some((LenField(field, bytes), |EncodeField(LenField(field, bytes))|))
  {
    WireLenWritesField(data, field, bytes);
    WireLenWritesField([], field, bytes);
    assert [] + EncodeField(LenField(field, bytes)) == EncodeField(LenField(field, bytes));
    FieldRoundTrip(LenField(field, bytes), rest);
  }

  /** The signed 32-bit integer whose two's complement is `v`. */
  function Signed32(v: nat): int {
    if v < 0x8000_0000 then v else v - 0x1_0000_0000
  }

  /** The signed 64-bit integer whose two's complement is `v`. */
  function Signed64(v: nat): int {
    if v < 0x8000_0000_0000_0000 then v else v - 0x1_0000_0000_0000_0000
  }

  /** `int32` appends one VARINT field holding a 32-bit value that reads
      back as the integer given, for every integer in range. */
  lemma Int32ReadsBack(data: seq<Byte>, field: nat, val: int)
    requires -0x8000_0000 <= val < 0x8000_0000
    ensures var v := val % 0x1_0000_0000;
      && Int32(data, field, val) == data + EncodeField(VarintField(field, v))
      && v < 0x1_0000_0000 && Signed32(v) == val
  {
    var v := val % 0x1_0000_0000;
    WireVarintWritesField(data, field, v);
  }

  /** `int64` appends one VARINT field holding a 64-bit value that reads
      back as the integer given, for every integer in range. */
  lemma Int64ReadsBack(data: seq<Byte>, field: nat, val: int)
    requires -0x8000_0000_0000_0000 <= val < 0x8000_0000_0000_0000
    ensures var v := val % 0x1_0000_0000_0000_0000;
      && Int64(data, field, val) == data + EncodeField(VarintField(field, v))
      && v < 0x1_0000_0000_0000_0000 && Signed64(v) == val
  {
    var v := val % 0x1_0000_0000_0000_0000;
    WireVarintWritesField(data, field, v);
  }

  /** `uint64` of a non-negative value and `bool` append one VARINT field
      holding the value, or 1 and 0. */
  lemma UnsignedAndBoolReadBack(data: seq<Byte>, field: nat, val: nat, flag: bool)
    ensures UInt64(data, field, val) == data + EncodeField(VarintField(field, val))
    ensures Bool(data, field, flag) == data + EncodeField(VarintField(field, if flag then 1 else 0))
  {
    WireVarintWritesField(data, field, val);
    WireVarintWritesField(data, field, if flag then 1 else 0);
  }

  /** `int32` of -1 writes five bytes after the tag, 0xFF 0xFF 0xFF 0xFF
      0x0F, not the ten of a sign-extended 64-bit varint. */
  lemma Int32MinusOne(field: nat)
    ensures Int32([], field, -1) == Varint(field * 8) + [0xFF, 0xFF, 0xFF, 0xFF, 0x0F]
  {
    assert -1 % 0x1_0000_0000 == 0xFFFF_FFFF;
    MaskedMinusOneBytes();
    WireVarintBytes([], field, 0xFFFF_FFFF);
  }

  /** The five bytes of the 32-bit mask of -1. */
  lemma MaskedMinusOneBytes()
    ensures Varint(0xFFFF_FFFF) == [0xFF, 0xFF, 0xFF, 0xFF, 0x0F]
  {
    assert Varint(0xF) == [0x0F];
    assert Varint(0x7FF) == [0xFF] + Varint(0xF);
    assert Varint(0x3_FFFF) == [0xFF] + Varint(0x7FF);
    assert Varint(0x1FF_FFFF) == [0xFF] + Varint(0x3_FFFF);
    assert Varint(0xFFFF_FFFF) == [0xFF] + Varint(0x1FF_FFFF);
  }
}
