/**
 The wire format below the messages: base-128 varints, tags, length-delimited records and fixed
 width payloads, as the Protocol Buffers "Encoding" guide describes them.
 */
module Wire {
  import opened Arith64

  type Bytes = seq<Byte>

  const TWO_32: nat := 0x1_0000_0000
  const INT_MAX: nat := 0x7FFF_FFFF

  datatype Option<T> = None | Some(value: T)

  // ---------------------------------------------------------------- varints

  function EncodeVarint(n: nat): Bytes {
    if n < 128 then [n] else [n % 128 + 128] + EncodeVarint(n / 128)
  }

  /** What the size pass uses for the length of a varint. */
  function VarintSize(n: nat): nat {
    if n < 128 then 1 else 1 + VarintSize(n / 128)
  }

  datatype Read<T> = Bad | Good(value: T, len: nat)

  /** Seven bits a byte, least significant first, from at most `max` bytes. */
  function ReadVarint(buf: Bytes, max: nat): (r: Read<nat>)
    ensures r.Good? ==> 0 < r.len <= |buf| && r.len <= max
    decreases max
  {
    if max == 0 || buf == [] then Bad
    else if buf[0] < 128 then Good(buf[0], 1)
    else
      match ReadVarint(buf[1..], max - 1)
      case Bad => Bad
      case Good(v, len) => Good(buf[0] - 128 + 128 * v, len + 1)
  }

  /** A tag has at most five bytes and is taken modulo 2^32. */
  function ReadTag(buf: Bytes): (r: Read<nat>)
    ensures r.Good? ==> 0 < r.len <= |buf|
  {
    match ReadVarint(buf, 5)
    case Bad => Bad
    case Good(v, len) => Good(v % TWO_32, len)
  }

  /** A 64-bit value has at most ten bytes and is taken modulo 2^64. */
  function ReadVarint64(buf: Bytes): (r: Read<nat>)
    ensures r.Good? ==> 0 < r.len <= |buf|
  {
    match ReadVarint(buf, 10)
    case Bad => Bad
    case Good(v, len) => Good(v % TWO_64, len)
  }

  /** A length-delimited payload: its length, which fits an `int`, and that many bytes. */
  function ReadBytes(buf: Bytes): (r: Read<Bytes>)
    ensures r.Good? ==> 0 < r.len <= |buf| && |r.value| <= INT_MAX
  {
    match ReadVarint(buf, 5)
    case Bad => Bad
    case Good(n, len) =>
      if n > INT_MAX || len + n > |buf| then Bad else Good(buf[len..len + n], len + n)
  }

  function ReadFixed(buf: Bytes, n: nat): Read<Bytes> {
    if |buf| < n then Bad else Good(buf[..n], n)
  }

  function ToInt32(v: nat): (i: int)
    ensures -0x8000_0000 <= i <= INT_MAX
  {
    var w := v % TWO_32;
    if w > INT_MAX then w - TWO_32 else w
  }

  /** A negative int32 is written as the 64-bit number with the same sign. */
  function SignExtend(i: int): nat
    requires -0x8000_0000 <= i <= INT_MAX
  {
    if i < 0 then i + TWO_64 else i
  }

  // ---------------------------------------------------------------- fields

  datatype Payload = Varint(v: nat) | Fixed64(bytes: Bytes) | Delimited(bytes: Bytes) | Fixed32(bytes: Bytes)

  datatype Field = Field(number: nat, payload: Payload)

  function WireType(p: Payload): nat {
    match p
    case Varint(_) => 0
    case Fixed64(_) => 1
    case Delimited(_) => 2
    case Fixed32(_) => 5
  }

  function TagOf(f: Field): nat {
    f.number * 8 + WireType(f.payload)
  }

  predicate ValidField(f: Field) {
    && 0 < f.number < 0x2000_0000
    && match f.payload
       case Varint(v) => v < TWO_64
       case Fixed64(b) => |b| == 8
       case Delimited(b) => |b| <= INT_MAX
       case Fixed32(b) => |b| == 4
  }

  /** The payload that a tag announces; groups and the reserved wire types are not accepted. */
  function ReadPayload(wireType: nat, buf: Bytes): (r: Read<Payload>)
    ensures r.Good? ==> 0 < r.len <= |buf| && WireType(r.value) == wireType
  {
    if wireType == 0 then
      match ReadVarint64(buf) case Bad => Bad case Good(v, len) => Good(Varint(v), len)
    else if wireType == 1 then
      match ReadFixed(buf, 8) case Bad => Bad case Good(b, len) => Good(Fixed64(b), len)
    else if wireType == 2 then
      match ReadBytes(buf) case Bad => Bad case Good(b, len) => Good(Delimited(b), len)
    else if wireType == 5 then
      match ReadFixed(buf, 4) case Bad => Bad case Good(b, len) => Good(Fixed32(b), len)
    else Bad
  }

  function ReadField(buf: Bytes): (r: Read<Field>)
    ensures r.Good? ==> 0 < r.len <= |buf| && ValidField(r.value)
  {
    match ReadTag(buf)
    case Bad => Bad
    case Good(tag, len) =>
      if tag / 8 == 0 then Bad
      else
        match ReadPayload(tag % 8, buf[len..])
        case Bad => Bad
        case Good(p, len') => Good(Field(tag / 8, p), len + len')
  }

  /** All the fields of a message. */
  function ReadFields(buf: Bytes): (r: Option<seq<Field>>)
    ensures r.Some? ==> forall f <- r.value :: ValidField(f)
    decreases |buf|
  {
    if buf == [] then Some([])
    else
      match ReadField(buf)
      case Bad => None
      case Good(f, len) =>
        Cons(f, ReadFields(buf[len..]))
  }

  function Cons(f: Field, rest: Option<seq<Field>>): Option<seq<Field>> {
    if rest.None? then None else Some([f] + rest.value)
  }

  function EncodePayload(p: Payload): Bytes {
    match p
    case Varint(v) => EncodeVarint(v)
    case Fixed64(b) => b
    case Delimited(b) => EncodeVarint(|b|) + b
    case Fixed32(b) => b
  }

  function EncodeField(f: Field): Bytes {
    EncodeVarint(TagOf(f)) + EncodePayload(f.payload)
  }

  function EncodeFields(fs: seq<Field>): Bytes {
    if fs == [] then [] else EncodeField(fs[0]) + EncodeFields(fs[1..])
  }

  // ---------------------------------------------------------------- reading undoes writing

  function Pow128(k: nat): nat {
    if k == 0 then 1 else 128 * Pow128(k - 1)
  }

  lemma {:induction false} VarintRoundTrip(n: nat, max: nat, rest: Bytes)
    requires n < Pow128(max) && max > 0
    ensures ReadVarint(EncodeVarint(n) + rest, max) == Good(n, |EncodeVarint(n)|)
    decreases max
  {
    var buf := EncodeVarint(n) + rest;
    if n >= 128 {
      assert buf[1..] == EncodeVarint(n / 128) + rest;
      VarintRoundTrip(n / 128, max - 1, rest);
    }
  }

  lemma {:induction false} VarintSizeIsLength(n: nat)
    ensures VarintSize(n) == |EncodeVarint(n)|
  {
    if n >= 128 {
      VarintSizeIsLength(n / 128);
    }
  }

  lemma Pow128Bounds()
    ensures TWO_32 <= Pow128(5) && TWO_64 <= Pow128(10)
  {
    assert Pow128(4) == 0x1000_0000;
    assert Pow128(5) == 0x8_0000_0000;
    assert Pow128(8) == 0x100_0000_0000_0000;
  }

  lemma BytesRoundTrip(b: Bytes, rest: Bytes)
    requires |b| <= INT_MAX
    ensures ReadBytes(EncodeVarint(|b|) + b + rest) == Good(b, |EncodeVarint(|b|)| + |b|)
  {
    hide ReadVarint, EncodeVarint, Pow128;
    Pow128Bounds();
    var n := EncodeVarint(|b|);
    VarintRoundTrip(|b|, 5, b + rest);
    assert n + b + rest == n + (b + rest);
    assert (n + b + rest)[|n|..|n| + |b|] == b;
  }

  lemma Varint64RoundTrip(v: nat, rest: Bytes)
    requires v < TWO_64
    ensures ReadVarint64(EncodeVarint(v) + rest) == Good(v, |EncodeVarint(v)|)
  {
    hide ReadVarint, EncodeVarint, Pow128;
    Pow128Bounds();
    VarintRoundTrip(v, 10, rest);
  }

  lemma PayloadRoundTrip(p: Payload, n: nat, rest: Bytes)
    requires ValidField(Field(n, p))
    ensures ReadPayload(WireType(p), EncodePayload(p) + rest) == Good(p, |EncodePayload(p)|)
  {
    hide ReadVarint64, ReadBytes, EncodeVarint;
    match p
    case Varint(v) => Varint64RoundTrip(v, rest);
    case Delimited(b) => BytesRoundTrip(b, rest);
    case Fixed64(b) => assert (b + rest)[..8] == b;
    case Fixed32(b) => assert (b + rest)[..4] == b;
  }

  lemma FieldRoundTrip(f: Field, rest: Bytes)
    requires ValidField(f)
    ensures ReadField(EncodeField(f) + rest) == Good(f, |EncodeField(f)|)
    ensures (EncodeField(f) + rest)[|EncodeField(f)|..] == rest
  {
    hide ReadVarint, EncodeVarint, ReadPayload, EncodePayload, Pow128;
    var tag := EncodeVarint(TagOf(f));
    var buf := EncodeField(f) + rest;
    Pow128Bounds();
    VarintRoundTrip(TagOf(f), 5, EncodePayload(f.payload) + rest);
    assert buf == tag + (EncodePayload(f.payload) + rest);
    assert buf[|tag|..] == EncodePayload(f.payload) + rest;
    PayloadRoundTrip(f.payload, f.number, rest);
  }

  /** Reading undoes writing, field by field. */
  lemma {:induction false} FieldsRoundTrip(fs: seq<Field>)
    requires forall f <- fs :: ValidField(f)
    ensures ReadFields(EncodeFields(fs)) == Some(fs)
  {
    hide ReadField, EncodeField, ValidField;
    if fs != [] {
      var rest := EncodeFields(fs[1..]);
      FieldRoundTrip(fs[0], rest);
      FieldsRoundTrip(fs[1..]);
      assert fs == [fs[0]] + fs[1..];
      assert EncodeFields(fs) == EncodeField(fs[0]) + rest;
    }
  }

  // ---------------------------------------------------------------- more input after the message

  lemma {:induction false} VarintLocal(a: Bytes, b: Bytes, max: nat)
    requires ReadVarint(a, max).Good?
    ensures ReadVarint(a + b, max) == ReadVarint(a, max)
    decreases max
  {
    if a[0] >= 128 {
      assert (a + b)[1..] == a[1..] + b;
      VarintLocal(a[1..], b, max - 1);
    }
  }

  lemma BytesLocal(a: Bytes, b: Bytes)
    requires ReadBytes(a).Good?
    ensures ReadBytes(a + b) == ReadBytes(a)
  {
    hide ReadVarint;
    VarintLocal(a, b, 5);
    var n, len := ReadVarint(a, 5).value, ReadVarint(a, 5).len;
    assert (a + b)[len..len + n] == a[len..len + n];
  }

  lemma FixedLocal(a: Bytes, b: Bytes, n: nat)
    requires ReadFixed(a, n).Good?
    ensures ReadFixed(a + b, n) == ReadFixed(a, n)
  {
    assert (a + b)[..n] == a[..n];
  }

  lemma PayloadLocal(wireType: nat, a: Bytes, b: Bytes)
    requires ReadPayload(wireType, a).Good?
    ensures ReadPayload(wireType, a + b) == ReadPayload(wireType, a)
  {
    hide ReadVarint, ReadBytes, ReadFixed;
    if wireType == 0 {
      VarintLocal(a, b, 10);
    } else if wireType == 2 {
      BytesLocal(a, b);
    } else {
      FixedLocal(a, b, if wireType == 1 then 8 else 4);
    }
  }

  lemma FieldLocal(a: Bytes, b: Bytes)
    requires ReadField(a).Good?
    ensures ReadField(a + b) == ReadField(a)
    ensures (a + b)[ReadField(a).len..] == a[ReadField(a).len..] + b
  {
    hide ReadPayload, ReadVarint;
    VarintLocal(a, b, 5);
    var len := ReadTag(a).len;
    assert (a + b)[len..] == a[len..] + b;
    PayloadLocal(ReadTag(a).value % 8, a[len..], b);
  }

  /** Reading a message is reading its first field and then the rest. */
  lemma ReadFirst(buf: Bytes)
    requires buf != []
    ensures ReadField(buf).Bad? ==> ReadFields(buf).None?
    ensures ReadField(buf).Good? ==>
      ReadFields(buf) == Cons(ReadField(buf).value, ReadFields(buf[ReadField(buf).len..]))
  {
  }

  lemma ReadNothing()
    ensures ReadFields([]) == Some([])
  {
  }

  /** The fields of a concatenation are the fields of its parts. */
  lemma {:induction false} FieldsConcat(a: Bytes, b: Bytes)
    requires ReadFields(a).Some?
    ensures ReadFields(b).None? ==> ReadFields(a + b).None?
    ensures ReadFields(b).Some? ==> ReadFields(a + b) == Some(ReadFields(a).value + ReadFields(b).value)
    decreases |a|
  {
    hide ReadField, ReadFields;
    ReadNothing();
    if a == [] {
      assert a + b == b && ReadFields(a).value == [];
      if ReadFields(b).Some? {
        assert [] + ReadFields(b).value == ReadFields(b).value;
      }
    } else {
      ReadFirst(a);
      ReadFirst(a + b);
      var f, len := ReadField(a).value, ReadField(a).len;
      FieldLocal(a, b);
      FieldsConcat(a[len..], b);
      if ReadFields(b).Some? {
        var tail, more := ReadFields(a[len..]).value, ReadFields(b).value;
        assert [f] + (tail + more) == ([f] + tail) + more;
      }
    }
  }

  lemma {:induction false} EncodeConcat(a: seq<Field>, b: seq<Field>)
    ensures EncodeFields(a + b) == EncodeFields(a) + EncodeFields(b)
  {
    hide EncodeField;
    if a == [] {
      assert a + b == b;
    } else {
      assert (a + b)[0] == a[0] && (a + b)[1..] == a[1..] + b;
      EncodeConcat(a[1..], b);
    }
  }
}
