/**
 What the bytes on the wire look like, said without the functions that write and read them: the
 form of a base-128 varint, of a payload of each wire type, of a field and of a message.
 */
module WireForm {
  import opened Arith64
  import opened Wire

  /** Every byte but the last has its top bit set. */
  predicate VarintForm(b: Bytes) {
    && |b| > 0 && b[|b| - 1] < 128
    && forall i | 0 <= i < |b| - 1 :: b[i] >= 128
  }

  /** The low seven bits of each byte, least significant byte first. */
  function VarintSum(b: Bytes): nat {
    if b == [] then 0 else VarintSum(b[..|b| - 1]) + (b[|b| - 1] % 128) * Pow128(|b| - 1)
  }

  lemma Regroup(a: nat, b: nat)
    ensures a * (128 * b) == 128 * (a * b)
  {
  }

  lemma {:induction false} SumOfFirst(b: Bytes)
    requires b != []
    ensures VarintSum(b) == b[0] % 128 + 128 * VarintSum(b[1..])
    ensures |b| == 1 ==> VarintSum(b) == b[0] % 128
  {
    var k := |b| - 1;
    if k > 0 {
      var top := b[k] % 128;
      SumOfFirst(b[..k]);
      assert b[..k][1..] == b[1..][..k - 1] && b[1..][k - 1] == b[k];
      Regroup(top, Pow128(k - 1));
    } else {
      assert b[..0] == [] && b[1..] == [] && Pow128(0) == 1;
    }
  }

  lemma FormOfRest(b: Bytes)
    requires |b| >= 2 && b[0] >= 128
    ensures VarintForm(b) <==> VarintForm(b[1..])
  {
    if VarintForm(b[1..]) {
      forall i | 0 <= i < |b| - 1 ensures b[i] >= 128 {
        assert i > 0 ==> b[1..][i - 1] >= 128;
      }
    }
  }

  /** What is written for a number has the form, and the number is its sum. */
  lemma {:induction false} WrittenForm(n: nat)
    ensures VarintForm(EncodeVarint(n)) && VarintSum(EncodeVarint(n)) == n
  {
    var b := EncodeVarint(n);
    SumOfFirst(b);
    if n >= 128 {
      WrittenForm(n / 128);
      assert b[1..] == EncodeVarint(n / 128);
      FormOfRest(b);
    }
  }

  /** Of all forms of a number it is the only one as short as that. */
  lemma {:induction false} WrittenIsShortest(b: Bytes)
    requires VarintForm(b)
    ensures var w := EncodeVarint(VarintSum(b));
      |w| <= |b| && (|w| == |b| ==> w == b)
  {
    hide VarintSum, Pow128;
    SumOfFirst(b);
    if |b| > 1 {
      FormOfRest(b);
      WrittenIsShortest(b[1..]);
      var n, rest := VarintSum(b), VarintSum(b[1..]);
      ModUnique(n, 128, rest, b[0] - 128);
      assert b == [b[0]] + b[1..];
    }
  }

  lemma {:induction false} ReadHasForm(buf: Bytes, max: nat)
    requires ReadVarint(buf, max).Good?
    ensures var b := buf[..ReadVarint(buf, max).len];
      VarintForm(b) && VarintSum(b) == ReadVarint(buf, max).value
    decreases max
  {
    hide VarintSum, Pow128;
    var b := buf[..ReadVarint(buf, max).len];
    SumOfFirst(b);
    if buf[0] >= 128 {
      ReadHasForm(buf[1..], max - 1);
      assert b[1..] == buf[1..][..|b| - 1];
      FormOfRest(b);
    }
  }

  lemma {:induction false} FormIsRead(b: Bytes, buf: Bytes, max: nat)
    requires b <= buf && |b| <= max && VarintForm(b)
    ensures ReadVarint(buf, max) == Good(VarintSum(b), |b|)
    decreases max
  {
    hide VarintSum, Pow128;
    SumOfFirst(b);
    if |b| > 1 {
      FormOfRest(b);
      FormIsRead(b[1..], buf[1..], max - 1);
    }
  }

  /** A varint is read exactly if the buffer starts with one that is not too long. */
  lemma ReadVarintIff(buf: Bytes, max: nat, v: nat, len: nat)
    ensures ReadVarint(buf, max) == Good(v, len)
      <==> len <= |buf| && len <= max && VarintForm(buf[..len]) && VarintSum(buf[..len]) == v
  {
    hide ReadVarint, VarintForm, VarintSum;
    if ReadVarint(buf, max).Good? {
      ReadHasForm(buf, max);
    }
    if len <= |buf| && len <= max && VarintForm(buf[..len]) {
      FormIsRead(buf[..len], buf, max);
    }
  }

  /** The number a tag or a 64-bit field is read as, and the two conversions of an `int32`. */
  lemma Int32OnTheWire(v: nat, i: int)
    requires -0x8000_0000 <= i < 0x8000_0000
    ensures -0x8000_0000 <= ToInt32(v) < 0x8000_0000 && (ToInt32(v) - v) % 0x1_0000_0000 == 0
    ensures 0 <= SignExtend(i) < 0x1_0000_0000_0000_0000 && (SignExtend(i) - i) % 0x1_0000_0000_0000_0000 == 0
  {
  }

  // ---------------------------------------------------------------- payloads, fields, messages

  /** The bytes of a payload of the given wire type. */
  ghost predicate PayloadForm(wireType: nat, p: Payload, b: Bytes) {
    match p
    case Varint(v) =>
      wireType == 0 && VarintForm(b) && |b| <= 10 && v == VarintSum(b) % 0x1_0000_0000_0000_0000
    case Fixed64(x) => wireType == 1 && |b| == 8 && x == b
    case Delimited(x) => wireType == 2 && |x| < 0x8000_0000 && exists n :: Prefixed(x, b, n)
    case Fixed32(x) => wireType == 5 && |b| == 4 && x == b
  }

  /** The first n bytes are the length of the rest. */
  ghost predicate Prefixed(x: Bytes, b: Bytes, n: int) {
    0 < n <= 5 && n <= |b| && VarintForm(b[..n]) && VarintSum(b[..n]) == |x| && x == b[n..]
  }

  /** The first n bytes are the tag of the field and the rest is its payload. */
  ghost predicate Tagged(f: Field, b: Bytes, n: int) {
    && 0 < n <= 5 && n <= |b| && VarintForm(b[..n])
    && var tag := VarintSum(b[..n]) % 0x1_0000_0000;
    && f.number == tag / 8 > 0
    && PayloadForm(tag % 8, f.payload, b[n..])
  }

  ghost predicate FieldForm(f: Field, b: Bytes) {
    exists n :: Tagged(f, b, n)
  }

  ghost predicate MessageForm(fs: seq<Field>, b: Bytes)
    decreases |fs|
  {
    if fs == [] then b == [] else exists n :: FirstField(fs, b, n) && MessageForm(fs[1..], b[n..])
  }

  ghost predicate FirstField(fs: seq<Field>, b: Bytes, n: int)
    requires fs != []
  {
    0 <= n <= |b| && FieldForm(fs[0], b[..n])
  }

  lemma ReadBytesIff(buf: Bytes, x: Bytes, len: nat)
    ensures ReadBytes(buf) == Good(x, len)
      <==> len <= |buf| && |x| < 0x8000_0000 && exists n :: Prefixed(x, buf[..len], n)
  {
    hide ReadVarint, VarintForm, VarintSum;
    if ReadBytes(buf) == Good(x, len) {
      var n := ReadVarint(buf, 5).len;
      ReadVarintIff(buf, 5, |x|, n);
      assert buf[..len][..n] == buf[..n] && buf[..len][n..] == buf[n..len];
      assert Prefixed(x, buf[..len], n);
    }
    if len <= |buf| && |x| < 0x8000_0000 && exists n :: Prefixed(x, buf[..len], n) {
      var n :| Prefixed(x, buf[..len], n);
      assert buf[..len][..n] == buf[..n] && buf[..len][n..] == buf[n..len];
      ReadVarintIff(buf, 5, |x|, n);
    }
  }

  lemma ReadVarint64Iff(buf: Bytes, v: nat, len: nat)
    ensures ReadVarint64(buf) == Good(v, len)
      <==> len <= |buf| && PayloadForm(0, Varint(v), buf[..len])
  {
    hide ReadVarint, VarintForm, VarintSum;
    if ReadVarint(buf, 10).Good? {
      var r := ReadVarint(buf, 10);
      ReadVarintIff(buf, 10, r.value, r.len);
    }
    if len <= |buf| {
      ReadVarintIff(buf, 10, VarintSum(buf[..len]), len);
    }
  }

  lemma ReadPayloadIff(wireType: nat, buf: Bytes, p: Payload, len: nat)
    ensures ReadPayload(wireType, buf) == Good(p, len)
      <==> len <= |buf| && PayloadForm(wireType, p, buf[..len])
  {
    hide ReadVarint64, ReadBytes, VarintForm, VarintSum, Prefixed;
    match p
    case Varint(v) => ReadVarint64Iff(buf, v, len);
    case Delimited(x) => ReadBytesIff(buf, x, len);
    case Fixed64(_) =>
    case Fixed32(_) =>
  }

  lemma TagOfField(buf: Bytes, f: Field, len: nat, n: nat)
    requires len <= |buf| && Tagged(f, buf[..len], n)
    ensures ReadField(buf) == Good(f, len)
  {
    hide ReadVarint, ReadPayload, PayloadForm, VarintForm, VarintSum;
    var sum := VarintSum(buf[..n]);
    assert buf[..len][..n] == buf[..n] && buf[..len][n..] == buf[n..len] == buf[n..][..len - n];
    ReadVarintIff(buf, 5, sum, n);
    ReadPayloadIff(sum % 0x1_0000_0000 % 8, buf[n..], f.payload, len - n);
  }

  /** A field is read exactly if the buffer starts with one. */
  lemma ReadFieldIff(buf: Bytes, f: Field, len: nat)
    ensures ReadField(buf) == Good(f, len) <==> len <= |buf| && FieldForm(f, buf[..len])
  {
    hide ReadVarint, ReadPayload, PayloadForm, VarintForm, VarintSum;
    if ReadField(buf) == Good(f, len) {
      var t := ReadVarint(buf, 5);
      ReadVarintIff(buf, 5, t.value, t.len);
      ReadPayloadIff(t.value % 0x1_0000_0000 % 8, buf[t.len..], f.payload, len - t.len);
      var b := buf[..len];
      assert b[..t.len] == buf[..t.len] && b[t.len..] == buf[t.len..][..len - t.len];
      assert Tagged(f, b, t.len);
    }
    if len <= |buf| && FieldForm(f, buf[..len]) {
      var n :| Tagged(f, buf[..len], n);
      TagOfField(buf, f, len, n);
    }
  }

  /** A message is read exactly if the buffer is, from one end to the other, fields one after the other. */
  lemma {:induction false} ReadFieldsIff(buf: Bytes, fs: seq<Field>)
    ensures ReadFields(buf) == Some(fs) <==> MessageForm(fs, buf)
    decreases |fs|
  {
    hide ReadField, FieldForm;
    if fs != [] && ReadFields(buf) == Some(fs) {
      var f := ReadField(buf);
      ReadFieldIff(buf, f.value, f.len);
      ReadFieldsIff(buf[f.len..], fs[1..]);
      assert FirstField(fs, buf, f.len);
    }
    if fs != [] && MessageForm(fs, buf) {
      var n :| FirstField(fs, buf, n) && MessageForm(fs[1..], buf[n..]);
      ReadFieldIff(buf, fs[0], n);
      ReadFieldsIff(buf[n..], fs[1..]);
      assert fs == [fs[0]] + fs[1..];
    }
  }

  /** What is written for a field or a message has its form. */
  lemma WrittenFields(fs: seq<Field>)
    requires forall f <- fs :: ValidField(f)
    ensures MessageForm(fs, EncodeFields(fs))
  {
    FieldsRoundTrip(fs);
    ReadFieldsIff(EncodeFields(fs), fs);
  }
}
