/**
 How much longer a message can get when it is read and written again. Encodings need not be
 minimal, so writing usually shortens; only a negative number that was sent with five bytes grows,
 to ten, and the length prefixes around it with it.
 */
module AddressBookGrowth {
  import opened Wire
  import opened AddressBook
  import opened AddressBookLaws

  /** The length of a field when it is written. */
  function WrittenSize(f: Field): nat {
    VarintSize(TagOf(f)) + PayloadSize(f.payload)
  }

  lemma {:induction false} VarintSizeMonotone(a: nat, b: nat)
    requires a <= b
    ensures VarintSize(a) <= VarintSize(b)
  {
    if a >= 128 {
      VarintSizeMonotone(a / 128, b / 128);
    }
  }

  lemma VarintSizeOfDouble(n: nat, m: nat)
    requires n <= 2 * m
    ensures VarintSize(n) <= VarintSize(m) + 1
  {
    if n >= 128 {
      VarintSizeMonotone(n, 128 * m);
      assert (128 * m) / 128 == m;
    }
  }

  /** No varint is written with more bytes than it was read from. */
  lemma {:induction false} VarintShrinks(buf: Bytes, max: nat)
    requires ReadVarint(buf, max).Good?
    ensures VarintSize(ReadVarint(buf, max).value) <= ReadVarint(buf, max).len
    decreases max
  {
    if buf[0] >= 128 {
      VarintShrinks(buf[1..], max - 1);
      assert ReadVarint(buf, max).value / 128 == ReadVarint(buf[1..], max - 1).value;
    }
  }

  lemma PayloadShrinks(wireType: nat, buf: Bytes)
    requires ReadPayload(wireType, buf).Good?
    ensures PayloadSize(ReadPayload(wireType, buf).value) <= ReadPayload(wireType, buf).len
  {
    hide ReadVarint, VarintSize;
    if wireType == 0 {
      VarintShrinks(buf, 10);
      VarintSizeMonotone(ReadVarint64(buf).value, ReadVarint(buf, 10).value);
    } else if wireType == 2 {
      VarintShrinks(buf, 5);
    }
  }

  lemma FieldShrinks(buf: Bytes)
    requires ReadField(buf).Good?
    ensures WrittenSize(ReadField(buf).value) <= ReadField(buf).len
  {
    hide ReadVarint, VarintSize, ReadPayload, PayloadSize;
    var tag := ReadTag(buf);
    VarintShrinks(buf, 5);
    VarintSizeMonotone(tag.value, ReadVarint(buf, 5).value);
    PayloadShrinks(tag.value % 8, buf[tag.len..]);
  }

  /** All fields of a message, written again, are no longer than what they were read from. */
  lemma {:induction false} FieldsShrink(buf: Bytes)
    requires ReadFields(buf).Some?
    ensures UnknownSize(ReadFields(buf).value) <= |buf|
    decreases |buf|
  {
    hide ReadField, WrittenSize, PayloadSize;
    if buf != [] {
      var f, len := ReadField(buf).value, ReadField(buf).len;
      FieldShrinks(buf);
      FieldsShrink(buf[len..]);
      UnknownSizeConcat([f], ReadFields(buf[len..]).value);
      WrittenAlone(f);
    }
  }

  lemma WrittenAlone(f: Field)
    ensures UnknownSize([f]) == WrittenSize(f)
  {
    assert [f][1..] == [];
  }

  lemma OneMoreUnknown(fs: seq<Field>, f: Field)
    ensures UnknownSize(fs + [f]) == UnknownSize(fs) + WrittenSize(f)
  {
    UnknownSizeConcat(fs, [f]);
    WrittenAlone(f);
  }

  /** A number cut to 32 bits and written again takes at most twice its bytes, tag included. */
  lemma Int32AtMostDoubles(v: nat)
    ensures 1 + PayloadSize(Varint(SignExtend(ToInt32(v)))) <= 2 * (1 + VarintSize(v))
  {
    var i := ToInt32(v);
    if i < 0 {
      NegativeIsTenBytes(i);
      assert v >= 0x8000_0000;
      VarintSizeMonotone(0x8000_0000, v);
      assert VarintSize(0x8000_0000) == 5;
    } else {
      VarintSizeMonotone(i, v);
    }
  }

  // ---------------------------------------------------------------- phone numbers

  lemma ApplyPhoneGrowth(p: Phone, f: Field)
    ensures PhoneByteSize(ApplyPhone(p, f)) <= PhoneByteSize(p) + 2 * WrittenSize(f)
  {
    hide UnknownSize, ToInt32, SignExtend;
    if f.number == 2 && f.payload.Varint? {
      Int32AtMostDoubles(f.payload.v);
      OneMoreUnknown(p.unknown, Field(2, Varint(SignExtend(ToInt32(f.payload.v)))));
    } else {
      OneMoreUnknown(p.unknown, f);
    }
  }

  lemma {:induction false} ApplyPhoneAllGrowth(p: Phone, fs: seq<Field>)
    ensures PhoneByteSize(ApplyPhoneAll(p, fs)) <= PhoneByteSize(p) + 2 * UnknownSize(fs)
    decreases |fs|
  {
    hide PhoneByteSize, ApplyPhone;
    if fs != [] {
      ApplyPhoneGrowth(p, fs[0]);
      ApplyPhoneAllGrowth(ApplyPhone(p, fs[0]), fs[1..]);
    }
  }

  lemma PhoneGrowth(buf: Bytes)
    requires ParsePhone(NO_PHONE, buf).Some?
    ensures PhoneByteSize(ParsePhone(NO_PHONE, buf).value) <= 2 * |buf|
  {
    hide ReadFields, ApplyPhoneAll;
    FieldsShrink(buf);
    ApplyPhoneAllGrowth(NO_PHONE, ReadFields(buf).value);
  }

  // ---------------------------------------------------------------- persons

  /** A message that at most doubles, with its tag and its length, at most doubles. */
  lemma NestedAtMostDoubles(n: nat, m: nat)
    requires n <= 2 * m
    ensures 1 + MessageSize(n) <= 2 * (1 + VarintSize(m) + m)
  {
    VarintSizeOfDouble(n, m);
  }

  lemma {:induction false} OneMorePhone(phones: seq<Phone>, ph: Phone)
    ensures PhonesSize(phones + [ph]) == PhonesSize(phones) + 1 + MessageSize(PhoneByteSize(ph))
  {
    hide PhoneByteSize, MessageSize;
    if phones == [] {
      assert phones + [ph] == [ph] && [ph][1..] == [];
    } else {
      assert (phones + [ph])[1..] == phones[1..] + [ph];
      OneMorePhone(phones[1..], ph);
    }
  }

  lemma ApplyPersonGrowth(p: Person, f: Field)
    requires ApplyPerson(p, f).Some?
    ensures PersonByteSize(ApplyPerson(p, f).value) <= PersonByteSize(p) + 2 * WrittenSize(f)
  {
    hide UnknownSize, PhonesSize, ParsePhone, PhoneByteSize, MessageSize, ToInt32, SignExtend;
    if f.number == 4 && f.payload.Delimited? {
      var ph := ParsePhone(NO_PHONE, f.payload.bytes).value;
      PhoneGrowth(f.payload.bytes);
      OneMorePhone(p.phones, ph);
      NestedAtMostDoubles(PhoneByteSize(ph), |f.payload.bytes|);
    } else if f.number == 2 && f.payload.Varint? {
      Int32AtMostDoubles(f.payload.v);
      Int32SizeIsVarintSize(ToInt32(f.payload.v));
    } else {
      OneMoreUnknown(p.unknown, f);
    }
  }

  lemma {:induction false} ApplyPersonAllGrowth(p: Person, fs: seq<Field>)
    requires ApplyPersonAll(p, fs).Some?
    ensures PersonByteSize(ApplyPersonAll(p, fs).value) <= PersonByteSize(p) + 2 * UnknownSize(fs)
    decreases |fs|
  {
    hide PersonByteSize, ApplyPerson;
    if fs != [] {
      ApplyPersonGrowth(p, fs[0]);
      ApplyPersonAllGrowth(ApplyPerson(p, fs[0]).value, fs[1..]);
    }
  }

  lemma PersonGrowth(buf: Bytes)
    requires ParsePerson(NO_PERSON, buf).Some?
    ensures PersonByteSize(ParsePerson(NO_PERSON, buf).value) <= 2 * |buf|
  {
    hide ReadFields, ApplyPersonAll;
    FieldsShrink(buf);
    ApplyPersonAllGrowth(NO_PERSON, ReadFields(buf).value);
  }

  // ---------------------------------------------------------------- address books

  lemma {:induction false} OneMorePerson(people: seq<Person>, p: Person)
    ensures PeopleSize(people + [p]) == PeopleSize(people) + 1 + MessageSize(PersonByteSize(p))
  {
    hide PersonByteSize, MessageSize;
    if people == [] {
      assert people + [p] == [p] && [p][1..] == [];
    } else {
      assert (people + [p])[1..] == people[1..] + [p];
      OneMorePerson(people[1..], p);
    }
  }

  lemma ApplyBookGrowth(b: Book, f: Field)
    requires ApplyBook(b, f).Some?
    ensures BookByteSize(ApplyBook(b, f).value) <= BookByteSize(b) + 2 * WrittenSize(f)
  {
    hide UnknownSize, PeopleSize, ParsePerson, PersonByteSize, MessageSize;
    if f.number == 1 && f.payload.Delimited? {
      var p := ParsePerson(NO_PERSON, f.payload.bytes).value;
      PersonGrowth(f.payload.bytes);
      OneMorePerson(b.people, p);
      NestedAtMostDoubles(PersonByteSize(p), |f.payload.bytes|);
    } else {
      OneMoreUnknown(b.unknown, f);
    }
  }

  lemma {:induction false} ApplyBookAllGrowth(b: Book, fs: seq<Field>)
    requires ApplyBookAll(b, fs).Some?
    ensures BookByteSize(ApplyBookAll(b, fs).value) <= BookByteSize(b) + 2 * UnknownSize(fs)
    decreases |fs|
  {
    hide BookByteSize, ApplyBook;
    if fs != [] {
      ApplyBookGrowth(b, fs[0]);
      ApplyBookAllGrowth(ApplyBook(b, fs[0]).value, fs[1..]);
    }
  }

  /** Reading and writing again at most doubles the length, at every nesting. */
  lemma RewritingAtMostDoubles(buf: Bytes)
    requires ParseBook(NO_BOOK, buf).Some?
    ensures forall p <- ParseBook(NO_BOOK, buf).value.people :: InRange(p)
    ensures |SerializeBook(ParseBook(NO_BOOK, buf).value)| <= 2 * |buf|
  {
    hide ReadFields, ApplyBookAll, SerializeBook, InRange;
    FieldsShrink(buf);
    ApplyBookAllGrowth(NO_BOOK, ReadFields(buf).value);
    EmptyBookWf();
    ParseBookWf(NO_BOOK, buf);
    BookInRange(ParseBook(NO_BOOK, buf).value);
    BookSizeIsLength(ParseBook(NO_BOOK, buf).value);
  }

  /** Every byte string below 1 GiB that parses reads the same after being written again. */
  lemma ParseSerializeParse(buf: Bytes)
    requires ParseBook(NO_BOOK, buf).Some? && |buf| <= INT_MAX / 2
    ensures forall p <- ParseBook(NO_BOOK, buf).value.people :: InRange(p)
    ensures ParseBook(NO_BOOK, SerializeBook(ParseBook(NO_BOOK, buf).value)) == ParseBook(NO_BOOK, buf)
  {
    hide ParseBook, SerializeBook, InRange;
    RewritingAtMostDoubles(buf);
    ReparseIsStable(buf);
  }
}
