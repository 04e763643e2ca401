/** Round trip, concatenation as merging, and sizes of the address book messages. */
module AddressBookLaws {
  import opened Arith64
  import opened Wire
  import opened AddressBook

  // ---------------------------------------------------------------- folds

  lemma {:induction false} PhoneFoldConcat(p: Phone, a: seq<Field>, b: seq<Field>)
    ensures ApplyPhoneAll(p, a + b) == ApplyPhoneAll(ApplyPhoneAll(p, a), b)
    decreases |a|
  {
    hide ApplyPhone;
    if a == [] {
      assert a + b == b;
    } else {
      assert (a + b)[0] == a[0] && (a + b)[1..] == a[1..] + b;
      PhoneFoldConcat(ApplyPhone(p, a[0]), a[1..], b);
    }
  }

  lemma {:induction false} PersonFoldConcat(p: Person, a: seq<Field>, b: seq<Field>)
    requires ApplyPersonAll(p, a).Some?
    ensures ApplyPersonAll(p, a + b) == ApplyPersonAll(ApplyPersonAll(p, a).value, b)
    decreases |a|
  {
    hide ApplyPerson;
    if a == [] {
      assert a + b == b;
    } else {
      assert (a + b)[0] == a[0] && (a + b)[1..] == a[1..] + b;
      PersonFoldConcat(ApplyPerson(p, a[0]).value, a[1..], b);
    }
  }

  lemma {:induction false} BookFoldConcat(m: Book, a: seq<Field>, b: seq<Field>)
    requires ApplyBookAll(m, a).Some?
    ensures ApplyBookAll(m, a + b) == ApplyBookAll(ApplyBookAll(m, a).value, b)
    decreases |a|
  {
    hide ApplyBook;
    if a == [] {
      assert a + b == b;
    } else {
      assert (a + b)[0] == a[0] && (a + b)[1..] == a[1..] + b;
      BookFoldConcat(ApplyBook(m, a[0]).value, a[1..], b);
    }
  }

  // ---------------------------------------------------------------- sizes of parts

  /** A field is no longer than the message it is in, so it can be read back if the message can. */
  predicate ValidButLength(f: Field) {
    && 0 < f.number < 0x2000_0000
    && match f.payload
       case Varint(v) => v < TWO_64
       case Fixed64(b) => |b| == 8
       case Delimited(b) => true
       case Fixed32(b) => |b| == 4
  }

  lemma {:induction false} PartsFit(fs: seq<Field>)
    requires |EncodeFields(fs)| <= INT_MAX && forall f <- fs :: ValidButLength(f)
    ensures forall f <- fs :: ValidField(f)
    ensures forall f <- fs :: f.payload.Delimited? ==> |f.payload.bytes| <= |EncodeFields(fs)|
  {
    if fs != [] {
      hide EncodeVarint, TagOf;
      PartsFit(fs[1..]);
      assert |EncodeFields(fs)| == |EncodeField(fs[0])| + |EncodeFields(fs[1..])|;
      forall f | f in fs ensures ValidField(f) && (f.payload.Delimited? ==> |f.payload.bytes| <= |EncodeFields(fs)|) {
        assert f == fs[0] || f in fs[1..];
      }
    }
  }

  // ---------------------------------------------------------------- round trip

  lemma {:induction false} UnknownOfPhone(p: Phone, fs: seq<Field>)
    requires forall f <- fs :: KeptByPhone(f)
    ensures ApplyPhoneAll(p, fs) == p.(unknown := p.unknown + fs)
    decreases |fs|
  {
    if fs == [] {
      assert p.unknown + fs == p.unknown;
    } else {
      assert KeptByPhone(fs[0]);
      assert (p.unknown + [fs[0]]) + fs[1..] == p.unknown + fs;
      UnknownOfPhone(ApplyPhone(p, fs[0]), fs[1..]);
    }
  }

  lemma PhoneFieldsRebuild(p: Phone)
    requires WfPhone(p)
    ensures ApplyPhoneAll(NO_PHONE, PhoneFields(p)) == p
    ensures forall f <- PhoneFields(p) :: ValidButLength(f)
  {
    var a := if p.hasNumber then [Field(1, Delimited(p.number))] else [];
    var b := if p.hasType then [Field(2, Varint(SignExtend(p.phoneType)))] else [];
    SignExtendToInt32(p.phoneType);
    PhoneFoldConcat(NO_PHONE, a + b, p.unknown);
    PhoneFoldConcat(NO_PHONE, a, b);
    var afterA := ApplyPhoneAll(NO_PHONE, a);
    assert afterA == Phone(p.hasNumber, p.number, false, HOME, []);
    assert ApplyPhoneAll(afterA, b) == Phone(p.hasNumber, p.number, p.hasType, p.phoneType, []);
    UnknownOfPhone(Phone(p.hasNumber, p.number, p.hasType, p.phoneType, []), p.unknown);
  }

  /** Parsing undoes serializing, for every phone number below the size limit of the library. */
  lemma PhoneRoundTrip(p: Phone)
    requires WfPhone(p) && |SerializePhone(p)| <= INT_MAX
    ensures ParsePhone(NO_PHONE, SerializePhone(p)) == Some(p)
  {
    hide ReadFields, EncodeFields, ApplyPhoneAll, PhoneFields, ValidField;
    PhoneFieldsRebuild(p);
    PartsFit(PhoneFields(p));
    FieldsRoundTrip(PhoneFields(p));
  }

  lemma {:induction false} UnknownOfPerson(p: Person, fs: seq<Field>)
    requires forall f <- fs :: KeptByPerson(f)
    ensures ApplyPersonAll(p, fs) == Some(p.(unknown := p.unknown + fs))
    decreases |fs|
  {
    if fs == [] {
      assert p.unknown + fs == p.unknown;
    } else {
      assert KeptByPerson(fs[0]);
      assert (p.unknown + [fs[0]]) + fs[1..] == p.unknown + fs;
      UnknownOfPerson(ApplyPerson(p, fs[0]).value, fs[1..]);
    }
  }

  lemma {:induction false} PhonesRebuild(p: Person, phones: seq<Phone>)
    requires forall ph <- phones :: WfPhone(ph) && PhoneTypeIsValid(ph.phoneType) && |SerializePhone(ph)| <= INT_MAX
    ensures ApplyPersonAll(p, PhonesFields(phones)) == Some(p.(phones := p.phones + phones))
    decreases |phones|
  {
    hide WfPhone, SerializePhone, ParsePhone;
    if phones == [] {
      assert p.phones + phones == p.phones;
    } else {
      var fs := PhonesFields(phones);
      PhoneRoundTrip(phones[0]);
      assert fs[0] == Field(4, Delimited(SerializePhone(phones[0]))) && fs[1..] == PhonesFields(phones[1..]);
      assert (p.phones + [phones[0]]) + phones[1..] == p.phones + phones;
      PhonesRebuild(p.(phones := p.phones + [phones[0]]), phones[1..]);
    }
  }

  lemma {:induction false} PhonesFieldsShape(phones: seq<Phone>)
    requires forall ph <- phones :: PhoneTypeIsValid(ph.phoneType)
    ensures |PhonesFields(phones)| == |phones|
    ensures forall i | 0 <= i < |phones| :: PhonesFields(phones)[i] == Field(4, Delimited(SerializePhone(phones[i])))
  {
    hide SerializePhone;
    if phones != [] {
      PhonesFieldsShape(phones[1..]);
    }
  }

  /** The fields before the phones, and what they make of an empty person. */
  lemma PersonHeadRebuild(p: Person)
    requires WfPerson(p) && InRange(p)
    ensures ApplyPersonAll(NO_PERSON, HeadFields(p)) == Some(p.(phones := [], unknown := []))
    ensures forall f <- HeadFields(p) :: ValidButLength(f)
  {
    hide ParsePhone, WfPhone, KeptByPerson;
    var a := if p.hasName then [Field(1, Delimited(p.name))] else [];
    var b := if p.hasId then [Field(2, Varint(SignExtend(p.id)))] else [];
    var c := if p.hasEmail then [Field(3, Delimited(p.email))] else [];
    SignExtendToInt32(p.id);
    var pa := NO_PERSON.(hasName := p.hasName, name := p.name);
    var pb := pa.(hasId := p.hasId, id := p.id);
    assert ApplyPersonAll(NO_PERSON, a) == Some(pa);
    assert ApplyPersonAll(pa, b) == Some(pb);
    assert ApplyPersonAll(pb, c) == Some(p.(phones := [], unknown := []));
    PersonFoldConcat(NO_PERSON, a, b);
    PersonFoldConcat(NO_PERSON, a + b, c);
  }

  lemma PersonFieldsValid(p: Person)
    requires WfPerson(p)
    ensures InRange(p) && forall f <- PersonFields(p) :: ValidButLength(f)
  {
    hide SerializePhone, KeptByPhone, HeadFields;
    assert InRange(p);
    PersonHeadRebuild(p);
    PhonesFieldsShape(p.phones);
  }

  lemma PersonPhonesFit(p: Person)
    requires WfPerson(p) && InRange(p) && |SerializePerson(p)| <= INT_MAX
    ensures forall ph <- p.phones :: |SerializePhone(ph)| <= INT_MAX
  {
    hide SerializePhone, WfPerson, EncodeFields;
    PersonFieldsValid(p);
    PartsFit(PersonFields(p));
    PhonesFieldsShape(p.phones);
    forall i | 0 <= i < |p.phones| ensures |SerializePhone(p.phones[i])| <= INT_MAX {
      assert PhonesFields(p.phones)[i] in PersonFields(p);
    }
  }

  lemma PersonFieldsRebuild(p: Person)
    requires WfPerson(p) && InRange(p) && |SerializePerson(p)| <= INT_MAX
    ensures ApplyPersonAll(NO_PERSON, PersonFields(p)) == Some(p)
  {
    hide SerializePhone, ApplyPersonAll, EncodeFields, HeadFields;
    PersonPhonesFit(p);
    PersonHeadRebuild(p);
    var head := HeadFields(p);
    PersonFoldConcat(NO_PERSON, head, PhonesFields(p.phones));
    PhonesRebuild(p.(phones := [], unknown := []), p.phones);
    PersonFoldConcat(NO_PERSON, head + PhonesFields(p.phones), p.unknown);
    UnknownOfPerson(p.(unknown := []), p.unknown);
    assert [] + p.phones == p.phones && [] + p.unknown == p.unknown;
    assert p.(phones := [], unknown := []).(phones := p.phones) == p.(unknown := []);
  }

  lemma PersonRoundTrip(p: Person)
    requires WfPerson(p) && InRange(p) && |SerializePerson(p)| <= INT_MAX
    ensures ParsePerson(NO_PERSON, SerializePerson(p)) == Some(p)
  {
    hide ReadFields, EncodeFields, ApplyPersonAll, PersonFields, WfPerson, InRange, ValidField;
    PersonFieldsValid(p);
    PersonFieldsRebuild(p);
    PartsFit(PersonFields(p));
    FieldsRoundTrip(PersonFields(p));
  }

  lemma {:induction false} UnknownOfBook(b: Book, fs: seq<Field>)
    requires forall f <- fs :: KeptByBook(f)
    ensures ApplyBookAll(b, fs) == Some(b.(unknown := b.unknown + fs))
    decreases |fs|
  {
    if fs == [] {
      assert b.unknown + fs == b.unknown;
    } else {
      assert KeptByBook(fs[0]);
      assert (b.unknown + [fs[0]]) + fs[1..] == b.unknown + fs;
      UnknownOfBook(ApplyBook(b, fs[0]).value, fs[1..]);
    }
  }

  lemma {:induction false} PeopleRebuild(b: Book, people: seq<Person>)
    requires forall p <- people :: WfPerson(p) && InRange(p) && |SerializePerson(p)| <= INT_MAX
    ensures ApplyBookAll(b, PeopleFields(people)) == Some(b.(people := b.people + people))
    decreases |people|
  {
    hide WfPerson, SerializePerson, ParsePerson, InRange;
    if people == [] {
      assert b.people + people == b.people;
    } else {
      var fs := PeopleFields(people);
      PersonRoundTrip(people[0]);
      assert fs[0] == Field(1, Delimited(SerializePerson(people[0]))) && fs[1..] == PeopleFields(people[1..]);
      assert (b.people + [people[0]]) + people[1..] == b.people + people;
      PeopleRebuild(b.(people := b.people + [people[0]]), people[1..]);
    }
  }

  lemma {:induction false} PeopleFieldsShape(people: seq<Person>)
    requires forall p <- people :: InRange(p)
    ensures |PeopleFields(people)| == |people|
    ensures forall i | 0 <= i < |people| :: PeopleFields(people)[i] == Field(1, Delimited(SerializePerson(people[i])))
  {
    hide SerializePerson, InRange;
    if people != [] {
      PeopleFieldsShape(people[1..]);
    }
  }

  lemma BookInRange(b: Book)
    requires WfBook(b)
    ensures forall p <- b.people :: InRange(p)
  {
  }

  lemma BookPeopleFit(b: Book)
    requires WfBook(b) && (forall p <- b.people :: InRange(p)) && |SerializeBook(b)| <= INT_MAX
    ensures forall f <- BookFields(b) :: ValidField(f)
    ensures forall p <- b.people :: |SerializePerson(p)| <= INT_MAX
  {
    hide SerializePerson, WfPerson, InRange, EncodeFields;
    PeopleFieldsShape(b.people);
    forall f | f in BookFields(b) ensures ValidButLength(f) {}
    PartsFit(BookFields(b));
    forall i | 0 <= i < |b.people| ensures |SerializePerson(b.people[i])| <= INT_MAX {
      assert PeopleFields(b.people)[i] in BookFields(b);
    }
  }

  /** Parsing undoes serializing, for every address book below the size limit of the library. */
  lemma BookRoundTrip(b: Book)
    requires WfBook(b) && (forall p <- b.people :: InRange(p)) && |SerializeBook(b)| <= INT_MAX
    ensures ParseBook(NO_BOOK, SerializeBook(b)) == Some(b)
  {
    hide ReadFields, EncodeFields, ApplyBookAll, InRange, WfPerson, ValidField, SerializePerson;
    BookPeopleFit(b);
    FieldsRoundTrip(BookFields(b));
    PeopleRebuild(NO_BOOK, b.people);
    BookFoldConcat(NO_BOOK, PeopleFields(b.people), b.unknown);
    UnknownOfBook(Book(b.people, []), b.unknown);
    assert [] + b.people == b.people && [] + b.unknown == b.unknown;
  }

  /** Every byte string that parses gives a message that survives being written and read again. */
  lemma ReparseIsStable(buf: Bytes)
    requires ParseBook(NO_BOOK, buf).Some?
    ensures var b := ParseBook(NO_BOOK, buf).value;
      && WfBook(b) && (forall p <- b.people :: InRange(p))
      && (|SerializeBook(b)| <= INT_MAX ==> ParseBook(NO_BOOK, SerializeBook(b)) == Some(b))
  {
    hide ParseBook, SerializeBook;
    EmptyBookWf();
    ParseBookWf(NO_BOOK, buf);
    var b := ParseBook(NO_BOOK, buf).value;
    BookInRange(b);
    if |SerializeBook(b)| <= INT_MAX {
      BookRoundTrip(b);
    }
  }

  lemma EmptyBookWf()
    ensures WfBook(NO_BOOK)
  {
  }

  /** The round trip holds of exactly the messages that parsing can produce. */
  lemma RoundTripIff(b: Book)
    requires (forall p <- b.people :: InRange(p)) && |SerializeBook(b)| <= INT_MAX
    ensures ParseBook(NO_BOOK, SerializeBook(b)) == Some(b) <==> WfBook(b)
  {
    hide ParseBook, SerializeBook;
    if WfBook(b) {
      BookRoundTrip(b);
    }
    if ParseBook(NO_BOOK, SerializeBook(b)) == Some(b) {
      EmptyBookWf();
      ParseBookWf(NO_BOOK, SerializeBook(b));
    }
  }

  // ---------------------------------------------------------------- concatenation is merging

  lemma {:induction false} MergeFoldPhone(m: Phone, x: Phone, fs: seq<Field>)
    ensures ApplyPhoneAll(MergePhone(m, x), fs) == MergePhone(m, ApplyPhoneAll(x, fs))
    decreases |fs|
  {
    if fs != [] {
      var f := fs[0];
      assert ApplyPhone(MergePhone(m, x), f) == MergePhone(m, ApplyPhone(x, f)) by {
        MergeStepPhone(m, x, f);
      }
      MergeFoldPhone(m, ApplyPhone(x, f), fs[1..]);
    }
  }

  lemma MergeStepPhone(m: Phone, x: Phone, f: Field)
    ensures ApplyPhone(MergePhone(m, x), f) == MergePhone(m, ApplyPhone(x, f))
  {
    var v := ToInt32(if f.payload.Varint? then f.payload.v else 0);
    assert (m.unknown + x.unknown) + [f] == m.unknown + (x.unknown + [f]);
    var g := Field(2, Varint(SignExtend(v)));
    assert (m.unknown + x.unknown) + [g] == m.unknown + (x.unknown + [g]);
  }

  lemma MergeStepPerson(m: Person, x: Person, f: Field)
    ensures ApplyPerson(x, f).None? <==> ApplyPerson(MergePerson(m, x), f).None?
    ensures ApplyPerson(x, f).Some? ==>
      ApplyPerson(MergePerson(m, x), f) == Some(MergePerson(m, ApplyPerson(x, f).value))
  {
    hide ParsePhone;
    var phone := ParsePhone(NO_PHONE, if f.payload.Delimited? then f.payload.bytes else []);
    assert (m.unknown + x.unknown) + [f] == m.unknown + (x.unknown + [f]);
    if phone.Some? {
      assert (m.phones + x.phones) + [phone.value] == m.phones + (x.phones + [phone.value]);
    }
  }

  lemma {:induction false} MergeFoldPerson(m: Person, x: Person, fs: seq<Field>)
    ensures ApplyPersonAll(x, fs).None? <==> ApplyPersonAll(MergePerson(m, x), fs).None?
    ensures ApplyPersonAll(x, fs).Some? ==>
      ApplyPersonAll(MergePerson(m, x), fs) == Some(MergePerson(m, ApplyPersonAll(x, fs).value))
    decreases |fs|
  {
    hide ApplyPerson, MergePerson;
    if fs != [] {
      MergeStepPerson(m, x, fs[0]);
      if ApplyPerson(x, fs[0]).Some? {
        MergeFoldPerson(m, ApplyPerson(x, fs[0]).value, fs[1..]);
      }
    }
  }

  lemma MergeStepBook(m: Book, x: Book, f: Field)
    ensures ApplyBook(x, f).None? <==> ApplyBook(MergeBook(m, x), f).None?
    ensures ApplyBook(x, f).Some? ==> ApplyBook(MergeBook(m, x), f) == Some(MergeBook(m, ApplyBook(x, f).value))
  {
    hide ParsePerson;
    var person := ParsePerson(NO_PERSON, if f.payload.Delimited? then f.payload.bytes else []);
    assert (m.unknown + x.unknown) + [f] == m.unknown + (x.unknown + [f]);
    if person.Some? {
      assert (m.people + x.people) + [person.value] == m.people + (x.people + [person.value]);
    }
  }

  lemma {:induction false} MergeFoldBook(m: Book, x: Book, fs: seq<Field>)
    ensures ApplyBookAll(x, fs).None? <==> ApplyBookAll(MergeBook(m, x), fs).None?
    ensures ApplyBookAll(x, fs).Some? ==>
      ApplyBookAll(MergeBook(m, x), fs) == Some(MergeBook(m, ApplyBookAll(x, fs).value))
    decreases |fs|
  {
    hide ApplyBook, MergeBook;
    if fs != [] {
      MergeStepBook(m, x, fs[0]);
      if ApplyBook(x, fs[0]).Some? {
        MergeFoldBook(m, ApplyBook(x, fs[0]).value, fs[1..]);
      }
    }
  }

  lemma MergeNothing(ph: Phone, p: Person, b: Book)
    ensures MergePhone(ph, NO_PHONE) == ph && MergePerson(p, NO_PERSON) == p && MergeBook(b, NO_BOOK) == b
  {
    assert ph.unknown + [] == ph.unknown && p.unknown + [] == p.unknown && p.phones + [] == p.phones;
    assert b.people + [] == b.people && b.unknown + [] == b.unknown;
  }

  /** Parsing into a message is merging what was parsed into it. */
  lemma ParseIntoIsMerge(m: Book, buf: Bytes)
    ensures ParseBook(m, buf) ==
      if ParseBook(NO_BOOK, buf).None? then None else Some(MergeBook(m, ParseBook(NO_BOOK, buf).value))
  {
    hide ReadFields, ApplyBookAll;
    MergeNothing(NO_PHONE, NO_PERSON, m);
    if ReadFields(buf).Some? {
      MergeFoldBook(m, NO_BOOK, ReadFields(buf).value);
    }
  }

  lemma ParseIntoPersonIsMerge(m: Person, buf: Bytes)
    ensures ParsePerson(m, buf) ==
      if ParsePerson(NO_PERSON, buf).None? then None else Some(MergePerson(m, ParsePerson(NO_PERSON, buf).value))
  {
    hide ReadFields, ApplyPersonAll;
    MergeNothing(NO_PHONE, m, NO_BOOK);
    if ReadFields(buf).Some? {
      MergeFoldPerson(m, NO_PERSON, ReadFields(buf).value);
    }
  }

  lemma ParseIntoPhoneIsMerge(m: Phone, buf: Bytes)
    ensures ParsePhone(m, buf) ==
      if ParsePhone(NO_PHONE, buf).None? then None else Some(MergePhone(m, ParsePhone(NO_PHONE, buf).value))
  {
    hide ReadFields, ApplyPhoneAll;
    MergeNothing(m, NO_PERSON, NO_BOOK);
    if ReadFields(buf).Some? {
      MergeFoldPhone(m, NO_PHONE, ReadFields(buf).value);
    }
  }

  /** Two encodings one after the other are an encoding of the merged message. */
  lemma ConcatIsMerge(a: Bytes, b: Bytes)
    requires ParseBook(NO_BOOK, a).Some?
    ensures ParseBook(NO_BOOK, a + b) ==
      if ParseBook(NO_BOOK, b).None? then None
      else Some(MergeBook(ParseBook(NO_BOOK, a).value, ParseBook(NO_BOOK, b).value))
  {
    hide ReadFields, ApplyBookAll, MergeBook;
    FieldsConcat(a, b);
    var x := ParseBook(NO_BOOK, a).value;
    if ReadFields(b).Some? {
      BookFoldConcat(NO_BOOK, ReadFields(a).value, ReadFields(b).value);
    }
    ParseIntoIsMerge(x, b);
  }

  /** The same for phone numbers, whose fields cannot fail once they have been read. */
  lemma ConcatIsMergePhone(a: Bytes, b: Bytes)
    requires ParsePhone(NO_PHONE, a).Some?
    ensures ParsePhone(NO_PHONE, a + b) ==
      if ParsePhone(NO_PHONE, b).None? then None
      else Some(MergePhone(ParsePhone(NO_PHONE, a).value, ParsePhone(NO_PHONE, b).value))
  {
    hide ReadFields, ApplyPhoneAll, MergePhone;
    FieldsConcat(a, b);
    var x := ParsePhone(NO_PHONE, a).value;
    if ReadFields(b).Some? {
      PhoneFoldConcat(NO_PHONE, ReadFields(a).value, ReadFields(b).value);
    }
    ParseIntoPhoneIsMerge(x, b);
  }

  /** The same for persons, where later values of the optional fields win. */
  lemma ConcatIsMergePerson(a: Bytes, b: Bytes)
    requires ParsePerson(NO_PERSON, a).Some?
    ensures ParsePerson(NO_PERSON, a + b) ==
      if ParsePerson(NO_PERSON, b).None? then None
      else Some(MergePerson(ParsePerson(NO_PERSON, a).value, ParsePerson(NO_PERSON, b).value))
  {
    hide ReadFields, ApplyPersonAll, MergePerson;
    FieldsConcat(a, b);
    var x := ParsePerson(NO_PERSON, a).value;
    if ReadFields(b).Some? {
      PersonFoldConcat(NO_PERSON, ReadFields(a).value, ReadFields(b).value);
    }
    ParseIntoPersonIsMerge(x, b);
  }

  // ---------------------------------------------------------------- sizes

  function StringSize(s: Bytes): nat {
    VarintSize(|s|) + |s|
  }

  /** A negative int32 always takes ten bytes. */
  function Int32Size(i: int): nat {
    if i < 0 then 10 else VarintSize(i)
  }

  function UnknownSize(fs: seq<Field>): nat {
    if fs == [] then 0 else VarintSize(TagOf(fs[0])) + PayloadSize(fs[0].payload) + UnknownSize(fs[1..])
  }

  function PayloadSize(p: Payload): nat {
    match p
    case Varint(v) => VarintSize(v)
    case Fixed64(b) => |b|
    case Delimited(b) => StringSize(b)
    case Fixed32(b) => |b|
  }

  function PhoneByteSize(p: Phone): nat {
    (if p.hasNumber then 1 + StringSize(p.number) else 0)
    + (if p.hasType then 1 + Int32Size(p.phoneType) else 0)
    + UnknownSize(p.unknown)
  }

  function MessageSize(n: nat): nat {
    VarintSize(n) + n
  }

  function PhonesSize(phones: seq<Phone>): nat {
    if phones == [] then 0 else 1 + MessageSize(PhoneByteSize(phones[0])) + PhonesSize(phones[1..])
  }

  function PersonByteSize(p: Person): nat {
    PhonesSize(p.phones)
    + (if p.hasName then 1 + StringSize(p.name) else 0)
    + (if p.hasEmail then 1 + StringSize(p.email) else 0)
    + (if p.hasId then 1 + Int32Size(p.id) else 0)
    + UnknownSize(p.unknown)
  }

  function PeopleSize(people: seq<Person>): nat {
    if people == [] then 0 else 1 + MessageSize(PersonByteSize(people[0])) + PeopleSize(people[1..])
  }

  function BookByteSize(b: Book): nat {
    PeopleSize(b.people) + UnknownSize(b.unknown)
  }

  lemma {:induction false} VarintSizeRange(n: nat, k: nat)
    requires Pow128(k) <= n < Pow128(k + 1)
    ensures VarintSize(n) == k + 1
  {
    if k > 0 {
      assert Pow128(k) == 128 * Pow128(k - 1) && Pow128(k + 1) == 128 * Pow128(k);
      AtLeast128(k);
      VarintSizeRange(n / 128, k - 1);
    }
  }

  lemma {:induction false} AtLeast128(k: nat)
    requires k > 0
    ensures Pow128(k) >= 128
  {
    if k > 1 {
      AtLeast128(k - 1);
    }
  }

  lemma NegativeIsTenBytes(i: int)
    requires -0x8000_0000 <= i < 0
    ensures VarintSize(SignExtend(i)) == 10
  {
    Pow128Bounds();
    assert Pow128(9) == 0x8000_0000_0000_0000 by {
      assert Pow128(4) == 0x1000_0000;
      assert Pow128(7) == 0x2_0000_0000_0000;
    }
    VarintSizeRange(SignExtend(i), 9);
  }

  /** The field-wise size: tag, then payload. */
  lemma FieldSize(f: Field)
    ensures |EncodeField(f)| == VarintSize(TagOf(f)) + PayloadSize(f.payload)
  {
    hide EncodeVarint, VarintSize;
    VarintSizeIsLength(TagOf(f));
    match f.payload
    case Varint(v) => VarintSizeIsLength(v);
    case Delimited(b) => VarintSizeIsLength(|b|);
    case _ =>
  }

  lemma {:induction false} UnknownSizeIsLength(fs: seq<Field>)
    ensures UnknownSize(fs) == |EncodeFields(fs)|
  {
    hide EncodeField;
    if fs != [] {
      FieldSize(fs[0]);
      UnknownSizeIsLength(fs[1..]);
    }
  }

  lemma {:induction false} UnknownSizeConcat(a: seq<Field>, b: seq<Field>)
    ensures UnknownSize(a + b) == UnknownSize(a) + UnknownSize(b)
  {
    UnknownSizeIsLength(a + b);
    UnknownSizeIsLength(a);
    UnknownSizeIsLength(b);
    EncodeConcat(a, b);
  }

  lemma OneFieldSize(f: Field)
    requires f.number < 16
    ensures UnknownSize([f]) == 1 + PayloadSize(f.payload)
  {
    hide PayloadSize;
    assert [f][1..] == [];
  }

  lemma OptionalSize(has: bool, f: Field)
    requires f.number < 16
    ensures UnknownSize(if has then [f] else []) == if has then 1 + PayloadSize(f.payload) else 0
  {
    hide PayloadSize;
    if has {
      OneFieldSize(f);
    }
  }

  lemma Int32SizeIsVarintSize(i: int)
    requires -0x8000_0000 <= i <= INT_MAX
    ensures Int32Size(i) == PayloadSize(Varint(SignExtend(i)))
  {
    hide VarintSize;
    if i < 0 {
      NegativeIsTenBytes(i);
    }
  }

  /** The size pass computes the length of what the serializer writes. */
  lemma PhoneSizeIsLength(p: Phone)
    requires PhoneTypeIsValid(p.phoneType)
    ensures PhoneByteSize(p) == |SerializePhone(p)|
  {
    hide UnknownSize, VarintSize, EncodeFields;
    var a := if p.hasNumber then [Field(1, Delimited(p.number))] else [];
    var b := if p.hasType then [Field(2, Varint(SignExtend(p.phoneType)))] else [];
    OptionalSize(p.hasNumber, Field(1, Delimited(p.number)));
    OptionalSize(p.hasType, Field(2, Varint(SignExtend(p.phoneType))));
    Int32SizeIsVarintSize(p.phoneType);
    UnknownSizeConcat(a, b);
    UnknownSizeConcat(a + b, p.unknown);
    UnknownSizeIsLength(PhoneFields(p));
  }

  lemma {:induction false} PhonesSizeIsLength(phones: seq<Phone>)
    requires forall ph <- phones :: PhoneTypeIsValid(ph.phoneType)
    ensures PhonesSize(phones) == UnknownSize(PhonesFields(phones))
  {
    hide SerializePhone, PhoneByteSize, VarintSize;
    if phones != [] {
      var f := Field(4, Delimited(SerializePhone(phones[0])));
      PhoneSizeIsLength(phones[0]);
      PhonesSizeIsLength(phones[1..]);
      OneFieldSize(f);
      UnknownSizeConcat([f], PhonesFields(phones[1..]));
    }
  }

  lemma PersonSizeIsLength(p: Person)
    requires InRange(p)
    ensures PersonByteSize(p) == |SerializePerson(p)|
  {
    hide UnknownSize, VarintSize, EncodeFields, SerializePhone, PhonesSize, PhonesFields;
    var a := if p.hasName then [Field(1, Delimited(p.name))] else [];
    var b := if p.hasId then [Field(2, Varint(SignExtend(p.id)))] else [];
    var c := if p.hasEmail then [Field(3, Delimited(p.email))] else [];
    OptionalSize(p.hasName, Field(1, Delimited(p.name)));
    OptionalSize(p.hasId, Field(2, Varint(SignExtend(p.id))));
    OptionalSize(p.hasEmail, Field(3, Delimited(p.email)));
    Int32SizeIsVarintSize(p.id);
    PhonesSizeIsLength(p.phones);
    UnknownSizeConcat(a, b);
    UnknownSizeConcat(a + b, c);
    UnknownSizeConcat(a + b + c, PhonesFields(p.phones));
    UnknownSizeConcat(a + b + c + PhonesFields(p.phones), p.unknown);
    UnknownSizeIsLength(PersonFields(p));
  }

  lemma {:induction false} PeopleSizeIsLength(people: seq<Person>)
    requires forall p <- people :: InRange(p)
    ensures PeopleSize(people) == UnknownSize(PeopleFields(people))
  {
    hide SerializePerson, PersonByteSize, VarintSize, InRange;
    if people != [] {
      var f := Field(1, Delimited(SerializePerson(people[0])));
      PersonSizeIsLength(people[0]);
      PeopleSizeIsLength(people[1..]);
      OneFieldSize(f);
      UnknownSizeConcat([f], PeopleFields(people[1..]));
    }
  }

  lemma BookSizeIsLength(b: Book)
    requires forall p <- b.people :: InRange(p)
    ensures BookByteSize(b) == |SerializeBook(b)|
  {
    hide UnknownSize, EncodeFields, PeopleSize, PeopleFields, InRange;
    PeopleSizeIsLength(b.people);
    UnknownSizeConcat(PeopleFields(b.people), b.unknown);
    UnknownSizeIsLength(BookFields(b));
  }
}
