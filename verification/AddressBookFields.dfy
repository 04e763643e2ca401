/**
 What becomes of each field of an encoding, and which bytes are written for each field of a message.
 Of the fields that hold one value the last one on the wire counts; repeated and unknown fields are
 all kept, in their order.
 */
module AddressBookFields {
  import opened Arith64
  import opened Wire
  import opened AddressBook
  import opened AddressBookLaws
  import WireForm

  /** The last field of a kind. */
  function LastOf(fs: seq<Field>, kind: Field -> bool): Option<Field> {
    if fs == [] then None
    else if kind(fs[|fs| - 1]) then Some(fs[|fs| - 1])
    else LastOf(fs[..|fs| - 1], kind)
  }

  lemma {:induction false} LastOfIs(fs: seq<Field>, kind: Field -> bool, i: nat)
    requires i < |fs| && kind(fs[i]) && forall k | i < k < |fs| :: !kind(fs[k])
    ensures LastOf(fs, kind) == Some(fs[i])
  {
    if i < |fs| - 1 {
      LastOfIs(fs[..|fs| - 1], kind, i);
    }
  }

  lemma {:induction false} LastOfNone(fs: seq<Field>, kind: Field -> bool)
    ensures LastOf(fs, kind).None? <==> forall f <- fs :: !kind(f)
  {
    if fs != [] {
      LastOfNone(fs[..|fs| - 1], kind);
      assert fs == fs[..|fs| - 1] + [fs[|fs| - 1]];
    }
  }

  /** The content of a string field or a nested message. */
  function ContentOf(f: Field): Bytes {
    if f.payload.Delimited? then f.payload.bytes else []
  }

  /** The value of an int32 or enum field. */
  function NumberOf(f: Field): int {
    if f.payload.Varint? then ToInt32(f.payload.v) else 0
  }

  predicate IsString(f: Field, number: nat) { f.number == number && f.payload.Delimited? }

  // ---------------------------------------------------------------- phone numbers

  predicate IsNumber(f: Field) { IsString(f, 1) }

  /** MOBILE, HOME or WORK. */
  predicate IsType(f: Field) {
    f.number == 2 && f.payload.Varint? && 0 <= ToInt32(f.payload.v) <= 2
  }

  /** Everything else, in order. */
  function PhoneOthers(fs: seq<Field>): seq<Field> {
    if fs == [] then [] else PhoneOthers(fs[..|fs| - 1]) + PhoneOther(fs[|fs| - 1])
  }

  /** Of a type that is none of the three the low 32 bits are kept. */
  function PhoneOther(f: Field): seq<Field> {
    if IsNumber(f) || IsType(f) then []
    else if f.number == 2 && f.payload.Varint? then [Field(2, Varint(SignExtend(ToInt32(f.payload.v))))]
    else [f]
  }

  lemma PhoneByOneField(p: Phone, f: Field)
    ensures var q := ApplyPhone(p, f);
      && q.hasNumber == (p.hasNumber || IsNumber(f)) && q.number == (if IsNumber(f) then ContentOf(f) else p.number)
      && q.hasType == (p.hasType || IsType(f)) && q.phoneType == (if IsType(f) then NumberOf(f) else p.phoneType)
      && q.unknown == p.unknown + PhoneOther(f)
  {
    hide ToInt32, SignExtend;
  }

  lemma PhoneLastField(p: Phone, fs: seq<Field>)
    requires fs != []
    ensures ApplyPhoneAll(p, fs) == ApplyPhone(ApplyPhoneAll(p, fs[..|fs| - 1]), fs[|fs| - 1])
  {
    hide ApplyPhone;
    var most, last := fs[..|fs| - 1], fs[|fs| - 1];
    assert fs == most + [last] && [last][1..] == [];
    PhoneFoldConcat(p, most, [last]);
  }

  /** What the fields of an encoding make of a phone number that may hold values already. */
  lemma {:induction false} PhoneFieldByField(p: Phone, fs: seq<Field>)
    ensures var q, n, t := ApplyPhoneAll(p, fs), LastOf(fs, IsNumber), LastOf(fs, IsType);
      && q.hasNumber == (p.hasNumber || n.Some?)
      && q.number == (if n.Some? then ContentOf(n.value) else p.number)
      && q.hasType == (p.hasType || t.Some?)
      && q.phoneType == (if t.Some? then NumberOf(t.value) else p.phoneType)
      && q.unknown == p.unknown + PhoneOthers(fs)
  {
    hide ApplyPhone, IsNumber, IsType, ContentOf, NumberOf, PhoneOther;
    if fs == [] {
      assert p.unknown + [] == p.unknown;
    } else {
      PhoneFieldByField(p, fs[..|fs| - 1]);
      PhoneLastField(p, fs);
      PhoneByOneField(ApplyPhoneAll(p, fs[..|fs| - 1]), fs[|fs| - 1]);
    }
  }

  // ---------------------------------------------------------------- persons

  predicate IsName(f: Field) { IsString(f, 1) }

  predicate IsId(f: Field) { f.number == 2 && f.payload.Varint? }

  predicate IsEmail(f: Field) { IsString(f, 3) }

  predicate IsPhone(f: Field) { IsString(f, 4) }

  /** The fields of a kind, in order. */
  function Only(fs: seq<Field>, kind: Field -> bool): (r: seq<Field>)
    ensures forall f <- r :: f in fs && kind(f)
  {
    if fs == [] then []
    else
      var f := fs[|fs| - 1];
      Only(fs[..|fs| - 1], kind) + if kind(f) then [f] else []
  }

  predicate IsOther(f: Field) { !IsName(f) && !IsId(f) && !IsEmail(f) && !IsPhone(f) }

  lemma {:induction false} PersonLastField(p: Person, fs: seq<Field>)
    requires fs != []
    ensures var most := ApplyPersonAll(p, fs[..|fs| - 1]);
      ApplyPersonAll(p, fs) == if most.None? then None else ApplyPerson(most.value, fs[|fs| - 1])
    decreases |fs|
  {
    hide ApplyPerson;
    if |fs| == 1 {
      assert fs[..0] == [] && fs[1..] == [];
    } else if ApplyPerson(p, fs[0]).Some? {
      PersonLastField(ApplyPerson(p, fs[0]).value, fs[1..]);
      assert fs[1..][..|fs| - 2] == fs[..|fs| - 1][1..];
    }
  }

  /** A nested message is read on its own, into an empty one. */
  ghost predicate PhonesRead(phones: seq<Phone>, fs: seq<Field>)
    requires forall f <- fs :: f.payload.Delimited?
  {
    && |phones| == |fs|
    && forall i | 0 <= i < |fs| :: Some(phones[i]) == ParsePhone(NO_PHONE, fs[i].payload.bytes)
  }

  /** An encoding is refused exactly if one of its phone numbers is. */
  lemma {:induction false} PersonAcceptedIff(p: Person, fs: seq<Field>)
    ensures ApplyPersonAll(p, fs).Some? <==>
      forall f <- fs :: f.number == 4 && f.payload.Delimited? ==> ParsePhone(NO_PHONE, f.payload.bytes).Some?
    decreases |fs|
  {
    hide ParsePhone;
    if fs != [] {
      assert fs == [fs[0]] + fs[1..];
      if ApplyPerson(p, fs[0]).Some? {
        PersonAcceptedIff(ApplyPerson(p, fs[0]).value, fs[1..]);
      } else {
        assert fs[0] in fs;
      }
    }
  }

  /** What one field makes of a person. */
  lemma PersonByOneField(p: Person, f: Field)
    requires ApplyPerson(p, f).Some?
    ensures var q := ApplyPerson(p, f).value;
      && q.hasName == (p.hasName || IsName(f)) && q.name == (if IsName(f) then ContentOf(f) else p.name)
      && q.hasId == (p.hasId || IsId(f)) && q.id == (if IsId(f) then NumberOf(f) else p.id)
      && q.hasEmail == (p.hasEmail || IsEmail(f)) && q.email == (if IsEmail(f) then ContentOf(f) else p.email)
      && q.unknown == p.unknown + (if IsOther(f) then [f] else [])
      && (if IsPhone(f) then Some(q.phones) == ListWith(p.phones, f) else q.phones == p.phones)
  {
    hide ToInt32, ParsePhone;
  }

  function ListWith(phones: seq<Phone>, f: Field): Option<seq<Phone>> {
    match ParsePhone(NO_PHONE, ContentOf(f))
    case None => None
    case Some(phone) => Some(phones + [phone])
  }

  /** What the fields of an encoding make of a person. */
  lemma {:induction false} PersonFieldByField(p: Person, fs: seq<Field>)
    requires ApplyPersonAll(p, fs).Some?
    ensures var q := ApplyPersonAll(p, fs).value;
      var n, i, e := LastOf(fs, IsName), LastOf(fs, IsId), LastOf(fs, IsEmail);
      && q.hasName == (p.hasName || n.Some?)
      && q.name == (if n.Some? then ContentOf(n.value) else p.name)
      && q.hasId == (p.hasId || i.Some?)
      && q.id == (if i.Some? then NumberOf(i.value) else p.id)
      && q.hasEmail == (p.hasEmail || e.Some?)
      && q.email == (if e.Some? then ContentOf(e.value) else p.email)
  {
    hide ApplyPerson, IsName, IsId, IsEmail, IsOther, IsPhone, ContentOf, NumberOf, ListWith;
    if fs != [] {
      PersonLastField(p, fs);
      PersonFieldByField(p, fs[..|fs| - 1]);
      PersonByOneField(ApplyPersonAll(p, fs[..|fs| - 1]).value, fs[|fs| - 1]);
    }
  }

  lemma {:induction false} PersonPartsInOrder(p: Person, fs: seq<Field>)
    requires ApplyPersonAll(p, fs).Some?
    ensures var q := ApplyPersonAll(p, fs).value;
      && q.unknown == p.unknown + Only(fs, IsOther)
      && p.phones <= q.phones && PhonesRead(q.phones[|p.phones|..], Only(fs, IsPhone))
  {
    hide ApplyPerson, IsName, IsId, IsEmail, IsOther, ParsePhone;
    if fs == [] {
      assert p.unknown + [] == p.unknown;
    } else {
      PersonLastField(p, fs);
      PersonPartsInOrder(p, fs[..|fs| - 1]);
      PersonByOneField(ApplyPersonAll(p, fs[..|fs| - 1]).value, fs[|fs| - 1]);
    }
  }

  // ---------------------------------------------------------------- books

  predicate IsPerson(f: Field) { IsString(f, 1) }

  predicate IsNoPerson(f: Field) { !IsPerson(f) }

  lemma {:induction false} BookLastField(b: Book, fs: seq<Field>)
    requires fs != []
    ensures var most := ApplyBookAll(b, fs[..|fs| - 1]);
      ApplyBookAll(b, fs) == if most.None? then None else ApplyBook(most.value, fs[|fs| - 1])
    decreases |fs|
  {
    hide ApplyBook;
    if |fs| == 1 {
      assert fs[..0] == [] && fs[1..] == [];
    } else if ApplyBook(b, fs[0]).Some? {
      BookLastField(ApplyBook(b, fs[0]).value, fs[1..]);
      assert fs[1..][..|fs| - 2] == fs[..|fs| - 1][1..];
    }
  }

  ghost predicate PeopleRead(people: seq<Person>, fs: seq<Field>)
    requires forall f <- fs :: f.payload.Delimited?
  {
    && |people| == |fs|
    && forall i | 0 <= i < |fs| :: Some(people[i]) == ParsePerson(NO_PERSON, fs[i].payload.bytes)
  }

  /** An encoding is refused exactly if one of its people is. */
  lemma {:induction false} BookAcceptedIff(b: Book, fs: seq<Field>)
    ensures ApplyBookAll(b, fs).Some? <==>
      forall f <- fs :: f.number == 1 && f.payload.Delimited? ==> ParsePerson(NO_PERSON, f.payload.bytes).Some?
    decreases |fs|
  {
    hide ParsePerson;
    if fs != [] {
      assert fs == [fs[0]] + fs[1..];
      if ApplyBook(b, fs[0]).Some? {
        BookAcceptedIff(ApplyBook(b, fs[0]).value, fs[1..]);
      } else {
        assert fs[0] in fs;
      }
    }
  }

  /** What the fields of an encoding make of a book. */
  lemma {:induction false} BookPartsInOrder(b: Book, fs: seq<Field>)
    requires ApplyBookAll(b, fs).Some?
    ensures var q := ApplyBookAll(b, fs).value;
      && q.unknown == b.unknown + Only(fs, IsNoPerson)
      && b.people <= q.people && PeopleRead(q.people[|b.people|..], Only(fs, IsPerson))
  {
    hide ParsePerson;
    if fs == [] {
      assert b.unknown + [] == b.unknown;
    } else {
      BookLastField(b, fs);
      BookPartsInOrder(b, fs[..|fs| - 1]);
    }
  }

  // ---------------------------------------------------------------- which inputs are accepted

  lemma ReadIffForm(buf: Bytes)
    ensures ReadFields(buf).Some? <==> exists fs :: WireForm.MessageForm(fs, buf)
    ensures ReadFields(buf).Some? ==> WireForm.MessageForm(ReadFields(buf).value, buf)
  {
    if ReadFields(buf).Some? {
      WireForm.ReadFieldsIff(buf, ReadFields(buf).value);
    }
    if fs :| WireForm.MessageForm(fs, buf) {
      WireForm.ReadFieldsIff(buf, fs);
    }
  }

  /** A phone number is parsed exactly if the input is a sequence of fields, and then into what they make. */
  lemma PhoneParsedIff(p: Phone, buf: Bytes)
    ensures ParsePhone(p, buf).Some? <==> exists fs :: WireForm.MessageForm(fs, buf)
    ensures forall fs | WireForm.MessageForm(fs, buf) :: ParsePhone(p, buf) == Some(ApplyPhoneAll(p, fs))
  {
    hide ReadFields, ApplyPhoneAll, WireForm.MessageForm;
    ReadIffForm(buf);
    forall fs | WireForm.MessageForm(fs, buf) ensures ParsePhone(p, buf) == Some(ApplyPhoneAll(p, fs)) {
      WireForm.ReadFieldsIff(buf, fs);
    }
  }

  /** A person is parsed exactly if, besides, every phone number in the input is a sequence of fields. */
  lemma PersonParsedIff(p: Person, buf: Bytes)
    ensures ParsePerson(p, buf).Some? <==> exists fs :: PersonForm(fs, buf)
    ensures forall fs | PersonForm(fs, buf) :: ParsePerson(p, buf) == ApplyPersonAll(p, fs)
  {
    hide ReadFields, ApplyPersonAll, WireForm.MessageForm, ParsePhone;
    ReadIffForm(buf);
    forall fs | WireForm.MessageForm(fs, buf)
      ensures ParsePerson(p, buf) == ApplyPersonAll(p, fs)
      ensures ParsePerson(p, buf).Some? <==> PersonForm(fs, buf)
    {
      WireForm.ReadFieldsIff(buf, fs);
      PersonAcceptedIff(p, fs);
      forall f <- fs { PhoneParsedIff(NO_PHONE, ContentOf(f)); }
    }
  }

  ghost predicate PersonForm(fs: seq<Field>, buf: Bytes) {
    && WireForm.MessageForm(fs, buf)
    && forall f <- fs :: IsPhone(f) ==> exists parts :: WireForm.MessageForm(parts, ContentOf(f))
  }

  /** A book is parsed exactly if every person in it is. */
  lemma BookParsedIff(b: Book, buf: Bytes)
    ensures ParseBook(b, buf).Some? <==> exists fs :: BookForm(fs, buf)
    ensures forall fs | BookForm(fs, buf) :: ParseBook(b, buf) == ApplyBookAll(b, fs)
  {
    hide ReadFields, ApplyBookAll, WireForm.MessageForm, ParsePerson, PersonForm;
    ReadIffForm(buf);
    forall fs | WireForm.MessageForm(fs, buf)
      ensures ParseBook(b, buf) == ApplyBookAll(b, fs)
      ensures ParseBook(b, buf).Some? <==> BookForm(fs, buf)
    {
      WireForm.ReadFieldsIff(buf, fs);
      BookAcceptedIff(b, fs);
      forall f <- fs { PersonParsedIff(NO_PERSON, ContentOf(f)); }
    }
  }

  ghost predicate BookForm(fs: seq<Field>, buf: Bytes) {
    && WireForm.MessageForm(fs, buf)
    && forall f <- fs :: IsPerson(f) ==> exists parts :: PersonForm(parts, ContentOf(f))
  }

  // ---------------------------------------------------------------- the bytes of a message

  /** A string or a nested message: a tag byte, the length and the content. */
  function Prefixed(tag: Byte, b: Bytes): Bytes {
    [tag] + EncodeVarint(|b|) + b
  }

  lemma StringBytes(number: nat, b: Bytes)
    requires 0 < number < 16
    ensures EncodeFields([Field(number, Delimited(b))]) == Prefixed(8 * number + 2, b)
  {
    var f := Field(number, Delimited(b));
    assert [f][1..] == [] && EncodeVarint(TagOf(f)) == [8 * number + 2];
    assert EncodeFields([f]) == EncodeField(f);
  }

  lemma VarintBytes(v: nat)
    ensures EncodeFields([Field(2, Varint(v))]) == [16] + EncodeVarint(v)
  {
    var f := Field(2, Varint(v));
    assert [f][1..] == [] && EncodeVarint(TagOf(f)) == [16];
    assert EncodeFields([f]) == EncodeField(f);
  }

  lemma EncodeThree(a: seq<Field>, b: seq<Field>, c: seq<Field>)
    ensures EncodeFields(a + b + c) == EncodeFields(a) + EncodeFields(b) + EncodeFields(c)
    ensures EncodeFields([]) == []
  {
    EncodeConcat(a + b, c);
    EncodeConcat(a, b);
  }

  /** The bytes of a phone number; the type takes one byte. */
  lemma PhoneBytes(p: Phone)
    requires PhoneTypeIsValid(p.phoneType)
    ensures SerializePhone(p) ==
      (if p.hasNumber then Prefixed(10, p.number) else [])
      + (if p.hasType then [16, p.phoneType] else [])
      + EncodeFields(p.unknown)
  {
    hide EncodeFields;
    var a := if p.hasNumber then [Field(1, Delimited(p.number))] else [];
    var b := if p.hasType then [Field(2, Varint(SignExtend(p.phoneType)))] else [];
    EncodeThree(a, b, p.unknown);
    StringBytes(1, p.number);
    VarintBytes(p.phoneType);
  }

  /** The phone numbers one after the other. */
  function PhonesBytes(phones: seq<Phone>): Bytes
    requires forall p <- phones :: PhoneTypeIsValid(p.phoneType)
  {
    if phones == [] then []
    else PhonesBytes(phones[..|phones| - 1]) + Prefixed(34, SerializePhone(phones[|phones| - 1]))
  }

  lemma {:induction false} PhonesFieldsConcat(a: seq<Phone>, b: seq<Phone>)
    requires forall p <- a + b :: PhoneTypeIsValid(p.phoneType)
    ensures forall p <- a :: PhoneTypeIsValid(p.phoneType)
    ensures forall p <- b :: PhoneTypeIsValid(p.phoneType)
    ensures PhonesFields(a + b) == PhonesFields(a) + PhonesFields(b)
  {
    hide SerializePhone;
    assert forall p <- a :: p in a + b;
    assert forall p <- b :: p in a + b;
    if a == [] {
      assert a + b == b;
    } else {
      assert (a + b)[0] == a[0] && (a + b)[1..] == a[1..] + b;
      PhonesFieldsConcat(a[1..], b);
    }
  }

  lemma {:induction false} PhonesBytesAre(phones: seq<Phone>)
    requires forall p <- phones :: PhoneTypeIsValid(p.phoneType)
    ensures EncodeFields(PhonesFields(phones)) == PhonesBytes(phones)
  {
    hide SerializePhone;
    if phones != [] {
      var most, last := phones[..|phones| - 1], phones[|phones| - 1];
      assert phones == most + [last];
      PhonesFieldsConcat(most, [last]);
      EncodeConcat(PhonesFields(most), PhonesFields([last]));
      PhonesBytesAre(most);
      assert PhonesFields([last]) == [Field(4, Delimited(SerializePhone(last)))];
      StringBytes(4, SerializePhone(last));
    }
  }

  /** The bytes of a person; a negative id is written as a 64-bit number, in ten bytes. */
  lemma PersonBytes(p: Person)
    requires InRange(p)
    ensures SerializePerson(p) ==
      (if p.hasName then Prefixed(10, p.name) else [])
      + (if p.hasId then [16] + EncodeVarint(if p.id < 0 then p.id + 0x1_0000_0000_0000_0000 else p.id) else [])
      + (if p.hasEmail then Prefixed(26, p.email) else [])
      + PhonesBytes(p.phones) + EncodeFields(p.unknown)
  {
    hide EncodeFields, PhonesFields, PhonesBytes, EncodeVarint;
    var a := if p.hasName then [Field(1, Delimited(p.name))] else [];
    var b := if p.hasId then [Field(2, Varint(SignExtend(p.id)))] else [];
    var c := if p.hasEmail then [Field(3, Delimited(p.email))] else [];
    EncodeThree(HeadFields(p), PhonesFields(p.phones), p.unknown);
    EncodeThree(a, b, c);
    StringBytes(1, p.name);
    VarintBytes(SignExtend(p.id));
    StringBytes(3, p.email);
    PhonesBytesAre(p.phones);
  }

  function PeopleBytes(people: seq<Person>): Bytes
    requires forall p <- people :: InRange(p)
  {
    if people == [] then []
    else PeopleBytes(people[..|people| - 1]) + Prefixed(10, SerializePerson(people[|people| - 1]))
  }

  lemma {:induction false} PeopleFieldsConcat(a: seq<Person>, b: seq<Person>)
    requires forall p <- a + b :: InRange(p)
    ensures forall p <- a :: InRange(p)
    ensures forall p <- b :: InRange(p)
    ensures PeopleFields(a + b) == PeopleFields(a) + PeopleFields(b)
  {
    hide SerializePerson, InRange;
    assert forall p <- a :: p in a + b;
    assert forall p <- b :: p in a + b;
    if a == [] {
      assert a + b == b;
    } else {
      assert (a + b)[0] == a[0] && (a + b)[1..] == a[1..] + b;
      PeopleFieldsConcat(a[1..], b);
    }
  }

  lemma {:induction false} PeopleBytesAre(people: seq<Person>)
    requires forall p <- people :: InRange(p)
    ensures EncodeFields(PeopleFields(people)) == PeopleBytes(people)
  {
    hide SerializePerson, InRange;
    if people != [] {
      var most, last := people[..|people| - 1], people[|people| - 1];
      assert people == most + [last];
      PeopleFieldsConcat(most, [last]);
      EncodeConcat(PeopleFields(most), PeopleFields([last]));
      PeopleBytesAre(most);
      assert PeopleFields([last]) == [Field(1, Delimited(SerializePerson(last)))];
      StringBytes(1, SerializePerson(last));
    }
  }

  /** The bytes of a book. */
  lemma BookBytes(b: Book)
    requires forall p <- b.people :: InRange(p)
    ensures SerializeBook(b) == PeopleBytes(b.people) + EncodeFields(b.unknown)
  {
    hide InRange;
    EncodeConcat(PeopleFields(b.people), b.unknown);
    PeopleBytesAre(b.people);
  }
}
