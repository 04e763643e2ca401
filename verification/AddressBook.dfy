/**
 The three messages of the address book as values: what parsing, serializing, sizing and merging
 mean. A message is read field by field; each field changes the message by itself.
 */
module AddressBook {
  import opened Arith64
  import opened Wire

  // ---------------------------------------------------------------- the messages

  /** The has-bits, the fields and the unknown fields of a phone number. */
  datatype Phone = Phone(hasNumber: bool, number: Bytes, hasType: bool, phoneType: int, unknown: seq<Field>)

  datatype Person = Person(
    hasName: bool, name: Bytes, hasId: bool, id: int, hasEmail: bool, email: Bytes,
    phones: seq<Phone>, unknown: seq<Field>)

  datatype Book = Book(people: seq<Person>, unknown: seq<Field>)

  const HOME: int := 1

  const NO_PHONE := Phone(false, [], false, HOME, [])
  const NO_PERSON := Person(false, [], false, 0, false, [], [], [])
  const NO_BOOK := Book([], [])

  predicate PhoneTypeIsValid(v: int) {
    v == 0 || v == 1 || v == 2
  }

  // ---------------------------------------------------------------- parsing

  /** What one field does to a phone number; enum values out of range are kept as unknown. */
  function ApplyPhone(p: Phone, f: Field): Phone {
    if f.number == 1 && f.payload.Delimited? then
      p.(hasNumber := true, number := f.payload.bytes)
    else if f.number == 2 && f.payload.Varint? then
      var v := ToInt32(f.payload.v);
      if PhoneTypeIsValid(v) then p.(hasType := true, phoneType := v)
      else p.(unknown := p.unknown + [Field(2, Varint(SignExtend(v)))])
    else
      p.(unknown := p.unknown + [f])
  }

  function ApplyPhoneAll(p: Phone, fs: seq<Field>): Phone
    decreases |fs|
  {
    if fs == [] then p else ApplyPhoneAll(ApplyPhone(p, fs[0]), fs[1..])
  }

  /** Parse into a message: whatever the message holds is merged into. */
  function ParsePhone(p: Phone, buf: Bytes): Option<Phone> {
    match ReadFields(buf)
    case None => None
    case Some(fs) => Some(ApplyPhoneAll(p, fs))
  }

  function ApplyPerson(p: Person, f: Field): Option<Person> {
    if f.number == 1 && f.payload.Delimited? then Some(p.(hasName := true, name := f.payload.bytes))
    else if f.number == 2 && f.payload.Varint? then Some(p.(hasId := true, id := ToInt32(f.payload.v)))
    else if f.number == 3 && f.payload.Delimited? then Some(p.(hasEmail := true, email := f.payload.bytes))
    else if f.number == 4 && f.payload.Delimited? then
      match ParsePhone(NO_PHONE, f.payload.bytes)
      case None => None
      case Some(phone) => Some(p.(phones := p.phones + [phone]))
    else Some(p.(unknown := p.unknown + [f]))
  }

  function ApplyPersonAll(p: Person, fs: seq<Field>): Option<Person>
    decreases |fs|
  {
    if fs == [] then Some(p)
    else
      match ApplyPerson(p, fs[0])
      case None => None
      case Some(p') => ApplyPersonAll(p', fs[1..])
  }

  function ParsePerson(p: Person, buf: Bytes): Option<Person> {
    match ReadFields(buf)
    case None => None
    case Some(fs) => ApplyPersonAll(p, fs)
  }

  function ApplyBook(b: Book, f: Field): Option<Book> {
    if f.number == 1 && f.payload.Delimited? then
      match ParsePerson(NO_PERSON, f.payload.bytes)
      case None => None
      case Some(person) => Some(b.(people := b.people + [person]))
    else Some(b.(unknown := b.unknown + [f]))
  }

  function ApplyBookAll(b: Book, fs: seq<Field>): Option<Book>
    decreases |fs|
  {
    if fs == [] then Some(b)
    else
      match ApplyBook(b, fs[0])
      case None => None
      case Some(b') => ApplyBookAll(b', fs[1..])
  }

  function ParseBook(b: Book, buf: Bytes): Option<Book> {
    match ReadFields(buf)
    case None => None
    case Some(fs) => ApplyBookAll(b, fs)
  }

  // ---------------------------------------------------------------- serializing

  function PhoneFields(p: Phone): seq<Field>
    requires PhoneTypeIsValid(p.phoneType)
  {
    (if p.hasNumber then [Field(1, Delimited(p.number))] else [])
    + (if p.hasType then [Field(2, Varint(SignExtend(p.phoneType)))] else [])
    + p.unknown
  }

  function SerializePhone(p: Phone): Bytes
    requires PhoneTypeIsValid(p.phoneType)
  {
    EncodeFields(PhoneFields(p))
  }

  function PhonesFields(phones: seq<Phone>): seq<Field>
    requires forall p <- phones :: PhoneTypeIsValid(p.phoneType)
  {
    if phones == [] then []
    else [Field(4, Delimited(SerializePhone(phones[0])))] + PhonesFields(phones[1..])
  }

  predicate InRange(p: Person) {
    -0x8000_0000 <= p.id <= INT_MAX && forall ph <- p.phones :: PhoneTypeIsValid(ph.phoneType)
  }

  /** The optional fields, in the order of their numbers. */
  function HeadFields(p: Person): seq<Field>
    requires InRange(p)
  {
    (if p.hasName then [Field(1, Delimited(p.name))] else [])
    + (if p.hasId then [Field(2, Varint(SignExtend(p.id)))] else [])
    + (if p.hasEmail then [Field(3, Delimited(p.email))] else [])
  }

  function PersonFields(p: Person): seq<Field>
    requires InRange(p)
  {
    HeadFields(p) + PhonesFields(p.phones) + p.unknown
  }

  function SerializePerson(p: Person): Bytes
    requires InRange(p)
  {
    EncodeFields(PersonFields(p))
  }

  function PeopleFields(people: seq<Person>): seq<Field>
    requires forall p <- people :: InRange(p)
  {
    if people == [] then []
    else [Field(1, Delimited(SerializePerson(people[0])))] + PeopleFields(people[1..])
  }

  function BookFields(b: Book): seq<Field>
    requires forall p <- b.people :: InRange(p)
  {
    PeopleFields(b.people) + b.unknown
  }

  function SerializeBook(b: Book): Bytes
    requires forall p <- b.people :: InRange(p)
  {
    EncodeFields(BookFields(b))
  }

  // ---------------------------------------------------------------- what a message can be

  /** An unknown field of a phone number: one that the parser does not take for a known one. */
  predicate KeptByPhone(f: Field) {
    && ValidField(f)
    && !(f.number == 1 && f.payload.Delimited?)
    && (f.number == 2 && f.payload.Varint? ==>
          !PhoneTypeIsValid(ToInt32(f.payload.v)) && f.payload.v == SignExtend(ToInt32(f.payload.v)))
  }

  predicate KeptByPerson(f: Field) {
    && ValidField(f)
    && !(f.number in {1, 3, 4} && f.payload.Delimited?)
    && !(f.number == 2 && f.payload.Varint?)
  }

  predicate KeptByBook(f: Field) {
    ValidField(f) && !(f.number == 1 && f.payload.Delimited?)
  }

  /** A field that is not set has its default value; unknown fields are really unknown. */
  predicate WfPhone(p: Phone) {
    && (!p.hasNumber ==> p.number == [])
    && (!p.hasType ==> p.phoneType == HOME)
    && PhoneTypeIsValid(p.phoneType)
    && forall f <- p.unknown :: KeptByPhone(f)
  }

  predicate WfPerson(p: Person) {
    && (!p.hasName ==> p.name == [])
    && (!p.hasEmail ==> p.email == [])
    && (!p.hasId ==> p.id == 0)
    && -0x8000_0000 <= p.id <= INT_MAX
    && (forall ph <- p.phones :: WfPhone(ph))
    && forall f <- p.unknown :: KeptByPerson(f)
  }

  predicate WfBook(b: Book) {
    && (forall p <- b.people :: WfPerson(p))
    && forall f <- b.unknown :: KeptByBook(f)
  }

  // ---------------------------------------------------------------- merging

  function MergePhone(to: Phone, from: Phone): Phone {
    Phone(
      to.hasNumber || from.hasNumber, if from.hasNumber then from.number else to.number,
      to.hasType || from.hasType, if from.hasType then from.phoneType else to.phoneType,
      to.unknown + from.unknown)
  }

  function MergePerson(to: Person, from: Person): Person {
    Person(
      to.hasName || from.hasName, if from.hasName then from.name else to.name,
      to.hasId || from.hasId, if from.hasId then from.id else to.id,
      to.hasEmail || from.hasEmail, if from.hasEmail then from.email else to.email,
      to.phones + from.phones, to.unknown + from.unknown)
  }

  function MergeBook(to: Book, from: Book): Book {
    Book(to.people + from.people, to.unknown + from.unknown)
  }

  // ---------------------------------------------------------------- parsing keeps messages well formed

  lemma {:induction false} ApplyPhoneAllWf(p: Phone, fs: seq<Field>)
    requires WfPhone(p) && forall f <- fs :: ValidField(f)
    ensures WfPhone(ApplyPhoneAll(p, fs))
    decreases |fs|
  {
    if fs != [] {
      ApplyPhoneWf(p, fs[0]);
      ApplyPhoneAllWf(ApplyPhone(p, fs[0]), fs[1..]);
    }
  }

  lemma ApplyPhoneWf(p: Phone, f: Field)
    requires WfPhone(p) && ValidField(f)
    ensures WfPhone(ApplyPhone(p, f))
  {
    if f.payload.Varint? {
      SignExtendToInt32(ToInt32(f.payload.v));
    }
  }

  /** Sign extension and truncation are inverse, also for the negative numbers. */
  lemma SignExtendToInt32(i: int)
    requires -0x8000_0000 <= i <= INT_MAX
    ensures ToInt32(SignExtend(i)) == i && SignExtend(i) < TWO_64
  {
    if i < 0 {
      assert i + TWO_64 == (TWO_32 - 1) * TWO_32 + (i + TWO_32);
      ModUnique(i + TWO_64, TWO_32, TWO_32 - 1, i + TWO_32);
    }
  }

  lemma ParsePhoneWf(p: Phone, buf: Bytes)
    requires WfPhone(p) && ParsePhone(p, buf).Some?
    ensures WfPhone(ParsePhone(p, buf).value)
  {
    ApplyPhoneAllWf(p, ReadFields(buf).value);
  }

  lemma ApplyPersonWf(p: Person, f: Field)
    requires WfPerson(p) && ValidField(f) && ApplyPerson(p, f).Some?
    ensures WfPerson(ApplyPerson(p, f).value)
  {
    hide ParsePhone, WfPhone;
    if f.number == 4 && f.payload.Delimited? {
      EmptyPhoneWf();
      ParsePhoneWf(NO_PHONE, f.payload.bytes);
    }
  }

  lemma EmptyPhoneWf()
    ensures WfPhone(NO_PHONE)
  {
  }

  lemma {:induction false} ApplyPersonAllWf(p: Person, fs: seq<Field>)
    requires WfPerson(p) && (forall f <- fs :: ValidField(f)) && ApplyPersonAll(p, fs).Some?
    ensures WfPerson(ApplyPersonAll(p, fs).value)
    decreases |fs|
  {
    hide WfPerson, ApplyPerson;
    if fs != [] {
      ApplyPersonWf(p, fs[0]);
      ApplyPersonAllWf(ApplyPerson(p, fs[0]).value, fs[1..]);
    }
  }

  lemma ParsePersonWf(p: Person, buf: Bytes)
    requires WfPerson(p) && ParsePerson(p, buf).Some?
    ensures WfPerson(ParsePerson(p, buf).value)
  {
    ApplyPersonAllWf(p, ReadFields(buf).value);
  }

  lemma {:induction false} ApplyBookAllWf(b: Book, fs: seq<Field>)
    requires WfBook(b) && (forall f <- fs :: ValidField(f)) && ApplyBookAll(b, fs).Some?
    ensures WfBook(ApplyBookAll(b, fs).value)
    decreases |fs|
  {
    hide WfPerson, ParsePerson;
    if fs != [] {
      if fs[0].number == 1 && fs[0].payload.Delimited? {
        EmptyPersonWf();
        ParsePersonWf(NO_PERSON, fs[0].payload.bytes);
      }
      ApplyBookAllWf(ApplyBook(b, fs[0]).value, fs[1..]);
    }
  }

  lemma EmptyPersonWf()
    ensures WfPerson(NO_PERSON)
  {
  }

  lemma ParseBookWf(b: Book, buf: Bytes)
    requires WfBook(b) && ParseBook(b, buf).Some?
    ensures WfBook(ParseBook(b, buf).value)
  {
    ApplyBookAllWf(b, ReadFields(buf).value);
  }
}
