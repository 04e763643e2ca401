/** The generated class of the address book, and a whole trip through the wire. */
module BookMessage {
  import opened Wire
  import opened AddressBook
  import opened AddressBookLaws
  import opened PhoneMessage
  import opened PersonMessage

  /** The phone messages inside person messages. */
  ghost function Inner(ms: seq<PersonMsg>): set<PhoneMsg>
    reads ms`phones
  {
    set m, p | m in ms && p in m.phones :: p
  }

  lemma InnerHas(ms: seq<PersonMsg>, m: PersonMsg)
    requires m in ms
    ensures forall p <- m.phones :: p in Inner(ms)
  {
  }

  lemma InnerOfRest(ms: seq<PersonMsg>)
    requires ms != []
    ensures Inner(ms[1..]) <= Inner(ms)
  {
  }

  function PersonValues(ms: seq<PersonMsg>): (r: seq<Person>)
    reads ms, Inner(ms)
    ensures |r| == |ms| && forall i | 0 <= i < |ms| :: r[i] == ms[i].Value()
  {
    if ms == [] then []
    else
      InnerHas(ms, ms[0]);
      InnerOfRest(ms);
      [ms[0].Value()] + PersonValues(ms[1..])
  }

  lemma ParseRestBook(b: Book, rest: Bytes)
    requires rest != []
    ensures ReadField(rest).Bad? ==> ParseBook(b, rest).None?
    ensures ReadField(rest).Good? ==>
      ParseBook(b, rest) ==
        if ApplyBook(b, ReadField(rest).value).None? then None
        else ParseBook(ApplyBook(b, ReadField(rest).value).value, rest[ReadField(rest).len..])
  {
    hide ReadField, ApplyBook;
    ReadFirst(rest);
    if ReadField(rest).Good? {
      var f, more := ReadField(rest).value, ReadFields(rest[ReadField(rest).len..]);
      if more.Some? {
        assert ([f] + more.value)[0] == f && ([f] + more.value)[1..] == more.value;
      }
    }
  }

  lemma NothingLeftBook(b: Book)
    ensures ParseBook(b, []) == Some(b)
  {
  }

  /** What is left to parse once the tag of a person has been read. */
  ghost function AfterPersonTag(b: Book, rest: Bytes): Option<Book> {
    var s := ReadBytes(rest);
    if s.Bad? then None
    else
      var p := ParsePerson(NO_PERSON, s.value);
      if p.None? then None else ParseBook(b.(people := b.people + [p.value]), rest[s.len..])
  }

  lemma PersonTagIsPerson(b: Book, buf: Bytes, at: nat, tag: nat)
    requires at < |buf| && ReadTag(buf[at..]).Good? && ReadTag(buf[at..]).value == tag
    requires tag / 8 == 1 && tag % 256 == 10
    ensures ParseBook(b, buf[at..]) == AfterPersonTag(b, buf[at + ReadTag(buf[at..]).len..])
  {
    hide ReadField, ReadTag, ReadPayload, ReadBytes, ParsePerson, ParseBook;
    ParseRestBook(b, buf[at..]);
    FieldAt(buf, at);
    var next := at + ReadTag(buf[at..]).len;
    PayloadKinds(buf[next..]);
    if ReadBytes(buf[next..]).Good? {
      var s := ReadBytes(buf[next..]);
      assert buf[next..][s.len..] == buf[next + s.len..];
    }
  }

  /** A field that is not a person is kept. */
  lemma OtherTagIsKept(b: Book, buf: Bytes, at: nat, tag: nat)
    requires at < |buf| && ReadTag(buf[at..]).Good? && ReadTag(buf[at..]).value == tag
    requires !(tag / 8 == 1 && tag % 256 == 10)
    ensures var next := at + ReadTag(buf[at..]).len;
      var pay := ReadPayload(tag % 8, buf[next..]);
      && (tag / 8 == 0 || pay.Bad? ==> ParseBook(b, buf[at..]).None?)
      && (tag / 8 > 0 && pay.Good? ==>
            var kept := b.(unknown := b.unknown + [Field(tag / 8, pay.value)]);
            ParseBook(b, buf[at..]) == ParseBook(kept, buf[next + pay.len..]))
  {
    hide ReadField, ReadTag, ReadPayload, ReadBytes, ParsePerson, ParseBook;
    ParseRestBook(b, buf[at..]);
    FieldAt(buf, at);
    TagBits(tag);
  }

  lemma NoPersonMore(b: Book, buf: Bytes, at: nat)
    requires at <= |buf|
    requires ReadBytes(buf[at..]).Bad? || ParsePerson(NO_PERSON, ReadBytes(buf[at..]).value).None?
    ensures AfterPersonTag(b, buf[at..]).None?
  {
  }

  lemma OnePersonMore(b: Book, b': Book, buf: Bytes, at: nat, next: nat)
    requires at <= |buf| && ReadBytes(buf[at..]).Good? && next == at + ReadBytes(buf[at..]).len
    requires ParsePerson(NO_PERSON, ReadBytes(buf[at..]).value).Some?
    requires b' == b.(people := b.people + [ParsePerson(NO_PERSON, ReadBytes(buf[at..]).value).value])
    ensures AfterPersonTag(b, buf[at..]) == ParseBook(b', buf[next..])
  {
    hide ReadBytes, ParsePerson, ParseBook;
    assert buf[at..][next - at..] == buf[next..];
  }

  lemma FirstPersonSize(values: seq<Person>, i: nat)
    requires i < |values|
    ensures PeopleSize(values[i..]) == 1 + MessageSize(PersonByteSize(values[i])) + PeopleSize(values[i + 1..])
  {
    hide PersonByteSize, VarintSize;
    assert values[i..][1..] == values[i + 1..];
  }

  lemma NoPeopleSize(values: seq<Person>)
    requires values == []
    ensures PeopleSize(values) == 0
  {
  }

  class AddressBookMsg {
    var people: seq<PersonMsg>
    var unknown: seq<Field>
    var cachedSize: nat

    function Value(): Book
      reads this`people, this`unknown, people, Inner(people)
    {
      Book(PersonValues(people), unknown)
    }

    constructor ()
      ensures Value() == NO_BOOK && people == []
    {
      people, unknown, cachedSize := [], [], 0;
    }

    method Clear()
      modifies this`people, this`unknown
      ensures Value() == NO_BOOK && people == []
    {
      people := [];
      unknown := [];
    }

    /** The caller goes on to fill in the new person, who is part of this book. */
    method AddPeople() returns (added: PersonMsg)
      requires WfBook(Value())
      modifies this`people
      ensures fresh(added) && people == old(people) + [added] && added.phones == []
      ensures WfBook(Value()) && Value() == old(Value()).(people := old(Value()).people + [NO_PERSON])
    {
      hide PersonValues, WfPerson, Inner, PhoneValues;
      EmptyPersonWf();
      ghost var was := PersonValues(people);
      added := new PersonMsg();
      people := people + [added];
      assert PersonValues(people) == was + [NO_PERSON];
    }

    /** One person: a new message at the end of the list, parsed in place. */
    method ParsePersonAt(buf: Bytes, at: nat) returns (ok: bool, next: nat)
      requires at <= |buf|
      modifies this`people
      ensures !ok ==> ReadBytes(buf[at..]).Bad? || ParsePerson(NO_PERSON, ReadBytes(buf[at..]).value).None?
      ensures ok ==> at < next <= |buf| && ReadBytes(buf[at..]).Good? && next == at + ReadBytes(buf[at..]).len
      ensures ok ==> ParsePerson(NO_PERSON, ReadBytes(buf[at..]).value).Some?
      ensures ok ==>
        var person := ParsePerson(NO_PERSON, ReadBytes(buf[at..]).value).value;
        PersonValues(people) == old(PersonValues(people)) + [person]
    {
      hide ReadBytes, ParsePerson, ParseBook, PersonValues, Inner, PhoneValues;
      var child := new PersonMsg();
      people := people + [child];
      var s := ReadBytes(buf[at..]);
      if s.Bad? {
        return false, at;
      }
      ok := child.InternalParse(s.value);
      next := at + s.len;
    }

    /** The tight loop over consecutive persons, which looks for the tag 10 by itself. */
    method ParsePeople(buf: Bytes, at: nat) returns (ok: bool, next: nat)
      requires at <= |buf|
      modifies this`people
      ensures !ok ==> AfterPersonTag(old(Value()), buf[at..]).None?
      ensures ok ==> at < next <= |buf|
      ensures ok ==> AfterPersonTag(old(Value()), buf[at..]) == ParseBook(Value(), buf[next..])
    {
      hide ReadBytes, ParsePerson, ParseBook, ReadTag, PersonValues, Inner, AfterPersonTag;
      ghost var goal := AfterPersonTag(Value(), buf[at..]);
      next := at;
      ok := true;
      while true
        invariant at <= next <= |buf|
        invariant goal == AfterPersonTag(Value(), buf[next..])
        decreases |buf| - next
      {
        ghost var was, from := Value(), next;
        ok, next := ParsePersonAt(buf, next);
        if !ok {
          NoPersonMore(was, buf, from);
          return;
        }
        OnePersonMore(was, Value(), buf, from, next);
        if next == |buf| {
          break;
        }
        if buf[next] != 10 {
          break;
        }
        ExpectedTag(buf, next);
        PersonTagIsPerson(Value(), buf, next, 10);
        next := next + 1;
      }
    }

    /** `_InternalParse`, over the whole of `buf`. */
    method InternalParse(buf: Bytes) returns (ok: bool)
      modifies this`people, this`unknown
      ensures ok <==> ParseBook(old(Value()), buf).Some?
      ensures ok ==> Value() == ParseBook(old(Value()), buf).value
    {
      hide ParseBook, ReadTag, ReadPayload, AfterPersonTag, PersonValues, Inner, ReadField;
      var ptr := 0;
      assert buf[0..] == buf;
      while ptr < |buf|
        invariant ptr <= |buf|
        invariant ParseBook(old(Value()), buf) == ParseBook(Value(), buf[ptr..])
      {
        var tag := ReadTag(buf[ptr..]);
        if tag.Bad? {
          ParseRestBook(Value(), buf[ptr..]);
          FieldAt(buf, ptr);
          return false;
        }
        var good, next := ParseAfterTag(tag.value, buf, ptr, ptr + tag.len);
        if !good {
          return false;
        }
        ptr := next;
      }
      assert buf[ptr..] == [];
      NothingLeftBook(Value());
      return true;
    }

    /** The tag switch. */
    method ParseAfterTag(tag: nat, buf: Bytes, ghost ptr: nat, at: nat) returns (ok: bool, next: nat)
      requires ptr < at <= |buf| && ReadTag(buf[ptr..]) == Good(tag, at - ptr)
      modifies this`people, this`unknown
      ensures !ok ==> ParseBook(old(Value()), buf[ptr..]).None?
      ensures ok ==> ptr < next <= |buf|
      ensures ok ==> ParseBook(old(Value()), buf[ptr..]) == ParseBook(Value(), buf[next..])
    {
      hide ParseBook, ReadTag, ReadPayload, AfterPersonTag, PersonValues, Inner;
      if tag / 8 == 1 && tag % 256 == 10 {
        PersonTagIsPerson(Value(), buf, ptr, tag);
        ok, next := ParsePeople(buf, at);
      } else {
        OtherTagIsKept(Value(), buf, ptr, tag);
        ok, next := ParseUnknown(tag, buf, at);
        assert PersonValues(people) == old(PersonValues(people));
      }
    }

    /** `handle_unusual`. */
    method ParseUnknown(tag: nat, buf: Bytes, at: nat) returns (ok: bool, next: nat)
      requires at <= |buf|
      modifies this`unknown
      ensures ok <==> tag / 8 > 0 && ReadPayload(tag % 8, buf[at..]).Good?
      ensures ok ==> next == at + ReadPayload(tag % 8, buf[at..]).len
      ensures ok ==> unknown == old(unknown) + [Field(tag / 8, ReadPayload(tag % 8, buf[at..]).value)]
    {
      EndTag(buf[at..]);
      hide ReadPayload;
      next := at;
      if tag == 0 || tag % 8 == 4 {
        return false, at;
      }
      var pay := ReadPayload(tag % 8, buf[at..]);
      if tag / 8 == 0 || pay.Bad? {
        return false, at;
      }
      unknown := unknown + [Field(tag / 8, pay.value)];
      return true, at + pay.len;
    }

    // -------------------------------------------------------------- merging

    method MergeFrom(from: AddressBookMsg)
      requires from != this && WfBook(from.Value())
      modifies this`people, this`unknown
      ensures Value() == MergeBook(old(Value()), old(from.Value()))
    {
      hide PersonValues, WfPerson, WfBook, Inner, PhoneValues;
      PeopleAreWf(from);
      ghost var theirs := PersonValues(from.people);
      MergePeople(from.people);
      unknown := unknown + from.unknown;
      assert PersonValues(people) == old(PersonValues(people)) + theirs;
    }

    /** The repeated field's own merge: a new message for every one of the other's. */
    method MergePeople(others: seq<PersonMsg>)
      requires forall m <- others :: WfPerson(m.Value())
      modifies this`people
      ensures PersonValues(people) == old(PersonValues(people)) + old(PersonValues(others))
    {
      hide PersonValues, WfPerson, Inner, PhoneValues;
      ghost var mine, theirs := PersonValues(people), PersonValues(others);
      var copies := CopyPeople(others, theirs);
      people := people + copies;
      assert PersonValues(people) == mine + theirs;
    }

    method CopyFrom(from: AddressBookMsg)
      requires WfBook(from.Value())
      modifies this`people, this`unknown
      ensures Value() == old(from.Value())
    {
      hide PersonValues, WfBook, Inner, PhoneValues, WfPerson, MergeBook;
      if from == this {
        return;
      }
      MergeBookIntoNothing(from.Value());
      ghost var theirs := PersonValues(from.people);
      Clear();
      assert PersonValues(from.people) == theirs;
      MergeFrom(from);
    }

    // -------------------------------------------------------------- sizes and serializing

    /** Every cached size in the book is the size of its message. */
    ghost predicate PeopleSized()
      reads this, people, Inner(people)
    {
      forall m <- people ::
        InnerHas(people, m);
        m.cachedSize == PersonByteSize(m.Value()) && m.PhonesSized()
    }

    /** `ByteSizeLong`, which leaves every length prefix cached in its message. */
    method ByteSizeLong() returns (size: nat)
      modifies this`cachedSize, people`cachedSize, Inner(people)`cachedSize
      ensures size == cachedSize == BookByteSize(Value())
      ensures PeopleSized() && Value() == old(Value())
    {
      hide PersonByteSize, PersonValues, PeopleSize, MessageSize, UnknownSize, Inner, PhoneValues, PhoneByteSize;
      ghost var values := PersonValues(people);
      size := SizeOfPeople(people, values);
      size := size + UnknownSize(unknown);
      cachedSize := size;
      assert PersonValues(people) == values;
    }

    /** `_InternalSerialize`: the length prefixes are the sizes cached before. */
    method InternalSerialize() returns (target: Bytes)
      requires (forall p <- Value().people :: InRange(p)) && PeopleSized()
      ensures target == SerializeBook(Value())
    {
      hide EncodeFields, PersonByteSize, PeopleFields, PersonValues, InRange, Inner;
      ghost var values := PersonValues(people);
      target := SerializePeople(people, values);
      assert PersonValues(people) == values;
      EncodeConcat(PeopleFields(values), unknown);
      target := target + EncodeFields(unknown);
    }

    /** Size pass, then serializer: the number of bytes announced is the number of bytes written. */
    method SerializeToString() returns (size: nat, out: Bytes)
      requires forall p <- Value().people :: InRange(p)
      modifies this`cachedSize, people`cachedSize, Inner(people)`cachedSize
      ensures Value() == old(Value()) && out == SerializeBook(Value()) && size == |out|
    {
      hide PersonValues, BookByteSize, SerializeBook, InRange, Inner, PersonByteSize, PeopleSized;
      size := ByteSizeLong();
      out := InternalSerialize();
      BookSizeIsLength(Value());
    }
  }

  method CopyPerson(m: PersonMsg) returns (copy: PersonMsg)
    requires WfPerson(m.Value())
    ensures fresh(copy) && copy.Value() == m.Value()
  {
    hide WfPerson, MergePerson, PhoneValues;
    ghost var value := m.Value();
    MergePersonIntoNothing(value);
    copy := new PersonMsg();
    assert m.Value() == value;
    copy.MergeFrom(m);
    assert copy.Value() == value && m.Value() == value;
  }

  method CopyPeople(others: seq<PersonMsg>, ghost values: seq<Person>) returns (copies: seq<PersonMsg>)
    requires |values| == |others|
    requires forall j | 0 <= j < |others| :: others[j].Value() == values[j] && WfPerson(values[j])
    ensures |copies| == |values| && forall j | 0 <= j < |copies| :: copies[j].Value() == values[j]
  {
    hide WfPerson, PhoneValues;
    copies := [];
    var i := 0;
    while i < |others|
      invariant i <= |others| && |copies| == i
      invariant forall j | 0 <= j < i :: copies[j].Value() == values[j]
    {
      var copy := CopyPerson(others[i]);
      copies := copies + [copy];
      i := i + 1;
    }
  }

  lemma MergeBookIntoNothing(b: Book)
    ensures MergeBook(NO_BOOK, b) == b
  {
    assert [] + b.people == b.people && [] + b.unknown == b.unknown;
  }

  lemma PeopleAreWf(b: AddressBookMsg)
    requires WfBook(b.Value())
    ensures forall m <- b.people :: WfPerson(m.Value())
  {
    hide WfPerson;
    forall m | m in b.people ensures WfPerson(m.Value()) {
      var i :| 0 <= i < |b.people| && b.people[i] == m;
      assert b.Value().people[i] in b.Value().people;
    }
  }

  /** The loop of the size pass. */
  method SizeOfPeople(people: seq<PersonMsg>, ghost values: seq<Person>) returns (size: nat)
    requires |values| == |people| && forall j | 0 <= j < |people| :: people[j].Value() == values[j]
    modifies people`cachedSize, Inner(people)`cachedSize
    ensures size == PeopleSize(values)
    ensures forall j | 0 <= j < |people| :: people[j].cachedSize == PersonByteSize(values[j]) && people[j].PhonesSized()
  {
    hide PersonByteSize, PeopleSize, MessageSize, PhoneValues, PhoneByteSize, Inner;
    ghost var inner := Inner(people);
    size := |people|;
    var i := 0;
    assert values[0..] == values;
    while i < |people|
      invariant i <= |people| && size + PeopleSize(values[i..]) == PeopleSize(values) + |values| - i
      invariant forall j | 0 <= j < i :: people[j].cachedSize == PersonByteSize(values[j]) && people[j].PhonesSized()
      invariant Inner(people) == inner
    {
      InnerHas(people, people[i]);
      var one := people[i].ByteSizeLong();
      forall j | 0 <= j < i ensures people[j].PhonesSized() {
        forall m | m in people[j].phones ensures m.cachedSize == PhoneByteSize(m.Value()) {
          assert m in people[i].phones || m !in people[i].phones;
        }
      }
      FirstPersonSize(values, i);
      size := size + MessageSize(one);
      i := i + 1;
    }
    NoPeopleSize(values[i..]);
  }

  /** The loop of the serializer. */
  method SerializePeople(people: seq<PersonMsg>, ghost values: seq<Person>) returns (target: Bytes)
    requires |values| == |people| && (forall p <- values :: InRange(p))
    requires forall j | 0 <= j < |people| ::
      people[j].Value() == values[j] && people[j].cachedSize == PersonByteSize(values[j]) && people[j].PhonesSized()
    ensures target == EncodeFields(PeopleFields(values))
  {
    hide EncodeVarint, EncodeFields, EncodeField, PersonByteSize, SerializePerson, PeopleFields, InRange, PhoneValues;
    ghost var fs := PeopleFields(values);
    PeopleFieldsShape(values);
    NothingWritten();
    target := [];
    var i := 0;
    assert fs[..0] == [];
    while i < |people|
      invariant i <= |people| && target == EncodeFields(fs[..i])
    {
      assert values[i] in values;
      var one := people[i].InternalSerialize();
      PersonSizeIsLength(values[i]);
      PrefixedEncoding(1, one);
      target := target + EncodeVarint(10) + EncodeVarint(people[i].cachedSize) + one;
      ghost var more := Write(fs[..i], fs[i]);
      assert fs[..i + 1] == fs[..i] + [fs[i]];
      i := i + 1;
    }
    assert fs[..i] == fs;
  }

  /** A reader. */
  method ReadBook(bytes: Bytes) returns (ok: bool, book: AddressBookMsg)
    ensures fresh(book) && (ok <==> ParseBook(NO_BOOK, bytes).Some?)
    ensures ok ==> book.Value() == ParseBook(NO_BOOK, bytes).value
  {
    hide ParseBook, PersonValues, Inner;
    book := new AddressBookMsg();
    ok := book.InternalParse(bytes);
  }

  /** What a writer and a reader do with a book: what is read is what was written. */
  method ThroughTheWire(book: AddressBookMsg) returns (ok: bool, copy: AddressBookMsg)
    requires WfBook(book.Value()) && (forall p <- book.Value().people :: InRange(p))
    requires BookByteSize(book.Value()) <= INT_MAX
    modifies book`cachedSize, book.people`cachedSize, Inner(book.people)`cachedSize
    ensures ok && fresh(copy) && copy.Value() == old(book.Value())
  {
    hide WfBook, BookByteSize, SerializeBook, ParseBook, PersonValues, InRange, Inner;
    BookSizeIsLength(book.Value());
    BookRoundTrip(book.Value());
    var size, bytes := book.SerializeToString();
    ok, copy := ReadBook(bytes);
  }
}
