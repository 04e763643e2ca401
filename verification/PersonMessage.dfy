/** The generated class of a person, whose phones are messages of their own. */
module PersonMessage {
  import opened Wire
  import opened AddressBook
  import opened AddressBookLaws
  import opened PhoneMessage

  function PhoneValues(ms: seq<PhoneMsg>): (r: seq<Phone>)
    reads ms`hasNumber, ms`hasType, ms`number, ms`phoneType, ms`unknown
    ensures |r| == |ms| && forall i | 0 <= i < |ms| :: r[i] == ms[i].Value()
  {
    if ms == [] then [] else [ms[0].Value()] + PhoneValues(ms[1..])
  }

  /** Parsing goes on after one field. */
  lemma ParseRestPerson(p: Person, rest: Bytes)
    requires rest != []
    ensures ReadField(rest).Bad? ==> ParsePerson(p, rest).None?
    ensures ReadField(rest).Good? ==>
      ParsePerson(p, rest) ==
        if ApplyPerson(p, ReadField(rest).value).None? then None
        else ParsePerson(ApplyPerson(p, ReadField(rest).value).value, rest[ReadField(rest).len..])
  {
    hide ReadField, ApplyPerson;
    ReadFirst(rest);
    if ReadField(rest).Good? {
      var f, more := ReadField(rest).value, ReadFields(rest[ReadField(rest).len..]);
      if more.Some? {
        assert ([f] + more.value)[0] == f && ([f] + more.value)[1..] == more.value;
      }
    }
  }

  lemma NothingLeftPerson(p: Person)
    ensures ParsePerson(p, []) == Some(p)
  {
  }

  /** What is left to parse once the tag of a phone has been read. */
  ghost function AfterPhoneTag(p: Person, rest: Bytes): Option<Person> {
    var s := ReadBytes(rest);
    if s.Bad? then None
    else
      var ph := ParsePhone(NO_PHONE, s.value);
      if ph.None? then None else ParsePerson(p.(phones := p.phones + [ph.value]), rest[s.len..])
  }

  /** Going back to the tag switch on a phone tag comes to the same. */
  lemma PhoneTagIsPhone(p: Person, buf: Bytes, at: nat, tag: nat)
    requires at < |buf| && ReadTag(buf[at..]).Good? && ReadTag(buf[at..]).value == tag
    requires tag / 8 == 4 && tag % 256 == 34
    ensures at + ReadTag(buf[at..]).len <= |buf|
    ensures ParsePerson(p, buf[at..]) == AfterPhoneTag(p, buf[at + ReadTag(buf[at..]).len..])
  {
    hide ReadField, ReadTag, ReadPayload, ReadBytes, ParsePerson, ParsePhone;
    ParseRestPerson(p, buf[at..]);
    FieldAt(buf, at);
    var next := at + ReadTag(buf[at..]).len;
    PayloadKinds(buf[next..]);
    if ReadBytes(buf[next..]).Good? {
      var s := ReadBytes(buf[next..]);
      assert buf[next..][s.len..] == buf[next + s.len..];
    }
  }

  /** The one-byte tag that the tight loop looks for. */
  lemma ExpectedTag(buf: Bytes, at: nat)
    requires at < |buf| && buf[at] < 128
    ensures ReadTag(buf[at..]) == Good(buf[at], 1)
  {
  }

  class PersonMsg {
    var hasName: bool
    var hasId: bool
    var hasEmail: bool
    var name: Bytes
    var id: int
    var email: Bytes
    var phones: seq<PhoneMsg>
    var unknown: seq<Field>
    var cachedSize: nat

    function Value(): Person
      reads this`hasName, this`hasId, this`hasEmail, this`name, this`id, this`email, this`phones, this`unknown
      reads phones`hasNumber, phones`hasType, phones`number, phones`phoneType, phones`unknown
    {
      Person(hasName, name, hasId, id, hasEmail, email, PhoneValues(phones), unknown)
    }

    constructor ()
      ensures Value() == NO_PERSON && phones == []
      ensures !hasName && name == [] && !hasId && id == 0 && !hasEmail && email == [] && unknown == []
    {
      hasName, hasId, hasEmail, name, id, email := false, false, false, [], 0, [];
      phones, unknown, cachedSize := [], [], 0;
    }

    method Clear()
      requires WfPerson(Value())
      modifies this`hasName, this`hasId, this`hasEmail, this`name, this`id, this`email, this`phones, this`unknown
      ensures Value() == NO_PERSON && phones == []
      ensures !hasName && name == [] && !hasId && id == 0 && !hasEmail && email == [] && unknown == []
    {
      phones := [];
      if hasName || hasEmail {
        if hasName {
          name := [];
        }
        if hasEmail {
          email := [];
        }
      }
      id := 0;
      hasName, hasId, hasEmail := false, false, false;
      unknown := [];
    }

    // -------------------------------------------------------------- accessors

    method SetName(value: Bytes)
      requires WfPerson(Value())
      modifies this`hasName, this`name
      ensures WfPerson(Value()) && Value() == old(Value()).(hasName := true, name := value)
    {
      hide PhoneValues;
      hasName := true;
      name := value;
    }

    method ClearName()
      requires WfPerson(Value())
      modifies this`hasName, this`name
      ensures WfPerson(Value()) && Value() == old(Value()).(hasName := false, name := [])
    {
      hide PhoneValues;
      name := [];
      hasName := false;
    }

    method SetId(value: int)
      requires WfPerson(Value()) && -0x8000_0000 <= value <= INT_MAX
      modifies this`hasId, this`id
      ensures WfPerson(Value()) && Value() == old(Value()).(hasId := true, id := value)
    {
      hide PhoneValues;
      hasId := true;
      id := value;
    }

    method ClearId()
      requires WfPerson(Value())
      modifies this`hasId, this`id
      ensures WfPerson(Value()) && Value() == old(Value()).(hasId := false, id := 0)
    {
      hide PhoneValues;
      id := 0;
      hasId := false;
    }

    method SetEmail(value: Bytes)
      requires WfPerson(Value())
      modifies this`hasEmail, this`email
      ensures WfPerson(Value()) && Value() == old(Value()).(hasEmail := true, email := value)
    {
      hide PhoneValues;
      hasEmail := true;
      email := value;
    }

    method ClearEmail()
      requires WfPerson(Value())
      modifies this`hasEmail, this`email
      ensures WfPerson(Value()) && Value() == old(Value()).(hasEmail := false, email := [])
    {
      hide PhoneValues;
      email := [];
      hasEmail := false;
    }

    /** The caller goes on to fill in the new phone, which is part of this person. */
    method AddPhones() returns (added: PhoneMsg)
      requires WfPerson(Value())
      modifies this`phones
      ensures fresh(added) && phones == old(phones) + [added]
      ensures WfPerson(Value()) && Value() == old(Value()).(phones := old(Value()).phones + [NO_PHONE])
    {
      hide PhoneValues, WfPhone;
      EmptyPhoneWf();
      added := new PhoneMsg();
      AppendValue(phones, added);
      phones := phones + [added];
    }

    method ClearPhones()
      requires WfPerson(Value())
      modifies this`phones
      ensures WfPerson(Value()) && Value() == old(Value()).(phones := [])
    {
      phones := [];
    }

    // -------------------------------------------------------------- parsing

    /** One known field other than a phone, or an unknown one; the id's has-bit is kept apart. */
    method ParseField(tag: nat, buf: Bytes, at: nat) returns (ok: bool, next: nat, idBit: bool)
      requires at <= |buf| && !(tag / 8 == 4 && tag % 256 == 34)
      modifies this`hasName, this`hasEmail, this`name, this`id, this`email, this`unknown
      ensures ok <==> tag / 8 > 0 && ReadPayload(tag % 8, buf[at..]).Good?
      ensures ok ==> next == at + ReadPayload(tag % 8, buf[at..]).len
      ensures ok ==>
        var f := Field(tag / 8, ReadPayload(tag % 8, buf[at..]).value);
        ApplyPerson(old(Value()), f) == Some(Value().(hasId := hasId || idBit))
    {
      hide ReadPayload, ReadBytes, ReadVarint64, ToInt32, ParsePhone, PhoneValues;
      TagBits(tag);
      PayloadKinds(buf[at..]);
      next, idBit := at, false;
      if tag / 8 == 2 && tag % 256 == 16 {
        idBit := true;
        // `ReadVarint32`: up to ten bytes, of whose value the low 32 bits are kept (by ToInt32)
        var v := ReadVarint64(buf[at..]);
        ok := v.Good?;
        if ok {
          id, next := ToInt32(v.value), at + v.len;
        }
      } else if (tag / 8 == 1 && tag % 256 == 10) || (tag / 8 == 3 && tag % 256 == 26) {
        ok, next := ParseString(tag / 8 == 1, buf, at);
      } else {
        ok, next := ParseUnknown(tag, buf, at);
      }
    }

    /** The name or the email. */
    method ParseString(isName: bool, buf: Bytes, at: nat) returns (ok: bool, next: nat)
      requires at <= |buf|
      modifies this`hasName, this`hasEmail, this`name, this`email
      ensures ok == ReadBytes(buf[at..]).Good?
      ensures ok ==> next == at + ReadBytes(buf[at..]).len
      ensures isName ==> hasEmail == old(hasEmail) && email == old(email)
      ensures !isName ==> hasName == old(hasName) && name == old(name)
      ensures ok && isName ==> hasName && name == ReadBytes(buf[at..]).value
      ensures ok && !isName ==> hasEmail && email == ReadBytes(buf[at..]).value
    {
      hide ReadBytes;
      var s := ReadBytes(buf[at..]);
      ok, next := s.Good?, at;
      if isName {
        hasName := true;
        if ok {
          name, next := s.value, at + s.len;
        }
      } else {
        hasEmail := true;
        if ok {
          email, next := s.value, at + s.len;
        }
      }
    }

    /** `handle_unusual`. */
    method ParseUnknown(tag: nat, buf: Bytes, at: nat) returns (ok: bool, next: nat)
      requires at <= |buf|
      modifies this`unknown
      ensures ok <==> tag / 8 > 0 && ReadPayload(tag % 8, buf[at..]).Good?
      ensures ok ==> next == at + ReadPayload(tag % 8, buf[at..]).len
      ensures ok ==> unknown == old(unknown) + [Field(tag / 8, ReadPayload(tag % 8, buf[at..]).value)]
    {
      EndTag(buf[at..]);
      hide ReadPayload;
      next := at;
      if tag == 0 || tag % 8 == 4 {
        return false, at;
      }
      var pay := ReadPayload(tag % 8, buf[at..]);
      if tag / 8 == 0 || pay.Bad? {
        return false, at;
      }
      unknown := unknown + [Field(tag / 8, pay.value)];
      return true, at + pay.len;
    }

    /** One phone: a new message at the end of the list, parsed in place. */
    method ParsePhoneAt(buf: Bytes, at: nat) returns (ok: bool, next: nat)
      requires at <= |buf|
      modifies this`phones
      ensures !ok ==> forall p :: AfterPhoneTag(p, buf[at..]).None?
      ensures ok ==> at < next <= |buf| && ReadBytes(buf[at..]).Good? && next == at + ReadBytes(buf[at..]).len
      ensures ok ==> ParsePhone(NO_PHONE, ReadBytes(buf[at..]).value).Some?
      ensures ok ==>
        var phone := ParsePhone(NO_PHONE, ReadBytes(buf[at..]).value).value;
        PhoneValues(phones) == old(PhoneValues(phones)) + [phone]
    {
      hide ReadBytes, ParsePhone, ParsePerson;
      var child := new PhoneMsg();
      phones := phones + [child];
      var s := ReadBytes(buf[at..]);
      if s.Bad? {
        return false, at;
      }
      ok := child.InternalParse(s.value);
      next := at + s.len;
      assert ok ==> PhoneValues(phones) == old(PhoneValues(phones)) + [child.Value()];
    }

    /** The tight loop over consecutive phones, which looks for the tag 34 by itself. */
    method ParsePhones(buf: Bytes, at: nat, ghost bit: bool) returns (ok: bool, next: nat)
      requires at <= |buf|
      modifies this`phones
      ensures !ok ==> AfterPhoneTag(old(Value().(hasId := bit)), buf[at..]).None?
      ensures ok ==> at < next <= |buf|
      ensures ok ==>
        AfterPhoneTag(old(Value().(hasId := bit)), buf[at..]) == ParsePerson(Value().(hasId := bit), buf[next..])
    {
      hide ReadBytes, ParsePhone, ParsePerson, ReadTag;
      ghost var goal := AfterPhoneTag(Value().(hasId := bit), buf[at..]);
      next := at;
      ok := true;
      while true
        invariant at <= next <= |buf|
        invariant goal == AfterPhoneTag(Value().(hasId := bit), buf[next..])
        decreases |buf| - next
      {
        ghost var was, from := Value().(hasId := bit), next;
        ok, next := ParsePhoneAt(buf, next);
        if !ok {
          return;
        }
        assert buf[from..][next - from..] == buf[next..];
        assert goal == ParsePerson(Value().(hasId := bit), buf[next..]);
        if next == |buf| {
          break;
        }
        if buf[next] != 34 {
          break;
        }
        ExpectedTag(buf, next);
        PhoneTagIsPhone(Value().(hasId := bit), buf, next, 34);
        next := next + 1;
      }
    }

    /** `_InternalParse`, over the whole of `buf`; the id's has-bit is added at the end. */
    method InternalParse(buf: Bytes) returns (ok: bool)
      modifies this`hasName, this`hasId, this`hasEmail, this`name, this`id, this`email, this`phones, this`unknown
      ensures ok <==> ParsePerson(old(Value()), buf).Some?
      ensures ok ==> Value() == ParsePerson(old(Value()), buf).value
    {
      hide ParsePerson, ReadField, ReadTag, ReadPayload, ApplyPerson, PhoneValues, ReadBytes, ParsePhone;
      var idBit := false;
      var ptr := 0;
      assert buf[0..] == buf;
      while ptr < |buf|
        invariant ptr <= |buf| && hasId == old(hasId)
        invariant ParsePerson(old(Value()), buf) == ParsePerson(Value().(hasId := hasId || idBit), buf[ptr..])
      {
        var tag := ReadTag(buf[ptr..]);
        ghost var now := Value().(hasId := hasId || idBit);
        if tag.Bad? {
          ParseRestPerson(now, buf[ptr..]);
          FieldAt(buf, ptr);
          hasId := hasId || idBit;
          return false;
        }
        var good, next, bit := ParseAfterTag(tag.value, buf, ptr, ptr + tag.len, idBit);
        idBit := idBit || bit;
        if !good {
          hasId := hasId || idBit;
          return false;
        }
        ptr := next;
      }
      assert buf[ptr..] == [];
      hasId := hasId || idBit;
      NothingLeftPerson(Value());
      return true;
    }

    /** The tag switch. */
    method ParseAfterTag(tag: nat, buf: Bytes, ghost ptr: nat, at: nat, ghost idBit: bool)
      returns (ok: bool, next: nat, bit: bool)
      requires ptr < at <= |buf| && ReadTag(buf[ptr..]) == Good(tag, at - ptr)
      modifies this`hasName, this`hasEmail, this`name, this`id, this`email, this`phones, this`unknown
      ensures !ok ==> ParsePerson(old(Value().(hasId := hasId || idBit)), buf[ptr..]).None?
      ensures ok ==> ptr < next <= |buf|
      ensures ok ==>
        ParsePerson(old(Value().(hasId := hasId || idBit)), buf[ptr..])
        == ParsePerson(Value().(hasId := hasId || idBit || bit), buf[next..])
    {
      hide ParsePerson, ReadField, ReadTag, ReadPayload, ApplyPerson, PhoneValues, ReadBytes, ParsePhone, AfterPhoneTag;
      ghost var now := Value().(hasId := hasId || idBit);
      if tag / 8 == 4 && tag % 256 == 34 {
        PhoneTagIsPhone(now, buf, ptr, tag);
        bit := false;
        ok, next := ParsePhones(buf, at, hasId || idBit);
      } else {
        ParseRestPerson(now, buf[ptr..]);
        FieldAt(buf, ptr);
        ghost var was := Value();
        ok, next, bit := ParseField(tag, buf, at);
        if ok {
          ApplyKeepsIdBit(was, Field(tag / 8, ReadPayload(tag % 8, buf[at..]).value), hasId || idBit);
        }
      }
    }

    // -------------------------------------------------------------- sizes and serializing

    /** Every phone's cached size is its size. */
    ghost predicate PhonesSized()
      reads this`phones, phones`hasNumber, phones`hasType, phones`number, phones`phoneType, phones`unknown
      reads phones`cachedSize
    {
      forall m <- phones :: m.cachedSize == PhoneByteSize(m.Value())
    }

    /** `ByteSizeLong`: computes, and caches, the sizes of the phones first. */
    method ByteSizeLong() returns (size: nat)
      modifies this`cachedSize, phones`cachedSize
      ensures size == cachedSize == PersonByteSize(Value())
      ensures PhonesSized()
    {
      hide PhonesSize, UnknownSize, PhoneByteSize, StringSize, Int32Size, PhoneValues;
      size := SizeOfPhones();
      if hasName || hasEmail || hasId {
        if hasName {
          size := size + 1 + StringSize(name);
        }
        if hasEmail {
          size := size + 1 + StringSize(email);
        }
        if hasId {
          size := size + 1 + Int32Size(id);
        }
      }
      size := size + UnknownSize(unknown);
      cachedSize := size;
    }

    method SizeOfPhones() returns (size: nat)
      modifies phones`cachedSize
      ensures size == PhonesSize(PhoneValues(phones)) && PhonesSized()
    {
      hide PhoneByteSize, PhoneValues, PhonesSize, MessageSize;
      size := |phones|;
      var i := 0;
      ghost var values := PhoneValues(phones);
      assert values[0..] == values;
      while i < |phones|
        invariant i <= |phones| && size + PhonesSize(values[i..]) == PhonesSize(values) + |values| - i
        invariant forall j | 0 <= j < i :: phones[j].cachedSize == PhoneByteSize(values[j])
      {
        var one := phones[i].ByteSizeLong();
        FirstPhoneSize(values, i);
        size := size + MessageSize(one);
        i := i + 1;
      }
      NoPhonesSize(values[i..]);
    }

    /** `_InternalSerialize`: the length prefixes are the sizes cached before. */
    method InternalSerialize() returns (target: Bytes)
      requires InRange(Value()) && PhonesSized()
      ensures target == SerializePerson(Value())
    {
      hide EncodeVarint, EncodeFields, EncodeField, PhoneValues, PhonesFields;
      var head := SerializeHead();
      var middle := SerializePhones();
      ghost var p := Value();
      ghost var first := HeadFields(p);
      EncodeConcat(first, PhonesFields(p.phones));
      EncodeConcat(first + PhonesFields(p.phones), unknown);
      assert first + PhonesFields(p.phones) + unknown == PersonFields(p);
      target := head + middle + EncodeFields(unknown);
    }

    method SerializeHead() returns (target: Bytes)
      requires InRange(Value())
      ensures target == EncodeFields(HeadFields(Value()))
    {
      hide EncodeVarint, EncodeFields, EncodeField, PhoneValues;
      target := [];
      ghost var done: seq<Field> := [];
      NothingWritten();
      if hasName {
        target := target + EncodeField(Field(1, Delimited(name)));
        done := Write(done, Field(1, Delimited(name)));
      }
      if hasId {
        target := target + EncodeField(Field(2, Varint(SignExtend(id))));
        done := Write(done, Field(2, Varint(SignExtend(id))));
      }
      if hasEmail {
        target := target + EncodeField(Field(3, Delimited(email)));
        done := Write(done, Field(3, Delimited(email)));
      }
      assert done == HeadFields(Value());
    }

    method SerializePhones() returns (target: Bytes)
      requires InRange(Value()) && PhonesSized()
      ensures target == EncodeFields(PhonesFields(PhoneValues(phones)))
    {
      hide EncodeVarint, EncodeFields, EncodeField, PhoneByteSize, SerializePhone, PhonesFields, PhoneValues;
      ghost var values := PhoneValues(phones);
      ghost var fs := PhonesFields(values);
      PhonesFieldsShape(values);
      NothingWritten();
      target := [];
      var i := 0;
      assert fs[..0] == [];
      while i < |phones|
        invariant i <= |phones| && target == EncodeFields(fs[..i])
      {
        assert values[i] in values;
        var one := phones[i].InternalSerialize();
        PhoneSizeIsLength(values[i]);
        PrefixedEncoding(4, one);
        target := target + EncodeVarint(34) + EncodeVarint(phones[i].cachedSize) + one;
        ghost var more := Write(fs[..i], fs[i]);
        assert fs[..i + 1] == fs[..i] + [fs[i]];
        i := i + 1;
      }
      assert fs[..i] == fs;
    }

    // -------------------------------------------------------------- merging

    method MergeFrom(from: PersonMsg)
      requires from != this && WfPerson(from.Value())
      modifies this`hasName, this`hasId, this`hasEmail, this`name, this`id, this`email, this`phones, this`unknown
      ensures Value() == MergePerson(old(Value()), old(from.Value()))
      ensures name == (if from.hasName then from.name else old(name)) && hasName == (old(hasName) || from.hasName)
      ensures id == (if from.hasId then from.id else old(id)) && hasId == (old(hasId) || from.hasId)
      ensures email == if from.hasEmail then from.email else old(email)
      ensures hasEmail == (old(hasEmail) || from.hasEmail)
      ensures PhoneValues(phones) == old(PhoneValues(phones) + PhoneValues(from.phones))
      ensures unknown == old(unknown) + from.unknown
    {
      hide PhoneValues, WfPerson, WfPhone;
      PhonesAreWf(from);
      MergePhones(from.phones);
      MergeScalars(from);
    }

    method MergeScalars(from: PersonMsg)
      requires from != this
      modifies this`hasName, this`hasId, this`hasEmail, this`name, this`id, this`email, this`unknown
      ensures name == (if from.hasName then from.name else old(name)) && hasName == (old(hasName) || from.hasName)
      ensures id == (if from.hasId then from.id else old(id)) && hasId == (old(hasId) || from.hasId)
      ensures email == if from.hasEmail then from.email else old(email)
      ensures hasEmail == (old(hasEmail) || from.hasEmail)
      ensures unknown == old(unknown) + from.unknown
    {
      if from.hasName || from.hasEmail || from.hasId {
        if from.hasName {
          hasName := true;
          name := from.name;
        }
        if from.hasEmail {
          hasEmail := true;
          email := from.email;
        }
        if from.hasId {
          id := from.id;
        }
        hasName, hasId, hasEmail := hasName || from.hasName, hasId || from.hasId, hasEmail || from.hasEmail;
      }
      unknown := unknown + from.unknown;
    }

    /** The repeated field's own merge: a new message for every one of the other's. */
    method MergePhones(others: seq<PhoneMsg>)
      requires forall m <- others :: WfPhone(m.Value())
      modifies this`phones
      ensures PhoneValues(phones) == old(PhoneValues(phones)) + PhoneValues(others)
    {
      hide PhoneValues, WfPhone, MergePhone;
      var i := 0;
      while i < |others|
        invariant i <= |others|
        invariant PhoneValues(phones) == old(PhoneValues(phones)) + PhoneValues(others)[..i]
      {
        var copy := CopyPhone(others[i]);
        AppendValue(phones, copy);
        phones := phones + [copy];
        i := i + 1;
      }
    }

    method CopyFrom(from: PersonMsg)
      requires WfPerson(Value()) && WfPerson(from.Value())
      modifies this`hasName, this`hasId, this`hasEmail, this`name, this`id, this`email, this`phones, this`unknown
      ensures Value() == old(from.Value())
    {
      hide PhoneValues, WfPerson, MergePerson;
      if from == this {
        return;
      }
      MergePersonIntoNothing(from.Value());
      Clear();
      MergeFrom(from);
    }
  }

  method CopyPhone(m: PhoneMsg) returns (copy: PhoneMsg)
    requires WfPhone(m.Value())
    ensures fresh(copy) && copy.Value() == m.Value()
  {
    hide WfPhone, MergePhone;
    copy := new PhoneMsg();
    copy.MergeFrom(m);
    MergePhoneIntoNothing(m.Value());
  }

  lemma FirstPhoneSize(values: seq<Phone>, i: nat)
    requires i < |values|
    ensures PhonesSize(values[i..]) == 1 + MessageSize(PhoneByteSize(values[i])) + PhonesSize(values[i + 1..])
  {
    hide PhoneByteSize, VarintSize;
    assert values[i..][1..] == values[i + 1..];
  }

  lemma NoPhonesSize(values: seq<Phone>)
    requires values == []
    ensures PhonesSize(values) == 0
  {
  }

  /** A message field: its tag, the length of the message, the message. */
  lemma PrefixedEncoding(number: nat, one: Bytes)
    requires 0 < number < 16
    ensures EncodeField(Field(number, Delimited(one))) == EncodeVarint(8 * number + 2) + EncodeVarint(|one|) + one
  {
    hide EncodeVarint;
    var tag, len := EncodeVarint(8 * number + 2), EncodeVarint(|one|);
    assert tag + (len + one) == tag + len + one;
  }

  lemma MergePhoneIntoNothing(p: Phone)
    requires WfPhone(p)
    ensures MergePhone(NO_PHONE, p) == p
  {
    assert [] + p.unknown == p.unknown;
  }

  lemma AppendValue(ms: seq<PhoneMsg>, m: PhoneMsg)
    ensures PhoneValues(ms + [m]) == PhoneValues(ms) + [m.Value()]
  {
  }

  lemma PhonesAreWf(p: PersonMsg)
    requires WfPerson(p.Value())
    ensures forall m <- p.phones :: WfPhone(m.Value())
  {
    hide WfPhone;
    forall m | m in p.phones ensures WfPhone(m.Value()) {
      var i :| 0 <= i < |p.phones| && p.phones[i] == m;
      assert p.Value().phones[i] in p.Value().phones;
    }
  }

  lemma MergePersonIntoNothing(p: Person)
    requires WfPerson(p)
    ensures MergePerson(NO_PERSON, p) == p
  {
    assert [] + p.unknown == p.unknown && [] + p.phones == p.phones;
  }

  /** The id's has-bit can be set before a field or after it. */
  lemma ApplyKeepsIdBit(p: Person, f: Field, bit: bool)
    requires ApplyPerson(p, f).Some? && (p.hasId ==> bit)
    ensures ApplyPerson(p.(hasId := bit), f) ==
      Some(ApplyPerson(p, f).value.(hasId := bit || ApplyPerson(p, f).value.hasId))
  {
    hide ParsePhone;
  }
}
