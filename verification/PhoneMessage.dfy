/** The generated class of a phone number: has-bits, fields, parser, size pass, serializer. */
module PhoneMessage {
  import opened Arith64
  import opened Wire
  import opened AddressBook
  import opened AddressBookLaws

  lemma ParseRest(p: Phone, rest: Bytes)
    requires rest != []
    ensures ReadField(rest).Bad? ==> ParsePhone(p, rest).None?
    ensures ReadField(rest).Good? ==>
      ParsePhone(p, rest) == ParsePhone(ApplyPhone(p, ReadField(rest).value), rest[ReadField(rest).len..])
  {
    hide ReadField, ApplyPhone;
    ReadFirst(rest);
    if ReadField(rest).Good? {
      var f, more := ReadField(rest).value, ReadFields(rest[ReadField(rest).len..]);
      if more.Some? {
        assert ([f] + more.value)[0] == f && ([f] + more.value)[1..] == more.value;
      }
    }
  }

  lemma NothingLeft(p: Phone)
    ensures ParsePhone(p, []) == Some(p)
  {
  }

  /** A field is a tag and the payload that the tag announces. */
  lemma FieldAt(buf: Bytes, ptr: nat)
    requires ptr < |buf|
    ensures ReadTag(buf[ptr..]).Bad? ==> ReadField(buf[ptr..]).Bad?
    ensures ReadTag(buf[ptr..]).Good? ==>
      var tag, at := ReadTag(buf[ptr..]).value, ptr + ReadTag(buf[ptr..]).len;
      && at <= |buf|
      && (tag / 8 == 0 || ReadPayload(tag % 8, buf[at..]).Bad? ==> ReadField(buf[ptr..]).Bad?)
      && (tag / 8 > 0 && ReadPayload(tag % 8, buf[at..]).Good? ==>
            var pay := ReadPayload(tag % 8, buf[at..]);
            && at + pay.len <= |buf|
            && ReadField(buf[ptr..]) == Good(Field(tag / 8, pay.value), at + pay.len - ptr)
            && buf[ptr..][at + pay.len - ptr..] == buf[at + pay.len..])
  {
    hide ReadPayload;
    if ReadTag(buf[ptr..]).Good? {
      var len := ReadTag(buf[ptr..]).len;
      assert buf[ptr..][len..] == buf[ptr + len..];
    }
  }

  /** The low byte of a tag gives its wire type. */
  lemma TagBits(tag: nat)
    ensures tag % 8 == (tag % 256) % 8
  {
    var q, r := tag / 256, tag % 256;
    ModUnique(tag, 8, 32 * q + r / 8, r % 8);
  }

  /** What a payload is, for the wire types of the known fields. */
  lemma PayloadKinds(buf: Bytes)
    ensures ReadPayload(2, buf)
      == if ReadBytes(buf).Bad? then Bad else Good(Delimited(ReadBytes(buf).value), ReadBytes(buf).len)
    ensures ReadPayload(0, buf)
      == if ReadVarint64(buf).Bad? then Bad else Good(Varint(ReadVarint64(buf).value), ReadVarint64(buf).len)
  {
    hide ReadBytes, ReadVarint64, ReadFixed;
  }

  class PhoneMsg {
    var hasNumber: bool
    var hasType: bool
    var number: Bytes
    var phoneType: int
    var unknown: seq<Field>
    var cachedSize: nat

    function Value(): Phone
      reads this`hasNumber, this`hasType, this`number, this`phoneType, this`unknown
    {
      Phone(hasNumber, number, hasType, phoneType, unknown)
    }

    constructor ()
      ensures Value() == NO_PHONE
      ensures !hasNumber && number == [] && !hasType && phoneType == 1 && unknown == []
    {
      hasNumber, hasType, number, phoneType, unknown, cachedSize := false, false, [], HOME, [], 0;
    }

    /** Only fields that are set are reset: the others have their defaults already. */
    method Clear()
      requires WfPhone(Value())
      modifies this`hasNumber, this`hasType, this`number, this`phoneType, this`unknown
      ensures Value() == NO_PHONE
      ensures !hasNumber && number == [] && !hasType && phoneType == 1 && unknown == []
    {
      if hasNumber || hasType {
        if hasNumber {
          number := [];
        }
        phoneType := HOME;
      }
      hasNumber, hasType := false, false;
      unknown := [];
    }

    method SetNumber(value: Bytes)
      requires WfPhone(Value())
      modifies this`hasNumber, this`number
      ensures WfPhone(Value()) && Value() == old(Value()).(hasNumber := true, number := value)
    {
      hasNumber := true;
      number := value;
    }

    method ClearNumber()
      requires WfPhone(Value())
      modifies this`hasNumber, this`number
      ensures WfPhone(Value()) && Value() == old(Value()).(hasNumber := false, number := [])
    {
      number := [];
      hasNumber := false;
    }

    method SetType(value: int)
      requires WfPhone(Value()) && PhoneTypeIsValid(value)
      modifies this`hasType, this`phoneType
      ensures WfPhone(Value()) && Value() == old(Value()).(hasType := true, phoneType := value)
    {
      phoneType := value;
      hasType := true;
    }

    method ClearType()
      requires WfPhone(Value())
      modifies this`hasType, this`phoneType
      ensures WfPhone(Value()) && Value() == old(Value()).(hasType := false, phoneType := HOME)
      ensures phoneType == 1
    {
      phoneType := HOME;
      hasType := false;
    }

    method MergeFrom(from: PhoneMsg)
      requires from != this
      modifies this`hasNumber, this`hasType, this`number, this`phoneType, this`unknown
      ensures Value() == MergePhone(old(Value()), from.Value())
      ensures hasNumber == (old(hasNumber) || from.hasNumber) && hasType == (old(hasType) || from.hasType)
      ensures number == if from.hasNumber then from.number else old(number)
      ensures phoneType == if from.hasType then from.phoneType else old(phoneType)
      ensures unknown == old(unknown) + from.unknown
    {
      if from.hasNumber || from.hasType {
        if from.hasNumber {
          hasNumber := true;
          number := from.number;
        }
        if from.hasType {
          phoneType := from.phoneType;
        }
        hasNumber, hasType := hasNumber || from.hasNumber, hasType || from.hasType;
      }
      unknown := unknown + from.unknown;
    }

    method CopyFrom(from: PhoneMsg)
      requires WfPhone(Value()) && WfPhone(from.Value())
      modifies this`hasNumber, this`hasType, this`number, this`phoneType, this`unknown
      ensures Value() == old(from.Value())
    {
      if from == this {
        return;
      }
      Clear();
      MergeFrom(from);
    }

    /** One known or unknown field, after its tag. */
    method ParseField(tag: nat, buf: Bytes, at: nat) returns (ok: bool, next: nat)
      requires at <= |buf|
      modifies this`hasNumber, this`hasType, this`number, this`phoneType, this`unknown
      ensures ok <==> tag / 8 > 0 && ReadPayload(tag % 8, buf[at..]).Good?
      ensures ok ==> next == at + ReadPayload(tag % 8, buf[at..]).len
      ensures ok ==> Value() == ApplyPhone(old(Value()), Field(tag / 8, ReadPayload(tag % 8, buf[at..]).value))
    {
      hide ReadPayload, ReadBytes, ReadVarint64, ToInt32;
      TagBits(tag);
      PayloadKinds(buf[at..]);
      next := at;
      if tag / 8 == 1 && tag % 256 == 10 {
        hasNumber := true;
        var s := ReadBytes(buf[at..]);
        if s.Bad? {
          return false, at;
        }
        number := s.value;
        return true, at + s.len;
      } else if tag / 8 == 2 && tag % 256 == 16 {
        // `ReadVarint32`: up to ten bytes, of whose value the low 32 bits are kept (by ToInt32)
        var v := ReadVarint64(buf[at..]);
        if v.Bad? {
          return false, at;
        }
        var val := ToInt32(v.value);
        if PhoneTypeIsValid(val) {
          phoneType := val;
          hasType := true;
        } else {
          unknown := unknown + [Field(2, Varint(SignExtend(val)))];
        }
        return true, at + v.len;
      } else {
        ok, next := ParseUnknown(tag, buf, at);
      }
    }

    /** `handle_unusual`: the end tags stop the parse, everything else is kept. */
    method ParseUnknown(tag: nat, buf: Bytes, at: nat) returns (ok: bool, next: nat)
      requires at <= |buf|
      modifies this`unknown
      ensures ok <==> tag / 8 > 0 && ReadPayload(tag % 8, buf[at..]).Good?
      ensures ok ==> next == at + ReadPayload(tag % 8, buf[at..]).len
      ensures ok ==> unknown == old(unknown) + [Field(tag / 8, ReadPayload(tag % 8, buf[at..]).value)]
    {
      EndTag(buf[at..]);
      hide ReadPayload;
      next := at;
      if tag == 0 || tag % 8 == 4 {
        return false, at;
      }
      var pay := ReadPayload(tag % 8, buf[at..]);
      if tag / 8 == 0 || pay.Bad? {
        return false, at;
      }
      unknown := unknown + [Field(tag / 8, pay.value)];
      return true, at + pay.len;
    }

    /** `_InternalParse`, over the whole of `buf`. */
    method InternalParse(buf: Bytes) returns (ok: bool)
      modifies this`hasNumber, this`hasType, this`number, this`phoneType, this`unknown
      ensures ok <==> ParsePhone(old(Value()), buf).Some?
      ensures ok ==> Value() == ParsePhone(old(Value()), buf).value
    {
      hide ParsePhone, ReadField, ReadTag, ReadPayload, ApplyPhone;
      var ptr := 0;
      assert buf[0..] == buf;
      while ptr < |buf|
        invariant ptr <= |buf| && ParsePhone(old(Value()), buf) == ParsePhone(Value(), buf[ptr..])
      {
        ParseRest(Value(), buf[ptr..]);
        FieldAt(buf, ptr);
        var tag := ReadTag(buf[ptr..]);
        if tag.Bad? {
          return false;
        }
        var good, next := ParseField(tag.value, buf, ptr + tag.len);
        if !good {
          return false;
        }
        ptr := next;
      }
      assert buf[ptr..] == [];
      NothingLeft(Value());
      return true;
    }

    /** `ByteSizeLong`: the result is also kept in the message. */
    method ByteSizeLong() returns (size: nat)
      modifies this`cachedSize
      ensures size == cachedSize == PhoneByteSize(Value())
    {
      size := 0;
      if hasNumber || hasType {
        if hasNumber {
          size := size + 1 + StringSize(number);
        }
        if hasType {
          size := size + 1 + Int32Size(phoneType);
        }
      }
      size := size + UnknownSize(unknown);
      cachedSize := size;
    }

    /** `_InternalSerialize`. */
    method InternalSerialize() returns (target: Bytes)
      requires PhoneTypeIsValid(phoneType)
      ensures target == SerializePhone(Value())
    {
      hide EncodeVarint, EncodeFields;
      target := [];
      ghost var done: seq<Field> := [];
      NothingWritten();
      if hasNumber {
        target := target + EncodeField(Field(1, Delimited(number)));
        done := Write(done, Field(1, Delimited(number)));
      }
      if hasType {
        target := target + EncodeField(Field(2, Varint(SignExtend(phoneType))));
        done := Write(done, Field(2, Varint(SignExtend(phoneType))));
      }
      assert done + unknown == PhoneFields(Value());
      EncodeConcat(done, unknown);
      target := target + EncodeFields(unknown);
    }
  }

  lemma NothingWritten()
    ensures EncodeFields([]) == []
  {
  }

  /** Writing one more field appends its encoding. */
  ghost method Write(done: seq<Field>, f: Field) returns (more: seq<Field>)
    ensures more == done + [f] && EncodeFields(more) == EncodeFields(done) + EncodeField(f)
  {
    more := done + [f];
    EncodeConcat(done, [f]);
    OneEncoded(f);
  }

  lemma OneEncoded(f: Field)
    ensures EncodeFields([f]) == EncodeField(f)
  {
    assert [f][1..] == [];
    assert EncodeField(f) + [] == EncodeField(f);
  }

  lemma EndTag(buf: Bytes)
    ensures ReadPayload(4, buf).Bad?
  {
  }
}
