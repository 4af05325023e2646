/** Encoding into a buffer and decoding from it, end to end. */
module PbBuffers {
  import opened Bytes
  import opened PbCodec
  import opened PbRoundTrip
  import opened PbIterator
  import opened PbEncoder
  import opened PbDecoder

  lemma {:induction false} ConformingValueIsTyped(t: FieldType, v: Value)
    requires ConformsValue(t, v)
    ensures TypedValue(t, v)
    decreases t, 1
  {
    if t.Message? {
      ConformingIsTyped(t.fields, v.members);
    }
  }

  lemma {:induction false} ConformingMemberIsTyped(f: Field, m: Member)
    requires ConformsMember(f, m)
    ensures TypedMember(f, m)
    decreases f, 2
  {
    hide ConformsValue, TypedValue;
    if m.Many? {
      forall j | 0 <= j < |m.items| ensures TypedValue(f.ltype, m.items[j]) {
        assert ConformsValue(f.ltype, m.items[j]);
        ConformingValueIsTyped(f.ltype, m.items[j]);
      }
    } else if m.One? {
      ConformingValueIsTyped(f.ltype, m.value);
    } else if m.held.Some? {
      ConformingValueIsTyped(f.ltype, m.held.value);
    }
  }

  /** A conforming struct is one that C's types allow. */
  lemma {:induction false} ConformingIsTyped(fs: seq<Field>, ms: seq<Member>)
    requires |fs| == |ms| && Conforms(fs, ms)
    ensures Typed(fs, ms)
    decreases fs, 1
  {
    hide ConformsMember, TypedMember;
    forall i | 0 <= i < |fs| ensures TypedMember(fs[i], ms[i]) {
      assert ConformsMember(fs[i], ms[i]);
      ConformingMemberIsTyped(fs[i], ms[i]);
    }
  }

  lemma {:induction false} WellFormedIsValid(fs: seq<Field>)
    requires WellFormed(fs)
    ensures ValidDescriptor(fs)
    decreases fs, 1
  {
    hide WellFormedField, ValidField;
    forall i | 0 <= i < |fs| ensures ValidField(fs[i]) {
      assert WellFormedField(fs[i]);
      WellFormedFieldIsValid(fs[i]);
    }
  }

  lemma {:induction false} WellFormedFieldIsValid(f: Field)
    requires WellFormedField(f)
    ensures ValidField(f)
    decreases f, 2
  {
    if f.ltype.Message? {
      WellFormedIsValid(f.ltype.fields);
    }
  }

  /** `pb_decode`: into a struct set to its defaults. */
  method Decode(stream: InStream, fs: seq<Field>) returns (ok: bool, ms: seq<Member>)
    requires stream.Valid() && ValidDescriptor(fs)
    modifies stream
    ensures stream.Valid() && |ms| == |fs|
    ensures Reads(DecodeMessage(fs, Defaults(fs), old(stream.Rest())), ok, ms, stream.Rest())
  {
    ok, ms := stream.DecodeMessage(fs, Defaults(fs));
  }

  /** Writing a message into any buffer it fits in and decoding what was written, with the same descriptor or one that
      agrees with it, gives the reader's part of the message, if and only if the required fields the reader checks are
      there at every depth. */
  method Transfer(writer: seq<Field>, reader: seq<Field>, ms: seq<Member>, buffer: array<byte>)
    returns (written: bool, decoded: bool, seen: seq<Member>)
    requires |writer| == |ms| && WellFormed(writer) && Conforms(writer, ms)
    requires WellFormed(reader) && Agrees(reader, writer)
    modifies buffer
    ensures EncodeMessage(writer, ms).Some?
    ensures written <==> |EncodeMessage(writer, ms).value| <= buffer.Length
    ensures written && buffer.Length < TWO_32 ==> (decoded <==> Readable(reader, writer, ms))
    ensures written && buffer.Length < TWO_32 && decoded ==> seen == Project(reader, writer, ms)
  {
    hide EncodeMessage, DecodeMessage, Defaults, Conforms, WellFormed, Agrees, Readable, Typed, ValidDescriptor;
    hide Project;
    MessageEncodes(writer, ms);
    ConformingIsTyped(writer, ms);
    WellFormedIsValid(reader);
    decoded, seen := false, [];
    var size;
    written, size := EncodeInto(buffer, writer, ms);
    if written {
      var stream := new InStream(buffer);
      stream := new InStream.Within(stream, size);
      assert stream.Rest() == EncodeMessage(writer, ms).value;
      decoded, seen := Decode(stream, reader);
      if buffer.Length < TWO_32 {
        assert EncodeMessage(writer, ms).value + [] == EncodeMessage(writer, ms).value;
        MessageRoundTrip(reader, writer, ms, []);
      }
    }
  }
}
