/** What the decoder makes of bytes that no encoder wrote, and which structs the encoder refuses. */
module PbExact {
  import opened Bytes
  import opened PbWire
  import opened PbCodec
  import opened PbRoundTrip
  import opened PbVarints
  import opened PbMerge
  import opened PbPresence
  import PbEncoder

  // --- Numbers ----------------------------------------------------------------------------------

  /** The number that a varint with the 64-bit value `v` stands for in a field of the kind: a signed field of eight
      bytes reads it modulo 2^64, a shorter one only its low 32 bits; a zigzag field has the sign in the lowest bit. */
  ghost predicate Means(kind: Numeric, v: uint64, n: int) {
    match kind
    case Varint(size) =>
      if size == 8 then -0x8000_0000_0000_0000 <= n < 0x8000_0000_0000_0000 && (v - n) % TWO_64 == 0
      else -0x8000_0000 <= n < 0x8000_0000 && (v - n) % TWO_32 == 0
    case UVarint(_) => n == v
    case SVarint(_) => v == if n >= 0 then 2 * n else -2 * n - 1
    case _ => false
  }

  /** Any bytes: a number is read if and only if there is a varint and the struct member holds the number it stands
      for. */
  lemma NumberExactly(kind: Numeric, bs: seq<byte>)
    requires !kind.Fixed32? && !kind.Fixed64?
    ensures DecodeVarint(bs).None? ==> DecodeNumber(kind, bs).None?
    ensures DecodeVarint(bs).Some? ==>
              var (v, rest) := DecodeVarint(bs).value;
              forall n :: Means(kind, v, n) && Fits(kind, n) <==> DecodeNumber(kind, bs) == Some((n, rest))
  {
    hide DecodeVarint, Fits;
    if DecodeVarint(bs).Some? {
      var (v, rest) := DecodeVarint(bs).value;
      forall n ensures Means(kind, v, n) <==> n == FromVarint(kind, v) {
        OneMeaning(kind, v, n);
      }
    }
  }

  lemma OneMeaning(kind: Numeric, v: uint64, n: int)
    requires !kind.Fixed32? && !kind.Fixed64?
    ensures Means(kind, v, n) <==> n == FromVarint(kind, v)
  {
    if kind.Varint? {
      if kind.size == 8 {
        CastTo64(v, n);
      } else {
        CastTo32(v % TWO_32, n);
        LowHalf(v % TWO_32 - n, v / TWO_32);
        assert v - n == v % TWO_32 - n + v / TWO_32 * TWO_32;
      }
    }
  }

  lemma CastTo64(v: uint64, n: int)
    ensures -0x8000_0000_0000_0000 <= n < 0x8000_0000_0000_0000 && (v - n) % TWO_64 == 0 <==> n == AsSigned(v, TWO_64)
  {
  }

  lemma CastTo32(v: uint32, n: int)
    ensures -0x8000_0000 <= n < 0x8000_0000 && (v - n) % TWO_32 == 0 <==> n == AsSigned(v, TWO_32)
  {
  }

  lemma LowHalf(a: int, q: int)
    ensures (a + q * TWO_32) % TWO_32 == a % TWO_32
  {
  }

  function Word(bs: seq<byte>): nat
    requires |bs| == 4
  {
    var b0: int, b1: int, b2: int, b3: int := bs[0], bs[1], bs[2], bs[3];
    b0 + b1 * 0x100 + b2 * 0x1_0000 + b3 * 0x100_0000
  }

  /** Fixed-width numbers have their least significant byte first. */
  lemma FixedExactly(bs: seq<byte>)
    ensures DecodeNumber(Fixed32, bs) == if |bs| < 4 then None else Some((Word(bs[..4]), bs[4..]))
    ensures DecodeNumber(Fixed64, bs) ==
            if |bs| < 8 then None else Some((Word(bs[..4]) + TWO_32 * Word(bs[4..8]), bs[8..]))
  {
    if |bs| >= 4 {
      FourBytes(bs[..4], []);
      assert bs[..4] + [] == bs[..4];
    }
    if |bs| >= 8 {
      FourBytes(bs[..4], bs[4..8]);
      FourBytes(bs[4..8], []);
      assert bs[..4] + bs[4..8] == bs[..8] && bs[4..8] + [] == bs[4..8];
    }
  }

  lemma FourBytes(x: seq<byte>, rest: seq<byte>)
    requires |x| == 4
    ensures FromLittleEndian(x + rest) == Word(x) + TWO_32 * FromLittleEndian(rest)
  {
    FirstByte(x + rest);
    assert (x + rest)[1..] == x[1..] + rest;
    FirstByte(x[1..] + rest);
    assert (x[1..] + rest)[1..] == x[2..] + rest;
    FirstByte(x[2..] + rest);
    assert (x[2..] + rest)[1..] == x[3..] + rest;
    FirstByte(x[3..] + rest);
    assert (x[3..] + rest)[1..] == rest;
  }

  lemma FirstByte(bs: seq<byte>)
    requires bs != []
    ensures FromLittleEndian(bs) == bs[0] + 0x100 * FromLittleEndian(bs[1..])
  {
  }

  // --- Unknown fields ---------------------------------------------------------------------------

  /** Any bytes: a varint of whatever length, eight bytes, a length and that many bytes, or four bytes are skipped; the
      group types and the two unassigned ones are an error. */
  lemma SkipExactly(code: nat, bs: seq<byte>)
    ensures forall i: nat :: EndsAt(bs, i) ==> SkipField(0, bs) == Some(bs[i + 1..])
    ensures SkipField(0, bs).Some? ==> exists i: nat :: EndsAt(bs, i)
    ensures SkipField(1, bs) == if |bs| < 8 then None else Some(bs[8..])
    ensures forall data, rest :: |data| < TWO_32 && bs == Delimited(data) + rest ==> SkipField(2, bs) == Some(rest)
    ensures SkipField(5, bs) == if |bs| < 4 then None else Some(bs[4..])
    ensures code == 3 || code == 4 || code >= 6 ==> SkipField(code, bs).None?
  {
    hide SkipVarint, Delimited, Substream;
    forall i: nat | EndsAt(bs, i) ensures SkipVarint(bs) == Some(bs[i + 1..]) {
      SkipsToEnd(bs, i);
    }
    if SkipVarint(bs).Some? {
      SkipEnds(bs);
    }
    forall data: seq<byte>, rest | |data| < TWO_32 && bs == Delimited(data) + rest
      ensures Substream(bs) == Some((data, rest))
    {
      SubstreamOfDelimited(data, rest);
    }
  }

  lemma {:induction false} SkipsToEnd(bs: seq<byte>, i: nat)
    requires EndsAt(bs, i)
    ensures SkipVarint(bs) == Some(bs[i + 1..])
    decreases i
  {
    EndsLater(bs, i);
    if i > 0 {
      SkipsToEnd(bs[1..], i - 1);
    }
  }

  lemma {:induction false} SkipEnds(bs: seq<byte>)
    requires SkipVarint(bs).Some?
    ensures exists i: nat :: EndsAt(bs, i)
  {
    if bs[0] < 0x80 {
      assert EndsAt(bs, 0);
    } else {
      SkipEnds(bs[1..]);
      OneLater(bs);
    }
  }

  /** An unknown field of a wire type that cannot be skipped ends the decoding, whatever follows; so does tag zero in a
      message without fields. */
  lemma UnknownFails(fs: seq<Field>, ms: seq<Member>, bs: seq<byte>)
    requires |ms| == |fs| && bs != [] && DecodeVarint32(bs).Some? && DecodeVarint32(bs).value.0 != 0
    requires var key := DecodeVarint32(bs).value.0;
             && (forall i :: 0 <= i < |fs| ==> fs[i].tag != key / 8)
             && (key % 8 == 3 || key % 8 == 4 || key % 8 >= 6 || (fs == [] && key < 8))
    ensures DecodeMessage(fs, ms, bs).None?
  {
    hide DecodeVarint32, DecodeMember, RequiredSeen, SkipField;
    var (key, rest) := DecodeVarint32(bs).value;
    SkipExactly(key % 8, rest);
    assert FindField(fs, key / 8).None?;
    assert DecodeOne(fs, ms, {}, key, rest).None?;
  }

  /** Bytes that break off within a key are never a message. */
  lemma UnfinishedFails(fs: seq<Field>, ms: seq<Member>, bs: seq<byte>)
    requires |ms| == |fs| && bs != [] && forall k :: 0 <= k < |bs| ==> bs[k] >= 0x80
    ensures DecodeMessage(fs, ms, bs).None?
  {
    hide DecodeVarint32, DecodeOne, RequiredSeen;
    if DecodeVarint32(bs).Some? {
      Varint32Ends(bs);
    }
  }

  // --- Known fields -----------------------------------------------------------------------------

  /** The wire type of a known field decides one thing only: whether numbers of an array come packed. */
  lemma WireTypeMatters(f: Field, code: nat, other: nat, m: Member, bs: seq<byte>)
    requires f.rule.Repeated? && f.ltype.Num? ==> (code == 2 <==> other == 2)
    ensures DecodeMember(f, code, m, bs) == DecodeMember(f, other, m, bs)
  {
    hide DecodeValue, InitialValue, DecodePacked, Substream;
  }

  /** A number that comes by itself is appended to the array, if there is room. */
  lemma ItemIsAppended(f: Field, code: nat, items: seq<Value>, bs: seq<byte>)
    requires f.rule.Repeated? && f.ltype.Num? && code != 2
    ensures DecodeMember(f, code, Many(items), bs) ==
            match DecodeNumber(f.ltype.kind, bs)
            case None => None
            case Some((n, rest)) => if |items| < f.rule.max then Some((Many(items + [Int(n)]), rest)) else None
  {
    hide DecodeNumber;
  }

  /** An inline array takes exactly its size, or nothing, which zeroes it. */
  lemma InlineExactly(size: uint32, base: Value, data: seq<byte>, rest: seq<byte>)
    requires |data| < TWO_32
    ensures match DecodeValue(Inline(size), base, Delimited(data) + rest)
            case None => data != [] && |data| != size
            case Some((v, after)) =>
              && v.Octets? && |v.bytes| == size && after == rest
              && (if data == [] then forall i :: 0 <= i < size ==> v.bytes[i] == 0 else v.bytes == data)
  {
    hide Delimited;
    SubstreamOfDelimited(data, rest);
    ZerosAt(size);
  }

  lemma {:induction false} ZerosAt(n: nat)
    ensures forall i :: 0 <= i < n ==> Zeros(n)[i] == 0
  {
    if n > 0 {
      ZerosAt(n - 1);
    }
  }

  /** A text ends at its first NUL; all of its bytes and the terminator must fit. */
  lemma TextExactly(size: uint32, base: Value, data: seq<byte>, rest: seq<byte>)
    requires |data| < TWO_32
    ensures match DecodeValue(Text(size), base, Delimited(data) + rest)
            case None => |data| >= size
            case Some((v, after)) =>
              && |data| < size && after == rest && v.Octets? && 0 !in v.bytes && v.bytes <= data
              && (|v.bytes| < |data| ==> data[|v.bytes|] == 0)
  {
    hide Delimited;
    SubstreamOfDelimited(data, rest);
    UpToFirstNul(data);
  }

  lemma {:induction false} UpToFirstNul(bs: seq<byte>)
    ensures UpToNul(bs) <= bs && (|UpToNul(bs)| < |bs| ==> bs[|UpToNul(bs)|] == 0)
  {
    if bs != [] && bs[0] != 0 {
      UpToFirstNul(bs[1..]);
      assert bs == [bs[0]] + bs[1..];
    }
  }

  /** A zero key ends a submessage; what follows it there is ignored. */
  lemma SubmessageEndsEarly(fs: seq<Field>, ms: seq<Member>, data: seq<byte>, ignored: seq<byte>, rest: seq<byte>)
    requires |ms| == |fs| && WellFormed(fs) && Conforms(fs, ms) && EncodeMessage(fs, ms) == Some(data)
    requires |data| + |ignored| + 1 < TWO_32
    ensures DecodeValue(Message(fs), Struct(Defaults(fs)), Delimited(data + ([0] + ignored)) + rest)
            == Some((Struct(ms), rest))
  {
    hide WellFormed, Conforms, EncodeMessage, DecodeMessage, Defaults, Delimited, Substream;
    SubstreamOfDelimited(data + ([0] + ignored), rest);
    DecodeOfNullTerminated(fs, ms, ignored);
  }

  // --- Every decoded struct conforms ------------------------------------------------------------

  /** The default values fit their struct members, at every depth. */
  ghost predicate StartsRight(fs: seq<Field>)
    decreases fs
  {
    forall i :: 0 <= i < |fs| ==> StartsRightField(fs[i])
  }

  ghost predicate StartsRightField(f: Field)
    decreases f
  {
    ConformsMember(f, InitialMember(f)) && (f.ltype.Message? ==> StartsRight(f.ltype.fields))
  }

  ghost predicate StartsRightType(t: FieldType) {
    t.Message? ==> StartsRight(t.fields)
  }

  lemma DefaultsConform(fs: seq<Field>)
    requires StartsRight(fs)
    ensures Conforms(fs, Defaults(fs))
  {
    hide ConformsMember, StartsRight;
    var ms := Defaults(fs);
    forall i | 0 <= i < |fs| ensures ms[i] == InitialMember(fs[i]) && ConformsMember(fs[i], ms[i]) {
      DefaultsAt(fs, i);
      StartsRightAt(fs, i);
    }
  }

  lemma StartsRightAt(fs: seq<Field>, i: nat)
    requires StartsRight(fs) && i < |fs|
    ensures ConformsMember(fs[i], InitialMember(fs[i])) && StartsRightType(fs[i].ltype)
  {
  }

  lemma InitialStructConforms(f: Field)
    requires f.ltype.Message? && StartsRightType(f.ltype)
    ensures ConformsValue(f.ltype, InitialValue(f))
  {
    hide Conforms, StartsRight, Defaults;
    DefaultsConform(f.ltype.fields);
  }

  lemma {:induction false} PackedConforms(kind: Numeric, max: nat, items: seq<Value>, bs: seq<byte>)
    requires DecodePacked(kind, max, items, bs).Some? && |items| <= max
    requires forall j :: 0 <= j < |items| ==> ConformsValue(Num(kind), items[j])
    ensures var after := DecodePacked(kind, max, items, bs).value;
            |after| <= max && items <= after && forall j :: 0 <= j < |after| ==> ConformsValue(Num(kind), after[j])
    decreases |bs|
  {
    hide DecodeNumber, Fits;
    if bs != [] {
      var (n, rest) := DecodeNumber(kind, bs).value;
      PackedConforms(kind, max, items + [Int(n)], rest);
    }
  }

  lemma {:induction false} DecodedValueConforms(t: FieldType, base: Value, bs: seq<byte>)
    requires DecodeValue(t, base, bs).Some? && StartsRightType(t) && (t.Message? ==> ConformsValue(t, base))
    ensures ConformsValue(t, DecodeValue(t, base, bs).value.0)
    decreases t, 1
  {
    hide DecodeNumber, Substream, DecodeMessage, Conforms, StartsRight, Fits;
    if t.Message? {
      var (s, rest) := Substream(bs).value;
      DecodedConforms(t.fields, base.members, s);
    }
  }

  lemma {:induction false} DecodedMemberConforms(f: Field, code: nat, m: Member, bs: seq<byte>)
    requires DecodeMember(f, code, m, bs).Some? && ConformsMember(f, m) && StartsRightType(f.ltype)
    ensures ConformsMember(f, DecodeMember(f, code, m, bs).value.0)
    decreases f, 3
  {
    hide DecodeValue, ConformsValue, StartsRightType, InitialValue, DecodePacked, Substream;
    if f.ltype.Message? {
      InitialStructConforms(f);
    }
    if f.rule.Repeated? {
      if code == StringWire.Code() && f.ltype.Num? {
        var (s, rest) := Substream(bs).value;
        PackedConforms(f.ltype.kind, f.rule.max, m.items, s);
      } else {
        DecodedValueConforms(f.ltype, InitialValue(f), bs);
      }
    } else {
      var base :=
        if f.rule.Optional? && m.held.Some? then m.held.value
        else if m.One? then m.value
        else InitialValue(f);
      DecodedValueConforms(f.ltype, base, bs);
    }
  }

  lemma SetConforms(fs: seq<Field>, ms: seq<Member>, i: nat, m: Member)
    requires |ms| == |fs| && i < |fs| && Conforms(fs, ms) && ConformsMember(fs[i], m)
    ensures Conforms(fs, SetMember(fs, ms, i, m))
  {
    hide ConformsMember;
    SetSelects(fs, ms, i, m);
    var ms' := SetMember(fs, ms, i, m);
    forall j | 0 <= j < |fs| ensures ConformsMember(fs[j], ms'[j]) {
      if j != i && SameUnion(fs, i, j) {
        UnselectedConforms(fs[j]);
      }
    }
  }

  lemma UnselectedConforms(f: Field)
    requires f.rule.Oneof?
    ensures ConformsMember(f, Maybe(None))
  {
  }

  lemma {:induction false} FieldsConform(fs: seq<Field>, ms: seq<Member>, seen: set<nat>, bs: seq<byte>)
    requires |ms| == |fs| && StartsRight(fs) && Conforms(fs, ms) && DecodeFields(fs, ms, seen, bs).Some?
    ensures Conforms(fs, DecodeFields(fs, ms, seen, bs).value.0)
    decreases fs, 1, |bs|
  {
    hide DecodeOne, DecodeVarint32, Conforms, StartsRight;
    if bs != [] && DecodeVarint32(bs).value.0 != 0 {
      var (key, rest) := DecodeVarint32(bs).value;
      OneConforms(fs, ms, seen, key, rest);
      var (ms', seen', rest') := DecodeOne(fs, ms, seen, key, rest).value;
      FieldsConform(fs, ms', seen', rest');
    }
  }

  lemma {:induction false} OneConforms(fs: seq<Field>, ms: seq<Member>, seen: set<nat>, key: nat, bs: seq<byte>)
    requires |ms| == |fs| && StartsRight(fs) && Conforms(fs, ms) && DecodeOne(fs, ms, seen, key, bs).Some?
    ensures Conforms(fs, DecodeOne(fs, ms, seen, key, bs).value.0)
    decreases fs, 0
  {
    hide DecodeMember, SetMember, SkipField, Conforms, StartsRight, ConformsMember;
    var at := FindField(fs, key / 8);
    if at.Some? {
      var i := at.value;
      StartsRightAt(fs, i);
      ConformsAt(fs, ms, i);
      DecodedMemberConforms(fs[i], key % 8, ms[i], bs);
      SetConforms(fs, ms, i, DecodeMember(fs[i], key % 8, ms[i], bs).value.0);
    }
  }

  lemma ConformsAt(fs: seq<Field>, ms: seq<Member>, i: nat)
    requires |ms| == |fs| && i < |fs| && Conforms(fs, ms)
    ensures ConformsMember(fs[i], ms[i])
  {
  }

  /** Any bytes, decoded into a struct that conforms, leave one that conforms: no number, text, byte array or count
      exceeds its place, at any depth, and no oneof has two members. */
  lemma {:induction false} DecodedConforms(fs: seq<Field>, ms: seq<Member>, bs: seq<byte>)
    requires |ms| == |fs| && StartsRight(fs) && Conforms(fs, ms) && DecodeMessage(fs, ms, bs).Some?
    ensures Conforms(fs, DecodeMessage(fs, ms, bs).value.0)
    decreases fs, 2
  {
    hide DecodeFields, RequiredSeen, Conforms, StartsRight;
    FieldsConform(fs, ms, {}, bs);
  }

  /** Whatever bytes were accepted, the struct they made can be encoded, and that encoding is accepted for the same
      struct. */
  lemma AcceptedIsEncodable(fs: seq<Field>, bs: seq<byte>)
    requires WellFormed(fs) && StartsRight(fs) && DecodeMessage(fs, Defaults(fs), bs).Some?
    ensures var ms := DecodeMessage(fs, Defaults(fs), bs).value.0;
            && EncodeMessage(fs, ms).Some?
            && (|EncodeMessage(fs, ms).value| < TWO_32 ==>
                  DecodeMessage(fs, Defaults(fs), EncodeMessage(fs, ms).value) == Some((ms, [])))
  {
    hide WellFormed, StartsRight, DecodeMessage, EncodeMessage, Defaults, Conforms;
    DefaultsConform(fs);
    DecodedConforms(fs, Defaults(fs), bs);
    DecodeOfEncode(fs, DecodeMessage(fs, Defaults(fs), bs).value.0);
  }

  // --- Required fields --------------------------------------------------------------------------

  ghost function RequiredOf(fs: seq<Field>, list: seq<nat>): set<nat> {
    set i | i in list && i < |fs| && fs[i].rule == Required
  }

  lemma {:induction false} SeenIsWhatCame(fs: seq<Field>, ms: seq<Member>, seen: set<nat>, bs: seq<byte>)
    requires |ms| == |fs| && DecodeFields(fs, ms, seen, bs).Some?
    ensures DecodeFields(fs, ms, seen, bs).value.1 == seen + RequiredOf(fs, FieldsIn(fs, ms, seen, bs))
    decreases |bs|
  {
    hide DecodeMember, DecodeVarint32, FindField, SetMember, SkipField;
    if bs != [] && DecodeVarint32(bs).value.0 != 0 {
      var (key, rest) := DecodeVarint32(bs).value;
      var (ms', seen', rest') := DecodeOne(fs, ms, seen, key, rest).value;
      ShorterAfterKey(bs);
      SeenIsWhatCame(fs, ms', seen', rest');
      var at, tail := FindField(fs, key / 8), FieldsIn(fs, ms', seen', rest');
      if at.Some? {
        assert RequiredOf(fs, [at.value] + tail) == RequiredOf(fs, [at.value]) + RequiredOf(fs, tail);
      }
    }
  }

  /** Any bytes: where the fields can be read, the message is accepted if and only if every one of the first 64 required
      fields is among them, wherever it comes and however often. */
  lemma RequiredExactly(fs: seq<Field>, ms: seq<Member>, bs: seq<byte>)
    requires |ms| == |fs|
    ensures DecodeMessage(fs, ms, bs).Some? <==>
              && DecodeFields(fs, ms, {}, bs).Some?
              && forall i :: 0 <= i < |fs| && fs[i].rule == Required && RequiredBefore(fs, i) < 64 ==>
                   i in FieldsIn(fs, ms, {}, bs)
  {
    hide DecodeFields, FieldsIn;
    if DecodeFields(fs, ms, {}, bs).Some? {
      SeenIsWhatCame(fs, ms, {}, bs);
    }
  }

  // --- What the encoder refuses -----------------------------------------------------------------

  ghost predicate BoundedValue(t: FieldType, v: Value)
    decreases t, 1
  {
    match t
    case Num(kind) => kind.Fixed32? || kind.Fixed64? || ValidSize(kind.size)
    case Blob(capacity) => v.Octets? && |v.bytes| <= capacity
    case Message(fs) => v.Struct? && |v.members| == |fs| && Bounded(fs, v.members)
    case _ => true
  }

  ghost predicate BoundedMember(f: Field, m: Member)
    decreases f, 2
  {
    match m
    case One(v) => BoundedValue(f.ltype, v) || (f.rule.Singular? && f.ltype.Num? && v == Int(0))
    case Maybe(held) => held.Some? ==> BoundedValue(f.ltype, held.value)
    case Many(items) =>
      (f.rule.Repeated? ==> |items| <= f.rule.max)
      && forall j :: 0 <= j < |items| ==> BoundedValue(f.ltype, items[j])
  }

  /** Byte arrays are within their capacity, arrays within theirs, and every number that is written has a width that the
      encoder knows. */
  ghost predicate Bounded(fs: seq<Field>, ms: seq<Member>)
    requires |fs| == |ms|
    decreases fs
  {
    forall i :: 0 <= i < |fs| ==> BoundedMember(fs[i], ms[i])
  }

  lemma {:induction false} ValueExactly(t: FieldType, v: Value)
    requires PbEncoder.TypedValue(t, v)
    ensures EncodeValue(t, v).Some? <==> BoundedValue(t, v)
    decreases t, 1
  {
    hide EncodeMessage, PbEncoder.Typed, Bounded;
    if t.Message? {
      MessageExactly(t.fields, v.members);
    }
  }

  lemma {:induction false} ItemsExactly(f: Field, items: seq<Value>)
    requires forall j :: 0 <= j < |items| ==> PbEncoder.TypedValue(f.ltype, items[j])
    ensures EncodeItems(f, items).Some? <==> forall j :: 0 <= j < |items| ==> BoundedValue(f.ltype, items[j])
    decreases f, 2, |items|
  {
    hide EncodeValue, PbEncoder.TypedValue, BoundedValue;
    if items != [] {
      ValueExactly(f.ltype, items[0]);
      ItemsExactly(f, items[1..]);
      assert forall j :: 0 < j < |items| ==> items[j] == items[1..][j - 1];
    }
  }

  lemma {:induction false} PackedExactly(kind: Numeric, items: seq<Value>)
    requires forall j :: 0 <= j < |items| ==> PbEncoder.TypedValue(Num(kind), items[j])
    ensures EncodePacked(kind, items).Some? <==> forall j :: 0 <= j < |items| ==> BoundedValue(Num(kind), items[j])
    decreases |items|
  {
    hide EncodeNumber, PbEncoder.TypedValue, BoundedValue;
    if items != [] {
      NumberIsItem(kind, items[0]);
      PackedExactly(kind, items[1..]);
      assert forall j :: 0 < j < |items| ==> items[j] == items[1..][j - 1];
    }
  }

  lemma NumberIsItem(kind: Numeric, v: Value)
    requires PbEncoder.TypedValue(Num(kind), v)
    ensures v.Int? && (EncodeNumber(kind, v.n).Some? <==> BoundedValue(Num(kind), v))
  {
  }

  lemma {:induction false} DefaultIsBounded(t: FieldType, v: Value)
    requires PbEncoder.TypedValue(t, v) && IsDefaultValue(t, v)
    ensures BoundedValue(t, v) || (t.Num? && v == Int(0))
    decreases t, 1
  {
    if t.Message? {
      hide PbEncoder.TypedMember, BoundedMember;
      var fs, ms := t.fields, v.members;
      forall i | 0 <= i < |fs| ensures BoundedMember(fs[i], ms[i]) {
        AllDefaultAt(fs, ms, i);
        DefaultMemberIsBounded(fs[i], ms[i]);
      }
    }
  }

  lemma {:induction false} DefaultMemberIsBounded(f: Field, m: Member)
    requires PbEncoder.TypedMember(f, m) && IsDefaultMember(f, m)
    ensures BoundedMember(f, m)
    decreases f, 2
  {
    hide IsDefaultValue, PbEncoder.TypedValue, BoundedValue;
    if f.rule.Singular? {
      DefaultIsBounded(f.ltype, m.value);
    }
  }

  lemma {:induction false} MemberExactly(f: Field, m: Member)
    requires PbEncoder.TypedMember(f, m)
    ensures EncodeMember(f, m).Some? <==> BoundedMember(f, m)
    decreases f, 3
  {
    hide EncodeValue, PbEncoder.TypedValue, BoundedValue, EncodePacked, EncodeItems, IsDefaultValue;
    match f.rule
    case Repeated(max) =>
      if f.ltype.Num? {
        PackedExactly(f.ltype.kind, m.items);
      } else {
        ItemsExactly(f, m.items);
      }
    case Singular =>
      SingularExactly(f, m.value);
    case Required =>
      ValueExactly(f.ltype, m.value);
    case _ =>
      if m.held.Some? {
        ValueExactly(f.ltype, m.held.value);
      }
  }

  lemma {:induction false} SingularExactly(f: Field, v: Value)
    requires PbEncoder.TypedValue(f.ltype, v) && f.rule.Singular?
    ensures IsDefaultValue(f.ltype, v) || EncodeValue(f.ltype, v).Some? <==>
            BoundedValue(f.ltype, v) || (f.ltype.Num? && v == Int(0))
    decreases f, 2
  {
    hide EncodeValue, PbEncoder.TypedValue, BoundedValue;
    ValueExactly(f.ltype, v);
    if IsDefaultValue(f.ltype, v) {
      hide IsDefaultValue;
      DefaultIsBounded(f.ltype, v);
    }
  }

  lemma {:induction false} FieldsExactly(fs: seq<Field>, ms: seq<Member>, k: nat)
    requires |fs| == |ms| && k <= |fs| && PbEncoder.Typed(fs, ms)
    ensures EncodeMessage(fs[k..], ms[k..]).Some? <==> forall i :: k <= i < |fs| ==> BoundedMember(fs[i], ms[i])
    decreases fs, 1, |fs| - k
  {
    hide EncodeMember, PbEncoder.TypedMember, BoundedMember;
    if k < |fs| {
      assert fs[k..][1..] == fs[k + 1..] && ms[k..][1..] == ms[k + 1..];
      MemberExactly(fs[k], ms[k]);
      FieldsExactly(fs, ms, k + 1);
    }
  }

  /** The encoder reports no error if and only if the struct is within the bounds of its descriptor. */
  lemma {:induction false} MessageExactly(fs: seq<Field>, ms: seq<Member>)
    requires |fs| == |ms| && PbEncoder.Typed(fs, ms)
    ensures EncodeMessage(fs, ms).Some? <==> Bounded(fs, ms)
    decreases fs, 2
  {
    assert fs[0..] == fs && ms[0..] == ms;
    FieldsExactly(fs, ms, 0);
  }
}
