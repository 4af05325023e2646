/** Decoding what was encoded gives the message back, and a decoder that knows only some of the fields sees exactly the
    rest of the message. */
module PbRoundTrip {
  import opened Bits
  import opened Bytes
  import opened PbWire
  import opened PbCodec

  // --- What descriptors and structs must satisfy ------------------------------------------------

  ghost predicate ZeroInit(f: Field) {
    match f.ltype
    case Num(_) => f.init == Int(0)
    case Blob(_) => f.init == Octets([])
    case Text(_) => f.init == Octets([])
    case Inline(size) => f.init == Octets(Zeros(size))
    case Message(_) => true
  }

  /** Distinct tags that a 32-bit key can carry; no default value where presence is implicit. */
  ghost predicate WellFormed(fs: seq<Field>)
    decreases fs
  {
    && (forall i, j :: 0 <= i < j < |fs| ==> fs[i].tag != fs[j].tag)
    && (forall i :: 0 <= i < |fs| ==> WellFormedField(fs[i]))
  }

  ghost predicate WellFormedField(f: Field)
    decreases f
  {
    && 0 < f.tag < 0x2000_0000
    && (f.rule.Singular? ==> ZeroInit(f))
    && (f.ltype.Message? ==> WellFormed(f.ltype.fields))
  }

  ghost predicate ConformsValue(t: FieldType, v: Value)
    decreases t, 1
  {
    match t
    case Num(kind) => v.Int? && Fits(kind, v.n)
    case Blob(capacity) => v.Octets? && |v.bytes| <= capacity
    case Text(size) => v.Octets? && 0 !in v.bytes && |v.bytes| < size
    case Inline(size) => v.Octets? && |v.bytes| == size
    case Message(fs) => v.Struct? && |v.members| == |fs| && Conforms(fs, v.members)
  }

  ghost predicate ConformsMember(f: Field, m: Member)
    decreases f, 2
  {
    match f.rule
    case Required => m.One? && ConformsValue(f.ltype, m.value)
    case Singular => m.One? && ConformsValue(f.ltype, m.value)
    case Repeated(max) =>
      m.Many? && |m.items| <= max && forall j :: 0 <= j < |m.items| ==> ConformsValue(f.ltype, m.items[j])
    case _ => m.Maybe? && (m.held.Some? ==> ConformsValue(f.ltype, m.held.value))
  }

  /** A struct the C types and the descriptor allow: texts end within their buffers, counts are within bounds and each
      oneof selects at most one member. */
  ghost predicate Conforms(fs: seq<Field>, ms: seq<Member>)
    requires |fs| == |ms|
    decreases fs
  {
    && (forall i :: 0 <= i < |fs| ==> ConformsMember(fs[i], ms[i]))
    && (forall i, j :: 0 <= i < |fs| && 0 <= j < |fs| && SameUnion(fs, i, j) ==>
          ms[i] == Maybe(None) || ms[j] == Maybe(None))
  }

  // --- Two descriptors for one message ----------------------------------------------------------

  /** The fields both descriptors have mean the same; each side may have further ones. */
  ghost predicate Agrees(small: seq<Field>, big: seq<Field>)
    decreases small
  {
    forall i :: 0 <= i < |small| ==>
      var k := FindField(big, small[i].tag);
      k.Some? ==> AgreesField(small[i], big[k.value])
  }

  /** The required fields that the reader checks are all known to the writer. */
  ghost predicate Covers(small: seq<Field>, big: seq<Field>) {
    forall i :: 0 <= i < |small| && small[i].rule == Required && RequiredBefore(small, i) < PB_MAX_REQUIRED_FIELDS ==>
      FindField(big, small[i].tag).Some?
  }

  ghost predicate AgreesField(s: Field, b: Field)
    decreases s
  {
    s.rule == b.rule && AgreesType(s.ltype, b.ltype)
  }

  ghost predicate AgreesType(s: FieldType, b: FieldType)
    decreases s
  {
    if b.Message? then s.Message? && Agrees(s.fields, b.fields) else s == b
  }

  /** The part of a value a decoder with the smaller descriptor can see. */
  ghost function ProjectValue(s: FieldType, b: FieldType, v: Value): Value
    decreases s, 1
  {
    if s.Message? && b.Message? && v.Struct? && |v.members| == |b.fields|
    then Struct(Project(s.fields, b.fields, v.members)) else v
  }

  ghost function ProjectItems(s: FieldType, b: FieldType, vs: seq<Value>): (r: seq<Value>)
    ensures |r| == |vs|
    decreases s, 2, |vs|
  {
    if vs == [] then [] else [ProjectValue(s, b, vs[0])] + ProjectItems(s, b, vs[1..])
  }

  ghost function ProjectMember(s: Field, b: Field, m: Member): Member
    decreases s, 2
  {
    match m
    case One(v) => One(ProjectValue(s.ltype, b.ltype, v))
    case Maybe(None) => m
    case Maybe(Some(v)) => Maybe(Some(ProjectValue(s.ltype, b.ltype, v)))
    case Many(vs) => Many(ProjectItems(s.ltype, b.ltype, vs))
  }

  /** The small struct when the first `k` fields of `big` have been decoded. */
  ghost function Partial(small: seq<Field>, big: seq<Field>, ms: seq<Member>, k: nat): (r: seq<Member>)
    requires |ms| == |big|
    ensures |r| == |small|
    decreases small, 1
  {
    seq(|small|, i requires 0 <= i < |small| => PartialMember(small[i], big, ms, k))
  }

  ghost function PartialMember(s: Field, big: seq<Field>, ms: seq<Member>, k: nat): Member
    requires |ms| == |big|
    decreases s, 3
  {
    match FindField(big, s.tag)
    case None => InitialMember(s)
    case Some(j) => if j < k then ProjectMember(s, big[j], ms[j]) else InitialMember(s)
  }

  ghost function Project(small: seq<Field>, big: seq<Field>, ms: seq<Member>): (r: seq<Member>)
    requires |ms| == |big|
    ensures |r| == |small|
    decreases small, 2
  {
    Partial(small, big, ms, |big|)
  }

  // --- What the reader accepts ------------------------------------------------------------------

  /** Whether the encoder writes the member at all. */
  ghost predicate Present(f: Field, m: Member) {
    match f.rule
    case Required => true
    case Singular => m.One? && !IsDefaultValue(f.ltype, m.value)
    case Repeated(_) => m != Many([])
    case _ => m != Maybe(None)
  }

  /** The reader accepts the value: in a submessage, at every depth, the required fields it checks are known. */
  ghost predicate ReadsValue(s: FieldType, b: FieldType, v: Value)
    decreases s, 1
  {
    s.Message? && b.Message? && v.Struct? && |v.members| == |b.fields| ==> Readable(s.fields, b.fields, v.members)
  }

  ghost predicate ReadsItems(s: FieldType, b: FieldType, vs: seq<Value>)
    decreases s, 2, |vs|
  {
    vs == [] || (ReadsValue(s, b, vs[0]) && ReadsItems(s, b, vs[1..]))
  }

  ghost predicate ReadsMember(s: Field, b: Field, m: Member)
    decreases s, 2
  {
    match m
    case One(v) => ReadsValue(s.ltype, b.ltype, v)
    case Maybe(None) => true
    case Maybe(Some(v)) => ReadsValue(s.ltype, b.ltype, v)
    case Many(vs) => ReadsItems(s.ltype, b.ltype, vs)
  }

  /** Field `k` of the writer is unknown to the reader, not written, or accepted. */
  ghost predicate ReadsField(small: seq<Field>, big: seq<Field>, ms: seq<Member>, k: nat)
    requires |ms| == |big| && k < |big|
    decreases small, 0
  {
    match FindField(small, big[k].tag)
    case None => true
    case Some(i) => Present(big[k], ms[k]) ==> ReadsMember(small[i], big[k], ms[k])
  }

  ghost predicate ReadsFrom(small: seq<Field>, big: seq<Field>, ms: seq<Member>, k: nat)
    requires |ms| == |big|
    decreases small, 1
  {
    forall j :: k <= j < |big| ==> ReadsField(small, big, ms, j)
  }

  /** What a reader's success depends on: the required fields it checks are known to the writer, here and in every
      submessage that is written. */
  ghost predicate Readable(small: seq<Field>, big: seq<Field>, ms: seq<Member>)
    requires |ms| == |big|
    decreases small, 2
  {
    Covers(small, big) && ReadsFrom(small, big, ms, 0)
  }

  // --- Values -----------------------------------------------------------------------------------

  lemma SignedRoundTrip(kind: Numeric, n: int)
    requires kind.Varint? && Fits(kind, n)
    ensures FromVarint(kind, AsUnsigned64(n)) == n
  {
    if n < 0 {
      assert AsUnsigned64(n) == n + TWO_64;
      assert (n + TWO_64) % TWO_32 == if kind.size == 8 then (n + TWO_64) % TWO_32 else n + TWO_32;
    }
  }

  lemma VarintKindRoundTrip(kind: Numeric, n: int, rest: seq<byte>)
    requires !kind.Fixed32? && !kind.Fixed64? && Fits(kind, n)
    ensures EncodeNumber(kind, n).Some? && EncodeNumber(kind, n).value != []
    ensures DecodeNumber(kind, EncodeNumber(kind, n).value + rest) == Some((n, rest))
    ensures SkipVarint(EncodeNumber(kind, n).value + rest) == Some(rest)
  {
    hide EncodeVarint, DecodeVarint, SkipVarint, FromVarint, AsUnsigned64;
    var v: uint64 := if kind.Varint? then AsUnsigned64(n) else if kind.SVarint? then ZigZag(n) else n;
    assert FromVarint(kind, v) == n by {
      if kind.Varint? {
        SignedRoundTrip(kind, n);
      } else {
        ZigZagRoundTrip(n, v);
        FromVarintUnsigned(kind, v);
      }
    }
    VarintRoundTrip(v, rest);
    SkipOneVarint(v, rest);
  }

  lemma FromVarintUnsigned(kind: Numeric, v: uint64)
    ensures kind.SVarint? ==> FromVarint(kind, v) == UnZigZag(v)
    ensures kind.UVarint? ==> FromVarint(kind, v) == v
  {
  }

  lemma FixedKindRoundTrip(kind: Numeric, n: int, rest: seq<byte>)
    requires (kind.Fixed32? || kind.Fixed64?) && Fits(kind, n)
    ensures EncodeNumber(kind, n).Some? && EncodeNumber(kind, n).value != []
    ensures DecodeNumber(kind, EncodeNumber(kind, n).value + rest) == Some((n, rest))
    ensures SkipField(WireOf(Num(kind)).Code(), EncodeNumber(kind, n).value + rest) == Some(rest)
  {
    hide LittleEndian, FromLittleEndian;
    var k := if kind.Fixed32? then 4 else 8;
    var bs := LittleEndian(n, k) + rest;
    Pow2Of32();
    Pow2Of64();
    LittleEndianRoundTrip(n, k);
    assert bs[..k] == LittleEndian(n, k) && bs[k..] == rest;
  }

  /** Every number a struct member holds comes back, and an unaware decoder skips exactly its bytes. */
  lemma NumberRoundTrip(kind: Numeric, n: int, rest: seq<byte>)
    requires Fits(kind, n)
    ensures EncodeNumber(kind, n).Some? && EncodeNumber(kind, n).value != []
    ensures DecodeNumber(kind, EncodeNumber(kind, n).value + rest) == Some((n, rest))
    ensures SkipField(WireOf(Num(kind)).Code(), EncodeNumber(kind, n).value + rest) == Some(rest)
  {
    hide EncodeNumber, DecodeNumber, SkipVarint;
    if kind.Fixed32? || kind.Fixed64? {
      FixedKindRoundTrip(kind, n, rest);
    } else {
      VarintKindRoundTrip(kind, n, rest);
    }
  }

  lemma {:induction false} UpToNulIsAll(bs: seq<byte>)
    requires 0 !in bs
    ensures UpToNul(bs) == bs
  {
    if bs != [] {
      UpToNulIsAll(bs[1..]);
    }
  }

  /** A text survives exactly when it ends within its buffer: the encoder also accepts one that fills it. */
  lemma TextRoundTripsExactly(size: uint32, text: seq<byte>, rest: seq<byte>)
    requires 0 !in text && |text| <= size
    ensures EncodeValue(Text(size), Octets(text)) == Some(Delimited(text))
    ensures DecodeValue(Text(size), Octets([]), Delimited(text) + rest) == Some((Octets(text), rest)) <==> |text| < size
  {
    SubstreamOfDelimited(text, rest);
    UpToNulIsAll(text);
  }

  lemma SkipValue(t: FieldType, v: Value, rest: seq<byte>)
    requires ConformsValue(t, v) && EncodeValue(t, v).Some? && |EncodeValue(t, v).value| < TWO_32
    ensures SkipField(WireOf(t).Code(), EncodeValue(t, v).value + rest) == Some(rest)
  {
    hide Substream, Delimited, EncodeMessage, EncodeNumber, SkipVarint;
    match t
    case Num(kind) => NumberRoundTrip(kind, v.n, rest);
    case Message(fs) => SkipDelimited(EncodeMessage(fs, v.members).value, rest);
    case _ => SkipDelimited(v.bytes, rest);
  }

  lemma SkipDelimited(bs: seq<byte>, rest: seq<byte>)
    requires |Delimited(bs)| < TWO_32
    ensures SkipField(StringWire.Code(), Delimited(bs) + rest) == Some(rest)
  {
    SubstreamOfDelimited(bs, rest);
  }

  lemma {:induction false} PackedRoundTrip(kind: Numeric, max: nat, done: seq<Value>, items: seq<Value>)
    requires |done| + |items| <= max
    requires forall j :: 0 <= j < |items| ==> ConformsValue(Num(kind), items[j])
    ensures EncodePacked(kind, items).Some?
    ensures DecodePacked(kind, max, done, EncodePacked(kind, items).value) == Some(done + items)
    decreases |items|
  {
    hide EncodeNumber, DecodeNumber, Fits;
    if items == [] {
      assert done + items == done;
    } else {
      assert ConformsValue(Num(kind), items[0]);
      PackedRoundTrip(kind, max, done + [items[0]], items[1..]);
      NumberRoundTrip(kind, items[0].n, EncodePacked(kind, items[1..]).value);
      assert done + [items[0]] + items[1..] == done + items;
    }
  }

  lemma {:induction false} ProjectItemsSame(t: FieldType, vs: seq<Value>)
    requires !t.Message?
    ensures ProjectItems(t, t, vs) == vs
    decreases |vs|
  {
    if vs != [] {
      ProjectItemsSame(t, vs[1..]);
    }
  }

  // --- One record of the field loop -------------------------------------------------------------

  lemma KeyStep(fs: seq<Field>, st: seq<Member>, seen: set<nat>, tag: uint32, wire: WireType, x: seq<byte>)
    requires |st| == |fs| && 0 < tag < 0x2000_0000
    ensures DecodeFields(fs, st, seen, Key(tag, wire) + x) ==
            match DecodeOne(fs, st, seen, 8 * tag + wire.Code(), x)
            case None => None
            case Some((st', seen', x')) => DecodeFields(fs, st', seen', x')
  {
    hide DecodeVarint32, DecodeOne;
    KeyRoundTrip(tag, wire, x);
  }

  lemma SkipTagged(fs: seq<Field>, st: seq<Member>, seen: set<nat>, f: Field, v: Value, rest: seq<byte>)
    requires |st| == |fs| && 0 < f.tag < 0x2000_0000 && FindField(fs, f.tag).None?
    requires ConformsValue(f.ltype, v) && EncodeTagged(f, v).Some? && |EncodeTagged(f, v).value| < TWO_32
    ensures DecodeFields(fs, st, seen, EncodeTagged(f, v).value + rest) == DecodeFields(fs, st, seen, rest)
  {
    hide DecodeFields, EncodeValue, ConformsValue, Key, SkipField, FindField;
    var e := EncodeValue(f.ltype, v).value;
    SkipValue(f.ltype, v, rest);
    KeyStep(fs, st, seen, f.tag, WireOf(f.ltype), e + rest);
    assert EncodeTagged(f, v).value + rest == Key(f.tag, WireOf(f.ltype)) + (e + rest);
  }

  lemma {:induction false} SkipItems(fs: seq<Field>, st: seq<Member>, seen: set<nat>, f: Field, vs: seq<Value>,
                                     rest: seq<byte>)
    requires |st| == |fs| && 0 < f.tag < 0x2000_0000 && FindField(fs, f.tag).None?
    requires forall j :: 0 <= j < |vs| ==> ConformsValue(f.ltype, vs[j])
    requires EncodeItems(f, vs).Some? && |EncodeItems(f, vs).value| < TWO_32
    ensures DecodeFields(fs, st, seen, EncodeItems(f, vs).value + rest) == DecodeFields(fs, st, seen, rest)
    decreases |vs|
  {
    hide DecodeFields, EncodeTagged, ConformsValue, FindField;
    if vs == [] {
      assert [] + rest == rest;
    } else {
      var tail := EncodeItems(f, vs[1..]).value;
      assert ConformsValue(f.ltype, vs[0]);
      SkipTagged(fs, st, seen, f, vs[0], tail + rest);
      SkipItems(fs, st, seen, f, vs[1..], rest);
      assert EncodeItems(f, vs).value + rest == EncodeTagged(f, vs[0]).value + (tail + rest);
    }
  }

  /** A decoder without the field skips precisely the bytes the field occupies. */
  lemma SkipMember(fs: seq<Field>, st: seq<Member>, seen: set<nat>, f: Field, m: Member, rest: seq<byte>)
    requires |st| == |fs| && WellFormedField(f) && FindField(fs, f.tag).None? && ConformsMember(f, m)
    requires EncodeMember(f, m).Some? && |EncodeMember(f, m).value| < TWO_32
    ensures DecodeFields(fs, st, seen, EncodeMember(f, m).value + rest) == DecodeFields(fs, st, seen, rest)
  {
    hide DecodeFields, EncodeTagged, EncodeItems, EncodePacked, ConformsValue, FindField, IsDefaultValue;
    assert [] + rest == rest;
    if f.rule.Repeated? {
      if m.items != [] {
        if f.ltype.Num? {
          SkipPacked(fs, st, seen, f, m.items, rest);
        } else {
          SkipItems(fs, st, seen, f, m.items, rest);
        }
      }
    } else if m.One? {
      if !(f.rule.Singular? && IsDefaultValue(f.ltype, m.value)) {
        SkipTagged(fs, st, seen, f, m.value, rest);
      }
    } else if m.held.Some? {
      SkipTagged(fs, st, seen, f, m.held.value, rest);
    }
  }

  lemma SkipPacked(fs: seq<Field>, st: seq<Member>, seen: set<nat>, f: Field, items: seq<Value>, rest: seq<byte>)
    requires |st| == |fs| && 0 < f.tag < 0x2000_0000 && FindField(fs, f.tag).None? && f.ltype.Num?
    requires EncodePacked(f.ltype.kind, items).Some? && |Delimited(EncodePacked(f.ltype.kind, items).value)| < TWO_32
    ensures DecodeFields(fs, st, seen,
                         Key(f.tag, StringWire) + Delimited(EncodePacked(f.ltype.kind, items).value) + rest)
            == DecodeFields(fs, st, seen, rest)
  {
    hide DecodeFields, EncodePacked, Delimited, SkipField, FindField, Key;
    var d := Delimited(EncodePacked(f.ltype.kind, items).value);
    SkipDelimited(EncodePacked(f.ltype.kind, items).value, rest);
    KeyStep(fs, st, seen, f.tag, StringWire, d + rest);
    assert Key(f.tag, StringWire) + d + rest == Key(f.tag, StringWire) + (d + rest);
  }

  /** One occurrence of a known field goes to its member. */
  lemma StoreTagged(small: seq<Field>, i: nat, b: Field, st: seq<Member>, seen: set<nat>, v: Value, after: Member,
                    rest: seq<byte>)
    requires |st| == |small| && i < |small| && 0 < b.tag < 0x2000_0000 && FindField(small, b.tag) == Some(i)
    requires EncodeTagged(b, v).Some?
    requires DecodeMember(small[i], WireOf(b.ltype).Code(), st[i], EncodeValue(b.ltype, v).value + rest)
             == Some((after, rest))
    ensures DecodeFields(small, st, seen, EncodeTagged(b, v).value + rest)
            == DecodeFields(small, SetMember(small, st, i, after), Mark(small, i, seen), rest)
  {
    hide DecodeFields, EncodeValue, DecodeMember, Key, FindField, SetMember;
    var e := EncodeValue(b.ltype, v).value;
    KeyStep(small, st, seen, b.tag, WireOf(b.ltype), e + rest);
    assert EncodeTagged(b, v).value + rest == Key(b.tag, WireOf(b.ltype)) + (e + rest);
  }

  /** One that its member cannot take ends the decoding. */
  lemma RefuseTagged(small: seq<Field>, i: nat, b: Field, st: seq<Member>, seen: set<nat>, v: Value, rest: seq<byte>)
    requires |st| == |small| && i < |small| && 0 < b.tag < 0x2000_0000 && FindField(small, b.tag) == Some(i)
    requires EncodeTagged(b, v).Some?
    requires DecodeMember(small[i], WireOf(b.ltype).Code(), st[i], EncodeValue(b.ltype, v).value + rest).None?
    ensures DecodeFields(small, st, seen, EncodeTagged(b, v).value + rest).None?
  {
    hide DecodeFields, EncodeValue, DecodeMember, Key, FindField, SetMember;
    var e := EncodeValue(b.ltype, v).value;
    KeyStep(small, st, seen, b.tag, WireOf(b.ltype), e + rest);
    assert EncodeTagged(b, v).value + rest == Key(b.tag, WireOf(b.ltype)) + (e + rest);
  }

  ghost function Mark(fs: seq<Field>, i: nat, seen: set<nat>): set<nat>
    requires i < |fs|
  {
    if fs[i].rule == Required then seen + {i} else seen
  }

  lemma SetTwice(fs: seq<Field>, ms: seq<Member>, i: nat, m: Member, m': Member)
    requires |ms| == |fs| && i < |fs|
    ensures SetMember(fs, SetMember(fs, ms, i, m), i, m') == SetMember(fs, ms, i, m')
  {
  }

  lemma SetSame(fs: seq<Field>, ms: seq<Member>, i: nat)
    requires |ms| == |fs| && i < |fs| && !fs[i].rule.Oneof?
    ensures SetMember(fs, ms, i, ms[i]) == ms
  {
  }

  // --- The whole message ------------------------------------------------------------------------

  /** A tail the field loop stops at: the end of the stream or a zero byte. */
  ghost predicate Ends(tail: seq<byte>) {
    tail == [] || tail[0] == 0
  }

  ghost function AfterEnd(tail: seq<byte>): seq<byte> {
    if tail == [] then [] else tail[1..]
  }

  /** A value decodes to its projection if the reader accepts it, and not at all otherwise. */
  lemma {:induction false} ValueRoundTrip(s: Field, b: Field, v: Value, rest: seq<byte>)
    requires AgreesField(s, b) && WellFormedField(s) && WellFormedField(b) && ConformsValue(b.ltype, v)
    requires EncodeValue(b.ltype, v).Some? && |EncodeValue(b.ltype, v).value| < TWO_32
    ensures DecodeValue(s.ltype, InitialValue(s), EncodeValue(b.ltype, v).value + rest)
            == if ReadsValue(s.ltype, b.ltype, v) then Some((ProjectValue(s.ltype, b.ltype, v), rest)) else None
    decreases b, 1
  {
    hide Substream, Delimited, EncodeMessage, DecodeMessage, EncodeNumber, DecodeNumber, Project, Conforms, WellFormed,
         Readable;
    if b.ltype.Num? {
      NumberRoundTrip(b.ltype.kind, v.n, rest);
    } else if b.ltype.Message? {
      var big := b.ltype.fields;
      var e := EncodeMessage(big, v.members).value;
      DelimitedLength(e);
      SubstreamOfDelimited(e, rest);
      MessageRoundTrip(s.ltype.fields, big, v.members, []);
      assert e + [] == e;
    } else {
      DelimitedLength(v.bytes);
      SubstreamOfDelimited(v.bytes, rest);
      UpToNulIfText(b.ltype, v.bytes);
      assert Zeros(0) == [];
    }
  }

  lemma UpToNulIfText(t: FieldType, bs: seq<byte>)
    ensures t.Text? && 0 !in bs ==> UpToNul(bs) == bs
  {
    if t.Text? && 0 !in bs {
      UpToNulIsAll(bs);
    }
  }

  lemma DelimitedLength(bs: seq<byte>)
    ensures |Delimited(bs)| > |bs|
  {
  }

  /** The items of an unpacked array are appended one by one. */
  lemma {:induction false} StoreItems(small: seq<Field>, i: nat, b: Field, st: seq<Member>, seen: set<nat>,
                                      done: seq<Value>, items: seq<Value>, rest: seq<byte>)
    requires |st| == |small| && i < |small| && FindField(small, b.tag) == Some(i)
    requires AgreesField(small[i], b) && WellFormedField(small[i]) && WellFormedField(b)
    requires b.rule.Repeated? && !b.ltype.Num? && |done| + |items| <= b.rule.max && st[i] == Many(done)
    requires forall j :: 0 <= j < |items| ==> ConformsValue(b.ltype, items[j])
    requires EncodeItems(b, items).Some? && |EncodeItems(b, items).value| < TWO_32
    ensures DecodeFields(small, st, seen, EncodeItems(b, items).value + rest) ==
            if !ReadsItems(small[i].ltype, b.ltype, items) then None
            else DecodeFields(small, SetMember(small, st, i, Many(done + ProjectItems(small[i].ltype, b.ltype, items))),
                              seen, rest)
    decreases b, 2, |items|
  {
    hide DecodeFields, EncodeTagged, EncodeValue, ConformsValue, FindField, SetMember, ProjectValue, WellFormedField,
         DecodeValue, InitialValue, AgreesType, ReadsValue;
    var s := small[i];
    if items == [] {
      assert [] + rest == rest;
      assert done + [] == done;
      SetSame(small, st, i);
    } else {
      assert ConformsValue(b.ltype, items[0]);
      var tail := EncodeItems(b, items[1..]).value;
      var v := ProjectValue(s.ltype, b.ltype, items[0]);
      TaggedLength(b, items[0]);
      ValueRoundTrip(s, b, items[0], tail + rest);
      AgreesNumbers(s, b);
      TagInRange(b);
      assert EncodeItems(b, items).value + rest == EncodeTagged(b, items[0]).value + (tail + rest);
      if !ReadsValue(s.ltype, b.ltype, items[0]) {
        RefuseTagged(small, i, b, st, seen, items[0], tail + rest);
        return;
      }
      StoreTagged(small, i, b, st, seen, items[0], Many(done + [v]), tail + rest);
      var st' := SetMember(small, st, i, Many(done + [v]));
      assert st'[i] == Many(done + [v]) by { SetGets(small, st, i, Many(done + [v])); }
      StoreItems(small, i, b, st', seen, done + [v], items[1..], rest);
      var all := done + [v] + ProjectItems(s.ltype, b.ltype, items[1..]);
      assert all == done + ProjectItems(s.ltype, b.ltype, items);
      SetTwice(small, st, i, Many(done + [v]), Many(all));
    }
  }

  lemma SetGets(fs: seq<Field>, ms: seq<Member>, i: nat, m: Member)
    requires |ms| == |fs| && i < |fs|
    ensures SetMember(fs, ms, i, m)[i] == m
  {
  }

  lemma TaggedLength(f: Field, v: Value)
    requires EncodeTagged(f, v).Some?
    ensures EncodeValue(f.ltype, v).Some? && |EncodeValue(f.ltype, v).value| < |EncodeTagged(f, v).value|
  {
    hide EncodeValue;
  }

  lemma AgreesNumbers(s: Field, b: Field)
    requires AgreesField(s, b)
    ensures s.ltype.Num? <==> b.ltype.Num?
    ensures s.rule == b.rule
    ensures !b.ltype.Message? ==> s.ltype == b.ltype
  {
  }

  lemma TagInRange(f: Field)
    requires WellFormedField(f)
    ensures 0 < f.tag < 0x2000_0000
  {
  }

  lemma StorePacked(small: seq<Field>, i: nat, b: Field, st: seq<Member>, seen: set<nat>, items: seq<Value>,
                    rest: seq<byte>)
    requires |st| == |small| && i < |small| && FindField(small, b.tag) == Some(i) && 0 < b.tag < 0x2000_0000
    requires small[i].ltype == b.ltype && small[i].rule == b.rule && b.rule.Repeated? && b.ltype.Num?
    requires st[i] == Many([]) && |items| <= b.rule.max
    requires forall j :: 0 <= j < |items| ==> ConformsValue(b.ltype, items[j])
    requires EncodePacked(b.ltype.kind, items).Some?
    requires |Delimited(EncodePacked(b.ltype.kind, items).value)| < TWO_32
    ensures DecodeFields(small, st, seen,
                         Key(b.tag, StringWire) + Delimited(EncodePacked(b.ltype.kind, items).value) + rest)
            == DecodeFields(small, SetMember(small, st, i, Many(items)), seen, rest)
  {
    hide DecodeFields, EncodePacked, DecodePacked, Delimited, Substream, FindField, Key, SetMember, ConformsValue;
    var kind := b.ltype.kind;
    var e := EncodePacked(kind, items).value;
    DelimitedLength(e);
    SubstreamOfDelimited(e, rest);
    PackedRoundTrip(kind, b.rule.max, [], items);
    assert [] + items == items;
    KeyStep(small, st, seen, b.tag, StringWire, Delimited(e) + rest);
    assert Key(b.tag, StringWire) + Delimited(e) + rest == Key(b.tag, StringWire) + (Delimited(e) + rest);
  }

  /** A member that is written arrives at its place, if the reader accepts it. */
  lemma {:induction false} StoreMember(small: seq<Field>, i: nat, b: Field, st: seq<Member>, seen: set<nat>, m: Member,
                                       rest: seq<byte>)
    requires |st| == |small| && i < |small| && FindField(small, b.tag) == Some(i) && st[i] == InitialMember(small[i])
    requires AgreesField(small[i], b) && WellFormedField(small[i]) && WellFormedField(b)
    requires ConformsMember(b, m) && Present(b, m)
    requires EncodeMember(b, m).Some? && |EncodeMember(b, m).value| < TWO_32
    ensures DecodeFields(small, st, seen, EncodeMember(b, m).value + rest)
            == if !ReadsMember(small[i], b, m) then None
               else DecodeFields(small, SetMember(small, st, i, ProjectMember(small[i], b, m)),
                                 Mark(small, i, seen), rest)
    decreases b, 3
  {
    hide DecodeFields, EncodeTagged, EncodeItems, EncodePacked, ConformsValue, FindField, SetMember, WellFormedField,
         AgreesType, IsDefaultValue, ProjectValue, ProjectItems, InitialValue, Key, Delimited, DecodeValue, ReadsValue,
         ReadsItems;
    var s := small[i];
    AgreesNumbers(s, b);
    TagInRange(b);
    if b.rule.Repeated? {
      assert [] + ProjectItems(s.ltype, b.ltype, m.items) == ProjectItems(s.ltype, b.ltype, m.items);
      if b.ltype.Num? {
        StorePacked(small, i, b, st, seen, m.items, rest);
        ProjectItemsSame(b.ltype, m.items);
        NumbersAreRead(s.ltype, b.ltype, m.items);
      } else {
        StoreItems(small, i, b, st, seen, [], m.items, rest);
      }
    } else {
      var v := if m.One? then m.value else m.held.value;
      TaggedLength(b, v);
      ValueRoundTrip(s, b, v, rest);
      if ReadsMember(s, b, m) {
        StoreTagged(small, i, b, st, seen, v, ProjectMember(s, b, m), rest);
      } else {
        RefuseTagged(small, i, b, st, seen, v, rest);
      }
    }
  }

  lemma {:induction false} NumbersAreRead(s: FieldType, b: FieldType, vs: seq<Value>)
    requires !b.Message?
    ensures ReadsItems(s, b, vs)
    decreases |vs|
  {
    if vs != [] {
      NumbersAreRead(s, b, vs[1..]);
    }
  }

  lemma {:induction false} AllDefaultAt(fs: seq<Field>, ms: seq<Member>, k: nat)
    requires |fs| == |ms| && k < |fs| && AllDefault(fs, ms)
    ensures IsDefaultMember(fs[k], ms[k])
    decreases k
  {
    if k > 0 {
      AllDefaultAt(fs[1..], ms[1..], k - 1);
    }
  }

  lemma {:induction false} DefaultsAt(fs: seq<Field>, i: nat)
    requires i < |fs|
    ensures Defaults(fs)[i] == InitialMember(fs[i])
    decreases i
  {
    if i > 0 {
      DefaultsAt(fs[1..], i - 1);
    }
  }

  /** A singular value that is left out is the one the decoder starts from. */
  lemma {:induction false} DefaultIsInitial(s: Field, b: Field, v: Value)
    requires s.ltype.Message? || ZeroInit(s)
    requires AgreesField(s, b) && WellFormedField(s) && ConformsValue(b.ltype, v) && IsDefaultValue(b.ltype, v)
    ensures ProjectValue(s.ltype, b.ltype, v) == InitialValue(s)
    decreases s, 1
  {
    if b.ltype.Message? {
      hide Project, Defaults, AllDefault;
      DefaultStructIsInitial(s.ltype.fields, b.ltype.fields, v.members);
    } else if b.ltype.Inline? {
      assert Zeros(0) == [];
    }
  }

  lemma {:induction false} DefaultStructIsInitial(small: seq<Field>, big: seq<Field>, ms: seq<Member>)
    requires |ms| == |big| && Agrees(small, big) && WellFormed(small) && Conforms(big, ms) && AllDefault(big, ms)
    ensures Project(small, big, ms) == Defaults(small)
    decreases small
  {
    hide FindField, AgreesField, WellFormedField, ConformsMember, IsDefaultMember, ProjectMember, InitialMember;
    forall i | 0 <= i < |small| ensures Project(small, big, ms)[i] == Defaults(small)[i] {
      DefaultsAt(small, i);
      assert Project(small, big, ms)[i] == PartialMember(small[i], big, ms, |big|);
      if FindField(big, small[i].tag).Some? {
        var k := FindField(big, small[i].tag).value;
        AgreesAt(small, big, i);
        AllDefaultAt(big, ms, k);
        assert WellFormedField(small[i]) && ConformsMember(big[k], ms[k]);
        DefaultMemberIsInitial(small[i], big[k], ms[k]);
        PartialAt(small, big, ms, k, i);
      }
    }
  }

  lemma {:induction false} DefaultMemberIsInitial(s: Field, b: Field, m: Member)
    requires AgreesField(s, b) && WellFormedField(s) && ConformsMember(b, m) && IsDefaultMember(b, m)
    ensures ProjectMember(s, b, m) == InitialMember(s)
    decreases s, 2
  {
    hide ProjectValue, InitialValue, IsDefaultValue, AgreesType, ConformsValue, WellFormed, ZeroInit;
    if b.rule.Singular? {
      DefaultIsInitial(s, b, m.value);
    }
  }

  lemma AbsentIsInitial(s: Field, b: Field, m: Member)
    requires AgreesField(s, b) && WellFormedField(s) && ConformsMember(b, m) && !Present(b, m)
    ensures EncodeMember(b, m) == Some([]) && ProjectMember(s, b, m) == InitialMember(s)
  {
    hide IsDefaultValue, ConformsValue;
    DefaultMemberIsInitial(s, b, m);
  }

  // --- The field loop over a whole encoding -----------------------------------------------------

  ghost predicate FoundBefore(big: seq<Field>, tag: nat, k: nat) {
    FindField(big, tag).Some? && FindField(big, tag).value < k
  }

  /** The required fields of `small` among the first `k` of `big`. */
  ghost function Seen(small: seq<Field>, big: seq<Field>, k: nat): set<nat> {
    set i: nat | i < |small| && small[i].rule == Required && FoundBefore(big, small[i].tag, k)
  }

  lemma FindIsUnique(fs: seq<Field>, k: nat, tag: nat)
    requires WellFormed(fs) && k < |fs| && fs[k].tag == tag
    ensures FindField(fs, tag) == Some(k)
  {
  }

  lemma {:induction false} FieldStep(small: seq<Field>, big: seq<Field>, ms: seq<Member>, k: nat, rest: seq<byte>)
    requires |ms| == |big| && k < |big| && Agrees(small, big) && WellFormed(small) && WellFormed(big)
    requires Conforms(big, ms)
    requires EncodeMember(big[k], ms[k]).Some? && |EncodeMember(big[k], ms[k]).value| < TWO_32
    ensures DecodeFields(small, Partial(small, big, ms, k), Seen(small, big, k),
                         EncodeMember(big[k], ms[k]).value + rest)
            == if !ReadsField(small, big, ms, k) then None
               else DecodeFields(small, Partial(small, big, ms, k + 1), Seen(small, big, k + 1), rest)
    decreases big, 0
  {
    hide DecodeFields, EncodeMember, ConformsMember, FindField, Partial, Seen, Present, AgreesField, WellFormedField,
         SetMember, ProjectMember, ReadsMember;
    var b, m := big[k], ms[k];
    var st, seen := Partial(small, big, ms, k), Seen(small, big, k);
    assert WellFormedField(b) && ConformsMember(b, m);
    match FindField(small, b.tag)
    case None =>
      NextIsSame(small, big, ms, k);
      TagInRange(b);
      SkipMember(small, st, seen, b, m, rest);
    case Some(i) =>
      FindIsUnique(big, k, small[i].tag);
      assert WellFormedField(small[i]);
      AgreesAt(small, big, i);
      PartialAt(small, big, ms, k, i);
      if Present(b, m) {
        StoreMember(small, i, b, st, seen, m, rest);
        NextIsSet(small, big, ms, k, i);
      } else {
        AbsentIsInitial(small[i], b, m);
        NextIsAbsent(small, big, ms, k, i);
        assert [] + rest == rest;
      }
  }

  lemma AgreesAt(small: seq<Field>, big: seq<Field>, i: nat)
    requires Agrees(small, big) && i < |small| && FindField(big, small[i].tag).Some?
    ensures AgreesField(small[i], big[FindField(big, small[i].tag).value])
  {
  }

  lemma PartialAt(small: seq<Field>, big: seq<Field>, ms: seq<Member>, k: nat, i: nat)
    requires |ms| == |big| && i < |small| && FindField(big, small[i].tag) == Some(k)
    ensures Partial(small, big, ms, k)[i] == InitialMember(small[i])
    ensures Partial(small, big, ms, k + 1)[i] == ProjectMember(small[i], big[k], ms[k])
    ensures Project(small, big, ms)[i] == ProjectMember(small[i], big[k], ms[k])
  {
    hide InitialMember, ProjectMember;
    assert Project(small, big, ms)[i] == PartialMember(small[i], big, ms, |big|);
  }

  lemma PartialElsewhere(small: seq<Field>, big: seq<Field>, ms: seq<Member>, k: nat, j: nat)
    requires |ms| == |big| && j < |small| && FindField(big, small[j].tag) != Some(k)
    ensures Partial(small, big, ms, k + 1)[j] == Partial(small, big, ms, k)[j]
    ensures FoundBefore(big, small[j].tag, k + 1) == FoundBefore(big, small[j].tag, k)
  {
    hide InitialMember, ProjectMember;
  }

  lemma NextIsSame(small: seq<Field>, big: seq<Field>, ms: seq<Member>, k: nat)
    requires |ms| == |big| && k < |big| && FindField(small, big[k].tag).None?
    ensures Partial(small, big, ms, k + 1) == Partial(small, big, ms, k)
    ensures Seen(small, big, k + 1) == Seen(small, big, k)
  {
    hide FindField, Partial, FoundBefore;
    forall j: nat | j < |small|
      ensures Partial(small, big, ms, k + 1)[j] == Partial(small, big, ms, k)[j]
      ensures FoundBefore(big, small[j].tag, k + 1) == FoundBefore(big, small[j].tag, k)
    {
      PartialElsewhere(small, big, ms, k, j);
    }
  }

  lemma OnlyHere(small: seq<Field>, big: seq<Field>, k: nat, i: nat)
    requires WellFormed(small) && i < |small| && FindField(big, small[i].tag) == Some(k)
    ensures forall j :: 0 <= j < |small| && j != i ==> FindField(big, small[j].tag) != Some(k)
  {
    hide FindField, WellFormedField;
  }

  lemma NextIsAbsent(small: seq<Field>, big: seq<Field>, ms: seq<Member>, k: nat, i: nat)
    requires |ms| == |big| && k < |big| && i < |small| && WellFormed(small) && Agrees(small, big)
    requires FindField(big, small[i].tag) == Some(k) && !Present(big[k], ms[k])
    requires ProjectMember(small[i], big[k], ms[k]) == InitialMember(small[i])
    ensures Partial(small, big, ms, k + 1) == Partial(small, big, ms, k)
    ensures Seen(small, big, k + 1) == Seen(small, big, k)
  {
    hide FindField, Partial, FoundBefore, ProjectMember, InitialMember, WellFormed, Agrees;
    OnlyHere(small, big, k, i);
    PartialAt(small, big, ms, k, i);
    AgreesAt(small, big, i);
    assert small[i].rule != Required;
    forall j: nat | j < |small|
      ensures Partial(small, big, ms, k + 1)[j] == Partial(small, big, ms, k)[j]
      ensures j != i ==> FoundBefore(big, small[j].tag, k + 1) == FoundBefore(big, small[j].tag, k)
    {
      if j != i {
        PartialElsewhere(small, big, ms, k, j);
      }
    }
  }

  /** Storing member `i` is the whole difference the field `k` makes; the oneof members it clears were not set. */
  lemma NextIsSet(small: seq<Field>, big: seq<Field>, ms: seq<Member>, k: nat, i: nat)
    requires |ms| == |big| && k < |big| && i < |small| && WellFormed(small) && Agrees(small, big) && Conforms(big, ms)
    requires FindField(big, small[i].tag) == Some(k) && Present(big[k], ms[k])
    ensures Partial(small, big, ms, k + 1)
            == SetMember(small, Partial(small, big, ms, k), i, ProjectMember(small[i], big[k], ms[k]))
    ensures Seen(small, big, k + 1) == Mark(small, i, Seen(small, big, k))
  {
    hide FindField, Partial, FoundBefore, ProjectMember, InitialMember, WellFormed, Agrees, Conforms, Present;
    OnlyHere(small, big, k, i);
    PartialAt(small, big, ms, k, i);
    forall j: nat | j < |small|
      ensures j != i ==> Partial(small, big, ms, k + 1)[j] == Partial(small, big, ms, k)[j]
      ensures j != i && SameUnion(small, i, j) ==> Partial(small, big, ms, k)[j] == Maybe(None)
      ensures j != i ==> FoundBefore(big, small[j].tag, k + 1) == FoundBefore(big, small[j].tag, k)
    {
      if j != i {
        PartialElsewhere(small, big, ms, k, j);
        if SameUnion(small, i, j) {
          UnionUnset(small, big, ms, k, i, j);
        }
      }
    }
    FoundHere(big, small[i].tag, k);
  }

  lemma FoundHere(big: seq<Field>, tag: nat, k: nat)
    requires FindField(big, tag) == Some(k)
    ensures FoundBefore(big, tag, k + 1) && !FoundBefore(big, tag, k)
  {
  }

  lemma {:induction false} UnionUnset(small: seq<Field>, big: seq<Field>, ms: seq<Member>, k: nat, i: nat, j: nat)
    requires |ms| == |big| && k < |big| && i < |small| && j < |small| && Agrees(small, big) && Conforms(big, ms)
    requires FindField(big, small[i].tag) == Some(k) && FindField(big, small[j].tag) != Some(k)
    requires Present(big[k], ms[k]) && SameUnion(small, i, j)
    ensures Partial(small, big, ms, k)[j] == Maybe(None)
  {
    hide FindField, WellFormed, ProjectValue, ProjectItems, InitialValue, ConformsMember, AgreesType;
    assert Partial(small, big, ms, k)[j] == PartialMember(small[j], big, ms, k);
    match FindField(big, small[j].tag)
    case None =>
    case Some(l) =>
      AgreesAt(small, big, i);
      AgreesAt(small, big, j);
      assert SameUnion(big, k, l);
      assert ms[l] == Maybe(None);
  }

  lemma {:induction false} FieldsRoundTrip(small: seq<Field>, big: seq<Field>, ms: seq<Member>, k: nat, tail: seq<byte>)
    requires |ms| == |big| && k <= |big| && Agrees(small, big) && WellFormed(small) && WellFormed(big)
    requires Conforms(big, ms)
    requires EncodeMessage(big[k..], ms[k..]).Some? && |EncodeMessage(big[k..], ms[k..]).value| < TWO_32
    ensures DecodeFields(small, Partial(small, big, ms, k), Seen(small, big, k),
                         EncodeMessage(big[k..], ms[k..]).value + tail)
            == if !ReadsFrom(small, big, ms, k) then None
               else DecodeFields(small, Project(small, big, ms), Seen(small, big, |big|), tail)
    decreases big, 1, |big| - k
  {
    hide DecodeFields, EncodeMember, Partial, Seen, Agrees, WellFormed, Conforms, ReadsField;
    if k == |big| {
      assert [] + tail == tail;
    } else {
      var bs := EncodeMember(big[k], ms[k]).value;
      assert big[k..][1..] == big[k + 1..] && ms[k..][1..] == ms[k + 1..];
      var rest := EncodeMessage(big[k + 1..], ms[k + 1..]).value;
      assert EncodeMessage(big[k..], ms[k..]).value + tail == bs + (rest + tail);
      FieldStep(small, big, ms, k, rest + tail);
      if ReadsField(small, big, ms, k) {
        FieldsRoundTrip(small, big, ms, k + 1, tail);
        assert ReadsFrom(small, big, ms, k) <==> ReadsFrom(small, big, ms, k + 1);
      }
    }
  }

  lemma StartIsDefault(small: seq<Field>, big: seq<Field>, ms: seq<Member>)
    requires |ms| == |big|
    ensures Partial(small, big, ms, 0) == Defaults(small) && Seen(small, big, 0) == {}
  {
    hide InitialMember, ProjectMember, FindField;
    forall i | 0 <= i < |small| ensures Partial(small, big, ms, 0)[i] == Defaults(small)[i] {
      DefaultsAt(small, i);
    }
  }

  lemma LoopEnds(fs: seq<Field>, st: seq<Member>, seen: set<nat>, tail: seq<byte>)
    requires |st| == |fs| && Ends(tail)
    ensures DecodeFields(fs, st, seen, tail) == Some((st, seen, AfterEnd(tail)))
  {
    hide DecodeOne;
  }

  lemma SeenIsCovered(small: seq<Field>, big: seq<Field>)
    ensures RequiredSeen(small, Seen(small, big, |big|)) <==> Covers(small, big)
  {
    hide FindField, RequiredBefore;
    forall i | 0 <= i < |small| && small[i].rule == Required
      ensures i in Seen(small, big, |big|) <==> FindField(big, small[i].tag).Some?
    {
    }
  }

  /** A reader with some of the fields, decoding a whole encoding into a fresh struct, gets exactly its part of the
      message; it fails precisely when, in the message or in a submessage that is written, it checks a required field
      that the writer does not know. */
  lemma {:induction false} MessageRoundTrip(small: seq<Field>, big: seq<Field>, ms: seq<Member>, tail: seq<byte>)
    requires |ms| == |big| && Agrees(small, big) && WellFormed(small) && WellFormed(big) && Conforms(big, ms)
    requires EncodeMessage(big, ms).Some? && |EncodeMessage(big, ms).value| < TWO_32 && Ends(tail)
    ensures DecodeMessage(small, Defaults(small), EncodeMessage(big, ms).value + tail) ==
            if Readable(small, big, ms) then Some((Project(small, big, ms), AfterEnd(tail))) else None
    decreases big, 2
  {
    hide DecodeFields, EncodeMessage, Partial, Seen, Agrees, Covers, WellFormed, Conforms, RequiredSeen, Defaults,
         ReadsFrom;
    assert big[0..] == big && ms[0..] == ms;
    StartIsDefault(small, big, ms);
    FieldsRoundTrip(small, big, ms, 0, tail);
    LoopEnds(small, Project(small, big, ms), Seen(small, big, |big|), tail);
    SeenIsCovered(small, big);
  }

  // --- The encoder accepts every conforming struct ----------------------------------------------

  lemma {:induction false} ValueEncodes(t: FieldType, v: Value)
    requires ConformsValue(t, v)
    ensures EncodeValue(t, v).Some?
    decreases t, 1
  {
    hide EncodeNumber, EncodeMessage, Conforms, Fits;
    if t.Num? {
      NumberRoundTrip(t.kind, v.n, []);
    } else if t.Message? {
      MessageEncodes(t.fields, v.members);
    }
  }

  lemma {:induction false} ItemsEncode(f: Field, items: seq<Value>)
    requires forall j :: 0 <= j < |items| ==> ConformsValue(f.ltype, items[j])
    ensures EncodeItems(f, items).Some?
    decreases f, 2, |items|
  {
    hide EncodeValue, ConformsValue;
    if items != [] {
      assert ConformsValue(f.ltype, items[0]);
      ValueEncodes(f.ltype, items[0]);
      ItemsEncode(f, items[1..]);
    }
  }

  lemma {:induction false} MemberEncodes(f: Field, m: Member)
    requires ConformsMember(f, m)
    ensures EncodeMember(f, m).Some?
    decreases f, 3
  {
    hide EncodeValue, ConformsValue, EncodePacked, EncodeItems, IsDefaultValue;
    if f.rule.Repeated? {
      if f.ltype.Num? {
        PackedRoundTrip(f.ltype.kind, |m.items|, [], m.items);
      } else {
        ItemsEncode(f, m.items);
      }
    } else if m.One? {
      ValueEncodes(f.ltype, m.value);
    } else if m.held.Some? {
      ValueEncodes(f.ltype, m.held.value);
    }
  }

  lemma {:induction false} FieldsEncode(fs: seq<Field>, ms: seq<Member>, k: nat)
    requires |fs| == |ms| && k <= |fs| && Conforms(fs, ms)
    ensures EncodeMessage(fs[k..], ms[k..]).Some?
    decreases fs, 1, |fs| - k
  {
    hide EncodeMember, ConformsMember;
    if k < |fs| {
      assert fs[k..][1..] == fs[k + 1..] && ms[k..][1..] == ms[k + 1..];
      assert ConformsMember(fs[k], ms[k]);
      MemberEncodes(fs[k], ms[k]);
      FieldsEncode(fs, ms, k + 1);
    }
  }

  lemma {:induction false} MessageEncodes(fs: seq<Field>, ms: seq<Member>)
    requires |fs| == |ms| && Conforms(fs, ms)
    ensures EncodeMessage(fs, ms).Some?
    decreases fs, 2
  {
    assert fs[0..] == fs && ms[0..] == ms;
    FieldsEncode(fs, ms, 0);
  }

  // --- The same descriptor on both sides --------------------------------------------------------

  lemma {:induction false} AgreesWithItself(fs: seq<Field>)
    requires WellFormed(fs)
    ensures Agrees(fs, fs)
    decreases fs, 1
  {
    hide AgreesField, WellFormedField, FindField;
    forall i | 0 <= i < |fs| ensures FindField(fs, fs[i].tag) == Some(i) && AgreesField(fs[i], fs[i]) {
      FindIsUnique(fs, i, fs[i].tag);
      assert WellFormedField(fs[i]);
      FieldAgreesWithItself(fs[i]);
    }
  }

  lemma {:induction false} FieldAgreesWithItself(f: Field)
    requires WellFormedField(f)
    ensures AgreesField(f, f)
    decreases f, 2
  {
    if f.ltype.Message? {
      AgreesWithItself(f.ltype.fields);
    }
  }

  lemma {:induction false} ProjectValueIsSame(f: Field, v: Value)
    requires WellFormedField(f) && ConformsValue(f.ltype, v)
    ensures ProjectValue(f.ltype, f.ltype, v) == v && ReadsValue(f.ltype, f.ltype, v)
    decreases f, 1
  {
    if f.ltype.Message? {
      ProjectIsSame(f.ltype.fields, v.members);
    }
  }

  lemma {:induction false} ProjectItemsIsSame(f: Field, vs: seq<Value>)
    requires WellFormedField(f) && forall j :: 0 <= j < |vs| ==> ConformsValue(f.ltype, vs[j])
    ensures ProjectItems(f.ltype, f.ltype, vs) == vs && ReadsItems(f.ltype, f.ltype, vs)
    decreases f, 2, |vs|
  {
    hide ConformsValue, ProjectValue, WellFormedField, ReadsValue;
    if vs != [] {
      assert ConformsValue(f.ltype, vs[0]);
      ProjectValueIsSame(f, vs[0]);
      ProjectItemsIsSame(f, vs[1..]);
    }
  }

  lemma {:induction false} ProjectMemberIsSame(f: Field, m: Member)
    requires WellFormedField(f) && ConformsMember(f, m)
    ensures ProjectMember(f, f, m) == m && ReadsMember(f, f, m)
    decreases f, 3
  {
    hide ConformsValue, ProjectValue, ProjectItems, WellFormedField, ReadsValue, ReadsItems;
    match m
    case One(v) => ProjectValueIsSame(f, v);
    case Maybe(None) =>
    case Maybe(Some(v)) => ProjectValueIsSame(f, v);
    case Many(vs) => ProjectItemsIsSame(f, vs);
  }

  lemma {:induction false} ProjectIsSame(fs: seq<Field>, ms: seq<Member>)
    requires |fs| == |ms| && WellFormed(fs) && Conforms(fs, ms)
    ensures Project(fs, fs, ms) == ms && Readable(fs, fs, ms)
    decreases fs, 1
  {
    hide FindField, WellFormedField, ConformsMember, ProjectMember, ReadsMember;
    forall i | 0 <= i < |fs|
      ensures Project(fs, fs, ms)[i] == ms[i] && FindField(fs, fs[i].tag) == Some(i) && ReadsField(fs, fs, ms, i)
    {
      FindIsUnique(fs, i, fs[i].tag);
      PartialAt(fs, fs, ms, i, i);
      assert WellFormedField(fs[i]) && ConformsMember(fs[i], ms[i]);
      ProjectMemberIsSame(fs[i], ms[i]);
    }
    assert Covers(fs, fs);
    assert ReadsFrom(fs, fs, ms, 0);
  }

  // --- Main results -----------------------------------------------------------------------------

  /** Every conforming message encodes, and decoding the bytes gives it back. Lengths on the wire have 32 bits. */
  lemma DecodeOfEncode(fs: seq<Field>, ms: seq<Member>)
    requires |fs| == |ms| && WellFormed(fs) && Conforms(fs, ms)
    ensures EncodeMessage(fs, ms).Some?
    ensures |EncodeMessage(fs, ms).value| < TWO_32 ==>
              DecodeMessage(fs, Defaults(fs), EncodeMessage(fs, ms).value) == Some((ms, []))
  {
    hide WellFormed, Conforms, EncodeMessage, DecodeMessage, Defaults, Project, Agrees, Readable;
    MessageEncodes(fs, ms);
    AgreesWithItself(fs);
    ProjectIsSame(fs, ms);
    if |EncodeMessage(fs, ms).value| < TWO_32 {
      assert EncodeMessage(fs, ms).value + [] == EncodeMessage(fs, ms).value;
      MessageRoundTrip(fs, fs, ms, []);
    }
  }

  /** The same with a terminating zero byte: what follows it is left in the stream. */
  lemma DecodeOfNullTerminated(fs: seq<Field>, ms: seq<Member>, rest: seq<byte>)
    requires |fs| == |ms| && WellFormed(fs) && Conforms(fs, ms)
    ensures EncodeMessage(fs, ms).Some?
    ensures |EncodeMessage(fs, ms).value| < TWO_32 ==>
              DecodeMessage(fs, Defaults(fs), EncodeMessage(fs, ms).value + ([0] + rest)) == Some((ms, rest))
  {
    hide WellFormed, Conforms, EncodeMessage, DecodeMessage, Defaults, Project, Agrees, Readable;
    MessageEncodes(fs, ms);
    AgreesWithItself(fs);
    ProjectIsSame(fs, ms);
    if |EncodeMessage(fs, ms).value| < TWO_32 {
      assert ([0] + rest)[1..] == rest;
      MessageRoundTrip(fs, fs, ms, [0] + rest);
    }
  }
}
