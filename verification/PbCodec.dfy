/** What nanopb encodes and decodes: field descriptors as finite trees, message structs as abstract values, and the two
    directions as functions over bytes. */
module PbCodec {
  import opened Bits
  import opened Bytes
  import opened PbWire

  // --- Descriptors and values -------------------------------------------------------------------

  /** The packable field types, with the size of one item in the struct. */
  datatype Numeric = Varint(size: nat) | UVarint(size: nat) | SVarint(size: nat) | Fixed32 | Fixed64

  datatype FieldType =
    | Num(kind: Numeric)
    | Blob(capacity: uint32)            // pb_bytes_array_t with room for `capacity` bytes
    | Text(size: uint32)                // char[size]
    | Inline(size: uint32)              // pb_byte_t[size]
    | Message(fields: seq<Field>)

  /** `Singular` is an optional field without a has_ flag. Members of one oneof share a union number. */
  datatype Rule = Required | Optional | Singular | Repeated(max: nat) | Oneof(union: nat)

  /** `init` is the declared default value or zero; it is not used for submessages, arrays and oneofs. */
  datatype Field = Field(tag: uint32, rule: Rule, ltype: FieldType, init: Value)

  /** The value of a char array is its text up to the first NUL. */
  datatype Value = Int(n: int) | Octets(bytes: seq<byte>) | Struct(members: seq<Member>)

  /** A struct member: always there; guarded by a has_ flag or a which_ tag; or an array with its count. */
  datatype Member = One(value: Value) | Maybe(held: Option<Value>) | Many(items: seq<Value>)

  const PB_MAX_REQUIRED_FIELDS := 64

  predicate ValidSize(size: nat) {
    size == 1 || size == 2 || size == 4 || size == 8
  }

  /** How many values a C integer of `size` bytes has. */
  function Range(size: nat): int {
    if size == 1 then 0x100 else if size == 2 then 0x1_0000 else if size == 4 then TWO_32 else TWO_64
  }

  /** Whether a C integer of the numeric type's size holds `n`. */
  predicate Fits(kind: Numeric, n: int) {
    match kind
    case Varint(size) => ValidSize(size) && -Range(size) <= 2 * n < Range(size)
    case SVarint(size) => ValidSize(size) && -Range(size) <= 2 * n < Range(size)
    case UVarint(size) => ValidSize(size) && 0 <= n < Range(size)
    case Fixed32 => 0 <= n < TWO_32
    case Fixed64 => 0 <= n < TWO_64
  }

  function UpToNul(bs: seq<byte>): (r: seq<byte>)
    ensures |r| <= |bs| && 0 !in r
  {
    if bs == [] || bs[0] == 0 then [] else [bs[0]] + UpToNul(bs[1..])
  }

  function Zeros(n: nat): (r: seq<byte>)
    ensures |r| == n
  {
    if n == 0 then [] else [0] + Zeros(n - 1)
  }

  // --- Default values ---------------------------------------------------------------------------

  function InitialValue(f: Field): Value
    decreases f, 1
  {
    if f.ltype.Message? then Struct(Defaults(f.ltype.fields)) else f.init
  }

  function InitialMember(f: Field): Member
    decreases f, 2
  {
    match f.rule
    case Required => One(InitialValue(f))
    case Singular => One(InitialValue(f))
    case Optional => Maybe(None)
    case Oneof(_) => Maybe(None)
    case Repeated(_) => Many([])
  }

  /** The struct after all members were set to their defaults. */
  function Defaults(fs: seq<Field>): (r: seq<Member>)
    ensures |r| == |fs|
    decreases fs
  {
    if fs == [] then [] else [InitialMember(fs[0])] + Defaults(fs[1..])
  }

  /** The implicit-presence check: a singular field of this value is left out of the encoding. */
  predicate IsDefaultValue(t: FieldType, v: Value)
    decreases t, 1
  {
    match t
    case Num(_) => v == Int(0)
    case Blob(_) => v == Octets([])
    case Text(_) => v == Octets([])
    case Inline(size) => size == 0
    case Message(fs) => v.Struct? && |v.members| == |fs| && AllDefault(fs, v.members)
  }

  predicate IsDefaultMember(f: Field, m: Member)
    decreases f, 2
  {
    match f.rule
    case Required => false
    case Repeated(_) => m == Many([])
    case Oneof(_) => m == Maybe(None)
    case Optional => m == Maybe(None)
    case Singular => m.One? && IsDefaultValue(f.ltype, m.value)
  }

  predicate AllDefault(fs: seq<Field>, ms: seq<Member>)
    requires |fs| == |ms|
    decreases fs
  {
    fs == [] || (IsDefaultMember(fs[0], ms[0]) && AllDefault(fs[1..], ms[1..]))
  }

  // --- Encoding ---------------------------------------------------------------------------------

  function WireOf(t: FieldType): WireType {
    match t
    case Num(Fixed32) => Fixed32Wire
    case Num(Fixed64) => Fixed64Wire
    case Num(_) => VarintWire
    case _ => StringWire
  }

  /** Two's complement on 64 bits. */
  function AsUnsigned64(n: int): uint64 {
    n % TWO_64
  }

  function EncodeNumber(kind: Numeric, n: int): Option<seq<byte>> {
    if !Fits(kind, n) then None
    else
      match kind
      case Varint(_) => Some(EncodeVarint(AsUnsigned64(n)))
      case UVarint(_) => Some(EncodeVarint(n))
      case SVarint(_) => Some(EncodeVarint(ZigZag(n)))
      case Fixed32 => Some(LittleEndian(n, 4))
      case Fixed64 => Some(LittleEndian(n, 8))
  }

  /** The encoding of one value without its key; None where the encoder reports an error. */
  function EncodeValue(t: FieldType, v: Value): Option<seq<byte>>
    decreases t, 1
  {
    match t
    case Num(kind) => if v.Int? then EncodeNumber(kind, v.n) else None
    case Blob(capacity) => if v.Octets? && |v.bytes| <= capacity then Some(Delimited(v.bytes)) else None
    case Text(size) =>
      if v.Octets? && 0 !in v.bytes && |v.bytes| <= size then Some(Delimited(v.bytes)) else None
    case Inline(size) => if v.Octets? && |v.bytes| == size then Some(Delimited(v.bytes)) else None
    case Message(fs) =>
      if !v.Struct? || |v.members| != |fs| then None
      else
        match EncodeMessage(fs, v.members)
        case None => None
        case Some(bs) => Some(Delimited(bs))
  }

  function EncodeTagged(f: Field, v: Value): Option<seq<byte>>
    decreases f, 2
  {
    match EncodeValue(f.ltype, v)
    case None => None
    case Some(bs) => Some(Key(f.tag, WireOf(f.ltype)) + bs)
  }

  /** The items of a packed array, back to back. */
  function EncodePacked(kind: Numeric, items: seq<Value>): Option<seq<byte>>
    decreases items
  {
    if items == [] then Some([])
    else
      match if items[0].Int? then EncodeNumber(kind, items[0].n) else None
      case None => None
      case Some(bs) =>
        match EncodePacked(kind, items[1..])
        case None => None
        case Some(rest) => Some(bs + rest)
  }

  /** The items of an unpacked array, each with its key. */
  function EncodeItems(f: Field, items: seq<Value>): Option<seq<byte>>
    decreases f, 3, |items|
  {
    if items == [] then Some([])
    else
      match EncodeTagged(f, items[0])
      case None => None
      case Some(bs) =>
        match EncodeItems(f, items[1..])
        case None => None
        case Some(rest) => Some(bs + rest)
  }

  function EncodeMember(f: Field, m: Member): Option<seq<byte>>
    decreases f, 4
  {
    match f.rule
    case Required => if m.One? then EncodeTagged(f, m.value) else None
    case Singular =>
      if !m.One? then None
      else if IsDefaultValue(f.ltype, m.value) then Some([])
      else EncodeTagged(f, m.value)
    case Repeated(max) =>
      if !m.Many? then None
      else if m.items == [] then Some([])
      else if |m.items| > max then None
      else if f.ltype.Num? then
        match EncodePacked(f.ltype.kind, m.items)
        case None => None
        case Some(bs) => Some(Key(f.tag, StringWire) + Delimited(bs))
      else EncodeItems(f, m.items)
    case _ =>
      if !m.Maybe? then None
      else if m.held == None then Some([])
      else EncodeTagged(f, m.held.value)
  }

  /** The bytes of a message: its members in descriptor order. */
  function EncodeMessage(fs: seq<Field>, ms: seq<Member>): Option<seq<byte>>
    requires |fs| == |ms|
    decreases fs
  {
    if fs == [] then Some([])
    else
      match EncodeMember(fs[0], ms[0])
      case None => None
      case Some(bs) =>
        match EncodeMessage(fs[1..], ms[1..])
        case None => None
        case Some(rest) => Some(bs + rest)
  }

  // --- Decoding ---------------------------------------------------------------------------------

  /** The C cast of an unsigned value below `range` to the signed type of that range. */
  function AsSigned(v: nat, range: nat): int {
    if 2 * v < range then v else v - range
  }

  /** A varint's 64-bit value as the struct member's type reads it. */
  function FromVarint(kind: Numeric, v: uint64): int {
    match kind
    case Varint(size) => if size == 8 then AsSigned(v, TWO_64) else AsSigned(v % TWO_32, TWO_32)
    case SVarint(_) => UnZigZag(v)
    case _ => v
  }

  /** One number off the front of `bs`, if it fits its struct member. */
  function DecodeNumber(kind: Numeric, bs: seq<byte>): (r: Option<(int, seq<byte>)>)
    ensures r.Some? ==> |r.value.1| < |bs| && Fits(kind, r.value.0)
  {
    match kind
    case Fixed32 => if |bs| < 4 then None else Below32(bs[..4]); Some((FromLittleEndian(bs[..4]), bs[4..]))
    case Fixed64 => if |bs| < 8 then None else Below64(bs[..8]); Some((FromLittleEndian(bs[..8]), bs[8..]))
    case _ =>
      match DecodeVarint(bs)
      case None => None
      case Some((v, rest)) => if Fits(kind, FromVarint(kind, v)) then Some((FromVarint(kind, v), rest)) else None
  }

  lemma {:induction false} LittleEndianFits(bs: seq<byte>)
    ensures FromLittleEndian(bs) < Pow2(8 * |bs|)
  {
    if bs != [] {
      LittleEndianFits(bs[1..]);
      assert Pow2(8) == 0x100;
      Pow2Sum(8, 8 * (|bs| - 1));
    }
  }

  lemma Below32(bs: seq<byte>)
    requires |bs| == 4
    ensures FromLittleEndian(bs) < TWO_32
  {
    LittleEndianFits(bs);
    Pow2Of32();
  }

  lemma Below64(bs: seq<byte>)
    requires |bs| == 8
    ensures FromLittleEndian(bs) < TWO_64
  {
    LittleEndianFits(bs);
    Pow2Of64();
  }

  /** One value off the front of `bs`. A submessage is merged into `base`; every other value replaces it. */
  function DecodeValue(t: FieldType, base: Value, bs: seq<byte>): (r: Option<(Value, seq<byte>)>)
    ensures r.Some? ==> |r.value.1| < |bs|
    decreases t, 1
  {
    match t
    case Num(kind) =>
      (match DecodeNumber(kind, bs)
       case None => None
       case Some((n, rest)) => Some((Int(n), rest)))
    case Blob(capacity) =>
      (match Substream(bs)
       case None => None
       case Some((s, rest)) => if |s| > capacity then None else Some((Octets(s), rest)))
    case Text(size) =>
      (match Substream(bs)
       case None => None
       case Some((s, rest)) => if |s| + 1 > size then None else Some((Octets(UpToNul(s)), rest)))
    case Inline(size) =>
      (match Substream(bs)
       case None => None
       case Some((s, rest)) =>
         if s == [] then Some((Octets(Zeros(size)), rest))
         else if |s| != size then None
         else Some((Octets(s), rest)))
    case Message(fs) =>
      if !base.Struct? || |base.members| != |fs| then None
      else
        match Substream(bs)
        case None => None
        case Some((s, rest)) =>
          match DecodeMessage(fs, base.members, s)
          case None => None
          case Some((ms, _)) => Some((Struct(ms), rest))
  }

  /** Appends the numbers in `bs` until it is used up; more numbers than the array holds are an error. */
  function DecodePacked(kind: Numeric, max: nat, items: seq<Value>, bs: seq<byte>): Option<seq<Value>>
    decreases |bs|
  {
    if bs == [] then Some(items)
    else if |items| >= max then None
    else
      match DecodeNumber(kind, bs)
      case None => None
      case Some((n, rest)) => DecodePacked(kind, max, items + [Int(n)], rest)
  }

  /** One occurrence of a known field, with wire type `code`, added to its struct member. */
  function DecodeMember(f: Field, code: nat, m: Member, bs: seq<byte>): (r: Option<(Member, seq<byte>)>)
    ensures r.Some? ==> |r.value.1| < |bs|
    decreases f, 3
  {
    match f.rule
    case Repeated(max) =>
      (if !m.Many? then None
       else if code == StringWire.Code() && f.ltype.Num? then
         match Substream(bs)
         case None => None
         case Some((s, rest)) =>
           match DecodePacked(f.ltype.kind, max, m.items, s)
           case None => None
           case Some(items) => Some((Many(items), rest))
       else if |m.items| >= max then None
       else
         match DecodeValue(f.ltype, InitialValue(f), bs)
         case None => None
         case Some((v, rest)) => Some((Many(m.items + [v]), rest)))
    case Optional =>
      (match DecodeValue(f.ltype, if m.Maybe? && m.held.Some? then m.held.value else InitialValue(f), bs)
       case None => None
       case Some((v, rest)) => Some((Maybe(Some(v)), rest)))
    case Oneof(_) =>
      (match DecodeValue(f.ltype, InitialValue(f), bs)
       case None => None
       case Some((v, rest)) => Some((Maybe(Some(v)), rest)))
    case _ =>
      match DecodeValue(f.ltype, if m.One? then m.value else InitialValue(f), bs)
      case None => None
      case Some((v, rest)) => Some((One(v), rest))
  }

  /** The position of the field with tag `tag`, if the descriptor has one. */
  function FindField(fs: seq<Field>, tag: nat): (r: Option<nat>)
    ensures r.Some? ==> r.value < |fs| && fs[r.value].tag == tag
    ensures r.None? ==> forall i :: 0 <= i < |fs| ==> fs[i].tag != tag
  {
    if fs == [] then None
    else if fs[0].tag == tag then Some(0)
    else
      match FindField(fs[1..], tag)
      case None => None
      case Some(i) => Some(i + 1)
  }

  /** Whether members `i` and `j` share storage, so that setting one ends the other. */
  predicate SameUnion(fs: seq<Field>, i: nat, j: nat)
    requires i < |fs| && j < |fs|
  {
    i != j && fs[i].rule.Oneof? && fs[i].rule == fs[j].rule
  }

  /** Member `i` gets the value `m`; the other members of its oneof are no longer selected. */
  function SetMember(fs: seq<Field>, ms: seq<Member>, i: nat, m: Member): (r: seq<Member>)
    requires |ms| == |fs| && i < |fs|
    ensures |r| == |fs|
  {
    seq(|fs|, j requires 0 <= j < |fs| => if j == i then m else if SameUnion(fs, i, j) then Maybe(None) else ms[j])
  }

  /** One pass of the field loop: the key `key` was read and `bs` follows. The third component is the set of required
      fields seen so far. */
  function DecodeOne(fs: seq<Field>, ms: seq<Member>, seen: set<nat>, key: nat, bs: seq<byte>)
    : (r: Option<(seq<Member>, set<nat>, seq<byte>)>)
    requires |ms| == |fs|
    ensures r.Some? ==> |r.value.0| == |fs| && |r.value.2| < |bs|
    decreases fs, 0
  {
    match FindField(fs, key / 8)
    case None =>
      if fs == [] && key / 8 == 0 then None
      else
        (match SkipField(key % 8, bs)
         case None => None
         case Some(rest) => Some((ms, seen, rest)))
    case Some(i) =>
      match DecodeMember(fs[i], key % 8, ms[i], bs)
      case None => None
      case Some((m, rest)) =>
        Some((SetMember(fs, ms, i, m), if fs[i].rule == Required then seen + {i} else seen, rest))
  }

  /** The field loop. It ends with the stream or at a zero key. */
  function DecodeFields(fs: seq<Field>, ms: seq<Member>, seen: set<nat>, bs: seq<byte>)
    : (r: Option<(seq<Member>, set<nat>, seq<byte>)>)
    requires |ms| == |fs|
    ensures r.Some? ==> |r.value.0| == |fs| && |r.value.2| <= |bs|
    decreases fs, 1, |bs|
  {
    if bs == [] then Some((ms, seen, bs))
    else
      match DecodeVarint32(bs)
      case None => None
      case Some((key, rest)) =>
        if key == 0 then Some((ms, seen, rest))
        else
          match DecodeOne(fs, ms, seen, key, rest)
          case None => None
          case Some((ms', seen', rest')) => DecodeFields(fs, ms', seen', rest')
  }

  /** How many required fields precede position `i`. */
  function RequiredBefore(fs: seq<Field>, i: nat): nat
    requires i <= |fs|
  {
    if i == 0 then 0 else RequiredBefore(fs, i - 1) + if fs[i - 1].rule == Required then 1 else 0
  }

  /** The first 64 required fields have all been seen. */
  predicate RequiredSeen(fs: seq<Field>, seen: set<nat>) {
    forall i :: 0 <= i < |fs| && fs[i].rule == Required && RequiredBefore(fs, i) < PB_MAX_REQUIRED_FIELDS ==> i in seen
  }

  /** Decodes into the struct `ms`: the new struct and the bytes after a zero key, if one ended the message. */
  function DecodeMessage(fs: seq<Field>, ms: seq<Member>, bs: seq<byte>): (r: Option<(seq<Member>, seq<byte>)>)
    requires |ms| == |fs|
    ensures r.Some? ==> |r.value.0| == |fs|
    decreases fs, 2
  {
    match DecodeFields(fs, ms, {}, bs)
    case None => None
    case Some((ms', seen, rest)) => if RequiredSeen(fs, seen) then Some((ms', rest)) else None
  }
}
