/** The decoder as nanopb runs it: an input stream that is used up step by step, substreams for length-delimited values,
    and the field loop with its cyclic search and its bit set of required fields. */
module PbDecoder {
  import opened Bits
  import opened Bytes
  import opened PbWire
  import opened PbCodec
  import opened PbIterator
  import opened PbRequired

  /** The tags of a descriptor are distinct and not the terminator's, at every depth. */
  ghost predicate ValidDescriptor(fs: seq<Field>)
    decreases fs
  {
    DistinctTags(fs) && forall i :: 0 <= i < |fs| ==> ValidField(fs[i])
  }

  ghost predicate ValidField(f: Field)
    decreases f
  {
    f.tag != 0 && ValidType(f.ltype)
  }

  ghost predicate ValidType(t: FieldType)
    decreases t
  {
    t.Message? ==> ValidDescriptor(t.fields)
  }

  /** What reading `v` off `before` means: the specification's result, and what it leaves in the stream. */
  ghost predicate Reads<T>(spec: Option<(T, seq<byte>)>, ok: bool, v: T, rest: seq<byte>) {
    (ok <==> spec.Some?) && (ok ==> spec.value == (v, rest))
  }

  /** Whether so many bytes fit a type that is written as bytes. */
  ghost predicate FitsType(t: FieldType, n: nat)
    requires !t.Num? && !t.Message?
  {
    match t
    case Blob(capacity) => n <= capacity
    case Text(size) => n + 1 <= size
    case Inline(size) => n == 0 || n == size
  }

  ghost function ValueOfBytes(t: FieldType, s: seq<byte>): Value
    requires !t.Num? && !t.Message?
  {
    match t
    case Blob(_) => Octets(s)
    case Text(_) => Octets(UpToNul(s))
    case Inline(size) => Octets(if s == [] then Zeros(size) else s)
  }

  // --- 64-bit varints group by group ------------------------------------------------------------

  /** The final result when `result` holds the groups before `g` and `more` the rest. */
  ghost function WithGroups(result: nat, g: nat, more: Option<(nat, seq<byte>)>): Option<(nat, seq<byte>)> {
    match more
    case None => None
    case Some((v, rest)) => Some((result + Shifted(v, g), rest))
  }

  /** `result | (byte & 0x7F) << bitpos` on 64 bits. */
  function AddGroup64(result: nat, group: nat, bitpos: nat): nat {
    BitOr(result, group * Pow2(bitpos) % TWO_64)
  }

  lemma AddGroup64IsSum(result: nat, group: nat, g: nat)
    requires g <= 9 && group < 0x80 && result < Pow2(7 * g)
    ensures AddGroup64(result, group, 7 * g) == result + Shifted(if g == 9 then group % 2 else group, g)
    ensures AddGroup64(result, group, 7 * g) < Pow2(7 * (g + 1))
  {
    hide Pow2, BitOr;
    var kept := if g == 9 then group % 2 else group;
    BitOrIsSum(result, kept, 7 * g);
    KeptBits64(group, g);
    assert Pow2(7 * (g + 1)) == 0x80 * Pow2(7 * g) by { Pow2OfGroups(); Pow2Sum(7, 7 * g); }
    KeptFits(result, kept, Pow2(7 * g));
  }

  lemma KeptFits(result: nat, kept: nat, p: nat)
    requires result < p && kept < 0x80
    ensures result + kept * p < 0x80 * p
  {
    assert kept * p <= 0x7F * p;
  }

  lemma KeptBits64(group: nat, g: nat)
    requires g <= 9 && group < 0x80
    ensures group * Pow2(7 * g) % TWO_64 == (if g == 9 then group % 2 else group) * Pow2(7 * g)
  {
    hide Pow2;
    if g == 9 {
      LastGroup(group);
    } else {
      RoomForGroup(g);
      GroupBelow(group, Pow2(7 * g));
      RemainderUnique(group * Pow2(7 * g), 0);
    }
  }

  lemma GroupBelow(group: nat, p: nat)
    requires group < 0x80 && 0 < p && 0x80 * p <= TWO_64
    ensures group * p < TWO_64
  {
    assert group * p <= 0x7F * p;
  }

  lemma RoomForGroup(g: nat)
    requires g < 9
    ensures 0 < Pow2(7 * g) && 0x80 * Pow2(7 * g) <= TWO_64
  {
    Pow2Positive(7 * g);
    Pow2Of64();
    Pow2Grows(7 * g + 7, 64);
    assert Pow2(7 * g + 7) == 0x80 * Pow2(7 * g) by { Pow2OfGroups(); Pow2Sum(7, 7 * g); }
  }

  lemma {:induction false} Pow2Grows(a: nat, b: nat)
    requires a <= b
    ensures Pow2(a) <= Pow2(b)
    decreases b
  {
    if a < b {
      Pow2Positive(b - 1);
      Pow2Grows(a, b - 1);
    }
  }

  /** Of the tenth group only the lowest bit is below bit 64. */
  lemma LastGroup(group: nat)
    requires group < 0x80
    ensures group * Pow2(63) % TWO_64 == group % 2 * Pow2(63)
  {
    assert Pow2(63) == 0x8000_0000_0000_0000 by { Pow2Of64(); assert Pow2(64) == 2 * Pow2(63); }
    hide Pow2;
    assert group * Pow2(63) == group % 2 * Pow2(63) + group / 2 * TWO_64;
    RemainderUnique(group % 2 * Pow2(63), group / 2);
  }

  lemma RemainderUnique(r: nat, k: nat)
    requires r < TWO_64
    ensures (r + k * TWO_64) % TWO_64 == r
  {
  }

  /** One group read: the recursion of the specification turned into an accumulator. */
  lemma GroupStep(result: nat, g: nat, bs: seq<byte>)
    requires g <= 9 && result < Pow2(7 * g) && bs != []
    ensures var sum := AddGroup64(result, bs[0] % 0x80, 7 * g);
            WithGroups(result, g, DecodeGroups(bs, g)) ==
            if bs[0] < 0x80 then Some((sum, bs[1..])) else WithGroups(sum, g + 1, DecodeGroups(bs[1..], g + 1))
  {
    hide AddGroup64, Pow2, Shifted;
    AddGroup64IsSum(result, bs[0] % 0x80, g);
    if bs[0] >= 0x80 && DecodeGroups(bs[1..], g + 1).Some? {
      ShiftedSum(bs[0] % 0x80, DecodeGroups(bs[1..], g + 1).value.0, g);
    }
  }

  lemma ShiftedSum(low: nat, high: nat, g: nat)
    ensures Shifted(low + 0x80 * high, g) == Shifted(low, g) + Shifted(high, g + 1)
  {
    hide Pow2;
    var p := Pow2(7 * g);
    assert Pow2(7 * (g + 1)) == 0x80 * p by { Pow2OfGroups(); Pow2Sum(7, 7 * g); }
    assert (low + 0x80 * high) * p == low * p + high * (0x80 * p);
  }

  lemma NoGroupsYet(bs: seq<byte>)
    ensures WithGroups(0, 0, DecodeGroups(bs, 0)) == DecodeGroups(bs, 0)
  {
  }

  class InStream {
    const buf: array<byte>
    var pos: nat
    var left: nat

    ghost predicate Valid()
      reads this
    {
      pos + left <= buf.Length
    }

    /** The bytes still to be read. */
    ghost function Rest(): (r: seq<byte>)
      requires Valid()
      reads this, buf
      ensures |r| == left
    {
      buf[pos..pos + left]
    }

    constructor (buffer: array<byte>)
      ensures Valid() && buf == buffer && Rest() == buffer[..]
    {
      buf := buffer;
      pos := 0;
      left := buffer.Length;
    }

    /** The next `size` bytes of `parent`. */
    constructor Within(parent: InStream, size: nat)
      requires parent.Valid() && size <= parent.left
      ensures Valid() && buf == parent.buf && Rest() == parent.Rest()[..size] && pos == parent.pos
    {
      buf := parent.buf;
      pos := parent.pos;
      left := size;
      new;
      assert parent.Rest()[..size] == buf[pos..pos + size];
    }

    method Read(count: nat) returns (ok: bool, bytes: seq<byte>)
      requires Valid()
      modifies this
      ensures Valid() && (ok <==> count <= |old(Rest())|)
      ensures ok ==> bytes == old(Rest())[..count] && Rest() == old(Rest())[count..]
    {
      if left < count {
        return false, [];
      }
      bytes := buf[pos..pos + count];
      pos := pos + count;
      left := left - count;
      ok := true;
    }

    method ReadByte() returns (ok: bool, b: byte)
      requires Valid()
      modifies this
      ensures Valid() && (ok <==> old(Rest()) != [])
      ensures ok ==> b == old(Rest())[0] && Rest() == old(Rest())[1..]
    {
      if left == 0 {
        return false, 0;
      }
      b := buf[pos];
      pos := pos + 1;
      left := left - 1;
      ok := true;
    }

    method DecodeVarint() returns (ok: bool, value: uint64)
      requires Valid()
      modifies this
      ensures Valid() && Reads(PbWire.DecodeVarint(old(Rest())), ok, value, Rest())
    {
      hide DecodeGroups, AddGroup64, Shifted, Pow2, WithGroups;
      ghost var bs := Rest();
      var bitpos, result := 0, 0;
      NoGroupsYet(bs);
      assert 0 < Pow2(7 * 0) by { Pow2Positive(0); }
      ghost var g := 0;
      while true
        invariant Valid() && 0 <= g <= 10 && bitpos == 7 * g && 0 <= result < Pow2(7 * g)
        invariant DecodeGroups(bs, 0) == WithGroups(result, g, DecodeGroups(Rest(), g))
        decreases left
      {
        if bitpos >= 64 {
          NoTenthGroup(result, g, Rest());
          return false, 0;
        }
        ghost var rest := Rest();
        var got, b := ReadByte();
        if !got {
          NothingLeft(result, g);
          return false, 0;
        }
        GroupStep(result, g, rest);
        AddGroup64IsSum(result, b % 0x80, g);
        result := AddGroup64(result, b % 0x80, bitpos);
        bitpos := (bitpos + 7) % 0x100;
        g := g + 1;
        if b < 0x80 {
          return true, result;
        }
      }
    }

    method DecodeVarint32() returns (ok: bool, value: uint32)
      requires Valid()
      modifies this
      ensures Valid() && Reads(PbWire.DecodeVarint32(old(Rest())), ok, value, Rest())
    {
      hide AddGroup32;
      ghost var bs := Rest();
      var got, b := ReadByte();
      if !got {
        return false, 0;
      }
      if b < 0x80 {
        return true, b;
      }
      var bitpos, result: uint32 := 7, b % 0x80;
      while b >= 0x80
        invariant Valid() && 0 <= bitpos < 0x100
        invariant b >= 0x80 ==> PbWire.DecodeVarint32(bs) == DecodeGroups32(result, bitpos, Rest())
        invariant b < 0x80 ==>
          PbWire.DecodeVarint32(bs) == if bitpos == 35 && b / 0x10 % 8 != 0 then None else Some((result, Rest()))
        decreases left, b >= 0x80
      {
        got, b := ReadByte();
        if !got {
          return false, 0;
        }
        if bitpos >= 32 {
          var signExtension := if bitpos < 63 then 0xFF else 0x01;
          if b % 0x80 != 0 && (result < 0x8000_0000 || b != signExtension) {
            return false, 0;
          }
        } else {
          result := AddGroup32(result, b % 0x80, bitpos);
        }
        bitpos := (bitpos + 7) % 0x100;
      }
      if bitpos == 35 && b / 0x10 % 8 != 0 {
        return false, 0;
      }
      return true, result;
    }

    method SkipVarint() returns (ok: bool)
      requires Valid()
      modifies this
      ensures Valid() && (ok <==> PbWire.SkipVarint(old(Rest())).Some?)
      ensures ok ==> PbWire.SkipVarint(old(Rest())) == Some(Rest())
    {
      ghost var bs := Rest();
      while true
        invariant Valid() && PbWire.SkipVarint(bs) == PbWire.SkipVarint(Rest())
        decreases left
      {
        var got, b := ReadByte();
        if !got {
          return false;
        }
        if b < 0x80 {
          return true;
        }
      }
    }

    /** Reads a length and opens a substream of that length; this stream continues behind it. */
    method MakeSubstream() returns (ok: bool, sub: InStream)
      requires Valid()
      modifies this
      ensures Valid() && (ok <==> Substream(old(Rest())).Some?)
      ensures ok ==> fresh(sub) && sub.Valid() && sub.buf == buf && Substream(old(Rest())) == Some((sub.Rest(), Rest()))
    {
      hide PbWire.DecodeVarint32;
      var size;
      sub := this;
      ok, size := DecodeVarint32();
      if !ok {
        return;
      }
      if left < size {
        return false, this;
      }
      sub := new InStream.Within(this, size);
      ghost var rest := Rest();
      pos := pos + size;
      left := left - size;
      assert Rest() == rest[size..];
    }

    method SkipField(code: nat) returns (ok: bool)
      requires Valid()
      modifies this
      ensures Valid() && (ok <==> PbWire.SkipField(code, old(Rest())).Some?)
      ensures ok ==> PbWire.SkipField(code, old(Rest())) == Some(Rest())
    {
      hide PbWire.SkipVarint, PbWire.DecodeVarint32;
      var skipped;
      if code == 0 {
        ok := SkipVarint();
      } else if code == 1 {
        ok, skipped := Read(8);
      } else if code == 2 {
        var size;
        ok, size := DecodeVarint32();
        if ok {
          ok, skipped := Read(size);
        }
      } else if code == 5 {
        ok, skipped := Read(4);
      } else {
        ok := false;
      }
    }

    method DecodeNumber(kind: Numeric) returns (ok: bool, n: int)
      requires Valid()
      modifies this
      ensures Valid() && Reads(PbCodec.DecodeNumber(kind, old(Rest())), ok, n, Rest())
    {
      hide PbWire.DecodeVarint, FromLittleEndian;
      if kind.Fixed32? || kind.Fixed64? {
        var bytes;
        ok, bytes := Read(if kind.Fixed32? then 4 else 8);
        n := FromLittleEndian(bytes);
      } else {
        var v;
        ok, v := DecodeVarint();
        n := FromVarint(kind, v);
        ok := ok && Fits(kind, n);
      }
    }

    /** Fills an array from the packed numbers of this substream. */
    method DecodePacked(kind: Numeric, max: nat, items: seq<Value>) returns (ok: bool, all: seq<Value>)
      requires Valid()
      modifies this
      ensures Valid()
      ensures ok <==> PbCodec.DecodePacked(kind, max, items, old(Rest())).Some?
      ensures ok ==> PbCodec.DecodePacked(kind, max, items, old(Rest())) == Some(all)
    {
      hide PbCodec.DecodeNumber;
      ghost var bs := Rest();
      all := items;
      while left > 0 && |all| < max
        invariant Valid()
        invariant PbCodec.DecodePacked(kind, max, items, bs) == PbCodec.DecodePacked(kind, max, all, Rest())
        decreases left
      {
        var n;
        ok, n := DecodeNumber(kind);
        if !ok {
          return;
        }
        all := all + [Int(n)];
      }
      ok := left == 0;
    }

    method DecodeValue(t: FieldType, base: Value) returns (ok: bool, v: Value)
      requires Valid() && ValidType(t)
      modifies this
      ensures Valid() && Reads(PbCodec.DecodeValue(t, base, old(Rest())), ok, v, Rest())
      decreases t, 1
    {
      hide Substream, PbCodec.DecodeNumber, PbCodec.DecodeMessage, ValidDescriptor;
      v := base;
      if t.Num? {
        var n;
        ok, n := DecodeNumber(t.kind);
        v := Int(n);
        return;
      }
      if t.Message? && (!base.Struct? || |base.members| != |t.fields|) {
        return false, v;
      }
      var sub;
      ok, sub := MakeSubstream();
      if !ok {
        return;
      }
      if t.Message? {
        var ms;
        ok, ms := sub.DecodeMessage(t.fields, base.members);
        v := Struct(ms);
      } else {
        ok, v := sub.DecodeBytes(t);
      }
    }

    /** All of a substream as bytes, as text, or as an inline array. */
    method DecodeBytes(t: FieldType) returns (ok: bool, v: Value)
      requires Valid() && !t.Num? && !t.Message?
      modifies this
      ensures Valid() && ok == FitsType(t, |old(Rest())|)
      ensures ok ==> v == ValueOfBytes(t, old(Rest()))
    {
      ghost var s := Rest();
      var bytes;
      ok, bytes := Read(left);
      assert bytes == s;
      if t.Blob? {
        ok, v := |bytes| <= t.capacity, Octets(bytes);
      } else if t.Text? {
        ok, v := |bytes| + 1 <= t.size, Octets(UpToNul(bytes));
      } else if bytes == [] {
        v := Octets(Zeros(t.size));
      } else {
        ok, v := |bytes| == t.size, Octets(bytes);
      }
    }

    method DecodeMember(f: Field, code: nat, m: Member) returns (ok: bool, after: Member)
      requires Valid() && ValidField(f)
      modifies this
      ensures Valid() && Reads(PbCodec.DecodeMember(f, code, m, old(Rest())), ok, after, Rest())
      decreases f, 3
    {
      hide Substream, PbCodec.DecodeValue, PbCodec.DecodePacked, ValidType, InitialValue;
      after := m;
      var v;
      match f.rule
      case Repeated(max) =>
        if !m.Many? {
          return false, m;
        }
        if code == StringWire.Code() && f.ltype.Num? {
          var sub, items;
          ok, sub := MakeSubstream();
          if ok {
            ok, items := sub.DecodePacked(f.ltype.kind, max, m.items);
            after := Many(items);
          }
        } else if |m.items| >= max {
          ok := false;
        } else {
          ok, v := DecodeValue(f.ltype, InitialValue(f));
          after := Many(m.items + [v]);
        }
      case Optional =>
        ok, v := DecodeValue(f.ltype, if m.Maybe? && m.held.Some? then m.held.value else InitialValue(f));
        after := Maybe(Some(v));
      case Oneof(_) =>
        ok, v := DecodeValue(f.ltype, InitialValue(f));
        after := Maybe(Some(v));
      case _ =>
        ok, v := DecodeValue(f.ltype, if m.One? then m.value else InitialValue(f));
        after := One(v);
    }

    /** The field loop and the check for required fields. */
    method DecodeMessage(fs: seq<Field>, start: seq<Member>) returns (ok: bool, ms: seq<Member>)
      requires Valid() && ValidDescriptor(fs) && |start| == |fs|
      modifies this
      ensures Valid() && Reads(PbCodec.DecodeMessage(fs, start, old(Rest())), ok, ms, Rest())
      ensures |ms| == |fs|
      decreases fs, 2
    {
      hide DecodeOne, PbCodec.DecodeMember, PbWire.SkipField, PbWire.DecodeVarint32, ValidField, SetMember, Records,
           RequiredSeen, WordsFull;
      ghost var bs, seen: set<nat> := Rest(), {};
      ms := start;
      var iter := new FieldIter(fs);
      var words := [0, 0];
      NothingSeen(fs);
      var stopped := false;
      while left > 0 && !stopped
        invariant Valid() && fresh(iter) && iter.Valid() && iter.fields == fs && |ms| == |fs|
        invariant |words| == 2 && Records(words, fs, seen)
        invariant !stopped ==> DecodeFields(fs, start, {}, bs) == DecodeFields(fs, ms, seen, Rest())
        invariant stopped ==> DecodeFields(fs, start, {}, bs) == Some((ms, seen, Rest()))
        decreases left
      {
        var key;
        ok, key := DecodeVarint32();
        if !ok {
          return;
        }
        if key == 0 {
          stopped := true;
        } else {
          ok, ms, words, seen := DecodeOneField(fs, iter, key, ms, words, seen);
          if !ok {
            return;
          }
        }
      }
      TagsNonzero(fs);
      CheckIsExact(words, fs, seen);
      ok := CheckRequired(iter, words);
    }

    /** One pass of the loop for a key other than zero. */
    method DecodeOneField(fs: seq<Field>, iter: FieldIter, key: uint32, start: seq<Member>, bits: seq<nat>,
                          ghost before: set<nat>)
      returns (ok: bool, ms: seq<Member>, words: seq<nat>, ghost seen: set<nat>)
      requires Valid() && iter.Valid() && iter.fields == fs && |start| == |fs| && ValidDescriptor(fs) && key != 0
      requires |bits| == 2 && Records(bits, fs, before)
      modifies this, iter
      ensures Valid() && iter.Valid() && |ms| == |fs|
      ensures |words| == 2 && Records(words, fs, seen)
      ensures ok <==> DecodeOne(fs, start, before, key, old(Rest())).Some?
      ensures ok ==> DecodeOne(fs, start, before, key, old(Rest())) == Some((ms, seen, Rest()))
      decreases fs, 1
    {
      hide PbCodec.DecodeMember, PbWire.SkipField, ValidField, SetMember, Records, FindField;
      ms, words, seen := start, bits, before;
      var found := iter.Find(key / 8);
      if !found {
        ok := SkipField(key % 8);
        return;
      }
      if fs == [] {
        // The terminator taken for a field: a required varint of size 0, which no input decodes.
        return false, ms, words, seen;
      }
      var f := fs[iter.pos];
      assert ValidField(f);
      if f.rule == Required {
        if iter.requiredIndex < PB_MAX_REQUIRED_FIELDS {
          words := MarkSeen(bits, iter.requiredIndex);
          MarkRecords(bits, fs, before, iter.pos);
        } else {
          UntrackedRecords(bits, fs, before, iter.pos);
        }
        seen := before + {iter.pos};
      }
      var m;
      ok, m := DecodeMember(f, key % 8, start[iter.pos]);
      if ok {
        ms := SetMember(fs, start, iter.pos, m);
      }
    }
  }

  lemma TagsNonzero(fs: seq<Field>)
    requires ValidDescriptor(fs)
    ensures forall i :: 0 <= i < |fs| ==> fs[i].tag != 0
  {
    hide DistinctTags, ValidType;
  }

  lemma NoTenthGroup(result: nat, g: nat, bs: seq<byte>)
    requires g >= 10
    ensures WithGroups(result, g, DecodeGroups(bs, g)).None?
  {
  }

  lemma NothingLeft(result: nat, g: nat)
    ensures WithGroups(result, g, DecodeGroups([], g)).None?
  {
  }
}
