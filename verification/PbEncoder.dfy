/** The encoder as nanopb runs it: an output stream that either fills a buffer or only counts, and a submessage encoder
    that counts first and writes second. */
module PbEncoder {
  import opened Bytes
  import opened PbWire
  import opened PbCodec
  import opened PbIterator

  // --- What C's types guarantee about a struct --------------------------------------------------

  ghost predicate TypedNumber(kind: Numeric, v: Value) {
    v.Int? && (Fits(kind, v.n) || (!kind.Fixed32? && !kind.Fixed64? && !ValidSize(kind.size)))
  }

  ghost predicate TypedValue(t: FieldType, v: Value)
    decreases t, 1
  {
    match t
    case Num(kind) => TypedNumber(kind, v)
    case Blob(_) => v.Octets?
    case Text(size) => v.Octets? && 0 !in v.bytes && |v.bytes| <= size
    case Inline(size) => v.Octets? && |v.bytes| == size
    case Message(fs) => v.Struct? && |v.members| == |fs| && Typed(fs, v.members)
  }

  ghost predicate TypedMember(f: Field, m: Member)
    decreases f, 2
  {
    match f.rule
    case Required => m.One? && TypedValue(f.ltype, m.value)
    case Singular => m.One? && TypedValue(f.ltype, m.value)
    case Repeated(_) => m.Many? && forall j :: 0 <= j < |m.items| ==> TypedValue(f.ltype, m.items[j])
    case _ => m.Maybe? && (m.held.Some? ==> TypedValue(f.ltype, m.held.value))
  }

  ghost predicate Typed(fs: seq<Field>, ms: seq<Member>)
    requires |fs| == |ms|
    decreases fs
  {
    forall i :: 0 <= i < |fs| ==> TypedMember(fs[i], ms[i])
  }

  // --- The effect of a write --------------------------------------------------------------------

  /** A stream's state: nothing in `data` while it is only counting. */
  datatype View = View(counting: bool, data: seq<byte>, pos: nat, written: nat, max: nat) {
    ghost predicate Valid() {
      !counting ==> written <= max && pos + (max - written) <= |data|
    }
  }

  /** From state `s` the bytes `e` were written and state `t` reached. It succeeds exactly when there is something to
      write and the stream is counting or has room; what lies outside is untouched even by a failure. */
  ghost predicate Emits(s: View, e: Option<seq<byte>>, ok: bool, t: View) {
    && t.Valid() && t.counting == s.counting && t.max == s.max && |t.data| == |s.data|
    && (ok <==> e.Some? && (s.counting || s.written + |e.value| <= s.max))
    && (ok ==> t.written == s.written + |e.value|)
    && (if s.counting then t.data == s.data && t.pos == s.pos
        else
          && s.pos <= t.pos && t.pos - s.pos == t.written - s.written
          && t.pos <= |t.data|
          && t.data[..s.pos] == s.data[..s.pos]
          && t.data[t.pos..] == s.data[t.pos..]
          && (ok ==> t.data[s.pos..t.pos] == e.value))
  }

  ghost function Then(e1: Option<seq<byte>>, e2: Option<seq<byte>>): Option<seq<byte>> {
    if e1.None? || e2.None? then None else Some(e1.value + e2.value)
  }

  lemma EmitsNothing(s: View)
    requires s.Valid()
    ensures Emits(s, Some([]), true, s)
  {
  }

  lemma EmitsThen(s: View, e1: seq<byte>, t: View, e2: Option<seq<byte>>, ok: bool, u: View)
    requires s.Valid() && Emits(s, Some(e1), true, t) && Emits(t, e2, ok, u)
    ensures Emits(s, Then(Some(e1), e2), ok, u)
  {
    if !s.counting {
      assert u.data[..s.pos] == u.data[..t.pos][..s.pos] == t.data[..s.pos];
      assert u.data[u.pos..] == t.data[u.pos..] == t.data[t.pos..][u.pos - t.pos..] == s.data[u.pos..];
      if ok {
        assert u.data[s.pos..t.pos] == u.data[..t.pos][s.pos..] == e1;
        assert u.data[s.pos..u.pos] == u.data[s.pos..t.pos] + u.data[t.pos..u.pos];
      }
    }
  }

  lemma EmitsFails(s: View, e1: Option<seq<byte>>, t: View, e2: Option<seq<byte>>)
    requires Emits(s, e1, false, t)
    ensures Emits(s, Then(e1, e2), false, t)
  {
  }

  lemma ThenNothing(e: Option<seq<byte>>)
    ensures Then(e, Some([])) == e && Then(Some([]), e) == e
  {
    if e.Some? {
      assert e.value + [] == e.value && [] + e.value == e.value;
    }
  }

  lemma ThenAssociates(a: Option<seq<byte>>, b: Option<seq<byte>>, c: Option<seq<byte>>)
    ensures Then(a, Then(b, c)) == Then(Then(a, b), c)
  {
    if a.Some? && b.Some? && c.Some? {
      assert a.value + (b.value + c.value) == a.value + b.value + c.value;
    }
  }

  // --- Implicit presence ------------------------------------------------------------------------

  /** Whether a member holds what counts as its absence: nothing, or for a singular field its zero value, which for a
      submessage means that every member of it does. */
  method CheckDefault(f: Field, m: Member) returns (isDefault: bool)
    requires TypedMember(f, m)
    ensures isDefault == IsDefaultMember(f, m)
    decreases f
  {
    hide Typed, AllDefault;
    if f.rule == Required {
      return false;
    }
    if f.rule.Repeated? {
      return |m.items| == 0;
    }
    if f.rule.Oneof? || f.rule.Optional? {
      return m.held.None?;
    }
    match f.ltype
    case Num(_) => isDefault := m.value.n == 0;
    case Blob(_) => isDefault := |m.value.bytes| == 0;
    case Text(_) => isDefault := |m.value.bytes| == 0;
    case Inline(size) => isDefault := size == 0;
    case Message(fs) => isDefault := CheckSubmessage(fs, m.value.members);
  }

  method CheckSubmessage(fs: seq<Field>, ms: seq<Member>) returns (isDefault: bool)
    requires |fs| == |ms| && Typed(fs, ms)
    ensures isDefault == AllDefault(fs, ms)
    decreases fs
  {
    hide IsDefaultMember, TypedMember;
    var iter := new FieldIter(fs);
    if fs == [] {
      return true;
    }
    assert fs[0..] == fs && ms[0..] == ms;
    var more := true;
    while more
      invariant fresh(iter) && iter.Valid() && iter.fields == fs
      invariant AllDefault(fs, ms) == if more then AllDefault(fs[iter.pos..], ms[iter.pos..]) else true
      decreases more, |fs| - iter.pos
    {
      var i := iter.pos;
      assert fs[i..][1..] == fs[i + 1..] && ms[i..][1..] == ms[i + 1..];
      var member := CheckDefault(fs[i], ms[i]);
      if !member {
        return false;
      }
      more := iter.Next();
    }
    isDefault := true;
  }

  class OutStream {
    const buf: array?<byte>   // null: only counting
    const max: nat
    var pos: nat
    var written: nat

    ghost function State(): View
      reads this, buf
    {
      View(buf == null, if buf == null then [] else buf[..], pos, written, max)
    }

    /** A stream over a whole buffer. */
    constructor (buffer: array<byte>)
      ensures State() == View(false, buffer[..], 0, 0, buffer.Length) && State().Valid() && buf == buffer
    {
      buf := buffer;
      max := buffer.Length;
      pos := 0;
      written := 0;
    }

    constructor Counting()
      ensures State() == View(true, [], 0, 0, 0) && State().Valid() && buf == null
    {
      buf := null;
      max := 0;
      pos := 0;
      written := 0;
    }

    /** A stream that may write `size` bytes where `parent` stands. */
    constructor Within(parent: OutStream, size: nat)
      ensures buf == parent.buf && max == size && pos == parent.pos && written == 0
    {
      buf := parent.buf;
      max := size;
      pos := parent.pos;
      written := 0;
    }

    method Write(bytes: seq<byte>) returns (ok: bool)
      requires State().Valid()
      modifies this, buf
      ensures State().Valid() && Emits(old(State()), Some(bytes), ok, State())
    {
      hide Emits;
      ghost var s := State();
      if buf == null {
        EmitsCount(s, bytes);
      } else {
        if written + |bytes| > max {
          EmitsTooMuch(s, bytes);
          return false;
        }
        CopyIn(buf, pos, bytes);
        pos := pos + |bytes|;
        EmitsWrite(s, bytes, buf[..]);
      }
      written := written + |bytes|;
      ok := true;
    }

    static method CopyIn(dest: array<byte>, at: nat, bytes: seq<byte>)
      requires at + |bytes| <= dest.Length
      modifies dest
      ensures dest[..] == old(dest[..at]) + bytes + old(dest[at + |bytes|..])
    {
      var i := 0;
      while i < |bytes|
        invariant 0 <= i <= |bytes|
        invariant forall k :: 0 <= k < dest.Length ==>
                    dest[k] == if at <= k < at + i then bytes[k - at] else old(dest[k])
      {
        dest[at + i] := bytes[i];
        i := i + 1;
      }
      assert dest[at..at + |bytes|] == bytes;
      assert dest[..] == dest[..at] + dest[at..at + |bytes|] + dest[at + |bytes|..];
    }

    /** `pb_write` without data, while counting. */
    method Count(size: nat)
      requires buf == null
      modifies this
      ensures written == old(written) + size && pos == old(pos)
    {
      written := written + size;
    }

    method EncodeVarint(value: uint64) returns (ok: bool)
      requires State().Valid()
      modifies this, buf
      ensures State().Valid() && Emits(old(State()), Some(PbWire.EncodeVarint(value)), ok, State())
    {
      hide PbWire.EncodeVarint, Emits;
      if value <= 0x7F {
        EncodeVarintShort(value);
        ok := Write([value]);
        return;
      }
      var buffer := new byte[10];
      var n := FillVarint(buffer, value);
      ok := Write(buffer[..n]);
    }

    /** A key: the tag above three bits of wire type. */
    method EncodeTag(tag: uint32, wire: WireType) returns (ok: bool)
      requires State().Valid()
      modifies this, buf
      ensures State().Valid() && Emits(old(State()), Some(Key(tag, wire)), ok, State())
    {
      ok := EncodeVarint(8 * tag + wire.Code());
    }

    method EncodeString(bytes: seq<byte>) returns (ok: bool)
      requires State().Valid()
      modifies this, buf
      ensures State().Valid() && Emits(old(State()), Some(Delimited(bytes)), ok, State())
    {
      hide Emits, PbWire.EncodeVarint;
      ghost var s, length := State(), PbWire.EncodeVarint(|bytes| % TWO_64);
      ok := EncodeVarint(|bytes| % TWO_64);
      if !ok {
        EmitsFails(s, Some(length), State(), Some(bytes));
        return;
      }
      ghost var t := State();
      ok := Write(bytes);
      EmitsThen(s, length, t, Some(bytes), ok, State());
    }

    method EncodeFixed(n: nat, size: nat) returns (ok: bool)
      requires State().Valid() && size <= 8
      modifies this, buf
      ensures State().Valid() && Emits(old(State()), Some(LittleEndian(n, size)), ok, State())
    {
      hide Emits, LittleEndian;
      var bytes := new byte[size];
      FillFixed(bytes, n);
      ok := Write(bytes[..]);
    }

    static method FillFixed(bytes: array<byte>, n: nat)
      modifies bytes
      ensures bytes[..] == LittleEndian(n, bytes.Length)
    {
      var i, v := 0, n;
      while i < bytes.Length
        invariant 0 <= i <= bytes.Length && v >= 0
        invariant LittleEndian(n, bytes.Length) == bytes[..i] + LittleEndian(v, bytes.Length - i)
      {
        ghost var before, left := bytes[..i], bytes.Length - i;
        bytes[i] := v % 0x100;
        assert bytes[..i + 1] == before + [bytes[i]];
        assert LittleEndian(v, left) == [bytes[i]] + LittleEndian(v / 0x100, left - 1);
        ghost var tail := LittleEndian(v / 0x100, left - 1);
        assert before + ([bytes[i]] + tail) == bytes[..i + 1] + tail;
        v, i := v / 0x100, i + 1;
      }
      assert bytes[..i] == bytes[..];
    }

    method EncodeNumber(kind: Numeric, n: int) returns (ok: bool)
      requires State().Valid() && TypedNumber(kind, Int(n))
      modifies this, buf
      ensures State().Valid() && Emits(old(State()), PbCodec.EncodeNumber(kind, n), ok, State())
    {
      hide PbWire.EncodeVarint, LittleEndian, Emits;
      if kind.Fixed32? {
        ok := EncodeFixed(n, 4);
      } else if kind.Fixed64? {
        ok := EncodeFixed(n, 8);
      } else if !ValidSize(kind.size) {
        EmitsNone(State());
        ok := false;
      } else {
        ok := EncodeVarint(if kind.Varint? then AsUnsigned64(n) else if kind.SVarint? then ZigZag(n) else n);
      }
    }

    /** Counts first, then writes: the second pass always produces the size of the first, so that the "submsg size
        changed" error cannot occur. */
    method EncodeSubmessage(fs: seq<Field>, ms: seq<Member>) returns (ok: bool)
      requires State().Valid() && |fs| == |ms| && Typed(fs, ms)
      modifies this, buf
      ensures State().Valid() && Emits(old(State()), PbCodec.EncodeValue(Message(fs), Struct(ms)), ok, State())
      decreases fs, 1
    {
      hide Emits, EncodeMessage, Typed, PbWire.EncodeVarint;
      ghost var s, e := State(), EncodeMessage(fs, ms);
      var sizing := new OutStream.Counting();
      ghost var sizing0 := sizing.State();
      ok := sizing.Encode(fs, ms);
      CountingSucceeds(sizing0, e, ok, sizing.State());
      if !ok {
        EmitsNone(s);
        return;
      }
      var size := sizing.written;
      ghost var length := PbWire.EncodeVarint(size % TWO_64);
      ok := EncodeVarint(size % TWO_64);
      if !ok {
        EmitsFails(s, Some(length), State(), e);
        return;
      }
      ghost var t := State();
      if buf == null {
        Count(size);
        EmitsCount(t, e.value);
      } else {
        if written + size > max {
          EmitsTooMuch(t, e.value);
          EmitsThen(s, length, t, e, false, t);
          return false;
        }
        EmitsValid(s, Some(length), true, t);
        var sub := new OutStream.Within(this, size);
        ok := sub.Encode(fs, ms);
        EmitsWithin(t, size, e.value, ok, sub.State());
        written := written + sub.written;
        pos := sub.pos;
        assert sub.written == size;
      }
      EmitsThen(s, length, t, e, true, State());
    }

    method EncodeValue(t: FieldType, v: Value) returns (ok: bool)
      requires State().Valid() && TypedValue(t, v)
      modifies this, buf
      ensures State().Valid() && Emits(old(State()), PbCodec.EncodeValue(t, v), ok, State())
      decreases t, 1
    {
      hide Delimited, PbCodec.EncodeNumber;
      match t
      case Num(kind) => ok := EncodeNumber(kind, v.n);
      case Blob(capacity) =>
        if |v.bytes| > capacity {
          return false;
        }
        ok := EncodeString(v.bytes);
      case Text(_) => ok := EncodeString(v.bytes);
      case Inline(_) => ok := EncodeString(v.bytes);
      case Message(fs) => ok := EncodeSubmessage(fs, v.members);
    }

    method EncodeTagged(f: Field, v: Value) returns (ok: bool)
      requires State().Valid() && TypedValue(f.ltype, v)
      modifies this, buf
      ensures State().Valid() && Emits(old(State()), PbCodec.EncodeTagged(f, v), ok, State())
      decreases f, 2
    {
      hide Emits, PbCodec.EncodeValue, Key, TypedValue;
      ghost var s, key, e := State(), Key(f.tag, WireOf(f.ltype)), PbCodec.EncodeValue(f.ltype, v);
      ok := EncodeTag(f.tag, WireOf(f.ltype));
      if !ok {
        EmitsFails(s, Some(key), State(), e);
        return;
      }
      ghost var t := State();
      ok := EncodeValue(f.ltype, v);
      EmitsThen(s, key, t, e, ok, State());
    }

    method EncodeNumbers(kind: Numeric, items: seq<Value>) returns (ok: bool)
      requires State().Valid() && forall j :: 0 <= j < |items| ==> TypedNumber(kind, items[j])
      modifies this, buf
      ensures State().Valid() && Emits(old(State()), EncodePacked(kind, items), ok, State())
    {
      hide Emits, PbCodec.EncodeNumber, TypedNumber;
      ghost var s, done := State(), [];
      EmitsNothing(s);
      ThenNothing(EncodePacked(kind, items));
      assert items[0..] == items;
      ok := true;
      var i := 0;
      while i < |items|
        invariant 0 <= i <= |items| && State().Valid()
        invariant Emits(s, Some(done), true, State())
        invariant EncodePacked(kind, items) == Then(Some(done), EncodePacked(kind, items[i..]))
      {
        assert TypedNumber(kind, items[i]);
        IntOfTyped(kind, items[i]);
        ghost var t, e, rest := State(), PbCodec.EncodeNumber(kind, items[i].n), EncodePacked(kind, items[i + 1..]);
        assert items[i..][1..] == items[i + 1..];
        assert EncodePacked(kind, items[i..]) == Then(e, rest);
        ThenAssociates(Some(done), e, rest);
        ok := EncodeNumber(kind, items[i].n);
        EmitsThen(s, done, t, e, ok, State());
        if !ok {
          EmitsFails(s, Then(Some(done), e), State(), rest);
          return;
        }
        EmitsValid(t, e, ok, State());
        done := done + e.value;
        i := i + 1;
      }
      ThenNothing(Some(done));
    }

    method EncodeItems(f: Field, items: seq<Value>) returns (ok: bool)
      requires State().Valid() && forall j :: 0 <= j < |items| ==> TypedValue(f.ltype, items[j])
      modifies this, buf
      ensures State().Valid() && Emits(old(State()), PbCodec.EncodeItems(f, items), ok, State())
      decreases f, 3
    {
      hide Emits, PbCodec.EncodeTagged, TypedValue;
      ghost var s, done := State(), [];
      EmitsNothing(s);
      ThenNothing(PbCodec.EncodeItems(f, items));
      assert items[0..] == items;
      ok := true;
      var i := 0;
      while i < |items|
        invariant 0 <= i <= |items| && State().Valid()
        invariant Emits(s, Some(done), true, State())
        invariant PbCodec.EncodeItems(f, items) == Then(Some(done), PbCodec.EncodeItems(f, items[i..]))
      {
        ghost var t, e, rest := State(), PbCodec.EncodeTagged(f, items[i]), PbCodec.EncodeItems(f, items[i + 1..]);
        assert items[i..][1..] == items[i + 1..];
        assert PbCodec.EncodeItems(f, items[i..]) == Then(e, rest);
        ThenAssociates(Some(done), e, rest);
        ok := EncodeTagged(f, items[i]);
        EmitsThen(s, done, t, e, ok, State());
        if !ok {
          EmitsFails(s, Then(Some(done), e), State(), rest);
          return;
        }
        EmitsValid(t, e, ok, State());
        done := done + e.value;
        i := i + 1;
      }
      ThenNothing(Some(done));
    }

    /** The size of all items: a multiple of the item size, or what a counting stream reports. */
    static method PackedSize(kind: Numeric, items: seq<Value>) returns (size: Option<nat>)
      requires forall j :: 0 <= j < |items| ==> TypedNumber(kind, items[j])
      ensures size == match EncodePacked(kind, items) case None => None case Some(bs) => Some(|bs|)
    {
      hide Emits, EncodePacked, TypedNumber;
      if kind.Fixed32? || kind.Fixed64? {
        FixedSize(kind, items);
        return Some((if kind.Fixed32? then 4 else 8) * |items|);
      }
      var sizing := new OutStream.Counting();
      ghost var start := sizing.State();
      var ok := sizing.EncodeNumbers(kind, items);
      CountingSucceeds(start, EncodePacked(kind, items), ok, sizing.State());
      size := if ok then Some(sizing.written) else None;
    }

    /** Arrays of numbers are always packed: a key, the size of all items, and the items. */
    method EncodePackedArray(tag: uint32, kind: Numeric, items: seq<Value>) returns (ok: bool)
      requires State().Valid() && forall j :: 0 <= j < |items| ==> TypedNumber(kind, items[j])
      modifies this, buf
      ensures State().Valid() && Emits(old(State()), PackedArray(tag, kind, items), ok, State())
    {
      hide Emits, EncodePacked, TypedNumber, Key, Delimited;
      ghost var s, key := State(), Key(tag, StringWire);
      ok := EncodeTag(tag, StringWire);
      if !ok {
        EmitsFails(s, Some(key), State(), PackedItems(kind, items));
        return;
      }
      ghost var t := State();
      ok := EncodePackedItems(kind, items);
      EmitsThen(s, key, t, PackedItems(kind, items), ok, State());
    }

    /** The size of all items, and the items. */
    method EncodePackedItems(kind: Numeric, items: seq<Value>) returns (ok: bool)
      requires State().Valid() && forall j :: 0 <= j < |items| ==> TypedNumber(kind, items[j])
      modifies this, buf
      ensures State().Valid() && Emits(old(State()), PackedItems(kind, items), ok, State())
    {
      hide Emits, EncodePacked, TypedNumber, PbWire.EncodeVarint;
      ghost var t, e := State(), EncodePacked(kind, items);
      var counted := PackedSize(kind, items);
      if counted.None? {
        EmitsNone(t);
        return false;
      }
      var size := counted.value;
      ghost var length := PbWire.EncodeVarint(size % TWO_64);
      ok := EncodeVarint(size % TWO_64);
      if !ok {
        EmitsFails(t, Some(length), State(), e);
        return;
      }
      ghost var u := State();
      if buf == null {
        Count(size);
        EmitsCount(u, e.value);
      } else {
        ok := EncodeNumbers(kind, items);
      }
      EmitsThen(t, length, u, e, ok, State());
    }

    method EncodeField(f: Field, m: Member) returns (ok: bool)
      requires State().Valid() && TypedMember(f, m)
      modifies this, buf
      ensures State().Valid() && Emits(old(State()), EncodeMember(f, m), ok, State())
      decreases f, 4
    {
      hide Emits, PbCodec.EncodeTagged, PbCodec.EncodeItems, EncodePacked, Key, Delimited, TypedValue, IsDefaultValue;
      EmitsNothing(State());
      match f.rule
      case Required => ok := EncodeTagged(f, m.value);
      case Singular =>
        var isDefault := CheckDefault(f, m);
        if isDefault {
          return true;
        }
        ok := EncodeTagged(f, m.value);
      case Repeated(max) =>
        if |m.items| == 0 {
          return true;
        }
        if |m.items| > max {
          EmitsNone(State());
          return false;
        }
        if f.ltype.Num? {
          TypedItems(f.ltype.kind, m.items);
          ok := EncodePackedArray(f.tag, f.ltype.kind, m.items);
        } else {
          ok := EncodeItems(f, m.items);
        }
      case _ =>
        if m.held.None? {
          return true;
        }
        ok := EncodeTagged(f, m.held.value);
    }

    /** All fields in descriptor order. */
    method Encode(fs: seq<Field>, ms: seq<Member>) returns (ok: bool)
      requires State().Valid() && |fs| == |ms| && Typed(fs, ms)
      modifies this, buf
      ensures State().Valid() && Emits(old(State()), EncodeMessage(fs, ms), ok, State())
      decreases fs, 0
    {
      hide Emits, EncodeMember, TypedMember;
      ghost var s, done := State(), [];
      EmitsNothing(s);
      ThenNothing(EncodeMessage(fs, ms));
      var iter := new FieldIter(fs);
      if fs == [] {
        return true;
      }
      assert fs[0..] == fs && ms[0..] == ms;
      var more := true;
      while more
        invariant fresh(iter) && iter.Valid() && iter.fields == fs && State().Valid()
        invariant Emits(s, Some(done), true, State())
        invariant more ==> EncodeMessage(fs, ms) == Then(Some(done), EncodeMessage(fs[iter.pos..], ms[iter.pos..]))
        invariant !more ==> EncodeMessage(fs, ms) == Some(done)
        decreases more, |fs| - iter.pos
      {
        var i := iter.pos;
        ghost var t, e, rest := State(), EncodeMember(fs[i], ms[i]), EncodeMessage(fs[i + 1..], ms[i + 1..]);
        assert fs[i..][1..] == fs[i + 1..] && ms[i..][1..] == ms[i + 1..];
        assert EncodeMessage(fs[i..], ms[i..]) == Then(e, rest);
        ThenAssociates(Some(done), e, rest);
        ok := EncodeField(fs[i], ms[i]);
        EmitsThen(s, done, t, e, ok, State());
        if !ok {
          EmitsFails(s, Then(Some(done), e), State(), rest);
          return;
        }
        EmitsValid(t, e, ok, State());
        done := done + e.value;
        ThenNothing(Some(done));
        more := iter.Next();
      }
      ok := true;
    }

    /** The message and a zero byte. */
    method EncodeNullTerminated(fs: seq<Field>, ms: seq<Member>) returns (ok: bool)
      requires State().Valid() && |fs| == |ms| && Typed(fs, ms)
      modifies this, buf
      ensures State().Valid() && Emits(old(State()), Then(EncodeMessage(fs, ms), Some([0])), ok, State())
    {
      hide Emits, EncodeMessage, Typed;
      ghost var s, e := State(), EncodeMessage(fs, ms);
      ok := Encode(fs, ms);
      if !ok {
        EmitsFails(s, e, State(), Some([0]));
        return;
      }
      ghost var t := State();
      EmitsValid(s, e, ok, t);
      ok := Write([0]);
      EmitsThen(s, e.value, t, Some([0]), ok, State());
    }

    static method FillVarint(buffer: array<byte>, value: uint64) returns (n: nat)
      requires buffer.Length == 10 && value > 0x7F
      modifies buffer
      ensures n <= 10 && buffer[..n] == PbWire.EncodeVarint(value)
    {
      hide PbWire.EncodeVarint;
      var v: uint64 := value;
      n := 0;
      EncodeVarintFits(value);
      while v != 0
        invariant v > 0 ==> n + |PbWire.EncodeVarint(v)| <= 10
        invariant v > 0 ==> PbWire.EncodeVarint(value) == buffer[..n] + PbWire.EncodeVarint(v)
        invariant v == 0 ==> 0 < n <= 10 && buffer[n - 1] >= 0x80
        invariant v == 0 ==> PbWire.EncodeVarint(value) == buffer[..n - 1] + [buffer[n - 1] - 0x80]
        decreases v
      {
        ghost var before := buffer[..n];
        if v > 0x7F {
          EncodeVarintLong(v);
        } else {
          EncodeVarintShort(v);
        }
        buffer[n] := v % 0x80 + 0x80;
        assert buffer[..n] == before;
        ghost var tail := PbWire.EncodeVarint(v / 0x80);
        assert before + ([buffer[n]] + tail) == before + [buffer[n]] + tail;
        v := v / 0x80;
        n := n + 1;
        assert buffer[..n] == before + [buffer[n - 1]];
      }
      assert buffer[..n - 1] + [buffer[n - 1] - 0x80] == PbWire.EncodeVarint(value);
      buffer[n - 1] := buffer[n - 1] - 0x80;
      assert buffer[..n] == buffer[..n - 1] + [buffer[n - 1]];
    }
  }

  lemma EmitsValid(s: View, e: Option<seq<byte>>, ok: bool, t: View)
    requires Emits(s, e, ok, t)
    ensures t.Valid() && t.counting == s.counting && t.max == s.max
    ensures ok ==> e.Some? && t.written == s.written + |e.value|
  {
  }

  lemma CountingSucceeds(s: View, e: Option<seq<byte>>, ok: bool, t: View)
    requires Emits(s, e, ok, t) && s.counting && s.written == 0
    ensures ok <==> e.Some?
    ensures ok ==> t.written == |e.value|
  {
  }

  lemma EmitsNone(s: View)
    requires s.Valid()
    ensures Emits(s, None, false, s)
  {
  }

  lemma EmitsTooMuch(s: View, e: seq<byte>)
    requires s.Valid() && !s.counting && s.written + |e| > s.max
    ensures Emits(s, Some(e), false, s)
  {
  }

  lemma IntOfTyped(kind: Numeric, v: Value)
    requires TypedNumber(kind, v)
    ensures v.Int? && v == Int(v.n)
  {
  }

  lemma TypedItems(kind: Numeric, items: seq<Value>)
    requires forall j :: 0 <= j < |items| ==> TypedValue(Num(kind), items[j])
    ensures forall j :: 0 <= j < |items| ==> TypedNumber(kind, items[j])
  {
    forall j | 0 <= j < |items| ensures TypedNumber(kind, items[j]) {
      assert TypedValue(Num(kind), items[j]);
    }
  }

  ghost function PackedItems(kind: Numeric, items: seq<Value>): Option<seq<byte>> {
    match EncodePacked(kind, items)
    case None => None
    case Some(bs) => Some(Delimited(bs))
  }

  ghost function PackedArray(tag: uint32, kind: Numeric, items: seq<Value>): Option<seq<byte>> {
    Then(Some(Key(tag, StringWire)), PackedItems(kind, items))
  }

  lemma {:induction false} FixedSize(kind: Numeric, items: seq<Value>)
    requires kind.Fixed32? || kind.Fixed64?
    requires forall j :: 0 <= j < |items| ==> TypedNumber(kind, items[j])
    ensures EncodePacked(kind, items).Some?
    ensures |EncodePacked(kind, items).value| == (if kind.Fixed32? then 4 else 8) * |items|
  {
    if items != [] {
      assert TypedNumber(kind, items[0]);
      FixedSize(kind, items[1..]);
    }
  }

  /** Writing through a substream of exactly the right size is writing directly. */
  lemma EmitsWithin(s: View, size: nat, e: seq<byte>, ok: bool, t: View)
    requires s.Valid() && !s.counting && s.written + size <= s.max && |e| == size
    requires Emits(View(false, s.data, s.pos, 0, size), Some(e), ok, t)
    ensures ok && t.written == size
    ensures Emits(s, Some(e), true, View(false, t.data, t.pos, s.written + t.written, s.max))
  {
  }

  lemma EmitsWrite(s: View, e: seq<byte>, data: seq<byte>)
    requires s.Valid() && !s.counting && s.written + |e| <= s.max
    requires data == s.data[..s.pos] + e + s.data[s.pos + |e|..]
    ensures var t := View(false, data, s.pos + |e|, s.written + |e|, s.max);
            t.Valid() && Emits(s, Some(e), true, t)
  {
    var n := s.pos + |e|;
    assert data[..s.pos] == s.data[..s.pos];
    assert data[s.pos..n] == e;
    assert data[n..] == s.data[n..];
  }

  lemma EmitsCount(s: View, e: seq<byte>)
    requires s.Valid() && s.counting
    ensures s.(written := s.written + |e|).Valid() && Emits(s, Some(e), true, s.(written := s.written + |e|))
  {
  }

  /** The size pass: it fails exactly where encoding does and otherwise reports the length of the encoding. */
  method GetEncodedSize(fs: seq<Field>, ms: seq<Member>) returns (size: Option<nat>)
    requires |fs| == |ms| && Typed(fs, ms)
    ensures size == match EncodeMessage(fs, ms) case None => None case Some(bs) => Some(|bs|)
  {
    hide EncodeMessage, Typed;
    var stream := new OutStream.Counting();
    var ok := stream.Encode(fs, ms);
    size := if ok then Some(stream.written) else None;
  }

  /** Encoding into a buffer succeeds exactly when the size pass reports a size that fits. */
  method EncodeInto(buffer: array<byte>, fs: seq<Field>, ms: seq<Member>) returns (ok: bool, size: nat)
    requires |fs| == |ms| && Typed(fs, ms)
    modifies buffer
    ensures ok <==> EncodeMessage(fs, ms).Some? && |EncodeMessage(fs, ms).value| <= buffer.Length
    ensures ok ==> size <= buffer.Length && buffer[..size] == EncodeMessage(fs, ms).value
    ensures ok ==> buffer[size..] == old(buffer[size..])
  {
    hide EncodeMessage, Typed;
    var stream := new OutStream(buffer);
    ok := stream.Encode(fs, ms);
    size := stream.written;
  }
}
