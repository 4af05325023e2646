/** Decoding into a struct that already holds something: of any bytes, which oneof members are selected; of an encoding,
    the merge of the two messages. */
module PbMerge {
  import opened Bytes
  import opened PbWire
  import opened PbCodec
  import opened PbRoundTrip

  // --- Oneofs -----------------------------------------------------------------------------------

  ghost predicate OneSelected(fs: seq<Field>, ms: seq<Member>)
    requires |ms| == |fs|
  {
    forall i, j :: 0 <= i < |fs| && 0 <= j < |fs| && SameUnion(fs, i, j) ==>
      ms[i] == Maybe(None) || ms[j] == Maybe(None)
  }

  /** The positions of the known fields in the bytes, in the order in which they come. */
  ghost function FieldsIn(fs: seq<Field>, ms: seq<Member>, seen: set<nat>, bs: seq<byte>): seq<nat>
    requires |ms| == |fs|
    decreases |bs|
  {
    if bs == [] || DecodeVarint32(bs).None? then []
    else
      var (key, rest) := DecodeVarint32(bs).value;
      if key == 0 then []
      else
        match DecodeOne(fs, ms, seen, key, rest)
        case None => []
        case Some((ms', seen', rest')) =>
          var tail := if |rest'| < |bs| then FieldsIn(fs, ms', seen', rest') else [];
          if FindField(fs, key / 8).Some? then [FindField(fs, key / 8).value] + tail else tail
  }

  ghost predicate AllKnown(fs: seq<Field>, list: seq<nat>) {
    forall k :: 0 <= k < |list| ==> list[k] < |fs|
  }

  /** Position `i` comes in the list, and after it no other member of its oneof. */
  ghost predicate ComesLast(fs: seq<Field>, list: seq<nat>, i: nat)
    requires i < |fs|
  {
    exists k: nat :: k < |list| && list[k] == i && NoneAfter(fs, list, k, i)
  }

  ghost predicate NoneAfter(fs: seq<Field>, list: seq<nat>, k: nat, i: nat)
    requires i < |fs|
  {
    forall l :: k < l < |list| ==> list[l] < |fs| && !SameUnion(fs, i, list[l])
  }

  /** No field of the oneof comes at all. */
  ghost predicate NoneComes(fs: seq<Field>, list: seq<nat>, i: nat)
    requires i < |fs|
  {
    forall l :: 0 <= l < |list| ==> list[l] < |fs| && list[l] != i && !SameUnion(fs, i, list[l])
  }

  lemma SetSelects(fs: seq<Field>, ms: seq<Member>, i: nat, m: Member)
    requires |ms| == |fs| && i < |fs| && OneSelected(fs, ms)
    ensures OneSelected(fs, SetMember(fs, ms, i, m))
  {
    var ms' := SetMember(fs, ms, i, m);
    forall a, b | 0 <= a < |fs| && 0 <= b < |fs| && SameUnion(fs, a, b)
      ensures ms'[a] == Maybe(None) || ms'[b] == Maybe(None)
    {
      assert SameUnion(fs, i, a) || SameUnion(fs, i, b) || (a != i && b != i);
    }
  }

  /** What one field does to the members of a oneof. */
  lemma OneSets(fs: seq<Field>, ms: seq<Member>, seen: set<nat>, key: nat, bs: seq<byte>)
    requires |ms| == |fs| && DecodeOne(fs, ms, seen, key, bs).Some?
    ensures var ms' := DecodeOne(fs, ms, seen, key, bs).value.0;
            match FindField(fs, key / 8)
            case None => ms' == ms
            case Some(i) =>
              && ms' == SetMember(fs, ms, i, ms'[i])
              && (fs[i].rule.Oneof? ==> ms'[i].Maybe? && ms'[i].held.Some?)
  {
    hide FindField, DecodeValue, SkipField, InitialValue;
  }

  /** Decoding any bytes into a struct that has at most one member of every oneof selected leaves it so; the one
      selected is that whose field came last. A member of any kind whose field did not come, nor another of its oneof,
      has not changed. */
  lemma {:induction false} LastOneIsSelected(fs: seq<Field>, ms: seq<Member>, seen: set<nat>, bs: seq<byte>)
    requires |ms| == |fs| && OneSelected(fs, ms) && DecodeFields(fs, ms, seen, bs).Some?
    ensures var ms', list := DecodeFields(fs, ms, seen, bs).value.0, FieldsIn(fs, ms, seen, bs);
            && OneSelected(fs, ms') && AllKnown(fs, list)
            && forall i: nat :: i < |fs| ==>
                 && (fs[i].rule.Oneof? && ComesLast(fs, list, i) ==> ms'[i].Maybe? && ms'[i].held.Some?)
                 && (NoneComes(fs, list, i) ==> ms'[i] == ms[i])
    decreases |bs|
  {
    hide DecodeOne, DecodeVarint32, FindField, SetMember, OneSelected, SameUnion, ComesLast, NoneComes, AllKnown;
    if bs == [] || DecodeVarint32(bs).value.0 == 0 {
      NothingComes(fs);
    } else {
      var (key, rest) := DecodeVarint32(bs).value;
      var (ms1, seen1, rest1) := DecodeOne(fs, ms, seen, key, rest).value;
      OneSets(fs, ms, seen, key, rest);
      ShorterAfterKey(bs);
      var at := FindField(fs, key / 8);
      if at.Some? {
        SetSelects(fs, ms, at.value, ms1[at.value]);
      }
      LastOneIsSelected(fs, ms1, seen1, rest1);
      var ms', tail := DecodeFields(fs, ms, seen, bs).value.0, FieldsIn(fs, ms1, seen1, rest1);
      if at.Some? {
        FirstIsKnown(fs, at.value, tail);
        forall i: nat | i < |fs|
          ensures fs[i].rule.Oneof? && ComesLast(fs, [at.value] + tail, i) ==> ms'[i].Maybe? && ms'[i].held.Some?
          ensures NoneComes(fs, [at.value] + tail, i) ==> ms'[i] == ms[i]
        {
          FirstThenRest(fs, at.value, tail, i);
          SetElsewhere(fs, ms, at.value, ms1[at.value], i);
        }
      }
    }
  }

  lemma NothingComes(fs: seq<Field>)
    ensures AllKnown(fs, [])
    ensures forall i: nat :: i < |fs| ==> !ComesLast(fs, [], i)
  {
  }

  lemma FirstIsKnown(fs: seq<Field>, first: nat, tail: seq<nat>)
    requires first < |fs| && AllKnown(fs, tail)
    ensures AllKnown(fs, [first] + tail)
  {
  }

  lemma ShorterAfterKey(bs: seq<byte>)
    requires DecodeVarint32(bs).Some?
    ensures |DecodeVarint32(bs).value.1| < |bs|
  {
  }

  lemma FirstThenRest(fs: seq<Field>, first: nat, tail: seq<nat>, i: nat)
    requires i < |fs| && first < |fs| && AllKnown(fs, tail)
    ensures ComesLast(fs, [first] + tail, i) ==> ComesLast(fs, tail, i) || (first == i && NoneComes(fs, tail, i))
    ensures NoneComes(fs, [first] + tail, i) ==> NoneComes(fs, tail, i) && first != i && !SameUnion(fs, i, first)
  {
    hide SameUnion;
    var list := [first] + tail;
    if ComesLast(fs, list, i) {
      var k: nat :| k < |list| && list[k] == i && NoneAfter(fs, list, k, i);
      if k > 0 {
        assert tail[k - 1] == i;
        forall l | k - 1 < l < |tail| ensures tail[l] < |fs| && !SameUnion(fs, i, tail[l]) {
          assert list[l + 1] == tail[l];
        }
        assert NoneAfter(fs, tail, k - 1, i);
      } else {
        forall l | 0 <= l < |tail| ensures tail[l] < |fs| && !SameUnion(fs, i, tail[l]) {
          assert list[l + 1] == tail[l];
        }
        if !NoneComes(fs, tail, i) {
          var l: nat :| l < |tail| && tail[l] == i;
          assert NoneAfter(fs, tail, l, i);
        }
      }
    }
    if NoneComes(fs, list, i) {
      assert list[0] == first;
      forall l | 0 <= l < |tail| ensures tail[l] < |fs| && tail[l] != i && !SameUnion(fs, i, tail[l]) {
        assert list[l + 1] == tail[l];
      }
    }
  }

  lemma SetElsewhere(fs: seq<Field>, ms: seq<Member>, k: nat, m: Member, i: nat)
    requires |ms| == |fs| && k < |fs| && i < |fs|
    ensures i != k && !SameUnion(fs, i, k) ==> SetMember(fs, ms, k, m)[i] == ms[i]
    ensures i == k ==> SetMember(fs, ms, k, m)[i] == m
  {
  }

  // --- Merging ----------------------------------------------------------------------------------

  /** A value of the shape the C struct has; nothing is asked of numbers, lengths and counts. */
  ghost predicate ShapedValue(t: FieldType, v: Value)
    decreases t, 1
  {
    t.Message? ==> v.Struct? && |v.members| == |t.fields| && Shaped(t.fields, v.members)
  }

  ghost predicate ShapedMember(f: Field, m: Member)
    decreases f, 2
  {
    match f.rule
    case Repeated(_) => m.Many?
    case Optional => m.Maybe? && (m.held.Some? ==> ShapedValue(f.ltype, m.held.value))
    case Oneof(_) => m.Maybe?
    case _ => m.One? && ShapedValue(f.ltype, m.value)
  }

  ghost predicate Shaped(fs: seq<Field>, ms: seq<Member>)
    requires |ms| == |fs|
    decreases fs
  {
    forall i :: 0 <= i < |fs| ==> ShapedMember(fs[i], ms[i])
  }

  /** The value an occurrence of the field is decoded into. */
  ghost function BaseOf(f: Field, was: Member): Value {
    match f.rule
    case Optional => if was.Maybe? && was.held.Some? then was.held.value else InitialValue(f)
    case Required => if was.One? then was.value else InitialValue(f)
    case Singular => if was.One? then was.value else InitialValue(f)
    case _ => InitialValue(f)
  }

  /** Submessages are merged, every other value replaces the old one. */
  ghost function MergeValue(t: FieldType, was: Value, v: Value): Value
    decreases t, 1
  {
    if t.Message? && was.Struct? && |was.members| == |t.fields| && v.Struct? && |v.members| == |t.fields|
    then Struct(Merge(t.fields, was.members, v.members)) else v
  }

  /** Arrays are appended; a oneof member starts afresh. */
  ghost function MergeMember(f: Field, was: Member, m: Member): Member
    decreases f, 2
  {
    match m
    case Many(items) => Many((if was.Many? then was.items else []) + items)
    case One(v) => One(MergeValue(f.ltype, BaseOf(f, was), v))
    case Maybe(None) => was
    case Maybe(Some(v)) => if f.rule.Oneof? then m else Maybe(Some(MergeValue(f.ltype, BaseOf(f, was), v)))
  }

  /** Member `i` when the first `k` members of `ms` have been merged into `base`: what is written changes its own member
      and ends its siblings in a oneof. */
  ghost function MergedAt(fs: seq<Field>, base: seq<Member>, ms: seq<Member>, k: nat, i: nat): Member
    requires |base| == |fs| && |ms| == |fs| && i < |fs|
    decreases fs, 1
  {
    if i < k && Present(fs[i], ms[i]) then MergeMember(fs[i], base[i], ms[i])
    else if SiblingWritten(fs, ms, k, i) then Maybe(None)
    else base[i]
  }

  ghost predicate SiblingWritten(fs: seq<Field>, ms: seq<Member>, k: nat, i: nat)
    requires |ms| == |fs| && i < |fs|
  {
    exists j: nat :: j < k && j < |fs| && SameUnion(fs, i, j) && Present(fs[j], ms[j])
  }

  ghost function MergedUpTo(fs: seq<Field>, base: seq<Member>, ms: seq<Member>, k: nat): (r: seq<Member>)
    requires |base| == |fs| && |ms| == |fs|
    ensures |r| == |fs|
    decreases fs, 2
  {
    seq(|fs|, i requires 0 <= i < |fs| => MergedAt(fs, base, ms, k, i))
  }

  ghost function Merge(fs: seq<Field>, base: seq<Member>, ms: seq<Member>): (r: seq<Member>)
    requires |base| == |fs| && |ms| == |fs|
    ensures |r| == |fs|
    decreases fs, 3
  {
    MergedUpTo(fs, base, ms, |fs|)
  }

  /** The arrays have room for the items of both, in every submessage that is merged. */
  ghost predicate RoomInValue(t: FieldType, was: Value, v: Value)
    decreases t, 1
  {
    t.Message? && was.Struct? && |was.members| == |t.fields| && v.Struct? && |v.members| == |t.fields| ==>
      Room(t.fields, was.members, v.members)
  }

  ghost predicate RoomInMember(f: Field, was: Member, m: Member)
    decreases f, 2
  {
    match m
    case Many(items) => f.rule.Repeated? && was.Many? ==> |was.items| + |items| <= f.rule.max
    case One(v) => RoomInValue(f.ltype, BaseOf(f, was), v)
    case Maybe(None) => true
    case Maybe(Some(v)) => !f.rule.Oneof? ==> RoomInValue(f.ltype, BaseOf(f, was), v)
  }

  ghost predicate RoomFrom(fs: seq<Field>, base: seq<Member>, ms: seq<Member>, k: nat)
    requires |base| == |fs| && |ms| == |fs|
    decreases fs, 1
  {
    forall i :: k <= i < |fs| && Present(fs[i], ms[i]) ==> RoomInMember(fs[i], base[i], ms[i])
  }

  ghost predicate Room(fs: seq<Field>, base: seq<Member>, ms: seq<Member>)
    requires |base| == |fs| && |ms| == |fs|
    decreases fs, 2
  {
    RoomFrom(fs, base, ms, 0)
  }

  // --- Shapes -----------------------------------------------------------------------------------

  lemma {:induction false} InitialIsShaped(f: Field)
    ensures ShapedValue(f.ltype, InitialValue(f)) && ShapedMember(f, InitialMember(f))
    decreases f, 1
  {
    if f.ltype.Message? {
      DefaultsAreShaped(f.ltype.fields);
    }
  }

  lemma {:induction false} DefaultsAreShaped(fs: seq<Field>)
    ensures Shaped(fs, Defaults(fs))
    decreases fs
  {
    hide InitialMember, ShapedMember;
    forall i | 0 <= i < |fs| ensures ShapedMember(fs[i], Defaults(fs)[i]) {
      DefaultsAt(fs, i);
      InitialIsShaped(fs[i]);
    }
  }

  lemma BaseIsShaped(f: Field, was: Member)
    requires ShapedMember(f, was)
    ensures ShapedValue(f.ltype, BaseOf(f, was))
  {
    hide ShapedValue, InitialValue;
    InitialIsShaped(f);
  }

  // --- Values and items -------------------------------------------------------------------------

  lemma {:induction false} ValueMerges(f: Field, was: Value, v: Value, rest: seq<byte>)
    requires WellFormedField(f) && ConformsValue(f.ltype, v) && ShapedValue(f.ltype, was)
    requires EncodeValue(f.ltype, v).Some? && |EncodeValue(f.ltype, v).value| < TWO_32
    ensures DecodeValue(f.ltype, was, EncodeValue(f.ltype, v).value + rest)
            == if RoomInValue(f.ltype, was, v) then Some((MergeValue(f.ltype, was, v), rest)) else None
    decreases f, 1
  {
    if f.ltype.Message? {
      hide Substream, Delimited, EncodeMessage, DecodeMessage, Merge, Room, Conforms, WellFormed, Shaped;
      var e := EncodeMessage(f.ltype.fields, v.members).value;
      DelimitedLength(e);
      SubstreamOfDelimited(e, rest);
      MessageMerges(f.ltype.fields, was.members, v.members, []);
      assert e + [] == e;
    } else {
      FreshValue(f, v, rest);
      SimpleValueIgnoresBase(f.ltype, was, InitialValue(f), EncodeValue(f.ltype, v).value + rest);
    }
  }

  /** Into a value the decoder starts from, every value decodes to itself. */
  lemma FreshValue(f: Field, v: Value, rest: seq<byte>)
    requires WellFormedField(f) && ConformsValue(f.ltype, v)
    requires EncodeValue(f.ltype, v).Some? && |EncodeValue(f.ltype, v).value| < TWO_32
    ensures DecodeValue(f.ltype, InitialValue(f), EncodeValue(f.ltype, v).value + rest) == Some((v, rest))
  {
    hide WellFormedField, ConformsValue, EncodeValue, DecodeValue, InitialValue, ProjectValue, ReadsValue, AgreesField;
    FieldAgreesWithItself(f);
    ProjectValueIsSame(f, v);
    ValueRoundTrip(f, f, v, rest);
  }

  lemma SimpleValueIgnoresBase(t: FieldType, was: Value, other: Value, bs: seq<byte>)
    requires !t.Message?
    ensures DecodeValue(t, was, bs) == DecodeValue(t, other, bs)
  {
    hide Substream, DecodeNumber, UpToNul, Zeros;
  }

  lemma {:induction false} PackedOverflows(kind: Numeric, max: nat, done: seq<Value>, items: seq<Value>)
    requires |done| <= max < |done| + |items|
    requires forall j :: 0 <= j < |items| ==> ConformsValue(Num(kind), items[j])
    ensures EncodePacked(kind, items).Some?
    ensures DecodePacked(kind, max, done, EncodePacked(kind, items).value).None?
    decreases |items|
  {
    hide EncodeNumber, DecodeNumber, Fits;
    assert ConformsValue(Num(kind), items[0]);
    PackedRoundTrip(kind, |items|, [], items);
    PackedRoundTrip(kind, |items|, [], items[1..]);
    NumberRoundTrip(kind, items[0].n, EncodePacked(kind, items[1..]).value);
    if |done| < max {
      PackedOverflows(kind, max, done + [items[0]], items[1..]);
    }
  }

  /** A packed array behind `done` items; `done` itself may be over the bound, then nothing more is taken. */
  lemma PackedMerges(kind: Numeric, max: nat, done: seq<Value>, items: seq<Value>)
    requires items != [] && forall j :: 0 <= j < |items| ==> ConformsValue(Num(kind), items[j])
    ensures EncodePacked(kind, items).Some?
    ensures DecodePacked(kind, max, done, EncodePacked(kind, items).value)
            == if |done| + |items| <= max then Some(done + items) else None
  {
    hide EncodeNumber, DecodeNumber, Fits;
    PackedRoundTrip(kind, |items|, [], items);
    if |done| + |items| <= max {
      PackedRoundTrip(kind, max, done, items);
    } else if |done| <= max {
      PackedOverflows(kind, max, done, items);
    } else {
      NumberRoundTrip(kind, items[0].n, []);
      assert ConformsValue(Num(kind), items[0]);
      assert EncodePacked(kind, items).value != [];
    }
  }

  lemma {:induction false} ItemsMerge(fs: seq<Field>, k: nat, st: seq<Member>, seen: set<nat>, done: seq<Value>,
                                      items: seq<Value>, rest: seq<byte>)
    requires |st| == |fs| && k < |fs| && FindField(fs, fs[k].tag) == Some(k) && WellFormedField(fs[k])
    requires fs[k].rule.Repeated? && !fs[k].ltype.Num? && st[k] == Many(done)
    requires forall j :: 0 <= j < |items| ==> ConformsValue(fs[k].ltype, items[j])
    requires EncodeItems(fs[k], items).Some? && |EncodeItems(fs[k], items).value| < TWO_32
    ensures DecodeFields(fs, st, seen, EncodeItems(fs[k], items).value + rest) ==
            if items != [] && |done| + |items| > fs[k].rule.max then None
            else DecodeFields(fs, SetMember(fs, st, k, Many(done + items)), seen, rest)
    decreases |items|
  {
    hide DecodeFields, EncodeTagged, EncodeValue, ConformsValue, FindField, SetMember, WellFormedField, DecodeValue,
         InitialValue;
    var f := fs[k];
    if items == [] {
      assert [] + rest == rest;
      assert done + [] == done;
      SetSame(fs, st, k);
    } else {
      assert ConformsValue(f.ltype, items[0]);
      var tail := EncodeItems(f, items[1..]).value;
      TaggedLength(f, items[0]);
      FreshValue(f, items[0], tail + rest);
      TagInRange(f);
      assert EncodeItems(f, items).value + rest == EncodeTagged(f, items[0]).value + (tail + rest);
      if |done| >= f.rule.max {
        RefuseTagged(fs, k, f, st, seen, items[0], tail + rest);
        return;
      }
      var one := Many(done + [items[0]]);
      StoreTagged(fs, k, f, st, seen, items[0], one, tail + rest);
      SetGets(fs, st, k, one);
      ItemsMerge(fs, k, SetMember(fs, st, k, one), seen, done + [items[0]], items[1..], rest);
      assert done + [items[0]] + items[1..] == done + items;
      SetTwice(fs, st, k, one, Many(done + items));
    }
  }

  lemma PackedStores(fs: seq<Field>, k: nat, st: seq<Member>, seen: set<nat>, done: seq<Value>, items: seq<Value>,
                     rest: seq<byte>)
    requires |st| == |fs| && k < |fs| && FindField(fs, fs[k].tag) == Some(k) && WellFormedField(fs[k])
    requires fs[k].rule.Repeated? && fs[k].ltype.Num? && st[k] == Many(done) && items != []
    requires forall j :: 0 <= j < |items| ==> ConformsValue(fs[k].ltype, items[j])
    requires EncodePacked(fs[k].ltype.kind, items).Some?
    requires |Delimited(EncodePacked(fs[k].ltype.kind, items).value)| < TWO_32
    ensures DecodeFields(fs, st, seen,
                         Key(fs[k].tag, StringWire) + Delimited(EncodePacked(fs[k].ltype.kind, items).value) + rest)
            == if |done| + |items| > fs[k].rule.max then None
               else DecodeFields(fs, SetMember(fs, st, k, Many(done + items)), seen, rest)
  {
    hide DecodeFields, EncodePacked, DecodePacked, Delimited, Substream, FindField, Key, SetMember, ConformsValue;
    var f := fs[k];
    var e := EncodePacked(f.ltype.kind, items).value;
    DelimitedLength(e);
    SubstreamOfDelimited(e, rest);
    PackedMerges(f.ltype.kind, f.rule.max, done, items);
    KeyStep(fs, st, seen, f.tag, StringWire, Delimited(e) + rest);
    assert Key(f.tag, StringWire) + Delimited(e) + rest == Key(f.tag, StringWire) + (Delimited(e) + rest);
  }

  // --- Members ----------------------------------------------------------------------------------

  /** A member that is written is merged into the one that is there. */
  lemma {:induction false} MemberMerges(fs: seq<Field>, k: nat, st: seq<Member>, seen: set<nat>, m: Member,
                                        rest: seq<byte>)
    requires |st| == |fs| && k < |fs| && FindField(fs, fs[k].tag) == Some(k) && WellFormedField(fs[k])
    requires ShapedMember(fs[k], st[k]) && ConformsMember(fs[k], m) && Present(fs[k], m)
    requires EncodeMember(fs[k], m).Some? && |EncodeMember(fs[k], m).value| < TWO_32
    ensures DecodeFields(fs, st, seen, EncodeMember(fs[k], m).value + rest)
            == if !RoomInMember(fs[k], st[k], m) then None
               else DecodeFields(fs, SetMember(fs, st, k, MergeMember(fs[k], st[k], m)), Mark(fs, k, seen), rest)
    decreases fs[k], 3
  {
    hide DecodeFields, EncodeTagged, EncodeItems, EncodePacked, ConformsValue, FindField, SetMember, WellFormedField,
         IsDefaultValue, MergeValue, RoomInValue, BaseOf, InitialValue, Key, Delimited, DecodeValue, ShapedValue;
    var f := fs[k];
    TagInRange(f);
    if f.rule.Repeated? {
      if f.ltype.Num? {
        PackedStores(fs, k, st, seen, st[k].items, m.items, rest);
      } else {
        ItemsMerge(fs, k, st, seen, st[k].items, m.items, rest);
      }
    } else {
      OneMerges(fs, k, st, seen, m, rest);
    }
  }

  lemma {:induction false} OneMerges(fs: seq<Field>, k: nat, st: seq<Member>, seen: set<nat>, m: Member,
                                     rest: seq<byte>)
    requires |st| == |fs| && k < |fs| && FindField(fs, fs[k].tag) == Some(k) && WellFormedField(fs[k])
    requires ShapedMember(fs[k], st[k]) && ConformsMember(fs[k], m) && Present(fs[k], m) && !fs[k].rule.Repeated?
    requires EncodeMember(fs[k], m).Some? && |EncodeMember(fs[k], m).value| < TWO_32
    ensures DecodeFields(fs, st, seen, EncodeMember(fs[k], m).value + rest)
            == if !RoomInMember(fs[k], st[k], m) then None
               else DecodeFields(fs, SetMember(fs, st, k, MergeMember(fs[k], st[k], m)), Mark(fs, k, seen), rest)
    decreases fs[k], 2
  {
    hide DecodeFields, EncodeTagged, ConformsValue, FindField, SetMember, WellFormedField, IsDefaultValue, MergeValue,
         RoomInValue, InitialValue, DecodeValue, ShapedValue;
    var f, v := fs[k], if m.One? then m.value else m.held.value;
    TagInRange(f);
    TaggedLength(f, v);
    BaseIsShaped(f, st[k]);
    if f.rule.Oneof? {
      FreshValue(f, v, rest);
      StoreTagged(fs, k, f, st, seen, v, MergeMember(f, st[k], m), rest);
    } else {
      ValueMerges(f, BaseOf(f, st[k]), v, rest);
      if RoomInMember(f, st[k], m) {
        StoreTagged(fs, k, f, st, seen, v, MergeMember(f, st[k], m), rest);
      } else {
        RefuseTagged(fs, k, f, st, seen, v, rest);
      }
    }
  }

  // --- Messages ---------------------------------------------------------------------------------

  lemma SiblingNext(fs: seq<Field>, ms: seq<Member>, k: nat, i: nat)
    requires |ms| == |fs| && k < |fs| && i < |fs|
    ensures SiblingWritten(fs, ms, k + 1, i) <==>
              SiblingWritten(fs, ms, k, i) || (SameUnion(fs, i, k) && Present(fs[k], ms[k]))
  {
    hide Present, SameUnion;
    if SiblingWritten(fs, ms, k + 1, i) {
      var j: nat :| j < k + 1 && j < |fs| && SameUnion(fs, i, j) && Present(fs[j], ms[j]);
      assert j < k || j == k;
    }
  }

  /** The next member: written, it is merged into what its place still has from the start; otherwise nothing changes. */
  lemma NextMerged(fs: seq<Field>, base: seq<Member>, ms: seq<Member>, k: nat)
    requires |base| == |fs| && |ms| == |fs| && k < |fs| && Conforms(fs, ms)
    ensures var st := MergedUpTo(fs, base, ms, k);
            if Present(fs[k], ms[k]) then
              && MergedUpTo(fs, base, ms, k + 1) == SetMember(fs, st, k, MergeMember(fs[k], base[k], ms[k]))
              && (!fs[k].rule.Oneof? ==> st[k] == base[k])
            else MergedUpTo(fs, base, ms, k + 1) == st
  {
    hide Present, MergeMember, ConformsMember, SiblingWritten, SameUnion, Conforms;
    var st := MergedUpTo(fs, base, ms, k);
    NoSiblings(fs, ms, k);
    forall i: nat | i < |fs|
      ensures MergedAt(fs, base, ms, k + 1, i) ==
              if !Present(fs[k], ms[k]) then st[i]
              else if i == k then MergeMember(fs[k], base[k], ms[k])
              else if SameUnion(fs, k, i) then Maybe(None) else st[i]
    {
      MergedAtNext(fs, base, ms, k, i);
      assert st[i] == MergedAt(fs, base, ms, k, i);
    }
  }

  lemma MergedAtNext(fs: seq<Field>, base: seq<Member>, ms: seq<Member>, k: nat, i: nat)
    requires |base| == |fs| && |ms| == |fs| && k < |fs| && i < |fs| && Conforms(fs, ms)
    ensures MergedAt(fs, base, ms, k + 1, i) ==
            if !Present(fs[k], ms[k]) then MergedAt(fs, base, ms, k, i)
            else if i == k then MergeMember(fs[k], base[k], ms[k])
            else if SameUnion(fs, k, i) then Maybe(None) else MergedAt(fs, base, ms, k, i)
  {
    hide Present, MergeMember, ConformsMember, SiblingWritten, SameUnion, Conforms;
    SiblingNext(fs, ms, k, i);
    NoTwoWritten(fs, ms, i, k);
  }

  lemma NoSiblings(fs: seq<Field>, ms: seq<Member>, k: nat)
    requires |ms| == |fs| && k < |fs|
    ensures !fs[k].rule.Oneof? ==> !SiblingWritten(fs, ms, k, k)
    ensures !SameUnion(fs, k, k)
  {
  }

  /** Of the members of a oneof at most one is written. */
  lemma NoTwoWritten(fs: seq<Field>, ms: seq<Member>, i: nat, k: nat)
    requires |ms| == |fs| && i < |fs| && k < |fs| && Conforms(fs, ms)
    ensures SameUnion(fs, k, i) ==> !Present(fs[i], ms[i]) || !Present(fs[k], ms[k])
    ensures SameUnion(fs, i, k) == SameUnion(fs, k, i)
  {
    hide ConformsMember;
  }

  ghost function RequiredFrom(fs: seq<Field>, k: nat): set<nat> {
    set i: nat | k <= i < |fs| && fs[i].rule == Required
  }

  lemma {:induction false} FieldsMerge(fs: seq<Field>, base: seq<Member>, ms: seq<Member>, seen: set<nat>, k: nat,
                                       tail: seq<byte>)
    requires |base| == |fs| && |ms| == |fs| && k <= |fs|
    requires WellFormed(fs) && Shaped(fs, base) && Conforms(fs, ms)
    requires EncodeMessage(fs[k..], ms[k..]).Some? && |EncodeMessage(fs[k..], ms[k..]).value| < TWO_32
    ensures DecodeFields(fs, MergedUpTo(fs, base, ms, k), seen, EncodeMessage(fs[k..], ms[k..]).value + tail)
            == if !RoomFrom(fs, base, ms, k) then None
               else DecodeFields(fs, Merge(fs, base, ms), seen + RequiredFrom(fs, k), tail)
    decreases fs, 1, |fs| - k
  {
    hide DecodeFields, EncodeMember, MergedUpTo, WellFormed, Shaped, Conforms, RoomInMember, Present, RequiredFrom;
    if k == |fs| {
      assert [] + tail == tail;
      assert seen + RequiredFrom(fs, k) == seen by { RequiredNext(fs, k, seen); }
    } else {
      var bs := EncodeMember(fs[k], ms[k]).value;
      assert fs[k..][1..] == fs[k + 1..] && ms[k..][1..] == ms[k + 1..];
      var rest := EncodeMessage(fs[k + 1..], ms[k + 1..]).value;
      assert EncodeMessage(fs[k..], ms[k..]).value + tail == bs + (rest + tail);
      FieldMerges(fs, base, ms, seen, k, rest + tail);
      RequiredNext(fs, k, seen);
      if Present(fs[k], ms[k]) && !RoomInMember(fs[k], base[k], ms[k]) {
        return;
      }
      FieldsMerge(fs, base, ms, Mark(fs, k, seen), k + 1, tail);
      assert RoomFrom(fs, base, ms, k) <==> RoomFrom(fs, base, ms, k + 1);
    }
  }

  lemma RequiredNext(fs: seq<Field>, k: nat, seen: set<nat>)
    ensures k < |fs| ==> Mark(fs, k, seen) + RequiredFrom(fs, k + 1) == seen + RequiredFrom(fs, k)
    ensures k >= |fs| ==> seen + RequiredFrom(fs, k) == seen
  {
  }

  lemma {:induction false} FieldMerges(fs: seq<Field>, base: seq<Member>, ms: seq<Member>, seen: set<nat>, k: nat,
                                       rest: seq<byte>)
    requires |base| == |fs| && |ms| == |fs| && k < |fs|
    requires WellFormed(fs) && Shaped(fs, base) && Conforms(fs, ms)
    requires EncodeMember(fs[k], ms[k]).Some? && |EncodeMember(fs[k], ms[k]).value| < TWO_32
    ensures DecodeFields(fs, MergedUpTo(fs, base, ms, k), seen, EncodeMember(fs[k], ms[k]).value + rest)
            == if Present(fs[k], ms[k]) && !RoomInMember(fs[k], base[k], ms[k]) then None
               else DecodeFields(fs, MergedUpTo(fs, base, ms, k + 1), Mark(fs, k, seen), rest)
    decreases fs, 0
  {
    hide DecodeFields, EncodeMember, MergedUpTo, SetMember, MergeMember, RoomInMember, ShapedMember, ConformsMember,
         WellFormedField, Present, FindField;
    var f, m, st := fs[k], ms[k], MergedUpTo(fs, base, ms, k);
    assert WellFormedField(f) && ConformsMember(f, m) && ShapedMember(f, base[k]);
    FindIsUnique(fs, k, f.tag);
    NextMerged(fs, base, ms, k);
    if Present(f, m) {
      OneofStartsAfresh(f, st[k], base[k], m);
      MaybeInPlace(fs, base, ms, k);
      MemberMerges(fs, k, st, seen, m, rest);
    } else {
      NothingWritten(f, m);
      assert [] + rest == rest;
    }
  }

  lemma MaybeInPlace(fs: seq<Field>, base: seq<Member>, ms: seq<Member>, k: nat)
    requires |base| == |fs| && |ms| == |fs| && k < |fs| && ShapedMember(fs[k], base[k])
    ensures fs[k].rule.Oneof? ==> ShapedMember(fs[k], MergedUpTo(fs, base, ms, k)[k])
  {
    hide Present, MergeMember;
  }

  lemma OneofStartsAfresh(f: Field, st: Member, base: Member, m: Member)
    requires ConformsMember(f, m) && Present(f, m)
    ensures f.rule.Oneof? ==> MergeMember(f, st, m) == MergeMember(f, base, m) && RoomInMember(f, st, m)
                              && RoomInMember(f, base, m)
  {
    hide ConformsValue;
  }

  lemma NothingWritten(f: Field, m: Member)
    requires !Present(f, m) && ConformsMember(f, m)
    ensures EncodeMember(f, m) == Some([]) && f.rule != Required
  {
    hide IsDefaultValue, ConformsValue;
  }

  /** Decoding an encoding into any struct merges the message into it; it fails exactly where an array has no room. */
  lemma {:induction false} MessageMerges(fs: seq<Field>, base: seq<Member>, ms: seq<Member>, tail: seq<byte>)
    requires |base| == |fs| && |ms| == |fs| && WellFormed(fs) && Shaped(fs, base) && Conforms(fs, ms)
    requires EncodeMessage(fs, ms).Some? && |EncodeMessage(fs, ms).value| < TWO_32 && Ends(tail)
    ensures DecodeMessage(fs, base, EncodeMessage(fs, ms).value + tail) ==
            if Room(fs, base, ms) then Some((Merge(fs, base, ms), AfterEnd(tail))) else None
    decreases fs, 2
  {
    hide DecodeFields, EncodeMessage, WellFormed, Shaped, Conforms, RequiredSeen, Merge, RoomFrom;
    assert fs[0..] == fs && ms[0..] == ms;
    NothingMerged(fs, base, ms);
    FieldsMerge(fs, base, ms, {}, 0, tail);
    LoopEnds(fs, Merge(fs, base, ms), {} + RequiredFrom(fs, 0), tail);
    AllRequired(fs);
  }

  lemma NothingMerged(fs: seq<Field>, base: seq<Member>, ms: seq<Member>)
    requires |base| == |fs| && |ms| == |fs|
    ensures MergedUpTo(fs, base, ms, 0) == base
  {
    hide Present, MergeMember;
  }

  lemma AllRequired(fs: seq<Field>)
    ensures RequiredSeen(fs, {} + RequiredFrom(fs, 0))
  {
    hide RequiredBefore;
  }

  /** Two encodings one behind the other are the encoding of the merge: the second message is merged into the first. */
  lemma ConcatenationMerges(fs: seq<Field>, a: seq<Member>, b: seq<Member>)
    requires |a| == |fs| && |b| == |fs| && WellFormed(fs) && Conforms(fs, a) && Conforms(fs, b)
    ensures EncodeMessage(fs, a).Some? && EncodeMessage(fs, b).Some?
    ensures var x, y := EncodeMessage(fs, a).value, EncodeMessage(fs, b).value;
            |x| < TWO_32 && |y| < TWO_32 ==>
              DecodeMessage(fs, Defaults(fs), x + y) == if Room(fs, a, b) then Some((Merge(fs, a, b), [])) else None
  {
    hide DecodeFields, EncodeMessage, WellFormed, Conforms, Shaped, RequiredSeen, Merge, RoomFrom, Partial, Seen,
         Agrees, Readable, Defaults;
    MessageEncodes(fs, a);
    MessageEncodes(fs, b);
    var x, y := EncodeMessage(fs, a).value, EncodeMessage(fs, b).value;
    if |x| < TWO_32 && |y| < TWO_32 {
      FirstMessage(fs, a, y);
      ConformsIsShaped(fs, a);
      assert fs[0..] == fs && b[0..] == b;
      NothingMerged(fs, a, b);
      FieldsMerge(fs, a, b, Seen(fs, fs, |fs|), 0, []);
      assert y + [] == y;
      LoopEnds(fs, Merge(fs, a, b), Seen(fs, fs, |fs|) + RequiredFrom(fs, 0), []);
      MoreRequired(fs, Seen(fs, fs, |fs|));
    }
  }

  lemma MoreRequired(fs: seq<Field>, seen: set<nat>)
    ensures RequiredSeen(fs, seen + RequiredFrom(fs, 0))
  {
    hide RequiredBefore;
  }

  /** Behind the first message the field loop stands at the second with the first in the struct. */
  lemma FirstMessage(fs: seq<Field>, a: seq<Member>, y: seq<byte>)
    requires |a| == |fs| && WellFormed(fs) && Conforms(fs, a)
    requires EncodeMessage(fs, a).Some? && |EncodeMessage(fs, a).value| < TWO_32
    ensures DecodeFields(fs, Defaults(fs), {}, EncodeMessage(fs, a).value + y)
         == DecodeFields(fs, a, Seen(fs, fs, |fs|), y)
  {
    hide DecodeFields, EncodeMessage, WellFormed, Conforms, Partial, Seen, Agrees, Defaults, ReadsFrom;
    AgreesWithItself(fs);
    ProjectIsSame(fs, a);
    StartIsDefault(fs, fs, a);
    assert fs[0..] == fs && a[0..] == a;
    FieldsRoundTrip(fs, fs, a, 0, y);
  }

  lemma {:induction false} ValueIsShaped(t: FieldType, v: Value)
    requires ConformsValue(t, v)
    ensures ShapedValue(t, v)
    decreases t, 1
  {
    if t.Message? {
      ConformsIsShaped(t.fields, v.members);
    }
  }

  lemma {:induction false} ConformsIsShaped(fs: seq<Field>, ms: seq<Member>)
    requires |ms| == |fs| && Conforms(fs, ms)
    ensures Shaped(fs, ms)
    decreases fs
  {
    hide ConformsMember, ShapedMember;
    forall i | 0 <= i < |fs| ensures ShapedMember(fs[i], ms[i]) {
      assert ConformsMember(fs[i], ms[i]);
      MemberIsShaped(fs[i], ms[i]);
    }
  }

  lemma {:induction false} MemberIsShaped(f: Field, m: Member)
    requires ConformsMember(f, m)
    ensures ShapedMember(f, m)
    decreases f, 2
  {
    hide ConformsValue, ShapedValue;
    match m
    case One(v) => ValueIsShaped(f.ltype, v);
    case Maybe(Some(v)) => ValueIsShaped(f.ltype, v);
    case _ =>
  }
}
