/** When a member leaves no bytes: implicit presence, stated without the check the encoder makes. */
module PbPresence {
  import opened Bytes
  import opened PbWire
  import opened PbCodec
  import opened PbRoundTrip

  /** No part of a value of the type has to be written: it has no bytes of a fixed number, and its required members,
      which are always written, are none, at every depth to which presence is implicit. */
  ghost predicate OmittableType(t: FieldType)
    decreases t, 0
  {
    match t
    case Inline(size) => size == 0
    case Message(fs) => forall i :: 0 <= i < |fs| ==> Omittable(fs[i])
    case _ => true
  }

  ghost predicate Omittable(f: Field)
    decreases f, 1
  {
    f.rule != Required && (f.rule.Singular? ==> OmittableType(f.ltype))
  }

  lemma TaggedIsSome(f: Field, v: Value)
    ensures EncodeTagged(f, v) != Some([])
  {
    hide EncodeValue;
  }

  lemma {:induction false} DefaultsElsewhere(fs: seq<Field>, ms: seq<Member>)
    requires |fs| == |ms|
    ensures AllDefault(fs, ms) <==> forall i :: 0 <= i < |fs| ==> IsDefaultMember(fs[i], ms[i])
    decreases |fs|
  {
    hide IsDefaultMember;
    if fs != [] {
      DefaultsElsewhere(fs[1..], ms[1..]);
      assert forall i :: 0 < i < |fs| ==> fs[1..][i - 1] == fs[i] && ms[1..][i - 1] == ms[i];
      if AllDefault(fs, ms) {
        forall i | 0 <= i < |fs| ensures IsDefaultMember(fs[i], ms[i]) {
          if i > 0 {
            assert IsDefaultMember(fs[1..][i - 1], ms[1..][i - 1]);
          }
        }
      }
    }
  }

  lemma {:induction false} ValueIsInitial(f: Field, v: Value)
    requires WellFormedField(f) && (f.ltype.Message? || ZeroInit(f)) && ConformsValue(f.ltype, v)
    ensures IsDefaultValue(f.ltype, v) <==> v == InitialValue(f) && OmittableType(f.ltype)
    decreases f, 1
  {
    if f.ltype.Message? {
      hide WellFormed, AllDefault, Defaults, Conforms, Omittable;
      StructIsInitial(f.ltype.fields, v.members);
    } else if f.ltype.Inline? {
      assert Zeros(0) == [];
    }
  }

  lemma {:induction false} StructIsInitial(fs: seq<Field>, ms: seq<Member>)
    requires |fs| == |ms| && WellFormed(fs) && Conforms(fs, ms)
    ensures AllDefault(fs, ms) <==> ms == Defaults(fs) && forall i :: 0 <= i < |fs| ==> Omittable(fs[i])
    decreases fs
  {
    hide WellFormedField, ConformsMember, IsDefaultMember, InitialMember, Omittable, AllDefault;
    DefaultsElsewhere(fs, ms);
    forall i | 0 <= i < |fs|
      ensures IsDefaultMember(fs[i], ms[i]) <==> ms[i] == Defaults(fs)[i] && Omittable(fs[i])
    {
      assert WellFormedField(fs[i]) && ConformsMember(fs[i], ms[i]);
      DefaultsAt(fs, i);
      MemberIsInitial(fs[i], ms[i]);
    }
  }

  lemma {:induction false} MemberIsInitial(f: Field, m: Member)
    requires WellFormedField(f) && ConformsMember(f, m)
    ensures IsDefaultMember(f, m) <==> m == InitialMember(f) && Omittable(f)
    decreases f, 2
  {
    hide IsDefaultValue, InitialValue, ConformsValue, OmittableType, WellFormed, ZeroInit;
    if f.rule.Singular? {
      ValueIsInitial(f, m.value);
    }
  }

  /** A member that conforms is left out of the encoding exactly when it is the one the decoder starts from and no part
      of it has to be written. */
  lemma LeftOutExactly(f: Field, m: Member)
    requires WellFormedField(f) && ConformsMember(f, m)
    ensures EncodeMember(f, m) == Some([]) <==> m == InitialMember(f) && Omittable(f)
  {
    hide EncodeTagged, EncodePacked, IsDefaultValue, InitialValue, ConformsValue, OmittableType, WellFormed, ZeroInit;
    hide Delimited, Key;
    match f.rule {
      case Repeated(_) =>
        if m.items != [] {
          ItemsAreSome(f, m.items);
        }
      case Singular =>
        TaggedIsSome(f, m.value);
        ValueIsInitial(f, m.value);
      case Required => TaggedIsSome(f, m.value);
      case _ =>
        if m.held.Some? {
          TaggedIsSome(f, m.held.value);
        }
    }
  }

  lemma ItemsAreSome(f: Field, items: seq<Value>)
    requires items != []
    ensures EncodeItems(f, items) != Some([])
    ensures forall bs :: Key(f.tag, StringWire) + Delimited(bs) != []
  {
    hide EncodeTagged;
    TaggedIsSome(f, items[0]);
    forall bs: seq<byte> ensures Key(f.tag, StringWire) + Delimited(bs) != [] {
      DelimitedLength(bs);
    }
  }

  /** A message that conforms has no bytes exactly when it is the one the decoder starts from and nothing of it has to
      be written. */
  lemma {:induction false} EmptyExactly(fs: seq<Field>, ms: seq<Member>)
    requires |fs| == |ms| && WellFormed(fs) && Conforms(fs, ms)
    ensures EncodeMessage(fs, ms) == Some([]) <==> ms == Defaults(fs) && forall i :: 0 <= i < |fs| ==> Omittable(fs[i])
  {
    hide WellFormedField, ConformsMember, InitialMember, Omittable, EncodeMember, EncodeMessage;
    MessageEncodes(fs, ms);
    EmptyParts(fs, ms);
    forall i | 0 <= i < |fs|
      ensures EncodeMember(fs[i], ms[i]) == Some([]) <==> ms[i] == Defaults(fs)[i] && Omittable(fs[i])
    {
      assert WellFormedField(fs[i]) && ConformsMember(fs[i], ms[i]);
      DefaultsAt(fs, i);
      LeftOutExactly(fs[i], ms[i]);
    }
  }

  lemma {:induction false} EmptyParts(fs: seq<Field>, ms: seq<Member>)
    requires |fs| == |ms| && EncodeMessage(fs, ms).Some?
    ensures EncodeMessage(fs, ms) == Some([]) <==> forall i :: 0 <= i < |fs| ==> EncodeMember(fs[i], ms[i]) == Some([])
    decreases |fs|
  {
    hide EncodeMember;
    if fs != [] {
      EmptyParts(fs[1..], ms[1..]);
      if EncodeMessage(fs, ms) == Some([]) {
        forall i | 0 <= i < |fs| ensures EncodeMember(fs[i], ms[i]) == Some([]) {
          if i > 0 {
            assert EncodeMember(fs[1..][i - 1], ms[1..][i - 1]) == Some([]);
          }
        }
      } else if forall i :: 0 <= i < |fs| ==> EncodeMember(fs[i], ms[i]) == Some([]) {
        forall i | 0 <= i < |fs[1..]| ensures EncodeMember(fs[1..][i], ms[1..][i]) == Some([]) {
          assert fs[1..][i] == fs[i + 1] && ms[1..][i] == ms[i + 1];
        }
      }
    }
  }
}
