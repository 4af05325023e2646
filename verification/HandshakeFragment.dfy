/** The DTLS handshake header (RFC 6347, section 4.2.2) and the messages and fragments that carry it. */
module HandshakeFragment {
  import opened Bytes

  const HEADER_LENGTH := 12

  /** A fragment: `off` and the length of `body` are the header's frag_off and frag_len. */
  datatype Fragment = Fragment(typ: byte, msgLen: uint24, seqNo: uint16, off: uint24, body: seq<byte>)

  /** A whole handshake message. */
  datatype Message = Message(typ: byte, seqNo: uint16, body: seq<byte>)

  /** The lengths fit their 24-bit header fields. */
  ghost predicate Sendable(f: Fragment) {
    |f.body| < 0x100_0000
  }

  function Header(typ: byte, msgLen: uint24, seqNo: uint16, off: uint24, fragLen: uint24): (r: seq<byte>)
    ensures |r| == HEADER_LENGTH
  {
    [typ] + U24(msgLen) + U16(seqNo) + U24(off) + U24(fragLen)
  }

  function Serialize(f: Fragment): (r: seq<byte>)
    requires |f.body| < 0x100_0000
    ensures |r| == HEADER_LENGTH + |f.body|
  {
    Header(f.typ, f.msgLen, f.seqNo, f.off, |f.body|) + f.body
  }

  /** Reads one fragment off the front of `data`; the second component is what follows it. */
  function Parse(data: seq<byte>): (r: Option<(Fragment, seq<byte>)>)
    ensures r.Some? ==> |data| == HEADER_LENGTH + |r.value.0.body| + |r.value.1|
    ensures r.Some? ==> |r.value.0.body| < 0x100_0000
  {
    if |data| < HEADER_LENGTH then None
    else
      var fragLen := ReadU24(data[9], data[10], data[11]);
      if |data| < HEADER_LENGTH + fragLen then None
      else
        Some((Fragment(data[0], ReadU24(data[1], data[2], data[3]), ReadU16(data[4], data[5]),
                       ReadU24(data[6], data[7], data[8]), data[HEADER_LENGTH..HEADER_LENGTH + fragLen]),
              data[HEADER_LENGTH + fragLen..]))
  }

  /** The number in consecutive bytes, the first being the most significant. */
  ghost function NetworkOrder(bytes: seq<byte>): int {
    if bytes == [] then 0 else 256 * NetworkOrder(bytes[..|bytes| - 1]) + bytes[|bytes| - 1]
  }

  /** Any bytes: a fragment is read if and only if the header and the length it states are there. */
  lemma ParseExactly(data: seq<byte>)
    ensures Parse(data).Some? <==> |data| >= 12 && |data| >= 12 + NetworkOrder(data[9..12])
    ensures Parse(data).Some? ==>
              var (f, rest) := Parse(data).value;
              && f.typ == data[0] && f.msgLen == NetworkOrder(data[1..4]) && f.seqNo == NetworkOrder(data[4..6])
              && f.off == NetworkOrder(data[6..9]) && |f.body| == NetworkOrder(data[9..12])
              && data[12..] == f.body + rest
  {
    if |data| >= 12 {
      OfThreeBytes(data, 1);
      OfThreeBytes(data, 6);
      OfThreeBytes(data, 9);
      OfTwoBytes(data[4], data[5]);
      assert data[4..6] == [data[4], data[5]];
    }
  }

  lemma OfTwoBytes(a: byte, b: byte)
    ensures NetworkOrder([a, b]) == ReadU16(a, b)
  {
    assert NetworkOrder([a]) == a;
    assert [a, b][..1] == [a];
  }

  lemma OfThreeBytes(data: seq<byte>, i: nat)
    requires i + 3 <= |data|
    ensures NetworkOrder(data[i..i + 3]) == ReadU24(data[i], data[i + 1], data[i + 2])
  {
    var bytes := data[i..i + 3];
    assert bytes[..2] == [data[i], data[i + 1]];
    OfTwoBytes(data[i], data[i + 1]);
  }

  /** A serialized fragment parses back to itself, leaving exactly what followed it. */
  lemma ParseSerialize(f: Fragment, rest: seq<byte>)
    requires Sendable(f)
    ensures Parse(Serialize(f) + rest) == Some((f, rest))
  {
    var data := Serialize(f) + rest;
    ReadU24OfU24(f.msgLen);
    ReadU16OfU16(f.seqNo);
    ReadU24OfU24(f.off);
    ReadU24OfU24(|f.body|);
    assert data[1..4] == U24(f.msgLen) && data[4..6] == U16(f.seqNo);
    assert data[6..9] == U24(f.off) && data[9..12] == U24(|f.body|);
    assert data[HEADER_LENGTH..HEADER_LENGTH + |f.body|] == f.body;
    assert data[HEADER_LENGTH + |f.body|..] == rest;
  }

  /** Whatever parses is the serialization of what was parsed. */
  lemma SerializeParse(data: seq<byte>)
    requires Parse(data).Some?
    ensures Serialize(Parse(data).value.0) + Parse(data).value.1 == data
  {
    var f := Parse(data).value.0;
    var rest := Parse(data).value.1;
    U24OfReadU24(data[1], data[2], data[3]);
    U16OfReadU16(data[4], data[5]);
    U24OfReadU24(data[6], data[7], data[8]);
    U24OfReadU24(data[9], data[10], data[11]);
    assert Header(f.typ, f.msgLen, f.seqNo, f.off, |f.body|) == data[..HEADER_LENGTH];
  }

  /** The message as one fragment: what the transcript hashes (RFC 6347, section 4.2.6). */
  function Whole(m: Message): Fragment
    requires |m.body| < 0x100_0000
  {
    Fragment(m.typ, |m.body|, m.seqNo, 0, m.body)
  }

  function Raw(m: Message): seq<byte>
    requires |m.body| < 0x100_0000
  {
    Serialize(Whole(m))
  }

  /** `f` is a piece of `m`: same header fields, and a body that is a slice of the message's body. */
  ghost predicate IsPieceOf(f: Fragment, m: Message) {
    && f.typ == m.typ && f.seqNo == m.seqNo && f.msgLen == |m.body|
    && f.off + |f.body| <= |m.body|
    && f.body == m.body[f.off..f.off + |f.body|]
  }

  // --- Building a message -----------------------------------------------------------------------

  /** What the serializer holds after the caller has filled in `body`: the message length is still zero. */
  function Unfinished(typ: byte, seqNo: uint16, body: seq<byte>): (r: seq<byte>)
    requires |body| < 0x100_0000
    ensures |r| == HEADER_LENGTH + |body|
  {
    Header(typ, 0, seqNo, 0, |body|) + body
  }

  /** Copies the fragment length into the message length, in place. */
  method FinishMessage(msg: array<byte>) returns (ok: bool)
    modifies msg
    ensures ok == (msg.Length >= HEADER_LENGTH)
    ensures !ok ==> msg[..] == old(msg[..])
    ensures forall m: Message :: |m.body| < 0x100_0000 && old(msg[..]) == Unfinished(m.typ, m.seqNo, m.body)
              ==> ok && msg[..] == Raw(m)
  {
    if msg.Length < HEADER_LENGTH {
      return false;
    }
    ghost var before := msg[..];
    for i := 0 to 3
      invariant msg[1..1 + i] == before[9..9 + i]
      invariant forall j :: 0 <= j < msg.Length && !(1 <= j < 1 + i) ==> msg[j] == before[j]
    {
      msg[1 + i] := msg[HEADER_LENGTH - 3 + i];
    }
    forall m: Message | |m.body| < 0x100_0000 && before == Unfinished(m.typ, m.seqNo, m.body)
      ensures msg[..] == Raw(m)
    {
      assert before[9..12] == U24(|m.body|);
      assert msg[1..4] == before[9..12];
      assert msg[..] == msg[..1] + msg[1..4] + msg[4..];
      assert before == before[..1] + before[1..4] + before[4..];
    }
    ok := true;
  }
}
