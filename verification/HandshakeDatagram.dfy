/** Records as bytes: the receiver reads one header after the other, and what a datagram brings is what its records
    bring. */
module HandshakeDatagram {
  import opened Bits
  import opened Bytes
  import opened HandshakeFragment
  import opened HandshakeReceive
  import opened HandshakeArrivals
  import opened HandshakeEvents
  import opened HandshakeSend
  import ReplayWindow

  const MAX_ENCRYPTED_LENGTH := 16704
  const DTLS1_VERSION_MAJOR := 0xfe

  /** The read cipher of an epoch: its record version, and the plaintext for a type, a version, a number and a body. */
  datatype ReadCipher = ReadCipher(
    version: uint16,
    open: (byte, uint16, uint16, uint48, seq<byte>) -> Option<seq<byte>>)

  function TypeOf(code: byte): ContentType {
    match code
    case 20 => ChangeCipherSpec
    case 21 => AlertMessage
    case 22 => Handshake
    case 23 => ApplicationData
    case _ => Other
  }

  /** Without a cipher only the major version counts. */
  predicate VersionOk(nullCipher: bool, c: ReadCipher, version: uint16) {
    if nullCipher then version / 0x100 == DTLS1_VERSION_MAJOR else version == c.version
  }

  /** The 48-bit number in six bytes. */
  function SixBytes(bytes: seq<byte>): uint48
    requires |bytes| == 6
  {
    BigEndianFits(bytes);
    Pow2Of48();
    BigEndian(bytes)
  }

  /** A record at the front of the input: what the header says, whether the cipher opens it, and its length there. */
  datatype Framed = Framed(rec: Record, opens: bool, len: nat)

  /** None where the header is incomplete, malformed or of a wrong version. */
  function Frame(nullCipher: bool, c: ReadCipher, input: seq<byte>): (r: Option<Framed>)
    ensures r.Some? ==> 0 < r.value.len <= |input|
  {
    if |input| < RECORD_HEADER_LENGTH then None
    else
      var version, len := ReadU16(input[1], input[2]), ReadU16(input[11], input[12]);
      if len > |input| - RECORD_HEADER_LENGTH || len > MAX_ENCRYPTED_LENGTH || !VersionOk(nullCipher, c, version) then
        None
      else
        var epoch, number := ReadU16(input[3], input[4]), SixBytes(input[5..11]);
        var plain := c.open(input[0], version, epoch, number, input[13..13 + len]);
        Some(Framed(Record(epoch, number, TypeOf(input[0]), if plain.Some? then plain.value else []), plain.Some?,
                    RECORD_HEADER_LENGTH + len))
  }

  ghost function TwoBytes(high: int, low: int): int {
    256 * high + low
  }

  /** Any bytes: what makes a header unacceptable, and what an acceptable one says (RFC 6347, section 4.1). */
  lemma FrameExactly(nullCipher: bool, c: ReadCipher, input: seq<byte>)
    ensures Frame(nullCipher, c, input).None? <==>
              || |input| < 13
              || TwoBytes(input[11], input[12]) > |input| - 13
              || TwoBytes(input[11], input[12]) > 16704
              || (if nullCipher then input[1] != 254 else TwoBytes(input[1], input[2]) != c.version)
    ensures Frame(nullCipher, c, input).Some? ==>
              var f := Frame(nullCipher, c, input).value;
              var n := TwoBytes(input[11], input[12]);
              var plain := c.open(input[0], ReadU16(input[1], input[2]), f.rec.epoch, f.rec.seqNum, input[13..13 + n]);
              && f.len == 13 + n
              && f.rec.epoch == TwoBytes(input[3], input[4])
              && f.rec.seqNum == BigEndian(input[5..11])
              && (f.rec.ctype.ChangeCipherSpec? <==> input[0] == 20) && (f.rec.ctype.AlertMessage? <==> input[0] == 21)
              && (f.rec.ctype.Handshake? <==> input[0] == 22) && (f.rec.ctype.ApplicationData? <==> input[0] == 23)
              && (f.opens <==> plain.Some?) && (f.opens ==> plain == Some(f.rec.plain))
  {
  }

  const NO_RECORD := Record(0, 0, Other, [])

  /** What opening the input comes to: the answer, if there is anything to open; the record; how much was used up. */
  datatype Opening = Opening(status: Option<Status>, rec: Record, consumed: nat)

  function OpenRecordBytes(r: Receiver, c: ReadCipher, input: seq<byte>): (Receiver, Opening) {
    if r.closed then (r, Opening(Some(CloseNotify), NO_RECORD, 0))
    else if input == [] then (r, Opening(None, NO_RECORD, 0))
    else
      match Frame(r.nullCipher, c, input)
      case None => (r, Opening(Some(Discard), NO_RECORD, |input|))
      case Some(f) =>
        var (r', status) := OpenRecord(r, f.rec, f.opens);
        (r', Opening(Some(status), f.rec, f.len))
  }

  function OpenHandshakeBytes(r: Receiver, c: ReadCipher, input: seq<byte>, maxLen: nat):
    (res: (Receiver, Option<Status>, nat))
    requires |r.ring| == MAX_FLIGHT
    ensures |res.0.ring| == MAX_FLIGHT && res.2 <= |input|
    ensures res.2 == 0 ==> input == [] || res.1 == Some(CloseNotify)
  {
    if r.closed then (r, Some(CloseNotify), 0)
    else if input == [] then (r, None, 0)
    else
      match Frame(r.nullCipher, c, input)
      case None => (r, Some(Discard), |input|)
      case Some(f) =>
        var (r', status) := OpenHandshake(r, f.rec, f.opens, maxLen);
        (r', Some(status), f.len)
  }

  /** An unacceptable header costs the whole rest of the datagram; an acceptable one its own record, whatever becomes of
      it. */
  lemma UsesUpExactly(r: Receiver, c: ReadCipher, input: seq<byte>, maxLen: nat)
    requires RingInv(r) && !r.closed && input != []
    ensures var (r', status, n) := OpenHandshakeBytes(r, c, input, maxLen);
            match Frame(r.nullCipher, c, input)
            case None => r' == r && status == Some(Discard) && n == |input|
            case Some(f) => (r', status) == Arrival(r, f, maxLen) && n == f.len
    ensures var (r', opening) := OpenRecordBytes(r, c, input);
            match Frame(r.nullCipher, c, input)
            case None => r' == r && opening.status == Some(Discard) && opening.consumed == |input|
            case Some(f) => opening.rec == f.rec && opening.consumed == f.len
  {
    hide Frame, OpenHandshake, OpenRecord;
  }

  function Arrival(r: Receiver, f: Framed, maxLen: nat): (Receiver, Option<Status>)
    requires |r.ring| == MAX_FLIGHT
  {
    var (r', status) := OpenHandshake(r, f.rec, f.opens, maxLen);
    (r', Some(status))
  }

  /** The handshake asks for a ChangeCipherSpec: a record is opened unless one is already waiting. */
  function OpenChangeCipherSpecBytes(r: Receiver, c: ReadCipher, input: seq<byte>, maxLen: nat):
    (Receiver, Option<Status>, nat)
    requires |r.ring| == MAX_FLIGHT
  {
    var (r', status, n) :=
      if r.hasChangeCipherSpec then (r, Some(Success), 0) else OpenHandshakeBytes(r, c, input, maxLen);
    if status != Some(Success) then (r', status, n)
    else
      var (r'', found) := TakeChangeCipherSpec(r');
      (r'', Some(if found then Success else Discard), n)
  }

  /** It succeeds exactly when one is waiting or the record at the front of the input brings one: without a cipher, new,
      and of the right body. None is waiting afterwards. */
  lemma ChangeCipherSpecOpens(r: Receiver, c: ReadCipher, input: seq<byte>, maxLen: nat)
    requires RingInv(r)
    ensures var (r', status, n) := OpenChangeCipherSpecBytes(r, c, input, maxLen);
            && !r'.hasChangeCipherSpec
            && (status == Some(Success) <==>
                  || r.hasChangeCipherSpec
                  || (&& !r.closed && r.nullCipher && Frame(true, c, input).Some?
                      && var f := Frame(true, c, input).value;
                         Accepts(r, f.rec, f.opens) && f.rec.ctype == ChangeCipherSpec && f.rec.plain == [1]))
  {
    hide Frame, Accepts, OpenHandshake, SlotInv, IsComplete;
    if !r.hasChangeCipherSpec && !r.closed && input != [] && Frame(r.nullCipher, c, input).Some? {
      var f := Frame(r.nullCipher, c, input).value;
      ArriveFrame(r, f.rec, f.opens, maxLen);
      if f.rec.ctype == ChangeCipherSpec {
        ArriveSetsFlag(r, f.rec, f.opens, maxLen);
        FlagMeansSuccess(r, f.rec, f.opens, maxLen);
      }
    }
    FrameOfNothing(c);
  }

  lemma FrameOfNothing(c: ReadCipher)
    ensures Frame(true, c, []).None?
  {
  }

  lemma FlagMeansSuccess(r: Receiver, rec: Record, opens: bool, maxLen: nat)
    requires |r.ring| == MAX_FLIGHT && rec.ctype == ChangeCipherSpec && !r.hasChangeCipherSpec
    ensures var (r', status) := OpenHandshake(r, rec, opens, maxLen);
            r'.hasChangeCipherSpec == status.Success?
  {
    hide ReplayWindow.ShouldDiscard, ReplayWindow.Record;
  }

  /** The records of a datagram one after the other, up to an error or the end of the connection. */
  function OpenDatagram(r: Receiver, c: ReadCipher, input: seq<byte>, maxLen: nat): (Receiver, Status)
    requires |r.ring| == MAX_FLIGHT
    decreases |input|
  {
    if input == [] then (r, Success)
    else
      var (r', status, n) := OpenHandshakeBytes(r, c, input, maxLen);
      if n == 0 || status.None? || status.value.Error? || status.value.CloseNotify? then
        (r', if status.Some? then status.value else Success)
      else OpenDatagram(r', c, input[n..], maxLen)
  }

  // --- What was sealed is what is opened --------------------------------------------------------

  /** The bytes of the record with this version and ciphertext. */
  ghost predicate IsFrame(x: SealedRecord, version: uint16, ciphertext: seq<byte>) {
    && |ciphertext| <= MAX_ENCRYPTED_LENGTH && x.rec.ctype != Other
    && x.wire == RecordBytes(x.rec.ctype, version, x.rec.epoch, x.rec.seqNum, ciphertext)
  }

  /** The receiver can read the record: its version is right, and if it is of the read epoch the cipher opens it. */
  ghost predicate Readable(epoch: uint16, nullCipher: bool, c: ReadCipher, x: SealedRecord) {
    exists version, ciphertext :: IsFrame(x, version, ciphertext) && Opens(epoch, nullCipher, c, x, version, ciphertext)
  }

  ghost predicate Opens(epoch: uint16, nullCipher: bool, c: ReadCipher, x: SealedRecord, version: uint16,
                        ciphertext: seq<byte>)
  {
    && VersionOk(nullCipher, c, version)
    && (x.rec.epoch == epoch ==>
          c.open(TypeCode(x.rec.ctype), version, epoch, x.rec.seqNum, ciphertext) == Some(x.rec.plain))
  }

  /** Header and body of a record, in front of whatever follows. */
  lemma RecordParts(x: SealedRecord, version: uint16, ciphertext: seq<byte>, rest: seq<byte>)
    requires IsFrame(x, version, ciphertext)
    ensures var input, len := x.wire + rest, |ciphertext|;
            && |input| == RECORD_HEADER_LENGTH + len + |rest|
            && input[0] == TypeCode(x.rec.ctype)
            && input[1..3] == U16(version) && input[3..5] == U16(x.rec.epoch)
            && input[5..11] == ToBigEndian(x.rec.seqNum, 6) && input[11..13] == U16(len)
            && input[13..13 + len] == ciphertext && input[13 + len..] == rest
            && len <= MAX_ENCRYPTED_LENGTH && |x.wire| == RECORD_HEADER_LENGTH + len
            && TypeOf(TypeCode(x.rec.ctype)) == x.rec.ctype
  {
    hide U16, ToBigEndian;
    var len := |ciphertext|;
    var head := [TypeCode(x.rec.ctype)] + U16(version) + U16(x.rec.epoch) + ToBigEndian(x.rec.seqNum, 6) + U16(len);
    assert x.wire + rest == head + ciphertext + rest;
  }

  lemma NumberReadBack(n: uint48)
    ensures SixBytes(ToBigEndian(n, 6)) == n
  {
    Pow2Of48();
    BigEndianOf(n, 6);
  }

  /** The bytes of a record, whatever follows them, are read as that record; of another epoch the contents may not be
      readable. */
  lemma FrameOfRecord(nullCipher: bool, c: ReadCipher, x: SealedRecord, version: uint16, ciphertext: seq<byte>,
                      rest: seq<byte>)
    requires IsFrame(x, version, ciphertext) && VersionOk(nullCipher, c, version)
    ensures var plain := c.open(TypeCode(x.rec.ctype), version, x.rec.epoch, x.rec.seqNum, ciphertext);
            Frame(nullCipher, c, x.wire + rest)
            == Some(Framed(x.rec.(plain := if plain.Some? then plain.value else []), plain.Some?, |x.wire|))
  {
    hide IsFrame, SixBytes, ToBigEndian, RecordBytes, TypeCode, TypeOf, U16;
    RecordParts(x, version, ciphertext, rest);
    var input := x.wire + rest;
    NumberReadBack(x.rec.seqNum);
    ReadU16OfU16(version);
    ReadU16OfU16(x.rec.epoch);
    ReadU16OfU16(|ciphertext|);
    assert input[1..3][0] == input[1] && input[1..3][1] == input[2];
    assert input[3..5][0] == input[3] && input[3..5][1] == input[4];
    assert input[11..13][0] == input[11] && input[11..13][1] == input[12];
  }

  /** Opening the bytes of a record is opening the record. */
  lemma RecordBytesOpen(r: Receiver, c: ReadCipher, x: SealedRecord, rest: seq<byte>, maxLen: nat)
    requires |r.ring| == MAX_FLIGHT && Readable(r.epoch, r.nullCipher, c, x) && !r.closed
    ensures |x.wire| > 0 && (x.wire + rest)[|x.wire|..] == rest
    ensures var (r', status) := OpenHandshake(r, x.rec, true, maxLen);
            OpenHandshakeBytes(r, c, x.wire + rest, maxLen) == (r', Some(status), |x.wire|)
  {
    hide IsFrame, Frame, VersionOk, ReplayWindow.ShouldDiscard, ReplayWindow.Record, OpenFragments, RecordBytes;
    var version, ciphertext :| IsFrame(x, version, ciphertext) &&
                               Opens(r.epoch, r.nullCipher, c, x, version, ciphertext);
    FrameOfRecord(r.nullCipher, c, x, version, ciphertext, rest);
    RecordParts(x, version, ciphertext, rest);
  }

  function ArrivalsOfPacket(xs: seq<SealedRecord>, maxLen: nat): (r: seq<Input>)
    ensures |r| == |xs|
  {
    if xs == [] then [] else [Arrives(xs[0].rec, true, maxLen)] + ArrivalsOfPacket(xs[1..], maxLen)
  }

  /** A record changes neither the read epoch nor its cipher. */
  lemma EpochStays(r: Receiver, rec: Record, opens: bool, maxLen: nat)
    requires RingInv(r)
    ensures var r' := OpenHandshake(r, rec, opens, maxLen).0;
            r'.epoch == r.epoch && r'.nullCipher == r.nullCipher
  {
    hide OpenRecord, OpenFragments, SlotInv, IsComplete;
    OpenRecordFrame(r, rec, opens);
    var (r', status) := OpenRecord(r, rec, opens);
    if status.Success? && rec.ctype == Handshake {
      FragmentsKeepRing(r', rec.plain, maxLen);
    }
  }

  /** A datagram of records that can be read does what the records do, one after the other. */
  lemma {:induction false} DatagramIsArrivals(r: Receiver, c: ReadCipher, xs: seq<SealedRecord>, maxLen: nat)
    requires RingInv(r) && !r.closed
    requires forall x :: x in xs ==> Readable(r.epoch, r.nullCipher, c, x)
    ensures OpenDatagram(r, c, Wire(xs), maxLen) == RunInputs(r, ArrivalsOfPacket(xs, maxLen))
    decreases |xs|
  {
    hide RingInv, Readable, OpenHandshake, OpenHandshakeBytes;
    HasSlots(r);
    if xs != [] {
      var x, rest := xs[0], xs[1..];
      RecordBytesOpen(r, c, x, Wire(rest), maxLen);
      var (r', status) := OpenHandshake(r, x.rec, true, maxLen);
      RecordKeepsRing(r, x.rec, true, maxLen);
      EpochStays(r, x.rec, true, maxLen);
      OneArrival(r, x, rest, maxLen);
      if !status.Error? && !status.CloseNotify? {
        ArriveStaysOpen(r, x.rec, true, maxLen);
        DatagramIsArrivals(r', c, rest, maxLen);
      }
    }
  }

  lemma HasSlots(r: Receiver)
    requires RingInv(r)
    ensures |r.ring| == MAX_FLIGHT
  {
  }

  lemma OneArrival(r: Receiver, x: SealedRecord, rest: seq<SealedRecord>, maxLen: nat)
    requires |r.ring| == MAX_FLIGHT
    ensures RunInputs(r, ArrivalsOfPacket([x] + rest, maxLen)) ==
            var (r', status) := OpenHandshake(r, x.rec, true, maxLen);
            if status.Error? || status.CloseNotify? then (r', status)
            else RunInputs(r', ArrivalsOfPacket(rest, maxLen))
  {
    hide OpenHandshake;
    assert ([x] + rest)[1..] == rest;
    var inputs := [Arrives(x.rec, true, maxLen)] + ArrivalsOfPacket(rest, maxLen);
    assert inputs[1..] == ArrivalsOfPacket(rest, maxLen);
  }

  // --- Packets of the sender --------------------------------------------------------------------

  /** The read cipher of the epoch undoes the sender's write cipher of it. */
  ghost predicate Undoes(c: ReadCipher, a: Aead, version: uint16, epoch: uint16) {
    forall n: uint48, t, p :: a.seal(n, t, p).Some? ==>
      c.open(TypeCode(t), version, epoch, n, a.seal(n, t, p).value) == Some(p)
  }

  /** The receiver has the ciphers to read what the sender seals: the version fits, and in the read epoch the cipher. */
  ghost predicate CanRead(epoch: uint16, nullCipher: bool, c: ReadCipher, s: Sender) {
    && VersionOk(nullCipher, c, s.aead.recordVersion)
    && (s.epoch == epoch ==> Undoes(c, s.aead, s.aead.recordVersion, epoch))
    && (s.epoch >= 1 && s.epoch - 1 == epoch ==> Undoes(c, s.lastAead, s.aead.recordVersion, epoch))
  }

  /** The record is the work of one of the sender's two live ciphers, that of its epoch; the version in its header is
      the current cipher's. */
  ghost predicate Genuine(s: Sender, x: SealedRecord) {
    && (x.rec.epoch == s.epoch || (s.epoch >= 1 && x.rec.epoch == s.epoch - 1))
    && SealedWith(if x.rec.epoch == s.epoch then s.aead else s.lastAead, s.aead.recordVersion, x)
  }

  ghost predicate SealedWith(a: Aead, version: uint16, x: SealedRecord) {
    var ciphertext := a.seal(x.rec.seqNum, x.rec.ctype, x.rec.plain);
    && ciphertext.Some? && |ciphertext.value| < 0x1_0000
    && x.wire == RecordBytes(x.rec.ctype, version, x.rec.epoch, x.rec.seqNum, ciphertext.value)
  }

  lemma GenuineIsReadable(s: Sender, x: SealedRecord, epoch: uint16, nullCipher: bool, c: ReadCipher)
    requires Genuine(s, x) && CanRead(epoch, nullCipher, c, s) && x.rec.ctype != Other
    requires x.Len() <= RECORD_HEADER_LENGTH + MAX_ENCRYPTED_LENGTH
    ensures Readable(epoch, nullCipher, c, x)
  {
    hide RecordBytes, VersionOk, TypeCode;
    var a := if x.rec.epoch == s.epoch then s.aead else s.lastAead;
    var ciphertext := a.seal(x.rec.seqNum, x.rec.ctype, x.rec.plain).value;
    assert IsFrame(x, s.aead.recordVersion, ciphertext);
    assert Opens(epoch, nullCipher, c, x, s.aead.recordVersion, ciphertext);
  }

  lemma SealedIsGenuine(s: Sender, previous: bool, ctype: ContentType, plain: seq<byte>)
    requires previous ==> s.epoch >= 1
    ensures var res := SealRecord(s, previous, ctype, plain).1;
            res.Sealed? ==> Genuine(s, res.value) && res.value.rec.ctype == ctype
  {
    hide RecordBytes;
  }

  /** What is sealed by one call: a record of the flight, genuine. */
  ghost predicate GenuineProgress(s: Sender, progress: Progress) {
    match progress
    case Partial(x) => Genuine(s, x) && x.rec.ctype != Other
    case Whole(x) => Genuine(s, x) && x.rec.ctype != Other
    case _ => true
  }

  lemma NextIsGenuine(s: Sender, maxOut: nat)
    requires s.written < |s.msgs|
    ensures GenuineProgress(s, SealNextMessage(s, maxOut).1)
  {
    hide SealRecord, Stored, Serialize, Genuine;
    var msg := s.msgs[s.written];
    var previous := UsesPrevious(s, msg);
    SealedIsGenuine(s, previous, ChangeCipherSpec, [1]);
    if Stored(msg).Some? {
      StoredShape(msg);
      var f := Stored(msg).value;
      var overhead := MaxSealOverhead(s, previous);
      if s.offset <= |f.body| && maxOut >= HEADER_LENGTH + 1 + overhead {
        var rest, room := |f.body| - s.offset, maxOut - HEADER_LENGTH - overhead;
        var todo := if rest > room then room else rest;
        SealedIsGenuine(s, previous, Handshake, Serialize(Cut(f, s.offset, todo)));
      }
    }
  }

  /** A packet changes neither cipher, so that all its records are the work of the same two. */
  lemma {:induction false} PacketIsGenuine(s: Sender, maxOut: nat, madeProgress: bool)
    ensures forall x :: x in SealPacket(s, maxOut, madeProgress).2 ==> Genuine(s, x) && x.rec.ctype != Other
    decreases |s.msgs| - s.written
  {
    hide SealNextMessage, SealedWith;
    if s.written < |s.msgs| {
      NextIsGenuine(s, maxOut);
      SealNextFrame(s, maxOut);
      SealNextKeepsRest(s, maxOut);
      var (s', progress) := SealNextMessage(s, maxOut);
      if progress.Whole? {
        var left := if progress.last.Len() <= maxOut then maxOut - progress.last.Len() else 0;
        PacketIsGenuine(Advance(s'), left, true);
        assert forall x :: Genuine(Advance(s'), x) ==> Genuine(s, x);
      }
    }
  }

  lemma {:induction false} ShortRecords(xs: seq<SealedRecord>, max: nat)
    requires PacketLen(xs) <= max
    ensures forall x :: x in xs ==> x.Len() <= max
  {
    if xs != [] {
      ShortRecords(xs[1..], max);
    }
  }

  /** A datagram with a packet of the sender does to the receiver what the packet's records do, arriving one after the
      other. */
  lemma PacketArrives(s: Sender, mtu: nat, r: Receiver, c: ReadCipher, maxLen: nat)
    requires SenderInv(s) && RingInv(r) && !r.closed && CanRead(r.epoch, r.nullCipher, c, s)
    requires mtu <= RECORD_HEADER_LENGTH + MAX_ENCRYPTED_LENGTH
    ensures var xs := NextPacket(s, mtu).2;
            OpenDatagram(r, c, Wire(xs), maxLen) == RunInputs(r, ArrivalsOfPacket(xs, maxLen))
  {
    hide SealPacket, OpenDatagram, RunInputs, Readable, CanRead, Genuine, SenderInv, PendingFrom, PacketLen;
    var xs := NextPacket(s, mtu).2;
    PacketIsGenuine(s, mtu, false);
    PacketConserves(s, mtu, false);
    ShortRecords(xs, mtu);
    forall x | x in xs ensures Readable(r.epoch, r.nullCipher, c, x) {
      GenuineIsReadable(s, x, r.epoch, r.nullCipher, c);
    }
    DatagramIsArrivals(r, c, xs, maxLen);
  }
}
