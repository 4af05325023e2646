/** The sending half of the DTLS handshake transport as functions on values: sealing records, cutting messages into
    fragments, filling packets, and resuming a flight. */
module HandshakeSend {
  import opened Bits
  import opened Bytes
  import opened HandshakeFragment
  import opened HandshakeReceive

  const RECORD_HEADER_LENGTH := 13
  const SEQ_LIMIT := 0x1_0000_0000_0000

  /** The write cipher of an epoch, opaque but for lengths: `seal` gives the ciphertext, or None on failure. */
  datatype Aead = Aead(
    recordVersion: uint16,
    maxOverhead: nat,
    explicitNonceLen: nat,
    seal: (uint48, ContentType, seq<byte>) -> Option<seq<byte>>)

  /** What the encryption layer promises about lengths. */
  ghost predicate ValidAead(a: Aead) {
    && a.explicitNonceLen <= a.maxOverhead
    && forall n, t, p :: a.seal(n, t, p).Some? ==> |p| <= |a.seal(n, t, p).value| <= |p| + a.maxOverhead
  }

  datatype OutgoingMessage = OutgoingMessage(data: seq<byte>, epoch: uint16, isCcs: bool)

  datatype Sender = Sender(
    msgs: seq<OutgoingMessage>,
    written: nat,
    offset: nat,
    complete: bool,
    hasReply: bool,
    writeSeq: uint16,
    epoch: uint16,
    aead: Aead,
    lastAead: Aead,
    seqNum: uint48,
    lastSeqNum: uint48)

  /** A record in a packet, with its bytes there. */
  datatype SealedRecord = SealedRecord(rec: Record, wire: seq<byte>) {
    function Len(): nat {
      |wire|
    }
  }

  /** Why nothing was sealed. The last two are answers to a buffer that is laid out wrongly or too small. */
  datatype Failure =
    | OldEpoch | BadMessage | AeadFailed | SequenceWrapped | RecordTooLong | MtuTooSmall
    | OutputAliasesInput | BufferTooSmall

  datatype SealResult = Sealed(value: SealedRecord) | SealFailed(why: Failure)

  datatype Progress = NoProgress | Partial(part: SealedRecord) | Whole(last: SealedRecord) | Stuck(why: Failure)

  datatype PacketStatus = PacketReady | PacketFailed(why: Failure)

  // --- Records ----------------------------------------------------------------------------------

  function WriteAead(s: Sender, previous: bool): Aead {
    if previous then s.lastAead else s.aead
  }

  function WriteEpoch(s: Sender, previous: bool): uint16
    requires previous ==> s.epoch >= 1
  {
    if previous then s.epoch - 1 else s.epoch
  }

  function WriteNumber(s: Sender, previous: bool): uint48 {
    if previous then s.lastSeqNum else s.seqNum
  }

  function MaxSealOverhead(s: Sender, previous: bool): nat {
    RECORD_HEADER_LENGTH + WriteAead(s, previous).maxOverhead
  }

  function SealPrefixLen(s: Sender, previous: bool): nat {
    RECORD_HEADER_LENGTH + WriteAead(s, previous).explicitNonceLen
  }

  function TypeCode(ctype: ContentType): byte {
    match ctype
    case ChangeCipherSpec => 20
    case AlertMessage => 21
    case Handshake => 22
    case _ => 23
  }

  /** The record header (RFC 6347, section 4.1) and the ciphertext. */
  function RecordBytes(ctype: ContentType, version: uint16, epoch: uint16, number: uint48, ciphertext: seq<byte>)
    : (r: seq<byte>)
    requires |ciphertext| < 0x1_0000
    ensures |r| == RECORD_HEADER_LENGTH + |ciphertext|
  {
    [TypeCode(ctype)] + U16(version) + U16(epoch) + ToBigEndian(number, 6) + U16(|ciphertext|) + ciphertext
  }

  /** Seals one record under the current or the previous epoch. The 48-bit number is advanced even when that wraps it
      to 0 and the record is refused. The version in the header is the current cipher's. */
  function SealRecord(s: Sender, previous: bool, ctype: ContentType, plain: seq<byte>): (Sender, SealResult)
    requires previous ==> s.epoch >= 1
  {
    var n := WriteNumber(s, previous);
    match WriteAead(s, previous).seal(n, ctype, plain)
    case None => (s, SealFailed(AeadFailed))
    case Some(ciphertext) =>
      var next := (n + 1) % SEQ_LIMIT;
      var s' := if previous then s.(lastSeqNum := next) else s.(seqNum := next);
      if next == 0 then (s', SealFailed(SequenceWrapped))
      else if |ciphertext| >= 0x1_0000 then (s', SealFailed(RecordTooLong))
      else
        var e := WriteEpoch(s, previous);
        var wire := RecordBytes(ctype, s.aead.recordVersion, e, n, ciphertext);
        (s', Sealed(SealedRecord(Record(e, n, ctype, plain), wire)))
  }

  // --- Messages ---------------------------------------------------------------------------------

  /** The fragment a stored message is: DTLS messages are kept as a single fragment. */
  function Stored(msg: OutgoingMessage): Option<Fragment> {
    match Parse(msg.data)
    case None => None
    case Some((f, rest)) =>
      if f.off != 0 || f.msgLen != |f.body| || rest != [] then None else Some(f)
  }

  /** The piece of `f` from `offset` on, of `len` bytes. */
  function Cut(f: Fragment, offset: nat, len: nat): Fragment
    requires offset + len <= |f.body| < 0x100_0000
  {
    Fragment(f.typ, f.msgLen, f.seqNo, offset, f.body[offset..offset + len])
  }

  predicate UsesPrevious(s: Sender, msg: OutgoingMessage) {
    s.epoch >= 1 && msg.epoch == s.epoch - 1
  }

  /** Seals the next `todo` bytes of a message and moves the cursor past them. */
  function SealPiece(s: Sender, previous: bool, f: Fragment, todo: nat): (Sender, Progress)
    requires (previous ==> s.epoch >= 1) && s.offset + todo <= |f.body| < 0x100_0000
  {
    var (s', res) := SealRecord(s, previous, Handshake, Serialize(Cut(f, s.offset, todo)));
    if res.SealFailed? then (s', Stuck(res.why))
    else if todo == |f.body| - s.offset then (s'.(offset := 0), Whole(res.value))
    else (s'.(offset := s.offset + todo), Partial(res.value))
  }

  /** Seals as much of the next message as fits `maxOut` bytes. */
  function SealNextMessage(s: Sender, maxOut: nat): (Sender, Progress)
    requires s.written < |s.msgs|
  {
    var msg := s.msgs[s.written];
    var previous := UsesPrevious(s, msg);
    if !previous && msg.epoch != s.epoch then (s, Stuck(OldEpoch))
    else
      var overhead, prefix := MaxSealOverhead(s, previous), SealPrefixLen(s, previous);
      if msg.isCcs then
        if maxOut < 1 + overhead then (s, NoProgress)
        else
          var (s', res) := SealRecord(s, previous, ChangeCipherSpec, [1]);
          (s', if res.Sealed? then Whole(res.value) else Stuck(res.why))
      else
        match Stored(msg)
        case None => (s, Stuck(BadMessage))
        case Some(f) =>
          if s.offset > |f.body| then (s, Stuck(BadMessage))
          else if maxOut < HEADER_LENGTH + 1 + overhead || maxOut < prefix then (s, NoProgress)
          else
            var rest, room := |f.body| - s.offset, maxOut - HEADER_LENGTH - overhead;
            var todo := if rest > room then room else rest;
            if HEADER_LENGTH + todo > maxOut - prefix then (s, Stuck(BadMessage))
            else SealPiece(s, previous, f, todo)
  }

  // --- Packets ----------------------------------------------------------------------------------

  /** Seals messages until the packet is full or the flight is done. The records are those sealed into the packet,
      which is thrown away if the status is a failure. */
  function SealPacket(s: Sender, maxOut: nat, madeProgress: bool): (Sender, PacketStatus, seq<SealedRecord>)
    decreases |s.msgs| - s.written
  {
    var full := if madeProgress then PacketReady else PacketFailed(MtuTooSmall);
    if s.written >= |s.msgs| then (s, full, [])
    else
      var (s', progress) := SealNextMessage(s, maxOut);
      match progress
      case Stuck(why) => (s', PacketFailed(why), [])
      case NoProgress => (s', full, [])
      case Partial(x) => (s', PacketReady, [x])
      case Whole(x) =>
        var left := if x.Len() <= maxOut then maxOut - x.Len() else 0;
        var (s'', status, xs) := SealPacket(s'.(written := s.written + 1), left, true);
        (s'', status, [x] + xs)
  }

  function NextPacket(s: Sender, maxOut: nat): (Sender, PacketStatus, seq<SealedRecord>) {
    SealPacket(s, maxOut, false)
  }

  function PacketLen(xs: seq<SealedRecord>): nat {
    if xs == [] then 0 else xs[0].Len() + PacketLen(xs[1..])
  }

  /** The datagram a packet is. */
  function Wire(xs: seq<SealedRecord>): seq<byte> {
    if xs == [] then [] else xs[0].wire + Wire(xs[1..])
  }

  function Wires(packets: seq<seq<SealedRecord>>): seq<seq<byte>> {
    if packets == [] then [] else [Wire(packets[0])] + Wires(packets[1..])
  }

  // --- Flights ----------------------------------------------------------------------------------

  datatype FlightStatus = Sent | Blocked | NotFlushed | Failed(why: Failure)

  /** Sends packets until the flight is done, the transport refuses one (a result of 0 or less), or sealing fails.
      `bio` scripts the results of the transport's writes, the last one being that of the final flush; when it runs
      out, the transport blocks. The second component lists the packets handed over, the third every record sealed. */
  function SendFlight(s: Sender, mtu: nat, bio: seq<int>):
    (Sender, seq<seq<SealedRecord>>, seq<SealedRecord>, FlightStatus)
    decreases |bio|
  {
    if s.written >= |s.msgs| then
      (s, [], [], if bio == [] || bio[0] <= 0 then NotFlushed else Sent)
    else
      var (s', status, xs) := NextPacket(s, mtu);
      if status.PacketFailed? then (s', [], xs, Failed(status.why))
      else if bio == [] || bio[0] <= 0 then
        // The packet will be cut again by the next pass.
        (s'.(written := s.written, offset := s.offset), [], xs, Blocked)
      else
        var (s'', packets, sealed, res) := SendFlight(s', mtu, bio[1..]);
        (s'', [xs] + packets, xs + sealed, res)
  }

  function Rewind(s: Sender): Sender {
    s.(written := 0, offset := 0)
  }

  function ClearOutgoing(s: Sender): Sender {
    s.(msgs := [], written := 0, offset := 0, complete := false, hasReply := false)
  }

  /** Queues a message or a ChangeCipherSpec; the first one after a flush starts a new flight. */
  function AddOutgoing(s: Sender, isCcs: bool, data: seq<byte>): (Sender, bool) {
    var s0 := if s.complete then ClearOutgoing(s) else s;
    if |s0.msgs| >= MAX_FLIGHT || |data| > 0xffff_ffff then (s0, false)
    else
      (s0.(msgs := s0.msgs + [OutgoingMessage(data, s0.epoch, isCcs)],
           writeSeq := if isCcs then s0.writeSeq else (s0.writeSeq + 1) % 0x1_0000), true)
  }

  /** Messages and ChangeCipherSpecs queued one after the other. */
  function AddAll(s: Sender, items: seq<(bool, seq<byte>)>): Sender
    decreases |items|
  {
    if items == [] then s else AddAll(AddOutgoing(s, items[0].0, items[0].1).0, items[1..])
  }

  function QueuedAs(items: seq<(bool, seq<byte>)>, epoch: uint16): (r: seq<OutgoingMessage>)
    ensures |r| == |items|
  {
    seq(|items|, i requires 0 <= i < |items| => OutgoingMessage(items[i].1, epoch, items[i].0))
  }

  /** Up to seven make one flight, in order and under the current epoch. */
  lemma {:induction false} FlightGrows(s: Sender, items: seq<(bool, seq<byte>)>)
    requires !s.complete && |s.msgs| + |items| <= MAX_FLIGHT
    requires forall i :: 0 <= i < |items| ==> |items[i].1| <= 0xffff_ffff
    ensures var s' := AddAll(s, items);
            s' == s.(msgs := s.msgs + QueuedAs(items, s.epoch), writeSeq := s'.writeSeq)
    decreases |items|
  {
    if items == [] {
      assert s.msgs + QueuedAs(items, s.epoch) == s.msgs;
    } else {
      FlightGrows(AddOutgoing(s, items[0].0, items[0].1).0, items[1..]);
      assert QueuedAs(items, s.epoch) == QueuedAs([items[0]], s.epoch) + QueuedAs(items[1..], s.epoch);
    }
  }

  /** The first one behind a complete flight begins a new one, which holds seven and refuses the eighth. */
  lemma FlightHoldsSeven(s: Sender, items: seq<(bool, seq<byte>)>, isCcs: bool, data: seq<byte>)
    requires s.complete && |items| == MAX_FLIGHT
    requires forall i :: 0 <= i < |items| ==> |items[i].1| <= 0xffff_ffff
    ensures var s' := AddAll(s, items);
            && s'.msgs == QueuedAs(items, s.epoch) && s'.written == 0 && s'.offset == 0 && !s'.complete
            && AddOutgoing(s', isCcs, data) == (s', false)
  {
    var s1 := AddOutgoing(s, items[0].0, items[0].1).0;
    FlightGrows(s1, items[1..]);
    assert QueuedAs(items, s.epoch) == s1.msgs + QueuedAs(items[1..], s.epoch);
  }

  function SetWriteState(s: Sender, aead: Aead): Sender {
    s.(epoch := (s.epoch + 1) % 0x1_0000, lastSeqNum := s.seqNum, seqNum := 0, lastAead := s.aead, aead := aead)
  }

  // --- Well-formed senders ----------------------------------------------------------------------

  ghost predicate WellQueued(msg: OutgoingMessage) {
    !msg.isCcs ==> Stored(msg).Some?
  }

  function BodyLen(msg: OutgoingMessage): nat {
    if msg.isCcs || Stored(msg).None? then 0 else |Stored(msg).value.body|
  }

  ghost predicate SenderInv(s: Sender) {
    && |s.msgs| <= MAX_FLIGHT && s.written <= |s.msgs|
    && (forall i :: 0 <= i < |s.msgs| ==> WellQueued(s.msgs[i]))
    && (s.offset == 0 || (s.written < |s.msgs| && s.offset < BodyLen(s.msgs[s.written])))
    && ValidAead(s.aead) && ValidAead(s.lastAead)
  }

  // --- Conservation -----------------------------------------------------------------------------

  /** The units a flight consists of: bytes at their positions, empty messages, and ChangeCipherSpecs. */
  datatype Item =
    | CcsItem
    | EmptyItem(typ: byte, seqNo: uint16)
    | ByteItem(typ: byte, seqNo: uint16, msgLen: uint24, pos: nat, b: byte)

  function FragmentItems(f: Fragment): (r: seq<Item>)
    ensures |r| == if f.msgLen == 0 then 1 else |f.body|
  {
    if f.msgLen == 0 then [EmptyItem(f.typ, f.seqNo)]
    else seq(|f.body|, i requires 0 <= i < |f.body| => ByteItem(f.typ, f.seqNo, f.msgLen, f.off + i, f.body[i]))
  }

  function MessageItems(msg: OutgoingMessage, offset: nat): seq<Item>
    requires WellQueued(msg) && offset <= BodyLen(msg)
  {
    if msg.isCcs then [CcsItem]
    else
      var f := Stored(msg).value;
      FragmentItems(Cut(f, offset, |f.body| - offset))
  }

  function RecordItems(rec: Record): seq<Item> {
    match rec.ctype
    case ChangeCipherSpec => [CcsItem]
    case Handshake => if Parse(rec.plain).Some? then FragmentItems(Parse(rec.plain).value.0) else []
    case _ => []
  }

  function PacketItems(xs: seq<SealedRecord>): seq<Item> {
    if xs == [] then [] else RecordItems(xs[0].rec) + PacketItems(xs[1..])
  }

  function PacketsItems(ps: seq<seq<SealedRecord>>): seq<Item> {
    if ps == [] then [] else PacketItems(ps[0]) + PacketsItems(ps[1..])
  }

  /** What is left of the flight after the first `written` messages and `offset` bytes of the next. */
  function PendingFrom(msgs: seq<OutgoingMessage>, written: nat, offset: nat): seq<Item>
    requires forall i :: 0 <= i < |msgs| ==> WellQueued(msgs[i])
    requires offset > 0 ==> written < |msgs| && offset <= BodyLen(msgs[written])
    decreases |msgs| - written
  {
    if written >= |msgs| then []
    else MessageItems(msgs[written], offset) + PendingFrom(msgs, written + 1, 0)
  }

  function Pending(s: Sender): seq<Item>
    requires SenderInv(s)
  {
    PendingFrom(s.msgs, s.written, s.offset)
  }

  lemma CutItems(f: Fragment, offset: nat, len: nat)
    requires offset + len <= |f.body| == f.msgLen < 0x100_0000 && f.msgLen > 0
    ensures FragmentItems(Cut(f, offset, len)) + FragmentItems(Cut(f, offset + len, |f.body| - offset - len))
         == FragmentItems(Cut(f, offset, |f.body| - offset))
  {
    var first, rest := Cut(f, offset, len), Cut(f, offset + len, |f.body| - offset - len);
    CutItemsAt(f, offset, len);
    CutItemsAt(f, offset + len, |f.body| - offset - len);
    CutItemsAt(f, offset, |f.body| - offset);
    hide FragmentItems;
    assert FragmentItems(first) + FragmentItems(rest) == FragmentItems(Cut(f, offset, |f.body| - offset));
  }

  lemma CutItemsAt(f: Fragment, offset: nat, len: nat)
    requires offset + len <= |f.body| == f.msgLen < 0x100_0000 && f.msgLen > 0
    ensures var items := FragmentItems(Cut(f, offset, len));
            && |items| == len
            && forall i :: 0 <= i < len ==>
                 items[i] == ByteItem(f.typ, f.seqNo, f.msgLen, offset + i, f.body[offset + i])
  {
  }

  /** Sealing a record touches nothing but the sequence number it uses. */
  lemma SealRecordFrame(s: Sender, previous: bool, ctype: ContentType, plain: seq<byte>)
    requires SenderInv(s) && (previous ==> s.epoch >= 1)
    ensures var (s', res) := SealRecord(s, previous, ctype, plain);
            && s' == s.(seqNum := s'.seqNum, lastSeqNum := s'.lastSeqNum) && SenderInv(s')
            && (res.Sealed? ==>
                  && res.value.rec == Record(WriteEpoch(s, previous), WriteNumber(s, previous), ctype, plain)
                  && res.value.Len() <= |plain| + MaxSealOverhead(s, previous))
  {
  }

  /** A fragment that has been sealed: what it holds and where the cursor stands behind it. */
  ghost predicate SealedCut(s: Sender, s': Sender, x: SealedRecord, to: nat, maxOut: nat)
    requires s.written < |s.msgs| && Stored(s.msgs[s.written]).Some?
    requires s.offset <= to <= BodyLen(s.msgs[s.written])
  {
    var f := Stored(s.msgs[s.written]).value;
    && s' == s.(offset := if to == |f.body| then 0 else to, seqNum := s'.seqNum, lastSeqNum := s'.lastSeqNum)
    && x.Len() <= maxOut && x.rec.epoch == s.msgs[s.written].epoch && x.rec.ctype == Handshake
    && x.rec.plain == Serialize(Cut(f, s.offset, to - s.offset))
  }

  /** The fragment a call seals: from the cursor on, as long as the budget allows, and never empty unless the message
      is. */
  lemma SealNextFragment(s: Sender, maxOut: nat)
    requires SenderInv(s) && s.written < |s.msgs| && !s.msgs[s.written].isCcs
    ensures BodyLen(s.msgs[s.written]) < 0x100_0000
    ensures var (s', progress) := SealNextMessage(s, maxOut);
            var len := BodyLen(s.msgs[s.written]);
            match progress
            case Partial(x) => s.offset < s'.offset < len && SealedCut(s, s', x, s'.offset, maxOut)
            case Whole(x) => SealedCut(s, s', x, len, maxOut)
            case NoProgress => s' == s
            case Stuck(_) => s' == s.(seqNum := s'.seqNum, lastSeqNum := s'.lastSeqNum)
  {
    hide Parse, Serialize, SealPiece, SealedCut, ValidAead;
    var msg := s.msgs[s.written];
    var previous := UsesPrevious(s, msg);
    assert WellQueued(msg);
    var f := Stored(msg).value;
    StoredShape(msg);
    var overhead := MaxSealOverhead(s, previous);
    if (previous || msg.epoch == s.epoch) && maxOut >= HEADER_LENGTH + 1 + overhead {
      var rest, room := |f.body| - s.offset, maxOut - HEADER_LENGTH - overhead;
      SealPieceExactly(s, f, if rest > room then room else rest, maxOut);
    }
  }

  lemma SealPieceExactly(s: Sender, f: Fragment, todo: nat, maxOut: nat)
    requires SenderInv(s) && s.written < |s.msgs| && !s.msgs[s.written].isCcs
    requires Stored(s.msgs[s.written]) == Some(f) && s.offset + todo <= |f.body| < 0x100_0000
    requires var previous := UsesPrevious(s, s.msgs[s.written]);
             && (previous || s.msgs[s.written].epoch == s.epoch)
             && HEADER_LENGTH + todo + MaxSealOverhead(s, previous) <= maxOut
    ensures var (s', progress) := SealPiece(s, UsesPrevious(s, s.msgs[s.written]), f, todo);
            match progress
            case Partial(x) => s'.offset == s.offset + todo < |f.body| && SealedCut(s, s', x, s.offset + todo, maxOut)
            case Whole(x) => s.offset + todo == |f.body| && SealedCut(s, s', x, s.offset + todo, maxOut)
            case NoProgress => false
            case Stuck(_) => s' == s.(seqNum := s'.seqNum, lastSeqNum := s'.lastSeqNum)
  {
    hide Stored, Serialize, SealRecord, ValidAead, WellQueued;
    var previous := UsesPrevious(s, s.msgs[s.written]);
    var plain := Serialize(Cut(f, s.offset, todo));
    SealRecordFrame(s, previous, Handshake, plain);
    assert |plain| == HEADER_LENGTH + todo;
    var (s1, res) := SealRecord(s, previous, Handshake, plain);
    if res.Sealed? {
      assert res.value.rec.epoch == s.msgs[s.written].epoch;
      assert res.value.rec.plain == Serialize(Cut(f, s.offset, (s.offset + todo) - s.offset));
    }
  }

  /** How many bytes of the body go into a packet with `maxOut` bytes left: all of the rest, or what its headers and the
      cipher leave. */
  function Portion(rest: nat, maxOut: nat, overhead: nat): nat
    requires maxOut >= 12 + 13 + overhead
  {
    if rest <= maxOut - 12 - 13 - overhead then rest else maxOut - 12 - 13 - overhead
  }

  /** What sealing `len` bytes, all or not, makes of a call: a failure, the end of the message, or a later cursor. */
  ghost predicate Follows(s: Sender, sealed: (Sender, SealResult), whole: bool, len: nat, next: (Sender, Progress)) {
    match sealed.1
    case SealFailed(why) => next == (sealed.0, Stuck(why))
    case Sealed(x) =>
      next == if whole then (sealed.0.(offset := 0), Whole(x)) else (sealed.0.(offset := s.offset + len), Partial(x))
  }

  /** A message or ChangeCipherSpec is sealed under the cipher of its own epoch, if that is one of the two last; into
      what room there is, unless that is not enough for a single byte; and as much of it as fits. */
  lemma SealNextExactly(s: Sender, maxOut: nat)
    requires SenderInv(s) && s.written < |s.msgs|
    ensures var next := SealNextMessage(s, maxOut);
            var msg := s.msgs[s.written];
            var previous := msg.epoch + 1 == s.epoch;
            var overhead := (if previous then s.lastAead else s.aead).maxOverhead;
            if !previous && msg.epoch != s.epoch then next == (s, Stuck(OldEpoch))
            else if maxOut < (if msg.isCcs then 1 else 12 + 1) + 13 + overhead then next == (s, NoProgress)
            else if msg.isCcs then Follows(s, SealRecord(s, previous, ChangeCipherSpec, [1]), true, 0, next)
            else
              var rest := BodyLen(msg) - s.offset;
              var len := Portion(rest, maxOut, overhead);
              var plain := Serialize(Cut(Stored(msg).value, s.offset, len));
              Follows(s, SealRecord(s, previous, Handshake, plain), len == rest, len, next)
  {
    hide Parse, Serialize, SealRecord, ValidAead;
    var msg := s.msgs[s.written];
    NonceFits(s.aead);
    NonceFits(s.lastAead);
    assert WellQueued(msg);
    if msg.isCcs {
      SealRecordFrame(s, UsesPrevious(s, msg), ChangeCipherSpec, [1]);
    } else {
      hide Stored;
      StoredShape(msg);
      StoredIfQueued(msg);
    }
  }

  lemma NonceFits(a: Aead)
    requires ValidAead(a)
    ensures a.explicitNonceLen <= a.maxOverhead
  {
  }

  /** What one call does to the flight: the record's items come off the front of what was pending, the record fits, and
      it is sealed under the epoch its message was queued in. */
  ghost predicate TakesItems(s: Sender, s': Sender, x: SealedRecord, maxOut: nat)
    requires SenderInv(s) && SenderInv(s')
  {
    && s'.msgs == s.msgs && s.written < |s.msgs|
    && RecordItems(x.rec) + Pending(s') == Pending(s) && RecordItems(x.rec) != []
    && x.Len() <= maxOut && x.rec.epoch == s.msgs[s.written].epoch
  }

  /** The sender after a call that finished a message: the caller advances the cursor. */
  function Advance(s: Sender): Sender {
    s.(written := s.written + 1)
  }

  ghost predicate SealNextKeeps(s: Sender, maxOut: nat)
    requires SenderInv(s) && s.written < |s.msgs|
  {
    var (s', progress) := SealNextMessage(s, maxOut);
    match progress
    case Partial(x) => SenderInv(s') && s'.written == s.written && TakesItems(s, s', x, maxOut)
    case Whole(x) => s'.written == s.written && SenderInv(Advance(s')) && TakesItems(s, Advance(s'), x, maxOut)
    case NoProgress => s' == s
    case Stuck(_) => SenderInv(s') && s' == s.(seqNum := s'.seqNum, lastSeqNum := s'.lastSeqNum)
  }

  lemma SealNextConserves(s: Sender, maxOut: nat)
    requires SenderInv(s) && s.written < |s.msgs|
    ensures SealNextKeeps(s, maxOut)
  {
    hide Stored, SealNextMessage;
    if s.msgs[s.written].isCcs {
      SealCcsConserves(s, maxOut);
    } else {
      SealFragmentConserves(s, maxOut);
    }
  }

  lemma SealCcsConserves(s: Sender, maxOut: nat)
    requires SenderInv(s) && s.written < |s.msgs| && s.msgs[s.written].isCcs
    ensures SealNextKeeps(s, maxOut)
  {
    hide Stored, SealRecord, ValidAead;
    var msg := s.msgs[s.written];
    if UsesPrevious(s, msg) || msg.epoch == s.epoch {
      SealRecordFrame(s, UsesPrevious(s, msg), ChangeCipherSpec, [1]);
    }
  }

  lemma SealFragmentConserves(s: Sender, maxOut: nat)
    requires SenderInv(s) && s.written < |s.msgs| && !s.msgs[s.written].isCcs
    ensures SealNextKeeps(s, maxOut)
  {
    hide Stored, ValidAead, SealNextMessage, SealedCut, TakesItems, WellQueued;
    SealNextFragment(s, maxOut);
    assert WellQueued(s.msgs[s.written]);
    StoredIfQueued(s.msgs[s.written]);
    var (s', progress) := SealNextMessage(s, maxOut);
    if progress.Partial? {
      PieceConserves(s, s', progress.part, maxOut);
    } else if progress.Whole? {
      LastPieceConserves(s, s', progress.last, maxOut);
    }
  }

  lemma StoredIfQueued(msg: OutgoingMessage)
    requires WellQueued(msg) && !msg.isCcs
    ensures Stored(msg).Some?
  {
    hide Stored;
  }

  lemma PieceConserves(s: Sender, s': Sender, x: SealedRecord, maxOut: nat)
    requires SenderInv(s) && s.written < |s.msgs| && !s.msgs[s.written].isCcs
    requires Stored(s.msgs[s.written]).Some?
    requires s.offset < s'.offset < BodyLen(s.msgs[s.written]) && SealedCut(s, s', x, s'.offset, maxOut)
    ensures SenderInv(s') && s'.written == s.written && TakesItems(s, s', x, maxOut)
  {
    hide Parse, Serialize, Stored, FragmentItems, RecordItems, ValidAead, PendingFrom;
    var f := Stored(s.msgs[s.written]).value;
    StoredShape(s.msgs[s.written]);
    FragmentRecordItems(Cut(f, s.offset, s'.offset - s.offset), x.rec);
    CutNotEmpty(f, s.offset, s'.offset - s.offset);
    PendingSplit(s.msgs, s.written, s.offset, s'.offset);
  }

  lemma LastPieceConserves(s: Sender, s': Sender, x: SealedRecord, maxOut: nat)
    requires SenderInv(s) && s.written < |s.msgs| && !s.msgs[s.written].isCcs
    requires Stored(s.msgs[s.written]).Some?
    requires SealedCut(s, s', x, BodyLen(s.msgs[s.written]), maxOut)
    ensures s'.written == s.written && SenderInv(Advance(s')) && TakesItems(s, Advance(s'), x, maxOut)
  {
    hide Parse, Serialize, Stored, FragmentItems, RecordItems, ValidAead;
    var f := Stored(s.msgs[s.written]).value;
    StoredShape(s.msgs[s.written]);
    FragmentRecordItems(Cut(f, s.offset, |f.body| - s.offset), x.rec);
    CutNotEmpty(f, s.offset, |f.body| - s.offset);
  }

  lemma StoredShape(msg: OutgoingMessage)
    requires Stored(msg).Some?
    ensures Stored(msg).value.off == 0 && Stored(msg).value.msgLen == |Stored(msg).value.body| < 0x100_0000
  {
  }

  lemma CutNotEmpty(f: Fragment, offset: nat, len: nat)
    requires offset + len <= |f.body| == f.msgLen < 0x100_0000 && (len > 0 || f.msgLen == 0)
    ensures FragmentItems(Cut(f, offset, len)) != []
  {
    assert |Cut(f, offset, len).body| == len;
  }

  lemma FragmentRecordItems(f: Fragment, rec: Record)
    requires Sendable(f) && rec.ctype == Handshake && rec.plain == Serialize(f)
    ensures RecordItems(rec) == FragmentItems(f)
  {
    ParseSerialize(f, []);
    assert Serialize(f) + [] == Serialize(f);
  }

  /** Moving the cursor inside a message takes the bytes in between off the pending items. */
  lemma PendingSplit(msgs: seq<OutgoingMessage>, written: nat, from: nat, to: nat)
    requires forall i :: 0 <= i < |msgs| ==> WellQueued(msgs[i])
    requires written < |msgs| && !msgs[written].isCcs && from < to < BodyLen(msgs[written])
    ensures FragmentItems(Cut(Stored(msgs[written]).value, from, to - from)) + PendingFrom(msgs, written, to)
         == PendingFrom(msgs, written, from)
  {
    hide Stored, FragmentItems;
    StoredShape(msgs[written]);
    CutItems(Stored(msgs[written]).value, from, to - from);
  }

  /** A packet, finished or thrown away, takes exactly its items off the front of the flight, fits the budget, and seals
      each message under the epoch it was queued in. */
  ghost predicate PacketTakes(s: Sender, s': Sender, xs: seq<SealedRecord>, maxOut: nat)
    requires SenderInv(s) && SenderInv(s')
  {
    && s'.msgs == s.msgs
    && PacketItems(xs) + Pending(s') == Pending(s)
    && PacketLen(xs) <= maxOut
    && (forall i :: 0 <= i < |xs| ==> s.written + i < |s.msgs| && xs[i].rec.epoch == s.msgs[s.written + i].epoch)
  }

  lemma {:induction false} PacketConserves(s: Sender, maxOut: nat, madeProgress: bool)
    requires SenderInv(s)
    ensures var (s', status, xs) := SealPacket(s, maxOut, madeProgress);
            && SenderInv(s') && PacketTakes(s, s', xs, maxOut)
            && (status.PacketReady? && !madeProgress ==> |Pending(s')| < |Pending(s)|)
    decreases |s.msgs| - s.written
  {
    hide SealNextMessage, RecordItems, MessageItems, PendingFrom, SenderInv;
    if s.written < |s.msgs| {
      SealNextConserves(s, maxOut);
      var (s', progress) := SealNextMessage(s, maxOut);
      match progress
      case Whole(x) =>
        PacketConserves(Advance(s'), maxOut - x.Len(), true);
        PacketExtends(s, Advance(s'), x, maxOut);
      case Partial(x) =>
        assert PacketItems([x]) == RecordItems(x.rec);
        assert PacketLen([x]) == x.Len();
      case _ =>
        assert PacketItems([]) + Pending(s') == Pending(s);
    }
  }

  lemma PacketExtends(s: Sender, s1: Sender, x: SealedRecord, maxOut: nat)
    requires SenderInv(s) && SenderInv(s1) && TakesItems(s, s1, x, maxOut) && s1.written == s.written + 1
    requires var (s', status, xs) := SealPacket(s1, maxOut - x.Len(), true);
             SenderInv(s') && PacketTakes(s1, s', xs, maxOut - x.Len())
    ensures var (s', status, xs) := SealPacket(s1, maxOut - x.Len(), true);
            PacketTakes(s, s', [x] + xs, maxOut) && |Pending(s')| < |Pending(s)|
  {
    hide SealNextMessage, SealPacket, RecordItems, MessageItems, PendingFrom, SenderInv;
    var (s', status, xs) := SealPacket(s1, maxOut - x.Len(), true);
    var all := [x] + xs;
    assert all[1..] == xs;
    assert PacketItems(all) == RecordItems(x.rec) + PacketItems(xs);
    assert RecordItems(x.rec) + (PacketItems(xs) + Pending(s')) == PacketItems(all) + Pending(s');
    assert |Pending(s)| == |RecordItems(x.rec)| + |Pending(s1)| && |Pending(s1)| == |PacketItems(xs)| + |Pending(s')|;
    forall i | 0 <= i < |all| ensures s.written + i < |s.msgs| && all[i].rec.epoch == s.msgs[s.written + i].epoch {
      if i > 0 {
        assert all[i] == xs[i - 1];
        assert s1.written + (i - 1) == s.written + i;
      }
    }
  }

  /** What the next message needs at least: one byte of it, its header, and the record's overhead. */
  function LeastRoom(s: Sender): nat
    requires s.written < |s.msgs|
  {
    var msg := s.msgs[s.written];
    (if msg.isCcs then 1 else HEADER_LENGTH + 1) + MaxSealOverhead(s, UsesPrevious(s, msg))
  }

  /** A packet without progress means that not even the least piece of the next message fits. */
  lemma MtuTooSmallExactly(s: Sender, mtu: nat)
    requires SenderInv(s) && s.written < |s.msgs|
    ensures NextPacket(s, mtu).1 == PacketFailed(MtuTooSmall) <==> SealNextMessage(s, mtu).1.NoProgress?
    ensures SealNextMessage(s, mtu).1.NoProgress? ==> mtu < LeastRoom(s)
    ensures mtu < LeastRoom(s) ==> SealNextMessage(s, mtu).1.NoProgress? || SealNextMessage(s, mtu).1.Stuck?
  {
    hide SealNextMessage, SenderInv, LeastRoom;
    NoProgressBound(s, mtu);
    SealNextFrame(s, mtu);
    var (s', progress) := SealNextMessage(s, mtu);
    if progress.Whole? {
      NeverTooSmallLater(s'.(written := s.written + 1),
                         if progress.last.Len() <= mtu then mtu - progress.last.Len() else 0);
    }
  }

  lemma NoProgressBound(s: Sender, mtu: nat)
    requires SenderInv(s) && s.written < |s.msgs|
    ensures SealNextMessage(s, mtu).1.NoProgress? ==> mtu < LeastRoom(s)
    ensures mtu < LeastRoom(s) ==> SealNextMessage(s, mtu).1.NoProgress? || SealNextMessage(s, mtu).1.Stuck?
  {
    hide Stored, Serialize, SealRecord, WellQueued;
  }

  lemma SealNextFrame(s: Sender, maxOut: nat)
    requires s.written < |s.msgs|
    ensures SealNextMessage(s, maxOut).0.msgs == s.msgs && SealNextMessage(s, maxOut).0.written == s.written
    ensures SealNextMessage(s, maxOut).1 != Stuck(MtuTooSmall)
  {
    hide Stored, Serialize, SealRecord;
    var previous := UsesPrevious(s, s.msgs[s.written]);
    if previous || s.msgs[s.written].epoch == s.epoch {
      SealRecordRest(s, previous);
    }
  }

  lemma {:induction false} NeverTooSmallLater(s: Sender, maxOut: nat)
    ensures SealPacket(s, maxOut, true).1 != PacketFailed(MtuTooSmall)
    decreases |s.msgs| - s.written
  {
    hide SealNextMessage;
    if s.written < |s.msgs| {
      SealNextFrame(s, maxOut);
      var (s', progress) := SealNextMessage(s, maxOut);
      if progress.Whole? {
        NeverTooSmallLater(s'.(written := s.written + 1),
                           if progress.last.Len() <= maxOut then maxOut - progress.last.Len() else 0);
      }
    }
  }

  /** The records sealed into the packet a sealing failure hit, which is never handed over. */
  function LostPacket(s: Sender, mtu: nat, bio: seq<int>): seq<SealedRecord>
    decreases |bio|
  {
    if s.written >= |s.msgs| then []
    else
      var (s', status, xs) := NextPacket(s, mtu);
      if status.PacketFailed? then xs
      else if bio == [] || bio[0] <= 0 then []
      else LostPacket(s', mtu, bio[1..])
  }

  /** However a pass is interrupted by the transport, what was handed over and what is left make up what was to send:
      the resumed pass skips nothing and repeats nothing. A sealing failure skips exactly the packet it hit. */
  ghost predicate FlightKeeps(s: Sender, mtu: nat, bio: seq<int>)
    requires SenderInv(s)
  {
    var (s', packets, sealed, res) := SendFlight(s, mtu, bio);
    var lost := LostPacket(s, mtu, bio);
    && SenderInv(s') && s'.msgs == s.msgs
    && PacketsItems(packets) + (PacketItems(lost) + Pending(s')) == Pending(s)
    && (!res.Failed? ==> lost == [])
    && (res.Sent? || res.NotFlushed? ==> PacketsItems(packets) == Pending(s) && s'.written == |s.msgs|)
    && forall p :: p in packets ==> PacketLen(p) <= mtu
  }

  lemma {:induction false} FlightConserves(s: Sender, mtu: nat, bio: seq<int>)
    requires SenderInv(s)
    ensures FlightKeeps(s, mtu, bio)
    decreases |bio|
  {
    hide SealNextMessage, SealPacket, RecordItems, MessageItems, WellQueued, ValidAead;
    if s.written < |s.msgs| {
      PacketConserves(s, mtu, false);
      var (s1, status, xs) := NextPacket(s, mtu);
      if status.PacketReady? && bio != [] && bio[0] > 0 {
        FlightConserves(s1, mtu, bio[1..]);
        var packets := SendFlight(s1, mtu, bio[1..]).1;
        PacketsExtend(xs, packets);
      }
    }
  }

  lemma PacketsExtend(xs: seq<SealedRecord>, packets: seq<seq<SealedRecord>>)
    ensures PacketsItems([xs] + packets) == PacketItems(xs) + PacketsItems(packets)
  {
    assert ([xs] + packets)[1..] == packets;
  }

  // --- When a resumed pass skips something ------------------------------------------------------

  lemma {:induction false} RecordsHaveItems(s: Sender, maxOut: nat, madeProgress: bool)
    requires SenderInv(s)
    ensures var xs := SealPacket(s, maxOut, madeProgress).2; PacketItems(xs) == [] ==> xs == []
    decreases |s.msgs| - s.written
  {
    hide SealNextMessage, RecordItems, PendingFrom, WellQueued, ValidAead;
    if s.written < |s.msgs| {
      SealNextConserves(s, maxOut);
    }
  }

  lemma {:induction false} LostHasItems(s: Sender, mtu: nat, bio: seq<int>)
    requires SenderInv(s)
    ensures PacketItems(LostPacket(s, mtu, bio)) == [] ==> LostPacket(s, mtu, bio) == []
    decreases |bio|
  {
    hide SealPacket, PacketItems, PendingFrom, SenderInv;
    if s.written < |s.msgs| {
      PacketConserves(s, mtu, false);
      RecordsHaveItems(s, mtu, false);
      var (s1, status, xs) := NextPacket(s, mtu);
      if status.PacketReady? && bio != [] && bio[0] > 0 {
        LostHasItems(s1, mtu, bio[1..]);
      }
    }
  }

  /** What was handed over and what is left make up what was to send if and only if no packet of the pass failed after a
      record had been sealed into it. */
  lemma SkipsNothingExactly(s: Sender, mtu: nat, bio: seq<int>)
    requires SenderInv(s)
    ensures var (s', packets, sealed, res) := SendFlight(s, mtu, bio);
            SenderInv(s') && (PacketsItems(packets) + Pending(s') == Pending(s) <==> LostPacket(s, mtu, bio) == [])
  {
    hide SendFlight, PacketItems, PacketsItems, PendingFrom, SenderInv, LostPacket;
    FlightConserves(s, mtu, bio);
    LostHasItems(s, mtu, bio);
    var (s', packets, sealed, res) := SendFlight(s, mtu, bio);
    var handed, lost, left := PacketsItems(packets), PacketItems(LostPacket(s, mtu, bio)), Pending(s');
    assert |handed + (lost + left)| == |handed| + |lost| + |left|;
    if LostPacket(s, mtu, bio) == [] {
      assert lost == [] by { NoItems(); }
      assert lost + left == left;
    }
  }

  lemma NoItems()
    ensures PacketItems([]) == []
  {
  }

  /** A cipher that seals the next `count` records of up to `size` bytes, each short enough for its length field. */
  ghost predicate Seals(a: Aead, number: uint48, count: nat, size: nat) {
    && number + count < SEQ_LIMIT
    && forall n: uint48, t, p :: number <= n < number + count && |p| <= size ==>
         a.seal(n, t, p).Some? && |a.seal(n, t, p).value| < 0x1_0000
  }

  /** What a caller can check before a pass: every queued epoch is still alive, both ciphers work on plaintexts of up to
      `size` bytes, which none of the pass exceeds, and both counters have room for one record per pending item. */
  ghost predicate CanSeal(s: Sender, mtu: nat, size: nat)
    requires SenderInv(s)
  {
    && (forall i :: s.written <= i < |s.msgs| ==> CanSealMessage(s, s.msgs[i], mtu, size))
    && Seals(s.aead, s.seqNum, |Pending(s)|, size)
    && (s.epoch >= 1 ==> Seals(s.lastAead, s.lastSeqNum, |Pending(s)|, size))
  }

  predicate CanSealMessage(s: Sender, msg: OutgoingMessage, mtu: nat, size: nat) {
    && (msg.epoch == s.epoch || UsesPrevious(s, msg))
    && (mtu <= size || HEADER_LENGTH + BodyLen(msg) <= size)
  }

  lemma SealRecordWorks(s: Sender, previous: bool, ctype: ContentType, plain: seq<byte>, count: nat, size: nat)
    requires (previous ==> s.epoch >= 1) && count > 0
    requires Seals(WriteAead(s, previous), WriteNumber(s, previous), count, size)
    requires |plain| <= size
    ensures var (s', res) := SealRecord(s, previous, ctype, plain);
            && res.Sealed? && WriteNumber(s', previous) == WriteNumber(s, previous) + 1
            && WriteNumber(s', !previous) == WriteNumber(s, !previous)
  {
    hide RecordBytes, Seals, TypeCode;
    SealsNext(WriteAead(s, previous), WriteNumber(s, previous), count, size, ctype, plain);
  }

  lemma SealsNext(a: Aead, number: uint48, count: nat, size: nat, ctype: ContentType, plain: seq<byte>)
    requires Seals(a, number, count, size) && count > 0 && |plain| <= size
    ensures number + 1 < SEQ_LIMIT && a.seal(number, ctype, plain).Some?
    ensures |a.seal(number, ctype, plain).value| < 0x1_0000
  {
  }

  /** Under the guard the next message is sealed or does not fit; nothing else can go wrong. */
  lemma SealNextWorks(s: Sender, maxOut: nat, size: nat)
    requires SenderInv(s) && s.written < |s.msgs| && |Pending(s)| > 0
    requires CanSealMessage(s, s.msgs[s.written], maxOut, size)
    requires Seals(s.aead, s.seqNum, |Pending(s)|, size)
    requires s.epoch >= 1 ==> Seals(s.lastAead, s.lastSeqNum, |Pending(s)|, size)
    ensures var (s', progress) := SealNextMessage(s, maxOut);
            && !progress.Stuck?
            && s.seqNum <= s'.seqNum <= s.seqNum + 1 && s.lastSeqNum <= s'.lastSeqNum <= s.lastSeqNum + 1
  {
    hide Seals, SealRecord, Serialize, Parse, PendingFrom;
    var msg := s.msgs[s.written];
    var previous := UsesPrevious(s, msg);
    var overhead := MaxSealOverhead(s, previous);
    if msg.isCcs {
      if maxOut >= 1 + overhead {
        SealRecordWorks(s, previous, ChangeCipherSpec, [1], |Pending(s)|, size);
      }
    } else if maxOut >= HEADER_LENGTH + 1 + overhead {
      var f := Stored(msg).value;
      var rest, room := |f.body| - s.offset, maxOut - HEADER_LENGTH - overhead;
      var todo := if rest > room then room else rest;
      SealRecordWorks(s, previous, Handshake, Serialize(Cut(f, s.offset, todo)), |Pending(s)|, size);
    }
  }

  lemma SealsLess(a: Aead, number: uint48, count: nat, size: nat, number': uint48, count': nat)
    requires Seals(a, number, count, size)
    requires number <= number' && number' + count' <= number + count
    ensures Seals(a, number', count', size)
  {
  }

  /** A packet under the guard fails only where not even its first piece fits, and keeps the guard. */
  lemma {:induction false} PacketWorks(s: Sender, maxOut: nat, madeProgress: bool, mtu: nat, size: nat)
    requires SenderInv(s) && CanSeal(s, mtu, size) && maxOut <= mtu
    ensures var (s', status, xs) := SealPacket(s, maxOut, madeProgress);
            && SenderInv(s') && CanSeal(s', mtu, size)
            && (status.PacketFailed? ==> status.why == MtuTooSmall && xs == [] && !madeProgress)
    decreases |s.msgs| - s.written
  {
    hide SealNextMessage, Seals, RecordItems, PendingFrom, WellQueued, ValidAead;
    if s.written < |s.msgs| {
      SealNextConserves(s, maxOut);
      PendingNotEmpty(s);
      assert CanSealMessage(s, s.msgs[s.written], mtu, size);
      SealNextWorks(s, maxOut, size);
      SealNextKeepsRest(s, maxOut);
      var (s1, progress) := SealNextMessage(s, maxOut);
      if progress.Whole? {
        GuardKept(s, Advance(s1), progress.last, maxOut, mtu, size);
        PacketWorks(Advance(s1), maxOut - progress.last.Len(), true, mtu, size);
      } else if progress.Partial? {
        GuardKept(s, s1, progress.part, maxOut, mtu, size);
      }
    }
  }

  lemma SealNextKeepsRest(s: Sender, maxOut: nat)
    requires s.written < |s.msgs|
    ensures var s' := SealNextMessage(s, maxOut).0;
            s' == s.(offset := s'.offset, seqNum := s'.seqNum, lastSeqNum := s'.lastSeqNum)
  {
    hide Stored, Serialize, SealRecord;
    var msg := s.msgs[s.written];
    var previous := UsesPrevious(s, msg);
    if previous || msg.epoch == s.epoch {
      SealRecordRest(s, previous);
    }
  }

  lemma SealRecordRest(s: Sender, previous: bool)
    requires previous ==> s.epoch >= 1
    ensures forall ctype, plain :: var (s', res) := SealRecord(s, previous, ctype, plain);
              s' == s.(seqNum := s'.seqNum, lastSeqNum := s'.lastSeqNum) && res != SealFailed(MtuTooSmall)
  {
    hide RecordBytes;
  }

  lemma PendingNotEmpty(s: Sender)
    requires SenderInv(s) && s.written < |s.msgs|
    ensures |Pending(s)| > 0
  {
    hide Stored;
    var msg := s.msgs[s.written];
    if !msg.isCcs {
      StoredShape(msg);
      CutNotEmpty(Stored(msg).value, s.offset, BodyLen(msg) - s.offset);
    }
  }

  lemma GuardKept(s: Sender, s': Sender, x: SealedRecord, maxOut: nat, mtu: nat, size: nat)
    requires SenderInv(s) && SenderInv(s') && CanSeal(s, mtu, size) && TakesItems(s, s', x, maxOut)
    requires s' == s.(written := s'.written, offset := s'.offset, seqNum := s'.seqNum, lastSeqNum := s'.lastSeqNum)
    requires s.written <= s'.written
    requires s.seqNum <= s'.seqNum <= s.seqNum + 1 && s.lastSeqNum <= s'.lastSeqNum <= s.lastSeqNum + 1
    ensures CanSeal(s', mtu, size)
  {
    hide Seals, RecordItems, PendingFrom, WellQueued, ValidAead;
    assert |RecordItems(x.rec) + Pending(s')| == |RecordItems(x.rec)| + |Pending(s')|;
    assert forall msg :: CanSealMessage(s, msg, mtu, size) ==> CanSealMessage(s', msg, mtu, size);
    SealsLess(s.aead, s.seqNum, |Pending(s)|, size, s'.seqNum, |Pending(s')|);
    if s.epoch >= 1 {
      SealsLess(s.lastAead, s.lastSeqNum, |Pending(s)|, size, s'.lastSeqNum, |Pending(s')|);
    }
  }

  /** Under the guard no pass fails but for an MTU that is too small, and none loses anything, whatever the transport
      does. */
  lemma {:induction false} GuardedPassSkipsNothing(s: Sender, mtu: nat, size: nat, bio: seq<int>)
    requires SenderInv(s) && CanSeal(s, mtu, size)
    ensures var (s', packets, sealed, res) := SendFlight(s, mtu, bio);
            && (res.Failed? ==> res.why == MtuTooSmall)
            && LostPacket(s, mtu, bio) == []
            && SenderInv(s') && PacketsItems(packets) + Pending(s') == Pending(s)
    decreases |bio|
  {
    hide SealPacket, PacketItems, PacketsItems, PendingFrom, SenderInv, CanSeal;
    SkipsNothingExactly(s, mtu, bio);
    if s.written < |s.msgs| {
      PacketWorks(s, mtu, false, mtu, size);
      var (s1, status, xs) := NextPacket(s, mtu);
      if status.PacketReady? && bio != [] && bio[0] > 0 {
        GuardedPassSkipsNothing(s1, mtu, size, bio[1..]);
      }
    }
  }

  lemma StoredWhole(m: Message, epoch: uint16)
    requires |m.body| < 0x100_0000
    ensures Stored(OutgoingMessage(Raw(m), epoch, false)) == Some(HandshakeFragment.Whole(m))
    ensures Serialize(Cut(HandshakeFragment.Whole(m), 0, |m.body|)) == Raw(m)
  {
    hide Parse, Serialize;
    ParseSerialize(HandshakeFragment.Whole(m), []);
    assert Raw(m) + [] == Raw(m);
    assert Cut(HandshakeFragment.Whole(m), 0, |m.body|) == HandshakeFragment.Whole(m);
  }

  lemma SealsWhole(s: Sender, m: Message, maxOut: nat) returns (s': Sender, x: SealedRecord)
    requires SenderInv(s) && s.written < |s.msgs| && s.offset == 0 && s.epoch >= 1 && |m.body| < 0x100_0000
    requires s.msgs[s.written] == OutgoingMessage(Raw(m), s.epoch - 1, false) && s.lastSeqNum + 1 < SEQ_LIMIT
    requires s.lastAead.seal(s.lastSeqNum, Handshake, Raw(m)).Some?
    requires |Raw(m)| + s.lastAead.maxOverhead < 0x1_0000
    requires maxOut >= |Raw(m)| + 1 + RECORD_HEADER_LENGTH + s.lastAead.maxOverhead
    ensures SealNextMessage(s, maxOut) == (s', Whole(x))
    ensures s' == s.(lastSeqNum := s.lastSeqNum + 1)
    ensures 0 < x.Len() <= |Raw(m)| + RECORD_HEADER_LENGTH + s.lastAead.maxOverhead
  {
    hide Stored, Serialize, RecordBytes, WellQueued;
    StoredWhole(m, s.epoch - 1);
    assert |Raw(m)| == HEADER_LENGTH + |m.body|;
    s' := s.(lastSeqNum := s.lastSeqNum + 1);
    x := SealRecord(s, true, Handshake, Raw(m)).1.value;
  }

  lemma SealsCcs(s: Sender, maxOut: nat) returns (s': Sender, x: SealedRecord)
    requires SenderInv(s) && s.written < |s.msgs| && s.offset == 0 && s.epoch >= 1
    requires s.msgs[s.written] == OutgoingMessage([], s.epoch - 1, true) && s.lastSeqNum + 1 < SEQ_LIMIT
    requires s.lastAead.seal(s.lastSeqNum, ChangeCipherSpec, [1]).Some? && 1 + s.lastAead.maxOverhead < 0x1_0000
    requires maxOut >= 1 + RECORD_HEADER_LENGTH + s.lastAead.maxOverhead
    ensures SealNextMessage(s, maxOut) == (s', Whole(x))
    ensures s' == s.(lastSeqNum := s.lastSeqNum + 1)
    ensures 0 < x.Len() <= 1 + RECORD_HEADER_LENGTH + s.lastAead.maxOverhead
  {
    hide Stored, Serialize, RecordBytes, WellQueued;
    s' := s.(lastSeqNum := s.lastSeqNum + 1);
    x := SealRecord(s, true, ChangeCipherSpec, [1]).1.value;
  }

  lemma RefusesFinished(s: Sender, f: Message, maxOut: nat)
    requires SenderInv(s) && s.written < |s.msgs| && s.offset == 0 && |f.body| < 0x100_0000
    requires s.msgs[s.written] == OutgoingMessage(Raw(f), s.epoch, false)
    requires maxOut >= |Raw(f)| + 1 + RECORD_HEADER_LENGTH + s.aead.maxOverhead
    requires forall p :: s.aead.seal(s.seqNum, Handshake, p).None?
    ensures SealNextMessage(s, maxOut) == (s, Stuck(AeadFailed))
  {
    hide Stored, Serialize, RecordBytes, WellQueued;
    StoredWhole(f, s.epoch);
    assert |Raw(f)| == HEADER_LENGTH + |f.body|;
  }

  /** The flight that ends a handshake: a message and the ChangeCipherSpec of the previous epoch and Finished in the new
      one. If the new cipher refuses Finished, the two records before it, sealed into the same packet, are thrown away
      with it and the resumed pass starts behind them. */
  lemma RefusedFinishedSkips(s: Sender, m: Message, f: Message, mtu: nat, bio: seq<int>)
    requires SenderInv(s) && s.written == 0 && s.offset == 0 && s.epoch >= 1
    requires |m.body| < 0x100_0000 && |f.body| < 0x100_0000
    requires s.msgs == [OutgoingMessage(Raw(m), s.epoch - 1, false), OutgoingMessage([], s.epoch - 1, true),
                        OutgoingMessage(Raw(f), s.epoch, false)]
    requires s.lastSeqNum + 2 < SEQ_LIMIT
    requires var a := s.lastAead;
             && a.seal(s.lastSeqNum, Handshake, Raw(m)).Some? && a.seal(s.lastSeqNum + 1, ChangeCipherSpec, [1]).Some?
             && |Raw(m)| + a.maxOverhead < 0x1_0000
             && mtu >= |Raw(m)| + 1 + 2 * (RECORD_HEADER_LENGTH + a.maxOverhead)
                       + |Raw(f)| + 1 + RECORD_HEADER_LENGTH + s.aead.maxOverhead
    requires forall p :: s.aead.seal(s.seqNum, Handshake, p).None?
    ensures var (s', packets, sealed, res) := SendFlight(s, mtu, bio);
            && res == Failed(AeadFailed) && packets == [] && s'.written == 2
            && SenderInv(s') && Pending(s') != Pending(s) && |LostPacket(s, mtu, bio)| == 2
  {
    hide Serialize, Stored, PendingFrom, SealRecord, WellQueued, ValidAead, SealNextMessage, SealPacket, Parse;
    assert |Raw(m)| == HEADER_LENGTH + |m.body|;
    var s1, x := SealsWhole(s, m, mtu);
    var left := mtu - x.Len();
    var s2, y := SealsCcs(Advance(s1), left);
    RefusesFinished(Advance(s2), f, left - y.Len());
    TwoSealedOneNot(s, s1, x, s2, y, mtu, AeadFailed);
    SkipsNothingExactly(s, mtu, bio);
  }

  /** A packet of which the first two messages are sealed and the third is not. */
  lemma TwoSealedOneNot(s: Sender, s1: Sender, x: SealedRecord, s2: Sender, y: SealedRecord, maxOut: nat, why: Failure)
    requires s.written + 2 < |s.msgs| && s1.msgs == s.msgs == s2.msgs
    requires s1.written == s.written && s2.written == s.written + 1
    requires SealNextMessage(s, maxOut) == (s1, Whole(x)) && x.Len() <= maxOut
    requires SealNextMessage(Advance(s1), maxOut - x.Len()) == (s2, Whole(y)) && x.Len() + y.Len() <= maxOut
    requires SealNextMessage(Advance(s2), maxOut - x.Len() - y.Len()) == (Advance(s2), Stuck(why))
    ensures NextPacket(s, maxOut) == (Advance(s2), PacketFailed(why), [x, y])
  {
    hide SealNextMessage;
    var t1, t2, left := Advance(s1), Advance(s2), maxOut - x.Len();
    assert SealPacket(t2, left - y.Len(), true) == (t2, PacketFailed(why), []);
    assert SealPacket(t1, left, true) == (t2, PacketFailed(why), [y] + []);
    assert [x] + ([y] + []) == [x, y];
  }

  /** Such a flight: an empty message, its ChangeCipherSpec and an empty Finished under a cipher that seals nothing. */
  function RefusedFlight(): Sender {
    var plainText := Aead(0xfeff, 0, 0, (n, t, p) => Some(p));
    var refusing := Aead(0xfefd, 0, 0, (n, t, p) => None);
    Sender([OutgoingMessage(Raw(Message(16, 0, [])), 0, false), OutgoingMessage([], 0, true),
            OutgoingMessage(Raw(Message(20, 1, [])), 1, false)],
           0, 0, true, false, 2, 1, refusing, plainText, 0, 0)
  }

  lemma RefusedFlightIsQueued()
    ensures SenderInv(RefusedFlight())
  {
    hide Stored, Raw;
    StoredWhole(Message(16, 0, []), 0);
    StoredWhole(Message(20, 1, []), 1);
  }

  lemma RefusedFlightSkips()
    ensures var (s', packets, sealed, res) := SendFlight(RefusedFlight(), 1000, []);
            && res == Failed(AeadFailed) && packets == []
            && SenderInv(RefusedFlight()) && SenderInv(s') && Pending(s') != Pending(RefusedFlight())
  {
    hide SendFlight, PendingFrom, SenderInv, Raw;
    RefusedFlightIsQueued();
    RawLength(Message(16, 0, []));
    RawLength(Message(20, 1, []));
    RefusedFinishedSkips(RefusedFlight(), Message(16, 0, []), Message(20, 1, []), 1000, []);
  }

  lemma RawLength(m: Message)
    requires |m.body| < 0x100_0000
    ensures |Raw(m)| == HEADER_LENGTH + |m.body|
  {
  }

  /** Every pass ends: with a transport that takes as many packets as there are items, only a failure stops it early. */
  lemma {:induction false} FlightTerminates(s: Sender, mtu: nat, bio: seq<int>)
    requires SenderInv(s) && |bio| > |Pending(s)| && forall i :: 0 <= i < |bio| ==> bio[i] > 0
    ensures var res := SendFlight(s, mtu, bio).3; res.Sent? || res.Failed?
    decreases |bio|
  {
    hide SealPacket, PacketTakes, SenderInv, PendingFrom;
    if s.written < |s.msgs| {
      PacketConserves(s, mtu, false);
      var (s1, status, xs) := NextPacket(s, mtu);
      if status.PacketReady? {
        FlightTerminates(s1, mtu, bio[1..]);
      }
    }
  }

  lemma CursorInside(s: Sender)
    requires SenderInv(s)
    ensures s.written <= |s.msgs|
  {
  }

  /** The transport has taken every packet handed over and nothing more: a pass stops only at a result of 0 or less, or
      for want of a packet, and it counts as sent only when the flush has a positive result too. */
  lemma {:induction false} AnswersDecide(s: Sender, mtu: nat, bio: seq<int>)
    requires SenderInv(s)
    ensures var (s', packets, _, status) := SendFlight(s, mtu, bio);
            var n := |packets|;
            && n <= |bio| && (forall i :: 0 <= i < n ==> bio[i] > 0)
            && (!status.Failed? ==>
                  if n < |bio| && bio[n] > 0 then s'.written == |s.msgs| && status == Sent
                  else status == if s'.written == |s.msgs| then NotFlushed else Blocked)
    decreases |bio|
  {
    hide SealPacket, Pending, SenderInv;
    CursorInside(s);
    if s.written < |s.msgs| {
      var (s', status, xs) := NextPacket(s, mtu);
      PacketConserves(s, mtu, false);
      if status.PacketReady? && bio != [] && bio[0] > 0 {
        AnswersDecide(s', mtu, bio[1..]);
      }
    }
  }
}
