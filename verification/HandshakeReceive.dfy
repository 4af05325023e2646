/** The receiving half of the DTLS handshake transport as functions on values, and what they promise. */
module HandshakeReceive {
  import opened Bytes
  import opened HandshakeFragment
  import opened Reassembly
  import opened ReplayWindow

  /** The number of messages in the longest handshake flight, and the size of the ring. */
  const MAX_FLIGHT := 7
  const MAX_PLAIN_LENGTH := 16384
  const MAX_WARNING_ALERTS := 4

  datatype ContentType = ApplicationData | ChangeCipherSpec | Handshake | AlertMessage | Other

  /** A record as it is on the wire, with the plaintext its sender sealed. */
  datatype Record = Record(epoch: uint16, seqNum: uint48, ctype: ContentType, plain: seq<byte>)

  /** The alert to answer an error with; a fatal alert of the peer is not answered. */
  datatype Alert = InternalError | IllegalParameter | UnexpectedMessage | DecodeError | RecordOverflow | NoAlert

  datatype Status = Success | Discard | CloseNotify | Error(alert: Alert)

  /** A message under reassembly: the bytes received so far, by position. */
  datatype Slot = Slot(typ: byte, seqNo: uint16, msgLen: uint24, got: map<nat, byte>)

  datatype Receiver = Receiver(
    ring: seq<Option<Slot>>,
    readSeq: uint16,
    hasMessage: bool,
    hasChangeCipherSpec: bool,
    epoch: uint16,
    nullCipher: bool,
    window: Window,
    closed: bool,          // a close_notify has been received
    warnings: byte,        // consecutive warning alerts
    flightSent: bool,      // a flight of our own is out
    hasReply: bool)        // and the peer has answered it

  const INITIAL :=
    Receiver([None, None, None, None, None, None, None], 0, false, false, 0, true, EMPTY, false, 0, false, false)

  predicate IsComplete(s: Slot) {
    s.got.Keys == Range(0, s.msgLen)
  }

  predicate CurrentComplete(r: Receiver)
    requires |r.ring| == MAX_FLIGHT
  {
    var s := r.ring[r.readSeq % MAX_FLIGHT];
    s.Some? && IsComplete(s.value)
  }

  // --- Fragments --------------------------------------------------------------------------------

  function ByteAt(body: seq<byte>, off: nat, p: nat): byte
    requires off <= p < off + |body|
  {
    body[p - off]
  }

  function Piece(off: nat, body: seq<byte>): map<nat, byte> {
    map p | p in Range(off, off + |body|) :: ByteAt(body, off, p)
  }

  function Fill(s: Slot, off: nat, body: seq<byte>): Slot {
    s.(got := s.got + Piece(off, body))
  }

  function OpenFragment(r: Receiver, f: Fragment, maxLen: nat): (Receiver, Status)
    requires |r.ring| == MAX_FLIGHT
  {
    if f.off > f.msgLen || f.off + |f.body| > f.msgLen || f.msgLen > maxLen then
      (r, Error(IllegalParameter))
    else if r.epoch == 1 && f.seqNo != r.readSeq then
      // The encrypted epoch has only one handshake message.
      (r, Error(UnexpectedMessage))
    else if f.seqNo < r.readSeq || f.seqNo > r.readSeq + MAX_FLIGHT then
      // From the past, or too far in the future.
      (r, Success)
    else if f.seqNo - r.readSeq >= MAX_FLIGHT then
      // One past the ring: let through by the test above, refused by the lookup.
      (r, Error(InternalError))
    else
      var idx := f.seqNo % MAX_FLIGHT;
      if r.ring[idx].Some? && (r.ring[idx].value.typ != f.typ || r.ring[idx].value.msgLen != f.msgLen) then
        (r, Error(IllegalParameter))
      else
        var s := if r.ring[idx].Some? then r.ring[idx].value else Slot(f.typ, f.seqNo, f.msgLen, map[]);
        var s' := if IsComplete(s) then s else Fill(s, f.off, f.body);
        (r.(ring := r.ring[idx := Some(s')]), Success)
  }

  /** All fragments of a handshake record; those before a bad one have already taken effect. */
  function OpenFragments(r: Receiver, data: seq<byte>, maxLen: nat): (res: (Receiver, Status))
    requires |r.ring| == MAX_FLIGHT
    ensures |res.0.ring| == MAX_FLIGHT
    decreases |data|
  {
    if data == [] then (r, Success)
    else
      match Parse(data)
      case None => (r, Error(DecodeError))
      case Some((f, rest)) =>
        var (r', status) := OpenFragment(r, f, maxLen);
        if status.Success? then OpenFragments(r', rest, maxLen) else (r', status)
  }

  // --- Records ----------------------------------------------------------------------------------

  /** An alert, for versions below TLS 1.3: a close_notify, a warning that counts, or an error. */
  function ProcessAlert(r: Receiver, plain: seq<byte>): (Receiver, Status) {
    if |plain| != 2 then (r, Error(DecodeError))
    else if plain[0] == 1 then
      if plain[1] == 0 then (r.(closed := true), CloseNotify)
      else
        var r' := r.(warnings := (r.warnings + 1) % 0x100);
        (r', if r'.warnings > MAX_WARNING_ALERTS then Error(UnexpectedMessage) else Discard)
    else (r, Error(if plain[0] == 2 then NoAlert else IllegalParameter))
  }

  /** Epoch and replay checks, decryption and the length check, then alerts. `opens` says that header, version and AEAD
      accept the record; a record that any of them refuses is discarded like one from another epoch. */
  function OpenRecord(r: Receiver, rec: Record, opens: bool): (Receiver, Status) {
    var s := SequenceU64(rec.epoch, rec.seqNum);
    if r.closed then
      (r, CloseNotify)
    else if rec.epoch != r.epoch || ShouldDiscard(r.window, s) || !opens then
      (r, Discard)
    else if |rec.plain| > MAX_PLAIN_LENGTH then
      (r, Error(RecordOverflow))
    else
      var r' := r.(window := ReplayWindow.Record(r.window, s));
      if rec.ctype == AlertMessage then ProcessAlert(r', rec.plain) else (r'.(warnings := 0), Success)
  }

  /** Whether the record's number is recorded in the window. */
  predicate Accepts(r: Receiver, rec: Record, opens: bool) {
    && !r.closed && opens && rec.epoch == r.epoch && |rec.plain| <= MAX_PLAIN_LENGTH
    && !ShouldDiscard(r.window, SequenceU64(rec.epoch, rec.seqNum))
  }

  function OpenHandshake(r: Receiver, rec: Record, opens: bool, maxLen: nat): (res: (Receiver, Status))
    requires |r.ring| == MAX_FLIGHT
    ensures |res.0.ring| == MAX_FLIGHT
  {
    var (r', status) := OpenRecord(r, rec, opens);
    if !status.Success? then (r', status) else Dispatch(r', rec, maxLen)
  }

  /** What an accepted record is for. */
  function Dispatch(r: Receiver, rec: Record, maxLen: nat): (res: (Receiver, Status))
    requires |r.ring| == MAX_FLIGHT
    ensures |res.0.ring| == MAX_FLIGHT
  {
    match rec.ctype
    case ApplicationData => (r, if r.nullCipher then Error(UnexpectedMessage) else Discard)
    case ChangeCipherSpec =>
      if !r.nullCipher then (r, Error(UnexpectedMessage))
      else if rec.plain != [1] then (r, Error(IllegalParameter))
      else (r.(hasChangeCipherSpec := true), Success)
    case Handshake => OpenFragments(r, rec.plain, maxLen)
    case _ => (r, Error(UnexpectedMessage))
  }

  // --- Messages ---------------------------------------------------------------------------------

  /** The reassembled message with its header, as handed to the handshake. */
  function Assembled(s: Slot): (raw: seq<byte>)
    requires IsComplete(s)
  {
    Header(s.typ, s.msgLen, s.seqNo, 0, s.msgLen) + seq(s.msgLen, k requires 0 <= k < s.msgLen => s.got[k])
  }

  function GetMessage(r: Receiver): (Receiver, Option<seq<byte>>)
    requires |r.ring| == MAX_FLIGHT
  {
    if !CurrentComplete(r) then (r, None)
    else (r.(hasMessage := true), Some(Assembled(r.ring[r.readSeq % MAX_FLIGHT].value)))
  }

  function NextMessage(r: Receiver): Receiver
    requires |r.ring| == MAX_FLIGHT
  {
    r.(ring := r.ring[r.readSeq % MAX_FLIGHT := None],
       readSeq := (r.readSeq + 1) % 0x1_0000,
       hasMessage := false,
       hasReply := r.hasReply || r.flightSent)
  }

  predicate HasUnprocessedData(r: Receiver)
    requires |r.ring| == MAX_FLIGHT
  {
    || r.hasChangeCipherSpec
    || exists i :: 0 <= i < MAX_FLIGHT && r.ring[i].Some? && !(r.hasMessage && i == r.readSeq % MAX_FLIGHT)
  }

  /** Cipher changes are forbidden while the current epoch has leftover data. */
  function SetReadState(r: Receiver): (Receiver, bool)
    requires |r.ring| == MAX_FLIGHT
  {
    if HasUnprocessedData(r) then (r, false)
    else (r.(epoch := (r.epoch + 1) % 0x1_0000, window := EMPTY, nullCipher := false), true)
  }

  function TakeChangeCipherSpec(r: Receiver): (Receiver, bool) {
    (r.(hasChangeCipherSpec := false), r.hasChangeCipherSpec)
  }

  // --- The ring invariant -----------------------------------------------------------------------

  /** A slot in use holds a message of the window, at the index its number selects, with bytes inside the message. */
  ghost predicate SlotInv(s: Slot, readSeq: uint16, idx: nat) {
    && s.seqNo % MAX_FLIGHT == idx
    && readSeq <= s.seqNo < readSeq + MAX_FLIGHT
    && s.got.Keys <= Range(0, s.msgLen)
  }

  ghost predicate RingInv(r: Receiver) {
    && |r.ring| == MAX_FLIGHT
    && (forall i :: 0 <= i < MAX_FLIGHT && r.ring[i].Some? ==> SlotInv(r.ring[i].value, r.readSeq, i))
    && (r.hasMessage ==> CurrentComplete(r))
  }

  /** Two message numbers of one window never share a slot. */
  lemma WindowIndexUnique(readSeq: uint16, a: uint16, b: uint16)
    requires readSeq <= a < readSeq + MAX_FLIGHT && readSeq <= b < readSeq + MAX_FLIGHT
    requires a % MAX_FLIGHT == b % MAX_FLIGHT
    ensures a == b
  {
  }

  lemma FillKeepsSlot(s: Slot, readSeq: uint16, idx: nat, off: nat, body: seq<byte>)
    requires SlotInv(s, readSeq, idx) && off + |body| <= s.msgLen
    ensures SlotInv(Fill(s, off, body), readSeq, idx)
  {
    assert Piece(off, body).Keys == Range(off, off + |body|);
  }

  /** Storing a valid slot, the same one where it was complete, keeps the ring. */
  lemma StoreKeepsRing(r: Receiver, idx: nat, s: Slot)
    requires RingInv(r) && idx < MAX_FLIGHT && SlotInv(s, r.readSeq, idx)
    requires r.ring[idx].Some? && IsComplete(r.ring[idx].value) ==> s == r.ring[idx].value
    ensures RingInv(r.(ring := r.ring[idx := Some(s)]))
  {
    hide SlotInv, IsComplete;
  }

  lemma FragmentKeepsRing(r: Receiver, f: Fragment, maxLen: nat)
    requires RingInv(r)
    ensures var (r', status) := OpenFragment(r, f, maxLen);
            RingInv(r') && r' == r.(ring := r'.ring) && (!status.Success? ==> r' == r)
  {
    hide Fill, IsComplete, SlotInv;
    var (r', status) := OpenFragment(r, f, maxLen);
    if r' != r {
      var idx := f.seqNo % MAX_FLIGHT;
      var s := if r.ring[idx].Some? then r.ring[idx].value else Slot(f.typ, f.seqNo, f.msgLen, map[]);
      SlotFits(r, f, s);
      FillKeepsSlot(s, r.readSeq, idx, f.off, f.body);
      StoreKeepsRing(r, idx, if IsComplete(s) then s else Fill(s, f.off, f.body));
    }
  }

  lemma SlotFits(r: Receiver, f: Fragment, s: Slot)
    requires RingInv(r) && r.readSeq <= f.seqNo < r.readSeq + MAX_FLIGHT
    requires s == if r.ring[f.seqNo % MAX_FLIGHT].Some? then r.ring[f.seqNo % MAX_FLIGHT].value
                  else Slot(f.typ, f.seqNo, f.msgLen, map[])
    ensures SlotInv(s, r.readSeq, f.seqNo % MAX_FLIGHT)
  {
    var nothing: map<nat, byte> := map[];
    assert nothing.Keys == {};
  }

  lemma {:induction false} FragmentsKeepRing(r: Receiver, data: seq<byte>, maxLen: nat)
    requires RingInv(r)
    ensures var r' := OpenFragments(r, data, maxLen).0;
            RingInv(r') && r' == r.(ring := r'.ring)
    decreases |data|
  {
    if data != [] && Parse(data).Some? {
      var (f, rest) := Parse(data).value;
      FragmentKeepsRing(r, f, maxLen);
      if OpenFragment(r, f, maxLen).1.Success? {
        FragmentsKeepRing(OpenFragment(r, f, maxLen).0, rest, maxLen);
      }
    }
  }

  /** Opening a record touches nothing but the window, the alert count and the shutdown flag. */
  lemma OpenRecordFrame(r: Receiver, rec: Record, opens: bool)
    ensures var r' := OpenRecord(r, rec, opens).0;
            r' == r.(window := r'.window, closed := r'.closed, warnings := r'.warnings)
  {
    hide ShouldDiscard, ReplayWindow.Record;
  }

  /** The window moves with the accepted records and with nothing else. */
  lemma WindowAfter(r: Receiver, rec: Record, opens: bool, maxLen: nat)
    requires RingInv(r)
    ensures var r' := OpenHandshake(r, rec, opens, maxLen).0;
            && r'.epoch == r.epoch
            && r'.window == if Accepts(r, rec, opens)
                            then ReplayWindow.Record(r.window, SequenceU64(rec.epoch, rec.seqNum)) else r.window
  {
    hide ShouldDiscard, ReplayWindow.Record, OpenFragments, SlotInv, IsComplete;
    var (r', status) := OpenRecord(r, rec, opens);
    if status.Success? && rec.ctype == Handshake {
      FragmentsKeepRing(r', rec.plain, maxLen);
    }
  }

  /** No record, well-formed or not, breaks the ring. */
  lemma RecordKeepsRing(r: Receiver, rec: Record, opens: bool, maxLen: nat)
    requires RingInv(r)
    ensures RingInv(OpenHandshake(r, rec, opens, maxLen).0)
    ensures OpenHandshake(r, rec, opens, maxLen).0.readSeq == r.readSeq
  {
    hide OpenRecord, OpenFragments;
    OpenRecordFrame(r, rec, opens);
    var (r', status) := OpenRecord(r, rec, opens);
    if status.Success? && rec.ctype == Handshake {
      FragmentsKeepRing(r', rec.plain, maxLen);
    }
  }

  lemma GetKeepsRing(r: Receiver)
    requires RingInv(r)
    ensures RingInv(GetMessage(r).0) && GetMessage(r).0.hasMessage == (r.hasMessage || CurrentComplete(r))
  {
  }

  /** Advancing the window keeps every remaining slot at its index, also when the 16-bit number wraps to 0. */
  lemma NextKeepsRing(r: Receiver)
    requires RingInv(r) && r.hasMessage
    ensures RingInv(NextMessage(r)) && CurrentComplete(r)
    ensures r.readSeq == 0xffff ==> forall i :: 0 <= i < MAX_FLIGHT ==> NextMessage(r).ring[i].None?
  {
    var r' := NextMessage(r);
    forall i | 0 <= i < MAX_FLIGHT && r'.ring[i].Some?
      ensures SlotInv(r'.ring[i].value, r'.readSeq, i) && r.readSeq != 0xffff
    {
      assert SlotInv(r.ring[i].value, r.readSeq, i);
    }
  }

  /** After a change of read epoch nothing received under the old one is left but the current message. */
  lemma SetReadStateKeepsRing(r: Receiver)
    requires RingInv(r)
    ensures var (r', ok) := SetReadState(r);
            && RingInv(r')
            && (ok ==> forall i :: 0 <= i < MAX_FLIGHT && r'.ring[i].Some? ==>
                         r'.hasMessage && i == r'.readSeq % MAX_FLIGHT)
            && (ok ==> !r'.hasChangeCipherSpec && r'.window == EMPTY)
            && (!ok ==> r' == r)
  {
  }

  /** The two window tests together: exactly one number past the window is fatal, the rest are ignored. */
  lemma OutsideWindow(r: Receiver, f: Fragment, maxLen: nat)
    requires RingInv(r) && r.epoch != 1 && f.off + |f.body| <= f.msgLen <= maxLen
    requires f.seqNo < r.readSeq || f.seqNo >= r.readSeq + MAX_FLIGHT
    ensures OpenFragment(r, f, maxLen).0 == r
    ensures OpenFragment(r, f, maxLen).1 == if f.seqNo == r.readSeq + MAX_FLIGHT then Error(InternalError) else Success
  {
  }

  // --- Every run --------------------------------------------------------------------------------

  /** What can happen to a receiver: any record, forged ones included, and the calls of the handshake above it. */
  datatype Input =
    | Arrives(rec: Record, opens: bool, maxLen: nat)
    | Takes
    | Advances
    | ReadsChangeCipherSpec
    | ChangesReadKeys
    | SendsFlight(out: bool)

  function React(r: Receiver, a: Input): (r': Receiver)
    requires |r.ring| == MAX_FLIGHT
    ensures |r'.ring| == MAX_FLIGHT
  {
    match a
    case Arrives(rec, opens, maxLen) => OpenHandshake(r, rec, opens, maxLen).0
    case Takes => GetMessage(r).0
    case Advances => NextMessage(r)
    case ReadsChangeCipherSpec => TakeChangeCipherSpec(r).0
    case ChangesReadKeys => SetReadState(r).0
    case SendsFlight(out) => r.(flightSent := out, hasReply := false)
  }

  /** The states of a receiver from the start. The handshake advances only past a message it has been given. */
  ghost predicate IsReceiverRun(states: seq<Receiver>, inputs: seq<Input>) {
    && |states| == |inputs| + 1 && states[0] == INITIAL
    && forall i :: 0 <= i < |inputs| ==> Reacts(states[i], inputs[i], states[i + 1])
  }

  ghost predicate Reacts(r: Receiver, a: Input, r': Receiver) {
    |r.ring| == MAX_FLIGHT && (a.Advances? ==> r.hasMessage) && r' == React(r, a)
  }

  /** What the code asserts: a slot found for a number holds that number, and a message whose mask is still there is not
      empty; a message marked as handed out is complete, also when the window moves and when leftover data is looked
      for. */
  ghost predicate AssertsHold(r: Receiver) {
    && |r.ring| == MAX_FLIGHT
    && (forall n: uint16 :: r.readSeq <= n < r.readSeq + MAX_FLIGHT && r.ring[n % MAX_FLIGHT].Some? ==>
          r.ring[n % MAX_FLIGHT].value.seqNo == n)
    && (forall i :: 0 <= i < MAX_FLIGHT && r.ring[i].Some? && !IsComplete(r.ring[i].value) ==>
          r.ring[i].value.msgLen > 0)
    && (r.hasMessage ==> CurrentComplete(r))
  }

  lemma RingGivesAsserts(r: Receiver)
    requires RingInv(r)
    ensures AssertsHold(r)
  {
    forall n: uint16 | r.readSeq <= n < r.readSeq + MAX_FLIGHT && r.ring[n % MAX_FLIGHT].Some?
      ensures r.ring[n % MAX_FLIGHT].value.seqNo == n
    {
      WindowIndexUnique(r.readSeq, n, r.ring[n % MAX_FLIGHT].value.seqNo);
    }
    forall i | 0 <= i < MAX_FLIGHT && r.ring[i].Some? && r.ring[i].value.msgLen == 0
      ensures IsComplete(r.ring[i].value)
    {
      assert SlotInv(r.ring[i].value, r.readSeq, i);
      assert r.ring[i].value.got.Keys <= Range(0, 0) == {};
    }
  }

  /** A fragment that is stored finds, or leaves, a slot of its own type, number and length. */
  lemma StoredInItsSlot(r: Receiver, f: Fragment, maxLen: nat)
    requires RingInv(r) && OpenFragment(r, f, maxLen).1.Success? && r.readSeq <= f.seqNo < r.readSeq + MAX_FLIGHT
    ensures var slot := OpenFragment(r, f, maxLen).0.ring[f.seqNo % MAX_FLIGHT];
            slot.Some? && slot.value.typ == f.typ && slot.value.seqNo == f.seqNo && slot.value.msgLen == f.msgLen
  {
    RingGivesAsserts(r);
  }

  /** In every state of every run the ring is in order and the code's assertions hold, whatever arrived, also past
      message number 0xffff. */
  lemma {:induction false} RingInEveryRun(states: seq<Receiver>, inputs: seq<Input>, i: nat)
    requires IsReceiverRun(states, inputs) && i < |states|
    ensures RingInv(states[i]) && AssertsHold(states[i])
    decreases i
  {
    hide RingInv, AssertsHold, React;
    if i == 0 {
      StartKeepsRing();
    } else {
      RingInEveryRun(states, inputs, i - 1);
      assert Reacts(states[i - 1], inputs[i - 1], states[i - 1 + 1]);
      ReactKeepsRing(states[i - 1], inputs[i - 1]);
    }
    RingGivesAsserts(states[i]);
  }

  lemma StartKeepsRing()
    ensures RingInv(INITIAL)
  {
  }

  lemma ReactKeepsRing(r: Receiver, a: Input)
    requires RingInv(r) && (a.Advances? ==> r.hasMessage)
    ensures RingInv(React(r, a))
  {
    hide OpenHandshake, GetMessage, NextMessage, SetReadState, IsComplete, SlotInv;
    match a
    case Arrives(rec, opens, maxLen) => RecordKeepsRing(r, rec, opens, maxLen);
    case Takes => GetKeepsRing(r);
    case Advances => NextKeepsRing(r);
    case ReadsChangeCipherSpec =>
    case ChangesReadKeys => SetReadStateKeepsRing(r);
    case SendsFlight(_) =>
  }

  // --- Reassembly of honest fragments -----------------------------------------------------------

  /** The messages of a handshake, numbered from 0. */
  ghost predicate Numbered(msgs: seq<Message>) {
    && |msgs| <= 0x1_0000
    && forall i :: 0 <= i < |msgs| ==> msgs[i].seqNo == i && |msgs[i].body| < 0x100_0000
  }

  ghost predicate Honest(f: Fragment, msgs: seq<Message>) {
    f.seqNo < |msgs| && IsPieceOf(f, msgs[f.seqNo])
  }

  /** The slot of a message of which exactly the positions in `got` have been received. */
  ghost function SlotFor(m: Message, got: set<nat>): Slot
    requires got <= Range(0, |m.body|) && |m.body| < 0x100_0000
  {
    Slot(m.typ, m.seqNo, |m.body|, map p | p in got :: m.body[p])
  }

  /** Every slot in use holds bytes of the message it stands for. */
  ghost predicate Faithful(r: Receiver, msgs: seq<Message>)
    requires Numbered(msgs)
  {
    && RingInv(r)
    && forall i :: 0 <= i < MAX_FLIGHT && r.ring[i].Some? ==> FaithfulSlot(r.ring[i].value, msgs)
  }

  ghost predicate FaithfulSlot(s: Slot, msgs: seq<Message>)
    requires Numbered(msgs)
  {
    && s.seqNo < |msgs|
    && s.got.Keys <= Range(0, |msgs[s.seqNo].body|)
    && s == SlotFor(msgs[s.seqNo], s.got.Keys)
  }

  lemma FillIsFaithful(m: Message, got: set<nat>, f: Fragment)
    requires |m.body| < 0x100_0000 && got <= Range(0, |m.body|) && IsPieceOf(f, m)
    ensures Range(f.off, f.off + |f.body|) <= Range(0, |m.body|)
    ensures Fill(SlotFor(m, got), f.off, f.body) == SlotFor(m, got + Range(f.off, f.off + |f.body|))
  {
    var s := Fill(SlotFor(m, got), f.off, f.body);
    var t := SlotFor(m, got + Range(f.off, f.off + |f.body|));
    assert s.got.Keys == t.got.Keys;
    forall p | p in s.got.Keys ensures s.got[p] == t.got[p] {
    }
    assert s.got == t.got;
  }

  /** The positions received so far of the message a slot stands for. */
  ghost function Keys(slot: Option<Slot>): set<nat> {
    if slot.Some? then slot.value.got.Keys else {}
  }

  ghost function FragmentRange(f: Fragment): set<nat> {
    Range(f.off, f.off + |f.body|)
  }

  lemma HonestSlot(m: Message, slot: Option<Slot>, f: Fragment)
    requires |m.body| < 0x100_0000 && IsPieceOf(f, m)
    requires Keys(slot) <= Range(0, |m.body|) && (slot.Some? ==> slot.value == SlotFor(m, Keys(slot)))
    ensures Keys(slot) + FragmentRange(f) <= Range(0, |m.body|)
    ensures var s := if slot.Some? then slot.value else Slot(f.typ, f.seqNo, f.msgLen, map[]);
            (if IsComplete(s) then s else Fill(s, f.off, f.body)) == SlotFor(m, Keys(slot) + FragmentRange(f))
  {
    if slot.None? {
      assert Slot(f.typ, f.seqNo, f.msgLen, map[]) == SlotFor(m, {});
    }
    FillIsFaithful(m, Keys(slot), f);
    if IsComplete(SlotFor(m, Keys(slot))) {
      assert Keys(slot) + FragmentRange(f) == Keys(slot);
    }
  }

  /** The effect of an honest fragment of the window: its positions, and no others, are added to its slot. */
  lemma HonestFragment(r: Receiver, f: Fragment, msgs: seq<Message>, maxLen: nat)
    requires Numbered(msgs) && Faithful(r, msgs) && InWindow(f, r, msgs, maxLen)
    ensures var idx := f.seqNo % MAX_FLIGHT;
            var got := Keys(r.ring[idx]) + FragmentRange(f);
            && got <= Range(0, |msgs[f.seqNo].body|)
            && OpenFragment(r, f, maxLen) ==
               (r.(ring := r.ring[idx := Some(SlotFor(msgs[f.seqNo], got))]), Success)
  {
    var idx := f.seqNo % MAX_FLIGHT;
    SlotOfNumber(r, f.seqNo, msgs);
    HonestSlot(msgs[f.seqNo], r.ring[idx], f);
  }

  lemma HonestFragmentFaithful(r: Receiver, f: Fragment, msgs: seq<Message>, maxLen: nat)
    requires Numbered(msgs) && Faithful(r, msgs) && InWindow(f, r, msgs, maxLen)
    ensures Faithful(OpenFragment(r, f, maxLen).0, msgs)
  {
    HonestFragment(r, f, msgs, maxLen);
    FragmentKeepsRing(r, f, maxLen);
    var r' := OpenFragment(r, f, maxLen).0;
    forall i | 0 <= i < MAX_FLIGHT && r'.ring[i].Some? ensures FaithfulSlot(r'.ring[i].value, msgs) {
      if i != f.seqNo % MAX_FLIGHT {
        assert FaithfulSlot(r.ring[i].value, msgs);
      }
    }
  }

  /** An honest fragment leaves the receiver faithful wherever it falls, error or not. */
  lemma HonestKeepsFaithful(r: Receiver, f: Fragment, msgs: seq<Message>, maxLen: nat)
    requires Numbered(msgs) && Faithful(r, msgs) && Honest(f, msgs)
    ensures Faithful(OpenFragment(r, f, maxLen).0, msgs)
  {
    if InWindow(f, r, msgs, maxLen) {
      HonestFragmentFaithful(r, f, msgs, maxLen);
    }
  }

  /** Fragments in the order they arrive. */
  function OpenEach(r: Receiver, fs: seq<Fragment>, maxLen: nat): (res: (Receiver, Status))
    requires |r.ring| == MAX_FLIGHT
    ensures |res.0.ring| == MAX_FLIGHT
    decreases |fs|
  {
    if fs == [] then (r, Success)
    else
      var (r', status) := OpenFragment(r, fs[0], maxLen);
      if status.Success? then OpenEach(r', fs[1..], maxLen) else (r', status)
  }

  ghost predicate InWindow(f: Fragment, r: Receiver, msgs: seq<Message>, maxLen: nat) {
    && Honest(f, msgs) && f.msgLen <= maxLen
    && r.readSeq <= f.seqNo < r.readSeq + MAX_FLIGHT
    && (r.epoch == 1 ==> f.seqNo == r.readSeq)
  }

  /** Position p of message `seqNo` is covered by some fragment. */
  ghost predicate Covers(fs: set<Fragment>, seqNo: uint16, p: nat) {
    exists f :: f in fs && f.seqNo == seqNo && p in FragmentRange(f)
  }

  ghost predicate Mentions(fs: set<Fragment>, seqNo: uint16) {
    exists f :: f in fs && f.seqNo == seqNo
  }

  ghost function Elements(fs: seq<Fragment>): set<Fragment> {
    set f | f in fs
  }

  /** What slot `idx` holds after a set of fragments, in whatever order they came: the message, if any fragment or an
      earlier one mentioned it, with exactly the positions covered before or by the set. */
  ghost predicate SlotAfter(before: Option<Slot>, after: Option<Slot>, seqNo: uint16, fs: set<Fragment>,
                            msgs: seq<Message>)
    requires Numbered(msgs)
  {
    && (after.Some? <==> before.Some? || Mentions(fs, seqNo))
    && (after.Some? ==>
          && after.value.seqNo == seqNo && FaithfulSlot(after.value, msgs)
          && forall p: nat :: p in after.value.got.Keys <==>
                                (before.Some? && p in before.value.got.Keys) || Covers(fs, seqNo, p))
  }

  lemma {:induction false} OpenEachExactly(r: Receiver, fs: seq<Fragment>, msgs: seq<Message>, maxLen: nat)
    requires Numbered(msgs) && Faithful(r, msgs)
    requires forall f :: f in fs ==> InWindow(f, r, msgs, maxLen)
    ensures var (r', status) := OpenEach(r, fs, maxLen);
            && status.Success? && r' == r.(ring := r'.ring) && Faithful(r', msgs)
            && forall n: uint16 :: r.readSeq <= n < r.readSeq + MAX_FLIGHT ==>
                 SlotAfter(r.ring[n % MAX_FLIGHT], r'.ring[n % MAX_FLIGHT], n, Elements(fs), msgs)
    decreases |fs|
  {
    if fs == [] {
      forall n: uint16 | r.readSeq <= n < r.readSeq + MAX_FLIGHT
        ensures SlotAfter(r.ring[n % MAX_FLIGHT], r.ring[n % MAX_FLIGHT], n, Elements(fs), msgs)
      {
        SlotOfNumber(r, n, msgs);
      }
    } else {
      assert fs[0] in fs;
      HonestFragment(r, fs[0], msgs, maxLen);
      HonestFragmentFaithful(r, fs[0], msgs, maxLen);
      var r1 := OpenFragment(r, fs[0], maxLen).0;
      forall f | f in fs[1..] ensures InWindow(f, r1, msgs, maxLen) {
        assert InWindow(f, r, msgs, maxLen);
      }
      OpenEachExactly(r1, fs[1..], msgs, maxLen);
      var r' := OpenEach(r, fs, maxLen).0;
      forall n: uint16 | r.readSeq <= n < r.readSeq + MAX_FLIGHT
        ensures SlotAfter(r.ring[n % MAX_FLIGHT], r'.ring[n % MAX_FLIGHT], n, Elements(fs), msgs)
      {
        SlotOfNumber(r, n, msgs);
        SlotAfterFirst(r, fs, n, msgs, maxLen, r'.ring[n % MAX_FLIGHT]);
      }
    }
  }

  /** The slot a number of the window selects holds that number. */
  lemma SlotOfNumber(r: Receiver, n: uint16, msgs: seq<Message>)
    requires Numbered(msgs) && Faithful(r, msgs) && r.readSeq <= n < r.readSeq + MAX_FLIGHT
    ensures r.ring[n % MAX_FLIGHT].Some? ==>
              r.ring[n % MAX_FLIGHT].value.seqNo == n && FaithfulSlot(r.ring[n % MAX_FLIGHT].value, msgs)
  {
    if r.ring[n % MAX_FLIGHT].Some? {
      WindowIndexUnique(r.readSeq, n, r.ring[n % MAX_FLIGHT].value.seqNo);
    }
  }

  lemma SlotAfterFirst(r: Receiver, fs: seq<Fragment>, n: uint16, msgs: seq<Message>, maxLen: nat, after: Option<Slot>)
    requires Numbered(msgs) && Faithful(r, msgs) && fs != [] && InWindow(fs[0], r, msgs, maxLen)
    requires r.readSeq <= n < r.readSeq + MAX_FLIGHT
    requires SlotAfter(OpenFragment(r, fs[0], maxLen).0.ring[n % MAX_FLIGHT], after, n, Elements(fs[1..]), msgs)
    ensures SlotAfter(r.ring[n % MAX_FLIGHT], after, n, Elements(fs), msgs)
  {
    var f := fs[0];
    HonestFragment(r, f, msgs, maxLen);
    CoversFirst(fs, n);
    if n % MAX_FLIGHT == f.seqNo % MAX_FLIGHT {
      WindowIndexUnique(r.readSeq, n, f.seqNo);
    }
  }

  lemma CoversFirst(fs: seq<Fragment>, n: uint16)
    requires fs != []
    ensures Mentions(Elements(fs), n) <==> fs[0].seqNo == n || Mentions(Elements(fs[1..]), n)
    ensures forall p: nat :: Covers(Elements(fs), n, p) <==>
                             (fs[0].seqNo == n && p in FragmentRange(fs[0])) || Covers(Elements(fs[1..]), n, p)
  {
    assert fs == [fs[0]] + fs[1..];
    assert Elements(fs) == {fs[0]} + Elements(fs[1..]);
    assert fs[0] in Elements(fs);
  }

  /** Order and duplication of fragments make no difference. */
  lemma OrderIrrelevant(r: Receiver, fs: seq<Fragment>, gs: seq<Fragment>, msgs: seq<Message>, maxLen: nat)
    requires Numbered(msgs) && Faithful(r, msgs)
    requires forall f :: f in fs ==> InWindow(f, r, msgs, maxLen)
    requires Elements(fs) == Elements(gs)
    ensures OpenEach(r, fs, maxLen) == OpenEach(r, gs, maxLen)
  {
    forall f | f in gs ensures InWindow(f, r, msgs, maxLen) {
      assert f in Elements(gs);
    }
    OpenEachExactly(r, fs, msgs, maxLen);
    OpenEachExactly(r, gs, msgs, maxLen);
    var a, b := OpenEach(r, fs, maxLen).0, OpenEach(r, gs, maxLen).0;
    forall i | 0 <= i < MAX_FLIGHT ensures a.ring[i] == b.ring[i] {
      SameSlot(r, a, b, i, Elements(fs), msgs);
    }
    assert a.ring == b.ring;
  }

  lemma SameSlot(r: Receiver, a: Receiver, b: Receiver, i: nat, fs: set<Fragment>, msgs: seq<Message>)
    requires Numbered(msgs) && Faithful(r, msgs) && i < MAX_FLIGHT
    requires Faithful(a, msgs) && Faithful(b, msgs) && a.readSeq == r.readSeq == b.readSeq
    requires forall n: uint16 :: r.readSeq <= n < r.readSeq + MAX_FLIGHT ==>
               && SlotAfter(r.ring[n % MAX_FLIGHT], a.ring[n % MAX_FLIGHT], n, fs, msgs)
               && SlotAfter(r.ring[n % MAX_FLIGHT], b.ring[n % MAX_FLIGHT], n, fs, msgs)
    ensures a.ring[i] == b.ring[i]
  {
    if a.ring[i].Some? || b.ring[i].Some? {
      var n := if a.ring[i].Some? then a.ring[i].value.seqNo else b.ring[i].value.seqNo;
      assert SlotAfter(r.ring[n % MAX_FLIGHT], a.ring[n % MAX_FLIGHT], n, fs, msgs);
      assert SlotAfter(r.ring[n % MAX_FLIGHT], b.ring[n % MAX_FLIGHT], n, fs, msgs);
      assert a.ring[i].value.got.Keys == b.ring[i].value.got.Keys;
    }
  }

  /** The current message is complete exactly when every byte of it has been covered, and then it is the sender's. */
  lemma CompleteIffCovered(r: Receiver, fs: seq<Fragment>, msgs: seq<Message>, maxLen: nat)
    requires Numbered(msgs) && Faithful(r, msgs)
    requires forall f :: f in fs ==> InWindow(f, r, msgs, maxLen)
    requires r.readSeq < |msgs|
    ensures var r' := OpenEach(r, fs, maxLen).0;
            var m, slot := msgs[r.readSeq], r.ring[r.readSeq % MAX_FLIGHT];
            && (CurrentComplete(r') <==>
                  && (slot.Some? || Mentions(Elements(fs), r.readSeq))
                  && forall p: nat :: p < |m.body| ==> p in Keys(slot) || Covers(Elements(fs), r.readSeq, p))
            && (CurrentComplete(r') ==> GetMessage(r').1 == Some(Raw(m)))
  {
    OpenEachExactly(r, fs, msgs, maxLen);
    var r' := OpenEach(r, fs, maxLen).0;
    var n := r.readSeq;
    assert SlotAfter(r.ring[n % MAX_FLIGHT], r'.ring[n % MAX_FLIGHT], n, Elements(fs), msgs);
    if r'.ring[n % MAX_FLIGHT].Some? {
      var got := r'.ring[n % MAX_FLIGHT].value.got.Keys;
      assert got == Range(0, |msgs[n].body|) <==> forall p: nat :: p < |msgs[n].body| ==> p in got;
    }
    if CurrentComplete(r') {
      AssembledIsRaw(r'.ring[n % MAX_FLIGHT].value, msgs);
    }
  }

  function SerializeAll(fs: seq<Fragment>): seq<byte>
    requires forall f :: f in fs ==> |f.body| < 0x100_0000
  {
    if fs == [] then [] else Serialize(fs[0]) + SerializeAll(fs[1..])
  }

  /** A record that carries several fragments has the effect of the fragments one after the other. */
  lemma {:induction false} RecordOfFragments(r: Receiver, fs: seq<Fragment>, maxLen: nat)
    requires |r.ring| == MAX_FLIGHT
    requires forall f :: f in fs ==> |f.body| < 0x100_0000
    ensures OpenFragments(r, SerializeAll(fs), maxLen) == OpenEach(r, fs, maxLen)
    decreases |fs|
  {
    if fs != [] {
      assert fs[0] in fs;
      ParseSerialize(fs[0], SerializeAll(fs[1..]));
      var (r', status) := OpenFragment(r, fs[0], maxLen);
      RecordOfFragments(r', fs[1..], maxLen);
    }
  }

  /** The fragment lies within its message, and that within the limit. */
  ghost predicate InBounds(f: Fragment, maxLen: nat) {
    f.off + |f.body| <= f.msgLen <= maxLen
  }

  /** The ring holds a message of the same number that is another one. */
  ghost predicate Clashes(r: Receiver, f: Fragment) {
    exists i :: 0 <= i < |r.ring| && r.ring[i].Some? && r.ring[i].value.seqNo == f.seqNo
                && (r.ring[i].value.typ != f.typ || r.ring[i].value.msgLen != f.msgLen)
  }

  /** Every fragment, whoever made it: which alert answers it, and when it is accepted. */
  lemma FragmentAnswered(r: Receiver, f: Fragment, maxLen: nat)
    requires RingInv(r)
    ensures OpenFragment(r, f, maxLen).1 ==
            if !InBounds(f, maxLen) then Error(IllegalParameter)
            else if r.epoch == 1 && f.seqNo != r.readSeq then Error(UnexpectedMessage)
            else if f.seqNo == r.readSeq + 7 then Error(InternalError)
            else if r.readSeq <= f.seqNo < r.readSeq + 7 && Clashes(r, f) then Error(IllegalParameter)
            else Success
  {
    hide IsComplete, Fill;
    if r.readSeq <= f.seqNo < r.readSeq + MAX_FLIGHT {
      var idx := f.seqNo % MAX_FLIGHT;
      if r.ring[idx].Some? {
        WindowIndexUnique(r.readSeq, f.seqNo, r.ring[idx].value.seqNo);
      }
      if Clashes(r, f) {
        var i :| 0 <= i < |r.ring| && r.ring[i].Some? && r.ring[i].value.seqNo == f.seqNo
                 && (r.ring[i].value.typ != f.typ || r.ring[i].value.msgLen != f.msgLen);
        assert SlotInv(r.ring[i].value, r.readSeq, i) && i == idx;
      }
    }
  }

  /** Any bytes are fragments one after the other, and then nothing or the beginning of none. */
  lemma {:induction false} AnyRecordBody(data: seq<byte>) returns (fs: seq<Fragment>, junk: seq<byte>)
    ensures forall f :: f in fs ==> |f.body| < 0x100_0000
    ensures data == SerializeAll(fs) + junk && (junk != [] ==> Parse(junk).None?)
    decreases |data|
  {
    if data == [] || Parse(data).None? {
      fs, junk := [], data;
    } else {
      SerializeParse(data);
      var (f, rest) := Parse(data).value;
      fs, junk := AnyRecordBody(rest);
      assert ([f] + fs)[1..] == fs;
      assert Serialize(f) + (SerializeAll(fs) + junk) == Serialize(f) + SerializeAll(fs) + junk;
      fs := [f] + fs;
    }
  }

  lemma SevenSlots(r: Receiver, f: Fragment, maxLen: nat)
    requires |r.ring| == MAX_FLIGHT
    ensures |OpenFragment(r, f, maxLen).0.ring| == MAX_FLIGHT
  {
  }

  /** A record that breaks off within a fragment is an error, but what came before it has taken effect. */
  lemma {:induction false} RecordBreaksOff(r: Receiver, fs: seq<Fragment>, junk: seq<byte>, maxLen: nat)
    requires |r.ring| == MAX_FLIGHT && junk != [] && Parse(junk).None?
    requires forall f :: f in fs ==> |f.body| < 0x100_0000
    ensures var (r', status) := OpenEach(r, fs, maxLen);
            OpenFragments(r, SerializeAll(fs) + junk, maxLen)
            == (r', if status.Success? then Error(DecodeError) else status)
    decreases |fs|
  {
    hide OpenFragment, Parse, Serialize;
    if fs == [] {
      assert SerializeAll(fs) + junk == junk;
    } else {
      assert fs[0] in fs;
      var tail := SerializeAll(fs[1..]) + junk;
      assert SerializeAll(fs) + junk == Serialize(fs[0]) + tail;
      ParseSerialize(fs[0], tail);
      var (r', status) := OpenFragment(r, fs[0], maxLen);
      SevenSlots(r, fs[0], maxLen);
      RecordBreaksOff(r', fs[1..], junk, maxLen);
    }
  }

  lemma AssembledIsRaw(s: Slot, msgs: seq<Message>)
    requires Numbered(msgs) && FaithfulSlot(s, msgs) && IsComplete(s)
    ensures Assembled(s) == Raw(msgs[s.seqNo])
  {
    var m := msgs[s.seqNo];
    assert seq(s.msgLen, k requires 0 <= k < s.msgLen => s.got[k]) == m.body;
  }
}
