/** Sender, network and receiver together: what every run of the DTLS handshake transport keeps. */
module HandshakeTransport {
  import opened Bytes
  import opened HandshakeFragment
  import opened Reassembly
  import opened HandshakeReceive
  import opened HandshakeArrivals
  import opened HandshakeSend
  import ReplayWindow

  /** `transcript` is what the sender hashed, `log` every record it ever sealed, `seen` the numbers accepted in the
      current read epoch, and `consumed` the raw messages the receiving handshake has taken, oldest first. The
      network is the log: any record of it may arrive at any time, any number of times or never. */
  datatype System = System(
    sender: Sender,
    transcript: seq<Message>,
    log: seq<Record>,
    wrapped: bool,
    receiver: Receiver,
    seen: set<uint64>,
    consumed: seq<seq<byte>>)

  datatype Action =
    | Send(typ: byte, body: seq<byte>)
    | SendChangeCipherSpec
    | ChangeWriteKeys(aead: Aead)
    | Packet(maxOut: nat, accepted: bool)
    | MarkComplete
    | Retransmit
    | ClearFlight
    | SealData(ctype: ContentType, plain: seq<byte>)
    | Arrive(rec: Record, opens: bool, maxLen: nat)
    | Get
    | Next
    | ReadChangeCipherSpec
    | ChangeReadKeys

  function Start(nullCipher: Aead): System {
    System(Sender([], 0, 0, false, false, 0, 0, nullCipher, nullCipher, 0, 0), [], [], false, INITIAL, {}, [])
  }

  function Records(xs: seq<SealedRecord>): (r: seq<Record>)
    ensures |r| == |xs| && forall i :: 0 <= i < |xs| ==> r[i] == xs[i].rec
  {
    seq(|xs|, i requires 0 <= i < |xs| => xs[i].rec)
  }

  /** When a step may be taken. Write epochs have 16 bits; once a record number has wrapped around, the failure has been
      reported and nothing more is sealed. */
  ghost predicate Enabled(s: System, a: Action) {
    match a
    case Send(_, body) => |body| < 0x100_0000
    case ChangeWriteKeys(aead) => ValidAead(aead) && s.sender.epoch + 1 < 0x1_0000
    case Packet(_, _) => !s.wrapped && s.sender.written < |s.sender.msgs|
    case SealData(ctype, _) => !s.wrapped && ctype != Handshake && ctype != ChangeCipherSpec
    case Arrive(rec, _, _) => rec in s.log
    case Next => s.receiver.hasMessage
    case _ => true
  }

  function Step(s: System, a: Action): System
    requires |s.receiver.ring| == MAX_FLIGHT
    requires a.Send? ==> |a.body| < 0x100_0000
  {
    match a
    case Send(typ, body) =>
      var m := Message(typ, s.sender.writeSeq, body);
      var (sender, ok) := AddOutgoing(s.sender, false, Raw(m));
      if ok then s.(sender := sender, transcript := s.transcript + [m]) else s.(sender := sender)
    case SendChangeCipherSpec =>
      s.(sender := AddOutgoing(s.sender, true, []).0)
    case ChangeWriteKeys(aead) =>
      s.(sender := SetWriteState(s.sender, aead))
    case Packet(maxOut, accepted) =>
      var (sender, status, xs) := NextPacket(s.sender, maxOut);
      var restored := if status.PacketReady? && !accepted
                      then sender.(written := s.sender.written, offset := s.sender.offset) else sender;
      s.(sender := restored, log := s.log + Records(xs),
         wrapped := status == PacketFailed(SequenceWrapped))
    case MarkComplete => s.(sender := s.sender.(complete := true))
    case Retransmit => s.(sender := Rewind(s.sender))
    case ClearFlight => s.(sender := ClearOutgoing(s.sender))
    case SealData(ctype, plain) =>
      var (sender, res) := SealRecord(s.sender, false, ctype, plain);
      s.(sender := sender, log := s.log + (if res.Sealed? then [res.value.rec] else []),
         wrapped := res == SealFailed(SequenceWrapped))
    case Arrive(rec, opens, maxLen) =>
      s.(receiver := OpenHandshake(s.receiver, rec, opens, maxLen).0,
         seen := if Accepts(s.receiver, rec, opens) then s.seen + {Number(rec)} else s.seen)
    case Get =>
      s.(receiver := GetMessage(s.receiver).0)
    case Next =>
      var raw := GetMessage(s.receiver).1;
      s.(receiver := NextMessage(s.receiver), consumed := s.consumed + (if raw.Some? then [raw.value] else []))
    case ReadChangeCipherSpec => s.(receiver := TakeChangeCipherSpec(s.receiver).0)
    case ChangeReadKeys =>
      var (receiver, ok) := SetReadState(s.receiver);
      s.(receiver := receiver, seen := if ok then {} else s.seen)
  }

  // --- What every step keeps --------------------------------------------------------------------

  ghost predicate HonestQueue(msgs: seq<OutgoingMessage>, transcript: seq<Message>)
    requires Numbered(transcript)
  {
    forall i :: 0 <= i < |msgs| && !msgs[i].isCcs ==> HonestStored(msgs[i], transcript)
  }

  ghost predicate HonestStored(msg: OutgoingMessage, transcript: seq<Message>)
    requires Numbered(transcript)
  {
    var f := Stored(msg);
    f.Some? && f.value.seqNo < |transcript| && f.value == HandshakeFragment.Whole(transcript[f.value.seqNo])
  }

  ghost predicate ContentInv(s: System) {
    && Numbered(s.transcript) && |s.transcript| < 0x1_0000 && s.sender.writeSeq == |s.transcript|
    && SenderInv(s.sender) && HonestQueue(s.sender.msgs, s.transcript)
    && (forall rec :: rec in s.log ==> HonestRecord(rec, s.transcript))
    && Faithful(s.receiver, s.transcript)
    && s.receiver.readSeq == |s.consumed| <= |s.transcript|
    && (forall i :: 0 <= i < |s.consumed| ==> s.consumed[i] == Raw(s.transcript[i]))
  }

  /** The records sealed so far: none of a later epoch, those of the two live epochs below their counters, no two with
      the same epoch and number. */
  ghost predicate NumberInv(s: System) {
    && (!s.wrapped ==> forall rec :: rec in s.log ==> Below(rec, s.sender))
    && UniqueNumbers(s.log)
  }

  ghost predicate Below(rec: Record, sender: Sender) {
    && rec.epoch <= sender.epoch
    && (rec.epoch == sender.epoch ==> rec.seqNum < sender.seqNum)
    && (sender.epoch >= 1 && rec.epoch == sender.epoch - 1 ==> rec.seqNum < sender.lastSeqNum)
  }

  ghost predicate UniqueNumbers(log: seq<Record>) {
    forall i, j :: 0 <= i < j < |log| ==> log[i].epoch != log[j].epoch || log[i].seqNum != log[j].seqNum
  }

  // --- Content ----------------------------------------------------------------------------------

  lemma CutIsPiece(m: Message, offset: nat, len: nat)
    requires |m.body| < 0x100_0000 && offset + len <= |m.body|
    ensures IsPieceOf(Cut(HandshakeFragment.Whole(m), offset, len), m)
  {
  }

  ghost predicate SealsHonest(s: Sender, maxOut: nat, transcript: seq<Message>)
    requires s.written < |s.msgs|
  {
    match SealNextMessage(s, maxOut).1
    case Partial(x) => HonestRecord(x.rec, transcript)
    case Whole(x) => HonestRecord(x.rec, transcript)
    case _ => true
  }

  lemma SealNextHonest(s: Sender, maxOut: nat, transcript: seq<Message>)
    requires SenderInv(s) && s.written < |s.msgs| && Numbered(transcript) && HonestQueue(s.msgs, transcript)
    ensures SealsHonest(s, maxOut, transcript)
  {
    var msg := s.msgs[s.written];
    if msg.isCcs {
      hide Stored, SealRecord, ValidAead;
      if UsesPrevious(s, msg) || msg.epoch == s.epoch {
        SealRecordFrame(s, UsesPrevious(s, msg), ChangeCipherSpec, [1]);
      }
    } else {
      hide SealNextMessage, Stored;
      SealFragmentHonest(s, maxOut, transcript);
    }
  }

  lemma SealFragmentHonest(s: Sender, maxOut: nat, transcript: seq<Message>)
    requires SenderInv(s) && s.written < |s.msgs| && Numbered(transcript) && HonestQueue(s.msgs, transcript)
    requires !s.msgs[s.written].isCcs
    ensures SealsHonest(s, maxOut, transcript)
  {
    hide SealNextMessage, Parse, Serialize, Stored, IsPieceOf;
    SealNextFragment(s, maxOut);
    assert HonestStored(s.msgs[s.written], transcript);
    var f := Stored(s.msgs[s.written]).value;
    var (s', progress) := SealNextMessage(s, maxOut);
    if progress.Partial? || progress.Whole? {
      var len := if progress.Partial? then s'.offset - s.offset else |f.body| - s.offset;
      CutIsPiece(transcript[f.seqNo], s.offset, len);
      ParseSerialize(Cut(f, s.offset, len), []);
      assert Serialize(Cut(f, s.offset, len)) + [] == Serialize(Cut(f, s.offset, len));
    }
  }

  lemma {:induction false} PacketHonest(s: Sender, maxOut: nat, madeProgress: bool, transcript: seq<Message>)
    requires SenderInv(s) && Numbered(transcript) && HonestQueue(s.msgs, transcript)
    ensures forall x :: x in SealPacket(s, maxOut, madeProgress).2 ==> HonestRecord(x.rec, transcript)
    decreases |s.msgs| - s.written
  {
    hide SealNextMessage, HonestRecord, HonestStored, PendingFrom, RecordItems, WellQueued;
    if s.written < |s.msgs| {
      SealNextHonest(s, maxOut, transcript);
      SealNextConserves(s, maxOut);
      var (s', progress) := SealNextMessage(s, maxOut);
      if progress.Whole? {
        var left := if progress.last.Len() <= maxOut then maxOut - progress.last.Len() else 0;
        PacketHonest(Advance(s'), left, true, transcript);
      }
    }
  }

  /** A longer transcript vouches for everything a shorter one did. */
  lemma MoreTranscript(s: System, m: Message)
    requires ContentInv(s) && m.seqNo == |s.transcript| && |m.body| < 0x100_0000 && |s.transcript| + 1 < 0x1_0000
    ensures var longer := s.transcript + [m];
            && Numbered(longer) && HonestQueue(s.sender.msgs, longer)
            && (forall rec :: rec in s.log ==> HonestRecord(rec, longer))
            && Faithful(s.receiver, longer)
            && (forall i :: 0 <= i < |s.consumed| ==> s.consumed[i] == Raw(longer[i]))
  {
    hide Stored, Parse, Raw;
    var longer := s.transcript + [m];
    assert forall i :: 0 <= i < |s.transcript| ==> longer[i] == s.transcript[i];
    forall i | 0 <= i < |s.sender.msgs| && !s.sender.msgs[i].isCcs ensures HonestStored(s.sender.msgs[i], longer) {
      assert HonestStored(s.sender.msgs[i], s.transcript);
    }
    forall i | 0 <= i < MAX_FLIGHT && s.receiver.ring[i].Some? ensures FaithfulSlot(s.receiver.ring[i].value, longer) {
      assert FaithfulSlot(s.receiver.ring[i].value, s.transcript);
    }
  }

  lemma SendKeepsContent(s: System, typ: byte, body: seq<byte>)
    requires ContentInv(s) && |body| < 0x100_0000 && |Step(s, Send(typ, body)).transcript| < 0x1_0000
    ensures ContentInv(Step(s, Send(typ, body)))
  {
    hide Stored, Parse, Serialize, HonestRecord, Faithful;
    var m := Message(typ, s.sender.writeSeq, body);
    var (sender, ok) := AddOutgoing(s.sender, false, Raw(m));
    if ok {
      MoreTranscript(s, m);
      StoredWhole(m, sender.msgs[|sender.msgs| - 1].epoch);
      assert HonestStored(sender.msgs[|sender.msgs| - 1], s.transcript + [m]);
      forall i | 0 <= i < |sender.msgs| && !sender.msgs[i].isCcs
        ensures HonestStored(sender.msgs[i], s.transcript + [m])
      {
        if i < |sender.msgs| - 1 {
          assert HonestStored(s.sender.msgs[i], s.transcript + [m]);
        }
      }
    }
  }

  lemma PacketKeepsContent(s: System, maxOut: nat, accepted: bool)
    requires ContentInv(s)
    ensures ContentInv(Step(s, Packet(maxOut, accepted)))
  {
    hide SealPacket, HonestRecord, HonestStored, Faithful, Raw, WellQueued, PendingFrom, PacketItems, ValidAead;
    PacketHonest(s.sender, maxOut, false, s.transcript);
    PacketConserves(s.sender, maxOut, false);
    PacketFrame(s.sender, maxOut, false);
    var xs := NextPacket(s.sender, maxOut).2;
    forall rec | rec in s.log + Records(xs) ensures HonestRecord(rec, s.transcript) {
      if rec !in s.log {
        var i :| 0 <= i < |xs| && xs[i].rec == rec;
        assert xs[i] in xs;
      }
    }
  }

  /** Sealing packets touches only the cursor and the sequence numbers. */
  lemma {:induction false} PacketFrame(s: Sender, maxOut: nat, madeProgress: bool)
    requires SenderInv(s)
    ensures var s' := SealPacket(s, maxOut, madeProgress).0;
            s' == s.(written := s'.written, offset := s'.offset, seqNum := s'.seqNum, lastSeqNum := s'.lastSeqNum)
    decreases |s.msgs| - s.written
  {
    hide SealNextMessage, WellQueued, ValidAead, PendingFrom;
    if s.written < |s.msgs| {
      SealNextConserves(s, maxOut);
      SealNextKeepsRest(s, maxOut);
      var (s', progress) := SealNextMessage(s, maxOut);
      if progress.Whole? {
        PacketFrame(Advance(s'), if progress.last.Len() <= maxOut then maxOut - progress.last.Len() else 0, true);
      }
    }
  }

  lemma NextKeepsContent(s: System)
    requires ContentInv(s) && s.receiver.hasMessage
    ensures ContentInv(Step(s, Next))
    ensures GetMessage(s.receiver).1 == Some(Raw(s.transcript[|s.consumed|]))
  {
    hide Stored, HonestRecord, HonestStored, Raw, Assembled;
    var r := s.receiver;
    NextKeepsRing(r);
    var slot := r.ring[r.readSeq % MAX_FLIGHT].value;
    SlotOfNumber(r, r.readSeq, s.transcript);
    AssembledIsRaw(slot, s.transcript);
    var r' := NextMessage(r);
    forall i | 0 <= i < MAX_FLIGHT && r'.ring[i].Some? ensures FaithfulSlot(r'.ring[i].value, s.transcript) {
      assert FaithfulSlot(r.ring[i].value, s.transcript);
    }
  }

  lemma StepKeepsContent(s: System, a: Action)
    requires ContentInv(s) && Enabled(s, a) && |Step(s, a).transcript| < 0x1_0000
    ensures ContentInv(Step(s, a))
  {
    match a
    case Send(typ, body) => SendKeepsContent(s, typ, body);
    case Packet(maxOut, accepted) => PacketKeepsContent(s, maxOut, accepted);
    case Arrive(rec, opens, maxLen) =>
      hide OpenHandshake, Stored, Raw, HonestRecord, HonestStored, Faithful;
      ArriveKeepsFaithful(s.receiver, rec, opens, maxLen, s.transcript);
    case Next => NextKeepsContent(s);
    case SealData(ctype, plain) => DataKeepsContent(s, ctype, plain);
    case _ => OtherKeepsContent(s, a);
  }

  lemma DataKeepsContent(s: System, ctype: ContentType, plain: seq<byte>)
    requires ContentInv(s) && ctype != Handshake && ctype != ChangeCipherSpec
    ensures ContentInv(Step(s, SealData(ctype, plain)))
  {
    hide Stored, Raw, Faithful, HonestStored, ValidAead, SealRecord;
    SealRecordFrame(s.sender, false, ctype, plain);
  }

  /** Steps after which the transcript, the log and what has been taken are as before. */
  lemma OtherKeepsContent(s: System, a: Action)
    requires ContentInv(s) && Enabled(s, a)
    requires !a.Send? && !a.Packet? && !a.Arrive? && !a.Next? && !a.SealData?
    ensures ContentInv(Step(s, a))
  {
    hide Stored, Raw, HonestRecord, FaithfulSlot;
  }

  // --- Numbers ----------------------------------------------------------------------------------

  /** Sealing one record: the new record continues the numbering of its epoch. */
  lemma SealRecordNumbers(s: Sender, previous: bool, ctype: ContentType, plain: seq<byte>, log: seq<Record>)
    requires previous ==> s.epoch >= 1
    requires UniqueNumbers(log) && forall rec :: rec in log ==> Below(rec, s)
    ensures var (s', res) := SealRecord(s, previous, ctype, plain);
            && (res != SealFailed(SequenceWrapped) ==> forall rec :: rec in log ==> Below(rec, s'))
            && (res.Sealed? ==> Below(res.value.rec, s') && UniqueNumbers(log + [res.value.rec]))
  {
    hide RecordBytes;
    var (s', res) := SealRecord(s, previous, ctype, plain);
    if res.Sealed? {
      var rec := res.value.rec;
      forall i | 0 <= i < |log| ensures log[i].epoch != rec.epoch || log[i].seqNum != rec.seqNum {
        assert Below(log[i], s);
      }
    }
  }

  ghost predicate Continues(log: seq<Record>, s': Sender, xs: seq<SealedRecord>, wrapped: bool) {
    && UniqueNumbers(log + Records(xs))
    && (!wrapped ==> forall rec :: rec in log + Records(xs) ==> Below(rec, s'))
  }

  lemma SealNextNumbers(s: Sender, maxOut: nat, log: seq<Record>)
    requires s.written < |s.msgs| && UniqueNumbers(log) && forall rec :: rec in log ==> Below(rec, s)
    ensures var (s', progress) := SealNextMessage(s, maxOut);
            match progress
            case Partial(x) => UniqueNumbers(log + [x.rec]) && forall rec :: rec in log + [x.rec] ==> Below(rec, s')
            case Whole(x) => UniqueNumbers(log + [x.rec]) && forall rec :: rec in log + [x.rec] ==> Below(rec, s')
            case NoProgress => s' == s
            case Stuck(why) => why != SequenceWrapped ==> forall rec :: rec in log ==> Below(rec, s')
  {
    hide Stored, Serialize, SealRecord, UniqueNumbers;
    var msg := s.msgs[s.written];
    var previous := UsesPrevious(s, msg);
    SealRecordNumbers(s, previous, ChangeCipherSpec, [1], log);
    if Stored(msg).Some? {
      var f := Stored(msg).value;
      var overhead := MaxSealOverhead(s, previous);
      if s.offset <= |f.body| && |f.body| < 0x100_0000 && maxOut >= HEADER_LENGTH + 1 + overhead {
        var rest, room := |f.body| - s.offset, maxOut - HEADER_LENGTH - overhead;
        var todo := if rest > room then room else rest;
        SealRecordNumbers(s, previous, Handshake, Serialize(Cut(f, s.offset, todo)), log);
      }
      StoredShape(msg);
    }
  }

  lemma BelowAdvanced(log: seq<Record>, s: Sender)
    requires forall rec :: rec in log ==> Below(rec, s)
    ensures forall rec :: rec in log ==> Below(rec, Advance(s))
  {
  }

  lemma {:induction false} PacketNumbers(s: Sender, maxOut: nat, madeProgress: bool, log: seq<Record>)
    requires UniqueNumbers(log) && forall rec :: rec in log ==> Below(rec, s)
    ensures var (s', status, xs) := SealPacket(s, maxOut, madeProgress);
            Continues(log, s', xs, status == PacketFailed(SequenceWrapped))
    decreases |s.msgs| - s.written
  {
    hide SealNextMessage, UniqueNumbers, Below;
    var (s', status, xs) := SealPacket(s, maxOut, madeProgress);
    assert log + Records([]) == log;
    if s.written < |s.msgs| {
      SealNextNumbers(s, maxOut, log);
      SealNextFrame(s, maxOut);
      var (s1, progress) := SealNextMessage(s, maxOut);
      if progress.Whole? {
        var x := progress.last;
        var left := if x.Len() <= maxOut then maxOut - x.Len() else 0;
        BelowAdvanced(log + [x.rec], s1);
        PacketNumbers(Advance(s1), left, true, log + [x.rec]);
        var ys := SealPacket(Advance(s1), left, true).2;
        assert log + [x.rec] + Records(ys) == log + Records([x] + ys);
      } else if progress.Partial? {
        assert Records([progress.part]) == [progress.part.rec];
      }
    }
  }

  lemma StepKeepsNumbers(s: System, a: Action)
    requires NumberInv(s) && Enabled(s, a) && |s.receiver.ring| == MAX_FLIGHT
    ensures NumberInv(Step(s, a))
  {
    match a
    case Packet(maxOut, accepted) =>
      hide SealPacket, UniqueNumbers;
      PacketNumbers(s.sender, maxOut, false, s.log);
    case SealData(ctype, plain) =>
      hide SealRecord, UniqueNumbers;
      SealRecordNumbers(s.sender, false, ctype, plain, s.log);
      assert s.log + [] == s.log;
    case ChangeWriteKeys(aead) =>
      hide UniqueNumbers, ValidAead;
      forall rec | rec in s.log && !s.wrapped ensures Below(rec, SetWriteState(s.sender, aead)) {
        assert Below(rec, s.sender);
      }
    case Send(typ, body) =>
      hide UniqueNumbers, Raw;
      assert forall rec :: Below(rec, s.sender) ==> Below(rec, Step(s, a).sender);
    case _ =>
      hide OpenHandshake, UniqueNumbers, Raw, GetMessage;
      assert forall rec :: Below(rec, s.sender) ==> Below(rec, Step(s, a).sender);
  }

  // --- The read window --------------------------------------------------------------------------

  /** The window stands for the accepted numbers of the read epoch, and every one of them is the sender's. */
  ghost predicate WindowInv(s: System) {
    && ReplayWindow.Represents(s.receiver.window, s.seen)
    && forall number :: number in s.seen ==> WasSealed(number, s.log, s.receiver.epoch)
  }

  ghost predicate WasSealed(number: uint64, log: seq<Record>, epoch: uint16) {
    exists rec :: rec in log && rec.epoch == epoch && Number(rec) == number
  }

  lemma StepKeepsWindow(s: System, a: Action)
    requires WindowInv(s) && Enabled(s, a) && RingInv(s.receiver)
    ensures WindowInv(Step(s, a))
  {
    hide ReplayWindow.Represents, Raw, OpenHandshake, GetMessage, SlotInv, IsComplete, ReplayWindow.Record;
    hide ReplayWindow.ShouldDiscard, SealPacket, SealRecord;
    match a
    case Arrive(rec, opens, maxLen) =>
      WindowAfter(s.receiver, rec, opens, maxLen);
      ReplayWindow.RecordRepresents(s.receiver.window, s.seen, Number(rec));
    case ChangeReadKeys =>
      ReplayWindow.EmptyRepresents();
    case Get => GetKeepsWindow(s.receiver);
    case Packet(_, _) => MoreSealed(s, Step(s, a));
    case SealData(_, _) => MoreSealed(s, Step(s, a));
    case _ =>
  }

  lemma GetKeepsWindow(r: Receiver)
    requires |r.ring| == MAX_FLIGHT
    ensures GetMessage(r).0.window == r.window && GetMessage(r).0.epoch == r.epoch
  {
    hide Assembled;
  }

  lemma MoreSealed(s: System, s': System)
    requires WindowInv(s) && s'.receiver == s.receiver && s'.seen == s.seen && s.log <= s'.log
    ensures WindowInv(s')
  {
    hide ReplayWindow.Represents;
    forall number | number in s'.seen ensures WasSealed(number, s'.log, s'.receiver.epoch) {
      assert WasSealed(number, s.log, s.receiver.epoch);
      var rec :| rec in s.log && rec.epoch == s.receiver.epoch && Number(rec) == number;
      assert rec in s'.log;
    }
  }

  // --- Runs -------------------------------------------------------------------------------------

  /** `trace` is a run: it starts fresh and every state follows from the one before by an enabled step. */
  ghost predicate IsRun(trace: seq<System>, actions: seq<Action>, nullCipher: Aead) {
    && ValidAead(nullCipher)
    && |trace| == |actions| + 1 && trace[0] == Start(nullCipher)
    && forall i :: 0 <= i < |actions| ==> StepsTo(trace[i], actions[i], trace[i + 1])
  }

  ghost predicate StepsTo(s: System, a: Action, s': System) {
    |s.receiver.ring| == MAX_FLIGHT && Enabled(s, a) && s' == Step(s, a)
  }

  /** However many messages there are. */
  lemma {:induction false} RunNumbers(trace: seq<System>, actions: seq<Action>, nullCipher: Aead, i: nat)
    requires IsRun(trace, actions, nullCipher) && i < |trace|
    ensures RingInv(trace[i].receiver) && NumberInv(trace[i]) && WindowInv(trace[i])
  {
    hide RingInv, NumberInv, WindowInv, ContentInv, Step, Enabled;
    if i == 0 {
      StartInv(nullCipher);
    } else {
      RunNumbers(trace, actions, nullCipher, i - 1);
      assert StepsTo(trace[i - 1], actions[i - 1], trace[i - 1 + 1]);
      StepKeepsRing(trace[i - 1], actions[i - 1]);
      StepKeepsNumbers(trace[i - 1], actions[i - 1]);
      StepKeepsWindow(trace[i - 1], actions[i - 1]);
    }
  }

  lemma StepKeepsRing(s: System, a: Action)
    requires RingInv(s.receiver) && Enabled(s, a)
    ensures RingInv(Step(s, a).receiver)
  {
    hide Raw, OpenHandshake, GetMessage, NextMessage, SetReadState, SlotInv, IsComplete, SealPacket, SealRecord;
    match a {
      case Arrive(rec, opens, maxLen) => RecordKeepsRing(s.receiver, rec, opens, maxLen);
      case Get => GetKeepsRing(s.receiver);
      case Next => NextKeepsRing(s.receiver);
      case ChangeReadKeys => SetReadStateKeepsRing(s.receiver);
      case _ =>
    }
  }

  /** While message numbers last. */
  lemma {:induction false} RunInv(trace: seq<System>, actions: seq<Action>, nullCipher: Aead, i: nat)
    requires IsRun(trace, actions, nullCipher) && i < |trace| && |trace[i].transcript| < 0x1_0000
    ensures ContentInv(trace[i]) && NumberInv(trace[i]) && WindowInv(trace[i])
  {
    hide ContentInv, RingInv, NumberInv, WindowInv, Step, Enabled;
    RunNumbers(trace, actions, nullCipher, i);
    if i == 0 {
      StartInv(nullCipher);
    } else {
      assert StepsTo(trace[i - 1], actions[i - 1], trace[i - 1 + 1]);
      TranscriptGrows(trace[i - 1], actions[i - 1]);
      RunInv(trace, actions, nullCipher, i - 1);
      StepKeepsContent(trace[i - 1], actions[i - 1]);
    }
  }

  lemma TranscriptGrows(s: System, a: Action)
    requires |s.receiver.ring| == MAX_FLIGHT && Enabled(s, a)
    ensures s.transcript <= Step(s, a).transcript
  {
    hide Raw, OpenHandshake, GetMessage, SealPacket, SealRecord;
  }

  lemma StartInv(nullCipher: Aead)
    requires ValidAead(nullCipher)
    ensures ContentInv(Start(nullCipher)) && NumberInv(Start(nullCipher)) && WindowInv(Start(nullCipher))
    ensures RingInv(Start(nullCipher).receiver)
  {
    ReplayWindow.EmptyRepresents();
  }

  /** The messages taken are exactly the first messages of the sender's transcript, byte for byte, in order and each
      once, and any message on offer is the next one. */
  ghost predicate TakenInOrder(s: System) {
    && |s.receiver.ring| == MAX_FLIGHT && |s.consumed| <= |s.transcript|
    && AreNext(s.consumed, 0, s.transcript)
    && (GetMessage(s.receiver).1.Some? ==> IsRawOf(GetMessage(s.receiver).1.value, |s.consumed|, s.transcript))
  }

  /** Safety, end to end: in every run, while message numbers last, messages are taken in order. */
  lemma {:induction false} MessagesArriveInOrderOnce(trace: seq<System>, actions: seq<Action>, nullCipher: Aead, i: nat)
    requires IsRun(trace, actions, nullCipher) && i < |trace| && |trace[i].transcript| < 0x1_0000
    ensures TakenInOrder(trace[i])
  {
    RunInv(trace, actions, nullCipher, i);
    var s := trace[i];
    hide NumberInv, HonestRecord, HonestStored, Raw, Assembled;
    if CurrentComplete(s.receiver) {
      SlotOfNumber(s.receiver, s.receiver.readSeq, s.transcript);
      AssembledIsRaw(s.receiver.ring[s.receiver.readSeq % MAX_FLIGHT].value, s.transcript);
    }
  }

  /** In every run up to the first reported wraparound, no two sealed records have the same epoch and number. */
  lemma RecordNumbersUnique(trace: seq<System>, actions: seq<Action>, nullCipher: Aead, i: nat)
    requires IsRun(trace, actions, nullCipher) && i < |trace|
    ensures UniqueNumbers(trace[i].log)
  {
    RunNumbers(trace, actions, nullCipher, i);
  }

  /** Sealing on after a wraparound reuses the number of the epoch's first record: the report is the last moment to
      stop. */
  lemma WrapReusesNumbers(s: Sender, log: seq<Record>, ctype: ContentType, plain: seq<byte>, plain': seq<byte>)
    requires s.seqNum == SEQ_LIMIT - 1
    requires exists rec :: rec in log && rec.epoch == s.epoch && rec.seqNum == 0
    requires s.aead.seal(s.seqNum, ctype, plain).Some?
    requires s.aead.seal(0, ctype, plain').Some? && |s.aead.seal(0, ctype, plain').value| < 0x1_0000
    ensures var (s1, first) := SealRecord(s, false, ctype, plain);
            var (s2, second) := SealRecord(s1, false, ctype, plain');
            first == SealFailed(SequenceWrapped) && second.Sealed? && !UniqueNumbers(log + [second.value.rec])
  {
    var s1 := SealRecord(s, false, ctype, plain).0;
    var rec := SealRecord(s1, false, ctype, plain').1.value.rec;
    var i :| 0 <= i < |log| && log[i].epoch == s.epoch && log[i].seqNum == 0;
    assert (log + [rec])[i].epoch == rec.epoch && (log + [rec])[|log|] == rec;
  }
}
