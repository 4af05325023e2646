/** Which cipher, epoch and number every record of a run has: those of the key changes made so far. */
module HandshakeCiphers {
  import opened Bytes
  import opened HandshakeFragment
  import opened HandshakeReceive
  import opened HandshakeArrivals
  import opened HandshakeSend
  import opened HandshakeTransport
  import opened HandshakeDatagram
  import ReplayWindow

  // --- Ciphers ----------------------------------------------------------------------------------

  /** The write cipher of every epoch so far: the null cipher, and that of each change of write keys. */
  ghost function Ciphers(nullCipher: Aead, actions: seq<Action>): (r: seq<Aead>)
    ensures |r| > 0
  {
    if actions == [] then [nullCipher]
    else
      var init, last := actions[..|actions| - 1], actions[|actions| - 1];
      Ciphers(nullCipher, init) + if last.ChangeWriteKeys? then [last.aead] else []
  }

  /** The sender is in the last epoch, and its two ciphers are those of the last two. */
  ghost predicate CipherInv(s: Sender, ciphers: seq<Aead>) {
    && |ciphers| == s.epoch + 1 && s.aead == ciphers[s.epoch]
    && (s.epoch >= 1 ==> s.lastAead == ciphers[s.epoch - 1])
  }

  lemma CiphersNext(nullCipher: Aead, actions: seq<Action>, i: nat)
    requires i < |actions|
    ensures Ciphers(nullCipher, actions[..i + 1])
         == Ciphers(nullCipher, actions[..i]) + if actions[i].ChangeWriteKeys? then [actions[i].aead] else []
  {
    assert actions[..i + 1][..i] == actions[..i];
  }

  lemma StepCiphers(s: System, a: Action, ciphers: seq<Aead>)
    requires |s.receiver.ring| == MAX_FLIGHT && Enabled(s, a) && CipherInv(s.sender, ciphers)
    ensures CipherInv(Step(s, a).sender, ciphers + if a.ChangeWriteKeys? then [a.aead] else [])
  {
    hide OpenHandshake, GetMessage, Raw, ValidAead, SealPacket, SealRecord, NextMessage, SetReadState;
    match a {
      case Packet(maxOut, accepted) => PacketRest(s.sender, maxOut, false);
      case SealData(ctype, plain) => SealRest(s.sender, ctype, plain);
      case _ =>
    }
  }

  lemma SealRest(s: Sender, ctype: ContentType, plain: seq<byte>)
    ensures var s' := SealRecord(s, false, ctype, plain).0;
            s' == s.(seqNum := s'.seqNum, lastSeqNum := s'.lastSeqNum)
  {
    hide SealRecord;
    SealRecordRest(s, false);
  }

  lemma {:induction false} PacketRest(s: Sender, maxOut: nat, madeProgress: bool)
    ensures var s' := SealPacket(s, maxOut, madeProgress).0;
            s' == s.(written := s'.written, offset := s'.offset, seqNum := s'.seqNum, lastSeqNum := s'.lastSeqNum)
    decreases |s.msgs| - s.written
  {
    hide SealNextMessage;
    if s.written < |s.msgs| {
      SealNextFrame(s, maxOut);
      SealNextKeepsRest(s, maxOut);
      var (s', progress) := SealNextMessage(s, maxOut);
      if progress.Whole? {
        PacketRest(Advance(s'), if progress.last.Len() <= maxOut then maxOut - progress.last.Len() else 0, true);
      }
    }
  }

  /** In every state of every run the sender has the ciphers of the last two epochs, in this order. */
  lemma {:induction false} RunCiphers(trace: seq<System>, actions: seq<Action>, nullCipher: Aead, i: nat)
    requires IsRun(trace, actions, nullCipher) && i <= |actions|
    ensures CipherInv(trace[i].sender, Ciphers(nullCipher, actions[..i]))
  {
    hide CipherInv, Step, Enabled;
    if i == 0 {
      StartCiphers(nullCipher);
    } else {
      RunCiphers(trace, actions, nullCipher, i - 1);
      assert StepsTo(trace[i - 1], actions[i - 1], trace[i - 1 + 1]);
      CiphersNext(nullCipher, actions, i - 1);
      StepCiphers(trace[i - 1], actions[i - 1], Ciphers(nullCipher, actions[..i - 1]));
    }
  }

  lemma StartCiphers(nullCipher: Aead)
    ensures CipherInv(Start(nullCipher).sender, Ciphers(nullCipher, []))
  {
  }

  // --- What is sealed ---------------------------------------------------------------------------

  /** The records a step seals, with their bytes. */
  ghost function SealedBy(s: System, a: Action): seq<SealedRecord> {
    match a
    case Packet(maxOut, _) => NextPacket(s.sender, maxOut).2
    case SealData(ctype, plain) =>
      var res := SealRecord(s.sender, false, ctype, plain).1;
      if res.Sealed? then [res.value] else []
    case _ => []
  }

  /** All records sealed by the first `i` steps. */
  ghost function Sealed(trace: seq<System>, actions: seq<Action>, i: nat): seq<SealedRecord>
    requires i <= |actions| < |trace|
  {
    if i == 0 then [] else Sealed(trace, actions, i - 1) + SealedBy(trace[i - 1], actions[i - 1])
  }

  /** The cipher of the record's epoch has sealed its plaintext under its number, type and epoch; the version in the
      header is that of the last cipher. */
  ghost predicate SealedUnder(x: SealedRecord, ciphers: seq<Aead>)
    requires |ciphers| > 0
  {
    x.rec.epoch < |ciphers| && SealedWith(ciphers[x.rec.epoch], ciphers[|ciphers| - 1].recordVersion, x)
  }

  lemma StepSealsUnder(s: System, a: Action, ciphers: seq<Aead>, x: SealedRecord)
    requires CipherInv(s.sender, ciphers) && x in SealedBy(s, a)
    ensures SealedUnder(x, ciphers)
  {
    hide SealPacket, SealRecord, SealedWith;
    match a
    case Packet(maxOut, _) => PacketIsGenuine(s.sender, maxOut, false);
    case SealData(ctype, plain) => SealedIsGenuine(s.sender, false, ctype, plain);
    case _ =>
  }

  /** In every run every record is sealed by the cipher its epoch had been given: that of the key change which began the
      epoch, or the null cipher. */
  lemma {:induction false} RunSealsUnder(trace: seq<System>, actions: seq<Action>, nullCipher: Aead, i: nat)
    requires IsRun(trace, actions, nullCipher) && i < |actions|
    ensures forall x :: x in SealedBy(trace[i], actions[i]) ==> SealedUnder(x, Ciphers(nullCipher, actions[..i]))
  {
    hide CipherInv, SealedBy, SealedUnder;
    RunCiphers(trace, actions, nullCipher, i);
    forall x | x in SealedBy(trace[i], actions[i]) ensures SealedUnder(x, Ciphers(nullCipher, actions[..i])) {
      StepSealsUnder(trace[i], actions[i], Ciphers(nullCipher, actions[..i]), x);
    }
  }

  lemma LogNext(s: System, a: Action)
    requires |s.receiver.ring| == MAX_FLIGHT && Enabled(s, a)
    ensures Step(s, a).log == s.log + Records(SealedBy(s, a))
  {
    hide OpenHandshake, GetMessage, Raw, ValidAead, SealPacket, SealRecord, NextMessage, SetReadState;
    assert s.log + [] == s.log;
  }

  /** The log of a run is made of these records. */
  lemma {:induction false} RunLog(trace: seq<System>, actions: seq<Action>, nullCipher: Aead, i: nat)
    requires IsRun(trace, actions, nullCipher) && i <= |actions|
    ensures trace[i].log == Records(Sealed(trace, actions, i))
  {
    hide Step, SealedBy, Enabled;
    if i > 0 {
      RunLog(trace, actions, nullCipher, i - 1);
      assert StepsTo(trace[i - 1], actions[i - 1], trace[i - 1 + 1]);
      LogNext(trace[i - 1], actions[i - 1]);
    }
  }

  // --- Reading what was sealed ------------------------------------------------------------------

  /** A receiver of the run whose read cipher undoes the write cipher of its epoch can read every packet of the sender:
      the datagram does what its records do. */
  lemma {:induction false} RunPacketArrives(trace: seq<System>, actions: seq<Action>, nullCipher: Aead, i: nat,
                                            mtu: nat, c: ReadCipher, maxLen: nat)
    requires IsRun(trace, actions, nullCipher) && i <= |actions| && |trace[i].transcript| < 0x1_0000
    requires mtu <= RECORD_HEADER_LENGTH + MAX_ENCRYPTED_LENGTH && !trace[i].receiver.closed
    requires var ciphers, r := Ciphers(nullCipher, actions[..i]), trace[i].receiver;
             var version := ciphers[|ciphers| - 1].recordVersion;
             && VersionOk(r.nullCipher, c, version)
             && (r.epoch < |ciphers| ==> Undoes(c, ciphers[r.epoch], version, r.epoch))
    ensures |trace[i].receiver.ring| == MAX_FLIGHT
    ensures var s, r := trace[i].sender, trace[i].receiver;
            var xs := NextPacket(s, mtu).2;
            OpenDatagram(r, c, Wire(xs), maxLen) == RunInputs(r, ArrivalsOfPacket(xs, maxLen))
  {
    hide Undoes, VersionOk, CanRead, CipherInv, ContentInv, NumberInv, WindowInv, RingInv;
    hide SealPacket, Wire, OpenDatagram, RunInputs, ArrivalsOfPacket;
    RunCiphers(trace, actions, nullCipher, i);
    RunNumbers(trace, actions, nullCipher, i);
    RunInv(trace, actions, nullCipher, i);
    SendsWell(trace[i]);
    CanReadCiphers(trace[i], Ciphers(nullCipher, actions[..i]), c);
    PacketArrives(trace[i].sender, mtu, trace[i].receiver, c, maxLen);
  }

  lemma SendsWell(s: System)
    requires ContentInv(s)
    ensures SenderInv(s.sender) && |s.receiver.ring| == MAX_FLIGHT
  {
  }

  /** The keys the receiver needs are those of the epoch it reads. */
  lemma CanReadCiphers(s: System, ciphers: seq<Aead>, c: ReadCipher)
    requires CipherInv(s.sender, ciphers) && VersionOk(s.receiver.nullCipher, c, ciphers[|ciphers| - 1].recordVersion)
    requires s.receiver.epoch < |ciphers| ==>
               Undoes(c, ciphers[s.receiver.epoch], ciphers[|ciphers| - 1].recordVersion, s.receiver.epoch)
    ensures CanRead(s.receiver.epoch, s.receiver.nullCipher, c, s.sender)
  {
    hide Undoes, VersionOk;
  }

  // --- Numbers ----------------------------------------------------------------------------------

  /** How many records of the epoch there are. */
  ghost function CountOf(log: seq<Record>, epoch: int): nat {
    if log == [] then 0
    else CountOf(log[..|log| - 1], epoch) + if log[|log| - 1].epoch == epoch then 1 else 0
  }

  /** The records of every epoch are numbered 0, 1, 2 and so on. */
  ghost predicate InSequence(log: seq<Record>) {
    forall i: nat :: i < |log| ==> NumberedAt(log, i)
  }

  ghost predicate NumberedAt(log: seq<Record>, i: nat)
    requires i < |log|
  {
    log[i].seqNum == CountOf(log[..i], log[i].epoch)
  }

  ghost predicate Counted(log: seq<Record>, s: Sender) {
    && InSequence(log) && (forall rec :: rec in log ==> rec.epoch <= s.epoch)
    && s.seqNum == CountOf(log, s.epoch) && (s.epoch >= 1 ==> s.lastSeqNum == CountOf(log, s.epoch - 1))
  }

  lemma OneMoreCounted(log: seq<Record>, rec: Record)
    requires InSequence(log) && rec.seqNum == CountOf(log, rec.epoch)
    ensures InSequence(log + [rec])
    ensures forall e :: CountOf(log + [rec], e) == CountOf(log, e) + if rec.epoch == e then 1 else 0
  {
    var more := log + [rec];
    assert more[..|log|] == log;
    forall i: nat | i < |more| ensures NumberedAt(more, i) {
      if i < |log| {
        assert NumberedAt(log, i) && more[..i] == log[..i];
      }
    }
  }

  lemma {:induction false} NoneOfLater(log: seq<Record>, epoch: int)
    requires forall rec :: rec in log ==> rec.epoch < epoch
    ensures CountOf(log, epoch) == 0
  {
    if log != [] {
      NoneOfLater(log[..|log| - 1], epoch);
    }
  }

  /** The failures that use up a number without a record. */
  predicate LosesNumber(why: Failure) {
    why == RecordTooLong || why == SequenceWrapped
  }

  lemma SealCounted(s: Sender, previous: bool, ctype: ContentType, plain: seq<byte>, log: seq<Record>)
    requires (previous ==> s.epoch >= 1) && Counted(log, s)
    ensures var (s', res) := SealRecord(s, previous, ctype, plain);
            match res
            case Sealed(x) => Counted(log + [x.rec], s')
            case SealFailed(why) => LosesNumber(why) || s' == s
  {
    hide RecordBytes, InSequence, CountOf;
    var (s', res) := SealRecord(s, previous, ctype, plain);
    if res.Sealed? {
      OneMoreCounted(log, res.value.rec);
    }
  }

  ghost predicate ProgressCounted(log: seq<Record>, s: Sender, s': Sender, progress: Progress) {
    match progress
    case Partial(x) => Counted(log + [x.rec], s')
    case Whole(x) => Counted(log + [x.rec], s')
    case NoProgress => s' == s
    case Stuck(why) => LosesNumber(why) || s' == s
  }

  lemma PieceCounted(s: Sender, previous: bool, f: Fragment, todo: nat, log: seq<Record>)
    requires (previous ==> s.epoch >= 1) && s.offset + todo <= |f.body| < 0x100_0000 && Counted(log, s)
    ensures ProgressCounted(log, s, SealPiece(s, previous, f, todo).0, SealPiece(s, previous, f, todo).1)
  {
    hide SealRecord, Serialize, Counted;
    var plain := Serialize(Cut(f, s.offset, todo));
    SealCounted(s, previous, Handshake, plain, log);
    var (s1, res) := SealRecord(s, previous, Handshake, plain);
    if res.Sealed? {
      CountedElsewhere(log + [res.value.rec], s1, SealPiece(s, previous, f, todo).0);
    }
  }

  lemma NextCounted(s: Sender, maxOut: nat, log: seq<Record>)
    requires s.written < |s.msgs| && Counted(log, s)
    ensures ProgressCounted(log, s, SealNextMessage(s, maxOut).0, SealNextMessage(s, maxOut).1)
  {
    hide SealRecord, SealPiece, Stored, Counted;
    var msg := s.msgs[s.written];
    var previous := UsesPrevious(s, msg);
    SealCounted(s, previous, ChangeCipherSpec, [1], log);
    if Stored(msg).Some? {
      StoredShape(msg);
      var f := Stored(msg).value;
      var overhead := MaxSealOverhead(s, previous);
      if s.offset <= |f.body| && maxOut >= HEADER_LENGTH + 1 + overhead {
        var rest, room := |f.body| - s.offset, maxOut - HEADER_LENGTH - overhead;
        var todo := if rest > room then room else rest;
        PieceCounted(s, previous, f, todo, log);
      }
    }
  }

  lemma {:induction false} PacketCounted(s: Sender, maxOut: nat, madeProgress: bool, log: seq<Record>)
    requires Counted(log, s)
    ensures var (s', status, xs) := SealPacket(s, maxOut, madeProgress);
            (status.PacketFailed? && LosesNumber(status.why)) || Counted(log + Records(xs), s')
    decreases |s.msgs| - s.written
  {
    hide SealNextMessage, Counted;
    assert log + Records([]) == log;
    if s.written < |s.msgs| {
      NextCounted(s, maxOut, log);
      SealNextFrame(s, maxOut);
      var (s1, progress) := SealNextMessage(s, maxOut);
      if progress.Whole? {
        var x := progress.last;
        var left := if x.Len() <= maxOut then maxOut - x.Len() else 0;
        CountedElsewhere(log + [x.rec], s1, Advance(s1));
        PacketCounted(Advance(s1), left, true, log + [x.rec]);
        var ys := SealPacket(Advance(s1), left, true).2;
        assert log + [x.rec] + Records(ys) == log + Records([x] + ys);
      } else if progress.Partial? {
        assert Records([progress.part]) == [progress.part.rec];
      }
    }
  }

  /** Only the epoch and the two counters matter. */
  lemma CountedElsewhere(log: seq<Record>, s: Sender, s': Sender)
    requires Counted(log, s) && s'.epoch == s.epoch && s'.seqNum == s.seqNum && s'.lastSeqNum == s.lastSeqNum
    ensures Counted(log, s')
  {
    hide InSequence, CountOf;
  }

  /** The step does not fail in a way that uses up a number. */
  ghost predicate LosesNone(s: System, a: Action) {
    match a
    case Packet(maxOut, _) =>
      NextPacket(s.sender, maxOut).1.PacketFailed? ==> !LosesNumber(NextPacket(s.sender, maxOut).1.why)
    case SealData(ctype, plain) =>
      var res := SealRecord(s.sender, false, ctype, plain).1;
      res.SealFailed? ==> !LosesNumber(res.why)
    case _ => true
  }

  lemma StepCounted(s: System, a: Action)
    requires |s.receiver.ring| == MAX_FLIGHT && Enabled(s, a) && Counted(s.log, s.sender) && LosesNone(s, a)
    ensures Counted(Step(s, a).log, Step(s, a).sender)
  {
    hide OpenHandshake, GetMessage, Raw, ValidAead, SealPacket, SealRecord, NextMessage, SetReadState, Counted;
    assert s.log + [] == s.log;
    var s' := Step(s, a);
    match a {
      case Packet(maxOut, accepted) =>
        PacketCounted(s.sender, maxOut, false, s.log);
        CountedElsewhere(s'.log, NextPacket(s.sender, maxOut).0, s'.sender);
      case SealData(ctype, plain) => SealCounted(s.sender, false, ctype, plain, s.log);
      case ChangeWriteKeys(aead) => KeysCounted(s.log, s.sender, aead);
      case _ => CountedElsewhere(s.log, s.sender, s'.sender);
    }
  }

  lemma KeysCounted(log: seq<Record>, s: Sender, aead: Aead)
    requires Counted(log, s) && s.epoch + 1 < 0x1_0000
    ensures Counted(log, SetWriteState(s, aead))
  {
    hide InSequence, CountOf;
    NoneOfLater(log, s.epoch + 1);
  }

  /** In every run in which no step loses a number, the records of every epoch carry the numbers from 0 on, in the order
      in which they were sealed. */
  lemma {:induction false} RunInSequence(trace: seq<System>, actions: seq<Action>, nullCipher: Aead, i: nat)
    requires IsRun(trace, actions, nullCipher) && i <= |actions|
    requires forall k :: 0 <= k < i ==> LosesNone(trace[k], actions[k])
    ensures InSequence(trace[i].log) && Counted(trace[i].log, trace[i].sender)
  {
    hide InSequence, Step, Enabled, LosesNone;
    if i == 0 {
      StartCounted(nullCipher);
    } else {
      RunInSequence(trace, actions, nullCipher, i - 1);
      assert StepsTo(trace[i - 1], actions[i - 1], trace[i - 1 + 1]);
      StepCounted(trace[i - 1], actions[i - 1]);
    }
  }

  lemma StartCounted(nullCipher: Aead)
    ensures Counted([], Start(nullCipher).sender)
  {
  }

  // --- Epochs of messages -----------------------------------------------------------------------

  /** The message a step puts into the queue, under the number of key changes made so far. */
  ghost function QueuedBy(s: System, a: Action, changes: nat): seq<OutgoingMessage>
    requires changes < 0x1_0000
  {
    match a
    case Send(typ, body) =>
      if |body| >= 0x100_0000 || !AddOutgoing(s.sender, false, Raw(Message(typ, s.sender.writeSeq, body))).1 then []
      else [OutgoingMessage(Raw(Message(typ, s.sender.writeSeq, body)), changes, false)]
    case SendChangeCipherSpec =>
      if AddOutgoing(s.sender, true, []).1 then [OutgoingMessage([], changes, true)] else []
    case _ => []
  }

  /** Everything that was ever put into the queue. */
  ghost function Queued(trace: seq<System>, actions: seq<Action>, nullCipher: Aead, i: nat): seq<OutgoingMessage>
    requires i <= |actions| < |trace|
  {
    if i == 0 then []
    else
      var changes := |Ciphers(nullCipher, actions[..i - 1])| - 1;
      Queued(trace, actions, nullCipher, i - 1)
      + if changes < 0x1_0000 then QueuedBy(trace[i - 1], actions[i - 1], changes) else []
  }

  ghost predicate IsSuffix(msgs: seq<OutgoingMessage>, all: seq<OutgoingMessage>) {
    |msgs| <= |all| && msgs == all[|all| - |msgs|..]
  }

  lemma StepQueues(s: System, a: Action, ciphers: seq<Aead>, all: seq<OutgoingMessage>)
    requires |s.receiver.ring| == MAX_FLIGHT && Enabled(s, a) && CipherInv(s.sender, ciphers)
    requires IsSuffix(s.sender.msgs, all)
    ensures IsSuffix(Step(s, a).sender.msgs, all + QueuedBy(s, a, |ciphers| - 1))
  {
    hide OpenHandshake, GetMessage, Raw, ValidAead, SealPacket, SealRecord, NextMessage, SetReadState;
    assert all + [] == all;
    match a {
      case Packet(maxOut, accepted) => PacketRest(s.sender, maxOut, false);
      case SealData(ctype, plain) => SealRest(s.sender, ctype, plain);
      case _ =>
    }
  }

  /** In every run the queue is the last part of what was put into it: every message, ChangeCipherSpecs included, stands
      there in order, under the number of changes of write keys made before it was sent. */
  lemma {:induction false} RunQueue(trace: seq<System>, actions: seq<Action>, nullCipher: Aead, i: nat)
    requires IsRun(trace, actions, nullCipher) && i <= |actions|
    ensures IsSuffix(trace[i].sender.msgs, Queued(trace, actions, nullCipher, i))
  {
    hide Step, Enabled, QueuedBy, IsSuffix;
    if i == 0 {
      NothingQueued(nullCipher);
    } else {
      RunQueue(trace, actions, nullCipher, i - 1);
      RunCiphers(trace, actions, nullCipher, i - 1);
      assert StepsTo(trace[i - 1], actions[i - 1], trace[i - 1 + 1]);
      StepQueues(trace[i - 1], actions[i - 1], Ciphers(nullCipher, actions[..i - 1]),
                 Queued(trace, actions, nullCipher, i - 1));
    }
  }

  lemma NothingQueued(nullCipher: Aead)
    ensures IsSuffix(Start(nullCipher).sender.msgs, [])
  {
  }

  /** The epoch of every message of the transcript: the number of key changes made before it was sent. */
  ghost function MessageEpochs(trace: seq<System>, actions: seq<Action>, nullCipher: Aead, i: nat): seq<nat>
    requires i <= |actions| < |trace|
  {
    if i == 0 then []
    else
      MessageEpochs(trace, actions, nullCipher, i - 1)
      + if |trace[i].transcript| > |trace[i - 1].transcript| then [|Ciphers(nullCipher, actions[..i - 1])| - 1] else []
  }

  /** A record with a piece of a message is of the epoch of the message. */
  ghost predicate EpochFits(rec: Record, epochs: seq<nat>) {
    rec.ctype == Handshake && Parse(rec.plain).Some? ==>
      var n := Parse(rec.plain).value.0.seqNo;
      n < |epochs| && rec.epoch == epochs[n]
  }

  ghost predicate QueueFits(msg: OutgoingMessage, epochs: seq<nat>) {
    !msg.isCcs && Stored(msg).Some? ==>
      var n := Stored(msg).value.seqNo;
      n < |epochs| && msg.epoch == epochs[n]
  }

  ghost predicate EpochInv(s: System, epochs: seq<nat>) {
    && |epochs| == |s.transcript|
    && (forall msg :: msg in s.sender.msgs ==> QueueFits(msg, epochs))
    && (forall rec :: rec in s.log ==> EpochFits(rec, epochs))
  }

  lemma EpochsGrow(s: System, epochs: seq<nat>, more: seq<nat>)
    requires EpochInv(s, epochs)
    ensures forall msg :: msg in s.sender.msgs ==> QueueFits(msg, epochs + more)
    ensures forall rec :: rec in s.log ==> EpochFits(rec, epochs + more)
  {
    hide Stored, Parse;
  }

  /** A sealed record has the epoch of its message. */
  lemma NextFits(s: Sender, maxOut: nat, epochs: seq<nat>)
    requires SenderInv(s) && s.written < |s.msgs| && QueueFits(s.msgs[s.written], epochs)
    ensures match SealNextMessage(s, maxOut).1
            case Partial(x) => EpochFits(x.rec, epochs)
            case Whole(x) => EpochFits(x.rec, epochs)
            case _ => true
  {
    hide Stored, Parse, Serialize, PendingFrom, ValidAead, RecordItems;
    var msg := s.msgs[s.written];
    if msg.isCcs {
      CcsFits(s, maxOut, epochs);
    } else {
      hide SealNextMessage, SealedCut;
      SealNextFragment(s, maxOut);
      assert WellQueued(msg);
      StoredShape(msg);
      var (s', progress) := SealNextMessage(s, maxOut);
      if progress.Partial? {
        CutFits(s, s', progress.part, s'.offset, maxOut, epochs);
      } else if progress.Whole? {
        CutFits(s, s', progress.last, BodyLen(msg), maxOut, epochs);
      }
    }
  }

  lemma CcsFits(s: Sender, maxOut: nat, epochs: seq<nat>)
    requires SenderInv(s) && s.written < |s.msgs| && s.msgs[s.written].isCcs
    ensures match SealNextMessage(s, maxOut).1
            case Partial(x) => EpochFits(x.rec, epochs)
            case Whole(x) => EpochFits(x.rec, epochs)
            case _ => true
  {
    hide Stored, Parse, SealRecord, ValidAead;
    var previous := UsesPrevious(s, s.msgs[s.written]);
    SealedIsGenuine(s, previous, ChangeCipherSpec, [1]);
  }

  lemma CutFits(s: Sender, s': Sender, x: SealedRecord, to: nat, maxOut: nat, epochs: seq<nat>)
    requires s.written < |s.msgs| && Stored(s.msgs[s.written]).Some? && !s.msgs[s.written].isCcs
    requires s.offset <= to <= BodyLen(s.msgs[s.written]) && SealedCut(s, s', x, to, maxOut)
    requires QueueFits(s.msgs[s.written], epochs)
    ensures EpochFits(x.rec, epochs)
  {
    hide Stored, Parse, Serialize;
    var f := Stored(s.msgs[s.written]).value;
    StoredShape(s.msgs[s.written]);
    var piece := Cut(f, s.offset, to - s.offset);
    ParseSerialize(piece, []);
    assert Serialize(piece) + [] == Serialize(piece);
  }

  lemma {:induction false} PacketFits(s: Sender, maxOut: nat, madeProgress: bool, epochs: seq<nat>)
    requires SenderInv(s) && forall msg :: msg in s.msgs ==> QueueFits(msg, epochs)
    ensures forall x :: x in SealPacket(s, maxOut, madeProgress).2 ==> EpochFits(x.rec, epochs)
    decreases |s.msgs| - s.written
  {
    hide SealNextMessage, QueueFits, EpochFits, PendingFrom, RecordItems, WellQueued, ValidAead;
    if s.written < |s.msgs| {
      assert s.msgs[s.written] in s.msgs;
      NextFits(s, maxOut, epochs);
      SealNextConserves(s, maxOut);
      SealNextKeepsRest(s, maxOut);
      var (s', progress) := SealNextMessage(s, maxOut);
      if progress.Whole? {
        var left := if progress.last.Len() <= maxOut then maxOut - progress.last.Len() else 0;
        PacketFits(Advance(s'), left, true, epochs);
      }
    }
  }

  lemma StepKeepsEpochs(s: System, a: Action, ciphers: seq<Aead>, epochs: seq<nat>)
    requires ContentInv(s) && Enabled(s, a) && CipherInv(s.sender, ciphers) && EpochInv(s, epochs)
    requires |Step(s, a).transcript| < 0x1_0000
    ensures EpochInv(Step(s, a),
                     epochs + if |Step(s, a).transcript| > |s.transcript| then [|ciphers| - 1] else [])
  {
    hide QueueFits, EpochFits, FaithfulSlot, HonestQueue, HonestRecord, ValidAead, WellQueued;
    assert epochs + [] == epochs;
    EpochsGrow(s, epochs, [|ciphers| - 1]);
    match a {
      case Send(typ, body) => SendKeepsEpochs(s, typ, body, ciphers, epochs);
      case SendChangeCipherSpec => QueuedCcsFits(s.sender.epoch, epochs);
      case Packet(maxOut, accepted) => PacketKeepsEpochs(s, maxOut, accepted, epochs);
      case SealData(ctype, plain) => DataKeepsEpochs(s, ctype, plain, epochs);
      case _ => OtherKeepsEpochs(s, a, epochs);
    }
  }

  lemma QueuedCcsFits(epoch: uint16, epochs: seq<nat>)
    ensures QueueFits(OutgoingMessage([], epoch, true), epochs)
  {
  }

  lemma SendKeepsEpochs(s: System, typ: byte, body: seq<byte>, ciphers: seq<Aead>, epochs: seq<nat>)
    requires ContentInv(s) && |body| < 0x100_0000 && CipherInv(s.sender, ciphers) && EpochInv(s, epochs)
    ensures EpochInv(Step(s, Send(typ, body)),
                     epochs + if |Step(s, Send(typ, body)).transcript| > |s.transcript| then [|ciphers| - 1] else [])
  {
    hide QueueFits, EpochFits, Faithful, HonestQueue, HonestRecord, ValidAead, WellQueued, Raw;
    assert epochs + [] == epochs;
    var longer := epochs + [|ciphers| - 1];
    EpochsGrow(s, epochs, [|ciphers| - 1]);
    var m := Message(typ, s.sender.writeSeq, body);
    QueuedFits(m, s.sender.epoch, longer);
  }

  lemma QueuedFits(m: Message, epoch: uint16, epochs: seq<nat>)
    requires |m.body| < 0x100_0000 && m.seqNo < |epochs| && epochs[m.seqNo] == epoch
    ensures QueueFits(OutgoingMessage(Raw(m), epoch, false), epochs)
  {
    hide Stored, Raw;
    StoredWhole(m, epoch);
  }

  lemma PacketKeepsEpochs(s: System, maxOut: nat, accepted: bool, epochs: seq<nat>)
    requires SenderInv(s.sender) && EpochInv(s, epochs) && |s.receiver.ring| == MAX_FLIGHT
    ensures EpochInv(Step(s, Packet(maxOut, accepted)), epochs)
  {
    hide QueueFits, EpochFits, SealPacket, SenderInv;
    PacketFits(s.sender, maxOut, false, epochs);
    PacketRest(s.sender, maxOut, false);
    var xs := NextPacket(s.sender, maxOut).2;
    forall rec | rec in s.log + Records(xs) ensures EpochFits(rec, epochs) {
      if rec !in s.log {
        var i :| 0 <= i < |xs| && xs[i].rec == rec;
        assert xs[i] in xs;
      }
    }
  }

  lemma DataKeepsEpochs(s: System, ctype: ContentType, plain: seq<byte>, epochs: seq<nat>)
    requires EpochInv(s, epochs) && ctype != Handshake && |s.receiver.ring| == MAX_FLIGHT
    ensures EpochInv(Step(s, SealData(ctype, plain)), epochs)
  {
    hide QueueFits, SealRecord, Parse;
    SealRest(s.sender, ctype, plain);
    SealedIsGenuine(s.sender, false, ctype, plain);
  }

  lemma OtherKeepsEpochs(s: System, a: Action, epochs: seq<nat>)
    requires EpochInv(s, epochs) && Enabled(s, a) && |s.receiver.ring| == MAX_FLIGHT
    requires !a.Send? && !a.Packet? && !a.SealData? && !a.SendChangeCipherSpec?
    ensures EpochInv(Step(s, a), epochs)
  {
    hide QueueFits, EpochFits, OpenHandshake, GetMessage, NextMessage, SetReadState, ValidAead;
  }

  /** In every run, while message numbers last: every message, in the queue or in a record, however it was cut and
      repeated, has the epoch of the key changes made before it was sent. */
  lemma {:induction false} RunEpochs(trace: seq<System>, actions: seq<Action>, nullCipher: Aead, i: nat)
    requires IsRun(trace, actions, nullCipher) && i <= |actions| && |trace[i].transcript| < 0x1_0000
    ensures EpochInv(trace[i], MessageEpochs(trace, actions, nullCipher, i))
  {
    hide EpochInv, CipherInv, ContentInv, NumberInv, WindowInv, Step, Enabled;
    if i == 0 {
      StartEpochs(nullCipher);
    } else {
      assert StepsTo(trace[i - 1], actions[i - 1], trace[i - 1 + 1]);
      TranscriptGrows(trace[i - 1], actions[i - 1]);
      RunEpochs(trace, actions, nullCipher, i - 1);
      RunInv(trace, actions, nullCipher, i - 1);
      RunCiphers(trace, actions, nullCipher, i - 1);
      StepKeepsEpochs(trace[i - 1], actions[i - 1], Ciphers(nullCipher, actions[..i - 1]),
                      MessageEpochs(trace, actions, nullCipher, i - 1));
    }
  }

  lemma StartEpochs(nullCipher: Aead)
    ensures EpochInv(Start(nullCipher), [])
  {
  }
}
