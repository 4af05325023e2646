/** A flight that gets through: what a whole pass brings to a receiver that keeps its records. */
module HandshakeFlight {
  import opened Bytes
  import opened HandshakeFragment
  import opened Reassembly
  import opened HandshakeReceive
  import opened HandshakeArrivals
  import opened HandshakeSend
  import opened HandshakeTransport
  import ReplayWindow

  // --- What a pass brings -----------------------------------------------------------------------

  /** The record is one of a packet of the pass. */
  ghost predicate InPass(rec: Record, ps: seq<seq<SealedRecord>>) {
    exists p, x :: p in ps && x in p && x.rec == rec
  }

  ghost predicate PacketHas(xs: seq<SealedRecord>, item: Item) {
    exists x :: x in xs && item in RecordItems(x.rec)
  }

  ghost predicate Brings(ps: seq<seq<SealedRecord>>, item: Item) {
    exists p :: p in ps && PacketHas(p, item)
  }

  lemma {:induction false} PacketBrings(xs: seq<SealedRecord>, item: Item)
    requires item in PacketItems(xs)
    ensures PacketHas(xs, item)
  {
    hide RecordItems;
    if item in RecordItems(xs[0].rec) {
      assert xs[0] in xs;
    } else {
      PacketBrings(xs[1..], item);
      var x :| x in xs[1..] && item in RecordItems(x.rec);
      assert x in xs;
    }
  }

  lemma {:induction false} FlightBrings(ps: seq<seq<SealedRecord>>, item: Item)
    requires item in PacketsItems(ps)
    ensures Brings(ps, item)
  {
    hide PacketItems, PacketHas;
    if item in PacketItems(ps[0]) {
      PacketBrings(ps[0], item);
      assert ps[0] in ps;
    } else {
      FlightBrings(ps[1..], item);
      var p :| p in ps[1..] && PacketHas(p, item);
      assert p in ps;
    }
  }

  /** A queued message contributes all its items to a whole flight. */
  lemma {:induction false} PendingHas(msgs: seq<OutgoingMessage>, from: nat, i: nat, item: Item)
    requires forall j :: 0 <= j < |msgs| ==> WellQueued(msgs[j])
    requires from <= i < |msgs| && item in MessageItems(msgs[i], 0)
    ensures item in PendingFrom(msgs, from, 0)
    decreases i - from
  {
    hide MessageItems, WellQueued;
    if from < i {
      PendingHas(msgs, from + 1, i, item);
    }
  }

  /** The items of a stored message: its bytes, each at its position, or one item if it has none. */
  lemma StoredItems(msg: OutgoingMessage, transcript: seq<Message>, p: nat)
    requires Numbered(transcript) && !msg.isCcs && HonestStored(msg, transcript)
    ensures var m := transcript[Stored(msg).value.seqNo];
            && (|m.body| == 0 ==> EmptyItem(m.typ, m.seqNo) in MessageItems(msg, 0))
            && (p < |m.body| ==> ByteItem(m.typ, m.seqNo, |m.body|, p, m.body[p]) in MessageItems(msg, 0))
  {
    hide Stored;
    var f := Stored(msg).value;
    var m := transcript[f.seqNo];
    assert Cut(f, 0, |f.body|) == f;
    if p < |m.body| {
      assert FragmentItems(f)[p] == ByteItem(m.typ, m.seqNo, |m.body|, p, m.body[p]);
    }
  }

  lemma ItemRange(f: Fragment, item: Item)
    requires item in FragmentItems(f)
    ensures item.ByteItem? ==> f.seqNo == item.seqNo && item.pos in FragmentRange(f)
    ensures item.EmptyItem? ==> f.seqNo == item.seqNo
  {
  }

  /** What the pass has to say about position `p` of message `n`, or about the message if it is empty. */
  ghost predicate CarriedBy(rec: Record, n: uint16, p: nat, bodyLen: nat) {
    Carries(rec, n) && (p < bodyLen ==> p in FragmentRange(Parse(rec.plain).value.0))
  }

  /** The records of a whole pass carry every position of every message of the flight. */
  lemma PassCovers(msgs: seq<OutgoingMessage>, ps: seq<seq<SealedRecord>>, i: nat, transcript: seq<Message>, p: nat)
    returns (rec: Record)
    requires Numbered(transcript) && HonestQueue(msgs, transcript)
    requires forall j :: 0 <= j < |msgs| ==> WellQueued(msgs[j])
    requires PacketsItems(ps) == PendingFrom(msgs, 0, 0)
    requires i < |msgs| && !msgs[i].isCcs
    ensures HonestStored(msgs[i], transcript)
    ensures var m := transcript[Stored(msgs[i]).value.seqNo];
            InPass(rec, ps) && (p < |m.body| || |m.body| == 0 ==> CarriedBy(rec, m.seqNo, p, |m.body|))
  {
    hide FragmentItems, MessageItems, PendingFrom, PacketsItems, Stored, WellQueued, Parse;
    assert HonestStored(msgs[i], transcript);
    var m := transcript[Stored(msgs[i]).value.seqNo];
    var at := if p < |m.body| then p else 0;
    var item := if |m.body| == 0 then EmptyItem(m.typ, m.seqNo)
                else ByteItem(m.typ, m.seqNo, |m.body|, at, m.body[at]);
    StoredItems(msgs[i], transcript, at);
    PendingHas(msgs, 0, i, item);
    FlightBrings(ps, item);
    var packet :| packet in ps && PacketHas(packet, item);
    var x :| x in packet && item in RecordItems(x.rec);
    rec := x.rec;
    ItemRange(Parse(rec.plain).value.0, item);
  }

  // --- Where it arrives -------------------------------------------------------------------------

  /** Message `n` is complete in the ring. */
  ghost predicate CompleteAt(r: Receiver, n: uint16, transcript: seq<Message>)
    requires |r.ring| == MAX_FLIGHT && Numbered(transcript) && n < |transcript|
  {
    r.ring[n % MAX_FLIGHT] == Some(SlotFor(transcript[n], Range(0, |transcript[n].body|)))
  }

  /** All records of the pass that carry message `n` get through, and none of their numbers has been seen before. */
  ghost predicate MessageGetsThrough(n: uint16, ps: seq<seq<SealedRecord>>, arrivals: seq<Arrival>, epoch: uint16,
                                     seen: set<uint64>)
  {
    forall rec :: InPass(rec, ps) && Carries(rec, n) ==>
      GetsThrough(rec, arrivals, epoch, seen) && Number(rec) !in seen
  }

  /** Byte `p` of the message, and the message itself if it is empty, has been consumed or is in its slot. */
  lemma {:induction false} PositionArrives(msgs: seq<OutgoingMessage>, ps: seq<seq<SealedRecord>>, i: nat,
                                           transcript: seq<Message>, r: Receiver, seen: set<uint64>,
                                           inputs: seq<Input>, p: nat)
    requires InOrder(r, seen, transcript) && HonestQueue(msgs, transcript)
    requires forall j :: 0 <= j < |msgs| ==> WellQueued(msgs[j])
    requires PacketsItems(ps) == PendingFrom(msgs, 0, 0)
    requires i < |msgs| && !msgs[i].isCcs && HonestStored(msgs[i], transcript)
    requires Proper(r, inputs) && Authentic(ArrivalsOf(inputs), r.epoch, transcript)
    requires RunInputs(r, inputs).1.Success? && OneRecordANumber(ArrivalsOf(inputs), r.epoch)
    requires var n := Stored(msgs[i]).value.seqNo;
             n < r.readSeq + MAX_FLIGHT && MessageGetsThrough(n, ps, ArrivalsOf(inputs), r.epoch, seen)
    ensures var n, r' := Stored(msgs[i]).value.seqNo, RunInputs(r, inputs).0;
            n < |transcript| &&
            (n < r'.readSeq || |transcript[n].body| > p || |transcript[n].body| == 0 ==>
               n < r'.readSeq || HasByte(r'.ring[n % MAX_FLIGHT], n, p, |transcript[n].body|))
  {
    hide Parse, Stored, WellQueued, PendingFrom, PacketsItems, Kept, InPass, GetsThrough, InOrder, Proper, RunInputs;
    hide Authentic, OneRecordANumber;
    Orderly(r, seen, transcript);
    StoredNumber(msgs[i], transcript);
    var n := Stored(msgs[i]).value.seqNo;
    if p < |transcript[n].body| || |transcript[n].body| == 0 {
      var rec := PassCovers(msgs, ps, i, transcript, p);
      GetsThroughExactly(rec, ArrivalsOf(inputs), r.epoch, seen);
      KeptIsHeld(r, inputs, seen, transcript, rec, n);
    }
  }

  lemma Orderly(r: Receiver, seen: set<uint64>, transcript: seq<Message>)
    requires InOrder(r, seen, transcript)
    ensures Numbered(transcript) && |r.ring| == MAX_FLIGHT
  {
  }

  ghost predicate HasByte(slot: Option<Slot>, n: uint16, p: nat, bodyLen: nat) {
    slot.Some? && slot.value.seqNo == n && (p < bodyLen ==> p in slot.value.got.Keys)
  }

  /** If every record of a whole pass that carries a message gets through, in any order, with any repetitions, among any
      other records and with the handshake taking messages in between, the message has been consumed or is complete. */
  lemma {:induction false} PassArrives(msgs: seq<OutgoingMessage>, ps: seq<seq<SealedRecord>>, i: nat,
                                       transcript: seq<Message>, r: Receiver, seen: set<uint64>, inputs: seq<Input>)
    requires InOrder(r, seen, transcript) && HonestQueue(msgs, transcript)
    requires forall j :: 0 <= j < |msgs| ==> WellQueued(msgs[j])
    requires PacketsItems(ps) == PendingFrom(msgs, 0, 0)
    requires i < |msgs| && !msgs[i].isCcs && HonestStored(msgs[i], transcript)
    requires Proper(r, inputs) && Authentic(ArrivalsOf(inputs), r.epoch, transcript)
    requires RunInputs(r, inputs).1.Success? && OneRecordANumber(ArrivalsOf(inputs), r.epoch)
    requires var n := Stored(msgs[i]).value.seqNo;
             n < r.readSeq + MAX_FLIGHT && MessageGetsThrough(n, ps, ArrivalsOf(inputs), r.epoch, seen)
    ensures var n, r' := Stored(msgs[i]).value.seqNo, RunInputs(r, inputs).0;
            n < |transcript| && (n < r'.readSeq || CompleteAt(r', n, transcript))
  {
    hide Parse, Stored, WellQueued, PendingFrom, PacketsItems, InOrder, Proper, RunInputs, Authentic, CompleteAt;
    hide OneRecordANumber, MessageGetsThrough, HasByte, HonestQueue;
    Orderly(r, seen, transcript);
    StoredNumber(msgs[i], transcript);
    RunTakesInOrder(r, inputs, seen, transcript);
    var n, r' := Stored(msgs[i]).value.seqNo, RunInputs(r, inputs).0;
    if n >= r'.readSeq {
      forall p: nat | p < |transcript[n].body| || p == 0
        ensures p < |transcript[n].body| || |transcript[n].body| == 0 ==>
                  HasByte(r'.ring[n % MAX_FLIGHT], n, p, |transcript[n].body|)
      {
        PositionArrives(msgs, ps, i, transcript, r, seen, inputs, p);
      }
      BytesMakeComplete(r', n, transcript);
    }
  }

  lemma BytesMakeComplete(r: Receiver, n: uint16, transcript: seq<Message>)
    requires Numbered(transcript) && Faithful(r, transcript) && n < |transcript|
    requires forall p: nat :: p < |transcript[n].body| || p == 0 ==>
               (p < |transcript[n].body| || |transcript[n].body| == 0 ==>
                  HasByte(r.ring[n % MAX_FLIGHT], n, p, |transcript[n].body|))
    ensures CompleteAt(r, n, transcript)
  {
    var slot, bodyLen := r.ring[n % MAX_FLIGHT], |transcript[n].body|;
    assert HasByte(slot, n, 0, bodyLen);
    forall p: nat | p < bodyLen ensures p in slot.value.got.Keys {
      assert HasByte(slot, n, p, bodyLen);
    }
    assert FaithfulSlot(slot.value, transcript);
    assert slot.value.got.Keys == Range(0, bodyLen);
  }

  lemma StoredNumber(msg: OutgoingMessage, transcript: seq<Message>)
    requires Numbered(transcript) && HonestStored(msg, transcript)
    ensures var n := Stored(msg).value.seqNo; n < |transcript| && transcript[n].seqNo == n
  {
    hide Stored;
  }

  /** Takes up to `k` messages off the receiver. */
  function TakeMessages(r: Receiver, k: nat): seq<seq<byte>>
    requires |r.ring| == MAX_FLIGHT
    decreases k
  {
    if k == 0 || GetMessage(r).1.None? then []
    else [GetMessage(r).1.value] + TakeMessages(NextMessage(GetMessage(r).0), k - 1)
  }

  /** Messages complete in the ring are handed out in order. */
  lemma {:induction false} CompleteMessagesAreTaken(r: Receiver, k: nat, transcript: seq<Message>)
    requires |r.ring| == MAX_FLIGHT && Numbered(transcript) && Faithful(r, transcript)
    requires k <= MAX_FLIGHT && r.readSeq + k <= |transcript| && r.readSeq + k < 0x1_0000
    requires forall n: uint16 :: r.readSeq <= n < r.readSeq + k ==> CompleteAt(r, n, transcript)
    ensures |TakeMessages(r, k)| == k
    ensures forall i :: 0 <= i < k ==> TakeMessages(r, k)[i] == Raw(transcript[r.readSeq + i])
    decreases k
  {
    hide Raw, Faithful, CompleteAt, Assembled, CurrentComplete;
    if k > 0 {
      TakeOne(r, transcript);
      var r2 := NextMessage(GetMessage(r).0);
      forall n: uint16 | r2.readSeq <= n < r2.readSeq + (k - 1) ensures CompleteAt(r2, n, transcript) {
        assert CompleteAt(r, n, transcript);
        OthersStay(r, n, transcript);
      }
      CompleteMessagesAreTaken(r2, k - 1, transcript);
    }
  }

  lemma OthersStay(r: Receiver, n: uint16, transcript: seq<Message>)
    requires |r.ring| == MAX_FLIGHT && Numbered(transcript) && n < |transcript|
    requires r.readSeq < n < r.readSeq + MAX_FLIGHT && CompleteAt(r, n, transcript)
    ensures CompleteAt(NextMessage(GetMessage(r).0), n, transcript)
  {
    hide Assembled, SlotFor;
    assert n % MAX_FLIGHT != r.readSeq % MAX_FLIGHT;
  }

  lemma TakeOne(r: Receiver, transcript: seq<Message>)
    requires |r.ring| == MAX_FLIGHT && Numbered(transcript) && Faithful(r, transcript) && r.readSeq + 1 < 0x1_0000
    requires r.readSeq < |transcript| && CompleteAt(r, r.readSeq, transcript)
    ensures GetMessage(r).1 == Some(Raw(transcript[r.readSeq]))
    ensures var r' := NextMessage(GetMessage(r).0);
            |r'.ring| == MAX_FLIGHT && Faithful(r', transcript) && r'.readSeq == r.readSeq + 1 && !r'.hasMessage
  {
    hide Assembled, Raw;
    AssembledIsRaw(r.ring[r.readSeq % MAX_FLIGHT].value, transcript);
    var r1 := GetMessage(r).0;
    NextKeepsRing(r1);
    var r2 := NextMessage(r1);
    forall i | 0 <= i < MAX_FLIGHT && r2.ring[i].Some? ensures FaithfulSlot(r2.ring[i].value, transcript) {
      assert FaithfulSlot(r.ring[i].value, transcript);
    }
  }

  // --- In every run -----------------------------------------------------------------------------

  /** Every record a pass seals is honest, and no two records have the same number. */
  lemma {:induction false} FlightHonest(s: Sender, mtu: nat, bio: seq<int>, transcript: seq<Message>)
    requires SenderInv(s) && Numbered(transcript) && HonestQueue(s.msgs, transcript)
    ensures forall rec :: rec in Records(SendFlight(s, mtu, bio).2) ==> HonestRecord(rec, transcript)
    decreases |bio|
  {
    hide SealPacket, HonestRecord, HonestStored, WellQueued, PendingFrom, PacketItems, ValidAead;
    if s.written < |s.msgs| {
      PacketHonest(s, mtu, false, transcript);
      PacketConserves(s, mtu, false);
      var (s1, status, xs) := NextPacket(s, mtu);
      forall rec | rec in Records(xs) ensures HonestRecord(rec, transcript) {
        var i :| 0 <= i < |xs| && xs[i].rec == rec;
        assert xs[i] in xs;
      }
      if status.PacketReady? && bio != [] && bio[0] > 0 {
        FlightHonest(s1, mtu, bio[1..], transcript);
        RecordsAppend(xs, SendFlight(s1, mtu, bio[1..]).2);
      }
    }
  }

  lemma RecordsAppend(xs: seq<SealedRecord>, ys: seq<SealedRecord>)
    ensures Records(xs + ys) == Records(xs) + Records(ys)
  {
  }

  lemma {:induction false} FlightNumbers(s: Sender, mtu: nat, bio: seq<int>, log: seq<Record>)
    requires UniqueNumbers(log) && forall rec :: rec in log ==> Below(rec, s)
    ensures UniqueNumbers(log + Records(SendFlight(s, mtu, bio).2))
    decreases |bio|
  {
    hide SealPacket, UniqueNumbers, Below;
    assert log + Records([]) == log;
    if s.written < |s.msgs| {
      PacketNumbers(s, mtu, false, log);
      var (s1, status, xs) := NextPacket(s, mtu);
      if status.PacketReady? && bio != [] && bio[0] > 0 {
        FlightNumbers(s1, mtu, bio[1..], log + Records(xs));
        var ys := SendFlight(s1, mtu, bio[1..]).2;
        RecordsAppend(xs, ys);
        assert log + Records(xs) + Records(ys) == log + Records(xs + ys);
      }
    }
  }

  /** The packets handed over hold records that were sealed. */
  lemma {:induction false} PassIsSealed(s: Sender, mtu: nat, bio: seq<int>, rec: Record)
    requires InPass(rec, SendFlight(s, mtu, bio).1)
    ensures rec in Records(SendFlight(s, mtu, bio).2)
    decreases |bio|
  {
    hide SealPacket;
    var (s1, status, xs) := NextPacket(s, mtu);
    var p, x :| p in SendFlight(s, mtu, bio).1 && x in p && x.rec == rec;
    if p == xs {
      var i :| 0 <= i < |xs| && xs[i] == x;
      assert Records(SendFlight(s, mtu, bio).2)[i] == rec;
    } else {
      var (s2, ps, ys, res) := SendFlight(s1, mtu, bio[1..]);
      assert p in ps;
      PassIsSealed(s1, mtu, bio[1..], rec);
      RecordsAppend(xs, ys);
    }
  }

  /** What the receiver can open is among the records sealed so far and those of the pass; forgeries it cannot. */
  ghost predicate FromTheSender(arrivals: seq<Arrival>, log: seq<Record>) {
    forall a :: a in arrivals && a.opens ==> a.rec in log
  }

  ghost predicate PassGetsThrough(n: uint16, ps: seq<seq<SealedRecord>>, arrivals: seq<Arrival>, epoch: uint16,
                                  seen: set<uint64>)
  {
    forall rec :: InPass(rec, ps) && Carries(rec, n) ==> GetsThrough(rec, arrivals, epoch, seen)
  }

  /** A pass from the first message that is not stopped before the last. */
  predicate WholePass(s: Sender, mtu: nat, bio: seq<int>) {
    var res := SendFlight(Rewind(s), mtu, bio).3;
    res.Sent? || res.NotFlushed?
  }

  lemma SameRecord(log: seq<Record>, a: Record, b: Record)
    requires UniqueNumbers(log) && a in log && b in log && a.epoch == b.epoch && Number(a) == Number(b)
    ensures a == b
  {
    var i :| 0 <= i < |log| && log[i] == a;
    var j :| 0 <= j < |log| && log[j] == b;
  }

  lemma {:induction false} NumberIsNew(s: System, sealed: seq<Record>, rec: Record)
    requires WindowInv(s) && UniqueNumbers(s.log + sealed) && rec in sealed && rec.epoch == s.receiver.epoch
    ensures Number(rec) !in s.seen
  {
    hide ReplayWindow.Represents, UniqueNumbers;
    if Number(rec) in s.seen {
      assert WasSealed(Number(rec), s.log, s.receiver.epoch);
      var old' :| old' in s.log && old'.epoch == s.receiver.epoch && Number(old') == Number(rec);
      var all := s.log + sealed;
      var i :| 0 <= i < |s.log| && s.log[i] == old';
      var j :| 0 <= j < |sealed| && sealed[j] == rec;
      assert all[i] == old' && all[|s.log| + j] == rec;
      Clash(all, i, |s.log| + j);
    }
  }

  lemma Clash(log: seq<Record>, i: nat, j: nat)
    requires UniqueNumbers(log) && i < j < |log| && log[i].epoch == log[j].epoch
    ensures Number(log[i]) != Number(log[j])
  {
  }

  lemma {:induction false} ArrivalsAreAuthentic(arrivals: seq<Arrival>, epoch: uint16, all: seq<Record>,
                                                transcript: seq<Message>)
    requires UniqueNumbers(all) && FromTheSender(arrivals, all)
    requires forall rec :: rec in all ==> HonestRecord(rec, transcript)
    ensures Authentic(arrivals, epoch, transcript) && OneRecordANumber(arrivals, epoch)
  {
    hide HonestRecord, UniqueNumbers;
    forall a, b | a in arrivals && b in arrivals && SameNumber(a, b, epoch) ensures a.rec == b.rec {
      SameRecord(all, a.rec, b.rec);
    }
  }

  /** The records of a pass from a state of a run: honest, with numbers of their own, none of them seen. */
  lemma {:induction false} PassIsAuthentic(s: System, mtu: nat, bio: seq<int>, arrivals: seq<Arrival>)
    requires ContentInv(s) && NumberInv(s) && WindowInv(s) && !s.wrapped
    requires FromTheSender(arrivals, s.log + Records(SendFlight(Rewind(s.sender), mtu, bio).2))
    ensures Authentic(arrivals, s.receiver.epoch, s.transcript) && OneRecordANumber(arrivals, s.receiver.epoch)
    ensures InOrder(s.receiver, s.seen, s.transcript)
    ensures UniqueNumbers(s.log + Records(SendFlight(Rewind(s.sender), mtu, bio).2))
  {
    var from := Rewind(s.sender);
    hide SendFlight, Stored, WellQueued, PendingFrom, HonestRecord, UniqueNumbers, FromTheSender, Raw, FaithfulSlot;
    hide ReplayWindow.Represents, SlotInv, IsComplete;
    FlightHonest(from, mtu, bio, s.transcript);
    assert forall rec :: Below(rec, s.sender) ==> Below(rec, from);
    FlightNumbers(from, mtu, bio, s.log);
    ArrivalsAreAuthentic(arrivals, s.receiver.epoch, s.log + Records(SendFlight(from, mtu, bio).2), s.transcript);
  }

  lemma {:induction false} StateArrives(s: System, mtu: nat, bio: seq<int>, inputs: seq<Input>, i: nat)
    requires ContentInv(s) && NumberInv(s) && WindowInv(s) && PassAndInputs(s, mtu, bio, inputs)
    requires i < |s.sender.msgs| && !s.sender.msgs[i].isCcs && HonestStored(s.sender.msgs[i], s.transcript)
    requires RunInputs(s.receiver, inputs).1.Success?
    requires var n := Stored(s.sender.msgs[i]).value.seqNo;
             n < s.receiver.readSeq + MAX_FLIGHT &&
             PassGetsThrough(n, SendFlight(Rewind(s.sender), mtu, bio).1, ArrivalsOf(inputs), s.receiver.epoch, s.seen)
    ensures var n, r' := Stored(s.sender.msgs[i]).value.seqNo, RunInputs(s.receiver, inputs).0;
            n < |s.transcript| && (n < r'.readSeq || CompleteAt(r', n, s.transcript))
  {
    var from := Rewind(s.sender);
    var (s', ps, sealed, res) := SendFlight(from, mtu, bio);
    hide SendFlight, Stored, WellQueued, PendingFrom, PacketsItems, HonestRecord, UniqueNumbers, InPass, InOrder;
    hide FromTheSender, RunInputs, Proper, Carries, ReplayWindow.Represents, GetsThrough, Faithful, Raw, CompleteAt;
    PassIsAuthentic(s, mtu, bio, ArrivalsOf(inputs));
    FlightConserves(from, mtu, bio);
    var n := Stored(s.sender.msgs[i]).value.seqNo;
    forall rec | InPass(rec, ps) && Carries(rec, n)
      ensures GetsThrough(rec, ArrivalsOf(inputs), s.receiver.epoch, s.seen) && Number(rec) !in s.seen
    {
      PassIsSealed(from, mtu, bio, rec);
      ThroughHasEpoch(rec, ArrivalsOf(inputs), s.receiver.epoch, s.seen);
      NumberIsNew(s, Records(sealed), rec);
    }
    PassArrives(s.sender.msgs, ps, i, s.transcript, s.receiver, s.seen, inputs);
  }

  lemma ThroughHasEpoch(rec: Record, arrivals: seq<Arrival>, epoch: uint16, seen: set<uint64>)
    requires GetsThrough(rec, arrivals, epoch, seen)
    ensures rec.epoch == epoch
  {
  }

  /** Message `n` is queued, and all its records of the pass get through. */
  ghost predicate IsDelivered(s: System, n: uint16, mtu: nat, bio: seq<int>, arrivals: seq<Arrival>) {
    exists i: nat :: IsQueuedAt(s.sender, n, i) &&
                     PassGetsThrough(n, SendFlight(Rewind(s.sender), mtu, bio).1, arrivals, s.receiver.epoch, s.seen)
  }

  predicate IsQueuedAt(s: Sender, n: uint16, i: nat) {
    i < |s.msgs| && !s.msgs[i].isCcs && Stored(s.msgs[i]).Some? && Stored(s.msgs[i]).value.seqNo == n
  }

  /** One whole pass over the flight, and what happens to the receiver: any records, of which it can open only those the
      sender has sealed by the end of the pass, in any order and with any repetitions, and in between the handshake
      takes messages and advances past them. */
  ghost predicate PassAndInputs(s: System, mtu: nat, bio: seq<int>, inputs: seq<Input>)
    requires |s.receiver.ring| == MAX_FLIGHT
  {
    && !s.wrapped && WholePass(s.sender, mtu, bio) && Proper(s.receiver, inputs)
    && FromTheSender(ArrivalsOf(inputs), s.log + Records(SendFlight(Rewind(s.sender), mtu, bio).2))
  }

  /** From any state of any run: a message all of whose records get through in the read epoch has been consumed or is
      complete at the receiver, unless a record was answered with an error or ended the connection. */
  lemma {:induction false} FlightArrives(trace: seq<System>, actions: seq<Action>, nullCipher: Aead, t: nat,
                                         mtu: nat, bio: seq<int>, inputs: seq<Input>, n: uint16)
    requires IsRun(trace, actions, nullCipher) && t < |trace| && |trace[t].transcript| < 0x1_0000
    requires |trace[t].receiver.ring| == MAX_FLIGHT && PassAndInputs(trace[t], mtu, bio, inputs)
    requires IsDelivered(trace[t], n, mtu, bio, ArrivalsOf(inputs)) && n < trace[t].receiver.readSeq + MAX_FLIGHT
    ensures var s := trace[t];
            && Numbered(s.transcript) && n < |s.transcript|
            && var (r', status) := RunInputs(s.receiver, inputs);
               status.Success? ==> n < r'.readSeq || CompleteAt(r', n, s.transcript)
  {
    hide Stored, WellQueued, PendingFrom, SendFlight, FromTheSender, PassGetsThrough, Faithful, HonestRecord;
    hide NumberInv, WindowInv, WholePass, Proper, RunInputs, CompleteAt;
    RunInv(trace, actions, nullCipher, t);
    var s := trace[t];
    var i: nat :| IsQueuedAt(s.sender, n, i) &&
                  PassGetsThrough(n, SendFlight(Rewind(s.sender), mtu, bio).1, ArrivalsOf(inputs), s.receiver.epoch,
                                  s.seen);
    assert HonestStored(s.sender.msgs[i], s.transcript);
    if RunInputs(s.receiver, inputs).1.Success? {
      StateArrives(s, mtu, bio, inputs, i);
    }
  }

  /** A message whose records are not kept is where it was: records of another epoch, repetitions and records that fall
      out of the window bring nothing. */
  lemma {:induction false} OthersBringNothing(trace: seq<System>, actions: seq<Action>, nullCipher: Aead, t: nat,
                                              mtu: nat, bio: seq<int>, inputs: seq<Input>, n: uint16)
    requires IsRun(trace, actions, nullCipher) && t < |trace| && |trace[t].transcript| < 0x1_0000
    requires |trace[t].receiver.ring| == MAX_FLIGHT && PassAndInputs(trace[t], mtu, bio, inputs)
    requires trace[t].receiver.readSeq <= n < trace[t].receiver.readSeq + MAX_FLIGHT
    requires forall rec :: rec in Kept(ArrivalsOf(inputs), trace[t].receiver.epoch, trace[t].seen) ==> !Carries(rec, n)
    ensures var (r', status) := RunInputs(trace[t].receiver, inputs);
            status.Success? ==>
              n < r'.readSeq || r'.ring[n % MAX_FLIGHT] == trace[t].receiver.ring[n % MAX_FLIGHT]
  {
    hide ContentInv, NumberInv, WindowInv, SendFlight, FromTheSender, Kept, Carries, Proper, RunInputs, InOrder;
    hide Authentic;
    RunInv(trace, actions, nullCipher, t);
    var s := trace[t];
    PassIsAuthentic(s, mtu, bio, ArrivalsOf(inputs));
    if RunInputs(s.receiver, inputs).1.Success? {
      RunElsewhere(s.receiver, inputs, s.seen, s.transcript, n);
    }
  }

  /** After a change of read keys no number counts as seen, so that what the old epoch lost is made up for by a pass in
      the new one: only what arrives from here on decides. */
  lemma {:induction false} NextEpochArrives(trace: seq<System>, actions: seq<Action>, nullCipher: Aead, t: nat,
                                            mtu: nat, bio: seq<int>, inputs: seq<Input>, i: nat)
    requires IsRun(trace, actions, nullCipher) && t < |actions| && actions[t] == ChangeReadKeys
    requires |trace[t].receiver.ring| == MAX_FLIGHT && SetReadState(trace[t].receiver).1
    requires |trace[t + 1].transcript| < 0x1_0000
    requires |trace[t + 1].receiver.ring| == MAX_FLIGHT && PassAndInputs(trace[t + 1], mtu, bio, inputs)
    requires IsQueuedAt(trace[t + 1].sender, trace[t].receiver.readSeq, i)
    requires PassGetsThrough(trace[t].receiver.readSeq, SendFlight(Rewind(trace[t + 1].sender), mtu, bio).1,
                             ArrivalsOf(inputs), (trace[t].receiver.epoch + 1) % 0x1_0000, {})
    ensures var s, n := trace[t + 1], trace[t].receiver.readSeq;
            && Numbered(s.transcript) && n < |s.transcript|
            && var (r', status) := RunInputs(s.receiver, inputs);
               status.Success? ==> n < r'.readSeq || CompleteAt(r', n, s.transcript)
  {
    hide Stored, SendFlight, PassGetsThrough, RunInputs, HasUnprocessedData, PassAndInputs, CompleteAt;
    assert StepsTo(trace[t], actions[t], trace[t + 1]);
    assert trace[t + 1].seen == {} && trace[t + 1].receiver.readSeq == trace[t].receiver.readSeq;
    FlightArrives(trace, actions, nullCipher, t + 1, mtu, bio, inputs, trace[t].receiver.readSeq);
  }

  /** End to end: if the next `k` messages are queued and all their records get through, the messages the handshake has
      advanced past in between and those it can take at the end begin with exactly these, byte for byte and in order. */
  lemma {:induction false} FlightIsTaken(trace: seq<System>, actions: seq<Action>, nullCipher: Aead, t: nat,
                                         mtu: nat, bio: seq<int>, inputs: seq<Input>, k: nat)
    requires IsRun(trace, actions, nullCipher) && t < |trace| && |trace[t].transcript| < 0x1_0000
    requires |trace[t].receiver.ring| == MAX_FLIGHT && PassAndInputs(trace[t], mtu, bio, inputs)
    requires 0 < k <= MAX_FLIGHT && trace[t].receiver.readSeq + k < 0x1_0000
    requires forall n: uint16 :: trace[t].receiver.readSeq <= n < trace[t].receiver.readSeq + k ==>
               IsDelivered(trace[t], n, mtu, bio, ArrivalsOf(inputs))
    requires RunInputs(trace[t].receiver, inputs).1.Success?
    ensures var s := trace[t];
            var taken := Consumed(s.receiver, inputs);
            var all := taken + TakeMessages(RunInputs(s.receiver, inputs).0, if |taken| < k then k - |taken| else 0);
            Numbered(s.transcript) && |all| >= k && AreNext(all, |s.consumed|, s.transcript)
  {
    hide Stored, SendFlight, PassAndInputs, RunInputs, IsDelivered, CompleteAt, Raw, TakeMessages, Below, Consumed;
    hide HonestRecord, HonestStored, WellQueued, UniqueNumbers, ReplayWindow.Represents, Kept, InOrder, AreNext;
    RunInv(trace, actions, nullCipher, t);
    var s := trace[t];
    var r, taken := RunInputs(s.receiver, inputs).0, Consumed(s.receiver, inputs);
    StateTakesInOrder(s, mtu, bio, inputs);
    if |taken| < k {
      forall n: uint16 | r.readSeq <= n < s.receiver.readSeq + k
        ensures n < |s.transcript| && CompleteAt(r, n, s.transcript)
      {
        FlightArrives(trace, actions, nullCipher, t, mtu, bio, inputs, n);
      }
      var left := k - |taken|;
      var last: uint16 := s.receiver.readSeq + k - 1;
      FlightArrives(trace, actions, nullCipher, t, mtu, bio, inputs, last);
      CompleteMessagesAreTaken(r, left, s.transcript);
      TakenAreNext(r, left, s.transcript);
      AreNextJoined(taken, TakeMessages(r, left), s.receiver.readSeq, s.transcript);
    } else {
      TakeNothing(r);
      assert taken + [] == taken;
    }
  }

  lemma TakeNothing(r: Receiver)
    requires |r.ring| == MAX_FLIGHT
    ensures TakeMessages(r, 0) == []
  {
  }

  lemma TakenAreNext(r: Receiver, k: nat, transcript: seq<Message>)
    requires |r.ring| == MAX_FLIGHT && Numbered(transcript) && r.readSeq + k <= |transcript|
    requires |TakeMessages(r, k)| == k
    requires forall i :: 0 <= i < k ==> TakeMessages(r, k)[i] == Raw(transcript[r.readSeq + i])
    ensures AreNext(TakeMessages(r, k), r.readSeq, transcript)
  {
    hide TakeMessages, Raw;
  }

  lemma StateTakesInOrder(s: System, mtu: nat, bio: seq<int>, inputs: seq<Input>)
    requires ContentInv(s) && NumberInv(s) && WindowInv(s)
    requires |s.receiver.ring| == MAX_FLIGHT && PassAndInputs(s, mtu, bio, inputs)
    requires RunInputs(s.receiver, inputs).1.Success?
    ensures var r, c := RunInputs(s.receiver, inputs).0, Consumed(s.receiver, inputs);
            && Faithful(r, s.transcript) && r.readSeq == s.receiver.readSeq + |c|
            && AreNext(c, s.receiver.readSeq, s.transcript)
  {
    hide ContentInv, NumberInv, WindowInv, SendFlight, FromTheSender, Proper, RunInputs, InOrder, Authentic, Consumed;
    hide AreNext, Faithful;
    PassIsAuthentic(s, mtu, bio, ArrivalsOf(inputs));
    RunTakesInOrder(s.receiver, inputs, s.seen, s.transcript);
  }

  // --- The first message of a connection --------------------------------------------------------

  function PlainText(): Aead {
    Aead(0xfeff, 0, 0, (n, t, p) => Some(p))
  }

  /** A queued message that fits the packet is sealed into one record. */
  lemma SoleMessagePacket(s: Sender, m: Message, mtu: nat) returns (x: SealedRecord)
    requires s.written == 0 && s.offset == 0 && s.epoch == 0 && s.aead == PlainText() && s.seqNum + 1 < SEQ_LIMIT
    requires |m.body| <= 0x1000 && s.msgs == [OutgoingMessage(Raw(m), 0, false)]
    requires mtu >= |m.body| + HEADER_LENGTH + 1 + RECORD_HEADER_LENGTH
    ensures x.rec == Record(0, s.seqNum, Handshake, Raw(m))
    ensures NextPacket(s, mtu) == (Advance(s.(seqNum := s.seqNum + 1)), PacketReady, [x])
  {
    hide Stored, Serialize, RecordBytes, Raw;
    StoredWhole(m, 0);
    RawLength(m);
    var s1 := s.(seqNum := s.seqNum + 1);
    x := SealRecord(s, false, Handshake, Raw(m)).1.value;
    assert SealNextMessage(s, mtu) == (s1, HandshakeSend.Whole(x));
    hide SealNextMessage;
    var left := if x.Len() <= mtu then mtu - x.Len() else 0;
    assert SealPacket(Advance(s1), left, true) == (Advance(s1), PacketReady, []);
    assert [x] + [] == [x];
  }

  /** A pass over it is this one packet. */
  lemma SoleMessagePass(s: Sender, m: Message, mtu: nat) returns (x: SealedRecord)
    requires s.written == 0 && s.offset == 0 && s.epoch == 0 && s.aead == PlainText() && s.seqNum + 1 < SEQ_LIMIT
    requires |m.body| <= 0x1000 && s.msgs == [OutgoingMessage(Raw(m), 0, false)]
    requires mtu >= |m.body| + HEADER_LENGTH + 1 + RECORD_HEADER_LENGTH
    ensures x.rec == Record(0, s.seqNum, Handshake, Raw(m))
    ensures var (s', packets, sealed, res) := SendFlight(s, mtu, [1, 1]);
            packets == [[x]] && sealed == [x] && res == Sent
  {
    hide SealPacket, Raw;
    x := SoleMessagePacket(s, m, mtu);
    var s', bio := NextPacket(s, mtu).0, [1, 1];
    assert SendFlight(s', mtu, bio[1..]) == (s', [], [], Sent);
    assert SendFlight(s, mtu, bio) == (s', [[x]] + [], [x] + [], Sent);
  }

  lemma FirstRecordIsHarmless(m: Message)
    requires |m.body| <= 0x1000 && m.seqNo == 0
    ensures |Raw(m)| <= MAX_PLAIN_LENGTH && Harmless(Record(0, 0, Handshake, Raw(m)), INITIAL, |m.body|)
    ensures Carries(Record(0, 0, Handshake, Raw(m)), 0)
  {
    hide Parse, Serialize;
    ParseSerialize(HandshakeFragment.Whole(m), []);
    assert Raw(m) + [] == Raw(m);
  }

  /** The first message of a connection is queued, and the pass over it sends it in one record. */
  lemma {:induction false} FirstMessageIsSent(typ: byte, body: seq<byte>)
    returns (trace: seq<System>, actions: seq<Action>, x: SealedRecord)
    requires |body| <= 0x1000
    ensures IsRun(trace, actions, PlainText()) && |trace| == 2
    ensures var s, m := trace[1], Message(typ, 0, body);
            && s.receiver == INITIAL && s.seen == {} && s.consumed == [] && s.transcript == [m] && !s.wrapped
            && IsQueuedAt(s.sender, 0, 0) && x.rec == Record(0, 0, Handshake, Raw(m))
            && var (s', packets, sealed, res) := SendFlight(Rewind(s.sender), 0x2000, [1, 1]);
               packets == [[x]] && sealed == [x] && res == Sent
  {
    hide Raw, Stored, SendFlight, SealPacket, RecordBytes;
    var m, start := Message(typ, 0, body), Start(PlainText());
    var s := Step(start, Send(typ, body));
    RawLength(m);
    trace, actions := [start, s], [Send(typ, body)];
    assert StepsTo(trace[0], actions[0], trace[0 + 1]);
    StoredWhole(m, 0);
    assert s.sender.msgs == [OutgoingMessage(Raw(m), 0, false)];
    x := SoleMessagePass(Rewind(s.sender), m, 0x2000);
  }

  /** What the results above ask for can be met: the first message of a connection is sent, arrives and is taken. */
  lemma {:induction false} FirstMessageIsTaken(typ: byte, body: seq<byte>)
    returns (trace: seq<System>, actions: seq<Action>, inputs: seq<Input>)
    requires |body| <= 0x1000
    ensures IsRun(trace, actions, PlainText()) && |trace| == 2 && |trace[1].receiver.ring| == MAX_FLIGHT
    ensures PassAndInputs(trace[1], 0x2000, [1, 1], inputs)
    ensures IsDelivered(trace[1], 0, 0x2000, [1, 1], ArrivalsOf(inputs))
    ensures RunInputs(trace[1].receiver, inputs).1.Success?
    ensures TakeMessages(RunInputs(trace[1].receiver, inputs).0, 1) == [Raw(Message(typ, 0, body))]
  {
    hide Raw, IsRun, SendFlight, TakeMessages, RunInputs, Harmless, HarmlessRun, Proper, Consumed, ArrivalsOf, InOrder;
    hide ContentInv, NumberInv, WindowInv, IsQueuedAt, Authentic, OneRecordANumber;
    var x;
    trace, actions, x := FirstMessageIsSent(typ, body);
    var s := trace[1];
    FirstRecordIsHarmless(Message(typ, 0, body));
    inputs := [Arrives(x.rec, true, |body|)];
    SoleArrival(s.receiver, x.rec, |body|);
    assert Records([x]) == [x.rec];
    assert ArrivesAt(x.rec, ArrivalsOf(inputs), 0, {}, 0);
    assert forall rec :: InPass(rec, [[x]]) ==> rec == x.rec;
    RunInv(trace, actions, PlainText(), 1);
    PassIsAuthentic(s, 0x2000, [1, 1], ArrivalsOf(inputs));
    HarmlessSucceeds(s.receiver, inputs, s.seen, s.transcript);
    SoleArrivalTakes(s.receiver, x.rec, |body|);
    FlightIsTaken(trace, actions, PlainText(), 1, 0x2000, [1, 1], inputs, 1);
    OneNext(Consumed(s.receiver, inputs) + TakeMessages(RunInputs(s.receiver, inputs).0, 1), s.transcript);
  }

  lemma OneNext(raws: seq<seq<byte>>, transcript: seq<Message>)
    requires Numbered(transcript) && |transcript| == 1 && |raws| >= 1 && AreNext(raws, 0, transcript)
    ensures raws == [Raw(transcript[0])]
  {
    hide Raw;
    AreNextFit(raws, 0, transcript);
    assert IsRawOf(raws[0], 0 + 0, transcript);
  }

  lemma SoleArrival(r: Receiver, rec: Record, maxLen: nat)
    requires r == INITIAL && Harmless(rec, r, maxLen)
    ensures var inputs := [Arrives(rec, true, maxLen)];
            && ArrivalsOf(inputs) == [Arrival(rec, true)] && Proper(r, inputs) && HarmlessRun(r, inputs)
  {
    hide Harmless, OpenHandshake;
    var inputs := [Arrives(rec, true, maxLen)];
    assert inputs[1..] == [];
    assert ArrivalOf(inputs[0]) + [] == ArrivalOf(inputs[0]);
  }

  lemma SoleArrivalTakes(r: Receiver, rec: Record, maxLen: nat)
    requires |r.ring| == MAX_FLIGHT
    ensures Consumed(r, [Arrives(rec, true, maxLen)]) == []
  {
    hide OpenHandshake;
    var inputs := [Arrives(rec, true, maxLen)];
    assert inputs[1..] == [];
  }
}
