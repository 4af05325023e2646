/** Records arriving one after the other at the receiver: which of them are kept, and what those make of the ring. */
module HandshakeArrivals {
  import opened Bytes
  import opened HandshakeFragment
  import opened Reassembly
  import opened ReplayWindow
  import opened HandshakeReceive

  /** A record at the receiver, with the verdict of header check and AEAD. */
  datatype Arrival = Arrival(rec: Record, opens: bool)

  function Number(rec: Record): uint64 {
    SequenceU64(rec.epoch, rec.seqNum)
  }

  /** Opens records until one is an error or ends the connection; discarded ones are passed over. */
  function OpenRecords(r: Receiver, arrivals: seq<Arrival>, maxLen: nat): (res: (Receiver, Status))
    requires |r.ring| == MAX_FLIGHT
    ensures |res.0.ring| == MAX_FLIGHT
    decreases |arrivals|
  {
    if arrivals == [] then (r, Success)
    else
      var (r', status) := OpenHandshake(r, arrivals[0].rec, arrivals[0].opens, maxLen);
      if status.Error? || status.CloseNotify? then (r', status) else OpenRecords(r', arrivals[1..], maxLen)
  }

  // --- Which records are kept -------------------------------------------------------------------

  /** Neither seen nor 64 or more below a number that was. */
  ghost predicate IsFresh(seen: set<uint64>, number: uint64) {
    number !in seen && forall m :: m in seen ==> m < number + WINDOW_SIZE
  }

  ghost predicate IsKept(a: Arrival, epoch: uint16, seen: set<uint64>) {
    a.opens && a.rec.epoch == epoch && IsFresh(seen, Number(a.rec))
  }

  /** The arrivals that are kept: those of the read epoch that are fresh when they arrive. All others are lost. */
  ghost function Kept(arrivals: seq<Arrival>, epoch: uint16, seen: set<uint64>): seq<Record>
    decreases |arrivals|
  {
    if arrivals == [] then []
    else if IsKept(arrivals[0], epoch, seen) then
      [arrivals[0].rec] + Kept(arrivals[1..], epoch, seen + {Number(arrivals[0].rec)})
    else Kept(arrivals[1..], epoch, seen)
  }

  ghost function Numbers(recs: seq<Record>): set<uint64> {
    set rec | rec in recs :: Number(rec)
  }

  /** A record that is not kept changes nothing at all; one that is kept is recorded in the window. */
  lemma RecordLostExactly(r: Receiver, a: Arrival, seen: set<uint64>)
    requires !r.closed && Represents(r.window, seen) && |a.rec.plain| <= MAX_PLAIN_LENGTH
    ensures !IsKept(a, r.epoch, seen) <==> OpenRecord(r, a.rec, a.opens) == (r, Discard)
    ensures IsKept(a, r.epoch, seen) ==>
              Represents(OpenRecord(r, a.rec, a.opens).0.window, seen + {Number(a.rec)})
  {
    hide Represents;
    DiscardsExactly(r.window, seen, Number(a.rec));
    RecordRepresents(r.window, seen, Number(a.rec));
  }

  // --- What the kept records make of the ring ---------------------------------------------------

  /** A handshake record carries one piece of a transcript message. */
  ghost predicate HonestRecord(rec: Record, transcript: seq<Message>) {
    rec.ctype == Handshake ==>
      Parse(rec.plain).Some? && Parse(rec.plain).value.1 == [] && Honest(Parse(rec.plain).value.0, transcript)
  }

  /** Nothing in the record is an error to a receiver in this state. */
  ghost predicate Harmless(rec: Record, r: Receiver, maxLen: nat) {
    && |rec.plain| <= MAX_PLAIN_LENGTH
    && match rec.ctype
       case Handshake =>
         Parse(rec.plain).Some? ==>
           var f := Parse(rec.plain).value.0;
           && f.msgLen <= maxLen && f.seqNo != r.readSeq + MAX_FLIGHT
           && (r.epoch == 1 ==> f.seqNo == r.readSeq)
       case ChangeCipherSpec => r.nullCipher && rec.plain == [1]
       case ApplicationData => !r.nullCipher
       case _ => false
  }

  /** The records that can be opened are the sender's and harmless; about all others nothing is assumed. */
  ghost predicate Welcome(a: Arrival, r: Receiver, transcript: seq<Message>, maxLen: nat) {
    a.opens && a.rec.epoch == r.epoch ==> Harmless(a.rec, r, maxLen) && HonestRecord(a.rec, transcript)
  }

  predicate InRing(f: Fragment, readSeq: uint16) {
    readSeq <= f.seqNo < readSeq + MAX_FLIGHT
  }

  /** The fragments in handshake records that fall into the ring. */
  function Fragments(recs: seq<Record>, readSeq: uint16): seq<Fragment> {
    if recs == [] then [] else FragmentsOf(recs[0], readSeq) + Fragments(recs[1..], readSeq)
  }

  function FragmentsOf(rec: Record, readSeq: uint16): (r: seq<Fragment>)
    ensures |r| <= 1
  {
    if rec.ctype == Handshake && Parse(rec.plain).Some? && InRing(Parse(rec.plain).value.0, readSeq)
    then [Parse(rec.plain).value.0] else []
  }

  /** Equal but for the window, the alert count and the ChangeCipherSpec flag. */
  ghost predicate SameRing(a: Receiver, b: Receiver) {
    a == b.(window := a.window, warnings := a.warnings, hasChangeCipherSpec := a.hasChangeCipherSpec)
  }

  lemma FragmentSameRing(a: Receiver, b: Receiver, f: Fragment, maxLen: nat)
    requires |a.ring| == MAX_FLIGHT && SameRing(a, b)
    ensures OpenFragment(a, f, maxLen).1 == OpenFragment(b, f, maxLen).1
    ensures SameRing(OpenFragment(a, f, maxLen).0, OpenFragment(b, f, maxLen).0)
  {
    hide Fill, IsComplete;
  }

  lemma {:induction false} EachSameRing(a: Receiver, b: Receiver, fs: seq<Fragment>, maxLen: nat)
    requires |a.ring| == MAX_FLIGHT && SameRing(a, b)
    ensures OpenEach(a, fs, maxLen).1 == OpenEach(b, fs, maxLen).1
    ensures SameRing(OpenEach(a, fs, maxLen).0, OpenEach(b, fs, maxLen).0)
    decreases |fs|
  {
    if fs != [] {
      hide OpenFragment;
      FragmentSameRing(a, b, fs[0], maxLen);
      if OpenFragment(a, fs[0], maxLen).1.Success? {
        EachSameRing(OpenFragment(a, fs[0], maxLen).0, OpenFragment(b, fs[0], maxLen).0, fs[1..], maxLen);
      }
    }
  }

  lemma SameRingFaithful(a: Receiver, b: Receiver, transcript: seq<Message>)
    requires Numbered(transcript) && Faithful(a, transcript) && SameRing(a, b)
    ensures Faithful(b, transcript)
  {
    hide FaithfulSlot, SlotInv, IsComplete;
  }

  /** The fragments of a welcome record are the sender's and in the window. */
  lemma WelcomeFragments(a: Arrival, r: Receiver, transcript: seq<Message>, maxLen: nat)
    requires Welcome(a, r, transcript, maxLen) && a.opens && a.rec.epoch == r.epoch
    ensures forall f :: f in FragmentsOf(a.rec, r.readSeq) ==> InWindow(f, r, transcript, maxLen)
  {
    hide Parse, Honest;
  }

  /** A welcome record: kept, it has the effect of its fragment; otherwise none. */
  lemma ArrivalExactly(r: Receiver, a: Arrival, seen: set<uint64>, transcript: seq<Message>, maxLen: nat)
    requires Numbered(transcript) && Faithful(r, transcript) && !r.closed && Represents(r.window, seen)
    requires Welcome(a, r, transcript, maxLen)
    ensures var (r', status) := OpenHandshake(r, a.rec, a.opens, maxLen);
            && (status.Success? || status.Discard?)
            && if IsKept(a, r.epoch, seen) then
                 && Represents(r'.window, seen + {Number(a.rec)})
                 && SameRing(r', OpenEach(r, FragmentsOf(a.rec, r.readSeq), maxLen).0)
               else r' == r
  {
    hide Represents, IsFresh, FaithfulSlot, SlotInv, IsComplete, OpenFragment, Parse, Honest, OpenFragments;
    if IsKept(a, r.epoch, seen) {
      RecordLostExactly(r, a, seen);
      var r1 := OpenRecord(r, a.rec, a.opens).0;
      assert SameRing(r1, r);
      if a.rec.ctype == Handshake {
        SameRingFaithful(r, r1, transcript);
        KeptHandshake(r1, a.rec, transcript, maxLen);
        EachSameRing(r1, r, FragmentsOf(a.rec, r.readSeq), maxLen);
      }
    } else if a.opens && a.rec.epoch == r.epoch {
      RecordLostExactly(r, a, seen);
    }
  }

  lemma KeptHandshake(r: Receiver, rec: Record, transcript: seq<Message>, maxLen: nat)
    requires Numbered(transcript) && Faithful(r, transcript) && rec.ctype == Handshake
    requires Harmless(rec, r, maxLen) && HonestRecord(rec, transcript)
    ensures OpenFragments(r, rec.plain, maxLen) == OpenEach(r, FragmentsOf(rec, r.readSeq), maxLen)
    ensures var (r', status) := OpenFragments(r, rec.plain, maxLen);
            status.Success? && r' == r.(ring := r'.ring) && |r'.ring| == MAX_FLIGHT
  {
    hide Parse, FaithfulSlot, SlotInv, IsComplete, OpenFragment;
    var f := Parse(rec.plain).value.0;
    var (r', status) := OpenFragment(r, f, maxLen);
    SoleFragment(r, f, transcript, maxLen);
    assert OpenFragments(r', [], maxLen) == (r', Success);
    assert OpenEach(r', [], maxLen) == (r', Success);
    assert rec.plain != [];
  }

  lemma SoleFragment(r: Receiver, f: Fragment, transcript: seq<Message>, maxLen: nat)
    requires Numbered(transcript) && Faithful(r, transcript) && Honest(f, transcript) && f.msgLen <= maxLen
    requires f.seqNo != r.readSeq + MAX_FLIGHT && (r.epoch == 1 ==> f.seqNo == r.readSeq)
    ensures var (r', status) := OpenFragment(r, f, maxLen);
            && status.Success? && r' == r.(ring := r'.ring) && |r'.ring| == MAX_FLIGHT
            && (!InRing(f, r.readSeq) ==> r' == r)
  {
    if InRing(f, r.readSeq) {
      HonestFragment(r, f, transcript, maxLen);
    }
  }

  /** The receiver after a kept record is in a state in which the same arrivals are welcome. */
  lemma AfterKept(r: Receiver, r1: Receiver, a: Arrival, transcript: seq<Message>, maxLen: nat)
    requires Numbered(transcript) && Faithful(r, transcript) && Welcome(a, r, transcript, maxLen)
    requires a.opens && a.rec.epoch == r.epoch
    requires SameRing(r1, OpenEach(r, FragmentsOf(a.rec, r.readSeq), maxLen).0)
    ensures OpenEach(r, FragmentsOf(a.rec, r.readSeq), maxLen).1.Success?
    ensures Faithful(r1, transcript) && r1.closed == r.closed && r1.epoch == r.epoch && r1.readSeq == r.readSeq
    ensures forall b :: Welcome(b, r, transcript, maxLen) <==> Welcome(b, r1, transcript, maxLen)
    ensures forall f :: InWindow(f, r, transcript, maxLen) <==> InWindow(f, r1, transcript, maxLen)
  {
    hide Parse, Honest, HonestRecord, OpenFragment, FaithfulSlot, SlotInv, IsComplete, OpenEach;
    WelcomeFragments(a, r, transcript, maxLen);
    OpenEachExactly(r, FragmentsOf(a.rec, r.readSeq), transcript, maxLen);
    var r2 := OpenEach(r, FragmentsOf(a.rec, r.readSeq), maxLen).0;
    SameRingFaithful(r2, r1, transcript);
  }

  lemma EachComposed(r: Receiver, r1: Receiver, first: seq<Fragment>, fs: seq<Fragment>, maxLen: nat)
    requires |r.ring| == MAX_FLIGHT && |first| <= 1 && OpenEach(r, first, maxLen).1.Success?
    requires SameRing(r1, OpenEach(r, first, maxLen).0)
    ensures SameRing(OpenEach(r1, fs, maxLen).0, OpenEach(r, first + fs, maxLen).0)
  {
    hide OpenFragment;
    var r2 := OpenEach(r, first, maxLen).0;
    EachSameRing(r1, r2, fs, maxLen);
    if first == [] {
      assert first + fs == fs;
    } else {
      assert (first + fs)[1..] == fs && first[1..] == [];
    }
  }

  lemma SameRingTransitive(a: Receiver, b: Receiver, c: Receiver)
    requires SameRing(a, b) && SameRing(b, c)
    ensures SameRing(a, c)
  {
  }

  /** Any number of welcome arrivals, in any order and with any repetitions: none is an error, and the ring is what the
      fragments of those kept make of it. */
  lemma {:induction false} OpenRecordsExactly(r: Receiver, arrivals: seq<Arrival>, seen: set<uint64>,
                                              transcript: seq<Message>, maxLen: nat)
    requires Numbered(transcript) && Faithful(r, transcript) && !r.closed && Represents(r.window, seen)
    requires forall a :: a in arrivals ==> Welcome(a, r, transcript, maxLen)
    ensures var (r', status) := OpenRecords(r, arrivals, maxLen);
            var kept := Kept(arrivals, r.epoch, seen);
            && status.Success?
            && Represents(r'.window, seen + Numbers(kept))
            && SameRing(r', OpenEach(r, Fragments(kept, r.readSeq), maxLen).0)
            && forall f :: f in Fragments(kept, r.readSeq) ==> InWindow(f, r, transcript, maxLen)
    decreases |arrivals|
  {
    hide OpenHandshake, OpenFragment, FaithfulSlot, SlotInv, IsComplete, Represents, FragmentsOf, Welcome,
         IsFresh, InWindow;
    var kept := Kept(arrivals, r.epoch, seen);
    if arrivals == [] {
      assert seen + Numbers([]) == seen;
    } else {
      var a := arrivals[0];
      assert Welcome(a, r, transcript, maxLen);
      ArrivalExactly(r, a, seen, transcript, maxLen);
      var r1 := OpenHandshake(r, a.rec, a.opens, maxLen).0;
      if IsKept(a, r.epoch, seen) {
        WelcomeFragments(a, r, transcript, maxLen);
        AfterKept(r, r1, a, transcript, maxLen);
        OpenRecordsExactly(r1, arrivals[1..], seen + {Number(a.rec)}, transcript, maxLen);
        var rest := Kept(arrivals[1..], r.epoch, seen + {Number(a.rec)});
        assert kept[1..] == rest;
        assert seen + Numbers(kept) == seen + {Number(a.rec)} + Numbers(rest);
        EachComposed(r, r1, FragmentsOf(a.rec, r.readSeq), Fragments(rest, r.readSeq), maxLen);
        var r' := OpenRecords(r1, arrivals[1..], maxLen).0;
        SameRingTransitive(r', OpenEach(r1, Fragments(rest, r.readSeq), maxLen).0,
                           OpenEach(r, Fragments(kept, r.readSeq), maxLen).0);
      } else {
        OpenRecordsExactly(r, arrivals[1..], seen, transcript, maxLen);
      }
    }
  }

  // --- Getting through --------------------------------------------------------------------------

  /** The record arrives as number `k`, in the read epoch and less than 64 below every number seen before. */
  ghost predicate ArrivesAt(rec: Record, arrivals: seq<Arrival>, epoch: uint16, seen: set<uint64>, k: nat) {
    && k < |arrivals| && arrivals[k] == Arrival(rec, true) && rec.epoch == epoch
    && (forall m :: m in seen ==> m < Number(rec) + WINDOW_SIZE)
    && forall j :: 0 <= j < k ==> BelowWindowOf(arrivals[j], epoch, Number(rec))
  }

  predicate BelowWindowOf(a: Arrival, epoch: uint16, number: uint64) {
    a.opens && a.rec.epoch == epoch ==> Number(a.rec) < number + WINDOW_SIZE
  }

  ghost predicate GetsThrough(rec: Record, arrivals: seq<Arrival>, epoch: uint16, seen: set<uint64>) {
    exists k: nat :: ArrivesAt(rec, arrivals, epoch, seen, k)
  }

  predicate SameNumber(a: Arrival, b: Arrival, epoch: uint16) {
    a.opens && b.opens && a.rec.epoch == epoch == b.rec.epoch && Number(a.rec) == Number(b.rec)
  }

  /** Two records that can be opened and have the same number in this epoch are the same. */
  ghost predicate OneRecordANumber(arrivals: seq<Arrival>, epoch: uint16) {
    forall a, b :: a in arrivals && b in arrivals && SameNumber(a, b, epoch) ==> a.rec == b.rec
  }

  /** A record is kept if and only if it gets through and its number is new. */
  lemma {:induction false} GetsThroughExactly(rec: Record, arrivals: seq<Arrival>, epoch: uint16, seen: set<uint64>)
    requires OneRecordANumber(arrivals, epoch)
    ensures rec in Kept(arrivals, epoch, seen) <==> GetsThrough(rec, arrivals, epoch, seen) && Number(rec) !in seen
    decreases |arrivals|
  {
    if arrivals != [] {
      var first, rest := arrivals[0], arrivals[1..];
      var seen' := if IsKept(first, epoch, seen) then seen + {Number(first.rec)} else seen;
      GetsThroughExactly(rec, rest, epoch, seen');
      KeptThenThrough(rec, arrivals, epoch, seen);
      ThroughThenKept(rec, arrivals, epoch, seen);
    }
  }

  lemma KeptThenThrough(rec: Record, arrivals: seq<Arrival>, epoch: uint16, seen: set<uint64>)
    requires arrivals != []
    requires var seen' := if IsKept(arrivals[0], epoch, seen) then seen + {Number(arrivals[0].rec)} else seen;
             rec in Kept(arrivals[1..], epoch, seen') ==>
               GetsThrough(rec, arrivals[1..], epoch, seen') && Number(rec) !in seen'
    ensures rec in Kept(arrivals, epoch, seen) ==> GetsThrough(rec, arrivals, epoch, seen) && Number(rec) !in seen
  {
    var first, rest := arrivals[0], arrivals[1..];
    var seen' := if IsKept(first, epoch, seen) then seen + {Number(first.rec)} else seen;
    if rec in Kept(rest, epoch, seen') {
      var k: nat :| ArrivesAt(rec, rest, epoch, seen', k);
      forall j | 0 <= j < k + 1 ensures BelowWindowOf(arrivals[j], epoch, Number(rec)) {
        if j > 0 {
          assert arrivals[j] == rest[j - 1];
        }
      }
      assert ArrivesAt(rec, arrivals, epoch, seen, k + 1);
    } else if rec in Kept(arrivals, epoch, seen) {
      assert ArrivesAt(rec, arrivals, epoch, seen, 0);
    }
  }

  lemma ThroughThenKept(rec: Record, arrivals: seq<Arrival>, epoch: uint16, seen: set<uint64>)
    requires arrivals != [] && OneRecordANumber(arrivals, epoch)
    requires var seen' := if IsKept(arrivals[0], epoch, seen) then seen + {Number(arrivals[0].rec)} else seen;
             GetsThrough(rec, arrivals[1..], epoch, seen') && Number(rec) !in seen' ==>
               rec in Kept(arrivals[1..], epoch, seen')
    ensures GetsThrough(rec, arrivals, epoch, seen) && Number(rec) !in seen ==> rec in Kept(arrivals, epoch, seen)
  {
    if GetsThrough(rec, arrivals, epoch, seen) && Number(rec) !in seen {
      var k: nat :| ArrivesAt(rec, arrivals, epoch, seen, k);
      var first, rest := arrivals[0], arrivals[1..];
      if k == 0 || (first.opens && first.rec.epoch == epoch && Number(first.rec) == Number(rec)) {
        assert arrivals[k] in arrivals && first in arrivals && SameNumber(first, arrivals[k], epoch);
        assert IsKept(first, epoch, seen) && first.rec == rec;
      } else {
        assert BelowWindowOf(arrivals[0], epoch, Number(rec));
        var seen' := if IsKept(first, epoch, seen) then seen + {Number(first.rec)} else seen;
        forall j | 0 <= j < k - 1 ensures BelowWindowOf(rest[j], epoch, Number(rec)) {
          assert BelowWindowOf(arrivals[j + 1], epoch, Number(rec));
        }
        assert ArrivesAt(rec, rest, epoch, seen', k - 1);
      }
    }
  }

  // --- Arrivals with the handshake at work in between -------------------------------------------

  /** Records arrive and the handshake takes messages, until a record is an error or ends the connection. */
  function RunInputs(r: Receiver, inputs: seq<Input>): (res: (Receiver, Status))
    requires |r.ring| == MAX_FLIGHT
    ensures |res.0.ring| == MAX_FLIGHT
    decreases |inputs|
  {
    if inputs == [] then (r, Success)
    else
      var status := Answer(r, inputs[0]);
      if status.Error? || status.CloseNotify? then (React(r, inputs[0]), status)
      else RunInputs(React(r, inputs[0]), inputs[1..])
  }

  /** What a record is answered with; the calls of the handshake are not answered. */
  function Answer(r: Receiver, a: Input): Status
    requires |r.ring| == MAX_FLIGHT
  {
    if a.Arrives? then OpenHandshake(r, a.rec, a.opens, a.maxLen).1 else Success
  }

  /** The handshake stays in the read epoch and advances only past a message it has been given. */
  ghost predicate Proper(r: Receiver, inputs: seq<Input>)
    requires |r.ring| == MAX_FLIGHT
    decreases |inputs|
  {
    inputs == [] ||
    (ProperOne(r, inputs[0]) && Proper(React(r, inputs[0]), inputs[1..]))
  }

  ghost predicate ProperOne(r: Receiver, a: Input) {
    !a.ChangesReadKeys? && (a.Advances? ==> r.hasMessage)
  }

  /** The records among the inputs. */
  function ArrivalsOf(inputs: seq<Input>): seq<Arrival> {
    if inputs == [] then [] else ArrivalOf(inputs[0]) + ArrivalsOf(inputs[1..])
  }

  function ArrivalOf(a: Input): seq<Arrival> {
    if a.Arrives? then [Arrival(a.rec, a.opens)] else []
  }

  /** What can be opened in this epoch is the sender's. */
  ghost predicate Authentic(arrivals: seq<Arrival>, epoch: uint16, transcript: seq<Message>) {
    forall a :: a in arrivals && a.opens && a.rec.epoch == epoch ==> HonestRecord(a.rec, transcript)
  }

  /** The numbers seen once the input has been dealt with. */
  ghost function SeenAfter(r: Receiver, a: Input, seen: set<uint64>): set<uint64> {
    if a.Arrives? && IsKept(Arrival(a.rec, a.opens), r.epoch, seen) then seen + {Number(a.rec)} else seen
  }

  /** Bytes of the sender only, a window that stands for the numbers seen, and room for another message number. */
  ghost predicate InOrder(r: Receiver, seen: set<uint64>, transcript: seq<Message>) {
    Numbered(transcript) && |transcript| < 0x1_0000 && Faithful(r, transcript) && Represents(r.window, seen)
  }

  /** A record that can be opened leaves the receiver with bytes of the transcript only, whatever it answers; one that
      cannot changes nothing. */
  lemma ArriveKeepsFaithful(r: Receiver, rec: Record, opens: bool, maxLen: nat, transcript: seq<Message>)
    requires Numbered(transcript) && Faithful(r, transcript)
    requires opens && rec.epoch == r.epoch ==> HonestRecord(rec, transcript)
    ensures Faithful(OpenHandshake(r, rec, opens, maxLen).0, transcript)
    ensures OpenHandshake(r, rec, opens, maxLen).0.readSeq == r.readSeq
  {
    hide Parse, OpenFragment, OpenRecord, FaithfulSlot, SlotInv, IsComplete;
    OpenRecordFrame(r, rec, opens);
    NotOpened(r, rec, opens);
    var (r', status) := OpenRecord(r, rec, opens);
    assert Faithful(r', transcript);
    if status.Success? && rec.ctype == Handshake && rec.plain != [] {
      var f := Parse(rec.plain).value.0;
      HonestKeepsFaithful(r', f, transcript, maxLen);
      FragmentKeepsRing(r', f, maxLen);
      assert OpenFragments(OpenFragment(r', f, maxLen).0, [], maxLen) == (OpenFragment(r', f, maxLen).0, Success);
    }
  }

  lemma NotOpened(r: Receiver, rec: Record, opens: bool)
    ensures OpenRecord(r, rec, opens).1.Success? ==> opens && rec.epoch == r.epoch
  {
    hide ShouldDiscard, ReplayWindow.Record;
  }

  lemma NextKeepsFaithful(r: Receiver, transcript: seq<Message>)
    requires Numbered(transcript) && |transcript| < 0x1_0000 && Faithful(r, transcript) && r.hasMessage
    ensures Faithful(NextMessage(r), transcript) && NextMessage(r).readSeq == r.readSeq + 1
    ensures r.readSeq < |transcript| && GetMessage(r).1 == Some(Raw(transcript[r.readSeq]))
  {
    hide Raw, Assembled;
    NextKeepsRing(r);
    SlotOfNumber(r, r.readSeq, transcript);
    AssembledIsRaw(r.ring[r.readSeq % MAX_FLIGHT].value, transcript);
    var r' := NextMessage(r);
    forall i | 0 <= i < MAX_FLIGHT && r'.ring[i].Some? ensures FaithfulSlot(r'.ring[i].value, transcript) {
      assert FaithfulSlot(r.ring[i].value, transcript);
    }
  }

  /** One input that is not an error keeps the receiver in order. */
  lemma StepInOrder(r: Receiver, a: Input, seen: set<uint64>, transcript: seq<Message>)
    requires InOrder(r, seen, transcript) && ProperOne(r, a) && Authentic(ArrivalOf(a), r.epoch, transcript)
    requires !Answer(r, a).Error? && !Answer(r, a).CloseNotify?
    ensures |r.ring| == MAX_FLIGHT
    ensures InOrder(React(r, a), SeenAfter(r, a, seen), transcript) && React(r, a).epoch == r.epoch
    ensures React(r, a).readSeq == r.readSeq + if a.Advances? then 1 else 0
  {
    hide Represents, IsFresh, FaithfulSlot, SlotInv, IsComplete, GetMessage, NextMessage, OpenHandshake, HonestRecord;
    match a {
      case Arrives(rec, opens, maxLen) =>
        assert Arrival(rec, opens) in ArrivalOf(a);
        ArriveKeepsFaithful(r, rec, opens, maxLen, transcript);
        ArriveKeepsWindow(r, rec, opens, maxLen, seen);
      case Takes => TakesFrame(r);
      case Advances =>
        NextKeepsFaithful(r, transcript);
        NextFrame(r);
      case _ =>
    }
  }

  lemma ArriveKeepsWindow(r: Receiver, rec: Record, opens: bool, maxLen: nat, seen: set<uint64>)
    requires RingInv(r) && Represents(r.window, seen)
    requires var status := OpenHandshake(r, rec, opens, maxLen).1; !status.Error? && !status.CloseNotify?
    ensures var r' := OpenHandshake(r, rec, opens, maxLen).0;
            && r'.epoch == r.epoch
            && Represents(r'.window,
                          if IsKept(Arrival(rec, opens), r.epoch, seen) then seen + {Number(rec)} else seen)
  {
    hide Represents, ReplayWindow.Record, SlotInv, IsComplete, OpenFragments, ShouldDiscard;
    WindowAfter(r, rec, opens, maxLen);
    DiscardsExactly(r.window, seen, Number(rec));
    RecordRepresents(r.window, seen, Number(rec));
  }

  lemma TakesFrame(r: Receiver)
    requires RingInv(r)
    ensures var r' := GetMessage(r).0; r' == r.(hasMessage := r'.hasMessage) && RingInv(r')
  {
    hide Assembled, SlotInv;
    GetKeepsRing(r);
  }

  lemma NextFrame(r: Receiver)
    requires |r.ring| == MAX_FLIGHT
    ensures NextMessage(r).window == r.window && NextMessage(r).epoch == r.epoch
  {
  }

  // --- What is held stays held ------------------------------------------------------------------

  /** The record carries a piece of message `n`. */
  predicate Carries(rec: Record, n: uint16) {
    rec.ctype == Handshake && Parse(rec.plain).Some? && Parse(rec.plain).value.0.seqNo == n
  }

  /** Message `n` has been consumed, or its slot has the bytes of the fragment. */
  ghost predicate Holds(r: Receiver, n: uint16, f: Fragment)
    requires |r.ring| == MAX_FLIGHT
  {
    n < r.readSeq || HoldsIn(r.ring[n % MAX_FLIGHT], n, f)
  }

  ghost predicate HoldsIn(slot: Option<Slot>, n: uint16, f: Fragment) {
    slot.Some? && slot.value.seqNo == n && FragmentRange(f) <= slot.value.got.Keys
  }

  lemma FragmentKeepsHeld(r: Receiver, f: Fragment, maxLen: nat, n: uint16, g: Fragment)
    requires RingInv(r) && Holds(r, n, g)
    ensures Holds(OpenFragment(r, f, maxLen).0, n, g)
  {
    hide SlotInv, Fill, IsComplete, FragmentRange;
    var r' := OpenFragment(r, f, maxLen).0;
    var idx := f.seqNo % MAX_FLIGHT;
    if r' != r && r.ring[idx].Some? {
      FillHolds(r.ring[idx].value, f);
    }
  }

  /** A fragment that is let in, and is not from the past, is held. */
  lemma FragmentIsHeld(r: Receiver, f: Fragment, maxLen: nat)
    requires RingInv(r) && OpenFragment(r, f, maxLen).1.Success? && f.seqNo < r.readSeq + MAX_FLIGHT
    ensures Holds(OpenFragment(r, f, maxLen).0, f.seqNo, f)
  {
    if f.seqNo >= r.readSeq {
      StoredInItsSlot(r, f, maxLen);
      hide RingInv, Fill, IsComplete, FragmentRange;
      var idx := f.seqNo % MAX_FLIGHT;
      FillHolds(if r.ring[idx].Some? then r.ring[idx].value else Slot(f.typ, f.seqNo, f.msgLen, map[]), f);
    }
  }

  lemma FillHolds(s: Slot, f: Fragment)
    requires f.off + |f.body| <= f.msgLen && s.msgLen == f.msgLen
    ensures var s' := if IsComplete(s) then s else Fill(s, f.off, f.body);
            s'.seqNo == s.seqNo && s.got.Keys <= s'.got.Keys && FragmentRange(f) <= s'.got.Keys
  {
    assert Piece(f.off, f.body).Keys == FragmentRange(f);
  }

  /** A record of one fragment that is not answered with an error has the effect of that fragment. */
  lemma RecordIsFragment(r: Receiver, rec: Record, opens: bool, maxLen: nat, transcript: seq<Message>)
    requires RingInv(r) && HonestRecord(rec, transcript)
    requires OpenRecord(r, rec, opens).1.Success? && rec.ctype == Handshake
    ensures var r1 := OpenRecord(r, rec, opens).0;
            OpenHandshake(r, rec, opens, maxLen) == OpenFragment(r1, Parse(rec.plain).value.0, maxLen)
            && r1 == r.(window := r1.window, closed := r1.closed, warnings := r1.warnings)
  {
    hide Parse, OpenRecord, OpenFragment, SlotInv, IsComplete, Honest;
    OpenRecordFrame(r, rec, opens);
    var r1 := OpenRecord(r, rec, opens).0;
    var f := Parse(rec.plain).value.0;
    var (r2, status) := OpenFragment(r1, f, maxLen);
    FragmentKeepsRing(r1, f, maxLen);
    assert OpenFragments(r2, [], maxLen) == (r2, Success);
    assert rec.plain != [];
  }

  lemma ArriveKeepsHeld(r: Receiver, rec: Record, opens: bool, maxLen: nat, transcript: seq<Message>, n: uint16,
                        g: Fragment)
    requires RingInv(r) && (opens && rec.epoch == r.epoch ==> HonestRecord(rec, transcript)) && Holds(r, n, g)
    ensures Holds(OpenHandshake(r, rec, opens, maxLen).0, n, g)
  {
    hide Parse, OpenRecord, OpenFragment, SlotInv, IsComplete, Honest, HoldsIn, OpenFragments;
    OpenRecordFrame(r, rec, opens);
    NotOpened(r, rec, opens);
    if OpenRecord(r, rec, opens).1.Success? && rec.ctype == Handshake {
      RecordIsFragment(r, rec, opens, maxLen, transcript);
      FragmentKeepsHeld(OpenRecord(r, rec, opens).0, Parse(rec.plain).value.0, maxLen, n, g);
    }
  }

  /** A record that is kept, and not answered with an error, is held unless it is too far in the future. */
  lemma ArriveIsHeld(r: Receiver, rec: Record, maxLen: nat, seen: set<uint64>, transcript: seq<Message>, n: uint16)
    requires RingInv(r) && Represents(r.window, seen) && HonestRecord(rec, transcript)
    requires IsKept(Arrival(rec, true), r.epoch, seen) && Carries(rec, n) && n < r.readSeq + MAX_FLIGHT
    requires var status := OpenHandshake(r, rec, true, maxLen).1; !status.Error? && !status.CloseNotify?
    ensures Holds(OpenHandshake(r, rec, true, maxLen).0, n, Parse(rec.plain).value.0)
  {
    hide Parse, OpenFragment, SlotInv, IsComplete, HonestRecord, HoldsIn, Represents, IsFresh, OpenFragments;
    DiscardsExactly(r.window, seen, Number(rec));
    KeptOpens(r, rec, seen);
    RecordIsFragment(r, rec, true, maxLen, transcript);
    FragmentAnswers(OpenRecord(r, rec, true).0, Parse(rec.plain).value.0, maxLen);
    FragmentIsHeld(OpenRecord(r, rec, true).0, Parse(rec.plain).value.0, maxLen);
  }

  lemma FragmentAnswers(r: Receiver, f: Fragment, maxLen: nat)
    requires |r.ring| == MAX_FLIGHT
    ensures OpenFragment(r, f, maxLen).1.Success? || OpenFragment(r, f, maxLen).1.Error?
  {
    hide Fill, IsComplete;
  }

  lemma KeptOpens(r: Receiver, rec: Record, seen: set<uint64>)
    requires Represents(r.window, seen) && IsKept(Arrival(rec, true), r.epoch, seen) && rec.ctype == Handshake
    ensures var status := OpenRecord(r, rec, true).1; status.Success? || status.Error? || status.CloseNotify?
  {
    hide Represents;
    DiscardsExactly(r.window, seen, Number(rec));
  }

  /** Whatever comes next that is not an error, what is held stays held. */
  lemma StepKeepsHeld(r: Receiver, a: Input, seen: set<uint64>, transcript: seq<Message>, n: uint16, g: Fragment)
    requires InOrder(r, seen, transcript) && ProperOne(r, a) && Authentic(ArrivalOf(a), r.epoch, transcript)
    requires Holds(r, n, g)
    ensures Holds(React(r, a), n, g)
  {
    hide Represents, FaithfulSlot, IsComplete, GetMessage, OpenHandshake, HonestRecord, FragmentRange;
    match a {
      case Arrives(rec, opens, maxLen) =>
        assert Arrival(rec, opens) in ArrivalOf(a);
        ArriveKeepsHeld(r, rec, opens, maxLen, transcript, n, g);
        ArriveKeepsFaithful(r, rec, opens, maxLen, transcript);
      case Takes => TakesFrame(r);
      case Advances =>
        NextKeepsFaithful(r, transcript);
      case _ =>
    }
  }

  /** In a run without an error, what is held at its start is held at its end. */
  lemma {:induction false} RunKeepsHeld(r: Receiver, inputs: seq<Input>, seen: set<uint64>, transcript: seq<Message>,
                                        n: uint16, g: Fragment)
    requires InOrder(r, seen, transcript) && Proper(r, inputs) && Authentic(ArrivalsOf(inputs), r.epoch, transcript)
    requires RunInputs(r, inputs).1.Success? && Holds(r, n, g)
    ensures Holds(RunInputs(r, inputs).0, n, g)
    decreases |inputs|
  {
    hide InOrder, React, Answer, ProperOne, Holds, HonestRecord, SeenAfter;
    if inputs != [] {
      AuthenticParts(inputs, r.epoch, transcript);
      StepInOrder(r, inputs[0], seen, transcript);
      StepKeepsHeld(r, inputs[0], seen, transcript, n, g);
      RunKeepsHeld(React(r, inputs[0]), inputs[1..], SeenAfter(r, inputs[0], seen), transcript, n, g);
    }
  }

  lemma AuthenticParts(inputs: seq<Input>, epoch: uint16, transcript: seq<Message>)
    requires inputs != [] && Authentic(ArrivalsOf(inputs), epoch, transcript)
    ensures Authentic(ArrivalOf(inputs[0]), epoch, transcript) && Authentic(ArrivalsOf(inputs[1..]), epoch, transcript)
  {
    hide HonestRecord, ArrivalOf;
    forall a | a in ArrivalOf(inputs[0]) || a in ArrivalsOf(inputs[1..]) ensures a in ArrivalsOf(inputs) {
    }
  }

  /** In a run without an error, every record that is kept is held at its end, unless it was too far in the future at
      the start. */
  lemma {:induction false} KeptIsHeld(r: Receiver, inputs: seq<Input>, seen: set<uint64>, transcript: seq<Message>,
                                      rec: Record, n: uint16)
    requires InOrder(r, seen, transcript) && Proper(r, inputs) && Authentic(ArrivalsOf(inputs), r.epoch, transcript)
    requires RunInputs(r, inputs).1.Success?
    requires rec in Kept(ArrivalsOf(inputs), r.epoch, seen) && Carries(rec, n) && n < r.readSeq + MAX_FLIGHT
    ensures Holds(RunInputs(r, inputs).0, n, Parse(rec.plain).value.0)
    decreases |inputs|
  {
    hide InOrder, React, ProperOne, Holds, HonestRecord, IsFresh, OpenHandshake, Parse;
    if inputs != [] {
      var a, rest := inputs[0], inputs[1..];
      AuthenticParts(inputs, r.epoch, transcript);
      StepInOrder(r, a, seen, transcript);
      var r1, seen1 := React(r, a), SeenAfter(r, a, seen);
      KeptParts(a, rest, r, seen);
      assert inputs == [a] + rest;
      if rec in Kept(ArrivalsOf(rest), r.epoch, seen1) {
        KeptIsHeld(r1, rest, seen1, transcript, rec, n);
      } else {
        HeldAtOnce(r, a, seen, transcript, n);
        RunKeepsHeld(r1, rest, seen1, transcript, n, Parse(rec.plain).value.0);
      }
    }
  }

  lemma KeptParts(a: Input, rest: seq<Input>, r: Receiver, seen: set<uint64>)
    ensures var all := Kept(ArrivalsOf([a] + rest), r.epoch, seen);
            var later := Kept(ArrivalsOf(rest), r.epoch, SeenAfter(r, a, seen));
            forall rec :: rec in all <==>
              rec in later || (a.Arrives? && a.opens && rec == a.rec && IsKept(Arrival(a.rec, true), r.epoch, seen))
  {
    hide IsFresh;
    assert ([a] + rest)[1..] == rest;
    var later := ArrivalsOf(rest);
    if a.Arrives? {
      var all := [Arrival(a.rec, a.opens)] + later;
      assert all[1..] == later;
    } else {
      assert [] + later == later;
    }
  }

  lemma HeldAtOnce(r: Receiver, a: Input, seen: set<uint64>, transcript: seq<Message>, n: uint16)
    requires InOrder(r, seen, transcript) && Authentic(ArrivalOf(a), r.epoch, transcript)
    requires a.Arrives? && a.opens && IsKept(Arrival(a.rec, true), r.epoch, seen)
    requires Carries(a.rec, n) && n < r.readSeq + MAX_FLIGHT
    requires !Answer(r, a).Error? && !Answer(r, a).CloseNotify?
    ensures Holds(React(r, a), n, Parse(a.rec.plain).value.0)
  {
    hide Represents, FaithfulSlot, SlotInv, IsComplete, OpenHandshake, HonestRecord, HoldsIn, IsFresh, Parse;
    assert Arrival(a.rec, a.opens) in ArrivalOf(a);
    ArriveIsHeld(r, a.rec, a.maxLen, seen, transcript, n);
  }

  // --- What is taken, and what is not touched ---------------------------------------------------

  /** The messages the handshake advances past in the run, oldest first. */
  function Consumed(r: Receiver, inputs: seq<Input>): seq<seq<byte>>
    requires |r.ring| == MAX_FLIGHT
    decreases |inputs|
  {
    if inputs == [] || Answer(r, inputs[0]).Error? || Answer(r, inputs[0]).CloseNotify? then []
    else ConsumedBy(r, inputs[0]) + Consumed(React(r, inputs[0]), inputs[1..])
  }

  function ConsumedBy(r: Receiver, a: Input): seq<seq<byte>>
    requires |r.ring| == MAX_FLIGHT
  {
    if a.Advances? && GetMessage(r).1.Some? then [GetMessage(r).1.value] else []
  }

  /** The raw messages are those of the sender from number `from` on. */
  ghost predicate AreNext(raws: seq<seq<byte>>, from: nat, transcript: seq<Message>) {
    forall j :: 0 <= j < |raws| ==> IsRawOf(raws[j], from + j, transcript)
  }

  ghost predicate IsRawOf(raw: seq<byte>, k: nat, transcript: seq<Message>) {
    k < |transcript| && |transcript[k].body| < 0x100_0000 && raw == Raw(transcript[k])
  }

  lemma AreNextJoined(a: seq<seq<byte>>, b: seq<seq<byte>>, from: nat, transcript: seq<Message>)
    requires AreNext(a, from, transcript) && AreNext(b, from + |a|, transcript)
    ensures AreNext(a + b, from, transcript)
  {
    hide IsRawOf;
    forall j | 0 <= j < |a + b| ensures IsRawOf((a + b)[j], from + j, transcript) {
      if j >= |a| {
        assert IsRawOf(b[j - |a|], from + |a| + (j - |a|), transcript);
      }
    }
  }

  lemma AreNextFit(raws: seq<seq<byte>>, from: nat, transcript: seq<Message>)
    requires AreNext(raws, from, transcript) && raws != []
    ensures from + |raws| <= |transcript|
  {
    assert IsRawOf(raws[|raws| - 1], from + (|raws| - 1), transcript);
  }

  lemma StepConsumes(r: Receiver, a: Input, seen: set<uint64>, transcript: seq<Message>)
    requires InOrder(r, seen, transcript) && ProperOne(r, a)
    ensures |r.ring| == MAX_FLIGHT
    ensures a.Advances? ==> r.readSeq < |transcript| && ConsumedBy(r, a) == [Raw(transcript[r.readSeq])]
    ensures !a.Advances? ==> ConsumedBy(r, a) == []
  {
    hide Raw, Represents, FaithfulSlot, SlotInv, IsComplete, GetMessage;
    if a.Advances? {
      NextKeepsFaithful(r, transcript);
    }
  }

  /** In a run without an error, the messages the handshake advances past are the next ones of the sender. */
  lemma {:induction false} RunTakesInOrder(r: Receiver, inputs: seq<Input>, seen: set<uint64>,
                                           transcript: seq<Message>)
    requires InOrder(r, seen, transcript) && Proper(r, inputs) && Authentic(ArrivalsOf(inputs), r.epoch, transcript)
    requires RunInputs(r, inputs).1.Success?
    ensures var r', c := RunInputs(r, inputs).0, Consumed(r, inputs);
            && Faithful(r', transcript) && r'.readSeq == r.readSeq + |c|
            && AreNext(c, r.readSeq, transcript)
    decreases |inputs|
  {
    hide Raw, React, Answer, ProperOne, HonestRecord, SeenAfter, ConsumedBy, Represents, FaithfulSlot, RingInv;
    if inputs != [] {
      AuthenticParts(inputs, r.epoch, transcript);
      StepInOrder(r, inputs[0], seen, transcript);
      StepConsumes(r, inputs[0], seen, transcript);
      RunTakesInOrder(React(r, inputs[0]), inputs[1..], SeenAfter(r, inputs[0], seen), transcript);
      AreNextJoined(ConsumedBy(r, inputs[0]), Consumed(React(r, inputs[0]), inputs[1..]), r.readSeq, transcript);
    }
  }

  /** A fragment of another number leaves the slot of a number of the window alone. */
  lemma FragmentElsewhere(r: Receiver, f: Fragment, maxLen: nat, n: uint16)
    requires |r.ring| == MAX_FLIGHT && f.seqNo != n && r.readSeq <= n < r.readSeq + MAX_FLIGHT
    ensures OpenFragment(r, f, maxLen).0.ring[n % MAX_FLIGHT] == r.ring[n % MAX_FLIGHT]
  {
    hide Fill, IsComplete;
    if r.readSeq <= f.seqNo < r.readSeq + MAX_FLIGHT && f.seqNo % MAX_FLIGHT == n % MAX_FLIGHT {
      WindowIndexUnique(r.readSeq, f.seqNo, n);
    }
  }

  lemma ArriveElsewhere(r: Receiver, rec: Record, opens: bool, maxLen: nat, seen: set<uint64>,
                        transcript: seq<Message>, n: uint16)
    requires RingInv(r) && Represents(r.window, seen) && r.readSeq <= n < r.readSeq + MAX_FLIGHT
    requires opens && rec.epoch == r.epoch ==> HonestRecord(rec, transcript)
    requires IsKept(Arrival(rec, opens), r.epoch, seen) ==> !Carries(rec, n)
    ensures OpenHandshake(r, rec, opens, maxLen).0.ring[n % MAX_FLIGHT] == r.ring[n % MAX_FLIGHT]
  {
    hide Parse, OpenRecord, OpenFragment, SlotInv, IsComplete, Honest, OpenFragments, Represents, IsFresh;
    OpenRecordFrame(r, rec, opens);
    NotOpened(r, rec, opens);
    if OpenRecord(r, rec, opens).1.Success? && rec.ctype == Handshake {
      OpenedIsKept(r, rec, opens, seen);
      RecordIsFragment(r, rec, opens, maxLen, transcript);
      FragmentElsewhere(OpenRecord(r, rec, opens).0, Parse(rec.plain).value.0, maxLen, n);
    }
  }

  lemma OpenedIsKept(r: Receiver, rec: Record, opens: bool, seen: set<uint64>)
    requires Represents(r.window, seen) && OpenRecord(r, rec, opens).1.Success?
    ensures IsKept(Arrival(rec, opens), r.epoch, seen)
  {
    hide Represents;
    DiscardsExactly(r.window, seen, Number(rec));
  }

  lemma StepElsewhere(r: Receiver, a: Input, seen: set<uint64>, transcript: seq<Message>, n: uint16)
    requires InOrder(r, seen, transcript) && ProperOne(r, a) && Authentic(ArrivalOf(a), r.epoch, transcript)
    requires r.readSeq <= n < r.readSeq + MAX_FLIGHT
    requires a.Arrives? && IsKept(Arrival(a.rec, a.opens), r.epoch, seen) ==> !Carries(a.rec, n)
    ensures |r.ring| == MAX_FLIGHT
    ensures n < React(r, a).readSeq || React(r, a).ring[n % MAX_FLIGHT] == r.ring[n % MAX_FLIGHT]
  {
    hide Represents, FaithfulSlot, IsComplete, SlotInv, GetMessage, OpenHandshake, HonestRecord, IsFresh, Carries;
    match a {
      case Arrives(rec, opens, maxLen) =>
        assert Arrival(rec, opens) in ArrivalOf(a);
        ArriveElsewhere(r, rec, opens, maxLen, seen, transcript, n);
      case Takes => TakesFrame(r);
      case Advances => NextKeepsFaithful(r, transcript);
      case _ =>
    }
  }

  /** In a run without an error, the slot of a message none of whose records is kept stays as it was. */
  lemma {:induction false} RunElsewhere(r: Receiver, inputs: seq<Input>, seen: set<uint64>, transcript: seq<Message>,
                                        n: uint16)
    requires InOrder(r, seen, transcript) && Proper(r, inputs) && Authentic(ArrivalsOf(inputs), r.epoch, transcript)
    requires RunInputs(r, inputs).1.Success? && r.readSeq <= n < r.readSeq + MAX_FLIGHT
    requires forall rec :: rec in Kept(ArrivalsOf(inputs), r.epoch, seen) ==> !Carries(rec, n)
    ensures var r' := RunInputs(r, inputs).0;
            n < r'.readSeq || r'.ring[n % MAX_FLIGHT] == r.ring[n % MAX_FLIGHT]
    decreases |inputs|
  {
    hide InOrder, React, Answer, ProperOne, HonestRecord, IsFresh, Carries;
    if inputs != [] {
      var a, rest := inputs[0], inputs[1..];
      AuthenticParts(inputs, r.epoch, transcript);
      StepInOrder(r, a, seen, transcript);
      KeptParts(a, rest, r, seen);
      assert inputs == [a] + rest;
      StepElsewhere(r, a, seen, transcript, n);
      var r1, seen1 := React(r, a), SeenAfter(r, a, seen);
      if n >= r1.readSeq {
        RunElsewhere(r1, rest, seen1, transcript, n);
      } else {
        RunTakesInOrder(r1, rest, seen1, transcript);
      }
    }
  }

  // --- Runs without an error --------------------------------------------------------------------

  /** Every record that can be opened is harmless when it arrives. */
  ghost predicate HarmlessRun(r: Receiver, inputs: seq<Input>)
    requires |r.ring| == MAX_FLIGHT
    decreases |inputs|
  {
    inputs == [] || (HarmlessOne(r, inputs[0]) && HarmlessRun(React(r, inputs[0]), inputs[1..]))
  }

  ghost predicate HarmlessOne(r: Receiver, a: Input) {
    a.Arrives? && a.opens && a.rec.epoch == r.epoch ==> Harmless(a.rec, r, a.maxLen)
  }

  lemma HarmlessAnswer(r: Receiver, a: Input, seen: set<uint64>, transcript: seq<Message>)
    requires InOrder(r, seen, transcript) && !r.closed && ProperOne(r, a) && HarmlessOne(r, a)
    requires Authentic(ArrivalOf(a), r.epoch, transcript)
    ensures !Answer(r, a).Error? && !Answer(r, a).CloseNotify? && !React(r, a).closed
  {
    hide Represents, FaithfulSlot, SlotInv, IsComplete, OpenHandshake, HonestRecord, Harmless, GetMessage, IsFresh;
    hide OpenEach;
    if a.Arrives? {
      assert Arrival(a.rec, a.opens) in ArrivalOf(a);
      ArrivalExactly(r, Arrival(a.rec, a.opens), seen, transcript, a.maxLen);
      ArriveStaysOpen(r, a.rec, a.opens, a.maxLen);
    } else if a.Takes? {
      TakesFrame(r);
    }
  }

  lemma ArriveStaysOpen(r: Receiver, rec: Record, opens: bool, maxLen: nat)
    requires RingInv(r) && !r.closed && OpenHandshake(r, rec, opens, maxLen).1 != CloseNotify
    ensures !OpenHandshake(r, rec, opens, maxLen).0.closed
  {
    hide ShouldDiscard, ReplayWindow.Record, OpenFragments, SlotInv, IsComplete;
    var (r', status) := OpenRecord(r, rec, opens);
    if status.Success? && rec.ctype == Handshake {
      FragmentsKeepRing(r', rec.plain, maxLen);
    }
  }

  /** A run of harmless records is a run without an error. */
  lemma {:induction false} HarmlessSucceeds(r: Receiver, inputs: seq<Input>, seen: set<uint64>,
                                            transcript: seq<Message>)
    requires InOrder(r, seen, transcript) && !r.closed && Proper(r, inputs) && HarmlessRun(r, inputs)
    requires Authentic(ArrivalsOf(inputs), r.epoch, transcript)
    ensures RunInputs(r, inputs).1.Success?
    decreases |inputs|
  {
    hide InOrder, React, Answer, ProperOne, HarmlessOne, HonestRecord, SeenAfter;
    if inputs != [] {
      AuthenticParts(inputs, r.epoch, transcript);
      HarmlessAnswer(r, inputs[0], seen, transcript);
      StepInOrder(r, inputs[0], seen, transcript);
      HarmlessSucceeds(React(r, inputs[0]), inputs[1..], SeenAfter(r, inputs[0], seen), transcript);
    }
  }
}
