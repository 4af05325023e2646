/** What the flags of a receiver mean over its runs: which records and calls set them, and what every record is answered
    with. */
module HandshakeEvents {
  import opened Bytes
  import opened HandshakeFragment
  import opened HandshakeReceive
  import opened HandshakeReplay
  import opened ReplayWindow

  // --- The read epoch ---------------------------------------------------------------------------

  lemma ReactFrame(r: Receiver, a: Input)
    requires RingInv(r) && (a.Advances? ==> r.hasMessage)
    ensures React(r, a).nullCipher == (r.nullCipher && !ChangesEpoch(r, a))
    ensures !a.Arrives? ==> React(r, a).closed == r.closed
    ensures !a.Arrives? && !a.ReadsChangeCipherSpec? ==> React(r, a).hasChangeCipherSpec == r.hasChangeCipherSpec
    ensures a.ReadsChangeCipherSpec? ==> !React(r, a).hasChangeCipherSpec
  {
    hide OpenHandshake, GetMessage, HasUnprocessedData, SlotInv, IsComplete;
    match a {
      case Arrives(rec, opens, maxLen) => ArriveFrame(r, rec, opens, maxLen);
      case Takes => TakeFrame(r);
      case _ =>
    }
  }

  lemma TakeFrame(r: Receiver)
    requires |r.ring| == MAX_FLIGHT
    ensures GetMessage(r).0 == r.(hasMessage := GetMessage(r).0.hasMessage)
  {
    hide Assembled;
  }

  /** A record changes the ring, the window, the alert state, and sets the ChangeCipherSpec flag at most. */
  lemma ArriveFrame(r: Receiver, rec: Record, opens: bool, maxLen: nat)
    requires RingInv(r)
    ensures var r' := OpenHandshake(r, rec, opens, maxLen).0;
            && r' == r.(ring := r'.ring, window := r'.window, closed := r'.closed, warnings := r'.warnings,
                        hasChangeCipherSpec := r'.hasChangeCipherSpec)
            && r'.closed == OpenRecord(r, rec, opens).0.closed
            && (rec.ctype != ChangeCipherSpec ==> r'.hasChangeCipherSpec == r.hasChangeCipherSpec)
  {
    hide OpenRecord, OpenFragments, SlotInv, IsComplete;
    OpenRecordFrame(r, rec, opens);
    var (r1, status) := OpenRecord(r, rec, opens);
    if status.Success? && rec.ctype == Handshake {
      FragmentsKeepRing(r1, rec.plain, maxLen);
    }
  }

  /** There is no cipher exactly as long as the read keys have not been changed. */
  lemma {:induction false} NullCipherExactly(states: seq<Receiver>, inputs: seq<Input>, i: nat)
    requires IsReceiverRun(states, inputs) && i <= |inputs|
    ensures states[i].nullCipher <==> EpochChanges(states, inputs, i) == 0
  {
    hide React, ChangesEpoch;
    if i > 0 {
      NullCipherExactly(states, inputs, i - 1);
      RingInEveryRun(states, inputs, i - 1);
      assert Reacts(states[i - 1], inputs[i - 1], states[i - 1 + 1]);
      ReactFrame(states[i - 1], inputs[i - 1]);
    }
  }

  // --- The ChangeCipherSpec ---------------------------------------------------------------------

  /** Input `j` brings a ChangeCipherSpec: an accepted record of that type and body, before any change of read keys. */
  ghost predicate BringsChangeCipherSpec(states: seq<Receiver>, inputs: seq<Input>, j: nat)
    requires j < |inputs| < |states|
  {
    && AcceptedBy(states[j], inputs[j]) != []
    && inputs[j].rec.ctype == ChangeCipherSpec && inputs[j].rec.plain == [1]
    && EpochChanges(states, inputs, j) == 0
  }

  /** One has come since the handshake last asked for it. */
  ghost predicate ChangeCipherSpecWaits(states: seq<Receiver>, inputs: seq<Input>, i: nat)
    requires i <= |inputs| < |states|
  {
    exists j: nat :: j < i && BringsChangeCipherSpec(states, inputs, j) && NotAskedSince(inputs, j, i)
  }

  ghost predicate NotAskedSince(inputs: seq<Input>, j: nat, i: nat)
    requires j < i <= |inputs|
  {
    forall k :: j < k < i ==> !inputs[k].ReadsChangeCipherSpec?
  }

  lemma ArriveSetsFlag(r: Receiver, rec: Record, opens: bool, maxLen: nat)
    requires |r.ring| == MAX_FLIGHT && rec.ctype == ChangeCipherSpec
    ensures OpenHandshake(r, rec, opens, maxLen).0.hasChangeCipherSpec ==
            (r.hasChangeCipherSpec || (Accepts(r, rec, opens) && rec.plain == [1] && r.nullCipher))
  {
    hide ShouldDiscard, ReplayWindow.Record;
  }

  lemma WaitsNext(states: seq<Receiver>, inputs: seq<Input>, i: nat)
    requires i < |inputs| < |states|
    ensures ChangeCipherSpecWaits(states, inputs, i + 1) <==>
              || BringsChangeCipherSpec(states, inputs, i)
              || (ChangeCipherSpecWaits(states, inputs, i) && !inputs[i].ReadsChangeCipherSpec?)
  {
    hide BringsChangeCipherSpec;
    if ChangeCipherSpecWaits(states, inputs, i + 1) {
      var j: nat :| j < i + 1 && BringsChangeCipherSpec(states, inputs, j) && NotAskedSince(inputs, j, i + 1);
      assert j < i ==> NotAskedSince(inputs, j, i);
    }
    if ChangeCipherSpecWaits(states, inputs, i) && !inputs[i].ReadsChangeCipherSpec? {
      var j: nat :| j < i && BringsChangeCipherSpec(states, inputs, j) && NotAskedSince(inputs, j, i);
      assert NotAskedSince(inputs, j, i + 1);
    }
    assert NotAskedSince(inputs, i, i + 1);
  }

  /** The handshake is told of a ChangeCipherSpec if and only if one has come since it last asked. */
  lemma {:induction false} ChangeCipherSpecWaitsExactly(states: seq<Receiver>, inputs: seq<Input>, i: nat)
    requires IsReceiverRun(states, inputs) && i <= |inputs|
    ensures TakeChangeCipherSpec(states[i]).1 <==> ChangeCipherSpecWaits(states, inputs, i)
  {
    hide React, ChangeCipherSpecWaits, OpenHandshake, Accepts;
    if i == 0 {
      NothingWaits(states, inputs);
    } else {
      var r, a := states[i - 1], inputs[i - 1];
      ChangeCipherSpecWaitsExactly(states, inputs, i - 1);
      NullCipherExactly(states, inputs, i - 1);
      RingInEveryRun(states, inputs, i - 1);
      assert Reacts(r, a, states[i - 1 + 1]);
      WaitsNext(states, inputs, i - 1);
      ReactFrame(r, a);
      if a.Arrives? {
        FlagAfter(r, a);
      }
    }
  }

  lemma FlagAfter(r: Receiver, a: Input)
    requires RingInv(r) && a.Arrives?
    ensures React(r, a).hasChangeCipherSpec ==
            (r.hasChangeCipherSpec ||
             (a.rec.ctype == ChangeCipherSpec && Accepts(r, a.rec, a.opens) && a.rec.plain == [1] && r.nullCipher))
  {
    hide OpenHandshake, Accepts, SlotInv, IsComplete;
    ArriveFrame(r, a.rec, a.opens, a.maxLen);
    if a.rec.ctype == ChangeCipherSpec {
      ArriveSetsFlag(r, a.rec, a.opens, a.maxLen);
    }
  }

  lemma NothingWaits(states: seq<Receiver>, inputs: seq<Input>)
    requires IsReceiverRun(states, inputs)
    ensures !ChangeCipherSpecWaits(states, inputs, 0) && !TakeChangeCipherSpec(states[0]).1
  {
  }

  // --- The close_notify -------------------------------------------------------------------------

  ghost predicate BringsCloseNotify(r: Receiver, a: Input) {
    AcceptedBy(r, a) != [] && a.rec.ctype == AlertMessage && a.rec.plain == [1, 0]
  }

  /** Reading is shut down exactly when a close_notify has been accepted. */
  lemma {:induction false} ClosedExactly(states: seq<Receiver>, inputs: seq<Input>, i: nat)
    requires IsReceiverRun(states, inputs) && i <= |inputs|
    ensures states[i].closed <==> exists j: nat :: j < i && BringsCloseNotify(states[j], inputs[j])
  {
    hide React, BringsCloseNotify;
    if i > 0 {
      ClosedExactly(states, inputs, i - 1);
      RingInEveryRun(states, inputs, i - 1);
      assert Reacts(states[i - 1], inputs[i - 1], states[i - 1 + 1]);
      CloseAfter(states[i - 1], inputs[i - 1]);
    }
  }

  lemma CloseAfter(r: Receiver, a: Input)
    requires RingInv(r) && (a.Advances? ==> r.hasMessage)
    ensures React(r, a).closed == (r.closed || BringsCloseNotify(r, a))
  {
    hide OpenHandshake, OpenRecord, Accepts, SlotInv, IsComplete, GetMessage, HasUnprocessedData;
    ReactFrame(r, a);
    if a.Arrives? {
      ArriveFrame(r, a.rec, a.opens, a.maxLen);
      RecordCloses(r, a.rec, a.opens);
    }
  }

  lemma RecordCloses(r: Receiver, rec: Record, opens: bool)
    ensures OpenRecord(r, rec, opens).0.closed ==
            (r.closed || (Accepts(r, rec, opens) && rec.ctype == AlertMessage && rec.plain == [1, 0]))
  {
    hide ShouldDiscard, ReplayWindow.Record;
  }

  // --- The reply to a flight --------------------------------------------------------------------

  /** Input `j` takes a message while a flight of our own is out: the last word about flights before it said so. */
  ghost predicate Answered(inputs: seq<Input>, j: nat, i: nat)
    requires j < i <= |inputs|
  {
    && inputs[j].Advances?
    && (exists k: nat :: k < j && inputs[k] == SendsFlight(true) && NoFlightSince(inputs, k, i))
  }

  ghost predicate NoFlightSince(inputs: seq<Input>, k: nat, i: nat)
    requires k < i <= |inputs|
  {
    forall l :: k < l < i ==> !inputs[l].SendsFlight?
  }

  ghost predicate FlightOut(inputs: seq<Input>, i: nat)
    requires i <= |inputs|
  {
    exists k: nat :: k < i && inputs[k] == SendsFlight(true) && NoFlightSince(inputs, k, i)
  }

  ghost predicate HasReply(inputs: seq<Input>, i: nat)
    requires i <= |inputs|
  {
    exists j: nat :: j < i && Answered(inputs, j, i)
  }

  /** A flight counts as answered exactly when it is still the last one and a message has been taken since. */
  lemma {:induction false} ReplyExactly(states: seq<Receiver>, inputs: seq<Input>, i: nat)
    requires IsReceiverRun(states, inputs) && i <= |inputs|
    ensures states[i].flightSent <==> FlightOut(inputs, i)
    ensures states[i].hasReply <==> HasReply(inputs, i)
  {
    hide React, FlightOut, HasReply;
    if i == 0 {
      NoFlightYet(inputs);
    } else {
      ReplyExactly(states, inputs, i - 1);
      RingInEveryRun(states, inputs, i - 1);
      assert Reacts(states[i - 1], inputs[i - 1], states[i - 1 + 1]);
      ReplyAfter(states[i - 1], inputs[i - 1]);
      FlightNext(inputs, i - 1);
      ReplyNext(inputs, i - 1);
    }
  }

  lemma NoFlightYet(inputs: seq<Input>)
    ensures !FlightOut(inputs, 0) && !HasReply(inputs, 0)
  {
  }

  lemma ReplyAfter(r: Receiver, a: Input)
    requires RingInv(r)
    ensures React(r, a).flightSent == if a.SendsFlight? then a.out else r.flightSent
    ensures React(r, a).hasReply == if a.SendsFlight? then false else r.hasReply || (a.Advances? && r.flightSent)
  {
    hide OpenHandshake, SlotInv, IsComplete, GetMessage, HasUnprocessedData;
    match a {
      case Arrives(rec, opens, maxLen) => ArriveFrame(r, rec, opens, maxLen);
      case Takes => TakeFrame(r);
      case _ =>
    }
  }

  lemma FlightNext(inputs: seq<Input>, i: nat)
    requires i < |inputs|
    ensures FlightOut(inputs, i + 1) <==>
              if inputs[i].SendsFlight? then inputs[i].out else FlightOut(inputs, i)
  {
    if FlightOut(inputs, i + 1) {
      var k: nat :| k < i + 1 && inputs[k] == SendsFlight(true) && NoFlightSince(inputs, k, i + 1);
      assert k < i ==> NoFlightSince(inputs, k, i);
    }
    if FlightOut(inputs, i) && !inputs[i].SendsFlight? {
      var k: nat :| k < i && inputs[k] == SendsFlight(true) && NoFlightSince(inputs, k, i);
      assert NoFlightSince(inputs, k, i + 1);
    }
    assert NoFlightSince(inputs, i, i + 1);
  }

  lemma ReplyNext(inputs: seq<Input>, i: nat)
    requires i < |inputs|
    ensures HasReply(inputs, i + 1) <==>
              !inputs[i].SendsFlight? && (HasReply(inputs, i) || (inputs[i].Advances? && FlightOut(inputs, i)))
  {
    if HasReply(inputs, i + 1) {
      var j: nat :| j < i + 1 && Answered(inputs, j, i + 1);
      var k: nat :| k < j && inputs[k] == SendsFlight(true) && NoFlightSince(inputs, k, i + 1);
      assert NoFlightSince(inputs, k, i);
      assert j < i ==> Answered(inputs, j, i);
    }
    if HasReply(inputs, i) && !inputs[i].SendsFlight? {
      var j: nat :| j < i && Answered(inputs, j, i);
      var k: nat :| k < j && inputs[k] == SendsFlight(true) && NoFlightSince(inputs, k, i);
      assert NoFlightSince(inputs, k, i + 1);
      assert Answered(inputs, j, i + 1);
    }
    if inputs[i].Advances? && FlightOut(inputs, i) {
      var k: nat :| k < i && inputs[k] == SendsFlight(true) && NoFlightSince(inputs, k, i);
      assert NoFlightSince(inputs, k, i + 1);
      assert Answered(inputs, i, i + 1);
    }
  }

  // --- Answers ----------------------------------------------------------------------------------

  /** What an accepted record is answered with, handshake records and warnings aside; `encrypted` says that the read
      keys have been changed. */
  function AnswerTo(rec: Record, encrypted: bool): Status {
    if rec.ctype == AlertMessage then
      if |rec.plain| != 2 then Error(DecodeError)
      else if rec.plain == [1, 0] then CloseNotify
      else Error(if rec.plain[0] == 2 then NoAlert else IllegalParameter)
    else if rec.ctype == ApplicationData && encrypted then Discard
    else if rec.ctype == ChangeCipherSpec && !encrypted then
      if rec.plain == [1] then Success else Error(IllegalParameter)
    else Error(UnexpectedMessage)
  }

  /** In every run: a record that is not accepted is dropped, unless reading is shut down or it is a record of the read
      epoch that opens, is new, and too long. Of the accepted ones only handshake records are read further. */
  lemma {:induction false} AnsweredExactly(states: seq<Receiver>, inputs: seq<Input>, i: nat)
    requires IsReceiverRun(states, inputs) && i < |inputs| && inputs[i].Arrives?
    ensures |states[i].ring| == MAX_FLIGHT
    ensures var r, rec, opens := states[i], inputs[i].rec, inputs[i].opens;
            var status := OpenHandshake(r, rec, opens, inputs[i].maxLen).1;
            if AcceptedBy(r, inputs[i]) == [] then
              status == if exists j: nat :: j < i && BringsCloseNotify(states[j], inputs[j]) then CloseNotify
                        else if Accepts(r, rec.(plain := []), opens) then Error(RecordOverflow) else Discard
            else rec.ctype != Handshake && !IsWarning(rec) ==>
              status == AnswerTo(rec, EpochChanges(states, inputs, i) > 0)
  {
    hide React, OpenHandshake, BringsCloseNotify, EpochChanges, Accepts;
    RingInEveryRun(states, inputs, i);
    ClosedExactly(states, inputs, i);
    NullCipherExactly(states, inputs, i);
    AnswerOf(states[i], inputs[i].rec, inputs[i].opens, inputs[i].maxLen);
  }

  lemma AnswerOf(r: Receiver, rec: Record, opens: bool, maxLen: nat)
    requires |r.ring| == MAX_FLIGHT
    ensures var status := OpenHandshake(r, rec, opens, maxLen).1;
            if !Accepts(r, rec, opens) then
              status == if r.closed then CloseNotify
                        else if Accepts(r, rec.(plain := []), opens) then Error(RecordOverflow) else Discard
            else rec.ctype != Handshake && !IsWarning(rec) ==> status == AnswerTo(rec, !r.nullCipher)
  {
    hide ShouldDiscard, ReplayWindow.Record, OpenFragments;
  }

  /** The read keys can be changed exactly when no ChangeCipherSpec is waiting and nothing but the message on offer has
      been received. */
  lemma {:induction false} KeysChangeExactly(states: seq<Receiver>, inputs: seq<Input>, i: nat)
    requires IsReceiverRun(states, inputs) && i <= |inputs|
    ensures |states[i].ring| == MAX_FLIGHT
    ensures SetReadState(states[i]).1 <==>
              && !ChangeCipherSpecWaits(states, inputs, i)
              && forall k :: 0 <= k < MAX_FLIGHT && states[i].ring[k].Some? ==>
                   states[i].hasMessage && k == states[i].readSeq % MAX_FLIGHT
  {
    hide ChangeCipherSpecWaits, Reacts;
    RingInEveryRun(states, inputs, i);
    ChangeCipherSpecWaitsExactly(states, inputs, i);
  }

  // --- What the ring holds ----------------------------------------------------------------------

  /** The fragments of a handshake record, up to the first bytes that are none. */
  ghost function FragmentsIn(data: seq<byte>): seq<Fragment>
    decreases |data|
  {
    match Parse(data)
    case None => []
    case Some((f, rest)) => [f] + FragmentsIn(rest)
  }

  /** The fragments that the accepted handshake records hold. */
  ghost function Received(accepted: seq<Record>): seq<Fragment> {
    if accepted == [] then []
    else
      var init, last := accepted[..|accepted| - 1], accepted[|accepted| - 1];
      Received(init) + if last.ctype == Handshake then FragmentsIn(last.plain) else []
  }

  /** Byte `p` of the slot is that of the fragment, which is one of the slot's message. */
  ghost predicate Backs(f: Fragment, s: Slot, p: nat) {
    && f.typ == s.typ && f.seqNo == s.seqNo && f.msgLen == s.msgLen
    && f.off <= p < f.off + |f.body| && p in s.got && f.body[p - f.off] == s.got[p]
  }

  ghost predicate Backed(s: Slot, fs: seq<Fragment>) {
    forall p :: p in s.got ==> exists k: nat :: k < |fs| && Backs(fs[k], s, p)
  }

  ghost predicate RingBacked(r: Receiver, fs: seq<Fragment>) {
    && |r.ring| == MAX_FLIGHT
    && forall i :: 0 <= i < MAX_FLIGHT && r.ring[i].Some? ==> Backed(r.ring[i].value, fs)
  }

  lemma BackedByMore(s: Slot, fs: seq<Fragment>, more: seq<Fragment>)
    requires Backed(s, fs)
    ensures Backed(s, fs + more)
  {
    forall p | p in s.got ensures exists k: nat :: k < |fs + more| && Backs((fs + more)[k], s, p) {
      var k: nat :| k < |fs| && Backs(fs[k], s, p);
      assert (fs + more)[k] == fs[k];
    }
  }

  lemma RingBackedByMore(r: Receiver, fs: seq<Fragment>, more: seq<Fragment>)
    requires RingBacked(r, fs)
    ensures RingBacked(r, fs + more)
  {
    hide Backed;
    forall i | 0 <= i < MAX_FLIGHT && r.ring[i].Some? ensures Backed(r.ring[i].value, fs + more) {
      BackedByMore(r.ring[i].value, fs, more);
    }
  }

  lemma FillBacked(s: Slot, f: Fragment, fs: seq<Fragment>)
    requires Backed(s, fs) && f.typ == s.typ && f.seqNo == s.seqNo && f.msgLen == s.msgLen
    ensures Backed(Fill(s, f.off, f.body), fs + [f])
  {
    var s', all := Fill(s, f.off, f.body), fs + [f];
    forall p | p in s'.got ensures exists k: nat :: k < |all| && Backs(all[k], s', p) {
      if f.off <= p < f.off + |f.body| {
        assert Backs(all[|fs|], s', p);
      } else {
        assert p in s.got;
        var k: nat :| k < |fs| && Backs(fs[k], s, p);
        assert Backs(all[k], s', p);
      }
    }
  }

  lemma FragmentBacked(r: Receiver, f: Fragment, maxLen: nat, fs: seq<Fragment>)
    requires RingInv(r) && RingBacked(r, fs)
    ensures RingBacked(OpenFragment(r, f, maxLen).0, fs + [f])
  {
    hide Backed, Fill, IsComplete, SlotInv;
    RingBackedByMore(r, fs, [f]);
    var r' := OpenFragment(r, f, maxLen).0;
    if r' != r {
      StoredInItsSlot(r, f, maxLen);
      var idx := f.seqNo % MAX_FLIGHT;
      var s := if r.ring[idx].Some? then r.ring[idx].value else Slot(f.typ, f.seqNo, f.msgLen, map[]);
      NothingIsBacked(Slot(f.typ, f.seqNo, f.msgLen, map[]), fs);
      if r.ring[idx].Some? {
        SlotNumber(r, f);
      }
      FillBacked(s, f, fs);
      BackedByMore(s, fs, [f]);
    }
  }

  lemma NothingIsBacked(s: Slot, fs: seq<Fragment>)
    requires s.got == map[]
    ensures Backed(s, fs)
  {
  }

  lemma SlotNumber(r: Receiver, f: Fragment)
    requires RingInv(r) && r.readSeq <= f.seqNo < r.readSeq + MAX_FLIGHT && r.ring[f.seqNo % MAX_FLIGHT].Some?
    ensures r.ring[f.seqNo % MAX_FLIGHT].value.seqNo == f.seqNo
  {
    RingGivesAsserts(r);
  }

  lemma {:induction false} FragmentsBacked(r: Receiver, data: seq<byte>, maxLen: nat, fs: seq<Fragment>)
    requires RingInv(r) && RingBacked(r, fs)
    ensures RingBacked(OpenFragments(r, data, maxLen).0, fs + FragmentsIn(data))
    decreases |data|
  {
    hide RingInv, RingBacked, Parse, OpenFragment;
    HasRing(r);
    if data == [] || Parse(data).None? {
      RingBackedByMore(r, fs, FragmentsIn(data));
    } else {
      var (f, rest) := Parse(data).value;
      var (r', status) := OpenFragment(r, f, maxLen);
      FragmentKeepsRing(r, f, maxLen);
      FragmentBacked(r, f, maxLen, fs);
      assert fs + [f] + FragmentsIn(rest) == fs + FragmentsIn(data);
      if status.Success? {
        FragmentsBacked(r', rest, maxLen, fs + [f]);
      } else {
        RingBackedByMore(r', fs + [f], FragmentsIn(rest));
      }
    }
  }

  lemma HasRing(r: Receiver)
    requires RingInv(r)
    ensures |r.ring| == MAX_FLIGHT
  {
  }

  lemma ReceivedMore(accepted: seq<Record>, rec: Record)
    ensures Received(accepted + [rec])
         == Received(accepted) + if rec.ctype == Handshake then FragmentsIn(rec.plain) else []
  {
    assert (accepted + [rec])[..|accepted|] == accepted;
  }

  lemma ReactBacked(r: Receiver, a: Input, accepted: seq<Record>)
    requires RingInv(r) && RingBacked(r, Received(accepted)) && (a.Advances? ==> r.hasMessage)
    ensures RingBacked(React(r, a), Received(accepted + AcceptedBy(r, a)))
  {
    hide Backed, Received, FragmentsIn, OpenRecord, OpenFragments, Accepts, SlotInv, IsComplete, GetMessage;
    hide HasUnprocessedData;
    assert accepted + [] == accepted;
    match a {
      case Arrives(rec, opens, maxLen) => ArriveBacked(r, rec, opens, maxLen, accepted);
      case Takes => TakeFrame(r);
      case _ =>
    }
  }

  lemma ArriveBacked(r: Receiver, rec: Record, opens: bool, maxLen: nat, accepted: seq<Record>)
    requires RingInv(r) && RingBacked(r, Received(accepted))
    ensures RingBacked(OpenHandshake(r, rec, opens, maxLen).0,
                       Received(accepted + if Accepts(r, rec, opens) then [rec] else []))
  {
    hide Backed, Received, FragmentsIn, OpenRecord, OpenFragments, Accepts, SlotInv, IsComplete;
    assert accepted + [] == accepted;
    OpenRecordFrame(r, rec, opens);
    OpensIfAccepted(r, rec, opens);
    ReceivedMore(accepted, rec);
    var (r1, status) := OpenRecord(r, rec, opens);
    if status.Success? && rec.ctype == Handshake {
      FragmentsBacked(r1, rec.plain, maxLen, Received(accepted));
    } else if rec.ctype == Handshake {
      RingBackedByMore(r, Received(accepted), FragmentsIn(rec.plain));
    } else {
      assert Received(accepted) + [] == Received(accepted);
    }
  }

  lemma OpensIfAccepted(r: Receiver, rec: Record, opens: bool)
    ensures OpenRecord(r, rec, opens).1.Success? ==> Accepts(r, rec, opens)
  {
    hide ShouldDiscard, ReplayWindow.Record;
  }

  /** Nothing is made up and nothing is mixed up: in every run every byte in the ring is that of a fragment of an
      accepted record, at the same position of a message of the same type, number and length. */
  lemma {:induction false} EveryByteWasReceived(states: seq<Receiver>, inputs: seq<Input>, i: nat)
    requires IsReceiverRun(states, inputs) && i <= |inputs|
    ensures RingBacked(states[i], Received(Accepted(states, inputs, i)))
  {
    hide React, RingBacked, AcceptedBy, Received, RingInv;
    if i == 0 {
      EmptyIsBacked();
    } else {
      EveryByteWasReceived(states, inputs, i - 1);
      RingInEveryRun(states, inputs, i - 1);
      assert Reacts(states[i - 1], inputs[i - 1], states[i - 1 + 1]);
      ReactBacked(states[i - 1], inputs[i - 1], Accepted(states, inputs, i - 1));
    }
  }

  lemma EmptyIsBacked()
    ensures RingBacked(INITIAL, Received([]))
  {
  }

  // --- Limits -----------------------------------------------------------------------------------

  /** No message longer than `limit`, and in the encrypted epoch none but the current one. */
  ghost predicate Limited(r: Receiver, limit: nat) {
    && |r.ring| == MAX_FLIGHT
    && forall i :: 0 <= i < MAX_FLIGHT && r.ring[i].Some? ==>
         && r.ring[i].value.msgLen <= limit
         && (r.epoch == 1 ==> i == r.readSeq % MAX_FLIGHT)
  }

  lemma FragmentLimited(r: Receiver, f: Fragment, maxLen: nat, limit: nat)
    requires RingInv(r) && Limited(r, limit) && maxLen <= limit
    ensures Limited(OpenFragment(r, f, maxLen).0, limit)
  {
    hide IsComplete, SlotInv;
  }

  lemma {:induction false} FragmentsLimited(r: Receiver, data: seq<byte>, maxLen: nat, limit: nat)
    requires RingInv(r) && Limited(r, limit) && maxLen <= limit
    ensures Limited(OpenFragments(r, data, maxLen).0, limit)
    decreases |data|
  {
    hide RingInv, Limited, Parse, OpenFragment;
    HasRing(r);
    if data != [] && Parse(data).Some? {
      var (f, rest) := Parse(data).value;
      FragmentKeepsRing(r, f, maxLen);
      FragmentLimited(r, f, maxLen, limit);
      if OpenFragment(r, f, maxLen).1.Success? {
        FragmentsLimited(OpenFragment(r, f, maxLen).0, rest, maxLen, limit);
      }
    }
  }

  lemma ReactLimited(r: Receiver, a: Input, limit: nat)
    requires RingInv(r) && Limited(r, limit) && (a.Advances? ==> r.hasMessage)
    requires a.Arrives? ==> a.maxLen <= limit
    ensures Limited(React(r, a), limit)
  {
    hide OpenRecord, OpenFragments, SlotInv, IsComplete, GetMessage;
    match a {
      case Arrives(rec, opens, maxLen) =>
        OpenRecordFrame(r, rec, opens);
        var (r1, status) := OpenRecord(r, rec, opens);
        if status.Success? && rec.ctype == Handshake {
          FragmentsLimited(r1, rec.plain, maxLen, limit);
        }
      case Takes => TakeFrame(r);
      case _ =>
    }
  }

  /** In every run no message of the ring is longer than the longest the handshake ever allowed, and while the read
      epoch is 1 the ring holds no message but the current one. */
  lemma {:induction false} LimitsHold(states: seq<Receiver>, inputs: seq<Input>, i: nat, limit: nat)
    requires IsReceiverRun(states, inputs) && i <= |inputs|
    requires forall j :: 0 <= j < i && inputs[j].Arrives? ==> inputs[j].maxLen <= limit
    ensures Limited(states[i], limit)
  {
    hide React, Limited, RingInv;
    if i == 0 {
      StartIsLimited(limit);
    } else {
      LimitsHold(states, inputs, i - 1, limit);
      RingInEveryRun(states, inputs, i - 1);
      assert Reacts(states[i - 1], inputs[i - 1], states[i - 1 + 1]);
      ReactLimited(states[i - 1], inputs[i - 1], limit);
    }
  }

  lemma StartIsLimited(limit: nat)
    ensures Limited(INITIAL, limit)
  {
  }
}
