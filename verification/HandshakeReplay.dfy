/** What the record layer promises over every run of the receiver: no record is accepted twice, and warnings are
    limited. */
module HandshakeReplay {
  import opened Bytes
  import opened HandshakeReceive
  import opened ReplayWindow

  // --- The records accepted in a run ------------------------------------------------------------

  /** The record the first input brings, if the receiver accepts it. */
  ghost function AcceptedBy(r: Receiver, a: Input): seq<Record> {
    if a.Arrives? && Accepts(r, a.rec, a.opens) then [a.rec] else []
  }

  /** The records accepted by the first `i` inputs, oldest first. */
  ghost function Accepted(states: seq<Receiver>, inputs: seq<Input>, i: nat): seq<Record>
    requires i <= |inputs| < |states|
  {
    if i == 0 then [] else Accepted(states, inputs, i - 1) + AcceptedBy(states[i - 1], inputs[i - 1])
  }

  ghost predicate ChangesEpoch(r: Receiver, a: Input) {
    a.ChangesReadKeys? && |r.ring| == MAX_FLIGHT && SetReadState(r).1
  }

  /** How many of the first `i` inputs changed the read epoch. */
  ghost function EpochChanges(states: seq<Receiver>, inputs: seq<Input>, i: nat): nat
    requires i <= |inputs| < |states|
  {
    if i == 0 then 0
    else EpochChanges(states, inputs, i - 1) + if ChangesEpoch(states[i - 1], inputs[i - 1]) then 1 else 0
  }

  // --- Replays ----------------------------------------------------------------------------------

  predicate SameNumber(a: Record, b: Record) {
    a.epoch == b.epoch && a.seqNum == b.seqNum
  }

  ghost predicate NoneTwice(accepted: seq<Record>) {
    forall i, j :: 0 <= i < j < |accepted| ==> !SameNumber(accepted[i], accepted[j])
  }

  /** The accepted numbers of an epoch. */
  ghost function NumbersOf(accepted: seq<Record>, epoch: uint16): set<uint64> {
    set rec | rec in accepted && rec.epoch == epoch :: SequenceU64(rec.epoch, rec.seqNum)
  }

  /** The window stands for the accepted numbers of the current epoch, and no accepted record is from a later one. */
  ghost predicate ReplayInv(r: Receiver, accepted: seq<Record>, changes: nat) {
    && r.epoch == changes && NoneTwice(accepted)
    && (forall rec :: rec in accepted ==> rec.epoch <= r.epoch)
    && Represents(r.window, NumbersOf(accepted, r.epoch))
  }

  lemma AcceptKeepsReplay(r: Receiver, r': Receiver, accepted: seq<Record>, changes: nat, rec: Record)
    requires ReplayInv(r, accepted, changes) && Accepts(r, rec, true)
    requires r'.epoch == r.epoch && r'.window == ReplayWindow.Record(r.window, SequenceU64(rec.epoch, rec.seqNum))
    ensures ReplayInv(r', accepted + [rec], changes)
  {
    var seen, number := NumbersOf(accepted, r.epoch), SequenceU64(rec.epoch, rec.seqNum);
    assert NumbersOf(accepted + [rec], r.epoch) == seen + {number} by {
      assert forall x :: x in accepted + [rec] <==> x in accepted || x == rec;
    }
    hide Represents;
    DiscardsExactly(r.window, seen, number);
    RecordRepresents(r.window, seen, number);
    forall i | 0 <= i < |accepted| ensures !SameNumber(accepted[i], rec) {
      assert accepted[i].epoch == r.epoch ==> SequenceU64(accepted[i].epoch, accepted[i].seqNum) in seen;
    }
  }

  lemma ChangeKeepsReplay(r: Receiver, r': Receiver, accepted: seq<Record>, changes: nat)
    requires ReplayInv(r, accepted, changes) && changes + 1 < 0x1_0000
    requires r'.epoch == r.epoch + 1 && r'.window == EMPTY
    ensures ReplayInv(r', accepted, changes + 1)
  {
    hide Represents;
    assert NumbersOf(accepted, r'.epoch) == {};
    EmptyRepresents();
  }

  lemma ReactKeepsReplay(r: Receiver, a: Input, accepted: seq<Record>, changes: nat)
    requires RingInv(r) && ReplayInv(r, accepted, changes)
    requires ChangesEpoch(r, a) ==> changes + 1 < 0x1_0000
    ensures ReplayInv(React(r, a), accepted + AcceptedBy(r, a), changes + if ChangesEpoch(r, a) then 1 else 0)
  {
    hide OpenHandshake, GetMessage, Represents, HasUnprocessedData, SlotInv, IsComplete, NoneTwice, NumbersOf;
    hide ReplayWindow.Record, ShouldDiscard;
    assert accepted + [] == accepted;
    match a {
      case Arrives(rec, opens, maxLen) =>
        WindowAfter(r, rec, opens, maxLen);
        if Accepts(r, rec, opens) {
          AcceptKeepsReplay(r, React(r, a), accepted, changes, rec);
        }
      case ChangesReadKeys =>
        if SetReadState(r).1 {
          ChangeKeepsReplay(r, React(r, a), accepted, changes);
        }
      case Takes => TakesWindow(r);
      case _ =>
    }
  }

  lemma TakesWindow(r: Receiver)
    requires |r.ring| == MAX_FLIGHT
    ensures GetMessage(r).0.window == r.window && GetMessage(r).0.epoch == r.epoch
  {
    hide Assembled;
  }

  lemma {:induction false} RunKeepsReplay(states: seq<Receiver>, inputs: seq<Input>, i: nat)
    requires IsReceiverRun(states, inputs) && i <= |inputs| && EpochChanges(states, inputs, i) < 0x1_0000
    ensures ReplayInv(states[i], Accepted(states, inputs, i), EpochChanges(states, inputs, i))
  {
    hide ReplayInv, React, ChangesEpoch, AcceptedBy;
    if i == 0 {
      StartIsFresh();
    } else {
      RunKeepsReplay(states, inputs, i - 1);
      RingInEveryRun(states, inputs, i - 1);
      assert Reacts(states[i - 1], inputs[i - 1], states[i - 1 + 1]);
      ReactKeepsReplay(states[i - 1], inputs[i - 1], Accepted(states, inputs, i - 1),
                       EpochChanges(states, inputs, i - 1));
    }
  }

  lemma StartIsFresh()
    ensures ReplayInv(INITIAL, [], 0)
  {
    EmptyRepresents();
    assert NumbersOf([], 0) == {};
  }

  /** No record is accepted twice in a run of fewer than 2^16 changes of the read epoch. */
  lemma NoRecordAcceptedTwice(states: seq<Receiver>, inputs: seq<Input>)
    requires IsReceiverRun(states, inputs) && EpochChanges(states, inputs, |inputs|) < 0x1_0000
    ensures NoneTwice(Accepted(states, inputs, |inputs|))
  {
    RunKeepsReplay(states, inputs, |inputs|);
  }

  // The bound is sharp: after 2^16 changes the 16-bit epoch is back where it was and the window is empty.

  lemma {:induction false} PrefixSame(states: seq<Receiver>, inputs: seq<Input>, r: Receiver, a: Input, i: nat)
    requires i <= |inputs| < |states|
    ensures Accepted(states + [r], inputs + [a], i) == Accepted(states, inputs, i)
    ensures EpochChanges(states + [r], inputs + [a], i) == EpochChanges(states, inputs, i)
  {
    hide AcceptedBy, ChangesEpoch;
    if i > 0 {
      PrefixSame(states, inputs, r, a, i - 1);
    }
  }

  /** One more input. */
  lemma {:induction false} Extend(states: seq<Receiver>, inputs: seq<Input>, a: Input)
    returns (states': seq<Receiver>, inputs': seq<Input>)
    requires IsReceiverRun(states, inputs) && !a.Advances?
    ensures IsReceiverRun(states', inputs') && |inputs'| == |inputs| + 1
    ensures |states[|inputs|].ring| == MAX_FLIGHT && states'[|inputs'|] == React(states[|inputs|], a)
    ensures Accepted(states', inputs', |inputs'|)
         == Accepted(states, inputs, |inputs|) + AcceptedBy(states[|inputs|], a)
    ensures EpochChanges(states', inputs', |inputs'|)
         == EpochChanges(states, inputs, |inputs|) + if ChangesEpoch(states[|inputs|], a) then 1 else 0
  {
    hide React, AcceptedBy, ChangesEpoch;
    RingInEveryRun(states, inputs, |inputs|);
    var r := React(states[|inputs|], a);
    states', inputs' := states + [r], inputs + [a];
    PrefixSame(states, inputs, r, a, |inputs|);
    forall i | 0 <= i < |inputs'| ensures Reacts(states'[i], inputs'[i], states'[i + 1]) {
      if i < |inputs| {
        assert Reacts(states[i], inputs[i], states[i + 1]);
      }
    }
  }

  /** Nothing is received that a change of keys would have to wait for. */
  ghost predicate Quiet(r: Receiver) {
    r.ring == INITIAL.ring && !r.hasChangeCipherSpec && !r.closed
  }

  lemma QuietChanges(r: Receiver)
    requires Quiet(r)
    ensures |r.ring| == MAX_FLIGHT
    ensures SetReadState(r) == (r.(epoch := (r.epoch + 1) % 0x1_0000, window := EMPTY, nullCipher := false), true)
  {
  }

  /** `n` changes of the read epoch in a row. */
  lemma {:induction false} ChangeMany(states: seq<Receiver>, inputs: seq<Input>, n: nat)
    returns (states': seq<Receiver>, inputs': seq<Input>)
    requires IsReceiverRun(states, inputs) && Quiet(states[|inputs|])
    ensures IsReceiverRun(states', inputs') && Quiet(states'[|inputs'|])
    ensures Accepted(states', inputs', |inputs'|) == Accepted(states, inputs, |inputs|)
    ensures EpochChanges(states', inputs', |inputs'|) == EpochChanges(states, inputs, |inputs|) + n
    ensures states'[|inputs'|].epoch == (states[|inputs|].epoch + n) % 0x1_0000
    ensures n > 0 ==> states'[|inputs'|].window == EMPTY
  {
    hide Reacts, Accepted, EpochChanges, SetReadState;
    if n == 0 {
      states', inputs' := states, inputs;
      assert states[|inputs|].epoch % 0x1_0000 == states[|inputs|].epoch;
    } else {
      var states1, inputs1 := ChangeMany(states, inputs, n - 1);
      var r := states1[|inputs1|];
      QuietChanges(r);
      states', inputs' := Extend(states1, inputs1, ChangesReadKeys);
      var before := Accepted(states1, inputs1, |inputs1|);
      assert before + [] == before;
      NextModulo(states[|inputs|].epoch + (n - 1));
    }
  }

  lemma NextModulo(k: nat)
    ensures (k % 0x1_0000 + 1) % 0x1_0000 == (k + 1) % 0x1_0000
  {
  }

  /** An empty handshake record: it is accepted and changes nothing but the window. */
  lemma EmptyRecordAccepted(r: Receiver, rec: Record)
    requires Quiet(r) && r.window == EMPTY && r.epoch == rec.epoch && rec.ctype == Handshake && rec.plain == []
    ensures Accepts(r, rec, true) && Quiet(React(r, Arrives(rec, true, 0)))
    ensures React(r, Arrives(rec, true, 0)).epoch == r.epoch
  {
    hide ReplayWindow.Record;
    EmptyRepresents();
    DiscardsExactly(EMPTY, {}, SequenceU64(rec.epoch, rec.seqNum));
  }

  /** After 2^16 changes of the read epoch the same record is accepted again. */
  lemma {:induction false} EpochWrapAcceptsTwice(seqNum: uint48) returns (states: seq<Receiver>, inputs: seq<Input>)
    ensures IsReceiverRun(states, inputs) && Quiet(states[|inputs|])
    ensures EpochChanges(states, inputs, |inputs|) == 0x1_0000
    ensures var rec := Record(0, seqNum, Handshake, []); Accepted(states, inputs, |inputs|) == [rec, rec]
  {
    hide Reacts, EpochChanges, React, Accepts, Quiet;
    var rec := Record(0, seqNum, Handshake, []);
    var a := Arrives(rec, true, 0);
    StartIsRun();
    EmptyRecordAccepted(INITIAL, rec);
    var states1, inputs1 := Extend([INITIAL], [], a);
    var states2, inputs2 := ChangeMany(states1, inputs1, 0x1_0000);
    EmptyRecordAccepted(states2[|inputs2|], rec);
    states, inputs := Extend(states2, inputs2, a);
  }

  lemma StartIsRun()
    ensures IsReceiverRun([INITIAL], []) && Quiet(INITIAL) && EpochChanges([INITIAL], [], 0) == 0
  {
  }

  /** 2^16 is exactly the number of epochs the window protects. */
  lemma {:induction false} EpochLimitIsExact(n: nat)
    ensures n < 0x1_0000 <==>
              forall states, inputs :: IsReceiverRun(states, inputs) && EpochChanges(states, inputs, |inputs|) == n ==>
                NoneTwice(Accepted(states, inputs, |inputs|))
  {
    hide Reacts, EpochChanges, Accepted;
    if n < 0x1_0000 {
      forall states, inputs | IsReceiverRun(states, inputs) && EpochChanges(states, inputs, |inputs|) == n
        ensures NoneTwice(Accepted(states, inputs, |inputs|))
      {
        NoRecordAcceptedTwice(states, inputs);
      }
    } else {
      var states1, inputs1 := EpochWrapAcceptsTwice(0);
      var states, inputs := ChangeMany(states1, inputs1, n - 0x1_0000);
      var accepted := Accepted(states, inputs, |inputs|);
      assert SameNumber(accepted[0], accepted[1]);
    }
  }

  // --- Warnings ---------------------------------------------------------------------------------

  predicate IsWarning(rec: Record) {
    rec.ctype == AlertMessage && |rec.plain| == 2 && rec.plain[0] == 1 && rec.plain[1] != 0
  }

  /** How many warnings have been accepted since the last record of another type. */
  function WarningsInARow(accepted: seq<Record>): nat {
    if accepted == [] then 0
    else
      var init, last := accepted[..|accepted| - 1], accepted[|accepted| - 1];
      if last.ctype != AlertMessage then 0 else WarningsInARow(init) + if IsWarning(last) then 1 else 0
  }

  /** The answer to a record is that of too many warnings. */
  ghost predicate TooManyWarnings(r: Receiver, a: Input) {
    a.Arrives? && OpenRecord(r, a.rec, a.opens).1 == Error(UnexpectedMessage)
  }

  lemma ReactCountsWarnings(r: Receiver, a: Input, accepted: seq<Record>)
    requires RingInv(r) && r.warnings == WarningsInARow(accepted) <= MAX_WARNING_ALERTS
    ensures TooManyWarnings(r, a) <==>
              && AcceptedBy(r, a) != [] && IsWarning(a.rec)
              && WarningsInARow(accepted) == MAX_WARNING_ALERTS
    ensures !TooManyWarnings(r, a) ==>
              React(r, a).warnings == WarningsInARow(accepted + AcceptedBy(r, a)) <= MAX_WARNING_ALERTS
  {
    hide SlotInv, IsComplete, HasUnprocessedData, GetMessage, OpenRecord, OpenHandshake, Accepts;
    hide WarningsInARow, IsWarning;
    assert accepted + [] == accepted;
    match a {
      case Arrives(rec, opens, maxLen) =>
        OpenCountsWarnings(r, rec, opens);
        OneMoreAccepted(accepted, rec);
        FragmentsKeepWarnings(r, rec, opens, maxLen);
      case Takes => TakesWarnings(r);
      case _ =>
    }
  }

  lemma OneMoreAccepted(accepted: seq<Record>, rec: Record)
    ensures WarningsInARow(accepted + [rec]) ==
            if rec.ctype != AlertMessage then 0 else WarningsInARow(accepted) + if IsWarning(rec) then 1 else 0
  {
    hide IsWarning;
    assert (accepted + [rec])[..|accepted|] == accepted;
  }

  lemma OpenCountsWarnings(r: Receiver, rec: Record, opens: bool)
    requires |r.ring| == MAX_FLIGHT && r.warnings <= MAX_WARNING_ALERTS
    ensures OpenRecord(r, rec, opens).1 == Error(UnexpectedMessage) <==>
              Accepts(r, rec, opens) && IsWarning(rec) && r.warnings == MAX_WARNING_ALERTS
    ensures OpenRecord(r, rec, opens).1 != Error(UnexpectedMessage) ==>
              OpenRecord(r, rec, opens).0.warnings ==
              if !Accepts(r, rec, opens) then r.warnings
              else if rec.ctype != AlertMessage then 0 else r.warnings + if IsWarning(rec) then 1 else 0
  {
    hide ShouldDiscard, ReplayWindow.Record;
  }

  lemma TakesWarnings(r: Receiver)
    requires |r.ring| == MAX_FLIGHT
    ensures GetMessage(r).0.warnings == r.warnings
  {
    hide Assembled;
  }

  lemma FragmentsKeepWarnings(r: Receiver, rec: Record, opens: bool, maxLen: nat)
    requires RingInv(r)
    ensures OpenHandshake(r, rec, opens, maxLen).0.warnings == OpenRecord(r, rec, opens).0.warnings
  {
    hide OpenRecord, OpenFragments, SlotInv, IsComplete;
    OpenRecordFrame(r, rec, opens);
    var (r', status) := OpenRecord(r, rec, opens);
    if status.Success? && rec.ctype == Handshake {
      FragmentsKeepRing(r', rec.plain, maxLen);
    }
  }

  /** In every run, up to the first such answer: a record is answered with the error of too many warnings if and only if
      it is an accepted warning and exactly four came before it without any other record in between. */
  lemma {:induction false} FifthWarningFails(states: seq<Receiver>, inputs: seq<Input>, i: nat)
    requires IsReceiverRun(states, inputs) && i < |inputs|
    requires forall k :: 0 <= k < i ==> !TooManyWarnings(states[k], inputs[k])
    ensures TooManyWarnings(states[i], inputs[i]) <==>
              && AcceptedBy(states[i], inputs[i]) != [] && IsWarning(inputs[i].rec)
              && WarningsInARow(Accepted(states, inputs, i)) == MAX_WARNING_ALERTS
  {
    hide TooManyWarnings, AcceptedBy, IsWarning, WarningsInARow, React;
    WarningsCounted(states, inputs, i);
    RingInEveryRun(states, inputs, i);
    ReactCountsWarnings(states[i], inputs[i], Accepted(states, inputs, i));
  }

  lemma {:induction false} WarningsCounted(states: seq<Receiver>, inputs: seq<Input>, i: nat)
    requires IsReceiverRun(states, inputs) && i < |inputs|
    requires forall k :: 0 <= k < i ==> !TooManyWarnings(states[k], inputs[k])
    ensures states[i].warnings == WarningsInARow(Accepted(states, inputs, i)) <= MAX_WARNING_ALERTS
  {
    hide TooManyWarnings, AcceptedBy, IsWarning, React;
    if i > 0 {
      hide WarningsInARow;
      WarningsCounted(states, inputs, i - 1);
      RingInEveryRun(states, inputs, i - 1);
      assert Reacts(states[i - 1], inputs[i - 1], states[i - 1 + 1]);
      ReactCountsWarnings(states[i - 1], inputs[i - 1], Accepted(states, inputs, i - 1));
    }
  }
}
