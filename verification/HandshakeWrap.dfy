/** Where message numbers run out: with 2^16 messages the order is no longer kept. */
module HandshakeWrap {
  import opened Bytes
  import opened HandshakeFragment
  import opened Reassembly
  import opened HandshakeReceive
  import opened HandshakeArrivals
  import opened HandshakeSend
  import opened HandshakeTransport
  import opened HandshakeFlight
  import ReplayWindow

  // --- Extending a run --------------------------------------------------------------------------

  /** A run and its last state. */
  ghost predicate LeadsTo(trace: seq<System>, actions: seq<Action>, s: System) {
    IsRun(trace, actions, PlainText()) && trace[|actions|] == s
  }

  lemma Extend(trace: seq<System>, actions: seq<Action>, s: System, a: Action)
    returns (trace': seq<System>, actions': seq<Action>)
    requires LeadsTo(trace, actions, s) && |s.receiver.ring| == MAX_FLIGHT && Enabled(s, a)
    ensures LeadsTo(trace', actions', Step(s, a))
  {
    hide Step, Start, ValidAead;
    trace', actions' := trace + [Step(s, a)], actions + [a];
    forall i | 0 <= i < |actions'| ensures StepsTo(trace'[i], actions'[i], trace'[i + 1]) {
      if i < |actions| {
        assert StepsTo(trace[i], actions[i], trace[i + 1]);
      }
    }
  }

  // --- Rounds -----------------------------------------------------------------------------------

  const FIRST := Message(1, 0, [])

  function FirstRecord(): Record {
    Record(0, 0, Handshake, Raw(FIRST))
  }

  /** Nothing is queued, and the connection has never changed keys. */
  ghost predicate IdleSender(s: Sender, k: nat) {
    && s.msgs == [] && s.written == 0 && s.offset == 0 && !s.complete && s.epoch == 0 && s.aead == PlainText()
    && s.writeSeq == k % 0x1_0000 && s.seqNum == k
  }

  ghost predicate IdleReceiver(r: Receiver, k: nat) {
    && r.ring == INITIAL.ring && r.readSeq == k % 0x1_0000 && !r.hasMessage && !r.hasChangeCipherSpec && !r.closed
  }

  /** `k` empty messages have been sent and taken. */
  ghost predicate AfterRounds(s: System, k: nat) {
    && IdleSender(s.sender, k) && IdleReceiver(s.receiver, k) && s.receiver.epoch == 0 && !s.wrapped
    && |s.transcript| == |s.consumed| == k
    && (k > 0 ==> s.transcript[0] == FIRST && FirstRecord() in s.log)
  }

  function EmptyMessage(k: nat): Message {
    Message(1, k % 0x1_0000, [])
  }

  /** An empty message is complete as soon as it arrives. */
  lemma EmptyArrives(r: Receiver, k: nat, rec: Record, seen: set<uint64>)
    requires IdleReceiver(r, k) && r.epoch == 0 && ReplayWindow.Represents(r.window, seen)
    requires rec.epoch == 0 && rec.ctype == Handshake && rec.plain == Raw(EmptyMessage(k)) && IsFresh(seen, Number(rec))
    ensures |r.ring| == MAX_FLIGHT && Accepts(r, rec, true)
    ensures var n := k % 0x1_0000;
            var r' := OpenHandshake(r, rec, true, 0).0;
            && r' == r.(ring := r.ring[n % MAX_FLIGHT := Some(Slot(1, n, 0, map[]))], window := r'.window,
                        warnings := r'.warnings)
  {
    hide ReplayWindow.Represents, IsFresh, OpenFragments, Raw;
    RawLength(EmptyMessage(k));
    EmptyOpens(r, rec, seen);
    EmptyFragments(OpenRecord(r, rec, true).0, k);
  }

  lemma EmptyOpens(r: Receiver, rec: Record, seen: set<uint64>)
    requires !r.closed && r.epoch == rec.epoch && ReplayWindow.Represents(r.window, seen)
    requires rec.ctype == Handshake && |rec.plain| <= MAX_PLAIN_LENGTH && IsFresh(seen, Number(rec))
    ensures Accepts(r, rec, true) && OpenRecord(r, rec, true).1.Success?
    ensures var r1 := OpenRecord(r, rec, true).0; r1 == r.(window := r1.window, warnings := r1.warnings)
  {
    hide ReplayWindow.Represents, ReplayWindow.Record;
    ReplayWindow.DiscardsExactly(r.window, seen, Number(rec));
  }

  lemma EmptyFragments(r: Receiver, k: nat)
    requires |r.ring| == MAX_FLIGHT && r.readSeq == k % 0x1_0000 && r.epoch == 0
    requires r.ring[r.readSeq % MAX_FLIGHT].None?
    ensures OpenFragments(r, Raw(EmptyMessage(k)), 0)
         == (r.(ring := r.ring[r.readSeq % MAX_FLIGHT := Some(Slot(1, r.readSeq, 0, map[]))]), Success)
  {
    hide Parse, Serialize, OpenFragment;
    var m := EmptyMessage(k);
    var f := HandshakeFragment.Whole(m);
    RawLength(m);
    ParseSerialize(f, []);
    assert Raw(m) + [] == Raw(m) && Raw(m) != [];
    EmptyIsStored(r, f);
    var r2 := OpenFragment(r, f, 0).0;
    assert OpenFragments(r2, [], 0) == (r2, Success);
  }

  lemma EmptyIsStored(r: Receiver, f: Fragment)
    requires |r.ring| == MAX_FLIGHT && r.ring[f.seqNo % MAX_FLIGHT].None? && r.epoch == 0 && f.seqNo == r.readSeq
    requires f == Fragment(1, 0, f.seqNo, 0, [])
    ensures OpenFragment(r, f, 0)
         == (r.(ring := r.ring[f.seqNo % MAX_FLIGHT := Some(Slot(1, f.seqNo, 0, map[]))]), Success)
  {
    var s := Slot(1, f.seqNo, 0, map[]);
    assert s.got.Keys == Range(0, 0);
  }

  /** It is handed out as the sender's raw message, and advancing past it leaves the ring empty. */
  lemma EmptyTaken(r: Receiver, k: nat)
    requires |r.ring| == MAX_FLIGHT && r.readSeq == k % 0x1_0000
    requires r.ring == INITIAL.ring[r.readSeq % MAX_FLIGHT := Some(Slot(1, r.readSeq, 0, map[]))]
    ensures GetMessage(r) == (r.(hasMessage := true), Some(Raw(EmptyMessage(k))))
    ensures NextMessage(r).ring == INITIAL.ring && NextMessage(r).readSeq == (k + 1) % 0x1_0000
  {
    hide Raw, Assembled, IsComplete;
    EmptyAssembled(r.readSeq);
    EmptyAdvanced(r, k);
  }

  lemma EmptyAssembled(n: uint16)
    ensures var s := Slot(1, n, 0, map[]); IsComplete(s) && Assembled(s) == Raw(Message(1, n, []))
  {
    var s := Slot(1, n, 0, map[]);
    assert s.got.Keys == Range(0, 0);
    hide Header;
    assert Assembled(s) == Header(1, 0, n, 0, 0) + [];
  }

  lemma EmptyAdvanced(r: Receiver, k: nat)
    requires |r.ring| == MAX_FLIGHT && r.readSeq == k % 0x1_0000
    requires r.ring == INITIAL.ring[r.readSeq % MAX_FLIGHT := Some(Slot(1, r.readSeq, 0, map[]))]
    ensures NextMessage(r).ring == INITIAL.ring && NextMessage(r).readSeq == (k + 1) % 0x1_0000
  {
    assert INITIAL.ring[r.readSeq % MAX_FLIGHT := None] == INITIAL.ring;
  }

  // --- The steps of a round ---------------------------------------------------------------------

  /** In the middle of round `k`: the message is sealed, and its record has not arrived. */
  ghost predicate MidRound(s: System, k: nat) {
    && s.sender.epoch == 0 && s.sender.aead == PlainText() && s.sender.writeSeq == (k + 1) % 0x1_0000
    && s.sender.seqNum == k + 1 && !s.wrapped && s.receiver.epoch == 0
    && |s.transcript| == k + 1 && |s.consumed| == k && s.transcript[0] == FIRST && FirstRecord() in s.log
    && RoundRecord(k) in s.log
  }

  function RoundRecord(k: nat): Record {
    Record(0, k % SEQ_LIMIT, Handshake, Raw(EmptyMessage(k)))
  }

  lemma SendAndSeal(s: System, k: nat) returns (s1: System)
    requires AfterRounds(s, k) && k < 0x1_0000
    ensures |s.receiver.ring| == MAX_FLIGHT && Enabled(s, Send(1, [])) && s1 == Step(s, Send(1, []))
    ensures |s1.receiver.ring| == MAX_FLIGHT && Enabled(s1, Packet(0x2000, true))
    ensures var s2 := Step(s1, Packet(0x2000, true));
            MidRound(s2, k) && IdleReceiver(s2.receiver, k) && s2.receiver == s.receiver && s2.seen == s.seen
  {
    hide Raw, SealPacket;
    var m := EmptyMessage(k);
    RawLength(m);
    s1 := Step(s, Send(1, []));
    assert s1.sender.msgs == [OutgoingMessage(Raw(m), 0, false)];
    var x := SoleMessagePacket(s1.sender, m, 0x2000);
    assert Records([x]) == [x.rec];
  }

  lemma NextNumberIsFresh(s: System, k: nat)
    requires AfterRounds(s, k) && k < 0x1_0000 && NumberInv(s) && WindowInv(s)
    ensures IsFresh(s.seen, Number(RoundRecord(k)))
  {
    hide ReplayWindow.Represents, UniqueNumbers, Raw;
    forall m | m in s.seen ensures m < Number(RoundRecord(k)) {
      assert WasSealed(m, s.log, s.receiver.epoch);
      var rec :| rec in s.log && rec.epoch == s.receiver.epoch && Number(rec) == m;
      assert Below(rec, s.sender);
    }
  }

  lemma ArriveAndTake(s: System, k: nat) returns (s1: System, s2: System, s3: System)
    requires k < 0x1_0000 && MidRound(s, k) && IdleReceiver(s.receiver, k)
    requires ReplayWindow.Represents(s.receiver.window, s.seen) && IsFresh(s.seen, Number(RoundRecord(k)))
    ensures |s.receiver.ring| == MAX_FLIGHT && Enabled(s, Arrive(RoundRecord(k), true, 0))
    ensures s1 == Step(s, Arrive(RoundRecord(k), true, 0))
    ensures |s1.receiver.ring| == MAX_FLIGHT && Enabled(s1, Get) && s2 == Step(s1, Get)
    ensures |s2.receiver.ring| == MAX_FLIGHT && Enabled(s2, Next) && s3 == Step(s2, Next)
    ensures |s3.receiver.ring| == MAX_FLIGHT && Enabled(s3, ClearFlight) && AfterRounds(Step(s3, ClearFlight), k + 1)
  {
    hide Raw, ReplayWindow.Represents, IsFresh, OpenHandshake, GetMessage;
    EmptyArrives(s.receiver, k, RoundRecord(k), s.seen);
    s1 := Step(s, Arrive(RoundRecord(k), true, 0));
    EmptyTaken(s1.receiver, k);
    s2 := Step(s1, Get);
    EmptyTaken(s2.receiver, k);
    s3 := Step(s2, Next);
  }

  /** One more message is sent and taken. */
  lemma {:induction false} Round(trace: seq<System>, actions: seq<Action>, s: System, k: nat)
    returns (trace': seq<System>, actions': seq<Action>, s': System)
    requires LeadsTo(trace, actions, s) && AfterRounds(s, k) && k < 0x1_0000
    ensures LeadsTo(trace', actions', s') && AfterRounds(s', k + 1)
  {
    hide Step, Enabled, AfterRounds, MidRound, IdleReceiver, IsFresh, NumberInv, IsRun;
    LastInv(trace, actions, s);
    NextNumberIsFresh(s, k);
    var s1 := SendAndSeal(s, k);
    var s2 := Step(s1, Packet(0x2000, true));
    SameWindow(s, s2);
    var s3, s4, s5 := ArriveAndTake(s2, k);
    s' := Step(s5, ClearFlight);
    trace', actions' := Extend(trace, actions, s, Send(1, []));
    trace', actions' := Extend(trace', actions', s1, Packet(0x2000, true));
    trace', actions' := Extend(trace', actions', s2, Arrive(RoundRecord(k), true, 0));
    trace', actions' := Extend(trace', actions', s3, Get);
    trace', actions' := Extend(trace', actions', s4, Next);
    trace', actions' := Extend(trace', actions', s5, ClearFlight);
  }

  lemma LastInv(trace: seq<System>, actions: seq<Action>, s: System)
    requires LeadsTo(trace, actions, s)
    ensures NumberInv(s) && WindowInv(s) && RingInv(s.receiver)
  {
    hide NumberInv, WindowInv, RingInv;
    RunNumbers(trace, actions, PlainText(), |actions|);
  }

  lemma SameWindow(s: System, s2: System)
    requires WindowInv(s) && s2.receiver == s.receiver && s2.seen == s.seen
    ensures ReplayWindow.Represents(s2.receiver.window, s2.seen)
  {
  }

  lemma {:induction false} Rounds(k: nat) returns (trace: seq<System>, actions: seq<Action>, s: System)
    requires k <= 0x1_0000
    ensures LeadsTo(trace, actions, s) && AfterRounds(s, k)
  {
    hide AfterRounds;
    if k == 0 {
      s := Start(PlainText());
      trace, actions := [s], [];
      StartIsAfterNone();
    } else {
      trace, actions, s := Rounds(k - 1);
      trace, actions, s := Round(trace, actions, s, k - 1);
    }
  }

  lemma StartIsAfterNone()
    ensures AfterRounds(Start(PlainText()), 0) && ValidAead(PlainText())
  {
  }

  // --- When the numbers come round --------------------------------------------------------------

  /** All messages have been taken, and the read epoch has been changed `n` times since. */
  ghost predicate AfterChanges(s: System, n: nat) {
    && IdleReceiver(s.receiver, 0) && s.receiver.epoch == n % 0x1_0000 && !s.wrapped
    && (n > 0 ==> s.seen == {} && s.receiver.window == ReplayWindow.EMPTY)
    && |s.transcript| == |s.consumed| == 0x1_0000 && FirstRecord() in s.log && s.sender.msgs == []
    && !s.sender.complete && s.sender.writeSeq == 0
  }

  lemma ChangeOnce(s: System, n: nat)
    requires AfterChanges(s, n)
    ensures |s.receiver.ring| == MAX_FLIGHT && Enabled(s, ChangeReadKeys)
    ensures AfterChanges(Step(s, ChangeReadKeys), n + 1)
  {
    hide Raw;
    assert !HasUnprocessedData(s.receiver);
  }

  lemma {:induction false} Changes(n: nat) returns (trace: seq<System>, actions: seq<Action>, s: System)
    ensures LeadsTo(trace, actions, s) && AfterChanges(s, n)
  {
    hide AfterChanges, Step, Enabled, LeadsTo;
    if n == 0 {
      trace, actions, s := Rounds(0x1_0000);
      RoundsThenChanges(s);
    } else {
      trace, actions, s := Changes(n - 1);
      ChangeOnce(s, n - 1);
      trace, actions := Extend(trace, actions, s, ChangeReadKeys);
      s := Step(s, ChangeReadKeys);
    }
  }

  lemma RoundsThenChanges(s: System)
    requires AfterRounds(s, 0x1_0000)
    ensures AfterChanges(s, 0)
  {
    hide Raw;
  }

  /** All 2^16 messages have been taken, and the first one is on offer again; `extra` more have been queued since. */
  ghost predicate OfferedAgain(s: System, extra: nat) {
    && |s.receiver.ring| == MAX_FLIGHT && GetMessage(s.receiver).1 == Some(Raw(FIRST))
    && |s.consumed| == 0x1_0000 && |s.transcript| == 0x1_0000 + extra && s.sender.msgs == [] && !s.sender.complete
    && (if extra == 0 then s.sender.writeSeq == 0 else s.transcript[0x1_0000] == Message(2, 0, []))
  }

  /** After 2^16 changes of the read epoch the record of the first message is accepted again. */
  lemma FirstArrivesAgain(s: System)
    requires AfterChanges(s, 0x1_0000)
    ensures |s.receiver.ring| == MAX_FLIGHT && Enabled(s, Arrive(FirstRecord(), true, 0))
    ensures OfferedAgain(Step(s, Arrive(FirstRecord(), true, 0)), 0)
  {
    hide Raw, ReplayWindow.Represents, OpenHandshake, GetMessage;
    ReplayWindow.EmptyRepresents();
    EmptyArrives(s.receiver, 0, FirstRecord(), {});
    EmptyTaken(Step(s, Arrive(FirstRecord(), true, 0)).receiver, 0);
  }

  /** Another message is queued, and its flight cleared. */
  lemma QueueMore(s: System, extra: nat) returns (s1: System)
    requires OfferedAgain(s, extra)
    ensures Enabled(s, Send(2, [])) && s1 == Step(s, Send(2, [])) && |s1.receiver.ring| == MAX_FLIGHT
    ensures Enabled(s1, ClearFlight) && OfferedAgain(Step(s1, ClearFlight), extra + 1)
  {
    hide GetMessage;
    RawLength(Message(2, s.sender.writeSeq, []));
    hide Raw;
    s1 := Step(s, Send(2, []));
  }

  lemma {:induction false} ManyMessages(extra: nat) returns (trace: seq<System>, actions: seq<Action>, s: System)
    ensures LeadsTo(trace, actions, s) && OfferedAgain(s, extra)
  {
    hide AfterChanges, OfferedAgain, Step, Enabled, LeadsTo;
    if extra == 0 {
      trace, actions, s := Changes(0x1_0000);
      FirstArrivesAgain(s);
      trace, actions := Extend(trace, actions, s, Arrive(FirstRecord(), true, 0));
      s := Step(s, Arrive(FirstRecord(), true, 0));
    } else {
      trace, actions, s := ManyMessages(extra - 1);
      HasRing(s, extra - 1);
      var s1 := QueueMore(s, extra - 1);
      trace, actions := Extend(trace, actions, s, Send(2, []));
      trace, actions := Extend(trace, actions, s1, ClearFlight);
      s := Step(s1, ClearFlight);
    }
  }

  lemma HasRing(s: System, extra: nat)
    requires OfferedAgain(s, extra)
    ensures |s.receiver.ring| == MAX_FLIGHT
  {
  }

  /** What is on offer is not the next message of the sender, if there is one at all. */
  lemma OutOfOrder(s: System, extra: nat)
    requires OfferedAgain(s, extra)
    ensures !TakenInOrder(s)
  {
    hide GetMessage;
    if extra > 0 {
      RawType(FIRST);
      RawType(Message(2, 0, []));
      hide Raw;
    }
  }

  lemma RawType(m: Message)
    requires |m.body| < 0x100_0000
    ensures |Raw(m)| > 0 && Raw(m)[0] == m.typ
  {
  }

  /** `s` is a state of some run. */
  ghost predicate Reachable(s: System) {
    exists trace: seq<System>, actions: seq<Action>, nullCipher: Aead, i: nat ::
      Passes(trace, actions, nullCipher, i, s)
  }

  ghost predicate Passes(trace: seq<System>, actions: seq<Action>, nullCipher: Aead, i: nat, s: System) {
    IsRun(trace, actions, nullCipher) && i < |trace| && trace[i] == s
  }

  /** Messages are taken in order in every reachable state with `n` messages if and only if `n` is below 2^16. */
  lemma {:induction false} OrderLimitIsExact(n: nat)
    ensures n < 0x1_0000 <==> (forall s :: Reachable(s) && |s.transcript| == n ==> TakenInOrder(s))
  {
    hide IsRun, TakenInOrder;
    if n < 0x1_0000 {
      forall s | Reachable(s) && |s.transcript| == n ensures TakenInOrder(s) {
        var trace, actions, nullCipher, i :| Passes(trace, actions, nullCipher, i, s);
        MessagesArriveInOrderOnce(trace, actions, nullCipher, i);
      }
    } else {
      var trace, actions, s := ManyMessages(n - 0x1_0000);
      OutOfOrder(s, n - 0x1_0000);
      LastIs(trace, actions, s);
    }
  }

  lemma LastIs(trace: seq<System>, actions: seq<Action>, s: System)
    requires LeadsTo(trace, actions, s)
    ensures Reachable(s)
  {
    assert Passes(trace, actions, PlainText(), |actions|, s);
  }
}
