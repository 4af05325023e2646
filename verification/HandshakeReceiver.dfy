/** The receiver in place: a ring of message objects, updated fragment by fragment. */
module HandshakeReceiver {
  import opened Bits
  import opened Bytes
  import opened HandshakeFragment
  import opened Reassembly
  import opened HandshakeReceive
  import opened HandshakeDatagram
  import HandshakeSend
  import ReplayWindow

  /** The message object `frag` holds the bytes of slot `s`. */
  ghost predicate Shows(frag: HmFragment, s: Slot)
    reads frag, frag.repr
  {
    && frag.Valid()
    && s.typ == frag.typ && s.seqNo == frag.seqNo && s.msgLen == frag.msgLen
    && s.got.Keys == frag.received
    && forall p :: p in s.got ==> p < frag.msgLen && frag.Body()[p] == s.got[p]
  }

  /** Copying a fragment in and marking it is filling the slot. */
  method FillInPlace(frag: HmFragment, ghost s: Slot, off: nat, body: seq<byte>)
    requires Shows(frag, s) && frag.reassembly != null && off + |body| <= frag.msgLen
    modifies frag, frag.data, frag.reassembly
    ensures Shows(frag, Fill(s, off, body))
  {
    frag.CopyIn(off, body);
    ghost var s' := Fill(s, off, body);
    assert s'.got.Keys == frag.received;
    forall p | p in s'.got ensures frag.Body()[p] == s'.got[p] {
    }
  }

  lemma SameNumber(r: Receiver, f: Fragment)
    requires RingInv(r) && r.readSeq <= f.seqNo < r.readSeq + MAX_FLIGHT && r.ring[f.seqNo % MAX_FLIGHT].Some?
    ensures r.ring[f.seqNo % MAX_FLIGHT].value.seqNo == f.seqNo
  {
    WindowIndexUnique(r.readSeq, f.seqNo, r.ring[f.seqNo % MAX_FLIGHT].value.seqNo);
  }

  /** The header at `from`, whose eight number bytes are copied, and what the cipher makes of the body. */
  method ReadHeader(input: array<byte>, from: nat, nullCipher: bool, c: ReadCipher)
    returns (framed: Option<Framed>, sequence: array<byte>)
    requires from <= input.Length
    ensures framed == Frame(nullCipher, c, input[from..]) && fresh(sequence) && sequence.Length == 8
    ensures framed.Some? ==>
              BigEndian(sequence[..]) == ReplayWindow.SequenceU64(framed.value.rec.epoch, framed.value.rec.seqNum)
  {
    ghost var bytes := input[from..];
    var left := input.Length - from;
    if left < HandshakeSend.RECORD_HEADER_LENGTH {
      sequence := new byte[8];
      return None, sequence;
    }
    var version := ReadU16(input[from + 1], input[from + 2]);
    sequence := CopyEight(input, from + 3);
    ArraySlice(input, from, 3, 11);
    hide SixBytes;
    var len := ReadU16(input[from + 11], input[from + 12]);
    if len > left - HandshakeSend.RECORD_HEADER_LENGTH || len > MAX_ENCRYPTED_LENGTH {
      return None, sequence;
    }
    if !VersionOk(nullCipher, c, version) {
      return None, sequence;
    }
    assert sequence[..][0] == bytes[3] && sequence[..][1] == bytes[4];
    assert sequence[2..] == sequence[..][2..] == bytes[3..11][2..] == bytes[5..11];
    var epoch, number := ReadU16(sequence[0], sequence[1]), SixBytes(sequence[2..]);
    var body := input[from + 13..from + 13 + len];
    var plain := c.open(input[from], version, epoch, number, body);
    ArraySlice(input, from, 13, 13 + len);
    framed := Some(Framed(Record(epoch, number, TypeOf(input[from]), if plain.Some? then plain.value else []),
                          plain.Some?, HandshakeSend.RECORD_HEADER_LENGTH + len));
    NumberOfSequence(sequence[..]);
  }

  lemma ArraySlice(a: array<byte>, from: nat, i: nat, j: nat)
    requires i <= j && from + j <= a.Length
    ensures a[from..][i..j] == a[from + i..from + j]
  {
  }

  method CopyEight(input: array<byte>, at: nat) returns (copy: array<byte>)
    requires at + 8 <= input.Length
    ensures fresh(copy) && copy.Length == 8 && copy[..] == input[at..at + 8]
  {
    copy := new byte[8];
    for i := 0 to 8
      invariant copy[..i] == input[at..at + i]
    {
      copy[i] := input[at + i];
      assert copy[..i + 1] == copy[..i] + [copy[i]];
    }
    assert copy[..] == copy[..8];
  }

  /** Eight bytes are an epoch and a number. */
  lemma NumberOfSequence(bytes: seq<byte>)
    requires |bytes| == 8
    ensures BigEndian(bytes) == ReplayWindow.SequenceU64(ReadU16(bytes[0], bytes[1]), SixBytes(bytes[2..]))
  {
    Pow2Of48();
    BigEndianJoin(bytes[..2], bytes[2..]);
    assert bytes == bytes[..2] + bytes[2..];
    BigEndianOfTwo(bytes[..2]);
  }

  class DtlsReceiver {
    const ring: array<HmFragment?>
    var readSeq: uint16
    var hasMessage: bool
    var hasChangeCipherSpec: bool
    var epoch: uint16
    var nullCipher: bool
    var closed: bool
    var warnings: byte
    var flightSent: bool
    var hasReply: bool
    const bitmap: ReplayWindow.Bitmap
    /** What the ring holds, slot by slot. */
    ghost var slots: seq<Option<Slot>>
    ghost var repr: set<object>

    ghost predicate Valid()
      reads this, repr
    {
      && this in repr && ring in repr && bitmap in repr
      && ring.Length == MAX_FLIGHT == |slots| && bitmap.Valid()
      && (forall i :: 0 <= i < MAX_FLIGHT ==> SlotValid(i))
      && (forall i, j :: 0 <= i < j < MAX_FLIGHT && ring[i] != null && ring[j] != null ==> ring[i].repr !! ring[j].repr)
    }

    ghost predicate SlotValid(i: nat)
      requires i < ring.Length && i < |slots| && this in repr && ring in repr
      reads this, repr
    {
      if ring[i] == null then slots[i].None?
      else
        && slots[i].Some? && ring[i] in repr && ring[i].repr <= repr
        && this !in ring[i].repr && ring !in ring[i].repr && bitmap !in ring[i].repr
        && Shows(ring[i], slots[i].value)
    }

    ghost function View(): (r: Receiver)
      requires Valid()
      reads this, repr
    {
      Receiver(slots, readSeq, hasMessage, hasChangeCipherSpec, epoch, nullCipher,
               ReplayWindow.Window(bitmap.mask, bitmap.maxSeqNum), closed, warnings, flightSent, hasReply)
    }

    constructor ()
      ensures Valid() && fresh(repr) && View() == INITIAL
    {
      var nulls := new HmFragment?[MAX_FLIGHT](_ => null);
      var window := new ReplayWindow.Bitmap();
      ring, bitmap := nulls, window;
      readSeq, hasMessage, hasChangeCipherSpec, epoch, nullCipher := 0, false, false, 0, true;
      closed, warnings, flightSent, hasReply := false, 0, false, false;
      repr := {this, nulls, window};
      this.slots := INITIAL.ring;
    }

    /** The slot a header selects, as it is or empty for a message not seen before. */
    ghost function SlotOf(f: Fragment): Slot
      requires Valid()
      reads this, repr
    {
      var idx := f.seqNo % MAX_FLIGHT;
      if slots[idx].Some? then slots[idx].value else Slot(f.typ, f.seqNo, f.msgLen, map[])
    }

    /** The message object for a header: the one in its slot, if compatible, or a new one. */
    method GetIncomingMessage(f: Fragment) returns (frag: HmFragment?, alert: Alert)
      requires Valid() && RingInv(View())
      modifies this`slots, this`repr, ring
      ensures Valid() && fresh(repr - old(repr))
      ensures var idx, s := f.seqNo % MAX_FLIGHT, old(SlotOf(f));
              if f.seqNo < readSeq || f.seqNo - readSeq >= MAX_FLIGHT then
                frag == null && alert == InternalError && slots == old(slots)
              else if s.typ != f.typ || s.msgLen != f.msgLen then
                frag == null && alert == IllegalParameter && slots == old(slots)
              else
                frag != null && frag == ring[idx] && slots == old(slots)[idx := Some(s)]
    {
      hide RingInv, SlotInv;
      alert := InternalError;
      if f.seqNo < readSeq || f.seqNo - readSeq >= MAX_FLIGHT {
        return null, InternalError;
      }
      var idx := f.seqNo % MAX_FLIGHT;
      frag := ring[idx];
      assert SlotValid(idx);
      if frag != null {
        SameNumber(View(), f);
        assert frag.seqNo == f.seqNo;
        if frag.typ != f.typ || frag.msgLen != f.msgLen {
          return null, IllegalParameter;
        }
        assert slots[idx := Some(slots[idx].value)] == slots;
        return;
      }
      frag := NewMessage(f, idx);
    }

    method NewMessage(f: Fragment, idx: nat) returns (frag: HmFragment)
      requires Valid() && idx < MAX_FLIGHT && ring[idx] == null
      modifies this`slots, this`repr, ring
      ensures Valid() && fresh(repr - old(repr)) && frag == ring[idx]
      ensures slots == old(slots)[idx := Some(Slot(f.typ, f.seqNo, f.msgLen, map[]))]
    {
      frag := new HmFragment(f.typ, f.seqNo, f.msgLen);
      ring[idx] := frag;
      repr := repr + frag.repr;
      slots := slots[idx := Some(Slot(f.typ, f.seqNo, f.msgLen, map[]))];
      forall i | 0 <= i < MAX_FLIGHT ensures SlotValid(i) {
        assert old(SlotValid(i));
      }
    }

    /** The loop body of the record handler: checks one fragment and stores what it brings. */
    method OpenOne(f: Fragment, maxLen: nat) returns (status: Status)
      requires Valid() && RingInv(View())
      modifies repr
      ensures Valid() && fresh(repr - old(repr))
      ensures (View(), status) == OpenFragment(old(View()), f, maxLen)
    {
      hide RingInv, SlotInv, Fill;
      if f.off > f.msgLen || f.off + |f.body| > f.msgLen || f.msgLen > maxLen {
        return Error(IllegalParameter);
      }
      if epoch == 1 && f.seqNo != readSeq {
        return Error(UnexpectedMessage);
      }
      if f.seqNo < readSeq || f.seqNo > readSeq + MAX_FLIGHT {
        return Success;
      }
      ghost var idx := f.seqNo % MAX_FLIGHT;
      ghost var before, s := slots, SlotOf(f);
      var frag, alert := GetIncomingMessage(f);
      if frag == null {
        return Error(alert);
      }
      assert SlotValid(idx);
      assert IsComplete(s) <==> frag.reassembly == null;
      if frag.reassembly != null {
        Store(frag, idx, f.off, f.body);
        assert slots == before[idx := Some(Fill(s, f.off, f.body))];
      }
      status := Success;
    }

    /** Copies the bytes of a fragment into a message that is not complete yet. */
    method Store(frag: HmFragment, ghost idx: nat, off: nat, body: seq<byte>)
      requires Valid() && idx < MAX_FLIGHT && ring[idx] == frag && slots[idx].Some?
      requires frag.reassembly != null && off + |body| <= frag.msgLen
      modifies this`slots, frag.repr
      ensures Valid() && slots == old(slots)[idx := Some(Fill(old(slots)[idx].value, off, body))]
      ensures bitmap.mask == old(bitmap.mask) && bitmap.maxSeqNum == old(bitmap.maxSeqNum)
    {
      assert SlotValid(idx);
      FillInPlace(frag, slots[idx].value, off, body);
      slots := slots[idx := Some(Fill(slots[idx].value, off, body))];
      forall i | 0 <= i < MAX_FLIGHT ensures SlotValid(i) {
        assert old(SlotValid(i));
      }
    }

    /** Processes every fragment of a handshake record. */
    method OpenAll(record: seq<byte>, maxLen: nat) returns (status: Status)
      requires Valid() && RingInv(View())
      modifies repr
      ensures Valid() && fresh(repr - old(repr))
      ensures (View(), status) == OpenFragments(old(View()), record, maxLen)
    {
      var rest := record;
      status := Success;
      while rest != []
        invariant Valid() && fresh(repr - old(repr)) && RingInv(View())
        invariant OpenFragments(View(), rest, maxLen) == OpenFragments(old(View()), record, maxLen)
        decreases |rest|
      {
        var parsed := Parse(rest);
        if parsed.None? {
          return Error(DecodeError);
        }
        var (f, tail) := parsed.value;
        ghost var before := View();
        FragmentKeepsRing(before, f, maxLen);
        status := OpenOne(f, maxLen);
        if !status.Success? {
          return;
        }
        rest := tail;
      }
      status := Success;
    }

    method ProcessAlert(plain: seq<byte>) returns (status: Status)
      requires Valid()
      modifies this`closed, this`warnings
      ensures Valid() && (View(), status) == HandshakeReceive.ProcessAlert(old(View()), plain)
    {
      if |plain| != 2 {
        return Error(DecodeError);
      }
      var level, description := plain[0], plain[1];
      if level == 1 {
        if description == 0 {
          closed := true;
          assert forall i :: 0 <= i < MAX_FLIGHT && old(SlotValid(i)) ==> SlotValid(i);
          return CloseNotify;
        }
        warnings := (warnings + 1) % 0x100;
        assert forall i :: 0 <= i < MAX_FLIGHT && old(SlotValid(i)) ==> SlotValid(i);
        return if warnings > MAX_WARNING_ALERTS then Error(UnexpectedMessage) else Discard;
      }
      status := Error(if level == 2 then NoAlert else IllegalParameter);
    }

    /** Epoch and replay checks, then decryption and the length check. `sequence` is the record's eight-byte number. */
    method CheckRecord(rec: Record, sequence: array<byte>, opens: bool) returns (status: Status)
      requires Valid() && sequence.Length == 8 && sequence !in repr
      requires BigEndian(sequence[..]) == ReplayWindow.SequenceU64(rec.epoch, rec.seqNum)
      modifies bitmap, this`closed, this`warnings
      ensures Valid() && (View(), status) == HandshakeReceive.OpenRecord(old(View()), rec, opens)
    {
      if closed {
        return CloseNotify;
      }
      if rec.epoch != epoch {
        return Discard;
      }
      var stale := bitmap.Discards(sequence);
      if stale || !opens {
        return Discard;
      }
      if |rec.plain| > MAX_PLAIN_LENGTH {
        return Error(RecordOverflow);
      }
      bitmap.Accept(sequence);
      assert forall i :: 0 <= i < MAX_FLIGHT && old(SlotValid(i)) ==> SlotValid(i);
      if rec.ctype == AlertMessage {
        status := ProcessAlert(rec.plain);
        return;
      }
      warnings := 0;
      status := Success;
      assert forall i :: 0 <= i < MAX_FLIGHT && old(SlotValid(i)) ==> SlotValid(i);
    }

    /** Reads the record at the front of the input: an incomplete or malformed header or a wrong version drops all of
        the input, anything else uses up the record. */
    method OpenRecord(input: array<byte>, from: nat, c: ReadCipher) returns (opening: Opening)
      requires Valid() && from <= input.Length && input !in repr
      modifies bitmap, this`closed, this`warnings
      ensures Valid() && (View(), opening) == OpenRecordBytes(old(View()), c, old(input[from..]))
    {
      hide HandshakeReceive.OpenRecord, Frame;
      ghost var bytes := input[from..];
      var left := input.Length - from;
      if closed {
        return Opening(Some(CloseNotify), NO_RECORD, 0);
      }
      if left == 0 {
        return Opening(None, NO_RECORD, 0);
      }
      var framed, sequence := ReadHeader(input, from, nullCipher, c);
      if framed.None? {
        return Opening(Some(Discard), NO_RECORD, left);
      }
      var status := CheckRecord(framed.value.rec, sequence, framed.value.opens);
      opening := Opening(Some(status), framed.value.rec, framed.value.len);
    }

    /** A handshake or ChangeCipherSpec record at the front of the input. */
    method OpenHandshake(input: array<byte>, from: nat, c: ReadCipher, maxLen: nat)
      returns (status: Option<Status>, consumed: nat)
      requires Valid() && RingInv(View()) && from <= input.Length && input !in repr
      modifies repr
      ensures Valid() && fresh(repr - old(repr))
      ensures (View(), status, consumed) == OpenHandshakeBytes(old(View()), c, old(input[from..]), maxLen)
    {
      hide HandshakeReceive.OpenRecord, Frame, OpenFragments;
      ghost var before := View();
      var opening := OpenRecord(input, from, c);
      if opening.status.None? || !opening.status.value.Success? {
        return opening.status, opening.consumed;
      }
      ghost var f := Frame(before.nullCipher, c, input[from..]).value;
      OpenRecordFrame(before, f.rec, f.opens);
      var answer := Dispatch(opening.rec, maxLen);
      status, consumed := Some(answer), opening.consumed;
    }

    /** The ChangeCipherSpec the handshake waits for, if it has come or the next record brings it. */
    method OpenChangeCipherSpec(input: array<byte>, from: nat, c: ReadCipher, maxLen: nat)
      returns (status: Option<Status>, consumed: nat)
      requires Valid() && RingInv(View()) && from <= input.Length && input !in repr
      modifies repr
      ensures Valid() && fresh(repr - old(repr))
      ensures (View(), status, consumed) == OpenChangeCipherSpecBytes(old(View()), c, old(input[from..]), maxLen)
    {
      hide OpenHandshakeBytes;
      status, consumed := Some(Success), 0;
      if !hasChangeCipherSpec {
        status, consumed := OpenHandshake(input, from, c, maxLen);
        if status != Some(Success) {
          return;
        }
      }
      var found := TakeChangeCipherSpec();
      status := Some(if found then Success else Discard);
    }

    method TakeChangeCipherSpec() returns (found: bool)
      requires Valid()
      modifies this`hasChangeCipherSpec
      ensures Valid() && (View(), found) == HandshakeReceive.TakeChangeCipherSpec(old(View()))
    {
      found := hasChangeCipherSpec;
      hasChangeCipherSpec := false;
      assert forall i :: 0 <= i < MAX_FLIGHT && old(SlotValid(i)) ==> SlotValid(i);
    }

    /** What an accepted record is for. */
    method Dispatch(rec: Record, maxLen: nat) returns (status: Status)
      requires Valid() && RingInv(View())
      modifies repr
      ensures Valid() && fresh(repr - old(repr))
      ensures (View(), status) == HandshakeReceive.Dispatch(old(View()), rec, maxLen)
    {
      match rec.ctype
      case ApplicationData =>
        status := if nullCipher then Error(UnexpectedMessage) else Discard;
      case ChangeCipherSpec =>
        if !nullCipher {
          return Error(UnexpectedMessage);
        }
        if rec.plain != [1] {
          return Error(IllegalParameter);
        }
        hasChangeCipherSpec, status := true, Success;
        assert forall i :: 0 <= i < MAX_FLIGHT && old(SlotValid(i)) ==> SlotValid(i);
      case Handshake =>
        status := OpenAll(rec.plain, maxLen);
      case _ =>
        status := Error(UnexpectedMessage);
    }

    method GetMessage() returns (msg: Option<seq<byte>>)
      requires Valid() && RingInv(View())
      modifies this`hasMessage
      ensures Valid() && (View(), msg) == HandshakeReceive.GetMessage(old(View()))
    {
      var idx := readSeq % MAX_FLIGHT;
      var frag := ring[idx];
      assert SlotValid(idx);
      if frag == null || frag.reassembly != null {
        return None;
      }
      ghost var s := slots[idx].value;
      assert frag.data[..] == Assembled(s) by {
        assert frag.Body() == seq(s.msgLen, k requires 0 <= k < s.msgLen => s.got[k]);
        assert frag.data[..] == frag.data[..HEADER_LENGTH] + frag.Body();
      }
      msg := Some(frag.data[..]);
      hasMessage := true;
      assert forall i :: 0 <= i < MAX_FLIGHT && old(SlotValid(i)) ==> SlotValid(i);
    }

    method NextMessage()
      requires Valid() && hasMessage
      modifies this, ring
      ensures Valid() && repr == old(repr) && View() == HandshakeReceive.NextMessage(old(View()))
    {
      var index := readSeq % MAX_FLIGHT;
      ring[index] := null;
      slots := slots[index := None];
      readSeq := (readSeq + 1) % 0x1_0000;
      hasMessage := false;
      if flightSent {
        hasReply := true;
      }
      forall i | 0 <= i < MAX_FLIGHT ensures SlotValid(i) {
        assert old(SlotValid(i));
      }
    }

    method HasUnprocessedData() returns (b: bool)
      requires Valid()
      ensures b == HandshakeReceive.HasUnprocessedData(View())
    {
      if hasChangeCipherSpec {
        return true;
      }
      var current := readSeq % MAX_FLIGHT;
      for i := 0 to MAX_FLIGHT
        invariant forall j :: 0 <= j < i && View().ring[j].Some? ==> hasMessage && j == current
      {
        if hasMessage && i == current {
          continue;
        }
        assert SlotValid(i);
        if ring[i] != null {
          assert View().ring[i].Some?;
          return true;
        }
      }
      b := false;
    }

    method SetReadState() returns (ok: bool)
      requires Valid()
      modifies this, bitmap
      ensures Valid() && repr == old(repr) && (View(), ok) == HandshakeReceive.SetReadState(old(View()))
    {
      var leftover := HasUnprocessedData();
      if leftover {
        return false;
      }
      epoch := (epoch + 1) % 0x1_0000;
      bitmap.Reset();
      nullCipher := false;
      ok := true;
      forall i | 0 <= i < MAX_FLIGHT ensures SlotValid(i) {
        assert old(SlotValid(i));
      }
    }
  }
}
