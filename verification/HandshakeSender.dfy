/** The sender in place: the array of outgoing messages, its cursor, the write sequence numbers as bytes, and the packet
    buffer that fragments are assembled and sealed in. */
module HandshakeSender {
  import opened Bits
  import opened Bytes
  import opened HandshakeFragment
  import opened HandshakeReceive
  import opened HandshakeSend

  /** The record number in the last six of eight bytes. */
  ghost function NumberOf(number: array<byte>): uint48
    requires number.Length == 8
    reads number
  {
    BigEndianFits(number[2..]);
    Pow2Of48();
    BigEndian(number[2..])
  }

  /** The carry has reached the end of `front`: that is still to be incremented, and what is behind it is `done`. */
  ghost predicate Carries(before: seq<byte>, front: seq<byte>, done: seq<byte>) {
    Incremented(before) == (Incremented(front).0 + done, Incremented(front).1)
  }

  lemma CarryStep(before: seq<byte>, init: seq<byte>, last: byte, done: seq<byte>)
    requires Carries(before, init + [last], done)
    ensures last < 0xff ==> Incremented(before) == (init + [last + 1] + done, true)
    ensures last == 0xff ==> Carries(before, init, [0] + done)
  {
    hide Incremented;
    IncrementedOf(init, last);
    assert Incremented(init).0 + [0] + done == Incremented(init).0 + ([0] + done);
  }

  lemma IncrementedOf(init: seq<byte>, last: byte)
    ensures Incremented(init + [last]) ==
            if last < 0xff then (init + [last + 1], true) else (Incremented(init).0 + [0], Incremented(init).1)
  {
    assert (init + [last])[..|init|] == init;
  }

  lemma CarryEnds(before: seq<byte>, done: seq<byte>)
    ensures Carries(before, before, [])
    ensures Carries(before, [], done) ==> Incremented(before) == (done, false)
  {
    assert Incremented(before).0 + [] == Incremented(before).0 && [] + done == done;
  }

  lemma NextNumber(before: seq<byte>, after: seq<byte>, ok: bool)
    requires |before| == 6 && Incremented(before) == (after, ok)
    ensures BigEndian(after) == (BigEndian(before) + 1) % SEQ_LIMIT && (ok <==> BigEndian(after) != 0)
  {
    hide Incremented, BigEndian, Pow2;
    IncrementedIsNext(before);
    Pow2Of48();
  }

  /** Adds one to the last six bytes with carries, in place; false if the number has wrapped to 0. */
  method SequenceUpdate(number: array<byte>) returns (ok: bool)
    requires number.Length == 8
    modifies number
    ensures NumberOf(number) == (old(NumberOf(number)) + 1) % SEQ_LIMIT && (ok <==> NumberOf(number) != 0)
  {
    hide Incremented, Carries, BigEndian, Pow2;
    ghost var before, front, done: seq<byte> := number[2..], number[2..], [];
    CarryEnds(before, []);
    var i := 7;
    while i >= 2
      invariant 1 <= i <= 7 && |front| == i - 1 && |done| == 7 - i && Carries(before, front, done)
      invariant forall j :: 2 <= j <= i ==> number[j] == front[j - 2]
      invariant forall j :: i < j < 8 ==> number[j] == done[j - i - 1]
    {
      ghost var init := front[..i - 2];
      assert front == init + [number[i]];
      CarryStep(before, init, number[i], done);
      var b: int := number[i];
      number[i] := (b + 1) % 0x100;
      if number[i] != 0 {
        assert number[2..] == init + [number[i]] + done;
        NextNumber(before, number[2..], true);
        return true;
      }
      front, done := init, [0] + done;
      i := i - 1;
    }
    assert front == [] && number[2..] == done;
    CarryEnds(before, done);
    NextNumber(before, done, false);
    ok := false;
  }

  /** Copies `bytes` into the buffer. */
  method Put(packet: array<byte>, at: nat, bytes: seq<byte>)
    requires at + |bytes| <= packet.Length
    modifies packet
    ensures forall i :: 0 <= i < packet.Length ==>
              packet[i] == if at <= i < at + |bytes| then bytes[i - at] else old(packet[i])
  {
    for k := 0 to |bytes|
      invariant forall i :: 0 <= i < packet.Length ==>
                  packet[i] == if at <= i < at + k then bytes[i - at] else old(packet[i])
    {
      packet[at + k] := bytes[k];
    }
  }

  method ReadNumber(number: array<byte>) returns (n: uint48)
    requires number.Length == 8
    ensures n == NumberOf(number)
  {
    BigEndianFits(number[2..]);
    Pow2Of48();
    n := BigEndian(number[2..]);
  }

  /** The header but for the length: type, version, epoch and the last six bytes of the number. */
  method PutHeader(packet: array<byte>, out: nat, ctype: ContentType, version: uint16, epoch: uint16,
                   number: array<byte>)
    requires out + 11 <= packet.Length && number.Length == 8 && packet != number
    modifies packet
    ensures forall i :: 0 <= i < packet.Length && !(out <= i < out + 11) ==> packet[i] == old(packet[i])
    ensures packet[out..out + 11] == [TypeCode(ctype)] + U16(version) + U16(epoch) + ToBigEndian(NumberOf(number), 6)
  {
    ToBigEndianOf(number[2..]);
    packet[out] := TypeCode(ctype);
    Put(packet, out + 1, U16(version));
    Put(packet, out + 3, U16(epoch));
    Put(packet, out + 5, number[2..8]);
    assert number[2..8] == number[2..];
  }

  /** Writes a record with these parameters. The input must lie clear of the header, or in another array. */
  method SealWith(cipher: Aead, version: uint16, epoch: uint16, number: array<byte>,
                  packet: array<byte>, out: nat, maxOut: nat, input: array<byte>, from: nat, len: nat,
                  ctype: ContentType) returns (res: SealResult)
    requires number.Length == 8 && number != packet && number != input
    requires RECORD_HEADER_LENGTH <= maxOut <= packet.Length - out && from + len <= input.Length
    requires packet == input ==> from + len <= out || out + RECORD_HEADER_LENGTH <= from
    modifies packet, number
    ensures packet[..out] == old(packet[..out])
    ensures var plain, n := old(input[from..from + len]), old(NumberOf(number));
            var sealed, next := cipher.seal(n, ctype, plain), (n + 1) % SEQ_LIMIT;
            if sealed.None? || RECORD_HEADER_LENGTH + |sealed.value| > maxOut then
              res == SealFailed(AeadFailed) && NumberOf(number) == n
            else
              && NumberOf(number) == next
              && res == if next == 0 then SealFailed(SequenceWrapped)
                        else if |sealed.value| >= 0x1_0000 then SealFailed(RecordTooLong)
                        else Sealed(SealedRecord(Record(epoch, n, ctype, plain),
                                                 RecordBytes(ctype, version, epoch, n, sealed.value)))
    ensures res.Sealed? ==>
              res.value.Len() <= maxOut && packet[out..out + res.value.Len()] == res.value.wire
  {
    PutHeader(packet, out, ctype, version, epoch, number);
    ghost var header := packet[out..out + 11];
    var plain := input[from..from + len];
    assert plain == old(input[from..from + len]);
    var n := ReadNumber(number);
    var ciphertext := cipher.seal(n, ctype, plain);
    if ciphertext.None? || RECORD_HEADER_LENGTH + |ciphertext.value| > maxOut {
      return SealFailed(AeadFailed);
    }
    Put(packet, out + RECORD_HEADER_LENGTH, ciphertext.value);
    var ok := SequenceUpdate(number);
    if !ok {
      return SealFailed(SequenceWrapped);
    }
    if |ciphertext.value| >= 0x1_0000 {
      return SealFailed(RecordTooLong);
    }
    Put(packet, out + 11, U16(|ciphertext.value|));
    var wire := packet[out..out + RECORD_HEADER_LENGTH + |ciphertext.value|];
    assert wire == header + U16(|ciphertext.value|) + ciphertext.value;
    res := Sealed(SealedRecord(Record(epoch, n, ctype, plain), wire));
  }

  /** The bytes of one number become another's, and it starts from zeros. */
  method MoveNumber(number: array<byte>, to: array<byte>)
    requires number.Length == to.Length == 8 && number != to
    modifies number, to
    ensures NumberOf(to) == old(NumberOf(number)) && NumberOf(number) == 0
  {
    Put(to, 0, number[..]);
    assert to[..] == to[0..8] == old(number[..]);
    assert to[2..] == to[..][2..] == old(number[2..]);
    forall i | 0 <= i < 8 {
      number[i] := 0;
    }
    ZerosRead(number[2..]);
  }

  class DtlsSender {
    const outgoing: array<OutgoingMessage>
    var outgoingLen: nat
    var written: nat
    var offset: nat
    var complete: bool
    var hasReply: bool
    var writeSeq: uint16
    var epoch: uint16
    var aead: Aead
    var lastAead: Aead
    const writeSequence: array<byte>
    const lastWriteSequence: array<byte>
    var writeShutdown: bool

    ghost predicate Valid()
      reads this
    {
      && outgoing.Length == MAX_FLIGHT && outgoingLen <= MAX_FLIGHT
      && writeSequence.Length == lastWriteSequence.Length == 8 && writeSequence != lastWriteSequence
      && ValidAead(aead) && ValidAead(lastAead)
    }

    ghost function View(): Sender
      requires Valid()
      reads this, outgoing, writeSequence, lastWriteSequence
    {
      Sender(outgoing[..outgoingLen], written, offset, complete, hasReply, writeSeq, epoch, aead, lastAead,
             NumberOf(writeSequence), NumberOf(lastWriteSequence))
    }

    constructor (nullCipher: Aead)
      requires ValidAead(nullCipher)
      ensures Valid() && fresh(outgoing) && fresh(writeSequence) && fresh(lastWriteSequence) && !writeShutdown
      ensures View() == Sender([], 0, 0, false, false, 0, 0, nullCipher, nullCipher, 0, 0)
    {
      outgoing := new OutgoingMessage[MAX_FLIGHT](_ => OutgoingMessage([], 0, false));
      outgoingLen, written, offset, complete, hasReply := 0, 0, 0, false, false;
      writeSeq, epoch, writeShutdown := 0, 0, false;
      aead, lastAead := nullCipher, nullCipher;
      writeSequence, lastWriteSequence := new byte[8](_ => 0), new byte[8](_ => 0);
      new;
      ZerosRead(writeSequence[2..]);
      ZerosRead(lastWriteSequence[2..]);
    }

    /** Frees the messages of the flight. */
    method ClearOutgoing()
      requires Valid()
      modifies this`outgoingLen, this`written, this`offset, this`complete, this`hasReply, outgoing
      ensures Valid() && View() == HandshakeSend.ClearOutgoing(old(View()))
      ensures forall i :: 0 <= i < old(outgoingLen) ==> outgoing[i].data == []
    {
      for i := 0 to outgoingLen
        invariant forall j :: 0 <= j < i ==> outgoing[j].data == []
      {
        outgoing[i] := outgoing[i].(data := []);
      }
      outgoingLen, written, offset, complete, hasReply := 0, 0, 0, false, false;
    }

    method AddOutgoing(isCcs: bool, data: seq<byte>) returns (ok: bool)
      requires Valid()
      modifies this, outgoing
      ensures Valid() && (View(), ok) == HandshakeSend.AddOutgoing(old(View()), isCcs, data)
      ensures writeShutdown == old(writeShutdown)
    {
      if complete {
        // A new flight means the peer's flight has arrived.
        ClearOutgoing();
      }
      if outgoingLen >= MAX_FLIGHT || |data| > 0xffff_ffff {
        return false;
      }
      if !isCcs {
        writeSeq := (writeSeq + 1) % 0x1_0000;
      }
      ghost var before := outgoing[..outgoingLen];
      outgoing[outgoingLen] := OutgoingMessage(data, epoch, isCcs);
      outgoingLen := outgoingLen + 1;
      assert outgoing[..outgoingLen] == before + [OutgoingMessage(data, epoch, isCcs)];
      ok := true;
    }

    /** The bytes of the old write sequence become those of the previous epoch, and the new one starts from zeros. */
    method SetWriteState(newAead: Aead)
      requires Valid() && ValidAead(newAead)
      modifies this`epoch, this`aead, this`lastAead, writeSequence, lastWriteSequence
      ensures Valid() && View() == HandshakeSend.SetWriteState(old(View()), newAead)
    {
      hide ValidAead, NumberOf;
      epoch := (epoch + 1) % 0x1_0000;
      MoveNumber(writeSequence, lastWriteSequence);
      lastAead := aead;
      aead := newAead;
    }

    /** Whether the input overlaps the output without being where the ciphertext of an in-place seal goes. */
    predicate Misplaced(packet: array<byte>, out: nat, maxOut: nat, input: array<byte>, from: nat, len: nat,
                        prefix: nat)
    {
      && packet == input && from < out + maxOut && out < from + len
      && (maxOut < prefix || out + prefix != from)
    }

    /** Seals `len` bytes of `input` from `from` on into the packet at `out`, in place where `input` is the packet. */
    method SealRecord(packet: array<byte>, out: nat, maxOut: nat, input: array<byte>, from: nat, len: nat,
                      previous: bool, ctype: ContentType) returns (res: SealResult)
      requires Valid() && (previous ==> epoch >= 1)
      requires out + maxOut <= packet.Length && from + len <= input.Length
      requires packet != writeSequence && packet != lastWriteSequence
      requires input != writeSequence && input != lastWriteSequence
      modifies packet, writeSequence, lastWriteSequence
      ensures Valid() && packet[..out] == old(packet[..out])
      ensures var plain := old(input[from..from + len]);
              var s := old(View());
              var sealed := WriteAead(s, previous).seal(WriteNumber(s, previous), ctype, plain);
              if Misplaced(packet, out, maxOut, input, from, len, SealPrefixLen(s, previous)) then
                (View(), res) == (s, SealFailed(OutputAliasesInput))
              else if maxOut < RECORD_HEADER_LENGTH then
                (View(), res) == (s, SealFailed(BufferTooSmall))
              else if sealed.Some? && RECORD_HEADER_LENGTH + |sealed.value| > maxOut then
                (View(), res) == (s, SealFailed(AeadFailed))
              else
                (View(), res) == HandshakeSend.SealRecord(s, previous, ctype, plain)
      ensures res.Sealed? ==>
                res.value.Len() <= maxOut && packet[out..out + res.value.Len()] == res.value.wire
    {
      hide ValidAead, RecordBytes, HandshakeFragment.Serialize, NumberOf, HandshakeSend.SealRecord;
      var prefix := RECORD_HEADER_LENGTH + (if previous then lastAead else aead).explicitNonceLen;
      if Misplaced(packet, out, maxOut, input, from, len, prefix) {
        return SealFailed(OutputAliasesInput);
      }
      if maxOut < RECORD_HEADER_LENGTH {
        return SealFailed(BufferTooSmall);
      }
      if previous {
        res := SealPrevious(packet, out, maxOut, input, from, len, ctype);
      } else {
        res := SealCurrent(packet, out, maxOut, input, from, len, ctype);
      }
    }

    /** Seals under the current epoch. */
    method SealCurrent(packet: array<byte>, out: nat, maxOut: nat, input: array<byte>, from: nat, len: nat,
                       ctype: ContentType) returns (res: SealResult)
      requires Valid() && RECORD_HEADER_LENGTH <= maxOut <= packet.Length - out && from + len <= input.Length
      requires packet != writeSequence && packet != lastWriteSequence
      requires input != writeSequence && input != lastWriteSequence
      requires packet == input ==> from + len <= out || out + RECORD_HEADER_LENGTH <= from
      modifies packet, writeSequence
      ensures Valid() && packet[..out] == old(packet[..out])
      ensures var plain, s := old(input[from..from + len]), old(View());
              var sealed := s.aead.seal(s.seqNum, ctype, plain);
              (View(), res) == if sealed.Some? && RECORD_HEADER_LENGTH + |sealed.value| > maxOut
                               then (s, SealFailed(AeadFailed)) else HandshakeSend.SealRecord(s, false, ctype, plain)
      ensures res.Sealed? ==>
                res.value.Len() <= maxOut && packet[out..out + res.value.Len()] == res.value.wire
    {
      hide ValidAead, RecordBytes, NumberOf;
      res := SealWith(aead, aead.recordVersion, epoch, writeSequence, packet, out, maxOut, input, from, len, ctype);
    }

    /** Seals under the epoch before, with the version of the current cipher. */
    method SealPrevious(packet: array<byte>, out: nat, maxOut: nat, input: array<byte>, from: nat, len: nat,
                        ctype: ContentType) returns (res: SealResult)
      requires Valid() && RECORD_HEADER_LENGTH <= maxOut <= packet.Length - out && from + len <= input.Length
      requires epoch >= 1 && packet != writeSequence && packet != lastWriteSequence
      requires input != writeSequence && input != lastWriteSequence
      requires packet == input ==> from + len <= out || out + RECORD_HEADER_LENGTH <= from
      modifies packet, lastWriteSequence
      ensures Valid() && packet[..out] == old(packet[..out])
      ensures var plain, s := old(input[from..from + len]), old(View());
              var sealed := s.lastAead.seal(s.lastSeqNum, ctype, plain);
              (View(), res) == if sealed.Some? && RECORD_HEADER_LENGTH + |sealed.value| > maxOut
                               then (s, SealFailed(AeadFailed)) else HandshakeSend.SealRecord(s, true, ctype, plain)
      ensures res.Sealed? ==>
                res.value.Len() <= maxOut && packet[out..out + res.value.Len()] == res.value.wire
    {
      hide ValidAead, RecordBytes, NumberOf;
      res := SealWith(lastAead, aead.recordVersion, epoch - 1, lastWriteSequence, packet, out, maxOut, input, from, len,
                      ctype);
    }

    /** Seals the next piece of a message and moves the cursor past it. */
    method SealPiece(packet: array<byte>, out: nat, maxOut: nat, previous: bool, f: Fragment, todo: nat)
      returns (progress: Progress)
      requires Valid() && (previous ==> epoch >= 1) && out + maxOut <= packet.Length
      requires packet != writeSequence && packet != lastWriteSequence
      requires offset + todo <= |f.body| < 0x100_0000
      requires HEADER_LENGTH + todo + MaxSealOverhead(View(), previous) <= maxOut
      modifies this`offset, packet, writeSequence, lastWriteSequence
      ensures Valid() && packet[..out] == old(packet[..out])
      ensures (View(), progress) == HandshakeSend.SealPiece(old(View()), previous, f, todo)
      ensures InPacket(packet, out, maxOut, progress)
    {
      hide Serialize, HandshakeSend.SealRecord, ValidAead, NumberOf;
      var res := SealCut(packet, out, maxOut, previous, f, todo);
      if res.SealFailed? {
        return Stuck(res.why);
      }
      if todo == |f.body| - offset {
        offset := 0;
        return Whole(res.value);
      }
      offset := offset + todo;
      progress := Partial(res.value);
    }

    /** Assembles the fragment behind the prefix and seals it in place. */
    method SealCut(packet: array<byte>, out: nat, maxOut: nat, previous: bool, f: Fragment, todo: nat)
      returns (res: SealResult)
      requires Valid() && (previous ==> epoch >= 1) && out + maxOut <= packet.Length
      requires packet != writeSequence && packet != lastWriteSequence
      requires offset + todo <= |f.body| < 0x100_0000
      requires HEADER_LENGTH + todo + MaxSealOverhead(View(), previous) <= maxOut
      modifies packet, writeSequence, lastWriteSequence
      ensures Valid() && packet[..out] == old(packet[..out])
      ensures (View(), res) ==
              HandshakeSend.SealRecord(old(View()), previous, Handshake, Serialize(Cut(f, offset, todo)))
      ensures res.Sealed? ==> InPacket(packet, out, maxOut, Whole(res.value))
    {
      hide Serialize, Header, HandshakeSend.SealRecord, ValidAead, NumberOf;
      ghost var before := View();
      ghost var plain := Serialize(Cut(f, offset, todo));
      var cipher := if previous then lastAead else aead;
      var prefix := RECORD_HEADER_LENGTH + cipher.explicitNonceLen;
      SealFits(before, previous, Handshake, plain, maxOut);
      PutFragment(packet, out + prefix, f, offset, todo);
      assert View() == before;
      res := SealRecord(packet, out, maxOut, packet, out + prefix, HEADER_LENGTH + todo, previous, Handshake);
    }

    method SealCcs(packet: array<byte>, out: nat, maxOut: nat, previous: bool) returns (res: SealResult)
      requires Valid() && (previous ==> epoch >= 1) && out + maxOut <= packet.Length
      requires packet != writeSequence && packet != lastWriteSequence
      requires 1 + MaxSealOverhead(View(), previous) <= maxOut
      modifies packet, writeSequence, lastWriteSequence
      ensures Valid() && packet[..out] == old(packet[..out])
      ensures (View(), res) == HandshakeSend.SealRecord(old(View()), previous, ChangeCipherSpec, [1])
      ensures res.Sealed? ==> InPacket(packet, out, maxOut, Whole(res.value))
    {
      hide HandshakeSend.SealRecord, ValidAead, NumberOf;
      ghost var before := View();
      var ccs := new byte[1](_ => 1);
      assert ccs[0..1] == [1];
      SealFits(before, previous, ChangeCipherSpec, [1], maxOut);
      res := SealRecord(packet, out, maxOut, ccs, 0, 1, previous, ChangeCipherSpec);
    }

    /** Seals as much of the next message as fits. */
    method SealNextMessage(packet: array<byte>, out: nat, maxOut: nat) returns (progress: Progress)
      requires Valid() && written < outgoingLen && out + maxOut <= packet.Length
      requires packet != writeSequence && packet != lastWriteSequence
      modifies this`offset, packet, writeSequence, lastWriteSequence
      ensures Valid() && packet[..out] == old(packet[..out])
      ensures (View(), progress) == HandshakeSend.SealNextMessage(old(View()), maxOut)
      ensures InPacket(packet, out, maxOut, progress)
    {
      hide Parse, HandshakeSend.SealRecord, HandshakeSend.SealPiece, ValidAead;
      var msg := outgoing[written];
      var previous := false;
      if epoch >= 1 && msg.epoch == epoch - 1 {
        previous := true;
      } else if msg.epoch != epoch {
        return Stuck(OldEpoch);
      }
      var cipher := if previous then lastAead else aead;
      var overhead := RECORD_HEADER_LENGTH + cipher.maxOverhead;
      var prefix := RECORD_HEADER_LENGTH + cipher.explicitNonceLen;
      if msg.isCcs {
        if maxOut < 1 + overhead {
          return NoProgress;
        }
        var res := SealCcs(packet, out, maxOut, previous);
        return if res.Sealed? then Whole(res.value) else Stuck(res.why);
      }
      var stored := Stored(msg);
      if stored.None? || offset > |stored.value.body| {
        return Stuck(BadMessage);
      }
      var f := stored.value;
      if maxOut < HEADER_LENGTH + 1 + overhead || maxOut < prefix {
        return NoProgress;
      }
      var todo := |f.body| - offset;
      if todo > maxOut - HEADER_LENGTH - overhead {
        todo := maxOut - HEADER_LENGTH - overhead;
      }
      if HEADER_LENGTH + todo > maxOut - prefix {
        return Stuck(BadMessage);
      }
      progress := SealPiece(packet, out, maxOut, previous, f, todo);
    }

    /** Fills the packet with messages until it is full or the flight is done. */
    method SealNextPacket(packet: array<byte>, maxOut: nat)
      returns (status: PacketStatus, packetLen: nat, ghost xs: seq<SealedRecord>)
      requires Valid() && written < outgoingLen && maxOut <= packet.Length
      requires packet != writeSequence && packet != lastWriteSequence
      modifies this`written, this`offset, packet, writeSequence, lastWriteSequence
      ensures Valid() && (View(), status, xs) == NextPacket(old(View()), maxOut)
      ensures packetLen <= maxOut && packet[..packetLen] == Wire(xs)
    {
      hide HandshakeSend.SealNextMessage, SealPacket, ValidAead, Wire, Goes;
      var madeProgress := false;
      var out, left: nat := 0, maxOut;
      xs := [];
      ghost var before := View();
      GoesFromStart(before, maxOut);
      while written < outgoingLen
        invariant Valid() && 0 <= out && out + left == maxOut && packet[..out] == Wire(xs)
        invariant outgoingLen == old(outgoingLen) && Goes(before, maxOut, View(), left, madeProgress, xs)
        decreases outgoingLen - written
      {
        GoesOn(before, maxOut, View(), left, madeProgress, xs);
        SealNextFrame(View(), left);
        var progress := SealNextMessage(packet, out, left);
        if progress.Stuck? {
          return PacketFailed(progress.why), out, xs;
        }
        if progress.NoProgress? {
          break;
        }
        var x := if progress.Partial? then progress.part else progress.last;
        Appended(packet, out, xs, x);
        xs := xs + [x];
        out := out + x.Len();
        left := left - x.Len();
        madeProgress := true;
        if progress.Partial? {
          return PacketReady, out, xs;
        }
        written := written + 1;
      }
      if written >= outgoingLen {
        GoesToEnd(before, maxOut, View(), left, madeProgress, xs);
      }
      status := if madeProgress then PacketReady else PacketFailed(MtuTooSmall);
      packetLen := out;
    }

    /** Seals the next packet for a write with this result; one that is not taken will be cut again by the next pass. */
    method SealForWrite(packet: array<byte>, mtu: nat, result: int)
      returns (status: PacketStatus, packetLen: nat, ghost xs: seq<SealedRecord>)
      requires Valid() && written < outgoingLen && mtu <= packet.Length
      requires packet != writeSequence && packet != lastWriteSequence
      modifies this`written, this`offset, packet, writeSequence, lastWriteSequence
      ensures Valid() && packetLen <= mtu && packet[..packetLen] == Wire(xs)
      ensures var (s', status', xs') := NextPacket(old(View()), mtu);
              && status == status' && xs == xs'
              && View() == if status.PacketFailed? || result > 0 then s'
                           else s'.(written := old(written), offset := old(offset))
    {
      hide NextPacket, ValidAead, Wire;
      var oldWritten, oldOffset := written, offset;
      status, packetLen, xs := SealNextPacket(packet, mtu);
      if status.PacketReady? && result <= 0 {
        written, offset := oldWritten, oldOffset;
      }
    }

    /** Writes the flight from the cursor on. `bio` scripts what the transport answers to each write and to the flush;
        it blocks when the script runs out. `datagrams` are the bytes it took. */
    method SendFlight(mtu: nat, bio: seq<int>)
      returns (ret: int, datagrams: seq<seq<byte>>, ghost packets: seq<seq<SealedRecord>>,
               ghost sealed: seq<SealedRecord>, ghost status: FlightStatus)
      requires Valid()
      modifies this`written, this`offset, writeSequence, lastWriteSequence
      ensures Valid()
      ensures writeShutdown ==> ret == -1 && datagrams == [] && packets == [] && View() == old(View())
      ensures !writeShutdown ==>
                && (View(), packets, sealed, status) == HandshakeSend.SendFlight(old(View()), mtu, bio)
                && datagrams == Wires(packets) && (ret > 0 <==> status.Sent?)
    {
      hide NextPacket, HandshakeSend.SendFlight, Wires, ValidAead;
      if writeShutdown {
        WiresOfNone();
        return -1, [], [], [], NotFlushed;
      }
      ret, datagrams, packets, sealed, status := WritePackets(mtu, bio);
    }

    /** The loop over the packets, and the flush at the end. */
    method WritePackets(mtu: nat, bio: seq<int>)
      returns (ret: int, datagrams: seq<seq<byte>>, ghost packets: seq<seq<SealedRecord>>,
               ghost sealed: seq<SealedRecord>, ghost status: FlightStatus)
      requires Valid()
      modifies this`written, this`offset, writeSequence, lastWriteSequence
      ensures Valid() && datagrams == Wires(packets) && (ret > 0 <==> status.Sent?)
      ensures (View(), packets, sealed, status) == HandshakeSend.SendFlight(old(View()), mtu, bio)
    {
      ret, datagrams, packets, sealed, status := -1, [], [], [], NotFlushed;
      hide NextPacket, HandshakeSend.SendFlight, Wires, Wire, ValidAead, Flies;
      var packet := new byte[mtu];
      var rest := bio;
      ghost var before := View();
      FliesFromStart(before, mtu, bio);
      while written < outgoingLen
        invariant Valid() && fresh(packet) && packet.Length == mtu && outgoingLen == old(outgoingLen)
        invariant Flies(before, mtu, bio, View(), rest, packets, sealed) && datagrams == Wires(packets)
        decreases |rest|
      {
        FliesOn(before, mtu, bio, View(), rest, packets, sealed);
        var result := if rest == [] then -1 else rest[0];
        var ready, packetLen, xs := SealForWrite(packet, mtu, result);
        sealed := sealed + xs;
        if ready.PacketFailed? {
          status := Failed(ready.why);
          return;
        }
        if result <= 0 {
          ret, status := result, Blocked;
          return;
        }
        WiresAppend(packets, xs);
        datagrams := datagrams + [packet[..packetLen]];
        packets := packets + [xs];
        rest := rest[1..];
      }
      FliesToEnd(before, mtu, bio, View(), rest, packets, sealed);
      ret := if rest == [] || rest[0] <= 0 then -1 else 1;
      status := if ret < 0 then NotFlushed else Sent;
    }

    /** A pass over the flight from state `s`: all of it that the transport takes, unless writing is shut down. */
    ghost predicate Passes(s: Sender, mtu: nat, bio: seq<int>, ret: int, packets: seq<seq<SealedRecord>>,
                           status: FlightStatus)
      requires Valid()
      reads this, outgoing, writeSequence, lastWriteSequence
    {
      var (s', packets', _, status') := HandshakeSend.SendFlight(s, mtu, bio);
      if writeShutdown then ret == -1 && packets == [] && View() == s
      else View() == s' && packets == packets' && status == status' && (ret > 0 <==> status.Sent?)
    }

    /** Ends the flight and writes what is pending of it. */
    method FlushFlight(mtu: nat, bio: seq<int>)
      returns (ret: int, datagrams: seq<seq<byte>>, ghost packets: seq<seq<SealedRecord>>,
               ghost status: FlightStatus)
      requires Valid() && SenderInv(View())
      modifies this`complete, this`written, this`offset, writeSequence, lastWriteSequence
      ensures Valid() && SenderInv(View()) && complete && datagrams == Wires(packets)
      ensures Passes(old(View()).(complete := true), mtu, bio, ret, packets, status)
      ensures ret > 0 ==> PacketsItems(packets) == old(Pending(View())) && written == outgoingLen
      ensures writeShutdown || !status.Failed? ==> PacketsItems(packets) + Pending(View()) == old(Pending(View()))
    {
      hide HandshakeSend.SendFlight, PendingFrom, WellQueued, ValidAead, PacketsItems;
      complete := true;
      ghost var sealed, before := [], View();
      PassConserves(before, mtu, bio);
      ret, datagrams, packets, sealed, status := SendFlight(mtu, bio);
    }

    /** Writes the flight again from its first message. */
    method Retransmit(mtu: nat, bio: seq<int>)
      returns (ret: int, datagrams: seq<seq<byte>>, ghost packets: seq<seq<SealedRecord>>,
               ghost status: FlightStatus)
      requires Valid() && SenderInv(View())
      modifies this`written, this`offset, writeSequence, lastWriteSequence
      ensures Valid() && SenderInv(View()) && datagrams == Wires(packets)
      ensures Passes(Rewind(old(View())), mtu, bio, ret, packets, status)
      ensures ret > 0 ==> PacketsItems(packets) == PendingFrom(View().msgs, 0, 0) && written == outgoingLen
      ensures writeShutdown || !status.Failed? ==>
                PacketsItems(packets) + Pending(View()) == PendingFrom(View().msgs, 0, 0)
    {
      hide HandshakeSend.SendFlight, PendingFrom, WellQueued, ValidAead, PacketsItems;
      written, offset := 0, 0;
      ghost var sealed, before := [], View();
      PassConserves(before, mtu, bio);
      ret, datagrams, packets, sealed, status := SendFlight(mtu, bio);
    }
  }

  lemma PassConserves(s: Sender, mtu: nat, bio: seq<int>)
    requires SenderInv(s)
    ensures var (s', packets, sealed, res) := HandshakeSend.SendFlight(s, mtu, bio);
            && SenderInv(s') && s'.msgs == s.msgs
            && (res.Sent? ==> PacketsItems(packets) == Pending(s) && s'.written == |s.msgs|)
            && (!res.Failed? ==> PacketsItems(packets) + Pending(s') == Pending(s))
    ensures PacketsItems([]) + Pending(s) == Pending(s)
  {
    hide HandshakeSend.SendFlight, PendingFrom, WellQueued, ValidAead;
    FlightConserves(s, mtu, bio);
    SkipsNothingExactly(s, mtu, bio);
  }

  // --- The flight as it goes out ----------------------------------------------------------------

  /** With `packets` handed over and `sealed` sealed so far, a flight from `before` ends as the rest of it does. */
  ghost predicate Flies(before: Sender, mtu: nat, bio: seq<int>, s: Sender, rest: seq<int>,
                        packets: seq<seq<SealedRecord>>, sealed: seq<SealedRecord>)
  {
    var (s', ps, xs, res) := HandshakeSend.SendFlight(s, mtu, rest);
    HandshakeSend.SendFlight(before, mtu, bio) == (s', packets + ps, sealed + xs, res)
  }

  lemma WiresOfNone()
    ensures Wires([]) == []
  {
  }

  lemma FliesFromStart(s: Sender, mtu: nat, bio: seq<int>)
    ensures Flies(s, mtu, bio, s, bio, [], []) && Wires([]) == []
  {
    var (s', ps, xs, res) := HandshakeSend.SendFlight(s, mtu, bio);
    assert [] + ps == ps && [] + xs == xs;
  }

  lemma FliesToEnd(before: Sender, mtu: nat, bio: seq<int>, s: Sender, rest: seq<int>,
                   packets: seq<seq<SealedRecord>>, sealed: seq<SealedRecord>)
    requires Flies(before, mtu, bio, s, rest, packets, sealed) && s.written >= |s.msgs|
    ensures HandshakeSend.SendFlight(before, mtu, bio)
         == (s, packets, sealed, if rest == [] || rest[0] <= 0 then NotFlushed else Sent)
  {
    assert packets + [] == packets && sealed + [] == sealed;
  }

  lemma FliesOn(before: Sender, mtu: nat, bio: seq<int>, s: Sender, rest: seq<int>,
                packets: seq<seq<SealedRecord>>, sealed: seq<SealedRecord>)
    requires Flies(before, mtu, bio, s, rest, packets, sealed) && s.written < |s.msgs|
    ensures var (s', status, xs) := NextPacket(s, mtu);
            if status.PacketFailed? then
              HandshakeSend.SendFlight(before, mtu, bio) == (s', packets, sealed + xs, Failed(status.why))
            else if rest == [] || rest[0] <= 0 then
              HandshakeSend.SendFlight(before, mtu, bio)
              == (s'.(written := s.written, offset := s.offset), packets, sealed + xs, Blocked)
            else
              Flies(before, mtu, bio, s', rest[1..], packets + [xs], sealed + xs)
  {
    hide NextPacket;
    assert packets + [] == packets;
    var (s', status, xs) := NextPacket(s, mtu);
    if status.PacketReady? && rest != [] && rest[0] > 0 {
      var (s2, ps, ys, res) := HandshakeSend.SendFlight(s', mtu, rest[1..]);
      assert HandshakeSend.SendFlight(s, mtu, rest) == (s2, [xs] + ps, xs + ys, res);
      assert packets + ([xs] + ps) == packets + [xs] + ps && sealed + (xs + ys) == sealed + xs + ys;
    }
  }

  lemma {:induction false} WiresAppend(packets: seq<seq<SealedRecord>>, xs: seq<SealedRecord>)
    ensures Wires(packets + [xs]) == Wires(packets) + [Wire(xs)]
  {
    if packets == [] {
      assert Wires([xs]) == [Wire(xs)] + Wires([]);
    } else {
      WiresAppend(packets[1..], xs);
      assert (packets + [xs])[1..] == packets[1..] + [xs];
    }
  }

  // --- The packet as it grows -------------------------------------------------------------------

  /** With `xs` sealed so far, a packet from `before` ends as the rest of it does from `s`. */
  ghost predicate Goes(before: Sender, maxOut: nat, s: Sender, left: nat, madeProgress: bool, xs: seq<SealedRecord>) {
    var (s', status, ys) := SealPacket(s, left, madeProgress);
    NextPacket(before, maxOut) == (s', status, xs + ys)
  }

  lemma GoesFromStart(s: Sender, maxOut: nat)
    ensures Goes(s, maxOut, s, maxOut, false, []) && Wire([]) == []
  {
    assert [] + NextPacket(s, maxOut).2 == NextPacket(s, maxOut).2;
  }

  lemma GoesToEnd(before: Sender, maxOut: nat, s: Sender, left: nat, madeProgress: bool, xs: seq<SealedRecord>)
    requires Goes(before, maxOut, s, left, madeProgress, xs) && s.written >= |s.msgs|
    ensures NextPacket(before, maxOut) == (s, if madeProgress then PacketReady else PacketFailed(MtuTooSmall), xs)
  {
    assert xs + [] == xs;
  }

  lemma GoesOn(before: Sender, maxOut: nat, s: Sender, left: nat, madeProgress: bool, xs: seq<SealedRecord>)
    requires Goes(before, maxOut, s, left, madeProgress, xs) && s.written < |s.msgs|
    ensures var (s', progress) := HandshakeSend.SealNextMessage(s, left);
            match progress
            case Stuck(why) => NextPacket(before, maxOut) == (s', PacketFailed(why), xs)
            case NoProgress =>
              NextPacket(before, maxOut) == (s', if madeProgress then PacketReady else PacketFailed(MtuTooSmall), xs)
            case Partial(x) => NextPacket(before, maxOut) == (s', PacketReady, xs + [x])
            case Whole(x) => x.Len() <= left ==> Goes(before, maxOut, Advance(s'), left - x.Len(), true, xs + [x])
  {
    hide HandshakeSend.SealNextMessage;
    SealNextFrame(s, left);
    assert xs + [] == xs;
    var (s', progress) := HandshakeSend.SealNextMessage(s, left);
    if progress.Whole? && progress.last.Len() <= left {
      var x := progress.last;
      var (s2, status, ys) := SealPacket(Advance(s'), left - x.Len(), true);
      assert SealPacket(s, left, madeProgress) == (s2, status, [x] + ys);
      assert xs + ([x] + ys) == xs + [x] + ys;
    }
  }

  lemma Appended(packet: array<byte>, out: nat, xs: seq<SealedRecord>, x: SealedRecord)
    requires out + x.Len() <= packet.Length
    requires packet[..out] == Wire(xs) && packet[out..out + x.Len()] == x.wire
    ensures packet[..out + x.Len()] == Wire(xs + [x])
  {
    WireAppend(xs, x);
    assert packet[..out + x.Len()] == packet[..out] + packet[out..out + x.Len()];
  }

  /** The record a call reports lies in the packet at `out`, within the budget. */
  ghost predicate InPacket(packet: array<byte>, out: nat, maxOut: nat, progress: Progress)
    requires out + maxOut <= packet.Length
    reads packet
  {
    match progress
    case Partial(x) => x.Len() <= maxOut && packet[out..out + x.Len()] == x.wire
    case Whole(x) => x.Len() <= maxOut && packet[out..out + x.Len()] == x.wire
    case _ => true
  }

  /** Where the overhead has been accounted for, the ciphertext fits. */
  lemma SealFits(s: Sender, previous: bool, ctype: ContentType, plain: seq<byte>, maxOut: nat)
    requires ValidAead(WriteAead(s, previous)) && |plain| + MaxSealOverhead(s, previous) <= maxOut
    ensures var sealed := WriteAead(s, previous).seal(WriteNumber(s, previous), ctype, plain);
            sealed.Some? ==> RECORD_HEADER_LENGTH + |sealed.value| <= maxOut
    ensures SealPrefixLen(s, previous) <= MaxSealOverhead(s, previous)
  {
  }

  /** Writes the fragment of `f` from `offset` on, header first. */
  method PutFragment(packet: array<byte>, at: nat, f: Fragment, offset: nat, todo: nat)
    requires offset + todo <= |f.body| < 0x100_0000 && at + HEADER_LENGTH + todo <= packet.Length
    modifies packet
    ensures forall i :: 0 <= i < packet.Length && !(at <= i < at + HEADER_LENGTH + todo) ==> packet[i] == old(packet[i])
    ensures packet[at..at + HEADER_LENGTH + todo] == Serialize(Cut(f, offset, todo))
  {
    Put(packet, at, Header(f.typ, f.msgLen, f.seqNo, offset, todo));
    Put(packet, at + HEADER_LENGTH, f.body[offset..offset + todo]);
  }

  lemma {:induction false} ZerosRead(bytes: seq<byte>)
    requires forall i :: 0 <= i < |bytes| ==> bytes[i] == 0
    ensures BigEndian(bytes) == 0
    decreases |bytes|
  {
    if bytes != [] {
      ZerosRead(bytes[..|bytes| - 1]);
    }
  }

  lemma {:induction false} WireAppend(xs: seq<SealedRecord>, x: SealedRecord)
    ensures Wire(xs + [x]) == Wire(xs) + x.wire
  {
    if xs == [] {
      assert Wire([x]) == x.wire + Wire([]);
    } else {
      WireAppend(xs[1..], x);
      assert (xs + [x])[1..] == xs[1..] + [x];
    }
  }
}
