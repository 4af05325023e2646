/** The TLS write path: handshake records queue in a pending flight, application records in a write buffer, and both
    drain into a transport that may take any prefix or fail. */
module TlsWrite {
  import opened Bytes

  const SSL3_ALIGN_PAYLOAD: nat := 8
  const SSL3_RT_HEADER_LENGTH: nat := 5
  const SSL3_RT_MAX_PLAIN_LENGTH: nat := 16384
  const MAX_CAP: nat := 0xFFFF
  const SSL3_MT_CCS: byte := 1
  const SSL3_AL_WARNING: byte := 1
  const SSL3_AL_FATAL: byte := 2
  const INT_MAX: nat := 0x7FFF_FFFF

  datatype RecordType = ChangeCipherSpec | Alert | Handshake | ApplicationData

  /** A record the AEAD sealed: its type, its plaintext and the bytes for the wire. */
  datatype Sealed = Sealed(rtype: RecordType, plaintext: seq<byte>, wire: seq<byte>)

  /** Everything sealed so far, as it has to appear on the transport. */
  ghost function WireBytes(log: seq<Sealed>): seq<byte> {
    if log == [] then [] else WireBytes(log[..|log| - 1]) + log[|log| - 1].wire
  }

  /** The plaintext of the records of one type, in sealing order. */
  ghost function Plaintext(log: seq<Sealed>, rtype: RecordType): seq<byte> {
    if log == [] then []
    else
      var last := log[|log| - 1];
      Plaintext(log[..|log| - 1], rtype) + if last.rtype == rtype then last.plaintext else []
  }

  lemma LogGrows(log: seq<Sealed>, r: Sealed)
    ensures WireBytes(log + [r]) == WireBytes(log) + r.wire
    ensures forall t :: Plaintext(log + [r], t) == Plaintext(log, t) + if r.rtype == t then r.plaintext else []
  {
    assert (log + [r])[..|log|] == log;
  }

  lemma Aligned(body: int, offset: int)
    requires offset == -body % 8
    ensures (body + offset) % 8 == 0
  {
  }

  /** A growable byte buffer: its contents lie at `offset` of an allocation that is aligned for the record body. */
  class SSLBuffer {
    var buf: array?<byte>
    var offset: nat
    var size: nat
    var cap: nat

    ghost predicate Valid()
      reads this
    {
      && size <= cap <= 0xFFFF
      && (if buf == null then offset == 0 && cap == 0 else offset + cap <= buf.Length)
    }

    ghost function Contents(): (r: seq<byte>)
      requires Valid()
      reads this, buf
      ensures |r| == size
    {
      if buf == null then [] else buf[offset..offset + size]
    }

    constructor ()
      ensures Valid() && buf == null && Contents() == []
    {
      buf, offset, size, cap := null, 0, 0, 0;
    }

    method Clear()
      modifies this
      ensures Valid() && buf == null && Contents() == []
    {
      buf, offset, size, cap := null, 0, 0, 0;
    }

    /** Room for `newCap` bytes in all, contents included; `address` is where the allocator puts a new block. There is a
        new one only when the room is too small, and then what follows the header starts on an 8-byte boundary. */
    method EnsureCap(headerLen: nat, newCap: nat, address: nat) returns (ok: bool)
      requires Valid()
      modifies this
      ensures Valid() && Contents() == old(Contents())
      ensures ok <==> newCap <= 0xFFFF
      ensures ok ==> newCap <= cap
      ensures !ok || newCap <= old(cap) ==> unchanged(this)
      ensures ok && newCap > old(cap) ==>
                fresh(buf) && cap == newCap && offset < 8 && (address + offset + headerLen) % 8 == 0
      ensures buf == old(buf) || fresh(buf)
    {
      if newCap > 0xFFFF {
        return false;
      }
      if cap >= newCap {
        return true;
      }
      var newBuf := new byte[newCap + SSL3_ALIGN_PAYLOAD - 1];
      var body: int := address + headerLen;
      var newOffset := -body % SSL3_ALIGN_PAYLOAD;
      Aligned(body, newOffset);
      CopyTo(newBuf, newOffset);
      buf, offset, cap := newBuf, newOffset, newCap;
      ok := true;
    }

    method CopyTo(newBuf: array<byte>, newOffset: nat)
      requires Valid() && newBuf != buf && newOffset + size <= newBuf.Length
      modifies newBuf
      ensures newBuf[newOffset..newOffset + size] == Contents() == old(Contents())
    {
      if buf != null {
        var i := 0;
        while i < size
          invariant 0 <= i <= size
          invariant newBuf[newOffset..newOffset + i] == buf[offset..offset + i]
        {
          newBuf[newOffset + i] := buf[offset + i];
          assert newBuf[newOffset..newOffset + i + 1] == buf[offset..offset + i] + [buf[offset + i]];
          i := i + 1;
        }
      }
    }

    static method PutBytes(dest: array<byte>, at: nat, bytes: seq<byte>)
      requires at + |bytes| <= dest.Length
      modifies dest
      ensures forall k :: 0 <= k < dest.Length ==>
                dest[k] == if at <= k < at + |bytes| then bytes[k - at] else old(dest[k])
    {
      for i := 0 to |bytes|
        invariant forall k :: 0 <= k < dest.Length ==>
                    dest[k] == if at <= k < at + i then bytes[k - at] else old(dest[k])
      {
        dest[at + i] := bytes[i];
      }
    }

    /** Puts bytes behind the contents; the source aborts where this precondition fails. */
    method Append(bytes: seq<byte>)
      requires Valid() && |bytes| <= cap - size
      modifies this`size, buf
      ensures Valid() && Contents() == old(Contents()) + bytes
    {
      if buf != null {
        ghost var before := buf[..];
        PutBytes(buf, offset + size, bytes);
        assert buf[offset..offset + (size + |bytes|)] == before[offset..offset + size] + bytes;
      }
      size := size + |bytes|;
    }

    method Consume(len: nat)
      requires Valid() && len <= size
      modifies this`offset, this`size, this`cap
      ensures Valid() && Contents() == old(Contents())[len..]
    {
      offset := offset + len;
      size := size - len;
      cap := cap - len;
    }
  }

  /** The order in which bytes leave: taken by the transport, in the write buffer, in the flight. */
  ghost function InOrder(taken: seq<byte>, buffered: seq<byte>, flight: seq<byte>): seq<byte> {
    taken + buffered + flight
  }

  lemma TakeFromBuffer(taken: seq<byte>, buffered: seq<byte>, flight: seq<byte>, n: nat)
    requires n <= |buffered|
    ensures InOrder(taken + buffered[..n], buffered[n..], flight) == InOrder(taken, buffered, flight)
  {
    assert taken + buffered[..n] + buffered[n..] == taken + buffered;
  }

  lemma TakeFromFlight(taken: seq<byte>, flight: seq<byte>, n: nat)
    requires n <= |flight|
    ensures InOrder(taken + flight[..n], [], flight[n..]) == InOrder(taken, [], flight)
  {
    assert taken + flight[..n] + [] + flight[n..] == taken + [] + flight;
  }

  lemma AllTaken(taken: seq<byte>)
    ensures InOrder(taken, [], []) == taken
  {
    assert taken + [] + [] == taken;
  }

  /** Behind an empty flight, everything has been taken exactly when the buffer is empty. */
  lemma TakenWithBuffer(taken: seq<byte>, buffered: seq<byte>)
    ensures InOrder(taken, buffered, []) == taken <==> buffered == []
  {
    assert |InOrder(taken, buffered, [])| == |taken| + |buffered|;
    if buffered == [] {
      AllTaken(taken);
    }
  }

  lemma BufferGrows(taken: seq<byte>, buffered: seq<byte>, wire: seq<byte>)
    ensures InOrder(taken, buffered + wire, []) == InOrder(taken, buffered, []) + wire
  {
    assert taken + (buffered + wire) + [] == taken + buffered + [] + wire;
  }

  lemma FlightGrows(taken: seq<byte>, buffered: seq<byte>, flight: seq<byte>, wire: seq<byte>)
    ensures InOrder(taken, buffered, flight + wire) == InOrder(taken, buffered, flight) + wire
  {
    assert taken + buffered + (flight + wire) == taken + buffered + flight + wire;
  }

  lemma FlightMoves(taken: seq<byte>, buffered: seq<byte>, flight: seq<byte>)
    ensures InOrder(taken, buffered + flight, []) == InOrder(taken, buffered, flight)
  {
    assert taken + (buffered + flight) + [] == taken + buffered + flight;
  }

  /** Exactly one record was sealed. */
  ghost predicate SealedOne(before: seq<Sealed>, after: seq<Sealed>, rtype: RecordType, plaintext: seq<byte>) {
    |after| == |before| + 1 && after == before + [Sealed(rtype, plaintext, after[|before|].wire)]
  }

  /** The records from position `n` on carry `msg`, in order and nothing else, in chunks of at most `max` bytes. */
  ghost predicate Carries(log: seq<Sealed>, n: nat, msg: seq<byte>, max: nat) {
    n <= |log| && (forall i :: n <= i < |log| ==> log[i].rtype == Handshake && |log[i].plaintext| <= max)
    && Plaintext(log, Handshake) == Plaintext(log[..n], Handshake) + msg
  }

  /** The records from position `n` on are as few as can be: all but the last are full, and only one of them all may be
      empty. */
  ghost predicate Fills(log: seq<Sealed>, n: nat, max: nat) {
    && (forall i :: n <= i < |log| - 1 ==> |log[i].plaintext| == max)
    && (|log| > n + 1 ==> log[|log| - 1].plaintext != [])
  }

  lemma SealedPrefix(before: seq<Sealed>, after: seq<Sealed>, base: seq<byte>, data: seq<byte>, from: nat, count: nat)
    requires from + count <= |data|
    ensures Plaintext(before, ApplicationData) == base + data[..from] &&
            SealedOne(before, after, ApplicationData, data[from..from + count]) ==>
              Plaintext(after, ApplicationData) == base + data[..from + count]
  {
    if SealedOne(before, after, ApplicationData, data[from..from + count]) {
      LogGrows(before, after[|before|]);
      assert base + data[..from] + data[from..from + count] == base + data[..from + count];
    }
  }

  lemma SealedNoAlert(before: seq<Sealed>, after: seq<Sealed>, data: seq<byte>)
    ensures SealedOne(before, after, ApplicationData, data) ==> Plaintext(after, Alert) == Plaintext(before, Alert)
  {
    hide Plaintext;
    if SealedOne(before, after, ApplicationData, data) {
      LogGrows(before, after[|before|]);
    }
  }

  lemma SealedAlert(before: seq<Sealed>, after: seq<Sealed>, alert: seq<byte>)
    ensures SealedOne(before, after, Alert, alert) ==>
              && Plaintext(after, Alert) == Plaintext(before, Alert) + alert
              && Plaintext(after, ApplicationData) == Plaintext(before, ApplicationData)
  {
    hide Plaintext;
    if SealedOne(before, after, Alert, alert) {
      LogGrows(before, after[|before|]);
    }
  }

  /** Handshake data leaves application data and alerts as they are. */
  ghost predicate SameBeside(before: seq<Sealed>, after: seq<Sealed>) {
    && Plaintext(after, ApplicationData) == Plaintext(before, ApplicationData)
    && Plaintext(after, Alert) == Plaintext(before, Alert)
  }

  lemma SameAtFirst(log: seq<Sealed>)
    ensures SameBeside(log, log)
  {
  }

  lemma SameThroughout(a: seq<Sealed>, b: seq<Sealed>, c: seq<Sealed>)
    requires SameBeside(a, b) && SameBeside(b, c)
    ensures SameBeside(a, c)
  {
  }

  lemma CarriesNothing(log: seq<Sealed>, max: nat)
    ensures log[..|log|] == log && Carries(log, |log|, [], max)
  {
    assert log[..|log|] == log;
  }

  lemma CarriesMore(before: seq<Sealed>, after: seq<Sealed>, n: nat, done: seq<byte>, chunk: seq<byte>, max: nat)
    requires Carries(before, n, done, max) && SealedOne(before, after, Handshake, chunk) && |chunk| <= max
    ensures Carries(after, n, done + chunk, max) && |after| > |before| && after[..n] == before[..n]
    ensures SameBeside(before, after)
  {
    hide Plaintext, WireBytes;
    LogGrows(before, after[|before|]);
    assert after[..n] == before[..n];
    var start := Plaintext(before[..n], Handshake);
    assert start + done + chunk == start + (done + chunk);
  }

  /** Whether and how one record of application data was sealed: not at all, or one of these bytes, and if that was
      reported then all of them. */
  ghost predicate SealedData(before: seq<Sealed>, after: seq<Sealed>, data: seq<byte>, ret: int) {
    after == before || (SealedOne(before, after, ApplicationData, data) && (ret > 0 ==> ret == |data|))
  }

  /** Behind what was there the records are application data cut at the fragment length. */
  ghost predicate Cuts(was: seq<Sealed>, log: seq<Sealed>, max: nat) {
    && was <= log
    && (forall i :: |was| <= i < |log| ==> log[i].rtype == ApplicationData && |log[i].plaintext| <= max)
    && (forall i :: |was| <= i < |log| - 1 ==> |log[i].plaintext| == max)
  }

  /** A further record may follow them. */
  ghost predicate CutsFull(was: seq<Sealed>, log: seq<Sealed>, max: nat) {
    Cuts(was, log, max) && (|log| > |was| ==> |log[|log| - 1].plaintext| == max)
  }

  lemma CutsNothing(log: seq<Sealed>, max: nat)
    ensures CutsFull(log, log, max) && Cuts(log, log, max)
  {
  }

  lemma CutsMore(was: seq<Sealed>, before: seq<Sealed>, after: seq<Sealed>, data: seq<byte>, ret: int, max: nat)
    requires CutsFull(was, before, max) && SealedData(before, after, data, ret) && |data| <= max
    ensures Cuts(was, after, max) && |after| <= |before| + 1
    ensures ret > 0 && (ret == |data| ==> |data| == max) ==> CutsFull(was, after, max)
  {
  }

  lemma FillsNothing(log: seq<Sealed>, max: nat)
    ensures Fills(log, |log|, max)
  {
  }

  lemma FillsMore(before: seq<Sealed>, after: seq<Sealed>, n: nat, chunk: seq<byte>, max: nat)
    requires Fills(before, n, max) && SealedOne(before, after, Handshake, chunk) && n <= |before|
    requires |before| > n ==> |before[|before| - 1].plaintext| == max && chunk != []
    ensures Fills(after, n, max) && after[|after| - 1].plaintext == chunk
  {
  }

  class Connection {
    const writeBuffer: SSLBuffer
    const sealOverhead: nat
    var pendingFlight: Option<seq<byte>>
    var pendingFlightOffset: nat
    var writeShutdown: bool
    var alertDispatch: bool
    var sendAlert: seq<byte>
    var maxSendFragment: nat
    var partialWrite: bool
    var acceptMovingBuffer: bool
    var wnum: nat
    var wpendPending: bool
    var wpendTot: nat
    var wpendBuf: nat
    var wpendType: RecordType
    var wpendRet: nat
    // What the environment is bound to do next: the AEAD seals or fails, the transport takes all it is given or fails.
    // Beyond the end of a script it may do anything.
    var seals: seq<bool>
    var bio: seq<bool>
    var flushes: seq<bool>
    ghost var accepted: seq<byte>   // what the transport has taken
    ghost var flushed: seq<byte>    // what it had taken when it was last flushed
    ghost var log: seq<Sealed>      // what has been sealed
    ghost var failures: nat         // how often the AEAD or the transport has failed

    ghost function Unsent(): seq<byte>
      requires pendingFlight.Some? ==> pendingFlightOffset <= |pendingFlight.value|
      reads this
    {
      if pendingFlight.None? then [] else pendingFlight.value[pendingFlightOffset..]
    }

    /** Conservation and order: what the transport took, the write buffer and the unsent part of the flight are, in this
        order, everything that was sealed. */
    ghost predicate Valid()
      reads this, writeBuffer, writeBuffer.buf
    {
      && writeBuffer.Valid()
      && (if pendingFlight.None? then pendingFlightOffset == 0 else pendingFlightOffset <= |pendingFlight.value|)
      && InOrder(accepted, writeBuffer.Contents(), Unsent()) == WireBytes(log)
      && (wpendPending ==> 0 < wpendRet == wpendTot)
      && maxSendFragment > 0 && sealOverhead >= SSL3_RT_HEADER_LENGTH
    }

    constructor (overhead: nat, fragment: nat, seals: seq<bool>, bio: seq<bool>)
      requires fragment > 0 && overhead >= SSL3_RT_HEADER_LENGTH
      ensures Valid() && fresh(writeBuffer) && log == [] && accepted == [] && wnum == 0 && !wpendPending
      ensures pendingFlight.None? && writeBuffer.buf == null && writeBuffer.size == 0 && !writeShutdown && !partialWrite
      ensures !alertDispatch && flushed == []
      ensures maxSendFragment == fragment && sealOverhead == overhead && this.seals == seals && this.bio == bio
      ensures failures == 0
    {
      this.seals, this.bio := seals, bio;
      writeBuffer := new SSLBuffer();
      sealOverhead := overhead;
      pendingFlight, pendingFlightOffset, writeShutdown, maxSendFragment := None, 0, false, fragment;
      partialWrite, acceptMovingBuffer, wnum := false, false, 0;
      alertDispatch, sendAlert := false, [0, 0];
      wpendPending, wpendTot, wpendBuf, wpendType, wpendRet := false, 0, 0, ApplicationData, 0;
      accepted, flushed, log, flushes, failures := [], [], [], [], 0;
    }

    // --- The environment ------------------------------------------------------------------------

    /** The transport takes any prefix, or fails. */
    method BioWrite(bytes: seq<byte>) returns (ret: int)
      modifies this`failures, this`accepted, this`bio
      ensures ret <= |bytes| && accepted == old(accepted) + if ret > 0 then bytes[..ret] else []
      ensures failures == old(failures) + if ret <= 0 then 1 else 0
      ensures bio == if old(bio) == [] then [] else old(bio)[1..]
      ensures old(bio) != [] ==> ret == if old(bio)[0] then |bytes| else -1
    {
      if bio == [] {
        ret :| ret <= |bytes|;
      } else {
        ret := if bio[0] then |bytes| else -1;
        bio := bio[1..];
      }
      accepted := accepted + if ret > 0 then bytes[..ret] else [];
      failures := failures + if ret <= 0 then 1 else 0;
    }

    method BioFlush() returns (ret: int)
      modifies this`failures, this`flushed, this`flushes
      ensures flushed == if ret > 0 then accepted else old(flushed)
      ensures failures == old(failures) + if ret <= 0 then 1 else 0
      ensures flushes == if old(flushes) == [] then [] else old(flushes)[1..]
      ensures old(flushes) != [] ==> (ret > 0 <==> old(flushes)[0])
    {
      ret :| true;
      if flushes != [] {
        ret := if flushes[0] then 1 else -1;
        flushes := flushes[1..];
      }
      flushed := if ret > 0 then accepted else flushed;
      failures := failures + if ret <= 0 then 1 else 0;
    }

    /** The AEAD fails, or yields a record within its overhead. */
    method SealRecord(rtype: RecordType, plaintext: seq<byte>) returns (wire: Option<seq<byte>>)
      requires sealOverhead >= SSL3_RT_HEADER_LENGTH
      modifies this`failures, this`log, this`seals
      ensures wire.Some? ==> SSL3_RT_HEADER_LENGTH <= |wire.value| <= |plaintext| + sealOverhead
      ensures log == if wire.Some? then old(log) + [Sealed(rtype, plaintext, wire.value)] else old(log)
      ensures failures == old(failures) + if wire.None? then 1 else 0
      ensures seals == if old(seals) == [] then [] else old(seals)[1..]
      ensures old(seals) != [] ==> (wire.Some? <==> old(seals)[0])
    {
      var fails: bool := *;
      if seals != [] {
        fails, seals := !seals[0], seals[1..];
      }
      if fails {
        failures := failures + 1;
        return None;
      }
      var least := [0, 0, 0, 0, 0];
      assert SSL3_RT_HEADER_LENGTH <= |least| <= |plaintext| + sealOverhead;
      var bytes: seq<byte> :| SSL3_RT_HEADER_LENGTH <= |bytes| <= |plaintext| + sealOverhead;
      wire := Some(bytes);
      log := log + [Sealed(rtype, plaintext, bytes)];
    }

    // --- Handshake data -------------------------------------------------------------------------

    /** Appends a sealed record to the flight. Never while the flight is being written. */
    method AddRecordToFlight(rtype: RecordType, plaintext: seq<byte>) returns (ok: bool)
      requires Valid() && pendingFlightOffset == 0
      modifies this`failures, this`pendingFlight, this`log, this`seals
      ensures Valid()
      ensures if ok then SealedOne(old(log), log, rtype, plaintext) else log == old(log)
      ensures pendingFlight.Some? && (ok ==> 0 < |Unsent()| <= |old(Unsent())| + |plaintext| + sealOverhead)
      ensures failures == old(failures) + if ok then 0 else 1
      ensures seals == if old(seals) == [] then [] else old(seals)[1..]
      ensures old(seals) != [] && old(seals)[0] ==> ok
    {
      hide WireBytes, InOrder;
      ghost var before := log;
      if pendingFlight.None? {
        pendingFlight := Some([]);
        assert Unsent() == [];
      }
      ghost var flight := pendingFlight.value;
      assert Unsent() == flight;
      var wire := SealRecord(rtype, plaintext);
      if wire.None? {
        return false;
      }
      LogGrows(before, log[|before|]);
      FlightGrows(accepted, writeBuffer.Contents(), flight, wire.value);
      pendingFlight := Some(pendingFlight.value + wire.value);
      assert Unsent() == flight + wire.value;
      ok := true;
    }

    lemma FragmentsHaveRoom()
      requires Valid()
      ensures maxSendFragment > 0
    {
    }

    /** The next record of a message whose first bytes, `done`, are in the records from position `n` on. */
    method AddChunk(chunk: seq<byte>, ghost n: nat, ghost done: seq<byte>) returns (ok: bool)
      requires Valid() && pendingFlightOffset == 0 && |chunk| <= maxSendFragment
      requires n <= |log| && Carries(log, n, done, maxSendFragment) && Fills(log, n, maxSendFragment)
      requires |log| > n ==> |log[|log| - 1].plaintext| == maxSendFragment && chunk != []
      modifies this`failures, this`pendingFlight, this`log, this`seals
      ensures Valid() && failures == old(failures) + if ok then 0 else 1
      ensures SameBeside(old(log), log) && |log| >= n && log[..n] == old(log)[..n]
      ensures ok ==> |log| > n && Carries(log, n, done + chunk, maxSendFragment) && pendingFlight.Some?
      ensures ok ==> Fills(log, n, maxSendFragment) && log[|log| - 1].plaintext == chunk
    {
      hide WireBytes, Plaintext, InOrder, Carries, SealedOne, Fills;
      ghost var before := log;
      ok := AddRecordToFlight(Handshake, chunk);
      if ok {
        CarriesMore(before, log, n, done, chunk, maxSendFragment);
        FillsMore(before, log, n, chunk, maxSendFragment);
      }
    }

    /** A handshake message as a run of records, as few as possible, at least one even for an empty message. */
    method AddMessage(msg: seq<byte>) returns (ok: bool)
      requires Valid() && pendingFlightOffset == 0
      modifies this`failures, this`pendingFlight, this`log, this`seals
      ensures Valid()
      ensures |old(log)| <= |log| && log[..|old(log)|] == old(log)
      ensures SameBeside(old(log), log)
      ensures failures == old(failures) + if ok then 0 else 1
      ensures ok ==> |log| > |old(log)| && Carries(log, |old(log)|, msg, maxSendFragment) && pendingFlight.Some?
      ensures ok ==> Fills(log, |old(log)|, maxSendFragment)
    {
      hide WireBytes, Plaintext, InOrder, Carries, Fills, Valid, SameBeside;
      SameAtFirst(log);
      FragmentsHaveRoom();
      ghost var n := |log|;
      CarriesNothing(log, maxSendFragment);
      FillsNothing(log, maxSendFragment);
      var rest := msg;
      var first := true;
      ok := true;
      while first || rest != []
        invariant Valid() && |log| >= n && log[..n] == old(log)[..n]
        invariant failures == old(failures) && ok && SameBeside(old(log), log)
        invariant if first then |log| == n else |log| > n && pendingFlight.Some?
        invariant !first && rest != [] ==> |log[|log| - 1].plaintext| == maxSendFragment
        invariant |rest| <= |msg| && rest == msg[|msg| - |rest|..]
        invariant Carries(log, n, msg[..|msg| - |rest|], maxSendFragment) && Fills(log, n, maxSendFragment)
        decreases first, |rest|
      {
        var size := if |rest| < maxSendFragment then |rest| else maxSendFragment;
        var chunk := rest[..size];
        ghost var done, before := msg[..|msg| - |rest|], log;
        ok := AddChunk(chunk, n, done);
        SameThroughout(old(log), before, log);
        if !ok {
          return;
        }
        rest := rest[size..];
        assert msg[..|msg| - |rest|] == done + chunk;
        first := false;
      }
      assert msg[..|msg| - |rest|] == msg;
    }

    method AddChangeCipherSpec() returns (ok: bool)
      requires Valid() && pendingFlightOffset == 0
      modifies this`failures, this`pendingFlight, this`log, this`seals
      ensures Valid()
      ensures if ok then SealedOne(old(log), log, ChangeCipherSpec, [SSL3_MT_CCS]) else log == old(log)
      ensures SameBeside(old(log), log)
      ensures pendingFlight.Some? && (ok ==> 0 < |Unsent()| <= |old(Unsent())| + 1 + sealOverhead)
      ensures failures == old(failures) + if ok then 0 else 1
      ensures seals == if old(seals) == [] then [] else old(seals)[1..]
      ensures old(seals) != [] && old(seals)[0] ==> ok
    {
      hide WireBytes, Plaintext, InOrder;
      ghost var before := log;
      ok := AddRecordToFlight(ChangeCipherSpec, [SSL3_MT_CCS]);
      if ok {
        LogGrows(before, log[|before|]);
      }
    }

    /** One write of all the buffer holds; what the transport takes is consumed. */
    method DrainOnce() returns (ret: int)
      requires Valid() && writeBuffer.size > 0
      modifies this`failures, this`accepted, this`bio, writeBuffer`offset, writeBuffer`size, writeBuffer`cap
      ensures Valid() && old(accepted) <= accepted
      ensures writeBuffer.size == if ret <= 0 then old(writeBuffer.size) else old(writeBuffer.size) - ret
      ensures failures == old(failures) + if ret <= 0 then 1 else 0
      ensures bio == if old(bio) == [] then [] else old(bio)[1..]
      ensures old(bio) != [] && old(bio)[0] ==> ret > 0 && writeBuffer.size == 0
    {
      hide WireBytes, InOrder;
      ghost var taken, c := accepted, writeBuffer.Contents();
      ret := BioWrite(writeBuffer.buf[writeBuffer.offset..writeBuffer.offset + writeBuffer.size]);
      if ret <= 0 {
        assert accepted == taken;
        return;
      }
      writeBuffer.Consume(ret);
      TakeFromBuffer(taken, c, Unsent(), ret);
    }

    /** Drains the write buffer. */
    method WriteBufferFlush() returns (ret: int)
      requires Valid()
      modifies this`failures, this`accepted, this`bio, writeBuffer
      ensures Valid() && ret <= 1 && old(accepted) <= accepted
      ensures failures == old(failures) + if ret <= 0 then 1 else 0
      ensures ret > 0 ==> writeBuffer.Contents() == []
      ensures writeBuffer.buf == old(writeBuffer.buf) || writeBuffer.buf == null
      ensures old(bio) != [] && old(bio)[0] ==>
                ret == 1 && bio == if old(writeBuffer.size) > 0 then old(bio)[1..] else old(bio)
    {
      hide WireBytes, InOrder;
      while writeBuffer.size > 0
        invariant Valid() && writeBuffer.buf == old(writeBuffer.buf) && old(accepted) <= accepted
        invariant failures == old(failures)
        invariant old(bio) != [] && old(bio)[0] ==>
                    if writeBuffer.size == old(writeBuffer.size) then bio == old(bio)
                    else writeBuffer.size == 0 && bio == old(bio)[1..]
        decreases writeBuffer.size
      {
        ret := DrainOnce();
        if ret <= 0 {
          return;
        }
      }
      writeBuffer.Clear();
      ret := 1;
    }

    /** One write of all that is left of the flight. */
    method WriteOnce() returns (ret: int)
      requires Valid() && pendingFlight.Some? && pendingFlightOffset < |pendingFlight.value|
      requires writeBuffer.Contents() == []
      modifies this`failures, this`accepted, this`bio, this`pendingFlightOffset
      ensures Valid() && old(accepted) <= accepted
      ensures failures == old(failures) + if ret <= 0 then 1 else 0
      ensures bio == if old(bio) == [] then [] else old(bio)[1..]
      ensures old(bio) != [] && old(bio)[0] ==> ret > 0 && pendingFlightOffset == |pendingFlight.value|
      ensures pendingFlightOffset == if ret <= 0 then old(pendingFlightOffset) else old(pendingFlightOffset) + ret
    {
      hide WireBytes, InOrder, SSLBuffer.Valid;
      ghost var taken := accepted;
      var left := pendingFlight.value[pendingFlightOffset..];
      ret := BioWrite(left);
      if ret <= 0 {
        assert accepted == taken;
        return;
      }
      pendingFlightOffset := pendingFlightOffset + ret;
      TakeFromFlight(taken, left, ret);
      assert Unsent() == left[ret..];
    }

    method WriteOut() returns (ret: int)
      requires Valid() && pendingFlight.Some? && writeBuffer.Contents() == []
      modifies this`failures, this`accepted, this`bio, this`pendingFlightOffset
      ensures Valid() && old(accepted) <= accepted && ret <= 1
      ensures pendingFlightOffset >= old(pendingFlightOffset)
      ensures failures == old(failures) + if ret <= 0 then 1 else 0
      ensures old(bio) != [] && old(bio)[0] ==> ret == 1
      ensures ret > 0 ==> pendingFlightOffset == |pendingFlight.value| && accepted == WireBytes(log)
    {
      hide WireBytes, InOrder;
      while pendingFlightOffset < |pendingFlight.value|
        invariant Valid() && old(accepted) <= accepted && old(pendingFlightOffset) <= pendingFlightOffset
        invariant failures == old(failures)
        invariant old(bio) != [] && old(bio)[0] ==>
                    bio == old(bio) || pendingFlightOffset == |pendingFlight.value|
        decreases |pendingFlight.value| - pendingFlightOffset
      {
        ret := WriteOnce();
        if ret <= 0 {
          return;
        }
      }
      assert Unsent() == [];
      AllTaken(accepted);
      ret := 1;
    }

    /** A flight is pending that must not or cannot be written. */
    predicate CannotFlush()
      reads this
    {
      pendingFlight.Some? && (writeShutdown || |pendingFlight.value| > INT_MAX)
    }

    /** Writes out the pending flight, behind whatever the write buffer still holds. Its success means that everything
        sealed has reached the transport, except where no flight was pending and the buffer was not empty: then it
        reports success and leaves the buffer as it is. */
    method FlushFlight() returns (ret: int)
      requires Valid()
      modifies this`failures, this`accepted, this`flushed, this`flushes, this`bio, this`pendingFlight
      modifies this`pendingFlightOffset, writeBuffer
      ensures Valid() && old(accepted) <= accepted && ret <= 1
      ensures ret > 0 && old(pendingFlight).Some? ==> flushed == accepted
      ensures ret > 0 ==>
                (accepted == WireBytes(log) <==> old(pendingFlight).Some? || old(writeBuffer.Contents()) == [])
      ensures ret > 0 ==> pendingFlight.None? && (old(pendingFlight).Some? ==> writeBuffer.Contents() == [])
      ensures ret <= 0 ==> pendingFlight == old(pendingFlight) && pendingFlightOffset >= old(pendingFlightOffset)
      ensures old(pendingFlight).None? ==> ret == 1 && unchanged(this, writeBuffer)
      ensures writeShutdown ==> unchanged(this, writeBuffer)
      // It fails only on a shutdown, on a flight that is too long, and when the transport fails.
      ensures ret <= 0 <==> old(CannotFlush()) || failures > old(failures)
      ensures !old(CannotFlush()) && [true, true] <= old(bio) && [true] <= old(flushes) ==> ret == 1
      ensures writeBuffer.buf == old(writeBuffer.buf) || writeBuffer.buf == null
    {
      hide WireBytes, InOrder;
      if pendingFlight.None? {
        TakenWithBuffer(accepted, writeBuffer.Contents());
        return 1;
      }
      if writeShutdown || |pendingFlight.value| > INT_MAX {
        return -1;
      }
      if writeBuffer.size > 0 {
        ret := WriteBufferFlush();
        if ret <= 0 {
          return;
        }
      }
      ret := WriteOutAndFlush();
    }

    /** The flight and the flush behind it. */
    method WriteOutAndFlush() returns (ret: int)
      requires Valid() && pendingFlight.Some? && writeBuffer.Contents() == []
      modifies this`failures, this`accepted, this`flushed, this`flushes, this`bio, this`pendingFlight
      modifies this`pendingFlightOffset
      ensures Valid() && old(accepted) <= accepted && ret <= 1
      ensures failures == old(failures) + if ret <= 0 then 1 else 0
      ensures old(bio) != [] && old(bio)[0] && old(flushes) != [] && old(flushes)[0] ==> ret == 1
      ensures ret > 0 ==> pendingFlight.None? && accepted == WireBytes(log) && flushed == accepted
      ensures ret <= 0 ==> pendingFlight == old(pendingFlight) && pendingFlightOffset >= old(pendingFlightOffset)
    {
      hide WireBytes, InOrder;
      ret := WriteOut();
      if ret <= 0 {
        return;
      }
      var done := BioFlush();
      if done <= 0 {
        return -1;
      }
      assert Unsent() == [];
      pendingFlight, pendingFlightOffset := None, 0;
      ret := 1;
    }

    // --- Application data -----------------------------------------------------------------------

    /** Application bytes that are sealed but not yet reported to the caller. */
    ghost function Owed(): nat
      reads this
    {
      if wpendPending && wpendType == ApplicationData then wpendRet else 0
    }

    ghost predicate SamePending(type0: RecordType, tot0: nat, buf0: nat, ret0: nat)
      reads this
    {
      wpendPending && wpendType == type0 && wpendTot == tot0 && wpendBuf == buf0 && wpendRet == ret0
    }

    /** A repetition that does not match the record that is waiting. */
    predicate BadRetry(rtype: RecordType, len: nat, address: nat)
      reads this
    {
      wpendTot > len || (!acceptMovingBuffer && wpendBuf != address) || wpendType != rtype
    }

    /** Flushes the record that is waiting, for a caller that repeats the write it belongs to. */
    method WritePending(rtype: RecordType, len: nat, address: nat) returns (ret: int)
      requires Valid() && wpendPending
      modifies this`failures, this`accepted, this`bio, this`wpendPending, writeBuffer
      ensures Valid() && old(accepted) <= accepted
      ensures ret > 0 ==> !wpendPending && ret == wpendRet <= len && wpendType == rtype
      ensures ret > 0 ==> writeBuffer.Contents() == []
      ensures ret <= 0 ==> wpendPending
      ensures wpendTot > len || (!acceptMovingBuffer && wpendBuf != address) ==> ret == -1
      ensures wpendType != rtype ==> ret == -1 && unchanged(this, writeBuffer)
      ensures ret <= 0 <==> old(BadRetry(rtype, len, address)) || failures > old(failures)
      ensures failures >= old(failures)
      ensures writeBuffer.buf == old(writeBuffer.buf) || writeBuffer.buf == null
      ensures wpendTot <= len && wpendBuf == address && wpendType == rtype && old(bio) != [] && old(bio)[0] ==>
                ret > 0 && bio == if old(writeBuffer.size) > 0 then old(bio)[1..] else old(bio)
    {
      hide WireBytes, InOrder;
      if wpendTot > len || (!acceptMovingBuffer && wpendBuf != address) || wpendType != rtype {
        return -1;
      }
      ret := WriteBufferFlush();
      if ret <= 0 {
        return;
      }
      wpendPending := false;
      ret := wpendRet;
    }

    /** Moves the unsent flight in front of the record that is about to be sealed. */
    method MoveFlight()
      requires Valid() && pendingFlight.Some? && |Unsent()| <= writeBuffer.cap - writeBuffer.size
      modifies this`pendingFlight, this`pendingFlightOffset, writeBuffer`size, writeBuffer.buf
      ensures Valid() && pendingFlight.None?
      ensures writeBuffer.Contents() == old(writeBuffer.Contents() + Unsent())
    {
      hide WireBytes, InOrder;
      FlightMoves(accepted, writeBuffer.Contents(), Unsent());
      writeBuffer.Append(pendingFlight.value[pendingFlightOffset..]);
      pendingFlight, pendingFlightOffset := None, 0;
    }

    /** Makes room for a record and moves the flight in front of it. */
    method PrepareBuffer(len: nat) returns (ok: bool)
      requires Valid() && writeBuffer.size == 0
      modifies this`pendingFlight, this`pendingFlightOffset, writeBuffer, writeBuffer.buf
      ensures Valid() && (ok <==> len + |old(Unsent())| <= MAX_CAP)
      ensures ok ==> pendingFlight.None? && len <= writeBuffer.cap - writeBuffer.size
      ensures ok ==> writeBuffer.Contents() == old(Unsent())
      ensures !ok ==> unchanged(this, writeBuffer)
      ensures writeBuffer.buf == old(writeBuffer.buf) || writeBuffer.buf == null || fresh(writeBuffer.buf)
    {
      hide WireBytes, InOrder;
      var flightLen := if pendingFlight.None? then 0 else |pendingFlight.value| - pendingFlightOffset;
      var prefixLen: nat, block: nat :| true;
      ok := writeBuffer.EnsureCap(flightLen + prefixLen, len + flightLen, block);
      if ok && pendingFlight.Some? {
        MoveFlight();
      }
    }

    /** The write buffer can be grown to hold a record behind what is left of the flight. */
    ghost predicate HasRoom(bytes: seq<byte>)
      requires Valid()
      reads this, writeBuffer, writeBuffer.buf
    {
      |bytes| + sealOverhead + |Unsent()| <= MAX_CAP
    }

    /** No record of these bytes can be written, whatever the AEAD and the transport do: one is waiting that they do not
        repeat, or they are none, too many, or without room behind what is left. */
    ghost predicate CannotWrite(rtype: RecordType, bytes: seq<byte>, address: nat)
      requires Valid()
      reads this, writeBuffer, writeBuffer.buf
    {
      if wpendPending then BadRetry(rtype, |bytes|, address)
      else writeBuffer.size > 0 || bytes == [] || |bytes| > SSL3_RT_MAX_PLAIN_LENGTH || !HasRoom(bytes)
    }

    /** Seals one record into the empty write buffer, behind what is left of the flight. */
    method SealIntoBuffer(rtype: RecordType, bytes: seq<byte>) returns (ok: bool)
      requires Valid() && writeBuffer.size == 0 && !wpendPending
      modifies this`failures, this`log, this`seals, this`pendingFlight, this`pendingFlightOffset, writeBuffer
      modifies writeBuffer.buf
      ensures Valid()
      ensures writeBuffer.buf == old(writeBuffer.buf) || writeBuffer.buf == null || fresh(writeBuffer.buf)
      ensures if ok then SealedOne(old(log), log, rtype, bytes) else log == old(log)
      ensures ok <==> old(HasRoom(bytes)) && failures == old(failures)
      ensures failures >= old(failures)
      ensures ok ==> writeBuffer.size > 0 && pendingFlight.None?
      ensures old(HasRoom(bytes)) && old(seals) != [] ==>
                && (ok <==> old(seals)[0]) && seals == old(seals)[1..] && pendingFlight.None?
                && (!ok ==> writeBuffer.Contents() == old(Unsent()))
    {
      hide WireBytes, InOrder;
      ok := PrepareBuffer(|bytes| + sealOverhead);
      if !ok {
        return;
      }
      ghost var before := log;
      var wire := SealRecord(rtype, bytes);
      if wire.None? {
        return false;
      }
      LogGrows(before, log[|before|]);
      AppendRecord(wire.value, before);
    }

    /** The write buffer takes the record that was sealed last. */
    method AppendRecord(wire: seq<byte>, ghost before: seq<Sealed>)
      requires writeBuffer.Valid() && |wire| <= writeBuffer.cap - writeBuffer.size && pendingFlight.None?
      requires pendingFlightOffset == 0 && !wpendPending && maxSendFragment > 0
      requires sealOverhead >= SSL3_RT_HEADER_LENGTH
      requires InOrder(accepted, writeBuffer.Contents(), []) == WireBytes(before)
      requires WireBytes(log) == WireBytes(before) + wire
      modifies writeBuffer`size, writeBuffer.buf
      ensures Valid() && writeBuffer.size == old(writeBuffer.size) + |wire|
    {
      hide WireBytes, InOrder;
      BufferGrows(accepted, writeBuffer.Contents(), wire);
      writeBuffer.Append(wire);
    }

    /** A record of these bytes is going to be sealed, if the AEAD does not fail. */
    ghost predicate CanSeal(bytes: seq<byte>)
      requires Valid()
      reads this, writeBuffer, writeBuffer.buf
    {
      !wpendPending && writeBuffer.size == 0 && 0 < |bytes| <= SSL3_RT_MAX_PLAIN_LENGTH && HasRoom(bytes)
    }

    /** The AEAD is bound to fail next. */
    predicate SealFails()
      reads this`seals
    {
      seals != [] && !seals[0]
    }

    /** The AEAD is bound to seal, and the transport to take what it is given. */
    predicate AllGoesWell()
      reads this`seals, this`bio
    {
      seals != [] && seals[0] && bio != [] && bio[0]
    }

    /** Bytes are left in the write buffer that no pending record accounts for. */
    predicate Stranded()
      reads this, writeBuffer
    {
      !wpendPending && writeBuffer.size > 0
    }

    /** Seals one record behind everything that is waiting, unless a sealed one is still to be written. */
    method DoWrite(rtype: RecordType, bytes: seq<byte>, address: nat) returns (ret: int)
      requires Valid()
      modifies this`failures, this`accepted, this`log, this`seals, this`bio, this`pendingFlight
      modifies this`pendingFlightOffset
      modifies this`wpendPending, this`wpendTot, this`wpendBuf, this`wpendType, this`wpendRet
      modifies writeBuffer, writeBuffer.buf
      ensures Valid() && old(accepted) <= accepted && (ret > 0 ==> writeBuffer.Contents() == [])
      ensures writeBuffer.buf == old(writeBuffer.buf) || writeBuffer.buf == null || fresh(writeBuffer.buf)
      ensures old(wpendPending) ==> log == old(log)
      ensures old(wpendPending) && old(wpendType) != rtype ==> ret == -1 && unchanged(this, writeBuffer)
      ensures old(wpendPending) && ret > 0 ==>
                !wpendPending && ret == old(wpendRet) <= |bytes| && old(wpendType) == rtype
      ensures old(wpendPending) && ret <= 0 ==>
                SamePending(old(wpendType), old(wpendTot), old(wpendBuf), old(wpendRet))
      ensures !old(wpendPending) && ret > 0 ==>
                !wpendPending && ret == |bytes| && SealedOne(old(log), log, rtype, bytes)
      ensures !old(wpendPending) && ret <= 0 ==>
                || (log == old(log) && !wpendPending)
                || (SealedOne(old(log), log, rtype, bytes) && SamePending(rtype, |bytes|, address, |bytes|))
      // It fails only where the bytes cannot be written and when the AEAD or the transport fails.
      ensures ret <= 0 <==> old(CannotWrite(rtype, bytes, address)) || failures > old(failures)
      ensures failures >= old(failures) && (ret > 0 ==> |Unsent()| <= |old(Unsent())|)
      // Too many bytes are an error, none are nothing to write.
      ensures !old(wpendPending) && |bytes| > 16384 ==> ret == -1 && unchanged(this, writeBuffer)
      ensures !old(wpendPending) && old(writeBuffer.size) == 0 && bytes == [] ==>
                ret == 0 && unchanged(this, writeBuffer)
      // Stranded bytes refuse every further record.
      ensures old(Stranded()) ==>
                ret == -1 && unchanged(this, writeBuffer) && writeBuffer.Contents() == old(writeBuffer.Contents())
      // A failing AEAD strands what was left of the flight.
      ensures old(CanSeal(bytes)) && old(SealFails()) ==>
                && ret == -1 && pendingFlight.None? && !wpendPending && writeBuffer.Contents() == old(Unsent())
                && accepted == old(accepted) && log == old(log) && seals == old(seals)[1..] && bio == old(bio)
      // An AEAD that seals and a transport that takes everything.
      ensures old(CanSeal(bytes)) && old(AllGoesWell()) ==>
                && ret == |bytes| && pendingFlight.None? && !wpendPending && writeBuffer.Contents() == []
                && seals == old(seals)[1..] && bio == old(bio)[1..]
    {
      hide WireBytes, InOrder, SealedOne;
      if wpendPending {
        ret := WritePending(rtype, |bytes|, address);
        return;
      }
      if |bytes| > SSL3_RT_MAX_PLAIN_LENGTH || writeBuffer.size > 0 {
        return -1;
      }
      if bytes == [] {
        return 0;
      }
      ret := SealAndWrite(rtype, bytes, address);
    }

    /** Seals the record and writes it, remembering the arguments for the case that the transport does not take it. */
    method SealAndWrite(rtype: RecordType, bytes: seq<byte>, address: nat) returns (ret: int)
      requires Valid() && !wpendPending && writeBuffer.size == 0 && 0 < |bytes| <= SSL3_RT_MAX_PLAIN_LENGTH
      modifies this`failures, this`accepted, this`log, this`seals, this`bio, this`pendingFlight
      modifies this`pendingFlightOffset
      modifies this`wpendPending, this`wpendTot, this`wpendBuf, this`wpendType, this`wpendRet
      modifies writeBuffer, writeBuffer.buf
      ensures Valid() && old(accepted) <= accepted && (ret > 0 ==> writeBuffer.Contents() == [])
      ensures writeBuffer.buf == old(writeBuffer.buf) || writeBuffer.buf == null || fresh(writeBuffer.buf)
      ensures ret <= 0 <==> !old(HasRoom(bytes)) || failures > old(failures)
      ensures failures >= old(failures) && (ret > 0 ==> pendingFlight.None?)
      ensures ret > 0 ==> !wpendPending && ret == |bytes| && SealedOne(old(log), log, rtype, bytes)
      ensures ret <= 0 ==>
                || (log == old(log) && !wpendPending)
                || (SealedOne(old(log), log, rtype, bytes) && SamePending(rtype, |bytes|, address, |bytes|))
      ensures old(HasRoom(bytes)) && old(SealFails()) ==>
                && ret == -1 && pendingFlight.None? && !wpendPending && writeBuffer.Contents() == old(Unsent())
                && accepted == old(accepted) && log == old(log) && seals == old(seals)[1..] && bio == old(bio)
      ensures old(HasRoom(bytes)) && old(AllGoesWell()) ==>
                && ret == |bytes| && pendingFlight.None? && !wpendPending && writeBuffer.Contents() == []
                && seals == old(seals)[1..] && bio == old(bio)[1..]
    {
      hide WireBytes, InOrder, SealedOne, SSLBuffer.Valid, HasRoom;
      var ok := SealIntoBuffer(rtype, bytes);
      if !ok {
        return -1;
      }
      ret := WriteSealed(rtype, |bytes|, address);
    }

    /** Remembers what the sealed record was for, and writes it. */
    method WriteSealed(rtype: RecordType, len: nat, address: nat) returns (ret: int)
      requires Valid() && !wpendPending && writeBuffer.size > 0 && len > 0
      modifies this`failures, this`accepted, this`bio
      modifies this`wpendPending, this`wpendTot, this`wpendBuf, this`wpendType, this`wpendRet, writeBuffer
      ensures Valid() && old(accepted) <= accepted && (ret > 0 ==> writeBuffer.Contents() == [])
      ensures writeBuffer.buf == old(writeBuffer.buf) || writeBuffer.buf == null
      ensures failures >= old(failures) && (ret <= 0 <==> failures > old(failures))
      ensures if ret > 0 then !wpendPending && ret == len else SamePending(rtype, len, address, len)
      ensures old(bio) != [] && old(bio)[0] ==> ret > 0 && bio == old(bio)[1..]
    {
      hide WireBytes, InOrder, SSLBuffer.Valid;
      wpendTot, wpendBuf, wpendType, wpendRet, wpendPending := len, address, rtype, len, true;
      ret := WritePending(rtype, len, address);
    }

    /** Since the application plaintext was `base`, exactly the first bytes of `data` have been sealed: those counted in
        `tot` and those owed. */
    ghost predicate SoFar(base: seq<byte>, data: seq<byte>, tot: nat)
      reads this
    {
      && tot + Owed() <= |data|
      && Plaintext(log, ApplicationData) == base + data[..tot + Owed()]
    }

    /** A write of `data` is under way, or about to begin. */
    ghost predicate InProgress(base: seq<byte>, data: seq<byte>)
      reads this
    {
      SoFar(base, data, wnum)
    }

    /** Nothing is pending but `left` in the write buffer, and the environment is bound to do this. */
    ghost predicate Idle(nextSeals: seq<bool>, nextBio: seq<bool>, left: seq<byte>)
      reads this, writeBuffer, writeBuffer.buf
    {
      && Valid() && !wpendPending && pendingFlight.None? && writeBuffer.Contents() == left
      && seals == nextSeals && bio == nextBio
    }

    /** Two records, of which the AEAD is bound to seal the first only: at the start, or behind the first. */
    ghost predicate OnScript(data: seq<byte>, s: seq<bool>, b: seq<bool>, tot: nat)
      reads this, writeBuffer, writeBuffer.buf
    {
      && [true, false] <= s && [true] <= b && !partialWrite
      && |data| == 2 * maxSendFragment && maxSendFragment <= SSL3_RT_MAX_PLAIN_LENGTH
      && maxSendFragment + sealOverhead <= MAX_CAP
      && if tot == 0 then Idle(s, b, []) else tot == maxSendFragment && Idle(s[1..], b[1..], [])
    }

    /** Writes one record of the data and remembers the position if that fails. */
    method WriteChunk(data: seq<byte>, address: nat, tot: nat, nw: nat, ghost base: seq<byte>, ghost whole: seq<byte>,
                      ghost s: seq<bool>, ghost b: seq<bool>)
      returns (ret: int)
      requires Valid() && tot + nw <= |data| && data <= whole
      modifies this`failures, this`accepted, this`log, this`seals, this`bio, this`pendingFlight
      modifies this`pendingFlightOffset, this`wnum
      modifies this`wpendPending, this`wpendTot, this`wpendBuf, this`wpendType, this`wpendRet
      modifies writeBuffer, writeBuffer.buf
      ensures Valid() && old(accepted) <= accepted
      ensures writeBuffer.buf == old(writeBuffer.buf) || writeBuffer.buf == null || fresh(writeBuffer.buf)
      ensures ret <= nw && (ret > 0 ==> !wpendPending) && wnum == if ret <= 0 then tot else old(wnum)
      ensures old(SoFar(base, whole, tot)) ==> SoFar(base, whole, if ret > 0 then tot + ret else tot)
      ensures failures >= old(failures) && SealedData(old(log), log, data[tot..tot + nw], ret)
      ensures old(CanWriteFrom(data, address, tot)) && nw == ChunkLength(|data| - tot) ==>
                || failures > old(failures)
                || (ret > 0 && (tot + ret < |data| ==> CanWriteFrom(data, address, tot + ret)))
      ensures old(AlertsExact()) && !writeShutdown ==> AlertsExact()
      ensures nw == maxSendFragment && old(OnScript(data, s, b, tot)) ==>
                if tot == 0 then ret == nw && OnScript(data, s, b, nw) else ret == -1 && Idle(s[2..], b[1..], [])
    {
      hide WireBytes, InOrder, Plaintext, SSLBuffer.Valid, SoFar, AlertsExact, CannotWrite, CanWriteFrom, FragmentFits,
           SealedData;
      ghost var left, ready := |Unsent()|, CanWriteFrom(data, address, tot) && nw == ChunkLength(|data| - tot);
      if ready {
        ChunkIsWritable(data, address, tot, nw);
      }
      assert data[tot..tot + nw] == whole[tot..tot + nw];
      ret := WriteRecord(data[tot..tot + nw], address + tot, tot, base, whole);
      if ready && ret > 0 && tot + ret < |data| {
        NextIsWritable(data, address, tot + ret, left);
      }
    }

    /** Writes one record, the bytes of `whole` from position `tot` on. */
    method WriteRecord(bytes: seq<byte>, address: nat, tot: nat, ghost base: seq<byte>, ghost whole: seq<byte>)
      returns (ret: int)
      requires Valid() && tot + |bytes| <= |whole| && bytes == whole[tot..tot + |bytes|]
      modifies this`failures, this`accepted, this`log, this`seals, this`bio, this`pendingFlight
      modifies this`pendingFlightOffset
      modifies this`wnum, this`wpendPending, this`wpendTot, this`wpendBuf, this`wpendType, this`wpendRet
      modifies writeBuffer, writeBuffer.buf
      ensures Valid() && old(accepted) <= accepted
      ensures writeBuffer.buf == old(writeBuffer.buf) || writeBuffer.buf == null || fresh(writeBuffer.buf)
      ensures ret <= |bytes| && (ret > 0 ==> !wpendPending) && wnum == if ret <= 0 then tot else old(wnum)
      ensures old(SoFar(base, whole, tot)) ==> SoFar(base, whole, if ret > 0 then tot + ret else tot)
      ensures old(AlertsExact()) && !writeShutdown ==> AlertsExact()
      ensures ret <= 0 ==> old(CannotWrite(ApplicationData, bytes, address)) || failures > old(failures)
      ensures failures >= old(failures) && SealedData(old(log), log, bytes, ret)
      ensures ret > 0 ==> writeBuffer.Contents() == [] && |Unsent()| <= |old(Unsent())|
      ensures old(CanSeal(bytes)) && old(SealFails()) ==>
                && ret == -1 && pendingFlight.None? && !wpendPending && writeBuffer.Contents() == old(Unsent())
                && seals == old(seals)[1..] && bio == old(bio)
      ensures old(CanSeal(bytes)) && old(AllGoesWell()) ==>
                && ret == |bytes| && pendingFlight.None? && seals == old(seals)[1..] && bio == old(bio)[1..]
    {
      hide WireBytes, InOrder, Plaintext, SealedOne, SSLBuffer.Valid, CannotWrite, CanSeal;
      ghost var before := log;
      ret := DoWrite(ApplicationData, bytes, address);
      SealedPrefix(before, log, base, whole, tot, |bytes|);
      SealedNoAlert(before, log, bytes);
      if ret <= 0 {
        wnum := tot;
      }
    }

    /** The fragment length fits a record and the buffer behind `unsent` bytes of the flight. */
    predicate FragmentFits(unsent: nat)
      reads this`maxSendFragment
    {
      maxSendFragment <= SSL3_RT_MAX_PLAIN_LENGTH && maxSendFragment + sealOverhead + unsent <= MAX_CAP
    }

    function ChunkLength(left: int): int
      reads this`maxSendFragment
    {
      if left > maxSendFragment then maxSendFragment else left
    }

    /** Nothing stands in the way of the data from position `tot` on: a record that is waiting is repeated, every
        further one has room. */
    ghost predicate CanWriteFrom(data: seq<byte>, address: nat, tot: nat)
      requires Valid()
      reads this, writeBuffer, writeBuffer.buf
    {
      && tot < |data| && FragmentFits(|Unsent()|)
      && if wpendPending then
           !BadRetry(ApplicationData, ChunkLength(|data| - tot), address + tot)
         else writeBuffer.size == 0
    }

    lemma ChunkIsWritable(data: seq<byte>, address: nat, tot: nat, nw: nat)
      requires Valid() && CanWriteFrom(data, address, tot)
      requires nw == ChunkLength(|data| - tot)
      ensures !CannotWrite(ApplicationData, data[tot..tot + nw], address + tot) && FragmentFits(|Unsent()|)
    {
    }

    lemma NextIsWritable(data: seq<byte>, address: nat, tot: nat, left: nat)
      requires Valid() && !wpendPending && writeBuffer.Contents() == [] && tot < |data|
      requires FragmentFits(left) && |Unsent()| <= left
      ensures CanWriteFrom(data, address, tot)
    {
    }

    /** The data fills two records, and nothing is in their way. */
    ghost predicate TwoRecords(data: seq<byte>)
      requires Valid()
      reads this, writeBuffer, writeBuffer.buf
    {
      && !writeShutdown && !partialWrite && wnum == 0 && !wpendPending && pendingFlight.None? && writeBuffer.size == 0
      && |data| == 2 * maxSendFragment && maxSendFragment <= SSL3_RT_MAX_PLAIN_LENGTH
      && maxSendFragment + sealOverhead <= MAX_CAP
    }

    /** With the count back at zero the sealed bytes no longer match it. */
    lemma ForgetsProgress(base: seq<byte>, whole: seq<byte>, tot: nat)
      ensures SoFar(base, whole, tot) && wnum == 0 ==> (InProgress(base, whole) <==> tot == 0)
    {
      hide Plaintext;
      if SoFar(base, whole, tot) && wnum == 0 {
        assert |base + whole[..tot + Owed()]| == |base| + tot + Owed();
      }
    }

    /** Outside early data. `whole` is what the caller wants to write and `base` the application plaintext before the
        first attempt; `data` is all of it or less. A write that succeeds has sealed exactly the bytes it reports, once
        and in order. One that does not keeps its progress if and only if the connection is shut down or the call is not
        shorter than what has been written before: a shorter one is refused and forgets what it was told. */
    method WriteAppData(data: seq<byte>, address: nat, len: int, ghost base: seq<byte>, ghost whole: seq<byte>)
      returns (ret: int)
      requires Valid() && (len < 0 || len == |data|) && data <= whole
      modifies this`failures, this`accepted, this`log, this`seals, this`bio, this`pendingFlight
      modifies this`pendingFlightOffset, this`wnum
      modifies this`wpendPending, this`wpendTot, this`wpendBuf, this`wpendType, this`wpendRet
      modifies writeBuffer, writeBuffer.buf
      ensures Valid() && old(accepted) <= accepted
      ensures writeBuffer.buf == old(writeBuffer.buf) || writeBuffer.buf == null || fresh(writeBuffer.buf)
      // Where nothing stands in the way, it fails only when the AEAD or the transport does.
      ensures old(CanWriteFrom(data, address, wnum)) && len >= 0 && !writeShutdown ==>
                ret > 0 || failures > old(failures)
      ensures failures >= old(failures)
      ensures Cuts(old(log), log, maxSendFragment)
      ensures partialWrite ==> |log| <= |old(log)| + 1
      ensures old(AlertsExact()) ==> AlertsExact()
      ensures writeShutdown ==> ret == -1 && unchanged(this, writeBuffer)
      ensures old(InProgress(base, whole)) && ret <= 0 ==>
                (InProgress(base, whole) <==> writeShutdown || old(wnum) <= len || old(wnum) == 0)
      ensures old(InProgress(base, whole)) && ret > 0 ==>
                && wnum == 0 && !wpendPending && ret <= |data| && (partialWrite || ret == |data|)
                && Plaintext(log, ApplicationData) == base + whole[..ret]
      ensures len < old(wnum) && !writeShutdown ==>
                && ret == -1 && wnum == 0 && writeBuffer.Contents() == old(writeBuffer.Contents())
                && unchanged(`log, `accepted, `seals, `bio, `pendingFlight, `pendingFlightOffset, `wpendPending)
      // Two records, of which the AEAD seals the first only.
      ensures old(TwoRecords(data)) && len >= 0 && [true, false] <= old(seals) && [true] <= old(bio) ==>
                && ret == -1 && wnum == maxSendFragment && Idle(old(seals)[2..], old(bio)[1..], [])
    {
      hide WireBytes, InOrder, Plaintext;
      if writeShutdown {
        return -1;
      }
      var tot := wnum;
      wnum := 0;
      if len < 0 || len < tot {
        ForgetsProgress(base, whole, tot);
        return -1;
      }
      ret := WriteFrom(data, address, tot, base, whole);
    }

    /** The loop of a write: records of at most the fragment length from position `start` on. */
    method WriteFrom(data: seq<byte>, address: nat, start: nat, ghost base: seq<byte>, ghost whole: seq<byte>)
      returns (ret: int)
      requires Valid() && wnum == 0 && start <= |data| && data <= whole
      modifies this`failures, this`accepted, this`log, this`seals, this`bio, this`pendingFlight
      modifies this`pendingFlightOffset, this`wnum
      modifies this`wpendPending, this`wpendTot, this`wpendBuf, this`wpendType, this`wpendRet
      modifies writeBuffer, writeBuffer.buf
      ensures Valid() && old(accepted) <= accepted
      ensures writeBuffer.buf == old(writeBuffer.buf) || writeBuffer.buf == null || fresh(writeBuffer.buf)
      ensures old(CanWriteFrom(data, address, start)) ==> ret > 0 || failures > old(failures)
      ensures failures >= old(failures)
      ensures Cuts(old(log), log, maxSendFragment)
      ensures partialWrite ==> |log| <= |old(log)| + 1
      ensures old(AlertsExact()) && !writeShutdown ==> AlertsExact()
      ensures old(SoFar(base, whole, start)) && ret <= 0 ==> InProgress(base, whole)
      ensures old(SoFar(base, whole, start)) && ret > 0 ==>
                && wnum == 0 && !wpendPending && ret <= |data| && (partialWrite || ret == |data|)
                && Plaintext(log, ApplicationData) == base + whole[..ret]
      ensures old(TwoRecords(data)) && start == 0 && [true, false] <= old(seals) && [true] <= old(bio) ==>
                && ret == -1 && wnum == maxSendFragment && Idle(old(seals)[2..], old(bio)[1..], [])
    {
      hide WireBytes, InOrder, Plaintext, CanWriteFrom, CannotWrite, Unsent, Idle, OnScript, SSLBuffer.Valid,
           AlertsExact, SealedData, Cuts, CutsFull, SoFar, TwoRecords, Owed;
      ghost var s, b, was := seals, bio, log;
      CutsNothing(was, maxSendFragment);
      ghost var scripted := TwoRecords(data) && start == 0 && [true, false] <= s && [true] <= b;
      if scripted {
        IsOnScript(data);
      }
      var tot, n := start, |data| - start;
      while true
        invariant Valid() && wnum == 0 && 0 <= tot && tot + n == |data| && 0 <= n
        invariant old(accepted) <= accepted
        invariant writeBuffer.buf == old(writeBuffer.buf) || writeBuffer.buf == null || fresh(writeBuffer.buf)
        invariant failures >= old(failures) && (partialWrite ==> log == was)
        invariant CutsFull(was, log, maxSendFragment)
        invariant old(CanWriteFrom(data, address, start)) && failures == old(failures) ==>
                    CanWriteFrom(data, address, tot)
        invariant old(AlertsExact()) && !writeShutdown ==> AlertsExact()
        invariant old(SoFar(base, whole, start)) ==> SoFar(base, whole, tot)
        invariant scripted ==> OnScript(data, s, b, tot) && (tot == 0 || tot == maxSendFragment)
        decreases n
      {
        var nw := if n > maxSendFragment then maxSendFragment else n;
        ghost var before := log;
        ret := WriteChunk(data, address, tot, nw, base, whole, s, b);
        CutsMore(was, before, log, data[tot..tot + nw], ret, maxSendFragment);
        if ret <= 0 {
          return;
        }
        if ret == n || partialWrite {
          SealedSoFar(base, whole, tot + ret);
          ret := tot + ret;
          return;
        }
        n := n - ret;
        tot := tot + ret;
      }
    }

    lemma SealedSoFar(base: seq<byte>, data: seq<byte>, tot: nat)
      requires !wpendPending
      ensures SoFar(base, data, tot) ==> tot <= |data| && Plaintext(log, ApplicationData) == base + data[..tot]
    {
    }

    lemma IsOnScript(data: seq<byte>)
      requires Valid() && TwoRecords(data) && [true, false] <= seals && [true] <= bio
      ensures OnScript(data, seals, bio, 0)
    {
    }

    // --- Alerts ---------------------------------------------------------------------------------

    /** At most one alert is ever sealed: none before the connection is shut down, then the one that was asked for,
        from the moment its record is sealed, whatever refuses or delays it. */
    ghost predicate AlertsExact()
      reads this
    {
      && |sendAlert| == 2
      && if !writeShutdown then !alertDispatch && !AlertPending() && Plaintext(log, Alert) == []
         else
           && (AlertPending() ==> alertDispatch)
           && Plaintext(log, Alert) == if !alertDispatch || AlertPending() then sendAlert else []
    }

    /** The alert's record is sealed and still to be written. */
    ghost predicate AlertPending()
      reads this
    {
      wpendPending && wpendType == Alert
    }

    /** The write side is shut down while a record of another type is waiting. */
    ghost predicate AlertStuck()
      reads this
    {
      writeShutdown && wpendPending && wpendType != Alert
    }

    /** Shuts the write side down, and sends the alert unless something is still to be written. */
    method SendAlert(level: byte, description: byte, address: nat) returns (ret: int)
      requires Valid() && AlertsExact()
      modifies this`failures, this`accepted, this`flushed, this`flushes, this`log, this`seals, this`bio
      modifies this`pendingFlight, this`pendingFlightOffset
      modifies this`wpendPending, this`wpendTot, this`wpendBuf, this`wpendType, this`wpendRet
      modifies this`writeShutdown, this`alertDispatch, this`sendAlert, writeBuffer, writeBuffer.buf
      ensures Valid() && AlertsExact() && old(accepted) <= accepted
      ensures writeBuffer.buf == old(writeBuffer.buf) || writeBuffer.buf == null || fresh(writeBuffer.buf)
      ensures Plaintext(log, ApplicationData) == old(Plaintext(log, ApplicationData)) && Owed() == old(Owed())
      ensures ret <= 0 ==>
                || old(writeShutdown) || old(writeBuffer.size) > 0
                || old(CannotWrite(Alert, [level, description], address)) || failures > old(failures)
      ensures failures >= old(failures)
      ensures ret > 0 && level == SSL3_AL_FATAL ==> flushed == accepted || failures > old(failures)
      ensures writeShutdown && (old(writeShutdown) ==> ret == -1 && unchanged(this, writeBuffer))
      ensures old(writeBuffer.size) > 0 ==>
                ret == -1 && unchanged(`log, `accepted, `flushed, `pendingFlight, `wpendPending, writeBuffer)
      ensures !old(writeShutdown) ==>
                sendAlert == [level, description] && alertDispatch == (ret <= 0) && (ret > 0 ==> SentAlert(ret))
    {
      hide WireBytes, InOrder, Plaintext;
      if writeShutdown {
        return -1;
      }
      writeShutdown, alertDispatch, sendAlert := true, true, [level, description];
      if writeBuffer.size == 0 {
        ret := DispatchAlert(address);
      } else {
        ret := -1;
      }
    }

    /** The alert has been taken by the transport, which has been flushed if it is fatal. */
    ghost predicate SentAlert(ret: int)
      requires Valid() && |sendAlert| == 2
      reads this, writeBuffer, writeBuffer.buf
    {
      && ret == 1 && !alertDispatch && Plaintext(log, Alert) == sendAlert
      && writeBuffer.Contents() == []
    }

    /** Sends the alert that is waiting; it shares the write buffer and the pending record with application data. */
    method DispatchAlert(address: nat) returns (ret: int)
      requires Valid() && AlertsExact() && alertDispatch
      modifies this`failures, this`accepted, this`flushed, this`flushes, this`log, this`seals, this`bio
      modifies this`pendingFlight, this`pendingFlightOffset
      modifies this`wpendPending, this`wpendTot, this`wpendBuf, this`wpendType, this`wpendRet, this`alertDispatch
      modifies writeBuffer, writeBuffer.buf
      ensures Valid() && AlertsExact() && old(accepted) <= accepted
      ensures writeBuffer.buf == old(writeBuffer.buf) || writeBuffer.buf == null || fresh(writeBuffer.buf)
      ensures Plaintext(log, ApplicationData) == old(Plaintext(log, ApplicationData)) && Owed() == old(Owed())
      ensures ret <= 0 ==> old(CannotWrite(Alert, sendAlert, address)) || failures > old(failures)
      ensures failures >= old(failures)
      ensures ret > 0 && sendAlert[0] == SSL3_AL_FATAL ==> flushed == accepted || failures > old(failures)
      ensures alertDispatch == (ret <= 0) && (ret > 0 ==> SentAlert(ret))
      ensures ret <= 0 || sendAlert[0] != 2 ==> flushed == old(flushed)
      ensures old(wpendPending && wpendType != Alert) ==> ret == -1 && unchanged(this, writeBuffer)
    {
      hide WireBytes, InOrder, Plaintext, CannotWrite;
      ret := WriteAlert(address);
      if ret > 0 {
        AlertIsWritten();
        ret := 1;
      }
    }

    /** The alert has been dispatched; behind a fatal one the transport is flushed. */
    method AlertIsWritten()
      requires Valid() && !wpendPending && writeBuffer.Contents() == []
      requires writeShutdown && |sendAlert| == 2 && Plaintext(log, Alert) == sendAlert
      modifies this`failures, this`flushed, this`flushes, this`alertDispatch
      ensures Valid() && AlertsExact() && !alertDispatch && SentAlert(1) && failures >= old(failures)
      ensures if sendAlert[0] == SSL3_AL_FATAL then flushed == accepted || failures > old(failures)
              else flushed == old(flushed)
    {
      hide WireBytes, InOrder, Plaintext;
      alertDispatch := false;
      if sendAlert[0] == SSL3_AL_FATAL {
        var _ := BioFlush();
      }
    }

    /** Writes the record of the alert, sealing it first unless that has been done. */
    method WriteAlert(address: nat) returns (ret: int)
      requires Valid() && AlertsExact() && alertDispatch
      modifies this`failures, this`accepted, this`log, this`seals, this`bio, this`pendingFlight
      modifies this`pendingFlightOffset
      modifies this`wpendPending, this`wpendTot, this`wpendBuf, this`wpendType, this`wpendRet
      modifies writeBuffer, writeBuffer.buf
      ensures Valid() && old(accepted) <= accepted && (ret > 0 ==> !wpendPending && writeBuffer.Contents() == [])
      ensures writeBuffer.buf == old(writeBuffer.buf) || writeBuffer.buf == null || fresh(writeBuffer.buf)
      ensures Plaintext(log, ApplicationData) == old(Plaintext(log, ApplicationData)) && Owed() == old(Owed())
      ensures ret <= 0 <==> old(CannotWrite(Alert, sendAlert, address)) || failures > old(failures)
      ensures failures >= old(failures)
      ensures Plaintext(log, Alert) == if ret > 0 || AlertPending() then sendAlert else []
      ensures old(wpendPending && wpendType != Alert) ==> ret == -1 && unchanged(this, writeBuffer)
    {
      hide WireBytes, InOrder, Plaintext, Valid, SealedOne;
      ghost var l := log;
      ret := DoWrite(Alert, sendAlert, address);
      SealedAlert(l, log, sendAlert);
    }
  }

  // --- Every interleaving -----------------------------------------------------------------------

  datatype Operation = Retry | Flush | Message(msg: seq<byte>) | Ccs | SendAlert(level: byte, description: byte) |
    DispatchAlert

  /** What comes between two attempts of a write leaves its progress as it is. */
  method Interleave(c: Connection, op: Operation, address: nat)
    requires c.Valid() && c.AlertsExact()
    modifies c, c.writeBuffer, c.writeBuffer.buf
    ensures c.Valid() && c.AlertsExact() && old(c.accepted) <= c.accepted
    ensures c.writeBuffer.buf == old(c.writeBuffer.buf) || c.writeBuffer.buf == null || fresh(c.writeBuffer.buf)
    ensures Plaintext(c.log, ApplicationData) == old(Plaintext(c.log, ApplicationData))
    ensures c.Owed() == old(c.Owed()) && c.wnum == old(c.wnum)
    ensures old(c.writeShutdown) ==> c.writeShutdown && c.sendAlert == old(c.sendAlert)
    ensures old(c.AlertStuck()) ==> c.AlertStuck() && c.accepted == old(c.accepted)
  {
    hide WireBytes, InOrder, Plaintext, SealedOne, Carries;
    match op
    case Retry =>
    case Flush => var _ := c.FlushFlight();
    case Message(msg) => if c.pendingFlightOffset == 0 { var _ := c.AddMessage(msg); }
    case Ccs => if c.pendingFlightOffset == 0 { var _ := c.AddChangeCipherSpec(); }
    case SendAlert(level, description) => var _ := c.SendAlert(level, description, address);
    case DispatchAlert => if c.alertDispatch { var _ := c.DispatchAlert(address); }
  }

  /** An application write retried on any schedule, with handshake messages, flushes and alerts in between and any
      behaviour of the transport and the AEAD: when it finally reports n bytes, exactly the first n bytes of the data
      have been sealed as application data, and until then exactly the bytes it remembers. At most one alert has been
      sealed. */
  method WriteOnSchedule(c: Connection, data: seq<byte>, address: nat, schedule: seq<Operation>) returns (ret: int)
    requires c.Valid() && c.AlertsExact() && c.wnum == 0 && c.Owed() == 0
    modifies c, c.writeBuffer, c.writeBuffer.buf
    ensures c.Valid() && c.AlertsExact() && old(c.accepted) <= c.accepted
    ensures ret > 0 ==>
              ret <= |data| && Plaintext(c.log, ApplicationData) == old(Plaintext(c.log, ApplicationData)) + data[..ret]
    ensures ret <= 0 ==> c.InProgress(old(Plaintext(c.log, ApplicationData)), data)
  {
    hide WireBytes, InOrder, Plaintext, SealedOne, Carries;
    ghost var base := Plaintext(c.log, ApplicationData);
    assert base + data[..0] == base;
    ret := 0;
    var i := 0;
    while i < |schedule|
      invariant c.Valid() && c.AlertsExact() && old(c.accepted) <= c.accepted && ret <= 0
      invariant c.writeBuffer.buf == old(c.writeBuffer.buf) || c.writeBuffer.buf == null || fresh(c.writeBuffer.buf)
      invariant c.InProgress(base, data)
      decreases |schedule| - i
    {
      if schedule[i] == Retry {
        ret := c.WriteAppData(data, address, |data|, base, data);
        if ret > 0 {
          return;
        }
      } else {
        Interleave(c, schedule[i], address);
      }
      i := i + 1;
    }
  }

  // --- Two runs that go wrong -------------------------------------------------------------------

  /** A flight is pending, the AEAD fails on the record written behind it, and the flush that follows reports success:
      nothing has reached the transport, and the flight's bytes lie stranded in the write buffer. */
  method FlushWithoutWriting(b: byte) returns (c: Connection, write: int, flush: int)
    ensures fresh(c) && c.Valid() && c.Stranded()
    ensures write == -1 && flush == 1 && c.accepted == [] && c.accepted != WireBytes(c.log)
  {
    hide WireBytes, InOrder, Plaintext;
    c := new Connection(SSL3_RT_HEADER_LENGTH, SSL3_RT_MAX_PLAIN_LENGTH, [true, false], []);
    var ok := c.AddChangeCipherSpec();
    assert ok && c.CanSeal([b]);
    write := c.DoWrite(ApplicationData, [b], 0);
    flush := c.FlushFlight();
  }

  /** Stranded bytes refuse every further record, application data and alerts alike. */
  method StrandedRefuses(c: Connection, writes: seq<(RecordType, seq<byte>)>) returns (results: seq<int>)
    requires c.Valid() && c.Stranded()
    modifies c, c.writeBuffer, c.writeBuffer.buf
    ensures c.Valid() && c.Stranded() && c.accepted == old(c.accepted) && c.log == old(c.log)
    ensures c.writeBuffer.Contents() == old(c.writeBuffer.Contents())
    ensures |results| == |writes| && forall i :: 0 <= i < |results| ==> results[i] == -1
  {
    hide WireBytes, InOrder, Plaintext, SealedOne;
    results := [];
    for i := 0 to |writes|
      invariant c.Valid() && c.Stranded() && unchanged(c, c.writeBuffer)
      invariant c.writeBuffer.Contents() == old(c.writeBuffer.Contents())
      invariant |results| == i && forall j :: 0 <= j < i ==> results[j] == -1
    {
      var ret := c.DoWrite(writes[i].0, writes[i].1, 0);
      results := results + [ret];
    }
  }

  /** Only a new flight drains them: when it has been flushed, everything sealed has been taken. */
  method NewFlightDrains(c: Connection, msg: seq<byte>) returns (ok: bool, ret: int)
    requires c.Valid() && c.Stranded() && c.pendingFlightOffset == 0
    modifies c, c.writeBuffer
    ensures c.Valid() && old(c.accepted) <= c.accepted
    ensures ok && ret > 0 ==> !c.Stranded() && c.accepted == WireBytes(c.log)
    // It is flushed unless the AEAD or the transport fails, the connection is shut down, or the flight is too long.
    ensures (ok && ret > 0) || c.failures > old(c.failures) || c.CannotFlush()
  {
    hide WireBytes, InOrder, Plaintext, Carries;
    ret := -1;
    ok := c.AddMessage(msg);
    if ok {
      ret := c.FlushFlight();
    }
  }

  /** An alert asked for while a record of another type is waiting never leaves: from then on the transport is given
      nothing, whatever is tried and however often. */
  method AlertNeverLeaves(c: Connection, data: seq<byte>, address: nat, schedule: seq<Operation>)
    requires c.Valid() && c.AlertsExact() && c.AlertStuck()
    modifies c, c.writeBuffer, c.writeBuffer.buf
    ensures c.Valid() && c.AlertsExact() && c.AlertStuck() && c.accepted == old(c.accepted)
  {
    hide WireBytes, InOrder, Plaintext;
    for i := 0 to |schedule|
      invariant c.Valid() && c.AlertsExact() && c.AlertStuck() && c.accepted == old(c.accepted)
      invariant c.writeBuffer.buf == old(c.writeBuffer.buf) || c.writeBuffer.buf == null || fresh(c.writeBuffer.buf)
    {
      if schedule[i] == Retry {
        var ret := c.WriteAppData(data, address, |data|, [], data);
        assert ret == -1;
      } else {
        Interleave(c, schedule[i], address);
      }
    }
  }

  /** A write whose second record the AEAD refuses, a shorter repetition, and the whole write again: the caller has been
      told of no byte, and the first half of the data has been sealed twice. */
  method ShorterRetrySealsTwice(data: seq<byte>) returns (c: Connection, results: seq<int>)
    requires 0 < |data| <= 2 * SSL3_RT_MAX_PLAIN_LENGTH && |data| % 2 == 0
    ensures fresh(c) && c.Valid() && results == [-1, -1, -1]
    ensures Plaintext(c.log, ApplicationData) == data[..|data| / 2] + data[..|data| / 2]
  {
    hide WireBytes, InOrder, Plaintext, SSLBuffer.Valid, Connection.AlertsExact;
    var half := |data| / 2;
    var first;
    c, first := WriteFirstHalf(data);
    var short := c.WriteAppData(data[..half - 1], 0, half - 1, [], data);
    ghost var sealed := Plaintext(c.log, ApplicationData);
    assert sealed + data[..0] == sealed;
    var again := c.WriteAppData(data, 0, |data|, sealed, data);
    results := [first, short, again];
  }

  /** The first of these writes; the AEAD and the transport are bound to repeat for the third what they do for it. */
  method WriteFirstHalf(data: seq<byte>) returns (c: Connection, ret: int)
    requires 0 < |data| <= 2 * SSL3_RT_MAX_PLAIN_LENGTH && |data| % 2 == 0
    ensures fresh(c) && fresh(c.writeBuffer) && (c.writeBuffer.buf == null || fresh(c.writeBuffer.buf))
    ensures ret == -1 && c.wnum == |data| / 2 && c.Idle([true, false], [true], [])
    ensures !c.writeShutdown && !c.partialWrite && c.maxSendFragment == |data| / 2
    ensures c.sealOverhead == SSL3_RT_HEADER_LENGTH
    ensures c.InProgress([], data) && Plaintext(c.log, ApplicationData) == data[..|data| / 2]
  {
    hide WireBytes, InOrder, Plaintext, SSLBuffer.Valid, Connection.AlertsExact;
    c := new Connection(SSL3_RT_HEADER_LENGTH, |data| / 2, [true, false, true, false], [true, true]);
    assert Plaintext(c.log, ApplicationData) == [] by { NothingSealed(); }
    assert [] + data[..0] == [];
    ret := c.WriteAppData(data, 0, |data|, [], data);
  }

  lemma NothingSealed()
    ensures Plaintext([], ApplicationData) == []
  {
  }
}
