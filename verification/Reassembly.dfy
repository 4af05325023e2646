/** An incoming handshake message under reassembly: its bytes and the bit mask of those received so far. */
module Reassembly {
  import opened Bytes
  import opened HandshakeFragment

  /** Bits `start`, inclusive, to `end`, exclusive, of a byte: 32-bit arithmetic truncated to 8 bits. */
  function BitRange(start: nat, end: nat): bv8
    requires start <= 8 && end <= 8
  {
    (!(((1 as bv32) << start) - 1) & (((1 as bv32) << end) - 1) & 0xff) as bv8
  }

  predicate Bit(b: bv8, k: nat)
    requires k < 8
  {
    b & ((1 as bv8) << k) != 0
  }

  lemma BitOfRange(start: nat, end: nat, k: nat)
    requires start <= 8 && end <= 8 && k < 8
    ensures Bit(BitRange(start, end), k) <==> start <= k < end
  {
  }

  lemma BitOfOr(a: bv8, b: bv8, k: nat)
    requires k < 8
    ensures Bit(a | b, k) <==> Bit(a, k) || Bit(b, k)
  {
  }

  lemma BitOfConstants(k: nat)
    requires k < 8
    ensures Bit(0xff, k) && !Bit(0, k)
  {
  }

  /** Two bytes with the same bits are the same byte. */
  lemma SameBits(a: bv8, b: bv8)
    requires forall k: nat :: k < 8 ==> (Bit(a, k) <==> Bit(b, k))
    ensures a == b
  {
    assert Bit(a, 0) <==> Bit(b, 0);
    assert Bit(a, 1) <==> Bit(b, 1);
    assert Bit(a, 2) <==> Bit(b, 2);
    assert Bit(a, 3) <==> Bit(b, 3);
    assert Bit(a, 4) <==> Bit(b, 4);
    assert Bit(a, 5) <==> Bit(b, 5);
    assert Bit(a, 6) <==> Bit(b, 6);
    assert Bit(a, 7) <==> Bit(b, 7);
  }

  /** The positions `start`, inclusive, to `end`, exclusive. */
  function Range(start: nat, end: nat): (r: set<nat>)
    ensures forall p: nat :: p in r <==> start <= p < end
    decreases end - start
  {
    if start >= end then {} else {start} + Range(start + 1, end)
  }

  /** Bit `k` of byte `j` stands for position 8j + k. */
  predicate Has(got: set<nat>, j: nat, k: nat) {
    8 * j + k in got
  }

  /** Byte `j` of the mask has exactly the bits of the positions in `got`. */
  ghost predicate ByteShows(b: bv8, j: nat, got: set<nat>) {
    forall k: nat :: k < 8 ==> (Bit(b, k) <==> Has(got, j, k))
  }

  ghost predicate MaskShows(mask: seq<bv8>, got: set<nat>) {
    forall j: nat :: j < |mask| ==> ByteShows(mask[j], j, got)
  }

  /** Or-ing bits start..end into byte `j` adds exactly the positions 8j + start to 8j + end. */
  lemma OrShows(b: bv8, j: nat, got: set<nat>, start: nat, end: nat, more: set<nat>)
    requires start <= 8 && end <= 8 && ByteShows(b, j, got)
    requires forall k: nat :: k < 8 ==> (Has(more, j, k) <==> start <= k < end)
    ensures ByteShows(b | BitRange(start, end), j, got + more)
  {
    forall k: nat | k < 8 ensures Bit(b | BitRange(start, end), k) <==> Has(got + more, j, k) {
      BitOfOr(b, BitRange(start, end), k);
      BitOfRange(start, end, k);
      assert Has(more, j, k) <==> start <= k < end;
      assert Bit(b, k) <==> Has(got, j, k);
    }
  }

  lemma OnesShow(j: nat, got: set<nat>, more: set<nat>)
    requires forall k: nat :: k < 8 ==> Has(more, j, k)
    ensures ByteShows(0xff, j, got + more)
  {
    forall k: nat | k < 8 ensures Bit(0xff, k) && Has(got + more, j, k) {
      BitOfConstants(k);
      assert Has(more, j, k);
    }
  }

  /** A byte equals bits 0..end exactly when, of its eight positions, the first `end` and no other are received. */
  lemma FullByte(b: bv8, j: nat, got: set<nat>, end: nat)
    requires end <= 8 && ByteShows(b, j, got)
    ensures b == BitRange(0, end) <==> forall k: nat :: k < 8 ==> (Has(got, j, k) <==> k < end)
  {
    forall k: nat | k < 8 ensures Bit(BitRange(0, end), k) <==> k < end {
      BitOfRange(0, end, k);
    }
    if forall k: nat :: k < 8 ==> (Has(got, j, k) <==> k < end) {
      forall k: nat | k < 8 ensures Bit(b, k) <==> Bit(BitRange(0, end), k) {
        assert Has(got, j, k) <==> k < end;
      }
      SameBits(b, BitRange(0, end));
    }
  }

  /** The whole-mask test made after each mark decides whether every position is covered. */
  lemma FullMask(mask: seq<bv8>, got: set<nat>, msgLen: nat)
    requires |mask| == (msgLen + 7) / 8 && MaskShows(mask, got) && got <= Range(0, msgLen)
    ensures got == Range(0, msgLen) <==>
            && (forall j: nat :: j < msgLen / 8 ==> mask[j] == 0xff)
            && (msgLen % 8 != 0 ==> mask[msgLen / 8] == BitRange(0, msgLen % 8))
  {
    forall j: nat | j < |mask|
      ensures j < msgLen / 8 ==> (mask[j] == 0xff <==> forall k: nat :: k < 8 ==> Has(got, j, k))
      ensures j == msgLen / 8 ==> (mask[j] == BitRange(0, msgLen % 8) <==>
                                   forall k: nat :: k < 8 ==> (Has(got, j, k) <==> k < msgLen % 8))
    {
      assert BitRange(0, 8) == 0xff;
      FullByte(mask[j], j, got, 8);
      FullByte(mask[j], j, got, msgLen % 8);
    }
    forall p: nat | p < msgLen
      ensures 8 * (p / 8) + p % 8 == p && p / 8 < |mask|
    {
    }
    if && (forall j: nat :: j < msgLen / 8 ==> mask[j] == 0xff)
       && (msgLen % 8 != 0 ==> mask[msgLen / 8] == BitRange(0, msgLen % 8))
    {
      forall p: nat | p < msgLen ensures p in got {
        var j, k := p / 8, p % 8;
        assert 8 * j + k == p;
        assert j < msgLen / 8 || (j == msgLen / 8 && k < msgLen % 8);
        assert j < msgLen / 8 ==> mask[j] == 0xff;
        assert mask[j] == mask[j] && Has(got, j, k);
      }
    }
  }

  class HmFragment {
    const typ: byte
    const seqNo: uint16
    const msgLen: uint24
    const data: array<byte>
    /** Null once every byte has been received. */
    var reassembly: array?<bv8>
    /** The positions of the body covered so far. */
    ghost var received: set<nat>
    ghost const repr: set<object>

    ghost predicate Valid()
      reads this, repr
    {
      && this in repr && data in repr && (reassembly != null ==> reassembly in repr)
      && data.Length == HEADER_LENGTH + msgLen
      && data[..HEADER_LENGTH] == Header(typ, msgLen, seqNo, 0, msgLen)
      && received <= Range(0, msgLen)
      && (reassembly == null <==> received == Range(0, msgLen))
      && (reassembly != null ==>
            reassembly.Length == (msgLen + 7) / 8 && MaskShows(reassembly[..], received))
    }

    constructor (typ: byte, seqNo: uint16, msgLen: uint24)
      ensures Valid() && fresh(repr)
      ensures this.typ == typ && this.seqNo == seqNo && this.msgLen == msgLen && received == {}
    {
      this.typ, this.seqNo, this.msgLen := typ, seqNo, msgLen;
      var header := Header(typ, msgLen, seqNo, 0, msgLen);
      var d := new byte[HEADER_LENGTH + msgLen];
      for i := 0 to HEADER_LENGTH
        invariant d[..i] == header[..i]
      {
        d[i] := header[i];
      }
      data := d;
      received := {};
      ghost var owned: set<object> := {d};
      reassembly := null;
      var mask: array?<bv8> := null;
      if msgLen > 0 {
        var zeros := new bv8[(msgLen + 7) / 8](_ => 0);
        owned := owned + {zeros};
        mask := zeros;
      }
      reassembly := mask;
      repr := {this} + owned;
      new;
      if reassembly != null {
        assert 0 in Range(0, msgLen);
        forall j: nat | j < reassembly.Length ensures ByteShows(reassembly[..][j], j, {}) {
          forall k: nat | k < 8 ensures !Bit(0, k) {
            BitOfConstants(k);
          }
        }
      }
    }

    /** The body of the message as far as it is known; the bytes at other positions mean nothing. */
    ghost function Body(): (r: seq<byte>)
      reads this, repr
      requires Valid()
      ensures |r| == msgLen
    {
      data[HEADER_LENGTH..]
    }

    /** Copies `body` to position `off` of the message and marks it. */
    method CopyIn(off: nat, body: seq<byte>)
      requires Valid() && reassembly != null && off + |body| <= msgLen
      modifies this, data, reassembly
      ensures Valid() && received == old(received) + Range(off, off + |body|)
      ensures Body() == old(Body())[..off] + body + old(Body())[off + |body|..]
    {
      CopyBytes(off, body);
      Mark(off, off + |body|);
    }

    method CopyBytes(off: nat, body: seq<byte>)
      requires Valid() && off + |body| <= msgLen
      modifies data
      ensures Valid() && Body() == old(Body())[..off] + body + old(Body())[off + |body|..]
    {
      ghost var was := Body();
      for i := 0 to |body|
        invariant Valid() && Body() == was[..off] + body[..i] + was[off + i..]
      {
        data[HEADER_LENGTH + off + i] := body[i];
        assert data[..HEADER_LENGTH] == old(data[..HEADER_LENGTH]);
      }
    }

    /** Marks bytes `start`, inclusive, to `end`, exclusive, as received. */
    method Mark(start: nat, end: nat)
      requires Valid() && reassembly != null && start <= end <= msgLen
      modifies this, reassembly
      ensures Valid() && data[..] == old(data[..])
      ensures received == old(received) + Range(start, end)
    {
      if start == end {
        assert Range(start, end) == {};
        return;
      }
      ghost var was := reassembly[..];
      MarkBits(reassembly, start, end);
      forall j: nat | j < |was| ensures ByteShows(reassembly[..][j], j, received + Range(start, end)) {
        MarkedByteShows(was[j], j, received, start / 8, start % 8, end / 8, end % 8);
      }
      received := received + Range(start, end);
      var full := IsFull(reassembly, msgLen);
      FullMask(reassembly[..], received, msgLen);
      if full {
        reassembly := null;
      }
    }
  }

  /** What marking positions 8 * first + s to 8 * last + e makes of byte `j` of the mask. */
  function MarkedByte(b: bv8, j: nat, first: nat, s: nat, last: nat, e: nat): bv8
    requires s < 8 && e < 8
  {
    if j == first then
      b | BitRange(s, if first == last then e else 8)
    else if first < j < last then
      0xff
    else if j == last && first < last && e != 0 then
      b | BitRange(0, e)
    else
      b
  }

  lemma MarkedByteShows(b: bv8, j: nat, got: set<nat>, first: nat, s: nat, last: nat, e: nat)
    requires ByteShows(b, j, got) && s < 8 && e < 8 && 8 * first + s < 8 * last + e
    ensures ByteShows(MarkedByte(b, j, first, s, last, e), j, got + Range(8 * first + s, 8 * last + e))
  {
    hide BitRange, Has, ByteShows, Range;
    var more := Range(8 * first + s, 8 * last + e);
    RangeInByte(j, more, first, s, last, e);
    if j == first {
      OrShows(b, j, got, s, if first == last then e else 8, more);
    } else if first < j < last {
      OnesShow(j, got, more);
    } else if j == last && first < last && e != 0 {
      OrShows(b, j, got, 0, e, more);
    } else {
      NoneShow(b, j, got, more);
    }
  }

  /** The positions of a range that lie in byte `j`. */
  lemma RangeInByte(j: nat, more: set<nat>, first: nat, s: nat, last: nat, e: nat)
    requires s < 8 && e < 8 && more == Range(8 * first + s, 8 * last + e)
    ensures forall k: nat :: k < 8 ==>
              (Has(more, j, k) <==>
               (if j == first then s <= k else first < j) && (if j == last then k < e else j < last))
  {
  }

  lemma NoneShow(b: bv8, j: nat, got: set<nat>, more: set<nat>)
    requires ByteShows(b, j, got) && forall k: nat :: k < 8 ==> !Has(more, j, k)
    ensures ByteShows(b, j, got + more)
  {
    forall k: nat | k < 8 ensures Bit(b, k) <==> Has(got + more, j, k) {
      assert !Has(more, j, k);
      assert Bit(b, k) <==> Has(got, j, k);
    }
  }

  method MarkBits(mask: array<bv8>, start: nat, end: nat)
    requires start < end <= 8 * mask.Length
    modifies mask
    ensures forall j: nat :: j < mask.Length ==>
              mask[j] == MarkedByte(old(mask[j]), j, start / 8, start % 8, end / 8, end % 8)
  {
    hide BitRange;
    var first, s, last, e := start / 8, start % 8, end / 8, end % 8;
    if first == last {
      mask[first] := mask[first] | BitRange(s, e);
    } else {
      MarkAcross(mask, first, s, last, e);
    }
  }

  /** The same from one byte into a later one. */
  method MarkAcross(mask: array<bv8>, first: nat, s: nat, last: nat, e: nat)
    requires s < 8 && e < 8 && first < last <= mask.Length && (last == mask.Length ==> e == 0)
    modifies mask
    ensures forall j: nat :: j < mask.Length ==> mask[j] == MarkedByte(old(mask[j]), j, first, s, last, e)
  {
    hide BitRange;
    mask[first] := mask[first] | BitRange(s, 8);
    for i := first + 1 to last
      invariant forall j: nat :: first < j < i ==> mask[j] == 0xff
      invariant forall j: nat :: j < mask.Length && (j < first || j >= i) ==> mask[j] == old(mask[j])
      invariant mask[first] == old(mask[first]) | BitRange(s, 8)
    {
      mask[i] := 0xff;
    }
    if e != 0 {
      mask[last] := mask[last] | BitRange(0, e);
    }
  }

  method IsFull(mask: array<bv8>, msgLen: nat) returns (full: bool)
    requires mask.Length == (msgLen + 7) / 8
    ensures full <==>
            && (forall j: nat :: j < msgLen / 8 ==> mask[j] == 0xff)
            && (msgLen % 8 != 0 ==> mask[msgLen / 8] == BitRange(0, msgLen % 8))
  {
    for i := 0 to msgLen / 8
      invariant forall j: nat :: j < i ==> mask[j] == 0xff
    {
      if mask[i] != 0xff {
        return false;
      }
    }
    full := msgLen % 8 == 0 || mask[msgLen / 8] == BitRange(0, msgLen % 8);
  }
}
