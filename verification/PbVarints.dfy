/** What the two varint decoders make of any bytes, whether an encoder wrote them or not. */
module PbVarints {
  import opened Bits
  import opened Bytes
  import opened PbWire

  // --- Varints ----------------------------------------------------------------------------------

  /** The first byte without the continuation bit is byte `i`. */
  ghost predicate EndsAt(bs: seq<byte>, i: nat) {
    i < |bs| && bs[i] < 0x80 && forall k :: 0 <= k < i ==> bs[k] >= 0x80
  }

  /** The first `n` groups of seven bits, least significant first. */
  ghost function GroupsOf(bs: seq<byte>, n: nat): nat
    requires n <= |bs|
    decreases n
  {
    if n == 0 then 0 else bs[0] % 0x80 + 0x80 * GroupsOf(bs[1..], n - 1)
  }

  lemma EndsLater(bs: seq<byte>, i: nat)
    requires EndsAt(bs, i)
    ensures i < |bs| && (bs[0] >= 0x80 <==> i > 0)
    ensures i > 0 ==> EndsAt(bs[1..], i - 1) && bs[i + 1..] == bs[1..][i..]
  {
  }

  lemma ModOfGroup(low: nat, high: nat, room: nat)
    requires low < 0x80 && room > 0
    ensures (low + 0x80 * high) % (0x80 * room) == low + 0x80 * (high % room)
  {
    var q, r := high / room, high % room;
    assert high == room * q + r;
    assert low + 0x80 * high == (0x80 * room) * q + (low + 0x80 * r) by {
      assert 0x80 * (room * q) == (0x80 * room) * q;
    }
    ModUnique(low + 0x80 * high, 0x80 * room, q, low + 0x80 * r);
  }

  lemma GroupsStep(bs: seq<byte>, g: nat)
    requires g <= 9 && bs != []
    ensures DecodeGroups(bs, g) ==
            if bs[0] < 0x80 then Some((bs[0] % Room(g), bs[1..]))
            else if g == 9 then None
            else
              match DecodeGroups(bs[1..], g + 1)
              case None => None
              case Some((high, rest)) => Some((bs[0] % 0x80 + 0x80 * high, rest))
  {
    if bs[0] < 0x80 {
      SmallInRoom(bs[0], g);
    } else if g == 9 {
      assert DecodeGroups(bs[1..], 10) == None;
    }
  }

  lemma RoomStep(g: nat)
    requires g < 9
    ensures Room(g) == 0x80 * Room(g + 1)
  {
  }

  lemma {:induction false} GroupsExactly(bs: seq<byte>, g: nat, i: nat)
    requires g <= 9 && EndsAt(bs, i)
    ensures DecodeGroups(bs, g) == if g + i <= 9 then Some((GroupsOf(bs, i + 1) % Room(g), bs[i + 1..])) else None
    decreases i
  {
    hide DecodeGroups, Room, EndsAt;
    EndsLater(bs, i);
    GroupsStep(bs, g);
    if i == 0 {
      assert GroupsOf(bs, 1) == bs[0] + 0x80 * GroupsOf(bs[1..], 0);
    } else if g < 9 {
      GroupsExactly(bs[1..], g + 1, i - 1);
      RoomStep(g);
      ModOfGroup(bs[0] % 0x80, GroupsOf(bs[1..], i), Room(g + 1));
    }
  }

  lemma SmallInRoom(b: byte, g: nat)
    requires g <= 9 && b < 0x80
    ensures b % Room(g) == if g == 9 then b % 0x80 % 2 else b % 0x80
  {
    hide Room;
    if g < 9 {
      RoomIsWide(g);
      ModUnique(b, Room(g), 0, b);
    } else {
      NoRoom();
    }
  }

  lemma RoomIsWide(g: nat)
    requires g < 9
    ensures Room(g) >= 0x100
  {
  }

  lemma NoRoom()
    ensures Room(9) == 2
  {
  }

  lemma {:induction false} GroupsEnd(bs: seq<byte>, g: nat)
    requires DecodeGroups(bs, g).Some?
    ensures exists i: nat :: EndsAt(bs, i)
    decreases |bs|
  {
    if bs[0] < 0x80 {
      assert EndsAt(bs, 0);
    } else {
      GroupsEnd(bs[1..], g + 1);
      OneLater(bs);
    }
  }

  /** Any bytes: a varint is read if and only if one of the first ten bytes ends it; its value is that of the groups,
      the bits above the 64th dropped, however many of the groups are zero. */
  lemma VarintExactly(bs: seq<byte>)
    ensures DecodeVarint(bs).Some? <==> exists i: nat :: i < 10 && EndsAt(bs, i)
    ensures forall i: nat :: i < 10 && EndsAt(bs, i) ==>
              DecodeVarint(bs) == Some((GroupsOf(bs, i + 1) % TWO_64, bs[i + 1..]))
  {
    hide DecodeGroups, GroupsOf;
    RoomForAll();
    forall i: nat | EndsAt(bs, i)
      ensures DecodeGroups(bs, 0) == if i <= 9 then Some((GroupsOf(bs, i + 1) % TWO_64, bs[i + 1..])) else None
    {
      GroupsExactly(bs, 0, i);
    }
    if DecodeVarint(bs).Some? {
      GroupsEnd(bs, 0);
      var i: nat :| EndsAt(bs, i);
      assert i < 10;
    }
  }

  // --- 32-bit varints ---------------------------------------------------------------------------

  ghost predicate AcceptsByte(b: byte, g: nat, negative: bool) {
    b == 0 || b == 0x80 || (negative && b == if g < 9 then 0xFF else 0x01)
  }

  /** From byte `g` on, of a number whose sign bit is known. */
  ghost predicate AcceptsFrom(bs: seq<byte>, g: nat, i: nat, negative: bool)
    requires i < |bs| && g >= 5
  {
    forall k :: 0 <= k <= i ==> AcceptsByte(bs[k], g + k, negative)
  }

  lemma HighGroupUnfolds(result: uint32, bs: seq<byte>, g: nat)
    requires 5 <= g <= 36 && bs != []
    ensures DecodeGroups32(result, 7 * g, bs) ==
            if !AcceptsByte(bs[0], g, result >= 0x8000_0000) then None
            else if bs[0] >= 0x80 then DecodeGroups32(result, (7 * g + 7) % 0x100, bs[1..])
            else Some((result, bs[1..]))
  {
    hide AddGroup32;
  }

  lemma {:induction false} HighGroupsExactly(result: uint32, bs: seq<byte>, g: nat, i: nat)
    requires 5 <= g && g + i <= 36 && EndsAt(bs, i)
    ensures DecodeGroups32(result, 7 * g, bs) ==
            if AcceptsFrom(bs, g, i, result >= 0x8000_0000) then Some((result, bs[i + 1..])) else None
    decreases i
  {
    hide DecodeGroups32, AcceptsFrom, AcceptsByte;
    EndsLater(bs, i);
    HighGroupUnfolds(result, bs, g);
    AcceptsFirst(bs, g, i, result >= 0x8000_0000);
    if i > 0 {
      HighGroupsExactly(result, bs[1..], g + 1, i - 1);
    }
  }

  lemma AcceptsFirst(bs: seq<byte>, g: nat, i: nat, negative: bool)
    requires i < |bs| && g >= 5
    ensures AcceptsFrom(bs, g, i, negative) <==>
            AcceptsByte(bs[0], g, negative) && (i > 0 ==> AcceptsFrom(bs[1..], g + 1, i - 1, negative))
  {
    assert forall k :: 0 < k <= i ==> bs[k] == bs[1..][k - 1];
    if AcceptsByte(bs[0], g, negative) && (i > 0 ==> AcceptsFrom(bs[1..], g + 1, i - 1, negative)) {
      forall k | 0 <= k <= i ensures AcceptsByte(bs[k], g + k, negative) {
        if k > 0 {
          assert AcceptsByte(bs[1..][k - 1], g + 1 + (k - 1), negative);
        }
      }
    }
    if AcceptsFrom(bs, g, i, negative) && i > 0 {
      forall k | 0 <= k <= i - 1 ensures AcceptsByte(bs[1..][k], g + 1 + k, negative) {
        assert AcceptsByte(bs[k + 1], g + (k + 1), negative);
      }
    }
  }

  lemma GroupsUnfold(bs: seq<byte>, n: nat, g: nat)
    requires 0 < n <= |bs|
    ensures GroupsOf(bs, n) == bs[0] % 0x80 + 0x80 * GroupsOf(bs[1..], n - 1)
    ensures Shifted(GroupsOf(bs, n), g) == Shifted(bs[0] % 0x80, g) + Shifted(GroupsOf(bs[1..], n - 1), g + 1)
  {
    hide Pow2, Shifted;
    var v, low, high := GroupsOf(bs, n), bs[0] % 0x80, GroupsOf(bs[1..], n - 1);
    NextGroup(v, g);
    assert v % 0x80 == low && v / 0x80 == high;
  }

  lemma NoGroups(bs: seq<byte>, g: nat)
    ensures GroupsOf(bs, 0) == 0 && Shifted(0, g) == 0
  {
  }

  lemma FifthByte(result: uint32, group: nat)
    requires group < 0x80 && result < Pow2(28) && result + Shifted(group % 0x10, 4) < TWO_32
    ensures (result + Shifted(group, 4)) % TWO_32 == result + Shifted(group % 0x10, 4)
  {
    hide Pow2;
    Pow2OfGroups();
    FifthGroup(result, group, 0);
  }

  /** What the groups from group `g` on come to, when `result` holds those before. */
  ghost function LowResult(result: uint32, bs: seq<byte>, g: nat, i: nat): Option<(uint32, seq<byte>)>
    requires 1 <= g <= 4 && i < |bs|
  {
    if g + i <= 4 then
      if g + i == 4 && bs[i] >= 0x10 then None
      else Some(((result + Shifted(GroupsOf(bs, i + 1), g)) % TWO_32, bs[i + 1..]))
    else
      var sum := (result + Shifted(GroupsOf(bs, 5 - g), g)) % TWO_32;
      if AcceptsFrom(bs[5 - g..], 5, g + i - 5, sum >= 0x8000_0000) then Some((sum, bs[i + 1..])) else None
  }

  lemma LowResultUnfolds(result: uint32, bs: seq<byte>, g: nat, i: nat, sum: uint32)
    requires 1 <= g <= 3 && 0 < i < |bs| && sum == result + Shifted(bs[0] % 0x80, g)
    ensures LowResult(result, bs, g, i) == LowResult(sum, bs[1..], g + 1, i - 1)
  {
    hide GroupsOf, Shifted, AcceptsFrom;
    if g + i <= 4 {
      GroupsUnfold(bs, i + 1, g);
    } else {
      GroupsUnfold(bs, 5 - g, g);
      assert bs[1..][5 - (g + 1)..] == bs[5 - g..];
    }
    assert bs[1..][i..] == bs[i + 1..] && bs[1..][i - 1] == bs[i];
  }

  lemma {:induction false} LowGroupsExactly(result: uint32, bs: seq<byte>, g: nat, i: nat)
    requires 1 <= g <= 4 && g + i <= 36 && EndsAt(bs, i) && result < Pow2(7 * g)
    ensures DecodeGroups32(result, 7 * g, bs) == LowResult(result, bs, g, i)
    decreases i
  {
    hide DecodeGroups32, AcceptsFrom, GroupsOf, Shifted, Pow2, AddGroup32, LowResult;
    EndsLater(bs, i);
    LowGroup(result, g, bs);
    AddGroup32IsSum(result, bs[0] % 0x80, g);
    var sum := AddGroup32(result, bs[0] % 0x80, 7 * g);
    if i == 0 {
      LastGroup(result, bs, g, sum);
    } else if g < 4 {
      LowGroupsExactly(sum, bs[1..], g + 1, i - 1);
      LowResultUnfolds(result, bs, g, i, sum);
    } else {
      HighGroupsExactly(sum, bs[1..], 5, i - 1);
      FifthResult(result, bs, i, sum);
    }
  }

  lemma LastGroup(result: uint32, bs: seq<byte>, g: nat, sum: uint32)
    requires 1 <= g <= 4 && bs != [] && bs[0] < 0x80
    requires sum == result + Shifted(if g == 4 then bs[0] % 0x10 else bs[0], g)
    ensures LowResult(result, bs, g, 0) == if g == 4 && bs[0] >= 0x10 then None else Some((sum, bs[1..]))
  {
    hide GroupsOf, Shifted, AcceptsFrom;
    GroupsUnfold(bs, 1, g);
    NoGroups(bs[1..], g + 1);
  }

  lemma FifthResult(result: uint32, bs: seq<byte>, i: nat, sum: uint32)
    requires 0 < i < |bs| && result < Pow2(28) && sum == result + Shifted(bs[0] % 0x80 % 0x10, 4)
    ensures LowResult(result, bs, 4, i) ==
            if AcceptsFrom(bs[1..], 5, i - 1, sum >= 0x8000_0000) then Some((sum, bs[1..][i..])) else None
  {
    hide GroupsOf, Shifted, AcceptsFrom, Pow2;
    GroupsUnfold(bs, 1, 4);
    NoGroups(bs[1..], 5);
    FifthByte(result, bs[0] % 0x80);
    assert bs[1..][i..] == bs[i + 1..];
  }

  /** The value of the first five groups on 32 bits. */
  ghost function Low32(bs: seq<byte>, i: nat): uint32
    requires i < |bs|
  {
    GroupsOf(bs, if i < 5 then i + 1 else 5) % TWO_32
  }

  /** Nothing above bit 32 but the sign extension of a negative number; the high bits of the fifth byte are checked only
      when it is the last. */
  ghost predicate Accepts32(bs: seq<byte>, i: nat)
    requires i < |bs|
  {
    && (i == 4 ==> bs[4] < 0x10)
    && forall k :: 5 <= k <= i ==>
         bs[k] == 0 || bs[k] == 0x80 || (Low32(bs, i) >= 0x8000_0000 && bs[k] == if k < 9 then 0xFF else 0x01)
  }

  /** Any bytes that end within 37: a 32-bit varint is accepted if and only if nothing but a sign extension lies above
      its 32 bits. (At the 38th byte the 8-bit bit position has wrapped round.) */
  lemma Varint32Exactly(bs: seq<byte>, i: nat)
    requires EndsAt(bs, i) && i <= 36
    ensures DecodeVarint32(bs) == if Accepts32(bs, i) then Some((Low32(bs, i), bs[i + 1..])) else None
  {
    hide DecodeGroups32, AcceptsFrom, Pow2, LowResult, GroupsOf;
    EndsLater(bs, i);
    if i == 0 {
      OneGroup(bs);
    } else {
      Pow2OfGroups();
      LowGroupsExactly(bs[0] % 0x80, bs[1..], 1, i - 1);
      FirstOfAll(bs, i);
    }
  }

  lemma OneGroup(bs: seq<byte>)
    requires bs != [] && bs[0] < 0x80
    ensures Low32(bs, 0) == bs[0]
  {
    assert GroupsOf(bs, 1) == bs[0] % 0x80 + 0x80 * GroupsOf(bs[1..], 0);
  }

  lemma FirstOfAll(bs: seq<byte>, i: nat)
    requires 0 < i < |bs|
    ensures LowResult(bs[0] % 0x80, bs[1..], 1, i - 1) ==
            if Accepts32(bs, i) then Some((Low32(bs, i), bs[i + 1..])) else None
  {
    hide GroupsOf, Shifted, Pow2;
    var n := if i < 5 then i + 1 else 5;
    GroupsUnfold(bs, n, 0);
    ShiftedByOne(GroupsOf(bs[1..], n - 1));
    assert bs[1..][i..] == bs[i + 1..] && bs[1..][i - 1] == bs[i];
    if i >= 5 {
      assert bs[1..][4..] == bs[5..];
      AcceptsHigh(bs, i, Low32(bs, i) >= 0x8000_0000);
    }
  }

  lemma ShiftedByOne(v: nat)
    ensures Shifted(v, 1) == 0x80 * v
  {
    Pow2OfGroups();
  }

  lemma AcceptsHigh(bs: seq<byte>, i: nat, negative: bool)
    requires 5 <= i < |bs|
    ensures AcceptsFrom(bs[5..], 5, i - 5, negative) <==> forall k :: 5 <= k <= i ==> AcceptsByte(bs[k], k, negative)
  {
    var t := bs[5..];
    if AcceptsFrom(t, 5, i - 5, negative) {
      forall k | 5 <= k <= i ensures AcceptsByte(bs[k], k, negative) {
        assert AcceptsByte(t[k - 5], 5 + (k - 5), negative);
      }
    }
    if forall k :: 5 <= k <= i ==> AcceptsByte(bs[k], k, negative) {
      forall k | 0 <= k <= i - 5 ensures AcceptsByte(t[k], 5 + k, negative) {
        assert AcceptsByte(bs[k + 5], k + 5, negative);
      }
    }
  }

  /** Without a byte that ends it nothing is a varint. */
  lemma {:induction false} Varint32Ends(bs: seq<byte>)
    requires DecodeVarint32(bs).Some?
    ensures exists i: nat :: EndsAt(bs, i)
  {
    hide DecodeGroups32;
    if bs[0] < 0x80 {
      assert EndsAt(bs, 0);
    } else {
      Groups32End(bs[0] % 0x80, 7, bs[1..]);
      OneLater(bs);
    }
  }

  lemma OneLater(bs: seq<byte>)
    requires bs != [] && bs[0] >= 0x80 && exists i: nat :: EndsAt(bs[1..], i)
    ensures exists i: nat :: EndsAt(bs, i)
  {
    var i: nat :| EndsAt(bs[1..], i);
    assert forall k :: 0 < k <= i ==> bs[k] == bs[1..][k - 1];
    assert EndsAt(bs, i + 1);
  }

  lemma {:induction false} Groups32End(result: uint32, bitpos: nat, bs: seq<byte>)
    requires DecodeGroups32(result, bitpos, bs).Some?
    ensures exists i: nat :: EndsAt(bs, i)
    decreases |bs|
  {
    hide AddGroup32;
    if bs[0] < 0x80 {
      assert EndsAt(bs, 0);
    } else {
      var sum := if bitpos >= 32 then result else AddGroup32(result, bs[0] % 0x80, bitpos);
      Groups32End(sum, (bitpos + 7) % 0x100, bs[1..]);
      OneLater(bs);
    }
  }
}
