/** The Protocol Buffers wire format as nanopb reads and writes it: varints, zigzag, fixed-width integers, lengths, keys
    and the skipping of unknown fields. */
module PbWire {
  import opened Bits
  import opened Bytes

  // --- Varints ----------------------------------------------------------------------------------

  function EncodeVarint(v: nat): (r: seq<byte>)
    ensures |r| >= 1
  {
    if v <= 0x7F then [v] else [v % 0x80 + 0x80] + EncodeVarint(v / 0x80)
  }

  lemma EncodeVarintShort(v: nat)
    requires v <= 0x7F
    ensures EncodeVarint(v) == [v]
  {
  }

  lemma EncodeVarintLong(v: nat)
    requires v > 0x7F
    ensures EncodeVarint(v) == [v % 0x80 + 0x80] + EncodeVarint(v / 0x80)
  {
  }

  /** The first byte of an encoding and what follows it. */
  lemma EncodeVarintHead(v: nat, rest: seq<byte>)
    ensures var bs := EncodeVarint(v) + rest;
            if v <= 0x7F then bs[0] == v && bs[1..] == rest
            else bs[0] >= 0x80 && bs[0] % 0x80 == v % 0x80 && bs[1..] == EncodeVarint(v / 0x80) + rest
  {
    hide EncodeVarint;
    if v <= 0x7F {
      EncodeVarintShort(v);
      assert ([v] + rest)[1..] == rest;
    } else {
      EncodeVarintLong(v);
      var tail := EncodeVarint(v / 0x80);
      assert ([v % 0x80 + 0x80] + tail + rest)[1..] == tail + rest;
    }
  }

  /** The encoding is as short as seven bits a byte allow. */
  lemma {:induction false} EncodeVarintMinimal(v: nat)
    ensures v < Pow2(7 * |EncodeVarint(v)|)
    ensures |EncodeVarint(v)| > 1 ==> v >= Pow2(7 * (|EncodeVarint(v)| - 1))
  {
    assert Pow2(7) == 0x80;
    if v > 0x7F {
      var n := |EncodeVarint(v / 0x80)|;
      EncodeVarintMinimal(v / 0x80);
      Pow2Sum(7, 7 * n);
      if n > 1 {
        Pow2Sum(7, 7 * (n - 1));
      }
    }
  }

  /** The first value too large for a varint whose first `g` groups are already taken. */
  function Room(g: nat): (r: nat)
    requires g <= 9
    ensures r >= 2
    decreases 9 - g
  {
    if g == 9 then 2 else 0x80 * Room(g + 1)
  }

  lemma RoomForAll()
    ensures Room(0) == TWO_64
  {
    assert Room(6) == 0x40_0000;
    assert Room(3) == 0x80 * (0x80 * (0x80 * Room(6)));
    assert Room(0) == 0x80 * (0x80 * (0x80 * Room(3)));
  }

  /** No 64-bit value needs more than the ten bytes of the buffer. */
  lemma EncodeVarintFits(v: uint64)
    ensures |EncodeVarint(v)| <= 10
  {
    RoomForAll();
    EncodeGroupsFit(v, 0);
  }

  lemma {:induction false} EncodeGroupsFit(v: nat, g: nat)
    requires g <= 9 && v < Room(g)
    ensures |EncodeVarint(v)| <= 10 - g
    decreases 9 - g
  {
    if v > 0x7F {
      EncodeGroupsFit(v / 0x80, g + 1);
    }
  }

  /** The value of the groups from group `g` on; the tenth has one bit left in a 64-bit result. */
  function DecodeGroups(bs: seq<byte>, g: nat): (r: Option<(nat, seq<byte>)>)
    ensures r.Some? ==> |r.value.1| < |bs| && r.value.1 == bs[|bs| - |r.value.1|..]
    ensures r.Some? ==> g <= 9 && r.value.0 < Room(g)
    decreases |bs|
  {
    if g >= 10 || bs == [] then None
    else
      var low := if g == 9 then bs[0] % 0x80 % 2 else bs[0] % 0x80;
      if bs[0] < 0x80 then Some((low, bs[1..]))
      else
        match DecodeGroups(bs[1..], g + 1)
        case None => None
        case Some((high, rest)) => Some((low + 0x80 * high, rest))
  }

  /** A 64-bit varint off the front of `bs`. */
  function DecodeVarint(bs: seq<byte>): (r: Option<(uint64, seq<byte>)>)
    ensures r.Some? ==> |r.value.1| < |bs| && r.value.1 == bs[|bs| - |r.value.1|..]
  {
    RoomForAll();
    match DecodeGroups(bs, 0)
    case None => None
    case Some((v, rest)) => Some((v, rest))
  }

  /** Every value decodes from its own encoding, whatever follows. */
  lemma VarintRoundTrip(v: uint64, rest: seq<byte>)
    ensures DecodeVarint(EncodeVarint(v) + rest) == Some((v, rest))
  {
    RoomForAll();
    GroupsRoundTrip(v, 0, rest);
  }

  lemma {:induction false} GroupsRoundTrip(v: nat, g: nat, rest: seq<byte>)
    requires g <= 9 && v < Room(g)
    ensures DecodeGroups(EncodeVarint(v) + rest, g) == Some((v, rest))
    decreases 9 - g
  {
    hide EncodeVarint;
    EncodeVarintHead(v, rest);
    if v > 0x7F {
      GroupsRoundTrip(v / 0x80, g + 1, rest);
    }
  }

  // --- 32-bit varints: lengths and keys ---------------------------------------------------------

  /** `result | group << bitpos` on 32 bits. */
  function AddGroup32(result: uint32, group: nat, bitpos: nat): uint32 {
    Pow2Of32();
    BitOrFits(result, group * Pow2(bitpos) % TWO_32, 32);
    BitOr(result, group * Pow2(bitpos) % TWO_32)
  }

  /** The groups of a 32-bit varint after the first. The bit position is an 8-bit counter. */
  function DecodeGroups32(result: uint32, bitpos: nat, bs: seq<byte>): (r: Option<(uint32, seq<byte>)>)
    ensures r.Some? ==> |r.value.1| < |bs| && r.value.1 == bs[|bs| - |r.value.1|..]
    decreases |bs|
  {
    if bs == [] then None
    else
      var signExtension := if bitpos < 63 then 0xFF else 0x01;
      if bitpos >= 32 && bs[0] % 0x80 != 0 && (result < 0x8000_0000 || bs[0] != signExtension) then None
      else
        var sum := if bitpos >= 32 then result else AddGroup32(result, bs[0] % 0x80, bitpos);
        var next := (bitpos + 7) % 0x100;
        if bs[0] >= 0x80 then DecodeGroups32(sum, next, bs[1..])
        else if next == 35 && bs[0] / 0x10 % 8 != 0 then None
        else Some((sum, bs[1..]))
  }

  /** One group in the first five, where every bit position is below 32. */
  lemma LowGroup(result: uint32, g: nat, bs: seq<byte>)
    requires 1 <= g <= 4 && bs != []
    ensures DecodeGroups32(result, 7 * g, bs) ==
            var sum := AddGroup32(result, bs[0] % 0x80, 7 * g);
            if bs[0] >= 0x80 then DecodeGroups32(sum, 7 * (g + 1), bs[1..])
            else if g == 4 && bs[0] >= 0x10 then None
            else Some((sum, bs[1..]))
  {
    hide AddGroup32;
  }

  /** A group past the fifth contributes nothing. */
  lemma HighGroup(result: uint32, g: nat, bs: seq<byte>)
    requires 5 <= g <= 9 && bs != [] && DecodeGroups32(result, 7 * g, bs).Some?
    ensures DecodeGroups32(result, 7 * g, bs) ==
            if bs[0] >= 0x80 then DecodeGroups32(result, 7 * (g + 1), bs[1..]) else Some((result, bs[1..]))
  {
    hide AddGroup32;
  }

  function DecodeVarint32(bs: seq<byte>): (r: Option<(uint32, seq<byte>)>)
    ensures r.Some? ==> |r.value.1| < |bs| && r.value.1 == bs[|bs| - |r.value.1|..]
  {
    if bs == [] then None
    else if bs[0] < 0x80 then Some((bs[0], bs[1..]))
    else DecodeGroups32(bs[0] % 0x80, 7, bs[1..])
  }

  lemma Pow2OfGroups()
    ensures Pow2(7) == 0x80 && Pow2(14) == 0x4000 && Pow2(21) == 0x20_0000 && Pow2(28) == 0x1000_0000
  {
    assert Pow2(7) == 0x80;
    Pow2Sum(7, 7);
    Pow2Sum(7, 14);
    Pow2Sum(7, 21);
  }

  /** `v` seven bits higher for every earlier group. */
  function Shifted(v: nat, g: nat): nat {
    v * Pow2(7 * g)
  }

  /** In the first 32 bits a group adds its value; the fifth keeps four of its bits. */
  lemma AddGroup32IsSum(result: uint32, group: nat, g: nat)
    requires 1 <= g <= 4 && group < 0x80 && result < Pow2(7 * g)
    ensures AddGroup32(result, group, 7 * g) == result + Shifted(if g == 4 then group % 0x10 else group, g)
    ensures g < 4 ==> AddGroup32(result, group, 7 * g) < Pow2(7 * (g + 1))
  {
    hide Pow2, BitOr;
    var kept := if g == 4 then group % 0x10 else group;
    BitOrIsSum(result, kept, 7 * g);
    KeptBits(result, group, g);
  }

  lemma KeptBits(result: uint32, group: nat, g: nat)
    requires 1 <= g <= 4 && group < 0x80 && result < Pow2(7 * g)
    ensures group * Pow2(7 * g) % TWO_32 == (if g == 4 then group % 0x10 else group) * Pow2(7 * g)
    ensures g < 4 ==> result + group * Pow2(7 * g) < Pow2(7 * (g + 1))
  {
    hide Pow2;
    Pow2OfGroups();
    if g == 1 {
    } else if g == 2 {
    } else if g == 3 {
    } else {
      assert group * 0x1000_0000 == group % 0x10 * 0x1000_0000 + group / 0x10 * TWO_32;
    }
  }

  lemma Varint32RoundTrip(v: uint32, rest: seq<byte>)
    ensures DecodeVarint32(EncodeVarint(v) + rest) == Some((v, rest))
  {
    hide AddGroup32, DecodeGroups32, Pow2, Room32, EncodeVarint;
    EncodeVarintHead(v, rest);
    if v > 0x7F {
      hide Shifted;
      FirstGroup(v);
      Groups32RoundTrip(v % 0x80, v / 0x80, 1, rest);
    }
  }

  lemma FirstGroup(v: uint32)
    ensures v / 0x80 < Room32(1) && v % 0x80 < Pow2(7 * 1) && v % 0x80 + Shifted(v / 0x80, 1) == v
  {
    assert Room32(1) == 0x200_0000;
    Pow2OfGroups();
  }

  /** The first value too large for a 32-bit varint whose first `g` groups are already taken. */
  function Room32(g: nat): nat
    requires 1 <= g <= 4
    decreases 4 - g
  {
    if g == 4 then 0x10 else 0x80 * Room32(g + 1)
  }

  lemma Groups32Step(result: uint32, v: nat, g: nat, rest: seq<byte>)
    requires 1 <= g <= 4 && v > 0x7F
    ensures DecodeGroups32(result, 7 * g, EncodeVarint(v) + rest)
            == DecodeGroups32(AddGroup32(result, v % 0x80, 7 * g), 7 * (g + 1), EncodeVarint(v / 0x80) + rest)
  {
    hide AddGroup32, DecodeGroups32, EncodeVarint;
    EncodeVarintHead(v, rest);
    LowGroup(result, g, EncodeVarint(v) + rest);
  }

  lemma Groups32End(result: uint32, v: nat, g: nat, rest: seq<byte>)
    requires 1 <= g <= 4 && v <= 0x7F && (g == 4 ==> v < 0x10)
    ensures DecodeGroups32(result, 7 * g, EncodeVarint(v) + rest) == Some((AddGroup32(result, v, 7 * g), rest))
  {
    hide AddGroup32, DecodeGroups32, EncodeVarint;
    EncodeVarintHead(v, rest);
    LowGroup(result, g, EncodeVarint(v) + rest);
  }

  lemma {:induction false} Groups32RoundTrip(result: uint32, v: nat, g: nat, rest: seq<byte>)
    requires 1 <= g <= 4 && v < Room32(g) && result < Pow2(7 * g)
    ensures DecodeGroups32(result, 7 * g, EncodeVarint(v) + rest) == Some((result + Shifted(v, g), rest))
    decreases 4 - g
  {
    hide Shifted, AddGroup32, DecodeGroups32, Pow2, EncodeVarint;
    if v <= 0x7F {
      Groups32End(result, v, g, rest);
      AddGroup32IsSum(result, v, g);
    } else {
      Groups32Step(result, v, g, rest);
      AddGroup32IsSum(result, v % 0x80, g);
      Groups32RoundTrip(AddGroup32(result, v % 0x80, 7 * g), v / 0x80, g + 1, rest);
      NextGroup(v, g);
    }
  }

  lemma NextGroup(v: nat, g: nat)
    ensures Shifted(v % 0x80, g) + Shifted(v / 0x80, g + 1) == Shifted(v, g)
  {
    hide Pow2;
    assert Pow2(7 * (g + 1)) == 0x80 * Pow2(7 * g) by { Pow2OfGroups(); Pow2Sum(7, 7 * g); }
    GroupSum(v, Pow2(7 * g));
  }

  lemma GroupSum(v: nat, p: nat)
    ensures v % 0x80 * p + v / 0x80 * (0x80 * p) == v * p
  {
    assert v == v % 0x80 + v / 0x80 * 0x80;
  }

  /** Where both decoders accept, they consume the same bytes and the 32-bit one returns the low half. */
  lemma DecodersAgree(bs: seq<byte>)
    requires DecodeVarint(bs).Some? && DecodeVarint32(bs).Some?
    ensures DecodeVarint32(bs).value.0 == DecodeVarint(bs).value.0 % TWO_32
    ensures DecodeVarint32(bs).value.1 == DecodeVarint(bs).value.1
  {
    hide AddGroup32, DecodeGroups32, Pow2;
    if bs[0] >= 0x80 {
      Pow2OfGroups();
      GroupsAgree(bs[0] % 0x80, 1, bs[1..]);
    }
  }

  lemma GroupUnfolds(g: nat, bs: seq<byte>)
    requires g <= 8 && DecodeGroups(bs, g).Some?
    ensures bs != []
    ensures bs[0] < 0x80 ==> DecodeGroups(bs, g) == Some((bs[0], bs[1..]))
    ensures bs[0] >= 0x80 ==> DecodeGroups(bs[1..], g + 1).Some?
    ensures bs[0] >= 0x80 ==>
              var next := DecodeGroups(bs[1..], g + 1).value;
              DecodeGroups(bs, g) == Some((bs[0] % 0x80 + 0x80 * next.0, next.1))
  {
  }

  lemma {:induction false} GroupsAgree(result: uint32, g: nat, bs: seq<byte>)
    requires 1 <= g <= 9 && (g <= 4 ==> result < Pow2(7 * g))
    requires DecodeGroups(bs, g).Some? && DecodeGroups32(result, 7 * g, bs).Some?
    ensures DecodeGroups32(result, 7 * g, bs).value.1 == DecodeGroups(bs, g).value.1
    ensures DecodeGroups32(result, 7 * g, bs).value.0 == (result + Shifted(DecodeGroups(bs, g).value.0, g)) % TWO_32
    decreases |bs|
  {
    hide AddGroup32, DecodeGroups32, Pow2, DecodeGroups, Shifted;
    if g >= 5 {
      HighGroupsAgree(result, g, bs);
    } else {
      LowGroup(result, g, bs);
      GroupUnfolds(g, bs);
      var group := bs[0] % 0x80;
      AddGroup32IsSum(result, group, g);
      if bs[0] >= 0x80 {
        var high := DecodeGroups(bs[1..], g + 1).value.0;
        GroupsAgree(AddGroup32(result, group, 7 * g), g + 1, bs[1..]);
        LowGroups(result, group, high, g);
      } else {
        LowGroups(result, group, 0, g);
      }
    }
  }

  lemma {:induction false} HighGroupsAgree(result: uint32, g: nat, bs: seq<byte>)
    requires 5 <= g <= 9
    requires DecodeGroups(bs, g).Some? && DecodeGroups32(result, 7 * g, bs).Some?
    ensures DecodeGroups32(result, 7 * g, bs).value.1 == DecodeGroups(bs, g).value.1
    ensures DecodeGroups32(result, 7 * g, bs).value.0 == (result + Shifted(DecodeGroups(bs, g).value.0, g)) % TWO_32
    decreases |bs|
  {
    hide AddGroup32, DecodeGroups32, Pow2;
    HighGroup(result, g, bs);
    HighGroupsVanish(result, DecodeGroups(bs, g).value.0, g);
    if bs[0] >= 0x80 {
      HighGroupsAgree(result, g + 1, bs[1..]);
      HighGroupsVanish(result, DecodeGroups(bs[1..], g + 1).value.0, g + 1);
    }
  }

  /** Groups past the fifth lie above bit 32. */
  lemma HighGroupsVanish(result: uint32, v: nat, g: nat)
    requires g >= 5
    ensures (result + Shifted(v, g)) % TWO_32 == result
  {
    Pow2Sum(32, 7 * g - 32);
    Pow2Of32();
    MultipleVanishes(result, v, Pow2(7 * g - 32));
  }

  lemma MultipleVanishes(r: uint32, a: nat, b: nat)
    ensures (r + a * (TWO_32 * b)) % TWO_32 == r
  {
    assert a * (TWO_32 * b) == TWO_32 * (a * b);
  }

  lemma LowGroups(result: uint32, group: nat, high: nat, g: nat)
    requires 1 <= g <= 4 && group < 0x80 && result < Pow2(7 * g)
    ensures var sum := result + Shifted(if g == 4 then group % 0x10 else group, g);
            (sum + Shifted(high, g + 1)) % TWO_32 == (result + Shifted(group + 0x80 * high, g)) % TWO_32
  {
    hide Pow2;
    var p := Pow2(7 * g);
    assert Pow2(7 * (g + 1)) == 0x80 * p by { Pow2OfGroups(); Pow2Sum(7, 7 * g); }
    assert (group + 0x80 * high) * p == group * p + high * (0x80 * p);
    if g == 4 {
      assert p == 0x1000_0000 by { Pow2OfGroups(); }
      FifthGroup(result, group, high);
    }
  }

  lemma FifthGroup(result: uint32, group: nat, high: nat)
    ensures (result + group % 0x10 * 0x1000_0000 + high * 0x8_0000_0000) % TWO_32
            == (result + (group + 0x80 * high) * 0x1000_0000) % TWO_32
  {
    var low, q := group % 0x10, group / 0x10;
    assert group == 0x10 * q + low;
    var kept := result + low * 0x1000_0000 + high * 0x8_0000_0000;
    assert result + (group + 0x80 * high) * 0x1000_0000 == kept + q * TWO_32;
    AddMultiple(kept, q);
  }

  lemma AddMultiple(n: nat, q: nat)
    ensures (n + q * TWO_32) % TWO_32 == n % TWO_32
  {
  }

  // --- Signed and fixed-width integers ----------------------------------------------------------

  /** Zigzag: the sign moves to the lowest bit. */
  function ZigZag(n: int): nat {
    if n < 0 then -2 * n - 1 else 2 * n
  }

  function UnZigZag(v: nat): int {
    if v % 2 == 1 then -(v / 2) - 1 else v / 2
  }

  /** Zigzag is a bijection between the signed and the unsigned 64-bit integers. */
  lemma ZigZagRoundTrip(n: int, v: nat)
    ensures UnZigZag(ZigZag(n)) == n && ZigZag(UnZigZag(v)) == v
    ensures -0x8000_0000_0000_0000 <= n < 0x8000_0000_0000_0000 <==> ZigZag(n) < TWO_64
  {
  }

  /** `k` bytes of `n`, least significant first. */
  function LittleEndian(n: nat, k: nat): (r: seq<byte>)
    ensures |r| == k
    decreases k
  {
    if k == 0 then [] else [n % 0x100] + LittleEndian(n / 0x100, k - 1)
  }

  function FromLittleEndian(bs: seq<byte>): nat {
    if bs == [] then 0 else bs[0] + 0x100 * FromLittleEndian(bs[1..])
  }

  lemma {:induction false} LittleEndianRoundTrip(n: nat, k: nat)
    requires n < Pow2(8 * k)
    ensures FromLittleEndian(LittleEndian(n, k)) == n
    decreases k
  {
    if k > 0 {
      assert Pow2(8) == 0x100;
      Pow2Sum(8, 8 * (k - 1));
      LittleEndianRoundTrip(n / 0x100, k - 1);
      assert LittleEndian(n, k)[1..] == LittleEndian(n / 0x100, k - 1);
    }
  }

  // --- Lengths, keys and unknown fields ---------------------------------------------------------

  /** A length, cast to 64 bits, and that many bytes. */
  function Delimited(bs: seq<byte>): seq<byte> {
    EncodeVarint(|bs| % TWO_64) + bs
  }

  /** The substream a length opens, and what follows it. */
  function Substream(bs: seq<byte>): (r: Option<(seq<byte>, seq<byte>)>)
    ensures r.Some? ==> |r.value.0| + |r.value.1| < |bs| && r.value.1 == bs[|bs| - |r.value.1|..]
  {
    match DecodeVarint32(bs)
    case None => None
    case Some((size, rest)) => if |rest| < size then None else Some((rest[..size], rest[size..]))
  }

  lemma SubstreamOfDelimited(bs: seq<byte>, rest: seq<byte>)
    requires |bs| < TWO_32
    ensures Substream(Delimited(bs) + rest) == Some((bs, rest))
  {
    assert Delimited(bs) + rest == EncodeVarint(|bs|) + (bs + rest);
    Varint32RoundTrip(|bs|, bs + rest);
  }

  datatype WireType = VarintWire | Fixed64Wire | StringWire | Fixed32Wire {
    function Code(): (r: nat)
      ensures r < 8
    {
      match this
      case VarintWire => 0
      case Fixed64Wire => 1
      case StringWire => 2
      case Fixed32Wire => 5
    }
  }

  function Key(tag: uint32, wire: WireType): seq<byte> {
    EncodeVarint(8 * tag + wire.Code())
  }

  lemma KeyRoundTrip(tag: uint32, wire: WireType, rest: seq<byte>)
    requires tag < 0x2000_0000
    ensures DecodeVarint32(Key(tag, wire) + rest) == Some((8 * tag + wire.Code(), rest))
  {
    Varint32RoundTrip(8 * tag + wire.Code(), rest);
  }

  function SkipVarint(bs: seq<byte>): (r: Option<seq<byte>>)
    ensures r.Some? ==> |r.value| < |bs|
  {
    if bs == [] then None
    else if bs[0] >= 0x80 then SkipVarint(bs[1..])
    else Some(bs[1..])
  }

  /** What follows one field value of wire type `code`. */
  function SkipField(code: nat, bs: seq<byte>): (r: Option<seq<byte>>)
    ensures r.Some? ==> |r.value| < |bs|
  {
    if code == 0 then SkipVarint(bs)
    else if code == 1 then (if |bs| < 8 then None else Some(bs[8..]))
    else if code == 2 then
      match Substream(bs)
      case None => None
      case Some((_, rest)) => Some(rest)
    else if code == 5 then (if |bs| < 4 then None else Some(bs[4..]))
    else None
  }

  lemma {:induction false} SkipOneVarint(v: nat, rest: seq<byte>)
    ensures SkipVarint(EncodeVarint(v) + rest) == Some(rest)
  {
    hide EncodeVarint;
    EncodeVarintHead(v, rest);
    if v > 0x7F {
      SkipOneVarint(v / 0x80, rest);
    }
  }
}
