/** Powers of two and the bits of natural numbers. */
module Bits {
  import opened Bytes

  function Pow2(n: nat): nat {
    if n == 0 then 1 else 2 * Pow2(n - 1)
  }

  lemma {:induction false} Pow2Sum(a: nat, b: nat)
    ensures Pow2(a + b) == Pow2(a) * Pow2(b)
  {
    if a > 0 {
      Pow2Sum(a - 1, b);
    }
  }

  lemma Pow2Of64()
    ensures Pow2(64) == TWO_64
  {
    assert Pow2(4) == 16;
    Pow2Sum(4, 4);
    Pow2Sum(8, 8);
    Pow2Sum(16, 16);
    Pow2Sum(32, 32);
  }

  lemma {:induction false} Pow2Positive(n: nat)
    ensures Pow2(n) > 0
  {
    if n > 0 {
      Pow2Positive(n - 1);
    }
  }

  /** `(mask >> i) & 1`, hence `mask & (1 << i) != 0`. */
  predicate TestBit(mask: nat, i: nat) {
    if i == 0 then mask % 2 == 1 else TestBit(mask / 2, i - 1)
  }

  /** `mask | (1 << i)`. */
  function OrBit(mask: nat, i: nat): nat {
    if i == 0 then mask - mask % 2 + 1 else 2 * OrBit(mask / 2, i - 1) + mask % 2
  }

  lemma {:induction false} TestOrBit(mask: nat, k: nat, i: nat)
    ensures TestBit(OrBit(mask, k), i) <==> i == k || TestBit(mask, i)
  {
    if k > 0 && i > 0 {
      TestOrBit(mask / 2, k - 1, i - 1);
    }
  }

  lemma {:induction false} OrBitFits(mask: nat, k: nat, n: nat)
    requires mask < Pow2(n) && k < n
    ensures OrBit(mask, k) < Pow2(n)
  {
    var half := Pow2(n - 1);
    assert Pow2(n) == 2 * half;
    hide Pow2;
    Halves(mask, half);
    if k > 0 {
      OrBitFits(mask / 2, k - 1, n - 1);
    }
  }

  lemma Halves(mask: nat, half: nat)
    requires mask < 2 * half
    ensures mask / 2 < half && mask - mask % 2 == 2 * (mask / 2) < 2 * half - 1
  {
  }

  lemma {:induction false} TestBitOfZero(i: nat)
    ensures !TestBit(0, i)
  {
    if i > 0 {
      TestBitOfZero(i - 1);
    }
  }

  /** `n` ones have every bit below `n` set, and no other mask of `n` bits does. */
  lemma {:induction false} OnesHaveBit(n: nat, i: nat)
    requires i < n
    ensures Pow2(n) > 0 && TestBit(Pow2(n) - 1, i)
  {
    Pow2Positive(n);
    Pow2Positive(n - 1);
    var half := Pow2(n - 1);
    assert Pow2(n) == 2 * half;
    hide Pow2;
    if i > 0 {
      OnesHaveBit(n - 1, i - 1);
      assert (2 * half - 1) / 2 == half - 1;
    }
  }

  lemma {:induction false} AllBitsAreOnes(mask: nat, n: nat)
    requires mask < Pow2(n) && forall i :: 0 <= i < n ==> TestBit(mask, i)
    ensures mask == Pow2(n) - 1
  {
    if n > 0 {
      assert TestBit(mask, 0);
      forall i | 0 <= i < n - 1 ensures TestBit(mask / 2, i) {
        assert TestBit(mask, i + 1);
      }
      AllBitsAreOnes(mask / 2, n - 1);
    }
  }

  /** A mask without bits from `n` on is below 2^n. */
  lemma {:induction false} BitsBelow(mask: nat, n: nat, width: nat)
    requires n <= width && mask < Pow2(width)
    requires forall i :: n <= i < width ==> !TestBit(mask, i)
    ensures mask < Pow2(n)
  {
    if n > 0 {
      forall i | n - 1 <= i < width - 1 ensures !TestBit(mask / 2, i) {
        assert !TestBit(mask, i + 1);
      }
      BitsBelow(mask / 2, n - 1, width - 1);
    } else if width > 0 {
      assert !TestBit(mask, 0);
      forall i | 0 <= i < width - 1 ensures !TestBit(mask / 2, i) {
        assert !TestBit(mask, i + 1);
      }
      BitsBelow(mask / 2, 0, width - 1);
    }
  }

  /** `x >> k`. */
  function ShiftRight(x: nat, k: nat): nat
    decreases k
  {
    if k == 0 then x else ShiftRight(x / 2, k - 1)
  }

  lemma {:induction false} ShiftOnes(n: nat, k: nat)
    ensures Pow2(n + k) > 0 && Pow2(n) > 0 && ShiftRight(Pow2(n + k) - 1, k) == Pow2(n) - 1
  {
    Pow2Positive(n);
    if k > 0 {
      ShiftOnes(n, k - 1);
    }
  }

  /** `a | b`. */
  function BitOr(a: nat, b: nat): nat
    decreases a
  {
    if a == 0 then b else 2 * BitOr(a / 2, b / 2) + if a % 2 == 1 || b % 2 == 1 then 1 else 0
  }

  lemma {:induction false} BitOrFits(a: nat, b: nat, n: nat)
    requires a < Pow2(n) && b < Pow2(n)
    ensures BitOr(a, b) < Pow2(n)
  {
    if a > 0 {
      BitOrFits(a / 2, b / 2, n - 1);
    }
  }

  lemma BitOrOfDouble(a: nat, x: nat)
    ensures BitOr(a, 2 * x) == 2 * BitOr(a / 2, x) + a % 2
  {
    assert 2 * x / 2 == x && 2 * x % 2 == 0;
    if a == 0 {
      assert BitOr(0, x) == x;
    }
  }

  lemma DoubleProduct(b: nat, n: nat)
    requires n > 0
    ensures b * Pow2(n) == 2 * (b * Pow2(n - 1))
  {
    var p := Pow2(n - 1);
    assert Pow2(n) == 2 * p;
  }

  /** Disjoint bits add up. */
  lemma {:induction false} BitOrIsSum(a: nat, b: nat, n: nat)
    requires a < Pow2(n)
    ensures BitOr(a, b * Pow2(n)) == a + b * Pow2(n)
  {
    if n == 0 {
      assert a == 0;
    } else {
      assert Pow2(n) == 2 * Pow2(n - 1);
      BitOrIsSum(a / 2, b, n - 1);
      hide Pow2, BitOr;
      DoubleProduct(b, n);
      BitOrOfDouble(a, b * Pow2(n - 1));
    }
  }

  lemma Pow2Of32()
    ensures Pow2(32) == TWO_32
  {
    assert Pow2(4) == 16;
    Pow2Sum(4, 4);
    Pow2Sum(8, 8);
    Pow2Sum(16, 16);
  }

  // --- Big-endian integers ----------------------------------------------------------------------

  /** Bytes read as one integer, most significant first. */
  function BigEndian(bytes: seq<byte>): nat {
    if bytes == [] then 0 else BigEndian(bytes[..|bytes| - 1]) * 0x100 + bytes[|bytes| - 1]
  }

  /** `n` in `k` bytes, most significant first; what does not fit is cut off. */
  function ToBigEndian(n: nat, k: nat): (r: seq<byte>)
    ensures |r| == k
    decreases k
  {
    if k == 0 then [] else ToBigEndian(n / 0x100, k - 1) + [n % 0x100]
  }

  /** The bytes of an integer are the only ones that read as it. */
  lemma {:induction false} ToBigEndianOf(bytes: seq<byte>)
    ensures ToBigEndian(BigEndian(bytes), |bytes|) == bytes
    decreases |bytes|
  {
    if bytes != [] {
      var init := bytes[..|bytes| - 1];
      ToBigEndianOf(init);
      assert BigEndian(bytes) / 0x100 == BigEndian(init) && BigEndian(bytes) % 0x100 == bytes[|bytes| - 1];
      assert bytes == init + [bytes[|bytes| - 1]];
    }
  }

  /** An integer comes back from its bytes, if they hold it. */
  lemma {:induction false} BigEndianOf(n: nat, k: nat)
    requires n < Pow2(8 * k)
    ensures BigEndian(ToBigEndian(n, k)) == n
    decreases k
  {
    if k > 0 {
      Pow2Sum(8, 8 * (k - 1));
      assert Pow2(8) == 0x100;
      BigEndianOf(n / 0x100, k - 1);
      var bytes := ToBigEndian(n, k);
      assert bytes[..k - 1] == ToBigEndian(n / 0x100, k - 1);
    }
  }

  lemma BigEndianOfTwo(bytes: seq<byte>)
    requires |bytes| == 2
    ensures BigEndian(bytes) == ReadU16(bytes[0], bytes[1])
  {
    var init := bytes[..1];
    assert BigEndian(init) == BigEndian(init[..0]) * 0x100 + init[0];
    assert BigEndian(init[..0]) == 0;
  }

  lemma {:induction false} BigEndianJoin(a: seq<byte>, b: seq<byte>)
    ensures BigEndian(a + b) == BigEndian(a) * Pow2(8 * |b|) + BigEndian(b)
    decreases |b|
  {
    if b == [] {
      assert a + b == a;
    } else {
      var init := b[..|b| - 1];
      BigEndianJoin(a, init);
      assert (a + b)[..|a + b| - 1] == a + init;
      assert Pow2(8) == 0x100;
      Pow2Sum(8 * |init|, 8);
      ShiftByte(BigEndian(a), Pow2(8 * |init|), BigEndian(init));
    }
  }

  lemma ShiftByte(high: nat, p: nat, low: nat)
    ensures (high * p + low) * 0x100 == high * (p * 0x100) + low * 0x100
  {
  }

  lemma {:induction false} BigEndianFits(bytes: seq<byte>)
    ensures BigEndian(bytes) < Pow2(8 * |bytes|)
    decreases |bytes|
  {
    if bytes != [] {
      BigEndianFits(bytes[..|bytes| - 1]);
      assert Pow2(8) == 0x100;
      Pow2Sum(8, 8 * (|bytes| - 1));
    }
  }

  lemma Pow2Of48()
    ensures Pow2(48) == 0x1_0000_0000_0000
  {
    assert Pow2(4) == 16;
    Pow2Sum(4, 4);
    Pow2Sum(8, 8);
    Pow2Sum(16, 16);
    Pow2Sum(16, 32);
  }

  /** One more than the integer in `bytes`: carries run from the last byte, and out of the first if all are 0xff. */
  function Incremented(bytes: seq<byte>): (r: (seq<byte>, bool))
    ensures |r.0| == |bytes|
    decreases |bytes|
  {
    if bytes == [] then ([], false)
    else
      var init, last := bytes[..|bytes| - 1], bytes[|bytes| - 1];
      if last < 0xff then (init + [last + 1], true)
      else
        var (higher, ok) := Incremented(init);
        (higher + [0], ok)
  }

  /** Without a carry out of the first byte the integer grows by one; with it, it wraps to 0. */
  lemma {:induction false} IncrementedIsNext(bytes: seq<byte>)
    ensures var (r, ok) := Incremented(bytes);
            && BigEndian(bytes) + 1 <= Pow2(8 * |bytes|)
            && (ok <==> BigEndian(bytes) + 1 < Pow2(8 * |bytes|))
            && BigEndian(r) == if ok then BigEndian(bytes) + 1 else 0
    decreases |bytes|
  {
    if bytes == [] {
      assert Pow2(0) == 1;
    } else {
      assert Pow2(8) == 0x100;
      hide BigEndian, Pow2;
      var init, last := bytes[..|bytes| - 1], bytes[|bytes| - 1];
      assert bytes == init + [last];
      IncrementedIsNext(init);
      Pow2Sum(8, 8 * |init|);
      AddByte(init, last);
      if last < 0xff {
        AddByte(init, last + 1);
      } else {
        AddByte(Incremented(init).0, 0);
      }
    }
  }

  lemma AddByte(bytes: seq<byte>, last: byte)
    ensures BigEndian(bytes + [last]) == BigEndian(bytes) * 0x100 + last
  {
    assert (bytes + [last])[..|bytes|] == bytes;
  }

  // --- Remainders --------------------------------------------------------------------------------

  lemma ModUnique(x: nat, p: nat, q: nat, r: nat)
    requires 0 <= r < p && x == p * q + r
    ensures x % p == r
  {
    var d := x / p - q;
    assert p * (x / p) + x % p == x;
    assert p * d == r - x % p;
    MultipleBelow(p, d);
  }

  lemma MultipleBelow(p: nat, d: int)
    ensures d >= 1 ==> p * d >= p
    ensures d <= -1 ==> p * d + p <= 0
  {
  }
}
