/** The DTLS anti-replay window (RFC 6347, section 4.1.2.6): 64 sequence numbers below the largest one seen. */
module ReplayWindow {
  import opened Bits
  import opened Bytes

  const WINDOW_SIZE := 64

  // --- 64-bit masks -----------------------------------------------------------------------------

  /** `mask << shift` on 64 bits: the bits shifted out at the top are lost. */
  function Shl64(mask: nat, shift: nat): nat
    decreases shift
  {
    if shift == 0 then mask else Shl64(2 * mask % TWO_64, shift - 1)
  }

  lemma {:induction false} TestBitOfMod(mask: nat, n: nat, i: nat)
    requires i < n
    ensures Pow2(n) > 0 && (TestBit(mask % Pow2(n), i) <==> TestBit(mask, i))
  {
    Pow2Positive(n);
    Pow2Positive(n - 1);
    HalfOfMod(mask, Pow2(n - 1));
    if i > 0 {
      TestBitOfMod(mask / 2, n - 1, i - 1);
    }
  }

  lemma HalfOfMod(m: nat, p: nat)
    requires p > 0
    ensures m % (2 * p) / 2 == m / 2 % p
    ensures m % (2 * p) % 2 == m % 2
  {
    DoubledQuotient(m, p);
    Halved(m, p, m / (2 * p), m % (2 * p));
  }

  lemma DoubledQuotient(m: nat, p: nat)
    requires p > 0
    ensures m == 2 * (p * (m / (2 * p))) + m % (2 * p) && m % (2 * p) < 2 * p
  {
    var d := 2 * p;
    assert m == d * (m / d) + m % d && m % d < d;
    assert d * (m / d) == 2 * (p * (m / d));
  }

  lemma Halved(m: nat, p: nat, q: nat, r: nat)
    requires r < 2 * p && m == 2 * (p * q) + r
    ensures r / 2 == m / 2 % p && r % 2 == m % 2
  {
    HalfOfSum(m, p * q, r);
    ModUnique(m / 2, p, q, r / 2);
  }

  lemma HalfOfSum(m: nat, pq: nat, r: nat)
    requires m == 2 * pq + r
    ensures m / 2 == pq + r / 2 && m % 2 == r % 2
  {
  }

  /** Shifting renumbers the bits: bit i of the result is bit i - shift of the argument. */
  lemma {:induction false} TestShl64(mask: nat, shift: nat, i: nat)
    requires i < 64
    ensures TestBit(Shl64(mask, shift), i) <==> shift <= i && TestBit(mask, i - shift)
    decreases shift
  {
    if shift > 0 {
      TestShl64(2 * mask % TWO_64, shift - 1, i);
      if shift - 1 <= i {
        Pow2Of64();
        TestBitOfMod(2 * mask, 64, i - (shift - 1));
      }
    }
  }

  lemma {:induction false} Shl64Fits(mask: nat, shift: nat)
    requires mask < TWO_64
    ensures Shl64(mask, shift) < TWO_64
    decreases shift
  {
    if shift > 0 {
      Shl64Fits(2 * mask % TWO_64, shift - 1);
    }
  }

  // --- The window -------------------------------------------------------------------------------

  datatype Window = Window(mask: uint64, maxSeqNum: uint64)

  const EMPTY := Window(0, 0)

  /** Whether `seqNum` has been seen or is stale. */
  predicate ShouldDiscard(w: Window, seqNum: uint64) {
    if seqNum > w.maxSeqNum then
      false
    else
      var idx := w.maxSeqNum - seqNum;
      idx >= WINDOW_SIZE || TestBit(w.mask, idx)
  }

  /** The window after recording `seqNum`, sliding forward if needed. */
  function Record(w: Window, seqNum: uint64): Window {
    var slid :=
      if seqNum > w.maxSeqNum then
        var shift := seqNum - w.maxSeqNum;
        Shl64Fits(w.mask, shift);
        Window(if shift >= WINDOW_SIZE then 0 else Shl64(w.mask, shift), seqNum)
      else
        w;
    var idx := slid.maxSeqNum - seqNum;
    if idx < WINDOW_SIZE then
      Pow2Of64(); OrBitFits(slid.mask, idx, 64);
      slid.(mask := OrBit(slid.mask, idx))
    else
      slid
  }

  /** `w` is the window after exactly the numbers in `seen` have been recorded. */
  ghost predicate Represents(w: Window, seen: set<uint64>) {
    && (if seen == {} then w == EMPTY else w.maxSeqNum in seen)
    && (forall s :: s in seen ==> s <= w.maxSeqNum)
    && (forall i: nat :: i < WINDOW_SIZE && i <= w.maxSeqNum ==>
          (TestBit(w.mask, i) <==> w.maxSeqNum - i in seen))
  }

  lemma EmptyRepresents()
    ensures Represents(EMPTY, {})
  {
    forall i: nat ensures !TestBit(0, i) {
      TestBitOfZero(i);
    }
  }

  /** The window discards exactly the numbers already seen and those at least 64 below the largest seen. */
  lemma DiscardsExactly(w: Window, seen: set<uint64>, seqNum: uint64)
    requires Represents(w, seen)
    ensures ShouldDiscard(w, seqNum) <==> seqNum in seen || exists m :: m in seen && seqNum + WINDOW_SIZE <= m
  {
    if seqNum <= w.maxSeqNum {
      var idx := w.maxSeqNum - seqNum;
      if idx >= WINDOW_SIZE {
        assert w.maxSeqNum in seen;
      }
    }
  }

  /** Recording a number, stale or not, adds exactly that number. */
  lemma RecordRepresents(w: Window, seen: set<uint64>, seqNum: uint64)
    requires Represents(w, seen)
    ensures Represents(Record(w, seqNum), seen + {seqNum})
  {
    var w', seen' := Record(w, seqNum), seen + {seqNum};
    forall i: nat | i < WINDOW_SIZE && i <= w'.maxSeqNum
      ensures TestBit(w'.mask, i) <==> w'.maxSeqNum - i in seen'
    {
      var idx := w'.maxSeqNum - seqNum;
      if seqNum > w.maxSeqNum {
        var shift := seqNum - w.maxSeqNum;
        TestBitOfZero(i);
        TestShl64(w.mask, shift, i);
        TestOrBit(if shift >= WINDOW_SIZE then 0 else Shl64(w.mask, shift), idx, i);
        if seen == {} && shift <= i {
          TestBitOfZero(i - shift);
        }
        assert i >= shift ==> w'.maxSeqNum - i == w.maxSeqNum - (i - shift);
      } else if idx < WINDOW_SIZE {
        TestOrBit(w.mask, idx, i);
      }
    }
  }

  /** Any sequence of recorded numbers leaves a window that represents the set of them. */
  function RecordAll(nums: seq<uint64>): Window {
    if nums == [] then EMPTY else Record(RecordAll(nums[..|nums| - 1]), nums[|nums| - 1])
  }

  ghost function Elements(nums: seq<uint64>): set<uint64> {
    set m | m in nums
  }

  lemma {:induction false} WindowIsExact(nums: seq<uint64>, seqNum: uint64)
    ensures ShouldDiscard(RecordAll(nums), seqNum)
       <==> seqNum in nums || exists m :: m in nums && seqNum + WINDOW_SIZE <= m
  {
    RecordAllRepresents(nums);
    DiscardsExactly(RecordAll(nums), Elements(nums), seqNum);
    assert forall m :: m in nums <==> m in Elements(nums);
  }

  lemma {:induction false} RecordAllRepresents(nums: seq<uint64>)
    ensures Represents(RecordAll(nums), Elements(nums))
  {
    if nums == [] {
      EmptyRepresents();
      assert Elements(nums) == {};
    } else {
      var init, last := nums[..|nums| - 1], nums[|nums| - 1];
      RecordAllRepresents(init);
      RecordRepresents(RecordAll(init), Elements(init), last);
      assert nums == init + [last];
      assert Elements(nums) == Elements(init) + {last};
    }
  }

  /** The eight bytes of epoch and sequence number read as one big-endian integer. */
  function SequenceU64(epoch: uint16, seqNum: uint48): uint64 {
    epoch * 0x1_0000_0000_0000 + seqNum
  }

  // --- The structure in place -------------------------------------------------------------------

  method ToU64BE(bytes: array<byte>) returns (ret: uint64)
    requires bytes.Length == 8
    ensures ret == BigEndian(bytes[..])
  {
    var acc: nat := 0;
    var bound: nat := 1;
    for i := 0 to 8
      invariant acc == BigEndian(bytes[..i])
      invariant 0 <= acc < bound && bound == Pow2(8 * i)
    {
      assert bytes[..i + 1][..i] == bytes[..i];
      Pow2Sum(4, 4);
      Pow2Sum(8, 8 * i);
      acc := acc * 0x100 + bytes[i];
      bound := bound * 0x100;
    }
    Pow2Of64();
    assert bytes[..8] == bytes[..];
    ret := acc;
  }

  /** The bitmap kept per read epoch. `seen` is the set of numbers recorded since it was zeroed. */
  class Bitmap {
    var mask: uint64
    var maxSeqNum: uint64
    ghost var seen: set<uint64>

    ghost predicate Valid()
      reads this
    {
      Represents(Window(mask, maxSeqNum), seen)
    }

    constructor ()
      ensures Valid() && seen == {} && Window(mask, maxSeqNum) == EMPTY
    {
      mask, maxSeqNum, seen := 0, 0, {};
      new;
      EmptyRepresents();
    }

    /** Zeroes the structure, as a change of read epoch does. */
    method Reset()
      modifies this
      ensures Valid() && seen == {} && Window(mask, maxSeqNum) == EMPTY
    {
      mask, maxSeqNum, seen := 0, 0, {};
      EmptyRepresents();
    }

    method Discards(seqNum: array<byte>) returns (discard: bool)
      requires Valid() && seqNum.Length == 8
      ensures var s := BigEndian(seqNum[..]);
              discard <==> s in seen || exists m :: m in seen && s + WINDOW_SIZE <= m
      ensures BigEndian(seqNum[..]) < TWO_64 && discard == ShouldDiscard(Window(mask, maxSeqNum), BigEndian(seqNum[..]))
    {
      var s := ToU64BE(seqNum);
      DiscardsExactly(Window(mask, maxSeqNum), seen, s);
      if s > maxSeqNum {
        return false;
      }
      var idx := maxSeqNum - s;
      discard := idx >= WINDOW_SIZE || TestBit(mask, idx);
    }

    method Accept(seqNum: array<byte>)
      requires Valid() && seqNum.Length == 8
      modifies this
      ensures Valid() && seen == old(seen) + {BigEndian(seqNum[..])}
      ensures BigEndian(seqNum[..]) < TWO_64
      ensures Window(mask, maxSeqNum) == Record(old(Window(mask, maxSeqNum)), BigEndian(seqNum[..]))
    {
      var s := ToU64BE(seqNum);
      RecordRepresents(Window(mask, maxSeqNum), seen, s);
      if s > maxSeqNum {
        var shift := s - maxSeqNum;
        Shl64Fits(mask, shift);
        mask := if shift >= WINDOW_SIZE then 0 else Shl64(mask, shift);
        maxSeqNum := s;
      }
      var idx := maxSeqNum - s;
      if idx < WINDOW_SIZE {
        Pow2Of64();
        OrBitFits(mask, idx, 64);
        mask := OrBit(mask, idx);
      }
      seen := seen + {s};
    }
  }
}
