/** The decoder's bit set of required fields: two 32-bit words for the first 64 of them. */
module PbRequired {
  import opened Bits
  import opened Bytes
  import opened PbCodec
  import opened PbIterator

  const ALL_BITS: nat := 0xFFFF_FFFF

  predicate SeenBit(words: seq<nat>, rank: nat)
    requires |words| == 2 && rank < PB_MAX_REQUIRED_FIELDS
  {
    TestBit(words[rank / 32], rank % 32)
  }

  /** Every bit of the words stands for one required field, and is set when that field has been seen. */
  ghost predicate Records(words: seq<nat>, fs: seq<Field>, seen: set<nat>) {
    && |words| == 2 && words[0] < TWO_32 && words[1] < TWO_32
    && (forall i :: 0 <= i < |fs| && fs[i].rule == Required && RequiredBefore(fs, i) < PB_MAX_REQUIRED_FIELDS ==>
          (SeenBit(words, RequiredBefore(fs, i)) <==> i in seen))
    && (forall r :: RequiredBefore(fs, |fs|) <= r < PB_MAX_REQUIRED_FIELDS ==> !SeenBit(words, r))
  }

  function MarkSeen(words: seq<nat>, rank: nat): seq<nat>
    requires |words| == 2 && rank < PB_MAX_REQUIRED_FIELDS
  {
    words[rank / 32 := OrBit(words[rank / 32], rank % 32)]
  }

  lemma NothingSeen(fs: seq<Field>)
    ensures Records([0, 0], fs, {})
  {
    forall r | 0 <= r < PB_MAX_REQUIRED_FIELDS ensures !SeenBit([0, 0], r) {
      TestBitOfZero(r % 32);
    }
  }

  lemma MarkSeenBit(words: seq<nat>, rank: nat, r: nat)
    requires |words| == 2 && rank < PB_MAX_REQUIRED_FIELDS && r < PB_MAX_REQUIRED_FIELDS
    ensures SeenBit(MarkSeen(words, rank), r) <==> r == rank || SeenBit(words, r)
  {
    TestOrBit(words[rank / 32], rank % 32, r % 32);
  }

  lemma {:induction false} RanksIncrease(fs: seq<Field>, i: nat, j: nat)
    requires i < j <= |fs|
    ensures RequiredBefore(fs, i) + (if fs[i].rule == Required then 1 else 0) <= RequiredBefore(fs, j)
    decreases j
  {
    if i + 1 < j {
      RanksIncrease(fs, i, j - 1);
    }
  }

  /** Seeing the required field at position `i` sets the bit of its rank and no other field's. */
  lemma MarkRecords(words: seq<nat>, fs: seq<Field>, seen: set<nat>, i: nat)
    requires Records(words, fs, seen) && i < |fs| && fs[i].rule == Required
    requires RequiredBefore(fs, i) < PB_MAX_REQUIRED_FIELDS
    ensures Records(MarkSeen(words, RequiredBefore(fs, i)), fs, seen + {i})
  {
    hide RequiredBefore, SeenBit;
    var rank := RequiredBefore(fs, i);
    var after := MarkSeen(words, rank);
    Pow2Of32();
    OrBitFits(words[rank / 32], rank % 32, 32);
    forall j | 0 <= j < |fs| && fs[j].rule == Required && RequiredBefore(fs, j) < PB_MAX_REQUIRED_FIELDS
      ensures SeenBit(after, RequiredBefore(fs, j)) <==> j in seen + {i}
    {
      MarkSeenBit(words, rank, RequiredBefore(fs, j));
      if j < i {
        RanksIncrease(fs, j, i);
      } else if i < j {
        RanksIncrease(fs, i, j);
      }
    }
    forall r | RequiredBefore(fs, |fs|) <= r < PB_MAX_REQUIRED_FIELDS ensures !SeenBit(after, r) {
      RanksIncrease(fs, i, |fs|);
      MarkSeenBit(words, rank, r);
    }
  }

  /** A field past the first 64 required ones leaves no trace, and none is needed. */
  lemma UntrackedRecords(words: seq<nat>, fs: seq<Field>, seen: set<nat>, i: nat)
    requires Records(words, fs, seen) && i < |fs|
    requires RequiredBefore(fs, i) >= PB_MAX_REQUIRED_FIELDS
    ensures Records(words, fs, seen + {i})
  {
  }

  /** Each rank belongs to a field. */
  lemma {:induction false} FieldOfRank(fs: seq<Field>, r: nat, n: nat) returns (i: nat)
    requires n <= |fs| && r < RequiredBefore(fs, n)
    ensures i < n && fs[i].rule == Required && RequiredBefore(fs, i) == r
    decreases n
  {
    if r == RequiredBefore(fs, n - 1) {
      i := n - 1;
    } else {
      i := FieldOfRank(fs, r, n - 1);
    }
  }

  function Min(a: nat, b: nat): nat {
    if a < b then a else b
  }

  lemma SeenIsAllRanks(words: seq<nat>, fs: seq<Field>, seen: set<nat>)
    requires Records(words, fs, seen)
    ensures RequiredSeen(fs, seen) <==>
            forall r :: 0 <= r < Min(RequiredBefore(fs, |fs|), PB_MAX_REQUIRED_FIELDS) ==> SeenBit(words, r)
  {
    hide SeenBit;
    if RequiredSeen(fs, seen) {
      forall r | 0 <= r < Min(RequiredBefore(fs, |fs|), PB_MAX_REQUIRED_FIELDS) ensures SeenBit(words, r) {
        var i := FieldOfRank(fs, r, |fs|);
      }
    } else {
      var i :| 0 <= i < |fs| && fs[i].rule == Required && RequiredBefore(fs, i) < PB_MAX_REQUIRED_FIELDS && i !in seen;
      RanksIncrease(fs, i, |fs|);
      assert !SeenBit(words, RequiredBefore(fs, i));
    }
  }

  /** `allbits >> (32 - n)` has exactly the low `n` bits. */
  lemma LowOnes(n: nat)
    requires n <= 32
    ensures Pow2(n) > 0 && ShiftRight(ALL_BITS, 32 - n) == Pow2(n) - 1
  {
    Pow2Of32();
    ShiftOnes(n, 32 - n);
  }

  /** Comparing word `k` with `n` ones checks the ranks it holds. */
  lemma WordIsFull(words: seq<nat>, k: nat, n: nat)
    requires |words| == 2 && k < 2 && words[k] < TWO_32 && n <= 32
    requires forall r :: 32 * k + n <= r < 32 * k + 32 ==> !SeenBit(words, r)
    ensures words[k] == Pow2(n) - 1 <==> forall r :: 32 * k <= r < 32 * k + n ==> SeenBit(words, r)
  {
    hide TestBit, Pow2;
    Pow2Of32();
    forall i | 0 <= i < 32 ensures SeenBit(words, 32 * k + i) == TestBit(words[k], i) {
      assert (32 * k + i) / 32 == k && (32 * k + i) % 32 == i;
    }
    forall i | n <= i < 32 ensures !TestBit(words[k], i) {
      assert !SeenBit(words, 32 * k + i);
    }
    BitsBelow(words[k], n, 32);
    if words[k] == Pow2(n) - 1 {
      forall r | 32 * k <= r < 32 * k + n ensures SeenBit(words, r) {
        OnesHaveBit(n, r - 32 * k);
        assert r == 32 * k + (r - 32 * k);
      }
    }
    if forall r :: 32 * k <= r < 32 * k + n ==> SeenBit(words, r) {
      forall i | 0 <= i < n ensures TestBit(words[k], i) {
        assert SeenBit(words, 32 * k + i);
      }
      AllBitsAreOnes(words[k], n);
    }
  }

  /** Whole words first, then the remaining bits. */
  ghost predicate WordsFull(words: seq<nat>, n: nat)
    requires |words| == 2 && n <= PB_MAX_REQUIRED_FIELDS
  {
    && (forall k :: 0 <= k < n / 32 ==> words[k] == ALL_BITS)
    && (n % 32 != 0 ==> words[n / 32] == ShiftRight(ALL_BITS, 32 - n % 32))
  }

  lemma FullWord(words: seq<nat>, fs: seq<Field>, seen: set<nat>, k: nat, n: nat)
    requires Records(words, fs, seen) && k < 2 && n <= 32
    requires n == 32 || 32 * k + n == RequiredBefore(fs, |fs|)
    ensures words[k] == ShiftRight(ALL_BITS, 32 - n) <==> forall r :: 32 * k <= r < 32 * k + n ==> SeenBit(words, r)
  {
    hide SeenBit;
    LowOnes(n);
    WordIsFull(words, k, n);
  }

  /** Comparing the words with all ones decides whether the first 64 required fields have been seen. */
  lemma CheckIsExact(words: seq<nat>, fs: seq<Field>, seen: set<nat>)
    requires Records(words, fs, seen)
    ensures WordsFull(words, Min(RequiredBefore(fs, |fs|), PB_MAX_REQUIRED_FIELDS)) <==> RequiredSeen(fs, seen)
  {
    hide SeenBit, RequiredSeen, RequiredBefore, ShiftRight;
    var n := Min(RequiredBefore(fs, |fs|), PB_MAX_REQUIRED_FIELDS);
    SeenIsAllRanks(words, fs, seen);
    assert ShiftRight(ALL_BITS, 0) == ALL_BITS by { NoShift(ALL_BITS); }
    forall k | 0 <= k < n / 32
      ensures words[k] == ALL_BITS <==> forall r :: 32 * k <= r < 32 * k + 32 ==> SeenBit(words, r)
    {
      FullWord(words, fs, seen, k, 32);
    }
    if n % 32 != 0 {
      FullWord(words, fs, seen, n / 32, n % 32);
    }
    if WordsFull(words, n) {
      forall r | 0 <= r < n ensures SeenBit(words, r) {
        var k := r / 32;
        assert 32 * k <= r < 32 * k + 32;
      }
    } else if n % 32 != 0 && words[n / 32] != ShiftRight(ALL_BITS, 32 - n % 32) {
      var r :| 32 * (n / 32) <= r < n && !SeenBit(words, r);
    } else {
      var k :| 0 <= k < n / 32 && words[k] != ALL_BITS;
      var r :| 32 * k <= r < 32 * k + 32 && !SeenBit(words, r);
    }
  }

  lemma NoShift(x: nat)
    ensures ShiftRight(x, 0) == x
  {
  }

  /** The check at the end of the field loop: the number of required fields is found by running the iterator to its
      end, wherever the last search left it. */
  method CheckRequired(iter: FieldIter, words: seq<nat>) returns (ok: bool)
    requires iter.Valid() && |words| == 2
    requires forall i :: 0 <= i < |iter.fields| ==> iter.fields[i].tag != 0
    modifies iter
    ensures ok <==> WordsFull(words, Min(RequiredBefore(iter.fields, |iter.fields|), PB_MAX_REQUIRED_FIELDS))
  {
    hide ShiftRight;
    var fs := iter.fields;
    var count, lastRequired := 0, false;
    var more := true;
    while more
      invariant iter.Valid()
      invariant !more ==> count == RequiredBefore(fs, if fs == [] then 0 else |fs| - 1)
      invariant !more && fs != [] ==> lastRequired == (fs[|fs| - 1].rule == Required)
      decreases more, |fs| - iter.pos
    {
      count := iter.requiredIndex;
      lastRequired := fs == [] || fs[iter.pos].rule == Required;
      more := iter.Next();
    }
    if lastRequired && iter.CurrentTag() != 0 {
      count := count + 1;
    }
    if count > PB_MAX_REQUIRED_FIELDS {
      count := PB_MAX_REQUIRED_FIELDS;
    }
    var i := 0;
    while i < count / 32
      invariant 0 <= i <= count / 32
      invariant forall k :: 0 <= k < i ==> words[k] == ALL_BITS
    {
      if words[i] != ALL_BITS {
        return false;
      }
      i := i + 1;
    }
    ok := count % 32 == 0 || words[count / 32] == ShiftRight(ALL_BITS, 32 - count % 32);
  }
}
