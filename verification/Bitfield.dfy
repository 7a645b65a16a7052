/** Bit ranges of 64-bit values (bitfield.hh).  A word is its 64 bits, least significant first, and the
    C operators act on them; a range is given by its first (highest) and last (lowest) bit. */
module Bitfield {
  import opened Arith

  type Word = w: seq<bool> | |w| == 64 witness seq(64, _ => false)

  function Zero(): Word { seq(64, _ => false) }
  function One(): Word { seq(64, i => i == 0) }

  function Shl(w: Word, s: nat): Word { seq(64, i requires 0 <= i < 64 => i >= s && w[i - s]) }
  function Shr(w: Word, s: nat): Word { seq(64, i requires 0 <= i < 64 => i + s < 64 && w[i + s]) }
  function BitAnd(a: Word, b: Word): Word { seq(64, i requires 0 <= i < 64 => a[i] && b[i]) }
  function BitOr(a: Word, b: Word): Word { seq(64, i requires 0 <= i < 64 => a[i] || b[i]) }
  function BitNot(a: Word): Word { seq(64, i requires 0 <= i < 64 => !a[i]) }

  /** w - 1: the borrow runs through the zeros below the lowest set bit. */
  function Dec(w: Word): Word {
    seq(64, i requires 0 <= i < 64 => w[i] != AllClear(w, i))
  }

  predicate AllClear(w: seq<bool>, n: nat)
    requires n <= |w|
  {
    forall j :: 0 <= j < n ==> !w[j]
  }

  // ---- the functions of the header ----

  function Mask(n: nat): Word
    requires n <= 64
  {
    if n == 64 then BitNot(Zero()) else Dec(Shl(One(), n))
  }

  function Bits(val: Word, first: nat, last: nat): Word
    requires last <= first <= 63
  {
    BitAnd(Shr(val, last), Mask(first - last + 1))
  }

  function Mbits(val: Word, first: nat, last: nat): Word
    requires last <= first <= 63
  {
    BitAnd(val, BitAnd(Mask(first + 1), BitNot(Mask(last))))
  }

  function RangeMask(first: nat, last: nat): Word
    requires last <= first <= 63
  {
    Shl(Mask(first - last + 1), last)
  }

  function InsertBits(val: Word, first: nat, last: nat, x: Word): Word
    requires last <= first <= 63
  {
    BitOr(BitAnd(Shl(x, last), RangeMask(first, last)), BitAnd(val, BitNot(RangeMask(first, last))))
  }

  /** sext<n>. */
  function Sext(val: Word, n: nat): Word
    requires 1 <= n <= 64
  {
    if Bits(val, n - 1, n - 1) != Zero() then BitOr(val, BitNot(Mask(n))) else val
  }

  // ---- the number a word stands for ----

  function Num(w: seq<bool>): nat {
    if w == [] then 0 else (if w[0] then 1 else 0) + 2 * Num(w[1..])
  }

  lemma {:induction false} NumDec(w: seq<bool>, d: seq<bool>)
    requires |d| == |w| && (exists i :: 0 <= i < |w| && w[i])
    requires forall i :: 0 <= i < |w| ==> d[i] == (w[i] != AllClear(w, i))
    ensures Num(d) + 1 == Num(w)
  {
    assert AllClear(w, 0);
    if w[0] {
      assert d[1..] == w[1..] by {
        forall i | 1 <= i < |w| ensures d[i] == w[i] {
          assert !AllClear(w, i);
        }
      }
    } else {
      forall i | 0 <= i < |w| - 1
        ensures d[1..][i] == (w[1..][i] != AllClear(w[1..], i))
      {
        assert AllClear(w, i + 1) <==> AllClear(w[1..], i) by {
          assert forall j :: 0 < j < i + 1 ==> w[j] == w[1..][j - 1];
        }
      }
      var k :| 0 <= k < |w| && w[k];
      assert w[1..][k - 1];
      NumDec(w[1..], d[1..]);
    }
  }

  /** Dec subtracts one. */
  lemma DecNumber(w: Word)
    requires w != Zero()
    ensures Num(Dec(w)) + 1 == Num(w)
  {
    ZeroExactly(w);
    NumDec(w, Dec(w));
  }

  lemma {:induction false} NumAllOnes(w: seq<bool>)
    requires forall i :: 0 <= i < |w| ==> w[i]
    ensures Num(w) + 1 == Pow2(|w|)
  {
    if w != [] {
      NumAllOnes(w[1..]);
    }
  }

  lemma {:induction false} NumZero(w: seq<bool>)
    requires AllClear(w, |w|)
    ensures Num(w) == 0
  {
    if w != [] {
      NumZero(w[1..]);
    }
  }

  lemma {:induction false} NumOneBit(w: seq<bool>, n: nat)
    requires n < |w| && forall i :: 0 <= i < |w| ==> w[i] == (i == n)
    ensures Num(w) == Pow2(n)
  {
    if n == 0 {
      NumZero(w[1..]);
    } else {
      NumOneBit(w[1..], n - 1);
    }
  }

  lemma MaskBits(n: nat, i: nat)
    requires n <= 64 && i < 64
    ensures Mask(n)[i] <==> i < n
  {
    if n < 64 {
      assert Shl(One(), n)[n];
      assert AllClear(Shl(One(), n), i) <==> i <= n;
    }
  }

  /** A mask of n bits is the number 2^n - 1. */
  lemma MaskNumber(n: nat)
    requires n <= 64
    ensures Num(Mask(n)) + 1 == Pow2(n)
  {
    if n == 64 {
      NumAllOnes(Mask(n));
    } else {
      var w := Shl(One(), n);
      assert w[n] && !Zero()[n];
      DecNumber(w);
      NumOneBit(w, n);
    }
  }

  // ---- the range functions, bit by bit ----

  lemma BitsBit(val: Word, first: nat, last: nat, i: nat)
    requires last <= first <= 63 && i < 64
    ensures Bits(val, first, last)[i] <==> i <= first - last && val[last + i]
  {
    MaskBits(first - last + 1, i);
  }

  lemma InsertBit(val: Word, first: nat, last: nat, x: Word, i: nat)
    requires last <= first <= 63 && i < 64
    ensures InsertBits(val, first, last, x)[i] == if last <= i <= first then x[i - last] else val[i]
  {
    if i >= last {
      MaskBits(first - last + 1, i - last);
    }
  }

  lemma MbitsBit(val: Word, first: nat, last: nat, i: nat)
    requires last <= first <= 63 && i < 64
    ensures Mbits(val, first, last)[i] <==> last <= i <= first && val[i]
  {
    MaskBits(first + 1, i);
    MaskBits(last, i);
  }

  // ---- ranges ----

  /** Reading a range just inserted gives the low bits of what was inserted. */
  lemma ReadInserted(val: Word, first: nat, last: nat, x: Word)
    requires last <= first <= 63
    ensures Bits(InsertBits(val, first, last, x), first, last) == BitAnd(x, Mask(first - last + 1))
  {
    var w := InsertBits(val, first, last, x);
    var n := first - last + 1;
    forall i | 0 <= i < 64 ensures Bits(w, first, last)[i] == BitAnd(x, Mask(n))[i] {
      BitsBit(w, first, last, i);
      MaskBits(n, i);
      if i < n {
        InsertBit(val, first, last, x, last + i);
      }
    }
  }

  /** A range disjoint from the inserted one is unchanged. */
  lemma OthersUnchanged(val: Word, first: nat, last: nat, x: Word, first': nat, last': nat)
    requires last <= first <= 63 && last' <= first' <= 63 && (first' < last || first < last')
    ensures Bits(InsertBits(val, first, last, x), first', last') == Bits(val, first', last')
  {
    var w := InsertBits(val, first, last, x);
    forall i | 0 <= i < 64 ensures Bits(w, first', last')[i] == Bits(val, first', last')[i] {
      BitsBit(w, first', last', i);
      BitsBit(val, first', last', i);
      if i <= first' - last' {
        InsertBit(val, first, last, x, last' + i);
      }
    }
  }

  /** Masking in place is extracting and shifting back. */
  lemma MbitsShifted(val: Word, first: nat, last: nat)
    requires last <= first <= 63
    ensures Mbits(val, first, last) == Shl(Bits(val, first, last), last)
  {
    forall i | 0 <= i < 64 ensures Mbits(val, first, last)[i] == Shl(Bits(val, first, last), last)[i] {
      MbitsBit(val, first, last, i);
      if i >= last {
        BitsBit(val, first, last, i - last);
      }
    }
  }

  /** Every bit from n - 1 up is a copy of bit n - 1: the n-bit sign extension. */
  ghost predicate SignExtended(r: Word, val: Word, n: nat)
    requires 1 <= n <= 64
  {
    forall i :: 0 <= i < 64 ==> r[i] == if i < n then val[i] else val[n - 1]
  }

  lemma SignBit(val: Word, n: nat)
    requires 1 <= n <= 64
    ensures Bits(val, n - 1, n - 1) != Zero() <==> val[n - 1]
  {
    var b := Bits(val, n - 1, n - 1);
    forall i | 0 <= i < 64 ensures b[i] == (i == 0 && val[n - 1]) {
      BitsBit(val, n - 1, n - 1, i);
    }
    assert b[0] == val[n - 1];
    if !val[n - 1] {
      assert b == Zero();
    }
  }

  /** sext sign-extends exactly when the sign bit is set or nothing is set above it: with a clear sign
      bit it returns its argument as it is. */
  lemma SextExact(val: Word, n: nat)
    requires 1 <= n <= 64
    ensures SignExtended(Sext(val, n), val, n) <==> val[n - 1] || forall i :: n <= i < 64 ==> !val[i]
  {
    SignBit(val, n);
    forall i | 0 <= i < 64 ensures Sext(val, n)[i] == (val[i] || (val[n - 1] && i >= n)) {
      MaskBits(n, i);
    }
  }

  // ---- scans ----

  /** m is the highest set bit of w. */
  ghost predicate Highest(w: Word, m: nat) {
    m < 64 && w[m] && ClearFrom(w, m + 1)
  }

  /** m is the lowest set bit of w. */
  ghost predicate Lowest(w: Word, m: nat) {
    m < 64 && w[m] && AllClear(w, m)
  }

  lemma ZeroExactly(w: Word)
    ensures w == Zero() <==> AllClear(w, 64)
  {
    if AllClear(w, 64) {
      assert w == Zero();
    }
  }

  lemma ShrTwice(w: Word, a: nat, b: nat)
    ensures Shr(Shr(w, a), b) == Shr(w, a + b)
  {
  }

  lemma ShrKeeps(w: Word, k: nat, j: nat)
    requires k <= j < 64 && w[j]
    ensures Shr(w, k)[j - k] && Shr(w, k) != Zero()
  {
    ZeroExactly(Shr(w, k));
  }

  /** Whether any bit of a range is set, the test the scans make. */
  lemma RangeTest(val: Word, first: nat, last: nat)
    requires last <= first <= 63
    ensures Bits(val, first, last) == Zero() <==> forall i :: last <= i <= first ==> !val[i]
  {
    var b := Bits(val, first, last);
    forall i | 0 <= i < 64 ensures b[i] <==> i <= first - last && val[last + i] {
      BitsBit(val, first, last, i);
    }
    if b == Zero() {
      forall i | last <= i <= first ensures !val[i] {
        assert !b[i - last];
      }
    } else {
      ZeroExactly(b);
    }
  }

  ghost predicate ClearFrom(w: Word, n: nat) {
    forall i :: n <= i < 64 ==> !w[i]
  }

  lemma ShrClears(w: Word, n: nat, k: nat)
    requires ClearFrom(w, n + k)
    ensures ClearFrom(Shr(w, k), n)
  {
  }

  lemma LowerHalf(w: Word, k: nat)
    requires 1 <= k <= 32 && ClearFrom(w, 2 * k) && Bits(w, 2 * k - 1, k) == Zero()
    ensures ClearFrom(w, k)
  {
    RangeTest(w, 2 * k - 1, k);
  }

  lemma UpperHalf(w: Word, k: nat)
    requires 1 <= k <= 32 && Bits(w, 2 * k - 1, k) != Zero()
    ensures Shr(w, k) != Zero()
  {
    RangeTest(w, 2 * k - 1, k);
    var j :| k <= j <= 2 * k - 1 && w[j];
    ShrKeeps(w, k, j);
  }

  /** One halving step of findMsbSet: nothing is set from 2k up; afterwards nothing is set from k up. */
  method MsbStep(val: Word, msb: nat, k: nat, ghost val0: Word) returns (val': Word, msb': nat)
    requires 1 <= k <= 32 && val == Shr(val0, msb) && val != Zero() && msb + 2 * k <= 64 && ClearFrom(val, 2 * k)
    ensures val' == Shr(val0, msb') && val' != Zero() && msb <= msb' <= msb + k && ClearFrom(val', k)
  {
    val', msb' := val, msb;
    if Bits(val, 2 * k - 1, k) != Zero() {
      msb' := msb + k;
      val' := Shr(val, k);
      ShrTwice(val0, msb, k);
      ShrClears(val, k, k);
      UpperHalf(val, k);
    } else {
      LowerHalf(val, k);
    }
  }

  method FindMsbSet(val0: Word) returns (msb: nat)
    ensures val0 == Zero() ==> msb == 0
    ensures val0 != Zero() ==> Highest(val0, msb)
  {
    if val0 == Zero() {
      return 0;
    }
    var val := val0;
    msb := 0;
    assert Shr(val0, 0) == val0;
    val, msb := MsbStep(val, msb, 32, val0);
    val, msb := MsbStep(val, msb, 16, val0);
    val, msb := MsbStep(val, msb, 8, val0);
    val, msb := MsbStep(val, msb, 4, val0);
    val, msb := MsbStep(val, msb, 2, val0);
    val, msb := MsbStep(val, msb, 1, val0);
    OnlyBitZero(val);
    ShiftedHighest(val0, msb);
  }

  lemma OnlyBitZero(val: Word)
    requires val != Zero() && ClearFrom(val, 1)
    ensures val[0]
  {
    ZeroExactly(val);
  }

  lemma ShiftedHighest(val0: Word, msb: nat)
    requires msb < 64 && Shr(val0, msb)[0] && ClearFrom(Shr(val0, msb), 1)
    ensures Highest(val0, msb)
  {
    forall i | msb < i < 64 ensures !val0[i] {
      assert !Shr(val0, msb)[i - msb];
    }
  }

  /** The low half is clear: the bits below lsb + k are, and a bit is set in the upper half. */
  lemma LowHalfClear(val: Word, val0: Word, lsb: nat, k: nat)
    requires 1 <= k <= 32 && val == Shr(val0, lsb) && lsb + 2 * k <= 64 && AllClear(val0, lsb)
    requires AllClear(val, k)
    ensures AllClear(val0, lsb + k)
  {
    forall i | lsb <= i < lsb + k ensures !val0[i] {
      assert !val[i - lsb];
    }
  }

  lemma HighHalfSet(val: Word, k: nat)
    requires 1 <= k <= 32 && AllClear(val, k) && !AllClear(val, 2 * k)
    ensures !AllClear(Shr(val, k), k)
  {
    var j :| 0 <= j < 2 * k && val[j];
    assert Shr(val, k)[j - k];
  }

  /** One halving step of findLsbSet: a bit below 2k is set; afterwards one below k is. */
  method LsbStep(val: Word, lsb: nat, k: nat, ghost val0: Word) returns (val': Word, lsb': nat)
    requires 1 <= k <= 32 && val == Shr(val0, lsb) && lsb + 2 * k <= 64 && AllClear(val0, lsb)
    requires !AllClear(val, 2 * k)
    ensures val' == Shr(val0, lsb') && lsb <= lsb' <= lsb + k && AllClear(val0, lsb')
    ensures !AllClear(val', k)
  {
    val', lsb' := val, lsb;
    LowTest(val, k);
    if Bits(val, k - 1, 0) == Zero() {
      lsb' := lsb + k;
      val' := Shr(val, k);
      ShrTwice(val0, lsb, k);
      LowHalfClear(val, val0, lsb, k);
      HighHalfSet(val, k);
    }
  }

  lemma LowTest(val: Word, k: nat)
    requires 1 <= k <= 32
    ensures Bits(val, k - 1, 0) == Zero() <==> AllClear(val, k)
  {
    RangeTest(val, k - 1, 0);
  }

  method FindLsbSet(val0: Word) returns (lsb: nat)
    ensures val0 == Zero() ==> lsb == 64
    ensures val0 != Zero() ==> Lowest(val0, lsb)
  {
    if val0 == Zero() {
      return 64;
    }
    var val := val0;
    lsb := 0;
    assert Shr(val0, 0) == val0;
    ZeroExactly(val);
    val, lsb := LsbStep(val, lsb, 32, val0);
    val, lsb := LsbStep(val, lsb, 16, val0);
    val, lsb := LsbStep(val, lsb, 8, val0);
    val, lsb := LsbStep(val, lsb, 4, val0);
    val, lsb := LsbStep(val, lsb, 2, val0);
    val, lsb := LsbStep(val, lsb, 1, val0);
  }
}
