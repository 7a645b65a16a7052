/** Rounding, divisibility and powers of two, as the layout code uses them. */
module Arith {

  predicate Divides(a: nat, x: nat)
    requires a > 0
  {
    x % a == 0
  }

  /** The roundup macro of <sys/param.h>. */
  function RoundUp(x: nat, a: nat): (r: nat)
    requires a > 0
  {
    (x + (a - 1)) / a * a
  }

  lemma DivMod(x: int, a: int)
    requires a > 0
    ensures x == x / a * a + x % a && 0 <= x % a < a
  {
  }

  lemma MulGap(d: int, a: int)
    requires a > 0
    ensures d >= 1 ==> d * a >= a
    ensures d <= -1 ==> d * a <= -a
  {
    if d >= 1 {
      assert d * a == a + (d - 1) * a;
    }
    if d <= -1 {
      assert d * a == -a + (d + 1) * a;
    }
  }

  lemma ModUnique(q: int, a: int, r: int)
    requires a > 0 && 0 <= r < a
    ensures (q * a + r) % a == r && (q * a + r) / a == q
  {
    var x := q * a + r;
    DivMod(x, a);
    var d := x / a - q;
    assert d * a == r - x % a;
    MulGap(d, a);
  }

  /** RoundUp is the least multiple of a that is at least x. */
  lemma RoundUpProps(x: nat, a: nat)
    requires a > 0
    ensures x <= RoundUp(x, a) < x + a
    ensures Divides(a, RoundUp(x, a))
    ensures Divides(a, x) ==> RoundUp(x, a) == x
  {
    var y := x + (a - 1);
    DivMod(y, a);
    ModUnique(y / a, a, 0);
    if Divides(a, x) {
      DivMod(x, a);
      ModUnique(x / a, a, a - 1);
    }
  }

  lemma RoundUpLeast(x: nat, a: nat, m: nat)
    requires a > 0 && x <= m && Divides(a, m)
    ensures RoundUp(x, a) <= m
  {
    RoundUpProps(x, a);
    var r := RoundUp(x, a);
    DivMod(r, a);
    DivMod(m, a);
    var d := r / a - m / a;
    assert d * a == r - m;
    MulGap(d, a);
  }

  lemma DividesSum(a: nat, x: nat, y: nat)
    requires a > 0 && Divides(a, x) && Divides(a, y)
    ensures Divides(a, x + y)
  {
    DivMod(x, a);
    DivMod(y, a);
    assert x + y == (x / a + y / a) * a;
    ModUnique(x / a + y / a, a, 0);
  }

  lemma DividesTrans(a: nat, b: nat, x: nat)
    requires a > 0 && b > 0 && Divides(a, b) && Divides(b, x)
    ensures Divides(a, x)
  {
    DivMod(b, a);
    DivMod(x, b);
    calc {
      x;
      (x / b) * b;
      (x / b) * ((b / a) * a);
      (x / b) * (b / a) * a;
    }
    ModUnique((x / b) * (b / a), a, 0);
  }

  /** Bitwise and on naturals. */
  function And(x: nat, y: nat): nat {
    if x == 0 || y == 0 then 0
    else (if x % 2 == 1 && y % 2 == 1 then 1 else 0) + 2 * And(x / 2, y / 2)
  }

  /** The test the sources write `a == 0 || (a & (a - 1))`, negated. */
  predicate PassesPow2Test(a: nat) {
    a != 0 && And(a, a - 1) == 0
  }

  function Pow2(k: nat): (r: nat)
    ensures r >= 1
  {
    if k == 0 then 1 else 2 * Pow2(k - 1)
  }

  lemma {:induction false} AndSelf(x: nat)
    ensures And(x, x) == x
  {
    if x > 0 {
      AndSelf(x / 2);
    }
  }

  lemma AndOdd(h: nat)
    ensures And(2 * h + 1, 2 * h) == 2 * h
  {
    AndSelf(h);
    assert (2 * h + 1) / 2 == h && (2 * h) / 2 == h && (2 * h) % 2 == 0;
  }

  lemma AndEven(h: nat)
    requires h > 0
    ensures And(2 * h, 2 * h - 1) == 2 * And(h, h - 1)
  {
    assert (2 * h) / 2 == h && (2 * h - 1) / 2 == h - 1 && (2 * h) % 2 == 0;
  }

  ghost predicate IsPow2(a: nat) {
    exists k: nat :: a == Pow2(k)
  }

  lemma DoublePow2(h: nat)
    requires h > 0
    ensures IsPow2(2 * h) <==> IsPow2(h)
    ensures !IsPow2(2 * h + 1)
  {
    if k: nat :| h == Pow2(k) {
      assert 2 * h == Pow2(k + 1);
    }
    if k: nat :| 2 * h == Pow2(k) {
      assert h == Pow2(k - 1);
    }
    forall k: nat ensures 2 * h + 1 != Pow2(k) {
      if k > 0 {
        assert Pow2(k) == 2 * Pow2(k - 1);
      }
    }
  }

  /** The bit test accepts exactly the powers of two. */
  lemma {:induction false} Pow2TestExact(a: nat)
    ensures PassesPow2Test(a) <==> IsPow2(a)
  {
    var h := a / 2;
    if a == 1 {
      assert a == Pow2(0);
    } else if a == 2 * h + 1 {
      AndOdd(h);
      DoublePow2(h);
    } else if a > 0 {
      assert a == 2 * h;
      AndEven(h);
      DoublePow2(h);
      Pow2TestExact(h);
    }
  }

  lemma {:induction false} Pow2DividesPow2(j: nat, k: nat)
    requires Pow2(j) <= Pow2(k)
    ensures Divides(Pow2(j), Pow2(k))
  {
    if j == 0 {
    } else if k > 0 {
      Pow2DividesPow2(j - 1, k - 1);
      DivMod(Pow2(k - 1), Pow2(j - 1));
      var q := Pow2(k - 1) / Pow2(j - 1);
      assert Pow2(k) == q * Pow2(j) by {
        assert 2 * (q * Pow2(j - 1)) == q * (2 * Pow2(j - 1));
      }
      ModUnique(q, Pow2(j), 0);
    }
  }

  /** Of two accepted alignments the smaller divides the larger. */
  lemma SmallerAlignDivides(a: nat, b: nat)
    requires PassesPow2Test(a) && PassesPow2Test(b) && a <= b
    ensures Divides(a, b)
  {
    Pow2TestExact(a);
    Pow2TestExact(b);
    var j: nat :| a == Pow2(j);
    var k: nat :| b == Pow2(k);
    Pow2DividesPow2(j, k);
  }
}
