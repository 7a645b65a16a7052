/** Decimal numerals. */
module Decimal {

  function Digit(d: nat): char
    requires d < 10
  {
    '0' + d as char
  }

  predicate IsDigit(c: char) {
    '0' <= c <= '9'
  }

  function Value(c: char): (v: nat)
    requires IsDigit(c)
    ensures v < 10
  {
    c as nat - '0' as nat
  }

  /** What printf's %d writes. */
  function Print(n: nat): (s: string)
    ensures s != []
  {
    if n < 10 then [Digit(n)] else Print(n / 10) + [Digit(n % 10)]
  }

  predicate AllDigits(s: string) {
    forall i :: 0 <= i < |s| ==> IsDigit(s[i])
  }

  /** The number a digit string stands for, continuing from acc. */
  function Read(s: string, acc: nat): nat
    requires AllDigits(s)
  {
    if s == [] then acc else Read(s[1..], 10 * acc + Value(s[0]))
  }

  function Pow10(k: nat): nat {
    if k == 0 then 1 else 10 * Pow10(k - 1)
  }

  lemma {:induction false} PrintDigits(n: nat)
    ensures AllDigits(Print(n))
  {
    if n >= 10 {
      PrintDigits(n / 10);
    }
  }

  lemma {:induction false} PrintLength(n: nat, k: nat)
    requires n < Pow10(k) && k > 0
    ensures |Print(n)| <= k
  {
    if n >= 10 {
      assert k > 1 && n / 10 < Pow10(k - 1);
      PrintLength(n / 10, k - 1);
    }
  }

  lemma {:induction false} ReadAppend(s: string, t: string, acc: nat)
    requires AllDigits(s) && AllDigits(t)
    ensures AllDigits(s + t) && Read(s + t, acc) == Read(t, Read(s, acc))
  {
    if s == [] {
      assert s + t == t;
    } else {
      assert (s + t)[1..] == s[1..] + t;
      ReadAppend(s[1..], t, 10 * acc + Value(s[0]));
    }
  }

  /** Reading a printed number gives it back. */
  lemma {:induction false} ReadPrint(n: nat)
    ensures AllDigits(Print(n)) && Read(Print(n), 0) == n
  {
    PrintDigits(n);
    if n >= 10 {
      ReadPrint(n / 10);
      var last := [Digit(n % 10)];
      ReadAppend(Print(n / 10), last, 0);
      assert last[1..] == [];
      assert Read(last, n / 10) == 10 * (n / 10) + n % 10;
    } else {
      assert [Digit(n)][1..] == [];
    }
  }
}
