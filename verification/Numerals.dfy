/** Decimal numerals, printed and read. */
module Numerals {
  predicate IsDigit(c: char) { '0' <= c <= '9' }

  predicate AllDigits(s: string) {
    s != "" && forall i :: 0 <= i < |s| ==> IsDigit(s[i])
  }

  function Digit(d: int): char
    requires 0 <= d < 10
  {
    ('0' as int + d) as char
  }

  function Decimal(n: nat): (s: string)
    ensures AllDigits(s)
  {
    if n < 10 then [Digit(n)] else Decimal(n / 10) + [Digit(n % 10)]
  }

  /** The number a string of digits spells. */
  function Number(s: string): int {
    if s == "" then 0 else 10 * Number(s[..|s| - 1]) + (s[|s| - 1] as int - '0' as int)
  }

  lemma {:induction false} NumberOfDecimal(n: nat)
    ensures Number(Decimal(n)) == n
  {
    if n < 10 {
      assert Decimal(n)[..0] == "";
    } else {
      NumberOfDecimal(n / 10);
      assert Decimal(n)[..|Decimal(n)| - 1] == Decimal(n / 10);
    }
  }

  function Zeros(k: nat): string {
    seq(k, _ => '0')
  }

  /** s is the numeral of n behind k zeros. */
  ghost predicate Padded(s: string, n: nat, k: nat) {
    s == Zeros(k) + Decimal(n)
  }

  /** Up to leading zeros, s is the numeral of n. */
  ghost predicate Spells(s: string, n: nat) {
    exists k :: Padded(s, n, k)
  }

  lemma {:induction false} PaddedNumber(n: nat, k: nat)
    ensures Number(Zeros(k) + Decimal(n)) == n
  {
    if k == 0 {
      assert Zeros(0) + Decimal(n) == Decimal(n);
      NumberOfDecimal(n);
    } else if n < 10 {
      PaddedNumber(0, k - 1);
      var s := Zeros(k) + Decimal(n);
      assert s[..|s| - 1] == Zeros(k - 1) + Decimal(0);
    } else {
      PaddedNumber(n / 10, k);
      var s := Zeros(k) + Decimal(n);
      assert s[..|s| - 1] == Zeros(k) + Decimal(n / 10);
    }
  }

  function DigitValue(c: char): (d: int)
    requires IsDigit(c)
    ensures 0 <= d < 10 && Digit(d) == c
  {
    c as int - '0' as int
  }

  lemma NumberNext(front: string, last: char)
    requires IsDigit(last)
    ensures Number(front + [last]) == 10 * Number(front) + DigitValue(last)
  {
    assert (front + [last])[..|front|] == front;
  }

  lemma DecimalNext(n: nat, d: int)
    requires 0 <= d < 10
    ensures Decimal(10 * n + d) == (if n == 0 then "" else Decimal(n)) + [Digit(d)]
  {
    assert (10 * n + d) / 10 == n && (10 * n + d) % 10 == d;
  }

  lemma PaddedNext(front: string, n: nat, j: nat, d: int)
    requires 0 <= d < 10 && Padded(front, n, j)
    ensures Padded(front + [Digit(d)], 10 * n + d, if n == 0 then j + 1 else j)
  {
    DecimalNext(n, d);
    if n == 0 {
      assert Zeros(j) + Decimal(0) == Zeros(j + 1);
    }
  }

  lemma {:induction false} DigitsSpell(s: string) returns (k: nat)
    requires AllDigits(s)
    ensures Number(s) >= 0 && Padded(s, Number(s), k)
  {
    var (front, last) := (s[..|s| - 1], s[|s| - 1]);
    assert s == front + [last];
    NumberNext(front, last);
    if front == "" {
      k := 0;
      assert Zeros(0) == "" && Number(front) == 0;
    } else {
      var j := DigitsSpell(front);
      k := if Number(front) == 0 then j + 1 else j;
      PaddedNext(front, Number(front), j, DigitValue(last));
    }
  }

  /** Reading is the inverse of printing, up to leading zeros. */
  lemma NumberExactly(s: string, n: nat)
    requires AllDigits(s)
    ensures Number(s) == n <==> Spells(s, n)
  {
    if Number(s) == n {
      var k := DigitsSpell(s);
    }
    if k :| Padded(s, n, k) {
      PaddedNumber(n, k);
    }
  }
}
