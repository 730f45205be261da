/** Unsigned decimal text: what "%u" prints, and the digit loop that reads it back. */
module Decimal {
  import opened CharAttr

  function Digit(d: nat): char
    requires d < 10
  {
    '0' + d as char
  }

  function DigitValue(c: char): nat
    requires IsDigit(c)
  {
    (c - '0') as nat
  }

  predicate AllDigits(s: string) {
    forall i :: 0 <= i < |s| ==> IsDigit(s[i])
  }

  function Digits(n: nat): (s: string)
    ensures s != "" && AllDigits(s)
  {
    if n < 10 then [Digit(n)] else Digits(n / 10) + [Digit(n % 10)]
  }

  /** The number a run of digits stands for, behind the digits already read. */
  function Value(s: string, acc: nat): nat
    requires AllDigits(s)
  {
    if s == "" then acc else Value(s[1..], 10 * acc + DigitValue(s[0]))
  }

  /** The length of the run of digits at the front of s. */
  function DigitRun(s: string): (n: nat)
    ensures n <= |s| && (forall i :: 0 <= i < n ==> IsDigit(s[i])) && (n == |s| || !IsDigit(s[n]))
  {
    if s == "" || !IsDigit(s[0]) then 0
    else
      assert forall i :: 0 < i <= DigitRun(s[1..]) ==> s[i] == s[1..][i - 1];
      1 + DigitRun(s[1..])
  }

  lemma {:induction false} ValueLast(s: string, c: char, acc: nat)
    requires AllDigits(s) && IsDigit(c)
    ensures AllDigits(s + [c]) && Value(s + [c], acc) == 10 * Value(s, acc) + DigitValue(c)
  {
    if s == "" {
      assert s + [c] == [c];
    } else {
      ValueLast(s[1..], c, 10 * acc + DigitValue(s[0]));
      assert (s + [c])[1..] == s[1..] + [c];
    }
  }

  lemma {:induction false} ValueOfDigits(n: nat)
    ensures Value(Digits(n), 0) == n
  {
    if n >= 10 {
      ValueOfDigits(n / 10);
      ValueLast(Digits(n / 10), Digit(n % 10), 0);
    }
  }

  lemma DigitRunOf(d: string, rest: string)
    requires AllDigits(d) && (rest == "" || !IsDigit(rest[0]))
    ensures DigitRun(d + rest) == |d|
  {
    assert forall i :: 0 <= i < |d| ==> (d + rest)[i] == d[i];
    assert rest != "" ==> (d + rest)[|d|] == rest[0];
    assert (d + rest)[..|d|] == d;
  }

  lemma {:induction false} DigitsLength(n: nat)
    ensures n < 1000 ==> |Digits(n)| <= 3
    ensures n < 100 ==> |Digits(n)| <= 2
  {
    if n >= 10 {
      DigitsLength(n / 10);
    }
  }

  lemma {:induction false} DigitsStart(n: nat)
    ensures n > 0 ==> Digits(n)[0] != '0'
  {
    if n >= 10 {
      DigitsStart(n / 10);
    }
  }

  function Pow10(k: nat): (r: nat)
    ensures r >= 1
  {
    if k == 0 then 1 else 10 * Pow10(k - 1)
  }

  lemma {:induction false} DigitsAtMost(n: nat, k: nat)
    requires 0 < k && n < Pow10(k)
    ensures |Digits(n)| <= k
  {
    if n >= 10 {
      assert k > 1;
      DigitsAtMost(n / 10, k - 1);
    }
  }

  /** A number that is not smaller is not shorter. */
  lemma {:induction false} DigitsGrow(a: nat, b: nat)
    requires a <= b
    ensures |Digits(a)| <= |Digits(b)|
  {
    if a >= 10 {
      DigitsGrow(a / 10, b / 10);
    }
  }
}
