/** Decimal numerals: what `%d` prints for a natural number and what
    strconv reads back, with the validators of internal/timerange. */
module Decimal {

  predicate IsDigit(c: char) { '0' <= c <= '9' }

  function Digit(d: nat): (c: char)
    requires d < 10
    ensures IsDigit(c) && DigitValue(c) == d && c == "0123456789"[d]
  {
    '0' + d as char
  }

  function DigitValue(c: char): (d: nat)
    requires IsDigit(c)
    ensures d < 10
  {
    (c - '0') as int
  }

  predicate AllDigits(s: string) { forall i :: 0 <= i < |s| ==> IsDigit(s[i]) }

  function Numeral(n: nat): (s: string)
    ensures |s| > 0 && AllDigits(s)
  {
    if n < 10 then [Digit(n)] else Numeral(n / 10) + [Digit(n % 10)]
  }

  function Value(s: string): nat
    requires AllDigits(s)
  {
    if s == "" then 0 else Value(s[..|s| - 1]) * 10 + DigitValue(s[|s| - 1])
  }

  /** Strings matching (0|[1-9][0-9]*). */
  predicate ValidInt(s: string) {
    if s == "" then false
    else if s == "0" then true
    else if s[0] < '1' || s[0] > '9' then false
    else AllDigits(s[1..])
  }

  /** Strings matching (0|[1-9][0-9]{0,8}). */
  predicate ValidNano(s: string) {
    if s == "" then false
    else if s == "0" then true
    else if s[0] < '1' || s[0] > '9' then false
    else if |s| > 9 then false
    else AllDigits(s[1..])
  }

  lemma ValidIsDigits(s: string)
    requires ValidInt(s)
    ensures AllDigits(s)
  {
    forall i | 0 <= i < |s| ensures IsDigit(s[i]) {
      if i > 0 && s != "0" { assert s[i] == s[1..][i - 1]; }
    }
  }

  /** Reading a printed number gives the number. */
  lemma {:induction false} ValueOfNumeral(n: nat)
    ensures Value(Numeral(n)) == n
  {
    if n >= 10 {
      ValueOfNumeral(n / 10);
      var s := Numeral(n);
      assert s[..|s| - 1] == Numeral(n / 10);
    } else {
      assert Value([Digit(n)][..0]) == 0;
    }
  }

  /** Printing a valid numeral's value gives the numeral: no other spelling is accepted. */
  lemma {:induction false} NumeralOfValue(s: string)
    requires ValidInt(s) && AllDigits(s)
    ensures Numeral(Value(s)) == s
    ensures s != "0" ==> Value(s) > 0
  {
    var front, last := s[..|s| - 1], DigitValue(s[|s| - 1]);
    if |s| == 1 {
      assert Value(front) == 0;
    } else {
      assert ValidInt(front) && front != "0" by { assert front[1..] == s[1..][..|s| - 2]; }
      NumeralOfValue(front);
      assert Value(s) / 10 == Value(front) && Value(s) % 10 == last;
      assert s == front + [Digit(last)];
    }
  }

  lemma {:induction false} NumeralIsValid(n: nat)
    ensures ValidInt(Numeral(n))
    ensures n > 0 ==> Numeral(n)[0] != '0'
  {
    if n < 10 {
    } else {
      NumeralIsValid(n / 10);
    }
  }

  function Pow10(k: nat): nat { if k == 0 then 1 else 10 * Pow10(k - 1) }

  /** A number below 10^k has at most k digits, and k digits name a number below 10^k. */
  lemma {:induction false} NumeralLength(n: nat, k: nat)
    requires 0 < k && n < Pow10(k)
    ensures |Numeral(n)| <= k
  {
    if n < 10 {
    } else {
      assert k > 1;
      NumeralLength(n / 10, k - 1);
    }
  }

  lemma {:induction false} ValueBound(s: string)
    requires AllDigits(s)
    ensures Value(s) < Pow10(|s|)
  {
    if s == "" {
    } else {
      ValueBound(s[..|s| - 1]);
    }
  }

  lemma {:induction false} Pow10Grows(j: nat, k: nat)
    requires j <= k
    ensures 0 < Pow10(j) <= Pow10(k)
  {
    if j < k { Pow10Grows(j, k - 1); } else if k > 0 { Pow10Grows(k - 1, k - 1); }
  }

  lemma Pow10Of9()
    ensures Pow10(9) == 1_000_000_000
  {
    assert Pow10(4) == 10_000;
    assert Pow10(8) == 100_000_000;
  }

  /** `ValidNano` accepts exactly the numerals of the numbers below a second. */
  lemma NanoNumerals(s: string)
    requires ValidInt(s) && AllDigits(s)
    ensures ValidNano(s) <==> Value(s) < 1_000_000_000
  {
    Pow10Of9();
    if |s| <= 9 {
      ValueBound(s);
      Pow10Grows(|s|, 9);
    } else {
      NumeralOfValue(s);
      if Value(s) < Pow10(9) { NumeralLength(Value(s), 9); }
    }
  }
}
