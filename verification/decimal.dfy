/** Decimal digit strings and the unsigned 64-bit numbers `strconv.ParseUint`
    and `strconv.AppendUint` convert between. */
module Decimal {

  /** The largest value of Go's `uint64`. */
  const MaxUint64: nat := 0xFFFF_FFFF_FFFF_FFFF

  predicate IsDigit(c: char) {
    '0' <= c <= '9'
  }

  predicate AllDigits(s: string) {
    forall k :: 0 <= k < |s| ==> IsDigit(s[k])
  }

  /** A multi-digit numeral starting with `0`. */
  predicate HasLeadingZero(s: string) {
    |s| > 1 && s[0] == '0'
  }

  function DigitChar(d: nat): (c: char)
    requires d < 10
    ensures IsDigit(c)
  {
    (('0' as int) + d) as char
  }

  function DigitValue(c: char): (d: nat)
    requires IsDigit(c)
    ensures d < 10 && DigitChar(d) == c
  {
    (c as int) - ('0' as int)
  }

  /** The number a digit string denotes (empty string: 0). */
  function Value(s: string): nat
    requires AllDigits(s)
  {
    if |s| == 0 then 0
    else Value(s[..|s| - 1]) * 10 + DigitValue(s[|s| - 1])
  }

  /** The canonical decimal numeral of `n`. */
  function Show(n: nat): (r: string)
    ensures |r| >= 1 && AllDigits(r)
    ensures n > 0 ==> r[0] != '0'
    ensures !HasLeadingZero(r)
  {
    if n < 10 then [DigitChar(n)]
    else Show(n / 10) + [DigitChar(n % 10)]
  }

  /** Reading back a numeral gives the number: `Value` inverts `Show`. */
  lemma {:induction false} ValueShow(n: nat)
    ensures Value(Show(n)) == n
  {
    if n >= 10 {
      var s := Show(n);
      assert s[..|s| - 1] == Show(n / 10);
      ValueShow(n / 10);
    }
  }

  /** A numeral without a leading zero denotes a positive number when its
      first digit is not zero. */
  lemma {:induction false} ValuePositive(s: string)
    requires AllDigits(s) && |s| >= 1 && s[0] != '0'
    ensures Value(s) >= 1
    decreases |s|
  {
    if |s| > 1 {
      ValuePositive(s[..|s| - 1]);
    }
  }

  /** `Show` inverts `Value` on canonical numerals. */
  lemma {:induction false} ShowValue(s: string)
    requires AllDigits(s) && |s| >= 1 && !HasLeadingZero(s)
    ensures Show(Value(s)) == s
    decreases |s|
  {
    if |s| > 1 {
      var p := s[..|s| - 1];
      var d := DigitValue(s[|s| - 1]);
      ValuePositive(p);
      ShowValue(p);
      assert Value(s) / 10 == Value(p) && Value(s) % 10 == d;
      assert s == p + [DigitChar(d)];
    }
  }
}
