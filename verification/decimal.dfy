/** Decimal text of natural numbers, as Python's `str(n)` and `f"{n:02d}"` write it. */
module Decimal {
  /** `\d`, restricted to the ASCII digits. */
  predicate IsDigit(c: char) {
    '0' <= c <= '9'
  }

  predicate AllDigits(s: string) {
    forall i :: 0 <= i < |s| ==> IsDigit(s[i])
  }

  function DigitChar(d: nat): (c: char)
    requires d < 10
    ensures IsDigit(c)
  {
    ('0' as int + d) as char
  }

  /** The value of a digit character; it undoes `DigitChar`. */
  function DigitValue(c: char): (d: nat)
    requires IsDigit(c)
    ensures d < 10 && DigitChar(d) == c
  {
    (c as int - '0' as int) as nat
  }

  /** `str(n)`: the shortest decimal text of `n`. */
  function Show(n: nat): (s: string)
    ensures |s| > 0 && AllDigits(s)
    ensures |s| > 1 ==> s[0] != '0'
    ensures n < 10 <==> |s| == 1
    decreases n
  {
    if n < 10 then [DigitChar(n)]
    else Show(n / 10) + [DigitChar(n % 10)]
  }

  /** The number a digit text denotes. */
  function Value(s: string): (n: nat)
    requires AllDigits(s)
    decreases |s|
  {
    if |s| == 0 then 0
    else Value(s[..|s| - 1]) * 10 + DigitValue(s[|s| - 1])
  }

  /** Reading back what `Show` wrote gives the number again. */
  lemma {:induction false} ValueShow(n: nat)
    ensures Value(Show(n)) == n
    decreases n
  {
    if n >= 10 {
      ValueShow(n / 10);
      var s := Show(n);
      assert s[..|s| - 1] == Show(n / 10);
    }
  }

  /** `f"{n:02d}"`: at least two digits, padded with a leading zero. */
  function Pad2(n: nat): (s: string)
    ensures AllDigits(s)
    ensures n < 100 <==> |s| == 2
    ensures |s| >= 2
    ensures |s| > 2 ==> s[0] != '0'
  {
    if n < 10 then ['0', DigitChar(n)]
    else
      assert Show(n) == Show(n / 10) + [DigitChar(n % 10)];
      Show(n)
  }

  lemma ValuePad2(n: nat)
    ensures Value(Pad2(n)) == n
  {
    if n < 10 {
      var s := Pad2(n);
      assert s[..1] == "0" && s[..1][..0] == [];
      assert Value("0") == 0;
      assert DigitValue(DigitChar(n)) == n;
    } else {
      ValueShow(n);
    }
  }
}
