/** Decimal numerals: ASCII digit strings, their value (Python's `int()` on a
    string of digits), the rendering `str(n)`, the zero-padded rendering
    `f"{n:02d}"`, and the two-leading-digits rule `int(str(n)[:2])`. */
module Decimal {

  predicate IsDigit(c: char) {
    '0' <= c <= '9'
  }

  predicate IsAsciiLetter(c: char) {
    ('a' <= c <= 'z') || ('A' <= c <= 'Z')
  }

  predicate AllDigits(s: string) {
    forall i :: 0 <= i < |s| ==> IsDigit(s[i])
  }

  function DigitValue(c: char): nat
    requires IsDigit(c)
  {
    (c as int) - ('0' as int)
  }

  function DigitChar(d: nat): (c: char)
    requires d < 10
    ensures IsDigit(c) && DigitValue(c) == d
  {
    (('0' as int) + d) as char
  }

  /** The value of a numeral; leading zeros are allowed, the empty numeral is 0. */
  function Value(ds: string): nat
    requires AllDigits(ds)
    decreases |ds|
  {
    if |ds| == 0 then 0 else Value(ds[..|ds| - 1]) * 10 + DigitValue(ds[|ds| - 1])
  }

  /** Python's `str(n)` for a non-negative integer: the shortest numeral of `n`. */
  function Show(n: nat): (r: string)
    ensures 1 <= |r| && AllDigits(r)
    ensures Value(r) == n
    ensures |r| > 1 ==> r[0] != '0'
    ensures n < 10 <==> |r| == 1
  {
    if n < 10 then [DigitChar(n)]
    else
      var front := Show(n / 10);
      var r := front + [DigitChar(n % 10)];
      assert r[..|r| - 1] == front;
      r
  }

  /** A leading zero does not change the value of a numeral. */
  lemma {:induction false} LeadingZero(ds: string)
    requires AllDigits(ds)
    ensures AllDigits("0" + ds) && Value("0" + ds) == Value(ds)
    decreases |ds|
  {
    if |ds| > 0 {
      var front := ds[..|ds| - 1];
      LeadingZero(front);
      assert ("0" + ds)[..|"0" + ds| - 1] == "0" + front;
    }
  }

  /** Python's `f"{n:02d}"`: `str(n)` left-padded with zeros to two characters. */
  function Pad2(n: nat): (r: string)
    ensures 2 <= |r| && AllDigits(r)
    ensures Value(r) == n
  {
    var s := Show(n);
    if |s| < 2 then
      LeadingZero(s);
      "0" + s
    else s
  }

  /** Zero-padded numerals of different numbers differ. */
  lemma Pad2Injective(a: nat, b: nat)
    requires Pad2(a) == Pad2(b)
    ensures a == b
  {
    assert Value(Pad2(a)) == a;
  }

  function Pow10(j: nat): (p: nat)
    ensures p >= 1
  {
    if j == 0 then 1 else 10 * Pow10(j - 1)
  }

  /** Python's `int(str(n)[:2])`: the number formed by the first two digits of `n`
      (all of `n` when it has a single digit). */
  function TwoDigitPrefix(n: nat): nat {
    var s := Show(n);
    var t := if |s| < 2 then s else s[..2];
    assert AllDigits(t);
    Value(t)
  }

  /** Integer division by ten of `10 * q + r` with a last digit `r`. */
  lemma DivTen(n: nat, q: nat, r: nat)
    requires r < 10 && n == 10 * q + r
    ensures n / 10 == q && n % 10 == r
  {
  }

  /** Dropping the last digit of `code * 10^j + k` leaves `code * 10^(j-1) + k / 10`. */
  lemma ShiftDigit(code: nat, j: nat, k: nat)
    requires 0 < j && k < Pow10(j)
    ensures k / 10 < Pow10(j - 1)
    ensures (code * Pow10(j) + k) / 10 == code * Pow10(j - 1) + k / 10
    ensures (code * Pow10(j) + k) % 10 == k % 10
  {
    var p := Pow10(j - 1);
    assert Pow10(j) == 10 * p;
    assert code * (10 * p) == 10 * (code * p);
    DivTen(code * Pow10(j) + k, code * p + k / 10, k % 10);
  }

  /** A number of at least two digits shares its first two digits with the
      number left after dropping its last digit. */
  lemma ShowDropLast(n: nat)
    requires n >= 100
    ensures 2 <= |Show(n / 10)| && 2 <= |Show(n)|
    ensures Show(n)[..2] == Show(n / 10)[..2]
  {
    assert Show(n) == Show(n / 10) + [DigitChar(n % 10)];
  }

  /** A number written as a two-digit `code` followed by `j` more digits has
      `code` as its first two digits. */
  lemma {:induction false} PrefixOfCode(code: nat, j: nat, k: nat)
    requires 10 <= code < 100
    requires k < Pow10(j)
    ensures 2 <= |Show(code * Pow10(j) + k)|
    ensures Show(code * Pow10(j) + k)[..2] == Show(code)
    ensures TwoDigitPrefix(code * Pow10(j) + k) == code
  {
    var n := code * Pow10(j) + k;
    TwoDigits(code);
    if j == 0 {
      assert n == code;
    } else {
      ShiftDigit(code, j, k);
      var m := code * Pow10(j - 1) + k / 10;
      PrefixOfCode(code, j - 1, k / 10);
      assert n / 10 == m && m >= 10;
      assert n == 10 * (n / 10) + n % 10;
      ShowDropLast(n);
    }
  }

  /** A two-digit number is shown with two digits. */
  lemma TwoDigits(code: nat)
    requires 10 <= code < 100
    ensures |Show(code)| == 2
  {
    assert |Show(code / 10)| == 1;
  }
}
