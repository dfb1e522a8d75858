/** Decimal rendering of natural numbers, as Python's `str(n)` and the
    format `f"{n:04d}"` (zero-padded to at least four digits) produce it,
    and the parse that reads such a rendering back. */
module Decimal {

  predicate IsDigit(c: char) {
    '0' <= c <= '9'
  }

  predicate AllDigits(s: string) {
    forall k :: 0 <= k < |s| ==> IsDigit(s[k])
  }

  function DigitChar(d: nat): (c: char)
    requires d < 10
    ensures IsDigit(c)
  {
    ('0' as int + d) as char
  }

  function DigitValue(c: char): (d: nat)
    requires IsDigit(c)
    ensures d < 10
  {
    c as int - '0' as int
  }

  /** The shortest decimal rendering of n: no leading zero unless n == 0. */
  function Digits(n: nat): (s: string)
    ensures 1 <= |s| && AllDigits(s)
    ensures |s| > 1 ==> s[0] != '0'
    decreases n
  {
    if n < 10 then [DigitChar(n)] else Digits(n / 10) + [DigitChar(n % 10)]
  }

  /** The value of a string of decimal digits; leading zeros are allowed. */
  function ParseDigits(s: string): nat
    requires AllDigits(s)
    decreases |s|
  {
    if s == [] then 0 else ParseDigits(s[..|s| - 1]) * 10 + DigitValue(s[|s| - 1])
  }

  function Zeros(k: nat): (z: string)
    ensures |z| == k && AllDigits(z)
    ensures forall j :: 0 <= j < k ==> z[j] == '0'
  {
    if k == 0 then [] else ['0'] + Zeros(k - 1)
  }

  /** `f"{n:04d}"` for a non-negative n: the digits of n, left-padded with
      zeros to width four; a longer rendering is kept whole. */
  function Pad4(n: nat): (s: string)
    ensures AllDigits(s)
  {
    var d := Digits(n);
    if |d| < 4 then Zeros(4 - |d|) + d else d
  }

  lemma {:induction false} ParseDigitsOfDigits(n: nat)
    ensures ParseDigits(Digits(n)) == n
    decreases n
  {
    if n >= 10 {
      var s := Digits(n);
      assert s[..|s| - 1] == Digits(n / 10);
      ParseDigitsOfDigits(n / 10);
    }
  }

  lemma {:induction false} ParseIgnoresLeadingZeros(k: nat, s: string)
    requires AllDigits(s)
    ensures ParseDigits(Zeros(k) + s) == ParseDigits(s)
    decreases k, |s|
  {
    if k > 0 {
      if s == [] {
        ParseIgnoresLeadingZeros(k - 1, s);
        var z := Zeros(k);
        assert Zeros(k) + s == z;
        assert z[..k - 1] == Zeros(k - 1) + s;
        assert ParseDigits(z) == ParseDigits(z[..k - 1]) * 10 + DigitValue(z[k - 1]);
      } else {
        var t := s[..|s| - 1];
        ParseIgnoresLeadingZeros(k, t);
        var u := Zeros(k) + s;
        assert u[..|u| - 1] == Zeros(k) + t;
        assert u[|u| - 1] == s[|s| - 1];
        assert ParseDigits(u) == ParseDigits(Zeros(k) + t) * 10 + DigitValue(s[|s| - 1]);
      }
    } else {
      assert Zeros(k) + s == s;
    }
  }

  /** The padded identifier number reads back as the number itself; it is
      exactly four characters long below four digits, and unpadded from
      there on. */
  lemma ParsePad4(n: nat)
    ensures ParseDigits(Pad4(n)) == n
    ensures |Pad4(n)| >= 4
    ensures |Digits(n)| < 4 ==> |Pad4(n)| == 4
    ensures |Digits(n)| >= 4 ==> Pad4(n) == Digits(n)
  {
    var d := Digits(n);
    ParseDigitsOfDigits(n);
    if |d| < 4 {
      ParseIgnoresLeadingZeros(4 - |d|, d);
    }
  }

  /** Distinct numbers give distinct padded renderings. */
  lemma Pad4Injective(a: nat, b: nat)
    ensures Pad4(a) == Pad4(b) ==> a == b
  {
    ParsePad4(a);
    ParsePad4(b);
  }
}
