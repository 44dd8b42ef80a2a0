/** Decimal rendering of non-negative integers as `String.format`'s `%d`
    conversion produces it, the `0` flag with a minimum width (`%02d`), and
    the reading back of a digit string, which the round-trip lemmas use as the
    independent partner of the rendering. */
module Decimal {

  predicate IsDigit(c: char)
  {
    '0' <= c <= '9'
  }

  predicate AllDigits(s: string)
  {
    forall i :: 0 <= i < |s| ==> IsDigit(s[i])
  }

  function DigitChar(d: nat): (c: char)
    requires d < 10
    ensures IsDigit(c)
    ensures c as int - '0' as int == d
  {
    ('0' as int + d) as char
  }

  function DigitValue(c: char): nat
    requires IsDigit(c)
  {
    c as int - '0' as int
  }

  /** The shortest decimal spelling of `n`: most significant digit first,
      no leading zero except for `n == 0` itself. */
  function DecimalDigits(n: nat): (r: string)
    ensures AllDigits(r)
    ensures |r| >= 1
    ensures |r| == 1 <==> n < 10
    ensures |r| <= 2 <==> n < 100
    ensures n > 0 ==> r[0] != '0'
    decreases n
  {
    if n < 10 then [DigitChar(n)]
    else DecimalDigits(n / 10) + [DigitChar(n % 10)]
  }

  /** `k` copies of the padding character `'0'`. */
  function Zeros(k: nat): (r: string)
    ensures |r| == k
    ensures forall i :: 0 <= i < k ==> r[i] == '0'
  {
    if k == 0 then [] else Zeros(k - 1) + ['0']
  }

  /** Left-pads `s` with zeros to at least `width` characters; a longer `s`
      is kept whole, never truncated. */
  function ZeroPad(s: string, width: nat): (r: string)
    ensures |r| == if |s| >= width then |s| else width
    ensures r[|r| - |s|..] == s
    ensures forall i :: 0 <= i < |r| - |s| ==> r[i] == '0'
  {
    if |s| >= width then s else Zeros(width - |s|) + s
  }

  /** `String.format("%02d", n)` for `n >= 0`. */
  function Pad2(n: nat): (r: string)
    ensures AllDigits(r)
    ensures |r| == 2 <==> n < 100
    ensures |r| >= 2
  {
    ZeroPad(DecimalDigits(n), 2)
  }

  /** The value a string of decimal digits denotes; leading zeros are allowed. */
  function ParseDigits(s: string): nat
    requires AllDigits(s)
  {
    if |s| == 0 then 0
    else ParseDigits(s[..|s| - 1]) * 10 + DigitValue(s[|s| - 1])
  }

  /** Reading back the spelling gives the number. */
  lemma {:induction false} ParseDecimalDigits(n: nat)
    ensures ParseDigits(DecimalDigits(n)) == n
    decreases n
  {
    var r := DecimalDigits(n);
    if n < 10 {
    } else {
      ParseDecimalDigits(n / 10);
      assert r[..|r| - 1] == DecimalDigits(n / 10);
    }
  }

  /** A leading zero does not change the value. */
  lemma {:induction false} ParseLeadingZero(s: string)
    requires AllDigits(s)
    ensures AllDigits(['0'] + s)
    ensures ParseDigits(['0'] + s) == ParseDigits(s)
    decreases |s|
  {
    var t := ['0'] + s;
    if |s| > 0 {
      assert t[..|t| - 1] == ['0'] + s[..|s| - 1];
      ParseLeadingZero(s[..|s| - 1]);
    }
  }

  /** Any number of leading zeros does not change the value. */
  lemma {:induction false} ParseZerosPrefix(k: nat, s: string)
    requires AllDigits(s)
    ensures AllDigits(Zeros(k) + s)
    ensures ParseDigits(Zeros(k) + s) == ParseDigits(s)
    decreases k
  {
    if k > 0 {
      assert Zeros(k) + s == Zeros(k - 1) + (['0'] + s);
      ParseLeadingZero(s);
      ParseZerosPrefix(k - 1, ['0'] + s);
    } else {
      assert Zeros(k) + s == s;
    }
  }

  /** Reading back a `%02d` field gives the number it was formatted from. */
  lemma ParsePad2(n: nat)
    ensures ParseDigits(Pad2(n)) == n
  {
    var d := DecimalDigits(n);
    ParseDecimalDigits(n);
    if |d| < 2 {
      ParseZerosPrefix(2 - |d|, d);
    }
  }
}
