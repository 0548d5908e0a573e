/**
 Numbers are atoms' text in lisp.rb: arithmetic reads them with `String#to_i`,
 computes on unbounded Ruby integers, and writes the result back with
 `Integer#to_s`. Division is Ruby's `Integer#/`, which rounds toward negative
 infinity.
 */
module Numerals {

  predicate IsDigit(c: char) {
    '0' <= c <= '9'
  }

  predicate AllDigits(s: string) {
    forall i :: 0 <= i < |s| ==> IsDigit(s[i])
  }

  /** The length of the run of decimal digits that starts `s`. */
  function DigitRun(s: string): (k: nat)
    ensures k <= |s|
    ensures AllDigits(s[..k])
    ensures k < |s| ==> !IsDigit(s[k])
  {
    if s == [] || !IsDigit(s[0]) then 0
    else
      var k := 1 + DigitRun(s[1..]);
      assert s[..k] == [s[0]] + s[1..][..k - 1];
      k
  }

  /** The number a string of decimal digits spells, most significant first. */
  function DigitsValue(d: string): nat
    requires AllDigits(d)
  {
    if d == [] then 0
    else DigitsValue(d[..|d| - 1]) * 10 + (d[|d| - 1] as int - '0' as int)
  }

  function LeadingNat(s: string): nat {
    DigitsValue(s[..DigitRun(s)])
  }

  /** `String#to_i` on the forms this interpreter meets: an optional sign and
      then the leading decimal digits; anything after them is ignored, and no
      digits at all read as 0. */
  function StrToI(s: string): (r: int)
    ensures s != [] && s[0] == '-' ==> r <= 0
    ensures !(s != [] && s[0] == '-') ==> r >= 0
    ensures s == [] || (!IsDigit(s[0]) && s[0] != '-' && s[0] != '+') ==> r == 0
  {
    if s != [] && s[0] == '-' then 0 - LeadingNat(s[1..]) as int
    else if s != [] && s[0] == '+' then LeadingNat(s[1..])
    else LeadingNat(s)
  }

  function DigitChar(d: nat): (c: char)
    requires d < 10
    ensures IsDigit(c) && c as int - '0' as int == d
  {
    ('0' as int + d) as char
  }

  function NatToDecimal(n: nat): (s: string)
    ensures s != [] && AllDigits(s)
    ensures s[0] == '0' ==> n == 0 && s == "0"
  {
    if n < 10 then [DigitChar(n)]
    else NatToDecimal(n / 10) + [DigitChar(n % 10)]
  }

  /** `Integer#to_s`: an optional minus sign, then digits with no leading zero. */
  function IntToDecimal(n: int): (s: string)
    ensures s != []
    ensures s[0] == '-' <==> n < 0
    ensures n < 0 ==> s[1..] == NatToDecimal(-n)
    ensures n >= 0 ==> s == NatToDecimal(n)
  {
    if n < 0 then "-" + NatToDecimal(-n) else NatToDecimal(n)
  }

  lemma {:induction false} DigitsOfDecimal(n: nat)
    ensures DigitsValue(NatToDecimal(n)) == n
  {
    var s := NatToDecimal(n);
    if n >= 10 {
      DigitsOfDecimal(n / 10);
      assert s[..|s| - 1] == NatToDecimal(n / 10);
    }
  }

  lemma RunCoversDigits(s: string)
    requires AllDigits(s)
    ensures DigitRun(s) == |s|
  {
  }

  /** Reading back what `Integer#to_s` wrote gives the number again. */
  lemma DecimalRoundTrip(n: int)
    ensures StrToI(IntToDecimal(n)) == n
  {
    var m: nat := if n < 0 then -n else n;
    var d := NatToDecimal(m);
    RunCoversDigits(d);
    assert d[..|d|] == d;
    DigitsOfDecimal(m);
    if n < 0 {
      assert IntToDecimal(n)[1..] == d;
    } else {
      assert IsDigit(d[0]);
    }
  }

  /** Ruby's `Integer#/`: the quotient rounded toward negative infinity, so the
      remainder takes the sign of the divisor. Dafny's own `/` rounds so that
      the remainder is never negative, which differs when the divisor is. */
  function FloorDiv(a: int, b: int): (q: int)
    requires b != 0
    ensures b > 0 ==> b * q <= a < b * q + b
    ensures b < 0 ==> b * q + b < a <= b * q
  {
    var e := a / b;
    assert a == b * e + a % b;
    if b > 0 || a % b == 0 then e
    else
      assert a == b * (e - 1) + (a % b + b);
      e - 1
  }

  /** The floor quotient is the only integer with that remainder property. */
  lemma FloorDivUnique(a: int, b: int, q: int)
    requires b != 0
    requires b > 0 ==> b * q <= a < b * q + b
    requires b < 0 ==> b * q + b < a <= b * q
    ensures q == FloorDiv(a, b)
  {
    var f := FloorDiv(a, b);
    if b > 0 {
      if q < f {
        MulLe(b, q + 1, f);
      } else if f < q {
        MulLe(b, f + 1, q);
      }
    } else {
      if q < f {
        MulLe(-b, q + 1, f);
      } else if f < q {
        MulLe(-b, f + 1, q);
      }
    }
  }

  lemma MulLe(b: int, x: int, y: int)
    requires b > 0 && x <= y
    ensures b * x <= b * y
  {
    assert b * y - b * x == b * (y - x);
  }
}
