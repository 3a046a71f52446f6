/** Decimal text: `str(n)` for a natural number, and the part of `pd.to_numeric` that the
    date column needs (optional sign, digits, optional fraction). */
module Decimal {

  predicate IsDigit(c: char) {
    '0' <= c <= '9'
  }

  predicate AllDigits(s: string) {
    forall i | 0 <= i < |s| :: IsDigit(s[i])
  }

  function DigitValue(c: char): nat
    requires IsDigit(c)
  {
    (c - '0') as nat
  }

  /** The number that a string of decimal digits denotes. */
  function ValueOf(s: string): nat
    requires AllDigits(s)
  {
    if s == [] then 0 else 10 * ValueOf(s[..|s| - 1]) + DigitValue(s[|s| - 1])
  }

  /** `str(n)`: decimal digits, no leading zero. */
  function ToDecimal(n: nat): (s: string)
    ensures |s| > 0 && AllDigits(s)
    ensures ValueOf(s) == n
    ensures |s| > 1 ==> s[0] != '0'
  {
    if n < 10 then [('0' as int + n) as char]
    else
      var s := ToDecimal(n / 10) + [('0' as int + n % 10) as char];
      assert s[..|s| - 1] == ToDecimal(n / 10);
      s
  }

  /** Length of the run of digits that starts `s`. */
  function DigitRun(s: string): (n: nat)
    ensures n <= |s| && AllDigits(s[..n])
    ensures n < |s| ==> !IsDigit(s[n])
  {
    if s == [] || !IsDigit(s[0]) then 0
    else
      var n := 1 + DigitRun(s[1..]);
      assert s[..n] == [s[0]] + s[1..][..n - 1];
      n
  }

  predicate AllZeros(s: string) {
    forall i | 0 <= i < |s| :: s[i] == '0'
  }

  /** What `pd.to_numeric(..., errors='coerce')` followed by `.astype('Int64')` makes of one
      date: an integer, a number with a non-zero fraction (the cast to Int64 then raises
      `TypeError`), or something that is not a number (NaN, dropped later). */
  datatype Numeric = Integral(n: int) | Fractional | NotNumber

  /** The value of an optional sign (`""`, `"-"` or `"+"`) applied to a magnitude. */
  function Signed(sign: string, magnitude: nat): int {
    if sign == "-" then -(magnitude as int) else magnitude
  }

  function ToNumeric(s: string): Numeric {
    if |s| > 0 && (s[0] == '-' || s[0] == '+') then SignedNumeric(s[..1], s[1..])
    else SignedNumeric("", s)
  }

  /** The number that `body` denotes under `sign`: digits, optionally followed by a point and
      more digits, with at least one digit in all. */
  function SignedNumeric(sign: string, body: string): Numeric {
    var n := DigitRun(body);
    var whole := Signed(sign, ValueOf(body[..n]));
    if n == |body| then (if n == 0 then NotNumber else Integral(whole))
    else if body[n] != '.' || !AllDigits(body[n + 1..]) || (n == 0 && n + 1 == |body|) then NotNumber
    else if AllZeros(body[n + 1..]) then Integral(whole)
    else Fractional
  }

  lemma {:induction false} DigitRunOfDigits(s: string)
    requires AllDigits(s)
    ensures DigitRun(s) == |s|
  {
    if s != [] {
      DigitRunOfDigits(s[1..]);
    }
  }

  lemma {:induction false} DigitRunStops(a: string, rest: string)
    requires AllDigits(a) && rest != [] && !IsDigit(rest[0])
    ensures DigitRun(a + rest) == |a|
  {
    if a != [] {
      assert (a + rest)[1..] == a[1..] + rest;
      DigitRunStops(a[1..], rest);
    }
  }

  /** A year written by `str` parses back to that year. */
  lemma ToNumericOfDecimal(n: nat)
    ensures ToNumeric(ToDecimal(n)) == Integral(n)
  {
    var s := ToDecimal(n);
    DigitRunOfDigits(s);
    assert s[..|s|] == s;
  }

  /** A signed run of digits is an integer, with that value. */
  lemma ToNumericOfInteger(sign: string, a: string)
    requires sign == "" || sign == "-" || sign == "+"
    requires AllDigits(a) && |a| > 0
    ensures ToNumeric(sign + a) == Integral(Signed(sign, ValueOf(a)))
  {
    SplitSign(sign, a);
    DigitRunOfDigits(a);
    assert a[..|a|] == a;
  }

  lemma FractionBody(sign: string, a: string, b: string)
    requires AllDigits(a) && AllDigits(b) && |a| + |b| > 0
    ensures SignedNumeric(sign, a + "." + b) ==
      if AllZeros(b) then Integral(Signed(sign, ValueOf(a))) else Fractional
  {
    var body := a + "." + b;
    assert body == a + ("." + b);
    DigitRunStops(a, "." + b);
    var n := DigitRun(body);
    assert n == |a| < |body|;
    assert body[..n] == a;
    assert body[n] == '.';
    assert body[n + 1..] == b;
  }

  /** Reading the sign off the front of `sign + body` leaves `body`. */
  lemma SplitSign(sign: string, body: string)
    requires sign == "" || sign == "-" || sign == "+"
    requires |body| > 0 && (IsDigit(body[0]) || body[0] == '.')
    ensures ToNumeric(sign + body) == SignedNumeric(sign, body)
  {
    var s := sign + body;
    if sign == "" {
      assert s == body;
    } else {
      assert s[0] == sign[0];
      assert s[..1] == sign && s[1..] == body;
    }
  }

  /** A signed decimal fraction `a.b`, with digits on at least one side of the point, is an
      integer when its fractional digits are all zero and a fractional number otherwise. */
  lemma ToNumericOfFraction(sign: string, a: string, b: string)
    requires sign == "" || sign == "-" || sign == "+"
    requires AllDigits(a) && AllDigits(b) && |a| + |b| > 0
    ensures ToNumeric(sign + a + "." + b) ==
      if AllZeros(b) then Integral(Signed(sign, ValueOf(a))) else Fractional
  {
    var body := a + "." + b;
    assert sign + a + "." + b == sign + body;
    assert |a| > 0 ==> body[0] == a[0];
    assert |a| == 0 ==> body[0] == '.';
    SplitSign(sign, body);
    FractionBody(sign, a, b);
  }

  /** Text with no digit at all is not a number. */
  lemma ToNumericWithoutDigits(s: string)
    requires forall i | 0 <= i < |s| :: !IsDigit(s[i])
    ensures ToNumeric(s) == NotNumber
  {
    var body := if |s| > 0 && (s[0] == '-' || s[0] == '+') then s[1..] else s;
    assert DigitRun(body) == 0;
    assert |body| > 1 ==> !IsDigit(body[1..][0]);
  }
}
