/**
 * The parts of Go's `strconv` package that the core relies on:
 * `ParseBool`, `FormatBool`, `ParseInt(s, 10, 16)` and `%d` formatting.
 * A failed parse is `None`; the text of Go's error value is not modelled.
 */
module Strconv {
  import opened Wrappers

  /** The literals `strconv.ParseBool` accepts as true. */
  const TrueLiterals: set<string> := {"1", "t", "T", "TRUE", "true", "True"}

  /** The literals `strconv.ParseBool` accepts as false. */
  const FalseLiterals: set<string> := {"0", "f", "F", "FALSE", "false", "False"}

  /** `strconv.ParseBool`: any other string is a syntax error. */
  function ParseBool(s: string): (r: Option<bool>)
    ensures r == Some(true) <==> s in TrueLiterals
    ensures r == Some(false) <==> s in FalseLiterals
    ensures r.None? <==> s !in TrueLiterals && s !in FalseLiterals
  {
    if s in TrueLiterals then Some(true)
    else if s in FalseLiterals then Some(false)
    else None
  }

  /** `strconv.FormatBool`. */
  function FormatBool(b: bool): (r: string)
    ensures r in TrueLiterals <==> b
    ensures r in FalseLiterals <==> !b
  {
    if b then "true" else "false"
  }

  lemma ParseBoolFormatBool(b: bool)
    ensures ParseBool(FormatBool(b)) == Some(b)
  {
  }

  /** The smallest and largest values of a Go `int16`. */
  const MinInt16: int := -32768
  const MaxInt16: int := 32767

  predicate IsDigit(c: char)
  {
    '0' <= c <= '9'
  }

  predicate AllDigits(s: string)
  {
    forall i :: 0 <= i < |s| ==> IsDigit(s[i])
  }

  function DigitValue(c: char): (d: nat)
    requires IsDigit(c)
    ensures d < 10
  {
    c as int - '0' as int
  }

  function DigitChar(d: nat): (c: char)
    requires d < 10
    ensures IsDigit(c) && DigitValue(c) == d
  {
    ('0' as int + d) as char
  }

  /** Base-10 value of a digit string, leading zeros allowed. */
  function DigitsValue(s: string): (n: nat)
    requires AllDigits(s)
  {
    if s == [] then 0 else 10 * DigitsValue(s[..|s| - 1]) + DigitValue(s[|s| - 1])
  }

  /** Canonical base-10 digits of a natural number: no leading zero, "0" for zero. */
  function FormatNat(n: nat): (r: string)
    ensures |r| >= 1 && AllDigits(r)
    ensures |r| > 1 ==> r[0] != '0'
  {
    if n < 10 then [DigitChar(n)] else FormatNat(n / 10) + [DigitChar(n % 10)]
  }

  /** Go's `%d` rendering of an integer. */
  function FormatInt(n: int): (r: string)
    ensures |r| >= 1
    ensures forall i :: 0 <= i < |r| ==> IsDigit(r[i]) || (i == 0 && r[i] == '-')
  {
    if n < 0 then "-" + FormatNat(-n) else FormatNat(n)
  }

  /**
   * `strconv.ParseInt(s, 10, 16)`: an optional `+` or `-`, then one or more
   * decimal digits (no underscores, since the base is given), and a value in
   * the `int16` range. Every syntax or range error is `None`.
   */
  function ParseInt16(s: string): (r: Option<int>)
    ensures r.Some? ==> MinInt16 <= r.value <= MaxInt16
  {
    if s == "" then None
    else if s[0] == '+' then ParseMagnitude16(false, s[1..])
    else if s[0] == '-' then ParseMagnitude16(true, s[1..])
    else ParseMagnitude16(false, s)
  }

  /** The digits after the optional sign: at least one, and a magnitude the sign allows. */
  function ParseMagnitude16(neg: bool, digits: string): (r: Option<int>)
    ensures r.Some? ==> MinInt16 <= r.value <= MaxInt16
  {
    if digits == "" || !AllDigits(digits) then None
    else
      var u := DigitsValue(digits);
      if !neg && u > MaxInt16 then None
      else if neg && u > -MinInt16 then None
      else Some(if neg then -(u as int) else u as int)
  }

  lemma {:induction false} DigitsValueFormatNat(n: nat)
    ensures DigitsValue(FormatNat(n)) == n
  {
    if n >= 10 {
      var s := FormatNat(n);
      assert s[..|s| - 1] == FormatNat(n / 10);
      DigitsValueFormatNat(n / 10);
    }
  }

  /** Rendering an `int16` with `%d` and parsing it back gives the same value. */
  lemma ParseInt16FormatInt(n: int)
    requires MinInt16 <= n <= MaxInt16
    ensures ParseInt16(FormatInt(n)) == Some(n)
  {
    var s := FormatInt(n);
    if n < 0 {
      assert s[1..] == FormatNat(-n);
      DigitsValueFormatNat(-n);
    } else {
      DigitsValueFormatNat(n);
    }
  }

  /** A parsed value re-rendered with `%d`; any other string unchanged. */
  function Normalize(v: string): (r: string)
    ensures ParseInt16(v).None? ==> r == v
    ensures ParseInt16(r) == ParseInt16(v)
  {
    match ParseInt16(v)
    case Some(n) => ParseInt16FormatInt(n); FormatInt(n)
    case None => v
  }

  /** A value the encoder writes back unchanged. */
  predicate Canonical(v: string)
  {
    Normalize(v) == v
  }

  /** Normalizing is idempotent: its output is always canonical. */
  lemma NormalizeCanonical(v: string)
    ensures Canonical(Normalize(v))
  {
    match ParseInt16(v)
    case Some(n) => ParseInt16FormatInt(n);
    case None =>
  }

  lemma DigitCharValue(c: char)
    requires IsDigit(c)
    ensures DigitChar(DigitValue(c)) == c
  {
  }

  /** A run of `0` characters. */
  predicate AllZeros(z: string)
  {
    forall i :: 0 <= i < |z| ==> z[i] == '0'
  }

  lemma {:induction false} ZerosValue(z: string)
    requires AllZeros(z)
    ensures AllDigits(z) && DigitsValue(z) == 0
  {
    if z != [] {
      ZerosValue(z[..|z| - 1]);
    }
  }

  /** Leading zeros do not change the value of a digit string. */
  lemma {:induction false} DigitsValueLeadingZeros(z: string, d: string)
    requires AllZeros(z) && AllDigits(d)
    ensures AllDigits(z + d) && DigitsValue(z + d) == DigitsValue(d)
  {
    ZerosValue(z);
    if d == [] {
      assert z + d == z;
    } else {
      var init := d[..|d| - 1];
      assert (z + d)[..|z + d| - 1] == z + init;
      DigitsValueLeadingZeros(z, init);
    }
  }

  /** A digit string that does not start with `0` has a positive value. */
  lemma {:induction false} DigitsValuePositive(d: string)
    requires AllDigits(d) && d != [] && d[0] != '0'
    ensures DigitsValue(d) >= 1
  {
    if |d| > 1 {
      DigitsValuePositive(d[..|d| - 1]);
    }
  }

  /** Digits without a leading zero are the `%d` rendering of their value. */
  lemma {:induction false} FormatNatDigitsValue(d: string)
    requires AllDigits(d) && d != [] && (|d| > 1 ==> d[0] != '0')
    ensures FormatNat(DigitsValue(d)) == d
  {
    if |d| > 1 {
      var init := d[..|d| - 1];
      DigitsValuePositive(init);
      FormatNatDigitsValue(init);
      DigitCharValue(d[|d| - 1]);
      assert d == init + [d[|d| - 1]];
    } else {
      DigitCharValue(d[0]);
    }
  }

  /** Every non-empty digit string is a run of zeros followed by the `%d` rendering of its value. */
  lemma {:induction false} StripZeros(d: string) returns (z: string)
    requires AllDigits(d) && d != []
    ensures AllZeros(z) && d == z + FormatNat(DigitsValue(d))
  {
    if |d| > 1 && d[0] == '0' {
      var z' := StripZeros(d[1..]);
      assert d == "0" + d[1..];
      DigitsValueLeadingZeros("0", d[1..]);
      z := "0" + z';
    } else {
      FormatNatDigitsValue(d);
      z := "";
    }
  }

  /**
   * `ParseInt(s, 10, 16)` accepts an optional sign, any run of zeros and the
   * digits of a number in range, and yields that number with the sign applied.
   */
  lemma ParseInt16Accepted(sign: string, z: string, n: nat)
    requires sign == "" || sign == "+" || sign == "-"
    requires AllZeros(z)
    requires if sign == "-" then n <= -MinInt16 else n <= MaxInt16
    ensures ParseInt16(sign + z + FormatNat(n)) == Some(if sign == "-" then -(n as int) else n as int)
  {
    var d := z + FormatNat(n);
    DigitsValueLeadingZeros(z, FormatNat(n));
    DigitsValueFormatNat(n);
    assert IsDigit(d[0]);
    ParseInt16Signed(sign, d);
    assert sign + z + FormatNat(n) == sign + d;
  }

  /** After a sign (or none), a string starting with a digit is parsed as a magnitude. */
  lemma ParseInt16Signed(sign: string, d: string)
    requires sign == "" || sign == "+" || sign == "-"
    requires d != [] && IsDigit(d[0])
    ensures ParseInt16(sign + d) == ParseMagnitude16(sign == "-", d)
  {
    var s := sign + d;
    if sign == "" {
      assert s == d;
    } else {
      assert s[0] == sign[0] && s[1..] == d;
    }
  }

  /** Accepted digits are zeros followed by the decimal form of their value. */
  lemma MagnitudeShape(neg: bool, digits: string) returns (z: string, n: nat)
    requires ParseMagnitude16(neg, digits).Some?
    ensures AllZeros(z) && digits == z + FormatNat(n)
    ensures ParseMagnitude16(neg, digits).value == (if neg then -(n as int) else n as int)
  {
    z := StripZeros(digits);
    n := DigitsValue(digits);
  }

  /** A non-empty string is an optional sign and the digits `ParseMagnitude16` reads. */
  lemma SignSplit(s: string) returns (sign: string, digits: string)
    requires s != ""
    ensures sign == "" || sign == "+" || sign == "-"
    ensures s == sign + digits
    ensures ParseInt16(s) == ParseMagnitude16(sign == "-", digits)
  {
    if s[0] == '+' {
      sign, digits := "+", s[1..];
    } else if s[0] == '-' {
      sign, digits := "-", s[1..];
    } else {
      sign, digits := "", s;
    }
  }

  /** Conversely, every string `ParseInt(s, 10, 16)` accepts has that shape. */
  lemma ParseInt16Shape(s: string) returns (sign: string, z: string, n: nat)
    requires ParseInt16(s).Some?
    ensures sign == "" || sign == "+" || sign == "-"
    ensures AllZeros(z) && s == sign + z + FormatNat(n)
    ensures ParseInt16(s).value == (if sign == "-" then -(n as int) else n as int)
  {
    var digits;
    sign, digits := SignSplit(s);
    z, n := MagnitudeShape(sign == "-", digits);
  }

  /** Leading zeros and a `+` sign are accepted and dropped; the lower bound is in range. */
  lemma ParseInt16Accepts()
    ensures ParseInt16("0123") == Some(123)
    ensures ParseInt16("+5") == Some(5)
    ensures ParseInt16("-32768") == Some(-32768)
  {
    assert "0123"[..3] == "012" && "012"[..2] == "01" && "01"[..1] == "0";
    assert DigitsValue("01") == 1 && DigitsValue("012") == 12 && DigitsValue("0123") == 123;
    assert "+5"[1..] == "5";
    assert "-32768"[1..] == "32768";
    assert "32768"[..4] == "3276" && "3276"[..3] == "327" && "327"[..2] == "32" && "32"[..1] == "3";
  }

  /** Out-of-range digits, a bare sign, the empty string and underscores are not a number. */
  lemma ParseInt16Rejects()
    ensures ParseInt16("40000") == None
    ensures ParseInt16("32768") == None
    ensures ParseInt16("") == None
    ensures ParseInt16("-") == None
    ensures ParseInt16("1_000") == None
  {
    assert "32768"[..4] == "3276" && "3276"[..3] == "327" && "327"[..2] == "32" && "32"[..1] == "3";
    assert "40000"[..4] == "4000" && "4000"[..3] == "400" && "400"[..2] == "40" && "40"[..1] == "4";
    assert !IsDigit("1_000"[1]);
  }
}
