/**
 * Python's `int(value)` as the configuration setters apply it to values
 * taken from a JSON request: an integer is kept, a float is truncated
 * toward zero, a string must be an optionally signed run of decimal
 * digits, and anything else (`None`) is refused.
 */
module PyInt {
  import opened Wrappers

  /** What a configuration value may hold before coercion. */
  datatype RawValue = RawInt(i: int) | RawFloat(r: real) | RawText(s: string) | RawNone

  /** `int()` raises a TypeError for an unsupported kind and a ValueError for bad text. */
  datatype CoercionError = TypeError | ValueError

  predicate IsDigit(c: char) { '0' <= c <= '9' }

  predicate IsDigits(s: string) {
    |s| > 0 && forall k :: 0 <= k < |s| ==> IsDigit(s[k])
  }

  function DigitValue(c: char): nat
    requires IsDigit(c)
  {
    c as int - '0' as int
  }

  /** The value of a run of decimal digits, most significant first. */
  function DigitsValue(s: string): nat
    requires forall k :: 0 <= k < |s| ==> IsDigit(s[k])
  {
    if s == [] then 0 else DigitsValue(s[..|s| - 1]) * 10 + DigitValue(s[|s| - 1])
  }

  /** Parses `[+|-]digits`; leading zeros are allowed, as `int("007")` is 7. */
  function ParseInt(s: string): (r: Option<int>)
    ensures r.Some? <==> IsDigits(s) || (|s| > 1 && (s[0] == '+' || s[0] == '-') && IsDigits(s[1..]))
    ensures r.Some? && |s| > 0 && s[0] == '-' ==> r.value <= 0
    ensures r.Some? && |s| > 0 && s[0] != '-' ==> r.value >= 0
  {
    if |s| > 0 && (s[0] == '+' || s[0] == '-') then
      if IsDigits(s[1..]) then
        var v: int := DigitsValue(s[1..]);
        Some(if s[0] == '-' then -v else v)
      else None
    else if IsDigits(s) then Some(DigitsValue(s))
    else None
  }

  /** Truncation toward zero, as `int(2.7) == 2` and `int(-2.7) == -2`. */
  function Truncate(r: real): (i: int)
    ensures r >= 0.0 ==> 0 <= i && i as real <= r < i as real + 1.0
    ensures r < 0.0 ==> i <= 0 && i as real - 1.0 < r <= i as real
  {
    if r >= 0.0 then r.Floor else -((-r).Floor)
  }

  function ToInt(v: RawValue): (r: Result<int, CoercionError>)
    ensures v.RawInt? ==> r == Success(v.i)
    ensures v.RawNone? ==> r == Failure(TypeError)
    ensures v.RawFloat? ==> r == Success(Truncate(v.r))
    ensures v.RawText? ==> (r.Success? <==> ParseInt(v.s).Some?)
    ensures v.RawText? && r.Success? ==> Some(r.value) == ParseInt(v.s)
    ensures v.RawText? && r.Failure? ==> r.error == ValueError
  {
    match v
    case RawInt(i) => Success(i)
    case RawFloat(x) => Success(Truncate(x))
    case RawText(s) => (match ParseInt(s) case Some(i) => Success(i) case None => Failure(ValueError))
    case RawNone => Failure(TypeError)
  }

  // The decimal rendering of an integer; `ParseDecimalString` proves `ParseInt` reads it back.

  function DigitChar(d: nat): (c: char)
    requires d < 10
    ensures IsDigit(c) && DigitValue(c) == d
  {
    ('0' as int + d) as char
  }

  function NatDigits(n: nat): (s: string)
    decreases n
  {
    if n < 10 then [DigitChar(n)] else NatDigits(n / 10) + [DigitChar(n % 10)]
  }

  function DecimalString(i: int): string {
    if i < 0 then "-" + NatDigits(-i) else NatDigits(i)
  }

  lemma {:induction false} NatDigitsValue(n: nat)
    ensures IsDigits(NatDigits(n)) && DigitsValue(NatDigits(n)) == n
    decreases n
  {
    if n >= 10 {
      var d := NatDigits(n / 10);
      NatDigitsValue(n / 10);
      var s := d + [DigitChar(n % 10)];
      assert s[..|s| - 1] == d;
      assert forall k :: 0 <= k < |s| ==> IsDigit(s[k]) by {
        forall k | 0 <= k < |s| ensures IsDigit(s[k]) {
          if k < |d| { assert s[k] == d[k]; }
        }
      }
    }
  }

  /** Every integer written in decimal is parsed back to itself. */
  lemma ParseDecimalString(i: int)
    ensures ParseInt(DecimalString(i)) == Some(i)
  {
    if i < 0 {
      NatDigitsValue(-i);
      assert DecimalString(i)[1..] == NatDigits(-i);
    } else {
      NatDigitsValue(i);
    }
  }

  /** `z` leading zeros, as in an IMSI such as "001010123456789". */
  function Zeros(z: nat): (s: string)
    ensures |s| == z && forall k :: 0 <= k < |s| ==> s[k] == '0'
  {
    if z == 0 then [] else Zeros(z - 1) + ['0']
  }

  lemma {:induction false} ZerosValue(z: nat)
    ensures DigitsValue(Zeros(z)) == 0
  {
    if z > 0 {
      var s := Zeros(z);
      assert s[..|s| - 1] == Zeros(z - 1);
      ZerosValue(z - 1);
    }
  }

  /** Leading zeros do not change the value of a run of digits. */
  lemma {:induction false} DigitsValueZeros(z: nat, d: string)
    requires forall k :: 0 <= k < |d| ==> IsDigit(d[k])
    ensures forall k :: 0 <= k < |Zeros(z) + d| ==> IsDigit((Zeros(z) + d)[k])
    ensures DigitsValue(Zeros(z) + d) == DigitsValue(d)
    decreases |d|
  {
    var e := Zeros(z) + d;
    assert forall k :: 0 <= k < |e| ==> IsDigit(e[k]) by {
      forall k | 0 <= k < |e| ensures IsDigit(e[k]) {
        if k < z { assert e[k] == Zeros(z)[k]; } else { assert e[k] == d[k - z]; }
      }
    }
    if d == [] {
      assert e == Zeros(z);
      ZerosValue(z);
    } else {
      var d' := d[..|d| - 1];
      assert e[..|e| - 1] == Zeros(z) + d';
      assert e[|e| - 1] == d[|d| - 1];
      DigitsValueZeros(z, d');
    }
  }

  /**
   * Text with an optional sign and any number of leading zeros in front of
   * the decimal digits of `n` parses to `n`, negated after a minus sign:
   * `int("007") == 7`, `int("+7") == 7`, `int("-007") == -7`.
   */
  lemma ParseIntPadded(sign: string, z: nat, n: nat)
    requires sign == "" || sign == "+" || sign == "-"
    ensures ParseInt(sign + Zeros(z) + NatDigits(n)) == Some(if sign == "-" then -(n as int) else n)
  {
    var t := Zeros(z) + NatDigits(n);
    NatDigitsValue(n);
    DigitsValueZeros(z, NatDigits(n));
    assert IsDigits(t) && DigitsValue(t) == n;
    var s := sign + Zeros(z) + NatDigits(n);
    assert s == sign + t;
    if sign == "" {
      assert s == t;
      ParseIntDigits(t);
    } else {
      SignedParse(sign[0], t);
    }
  }

  lemma ParseIntDigits(t: string)
    requires IsDigits(t)
    ensures ParseInt(t) == Some(DigitsValue(t))
  {
    assert IsDigit(t[0]);
  }

  lemma SignedParse(c: char, t: string)
    requires c == '+' || c == '-'
    requires IsDigits(t)
    ensures ParseInt([c] + t) == Some(if c == '-' then -(DigitsValue(t) as int) else DigitsValue(t))
  {
    var s := [c] + t;
    assert s[0] == c && s[1..] == t;
  }
}
