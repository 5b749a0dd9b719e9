/** Decimal text <-> number conversions used by the dashboard's forms.

    The forms read user input with JavaScript's parseInt and parseFloat and
    fall back with `|| default` when the result is NaN (or zero). This module
    gives both parsers a concrete definition on the plain decimal subset
    (leading white space, an optional sign, decimal digits and, for
    parseFloat, a fraction); NaN is None. It also prints an integer in
    decimal, the way a template string renders a whole number. */
module Numbers {

  datatype Option<T> = None | Some(value: T)

  predicate IsDigit(c: char) { '0' <= c <= '9' }

  /** The white space and line terminators that both parsers skip: tab, vertical
      tab, form feed, space, no-break space, the byte order mark, the other
      space separators of Unicode, line feed, carriage return, and the line
      and paragraph separators. */
  predicate IsSpace(c: char) {
    c == '\t' || c == '\U{000B}' || c == '\U{000C}' || c == ' ' || c == '\U{00A0}' || c == '\U{FEFF}'
    || c == '\U{1680}' || '\U{2000}' <= c <= '\U{200A}' || c == '\U{202F}' || c == '\U{205F}' || c == '\U{3000}'
    || c == '\n' || c == '\r' || c == '\U{2028}' || c == '\U{2029}'
  }

  predicate AllDigits(s: string) { forall i :: 0 <= i < |s| ==> IsDigit(s[i]) }

  function DigitValue(c: char): (d: nat)
    requires IsDigit(c)
    ensures d < 10
  {
    (c as int) - ('0' as int)
  }

  function DigitChar(d: nat): (c: char)
    requires d < 10
    ensures IsDigit(c) && DigitValue(c) == d
  {
    (('0' as int) + d) as char
  }

  /** The longest prefix of `s` made of decimal digits. */
  function DigitPrefix(s: string): (ds: string)
    ensures AllDigits(ds)
    ensures |ds| <= |s| && ds == s[..|ds|]
    ensures |ds| < |s| ==> !IsDigit(s[|ds|])
  {
    if s != [] && IsDigit(s[0]) then [s[0]] + DigitPrefix(s[1..]) else []
  }

  /** The digits before a decimal point and the digits after it, at the head of `u`. */
  function Mantissa(u: string): (parts: (string, string))
    ensures AllDigits(parts.0) && AllDigits(parts.1)
  {
    if u != [] && IsDigit(u[0]) then
      var (whole, fraction) := Mantissa(u[1..]);
      ([u[0]] + whole, fraction)
    else if u != [] && u[0] == '.' then ([], DigitPrefix(u[1..]))
    else ([], [])
  }

  /** Value of a string of digits, accumulated from left to right. */
  function DigitsValue(ds: string): nat
    requires AllDigits(ds)
  {
    if ds == [] then 0 else DigitsValue(ds[..|ds| - 1]) * 10 + DigitValue(ds[|ds| - 1])
  }

  /** Value of the digits after a decimal point: "25" is 0.25. */
  function FractionValue(ds: string): real
    requires AllDigits(ds)
  {
    if ds == [] then 0.0 else (DigitValue(ds[0]) as real + FractionValue(ds[1..])) / 10.0
  }

  /** The text after the leading white space and an optional sign, and whether the sign was '-'. */
  function Unsigned(s: string): (string, bool)
  {
    if s != [] && IsSpace(s[0]) then Unsigned(s[1..])
    else if s != [] && (s[0] == '-' || s[0] == '+') then (s[1..], s[0] == '-')
    else (s, false)
  }

  lemma {:induction false} UnsignedIsSuffix(s: string)
    ensures |Unsigned(s).0| <= |s|
    ensures Unsigned(s).0 == s[|s| - |Unsigned(s).0|..]
  {
    if s != [] && IsSpace(s[0]) {
      UnsignedIsSuffix(s[1..]);
    }
  }

  /** parseInt on decimal text: None (NaN) unless a digit follows the white space and sign. */
  function ParseInt(s: string): (r: Option<int>)
  {
    var (u, negative) := Unsigned(s);
    var whole := DigitPrefix(u);
    if whole == [] then None
    else
      var v: int := DigitsValue(whole);
      Some(if negative then -v else v)
  }

  /** parseFloat on decimal text: digits, optionally followed by '.' and more digits;
      None (NaN) when neither part holds a digit. */
  function ParseFloat(s: string): (r: Option<real>)
  {
    var (u, negative) := Unsigned(s);
    var (whole, fraction) := Mantissa(u);
    if whole == [] && fraction == [] then None
    else
      var v := DigitsValue(whole) as real + FractionValue(fraction);
      Some(if negative then -v else v)
  }

  /** `x || 0` on a parseFloat result: NaN (and 0 itself) give 0. */
  function OrZero(x: Option<real>): (v: real)
    ensures x == None ==> v == 0.0
    ensures x.Some? ==> v == x.value
  {
    match x
    case None => 0.0
    case Some(n) => if n == 0.0 then 0.0 else n
  }

  /** `x || 1` on a parseInt result: NaN and 0 give 1, so the result is never 0. */
  function OrOne(x: Option<int>): (d: int)
    ensures d != 0
    ensures d == 1 <==> x == None || x == Some(0) || x == Some(1)
    ensures x.Some? && x.value != 0 ==> d == x.value
  {
    match x
    case None => 1
    case Some(n) => if n == 0 then 1 else n
  }

  /** `parseFloat(text) || 0`: the number the text holds, or 0 when it holds none. */
  function ParseFloatOrZero(text: string): real
  {
    OrZero(ParseFloat(text))
  }

  /** `parseInt(text) || 1`: the integer the text holds, or 1 when it holds none or 0. */
  function ParseIntOrOne(text: string): (d: int)
    ensures d != 0
  {
    OrOne(ParseInt(text))
  }

  /** Decimal digits of a natural number, most significant first, no leading zero. */
  function NatToDecimal(n: nat): (s: string)
    ensures s != [] && AllDigits(s)
    ensures s[0] == '0' ==> n == 0
  {
    if n < 10 then [DigitChar(n)] else NatToDecimal(n / 10) + [DigitChar(n % 10)]
  }

  /** Decimal form of an integer: a '-' when negative, then the digits of its
      magnitude with no leading zero (0 itself is "0"). */
  function IntToDecimal(n: int): (s: string)
    ensures s != []
    ensures n >= 0 <==> IsDigit(s[0])
    ensures n < 0 ==> |s| > 1 && s[0] == '-'
    ensures AllDigits(if n < 0 then s[1..] else s)
    ensures (if n < 0 then s[1] else s[0]) == '0' ==> n == 0
  {
    if n < 0 then "-" + NatToDecimal(-n) else NatToDecimal(n)
  }

  lemma {:induction false} DigitPrefixAll(s: string)
    requires AllDigits(s)
    ensures DigitPrefix(s) == s
  {
    if s != [] {
      DigitPrefixAll(s[1..]);
    }
  }

  lemma {:induction false} NatToDecimalValue(n: nat)
    ensures DigitsValue(NatToDecimal(n)) == n
  {
    if n >= 10 {
      NatToDecimalValue(n / 10);
      var s := NatToDecimal(n);
      assert s[..|s| - 1] == NatToDecimal(n / 10);
    }
  }

  lemma {:induction false} MantissaWhole(u: string)
    requires AllDigits(u)
    ensures Mantissa(u) == (u, [])
  {
    if u != [] {
      MantissaWhole(u[1..]);
      assert u == [u[0]] + u[1..];
    }
  }

  /** The sign and digits that follow it in a printed integer. */
  lemma UnsignedOfDecimal(n: int)
    ensures Unsigned(IntToDecimal(n)) == (NatToDecimal(if n < 0 then -n else n), n < 0)
  {
    var s := IntToDecimal(n);
    assert !IsSpace(s[0]);
  }

  /** Round trip: parseInt reads back exactly the integer that was printed. */
  lemma ParseIntOfDecimal(n: int)
    ensures ParseInt(IntToDecimal(n)) == Some(n)
  {
    var m := if n < 0 then -n else n;
    var u := NatToDecimal(m);
    UnsignedOfDecimal(n);
    DigitPrefixAll(u);
    NatToDecimalValue(m);
  }

  /** On whole numbers parseFloat and parseInt agree. */
  lemma ParseFloatOfWhole(s: string)
    requires Unsigned(s).0 != [] && AllDigits(Unsigned(s).0)
    ensures ParseInt(s).Some?
    ensures ParseFloat(s) == Some(ParseInt(s).value as real)
  {
    var (u, negative) := Unsigned(s);
    DigitPrefixAll(u);
    MantissaWhole(u);
    var v: int := DigitsValue(u);
    assert ParseInt(s) == Some(if negative then -v else v);
    assert FractionValue([]) == 0.0;
  }

  /** Round trip: parseFloat reads back the printed integer as a number. */
  lemma ParseFloatOfDecimal(n: int)
    ensures ParseFloat(IntToDecimal(n)) == Some(n as real)
  {
    UnsignedOfDecimal(n);
    ParseIntOfDecimal(n);
    ParseFloatOfWhole(IntToDecimal(n));
  }

  /** Text without a single digit is never a number. */
  lemma NoDigitNoNumber(s: string)
    requires forall i :: 0 <= i < |s| ==> !IsDigit(s[i])
    ensures ParseInt(s) == None
    ensures ParseFloat(s) == None
  {
    var (u, negative) := Unsigned(s);
    UnsignedIsSuffix(s);
    assert u == s[|s| - |u|..];
    assert u != [] ==> !IsDigit(u[0]);
    if u != [] && u[0] == '.' {
      assert u[1..] != [] ==> !IsDigit(u[1..][0]);
    }
  }
}
