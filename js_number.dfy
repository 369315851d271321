/**
 * `parseInt(s, 10)` as ECMAScript defines it (section 19.2.5 of ECMA-262):
 * skip leading white space, read an optional sign, then the longest prefix of
 * decimal digits; no digit at all gives NaN, written here as None. The value
 * is an unbounded integer: the rounding of very long digit strings to a
 * double is not modelled.
 */
module JsNumber {
  import opened Wrappers

  /** ECMAScript's StrWhiteSpaceChar: WhiteSpace (Zs and the listed controls) and LineTerminator. */
  predicate IsStrWhiteSpaceChar(c: char) {
    var n := c as int;
    n == 0x09 || n == 0x0A || n == 0x0B || n == 0x0C || n == 0x0D || n == 0x20 ||
    n == 0xA0 || n == 0x1680 || (0x2000 <= n <= 0x200A) || n == 0x2028 || n == 0x2029 ||
    n == 0x202F || n == 0x205F || n == 0x3000 || n == 0xFEFF
  }

  predicate IsDigit(c: char) { '0' <= c <= '9' }

  predicate AllDigits(s: string) {
    forall i :: 0 <= i < |s| ==> IsDigit(s[i])
  }

  /** The string with its leading white space removed (TrimString with `start`). */
  function TrimStart(s: string): (t: string)
    ensures |t| <= |s| && t == s[|s| - |t|..]
    ensures forall i :: 0 <= i < |s| - |t| ==> IsStrWhiteSpaceChar(s[i])
    ensures t != [] ==> !IsStrWhiteSpaceChar(t[0])
  {
    if s != [] && IsStrWhiteSpaceChar(s[0]) then TrimStart(s[1..]) else s
  }

  /** The length of the longest prefix of `s` made of decimal digits. */
  function DigitPrefixLength(s: string): (k: nat)
    ensures k <= |s|
    ensures AllDigits(s[..k])
    ensures k < |s| ==> !IsDigit(s[k])
  {
    if s == [] || !IsDigit(s[0]) then 0
    else
      var k := 1 + DigitPrefixLength(s[1..]);
      assert s[..k] == [s[0]] + s[1..][..k - 1];
      k
  }

  function DigitValue(c: char): nat
    requires IsDigit(c)
  {
    c as int - '0' as int
  }

  /** The number a string of decimal digits denotes, most significant digit first. */
  function DecimalValue(ds: string): nat
    requires AllDigits(ds)
  {
    if ds == [] then 0 else DecimalValue(ds[..|ds| - 1]) * 10 + DigitValue(ds[|ds| - 1])
  }

  /**
   * `parseInt(s, 10)`; None stands for NaN, which it is exactly when no
   * decimal digit follows the white space and the optional sign.
   */
  function ParseInt(s: string): (r: Option<int>)
    ensures r.None? <==>
      var t := TrimStart(s);
      var body := if t != [] && (t[0] == '-' || t[0] == '+') then t[1..] else t;
      body == [] || !IsDigit(body[0])
  {
    ParseTrimmed(TrimStart(s))
  }

  /** The sign and digits `parseInt` reads once the white space is gone. */
  function ParseTrimmed(t: string): (r: Option<int>)
    ensures r.None? <==>
      var body := if t != [] && (t[0] == '-' || t[0] == '+') then t[1..] else t;
      body == [] || !IsDigit(body[0])
  {
    var signed := t != [] && (t[0] == '-' || t[0] == '+');
    var body := if signed then t[1..] else t;
    var k := DigitPrefixLength(body);
    if k == 0 then None
    else
      var magnitude: int := DecimalValue(body[..k]);
      Some(if signed && t[0] == '-' then -magnitude else magnitude)
  }

  /**
   * The plain positional decimal digits of a natural number, most significant
   * first, without sign or exponent.
   */
  function DecimalString(n: nat): (s: string)
    ensures s != [] && AllDigits(s)
  {
    if n < 10 then [('0' as int + n) as char]
    else DecimalString(n / 10) + [('0' as int + n % 10) as char]
  }

  lemma {:induction false} DecimalStringValue(n: nat)
    ensures DecimalValue(DecimalString(n)) == n
  {
    if n >= 10 {
      var s := DecimalString(n);
      assert s[..|s| - 1] == DecimalString(n / 10);
      DecimalStringValue(n / 10);
    }
  }

  /** The digit prefix of `ds + rest` is `ds` when `rest` does not start with a digit. */
  lemma {:induction false} DigitPrefixOf(ds: string, rest: string)
    requires AllDigits(ds)
    requires rest == [] || !IsDigit(rest[0])
    ensures DigitPrefixLength(ds + rest) == |ds|
  {
    if ds != [] {
      assert (ds + rest)[1..] == ds[1..] + rest;
      DigitPrefixOf(ds[1..], rest);
    } else {
      assert ds + rest == rest;
    }
  }

  /**
   * A string that starts with decimal digits parses to the value of those
   * digits, whatever follows them: "123abc" parses to 123.
   */
  lemma ParseIntDigitsThen(ds: string, rest: string)
    requires ds != [] && AllDigits(ds)
    requires rest == [] || !IsDigit(rest[0])
    ensures ParseInt(ds + rest) == Some(DecimalValue(ds))
  {
    var s := ds + rest;
    assert s[0] == ds[0] && IsDigit(s[0]);
    assert !IsStrWhiteSpaceChar(s[0]);
    assert TrimStart(s) == s;
    assert !(s[0] == '-' || s[0] == '+');
    DigitPrefixOf(ds, rest);
    assert s[..|ds|] == ds;
  }

  /** Leading white space is dropped whatever follows it. */
  lemma {:induction false} TrimStartWhiteSpace(ws: string, t: string)
    requires forall i :: 0 <= i < |ws| ==> IsStrWhiteSpaceChar(ws[i])
    requires t == [] || !IsStrWhiteSpaceChar(t[0])
    ensures TrimStart(ws + t) == t
  {
    if ws == [] {
      assert ws + t == t;
    } else {
      assert (ws + t)[1..] == ws[1..] + t;
      TrimStartWhiteSpace(ws[1..], t);
    }
  }

  /** `parseInt` gives the same result with or without leading white space. */
  lemma ParseIntSkipsWhiteSpace(ws: string, t: string)
    requires forall i :: 0 <= i < |ws| ==> IsStrWhiteSpaceChar(ws[i])
    requires t == [] || !IsStrWhiteSpaceChar(t[0])
    ensures ParseInt(ws + t) == ParseTrimmed(t) == ParseInt(t)
  {
    TrimStartWhiteSpace(ws, t);
    assert TrimStart(t) == t;
  }

  /** After a minus sign, the digits `ds` are read and negated. */
  lemma NegativeDigitsThen(t: string, ds: string, rest: string)
    requires ds != [] && AllDigits(ds)
    requires rest == [] || !IsDigit(rest[0])
    requires t == "-" + ds + rest
    ensures ParseTrimmed(t) == Some(-(DecimalValue(ds) as int))
  {
    assert t[1..] == ds + rest;
    DigitPrefixOf(ds, rest);
    assert DigitPrefixLength(t[1..]) == |ds|;
    assert t[1..][..|ds|] == ds;
  }

  /** After a plus sign, the digits `ds` are read as they are. */
  lemma PositiveDigitsThen(t: string, ds: string, rest: string)
    requires ds != [] && AllDigits(ds)
    requires rest == [] || !IsDigit(rest[0])
    requires t == "+" + ds + rest
    ensures ParseTrimmed(t) == Some(DecimalValue(ds) as int)
  {
    assert t[1..] == ds + rest;
    DigitPrefixOf(ds, rest);
    assert DigitPrefixLength(t[1..]) == |ds|;
    assert t[1..][..|ds|] == ds;
  }

  /**
   * White space, an optional sign, then decimal digits followed by a
   * non-digit or nothing: `parseInt` gives the signed value of the digits,
   * so " -12x" parses to -12 and "+7" to 7.
   */
  lemma ParseIntValue(ws: string, sign: string, ds: string, rest: string)
    requires forall i :: 0 <= i < |ws| ==> IsStrWhiteSpaceChar(ws[i])
    requires sign == "" || sign == "+" || sign == "-"
    requires ds != [] && AllDigits(ds)
    requires rest == [] || !IsDigit(rest[0])
    ensures ParseInt(ws + sign + ds + rest) ==
      Some(if sign == "-" then -(DecimalValue(ds) as int) else DecimalValue(ds) as int)
  {
    var t := sign + ds + rest;
    assert ws + sign + ds + rest == ws + t;
    assert t != [] && !IsStrWhiteSpaceChar(t[0]) by {
      if sign == "" {
        assert t == ds + rest && t[0] == ds[0];
      } else {
        assert t[0] == sign[0];
      }
    }
    ParseIntSkipsWhiteSpace(ws, t);
    if sign == "-" {
      NegativeDigitsThen(t, ds, rest);
    } else if sign == "+" {
      PositiveDigitsThen(t, ds, rest);
    } else {
      assert t == ds + rest;
      ParseIntDigitsThen(ds, rest);
    }
  }

  /** The plain decimal digits of `n` parse back to `n`. */
  lemma ParseIntDecimalString(n: nat)
    ensures ParseInt(DecimalString(n)) == Some(n)
  {
    var s := DecimalString(n);
    assert s + [] == s;
    ParseIntDigitsThen(s, []);
    DecimalStringValue(n);
  }
}
