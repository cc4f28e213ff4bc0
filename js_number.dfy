/**
 * The two JavaScript string-to-number conversions the client uses:
 * `parseInt(s)` for the status code and `Number(s)` for the watermarks.
 * Only integer results are modelled; `NaN` also stands for the non-integer
 * values `Number` can produce (see README).
 */
module JsNumber {

  /** A JavaScript number as the client can obtain it. */
  datatype Number = Num(value: int) | NaN

  /** `StrWhiteSpaceChar` of ECMA-262: white space and line terminators. */
  predicate IsWhiteSpace(c: char)
  {
    var n := c as int;
    n == 0x09 || n == 0x0A || n == 0x0B || n == 0x0C || n == 0x0D || n == 0x20 ||
    n == 0xA0 || n == 0x1680 || (0x2000 <= n <= 0x200A) || n == 0x2028 ||
    n == 0x2029 || n == 0x202F || n == 0x205F || n == 0x3000 || n == 0xFEFF
  }

  function TrimStart(s: string): (r: string)
    ensures |r| <= |s| && r == s[|s| - |r|..]
    ensures r == [] || !IsWhiteSpace(r[0])
    ensures |s| > 0 && !IsWhiteSpace(s[0]) ==> r == s
  {
    if |s| > 0 && IsWhiteSpace(s[0]) then TrimStart(s[1..]) else s
  }

  function TrimEnd(s: string): (r: string)
    ensures |r| <= |s| && r == s[..|r|]
    ensures r == [] || !IsWhiteSpace(r[|r| - 1])
    ensures |s| > 0 && !IsWhiteSpace(s[|s| - 1]) ==> r == s
  {
    if |s| > 0 && IsWhiteSpace(s[|s| - 1]) then TrimEnd(s[..|s| - 1]) else s
  }

  /** The value of `c` as a digit in any radix up to 36; 36 when it is no digit. */
  function DigitValue(c: char): (d: nat)
    ensures d <= 36
    ensures d < 10 <==> '0' <= c <= '9'
  {
    if '0' <= c <= '9' then c as int - '0' as int
    else if 'a' <= c <= 'z' then c as int - 'a' as int + 10
    else if 'A' <= c <= 'Z' then c as int - 'A' as int + 10
    else 36
  }

  predicate IsDigit(c: char, radix: nat)
  {
    DigitValue(c) < radix
  }

  predicate AllDigits(s: string, radix: nat)
  {
    forall k :: 0 <= k < |s| ==> IsDigit(s[k], radix)
  }

  /** The number of leading characters of `s` that are digits in `radix`. */
  function DigitPrefixLength(s: string, radix: nat): (n: nat)
    ensures n <= |s|
    ensures AllDigits(s[..n], radix)
    ensures n < |s| ==> !IsDigit(s[n], radix)
  {
    if |s| > 0 && IsDigit(s[0], radix) then
      var n := 1 + DigitPrefixLength(s[1..], radix);
      assert s[..n] == [s[0]] + s[1..][..n - 1];
      n
    else 0
  }

  /** The value of a string of digits, most significant first. */
  function DigitsValue(ds: string, radix: nat): nat
    requires AllDigits(ds, radix)
  {
    if ds == [] then 0
    else DigitsValue(ds[..|ds| - 1], radix) * radix + DigitValue(ds[|ds| - 1])
  }

  function Negate(x: Number): Number
  {
    match x
    case Num(v) => Num(-v)
    case NaN => NaN
  }

  /** The value of the longest run of `radix` digits at the start of `v`; NaN if there is none. */
  function LeadingValue(v: string, radix: nat): Number
  {
    var n := DigitPrefixLength(v, radix);
    if n == 0 then NaN else Num(DigitsValue(v[..n], radix))
  }

  /** `parseInt` after the sign: a `0x`/`0X` prefix selects radix 16, otherwise radix 10. */
  function ParseUnsigned(u: string): Number
  {
    if |u| >= 2 && u[0] == '0' && (u[1] == 'x' || u[1] == 'X') then LeadingValue(u[2..], 16)
    else LeadingValue(u, 10)
  }

  /**
   * `parseInt(s)` without a radix: leading white space is skipped, then an
   * optional sign, then a `0x`/`0X` prefix selects radix 16; the longest run
   * of digits that follows gives the value, and no digit at all gives NaN.
   */
  function ParseInt(s: string): (r: Number)
    ensures s == [] ==> r == NaN
    ensures |s| > 0 && !IsWhiteSpace(s[0]) && s[0] != '+' && s[0] != '-' && !IsDigit(s[0], 10)
      ==> r == NaN
  {
    var t := TrimStart(s);
    if |t| > 0 && t[0] == '-' then Negate(ParseUnsigned(t[1..]))
    else if |t| > 0 && t[0] == '+' then ParseUnsigned(t[1..])
    else ParseUnsigned(t)
  }

  /** The radix a `0x`, `0o` or `0b` prefix letter selects; 0 for any other character. */
  function PrefixRadix(c: char): nat
  {
    if c == 'x' || c == 'X' then 16
    else if c == 'o' || c == 'O' then 8
    else if c == 'b' || c == 'B' then 2
    else 0
  }

  /** A whole text of `radix` digits as a number; NaN for an empty or non-digit text. */
  function DigitsNumber(ds: string, radix: nat): Number
  {
    if |ds| > 0 && AllDigits(ds, radix) then Num(DigitsValue(ds, radix)) else NaN
  }

  /** `StringToNumber` of an already trimmed text, integer forms only. */
  function TrimmedToNumber(t: string): Number
  {
    if t == [] then Num(0)
    else if |t| >= 2 && t[0] == '0' && PrefixRadix(t[1]) > 0 then DigitsNumber(t[2..], PrefixRadix(t[1]))
    else if t[0] == '-' then Negate(DigitsNumber(t[1..], 10))
    else if t[0] == '+' then DigitsNumber(t[1..], 10)
    else DigitsNumber(t, 10)
  }

  /**
   * `Number(s)` for the integer forms of `StringNumericLiteral`: white space
   * around the text is ignored, an empty text is 0, `0x`/`0o`/`0b` followed by
   * digits of that radix, or an optional sign followed by decimal digits.
   * Every other text is NaN here.
   */
  function ToNumber(s: string): Number
  {
    TrimmedToNumber(TrimEnd(TrimStart(s)))
  }

  function DigitChar(d: nat): (c: char)
    requires d < 10
    ensures DigitValue(c) == d
  {
    (('0' as int) + d) as char
  }

  /** The shortest decimal text of `n`, as `String(n)` writes it for an integer. */
  function Decimal(n: nat): (r: string)
    ensures |r| >= 1 && AllDigits(r, 10)
  {
    if n < 10 then [DigitChar(n)] else Decimal(n / 10) + [DigitChar(n % 10)]
  }

  /** Reading back the decimal text of `n` gives `n`. */
  lemma {:induction false} DecimalValue(n: nat)
    ensures DigitsValue(Decimal(n), 10) == n
  {
    if n >= 10 {
      var r := Decimal(n);
      assert r[..|r| - 1] == Decimal(n / 10);
      DecimalValue(n / 10);
    }
  }

  /** A decimal digit is neither white space, a sign nor a radix prefix letter. */
  lemma DecimalDigitIsPlain(c: char)
    requires IsDigit(c, 10)
    ensures !IsWhiteSpace(c) && c != '-' && c != '+' && PrefixRadix(c) == 0
  {
  }

  /** A run of decimal digits followed by a non-digit has exactly that many leading digits. */
  lemma DigitPrefixOfDigits(p: string, rest: string, radix: nat)
    requires AllDigits(p, radix)
    requires rest == [] || !IsDigit(rest[0], radix)
    ensures DigitPrefixLength(p + rest, radix) == |p|
    ensures (p + rest)[..|p|] == p
  {
    var s := p + rest;
    var n := DigitPrefixLength(s, radix);
    assert forall k :: 0 <= k < |p| ==> s[k] == p[k];
    assert rest != [] ==> s[|p|] == rest[0];
    forall k | 0 <= k < n
      ensures IsDigit(s[k], radix)
    {
      assert s[..n][k] == s[k];
    }
  }

  /**
   * `parseInt` reads back the decimal text of `n` when the text that follows
   * cannot extend the number: it is empty or starts with neither a digit nor
   * the `x` of a hexadecimal prefix.
   */
  lemma ParseIntDecimal(n: nat, rest: string)
    requires rest == [] || (!IsDigit(rest[0], 10) && rest[0] != 'x' && rest[0] != 'X')
    ensures ParseInt(Decimal(n) + rest) == Num(n)
  {
    var d := Decimal(n);
    var s := d + rest;
    assert s[0] == d[0] && IsDigit(d[0], 10);
    assert TrimStart(s) == s;
    assert ParseInt(s) == ParseUnsigned(s);
    if |s| >= 2 && s[0] == '0' {
      assert s[1] == if |d| >= 2 then d[1] else rest[0];
    }
    assert ParseUnsigned(s) == LeadingValue(s, 10);
    DigitPrefixOfDigits(d, rest, 10);
    DecimalValue(n);
  }

  /** `Number` of a non-empty run of decimal digits, leading zeros included, is its value. */
  lemma ToNumberDigits(ds: string)
    requires |ds| > 0 && AllDigits(ds, 10)
    ensures ToNumber(ds) == Num(DigitsValue(ds, 10))
  {
    DecimalDigitIsPlain(ds[0]);
    DecimalDigitIsPlain(ds[|ds| - 1]);
    assert TrimStart(ds) == ds;
    assert TrimEnd(ds) == ds;
    if |ds| >= 2 {
      DecimalDigitIsPlain(ds[1]);
    }
    assert TrimmedToNumber(ds) == DigitsNumber(ds, 10);
  }

  /** `Number` reads back the decimal text of `n`. */
  lemma ToNumberDecimal(n: nat)
    ensures ToNumber(Decimal(n)) == Num(n)
  {
    ToNumberDigits(Decimal(n));
    DecimalValue(n);
  }
}
