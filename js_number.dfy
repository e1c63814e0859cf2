/** The numeric conversions the request tracker applies to a response:
    `Number.parseInt` on the Content-Length header (section 19.2.5 of
    ECMA-262) and the `(n / 1024).toFixed(2)` kilobyte figure (section
    21.1.3.3 of ECMA-262), both on exact integers. */
module JsNumber {
  import opened Wrappers

  /** The characters `parseInt` skips before the number: StrWhiteSpaceChar
      (white space and line terminators) of ECMA-262. */
  predicate IsJsWhiteSpace(c: char) {
    c == '\t' || c == '\n' || c == '\U{000B}' || c == '\U{000C}' || c == '\r' ||
    c == ' ' || c == '\U{00A0}' || c == '\U{1680}' || ('\U{2000}' <= c <= '\U{200A}') ||
    c == '\U{2028}' || c == '\U{2029}' || c == '\U{202F}' || c == '\U{205F}' ||
    c == '\U{3000}' || c == '\U{FEFF}'
  }

  function TrimStart(s: string): (r: string)
    ensures |r| <= |s| && r == s[|s| - |r|..]
    ensures forall k :: 0 <= k < |s| - |r| ==> IsJsWhiteSpace(s[k])
    ensures |r| > 0 ==> !IsJsWhiteSpace(r[0])
  {
    if |s| > 0 && IsJsWhiteSpace(s[0]) then TrimStart(s[1..]) else s
  }

  /** The value of `c` as a digit in base `radix` (10 or 16), if it is one. */
  function DigitValue(c: char, radix: nat): (r: Option<nat>)
    ensures r.Some? ==> r.value < radix
  {
    if '0' <= c <= '9' && (c as int - '0' as int) < radix then Some(c as int - '0' as int)
    else if radix == 16 && 'a' <= c <= 'f' then Some(c as int - 'a' as int + 10)
    else if radix == 16 && 'A' <= c <= 'F' then Some(c as int - 'A' as int + 10)
    else None
  }

  predicate IsDigit(c: char, radix: nat) { DigitValue(c, radix).Some? }

  /** The longest prefix of `s` made of base-`radix` digits. */
  function DigitPrefix(s: string, radix: nat): (r: string)
    ensures r <= s
    ensures forall k :: 0 <= k < |r| ==> IsDigit(r[k], radix)
    ensures |r| < |s| ==> !IsDigit(s[|r|], radix)
  {
    if |s| > 0 && IsDigit(s[0], radix) then [s[0]] + DigitPrefix(s[1..], radix) else ""
  }

  /** The number a digit string denotes, most significant digit first. */
  function DigitsValue(ds: string, radix: nat): nat
    requires forall k :: 0 <= k < |ds| ==> IsDigit(ds[k], radix)
  {
    if |ds| == 0 then 0
    else
      var last := ds[|ds| - 1];
      assert IsDigit(last, radix);
      DigitsValue(ds[..|ds| - 1], radix) * radix + DigitValue(last, radix).value
  }

  /** An optional leading sign: its factor and the rest of the text. */
  function SplitSign(t: string): (int, string) {
    if |t| > 0 && t[0] == '-' then (-1, t[1..])
    else if |t| > 0 && t[0] == '+' then (1, t[1..])
    else (1, t)
  }

  /** A `0x`/`0X` prefix selects base 16 (and is dropped); otherwise base 10. */
  function SplitRadix(u: string): (nat, string) {
    if |u| >= 2 && u[0] == '0' && (u[1] == 'x' || u[1] == 'X') then (16, u[2..]) else (10, u)
  }

  /** `Number.parseInt(s)` with no radix: skip leading white space, take an
      optional sign, read a `0x`/`0X` prefix as base 16, then the longest run
      of digits; no digit at all is `NaN`, modelled as `None`. */
  function ParseInt(s: string): Option<int> {
    var (sign, u) := SplitSign(TrimStart(s));
    var (radix, v) := SplitRadix(u);
    var ds := DigitPrefix(v, radix);
    if |ds| == 0 then None else Some(sign * DigitsValue(ds, radix))
  }

  /** `Number.parseInt(s) || 0`: `NaN` (and zero) become 0. */
  function ParseIntOrZero(s: string): int {
    match ParseInt(s)
    case None => 0
    case Some(v) => v
  }

  /** The decimal numeral of `n`, as `String(n)` writes it. */
  function Decimal(n: nat): (r: string)
    ensures |r| > 0 && forall k :: 0 <= k < |r| ==> '0' <= r[k] <= '9'
    ensures r[0] == '0' ==> n == 0
  {
    var d := ['0' + ((n % 10) as char)];
    if n < 10 then d else Decimal(n / 10) + d
  }

  lemma {:induction false} DecimalValue(n: nat)
    ensures forall k :: 0 <= k < |Decimal(n)| ==> IsDigit(Decimal(n)[k], 10)
    ensures DigitsValue(Decimal(n), 10) == n
  {
    var s := Decimal(n);
    if n >= 10 {
      DecimalValue(n / 10);
      assert s[..|s| - 1] == Decimal(n / 10);
    }
  }

  /** A Content-Length header written by a well-behaved server, the decimal
      numeral of the body length, parses back to that length. */
  lemma ParseIntDecimal(n: nat)
    ensures ParseInt(Decimal(n)) == Some(n)
    ensures ParseIntOrZero(Decimal(n)) == n
  {
    var s := Decimal(n);
    DecimalValue(n);
    assert !IsJsWhiteSpace(s[0]) by { assert '0' <= s[0] <= '9'; }
    assert TrimStart(s) == s;
    assert SplitSign(s) == (1, s);
    assert SplitRadix(s) == (10, s) by {
      if s[0] == '0' { assert n == 0; }
    }
    DigitPrefixAll(s, 10);
  }

  lemma {:induction false} DigitPrefixAll(s: string, radix: nat)
    requires forall k :: 0 <= k < |s| ==> IsDigit(s[k], radix)
    ensures DigitPrefix(s, radix) == s
  {
    if |s| > 0 {
      DigitPrefixAll(s[1..], radix);
    }
  }

  /** A header whose first non-blank character cannot start a number
      (neither a sign nor a decimal digit) yields 0. */
  lemma ParseIntNonNumeric(s: string)
    requires var t := TrimStart(s); |t| == 0 || !(t[0] == '-' || t[0] == '+' || '0' <= t[0] <= '9')
    ensures ParseInt(s) == None && ParseIntOrZero(s) == 0
  {
  }

  /** White space before a string that does not start with any is skipped. */
  lemma {:induction false} TrimStartWhiteSpace(ws: string, t: string)
    requires forall k :: 0 <= k < |ws| ==> IsJsWhiteSpace(ws[k])
    requires |t| > 0 && !IsJsWhiteSpace(t[0])
    ensures TrimStart(ws + t) == t
  {
    if |ws| > 0 {
      assert (ws + t)[1..] == ws[1..] + t;
      TrimStartWhiteSpace(ws[1..], t);
    } else {
      assert ws + t == t;
    }
  }

  /** The digit run stops at the first character that is not a digit. */
  lemma {:induction false} DigitPrefixStops(ds: string, rest: string, radix: nat)
    requires forall k :: 0 <= k < |ds| ==> IsDigit(ds[k], radix)
    requires |rest| == 0 || !IsDigit(rest[0], radix)
    ensures DigitPrefix(ds + rest, radix) == ds
  {
    if |ds| > 0 {
      assert (ds + rest)[1..] == ds[1..] + rest;
      DigitPrefixStops(ds[1..], rest, radix);
    } else {
      assert ds + rest == rest;
    }
  }

  /** Leading white space does not change what `parseInt` reads. */
  lemma ParseIntSkipsWhiteSpace(ws: string, t: string)
    requires forall k :: 0 <= k < |ws| ==> IsJsWhiteSpace(ws[k])
    requires |t| > 0 && !IsJsWhiteSpace(t[0])
    ensures ParseInt(ws + t) == ParseInt(t)
  {
    TrimStartWhiteSpace(ws, t);
    TrimStartNoWhiteSpace(t);
  }

  /** `parseInt` on text that is already trimmed, once the sign, the base
      and the digit run are known. */
  lemma ParseIntOfParts(t: string, sign: int, u: string, ds: string)
    requires TrimStart(t) == t && SplitSign(t) == (sign, u) && SplitRadix(u) == (10, u)
    requires DigitPrefix(u, 10) == ds && |ds| > 0
    ensures ParseInt(t) == Some(sign * DigitsValue(ds, 10))
  {
  }

  /** A decimal digit run followed by text that cannot continue it: no
      white space, no sign and no `0x` prefix is read from it. */
  lemma NumeralParts(d: string, rest: string)
    requires |d| > 0 && forall k :: 0 <= k < |d| ==> IsDigit(d[k], 10)
    requires d[0] == '0' ==> |d| == 1
    requires |rest| == 0 || !(IsDigit(rest[0], 10) || (d[0] == '0' && (rest[0] == 'x' || rest[0] == 'X')))
    ensures var u := d + rest;
      TrimStart(u) == u && SplitSign(u) == (1, u) && SplitRadix(u) == (10, u) && DigitPrefix(u, 10) == d
  {
    var u := d + rest;
    assert u[0] == d[0] && IsDigit(d[0], 10);
    assert '0' <= u[0] <= '9';
    TrimStartNoWhiteSpace(u);
    DigitPrefixStops(d, rest, 10);
  }

  lemma TrimStartNoWhiteSpace(t: string)
    requires |t| > 0 && !IsJsWhiteSpace(t[0])
    ensures TrimStart(t) == t
  {
  }

  /** `parseInt` reads the decimal numeral at the head of the text and
      ignores whatever follows it (`"1024; x"` is 1024, `"5x"` is 5), provided
      the numeral is not a lone `0` that the next character turns into a
      `0x` prefix. */
  lemma ParseIntLeadingNumber(n: nat, rest: string)
    requires |rest| == 0 || !('0' <= rest[0] <= '9' || (n == 0 && (rest[0] == 'x' || rest[0] == 'X')))
    ensures ParseInt(Decimal(n) + rest) == Some(n)
  {
    var d := Decimal(n);
    DecimalValue(n);
    assert d[0] == '0' ==> |d| == 1 && n == 0 by {
      if d[0] == '0' { assert n == 0; }
    }
    assert |rest| == 0 || !(IsDigit(rest[0], 10) || (d[0] == '0' && (rest[0] == 'x' || rest[0] == 'X')));
    var pos := d + rest;
    NumeralParts(d, rest);
    ParseIntOfParts(pos, 1, pos, d);
  }

  /** A minus sign before a digit negates what `parseInt` reads, and `NaN`
      stays `NaN`. */
  lemma ParseIntNegativeSign(t: string)
    requires |t| > 0 && '0' <= t[0] <= '9'
    ensures ParseInt("-" + t) == match ParseInt(t) case None => None case Some(v) => Some(-v)
  {
    TrimStartNoWhiteSpace(t);
    assert ("-" + t)[0] == '-';
    TrimStartNoWhiteSpace("-" + t);
    assert ("-" + t)[1..] == t;
    assert SplitSign("-" + t) == (-1, t);
    assert SplitSign(t) == (1, t);
  }

  /** `(bytes / 1024).toFixed(2)` as a whole number of hundredths of a
      kilobyte: the magnitude is rounded to the nearest hundredth, a tie going
      to the larger magnitude, and the sign is kept. */
  function KBHundredths(bytes: int): (h: int)
    ensures bytes >= 0 ==> -512 < h * 1024 - bytes * 100 <= 512
    ensures bytes < 0 ==> -512 <= h * 1024 - bytes * 100 < 512
    ensures bytes >= 0 ==> h >= 0
    ensures bytes <= 0 ==> h <= 0
  {
    if bytes >= 0 then (bytes * 100 + 512) / 1024 else -((-bytes * 100 + 512) / 1024)
  }
}
