/** Values and JavaScript built-ins the handlers and pages rely on:
    optional values, handler replies, JavaScript's white space,
    `String.prototype.trim`, integer formatting and `parseInt`. */
module Common {

  datatype Option<T> = None | Some(value: T)

  datatype Result<T, E> = Ok(value: T) | Err(error: E)

  /** The JSON reply of a request handler: HTTP status plus its `success` and `message` fields
      (an absent message is the empty string). */
  datatype Response = Response(status: int, success: bool, message: string)

  /** `undefined`, `null` and the empty string are the falsy values a request field can hold. */
  predicate Falsy(v: Option<string>) {
    v.None? || v.value == ""
  }

  /** The characters matched by the regular expression class `\s`; `trim` removes the same set
      (ECMAScript's WhiteSpace and LineTerminator productions). */
  predicate IsWhitespace(c: char) {
    var n := c as int;
    (0x09 <= n <= 0x0D) || n == 0x20 || n == 0xA0 || n == 0x1680 ||
    (0x2000 <= n <= 0x200A) || n == 0x2028 || n == 0x2029 || n == 0x202F ||
    n == 0x205F || n == 0x3000 || n == 0xFEFF
  }

  /** `/\s/.test(s)` */
  predicate HasWhitespace(s: string) {
    exists i :: 0 <= i < |s| && IsWhitespace(s[i])
  }

  /** Every character of `s` is white space. */
  predicate AllWhitespace(s: string) {
    forall i :: 0 <= i < |s| ==> IsWhitespace(s[i])
  }

  /** Drops the leading white space of `s`. */
  function TrimStart(s: string): (r: string)
    ensures |r| <= |s| && r == s[|s| - |r|..]
    ensures forall i :: 0 <= i < |s| - |r| ==> IsWhitespace(s[i])
    ensures AllWhitespace(s[..|s| - |r|])
    ensures r == [] || !IsWhitespace(r[0])
  {
    if s != [] && IsWhitespace(s[0]) then TrimStart(s[1..]) else s
  }

  /** Drops the trailing white space of `s`. */
  function TrimEnd(s: string): (r: string)
    ensures |r| <= |s| && r == s[..|r|]
    ensures forall i :: |r| <= i < |s| ==> IsWhitespace(s[i])
    ensures AllWhitespace(s[|r|..])
    ensures r == [] || !IsWhitespace(r[|r| - 1])
  {
    if s != [] && IsWhitespace(s[|s| - 1]) then TrimEnd(s[..|s| - 1]) else s
  }

  /** `s.trim()`: the longest infix of `s` that neither starts nor ends with white space. */
  function Trim(s: string): (r: string)
    ensures r == [] || (!IsWhitespace(r[0]) && !IsWhitespace(r[|r| - 1]))
    ensures r == [] <==> forall i :: 0 <= i < |s| ==> IsWhitespace(s[i])
    ensures !HasWhitespace(s) ==> r == s
    ensures exists i, j :: TrimmedAt(s, r, i, j)
  {
    var t := TrimStart(s);
    var r := TrimEnd(t);
    assert r != [] ==> r[0] == t[0];
    assert r != [] ==> !IsWhitespace(s[|s| - |t|]);
    TrimInfix(s);
    r
  }

  /** `r` is `s[i..j]`, and every character of `s` outside `i..j` is white space. */
  predicate TrimmedAt(s: string, r: string, i: int, j: int) {
    0 <= i <= j <= |s| && r == s[i..j] && AllWhitespace(s[..i]) && AllWhitespace(s[j..])
  }

  /** Trimming both ends keeps an infix of `s` and drops only white space around it. */
  lemma TrimInfix(s: string)
    ensures exists i, j :: TrimmedAt(s, TrimEnd(TrimStart(s)), i, j)
  {
    var t := TrimStart(s);
    var r := TrimEnd(t);
    var i, j := |s| - |t|, |s| - |t| + |r|;
    assert r == s[i..j] by {
      assert t == s[i..];
      assert r == t[..|r|];
    }
    assert AllWhitespace(s[j..]) by {
      assert s[j..] == t[|r|..];
    }
    assert TrimmedAt(s, r, i, j);
  }

  /** The digit `c` stands for in radixes up to 36, or 36 when `c` is no digit at all. */
  function DigitValue(c: char): (d: nat)
    ensures d <= 36
  {
    if '0' <= c <= '9' then c as int - '0' as int
    else if 'a' <= c <= 'z' then c as int - 'a' as int + 10
    else if 'A' <= c <= 'Z' then c as int - 'A' as int + 10
    else 36
  }

  predicate IsDigit(c: char, radix: int) {
    DigitValue(c) < radix
  }

  /** The length of the longest prefix of `s` made of digits of `radix`. */
  function DigitRun(s: string, radix: int): (n: nat)
    ensures n <= |s|
    ensures forall i :: 0 <= i < n ==> IsDigit(s[i], radix)
    ensures n == |s| || !IsDigit(s[n], radix)
  {
    if s != [] && IsDigit(s[0], radix) then 1 + DigitRun(s[1..], radix) else 0
  }

  /** The number the digit string `ds` denotes in `radix`, most significant digit first. */
  function DigitsValue(ds: string, radix: nat): nat {
    if ds == [] then 0 else DigitsValue(ds[..|ds| - 1], radix) * radix + DigitValue(ds[|ds| - 1])
  }

  /** `parseInt(s, radix)`, where `radix == 0` stands for an absent radix and `None` for NaN:
      leading white space is skipped, then one sign, then the magnitude. */
  function ParseInt(s: string, radix: int): Option<int> {
    var t := TrimStart(s);
    var negative := t != [] && t[0] == '-';
    var u := if t != [] && (t[0] == '-' || t[0] == '+') then t[1..] else t;
    if radix != 0 && (radix < 2 || radix > 36) then None
    else
      match ParseMagnitude(u, radix)
      case None => None
      case Some(m) => Some(if negative then -m else m)
  }

  /** The magnitude `parseInt` reads after the sign: without a radix or with radix 16, a
      `0x`/`0X` prefix switches to hexadecimal; then the longest run of digits is read, and
      no digit at all gives NaN. */
  function ParseMagnitude(u: string, radix: int): Option<int>
    requires radix == 0 || 2 <= radix <= 36
  {
    var hex := (radix == 0 || radix == 16) && |u| >= 2 && u[0] == '0' && (u[1] == 'x' || u[1] == 'X');
    var base := if hex then 16 else if radix == 0 then 10 else radix;
    var v := if hex then u[2..] else u;
    var n := DigitRun(v, base);
    if n == 0 then None else Some(DigitsValue(v[..n], base))
  }

  function DigitChar(d: nat): (c: char)
    requires d < 10
    ensures '0' <= c <= '9' && DigitValue(c) == d
  {
    ('0' as int + d) as char
  }

  /** The decimal numeral JavaScript prints for a non-negative integer. */
  function NatToString(n: nat): (s: string)
    ensures s != [] && forall i :: 0 <= i < |s| ==> '0' <= s[i] <= '9'
    ensures DigitsValue(s, 10) == n
  {
    if n < 10 then
      [DigitChar(n)]
    else
      var s := NatToString(n / 10) + [DigitChar(n % 10)];
      assert s[..|s| - 1] == NatToString(n / 10);
      s
  }

  /** The decimal numeral JavaScript prints for an integer (`${i}`, `i.toString()`). */
  function IntToString(i: int): (s: string)
    ensures s != []
    ensures forall k :: 0 <= k < |s| ==> s[k] == '-' || '0' <= s[k] <= '9'
  {
    if i < 0 then "-" + NatToString(-i) else NatToString(i)
  }

  /** Every character of a run of decimal digits is a digit in radix 10 and in radix 16. */
  lemma DecimalRun(s: string, radix: int)
    requires radix == 10 || radix == 16
    requires forall i :: 0 <= i < |s| ==> '0' <= s[i] <= '9'
    ensures DigitRun(s, radix) == |s|
  {
    var n := DigitRun(s, radix);
    if n < |s| {
      assert !IsDigit(s[n], radix);
    }
  }

  /** The magnitude reader reads back a decimal numeral, with or without radix 10. */
  lemma ParseMagnitudeRoundTrip(n: nat, radix: int)
    requires radix == 0 || radix == 10
    ensures ParseMagnitude(NatToString(n), radix) == Some(n)
  {
    var digits := NatToString(n);
    assert !(|digits| >= 2 && digits[0] == '0' && (digits[1] == 'x' || digits[1] == 'X'));
    DecimalRun(digits, 10);
    assert digits[..|digits|] == digits;
  }

  /** `parseInt` reads back what integer formatting prints, with or without radix 10. */
  lemma ParseIntRoundTrip(i: int, radix: int)
    requires radix == 0 || radix == 10
    ensures ParseInt(IntToString(i), radix) == Some(i)
  {
    var s := IntToString(i);
    var digits := NatToString(if i < 0 then -i else i);
    assert TrimStart(s) == s by {
      assert s[0] == '-' || '0' <= s[0] <= '9';
      assert !IsWhitespace(s[0]);
    }
    assert (if i < 0 then s[1..] else s) == digits;
    ParseMagnitudeRoundTrip(if i < 0 then -i else i, radix);
  }

  /** Integer formatting never prints two integers the same way. */
  lemma IntToStringInjective(a: int, b: int)
    requires IntToString(a) == IntToString(b)
    ensures a == b
  {
    ParseIntRoundTrip(a, 10);
    ParseIntRoundTrip(b, 10);
  }
}
