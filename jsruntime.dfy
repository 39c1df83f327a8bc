/**
 * The pieces of the JavaScript runtime that the category controller relies on:
 * rendering a number in a template literal, `parseInt` with no radix,
 * `String(value)` of an Express query value, and `Array.prototype.slice`.
 * Numbers are unbounded integers here (no floating point).
 */
module JsRuntime {
  import opened Wrappers

  /** The character of a decimal digit. */
  function DigitChar(d: nat): (c: char)
    requires d < 10
    ensures '0' <= c <= '9'
  {
    (48 + d) as char
  }

  /** Value of a digit character in bases up to 36 (`0`-`9`, then `a`/`A` = 10 ... `z`/`Z` = 35), 36 if it is none. */
  function DigitValue(c: char): (v: nat)
    ensures v <= 36
  {
    if '0' <= c <= '9' then c as int - 48
    else if 'a' <= c <= 'z' then c as int - 97 + 10
    else if 'A' <= c <= 'Z' then c as int - 65 + 10
    else 36
  }

  predicate IsDigit(c: char, radix: nat) {
    DigitValue(c) < radix
  }

  /** `${n}` for a non-negative integer: its shortest decimal representation. */
  function Decimal(n: nat): (s: string)
    ensures |s| >= 1
    ensures forall i :: 0 <= i < |s| ==> '0' <= s[i] <= '9'
    ensures s[0] == '0' ==> n == 0
  {
    if n < 10 then [DigitChar(n)] else Decimal(n / 10) + [DigitChar(n % 10)]
  }

  /** The value of a string of digits, most significant first. */
  function DigitsValue(ds: string, radix: nat): nat {
    if |ds| == 0 then 0
    else DigitsValue(ds[..|ds| - 1], radix) * radix + DigitValue(ds[|ds| - 1])
  }

  /** Reading back the decimal rendering of `n` gives `n`. */
  lemma {:induction false} DecimalValue(n: nat)
    ensures DigitsValue(Decimal(n), 10) == n
  {
    if n >= 10 {
      var s := Decimal(n);
      assert s[..|s| - 1] == Decimal(n / 10);
      DecimalValue(n / 10);
    }
  }

  /** Distinct numbers render to distinct strings, so ` 1`, ` 2`, ... suffixes never repeat. */
  lemma DecimalInjective(m: nat, n: nat)
    requires m != n
    ensures Decimal(m) != Decimal(n)
  {
    DecimalValue(m);
    DecimalValue(n);
  }

  /** WhiteSpace and LineTerminator code points that `parseInt` skips (ECMA-262, section 12.2 and 12.3; all of Unicode category Zs). */
  predicate IsJsWhitespace(c: char) {
    var u := c as int;
    u == 0x09 || u == 0x0A || u == 0x0B || u == 0x0C || u == 0x0D || u == 0x20
    || u == 0xA0 || u == 0x1680 || (0x2000 <= u <= 0x200A) || u == 0x2028 || u == 0x2029
    || u == 0x202F || u == 0x205F || u == 0x3000 || u == 0xFEFF
  }

  function TrimStart(s: string): (t: string)
    ensures |t| <= |s| && t == s[|s| - |t|..]
    ensures |t| > 0 ==> !IsJsWhitespace(t[0])
    ensures forall i :: 0 <= i < |s| - |t| ==> IsJsWhitespace(s[i])
  {
    if |s| > 0 && IsJsWhitespace(s[0]) then TrimStart(s[1..]) else s
  }

  /** The longest prefix of `s` made of digits of `radix`. */
  function DigitPrefix(s: string, radix: nat): (z: string)
    ensures z <= s
    ensures forall i :: 0 <= i < |z| ==> IsDigit(z[i], radix)
    ensures |z| < |s| ==> !IsDigit(s[|z|], radix)
  {
    if |s| > 0 && IsDigit(s[0], radix) then [s[0]] + DigitPrefix(s[1..], radix) else []
  }

  /**
   * `parseInt(s)` with no radix argument (ECMA-262, section 19.2.5): skip leading
   * white space, take one optional sign, then read the magnitude; no digit at all
   * is `NaN`, here `None`.
   */
  function ParseInt(s: string): (r: Option<int>)
    ensures r.None? <==> NoLeadingNumber(Unsigned(s))
  {
    var t := TrimStart(s);
    if |t| > 0 && t[0] == '-' then
      match ParseMagnitude(t[1..])
      case None => None
      case Some(m) => Some(-m)
    else if |t| > 0 && t[0] == '+' then ParseMagnitude(t[1..])
    else ParseMagnitude(t)
  }

  /** After the sign: a `0x`/`0X` prefix selects base 16, otherwise base 10; then the longest run of digits. */
  function ParseMagnitude(u: string): (r: Option<int>)
    ensures r.None? <==> NoLeadingNumber(u)
    ensures r.Some? ==> r.value >= 0
  {
    var hex := |u| >= 2 && u[0] == '0' && (u[1] == 'x' || u[1] == 'X');
    var radix := if hex then 16 else 10;
    var body := if hex then u[2..] else u;
    var z := DigitPrefix(body, radix);
    assert |z| == 0 <==> |body| == 0 || !IsDigit(body[0], radix);
    if |z| == 0 then None else Some(DigitsValue(z, radix))
  }

  /** `parseInt` reads back the decimal rendering of any non-negative integer. */
  lemma ParseIntDecimal(n: nat)
    ensures ParseInt(Decimal(n)) == Some(n)
  {
    var s := Decimal(n);
    var c := s[0];
    assert '0' <= c <= '9';
    assert !IsJsWhitespace(c);
    assert TrimStart(s) == s;
    ParseMagnitudeDecimal(n);
  }

  lemma ParseMagnitudeDecimal(n: nat)
    ensures ParseMagnitude(Decimal(n)) == Some(n)
  {
    var s := Decimal(n);
    assert !(|s| >= 2 && s[0] == '0') by {
      if s[0] == '0' { assert n == 0; }
    }
    assert forall i :: 0 <= i < |s| ==> IsDigit(s[i], 10);
    DigitPrefixAll(s, 10);
    DecimalValue(n);
  }

  /** `parseInt` of a positive number in decimal followed by a non-digit reads just the number. */
  lemma ParseIntLeadingDecimal(n: nat, tail: string)
    requires n >= 1
    requires |tail| > 0 ==> !IsDigit(tail[0], 10)
    ensures ParseInt(Decimal(n) + tail) == Some(n)
  {
    var z := Decimal(n);
    var s := z + tail;
    var c := s[0];
    assert c == z[0];
    assert '0' < c <= '9';
    assert !IsJsWhitespace(c);
    assert TrimStart(s) == s;
    ParseMagnitudeLeadingDecimal(n, tail);
  }

  lemma ParseMagnitudeLeadingDecimal(n: nat, tail: string)
    requires n >= 1
    requires |tail| > 0 ==> !IsDigit(tail[0], 10)
    ensures ParseMagnitude(Decimal(n) + tail) == Some(n)
  {
    var z := Decimal(n);
    var s := z + tail;
    assert s[0] == z[0];
    assert z[0] != '0';
    DigitPrefixStops(z, tail, 10);
    DecimalValue(n);
  }

  /** A string that starts with anything but white space, a sign or a decimal digit is `NaN`. */
  lemma ParseIntNoDigits(s: string)
    requires |s| > 0 ==> !IsJsWhitespace(s[0]) && s[0] != '-' && s[0] != '+' && !IsDigit(s[0], 10)
    ensures ParseInt(s) == None
  {
    assert TrimStart(s) == s;
    assert DigitPrefix(s, 10) == [];
  }

  /** The text `parseInt` reads digits from: leading white space and one optional sign removed. */
  function Unsigned(s: string): (u: string)
    ensures |u| <= |s|
  {
    var t := TrimStart(s);
    if |t| > 0 && (t[0] == '-' || t[0] == '+') then t[1..] else t
  }

  /** No digit where `parseInt` expects the first one: after a `0x`/`0X` prefix no hex digit, otherwise no decimal digit. */
  predicate NoLeadingNumber(u: string) {
    if |u| >= 2 && u[0] == '0' && (u[1] == 'x' || u[1] == 'X') then |u| == 2 || !IsDigit(u[2], 16)
    else |u| == 0 || !IsDigit(u[0], 10)
  }

  lemma {:induction false} DigitPrefixAll(s: string, radix: nat)
    requires forall i :: 0 <= i < |s| ==> IsDigit(s[i], radix)
    ensures DigitPrefix(s, radix) == s
  {
    if |s| > 0 {
      DigitPrefixAll(s[1..], radix);
      assert [s[0]] + s[1..] == s;
    }
  }

  /** The digit run of `z + tail` is `z` when `z` is all digits and `tail` does not start with one. */
  lemma {:induction false} DigitPrefixStops(z: string, tail: string, radix: nat)
    requires forall i :: 0 <= i < |z| ==> IsDigit(z[i], radix)
    requires |tail| > 0 ==> !IsDigit(tail[0], radix)
    ensures DigitPrefix(z + tail, radix) == z
  {
    if |z| > 0 {
      DigitPrefixStops(z[1..], tail, radix);
      assert (z + tail)[1..] == z[1..] + tail;
      assert [z[0]] + z[1..] == z;
    } else {
      assert z + tail == tail;
    }
  }

  /** A query-string value as Express's default parser delivers it. */
  datatype QueryValue =
    | Absent                  // `?page` not given: `undefined`
    | Text(s: string)         // `?page=3`
    | Repeated(xs: seq<string>) // `?page=3&page=4`: an array
    | Nested                  // `?page[a]=3`: an object

  /** `Array.prototype.join(",")`: the first value leads, followed by a comma when more follow. */
  function Join(xs: seq<string>): (r: string)
    ensures |xs| > 0 ==> xs[0] <= r
    ensures |xs| > 1 ==> |r| > |xs[0]| && r[|xs[0]|] == ','
  {
    if |xs| == 0 then "" else if |xs| == 1 then xs[0] else xs[0] + "," + Join(xs[1..])
  }

  /** `String(v)`, the conversion `parseInt` applies to its argument first. */
  function ToJsString(q: QueryValue): (r: string)
    ensures q.Text? ==> r == q.s
    ensures q.Repeated? && |q.xs| > 0 ==> q.xs[0] <= r
  {
    match q
    case Absent => "undefined"
    case Text(s) => s
    case Repeated(xs) => Join(xs)
    case Nested => "[object Object]"
  }

  /** The index an argument of `slice` denotes: negative counts back from the end, clamped to `[0, len]`. */
  function RelativeIndex(k: int, len: nat): (i: nat)
    ensures i <= len
    ensures 0 <= k <= len ==> i == k
    ensures k < 0 && len + k >= 0 ==> i == len + k
    ensures len + k < 0 ==> i == 0
    ensures k > len ==> i == len
  {
    if k < 0 then (if len + k < 0 then 0 else len + k)
    else if k < len then k else len
  }

  /** `s.slice(start, end)` (ECMA-262, section 23.1.3.28). */
  function Slice<T>(s: seq<T>, start: int, end: int): (r: seq<T>)
    ensures |r| <= |s|
    ensures var from, to := RelativeIndex(start, |s|), RelativeIndex(end, |s|);
      |r| == (if from < to then to - from else 0)
      && forall i :: 0 <= i < |r| ==> r[i] == s[from + i]
  {
    var from := RelativeIndex(start, |s|);
    var to := RelativeIndex(end, |s|);
    if from < to then s[from..to] else []
  }

  /** For non-negative bounds `slice` is the ordinary subsequence, cut to the length of `s`. */
  lemma SliceNonNegative<T>(s: seq<T>, start: int, end: int)
    requires 0 <= start <= end
    ensures |Slice(s, start, end)| == if start < |s| then (if end < |s| then end else |s|) - start else 0
    ensures forall i :: 0 <= i < |Slice(s, start, end)| ==> Slice(s, start, end)[i] == s[start + i]
  {
  }
}
