/**
 * The small pieces of JavaScript string behaviour the rest of the model relies on:
 * ASCII digit runs and their values (`\d`, `parseInt`), decimal rendering of
 * integers (template-literal interpolation of an integral number),
 * `String.prototype.trim`, `toLowerCase` on the characters the input
 * patterns look at, and `split` on one separator character.
 */
module Text {
  import opened Wrappers

  // ---------------------------------------------------------------------------
  // Digits
  // ---------------------------------------------------------------------------

  /** The regular-expression class `\d` (ASCII digits only, no `u` flag). */
  predicate IsDigit(c: char) {
    '0' <= c <= '9'
  }

  predicate AllDigits(s: string) {
    forall i :: 0 <= i < |s| ==> IsDigit(s[i])
  }

  function DigitValue(c: char): nat
    requires IsDigit(c)
  {
    c as int - '0' as int
  }

  function DigitChar(d: nat): (c: char)
    requires d < 10
    ensures IsDigit(c) && DigitValue(c) == d
  {
    ('0' as int + d) as char
  }

  /** `parseInt(s, 10)` of a non-empty run of ASCII digits, read left to right. */
  function DigitsValue(s: string): nat
    requires AllDigits(s)
    decreases |s|
  {
    if s == [] then 0 else DigitsValue(s[..|s| - 1]) * 10 + DigitValue(s[|s| - 1])
  }

  /** Appending one digit shifts the value one decimal place. */
  lemma DigitsValueSnoc(s: string, c: char)
    requires AllDigits(s) && IsDigit(c)
    ensures AllDigits(s + [c])
    ensures DigitsValue(s + [c]) == DigitsValue(s) * 10 + DigitValue(c)
  {
    assert (s + [c])[..|s + [c]| - 1] == s;
  }

  /** Decimal rendering of a natural number, as JavaScript prints an integral number. */
  function NatToString(n: nat): (s: string)
    ensures |s| >= 1 && AllDigits(s)
    ensures |s| > 1 ==> s[0] != '0'
    ensures DigitsValue(s) == n
    decreases n
  {
    if n < 10 then [DigitChar(n)]
    else
      var prefix := NatToString(n / 10);
      DigitsValueSnoc(prefix, DigitChar(n % 10));
      prefix + [DigitChar(n % 10)]
  }

  /** Decimal rendering of an integer, with a leading '-' when negative. */
  function IntToString(i: int): (s: string)
    ensures |s| >= 1
    ensures i >= 0 ==> s == NatToString(i)
    ensures i < 0 ==> s == "-" + NatToString(-i)
  {
    if i < 0 then "-" + NatToString(-i) else NatToString(i)
  }

  // ---------------------------------------------------------------------------
  // Whitespace and trimming
  // ---------------------------------------------------------------------------

  /** ECMAScript WhiteSpace and LineTerminator code points, the set `trim` removes. */
  predicate IsSpace(c: char) {
    || c == '\t' || c == '\n' || c == '\U{000B}' || c == '\U{000C}' || c == '\r' || c == ' '
    || c == '\U{00A0}' || c == '\U{1680}' || ('\U{2000}' <= c <= '\U{200A}')
    || c == '\U{2028}' || c == '\U{2029}' || c == '\U{202F}' || c == '\U{205F}'
    || c == '\U{3000}' || c == '\U{FEFF}'
  }

  predicate AllSpace(s: string) {
    forall i :: 0 <= i < |s| ==> IsSpace(s[i])
  }

  /** Drops leading whitespace. */
  function TrimStart(s: string): (r: string)
    ensures exists w :: AllSpace(w) && s == w + r
    ensures r == [] || !IsSpace(r[0])
    decreases |s|
  {
    if s != [] && IsSpace(s[0]) then
      var r := TrimStart(s[1..]);
      var w :| AllSpace(w) && s[1..] == w + r;
      assert s == ([s[0]] + w) + r;
      r
    else
      assert s == [] + s;
      s
  }

  /** Drops trailing whitespace. */
  function TrimEnd(s: string): (r: string)
    ensures exists w :: AllSpace(w) && s == r + w
    ensures r == [] || !IsSpace(r[|r| - 1])
    decreases |s|
  {
    if s != [] && IsSpace(s[|s| - 1]) then
      var r := TrimEnd(s[..|s| - 1]);
      var w :| AllSpace(w) && s[..|s| - 1] == r + w;
      assert s == r + (w + [s[|s| - 1]]);
      r
    else
      assert s == s + [];
      s
  }

  /** `String.prototype.trim`. */
  function Trim(s: string): string {
    TrimEnd(TrimStart(s))
  }

  /** Trimming a padded string gives back the text between the padding. */
  lemma {:induction false} TrimPadded(w1: string, x: string, w2: string)
    requires AllSpace(w1) && AllSpace(w2)
    requires x != [] && !IsSpace(x[0]) && !IsSpace(x[|x| - 1])
    ensures Trim(w1 + x + w2) == x
  {
    TrimStartPadded(w1, x + w2);
    assert w1 + x + w2 == w1 + (x + w2);
    TrimEndPadded(x, w2);
  }

  /** A string that neither starts nor ends with whitespace is its own trim. */
  lemma TrimUnpadded(x: string)
    requires x != [] && !IsSpace(x[0]) && !IsSpace(x[|x| - 1])
    ensures Trim(x) == x
  {
    TrimStartPadded([], x);
    assert [] + x == x;
    TrimEndPadded(x, []);
    assert x + [] == x;
  }

  lemma {:induction false} TrimStartPadded(w: string, y: string)
    requires AllSpace(w)
    requires y != [] && !IsSpace(y[0])
    ensures TrimStart(w + y) == y
    decreases |w|
  {
    if w == [] {
      assert w + y == y;
    } else {
      assert (w + y)[0] == w[0];
      assert (w + y)[1..] == w[1..] + y;
      TrimStartPadded(w[1..], y);
    }
  }

  lemma {:induction false} TrimEndPadded(y: string, w: string)
    requires AllSpace(w)
    requires y != [] && !IsSpace(y[|y| - 1])
    ensures TrimEnd(y + w) == y
    decreases |w|
  {
    if w == [] {
      assert y + w == y;
    } else {
      assert (y + w)[|y + w| - 1] == w[|w| - 1];
      assert (y + w)[..|y + w| - 1] == y + w[..|w| - 1];
      TrimEndPadded(y, w[..|w| - 1]);
    }
  }

  // ---------------------------------------------------------------------------
  // Lower-casing
  // ---------------------------------------------------------------------------

  /**
   * `toLowerCase` on one character. Only the characters that lower-case to a
   * letter the input patterns test for (`h m s k c`) or to any ASCII letter
   * are mapped: A-Z and KELVIN SIGN (which lower-cases to 'k').
   */
  function LowerChar(c: char): char {
    if 'A' <= c <= 'Z' then (c as int + 32) as char
    else if c == '\U{212A}' then 'k'
    else c
  }

  function Lower(s: string): (r: string)
    ensures |r| == |s|
    ensures forall i :: 0 <= i < |s| ==> r[i] == LowerChar(s[i])
  {
    seq(|s|, i requires 0 <= i < |s| => LowerChar(s[i]))
  }

  lemma LowerAppend(a: string, b: string)
    ensures Lower(a + b) == Lower(a) + Lower(b)
  {
  }

  /** Lower-casing leaves characters that are not upper-case letters alone. */
  lemma LowerOfPlain(d: string)
    requires forall i :: 0 <= i < |d| ==> LowerChar(d[i]) == d[i]
    ensures Lower(d) == d
  {
  }

  /** Lower-casing never turns a non-digit into a digit or a digit into anything else. */
  lemma LowerKeepsDigits(s: string)
    ensures forall i :: 0 <= i < |s| ==> (IsDigit(Lower(s)[i]) <==> IsDigit(s[i]))
  {
  }

  // ---------------------------------------------------------------------------
  // Splitting
  // ---------------------------------------------------------------------------

  /** `s.split(sep)` for a one-character separator: the pieces between separators. */
  function Split(s: string, sep: char): (parts: seq<string>)
    ensures |parts| >= 1
    decreases |s|
  {
    if s == [] then [""]
    else if s[0] == sep then [""] + Split(s[1..], sep)
    else
      var rest := Split(s[1..], sep);
      [[s[0]] + rest[0]] + rest[1..]
  }

  /** Splitting a string that holds no separator gives the string itself. */
  lemma {:induction false} SplitNoSeparator(s: string, sep: char)
    requires sep !in s
    ensures Split(s, sep) == [s]
    decreases |s|
  {
    if s != [] {
      assert s[0] != sep;
      assert sep !in s[1..];
      SplitNoSeparator(s[1..], sep);
      assert [s[0]] + s[1..] == s;
    }
  }

  /** A separator after a separator-free prefix ends the first piece. */
  lemma {:induction false} SplitAfterPrefix(a: string, b: string, sep: char)
    requires sep !in a
    ensures Split(a + [sep] + b, sep) == [a] + Split(b, sep)
    decreases |a|
  {
    if a == [] {
      assert a + [sep] + b == [sep] + b;
      assert ([sep] + b)[1..] == b;
    } else {
      var s := a + [sep] + b;
      assert s[0] == a[0] && a[0] != sep;
      assert s[1..] == a[1..] + [sep] + b;
      assert sep !in a[1..];
      SplitAfterPrefix(a[1..], b, sep);
      assert [a[0]] + a[1..] == a;
    }
  }

  // ---------------------------------------------------------------------------
  // Decimal numerals
  // ---------------------------------------------------------------------------

  function Pow10(k: nat): (p: nat)
    ensures p >= 1
  {
    if k == 0 then 1 else 10 * Pow10(k - 1)
  }

  /** The position of the first `c` in `s`, or `|s|` when there is none. */
  function FirstIndexOf(s: string, c: char): (i: nat)
    ensures i <= |s|
    ensures i < |s| ==> s[i] == c
    ensures forall j :: 0 <= j < i ==> s[j] != c
    decreases |s|
  {
    if s == [] then 0
    else if s[0] == c then 0
    else 1 + FirstIndexOf(s[1..], c)
  }

  /**
   * The shape `\d+(?:\.\d+)?` matched against a whole string: digits, or
   * digits, a point and more digits.
   */
  predicate IsDecimal(s: string) {
    || (s != [] && AllDigits(s))
    || (exists k :: 0 < k < |s| - 1 && s[k] == '.' && AllDigits(s[..k]) && AllDigits(s[k + 1..]))
  }

  /** The same shape, decided by looking at the first point only. */
  predicate DecimalShape(s: string) {
    var k := FirstIndexOf(s, '.');
    if k == |s| then s != [] && AllDigits(s)
    else 0 < k < |s| - 1 && AllDigits(s[..k]) && AllDigits(s[k + 1..])
  }

  /** Deciding the shape at the first point agrees with the pattern. */
  lemma DecimalShapeIff(s: string)
    ensures DecimalShape(s) <==> IsDecimal(s)
  {
    if IsDecimal(s) {
      DecimalShapeOfPattern(s);
    }
    if DecimalShape(s) {
      var k := FirstIndexOf(s, '.');
      if k < |s| {
        assert s[k] == '.';
      }
    }
  }

  /** A string of the pattern's shape has its first point where the pattern puts it. */
  lemma DecimalShapeOfPattern(s: string)
    requires IsDecimal(s)
    ensures DecimalShape(s)
  {
    if !(s != [] && AllDigits(s)) {
      var k :| 0 < k < |s| - 1 && s[k] == '.' && AllDigits(s[..k]) && AllDigits(s[k + 1..]);
      FirstPointAt(s, k);
    } else {
      FirstIndexAfterDigits(s, [], '.');
      assert s + [] == s;
    }
  }

  /** A point preceded only by digits is the first point. */
  lemma FirstPointAt(s: string, k: nat)
    requires k < |s| && s[k] == '.' && AllDigits(s[..k])
    ensures FirstIndexOf(s, '.') == k
  {
    var w, rest := s[..k], s[k..];
    assert w + rest == s;
    assert rest[0] == '.';
    FirstIndexAfterDigits(w, rest, '.');
  }

  /** `parseFloat` of a decimal numeral, as an exact rational. */
  function DecimalValue(s: string): (v: real)
    requires DecimalShape(s)
  {
    var k := FirstIndexOf(s, '.');
    if k == |s| then DigitsValue(s) as real
    else DigitsValue(s[..k]) as real + FractionValue(s[k + 1..])
  }

  /** The value of the digits after a decimal point: the digits over ten to their count. */
  function FractionValue(f: string): (v: real)
    requires AllDigits(f)
    ensures 0.0 <= v < 1.0
  {
    FractionBelowOne(f);
    RatioBelowOne(DigitsValue(f) as real, Pow10(|f|) as real);
    DigitsValue(f) as real / Pow10(|f|) as real
  }

  lemma RatioBelowOne(a: real, b: real)
    requires 0.0 <= a < b
    ensures 0.0 <= a / b < 1.0
  {
  }

  /** A run of `k` digits is below ten to the `k`. */
  lemma {:induction false} FractionBelowOne(f: string)
    requires AllDigits(f)
    ensures DigitsValue(f) < Pow10(|f|)
    decreases |f|
  {
    if f != [] {
      FractionBelowOne(f[..|f| - 1]);
    }
  }

  /** A whole string read as a decimal numeral, or nothing when it has another shape. */
  function ParseDecimal(s: string): (r: Option<real>)
    ensures r.Some? ==> r.value >= 0.0
  {
    if DecimalShape(s) then Some(DecimalValue(s)) else None
  }

  /** `ParseDecimal` accepts exactly the strings of the pattern's shape. */
  lemma ParseDecimalAccepts(s: string)
    ensures ParseDecimal(s).Some? <==> IsDecimal(s)
  {
    DecimalShapeIff(s);
  }

  /** A rendered natural number reads back as itself. */
  lemma ParseDecimalNat(n: nat)
    ensures ParseDecimal(NatToString(n)) == Some(n as real)
  {
    NatIsDecimal(n);
  }

  /** A rendered natural number is a numeral whose value is the number. */
  lemma NatIsDecimal(n: nat)
    ensures DecimalShape(NatToString(n)) && DecimalValue(NatToString(n)) == n as real
  {
    var s := NatToString(n);
    FirstIndexAfterDigits(s, [], '.');
    assert s + [] == s;
  }

  /** Whole digits, a point and fraction digits read back as whole plus fraction over its scale. */
  lemma ParseDecimalFraction(a: nat, f: string)
    requires f != [] && AllDigits(f)
    ensures ParseDecimal(NatToString(a) + "." + f)
         == Some(a as real + FractionValue(f))
  {
    ParseDecimalParts(NatToString(a), f);
  }

  lemma ParseDecimalParts(w: string, f: string)
    requires w != [] && AllDigits(w) && f != [] && AllDigits(f)
    ensures ParseDecimal(w + "." + f)
         == Some(DigitsValue(w) as real + FractionValue(f))
  {
    DecimalOfParts(w, f);
  }

  /** Digits, a point and digits form a numeral worth the whole part plus the fraction. */
  lemma DecimalOfParts(w: string, f: string)
    requires w != [] && AllDigits(w) && f != [] && AllDigits(f)
    ensures DecimalShape(w + "." + f)
    ensures DecimalValue(w + "." + f) == DigitsValue(w) as real + FractionValue(f)
  {
    var s := w + "." + f;
    FirstIndexAfterDigits(w, "." + f, '.');
    assert w + ("." + f) == s;
    var k := FirstIndexOf(s, '.');
    assert k == |w|;
    assert s[..k] == w;
    assert s[k + 1..] == f;
    assert DecimalShape(s);
    assert DecimalValue(s) == DigitsValue(w) as real + FractionValue(f);
  }

  /** In digits followed by `rest`, the first non-digit character `c` is found in `rest`. */
  lemma {:induction false} FirstIndexAfterDigits(w: string, rest: string, c: char)
    requires AllDigits(w) && !IsDigit(c)
    ensures FirstIndexOf(w + rest, c) == |w| + FirstIndexOf(rest, c)
    decreases |w|
  {
    if w != [] {
      assert (w + rest)[0] == w[0];
      assert (w + rest)[1..] == w[1..] + rest;
      FirstIndexAfterDigits(w[1..], rest, c);
    } else {
      assert w + rest == rest;
    }
  }

  // ---------------------------------------------------------------------------
  // Digit runs and parseInt
  // ---------------------------------------------------------------------------

  /** The end of the longest run of digits starting at `i`. */
  function RunEnd(t: string, i: nat): (e: nat)
    requires i <= |t|
    ensures i <= e <= |t|
    ensures forall k :: i <= k < e ==> IsDigit(t[k])
    ensures e == |t| || !IsDigit(t[e])
    decreases |t| - i
  {
    if i < |t| && IsDigit(t[i]) then RunEnd(t, i + 1) else i
  }

  /** Any end of a digit run from `i` that is followed by a non-digit is the longest run's end. */
  lemma RunEndUnique(t: string, i: nat, e: nat)
    requires i <= e <= |t|
    requires forall k :: i <= k < e ==> IsDigit(t[k])
    requires e == |t| || !IsDigit(t[e])
    ensures RunEnd(t, i) == e
  {
  }

  /**
   * `parseInt(s, 10)`: skips leading whitespace, reads an optional sign and the
   * longest run of digits after it; `None` stands for NaN (no digit there).
   */
  function ParseInt(s: string): (r: Option<int>)
  {
    var t := TrimStart(s);
    var negative := t != [] && t[0] == '-';
    var start := if t != [] && (t[0] == '-' || t[0] == '+') then 1 else 0;
    var e := RunEnd(t, start);
    if e == start then None
    else
      var digits := t[start..e];
      assert AllDigits(digits);
      var magnitude: int := DigitsValue(digits);
      Some(if negative then -magnitude else magnitude)
  }

  /** `parseInt` reads back the rendering of a natural number. */
  lemma ParseIntNat(n: nat)
    ensures ParseInt(NatToString(n)) == Some(n)
  {
    var s := NatToString(n);
    TrimStartPadded([], s);
    assert [] + s == s;
    RunEndUnique(s, 0, |s|);
    assert s[0..|s|] == s;
  }
}
