/**
 * The thinning control panel's pure logic: the three custom-input parsers
 * ("1/n", "1h30m" / "45s" / "2.5", "1.5km" / "200cm"), the predefined option
 * tables, and the mapping between radio values and thinning options in both
 * directions.
 */
module ThinningControls {
  import opened Wrappers
  import opened Text

  // ---------------------------------------------------------------------------
  // Options and inputs
  // ---------------------------------------------------------------------------

  /** The thinning policy a user picks; `NoThinning` is the radio value 'none'. */
  datatype Kind = NoThinning | Sequence | Time | Distance

  /**
   * The options as the page holds them. `value` is null (`None`) for no
   * thinning; otherwise the stride, minutes or metres.
   */
  datatype ThinningOptions = ThinningOptions(kind: Kind, value: Option<real>)

  /** The text in the three custom-input fields. */
  datatype CustomInputs = CustomInputs(sequence: string, time: string, distance: string)

  function KindName(k: Kind): string {
    match k
    case NoThinning => "none"
    case Sequence => "sequence"
    case Time => "time"
    case Distance => "distance"
  }

  /** The kind a radio value's type part names, if it names one. */
  function KindOfName(name: string): (k: Option<Kind>)
    ensures k.Some? ==> KindName(k.value) == name
    ensures forall kind :: KindName(kind) == name ==> k == Some(kind)
  {
    if name == "none" then Some(NoThinning)
    else if name == "sequence" then Some(Sequence)
    else if name == "time" then Some(Time)
    else if name == "distance" then Some(Distance)
    else None
  }

  /** The predefined values offered as radio buttons, per kind. */
  const SequenceOptions: seq<nat> := [4, 16, 64, 256]
  const TimeOptions: seq<nat> := [1, 2, 5, 10]
  const DistanceOptions: seq<nat> := [10, 50, 100, 500]

  /** The table `getCurrentValue` consults: the distance table for anything not sequence or time. */
  function PredefinedValues(k: Kind): seq<nat> {
    match k
    case Sequence => SequenceOptions
    case Time => TimeOptions
    case _ => DistanceOptions
  }

  /** The three kinds that have a custom-input field. */
  predicate HasCustomInput(k: Kind) {
    k != NoThinning
  }

  function InputFor(inputs: CustomInputs, k: Kind): string
    requires HasCustomInput(k)
  {
    match k
    case Sequence => inputs.sequence
    case Time => inputs.time
    case Distance => inputs.distance
  }

  // ---------------------------------------------------------------------------
  // parseSequenceInput
  // ---------------------------------------------------------------------------

  /** The trimmed text is "1/" followed by one or more digits. */
  predicate SequenceShape(t: string) {
    |t| >= 3 && t[0] == '1' && t[1] == '/' && AllDigits(t[2..])
  }

  /**
   * `parseSequenceInput`: the denominator of a trimmed "1/<digits>", when it is
   * positive. "1/0", "2/4" and anything else give null.
   */
  function ParseSequenceInput(input: string): (r: Option<nat>)
    ensures r.Some? ==> r.value > 0
    ensures r.Some? ==>
      exists d :: d != [] && AllDigits(d) && Trim(input) == "1/" + d && DigitsValue(d) == r.value
  {
    var t := Trim(input);
    if SequenceShape(t) && DigitsValue(t[2..]) > 0 then
      SequenceShapeSplit(t);
      Some(DigitsValue(t[2..]))
    else None
  }

  lemma SequenceShapeSplit(t: string)
    requires SequenceShape(t)
    ensures t[2..] != [] && t == "1/" + t[2..]
  {
    assert t[..2] == "1/";
    assert t == t[..2] + t[2..];
  }

  /**
   * Every padded "1/<digits>" is read: its denominator when positive, and null
   * for a zero denominator (leading zeros allowed).
   */
  lemma ParseSequenceOfDigits(w1: string, d: string, w2: string)
    requires AllSpace(w1) && AllSpace(w2)
    requires d != [] && AllDigits(d)
    ensures ParseSequenceInput(w1 + "1/" + d + w2) == if DigitsValue(d) > 0 then Some(DigitsValue(d)) else None
  {
    var x := "1/" + d;
    assert w1 + "1/" + d + w2 == w1 + x + w2;
    TrimPadded(w1, x, w2);
    assert x[2..] == d;
  }

  /** A rendered "1/n" reads back as n, and "1/0" is rejected. */
  lemma ParseSequenceRoundTrip(n: nat)
    ensures ParseSequenceInput("1/" + NatToString(n)) == if n > 0 then Some(n) else None
  {
    ParseSequenceDigits(NatToString(n));
  }

  /** "1/<digits>" without padding. */
  lemma ParseSequenceDigits(d: string)
    requires d != [] && AllDigits(d)
    ensures ParseSequenceInput("1/" + d) == if DigitsValue(d) > 0 then Some(DigitsValue(d)) else None
  {
    var x := "1/" + d;
    TrimUnpadded(x);
    assert x[2..] == d;
  }

  /** "1/0" has a zero denominator and is rejected. */
  lemma ParseSequenceZeroRejected()
    ensures ParseSequenceInput("1/0") == None
  {
    ParseSequenceDigits("0");
    assert "1/" + "0" == "1/0";
  }

  /** A fraction whose numerator is any digit string other than "1" is rejected, "2/4" and "01/5" among them. */
  lemma ParseSequenceOtherNumeratorRejected(n: string, d: string)
    requires n != [] && AllDigits(n) && n != "1"
    requires d != [] && AllDigits(d)
    ensures ParseSequenceInput(n + "/" + d) == None
  {
    var t := n + "/" + d;
    assert t[0] == n[0] && t[|t| - 1] == d[|d| - 1];
    TrimUnpadded(t);
    OtherNumeratorShape(n, d);
  }

  lemma OtherNumeratorShape(n: string, d: string)
    requires n != [] && AllDigits(n) && n != "1"
    ensures !SequenceShape(n + "/" + d)
  {
    var t := n + "/" + d;
    if |n| == 1 {
      assert n == [n[0]];
      assert t[0] == n[0] != '1';
    } else {
      assert t[1] == n[1] != '/';
    }
  }

  /** A trimmed text that does not start with "1/" is rejected. */
  lemma ParseSequenceWithoutPrefix(input: string)
    requires |Trim(input)| < 2 || Trim(input)[..2] != "1/"
    ensures ParseSequenceInput(input) == None
  {
  }

  // ---------------------------------------------------------------------------
  // parseTimeInput
  // ---------------------------------------------------------------------------

  /** The letter after the digits in `(\d+)h`, `(\d+)m(?!s)` and `(\d+)s`. */
  datatype TimeUnit = HourUnit | MinuteUnit | SecondUnit

  /** The unit's letter stands at position `e` (and, for minutes, no 's' right after it). */
  predicate UnitAt(t: string, e: nat, u: TimeUnit) {
    e < |t| &&
    match u
    case HourUnit => t[e] == 'h'
    case MinuteUnit => t[e] == 'm' && !(e + 1 < |t| && t[e + 1] == 's')
    case SecondUnit => t[e] == 's'
  }

  /** The pattern matches at `i`: a run of digits from `i`, then the unit. */
  predicate TokenAt(t: string, i: nat, u: TimeUnit) {
    i < |t| && IsDigit(t[i]) && UnitAt(t, RunEnd(t, i), u)
  }

  /**
   * The regular expression's own view: some non-empty digit run `t[i..e]`
   * followed by the unit. Only the longest run can be followed by a letter,
   * so backtracking never finds a shorter one.
   */
  lemma TokenAtIff(t: string, i: nat, u: TimeUnit)
    requires i <= |t|
    ensures TokenAt(t, i, u) <==>
      exists e :: i < e <= |t| && AllDigits(t[i..e]) && UnitAt(t, e, u)
  {
    if exists e :: i < e <= |t| && AllDigits(t[i..e]) && UnitAt(t, e, u) {
      var e :| i < e <= |t| && AllDigits(t[i..e]) && UnitAt(t, e, u);
      assert forall k :: i <= k < e ==> IsDigit(t[k]) by {
        forall k | i <= k < e ensures IsDigit(t[k]) {
          assert t[i..e][k - i] == t[k];
        }
      }
      RunEndUnique(t, i, e);
      assert IsDigit(t[i]) by {
        assert t[i..e][0] == t[i];
      }
    }
    if TokenAt(t, i, u) {
      var e := RunEnd(t, i);
      assert AllDigits(t[i..e]);
    }
  }

  /** The leftmost position at or after `i` where the pattern matches. */
  function FirstToken(t: string, i: nat, u: TimeUnit): (p: Option<nat>)
    requires i <= |t|
    ensures p.None? <==> forall k :: i <= k < |t| ==> !TokenAt(t, k, u)
    ensures p.Some? ==> i <= p.value < |t| && TokenAt(t, p.value, u)
    ensures p.Some? ==> forall k :: i <= k < p.value ==> !TokenAt(t, k, u)
    decreases |t| - i
  {
    if i == |t| then None
    else if TokenAt(t, i, u) then Some(i)
    else FirstToken(t, i + 1, u)
  }

  /** The captured number of the leftmost match of the unit's pattern, if any. */
  function MatchValue(t: string, u: TimeUnit): (v: Option<nat>)
    ensures v.None? <==> forall k :: 0 <= k < |t| ==> !TokenAt(t, k, u)
  {
    var p := FirstToken(t, 0, u);
    if p.None? then None else Some(DigitsValue(t[p.value..RunEnd(t, p.value)]))
  }

  /** A match value contributes its number of minutes. */
  function Minutes(v: Option<nat>, scale: real): real {
    if v.Some? then v.value as real * scale else 0.0
  }

  /**
   * `parseTimeInput` in minutes: hours times 60 plus minutes plus seconds over
   * 60, each from its leftmost match; a bare decimal counts as minutes only
   * when none of the three matched; null unless the total is positive.
   */
  function ParseTimeInput(input: string): (r: Option<real>)
    ensures r.Some? ==> r.value > 0.0
    ensures r.Some? ==> TimeTotal(Lower(Trim(input))) == r.value
    ensures r.None? ==> TimeTotal(Lower(Trim(input))) <= 0.0
  {
    var total := TimeTotal(Lower(Trim(input)));
    if total > 0.0 then Some(total) else None
  }

  /** The minutes `parseTimeInput` adds up for an already trimmed, lower-cased text. */
  function TimeTotal(t: string): real {
    var h := MatchValue(t, HourUnit);
    var m := MatchValue(t, MinuteUnit);
    var s := MatchValue(t, SecondUnit);
    if h.None? && m.None? && s.None? then
      var bare := ParseDecimal(t);
      if bare.Some? then bare.value else 0.0
    else Minutes(h, 60.0) + Minutes(m, 1.0) + Minutes(s, 1.0 / 60.0)
  }

  /** The letter each unit's pattern looks for after the digits. */
  function UnitLetter(u: TimeUnit): char {
    match u
    case HourUnit => 'h'
    case MinuteUnit => 'm'
    case SecondUnit => 's'
  }

  /** A string with no occurrence of a unit's letter has no match for it. */
  lemma NoTokenWithoutLetter(t: string, u: TimeUnit)
    requires UnitLetter(u) !in t
    ensures MatchValue(t, u).None?
  {
    forall k | 0 <= k < |t| ensures !TokenAt(t, k, u) {
      var e := RunEnd(t, k);
      assert e < |t| ==> t[e] in t;
    }
  }

  /** A string of digits holds no other character. */
  lemma DigitsLackLetter(d: string, c: char)
    requires AllDigits(d) && !IsDigit(c)
    ensures c !in d
  {
  }

  /** Inside a digit run that ends in something other than the unit, the pattern does not match. */
  lemma NoTokenInRun(t: string, i: nat, e: nat, u: TimeUnit)
    requires i <= e < |t| && !IsDigit(t[e]) && !UnitAt(t, e, u)
    requires forall k :: i <= k < e ==> IsDigit(t[k])
    ensures forall k :: i <= k <= e ==> !TokenAt(t, k, u)
  {
    forall k | i <= k < e ensures !TokenAt(t, k, u) {
      RunEndUnique(t, k, e);
    }
  }

  /** Digits `d` at position `i`, followed by a non-digit: the run from `i` is exactly `d`. */
  lemma RunOfDigits(t: string, i: nat, d: string)
    requires d != [] && AllDigits(d)
    requires i + |d| < |t| && t[i..i + |d|] == d && !IsDigit(t[i + |d|])
    ensures RunEnd(t, i) == i + |d|
    ensures t[i..RunEnd(t, i)] == d
    ensures IsDigit(t[i])
    ensures forall k :: i <= k < i + |d| ==> IsDigit(t[k])
  {
    forall k | i <= k < i + |d| ensures IsDigit(t[k]) {
      assert t[k] == t[i..i + |d|][k - i];
    }
    RunEndUnique(t, i, i + |d|);
  }

  /** The leftmost match is the first position that matches. */
  lemma FirstTokenIs(t: string, p: nat, u: TimeUnit)
    requires p < |t| && TokenAt(t, p, u)
    requires forall k :: 0 <= k < p ==> !TokenAt(t, k, u)
    ensures FirstToken(t, 0, u) == Some(p)
  {
  }

  /** Digits `d` at position `p`, followed by the unit, and no match before it: the value is what `d` spells. */
  lemma MatchOfDigits(t: string, p: nat, d: string, u: TimeUnit)
    requires d != [] && AllDigits(d)
    requires p + |d| < |t| && t[p..p + |d|] == d && UnitAt(t, p + |d|, u)
    requires forall k :: 0 <= k < p ==> !TokenAt(t, k, u)
    ensures MatchValue(t, u) == Some(DigitsValue(d))
  {
    assert !IsDigit(t[p + |d|]);
    RunOfDigits(t, p, d);
    FirstTokenIs(t, p, u);
  }

  /** Lower-casing and trimming leave digits, points and the letters h, m, s unchanged. */
  lemma PlainTimeText(t: string)
    requires t != [] && IsDigit(t[0])
    requires forall k :: 0 <= k < |t| ==> IsDigit(t[k]) || t[k] in "hms."
    ensures Lower(Trim(t)) == t
  {
    assert !IsSpace(t[|t| - 1]) by {
      assert IsDigit(t[|t| - 1]) || t[|t| - 1] in "hms.";
    }
    TrimUnpadded(t);
    assert Lower(t) == t;
  }

  /** For a text that trimming and lower-casing leave alone, the result is its total when positive. */
  lemma ParseTimePlain(t: string, total: real)
    requires Lower(Trim(t)) == t
    requires TimeTotal(t) == total && total > 0.0
    ensures ParseTimeInput(t) == Some(total)
  {
  }

  lemma HoursMinutesText(hs: string, ms: string)
    requires hs != [] && AllDigits(hs) && AllDigits(ms)
    ensures Lower(Trim(hs + "h" + ms + "m")) == hs + "h" + ms + "m"
  {
    var t := hs + "h" + ms + "m";
    assert t[0] == hs[0];
    TrimUnpadded(t);
    assert Lower(t) == t by {
      forall k | 0 <= k < |t| ensures LowerChar(t[k]) == t[k] {
        if k < |hs| { assert t[k] == hs[k]; }
        else if |hs| < k < |hs| + 1 + |ms| { assert t[k] == ms[k - |hs| - 1]; }
      }
      LowerOfPlain(t);
    }
  }

  /** "<h>h<m>m" reads as h hours and m minutes. */
  lemma ParseTimeHoursMinutes(h: nat, m: nat)
    requires 60 * h + m > 0
    ensures ParseTimeInput(NatToString(h) + "h" + NatToString(m) + "m") == Some((60 * h + m) as real)
  {
    var hs := NatToString(h);
    var ms := NatToString(m);
    var t := hs + "h" + ms + "m";
    HoursMinutesMatches(h, m);
    assert TimeTotal(t) == (60 * h + m) as real;
    HoursMinutesText(hs, ms);
    ParseTimePlain(t, (60 * h + m) as real);
  }

  /** In "<h>h<m>m" the hour pattern captures h, the minute pattern m, and the second pattern nothing. */
  lemma HoursMinutesMatches(h: nat, m: nat)
    ensures var t := NatToString(h) + "h" + NatToString(m) + "m";
      && MatchValue(t, HourUnit) == Some(h)
      && MatchValue(t, MinuteUnit) == Some(m)
      && MatchValue(t, SecondUnit).None?
  {
    HourMatchOf(h, m);
    MinuteMatchOf(h, m);
    SecondMatchOf(h, m);
  }

  lemma HourMatchOf(h: nat, m: nat)
    ensures MatchValue(NatToString(h) + "h" + NatToString(m) + "m", HourUnit) == Some(h)
  {
    var hs := NatToString(h);
    var t := hs + "h" + NatToString(m) + "m";
    assert t[0..|hs|] == hs && t[|hs|] == 'h';
    MatchOfDigits(t, 0, hs, HourUnit);
  }

  lemma MinuteMatchOf(h: nat, m: nat)
    ensures MatchValue(NatToString(h) + "h" + NatToString(m) + "m", MinuteUnit) == Some(m)
  {
    var hs := NatToString(h);
    var ms := NatToString(m);
    var t := hs + "h" + ms + "m";
    var j := |hs| + 1;
    assert t[0..|hs|] == hs && t[|hs|] == 'h';
    assert t[j..j + |ms|] == ms && t[j + |ms|] == 'm' && j + |ms| + 1 == |t|;
    RunOfDigits(t, 0, hs);
    NoTokenInRun(t, 0, |hs|, MinuteUnit);
    MatchOfDigits(t, j, ms, MinuteUnit);
  }

  lemma SecondMatchOf(h: nat, m: nat)
    ensures MatchValue(NatToString(h) + "h" + NatToString(m) + "m", SecondUnit).None?
  {
    var hs := NatToString(h);
    var ms := NatToString(m);
    var t := hs + "h" + ms + "m";
    DigitsLackLetter(hs, 's');
    DigitsLackLetter(ms, 's');
    assert 's' !in t by {
      assert 's' !in "h" && 's' !in "m";
    }
    NoTokenWithoutLetter(t, SecondUnit);
  }

  /** "<s>s" reads as s seconds, i.e. s / 60 minutes. */
  lemma ParseTimeSeconds(s: nat)
    requires s > 0
    ensures ParseTimeInput(NatToString(s) + "s") == Some(s as real / 60.0)
  {
    var t := NatToString(s) + "s";
    SecondsMatches(s);
    assert TimeTotal(t) == s as real / 60.0;
    SecondsTextPlain(s);
    ParseTimePlain(t, s as real / 60.0);
  }

  /** In "<s>s" only the second pattern matches, capturing s. */
  lemma SecondsMatches(s: nat)
    ensures var t := NatToString(s) + "s";
      && MatchValue(t, SecondUnit) == Some(s)
      && MatchValue(t, HourUnit).None?
      && MatchValue(t, MinuteUnit).None?
  {
    var ss := NatToString(s);
    var t := ss + "s";
    assert t[0..|ss|] == ss && t[|ss|] == 's';
    MatchOfDigits(t, 0, ss, SecondUnit);
    DigitsLackLetter(ss, 'h');
    DigitsLackLetter(ss, 'm');
    assert UnitLetter(HourUnit) !in t && UnitLetter(MinuteUnit) !in t;
    NoTokenWithoutLetter(t, HourUnit);
    NoTokenWithoutLetter(t, MinuteUnit);
  }

  lemma SecondsTextPlain(s: nat)
    ensures Lower(Trim(NatToString(s) + "s")) == NatToString(s) + "s"
  {
    var ss := NatToString(s);
    var t := ss + "s";
    forall k | 0 <= k < |t| ensures IsDigit(t[k]) || t[k] in "hms." {
      if k < |ss| { assert t[k] == ss[k]; }
    }
    PlainTimeText(t);
  }

  /** A bare positive number reads as that many minutes. */
  lemma ParseTimeBareNumber(n: nat)
    requires n > 0
    ensures ParseTimeInput(NatToString(n)) == Some(n as real)
  {
    var t := NatToString(n);
    PlainTimeText(t);
    assert UnitLetter(HourUnit) !in t && UnitLetter(MinuteUnit) !in t && UnitLetter(SecondUnit) !in t;
    NoTokenWithoutLetter(t, HourUnit);
    NoTokenWithoutLetter(t, MinuteUnit);
    NoTokenWithoutLetter(t, SecondUnit);
    ParseDecimalNat(n);
  }

  /** An 'm' directly followed by 's' is not a minute, so "5ms" is rejected. */
  lemma ParseTimeMillisecondsRejected(n: nat)
    ensures ParseTimeInput(NatToString(n) + "ms") == None
  {
    var t := NatToString(n) + "ms";
    MillisecondsNoMatch(n);
    MillisecondsNotDecimal(n);
    assert TimeTotal(t) == 0.0;
    MillisecondsTextPlain(n);
  }

  lemma MillisecondsNotDecimal(n: nat)
    ensures ParseDecimal(NatToString(n) + "ms").None?
  {
    var ns := NatToString(n);
    var t := ns + "ms";
    assert t[|ns|] == 'm';
    DigitsLackLetter(ns, '.');
    assert '.' !in t by {
      assert '.' !in "ms";
    }
    assert FirstIndexOf(t, '.') == |t|;
  }

  lemma MillisecondsTextPlain(n: nat)
    ensures Lower(Trim(NatToString(n) + "ms")) == NatToString(n) + "ms"
  {
    var ns := NatToString(n);
    var t := ns + "ms";
    forall k | 0 <= k < |t| ensures IsDigit(t[k]) || t[k] in "hms." {
      if k < |ns| { assert t[k] == ns[k]; }
    }
    PlainTimeText(t);
  }

  /**
   * None of the three unit patterns matches "<n>ms": there is no 'h', the
   * digits are followed by an 'm' that the lookahead rejects, and no digit
   * stands before the 's'.
   */
  lemma MillisecondsNoMatch(n: nat)
    ensures MatchValue(NatToString(n) + "ms", HourUnit).None?
    ensures MatchValue(NatToString(n) + "ms", MinuteUnit).None?
    ensures MatchValue(NatToString(n) + "ms", SecondUnit).None?
  {
    var ns := NatToString(n);
    var t := ns + "ms";
    var e := |ns|;
    assert t[e] == 'm' && t[e + 1] == 's' && |t| == e + 2;
    forall k | 0 <= k < e ensures IsDigit(t[k]) {
      assert t[k] == ns[k];
    }
    DigitsLackLetter(ns, 'h');
    assert 'h' !in t by {
      assert 'h' !in "ms";
    }
    NoTokenWithoutLetter(t, HourUnit);
    NoTokenInRun(t, 0, e, MinuteUnit);
    NoTokenInRun(t, 0, e, SecondUnit);
    assert !TokenAt(t, e + 1, MinuteUnit) && !TokenAt(t, e + 1, SecondUnit);
  }

  // ---------------------------------------------------------------------------
  // parseDistanceInput
  // ---------------------------------------------------------------------------

  /** The optional unit suffixes, with the factor that converts to metres. */
  const DistanceUnits: seq<string> := ["", "m", "km", "cm", "mm"]

  /** A number of the given unit in metres (the switch in `parseDistanceInput`). */
  function InMetres(num: real, u: string): (m: real)
    ensures num >= 0.0 ==> m >= 0.0
  {
    if u == "km" then num * 1000.0
    else if u == "cm" then num / 100.0
    else if u == "mm" then num / 1000.0
    else num
  }

  /**
   * Splits a lower-cased text into numeral and unit the way the anchored
   * pattern does: the numeral holds only digits and a point, so the unit is
   * whatever letters end the text.
   */
  function SplitUnit(t: string): (parts: (string, string))
    ensures parts.0 + parts.1 == t
    ensures parts.1 in DistanceUnits
  {
    if |t| >= 2 && t[|t| - 2..] in ["km", "cm", "mm"] then
      assert t[..|t| - 2] + t[|t| - 2..] == t;
      (t[..|t| - 2], t[|t| - 2..])
    else if |t| >= 1 && t[|t| - 1] == 'm' then
      assert t[..|t| - 1] + [t[|t| - 1]] == t;
      (t[..|t| - 1], "m")
    else
      assert t + "" == t;
      (t, "")
  }

  /**
   * `parseDistanceInput` in metres: an anchored decimal with an optional unit
   * (m by default, km, cm, mm); anything else is null. "0" gives 0, not null.
   */
  function ParseDistanceInput(input: string): (r: Option<real>)
    ensures r.Some? ==> r.value >= 0.0
    ensures r.Some? ==> exists d, u :: u in DistanceUnits && Lower(Trim(input)) == d + u
                                        && DecimalShape(d) && r.value == InMetres(DecimalValue(d), u)
  {
    var t := Lower(Trim(input));
    var parts := SplitUnit(t);
    var num := ParseDecimal(parts.0);
    if num.Some? then
      DistanceParts(input, parts.0, parts.1);
      Some(InMetres(num.value, parts.1))
    else None
  }

  /** Names the numeral and unit a parsed distance was read from. */
  lemma DistanceParts(input: string, d: string, u: string)
    requires u in DistanceUnits && Lower(Trim(input)) == d + u && DecimalShape(d)
    ensures exists d', u' :: u' in DistanceUnits && Lower(Trim(input)) == d' + u'
                             && DecimalShape(d') && InMetres(DecimalValue(d), u) == InMetres(DecimalValue(d'), u')
  {
  }

  /** A numeral is made of digits and at most a point; it never ends in a letter. */
  lemma DecimalEndsInDigit(d: string)
    requires DecimalShape(d)
    ensures d != [] && IsDigit(d[|d| - 1])
  {
    var k := FirstIndexOf(d, '.');
    if k < |d| {
      assert d[|d| - 1] == d[k + 1..][|d| - k - 2];
    }
  }

  /** A numeral holds digits and points only. */
  lemma DecimalChars(d: string)
    requires DecimalShape(d)
    ensures forall k :: 0 <= k < |d| ==> IsDigit(d[k]) || d[k] == '.'
  {
    var p := FirstIndexOf(d, '.');
    if p < |d| {
      forall k | 0 <= k < |d| ensures IsDigit(d[k]) || d[k] == '.' {
        if k < p {
          assert d[k] == d[..p][k];
        } else if k > p {
          assert d[k] == d[p + 1..][k - p - 1];
        }
      }
    }
  }

  /** Trimming and lower-casing leave a numeral followed by a unit alone. */
  lemma DistanceTextPlain(d: string, u: string)
    requires DecimalShape(d) && u in DistanceUnits
    ensures Lower(Trim(d + u)) == d + u
  {
    DistanceTextTrimmed(d, u);
    DistanceTextLower(d, u);
  }

  lemma DistanceTextTrimmed(d: string, u: string)
    requires DecimalShape(d) && u in DistanceUnits
    ensures Trim(d + u) == d + u
  {
    var t := d + u;
    DecimalEndsInDigit(d);
    DecimalChars(d);
    assert !IsSpace(t[0]) by { assert t[0] == d[0]; }
    assert !IsSpace(t[|t| - 1]) by {
      if u == "" { assert t[|t| - 1] == d[|d| - 1]; }
    }
    TrimUnpadded(t);
  }

  lemma DistanceTextLower(d: string, u: string)
    requires DecimalShape(d) && u in DistanceUnits
    ensures Lower(d + u) == d + u
  {
    var t := d + u;
    DecimalChars(d);
    assert forall k :: 0 <= k < |u| ==> 'a' <= u[k] <= 'z';
    forall k | 0 <= k < |t| ensures LowerChar(t[k]) == t[k] {
      if k < |d| { assert t[k] == d[k]; } else { assert t[k] == u[k - |d|]; }
    }
    LowerOfPlain(t);
  }

  /** The unit split recovers the numeral and the unit. */
  lemma SplitUnitOf(d: string, u: string)
    requires DecimalShape(d) && u in DistanceUnits
    ensures SplitUnit(d + u) == (d, u)
  {
    var t := d + u;
    DecimalEndsInDigit(d);
    assert t[..|d|] == d;
    if u == "" {
      assert t == d;
    } else if u == "m" {
      assert t[|t| - 2] == d[|d| - 1];
    } else {
      assert t[|t| - 2..] == u;
    }
  }

  lemma ParseDistancePlain(t: string, d: string, u: string)
    requires Lower(Trim(t)) == t && SplitUnit(t) == (d, u) && DecimalShape(d)
    ensures ParseDistanceInput(t) == Some(InMetres(DecimalValue(d), u))
  {
  }

  /** Every numeral with every unit is read, scaled to metres. */
  lemma ParseDistanceComplete(d: string, u: string)
    requires DecimalShape(d) && u in DistanceUnits
    ensures ParseDistanceInput(d + u) == Some(InMetres(DecimalValue(d), u))
  {
    DistanceTextPlain(d, u);
    SplitUnitOf(d, u);
    ParseDistancePlain(d + u, d, u);
  }

  /** A bare number is that many metres; in particular "0" gives 0 rather than null. */
  lemma ParseDistanceNat(n: nat)
    ensures ParseDistanceInput(NatToString(n)) == Some(n as real)
  {
    NatIsDecimal(n);
    ParseDistanceComplete(NatToString(n), "");
    assert NatToString(n) + "" == NatToString(n);
  }

  // ---------------------------------------------------------------------------
  // Radio values
  // ---------------------------------------------------------------------------

  /** The parser behind a custom-input field. */
  function ParseCustom(k: Kind, input: string): (r: Option<real>)
    requires HasCustomInput(k)
    ensures r.Some? ==> ValidOptions(ThinningOptions(k, r))
  {
    match k
    case Sequence =>
      var n := ParseSequenceInput(input);
      if n.Some? then Some(n.value as real) else None
    case Time => ParseTimeInput(input)
    case Distance => ParseDistanceInput(input)
  }

  /**
   * `handleRadioChange`: the options to emit for a radio value, or `None` when
   * nothing is emitted. 'none' clears; "<type>-custom" applies the type's
   * custom input when it parses; "<type>-<v>" applies `parseInt(v)`.
   */
  function HandleRadioChange(value: string, inputs: CustomInputs): (r: Option<ThinningOptions>)
    ensures value == "none" ==> r == Some(ThinningOptions(NoThinning, None))
  {
    if value == "none" then Some(ThinningOptions(NoThinning, None))
    else
      var parts := Split(value, '-');
      var kind := KindOfName(parts[0]);
      if kind.None? || |parts| < 2 then None
      else if parts[1] == "custom" then
        if !HasCustomInput(kind.value) then None
        else
          var parsed := ParseCustom(kind.value, InputFor(inputs, kind.value));
          if parsed.Some? then Some(ThinningOptions(kind.value, parsed)) else None
      else
        var v := ParseInt(parts[1]);
        if v.None? then None else Some(ThinningOptions(kind.value, Some(v.value as real)))
  }

  /** The radio value of a predefined option. */
  function PresetRadio(k: Kind, v: nat): string {
    KindName(k) + "-" + NatToString(v)
  }

  function CustomRadio(k: Kind): string {
    KindName(k) + "-custom"
  }

  /** The sixteen radio values the panel renders. */
  predicate IsRenderedRadio(value: string) {
    || value == "none"
    || (exists k: Kind :: HasCustomInput(k) && value == CustomRadio(k))
    || (exists k: Kind, i :: HasCustomInput(k) && 0 <= i < |PredefinedValues(k)| && value == PresetRadio(k, PredefinedValues(k)[i]))
  }

  lemma SplitRadio(k: Kind, rest: string)
    requires '-' !in rest
    ensures Split(KindName(k) + "-" + rest, '-') == [KindName(k), rest]
  {
    assert '-' !in KindName(k);
    SplitAfterPrefix(KindName(k), rest, '-');
    SplitNoSeparator(rest, '-');
  }

  /** A predefined radio value emits its kind with its value. */
  lemma HandlePresetRadio(k: Kind, v: nat, inputs: CustomInputs)
    requires HasCustomInput(k)
    ensures HandleRadioChange(PresetRadio(k, v), inputs) == Some(ThinningOptions(k, Some(v as real)))
  {
    var d := NatToString(v);
    var value := PresetRadio(k, v);
    DigitsLackLetter(d, '-');
    SplitRadio(k, d);
    assert KindName(k) + "-" + d == value;
    assert value != "none" by {
      assert |value| >= 6;
    }
    assert d != "custom" by {
      assert IsDigit(d[0]);
    }
    ParseIntNat(v);
    HandleValueRadio(value, k, d, inputs);
  }

  /** A radio value "<type>-<text>" that is not custom applies `parseInt` to the text. */
  lemma HandleValueRadio(value: string, k: Kind, rest: string, inputs: CustomInputs)
    requires value != "none" && Split(value, '-') == [KindName(k), rest] && rest != "custom"
    ensures HandleRadioChange(value, inputs)
         == if ParseInt(rest).None? then None else Some(ThinningOptions(k, Some(ParseInt(rest).value as real)))
  {
    assert KindOfName(KindName(k)) == Some(k);
  }

  /** A custom radio value emits its kind with the parsed custom input, or nothing when that does not parse. */
  lemma HandleCustomRadio(k: Kind, inputs: CustomInputs)
    requires HasCustomInput(k)
    ensures HandleRadioChange(CustomRadio(k), inputs)
         == var parsed := ParseCustom(k, InputFor(inputs, k));
            if parsed.Some? then Some(ThinningOptions(k, parsed)) else None
  {
    SplitRadio(k, "custom");
    var value := CustomRadio(k);
    assert KindName(k) + "-" + "custom" == value;
    assert value != "none" by {
      assert |value| >= 11;
    }
    assert KindOfName(KindName(k)) == Some(k);
  }

  // ---------------------------------------------------------------------------
  // getCurrentValue and the round trip
  // ---------------------------------------------------------------------------

  /** The value is one of the kind's predefined values. */
  predicate InTable(k: Kind, x: real) {
    exists i :: 0 <= i < |PredefinedValues(k)| && PredefinedValues(k)[i] as real == x
  }

  /**
   * `getCurrentValue`: 'none' for no thinning or a null value; otherwise
   * "<type>-<value>" when the value is one of the type's predefined values,
   * and "<type>-custom" when it is not.
   */
  function GetCurrentValue(o: ThinningOptions): (radio: string)
    ensures o.kind == NoThinning || o.value.None? <==> radio == "none"
    ensures o.kind != NoThinning && o.value.Some? ==>
      (radio == CustomRadio(o.kind) <==> !InTable(o.kind, o.value.value))
    ensures o.kind != NoThinning && o.value.Some? && InTable(o.kind, o.value.value) ==>
      exists i :: 0 <= i < |PredefinedValues(o.kind)| && PredefinedValues(o.kind)[i] as real == o.value.value
                  && radio == PresetRadio(o.kind, PredefinedValues(o.kind)[i])
  {
    if o.kind == NoThinning || o.value.None? then "none"
    else
      var table := PredefinedValues(o.kind);
      if InTable(o.kind, o.value.value) then
        var i :| 0 <= i < |table| && table[i] as real == o.value.value;
        PresetIsNotCustom(o.kind, table[i]);
        assert |PresetRadio(o.kind, table[i])| > 4;
        PresetRadio(o.kind, table[i])
      else
        assert |CustomRadio(o.kind)| > 4;
        CustomRadio(o.kind)
  }

  /** Choosing a predefined radio button selects that same button again. */
  lemma PresetRoundTrip(k: Kind, i: nat, inputs: CustomInputs)
    requires HasCustomInput(k) && i < |PredefinedValues(k)|
    ensures var o := HandleRadioChange(PresetRadio(k, PredefinedValues(k)[i]), inputs);
            o.Some? && GetCurrentValue(o.value) == PresetRadio(k, PredefinedValues(k)[i])
  {
    var v := PredefinedValues(k)[i];
    HandlePresetRadio(k, v, inputs);
    var o := ThinningOptions(k, Some(v as real));
    assert InTable(k, v as real);
    var table := PredefinedValues(k);
    var j :| 0 <= j < |table| && table[j] as real == v as real && GetCurrentValue(o) == PresetRadio(k, table[j]);
    assert table[j] == v;
  }

  /** Choosing 'none' selects 'none' again. */
  lemma NoneRoundTrip(inputs: CustomInputs)
    ensures GetCurrentValue(HandleRadioChange("none", inputs).value) == "none"
  {
  }

  /**
   * Choosing a custom radio button emits options when the field parses, and
   * those select the custom button again unless the parsed value happens to be
   * predefined (then the predefined button shows as selected).
   */
  lemma CustomRoundTrip(k: Kind, inputs: CustomInputs)
    requires HasCustomInput(k)
    ensures var o := HandleRadioChange(CustomRadio(k), inputs);
            var parsed := ParseCustom(k, InputFor(inputs, k));
            && (o.Some? <==> parsed.Some?)
            && (o.Some? ==>
                  (GetCurrentValue(o.value) == CustomRadio(k)
                   <==> forall i :: 0 <= i < |PredefinedValues(k)| ==> PredefinedValues(k)[i] as real != parsed.value))
  {
    HandleCustomRadio(k, inputs);
  }

  lemma PresetIsNotCustom(k: Kind, v: nat)
    ensures PresetRadio(k, v) != CustomRadio(k)
  {
    var p := PresetRadio(k, v);
    var c := CustomRadio(k);
    var n := |KindName(k)| + 1;
    assert p[n] == NatToString(v)[0];
    assert c[n] == 'c';
  }

  // ---------------------------------------------------------------------------
  // Custom inputs
  // ---------------------------------------------------------------------------

  /**
   * `handleCustomInputChange`: stores the new text in its field and emits the
   * kind with the parsed value when it parses.
   */
  function HandleCustomInputChange(k: Kind, text: string, inputs: CustomInputs): (r: (CustomInputs, Option<ThinningOptions>))
    requires HasCustomInput(k)
    ensures InputFor(r.0, k) == text
    ensures forall k' :: HasCustomInput(k') && k' != k ==> InputFor(r.0, k') == InputFor(inputs, k')
    ensures r.1.Some? <==> ParseCustom(k, text).Some?
    ensures r.1.Some? ==> r.1.value == ThinningOptions(k, ParseCustom(k, text))
  {
    var parsed := ParseCustom(k, text);
    (WithInput(inputs, k, text), if parsed.Some? then Some(ThinningOptions(k, parsed)) else None)
  }

  /** The fields with the one for `k` replaced by `text`. */
  function WithInput(inputs: CustomInputs, k: Kind, text: string): (r: CustomInputs)
    requires HasCustomInput(k)
    ensures InputFor(r, k) == text
    ensures forall k' :: HasCustomInput(k') && k' != k ==> InputFor(r, k') == InputFor(inputs, k')
  {
    match k
    case Sequence => inputs.(sequence := text)
    case Time => inputs.(time := text)
    case Distance => inputs.(distance := text)
  }

  /** `isCustomInputValid`: an empty field is fine; otherwise the field must parse. */
  function IsCustomInputValid(k: Kind, inputs: CustomInputs): (ok: bool)
    requires HasCustomInput(k)
    ensures InputFor(inputs, k) == "" ==> ok
    ensures InputFor(inputs, k) != "" ==> (ok <==> ParseCustom(k, InputFor(inputs, k)).Some?)
  {
    var text := InputFor(inputs, k);
    if text == "" then true
    else
      match k
      case Sequence => ParseSequenceInput(text).Some?
      case Time => ParseTimeInput(text).Some?
      case Distance => ParseDistanceInput(text).Some?
  }

  /** A valid, non-empty custom field is one whose radio button emits options. */
  lemma ValidInputEmits(k: Kind, inputs: CustomInputs)
    requires HasCustomInput(k) && InputFor(inputs, k) != ""
    ensures IsCustomInputValid(k, inputs) <==> HandleRadioChange(CustomRadio(k), inputs).Some?
  {
    HandleCustomRadio(k, inputs);
  }

  // ---------------------------------------------------------------------------
  // Options the thinning functions can take
  // ---------------------------------------------------------------------------

  /**
   * Options every thinning function terminates on: a stride is a positive
   * integer, a time gap is positive, a distance is not negative.
   */
  predicate ValidOptions(o: ThinningOptions) {
    o.value.Some? ==>
      match o.kind
      case NoThinning => true
      case Sequence => o.value.value == o.value.value.Floor as real && o.value.value >= 1.0
      case Time => o.value.value > 0.0
      case Distance => o.value.value >= 0.0
  }

  /** Every radio value the panel renders emits valid options, if it emits any. */
  lemma RenderedRadioIsValid(value: string, inputs: CustomInputs)
    requires IsRenderedRadio(value)
    ensures var o := HandleRadioChange(value, inputs);
            o.Some? ==> ValidOptions(o.value)
  {
    if value != "none" {
      if exists k: Kind :: HasCustomInput(k) && value == CustomRadio(k) {
        var k: Kind :| HasCustomInput(k) && value == CustomRadio(k);
        CustomRadioIsValid(k, inputs);
      } else {
        var k: Kind, i :| HasCustomInput(k) && 0 <= i < |PredefinedValues(k)| && value == PresetRadio(k, PredefinedValues(k)[i]);
        PresetRadioIsValid(k, i, inputs);
      }
    }
  }

  lemma CustomRadioIsValid(k: Kind, inputs: CustomInputs)
    requires HasCustomInput(k)
    ensures var o := HandleRadioChange(CustomRadio(k), inputs);
            o.Some? ==> ValidOptions(o.value)
  {
    HandleCustomRadio(k, inputs);
  }

  lemma PresetRadioIsValid(k: Kind, i: nat, inputs: CustomInputs)
    requires HasCustomInput(k) && i < |PredefinedValues(k)|
    ensures var o := HandleRadioChange(PresetRadio(k, PredefinedValues(k)[i]), inputs);
            o.Some? ==> ValidOptions(o.value)
  {
    var v := PredefinedValues(k)[i];
    TableValuesPositive(k, i);
    HandlePresetRadio(k, v, inputs);
    assert ValidOptions(ThinningOptions(k, Some(v as real))) by {
      assert (v as real).Floor == v;
    }
  }

  /** Every predefined value is at least 1. */
  lemma TableValuesPositive(k: Kind, i: nat)
    requires i < |PredefinedValues(k)|
    ensures PredefinedValues(k)[i] >= 1
  {
    match k
    case Sequence => assert SequenceOptions[i] in SequenceOptions;
    case Time => assert TimeOptions[i] in TimeOptions;
    case _ => assert DistanceOptions[i] in DistanceOptions;
  }
}
