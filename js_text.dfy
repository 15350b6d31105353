/** The string operations the Rational classes call: `parseInt` (decimal
    only), `String.prototype.split` with a one-character separator,
    `Array.prototype.join`, and the rendering of an integral number in a
    template literal. Strings are sequences of characters. */
module JsText {
  import opened Outcomes
  import opened JsNumbers

  predicate IsDigit(c: char) {
    '0' <= c <= '9'
  }

  predicate AllDigits(s: string) {
    forall i :: 0 <= i < |s| ==> IsDigit(s[i])
  }

  function DigitValue(c: char): (v: nat)
    requires IsDigit(c)
    ensures v < 10
  {
    (c as int - '0' as int) as nat
  }

  function DigitChar(v: nat): (c: char)
    requires v < 10
    ensures IsDigit(c) && DigitValue(c) == v
  {
    (v + '0' as int) as char
  }

  /** The value of a decimal numeral, most significant digit first. */
  function DecimalValue(s: string): nat
    requires AllDigits(s)
  {
    if s == [] then 0 else DecimalValue(s[..|s| - 1]) * 10 + DigitValue(s[|s| - 1])
  }

  /** The length of the longest prefix of `s` made of decimal digits. */
  function DigitPrefixLength(s: string): (k: nat)
    ensures k <= |s|
    ensures AllDigits(s[..k])
    ensures k < |s| ==> !IsDigit(s[k])
  {
    if s == [] || !IsDigit(s[0]) then 0
    else
      var k := 1 + DigitPrefixLength(s[1..]);
      assert s[..k] == [s[0]] + s[1..][..k - 1];
      k
  }

  /** `parseInt(s, 10)`: an optional sign, then the longest run of decimal
      digits; no digits at all is NaN, here `None`. */
  function ParseInt(s: string): Option<int> {
    var negative := |s| > 0 && s[0] == '-';
    var body := if |s| > 0 && (s[0] == '-' || s[0] == '+') then s[1..] else s;
    var k := DigitPrefixLength(body);
    if k == 0 then None
    else
      var v: int := DecimalValue(body[..k]);
      Some(if negative then -v else v)
  }

  /** A non-negative integer written in decimal, without leading zeros. */
  function NatToString(n: nat): (s: string)
    ensures |s| > 0 && AllDigits(s)
    ensures DecimalValue(s) == n
    ensures |s| > 1 ==> s[0] != '0'
  {
    if n < 10 then [DigitChar(n)]
    else
      var s := NatToString(n / 10) + [DigitChar(n % 10)];
      assert s[..|s| - 1] == NatToString(n / 10);
      s
  }

  /** An integral number as a template literal renders it: a minus sign
      exactly for negative numbers, then the magnitude in decimal without
      leading zeros. */
  function IntToString(n: int): (s: string)
    ensures '/' !in s
    ensures |s| > 0 && (s[0] == '-' <==> n < 0)
    ensures var digits := if n < 0 then s[1..] else s;
      && |digits| > 0 && AllDigits(digits)
      && DecimalValue(digits) == Abs(n)
      && (|digits| > 1 ==> digits[0] != '0')
  {
    if n < 0 then "-" + NatToString(-n) else NatToString(n)
  }

  /** The index of the first `sep` in `s`, or |s| when there is none. */
  function IndexOf(s: string, sep: char): (i: nat)
    ensures i <= |s|
    ensures sep !in s[..i]
    ensures i < |s| ==> s[i] == sep
  {
    if s == [] || s[0] == sep then 0
    else
      var i := 1 + IndexOf(s[1..], sep);
      assert s[..i] == [s[0]] + s[1..][..i - 1];
      i
  }

  /** `s.split(sep)` for a one-character separator: the pieces between
      separators, in order, always at least one. */
  function Split(s: string, sep: char): (parts: seq<string>)
    ensures |parts| >= 1
    ensures forall k :: 0 <= k < |parts| ==> sep !in parts[k]
    decreases |s|
  {
    var i := IndexOf(s, sep);
    if i == |s| then [s] else [s[..i]] + Split(s[i + 1..], sep)
  }

  /** `parts.join(sep)`. */
  function Join(parts: seq<string>, sep: string): (s: string)
    ensures |parts| == 0 ==> s == ""
    ensures |parts| == 1 ==> s == parts[0]
    ensures (forall k :: 0 <= k < |parts| ==> AllDigits(parts[k])) && AllDigits(sep) ==> AllDigits(s)
  {
    if |parts| == 0 then ""
    else if |parts| == 1 then parts[0]
    else parts[0] + sep + Join(parts[1..], sep)
  }

  // ---------------------------------------------------------------------
  // parseInt

  /** An all-digit numeral parses to its decimal value. */
  lemma ParseIntDigits(s: string)
    requires |s| > 0 && AllDigits(s)
    ensures ParseInt(s) == Some(DecimalValue(s))
  {
    DigitsPrefixAll(s);
    assert s[..|s|] == s;
  }

  /** A minus sign before an all-digit numeral negates its value. */
  lemma ParseIntNegative(s: string)
    requires |s| > 0 && AllDigits(s)
    ensures ParseInt("-" + s) == Some(-(DecimalValue(s) as int))
  {
    assert ("-" + s)[1..] == s;
    DigitsPrefixAll(s);
    assert s[..|s|] == s;
  }

  /** A plus sign before an all-digit numeral is dropped. */
  lemma ParseIntPositive(s: string)
    requires |s| > 0 && AllDigits(s)
    ensures ParseInt("+" + s) == Some(DecimalValue(s) as int)
  {
    assert ("+" + s)[1..] == s;
    DigitsPrefixAll(s);
    assert s[..|s|] == s;
  }

  /** Text that starts with neither a sign nor a digit is NaN. */
  lemma ParseIntNaN(s: string)
    requires s == [] || (!IsDigit(s[0]) && s[0] != '-' && s[0] != '+')
    ensures ParseInt(s) == None
  {
  }

  /** A sign with no digit after it is NaN. */
  lemma ParseIntSignNaN(sign: string, t: string)
    requires sign == "-" || sign == "+"
    requires t == [] || !IsDigit(t[0])
    ensures ParseInt(sign + t) == None
  {
    assert (sign + t)[1..] == t;
  }

  /** Parsing stops at the first character after the digits that is not a
      digit, with or without a leading sign. */
  lemma ParseIntStops(sign: string, s: string, t: string)
    requires sign == "" || sign == "-" || sign == "+"
    requires |s| > 0 && AllDigits(s) && (t == [] || !IsDigit(t[0]))
    ensures ParseInt(sign + s + t) == ParseInt(sign + s)
  {
    DigitsPrefixStops(s, t);
    DigitsPrefixAll(s);
    assert (s + t)[..|s|] == s;
    assert s[..|s|] == s;
    if sign != "" {
      assert (sign + s + t)[1..] == s + t;
      assert (sign + s)[1..] == s;
    } else {
      assert sign + s + t == s + t;
      assert sign + s == s;
    }
  }

  lemma {:induction false} DigitsPrefixAll(s: string)
    requires AllDigits(s)
    ensures DigitPrefixLength(s) == |s|
  {
    if s != [] {
      DigitsPrefixAll(s[1..]);
    }
  }

  lemma {:induction false} DigitsPrefixStops(s: string, t: string)
    requires AllDigits(s) && (t == [] || !IsDigit(t[0]))
    ensures DigitPrefixLength(s + t) == |s|
  {
    if s != [] {
      assert (s + t)[1..] == s[1..] + t;
      DigitsPrefixStops(s[1..], t);
    } else {
      assert s + t == t;
    }
  }

  /** Rendering an integer and parsing it back gives the integer. */
  lemma ParseIntOfIntToString(n: int)
    ensures ParseInt(IntToString(n)) == Some(n)
  {
    if n < 0 {
      ParseIntNegative(NatToString(-n));
    } else {
      ParseIntDigits(NatToString(n));
    }
  }

  // ---------------------------------------------------------------------
  // split and join

  /** Splitting at a separator that the first piece does not contain. */
  lemma SplitCons(a: string, sep: char, rest: string)
    requires sep !in a
    ensures Split(a + [sep] + rest, sep) == [a] + Split(rest, sep)
  {
    var s := a + [sep] + rest;
    IndexOfFirst(a, sep, rest);
    assert s[..|a|] == a;
    assert s[|a| + 1..] == rest;
  }

  /** A string without the separator is split into itself alone. */
  lemma SplitNone(s: string, sep: char)
    requires sep !in s
    ensures Split(s, sep) == [s]
  {
    IndexOfAbsent(s, sep);
  }

  lemma {:induction false} IndexOfFirst(a: string, sep: char, rest: string)
    requires sep !in a
    ensures IndexOf(a + [sep] + rest, sep) == |a|
  {
    if a != [] {
      assert (a + [sep] + rest)[1..] == a[1..] + [sep] + rest;
      IndexOfFirst(a[1..], sep, rest);
    }
  }

  lemma {:induction false} IndexOfAbsent(s: string, sep: char)
    requires sep !in s
    ensures IndexOf(s, sep) == |s|
  {
    if s != [] {
      IndexOfAbsent(s[1..], sep);
    }
  }

  /** `join` builds its result left to right: appending a piece appends the
      separator and the piece. */
  lemma {:induction false} JoinAppend(parts: seq<string>, p: string, sep: string)
    requires |parts| > 0
    ensures Join(parts + [p], sep) == Join(parts, sep) + sep + p
  {
    if |parts| == 1 {
      assert parts + [p] == [parts[0], p];
      assert [parts[0], p][1..] == [p];
    } else {
      assert (parts + [p])[1..] == parts[1..] + [p];
      JoinAppend(parts[1..], p, sep);
    }
  }

  /** Joining the pieces of a split with the separator restores the string. */
  lemma {:induction false} JoinSplit(s: string, sep: char)
    ensures Join(Split(s, sep), [sep]) == s
    decreases |s|
  {
    var i := IndexOf(s, sep);
    if i < |s| {
      var tail := s[i + 1..];
      var parts := Split(s, sep);
      JoinSplit(tail, sep);
      assert parts == [s[..i]] + Split(tail, sep);
      assert |parts| >= 2 && parts[0] == s[..i] && parts[1..] == Split(tail, sep);
      assert Join(parts, [sep]) == parts[0] + [sep] + Join(parts[1..], [sep]);
      assert s == s[..i] + [sep] + tail;
    }
  }
}
