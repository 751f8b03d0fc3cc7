/** The few pieces of java.lang.String and java.lang.Integer that the game
    relies on: trim, ASCII case folding, equalsIgnoreCase, prefix, suffix and
    substring tests, Integer.toString and Integer.parseInt. Case folding is
    ASCII only; Unicode folding is not modelled. */
module Text {
  import opened Wrappers

  const MinInt32: int := -0x8000_0000
  const MaxInt32: int := 0x7fff_ffff

  predicate InInt32(n: int) {
    MinInt32 <= n <= MaxInt32
  }

  // ---------------------------------------------------------------- trim

  /** String.trim removes every leading and trailing char whose code is at most U+0020. */
  predicate IsSpace(c: char) {
    c <= ' '
  }

  predicate AllSpace(s: string) {
    forall k :: 0 <= k < |s| ==> IsSpace(s[k])
  }

  function TrimStart(s: string): (r: string)
    ensures |r| <= |s|
  {
    if |s| == 0 || !IsSpace(s[0]) then s else TrimStart(s[1..])
  }

  function TrimEnd(s: string): (r: string)
    ensures |r| <= |s|
  {
    if |s| == 0 || !IsSpace(s[|s| - 1]) then s else TrimEnd(s[..|s| - 1])
  }

  /** TrimStart drops exactly the leading run of spaces. */
  lemma {:induction false} TrimStartSpec(s: string)
    ensures var r := TrimStart(s); r == s[|s| - |r|..] && AllSpace(s[..|s| - |r|])
    ensures var r := TrimStart(s); r == [] || !IsSpace(r[0])
  {
    if |s| > 0 && IsSpace(s[0]) {
      var r := TrimStart(s[1..]);
      TrimStartSpec(s[1..]);
      assert s[1..][..|s| - 1 - |r|] == s[1..|s| - |r|];
    }
  }

  /** TrimEnd drops exactly the trailing run of spaces. */
  lemma {:induction false} TrimEndSpec(s: string)
    ensures var r := TrimEnd(s); r == s[..|r|] && AllSpace(s[|r|..])
    ensures var r := TrimEnd(s); r == [] || !IsSpace(r[|r| - 1])
  {
    if |s| > 0 && IsSpace(s[|s| - 1]) {
      var r := TrimEnd(s[..|s| - 1]);
      TrimEndSpec(s[..|s| - 1]);
      assert s[..|s| - 1][|r|..] == s[|r|..|s| - 1];
    }
  }

  /** A Trim result is the text between a run of spaces at the front and a
      run of spaces at the back, with no space at either of its own ends. */
  ghost predicate IsTrimOf(r: string, s: string) {
    && (r == [] || (!IsSpace(r[0]) && !IsSpace(r[|r| - 1])))
    && exists lo :: 0 <= lo <= lo + |r| <= |s| && s[lo..lo + |r|] == r && AllSpace(s[..lo]) && AllSpace(s[lo + |r|..])
  }

  function Trim(s: string): (r: string)
    ensures |r| <= |s|
  {
    TrimEnd(TrimStart(s))
  }

  /** trim removes a run of spaces at the front and one at the back and
      leaves no space at either end of its result. */
  lemma TrimSpec(s: string)
    ensures IsTrimOf(Trim(s), s)
  {
    var t := TrimStart(s);
    var r := TrimEnd(t);
    TrimStartSpec(s);
    TrimEndSpec(t);
    var lo := |s| - |t|;
    assert s[lo..lo + |r|] == r;
    assert s[lo + |r|..] == t[|r|..];
    if r != [] {
      assert r[0] == t[0];
    }
  }

  /** A string with no space at either end is its own trim. */
  lemma TrimOfTrimmed(s: string)
    requires s == [] || (!IsSpace(s[0]) && !IsSpace(s[|s| - 1]))
    ensures Trim(s) == s
  {
  }

  lemma TrimIdempotent(s: string)
    ensures Trim(Trim(s)) == Trim(s)
  {
    TrimSpec(s);
    TrimOfTrimmed(Trim(s));
  }

  // ---------------------------------------------------------- case folding

  function LowerChar(c: char): char {
    if 'A' <= c <= 'Z' then (c as int + 32) as char else c
  }

  function UpperChar(c: char): char {
    if 'a' <= c <= 'z' then (c as int - 32) as char else c
  }

  function ToLower(s: string): (r: string)
    ensures |r| == |s|
    ensures forall i :: 0 <= i < |s| ==> r[i] == LowerChar(s[i])
  {
    if |s| == 0 then [] else [LowerChar(s[0])] + ToLower(s[1..])
  }

  lemma ToLowerIdempotent(s: string)
    ensures ToLower(ToLower(s)) == ToLower(s)
  {
    assert forall i :: 0 <= i < |s| ==> LowerChar(LowerChar(s[i])) == LowerChar(s[i]);
  }

  /** The per-char test of String.equalsIgnoreCase: equal, or equal after
      upper-casing, or equal after upper-casing and then lower-casing. */
  predicate SameIgnoringCase(x: char, y: char) {
    x == y || UpperChar(x) == UpperChar(y) || LowerChar(UpperChar(x)) == LowerChar(UpperChar(y))
  }

  /** String.equalsIgnoreCase: same length and, position by position, the
      chars match ignoring case. */
  predicate EqualsIgnoreCase(a: string, b: string) {
    |a| == |b| && forall i :: 0 <= i < |a| ==> SameIgnoringCase(a[i], b[i])
  }

  /** For ASCII case mapping, the per-char test is equality after lower-casing. */
  lemma SameIgnoringCaseIffLower(x: char, y: char)
    ensures SameIgnoringCase(x, y) <==> LowerChar(x) == LowerChar(y)
  {
  }

  /** equalsIgnoreCase agrees with comparing the lower-cased strings. */
  lemma EqualsIgnoreCaseIffLowerEqual(a: string, b: string)
    ensures EqualsIgnoreCase(a, b) <==> ToLower(a) == ToLower(b)
  {
    if |a| == |b| {
      forall i | 0 <= i < |a|
        ensures SameIgnoringCase(a[i], b[i]) <==> ToLower(a)[i] == ToLower(b)[i]
      {
        SameIgnoringCaseIffLower(a[i], b[i]);
      }
      assert ToLower(a) == ToLower(b) <==> forall i :: 0 <= i < |a| ==> ToLower(a)[i] == ToLower(b)[i];
    }
  }

  lemma EqualsIgnoreCaseSymmetric(a: string, b: string)
    ensures EqualsIgnoreCase(a, b) == EqualsIgnoreCase(b, a)
  {
  }

  // ------------------------------------------------- prefixes and suffixes

  predicate StartsWith(s: string, prefix: string) {
    |prefix| <= |s| && s[..|prefix|] == prefix
  }

  predicate EndsWith(s: string, suffix: string) {
    |suffix| <= |s| && s[|s| - |suffix|..] == suffix
  }

  predicate OccursAt(s: string, sub: string, i: nat) {
    i + |sub| <= |s| && s[i..i + |sub|] == sub
  }

  /** String.indexOf(sub, from): the leftmost occurrence at or after from. */
  function IndexOfFrom(s: string, sub: string, from: nat): (r: Option<nat>)
    decreases |s| - from
    ensures r.Some? ==> from <= r.value && OccursAt(s, sub, r.value)
    ensures r.Some? ==> forall i :: from <= i < r.value ==> !OccursAt(s, sub, i)
    ensures r.None? ==> forall i :: from <= i ==> !OccursAt(s, sub, i)
  {
    if from + |sub| > |s| then None
    else if OccursAt(s, sub, from) then Some(from)
    else IndexOfFrom(s, sub, from + 1)
  }

  predicate Contains(s: string, sub: string) {
    IndexOfFrom(s, sub, 0).Some?
  }

  // ------------------------------------------------------------- numbers

  function DigitChar(d: nat): char
    requires d < 10
  {
    ('0' as int + d) as char
  }

  predicate IsDigit(c: char) {
    '0' <= c <= '9'
  }

  predicate AllDigits(s: string) {
    forall k :: 0 <= k < |s| ==> IsDigit(s[k])
  }

  /** Integer.toString of a non-negative number: decimal, no leading zeros. */
  function NatToString(n: nat): (r: string)
    ensures |r| > 0 && AllDigits(r)
    ensures r[0] != '0' || n == 0
  {
    if n < 10 then [DigitChar(n)] else NatToString(n / 10) + [DigitChar(n % 10)]
  }

  /** Integer.toString / String.valueOf(int). */
  function IntToString(n: int): (r: string)
    ensures |r| > 0
    ensures (r[0] == '-') <==> n < 0
  {
    if n < 0 then "-" + NatToString(-n) else NatToString(n)
  }

  /** The value of a run of decimal digits, read left to right. */
  function DigitsValue(s: string): nat
    requires AllDigits(s)
  {
    if |s| == 0 then 0 else DigitsValue(s[..|s| - 1]) * 10 + (s[|s| - 1] as int - '0' as int)
  }

  /** Integer.parseInt with radix 10: an optional '+' or '-', then one or
      more ASCII digits, and a result inside the 32-bit range; anything else
      is a NumberFormatException, here None. */
  function ParseInt(s: string): (r: Option<int>)
    ensures r.Some? ==> InInt32(r.value) && |s| > 0
    ensures r.Some? && r.value < 0 ==> s[0] == '-'
  {
    if |s| == 0 then None
    else if s[0] == '-' || s[0] == '+' then
      if |s| == 1 || !AllDigits(s[1..]) then None
      else
        var m := DigitsValue(s[1..]);
        var v: int := if s[0] == '-' then 0 - m else m;
        if InInt32(v) then Some(v) else None
    else if !AllDigits(s) then None
    else
      var v := DigitsValue(s);
      if InInt32(v) then Some(v) else None
  }

  lemma {:induction false} NatToStringDigits(n: nat)
    ensures DigitsValue(NatToString(n)) == n
  {
    if n >= 10 {
      var p := NatToString(n / 10);
      var r := p + [DigitChar(n % 10)];
      assert r[..|r| - 1] == p;
      NatToStringDigits(n / 10);
    }
  }

  /** Printing a 32-bit integer and parsing it back gives the integer. */
  lemma ParseIntRoundTrip(n: int)
    requires InInt32(n)
    ensures ParseInt(IntToString(n)) == Some(n)
  {
    if n < 0 {
      var d := NatToString(-n);
      var t := "-" + d;
      assert t[0] == '-' && t[1..] == d && |t| > 1;
      assert DigitsValue(d) == -n by { NatToStringDigits(-n); }
      assert ParseInt(t) == Some(n);
    } else {
      var d := NatToString(n);
      assert IsDigit(d[0]);
      assert DigitsValue(d) == n by { NatToStringDigits(n); }
    }
  }

  /** Text that is not a number at all is rejected, whatever it says. */
  lemma ParseIntRejectsNonDigit(s: string, k: nat)
    requires 0 < k < |s| && !IsDigit(s[k])
    ensures ParseInt(s) == None
  {
    if s[0] == '-' || s[0] == '+' {
      assert s[1..][k - 1] == s[k];
    }
  }
}
