/** The string primitives the extractor leans on: Python's `str.strip`,
    `str.startswith`, the `in` substring test, `s.split('-')[-1]`, the
    decimal rendering of an index in an f-string, and `int()` on a string. */
module Strings {
  import opened Wrappers

  /** Python's `str.isspace` for one character: the ASCII controls TAB..CR,
      the separators U+001C..U+001F, SPACE, NEL, NO-BREAK SPACE and the
      Unicode space separators. */
  predicate IsSpace(c: char) {
    || ('\t' <= c <= '\r')
    || ('\U{1C}' <= c <= '\U{1F}')
    || c == ' ' || c == '\U{85}' || c == '\U{A0}' || c == '\U{1680}'
    || ('\U{2000}' <= c <= '\U{200A}')
    || c == '\U{2028}' || c == '\U{2029}' || c == '\U{202F}'
    || c == '\U{205F}' || c == '\U{3000}'
  }

  predicate AllSpace(s: string) {
    forall i :: 0 <= i < |s| ==> IsSpace(s[i])
  }

  lemma AllSpaceAppend(a: string, b: string)
    ensures AllSpace(a + b) <==> AllSpace(a) && AllSpace(b)
  {
    if AllSpace(a) && AllSpace(b) {
      forall i | 0 <= i < |a + b|
        ensures IsSpace((a + b)[i])
      {
        if i >= |a| { assert (a + b)[i] == b[i - |a|]; }
      }
    }
    if AllSpace(a + b) {
      forall i | 0 <= i < |a|
        ensures IsSpace(a[i])
      {
        assert (a + b)[i] == a[i];
      }
      forall i | 0 <= i < |b|
        ensures IsSpace(b[i])
      {
        assert (a + b)[|a| + i] == b[i];
      }
    }
  }

  /** Drops leading whitespace. */
  function TrimStart(s: string): (r: string)
    ensures |r| <= |s| && r == s[|s| - |r|..]
    ensures AllSpace(s[..|s| - |r|])
    ensures r == [] || !IsSpace(r[0])
  {
    if |s| > 0 && IsSpace(s[0]) then
      var t := s[1..];
      var r := TrimStart(t);
      assert s[|s| - |r|..] == t[|t| - |r|..];
      assert s[..|s| - |r|] == [s[0]] + t[..|t| - |r|];
      AllSpaceAppend([s[0]], t[..|t| - |r|]);
      r
    else s
  }

  /** Drops trailing whitespace. */
  function TrimEnd(s: string): (r: string)
    ensures |r| <= |s| && r == s[..|r|]
    ensures AllSpace(s[|r|..])
    ensures r == [] || !IsSpace(r[|r| - 1])
  {
    if |s| > 0 && IsSpace(s[|s| - 1]) then
      var t := s[..|s| - 1];
      var r := TrimEnd(t);
      assert t[..|r|] == s[..|r|];
      assert s[|r|..] == t[|r|..] + [s[|s| - 1]];
      AllSpaceAppend(t[|r|..], [s[|s| - 1]]);
      r
    else s
  }

  /** Python's `s.strip()`: the infix of `s` left after removing the
      whitespace at both ends. */
  function Strip(s: string): string {
    TrimEnd(TrimStart(s))
  }

  /** What `Strip` promises: it empties exactly the all-whitespace strings,
      leaves no whitespace at either end, and leaves a string without
      whitespace at its ends as it is. */
  lemma {:induction false} StripSpec(s: string)
    ensures Strip(s) == [] <==> AllSpace(s)
    ensures Strip(s) != [] ==> !IsSpace(Strip(s)[0]) && !IsSpace(Strip(s)[|Strip(s)| - 1])
    ensures |s| > 0 && !IsSpace(s[0]) && !IsSpace(s[|s| - 1]) ==> Strip(s) == s
  {
    StripEmptyIffSpace(s, TrimStart(s));
  }

  /** Stripping twice is stripping once. */
  lemma {:induction false} StripStable(s: string)
    ensures Strip(Strip(s)) == Strip(s)
  {
    StripSpec(s);
    StripSpec(Strip(s));
    if Strip(s) == [] {
      assert AllSpace(Strip(s));
    }
  }

  lemma {:induction false} StripEmptyIffSpace(s: string, t: string)
    requires t == TrimStart(s)
    ensures TrimEnd(t) == [] <==> AllSpace(s)
  {
    var k := |s| - |t|;
    var r := TrimEnd(t);
    if r == [] {
      assert t[|r|..] == t;
      assert t == [];
      assert s[..k] == s;
    } else {
      assert t[|r| - 1] == r[|r| - 1];
      assert s[k + |r| - 1] == t[|r| - 1];
    }
  }

  /** Every character `Strip` keeps comes from its argument. */
  lemma {:induction false} StripKeepsCharacters(s: string, i: int)
    requires 0 <= i < |Strip(s)|
    ensures Strip(s)[i] in s
  {
    var t := TrimStart(s);
    var r := TrimEnd(t);
    assert Strip(s) == r;
    var k := |s| - |t|;
    assert t == s[k..];
    assert r == t[..|r|];
    assert r[i] == s[k + i];
  }

  /** Python's `s.startswith(p)` for a single prefix. */
  predicate StartsWith(s: string, p: string) {
    |p| <= |s| && s[..|p|] == p
  }

  /** `sub` occurs in `s` starting at position `i`. */
  predicate OccursAt(s: string, sub: string, i: int) {
    0 <= i <= |s| - |sub| && s[i..i + |sub|] == sub
  }

  /** Python's `sub in s`. */
  function Contains(s: string, sub: string): (b: bool)
    ensures b <==> exists i :: OccursAt(s, sub, i)
    decreases |s|
  {
    if StartsWith(s, sub) then
      assert OccursAt(s, sub, 0);
      true
    else if |s| == 0 then false
    else
      var b := Contains(s[1..], sub);
      OccursShift(s, sub);
      b
  }

  /** An occurrence away from the front of `s` is an occurrence in `s[1..]`. */
  lemma OccursShift(s: string, sub: string)
    requires |s| > 0 && !StartsWith(s, sub)
    ensures (exists i :: OccursAt(s, sub, i)) <==> (exists i :: OccursAt(s[1..], sub, i))
  {
    if i :| OccursAt(s, sub, i) {
      if i == 0 {
        assert false;
      }
      TailSlice(s, i, |sub|);
      assert OccursAt(s[1..], sub, i - 1);
    }
    if i :| OccursAt(s[1..], sub, i) {
      TailSlice(s, i + 1, |sub|);
      assert OccursAt(s, sub, i + 1);
    }
  }

  lemma {:induction false} TailSlice(s: string, i: int, n: nat)
    requires 1 <= i && i + n <= |s|
    ensures s[1..][i - 1..i - 1 + n] == s[i..i + n]
  {
    var a := s[1..][i - 1..i - 1 + n];
    var b := s[i..i + n];
    assert |a| == |b|;
    forall k | 0 <= k < n ensures a[k] == b[k] {
      assert a[k] == s[1..][i - 1 + k] == s[i + k];
    }
  }

  /** Python's `s.split('-')[-1]`: the text after the last dash, or all of
      `s` when it has none. */
  function AfterLastDash(s: string): (r: string)
    ensures '-' !in r
    ensures |r| <= |s| && r == s[|s| - |r|..]
    ensures |r| < |s| ==> s[|s| - |r| - 1] == '-'
  {
    if |s| == 0 then ""
    else if s[|s| - 1] == '-' then ""
    else AfterLastDash(s[..|s| - 1]) + [s[|s| - 1]]
  }

  predicate IsDigit(c: char) {
    '0' <= c <= '9'
  }

  function DigitChar(d: nat): (c: char)
    requires d < 10
    ensures IsDigit(c) && c as int - '0' as int == d
  {
    ('0' as int + d) as char
  }

  /** A non-negative integer in decimal, as an f-string renders it. */
  function Decimal(n: nat): (r: string)
    ensures |r| > 0
    ensures forall i :: 0 <= i < |r| ==> IsDigit(r[i])
    ensures |r| > 1 ==> r[0] != '0'
  {
    if n < 10 then [DigitChar(n)] else Decimal(n / 10) + [DigitChar(n % 10)]
  }

  /** The body of a base-10 integer literal that Python's `int()` accepts:
      ASCII digits, where an underscore may stand only between two digits. */
  predicate IsDigitGroups(b: string) {
    && |b| > 0
    && forall i :: 0 <= i < |b| ==> GroupChar(b, i)
  }

  /** Position `i` of `b` holds a digit, or an underscore between two
      digits. */
  predicate GroupChar(b: string, i: nat)
    requires i < |b|
  {
    IsDigit(b[i]) || (b[i] == '_' && 0 < i && i + 1 < |b| && IsDigit(b[i + 1]))
  }

  /** The value of one character read as a decimal digit. */
  function DigitValue(c: char): (d: nat)
    ensures IsDigit(c) ==> d == c as int - '0' as int
  {
    if IsDigit(c) then c as int - '0' as int else 0
  }

  /** The value of the digits of `b`, ignoring underscores. */
  function DigitsValue(b: string): nat {
    if |b| == 0 then 0
    else if b[|b| - 1] == '_' then DigitsValue(b[..|b| - 1])
    else 10 * DigitsValue(b[..|b| - 1]) + DigitValue(b[|b| - 1])
  }

  /** Python's `int(s)` with base 10: surrounding whitespace is ignored, one
      optional sign, then digit groups; anything else raises `ValueError`,
      modelled as `None`. A string without a dash never yields a negative. */
  function ParseInt(s: string): (r: Option<int>)
    ensures r.Some? ==> Strip(s) != ""
    ensures '-' !in s && r.Some? ==> r.value >= 0
  {
    var t := Strip(s);
    if |t| > 0 && (t[0] == '+' || t[0] == '-') then
      var body := t[1..];
      if IsDigitGroups(body) then
        var v: int := DigitsValue(body);
        StripSpec(s);
        StripKeepsCharacters(s, 0);
        Some(if t[0] == '-' then -v else v)
      else None
    else if IsDigitGroups(t) then Some(DigitsValue(t))
    else None
  }

  /** `t` is an integer literal `int()` accepts, split into its sign (none,
      `+` or `-`) and its digit groups. */
  predicate SignedDigits(t: string, sign: string, body: string) {
    && |sign| <= 1
    && (|sign| == 1 ==> sign[0] == '+' || sign[0] == '-')
    && t == sign + body
    && IsDigitGroups(body)
  }

  /** `t` is an integer literal `int()` accepts. */
  ghost predicate IsIntLiteral(t: string) {
    exists sign, body :: SignedDigits(t, sign, body)
  }

  /** The number a literal with this sign and these digits stands for. */
  function SignedValue(sign: string, body: string): int {
    var v: int := DigitsValue(body);
    if |sign| == 1 && sign[0] == '-' then -v else v
  }

  /** `int()` accepts a text exactly when, once stripped, it is an optional
      sign followed by digit groups; `ParseIntReads` gives the value. */
  lemma ParseIntSpec(s: string)
    ensures ParseInt(s).Some? <==> IsIntLiteral(Strip(s))
  {
    if ParseInt(s).Some? {
      ParseIntLiteral(s);
    }
    if sign, body :| SignedDigits(Strip(s), sign, body) {
      ParseIntReads(s, sign, body);
    }
  }

  lemma ParseIntLiteral(s: string)
    requires ParseInt(s).Some?
    ensures IsIntLiteral(Strip(s))
  {
    var t := Strip(s);
    if |t| > 0 && (t[0] == '+' || t[0] == '-') {
      var sign, body := t[..1], t[1..];
      assert t == sign + body;
      assert SignedDigits(t, sign, body);
    } else {
      assert t == [] + t;
      assert SignedDigits(t, [], t);
    }
  }

  /** A text `int()` accepts is worth its signed digits. */
  lemma ParseIntReads(s: string, sign: string, body: string)
    requires SignedDigits(Strip(s), sign, body)
    ensures ParseInt(s) == Some(SignedValue(sign, body))
  {
    var t := Strip(s);
    assert GroupChar(body, 0);
    if |sign| == 0 {
      assert t == body;
    } else {
      assert t[0] == sign[0] && t[1..] == body;
    }
  }

  /** `strip` keeps a first character that is not whitespace. */
  lemma StripKeepsFirst(s: string)
    requires |s| > 0 && !IsSpace(s[0])
    ensures |Strip(s)| > 0 && Strip(s)[0] == s[0]
  {
    var t := TrimStart(s);
    assert t == s;
    assert |TrimEnd(t)| > 0;
  }

  /** `int()` rejects a text whose first character is neither whitespace, a
      digit nor a sign. */
  lemma ParseIntRejects(s: string)
    requires |s| > 0 && !IsSpace(s[0]) && !IsDigit(s[0]) && s[0] != '+' && s[0] != '-'
    ensures ParseInt(s).None?
  {
    StripKeepsFirst(s);
    var t := Strip(s);
    assert !GroupChar(t, 0);
  }

  lemma {:induction false} DecimalValue(n: nat)
    ensures DigitsValue(Decimal(n)) == n
  {
    if n >= 10 {
      var d := Decimal(n);
      assert d[..|d| - 1] == Decimal(n / 10);
      DecimalValue(n / 10);
    }
  }

  /** `int()` reads back exactly the number a decimal rendering wrote. */
  lemma DecimalRoundTrip(n: nat)
    ensures ParseInt(Decimal(n)) == Some(n)
  {
    var d := Decimal(n);
    assert IsDigit(d[0]) && IsDigit(d[|d| - 1]);
    StripSpec(d);
    assert Strip(d) == d;
    assert d[0] != '+' && d[0] != '-';
    assert IsDigitGroups(d);
    DecimalValue(n);
  }

  /** Distinct numbers render as distinct strings. */
  lemma DecimalInjective(m: nat, n: nat)
    requires Decimal(m) == Decimal(n)
    ensures m == n
  {
    DecimalRoundTrip(m);
    DecimalRoundTrip(n);
  }
}
