/**
 * The C library text conversions the core relies on: `strtoll`/`atoi`
 * (decimal parsing), `snprintf("%d")` and `"%.2d"` (decimal rendering) and
 * the first token of `strtok`.
 */
module CText {
  import opened Host

  predicate IsDigit(c: char)
  {
    '0' <= c <= '9'
  }

  predicate AllDigits(s: string)
  {
    forall i :: 0 <= i < |s| ==> IsDigit(s[i])
  }

  /** The characters C's isspace() accepts in the "C" locale. */
  predicate IsSpace(c: char)
  {
    c == ' ' || c == '\t' || c == '\n' || c == '\r' || c == '\U{B}' || c == '\U{C}'
  }

  function DigitChar(d: nat): (c: char)
    requires d < 10
    ensures IsDigit(c)
  {
    ('0' as int + d) as char
  }

  function DigitValue(c: char): (d: nat)
    requires IsDigit(c)
    ensures d < 10
  {
    (c as int - '0' as int)
  }

  /** The value of a string of decimal digits, read most significant first. */
  function DigitsValue(s: string): nat
    requires AllDigits(s)
  {
    if s == [] then 0 else DigitsValue(s[..|s| - 1]) * 10 + DigitValue(s[|s| - 1])
  }

  /** `snprintf("%d")` of a non-negative number. */
  function Decimal(n: nat): (s: string)
    ensures |s| > 0 && AllDigits(s)
  {
    if n < 10 then [DigitChar(n)] else Decimal(n / 10) + [DigitChar(n % 10)]
  }

  /** `snprintf("%d")` of any int. */
  function IntToString(i: int): (s: string)
    ensures |s| > 0
  {
    if i < 0 then "-" + Decimal(-i) else Decimal(i)
  }

  /** `snprintf("%.2d")` of a non-negative number: at least two digits. */
  function Pad2(n: nat): (s: string)
    ensures |s| >= 2 && AllDigits(s)
  {
    if n < 10 then "0" + Decimal(n) else Decimal(n)
  }

  function SkipSpaces(s: string): (r: string)
    ensures |r| <= |s|
    ensures r == s[|s| - |r|..]
    ensures r == [] || !IsSpace(r[0])
  {
    if s != [] && IsSpace(s[0]) then SkipSpaces(s[1..]) else s
  }

  /** The longest prefix of `s` made of decimal digits. */
  function LeadingDigits(s: string): (r: string)
    ensures AllDigits(r) && r <= s
    ensures |r| < |s| ==> !IsDigit(s[|r|])
  {
    if s != [] && IsDigit(s[0]) then [s[0]] + LeadingDigits(s[1..]) else []
  }

  /**
   * `strtol(s, NULL, 10)` with unbounded range: leading white space, an
   * optional sign, then as many digits as follow; 0 when there are none.
   * `atoi` is this function.
   */
  function StrToL(s: string): int
  {
    var t := SkipSpaces(s);
    if t != [] && t[0] == '-' then -(DigitsValue(LeadingDigits(t[1..])) as int)
    else if t != [] && t[0] == '+' then DigitsValue(LeadingDigits(t[1..]))
    else DigitsValue(LeadingDigits(t))
  }

  const LLongMax: int := 0x7FFF_FFFF_FFFF_FFFF
  const LLongMin: int := -0x8000_0000_0000_0000

  /** `strtoll(s, NULL, 10)`: StrToL saturated to the range of `long long`. */
  function StrToLL(s: string): (r: int)
    ensures LLongMin <= r <= LLongMax
    ensures LLongMin <= StrToL(s) <= LLongMax ==> r == StrToL(s)
  {
    var v := StrToL(s);
    if v > LLongMax then LLongMax else if v < LLongMin then LLongMin else v
  }

  /** Drops the leading characters of `s` that are in `delims`. */
  function SkipIn(s: string, delims: set<char>): (r: string)
    ensures |r| <= |s|
    ensures r == s[|s| - |r|..]
    ensures r == [] || r[0] !in delims
  {
    if s != [] && s[0] in delims then SkipIn(s[1..], delims) else s
  }

  /** The longest prefix of `s` with no character in `delims`. */
  function TakeUntil(s: string, delims: set<char>): (r: string)
    ensures r <= s
    ensures forall i :: 0 <= i < |r| ==> r[i] !in delims
    ensures |r| < |s| ==> s[|r|] in delims
  {
    if s != [] && s[0] !in delims then [s[0]] + TakeUntil(s[1..], delims) else []
  }

  /** `strncmp(p, s, strlen(p)) == 0`: `s` starts with `p`. */
  predicate StartsWith(s: string, p: string)
  {
    |p| == 0 || (|s| > 0 && s[0] == p[0] && StartsWith(s[1..], p[1..]))
  }

  /** The first token `strtok(s, delims)` returns, None for NULL. */
  function StrtokFirst(s: string, delims: set<char>): (r: Option<string>)
    ensures r.Some? ==> |r.value| > 0
  {
    var t := SkipIn(s, delims);
    if t == [] then None else Some(TakeUntil(t, delims))
  }

  // ---------------------------------------------------------------------
  // Round trips between rendering and parsing.

  lemma {:induction false} DecimalValue(n: nat)
    ensures DigitsValue(Decimal(n)) == n
  {
    if n >= 10 {
      var s := Decimal(n);
      assert s[..|s| - 1] == Decimal(n / 10);
      DecimalValue(n / 10);
    }
  }

  /** A leading zero does not change the value of a digit string. */
  lemma {:induction false} LeadingZeroValue(s: string)
    requires AllDigits(s)
    ensures AllDigits("0" + s) && DigitsValue("0" + s) == DigitsValue(s)
  {
    var z := "0" + s;
    assert AllDigits(z) by {
      forall i | 0 <= i < |z| ensures IsDigit(z[i]) {
        if i > 0 { assert z[i] == s[i - 1]; }
      }
    }
    if s != [] {
      var p := s[..|s| - 1];
      assert z[..|z| - 1] == "0" + p;
      LeadingZeroValue(p);
    }
  }

  lemma {:induction false} LeadingDigitsOfDigits(s: string)
    requires AllDigits(s)
    ensures LeadingDigits(s) == s
  {
    if s != [] {
      LeadingDigitsOfDigits(s[1..]);
    }
  }

  /** Parsing what "%.2d" printed gives the number back. */
  lemma Pad2RoundTrip(n: nat)
    ensures StrToL(Pad2(n)) == n
  {
    var s := Pad2(n);
    assert SkipSpaces(s) == s;
    LeadingDigitsOfDigits(s);
    DecimalValue(n);
    if n < 10 {
      LeadingZeroValue(Decimal(n));
    }
  }

  lemma DecimalInjective(m: nat, n: nat)
    requires Decimal(m) == Decimal(n)
    ensures m == n
  {
    DecimalValue(m);
    DecimalValue(n);
  }

  /** Different ints print differently under "%d". */
  lemma IntToStringInjective(i: int, j: int)
    requires IntToString(i) == IntToString(j)
    ensures i == j
  {
    assert IntToString(i)[0] == '-' <==> i < 0;
    assert IntToString(j)[0] == '-' <==> j < 0;
    if i < 0 {
      assert Decimal(-i) == IntToString(i)[1..];
      DecimalInjective(-i, -j);
    } else {
      DecimalInjective(i, j);
    }
  }

  /** Skipping delimiters over a prefix made of delimiters. */
  lemma {:induction false} SkipInPrefix(p: string, s: string, delims: set<char>)
    requires forall i :: 0 <= i < |p| ==> p[i] in delims
    ensures SkipIn(p + s, delims) == SkipIn(s, delims)
  {
    if p != [] {
      assert p[0] in delims;
      assert (p + s)[0] == p[0] && (p + s)[1..] == p[1..] + s;
      SkipInPrefix(p[1..], s, delims);
    } else {
      assert p + s == s;
    }
  }

  lemma {:induction false} TakeUntilAll(s: string, delims: set<char>)
    requires forall i :: 0 <= i < |s| ==> s[i] !in delims
    ensures TakeUntil(s, delims) == s
  {
    if s != [] {
      TakeUntilAll(s[1..], delims);
    }
  }

  /** StartsWith is the prefix relation. */
  lemma {:induction false} StartsWithPrefix(s: string, p: string)
    ensures StartsWith(s, p) <==> p <= s
  {
    if |p| > 0 && |s| > 0 {
      StartsWithPrefix(s[1..], p[1..]);
      if p <= s {
        assert p[1..] <= s[1..];
      }
    }
  }
}
