/** The JavaScript string and number primitives the search function relies on:
    number-to-text rendering, `String.prototype.trim`, `split`/`join` on one
    separator character, the global `parseInt` without a radix, and a
    case-insensitive substring test. Strings are sequences of Unicode scalar
    values. */
module JsText {
  import opened Wrappers

  // ---------------------------------------------------------------------------
  // Digits and numerals
  // ---------------------------------------------------------------------------

  /** A digit of the given radix (10, or 16 after a `0x` prefix). */
  predicate IsRadixDigit(c: char, radix: nat) {
    ('0' <= c <= '9') || (radix == 16 && (('a' <= c <= 'f') || ('A' <= c <= 'F')))
  }

  predicate IsDigit(c: char) {
    IsRadixDigit(c, 10)
  }

  function DigitValue(c: char, radix: nat): (d: nat)
    requires IsRadixDigit(c, radix)
    ensures d < radix || (radix < 16 && d < 10)
  {
    if '0' <= c <= '9' then c as int - '0' as int
    else if 'a' <= c <= 'f' then c as int - 'a' as int + 10
    else c as int - 'A' as int + 10
  }

  function DigitChar(d: nat): (c: char)
    requires d < 10
    ensures IsDigit(c) && DigitValue(c, 10) == d
  {
    ('0' as int + d) as char
  }

  predicate AllDigits(s: string, radix: nat) {
    forall i :: 0 <= i < |s| ==> IsRadixDigit(s[i], radix)
  }

  /** The value of a run of digits, most significant first, in radix 16 or
      (for any other `radix`, as in `IsRadixDigit`) radix 10. */
  function DigitsValue(s: string, radix: nat): nat
    requires AllDigits(s, radix)
  {
    if |s| == 0 then 0
    else if radix == 16 then DigitsValue(s[..|s| - 1], radix) * 16 + DigitValue(s[|s| - 1], radix)
    else DigitsValue(s[..|s| - 1], radix) * 10 + DigitValue(s[|s| - 1], radix)
  }

  /** Decimal rendering of a natural number, as `String(n)` gives it. */
  function NatToString(n: nat): (s: string)
    ensures |s| > 0 && AllDigits(s, 10)
    ensures |s| == 1 <==> n < 10
  {
    if n < 10 then [DigitChar(n)] else NatToString(n / 10) + [DigitChar(n % 10)]
  }

  /** Decimal rendering of an integer, with a leading `-` when negative. */
  function IntToString(i: int): (s: string)
    ensures |s| > 0
    ensures i < 0 <==> s[0] == '-'
  {
    if i < 0 then "-" + NatToString(-i) else NatToString(i)
  }

  lemma {:induction false} NatToStringValue(n: nat)
    ensures DigitsValue(NatToString(n), 10) == n
    decreases n
  {
    if n >= 10 {
      var s := NatToString(n);
      assert s[..|s| - 1] == NatToString(n / 10);
      NatToStringValue(n / 10);
    }
  }

  // ---------------------------------------------------------------------------
  // Whitespace and trim
  // ---------------------------------------------------------------------------

  /** ECMAScript WhiteSpace and LineTerminator characters (what `trim` and
      `parseInt` strip). */
  predicate IsJsWhiteSpace(c: char) {
    c == '\t' || c == '\n' || c == '\U{000B}' || c == '\U{000C}' || c == '\r' || c == ' '
    || c == '\U{00A0}' || c == '\U{1680}' || ('\U{2000}' <= c <= '\U{200A}')
    || c == '\U{2028}' || c == '\U{2029}' || c == '\U{202F}' || c == '\U{205F}'
    || c == '\U{3000}' || c == '\U{FEFF}'
  }

  function TrimStart(s: string): (t: string)
    ensures |t| <= |s|
    ensures |t| > 0 ==> !IsJsWhiteSpace(t[0])
    ensures forall i :: 0 <= i < |s| - |t| ==> IsJsWhiteSpace(s[i])
  {
    if |s| > 0 && IsJsWhiteSpace(s[0]) then
      var t := TrimStart(s[1..]);
      assert forall i :: 1 <= i < |s| - |t| ==> s[i] == s[1..][i - 1];
      t
    else s
  }

  function TrimEnd(s: string): (t: string)
    ensures |t| <= |s|
    ensures |t| > 0 ==> !IsJsWhiteSpace(t[|t| - 1])
    ensures forall i :: |t| <= i < |s| ==> IsJsWhiteSpace(s[i])
  {
    if |s| > 0 && IsJsWhiteSpace(s[|s| - 1]) then TrimEnd(s[..|s| - 1]) else s
  }

  /** `String.prototype.trim`. */
  function Trim(s: string): string {
    TrimEnd(TrimStart(s))
  }

  predicate AllWhiteSpace(s: string) {
    forall i :: 0 <= i < |s| ==> IsJsWhiteSpace(s[i])
  }

  lemma {:induction false} TrimStartPadded(ws: string, d: string)
    requires AllWhiteSpace(ws) && |d| > 0 && !IsJsWhiteSpace(d[0])
    ensures TrimStart(ws + d) == d
  {
    if |ws| > 0 {
      assert (ws + d)[1..] == ws[1..] + d;
      TrimStartPadded(ws[1..], d);
    } else {
      assert ws + d == d;
    }
  }

  lemma {:induction false} TrimEndPadded(d: string, ws: string)
    requires AllWhiteSpace(ws) && |d| > 0 && !IsJsWhiteSpace(d[|d| - 1])
    ensures TrimEnd(d + ws) == d
  {
    if |ws| > 0 {
      var s := d + ws;
      assert s[..|s| - 1] == d + ws[..|ws| - 1];
      TrimEndPadded(d, ws[..|ws| - 1]);
    } else {
      assert d + ws == d;
    }
  }

  /** `trim` removes exactly the whitespace around a text that neither starts
      nor ends with whitespace. */
  lemma TrimPadded(before: string, d: string, after: string)
    requires AllWhiteSpace(before) && AllWhiteSpace(after)
    requires |d| > 0 && !IsJsWhiteSpace(d[0]) && !IsJsWhiteSpace(d[|d| - 1])
    ensures Trim(before + d + after) == d
  {
    assert before + d + after == before + (d + after);
    assert (d + after)[0] == d[0];
    TrimStartPadded(before, d + after);
    TrimEndPadded(d, after);
  }

  // ---------------------------------------------------------------------------
  // parseInt (no radix argument)
  // ---------------------------------------------------------------------------

  /** Length of the longest prefix of `s` made of digits of `radix`. */
  function DigitRun(s: string, radix: nat): (k: nat)
    ensures k <= |s| && AllDigits(s[..k], radix)
    ensures k < |s| ==> !IsRadixDigit(s[k], radix)
  {
    if |s| > 0 && IsRadixDigit(s[0], radix) then
      var k := 1 + DigitRun(s[1..], radix);
      assert s[..k] == [s[0]] + s[1..][..k - 1];
      k
    else 0
  }

  predicate HasHexPrefix(s: string) {
    |s| >= 2 && s[0] == '0' && (s[1] == 'x' || s[1] == 'X')
  }

  /** What `parseInt` reads after skipping leading whitespace and a sign. */
  function UnsignedPart(t: string): string {
    if |t| > 0 && (t[0] == '-' || t[0] == '+') then t[1..] else t
  }

  /** The value of the digits `parseInt` reads from an unsigned part, or
      `None` for `NaN`. */
  function ParseMagnitude(u: string): (r: Option<nat>)
  {
    var radix := if HasHexPrefix(u) then 16 else 10;
    var v := if radix == 16 then u[2..] else u;
    var k := DigitRun(v, radix);
    if k == 0 then None else Some(DigitsValue(v[..k], radix))
  }

  /** The global `parseInt(s)`: leading whitespace is skipped, an optional sign
      is read, a `0x`/`0X` prefix switches to radix 16, and the longest run of
      digits is converted; `None` stands for `NaN` (no digit at all). Values
      are exact: a run too long for a double is still far beyond any list
      index, which is all the callers compare it with. */
  function ParseInt(s: string): (r: Option<int>)
  {
    var t := TrimStart(s);
    match ParseMagnitude(UnsignedPart(t))
    case None => None
    case Some(m) =>
      var value: int := if |t| > 0 && t[0] == '-' then -(m as int) else m;
      Some(value)
  }

  /** A character that cannot continue a decimal numeral nor turn `0` into a
      hexadecimal prefix. */
  predicate EndsNumeral(rest: string) {
    rest == [] || (!IsDigit(rest[0]) && rest[0] != 'x' && rest[0] != 'X')
  }

  lemma DigitRunOfNumeral(n: nat, rest: string)
    requires EndsNumeral(rest)
    ensures DigitRun(NatToString(n) + rest, 10) == |NatToString(n)|
  {
    var s := NatToString(n);
    DigitRunOfDigits(s, rest);
  }

  lemma {:induction false} DigitRunOfDigits(s: string, rest: string)
    requires AllDigits(s, 10)
    requires rest == [] || !IsDigit(rest[0])
    ensures DigitRun(s + rest, 10) == |s|
  {
    if |s| > 0 {
      assert (s + rest)[1..] == s[1..] + rest;
      DigitRunOfDigits(s[1..], rest);
    } else {
      assert s + rest == rest;
    }
  }

  lemma TrimStartKeeps(s: string)
    requires |s| > 0 && !IsJsWhiteSpace(s[0])
    ensures TrimStart(s) == s
  {
  }

  /** A numeral followed by a non-digit has no whitespace, sign or `0x`
      prefix for `parseInt` to strip. */
  lemma NumeralHasNoPrefix(n: nat, rest: string)
    requires EndsNumeral(rest)
    ensures UnsignedPart(NatToString(n) + rest) == NatToString(n) + rest
    ensures !HasHexPrefix(NatToString(n) + rest)
  {
    var digits := NatToString(n);
    var s := digits + rest;
    assert s[0] == digits[0];
    if |digits| == 1 {
      assert |s| >= 2 ==> s[1] == rest[0];
    } else {
      assert s[1] == digits[1];
    }
  }

  lemma MagnitudeOfNumeral(n: nat, rest: string)
    requires EndsNumeral(rest)
    requires !HasHexPrefix(NatToString(n) + rest)
    ensures ParseMagnitude(NatToString(n) + rest) == Some(n)
  {
    var digits := NatToString(n);
    var s := digits + rest;
    DigitRunOfNumeral(n, rest);
    assert s[..|digits|] == digits;
    NatToStringValue(n);
  }

  /** `parseInt` reads back the numeral `String(n)` when it is followed by
      anything that cannot extend it. */
  lemma ParseIntOfNumeral(n: nat, rest: string)
    requires EndsNumeral(rest)
    ensures ParseInt(NatToString(n) + rest) == Some(n)
  {
    var s := NatToString(n) + rest;
    assert s[0] == NatToString(n)[0];
    TrimStartKeeps(s);
    NumeralHasNoPrefix(n, rest);
    MagnitudeOfNumeral(n, rest);
  }

  // ---------------------------------------------------------------------------
  // Reading a signed decimal back (partner of IntToString)
  // ---------------------------------------------------------------------------

  /** Reads a non-empty run of decimal digits at the start of `u`, returning
      its value and what follows. */
  function ScanNat(u: string): (r: Option<(nat, string)>)
    ensures r.Some? ==> |r.value.1| < |u| && r.value.1 == u[|u| - |r.value.1|..]
  {
    var k := DigitRun(u, 10);
    if k == 0 then None else Some((DigitsValue(u[..k], 10), u[k..]))
  }

  /** Reads an optional `-` and a non-empty run of decimal digits at the start
      of `s`, returning the value and what follows. */
  function ScanInt(s: string): (r: Option<(int, string)>)
    ensures r.Some? ==> |r.value.1| < |s| && r.value.1 == s[|s| - |r.value.1|..]
  {
    if |s| > 0 && s[0] == '-' then
      match ScanNat(s[1..])
      case None => None
      case Some((m, rest)) =>
        assert s[1..][|s| - 1 - |rest|..] == s[|s| - |rest|..];
        Some((-(m as int), rest))
    else
      match ScanNat(s)
      case None => None
      case Some((m, rest)) => Some((m as int, rest))
  }

  lemma ScanUnsigned(m: nat, rest: string)
    requires rest == [] || !IsDigit(rest[0])
    ensures ScanNat(NatToString(m) + rest) == Some((m, rest))
  {
    var digits := NatToString(m);
    var u := digits + rest;
    DigitRunOfDigits(digits, rest);
    assert u[..|digits|] == digits;
    assert u[|digits|..] == rest;
    NatToStringValue(m);
  }

  /** The decimal digits of `m`, then a non-digit, scan as `m`. */
  lemma ScanPlain(m: nat, rest: string)
    requires rest == [] || !IsDigit(rest[0])
    ensures ScanInt(NatToString(m) + rest) == Some((m as int, rest))
  {
    var digits := NatToString(m);
    ScanUnsigned(m, rest);
    assert IsDigit(digits[0]) && (digits + rest)[0] == digits[0];
  }

  /** A `-` in front of what scans as `m` scans as `-m`. */
  lemma ScanNegated(u: string, m: nat, rest: string)
    requires ScanNat(u) == Some((m, rest))
    ensures ScanInt("-" + u) == Some((-(m as int), rest))
  {
    assert ("-" + u)[1..] == u;
  }

  /** A `-`, the decimal digits of `m`, then a non-digit, scan as `-m`. */
  lemma ScanNegative(m: nat, rest: string)
    requires rest == [] || !IsDigit(rest[0])
    ensures ScanInt("-" + NatToString(m) + rest) == Some((-(m as int), rest))
  {
    var u := NatToString(m) + rest;
    ScanUnsigned(m, rest);
    ScanNegated(u, m, rest);
    assert "-" + NatToString(m) + rest == "-" + u;
  }

  /** `ScanInt` reads back what `IntToString` renders. */
  lemma ScanIntOfIntToString(i: int, rest: string)
    requires rest == [] || !IsDigit(rest[0])
    ensures ScanInt(IntToString(i) + rest) == Some((i, rest))
  {
    if i < 0 {
      ScanNegative(-i, rest);
    } else {
      ScanPlain(i, rest);
    }
  }

  // ---------------------------------------------------------------------------
  // indexOf / lastIndexOf
  // ---------------------------------------------------------------------------

  /** Index of the first occurrence of `c` in `s`. */
  function IndexOf(s: string, c: char): (r: Option<nat>)
    ensures r.Some? ==> r.value < |s| && s[r.value] == c && forall k :: 0 <= k < r.value ==> s[k] != c
    ensures r.None? ==> c !in s
  {
    if |s| == 0 then None
    else if s[0] == c then Some(0)
    else match IndexOf(s[1..], c)
      case None => None
      case Some(i) => Some(i + 1)
  }

  /** Index of the last occurrence of `c` in `s`. */
  function LastIndexOf(s: string, c: char): (r: Option<nat>)
    ensures r.Some? ==> r.value < |s| && s[r.value] == c && forall k :: r.value < k < |s| ==> s[k] != c
    ensures r.None? ==> c !in s
  {
    if |s| == 0 then None
    else if s[|s| - 1] == c then Some(|s| - 1)
    else
      LastIndexOf(s[..|s| - 1], c)
  }

  lemma IndexOfAfter(a: string, c: char, b: string)
    requires c !in a
    ensures IndexOf(a + [c] + b, c) == Some(|a|)
  {
    var s := a + [c] + b;
    assert s[|a|] == c;
    assert forall k :: 0 <= k < |a| ==> s[k] == a[k];
    assert c in s;
  }

  // ---------------------------------------------------------------------------
  // split / join on one separator character
  // ---------------------------------------------------------------------------

  /** `s.split(sep)` for a one-character separator: the pieces between
      separators, always at least one (`"".split(",")` is `[""]`). */
  function Split(s: string, sep: char): (parts: seq<string>)
    ensures |parts| > 0
    ensures forall i :: 0 <= i < |parts| ==> sep !in parts[i]
  {
    if |s| == 0 then [""]
    else
      var rest := Split(s[1..], sep);
      if s[0] == sep then [""] + rest
      else [[s[0]] + rest[0]] + rest[1..]
  }

  /** `parts.join(sep)`. */
  function Join(parts: seq<string>, sep: char): string {
    if |parts| == 0 then ""
    else if |parts| == 1 then parts[0]
    else parts[0] + [sep] + Join(parts[1..], sep)
  }

  lemma {:induction false} SplitWithout(s: string, sep: char)
    requires sep !in s
    ensures Split(s, sep) == [s]
  {
    if |s| > 0 {
      SplitWithout(s[1..], sep);
      assert [s[0]] + s[1..] == s;
    }
  }

  /** Splitting distributes over a separator between two strings. */
  lemma {:induction false} SplitAround(a: string, sep: char, b: string)
    ensures Split(a + [sep] + b, sep) == Split(a, sep) + Split(b, sep)
  {
    if |a| == 0 {
      assert a + [sep] + b == [sep] + b;
      assert ([sep] + b)[1..] == b;
    } else {
      var s := a + [sep] + b;
      assert s[0] == a[0];
      assert s[1..] == a[1..] + [sep] + b;
      SplitAround(a[1..], sep, b);
    }
  }

  /** Concatenation of a sequence of sequences. */
  function Flatten<T>(xss: seq<seq<T>>): seq<T> {
    if |xss| == 0 then [] else xss[0] + Flatten(xss[1..])
  }

  /** Splitting a join yields the splits of the joined pieces, in order. */
  lemma {:induction false} SplitJoin(parts: seq<string>, sep: char)
    requires |parts| > 0
    ensures Split(Join(parts, sep), sep) == Flatten(seq(|parts|, i requires 0 <= i < |parts| => Split(parts[i], sep)))
  {
    var pieces := seq(|parts|, i requires 0 <= i < |parts| => Split(parts[i], sep));
    if |parts| == 1 {
      assert Flatten(pieces[1..]) == [];
    } else {
      SplitJoin(parts[1..], sep);
      SplitAround(parts[0], sep, Join(parts[1..], sep));
      assert pieces[1..] == seq(|parts[1..]|, i requires 0 <= i < |parts[1..]| => Split(parts[1..][i], sep));
    }
  }

  /** `split` undoes `join` when no piece contains the separator. */
  lemma {:induction false} SplitOfJoin(parts: seq<string>, sep: char)
    requires |parts| > 0
    requires forall i :: 0 <= i < |parts| ==> sep !in parts[i]
    ensures Split(Join(parts, sep), sep) == parts
  {
    if |parts| > 1 {
      SplitOfJoin(parts[1..], sep);
      SplitAround(parts[0], sep, Join(parts[1..], sep));
    }
    SplitWithout(parts[0], sep);
  }

  // ---------------------------------------------------------------------------
  // Case-insensitive containment
  // ---------------------------------------------------------------------------

  /** ASCII lower-casing of one character. */
  function LowerChar(c: char): char {
    if 'A' <= c <= 'Z' then (c as int + 32) as char else c
  }

  function Lower(s: string): (t: string)
    ensures |t| == |s| && forall i :: 0 <= i < |s| ==> t[i] == LowerChar(s[i])
  {
    seq(|s|, i requires 0 <= i < |s| => LowerChar(s[i]))
  }

  /** `k` occurs in `t` as a contiguous piece. */
  predicate Contains(t: string, k: string) {
    k <= t || (|t| > 0 && Contains(t[1..], k))
  }

  /** SQL `ILIKE '%k%'` intent: `t` contains `k`, ignoring ASCII case. */
  predicate ContainsIgnoringCase(t: string, k: string) {
    Contains(Lower(t), Lower(k))
  }
}
