/**
 * The handful of Python `str` built-ins the setup script relies on, stated
 * over ASCII.  Each function mirrors one built-in (`strip`, `startswith`,
 * `removesuffix`, `partition`, `split(...)[-1]`, `lower`, `ljust`, slicing,
 * `str(int)` and `int(str)`), so the models of the script can be written in
 * the same terms as the source.
 */
module PyStr {
  import opened Wrappers

  /** `str.isspace()` on the ASCII range. */
  predicate IsSpace(c: char) {
    c == ' ' || c == '\t' || c == '\n' || c == '\r' || c == '\U{0B}' || c == '\U{0C}'
    || ('\U{1C}' <= c <= '\U{1F}')
  }

  /** `str.isdigit()` / regex `\d` on the ASCII range. */
  predicate IsDigit(c: char) {
    '0' <= c <= '9'
  }

  predicate IsUpper(c: char) {
    'A' <= c <= 'Z'
  }

  predicate IsLower(c: char) {
    'a' <= c <= 'z'
  }

  /** `str.lower()` on one ASCII character. */
  function Lower(c: char): (r: char)
    ensures IsUpper(c) ==> IsLower(r)
    ensures !IsUpper(c) ==> r == c
  {
    if IsUpper(c) then (c as int + 32) as char else c
  }

  /** `str.swapcase()` on one ASCII character. */
  function SwapCase(c: char): (r: char)
    ensures IsUpper(c) ==> IsLower(r)
    ensures IsLower(c) ==> IsUpper(r)
    ensures !IsUpper(c) && !IsLower(c) ==> r == c
  {
    if IsUpper(c) then (c as int + 32) as char
    else if IsLower(c) then (c as int - 32) as char
    else c
  }

  function LowerStr(s: string): (r: string)
    ensures |r| == |s|
    ensures forall i :: 0 <= i < |s| ==> r[i] == Lower(s[i])
  {
    seq(|s|, i requires 0 <= i < |s| => Lower(s[i]))
  }

  function SwapCaseStr(s: string): (r: string)
    ensures |r| == |s|
    ensures forall i :: 0 <= i < |s| ==> r[i] == SwapCase(s[i])
  {
    seq(|s|, i requires 0 <= i < |s| => SwapCase(s[i]))
  }

  /** `str.lstrip()` with no argument. */
  function LStrip(s: string): (r: string)
    ensures |r| <= |s| && r == s[|s| - |r|..]
    ensures forall i :: 0 <= i < |s| - |r| ==> IsSpace(s[i])
    ensures r == [] || !IsSpace(r[0])
  {
    if |s| > 0 && IsSpace(s[0]) then LStrip(s[1..]) else s
  }

  /** `str.rstrip()` with no argument. */
  function RStrip(s: string): (r: string)
    ensures |r| <= |s| && r == s[..|r|]
    ensures forall i :: |r| <= i < |s| ==> IsSpace(s[i])
    ensures r == [] || !IsSpace(r[|r| - 1])
  {
    if |s| > 0 && IsSpace(s[|s| - 1]) then RStrip(s[..|s| - 1]) else s
  }

  /** `str.strip()` with no argument. */
  function Strip(s: string): string {
    RStrip(LStrip(s))
  }

  predicate StartsWith(s: string, prefix: string) {
    |prefix| <= |s| && s[..|prefix|] == prefix
  }

  predicate EndsWith(s: string, suffix: string) {
    |suffix| <= |s| && s[|s| - |suffix|..] == suffix
  }

  /** `str.removeprefix(prefix)`. */
  function RemovePrefix(s: string, prefix: string): (r: string)
    ensures StartsWith(s, prefix) ==> s == prefix + r
    ensures !StartsWith(s, prefix) ==> r == s
  {
    if StartsWith(s, prefix) then s[|prefix|..] else s
  }

  /** `str.removesuffix(suffix)`. */
  function RemoveSuffix(s: string, suffix: string): (r: string)
    ensures EndsWith(s, suffix) ==> s == r + suffix
    ensures !EndsWith(s, suffix) ==> r == s
  {
    if EndsWith(s, suffix) then s[..|s| - |suffix|] else s
  }

  /** Index of the first occurrence of `c` in `s`. */
  function IndexOf(s: string, c: char): (r: Option<nat>)
    ensures r.Some? ==> r.value < |s| && s[r.value] == c && c !in s[..r.value]
    ensures r.None? ==> c !in s
  {
    if |s| == 0 then None
    else if s[0] == c then Some(0)
    else match IndexOf(s[1..], c)
      case None => None
      case Some(k) =>
        assert s[..k + 1] == [s[0]] + s[1..][..k];
        Some(k + 1)
  }

  /** Index of the last occurrence of `c` in `s`. */
  function LastIndexOf(s: string, c: char): (r: Option<nat>)
    ensures r.Some? ==> r.value < |s| && s[r.value] == c && c !in s[r.value + 1..]
    ensures r.None? ==> c !in s
  {
    if |s| == 0 then None
    else if s[|s| - 1] == c then Some(|s| - 1)
    else match LastIndexOf(s[..|s| - 1], c)
      case None => None
      case Some(k) =>
        assert s[k + 1..] == s[..|s| - 1][k + 1..] + [s[|s| - 1]];
        Some(k)
  }

  /** `str.partition(sep)` for a one-character separator: (head, found, tail). */
  function Partition(s: string, sep: char): (r: (string, bool, string))
    ensures r.1 ==> s == r.0 + [sep] + r.2
    ensures !r.1 ==> r.0 == s && r.2 == ""
    ensures sep !in r.0
  {
    match IndexOf(s, sep)
    case None => (s, false, "")
    case Some(k) =>
      assert s == s[..k] + [sep] + s[k + 1..];
      (s[..k], true, s[k + 1..])
  }

  /** `s.split(sep)[-1]` for a one-character separator: the text after the last `sep`. */
  function LastSegment(s: string, sep: char): (r: string)
    ensures sep !in r
    ensures EndsWith(s, r)
  {
    match LastIndexOf(s, sep)
    case None => s
    case Some(k) => s[k + 1..]
  }

  /** `s[0:width]` for a non-negative width. */
  function Take(s: string, width: nat): (r: string)
    ensures |r| <= width && |r| <= |s|
    ensures r == s[..|r|]
    ensures |s| <= width ==> r == s
  {
    if |s| <= width then s else s[..width]
  }

  function Spaces(n: nat): (r: string)
    ensures |r| == n
    ensures forall i :: 0 <= i < n ==> r[i] == ' '
  {
    seq(n, _ => ' ')
  }

  /** `s.ljust(width)`: right-pad with spaces up to `width` characters. */
  function LJust(s: string, width: int): (r: string)
    ensures |s| < width ==> |r| == width
    ensures |s| >= width ==> r == s
    ensures r[..|s|] == s
    ensures forall i :: |s| <= i < |r| ==> r[i] == ' '
  {
    if |s| < width then s + Spaces(width - |s|) else s
  }

  predicate AllDigits(s: string) {
    forall i :: 0 <= i < |s| ==> IsDigit(s[i])
  }

  function DigitChar(d: nat): (c: char)
    requires d < 10
    ensures IsDigit(c)
  {
    ('0' as int + d) as char
  }

  function DigitValue(c: char): (d: nat)
    requires IsDigit(c)
    ensures d < 10
  {
    c as int - '0' as int
  }

  /** The value of a run of decimal digits; leading zeros contribute nothing. */
  function DecimalValue(s: string): nat
    requires AllDigits(s)
  {
    if |s| == 0 then 0 else DecimalValue(s[..|s| - 1]) * 10 + DigitValue(s[|s| - 1])
  }

  /** `str(n)` for a natural number. */
  function NatToDecimal(n: nat): (r: string)
    ensures |r| > 0 && AllDigits(r)
  {
    if n < 10 then [DigitChar(n)] else NatToDecimal(n / 10) + [DigitChar(n % 10)]
  }

  /** `str(i)` / an f-string field for an integer. */
  function IntToStr(i: int): (r: string)
    ensures |r| > 0 && !IsSpace(r[0]) && IsDigit(r[|r| - 1])
  {
    if i < 0 then "-" + NatToDecimal(-i) else NatToDecimal(i)
  }

  /** Position `i` of a digit body: a digit, or an underscore followed by a digit. */
  predicate DigitBodyAt(b: string, i: int)
    requires 0 <= i < |b|
  {
    IsDigit(b[i]) || (b[i] == '_' && i + 1 < |b| && IsDigit(b[i + 1]))
  }

  /** The digit body `int()` accepts: digits, with single underscores between digits. */
  predicate ValidDigitBody(b: string) {
    && |b| > 0
    && IsDigit(b[0])
    && forall i :: 0 <= i < |b| ==> DigitBodyAt(b, i)
  }

  /** A non-empty run of digits is a valid digit body. */
  lemma AllDigitsValid(b: string)
    requires AllDigits(b) && |b| > 0
    ensures ValidDigitBody(b)
  {
    forall i | 0 <= i < |b| ensures DigitBodyAt(b, i) {
      assert IsDigit(b[i]);
    }
  }

  function RemoveUnderscores(b: string): (r: string)
    ensures (forall i :: 0 <= i < |b| ==> IsDigit(b[i]) || b[i] == '_') ==> AllDigits(r)
    ensures AllDigits(b) ==> r == b
  {
    if |b| == 0 then b
    else if b[0] == '_' then RemoveUnderscores(b[1..])
    else [b[0]] + RemoveUnderscores(b[1..])
  }

  function ParseDigitBody(b: string): (r: Option<nat>)
    ensures AllDigits(b) && |b| > 0 ==> r == Some(DecimalValue(b))
  {
    assert AllDigits(b) && |b| > 0 ==> ValidDigitBody(b) by {
      if AllDigits(b) && |b| > 0 {
        AllDigitsValid(b);
      }
    }
    if ValidDigitBody(b) then
      assert forall i :: 0 <= i < |b| ==> IsDigit(b[i]) || b[i] == '_' by {
        forall i | 0 <= i < |b| ensures IsDigit(b[i]) || b[i] == '_' {
          assert DigitBodyAt(b, i);
        }
      }
      Some(DecimalValue(RemoveUnderscores(b)))
    else None
  }

  /**
   * `int(s)` for base 10: surrounding whitespace is ignored, one optional
   * sign, then digits with optional single underscores between them.
   * `None` stands for the `ValueError` Python raises otherwise.
   */
  function ParseInt(s: string): Option<int>
  {
    var t := Strip(s);
    if |t| > 0 && (t[0] == '+' || t[0] == '-') then
      match ParseDigitBody(t[1..])
      case None => None
      case Some(v) =>
        var signed: int := if t[0] == '-' then -(v as int) else v;
        Some(signed)
    else
      ParseDigitBody(t)
  }

  lemma {:induction false} DecimalValueOfNatToDecimal(n: nat)
    ensures DecimalValue(NatToDecimal(n)) == n
  {
    if n >= 10 {
      var s := NatToDecimal(n);
      DecimalValueOfNatToDecimal(n / 10);
      assert s[..|s| - 1] == NatToDecimal(n / 10);
    }
  }

  /** A string that neither starts nor ends with whitespace is its own `strip()`. */
  lemma StripNoEdgeSpace(s: string)
    requires |s| > 0 && !IsSpace(s[0]) && !IsSpace(s[|s| - 1])
    ensures Strip(s) == s
  {
    assert LStrip(s) == s;
  }

  /** The digit body of `str(m)` parses back to `m`. */
  lemma ParseDigitBodyOfNat(m: nat)
    ensures ParseDigitBody(NatToDecimal(m)) == Some(m)
  {
    DecimalValueOfNatToDecimal(m);
  }

  /** `int()` of an already stripped digit body. */
  lemma ParseIntOfBody(t: string, v: nat)
    requires Strip(t) == t && |t| > 0 && IsDigit(t[0]) && ParseDigitBody(t) == Some(v)
    ensures ParseInt(t) == Some(v)
  {
  }

  /** `int()` of an already stripped, negated digit body. */
  lemma ParseIntOfNegatedBody(d: string, v: nat)
    requires Strip("-" + d) == "-" + d && ParseDigitBody(d) == Some(v)
    ensures ParseInt("-" + d) == Some(-(v as int))
  {
    assert ("-" + d)[1..] == d;
  }

  /** `int(str(m))` for a natural number. */
  lemma ParseIntOfNatToDecimal(m: nat)
    ensures ParseInt(NatToDecimal(m)) == Some(m)
  {
    var s := NatToDecimal(m);
    StripNoEdgeSpace(s);
    ParseDigitBodyOfNat(m);
    ParseIntOfBody(s, m);
  }

  /** `int(str(-m))` for a positive number. */
  lemma ParseIntOfNegatedDecimal(m: nat)
    ensures ParseInt("-" + NatToDecimal(m)) == Some(-(m as int))
  {
    var d := NatToDecimal(m);
    StripNoEdgeSpace("-" + d);
    ParseDigitBodyOfNat(m);
    ParseIntOfNegatedBody(d, m);
  }

  /** `int(str(i)) == i` for every integer. */
  lemma ParseIntOfIntToStr(i: int)
    ensures ParseInt(IntToStr(i)) == Some(i)
  {
    if i < 0 {
      ParseIntOfNegatedDecimal(-i);
    } else {
      ParseIntOfNatToDecimal(i);
    }
  }

  lemma RemovePrefixOfConcat(prefix: string, s: string)
    ensures RemovePrefix(prefix + s, prefix) == s
  {
    assert (prefix + s)[..|prefix|] == prefix;
    assert (prefix + s)[|prefix|..] == s;
  }

  lemma RemoveSuffixOfConcat(s: string, suffix: string)
    ensures RemoveSuffix(s + suffix, suffix) == s
  {
    var t := s + suffix;
    assert t[|t| - |suffix|..] == suffix;
    assert t[..|t| - |suffix|] == s;
  }

  lemma IndexOfFirst(a: string, c: char, b: string)
    requires c !in a
    ensures IndexOf(a + [c] + b, c) == Some(|a|)
  {
    var s := a + [c] + b;
    assert s[|a|] == c;
    assert s[..|a|] == a;
  }

  lemma PartitionAtFirst(a: string, sep: char, b: string)
    requires sep !in a
    ensures Partition(a + [sep] + b, sep) == (a, true, b)
  {
    var s := a + [sep] + b;
    IndexOfFirst(a, sep, b);
    assert s[..|a|] == a;
    assert s[|a| + 1..] == b;
  }

  /** `int()` of a non-empty run of ASCII digits is its decimal value (leading zeros allowed). */
  lemma ParseIntOfDigits(s: string)
    requires AllDigits(s) && |s| > 0
    ensures ParseInt(s) == Some(DecimalValue(s))
  {
    assert IsDigit(s[0]) && IsDigit(s[|s| - 1]);
    StripNoEdgeSpace(s);
    ParseIntOfBody(s, DecimalValue(s));
  }

  /** Applying `strip()` twice is the same as once. */
  lemma StripIdempotent(s: string)
    ensures Strip(Strip(s)) == Strip(s)
  {
    var t := Strip(s);
    if |t| > 0 {
      assert LStrip(t) == t;
      assert RStrip(t) == t;
    }
  }
}
