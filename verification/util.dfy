/**
 * Miscellaneous utilities: the wizard's control-flow outcome (`StopWizard`
 * and the menu's cancellation) and the natural sort key used to order the
 * hardware list.
 */
module Util {
  import opened PyStr
  import opened Terminal

  /**
   * How a wizard step ends: with a value and the keys not yet read, with
   * `StopWizard`, with the menu's `StopMenu`, with the `IndexError` of an
   * empty menu, or still waiting for keys.
   */
  datatype Flow<T> =
    | Done(value: T, rest: seq<Key>)
    | StopWizard(message: string)
    | StopMenu
    | MenuIndexError
    | AwaitingInput

  // ------------------------------------------------------------ natural key

  /** Length of the leading run of `s` whose characters are digits iff `digits`. */
  function RunLength(s: string, digits: bool): (k: nat)
    ensures k <= |s|
    ensures forall i :: 0 <= i < k ==> IsDigit(s[i]) == digits
    ensures k < |s| ==> IsDigit(s[k]) != digits
  {
    if |s| == 0 || IsDigit(s[0]) != digits then 0 else 1 + RunLength(s[1..], digits)
  }

  predicate NoDigits(s: string) {
    forall i :: 0 <= i < |s| ==> !IsDigit(s[i])
  }

  /**
   * The shape of `re.split(r"(\d+)", s)`: odd length, digit-free text at
   * even positions, non-empty digit runs at odd positions, and every text
   * run between two digit runs non-empty (the digit runs are maximal).
   */
  predicate AlternatingRuns(r: seq<string>) {
    && |r| % 2 == 1
    && forall i :: 0 <= i < |r| ==>
      if i % 2 == 0 then NoDigits(r[i]) && (0 < i < |r| - 1 ==> |r[i]| > 0)
      else |r[i]| > 0 && AllDigits(r[i])
  }

  lemma ConsRuns(a: string, d: string, tail: seq<string>)
    requires NoDigits(a) && |d| > 0 && AllDigits(d) && AlternatingRuns(tail)
    requires |tail| > 1 ==> |tail[0]| > 0
    ensures AlternatingRuns([a, d] + tail)
  {
    var r := [a, d] + tail;
    forall i | 2 <= i < |r|
      ensures r[i] == tail[i - 2]
    {
    }
  }

  /**
   * `re.split(r"(\d+)", s)`: text runs at even positions and maximal digit
   * runs at odd positions; the first and last text runs may be empty.
   */
  function SplitDigits(s: string): (r: seq<string>)
    ensures AlternatingRuns(r)
    ensures |s| > 0 && !IsDigit(s[0]) ==> |r[0]| > 0
    decreases |s|
  {
    var t := RunLength(s, false);
    if t == |s| then [s]
    else
      var rest := s[t..];
      var d := RunLength(rest, true);
      var tail := SplitDigits(rest[d..]);
      ConsRuns(s[..t], rest[..d], tail);
      [s[..t], rest[..d]] + tail
  }

  function Join(segs: seq<string>): string {
    if |segs| == 0 then "" else segs[0] + Join(segs[1..])
  }

  /** Splitting loses nothing: joining the runs gives the text back. */
  lemma {:induction false} JoinSplitDigits(s: string)
    ensures Join(SplitDigits(s)) == s
    decreases |s|
  {
    var t := RunLength(s, false);
    if t < |s| {
      var rest := s[t..];
      var d := RunLength(rest, true);
      JoinSplitDigits(rest[d..]);
      var r := SplitDigits(s);
      assert r[2..] == SplitDigits(rest[d..]);
      assert Join(r) == s[..t] + (rest[..d] + Join(r[2..]));
      assert s == s[..t] + (rest[..d] + rest[d..]);
    }
  }

  /** One element of a natural key: lowered text, or the integer value of a digit run. */
  datatype KeyPart = Text(text: string) | Num(value: nat)

  /** `int(s) if _DIGITS.fullmatch(s) else s.lower()` */
  function KeyPartOf(seg: string): KeyPart {
    if |seg| > 0 && AllDigits(seg) then Num(DecimalValue(seg)) else Text(LowerStr(seg))
  }

  /**
   * `natural_key`: case-insensitive, with digit runs compared as numbers.  A
   * key has odd length, lowered digit-free text at even positions (non-empty
   * except at the ends) and integers at odd positions.
   */
  function NaturalKey(s: string): (r: seq<KeyPart>)
    ensures var segs := SplitDigits(s); |r| == |segs| && forall i :: 0 <= i < |r| ==> r[i] == KeyPartOf(segs[i])
    ensures |r| % 2 == 1
    ensures forall i :: 0 <= i < |r| && i % 2 == 0 ==> r[i].Text? && NoDigits(r[i].text)
    ensures forall i :: 0 <= i < |r| && i % 2 == 1 ==> r[i].Num?
    ensures forall i :: 0 < i < |r| - 1 && i % 2 == 0 ==> |r[i].text| > 0
  {
    var segs := SplitDigits(s);
    var k := seq(|segs|, i requires 0 <= i < |segs| => KeyPartOf(segs[i]));
    KeyPartsShape(segs, k);
    k
  }

  /** The key parts of alternating text and digit runs alternate between text and integers. */
  lemma KeyPartsShape(segs: seq<string>, k: seq<KeyPart>)
    requires AlternatingRuns(segs)
    requires |k| == |segs| && forall i :: 0 <= i < |k| ==> k[i] == KeyPartOf(segs[i])
    ensures |k| % 2 == 1
    ensures forall i :: 0 <= i < |k| && i % 2 == 0 ==> k[i].Text? && NoDigits(k[i].text)
    ensures forall i :: 0 <= i < |k| && i % 2 == 1 ==> k[i].Num?
    ensures forall i :: 0 < i < |k| - 1 && i % 2 == 0 ==> |k[i].text| > 0
  {
    forall i | 0 <= i < |k| && i % 2 == 0
      ensures k[i].Text? && NoDigits(k[i].text)
    {
      assert NoDigits(segs[i]) && (0 < i < |k| - 1 ==> |segs[i]| > 0);
      if |segs[i]| > 0 {
        assert !IsDigit(segs[i][0]);
      }
      assert forall j :: 0 <= j < |segs[i]| ==> !IsDigit(Lower(segs[i][j]));
    }
  }

  /** Two natural keys always compare text with text and integer with integer. */
  lemma NaturalKeysAlign(a: string, b: string, i: nat)
    requires i < |NaturalKey(a)| && i < |NaturalKey(b)|
    ensures NaturalKey(a)[i].Text? <==> NaturalKey(b)[i].Text?
  {
  }

  function SwapCaseSegs(segs: seq<string>): (r: seq<string>)
    ensures |r| == |segs| && forall i :: 0 <= i < |r| ==> r[i] == SwapCaseStr(segs[i])
  {
    seq(|segs|, i requires 0 <= i < |segs| => SwapCaseStr(segs[i]))
  }

  lemma SwapCasePreservesRuns(s: string, digits: bool)
    ensures RunLength(SwapCaseStr(s), digits) == RunLength(s, digits)
  {
    var t := SwapCaseStr(s);
    var k := RunLength(s, digits);
    assert forall i :: 0 <= i < |s| ==> IsDigit(t[i]) == IsDigit(s[i]);
  }

  lemma SwapCaseSegsCons(a: string, d: string, tail: seq<string>)
    ensures SwapCaseSegs([a, d] + tail) == [SwapCaseStr(a), SwapCaseStr(d)] + SwapCaseSegs(tail)
  {
    assert ([a, d] + tail)[2..] == tail;
  }

  /** Swapping case commutes with splitting into runs. */
  lemma {:induction false} SplitDigitsSwapCase(s: string)
    ensures SplitDigits(SwapCaseStr(s)) == SwapCaseSegs(SplitDigits(s))
    decreases |s|
  {
    SwapCasePreservesRuns(s, false);
    var t := RunLength(s, false);
    if t < |s| {
      var rest := s[t..];
      SwapCasePreservesRuns(rest, true);
      var d := RunLength(rest, true);
      SplitDigitsSwapCase(rest[d..]);
      SplitDigitsSwapCaseStep(s, t, d);
    } else {
      assert SplitDigits(SwapCaseStr(s)) == [SwapCaseStr(s)];
    }
  }

  /** One text run and one digit run, then the rest: the step of `SplitDigitsSwapCase`. */
  lemma SplitDigitsSwapCaseStep(s: string, t: nat, d: nat)
    requires t == RunLength(s, false) < |s| && d == RunLength(s[t..], true)
    requires RunLength(SwapCaseStr(s), false) == t && RunLength(SwapCaseStr(s[t..]), true) == d
    requires SplitDigits(SwapCaseStr(s[t..][d..])) == SwapCaseSegs(SplitDigits(s[t..][d..]))
    ensures SplitDigits(SwapCaseStr(s)) == SwapCaseSegs(SplitDigits(s))
  {
    var w := SwapCaseStr(s);
    var rest := s[t..];
    var tail := SplitDigits(rest[d..]);
    assert SplitDigits(s) == [s[..t], rest[..d]] + tail;
    SwapCaseDrop(s, t);
    assert SplitDigits(w) == [w[..t], w[t..][..d]] + SplitDigits(w[t..][d..]);
    SwapCaseTake(s, t);
    SwapCaseTake(rest, d);
    SwapCaseDrop(rest, d);
    SwapCaseSegsCons(s[..t], rest[..d], tail);
  }

  lemma SwapCaseTake(s: string, i: nat)
    requires i <= |s|
    ensures SwapCaseStr(s)[..i] == SwapCaseStr(s[..i])
  {
  }

  lemma SwapCaseDrop(s: string, i: nat)
    requires i <= |s|
    ensures SwapCaseStr(s)[i..] == SwapCaseStr(s[i..])
  {
  }

  lemma KeyPartSwapCase(seg: string)
    ensures KeyPartOf(SwapCaseStr(seg)) == KeyPartOf(seg)
  {
    var w := SwapCaseStr(seg);
    assert forall i :: 0 <= i < |seg| ==> IsDigit(w[i]) == IsDigit(seg[i]);
    if |seg| > 0 && AllDigits(seg) {
      assert forall i :: 0 <= i < |seg| ==> w[i] == seg[i];
      assert w == seg;
    } else {
      assert LowerStr(w) == LowerStr(seg);
    }
  }

  /** Natural keys ignore ASCII case: a text and its case-swapped form have the same key. */
  lemma NaturalKeyIgnoresCase(s: string)
    ensures NaturalKey(SwapCaseStr(s)) == NaturalKey(s)
  {
    SplitDigitsSwapCase(s);
    var segs := SplitDigits(s);
    forall i | 0 <= i < |segs|
      ensures KeyPartOf(SwapCaseStr(segs[i])) == KeyPartOf(segs[i])
    {
      KeyPartSwapCase(segs[i]);
    }
  }

  /** The empty text has the key `[""]`. */
  lemma NaturalKeyOfEmpty()
    ensures NaturalKey("") == [Text("")]
  {
    assert SplitDigits("") == [""];
  }

  /** `"42"` has the key `["", 42, ""]`. */
  lemma NaturalKeyOfNumber()
    ensures NaturalKey("42") == [Text(""), Num(42), Text("")]
  {
    assert RunLength("42", false) == 0;
    assert RunLength("42", true) == 2 by {
      assert RunLength("2", true) == 1;
    }
    assert "42"[0..] == "42" && "42"[..0] == "" && "42"[..2] == "42" && "42"[2..] == "";
    assert SplitDigits("") == [""];
    assert SplitDigits("42") == ["", "42", ""];
    assert DecimalValue("42") == 42 by {
      assert "42"[..1] == "4";
      assert DecimalValue("4") == 4 by { assert "4"[..0] == ""; }
    }
    assert KeyPartOf("") == Text("") && KeyPartOf("42") == Num(42);
  }

  /** Leading zeros do not change a key: `"a007"` and `"a7"` have the same key. */
  lemma NaturalKeyIgnoresLeadingZeros()
    ensures NaturalKey("a007") == NaturalKey("a7")
  {
    SplitA007();
    SplitA7();
    SevenParts();
    var k1 := NaturalKey("a007");
    var k2 := NaturalKey("a7");
    assert k1[0] == k2[0] && k1[1] == k2[1] && k1[2] == k2[2];
  }

  lemma SevenParts()
    ensures KeyPartOf("007") == Num(7) && KeyPartOf("7") == Num(7)
  {
    assert DecimalValue("007") == 7 by {
      assert "007"[..2] == "00";
      assert "00"[..1] == "0";
    }
    assert DecimalValue("7") == 7 by { assert "7"[..0] == ""; }
  }

  lemma SplitA007()
    ensures SplitDigits("a007") == ["a", "007", ""]
  {
    assert SplitDigits("") == [""];
    assert RunLength("a007", false) == 1 by {
      assert "a007"[1..] == "007";
    }
    assert RunLength("007", true) == 3 by {
      assert RunLength("7", true) == 1;
      assert "007"[1..] == "07";
    }
    assert "a007"[1..] == "007" && "a007"[..1] == "a" && "007"[..3] == "007" && "007"[3..] == "";
  }

  lemma SplitA7()
    ensures SplitDigits("a7") == ["a", "7", ""]
  {
    assert SplitDigits("") == [""];
    assert RunLength("a7", false) == 1 by {
      assert "a7"[1..] == "7";
    }
    assert RunLength("7", true) == 1;
    assert "a7"[1..] == "7" && "a7"[..1] == "a" && "7"[..1] == "7" && "7"[1..] == "";
  }
}
