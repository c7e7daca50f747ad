/**
 * Rewriting a YAML file while keeping the comments before the document
 * start: `_seek_to_document_start` scans lines to find where the document
 * begins, and `dump` keeps the file up to that position and writes the new
 * document after it.  File contents are the text as read, with lines ending
 * in `\n`; positions count characters.
 */
module Yaml {
  import opened Wrappers
  import opened PyStr
  import Util

  /** A newline can only be the last character. */
  predicate OneLine(t: string) {
    |t| == 0 || '\n' !in t[..|t| - 1]
  }

  /** `readline()`: the text up to and including the first newline, or all of it. */
  function ReadLine(s: string): (r: string)
    ensures |s| > 0 ==> 0 < |r|
    ensures |r| <= |s| && r == s[..|r|]
  {
    match IndexOf(s, '\n')
    case None => s
    case Some(k) => s[..k + 1]
  }

  /** A read line stops at the first newline: it is all of `s`, or it ends in the only newline it holds. */
  lemma ReadLineIsFirstLine(s: string)
    ensures OneLine(ReadLine(s))
    ensures ReadLine(s) == s || ReadLine(s)[|ReadLine(s)| - 1] == '\n'
  {
  }

  /** The lines `readline()` returns one after another until it returns `""`. */
  function Lines(s: string): seq<string>
    decreases |s|
  {
    if |s| == 0 then [] else [ReadLine(s)] + Lines(s[|ReadLine(s)|..])
  }

  /** Reading every line gives the file back. */
  lemma {:induction false} JoinLines(s: string)
    ensures Util.Join(Lines(s)) == s
    decreases |s|
  {
    if |s| > 0 {
      var line := ReadLine(s);
      JoinLines(s[|line|..]);
      assert Lines(s)[1..] == Lines(s[|line|..]);
      assert s == line + s[|line|..];
    }
  }

  /** A line's text before the first `#`, stripped of whitespace. */
  function DocumentText(line: string): string {
    Strip(Partition(line, '#').0)
  }

  /** A line holding only whitespace and/or a comment. */
  predicate Blank(line: string) {
    DocumentText(line) == ""
  }

  /** Index of the first non-empty text. */
  function FirstNonEmpty(texts: seq<string>): (r: Option<nat>)
    ensures r.Some? ==> r.value < |texts| && texts[r.value] != ""
    ensures r.Some? ==> forall i :: 0 <= i < r.value ==> texts[i] == ""
    ensures r.None? ==> forall i :: 0 <= i < |texts| ==> texts[i] == ""
  {
    if |texts| == 0 then None
    else if texts[0] != "" then Some(0)
    else match FirstNonEmpty(texts[1..])
      case None => None
      case Some(k) => Some(k + 1)
  }

  /** The document text of every line. */
  function Texts(lines: seq<string>): (r: seq<string>)
    ensures |r| == |lines| && forall i :: 0 <= i < |r| ==> r[i] == DocumentText(lines[i])
  {
    seq(|lines|, i requires 0 <= i < |lines| => DocumentText(lines[i]))
  }

  /** Index of the first non-blank line. */
  function FirstNonBlank(lines: seq<string>): (r: Option<nat>)
    ensures r.Some? ==> r.value < |lines| && !Blank(lines[r.value])
    ensures r.Some? ==> forall i :: 0 <= i < r.value ==> Blank(lines[i])
    ensures r.None? ==> forall i :: 0 <= i < |lines| ==> Blank(lines[i])
  {
    FirstNonEmpty(Texts(lines))
  }

  /**
   * The loop of `_seek_to_document_start` over the lines still to read, each
   * with its document text, the stream at position `offset`: skip blank
   * lines; a `---` line puts the document start just after it; any other
   * text puts it at 0; end of file leaves the position at the end.
   */
  function Scan(texts: seq<string>, lines: seq<string>, offset: nat): nat
    requires |texts| == |lines|
    decreases |lines|
  {
    if |lines| == 0 then offset
    else if texts[0] == "---" then offset + |lines[0]|
    else if texts[0] != "" then 0
    else Scan(texts[1..], lines[1..], offset + |lines[0]|)
  }

  /** The loop never moves past the end of the lines it reads. */
  lemma {:induction false} ScanBound(texts: seq<string>, lines: seq<string>, offset: nat)
    requires |texts| == |lines|
    ensures Scan(texts, lines, offset) <= offset + |Util.Join(lines)|
    decreases |lines|
  {
    if |lines| > 0 {
      assert Util.Join(lines) == lines[0] + Util.Join(lines[1..]);
      ScanBound(texts[1..], lines[1..], offset + |lines[0]|);
    }
  }

  /** The position `_seek_to_document_start` leaves the stream at. */
  function DocumentStart(content: string): (cut: nat)
    ensures cut <= |content|
  {
    JoinLines(content);
    var ls := Lines(content);
    ScanBound(Texts(ls), ls, 0);
    Scan(Texts(ls), ls, 0)
  }

  /** Joining the first `k + 1` lines is the first line followed by the next `k`. */
  lemma JoinPrefixStep(lines: seq<string>, k: nat)
    requires k < |lines|
    ensures Util.Join(lines[..k + 1]) == lines[0] + Util.Join(lines[1..][..k])
  {
    var pre := lines[..k + 1];
    assert pre[0] == lines[0];
    assert pre[1..] == lines[1..][..k];
  }

  /** With every text empty, the loop reads to the end. */
  lemma {:induction false} ScanAllBlank(texts: seq<string>, lines: seq<string>, offset: nat)
    requires |texts| == |lines| && FirstNonEmpty(texts) == None
    ensures Scan(texts, lines, offset) == offset + |Util.Join(lines)|
    decreases |lines|
  {
    if |lines| > 0 {
      assert texts[0] == "";
      ScanAllBlank(texts[1..], lines[1..], offset + |lines[0]|);
    }
  }

  /** The first non-empty text decides the loop's result. */
  lemma ScanFirstText(texts: seq<string>, lines: seq<string>, offset: nat, j: nat)
    requires |texts| == |lines| && FirstNonEmpty(texts) == Some(j)
    ensures texts[j] == "---" ==> Scan(texts, lines, offset) == offset + |Util.Join(lines[..j + 1])|
    ensures texts[j] != "---" ==> Scan(texts, lines, offset) == 0
  {
    if texts[j] == "---" {
      ScanToMarker(texts, lines, offset, j);
    } else {
      ScanToText(texts, lines, offset, j);
    }
  }

  lemma {:induction false} ScanToMarker(texts: seq<string>, lines: seq<string>, offset: nat, j: nat)
    requires |texts| == |lines| && FirstNonEmpty(texts) == Some(j) && texts[j] == "---"
    ensures Scan(texts, lines, offset) == offset + |Util.Join(lines[..j + 1])|
    decreases |lines|
  {
    JoinPrefixStep(lines, j);
    if j == 0 {
      assert lines[1..][..0] == [];
    } else {
      assert texts[0] == "" && FirstNonEmpty(texts[1..]) == Some(j - 1);
      ScanToMarker(texts[1..], lines[1..], offset + |lines[0]|, j - 1);
    }
  }

  lemma {:induction false} ScanToText(texts: seq<string>, lines: seq<string>, offset: nat, j: nat)
    requires |texts| == |lines| && FirstNonEmpty(texts) == Some(j) && texts[j] != "---"
    ensures Scan(texts, lines, offset) == 0
    decreases |lines|
  {
    if j > 0 {
      assert texts[0] == "" && FirstNonEmpty(texts[1..]) == Some(j - 1);
      ScanToText(texts[1..], lines[1..], offset + |lines[0]|, j - 1);
    }
  }

  /**
   * Where the document starts: after the first non-blank line if that line
   * is `---` (a trailing comment allowed), at 0 if it is anything else, and
   * at the end of the file if every line is blank.
   */
  lemma DocumentStartByLines(content: string)
    ensures var ls := Lines(content); var cut := DocumentStart(content);
      match FirstNonBlank(ls)
      case None => cut == |content|
      case Some(j) =>
        && (DocumentText(ls[j]) == "---" ==> cut == |Util.Join(ls[..j + 1])| && ls[..j + 1] == Lines(content[..cut]))
        && (DocumentText(ls[j]) != "---" ==> cut == 0)
  {
    var first := FirstNonBlank(Lines(content));
    if first.Some? {
      DocumentStartAtText(content, first.value);
    } else {
      DocumentStartAllBlank(content);
    }
  }

  /** `DocumentStartByLines` when every line is blank. */
  lemma DocumentStartAllBlank(content: string)
    requires FirstNonBlank(Lines(content)).None?
    ensures DocumentStart(content) == |content|
  {
    var ls := Lines(content);
    var texts := Texts(ls);
    assert FirstNonEmpty(texts).None?;
    ScanAllBlank(texts, ls, 0);
    JoinLines(content);
    assert DocumentStart(content) == Scan(texts, ls, 0);
  }

  /** `DocumentStartByLines` when line `j` is the first non-blank one. */
  lemma DocumentStartAtText(content: string, j: nat)
    ensures var ls := Lines(content); var cut := DocumentStart(content);
      FirstNonBlank(ls) == Some(j) ==>
        && j < |ls|
        && (DocumentText(ls[j]) == "---" ==> cut == |Util.Join(ls[..j + 1])| && ls[..j + 1] == Lines(content[..cut]))
        && (DocumentText(ls[j]) != "---" ==> cut == 0)
  {
    var ls := Lines(content);
    if FirstNonBlank(ls) == Some(j) {
      ScanFirstText(Texts(ls), ls, 0, j);
      if DocumentText(ls[j]) == "---" {
        LinesOfPrefix(content, j + 1);
      }
    }
  }

  /** The first `k` lines of a file are the lines of the text they span. */
  lemma {:induction false} LinesOfPrefix(s: string, k: nat)
    requires k <= |Lines(s)|
    ensures |Util.Join(Lines(s)[..k])| <= |s|
    ensures Lines(s)[..k] == Lines(s[..|Util.Join(Lines(s)[..k])|])
    decreases k
  {
    if k == 0 {
      assert Lines(s)[..0] == [];
    } else {
      var line := ReadLine(s);
      var tail := s[|line|..];
      var ls := Lines(s);
      assert ls[1..] == Lines(tail);
      LinesOfPrefix(tail, k - 1);
      var n := |Util.Join(Lines(tail)[..k - 1])|;
      assert ls[..k] == [line] + Lines(tail)[..k - 1];
      assert ([line] + Lines(tail)[..k - 1])[1..] == Lines(tail)[..k - 1];
      assert Util.Join(ls[..k]) == line + Util.Join(Lines(tail)[..k - 1]);
      var p := s[..|line| + n];
      assert p[..|line|] == line && p[|line|..] == tail[..n];
      ReadLineOfPrefix(s, |line| + n);
      assert Lines(p) == [line] + Lines(tail[..n]);
    }
  }

  /** A prefix that contains the first line reads the same first line. */
  lemma ReadLineOfPrefix(s: string, m: nat)
    requires |ReadLine(s)| <= m <= |s| && m > 0
    ensures ReadLine(s[..m]) == ReadLine(s)
  {
    var p := s[..m];
    match IndexOf(s, '\n')
    case None =>
      assert m == |s| && p == s;
    case Some(k) =>
      assert p[k] == '\n' && p[..k] == s[..k];
      assert IndexOf(p, '\n') == Some(k) by {
        PyStr.IndexOfFirst(s[..k], '\n', p[k + 1..]);
        assert p == s[..k] + ['\n'] + p[k + 1..];
      }
  }

  /** `YAML.dump` to a path: the file up to the document start, then the new document. */
  function Dump(content: string, serialized: string): (r: string)
    ensures StartsWith(r, content[..DocumentStart(content)])
    ensures r[DocumentStart(content)..] == serialized
  {
    content[..DocumentStart(content)] + serialized
  }

}
