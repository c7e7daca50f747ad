/**
 * The pure parts of the terminal primitives: SGR colouring, the key
 * vocabulary and its Windows console decoding, the cursor position report
 * read after a device status request, and the cursor position sequence.
 * Control sequences follow ECMA-48: SGR is section 8.3.117, CUP section
 * 8.3.21, CPR section 8.3.14 and DSR section 8.3.35.
 */
module Terminal {
  import opened Wrappers
  import opened PyStr

  type byte = b: int | 0 <= b < 256

  /** A key as the menu sees it: the bytes one key press produced. */
  type Key = seq<byte>

  const Esc: char := '\U{1B}'

  /** Control Sequence Introducer, ESC [ */
  const Csi: string := [Esc, '[']

  // ---------------------------------------------------------------- colours

  /** The colours of the source's `Color` enumeration. */
  datatype Color = Red | Green | Yellow | Gray

  function ColorCode(c: Color): (r: string)
    ensures |r| == 2 && AllDigits(r)
  {
    match c
    case Red => "31"
    case Green => "32"
    case Yellow => "33"
    case Gray => "90"
  }

  /** `colorize` accepts either a `Color` or a raw SGR parameter string. */
  datatype ColorSpec = Named(color: Color) | Code(code: string)

  function SgrParameter(c: ColorSpec): string {
    match c
    case Named(color) => ColorCode(color)
    case Code(code) => code
  }

  /** SGR sequence that resets every attribute. */
  const Reset: string := Csi + "0m"

  /** Wraps `text` in an SGR sequence for `color` and a trailing reset. */
  function Colorize(text: string, color: ColorSpec): (r: string)
    ensures StartsWith(r, Csi) && EndsWith(r, Reset)
    ensures |r| == |Csi| + |SgrParameter(color)| + 1 + |text| + |Reset|
    ensures r[|r| - |Reset| - |text|..|r| - |Reset|] == text
  {
    Csi + SgrParameter(color) + "m" + text + Reset
  }

  /**
   * Splits an SGR-wrapped string back into its parameter and its text: the
   * parameter runs up to the first `m`.
   */
  function Uncolorize(s: string): Option<(string, string)> {
    if |s| >= |Csi| + |Reset| && StartsWith(s, Csi) && EndsWith(s, Reset) then
      var body := s[|Csi|..|s| - |Reset|];
      match IndexOf(body, 'm')
      case None => None
      case Some(k) => Some((body[..k], body[k + 1..]))
    else None
  }

  /** Colouring is undone by `Uncolorize` whenever the parameter has no `m`. */
  lemma ColorizeRoundTrip(text: string, color: ColorSpec)
    requires 'm' !in SgrParameter(color)
    ensures Uncolorize(Colorize(text, color)) == Some((SgrParameter(color), text))
  {
    var p := SgrParameter(color);
    var s := Colorize(text, color);
    var body := s[|Csi|..|s| - |Reset|];
    assert body == p + "m" + text;
    assert body[|p|] == 'm';
    assert body[..|p|] == p;
    assert IndexOf(body, 'm') == Some(|p|);
  }

  /** The named colours are digit codes, so their round trip is unconditional. */
  lemma NamedColorRoundTrip(text: string, color: Color)
    ensures Uncolorize(Colorize(text, Named(color))) == Some((ColorCode(color), text))
  {
    var code := ColorCode(color);
    assert 'm' !in code by {
      assert AllDigits(code);
    }
    ColorizeRoundTrip(text, Named(color));
  }

  // ------------------------------------------------------------------- keys

  const ESCAPE: Key := [0x1B]
  const RETURN: Key := [0x0A]
  const UP: Key := [0x1B, 0x5B, 0x41]
  const DOWN: Key := [0x1B, 0x5B, 0x42]
  const RIGHT: Key := [0x1B, 0x5B, 0x43]
  const LEFT: Key := [0x1B, 0x5B, 0x44]
  const END: Key := [0x1B, 0x5B, 0x46]
  const HOME: Key := [0x1B, 0x5B, 0x48]
  const PAGE_UP: Key := [0x1B, 0x5B, 0x35, 0x7E]
  const PAGE_DOWN: Key := [0x1B, 0x5B, 0x36, 0x7E]

  /** The key constants the menu dispatches on, in declaration order. */
  const NamedKeys: seq<Key> := [ESCAPE, RETURN, UP, DOWN, RIGHT, LEFT, END, HOME, PAGE_UP, PAGE_DOWN]

  /** No two key constants coincide, so the menu's dispatch is unambiguous. */
  lemma NamedKeysDistinct()
    ensures |NamedKeys| == 10
    ensures forall i, j :: 0 <= i < j < |NamedKeys| ==> NamedKeys[i] != NamedKeys[j]
  {
  }

  /** The keys a Windows console reports with a 0x00 or 0xE0 prefix byte. */
  datatype SpecialKey = Home | Up | PageUp | Left | Right | End | Down | PageDown

  /** The xterm sequence a POSIX terminal sends for each special key. */
  function XtermSequence(k: SpecialKey): Key {
    match k
    case Home => HOME
    case Up => UP
    case PageUp => PAGE_UP
    case Left => LEFT
    case Right => RIGHT
    case End => END
    case Down => DOWN
    case PageDown => PAGE_DOWN
  }

  /** The Windows console scan code of each special key. */
  function ScanCode(k: SpecialKey): byte {
    match k
    case Home => 71
    case Up => 72
    case PageUp => 73
    case Left => 75
    case Right => 77
    case End => 79
    case Down => 80
    case PageDown => 81
  }

  /** The scan-code table lookup, `_WINDOWS_SPECIAL_KEYS.get(code, b"")`. */
  function WindowsSpecialKey(code: byte): Key {
    if code == 71 then HOME
    else if code == 72 then UP
    else if code == 73 then PAGE_UP
    else if code == 75 then LEFT
    else if code == 77 then RIGHT
    else if code == 79 then END
    else if code == 80 then DOWN
    else if code == 81 then PAGE_DOWN
    else []
  }

  /** Outcome of one Windows `read_key` on the bytes the console has queued. */
  datatype KeyRead =
    | KeyPress(key: Key, rest: seq<byte>)
    | Interrupt          // Ctrl+C raises KeyboardInterrupt
    | AwaitingInput      // the console has not delivered enough bytes yet

  /** Windows `read_key`: decodes one key press from the front of `input`. */
  function WindowsReadKey(input: seq<byte>): (r: KeyRead)
    ensures r.KeyPress? ==> r.key != [0x03] && r.key != [0x0D]
    ensures r.KeyPress? ==> |r.key| <= 4 && |r.rest| < |input| && input[|input| - |r.rest|..] == r.rest
    ensures r.Interrupt? <==> |input| > 0 && input[0] == 0x03
    ensures r.AwaitingInput? <==> |input| == 0 || (|input| == 1 && (input[0] == 0x00 || input[0] == 0xE0))
  {
    if |input| == 0 then AwaitingInput
    else if input[0] == 0x03 then Interrupt
    else if input[0] == 0x0D then KeyPress(RETURN, input[1..])
    else if input[0] == 0x00 || input[0] == 0xE0 then
      if |input| < 2 then AwaitingInput
      else KeyPress(WindowsSpecialKey(input[1]), input[2..])
    else KeyPress([input[0]], input[1..])
  }

  /**
   * Both platforms agree: a prefixed scan code decodes to exactly the xterm
   * sequence a POSIX terminal sends for the same key, and a scan code outside
   * the table decodes to the empty key.
   */
  lemma WindowsSpecialKeysMatchXterm(prefix: byte, code: byte, rest: seq<byte>)
    requires prefix == 0x00 || prefix == 0xE0
    ensures forall k: SpecialKey :: code == ScanCode(k) ==>
      WindowsReadKey([prefix, code] + rest) == KeyPress(XtermSequence(k), rest)
    ensures (forall k: SpecialKey :: code != ScanCode(k)) ==>
      WindowsReadKey([prefix, code] + rest) == KeyPress([], rest)
  {
    var input := [prefix, code] + rest;
    assert input[2..] == rest;
    if forall k: SpecialKey :: code != ScanCode(k) {
      assert code != ScanCode(Home) && code != ScanCode(Up) && code != ScanCode(PageUp);
      assert code != ScanCode(Left) && code != ScanCode(Right) && code != ScanCode(End);
      assert code != ScanCode(Down) && code != ScanCode(PageDown);
    }
  }

  /** Any byte other than the prefixes, Ctrl+C and carriage return is its own key. */
  lemma WindowsPlainByte(b: byte, rest: seq<byte>)
    requires b != 0x00 && b != 0xE0 && b != 0x03 && b != 0x0D
    ensures WindowsReadKey([b] + rest) == KeyPress([b], rest)
  {
    assert ([b] + rest)[1..] == rest;
  }

  /** Carriage return reads as RETURN, and Ctrl+C interrupts whatever follows. */
  lemma WindowsReturnAndInterrupt(rest: seq<byte>)
    ensures WindowsReadKey([0x0D] + rest) == KeyPress(RETURN, rest)
    ensures WindowsReadKey([0x03] + rest) == Interrupt
  {
    assert ([0x0D] + rest)[1..] == rest;
  }

  // --------------------------------------------------------- cursor position

  /** DSR request (parameter 6): ask the terminal for the cursor position. */
  const DeviceStatusReport: string := Csi + "6n"

  /** The CPR reply a terminal sends: ESC [ row ; col R. */
  function CursorPositionReport(row: int, col: int): string {
    Csi + IntToStr(row) + ";" + IntToStr(col) + "R"
  }

  /** Parses one complete reply the way `get_cursor_pos` does; `None` is a `ValueError`. */
  function ParseCursorReply(reply: string): Option<(int, int)> {
    var body := RemoveSuffix(RemovePrefix(reply, Csi), "R");
    var (row, _, col) := Partition(body, ';');
    match (ParseInt(row), ParseInt(col))
    case (Some(r), Some(c)) => Some((r, c))
    case _ => None
  }

  /** Outcome of `get_cursor_pos` on the characters the terminal has sent. */
  datatype CursorRead =
    | Position(row: int, col: int, rest: string)
    | MalformedReply
    | AwaitingReply

  /**
   * `get_cursor_pos`: reads characters until the text read so far ends with
   * `R`, then parses it.
   */
  function GetCursorPos(input: string): (r: CursorRead)
    ensures r.AwaitingReply? <==> 'R' !in input
    ensures r.Position? ==> |r.rest| < |input| && input[|input| - |r.rest|..] == r.rest
    ensures r.Position? ==> input[|input| - |r.rest| - 1] == 'R' && 'R' !in input[..|input| - |r.rest| - 1]
  {
    match IndexOf(input, 'R')
    case None => AwaitingReply
    case Some(k) =>
      match ParseCursorReply(input[..k + 1])
      case None => MalformedReply
      case Some((row, col)) => Position(row, col, input[k + 1..])
  }

  /** Parsing a reply whose row and column texts hold neither `;` nor a trailing reply marker. */
  lemma ParseCursorReplyFields(rows: string, cols: string)
    requires ';' !in rows
    ensures ParseCursorReply(Csi + rows + ";" + cols + "R") ==
      match (ParseInt(rows), ParseInt(cols))
      case (Some(r), Some(c)) => Some((r, c))
      case _ => None
  {
    var afterCsi := rows + ";" + cols + "R";
    assert Csi + rows + ";" + cols + "R" == Csi + afterCsi;
    RemovePrefixOfConcat(Csi, afterCsi);
    assert afterCsi == (rows + ";" + cols) + "R";
    RemoveSuffixOfConcat(rows + ";" + cols, "R");
    PartitionAtFirst(rows, ';', cols);
  }

  /** A reply with decimal row and column parses to those numbers (leading zeros allowed). */
  lemma ParseDecimalCursorReply(rows: string, cols: string)
    requires AllDigits(rows) && |rows| > 0 && AllDigits(cols) && |cols| > 0
    ensures ParseCursorReply(Csi + rows + ";" + cols + "R") == Some((DecimalValue(rows), DecimalValue(cols)))
  {
    assert ';' !in rows by {
      assert forall i :: 0 <= i < |rows| ==> IsDigit(rows[i]);
    }
    ParseCursorReplyFields(rows, cols);
    ParseIntOfDigits(rows);
    ParseIntOfDigits(cols);
  }

  /** Every character of a number's decimal text differs from `R` and `;`. */
  lemma IntToStrHasNoDelimiters(i: int)
    ensures 'R' !in IntToStr(i) && ';' !in IntToStr(i)
  {
    var s := IntToStr(i);
    var m: nat := if i < 0 then -i else i;
    assert AllDigits(NatToDecimal(m));
    if i < 0 {
      assert s == "-" + NatToDecimal(m);
    }
  }

  /** The report for any position parses back to that position. */
  lemma ParseCursorPositionReport(row: int, col: int)
    ensures ParseCursorReply(CursorPositionReport(row, col)) == Some((row, col))
  {
    IntToStrHasNoDelimiters(row);
    ParseCursorReplyFields(IntToStr(row), IntToStr(col));
    ParseIntOfIntToStr(row);
    ParseIntOfIntToStr(col);
  }

  /**
   * Once a reply ends in its first `R`, that reply alone decides: it parses
   * to a position, leaving the rest unread, or fails with `ValueError`.
   */
  lemma GetCursorPosOfReply(head: string, rest: string)
    requires 'R' !in head
    ensures GetCursorPos(head + "R" + rest) ==
      match ParseCursorReply(head + "R")
      case Some((row, col)) => Position(row, col, rest)
      case None => MalformedReply
  {
    var input := head + "R" + rest;
    assert input == head + ['R'] + rest;
    IndexOfFirst(head, 'R', rest);
    assert input[..|head| + 1] == head + "R";
    assert input[|head| + 1..] == rest;
  }

  /** The position a terminal reports is read back exactly, and nothing after it is consumed. */
  lemma GetCursorPosRoundTrip(row: int, col: int, rest: string)
    ensures GetCursorPos(CursorPositionReport(row, col) + rest) == Position(row, col, rest)
  {
    var reply := CursorPositionReport(row, col);
    var head := Csi + IntToStr(row) + ";" + IntToStr(col);
    IntToStrHasNoDelimiters(row);
    IntToStrHasNoDelimiters(col);
    assert 'R' !in head;
    assert reply + rest == head + ['R'] + rest;
    IndexOfFirst(head, 'R', rest);
    assert (reply + rest)[..|head| + 1] == reply;
    assert (reply + rest)[|head| + 1..] == rest;
    ParseCursorPositionReport(row, col);
  }

  /** `set_cursor_pos(row, col)`: a CUP sequence ESC [ row ; col H (both default to 1). */
  function SetCursorPos(row: int, col: int): (r: string)
    ensures StartsWith(r, Csi) && EndsWith(r, "H")
  {
    Csi + IntToStr(row) + ";" + IntToStr(col) + "H"
  }

  /**
   * The CUP sequence carries the same parameters as the CPR reply for that
   * position: replacing its final `H` by `R` gives text that parses back to
   * `(row, col)`.
   */
  lemma SetCursorPosParameters(row: int, col: int)
    ensures var r := SetCursorPos(row, col); ParseCursorReply(r[..|r| - 1] + "R") == Some((row, col))
  {
    var r := SetCursorPos(row, col);
    assert r[..|r| - 1] + "R" == CursorPositionReport(row, col);
    ParseCursorPositionReport(row, col);
  }

  /** The defaults of `set_cursor_pos` move to the top-left cell. */
  lemma SetCursorPosDefault()
    ensures SetCursorPos(1, 1) == Csi + "1;1H"
  {
    var one := IntToStr(1);
    assert one == "1" by {
      assert NatToDecimal(1) == [DigitChar(1)];
    }
    assert SetCursorPos(1, 1) == Csi + one + ";" + one + "H";
  }
}
