/**
 * The interactive terminal menu: one frame recomputes the scroll window,
 * prints the title and the visible items, and applies one key.  The loop is
 * a function folded over a finite script of keys; the terminal size is a
 * parameter instead of a live query.
 */
module Menu {
  import opened Wrappers
  import opened PyStr
  import opened Terminal

  function Min(a: int, b: int): int { if a <= b then a else b }
  function Max(a: int, b: int): int { if a >= b then a else b }

  /** Rows of the terminal the menu does not use: shell prompt, title, trailing blank line. */
  const ExtraLines: nat := 3

  /** Columns and rows available to the items.  The height may be zero or negative on a tiny terminal. */
  datatype MenuSize = MenuSize(width: nat, height: int)

  /** `_get_menu_size`, given the terminal's columns and lines. */
  function MenuSizeOf(columns: nat, lines: nat): (r: MenuSize)
    ensures r.width == columns && r.height + ExtraLines == lines
  {
    MenuSize(columns, lines - ExtraLines)
  }

  /** A menu: items in navigation order, their formatter, the focus colour and the initially focused index. */
  datatype Menu<!T> = Menu(title: string, items: seq<T>, format: T -> string, focusColor: ColorSpec, defaultIndex: int)

  /** `_get_display_count`: how many item rows a frame prints. */
  function DisplayCount(n: nat, height: int): (dc: int)
    ensures dc <= n && dc <= height
    ensures dc == n || dc == height
  {
    Min(n, height)
  }

  /** A menu frame fits the terminal: title, item rows, blank line and prompt take at most `lines` rows. */
  lemma FrameFitsTerminal(n: nat, columns: nat, lines: nat)
    requires lines >= ExtraLines
    ensures 1 + Max(0, DisplayCount(n, MenuSizeOf(columns, lines).height)) + 2 <= lines
  {
  }

  /** The rows `scroll .. scroll + dc - 1` a frame prints are valid item indices. */
  predicate WindowInRange(n: nat, height: int, scroll: int) {
    var dc := DisplayCount(n, height);
    dc <= 0 || (0 <= scroll && scroll + dc <= n)
  }

  /** The focused item is among the printed rows. */
  predicate FocusVisible(n: nat, height: int, focus: int, scroll: int) {
    scroll <= focus <= scroll + DisplayCount(n, height) - 1
  }

  /**
   * `_get_scroll_index` exactly as written.  Its first guard, `n < dc`, can
   * never hold because `dc <= n`.  For a height that stays fixed it keeps the
   * window inside the list, and from height 2 on it also keeps the focused
   * item on screen.
   */
  function ScrollIndex(n: nat, height: int, focus: int, scroll: int): (r: int)
    ensures 1 <= height && 0 <= focus < n && WindowInRange(n, height, scroll) ==> WindowInRange(n, height, r)
    ensures 2 <= height && 0 <= focus < n && WindowInRange(n, height, scroll) ==> FocusVisible(n, height, focus, r)
  {
    var dc := DisplayCount(n, height);
    if n < dc then 0
    else
      var last := scroll + dc - 1;
      if focus <= scroll then Max(0, focus - 1)
      else if focus >= last then Min(n - 1, focus + 1) - (dc - 1)
      else scroll
  }

  /**
   * From three rows on, the window keeps one item of context on each side of
   * the focus: the item before it, when there is one, is printed above it,
   * and the item after it, when there is one, below it.
   */
  lemma ScrollKeepsContext(n: nat, height: int, focus: int, scroll: int)
    requires 3 <= height && 0 <= focus < n && WindowInRange(n, height, scroll)
    ensures var r := ScrollIndex(n, height, focus, scroll);
      && (0 < focus ==> r < focus)
      && (focus < n - 1 ==> focus < r + DisplayCount(n, height) - 1)
  {
  }

  /** The guard at the top of `_get_scroll_index` never fires. */
  lemma ScrollGuardIsDead(n: nat, height: int)
    ensures !(n < DisplayCount(n, height))
  {
  }

  /**
   * With a one-row window the focused item can leave the screen: in a list
   * of three, moving the focus to item 1 scrolls to item 2.
   */
  lemma HeightOneHidesFocus()
    ensures ScrollIndex(3, 1, 1, 0) == 2
    ensures !FocusVisible(3, 1, 1, ScrollIndex(3, 1, 1, 0))
  {
  }

  /**
   * The scroll index as written goes stale when the terminal grows: ten
   * items, five rows, End scrolls to 5; after the terminal gains three rows
   * the window starts at 5 and spans eight rows, past the last item, so the
   * print loop would index `items[10]`.
   */
  lemma GrowingTerminalOverrunsItems()
    ensures ScrollIndex(10, 5, 9, 0) == 5
    ensures WindowInRange(10, 5, 5)
    ensures ScrollIndex(10, 8, 9, 5) == 5
    ensures !WindowInRange(10, 8, ScrollIndex(10, 8, 9, 5))
  {
  }

  /**
   * The scroll rule with the window clamped into the list, which the model
   * uses.  It keeps the window in range and the focus visible whatever the
   * previous scroll index was, so a terminal that changes size between
   * frames is harmless.
   */
  function ClampedScrollIndex(n: nat, height: int, focus: int, scroll: int): (r: int)
    ensures 1 <= height && 0 <= focus < n ==> WindowInRange(n, height, r)
    ensures 2 <= height && 0 <= focus < n && 0 <= scroll ==> FocusVisible(n, height, focus, r)
  {
    var dc := DisplayCount(n, height);
    var s := ScrollIndex(n, height, focus, scroll);
    if dc <= 0 then s else Max(0, Min(s, n - dc))
  }

  /** For a window already inside the list (every frame at a fixed size) the clamp changes nothing. */
  lemma ClampAgreesWithSource(n: nat, height: int, focus: int, scroll: int)
    requires 0 <= focus < n && WindowInRange(n, height, scroll)
    ensures ClampedScrollIndex(n, height, focus, scroll) == ScrollIndex(n, height, focus, scroll)
  {
  }

  // -------------------------------------------------------------- key input

  /** What one key does to the menu. */
  datatype Action = Accept | Cancel | MoveTo(focus: int)

  /**
   * `_handle_input`: Return accepts, Escape cancels, navigation keys move
   * the focus, and the focus is then clamped into the list.
   */
  function HandleInput(key: Key, n: nat, height: int, focus: int): (a: Action)
    ensures a == Accept <==> key == RETURN
    ensures a == Cancel <==> key == ESCAPE
    ensures n >= 1 && a.MoveTo? ==> 0 <= a.focus < n
  {
    if key == RETURN then Accept
    else if key == ESCAPE then Cancel
    else
      var moved :=
        if key == UP then focus - 1
        else if key == DOWN then focus + 1
        else if key == PAGE_UP then focus - height
        else if key == PAGE_DOWN then focus + height
        else if key == HOME then 0
        else if key == END then n - 1
        else focus;
      MoveTo(Min(Max(0, moved), n - 1))
  }

  /** Clamps a focus index into `[0, n - 1]`. */
  function ClampFocus(n: nat, f: int): (r: int)
    requires n >= 1
    ensures 0 <= r < n
    ensures 0 <= f < n ==> r == f
    ensures f < 0 ==> r == 0
    ensures f >= n ==> r == n - 1
  {
    Min(Max(0, f), n - 1)
  }

  /** The effect of each navigation key on an in-range focus, and of every other key. */
  lemma NavigationKeys(key: Key, n: nat, height: int, focus: int)
    requires 0 <= focus < n
    ensures key == UP ==> HandleInput(key, n, height, focus) == MoveTo(ClampFocus(n, focus - 1))
    ensures key == DOWN ==> HandleInput(key, n, height, focus) == MoveTo(ClampFocus(n, focus + 1))
    ensures key == PAGE_UP ==> HandleInput(key, n, height, focus) == MoveTo(ClampFocus(n, focus - height))
    ensures key == PAGE_DOWN ==> HandleInput(key, n, height, focus) == MoveTo(ClampFocus(n, focus + height))
    ensures key == HOME ==> HandleInput(key, n, height, focus) == MoveTo(0)
    ensures key == END ==> HandleInput(key, n, height, focus) == MoveTo(n - 1)
    ensures key == LEFT || key == RIGHT ==> HandleInput(key, n, height, focus) == MoveTo(focus)
    ensures key !in NamedKeys ==> HandleInput(key, n, height, focus) == MoveTo(focus)
  {
    NamedKeysDistinct();
  }

  // -------------------------------------------------------------- rendering

  /**
   * The visible text of an item row: a `"> "` or `"  "` indent and the
   * formatted item, cut to the width and space-padded to exactly the width.
   */
  function RowText(text: string, focused: bool, width: nat): (r: string)
    ensures |r| == width
    ensures var line := (if focused then "> " else "  ") + text;
      forall i :: 0 <= i < width ==> r[i] == if i < |line| then line[i] else ' '
  {
    var line := (if focused then "> " else "  ") + text;
    LJust(Take(line, width), width)
  }

  /** `_print_item`: the row text in the focus colour when focused, else in SGR parameter `0`. */
  function ItemLine(text: string, focused: bool, width: nat, focusColor: ColorSpec): string {
    Colorize(RowText(text, focused, width), if focused then focusColor else Code("0"))
  }

  /** A printed item row carries exactly `width` visible characters, whatever the item's length. */
  lemma ItemLineWidth(text: string, focused: bool, width: nat, focusColor: ColorSpec)
    requires focused ==> 'm' !in SgrParameter(focusColor)
    ensures var u := Uncolorize(ItemLine(text, focused, width, focusColor));
      && u.Some?
      && u.value.0 == (if focused then SgrParameter(focusColor) else "0")
      && u.value.1 == RowText(text, focused, width)
      && |u.value.1| == width
  {
    var color := if focused then focusColor else Code("0");
    ColorizeRoundTrip(RowText(text, focused, width), color);
  }

  /** The printed line for item `index`, highlighted iff it is the focused one. */
  function ItemRow<T>(m: Menu<T>, width: nat, focus: int, index: nat): string
    requires index < |m.items|
  {
    ItemLine(m.format(m.items[index]), index == focus, width, m.focusColor)
  }

  /** The printed rows for items `scroll .. scroll + count - 1`. */
  function ItemRows<T>(m: Menu<T>, width: nat, focus: int, scroll: nat, count: nat): (rows: seq<string>)
    requires scroll + count <= |m.items|
    ensures |rows| == count
    ensures forall k :: 0 <= k < count ==> rows[k] == ItemRow(m, width, focus, scroll + k)
  {
    seq(count, k requires 0 <= k < count => ItemRow(m, width, focus, scroll + k))
  }

  /** `_print_menu`: the title, then the rows for items `scroll .. scroll + dc - 1`. */
  function RenderMenu<T>(m: Menu<T>, size: MenuSize, focus: int, scroll: int): (lines: seq<string>)
    requires WindowInRange(|m.items|, size.height, scroll)
    ensures |lines| == 1 + Max(0, DisplayCount(|m.items|, size.height))
    ensures lines[0] == m.title
    ensures forall i :: 1 <= i < |lines| ==> 0 <= scroll + i - 1 < |m.items| && lines[i] == ItemRow(m, size.width, focus, scroll + i - 1)
  {
    var count := Max(0, DisplayCount(|m.items|, size.height));
    if count == 0 then [m.title]
    else
      var rows := ItemRows(m, size.width, focus, scroll, count);
      TitleThenRows(m.title, rows);
      [m.title] + rows
  }

  /** Line `i` after the title is row `i - 1`. */
  lemma TitleThenRows(title: string, rows: seq<string>)
    ensures forall i :: 1 <= i < 1 + |rows| ==> ([title] + rows)[i] == rows[i - 1]
  {
  }

  // ------------------------------------------------------------------- loop

  /** The menu's state between frames. */
  datatype MenuState = MenuState(focus: int, scroll: int)

  datatype Outcome =
    | Selected(index: nat, rest: seq<Key>)  // Return: the focused item, and the keys not yet read
    | Cancelled(rest: seq<Key>)             // Escape: `StopMenu`
    | IndexError                            // Return on an empty list
    | NeedMoreInput                         // the script ran out while the menu waits for a key

  /** A run of the loop: its outcome and the state each printed frame was drawn from. */
  datatype Run = Run(outcome: Outcome, frames: seq<MenuState>)

  /** The state invariant of the loop, checked at the top of every frame. */
  predicate LoopInvariant(n: nat, height: int, st: MenuState) {
    0 <= st.focus < n && WindowInRange(n, height, st.scroll)
  }

  /**
   * The `while True` loop of `show`: update the scroll index, print a frame,
   * read one key; stop on Return or Escape, otherwise move the focus and
   * draw the next frame.
   */
  function Loop(n: nat, height: int, st: MenuState, keys: seq<Key>): (r: Run)
    requires LoopInvariant(n, height, st)
    ensures 1 <= |r.frames| <= |keys| + 1
    ensures r.outcome.Selected? ==> r.outcome.index < n && r.outcome.index == r.frames[|r.frames| - 1].focus
    ensures !r.outcome.IndexError?
    ensures forall i :: 0 <= i < |r.frames| ==> LoopInvariant(n, height, r.frames[i])
    ensures 2 <= height ==> forall i :: 0 <= i < |r.frames| ==>
      FocusVisible(n, height, r.frames[i].focus, r.frames[i].scroll)
    ensures r.frames[0].focus == st.focus
    decreases |keys|
  {
    var scroll := ClampedScrollIndex(n, height, st.focus, st.scroll);
    var frame := MenuState(st.focus, scroll);
    if |keys| == 0 then Run(NeedMoreInput, [frame])
    else
      match HandleInput(keys[0], n, height, st.focus)
      case Accept => Run(Selected(st.focus, keys[1..]), [frame])
      case Cancel => Run(Cancelled(keys[1..]), [frame])
      case MoveTo(f) =>
        var next := Loop(n, height, MenuState(f, scroll), keys[1..]);
        Run(next.outcome, [frame] + next.frames)
  }

  /** `show` on a non-empty menu, starting at `default_index` with scroll 0. */
  function Show<T>(m: Menu<T>, size: MenuSize, keys: seq<Key>): (r: Run)
    requires 0 <= m.defaultIndex < |m.items|
    ensures r.outcome.Selected? ==> r.outcome.index < |m.items|
    ensures !r.outcome.IndexError?
    ensures |r.frames| >= 1 && r.frames[0].focus == m.defaultIndex
  {
    Loop(|m.items|, size.height, MenuState(m.defaultIndex, 0), keys)
  }

  /** The lines printed for each frame of a run of `Show`. */
  function Screens<T>(m: Menu<T>, size: MenuSize, frames: seq<MenuState>): (r: seq<seq<string>>)
    requires forall i :: 0 <= i < |frames| ==> WindowInRange(|m.items|, size.height, frames[i].scroll)
    ensures |r| == |frames|
    ensures forall i :: 0 <= i < |r| ==> r[i] == RenderMenu(m, size, frames[i].focus, frames[i].scroll)
  {
    seq(|frames|, i requires 0 <= i < |frames| => RenderMenu(m, size, frames[i].focus, frames[i].scroll))
  }

  /** An empty list prints only the title; Return then indexes `items[...]` and fails. */
  function EmptyLoop(keys: seq<Key>): (r: Outcome)
    ensures !r.Selected?
    ensures match FirstTerminal(keys)
      case None => r == NeedMoreInput
      case Some(i) => keys[i] == ESCAPE ==> r == Cancelled(keys[i + 1..])
    decreases |keys|
  {
    if |keys| == 0 then NeedMoreInput
    else if keys[0] == RETURN then IndexError
    else if keys[0] == ESCAPE then Cancelled(keys[1..])
    else EmptyLoop(keys[1..])
  }

  /** `show_menu`: an empty list never selects anything. */
  function ShowMenu<T>(m: Menu<T>, size: MenuSize, keys: seq<Key>): (r: Outcome)
    requires |m.items| > 0 ==> 0 <= m.defaultIndex < |m.items|
    ensures r.Selected? ==> r.index < |m.items|
    ensures r.IndexError? <==> |m.items| == 0 && FirstTerminal(keys).Some? && keys[FirstTerminal(keys).value] == RETURN
    ensures match FirstTerminal(keys)
      case None => r == NeedMoreInput
      case Some(i) => keys[i] == ESCAPE ==> r == Cancelled(keys[i + 1..])
  {
    if |m.items| == 0 then
      EmptyLoopIndexError(keys);
      EmptyLoop(keys)
    else
      LoopOutcome(|m.items|, size.height, MenuState(m.defaultIndex, 0), keys);
      Show(m, size, keys).outcome
  }

  /** In an empty menu the first Return or Escape decides; only Return fails. */
  lemma {:induction false} EmptyLoopIndexError(keys: seq<Key>)
    ensures EmptyLoop(keys) == IndexError <==> FirstTerminal(keys).Some? && keys[FirstTerminal(keys).value] == RETURN
    decreases |keys|
  {
    if |keys| > 0 && keys[0] != RETURN && keys[0] != ESCAPE {
      EmptyLoopIndexError(keys[1..]);
    }
  }

  /** Index of the first Return or Escape in the script. */
  function FirstTerminal(keys: seq<Key>): (r: Option<nat>)
    ensures r.Some? ==> r.value < |keys| && (keys[r.value] == RETURN || keys[r.value] == ESCAPE)
    ensures r.Some? ==> forall j :: 0 <= j < r.value ==> keys[j] != RETURN && keys[j] != ESCAPE
    ensures r.None? ==> forall j :: 0 <= j < |keys| ==> keys[j] != RETURN && keys[j] != ESCAPE
    decreases |keys|
  {
    if |keys| == 0 then None
    else if keys[0] == RETURN || keys[0] == ESCAPE then Some(0)
    else match FirstTerminal(keys[1..])
      case None => None
      case Some(k) => Some(k + 1)
  }

  // ------------------------------------------------------- loop properties

  /**
   * The first Return or Escape in the script decides the run: Escape
   * cancels, Return selects the item focused in the frame on screen, and
   * without either the menu is still waiting after one frame per key.
   */
  lemma {:induction false} LoopOutcome(n: nat, height: int, st: MenuState, keys: seq<Key>)
    requires LoopInvariant(n, height, st)
    ensures var r := Loop(n, height, st, keys);
      match FirstTerminal(keys)
      case None => r.outcome == NeedMoreInput && |r.frames| == |keys| + 1
      case Some(i) =>
        && |r.frames| == i + 1
        && (keys[i] == ESCAPE ==> r.outcome == Cancelled(keys[i + 1..]))
        && (keys[i] == RETURN ==> r.outcome == Selected(r.frames[i].focus, keys[i + 1..]))
    decreases |keys|
  {
    if |keys| > 0 && keys[0] != RETURN && keys[0] != ESCAPE {
      var scroll := ClampedScrollIndex(n, height, st.focus, st.scroll);
      var f := HandleInput(keys[0], n, height, st.focus).focus;
      var tail := keys[1..];
      LoopOutcome(n, height, MenuState(f, scroll), tail);
      match FirstTerminal(tail)
      case None =>
      case Some(i) =>
        assert tail[i + 1..] == keys[i + 2..];
    }
  }

  /**
   * Every frame of a run follows the source's rules: its focus is the
   * previous frame's focus moved by the key read there, and its scroll index
   * is `_get_scroll_index` as written applied to the previous frame's.
   */
  lemma {:induction false} LoopFollowsSourceRules(n: nat, height: int, st: MenuState, keys: seq<Key>)
    requires LoopInvariant(n, height, st)
    ensures var fr := Loop(n, height, st, keys).frames;
      && fr[0] == MenuState(st.focus, ScrollIndex(n, height, st.focus, st.scroll))
      && forall i :: 1 <= i < |fr| ==>
        && HandleInput(keys[i - 1], n, height, fr[i - 1].focus) == MoveTo(fr[i].focus)
        && fr[i].scroll == ScrollIndex(n, height, fr[i].focus, fr[i - 1].scroll)
    decreases |keys|
  {
    ClampAgreesWithSource(n, height, st.focus, st.scroll);
    var scroll := ClampedScrollIndex(n, height, st.focus, st.scroll);
    if |keys| > 0 && keys[0] != RETURN && keys[0] != ESCAPE {
      var f := HandleInput(keys[0], n, height, st.focus).focus;
      var tail := keys[1..];
      LoopFollowsSourceRules(n, height, MenuState(f, scroll), tail);
      var fr := Loop(n, height, st, keys).frames;
      var nx := Loop(n, height, MenuState(f, scroll), tail).frames;
      assert fr == [MenuState(st.focus, scroll)] + nx;
      forall i | 2 <= i < |fr|
        ensures HandleInput(keys[i - 1], n, height, fr[i - 1].focus) == MoveTo(fr[i].focus)
        ensures fr[i].scroll == ScrollIndex(n, height, fr[i].focus, fr[i - 1].scroll)
      {
        assert fr[i] == nx[i - 1] && fr[i - 1] == nx[i - 2] && keys[i - 1] == tail[i - 2];
      }
    }
  }

  /** When every item fits, the scroll index of every frame is 0. */
  lemma SmallListNeverScrolls<T>(m: Menu<T>, size: MenuSize, keys: seq<Key>)
    requires 0 <= m.defaultIndex < |m.items| <= size.height
    ensures var fr := Show(m, size, keys).frames;
      forall i :: 0 <= i < |fr| ==> fr[i].scroll == 0
  {
  }

  /** Twenty items in a five-row window: End scrolls to 15, Home back to 0. */
  lemma TwentyItemsEndThenHome()
    ensures Loop(20, 5, MenuState(0, 0), [END, HOME]).frames ==
      [MenuState(0, 0), MenuState(19, 15), MenuState(0, 0)]
  {
    NamedKeysDistinct();
  }

  /** Page Down from the first of twenty items in a five-row window focuses item 5 and scrolls to 2. */
  lemma PageDownFromTop()
    ensures Loop(20, 5, MenuState(0, 0), [PAGE_DOWN]).frames == [MenuState(0, 0), MenuState(5, 2)]
  {
    NamedKeysDistinct();
  }

  /** In every frame whose window shows the focus, the focused item is drawn highlighted and no other row is. */
  lemma FrameHighlightsFocus<T>(m: Menu<T>, size: MenuSize, st: MenuState)
    requires LoopInvariant(|m.items|, size.height, st)
    requires FocusVisible(|m.items|, size.height, st.focus, st.scroll)
    ensures var lines := RenderMenu(m, size, st.focus, st.scroll);
      && 1 + st.focus - st.scroll < |lines|
      && lines[1 + st.focus - st.scroll] == ItemLine(m.format(m.items[st.focus]), true, size.width, m.focusColor)
      && forall i :: 1 <= i < |lines| && i != 1 + st.focus - st.scroll ==>
        lines[i] == ItemLine(m.format(m.items[st.scroll + i - 1]), false, size.width, m.focusColor)
  {
    FocusedRowHighlighted(m, size, st);
    OtherRowsPlain(m, size, st);
  }

  lemma FocusedRowHighlighted<T>(m: Menu<T>, size: MenuSize, st: MenuState)
    requires LoopInvariant(|m.items|, size.height, st)
    requires FocusVisible(|m.items|, size.height, st.focus, st.scroll)
    ensures var lines := RenderMenu(m, size, st.focus, st.scroll);
      && 1 + st.focus - st.scroll < |lines|
      && lines[1 + st.focus - st.scroll] == ItemLine(m.format(m.items[st.focus]), true, size.width, m.focusColor)
  {
    var j := 1 + st.focus - st.scroll;
    assert st.scroll + j - 1 == st.focus;
    RenderedRow(m, size, st.focus, st.scroll, j);
  }

  lemma OtherRowsPlain<T>(m: Menu<T>, size: MenuSize, st: MenuState)
    requires LoopInvariant(|m.items|, size.height, st)
    ensures var lines := RenderMenu(m, size, st.focus, st.scroll);
      forall i :: 1 <= i < |lines| && i != 1 + st.focus - st.scroll ==>
        lines[i] == ItemLine(m.format(m.items[st.scroll + i - 1]), false, size.width, m.focusColor)
  {
    var lines := RenderMenu(m, size, st.focus, st.scroll);
    var dc := DisplayCount(|m.items|, size.height);
    assert |lines| == 1 + Max(0, dc);
    forall i | 1 <= i < |lines| && i != 1 + st.focus - st.scroll
      ensures lines[i] == ItemLine(m.format(m.items[st.scroll + i - 1]), false, size.width, m.focusColor)
    {
      OtherRowPlain(m, size, st, i);
    }
  }

  /** Row `i` of a frame, when it is not the focused item's row, is printed unhighlighted. */
  lemma OtherRowPlain<T>(m: Menu<T>, size: MenuSize, st: MenuState, i: int)
    requires LoopInvariant(|m.items|, size.height, st)
    requires 1 <= i <= DisplayCount(|m.items|, size.height) && i != 1 + st.focus - st.scroll
    ensures 0 <= st.scroll + i - 1 < |m.items|
    ensures i < |RenderMenu(m, size, st.focus, st.scroll)|
    ensures RenderMenu(m, size, st.focus, st.scroll)[i] ==
      ItemLine(m.format(m.items[st.scroll + i - 1]), false, size.width, m.focusColor)
  {
    RowOfFrame(m, size, st.focus, st.scroll, i);
    PlainRow(m, size.width, st.focus, st.scroll + i - 1);
  }

  /** Row `i` of a frame is the printed line of item `scroll + i - 1`. */
  lemma RowOfFrame<T>(m: Menu<T>, size: MenuSize, focus: int, scroll: int, i: int)
    requires WindowInRange(|m.items|, size.height, scroll)
    requires 1 <= i <= DisplayCount(|m.items|, size.height)
    ensures 0 <= scroll + i - 1 < |m.items|
    ensures i < |RenderMenu(m, size, focus, scroll)|
    ensures RenderMenu(m, size, focus, scroll)[i] == ItemRow(m, size.width, focus, scroll + i - 1)
  {
  }

  /** A row other than the focused one is printed unhighlighted. */
  lemma PlainRow<T>(m: Menu<T>, width: nat, focus: int, index: nat)
    requires index < |m.items| && index != focus
    ensures ItemRow(m, width, focus, index) == ItemLine(m.format(m.items[index]), false, width, m.focusColor)
  {
  }

  /** Row `i` of a frame shows item `scroll + i - 1`, highlighted iff it is the focused one. */
  lemma RenderedRow<T>(m: Menu<T>, size: MenuSize, focus: int, scroll: int, i: int)
    requires WindowInRange(|m.items|, size.height, scroll)
    requires 1 <= i <= DisplayCount(|m.items|, size.height)
    ensures 0 <= scroll + i - 1 < |m.items|
    ensures i < |RenderMenu(m, size, focus, scroll)|
    ensures RenderMenu(m, size, focus, scroll)[i] ==
      ItemLine(m.format(m.items[scroll + i - 1]), scroll + i - 1 == focus, size.width, m.focusColor)
  {
  }

  // ---------------------------------------------------------------- redraw

  /** `_reset_cursor_to_top`: the row to return to, `dc + 1` rows up from `row` but never above row 1. */
  function ResetRow(row: int, dc: int): (r: int)
    ensures r >= 1
    ensures row - dc - 1 >= 1 ==> r + dc + 1 == row
    ensures row - dc - 1 < 1 ==> r == 1
  {
    Max(1, row - dc - 1)
  }

  /** After a frame drawn from row `top` (title plus `dc` rows) the redraw row is `top` again. */
  lemma RedrawReturnsToTop(top: int, dc: int)
    requires top >= 1 && dc >= 0
    ensures ResetRow(top + 1 + dc, dc) == top
  {
  }

  /** Outcome of `_reset_cursor_to_top` given the characters the terminal replies with. */
  datatype Redraw =
    | Redraw(output: string, rest: string)  // the DSR query, then the CUP move
    | RedrawFailed                          // the reply does not parse: `ValueError`
    | AwaitingRedraw                        // no complete reply yet

  /** Queries the cursor row, then moves to column 1 of the frame's first row. */
  function ResetCursorToTop(dc: int, replies: string): (r: Redraw)
    ensures r.Redraw? ==> StartsWith(r.output, DeviceStatusReport)
    ensures r.RedrawFailed? <==> GetCursorPos(replies).MalformedReply?
    ensures r.AwaitingRedraw? <==> GetCursorPos(replies).AwaitingReply?
    ensures var p := GetCursorPos(replies);
      p.Position? ==> r == Redraw(DeviceStatusReport + SetCursorPos(ResetRow(p.row, dc), 1), p.rest)
  {
    match GetCursorPos(replies)
    case Position(row, _, rest) => Redraw(DeviceStatusReport + SetCursorPos(ResetRow(row, dc), 1), rest)
    case MalformedReply => RedrawFailed
    case AwaitingReply => AwaitingRedraw
  }

  /**
   * When the terminal reports the row just below a frame drawn from `top`
   * (for instance with the reply `CursorPositionReport(top + 1 + dc, col)`,
   * see `GetCursorPosRoundTrip`), the redraw moves back to `top`.
   */
  lemma ResetCursorAfterFrame(top: int, dc: int, col: int, replies: string, rest: string)
    requires top >= 1 && dc >= 0
    ensures GetCursorPos(replies) == Position(top + 1 + dc, col, rest) ==>
      ResetCursorToTop(dc, replies) == Redraw(DeviceStatusReport + SetCursorPos(top, 1), rest)
  {
    if GetCursorPos(replies) == Position(top + 1 + dc, col, rest) {
      RedrawReturnsToTop(top, dc);
    }
  }

  // ---------------------------------------------------------------- prompt

  const Yes: string := "Yes"
  const No: string := "No"

  /** The two-item menu `show_prompt` builds. */
  function PromptMenu(prompt: string, defaultNo: bool): (m: Menu<string>)
    ensures 0 <= m.defaultIndex < |m.items|
  {
    Menu(prompt, [Yes, No], s => s, Named(Green), if defaultNo then 1 else 0)
  }

  datatype Answer = Answered(yes: bool, rest: seq<Key>) | AwaitingAnswer

  /** `show_prompt`: true iff "Yes" is chosen; cancelling answers false instead of propagating. */
  function ShowPrompt(prompt: string, defaultNo: bool, size: MenuSize, keys: seq<Key>): (r: Answer)
    ensures var o := Show(PromptMenu(prompt, defaultNo), size, keys).outcome;
      && (r.Answered? && r.yes <==> o.Selected? && o.index == 0)
      && (r.AwaitingAnswer? <==> o.NeedMoreInput?)
  {
    var m := PromptMenu(prompt, defaultNo);
    match Show(m, size, keys).outcome
    case Selected(i, rest) => Answered(m.items[i] == Yes, rest)
    case Cancelled(rest) => Answered(false, rest)
    // the two-item list is never empty, so `Show` cannot fail on it
    case IndexError => assert false; AwaitingAnswer
    case NeedMoreInput => AwaitingAnswer
  }

  /** Return at once answers with the default; Escape at once answers no. */
  lemma ShowPromptFirstKey(prompt: string, defaultNo: bool, size: MenuSize, rest: seq<Key>)
    ensures ShowPrompt(prompt, defaultNo, size, [RETURN] + rest) == Answered(!defaultNo, rest)
    ensures ShowPrompt(prompt, defaultNo, size, [ESCAPE] + rest) == Answered(false, rest)
  {
    NamedKeysDistinct();
    assert ([RETURN] + rest)[1..] == rest;
    assert ([ESCAPE] + rest)[1..] == rest;
  }
}
