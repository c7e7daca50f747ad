/**
 * ZMK hardware metadata: the classification predicates over hardware
 * entries, the keyboard/controller selection rules, the names of a
 * keyboard's configuration files and the update of the build matrix's
 * `include` list.
 */
module Zmk {
  import opened Wrappers
  import opened PyStr
  import opened Terminal
  import Menu
  import Util

  // --------------------------------------------------------------- metadata

  /** The `type` field of a metadata entry. */
  datatype HardwareType = Board | Shield | Interconnect

  /**
   * One entry of the hardware metadata list.  The list-valued fields are
   * optional in the metadata (`NotRequired`); `None` is a missing key.
   * `needs` is the metadata's `requires` field (a keyword in Dafny).
   */
  datatype Hardware = Hardware(
    kind: HardwareType,
    id: string,
    name: string,
    directory: string,
    outputs: Option<seq<string>>,
    siblings: Option<seq<string>>,
    features: Option<seq<string>>,
    exposes: Option<seq<string>>,
    needs: Option<seq<string>>)

  predicate IsBoard(h: Hardware) {
    h.kind == Board
  }

  predicate IsShield(h: Hardware) {
    h.kind == Shield
  }

  /** A shield, or a board with the `keys` feature (no `features` counts as none). */
  predicate IsKeyboard(h: Hardware) {
    if IsBoard(h) then "keys" in h.features.GetOr([]) else IsShield(h)
  }

  /** A board that is not a keyboard. */
  predicate IsController(h: Hardware) {
    IsBoard(h) && !IsKeyboard(h)
  }

  /** Every keyboard is either a board or a shield, never a controller; interconnects are neither. */
  lemma Classification(h: Hardware)
    ensures IsKeyboard(h) ==> !IsController(h)
    ensures IsBoard(h) ==> (IsKeyboard(h) <==> !IsController(h))
    ensures IsShield(h) ==> IsKeyboard(h) && !IsController(h)
    ensures h.kind == Interconnect ==> !IsKeyboard(h) && !IsController(h)
    ensures IsBoard(h) && h.features.None? ==> IsController(h)
  {
  }

  /** `all(r in exposes for r in requires)`, one requirement at a time. */
  function AllExposed(needs: seq<string>, exposes: seq<string>): (ok: bool)
    decreases |needs|
  {
    if |needs| == 0 then true
    else needs[0] in exposes && AllExposed(needs[1..], exposes)
  }

  /** The generator walk holds exactly when every requirement is exposed. */
  lemma {:induction false} AllExposedMeansSubset(needs: seq<string>, exposes: seq<string>)
    ensures AllExposed(needs, exposes) <==> forall r :: r in needs ==> r in exposes
    decreases |needs|
  {
    if |needs| > 0 {
      AllExposedMeansSubset(needs[1..], exposes);
      assert needs == [needs[0]] + needs[1..];
    }
  }

  /** The shield's required interconnects (default none) are all exposed by the board (default none). */
  predicate IsInterconnectCompatible(shield: Hardware, board: Hardware) {
    AllExposed(shield.needs.GetOr([]), board.exposes.GetOr([]))
  }

  predicate IsCompatibleController(shield: Hardware, board: Hardware) {
    IsShield(shield) && IsController(board) && IsInterconnectCompatible(shield, board)
  }

  /** Which boards a shield accepts as its controller. */
  lemma CompatibleControllerMeans(shield: Hardware, board: Hardware)
    ensures IsCompatibleController(shield, board) <==>
      && shield.kind == Shield
      && board.kind == Board
      && "keys" !in board.features.GetOr([])
      && forall r :: r in shield.needs.GetOr([]) ==> r in board.exposes.GetOr([])
    ensures shield.needs.GetOr([]) == [] ==> (IsCompatibleController(shield, board) <==> IsShield(shield) && IsController(board))
  {
    AllExposedMeansSubset(shield.needs.GetOr([]), board.exposes.GetOr([]));
  }

  /** The ids of the parts that must be built: `siblings`, or the entry's own id. */
  function SiblingIds(h: Hardware): (ids: seq<string>)
    ensures h.siblings.None? ==> ids == [h.id]
    ensures h.siblings.Some? ==> ids == h.siblings.value
  {
    h.siblings.GetOr([h.id])
  }

  /** Has more than one part to build. */
  predicate IsSplit(h: Hardware) {
    |SiblingIds(h)| > 1
  }

  /** Does not list `ble` among its outputs (no `outputs` counts as USB only). */
  predicate IsUsbOnly(h: Hardware) {
    "ble" !in h.outputs.GetOr([])
  }

  /** Only a listed sibling set of two or more makes a split; a missing `outputs` means USB only. */
  lemma SplitAndUsbOnly(h: Hardware)
    ensures IsSplit(h) <==> h.siblings.Some? && |h.siblings.value| >= 2
    ensures h.outputs.None? ==> IsUsbOnly(h)
    ensures !IsUsbOnly(h) <==> h.outputs.Some? && "ble" in h.outputs.value
  {
  }

  // -------------------------------------------------------------- selection

  /** A list comprehension `[x for x in hs if p(x)]`. */
  function Filter(hs: seq<Hardware>, p: Hardware -> bool): (r: seq<Hardware>)
    ensures |r| <= |hs|
    ensures forall x :: x in r <==> x in hs && p(x)
    decreases |hs|
  {
    if |hs| == 0 then []
    else if p(hs[0]) then [hs[0]] + Filter(hs[1..], p)
    else Filter(hs[1..], p)
  }

  /** The filter keeps order: filtering a concatenation filters each part in turn. */
  lemma {:induction false} FilterConcat(a: seq<Hardware>, b: seq<Hardware>, p: Hardware -> bool)
    ensures Filter(a + b, p) == Filter(a, p) + Filter(b, p)
    decreases |a|
  {
    if |a| > 0 {
      assert (a + b)[0] == a[0] && (a + b)[1..] == a[1..] + b;
      FilterConcat(a[1..], b, p);
    } else {
      assert a + b == b;
    }
  }

  /** `KeyboardSelection`: the chosen keyboard, its controller if it is a shield, and the ids to build. */
  datatype Selection = Selection(
    keyboard: Hardware,
    controller: Option<Hardware>,
    boardIds: seq<string>,
    shieldIds: seq<string>)

  const WiredSplitMessage: string := "Sorry, ZMK does not yet support wired splits"

  function HardwareName(h: Hardware): string {
    h.name
  }

  /** A menu over hardware entries showing each entry's name. */
  function HardwareMenu(title: string, items: seq<Hardware>): (m: Menu.Menu<Hardware>)
    ensures m.items == items && m.defaultIndex == 0
  {
    Menu.Menu(title, items, HardwareName, Named(Green), 0)
  }

  function Keyboards(hardware: seq<Hardware>): seq<Hardware> {
    Filter(hardware, IsKeyboard)
  }

  function Controllers(keyboard: Hardware, hardware: seq<Hardware>): seq<Hardware> {
    Filter(hardware, (x: Hardware) => IsCompatibleController(keyboard, x))
  }

  /**
   * `select_keyboard` given the (already sorted) hardware list and the
   * keys typed into its menus.  Escape in either menu propagates `StopMenu`.
   */
  function SelectKeyboard(hardware: seq<Hardware>, size: Menu.MenuSize, keys: seq<Key>): (r: Util.Flow<Selection>)
    ensures r.Done? ==> r.value.keyboard in hardware && IsKeyboard(r.value.keyboard)
    ensures r.Done? && IsBoard(r.value.keyboard) ==>
      && r.value.controller.None?
      && r.value.boardIds == SiblingIds(r.value.keyboard)
      && r.value.shieldIds == []
    ensures r.Done? && !IsBoard(r.value.keyboard) ==>
      && r.value.controller.Some?
      && r.value.controller.value in hardware
      && IsCompatibleController(r.value.keyboard, r.value.controller.value)
      && r.value.boardIds == [r.value.controller.value.id]
      && r.value.shieldIds == SiblingIds(r.value.keyboard)
      && !(IsSplit(r.value.keyboard) && IsUsbOnly(r.value.controller.value))
    ensures r.StopWizard? ==> r.message == WiredSplitMessage
    ensures var kbs := Keyboards(hardware);
      var first := Menu.ShowMenu(HardwareMenu("Pick a keyboard:", kbs), size, keys);
      && (first.NeedMoreInput? ==> r.AwaitingInput?)
      && (r.Done? ==> first.Selected? && r.value.keyboard == kbs[first.index])
      && (first.Selected? && IsBoard(kbs[first.index]) ==>
            r == Util.Done(Selection(kbs[first.index], None, SiblingIds(kbs[first.index]), []), first.rest))
    ensures r.Done? && r.value.controller.Some? ==>
      var cs := Controllers(r.value.keyboard, hardware);
      var first := Menu.ShowMenu(HardwareMenu("Pick a keyboard:", Keyboards(hardware)), size, keys);
      var second := Menu.ShowMenu(HardwareMenu("Pick an MCU board:", cs), size, first.rest);
      && first.Selected?
      && second.Selected?
      && r.value.controller.value == cs[second.index]
      && r.rest == second.rest
  {
    var keyboards := Keyboards(hardware);
    match Menu.ShowMenu(HardwareMenu("Pick a keyboard:", keyboards), size, keys)
    case Cancelled(_) => Util.StopMenu
    case IndexError => Util.MenuIndexError
    case NeedMoreInput => Util.AwaitingInput
    case Selected(i, rest) =>
      var keyboard := keyboards[i];
      if IsBoard(keyboard) then
        Util.Done(Selection(keyboard, None, SiblingIds(keyboard), []), rest)
      else
        var controllers := Controllers(keyboard, hardware);
        match Menu.ShowMenu(HardwareMenu("Pick an MCU board:", controllers), size, rest)
        case Cancelled(_) => Util.StopMenu
        case IndexError => Util.MenuIndexError
        case NeedMoreInput => Util.AwaitingInput
        case Selected(j, rest') =>
          var controller := controllers[j];
          if IsSplit(keyboard) && IsUsbOnly(controller) then Util.StopWizard(WiredSplitMessage)
          else Util.Done(Selection(keyboard, Some(controller), [controller.id], SiblingIds(keyboard)), rest')
  }

  /**
   * The wizard stops exactly when a split shield is paired with a USB-only
   * controller.  Escape in either menu stops the menus, Return on an empty
   * list (no keyboards, or no controller for the shield) fails, and a menu
   * still waiting for keys leaves the selection waiting.
   */
  lemma SelectKeyboardStops(hardware: seq<Hardware>, size: Menu.MenuSize, keys: seq<Key>)
    ensures var r := SelectKeyboard(hardware, size, keys);
      var kbs := Keyboards(hardware);
      var first := Menu.ShowMenu(HardwareMenu("Pick a keyboard:", kbs), size, keys);
      && (r.StopWizard? <==>
          && first.Selected?
          && !IsBoard(kbs[first.index])
          && var cs := Controllers(kbs[first.index], hardware);
             var second := Menu.ShowMenu(HardwareMenu("Pick an MCU board:", cs), size, first.rest);
             && second.Selected?
             && IsSplit(kbs[first.index])
             && IsUsbOnly(cs[second.index]))
      && (first.Cancelled? ==> r.StopMenu?)
      && (first.IndexError? ==> r.MenuIndexError?)
    ensures var r := SelectKeyboard(hardware, size, keys);
      var kbs := Keyboards(hardware);
      var first := Menu.ShowMenu(HardwareMenu("Pick a keyboard:", kbs), size, keys);
      first.Selected? && !IsBoard(kbs[first.index]) ==>
        var cs := Controllers(kbs[first.index], hardware);
        var second := Menu.ShowMenu(HardwareMenu("Pick an MCU board:", cs), size, first.rest);
        && (second.Cancelled? ==> r.StopMenu?)
        && (second.IndexError? ==> r.MenuIndexError?)
        && (second.NeedMoreInput? ==> r.AwaitingInput?)
  {
  }

  // ------------------------------------------------------------------ files

  /** `<id>.conf`. */
  function ConfigFileName(keyboard: Hardware): (r: string)
    ensures EndsWith(r, ".conf") && RemoveSuffix(r, ".conf") == keyboard.id
  {
    RemoveSuffixOfConcat(keyboard.id, ".conf");
    keyboard.id + ".conf"
  }

  /** `<id>.keymap`. */
  function KeymapFileName(keyboard: Hardware): (r: string)
    ensures EndsWith(r, ".keymap") && RemoveSuffix(r, ".keymap") == keyboard.id
  {
    RemoveSuffixOfConcat(keyboard.id, ".keymap");
    keyboard.id + ".keymap"
  }

  /** Distinct keyboards get distinct files, and a keyboard's two files differ. */
  lemma FileNamesDistinct(a: Hardware, b: Hardware)
    ensures a.id != b.id ==> ConfigFileName(a) != ConfigFileName(b) && KeymapFileName(a) != KeymapFileName(b)
    ensures ConfigFileName(a) != KeymapFileName(a)
  {
    var c := ConfigFileName(a);
    var k := KeymapFileName(a);
    assert c[|c| - 1] == 'f' && k[|k| - 1] == 'p';
  }

  // ---------------------------------------------------------- build matrix

  /** One `include` entry of `build.yaml`: a mapping from keys to values. */
  type Entry = map<string, string>

  /** The entry `add_to_build_matrix` writes for a board, with or without a shield. */
  function BuildEntry(board: string, shield: Option<string>): (e: Entry)
    ensures "board" in e && e["board"] == board
    ensures shield.Some? <==> "shield" in e
    ensures shield.Some? ==> e["shield"] == shield.value
    ensures e.Keys == if shield.Some? then {"board", "shield"} else {"board"}
  {
    match shield
    case None => map["board" := board]
    case Some(s) => map["shield" := s, "board" := board]
  }

  /** The entries for one board: one per shield, or the board alone when there are none. */
  function BoardEntries(board: string, shieldIds: seq<string>): (r: seq<Entry>)
    ensures |shieldIds| == 0 ==> r == [BuildEntry(board, None)]
    ensures |shieldIds| > 0 ==> |r| == |shieldIds| && forall j :: 0 <= j < |r| ==> r[j] == BuildEntry(board, Some(shieldIds[j]))
  {
    if |shieldIds| == 0 then [BuildEntry(board, None)]
    else seq(|shieldIds|, j requires 0 <= j < |shieldIds| => BuildEntry(board, Some(shieldIds[j])))
  }

  /** Every entry of a selection, boards outer and shields inner. */
  function Wanted(boardIds: seq<string>, shieldIds: seq<string>): seq<Entry>
    decreases |boardIds|
  {
    if |boardIds| == 0 then []
    else BoardEntries(boardIds[0], shieldIds) + Wanted(boardIds[1..], shieldIds)
  }

  lemma {:induction false} WantedConcat(a: seq<string>, b: seq<string>, shieldIds: seq<string>)
    ensures Wanted(a + b, shieldIds) == Wanted(a, shieldIds) + Wanted(b, shieldIds)
    decreases |a|
  {
    if |a| > 0 {
      assert (a + b)[0] == a[0] && (a + b)[1..] == a[1..] + b;
      WantedConcat(a[1..], b, shieldIds);
      assert Wanted(a + b, shieldIds) == BoardEntries(a[0], shieldIds) + Wanted(a[1..] + b, shieldIds);
    } else {
      assert a + b == b;
    }
  }

  /** Each board contributes one entry per shield, or one entry when there are no shields. */
  lemma {:induction false} WantedLength(boardIds: seq<string>, shieldIds: seq<string>)
    ensures |Wanted(boardIds, shieldIds)| == |boardIds| * (if |shieldIds| == 0 then 1 else |shieldIds|)
    decreases |boardIds|
  {
    if |boardIds| > 0 {
      WantedLength(boardIds[1..], shieldIds);
      var k := if |shieldIds| == 0 then 1 else |shieldIds|;
      assert |boardIds| * k == k + (|boardIds| - 1) * k;
    }
  }

  /**
   * Board-outer, shield-inner order: the entries of board `i` come after
   * those of every earlier board and before those of every later one.
   */
  lemma WantedOrder(boardIds: seq<string>, shieldIds: seq<string>, i: nat)
    requires i < |boardIds|
    ensures Wanted(boardIds, shieldIds) ==
      Wanted(boardIds[..i], shieldIds) + BoardEntries(boardIds[i], shieldIds) + Wanted(boardIds[i + 1..], shieldIds)
  {
    assert boardIds == boardIds[..i] + ([boardIds[i]] + boardIds[i + 1..]);
    WantedConcat(boardIds[..i], [boardIds[i]] + boardIds[i + 1..], shieldIds);
    WantedConcat([boardIds[i]], boardIds[i + 1..], shieldIds);
    assert [boardIds[i]][1..] == [];
    assert Wanted([boardIds[i]], shieldIds) == BoardEntries(boardIds[i], shieldIds) + Wanted([], shieldIds);
  }

  /** `add_build`: append the entry unless an equal one is already listed. */
  function AddBuild(entries: seq<Entry>, item: Entry): (r: seq<Entry>)
    ensures item in r
    ensures item in entries ==> r == entries
    ensures item !in entries ==> r == entries + [item]
  {
    if item in entries then entries else entries + [item]
  }

  /** `add_build` applied to each item in turn. */
  function AddAll(entries: seq<Entry>, items: seq<Entry>): seq<Entry>
    decreases |items|
  {
    if |items| == 0 then entries else AddAll(AddBuild(entries, items[0]), items[1..])
  }

  /** `data["entries"]` after `add_to_build_matrix`; a missing list starts empty. */
  function BuildMatrix(entries: Option<seq<Entry>>, boardIds: seq<string>, shieldIds: seq<string>): seq<Entry> {
    AddAll(entries.GetOr([]), Wanted(boardIds, shieldIds))
  }

  predicate NoDuplicates(s: seq<Entry>) {
    forall i, j :: 0 <= i < j < |s| ==> s[i] != s[j]
  }

  /**
   * Prior entries keep their place, every wanted entry ends up listed,
   * nothing else is added, and no entry is added twice.
   */
  lemma {:induction false} AddAllProperties(entries: seq<Entry>, items: seq<Entry>)
    ensures var r := AddAll(entries, items);
      && |entries| <= |r| && r[..|entries|] == entries
      && (forall x :: x in items ==> x in r)
      && (forall x :: x in r ==> x in entries || x in items)
      && (NoDuplicates(entries) ==> NoDuplicates(r))
    decreases |items|
  {
    if |items| > 0 {
      var next := AddBuild(entries, items[0]);
      AddAllProperties(next, items[1..]);
      var r := AddAll(entries, items);
      assert r == AddAll(next, items[1..]);
      assert r[..|next|] == next;
      assert r[..|entries|] == next[..|entries|];
      assert items == [items[0]] + items[1..];
      forall x | x in items ensures x in r {
        if x != items[0] {
          assert x in items[1..];
        } else {
          assert x in next;
          var k :| 0 <= k < |next| && next[k] == x;
          assert r[k] == x;
        }
      }
    }
  }

  /** Adding entries that are all present already changes nothing. */
  lemma {:induction false} AddAllPresent(entries: seq<Entry>, items: seq<Entry>)
    requires forall x :: x in items ==> x in entries
    ensures AddAll(entries, items) == entries
    decreases |items|
  {
    if |items| > 0 {
      assert items[0] in items;
      AddAllPresent(entries, items[1..]);
    }
  }

  /** Running the update twice gives the same list as running it once. */
  lemma BuildMatrixIdempotent(entries: Option<seq<Entry>>, boardIds: seq<string>, shieldIds: seq<string>)
    ensures var once := BuildMatrix(entries, boardIds, shieldIds);
      BuildMatrix(Some(once), boardIds, shieldIds) == once
  {
    var items := Wanted(boardIds, shieldIds);
    AddAllProperties(entries.GetOr([]), items);
    AddAllPresent(BuildMatrix(entries, boardIds, shieldIds), items);
  }

  lemma {:induction false} AddAllConcat(entries: seq<Entry>, a: seq<Entry>, b: seq<Entry>)
    ensures AddAll(entries, a + b) == AddAll(AddAll(entries, a), b)
    decreases |a|
  {
    if |a| > 0 {
      assert (a + b)[0] == a[0] && (a + b)[1..] == a[1..] + b;
      AddAllConcat(AddBuild(entries, a[0]), a[1..], b);
      assert AddAll(entries, a + b) == AddAll(AddBuild(entries, a[0]), a[1..] + b);
    } else {
      assert a + b == b;
    }
  }

  /** The inner loop of `add_to_build_matrix`: one board's entries. */
  method AddBoard(entries: seq<Entry>, board: string, shieldIds: seq<string>) returns (result: seq<Entry>)
    ensures result == AddAll(entries, BoardEntries(board, shieldIds))
  {
    var items := BoardEntries(board, shieldIds);
    if |shieldIds| > 0 {
      result := entries;
      var j := 0;
      while j < |shieldIds|
        invariant 0 <= j <= |shieldIds|
        invariant result == AddAll(entries, items[..j])
      {
        var item := BuildEntry(board, Some(shieldIds[j]));
        assert items[..j + 1] == items[..j] + [item];
        AddAllConcat(entries, items[..j], [item]);
        result := AddBuild(result, item);
        j := j + 1;
      }
      assert items[..j] == items;
    } else {
      result := AddBuild(entries, BuildEntry(board, None));
    }
  }

  /** The nested loops of `add_to_build_matrix` over the selection's ids. */
  method AddToBuildMatrix(entries: Option<seq<Entry>>, selected: Selection) returns (result: seq<Entry>)
    ensures result == BuildMatrix(entries, selected.boardIds, selected.shieldIds)
  {
    var boards := selected.boardIds;
    var shields := selected.shieldIds;
    result := entries.GetOr([]);
    ghost var start := result;
    var i := 0;
    while i < |boards|
      invariant 0 <= i <= |boards|
      invariant result == AddAll(start, Wanted(boards[..i], shields))
    {
      ghost var before := Wanted(boards[..i], shields);
      result := AddBoard(result, boards[i], shields);
      assert boards[..i + 1] == boards[..i] + [boards[i]];
      WantedConcat(boards[..i], [boards[i]], shields);
      assert [boards[i]][1..] == [];
      assert Wanted([boards[i]], shields) == BoardEntries(boards[i], shields) + Wanted([], shields);
      assert Wanted(boards[..i + 1], shields) == before + BoardEntries(boards[i], shields);
      AddAllConcat(start, before, BoardEntries(boards[i], shields));
      i := i + 1;
    }
    assert boards[..i] == boards;
  }
}
