# ZMK setup wizard core, modelled in Dafny

This project models the decision logic of the ZMK user-config setup wizard.
That wizard is a command-line tool. It clones a ZMK configuration repository,
lets the user pick a keyboard and controller from ZMK's hardware metadata, and
adds the chosen builds to `build.yaml`.

The model covers these parts:

- **Menu** (`menu.dfy`). This is the interactive terminal menu used by every
  question the wizard asks.
  - One frame does four things. It recomputes the scroll window, renders the
    title and the visible rows, reads one key and moves the focus.
  - The `show` loop is a function folded over a finite script of keys, for a
    terminal size given as a parameter.
  - `show_menu` and the Yes/No `show_prompt` are built on it.
  - Between frames the menu asks the terminal for the cursor row and moves
    back to the frame's top. That exchange is modelled on its own, outside
    the loop.
- **Terminal** (`terminal.dfy`). These are the pure parts of the terminal
  primitives:
  - SGR colouring (section 8.3.117 of ECMA-48);
  - the key byte sequences, and the Windows console decoding of scan codes
    into xterm sequences;
  - the cursor position report (CPR, section 8.3.14) that answers a device
    status report (DSR, section 8.3.35);
  - the cursor position sequence (CUP, section 8.3.21).
- **Util** (`util.dfy`). This holds the wizard's control-flow outcomes
  (`StopWizard`, the menu's `StopMenu`) and the case-insensitive natural sort
  key. The key splits a text into runs of text and digits.
- **Yaml** (`yaml.dfy`). This is the scan that finds where the YAML document
  starts, so that comments before it survive a rewrite. It also holds the
  "keep the prefix, then write" composition of `dump`.
- **Zmk** (`zmk.dfy`). This covers:
  - the predicates that classify hardware entries (board, shield, keyboard,
    controller, compatible controller, split, USB-only);
  - the keyboard and controller selection rules;
  - the `.conf`/`.keymap` file names;
  - the append-if-absent update of the build matrix's `include` list.
- **Repo** (`repo.dfy`). This covers:
  - the GitHub Actions URL derived from the remote;
  - the "has changes" test on `git status --porcelain`;
  - the folder a clone goes into;
  - which repository the wizard works on.
- **PyStr** and **Wrappers** (`pystr.dfy`, `wrappers.dfy`) are helpers. PyStr
  restates the Python string built-ins the source relies on: `strip`,
  `partition`, `removeprefix`/`removesuffix`, `split(...)[-1]`, `ljust`,
  `int()` and `str()` of integers. It works over ASCII. Wrappers provides an
  `Option` type.

Inputs that come from outside the program become parameters:

- the terminal size;
- the keys the user types;
- the characters the terminal replies with;
- the output of git;
- the contents of a file;
- the URL typed at a prompt.

Outcomes that the source raises as exceptions are datatype values. These are
`StopWizard`, `StopMenu`, the `IndexError` of an empty menu, the `ValueError`
of a malformed cursor report, and the `KeyboardInterrupt` of the Windows key
decoding. A Ctrl+C while a menu waits for a key is not modelled (see "Left
out"). A script of keys or replies that runs out is an explicit
"awaiting input" outcome.

The files under `zmk_setup/` named `menu.py`, `util.py` and `yaml.py` are
line-for-line copies of their `zmk/setup/` counterparts. The model of
`zmk/setup/` therefore covers both copies.

## Model

| member | source | states |
|---|---|---|
| `Terminal.ColorCode` | zmk/setup/terminal.py:12-18 | every colour of the enumeration is an SGR parameter of exactly two decimal digits, so it holds no `m` and ends before the `m` that closes the sequence |
| `Terminal.Colorize` | zmk/setup/terminal.py:21-32 | the result starts with ESC [ and ends with the reset ESC [0m; its length is CSI + parameter + `m` + text + reset; the text sits exactly between the parameter's `m` and the reset |
| `Terminal.ColorizeRoundTrip` | zmk/setup/terminal.py:21-32 | splitting a coloured string at its first `m` gives back the SGR parameter and the text, whenever the parameter holds no `m` |
| `Terminal.NamedColorRoundTrip` | zmk/setup/terminal.py:12-32 | for an enumeration colour the round trip holds unconditionally and gives the colour's code |
| `Terminal.NamedKeysDistinct` | zmk/setup/terminal.py:48-57 | the ten key constants are pairwise different, so the menu's key dispatch is unambiguous |
| `Terminal.WindowsReadKey` | zmk/setup/terminal.py:87-105 | Ctrl+C (0x03) and carriage return (0x0D) are never returned as keys; a key is at most four bytes; the unread input is a suffix of the input. The read is interrupted iff the first byte is 0x03. It waits, as `getch` blocks, iff no byte has arrived or only a lone 0x00/0xE0 prefix has |
| `Terminal.WindowsSpecialKeysMatchXterm` | zmk/setup/terminal.py:76-103 | after a 0x00 or 0xE0 prefix, scan codes 71/72/73/75/77/79/80/81 decode to exactly the xterm sequence of Home/Up/PageUp/Left/Right/End/Down/PageDown; any other scan code decodes to the empty key |
| `Terminal.WindowsPlainByte` | zmk/setup/terminal.py:101-105 | any byte other than the two prefixes, 0x03 and 0x0D is returned unchanged as a one-byte key |
| `Terminal.WindowsReturnAndInterrupt` | zmk/setup/terminal.py:95-99 | carriage return reads as RETURN (`\n`); 0x03 raises the interrupt whatever follows |
| `Terminal.GetCursorPos` | zmk/setup/terminal.py:187-192 | the read waits iff no `R` has arrived; a parsed position ends at the first `R` and leaves exactly the characters after it unread |
| `Terminal.GetCursorPosOfReply` | zmk/setup/terminal.py:187-192 | for any reply ending in its first `R`, followed by any input: a reply that `int()` accepts gives its position and leaves that input unread; any other reply gives the `ValueError` |
| `Terminal.ParseCursorReplyFields` | zmk/setup/terminal.py:191-192 | a reply ESC [ rows ; cols R parses to the pair of `int()` values of the two fields, and fails as soon as either field is not an integer |
| `Terminal.ParseDecimalCursorReply` | zmk/setup/terminal.py:191-192 | a reply with decimal digit fields (leading zeros allowed) parses to their decimal values |
| `Terminal.ParseCursorPositionReport` | zmk/setup/terminal.py:187-192 | the report a terminal sends for any (row, col) parses back to (row, col) |
| `Terminal.GetCursorPosRoundTrip` | zmk/setup/terminal.py:179-192 | reading a report followed by further input yields that position and leaves the further input unread |
| `Terminal.SetCursorPos` | zmk/setup/terminal.py:195-201 | the CUP sequence starts with ESC [ and ends with `H` |
| `Terminal.SetCursorPosParameters` | zmk/setup/terminal.py:195-201 | the CUP sequence's parameters are the row and column: with the final `H` replaced by `R` it parses back to (row, col) |
| `Terminal.SetCursorPosDefault` | zmk/setup/terminal.py:195-201 | the defaults produce ESC [1;1H, the top-left cell |
| `PyStr.ParseIntOfIntToStr` | zmk/setup/terminal.py:192 | `int()` of the decimal text of any integer is that integer |
| `PyStr.StripIdempotent` | zmk/setup/yaml.py:45 | stripping twice is stripping once |
| `Menu.FrameFitsTerminal` | zmk/setup/menu.py:133-139 | on a terminal of at least three lines, the title, the item rows, the blank line and the prompt fit in the terminal's lines |
| `Menu.DisplayCount` | zmk/setup/menu.py:138-139 | the number of item rows printed is at most the item count and at most the height, and equals one of them |
| `Menu.ScrollIndex` | zmk/setup/menu.py:144-160 | the scroll rule as written. For a fixed height of at least 1 and an in-range focus it keeps the window inside the list; from height 2 on it also keeps the focus inside the window |
| `Menu.ScrollKeepsContext` | zmk/setup/menu.py:151-157 | from height 3 on, the window keeps one item of context on each side of the focus: the item before it (`focus - 1`) and the item after it (`focus + 1`) are printed whenever they exist |
| `Menu.ScrollGuardIsDead` | zmk/setup/menu.py:144-149 | the guard `items_count < display_count` never holds |
| `Menu.HeightOneHidesFocus` | zmk/setup/menu.py:144-160 | with a one-row window the focused item can be scrolled off screen: three items, focus 1, scroll becomes 2 |
| `Menu.GrowingTerminalOverrunsItems` | zmk/setup/menu.py:148-160 | as written, the rule keeps a stale scroll index when the terminal grows. With 10 items, End at height 5 scrolls to 5; at height 8 the scroll stays 5, so the window runs past the last item |
| `Menu.ClampedScrollIndex` | zmk/setup/menu.py:144-160 | for an in-range focus the corrected rule keeps the window inside the list whatever the previous scroll index was; from height 2 on the focus also stays visible for any non-negative previous scroll |
| `Menu.ClampAgreesWithSource` | zmk/setup/menu.py:144-160 | when the previous window is inside the list, the corrected rule returns what the source's rule returns |
| `Menu.HandleInput` | zmk/setup/menu.py:108-131 | Return accepts iff the key is RETURN; Escape cancels iff the key is ESCAPE; in a non-empty list every other key leaves the focus inside the list |
| `Menu.ClampFocus` | zmk/setup/menu.py:130 | the clamped focus lies in [0, n-1]; an in-range focus is unchanged; one below 0 becomes 0; one past the end becomes n-1 |
| `Menu.NavigationKeys` | zmk/setup/menu.py:117-130 | Up/Down move by one and PageUp/PageDown by the height, then the result is clamped; Home goes to 0 and End to n-1; Left and Right, and any key that is not a key constant, keep the focus |
| `Menu.RowText` | zmk/setup/menu.py:94-103 | an item row is exactly `width` characters: the `"> "` or `"  "` indent and the formatted item, cut to the width and then space-padded |
| `Menu.ItemLineWidth` | zmk/setup/menu.py:94-106 | a printed row splits back into its colour parameter and a text of exactly `width` characters. The parameter is `0` for a plain row, and the focus colour's for the focused row, given a focus colour without `m` |
| `Menu.RenderMenu` | zmk/setup/menu.py:83-92 | a frame is the title followed by exactly max(0, min(n, height)) rows; row i shows item scroll+i-1, and each such index is in range |
| `Menu.FrameHighlightsFocus` | zmk/setup/menu.py:83-106 | in a frame whose window shows the focus (every frame from height 2 on, by `Menu.Loop`), the focused item's row is drawn highlighted and every other row is drawn plain |
| `Menu.Loop` | zmk/setup/menu.py:64-78 | across a whole run: at most one frame more than the keys read; the first frame keeps the starting focus; every frame has its focus in range and its window inside the list; from height 2 on the focus is on screen; a selection is the focus of the last frame; a non-empty list never fails |
| `Menu.LoopOutcome` | zmk/setup/menu.py:64-78 | the first Return or Escape in the script decides the run. Escape cancels and Return selects the focus shown in the last frame, each returning the keys after it. Without either, the menu waits after one frame per key |
| `Menu.LoopFollowsSourceRules` | zmk/setup/menu.py:64-73 | each frame's focus is the previous focus moved by the key read, and its scroll index is the source's rule applied to the previous frame's |
| `Menu.SmallListNeverScrolls` | zmk/setup/menu.py:144-160 | when all items fit, every frame's scroll index is 0; this follows by induction from the initial 0, not from the dead guard |
| `Menu.TwentyItemsEndThenHome` | zmk/setup/menu.py:117-160 | twenty items in five rows: End focuses 19 with scroll 15, and Home returns to focus 0 with scroll 0 |
| `Menu.PageDownFromTop` | zmk/setup/menu.py:117-160 | twenty items in five rows: Page Down from the top focuses item 5 with scroll 2 |
| `Menu.Show` | zmk/setup/menu.py:57-78 | the first frame focuses the default index; a selection is a valid item index; the run never fails with `IndexError` |
| `Menu.EmptyLoop` | zmk/setup/menu.py:64-92 | an empty menu never selects anything. Escape before any Return gives `StopMenu` with the keys after it unread, and with neither key it keeps waiting |
| `Menu.EmptyLoopIndexError` | zmk/setup/menu.py:64-78 | an empty menu fails exactly when the first Return or Escape in the script is Return |
| `Menu.ShowMenu` | zmk/setup/menu.py:175-200 | a selection is a valid item index; the empty-list error happens iff the list is empty and Return comes before any Escape. For any list, an Escape before any Return gives `StopMenu` with the keys after it unread, as the docstring promises, and with neither key the menu keeps waiting |
| `Menu.ResetRow` | zmk/setup/menu.py:162-168 | the redraw row is at least 1, and is dc+1 rows above the current row when there is room, and is row 1 when there is not |
| `Menu.RedrawReturnsToTop` | zmk/setup/menu.py:162-168 | after a frame drawn from row `top` (title plus dc rows), the redraw row is `top` again |
| `Menu.ResetCursorToTop` | zmk/setup/menu.py:162-168 | a successful redraw first sends the device status request. The redraw fails with `ValueError` iff the reply is malformed, and waits iff no reply has arrived. For a reported row it moves the cursor to column 1 of `max(1, row - dc - 1)` and leaves the rest of the input unread |
| `Menu.ResetCursorAfterFrame` | zmk/setup/menu.py:162-168 | if the terminal reports the row just below the frame, the redraw sends DSR then CUP to (top, 1), and leaves the remaining replies unread |
| `Menu.PromptMenu` | zmk/setup/menu.py:203-210 | the prompt's default index is a valid index into Yes/No |
| `Menu.ShowPrompt` | zmk/setup/menu.py:203-212 | the answer is yes iff the menu selects "Yes" (index 0); the answer is pending iff the menu is still waiting |
| `Menu.ShowPromptFirstKey` | zmk/setup/menu.py:203-212 | Return at once answers with the default (yes unless `default_no`); Escape at once answers no rather than cancelling |
| `Util.SplitDigits` | zmk/setup/util.py:42-49 | the split has odd length, with digit-free text at even positions and non-empty maximal digit runs at odd positions. Interior text runs are non-empty, and the first run is non-empty when the text starts with a non-digit |
| `Util.JoinSplitDigits` | zmk/setup/util.py:49 | joining the runs gives the text back |
| `Util.NaturalKey` | zmk/setup/util.py:42-49 | the key has one part per run of the text. It has odd length, with lowered digit-free text at even positions (non-empty except at the ends) and integers at odd positions |
| `Util.NaturalKeysAlign` | zmk/setup/util.py:45-49 | two keys have text at the same positions, so comparisons are always like with like |
| `Util.NaturalKeyIgnoresCase` | zmk/setup/util.py:49 | a text and its case-swapped form have the same key |
| `Util.NaturalKeyOfEmpty` | zmk/setup/util.py:49 | `""` has key `[""]` |
| `Util.NaturalKeyOfNumber` | zmk/setup/util.py:49 | `"42"` has key `["", 42, ""]` |
| `Util.NaturalKeyIgnoresLeadingZeros` | zmk/setup/util.py:49 | `"a007"` and `"a7"` have the same key |
| `Yaml.ReadLine` | zmk/setup/yaml.py:40 | a read line is a prefix of the input, and is non-empty when the input is |
| `Yaml.ReadLineIsFirstLine` | zmk/setup/yaml.py:40 | `readline()` stops at the first newline: the line holds no newline before its last character, and it is either all of the input or ends in `\n` |
| `Yaml.JoinLines` | zmk/setup/yaml.py:39-42 | reading every line gives the file back |
| `Yaml.ScanBound` | zmk/setup/yaml.py:38-58 | the loop's resulting position never passes the end of the lines read |
| `Yaml.DocumentStart` | zmk/setup/yaml.py:38-58 | the document start never passes the end of the file |
| `Yaml.ScanAllBlank` | zmk/setup/yaml.py:39-53 | when every line is blank or comment-only, the position is the end of the file |
| `Yaml.ScanFirstText` | zmk/setup/yaml.py:44-58 | the first non-blank line decides the result. A `---` line (a trailing comment allowed) cuts just after that line; any other text cuts at 0 |
| `Yaml.DocumentStartByLines` | zmk/setup/yaml.py:38-58 | the same three cases over a file's lines. After a `---` line the kept prefix is exactly the lines up to and including it |
| `Yaml.Dump` | zmk/setup/yaml.py:21-35 | the rewritten file starts with the original up to the document start, and continues with exactly the new document |
| `Zmk.Classification` | zmk_setup/zmk.py:108-133 | nothing is both keyboard and controller. A board is exactly one of the two, a shield is always a keyboard, and an interconnect is neither. A board with no `features` is a controller |
| `Zmk.AllExposedMeansSubset` | zmk_setup/zmk.py:136-142 | the `all(...)` walk holds iff every required interconnect is exposed |
| `Zmk.CompatibleControllerMeans` | zmk_setup/zmk.py:136-154 | a board is a compatible controller iff the keyboard is a shield, the board lacks `keys`, and every `requires` id is in `exposes`, absent lists counting as empty. With no requirements, any controller fits |
| `Zmk.SplitAndUsbOnly` | zmk_setup/zmk.py:166-173 | split iff `siblings` lists at least two ids; USB-only iff `outputs` is missing or lacks `ble` |
| `Zmk.Filter` | zmk_setup/zmk.py:198-204 | the filtered list holds exactly the entries that satisfy the predicate, and is no longer than the input |
| `Zmk.FilterConcat` | zmk_setup/zmk.py:198-204 | filtering keeps the input's order: filtering a concatenation concatenates the filtered parts |
| `Zmk.SelectKeyboard` | zmk_setup/zmk.py:186-215 | a chosen board yields its sibling ids as boards, no shields and no controller. A chosen shield yields a compatible controller from the list, `[controller id]` as boards and the shield's sibling ids as shields, and is never a split shield on a USB-only controller. A stop carries the wired-split message. The keyboard is the one at the index the keyboard menu selected, and the controller the one at the index the MCU menu selected. A chosen board returns at once with the keys after it. A keyboard menu still waiting for keys leaves the selection waiting |
| `Zmk.SelectKeyboardStops` | zmk_setup/zmk.py:199-208 | the wizard stops exactly when a shield was picked, then a controller, and the shield is split while the controller is USB-only. Escape in either menu gives `StopMenu`. Return on an empty list in either menu gives the index error; for the MCU menu that means a shield with no compatible controller. A controller menu still waiting for keys leaves the selection waiting |
| `Zmk.ConfigFileName` | zmk_setup/zmk.py:228-230 | the name ends in `.conf` and removing that suffix gives the id back |
| `Zmk.KeymapFileName` | zmk_setup/zmk.py:233-235 | the name ends in `.keymap` and removing that suffix gives the id back |
| `Zmk.FileNamesDistinct` | zmk_setup/zmk.py:228-235 | different ids get different file names, and a keyboard's two files differ |
| `Zmk.BuildEntry` | zmk_setup/zmk.py:254-259 | an entry maps `board` to the board, and `shield` to the shield when there is one. Its keys are exactly these, so entries compare as the dicts do |
| `Zmk.BoardEntries` | zmk_setup/zmk.py:254-259 | a board gets one entry per shield in shield order, or a single board-only entry when there are no shields |
| `Zmk.WantedLength` | zmk_setup/zmk.py:254-259 | a selection wants boards × max(1, shields) entries |
| `Zmk.WantedOrder` | zmk_setup/zmk.py:254-259 | entries come board by board: board i's entries follow those of every earlier board and precede those of every later one |
| `Zmk.AddBuild` | zmk_setup/zmk.py:250-252 | afterwards the entry is listed; an entry already present changes nothing; otherwise it is appended at the end |
| `Zmk.AddAllProperties` | zmk_setup/zmk.py:247-259 | prior entries keep their place. Every wanted entry is listed afterwards, nothing unwanted is added, and a list without duplicates stays without duplicates |
| `Zmk.AddAllPresent` | zmk_setup/zmk.py:250-259 | adding entries that are all present leaves the list unchanged |
| `Zmk.BuildMatrixIdempotent` | zmk_setup/zmk.py:247-259 | running the update twice gives the same `include` list as running it once |
| `Zmk.AddBoard` | zmk_setup/zmk.py:255-259 | the inner loop adds one board's entries exactly as the append-if-absent fold does |
| `Zmk.AddToBuildMatrix` | zmk_setup/zmk.py:238-261 | the nested loops compute the fold of append-if-absent over the wanted entries, starting from the existing `include` list or an empty one |
| `Repo.GitOutput` | zmk/setup/repo.py:45-49 | git output is the raw output less its trailing whitespace: a prefix that does not end in whitespace, and everything it drops is whitespace |
| `Repo.ActionsUrl` | zmk/setup/repo.py:55-60 | there is an Actions URL iff the remote starts with `https://github.com`; such a URL starts with that prefix and ends with `/actions` |
| `Repo.ActionsUrlOfGitHubRemote` | zmk/setup/repo.py:51-60 | a GitHub remote, with or without one `.git` and a trailing newline, gives the remote's page followed by `/actions` |
| `Repo.SshRemoteHasNoActionsUrl` | zmk/setup/repo.py:58-60 | an SSH remote `git@github.com:...` gives no Actions URL |
| `Repo.HasChangesMeans` | zmk/setup/repo.py:62-64 | there are changes iff the porcelain status holds a non-whitespace character |
| `Repo.CloneFolder` | zmk/setup/repo.py:193 | the clone folder is the whole last `/` segment of the URL with one trailing `.git` removed: it holds no `/`, and it is either that whole text or follows its last `/` |
| `Repo.CloneRepo` | zmk/setup/repo.py:188-198 | an empty URL stops the wizard, and only an empty one does; any other URL is cloned into its folder |
| `Repo.CloneFolderIsRepoName` | zmk/setup/repo.py:193 | for `.../name` and `.../name.git` the folder is `name` |
| `Repo.ShouldUseCurrentDirectory` | zmk/setup/repo.py:144-168 | with both config files present the directory is used without asking. Otherwise "Edit this repo" means yes, "Clone a new repo here" means no, "Cancel" stops the wizard, and Escape propagates `StopMenu` |
| `Repo.SelectRepo` | zmk/setup/repo.py:132-141 | a configured path wins. A Git repository with the config files is used as is. Outside a repository a non-empty typed URL is cloned into its folder, or the wizard stops when the URL is empty. Inside a repository, `_should_use_current_directory` decides: yes gives the current directory, no gives the clone, and its stops and waits propagate |

## Left out

- Terminal I/O:
  - writing to stdout and flushing;
  - querying the terminal size, which is a parameter here;
  - `hide_cursor` and the `finally: print()` around `show` (terminal.py:35-45,
    menu.py:79-81), which is exception-safety plumbing with no decision in it;
  - the termios/msvcrt/ctypes console-mode calls (terminal.py:107-167);
  - the POSIX `read_key` (terminal.py:169-176), which returns up to four raw
    bytes and does no decoding.
- Git subprocesses, HTTP downloads and the ruamel.yaml load/dump internals.
  Their outputs are parameters, or the `include` list is a sequence of
  mappings. This covers `check_dependencies`, `_check_git_config`, the `Repo`
  methods that only run git, `download`, and `_get_hardware_list`'s request.
- `_get_hardware_list`'s sort by natural key: the list is taken as already
  sorted. The natural key itself is modelled.
- `check_repo_files`: filesystem existence checks plus git commands.
- `print_block`, which calls `textwrap.dedent`.
- `__main__.py` (the wizard's orchestration, printing and exit codes) and
  `config.py` (three URL constants).
- `Repo.CloneRepo`: the `CalledProcessError` handler around the clone
  (repo.py:195-198) is not modelled. The clone runs through `Popen`, which does
  not raise that error for a failing git, so the outcome is git's and is not
  visible here.
- `Repo.SelectRepo`: `config.repo_path` is not a field of the `Config` class
  in `zmk/setup/config.py`. The model takes it as an optional string, treated
  as false when empty.
- Undefined names in the repository: `prefix_output` and `Color.BLUE`
  (repo.py:14, 42) and `Color.BLACK` (`__main__.py`) are not defined there.
  The model's `Color` has the four colours `Color` defines.
- Unicode:
  - `lower`, `isspace` and `\d` are modelled over ASCII;
  - the display width of formatted text counts characters;
  - `int()` accepts ASCII digits, underscores between digits, one sign and
    surrounding ASCII whitespace, but not non-ASCII digits.
- Yaml: stream positions count characters. Python's `tell()` cookie in text
  mode and universal-newline translation are not modelled, and lines end in
  `\n`.
- Ctrl+C during a menu. The key scripts hold decoded keys only. On POSIX,
  `disable_echo` keeps signals on, and on Windows `read_key` raises; either
  way a `KeyboardInterrupt` while a menu waits for a key escapes `show`,
  `show_prompt` and `select_keyboard` and ends the wizard (`__main__.py:33`).
  `Menu.Show`, `Menu.ShowPrompt` and `Zmk.SelectKeyboard` have no such
  outcome.
- `Menu.Loop`: the cursor exchange between frames is not one of the loop's
  outcomes. After every key other than Return and Escape, `show` calls
  `_reset_cursor_to_top` (menu.py:78). That call writes a device status
  request and reads the reply from the same input as the keys
  (terminal.py:179-192). A malformed reply raises `ValueError` in the middle
  of the menu, and a reply without `R` blocks. `Loop` reads keys only; the
  exchange and its failure are modelled on their own by
  `Menu.ResetCursorToTop`.
- `Menu.Loop`: the terminal size is fixed for a whole run of the loop. A size
  that changes between frames is covered only by the lemmas about the scroll
  rule.

## Findings

| source | as written | input that shows it | evidently intended | confidence | as-written member | corrected member |
|---|---|---|---|---|---|---|
| zmk/setup/menu.py:148-160 | the scroll index is recomputed from the previous one, and is never clamped to `items - display_count` when the display count grows | 10 items, a 5-row window, End (focus 9, scroll 5); the terminal then gains 3 rows, the window is 8 rows, and the scroll index stays 5, so `_print_menu` (line 92) indexes `items[10]` and raises `IndexError` | the window stays within the list: scroll index in `[0, items - display_count]` | medium, not executed | `Menu.GrowingTerminalOverrunsItems` | `Menu.ClampedScrollIndex` |
