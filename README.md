# Exhibition display-mode menu, modelled in Dafny

Exhibition is a macOS status-bar utility. It lists the display modes of the
screen in focus and switches to the one the user picks. Its logic lives in
`Exhibition/AppDelegate.swift`, and this project models that logic:

- **Ordering** (`getAllDisplayModes`): for every mode of a snapshot of the
  list and every index whose mode ranks above it, the mode's first copy is
  removed and the mode is reinserted at that index. It lands just after the
  higher mode when it came from in front of it, and just before it
  otherwise. A mode ranks above another when it has a greater height, or the
  same height and a greater pixel height.
- **Rows** (`showDisplayModes`): each mode gets a label built piece by
  piece: "W x H", then "i", " @ kx", " (r.0 Hz)" and a warning sign. A mode
  can be dropped in four ways:
  - it is not scaled while only HiDPI modes are shown;
  - it is unsafe while only usable modes are shown;
  - it has neither the Safe nor the Valid flag bit;
  - an earlier row has the same label and flags.

  A row is checked when its mode is the one in use. Rows are inserted at
  positions 1, 2, … of the menu.
- **Menu layout** (`buildMenu`, `rebuildMenu`): a disabled heading, the
  mode rows, a separator, the two filter switches showing the filters in
  force, a separator and the quit command.
- **Check-mark scans** (`getCurrentDisplayMode`, `updateActiveDisplayMode`):
  the first item that is checked or is a separator; and moving
  the check mark to the first row, above the separator, that represents the
  mode the display now uses.
- **Handlers**: the two filter switches, `changeDisplayMode` and
  `applicationDidFinishLaunching`.

Modules:

- `Modes` holds the `CGDisplayMode` value and its IOKit flag bits.
- `Labels` renders labels and parses them back.
- `Sorting` holds the reposition loop.
- `Menus` holds the menu items and the functions that specify what each
  operation leaves in the menu.
- `Exhibition` holds the class `AppDelegate`, with the fields `menu`,
  `displayModes`, `onlySafeModes` and `onlyHidpiModes`, and its methods.

Operating-system queries become parameters:

- `osModes` is what `CGDisplayCopyAllDisplayModes` returns.
- `current` and `granted` are what `CGDisplayCopyDisplayMode` returns.

The model follows the code in these places:

- A mode without the Safe or the Valid bit never gets a row. It is not merely
  left out of the de-duplication (lines 94-96).
- The ordering is not stable among modes of equal height and pixel height.
  For the same logical size, a HiDPI variant has the greater pixel height and
  comes first.
- Swift writes a whole-valued `Double` refresh rate with ".0", so a label
  reads "1920 x 1080 @ 2x (60.0 Hz)".
- When an earlier row has the same label and flags as the mode in use, that
  mode gets no row of its own. No row is then checked.

## Model

| member | source | states |
|---|---|---|
| Modes.Below | Exhibition/AppDelegate.swift:38 | defines the comparator: a mode ranks below another when its height is lower, or its height is equal and its pixel height lower |
| Labels.PartsOf | Exhibition/AppDelegate.swift:51-81 | defines the label pieces of a mode: width and height, the interlace bit, the factor pixelWidth / width when the mode is scaled, the refresh rate when non-zero, and the warning when the mode is unusable or not preset |
| Labels.Label | Exhibition/AppDelegate.swift:51-81 | defines a mode's label as its pieces rendered in the order the source appends them |
| Menus.ListModes | Exhibition/AppDelegate.swift:50-103 | defines the listed modes: those that pass the HiDPI and usable filters and the Safe/Valid test, in input order, keeping the first of each (label pieces, flags) key; each listed mode can be scaled |
| Menus.Footer | Exhibition/AppDelegate.swift:194-206 | defines the items after the rows: separator, safe-modes switch, HiDPI switch (each checked exactly when its filter is on), separator, quit |
| Menus.Layout | Exhibition/AppDelegate.swift:183-207 | defines the rebuilt menu: heading, one row per listed mode, footer |
| Menus.Updated | Exhibition/AppDelegate.swift:141-161 | defines the menu after an update: with a row for the current mode before the separator, the first checked item or separator is cleared and that row checked; otherwise the menu as it was |
| Sorting.GetAllDisplayModes | Exhibition/AppDelegate.swift:31-45 | the reordered list holds exactly the modes given (same multiset), and runs from highest to lowest: greater height first, equal heights by non-increasing pixel height |
| Sorting.MoveUp | Exhibition/AppDelegate.swift:37-43 | one pass of the inner loop keeps the same modes and settles one more copy of the mode being moved, without unsettling any mode settled before |
| Sorting.FirstIndex | Exhibition/AppDelegate.swift:39 | `firstIndex(of:)`: present exactly when the element occurs, and then the position of its first occurrence |
| Labels.Decimal | Exhibition/AppDelegate.swift:54 | a number's interpolated text is a non-empty run of digits with no leading zero |
| Labels.DecimalValue | Exhibition/AppDelegate.swift:54 | reading the decimal text of a number gives the number back |
| Labels.DigitRun | Exhibition/AppDelegate.swift:54 | the length of the leading digit run: all digits up to it, and no digit right after it |
| Labels.ParseDecimal | Exhibition/AppDelegate.swift:54 | a number's text followed by a non-digit is read back as that number and the rest |
| Labels.ScaleRoundTrip | Exhibition/AppDelegate.swift:63-64 | the " @ kx" piece is read back as k, and reading stops right after it |
| Labels.RefreshRoundTrip | Exhibition/AppDelegate.swift:70-72 | the " (r.0 Hz)" piece is read back as r, and reading stops right after it |
| Labels.SuffixRoundTrip | Exhibition/AppDelegate.swift:58-81 | everything after "W x H" is read back into the interlace mark, scale factor, refresh rate and warning |
| Labels.LabelRoundTrip | Exhibition/AppDelegate.swift:51-81 | a label is read back into exactly the pieces it was built from, so no two different piece combinations share a label |
| Labels.PiecewiseRender | Exhibition/AppDelegate.swift:51-81 | appending size, interlace mark, scale, refresh and warning one after the other gives the label of those pieces |
| Labels.LabelDescribesMode | Exhibition/AppDelegate.swift:54-81 | a shown label gives the width and height; "i" exactly for an interlaced mode; the factor pixelWidth / width exactly for a scaled mode; the refresh rate exactly when it is non-zero; the warning exactly for a possibly unsafe mode |
| Labels.WarningEndsLabel | Exhibition/AppDelegate.swift:75-81 | a label ends with the warning sign if and only if its mode is not usable for the desktop or lacks the preset bit |
| Labels.SameLabelSameParts | Exhibition/AppDelegate.swift:91-92 | two modes have equal label text exactly when all their label pieces agree |
| Exhibition.DescribeMode | Exhibition/AppDelegate.swift:51-81 | the successive appends skip the mode exactly when it is unscaled under the HiDPI filter or unsafe under the usable filter, and otherwise produce its label |
| Menus.KeysAt | Exhibition/AppDelegate.swift:91-92 | the remembered key of each listed mode, position by position |
| Menus.ListedModesPass | Exhibition/AppDelegate.swift:63-96 | every listed mode is one of the input modes; it is scaled if only HiDPI modes are shown, and safe to use if only usable modes are shown; and it has the Safe or the Valid bit |
| Menus.ListModesComplete | Exhibition/AppDelegate.swift:91-99 | every input mode that passes the filters and flag test has its label and flags on some listed row |
| Menus.ListedKeysDistinct | Exhibition/AppDelegate.swift:91-99 | no two listed modes have the same label pieces and flags |
| Menus.RememberedDistinct | Exhibition/AppDelegate.swift:91-98 | the (label, flags) list holds one entry per row, and its entries are pairwise distinct |
| Menus.RememberedAt | Exhibition/AppDelegate.swift:91-97 | entry i of the remembered list is the label text and flags of the i-th row's mode |
| Menus.RememberedHas | Exhibition/AppDelegate.swift:91-92 | the `contains(where:)` test on label text and flags succeeds exactly when an earlier row has the same label pieces and flags |
| Menus.ListModesPrefix | Exhibition/AppDelegate.swift:50-103 | the modes listed after the first n inputs begin the modes listed for all of them |
| Menus.ListFollowsInput | Exhibition/AppDelegate.swift:50-103 | the listed modes appear in input order, and each is the first passing mode with its label and flags |
| Menus.RowsAt | Exhibition/AppDelegate.swift:83-90 | row i is a mode row representing the i-th listed mode, and it is checked exactly when that mode is the one in use |
| Menus.RowTitles | Exhibition/AppDelegate.swift:83 | each row is titled with its mode's label |
| Menus.ListedRowsShape | Exhibition/AppDelegate.swift:83-99 | the rows of one listing all represent modes, and at most one of them is checked |
| Menus.SkipStep | Exhibition/AppDelegate.swift:63-102 | a filtered, unflagged or look-alike mode leaves the menu, the row count and the remembered list as they were |
| Menus.TakeStep | Exhibition/AppDelegate.swift:91-99 | an accepted mode's row goes right after the rows so far; the count grows by one; the remembered list gains exactly its label and flags |
| Menus.FirstMark | Exhibition/AppDelegate.swift:163-176 | the position of the first checked item or separator, with none before it |
| Menus.SectionEnd | Exhibition/AppDelegate.swift:145-147 | the first separator, or the menu's end, with no separator before it |
| Menus.MatchFrom | Exhibition/AppDelegate.swift:143-160 | the first item before the separator, other than the heading, that represents the given mode; none when there is no such item |
| Menus.UpdateChecksCurrent | Exhibition/AppDelegate.swift:141-161 | on a menu with a separator and at most one checked mode row, an update finds a checked item or the separator to clear. It leaves the items, their titles and modes, and the separator position as they were. It leaves at most one row checked, and the matching row checked. With no match, the menu is unchanged |
| Menus.UpdateTouchesTwo | Exhibition/AppDelegate.swift:155-158 | an update that finds row k clears the first checked item (unless it is row k), checks row k, and changes no other item |
| Menus.MoveCheck | Exhibition/AppDelegate.swift:156-157 | clearing the first mark and checking row k changes only check marks, and leaves row k the only checked row |
| Menus.SameSection | Exhibition/AppDelegate.swift:146-147 | changing check marks leaves the first separator where it was |
| Menus.BuiltMenuShape | Exhibition/AppDelegate.swift:183-207 | in a rebuilt menu the rows end at the first separator and each represents a mode. At most one row is checked. Each switch is checked exactly when its filter is in force |
| Menus.ChosenRowIsFound | Exhibition/AppDelegate.swift:131-161 | once the display uses the mode of row i + 1 of a rebuilt menu, that row is the one the update finds |
| Exhibition.AppDelegate.constructor | Exhibition/AppDelegate.swift:16-23 | empty menu, no modes, both filters on |
| Exhibition.AppDelegate.ShowDisplayModes | Exhibition/AppDelegate.swift:47-105 | the menu becomes the old menu with one row per listed mode inserted after its first item, in listing order, each checked exactly when its mode is in use |
| Exhibition.AppDelegate.GetCurrentDisplayMode | Exhibition/AppDelegate.swift:163-176 | returns the first checked item or separator |
| Exhibition.AppDelegate.UpdateActiveDisplayMode | Exhibition/AppDelegate.swift:141-161 | the menu becomes the result of moving the check mark to the first row representing the current mode (unchanged when there is none) |
| Exhibition.AppDelegate.ChangeDisplayMode | Exhibition/AppDelegate.swift:131-139 | after the switch, the check mark follows the mode the display reports |
| Exhibition.AppDelegate.BuildMenu | Exhibition/AppDelegate.swift:183-208 | the modes are stored reordered, and the menu gains the heading, the rows after its first item, and the footer with the switches in force |
| Exhibition.AppDelegate.RebuildMenu | Exhibition/AppDelegate.swift:178-181 | the menu is exactly the layout for the stored modes and the filters in force |
| Exhibition.AppDelegate.ToggleShownDisplayModes | Exhibition/AppDelegate.swift:107-117 | the safe-modes filter turns on exactly when the sender was unchecked, and the menu is rebuilt for it |
| Exhibition.AppDelegate.ToggleShownHidpiModes | Exhibition/AppDelegate.swift:119-129 | the HiDPI filter turns on exactly when the sender was unchecked, and the menu is rebuilt for it |
| Exhibition.AppDelegate.ApplicationDidFinishLaunching | Exhibition/AppDelegate.swift:210-229 | at launch the empty menu is built into the layout for the display's modes |

## Left out

- The status item, its icon, `highlightMode` and the rows' image (lines 15, 85, 212-216). They are presentation only.
- The notification observers (lines 220-228). They are event wiring; the two handlers they call are modelled.
- The display lookup (`NSScreen.main`, line 27) and the mode queries (lines 33, 88, 142). They are calls into the operating system; their results are parameters.
- The display-configuration transaction and its pointer (lines 133-138). `ChangeDisplayMode` takes the mode the display reports afterwards.
- `ShowDisplayModes` queries the current mode once per mode that passes the filters in the source; the model takes one `current` for the whole loop.
- The quit command's action (line 206). Only the item is modelled.
- Modes.Mode: two modes are equal when their seven modelled fields agree. The operating system's mode objects can also differ in attributes the model drops, such as bit depth. Where two such modes exist, the copy `firstIndex(of:)` removes in the reorder (line 39) and the row checked for the mode in use (lines 88, 155) can differ from the model's.
- Labels.RefreshPart: a refresh rate is a whole number of hertz. A fractional `Double` rate such as 59.94 is not modelled, since floating-point formatting is out of scope.
- Labels.PartsOf: a scaled mode of width 0 is excluded by `CanScale`, because the source's integer division would trap there.
- Modes.HasFlag: the flag word is an unsigned 32-bit number, and a bit test is written as arithmetic on it rather than as a bitwise and.
- Sorting.GetAllDisplayModes: stability is not claimed; the reposition loop does not keep the input order of equal-ranking modes.
- The forced casts of `representedObject` (lines 132, 155). They are a typed `Option<Mode>` field; `CastsSucceed` states when the cast in `updateActiveDisplayMode` holds.
- The sender of the two switches is passed as its menu position, and its own check mark is set before the rebuild discards it.
- Exhibition.AppDelegate.ShowDisplayModes: requires a non-empty menu when any row is listed, because `insertItem(at: 1)` on an empty menu would crash; `buildMenu` always adds the heading first, so the modelled handlers never reach that state.
- Exhibition.AppDelegate.GetCurrentDisplayMode: requires a checked item or a separator, because the scan runs off the end of the menu otherwise; `buildMenu` always adds a separator, so the modelled handlers never reach that state. The same requirement is on `UpdateActiveDisplayMode` and `ChangeDisplayMode`, which call it.
