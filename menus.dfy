/**
  The status-bar menu as a list of items, and the functions that say what the
  application puts into it: the rows `showDisplayModes` lists for a sequence
  of display modes, the fixed items `buildMenu` adds around them, and the
  check-mark move `updateActiveDisplayMode` makes.
*/
module Menus {
  import opened Wrappers
  import opened Modes
  import opened Labels

  /** What an item is for: the disabled heading, a display mode to switch to,
      a separator, one of the two filter switches, or the quit command. */
  datatype Kind = Title | ModeChoice | Separator | SafeModesToggle | HidpiModesToggle | Quit

  /** Whether an item carries a check mark. */
  datatype State = Off | On

  /** A menu item: its kind, its text, its check state and, for a mode row,
      the mode it represents. */
  datatype MenuItem = MenuItem(kind: Kind, title: string, state: State, mode: Option<Mode>)

  const TitleItem: MenuItem := MenuItem(Title, "Display modes:", Off, None)
  const SeparatorItem: MenuItem := MenuItem(Separator, "", Off, None)
  const QuitItem: MenuItem := MenuItem(Quit, "Quit Exhibition", Off, None)

  function Check(on: bool): State {
    if on then On else Off
  }

  function SafeToggleItem(onlySafe: bool): MenuItem {
    MenuItem(SafeModesToggle, "Show only safe modes", Check(onlySafe), None)
  }

  function HidpiToggleItem(onlyHidpi: bool): MenuItem {
    MenuItem(HidpiModesToggle, "Show only HiDPI modes", Check(onlyHidpi), None)
  }

  predicate AllCanScale(modes: seq<Mode>) {
    forall i :: 0 <= i < |modes| ==> CanScale(modes[i])
  }

  /** Whether `showDisplayModes` keeps mode `m` unless an earlier row looks
      the same: the filters keep it (it is scaled, or not only HiDPI modes
      are shown; it is safe to use, or not only usable modes are shown) and
      its flags say it is safe or valid. */
  predicate Passes(m: Mode, onlyHidpi: bool, onlyUsable: bool) {
    && (Scaled(m) || !onlyHidpi)
    && (!Unsafe(m) || !onlyUsable)
    && SafeOrValid(m)
  }

  /** The label pieces and flags of a mode. The application remembers the
      label text and the flags of each row to skip look-alikes; since a label
      can be read back into its pieces, the pieces tell the same rows apart. */
  type Key = (LabelParts, UInt32)

  function KeyOf(m: Mode): Key
    requires CanScale(m)
  {
    (PartsOf(m), m.ioFlags)
  }

  /** The keys of the listed modes `shown`, in order. */
  function Keys(shown: seq<Mode>): (r: seq<Key>)
    requires AllCanScale(shown)
    ensures |r| == |shown|
  {
    if shown == [] then [] else Keys(shown[..|shown| - 1]) + [KeyOf(shown[|shown| - 1])]
  }

  /** The keys of the listed modes, position by position. */
  lemma {:induction false} KeysAt(shown: seq<Mode>)
    requires AllCanScale(shown)
    ensures forall i :: 0 <= i < |shown| ==> Keys(shown)[i] == KeyOf(shown[i])
  {
    if shown != [] {
      var p := shown[..|shown| - 1];
      KeysAt(p);
      assert forall i :: 0 <= i < |p| ==> Keys(shown)[i] == Keys(p)[i];
    }
  }

  /** The modes `showDisplayModes` lists for `modes`, in the order it lists
      them: each mode that passes, unless an earlier listed mode has the
      same label and flags. */
  function ListModes(modes: seq<Mode>, onlyHidpi: bool, onlyUsable: bool): (shown: seq<Mode>)
    requires AllCanScale(modes)
    ensures AllCanScale(shown)
  {
    if modes == [] then []
    else
      var p := modes[..|modes| - 1];
      var m := modes[|modes| - 1];
      var shown := ListModes(p, onlyHidpi, onlyUsable);
      assert forall x :: x in p ==> x in modes;
      if Passes(m, onlyHidpi, onlyUsable) && KeyOf(m) !in Keys(shown) then shown + [m] else shown
  }

  /** Every listed mode is one of `modes` and passes the filters. */
  lemma {:induction false} ListedModesPass(modes: seq<Mode>, onlyHidpi: bool, onlyUsable: bool)
    requires AllCanScale(modes)
    ensures forall i :: 0 <= i < |ListModes(modes, onlyHidpi, onlyUsable)| ==>
      ListModes(modes, onlyHidpi, onlyUsable)[i] in modes && Passes(ListModes(modes, onlyHidpi, onlyUsable)[i], onlyHidpi, onlyUsable)
  {
    if modes != [] {
      var p := modes[..|modes| - 1];
      ListedModesPass(p, onlyHidpi, onlyUsable);
      var before := ListModes(p, onlyHidpi, onlyUsable);
      var m := modes[|modes| - 1];
      var shown := ListModes(modes, onlyHidpi, onlyUsable);
      assert shown == if Passes(m, onlyHidpi, onlyUsable) && KeyOf(m) !in Keys(before) then before + [m] else before;
      forall i | 0 <= i < |shown|
        ensures shown[i] in modes && Passes(shown[i], onlyHidpi, onlyUsable)
      {
        if i < |before| {
          assert shown[i] == before[i] && before[i] in p;
          assert p[..] <= modes;
        }
      }
    }
  }

  /** No two listed modes have the same label and flags. */
  lemma {:induction false} ListedKeysDistinct(modes: seq<Mode>, onlyHidpi: bool, onlyUsable: bool)
    requires AllCanScale(modes)
    ensures forall i, j :: 0 <= i < j < |ListModes(modes, onlyHidpi, onlyUsable)| ==>
      KeyOf(ListModes(modes, onlyHidpi, onlyUsable)[i]) != KeyOf(ListModes(modes, onlyHidpi, onlyUsable)[j])
  {
    if modes != [] {
      var p := modes[..|modes| - 1];
      ListedKeysDistinct(p, onlyHidpi, onlyUsable);
      var before := ListModes(p, onlyHidpi, onlyUsable);
      var m := modes[|modes| - 1];
      var shown := ListModes(modes, onlyHidpi, onlyUsable);
      assert shown == if Passes(m, onlyHidpi, onlyUsable) && KeyOf(m) !in Keys(before) then before + [m] else before;
      KeysAt(before);
      forall i, j | 0 <= i < j < |shown|
        ensures KeyOf(shown[i]) != KeyOf(shown[j])
      {
        assert shown[i] == before[i];
        if j < |before| {
          assert shown[j] == before[j];
        } else {
          assert Keys(before)[i] == KeyOf(before[i]);
        }
      }
    }
  }

  /** Every mode that passes is represented: its label and flags are those of
      a listed mode, itself or a look-alike listed before it. */
  lemma {:induction false} ListModesComplete(modes: seq<Mode>, onlyHidpi: bool, onlyUsable: bool)
    requires AllCanScale(modes)
    ensures forall j :: 0 <= j < |modes| && Passes(modes[j], onlyHidpi, onlyUsable) ==>
      KeyOf(modes[j]) in Keys(ListModes(modes, onlyHidpi, onlyUsable))
  {
    if modes != [] {
      var p := modes[..|modes| - 1];
      ListModesComplete(p, onlyHidpi, onlyUsable);
      var ks := Keys(ListModes(p, onlyHidpi, onlyUsable));
      var ks' := Keys(ListModes(modes, onlyHidpi, onlyUsable));
      assert ks <= ks';
      forall j | 0 <= j < |modes| && Passes(modes[j], onlyHidpi, onlyUsable)
        ensures KeyOf(modes[j]) in ks'
      {
        if j < |p| {
          assert modes[j] == p[j];
        }
      }
    }
  }

  /** The modes listed for a prefix of `modes` begin those listed for `modes`. */
  lemma {:induction false} ListModesPrefix(modes: seq<Mode>, n: nat, onlyHidpi: bool, onlyUsable: bool)
    requires AllCanScale(modes) && n <= |modes|
    ensures ListModes(modes[..n], onlyHidpi, onlyUsable) <= ListModes(modes, onlyHidpi, onlyUsable)
  {
    if n < |modes| {
      var p := modes[..|modes| - 1];
      assert p[..n] == modes[..n];
      ListModesPrefix(p, n, onlyHidpi, onlyUsable);
    } else {
      assert modes[..n] == modes;
    }
  }

  /** `idx` gives, for each mode of `shown`, its position in `modes`: the
      positions increase, and no mode before that position passes with the
      same label and flags. */
  ghost predicate FirstOfEachKey(modes: seq<Mode>, shown: seq<Mode>, idx: seq<nat>, onlyHidpi: bool, onlyUsable: bool)
    requires AllCanScale(modes) && AllCanScale(shown)
  {
    && |idx| == |shown|
    && (forall i :: 0 <= i < |idx| ==> idx[i] < |modes| && shown[i] == modes[idx[i]])
    && (forall i, j :: 0 <= i < j < |idx| ==> idx[i] < idx[j])
    && (forall i, j :: 0 <= i < |idx| && 0 <= j < idx[i] && Passes(modes[j], onlyHidpi, onlyUsable) ==>
          KeyOf(modes[j]) != KeyOf(shown[i]))
  }

  /** A mode that is not listed leaves the positions of the listed ones valid. */
  lemma SkipKeepsFirst(modes: seq<Mode>, m: Mode, shown: seq<Mode>, idx: seq<nat>, onlyHidpi: bool, onlyUsable: bool)
    requires AllCanScale(modes) && CanScale(m) && AllCanScale(shown)
    requires FirstOfEachKey(modes, shown, idx, onlyHidpi, onlyUsable)
    ensures AllCanScale(modes + [m])
    ensures FirstOfEachKey(modes + [m], shown, idx, onlyHidpi, onlyUsable)
  {
    var ms := modes + [m];
    assert forall j :: 0 <= j < |modes| ==> ms[j] == modes[j];
  }

  /** A mode whose key no earlier passing mode has is listed at its own position. */
  lemma TakeKeepsFirst(modes: seq<Mode>, m: Mode, shown: seq<Mode>, idx: seq<nat>, onlyHidpi: bool, onlyUsable: bool)
    requires AllCanScale(modes) && CanScale(m) && AllCanScale(shown)
    requires FirstOfEachKey(modes, shown, idx, onlyHidpi, onlyUsable)
    requires forall j :: 0 <= j < |modes| && Passes(modes[j], onlyHidpi, onlyUsable) ==> KeyOf(modes[j]) != KeyOf(m)
    ensures AllCanScale(modes + [m]) && AllCanScale(shown + [m])
    ensures FirstOfEachKey(modes + [m], shown + [m], idx + [|modes|], onlyHidpi, onlyUsable)
  {
    var ms := modes + [m];
    assert forall j :: 0 <= j < |modes| ==> ms[j] == modes[j];
  }

  /** The listed modes keep the order of `modes`, and each is the first mode
      that passes with its label and flags: `idx` gives the position of each
      listed mode in `modes`. */
  lemma {:induction false} ListFollowsInput(modes: seq<Mode>, onlyHidpi: bool, onlyUsable: bool)
    returns (idx: seq<nat>)
    requires AllCanScale(modes)
    ensures FirstOfEachKey(modes, ListModes(modes, onlyHidpi, onlyUsable), idx, onlyHidpi, onlyUsable)
  {
    if modes == [] {
      idx := [];
    } else {
      var p := modes[..|modes| - 1];
      var m := modes[|modes| - 1];
      assert modes == p + [m];
      var shown := ListModes(p, onlyHidpi, onlyUsable);
      idx := ListFollowsInput(p, onlyHidpi, onlyUsable);
      if ListModes(modes, onlyHidpi, onlyUsable) == shown {
        SkipKeepsFirst(p, m, shown, idx, onlyHidpi, onlyUsable);
      } else {
        ListModesComplete(p, onlyHidpi, onlyUsable);
        TakeKeepsFirst(p, m, shown, idx, onlyHidpi, onlyUsable);
        idx := idx + [|p|];
      }
    }
  }

  /** The row for mode `m`, checked when `m` is the mode in use. */
  function ModeRow(m: Mode, current: Mode): MenuItem
    requires CanScale(m)
  {
    MenuItem(ModeChoice, Label(m), Check(m == current), Some(m))
  }

  /** The rows for the listed modes `shown`: one mode row each, in order,
      checked exactly when its mode is the mode in use. */
  function Rows(shown: seq<Mode>, current: Mode): (r: seq<MenuItem>)
    requires AllCanScale(shown)
    ensures |r| == |shown|
  {
    if shown == [] then [] else Rows(shown[..|shown| - 1], current) + [ModeRow(shown[|shown| - 1], current)]
  }

  /** Row `i` is a mode row for the `i`-th listed mode, checked exactly when
      that mode is the mode in use. */
  lemma {:induction false} RowsAt(shown: seq<Mode>, current: Mode)
    requires AllCanScale(shown)
    ensures forall i :: 0 <= i < |shown| ==>
      && Rows(shown, current)[i].kind == ModeChoice
      && Rows(shown, current)[i].mode == Some(shown[i])
      && (Rows(shown, current)[i].state == On <==> shown[i] == current)
  {
    if shown != [] {
      var p := shown[..|shown| - 1];
      RowsAt(p, current);
      assert forall i :: 0 <= i < |p| ==> Rows(shown, current)[i] == Rows(p, current)[i];
    }
  }

  /** Each row is titled with the label of its mode. */
  lemma {:induction false} RowTitles(shown: seq<Mode>, current: Mode)
    requires AllCanScale(shown)
    ensures forall i :: 0 <= i < |shown| ==> Rows(shown, current)[i].title == Label(shown[i])
  {
    if shown != [] {
      var p := shown[..|shown| - 1];
      RowTitles(p, current);
      assert forall i :: 0 <= i < |p| ==> Rows(shown, current)[i] == Rows(p, current)[i];
    }
  }

  /** Mode rows, each representing a mode. */
  predicate AllModeRows(rows: seq<MenuItem>) {
    forall i :: 0 <= i < |rows| ==> rows[i].kind == ModeChoice && rows[i].mode.Some?
  }

  /** At most one of `rows` is checked. */
  predicate AtMostOneOn(rows: seq<MenuItem>) {
    forall i, j :: 0 <= i < |rows| && 0 <= j < |rows| && rows[i].state == On && rows[j].state == On ==> i == j
  }

  /** The rows of one listing are mode rows, and since listed modes differ in
      label or flags, at most one of them is the mode in use and checked. */
  lemma ListedRowsShape(modes: seq<Mode>, onlyHidpi: bool, onlyUsable: bool, current: Mode)
    requires AllCanScale(modes)
    ensures var rows := Rows(ListModes(modes, onlyHidpi, onlyUsable), current);
      AllModeRows(rows) && AtMostOneOn(rows)
  {
    var shown := ListModes(modes, onlyHidpi, onlyUsable);
    var rows := Rows(shown, current);
    RowsAt(shown, current);
    ListedKeysDistinct(modes, onlyHidpi, onlyUsable);
    forall i, j | 0 <= i < |rows| && 0 <= j < |rows| && rows[i].state == On && rows[j].state == On
      ensures i == j
    {
      assert shown[i] == current == shown[j];
      assert KeyOf(shown[i]) == KeyOf(shown[j]);
    }
  }

  /** The pairs of label text and flags the application remembers for the
      listed modes `shown`. */
  function Remembered(shown: seq<Mode>): (r: seq<(string, UInt32)>)
    requires AllCanScale(shown)
    ensures |r| == |shown|
  {
    if shown == [] then [] else Remembered(shown[..|shown| - 1]) + [(Label(shown[|shown| - 1]), shown[|shown| - 1].ioFlags)]
  }

  /** The remembered pairs, position by position. */
  lemma {:induction false} RememberedAt(shown: seq<Mode>)
    requires AllCanScale(shown)
    ensures forall i :: 0 <= i < |shown| ==> Remembered(shown)[i] == (Label(shown[i]), shown[i].ioFlags)
  {
    if shown != [] {
      var p := shown[..|shown| - 1];
      RememberedAt(p);
      forall i | 0 <= i < |shown|
        ensures Remembered(shown)[i] == (Label(shown[i]), shown[i].ioFlags)
      {
        if i < |p| {
          assert Remembered(shown)[i] == Remembered(p)[i] && shown[i] == p[i];
        }
      }
    }
  }

  /** Looking up the label text and flags of `m` among the remembered pairs
      finds them exactly when its key is among the keys of the listed modes. */
  lemma RememberedHas(shown: seq<Mode>, m: Mode)
    requires AllCanScale(shown) && CanScale(m)
    ensures (Label(m), m.ioFlags) in Remembered(shown) <==> KeyOf(m) in Keys(shown)
  {
    RememberedAt(shown);
    KeysAt(shown);
    var r := Remembered(shown);
    var ks := Keys(shown);
    if (Label(m), m.ioFlags) in r {
      var i :| 0 <= i < |r| && r[i] == (Label(m), m.ioFlags);
      SameLabelSameParts(m, shown[i]);
      assert ks[i] == KeyOf(m);
    }
    if KeyOf(m) in ks {
      var i :| 0 <= i < |ks| && ks[i] == KeyOf(m);
      SameLabelSameParts(m, shown[i]);
      assert r[i] == (Label(m), m.ioFlags);
    }
  }

  /** The label text and flags `showDisplayModes` remembers are pairwise
      distinct: one entry per row, and no two rows look the same. */
  lemma RememberedDistinct(modes: seq<Mode>, onlyHidpi: bool, onlyUsable: bool)
    requires AllCanScale(modes)
    ensures var seen := Remembered(ListModes(modes, onlyHidpi, onlyUsable));
      |seen| == |ListModes(modes, onlyHidpi, onlyUsable)|
      && forall i, j :: 0 <= i < j < |seen| ==> seen[i] != seen[j]
  {
    var shown := ListModes(modes, onlyHidpi, onlyUsable);
    var seen := Remembered(shown);
    RememberedAt(shown);
    ListedKeysDistinct(modes, onlyHidpi, onlyUsable);
    forall i, j | 0 <= i < j < |seen|
      ensures seen[i] != seen[j]
    {
      SameLabelSameParts(shown[i], shown[j]);
      assert KeyOf(shown[i]) != KeyOf(shown[j]);
    }
  }

  /** Listing one more mode: it is added when it passes and no listed mode
      has its label and flags. */
  lemma ListStep(modes: seq<Mode>, n: nat, onlyHidpi: bool, onlyUsable: bool)
    requires AllCanScale(modes) && n < |modes|
    ensures var shown := ListModes(modes[..n], onlyHidpi, onlyUsable);
      var m := modes[n];
      ListModes(modes[..n + 1], onlyHidpi, onlyUsable) ==
        if Passes(m, onlyHidpi, onlyUsable) && KeyOf(m) !in Keys(shown) then shown + [m] else shown
  {
    assert modes[..n + 1][..n] == modes[..n];
  }

  /** One more listed mode adds its row and its remembered pair. */
  lemma RowsStep(shown: seq<Mode>, m: Mode, current: Mode)
    requires AllCanScale(shown) && CanScale(m)
    ensures AllCanScale(shown + [m])
    ensures Rows(shown + [m], current) == Rows(shown, current) + [ModeRow(m, current)]
    ensures Remembered(shown + [m]) == Remembered(shown) + [(Label(m), m.ioFlags)]
  {
    assert (shown + [m])[..|shown|] == shown;
  }

  /** Inserting the next row right after the rows already inserted. */
  lemma InsertNext(items: seq<MenuItem>, rows: seq<MenuItem>, item: MenuItem)
    requires |items| >= 1
    ensures var m := InsertRows(items, rows);
      |rows| + 1 <= |m| && m[..|rows| + 1] + [item] + m[|rows| + 1..] == InsertRows(items, rows + [item])
  {
    var m := InsertRows(items, rows);
    assert m[..|rows| + 1] == items[..1] + rows;
    assert m[|rows| + 1..] == items[1..];
  }

  /** What `showDisplayModes` has built after looking at the first `n` modes:
      `items` is `base` with the rows of the modes listed so far inserted
      after its first item, `count` is their number and `seen` holds their
      label text and flags. */
  ghost predicate ListedSoFar(modes: seq<Mode>, n: nat, onlyHidpi: bool, onlyUsable: bool, current: Mode,
                              base: seq<MenuItem>, count: nat, seen: seq<(string, UInt32)>, items: seq<MenuItem>)
    requires AllCanScale(modes) && n <= |modes|
  {
    var shown := ListModes(modes[..n], onlyHidpi, onlyUsable);
    && (|base| >= 1 || shown == [])
    && count == |shown|
    && seen == Remembered(shown)
    && items == InsertRows(base, Rows(shown, current))
  }

  /** A mode that is filtered out, or whose label and flags were seen, leaves
      the menu as it is. */
  lemma SkipStep(modes: seq<Mode>, n: nat, onlyHidpi: bool, onlyUsable: bool, current: Mode,
                 base: seq<MenuItem>, count: nat, seen: seq<(string, UInt32)>, items: seq<MenuItem>)
    requires AllCanScale(modes) && n < |modes|
    requires ListedSoFar(modes, n, onlyHidpi, onlyUsable, current, base, count, seen, items)
    requires !Passes(modes[n], onlyHidpi, onlyUsable) || (Label(modes[n]), modes[n].ioFlags) in seen
    ensures ListedSoFar(modes, n + 1, onlyHidpi, onlyUsable, current, base, count, seen, items)
  {
    ListStep(modes, n, onlyHidpi, onlyUsable);
    RememberedHas(ListModes(modes[..n], onlyHidpi, onlyUsable), modes[n]);
  }

  /** A mode that passes and whose label and flags were not seen gets its row
      right after the rows so far, and its label and flags are remembered. */
  lemma TakeStep(modes: seq<Mode>, n: nat, onlyHidpi: bool, onlyUsable: bool, current: Mode,
                 base: seq<MenuItem>, count: nat, seen: seq<(string, UInt32)>, items: seq<MenuItem>,
                 text: string, item: MenuItem)
    requires AllCanScale(modes) && n < |modes|
    requires |base| >= 1 || ListModes(modes, onlyHidpi, onlyUsable) == []
    requires ListedSoFar(modes, n, onlyHidpi, onlyUsable, current, base, count, seen, items)
    requires Passes(modes[n], onlyHidpi, onlyUsable)
    requires text == Label(modes[n]) && (text, modes[n].ioFlags) !in seen
    requires item == MenuItem(ModeChoice, text, Check(modes[n] == current), Some(modes[n]))
    ensures count + 1 <= |items|
    ensures ListedSoFar(modes, n + 1, onlyHidpi, onlyUsable, current, base, count + 1,
                        seen + [(text, modes[n].ioFlags)], items[..count + 1] + [item] + items[count + 1..])
  {
    var m := modes[n];
    var shown := ListModes(modes[..n], onlyHidpi, onlyUsable);
    ListStep(modes, n, onlyHidpi, onlyUsable);
    RememberedHas(shown, m);
    RowsStep(shown, m, current);
    ListModesPrefix(modes, n + 1, onlyHidpi, onlyUsable);
    assert item == ModeRow(m, current);
    InsertNext(base, Rows(shown, current), item);
  }

  // The menu as `buildMenu` lays it out.

  /** The items `buildMenu` adds after the mode rows. */
  function Footer(onlySafe: bool, onlyHidpi: bool): seq<MenuItem> {
    [SeparatorItem, SafeToggleItem(onlySafe), HidpiToggleItem(onlyHidpi), SeparatorItem, QuitItem]
  }

  /** Adding the footer items one by one adds the footer. */
  lemma FooterAppended(items: seq<MenuItem>, onlySafe: bool, onlyHidpi: bool)
    ensures items + [SeparatorItem] + [SafeToggleItem(onlySafe)] + [HidpiToggleItem(onlyHidpi)] + [SeparatorItem] + [QuitItem]
      == items + Footer(onlySafe, onlyHidpi)
  {
  }

  /** The menu after `rebuildMenu`: heading, mode rows, separator, the two
      filter switches, separator, quit. */
  function Layout(modes: seq<Mode>, onlySafe: bool, onlyHidpi: bool, current: Mode): seq<MenuItem>
    requires AllCanScale(modes)
  {
    [TitleItem] + Rows(ListModes(modes, onlyHidpi, onlySafe), current) + Footer(onlySafe, onlyHidpi)
  }

  /** `showDisplayModes` inserts its rows one after the other from position 1,
      right after the first item. */
  function InsertRows(items: seq<MenuItem>, rows: seq<MenuItem>): seq<MenuItem>
    requires |items| >= 1 || rows == []
  {
    if items == [] then [] else items[..1] + rows + items[1..]
  }

  /** Building on an empty menu gives the layout: the rows go right after
      the title. */
  lemma LayoutFromEmpty(modes: seq<Mode>, onlySafe: bool, onlyHidpi: bool, current: Mode)
    requires AllCanScale(modes)
    ensures InsertRows([] + [TitleItem], Rows(ListModes(modes, onlyHidpi, onlySafe), current)) + Footer(onlySafe, onlyHidpi)
         == Layout(modes, onlySafe, onlyHidpi, current)
  {
    var items: seq<MenuItem> := [] + [TitleItem];
    assert items[..1] == [TitleItem] && items[1..] == [];
  }

  // Moving the check mark.

  /** Items `getCurrentDisplayMode` stops at: a checked one or a separator. */
  predicate Marked(item: MenuItem) {
    item.state == On || item.kind == Separator
  }

  predicate HasMark(items: seq<MenuItem>) {
    exists j :: 0 <= j < |items| && Marked(items[j])
  }

  /** The position of the first checked item or separator. */
  function FirstMark(items: seq<MenuItem>): (r: nat)
    requires HasMark(items)
    ensures r < |items| && Marked(items[r])
    ensures forall j :: 0 <= j < r ==> !Marked(items[j])
  {
    if Marked(items[0]) then 0
    else
      var j :| 0 <= j < |items| && Marked(items[j]);
      assert Marked(items[1..][j - 1]);
      1 + FirstMark(items[1..])
  }

  /** Where the mode rows end: the first separator, or the end of the menu. */
  function SectionEnd(items: seq<MenuItem>): (e: nat)
    ensures e <= |items|
    ensures e < |items| ==> items[e].kind == Separator
    ensures forall j :: 0 <= j < e ==> items[j].kind != Separator
  {
    if items == [] || items[0].kind == Separator then 0
    else 1 + SectionEnd(items[1..])
  }

  /** Every item before the first separator other than the heading represents
      a mode, as the application's forced cast of it takes for granted. */
  predicate CastsSucceed(items: seq<MenuItem>) {
    forall j :: 0 <= j < SectionEnd(items) && items[j].kind != Title ==> items[j].mode.Some?
  }

  /** An item before the first separator that represents `current`. */
  predicate Matches(item: MenuItem, current: Mode) {
    item.kind != Title && item.mode == Some(current)
  }

  /** The item `updateActiveDisplayMode` checks, looking from position `i`:
      the first item before the separator that represents `current`. */
  function MatchFrom(items: seq<MenuItem>, current: Mode, i: nat): (r: Option<nat>)
    requires i <= SectionEnd(items)
    ensures r.Some? ==> i <= r.value < SectionEnd(items) && Matches(items[r.value], current)
    ensures forall j :: i <= j < SectionEnd(items) && (r.Some? ==> j < r.value) ==> !Matches(items[j], current)
    decreases |items| - i
  {
    if i == |items| || items[i].kind == Separator then None
    else if Matches(items[i], current) then Some(i)
    else MatchFrom(items, current, i + 1)
  }

  function SetState(items: seq<MenuItem>, i: nat, s: State): (r: seq<MenuItem>)
    requires i < |items|
  {
    items[i := items[i].(state := s)]
  }

  /** The menu after `updateActiveDisplayMode`: when an item before the
      separator represents `current`, the first checked item (or the
      separator) loses its check and that item gains one; otherwise nothing
      changes. */
  function Updated(items: seq<MenuItem>, current: Mode): seq<MenuItem>
    requires MatchFrom(items, current, 0).Some? ==> HasMark(items)
  {
    match MatchFrom(items, current, 0)
    case None => items
    case Some(k) => SetState(SetState(items, FirstMark(items), Off), k, On)
  }

  /** At most one item before the first separator is checked. */
  predicate AtMostOneChecked(items: seq<MenuItem>) {
    forall i, j ::
      (0 <= i < SectionEnd(items) && 0 <= j < SectionEnd(items) && items[i].state == On && items[j].state == On)
      ==> i == j
  }

  /** Two menus that differ at most in their check marks. */
  predicate SameItems(u: seq<MenuItem>, items: seq<MenuItem>) {
    && |u| == |items|
    && forall j :: 0 <= j < |u| ==>
      u[j].kind == items[j].kind && u[j].title == items[j].title && u[j].mode == items[j].mode
  }

  /** On a menu with a separator and at most one check mark among its mode
      rows, an update that finds a row for `current` leaves exactly that row
      checked among the mode rows; the shape of the menu stays, so the same
      holds for the next update. When no row represents `current` nothing
      changes. */
  lemma UpdateChecksCurrent(items: seq<MenuItem>, current: Mode)
    requires SectionEnd(items) < |items| && AtMostOneChecked(items)
    ensures HasMark(items)
    ensures var u := Updated(items, current);
      && SameItems(u, items)
      && SectionEnd(u) == SectionEnd(items)
      && AtMostOneChecked(u)
      && (MatchFrom(items, current, 0).Some? ==> u[MatchFrom(items, current, 0).value].state == On)
      && (MatchFrom(items, current, 0).None? ==> u == items)
  {
    assert Marked(items[SectionEnd(items)]);
    match MatchFrom(items, current, 0)
    case None =>
    case Some(k) =>
      MoveCheck(items, k);
  }

  /** An update that finds row `k` changes two items at most: the first
      checked item (or the separator) loses its check, row `k` gains one, and
      every other item stays as it was. */
  lemma UpdateTouchesTwo(items: seq<MenuItem>, current: Mode)
    requires MatchFrom(items, current, 0).Some? && HasMark(items)
    ensures var u := Updated(items, current);
      var k := MatchFrom(items, current, 0).value;
      var c := FirstMark(items);
      && |u| == |items|
      && u[k] == items[k].(state := On)
      && (c != k ==> u[c] == items[c].(state := Off))
      && forall j :: 0 <= j < |u| && j != c && j != k ==> u[j] == items[j]
  {
  }

  /** Clearing the first mark and checking row `k` of the section keeps the
      items and the section, and leaves `k` the only checked row. */
  lemma MoveCheck(items: seq<MenuItem>, k: nat)
    requires HasMark(items) && k < SectionEnd(items) && AtMostOneChecked(items)
    ensures var u := SetState(SetState(items, FirstMark(items), Off), k, On);
      && SameItems(u, items)
      && SectionEnd(u) == SectionEnd(items)
      && AtMostOneChecked(u)
      && u[k].state == On
  {
    var e := SectionEnd(items);
    var c := FirstMark(items);
    var u := SetState(SetState(items, c, Off), k, On);
    MarksOnly(items, c, k);
    SameSection(items, u);
    forall i, j | 0 <= i < e && 0 <= j < e && u[i].state == On && u[j].state == On
      ensures i == j
    {
      if i != k {
        OnlyNewCheck(items, u, c, k, i);
      }
      if j != k {
        OnlyNewCheck(items, u, c, k, j);
      }
    }
  }

  /** Setting two check marks changes nothing else. */
  lemma MarksOnly(items: seq<MenuItem>, c: nat, k: nat)
    requires c < |items| && k < |items|
    ensures SameItems(SetState(SetState(items, c, Off), k, On), items)
  {
    var v := SetState(items, c, Off);
    var u := SetState(v, k, On);
    forall j | 0 <= j < |u|
      ensures u[j].kind == items[j].kind && u[j].title == items[j].title && u[j].mode == items[j].mode
    {
      assert v[j].kind == items[j].kind && v[j].title == items[j].title && v[j].mode == items[j].mode;
    }
  }

  /** Item `i` of the section other than `k` is checked after the update only
      if it was checked before, and then it was the first mark, which the
      update clears. */
  lemma OnlyNewCheck(items: seq<MenuItem>, u: seq<MenuItem>, c: nat, k: nat, i: nat)
    requires HasMark(items) && c == FirstMark(items) && k < |items|
    requires u == SetState(SetState(items, c, Off), k, On)
    requires AtMostOneChecked(items)
    requires i < SectionEnd(items) && i != k
    ensures u[i].state == Off
  {
  }

  /** Changing check marks only leaves the separators where they were. */
  lemma {:induction false} SameSection(items: seq<MenuItem>, u: seq<MenuItem>)
    requires |u| == |items|
    requires forall j :: 0 <= j < |u| ==> u[j].kind == items[j].kind
    ensures SectionEnd(u) == SectionEnd(items)
  {
    if items != [] && items[0].kind != Separator {
      SameSection(items[1..], u[1..]);
    }
  }

  /** A heading, then mode rows of which at most one is checked, then the
      footer: the mode rows end at the first separator, each represents a
      mode, and the filter switches show the filters in force. */
  lemma AssembledShape(rows: seq<MenuItem>, onlySafe: bool, onlyHidpi: bool)
    requires AllModeRows(rows) && AtMostOneOn(rows)
    ensures var items := [TitleItem] + rows + Footer(onlySafe, onlyHidpi);
      var n := |rows|;
      && SectionEnd(items) == n + 1
      && CastsSucceed(items)
      && AtMostOneChecked(items)
      && items[n + 2].kind == SafeModesToggle && (items[n + 2].state == On <==> onlySafe)
      && items[n + 3].kind == HidpiModesToggle && (items[n + 3].state == On <==> onlyHidpi)
  {
    var items := [TitleItem] + rows + Footer(onlySafe, onlyHidpi);
    var n := |rows|;
    assert forall j :: 1 <= j <= n ==> items[j] == rows[j - 1];
    assert items[n + 1] == SeparatorItem;
    SectionOfLayout(items, n);
    forall i, j | 0 <= i < n + 1 && 0 <= j < n + 1 && items[i].state == On && items[j].state == On
      ensures i == j
    {
      assert rows[i - 1].state == On && rows[j - 1].state == On;
    }
  }

  /** What `rebuildMenu` produces is ready for updates: its mode rows end at
      the first separator, each row represents a mode, at most one is
      checked, and the filter switches show the filters in force. */
  lemma BuiltMenuShape(modes: seq<Mode>, onlySafe: bool, onlyHidpi: bool, current: Mode)
    requires AllCanScale(modes)
    ensures var items := Layout(modes, onlySafe, onlyHidpi, current);
      var n := |ListModes(modes, onlyHidpi, onlySafe)|;
      && SectionEnd(items) == n + 1
      && CastsSucceed(items)
      && AtMostOneChecked(items)
      && items[n + 2].kind == SafeModesToggle && (items[n + 2].state == On <==> onlySafe)
      && items[n + 3].kind == HidpiModesToggle && (items[n + 3].state == On <==> onlyHidpi)
  {
    ListedRowsShape(modes, onlyHidpi, onlySafe, current);
    AssembledShape(Rows(ListModes(modes, onlyHidpi, onlySafe), current), onlySafe, onlyHidpi);
  }

  /** In a menu laid out by `buildMenu` each listed mode has one row, and
      it is the row an update for that mode finds: once the display has
      switched to the mode of row `i + 1`, that row is the one checked. */
  lemma ChosenRowIsFound(modes: seq<Mode>, onlySafe: bool, onlyHidpi: bool, current: Mode, i: nat)
    requires AllCanScale(modes) && i < |ListModes(modes, onlyHidpi, onlySafe)|
    ensures var items := Layout(modes, onlySafe, onlyHidpi, current);
      MatchFrom(items, ListModes(modes, onlyHidpi, onlySafe)[i], 0) == Some(i + 1)
  {
    var shown := ListModes(modes, onlyHidpi, onlySafe);
    var rows := Rows(shown, current);
    var items := Layout(modes, onlySafe, onlyHidpi, current);
    BuiltMenuShape(modes, onlySafe, onlyHidpi, current);
    RowsAt(shown, current);
    ListedKeysDistinct(modes, onlyHidpi, onlySafe);
    assert forall j :: 1 <= j <= |rows| ==> items[j] == rows[j - 1];
    assert Matches(items[i + 1], shown[i]);
  }

  /** The first separator is at `n + 1` when none comes before it. */
  lemma SectionOfLayout(items: seq<MenuItem>, n: nat)
    requires n + 1 < |items| && items[n + 1].kind == Separator
    requires forall j :: 0 <= j <= n ==> items[j].kind != Separator
    ensures SectionEnd(items) == n + 1
  {
  }
}
