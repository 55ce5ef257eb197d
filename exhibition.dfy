/**
  The application delegate: it owns the status-bar menu, the display modes of
  the display in focus and the two filter switches, and rebuilds or updates
  the menu when the user or the system asks.

  What the operating system supplies is passed in: `osModes` is the list of
  modes the display reports (duplicate low-resolution modes included) and
  `current` the mode the display is using at that moment.
*/
module Exhibition {
  import opened Wrappers
  import opened Modes
  import opened Labels
  import opened Menus
  import Sorting

  /** The label of one row, built piece by piece: size, interlace mark,
      scale factor, refresh rate and warning sign; `skip` says that the mode
      is filtered out partway (not scaled while only HiDPI modes are shown,
      or not usable while only usable modes are shown). */
  method DescribeMode(thisMode: Mode, onlyHidpi: bool, onlyUsable: bool) returns (outputString: string, skip: bool)
    requires CanScale(thisMode)
    ensures skip <==> (!Scaled(thisMode) && onlyHidpi) || (Unsafe(thisMode) && onlyUsable)
    ensures !skip ==> outputString == Label(thisMode)
  {
    ghost var parts := PartsOf(thisMode);
    outputString := "";
    outputString := outputString + (Decimal(thisMode.width) + " x " + Decimal(thisMode.height));
    ghost var sized := outputString;
    if Interlaced(thisMode) {
      outputString := outputString + "i";
    }
    assert outputString == sized + InterlacePart(parts.interlaced);
    ghost var marked := outputString;
    if thisMode.width != thisMode.pixelWidth {
      outputString := outputString + (" @ " + Decimal(thisMode.pixelWidth / thisMode.width) + "x");
    } else if onlyHidpi {
      return outputString, true;
    }
    assert outputString == marked + ScalePart(parts.scale);
    ghost var scaled := outputString;
    if thisMode.refresh != 0 {
      outputString := outputString + (" (" + Decimal(thisMode.refresh) + ".0 Hz)");
    }
    assert outputString == scaled + RefreshPart(parts.refresh);
    ghost var timed := outputString;
    if Unsafe(thisMode) {
      if onlyUsable {
        return outputString, true;
      } else {
        outputString := outputString + Warning;
      }
    }
    assert outputString == timed + WarningPart(parts.warning);
    PiecewiseRender(parts, sized, marked, scaled, timed, outputString);
    skip := false;
  }

  class AppDelegate {
    /** The items of the status-bar menu, top to bottom. */
    var menu: seq<MenuItem>
    /** The modes of the display in focus, highest first. */
    var displayModes: seq<Mode>
    /** Whether only modes that are safe to use are listed. */
    var onlySafeModes: bool
    /** Whether only scaled (HiDPI) modes are listed. */
    var onlyHidpiModes: bool

    constructor ()
      ensures menu == [] && displayModes == []
      ensures onlySafeModes && onlyHidpiModes
    {
      menu := [];
      displayModes := [];
      onlySafeModes := true;
      onlyHidpiModes := true;
    }

    /** Inserts one row per listed mode right after the first menu item, in
        the order of `modes`, skipping filtered modes, modes neither safe nor
        valid, and modes whose label and flags an earlier row already has. */
    method ShowDisplayModes(modes: seq<Mode>, onlyUsableModes: bool, current: Mode)
      requires AllCanScale(modes)
      requires |menu| >= 1 || ListModes(modes, onlyHidpiModes, onlyUsableModes) == []
      modifies this`menu
      ensures menu == InsertRows(old(menu), Rows(ListModes(modes, onlyHidpiModes, onlyUsableModes), current))
    {
      var safeModeList: seq<(string, UInt32)> := [];
      var menuIndex := 0;
      for index := 0 to |modes|
        invariant ListedSoFar(modes, index, onlyHidpiModes, onlyUsableModes, current, old(menu), menuIndex, safeModeList, menu)
      {
        var thisMode := modes[index];
        var outputString, skip := DescribeMode(thisMode, onlyHidpiModes, onlyUsableModes);
        if skip {
          SkipStep(modes, index, onlyHidpiModes, onlyUsableModes, current, old(menu), menuIndex, safeModeList, menu);
          continue;
        }
        var menuItem := MenuItem(ModeChoice, outputString, Off, Some(thisMode));
        if thisMode == current {
          menuItem := menuItem.(state := On);
        }
        var newItem := (outputString, thisMode.ioFlags);
        var alreadyExists := newItem in safeModeList;
        var modeIsSafe := SafeOrValid(thisMode);
        if !alreadyExists && modeIsSafe {
          TakeStep(modes, index, onlyHidpiModes, onlyUsableModes, current, old(menu), menuIndex, safeModeList, menu,
                   outputString, menuItem);
          safeModeList := safeModeList + [newItem];
          menuIndex := menuIndex + 1;
          menu := menu[..menuIndex] + [menuItem] + menu[menuIndex..];
        } else {
          SkipStep(modes, index, onlyHidpiModes, onlyUsableModes, current, old(menu), menuIndex, safeModeList, menu);
        }
      }
      assert modes[..|modes|] == modes;
    }

    /** The first item that is checked or is a separator. */
    method GetCurrentDisplayMode() returns (r: nat)
      requires HasMark(menu)
      ensures r == FirstMark(menu)
    {
      var i := 0;
      r := 0;
      while true
        invariant i <= FirstMark(menu)
        decreases |menu| - i
      {
        r := i;
        if menu[r].state == On {
          break;
        }
        i := i + 1;
        if menu[r].kind == Separator {
          break;
        }
      }
    }

    /** Moves the check mark to the first mode row above the separator that
        represents `current`, when there is one. */
    method UpdateActiveDisplayMode(current: Mode)
      requires CastsSucceed(menu)
      requires MatchFrom(menu, current, 0).Some? ==> HasMark(menu)
      modifies this`menu
      ensures menu == Updated(old(menu), current)
    {
      var items := menu;
      var n := 0;
      while n < |items|
        invariant n <= SectionEnd(items)
        invariant MatchFrom(items, current, n) == MatchFrom(items, current, 0)
      {
        var item := items[n];
        if item.kind == Separator {
          break;
        } else if item.kind == Title {
          n := n + 1;
          continue;
        }
        if item.mode.value == current {
          var c := GetCurrentDisplayMode();
          menu := menu[c := menu[c].(state := Off)];
          menu := menu[n := menu[n].(state := On)];
          return;
        }
        n := n + 1;
      }
    }

    /** Lists the modes of the display, highest first, and lays out the menu
        after whatever it already holds: a heading, the mode rows inserted
        after the first item, a separator, the two filter switches showing
        the filters in force, a separator and the quit command. */
    method BuildMenu(osModes: seq<Mode>, current: Mode)
      requires AllCanScale(osModes)
      modifies this`menu, this`displayModes
      ensures multiset(displayModes) == multiset(osModes) && SortedDescending(displayModes)
      ensures AllCanScale(displayModes)
      ensures menu == InsertRows(old(menu) + [TitleItem], Rows(ListModes(displayModes, onlyHidpiModes, onlySafeModes), current))
                      + Footer(onlySafeModes, onlyHidpiModes)
    {
      displayModes := Sorting.GetAllDisplayModes(osModes);
      forall i | 0 <= i < |displayModes|
        ensures CanScale(displayModes[i])
      {
        assert displayModes[i] in multiset(osModes);
      }
      menu := menu + [TitleItem];
      ShowDisplayModes(displayModes, onlySafeModes, current);
      ghost var listed := menu;
      menu := menu + [SeparatorItem];
      menu := menu + [SafeToggleItem(onlySafeModes)];
      menu := menu + [HidpiToggleItem(onlyHidpiModes)];
      menu := menu + [SeparatorItem];
      menu := menu + [QuitItem];
      FooterAppended(listed, onlySafeModes, onlyHidpiModes);
    }

    /** Empties the menu and builds it again. */
    method RebuildMenu(osModes: seq<Mode>, current: Mode)
      requires AllCanScale(osModes)
      modifies this`menu, this`displayModes
      ensures multiset(displayModes) == multiset(osModes) && SortedDescending(displayModes)
      ensures AllCanScale(displayModes)
      ensures menu == Layout(displayModes, onlySafeModes, onlyHidpiModes, current)
    {
      menu := [];
      BuildMenu(osModes, current);
      LayoutFromEmpty(displayModes, onlySafeModes, onlyHidpiModes, current);
    }

    /** The "Show only safe modes" switch: its sender's check mark decides
        the new filter (checked turns it off, unchecked on), then the menu is
        rebuilt. */
    method ToggleShownDisplayModes(sender: nat, osModes: seq<Mode>, current: Mode)
      requires sender < |menu|
      requires AllCanScale(osModes)
      modifies this`menu, this`displayModes, this`onlySafeModes
      ensures onlySafeModes == (old(menu[sender].state) == Off)
      ensures multiset(displayModes) == multiset(osModes) && SortedDescending(displayModes)
      ensures AllCanScale(displayModes)
      ensures menu == Layout(displayModes, onlySafeModes, onlyHidpiModes, current)
    {
      if menu[sender].state == On {
        menu := menu[sender := menu[sender].(state := Off)];
        onlySafeModes := false;
      } else {
        menu := menu[sender := menu[sender].(state := On)];
        onlySafeModes := true;
      }
      RebuildMenu(osModes, current);
    }

    /** The "Show only HiDPI modes" switch, in the same way. */
    method ToggleShownHidpiModes(sender: nat, osModes: seq<Mode>, current: Mode)
      requires sender < |menu|
      requires AllCanScale(osModes)
      modifies this`menu, this`displayModes, this`onlyHidpiModes
      ensures onlyHidpiModes == (old(menu[sender].state) == Off)
      ensures multiset(displayModes) == multiset(osModes) && SortedDescending(displayModes)
      ensures AllCanScale(displayModes)
      ensures menu == Layout(displayModes, onlySafeModes, onlyHidpiModes, current)
    {
      if menu[sender].state == On {
        menu := menu[sender := menu[sender].(state := Off)];
        onlyHidpiModes := false;
      } else {
        menu := menu[sender := menu[sender].(state := On)];
        onlyHidpiModes := true;
      }
      RebuildMenu(osModes, current);
    }

    /** After the display has been switched to the mode of row `sender`, the
        check mark follows the mode the display then reports, `granted`. */
    method ChangeDisplayMode(sender: nat, granted: Mode)
      requires sender < |menu| && menu[sender].mode.Some?
      requires CastsSucceed(menu)
      requires MatchFrom(menu, granted, 0).Some? ==> HasMark(menu)
      modifies this`menu
      ensures menu == Updated(old(menu), granted)
    {
      UpdateActiveDisplayMode(granted);
    }

    /** At launch the menu, still empty, is built. */
    method ApplicationDidFinishLaunching(osModes: seq<Mode>, current: Mode)
      requires menu == [] && AllCanScale(osModes)
      modifies this`menu, this`displayModes
      ensures multiset(displayModes) == multiset(osModes) && SortedDescending(displayModes)
      ensures AllCanScale(displayModes)
      ensures menu == Layout(displayModes, onlySafeModes, onlyHidpiModes, current)
    {
      BuildMenu(osModes, current);
      LayoutFromEmpty(displayModes, onlySafeModes, onlyHidpiModes, current);
    }
  }
}
