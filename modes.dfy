/**
  The display modes that CoreGraphics reports for a screen (`CGDisplayMode`),
  the IOKit flag bits the menu consults, and the ranking used to order modes
  from highest to lowest resolution.
*/
module Modes {

  /** One mode as the operating system reports it. Two modes are the same
      mode exactly when all their fields agree. The refresh rate is kept as
      a whole number of hertz. */
  datatype Mode = Mode(
    width: nat,
    height: nat,
    pixelWidth: nat,
    pixelHeight: nat,
    refresh: nat,
    ioFlags: UInt32,
    usable: bool)

  /** An unsigned 32-bit integer, as the flag word is. */
  type UInt32 = x: int | 0 <= x < 0x1_0000_0000

  // Bits of `ioFlags`, as IOGraphicsTypes.h defines them.
  const ValidFlag: nat := 0x0000_0001
  const SafeFlag: nat := 0x0000_0002
  const InterlacedFlag: nat := 0x0000_0040
  const NotPresetFlag: nat := 0x0000_0200

  /** The bit `bit`, a power of two, is set in `flags`: the test
      `flags & bit != 0`, written with arithmetic. */
  predicate HasFlag(flags: UInt32, bit: nat)
    requires bit > 0
  {
    (flags / bit) % 2 == 1
  }

  predicate Interlaced(m: Mode) {
    HasFlag(m.ioFlags, InterlacedFlag)
  }

  /** A HiDPI variant: the backing store has a different width than the
      logical resolution. */
  predicate Scaled(m: Mode) {
    m.width != m.pixelWidth
  }

  /** Not known to be fine for the desktop: the OS says it is not usable for
      the GUI, or it is not a preset mode of the display. */
  predicate Unsafe(m: Mode) {
    !m.usable || HasFlag(m.ioFlags, NotPresetFlag)
  }

  /** The mode carries the Safe or the Valid bit: the application masks the
      flags with the sum of the two bits and tests for a non-zero result. */
  predicate SafeOrValid(m: Mode) {
    HasFlag(m.ioFlags, SafeFlag) || HasFlag(m.ioFlags, ValidFlag)
  }

  /** The label's " @ kx" part divides pixelWidth by width; that division is
      only reached for a scaled mode, and it needs a non-zero width. */
  predicate CanScale(m: Mode) {
    !Scaled(m) || m.width > 0
  }

  /** The ordering comparator: `a` has a lower height than `b`, or the same
      height and a lower pixel height. */
  predicate Below(a: Mode, b: Mode) {
    a.height < b.height || (a.height == b.height && a.pixelHeight < b.pixelHeight)
  }

  /** Modes run from highest to lowest: a higher height first, and for equal
      heights a higher or equal pixel height first. */
  predicate SortedDescending(s: seq<Mode>) {
    forall i, j :: 0 <= i < j < |s| ==>
      s[i].height > s[j].height || (s[i].height == s[j].height && s[i].pixelHeight >= s[j].pixelHeight)
  }
}
