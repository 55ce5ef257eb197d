/**
  The row labels of the menu, built by `showDisplayModes` one piece after the
  other: "W x H", then "i" for an interlaced mode, " @ kx" for a scaled mode,
  " (r.0 Hz)" when the refresh rate is known, and a warning sign for a mode
  that may not be safe. A parser for that shape shows that a label tells
  all of those pieces apart.
*/
module Labels {
  import opened Wrappers
  import opened Modes

  predicate IsDigit(c: char) {
    '0' <= c <= '9'
  }

  predicate AllDigits(s: string) {
    forall i :: 0 <= i < |s| ==> IsDigit(s[i])
  }

  function DigitChar(d: nat): char
    requires d < 10
  {
    (('0' as int) + d) as char
  }

  function DigitValue(c: char): nat
    requires IsDigit(c)
  {
    (c as int) - ('0' as int)
  }

  /** The decimal text of a non-negative whole number, as string
      interpolation writes it: digits only, with no leading zero. */
  function Decimal(n: nat): (s: string)
    ensures |s| >= 1 && AllDigits(s)
    ensures n > 0 ==> s[0] != '0'
  {
    if n < 10 then [DigitChar(n)] else Decimal(n / 10) + [DigitChar(n % 10)]
  }

  /** The number a string of decimal digits denotes. */
  function ValueOf(ds: string): nat
    requires AllDigits(ds)
  {
    if ds == [] then 0 else ValueOf(ds[..|ds| - 1]) * 10 + DigitValue(ds[|ds| - 1])
  }

  lemma {:induction false} DecimalValue(n: nat)
    ensures ValueOf(Decimal(n)) == n
  {
    if n >= 10 {
      var ds := Decimal(n / 10) + [DigitChar(n % 10)];
      assert ds[..|ds| - 1] == Decimal(n / 10);
      DecimalValue(n / 10);
    }
  }

  /** The length of the run of digits that starts `s`. */
  function DigitRun(s: string): (k: nat)
    ensures k <= |s| && AllDigits(s[..k]) && (k < |s| ==> !IsDigit(s[k]))
  {
    if s != [] && IsDigit(s[0]) then
      var k := 1 + DigitRun(s[1..]);
      assert s[..k] == [s[0]] + s[1..][..k - 1];
      k
    else 0
  }

  /** Reads a number from the front of `s`: its value and what follows. */
  function ParseNat(s: string): Option<(nat, string)> {
    var k := DigitRun(s);
    if k == 0 then None else Some((ValueOf(s[..k]), s[k..]))
  }

  /** A number written in decimal is read back, and reading stops at the
      first character that is not a digit. */
  lemma ParseDecimal(n: nat, rest: string)
    requires rest == [] || !IsDigit(rest[0])
    ensures ParseNat(Decimal(n) + rest) == Some((n, rest))
  {
    var ds := Decimal(n);
    var s := ds + rest;
    assert s[..|ds|] == ds;
    if |rest| > 0 {
      assert s[|ds|] == rest[0];
    }
    assert DigitRun(s) == |ds|;
    assert s[|ds|..] == rest;
    DecimalValue(n);
  }

  predicate StartsWith(s: string, prefix: string) {
    |prefix| <= |s| && s[..|prefix|] == prefix
  }

  /** The warning sign appended to a mode that may be unsafe: a space, U+26A0
      and the emoji variation selector U+FE0F. */
  const Warning: string := " \U{26A0}\U{FE0F}"

  /** The pieces a label is made of. */
  datatype LabelParts = LabelParts(
    width: nat,
    height: nat,
    interlaced: bool,
    scale: Option<nat>,
    refresh: Option<nat>,
    warning: bool)

  function InterlacePart(interlaced: bool): string {
    if interlaced then "i" else ""
  }

  function ScalePart(scale: Option<nat>): string {
    match scale
    case None => ""
    case Some(k) => " @ " + Decimal(k) + "x"
  }

  /** The refresh rate is a floating-point number in the application, and
      string interpolation writes a whole-valued one with ".0". */
  function RefreshPart(refresh: Option<nat>): string {
    match refresh
    case None => ""
    case Some(r) => " (" + Decimal(r) + ".0 Hz)"
  }

  function WarningPart(warning: bool): string {
    if warning then Warning else ""
  }

  /** What follows "W x H" in the label of `p`. */
  function Suffix(p: LabelParts): string {
    InterlacePart(p.interlaced) + (ScalePart(p.scale) + (RefreshPart(p.refresh) + WarningPart(p.warning)))
  }

  /** The texts of `parts`, one after the other. */
  function Concat(parts: seq<string>): string {
    if parts == [] then "" else Concat(parts[..|parts| - 1]) + parts[|parts| - 1]
  }

  /** The pieces of the label of `p`, in the order the application appends
      them; a piece that does not apply is empty. */
  function Pieces(p: LabelParts): seq<string> {
    [Decimal(p.width) + " x " + Decimal(p.height),
     InterlacePart(p.interlaced), ScalePart(p.scale), RefreshPart(p.refresh), WarningPart(p.warning)]
  }

  /** The label text of `p`. */
  function Render(p: LabelParts): string {
    Concat(Pieces(p))
  }

  /** Five pieces, concatenated. */
  lemma ConcatFive(ps: seq<string>)
    requires |ps| == 5
    ensures Concat(ps) == ps[0] + ps[1] + ps[2] + ps[3] + ps[4]
  {
    var p1, p2, p3, p4 := ps[..1], ps[..2], ps[..3], ps[..4];
    assert p1[..0] == [] && p1[0] == ps[0];
    assert p2[..1] == p1 && p2[1] == ps[1];
    assert p3[..2] == p2 && p3[2] == ps[2];
    assert p4[..3] == p3 && p4[3] == ps[3];
    assert ps[..4] == p4;
    assert Concat(p1) == ps[0];
    assert Concat(p2) == ps[0] + ps[1];
    assert Concat(p3) == ps[0] + ps[1] + ps[2];
    assert Concat(p4) == ps[0] + ps[1] + ps[2] + ps[3];
  }

  /** Regrouping a concatenation to the right. */
  lemma Reassociate(a: string, b: string, c: string, d: string, e: string, f: string, g: string)
    ensures (a + b + c) + d + e + f + g == a + (b + (c + (d + (e + (f + g)))))
  {
    assert (a + b + c) + d + e + f + g == (a + b + c) + (d + (e + (f + g)));
    assert (a + b + c) + (d + (e + (f + g))) == a + (b + (c + (d + (e + (f + g)))));
  }

  /** The label text of `p` written out from its first piece to its last. */
  lemma RenderSpelled(p: LabelParts)
    ensures Render(p) == Decimal(p.width) + (" x " + (Decimal(p.height) + Suffix(p)))
  {
    var ps := Pieces(p);
    ConcatFive(ps);
    Reassociate(Decimal(p.width), " x ", Decimal(p.height), ps[1], ps[2], ps[3], ps[4]);
  }

  /** The pieces of the label of mode `m`. The scale factor is the integer
      quotient pixelWidth / width; the refresh part is present only for a
      non-zero rate; the warning marks a mode that may be unsafe. */
  function PartsOf(m: Mode): LabelParts
    requires CanScale(m)
  {
    LabelParts(
      m.width,
      m.height,
      Interlaced(m),
      if Scaled(m) then Some(m.pixelWidth / m.width) else None,
      if m.refresh != 0 then Some(m.refresh) else None,
      Unsafe(m))
  }

  /** The label of a mode that is shown in the menu. */
  function Label(m: Mode): string
    requires CanScale(m)
  {
    Render(PartsOf(m))
  }

  /** Reads an optional " @ kx" from the front of `s`. */
  function ParseScale(s: string): Option<(Option<nat>, string)> {
    if !StartsWith(s, " @ ") then Some((None, s))
    else
      match ParseNat(s[3..])
      case None => None
      case Some((k, r)) => if StartsWith(r, "x") then Some((Some(k), r[1..])) else None
  }

  /** Reads an optional " (r.0 Hz)" from the front of `s`. */
  function ParseRefresh(s: string): Option<(Option<nat>, string)> {
    if !StartsWith(s, " (") then Some((None, s))
    else
      match ParseNat(s[2..])
      case None => None
      case Some((r, t)) => if StartsWith(t, ".0 Hz)") then Some((Some(r), t[6..])) else None
  }

  /** Reads a label back into its pieces; None for text of another shape. */
  function ParseLabel(s: string): Option<LabelParts> {
    match ParseNat(s)
    case None => None
    case Some((w, r0)) =>
      if !StartsWith(r0, " x ") then None
      else
        match ParseNat(r0[3..])
        case None => None
        case Some((h, r1)) => ParseSuffix(w, h, r1)
  }

  /** Reads what follows "W x H" in a label. */
  function ParseSuffix(w: nat, h: nat, r1: string): Option<LabelParts> {
    var interlaced := StartsWith(r1, "i");
    var r2 := if interlaced then r1[1..] else r1;
    match ParseScale(r2)
    case None => None
    case Some((scale, r3)) =>
      match ParseRefresh(r3)
      case None => None
      case Some((refresh, r4)) =>
        if r4 == Warning then Some(LabelParts(w, h, interlaced, scale, refresh, true))
        else if r4 == [] then Some(LabelParts(w, h, interlaced, scale, refresh, false))
        else None
  }

  /** The refresh part is read back, and reading stops right after it. */
  lemma RefreshRoundTrip(refresh: Option<nat>, tail: string)
    requires !StartsWith(tail, " (")
    ensures ParseRefresh(RefreshPart(refresh) + tail) == Some((refresh, tail))
  {
    match refresh
    case None =>
      assert RefreshPart(refresh) + tail == tail;
    case Some(r) =>
      var s := " (" + Decimal(r) + ".0 Hz)" + tail;
      assert s[2..] == Decimal(r) + (".0 Hz)" + tail);
      ParseDecimal(r, ".0 Hz)" + tail);
      assert (".0 Hz)" + tail)[..6] == ".0 Hz)";
      assert (".0 Hz)" + tail)[6..] == tail;
  }

  /** The warning sign is not mistaken for a refresh rate. */
  lemma NoRefreshAhead(warning: bool)
    ensures !StartsWith(WarningPart(warning), " (")
  {
    if warning {
      assert WarningPart(warning)[..2][1] == '\U{26A0}';
    }
  }

  /** The refresh part and the warning sign are not mistaken for a scale
      factor. */
  lemma NoScaleAhead(refresh: Option<nat>, warning: bool)
    ensures !StartsWith(RefreshPart(refresh) + WarningPart(warning), " @ ")
  {
    var tail := RefreshPart(refresh) + WarningPart(warning);
    if refresh.Some? {
      assert tail[1] == '(';
    } else if warning {
      assert tail[..3][1] == '\U{26A0}';
    } else {
      assert tail == [];
    }
  }

  /** The scale part is read back, and reading stops right after it. */
  lemma ScaleRoundTrip(scale: Option<nat>, tail: string)
    requires !StartsWith(tail, " @ ")
    ensures ParseScale(ScalePart(scale) + tail) == Some((scale, tail))
  {
    match scale
    case None =>
      assert ScalePart(scale) + tail == tail;
    case Some(k) =>
      var s := " @ " + Decimal(k) + "x" + tail;
      assert s[3..] == Decimal(k) + ("x" + tail);
      ParseDecimal(k, "x" + tail);
      assert ("x" + tail)[1..] == tail;
  }

  /** What follows "W x H" is read back into the remaining pieces. */
  lemma SuffixRoundTrip(p: LabelParts)
    ensures ParseSuffix(p.width, p.height, Suffix(p)) == Some(p)
  {
    var tail := RefreshPart(p.refresh) + WarningPart(p.warning);
    var r2 := ScalePart(p.scale) + tail;
    var r1 := Suffix(p);
    assert StartsWith(r1, "i") <==> p.interlaced by {
      if !p.interlaced && |r1| > 0 {
        assert r1 == r2;
        assert r1[0] == ' ';
      }
    }
    if p.interlaced {
      assert r1[1..] == r2;
    } else {
      assert r1 == r2;
    }
    NoScaleAhead(p.refresh, p.warning);
    ScaleRoundTrip(p.scale, tail);
    NoRefreshAhead(p.warning);
    RefreshRoundTrip(p.refresh, WarningPart(p.warning));
  }

  /** What follows the height does not start with a digit, so reading the
      height stops where it ends. */
  lemma SuffixNotDigit(p: LabelParts)
    ensures Suffix(p) == [] || !IsDigit(Suffix(p)[0])
  {
    var r1 := Suffix(p);
    if |r1| > 0 && !p.interlaced {
      assert r1 == ScalePart(p.scale) + (RefreshPart(p.refresh) + WarningPart(p.warning));
      assert r1[0] == ' ';
    }
  }

  /** Reading a label back gives the pieces it was rendered from. */
  lemma {:induction false} LabelRoundTrip(p: LabelParts)
    ensures ParseLabel(Render(p)) == Some(p)
  {
    var r1 := Suffix(p);
    var r0 := " x " + (Decimal(p.height) + r1);
    RenderSpelled(p);
    ParseDecimal(p.width, r0);
    assert r0[3..] == Decimal(p.height) + r1;
    SuffixNotDigit(p);
    ParseDecimal(p.height, r1);
    SuffixRoundTrip(p);
  }

  /** Appending the pieces of `p` one after the other to its size gives the
      rendered label. */
  lemma PiecewiseRender(p: LabelParts, s0: string, s1: string, s2: string, s3: string, s4: string)
    requires s0 == Decimal(p.width) + " x " + Decimal(p.height)
    requires s1 == s0 + InterlacePart(p.interlaced)
    requires s2 == s1 + ScalePart(p.scale)
    requires s3 == s2 + RefreshPart(p.refresh)
    requires s4 == s3 + WarningPart(p.warning)
    ensures s4 == Render(p)
  {
    var ps := Pieces(p);
    ConcatFive(ps);
    assert ps[0] == s0 && ps[1] == InterlacePart(p.interlaced) && ps[2] == ScalePart(p.scale);
    assert ps[3] == RefreshPart(p.refresh) && ps[4] == WarningPart(p.warning);
  }

  /** What a shown label states about its mode: width and height, whether it
      is interlaced, its scale factor exactly when it is scaled, its refresh
      rate exactly when that is known, and the warning exactly when the mode
      may be unsafe. */
  lemma LabelDescribesMode(m: Mode)
    requires CanScale(m)
    ensures var p := ParseLabel(Label(m));
      && p.Some?
      && p.value.width == m.width && p.value.height == m.height
      && (p.value.interlaced <==> Interlaced(m))
      && (p.value.scale.Some? <==> Scaled(m))
      && (Scaled(m) ==> p.value.scale.value == m.pixelWidth / m.width)
      && (p.value.refresh.Some? <==> m.refresh != 0)
      && (m.refresh != 0 ==> p.value.refresh.value == m.refresh)
      && (p.value.warning <==> Unsafe(m))
  {
    LabelRoundTrip(PartsOf(m));
  }

  predicate EndsWith(s: string, suffix: string) {
    |suffix| <= |s| && s[|s| - |suffix|..] == suffix
  }

  /** A label ends with the warning sign exactly when its mode may be
      unsafe: without the sign it ends in ")", "x", "i" or a digit. */
  lemma WarningEndsLabel(m: Mode)
    requires CanScale(m)
    ensures Unsafe(m) <==> EndsWith(Label(m), Warning)
  {
    var p := PartsOf(m);
    var ps := Pieces(p);
    ConcatFive(ps);
    var s := Label(m);
    var front := ps[0] + ps[1] + ps[2] + ps[3];
    assert s == front + ps[4];
    if Unsafe(m) {
      assert s[|s| - |Warning|..] == Warning;
    } else {
      assert s == front;
      var last := s[|s| - 1];
      if ps[3] != "" {
        assert last == ')';
      } else if ps[2] != "" {
        assert last == 'x';
      } else if ps[1] != "" {
        assert last == 'i';
      } else {
        var h := Decimal(p.height);
        assert last == h[|h| - 1];
      }
      assert last != Warning[|Warning| - 1];
    }
  }

  /** Two modes get the same label exactly when their label pieces agree. */
  lemma SameLabelSameParts(m1: Mode, m2: Mode)
    requires CanScale(m1) && CanScale(m2)
    ensures Label(m1) == Label(m2) <==> PartsOf(m1) == PartsOf(m2)
  {
    LabelRoundTrip(PartsOf(m1));
    LabelRoundTrip(PartsOf(m2));
  }
}
