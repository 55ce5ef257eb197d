/**
  The ordering step of `getAllDisplayModes`: every mode of a snapshot of the
  list is repositioned, one at a time, by removing its first occurrence and
  inserting it at each later index whose mode ranks above it.
*/
module Sorting {
  import opened Wrappers
  import opened Modes

  /** Every mode has at least as many settled copies in `s` as `done` holds
      copies of it, except possibly `x`. */
  ghost predicate SettledAtLeast(done: multiset<Mode>, s: seq<Mode>, x: Option<Mode>) {
    forall v {:trigger SettledCopies(s, v)} :: Some(v) != x ==> done[v] <= SettledCopies(s, v)
  }

  /** Setting aside one mode `x` weakens the bound. */
  lemma SetAside(done: multiset<Mode>, s: seq<Mode>, x: Mode)
    requires SettledAtLeast(done, s, None)
    ensures SettledAtLeast(done, s, Some(x)) && done[x] <= SettledCopies(s, x)
  {
  }

  /** One more settled copy of `x` lets `x` join the processed modes. */
  lemma TakeIn(done: multiset<Mode>, s: seq<Mode>, x: Mode)
    requires SettledAtLeast(done, s, Some(x)) && done[x] + 1 <= SettledCopies(s, x)
    ensures SettledAtLeast(done + multiset{x}, s, None)
  {
  }

  /** Swift's `firstIndex(of:)`: the position of the first element equal to `x`. */
  function FirstIndex<T(==)>(s: seq<T>, x: T): (r: Option<nat>)
    ensures r.Some? <==> x in s
    ensures r.Some? ==> r.value < |s| && s[r.value] == x && x !in s[..r.value]
  {
    if s == [] then None
    else if s[0] == x then Some(0)
    else
      match FirstIndex(s[1..], x)
      case None => None
      case Some(i) =>
        assert s[..i + 1] == [s[0]] + s[1..][..i];
        Some(i + 1)
  }

  /** Some element of `s` ranks above `x`. */
  predicate AnyAbove(s: seq<Mode>, x: Mode) {
    exists i :: 0 <= i < |s| && Below(x, s[i])
  }

  /** The number of copies of `x` that follow the last element of `s` ranking
      above `x` (all copies of `x` when nothing ranks above it). A copy is
      settled when nothing after it ranks higher. */
  function SettledCopies(s: seq<Mode>, x: Mode): nat {
    if s == [] then 0
    else
      var last := s[|s| - 1];
      if Below(x, last) then 0
      else SettledCopies(s[..|s| - 1], x) + (if last == x then 1 else 0)
  }

  /** Only copies of `x` are counted. */
  lemma {:induction false} SettledAtMostCopies(s: seq<Mode>, x: Mode)
    ensures SettledCopies(s, x) <= multiset(s)[x]
  {
    if s != [] {
      var last := s[|s| - 1];
      assert s == s[..|s| - 1] + [last];
      SettledAtMostCopies(s[..|s| - 1], x);
    }
  }

  /** Appending one element that does not rank above `x`. */
  lemma SettledAppend(s: seq<Mode>, y: Mode, x: Mode)
    requires !Below(x, y)
    ensures SettledCopies(s + [y], x) == SettledCopies(s, x) + (if y == x then 1 else 0)
  {
    assert (s + [y])[..|s|] == s;
  }

  /** Settled copies of a concatenation: the right part decides alone when it
      holds something ranking above `x`. */
  lemma {:induction false} SettledSplit(a: seq<Mode>, b: seq<Mode>, x: Mode)
    ensures SettledCopies(a + b, x) ==
      if AnyAbove(b, x) then SettledCopies(b, x) else SettledCopies(a, x) + multiset(b)[x]
    decreases |b|
  {
    if b == [] {
      assert a + b == a;
    } else {
      var b', y := b[..|b| - 1], b[|b| - 1];
      assert b == b' + [y];
      assert a + b == (a + b') + [y];
      assert (a + b)[..|a + b| - 1] == a + b';
      SettledSplit(a, b', x);
      if Below(x, y) {
        assert AnyAbove(b, x) by { assert Below(x, b[|b| - 1]); }
      } else {
        assert AnyAbove(b, x) <==> AnyAbove(b', x) by {
          if AnyAbove(b, x) {
            var i :| 0 <= i < |b| && Below(x, b[i]);
            assert i < |b'| && b'[i] == b[i];
          }
          if AnyAbove(b', x) {
            var i :| 0 <= i < |b'| && Below(x, b'[i]);
            assert b[i] == b'[i];
          }
        }
      }
    }
  }

  /** With nothing ranking above `x`, every copy of `x` is settled. */
  lemma SettledWhenNothingAbove(s: seq<Mode>, x: Mode)
    requires !AnyAbove(s, x)
    ensures SettledCopies(s, x) == multiset(s)[x]
  {
    SettledSplit([], s, x);
    assert [] + s == s;
  }

  /** A copy of `s[i]` followed by a higher mode is not settled, so fewer
      than all copies of `s[i]` are settled. */
  lemma HigherLaterUnsettles(s: seq<Mode>, i: nat, j: nat)
    requires i < j < |s| && Below(s[i], s[j])
    ensures SettledCopies(s, s[i]) < multiset(s)[s[i]]
  {
    var left, right := s[..i + 1], s[i + 1..];
    assert s == left + right;
    assert right[j - i - 1] == s[j];
    SettledSplit(left, right, s[i]);
    SettledAtMostCopies(right, s[i]);
    assert multiset(s) == multiset(left) + multiset(right);
    assert left[i] == s[i];
  }

  /** When every copy of every element is settled, the sequence runs from the
      highest mode to the lowest. */
  lemma AllSettledIsSorted(s: seq<Mode>)
    requires SettledAtLeast(multiset(s), s, None)
    ensures SortedDescending(s)
  {
    forall i, j | 0 <= i < j < |s|
      ensures s[i].height > s[j].height || (s[i].height == s[j].height && s[i].pixelHeight >= s[j].pixelHeight)
    {
      if Below(s[i], s[j]) {
        HigherLaterUnsettles(s, i, j);
        assert false;
      }
    }
  }

  /** Removing an element other than `w` never unsettles a copy of `w`. */
  lemma RemoveKeepsSettled(s: seq<Mode>, f: nat, w: Mode)
    requires f < |s| && s[f] != w
    ensures SettledCopies(s[..f] + s[f + 1..], w) >= SettledCopies(s, w)
  {
    var a, b := s[..f], s[f + 1..];
    assert s == (a + [s[f]]) + b;
    SettledSplit(a + [s[f]], b, w);
    SettledSplit(a, b, w);
    assert (a + [s[f]])[..|a|] == a;
  }

  /** Inserting `x` right before or right after an element ranking above it
      leaves the settled copies of every other mode as they were. */
  lemma InsertNextToHigherKeepsSettled(s: seq<Mode>, i: nat, x: Mode, w: Mode)
    requires i <= |s| && w != x
    requires (i < |s| && Below(x, s[i])) || (0 < i && Below(x, s[i - 1]))
    ensures SettledCopies(s[..i] + [x] + s[i..], w) == SettledCopies(s, w)
  {
    var a, b := s[..i], s[i..];
    assert s == a + b;
    assert s[..i] + [x] + s[i..] == (a + [x]) + b;
    SettledSplit(a + [x], b, w);
    SettledSplit(a, b, w);
    if AnyAbove(b, w) {
    } else if !Below(w, x) {
      SettledAppend(a, x, w);
    } else {
      assert i < |s| ==> !Below(w, b[0]);
      assert 0 < i && Below(w, s[i - 1]);
      assert a == a[..i - 1] + [s[i - 1]];
      assert (a + [x])[..|a|] == a;
    }
  }

  /** Removing the first copy of `x` keeps `k` settled copies when there were
      at least `k` settled copies and at least `k + 1` copies in all. */
  lemma RemoveFirstKeepsSettled(s: seq<Mode>, f: nat, x: Mode, k: nat)
    requires f < |s| && s[f] == x && x !in s[..f]
    requires SettledCopies(s, x) >= k && multiset(s)[x] >= k + 1
    ensures SettledCopies(s[..f] + s[f + 1..], x) >= k
  {
    var a, b := s[..f], s[f + 1..];
    assert s == (a + [x]) + b;
    SettledSplit(a + [x], b, x);
    SettledSplit(a, b, x);
    if !AnyAbove(b, x) {
      SettledAtMostCopies(a, x);
      assert multiset(a)[x] == 0;
      assert multiset(s) == multiset(a) + multiset{x} + multiset(b);
      SettledAppend(a, x, x);
    }
  }

  /** The inner loop for `x` has not fired yet: the list is still `start`,
      and nothing before `index` ranks above `x`. */
  ghost predicate Untouched(s: seq<Mode>, start: seq<Mode>, x: Mode, index: nat) {
    s == start && index <= |s| && !AnyAbove(s[..index], x)
  }

  /** The inner loop for `x` has fired: from `index` on the list equals
      `rest` (the starting list without its first `x`) shifted by one, and
      the part before `index` has one more settled copy of `x` than the
      matching part of `rest`. */
  ghost predicate Moved(s: seq<Mode>, rest: seq<Mode>, x: Mode, index: nat) {
    1 <= index <= |s| && |rest| + 1 == |s| && s[index..] == rest[index - 1..]
    && SettledCopies(s[..index], x) >= SettledCopies(rest[..index - 1], x) + 1
  }

  /** A step where the inner loop does not fire, before `x` has moved. */
  lemma UntouchedStep(s: seq<Mode>, start: seq<Mode>, x: Mode, index: nat)
    requires Untouched(s, start, x, index) && index < |s| && !Below(x, s[index])
    ensures Untouched(s, start, x, index + 1)
  {
    assert forall j :: 0 <= j < index ==> s[..index][j] == s[j];
  }

  /** A step where the inner loop does not fire, once `x` has moved. */
  lemma MovedStep(s: seq<Mode>, rest: seq<Mode>, x: Mode, index: nat)
    requires Moved(s, rest, x, index) && index < |s| && !Below(x, s[index])
    ensures Moved(s, rest, x, index + 1)
  {
    var y := s[index];
    assert rest[index - 1] == y;
    assert s[..index + 1] == s[..index] + [y];
    assert rest[..index] == rest[..index - 1] + [y];
    SettledAppend(s[..index], y, x);
    SettledAppend(rest[..index - 1], y, x);
  }

  /** After the inner loop for `x`: one more copy of `x` is settled than the
      `k` copies that were before. */
  lemma FinishRound(s: seq<Mode>, start: seq<Mode>, rest: seq<Mode>, x: Mode, k: nat)
    requires Untouched(s, start, x, |s|) || Moved(s, rest, x, |s|)
    requires SettledCopies(rest, x) >= k && multiset(start)[x] >= k + 1
    ensures SettledCopies(s, x) >= k + 1
  {
    assert s[..|s|] == s;
    if Untouched(s, start, x, |s|) {
      SettledWhenNothingAbove(start, x);
    } else {
      assert rest[..|s| - 1] == rest;
    }
  }

  /** One firing of the inner loop moves `x` to `index`; every other mode
      keeps its settled copies. */
  lemma MoveKeepsOthers(s: seq<Mode>, f: nat, index: nat, x: Mode, w: Mode)
    requires f < |s| && s[f] == x && index < |s| && Below(x, s[index]) && w != x
    ensures var b := s[..f] + s[f + 1..];
      index <= |b| && SettledCopies(b[..index] + [x] + b[index..], w) >= SettledCopies(s, w)
  {
    var b := s[..f] + s[f + 1..];
    RemoveKeepsSettled(s, f, w);
    if f < index {
      assert b[index - 1] == s[index];
    } else {
      assert f != index;
      assert b[index] == s[index];
    }
    InsertNextToHigherKeepsSettled(b, index, x, w);
  }

  /** Removing one element and inserting an equal one keeps the modes. */
  lemma MoveKeepsMultiset(s: seq<Mode>, f: nat, index: nat, x: Mode)
    requires f < |s| && s[f] == x && index < |s|
    ensures var b := s[..f] + s[f + 1..];
      index <= |b| && multiset(b[..index] + [x] + b[index..]) == multiset(s)
  {
    var b := s[..f] + s[f + 1..];
    assert s == s[..f] + [x] + s[f + 1..];
    assert multiset(s) == multiset(b) + multiset{x};
    assert b == b[..index] + b[index..];
    assert multiset(b[..index] + [x] + b[index..]) == multiset(b[..index]) + multiset{x} + multiset(b[index..]);
  }

  /** The first firing of the inner loop: the list is still the snapshot the
      loop started from, so removing the first `x` gives `rest`. */
  lemma FirstMove(s: seq<Mode>, f: nat, index: nat, x: Mode, rest: seq<Mode>)
    requires f < |s| && s[f] == x && index < |s| && Below(x, s[index])
    requires rest == s[..f] + s[f + 1..]
    ensures index <= |rest|
    ensures var c := rest[..index] + [x] + rest[index..];
      |c| == |s| && c[index + 1..] == rest[index..]
      && SettledCopies(c[..index + 1], x) >= SettledCopies(rest[..index], x) + 1
  {
    var c := rest[..index] + [x] + rest[index..];
    assert c[..index + 1] == rest[..index] + [x];
    assert c[index + 1..] == rest[index..];
    SettledAppend(rest[..index], x, x);
  }

  /** A later firing: the first `x` lies before `index`, the tail from
      `index` on still equals `rest`'s tail from `index - 1`. */
  lemma LaterMove(s: seq<Mode>, f: nat, index: nat, x: Mode, rest: seq<Mode>)
    requires 1 <= index < |s| && |rest| == |s| - 1
    requires s[index..] == rest[index - 1..]
    requires f < index && s[f] == x && Below(x, s[index])
    ensures var b := s[..f] + s[f + 1..];
      index <= |b| &&
      var c := b[..index] + [x] + b[index..];
      |c| == |s| && c[index + 1..] == rest[index..]
      && SettledCopies(c[..index + 1], x) >= SettledCopies(rest[..index], x) + 1
  {
    var b := s[..f] + s[f + 1..];
    var c := b[..index] + [x] + b[index..];
    var g := s[index];
    assert rest[index - 1] == g;
    assert c[..index + 1] == (b[..index - 1] + [g]) + [x];
    assert c[index + 1..] == rest[index..];
    assert rest[..index] == rest[..index - 1] + [g];
    assert (b[..index - 1] + [g] + [x])[..index] == b[..index - 1] + [g];
    assert (b[..index - 1] + [g])[..index - 1] == b[..index - 1];
  }

  /** Everything one firing of the inner loop preserves: the modes, the
      settled copies of other modes, and the progress made on `x`. */
  lemma FireStep(before: seq<Mode>, f: nat, index: nat, x: Mode, start: seq<Mode>, f0: nat,
                 rest: seq<Mode>, done: multiset<Mode>, moved: bool, after: seq<Mode>)
    requires index < |before| && Below(x, before[index])
    requires f < |before| && before[f] == x && x !in before[..f]
    requires f0 < |start| && start[f0] == x && x !in start[..f0] && rest == start[..f0] + start[f0 + 1..]
    requires if moved then Moved(before, rest, x, index) else Untouched(before, start, x, index)
    requires SettledAtLeast(done, before, Some(x))
    requires var b := before[..f] + before[f + 1..]; index <= |b| && after == b[..index] + [x] + b[index..]
    ensures |after| == |before| && multiset(after) == multiset(before) && x in after
    ensures SettledAtLeast(done, after, Some(x))
    ensures Moved(after, rest, x, index + 1)
  {
    MoveKeepsMultiset(before, f, index, x);
    assert after[index] == x;
    forall v | v != x
      ensures done[v] <= SettledCopies(after, v)
    {
      MoveKeepsOthers(before, f, index, x, v);
    }
    if !moved {
      assert f == f0;
      assert before == start;
      FirstMove(start, f, index, x, rest);
    } else {
      assert x in before[..index] by {
        SettledAtMostCopies(before[..index], x);
      }
      assert f < index;
      LaterMove(before, f, index, x, rest);
    }
  }

  /** Taking the mode at position `t` of the snapshot: it has a copy in the
      list that is not yet accounted for. */
  lemma BeginRound(snapshot: seq<Mode>, t: nat, s: seq<Mode>)
    requires t < |snapshot| && multiset(s) == multiset(snapshot)
    ensures multiset(snapshot[..t + 1]) == multiset(snapshot[..t]) + multiset{snapshot[t]}
    ensures snapshot[t] in s && multiset(s)[snapshot[t]] >= multiset(snapshot[..t])[snapshot[t]] + 1
  {
    assert snapshot[..t + 1] == snapshot[..t] + [snapshot[t]];
    assert snapshot == snapshot[..t + 1] + snapshot[t + 1..];
    assert multiset(snapshot[..t + 1]) <= multiset(snapshot);
    assert snapshot[t] in multiset(s);
  }

  /** One pass of the inner loop for `display`: scanning left to right,
      whenever `display` is below the mode at `index` it is taken out and put
      back at `index`. The pass leaves one more copy of `display` settled
      and does not unsettle anything settled before. */
  method MoveUp(modes: seq<Mode>, display: Mode, ghost done: multiset<Mode>) returns (dispModes: seq<Mode>)
    requires multiset(modes)[display] >= done[display] + 1
    requires SettledAtLeast(done, modes, None)
    ensures |dispModes| == |modes| && multiset(dispModes) == multiset(modes)
    ensures SettledAtLeast(done + multiset{display}, dispModes, None)
  {
    dispModes := modes;
    ghost var f0 := FirstIndex(modes, display).value;
    ghost var rest := modes[..f0] + modes[f0 + 1..];
    SetAside(done, modes, display);
    RemoveFirstKeepsSettled(modes, f0, display, done[display]);
    ghost var moved := false;
    for index := 0 to |dispModes|
      invariant |dispModes| == |modes|
      invariant multiset(dispModes) == multiset(modes) && display in dispModes
      invariant SettledAtLeast(done, dispModes, Some(display))
      invariant if moved then Moved(dispModes, rest, display, index) else Untouched(dispModes, modes, display, index)
    {
      if Below(display, dispModes[index]) {
        ghost var before := dispModes;
        var f := FirstIndex(dispModes, display).value;
        dispModes := dispModes[..f] + dispModes[f + 1..];
        dispModes := dispModes[..index] + [display] + dispModes[index..];
        FireStep(before, f, index, display, modes, f0, rest, done, moved, dispModes);
        moved := true;
      } else if moved {
        MovedStep(dispModes, rest, display, index);
      } else {
        UntouchedStep(dispModes, modes, display, index);
      }
    }
    FinishRound(dispModes, modes, rest, display, done[display]);
    TakeIn(done, dispModes, display);
  }

  /** getAllDisplayModes, without the query of the operating system: `osModes`
      is the list CoreGraphics returns. The loop walks a copy of the list (a
      Swift array is a value) and, for every index whose mode ranks above the
      current one, removes the current mode's first occurrence and inserts it
      at that index. The result holds the same modes and runs from highest to
      lowest. */
  method GetAllDisplayModes(osModes: seq<Mode>) returns (dispModes: seq<Mode>)
    ensures multiset(dispModes) == multiset(osModes)
    ensures SortedDescending(dispModes)
  {
    dispModes := osModes;
    var snapshot := dispModes;
    for t := 0 to |snapshot|
      invariant |dispModes| == |snapshot|
      invariant multiset(dispModes) == multiset(snapshot)
      invariant SettledAtLeast(multiset(snapshot[..t]), dispModes, None)
    {
      var display := snapshot[t];
      BeginRound(snapshot, t, dispModes);
      dispModes := MoveUp(dispModes, display, multiset(snapshot[..t]));
    }
    assert snapshot[..|snapshot|] == snapshot;
    AllSettledIsSorted(dispModes);
  }
}
