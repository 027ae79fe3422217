/** The coordinate arithmetic of `Painter.__draw_keys`: keys are grouped by
    raw y, each group is stably sorted by raw x, and keys are pushed right so
    that boxes do not overlap; the running extents `xmax` / `ymax` are kept. */
module Normalize {
  import opened Wrappers
  import opened Assoc
  import opened Text
  import opened LayoutTree
  import opened Keymap

  /** The default key size (lines 367-368), the gap between boxes (line 550),
      and the extra width of the first and last key of a group (lines 589-592). */
  const KeyWidth: real := 1.0
  const KeyHeight: real := 1.0
  const Padding: real := 0.3
  const FirstBonus: real := 1.5
  const LastBonus: real := 1.2

  /** One key waiting in a y-group: its name and raw x. */
  datatype Slot = Slot(name: string, x: real)

  type Groups = Assoc<real, seq<Slot>>

  /** The keymap's entries, row after row, each row in its own order. */
  function Entries(keymap: Assoc<string, RowMap>): seq<(string, Point)> {
    if |keymap| == 0 then [] else keymap[0].1 + Entries(keymap[1..])
  }

  /** Every entry comes from some row of the keymap. */
  lemma {:induction false} EntryInRow(keymap: Assoc<string, RowMap>, k: int) returns (r: int)
    requires 0 <= k < |Entries(keymap)|
    ensures 0 <= r < |keymap| && Entries(keymap)[k] in keymap[r].1
    decreases |keymap|
  {
    if k < |keymap[0].1| {
      r := 0;
      assert Entries(keymap)[k] == keymap[0].1[k];
    } else {
      r := EntryInRow(keymap[1..], k - |keymap[0].1|);
      assert Entries(keymap)[k] == Entries(keymap[1..])[k - |keymap[0].1|];
      assert keymap[1..][r] == keymap[r + 1];
      r := r + 1;
    }
  }

  /** Every pair of every row of the keymap is an entry. */
  lemma {:induction false} RowInEntries(keymap: Assoc<string, RowMap>, r: int, j: int) returns (k: int)
    requires 0 <= r < |keymap| && 0 <= j < |keymap[r].1|
    ensures 0 <= k < |Entries(keymap)| && Entries(keymap)[k] == keymap[r].1[j]
    decreases r
  {
    if r == 0 {
      k := j;
    } else {
      assert keymap[1..][r - 1] == keymap[r];
      k := RowInEntries(keymap[1..], r - 1, j);
      k := k + |keymap[0].1|;
    }
  }

  /** The entries at height `y`, in order, as slots. */
  function AtHeight(entries: seq<(string, Point)>, y: real): seq<Slot> {
    if |entries| == 0 then []
    else (if entries[0].1.y == y then [Slot(entries[0].0, entries[0].1.x)] else []) + AtHeight(entries[1..], y)
  }

  /** `ordered_keymap[y].append((char, x))`, creating the group when `y` is new. */
  function AddToGroup(groups: Groups, e: (string, Point)): (r: Groups)
    ensures Get(r, e.1.y) == Some(Get(groups, e.1.y).GetOr([]) + [Slot(e.0, e.1.x)])
    ensures forall y :: y != e.1.y ==> Get(r, y) == Get(groups, y)
  {
    Put(groups, e.1.y, Get(groups, e.1.y).GetOr([]) + [Slot(e.0, e.1.x)])
  }

  /** Lines 552-558: the entries appended to their y-groups one by one. */
  function GroupByY(entries: seq<(string, Point)>, groups: Groups): (r: Groups)
    ensures DistinctKeys(groups) ==> DistinctKeys(r)
    decreases |entries|
  {
    if |entries| == 0 then groups
    else GroupByY(entries[1..], AddToGroup(groups, entries[0]))
  }

  /** A group holds exactly the entries at its height, in keymap order, after
      what it held before; a height with no entries gets no group. */
  lemma {:induction false} GroupByYSpec(entries: seq<(string, Point)>, groups: Groups, y: real)
    ensures Get(GroupByY(entries, groups), y) ==
              if Get(groups, y).None? && AtHeight(entries, y) == [] then None
              else Some(Get(groups, y).GetOr([]) + AtHeight(entries, y))
    decreases |entries|
  {
    if |entries| > 0 {
      var e := entries[0];
      var g := AddToGroup(groups, e);
      assert GroupByY(entries, groups) == GroupByY(entries[1..], g);
      GroupByYSpec(entries[1..], g, y);
      if e.1.y == y {
        var before := Get(groups, y).GetOr([]);
        var slot := Slot(e.0, e.1.x);
        var rest := AtHeight(entries[1..], y);
        assert Get(g, y) == Some(before + [slot]);
        assert AtHeight(entries, y) == [slot] + rest;
        AppendAssocs(before, [slot], rest);
      } else {
        assert AtHeight(entries, y) == [] + AtHeight(entries[1..], y) == AtHeight(entries[1..], y);
        assert Get(g, y) == Get(groups, y);
      }
    } else {
      assert AtHeight(entries, y) == [];
      if Get(groups, y).Some? {
        assert Get(groups, y).GetOr([]) + [] == Get(groups, y).value;
      }
    }
  }

  lemma SnocSplit<T>(done: seq<T>, rest: seq<T>)
    requires |rest| > 0
    ensures done + [rest[0]] + rest[1..] == done + rest
  {
    assert rest == [rest[0]] + rest[1..];
    AppendAssocs(done, [rest[0]], rest[1..]);
  }

  /** Every group of the grouped keymap holds at least one key. */
  lemma GroupsNonEmpty(entries: seq<(string, Point)>)
    ensures var g := GroupByY(entries, []);
      DistinctKeys(g) && forall i :: 0 <= i < |g| ==> |g[i].1| > 0
  {
    var g := GroupByY(entries, []);
    forall i | 0 <= i < |g| ensures |g[i].1| > 0 {
      GetSlot(g, i);
      GroupByYSpec(entries, [], g[i].0);
    }
  }

  predicate SortedByX(s: seq<Slot>) {
    forall i, j :: 0 <= i < j < |s| ==> s[i].x <= s[j].x
  }

  /** The slots with raw x equal to `x`, in order. */
  function WithX(s: seq<Slot>, x: real): seq<Slot> {
    if |s| == 0 then [] else (if s[0].x == x then [s[0]] else []) + WithX(s[1..], x)
  }

  /** Inserts `e` after every slot whose x is not greater than its own. */
  function Insert(s: seq<Slot>, e: Slot): (r: seq<Slot>)
    requires SortedByX(s)
    ensures |r| == |s| + 1
    ensures SortedByX(r)
    ensures multiset(r) == multiset(s) + multiset{e}
    ensures forall x :: WithX(r, x) == WithX(s, x) + (if e.x == x then [e] else [])
    decreases |s|
  {
    if |s| == 0 then [e]
    else if s[0].x <= e.x then
      var rest := Insert(s[1..], e);
      InsertHead(s, e, rest);
      [s[0]] + rest
    else
      InsertFront(s, e);
      [e] + s
  }

  lemma InsertHead(s: seq<Slot>, e: Slot, rest: seq<Slot>)
    requires SortedByX(s) && |s| > 0 && s[0].x <= e.x
    requires SortedByX(rest)
    requires multiset(rest) == multiset(s[1..]) + multiset{e}
    requires forall x :: WithX(rest, x) == WithX(s[1..], x) + (if e.x == x then [e] else [])
    ensures SortedByX([s[0]] + rest)
    ensures multiset([s[0]] + rest) == multiset(s) + multiset{e}
    ensures forall x :: WithX([s[0]] + rest, x) == WithX(s, x) + (if e.x == x then [e] else [])
  {
    InsertHeadSorted(s, e, rest);
    assert multiset([s[0]] + rest) == multiset(s) + multiset{e} by {
      assert s == [s[0]] + s[1..];
    }
    forall x ensures WithX([s[0]] + rest, x) == WithX(s, x) + (if e.x == x then [e] else []) {
      InsertHeadWithX(s, e, rest, x);
    }
  }

  lemma InsertHeadWithX(s: seq<Slot>, e: Slot, rest: seq<Slot>, x: real)
    requires |s| > 0
    requires WithX(rest, x) == WithX(s[1..], x) + (if e.x == x then [e] else [])
    ensures WithX([s[0]] + rest, x) == WithX(s, x) + (if e.x == x then [e] else [])
  {
    var head := if s[0].x == x then [s[0]] else [];
    var tail := if e.x == x then [e] else [];
    assert WithX([s[0]] + rest, x) == head + WithX(rest, x) by {
      assert ([s[0]] + rest)[1..] == rest;
    }
    assert WithX(s, x) == head + WithX(s[1..], x);
    AppendAssocs(head, WithX(s[1..], x), tail);
  }

  lemma InsertHeadSorted(s: seq<Slot>, e: Slot, rest: seq<Slot>)
    requires SortedByX(s) && |s| > 0 && s[0].x <= e.x
    requires SortedByX(rest)
    requires multiset(rest) == multiset(s[1..]) + multiset{e}
    ensures SortedByX([s[0]] + rest)
  {
    forall j | 0 <= j < |rest| ensures s[0].x <= rest[j].x {
      assert rest[j] in multiset(rest);
      if rest[j] != e {
        assert rest[j] in multiset(s[1..]);
        var k :| 0 <= k < |s[1..]| && s[1..][k] == rest[j];
        assert s[k + 1] == rest[j];
      }
    }
    var t := [s[0]] + rest;
    forall i, j | 0 <= i < j < |t| ensures t[i].x <= t[j].x {
      if i > 0 {
        assert t[i] == rest[i - 1] && t[j] == rest[j - 1];
      } else {
        assert t[j] == rest[j - 1];
      }
    }
  }

  lemma WithXAbove(s: seq<Slot>, x: real)
    requires forall j :: 0 <= j < |s| ==> s[j].x > x
    ensures WithX(s, x) == []
  {
    if |s| > 0 {
      WithXAbove(s[1..], x);
    }
  }

  lemma InsertFront(s: seq<Slot>, e: Slot)
    requires SortedByX(s) && |s| > 0 && s[0].x > e.x
    ensures SortedByX([e] + s)
    ensures forall x :: WithX([e] + s, x) == WithX(s, x) + (if e.x == x then [e] else [])
  {
    WithXAbove(s, e.x);
    forall x ensures WithX([e] + s, x) == WithX(s, x) + (if e.x == x then [e] else []) {
      assert ([e] + s)[1..] == s;
    }
  }

  /** `lst.sort(key=x)`: Python's sort is stable, so this inserts the slots one
      by one, each after the equal ones already placed. */
  function SortByX(s: seq<Slot>): (r: seq<Slot>)
    ensures |r| == |s|
    ensures SortedByX(r)
    ensures multiset(r) == multiset(s)
    ensures forall x :: WithX(r, x) == WithX(s, x)
    decreases |s|
  {
    if |s| == 0 then []
    else
      var init := s[..|s| - 1];
      WithXSnoc(init, s[|s| - 1]);
      assert s == init + [s[|s| - 1]];
      Insert(SortByX(init), s[|s| - 1])
  }

  lemma {:induction false} WithXSnoc(s: seq<Slot>, e: Slot)
    ensures forall x :: WithX(s + [e], x) == WithX(s, x) + (if e.x == x then [e] else [])
    decreases |s|
  {
    if |s| > 0 {
      WithXSnoc(s[1..], e);
      assert (s + [e])[1..] == s[1..] + [e];
    }
  }

  /** A key after adjustment: its name, raw x, adjusted x and drawn width. */
  datatype Placed = Placed(name: string, rawX: real, x: real, width: real)

  /** What the drawing loop carries from key to key and from group to group:
      the width of the key drawn last (which the next key's gap uses, also
      across groups) and the running extents. */
  datatype Pen = Pen(width: real, xmax: real, ymax: real)

  /** The width of key `i` of a group of `n` keys. */
  function Width(i: nat, n: nat): real {
    KeyWidth + (if i == 0 then FirstBonus else 0.0) + (if i == n - 1 then LastBonus else 0.0)
  }

  function Max(a: real, b: real): (m: real)
    ensures m >= a && m >= b && (m == a || m == b)
  {
    if a >= b then a else b
  }

  /** Lines 573-600 for one key: it is pushed to the right of its
      predecessor's box, widened if it is the first or last key, and the
      extents are raised (`ymax` to `y + ysize + padding` under a
      `y + ysize` test). */
  function PlaceOne(slot: Slot, count: nat, n: nat, prevX: real, y: real, pen: Pen): (Placed, Pen) {
    var x := Max(slot.x, prevX + pen.width + Padding);
    var w := Width(count, n);
    (Placed(slot.name, slot.x, x, w),
     Pen(w, if x + w + Padding > pen.xmax then x + w + Padding else pen.xmax,
            if y + KeyHeight > pen.ymax then y + KeyHeight + Padding else pen.ymax))
  }

  /** The keys of one group from position `count` on, one after the other. */
  function PlaceKeys(slots: seq<Slot>, count: nat, n: nat, prevX: real, y: real, pen: Pen): (r: (seq<Placed>, Pen))
    decreases |slots|
  {
    if |slots| == 0 then ([], pen)
    else
      var step := PlaceOne(slots[0], count, n, prevX, y, pen);
      var rest := PlaceKeys(slots[1..], count + 1, n, step.0.x, y, step.1);
      ([step.0] + rest.0, rest.1)
  }

  /** A placed key keeps its slot's name and raw x, clears the previous box
      by the padding, takes the width of its position, and the extents grow
      to cover it. */
  lemma PlaceOneSpec(slot: Slot, count: nat, n: nat, prevX: real, y: real, pen: Pen)
    ensures var r := PlaceOne(slot, count, n, prevX, y, pen);
      && r.0.name == slot.name && r.0.rawX == slot.x
      && r.0.x == Max(slot.x, prevX + pen.width + Padding)
      && r.0.width == Width(count, n) && r.1.width == r.0.width
      && r.0.x + r.0.width + Padding <= r.1.xmax
      && y + KeyHeight <= r.1.ymax
      && pen.xmax <= r.1.xmax && pen.ymax <= r.1.ymax
  {
  }

  /** The placed keys keep the slots' names and raw x, in order, and their
      widths follow the first/last rule. */
  lemma {:induction false} PlaceKeysShape(slots: seq<Slot>, count: nat, n: nat, prevX: real, y: real, pen: Pen)
    ensures var r := PlaceKeys(slots, count, n, prevX, y, pen);
      && |r.0| == |slots|
      && (forall i :: 0 <= i < |slots| ==> r.0[i].name == slots[i].name && r.0[i].rawX == slots[i].x)
      && (forall i :: 0 <= i < |slots| ==> r.0[i].width == Width(count + i, n))
    decreases |slots|
  {
    if |slots| > 0 {
      var step := PlaceOne(slots[0], count, n, prevX, y, pen);
      var rest := PlaceKeys(slots[1..], count + 1, n, step.0.x, y, step.1);
      var r := PlaceKeys(slots, count, n, prevX, y, pen);
      assert r.0 == [step.0] + rest.0;
      PlaceOneSpec(slots[0], count, n, prevX, y, pen);
      PlaceKeysShape(slots[1..], count + 1, n, step.0.x, y, step.1);
      forall i | 0 < i < |slots| ensures r.0[i] == rest.0[i - 1] && slots[i] == slots[1..][i - 1] {
      }
    }
  }

  /** The first key is pushed to clear the previous box, and takes the width
      of its position. */
  lemma PlaceKeysFirst(slots: seq<Slot>, count: nat, n: nat, prevX: real, y: real, pen: Pen)
    requires |slots| > 0
    ensures var r := PlaceKeys(slots, count, n, prevX, y, pen);
      && |r.0| > 0
      && r.0[0].x == Max(slots[0].x, prevX + pen.width + Padding)
      && r.0[0].width == Width(count, n)
  {
    PlaceOneSpec(slots[0], count, n, prevX, y, pen);
  }

  /** No key moves left of its raw x. */
  lemma {:induction false} PlaceKeysRight(slots: seq<Slot>, count: nat, n: nat, prevX: real, y: real, pen: Pen)
    ensures var r := PlaceKeys(slots, count, n, prevX, y, pen);
      |r.0| == |slots| && forall i :: 0 <= i < |slots| ==> r.0[i].x >= slots[i].x
    decreases |slots|
  {
    if |slots| > 0 {
      var step := PlaceOne(slots[0], count, n, prevX, y, pen);
      var rest := PlaceKeys(slots[1..], count + 1, n, step.0.x, y, step.1);
      var r := PlaceKeys(slots, count, n, prevX, y, pen);
      assert r.0 == [step.0] + rest.0;
      PlaceOneSpec(slots[0], count, n, prevX, y, pen);
      PlaceKeysRight(slots[1..], count + 1, n, step.0.x, y, step.1);
      forall i | 0 < i < |slots| ensures r.0[i] == rest.0[i - 1] && slots[i] == slots[1..][i - 1] {
      }
    }
  }

  /** Each key clears its predecessor's box by the padding. */
  lemma {:induction false} PlaceKeysGap(slots: seq<Slot>, count: nat, n: nat, prevX: real, y: real, pen: Pen)
    ensures var r := PlaceKeys(slots, count, n, prevX, y, pen);
      |r.0| == |slots| && forall i :: 0 <= i < |slots| - 1 ==> r.0[i + 1].x >= r.0[i].x + r.0[i].width + Padding
    decreases |slots|
  {
    if |slots| > 0 {
      var step := PlaceOne(slots[0], count, n, prevX, y, pen);
      var rest := PlaceKeys(slots[1..], count + 1, n, step.0.x, y, step.1);
      var r := PlaceKeys(slots, count, n, prevX, y, pen);
      assert r.0 == [step.0] + rest.0;
      PlaceOneSpec(slots[0], count, n, prevX, y, pen);
      PlaceKeysGap(slots[1..], count + 1, n, step.0.x, y, step.1);
      if |slots| > 1 {
        PlaceKeysFirst(slots[1..], count + 1, n, step.0.x, y, step.1);
        assert r.0[1].x >= r.0[0].x + r.0[0].width + Padding by {
          assert r.0[1] == rest.0[0];
        }
      }
      forall i | 0 < i < |slots| - 1 ensures r.0[i + 1].x >= r.0[i].x + r.0[i].width + Padding {
        assert r.0[i] == rest.0[i - 1] && r.0[i + 1] == rest.0[i];
      }
    }
  }

  /** The placed keys keep the slots' names and raw x, in order; no key moves
      left; each key clears its predecessor's box by the padding; widths follow
      the first/last rule. */
  lemma PlaceKeysSpec(slots: seq<Slot>, count: nat, n: nat, prevX: real, y: real, pen: Pen)
    ensures var r := PlaceKeys(slots, count, n, prevX, y, pen);
      && |r.0| == |slots|
      && (forall i :: 0 <= i < |slots| ==> r.0[i].name == slots[i].name && r.0[i].rawX == slots[i].x)
      && (forall i :: 0 <= i < |slots| ==> r.0[i].x >= slots[i].x)
      && (|slots| > 0 ==> r.0[0].x == Max(slots[0].x, prevX + pen.width + Padding))
      && (forall i :: 0 <= i < |slots| - 1 ==> r.0[i + 1].x >= r.0[i].x + r.0[i].width + Padding)
      && (forall i :: 0 <= i < |slots| ==> r.0[i].width == Width(count + i, n))
  {
    PlaceKeysShape(slots, count, n, prevX, y, pen);
    PlaceKeysRight(slots, count, n, prevX, y, pen);
    PlaceKeysGap(slots, count, n, prevX, y, pen);
    if |slots| > 0 {
      PlaceKeysFirst(slots, count, n, prevX, y, pen);
    }
  }

  /** The extents cover every box placed and never shrink, and the pen leaves
      with the width of the last key placed. */
  lemma {:induction false} PlaceKeysExtent(slots: seq<Slot>, count: nat, n: nat, prevX: real, y: real, pen: Pen)
    ensures var r := PlaceKeys(slots, count, n, prevX, y, pen);
      && |r.0| == |slots|
      && (forall i :: 0 <= i < |slots| ==> r.0[i].x + r.0[i].width + Padding <= r.1.xmax)
      && (|slots| > 0 ==> y + KeyHeight <= r.1.ymax)
      && pen.xmax <= r.1.xmax && pen.ymax <= r.1.ymax
      && r.1.width == if |slots| == 0 then pen.width else r.0[|slots| - 1].width
    decreases |slots|
  {
    if |slots| > 0 {
      var step := PlaceOne(slots[0], count, n, prevX, y, pen);
      var rest := PlaceKeys(slots[1..], count + 1, n, step.0.x, y, step.1);
      var r := PlaceKeys(slots, count, n, prevX, y, pen);
      assert r.0 == [step.0] + rest.0;
      PlaceOneSpec(slots[0], count, n, prevX, y, pen);
      PlaceKeysExtent(slots[1..], count + 1, n, step.0.x, y, step.1);
      forall i | 0 < i < |slots| ensures r.0[i] == rest.0[i - 1] {
      }
    }
  }

  /** The slots a placed group came from. */
  function SlotsOf(ks: seq<Placed>): (r: seq<Slot>)
    ensures |r| == |ks|
    ensures forall j :: 0 <= j < |ks| ==> r[j] == Slot(ks[j].name, ks[j].rawX)
  {
    seq(|ks|, j requires 0 <= j < |ks| => Slot(ks[j].name, ks[j].rawX))
  }

  /** A placed group respects the layout rules: no key left of its raw x, the
      first/last widths, and a padding gap after every box. */
  predicate LaidOut(ks: seq<Placed>) {
    && (forall j :: 0 <= j < |ks| ==> ks[j].x >= ks[j].rawX)
    && (forall j :: 0 <= j < |ks| ==> ks[j].width == Width(j, |ks|))
    && (forall j :: 0 <= j < |ks| - 1 ==> ks[j + 1].x >= ks[j].x + ks[j].width + Padding)
  }

  /** Lines 562-573: one y-group is sorted and placed, starting from its own
      first raw x. */
  function PlaceGroup(y: real, group: seq<Slot>, pen: Pen): (seq<Placed>, Pen)
    requires |group| > 0
  {
    var sorted := SortByX(group);
    PlaceKeys(sorted, 0, |sorted|, sorted[0].x, y, pen)
  }

  /** A group comes out in ascending raw x and laid out by the rules; its
      first key is pushed right by the width the pen carries in plus the
      padding. */
  lemma PlaceGroupSpec(y: real, group: seq<Slot>, pen: Pen)
    requires |group| > 0
    ensures var r := PlaceGroup(y, group, pen);
      && SlotsOf(r.0) == SortByX(group)
      && LaidOut(r.0)
      && |r.0| > 0
      && (pen.width + Padding >= 0.0 ==> r.0[0].x == r.0[0].rawX + pen.width + Padding)
  {
    var sorted := SortByX(group);
    PlaceKeysSpec(sorted, 0, |sorted|, sorted[0].x, y, pen);
    var r := PlaceGroup(y, group, pen);
    assert SlotsOf(r.0) == sorted;
  }

  /** The extents cover every box of a placed group and never shrink, and the
      pen leaves with the group's last width. */
  lemma PlaceGroupExtent(y: real, group: seq<Slot>, pen: Pen)
    requires |group| > 0
    ensures var r := PlaceGroup(y, group, pen);
      && |r.0| > 0
      && r.1.width == r.0[|r.0| - 1].width
      && (forall j :: 0 <= j < |r.0| ==> r.0[j].x + r.0[j].width + Padding <= r.1.xmax)
      && y + KeyHeight <= r.1.ymax
      && pen.xmax <= r.1.xmax && pen.ymax <= r.1.ymax
  {
    var sorted := SortByX(group);
    PlaceKeysExtent(sorted, 0, |sorted|, sorted[0].x, y, pen);
  }

  /** The keyboard as drawn: the placed groups in drawing order (the source's
      `xdata` / `ydata`, with names), `visual_keymap`, and the pen. */
  datatype Drawing = Drawing(rows: seq<(real, seq<Placed>)>, visual: Assoc<real, Assoc<string, Point>>, pen: Pen)

  /** `visual_keymap[y][char] = (x, y)` for the keys of one placed group. */
  function VisualRow(ks: seq<Placed>, y: real, row: Assoc<string, Point>): Assoc<string, Point>
    decreases |ks|
  {
    if |ks| == 0 then row else VisualRow(ks[1..], y, Put(row, ks[0].name, Point(ks[0].x, y)))
  }

  /** The groups, one after the other, carrying the pen across. */
  function PlaceGroups(groups: Groups, d: Drawing): Drawing
    requires NonEmptyGroups(groups)
    decreases |groups|
  {
    if |groups| == 0 then d
    else
      NonEmptyTail(groups);
      PlaceGroups(groups[1..], DrawGroup(groups[0].0, groups[0].1, d))
  }

  /** One group drawn: placed, appended to the drawn rows, and entered into
      `visual_keymap` under its y. */
  function DrawGroup(y: real, group: seq<Slot>, d: Drawing): Drawing
    requires |group| > 0
  {
    var placed := PlaceGroup(y, group, d.pen);
    Drawing(d.rows + [(y, placed.0)], Put(d.visual, y, VisualRow(placed.0, y, [])), placed.1)
  }

  /** Every group holds at least one key. */
  predicate NonEmptyGroups(groups: Groups) {
    forall i :: 0 <= i < |groups| ==> |groups[i].1| > 0
  }

  lemma NonEmptyTail(groups: Groups)
    requires NonEmptyGroups(groups) && |groups| > 0
    ensures |groups[0].1| > 0 && NonEmptyGroups(groups[1..])
  {
    assert forall i :: 0 <= i < |groups| - 1 ==> groups[1..][i] == groups[i + 1];
  }

  /** The drawn rows correspond one to one, in order, to `groups`: same y,
      the group's keys in ascending raw x, laid out by the rules. */
  predicate Matches(rows: seq<(real, seq<Placed>)>, groups: Groups) {
    && |rows| == |groups|
    && forall i :: 0 <= i < |rows| ==>
         && rows[i].0 == groups[i].0
         && |rows[i].1| > 0
         && SlotsOf(rows[i].1) == SortByX(groups[i].1)
         && LaidOut(rows[i].1)
  }

  lemma MatchesSnoc(rows: seq<(real, seq<Placed>)>, groups: Groups, y: real, group: seq<Slot>, pen: Pen)
    requires Matches(rows, groups)
    requires |group| > 0
    ensures Matches(rows + [(y, PlaceGroup(y, group, pen).0)], groups + [(y, group)])
  {
    PlaceGroupSpec(y, group, pen);
    var rows' := rows + [(y, PlaceGroup(y, group, pen).0)];
    var groups' := groups + [(y, group)];
    forall i | 0 <= i < |rows'|
      ensures rows'[i].0 == groups'[i].0 && |rows'[i].1| > 0
      ensures SlotsOf(rows'[i].1) == SortByX(groups'[i].1) && LaidOut(rows'[i].1)
    {
      if i < |rows| {
        assert rows'[i] == rows[i] && groups'[i] == groups[i];
      }
    }
  }

  /** One step of the drawing loop, unfolded. */
  lemma PlaceGroupsStep(groups: Groups, d: Drawing)
    requires NonEmptyGroups(groups) && |groups| > 0
    ensures NonEmptyGroups(groups[1..])
    ensures PlaceGroups(groups, d) == PlaceGroups(groups[1..], DrawGroup(groups[0].0, groups[0].1, d))
  {
    NonEmptyTail(groups);
  }

  /** Each group becomes one drawn row at its y, in group order, holding the
      group's keys in ascending raw x, laid out by the rules. */
  lemma {:induction false} PlaceGroupsRows(done: Groups, groups: Groups, d: Drawing)
    requires NonEmptyGroups(groups)
    requires Matches(d.rows, done)
    ensures Matches(PlaceGroups(groups, d).rows, done + groups)
    decreases |groups|
  {
    if |groups| == 0 {
      assert done + groups == done;
    } else {
      PlaceGroupsStep(groups, d);
      MatchesSnoc(d.rows, done, groups[0].0, groups[0].1, d.pen);
      PlaceGroupsRows(done + [groups[0]], groups[1..], DrawGroup(groups[0].0, groups[0].1, d));
      SnocSplit(done, groups);
    }
  }

  /** The last width of a drawn row. */
  function LastWidth(ks: seq<Placed>): real {
    if |ks| == 0 then 0.0 else ks[|ks| - 1].width
  }

  /** The first key of every drawn row is pushed right by the width of the
      key drawn just before it (the previous row's last key, or `start` for
      the first row) plus the padding, and the pen carries the last width. */
  predicate FirstKeysPushed(rows: seq<(real, seq<Placed>)>, start: real, pen: Pen) {
    && (forall i :: 0 <= i < |rows| ==>
          |rows[i].1| > 0 &&
          rows[i].1[0].x == rows[i].1[0].rawX + (if i == 0 then start else LastWidth(rows[i - 1].1)) + Padding)
    && pen.width == (if |rows| == 0 then start else LastWidth(rows[|rows| - 1].1))
    && pen.width >= KeyWidth
  }

  lemma FirstKeysSnoc(rows: seq<(real, seq<Placed>)>, start: real, pen: Pen, y: real, group: seq<Slot>)
    requires FirstKeysPushed(rows, start, pen)
    requires |group| > 0
    ensures var placed := PlaceGroup(y, group, pen);
      FirstKeysPushed(rows + [(y, placed.0)], start, placed.1)
  {
    var placed := PlaceGroup(y, group, pen);
    var ks := placed.0;
    assert |ks| > 0 && ks[0].x == ks[0].rawX + pen.width + Padding by {
      PlaceGroupSpec(y, group, pen);
    }
    assert placed.1.width == LastWidth(ks) >= KeyWidth by {
      PlaceGroupSpec(y, group, pen);
      PlaceGroupExtent(y, group, pen);
      assert ks[|ks| - 1].width == Width(|ks| - 1, |ks|);
    }
    FirstKeysGrow(rows, start, pen, y, ks, placed.1);
  }

  /** Appending a row whose first key is pushed by the pen's width keeps the
      first keys pushed. */
  lemma FirstKeysGrow(rows: seq<(real, seq<Placed>)>, start: real, pen: Pen, y: real, ks: seq<Placed>, pen': Pen)
    requires FirstKeysPushed(rows, start, pen)
    requires |ks| > 0 && ks[0].x == ks[0].rawX + pen.width + Padding
    requires pen'.width == LastWidth(ks) >= KeyWidth
    ensures FirstKeysPushed(rows + [(y, ks)], start, pen')
  {
    var rows' := rows + [(y, ks)];
    forall i | 0 <= i < |rows'|
      ensures |rows'[i].1| > 0
      ensures rows'[i].1[0].x == rows'[i].1[0].rawX + (if i == 0 then start else LastWidth(rows'[i - 1].1)) + Padding
    {
      if i < |rows| {
        assert rows'[i] == rows[i];
        if i > 0 {
          assert rows'[i - 1] == rows[i - 1];
        }
      } else if i > 0 {
        assert rows'[i - 1] == rows[|rows| - 1];
      }
    }
  }

  lemma {:induction false} PlaceGroupsFirstKeys(groups: Groups, d: Drawing, start: real)
    requires NonEmptyGroups(groups)
    requires FirstKeysPushed(d.rows, start, d.pen)
    ensures var r := PlaceGroups(groups, d);
      FirstKeysPushed(r.rows, start, r.pen)
    decreases |groups|
  {
    if |groups| > 0 {
      PlaceGroupsStep(groups, d);
      FirstKeysSnoc(d.rows, start, d.pen, groups[0].0, groups[0].1);
      PlaceGroupsFirstKeys(groups[1..], DrawGroup(groups[0].0, groups[0].1, d), start);
    }
  }

  /** The extents cover every drawn box and every drawn row's height. */
  predicate Covered(rows: seq<(real, seq<Placed>)>, pen: Pen) {
    && (forall i, j :: 0 <= i < |rows| && 0 <= j < |rows[i].1| ==> rows[i].1[j].x + rows[i].1[j].width + Padding <= pen.xmax)
    && (forall i :: 0 <= i < |rows| ==> rows[i].0 + KeyHeight <= pen.ymax)
  }

  lemma CoveredGrow(rows: seq<(real, seq<Placed>)>, pen: Pen, y: real, ks: seq<Placed>, pen': Pen)
    requires Covered(rows, pen)
    requires pen.xmax <= pen'.xmax && pen.ymax <= pen'.ymax
    requires forall j :: 0 <= j < |ks| ==> ks[j].x + ks[j].width + Padding <= pen'.xmax
    requires y + KeyHeight <= pen'.ymax
    ensures Covered(rows + [(y, ks)], pen')
  {
    var rows' := rows + [(y, ks)];
    forall i, j | 0 <= i < |rows'| && 0 <= j < |rows'[i].1|
      ensures rows'[i].1[j].x + rows'[i].1[j].width + Padding <= pen'.xmax
    {
      if i < |rows| {
        assert rows'[i] == rows[i];
      }
    }
  }

  /** Drawing keeps the extents covering every box drawn, and they never shrink. */
  lemma {:induction false} PlaceGroupsExtent(groups: Groups, d: Drawing)
    requires NonEmptyGroups(groups)
    requires Covered(d.rows, d.pen)
    ensures var r := PlaceGroups(groups, d);
      && Covered(r.rows, r.pen)
      && d.pen.xmax <= r.pen.xmax && d.pen.ymax <= r.pen.ymax
    decreases |groups|
  {
    if |groups| > 0 {
      PlaceGroupsStep(groups, d);
      var d' := DrawGroup(groups[0].0, groups[0].1, d);
      DrawGroupExtent(groups[0].0, groups[0].1, d);
      PlaceGroupsExtent(groups[1..], d');
    }
  }

  lemma DrawGroupExtent(y: real, group: seq<Slot>, d: Drawing)
    requires |group| > 0
    requires Covered(d.rows, d.pen)
    ensures var d' := DrawGroup(y, group, d);
      && Covered(d'.rows, d'.pen)
      && d.pen.xmax <= d'.pen.xmax && d.pen.ymax <= d'.pen.ymax
  {
    PlaceGroupExtent(y, group, d.pen);
    var placed := PlaceGroup(y, group, d.pen);
    CoveredGrow(d.rows, d.pen, y, placed.0, placed.1);
  }

  /** `visual_keymap` as the drawn rows determine it: one entry per row, in
      drawing order. */
  function VisualOf(rows: seq<(real, seq<Placed>)>): (r: Assoc<real, Assoc<string, Point>>)
    ensures |r| == |rows|
    ensures forall i :: 0 <= i < |rows| ==> r[i] == (rows[i].0, VisualRow(rows[i].1, rows[i].0, []))
  {
    seq(|rows|, i requires 0 <= i < |rows| => (rows[i].0, VisualRow(rows[i].1, rows[i].0, [])))
  }

  lemma VisualSnoc(rows: seq<(real, seq<Placed>)>, y: real, ks: seq<Placed>)
    ensures VisualOf(rows + [(y, ks)]) == VisualOf(rows) + [(y, VisualRow(ks, y, []))]
  {
  }

  /** No height of `groups` is a height already in `visual`. */
  predicate Apart<V, W>(groups: Assoc<real, V>, visual: Assoc<real, W>) {
    forall i, j :: 0 <= i < |groups| && 0 <= j < |visual| ==> groups[i].0 != visual[j].0
  }

  /** Since the groups' heights are distinct, every `visual_keymap[y] = {}`
      adds a new entry, so `visual_keymap` lines up with the drawn rows. */
  lemma {:induction false} PlaceGroupsVisual(groups: Groups, d: Drawing)
    requires NonEmptyGroups(groups)
    requires DistinctKeys(groups)
    requires Apart(groups, d.visual)
    requires d.visual == VisualOf(d.rows)
    ensures PlaceGroups(groups, d).visual == VisualOf(PlaceGroups(groups, d).rows)
    decreases |groups|
  {
    if |groups| > 0 {
      PlaceGroupsStep(groups, d);
      var d' := DrawGroup(groups[0].0, groups[0].1, d);
      DrawGroupVisual(groups, d);
      PlaceGroupsVisual(groups[1..], d');
    }
  }

  lemma DrawGroupVisual(groups: Groups, d: Drawing)
    requires |groups| > 0 && |groups[0].1| > 0
    requires DistinctKeys(groups)
    requires Apart(groups, d.visual)
    requires d.visual == VisualOf(d.rows)
    ensures var d' := DrawGroup(groups[0].0, groups[0].1, d);
      && DistinctKeys(groups[1..])
      && Apart(groups[1..], d'.visual)
      && d'.visual == VisualOf(d'.rows)
  {
    var y := groups[0].0;
    var placed := PlaceGroup(y, groups[0].1, d.pen).0;
    var row := VisualRow(placed, y, []);
    ApartStep(groups, d.visual, row);
    PutAbsent(d.visual, y, row);
    VisualSnoc(d.rows, y, placed);
  }

  /** Drawing the first group keeps the remaining heights apart from the
      heights drawn so far. */
  lemma ApartStep<V, W>(groups: Assoc<real, V>, visual: Assoc<real, W>, row: W)
    requires |groups| > 0
    requires DistinctKeys(groups)
    requires Apart(groups, visual)
    ensures groups[0].0 !in Keys(visual)
    ensures DistinctKeys(groups[1..])
    ensures Apart(groups[1..], visual + [(groups[0].0, row)])
  {
    var y := groups[0].0;
    var v := visual + [(y, row)];
    forall j | 0 <= j < |Keys(visual)| ensures Keys(visual)[j] != y {
      assert Keys(visual)[j] == visual[j].0;
    }
    forall i, j | 0 <= i < j < |groups[1..]| ensures groups[1..][i].0 != groups[1..][j].0 {
      assert groups[1..][i] == groups[i + 1] && groups[1..][j] == groups[j + 1];
    }
    forall i, j | 0 <= i < |groups[1..]| && 0 <= j < |v|
      ensures groups[1..][i].0 != v[j].0
    {
      assert groups[1..][i] == groups[i + 1];
      if j == |visual| {
        assert v[j].0 == groups[0].0;
      } else {
        assert v[j] == visual[j];
      }
    }
  }

  predicate NamedAt(ks: seq<Placed>, j: int, n: string) {
    0 <= j < |ks| && ks[j].name == n
  }

  /** A name is in one `visual_keymap` row exactly when a key of that name
      was drawn in it (or it was there before). */
  lemma {:induction false} VisualRowHas(ks: seq<Placed>, y: real, row: Assoc<string, Point>, n: string)
    ensures Get(VisualRow(ks, y, row), n).Some? <==> (exists j :: NamedAt(ks, j, n)) || Get(row, n).Some?
    decreases |ks|
  {
    if |ks| > 0 {
      var row' := Put(row, ks[0].name, Point(ks[0].x, y));
      assert VisualRow(ks, y, row) == VisualRow(ks[1..], y, row');
      assert Get(row', n).Some? <==> n == ks[0].name || Get(row, n).Some?;
      VisualRowHas(ks[1..], y, row', n);
      NamedCons(ks, n);
    }
  }

  lemma NamedCons(ks: seq<Placed>, n: string)
    requires |ks| > 0
    ensures (exists j :: NamedAt(ks, j, n)) <==> ks[0].name == n || exists j :: NamedAt(ks[1..], j, n)
  {
    if ks[0].name == n {
      assert NamedAt(ks, 0, n);
    }
    if exists j :: NamedAt(ks[1..], j, n) {
      var j :| NamedAt(ks[1..], j, n);
      assert NamedAt(ks, j + 1, n);
    }
    if exists j :: NamedAt(ks, j, n) {
      var j :| NamedAt(ks, j, n);
      if j > 0 {
        assert NamedAt(ks[1..], j - 1, n);
      }
    }
  }

  /** A name found in one `visual_keymap` row sits at the adjusted x of a key
      of that name drawn in the row and at the row's y (or was there before). */
  lemma {:induction false} VisualRowFrom(ks: seq<Placed>, y: real, row: Assoc<string, Point>, n: string)
    ensures var r := Get(VisualRow(ks, y, row), n);
      r.Some? ==> r == Get(row, n) || exists j :: NamedAt(ks, j, n) && r == Some(Point(ks[j].x, y))
    decreases |ks|
  {
    if |ks| > 0 {
      var row' := Put(row, ks[0].name, Point(ks[0].x, y));
      assert VisualRow(ks, y, row) == VisualRow(ks[1..], y, row');
      VisualRowFrom(ks[1..], y, row', n);
      var r := Get(VisualRow(ks[1..], y, row'), n);
      if r.Some? && r != Get(row', n) {
        var j :| NamedAt(ks[1..], j, n) && r == Some(Point(ks[1..][j].x, y));
        assert ks[j + 1] == ks[1..][j];
        assert NamedAt(ks, j + 1, n) && r == Some(Point(ks[j + 1].x, y));
      } else if r.Some? && r != Get(row, n) {
        assert n == ks[0].name && r == Some(Point(ks[0].x, y));
        assert NamedAt(ks, 0, n);
      }
    }
  }

  /** `find_nested_key`: the value under `key` in the first row that has one. */
  function FindNested<R, V>(nested: Assoc<R, Assoc<string, V>>, key: string): Option<V>
    decreases |nested|
  {
    if |nested| == 0 then None
    else match Get(nested[0].1, key)
      case Some(v) => Some(v)
      case None => FindNested(nested[1..], key)
  }

  predicate FirstHolder<R, V>(nested: Assoc<R, Assoc<string, V>>, key: string, i: int) {
    && 0 <= i < |nested|
    && Get(nested[i].1, key).Some?
    && forall i' :: 0 <= i' < i ==> Get(nested[i'].1, key).None?
  }

  /** The search finds a value exactly when some row has the key, and then it
      is the value of the first such row. */
  lemma {:induction false} FindNestedFirst<R, V>(nested: Assoc<R, Assoc<string, V>>, key: string)
    ensures FindNested(nested, key).None? <==> forall i :: 0 <= i < |nested| ==> Get(nested[i].1, key).None?
    ensures FindNested(nested, key).Some? ==>
              exists i :: FirstHolder(nested, key, i) && Get(nested[i].1, key) == FindNested(nested, key)
    decreases |nested|
  {
    if |nested| > 0 {
      FindNestedFirst(nested[1..], key);
      assert forall i :: 0 < i < |nested| ==> nested[i] == nested[1..][i - 1];
      if Get(nested[0].1, key).Some? {
        assert FirstHolder(nested, key, 0);
      } else if FindNested(nested, key).Some? {
        var i :| FirstHolder(nested[1..], key, i) && Get(nested[1..][i].1, key) == FindNested(nested, key);
        assert FirstHolder(nested, key, i + 1);
      }
    }
  }

  predicate DrawnAt(rows: seq<(real, seq<Placed>)>, i: int, j: int, n: string) {
    0 <= i < |rows| && NamedAt(rows[i].1, j, n)
  }

  /** Looking a name up in `visual_keymap` finds it exactly when a key of that
      name was drawn. */
  lemma VisualFindHas(rows: seq<(real, seq<Placed>)>, n: string)
    ensures FindNested(VisualOf(rows), n).Some? <==> exists i, j :: DrawnAt(rows, i, j, n)
  {
    var v := VisualOf(rows);
    FindNestedFirst(v, n);
    if exists i, j :: DrawnAt(rows, i, j, n) {
      var i, j :| DrawnAt(rows, i, j, n);
      VisualRowHas(rows[i].1, rows[i].0, [], n);
    }
    if FindNested(v, n).Some? {
      var i :| FirstHolder(v, n, i) && Get(v[i].1, n) == FindNested(v, n);
      VisualRowHas(rows[i].1, rows[i].0, [], n);
      var j :| NamedAt(rows[i].1, j, n);
      assert DrawnAt(rows, i, j, n);
    }
  }

  /** What `visual_keymap` yields for a name is the adjusted position of a
      key of that name. */
  lemma VisualFindValue(rows: seq<(real, seq<Placed>)>, n: string)
    ensures var found := FindNested(VisualOf(rows), n);
      found.Some? ==> exists i, j :: DrawnAt(rows, i, j, n) && found.value == Point(rows[i].1[j].x, rows[i].0)
  {
    var v := VisualOf(rows);
    FindNestedFirst(v, n);
    if FindNested(v, n).Some? {
      var i :| FirstHolder(v, n, i) && Get(v[i].1, n) == FindNested(v, n);
      VisualRowFrom(rows[i].1, rows[i].0, [], n);
      var j :| NamedAt(rows[i].1, j, n) && Get(v[i].1, n) == Some(Point(rows[i].1[j].x, rows[i].0));
      assert DrawnAt(rows, i, j, n);
    }
  }

  /** Which shift-mapping entry labels a drawn key: line 617 looks up the
      key's name case-folded (`FoldedLabel`); `OwnLabel` looks up the name the
      parser stored the key under. */
  datatype LabelPolicy = FoldedLabel | OwnLabel

  function LabelKey(policy: LabelPolicy, name: string): string {
    match policy
    case FoldedLabel => Lower(name)
    case OwnLabel => name
  }

  datatype DrawError = MissingShiftLabel(name: string)

  predicate Labelled(policy: LabelPolicy, name: string, shift: Assoc<string, string>) {
    LabelKey(policy, name) in Keys(shift)
  }

  /** The first key of a row whose label has no shift-mapping entry. */
  function RowUnlabelled(policy: LabelPolicy, ks: seq<Placed>, shift: Assoc<string, string>): Option<string>
    decreases |ks|
  {
    if |ks| == 0 then None
    else if !Labelled(policy, ks[0].name, shift) then Some(ks[0].name)
    else RowUnlabelled(policy, ks[1..], shift)
  }

  /** The first drawn key, row by row, whose label has no shift-mapping entry. */
  function Unlabelled(policy: LabelPolicy, rows: seq<(real, seq<Placed>)>, shift: Assoc<string, string>): Option<string>
    decreases |rows|
  {
    if |rows| == 0 then None
    else match RowUnlabelled(policy, rows[0].1, shift)
      case Some(n) => Some(n)
      case None => Unlabelled(policy, rows[1..], shift)
  }

  lemma {:induction false} RowUnlabelledSpec(policy: LabelPolicy, ks: seq<Placed>, shift: Assoc<string, string>)
    ensures RowUnlabelled(policy, ks, shift).None? <==> forall j :: 0 <= j < |ks| ==> Labelled(policy, ks[j].name, shift)
    ensures RowUnlabelled(policy, ks, shift).Some? ==>
              exists j :: NamedAt(ks, j, RowUnlabelled(policy, ks, shift).value) && !Labelled(policy, ks[j].name, shift)
    decreases |ks|
  {
    if |ks| > 0 {
      RowUnlabelledSpec(policy, ks[1..], shift);
      assert forall j :: 0 < j < |ks| ==> ks[j] == ks[1..][j - 1];
      if Labelled(policy, ks[0].name, shift) && RowUnlabelled(policy, ks, shift).Some? {
        var j :| NamedAt(ks[1..], j, RowUnlabelled(policy, ks, shift).value) && !Labelled(policy, ks[1..][j].name, shift);
        assert NamedAt(ks, j + 1, RowUnlabelled(policy, ks, shift).value);
      }
    }
  }

  /** The label check passes exactly when every drawn key has a label, and
      otherwise names a drawn key without one. */
  lemma {:induction false} UnlabelledSpec(policy: LabelPolicy, rows: seq<(real, seq<Placed>)>, shift: Assoc<string, string>)
    ensures Unlabelled(policy, rows, shift).None? <==>
              forall i, j :: 0 <= i < |rows| && 0 <= j < |rows[i].1| ==> Labelled(policy, rows[i].1[j].name, shift)
    ensures Unlabelled(policy, rows, shift).Some? ==>
              exists i, j :: DrawnAt(rows, i, j, Unlabelled(policy, rows, shift).value) && !Labelled(policy, rows[i].1[j].name, shift)
    decreases |rows|
  {
    if |rows| > 0 {
      RowUnlabelledSpec(policy, rows[0].1, shift);
      UnlabelledSpec(policy, rows[1..], shift);
      assert forall i :: 0 < i < |rows| ==> rows[i] == rows[1..][i - 1];
      var r := Unlabelled(policy, rows, shift);
      if r.Some? {
        if RowUnlabelled(policy, rows[0].1, shift).Some? {
          var j :| NamedAt(rows[0].1, j, r.value) && !Labelled(policy, rows[0].1[j].name, shift);
          assert DrawnAt(rows, 0, j, r.value);
        } else {
          var i, j :| DrawnAt(rows[1..], i, j, r.value) && !Labelled(policy, rows[1..][i].1[j].name, shift);
          assert DrawnAt(rows, i + 1, j, r.value);
        }
      }
    }
  }

  /** The painter before `__draw_keys`: nothing drawn, the default key width
      carried in, and both extents at 0 (lines 366-377). */
  const Blank: Drawing := Drawing([], [], Pen(KeyWidth, 0.0, 0.0))

  /** `ordered_keymap`, built from the whole keymap. */
  function GroupsOf(keymap: Assoc<string, RowMap>): (g: Groups)
    ensures DistinctKeys(g) && NonEmptyGroups(g)
  {
    GroupsNonEmpty(Entries(keymap));
    GroupByY(Entries(keymap), [])
  }

  /** Lines 538-621 without the label lookup: every group drawn in turn. */
  function Draw(keymap: Assoc<string, RowMap>): Drawing {
    PlaceGroups(GroupsOf(keymap), Blank)
  }

  /** `__draw_keys`: the drawing, or the first key in drawing order whose
      shift label is missing (the `KeyError` of line 617). */
  function DrawKeys(policy: LabelPolicy, keymap: Assoc<string, RowMap>, shift: Assoc<string, string>): Result<Drawing, DrawError> {
    var d := Draw(keymap);
    match Unlabelled(policy, d.rows, shift)
    case Some(n) => Failure(MissingShiftLabel(n))
    case None => Success(d)
  }

  predicate EntryNamed(entries: seq<(string, Point)>, k: int, n: string) {
    0 <= k < |entries| && entries[k].0 == n
  }

  /** A slot is in the group of height `y` exactly when an entry at that
      height carries its name and x. */
  lemma {:induction false} AtHeightHas(entries: seq<(string, Point)>, y: real, s: Slot)
    ensures s in AtHeight(entries, y) <==> exists k :: 0 <= k < |entries| && entries[k] == (s.name, Point(s.x, y))
    decreases |entries|
  {
    if |entries| > 0 {
      AtHeightHas(entries[1..], y, s);
      var head := if entries[0].1.y == y then [Slot(entries[0].0, entries[0].1.x)] else [];
      assert AtHeight(entries, y) == head + AtHeight(entries[1..], y);
      assert forall k :: 0 < k < |entries| ==> entries[k] == entries[1..][k - 1];
      if s in AtHeight(entries[1..], y) {
        var k :| 0 <= k < |entries[1..]| && entries[1..][k] == (s.name, Point(s.x, y));
        assert entries[k + 1] == (s.name, Point(s.x, y));
      }
      if s in head {
        assert entries[0] == (s.name, Point(s.x, y));
      }
    }
  }

  /** Every group of `ordered_keymap` holds the entries at its height. */
  lemma GroupContents(keymap: Assoc<string, RowMap>, i: int)
    requires 0 <= i < |GroupsOf(keymap)|
    ensures GroupsOf(keymap)[i].1 == AtHeight(Entries(keymap), GroupsOf(keymap)[i].0)
  {
    var g := GroupsOf(keymap);
    GetSlot(g, i);
    GroupByYSpec(Entries(keymap), [], g[i].0);
    assert [] + AtHeight(Entries(keymap), g[i].0) == AtHeight(Entries(keymap), g[i].0);
  }

  /** Every entry's height has a group. */
  lemma GroupOfEntry(keymap: Assoc<string, RowMap>, k: int) returns (i: int)
    requires 0 <= k < |Entries(keymap)|
    ensures 0 <= i < |GroupsOf(keymap)| && GroupsOf(keymap)[i].0 == Entries(keymap)[k].1.y
  {
    var entries := Entries(keymap);
    var y := entries[k].1.y;
    var s := Slot(entries[k].0, entries[k].1.x);
    AtHeightHas(entries, y, s);
    GroupByYSpec(entries, [], y);
    var g := GroupsOf(keymap);
    assert y in Keys(g);
    i :| 0 <= i < |g| && Keys(g)[i] == y;
  }

  /** The drawn rows are the groups of `ordered_keymap`, in order, each holding
      the entries at its height in ascending raw x, laid out by the rules. */
  lemma DrawRows(keymap: Assoc<string, RowMap>)
    ensures Matches(Draw(keymap).rows, GroupsOf(keymap))
  {
    PlaceGroupsRows([], GroupsOf(keymap), Blank);
    assert [] + GroupsOf(keymap) == GroupsOf(keymap);
  }

  /** The drawing as a whole: first keys pushed by the stale width, extents
      covering every box, and `visual_keymap` aligned with the drawn rows. */
  lemma DrawLayout(keymap: Assoc<string, RowMap>)
    ensures var d := Draw(keymap);
      && FirstKeysPushed(d.rows, KeyWidth, d.pen)
      && Covered(d.rows, d.pen)
      && 0.0 <= d.pen.xmax && 0.0 <= d.pen.ymax
      && d.visual == VisualOf(d.rows)
  {
    var g := GroupsOf(keymap);
    PlaceGroupsFirstKeys(g, Blank, KeyWidth);
    PlaceGroupsExtent(g, Blank);
    PlaceGroupsVisual(g, Blank);
  }

  lemma DrawnIsEntry(keymap: Assoc<string, RowMap>, i: int, j: int, n: string) returns (k: int)
    requires DrawnAt(Draw(keymap).rows, i, j, n)
    ensures EntryNamed(Entries(keymap), k, n)
  {
    var rows := Draw(keymap).rows;
    var g := GroupsOf(keymap);
    DrawRows(keymap);
    GroupContents(keymap, i);
    var s := SlotsOf(rows[i].1)[j];
    assert s in multiset(SortByX(g[i].1));
    assert s in AtHeight(Entries(keymap), g[i].0);
    AtHeightHas(Entries(keymap), g[i].0, s);
    k :| 0 <= k < |Entries(keymap)| && Entries(keymap)[k] == (s.name, Point(s.x, g[i].0));
  }

  lemma EntryIsDrawn(keymap: Assoc<string, RowMap>, k: int, n: string) returns (i: int, j: int)
    requires EntryNamed(Entries(keymap), k, n)
    ensures DrawnAt(Draw(keymap).rows, i, j, n)
  {
    var entries := Entries(keymap);
    var rows := Draw(keymap).rows;
    var g := GroupsOf(keymap);
    i := GroupOfEntry(keymap, k);
    DrawRows(keymap);
    GroupContents(keymap, i);
    var s := Slot(n, entries[k].1.x);
    AtHeightHas(entries, g[i].0, s);
    assert s in multiset(SortByX(g[i].1));
    j :| 0 <= j < |SortByX(g[i].1)| && SortByX(g[i].1)[j] == s;
    assert SlotsOf(rows[i].1)[j] == s;
  }

  /** Exactly the keymap's names are drawn. */
  lemma DrawnNames(keymap: Assoc<string, RowMap>, n: string)
    ensures (exists i, j :: DrawnAt(Draw(keymap).rows, i, j, n)) ==> exists k :: EntryNamed(Entries(keymap), k, n)
    ensures (exists k :: EntryNamed(Entries(keymap), k, n)) ==> exists i, j :: DrawnAt(Draw(keymap).rows, i, j, n)
  {
    var rows := Draw(keymap).rows;
    var entries := Entries(keymap);
    assert (exists i, j :: DrawnAt(rows, i, j, n)) ==> exists k :: EntryNamed(entries, k, n) by {
      if exists i, j :: DrawnAt(rows, i, j, n) {
        var i, j :| DrawnAt(rows, i, j, n);
        var k := DrawnIsEntry(keymap, i, j, n);
      }
    }
    assert (exists k :: EntryNamed(entries, k, n)) ==> exists i, j :: DrawnAt(rows, i, j, n) by {
      if exists k :: EntryNamed(entries, k, n) {
        var k :| EntryNamed(entries, k, n);
        var i, j := EntryIsDrawn(keymap, k, n);
        assert DrawnAt(rows, i, j, n);
      }
    }
  }

  /** Drawing succeeds exactly when every key of the keymap has a shift
      label; otherwise it names a key of the keymap that has none. */
  lemma DrawKeysLabels(policy: LabelPolicy, keymap: Assoc<string, RowMap>, shift: Assoc<string, string>)
    ensures DrawKeys(policy, keymap, shift).Success? <==>
              forall k :: 0 <= k < |Entries(keymap)| ==> Labelled(policy, Entries(keymap)[k].0, shift)
    ensures DrawKeys(policy, keymap, shift).Success? ==> DrawKeys(policy, keymap, shift).value == Draw(keymap)
    ensures DrawKeys(policy, keymap, shift).Failure? ==>
              var n := DrawKeys(policy, keymap, shift).error.name;
              (exists k :: EntryNamed(Entries(keymap), k, n)) && !Labelled(policy, n, shift)
  {
    var rows := Draw(keymap).rows;
    var entries := Entries(keymap);
    UnlabelledSpec(policy, rows, shift);
    var u := Unlabelled(policy, rows, shift);
    if u.Some? {
      var i, j :| DrawnAt(rows, i, j, u.value) && !Labelled(policy, rows[i].1[j].name, shift);
      var k := DrawnIsEntry(keymap, i, j, u.value);
    } else {
      forall k | 0 <= k < |entries| ensures Labelled(policy, entries[k].0, shift) {
        var i, j := EntryIsDrawn(keymap, k, entries[k].0);
      }
    }
  }
}
