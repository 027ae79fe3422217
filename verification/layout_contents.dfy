/** What the parsed keymap, home-row map and shift mapping contain: for every
    name, the definition read last wins; with the corrected duplicate test each
    key is therefore found exactly where the document puts it. */
module LayoutContents {
  import opened Wrappers
  import opened Assoc
  import opened Text
  import opened LayoutTree
  import opened Keylist
  import opened Keymap
  import opened LayoutFacts

  /** The name a key is stored under. */
  function DeclName(key: KeyElem): string {
    if key.lower.Some? then KeyName(key) else ""
  }

  /** The raw position of a key's first position element. */
  function KeyPoint(key: KeyElem): Point {
    if PositionOk(key) then Point(key.positions[0].x.value, key.positions[0].y.value) else Point(0.0, 0.0)
  }

  /** The shift target a key declares: its `upper`, or the default table's entry. */
  function ShiftTarget(key: KeyElem): string {
    if key.upper.Some? then key.upper.value else DefaultShift(FoldedName(key)).GetOr("")
  }

  /** Which rows a lookup considers: rows with one id, the home rows, or all rows. */
  datatype Scope = RowId(id: string) | HomeRows | AnyRow

  predicate InScope(scope: Scope, row: RowElem) {
    match scope
    case RowId(id) => row.id == Some(id)
    case HomeRows => row.id.Some? && IsHomeId(row.id.value)
    case AnyRow => true
  }

  function Over<T>(a: Option<T>, b: Option<T>): Option<T> {
    if a.Some? then a else b
  }

  /** The last key of a row declared under `name`. */
  function LatestKey(keys: seq<KeyElem>, name: string): Option<KeyElem>
    decreases |keys|
  {
    if |keys| == 0 then None
    else Over(LatestKey(keys[1..], name), if DeclName(keys[0]) == name then Some(keys[0]) else None)
  }

  /** The last key, over the rows in scope, declared under `name`. */
  function LatestIn(rows: seq<RowElem>, scope: Scope, name: string): Option<KeyElem>
    decreases |rows|
  {
    if |rows| == 0 then None
    else Over(LatestIn(rows[1..], scope, name), if InScope(scope, rows[0]) then LatestKey(rows[0].keys, name) else None)
  }

  function PointOf(k: Option<KeyElem>): Option<Point> {
    if k.Some? then Some(KeyPoint(k.value)) else None
  }

  function TargetOf(k: Option<KeyElem>): Option<string> {
    if k.Some? then Some(ShiftTarget(k.value)) else None
  }

  lemma {:induction false} LatestKeyFound(keys: seq<KeyElem>, name: string)
    ensures LatestKey(keys, name).Some? <==> exists j :: 0 <= j < |keys| && DeclName(keys[j]) == name
    ensures LatestKey(keys, name).Some? ==>
              exists j :: 0 <= j < |keys| && keys[j] == LatestKey(keys, name).value && DeclName(keys[j]) == name
    decreases |keys|
  {
    if |keys| > 0 {
      LatestKeyFound(keys[1..], name);
      assert forall j :: 0 < j < |keys| ==> keys[j] == keys[1..][j - 1];
      if LatestKey(keys[1..], name).Some? {
        var j :| 0 <= j < |keys[1..]| && keys[1..][j] == LatestKey(keys[1..], name).value && DeclName(keys[1..][j]) == name;
        assert keys[j + 1] == keys[1..][j];
      }
    }
  }

  /** What is found in scope is a key of a row in scope declared under the name. */
  lemma {:induction false} LatestInSome(rows: seq<RowElem>, scope: Scope, name: string)
    ensures LatestIn(rows, scope, name).Some? ==>
              exists i, j :: 0 <= i < |rows| && InScope(scope, rows[i]) && 0 <= j < |rows[i].keys| &&
                             rows[i].keys[j] == LatestIn(rows, scope, name).value && DeclName(rows[i].keys[j]) == name
    decreases |rows|
  {
    if |rows| > 0 && LatestIn(rows, scope, name).Some? {
      var found := LatestIn(rows, scope, name).value;
      if LatestIn(rows[1..], scope, name).Some? {
        LatestInSome(rows[1..], scope, name);
        var i, j :| 0 <= i < |rows[1..]| && InScope(scope, rows[1..][i]) && 0 <= j < |rows[1..][i].keys| &&
                    rows[1..][i].keys[j] == found && DeclName(rows[1..][i].keys[j]) == name;
        assert rows[i + 1] == rows[1..][i];
      } else {
        LatestKeyFound(rows[0].keys, name);
        var j :| 0 <= j < |rows[0].keys| && rows[0].keys[j] == found && DeclName(rows[0].keys[j]) == name;
        assert InScope(scope, rows[0]);
      }
    }
  }

  /** Nothing is found in scope only when no key of a row in scope is declared
      under the name. */
  lemma {:induction false} LatestInNone(rows: seq<RowElem>, scope: Scope, name: string)
    ensures LatestIn(rows, scope, name).None? ==>
              forall i, j :: 0 <= i < |rows| && InScope(scope, rows[i]) && 0 <= j < |rows[i].keys| ==> DeclName(rows[i].keys[j]) != name
    decreases |rows|
  {
    if |rows| > 0 && LatestIn(rows, scope, name).None? {
      LatestInNone(rows[1..], scope, name);
      LatestKeyFound(rows[0].keys, name);
      forall i, j | 0 <= i < |rows| && InScope(scope, rows[i]) && 0 <= j < |rows[i].keys|
        ensures DeclName(rows[i].keys[j]) != name
      {
        if i > 0 {
          assert rows[i] == rows[1..][i - 1];
        }
      }
    }
  }

  /** A name is found in scope exactly when some key of a row in scope is
      declared under it, and what is found is such a key. */
  lemma LatestInFound(rows: seq<RowElem>, scope: Scope, name: string)
    ensures LatestIn(rows, scope, name).Some? <==>
              exists i, j :: 0 <= i < |rows| && InScope(scope, rows[i]) && 0 <= j < |rows[i].keys| && DeclName(rows[i].keys[j]) == name
    ensures LatestIn(rows, scope, name).Some? ==>
              exists i, j :: 0 <= i < |rows| && InScope(scope, rows[i]) && 0 <= j < |rows[i].keys| &&
                             rows[i].keys[j] == LatestIn(rows, scope, name).value && DeclName(rows[i].keys[j]) == name
  {
    LatestInSome(rows, scope, name);
    LatestInNone(rows, scope, name);
  }

  /** What one accepted key contributes: its name, raw position and shift target. */
  lemma ParseKeyContent(p: Policy, t: Tally, key: KeyElem, n: string)
    requires ParseKey(p, t, key).Success?
    ensures var s := ParseKey(p, t, key).value;
      && s.0 == DeclName(key)
      && s.1 == KeyPoint(key)
      && Get(s.2.shift, n) == if n == s.0 then Some(ShiftTarget(key)) else Get(t.shift, n)
  {
  }

  /** After a row's keys, the row map holds, for a name the row declares, the
      position of its last declaration, and is otherwise unchanged. */
  lemma {:induction false} RowKeysPoint(p: Policy, t: Tally, keys: seq<KeyElem>, rowMap: RowMap, n: string)
    requires DistinctKeys(rowMap)
    requires ParseRowKeys(p, t, keys, rowMap).Success?
    ensures Get(ParseRowKeys(p, t, keys, rowMap).value.0, n) == Over(PointOf(LatestKey(keys, n)), Get(rowMap, n))
    decreases |keys|
  {
    if |keys| > 0 {
      var s, m := RowKeysHead(p, t, keys, rowMap, n);
      RowKeysPoint(p, s.2, keys[1..], m, n);
      var here := if DeclName(keys[0]) == n then Some(keys[0]) else None;
      assert LatestKey(keys, n) == Over(LatestKey(keys[1..], n), here);
      OverPoint(LatestKey(keys[1..], n), here, Get(rowMap, n));
    }
  }

  /** The first key of a row, read: what it adds to the row map, and the rest
      of the row read from there. */
  lemma RowKeysHead(p: Policy, t: Tally, keys: seq<KeyElem>, rowMap: RowMap, n: string)
      returns (s: (string, Point, Tally), m: RowMap)
    requires DistinctKeys(rowMap)
    requires ParseRowKeys(p, t, keys, rowMap).Success?
    requires |keys| > 0
    ensures ParseKey(p, t, keys[0]) == Success(s)
    ensures m == Put(rowMap, s.0, s.1) && DistinctKeys(m)
    ensures ParseRowKeys(p, t, keys, rowMap) == ParseRowKeys(p, s.2, keys[1..], m)
    ensures Get(m, n) == Over(PointOf(if DeclName(keys[0]) == n then Some(keys[0]) else None), Get(rowMap, n))
  {
    RowKeysStep(p, t, keys, rowMap);
    s := ParseKey(p, t, keys[0]).value;
    m := Put(rowMap, s.0, s.1);
    KeyPut(p, t, keys[0], rowMap, n);
  }

  lemma KeyPut(p: Policy, t: Tally, key: KeyElem, rowMap: RowMap, n: string)
    requires ParseKey(p, t, key).Success?
    ensures var s := ParseKey(p, t, key).value;
      Get(Put(rowMap, s.0, s.1), n) == Over(PointOf(if DeclName(key) == n then Some(key) else None), Get(rowMap, n))
  {
    var s := ParseKey(p, t, key).value;
    assert s.0 == DeclName(key) && s.1 == KeyPoint(key) by {
      ParseKeyContent(p, t, key, n);
    }
  }

  lemma OverPoint(a: Option<KeyElem>, b: Option<KeyElem>, c: Option<Point>)
    ensures Over(PointOf(a), Over(PointOf(b), c)) == Over(PointOf(Over(a, b)), c)
  {
  }

  lemma OverTarget(a: Option<KeyElem>, b: Option<KeyElem>, c: Option<string>)
    ensures Over(TargetOf(a), Over(TargetOf(b), c)) == Over(TargetOf(Over(a, b)), c)
  {
  }

  /** After a row's keys, the shift mapping holds, for a name the row
      declares, the target of its last declaration, and is otherwise unchanged. */
  lemma {:induction false} RowKeysTarget(p: Policy, t: Tally, keys: seq<KeyElem>, rowMap: RowMap, n: string)
    requires DistinctKeys(rowMap)
    requires ParseRowKeys(p, t, keys, rowMap).Success?
    ensures Get(ParseRowKeys(p, t, keys, rowMap).value.1.shift, n) == Over(TargetOf(LatestKey(keys, n)), Get(t.shift, n))
    decreases |keys|
  {
    if |keys| > 0 {
      RowKeysStep(p, t, keys, rowMap);
      var s := ParseKey(p, t, keys[0]).value;
      var m := Put(rowMap, s.0, s.1);
      var here := if DeclName(keys[0]) == n then Some(keys[0]) else None;
      assert Get(s.2.shift, n) == Over(TargetOf(here), Get(t.shift, n)) by {
        ParseKeyContent(p, t, keys[0], n);
      }
      RowKeysTarget(p, s.2, keys[1..], m, n);
      OverTarget(LatestKey(keys[1..], n), here, Get(t.shift, n));
    }
  }

  /** One row's effect on the builder, name by name. */
  lemma RowMerged(p: Policy, b: Builder, rows: seq<RowElem>, id: string, n: string)
    requires |rows| > 0 && rows[0].id.Some?
    requires ParseRowKeys(p, b.tally, rows[0].keys, []).Success?
    ensures var row := ParseRowKeys(p, b.tally, rows[0].keys, []).value;
      var b' := NextBuilder(b, rows[0].id.value, row.0, row.1);
      var found := if InScope(RowId(id), rows[0]) then LatestKey(rows[0].keys, n) else None;
      var home := if InScope(HomeRows, rows[0]) then LatestKey(rows[0].keys, n) else None;
      && Lookup(b'.keymap, id, n) == Over(PointOf(found), Lookup(b.keymap, id, n))
      && Get(b'.home, n) == Over(PointOf(home), Get(b.home, n))
      && Get(b'.tally.shift, n) == Over(TargetOf(LatestKey(rows[0].keys, n)), Get(b.tally.shift, n))
  {
    var keys := rows[0].keys;
    var row := ParseRowKeys(p, b.tally, keys, []).value;
    RowKeysPoint(p, b.tally, keys, [], n);
    RowKeysTarget(p, b.tally, keys, [], n);
    assert Get(row.0, n).Some? <==> n in Keys(row.0);
  }

  /** After the rows, the keymap holds, for an id and a name, the position of the
      last declaration in rows with that id, and is otherwise unchanged. */
  lemma {:induction false} RowsKeymap(p: Policy, b: Builder, rows: seq<RowElem>, id: string, n: string)
    requires ParseRows(p, b, rows).Success?
    ensures Lookup(ParseRows(p, b, rows).value.keymap, id, n) == Over(PointOf(LatestIn(rows, RowId(id), n)), Lookup(b.keymap, id, n))
    decreases |rows|
  {
    if |rows| > 0 {
      RowsStep(p, b, rows);
      var row := ParseRowKeys(p, b.tally, rows[0].keys, []).value;
      RowMerged(p, b, rows, id, n);
      RowsKeymap(p, NextBuilder(b, rows[0].id.value, row.0, row.1), rows[1..], id, n);
      var here := if InScope(RowId(id), rows[0]) then LatestKey(rows[0].keys, n) else None;
      OverPoint(LatestIn(rows[1..], RowId(id), n), here, Lookup(b.keymap, id, n));
    }
  }

  /** After the rows, the home-row map holds, for a name, the position of the last
      declaration in a home row, and is otherwise unchanged. */
  lemma {:induction false} RowsHome(p: Policy, b: Builder, rows: seq<RowElem>, n: string)
    requires ParseRows(p, b, rows).Success?
    ensures Get(ParseRows(p, b, rows).value.home, n) == Over(PointOf(LatestIn(rows, HomeRows, n)), Get(b.home, n))
    decreases |rows|
  {
    if |rows| > 0 {
      RowsStep(p, b, rows);
      var row := ParseRowKeys(p, b.tally, rows[0].keys, []).value;
      RowMerged(p, b, rows, "", n);
      RowsHome(p, NextBuilder(b, rows[0].id.value, row.0, row.1), rows[1..], n);
      var here := if InScope(HomeRows, rows[0]) then LatestKey(rows[0].keys, n) else None;
      OverPoint(LatestIn(rows[1..], HomeRows, n), here, Get(b.home, n));
    }
  }

  /** After the rows, the shift mapping holds, for a name, the target of the last
      declaration in any row, and is otherwise unchanged. */
  lemma {:induction false} RowsShift(p: Policy, b: Builder, rows: seq<RowElem>, n: string)
    requires ParseRows(p, b, rows).Success?
    ensures Get(ParseRows(p, b, rows).value.tally.shift, n) == Over(TargetOf(LatestIn(rows, AnyRow, n)), Get(b.tally.shift, n))
    decreases |rows|
  {
    if |rows| > 0 {
      RowsStep(p, b, rows);
      var row := ParseRowKeys(p, b.tally, rows[0].keys, []).value;
      RowMerged(p, b, rows, "", n);
      RowsShift(p, NextBuilder(b, rows[0].id.value, row.0, row.1), rows[1..], n);
      assert LatestIn(rows, AnyRow, n) == Over(LatestIn(rows[1..], AnyRow, n), LatestKey(rows[0].keys, n));
      OverTarget(LatestIn(rows[1..], AnyRow, n), LatestKey(rows[0].keys, n), Get(b.tally.shift, n));
    }
  }

  /** The parsed layout, entry by entry: a keymap row holds the position of
      the last key declared under that name in rows with that id, the home-row
      map the last one over the home rows, the shift mapping the last shift
      target over all rows. */
  lemma LayoutContent(p: Policy, doc: Document)
    requires GenerateKeymap(p, doc).Success?
    ensures var l := GenerateKeymap(p, doc).value;
      && (forall id, n :: Lookup(l.keymap, id, n) == PointOf(LatestIn(doc.rows, RowId(id), n)))
      && (forall n :: Get(l.homeRow, n) == PointOf(LatestIn(doc.rows, HomeRows, n)))
      && (forall n :: Get(l.shiftMapping, n) == TargetOf(LatestIn(doc.rows, AnyRow, n)))
  {
    var b := InitialBuilder();
    forall id, n ensures Lookup(GenerateKeymap(p, doc).value.keymap, id, n) == PointOf(LatestIn(doc.rows, RowId(id), n)) {
      RowsKeymap(p, b, doc.rows, id, n);
    }
    forall n ensures Get(GenerateKeymap(p, doc).value.homeRow, n) == PointOf(LatestIn(doc.rows, HomeRows, n)) {
      RowsHome(p, b, doc.rows, n);
    }
    forall n ensures Get(GenerateKeymap(p, doc).value.shiftMapping, n) == TargetOf(LatestIn(doc.rows, AnyRow, n)) {
      RowsShift(p, b, doc.rows, n);
    }
  }

  /** The row loop never gives two keymap rows the same id. */
  lemma {:induction false} RowsDistinct(p: Policy, b: Builder, rows: seq<RowElem>)
    requires ParseRows(p, b, rows).Success?
    requires DistinctKeys(b.keymap)
    ensures DistinctKeys(ParseRows(p, b, rows).value.keymap)
    decreases |rows|
  {
    if |rows| > 0 {
      RowsStep(p, b, rows);
      var row := ParseRowKeys(p, b.tally, rows[0].keys, []).value;
      RowsDistinct(p, NextBuilder(b, rows[0].id.value, row.0, row.1), rows[1..]);
    }
  }

  /** A parsed keymap has one row per id. */
  lemma KeymapDistinct(p: Policy, doc: Document)
    requires GenerateKeymap(p, doc).Success?
    ensures DistinctKeys(GenerateKeymap(p, doc).value.keymap)
  {
    RowsDistinct(p, InitialBuilder(), doc.rows);
  }

  lemma FoldedCount(keys: seq<KeyElem>, j: int)
    requires 0 <= j < |keys|
    ensures multiset(Folded(keys))[FoldedName(keys[j])] >= 1
  {
    assert Folded(keys)[j] == FoldedName(keys[j]);
  }

  lemma FoldedCountTwo(keys: seq<KeyElem>, j: int, j': int)
    requires 0 <= j < j' < |keys|
    requires FoldedName(keys[j]) == FoldedName(keys[j'])
    ensures multiset(Folded(keys))[FoldedName(keys[j])] >= 2
  {
    var f := Folded(keys);
    assert f == f[..j] + [f[j]] + f[j + 1..j'] + [f[j']] + f[j' + 1..];
  }

  lemma AllKeysCount(rows: seq<RowElem>, c: string)
    requires |rows| > 0
    ensures multiset(Folded(AllKeys(rows)))[c] ==
            multiset(Folded(rows[0].keys))[c] + multiset(Folded(AllKeys(rows[1..])))[c]
  {
    FoldedConcat(rows[0].keys, AllKeys(rows[1..]));
  }

  lemma CountSplit(rows: seq<RowElem>, c: string, a: nat, b: nat)
    requires |rows| > 0
    requires multiset(Folded(rows[0].keys))[c] >= a
    requires multiset(Folded(AllKeys(rows[1..])))[c] >= b
    ensures multiset(Folded(AllKeys(rows)))[c] >= a + b
  {
    AllKeysCount(rows, c);
  }

  /** Every key's folded name occurs among the document's folded names. */
  lemma {:induction false} KeyInAllKeys(rows: seq<RowElem>, i: int, j: int)
    requires 0 <= i < |rows| && 0 <= j < |rows[i].keys|
    ensures multiset(Folded(AllKeys(rows)))[FoldedName(rows[i].keys[j])] >= 1
    decreases |rows|
  {
    AllKeysCount(rows, FoldedName(rows[i].keys[j]));
    if i == 0 {
      FoldedCount(rows[0].keys, j);
    } else {
      assert rows[1..][i - 1] == rows[i];
      KeyInAllKeys(rows[1..], i - 1, j);
    }
  }

  /** Two different keys of a document with the same folded name make that
      name occur twice among the document's folded names. */
  lemma {:induction false} TwoDefinitions(rows: seq<RowElem>, i: int, j: int, i': int, j': int)
    requires 0 <= i < |rows| && 0 <= j < |rows[i].keys|
    requires 0 <= i' < |rows| && 0 <= j' < |rows[i'].keys|
    requires (i, j) != (i', j')
    requires FoldedName(rows[i].keys[j]) == FoldedName(rows[i'].keys[j'])
    ensures multiset(Folded(AllKeys(rows)))[FoldedName(rows[i].keys[j])] >= 2
    decreases |rows|
  {
    var c := FoldedName(rows[i].keys[j]);
    if i == 0 && i' == 0 {
      if j < j' { FoldedCountTwo(rows[0].keys, j, j'); } else { FoldedCountTwo(rows[0].keys, j', j); }
      CountSplit(rows, c, 2, 0);
    } else if i == 0 {
      FoldedCount(rows[0].keys, j);
      assert rows[1..][i' - 1] == rows[i'];
      KeyInAllKeys(rows[1..], i' - 1, j');
      CountSplit(rows, c, 1, 1);
    } else if i' == 0 {
      FoldedCount(rows[0].keys, j');
      assert rows[1..][i - 1] == rows[i];
      KeyInAllKeys(rows[1..], i - 1, j);
      CountSplit(rows, c, 1, 1);
    } else {
      assert rows[1..][i - 1] == rows[i];
      assert rows[1..][i' - 1] == rows[i'];
      TwoDefinitions(rows[1..], i - 1, j, i' - 1, j');
      CountSplit(rows, c, 0, 2);
    }
  }

  /** Under the corrected test, no two keys of an accepted document share a
      folded name. */
  lemma CorrectedNamesDistinct(doc: Document, i: int, j: int, i': int, j': int)
    requires ParseLayout(doc).Success?
    requires 0 <= i < |doc.rows| && 0 <= j < |doc.rows[i].keys|
    requires 0 <= i' < |doc.rows| && 0 <= j' < |doc.rows[i'].keys|
    requires (i, j) != (i', j')
    ensures FoldedName(doc.rows[i].keys[j]) != FoldedName(doc.rows[i'].keys[j'])
  {
    GenerateKeymapAccepts(Corrected, doc);
    if FoldedName(doc.rows[i].keys[j]) == FoldedName(doc.rows[i'].keys[j']) {
      TwoDefinitions(doc.rows, i, j, i', j');
    }
  }

  lemma DeclNameFolds(key: KeyElem)
    ensures Lower(DeclName(key)) == FoldedName(key)
  {
    if key.lower.Some? {
      LowerIdempotent(key.lower.value);
    }
  }

  /** Under the corrected test, the last declaration of a key's name in any
      scope holding its row is the key itself. */
  lemma CorrectedLatest(doc: Document, scope: Scope, i: int, j: int)
    requires ParseLayout(doc).Success?
    requires 0 <= i < |doc.rows| && 0 <= j < |doc.rows[i].keys|
    requires InScope(scope, doc.rows[i])
    ensures LatestIn(doc.rows, scope, DeclName(doc.rows[i].keys[j])) == Some(doc.rows[i].keys[j])
  {
    var rows := doc.rows;
    var n := DeclName(rows[i].keys[j]);
    LatestInFound(rows, scope, n);
    var i', j' :| 0 <= i' < |rows| && InScope(scope, rows[i']) && 0 <= j' < |rows[i'].keys| &&
                  rows[i'].keys[j'] == LatestIn(rows, scope, n).value && DeclName(rows[i'].keys[j']) == n;
    DeclNameFolds(rows[i].keys[j]);
    DeclNameFolds(rows[i'].keys[j']);
    if (i, j) != (i', j') {
      CorrectedNamesDistinct(doc, i, j, i', j');
    }
  }

  /** With the corrected duplicate test, every key of an accepted document is
      found where the document puts it: its row of the keymap maps its name to
      its position, the shift mapping maps it to its `upper` or its default
      shift, and a key of a home row is in the home-row map at its position. */
  lemma CorrectedLayoutExact(doc: Document, i: int, j: int)
    requires ParseLayout(doc).Success?
    requires 0 <= i < |doc.rows| && 0 <= j < |doc.rows[i].keys|
    ensures var key := doc.rows[i].keys[j];
      var l := ParseLayout(doc).value;
      && KeyValid(key) && doc.rows[i].id.Some?
      && var pos := Some(Point(key.positions[0].x.value, key.positions[0].y.value));
      && Lookup(l.keymap, doc.rows[i].id.value, KeyName(key)) == pos
      && (IsHomeId(doc.rows[i].id.value) ==> Get(l.homeRow, KeyName(key)) == pos)
      && Get(l.shiftMapping, KeyName(key)) == if key.upper.Some? then key.upper else DefaultShift(Lower(key.lower.value))
  {
    var rows := doc.rows;
    GenerateKeymapAccepts(Corrected, doc);
    LayoutContent(Corrected, doc);
    CorrectedLatest(doc, RowId(rows[i].id.value), i, j);
    CorrectedLatest(doc, AnyRow, i, j);
    if IsHomeId(rows[i].id.value) {
      CorrectedLatest(doc, HomeRows, i, j);
    }
  }
}
