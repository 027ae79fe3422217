/** What a successful parse of a layout document guarantees, and exactly
    which documents parse. */
module LayoutFacts {
  import opened Wrappers
  import opened Assoc
  import opened Text
  import opened LayoutTree
  import opened Keylist
  import opened Keymap

  /** Every key of the document, in reading order. */
  function AllKeys(rows: seq<RowElem>): seq<KeyElem> {
    if |rows| == 0 then [] else rows[0].keys + AllKeys(rows[1..])
  }

  /** The counter entry a key increments: its `lower`, case-folded. */
  function FoldedName(key: KeyElem): string {
    if key.lower.Some? then Lower(key.lower.value) else ""
  }

  function Folded(keys: seq<KeyElem>): (r: seq<string>)
    ensures |r| == |keys|
    ensures forall j :: 0 <= j < |keys| ==> r[j] == FoldedName(keys[j])
  {
    seq(|keys|, j requires 0 <= j < |keys| => FoldedName(keys[j]))
  }

  /** How many definitions of one character a policy admits: the source's
      test lets two through, the corrected one a single one. */
  function MaxDefinitions(p: Policy): nat {
    Threshold(p) + 1
  }

  /** Everything about one key that is checked without looking at other keys. */
  predicate KeyValid(key: KeyElem) {
    key.lower.Some? && Allowed(Lower(key.lower.value)) && ShiftOk(key) && PositionOk(key)
  }

  predicate RowsValid(rows: seq<RowElem>) {
    && (forall i :: 0 <= i < |rows| ==> rows[i].id.Some?)
    && (forall i, j :: 0 <= i < |rows| && 0 <= j < |rows[i].keys| ==> KeyValid(rows[i].keys[j]))
  }

  /** Some row whose id folds to "home" declares at least one key. */
  predicate HasHomeKeys(rows: seq<RowElem>) {
    exists i :: 0 <= i < |rows| && rows[i].id.Some? && IsHomeId(rows[i].id.value) && |rows[i].keys| > 0
  }

  /** The documents the parser accepts under a policy, described without
      running it. */
  ghost predicate Acceptable(p: Policy, doc: Document) {
    && doc.tag == KeyboardTag
    && RowsValid(doc.rows)
    && HasHomeKeys(doc.rows)
    && forall c :: multiset(Folded(AllKeys(doc.rows)))[c] <= MaxDefinitions(p)
  }

  /** The counters agree with the names counted so far. */
  ghost predicate Tracks(counts: map<string, nat>, seen: seq<string>) {
    && (forall s :: s in counts <==> Allowed(s))
    && (forall s :: s in counts ==> counts[s] == multiset(seen)[s])
  }

  /** Reading `names` after `seen`, no counter is found above the threshold. */
  predicate FitsAfter(p: Policy, seen: seq<string>, names: seq<string>)
    decreases |names|
  {
    |names| == 0 || (multiset(seen)[names[0]] <= Threshold(p) && FitsAfter(p, seen + [names[0]], names[1..]))
  }

  lemma FoldedConcat(a: seq<KeyElem>, b: seq<KeyElem>)
    ensures Folded(a + b) == Folded(a) + Folded(b)
  {
  }

  lemma {:induction false} FitsAfterConcat(p: Policy, seen: seq<string>, a: seq<string>, b: seq<string>)
    ensures FitsAfter(p, seen, a + b) <==> FitsAfter(p, seen, a) && FitsAfter(p, seen + a, b)
    decreases |a|
  {
    if |a| == 0 {
      assert a + b == b;
      assert seen + a == seen;
    } else {
      assert (a + b)[0] == a[0];
      assert (a + b)[1..] == a[1..] + b;
      FitsAfterConcat(p, seen + [a[0]], a[1..], b);
      assert seen + [a[0]] + a[1..] == seen + a;
    }
  }

  /** Stepwise counting agrees with a bound on the final counts. */
  lemma {:induction false} FitsAfterCounts(p: Policy, seen: seq<string>, names: seq<string>)
    requires forall c :: multiset(seen)[c] <= MaxDefinitions(p)
    ensures FitsAfter(p, seen, names) <==> forall c :: multiset(seen + names)[c] <= MaxDefinitions(p)
    decreases |names|
  {
    if |names| == 0 {
      assert seen + names == seen;
    } else {
      var a := names[0];
      assert seen + names == (seen + [a]) + names[1..];
      if multiset(seen)[a] <= Threshold(p) {
        FitsAfterCounts(p, seen + [a], names[1..]);
      } else {
        assert names == [a] + names[1..];
        assert multiset(seen + names)[a] == multiset(seen)[a] + multiset(names)[a];
      }
    }
  }

  /** At most one occurrence of every name is the same as no name repeating. */
  lemma {:induction false} AtMostOnce(names: seq<string>)
    ensures (forall c :: multiset(names)[c] <= 1) <==>
            (forall i, j :: 0 <= i < j < |names| ==> names[i] != names[j])
  {
    if forall c :: multiset(names)[c] <= 1 {
      forall i, j | 0 <= i < j < |names| ensures names[i] != names[j] {
        Occurrences(names, i, j);
      }
    }
    if forall i, j :: 0 <= i < j < |names| ==> names[i] != names[j] {
      if |names| > 0 {
        AtMostOnce(names[1..]);
        assert names == [names[0]] + names[1..];
        assert names[0] !in names[1..];
      }
    }
  }

  /** A name occurs at slot `i`, and once more if slot `j` holds it too. */
  lemma Occurrences(names: seq<string>, i: int, j: int)
    requires 0 <= i < j < |names|
    ensures multiset(names)[names[i]] >= 1 + (if names[j] == names[i] then 1 else 0)
  {
    var c := names[i];
    assert names == names[..j] + [names[j]] + names[j + 1..];
    assert names[..j][i] == c;
    assert c in multiset(names[..j]);
  }

  lemma ParseKeyAccepts(p: Policy, t: Tally, key: KeyElem, seen: seq<string>)
    requires Tracks(t.counts, seen)
    ensures ParseKey(p, t, key).Success? <==> KeyValid(key) && multiset(seen)[FoldedName(key)] <= Threshold(p)
    ensures ParseKey(p, t, key).Success? ==> Tracks(ParseKey(p, t, key).value.2.counts, seen + [FoldedName(key)])
  {
  }

  /** One step of the row loop, unfolded. */
  lemma RowKeysStep(p: Policy, t: Tally, keys: seq<KeyElem>, rowMap: RowMap)
    requires DistinctKeys(rowMap)
    requires |keys| > 0
    ensures var step := ParseKey(p, t, keys[0]);
      && (step.Failure? ==> ParseRowKeys(p, t, keys, rowMap).Failure?)
      && (step.Success? ==>
            ParseRowKeys(p, t, keys, rowMap) ==
            ParseRowKeys(p, step.value.2, keys[1..], Put(rowMap, step.value.0, step.value.1)))
  {
  }

  lemma AllValidCons(keys: seq<KeyElem>)
    requires |keys| > 0
    ensures (forall j :: 0 <= j < |keys| ==> KeyValid(keys[j])) <==>
            KeyValid(keys[0]) && forall j :: 0 <= j < |keys[1..]| ==> KeyValid(keys[1..][j])
  {
    AllCons(keys, KeyValid);
  }

  /** A property holds along a non-empty sequence exactly when it holds for
      the head and along the tail. */
  lemma AllCons<T>(s: seq<T>, good: T -> bool)
    requires |s| > 0
    ensures (forall j :: 0 <= j < |s| ==> good(s[j])) <==>
            good(s[0]) && forall j :: 0 <= j < |s[1..]| ==> good(s[1..][j])
  {
    assert forall j :: 0 < j < |s| ==> s[j] == s[1..][j - 1];
  }

  lemma FitsAfterCons(p: Policy, seen: seq<string>, keys: seq<KeyElem>)
    requires |keys| > 0
    ensures FitsAfter(p, seen, Folded(keys)) <==>
            multiset(seen)[FoldedName(keys[0])] <= Threshold(p) && FitsAfter(p, seen + [FoldedName(keys[0])], Folded(keys[1..]))
    ensures seen + [FoldedName(keys[0])] + Folded(keys[1..]) == seen + Folded(keys)
  {
    assert Folded(keys) == [FoldedName(keys[0])] + Folded(keys[1..]);
  }

  /** The keys of one row parse exactly when each is valid and the counters
      stay within the policy, and the counters then count them. */
  lemma {:induction false} RowKeysAccept(p: Policy, t: Tally, keys: seq<KeyElem>, rowMap: RowMap, seen: seq<string>)
    requires Tracks(t.counts, seen)
    requires DistinctKeys(rowMap)
    ensures var r := ParseRowKeys(p, t, keys, rowMap);
      && (r.Success? <==> (forall j :: 0 <= j < |keys| ==> KeyValid(keys[j])) && FitsAfter(p, seen, Folded(keys)))
      && (r.Success? ==> Tracks(r.value.1.counts, seen + Folded(keys)))
    decreases |keys|
  {
    if |keys| == 0 {
      assert seen + Folded(keys) == seen;
    } else {
      ParseKeyAccepts(p, t, keys[0], seen);
      RowKeysStep(p, t, keys, rowMap);
      AllValidCons(keys);
      FitsAfterCons(p, seen, keys);
      var step := ParseKey(p, t, keys[0]);
      if step.Success? {
        var s := step.value;
        RowKeysAccept(p, s.2, keys[1..], Put(rowMap, s.0, s.1), seen + [FoldedName(keys[0])]);
      }
    }
  }

  lemma RowsValidCons(rows: seq<RowElem>)
    requires |rows| > 0
    ensures RowsValid(rows) <==>
              && rows[0].id.Some?
              && (forall j :: 0 <= j < |rows[0].keys| ==> KeyValid(rows[0].keys[j]))
              && RowsValid(rows[1..])
  {
    assert forall i :: 0 < i < |rows| ==> rows[i] == rows[1..][i - 1];
  }

  lemma HasHomeKeysCons(rows: seq<RowElem>)
    requires |rows| > 0
    ensures HasHomeKeys(rows) <==>
              (rows[0].id.Some? && IsHomeId(rows[0].id.value) && |rows[0].keys| > 0) || HasHomeKeys(rows[1..])
  {
    if HasHomeKeys(rows[1..]) {
      var i :| 0 <= i < |rows[1..]| && rows[1..][i].id.Some? && IsHomeId(rows[1..][i].id.value) && |rows[1..][i].keys| > 0;
      assert rows[i + 1] == rows[1..][i];
    }
    if HasHomeKeys(rows) && !(rows[0].id.Some? && IsHomeId(rows[0].id.value) && |rows[0].keys| > 0) {
      var i :| 0 <= i < |rows| && rows[i].id.Some? && IsHomeId(rows[i].id.value) && |rows[i].keys| > 0;
      assert rows[1..][i - 1] == rows[i];
    }
  }

  /** A parsed row map is empty exactly when the row declared no keys. */
  lemma {:induction false} RowKeysNonEmpty(p: Policy, t: Tally, keys: seq<KeyElem>, rowMap: RowMap)
    requires DistinctKeys(rowMap)
    requires ParseRowKeys(p, t, keys, rowMap).Success?
    ensures |ParseRowKeys(p, t, keys, rowMap).value.0| > 0 <==> |rowMap| > 0 || |keys| > 0
    decreases |keys|
  {
    if |keys| > 0 {
      var s := ParseKey(p, t, keys[0]).value;
      var rowMap' := Put(rowMap, s.0, s.1);
      assert s.0 in Keys(rowMap');
      RowKeysNonEmpty(p, s.2, keys[1..], rowMap');
    }
  }

  /** Merging keeps the home-row map non-empty and makes it non-empty when the
      merged row is a non-empty home row. */
  lemma MergeHomeNonEmpty(home: RowMap, id: string, rowMap: RowMap)
    requires DistinctKeys(rowMap)
    ensures |MergeHome(home, id, rowMap)| > 0 <==> |home| > 0 || (IsHomeId(id) && |rowMap| > 0)
  {
    var r := MergeHome(home, id, rowMap);
    if |home| > 0 {
      assert Get(home, home[0].0).Some?;
      assert Get(r, home[0].0).Some?;
    }
    if IsHomeId(id) && |rowMap| > 0 {
      assert Get(r, rowMap[0].0).Some?;
    }
    if |r| > 0 {
      assert Get(r, r[0].0).Some?;
    }
  }

  /** The builder after one row has been merged. */
  function NextBuilder(b: Builder, id: string, rowMap: RowMap, t: Tally): Builder
    requires DistinctKeys(rowMap)
  {
    Builder(t, MergeRow(b.keymap, id, rowMap), MergeHome(b.home, id, rowMap))
  }

  /** One step of the row loop, unfolded. */
  lemma RowsStep(p: Policy, b: Builder, rows: seq<RowElem>)
    requires |rows| > 0
    ensures var row := ParseRowKeys(p, b.tally, rows[0].keys, []);
      && (row.Failure? || rows[0].id.None? ==> ParseRows(p, b, rows).Failure?)
      && (row.Success? && rows[0].id.Some? ==>
            ParseRows(p, b, rows) ==
            ParseRows(p, NextBuilder(b, rows[0].id.value, row.value.0, row.value.1), rows[1..]))
  {
  }

  lemma FoldedAllKeysCons(p: Policy, seen: seq<string>, rows: seq<RowElem>)
    requires |rows| > 0
    ensures FitsAfter(p, seen, Folded(AllKeys(rows))) <==>
            FitsAfter(p, seen, Folded(rows[0].keys)) && FitsAfter(p, seen + Folded(rows[0].keys), Folded(AllKeys(rows[1..])))
    ensures seen + Folded(rows[0].keys) + Folded(AllKeys(rows[1..])) == seen + Folded(AllKeys(rows))
  {
    FoldedConcat(rows[0].keys, AllKeys(rows[1..]));
    FitsAfterConcat(p, seen, Folded(rows[0].keys), Folded(AllKeys(rows[1..])));
  }

  /** The rows parse exactly when every row and key is valid and the counters
      stay within the policy; the home-row map then ends up non-empty exactly
      when it was non-empty or some home row declares a key. */
  lemma {:induction false} RowsAccept(p: Policy, b: Builder, rows: seq<RowElem>, seen: seq<string>)
    requires Tracks(b.tally.counts, seen)
    ensures var r := ParseRows(p, b, rows);
      && (r.Success? <==> RowsValid(rows) && FitsAfter(p, seen, Folded(AllKeys(rows))))
      && (r.Success? ==> Tracks(r.value.tally.counts, seen + Folded(AllKeys(rows))))
      && (r.Success? ==> (|r.value.home| > 0 <==> |b.home| > 0 || HasHomeKeys(rows)))
    decreases |rows|
  {
    if |rows| == 0 {
      assert seen + Folded(AllKeys(rows)) == seen;
    } else {
      var keys := rows[0].keys;
      var row := ParseRowKeys(p, b.tally, keys, []);
      RowKeysAccept(p, b.tally, keys, [], seen);
      RowsStep(p, b, rows);
      RowsValidCons(rows);
      HasHomeKeysCons(rows);
      FoldedAllKeysCons(p, seen, rows);
      if row.Success? && rows[0].id.Some? {
        var id := rows[0].id.value;
        RowKeysNonEmpty(p, b.tally, keys, []);
        MergeHomeNonEmpty(b.home, id, row.value.0);
        RowsAccept(p, NextBuilder(b, id, row.value.0, row.value.1), rows[1..], seen + Folded(keys));
      }
    }
  }

  /** Exactly the acceptable documents parse: a `kbd` root, every row with an
      id, every key valid, no character defined more often than the policy
      admits, and a home row with at least one key. */
  lemma GenerateKeymapAccepts(p: Policy, doc: Document)
    ensures GenerateKeymap(p, doc).Success? <==> Acceptable(p, doc)
  {
    if doc.tag == KeyboardTag {
      var b := InitialBuilder();
      assert Tracks(b.tally.counts, []);
      RowsAccept(p, b, doc.rows, []);
      FitsAfterCounts(p, [], Folded(AllKeys(doc.rows)));
      assert [] + Folded(AllKeys(doc.rows)) == Folded(AllKeys(doc.rows));
    }
  }

  /** With the corrected duplicate test, an accepted layout never defines the
      same (case-folded) character twice. */
  lemma CorrectedKeysUnique(doc: Document)
    requires ParseLayout(doc).Success?
    ensures var names := Folded(AllKeys(doc.rows));
      forall i, j :: 0 <= i < j < |names| ==> names[i] != names[j]
  {
    GenerateKeymapAccepts(Corrected, doc);
    AtMostOnce(Folded(AllKeys(doc.rows)));
  }

  /** As written, an accepted layout defines each (case-folded) character at
      most twice. */
  lemma AsWrittenAtMostTwice(doc: Document)
    requires GenerateKeymap(AsWritten, doc).Success?
    ensures forall c :: multiset(Folded(AllKeys(doc.rows)))[c] <= 2
  {
    GenerateKeymapAccepts(AsWritten, doc);
  }
}
