/** Line 617 labels every drawn key with `shift_mapping[char.lower()]`, but
    the parser stores a key with an explicit `upper` under its `lower`
    unchanged. A key such as `lower="A" upper="!"` is therefore accepted and
    then fails the label lookup, unless "a" happens to be declared as well.
    Looking up the name the key is stored under never fails. */
module LabelFinding {
  import opened Wrappers
  import opened Assoc
  import opened Text
  import opened LayoutTree
  import opened Keylist
  import opened Keymap
  import opened LayoutFacts
  import opened LayoutContents
  import opened Normalize

  /** Every name in a parsed keymap was declared by some key of the document. */
  lemma KeymapNameDeclared(p: Policy, doc: Document, k: int)
    requires GenerateKeymap(p, doc).Success?
    requires 0 <= k < |Entries(GenerateKeymap(p, doc).value.keymap)|
    ensures var n := Entries(GenerateKeymap(p, doc).value.keymap)[k].0;
      exists i, j :: 0 <= i < |doc.rows| && 0 <= j < |doc.rows[i].keys| && DeclName(doc.rows[i].keys[j]) == n
  {
    var keymap := GenerateKeymap(p, doc).value.keymap;
    var e := Entries(keymap)[k];
    var r := EntryInRow(keymap, k);
    var row := keymap[r].1;
    var j :| 0 <= j < |row| && row[j] == e;
    assert Keys(row)[j] == e.0;
    KeymapDistinct(p, doc);
    GetSlot(keymap, r);
    assert Lookup(keymap, keymap[r].0, e.0).Some?;
    LayoutContent(p, doc);
    LatestInFound(doc.rows, RowId(keymap[r].0), e.0);
  }

  /** Every name in a parsed keymap has a shift-mapping entry of its own. */
  lemma KeymapNameShifts(p: Policy, doc: Document, k: int)
    requires GenerateKeymap(p, doc).Success?
    requires 0 <= k < |Entries(GenerateKeymap(p, doc).value.keymap)|
    ensures var l := GenerateKeymap(p, doc).value;
      Entries(l.keymap)[k].0 in Keys(l.shiftMapping)
  {
    var l := GenerateKeymap(p, doc).value;
    var n := Entries(l.keymap)[k].0;
    KeymapNameDeclared(p, doc, k);
    LatestInFound(doc.rows, AnyRow, n);
    LayoutContent(p, doc);
    assert Get(l.shiftMapping, n).Some?;
  }

  /** Labelling by the stored name, every parsed layout is drawn. */
  lemma OwnLabelsDraw(p: Policy, doc: Document)
    requires GenerateKeymap(p, doc).Success?
    ensures var l := GenerateKeymap(p, doc).value;
      DrawKeys(OwnLabel, l.keymap, l.shiftMapping) == Success(Draw(l.keymap))
  {
    var l := GenerateKeymap(p, doc).value;
    forall k | 0 <= k < |Entries(l.keymap)| ensures Labelled(OwnLabel, Entries(l.keymap)[k].0, l.shiftMapping) {
      KeymapNameShifts(p, doc, k);
    }
    DrawKeysLabels(OwnLabel, l.keymap, l.shiftMapping);
  }

  /** A home row holding one key, `lower="A" upper="!"`, at (0, 0). */
  function UpperA(): Document {
    Document(KeyboardTag, [RowElem(Some("home"), [KeyElem(Some("A"), Some("!"), [PosElem(Some(0.0), Some(0.0))])])])
  }

  lemma UpperAFolds()
    ensures Lower("A") == "a"
    ensures !Contains("a", "shift")
  {
    assert LowerChar('A') == 'a';
    ContainsPiece("a", "shift");
  }

  lemma UpperAValid()
    ensures RowsValid(UpperA().rows)
    ensures Folded(AllKeys(UpperA().rows)) == ["a"]
  {
    UpperAFolds();
    var key := UpperA().rows[0].keys[0];
    assert 'a' in AsciiLowercase;
    assert Allowed("a");
    assert ShiftOk(key);
    assert KeyValid(key);
    assert AllKeys(UpperA().rows[1..]) == [];
    assert AllKeys(UpperA().rows) == [key];
  }

  lemma UpperAAcceptable()
    ensures Acceptable(Corrected, UpperA())
  {
    UpperAValid();
    assert IsHomeId("home") by { assert Lower("home") == "home"; }
    assert HasHomeKeys(UpperA().rows);
  }

  /** The only name the document declares is "A". */
  lemma UpperANames(n: string)
    requires exists i, j :: 0 <= i < |UpperA().rows| && 0 <= j < |UpperA().rows[i].keys| && DeclName(UpperA().rows[i].keys[j]) == n
    ensures n == "A"
  {
  }

  /** "a" itself has no shift-mapping entry. */
  lemma UpperANoFoldedEntry()
    requires ParseLayout(UpperA()).Success?
    ensures "a" !in Keys(ParseLayout(UpperA()).value.shiftMapping)
  {
    var rows := UpperA().rows;
    var l := ParseLayout(UpperA()).value;
    assert Get(l.shiftMapping, "a") == TargetOf(LatestIn(rows, AnyRow, "a")) by {
      LayoutContent(Corrected, UpperA());
    }
    assert LatestIn(rows, AnyRow, "a").None? by {
      LatestInFound(rows, AnyRow, "a");
      if exists i, j :: 0 <= i < |rows| && 0 <= j < |rows[i].keys| && DeclName(rows[i].keys[j]) == "a" {
        UpperANames("a");
      }
    }
  }

  /** The keymap of the document draws a key named "A". */
  lemma UpperADrawn()
    requires ParseLayout(UpperA()).Success?
    ensures exists k :: EntryNamed(Entries(ParseLayout(UpperA()).value.keymap), k, "A")
  {
    var l := ParseLayout(UpperA()).value;
    LayoutContent(Corrected, UpperA());
    UpperAFolds();
    var rows := UpperA().rows;
    assert DeclName(rows[0].keys[0]) == "A";
    assert InScope(RowId("home"), rows[0]);
    LatestInFound(rows, RowId("home"), "A");
    assert Lookup(l.keymap, "home", "A").Some?;
    var row := Get(l.keymap, "home").value;
    assert ("home", row) in l.keymap;
    var r :| 0 <= r < |l.keymap| && l.keymap[r] == ("home", row);
    assert "A" in Keys(row);
    var j :| 0 <= j < |row| && Keys(row)[j] == "A";
    var k := RowInEntries(l.keymap, r, j);
    assert EntryNamed(Entries(l.keymap), k, "A");
  }

  /** As written: the document is accepted, and drawing it fails on the label
      of "A". */
  lemma FoldedLabelFails()
    ensures ParseLayout(UpperA()).Success?
    ensures var l := ParseLayout(UpperA()).value;
      DrawKeys(FoldedLabel, l.keymap, l.shiftMapping) == Failure(MissingShiftLabel("A"))
  {
    UpperAAcceptable();
    GenerateKeymapAccepts(Corrected, UpperA());
    var l := ParseLayout(UpperA()).value;
    UpperAFolds();
    UpperANoFoldedEntry();
    UpperADrawn();
    DrawKeysLabels(FoldedLabel, l.keymap, l.shiftMapping);
    var k :| EntryNamed(Entries(l.keymap), k, "A");
    assert !Labelled(FoldedLabel, Entries(l.keymap)[k].0, l.shiftMapping);
    var n := DrawKeys(FoldedLabel, l.keymap, l.shiftMapping).error.name;
    var k' :| EntryNamed(Entries(l.keymap), k', n);
    KeymapNameDeclared(Corrected, UpperA(), k');
    UpperANames(n);
  }
}
