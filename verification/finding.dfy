/** The duplicate-definition test of `__generate_keylist` compares the counter
    with 1 instead of 0, so a character may be defined twice; the second
    definition silently replaces the first. */
module DuplicateFinding {
  import opened Wrappers
  import opened Assoc
  import opened Text
  import opened LayoutTree
  import opened Keylist
  import opened Keymap
  import opened LayoutFacts
  import opened LayoutContents

  /** A key `a` with no `upper`, at (x, 0). */
  function KeyA(x: real): KeyElem {
    KeyElem(Some("a"), None, [PosElem(Some(x), Some(0.0))])
  }

  /** A layout whose home row defines `a` twice. */
  function TwiceA(): Document {
    Document(KeyboardTag, [RowElem(Some("home"), [KeyA(0.0), KeyA(1.0)])])
  }

  lemma LowerA()
    ensures Lower("a") == "a"
  {
    assert LowerChar('a') == 'a';
  }

  lemma NotUpperA()
    ensures !Contains(AsciiUppercase, "a")
  {
    ContainsChar(AsciiUppercase, 'a');
  }

  lemma AllowedA()
    ensures Allowed("a") && DefaultShift("a").Some?
  {
    DefaultShiftLetter('a');
    DefaultShiftDomain("a");
  }

  lemma KeyAValid(x: real)
    ensures KeyValid(KeyA(x)) && FoldedName(KeyA(x)) == "a"
  {
    var key := KeyA(x);
    assert Allowed(Lower("a")) by {
      LowerA();
      AllowedA();
    }
    assert ShiftOk(key) by {
      LowerA();
      NotUpperA();
      AllowedA();
    }
    assert PositionOk(key);
    assert FoldedName(key) == "a" by {
      LowerA();
    }
  }

  lemma TwiceANames()
    ensures Folded(AllKeys(TwiceA().rows)) == ["a", "a"]
  {
    var rows := TwiceA().rows;
    var keys := [KeyA(0.0), KeyA(1.0)];
    assert AllKeys(rows) == keys by {
      assert AllKeys(rows[1..]) == [];
    }
    assert FoldedName(KeyA(0.0)) == "a" && FoldedName(KeyA(1.0)) == "a" by {
      LowerA();
    }
  }

  lemma TwiceAValid()
    ensures RowsValid(TwiceA().rows)
  {
    var rows := TwiceA().rows;
    forall i, j | 0 <= i < |rows| && 0 <= j < |rows[i].keys| ensures KeyValid(rows[i].keys[j]) {
      assert rows[i].keys[j] == KeyA(j as real);
      KeyAValid(j as real);
    }
  }

  lemma TwiceAHome()
    ensures HasHomeKeys(TwiceA().rows)
  {
    assert IsHomeId("home") by { assert Lower("home") == "home"; }
    assert TwiceA().rows[0].id.Some?;
  }

  lemma TwiceACounts()
    ensures forall c :: multiset(Folded(AllKeys(TwiceA().rows)))[c] <= 2
  {
    TwiceANames();
  }

  lemma TwiceAAcceptable()
    ensures Acceptable(AsWritten, TwiceA())
  {
    TwiceAValid();
    TwiceAHome();
    TwiceACounts();
  }

  /** As written, the document is accepted, and the home-row map keeps only
      the second position of `a`. */
  lemma AsWrittenAcceptsTwice()
    ensures GenerateKeymap(AsWritten, TwiceA()).Success?
    ensures Get(GenerateKeymap(AsWritten, TwiceA()).value.homeRow, "a") == Some(Point(1.0, 0.0))
  {
    var doc := TwiceA();
    TwiceAAcceptable();
    GenerateKeymapAccepts(AsWritten, doc);
    LayoutContent(AsWritten, doc);
    TwiceALatest();
  }

  lemma TwiceALatest()
    ensures LatestIn(TwiceA().rows, HomeRows, "a") == Some(KeyA(1.0))
  {
    var rows := TwiceA().rows;
    var keys := rows[0].keys;
    LowerA();
    assert DeclName(KeyA(1.0)) == "a";
    assert keys[1..][1..] == [];
    assert LatestKey(keys[1..], "a") == Some(KeyA(1.0));
    assert LatestKey(keys, "a") == Some(KeyA(1.0));
    assert InScope(HomeRows, rows[0]) by { assert Lower("home") == "home"; }
    assert rows[1..] == [];
  }

  /** With the corrected test the same document is rejected. */
  lemma CorrectedRejectsTwice()
    ensures ParseLayout(TwiceA()).Failure?
  {
    TwiceANames();
    assert multiset(["a", "a"])["a"] == 2;
    GenerateKeymapAccepts(Corrected, TwiceA());
  }
}
