/** The pieces of Python's string handling that the layout parser relies on:
    the `string` module's character classes, `str.lower()` and the substring
    test `needle in hay`. */
module Text {

  /** The characters from `lo` to `hi`, in code order. */
  function CharRange(lo: char, hi: char): (r: string)
    requires lo <= hi && hi as int < 0xD800
    ensures |r| == hi as int - lo as int + 1
    ensures forall i :: 0 <= i < |r| ==> r[i] as int == lo as int + i
    ensures forall c :: c in r <==> lo <= c <= hi
  {
    var r := seq(hi as int - lo as int + 1, i requires 0 <= i <= hi as int - lo as int => (lo as int + i) as char);
    forall c | lo <= c <= hi ensures c in r {
      assert r[c as int - lo as int] == c;
    }
    r
  }

  const AsciiLowercase: string := CharRange('a', 'z')
  const AsciiUppercase: string := CharRange('A', 'Z')
  const Digits: string := CharRange('0', '9')
  /** The visible ASCII characters that are neither letters nor digits, as
      four runs of codes. */
  const Punctuation: string := CharRange('!', '/') + CharRange(':', '@') + CharRange('[', '`') + CharRange('{', '~')
  const Whitespace: string := " \t\n\r\U{B}\U{C}"

  /** `string.printable`, in Python's order. */
  const Printable: string := Digits + AsciiLowercase + AsciiUppercase + Punctuation + Whitespace

  /** The Kelvin sign, U+212A, whose lower case is the ASCII letter `k`. */
  const KelvinSign: char := '\U{212A}'

  /** `c.lower()` for one character, as far as it can matter here: the ASCII
      letters and the Kelvin sign, the one character outside ASCII that Python
      lowers to an ASCII string. Every other character is kept. */
  function LowerChar(c: char): char {
    if 'A' <= c <= 'Z' then (c as int + 32) as char
    else if c == KelvinSign then 'k'
    else c
  }

  /** `s.lower()`. */
  function Lower(s: string): (r: string)
    ensures |r| == |s|
    ensures forall i :: 0 <= i < |s| ==> r[i] == LowerChar(s[i])
  {
    seq(|s|, i requires 0 <= i < |s| => LowerChar(s[i]))
  }

  /** Lowering twice is lowering once. */
  lemma LowerIdempotent(s: string)
    ensures Lower(Lower(s)) == Lower(s)
  {
  }

  /** Python's `needle in hay` for strings: `needle` occurs as a contiguous
      piece of `hay` (the empty string occurs in every string). */
  predicate Contains(hay: string, needle: string)
    decreases |hay|
  {
    needle <= hay || (|hay| > 0 && Contains(hay[1..], needle))
  }

  /** `needle` occurs in `hay` starting at index `i`. */
  predicate PieceAt(hay: string, needle: string, i: int) {
    0 <= i <= |hay| - |needle| && hay[i..i + |needle|] == needle
  }

  /** `Contains` finds exactly the contiguous pieces of `hay`. */
  lemma ContainsPiece(hay: string, needle: string)
    ensures Contains(hay, needle) <==>
            exists i :: PieceAt(hay, needle, i)
  {
    if Contains(hay, needle) {
      var i := ContainedPiece(hay, needle);
    }
    if exists i :: PieceAt(hay, needle, i) {
      var i :| PieceAt(hay, needle, i);
      PieceContained(hay, needle, i);
    }
  }

  /** A piece anywhere in `hay` is found by the scan. */
  lemma {:induction false} PieceContained(hay: string, needle: string, i: int)
    requires PieceAt(hay, needle, i)
    ensures Contains(hay, needle)
    decreases i
  {
    if i == 0 {
      assert hay[..|needle|] == needle;
    } else {
      assert hay[1..][i - 1..i - 1 + |needle|] == hay[i..i + |needle|];
      PieceContained(hay[1..], needle, i - 1);
    }
  }

  /** The scan stops at a piece of `hay`. */
  lemma {:induction false} ContainedPiece(hay: string, needle: string) returns (i: int)
    requires Contains(hay, needle)
    ensures PieceAt(hay, needle, i)
    decreases |hay|
  {
    if needle <= hay {
      i := 0;
      assert hay[0..|needle|] == needle;
    } else {
      var j := ContainedPiece(hay[1..], needle);
      i := j + 1;
      assert hay[i..i + |needle|] == hay[1..][j..j + |needle|];
    }
  }

  /** A one-character needle is contained exactly when the character occurs. */
  lemma ContainsChar(hay: string, c: char)
    ensures Contains(hay, [c]) <==> c in hay
  {
    ContainsPiece(hay, [c]);
    if c in hay {
      var i :| 0 <= i < |hay| && hay[i] == c;
      assert hay[i..i + 1] == [c];
      assert PieceAt(hay, [c], i);
    }
    if Contains(hay, [c]) {
      var i :| PieceAt(hay, [c], i);
      assert hay[i] == hay[i..i + 1][0];
    }
  }
}
