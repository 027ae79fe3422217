/** The parsed layout document and the accessors the parser reads it through.

    A layout file is a `kbd` element holding `row` elements (attribute `id`),
    which hold `key` elements (attributes `lower` and `upper`), which hold
    `pos` elements with `x` and `y` children. The tree here is the document
    after XML parsing, with each `x`/`y` leaf already read as a number (or
    absent when the child element is missing). */
module LayoutTree {
  import opened Wrappers

  /** A coordinate pair `(x, y)`. */
  datatype Point = Point(x: real, y: real)

  datatype PosElem = PosElem(x: Option<real>, y: Option<real>)

  datatype KeyElem = KeyElem(lower: Option<string>, upper: Option<string>, positions: seq<PosElem>)

  datatype RowElem = RowElem(id: Option<string>, keys: seq<KeyElem>)

  datatype Document = Document(tag: string, rows: seq<RowElem>)

  /** Everything that makes the layout parser give up. */
  datatype ParseError =
    | WrongRootTag(tag: string)
    | MissingLower
    | InvalidCharacter(lower: string)
    | UnreportableCharacter(lower: string)  // the invalid-character message could not be built
    | DuplicateKey(lower: string)
    | ShiftSelfMapping(lower: string)
    | NoDefaultShift(lower: string)
    | MissingPosition
    | MissingX
    | MissingY
    | MissingRowId
    | MissingHomeRow

  const KeyboardTag: string := "kbd"

  /** `get_rows`: the rows of the document, provided the root is a `kbd`
      element. */
  function GetRows(doc: Document): (r: Result<seq<RowElem>, ParseError>)
    ensures r.Success? <==> doc.tag == KeyboardTag
    ensures r.Success? ==> r.value == doc.rows
    ensures r.Failure? ==> r.error == WrongRootTag(doc.tag)
  {
    if doc.tag != KeyboardTag then Failure(WrongRootTag(doc.tag)) else Success(doc.rows)
  }

  /** `get_positions`: the first `pos` child; later ones are ignored and a key
      without one fails (indexing an empty `findall` result). */
  function GetPosition(key: KeyElem): Result<PosElem, ParseError> {
    if |key.positions| == 0 then Failure(MissingPosition) else Success(key.positions[0])
  }

  /** `get_x`. */
  function GetX(pos: PosElem): Result<real, ParseError> {
    pos.x.ToResult(MissingX)
  }

  /** `get_y`. */
  function GetY(pos: PosElem): Result<real, ParseError> {
    pos.y.ToResult(MissingY)
  }

  /** The key's first `pos` element has a child, whose text the
      invalid-character message quotes; without one, building that message
      fails (subscripting `None` when there is no `pos`, an index error when
      the `pos` is empty). */
  predicate HasPositionText(key: KeyElem) {
    |key.positions| > 0 && (key.positions[0].x.Some? || key.positions[0].y.Some?)
  }

  /** A key whose declared position can be read. */
  predicate PositionOk(key: KeyElem) {
    |key.positions| > 0 && key.positions[0].x.Some? && key.positions[0].y.Some?
  }

  /** The raw position of a key, `(get_x(p), get_y(p))` for `p = get_positions(key)`. */
  function RawPosition(key: KeyElem): (r: Result<Point, ParseError>)
    ensures r.Success? <==> PositionOk(key)
    ensures r.Success? ==> r.value == Point(key.positions[0].x.value, key.positions[0].y.value)
    ensures |key.positions| == 0 ==> r == Failure(MissingPosition)
    ensures |key.positions| > 0 && key.positions[0].x.None? ==> r == Failure(MissingX)
    ensures |key.positions| > 0 && key.positions[0].x.Some? && key.positions[0].y.None? ==> r == Failure(MissingY)
  {
    var pos :- GetPosition(key);
    var x :- GetX(pos);
    var y :- GetY(pos);
    Success(Point(x, y))
  }
}
