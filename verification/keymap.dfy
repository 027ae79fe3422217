/** Construction of the keymap from a parsed layout document
    (`xmlParser.__generate_keymap`): rows are read in order, every key is
    validated and placed, fragments of a row that share an id are merged,
    and the rows whose id is "home" (in any case) feed the home-row map. */
module Keymap {
  import opened Wrappers
  import opened Assoc
  import opened Text
  import opened LayoutTree
  import opened Keylist

  /** One row of the keymap: key name to raw position. */
  type RowMap = Assoc<string, Point>

  /** What the parser hands to the painter. */
  datatype Layout = Layout(keymap: Assoc<string, RowMap>, homeRow: RowMap, shiftMapping: Assoc<string, string>)

  /** The parser's state between rows. */
  datatype Builder = Builder(tally: Tally, keymap: Assoc<string, RowMap>, home: RowMap)

  const HomeId: string := "home"

  /** `row_id.lower() == "home"`. */
  predicate IsHomeId(id: string) {
    Lower(id) == HomeId
  }

  /** One iteration of the inner loop: validate the key, then read its
      position. */
  function ParseKey(p: Policy, t: Tally, key: KeyElem): (r: Result<(string, Point, Tally), ParseError>)
    ensures r.Success? <==> GenerateKeylist(p, t, key).Success? && PositionOk(key)
    ensures r.Success? ==>
              && r.value.0 == GenerateKeylist(p, t, key).value.0
              && r.value.2 == GenerateKeylist(p, t, key).value.1
              && r.value.1 == Point(key.positions[0].x.value, key.positions[0].y.value)
    ensures GenerateKeylist(p, t, key).Failure? ==> r.Failure? && r.error == GenerateKeylist(p, t, key).error
  {
    var named :- GenerateKeylist(p, t, key);
    var pos :- RawPosition(key);
    Success((named.0, pos, named.1))
  }

  /** The keys of one row, accumulated into `rowMap` with `row_map[lower] = pos`. */
  function ParseRowKeys(p: Policy, t: Tally, keys: seq<KeyElem>, rowMap: RowMap): (r: Result<(RowMap, Tally), ParseError>)
    requires DistinctKeys(rowMap)
    ensures r.Success? ==> DistinctKeys(r.value.0)
    decreases |keys|
  {
    if |keys| == 0 then Success((rowMap, t))
    else
      var step :- ParseKey(p, t, keys[0]);
      ParseRowKeys(p, step.2, keys[1..], Put(rowMap, step.0, step.1))
  }

  /** `keymap[id][name]`, when both lookups succeed. */
  function Lookup(keymap: Assoc<string, RowMap>, id: string, name: string): Option<Point> {
    match Get(keymap, id)
    case None => None
    case Some(row) => Get(row, name)
  }

  /** Lines 185-188: a row is merged into an earlier row with the same id, or
      appended as a new row. */
  function MergeRow(keymap: Assoc<string, RowMap>, id: string, rowMap: RowMap): (r: Assoc<string, RowMap>)
    requires DistinctKeys(rowMap)
    ensures forall id', n :: Lookup(r, id', n) ==
              if id' == id && n in Keys(rowMap) then Get(rowMap, n) else Lookup(keymap, id', n)
    ensures Keys(r) == if id in Keys(keymap) then Keys(keymap) else Keys(keymap) + [id]
    ensures DistinctKeys(keymap) ==> DistinctKeys(r)
    ensures forall id' :: id' != id ==> Get(r, id') == Get(keymap, id')
    ensures Get(r, id).Some?
    ensures var prev := Get(keymap, id);
            Keys(Get(r, id).value) == if prev.Some? then Keys(prev.value) + NewKeys(Keys(prev.value), Keys(rowMap)) else Keys(rowMap)
  {
    if id in Keys(keymap) then Put(keymap, id, Update(Get(keymap, id).value, rowMap))
    else Put(keymap, id, rowMap)
  }

  /** Lines 181-182: the keys of a home row are merged into the home-row map. */
  function MergeHome(home: RowMap, id: string, rowMap: RowMap): (r: RowMap)
    requires DistinctKeys(rowMap)
    ensures forall n :: Get(r, n) == if IsHomeId(id) && n in Keys(rowMap) then Get(rowMap, n) else Get(home, n)
    ensures Keys(r) == if IsHomeId(id) then Keys(home) + NewKeys(Keys(home), Keys(rowMap)) else Keys(home)
  {
    if IsHomeId(id) then Update(home, rowMap) else home
  }

  /** The outer loop over rows. */
  function ParseRows(p: Policy, b: Builder, rows: seq<RowElem>): (r: Result<Builder, ParseError>)
    decreases |rows|
  {
    if |rows| == 0 then Success(b)
    else
      var row := ParseRowKeys(p, b.tally, rows[0].keys, []);
      if row.Failure? then Failure(row.error)
      else
        var id :- rows[0].id.ToResult(MissingRowId);
        var b' := Builder(row.value.1, MergeRow(b.keymap, id, row.value.0), MergeHome(b.home, id, row.value.0));
        ParseRows(p, b', rows[1..])
  }

  /** The parser before the first row: zero counters and empty maps. */
  function InitialBuilder(): Builder {
    Builder(Tally(ResetCount(), []), [], [])
  }

  /** `__generate_keymap`: the whole document, failing when no home row key was
      declared. */
  function GenerateKeymap(p: Policy, doc: Document): (r: Result<Layout, ParseError>)
    ensures r.Success? ==> |r.value.homeRow| > 0
    ensures doc.tag != KeyboardTag ==> r == Failure(WrongRootTag(doc.tag))
  {
    var rows :- GetRows(doc);
    var b :- ParseRows(p, InitialBuilder(), rows);
    if |b.home| == 0 then Failure(MissingHomeRow)
    else Success(Layout(b.keymap, b.home, b.tally.shift))
  }

  /** The layout parser with the duplicate test corrected; the painter side of
      the model starts from its result. */
  function ParseLayout(doc: Document): Result<Layout, ParseError> {
    GenerateKeymap(Corrected, doc)
  }
}
