/** The painter's per-keystroke work (`Painter.update_heatmap`): each typed
    character is resolved to a drawn key, directly or through the shift
    mapping, heat is deposited there, and the distance from the key to the
    nearest home-row key is added up. */
module Painter {
  import opened Wrappers
  import opened Assoc
  import opened LayoutTree
  import opened Keylist
  import opened Keymap
  import opened Normalize
  import opened Heat
  import opened LabelFinding

  /** Lines 359-363: characters the terminal delivers for keys whose names
      are words. The enter entry is keyed by the two-character string "/r". */
  const Aliases: Assoc<string, string> := [(" ", "space"), ("\t", "tab"), ("/r", "enter"), ([127 as char], "backspace")]

  /** The key name a typed character stands for. */
  function KeyOf(c: char): string {
    Get(Aliases, [c]).GetOr([c])
  }

  /** Space, tab and delete are renamed; every other character, carriage
      return included, stands for itself: no single character reaches the
      "enter" entry. */
  lemma KeyOfAliases(c: char)
    ensures KeyOf(c) == if c == ' ' then "space" else if c == '\t' then "tab" else if c == 127 as char then "backspace" else [c]
    ensures KeyOf(c) != "enter"
  {
    assert Aliases[0].0 == [' '] && Aliases[1].0 == ['\t'] && Aliases[3].0 == [127 as char];
    assert [c] != Aliases[2].0;
  }

  /** The painter's state after `__draw_keys`: `visual_keymap`, `home_row`,
      `shift_mapping`, the final `xmax`, and the stored heat points. */
  datatype Painter = Painter(visual: Assoc<real, Assoc<string, Point>>, home: RowMap, shift: Assoc<string, string>, xmax: real, cloud: Cloud)

  /** `Painter.__init__` up to the heat-map mesh: the keyboard is drawn,
      labelling each key by the name it is stored under. */
  function NewPainter(l: Layout): (r: Result<Painter, DrawError>)
    ensures r.Success? ==>
              var d := Draw(l.keymap);
              r.value == Painter(d.visual, l.homeRow, l.shiftMapping, d.pen.xmax, EmptyCloud)
  {
    var d :- DrawKeys(OwnLabel, l.keymap, l.shiftMapping);
    DrawKeysLabels(OwnLabel, l.keymap, l.shiftMapping);
    Success(Painter(d.visual, l.homeRow, l.shiftMapping, d.pen.xmax, EmptyCloud))
  }

  /** Why a keystroke cannot be handled. */
  datatype HeatError =
    | Unresolved(name: string)        // line 498 subscripts `None`
    | MissingShiftKey(name: string)   // line 492 subscripts `None`
    | NoHomeKeys                      // `min` of an empty list

  /** Where a character lands: on its own key, or on a base key together
      with a shift key. */
  datatype Hit = Direct(pos: Point) | Shifted(pos: Point, shiftPos: Point)

  /** Lines 477-495: the first shift-mapping entry, in insertion order, that
      produces `name` and whose unshifted key is drawn. */
  function ShiftScan(shift: Assoc<string, string>, visual: Assoc<real, Assoc<string, Point>>, name: string): Option<(string, Point)>
    decreases |shift|
  {
    if |shift| == 0 then None
    else if shift[0].1 == name && FindNested(visual, shift[0].0).Some? then Some((shift[0].0, FindNested(visual, shift[0].0).value))
    else ShiftScan(shift[1..], visual, name)
  }

  /** Entry `i` of the shift mapping produces `name` from a drawn key. */
  predicate Produces(shift: Assoc<string, string>, visual: Assoc<real, Assoc<string, Point>>, name: string, i: int) {
    0 <= i < |shift| && shift[i].1 == name && FindNested(visual, shift[i].0).Some?
  }

  predicate FirstProducer(shift: Assoc<string, string>, visual: Assoc<real, Assoc<string, Point>>, name: string, i: int) {
    Produces(shift, visual, name, i) && forall i' :: 0 <= i' < i ==> !Produces(shift, visual, name, i')
  }

  /** The scan succeeds exactly when some entry produces the name from a
      drawn key, and then it returns the first such entry and its key's
      position. */
  lemma {:induction false} ShiftScanFirst(shift: Assoc<string, string>, visual: Assoc<real, Assoc<string, Point>>, name: string)
    ensures ShiftScan(shift, visual, name).None? <==> forall i :: 0 <= i < |shift| ==> !Produces(shift, visual, name, i)
    ensures ShiftScan(shift, visual, name).Some? ==>
              exists i :: FirstProducer(shift, visual, name, i) &&
                ShiftScan(shift, visual, name).value == (shift[i].0, FindNested(visual, shift[i].0).value)
    decreases |shift|
  {
    if |shift| > 0 {
      ShiftScanFirst(shift[1..], visual, name);
      assert forall i :: 0 < i < |shift| ==> shift[i] == shift[1..][i - 1];
      assert forall i :: 0 < i < |shift| ==> (Produces(shift, visual, name, i) <==> Produces(shift[1..], visual, name, i - 1));
      if Produces(shift, visual, name, 0) {
        assert FirstProducer(shift, visual, name, 0);
      } else if ShiftScan(shift, visual, name).Some? {
        var i :| FirstProducer(shift[1..], visual, name, i) &&
                 ShiftScan(shift[1..], visual, name).value == (shift[1..][i].0, FindNested(visual, shift[1..][i].0).value);
        assert FirstProducer(shift, visual, name, i + 1);
      }
    }
  }

  /** The shift key used with a base key: the right one for keys in the left
      half of the keyboard, the left one otherwise. */
  function ShiftSide(pos: Point, xmax: real): string {
    if pos.x < xmax / 2.0 then "shift_r" else "shift_l"
  }

  /** Lines 466-498 up to the deposits: direct lookup of the key name, then
      the reverse shift lookup. */
  function Resolve(p: Painter, c: char): Result<Hit, HeatError> {
    var name := KeyOf(c);
    match FindNested(p.visual, name)
    case Some(pos) => Success(Direct(pos))
    case None =>
      match ShiftScan(p.shift, p.visual, name)
      case None => Failure(Unresolved(name))
      case Some(found) =>
        var side := ShiftSide(found.1, p.xmax);
        match FindNested(p.visual, side)
        case None => Failure(MissingShiftKey(side))
        case Some(sp) => Success(Shifted(found.1, sp))
  }

  /** A drawn key is hit directly; otherwise the first producing entry's key is
      hit with the shift key on the far side; the two failures are exactly a
      name nothing produces and a missing shift key. */
  lemma ResolveSpec(p: Painter, c: char)
    ensures var name := KeyOf(c);
      var r := Resolve(p, c);
      && (FindNested(p.visual, name).Some? ==> r == Success(Direct(FindNested(p.visual, name).value)))
      && (FindNested(p.visual, name).None? ==>
            && (r == Failure(Unresolved(name)) <==> forall i :: 0 <= i < |p.shift| ==> !Produces(p.shift, p.visual, name, i))
            && (r.Success? ==>
                  && r.value.Shifted?
                  && Some(r.value.shiftPos) == FindNested(p.visual, ShiftSide(r.value.pos, p.xmax))
                  && exists i :: FirstProducer(p.shift, p.visual, name, i) && Some(r.value.pos) == FindNested(p.visual, p.shift[i].0)))
  {
    ShiftScanFirst(p.shift, p.visual, KeyOf(c));
  }

  /** The centre of a key's box: `pos + (xsize / 2, ysize / 2)`. */
  function CentreOf(pos: Point): Centre {
    Centre(pos.x + KeyWidth / 2.0, pos.y + KeyHeight / 2.0)
  }

  /** The heat of one deposit added to the stored points. */
  function Deposited(num: Numerics, cloud: Cloud, c: Centre): Cloud {
    Cloud(cloud.xs + DepositX(num, c), cloud.ys + DepositY(num, c))
  }

  /** The deposits of one hit: one for a direct hit, the base key then the
      shift key otherwise. */
  function HitDeposits(num: Numerics, cloud: Cloud, hit: Hit): Cloud {
    match hit
    case Direct(pos) => Deposited(num, cloud, CentreOf(pos))
    case Shifted(pos, sp) => Deposited(num, Deposited(num, cloud, CentreOf(pos)), CentreOf(sp))
  }

  function DepositCount(hit: Hit): nat {
    if hit.Direct? then 1 else 2
  }

  /** A hit appends 120 points per deposit to each list and keeps what was
      stored. */
  lemma HitDepositsGrow(num: Numerics, cloud: Cloud, hit: Hit)
    ensures var r := HitDeposits(num, cloud, hit);
      && |r.xs| == |cloud.xs| + 120 * DepositCount(hit)
      && |r.ys| == |cloud.ys| + 120 * DepositCount(hit)
      && r.xs[..|cloud.xs|] == cloud.xs
      && r.ys[..|cloud.ys|] == cloud.ys
  {
    DepositSize(num, CentreOf(hit.pos));
    if hit.Shifted? {
      DepositSize(num, CentreOf(hit.shiftPos));
    }
  }

  /** The positions of the home-row keys, in order (`home_row.values()`). */
  function HomeValues(home: RowMap): (r: seq<Point>)
    ensures |r| == |home|
    ensures forall i :: 0 <= i < |home| ==> r[i] == home[i].1
  {
    seq(|home|, i requires 0 <= i < |home| => home[i].1)
  }

  function Distance(num: Numerics, a: Point, b: Point): real {
    num.sqrt((a.x - b.x) * (a.x - b.x) + (a.y - b.y) * (a.y - b.y))
  }

  /** Python's `min` over a non-empty list. */
  function MinOf(s: seq<real>): (m: real)
    requires |s| > 0
    ensures m in s
    ensures forall i :: 0 <= i < |s| ==> m <= s[i]
    decreases |s|
  {
    if |s| == 1 then s[0]
    else
      var rest := MinOf(s[1..]);
      assert forall i :: 1 <= i < |s| ==> s[i] == s[1..][i - 1];
      if s[0] <= rest then s[0] else rest
  }

  /** Line 498: the distance from `pos` to the nearest home-row key. */
  function HomeDistance(num: Numerics, pos: Point, home: RowMap): (r: Result<real, HeatError>)
    ensures r.Failure? <==> |home| == 0
    ensures r.Failure? ==> r.error == NoHomeKeys
    ensures r.Success? ==>
              && (exists i :: 0 <= i < |home| && r.value == Distance(num, pos, home[i].1))
              && forall i :: 0 <= i < |home| ==> r.value <= Distance(num, pos, home[i].1)
  {
    var homes := HomeValues(home);
    if |homes| == 0 then Failure(NoHomeKeys)
    else
      var ds := seq(|homes|, i requires 0 <= i < |homes| => Distance(num, pos, homes[i]));
      assert forall i :: 0 <= i < |home| ==> ds[i] == Distance(num, pos, home[i].1);
      Success(MinOf(ds))
  }

  /** One keystroke: resolution, deposits, and the distance from the base key. */
  function Press(num: Numerics, p: Painter, c: char): Result<(Painter, real), HeatError> {
    var hit :- Resolve(p, c);
    var d :- HomeDistance(num, hit.pos, p.home);
    Success((p.(cloud := HitDeposits(num, p.cloud, hit)), d))
  }

  /** The loop of `update_heatmap` over the characters, summing the distances. */
  function Presses(num: Numerics, p: Painter, chars: string): Result<(Painter, real), HeatError>
    decreases |chars|
  {
    if |chars| == 0 then Success((p, 0.0))
    else
      var first :- Press(num, p, chars[0]);
      var rest :- Presses(num, first.0, chars[1..]);
      Success((rest.0, first.1 + rest.1))
  }

  /** What `update_heatmap` hands on: the new painter, the distance travelled,
      and the points the density estimator is given. */
  datatype Update = Update(painter: Painter, distance: real, window: Cloud)

  /** `update_heatmap`: every character pressed in turn, then the estimator's
      window taken from the stored points, which are kept whole. */
  function UpdateHeatmap(num: Numerics, p: Painter, chars: string): Result<Update, HeatError> {
    var done :- Presses(num, p, chars);
    var cloud := done.0.cloud;
    Success(Update(done.0, done.1, Cloud(Window(cloud.xs), Window(cloud.ys))))
  }

  /** How many deposits the characters cause, when they all resolve. */
  function Deposits(p: Painter, chars: string): nat
    decreases |chars|
  {
    if |chars| == 0 then 0
    else (if Resolve(p, chars[0]).Success? then DepositCount(Resolve(p, chars[0]).value) else 0) + Deposits(p, chars[1..])
  }

  /** The painter's lookup tables, which keystrokes never change. */
  predicate SameTables(p: Painter, q: Painter) {
    q.visual == p.visual && q.home == p.home && q.shift == p.shift && q.xmax == p.xmax
  }

  /** A keystroke succeeds exactly when its character resolves and the home
      row is not empty, and then changes only the stored points. */
  lemma PressSpec(num: Numerics, p: Painter, c: char)
    ensures Press(num, p, c).Success? <==> Resolve(p, c).Success? && |p.home| > 0
    ensures Press(num, p, c).Success? ==>
              var q := Press(num, p, c).value.0;
              SameTables(p, q) && q.cloud == HitDeposits(num, p.cloud, Resolve(p, c).value)
  {
  }

  /** One keystroke of the loop, unfolded. */
  lemma PressesStep(num: Numerics, p: Painter, chars: string)
    requires |chars| > 0
    ensures Presses(num, p, chars).Success? <==>
              Press(num, p, chars[0]).Success? && Presses(num, Press(num, p, chars[0]).value.0, chars[1..]).Success?
    ensures Presses(num, p, chars).Success? ==>
              Presses(num, p, chars).value.0 == Presses(num, Press(num, p, chars[0]).value.0, chars[1..]).value.0
  {
  }

  lemma ResolveSame(p: Painter, q: Painter)
    requires SameTables(p, q)
    ensures forall c :: Resolve(q, c) == Resolve(p, c)
  {
  }

  /** Every one of the characters resolves. */
  predicate AllResolve(p: Painter, chars: string) {
    forall i :: 0 <= i < |chars| ==> Resolve(p, chars[i]).Success?
  }

  lemma AllResolveCons(p: Painter, chars: string)
    requires |chars| > 0
    ensures AllResolve(p, chars) <==> Resolve(p, chars[0]).Success? && AllResolve(p, chars[1..])
  {
    assert forall i :: 1 <= i < |chars| ==> chars[i] == chars[1..][i - 1];
  }

  /** The keystrokes all succeed exactly when every character resolves and,
      if there is one, the home row is not empty: the painter's lookup tables
      do not change from one keystroke to the next. */
  lemma {:induction false} PressesSucceed(num: Numerics, p: Painter, chars: string)
    ensures Presses(num, p, chars).Success? <==> (|chars| == 0 || |p.home| > 0) && AllResolve(p, chars)
    decreases |chars|
  {
    if |chars| > 0 {
      PressesStep(num, p, chars);
      PressSpec(num, p, chars[0]);
      AllResolveCons(p, chars);
      if Press(num, p, chars[0]).Success? {
        var q := Press(num, p, chars[0]).value.0;
        PressesSucceed(num, q, chars[1..]);
        assert AllResolve(q, chars[1..]) == AllResolve(p, chars[1..]) by {
          ResolveSame(p, q);
        }
      }
    }
  }

  /** After the keystrokes, the stored points extend the old ones by 120
      points per deposit in each list, and nothing else changes. */
  lemma {:induction false} PressesGrow(num: Numerics, p: Painter, chars: string)
    requires Presses(num, p, chars).Success?
    ensures var q := Presses(num, p, chars).value.0;
      && SameTables(p, q)
      && |q.cloud.xs| == |p.cloud.xs| + 120 * Deposits(p, chars)
      && |q.cloud.ys| == |p.cloud.ys| + 120 * Deposits(p, chars)
      && q.cloud.xs[..|p.cloud.xs|] == p.cloud.xs
      && q.cloud.ys[..|p.cloud.ys|] == p.cloud.ys
    decreases |chars|
  {
    if |chars| > 0 {
      PressesStep(num, p, chars);
      PressSpec(num, p, chars[0]);
      var first := Press(num, p, chars[0]).value.0;
      HitDepositsGrow(num, p.cloud, Resolve(p, chars[0]).value);
      PressesGrow(num, first, chars[1..]);
      ResolveSame(p, first);
      DepositsSame(p, first, chars[1..]);
      var q := Presses(num, p, chars).value.0;
      PrefixOfPrefix(p.cloud.xs, first.cloud.xs, q.cloud.xs);
      PrefixOfPrefix(p.cloud.ys, first.cloud.ys, q.cloud.ys);
    }
  }

  lemma PrefixOfPrefix(a: seq<real>, b: seq<real>, c: seq<real>)
    requires |a| <= |b| <= |c|
    requires b[..|a|] == a && c[..|b|] == b
    ensures c[..|a|] == a
  {
    assert c[..|a|] == c[..|b|][..|a|];
  }

  /** Painters with the same lookup tables resolve alike. */
  lemma {:induction false} DepositsSame(p: Painter, q: Painter, chars: string)
    requires forall c :: Resolve(q, c) == Resolve(p, c)
    ensures Deposits(q, chars) == Deposits(p, chars)
    decreases |chars|
  {
    if |chars| > 0 {
      DepositsSame(p, q, chars[1..]);
    }
  }

  /** With a non-negative square root, the distance travelled is never negative. */
  lemma {:induction false} PressesDistance(num: Numerics, p: Painter, chars: string)
    requires forall v :: num.sqrt(v) >= 0.0
    requires Presses(num, p, chars).Success?
    ensures Presses(num, p, chars).value.1 >= 0.0
    decreases |chars|
  {
    if |chars| > 0 {
      var first := Press(num, p, chars[0]).value;
      PressesDistance(num, first.0, chars[1..]);
    }
  }

  /** `update_heatmap` in full: it succeeds exactly when every character
      resolves (and the home row is not empty); the stored points then grow by
      120 per deposit and keep the old ones; the estimator sees exactly the
      last `min(n, 3000)` stored points of each list. */
  lemma UpdateHeatmapSpec(num: Numerics, p: Painter, chars: string)
    ensures UpdateHeatmap(num, p, chars).Success? <==>
              (|chars| == 0 || |p.home| > 0) && forall i :: 0 <= i < |chars| ==> Resolve(p, chars[i]).Success?
    ensures UpdateHeatmap(num, p, chars).Success? ==>
              var u := UpdateHeatmap(num, p, chars).value;
              && |u.painter.cloud.xs| == |p.cloud.xs| + 120 * Deposits(p, chars)
              && |u.painter.cloud.ys| == |p.cloud.ys| + 120 * Deposits(p, chars)
              && u.painter.cloud.xs[..|p.cloud.xs|] == p.cloud.xs
              && u.painter.cloud.ys[..|p.cloud.ys|] == p.cloud.ys
              && u.window.xs == Window(u.painter.cloud.xs)
              && u.window.ys == Window(u.painter.cloud.ys)
              && |u.window.xs| == (if |u.painter.cloud.xs| < MaxSize then |u.painter.cloud.xs| else MaxSize)
  {
    PressesSucceed(num, p, chars);
    if Presses(num, p, chars).Success? {
      PressesGrow(num, p, chars);
      WindowSuffix(Presses(num, p, chars).value.0.cloud.xs);
    }
  }

  /** A painter started from any parsed layout is drawn, has a home row, and
      its `visual_keymap` is the one the drawn rows determine. */
  lemma PainterFromLayout(p: Policy, doc: Document)
    requires GenerateKeymap(p, doc).Success?
    ensures var l := GenerateKeymap(p, doc).value;
      && NewPainter(l).Success?
      && |NewPainter(l).value.home| > 0
      && NewPainter(l).value.visual == VisualOf(Draw(l.keymap).rows)
      && NewPainter(l).value.cloud == EmptyCloud
  {
    var l := GenerateKeymap(p, doc).value;
    OwnLabelsDraw(p, doc);
    DrawLayout(l.keymap);
  }

  /** A painter started from a parsed layout hits a key name directly exactly
      when the keymap holds that name, and at the adjusted position of a
      drawn key of that name. */
  lemma PainterFinds(p: Policy, doc: Document, n: string)
    requires GenerateKeymap(p, doc).Success?
    ensures NewPainter(GenerateKeymap(p, doc).value).Success?
    ensures var l := GenerateKeymap(p, doc).value;
      var found := FindNested(NewPainter(l).value.visual, n);
      && (found.Some? <==> exists k :: EntryNamed(Entries(l.keymap), k, n))
      && (found.Some? ==>
            var rows := Draw(l.keymap).rows;
            exists i, j :: DrawnAt(rows, i, j, n) && found.value == Point(rows[i].1[j].x, rows[i].0))
  {
    var l := GenerateKeymap(p, doc).value;
    PainterFromLayout(p, doc);
    VisualFindHas(Draw(l.keymap).rows, n);
    VisualFindValue(Draw(l.keymap).rows, n);
    DrawnNames(l.keymap, n);
  }
}
