/** The heat deposited by one key press (`Painter.__update_points`) and the
    part of it the density estimator sees (lines 501-513). Points are exact
    reals; cosine, sine and square root are parameters. */
module Heat {
  import opened Assoc

  /** The library numerics the painter calls: `np.cos`, `np.sin`, and
      `** 0.5` on a non-negative float. */
  datatype Numerics = Numerics(cos: real -> real, sin: real -> real, sqrt: real -> real)

  /** `np.pi` as a float literal. */
  const Pi: real := 3.141592653589793

  /** The stored heat points: `heatmap_pointsx` and `heatmap_pointsy`. */
  datatype Cloud = Cloud(xs: seq<real>, ys: seq<real>)

  const EmptyCloud: Cloud := Cloud([], [])

  /** Where a deposit is centred. */
  datatype Centre = Centre(x: real, y: real)

  /** `2 ** k`. */
  function Pow2(k: nat): nat {
    if k == 0 then 1 else 2 * Pow2(k - 1)
  }

  /** `3 ** k`. */
  function Pow3(k: nat): nat {
    if k == 0 then 1 else 3 * Pow3(k - 1)
  }

  /** The radius of ring `k`: 0.1 doubled `k` times. */
  function Radius(k: nat): real {
    0.1 * Pow2(k) as real
  }

  /** The number of points on ring `k`: `points` is tripled before each ring. */
  function RingSize(k: nat): nat {
    3 * Pow3(k)
  }

  /** The loop runs while the radius is below 1, that is for rings 0 to 3. */
  lemma RadiusBelowOne(k: nat)
    ensures Radius(k) < 1.0 <==> k < 4
  {
    if k >= 4 {
      Pow2Grows(4, k);
      assert Pow2(4) == 16;
    } else {
      assert Pow2(3) == 8;
      Pow2Grows(k, 3);
    }
  }

  lemma {:induction false} Pow2Grows(j: nat, k: nat)
    requires j <= k
    ensures Pow2(j) <= Pow2(k)
    decreases k
  {
    if j < k {
      Pow2Grows(j, k - 1);
    }
  }

  /** The angle of point `p` of `n`: `2 * np.pi * point / points`. */
  function Angle(p: nat, n: nat): real
    requires n > 0
  {
    2.0 * Pi * p as real / n as real
  }

  /** The x (resp. y) coordinates of ring `k` around a centre. */
  function RingX(num: Numerics, c: Centre, k: nat): (r: seq<real>)
    ensures |r| == RingSize(k)
  {
    seq(RingSize(k), p requires 0 <= p < RingSize(k) => c.x + Radius(k) * num.cos(Angle(p, RingSize(k))))
  }

  function RingY(num: Numerics, c: Centre, k: nat): (r: seq<real>)
    ensures |r| == RingSize(k)
  {
    seq(RingSize(k), p requires 0 <= p < RingSize(k) => c.y + Radius(k) * num.sin(Angle(p, RingSize(k))))
  }

  /** The rings from `k` on, while the radius stays below 1. */
  function RingsX(num: Numerics, c: Centre, k: nat): seq<real>
    decreases 4 - k
  {
    RadiusBelowOne(k);
    if Radius(k) < 1.0 then RingX(num, c, k) + RingsX(num, c, k + 1) else []
  }

  function RingsY(num: Numerics, c: Centre, k: nat): seq<real>
    decreases 4 - k
  {
    RadiusBelowOne(k);
    if Radius(k) < 1.0 then RingY(num, c, k) + RingsY(num, c, k + 1) else []
  }

  /** The points one deposit appends, coordinate by coordinate. */
  function DepositX(num: Numerics, c: Centre): seq<real> {
    RingsX(num, c, 0)
  }

  function DepositY(num: Numerics, c: Centre): seq<real> {
    RingsY(num, c, 0)
  }

  /** `__update_points`: the while loop over radii, each ring appended point
      by point. */
  method Deposit(num: Numerics, cloud: Cloud, c: Centre) returns (r: Cloud)
    ensures r.xs == cloud.xs + DepositX(num, c)
    ensures r.ys == cloud.ys + DepositY(num, c)
  {
    var points := 1;
    var distance := 0.1;
    ghost var k: nat := 0;
    var xs, ys := cloud.xs, cloud.ys;
    while distance < 1.0
      invariant distance == Radius(k) && points == Pow3(k)
      invariant xs + RingsX(num, c, k) == cloud.xs + DepositX(num, c)
      invariant ys + RingsY(num, c, k) == cloud.ys + DepositY(num, c)
      decreases 4 - k
    {
      RadiusBelowOne(k);
      points := points * 3;
      ghost var xs0, ys0 := xs, ys;
      xs, ys := AppendRing(num, c, k, distance, points, xs, ys);
      AppendAssocs(xs0, RingX(num, c, k), RingsX(num, c, k + 1));
      AppendAssocs(ys0, RingY(num, c, k), RingsY(num, c, k + 1));
      distance := distance * 2.0;
      k := k + 1;
    }
    RadiusBelowOne(k);
    r := Cloud(xs, ys);
  }

  /** The inner `for` loop: the points of one ring appended in order. */
  method AppendRing(num: Numerics, c: Centre, ghost k: nat, distance: real, points: nat, xs0: seq<real>, ys0: seq<real>)
    returns (xs: seq<real>, ys: seq<real>)
    requires distance == Radius(k) && points == RingSize(k)
    ensures xs == xs0 + RingX(num, c, k)
    ensures ys == ys0 + RingY(num, c, k)
  {
    xs, ys := xs0, ys0;
    var point := 0;
    while point < points
      invariant 0 <= point <= points
      invariant xs == xs0 + RingX(num, c, k)[..point]
      invariant ys == ys0 + RingY(num, c, k)[..point]
    {
      var angle := Angle(point, points);
      assert RingX(num, c, k)[point] == c.x + distance * num.cos(angle);
      assert RingY(num, c, k)[point] == c.y + distance * num.sin(angle);
      xs := xs + [c.x + distance * num.cos(angle)];
      ys := ys + [c.y + distance * num.sin(angle)];
      assert RingX(num, c, k)[..point + 1] == RingX(num, c, k)[..point] + [RingX(num, c, k)[point]];
      assert RingY(num, c, k)[..point + 1] == RingY(num, c, k)[..point] + [RingY(num, c, k)[point]];
      point := point + 1;
    }
    assert RingX(num, c, k)[..point] == RingX(num, c, k);
    assert RingY(num, c, k)[..point] == RingY(num, c, k);
  }

  /** The rings of a deposit are those of radius 0.1, 0.2, 0.4 and 0.8, with
      3, 9, 27 and 81 points. */
  lemma DepositRings(num: Numerics, c: Centre)
    ensures DepositX(num, c) == RingX(num, c, 0) + RingX(num, c, 1) + RingX(num, c, 2) + RingX(num, c, 3)
    ensures DepositY(num, c) == RingY(num, c, 0) + RingY(num, c, 1) + RingY(num, c, 2) + RingY(num, c, 3)
    ensures Radius(0) == 0.1 && Radius(1) == 0.2 && Radius(2) == 0.4 && Radius(3) == 0.8
    ensures RingSize(0) == 3 && RingSize(1) == 9 && RingSize(2) == 27 && RingSize(3) == 81
  {
    RingsStep(num, c, 0);
    RingsStep(num, c, 1);
    RingsStep(num, c, 2);
    RingsStep(num, c, 3);
    RadiusBelowOne(4);
    assert RingsX(num, c, 4) == [] && RingsY(num, c, 4) == [];
    AppendAssocs(RingX(num, c, 0) + RingX(num, c, 1), RingX(num, c, 2), RingX(num, c, 3));
    AppendAssocs(RingX(num, c, 0), RingX(num, c, 1), RingX(num, c, 2) + RingX(num, c, 3));
    AppendAssocs(RingY(num, c, 0) + RingY(num, c, 1), RingY(num, c, 2), RingY(num, c, 3));
    AppendAssocs(RingY(num, c, 0), RingY(num, c, 1), RingY(num, c, 2) + RingY(num, c, 3));
    assert Pow2(3) == 8 && Pow3(3) == 27;
  }

  /** While the radius is below 1, a deposit continues with the next ring. */
  lemma RingsStep(num: Numerics, c: Centre, k: nat)
    requires k < 4
    ensures RingsX(num, c, k) == RingX(num, c, k) + RingsX(num, c, k + 1)
    ensures RingsY(num, c, k) == RingY(num, c, k) + RingsY(num, c, k + 1)
  {
    RadiusBelowOne(k);
  }

  /** One deposit appends 3 + 9 + 27 + 81 = 120 points to each list. */
  lemma DepositSize(num: Numerics, c: Centre)
    ensures |DepositX(num, c)| == 120 && |DepositY(num, c)| == 120
  {
    DepositRings(num, c);
  }

  /** The ring that point `t` of a deposit belongs to: the first 3 points
      are on ring 0, the next 9 on ring 1, the next 27 on ring 2, the rest on
      ring 3. */
  function RingOf(t: nat): nat {
    if t < 3 then 0 else if t < 12 then 1 else if t < 39 then 2 else 3
  }

  /** The point (x, y) is at distance `r` from the centre. */
  predicate OnCircle(c: Centre, x: real, y: real, r: real) {
    (x - c.x) * (x - c.x) + (y - c.y) * (y - c.y) == r * r
  }

  /** A point of ring `k` lies at distance `Radius(k)` from the centre when
      cosine and sine satisfy the Pythagorean identity. */
  lemma RingOnCircle(num: Numerics, c: Centre, k: nat, p: nat)
    requires forall a :: num.cos(a) * num.cos(a) + num.sin(a) * num.sin(a) == 1.0
    requires p < RingSize(k)
    ensures OnCircle(c, RingX(num, c, k)[p], RingY(num, c, k)[p], Radius(k))
  {
    var a := Angle(p, RingSize(k));
    var r := Radius(k);
    var co, si := num.cos(a), num.sin(a);
    assert RingX(num, c, k)[p] - c.x == r * co;
    assert RingY(num, c, k)[p] - c.y == r * si;
    assert (r * co) * (r * co) + (r * si) * (r * si) == r * r * (co * co + si * si);
  }

  /** Every point of a deposit lies on its ring, at distance 0.1, 0.2, 0.4 or
      0.8 from the centre. */
  lemma DepositOnRings(num: Numerics, c: Centre, t: nat)
    requires forall a :: num.cos(a) * num.cos(a) + num.sin(a) * num.sin(a) == 1.0
    requires t < 120
    ensures t < |DepositX(num, c)| && t < |DepositY(num, c)|
    ensures OnCircle(c, DepositX(num, c)[t], DepositY(num, c)[t], Radius(RingOf(t)))
  {
    var p := DepositPoint(num, c, t);
    RingOnCircle(num, c, RingOf(t), p);
  }

  /** Point `t` of a deposit is point `p` of its ring. */
  lemma DepositPoint(num: Numerics, c: Centre, t: nat) returns (p: nat)
    requires t < 120
    ensures p < RingSize(RingOf(t))
    ensures t < |DepositX(num, c)| && DepositX(num, c)[t] == RingX(num, c, RingOf(t))[p]
    ensures t < |DepositY(num, c)| && DepositY(num, c)[t] == RingY(num, c, RingOf(t))[p]
  {
    DepositRings(num, c);
    var x0, x1, x2, x3 := RingX(num, c, 0), RingX(num, c, 1), RingX(num, c, 2), RingX(num, c, 3);
    var y0, y1, y2, y3 := RingY(num, c, 0), RingY(num, c, 1), RingY(num, c, 2), RingY(num, c, 3);
    assert DepositX(num, c) == x0 + x1 + x2 + x3;
    assert DepositY(num, c) == y0 + y1 + y2 + y3;
    if t < 3 {
      p := t;
    } else if t < 12 {
      p := t - 3;
    } else if t < 39 {
      p := t - 12;
    } else {
      p := t - 39;
    }
  }

  /** The most points the density estimator is given (`maxsize`). */
  const MaxSize: nat := 3000

  /** Lines 511-513: the oldest points are dropped from the estimator's copy
      until at most `MaxSize` remain. */
  function Window(s: seq<real>): (w: seq<real>)
  {
    if MaxSize < |s| then s[|s| - MaxSize..] else s
  }

  /** The window is the last `min(n, 3000)` points, in order. */
  lemma WindowSuffix(s: seq<real>)
    ensures |Window(s)| == if |s| < MaxSize then |s| else MaxSize
    ensures forall i :: 0 <= i < |Window(s)| ==> Window(s)[i] == s[|s| - |Window(s)| + i]
  {
  }

  /** Windowing once more changes nothing. */
  lemma WindowIdempotent(s: seq<real>)
    ensures Window(Window(s)) == Window(s)
  {
  }

  /** What the estimator sees after new points arrive depends only on the
      previous window: dropping old points early loses nothing. */
  lemma WindowAppend(s: seq<real>, t: seq<real>)
    ensures Window(Window(s) + t) == Window(s + t)
  {
    var w := Window(s);
    if MaxSize < |s| {
      var u := w + t;
      var v := s + t;
      assert |u| <= |v|;
      forall i | 0 <= i < |Window(u)|
        ensures Window(u)[i] == Window(v)[i]
      {
        var off := |v| - |Window(v)| + i;
        if off < |s| {
          assert v[off] == s[off];
          assert Window(u)[i] == w[off - (|s| - MaxSize)];
        } else {
          assert v[off] == t[off - |s|];
        }
      }
    }
  }
}
