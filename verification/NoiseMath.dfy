/**
 Gradient noise at a point (src/noise.cpp): interpolation, the lattice cell of a point, octave sums.
 Arithmetic is exact; the lattice hash is a parameter.
 */
module NoiseMath {

  type Lattice2 = (int, int, int) -> real        // noise2d: x, y, seed
  type Lattice3 = (int, int, int, int) -> real   // noise3d: x, y, z, seed

  // ---------------------------------------------------------------- interpolation

  function EaseCurve(t: real): real {
    t * t * t * (t * (6.0 * t - 15.0) + 10.0)
  }

  function Ease(t: real, eased: bool): real {
    if eased then EaseCurve(t) else t
  }

  function LinearInterpolation(v0: real, v1: real, t: real): real {
    v0 + (v1 - v0) * t
  }

  function BiLinearInterpolation(v00: real, v10: real, v01: real, v11: real, x: real, y: real, eased: bool): real {
    var u := LinearInterpolation(v00, v10, Ease(x, eased));
    var v := LinearInterpolation(v01, v11, Ease(x, eased));
    LinearInterpolation(u, v, Ease(y, eased))
  }

  function TriLinearInterpolation(v000: real, v100: real, v010: real, v110: real, v001: real, v101: real, v011: real, v111: real,
                                  x: real, y: real, z: real, eased: bool): real {
    var u := BiLinearInterpolation(v000, v100, v010, v110, Ease(x, eased), Ease(y, eased), false);
    var v := BiLinearInterpolation(v001, v101, v011, v111, Ease(x, eased), Ease(y, eased), false);
    LinearInterpolation(u, v, Ease(z, eased))
  }

  // ---------------------------------------------------------------- the shape of the curve

  lemma ProductSign(a: real, b: real)
    requires a >= 0.0 && b >= 0.0
    ensures a * b >= 0.0
  {}

  lemma Powers(t: real)
    ensures EaseCurve(t) == 6.0 * (t * t * t * t * t) - 15.0 * (t * t * t * t) + 10.0 * (t * t * t)
  {}

  // Differences of powers around a middle m.
  lemma PowersApart(m: real, d: real)
    ensures var (s, t) := (m - d, m + d);
      && t * t * t - s * s * s == 6.0 * (m * m * d) + 2.0 * (d * d * d)
      && t * t * t * t - s * s * s * s == 8.0 * (m * m * m * d) + 8.0 * (m * d * d * d)
  {}

  lemma FifthPowersApart(m: real, d: real)
    ensures var (s, t) := (m - d, m + d);
      t * t * t * t * t - s * s * s * s * s == 10.0 * (m * m * m * m * d) + 20.0 * (m * m * d * d * d) + 2.0 * (d * d * d * d * d)
  {}

  // How much the curve rises between m - d and m + d.
  lemma EaseRises(m: real, d: real)
    ensures var w := m * (1.0 - m);
      EaseCurve(m + d) - EaseCurve(m - d) == 2.0 * d * (30.0 * ((w - d * d) * (w - d * d)) + 2.0 * (d * d) * (5.0 - 12.0 * (d * d)))
  {
    Powers(m + d);
    Powers(m - d);
    PowersApart(m, d);
    FifthPowersApart(m, d);
    hide EaseCurve;
    RiseTerms(m, d);
  }

  lemma RiseTerms(m: real, d: real)
    ensures var w := m * (1.0 - m);
      2.0 * d * (30.0 * ((w - d * d) * (w - d * d)) + 2.0 * (d * d) * (5.0 - 12.0 * (d * d)))
      == 6.0 * (10.0 * (m * m * m * m * d) + 20.0 * (m * m * d * d * d) + 2.0 * (d * d * d * d * d))
         - 15.0 * (8.0 * (m * m * m * d) + 8.0 * (m * d * d * d)) + 10.0 * (6.0 * (m * m * d) + 2.0 * (d * d * d))
  {}

  lemma EaseMonotone(s: real, t: real, eased: bool)
    requires 0.0 <= s <= t <= 1.0
    ensures Ease(s, eased) <= Ease(t, eased)
  {
    if eased {
      var m, d := (s + t) / 2.0, (t - s) / 2.0;
      EaseRises(m, d);
      RiseSign(m * (1.0 - m), d);
      assert m + d == t && m - d == s;
    }
  }

  lemma SquareSign(a: real)
    ensures a * a >= 0.0
  {
    if a >= 0.0 {
      ProductSign(a, a);
    } else {
      ProductSign(-a, -a);
    }
  }

  lemma RiseSign(w: real, d: real)
    requires 0.0 <= d <= 0.5
    ensures 2.0 * d * (30.0 * ((w - d * d) * (w - d * d)) + 2.0 * (d * d) * (5.0 - 12.0 * (d * d))) >= 0.0
  {
    ProductSign(d, d);
    ProductSign(0.5 - d, 0.5 + d);
    assert (0.5 - d) * (0.5 + d) == 0.25 - d * d;
    ProductSign(2.0 * (d * d), 5.0 - 12.0 * (d * d));
    SquareSign(w - d * d);
    ProductSign(2.0 * d, 30.0 * ((w - d * d) * (w - d * d)) + 2.0 * (d * d) * (5.0 - 12.0 * (d * d)));
  }

  /**
   The curve goes from 0 to 1 without falling, the same from both ends. The eased one is flat to second order at both
   ends, which no other polynomial of degree 5 is; the other one is straight.
   */
  lemma EaseShape(t: real, eased: bool)
    requires 0.0 <= t <= 1.0
    ensures 0.0 <= Ease(t, eased) <= 1.0 && Ease(t, eased) + Ease(1.0 - t, eased) == 1.0
    ensures eased ==> Ease(t, true) <= 10.0 * (t * t * t)
    ensures !eased ==> Ease(t, false) == t
  {
    EaseMonotone(0.0, t, eased);
    EaseMonotone(t, 1.0, eased);
    if eased {
      CubeTimes(t);
    }
  }

  lemma CubeTimes(t: real)
    requires 0.0 <= t <= 1.0
    ensures EaseCurve(t) <= 10.0 * (t * t * t)
  {
    ProductSign(t, t);
    ProductSign(t * t, t);
    ProductSign(t, 15.0 - 6.0 * t);
    ProductSign(t * t * t, t * (15.0 - 6.0 * t));
    assert EaseCurve(t) == 10.0 * (t * t * t) - t * t * t * (t * (15.0 - 6.0 * t));
  }

  // ---------------------------------------------------------------- the shape of interpolation

  // Interpolation is straight, goes from one value to the other, and may be read from either end.
  lemma LerpShape(a: real, b: real, s: real, t: real)
    ensures LinearInterpolation(a, b, 0.0) == a && LinearInterpolation(a, b, 1.0) == b
    ensures LinearInterpolation(a, b, (s + t) / 2.0) == (LinearInterpolation(a, b, s) + LinearInterpolation(a, b, t)) / 2.0
    ensures LinearInterpolation(b, a, 1.0 - t) == LinearInterpolation(a, b, t)
  {}

  lemma LerpBetween(a: real, b: real, t: real, lo: real, hi: real)
    requires 0.0 <= t <= 1.0 && lo <= a <= hi && lo <= b <= hi
    ensures lo <= LinearInterpolation(a, b, t) <= hi
  {
    ProductSign(1.0 - t, a - lo);
    ProductSign(t, b - lo);
    ProductSign(1.0 - t, hi - a);
    ProductSign(t, hi - b);
    assert LinearInterpolation(a, b, t) - lo == (1.0 - t) * (a - lo) + t * (b - lo);
    assert hi - LinearInterpolation(a, b, t) == (1.0 - t) * (hi - a) + t * (hi - b);
  }

  lemma BiLinearBetween(v00: real, v10: real, v01: real, v11: real, x: real, y: real, eased: bool, lo: real, hi: real)
    requires 0.0 <= x <= 1.0 && 0.0 <= y <= 1.0
    requires lo <= v00 <= hi && lo <= v10 <= hi && lo <= v01 <= hi && lo <= v11 <= hi
    ensures lo <= BiLinearInterpolation(v00, v10, v01, v11, x, y, eased) <= hi
  {
    hide LinearInterpolation, Ease;
    EaseShape(x, eased);
    EaseShape(y, eased);
    LerpBetween(v00, v10, Ease(x, eased), lo, hi);
    LerpBetween(v01, v11, Ease(x, eased), lo, hi);
    LerpBetween(LinearInterpolation(v00, v10, Ease(x, eased)), LinearInterpolation(v01, v11, Ease(x, eased)), Ease(y, eased), lo, hi);
  }

  lemma TriLinearBetween(v000: real, v100: real, v010: real, v110: real, v001: real, v101: real, v011: real, v111: real,
                         x: real, y: real, z: real, eased: bool, lo: real, hi: real)
    requires 0.0 <= x <= 1.0 && 0.0 <= y <= 1.0 && 0.0 <= z <= 1.0
    requires lo <= v000 <= hi && lo <= v100 <= hi && lo <= v010 <= hi && lo <= v110 <= hi
    requires lo <= v001 <= hi && lo <= v101 <= hi && lo <= v011 <= hi && lo <= v111 <= hi
    ensures lo <= TriLinearInterpolation(v000, v100, v010, v110, v001, v101, v011, v111, x, y, z, eased) <= hi
  {
    hide LinearInterpolation, Ease, BiLinearInterpolation;
    EaseShape(x, eased);
    EaseShape(y, eased);
    EaseShape(z, eased);
    var (ex, ey) := (Ease(x, eased), Ease(y, eased));
    BiLinearBetween(v000, v100, v010, v110, ex, ey, false, lo, hi);
    BiLinearBetween(v001, v101, v011, v111, ex, ey, false, lo, hi);
    LerpBetween(BiLinearInterpolation(v000, v100, v010, v110, ex, ey, false), BiLinearInterpolation(v001, v101, v011, v111, ex, ey, false), Ease(z, eased), lo, hi);
  }

  function Abs(x: real): real {
    if x < 0.0 then -x else x
  }

  // ---------------------------------------------------------------- cells

  // Conversion to int truncates towards zero.
  function Truncate(x: real): int {
    if x < 0.0 then -((-x).Floor) else x.Floor
  }

  // The myfloor macro: one below the floor at negative whole numbers.
  function MyFloor(x: real): int {
    if x < 0.0 then Truncate(x) - 1 else Truncate(x)
  }

  // A cell that contains x, its upper end included.
  predicate CellOf(x: real, x0: int) {
    x0 as real <= x <= x0 as real + 1.0
  }

  lemma MyFloorMeaning(x: real)
    ensures MyFloor(x) == if x < 0.0 && x == x.Floor as real then x.Floor - 1 else x.Floor
    ensures CellOf(x, MyFloor(x))
  {}

  // ---------------------------------------------------------------- noise in a given cell

  function Noise2InCell(lat: Lattice2, x0: int, y0: int, x: real, y: real, seed: int, eased: bool): real {
    BiLinearInterpolation(lat(x0, y0, seed), lat(x0 + 1, y0, seed), lat(x0, y0 + 1, seed), lat(x0 + 1, y0 + 1, seed),
                          x - x0 as real, y - y0 as real, eased)
  }

  function Noise3InCell(lat: Lattice3, x0: int, y0: int, z0: int, x: real, y: real, z: real, seed: int, eased: bool): real {
    TriLinearInterpolation(
      lat(x0, y0, z0, seed), lat(x0 + 1, y0, z0, seed), lat(x0, y0 + 1, z0, seed), lat(x0 + 1, y0 + 1, z0, seed),
      lat(x0, y0, z0 + 1, seed), lat(x0 + 1, y0, z0 + 1, seed), lat(x0, y0 + 1, z0 + 1, seed), lat(x0 + 1, y0 + 1, z0 + 1, seed),
      x - x0 as real, y - y0 as real, z - z0 as real, eased)
  }

  // noise2d_gradient and noise3d_gradient.
  function Noise2Gradient(lat: Lattice2, x: real, y: real, seed: int, eased: bool): real {
    Noise2InCell(lat, MyFloor(x), MyFloor(y), x, y, seed, eased)
  }

  function Noise3Gradient(lat: Lattice3, x: real, y: real, z: real, seed: int, eased: bool): real {
    Noise3InCell(lat, MyFloor(x), MyFloor(y), MyFloor(z), x, y, z, seed, eased)
  }

  lemma LerpEnds(v0: real, v1: real)
    ensures LinearInterpolation(v0, v1, 0.0) == v0 && LinearInterpolation(v0, v1, 1.0) == v1
  {}

  // On a cell boundary both cells give the same noise, so myfloor is as good as floor.
  lemma Noise2CellChoice(lat: Lattice2, x: real, y: real, seed: int, eased: bool)
    ensures Noise2Gradient(lat, x, y, seed, eased) == Noise2InCell(lat, x.Floor, y.Floor, x, y, seed, eased)
  {
    MyFloorMeaning(x);
    MyFloorMeaning(y);
    AnyCell2(lat, MyFloor(x), MyFloor(y), x, y, seed, eased);
  }

  // Any cell that contains the point does.
  lemma AnyCell2(lat: Lattice2, x0: int, y0: int, x: real, y: real, seed: int, eased: bool)
    requires CellOf(x, x0) && CellOf(y, y0)
    ensures Noise2InCell(lat, x0, y0, x, y, seed, eased) == Noise2InCell(lat, x.Floor, y.Floor, x, y, seed, eased)
  {
    Noise2AcrossX(lat, x0, x, y0, y, seed, eased);
    Noise2AcrossY(lat, x.Floor, x, y0, y, seed, eased);
  }

  lemma CellIsFloor(x: real, x0: int)
    requires CellOf(x, x0)
    ensures x0 == x.Floor || (x0 == x.Floor - 1 && x == x.Floor as real)
  {}

  lemma Noise2AcrossX(lat: Lattice2, x0: int, x: real, y0: int, y: real, seed: int, eased: bool)
    requires CellOf(x, x0)
    ensures Noise2InCell(lat, x0, y0, x, y, seed, eased) == Noise2InCell(lat, x.Floor, y0, x, y, seed, eased)
  {
    CellIsFloor(x, x0);
    if x0 != x.Floor {
      var a := x.Floor;
      EaseEnds(eased);
      assert x - a as real == 0.0 && x - (a - 1) as real == 1.0;
    }
  }

  lemma EaseEnds(eased: bool)
    ensures Ease(0.0, eased) == 0.0 && Ease(1.0, eased) == 1.0
  {}

  lemma Noise2AcrossY(lat: Lattice2, x0: int, x: real, y0: int, y: real, seed: int, eased: bool)
    requires CellOf(y, y0)
    ensures Noise2InCell(lat, x0, y0, x, y, seed, eased) == Noise2InCell(lat, x0, y.Floor, x, y, seed, eased)
  {
    CellIsFloor(y, y0);
    if y0 != y.Floor {
      var b := y.Floor;
      EaseEnds(eased);
      assert y - b as real == 0.0 && y - (b - 1) as real == 1.0;
    }
  }

  lemma Noise3CellChoice(lat: Lattice3, x: real, y: real, z: real, seed: int, eased: bool)
    ensures Noise3Gradient(lat, x, y, z, seed, eased) == Noise3InCell(lat, x.Floor, y.Floor, z.Floor, x, y, z, seed, eased)
  {
    MyFloorMeaning(x);
    MyFloorMeaning(y);
    MyFloorMeaning(z);
    AnyCell3(lat, MyFloor(x), MyFloor(y), MyFloor(z), x, y, z, seed, eased);
  }

  lemma AnyCell3(lat: Lattice3, x0: int, y0: int, z0: int, x: real, y: real, z: real, seed: int, eased: bool)
    requires CellOf(x, x0) && CellOf(y, y0) && CellOf(z, z0)
    ensures Noise3InCell(lat, x0, y0, z0, x, y, z, seed, eased) == Noise3InCell(lat, x.Floor, y.Floor, z.Floor, x, y, z, seed, eased)
  {
    Noise3AcrossX(lat, x0, x, y0, y, z0, z, seed, eased);
    Noise3AcrossY(lat, x.Floor, x, y0, y, z0, z, seed, eased);
    Noise3AcrossZ(lat, x.Floor, x, y.Floor, y, z0, z, seed, eased);
  }

  lemma Noise3AcrossX(lat: Lattice3, x0: int, x: real, y0: int, y: real, z0: int, z: real, seed: int, eased: bool)
    requires CellOf(x, x0)
    ensures Noise3InCell(lat, x0, y0, z0, x, y, z, seed, eased) == Noise3InCell(lat, x.Floor, y0, z0, x, y, z, seed, eased)
  {
    CellIsFloor(x, x0);
    if x0 != x.Floor {
      var a := x.Floor;
      EaseEnds(eased);
      EaseEnds(false);
      assert x - a as real == 0.0 && x - (a - 1) as real == 1.0;
    }
  }

  lemma Noise3AcrossY(lat: Lattice3, x0: int, x: real, y0: int, y: real, z0: int, z: real, seed: int, eased: bool)
    requires CellOf(y, y0)
    ensures Noise3InCell(lat, x0, y0, z0, x, y, z, seed, eased) == Noise3InCell(lat, x0, y.Floor, z0, x, y, z, seed, eased)
  {
    CellIsFloor(y, y0);
    if y0 != y.Floor {
      var b := y.Floor;
      EaseEnds(eased);
      assert y - b as real == 0.0 && y - (b - 1) as real == 1.0;
    }
  }

  lemma Noise3AcrossZ(lat: Lattice3, x0: int, x: real, y0: int, y: real, z0: int, z: real, seed: int, eased: bool)
    requires CellOf(z, z0)
    ensures Noise3InCell(lat, x0, y0, z0, x, y, z, seed, eased) == Noise3InCell(lat, x0, y0, z.Floor, x, y, z, seed, eased)
  {
    CellIsFloor(z, z0);
    if z0 != z.Floor {
      var c := z.Floor;
      EaseEnds(eased);
      assert z - c as real == 0.0 && z - (c - 1) as real == 1.0;
    }
  }

  // ---------------------------------------------------------------- what the noise at a point is like

  // The values at the corners of the cell are within these.
  ghost predicate CornersWithin2(lat: Lattice2, x: real, y: real, seed: int, lo: real, hi: real) {
    forall i, j :: x.Floor <= i <= x.Floor + 1 && y.Floor <= j <= y.Floor + 1 ==> lo <= lat(i, j, seed) <= hi
  }

  ghost predicate CornersWithin3(lat: Lattice3, x: real, y: real, z: real, seed: int, lo: real, hi: real) {
    forall i, j, k :: x.Floor <= i <= x.Floor + 1 && y.Floor <= j <= y.Floor + 1 && z.Floor <= k <= z.Floor + 1 ==>
      lo <= lat(i, j, k, seed) <= hi
  }

  /**
   The noise at a lattice point is the lattice value there; elsewhere it is between the corner values of the cell;
   turning the lattice round on an axis turns the noise round.
   */
  lemma Noise2Shape(lat: Lattice2, x: real, y: real, seed: int, eased: bool, lo: real, hi: real)
    ensures x == x.Floor as real && y == y.Floor as real ==> Noise2Gradient(lat, x, y, seed, eased) == lat(x.Floor, y.Floor, seed)
    ensures CornersWithin2(lat, x, y, seed, lo, hi) ==> lo <= Noise2Gradient(lat, x, y, seed, eased) <= hi
    ensures Noise2Gradient((i, j, s) => lat(-i, j, s), -x, y, seed, eased) == Noise2Gradient(lat, x, y, seed, eased)
    ensures Noise2Gradient((i, j, s) => lat(i, -j, s), x, -y, seed, eased) == Noise2Gradient(lat, x, y, seed, eased)
    ensures Noise2Gradient((i, j, s) => lat(j, i, s), y, x, seed, eased) == Noise2Gradient(lat, x, y, seed, eased)
  {
    hide Noise2Gradient, BiLinearInterpolation, Ease;
    Noise2CellChoice(lat, x, y, seed, eased);
    AtCorner(lat(x.Floor, y.Floor, seed), lat(x.Floor + 1, y.Floor, seed), lat(x.Floor, y.Floor + 1, seed), lat(x.Floor + 1, y.Floor + 1, seed), eased);
    if CornersWithin2(lat, x, y, seed, lo, hi) {
      BiLinearBetween(lat(x.Floor, y.Floor, seed), lat(x.Floor + 1, y.Floor, seed), lat(x.Floor, y.Floor + 1, seed),
        lat(x.Floor + 1, y.Floor + 1, seed), x - x.Floor as real, y - y.Floor as real, eased, lo, hi);
    }
    Turned2(lat, x, y, seed, eased);
  }

  lemma AtCorner(v00: real, v10: real, v01: real, v11: real, eased: bool)
    ensures BiLinearInterpolation(v00, v10, v01, v11, 0.0, 0.0, eased) == v00
  {
    hide LinearInterpolation;
    LerpEnds(v00, v10);
    LerpEnds(v01, v11);
    LerpEnds(v00, v01);
  }

  // Interpolating from the other side, or along the other axis first.
  lemma BiLinearTurned(v00: real, v10: real, v01: real, v11: real, x: real, y: real, eased: bool)
    requires 0.0 <= x <= 1.0 && 0.0 <= y <= 1.0
    ensures BiLinearInterpolation(v10, v00, v11, v01, 1.0 - x, y, eased) == BiLinearInterpolation(v00, v10, v01, v11, x, y, eased)
    ensures BiLinearInterpolation(v01, v11, v00, v10, x, 1.0 - y, eased) == BiLinearInterpolation(v00, v10, v01, v11, x, y, eased)
    ensures BiLinearInterpolation(v00, v01, v10, v11, y, x, eased) == BiLinearInterpolation(v00, v10, v01, v11, x, y, eased)
  {
    hide Ease;
    EaseShape(x, eased);
    EaseShape(y, eased);
    LerpTwice(v00, v10, v01, v11, Ease(x, eased), Ease(y, eased));
    assert Ease(1.0 - x, eased) == 1.0 - Ease(x, eased) && Ease(1.0 - y, eased) == 1.0 - Ease(y, eased);
  }

  lemma LerpTwice(v00: real, v10: real, v01: real, v11: real, s: real, t: real)
    ensures LinearInterpolation(LinearInterpolation(v00, v01, t), LinearInterpolation(v10, v11, t), s)
      == LinearInterpolation(LinearInterpolation(v00, v10, s), LinearInterpolation(v01, v11, s), t)
    ensures LinearInterpolation(LinearInterpolation(v10, v00, 1.0 - s), LinearInterpolation(v11, v01, 1.0 - s), t)
      == LinearInterpolation(LinearInterpolation(v00, v10, s), LinearInterpolation(v01, v11, s), t)
    ensures LinearInterpolation(LinearInterpolation(v01, v11, s), LinearInterpolation(v00, v10, s), 1.0 - t)
      == LinearInterpolation(LinearInterpolation(v00, v10, s), LinearInterpolation(v01, v11, s), t)
  {
    LerpCross(v00, v10, v01, v11, s, t);
    hide LinearInterpolation;
    LerpShape(v00, v10, s, s);
    LerpShape(v01, v11, s, s);
    LerpShape(LinearInterpolation(v00, v10, s), LinearInterpolation(v01, v11, s), t, t);
  }

  lemma LerpCross(v00: real, v10: real, v01: real, v11: real, s: real, t: real)
    ensures LinearInterpolation(LinearInterpolation(v00, v01, t), LinearInterpolation(v10, v11, t), s)
      == LinearInterpolation(LinearInterpolation(v00, v10, s), LinearInterpolation(v01, v11, s), t)
  {}

  lemma Turned2(lat: Lattice2, x: real, y: real, seed: int, eased: bool)
    ensures Noise2Gradient((i, j, s) => lat(-i, j, s), -x, y, seed, eased) == Noise2Gradient(lat, x, y, seed, eased)
    ensures Noise2Gradient((i, j, s) => lat(i, -j, s), x, -y, seed, eased) == Noise2Gradient(lat, x, y, seed, eased)
    ensures Noise2Gradient((i, j, s) => lat(j, i, s), y, x, seed, eased) == Noise2Gradient(lat, x, y, seed, eased)
  {
    hide Noise2Gradient, BiLinearInterpolation;
    var (x0, y0) := (x.Floor, y.Floor);
    var flipX: Lattice2, flipY: Lattice2, flip: Lattice2 := (i, j, s) => lat(-i, j, s), (i, j, s) => lat(i, -j, s), (i, j, s) => lat(j, i, s);
    Noise2CellChoice(lat, x, y, seed, eased);
    Noise2CellChoice(flipX, -x, y, seed, eased);
    Noise2CellChoice(flipY, x, -y, seed, eased);
    Noise2CellChoice(flip, y, x, seed, eased);
    AnyCell2(flipX, -x0 - 1, y0, -x, y, seed, eased);
    AnyCell2(flipY, x0, -y0 - 1, x, -y, seed, eased);
    BiLinearTurned(lat(x0, y0, seed), lat(x0 + 1, y0, seed), lat(x0, y0 + 1, seed), lat(x0 + 1, y0 + 1, seed), x - x0 as real, y - y0 as real, eased);
  }

  /**
   In three dimensions: the same at lattice points and between them; exchanging axes in the lattice exchanges them in the
   noise; and a lattice that does not depend on the third axis gives the noise in two dimensions.
   */
  lemma Noise3Shape(lat: Lattice3, x: real, y: real, z: real, seed: int, eased: bool, lo: real, hi: real)
    ensures x == x.Floor as real && y == y.Floor as real && z == z.Floor as real ==>
      Noise3Gradient(lat, x, y, z, seed, eased) == lat(x.Floor, y.Floor, z.Floor, seed)
    ensures CornersWithin3(lat, x, y, z, seed, lo, hi) ==> lo <= Noise3Gradient(lat, x, y, z, seed, eased) <= hi
    ensures Noise3Gradient((i, j, k, s) => lat(i, k, j, s), x, z, y, seed, eased) == Noise3Gradient(lat, x, y, z, seed, eased)
    ensures Noise3Gradient((i, j, k, s) => lat(k, j, i, s), z, y, x, seed, eased) == Noise3Gradient(lat, x, y, z, seed, eased)
  {
    hide Noise3Gradient, TriLinearInterpolation;
    Noise3CellChoice(lat, x, y, z, seed, eased);
    var (x0, y0, z0) := (x.Floor, y.Floor, z.Floor);
    AtCorner3(lat(x0, y0, z0, seed), lat(x0 + 1, y0, z0, seed), lat(x0, y0 + 1, z0, seed), lat(x0 + 1, y0 + 1, z0, seed),
      lat(x0, y0, z0 + 1, seed), lat(x0 + 1, y0, z0 + 1, seed), lat(x0, y0 + 1, z0 + 1, seed), lat(x0 + 1, y0 + 1, z0 + 1, seed), eased);
    if CornersWithin3(lat, x, y, z, seed, lo, hi) {
      TriLinearBetween(lat(x0, y0, z0, seed), lat(x0 + 1, y0, z0, seed), lat(x0, y0 + 1, z0, seed), lat(x0 + 1, y0 + 1, z0, seed),
        lat(x0, y0, z0 + 1, seed), lat(x0 + 1, y0, z0 + 1, seed), lat(x0, y0 + 1, z0 + 1, seed), lat(x0 + 1, y0 + 1, z0 + 1, seed),
        x - x0 as real, y - y0 as real, z - z0 as real, eased, lo, hi);
    }
    var flipYZ: Lattice3, flipXZ: Lattice3 := (i, j, k, s) => lat(i, k, j, s), (i, j, k, s) => lat(k, j, i, s);
    Noise3CellChoice(flipYZ, x, z, y, seed, eased);
    Noise3CellChoice(flipXZ, z, y, x, seed, eased);
    TriLinearTurned(lat(x0, y0, z0, seed), lat(x0 + 1, y0, z0, seed), lat(x0, y0 + 1, z0, seed), lat(x0 + 1, y0 + 1, z0, seed),
      lat(x0, y0, z0 + 1, seed), lat(x0 + 1, y0, z0 + 1, seed), lat(x0, y0 + 1, z0 + 1, seed), lat(x0 + 1, y0 + 1, z0 + 1, seed),
      x - x0 as real, y - y0 as real, z - z0 as real, eased);
  }

  lemma AtCorner3(v000: real, v100: real, v010: real, v110: real, v001: real, v101: real, v011: real, v111: real, eased: bool)
    ensures TriLinearInterpolation(v000, v100, v010, v110, v001, v101, v011, v111, 0.0, 0.0, 0.0, eased) == v000
  {
    hide LinearInterpolation, BiLinearInterpolation;
    AtCorner(v000, v100, v010, v110, false);
    AtCorner(v001, v101, v011, v111, false);
    LerpEnds(v000, v001);
  }

  lemma TriLinearTurned(v000: real, v100: real, v010: real, v110: real, v001: real, v101: real, v011: real, v111: real,
                        x: real, y: real, z: real, eased: bool)
    ensures TriLinearInterpolation(v000, v100, v001, v101, v010, v110, v011, v111, x, z, y, eased)
      == TriLinearInterpolation(v000, v100, v010, v110, v001, v101, v011, v111, x, y, z, eased)
    ensures TriLinearInterpolation(v000, v001, v010, v011, v100, v101, v110, v111, z, y, x, eased)
      == TriLinearInterpolation(v000, v100, v010, v110, v001, v101, v011, v111, x, y, z, eased)
  {
    hide EaseCurve, LinearInterpolation;
    var (u, v, w) := (Ease(x, eased), Ease(y, eased), Ease(z, eased));
    LerpTwice(LinearInterpolation(v000, v100, u), LinearInterpolation(v010, v110, u), LinearInterpolation(v001, v101, u), LinearInterpolation(v011, v111, u), v, w);
    LerpThrice(v000, v100, v010, v110, v001, v101, v011, v111, u, v, w);
  }

  lemma LerpThrice(v000: real, v100: real, v010: real, v110: real, v001: real, v101: real, v011: real, v111: real, u: real, v: real, w: real)
    ensures
      LinearInterpolation(
        LinearInterpolation(LinearInterpolation(v000, v001, w), LinearInterpolation(v010, v011, w), v),
        LinearInterpolation(LinearInterpolation(v100, v101, w), LinearInterpolation(v110, v111, w), v), u)
      == LinearInterpolation(
        LinearInterpolation(LinearInterpolation(v000, v100, u), LinearInterpolation(v010, v110, u), v),
        LinearInterpolation(LinearInterpolation(v001, v101, u), LinearInterpolation(v011, v111, u), v), w)
  {
    hide LinearInterpolation;
    // Bring the first axis inside, one level at a time.
    LerpTwice(LinearInterpolation(v000, v001, w), LinearInterpolation(v100, v101, w), LinearInterpolation(v010, v011, w), LinearInterpolation(v110, v111, w), u, v);
    LerpTwice(v000, v100, v001, v101, u, w);
    LerpTwice(v010, v110, v011, v111, u, w);
    LerpTwice(LinearInterpolation(v000, v100, u), LinearInterpolation(v010, v110, u), LinearInterpolation(v001, v101, u), LinearInterpolation(v011, v111, u), v, w);
  }

  lemma Noise3IsNoise2(lat: Lattice2, x: real, y: real, z: real, seed: int, eased: bool)
    ensures Noise3Gradient((i, j, k, s) => lat(i, j, s), x, y, z, seed, eased) == Noise2Gradient(lat, x, y, seed, eased)
  {
    hide Noise3Gradient, Noise2Gradient, EaseCurve;
    var deep: Lattice3 := (i, j, k, s) => lat(i, j, s);
    Noise3CellChoice(deep, x, y, z, seed, eased);
    Noise2CellChoice(lat, x, y, seed, eased);
  }

  // ---------------------------------------------------------------- octaves

  datatype NoiseParams = NoiseParams(
    offset: real, scale: real, spreadX: real, spreadY: real, spreadZ: real,
    seed: int, octaves: nat, persist: real, lacunarity: real,
    defaultsFlag: bool, easedFlag: bool, absvalueFlag: bool)
  {
    predicate Eased2() { defaultsFlag || easedFlag }
    predicate Eased3() { easedFlag }

    function Fold(v: real): real {
      if absvalueFlag then Abs(v) else v
    }
  }

  function Power(b: real, n: nat): real {
    if n == 0 then 1.0 else Power(b, n - 1) * b
  }

  function Product(a: real, b: real): real {
    a * b
  }

  // One octave at (x, y), given in units of the spread: frequency f, amplitude g.
  function Octave2(lat: Lattice2, np: NoiseParams, x: real, y: real, seed: int, f: real, g: real): real {
    Product(g, np.Fold(Noise2Gradient(lat, x * f, y * f, seed, np.Eased2())))
  }

  function Octave3(lat: Lattice3, np: NoiseParams, x: real, y: real, z: real, seed: int, f: real, g: real): real {
    Product(g, np.Fold(Noise3Gradient(lat, x * f, y * f, z * f, seed, np.Eased3())))
  }

  // The first n octaves, with persistence p.
  function OctaveSum2(lat: Lattice2, np: NoiseParams, p: real, x: real, y: real, seed: int, n: nat): real {
    if n == 0 then 0.0
    else
      OctaveSum2(lat, np, p, x, y, seed, n - 1)
        + Octave2(lat, np, x, y, seed + (n - 1), Power(np.lacunarity, n - 1), Power(p, n - 1))
  }

  function OctaveSum3(lat: Lattice3, np: NoiseParams, p: real, x: real, y: real, z: real, seed: int, n: nat): real {
    if n == 0 then 0.0
    else
      OctaveSum3(lat, np, p, x, y, z, seed, n - 1)
        + Octave3(lat, np, x, y, z, seed + (n - 1), Power(np.lacunarity, n - 1), Power(p, n - 1))
  }

  // An octave depends on its coordinates only through their products with the frequency.
  lemma OctaveAt2(lat: Lattice2, np: NoiseParams, px: real, py: real, gx: real, gy: real, seed: int, f: real, g: real)
    requires px * f == gx && py * f == gy
    ensures Octave2(lat, np, px, py, seed, f, g) == Product(g, np.Fold(Noise2Gradient(lat, gx, gy, seed, np.Eased2())))
  {
    hide Product, Noise2Gradient;
  }

  lemma OctaveAt3(lat: Lattice3, np: NoiseParams, px: real, py: real, pz: real, gx: real, gy: real, gz: real, seed: int, f: real, g: real)
    requires px * f == gx && py * f == gy && pz * f == gz
    ensures Octave3(lat, np, px, py, pz, seed, f, g) == Product(g, np.Fold(Noise3Gradient(lat, gx, gy, gz, seed, np.Eased3())))
  {
    hide Product, Noise3Gradient;
  }

  /**
   Octaves nest: the first is the noise itself at full strength, the others are the same sum at coordinates stretched by
   the lacunarity, with the next seed, and weakened by the persistence.
   */
  lemma {:induction false} OctavesNest2(lat: Lattice2, np: NoiseParams, p: real, x: real, y: real, seed: int, n: nat)
    ensures OctaveSum2(lat, np, p, x, y, seed, n + 1)
      == np.Fold(Noise2Gradient(lat, x, y, seed, np.Eased2()))
         + Product(p, OctaveSum2(lat, np, p, Product(np.lacunarity, x), Product(np.lacunarity, y), seed + 1, n))
  {
    hide Noise2Gradient, NoiseParams.Fold, Octave2, Product, Power;
    if n == 0 {
      FirstOctave2(lat, np, p, x, y, seed);
    } else {
      OctavesNest2(lat, np, p, x, y, seed, n - 1);
      NextNests2(lat, np, p, x, y, seed, n);
      ProductAdds(p, OctaveSum2(lat, np, p, Product(np.lacunarity, x), Product(np.lacunarity, y), seed + 1, n - 1),
        Octave2(lat, np, Product(np.lacunarity, x), Product(np.lacunarity, y), seed + 1 + (n - 1), Power(np.lacunarity, n - 1), Power(p, n - 1)));
    }
  }

  lemma FirstOctave2(lat: Lattice2, np: NoiseParams, p: real, x: real, y: real, seed: int)
    ensures OctaveSum2(lat, np, p, x, y, seed, 1) == np.Fold(Noise2Gradient(lat, x, y, seed, np.Eased2()))
    ensures Product(p, OctaveSum2(lat, np, p, Product(np.lacunarity, x), Product(np.lacunarity, y), seed + 1, 0)) == 0.0
  {
    hide Noise2Gradient, NoiseParams.Fold;
    assert Power(np.lacunarity, 0) == 1.0 && Power(p, 0) == 1.0;
    assert OctaveSum2(lat, np, p, x, y, seed, 0) == 0.0 && seed + 0 == seed;
    assert x * 1.0 == x && y * 1.0 == y;
  }

  lemma NextNests2(lat: Lattice2, np: NoiseParams, p: real, x: real, y: real, seed: int, n: nat)
    requires n > 0
    ensures Octave2(lat, np, x, y, seed + n, Power(np.lacunarity, n), Power(p, n))
      == Product(p, Octave2(lat, np, Product(np.lacunarity, x), Product(np.lacunarity, y), seed + 1 + (n - 1), Power(np.lacunarity, n - 1), Power(p, n - 1)))
  {
    hide Power, Product, Octave2;
    var l, f, g := np.lacunarity, Power(np.lacunarity, n - 1), Power(np.lacunarity, n);
    LastFactor(l, n);
    LastFactor(p, n);
    Stretched(x, l, f, g);
    Stretched(y, l, f, g);
    NestAt2(lat, np, p, x, y, Product(x, g), Product(y, g), seed + n, f, g, Power(p, n - 1), Power(p, n));
    assert seed + 1 + (n - 1) == seed + n;
  }

  lemma NestAt2(lat: Lattice2, np: NoiseParams, p: real, x: real, y: real, gx: real, gy: real, seed: int, f: real, g: real, q: real, r: real)
    requires x * g == gx && Product(np.lacunarity, x) * f == gx && y * g == gy && Product(np.lacunarity, y) * f == gy
    requires r == Product(q, p)
    ensures Octave2(lat, np, x, y, seed, g, r) == Product(p, Octave2(lat, np, Product(np.lacunarity, x), Product(np.lacunarity, y), seed, f, q))
  {
    hide Noise2Gradient, NoiseParams.Fold, Product, Octave2;
    OctaveAt2(lat, np, x, y, gx, gy, seed, g, r);
    OctaveAt2(lat, np, Product(np.lacunarity, x), Product(np.lacunarity, y), gx, gy, seed, f, q);
    Reorder(np.Fold(Noise2Gradient(lat, gx, gy, seed, np.Eased2())), p, q);
  }

  /** The same in three dimensions. */
  lemma {:induction false} OctavesNest3(lat: Lattice3, np: NoiseParams, p: real, x: real, y: real, z: real, seed: int, n: nat)
    ensures OctaveSum3(lat, np, p, x, y, z, seed, n + 1)
      == np.Fold(Noise3Gradient(lat, x, y, z, seed, np.Eased3()))
         + Product(p, OctaveSum3(lat, np, p, Product(np.lacunarity, x), Product(np.lacunarity, y), Product(np.lacunarity, z), seed + 1, n))
  {
    hide Noise3Gradient, NoiseParams.Fold, Octave3, Product, Power;
    if n == 0 {
      FirstOctave3(lat, np, p, x, y, z, seed);
    } else {
      OctavesNest3(lat, np, p, x, y, z, seed, n - 1);
      NextNests3(lat, np, p, x, y, z, seed, n);
      ProductAdds(p, OctaveSum3(lat, np, p, Product(np.lacunarity, x), Product(np.lacunarity, y), Product(np.lacunarity, z), seed + 1, n - 1),
        Octave3(lat, np, Product(np.lacunarity, x), Product(np.lacunarity, y), Product(np.lacunarity, z), seed + 1 + (n - 1), Power(np.lacunarity, n - 1), Power(p, n - 1)));
    }
  }

  lemma FirstOctave3(lat: Lattice3, np: NoiseParams, p: real, x: real, y: real, z: real, seed: int)
    ensures OctaveSum3(lat, np, p, x, y, z, seed, 1) == np.Fold(Noise3Gradient(lat, x, y, z, seed, np.Eased3()))
    ensures Product(p, OctaveSum3(lat, np, p, Product(np.lacunarity, x), Product(np.lacunarity, y), Product(np.lacunarity, z), seed + 1, 0)) == 0.0
  {
    hide Noise3Gradient, NoiseParams.Fold;
    assert Power(np.lacunarity, 0) == 1.0 && Power(p, 0) == 1.0;
    assert OctaveSum3(lat, np, p, x, y, z, seed, 0) == 0.0 && seed + 0 == seed;
    assert x * 1.0 == x && y * 1.0 == y && z * 1.0 == z;
  }

  lemma NextNests3(lat: Lattice3, np: NoiseParams, p: real, x: real, y: real, z: real, seed: int, n: nat)
    requires n > 0
    ensures Octave3(lat, np, x, y, z, seed + n, Power(np.lacunarity, n), Power(p, n))
      == Product(p, Octave3(lat, np, Product(np.lacunarity, x), Product(np.lacunarity, y), Product(np.lacunarity, z), seed + 1 + (n - 1), Power(np.lacunarity, n - 1), Power(p, n - 1)))
  {
    hide Power, Product, Octave3;
    var l, f, g := np.lacunarity, Power(np.lacunarity, n - 1), Power(np.lacunarity, n);
    LastFactor(l, n);
    LastFactor(p, n);
    Stretched(x, l, f, g);
    Stretched(y, l, f, g);
    Stretched(z, l, f, g);
    NestAt3(lat, np, p, x, y, z, Product(x, g), Product(y, g), Product(z, g), seed + n, f, g, Power(p, n - 1), Power(p, n));
    assert seed + 1 + (n - 1) == seed + n;
  }

  lemma NestAt3(lat: Lattice3, np: NoiseParams, p: real, x: real, y: real, z: real, gx: real, gy: real, gz: real, seed: int, f: real, g: real, q: real, r: real)
    requires x * g == gx && Product(np.lacunarity, x) * f == gx && y * g == gy && Product(np.lacunarity, y) * f == gy && z * g == gz && Product(np.lacunarity, z) * f == gz
    requires r == Product(q, p)
    ensures Octave3(lat, np, x, y, z, seed, g, r) == Product(p, Octave3(lat, np, Product(np.lacunarity, x), Product(np.lacunarity, y), Product(np.lacunarity, z), seed, f, q))
  {
    hide Noise3Gradient, NoiseParams.Fold, Product, Octave3;
    OctaveAt3(lat, np, x, y, z, gx, gy, gz, seed, g, r);
    OctaveAt3(lat, np, Product(np.lacunarity, x), Product(np.lacunarity, y), Product(np.lacunarity, z), gx, gy, gz, seed, f, q);
    Reorder(np.Fold(Noise3Gradient(lat, gx, gy, gz, seed, np.Eased3())), p, q);
  }

  lemma LastFactor(b: real, n: nat)
    requires n > 0
    ensures Power(b, n) == Product(Power(b, n - 1), b)
  {}

  lemma Stretched(x: real, l: real, f: real, g: real)
    requires g == Product(f, l)
    ensures x * g == Product(x, g) && Product(l, x) * f == Product(x, g)
  {}

  lemma Reorder(v: real, p: real, q: real)
    ensures Product(Product(q, p), v) == Product(p, Product(q, v))
  {}

  lemma ProductAdds(p: real, a: real, b: real)
    ensures Product(p, a + b) == Product(p, a) + Product(p, b)
  {}

  lemma OctaveValue2(lat: Lattice2, np: NoiseParams, x: real, y: real, seed: int, f: real, g: real, v: real)
    requires v == np.Fold(Noise2Gradient(lat, x * f, y * f, seed, np.Eased2()))
    ensures Octave2(lat, np, x, y, seed, f, g) == Product(g, v)
  {
    hide Product, Noise2Gradient;
  }

  lemma OctaveValue3(lat: Lattice3, np: NoiseParams, x: real, y: real, z: real, seed: int, f: real, g: real, v: real)
    requires v == np.Fold(Noise3Gradient(lat, x * f, y * f, z * f, seed, np.Eased3()))
    ensures Octave3(lat, np, x, y, z, seed, f, g) == Product(g, v)
  {
    hide Product, Noise3Gradient;
  }

  lemma StartOctaves2(lat: Lattice2, np: NoiseParams, p: real, x: real, y: real, seed: int)
    ensures OctaveSum2(lat, np, p, x, y, seed, 0) == 0.0 && Power(np.lacunarity, 0) == 1.0 && Power(p, 0) == 1.0
  {}

  lemma StartOctaves3(lat: Lattice3, np: NoiseParams, p: real, x: real, y: real, z: real, seed: int)
    ensures OctaveSum3(lat, np, p, x, y, z, seed, 0) == 0.0 && Power(np.lacunarity, 0) == 1.0 && Power(p, 0) == 1.0
  {}

  lemma NextOctave2(lat: Lattice2, np: NoiseParams, p: real, x: real, y: real, seed: int, n: nat, f: real, g: real)
    requires f == Power(np.lacunarity, n) && g == Power(p, n)
    ensures Power(np.lacunarity, n + 1) == f * np.lacunarity && Power(p, n + 1) == g * p
    ensures OctaveSum2(lat, np, p, x, y, seed, n + 1)
      == OctaveSum2(lat, np, p, x, y, seed, n) + Octave2(lat, np, x, y, seed + n, f, g)
  {
    hide Octave2;
  }

  lemma NextOctave3(lat: Lattice3, np: NoiseParams, p: real, x: real, y: real, z: real, seed: int, n: nat, f: real, g: real)
    requires f == Power(np.lacunarity, n) && g == Power(p, n)
    ensures Power(np.lacunarity, n + 1) == f * np.lacunarity && Power(p, n + 1) == g * p
    ensures OctaveSum3(lat, np, p, x, y, z, seed, n + 1)
      == OctaveSum3(lat, np, p, x, y, z, seed, n) + Octave3(lat, np, x, y, z, seed + n, f, g)
  {
    hide Octave3;
  }

  function Ratio(a: real, spread: real): real
    requires spread != 0.0
  {
    a / spread
  }

  function Shifted(np: NoiseParams, sum: real): real {
    np.offset + sum * np.scale
  }

  // The noise at a point, all octaves scaled and shifted.
  function Perlin2(lat: Lattice2, np: NoiseParams, x: real, y: real, seed: int): real
    requires np.spreadX != 0.0 && np.spreadY != 0.0
  {
    Shifted(np, OctaveSum2(lat, np, np.persist, Ratio(x, np.spreadX), Ratio(y, np.spreadY), seed + np.seed, np.octaves))
  }

  function Perlin3(lat: Lattice3, np: NoiseParams, x: real, y: real, z: real, seed: int): real
    requires np.spreadX != 0.0 && np.spreadY != 0.0 && np.spreadZ != 0.0
  {
    Shifted(np, OctaveSum3(lat, np, np.persist, Ratio(x, np.spreadX), Ratio(y, np.spreadY), Ratio(z, np.spreadZ), seed + np.seed, np.octaves))
  }

  // w is v, or its absolute value.
  ghost predicate IsFolded(w: real, v: real, absolute: bool) {
    if absolute then w >= 0.0 && (w == v || w == -v) else w == v
  }

  /**
   Without octaves noise is the offset. With octaves it is the noise of the first at the point in units of the spread,
   folded to its absolute value if the flag is set, plus the others weakened, all scaled and shifted.
   */
  lemma PerlinOctaves2(lat: Lattice2, np: NoiseParams, x: real, y: real, seed: int) returns (w: real)
    requires np.spreadX != 0.0 && np.spreadY != 0.0
    ensures np.octaves == 0 ==> Perlin2(lat, np, x, y, seed) == np.offset
    ensures np.octaves > 0 ==>
      && IsFolded(w, Noise2Gradient(lat, x / np.spreadX, y / np.spreadY, seed + np.seed, np.defaultsFlag || np.easedFlag), np.absvalueFlag)
      && Perlin2(lat, np, x, y, seed) == np.offset + Product(np.scale, w
           + Product(np.persist, OctaveSum2(lat, np, np.persist, Product(np.lacunarity, x / np.spreadX), Product(np.lacunarity, y / np.spreadY), seed + np.seed + 1, np.octaves - 1)))
  {
    hide Noise2Gradient, Octave2;
    w := np.Fold(Noise2Gradient(lat, x / np.spreadX, y / np.spreadY, seed + np.seed, np.Eased2()));
    if np.octaves > 0 {
      OctavesNest2(lat, np, np.persist, x / np.spreadX, y / np.spreadY, seed + np.seed, np.octaves - 1);
    }
  }

  /** The same in three dimensions, where the defaults flag does not ease. */
  lemma PerlinOctaves3(lat: Lattice3, np: NoiseParams, x: real, y: real, z: real, seed: int) returns (w: real)
    requires np.spreadX != 0.0 && np.spreadY != 0.0 && np.spreadZ != 0.0
    ensures np.octaves == 0 ==> Perlin3(lat, np, x, y, z, seed) == np.offset
    ensures np.octaves > 0 ==>
      && IsFolded(w, Noise3Gradient(lat, x / np.spreadX, y / np.spreadY, z / np.spreadZ, seed + np.seed, np.easedFlag), np.absvalueFlag)
      && Perlin3(lat, np, x, y, z, seed) == np.offset + Product(np.scale, w
           + Product(np.persist, OctaveSum3(lat, np, np.persist, Product(np.lacunarity, x / np.spreadX), Product(np.lacunarity, y / np.spreadY), Product(np.lacunarity, z / np.spreadZ), seed + np.seed + 1, np.octaves - 1)))
  {
    hide Noise3Gradient, Octave3;
    w := np.Fold(Noise3Gradient(lat, x / np.spreadX, y / np.spreadY, z / np.spreadZ, seed + np.seed, np.Eased3()));
    if np.octaves > 0 {
      OctavesNest3(lat, np, np.persist, x / np.spreadX, y / np.spreadY, z / np.spreadZ, seed + np.seed, np.octaves - 1);
    }
  }

  // NoisePerlin2D and NoisePerlin3D.
  method NoisePerlin2D(lat: Lattice2, np: NoiseParams, x0: real, y0: real, seed0: int) returns (v: real)
    requires np.spreadX != 0.0 && np.spreadY != 0.0
    ensures v == Perlin2(lat, np, x0, y0, seed0)
  {
    hide Noise2Gradient, OctaveSum2, Octave2, Power;
    StartOctaves2(lat, np, np.persist, x0 / np.spreadX, y0 / np.spreadY, seed0 + np.seed);
    var a, f, g := 0.0, 1.0, 1.0;
    var x, y := x0 / np.spreadX, y0 / np.spreadY;
    var seed := seed0 + np.seed;
    for i := 0 to np.octaves
      invariant f == Power(np.lacunarity, i) && g == Power(np.persist, i)
      invariant a == OctaveSum2(lat, np, np.persist, x, y, seed, i)
    {
      var noiseval := Noise2Gradient(lat, x * f, y * f, seed + i, np.Eased2());
      if np.absvalueFlag {
        noiseval := Abs(noiseval);
      }
      OctaveValue2(lat, np, x, y, seed + i, f, g, noiseval);
      NextOctave2(lat, np, np.persist, x, y, seed, i, f, g);
      a := a + g * noiseval;
      f := f * np.lacunarity;
      g := g * np.persist;
    }
    v := np.offset + a * np.scale;
  }

  method NoisePerlin3D(lat: Lattice3, np: NoiseParams, x0: real, y0: real, z0: real, seed0: int) returns (v: real)
    requires np.spreadX != 0.0 && np.spreadY != 0.0 && np.spreadZ != 0.0
    ensures v == Perlin3(lat, np, x0, y0, z0, seed0)
  {
    hide Noise3Gradient, OctaveSum3, Octave3, Power;
    StartOctaves3(lat, np, np.persist, x0 / np.spreadX, y0 / np.spreadY, z0 / np.spreadZ, seed0 + np.seed);
    var a, f, g := 0.0, 1.0, 1.0;
    var x, y, z := x0 / np.spreadX, y0 / np.spreadY, z0 / np.spreadZ;
    var seed := seed0 + np.seed;
    for i := 0 to np.octaves
      invariant f == Power(np.lacunarity, i) && g == Power(np.persist, i)
      invariant a == OctaveSum3(lat, np, np.persist, x, y, z, seed, i)
    {
      var noiseval := Noise3Gradient(lat, x * f, y * f, z * f, seed + i, np.Eased3());
      if np.absvalueFlag {
        noiseval := Abs(noiseval);
      }
      OctaveValue3(lat, np, x, y, z, seed + i, f, g, noiseval);
      NextOctave3(lat, np, np.persist, x, y, z, seed, i, f, g);
      a := a + g * noiseval;
      f := f * np.lacunarity;
      g := g * np.persist;
    }
    v := np.offset + a * np.scale;
  }
}
