/**
 Walking a line of grid points through the noise lattice in equal steps (src/noise.cpp): instead of
 taking the floor at every point, the walk carries the offset in the cell and moves to the next cell
 when the offset reaches 1.
 */
module NoiseLattice {
  import opened NoiseMath
  import opened RowMajor

  function Times(i: nat, step: real): real {
    i as real * step
  }

  lemma TimesSucc(i: nat, step: real)
    ensures Times(0, step) == 0.0 && Times(i + 1, step) == Times(i, step) + step
  {}

  lemma TimesMono(i: nat, j: nat, step: real)
    requires i <= j && step >= 0.0
    ensures 0.0 <= Times(i, step) <= Times(j, step)
  {}

  lemma TimesMonoStep(i: nat, a: real, b: real)
    requires a <= b
    ensures Times(i, a) <= Times(i, b)
  {}

  // The offset of a coordinate in its cell.
  function Fraction(x: real): (u: real)
    ensures 0.0 <= u < 1.0
  {
    x - x.Floor as real
  }

  // After i steps from offset orig, the walk stands at offset u of the n-th cell from the first. It moves on by one cell
  // at most, so with longer steps the offset grows beyond the cell.
  predicate OnAxis(orig: real, step: real, i: nat, u: real, n: nat) {
    u + n as real == orig + Times(i, step) && 0.0 <= u && if step <= 1.0 then u < 1.0 else n == i
  }

  lemma AxisStarts(x: real, step: real)
    ensures OnAxis(Fraction(x), step, 0, Fraction(x), 0)
  {
    TimesSucc(0, step);
  }

  // One step: the update the loops make.
  lemma AxisStep(orig: real, step: real, i: nat, u: real, n: nat)
    requires OnAxis(orig, step, i, u, n) && 0.0 <= step
    ensures if u + step >= 1.0 then OnAxis(orig, step, i + 1, u + step - 1.0, n + 1) else OnAxis(orig, step, i + 1, u + step, n)
  {
    TimesSucc(i, step);
  }

  // The cell so reached, counted from the first.
  function WalkCell(orig: real, step: real, i: nat): int {
    if step <= 1.0 then (orig + Times(i, step)).Floor else i
  }

  // Up to the last of s grid points the walk keeps up with the grid.
  predicate Follows(orig: real, step: real, s: nat) {
    step <= 1.0 || s <= 1 || orig + Times(s - 1, step - 1.0) <= 1.0
  }

  // It does exactly if every grid point lies in the cell the walk has reached, the upper end included.
  lemma FollowsMeaning(x: real, step: real, s: nat)
    requires step >= 0.0
    ensures Follows(Fraction(x), step, s) <==>
      forall i: nat :: i < s ==> CellOf(x + Times(i, step), x.Floor + WalkCell(Fraction(x), step, i))
  {
    if Follows(Fraction(x), step, s) {
      forall i: nat | i < s ensures CellOf(x + Times(i, step), x.Floor + WalkCell(Fraction(x), step, i)) {
        InCell(x, step, i);
        if step > 1.0 {
          TimesMono(i, s - 1, step - 1.0);
        }
      }
    } else {
      InCell(x, step, s - 1);
    }
  }

  lemma InCell(x: real, step: real, i: nat)
    requires step >= 0.0
    ensures CellOf(x + Times(i, step), x.Floor + WalkCell(Fraction(x), step, i)) <==>
      step <= 1.0 || Fraction(x) + Times(i, step - 1.0) <= 1.0
  {
    TimesMinus(i, step);
    TimesMono(0, i, step);
    if step > 1.0 {
      TimesMono(0, i, step - 1.0);
    }
  }

  lemma TimesMinus(i: nat, step: real)
    ensures Times(i, step) == Times(i, step - 1.0) + i as real
  {}

  // The number of lattice points used along an axis of s grid points.
  function LatticePoints(orig: real, s: nat, step: real): (n: int)
    ensures 0.0 <= orig && 0.0 <= step ==> n >= 2
  {
    (orig + Times(s, step)).Floor + 2
  }

  lemma AxisInLattice(orig: real, step: real, s: nat, i: nat, u: real, n: nat)
    requires OnAxis(orig, step, i, u, n) && i <= s && 0.0 <= orig && 0.0 <= step
    ensures n + 1 < LatticePoints(orig, s, step)
  {
    TimesMono(i, s, step);
  }

  // The offset in the walk's cell.
  lemma AxisOffset(x: real, step: real, i: nat, u: real, n: nat)
    requires OnAxis(Fraction(x), step, i, u, n)
    ensures x + Times(i, step) - (x.Floor + n) as real == u && n == WalkCell(Fraction(x), step, i)
  {}

  // ---------------------------------------------------------------- what the walk computes

  // The interpolation of grid point (i, j) in the cell the walk has reached.
  function WalkNoise2(lat: Lattice2, x: real, y: real, stepX: real, stepY: real, i: nat, j: nat, seed: int, eased: bool): real {
    Noise2InCell(lat, x.Floor + WalkCell(Fraction(x), stepX, i), y.Floor + WalkCell(Fraction(y), stepY, j),
                 x + Times(i, stepX), y + Times(j, stepY), seed, eased)
  }

  function WalkNoise3(lat: Lattice3, x: real, y: real, z: real, stepX: real, stepY: real, stepZ: real, i: nat, j: nat, k: nat,
                      seed: int, eased: bool): real {
    Noise3InCell(lat, x.Floor + WalkCell(Fraction(x), stepX, i), y.Floor + WalkCell(Fraction(y), stepY, j),
                 z.Floor + WalkCell(Fraction(z), stepZ, k), x + Times(i, stepX), y + Times(j, stepY), z + Times(k, stepZ), seed, eased)
  }

  lemma WalkedPoint2(lat: Lattice2, x: real, y: real, stepX: real, stepY: real, i: nat, j: nat,
                     u: real, v: real, nx: nat, ny: nat, seed: int, eased: bool)
    requires OnAxis(Fraction(x), stepX, i, u, nx) && OnAxis(Fraction(y), stepY, j, v, ny)
    ensures var (x0, y0) := (x.Floor + nx, y.Floor + ny);
      WalkNoise2(lat, x, y, stepX, stepY, i, j, seed, eased)
      == BiLinearInterpolation(lat(x0, y0, seed), lat(x0 + 1, y0, seed), lat(x0, y0 + 1, seed), lat(x0 + 1, y0 + 1, seed), u, v, eased)
  {
    hide BiLinearInterpolation, Times, OnAxis, WalkCell, Fraction;
    AxisOffset(x, stepX, i, u, nx);
    AxisOffset(y, stepY, j, v, ny);
  }

  lemma WalkedPoint3(lat: Lattice3, x: real, y: real, z: real, stepX: real, stepY: real, stepZ: real, i: nat, j: nat, k: nat,
                     u: real, v: real, w: real, nx: nat, ny: nat, nz: nat, seed: int, eased: bool)
    requires OnAxis(Fraction(x), stepX, i, u, nx) && OnAxis(Fraction(y), stepY, j, v, ny) && OnAxis(Fraction(z), stepZ, k, w, nz)
    ensures var (x0, y0, z0) := (x.Floor + nx, y.Floor + ny, z.Floor + nz);
      WalkNoise3(lat, x, y, z, stepX, stepY, stepZ, i, j, k, seed, eased)
      == TriLinearInterpolation(
           lat(x0, y0, z0, seed), lat(x0 + 1, y0, z0, seed), lat(x0, y0 + 1, z0, seed), lat(x0 + 1, y0 + 1, z0, seed),
           lat(x0, y0, z0 + 1, seed), lat(x0 + 1, y0, z0 + 1, seed), lat(x0, y0 + 1, z0 + 1, seed), lat(x0 + 1, y0 + 1, z0 + 1, seed),
           u, v, w, eased)
  {
    hide TriLinearInterpolation, Times, OnAxis, WalkCell, Fraction;
    AxisOffset(x, stepX, i, u, nx);
    AxisOffset(y, stepY, j, v, ny);
    AxisOffset(z, stepZ, k, w, nz);
  }

  /**
   The walk computes the gradient noise at every grid point, for every lattice, exactly if it keeps up with the grid
   on both axes.
   */
  lemma WalkIsGradient2(x: real, y: real, stepX: real, stepY: real, sx: nat, sy: nat, seed: int, eased: bool)
    requires stepX >= 0.0 && stepY >= 0.0 && sx > 0 && sy > 0
    ensures Follows(Fraction(x), stepX, sx) && Follows(Fraction(y), stepY, sy) <==>
      forall lat: Lattice2, i: nat, j: nat :: i < sx && j < sy ==>
        WalkNoise2(lat, x, y, stepX, stepY, i, j, seed, eased)
        == Noise2Gradient(lat, x + Times(i, stepX), y + Times(j, stepY), seed, eased)
  {
    hide Noise2InCell, Noise2Gradient, Times, Follows, WalkCell, Fraction, CellOf;
    FollowsMeaning(x, stepX, sx);
    FollowsMeaning(y, stepY, sy);
    if Follows(Fraction(x), stepX, sx) && Follows(Fraction(y), stepY, sy) {
      forall lat: Lattice2, i: nat, j: nat | i < sx && j < sy
        ensures WalkNoise2(lat, x, y, stepX, stepY, i, j, seed, eased)
          == Noise2Gradient(lat, x + Times(i, stepX), y + Times(j, stepY), seed, eased)
      {
        var px, py := x + Times(i, stepX), y + Times(j, stepY);
        AnyCell2(lat, x.Floor + WalkCell(Fraction(x), stepX, i), y.Floor + WalkCell(Fraction(y), stepY, j), px, py, seed, eased);
        Noise2CellChoice(lat, px, py, seed, eased);
      }
    } else if !Follows(Fraction(x), stepX, sx) {
      var i: nat :| i < sx && !CellOf(x + Times(i, stepX), x.Floor + WalkCell(Fraction(x), stepX, i));
      BehindX2(x, y, stepX, stepY, i, seed, eased);
    } else {
      var j: nat :| j < sy && !CellOf(y + Times(j, stepY), y.Floor + WalkCell(Fraction(y), stepY, j));
      BehindY2(x, y, stepX, stepY, j, seed, eased);
    }
  }

  // A walk that does not reach the point's cell stays behind it.
  lemma OnlyBehind(x: real, step: real, i: nat)
    requires step >= 0.0 && !CellOf(x + Times(i, step), x.Floor + WalkCell(Fraction(x), step, i))
    ensures x + Times(i, step) > (x.Floor + WalkCell(Fraction(x), step, i)) as real + 1.0
  {
    TimesMinus(i, step);
    if step > 1.0 {
      TimesMono(0, i, step - 1.0);
    }
  }

  // Beyond 1 both curves exceed 1.
  lemma EaseBeyond(t: real, eased: bool)
    requires t > 1.0
    ensures Ease(t, eased) > 1.0
  {
    if eased {
      var e := t - 1.0;
      assert EaseCurve(t) - 1.0 == e * e * e * (10.0 + 15.0 * e + 6.0 * e * e);
      SignProduct(e, e);
      assert e * e > 0.0 && e * e * e > 0.0;
    }
  }

  // A lattice that rises from 0 to 1 after column a.
  function RisesX2(a: int): Lattice2 { (x: int, y: int, s: int) => if x <= a then 0.0 else 1.0 }

  function RisesY2(b: int): Lattice2 { (x: int, y: int, s: int) => if y <= b then 0.0 else 1.0 }

  lemma BehindX2(x: real, y: real, stepX: real, stepY: real, i: nat, seed: int, eased: bool)
    requires stepX >= 0.0 && !CellOf(x + Times(i, stepX), x.Floor + WalkCell(Fraction(x), stepX, i))
    ensures var lat := RisesX2(x.Floor + WalkCell(Fraction(x), stepX, i));
      WalkNoise2(lat, x, y, stepX, stepY, i, 0, seed, eased) != Noise2Gradient(lat, x + Times(i, stepX), y + Times(0, stepY), seed, eased)
  {
    hide Ease, Noise2Gradient, CellOf, WalkCell, Times, Fraction;
    var px, py, a := x + Times(i, stepX), y + Times(0, stepY), x.Floor + WalkCell(Fraction(x), stepX, i);
    OnlyBehind(x, stepX, i);
    EaseBeyond(px - a as real, eased);
    Noise2CellChoice(RisesX2(a), px, py, seed, eased);
  }

  lemma BehindY2(x: real, y: real, stepX: real, stepY: real, j: nat, seed: int, eased: bool)
    requires stepY >= 0.0 && !CellOf(y + Times(j, stepY), y.Floor + WalkCell(Fraction(y), stepY, j))
    ensures var lat := RisesY2(y.Floor + WalkCell(Fraction(y), stepY, j));
      WalkNoise2(lat, x, y, stepX, stepY, 0, j, seed, eased) != Noise2Gradient(lat, x + Times(0, stepX), y + Times(j, stepY), seed, eased)
  {
    hide Ease, Noise2Gradient, CellOf, WalkCell, Times, Fraction;
    var px, py, b := x + Times(0, stepX), y + Times(j, stepY), y.Floor + WalkCell(Fraction(y), stepY, j);
    OnlyBehind(y, stepY, j);
    EaseBeyond(py - b as real, eased);
    Noise2CellChoice(RisesY2(b), px, py, seed, eased);
  }

  /** The same in three dimensions. */
  lemma WalkIsGradient3(x: real, y: real, z: real, stepX: real, stepY: real, stepZ: real, sx: nat, sy: nat, sz: nat, seed: int, eased: bool)
    requires stepX >= 0.0 && stepY >= 0.0 && stepZ >= 0.0 && sx > 0 && sy > 0 && sz > 0
    ensures Follows(Fraction(x), stepX, sx) && Follows(Fraction(y), stepY, sy) && Follows(Fraction(z), stepZ, sz) <==>
      forall lat: Lattice3, i: nat, j: nat, k: nat :: i < sx && j < sy && k < sz ==>
        WalkNoise3(lat, x, y, z, stepX, stepY, stepZ, i, j, k, seed, eased)
        == Noise3Gradient(lat, x + Times(i, stepX), y + Times(j, stepY), z + Times(k, stepZ), seed, eased)
  {
    hide Noise3InCell, Noise3Gradient, Times, Follows, WalkCell, Fraction, CellOf;
    FollowsMeaning(x, stepX, sx);
    FollowsMeaning(y, stepY, sy);
    FollowsMeaning(z, stepZ, sz);
    if Follows(Fraction(x), stepX, sx) && Follows(Fraction(y), stepY, sy) && Follows(Fraction(z), stepZ, sz) {
      forall lat: Lattice3, i: nat, j: nat, k: nat | i < sx && j < sy && k < sz
        ensures WalkNoise3(lat, x, y, z, stepX, stepY, stepZ, i, j, k, seed, eased)
          == Noise3Gradient(lat, x + Times(i, stepX), y + Times(j, stepY), z + Times(k, stepZ), seed, eased)
      {
        var px, py, pz := x + Times(i, stepX), y + Times(j, stepY), z + Times(k, stepZ);
        AnyCell3(lat, x.Floor + WalkCell(Fraction(x), stepX, i), y.Floor + WalkCell(Fraction(y), stepY, j),
          z.Floor + WalkCell(Fraction(z), stepZ, k), px, py, pz, seed, eased);
        Noise3CellChoice(lat, px, py, pz, seed, eased);
      }
    } else if !Follows(Fraction(x), stepX, sx) {
      var i: nat :| i < sx && !CellOf(x + Times(i, stepX), x.Floor + WalkCell(Fraction(x), stepX, i));
      Behind3(x, y, z, stepX, stepY, stepZ, i, 0, 0, 0, seed, eased);
    } else if !Follows(Fraction(y), stepY, sy) {
      var j: nat :| j < sy && !CellOf(y + Times(j, stepY), y.Floor + WalkCell(Fraction(y), stepY, j));
      Behind3(x, y, z, stepX, stepY, stepZ, 0, j, 0, 1, seed, eased);
    } else {
      var k: nat :| k < sz && !CellOf(z + Times(k, stepZ), z.Floor + WalkCell(Fraction(z), stepZ, k));
      Behind3(x, y, z, stepX, stepY, stepZ, 0, 0, k, 2, seed, eased);
    }
  }

  // A lattice that rises from 0 to 1 after coordinate a of an axis.
  function Rises3(axis: nat, a: int): Lattice3 {
    (x: int, y: int, z: int, s: int) => if (if axis == 0 then x else if axis == 1 then y else z) <= a then 0.0 else 1.0
  }

  // Interpolating values that rise along one axis only, or are 1 everywhere.
  lemma Corners(t: real, u: real, v: real, w: real, eased: bool)
    ensures t == u ==> TriLinearInterpolation(0.0, 1.0, 0.0, 1.0, 0.0, 1.0, 0.0, 1.0, u, v, w, eased) == Ease(t, eased)
    ensures t == v ==> TriLinearInterpolation(0.0, 0.0, 1.0, 1.0, 0.0, 0.0, 1.0, 1.0, u, v, w, eased) == Ease(t, eased)
    ensures t == w ==> TriLinearInterpolation(0.0, 0.0, 0.0, 0.0, 1.0, 1.0, 1.0, 1.0, u, v, w, eased) == Ease(t, eased)
  {
    hide EaseCurve;
  }

  lemma Flat(u: real, v: real, w: real, eased: bool)
    ensures TriLinearInterpolation(1.0, 1.0, 1.0, 1.0, 1.0, 1.0, 1.0, 1.0, u, v, w, eased) == 1.0
  {
    hide EaseCurve;
  }

  // With the walk behind on an axis it misses the rise.
  lemma Behind3(x: real, y: real, z: real, stepX: real, stepY: real, stepZ: real, i: nat, j: nat, k: nat, axis: nat, seed: int, eased: bool)
    requires axis < 3
    requires var start, step, n := if axis == 0 then x else if axis == 1 then y else z,
      if axis == 0 then stepX else if axis == 1 then stepY else stepZ, if axis == 0 then i else if axis == 1 then j else k;
      step >= 0.0 && !CellOf(start + Times(n, step), start.Floor + WalkCell(Fraction(start), step, n))
    ensures exists lat: Lattice3 ::
      WalkNoise3(lat, x, y, z, stepX, stepY, stepZ, i, j, k, seed, eased)
      != Noise3Gradient(lat, x + Times(i, stepX), y + Times(j, stepY), z + Times(k, stepZ), seed, eased)
  {
    hide Ease, TriLinearInterpolation, Noise3Gradient, CellOf, WalkCell, Times, Fraction;
    var start, step, n := if axis == 0 then x else if axis == 1 then y else z,
      if axis == 0 then stepX else if axis == 1 then stepY else stepZ, if axis == 0 then i else if axis == 1 then j else k;
    var p, a := start + Times(n, step), start.Floor + WalkCell(Fraction(start), step, n);
    var lat := Rises3(axis, a);
    OnlyBehind(start, step, n);
    EaseBeyond(p - a as real, eased);
    Noise3CellChoice(lat, x + Times(i, stepX), y + Times(j, stepY), z + Times(k, stepZ), seed, eased);
    Corners(p - a as real, x + Times(i, stepX) - (x.Floor + WalkCell(Fraction(x), stepX, i)) as real,
      y + Times(j, stepY) - (y.Floor + WalkCell(Fraction(y), stepY, j)) as real,
      z + Times(k, stepZ) - (z.Floor + WalkCell(Fraction(z), stepZ, k)) as real, eased);
    Flat(x + Times(i, stepX) - (x + Times(i, stepX)).Floor as real, y + Times(j, stepY) - (y + Times(j, stepY)).Floor as real,
      z + Times(k, stepZ) - (z + Times(k, stepZ)).Floor as real, eased);
    assert WalkNoise3(lat, x, y, z, stepX, stepY, stepZ, i, j, k, seed, eased) == Ease(p - a as real, eased);
    assert Noise3InCell(lat, (x + Times(i, stepX)).Floor, (y + Times(j, stepY)).Floor, (z + Times(k, stepZ)).Floor,
      x + Times(i, stepX), y + Times(j, stepY), z + Times(k, stepZ), seed, eased) == 1.0;
  }

  // ---------------------------------------------------------------- buffer sizes

  function Ceil(x: real): int {
    -((-x).Floor)
  }

  lemma {:induction false} PowerMono(b: real, m: nat, n: nat)
    requires b >= 1.0 && m <= n
    ensures 1.0 <= Power(b, m) <= Power(b, n)
    decreases n
  {
    if m < n {
      PowerMono(b, m, n - 1);
    } else if n > 0 {
      PowerMono(b, m - 1, n - 1);
    }
  }

  lemma {:induction false} PowerShrinks(b: real, n: nat)
    requires 0.0 <= b <= 1.0
    ensures 0.0 <= Power(b, n) <= 1.0
  {
    if n == 0 {
    } else {
      PowerShrinks(b, n - 1);
      UnitProduct(Power(b, n - 1), b);
    }
  }

  lemma UnitProduct(a: real, b: real)
    requires 0.0 <= a <= 1.0 && 0.0 <= b <= 1.0
    ensures 0.0 <= a * b <= 1.0
  {
    SignProduct(a, b);
    SignProduct(a, 1.0 - b);
    assert a * (1.0 - b) == a - a * b;
  }

  lemma SignProduct(a: real, b: real)
    requires a >= 0.0 && b >= 0.0
    ensures a * b >= 0.0
  {}

  lemma PowerNotNegative(b: real, n: nat)
    requires b >= 0.0
    ensures Power(b, n) >= 0.0
  {
    if b >= 1.0 {
      PowerMono(b, n, n);
    } else {
      PowerShrinks(b, n);
    }
  }

  // resizeNoiseBuf: the largest octave frequency, as estimated.
  function OctaveFactor(np: NoiseParams): real {
    if np.lacunarity > 1.0 then
      (if np.octaves == 0 then 1.0 / np.lacunarity else Power(np.lacunarity, np.octaves - 1))
    else np.lacunarity
  }

  // resizeNoiseBuf: the spread of the estimated octave is at least 1. Division by zero gives infinity.
  predicate SpreadCovers(spread: real, factor: real) {
    if factor == 0.0 then spread > 0.0 else spread / factor >= 1.0
  }

  // What resizeNoiseBuf lets pass, for lacunarities that are not negative.
  ghost predicate Settings(np: NoiseParams) {
    && np.lacunarity >= 0.0 && OctaveFactor(np) >= 0.0
    && np.spreadX > 0.0 && np.spreadY > 0.0 && np.spreadZ > 0.0
    && SpreadCovers(np.spreadX, OctaveFactor(np)) && SpreadCovers(np.spreadY, OctaveFactor(np))
    && SpreadCovers(np.spreadZ, OctaveFactor(np))
  }

  // resizeNoiseBuf: lattice points reserved along an axis.
  function ReservedPoints(s: nat, factor: real, spread: real): int
    requires spread != 0.0
  {
    Ceil(s as real * factor / spread) + 3
  }

  lemma ReservedPositive(s: nat, factor: real, spread: real)
    requires factor >= 0.0 && spread > 0.0
    ensures ReservedPoints(s, factor, spread) >= 3
  {
    assert s as real * factor / spread >= 0.0;
  }

  // With a negative lacunarity only negative spreads are let pass, and enough is reserved too.
  lemma ReservedIfCovered(s: nat, factor: real, spread: real)
    requires spread != 0.0 && SpreadCovers(spread, factor)
    ensures ReservedPoints(s, factor, spread) >= 3 && (factor >= 0.0 ==> spread > 0.0) && (factor < 0.0 ==> spread < 0.0)
  {
    if factor < 0.0 {
      assert spread == spread / factor * factor;
      QuotientSign(s as real * factor, spread);
    } else {
      if factor > 0.0 {
        assert spread == spread / factor * factor;
      }
      ReservedPositive(s, factor, spread);
    }
  }

  lemma QuotientSign(a: real, b: real)
    requires a <= 0.0 && b < 0.0
    ensures a / b >= 0.0
  {
    assert a / b * b == a;
  }

  // resizeNoiseBuf: the size of the whole buffer; a map of one layer gets one layer of lattice points.
  function BufferSize(np: NoiseParams, sx: nat, sy: nat, sz: nat): int
    requires np.spreadX != 0.0 && np.spreadY != 0.0 && np.spreadZ != 0.0
  {
    var factor := OctaveFactor(np);
    ReservedPoints(sx, factor, np.spreadX) * ReservedPoints(sy, factor, np.spreadY)
      * (if sz > 1 then ReservedPoints(sz, factor, np.spreadZ) else 1)
  }

  // ---------------------------------------------------------------- what an octave needs

  // A coordinate in lattice units at frequency f.
  function Scaled(start: real, spread: real, f: real): real
    requires spread > 0.0
  {
    start / spread * f
  }

  // The lattice points octave n uses along an axis of s grid points from start.
  function PointsUsed(np: NoiseParams, start: real, spread: real, s: nat, n: nat): int
    requires spread > 0.0
  {
    var f := Power(np.lacunarity, n);
    LatticePoints(Fraction(Scaled(start, spread, f)), s, Ratio(f, spread))
  }

  // The most it uses, wherever the axis starts.
  function MostPoints(np: NoiseParams, spread: real, s: nat, n: nat): int
    requires spread > 0.0
  {
    Ceil(Times(s, Ratio(Power(np.lacunarity, n), spread))) + 2
  }

  lemma StepNotNegative(np: NoiseParams, spread: real, n: nat)
    requires spread > 0.0 && np.lacunarity >= 0.0
    ensures Ratio(Power(np.lacunarity, n), spread) >= 0.0
  {
    PowerNotNegative(np.lacunarity, n);
  }

  lemma UsedAtMost(np: NoiseParams, start: real, spread: real, s: nat, n: nat)
    requires spread > 0.0 && np.lacunarity >= 0.0
    ensures 2 <= PointsUsed(np, start, spread, s, n) <= MostPoints(np, spread, s, n)
  {
    StepNotNegative(np, spread, n);
  }

  // Some start needs that many: the one whose line of grid points ends on a lattice point.
  lemma MostIsUsed(np: NoiseParams, spread: real, s: nat, n: nat) returns (start: real)
    requires spread > 0.0 && np.lacunarity >= 0.0
    ensures PointsUsed(np, start, spread, s, n) == MostPoints(np, spread, s, n)
  {
    var f := Power(np.lacunarity, n);
    PowerNotNegative(np.lacunarity, n);
    if f == 0.0 {
      start := 0.0;
      assert Times(s, Ratio(f, spread)) == 0.0;
    } else {
      var t := Times(s, Ratio(f, spread));
      var orig := Ceil(t) as real - t;
      start := orig / f * spread;
      ScaledBack(orig, spread, f);
      hide Times;
      assert Fraction(orig) == orig;
    }
  }

  lemma ScaledBack(orig: real, spread: real, f: real)
    requires spread > 0.0 && f > 0.0
    ensures Scaled(orig / f * spread, spread, f) == orig
  {
    assert orig / f * spread / spread == orig / f;
  }

  // The buffer holds the lattices of all octaves of a 2D map from (x, y).
  ghost predicate CallFits2(np: NoiseParams, sx: nat, sy: nat, size: int, x: real, y: real)
    requires np.spreadX > 0.0 && np.spreadY > 0.0
  {
    forall n: nat :: n < np.octaves ==> PointsUsed(np, x, np.spreadX, sx, n) * PointsUsed(np, y, np.spreadY, sy, n) <= size
  }

  ghost predicate CallFits3(np: NoiseParams, sx: nat, sy: nat, sz: nat, size: int, x: real, y: real, z: real)
    requires np.spreadX > 0.0 && np.spreadY > 0.0 && np.spreadZ > 0.0
  {
    forall n: nat :: n < np.octaves ==>
      PointsUsed(np, x, np.spreadX, sx, n) * (PointsUsed(np, y, np.spreadY, sy, n) * PointsUsed(np, z, np.spreadZ, sz, n)) <= size
  }

  lemma ProductMono(a: nat, b: nat, c: nat, d: nat)
    requires a <= c && b <= d
    ensures a * b <= c * d
  {
    MulMono(a, c, b);
    MulMono(b, d, c);
    assert b * c == c * b && d * c == c * d;
  }

  /** All 2D maps of a size stay inside a buffer exactly if it holds the most each octave can need. */
  lemma EveryStartFits2(np: NoiseParams, sx: nat, sy: nat, size: int)
    requires np.lacunarity >= 0.0 && np.spreadX > 0.0 && np.spreadY > 0.0
    ensures (forall x, y :: CallFits2(np, sx, sy, size, x, y)) <==>
      forall n: nat :: n < np.octaves ==> MostPoints(np, np.spreadX, sx, n) * MostPoints(np, np.spreadY, sy, n) <= size
  {
    hide PointsUsed, MostPoints;
    if forall x, y :: CallFits2(np, sx, sy, size, x, y) {
      forall n: nat | n < np.octaves
        ensures MostPoints(np, np.spreadX, sx, n) * MostPoints(np, np.spreadY, sy, n) <= size
      {
        var x, y := MostIsUsed2(np, sx, sy, n);
        assert CallFits2(np, sx, sy, size, x, y);
      }
    } else {
      var x, y :| !CallFits2(np, sx, sy, size, x, y);
      var n: nat :| n < np.octaves && PointsUsed(np, x, np.spreadX, sx, n) * PointsUsed(np, y, np.spreadY, sy, n) > size;
      UsedAtMost(np, x, np.spreadX, sx, n);
      UsedAtMost(np, y, np.spreadY, sy, n);
      ProductMono(PointsUsed(np, x, np.spreadX, sx, n), PointsUsed(np, y, np.spreadY, sy, n),
        MostPoints(np, np.spreadX, sx, n), MostPoints(np, np.spreadY, sy, n));
    }
  }

  lemma MostIsUsed2(np: NoiseParams, sx: nat, sy: nat, n: nat) returns (x: real, y: real)
    requires np.lacunarity >= 0.0 && np.spreadX > 0.0 && np.spreadY > 0.0
    ensures PointsUsed(np, x, np.spreadX, sx, n) == MostPoints(np, np.spreadX, sx, n)
    ensures PointsUsed(np, y, np.spreadY, sy, n) == MostPoints(np, np.spreadY, sy, n)
  {
    hide PointsUsed, MostPoints;
    x := MostIsUsed(np, np.spreadX, sx, n);
    y := MostIsUsed(np, np.spreadY, sy, n);
  }

  /** The same for 3D maps, of one layer or more. */
  lemma EveryStartFits3(np: NoiseParams, sx: nat, sy: nat, sz: nat, size: int)
    requires np.lacunarity >= 0.0 && np.spreadX > 0.0 && np.spreadY > 0.0 && np.spreadZ > 0.0
    ensures (forall x, y, z :: CallFits3(np, sx, sy, sz, size, x, y, z)) <==>
      forall n: nat :: n < np.octaves ==>
        MostPoints(np, np.spreadX, sx, n) * (MostPoints(np, np.spreadY, sy, n) * MostPoints(np, np.spreadZ, sz, n)) <= size
  {
    hide PointsUsed, MostPoints;
    if forall x, y, z :: CallFits3(np, sx, sy, sz, size, x, y, z) {
      forall n: nat | n < np.octaves
        ensures MostPoints(np, np.spreadX, sx, n) * (MostPoints(np, np.spreadY, sy, n) * MostPoints(np, np.spreadZ, sz, n)) <= size
      {
        var x, y := MostIsUsed2(np, sx, sy, n);
        var z := MostIsUsed(np, np.spreadZ, sz, n);
        assert CallFits3(np, sx, sy, sz, size, x, y, z);
      }
    } else {
      var x, y, z :| !CallFits3(np, sx, sy, sz, size, x, y, z);
      var n: nat :| n < np.octaves
        && PointsUsed(np, x, np.spreadX, sx, n) * (PointsUsed(np, y, np.spreadY, sy, n) * PointsUsed(np, z, np.spreadZ, sz, n)) > size;
      UsedAtMost(np, x, np.spreadX, sx, n);
      UsedAtMost(np, y, np.spreadY, sy, n);
      UsedAtMost(np, z, np.spreadZ, sz, n);
      var (b, c) := (PointsUsed(np, y, np.spreadY, sy, n), PointsUsed(np, z, np.spreadZ, sz, n));
      var (b', c') := (MostPoints(np, np.spreadY, sy, n), MostPoints(np, np.spreadZ, sz, n));
      ProductMono(b, c, b', c');
      ProductMono(0, 0, b, c);
      ProductMono(PointsUsed(np, x, np.spreadX, sx, n), b * c, MostPoints(np, np.spreadX, sx, n), b' * c');
    }
  }

  // ---------------------------------------------------------------- the reserved buffer

  // No octave steps over a whole cell.
  ghost predicate StepsFit(np: NoiseParams, spread: real) {
    forall n: nat :: n < np.octaves ==> Power(np.lacunarity, n) <= spread
  }

  // Every octave of a map from start keeps up with the grid on an axis.
  ghost predicate AxisFollows(np: NoiseParams, start: real, spread: real, s: nat)
    requires spread > 0.0
  {
    forall n: nat :: n < np.octaves ==>
      Follows(Fraction(Scaled(start, spread, Power(np.lacunarity, n))), Ratio(Power(np.lacunarity, n), spread), s)
  }

  lemma StepsFitFollows(np: NoiseParams, start: real, spread: real, s: nat)
    requires spread > 0.0 && np.lacunarity >= 0.0 && StepsFit(np, spread)
    ensures AxisFollows(np, start, spread, s)
  {
    forall n: nat | n < np.octaves ensures Ratio(Power(np.lacunarity, n), spread) <= 1.0 {
      PowerNotNegative(np.lacunarity, n);
      StepAtMostOne(Power(np.lacunarity, n), spread);
    }
  }

  lemma DivMono(a: real, b: real, c: real)
    requires a <= b && c > 0.0
    ensures a / c <= b / c
  {}

  lemma TimesQuotient(s: nat, factor: real, spread: real)
    requires spread > 0.0
    ensures Times(s, factor / spread) == s as real * factor / spread
  {}

  lemma ReservedAsTimes(s: nat, factor: real, spread: real)
    requires spread > 0.0
    ensures ReservedPoints(s, factor, spread) == Ceil(Times(s, factor / spread)) + 3
  {
    hide Times;
    TimesQuotient(s, factor, spread);
  }

  lemma StepAtMostOne(f: real, spread: real)
    requires 0.0 <= f <= spread && spread > 0.0
    ensures 0.0 <= Ratio(f, spread) <= 1.0
  {
    DivMono(f, spread, spread);
    DivMono(0.0, f, spread);
    assert spread / spread == 1.0;
  }

  lemma CeilMono(a: real, b: real)
    requires a <= b
    ensures Ceil(a) <= Ceil(b)
  {}

  // An octave whose frequency the estimate covers uses one point less than is reserved.
  lemma ReservedSuffice(np: NoiseParams, spread: real, s: nat, n: nat)
    requires spread > 0.0 && Power(np.lacunarity, n) <= OctaveFactor(np)
    ensures MostPoints(np, spread, s, n) < ReservedPoints(s, OctaveFactor(np), spread)
  {
    hide OctaveFactor, Times, ReservedPoints;
    var f, factor := Power(np.lacunarity, n), OctaveFactor(np);
    DivMono(f, factor, spread);
    TimesMonoStep(s, f / spread, factor / spread);
    ReservedAsTimes(s, factor, spread);
    CeilMono(Times(s, Ratio(f, spread)), Times(s, factor / spread));
  }

  // With lacunarity of at least 1 the estimate covers every octave.
  lemma FactorCovers(np: NoiseParams, n: nat)
    requires np.lacunarity >= 1.0 && n < np.octaves
    ensures 1.0 <= Power(np.lacunarity, n) <= OctaveFactor(np)
  {
    PowerMono(np.lacunarity, n, np.octaves - 1);
    if np.lacunarity == 1.0 {
      PowerOne(n);
    }
  }

  lemma {:induction false} PowerOne(n: nat)
    ensures Power(1.0, n) == 1.0
  {
    if n == 0 {
    } else {
      PowerOne(n - 1);
    }
  }

  // The last octave reaches the estimate.
  lemma FactorReached(np: NoiseParams)
    requires np.lacunarity >= 1.0 && np.octaves > 0
    ensures Power(np.lacunarity, np.octaves - 1) == OctaveFactor(np)
  {
    PowerOne(np.octaves - 1);
  }

  lemma SpreadIsCovered(spread: real, factor: real, f: real)
    requires SpreadCovers(spread, factor) && 0.0 < f <= factor
    ensures f <= spread
  {
    assert spread == spread / factor * factor;
  }

  // With lacunarity of at least 1 no octave steps over a cell.
  lemma GrowingSteps(np: NoiseParams, spread: real)
    requires np.lacunarity >= 1.0 && SpreadCovers(spread, OctaveFactor(np))
    ensures StepsFit(np, spread)
  {
    forall n: nat | n < np.octaves ensures Power(np.lacunarity, n) <= spread {
      FactorCovers(np, n);
      SpreadIsCovered(spread, OctaveFactor(np), Power(np.lacunarity, n));
    }
  }

  // An octave of a growing series uses fewer points on an axis than are reserved.
  lemma AxisReserved(np: NoiseParams, start: real, spread: real, s: nat, n: nat)
    requires np.lacunarity >= 1.0 && spread > 0.0 && n < np.octaves
    ensures 2 <= PointsUsed(np, start, spread, s, n) < ReservedPoints(s, OctaveFactor(np), spread)
  {
    hide PointsUsed, MostPoints, ReservedPoints;
    FactorCovers(np, n);
    UsedAtMost(np, start, spread, s, n);
    ReservedSuffice(np, spread, s, n);
  }

  /** With lacunarity of at least 1 every 2D map stays inside the buffer. */
  lemma GrowingFits2(np: NoiseParams, sx: nat, sy: nat, sz: nat, x: real, y: real)
    requires Settings(np) && np.lacunarity >= 1.0
    ensures CallFits2(np, sx, sy, BufferSize(np, sx, sy, sz), x, y)
  {
    hide PointsUsed, ReservedPoints, OctaveFactor;
    var factor := OctaveFactor(np);
    var ra, rb := ReservedPoints(sx, factor, np.spreadX), ReservedPoints(sy, factor, np.spreadY);
    var rc := if sz > 1 then ReservedPoints(sz, factor, np.spreadZ) else 1;
    ReservedPositive(sx, factor, np.spreadX);
    ReservedPositive(sy, factor, np.spreadY);
    ReservedPositive(sz, factor, np.spreadZ);
    forall n: nat | n < np.octaves
      ensures PointsUsed(np, x, np.spreadX, sx, n) * PointsUsed(np, y, np.spreadY, sy, n) <= ra * rb * rc
    {
      AxisReserved(np, x, np.spreadX, sx, n);
      AxisReserved(np, y, np.spreadY, sy, n);
      ProductMono(PointsUsed(np, x, np.spreadX, sx, n), PointsUsed(np, y, np.spreadY, sy, n), ra, rb);
      ProductMono(0, 0, ra, rb);
      ProductMono(ra * rb, 1, ra * rb, rc);
    }
  }

  lemma GrowingFits3(np: NoiseParams, sx: nat, sy: nat, sz: nat, x: real, y: real, z: real)
    requires Settings(np) && np.lacunarity >= 1.0 && sz > 1
    ensures CallFits3(np, sx, sy, sz, BufferSize(np, sx, sy, sz), x, y, z)
  {
    hide PointsUsed, ReservedPoints, OctaveFactor;
    var factor := OctaveFactor(np);
    var ra, rb, rc := ReservedPoints(sx, factor, np.spreadX), ReservedPoints(sy, factor, np.spreadY), ReservedPoints(sz, factor, np.spreadZ);
    forall n: nat | n < np.octaves
      ensures PointsUsed(np, x, np.spreadX, sx, n) * (PointsUsed(np, y, np.spreadY, sy, n) * PointsUsed(np, z, np.spreadZ, sz, n)) <= ra * rb * rc
    {
      AxisReserved(np, x, np.spreadX, sx, n);
      AxisReserved(np, y, np.spreadY, sy, n);
      AxisReserved(np, z, np.spreadZ, sz, n);
      var (b, c) := (PointsUsed(np, y, np.spreadY, sy, n), PointsUsed(np, z, np.spreadZ, sz, n));
      ProductMono(0, 0, b, c);
      ProductMono(b, c, rb, rc);
      ProductMono(PointsUsed(np, x, np.spreadX, sx, n), b * c, ra, rb * rc);
      MulAssociative(ra, rb, rc);
    }
  }

  lemma MulAssociative(a: int, b: int, c: int)
    ensures a * (b * c) == a * b * c
  {}

  /**
   With lacunarity of at least 1 and some octave, all 3D maps of a size stay inside the buffer exactly if they have
   more than one layer: one layer of points needs three layers of the lattice at some starts.
   */
  lemma LayersDecide(np: NoiseParams, sx: nat, sy: nat, sz: nat)
    requires Settings(np) && np.lacunarity >= 1.0 && np.octaves > 0 && sx > 0 && sy > 0 && sz > 0
    ensures (forall x, y, z :: CallFits3(np, sx, sy, sz, BufferSize(np, sx, sy, sz), x, y, z)) <==> sz > 1
  {
    hide CallFits3, BufferSize, MostPoints;
    if sz > 1 {
      forall x, y, z ensures CallFits3(np, sx, sy, sz, BufferSize(np, sx, sy, sz), x, y, z) {
        GrowingFits3(np, sx, sy, sz, x, y, z);
      }
    } else {
      OneLayerNeedsMore(np, sx, sy);
      EveryStartFits3(np, sx, sy, 1, BufferSize(np, sx, sy, 1));
    }
  }

  lemma OneLayerNeedsMore(np: NoiseParams, sx: nat, sy: nat)
    requires Settings(np) && np.lacunarity >= 1.0 && np.octaves > 0 && sx > 0 && sy > 0
    ensures var n := np.octaves - 1;
      MostPoints(np, np.spreadX, sx, n) * (MostPoints(np, np.spreadY, sy, n) * MostPoints(np, np.spreadZ, 1, n)) > BufferSize(np, sx, sy, 1)
  {
    hide MostPoints, ReservedPoints, OctaveFactor;
    FactorReached(np);
    FactorCovers(np, np.octaves - 1);
    LastOctaveMost(np, np.spreadX, sx);
    LastOctaveMost(np, np.spreadY, sy);
    LastOctaveMost(np, np.spreadZ, 1);
    var a, b, c := MostPoints(np, np.spreadX, sx, np.octaves - 1), MostPoints(np, np.spreadY, sy, np.octaves - 1), MostPoints(np, np.spreadZ, 1, np.octaves - 1);
    ThreeLayersExceed(a, b, c);
  }

  lemma LastOctaveMost(np: NoiseParams, spread: real, s: nat)
    requires np.lacunarity >= 1.0 && np.octaves > 0 && spread > 0.0 && s > 0
    ensures MostPoints(np, spread, s, np.octaves - 1) >= 3
    ensures ReservedPoints(s, OctaveFactor(np), spread) == MostPoints(np, spread, s, np.octaves - 1) + 1
  {
    hide ReservedPoints;
    FactorReached(np);
    FactorCovers(np, np.octaves - 1);
    ReservedAsTimes(s, OctaveFactor(np), spread);
    PositiveTimes(s, OctaveFactor(np), spread);
  }

  lemma PositiveTimes(s: nat, f: real, spread: real)
    requires s > 0 && f > 0.0 && spread > 0.0
    ensures Times(s, f / spread) > 0.0
  {}

  lemma ThreeLayersExceed(a: int, b: int, c: int)
    requires a >= 3 && b >= 3 && c >= 3
    ensures a * (b * c) > (a + 1) * (b + 1) * 1
  {
    ProductMono(b, 3, b, c);
    ProductMono(a, b * 3, a, b * c);
    ProductMono(a, 3, a, b);
    ProductMono(3, b, a, b);
    assert a * (b * 3) == 3 * (a * b);
    assert (a + 1) * (b + 1) == a * b + a + b + 1;
  }

  /** With lacunarity of at most 1 the first octave decides whether all 2D maps of a size stay inside. */
  lemma FirstOctaveDecides(np: NoiseParams, sx: nat, sy: nat, size: int)
    requires 0.0 <= np.lacunarity <= 1.0 && np.spreadX > 0.0 && np.spreadY > 0.0
    ensures (forall x, y :: CallFits2(np, sx, sy, size, x, y)) <==>
      np.octaves == 0 || (Ceil(Times(sx, 1.0 / np.spreadX)) + 2) * (Ceil(Times(sy, 1.0 / np.spreadY)) + 2) <= size
    ensures StepsFit(np, np.spreadX) <==> np.octaves == 0 || np.spreadX >= 1.0
    ensures StepsFit(np, np.spreadY) <==> np.octaves == 0 || np.spreadY >= 1.0
  {
    hide CallFits2, Times, MostPoints;
    EveryStartFits2(np, sx, sy, size);
    assert Power(np.lacunarity, 0) == 1.0;
    FirstOctaveMost(np, np.spreadX, sx, 0);
    FirstOctaveMost(np, np.spreadY, sy, 0);
    forall n: nat | n < np.octaves
      ensures Power(np.lacunarity, n) <= 1.0
      ensures MostPoints(np, np.spreadX, sx, n) * MostPoints(np, np.spreadY, sy, n)
        <= MostPoints(np, np.spreadX, sx, 0) * MostPoints(np, np.spreadY, sy, 0)
    {
      PowerShrinks(np.lacunarity, n);
      FirstOctaveMost(np, np.spreadX, sx, n);
      FirstOctaveMost(np, np.spreadY, sy, n);
      ProductMono(MostPoints(np, np.spreadX, sx, n), MostPoints(np, np.spreadY, sy, n),
        MostPoints(np, np.spreadX, sx, 0), MostPoints(np, np.spreadY, sy, 0));
    }
  }

  lemma FirstOctaveMost(np: NoiseParams, spread: real, s: nat, n: nat)
    requires 0.0 <= np.lacunarity <= 1.0 && spread > 0.0
    ensures 2 <= MostPoints(np, spread, s, n) <= MostPoints(np, spread, s, 0) == Ceil(Times(s, 1.0 / spread)) + 2
  {
    UsedAtMost(np, 0.0, spread, s, n);
    PowerShrinks(np.lacunarity, n);
    hide Times;
    DivMono(Power(np.lacunarity, n), 1.0, spread);
    TimesMonoStep(s, Ratio(Power(np.lacunarity, n), spread), 1.0 / spread);
    CeilMono(Times(s, Ratio(Power(np.lacunarity, n), spread)), Times(s, 1.0 / spread));
  }

  /** Settings that are let pass, and a map of 80 by 1 points that writes 246 lattice points into a buffer of 172. */
  lemma SmallLacunarityOverflows()
    ensures var np := NoiseParams(0.0, 1.0, 1.0, 1.0, 1.0, 0, 1, 0.5, 0.5, true, false, false);
      && Settings(np) && BufferSize(np, 80, 1, 1) == 172 && StepsFit(np, 1.0)
      && PointsUsed(np, 0.0, 1.0, 80, 0) * PointsUsed(np, 0.0, 1.0, 1, 0) == 246
      && !CallFits2(np, 80, 1, BufferSize(np, 80, 1, 1), 0.0, 0.0)
  {
    var np := NoiseParams(0.0, 1.0, 1.0, 1.0, 1.0, 0, 1, 0.5, 0.5, true, false, false);
    assert Power(np.lacunarity, 0) == 1.0;
    assert PointsUsed(np, 0.0, 1.0, 80, 0) == 82 && PointsUsed(np, 0.0, 1.0, 1, 0) == 3;
  }

  /** A one-layer 3D map can fit all the same: one point, spread 10. */
  lemma OnePointFits()
    ensures var np := NoiseParams(0.0, 1.0, 10.0, 10.0, 10.0, 0, 1, 0.5, 2.0, true, false, false);
      Settings(np) && BufferSize(np, 1, 1, 1) == 16 && CallFits3(np, 1, 1, 1, BufferSize(np, 1, 1, 1), 0.0, 0.0, 0.0)
  {
    var np := NoiseParams(0.0, 1.0, 10.0, 10.0, 10.0, 0, 1, 0.5, 2.0, true, false, false);
    assert Power(np.lacunarity, 0) == 1.0;
    assert PointsUsed(np, 0.0, 10.0, 1, 0) == 2;
  }
}
