/**
 The batch noise maps of src/noise.cpp (class Noise): a lattice buffer is filled once per octave and
 walked cell by cell.
 */
module NoiseMap {
  import opened NoiseMath
  import opened NoiseLattice
  import opened RowMajor

  // resizeNoiseBuf throws unless no axis is excessive and no octave has a spread below 1.
  predicate Accepted(np: NoiseParams, sx: nat, sy: nat, sz: nat)
    requires np.spreadX != 0.0 && np.spreadY != 0.0 && np.spreadZ != 0.0
  {
    var factor := OctaveFactor(np);
    && sx as real * factor / np.spreadX <= 1000000000.0
    && sy as real * factor / np.spreadY <= 1000000000.0
    && sz as real * factor / np.spreadZ <= 1000000000.0
    && SpreadCovers(np.spreadX, factor) && SpreadCovers(np.spreadY, factor) && SpreadCovers(np.spreadZ, factor)
  }

  function Max1(s: nat): nat {
    if s < 1 then 1 else s
  }

  lemma AcceptedSettings(np: NoiseParams, sx: nat, sy: nat, sz: nat)
    requires np.spreadX != 0.0 && np.spreadY != 0.0 && np.spreadZ != 0.0 && Accepted(np, sx, sy, sz)
    ensures np.lacunarity >= 0.0 ==> Settings(np)
  {
    if np.lacunarity >= 0.0 {
      FactorNotNegative(np);
    }
    hide OctaveFactor, SpreadCovers;
    ReservedIfCovered(sx, OctaveFactor(np), np.spreadX);
    ReservedIfCovered(sy, OctaveFactor(np), np.spreadY);
    ReservedIfCovered(sz, OctaveFactor(np), np.spreadZ);
  }

  lemma FactorNotNegative(np: NoiseParams)
    requires np.lacunarity >= 0.0
    ensures OctaveFactor(np) >= 0.0
  {
    if np.lacunarity > 1.0 {
      if np.octaves > 0 {
        PowerNotNegative(np.lacunarity, np.octaves - 1);
      }
    }
  }

  // The gradient noise at grid point k of a row-major 2D map.
  function GridNoise2(lat: Lattice2, x: real, y: real, stepX: real, stepY: real, seed: int, eased: bool, sx: nat, k: nat): real
    requires sx > 0
  {
    Noise2Gradient(lat, x + Times(k % sx, stepX), y + Times(k / sx, stepY), seed, eased)
  }

  // What the walk computes there.
  function GridWalk2(lat: Lattice2, x: real, y: real, stepX: real, stepY: real, seed: int, eased: bool, sx: nat, k: nat): real
    requires sx > 0
  {
    WalkNoise2(lat, x, y, stepX, stepY, k % sx, k / sx, seed, eased)
  }

  // Lattice point k of a row-major 2D lattice whose first point is (x0, y0).
  function LatticePoint2(lat: Lattice2, x0: int, y0: int, nlx: nat, seed: int, k: nat): real
    requires nlx > 0
  {
    lat(x0 + k % nlx, y0 + k / nlx, seed)
  }

  ghost predicate LatticeFilled2(buf: seq<real>, lat: Lattice2, x0: int, y0: int, nlx: nat, nly: nat, seed: int) {
    && nlx > 0 && nlx * nly <= |buf|
    && forall k :: 0 <= k < nlx * nly ==> buf[k] == LatticePoint2(lat, x0, y0, nlx, seed, k)
  }

  lemma LatticeRead2(buf: seq<real>, lat: Lattice2, x0: int, y0: int, nlx: nat, nly: nat, seed: int, a: nat, b: nat)
    requires LatticeFilled2(buf, lat, x0, y0, nlx, nly, seed) && a < nlx && b < nly
    ensures Idx(a, b, nlx) < |buf| && buf[Idx(a, b, nlx)] == lat(x0 + a, y0 + b, seed)
  {
    IdxInside(a, b, nlx, nly);
  }

  function RowOf(k: nat, sx: nat, sy: nat): nat
    requires sx > 0 && sy > 0
  {
    (k / sx) % sy
  }

  function LayerOf(k: nat, sx: nat, sy: nat): nat
    requires sx > 0 && sy > 0
  {
    (k / sx) / sy
  }

  // The gradient noise at grid point k of a row-major 3D map.
  function GridNoise3(lat: Lattice3, x: real, y: real, z: real, stepX: real, stepY: real, stepZ: real,
                      seed: int, eased: bool, sx: nat, sy: nat, k: nat): real
    requires sx > 0 && sy > 0
  {
    Noise3Gradient(lat, x + Times(k % sx, stepX), y + Times(RowOf(k, sx, sy), stepY), z + Times(LayerOf(k, sx, sy), stepZ), seed, eased)
  }

  function GridWalk3(lat: Lattice3, x: real, y: real, z: real, stepX: real, stepY: real, stepZ: real,
                     seed: int, eased: bool, sx: nat, sy: nat, k: nat): real
    requires sx > 0 && sy > 0
  {
    WalkNoise3(lat, x, y, z, stepX, stepY, stepZ, k % sx, RowOf(k, sx, sy), LayerOf(k, sx, sy), seed, eased)
  }

  // Lattice point k of a row-major 3D lattice.
  function LatticePoint3(lat: Lattice3, x0: int, y0: int, z0: int, nlx: nat, nly: nat, seed: int, k: nat): real
    requires nlx > 0 && nly > 0
  {
    lat(x0 + k % nlx, y0 + (k / nlx) % nly, z0 + (k / nlx) / nly, seed)
  }

  ghost predicate LatticeFilled3(buf: seq<real>, lat: Lattice3, x0: int, y0: int, z0: int, nlx: nat, nly: nat, nlz: nat, seed: int) {
    && nlx > 0 && nly > 0 && nlx * (nly * nlz) <= |buf|
    && forall k :: 0 <= k < nlx * (nly * nlz) ==> buf[k] == LatticePoint3(lat, x0, y0, z0, nlx, nly, seed, k)
  }

  lemma LatticeRead3(buf: seq<real>, lat: Lattice3, x0: int, y0: int, z0: int, nlx: nat, nly: nat, nlz: nat, seed: int,
                     a: nat, b: nat, c: nat)
    requires LatticeFilled3(buf, lat, x0, y0, z0, nlx, nly, nlz, seed) && a < nlx && b < nly && c < nlz
    ensures Idx(a, Idx(b, c, nly), nlx) < |buf|
    ensures buf[Idx(a, Idx(b, c, nly), nlx)] == lat(x0 + a, y0 + b, z0 + c, seed)
  {
    IdxInside(b, c, nly, nlz);
    IdxInside(a, Idx(b, c, nly), nlx, nly * nlz);
  }

  // Moving the grid step into the scaled coordinate.
  lemma GridScale(start: real, i: nat, spread: real, f: real)
    requires spread > 0.0
    ensures Product(Ratio(start + i as real, spread), f) == Scaled(start, spread, f) + Times(i, Ratio(f, spread))
  {
    assert (start + i as real) / spread == start / spread + i as real / spread;
    assert i as real * (f / spread) == i as real / spread * f;
  }

  // One octave at a grid point, read off the octave's gradient map.
  lemma OctaveOnGrid2(lat: Lattice2, np: NoiseParams, px: real, py: real, gx: real, gy: real, stepX: real, stepY: real,
                      seed: int, f: real, g: real, sx: nat, k: nat)
    requires sx > 0 && px * f == gx + Times(k % sx, stepX) && py * f == gy + Times(k / sx, stepY)
    ensures Octave2(lat, np, px, py, seed, f, g) == Product(g, np.Fold(GridNoise2(lat, gx, gy, stepX, stepY, seed, np.Eased2(), sx, k)))
  {
    OctaveAt2(lat, np, px, py, gx + Times(k % sx, stepX), gy + Times(k / sx, stepY), seed, f, g);
    hide Product, Noise2Gradient, Times, Octave2, NoiseParams.Fold;
  }

  lemma OctaveOnGrid3(lat: Lattice3, np: NoiseParams, px: real, py: real, pz: real, gx: real, gy: real, gz: real,
                      stepX: real, stepY: real, stepZ: real, seed: int, f: real, g: real, sx: nat, sy: nat, k: nat)
    requires sx > 0 && sy > 0
    requires px * f == gx + Times(k % sx, stepX)
    requires py * f == gy + Times(RowOf(k, sx, sy), stepY)
    requires pz * f == gz + Times(LayerOf(k, sx, sy), stepZ)
    ensures Octave3(lat, np, px, py, pz, seed, f, g)
      == Product(g, np.Fold(GridNoise3(lat, gx, gy, gz, stepX, stepY, stepZ, seed, np.Eased3(), sx, sy, k)))
  {
    OctaveAt3(lat, np, px, py, pz, gx + Times(k % sx, stepX), gy + Times(RowOf(k, sx, sy), stepY), gz + Times(LayerOf(k, sx, sy), stepZ), seed, f, g);
    hide Product, Noise3Gradient, Times, Octave3, NoiseParams.Fold;
  }

  // The octave sum one octave further, at a grid point.
  lemma NextOnGrid2(lat: Lattice2, np: NoiseParams, p: real, px: real, py: real, gx: real, gy: real, stepX: real, stepY: real,
                    seed: int, n: nat, f: real, g: real, sx: nat, k: nat)
    requires f == Power(np.lacunarity, n) && g == Power(p, n)
    requires sx > 0 && Product(px, f) == gx + Times(k % sx, stepX) && Product(py, f) == gy + Times(k / sx, stepY)
    ensures OctaveSum2(lat, np, p, px, py, seed, n + 1)
      == OctaveSum2(lat, np, p, px, py, seed, n) + Product(g, np.Fold(GridNoise2(lat, gx, gy, stepX, stepY, seed + n, np.Eased2(), sx, k)))
  {
    hide Octave2, OctaveSum2, GridNoise2, NoiseParams.Fold, Times, Power;
    OctaveOnGrid2(lat, np, px, py, gx, gy, stepX, stepY, seed + n, f, g, sx, k);
    hide Product;
    NextOctave2(lat, np, p, px, py, seed, n, f, g);
  }

  lemma NextOnGrid3(lat: Lattice3, np: NoiseParams, p: real, px: real, py: real, pz: real, gx: real, gy: real, gz: real,
                    stepX: real, stepY: real, stepZ: real, seed: int, n: nat, f: real, g: real, sx: nat, sy: nat, k: nat)
    requires f == Power(np.lacunarity, n) && g == Power(p, n) && sx > 0 && sy > 0
    requires Product(px, f) == gx + Times(k % sx, stepX)
    requires Product(py, f) == gy + Times(RowOf(k, sx, sy), stepY)
    requires Product(pz, f) == gz + Times(LayerOf(k, sx, sy), stepZ)
    ensures OctaveSum3(lat, np, p, px, py, pz, seed, n + 1)
      == OctaveSum3(lat, np, p, px, py, pz, seed, n)
         + Product(g, np.Fold(GridNoise3(lat, gx, gy, gz, stepX, stepY, stepZ, seed + n, np.Eased3(), sx, sy, k)))
  {
    hide Octave3, OctaveSum3, GridNoise3, NoiseParams.Fold, Times, Power, RowOf, LayerOf;
    OctaveOnGrid3(lat, np, px, py, pz, gx, gy, gz, stepX, stepY, stepZ, seed + n, f, g, sx, sy, k);
    hide Product;
    NextOctave3(lat, np, p, px, py, pz, seed, n, f, g);
  }

  // The final scaling is left out when it would change nearly nothing.
  function Finish(np: NoiseParams, sum: real): real {
    if Abs(np.offset - 0.0) > 0.00001 || Abs(np.scale - 1.0) > 0.00001 then sum * np.scale + np.offset else sum
  }

  lemma FinishCases(np: NoiseParams, sum: real)
    ensures if Abs(np.offset - 0.0) > 0.00001 || Abs(np.scale - 1.0) > 0.00001
      then Finish(np, sum) == sum * np.scale + np.offset
      else Finish(np, sum) == sum
  {}

  // The closing step is done, or its parameters change nothing.
  predicate ClosesExactly(np: NoiseParams) {
    || Abs(np.offset - 0.0) > 0.00001 || Abs(np.scale - 1.0) > 0.00001
    || (np.offset == 0.0 && (np.scale == 1.0 || np.octaves == 0))
  }

  // Parameters for which neither is so.
  lemma FinishCanDiffer()
    ensures var np := NoiseParams(0.00001, 1.0, 250.0, 250.0, 250.0, 0, 1, 0.6, 2.0, true, false, false);
      !ClosesExactly(np) && Finish(np, 0.0) != Shifted(np, 0.0)
  {}

  // What a map without a persistence map holds for the point (x, y).
  function MapValue2(lat: Lattice2, np: NoiseParams, x: real, y: real, seed: int): real
    requires np.spreadX != 0.0 && np.spreadY != 0.0
  {
    Finish(np, OctaveSum2(lat, np, np.persist, Ratio(x, np.spreadX), Ratio(y, np.spreadY), seed + np.seed, np.octaves))
  }

  function MapValue3(lat: Lattice3, np: NoiseParams, x: real, y: real, z: real, seed: int): real
    requires np.spreadX != 0.0 && np.spreadY != 0.0 && np.spreadZ != 0.0
  {
    Finish(np, OctaveSum3(lat, np, np.persist, Ratio(x, np.spreadX), Ratio(y, np.spreadY), Ratio(z, np.spreadZ), seed + np.seed, np.octaves))
  }

  lemma ClosedIsShifted(np: NoiseParams, sum: real)
    requires ClosesExactly(np) && (np.octaves == 0 ==> sum == 0.0)
    ensures Finish(np, sum) == Shifted(np, sum)
  {}

  lemma NotClosed(np: NoiseParams)
    requires !ClosesExactly(np)
    ensures Finish(np, 0.0) != Shifted(np, 0.0) || (np.octaves > 0 && Finish(np, 1.0) != Shifted(np, 1.0))
  {}

  // Lattices that are 0, but v where the seed is that of the first octave.
  function FirstOctave2(first: int, v: real): Lattice2 {
    (x: int, y: int, s: int) => if s == first then v else 0.0
  }

  function FirstOctave3(first: int, v: real): Lattice3 {
    (x: int, y: int, z: int, s: int) => if s == first then v else 0.0
  }

  lemma {:induction false} FirstOctaveSum2(np: NoiseParams, p: real, x: real, y: real, seed: int, v: real, n: nat)
    requires v >= 0.0
    ensures OctaveSum2(FirstOctave2(seed, v), np, p, x, y, seed, n) == if n == 0 then 0.0 else v
  {
    hide Octave2, FirstOctave2;
    if n == 0 {
    } else {
      FirstOctaveSum2(np, p, x, y, seed, v, n - 1);
      FirstOctaveAlone2(np, x, y, seed, v, n - 1, Power(np.lacunarity, n - 1), Power(p, n - 1));
    }
  }

  lemma FirstOctaveAlone2(np: NoiseParams, x: real, y: real, seed: int, v: real, n: nat, f: real, g: real)
    requires v >= 0.0 && (n == 0 ==> g == 1.0)
    ensures Octave2(FirstOctave2(seed, v), np, x, y, seed + n, f, g) == if n == 0 then v else 0.0
  {
    hide Noise2Gradient;
    FlatNoise2(FirstOctave2(seed, v), x * f, y * f, seed + n, np.Eased2(), if n == 0 then v else 0.0);
  }

  // Where the lattice is flat so is the noise.
  lemma FlatNoise2(lat: Lattice2, x: real, y: real, seed: int, eased: bool, v: real)
    requires forall i, j :: lat(i, j, seed) == v
    ensures Noise2Gradient(lat, x, y, seed, eased) == v
  {
    hide Ease;
    FlatLine(v, Ease(x - MyFloor(x) as real, eased));
    FlatLine(v, Ease(y - MyFloor(y) as real, eased));
  }

  lemma FlatLine(v: real, t: real)
    ensures LinearInterpolation(v, v, t) == v
  {}

  lemma {:induction false} FirstOctaveSum3(np: NoiseParams, p: real, x: real, y: real, z: real, seed: int, v: real, n: nat)
    requires v >= 0.0
    ensures OctaveSum3(FirstOctave3(seed, v), np, p, x, y, z, seed, n) == if n == 0 then 0.0 else v
  {
    hide Octave3, FirstOctave3;
    if n == 0 {
    } else {
      FirstOctaveSum3(np, p, x, y, z, seed, v, n - 1);
      FirstOctaveAlone3(np, x, y, z, seed, v, n - 1, Power(np.lacunarity, n - 1), Power(p, n - 1));
    }
  }

  lemma FirstOctaveAlone3(np: NoiseParams, x: real, y: real, z: real, seed: int, v: real, n: nat, f: real, g: real)
    requires v >= 0.0 && (n == 0 ==> g == 1.0)
    ensures Octave3(FirstOctave3(seed, v), np, x, y, z, seed + n, f, g) == if n == 0 then v else 0.0
  {
    hide Noise3Gradient;
    FlatNoise3(FirstOctave3(seed, v), x * f, y * f, z * f, seed + n, np.Eased3(), if n == 0 then v else 0.0);
  }

  lemma FlatNoise3(lat: Lattice3, x: real, y: real, z: real, seed: int, eased: bool, v: real)
    requires forall i, j, k :: lat(i, j, k, seed) == v
    ensures Noise3Gradient(lat, x, y, z, seed, eased) == v
  {
    hide Ease, LinearInterpolation;
    var tx, ty, tz := Ease(x - MyFloor(x) as real, eased), Ease(y - MyFloor(y) as real, eased), Ease(z - MyFloor(z) as real, eased);
    FlatLine(v, Ease(tx, false));
    FlatLine(v, Ease(ty, false));
    FlatLine(v, tz);
  }

  /**
   A map without a persistence map is the pointwise noise, for all lattices, seeds and points, exactly when the
   closing step is done or its parameters change nothing.
   */
  lemma MapIsPointwise2(np: NoiseParams)
    requires np.spreadX != 0.0 && np.spreadY != 0.0
    ensures ClosesExactly(np) <==>
      forall lat: Lattice2, x, y, seed :: MapValue2(lat, np, x, y, seed) == Perlin2(lat, np, x, y, seed)
  {
    hide Finish, Shifted, ClosesExactly;
    if ClosesExactly(np) {
      forall lat: Lattice2, x, y, seed ensures MapValue2(lat, np, x, y, seed) == Perlin2(lat, np, x, y, seed) {
        ClosedIsShifted(np, OctaveSum2(lat, np, np.persist, Ratio(x, np.spreadX), Ratio(y, np.spreadY), seed + np.seed, np.octaves));
      }
    } else {
      NotClosed(np);
      FirstOctaveSum2(np, np.persist, Ratio(0.0, np.spreadX), Ratio(0.0, np.spreadY), np.seed, 0.0, np.octaves);
      FirstOctaveSum2(np, np.persist, Ratio(0.0, np.spreadX), Ratio(0.0, np.spreadY), np.seed, 1.0, np.octaves);
      assert 0 + np.seed == np.seed;
      assert MapValue2(FirstOctave2(np.seed, 0.0), np, 0.0, 0.0, 0) != Perlin2(FirstOctave2(np.seed, 0.0), np, 0.0, 0.0, 0)
        || MapValue2(FirstOctave2(np.seed, 1.0), np, 0.0, 0.0, 0) != Perlin2(FirstOctave2(np.seed, 1.0), np, 0.0, 0.0, 0);
    }
  }

  lemma MapIsPointwise3(np: NoiseParams)
    requires np.spreadX != 0.0 && np.spreadY != 0.0 && np.spreadZ != 0.0
    ensures ClosesExactly(np) <==>
      forall lat: Lattice3, x, y, z, seed :: MapValue3(lat, np, x, y, z, seed) == Perlin3(lat, np, x, y, z, seed)
  {
    hide Finish, Shifted, ClosesExactly;
    if ClosesExactly(np) {
      forall lat: Lattice3, x, y, z, seed ensures MapValue3(lat, np, x, y, z, seed) == Perlin3(lat, np, x, y, z, seed) {
        ClosedIsShifted(np, OctaveSum3(lat, np, np.persist, Ratio(x, np.spreadX), Ratio(y, np.spreadY), Ratio(z, np.spreadZ), seed + np.seed, np.octaves));
      }
    } else {
      NotClosed(np);
      FirstOctaveSum3(np, np.persist, Ratio(0.0, np.spreadX), Ratio(0.0, np.spreadY), Ratio(0.0, np.spreadZ), np.seed, 0.0, np.octaves);
      FirstOctaveSum3(np, np.persist, Ratio(0.0, np.spreadX), Ratio(0.0, np.spreadY), Ratio(0.0, np.spreadZ), np.seed, 1.0, np.octaves);
      assert 0 + np.seed == np.seed;
      assert MapValue3(FirstOctave3(np.seed, 0.0), np, 0.0, 0.0, 0.0, 0) != Perlin3(FirstOctave3(np.seed, 0.0), np, 0.0, 0.0, 0.0, 0)
        || MapValue3(FirstOctave3(np.seed, 1.0), np, 0.0, 0.0, 0.0, 0) != Perlin3(FirstOctave3(np.seed, 1.0), np, 0.0, 0.0, 0.0, 0);
    }
  }

  class Noise {
    const lat2: Lattice2
    const lat3: Lattice3
    const np: NoiseParams
    const seed: int
    const sx: nat
    const sy: nat
    const sz: nat
    const noiseBuf: array<real>
    const gradientBuf: array<real>
    const result: array<real>
    var persistBuf: array?<real>    // kept from the first call with a persistence map

    ghost predicate Valid() {
      && sx > 0 && sy > 0 && sz > 0
      && noiseBuf != gradientBuf && noiseBuf != result && gradientBuf != result
      && gradientBuf.Length == result.Length == sx * sy * sz
      && np.spreadX != 0.0 && np.spreadY != 0.0 && np.spreadZ != 0.0 && (np.lacunarity >= 0.0 ==> Settings(np))
      && noiseBuf.Length == BufferSize(np, sx, sy, sz)
    }

    constructor (lat2: Lattice2, lat3: Lattice3, np: NoiseParams, seed: int, sx: nat, sy: nat, sz: nat)
      requires np.spreadX != 0.0 && np.spreadY != 0.0 && np.spreadZ != 0.0
      requires Accepted(np, Max1(sx), Max1(sy), Max1(sz))
      ensures Valid() && fresh(noiseBuf) && fresh(gradientBuf) && fresh(result) && persistBuf == null
      ensures this.lat2 == lat2 && this.lat3 == lat3 && this.np == np && this.seed == seed
      ensures this.sx == (if sx == 0 then 1 else sx) && this.sy == (if sy == 0 then 1 else sy) && this.sz == (if sz == 0 then 1 else sz)
    {
      var (mx, my, mz) := (Max1(sx), Max1(sy), Max1(sz));
      AcceptedSettings(np, mx, my, mz);
      var factor := OctaveFactor(np);
      ReservedIfCovered(mx, factor, np.spreadX);
      ReservedIfCovered(my, factor, np.spreadY);
      ReservedIfCovered(mz, factor, np.spreadZ);
      var nlx: nat := ReservedPoints(mx, factor, np.spreadX);
      var nly: nat := ReservedPoints(my, factor, np.spreadY);
      var nlz: nat := if mz > 1 then ReservedPoints(mz, factor, np.spreadZ) else 1;
      this.lat2, this.lat3, this.np, this.seed := lat2, lat3, np, seed;
      this.sx, this.sy, this.sz := mx, my, mz;
      ProductNat(nlx, nly, nlz);
      ProductNat(mx, my, mz);
      hide ReservedPoints, OctaveFactor, Accepted;
      noiseBuf := new real[nlx * nly * nlz];
      gradientBuf := new real[mx * my * mz];
      result := new real[mx * my * mz];
      persistBuf := null;
    }

    static lemma ProductNat(a: nat, b: nat, c: nat)
      ensures a * b * c >= 0
    {}

    // The lattice points of one octave, row by row.
    method FillLattice2(x0: int, y0: int, nlx: nat, nly: nat, seed: int)
      requires nlx > 0 && nlx * nly <= noiseBuf.Length
      modifies noiseBuf
      ensures LatticeFilled2(noiseBuf[..], lat2, x0, y0, nlx, nly, seed)
    {
      hide Idx, LatticePoint2;
      var index := 0;
      IdxSteps(0, 0, nlx);
      for j := 0 to nly
        invariant index == Idx(0, j, nlx)
        invariant index <= noiseBuf.Length
        invariant forall k :: 0 <= k < index ==> noiseBuf[k] == LatticePoint2(lat2, x0, y0, nlx, seed, k)
      {
        for i := 0 to nlx
          invariant index == Idx(i, j, nlx)
          invariant index <= noiseBuf.Length
          invariant forall k :: 0 <= k < index ==> noiseBuf[k] == LatticePoint2(lat2, x0, y0, nlx, seed, k)
        {
          IdxInside(i, j, nlx, nly);
          LatticePointAt2(lat2, x0, y0, nlx, seed, i, j, index);
          noiseBuf[index] := lat2(x0 + i, y0 + j, seed);
          index := index + 1;
          IdxSteps(i, j, nlx);
        }
        IdxSteps(0, j, nlx);
      }
      IdxSteps(0, nly, nlx);
      assert nly * nlx == nlx * nly;
    }

    lemma LatticePointAt2(lat: Lattice2, x0: int, y0: int, nlx: nat, seed: int, i: nat, j: nat, k: nat)
      requires nlx > 0 && k % nlx == i && k / nlx == j
      ensures LatticePoint2(lat, x0, y0, nlx, seed, k) == lat(x0 + i, y0 + j, seed)
    {}

    // The first n grid points are done.
    ghost predicate GridFilled2(buf: seq<real>, x: real, y: real, stepX: real, stepY: real, seed: int, n: nat) {
      && sx > 0 && n <= |buf|
      && forall i :: 0 <= i < n ==> buf[i] == GridWalk2(lat2, x, y, stepX, stepY, seed, np.Eased2(), sx, i)
    }

    lemma GridGrows2(buf: seq<real>, x: real, y: real, stepX: real, stepY: real, seed: int, n: nat, value: real)
      requires GridFilled2(buf, x, y, stepX, stepY, seed, n) && n < |buf|
      requires value == GridWalk2(lat2, x, y, stepX, stepY, seed, np.Eased2(), sx, n)
      ensures GridFilled2(buf[n := value], x, y, stepX, stepY, seed, n + 1)
    {}

    // The grid points of a 2D map.
    function Size2(): nat {
      sx * sy
    }

    // The two lattice values at column x0, rows y0 and y0 + 1.
    ghost predicate Column2(x0: int, y0: int, seed: int, r0: real, r1: real) {
      r0 == lat2(x0, y0, seed) && r1 == lat2(x0, y0 + 1, seed)
    }

    method ReadColumn2(x: real, y: real, nlx: nat, nly: nat, seed: int, a: nat, b: nat) returns (r0: real, r1: real)
      requires LatticeFilled2(noiseBuf[..], lat2, x.Floor, y.Floor, nlx, nly, seed) && a < nlx && b + 1 < nly
      ensures Column2(x.Floor + a, y.Floor + b, seed, r0, r1)
    {
      hide LatticeFilled2;
      r0 := Read2(x, y, nlx, nly, seed, a, b);
      r1 := Read2(x, y, nlx, nly, seed, a, b + 1);
    }

    // One row of a 2D gradient map.
    method GradientRow2(x: real, y: real, stepX: real, stepY: real, seed: int, nlx: nat, nly: nat, j: nat, v: real, noisey: nat)
      requires Valid() && j < sy && 0.0 <= stepX && 0.0 <= stepY
      requires nlx == LatticePoints(Fraction(x), sx, stepX) && nly == LatticePoints(Fraction(y), sy, stepY)
      requires LatticeFilled2(noiseBuf[..], lat2, x.Floor, y.Floor, nlx, nly, seed)
      requires OnAxis(Fraction(y), stepY, j, v, noisey)
      requires GridFilled2(gradientBuf[..], x, y, stepX, stepY, seed, Idx(0, j, sx))
      modifies gradientBuf
      ensures GridFilled2(gradientBuf[..], x, y, stepX, stepY, seed, Idx(0, j + 1, sx))
    {
      hide Column2, BiLinearInterpolation, GridWalk2, GridFilled2, LatticeFilled2, Idx, LatticePoints, OnAxis, Fraction, Valid;
      Buffers();
      ghost var x0, y0 := x.Floor, y.Floor + noisey;
      RowsFit2(j);
      AxisInLattice(Fraction(y), stepY, sy, j, v, noisey);
      AxisStarts(x, stepX);
      AxisInLattice(Fraction(x), stepX, sx, 0, Fraction(x), 0);
      var v00, v01 := ReadColumn2(x, y, nlx, nly, seed, 0, noisey);
      var v10, v11 := ReadColumn2(x, y, nlx, nly, seed, 1, noisey);
      var u := Fraction(x);
      var noisex := 0;
      var index := Idx(0, j, sx);
      for i := 0 to sx
        invariant index == Idx(i, j, sx) && index <= gradientBuf.Length
        invariant OnAxis(Fraction(x), stepX, i, u, noisex)
        invariant LatticeFilled2(noiseBuf[..], lat2, x.Floor, y.Floor, nlx, nly, seed)
        invariant Column2(x0 + noisex, y0, seed, v00, v01) && Column2(x0 + noisex + 1, y0, seed, v10, v11)
        invariant GridFilled2(gradientBuf[..], x, y, stepX, stepY, seed, index)
      {
        IdxInside(i, j, sx, sy);
        IdxSteps(i, j, sx);
        WalkedRow2(x, y, stepX, stepY, seed, i, j, u, v, noisex, noisey, index, v00, v01, v10, v11);
        var value := BiLinearInterpolation(v00, v10, v01, v11, u, v, np.Eased2());
        GridGrows2(gradientBuf[..], x, y, stepX, stepY, seed, index, value);
        ghost var before := gradientBuf[..];
        gradientBuf[index] := value;
        assert gradientBuf[..] == before[index := value];
        index := index + 1;
        AxisStep(Fraction(x), stepX, i, u, noisex);
        u := u + stepX;
        if u >= 1.0 {
          u := u - 1.0;
          noisex := noisex + 1;
          v00 := v10;
          v01 := v11;
          AxisInLattice(Fraction(x), stepX, sx, i + 1, u, noisex);
          v10, v11 := ReadColumn2(x, y, nlx, nly, seed, noisex + 1, noisey);
        }
      }
      IdxSteps(0, j, sx);
    }

    lemma Buffers()
      requires Valid()
      ensures sx > 0 && sy > 0 && sz > 0
      ensures np.lacunarity >= 0.0 ==> np.spreadX > 0.0 && np.spreadY > 0.0 && np.spreadZ > 0.0
      ensures noiseBuf != gradientBuf && noiseBuf != result && gradientBuf != result && gradientBuf.Length == result.Length
    {}

    lemma RowsFit2(j: nat)
      requires Valid() && j < sy
      ensures Idx(0, j, sx) <= Idx(0, j + 1, sx) <= sx * sy <= gradientBuf.Length
      ensures j + 1 == sy ==> Idx(0, j + 1, sx) == sx * sy
    {
      hide Settings, BufferSize;
      Rows2(j, sx, sy, sz);
    }

    static lemma Rows2(j: nat, sx: nat, sy: nat, sz: nat)
      requires j < sy && sz > 0
      ensures Idx(0, j, sx) <= Idx(0, j + 1, sx) <= sx * sy <= sx * sy * sz
      ensures j + 1 == sy ==> Idx(0, j + 1, sx) == sx * sy
    {
      MulMono(j + 1, sy, sx);
      MulMono(1, sz, sx * sy);
      assert sz * (sx * sy) == sx * sy * sz;
    }

    lemma WalkedRow2(x: real, y: real, stepX: real, stepY: real, seed: int, i: nat, j: nat, u: real, v: real, nx: nat, ny: nat, k: nat,
                     v00: real, v01: real, v10: real, v11: real)
      requires sx > 0 && i < sx && k % sx == i && k / sx == j
      requires OnAxis(Fraction(x), stepX, i, u, nx) && OnAxis(Fraction(y), stepY, j, v, ny)
      requires Column2(x.Floor + nx, y.Floor + ny, seed, v00, v01) && Column2(x.Floor + nx + 1, y.Floor + ny, seed, v10, v11)
      ensures GridWalk2(lat2, x, y, stepX, stepY, seed, np.Eased2(), sx, k)
        == BiLinearInterpolation(v00, v10, v01, v11, u, v, np.Eased2())
    {
      hide BiLinearInterpolation;
      WalkedPoint2(lat2, x, y, stepX, stepY, i, j, u, v, nx, ny, seed, np.Eased2());
    }

    // The idx(a, b) access of the 2D map.
    method Read2(x: real, y: real, nlx: nat, nly: nat, seed: int, a: nat, b: nat) returns (r: real)
      requires LatticeFilled2(noiseBuf[..], lat2, x.Floor, y.Floor, nlx, nly, seed) && a < nlx && b < nly
      ensures r == lat2(x.Floor + a, y.Floor + b, seed)
    {
      LatticeRead2(noiseBuf[..], lat2, x.Floor, y.Floor, nlx, nly, seed, a, b);
      r := noiseBuf[Idx(a, b, nlx)];
    }

    /** Noise::gradientMap2D: every grid point gets the gradient noise of its own coordinates, if the walk keeps up. */
    method GradientMap2D(x: real, y: real, stepX: real, stepY: real, seed: int)
      requires Valid() && 0.0 <= stepX && 0.0 <= stepY
      requires LatticePoints(Fraction(x), sx, stepX) * LatticePoints(Fraction(y), sy, stepY) <= noiseBuf.Length
      modifies noiseBuf, gradientBuf
      ensures Size2() <= gradientBuf.Length
      ensures forall k :: 0 <= k < Size2() ==>
        gradientBuf[k] == GridWalk2(lat2, x, y, stepX, stepY, seed, np.Eased2(), sx, k)
      ensures Follows(Fraction(x), stepX, sx) && Follows(Fraction(y), stepY, sy) ==> forall k :: 0 <= k < Size2() ==>
        gradientBuf[k] == GridNoise2(lat2, x, y, stepX, stepY, seed, np.Eased2(), sx, k)
    {
      hide GridWalk2, LatticeFilled2, Idx;
      IdxSteps(0, 0, sx);
      var x0, y0 := x.Floor, y.Floor;
      var v := Fraction(y);
      var nlx, nly := LatticePoints(Fraction(x), sx, stepX), LatticePoints(Fraction(y), sy, stepY);
      AxisStarts(x, stepX);
      AxisInLattice(Fraction(x), stepX, sx, 0, Fraction(x), 0);
      FillLattice2(x0, y0, nlx, nly, seed);
      AxisStarts(y, stepY);
      var noisey := 0;
      for j := 0 to sy
        invariant OnAxis(Fraction(y), stepY, j, v, noisey)
        invariant LatticeFilled2(noiseBuf[..], lat2, x0, y0, nlx, nly, seed)
        invariant GridFilled2(gradientBuf[..], x, y, stepX, stepY, seed, Idx(0, j, sx))
      {
        GradientRow2(x, y, stepX, stepY, seed, nlx, nly, j, v, noisey);
        AxisStep(Fraction(y), stepY, j, v, noisey);
        v := v + stepY;
        if v >= 1.0 {
          v := v - 1.0;
          noisey := noisey + 1;
        }
      }
      RowsFit2(sy - 1);
      WalkedGrid2(x, y, stepX, stepY, seed);
    }

    // At the points of the map.
    lemma WalkedGrid2(x: real, y: real, stepX: real, stepY: real, seed: int)
      requires sx > 0 && sy > 0 && stepX >= 0.0 && stepY >= 0.0
      ensures Follows(Fraction(x), stepX, sx) && Follows(Fraction(y), stepY, sy) ==> forall k :: 0 <= k < Size2() ==>
        GridWalk2(lat2, x, y, stepX, stepY, seed, np.Eased2(), sx, k) == GridNoise2(lat2, x, y, stepX, stepY, seed, np.Eased2(), sx, k)
    {
      hide Follows, WalkNoise2, Noise2Gradient, Times, Fraction;
      WalkIsGradient2(x, y, stepX, stepY, sx, sy, seed, np.Eased2());
      if Follows(Fraction(x), stepX, sx) && Follows(Fraction(y), stepY, sy) {
        forall k | 0 <= k < Size2()
          ensures GridWalk2(lat2, x, y, stepX, stepY, seed, np.Eased2(), sx, k) == GridNoise2(lat2, x, y, stepX, stepY, seed, np.Eased2(), sx, k)
        {
          PointOf2(k, sx, sy);
        }
      }
    }

    static lemma PointOf2(k: nat, w: nat, h: nat)
      requires w > 0 && k < w * h
      ensures k % w < w && k / w < h
    {
      assert k == (k / w) * w + k % w;
      if k / w >= h {
        MulMono(h, k / w, w);
      }
    }

    // ------------------------------------------------------------ three dimensions

    method FillLattice3(x0: int, y0: int, z0: int, nlx: nat, nly: nat, nlz: nat, seed: int)
      requires nlx > 0 && nly > 0 && nlx * (nly * nlz) <= noiseBuf.Length
      modifies noiseBuf
      ensures LatticeFilled3(noiseBuf[..], lat3, x0, y0, z0, nlx, nly, nlz, seed)
    {
      hide Idx, LatticePoint3;
      var index := 0;
      IdxSteps(0, 0, nlx);
      IdxSteps(0, 0, nly);
      for k := 0 to nlz
        invariant index == Idx(0, Idx(0, k, nly), nlx)
        invariant index <= noiseBuf.Length
        invariant forall i :: 0 <= i < index ==> noiseBuf[i] == LatticePoint3(lat3, x0, y0, z0, nlx, nly, seed, i)
      {
        for j := 0 to nly
          invariant index == Idx(0, Idx(j, k, nly), nlx)
          invariant index <= noiseBuf.Length
          invariant forall i :: 0 <= i < index ==> noiseBuf[i] == LatticePoint3(lat3, x0, y0, z0, nlx, nly, seed, i)
        {
          IdxInside(j, k, nly, nlz);
          ghost var row := Idx(j, k, nly);
          for i := 0 to nlx
            invariant index == Idx(i, row, nlx)
            invariant index <= noiseBuf.Length
            invariant forall n :: 0 <= n < index ==> noiseBuf[n] == LatticePoint3(lat3, x0, y0, z0, nlx, nly, seed, n)
          {
            IdxInside(i, row, nlx, nly * nlz);
            LatticePointAt3(lat3, x0, y0, z0, nlx, nly, seed, i, j, k, index);
            noiseBuf[index] := lat3(x0 + i, y0 + j, z0 + k, seed);
            index := index + 1;
            IdxSteps(i, row, nlx);
          }
          IdxSteps(0, row, nlx);
          IdxSteps(j, k, nly);
        }
        IdxSteps(0, k, nly);
      }
      IdxSteps(0, nlz, nly);
      IdxSteps(0, nlz * nly, nlx);
      assert nlz * nly == nly * nlz;
      assert (nly * nlz) * nlx == nlx * (nly * nlz);
    }

    lemma LatticePointAt3(lat: Lattice3, x0: int, y0: int, z0: int, nlx: nat, nly: nat, seed: int, i: nat, j: nat, k: nat, n: nat)
      requires nlx > 0 && nly > 0 && n % nlx == i && (n / nlx) % nly == j && (n / nlx) / nly == k
      ensures LatticePoint3(lat, x0, y0, z0, nlx, nly, seed, n) == lat(x0 + i, y0 + j, z0 + k, seed)
    {}

    // The idx(a, b, c) access of the 3D map.
    method Read3(x: real, y: real, z: real, nlx: nat, nly: nat, nlz: nat, seed: int, a: nat, b: nat, c: nat) returns (r: real)
      requires LatticeFilled3(noiseBuf[..], lat3, x.Floor, y.Floor, z.Floor, nlx, nly, nlz, seed)
      requires a < nlx && b < nly && c < nlz
      ensures r == lat3(x.Floor + a, y.Floor + b, z.Floor + c, seed)
    {
      LatticeRead3(noiseBuf[..], lat3, x.Floor, y.Floor, z.Floor, nlx, nly, nlz, seed, a, b, c);
      r := noiseBuf[Idx(a, Idx(b, c, nly), nlx)];
    }

    // The first n grid points are done.
    ghost predicate GridFilled3(buf: seq<real>, x: real, y: real, z: real, stepX: real, stepY: real, stepZ: real, seed: int, n: nat) {
      && sx > 0 && sy > 0 && n <= |buf|
      && forall i :: 0 <= i < n ==> buf[i] == GridWalk3(lat3, x, y, z, stepX, stepY, stepZ, seed, np.Eased3(), sx, sy, i)
    }

    lemma GridGrows3(buf: seq<real>, x: real, y: real, z: real, stepX: real, stepY: real, stepZ: real, seed: int, n: nat, value: real)
      requires GridFilled3(buf, x, y, z, stepX, stepY, stepZ, seed, n) && n < |buf|
      requires value == GridWalk3(lat3, x, y, z, stepX, stepY, stepZ, seed, np.Eased3(), sx, sy, n)
      ensures GridFilled3(buf[n := value], x, y, z, stepX, stepY, stepZ, seed, n + 1)
    {}

    // The four lattice values at column x0, rows y0 and y0 + 1, layers z0 and z0 + 1.
    ghost predicate Column3(x0: int, y0: int, z0: int, seed: int, r00: real, r10: real, r01: real, r11: real) {
      && r00 == lat3(x0, y0, z0, seed) && r10 == lat3(x0, y0 + 1, z0, seed)
      && r01 == lat3(x0, y0, z0 + 1, seed) && r11 == lat3(x0, y0 + 1, z0 + 1, seed)
    }

    // The four lattice points of column a around row b, layer c.
    method ReadColumn3(x: real, y: real, z: real, nlx: nat, nly: nat, nlz: nat, seed: int, a: nat, b: nat, c: nat)
      returns (r00: real, r10: real, r01: real, r11: real)
      requires LatticeFilled3(noiseBuf[..], lat3, x.Floor, y.Floor, z.Floor, nlx, nly, nlz, seed)
      requires a < nlx && b + 1 < nly && c + 1 < nlz
      ensures Column3(x.Floor + a, y.Floor + b, z.Floor + c, seed, r00, r10, r01, r11)
    {
      hide LatticeFilled3;
      r00 := Read3(x, y, z, nlx, nly, nlz, seed, a, b, c);
      r10 := Read3(x, y, z, nlx, nly, nlz, seed, a, b + 1, c);
      r01 := Read3(x, y, z, nlx, nly, nlz, seed, a, b, c + 1);
      r11 := Read3(x, y, z, nlx, nly, nlz, seed, a, b + 1, c + 1);
    }

    // One row of a 3D gradient map: row j of layer k.
    method GradientRow3(x: real, y: real, z: real, stepX: real, stepY: real, stepZ: real, seed: int,
                        nlx: nat, nly: nat, nlz: nat, j: nat, k: nat, v: real, w: real, noisey: nat, noisez: nat)
      requires Valid() && j < sy && k < sz && 0.0 <= stepX && 0.0 <= stepY && 0.0 <= stepZ
      requires nlx == LatticePoints(Fraction(x), sx, stepX) && nly == LatticePoints(Fraction(y), sy, stepY)
      requires nlz == LatticePoints(Fraction(z), sz, stepZ)
      requires LatticeFilled3(noiseBuf[..], lat3, x.Floor, y.Floor, z.Floor, nlx, nly, nlz, seed)
      requires OnAxis(Fraction(y), stepY, j, v, noisey) && OnAxis(Fraction(z), stepZ, k, w, noisez)
      requires GridFilled3(gradientBuf[..], x, y, z, stepX, stepY, stepZ, seed, Idx(0, Idx(j, k, sy), sx))
      modifies gradientBuf
      ensures GridFilled3(gradientBuf[..], x, y, z, stepX, stepY, stepZ, seed, Idx(0, Idx(j + 1, k, sy), sx))
    {
      hide TriLinearInterpolation, Column3, GridWalk3, GridFilled3, LatticeFilled3, Idx, LatticePoints, OnAxis, Fraction, Valid;
      Buffers();
      ghost var x0, y0, z0 := x.Floor, y.Floor + noisey, z.Floor + noisez;
      RowsFit3(j, k);
      AxisInLattice(Fraction(y), stepY, sy, j, v, noisey);
      AxisInLattice(Fraction(z), stepZ, sz, k, w, noisez);
      AxisStarts(x, stepX);
      AxisInLattice(Fraction(x), stepX, sx, 0, Fraction(x), 0);
      var v000, v010, v001, v011 := ReadColumn3(x, y, z, nlx, nly, nlz, seed, 0, noisey, noisez);
      var v100, v110, v101, v111 := ReadColumn3(x, y, z, nlx, nly, nlz, seed, 1, noisey, noisez);
      var u := Fraction(x);
      var noisex := 0;
      ghost var row := Idx(j, k, sy);
      var index := Idx(0, Idx(j, k, sy), sx);
      for i := 0 to sx
        invariant index == Idx(i, row, sx) && index <= gradientBuf.Length
        invariant OnAxis(Fraction(x), stepX, i, u, noisex)
        invariant LatticeFilled3(noiseBuf[..], lat3, x.Floor, y.Floor, z.Floor, nlx, nly, nlz, seed)
        invariant Column3(x0 + noisex, y0, z0, seed, v000, v010, v001, v011)
        invariant Column3(x0 + noisex + 1, y0, z0, seed, v100, v110, v101, v111)
        invariant GridFilled3(gradientBuf[..], x, y, z, stepX, stepY, stepZ, seed, index)
      {
        PointIndex3(i, j, k);
        var value := TriLinearInterpolation(v000, v100, v010, v110, v001, v101, v011, v111, u, v, w, np.Eased3());
        WalkedRow3(x, y, z, stepX, stepY, stepZ, seed, i, j, k, u, v, w, noisex, noisey, noisez, index,
          v000, v010, v001, v011, v100, v110, v101, v111);
        GridGrows3(gradientBuf[..], x, y, z, stepX, stepY, stepZ, seed, index, value);
        ghost var before := gradientBuf[..];
        gradientBuf[index] := value;
        assert gradientBuf[..] == before[index := value];
        index := index + 1;
        AxisStep(Fraction(x), stepX, i, u, noisex);
        u := u + stepX;
        if u >= 1.0 {
          u := u - 1.0;
          noisex := noisex + 1;
          v000 := v100;
          v010 := v110;
          v001 := v101;
          v011 := v111;
          AxisInLattice(Fraction(x), stepX, sx, i + 1, u, noisex);
          v100, v110, v101, v111 := ReadColumn3(x, y, z, nlx, nly, nlz, seed, noisex + 1, noisey, noisez);
        }
      }
    }

    lemma RowsFit3(j: nat, k: nat)
      requires Valid() && j < sy && k < sz
      ensures Idx(0, Idx(j, k, sy), sx) <= Idx(0, Idx(j + 1, k, sy), sx) <= gradientBuf.Length
      ensures Idx(sx, Idx(j, k, sy), sx) == Idx(0, Idx(j + 1, k, sy), sx)
    {
      IdxInside(j, k, sy, sz);
      IdxSteps(j, k, sy);
      IdxSteps(0, Idx(j, k, sy), sx);
      RowEnds(Idx(j, k, sy), sx, sy * sz);
      assert gradientBuf.Length == sx * sy * sz;
      hide Valid, Idx;
      MulAssociative(sx, sy, sz);
    }

    // Where the point in column i of row j of layer k is kept.
    lemma PointIndex3(i: nat, j: nat, k: nat)
      requires Valid() && i < sx && j < sy && k < sz
      ensures var n := Idx(i, Idx(j, k, sy), sx);
        && n < gradientBuf.Length && n % sx == i && (n / sx) % sy == j && (n / sx) / sy == k
        && Idx(i + 1, Idx(j, k, sy), sx) == n + 1
    {
      IdxInside(j, k, sy, sz);
      IdxInside(i, Idx(j, k, sy), sx, sy * sz);
      IdxSteps(i, Idx(j, k, sy), sx);
      assert gradientBuf.Length == sx * sy * sz;
      hide Valid, Idx;
      MulAssociative(sx, sy, sz);
    }

    lemma MulAssociative(a: nat, b: nat, c: nat)
      ensures a * (b * c) == a * b * c
    {}

    lemma RowEnds(row: nat, w: nat, h: nat)
      requires row < h
      ensures Idx(0, row, w) <= Idx(0, row + 1, w) <= w * h
    {
      MulMono(row + 1, h, w);
      MulMono(row, row + 1, w);
      assert h * w == w * h;
    }

    lemma WalkedRow3(x: real, y: real, z: real, stepX: real, stepY: real, stepZ: real, seed: int, i: nat, j: nat, k: nat,
                     u: real, v: real, w: real, nx: nat, ny: nat, nz: nat, n: nat,
                     v000: real, v010: real, v001: real, v011: real, v100: real, v110: real, v101: real, v111: real)
      requires sx > 0 && sy > 0 && n % sx == i && (n / sx) % sy == j && (n / sx) / sy == k
      requires OnAxis(Fraction(x), stepX, i, u, nx) && OnAxis(Fraction(y), stepY, j, v, ny) && OnAxis(Fraction(z), stepZ, k, w, nz)
      requires Column3(x.Floor + nx, y.Floor + ny, z.Floor + nz, seed, v000, v010, v001, v011)
      requires Column3(x.Floor + nx + 1, y.Floor + ny, z.Floor + nz, seed, v100, v110, v101, v111)
      ensures GridWalk3(lat3, x, y, z, stepX, stepY, stepZ, seed, np.Eased3(), sx, sy, n)
        == TriLinearInterpolation(v000, v100, v010, v110, v001, v101, v011, v111, u, v, w, np.Eased3())
    {
      WalkedPoint3(lat3, x, y, z, stepX, stepY, stepZ, i, j, k, u, v, w, nx, ny, nz, seed, np.Eased3());
      hide TriLinearInterpolation;
    }

    /** Noise::gradientMap3D. */
    method GradientMap3D(x: real, y: real, z: real, stepX: real, stepY: real, stepZ: real, seed: int)
      requires Valid() && 0.0 <= stepX && 0.0 <= stepY && 0.0 <= stepZ
      requires LatticePoints(Fraction(x), sx, stepX) * (LatticePoints(Fraction(y), sy, stepY) * LatticePoints(Fraction(z), sz, stepZ))
        <= noiseBuf.Length
      modifies noiseBuf, gradientBuf
      ensures forall n :: 0 <= n < gradientBuf.Length ==>
        gradientBuf[n] == GridWalk3(lat3, x, y, z, stepX, stepY, stepZ, seed, np.Eased3(), sx, sy, n)
      ensures Follows(Fraction(x), stepX, sx) && Follows(Fraction(y), stepY, sy) && Follows(Fraction(z), stepZ, sz) ==>
        forall n :: 0 <= n < gradientBuf.Length ==>
          gradientBuf[n] == GridNoise3(lat3, x, y, z, stepX, stepY, stepZ, seed, np.Eased3(), sx, sy, n)
    {
      hide GridWalk3, LatticeFilled3, Idx, OnAxis, Valid;
      Buffers();
      IdxSteps(0, 0, sx);
      IdxSteps(0, 0, sy);
      var x0, y0, z0 := x.Floor, y.Floor, z.Floor;
      var w := Fraction(z);
      var nlx, nly, nlz := LatticePoints(Fraction(x), sx, stepX), LatticePoints(Fraction(y), sy, stepY), LatticePoints(Fraction(z), sz, stepZ);
      FillLattice3(x0, y0, z0, nlx, nly, nlz, seed);
      AxisStarts(z, stepZ);
      var noisez := 0;
      for k := 0 to sz
        invariant OnAxis(Fraction(z), stepZ, k, w, noisez)
        invariant LatticeFilled3(noiseBuf[..], lat3, x0, y0, z0, nlx, nly, nlz, seed)
        invariant GridFilled3(gradientBuf[..], x, y, z, stepX, stepY, stepZ, seed, Idx(0, Idx(0, k, sy), sx))
      {
        AxisStarts(y, stepY);
        var v := Fraction(y);
        var noisey := 0;
        for j := 0 to sy
          invariant OnAxis(Fraction(y), stepY, j, v, noisey)
          invariant LatticeFilled3(noiseBuf[..], lat3, x0, y0, z0, nlx, nly, nlz, seed)
          invariant GridFilled3(gradientBuf[..], x, y, z, stepX, stepY, stepZ, seed, Idx(0, Idx(j, k, sy), sx))
        {
          GradientRow3(x, y, z, stepX, stepY, stepZ, seed, nlx, nly, nlz, j, k, v, w, noisey, noisez);
          AxisStep(Fraction(y), stepY, j, v, noisey);
          v := v + stepY;
          if v >= 1.0 {
            v := v - 1.0;
            noisey := noisey + 1;
          }
        }
        IdxSteps(0, k, sy);
        AxisStep(Fraction(z), stepZ, k, w, noisez);
        w := w + stepZ;
        if w >= 1.0 {
          w := w - 1.0;
          noisez := noisez + 1;
        }
      }
      AllRows3();
      WalkedGrid3(x, y, z, stepX, stepY, stepZ, seed);
    }

    lemma WalkedGrid3(x: real, y: real, z: real, stepX: real, stepY: real, stepZ: real, seed: int)
      requires Valid() && stepX >= 0.0 && stepY >= 0.0 && stepZ >= 0.0
      ensures Follows(Fraction(x), stepX, sx) && Follows(Fraction(y), stepY, sy) && Follows(Fraction(z), stepZ, sz) ==>
        forall k :: 0 <= k < gradientBuf.Length ==>
          GridWalk3(lat3, x, y, z, stepX, stepY, stepZ, seed, np.Eased3(), sx, sy, k)
          == GridNoise3(lat3, x, y, z, stepX, stepY, stepZ, seed, np.Eased3(), sx, sy, k)
    {
      hide Follows, WalkNoise3, Noise3Gradient, Times, Fraction, RowOf, LayerOf, Settings, BufferSize;
      WalkIsGradient3(x, y, z, stepX, stepY, stepZ, sx, sy, sz, seed, np.Eased3());
      if Follows(Fraction(x), stepX, sx) && Follows(Fraction(y), stepY, sy) && Follows(Fraction(z), stepZ, sz) {
        forall k | 0 <= k < gradientBuf.Length
          ensures GridWalk3(lat3, x, y, z, stepX, stepY, stepZ, seed, np.Eased3(), sx, sy, k)
            == GridNoise3(lat3, x, y, z, stepX, stepY, stepZ, seed, np.Eased3(), sx, sy, k)
        {
          PointOf3(k, sx, sy, sz);
        }
      }
    }

    static lemma PointOf3(k: nat, w: nat, h: nat, d: nat)
      requires w > 0 && h > 0 && k < w * h * d
      ensures k % w < w && RowOf(k, w, h) < h && LayerOf(k, w, h) < d
    {
      assert w * h * d == w * (h * d);
      PointOf2(k, w, h * d);
      PointOf2(k / w, h, d);
    }

    lemma AllRows3()
      requires Valid()
      ensures Idx(0, Idx(0, sz, sy), sx) == gradientBuf.Length
    {
      assert (sz * sy) * sx == sx * sy * sz;
    }

    // ------------------------------------------------------------ octaves

    // What a call asks of the parameters for its octave n.
    lemma OctaveFits2(x: real, y: real, n: nat, f: real)
      requires Valid() && np.lacunarity >= 0.0 && n < np.octaves && f == Power(np.lacunarity, n)
      requires CallFits2(np, sx, sy, noiseBuf.Length, x, y)
      ensures 0.0 <= Ratio(f, np.spreadX) && 0.0 <= Ratio(f, np.spreadY)
      ensures LatticePoints(Fraction(Scaled(x, np.spreadX, f)), sx, Ratio(f, np.spreadX))
        * LatticePoints(Fraction(Scaled(y, np.spreadY, f)), sy, Ratio(f, np.spreadY)) <= noiseBuf.Length
    {
      Buffers();
      hide LatticePoints, Scaled, Fraction, BufferSize, OctaveFactor, Valid;
      StepNotNegative(np, np.spreadX, n);
      StepNotNegative(np, np.spreadY, n);
      assert PointsUsed(np, x, np.spreadX, sx, n) * PointsUsed(np, y, np.spreadY, sy, n) <= noiseBuf.Length;
    }

    lemma OctaveFits3(x: real, y: real, z: real, n: nat, f: real)
      requires Valid() && np.lacunarity >= 0.0 && n < np.octaves && f == Power(np.lacunarity, n)
      requires CallFits3(np, sx, sy, sz, noiseBuf.Length, x, y, z)
      ensures 0.0 <= Ratio(f, np.spreadX) && 0.0 <= Ratio(f, np.spreadY) && 0.0 <= Ratio(f, np.spreadZ)
      ensures LatticePoints(Fraction(Scaled(x, np.spreadX, f)), sx, Ratio(f, np.spreadX))
        * (LatticePoints(Fraction(Scaled(y, np.spreadY, f)), sy, Ratio(f, np.spreadY))
           * LatticePoints(Fraction(Scaled(z, np.spreadZ, f)), sz, Ratio(f, np.spreadZ))) <= noiseBuf.Length
    {
      Buffers();
      hide LatticePoints, Scaled, Fraction, BufferSize, OctaveFactor, Valid;
      StepNotNegative(np, np.spreadX, n);
      StepNotNegative(np, np.spreadY, n);
      StepNotNegative(np, np.spreadZ, n);
      assert PointsUsed(np, x, np.spreadX, sx, n) * (PointsUsed(np, y, np.spreadY, sy, n) * PointsUsed(np, z, np.spreadZ, sz, n)) <= noiseBuf.Length;
    }

    /**
     With lacunarity of at least 1, whatever else the constructor let pass: a 2D map may be asked for from everywhere,
     a 3D map of more than one layer too, and the walk keeps up with the grid.
     */
    lemma GrowingMapsFit(x: real, y: real, z: real)
      requires Valid() && np.lacunarity >= 1.0
      ensures CallFits2(np, sx, sy, noiseBuf.Length, x, y)
      ensures sz > 1 ==> CallFits3(np, sx, sy, sz, noiseBuf.Length, x, y, z)
      ensures AxisFollows(np, x, np.spreadX, sx) && AxisFollows(np, y, np.spreadY, sy) && AxisFollows(np, z, np.spreadZ, sz)
    {
      hide CallFits2, CallFits3, AxisFollows, StepsFit, BufferSize;
      GrowingFits2(np, sx, sy, sz, x, y);
      if sz > 1 {
        GrowingFits3(np, sx, sy, sz, x, y, z);
      }
      GrowingSteps(np, np.spreadX);
      GrowingSteps(np, np.spreadY);
      GrowingSteps(np, np.spreadZ);
      StepsFitFollows(np, x, np.spreadX, sx);
      StepsFitFollows(np, y, np.spreadY, sy);
      StepsFitFollows(np, z, np.spreadZ, sz);
    }

    // The persistence in force at point k.
    function PersistAt(persistenceMap: array?<real>, k: nat): real
      requires persistenceMap != null ==> k < persistenceMap.Length
      reads persistenceMap
    {
      if persistenceMap == null then np.persist else persistenceMap[k]
    }

    /** Noise::updateResults: adds an octave, at amplitude g or at each point's own amplitude. */
    method UpdateResults(g: real, gmap: array?<real>, persistenceMap: array?<real>, bufsize: nat)
      requires bufsize <= result.Length && bufsize <= gradientBuf.Length && result != gradientBuf
      requires persistenceMap != null ==>
        && gmap != null && bufsize <= gmap.Length && bufsize <= persistenceMap.Length
        && gmap != result && gmap != gradientBuf && persistenceMap != result && persistenceMap != gmap
      modifies result, if persistenceMap != null then {gmap} else {}
      ensures forall k :: 0 <= k < bufsize ==>
        result[k] == old(result[k]) + Product(if persistenceMap == null then g else old(gmap[k]), np.Fold(gradientBuf[k]))
      ensures persistenceMap != null ==>
        forall k :: 0 <= k < bufsize ==> gmap[k] == Product(old(gmap[k]), persistenceMap[k])
    {
      hide NoiseParams.Fold, Product;
      for i := 0 to bufsize
        invariant forall k :: 0 <= k < i ==>
          result[k] == old(result[k]) + Product(if persistenceMap == null then g else old(gmap[k]), np.Fold(gradientBuf[k]))
        invariant forall k :: i <= k < bufsize ==> result[k] == old(result[k])
        invariant persistenceMap != null ==> forall k :: 0 <= k < i ==> gmap[k] == Product(old(gmap[k]), persistenceMap[k])
        invariant persistenceMap != null ==> forall k :: i <= k < bufsize ==> gmap[k] == old(gmap[k])
      {
        if persistenceMap != null {
          result[i] := result[i] + Product(gmap[i], np.Fold(gradientBuf[i]));
          gmap[i] := Product(gmap[i], persistenceMap[i]);
        } else {
          result[i] := result[i] + Product(g, np.Fold(gradientBuf[i]));
        }
      }
    }

    // What octave n of a map that starts at (x, y) computes at grid point k.
    function OctaveWalk2(x: real, y: real, seed: int, n: nat, k: nat): real
      requires Valid() && np.lacunarity >= 0.0
    {
      var f := Power(np.lacunarity, n);
      GridWalk2(lat2, Scaled(x, np.spreadX, f), Scaled(y, np.spreadY, f), Ratio(f, np.spreadX), Ratio(f, np.spreadY), seed + n, np.Eased2(), sx, k)
    }

    function OctaveWalk3(x: real, y: real, z: real, seed: int, n: nat, k: nat): real
      requires Valid() && np.lacunarity >= 0.0
    {
      var f := Power(np.lacunarity, n);
      GridWalk3(lat3, Scaled(x, np.spreadX, f), Scaled(y, np.spreadY, f), Scaled(z, np.spreadZ, f),
                Ratio(f, np.spreadX), Ratio(f, np.spreadY), Ratio(f, np.spreadZ), seed + n, np.Eased3(), sx, sy, k)
    }

    // The sum of the first n octaves so computed.
    function WalkSum2(p: real, x: real, y: real, seed: int, n: nat, k: nat): real
      requires Valid() && np.lacunarity >= 0.0
    {
      if n == 0 then 0.0
      else WalkSum2(p, x, y, seed, n - 1, k) + Product(Power(p, n - 1), np.Fold(OctaveWalk2(x, y, seed, n - 1, k)))
    }

    function WalkSum3(p: real, x: real, y: real, z: real, seed: int, n: nat, k: nat): real
      requires Valid() && np.lacunarity >= 0.0
    {
      if n == 0 then 0.0
      else WalkSum3(p, x, y, z, seed, n - 1, k) + Product(Power(p, n - 1), np.Fold(OctaveWalk3(x, y, z, seed, n - 1, k)))
    }

    // The noise summed over the first n octaves at the coordinates of grid point k.
    function GridSum2(p: real, x: real, y: real, seed: int, n: nat, k: nat): real
      requires Valid()
    {
      OctaveSum2(lat2, np, p, Ratio(x + (k % sx) as real, np.spreadX), Ratio(y + (k / sx) as real, np.spreadY), seed, n)
    }

    function GridSum3(p: real, x: real, y: real, z: real, seed: int, n: nat, k: nat): real
      requires Valid()
    {
      OctaveSum3(lat3, np, p, Ratio(x + (k % sx) as real, np.spreadX), Ratio(y + RowOf(k, sx, sy) as real, np.spreadY),
                 Ratio(z + LayerOf(k, sx, sy) as real, np.spreadZ), seed, n)
    }

    lemma NextAtPoint2(p: real, x: real, y: real, seed: int, n: nat, k: nat, f: real, g: real, grad: real)
      requires Valid() && np.lacunarity >= 0.0 && f == Power(np.lacunarity, n) && g == Power(p, n)
      requires grad == GridNoise2(lat2, Scaled(x, np.spreadX, f), Scaled(y, np.spreadY, f), Ratio(f, np.spreadX), Ratio(f, np.spreadY), seed + n, np.Eased2(), sx, k)
      ensures GridSum2(p, x, y, seed, n + 1, k) == GridSum2(p, x, y, seed, n, k) + Product(g, np.Fold(grad))
    {
      Buffers();
      hide OctaveSum2, Product, GridNoise2, NoiseParams.Fold, Times, Power, Valid, Ratio, Scaled;
      GridScale(x, k % sx, np.spreadX, f);
      GridScale(y, k / sx, np.spreadY, f);
      NextOnGrid2(lat2, np, p, Ratio(x + (k % sx) as real, np.spreadX), Ratio(y + (k / sx) as real, np.spreadY),
                  Scaled(x, np.spreadX, f), Scaled(y, np.spreadY, f), Ratio(f, np.spreadX), Ratio(f, np.spreadY), seed, n, f, g, sx, k);
    }

    lemma NextAtPoint3(p: real, x: real, y: real, z: real, seed: int, n: nat, k: nat, f: real, g: real, grad: real)
      requires Valid() && np.lacunarity >= 0.0 && f == Power(np.lacunarity, n) && g == Power(p, n)
      requires grad == GridNoise3(lat3, Scaled(x, np.spreadX, f), Scaled(y, np.spreadY, f), Scaled(z, np.spreadZ, f),
                                  Ratio(f, np.spreadX), Ratio(f, np.spreadY), Ratio(f, np.spreadZ), seed + n, np.Eased3(), sx, sy, k)
      ensures GridSum3(p, x, y, z, seed, n + 1, k) == GridSum3(p, x, y, z, seed, n, k) + Product(g, np.Fold(grad))
    {
      Buffers();
      hide OctaveSum3, Product, GridNoise3, NoiseParams.Fold, Times, Power, Valid, Ratio, Scaled, RowOf, LayerOf;
      var (i, j, l) := (k % sx, RowOf(k, sx, sy), LayerOf(k, sx, sy));
      GridScale(x, i, np.spreadX, f);
      GridScale(y, j, np.spreadY, f);
      GridScale(z, l, np.spreadZ, f);
      NextOnGrid3(lat3, np, p, Ratio(x + i as real, np.spreadX), Ratio(y + j as real, np.spreadY), Ratio(z + l as real, np.spreadZ),
                  Scaled(x, np.spreadX, f), Scaled(y, np.spreadY, f), Scaled(z, np.spreadZ, f), Ratio(f, np.spreadX), Ratio(f, np.spreadY), Ratio(f, np.spreadZ),
                  seed, n, f, g, sx, sy, k);
    }

    // Where the walk keeps up with the grid in every octave, the sums are equal.
    lemma {:induction false} WalkedSum2(p: real, x: real, y: real, seed: int, n: nat, k: nat)
      requires Valid() && np.lacunarity >= 0.0 && n <= np.octaves && k < Size2()
      requires AxisFollows(np, x, np.spreadX, sx) && AxisFollows(np, y, np.spreadY, sy)
      ensures WalkSum2(p, x, y, seed, n, k) == GridSum2(p, x, y, seed, n, k)
    {
      hide GridSum2, OctaveWalk2, Product, NoiseParams.Fold, Valid, Size2, AxisFollows;
      if n == 0 {
        NoOctaves2(p, x, y, seed, k);
      } else {
        WalkedSum2(p, x, y, seed, n - 1, k);
        OctaveKeepsUp2(p, x, y, seed, n - 1, k);
      }
    }

    lemma OctaveKeepsUp2(p: real, x: real, y: real, seed: int, n: nat, k: nat)
      requires Valid() && np.lacunarity >= 0.0 && n < np.octaves && k < Size2()
      requires AxisFollows(np, x, np.spreadX, sx) && AxisFollows(np, y, np.spreadY, sy)
      ensures GridSum2(p, x, y, seed, n + 1, k) == GridSum2(p, x, y, seed, n, k) + Product(Power(p, n), np.Fold(OctaveWalk2(x, y, seed, n, k)))
    {
      Buffers();
      hide GridSum2, GridNoise2, GridWalk2, Product, NoiseParams.Fold, Power, Scaled, Fraction, Valid, Follows, Ratio, Size2;
      var f := Power(np.lacunarity, n);
      StepNotNegative(np, np.spreadX, n);
      StepNotNegative(np, np.spreadY, n);
      WalkedGrid2(Scaled(x, np.spreadX, f), Scaled(y, np.spreadY, f), Ratio(f, np.spreadX), Ratio(f, np.spreadY), seed + n);
      NextAtPoint2(p, x, y, seed, n, k, f, Power(p, n), OctaveWalk2(x, y, seed, n, k));
    }

    lemma NoOctaves2(p: real, x: real, y: real, seed: int, k: nat)
      requires Valid()
      ensures GridSum2(p, x, y, seed, 0, k) == 0.0
    {}

    lemma NoOctaves3(p: real, x: real, y: real, z: real, seed: int, k: nat)
      requires Valid()
      ensures GridSum3(p, x, y, z, seed, 0, k) == 0.0
    {}

    lemma {:induction false} WalkedSum3(p: real, x: real, y: real, z: real, seed: int, n: nat, k: nat)
      requires Valid() && np.lacunarity >= 0.0 && n <= np.octaves && k < gradientBuf.Length
      requires AxisFollows(np, x, np.spreadX, sx) && AxisFollows(np, y, np.spreadY, sy) && AxisFollows(np, z, np.spreadZ, sz)
      ensures WalkSum3(p, x, y, z, seed, n, k) == GridSum3(p, x, y, z, seed, n, k)
    {
      hide GridSum3, OctaveWalk3, Product, NoiseParams.Fold, Valid, AxisFollows;
      if n == 0 {
        NoOctaves3(p, x, y, z, seed, k);
      } else {
        WalkedSum3(p, x, y, z, seed, n - 1, k);
        OctaveKeepsUp3(p, x, y, z, seed, n - 1, k);
      }
    }

    lemma OctaveKeepsUp3(p: real, x: real, y: real, z: real, seed: int, n: nat, k: nat)
      requires Valid() && np.lacunarity >= 0.0 && n < np.octaves && k < gradientBuf.Length
      requires AxisFollows(np, x, np.spreadX, sx) && AxisFollows(np, y, np.spreadY, sy) && AxisFollows(np, z, np.spreadZ, sz)
      ensures GridSum3(p, x, y, z, seed, n + 1, k)
        == GridSum3(p, x, y, z, seed, n, k) + Product(Power(p, n), np.Fold(OctaveWalk3(x, y, z, seed, n, k)))
    {
      Buffers();
      hide GridSum3, GridNoise3, GridWalk3, Product, NoiseParams.Fold, Power, Scaled, Fraction, Valid, Follows, Ratio;
      var f := Power(np.lacunarity, n);
      StepNotNegative(np, np.spreadX, n);
      StepNotNegative(np, np.spreadY, n);
      StepNotNegative(np, np.spreadZ, n);
      WalkedGrid3(Scaled(x, np.spreadX, f), Scaled(y, np.spreadY, f), Scaled(z, np.spreadZ, f),
                  Ratio(f, np.spreadX), Ratio(f, np.spreadY), Ratio(f, np.spreadZ), seed + n);
      NextAtPoint3(p, x, y, z, seed, n, k, f, Power(p, n), OctaveWalk3(x, y, z, seed, n, k));
    }

    // The map holds the sum of the first n octaves, ps giving the persistence at each point.
    ghost predicate Summed2(sum: seq<real>, ps: seq<real>, x: real, y: real, seed: int, n: nat)
    {
      && Valid() && np.lacunarity >= 0.0 && |ps| <= |sum|
      && forall k :: 0 <= k < |ps| ==> sum[k] == WalkSum2(ps[k], x, y, seed, n, k)
    }

    ghost predicate Summed3(sum: seq<real>, ps: seq<real>, x: real, y: real, z: real, seed: int, n: nat)
    {
      && Valid() && np.lacunarity >= 0.0 && |ps| <= |sum|
      && forall k :: 0 <= k < |ps| ==> sum[k] == WalkSum3(ps[k], x, y, z, seed, n, k)
    }

    // The amplitude of octave n at each point.
    static ghost predicate Amplitudes(gs: seq<real>, ps: seq<real>, n: nat) {
      |ps| == |gs| && forall k :: 0 <= k < |ps| ==> gs[k] == Power(ps[k], n)
    }

    // What updateResults adds.
    ghost predicate Added(before: seq<real>, after: seq<real>, gs: seq<real>, grad: seq<real>) {
      && |before| == |after| && |gs| <= |before| && |gs| <= |grad|
      && forall k :: 0 <= k < |gs| ==> after[k] == before[k] + Product(gs[k], np.Fold(grad[k]))
    }

    static ghost predicate Multiplied(before: seq<real>, after: seq<real>, ps: seq<real>) {
      && |before| == |after| == |ps|
      && forall k :: 0 <= k < |ps| ==> after[k] == Product(before[k], ps[k])
    }

    static lemma NextAmplitudes(before: seq<real>, after: seq<real>, ps: seq<real>, n: nat)
      requires Amplitudes(before, ps, n) && Multiplied(before, after, ps)
      ensures Amplitudes(after, ps, n + 1)
    {}

    lemma NextSum2(before: seq<real>, after: seq<real>, gs: seq<real>, grad: seq<real>, ps: seq<real>, x: real, y: real, seed: int, n: nat)
      requires Summed2(before, ps, x, y, seed, n) && Amplitudes(gs, ps, n) && Added(before, after, gs, grad)
      requires forall k :: 0 <= k < |ps| ==> grad[k] == OctaveWalk2(x, y, seed, n, k)
      ensures Summed2(after, ps, x, y, seed, n + 1)
    {
      hide Power, OctaveWalk2, Product, NoiseParams.Fold, Valid;
    }

    lemma NextSum3(before: seq<real>, after: seq<real>, gs: seq<real>, grad: seq<real>, ps: seq<real>,
                   x: real, y: real, z: real, seed: int, n: nat)
      requires Summed3(before, ps, x, y, z, seed, n) && Amplitudes(gs, ps, n) && Added(before, after, gs, grad)
      requires forall k :: 0 <= k < |ps| ==> grad[k] == OctaveWalk3(x, y, z, seed, n, k)
      ensures Summed3(after, ps, x, y, z, seed, n + 1)
    {
      hide Power, OctaveWalk3, Product, NoiseParams.Fold, Valid;
    }

    // The persistence at each of the first n points.
    ghost function Persistences(persistenceMap: array?<real>, n: nat): (ps: seq<real>)
      requires persistenceMap != null ==> n <= persistenceMap.Length
      reads persistenceMap
      ensures |ps| == n && forall k :: 0 <= k < n ==> ps[k] == PersistAt(persistenceMap, k)
    {
      if persistenceMap == null then seq(n, _ => np.persist) else persistenceMap[..n]
    }

    lemma StartSums2(sum: seq<real>, ps: seq<real>, gs: seq<real>, x: real, y: real, seed: int)
      requires Valid() && np.lacunarity >= 0.0 && |gs| == |ps| <= |sum|
      requires forall k :: 0 <= k < |ps| ==> sum[k] == 0.0 && gs[k] == 1.0
      ensures Summed2(sum, ps, x, y, seed, 0) && Amplitudes(gs, ps, 0)
    {}

    lemma StartSums3(sum: seq<real>, ps: seq<real>, gs: seq<real>, x: real, y: real, z: real, seed: int)
      requires Valid() && np.lacunarity >= 0.0 && |gs| == |ps| <= |sum|
      requires forall k :: 0 <= k < |ps| ==> sum[k] == 0.0 && gs[k] == 1.0
      ensures Summed3(sum, ps, x, y, z, seed, 0) && Amplitudes(gs, ps, 0)
    {}

    // The arrays of a call do not overlap.
    ghost predicate Separate(persistenceMap: array?<real>, n: nat)
      reads this
    {
      && (persistBuf != null ==> persistBuf != result && persistBuf != gradientBuf && persistBuf != noiseBuf)
      && (persistenceMap != null ==>
        && n <= persistenceMap.Length && persistenceMap != persistBuf
        && persistenceMap != result && persistenceMap != gradientBuf && persistenceMap != noiseBuf)
    }

    // The amplitudes kept from an earlier call are enough.
    ghost predicate RoomFor(persistenceMap: array?<real>, n: nat)
      reads this
    {
      persistenceMap != null && persistBuf != null ==> n <= persistBuf.Length
    }

    // The amplitudes after a call.
    twostate predicate KeepsAmplitudes(persistenceMap: array?<real>, n: nat)
      reads this
    {
      if persistenceMap == null || old(persistBuf) != null then persistBuf == old(persistBuf)
      else persistBuf != null && fresh(persistBuf) && persistBuf.Length == n
    }

    /**
     After a 2D map with a persistence map on a new object there is room for the amplitudes of a 3D map exactly if
     the object has one layer only; after a 3D map there is room for all.
     */
    lemma AmplitudesAfter(persistenceMap: array<real>)
      requires Valid() && persistBuf != null
      ensures persistBuf.Length == Size2() ==> (RoomFor(persistenceMap, result.Length) <==> sz == 1)
      ensures persistBuf.Length == result.Length ==> RoomFor(persistenceMap, Size2())
    {
      hide Settings, BufferSize;
      MapFits2();
      var area := sx * sy;
      assert area >= 1 && result.Length == area * sz;
      if sz > 1 {
        MulMono(2, sz, area);
        assert sz * area == area * sz && 2 * area > area;
      }
    }

    // updateResults on the whole map: every sum grows by its octave, every amplitude by its persistence.
    method AddOctave(g: real, gmap: array?<real>, persistenceMap: array?<real>, n: nat, ghost ps: seq<real>, ghost gs: seq<real>)
      returns (ghost gs1: seq<real>)
      requires Valid() && n <= result.Length && Separate(persistenceMap, n) && ps == Persistences(persistenceMap, n)
      requires persistenceMap != null ==> gmap != null && n <= gmap.Length && gmap[..n] == gs
      requires persistenceMap != null ==> gmap != result && gmap != gradientBuf && gmap != noiseBuf && gmap != persistenceMap
      requires persistenceMap == null ==> gs == seq(n, _ => g)
      modifies result, if persistenceMap != null then {gmap} else {}
      ensures Added(old(result[..]), result[..], gs, gradientBuf[..]) && Multiplied(gs, gs1, ps)
      ensures persistenceMap != null ==> gmap[..n] == gs1
      ensures persistenceMap == null ==> gs1 == seq(n, _ => Product(g, np.persist))
    {
      hide NoiseParams.Fold, Product;
      UpdateResults(g, gmap, persistenceMap, n);
      gs1 := if persistenceMap != null then gmap[..n] else seq(n, _ => Product(g, np.persist));
    }

    /** The map the octaves are summed in, and with a persistence map the amplitudes, in the array of an earlier call. */
    method StartMap(persistenceMap: array?<real>, n: nat)
      requires Valid() && n <= result.Length && Separate(persistenceMap, n) && RoomFor(persistenceMap, n)
      modifies this`persistBuf, result, if persistBuf != null then {persistBuf} else {}
      ensures forall k :: 0 <= k < n ==> result[k] == 0.0
      ensures persistenceMap != null ==> persistBuf != null && n <= persistBuf.Length && persistBuf[..n] == seq(n, _ => 1.0)
      ensures KeepsAmplitudes(persistenceMap, n) && Separate(persistenceMap, n)
    {
      hide Valid;
      for i := 0 to n
        invariant persistBuf == old(persistBuf)
        invariant forall k :: 0 <= k < i ==> result[k] == 0.0
      {
        result[i] := 0.0;
      }
      if persistenceMap != null {
        if persistBuf == null {
          persistBuf := new real[n];
        }
        for i := 0 to n
          invariant KeepsAmplitudes(persistenceMap, n) && Separate(persistenceMap, n)
          invariant persistBuf != null && n <= persistBuf.Length && persistBuf != result
          invariant forall k :: 0 <= k < n ==> result[k] == 0.0
          invariant forall k :: 0 <= k < i ==> persistBuf[k] == 1.0
        {
          persistBuf[i] := 1.0;
        }
      }
    }

    // The closing loop, skipped when it would change nearly nothing.
    method FinishMap(n: nat)
      requires Valid() && n <= result.Length
      modifies result
      ensures forall k :: 0 <= k < n ==> result[k] == Finish(np, old(result[k]))
    {
      hide Finish, Valid;
      if Abs(np.offset - 0.0) > 0.00001 || Abs(np.scale - 1.0) > 0.00001 {
        for i := 0 to n
          invariant forall k :: 0 <= k < i ==> result[k] == Finish(np, old(result[k]))
          invariant forall k :: i <= k < n ==> result[k] == old(result[k])
        {
          FinishCases(np, result[i]);
          result[i] := result[i] * np.scale + np.offset;
        }
      } else {
        forall k | 0 <= k < n
          ensures Finish(np, result[k]) == result[k]
        {
          FinishCases(np, result[k]);
        }
      }
    }

    /**
     Noise::perlinMap2D: every value is the sum of what the octaves' walks compute. Where the walk keeps up with the
     grid in every octave, that is the sum of the octaves at the point's own coordinates.
     */
    method PerlinMap2D(x: real, y: real, persistenceMap: array?<real>)
      requires Valid() && np.lacunarity >= 0.0 && Separate(persistenceMap, Size2()) && RoomFor(persistenceMap, Size2())
      requires CallFits2(np, sx, sy, noiseBuf.Length, x, y)
      modifies this`persistBuf, noiseBuf, gradientBuf, result, if persistBuf != null then {persistBuf} else {}
      ensures Size2() <= result.Length && KeepsAmplitudes(persistenceMap, Size2()) && Separate(persistenceMap, Size2())
      ensures forall k :: 0 <= k < Size2() ==>
        result[k] == Finish(np, WalkSum2(PersistAt(persistenceMap, k), x, y, seed + np.seed, np.octaves, k))
      ensures AxisFollows(np, x, np.spreadX, sx) && AxisFollows(np, y, np.spreadY, sy) ==> forall k :: 0 <= k < Size2() ==>
        && result[k] == Finish(np, GridSum2(PersistAt(persistenceMap, k), x, y, seed + np.seed, np.octaves, k))
        && (persistenceMap == null && ClosesExactly(np) ==>
              result[k] == Perlin2(lat2, np, x + (k % sx) as real, y + (k / sx) as real, seed))
    {
      hide Size2, GridWalk2, LatticePoints, Fraction, Added, Multiplied, Amplitudes, Summed2, Power, GridSum2, WalkSum2, Finish, ClosesExactly, Perlin2, AxisFollows, CallFits2, Scaled, Valid, Follows, GridNoise2;
      Buffers();
      MapFits2();
      var bufsize := Size2();
      ghost var ps := Persistences(persistenceMap, bufsize);
      var f, g := 1.0, 1.0;
      StartMap(persistenceMap, bufsize);
      var gmap := persistBuf;
      ghost var gs := seq(bufsize, _ => 1.0);
      StartSums2(result[..], ps, gs, x, y, seed + np.seed);
      PowerStarts(np.lacunarity);
      for oct := 0 to np.octaves
        invariant f == Power(np.lacunarity, oct) && persistBuf == gmap && ps == Persistences(persistenceMap, bufsize)
        invariant Summed2(result[..], ps, x, y, seed + np.seed, oct) && Amplitudes(gs, ps, oct) && |gs| == bufsize
        invariant persistenceMap != null ==> gmap != null && bufsize <= gmap.Length && gmap[..bufsize] == gs
        invariant persistenceMap == null ==> gs == seq(bufsize, _ => g)
      {
        OctaveFits2(x, y, oct, f);
        GradientMap2D(Scaled(x, np.spreadX, f), Scaled(y, np.spreadY, f), Ratio(f, np.spreadX), Ratio(f, np.spreadY), seed + np.seed + oct);
        ghost var before := result[..];
        ghost var gs1 := AddOctave(g, gmap, persistenceMap, bufsize, ps, gs);
        SizesOfAdded(before, result[..], gs, gradientBuf[..], ps, gs1);
        NextSum2(before, result[..], gs, gradientBuf[..], ps, x, y, seed + np.seed, oct);
        NextAmplitudes(gs, gs1, ps, oct);
        gs := gs1;
        f := NextPower(np.lacunarity, oct, f);
        g := Product(g, np.persist);
      }
      SumsAt2(result[..], ps, x, y, seed + np.seed, np.octaves);
      FinishMap(bufsize);
      FollowedMap2(result[..bufsize], ps, x, y, persistenceMap == null);
    }

    /** Noise::perlinMap3D. */
    method PerlinMap3D(x: real, y: real, z: real, persistenceMap: array?<real>)
      requires Valid() && np.lacunarity >= 0.0 && Separate(persistenceMap, result.Length) && RoomFor(persistenceMap, result.Length)
      requires CallFits3(np, sx, sy, sz, noiseBuf.Length, x, y, z)
      modifies this`persistBuf, noiseBuf, gradientBuf, result, if persistBuf != null then {persistBuf} else {}
      ensures KeepsAmplitudes(persistenceMap, result.Length) && Separate(persistenceMap, result.Length)
      ensures forall k :: 0 <= k < result.Length ==>
        result[k] == Finish(np, WalkSum3(PersistAt(persistenceMap, k), x, y, z, seed + np.seed, np.octaves, k))
      ensures AxisFollows(np, x, np.spreadX, sx) && AxisFollows(np, y, np.spreadY, sy) && AxisFollows(np, z, np.spreadZ, sz) ==>
        forall k :: 0 <= k < result.Length ==>
          && result[k] == Finish(np, GridSum3(PersistAt(persistenceMap, k), x, y, z, seed + np.seed, np.octaves, k))
          && (persistenceMap == null && ClosesExactly(np) ==>
                result[k] == Perlin3(lat3, np, x + (k % sx) as real, y + RowOf(k, sx, sy) as real, z + LayerOf(k, sx, sy) as real, seed))
    {
      hide GridWalk3, LatticePoints, Fraction, Added, Multiplied, Amplitudes, Summed3, Power, GridSum3, WalkSum3, Finish, ClosesExactly, Perlin3, AxisFollows, CallFits3, Scaled, RowOf, LayerOf, Valid, Follows, GridNoise3;
      Buffers();
      var bufsize := result.Length;
      ghost var ps := Persistences(persistenceMap, bufsize);
      var f, g := 1.0, 1.0;
      StartMap(persistenceMap, bufsize);
      var gmap := persistBuf;
      ghost var gs := seq(bufsize, _ => 1.0);
      StartSums3(result[..], ps, gs, x, y, z, seed + np.seed);
      PowerStarts(np.lacunarity);
      for oct := 0 to np.octaves
        invariant f == Power(np.lacunarity, oct) && persistBuf == gmap && ps == Persistences(persistenceMap, bufsize)
        invariant Summed3(result[..], ps, x, y, z, seed + np.seed, oct) && Amplitudes(gs, ps, oct) && |gs| == bufsize
        invariant persistenceMap != null ==> gmap != null && bufsize <= gmap.Length && gmap[..bufsize] == gs
        invariant persistenceMap == null ==> gs == seq(bufsize, _ => g)
      {
        OctaveFits3(x, y, z, oct, f);
        GradientMap3D(Scaled(x, np.spreadX, f), Scaled(y, np.spreadY, f), Scaled(z, np.spreadZ, f),
                      Ratio(f, np.spreadX), Ratio(f, np.spreadY), Ratio(f, np.spreadZ), seed + np.seed + oct);
        ghost var before := result[..];
        ghost var gs1 := AddOctave(g, gmap, persistenceMap, bufsize, ps, gs);
        SizesOfAdded(before, result[..], gs, gradientBuf[..], ps, gs1);
        NextSum3(before, result[..], gs, gradientBuf[..], ps, x, y, z, seed + np.seed, oct);
        NextAmplitudes(gs, gs1, ps, oct);
        gs := gs1;
        f := NextPower(np.lacunarity, oct, f);
        g := Product(g, np.persist);
      }
      SumsAt3(result[..], ps, x, y, z, seed + np.seed, np.octaves);
      FinishMap(bufsize);
      FollowedMap3(result[..], ps, x, y, z, persistenceMap == null);
    }

    lemma MapFits2()
      requires Valid()
      ensures Size2() <= result.Length
    {
      RowsFit2(sy - 1);
    }

    lemma SizesOfAdded(before: seq<real>, after: seq<real>, gs: seq<real>, grad: seq<real>, ps: seq<real>, gs1: seq<real>)
      requires Added(before, after, gs, grad) && Multiplied(gs, gs1, ps)
      ensures |before| == |after| && |gs| == |ps| == |gs1| <= |grad|
    {}

    lemma SumsAt2(sum: seq<real>, ps: seq<real>, x: real, y: real, seed: int, n: nat)
      requires Summed2(sum, ps, x, y, seed, n)
      ensures Valid() && np.lacunarity >= 0.0 && |ps| <= |sum| && forall k :: 0 <= k < |ps| ==> sum[k] == WalkSum2(ps[k], x, y, seed, n, k)
    {}

    lemma SumsAt3(sum: seq<real>, ps: seq<real>, x: real, y: real, z: real, seed: int, n: nat)
      requires Summed3(sum, ps, x, y, z, seed, n)
      ensures Valid() && np.lacunarity >= 0.0 && |ps| <= |sum| && forall k :: 0 <= k < |ps| ==> sum[k] == WalkSum3(ps[k], x, y, z, seed, n, k)
    {}

    static lemma PowerStarts(b: real)
      ensures Power(b, 0) == 1.0
    {}

    static method NextPower(b: real, n: nat, f: real) returns (r: real)
      requires f == Power(b, n)
      ensures r == Power(b, n + 1)
    {
      r := f * b;
    }

    // A finished map where the walks keep up, without a persistence map if so said.
    lemma FollowedMap2(values: seq<real>, ps: seq<real>, x: real, y: real, plain: bool)
      requires Valid() && np.lacunarity >= 0.0 && |values| == |ps| == Size2()
      requires plain ==> forall k :: 0 <= k < |ps| ==> ps[k] == np.persist
      requires forall k :: 0 <= k < |ps| ==> values[k] == Finish(np, WalkSum2(ps[k], x, y, seed + np.seed, np.octaves, k))
      ensures AxisFollows(np, x, np.spreadX, sx) && AxisFollows(np, y, np.spreadY, sy) ==> forall k :: 0 <= k < Size2() ==>
        && values[k] == Finish(np, GridSum2(ps[k], x, y, seed + np.seed, np.octaves, k))
        && (plain && ClosesExactly(np) ==> values[k] == Perlin2(lat2, np, x + (k % sx) as real, y + (k / sx) as real, seed))
    {
      hide Finish, ClosesExactly, AxisFollows, WalkSum2, Perlin2, Valid, Size2, GridSum2;
      Buffers();
      if AxisFollows(np, x, np.spreadX, sx) && AxisFollows(np, y, np.spreadY, sy) {
        forall k | 0 <= k < Size2()
          ensures values[k] == Finish(np, GridSum2(ps[k], x, y, seed + np.seed, np.octaves, k))
          ensures plain && ClosesExactly(np) ==> values[k] == Perlin2(lat2, np, x + (k % sx) as real, y + (k / sx) as real, seed)
        {
          WalkedSum2(ps[k], x, y, seed + np.seed, np.octaves, k);
          if plain && ClosesExactly(np) {
            PointwiseWhenClosed2(x, y, k);
          }
        }
      }
    }

    lemma PointwiseWhenClosed2(x: real, y: real, k: nat)
      requires Valid() && np.lacunarity >= 0.0 && ClosesExactly(np)
      ensures Finish(np, GridSum2(np.persist, x, y, seed + np.seed, np.octaves, k))
        == Perlin2(lat2, np, x + (k % sx) as real, y + (k / sx) as real, seed)
    {
      Buffers();
      hide Finish, ClosesExactly, OctaveSum2, Ratio, Shifted, Valid;
      MapIsPointwise2(np);
      assert MapValue2(lat2, np, x + (k % sx) as real, y + (k / sx) as real, seed)
        == Perlin2(lat2, np, x + (k % sx) as real, y + (k / sx) as real, seed);
    }

    lemma FollowedMap3(values: seq<real>, ps: seq<real>, x: real, y: real, z: real, plain: bool)
      requires Valid() && np.lacunarity >= 0.0 && |values| == |ps| == result.Length
      requires plain ==> forall k :: 0 <= k < |ps| ==> ps[k] == np.persist
      requires forall k :: 0 <= k < |ps| ==> values[k] == Finish(np, WalkSum3(ps[k], x, y, z, seed + np.seed, np.octaves, k))
      ensures AxisFollows(np, x, np.spreadX, sx) && AxisFollows(np, y, np.spreadY, sy) && AxisFollows(np, z, np.spreadZ, sz) ==>
        forall k :: 0 <= k < result.Length ==>
          && values[k] == Finish(np, GridSum3(ps[k], x, y, z, seed + np.seed, np.octaves, k))
          && (plain && ClosesExactly(np) ==>
                values[k] == Perlin3(lat3, np, x + (k % sx) as real, y + RowOf(k, sx, sy) as real, z + LayerOf(k, sx, sy) as real, seed))
    {
      hide Finish, ClosesExactly, AxisFollows, WalkSum3, Perlin3, Valid, GridSum3, RowOf, LayerOf;
      Buffers();
      if AxisFollows(np, x, np.spreadX, sx) && AxisFollows(np, y, np.spreadY, sy) && AxisFollows(np, z, np.spreadZ, sz) {
        forall k | 0 <= k < result.Length
          ensures values[k] == Finish(np, GridSum3(ps[k], x, y, z, seed + np.seed, np.octaves, k))
          ensures plain && ClosesExactly(np) ==>
            values[k] == Perlin3(lat3, np, x + (k % sx) as real, y + RowOf(k, sx, sy) as real, z + LayerOf(k, sx, sy) as real, seed)
        {
          WalkedSum3(ps[k], x, y, z, seed + np.seed, np.octaves, k);
          if plain && ClosesExactly(np) {
            PointwiseWhenClosed3(x, y, z, k);
          }
        }
      }
    }

    lemma PointwiseWhenClosed3(x: real, y: real, z: real, k: nat)
      requires Valid() && np.lacunarity >= 0.0 && ClosesExactly(np)
      ensures Finish(np, GridSum3(np.persist, x, y, z, seed + np.seed, np.octaves, k))
        == Perlin3(lat3, np, x + (k % sx) as real, y + RowOf(k, sx, sy) as real, z + LayerOf(k, sx, sy) as real, seed)
    {
      Buffers();
      hide Finish, ClosesExactly, OctaveSum3, Ratio, Shifted, RowOf, LayerOf, Valid;
      MapIsPointwise3(np);
      assert MapValue3(lat3, np, x + (k % sx) as real, y + RowOf(k, sx, sy) as real, z + LayerOf(k, sx, sy) as real, seed)
        == Perlin3(lat3, np, x + (k % sx) as real, y + RowOf(k, sx, sy) as real, z + LayerOf(k, sx, sy) as real, seed);
    }
  }
}
