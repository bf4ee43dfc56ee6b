/** The height-field pipeline of the height-map generator window: fractal
    noise summed over octaves, normalised in place to [0, 1], then flattened
    row-major into a grey colour buffer.

    Foreign code stays outside the model: `Mathf.PerlinNoise` is the function
    parameter `noise`, and the values `System.Random.Next(-100000, 100000)`
    hands out for a seed are the sequence `draws`. */
module HeightMap {
  import opened UnityMath

  datatype Option<T> = None | Some(value: T)

  datatype Vec2 = Vec2(x: real, y: real)

  type PositiveReal = r: real | r > 0.0 witness 1.0

  /** `System.Random.Next(MinDraw, MaxDraw)` returns a value in [MinDraw, MaxDraw). */
  const MinDraw: int := -100000
  const MaxDraw: int := 100000

  /** What a non-positive scale is replaced by. */
  const MinScale: real := 0.0001

  predicate DrawsInRange(draws: seq<int>)
  {
    forall k :: 0 <= k < |draws| ==> MinDraw <= draws[k] < MaxDraw
  }

  /** `Mathf.PerlinNoise` keeps to [0, 1]. */
  ghost predicate NoiseInUnit(noise: (real, real) -> real)
  {
    forall u, v :: 0.0 <= noise(u, v) <= 1.0
  }

  // ---------------------------------------------------------------------
  // Octave offsets
  // ---------------------------------------------------------------------

  /** Octave `i` is shifted by the draws `2i` and `2i + 1` plus the global offset. */
  ghost function OctaveOffsetsOf(draws: seq<int>, octaves: nat, offset: Vec2): seq<Vec2>
    requires 2 * octaves <= |draws|
  {
    seq(octaves, i requires 0 <= i < octaves =>
      Vec2(draws[2 * i] as real + offset.x, draws[2 * i + 1] as real + offset.y))
  }

  /** One random offset per octave, two draws each, x first. */
  method OctaveOffsets(draws: seq<int>, octaves: nat, offset: Vec2) returns (octaveOffsets: array<Vec2>)
    requires 2 * octaves <= |draws| && DrawsInRange(draws)
    ensures fresh(octaveOffsets) && octaveOffsets.Length == octaves
    ensures forall i :: 0 <= i < octaves ==>
      octaveOffsets[i] == Vec2(draws[2 * i] as real + offset.x, draws[2 * i + 1] as real + offset.y)
    ensures forall i :: 0 <= i < octaves ==>
      offset.x + MinDraw as real <= octaveOffsets[i].x < offset.x + MaxDraw as real &&
      offset.y + MinDraw as real <= octaveOffsets[i].y < offset.y + MaxDraw as real
  {
    octaveOffsets := new Vec2[octaves];
    for i := 0 to octaves
      invariant forall k :: 0 <= k < i ==>
        octaveOffsets[k] == Vec2(draws[2 * k] as real + offset.x, draws[2 * k + 1] as real + offset.y)
    {
      var offsetX := draws[2 * i] as real + offset.x;
      var offsetY := draws[2 * i + 1] as real + offset.y;
      octaveOffsets[i] := Vec2(offsetX, offsetY);
    }
  }

  /** A non-positive scale is replaced by a small positive one, so the sample
      coordinates never divide by zero. */
  function ClampScale(scale: real): (r: real)
    ensures r > 0.0
    ensures scale > 0.0 ==> r == scale
  {
    if scale <= 0.0 then MinScale else scale
  }

  // ---------------------------------------------------------------------
  // Octave accumulation for one cell
  // ---------------------------------------------------------------------

  /** Everything a cell's height depends on besides its coordinates and the
      octave offsets: the noise, the clamped scale, the decay and growth
      factors and the centre of the map. */
  datatype Sampler = Sampler(
    noise: (real, real) -> real,
    scale: PositiveReal,
    persistence: real,
    lacunarity: real,
    halfWidth: real,
    halfHeight: real)

  function SamplerOf(mapWidth: int, mapHeight: int, scale: real, persistence: real, lacunarity: real,
                     noise: (real, real) -> real): Sampler
  {
    Sampler(noise, ClampScale(scale), persistence, lacunarity, mapWidth as real / 2.0, mapHeight as real / 2.0)
  }

  /** `b` multiplied into 1, `n` times. */
  function Pow(b: real, n: nat): real
  {
    if n == 0 then 1.0 else Pow(b, n - 1) * b
  }

  function SampleX(s: Sampler, offs: seq<Vec2>, x: int, i: nat): real
    requires i < |offs|
  {
    (x as real - s.halfWidth) / s.scale * Pow(s.lacunarity, i) + offs[i].x
  }

  function SampleY(s: Sampler, offs: seq<Vec2>, y: int, i: nat): real
    requires i < |offs|
  {
    (y as real - s.halfHeight) / s.scale * Pow(s.lacunarity, i) + offs[i].y
  }

  /** The noise at octave `i`'s sample point for cell (x, y). */
  function NoiseSample(s: Sampler, offs: seq<Vec2>, x: int, y: int, i: nat): real
    requires i < |offs|
  {
    s.noise(SampleX(s, offs, x, i), SampleY(s, offs, y, i))
  }

  /** Octave `i`'s contribution: noise remapped to [-1, 1], weighted by
      persistence^i. */
  function OctaveTerm(s: Sampler, offs: seq<Vec2>, x: int, y: int, i: nat): real
    requires i < |offs|
  {
    (NoiseSample(s, offs, x, y, i) * 2.0 - 1.0) * Pow(s.persistence, i)
  }

  /** The sum of the first `n` octave contributions. */
  function OctaveSum(s: Sampler, offs: seq<Vec2>, x: int, y: int, n: nat): real
    requires n <= |offs|
  {
    if n == 0 then 0.0 else OctaveSum(s, offs, x, y, n - 1) + OctaveTerm(s, offs, x, y, n - 1)
  }

  /** A cell's height before normalisation: all octaves summed. */
  function RawHeight(s: Sampler, offs: seq<Vec2>, x: int, y: int): real
  {
    OctaveSum(s, offs, x, y, |offs|)
  }

  /** The octave loop for one cell: amplitude and frequency start at 1 and
      are multiplied by persistence and lacunarity after every octave. */
  method SampleHeight(s: Sampler, octaveOffsets: array<Vec2>, x: int, y: int) returns (noiseHeight: real)
    ensures noiseHeight == RawHeight(s, octaveOffsets[..], x, y)
  {
    var amplitude := 1.0;
    var frequency := 1.0;
    noiseHeight := 0.0;
    for i := 0 to octaveOffsets.Length
      invariant amplitude == Pow(s.persistence, i)
      invariant frequency == Pow(s.lacunarity, i)
      invariant noiseHeight == OctaveSum(s, octaveOffsets[..], x, y, i)
    {
      var sampleX := (x as real - s.halfWidth) / s.scale * frequency + octaveOffsets[i].x;
      var sampleY := (y as real - s.halfHeight) / s.scale * frequency + octaveOffsets[i].y;
      var perlinValue := s.noise(sampleX, sampleY) * 2.0 - 1.0;
      noiseHeight := noiseHeight + perlinValue * amplitude;
      amplitude := amplitude * s.persistence;
      frequency := frequency * s.lacunarity;
    }
  }

  // ---------------------------------------------------------------------
  // Properties of the octave sum
  // ---------------------------------------------------------------------

  /** The total weight of the first `n` octaves: 1 + p + ... + p^(n-1). */
  function AmplitudeSum(p: real, n: nat): real
  {
    if n == 0 then 0.0 else AmplitudeSum(p, n - 1) + Pow(p, n - 1)
  }

  /** Scaling a non-negative length by a fraction in [0, 1] keeps it within
      that length. */
  lemma ProductInRange(d: real, s: real)
    requires d >= 0.0 && 0.0 <= s <= 1.0
    ensures 0.0 <= d * s <= d
  {
  }

  lemma {:induction false} PowInUnit(p: real, n: nat)
    requires 0.0 <= p <= 1.0
    ensures 0.0 <= Pow(p, n) <= 1.0
  {
    if n > 0 {
      PowInUnit(p, n - 1);
      ProductInRange(Pow(p, n - 1), p);
    }
  }

  lemma {:induction false} PowNonNegative(p: real, n: nat)
    requires 0.0 <= p
    ensures 0.0 <= Pow(p, n)
  {
    if n > 0 {
      PowNonNegative(p, n - 1);
    }
  }

  /** With noise in [0, 1] and a non-negative persistence, the sum of `n`
      octaves is no further from 0 than the total amplitude. */
  lemma {:induction false} OctaveSumBounded(s: Sampler, offs: seq<Vec2>, x: int, y: int, n: nat)
    requires n <= |offs| && NoiseInUnit(s.noise) && s.persistence >= 0.0
    ensures -AmplitudeSum(s.persistence, n) <= OctaveSum(s, offs, x, y, n) <= AmplitudeSum(s.persistence, n)
  {
    if n > 0 {
      OctaveSumBounded(s, offs, x, y, n - 1);
      var a := Pow(s.persistence, n - 1);
      PowNonNegative(s.persistence, n - 1);
      var v := NoiseSample(s, offs, x, y, n - 1);
      TermBounded(v, a);
      var t := OctaveTerm(s, offs, x, y, n - 1);
      assert t == (v * 2.0 - 1.0) * a;
      assert -a <= t <= a;
    }
  }

  lemma TermBounded(v: real, a: real)
    requires 0.0 <= v <= 1.0 && a >= 0.0
    ensures -a <= (v * 2.0 - 1.0) * a <= a
  {
  }

  /** With persistence in [0, 1], no octave weighs more than the first, so
      the total amplitude is at most the octave count. */
  lemma {:induction false} AmplitudeSumAtMostOctaves(p: real, n: nat)
    requires 0.0 <= p <= 1.0
    ensures 0.0 <= AmplitudeSum(p, n) <= n as real
  {
    if n > 0 {
      AmplitudeSumAtMostOctaves(p, n - 1);
      PowInUnit(p, n - 1);
    }
  }

  /** A raw height lies within [-octaves, octaves] for the C# window's slider
      ranges (persistence in [0, 1]). */
  lemma RawHeightBounded(s: Sampler, offs: seq<Vec2>, x: int, y: int)
    requires NoiseInUnit(s.noise) && 0.0 <= s.persistence <= 1.0
    ensures -(|offs| as real) <= RawHeight(s, offs, x, y) <= |offs| as real
  {
    OctaveSumBounded(s, offs, x, y, |offs|);
    AmplitudeSumAtMostOctaves(s.persistence, |offs|);
  }

  /** With a single octave, persistence and lacunarity play no part: the
      height is one noise sample remapped to [-1, 1]. */
  lemma SingleOctave(s: Sampler, offs: seq<Vec2>, x: int, y: int)
    requires |offs| == 1
    ensures RawHeight(s, offs, x, y) ==
      s.noise((x as real - s.halfWidth) / s.scale + offs[0].x,
              (y as real - s.halfHeight) / s.scale + offs[0].y) * 2.0 - 1.0
  {
    assert OctaveSum(s, offs, x, y, 0) == 0.0;
  }

  // ---------------------------------------------------------------------
  // First pass: raw heights and their running minimum and maximum
  // ---------------------------------------------------------------------

  /** `lo` and `hi` are the least and the greatest raw height of the
      `w` by `h` map, each held by some cell. */
  ghost predicate IsMinMax(s: Sampler, offs: seq<Vec2>, w: int, h: int, lo: real, hi: real)
  {
    (forall x, y :: 0 <= x < w && 0 <= y < h ==> lo <= RawHeight(s, offs, x, y) <= hi) &&
    (exists x, y :: 0 <= x < w && 0 <= y < h && RawHeight(s, offs, x, y) == lo) &&
    (exists x, y :: 0 <= x < w && 0 <= y < h && RawHeight(s, offs, x, y) == hi)
  }

  /** Cell (i, j) of a `w`-wide map comes before cell (x, y) in the scan
      order of the nested loops (rows outside, columns inside). */
  ghost predicate Before(w: int, x: int, y: int, i: int, j: int)
  {
    0 <= i < w && 0 <= j && (j < y || (j == y && i < x))
  }

  /** Writes every cell's raw height and returns the running minimum and
      maximum. Neither is set until the first cell is seen (`GenerateNoiseMap`'s
      `float.MaxValue`/`float.MinValue` sentinels are `None` here). */
  method FillRawHeights(noiseMap: array2<real>, s: Sampler, octaveOffsets: array<Vec2>)
    returns (minNoiseHeight: real, maxNoiseHeight: real)
    requires noiseMap.Length0 > 0 && noiseMap.Length1 > 0
    modifies noiseMap
    ensures octaveOffsets[..] == old(octaveOffsets[..])
    ensures forall x, y :: 0 <= x < noiseMap.Length0 && 0 <= y < noiseMap.Length1 ==>
      noiseMap[x, y] == RawHeight(s, octaveOffsets[..], x, y)
    ensures IsMinMax(s, octaveOffsets[..], noiseMap.Length0, noiseMap.Length1, minNoiseHeight, maxNoiseHeight)
  {
    var w, h := noiseMap.Length0, noiseMap.Length1;
    ghost var offs := octaveOffsets[..];
    var maxH: Option<real> := None;
    var minH: Option<real> := None;
    ghost var hiX, hiY, loX, loY := 0, 0, 0, 0;
    for y := 0 to h
      invariant octaveOffsets[..] == offs
      invariant forall i, j :: Before(w, 0, y, i, j) ==> noiseMap[i, j] == RawHeight(s, offs, i, j)
      invariant maxH.Some? <==> y > 0
      invariant minH.Some? <==> y > 0
      invariant maxH.Some? ==> Before(w, 0, y, hiX, hiY) && RawHeight(s, offs, hiX, hiY) == maxH.value
      invariant minH.Some? ==> Before(w, 0, y, loX, loY) && RawHeight(s, offs, loX, loY) == minH.value
      invariant maxH.Some? ==> forall i, j :: Before(w, 0, y, i, j) ==> RawHeight(s, offs, i, j) <= maxH.value
      invariant minH.Some? ==> forall i, j :: Before(w, 0, y, i, j) ==> minH.value <= RawHeight(s, offs, i, j)
    {
      for x := 0 to w
        invariant octaveOffsets[..] == offs
        invariant forall i, j :: Before(w, x, y, i, j) ==> noiseMap[i, j] == RawHeight(s, offs, i, j)
        invariant maxH.Some? <==> (y > 0 || x > 0)
        invariant minH.Some? <==> (y > 0 || x > 0)
        invariant maxH.Some? ==> Before(w, x, y, hiX, hiY) && RawHeight(s, offs, hiX, hiY) == maxH.value
        invariant minH.Some? ==> Before(w, x, y, loX, loY) && RawHeight(s, offs, loX, loY) == minH.value
        invariant maxH.Some? ==> forall i, j :: Before(w, x, y, i, j) ==> RawHeight(s, offs, i, j) <= maxH.value
        invariant minH.Some? ==> forall i, j :: Before(w, x, y, i, j) ==> minH.value <= RawHeight(s, offs, i, j)
      {
        var noiseHeight := SampleHeight(s, octaveOffsets, x, y);
        if maxH.None? || noiseHeight > maxH.value {
          maxH := Some(noiseHeight);
          hiX, hiY := x, y;
        }
        if minH.None? || noiseHeight < minH.value {
          minH := Some(noiseHeight);
          loX, loY := x, y;
        }
        noiseMap[x, y] := noiseHeight;
      }
    }
    minNoiseHeight, maxNoiseHeight := minH.value, maxH.value;
    assert RawHeight(s, offs, loX, loY) == minNoiseHeight;
    assert RawHeight(s, offs, hiX, hiY) == maxNoiseHeight;
  }

  // ---------------------------------------------------------------------
  // Second pass: normalisation in place
  // ---------------------------------------------------------------------

  /** Rewrites every cell as the inverse-lerp of its value between the two
      bounds, which stay fixed for the whole pass. */
  method NormaliseInPlace(noiseMap: array2<real>, minNoiseHeight: real, maxNoiseHeight: real)
    modifies noiseMap
    ensures forall x, y :: 0 <= x < noiseMap.Length0 && 0 <= y < noiseMap.Length1 ==>
      noiseMap[x, y] == InverseLerp(minNoiseHeight, maxNoiseHeight, old(noiseMap[x, y]))
  {
    var w, h := noiseMap.Length0, noiseMap.Length1;
    for y := 0 to h
      invariant forall i, j :: 0 <= i < w && 0 <= j < h ==>
        noiseMap[i, j] == if Before(w, 0, y, i, j)
                          then InverseLerp(minNoiseHeight, maxNoiseHeight, old(noiseMap[i, j]))
                          else old(noiseMap[i, j])
    {
      for x := 0 to w
        invariant forall i, j :: 0 <= i < w && 0 <= j < h ==>
          noiseMap[i, j] == if Before(w, x, y, i, j)
                            then InverseLerp(minNoiseHeight, maxNoiseHeight, old(noiseMap[i, j]))
                            else old(noiseMap[i, j])
      {
        noiseMap[x, y] := InverseLerp(minNoiseHeight, maxNoiseHeight, noiseMap[x, y]);
      }
    }
  }

  // ---------------------------------------------------------------------
  // The whole generator
  // ---------------------------------------------------------------------

  /** `m` holds, in every cell, the inverse-lerp of the cell's raw height
      between the least and the greatest raw height of the map. */
  ghost predicate NormalisedFrom(m: array2<real>, s: Sampler, offs: seq<Vec2>, lo: real, hi: real)
    reads m
  {
    IsMinMax(s, offs, m.Length0, m.Length1, lo, hi) &&
    forall x, y :: 0 <= x < m.Length0 && 0 <= y < m.Length1 ==>
      m[x, y] == InverseLerp(lo, hi, RawHeight(s, offs, x, y))
  }

  /** `GenerateNoiseMap`: offsets, scale clamp, first pass, second pass. */
  method GenerateNoiseMap(mapWidth: int, mapHeight: int, draws: seq<int>, scale: real, octaves: nat,
                          persistence: real, lacunarity: real, offset: Vec2, noise: (real, real) -> real)
    returns (noiseMap: array2<real>)
    requires mapWidth > 0 && mapHeight > 0
    requires 2 * octaves <= |draws| && DrawsInRange(draws)
    ensures fresh(noiseMap) && noiseMap.Length0 == mapWidth && noiseMap.Length1 == mapHeight
    ensures exists lo, hi :: NormalisedFrom(noiseMap, SamplerOf(mapWidth, mapHeight, scale, persistence, lacunarity, noise),
                                            OctaveOffsetsOf(draws, octaves, offset), lo, hi)
    ensures forall x, y :: 0 <= x < mapWidth && 0 <= y < mapHeight ==> 0.0 <= noiseMap[x, y] <= 1.0
  {
    noiseMap := new real[mapWidth, mapHeight];
    var octaveOffsets := OctaveOffsets(draws, octaves, offset);
    assert octaveOffsets[..] == OctaveOffsetsOf(draws, octaves, offset);

    var clampedScale := ClampScale(scale);
    var halfWidth := mapWidth as real / 2.0;
    var halfHeight := mapHeight as real / 2.0;
    var s := Sampler(noise, clampedScale, persistence, lacunarity, halfWidth, halfHeight);
    assert s == SamplerOf(mapWidth, mapHeight, scale, persistence, lacunarity, noise);

    var minNoiseHeight, maxNoiseHeight := FillRawHeights(noiseMap, s, octaveOffsets);
    NormaliseInPlace(noiseMap, minNoiseHeight, maxNoiseHeight);
    assert NormalisedFrom(noiseMap, s, octaveOffsets[..], minNoiseHeight, maxNoiseHeight);
  }

  // ---------------------------------------------------------------------
  // What normalisation guarantees
  // ---------------------------------------------------------------------

  /** A cell holding the least raw height becomes 0; unless the map is flat,
      a cell holding the greatest becomes 1; a flat map is 0 everywhere. */
  lemma NormalisedHitsBounds(m: array2<real>, s: Sampler, offs: seq<Vec2>, lo: real, hi: real)
    requires NormalisedFrom(m, s, offs, lo, hi)
    ensures lo <= hi
    ensures forall x, y :: 0 <= x < m.Length0 && 0 <= y < m.Length1 && RawHeight(s, offs, x, y) == lo ==> m[x, y] == 0.0
    ensures lo < hi ==>
      forall x, y :: 0 <= x < m.Length0 && 0 <= y < m.Length1 && RawHeight(s, offs, x, y) == hi ==> m[x, y] == 1.0
    ensures exists x, y :: 0 <= x < m.Length0 && 0 <= y < m.Length1 && m[x, y] == 0.0
    ensures lo < hi ==> exists x, y :: 0 <= x < m.Length0 && 0 <= y < m.Length1 && m[x, y] == 1.0
    ensures lo == hi ==> forall x, y :: 0 <= x < m.Length0 && 0 <= y < m.Length1 ==> m[x, y] == 0.0
  {
  }

  /** Normalisation keeps the order of raw heights: the same bounds serve
      every cell. */
  lemma NormalisedPreservesOrder(m: array2<real>, s: Sampler, offs: seq<Vec2>, lo: real, hi: real,
                                 x1: int, y1: int, x2: int, y2: int)
    requires NormalisedFrom(m, s, offs, lo, hi)
    requires 0 <= x1 < m.Length0 && 0 <= y1 < m.Length1 && 0 <= x2 < m.Length0 && 0 <= y2 < m.Length1
    requires RawHeight(s, offs, x1, y1) <= RawHeight(s, offs, x2, y2)
    ensures m[x1, y1] <= m[x2, y2]
  {
    InverseLerpMonotone(lo, hi, RawHeight(s, offs, x1, y1), RawHeight(s, offs, x2, y2));
  }

  /** The least and greatest raw heights of a map are unique. */
  lemma MinMaxUnique(s: Sampler, offs: seq<Vec2>, w: int, h: int, lo1: real, hi1: real, lo2: real, hi2: real)
    requires IsMinMax(s, offs, w, h, lo1, hi1) && IsMinMax(s, offs, w, h, lo2, hi2)
    ensures lo1 == lo2 && hi1 == hi2
  {
  }

  /** The normalised map is determined by the sampler and the offsets: two
      maps of one size normalised from them agree in every cell. */
  lemma NormalisedDeterministic(m1: array2<real>, m2: array2<real>, s: Sampler, offs: seq<Vec2>,
                                lo1: real, hi1: real, lo2: real, hi2: real)
    requires m1.Length0 == m2.Length0 && m1.Length1 == m2.Length1
    requires NormalisedFrom(m1, s, offs, lo1, hi1) && NormalisedFrom(m2, s, offs, lo2, hi2)
    ensures forall x, y :: 0 <= x < m1.Length0 && 0 <= y < m1.Length1 ==> m1[x, y] == m2[x, y]
  {
  }

  // ---------------------------------------------------------------------
  // Texture: row-major flattening into grey pixels
  // ---------------------------------------------------------------------

  /** Slot of cell (x, y) in a row-major buffer `w` cells wide. */
  function FlatIndex(w: int, x: int, y: int): int
  {
    y * w + x
  }

  lemma FlatIndexInRange(w: int, h: int, x: int, y: int)
    requires 0 <= x < w && 0 <= y < h
    ensures 0 <= FlatIndex(w, x, y) < w * h
  {
    assert y * w <= (h - 1) * w;
    assert (h - 1) * w + w == h * w;
  }

  /** Column and row are recovered from the slot by remainder and quotient. */
  lemma FlatIndexRoundTrip(w: int, x: int, y: int)
    requires 0 <= x < w && 0 <= y
    ensures FlatIndex(w, x, y) % w == x && FlatIndex(w, x, y) / w == y
  {
    var k := FlatIndex(w, x, y);
    DivisionUnique(k, w, y, x);
  }

  /** Euclidean division has one quotient and remainder. */
  lemma DivisionUnique(k: int, w: int, q: int, r: int)
    requires w > 0 && 0 <= r < w && k == q * w + r
    ensures k / w == q && k % w == r
  {
    var q' := k / w;
    assert k == q' * w + k % w;
    MulMonotone(q', q + 1, w);
    MulMonotone(q, q' + 1, w);
    assert (q + 1) * w == q * w + w;
    assert (q' + 1) * w == q' * w + w;
  }

  lemma MulMonotone(a: int, b: int, w: int)
    requires w >= 0
    ensures a >= b ==> a * w >= b * w
  {
  }

  /** Every slot of a `w` by `h` buffer belongs to the cell its remainder and
      quotient name. */
  lemma FlatIndexCovers(w: int, h: int, k: int)
    requires 0 <= h && 0 <= k < w * h
    ensures w > 0 && 0 <= k % w < w && 0 <= k / w < h
    ensures FlatIndex(w, k % w, k / w) == k
  {
  }

  /** Different cells get different slots. */
  lemma FlatIndexInjective(w: int, x1: int, y1: int, x2: int, y2: int)
    requires 0 <= x1 < w && 0 <= y1 && 0 <= x2 < w && 0 <= y2
    requires FlatIndex(w, x1, y1) == FlatIndex(w, x2, y2)
    ensures x1 == x2 && y1 == y2
  {
    FlatIndexRoundTrip(w, x1, y1);
    FlatIndexRoundTrip(w, x2, y2);
  }

  /** The pixel for slot `k` of the buffer: the black-to-white interpolation
      of the cell in column `k % width` and row `k / width`. */
  ghost function PixelAt(noiseMap: array2<real>, k: int): Color
    reads noiseMap
    requires 0 <= k < noiseMap.Length0 * noiseMap.Length1
  {
    FlatIndexCovers(noiseMap.Length0, noiseMap.Length1, k);
    ColorLerp(Black, White, noiseMap[k % noiseMap.Length0, k / noiseMap.Length0])
  }

  /** Fills the colour buffer slot by slot, row by row; each pixel is the
      black-to-white interpolation of its cell. */
  method GenerateTexture(noiseMap: array2<real>) returns (colourMap: array<Color>)
    ensures fresh(colourMap) && colourMap.Length == noiseMap.Length0 * noiseMap.Length1
    ensures forall x, y :: 0 <= x < noiseMap.Length0 && 0 <= y < noiseMap.Length1 ==>
      0 <= FlatIndex(noiseMap.Length0, x, y) < colourMap.Length &&
      colourMap[FlatIndex(noiseMap.Length0, x, y)] == ColorLerp(Black, White, noiseMap[x, y])
    ensures forall k :: 0 <= k < colourMap.Length ==> colourMap[k] == PixelAt(noiseMap, k)
  {
    var width := noiseMap.Length0;
    var height := noiseMap.Length1;
    colourMap := new Color[width * height];
    for y := 0 to height
      invariant y * width <= width * height
      invariant forall k :: 0 <= k < y * width ==> colourMap[k] == PixelAt(noiseMap, k)
    {
      assert (y + 1) * width <= width * height;
      for x := 0 to width
        invariant y * width + x <= width * height
        invariant forall k :: 0 <= k < y * width + x ==> colourMap[k] == PixelAt(noiseMap, k)
      {
        FlatIndexInRange(width, height, x, y);
        FlatIndexRoundTrip(width, x, y);
        colourMap[y * width + x] := ColorLerp(Black, White, noiseMap[x, y]);
      }
      assert y * width + width == (y + 1) * width;
    }
    assert height * width == colourMap.Length;
    forall x, y | 0 <= x < width && 0 <= y < height
      ensures 0 <= FlatIndex(width, x, y) < colourMap.Length
      ensures colourMap[FlatIndex(width, x, y)] == ColorLerp(Black, White, noiseMap[x, y])
    {
      FlatIndexInRange(width, height, x, y);
      FlatIndexRoundTrip(width, x, y);
    }
  }

  // ---------------------------------------------------------------------
  // The pipeline: noise map, then texture
  // ---------------------------------------------------------------------

  /** Buffer `c` renders the `w` by `h` map row-major: the slot of each cell
      holds the opaque grey at the cell's raw height normalised between the
      least and the greatest raw height. */
  ghost predicate RenderedFrom(c: array<Color>, w: int, h: int, s: Sampler, offs: seq<Vec2>, lo: real, hi: real)
    reads c
  {
    c.Length == w * h && IsMinMax(s, offs, w, h, lo, hi) &&
    forall x, y :: 0 <= x < w && 0 <= y < h ==>
      0 <= FlatIndex(w, x, y) < c.Length &&
      c[FlatIndex(w, x, y)] == Grey(InverseLerp(lo, hi, RawHeight(s, offs, x, y)))
  }

  /** `GenerateMap`: the noise map handed straight to the texture builder. */
  method GenerateMap(mapWidth: int, mapHeight: int, draws: seq<int>, scale: real, octaves: nat,
                     persistence: real, lacunarity: real, offset: Vec2, noise: (real, real) -> real)
    returns (colourMap: array<Color>)
    requires mapWidth > 0 && mapHeight > 0
    requires 2 * octaves <= |draws| && DrawsInRange(draws)
    ensures fresh(colourMap) && colourMap.Length == mapWidth * mapHeight
    ensures forall k :: 0 <= k < colourMap.Length ==>
      colourMap[k] == Grey(colourMap[k].r) && 0.0 <= colourMap[k].r <= 1.0
    ensures exists lo, hi :: RenderedFrom(colourMap, mapWidth, mapHeight,
                                          SamplerOf(mapWidth, mapHeight, scale, persistence, lacunarity, noise),
                                          OctaveOffsetsOf(draws, octaves, offset), lo, hi)
  {
    var noiseMap := GenerateNoiseMap(mapWidth, mapHeight, draws, scale, octaves, persistence, lacunarity, offset, noise);
    ghost var s := SamplerOf(mapWidth, mapHeight, scale, persistence, lacunarity, noise);
    ghost var offs := OctaveOffsetsOf(draws, octaves, offset);
    ghost var lo, hi :| NormalisedFrom(noiseMap, s, offs, lo, hi);
    colourMap := GenerateTexture(noiseMap);
    forall k | 0 <= k < colourMap.Length
      ensures colourMap[k] == Grey(colourMap[k].r) && 0.0 <= colourMap[k].r <= 1.0
    {
      FlatIndexCovers(mapWidth, mapHeight, k);
      BlackToWhiteIsGrey(noiseMap[k % mapWidth, k / mapWidth]);
    }
    forall x, y | 0 <= x < mapWidth && 0 <= y < mapHeight
      ensures 0 <= FlatIndex(mapWidth, x, y) < colourMap.Length
      ensures colourMap[FlatIndex(mapWidth, x, y)] == Grey(InverseLerp(lo, hi, RawHeight(s, offs, x, y)))
    {
      BlackToWhiteIsGrey(noiseMap[x, y]);
    }
    assert RenderedFrom(colourMap, mapWidth, mapHeight, s, offs, lo, hi);
  }

  /** The darkest pixels are black and sit at the cells of least raw height;
      unless the map is flat, the brightest are white and sit at the cells
      of greatest raw height. */
  lemma RenderedExtremes(c: array<Color>, w: int, h: int, s: Sampler, offs: seq<Vec2>, lo: real, hi: real)
    requires RenderedFrom(c, w, h, s, offs, lo, hi)
    ensures forall x, y :: 0 <= x < w && 0 <= y < h && RawHeight(s, offs, x, y) == lo ==> c[FlatIndex(w, x, y)] == Black
    ensures lo < hi ==>
      forall x, y :: 0 <= x < w && 0 <= y < h && RawHeight(s, offs, x, y) == hi ==> c[FlatIndex(w, x, y)] == White
    ensures exists k :: 0 <= k < c.Length && c[k] == Black
    ensures lo < hi ==> exists k :: 0 <= k < c.Length && c[k] == White
  {
  }

  /** A cell of greater raw height never gets a darker pixel. */
  lemma RenderedPreservesOrder(c: array<Color>, w: int, h: int, s: Sampler, offs: seq<Vec2>, lo: real, hi: real,
                               x1: int, y1: int, x2: int, y2: int)
    requires RenderedFrom(c, w, h, s, offs, lo, hi)
    requires 0 <= x1 < w && 0 <= y1 < h && 0 <= x2 < w && 0 <= y2 < h
    requires RawHeight(s, offs, x1, y1) <= RawHeight(s, offs, x2, y2)
    ensures c[FlatIndex(w, x1, y1)].r <= c[FlatIndex(w, x2, y2)].r
  {
    InverseLerpMonotone(lo, hi, RawHeight(s, offs, x1, y1), RawHeight(s, offs, x2, y2));
  }
}
