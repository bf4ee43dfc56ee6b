# Height-map generator core, modelled in Dafny

This project models the height-field pipeline of the Unity editor window
`HeightMapGeneratorWindow`:

* `GenerateNoiseMap` derives one random offset per octave, clamps a
  non-positive scale, sums the octaves of Perlin noise for every cell of a
  `width × height` map (amplitude multiplied by persistence and frequency by
  lacunarity after each octave), tracks the running minimum and maximum
  height, and in a second pass rewrites every cell in place as the
  inverse-lerp of its raw height between that minimum and maximum.
* `GenerateTexture` flattens the map row-major into a colour buffer, slot
  `y*width + x` holding the black-to-white interpolation of cell `(x, y)`.
* `GenerateMap` chains the two.

Single-precision floats are modelled as `real`. `Mathf.PerlinNoise` is a
function parameter `noise`; where a property needs its range, the lemma
requires `noise` to stay in [0, 1]. The integers `System.Random.Next(-100000,
100000)` returns for the seed are the parameter `draws`, two per octave (x
first), each in [-100000, 100000). The `float.MinValue`/`float.MaxValue`
sentinels of the running maximum and minimum are `None` until the first cell
is seen. Unity's `Mathf.InverseLerp`, `Mathf.Clamp01`, `Mathf.Lerp` and
`Color.Lerp` are given explicit definitions in module `UnityMath`
(`unity_math.dfy`); the generator is module `HeightMap` (`height_map.dfy`).

The map is an `array2<real>` indexed `[x, y]`, as `GenerateNoiseMap` indexes
its `float[,]`; the octave offsets are an `array<Vec2>` and the colour buffer
an `array<Color>`, each freshly allocated. The loops are the C# window's loops, proved against the specification functions
`RawHeight` (all octaves summed), `IsMinMax` and `InverseLerp`.

A flat map (least raw height equal to the greatest) normalises to 0 in
every cell, because `Mathf.InverseLerp` returns 0 for a degenerate range.

## Model

| member | source | states |
|---|---|---|
| UnityMath.InverseLerp | ProceduralTexture/Assets/Scripts/Editor/HeightMapGeneratorWindow.cs:115 | result lies in [0,1]; a degenerate range gives 0; the lower bound maps to 0 and the upper to 1; inside the range the result is the fraction `r` with `a + (b-a)*r == v` |
| UnityMath.InverseLerpMonotone | ProceduralTexture/Assets/Scripts/Editor/HeightMapGeneratorWindow.cs:115 | for `a <= b`, `u <= v` implies `InverseLerp(a,b,u) <= InverseLerp(a,b,v)` |
| UnityMath.Lerp | ProceduralTexture/Assets/Scripts/Editor/HeightMapGeneratorWindow.cs:134 | one channel of `Color.Lerp`: the result lies between the endpoints, equals the first for t <= 0 and the second for t >= 1 |
| UnityMath.ColorLerp | ProceduralTexture/Assets/Scripts/Editor/HeightMapGeneratorWindow.cs:134 | every channel of the interpolated colour lies between the endpoints' channels (so equal endpoint alphas are kept) |
| UnityMath.BlackToWhiteIsGrey | ProceduralTexture/Assets/Scripts/Editor/HeightMapGeneratorWindow.cs:134 | black-to-white interpolation is the opaque grey r = g = b = clamp01(t), alpha 1; for t in [0,1] the level is t itself |
| UnityMath.GreyMonotone | ProceduralTexture/Assets/Scripts/Editor/HeightMapGeneratorWindow.cs:134 | the grey level never decreases as t grows |
| HeightMap.OctaveOffsets | ProceduralTexture/Assets/Scripts/Editor/HeightMapGeneratorWindow.cs:69-75 | a freshly allocated array of exactly `octaves` offsets; entry i is (draw 2i + offset.x, draw 2i+1 + offset.y) and lies within 100000 of the global offset |
| HeightMap.ClampScale | ProceduralTexture/Assets/Scripts/Editor/HeightMapGeneratorWindow.cs:77 | the scale used for sampling is strictly positive, and a positive scale is kept unchanged |
| HeightMap.SampleHeight | ProceduralTexture/Assets/Scripts/Editor/HeightMapGeneratorWindow.cs:89-103 | the octave loop returns the sum over all octaves j of (2·noise(sample_j) − 1)·persistence^j, with sample coordinates scaled by lacunarity^j; its invariants keep amplitude = persistence^i and frequency = lacunarity^i |
| HeightMap.OctaveSumBounded | ProceduralTexture/Assets/Scripts/Editor/HeightMapGeneratorWindow.cs:89-103 | with noise in [0,1] and persistence >= 0, the sum of n octaves lies within ± (1 + p + … + p^(n−1)) |
| HeightMap.AmplitudeSumAtMostOctaves | ProceduralTexture/Assets/Scripts/Editor/HeightMapGeneratorWindow.cs:89-103 | with persistence in [0,1] the total amplitude of n octaves lies in [0, n] |
| HeightMap.RawHeightBounded | ProceduralTexture/Assets/Scripts/Editor/HeightMapGeneratorWindow.cs:89-103 | with noise in [0,1] and persistence in [0,1], every raw height lies in [−octaves, octaves] |
| HeightMap.SingleOctave | ProceduralTexture/Assets/Scripts/Editor/HeightMapGeneratorWindow.cs:93-99 | with one octave, the raw height is 2·noise((x−halfWidth)/scale + off.x, (y−halfHeight)/scale + off.y) − 1, whatever the persistence and lacunarity |
| HeightMap.FillRawHeights | ProceduralTexture/Assets/Scripts/Editor/HeightMapGeneratorWindow.cs:79-109 | first pass: every cell holds its raw height, the returned minimum and maximum bracket every cell and each is held by some cell; the octave offsets are untouched |
| HeightMap.NormaliseInPlace | ProceduralTexture/Assets/Scripts/Editor/HeightMapGeneratorWindow.cs:111-117 | second pass: every cell becomes the inverse-lerp of its old value between the same two fixed bounds |
| HeightMap.GenerateNoiseMap | ProceduralTexture/Assets/Scripts/Editor/HeightMapGeneratorWindow.cs:65-120 | the map is a freshly allocated width × height array, every cell lies in [0,1], and there are bounds that are the least and greatest raw heights such that every cell is the inverse-lerp of its raw height between them |
| HeightMap.NormalisedHitsBounds | ProceduralTexture/Assets/Scripts/Editor/HeightMapGeneratorWindow.cs:111-117 | after normalisation, cells of least raw height are exactly 0 and some cell is 0; when min < max, cells of greatest raw height are exactly 1 and some cell is 1; a flat map is 0 everywhere |
| HeightMap.NormalisedPreservesOrder | ProceduralTexture/Assets/Scripts/Editor/HeightMapGeneratorWindow.cs:111-117 | raw height a ≤ raw height b implies normalised a ≤ normalised b |
| HeightMap.MinMaxUnique | ProceduralTexture/Assets/Scripts/Editor/HeightMapGeneratorWindow.cs:79-106 | the bracketing, attained minimum and maximum of a map are unique |
| HeightMap.NormalisedDeterministic | ProceduralTexture/Assets/Scripts/Editor/HeightMapGeneratorWindow.cs:65-120 | two maps of one size normalised from the same noise, parameters and offsets agree in every cell |
| HeightMap.FlatIndexInRange | ProceduralTexture/Assets/Scripts/Editor/HeightMapGeneratorWindow.cs:128-136 | every cell's slot `y*width + x` lies in [0, width*height) |
| HeightMap.FlatIndexRoundTrip | ProceduralTexture/Assets/Scripts/Editor/HeightMapGeneratorWindow.cs:134 | the slot's remainder and quotient by width give back x and y |
| HeightMap.FlatIndexInjective | ProceduralTexture/Assets/Scripts/Editor/HeightMapGeneratorWindow.cs:134 | different cells get different slots |
| HeightMap.FlatIndexCovers | ProceduralTexture/Assets/Scripts/Editor/HeightMapGeneratorWindow.cs:128-136 | every slot in [0, width*height) is the slot of the cell (k % width, k / width) inside the map |
| HeightMap.GenerateTexture | ProceduralTexture/Assets/Scripts/Editor/HeightMapGeneratorWindow.cs:122-141 | the buffer is freshly allocated with width*height slots; the slot of each cell holds the black-to-white interpolation of the cell, and every slot holds that of the cell it belongs to |
| HeightMap.GenerateMap | ProceduralTexture/Assets/Scripts/Editor/HeightMapGeneratorWindow.cs:59-63 | the buffer is freshly allocated with width*height opaque grey pixels with levels in [0,1], each cell's slot holding the grey of its normalised raw height |
| HeightMap.RenderedExtremes | ProceduralTexture/Assets/Scripts/Editor/HeightMapGeneratorWindow.cs:59-63 | the pixels of the least-height cells are black and some pixel is black; when min < max the pixels of the greatest-height cells are white and some pixel is white |
| HeightMap.RenderedPreservesOrder | ProceduralTexture/Assets/Scripts/Editor/HeightMapGeneratorWindow.cs:59-63 | a cell of greater raw height never gets a darker pixel |

## Left out

- `OnGUI`, `ShowWindow` and the preview drawing: editor user interface with no behaviour of the core.
- `SaveTexture`: PNG encoding and file-system probing for a free path, which are I/O.
- `Texture2D` construction, `SetPixels` and `Apply`: engine calls; the model stops at the colour buffer.
- `Mathf.PerlinNoise` and `System.Random`: foreign code, replaced by the parameters `noise` and `draws`; how a seed determines the draws is not modelled.
- Single-precision rounding: all arithmetic is on reals, so `0.0001f` is exactly 0.0001 and no sum overflows.
- Sentinel values `float.MinValue`/`float.MaxValue`: only their role as "nothing seen yet" is kept.
- Non-positive width or height and a negative octave count: the C# code throws or leaves the sentinels in place; the model requires positive sizes and a natural octave count.
- 32-bit overflow of `width * height` and `y * width + x`: integers are unbounded in the model.
