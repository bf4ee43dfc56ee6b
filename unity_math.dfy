/** The few pieces of Unity's `Mathf` and `Color` that the height-map generator
    relies on, with single-precision floats modelled as `real`. */
module UnityMath {

  /** `Mathf.Clamp01`: the nearest point of [0, 1]. */
  function Clamp01(v: real): (r: real)
    ensures 0.0 <= r <= 1.0
    ensures 0.0 <= v <= 1.0 ==> r == v
  {
    if v < 0.0 then 0.0 else if v > 1.0 then 1.0 else v
  }

  lemma Clamp01Monotone(u: real, v: real)
    requires u <= v
    ensures Clamp01(u) <= Clamp01(v)
  {
  }

  /** `Mathf.InverseLerp`: where `v` sits between `a` and `b`, as a fraction
      clamped to [0, 1]; a degenerate range `a == b` gives 0. */
  function InverseLerp(a: real, b: real, v: real): (r: real)
    ensures 0.0 <= r <= 1.0
    ensures a == b ==> r == 0.0
    ensures a != b && v == a ==> r == 0.0
    ensures a != b && v == b ==> r == 1.0
    ensures a < b && a <= v <= b ==> a + (b - a) * r == v
  {
    if a != b then Clamp01((v - a) / (b - a)) else 0.0
  }

  /** For an ordered range, inverse-lerp never reverses the order of two values. */
  lemma InverseLerpMonotone(a: real, b: real, u: real, v: real)
    requires a <= b && u <= v
    ensures InverseLerp(a, b, u) <= InverseLerp(a, b, v)
  {
    if a < b {
      QuotientMonotone(u - a, v - a, b - a);
      Clamp01Monotone((u - a) / (b - a), (v - a) / (b - a));
    }
  }

  lemma QuotientMonotone(p: real, q: real, d: real)
    requires p <= q && d > 0.0
    ensures p / d <= q / d
  {
  }

  /** Unity's `Color`, each channel a real in the model. */
  datatype Color = Color(r: real, g: real, b: real, a: real)

  const Black := Color(0.0, 0.0, 0.0, 1.0)
  const White := Color(1.0, 1.0, 1.0, 1.0)

  /** `c` lies on the closed segment between `p` and `q`. */
  predicate Between(p: real, q: real, c: real)
  {
    (p <= c <= q) || (q <= c <= p)
  }

  /** `Mathf.Lerp` (and one channel of `Color.Lerp`): `t` is clamped first. */
  function Lerp(p: real, q: real, t: real): (c: real)
    ensures Between(p, q, c)
    ensures t <= 0.0 ==> c == p
    ensures t >= 1.0 ==> c == q
  {
    var s := Clamp01(t);
    ScaledStep(p, q, s);
    p + (q - p) * s
  }

  lemma ScaledStep(p: real, q: real, s: real)
    requires 0.0 <= s <= 1.0
    ensures Between(p, q, p + (q - p) * s)
  {
  }

  /** `Color.Lerp`: every channel interpolated with the same clamped factor. */
  function ColorLerp(from: Color, to: Color, t: real): (c: Color)
    ensures Between(from.r, to.r, c.r) && Between(from.g, to.g, c.g)
    ensures Between(from.b, to.b, c.b) && Between(from.a, to.a, c.a)
  {
    Color(Lerp(from.r, to.r, t), Lerp(from.g, to.g, t), Lerp(from.b, to.b, t), Lerp(from.a, to.a, t))
  }

  /** The opaque grey of level `v`. */
  function Grey(v: real): Color
  {
    Color(v, v, v, 1.0)
  }

  /** Interpolating from black to white gives an opaque grey whose level is
      the clamped factor. */
  lemma BlackToWhiteIsGrey(t: real)
    ensures ColorLerp(Black, White, t) == Grey(Clamp01(t))
    ensures 0.0 <= t <= 1.0 ==> ColorLerp(Black, White, t) == Grey(t)
  {
  }

  /** The grey level grows with the factor. */
  lemma GreyMonotone(t1: real, t2: real)
    requires t1 <= t2
    ensures ColorLerp(Black, White, t1).r <= ColorLerp(Black, White, t2).r
  {
  }
}
