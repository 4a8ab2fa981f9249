/**
 * The plain algebra of a bounce: the specular reflection `get_new_direction`
 * (the same three lines in scoop_raytrace/raytrace_quadrant.py,
 * scoop_raytrace/raytrace.py and TIM_scoop_raytrace.py), the interior-hit
 * correction of the quadrant sweep and the distance fudge factor of the
 * TIM script.
 *
 * Normalisation (`v / np.linalg.norm(v)`) is a scaling by a reciprocal length
 * that the model does not compute: it is an argument `invNorm`, and the
 * results are stated for the case where it returns the true reciprocal length.
 */
module Optics {
  import opened Vectors

  /** `k` is the reciprocal Euclidean length of the non-zero vector `w`. */
  predicate InverseNorm(k: real, w: Vec3) {
    k > 0.0 && k * k * Norm2(w) == 1.0
  }

  /** The raw mirror image of `v` about the plane with normal `n`: v - 2 (v . n) n. */
  function Reflect(v: Vec3, n: Vec3): Vec3 {
    Add(Scale(n, -2.0 * Dot(v, n)), v)
  }

  /** `get_new_direction`: the reflected direction, scaled to unit length. */
  function NewDirection(v: Vec3, n: Vec3, invNorm: Vec3 -> real): (d: Vec3)
    ensures InverseNorm(invNorm(Reflect(v, n)), Reflect(v, n)) ==> IsUnit(d)
    ensures IsUnit(n) ==> Dot(d, n) == -invNorm(Reflect(v, n)) * Dot(v, n)
  {
    var w := Reflect(v, n);
    var k := invNorm(w);
    ScaledFacts(v, n, k);
    Scale(w, k)
  }

  lemma ScaledFacts(v: Vec3, n: Vec3, k: real)
    ensures Norm2(Scale(Reflect(v, n), k)) == k * k * Norm2(Reflect(v, n))
    ensures IsUnit(n) ==> Dot(Scale(Reflect(v, n), k), n) == -k * Dot(v, n)
  {
    var w := Reflect(v, n);
    DotScaleLeft(w, k, Scale(w, k));
    DotSymmetric(w, Scale(w, k));
    DotScaleLeft(w, k, w);
    if IsUnit(n) {
      ReflectFlipsNormal(v, n);
      DotScaleLeft(w, k, n);
    }
  }

  /** For a unit normal the component along the normal changes sign. */
  lemma ReflectFlipsNormal(v: Vec3, n: Vec3)
    requires IsUnit(n)
    ensures Dot(Reflect(v, n), n) == -Dot(v, n)
  {
    var a := -2.0 * Dot(v, n);
    DotAddLeft(Scale(n, a), v, n);
    DotScaleLeft(n, a, n);
  }

  /** For a unit normal the reflection keeps the length of `v`. */
  lemma ReflectKeepsLength(v: Vec3, n: Vec3)
    requires IsUnit(n)
    ensures Norm2(Reflect(v, n)) == Norm2(v)
  {
    var a := -2.0 * Dot(v, n);
    var w := Reflect(v, n);
    calc {
      Norm2(w);
      Dot(Add(Scale(n, a), v), w);
      { DotAddLeft(Scale(n, a), v, w); }
      Dot(Scale(n, a), w) + Dot(v, w);
      { DotScaleLeft(n, a, w); }
      a * Dot(n, w) + Dot(v, w);
      { DotSymmetric(n, w); ReflectFlipsNormal(v, n); }
      -a * Dot(v, n) + Dot(v, w);
      { DotSymmetric(v, w); DotAddLeft(Scale(n, a), v, v); DotScaleLeft(n, a, v); DotSymmetric(n, v); }
      -a * Dot(v, n) + a * Dot(v, n) + Dot(v, v);
    }
  }

  /** Reflecting twice about the same unit normal gives the direction back. */
  lemma ReflectTwice(v: Vec3, n: Vec3)
    requires IsUnit(n)
    ensures Reflect(Reflect(v, n), n) == v
  {
    ReflectFlipsNormal(v, n);
    var w := Reflect(v, n);
    assert Reflect(w, n) == Add(Scale(n, 2.0 * Dot(v, n)), w);
  }

  /** A direction along the normal (head-on incidence) is sent straight back. */
  lemma NormalIncidenceReverses(n: Vec3, c: real)
    requires IsUnit(n)
    ensures Reflect(Scale(n, c), n) == Scale(n, -c)
  {
    DotScaleLeft(n, c, n);
  }

  /**
   * A unit ray heading into a mirror along its unit normal leaves along the
   * normal: `get_new_direction(-n, n)` is `n` when the normalisation is exact.
   */
  lemma NewDirectionReverses(n: Vec3, invNorm: Vec3 -> real)
    requires IsUnit(n) && invNorm(n) == 1.0
    ensures NewDirection(Neg(n), n, invNorm) == n
  {
    NormalIncidenceReverses(n, -1.0);
    assert Neg(n) == Scale(n, -1.0);
    assert Scale(n, 1.0) == n;
  }

  // ---------------------------------------------------------------------------
  // Interior-hit correction (scoop_raytrace/raytrace_quadrant.py)
  // ---------------------------------------------------------------------------

  /** Smallest push applied to a point found on the inner side of a triangle. */
  const MinCorrection: real := 1e-7

  /** Signed distance of `p` from the plane through `centroid` with normal `n`, times |n|. */
  function Projection(p: Vec3, centroid: Vec3, n: Vec3): real {
    Dot(Sub(p, centroid), n)
  }

  function CorrectionDistance(proj: real): (d: real)
    ensures d >= MinCorrection && d >= -2.0 * proj
    ensures d == MinCorrection || d == -2.0 * proj
  {
    if MinCorrection >= -2.0 * proj then MinCorrection else -2.0 * proj
  }

  /**
   * The end point moved back across the hit triangle: unchanged when its
   * projection is not negative, otherwise moved along the normal by
   * max(1e-7, -2 proj).
   */
  function CorrectInterior(end: Vec3, centroid: Vec3, n: Vec3): (p: Vec3)
    ensures Projection(end, centroid, n) >= 0.0 ==> p == end
    ensures Projection(end, centroid, n) < 0.0 ==>
              Sub(p, end) == Scale(n, CorrectionDistance(Projection(end, centroid, n)))
  {
    var proj := Projection(end, centroid, n);
    if proj < 0.0 then Add(end, Scale(n, CorrectionDistance(proj))) else end
  }

  /** The corrected point's projection, for a unit normal: the old one plus the push. */
  lemma CorrectedProjection(end: Vec3, centroid: Vec3, n: Vec3)
    requires IsUnit(n)
    requires Projection(end, centroid, n) < 0.0
    ensures Projection(CorrectInterior(end, centroid, n), centroid, n)
            == Projection(end, centroid, n) + CorrectionDistance(Projection(end, centroid, n))
  {
    var proj := Projection(end, centroid, n);
    var d := CorrectionDistance(proj);
    assert Sub(Add(end, Scale(n, d)), centroid) == Add(Sub(end, centroid), Scale(n, d));
    DotAddLeft(Sub(end, centroid), Scale(n, d), n);
    DotScaleLeft(n, d, n);
  }

  /**
   * The self-check that the source keeps commented out: for a unit normal a
   * corrected point lies strictly on the outer side of the triangle's plane.
   */
  lemma CorrectionLeavesOutside(end: Vec3, centroid: Vec3, n: Vec3)
    requires IsUnit(n)
    ensures Projection(end, centroid, n) < 0.0 ==> Projection(CorrectInterior(end, centroid, n), centroid, n) > 0.0
    ensures Projection(end, centroid, n) >= 0.0 ==>
              Projection(CorrectInterior(end, centroid, n), centroid, n) == Projection(end, centroid, n)
  {
    if Projection(end, centroid, n) < 0.0 {
      CorrectedProjection(end, centroid, n);
    }
  }

  /**
   * When the excursion is at least half the minimum push, the correction
   * mirrors it exactly: the new projection is the old one negated.
   */
  lemma CorrectionMirrorsExcursion(end: Vec3, centroid: Vec3, n: Vec3)
    requires IsUnit(n)
    requires -2.0 * Projection(end, centroid, n) >= MinCorrection
    ensures Projection(CorrectInterior(end, centroid, n), centroid, n) == -Projection(end, centroid, n)
  {
    CorrectedProjection(end, centroid, n);
  }

  // ---------------------------------------------------------------------------
  // Distance fudge factor (TIM_scoop_raytrace.py)
  // ---------------------------------------------------------------------------

  const RayFudge: real := 1.0 - 1e-5

  /** The hit distance shortened by the fudge factor: strictly inside (0, t) for t > 0. */
  function FudgedDistance(t: real): (d: real)
    ensures t > 0.0 ==> 0.0 < d < t
    ensures t == 0.0 ==> d == 0.0
  {
    t * RayFudge
  }

  /** Along a non-zero direction, travelling a shorter distance stops strictly before the longer one. */
  lemma ShorterPointBefore(origin: Vec3, dir: Vec3, s: real, t: real)
    requires s < t && Norm2(dir) > 0.0
    ensures Dot(Sub(PointAt(origin, dir, s), PointAt(origin, dir, t)), dir) < 0.0
  {
    var diff := Sub(PointAt(origin, dir, s), PointAt(origin, dir, t));
    assert diff == Scale(dir, s - t);
    DotScaleLeft(dir, s - t, dir);
    assert (s - t) * Norm2(dir) < 0.0;
  }

  /**
   * For a positive hit distance and a non-zero direction, the point reached
   * with the fudged distance lies strictly before the reported hit along the ray.
   */
  lemma FudgedPointBeforeHit(origin: Vec3, dir: Vec3, t: real)
    requires t > 0.0 && Norm2(dir) > 0.0
    ensures Dot(Sub(PointAt(origin, dir, FudgedDistance(t)), PointAt(origin, dir, t)), dir) < 0.0
  {
    ShorterPointBefore(origin, dir, FudgedDistance(t), t);
  }

  // ---------------------------------------------------------------------------
  // Back-off before the hit (scoop_raytrace/raytrace.py)
  // ---------------------------------------------------------------------------

  /** `dist - 1e-6`: the end point of a segment is taken this far before the reported hit. */
  const BackOff: real := 1e-6

  /**
   * Along a unit direction the backed-off end point lies exactly `BackOff`
   * before the hit point, on the near side of it.
   */
  lemma BackedOffBeforeHit(origin: Vec3, dir: Vec3, t: real)
    requires IsUnit(dir)
    ensures Sub(PointAt(origin, dir, t), PointAt(origin, dir, t - BackOff)) == Scale(dir, BackOff)
    ensures Dot(Sub(PointAt(origin, dir, t - BackOff), PointAt(origin, dir, t)), dir) < 0.0
  {
    ShorterPointBefore(origin, dir, t - BackOff, t);
  }
}
