/**
 * The launch bundles of scoop_raytrace/ray_sets.py (and the identical bundle
 * loop of TIM_scoop_raytrace.py).
 *
 * Random draws, trigonometry and `scipy` rotations are not computed here:
 * the Gaussian samples, the disc samples, the rotation aligning +z with a
 * direction and the per-bundle Euler rotations are arguments.
 */
module RaySets {
  import opened Vectors
  import opened Scenes

  /** The launch height `h` / `ray_z` of every set except the disc. */
  const LaunchHeight: real := 10.0

  const Down: Vec3 := Vec3(0.0, 0.0, -1.0)

  /** The rows of an N x 6 ray tensor. */
  function TensorRays(t: array2<real>): seq<Ray>
    requires t.Length1 == 6
    reads t
  {
    seq(t.Length0, k requires 0 <= k < t.Length0 reads t =>
      Ray(Vec3(t[k, 0], t[k, 1], t[k, 2]), Vec3(t[k, 3], t[k, 4], t[k, 5])))
  }

  /** `t[:, c] = vals`: column `c` takes the values, every other cell keeps its own. */
  method SetColumn(t: array2<real>, c: nat, vals: seq<real>)
    requires c < t.Length1 && |vals| == t.Length0
    modifies t
    ensures forall i, j :: 0 <= i < t.Length0 && 0 <= j < t.Length1 ==>
              t[i, j] == if j == c then vals[i] else old(t[i, j])
  {
    forall i | 0 <= i < t.Length0 {
      t[i, c] := vals[i];
    }
  }

  // ---------------------------------------------------------------------------
  // simple_fan
  // ---------------------------------------------------------------------------

  /** A downward ray launched from (x, y, 10). */
  function Vertical(x: real, y: real): Ray {
    Ray(Vec3(x, y, LaunchHeight), Down)
  }

  /**
   * `simple_fan(radii)`: one on-axis ray, then four per radius at (0, r),
   * (r, 0), (0, -r), (-r, 0), all pointing straight down from height 10.
   */
  method SimpleFan(radii: seq<real>) returns (rays: seq<Ray>, nRays: nat)
    ensures nRays == |rays| == 1 + 4 * |radii|
    ensures rays[0] == Vertical(0.0, 0.0)
    ensures forall k :: 0 <= k < |radii| ==>
              && rays[4 * k + 1] == Vertical(0.0, radii[k])
              && rays[4 * k + 2] == Vertical(radii[k], 0.0)
              && rays[4 * k + 3] == Vertical(0.0, -radii[k])
              && rays[4 * k + 4] == Vertical(-radii[k], 0.0)
    ensures forall i :: 0 <= i < |rays| ==> rays[i].origin.z == LaunchHeight && rays[i].dir == Down
  {
    rays := [Vertical(0.0, 0.0)];
    for k := 0 to |radii|
      invariant |rays| == 1 + 4 * k
      invariant rays[0] == Vertical(0.0, 0.0)
      invariant forall q :: 0 <= q < k ==>
                  && rays[4 * q + 1] == Vertical(0.0, radii[q])
                  && rays[4 * q + 2] == Vertical(radii[q], 0.0)
                  && rays[4 * q + 3] == Vertical(0.0, -radii[q])
                  && rays[4 * q + 4] == Vertical(-radii[q], 0.0)
      invariant forall i :: 0 <= i < |rays| ==> rays[i].origin.z == LaunchHeight && rays[i].dir == Down
    {
      var r := radii[k];
      rays := rays + [Vertical(0.0, r)];
      rays := rays + [Vertical(r, 0.0)];
      rays := rays + [Vertical(0.0, -r)];
      rays := rays + [Vertical(-r, 0.0)];
    }
    nRays := |rays|;
  }

  // ---------------------------------------------------------------------------
  // simple_gaussian
  // ---------------------------------------------------------------------------

  const GaussianRays: nat := 500

  /**
   * `simple_gaussian`: a zero 500 x 6 tensor whose columns x, y, z and v_z are
   * filled with the normal samples `xy`, the height 10 and -1.
   */
  method SimpleGaussian(xy: seq<(real, real)>) returns (rays: seq<Ray>, nRays: nat)
    requires |xy| == GaussianRays
    ensures nRays == |rays| == GaussianRays
    ensures forall k :: 0 <= k < nRays ==> rays[k] == Vertical(xy[k].0, xy[k].1)
  {
    nRays := GaussianRays;
    var t := new real[nRays, 6]((i, j) => 0.0);
    SetColumn(t, 0, seq(nRays, k requires 0 <= k < nRays => xy[k].0));
    SetColumn(t, 1, seq(nRays, k requires 0 <= k < nRays => xy[k].1));
    SetColumn(t, 2, seq(nRays, k => LaunchHeight));
    SetColumn(t, 5, seq(nRays, k => -1.0));
    rays := TensorRays(t);
  }

  // ---------------------------------------------------------------------------
  // random_disc
  // ---------------------------------------------------------------------------

  /**
   * One draw of the generator for one ray: `root` is `sqrt(U1)`, and `c`, `s`
   * are the cosine and sine of the angle `2 pi U2`.
   */
  datatype DiscSample = DiscSample(root: real, c: real, s: real)

  /** What the draw guarantees: U1 in [0, 1), so its square root too, and a point on the unit circle. */
  predicate ValidSample(d: DiscSample) {
    0.0 <= d.root < 1.0 && d.c * d.c + d.s * d.s == 1.0
  }

  /** The sample on the disc of radius `rMax` in the plane z = 0: (r cos theta, r sin theta, 0). */
  function DiscPoint(rMax: real, d: DiscSample): Vec3 {
    Vec3(rMax * d.root * d.c, rMax * d.root * d.s, 0.0)
  }

  /** The disc sample's radius r = rMax sqrt(U1) lies in [0, rMax), so the sample lies on the disc. */
  lemma DiscPointInDisc(rMax: real, d: DiscSample)
    requires rMax > 0.0 && ValidSample(d)
    ensures 0.0 <= rMax * d.root < rMax
    ensures Norm2(DiscPoint(rMax, d)) == (rMax * d.root) * (rMax * d.root)
    ensures Norm2(DiscPoint(rMax, d)) < rMax * rMax
  {
    var r := rMax * d.root;
    FractionBelow(rMax, d.root);
    CirclePointNorm(r, d.c, d.s);
    assert DiscPoint(rMax, d) == Vec3(r * d.c, r * d.s, 0.0);
    SquareOfBelow(Norm2(DiscPoint(rMax, d)), r, rMax);
  }

  lemma FractionBelow(a: real, b: real)
    requires a > 0.0 && 0.0 <= b < 1.0
    ensures 0.0 <= a * b < a
  {
    assert a * (1.0 - b) > 0.0;
  }

  lemma CirclePointNorm(r: real, c: real, s: real)
    requires c * c + s * s == 1.0
    ensures Norm2(Vec3(r * c, r * s, 0.0)) == r * r
  {
    assert (r * c) * (r * c) == (r * r) * (c * c);
    assert (r * s) * (r * s) == (r * r) * (s * s);
    assert (r * r) * (c * c) + (r * r) * (s * s) == (r * r) * (c * c + s * s);
  }

  lemma SquareBelow(r: real, m: real)
    requires 0.0 <= r < m
    ensures r * r < m * m
  {
    assert r * (m - r) >= 0.0;
    assert m * (m - r) > 0.0;
  }

  lemma SquareOfBelow(n: real, r: real, m: real)
    requires n == r * r && 0.0 <= r < m
    ensures n < m * m
  {
    SquareBelow(r, m);
  }

  /**
   * The rays `random_disc` builds from the samples: each disc point rotated by
   * `align(dir, .)` (the rotation taking +z onto `dir`) and shifted by `pos`,
   * and every direction equal to `dir`.
   */
  function DiscRays(rMax: real, pos: Vec3, dir: Vec3, samples: seq<DiscSample>, align: (Vec3, Vec3) -> Vec3): seq<Ray> {
    seq(|samples|, k requires 0 <= k < |samples| => Ray(Add(align(dir, DiscPoint(rMax, samples[k])), pos), dir))
  }

  /**
   * `random_disc(r_max, N_rays, pos, dir)`: the vectors r, x, y, u of the
   * source, then the six columns of a zero N x 6 tensor.
   */
  method RandomDisc(rMax: real, nRays: nat, pos: Vec3, dir: Vec3, samples: seq<DiscSample>, align: (Vec3, Vec3) -> Vec3)
      returns (rays: seq<Ray>, n: nat)
    requires |samples| == nRays
    ensures n == nRays == |rays|
    ensures rays == DiscRays(rMax, pos, dir, samples, align)
  {
    var r := seq(nRays, k requires 0 <= k < nRays => rMax * samples[k].root);
    var x := seq(nRays, k requires 0 <= k < nRays => r[k] * samples[k].c);
    var y := seq(nRays, k requires 0 <= k < nRays => r[k] * samples[k].s);
    var u := seq(nRays, k requires 0 <= k < nRays => Add(align(dir, Vec3(x[k], y[k], 0.0)), pos));
    var t := Tensor(u, seq(nRays, k => dir));
    rays := TensorRays(t);
    n := nRays;
    assert forall k :: 0 <= k < nRays ==> Vec3(x[k], y[k], 0.0) == DiscPoint(rMax, samples[k]);
  }

  /** A zero N x 6 tensor whose position columns are filled from `u` and direction columns from `v`. */
  method Tensor(u: seq<Vec3>, v: seq<Vec3>) returns (t: array2<real>)
    requires |u| == |v|
    ensures fresh(t) && t.Length0 == |u| && t.Length1 == 6
    ensures TensorRays(t) == seq(|u|, k requires 0 <= k < |u| => Ray(u[k], v[k]))
  {
    var n := |u|;
    t := new real[n, 6]((i, j) => 0.0);
    SetColumn(t, 0, seq(n, k requires 0 <= k < n => u[k].x));
    SetColumn(t, 1, seq(n, k requires 0 <= k < n => u[k].y));
    SetColumn(t, 2, seq(n, k requires 0 <= k < n => u[k].z));
    SetColumn(t, 3, seq(n, k requires 0 <= k < n => v[k].x));
    SetColumn(t, 4, seq(n, k requires 0 <= k < n => v[k].y));
    SetColumn(t, 5, seq(n, k requires 0 <= k < n => v[k].z));
  }

  /**
   * Every disc ray points along `dir`, and when `align` is a rotation (keeps
   * lengths) every origin lies within `rMax` of `pos`.
   */
  lemma DiscRaysFacts(rMax: real, pos: Vec3, dir: Vec3, samples: seq<DiscSample>, align: (Vec3, Vec3) -> Vec3)
    requires rMax > 0.0
    requires forall k :: 0 <= k < |samples| ==> ValidSample(samples[k])
    requires forall v :: Norm2(align(dir, v)) == Norm2(v)
    ensures |DiscRays(rMax, pos, dir, samples, align)| == |samples|
    ensures forall k :: 0 <= k < |samples| ==> DiscRays(rMax, pos, dir, samples, align)[k].dir == dir
    ensures forall k :: 0 <= k < |samples| ==>
              Norm2(Sub(DiscRays(rMax, pos, dir, samples, align)[k].origin, pos)) < rMax * rMax
  {
    var rays := DiscRays(rMax, pos, dir, samples, align);
    forall k | 0 <= k < |samples|
      ensures Norm2(Sub(rays[k].origin, pos)) < rMax * rMax
    {
      var p := DiscPoint(rMax, samples[k]);
      DiscPointInDisc(rMax, samples[k]);
      assert Sub(Add(align(dir, p), pos), pos) == align(dir, p);
    }
  }

  // ---------------------------------------------------------------------------
  // angular_sector (and the bundle loop of TIM_scoop_raytrace.py)
  // ---------------------------------------------------------------------------

  /** `N_bundle_side` of `angular_sector`. */
  const SectorBundleSide: nat := 100

  /** `v_aim`: the unit vector from a launch point towards the aim point (0, 0, 0). */
  function AimDirection(origin: Vec3, invNorm: Vec3 -> real): Vec3 {
    Scale(Neg(origin), invNorm(Neg(origin)))
  }

  /**
   * The bundle of one launch point: ray `j` starts at (x, y, 10) and points
   * along the aim vector turned by the `j`-th Euler rotation `rotate(j, .)`.
   */
  function OriginBundle(x: real, y: real, perOrigin: nat, rotate: (nat, Vec3) -> Vec3, invNorm: Vec3 -> real): seq<Ray> {
    seq(perOrigin, j requires 0 <= j < perOrigin =>
      Ray(Vec3(x, y, LaunchHeight), rotate(j, AimDirection(Vec3(x, y, LaunchHeight), invNorm))))
  }

  /** The bundles of the first `n` launch points, one after the other. */
  function SectorRays(xflat: seq<real>, yflat: seq<real>, perOrigin: nat, rotate: (nat, Vec3) -> Vec3,
                      invNorm: Vec3 -> real, n: nat): seq<Ray>
    requires n <= |xflat| == |yflat|
  {
    if n == 0 then []
    else SectorRays(xflat, yflat, perOrigin, rotate, invNorm, n - 1)
         + OriginBundle(xflat[n - 1], yflat[n - 1], perOrigin, rotate, invNorm)
  }

  /**
   * The double loop of `angular_sector`: for every launch point, one ray per
   * rotation of the N_bundle_side x N_bundle_side grid.
   */
  method AngularSector(xflat: seq<real>, yflat: seq<real>, nSide: nat, rotate: (nat, Vec3) -> Vec3, invNorm: Vec3 -> real)
      returns (rays: seq<Ray>, nRays: nat)
    requires |xflat| == |yflat|
    ensures rays == SectorRays(xflat, yflat, nSide * nSide, rotate, invNorm, |xflat|)
    ensures nRays == |rays|
  {
    var perOrigin := nSide * nSide;
    rays := [];
    for i := 0 to |xflat|
      invariant rays == SectorRays(xflat, yflat, perOrigin, rotate, invNorm, i)
    {
      var origin := Vec3(xflat[i], yflat[i], LaunchHeight);
      var vAim := AimDirection(origin, invNorm);
      ghost var before := rays;
      for j := 0 to perOrigin
        invariant rays == before + OriginBundle(xflat[i], yflat[i], perOrigin, rotate, invNorm)[..j]
      {
        var vAimNew := rotate(j, vAim);
        rays := rays + [Ray(origin, vAimNew)];
        assert OriginBundle(xflat[i], yflat[i], perOrigin, rotate, invNorm)[..j + 1]
            == OriginBundle(xflat[i], yflat[i], perOrigin, rotate, invNorm)[..j] + [Ray(origin, vAimNew)];
      }
      assert OriginBundle(xflat[i], yflat[i], perOrigin, rotate, invNorm)[..perOrigin]
          == OriginBundle(xflat[i], yflat[i], perOrigin, rotate, invNorm);
    }
    nRays := |rays|;
  }

  /**
   * The sector has `perOrigin` rays per launch point, all launched from height
   * 10, and ray `i * perOrigin + j` is the `j`-th ray of launch point `i`.
   */
  lemma {:induction false} SectorRaysLength(xflat: seq<real>, yflat: seq<real>, perOrigin: nat, rotate: (nat, Vec3) -> Vec3,
                                            invNorm: Vec3 -> real, n: nat)
    requires n <= |xflat| == |yflat|
    ensures |SectorRays(xflat, yflat, perOrigin, rotate, invNorm, n)| == n * perOrigin
  {
    if n > 0 {
      SectorRaysLength(xflat, yflat, perOrigin, rotate, invNorm, n - 1);
      assert (n - 1) * perOrigin + perOrigin == n * perOrigin;
    }
  }

  /** The 20 launch points of `angular_sector`. */
  const SectorOrigins: nat := 20

  /** As configured, `angular_sector` launches 20 x 100^2 = 200000 rays. */
  lemma SectorRaysConfigured(xflat: seq<real>, yflat: seq<real>, rotate: (nat, Vec3) -> Vec3, invNorm: Vec3 -> real)
    requires |xflat| == |yflat| == SectorOrigins
    ensures |SectorRays(xflat, yflat, SectorBundleSide * SectorBundleSide, rotate, invNorm, SectorOrigins)| == 200000
  {
    SectorRaysLength(xflat, yflat, SectorBundleSide * SectorBundleSide, rotate, invNorm, SectorOrigins);
  }

  /** Every sector ray is launched from height 10, from one of the launch points. */
  lemma {:induction false} SectorRaysHeight(xflat: seq<real>, yflat: seq<real>, perOrigin: nat, rotate: (nat, Vec3) -> Vec3,
                                            invNorm: Vec3 -> real, n: nat)
    requires n <= |xflat| == |yflat|
    ensures forall k :: 0 <= k < |SectorRays(xflat, yflat, perOrigin, rotate, invNorm, n)| ==>
              SectorRays(xflat, yflat, perOrigin, rotate, invNorm, n)[k].origin.z == LaunchHeight
              && exists i :: 0 <= i < n &&
                   SectorRays(xflat, yflat, perOrigin, rotate, invNorm, n)[k].origin == Vec3(xflat[i], yflat[i], LaunchHeight)
  {
    if n > 0 {
      SectorRaysHeight(xflat, yflat, perOrigin, rotate, invNorm, n - 1);
      var prev := SectorRays(xflat, yflat, perOrigin, rotate, invNorm, n - 1);
      var all := SectorRays(xflat, yflat, perOrigin, rotate, invNorm, n);
      forall k | 0 <= k < |all|
        ensures all[k].origin.z == LaunchHeight
        ensures exists i :: 0 <= i < n && all[k].origin == Vec3(xflat[i], yflat[i], LaunchHeight)
      {
        if k < |prev| {
          assert all[k] == prev[k];
        } else {
          assert all[k].origin == Vec3(xflat[n - 1], yflat[n - 1], LaunchHeight);
        }
      }
    }
  }

  /** Ray `i * perOrigin + j` of the sector is the `j`-th ray of launch point `i`. */
  lemma {:induction false} SectorRaysIndex(xflat: seq<real>, yflat: seq<real>, perOrigin: nat, rotate: (nat, Vec3) -> Vec3,
                                           invNorm: Vec3 -> real, n: nat, i: nat, j: nat)
    requires n <= |xflat| == |yflat| && i < n && j < perOrigin
    ensures i * perOrigin + j < |SectorRays(xflat, yflat, perOrigin, rotate, invNorm, n)|
    ensures SectorRays(xflat, yflat, perOrigin, rotate, invNorm, n)[i * perOrigin + j]
            == OriginBundle(xflat[i], yflat[i], perOrigin, rotate, invNorm)[j]
  {
    SectorRaysLength(xflat, yflat, perOrigin, rotate, invNorm, n - 1);
    var prev := SectorRays(xflat, yflat, perOrigin, rotate, invNorm, n - 1);
    var k := i * perOrigin + j;
    assert |prev| == (n - 1) * perOrigin;
    if i < n - 1 {
      SectorRaysIndex(xflat, yflat, perOrigin, rotate, invNorm, n - 1, i, j);
    } else {
      assert i * perOrigin == |prev|;
    }
  }

  /**
   * When the rotations keep lengths and `invNorm` is the true reciprocal
   * length, every sector ray has a unit direction.
   */
  lemma {:induction false} SectorDirectionsUnit(xflat: seq<real>, yflat: seq<real>, perOrigin: nat, rotate: (nat, Vec3) -> Vec3,
                                                invNorm: Vec3 -> real, n: nat)
    requires n <= |xflat| == |yflat|
    requires forall j, v :: Norm2(rotate(j, v)) == Norm2(v)
    requires forall i :: 0 <= i < n ==> InverseLength(invNorm, Vec3(xflat[i], yflat[i], LaunchHeight))
    ensures forall k :: 0 <= k < |SectorRays(xflat, yflat, perOrigin, rotate, invNorm, n)| ==>
              IsUnit(SectorRays(xflat, yflat, perOrigin, rotate, invNorm, n)[k].dir)
  {
    if n > 0 {
      SectorDirectionsUnit(xflat, yflat, perOrigin, rotate, invNorm, n - 1);
      var prev := SectorRays(xflat, yflat, perOrigin, rotate, invNorm, n - 1);
      var all := SectorRays(xflat, yflat, perOrigin, rotate, invNorm, n);
      var o := Vec3(xflat[n - 1], yflat[n - 1], LaunchHeight);
      AimIsUnit(o, invNorm);
      forall k | 0 <= k < |all|
        ensures IsUnit(all[k].dir)
      {
        if k < |prev| {
          assert all[k] == prev[k];
        } else {
          assert all[k].dir == rotate(k - |prev|, AimDirection(o, invNorm));
        }
      }
    }
  }

  /** `invNorm` returns the reciprocal length of the vector from `o` to the aim point. */
  predicate InverseLength(invNorm: Vec3 -> real, o: Vec3) {
    invNorm(Neg(o)) * invNorm(Neg(o)) * Norm2(Neg(o)) == 1.0
  }

  lemma AimIsUnit(o: Vec3, invNorm: Vec3 -> real)
    requires InverseLength(invNorm, o)
    ensures IsUnit(AimDirection(o, invNorm))
  {
    var w := Neg(o);
    var k := invNorm(w);
    DotScaleLeft(w, k, Scale(w, k));
    DotSymmetric(w, Scale(w, k));
    DotScaleLeft(w, k, w);
  }
}
