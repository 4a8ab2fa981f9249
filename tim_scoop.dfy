/**
 * TIM_scoop_raytrace.py: a single run over the angular-sector bundle (40
 * launch points, 50 x 50 rotations each). A path is created per ray with no
 * segment; up to 51 rounds each cast the current batch, record every hit on
 * the path at the same batch position with the hit distance shortened by the
 * fudge factor, stop at the cryostat window and reflect the rest. The render
 * pass relabels paths that never hit anything as surface -1 ("inf") before
 * the histogram of last surfaces is formed.
 *
 * Unlike scoop_raytrace/raytrace.py this script keeps only the id of the last
 * surface hit (`last_surface_id`), does not normalise the ray direction
 * before using it, and never drops a hit.
 */
module TimScoop {
  import opened Vectors
  import opened Optics
  import opened Scenes
  import opened Histogram
  import RayPaths
  import RaySets
  import Raytrace

  /** The id the script gives the surface at infinity (`mesh_ids = [-1] + mesh_ids`). */
  const InfId: MeshId := -1

  /** `N_bounces`: the loop runs while `i_bounce <= 50`, so at most 51 rounds. */
  const TimBounces: nat := 50

  /** `N_bundle_side` of the bundle loop. */
  const TimBundleSide: nat := 50

  /** Launch points: `np.linspace(-10, 10, num=40)` times one elevation. */
  const TimOrigins: nat := 40

  /** `mesh_names`, the sentinel's name first. */
  const TimNames: seq<string> := ["inf", "scoop", "primary", "secondary", "cryostat_window"]

  // ---------------------------------------------------------------------------
  // RayPath of this script
  // ---------------------------------------------------------------------------

  /** The whole state of a path, as one value. */
  datatype TimState = TimState(
    rays: seq<Ray>,
    nBounces: nat,
    lastSurfaceId: MeshId,
    lastPos: RayPaths.Position,
    color: Rgb,
    lines: seq<RayPaths.Line>)

  /** A new path: no segment yet, last surface INVALID_ID. */
  const Unlaunched: TimState := TimState([], 0, InvalidId, RayPaths.AtInfinity, RayPaths.Grey, [])

  class RayPath {
    const id: nat
    var rays: seq<Ray>
    var nBounces: nat
    var lastSurfaceId: MeshId
    var lastPos: RayPaths.Position
    var color: Rgb
    var lines: seq<RayPaths.Line>

    /** One start ray and one line per recorded segment. */
    ghost predicate Valid()
      reads this
    {
      |rays| == nBounces && |lines| == nBounces
    }

    ghost function State(): TimState
      reads this
    {
      TimState(rays, nBounces, lastSurfaceId, lastPos, color, lines)
    }

    constructor (id: nat)
      ensures this.id == id && State() == Unlaunched && Valid()
    {
      this.id := id;
      rays := [];
      nBounces := 0;
      lastSurfaceId := InvalidId;
      lastPos := RayPaths.AtInfinity;
      color := RayPaths.Grey;
      lines := [];
    }

    /** `ray_to_line`: the segment between the two positions; remembers the end as `last_pos`. */
    method RayToLine(start: Ray, end: Ray) returns (l: RayPaths.Line)
      modifies this`lastPos
      ensures l == RayPaths.Line(start.origin, end.origin, None)
      ensures lastPos == RayPaths.At(end.origin)
    {
      l := RayPaths.Line(start.origin, end.origin, None);
      lastPos := RayPaths.At(end.origin);
    }

    /** `append`: records the start ray and the segment, counts a bounce and remembers the surface id. */
    method Append(rayStart: Ray, rayEnd: Ray, surfHitId: MeshId)
      requires Valid()
      modifies this
      ensures Valid()
      ensures State() == old(State()).(rays := old(rays) + [rayStart], nBounces := old(nBounces) + 1,
                                       lastSurfaceId := surfHitId, lastPos := RayPaths.At(rayEnd.origin),
                                       lines := old(lines) + [RayPaths.Line(rayStart.origin, rayEnd.origin, None)])
    {
      rays := rays + [rayStart];
      var line := RayToLine(rayStart, rayEnd);
      lines := lines + [line];
      nBounces := nBounces + 1;
      lastSurfaceId := surfHitId;
    }

    /** `apply_color`: sets the colour and repaints every line with it. */
    method ApplyColor(rgb: Rgb)
      requires Valid()
      modifies this
      ensures Valid()
      ensures State() == old(State()).(color := rgb, lines := RayPaths.Painted(old(lines), rgb))
    {
      color := rgb;
      var colored: seq<RayPaths.Line> := [];
      for k := 0 to |lines|
        invariant |colored| == k
        invariant forall q :: 0 <= q < k ==> colored[q] == lines[q].(paint := Some(rgb))
      {
        colored := colored + [lines[k].(paint := Some(rgb))];
      }
      lines := colored;
    }
  }

  predicate DistinctPaths(paths: seq<RayPath>) {
    forall a, b :: 0 <= a < b < |paths| ==> paths[a] != paths[b]
  }

  ghost function StatesOf(paths: seq<RayPath>): (s: seq<TimState>)
    reads paths
    ensures |s| == |paths| && forall j :: 0 <= j < |paths| ==> s[j] == paths[j].State()
  {
    if paths == [] then [] else StatesOf(paths[..|paths| - 1]) + [paths[|paths| - 1].State()]
  }

  /** `paths = [RayPath(i) for i in range(N_rays)]`: new paths with no segment. */
  method StartPaths(n: nat) returns (paths: seq<RayPath>)
    ensures |paths| == n && DistinctPaths(paths)
    ensures forall j :: 0 <= j < n ==> fresh(paths[j]) && paths[j].id == j
    ensures forall j :: 0 <= j < n ==> paths[j].Valid() && paths[j].State() == Unlaunched
  {
    paths := [];
    for i := 0 to n
      invariant |paths| == i && DistinctPaths(paths)
      invariant forall j :: 0 <= j < i ==>
                  fresh(paths[j]) && paths[j].id == j && paths[j].Valid() && paths[j].State() == Unlaunched
    {
      var p := new RayPath(i);
      paths := paths + [p];
    }
  }

  // ---------------------------------------------------------------------------
  // The launch bundle
  // ---------------------------------------------------------------------------

  /**
   * The bundle loop: for each of the 40 launch points at height 10, one ray
   * per rotation of the 50 x 50 grid, 100000 rays in all.
   */
  method TimBundle(xflat: seq<real>, yflat: seq<real>, rotate: (nat, Vec3) -> Vec3, invNorm: Vec3 -> real)
      returns (rays: seq<Ray>, nRays: nat)
    requires |xflat| == |yflat| == TimOrigins
    ensures rays == RaySets.SectorRays(xflat, yflat, TimBundleSide * TimBundleSide, rotate, invNorm, TimOrigins)
    ensures nRays == |rays| == 100000
  {
    rays, nRays := RaySets.AngularSector(xflat, yflat, TimBundleSide, rotate, invNorm);
    RaySets.SectorRaysLength(xflat, yflat, TimBundleSide * TimBundleSide, rotate, invNorm, TimOrigins);
  }

  // ---------------------------------------------------------------------------
  // One hit row
  // ---------------------------------------------------------------------------

  /** `end[u_] = this_ray[u_] + this_ray[v_] * dist`, with `dist` already shortened by the fudge factor. */
  function TimEnd(r: Ray, h: Hit): Vec3
    requires h.Hit?
  {
    PointAt(r.origin, r.dir, FudgedDistance(h.t))
  }

  /**
   * What a hit row does to the path it is recorded on: one segment from the
   * origin to the fudged end point, the mesh id as last surface, and the mesh
   * colour when the mesh absorbs.
   */
  function TimHitState(scene: Scene, r: Ray, h: Hit, b: TimState): TimState
    requires h.Hit?
  {
    var end := TimEnd(r, h);
    var a := b.(rays := b.rays + [r], nBounces := b.nBounces + 1, lastSurfaceId := h.meshId,
                lastPos := RayPaths.At(end), lines := b.lines + [RayPaths.Line(r.origin, end, None)]);
    if h.meshId in scene.absorbers then a.(color := scene.color(h.meshId)) else a
  }

  /** The ray a hit row adds to the next batch: none at an absorber, else one from the fudged end point. */
  function TimNextRay(scene: Scene, r: Ray, h: Hit): Option<Ray>
    requires h.Hit?
  {
    if h.meshId in scene.absorbers then None
    else Some(Ray(TimEnd(r, h), NewDirection(r.dir, h.normal, scene.invNorm)))
  }

  /** The body of the hit loop for one row, recorded on `path`. */
  method TimHit(path: RayPath, ray: Ray, hit: Hit, scene: Scene) returns (next: Option<Ray>)
    requires path.Valid() && hit.Hit?
    modifies path
    ensures path.Valid()
    ensures path.State() == TimHitState(scene, ray, hit, old(path.State()))
    ensures next == TimNextRay(scene, ray, hit)
  {
    var thisRay := ray;
    var dist := hit.t;
    dist := dist * RayFudge;
    var end := Ray(PointAt(thisRay.origin, thisRay.dir, dist), thisRay.dir);
    path.Append(thisRay, end, hit.meshId);
    if hit.meshId in scene.absorbers {
      path.color := scene.color(hit.meshId);
      return None;
    }
    var vhatNew := NewDirection(thisRay.dir, hit.normal, scene.invNorm);
    var posNew := PointAt(thisRay.origin, thisRay.dir, dist);
    next := Some(Ray(posNew, vhatNew));
  }

  /** The recorded end point lies strictly before the reported hit, along the ray. */
  lemma TimEndBeforeHit(r: Ray, h: Hit)
    requires h.Hit? && h.t > 0.0 && Norm2(r.dir) > 0.0
    ensures Dot(Sub(TimEnd(r, h), PointAt(r.origin, r.dir, h.t)), r.dir) < 0.0
  {
    FudgedPointBeforeHit(r.origin, r.dir, h.t);
  }

  // ---------------------------------------------------------------------------
  // One round
  // ---------------------------------------------------------------------------

  /** The rays the hit rows `mask` add to the next batch, in row order. */
  function TimHarvest(scene: Scene, rays: seq<Ray>, mask: seq<nat>): seq<Ray>
    requires forall q :: 0 <= q < |mask| ==> mask[q] < |rays| && scene.cast(rays[mask[q]]).Hit?
  {
    if mask == [] then []
    else
      var n := |mask| - 1;
      var r := rays[mask[n]];
      var next := TimNextRay(scene, r, scene.cast(r));
      TimHarvest(scene, rays, mask[..n]) + (if next.Some? then [next.value] else [])
  }

  /** `new_ray_list` of a round. */
  function TimNextBatch(scene: Scene, rays: seq<Ray>): seq<Ray> {
    TimHarvest(scene, rays, Rows(CastAll(scene, rays), true))
  }

  /** The state of path `j` after a round over `rays`: only a hit in row `j` touches it. */
  function TimAfter(scene: Scene, rays: seq<Ray>, j: nat, b: TimState): TimState {
    if j < |rays| && scene.cast(rays[j]).Hit? then TimHitState(scene, rays[j], scene.cast(rays[j]), b) else b
  }

  /** The hit loop after `k` hit rows. */
  ghost predicate TimRoundAt(paths: seq<RayPath>, rays: seq<Ray>, scene: Scene, hitMask: seq<nat>, k: nat,
                             done: set<nat>, newRayList: seq<Ray>, olds: seq<TimState>)
    reads paths
  {
    && hitMask == Rows(CastAll(scene, rays), true) && k <= |hitMask| && |olds| == |paths|
    && newRayList == TimHarvest(scene, rays, hitMask[..k])
    && (forall j :: j in done <==> exists q :: 0 <= q < k && hitMask[q] == j)
    && forall j :: 0 <= j < |paths| ==>
         && paths[j].Valid()
         && paths[j].State() == if j in done then TimAfter(scene, rays, j, olds[j]) else olds[j]
  }

  /** One round: cast the batch, then handle every hit row in order on the path at its position. */
  method TimRound(paths: seq<RayPath>, rays: seq<Ray>, scene: Scene) returns (newRayList: seq<Ray>)
    requires DistinctPaths(paths) && |rays| <= |paths|
    requires forall j :: 0 <= j < |paths| ==> paths[j].Valid()
    modifies paths
    ensures newRayList == TimNextBatch(scene, rays)
    ensures forall j :: 0 <= j < |paths| ==>
              paths[j].Valid() && paths[j].State() == TimAfter(scene, rays, j, old(paths[j].State()))
  {
    ghost var olds := StatesOf(paths);
    var ans := CastAll(scene, rays);
    var hitMask := Rows(ans, true);
    newRayList := [];
    ghost var done: set<nat> := {};
    for k := 0 to |hitMask|
      invariant TimRoundAt(paths, rays, scene, hitMask, k, done, newRayList, olds)
    {
      newRayList := TimStep(paths, rays, scene, ans, hitMask, k, done, newRayList, olds);
      done := done + {hitMask[k]};
    }
    TimRoundDone(paths, rays, scene, hitMask, done, newRayList, olds);
  }

  /** One pass of the hit loop: row `hitMask[k]` handled on the path at that position. */
  method TimStep(paths: seq<RayPath>, rays: seq<Ray>, scene: Scene, ans: seq<Hit>, hitMask: seq<nat>, k: nat,
                 ghost done: set<nat>, newRayList: seq<Ray>, ghost olds: seq<TimState>)
      returns (newRayList2: seq<Ray>)
    requires DistinctPaths(paths) && |rays| <= |paths| && k < |hitMask| && ans == CastAll(scene, rays)
    requires TimRoundAt(paths, rays, scene, hitMask, k, done, newRayList, olds)
    modifies paths
    ensures TimRoundAt(paths, rays, scene, hitMask, k + 1, done + {hitMask[k]}, newRayList2, olds)
  {
    var iHit := hitMask[k];
    assert iHit !in done;
    var next := TimRow(paths, rays, scene, iHit, ans[iHit], done);
    TimHarvestStep(scene, rays, hitMask, k);
    newRayList2 := newRayList;
    if next.Some? {
      newRayList2 := newRayList2 + [next.value];
    }
    Raytrace.DoneStep(hitMask, k, done);
  }

  /** Row `iHit` of the hit loop, handled on `paths[iHit]`. */
  method TimRow(paths: seq<RayPath>, rays: seq<Ray>, scene: Scene, iHit: nat, hit: Hit, ghost done: set<nat>)
      returns (next: Option<Ray>)
    requires DistinctPaths(paths) && |rays| <= |paths| && iHit < |rays| && iHit !in done
    requires hit == scene.cast(rays[iHit]) && hit.Hit?
    requires forall j :: 0 <= j < |paths| ==> paths[j].Valid()
    modifies paths[iHit]
    ensures next == TimNextRay(scene, rays[iHit], hit)
    ensures forall j :: 0 <= j < |paths| ==> paths[j].Valid()
    ensures paths[iHit].State() == TimAfter(scene, rays, iHit, old(paths[iHit].State()))
    ensures forall j :: 0 <= j < |paths| && j != iHit ==> paths[j].State() == old(paths[j].State())
  {
    var thisPath := paths[iHit];
    next := TimHit(thisPath, rays[iHit], hit, scene);
  }

  /** Handling row `mask[k]` extends the harvest of the rows before it. */
  lemma TimHarvestStep(scene: Scene, rays: seq<Ray>, mask: seq<nat>, k: nat)
    requires k < |mask|
    requires forall q :: 0 <= q < |mask| ==> mask[q] < |rays| && scene.cast(rays[mask[q]]).Hit?
    ensures var next := TimNextRay(scene, rays[mask[k]], scene.cast(rays[mask[k]]));
            TimHarvest(scene, rays, mask[..k + 1]) == TimHarvest(scene, rays, mask[..k]) + (if next.Some? then [next.value] else [])
  {
    assert mask[..k + 1][..k] == mask[..k];
  }

  /** After the last hit row, every path has had its round and the collected rays are the next batch. */
  lemma TimRoundDone(paths: seq<RayPath>, rays: seq<Ray>, scene: Scene, hitMask: seq<nat>,
                     done: set<nat>, newRayList: seq<Ray>, olds: seq<TimState>)
    requires TimRoundAt(paths, rays, scene, hitMask, |hitMask|, done, newRayList, olds)
    ensures newRayList == TimNextBatch(scene, rays)
    ensures forall j :: 0 <= j < |paths| ==>
              paths[j].Valid() && paths[j].State() == TimAfter(scene, rays, j, olds[j])
  {
    assert hitMask[..|hitMask|] == hitMask;
    Raytrace.HitRowsDone(CastAll(scene, rays), hitMask, done);
  }

  // ---------------------------------------------------------------------------
  // All rounds
  // ---------------------------------------------------------------------------

  /** The batch after `i` rounds. */
  function TimBatch(scene: Scene, launch: seq<Ray>, i: nat): seq<Ray> {
    if i == 0 then launch else TimNextBatch(scene, TimBatch(scene, launch, i - 1))
  }

  /** The state of path `j` after `i` rounds, from `s0`. */
  function TimRun(scene: Scene, launch: seq<Ray>, j: nat, s0: TimState, i: nat): TimState {
    if i == 0 then s0 else TimAfter(scene, TimBatch(scene, launch, i - 1), j, TimRun(scene, launch, j, s0, i - 1))
  }

  /** A round adds at most one ray per hit row. */
  lemma {:induction false} TimHarvestShorter(scene: Scene, rays: seq<Ray>, mask: seq<nat>)
    requires forall q :: 0 <= q < |mask| ==> mask[q] < |rays| && scene.cast(rays[mask[q]]).Hit?
    ensures |TimHarvest(scene, rays, mask)| <= |mask|
  {
    if mask != [] {
      TimHarvestShorter(scene, rays, mask[..|mask| - 1]);
    }
  }

  /**
   * Row `k` of a round's harvest continues the ray of a hit row at batch
   * position `m >= k`: the harvest keeps the order of the hit rows and skips
   * the absorbed ones.
   */
  lemma {:induction false} TimHarvestSources(scene: Scene, rays: seq<Ray>, mask: seq<nat>, k: nat)
    requires forall q :: 0 <= q < |mask| ==> q <= mask[q] < |rays| && scene.cast(rays[mask[q]]).Hit?
    requires k < |TimHarvest(scene, rays, mask)|
    ensures exists q :: k <= q < |mask| && k <= mask[q] &&
              TimNextRay(scene, rays[mask[q]], scene.cast(rays[mask[q]])) == Some(TimHarvest(scene, rays, mask)[k])
  {
    var n := |mask| - 1;
    var prefix := mask[..n];
    TimHarvestShorter(scene, rays, prefix);
    if k < |TimHarvest(scene, rays, prefix)| {
      TimHarvestSources(scene, rays, prefix, k);
      var q :| k <= q < |prefix| && k <= prefix[q] &&
               TimNextRay(scene, rays[prefix[q]], scene.cast(rays[prefix[q]])) == Some(TimHarvest(scene, rays, prefix)[k]);
      assert prefix[q] == mask[q];
    } else {
      assert k <= n && k <= mask[n];
    }
  }

  /**
   * Ray `k` of the next batch is the continuation of the ray at some position
   * `m >= k` of this batch, yet the next round records its hit on `paths[k]`:
   * once a row before it is absorbed, a continued ray is credited to a path
   * of lower index than the one it came from.
   */
  lemma TimNextBatchSources(scene: Scene, rays: seq<Ray>, k: nat)
    requires k < |TimNextBatch(scene, rays)|
    ensures exists m :: k <= m < |rays| && scene.cast(rays[m]).Hit? &&
              TimNextRay(scene, rays[m], scene.cast(rays[m])) == Some(TimNextBatch(scene, rays)[k])
  {
    var mask := Rows(CastAll(scene, rays), true);
    TimHarvestSources(scene, rays, mask, k);
    var q :| k <= q < |mask| && k <= mask[q] &&
             TimNextRay(scene, rays[mask[q]], scene.cast(rays[mask[q]])) == Some(TimHarvest(scene, rays, mask)[k]);
    assert k <= mask[q] < |rays|;
  }

  /** No batch is longer than the one before it. */
  lemma TimBatchShrinks(scene: Scene, launch: seq<Ray>, i: nat)
    ensures |TimBatch(scene, launch, i + 1)| <= |TimBatch(scene, launch, i)|
  {
    var rays := TimBatch(scene, launch, i);
    TimHarvestShorter(scene, rays, Rows(CastAll(scene, rays), true));
  }

  /** The bounce loop after `iBounce` rounds, from the path states `olds`. */
  ghost predicate TimAt(paths: seq<RayPath>, launch: seq<Ray>, scene: Scene, iBounce: nat, rays: seq<Ray>,
                        olds: seq<TimState>)
    reads paths
  {
    && |olds| == |paths| && iBounce <= TimBounces + 1
    && rays == TimBatch(scene, launch, iBounce) && |rays| <= |paths|
    && (iBounce > 1 ==> TimBatch(scene, launch, iBounce - 1) != [])
    && forall j :: 0 <= j < |paths| ==>
         paths[j].Valid() && paths[j].State() == TimRun(scene, launch, j, olds[j], iBounce)
  }

  /** One pass of the bounce loop: a round over the current batch. */
  method TimBounce(paths: seq<RayPath>, launch: seq<Ray>, scene: Scene, iBounce: nat, rays: seq<Ray>,
                   ghost olds: seq<TimState>)
      returns (newRayList: seq<Ray>)
    requires DistinctPaths(paths) && iBounce <= TimBounces && (iBounce > 0 ==> rays != [])
    requires TimAt(paths, launch, scene, iBounce, rays, olds)
    modifies paths
    ensures TimAt(paths, launch, scene, iBounce + 1, newRayList, olds)
  {
    ghost var pre := StatesOf(paths);
    newRayList := TimRound(paths, rays, scene);
    TimBounceDone(paths, launch, scene, iBounce, rays, newRayList, olds, pre);
  }

  /** A round over batch `iBounce` takes every path from `TimRun` at `iBounce` to `TimRun` at `iBounce + 1`. */
  lemma TimBounceDone(paths: seq<RayPath>, launch: seq<Ray>, scene: Scene, iBounce: nat, rays: seq<Ray>,
                      newRayList: seq<Ray>, olds: seq<TimState>, pre: seq<TimState>)
    requires iBounce <= TimBounces && (iBounce > 0 ==> rays != [])
    requires |olds| == |paths| && |pre| == |paths| && |rays| <= |paths|
    requires rays == TimBatch(scene, launch, iBounce) && newRayList == TimNextBatch(scene, rays)
    requires forall j :: 0 <= j < |paths| ==> pre[j] == TimRun(scene, launch, j, olds[j], iBounce)
    requires forall j :: 0 <= j < |paths| ==>
               paths[j].Valid() && paths[j].State() == TimAfter(scene, rays, j, pre[j])
    ensures TimAt(paths, launch, scene, iBounce + 1, newRayList, olds)
  {
    TimBatchShrinks(scene, launch, iBounce);
    assert newRayList == TimBatch(scene, launch, iBounce + 1);
    forall j | 0 <= j < |paths|
      ensures paths[j].State() == TimRun(scene, launch, j, olds[j], iBounce + 1)
    {
    }
  }

  /** Where the rounds stop: after one to 51 rounds, with an empty batch unless all 51 were run. */
  ghost predicate TimDone(paths: seq<RayPath>, launch: seq<Ray>, scene: Scene, iBounce: nat, rays: seq<Ray>,
                          olds: seq<TimState>)
    reads paths
  {
    && 0 < iBounce <= TimBounces + 1
    && TimAt(paths, launch, scene, iBounce, rays, olds)
    && (iBounce <= TimBounces ==> rays == [])
  }

  /** The bounce loop: at most 51 rounds, leaving as soon as a round adds no ray. */
  method TraceTim(paths: seq<RayPath>, launch: seq<Ray>, scene: Scene) returns (rays: seq<Ray>, iBounce: nat)
    requires DistinctPaths(paths) && |paths| == |launch|
    requires forall j :: 0 <= j < |paths| ==> paths[j].Valid()
    modifies paths
    ensures TimDone(paths, launch, scene, iBounce, rays, old(StatesOf(paths)))
  {
    ghost var olds := StatesOf(paths);
    rays := launch;
    iBounce := 0;
    while iBounce <= TimBounces
      invariant TimAt(paths, launch, scene, iBounce, rays, olds)
      invariant iBounce > 0 ==> rays != []
    {
      var newRayList := TimBounce(paths, launch, scene, iBounce, rays, olds);
      rays := newRayList;
      iBounce := iBounce + 1;
      if |newRayList| == 0 {
        return;
      }
    }
  }

  // ---------------------------------------------------------------------------
  // What the rounds do to a path
  // ---------------------------------------------------------------------------

  /** No batch after round `m` is longer than batch `m`. */
  lemma {:induction false} TimBatchesShrink(scene: Scene, launch: seq<Ray>, m: nat, i: nat)
    requires m <= i
    ensures |TimBatch(scene, launch, i)| <= |TimBatch(scene, launch, m)|
    decreases i - m
  {
    if m < i {
      TimBatchShrinks(scene, launch, m);
      TimBatchesShrink(scene, launch, m + 1, i);
    }
  }

  /** A path at a position past the end of batch `m` is never touched again. */
  lemma {:induction false} TimStaleOnceBeyondBatch(scene: Scene, launch: seq<Ray>, j: nat, s0: TimState, m: nat, i: nat)
    requires m <= i && j >= |TimBatch(scene, launch, m)|
    ensures TimRun(scene, launch, j, s0, i) == TimRun(scene, launch, j, s0, m)
    decreases i - m
  {
    if m < i {
      TimBatchShrinks(scene, launch, m);
      TimStaleOnceBeyondBatch(scene, launch, j, s0, m + 1, i);
    }
  }

  /**
   * `s` has grown from `s0` by at most `k` recorded segments, one bounce
   * each; its last surface is that of `s0` when nothing was recorded, and
   * otherwise a registered mesh.
   */
  ghost predicate TimGrown(scene: Scene, s0: TimState, s: TimState, k: nat) {
    && s0.rays <= s.rays && s0.lines <= s.lines
    && s0.nBounces <= s.nBounces <= s0.nBounces + k
    && s.nBounces - s0.nBounces == |s.rays| - |s0.rays| == |s.lines| - |s0.lines|
    && (s.nBounces == s0.nBounces ==> s.lastSurfaceId == s0.lastSurfaceId)
    && (s.nBounces != s0.nBounces ==> s.lastSurfaceId in scene.meshIds)
  }

  /** A round adds at most one segment to a path, on a registered mesh. */
  lemma TimAfterGrows(scene: Scene, rays: seq<Ray>, j: nat, s0: TimState, b: TimState, k: nat)
    requires WellFormed(scene) && TimGrown(scene, s0, b, k)
    ensures TimGrown(scene, s0, TimAfter(scene, rays, j, b), k + 1)
  {
    if j < |rays| && scene.cast(rays[j]).Hit? {
      assert scene.cast(rays[j]).meshId in scene.meshIds;
    }
  }

  /** One more round keeps a path grown from `s0`, by one more segment at most. */
  lemma TimGrownStep(scene: Scene, launch: seq<Ray>, j: nat, s0: TimState, k: nat)
    requires WellFormed(scene) && TimGrown(scene, s0, TimRun(scene, launch, j, s0, k), k)
    ensures TimGrown(scene, s0, TimRun(scene, launch, j, s0, k + 1), k + 1)
  {
    TimAfterGrows(scene, TimBatch(scene, launch, k), j, s0, TimRun(scene, launch, j, s0, k), k);
  }

  /**
   * The rounds only ever append segments, at most one per round; a path with
   * no new segment keeps its last surface, and one with a new segment ends on
   * a registered mesh.
   */
  lemma {:induction false} TimRunAppends(scene: Scene, launch: seq<Ray>, j: nat, s0: TimState, i: nat)
    requires WellFormed(scene)
    ensures TimGrown(scene, s0, TimRun(scene, launch, j, s0, i), i)
  {
    if i > 0 {
      var p := i - 1;
      TimRunAppends(scene, launch, j, s0, p);
      TimGrownStep(scene, launch, j, s0, p);
    }
  }

  // ---------------------------------------------------------------------------
  // Render and statistics
  // ---------------------------------------------------------------------------

  /** The render pass's relabelling: INVALID_ID becomes -1, any other id is kept. */
  function Relabelled(id: MeshId): MeshId {
    if id == InvalidId then InfId else id
  }

  /** A path after `apply_color(path.color)`. */
  function TimRepainted(b: TimState): TimState {
    b.(lines := RayPaths.Painted(b.lines, b.color))
  }

  /**
   * A path ends on the surface at infinity exactly when it never recorded a
   * segment; otherwise it ends on a registered mesh.
   */
  lemma TimFate(scene: Scene, launch: seq<Ray>, j: nat, i: nat)
    requires WellFormed(scene) && InfId !in scene.meshIds
    ensures var s := TimRun(scene, launch, j, Unlaunched, i);
            && (Relabelled(s.lastSurfaceId) == InfId <==> s.nBounces == 0)
            && (s.nBounces > 0 ==> Relabelled(s.lastSurfaceId) in scene.meshIds)
  {
    TimRunAppends(scene, launch, j, Unlaunched, i);
  }

  /**
   * The render pass: the relabelled last surface of every path, in path
   * order, with every path repainted in its own colour.
   */
  method TimLastSurfaces(paths: seq<RayPath>) returns (last: seq<MeshId>)
    requires DistinctPaths(paths)
    requires forall j :: 0 <= j < |paths| ==> paths[j].Valid()
    modifies paths
    ensures |last| == |paths|
    ensures forall j :: 0 <= j < |paths| ==> last[j] == Relabelled(old(paths[j].lastSurfaceId))
    ensures forall j :: 0 <= j < |paths| ==> paths[j].Valid() && paths[j].State() == TimRepainted(old(paths[j].State()))
  {
    ghost var olds := StatesOf(paths);
    last := [];
    for i := 0 to |paths|
      invariant |last| == i
      invariant forall j :: 0 <= j < i ==> last[j] == Relabelled(olds[j].lastSurfaceId)
      invariant forall j :: 0 <= j < |paths| ==>
                  && paths[j].Valid()
                  && paths[j].State() == if j < i then TimRepainted(olds[j]) else olds[j]
    {
      var path := paths[i];
      var surfId;
      if path.lastSurfaceId == InvalidId {
        surfId := InfId;
      } else {
        surfId := path.lastSurfaceId;
      }
      last := last + [surfId];
      TimRenderPath(paths, i);
    }
  }

  /** The render pass on path `i`: `apply_color(path.color)`. */
  method TimRenderPath(paths: seq<RayPath>, i: nat)
    requires DistinctPaths(paths) && i < |paths| && paths[i].Valid()
    modifies paths[i]
    ensures paths[i].Valid() && paths[i].State() == TimRepainted(old(paths[i].State()))
    ensures forall j :: 0 <= j < |paths| && j != i ==> paths[j].State() == old(paths[j].State())
  {
    var path := paths[i];
    path.ApplyColor(path.color);
  }

  /**
   * The labels of the script: with `mesh_ids = [-1] + ids`, one name per id,
   * and every last surface -1 or registered, each bar is found in the table
   * and named by its surface: `TimNames[0]` ("inf") for -1, `TimNames[i + 1]`
   * for `ids[i]`.
   */
  lemma TimLabelsNamed(ids: seq<MeshId>, last: seq<MeshId>)
    requires |ids| + 1 == |TimNames| && Distinct([InfId] + ids)
    requires forall x :: x in last ==> x == InfId || x in ids
    ensures NameTable(InfId, ids, TimNames).Some?
    ensures var labels := Labels(NameTable(InfId, ids, TimNames).value, Unique(last));
            && labels.Some? && |labels.value| == |Unique(last)|
            && forall k :: 0 <= k < |Unique(last)| ==>
                 && (Unique(last)[k].id == InfId ==> labels.value[k] == TimNames[0])
                 && forall i :: 0 <= i < |ids| && Unique(last)[k].id == ids[i] ==> labels.value[k] == TimNames[i + 1]
  {
    NameTableAligned(InfId, ids, TimNames);
    var table := NameTable(InfId, ids, TimNames).value;
    var bins := Unique(last);
    UniqueBins(last);
    forall k | 0 <= k < |bins|
      ensures bins[k].id in table
    {
      assert bins[k].id in last;
      if bins[k].id != InfId {
        var i :| 0 <= i < |ids| && ids[i] == bins[k].id;
      }
    }
    LabelsDefined(table, bins);
  }

  /** After the rounds from new paths, every path ends relabelled on -1 or on a registered mesh. */
  lemma TimEnds(paths: seq<RayPath>, launch: seq<Ray>, scene: Scene, iBounce: nat, rays: seq<Ray>, olds: seq<TimState>)
    requires WellFormed(scene) && InfId !in scene.meshIds
    requires TimDone(paths, launch, scene, iBounce, rays, olds)
    requires forall j :: 0 <= j < |olds| ==> olds[j] == Unlaunched
    ensures forall j :: 0 <= j < |paths| ==>
              && paths[j].Valid()
              && paths[j].lastSurfaceId == TimRun(scene, launch, j, Unlaunched, iBounce).lastSurfaceId
              && (Relabelled(paths[j].lastSurfaceId) == InfId || Relabelled(paths[j].lastSurfaceId) in scene.meshIds)
  {
    forall j | 0 <= j < |paths|
      ensures paths[j].lastSurfaceId == TimRun(scene, launch, j, Unlaunched, iBounce).lastSurfaceId
      ensures Relabelled(paths[j].lastSurfaceId) == InfId || Relabelled(paths[j].lastSurfaceId) in scene.meshIds
    {
      assert olds[j] == Unlaunched;
      TimFate(scene, launch, j, iBounce);
    }
  }

  /** Tracing and the render pass: a path per launch ray, the rounds, then the relabelled last surfaces. */
  method TraceTimLastSurfaces(scene: Scene, launch: seq<Ray>) returns (iBounce: nat, last: seq<MeshId>)
    requires WellFormed(scene) && InfId !in scene.meshIds
    ensures 0 < iBounce <= TimBounces + 1 && |last| == |launch|
    ensures forall j :: 0 <= j < |launch| ==>
              last[j] == Relabelled(TimRun(scene, launch, j, Unlaunched, iBounce).lastSurfaceId)
    ensures forall x :: x in last ==> x == InfId || x in scene.meshIds
  {
    var paths := StartPaths(|launch|);
    ghost var olds := StatesOf(paths);
    var rays;
    rays, iBounce := TraceTim(paths, launch, scene);
    TimEnds(paths, launch, scene, iBounce, rays, olds);
    last := TimLastSurfaces(paths);
  }

  /**
   * The whole script up to the bar charts: the 100000-ray bundle, the
   * rounds, the relabelled last surfaces, and the bars of `np.unique` with
   * their fractions of the launched rays and their labels.
   */
  method RunTim(scene: Scene, ids: seq<MeshId>, xflat: seq<real>, yflat: seq<real>, rotate: (nat, Vec3) -> Vec3)
      returns (launch: seq<Ray>, iBounce: nat, last: seq<MeshId>, bars: seq<Bin>, fractions: seq<real>,
               labels: seq<string>)
    requires WellFormed(scene)
    requires |xflat| == |yflat| == TimOrigins
    requires |ids| + 1 == |TimNames| && Distinct([InfId] + ids)
    requires forall m :: m in scene.meshIds ==> m in ids
    ensures launch == RaySets.SectorRays(xflat, yflat, TimBundleSide * TimBundleSide, rotate, scene.invNorm, TimOrigins)
    ensures |launch| == 100000 && 0 < iBounce <= TimBounces + 1 && |last| == |launch|
    ensures forall j :: 0 <= j < |launch| ==>
              last[j] == Relabelled(TimRun(scene, launch, j, Unlaunched, iBounce).lastSurfaceId)
    ensures bars == Unique(last) && SumCounts(bars) == |launch|
    ensures forall y :: CountIn(bars, y) == Count(last, y)
    ensures fractions == Fractions(bars, |launch|) && SumReals(fractions) == 1.0
    ensures Some(labels) == Labels(NameTable(InfId, ids, TimNames).value, bars) && |labels| == |bars|
  {
    HeadNotInTail(InfId, ids);
    var nRays;
    launch, nRays := TimBundle(xflat, yflat, rotate, scene.invNorm);
    iBounce, last := TraceTimLastSurfaces(scene, launch);
    bars := Unique(last);
    FractionsTotal(bars, nRays);
    fractions := Fractions(bars, nRays);
    TimLabelsFromScene(scene, ids, last);
    labels := Labels(NameTable(InfId, ids, TimNames).value, bars).value;
  }

  /** With distinct ids, the sentinel at the head is none of the ids after it. */
  lemma HeadNotInTail(sentinel: MeshId, ids: seq<MeshId>)
    requires Distinct([sentinel] + ids)
    ensures sentinel !in ids
  {
    forall i | 0 <= i < |ids|
      ensures ids[i] != sentinel
    {
      assert ([sentinel] + ids)[0] == sentinel && ([sentinel] + ids)[i + 1] == ids[i];
    }
  }

  /** The labels of the script exist for the last surfaces of any run. */
  lemma TimLabelsFromScene(scene: Scene, ids: seq<MeshId>, last: seq<MeshId>)
    requires |ids| + 1 == |TimNames| && Distinct([InfId] + ids)
    requires forall m :: m in scene.meshIds ==> m in ids
    requires forall x :: x in last ==> x == InfId || x in scene.meshIds
    ensures NameTable(InfId, ids, TimNames).Some?
    ensures Labels(NameTable(InfId, ids, TimNames).value, Unique(last)).Some?
    ensures |Labels(NameTable(InfId, ids, TimNames).value, Unique(last)).value| == |Unique(last)|
  {
    TimLabelsNamed(ids, last);
  }
}
