/**
 * The single fan run of scoop_raytrace/raytrace.py: every launch ray gets a
 * path, then up to 51 rounds each cast the current batch, drop hits whose
 * backed-off end point lies inside a mesh, record a segment for every other
 * hit, stop at absorbers and reflect the rest into the next batch. A final
 * pass collects the last surface of every path for the "Ray Fates" bars.
 *
 * Two behaviours of the script are kept as written:
 *  - a hit of batch row `i` is recorded on `paths[i]`, the path at the same
 *    batch POSITION, although after the first round the batch is compacted
 *    and row `i` in general belongs to a later path (see `StaleOnceBeyondBatch`);
 *  - the hit is dropped (`continue`) whenever the end point has a negative
 *    signed distance, so the backward adjustment loop that follows only ever
 *    runs with a non-negative distance and never iterates (see `AdjustBackward`).
 */
module Raytrace {
  import opened Vectors
  import opened Optics
  import opened Scenes
  import opened Histogram
  import opened RayPaths
  import opened RaySets

  /** `N_bounces`: the loop runs while `i_bounce <= 50`, so at most 51 rounds. */
  const FanBounces: nat := 50

  /** `maxtries` of the backward adjustment. */
  const MaxTries: nat := 50000

  /** `adjust_step` of the backward adjustment. */
  const AdjustStep: real := 1e-6

  // ---------------------------------------------------------------------------
  // One hit row
  // ---------------------------------------------------------------------------

  /** The row's ray with its direction normalised (`this_ray[v_] /= norm`). */
  function Normalized(scene: Scene, r: Ray): Ray {
    Ray(r.origin, Normalize(scene, r.dir))
  }

  /** `end[u_] = this_ray[u_] + this_ray[v_] * (dist - 1e-6)`. */
  function BackedOffEnd(scene: Scene, r: Ray, h: Hit): Vec3
    requires h.Hit?
  {
    PointAt(r.origin, Normalize(scene, r.dir), h.t - BackOff)
  }

  /** The hit is dropped when the backed-off end point lies inside a mesh. */
  predicate Dropped(scene: Scene, r: Ray, h: Hit)
    requires h.Hit?
  {
    scene.sceneSd(BackedOffEnd(scene, r, h)) < 0.0
  }

  /**
   * What a hit row does to the path it is recorded on: nothing when it is
   * dropped; otherwise one segment from the origin to the backed-off end
   * point, carrying the mesh id, and the mesh colour when the mesh absorbs.
   */
  function FanHitState(scene: Scene, r: Ray, h: Hit, b: PathState): PathState
    requires h.Hit?
  {
    if Dropped(scene, r, h) then b
    else
      var end := BackedOffEnd(scene, r, h);
      var a := b.(rays := b.rays + [Normalized(scene, r)], nBounces := b.nBounces + 1,
                  surfacesHit := b.surfacesHit + [h.meshId], lastPos := At(end),
                  lines := b.lines + [Line(r.origin, end, None)]);
      if h.meshId in scene.absorbers then a.(color := scene.color(h.meshId)) else a
  }

  /**
   * The ray a hit row adds to the next batch: none when dropped or absorbed;
   * otherwise one ray from the hit point itself (`dist`, not `dist - 1e-6`)
   * along the reflected direction.
   */
  function FanNextRay(scene: Scene, r: Ray, h: Hit): Option<Ray>
    requires h.Hit?
  {
    if Dropped(scene, r, h) || h.meshId in scene.absorbers then None
    else
      var v := Normalize(scene, r.dir);
      Some(Ray(PointAt(r.origin, v, h.t), NewDirection(v, h.normal, scene.invNorm)))
  }

  /**
   * The backward adjustment (`while signed_dist < 0 and maxtries > 0`): each
   * try moves the end point back by `adjust_step` and measures again. Entered
   * with a non-negative distance it does nothing and leaves all 50000 tries;
   * otherwise it runs at most 50000 times, and tries left over mean that the
   * point is outside.
   */
  method AdjustBackward(scene: Scene, thisRay: Ray, dist0: real, end0: Vec3, signedDist0: real)
      returns (dist: real, end: Vec3, signedDist: real, maxtries: nat)
    ensures maxtries <= MaxTries
    ensures signedDist0 >= 0.0 ==> dist == dist0 && end == end0 && signedDist == signedDist0 && maxtries == MaxTries
    ensures maxtries > 0 ==> signedDist >= 0.0
    ensures maxtries < MaxTries ==>
              && dist == dist0 - (MaxTries - maxtries) as real * AdjustStep
              && end == PointAt(thisRay.origin, thisRay.dir, dist)
              && signedDist == scene.sceneSd(end)
  {
    dist, end, signedDist := dist0, end0, signedDist0;
    maxtries := MaxTries;
    ghost var tries: nat := 0;
    while signedDist < 0.0 && maxtries > 0
      invariant maxtries + tries == MaxTries
      invariant dist == dist0 - tries as real * AdjustStep
      invariant signedDist0 >= 0.0 ==> tries == 0 && end == end0 && signedDist == signedDist0
      invariant tries > 0 ==> end == PointAt(thisRay.origin, thisRay.dir, dist) && signedDist == scene.sceneSd(end)
      decreases maxtries
    {
      maxtries := maxtries - 1;
      tries := tries + 1;
      dist := dist - AdjustStep;
      end := PointAt(thisRay.origin, thisRay.dir, dist);
      signedDist := scene.sceneSd(end);
    }
  }

  /** The body of the hit loop for one row, recorded on `path`. */
  method FanHit(path: RayPath, ray: Ray, hit: Hit, scene: Scene) returns (next: Option<Ray>)
    requires path.Valid() && hit.Hit?
    modifies path
    ensures path.Valid()
    ensures path.State() == FanHitState(scene, ray, hit, old(path.State()))
    ensures next == FanNextRay(scene, ray, hit)
  {
    var thisRay := Ray(ray.origin, Normalize(scene, ray.dir));
    var dist := hit.t;
    var end := Ray(PointAt(thisRay.origin, thisRay.dir, dist - BackOff), thisRay.dir);
    var signedDist := scene.sceneSd(end.origin);
    if signedDist < 0.0 {
      return None;
    }
    var endPos, maxtries;
    dist, endPos, signedDist, maxtries := AdjustBackward(scene, thisRay, dist, end.origin, signedDist);
    end := end.(origin := endPos);
    if maxtries < 1 {
      return None;
    }
    path.Append(thisRay, end, hit.meshId);
    if hit.meshId in scene.absorbers {
      path.color := scene.color(hit.meshId);
      return None;
    }
    var nhat := hit.normal;
    var vhatNew := NewDirection(thisRay.dir, nhat, scene.invNorm);
    var posNew := PointAt(thisRay.origin, thisRay.dir, dist);
    next := Some(Ray(posNew, vhatNew));
  }

  // ---------------------------------------------------------------------------
  // One round
  // ---------------------------------------------------------------------------

  /** The rays the hit rows `mask` add to the next batch, in row order. */
  function Harvest(scene: Scene, rays: seq<Ray>, mask: seq<nat>): seq<Ray>
    requires forall q :: 0 <= q < |mask| ==> mask[q] < |rays| && scene.cast(rays[mask[q]]).Hit?
  {
    if mask == [] then []
    else
      var n := |mask| - 1;
      var r := rays[mask[n]];
      var next := FanNextRay(scene, r, scene.cast(r));
      Harvest(scene, rays, mask[..n]) + (if next.Some? then [next.value] else [])
  }

  /** `new_ray_list` of a round: what the hit rows of the batch add, in row order. */
  function NextBatch(scene: Scene, rays: seq<Ray>): seq<Ray> {
    Harvest(scene, rays, Rows(CastAll(scene, rays), true))
  }

  /** The state of path `j` after a round over `rays`: only a hit in row `j` touches it. */
  function FanAfter(scene: Scene, rays: seq<Ray>, j: nat, b: PathState): PathState {
    if j < |rays| && scene.cast(rays[j]).Hit? then FanHitState(scene, rays[j], scene.cast(rays[j]), b) else b
  }

  /**
   * The hit loop after `k` hit rows: the rays collected so far, the rows
   * handled (`done`), and every path either rounded off or still as it was.
   */
  ghost predicate RoundAt(paths: seq<RayPath>, rays: seq<Ray>, scene: Scene, hitMask: seq<nat>, k: nat,
                          done: set<nat>, newRayList: seq<Ray>, olds: seq<PathState>)
    reads paths
  {
    && hitMask == Rows(CastAll(scene, rays), true) && k <= |hitMask| && |olds| == |paths|
    && newRayList == Harvest(scene, rays, hitMask[..k])
    && (forall j :: j in done <==> exists q :: 0 <= q < k && hitMask[q] == j)
    && forall j :: 0 <= j < |paths| ==>
         && paths[j].Valid()
         && paths[j].State() == if j in done then FanAfter(scene, rays, j, olds[j]) else olds[j]
  }

  /**
   * One round: cast the batch, then for every hit row `i_hit` in order, handle
   * it on `paths[i_hit]` and collect the ray it adds.
   */
  method FanRound(paths: seq<RayPath>, rays: seq<Ray>, scene: Scene) returns (newRayList: seq<Ray>)
    requires DistinctPaths(paths) && |rays| <= |paths|
    requires forall j :: 0 <= j < |paths| ==> paths[j].Valid()
    modifies paths
    ensures newRayList == NextBatch(scene, rays)
    ensures forall j :: 0 <= j < |paths| ==>
              paths[j].Valid() && paths[j].State() == FanAfter(scene, rays, j, old(paths[j].State()))
  {
    ghost var olds := StatesOf(paths);
    var ans := CastAll(scene, rays);
    var hitMask := Rows(ans, true);
    newRayList := [];
    ghost var done: set<nat> := {};
    for k := 0 to |hitMask|
      invariant RoundAt(paths, rays, scene, hitMask, k, done, newRayList, olds)
    {
      newRayList := FanStep(paths, rays, scene, ans, hitMask, k, done, newRayList, olds);
      done := done + {hitMask[k]};
    }
    RoundDone(paths, rays, scene, hitMask, done, newRayList, olds);
  }

  /** One pass of the hit loop: row `hitMask[k]` handled on the path at that position. */
  method FanStep(paths: seq<RayPath>, rays: seq<Ray>, scene: Scene, ans: seq<Hit>, hitMask: seq<nat>, k: nat,
                 ghost done: set<nat>, newRayList: seq<Ray>, ghost olds: seq<PathState>)
      returns (newRayList2: seq<Ray>)
    requires DistinctPaths(paths) && |rays| <= |paths| && k < |hitMask| && ans == CastAll(scene, rays)
    requires RoundAt(paths, rays, scene, hitMask, k, done, newRayList, olds)
    modifies paths
    ensures RoundAt(paths, rays, scene, hitMask, k + 1, done + {hitMask[k]}, newRayList2, olds)
  {
    var iHit := hitMask[k];
    assert iHit !in done;
    var next := FanRow(paths, rays, scene, iHit, ans[iHit], done);
    HarvestStep(scene, rays, hitMask, k);
    newRayList2 := newRayList;
    if next.Some? {
      newRayList2 := newRayList2 + [next.value];
    }
    DoneStep(hitMask, k, done);
  }

  /** After the last hit row, every path has had its round and the collected rays are the next batch. */
  lemma RoundDone(paths: seq<RayPath>, rays: seq<Ray>, scene: Scene, hitMask: seq<nat>,
                  done: set<nat>, newRayList: seq<Ray>, olds: seq<PathState>)
    requires RoundAt(paths, rays, scene, hitMask, |hitMask|, done, newRayList, olds)
    ensures newRayList == NextBatch(scene, rays)
    ensures forall j :: 0 <= j < |paths| ==>
              paths[j].Valid() && paths[j].State() == FanAfter(scene, rays, j, olds[j])
  {
    assert hitMask[..|hitMask|] == hitMask;
    HitRowsDone(CastAll(scene, rays), hitMask, done);
  }

  /** Handling row `mask[k]` extends the harvest of the rows before it. */
  lemma HarvestStep(scene: Scene, rays: seq<Ray>, mask: seq<nat>, k: nat)
    requires k < |mask|
    requires forall q :: 0 <= q < |mask| ==> mask[q] < |rays| && scene.cast(rays[mask[q]]).Hit?
    ensures var next := FanNextRay(scene, rays[mask[k]], scene.cast(rays[mask[k]]));
            Harvest(scene, rays, mask[..k + 1]) == Harvest(scene, rays, mask[..k]) + (if next.Some? then [next.value] else [])
  {
    assert mask[..k + 1][..k] == mask[..k];
  }

  /** The rows handled after step `k` of the hit loop. */
  lemma DoneStep(mask: seq<nat>, k: nat, done: set<nat>)
    requires k < |mask|
    requires forall j :: j in done <==> exists q :: 0 <= q < k && mask[q] == j
    ensures forall j :: j in done + {mask[k]} <==> exists q :: 0 <= q < k + 1 && mask[q] == j
  {
  }

  /** Once the hit loop has run, every hit row has been handled. */
  lemma HitRowsDone(ans: seq<Hit>, hitMask: seq<nat>, done: set<nat>)
    requires hitMask == Rows(ans, true)
    requires forall j :: j in done <==> exists q :: 0 <= q < |hitMask| && hitMask[q] == j
    ensures forall j :: 0 <= j < |ans| && ans[j].Hit? ==> j in done
  {
    forall j | 0 <= j < |ans| && ans[j].Hit?
      ensures j in done
    {
      assert j in hitMask;
    }
  }

  /** Row `iHit` of the hit loop, handled on `paths[iHit]`. */
  method FanRow(paths: seq<RayPath>, rays: seq<Ray>, scene: Scene, iHit: nat, hit: Hit, ghost done: set<nat>)
      returns (next: Option<Ray>)
    requires DistinctPaths(paths) && |rays| <= |paths| && iHit < |rays| && iHit !in done
    requires hit == scene.cast(rays[iHit]) && hit.Hit?
    requires forall j :: 0 <= j < |paths| ==> paths[j].Valid()
    modifies paths[iHit]
    ensures next == FanNextRay(scene, rays[iHit], hit)
    ensures forall j :: 0 <= j < |paths| ==> paths[j].Valid()
    ensures paths[iHit].State() == FanAfter(scene, rays, iHit, old(paths[iHit].State()))
    ensures forall j :: 0 <= j < |paths| && j != iHit ==> paths[j].State() == old(paths[j].State())
  {
    var thisPath := paths[iHit];
    next := FanHit(thisPath, rays[iHit], hit, scene);
  }

  // ---------------------------------------------------------------------------
  // All rounds
  // ---------------------------------------------------------------------------

  /** The batch after `i` rounds. */
  function Batch(scene: Scene, launch: seq<Ray>, i: nat): seq<Ray> {
    if i == 0 then launch else NextBatch(scene, Batch(scene, launch, i - 1))
  }

  /** The state of path `j` after `i` rounds, from `s0`. */
  function FanRun(scene: Scene, launch: seq<Ray>, j: nat, s0: PathState, i: nat): PathState {
    if i == 0 then s0 else FanAfter(scene, Batch(scene, launch, i - 1), j, FanRun(scene, launch, j, s0, i - 1))
  }

  /** A round adds at most one ray per hit row, so no batch is longer than the launch set. */
  lemma {:induction false} HarvestShorter(scene: Scene, rays: seq<Ray>, mask: seq<nat>)
    requires forall q :: 0 <= q < |mask| ==> mask[q] < |rays| && scene.cast(rays[mask[q]]).Hit?
    ensures |Harvest(scene, rays, mask)| <= |mask|
  {
    if mask != [] {
      HarvestShorter(scene, rays, mask[..|mask| - 1]);
    }
  }

  /**
   * Row `k` of a round's harvest continues the ray of a hit row at batch
   * position `m >= k`: the harvest keeps the order of the hit rows and skips
   * the absorbed ones.
   */
  lemma {:induction false} HarvestSources(scene: Scene, rays: seq<Ray>, mask: seq<nat>, k: nat)
    requires forall q :: 0 <= q < |mask| ==> q <= mask[q] < |rays| && scene.cast(rays[mask[q]]).Hit?
    requires k < |Harvest(scene, rays, mask)|
    ensures exists q :: k <= q < |mask| && k <= mask[q] &&
              FanNextRay(scene, rays[mask[q]], scene.cast(rays[mask[q]])) == Some(Harvest(scene, rays, mask)[k])
  {
    var n := |mask| - 1;
    var prefix := mask[..n];
    HarvestShorter(scene, rays, prefix);
    if k < |Harvest(scene, rays, prefix)| {
      HarvestSources(scene, rays, prefix, k);
      var q :| k <= q < |prefix| && k <= prefix[q] &&
               FanNextRay(scene, rays[prefix[q]], scene.cast(rays[prefix[q]])) == Some(Harvest(scene, rays, prefix)[k]);
      assert prefix[q] == mask[q];
    } else {
      assert k <= n && k <= mask[n];
    }
  }

  /**
   * Ray `k` of the next batch is the continuation of the ray at some position
   * `m >= k` of this batch, yet the next round records its hit on `paths[k]`:
   * once a row before it is absorbed, a continued ray is credited to a path
   * of lower index than the one it came from.
   */
  lemma NextBatchSources(scene: Scene, rays: seq<Ray>, k: nat)
    requires k < |NextBatch(scene, rays)|
    ensures exists m :: k <= m < |rays| && scene.cast(rays[m]).Hit? &&
              FanNextRay(scene, rays[m], scene.cast(rays[m])) == Some(NextBatch(scene, rays)[k])
  {
    var mask := Rows(CastAll(scene, rays), true);
    HarvestSources(scene, rays, mask, k);
    var q :| k <= q < |mask| && k <= mask[q] &&
             FanNextRay(scene, rays[mask[q]], scene.cast(rays[mask[q]])) == Some(Harvest(scene, rays, mask)[k]);
    assert k <= mask[q] < |rays|;
  }

  /** A round over an empty batch casts nothing, so an empty batch stays empty. */
  lemma {:induction false} EmptyStaysEmpty(scene: Scene, launch: seq<Ray>, i: nat, n: nat)
    requires i <= n && Batch(scene, launch, i) == []
    ensures Batch(scene, launch, n) == []
    decreases n - i
  {
    if i < n {
      NextOfEmpty(scene);
      BatchStep(scene, launch, i);
      EmptyStaysEmpty(scene, launch, i + 1, n);
    }
  }

  lemma NextOfEmpty(scene: Scene)
    ensures NextBatch(scene, []) == []
  {
  }

  lemma BatchStep(scene: Scene, launch: seq<Ray>, i: nat)
    ensures Batch(scene, launch, i + 1) == NextBatch(scene, Batch(scene, launch, i))
  {
  }

  lemma BatchShrinks(scene: Scene, launch: seq<Ray>, i: nat)
    ensures |Batch(scene, launch, i + 1)| <= |Rows(CastAll(scene, Batch(scene, launch, i)), true)|
    ensures |Batch(scene, launch, i + 1)| <= |Batch(scene, launch, i)|
  {
    var rays := Batch(scene, launch, i);
    HarvestShorter(scene, rays, Rows(CastAll(scene, rays), true));
  }

  /** The fan loop after `iBounce` rounds, from the path states `olds`. */
  ghost predicate FanAt(paths: seq<RayPath>, launch: seq<Ray>, scene: Scene, iBounce: nat, rays: seq<Ray>,
                        olds: seq<PathState>)
    reads paths
  {
    && |olds| == |paths| && iBounce <= FanBounces + 1
    && rays == Batch(scene, launch, iBounce) && |rays| <= |paths|
    && (iBounce > 1 ==> Batch(scene, launch, iBounce - 1) != [])
    && forall j :: 0 <= j < |paths| ==>
         paths[j].Valid() && paths[j].State() == FanRun(scene, launch, j, olds[j], iBounce)
  }

  /** One pass of the bounce loop: a round over the current batch. */
  method FanBounce(paths: seq<RayPath>, launch: seq<Ray>, scene: Scene, iBounce: nat, rays: seq<Ray>,
                   ghost olds: seq<PathState>)
      returns (newRayList: seq<Ray>)
    requires DistinctPaths(paths) && iBounce <= FanBounces && (iBounce > 0 ==> rays != [])
    requires FanAt(paths, launch, scene, iBounce, rays, olds)
    modifies paths
    ensures FanAt(paths, launch, scene, iBounce + 1, newRayList, olds)
  {
    ghost var pre := StatesOf(paths);
    newRayList := FanRound(paths, rays, scene);
    BounceDone(paths, launch, scene, iBounce, rays, newRayList, olds, pre);
  }

  /** A round over batch `iBounce` takes every path from `FanRun` at `iBounce` to `FanRun` at `iBounce + 1`. */
  lemma BounceDone(paths: seq<RayPath>, launch: seq<Ray>, scene: Scene, iBounce: nat, rays: seq<Ray>,
                   newRayList: seq<Ray>, olds: seq<PathState>, pre: seq<PathState>)
    requires iBounce <= FanBounces && (iBounce > 0 ==> rays != [])
    requires |olds| == |paths| && |pre| == |paths| && |rays| <= |paths|
    requires rays == Batch(scene, launch, iBounce) && newRayList == NextBatch(scene, rays)
    requires forall j :: 0 <= j < |paths| ==> pre[j] == FanRun(scene, launch, j, olds[j], iBounce)
    requires forall j :: 0 <= j < |paths| ==>
               paths[j].Valid() && paths[j].State() == FanAfter(scene, rays, j, pre[j])
    ensures FanAt(paths, launch, scene, iBounce + 1, newRayList, olds)
  {
    BatchShrinks(scene, launch, iBounce);
    assert newRayList == Batch(scene, launch, iBounce + 1);
    forall j | 0 <= j < |paths|
      ensures paths[j].State() == FanRun(scene, launch, j, olds[j], iBounce + 1)
    {
    }
  }

  /**
   * Where the rounds of the fan run stop: after at least one and at most 51
   * rounds, with an empty batch unless all 51 were run.
   */
  ghost predicate FanDone(paths: seq<RayPath>, launch: seq<Ray>, scene: Scene, iBounce: nat, rays: seq<Ray>,
                          olds: seq<PathState>)
    reads paths
  {
    && 0 < iBounce <= FanBounces + 1
    && FanAt(paths, launch, scene, iBounce, rays, olds)
    && (iBounce <= FanBounces ==> rays == [])
  }

  /**
   * The rounds of the fan run: at most 51, leaving as soon as a round adds no
   * ray. Every path ends in the state the rounds give it.
   */
  method TraceFan(paths: seq<RayPath>, launch: seq<Ray>, scene: Scene) returns (rays: seq<Ray>, iBounce: nat)
    requires DistinctPaths(paths) && |paths| == |launch|
    requires forall j :: 0 <= j < |paths| ==> paths[j].Valid()
    modifies paths
    ensures FanDone(paths, launch, scene, iBounce, rays, old(StatesOf(paths)))
  {
    ghost var olds := StatesOf(paths);
    rays := launch;
    iBounce := 0;
    while iBounce <= FanBounces
      invariant FanAt(paths, launch, scene, iBounce, rays, olds)
      invariant iBounce > 0 ==> rays != []
    {
      var newRayList := FanBounce(paths, launch, scene, iBounce, rays, olds);
      rays := newRayList;
      iBounce := iBounce + 1;
      if |newRayList| == 0 {
        return;
      }
    }
  }

  // ---------------------------------------------------------------------------
  // What the rounds do to a path
  // ---------------------------------------------------------------------------

  /** No batch after round `m` is longer than batch `m`. */
  lemma {:induction false} BatchesShrink(scene: Scene, launch: seq<Ray>, m: nat, i: nat)
    requires m <= i
    ensures |Batch(scene, launch, i)| <= |Batch(scene, launch, m)|
    decreases i - m
  {
    if m < i {
      BatchShrinks(scene, launch, m);
      BatchesShrink(scene, launch, m + 1, i);
    }
  }

  /**
   * A path at a position past the end of batch `m` is never touched again:
   * no later batch has a row there.
   */
  lemma {:induction false} StaleOnceBeyondBatch(scene: Scene, launch: seq<Ray>, j: nat, s0: PathState, m: nat, i: nat)
    requires m <= i && j >= |Batch(scene, launch, m)|
    ensures FanRun(scene, launch, j, s0, i) == FanRun(scene, launch, j, s0, m)
    decreases i - m
  {
    if m < i {
      BatchShrinks(scene, launch, m);
      StaleOnceBeyondBatch(scene, launch, j, s0, m + 1, i);
    }
  }

  /**
   * A launch ray that hits nothing, at a position past the first round's
   * batch, leaves its path in the launch state for good: its last surface
   * stays INVALID_ID.
   */
  lemma MissedLaunchStaysLaunched(scene: Scene, launch: seq<Ray>, j: nat, i: nat)
    requires j < |launch| && scene.cast(launch[j]).Miss? && j >= |Batch(scene, launch, 1)| && i >= 1
    ensures FanRun(scene, launch, j, Launched(launch[j]), i) == Launched(launch[j])
    ensures Last(FanRun(scene, launch, j, Launched(launch[j]), i).surfacesHit) == InvalidId
  {
    StaleOnceBeyondBatch(scene, launch, j, Launched(launch[j]), 1, i);
  }

  /**
   * `s` has grown from `s0` by at most `k` recorded segments, each with one
   * bounce and a registered mesh, and kept the surfaces of `s0` as a prefix.
   */
  ghost predicate Grown(scene: Scene, s0: PathState, s: PathState, k: nat) {
    && s0.surfacesHit <= s.surfacesHit
    && |s.surfacesHit| <= |s0.surfacesHit| + k
    && s.nBounces - s0.nBounces == |s.surfacesHit| - |s0.surfacesHit|
    && forall q :: |s0.surfacesHit| <= q < |s.surfacesHit| ==> s.surfacesHit[q] in scene.meshIds
  }

  /** A round adds at most one segment to a path, on a registered mesh. */
  lemma AfterGrows(scene: Scene, rays: seq<Ray>, j: nat, s0: PathState, b: PathState, k: nat)
    requires WellFormed(scene) && Grown(scene, s0, b, k)
    ensures Grown(scene, s0, FanAfter(scene, rays, j, b), k + 1)
  {
    if j < |rays| && scene.cast(rays[j]).Hit? {
      assert scene.cast(rays[j]).meshId in scene.meshIds;
    }
  }

  lemma {:induction false} GrownFrom(scene: Scene, launch: seq<Ray>, j: nat, s0: PathState, k: nat, i: nat)
    requires WellFormed(scene) && k <= i && Grown(scene, s0, FanRun(scene, launch, j, s0, k), k)
    ensures Grown(scene, s0, FanRun(scene, launch, j, s0, i), i)
    decreases i - k
  {
    if k < i {
      AfterGrows(scene, Batch(scene, launch, k), j, s0, FanRun(scene, launch, j, s0, k), k);
      GrownFrom(scene, launch, j, s0, k + 1, i);
    }
  }

  /**
   * The rounds only ever append: the surfaces of `s0` stay a prefix, each
   * round adds at most one surface and one bounce, and every surface added
   * is a registered mesh.
   */
  lemma FanRunAppends(scene: Scene, launch: seq<Ray>, j: nat, s0: PathState, i: nat)
    requires WellFormed(scene)
    ensures Grown(scene, s0, FanRun(scene, launch, j, s0, i), i)
  {
    GrownFrom(scene, launch, j, s0, 0, i);
  }

  /** Every path of the fan run ends on INVALID_ID or on a registered mesh. */
  lemma FanLastNamed(scene: Scene, launch: seq<Ray>, j: nat, i: nat)
    requires WellFormed(scene) && j < |launch|
    ensures var s := FanRun(scene, launch, j, Launched(launch[j]), i);
            s.surfacesHit != [] && (Last(s.surfacesHit) == InvalidId || Last(s.surfacesHit) in scene.meshIds)
  {
    FanRunAppends(scene, launch, j, Launched(launch[j]), i);
    var s := FanRun(scene, launch, j, Launched(launch[j]), i);
    if |s.surfacesHit| == 1 {
      assert [InvalidId] <= s.surfacesHit;
    }
  }

  // ---------------------------------------------------------------------------
  // Render and statistics
  // ---------------------------------------------------------------------------

  /**
   * The render pass: the last surface of every path, in path order, with
   * every path repainted in its own colour (`apply_color(path.color)`).
   */
  method LastSurfaces(paths: seq<RayPath>) returns (last: seq<MeshId>)
    requires DistinctPaths(paths)
    requires forall j :: 0 <= j < |paths| ==> paths[j].Valid() && paths[j].surfacesHit != []
    modifies paths
    ensures |last| == |paths|
    ensures forall j :: 0 <= j < |paths| ==> last[j] == Last(old(paths[j].surfacesHit))
    ensures forall j :: 0 <= j < |paths| ==> paths[j].Valid() && paths[j].State() == Repainted(old(paths[j].State()))
  {
    ghost var olds := StatesOf(paths);
    last := [];
    for i := 0 to |paths|
      invariant |last| == i
      invariant forall j :: 0 <= j < i ==> last[j] == Last(olds[j].surfacesHit)
      invariant forall j :: 0 <= j < |paths| ==>
                  && paths[j].Valid()
                  && paths[j].State() == if j < i then Repainted(olds[j]) else olds[j]
    {
      last := last + [Last(paths[i].surfacesHit)];
      RenderPath(paths, i);
    }
  }

  /** The render pass on path `i`: `apply_color(path.color)`. */
  method RenderPath(paths: seq<RayPath>, i: nat)
    requires DistinctPaths(paths) && i < |paths| && paths[i].Valid()
    modifies paths[i]
    ensures paths[i].Valid() && paths[i].State() == Repainted(old(paths[i].State()))
    ensures forall j :: 0 <= j < |paths| && j != i ==> paths[j].State() == old(paths[j].State())
  {
    var path := paths[i];
    path.ApplyColor(path.color);
    assert path.lines == Painted(old(path.lines), path.color);
  }

  /** `surf_ids` and `counts` of the fan run: `np.unique` of the last surfaces, INVALID_ID then renamed -1. */
  function FanBars(last: seq<MeshId>): seq<Bin> {
    Relabel(Unique(last), InvalidId, -1)
  }

  /**
   * The bars count every path once: the -1 bar holds the paths that ended on
   * INVALID_ID (and any -1 ids), INVALID_ID itself has no bar, and every other
   * surface keeps its count.
   */
  lemma FanBarsCounts(last: seq<MeshId>)
    ensures |FanBars(last)| == |Unique(last)|
    ensures SumCounts(FanBars(last)) == |last|
    ensures forall y :: CountIn(FanBars(last), y) ==
              if y == InvalidId then 0
              else if y == -1 then Count(last, -1) + Count(last, InvalidId)
              else Count(last, y)
  {
    RelabelCounts(Unique(last), InvalidId, -1);
  }

  /** `counts / N_rays` of the fan run add up to one whenever a ray was cast. */
  lemma FanFractionsTotal(last: seq<MeshId>)
    requires |last| > 0
    ensures SumReals(Fractions(FanBars(last), |last|)) == 1.0
  {
    FanBarsCounts(last);
    FractionsTotal(FanBars(last), |last|);
  }

  /**
   * The tick labels as written: the renamed bars looked up in the table keyed
   * by INVALID_ID and the mesh ids.
   */
  function FanLabels(table: map<MeshId, string>, last: seq<MeshId>): Option<seq<string>> {
    Labels(table, FanBars(last))
  }

  /**
   * As written, the labels fail whenever a path ended on INVALID_ID and the
   * table has no key -1: the renamed bar -1 is looked up in a table whose
   * sentinel key is still INVALID_ID.
   */
  lemma FanLabelsFail(table: map<MeshId, string>, last: seq<MeshId>)
    requires InvalidId in last && -1 !in table
    ensures FanLabels(table, last).None?
  {
    var bars := FanBars(last);
    FanBarsCounts(last);
    CountPresent(last, InvalidId);
    if forall k :: 0 <= k < |bars| ==> bars[k].id != -1 {
      CountInAbsent(bars, -1);
    }
    LabelsDefined(table, bars);
  }

  /**
   * The labels as intended: each bar named by the surface it counts, the
   * INVALID_ID bar by the sentinel's name. The bars are looked up before the
   * renaming, which keeps their order.
   */
  function FixedFanLabels(table: map<MeshId, string>, last: seq<MeshId>): Option<seq<string>> {
    Labels(table, Unique(last))
  }

  /**
   * With the registry of the script (one more name than meshes, the sentinel
   * first, all ids distinct) and every last surface registered or the
   * sentinel, the intended labels exist, one per bar, and name each bar's
   * surface: `names[0]` for INVALID_ID and `names[i + 1]` for `ids[i]`.
   */
  lemma FixedFanLabelsNamed(ids: seq<MeshId>, names: seq<string>, last: seq<MeshId>)
    requires |names| == |ids| + 1 && Distinct([InvalidId] + ids)
    requires forall x :: x in last ==> x == InvalidId || x in ids
    ensures NameTable(InvalidId, ids, names).Some?
    ensures var labels := FixedFanLabels(NameTable(InvalidId, ids, names).value, last);
            && labels.Some? && |labels.value| == |Unique(last)| == |FanBars(last)|
            && forall k :: 0 <= k < |Unique(last)| ==>
                 && (Unique(last)[k].id == InvalidId ==> labels.value[k] == names[0])
                 && forall i :: 0 <= i < |ids| && Unique(last)[k].id == ids[i] ==> labels.value[k] == names[i + 1]
  {
    NameTableAligned(InvalidId, ids, names);
    var table := NameTable(InvalidId, ids, names).value;
    var bins := Unique(last);
    UniqueBins(last);
    forall k | 0 <= k < |bins|
      ensures bins[k].id in table
    {
      assert bins[k].id in last;
      if bins[k].id != InvalidId {
        var i :| 0 <= i < |ids| && ids[i] == bins[k].id;
      }
    }
    LabelsDefined(table, bins);
    RelabelCounts(bins, InvalidId, -1);
  }

  /**
   * When no path ended on INVALID_ID the renaming changes no bar, and the
   * labels as written are the intended ones.
   */
  lemma FanLabelsAgree(table: map<MeshId, string>, last: seq<MeshId>)
    requires InvalidId !in last
    ensures FanLabels(table, last) == FixedFanLabels(table, last)
  {
    UniqueBins(last);
    RelabelAbsent(Unique(last), InvalidId, -1);
  }

  // ---------------------------------------------------------------------------
  // The script
  // ---------------------------------------------------------------------------

  /** The radii of the script's fan, `simple_fan([1 - 1e-1, .51 + 1e-1])`. */
  const FanRadii: seq<real> := [0.9, 0.61]

  /** The nine rays of that fan, from height 10 straight down. */
  const FanRays: seq<Ray> :=
    [Vertical(0.0, 0.0),
     Vertical(0.0, 0.9), Vertical(0.9, 0.0), Vertical(0.0, -0.9), Vertical(-0.9, 0.0),
     Vertical(0.0, 0.61), Vertical(0.61, 0.0), Vertical(0.0, -0.61), Vertical(-0.61, 0.0)]

  /** After the rounds, every path has a last surface: INVALID_ID or a registered mesh. */
  lemma FanEnds(paths: seq<RayPath>, launch: seq<Ray>, scene: Scene, iBounce: nat, rays: seq<Ray>)
    requires WellFormed(scene) && |paths| == |launch|
    requires FanDone(paths, launch, scene, iBounce, rays, seq(|launch|, j requires 0 <= j < |launch| => Launched(launch[j])))
    ensures forall j :: 0 <= j < |paths| ==>
              && paths[j].Valid() && paths[j].surfacesHit != []
              && paths[j].surfacesHit == FanRun(scene, launch, j, Launched(launch[j]), iBounce).surfacesHit
              && (Last(paths[j].surfacesHit) == InvalidId || Last(paths[j].surfacesHit) in scene.meshIds)
  {
    forall j | 0 <= j < |paths|
      ensures paths[j].surfacesHit != []
      ensures Last(paths[j].surfacesHit) == InvalidId || Last(paths[j].surfacesHit) in scene.meshIds
    {
      FanLastNamed(scene, launch, j, iBounce);
    }
  }

  /**
   * Tracing and the render pass of the script: a path per launch ray, the
   * rounds, then the last surface of every path.
   */
  method TraceLastSurfaces(scene: Scene, launch: seq<Ray>) returns (iBounce: nat, last: seq<MeshId>)
    requires WellFormed(scene)
    ensures 0 < iBounce <= FanBounces + 1 && |last| == |launch|
    ensures forall j :: 0 <= j < |launch| ==>
              && FanRun(scene, launch, j, Launched(launch[j]), iBounce).surfacesHit != []
              && last[j] == Last(FanRun(scene, launch, j, Launched(launch[j]), iBounce).surfacesHit)
  {
    var paths := StartPaths(launch);
    assert StatesOf(paths) == seq(|launch|, j requires 0 <= j < |launch| => Launched(launch[j]));
    var rays;
    rays, iBounce := TraceFan(paths, launch, scene);
    FanEnds(paths, launch, scene, iBounce, rays);
    last := LastSurfaces(paths);
  }

  /**
   * The whole fan run up to the bar charts: launch the nine rays of the fan,
   * trace them, collect the last surfaces, and form the bars, their fractions
   * of the launched rays and their labels. `labels` is the lookup as written,
   * which fails once a path ended on INVALID_ID; `namedLabels` is the intended
   * lookup of `FixedFanLabels`, and the two agree when no path did.
   */
  method RunFan(scene: Scene, ids: seq<MeshId>, names: seq<string>)
      returns (launch: seq<Ray>, iBounce: nat, last: seq<MeshId>, bars: seq<Bin>, fractions: seq<real>,
               labels: Option<seq<string>>, namedLabels: seq<string>)
    requires WellFormed(scene)
    requires |names| == |ids| + 1 && Distinct([InvalidId] + ids)
    requires forall m :: m in scene.meshIds ==> m in ids
    ensures NameTable(InvalidId, ids, names).Some?
    ensures launch == FanRays && 0 < iBounce <= FanBounces + 1 && |last| == |launch|
    ensures forall j :: 0 <= j < |launch| ==>
              && FanRun(scene, launch, j, Launched(launch[j]), iBounce).surfacesHit != []
              && last[j] == Last(FanRun(scene, launch, j, Launched(launch[j]), iBounce).surfacesHit)
    ensures bars == FanBars(last) && SumCounts(bars) == |launch|
    ensures fractions == Fractions(bars, |launch|) && SumReals(fractions) == 1.0
    ensures labels == FanLabels(NameTable(InvalidId, ids, names).value, last)
    ensures InvalidId in last && -1 !in NameTable(InvalidId, ids, names).value ==> labels.None?
    ensures InvalidId !in last ==> labels == Some(namedLabels)
    ensures Some(namedLabels) == FixedFanLabels(NameTable(InvalidId, ids, names).value, last)
    ensures |namedLabels| == |bars|
  {
    var nRays;
    launch, nRays := SimpleFan(FanRadii);
    assert launch == FanRays by {
      assert FanRadii[0] == 0.9 && FanRadii[1] == 0.61;
      assert launch[1] == FanRays[1] && launch[2] == FanRays[2] && launch[3] == FanRays[3] && launch[4] == FanRays[4];
      assert launch[4 * 1 + 1] == FanRays[5] && launch[4 * 1 + 2] == FanRays[6];
      assert launch[4 * 1 + 3] == FanRays[7] && launch[4 * 1 + 4] == FanRays[8];
    }
    iBounce, last := TraceLastSurfaces(scene, launch);
    FanLastsNamed(scene, launch, iBounce, last);
    bars := FanBars(last);
    FanFractionsTotal(last);
    FanBarsCounts(last);
    fractions := Fractions(bars, nRays);
    FixedFanLabelsNamed(ids, names, last);
    var table := NameTable(InvalidId, ids, names).value;
    labels := FanLabels(table, last);
    if InvalidId in last && -1 !in table {
      FanLabelsFail(table, last);
    }
    namedLabels := FixedFanLabels(table, last).value;
    if InvalidId !in last {
      FanLabelsAgree(table, last);
    }
  }

  /** Every last surface of the fan run is INVALID_ID or a registered mesh. */
  lemma FanLastsNamed(scene: Scene, launch: seq<Ray>, iBounce: nat, last: seq<MeshId>)
    requires WellFormed(scene) && |last| == |launch|
    requires forall j :: 0 <= j < |launch| ==>
               && FanRun(scene, launch, j, Launched(launch[j]), iBounce).surfacesHit != []
               && last[j] == Last(FanRun(scene, launch, j, Launched(launch[j]), iBounce).surfacesHit)
    ensures forall x :: x in last ==> x == InvalidId || x in scene.meshIds
  {
    forall x | x in last
      ensures x == InvalidId || x in scene.meshIds
    {
      var j :| 0 <= j < |last| && last[j] == x;
      FanLastNamed(scene, launch, j, iBounce);
    }
  }
}
