/**
 * The sky sweep of scoop_raytrace/raytrace_quadrant.py. For every
 * (azimuth, elevation) cell a small disc bundle aimed at the telescope is
 * traced for a few bounces; the cell then records how many rays entered the
 * system hull and how many ended on the cryostat window.
 *
 * The cell loop keeps the source's bookkeeping: every iteration re-gathers
 * the last ray of each live path (`path.rays[-1]`). Because `append` stores
 * the START ray of a segment, that last ray is always the launch ray, so the
 * model proves that after `m` iterations a path is in the closed-form state
 * `ExpectedState(scene, launch, m)`: the launch ray's first hit, repeated.
 */
module Quadrant {
  import opened Vectors
  import opened Optics
  import opened Scenes
  import opened Histogram
  import opened RayPaths
  import opened RaySets

  /** `max_consecutive_hits`: a path hitting one mesh more often than this is taken as trapped. */
  const MaxConsecutiveHits: nat := 10

  /** `N_bounces` of one sky cell. */
  const CellBounces: nat := 3

  /** `query_surface`. */
  const QuerySurface: string := "cryostat_window"

  /** `random_disc(3, 3, ...)`: disc radius and number of rays of each cell's bundle. */
  const DiscRadius: real := 3.0
  const DiscRayCount: nat := 3

  /** `end[u_] = this_ray[u_] + this_ray[v_] * dist`: the reported hit point. */
  function RawEnd(r: Ray, h: Hit): Vec3
    requires h.Hit?
  {
    PointAt(r.origin, r.dir, h.t)
  }

  /** The hit point after the interior-hit correction against the hit triangle. */
  function FixedEnd(scene: Scene, r: Ray, h: Hit): Vec3
    requires h.Hit?
  {
    CorrectInterior(RawEnd(r, h), scene.centroid(h.meshId, h.triId), scene.triNormal(h.meshId, h.triId))
  }

  /** `any(counts > max_consecutive_hits)` over `np.unique(surfaces_hit, return_counts=True)`. */
  predicate Trapped(surfacesHit: seq<MeshId>) {
    AnyCountAbove(Unique(surfacesHit), MaxConsecutiveHits)
  }

  // ---------------------------------------------------------------------------
  // One bounce of one cell
  // ---------------------------------------------------------------------------

  /**
   * The batch of one iteration: the last ray of every path that is not
   * terminated, with the index of its path, in increasing path order.
   */
  method BuildBatch(paths: seq<RayPath>) returns (validRays: seq<Ray>, rayIdxToPathIdx: seq<nat>)
    requires forall j :: 0 <= j < |paths| ==> paths[j].rays != []
    ensures |validRays| == |rayIdxToPathIdx| <= |paths|
    ensures Increasing(rayIdxToPathIdx)
    ensures forall k :: 0 <= k < |rayIdxToPathIdx| ==>
              && rayIdxToPathIdx[k] < |paths|
              && !paths[rayIdxToPathIdx[k]].terminated
              && validRays[k] == Last(paths[rayIdxToPathIdx[k]].rays)
    ensures forall j :: 0 <= j < |paths| && !paths[j].terminated ==> j in rayIdxToPathIdx
  {
    validRays := [];
    rayIdxToPathIdx := [];
    for i := 0 to |paths|
      invariant |validRays| == |rayIdxToPathIdx| <= i
      invariant Increasing(rayIdxToPathIdx)
      invariant forall k :: 0 <= k < |rayIdxToPathIdx| ==>
                  && rayIdxToPathIdx[k] < i
                  && !paths[rayIdxToPathIdx[k]].terminated
                  && validRays[k] == Last(paths[rayIdxToPathIdx[k]].rays)
      invariant forall j :: 0 <= j < i && !paths[j].terminated ==> j in rayIdxToPathIdx
    {
      var path := paths[i];
      if path.terminated {
        continue;
      }
      validRays := validRays + [path.rays[|path.rays| - 1]];
      rayIdxToPathIdx := rayIdxToPathIdx + [i];
    }
  }

  /**
   * What handling one hit does to a path (state `b` before, `a` after):
   *  - the path takes the colour of the hit mesh;
   *  - `incident` latches on when the hit point lies inside the hull and is never reset;
   *  - an absorber gets one segment up to the hit point, carrying the mesh id,
   *    and ends the path, with no reflection and no correction;
   *  - any other mesh gets one segment up to the corrected hit point, and the
   *    path ends exactly when it was already ended or is now trapped.
   */
  ghost predicate HitEffect(b: PathState, a: PathState, r: Ray, h: Hit, scene: Scene)
    requires h.Hit?
  {
    && a.rays == b.rays + [r]
    && a.nBounces == b.nBounces + 1
    && a.surfacesHit == b.surfacesHit + [h.meshId]
    && a.color == scene.color(h.meshId)
    && a.incident == (b.incident || scene.hullSd(RawEnd(r, h)) < 0.0)
    && (h.meshId in scene.absorbers ==>
          && a.lines == b.lines + [Line(r.origin, RawEnd(r, h), None)]
          && a.lastPos == At(RawEnd(r, h))
          && a.terminated)
    && (h.meshId !in scene.absorbers ==>
          && a.lines == b.lines + [Line(r.origin, FixedEnd(scene, r, h), None)]
          && a.lastPos == At(FixedEnd(scene, r, h))
          && a.terminated == (b.terminated || Trapped(a.surfacesHit)))
  }

  /** The body of the hit loop for one row of the batch. */
  method ProcessHit(path: RayPath, ray: Ray, hit: Hit, scene: Scene)
    requires path.Valid() && hit.Hit? && hit.meshId in scene.meshIds
    modifies path
    ensures path.Valid()
    ensures HitEffect(old(path.State()), path.State(), ray, hit, scene)
  {
    path.color := scene.color(hit.meshId);
    var dist := hit.t;
    var end := Ray(PointAt(ray.origin, ray.dir, dist), ray.dir);
    if !path.incident {
      if scene.hullSd(end.origin) < 0.0 {
        path.incident := true;
      }
    }
    if hit.meshId in scene.absorbers {
      path.Append(ray, end, hit.meshId);
      path.terminated := true;
      return;
    }
    var centroid := scene.centroid(hit.meshId, hit.triId);
    var nhat := scene.triNormal(hit.meshId, hit.triId);
    var intersecVec := Sub(end.origin, centroid);
    var proj := Dot(intersecVec, nhat);
    if proj < 0.0 {
      var correctionDistance := CorrectionDistance(proj);
      var correctedPos := Add(end.origin, Scale(nhat, correctionDistance));
      end := end.(origin := correctedPos);
    }
    var vhatNew := NewDirection(ray.dir, nhat, scene.invNorm);
    var newRay := Ray(end.origin, vhatNew);
    path.Append(ray, newRay, hit.meshId);
    var counts := Unique(path.surfacesHit);
    if AnyCountAbove(counts, MaxConsecutiveHits) {
      path.terminated := true;
    }
  }

  // ---------------------------------------------------------------------------
  // The closed form of a path after m iterations
  // ---------------------------------------------------------------------------

  function Repeat<T>(x: T, n: nat): (s: seq<T>)
    ensures |s| == n && forall k :: 0 <= k < n ==> s[k] == x
  {
    if n == 0 then [] else Repeat(x, n - 1) + [x]
  }

  /** Number of reflective hits recorded after `m` iterations: the trap stops it at 11. */
  function Recorded(m: nat): nat {
    if m <= MaxConsecutiveHits + 1 then m else MaxConsecutiveHits + 1
  }

  /**
   * The state of the path of launch ray `r` after `m` iterations of the cell
   * loop: every iteration re-casts `r`, so it meets the same first hit again.
   *  - no iteration yet: the launch state;
   *  - a miss: the launch state, terminated;
   *  - an absorber: one segment, terminated;
   *  - a reflector: one segment per iteration, up to the trap after 11.
   */
  function ExpectedState(scene: Scene, r: Ray, m: nat): PathState {
    var h := scene.cast(r);
    if m == 0 then Launched(r)
    else if h.Miss? then Launched(r).(terminated := true)
    else if h.meshId in scene.absorbers then
      PathState([r, r], 2, [InvalidId, h.meshId], At(RawEnd(r, h)), scene.color(h.meshId),
                [Line(r.origin, r.origin, None), Line(r.origin, RawEnd(r, h), None)],
                true, scene.hullSd(RawEnd(r, h)) < 0.0)
    else
      var j := Recorded(m);
      PathState([r] + Repeat(r, j), 1 + j, [InvalidId] + Repeat(h.meshId, j),
                At(FixedEnd(scene, r, h)), scene.color(h.meshId),
                [Line(r.origin, r.origin, None)] + Repeat(Line(r.origin, FixedEnd(scene, r, h), None), j),
                j > MaxConsecutiveHits, scene.hullSd(RawEnd(r, h)) < 0.0)
  }

  lemma {:induction false} CountSentinelRun(id: MeshId, j: nat, x: MeshId)
    requires id != InvalidId
    ensures Count([InvalidId] + Repeat(id, j), x) == (if x == InvalidId then 1 else 0) + (if x == id then j else 0)
  {
    if j == 0 {
      assert [InvalidId] + Repeat(id, 0) == [] + [InvalidId];
      CountAppend([], InvalidId, x);
    } else {
      CountSentinelRun(id, j - 1, x);
      assert [InvalidId] + Repeat(id, j) == ([InvalidId] + Repeat(id, j - 1)) + [id];
      CountAppend([InvalidId] + Repeat(id, j - 1), id, x);
    }
  }

  /** After the sentinel and `j` hits on one mesh, the trap fires exactly when j > 10. */
  lemma TrappedRun(id: MeshId, j: nat)
    requires id != InvalidId
    ensures Trapped([InvalidId] + Repeat(id, j)) <==> j > MaxConsecutiveHits
  {
    var sh := [InvalidId] + Repeat(id, j);
    UniqueCountAbove(sh, MaxConsecutiveHits);
    if j > MaxConsecutiveHits {
      CountSentinelRun(id, j, id);
      assert sh[|sh| - 1] == id;
    } else {
      forall x | x in sh
        ensures Count(sh, x) <= MaxConsecutiveHits
      {
        CountSentinelRun(id, j, x);
      }
    }
  }

  /**
   * What every path state of the closed form satisfies: the record lengths
   * agree, the history starts with the sentinel and grows at most one id per
   * iteration, the last ray is the launch ray, and a live path is not
   * trapped (no id occurs more than 10 times).
   */
  lemma ExpectedStateFacts(scene: Scene, r: Ray, m: nat)
    requires WellFormed(scene)
    ensures var s := ExpectedState(scene, r, m);
            && |s.rays| == |s.surfacesHit| == |s.lines| == s.nBounces
            && 1 <= |s.surfacesHit| <= 1 + m
            && s.surfacesHit[0] == InvalidId
            && s.rays != [] && Last(s.rays) == r
            && (!s.terminated ==> !SomeValueAbove(s.surfacesHit, MaxConsecutiveHits))
  {
    var s := ExpectedState(scene, r, m);
    var h := scene.cast(r);
    if !s.terminated {
      if m == 0 || h.Miss? {
        assert s.surfacesHit == [InvalidId] + Repeat(0, 0);
        UniqueCountAbove(s.surfacesHit, MaxConsecutiveHits);
        TrappedRun(0, 0);
      } else {
        UniqueCountAbove(s.surfacesHit, MaxConsecutiveHits);
        TrappedRun(h.meshId, Recorded(m));
      }
    }
  }

  /** A terminated path stays as it is. */
  lemma Stable(scene: Scene, r: Ray, m: nat)
    requires ExpectedState(scene, r, m).terminated
    ensures ExpectedState(scene, r, m + 1) == ExpectedState(scene, r, m)
  {
  }

  /** A live path whose ray misses can only be a path that has not bounced yet; it is then terminated. */
  lemma AdvanceMiss(scene: Scene, r: Ray, m: nat)
    requires scene.cast(r).Miss? && !ExpectedState(scene, r, m).terminated
    ensures m == 0
    ensures ExpectedState(scene, r, m).(terminated := true) == ExpectedState(scene, r, m + 1)
  {
  }

  /** Handling the hit of a live path's ray takes it from the closed form at `m` to the one at `m + 1`. */
  lemma AdvanceHit(scene: Scene, r: Ray, m: nat, post: PathState)
    requires WellFormed(scene) && scene.cast(r).Hit?
    requires !ExpectedState(scene, r, m).terminated
    requires HitEffect(ExpectedState(scene, r, m), post, r, scene.cast(r), scene)
    ensures post == ExpectedState(scene, r, m + 1)
  {
    if scene.cast(r).meshId in scene.absorbers {
      AdvanceAbsorbed(scene, r, m, post);
    } else if m == 0 {
      AdvanceFirstReflection(scene, r, post);
    } else {
      AdvanceReflection(scene, r, m, post);
    }
  }

  lemma AdvanceAbsorbed(scene: Scene, r: Ray, m: nat, post: PathState)
    requires scene.cast(r).Hit? && scene.cast(r).meshId in scene.absorbers
    requires !ExpectedState(scene, r, m).terminated
    requires HitEffect(ExpectedState(scene, r, m), post, r, scene.cast(r), scene)
    ensures post == ExpectedState(scene, r, m + 1)
  {
    assert m == 0;
    var h := scene.cast(r);
    var e := ExpectedState(scene, r, 1);
    assert post.rays == e.rays && post.surfacesHit == e.surfacesHit && post.lines == e.lines;
  }

  lemma AdvanceFirstReflection(scene: Scene, r: Ray, post: PathState)
    requires WellFormed(scene) && scene.cast(r).Hit? && scene.cast(r).meshId !in scene.absorbers
    requires HitEffect(ExpectedState(scene, r, 0), post, r, scene.cast(r), scene)
    ensures post == ExpectedState(scene, r, 1)
  {
    var h := scene.cast(r);
    var e := ExpectedState(scene, r, 1);
    assert Recorded(1) == 1;
    assert e.rays == [r, r] == post.rays;
    assert e.surfacesHit == [InvalidId, h.meshId] == post.surfacesHit;
    assert e.lines == post.lines;
    TrappedRun(h.meshId, 1);
  }

  lemma AdvanceReflection(scene: Scene, r: Ray, m: nat, post: PathState)
    requires WellFormed(scene) && scene.cast(r).Hit? && scene.cast(r).meshId !in scene.absorbers && m > 0
    requires !ExpectedState(scene, r, m).terminated
    requires HitEffect(ExpectedState(scene, r, m), post, r, scene.cast(r), scene)
    ensures post == ExpectedState(scene, r, m + 1)
  {
    var h := scene.cast(r);
    var b := ExpectedState(scene, r, m);
    var e := ExpectedState(scene, r, m + 1);
    assert Recorded(m) == m && Recorded(m + 1) == m + 1;
    assert e.rays == [r] + (Repeat(r, m) + [r]) == b.rays + [r];
    assert e.surfacesHit == [InvalidId] + (Repeat(h.meshId, m) + [h.meshId]) == b.surfacesHit + [h.meshId];
    var l := Line(r.origin, FixedEnd(scene, r, h), None);
    assert e.lines == [Line(r.origin, r.origin, None)] + (Repeat(l, m) + [l]) == b.lines + [l];
    TrappedRun(h.meshId, m + 1);
    assert e.terminated == post.terminated;
  }

  // ---------------------------------------------------------------------------
  // The cell loop
  // ---------------------------------------------------------------------------

  /** Every path is in the closed form, one iteration further for the paths in `done`. */
  ghost predicate AtStep(paths: seq<RayPath>, launch: seq<Ray>, scene: Scene, m: nat, done: set<nat>)
    reads paths
  {
    && |paths| == |launch|
    && forall j :: 0 <= j < |paths| ==>
         paths[j].Valid() && paths[j].State() == ExpectedState(scene, launch[j], if j in done then m + 1 else m)
  }

  /** The batch of iteration `m`, in terms of the launch rays: live paths only, each with its launch ray. */
  ghost predicate BatchOf(scene: Scene, launch: seq<Ray>, m: nat, validRays: seq<Ray>, rayIdxToPathIdx: seq<nat>) {
    && |validRays| == |rayIdxToPathIdx|
    && Increasing(rayIdxToPathIdx)
    && forall k :: 0 <= k < |rayIdxToPathIdx| ==>
         && rayIdxToPathIdx[k] < |launch|
         && !ExpectedState(scene, launch[rayIdxToPathIdx[k]], m).terminated
         && validRays[k] == launch[rayIdxToPathIdx[k]]
  }

  /** The miss loop: every path owning a missed row is terminated. */
  method ApplyMisses(paths: seq<RayPath>, launch: seq<Ray>, scene: Scene, ghost m: nat, validRays: seq<Ray>,
                     rayIdxToPathIdx: seq<nat>, ans: seq<Hit>, missMask: seq<nat>, ghost done0: set<nat>)
      returns (ghost done: set<nat>)
    requires DistinctPaths(paths) && AtStep(paths, launch, scene, m, done0)
    requires BatchOf(scene, launch, m, validRays, rayIdxToPathIdx)
    requires |ans| == |validRays| && forall k :: 0 <= k < |ans| ==> ans[k] == scene.cast(validRays[k])
    requires Increasing(missMask)
    requires forall q :: 0 <= q < |missMask| ==>
               missMask[q] < |ans| && ans[missMask[q]].Miss? && rayIdxToPathIdx[missMask[q]] !in done0
    modifies paths
    ensures AtStep(paths, launch, scene, m, done)
    ensures forall j :: j in done <==> j in done0 || exists q :: 0 <= q < |missMask| && rayIdxToPathIdx[missMask[q]] == j
  {
    done := done0;
    for k := 0 to |missMask|
      invariant AtStep(paths, launch, scene, m, done)
      invariant forall j :: j in done <==> j in done0 || exists q :: 0 <= q < k && rayIdxToPathIdx[missMask[q]] == j
    {
      var j := rayIdxToPathIdx[missMask[k]];
      OwnerUnhandled(rayIdxToPathIdx, missMask, k, done0, done);
      HandleMiss(paths, launch, scene, m, j, validRays[missMask[k]], done);
      OwnerStep(rayIdxToPathIdx, missMask, k, done0, done);
      done := done + {j};
    }
  }

  /** One row of the miss loop: the path `j` that owns it is terminated. */
  method HandleMiss(paths: seq<RayPath>, launch: seq<Ray>, scene: Scene, ghost m: nat, j: nat, thisRay: Ray,
                    ghost done: set<nat>)
    requires DistinctPaths(paths) && AtStep(paths, launch, scene, m, done)
    requires j < |paths| && j !in done && !ExpectedState(scene, launch[j], m).terminated
    requires thisRay == launch[j] && scene.cast(thisRay).Miss?
    modifies paths[j]
    ensures AtStep(paths, launch, scene, m, done + {j})
  {
    AdvanceMiss(scene, launch[j], m);
    paths[j].terminated := true;
  }

  /** The hit loop: every path owning a row with a hit gets that hit handled. */
  method ApplyHits(paths: seq<RayPath>, launch: seq<Ray>, scene: Scene, ghost m: nat, validRays: seq<Ray>,
                   rayIdxToPathIdx: seq<nat>, ans: seq<Hit>, hitMask: seq<nat>, ghost done0: set<nat>)
      returns (ghost done: set<nat>)
    requires WellFormed(scene) && DistinctPaths(paths) && AtStep(paths, launch, scene, m, done0)
    requires BatchOf(scene, launch, m, validRays, rayIdxToPathIdx)
    requires |ans| == |validRays| && forall k :: 0 <= k < |ans| ==> ans[k] == scene.cast(validRays[k])
    requires Increasing(hitMask)
    requires forall q :: 0 <= q < |hitMask| ==>
               hitMask[q] < |ans| && ans[hitMask[q]].Hit? && rayIdxToPathIdx[hitMask[q]] !in done0
    modifies paths
    ensures AtStep(paths, launch, scene, m, done)
    ensures forall j :: j in done <==> j in done0 || exists q :: 0 <= q < |hitMask| && rayIdxToPathIdx[hitMask[q]] == j
  {
    done := done0;
    for k := 0 to |hitMask|
      invariant AtStep(paths, launch, scene, m, done)
      invariant forall j :: j in done <==> j in done0 || exists q :: 0 <= q < k && rayIdxToPathIdx[hitMask[q]] == j
    {
      var i := hitMask[k];
      var j := rayIdxToPathIdx[i];
      OwnerUnhandled(rayIdxToPathIdx, hitMask, k, done0, done);
      HandleHit(paths, launch, scene, m, j, validRays[i], ans[i], done);
      OwnerStep(rayIdxToPathIdx, hitMask, k, done0, done);
      done := done + {j};
    }
  }

  /** The path owning row `mask[k]` has not been handled by the earlier rows of an increasing mask. */
  lemma OwnerUnhandled(idx: seq<nat>, mask: seq<nat>, k: nat, done0: set<nat>, done: set<nat>)
    requires Increasing(idx) && Increasing(mask) && k < |mask|
    requires forall q :: 0 <= q < |mask| ==> mask[q] < |idx| && idx[mask[q]] !in done0
    requires forall j :: j in done <==> j in done0 || exists q :: 0 <= q < k && idx[mask[q]] == j
    ensures idx[mask[k]] !in done
  {
    forall q | 0 <= q < k
      ensures idx[mask[q]] != idx[mask[k]]
    {
      assert mask[q] < mask[k];
    }
  }

  lemma OwnerStep(idx: seq<nat>, mask: seq<nat>, k: nat, done0: set<nat>, done: set<nat>)
    requires k < |mask| && forall q :: 0 <= q < |mask| ==> mask[q] < |idx|
    requires forall j :: j in done <==> j in done0 || exists q :: 0 <= q < k && idx[mask[q]] == j
    ensures forall j :: j in done + {idx[mask[k]]} <==> j in done0 || exists q :: 0 <= q < k + 1 && idx[mask[q]] == j
  {
    forall j | j in done0 || exists q :: 0 <= q < k + 1 && idx[mask[q]] == j
      ensures j in done + {idx[mask[k]]}
    {
      if j !in done0 && j != idx[mask[k]] {
        var q :| 0 <= q < k + 1 && idx[mask[q]] == j;
        assert q < k;
      }
    }
  }

  /** One row of the hit loop, for the path `j` that owns it. */
  method HandleHit(paths: seq<RayPath>, launch: seq<Ray>, scene: Scene, ghost m: nat, j: nat, thisRay: Ray, hit: Hit,
                   ghost done: set<nat>)
    requires WellFormed(scene) && DistinctPaths(paths) && AtStep(paths, launch, scene, m, done)
    requires j < |paths| && j !in done && !ExpectedState(scene, launch[j], m).terminated
    requires thisRay == launch[j] && hit == scene.cast(thisRay) && hit.Hit?
    modifies paths[j]
    ensures AtStep(paths, launch, scene, m, done + {j})
  {
    var thisPath := paths[j];
    assert thisPath.State() == ExpectedState(scene, thisRay, m);
    ProcessHit(thisPath, thisRay, hit, scene);
    AdvanceHit(scene, thisRay, m, thisPath.State());
  }

  /** Paths already terminated at iteration `m` are also in the closed form of `m + 1`. */
  lemma TerminatedAhead(paths: seq<RayPath>, launch: seq<Ray>, scene: Scene, m: nat, initDone: set<nat>)
    requires AtStep(paths, launch, scene, m, {})
    requires forall j :: j in initDone <==> 0 <= j < |paths| && ExpectedState(scene, launch[j], m).terminated
    ensures AtStep(paths, launch, scene, m, initDone)
  {
    forall j | j in initDone
      ensures ExpectedState(scene, launch[j], m + 1) == ExpectedState(scene, launch[j], m)
    {
      Stable(scene, launch[j], m);
    }
  }

  /** No path owns both a missed row and a row with a hit. */
  lemma MasksDisjoint(idx: seq<nat>, ans: seq<Hit>, initDone: set<nat>, done: set<nat>)
    requires |idx| == |ans| && Increasing(idx)
    requires forall k :: 0 <= k < |idx| ==> idx[k] !in initDone
    requires forall j :: j in done <==> j in initDone || exists q :: 0 <= q < |Rows(ans, false)| && idx[Rows(ans, false)[q]] == j
    ensures forall q :: 0 <= q < |Rows(ans, true)| ==> idx[Rows(ans, true)[q]] !in done
  {
    var missMask, hitMask := Rows(ans, false), Rows(ans, true);
    forall q | 0 <= q < |hitMask|
      ensures idx[hitMask[q]] !in done
    {
      forall q' | 0 <= q' < |missMask|
        ensures idx[missMask[q']] != idx[hitMask[q]]
      {
        assert missMask[q'] != hitMask[q];
      }
    }
  }

  /** Every path is either terminated already or owns a row, missed or hit, so every path has moved on. */
  lemma AllCovered(paths: seq<RayPath>, launch: seq<Ray>, scene: Scene, m: nat,
                   idx: seq<nat>, ans: seq<Hit>, initDone: set<nat>, done: set<nat>, done2: set<nat>)
    requires AtStep(paths, launch, scene, m, done2)
    requires |idx| == |ans|
    requires forall j :: 0 <= j < |paths| && j !in initDone ==> j in idx
    requires forall j :: j in done <==> j in initDone || exists q :: 0 <= q < |Rows(ans, false)| && idx[Rows(ans, false)[q]] == j
    requires forall j :: j in done2 <==> j in done || exists q :: 0 <= q < |Rows(ans, true)| && idx[Rows(ans, true)[q]] == j
    ensures AtStep(paths, launch, scene, m + 1, {})
  {
    var missMask, hitMask := Rows(ans, false), Rows(ans, true);
    forall j | 0 <= j < |paths| && j !in initDone
      ensures j in done2
    {
      var k :| 0 <= k < |idx| && idx[k] == j;
      if ans[k].Hit? {
        var q :| 0 <= q < |hitMask| && hitMask[q] == k;
      } else {
        var q :| 0 <= q < |missMask| && missMask[q] == k;
      }
    }
  }

  /** The cast of one batch, then the miss loop and the hit loop: every path moves one iteration on. */
  method AdvanceBatch(paths: seq<RayPath>, launch: seq<Ray>, scene: Scene, ghost m: nat,
                      validRays: seq<Ray>, rayIdxToPathIdx: seq<nat>)
    requires WellFormed(scene) && DistinctPaths(paths) && AtStep(paths, launch, scene, m, {})
    requires BatchOf(scene, launch, m, validRays, rayIdxToPathIdx)
    requires forall j :: 0 <= j < |paths| && !ExpectedState(scene, launch[j], m).terminated ==> j in rayIdxToPathIdx
    modifies paths
    ensures AtStep(paths, launch, scene, m + 1, {})
  {
    ghost var initDone := set j | 0 <= j < |paths| && ExpectedState(scene, launch[j], m).terminated;
    TerminatedAhead(paths, launch, scene, m, initDone);

    var ans := CastAll(scene, validRays);
    var missMask := Rows(ans, false);
    ghost var done := ApplyMisses(paths, launch, scene, m, validRays, rayIdxToPathIdx, ans, missMask, initDone);
    var hitMask := Rows(ans, true);
    MasksDisjoint(rayIdxToPathIdx, ans, initDone, done);
    ghost var done2 := ApplyHits(paths, launch, scene, m, validRays, rayIdxToPathIdx, ans, hitMask, done);
    AllCovered(paths, launch, scene, m, rayIdxToPathIdx, ans, initDone, done, done2);
  }

  /**
   * One iteration of the cell loop: the batch, the cast, the misses and the
   * hits. It stops the loop (`stop`) exactly when no path is live; otherwise
   * every path moves one iteration on.
   */
  method CellIteration(paths: seq<RayPath>, launch: seq<Ray>, scene: Scene, ghost m: nat) returns (stop: bool)
    requires WellFormed(scene) && DistinctPaths(paths) && AtStep(paths, launch, scene, m, {})
    modifies paths
    ensures stop ==> AtStep(paths, launch, scene, m, {}) && forall j :: 0 <= j < |paths| ==> paths[j].terminated
    ensures !stop ==> AtStep(paths, launch, scene, m + 1, {})
  {
    forall j | 0 <= j < |paths|
      ensures paths[j].rays != [] && Last(paths[j].rays) == launch[j]
    {
      ExpectedStateFacts(scene, launch[j], m);
    }
    var validRays, rayIdxToPathIdx := BuildBatch(paths);
    if |validRays| == 0 {
      return true;
    }
    assert BatchOf(scene, launch, m, validRays, rayIdxToPathIdx);
    AdvanceBatch(paths, launch, scene, m, validRays, rayIdxToPathIdx);
    stop := false;
  }

  /**
   * How the cell loop ends after `iBounce` of at most `nBounces` iterations:
   * every path is in the closed form of `iBounce` iterations, leaving early
   * means that every path was terminated.
   */
  ghost predicate LoopOutcome(paths: seq<RayPath>, launch: seq<Ray>, scene: Scene, nBounces: nat, iBounce: nat)
    reads paths
  {
    && iBounce <= nBounces
    && AtStep(paths, launch, scene, iBounce, {})
    && (iBounce < nBounces ==> forall j :: 0 <= j < |paths| ==> paths[j].terminated)
  }

  /** `while i_bounce < N_bounces`, leaving the loop when the batch is empty. */
  method BounceLoop(paths: seq<RayPath>, launch: seq<Ray>, scene: Scene, nBounces: nat) returns (iBounce: nat)
    requires WellFormed(scene) && DistinctPaths(paths) && AtStep(paths, launch, scene, 0, {})
    modifies paths
    ensures LoopOutcome(paths, launch, scene, nBounces, iBounce)
  {
    iBounce := 0;
    while iBounce < nBounces
      invariant iBounce <= nBounces
      invariant AtStep(paths, launch, scene, iBounce, {})
    {
      var stop := CellIteration(paths, launch, scene, iBounce);
      if stop {
        break;
      }
      iBounce := iBounce + 1;
    }
  }

  /** No path is terminated before the first iteration. */
  lemma StartsLive(paths: seq<RayPath>, launch: seq<Ray>, scene: Scene, m: nat)
    requires AtStep(paths, launch, scene, m, {}) && |paths| > 0 && paths[0].terminated
    ensures m > 0
  {
  }

  /** One cell: one path per launch ray, then the cell loop. */
  method TraceCell(launch: seq<Ray>, scene: Scene, nBounces: nat) returns (paths: seq<RayPath>, iBounce: nat)
    requires WellFormed(scene)
    ensures |paths| == |launch| && DistinctPaths(paths)
    ensures forall j :: 0 <= j < |paths| ==> fresh(paths[j]) && paths[j].id == j
    ensures LoopOutcome(paths, launch, scene, nBounces, iBounce)
  {
    paths := StartPaths(launch);
    iBounce := BounceLoop(paths, launch, scene, nBounces);
  }

  // ---------------------------------------------------------------------------
  // Measuring a cell
  // ---------------------------------------------------------------------------

  /** `N_incident` and `N_cryo` of one cell. */
  datatype CellCounts = CellCounts(incident: nat, problem: nat)

  /** Every path's last surface id has a name. */
  ghost predicate LastIdsNamed(paths: seq<RayPath>, table: map<MeshId, string>)
    reads paths
  {
    forall j :: 0 <= j < |paths| ==> paths[j].surfacesHit != [] && Last(paths[j].surfacesHit) in table
  }

  /** Number of paths whose `incident` flag is set. */
  ghost function IncidentCount(paths: seq<RayPath>): nat
    reads paths
  {
    if paths == [] then 0
    else IncidentCount(paths[..|paths| - 1]) + (if Last(paths).incident then 1 else 0)
  }

  /** Number of paths whose last surface is named `name`. */
  ghost function SurfaceCount(paths: seq<RayPath>, table: map<MeshId, string>, name: string): nat
    requires LastIdsNamed(paths, table)
    reads paths
  {
    if paths == [] then 0
    else
      assert LastIdsNamed(paths[..|paths| - 1], table);
      SurfaceCount(paths[..|paths| - 1], table, name)
      + (if table[Last(Last(paths).surfacesHit)] == name then 1 else 0)
  }

  /** Both counts are at most the number of paths. */
  lemma {:induction false} CountsBounded(paths: seq<RayPath>, table: map<MeshId, string>, name: string)
    requires LastIdsNamed(paths, table)
    ensures IncidentCount(paths) <= |paths|
    ensures SurfaceCount(paths, table, name) <= |paths|
  {
    if paths != [] {
      assert LastIdsNamed(paths[..|paths| - 1], table);
      CountsBounded(paths[..|paths| - 1], table, name);
    }
  }

  /**
   * The measuring loop: the last surface id of every path is looked up in
   * the name table (a missing id raises a KeyError, `None` here), the paths
   * ending on the query surface and the incident paths are counted.
   */
  method Measure(paths: seq<RayPath>, table: map<MeshId, string>) returns (counts: Option<CellCounts>)
    requires forall j :: 0 <= j < |paths| ==> paths[j].surfacesHit != []
    ensures counts.Some? <==> LastIdsNamed(paths, table)
    ensures counts.Some? ==> counts.value == CellCounts(IncidentCount(paths), SurfaceCount(paths, table, QuerySurface))
  {
    var lastSurfacesHit: seq<MeshId> := [];
    var nIncident := 0;
    var nCryo := 0;
    for k := 0 to |paths|
      invariant |lastSurfacesHit| == k
      invariant LastIdsNamed(paths[..k], table)
      invariant nIncident == IncidentCount(paths[..k])
      invariant nCryo == SurfaceCount(paths[..k], table, QuerySurface)
    {
      var path := paths[k];
      var surfId := path.surfacesHit[|path.surfacesHit| - 1];
      lastSurfacesHit := lastSurfacesHit + [surfId];
      if surfId !in table {
        return None;
      }
      assert paths[..k + 1][..k] == paths[..k];
      if table[surfId] == QuerySurface {
        nCryo := nCryo + 1;
      }
      if path.incident {
        nIncident := nIncident + 1;
      }
    }
    assert paths[..|paths|] == paths;
    counts := Some(CellCounts(nIncident, nCryo));
  }

  // ---------------------------------------------------------------------------
  // The counts of a cell in terms of its launch rays
  // ---------------------------------------------------------------------------

  /** The id a launch ray's path ends with once it has run: its first hit, or INVALID_ID. */
  function FinalSurface(scene: Scene, r: Ray): MeshId {
    if scene.cast(r).Hit? then scene.cast(r).meshId else InvalidId
  }

  /** A launch ray enters the hull: its first hit point lies inside it. */
  predicate EntersHull(scene: Scene, r: Ray) {
    scene.cast(r).Hit? && scene.hullSd(RawEnd(r, scene.cast(r))) < 0.0
  }

  function ExpectedIncident(scene: Scene, launch: seq<Ray>): nat {
    if launch == [] then 0
    else ExpectedIncident(scene, launch[..|launch| - 1]) + (if EntersHull(scene, Last(launch)) then 1 else 0)
  }

  predicate FinalSurfacesNamed(scene: Scene, launch: seq<Ray>, table: map<MeshId, string>) {
    forall k :: 0 <= k < |launch| ==> FinalSurface(scene, launch[k]) in table
  }

  function ExpectedOnSurface(scene: Scene, launch: seq<Ray>, table: map<MeshId, string>, name: string): nat
    requires FinalSurfacesNamed(scene, launch, table)
  {
    if launch == [] then 0
    else ExpectedOnSurface(scene, launch[..|launch| - 1], table, name)
         + (if table[FinalSurface(scene, Last(launch))] == name then 1 else 0)
  }

  /** Once a path has run at least one iteration, its last id and its flag depend only on the first hit. */
  lemma ExpectedTail(scene: Scene, r: Ray, m: nat)
    requires WellFormed(scene) && m > 0
    ensures ExpectedState(scene, r, m).surfacesHit != []
    ensures Last(ExpectedState(scene, r, m).surfacesHit) == FinalSurface(scene, r)
    ensures ExpectedState(scene, r, m).incident == EntersHull(scene, r)
  {
    var h := scene.cast(r);
    if h.Hit? && h.meshId !in scene.absorbers {
      assert Recorded(m) > 0;
    }
  }

  /** The measured counts of paths in the closed form equal the counts over the launch rays. */
  lemma {:induction false} CountsMatch(scene: Scene, launch: seq<Ray>, paths: seq<RayPath>, m: nat, table: map<MeshId, string>)
    requires WellFormed(scene) && |paths| == |launch| && (m > 0 || launch == [])
    requires forall j :: 0 <= j < |paths| ==> paths[j].State() == ExpectedState(scene, launch[j], m)
    ensures IncidentCount(paths) == ExpectedIncident(scene, launch)
    ensures LastIdsNamed(paths, table) <==> FinalSurfacesNamed(scene, launch, table)
    ensures LastIdsNamed(paths, table) ==>
              SurfaceCount(paths, table, QuerySurface) == ExpectedOnSurface(scene, launch, table, QuerySurface)
  {
    forall j | 0 <= j < |paths|
      ensures paths[j].surfacesHit != [] && Last(paths[j].surfacesHit) == FinalSurface(scene, launch[j])
      ensures paths[j].incident == EntersHull(scene, launch[j])
    {
      ExpectedTail(scene, launch[j], m);
    }
    if paths != [] {
      var n := |paths| - 1;
      CountsMatch(scene, launch[..n], paths[..n], m, table);
      if LastIdsNamed(paths, table) {
        assert LastIdsNamed(paths[..n], table);
      }
    }
  }

  /** The counts over the launch rays are at most the number of rays. */
  lemma {:induction false} ExpectedCountsBounded(scene: Scene, launch: seq<Ray>, table: map<MeshId, string>, name: string)
    requires FinalSurfacesNamed(scene, launch, table)
    ensures ExpectedIncident(scene, launch) <= |launch|
    ensures ExpectedOnSurface(scene, launch, table, name) <= |launch|
  {
    if launch != [] {
      ExpectedCountsBounded(scene, launch[..|launch| - 1], table, name);
    }
  }

  /**
   * One cell from its bundle to its two counts: the lookup succeeds exactly
   * when every launch ray's final id is named, and then the counts are those
   * of the launch rays' first hits.
   */
  method RunCell(launch: seq<Ray>, scene: Scene, table: map<MeshId, string>) returns (counts: Option<CellCounts>)
    requires WellFormed(scene)
    ensures counts.Some? <==> FinalSurfacesNamed(scene, launch, table)
    ensures counts.Some? ==>
              && counts.value.incident == ExpectedIncident(scene, launch)
              && counts.value.problem == ExpectedOnSurface(scene, launch, table, QuerySurface)
  {
    var paths, iBounce := TraceCell(launch, scene, CellBounces);
    if |launch| > 0 && iBounce == 0 {
      StartsLive(paths, launch, scene, iBounce);
    }
    assert forall j :: 0 <= j < |paths| ==> paths[j].State() == ExpectedState(scene, launch[j], iBounce);
    forall j | 0 <= j < |paths|
      ensures paths[j].surfacesHit != []
    {
      ExpectedStateFacts(scene, launch[j], iBounce);
    }
    counts := Measure(paths, table);
    CountsMatch(scene, launch, paths, iBounce, table);
  }

  // ---------------------------------------------------------------------------
  // The sweep
  // ---------------------------------------------------------------------------

  /**
   * The inputs of the sweep the model does not compute: the launch point
   * (10 cos az, 10 sin el, 10 sin az) of every cell (azimuth index, elevation
   * index), the disc samples of the generator reseeded for every bundle, and
   * the rotation taking +z onto a direction.
   */
  datatype Sky = Sky(target: (nat, nat) -> Vec3, samples: seq<DiscSample>, align: (Vec3, Vec3) -> Vec3)

  /** The bundle of a cell: `random_disc(3, 3, [x, y, z], nhat)` with `nhat` the unit vector towards the origin. */
  function CellBundle(scene: Scene, sky: Sky, ia: nat, ie: nat): seq<Ray> {
    var p := sky.target(ia, ie);
    DiscRays(DiscRadius, p, Normalize(scene, Neg(p)), sky.samples, sky.align)
  }

  /** The two values stored for a cell are the counts of its bundle. */
  ghost predicate CellRecorded(incident: real, problem: real, scene: Scene, sky: Sky, table: map<MeshId, string>, ia: nat, ie: nat) {
    && FinalSurfacesNamed(scene, CellBundle(scene, sky, ia, ie), table)
    && incident == ExpectedIncident(scene, CellBundle(scene, sky, ia, ie)) as real
    && problem == ExpectedOnSurface(scene, CellBundle(scene, sky, ia, ie), table, QuerySurface) as real
  }

  /**
   * The double loop over azimuth and elevation: two zero arrays of shape
   * (elevations, azimuths), and for each cell in turn its bundle is traced
   * and only cell [ie][ia] of each array is written. A missing name stops the
   * sweep (`completed` false) with the cells reached so far recorded and the
   * rest still zero.
   */
  method Sweep(nAz: nat, nEl: nat, sky: Sky, scene: Scene, table: map<MeshId, string>)
      returns (resultsIncident: array2<real>, resultsProblem: array2<real>, completed: bool)
    requires WellFormed(scene) && |sky.samples| == DiscRayCount
    ensures fresh(resultsIncident) && fresh(resultsProblem)
    ensures resultsIncident.Length0 == resultsProblem.Length0 == nEl
    ensures resultsIncident.Length1 == resultsProblem.Length1 == nAz
    ensures forall ie, ia :: 0 <= ie < nEl && 0 <= ia < nAz ==>
              CellRecorded(resultsIncident[ie, ia], resultsProblem[ie, ia], scene, sky, table, ia, ie)
              || (resultsIncident[ie, ia] == 0.0 && resultsProblem[ie, ia] == 0.0)
    ensures completed <==> forall ie, ia :: 0 <= ie < nEl && 0 <= ia < nAz ==>
                             FinalSurfacesNamed(scene, CellBundle(scene, sky, ia, ie), table)
    ensures completed ==> forall ie, ia :: 0 <= ie < nEl && 0 <= ia < nAz ==>
                            CellRecorded(resultsIncident[ie, ia], resultsProblem[ie, ia], scene, sky, table, ia, ie)
  {
    resultsIncident := new real[nEl, nAz]((i, j) => 0.0);
    resultsProblem := new real[nEl, nAz]((i, j) => 0.0);
    for ia := 0 to nAz
      invariant forall e, a :: 0 <= e < nEl && 0 <= a < nAz ==>
                  if a < ia
                  then CellRecorded(resultsIncident[e, a], resultsProblem[e, a], scene, sky, table, a, e)
                  else resultsIncident[e, a] == 0.0 && resultsProblem[e, a] == 0.0
    {
      for ie := 0 to nEl
        invariant forall e, a :: 0 <= e < nEl && 0 <= a < nAz ==>
                    if a < ia || (a == ia && e < ie)
                    then CellRecorded(resultsIncident[e, a], resultsProblem[e, a], scene, sky, table, a, e)
                    else resultsIncident[e, a] == 0.0 && resultsProblem[e, a] == 0.0
      {
        var p := sky.target(ia, ie);
        var nhat := Normalize(scene, Neg(p));
        var rays, nRays := RandomDisc(DiscRadius, DiscRayCount, p, nhat, sky.samples, sky.align);
        assert rays == CellBundle(scene, sky, ia, ie);
        var counts := RunCell(rays, scene, table);
        if counts.None? {
          completed := false;
          return;
        }
        resultsIncident[ie, ia] := counts.value.incident as real;
        resultsProblem[ie, ia] := counts.value.problem as real;
      }
    }
    forall ie, ia | 0 <= ie < nEl && 0 <= ia < nAz
      ensures CellRecorded(resultsIncident[ie, ia], resultsProblem[ie, ia], scene, sky, table, ia, ie)
      ensures FinalSurfacesNamed(scene, CellBundle(scene, sky, ia, ie), table)
    {
    }
    completed := true;
  }
}
