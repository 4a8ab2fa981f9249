# Stray-light ray tracer: per-ray bookkeeping

This project models the per-ray bookkeeping of a stray-light ray tracer for a
telescope assembly (scoop, primary and secondary mirror, cryostat window),
written in Dafny, and proves properties of it. A bundle of rays is launched,
and a bounded loop casts the live rays against the registered meshes. For
every ray path the loop decides whether it escapes (no finite hit), is
absorbed, reflects or is trapped, and it keeps the path's hit history, colour
and incidence flag. The last surface of every path is then reduced to
statistics: per-surface histograms with fractions and labels, or, in the sky
sweep, two counts per (azimuth, elevation) cell.

Three scripts share this structure, and each is modelled in its own form:

- `scoop_raytrace/raytrace_quadrant.py` (module `Quadrant`): the sky sweep.
  Each cell traces a three-ray disc bundle for three iterations. The live
  batch is rebuilt from the non-terminated paths. Misses terminate their
  path. Hits latch incidence, stop on absorbers, correct interior hits and
  reflect. A path that hits one surface more than ten times is terminated.
  Each cell writes two counts.
- `scoop_raytrace/raytrace.py` (module `Raytrace`): the fan run. It has up
  to 51 rounds over a batch rebuilt from the reflected rays. A hit is
  dropped when its backed-off end point lies inside a mesh. The run ends
  with the last-surface histogram.
- `TIM_scoop_raytrace.py` (module `TimScoop`): the same round structure with
  a `last_surface_id` path, a distance fudge factor, the 100000-ray
  angular-sector bundle and the relabel-to-`-1` histogram.

Shared modules:

- `Vectors`: real 3-vectors.
- `Optics`: the reflection of `get_new_direction`, the interior-hit
  correction, the fudge factor and the back-off.
- `Scenes`: the intersection engine as an oracle, the batch masks, and the
  mesh-id/name table.
- `Histogram`: `np.unique` with counts, relabelling, fractions and labels.
- `RayPaths`: the `RayPath` class of `scoop_raytrace/raytrace.py`, with the
  two flags `terminated` and `incident` that the quadrant sweep reads and
  writes. The sweep imports `RayPath` from `ray_sets`, which does not define
  it in this revision. The model gives it the raytrace.py class, with both
  flags starting false.
- `RaySets`: the bundle generators of `scoop_raytrace/ray_sets.py`.

The intersection engine (`RaycastingScene`) is a `Scene` value with function
fields:

- the nearest hit of a ray;
- the signed distances of the scene and of the hull;
- the centroid and stored normal of a triangle;
- a mesh's colour;
- the reciprocal length used for every normalisation.

`WellFormed(scene)` states what the scripts rely on: every hit names a
registered mesh, and INVALID_ID (2^32 - 1) is never a registered id.
Sampling, rotations and the disc draw are inputs.

Every stateful part keeps the source's form. `RayPath` is a class whose
methods update its fields. Each loop is a `while`/`for` loop with its
invariants, and the sweep writes into `array2` results. Each loop is proved
against a function of the launch rays: `ExpectedState` for the quadrant
cell, and `FanRun`/`TimRun` with `Batch`/`TimBatch` for the round-based
scripts.

Observed behaviours that the model keeps rather than fixes:

- `RayPath.append` pushes the start ray onto `rays`, and the quadrant batch
  traces `path.rays[-1]`. Every quadrant iteration therefore re-casts the
  launch ray and meets the same first hit again. `Quadrant.ExpectedState` is
  the resulting closed form: a reflecting ray records one hit per iteration
  until the trap.
- `raytrace.py` and `TIM_scoop_raytrace.py` record hit row `i_hit` of a
  shrunken batch on `paths[i_hit]`. From the second round on, a hit is
  credited to the path at its batch position, not to the path that cast
  the ray (`Raytrace.NextBatchSources`, `TimScoop.TimNextBatchSources`).
  Paths beyond a batch's end are never touched again
  (`Raytrace.StaleOnceBeyondBatch`).
- In `raytrace.py` the backward adjustment loop (lines 121-133) can only be
  entered with a non-negative signed distance, because of the `continue`
  at 116-118. It therefore does nothing. `Raytrace.AdjustBackward` models
  the loop and proves this, together with its 50000-try bound.

Behaviours of the code worth stating:

- The quadrant sweep does not renormalise the ray direction (line 114 is
  commented out), and neither does the TIM script. Only `raytrace.py` does.
- Nothing in the code guarantees `N_cryo <= N_incident` (so
  `results_problem <= results_incident` cell by cell). A ray can end on the cryostat
  window without any of its hit points lying inside the hull. The model
  proves only that each count is at most the number of rays.
- The quadrant trap trips when a surface occurs more than
  `max_consecutive_hits` = 10 times in the whole history, whether or not
  the hits are consecutive. With `N_bounces` = 3 it cannot trip in the sweep as
  configured. The cell loop takes the bounce count as a parameter, and the
  trap is proved for any count.
- The round-based scripts run `while i_bounce <= 50`, so they run up to 51
  rounds.

## Model

| member | source | states |
|---|---|---|
| Optics.NewDirection | scoop_raytrace/raytrace_quadrant.py:20-24 | the new direction is a unit vector when the scene's reciprocal length is exact; for a unit normal, its component along the normal is the negated incoming component, scaled |
| Optics.ReflectFlipsNormal | scoop_raytrace/raytrace.py:18-22 | for a unit normal, v' . n = -(v . n) |
| Optics.ReflectKeepsLength | scoop_raytrace/raytrace.py:18-22 | for a unit normal, \|v'\| = \|v\| |
| Optics.ReflectTwice | scoop_raytrace/raytrace.py:18-22 | reflecting twice about the same unit normal returns v |
| Optics.NormalIncidenceReverses | scoop_raytrace/raytrace.py:18-22 | for a unit normal n, a direction c n along it is reflected to -c n |
| Optics.NewDirectionReverses | TIM_scoop_raytrace.py:17-21 | with exact normalisation, a ray heading along -n into a mirror with unit normal n leaves along n |
| Optics.CorrectionDistance | scoop_raytrace/raytrace_quadrant.py:150 | the push is max(1e-7, -2 proj): at least both, and equal to one of them |
| Optics.CorrectInterior | scoop_raytrace/raytrace_quadrant.py:146-152 | the end point is unchanged when proj >= 0, otherwise moved along the normal by the push |
| Optics.CorrectedProjection | scoop_raytrace/raytrace_quadrant.py:146-152 | for a unit normal, the corrected projection is the old one plus the push |
| Optics.CorrectionLeavesOutside | scoop_raytrace/raytrace_quadrant.py:158-165 | the commented self-check holds: for a unit normal, a corrected point has a strictly positive projection |
| Optics.CorrectionMirrorsExcursion | scoop_raytrace/raytrace_quadrant.py:150-151 | when -2 proj >= 1e-7, the correction mirrors the excursion exactly |
| Optics.FudgedDistance | TIM_scoop_raytrace.py:365-366 | for t > 0 the fudged distance lies strictly in (0, t) |
| Optics.FudgedPointBeforeHit | TIM_scoop_raytrace.py:365-368 | the fudged end point lies strictly before the reported hit along the ray |
| Optics.BackedOffBeforeHit | scoop_raytrace/raytrace.py:112 | along a unit direction, the backed-off end lies exactly 1e-6 before the hit |
| Scenes.CastAll | scoop_raytrace/raytrace_quadrant.py:95 | `cast_rays` answers one row per ray, in order |
| Scenes.Rows | scoop_raytrace/raytrace_quadrant.py:97-101 | `np.where` of the finite (or non-finite) rows: increasing, and exactly the rows of that kind |
| Scenes.NameTable | scoop_raytrace/raytrace_quadrant.py:38-39 | the table exists iff there are at most one more names than meshes; with more names, `mesh_ids[i]` raises IndexError |
| Scenes.NameTableAligned | scoop_raytrace/raytrace.py:73-74 | with distinct ids and one more name than meshes, the sentinel gets the first name and `ids[i]` gets `names[i + 1]` |
| Scenes.BuildTableLookup | scoop_raytrace/raytrace.py:74 | with distinct ids, the comprehension files every name under the id at its own position |
| Histogram.Unique | scoop_raytrace/raytrace.py:203 | `np.unique(..., return_counts=True)`: strictly increasing ids, positive counts summing to the length, each count the number of occurrences |
| Histogram.UniqueBins | scoop_raytrace/raytrace.py:203 | every bar is a value of the input with its count, and every value has a bar |
| Histogram.CountInAt | scoop_raytrace/raytrace.py:203 | in sorted bars, the count looked up for a bar's id is that bar's count |
| Histogram.ReplaceAllCounts | TIM_scoop_raytrace.py:411-417 | replacing every `from` by `to` keeps the length, moves the occurrences of `from` onto `to` and keeps every other count |
| Histogram.UniqueCountAbove | scoop_raytrace/raytrace_quadrant.py:179-180 | `any(counts > k)` holds iff some value occurs more than k times |
| Histogram.RelabelCounts | scoop_raytrace/raytrace.py:204-206 | renaming a bar keeps the number of bars and the total count; the old id has count 0 and the new one absorbs it |
| Histogram.RelabelAbsent | scoop_raytrace/raytrace.py:205-206 | when no bar carries the id, the guarded renaming changes nothing |
| Histogram.RelabelCommutes | scoop_raytrace/raytrace.py:203-206 | relabelling after `np.unique` counts the same as replacing the ids first |
| Histogram.FractionsSum | scoop_raytrace/raytrace.py:207 | the fractions `counts / N_rays` sum to the total count over N_rays |
| Histogram.FractionsTotal | TIM_scoop_raytrace.py:448-449 | when the counts sum to N_rays, the fractions sum to 1 |
| Histogram.LabelsDefined | scoop_raytrace/raytrace.py:210 | the label comprehension succeeds iff every bar id is a key; then label k is the name of bar k |
| RayPaths.RayPath.constructor | scoop_raytrace/raytrace.py:27-34 | a new path has no rays, no bounces, no surfaces, its last position at infinity, grey colour, no lines, and is neither terminated nor incident |
| RayPaths.RayPath.RayToLine | scoop_raytrace/raytrace.py:36-42 | the line runs from the start position to the end position; `last_pos` becomes the end position |
| RayPaths.RayPath.Append | scoop_raytrace/raytrace.py:44-49 | the START ray, one line and the id are pushed, `n_bounces` is incremented, `last_pos` is set, and nothing else changes; the record lengths stay equal to `n_bounces` |
| RayPaths.RayPath.ApplyColor | scoop_raytrace/raytrace.py:51-58 | the colour is set, and the lines keep their number and geometry, each painted with it; nothing else changes |
| RayPaths.StartPaths | scoop_raytrace/raytrace.py:77-79 | path j is a new object with id j whose `surfaces_hit` is exactly [INVALID_ID], with the launch ray recorded once |
| RaySets.SimpleFan | scoop_raytrace/ray_sets.py:8-23 | 1 + 4 len(radii) rays, N_rays equal to that; the first ray is on-axis, and radius r adds (0,r), (r,0), (0,-r), (-r,0) in that order; all from z = 10 heading (0,0,-1) |
| RaySets.SetColumn | scoop_raytrace/ray_sets.py:35-38 | `t[:, c] = vals` writes column c and leaves every other cell |
| RaySets.SimpleGaussian | scoop_raytrace/ray_sets.py:26-39 | 500 rays; ray k starts at the k-th normal sample (x_k, y_k) at height 10 and heads (0,0,-1) |
| RaySets.DiscPointInDisc | scoop_raytrace/ray_sets.py:46-49 | the sampled radius r_max sqrt(U) lies in [0, r_max), so the sample lies on the disc |
| RaySets.RandomDisc | scoop_raytrace/ray_sets.py:42-68 | exactly N_rays rays: the rotated disc samples shifted to `pos`, each heading along `dir` |
| RaySets.Tensor | scoop_raytrace/ray_sets.py:58-67 | the N x 6 tensor's rows are the (u, v) pairs |
| RaySets.DiscRaysFacts | scoop_raytrace/ray_sets.py:46-57 | every direction equals `dir`; under a length-keeping rotation every origin lies within r_max of `pos` |
| RaySets.AngularSector | scoop_raytrace/ray_sets.py:95-138 | the double loop emits the bundles of every launch point in order, and N_rays is their count |
| RaySets.SectorRaysLength | scoop_raytrace/ray_sets.py:116-137 | the sector has len(xflat) N_bundle_side^2 rays |
| RaySets.SectorRaysConfigured | scoop_raytrace/ray_sets.py:103-116 | as configured (20 launch points, N_bundle_side = 100), `angular_sector` launches 200000 rays |
| RaySets.SectorRaysHeight | scoop_raytrace/ray_sets.py:101-130 | every sector ray starts at height 10, at one of the launch points |
| RaySets.SectorRaysIndex | scoop_raytrace/ray_sets.py:121-131 | ray i N + j is the j-th rotation of launch point i |
| RaySets.SectorDirectionsUnit | scoop_raytrace/ray_sets.py:107-128 | with length-keeping rotations and exact reciprocal lengths, every direction is a unit vector |
| RaySets.AimIsUnit | scoop_raytrace/ray_sets.py:107-110 | `v_aim` is a unit vector when the reciprocal length is exact |
| Quadrant.BuildBatch | scoop_raytrace/raytrace_quadrant.py:83-91 | the batch lists exactly the non-terminated paths in increasing index order; `valid_rays[k]` is the last ray of path `ray_idx_to_path_idx[k]` |
| Quadrant.ProcessHit | scoop_raytrace/raytrace_quadrant.py:106-186 | one hit takes the mesh colour and latches `incident` (set only when the raw hit point has negative hull distance, never reset). An absorber appends one segment to the raw end and terminates. A reflector appends one segment to the corrected end, and terminates exactly when already terminated or now trapped |
| Quadrant.TrappedRun | scoop_raytrace/raytrace_quadrant.py:77-186 | after the sentinel and j hits on one mesh, the trap trips iff j > 10 |
| Quadrant.ExpectedStateFacts | scoop_raytrace/raytrace_quadrant.py:69-204 | every path keeps `len(rays) = len(lines) = len(surfaces_hit) = n_bounces` and `1 <= len(surfaces_hit) <= 1 + iterations`; `surfaces_hit[0]` is INVALID_ID and the last ray is the launch ray; a live path has no id more than 10 times |
| Quadrant.Stable | scoop_raytrace/raytrace_quadrant.py:86-87 | a terminated path is left as it is |
| Quadrant.AdvanceMiss | scoop_raytrace/raytrace_quadrant.py:97-100 | a miss terminates its path and appends nothing; it can only happen in the first iteration |
| Quadrant.AdvanceAbsorbed | scoop_raytrace/raytrace_quadrant.py:128-131 | an absorber hit records one segment with the mesh id, terminates, and computes no reflection |
| Quadrant.AdvanceFirstReflection | scoop_raytrace/raytrace_quadrant.py:138-186 | the first reflective hit on a launched path gives the closed form after one iteration |
| Quadrant.AdvanceReflection | scoop_raytrace/raytrace_quadrant.py:138-186 | a later reflective hit on a live path gives the closed form one iteration further |
| Quadrant.AdvanceHit | scoop_raytrace/raytrace_quadrant.py:106-186 | any hit on a live path gives the closed form one iteration further |
| Quadrant.HandleMiss | scoop_raytrace/raytrace_quadrant.py:100 | terminating a live path whose ray misses moves exactly that path one iteration on |
| Quadrant.ApplyMisses | scoop_raytrace/raytrace_quadrant.py:97-100 | the miss loop terminates exactly the paths owning a missed row |
| Quadrant.HandleHit | scoop_raytrace/raytrace_quadrant.py:107-186 | handling the hit of a live path moves exactly that path one iteration on |
| Quadrant.ApplyHits | scoop_raytrace/raytrace_quadrant.py:101-186 | the hit loop advances exactly the paths owning a hit row |
| Quadrant.MasksDisjoint | scoop_raytrace/raytrace_quadrant.py:97-106 | no path owns both a missed row and a hit row |
| Quadrant.AdvanceBatch | scoop_raytrace/raytrace_quadrant.py:93-186 | the cast, the miss loop and the hit loop move every path one iteration on |
| Quadrant.TerminatedAhead | scoop_raytrace/raytrace_quadrant.py:86-87 | the paths terminated before an iteration already hold their state after it |
| Quadrant.AllCovered | scoop_raytrace/raytrace_quadrant.py:83-186 | once the miss rows and the hit rows of the batch have been handled, every path is in the next iteration's closed form |
| Quadrant.CellIteration | scoop_raytrace/raytrace_quadrant.py:81-188 | one iteration stops the loop exactly when no path is live; otherwise every path moves one iteration on |
| Quadrant.BounceLoop | scoop_raytrace/raytrace_quadrant.py:78-188 | at most N_bounces iterations; leaving early means every path is terminated; every path is in the closed form of the iterations run |
| Quadrant.TraceCell | scoop_raytrace/raytrace_quadrant.py:69-188 | one new path per launch ray, then the cell loop with the outcome above |
| Quadrant.StartsLive | scoop_raytrace/raytrace_quadrant.py:69-91 | a terminated path means at least one iteration has run: the first iteration never finds an empty batch |
| Quadrant.CountsBounded | scoop_raytrace/raytrace_quadrant.py:200-212 | N_incident and N_cryo are at most the number of paths |
| Quadrant.Measure | scoop_raytrace/raytrace_quadrant.py:197-212 | the lookup succeeds iff every last id is named (otherwise KeyError); then the counts are those of the incident paths and of the paths ending on 'cryostat_window' |
| Quadrant.ExpectedTail | scoop_raytrace/raytrace_quadrant.py:204-211 | after at least one iteration a path's last id is the first hit's mesh, or INVALID_ID for a miss, and its incidence flag says whether the first hit point lies inside the hull |
| Quadrant.CountsMatch | scoop_raytrace/raytrace_quadrant.py:197-212 | for paths in the closed form, the names are all found iff the launch rays' final surfaces are, and the measured counts equal the counts over the launch rays' first hits |
| Quadrant.ExpectedCountsBounded | scoop_raytrace/raytrace_quadrant.py:200-212 | both counts over the launch rays are at most the number of rays |
| Quadrant.RunCell | scoop_raytrace/raytrace_quadrant.py:60-212 | one cell succeeds iff every final id is named; then N_incident and N_cryo are the counts of the bundle's first hits |
| Quadrant.Sweep | scoop_raytrace/raytrace_quadrant.py:44-221 | two fresh (elevations x azimuths) arrays; every cell holds either its own bundle's two counts or zero; the sweep completes iff every bundle's final surfaces are named, and then every cell holds its counts |
| Raytrace.AdjustBackward | scoop_raytrace/raytrace.py:119-133 | at most 50000 tries, each moving back by 1e-6; entered with a non-negative distance it changes nothing; tries left over mean the point is outside |
| Raytrace.FanHit | scoop_raytrace/raytrace.py:104-152 | one hit row: a backed-off end inside a mesh drops the hit; otherwise one segment with the normalised ray and the id, colour on an absorber and no new ray; else one new ray from the hit point along the reflection |
| Raytrace.FanRow | scoop_raytrace/raytrace.py:104-152 | the hit of row `i_hit` changes `paths[i_hit]` and no other path |
| Raytrace.FanRound | scoop_raytrace/raytrace.py:88-155 | one round: `new_ray_list` is the harvest of the hit rows, and path j changes only by the hit of row j |
| Raytrace.FanBounce | scoop_raytrace/raytrace.py:86-157 | one pass of the `while` body takes every path from i rounds to i + 1 rounds and the batch to the next one |
| Raytrace.HarvestShorter | scoop_raytrace/raytrace.py:138-152 | len(new_ray_list) <= len(hit_mask) |
| Raytrace.BatchShrinks | scoop_raytrace/raytrace.py:104-155 | no batch is longer than the hit rows of the one before, nor than the one before |
| Raytrace.EmptyStaysEmpty | scoop_raytrace/raytrace.py:155-162 | once a batch is empty every later batch is empty |
| Raytrace.HarvestSources | scoop_raytrace/raytrace.py:104-152 | harvested ray k continues the hit row at batch position m >= k |
| Raytrace.NextBatchSources | scoop_raytrace/raytrace.py:138-152 | ray k of the next batch continues the ray at position m >= k, yet is recorded on `paths[k]` |
| Raytrace.TraceFan | scoop_raytrace/raytrace.py:83-162 | between 1 and 51 rounds; the loop stops early only on an empty batch; every path ends in the state the rounds give it |
| Raytrace.BatchesShrink | scoop_raytrace/raytrace.py:104-155 | batches never grow |
| Raytrace.StaleOnceBeyondBatch | scoop_raytrace/raytrace.py:138 | a path past the end of a batch is never touched again |
| Raytrace.MissedLaunchStaysLaunched | scoop_raytrace/raytrace.py:77-138 | a missed launch ray past the first round's batch keeps its path in the launch state, ending on INVALID_ID |
| Raytrace.AfterGrows | scoop_raytrace/raytrace.py:138-139 | one round adds at most one segment to a path, on a registered mesh |
| Raytrace.GrownFrom | scoop_raytrace/raytrace.py:86-157 | what holds after k rounds carries on to every later round |
| Raytrace.FanRunAppends | scoop_raytrace/raytrace.py:138-139 | rounds only append: the old history stays a prefix, at most one id per round, each a registered mesh |
| Raytrace.FanLastNamed | scoop_raytrace/raytrace.py:171 | every path ends on INVALID_ID or a registered mesh |
| Raytrace.LastSurfaces | scoop_raytrace/raytrace.py:168-182 | `last_surfaces_hit[j]` is the last id of path j, and every path is repainted in its own colour |
| Raytrace.FanBarsCounts | scoop_raytrace/raytrace.py:203-207 | the bars sum to N_rays; INVALID_ID has no bar and its count goes to -1 |
| Raytrace.FanFractionsTotal | scoop_raytrace/raytrace.py:207 | the plotted fractions sum to 1 |
| Raytrace.FanLabelsFail | scoop_raytrace/raytrace.py:203-210 | as written, the labels fail (KeyError) whenever a path ends on INVALID_ID and the table has no key -1 |
| Raytrace.FixedFanLabelsNamed | scoop_raytrace/raytrace.py:73-74 | looked up before the renaming, every bar has a label naming its surface: the first name for INVALID_ID and `names[i + 1]` for `ids[i]` |
| Raytrace.FanLabelsAgree | scoop_raytrace/raytrace.py:203-210 | when no path ends on INVALID_ID, the labels as written equal the intended ones |
| Raytrace.FanEnds | scoop_raytrace/raytrace.py:168-171 | after the loop, from the launch states, every path's history is that of its rounds and ends on INVALID_ID or a registered mesh |
| Raytrace.FanLastsNamed | scoop_raytrace/raytrace.py:171-172 | every last surface is INVALID_ID or a registered mesh |
| Raytrace.TraceLastSurfaces | scoop_raytrace/raytrace.py:77-182 | between 1 and 51 rounds; entry j of the last surfaces is the last id of path j after the rounds |
| Raytrace.RunFan | scoop_raytrace/raytrace.py:66-210 | the launch is exactly the nine rays of `simple_fan([0.9, 0.61])`; at most 51 rounds; last[j] is the last id of path j's rounds; the bars sum to 9 and the fractions to 1; `labels` is line 210's lookup, which fails (KeyError) when a path ends on INVALID_ID and -1 is no key, and equals the intended labels when no path ends there; `namedLabels` is the intended lookup, one label per bar |
| TimScoop.RayPath.constructor | TIM_scoop_raytrace.py:26-33 | a new path: no rays, `n_bounces` = 0, `last_surface_id` = INVALID_ID, at infinity, grey, no lines |
| TimScoop.RayPath.RayToLine | TIM_scoop_raytrace.py:35-41 | the line from start to end; `last_pos` is the end |
| TimScoop.RayPath.Append | TIM_scoop_raytrace.py:43-48 | one ray and one line pushed, `n_bounces + 1`, `last_surface_id := surf_hit_id`, nothing else |
| TimScoop.RayPath.ApplyColor | TIM_scoop_raytrace.py:53-60 | the colour set and every line painted with it, nothing else |
| TimScoop.StartPaths | TIM_scoop_raytrace.py:338 | one new path per ray with its index as id, none launched |
| TimScoop.TimBundle | TIM_scoop_raytrace.py:262-319 | the bundle loop emits 50^2 rays per each of the 40 launch points, N_rays = 100000 |
| TimScoop.TimHit | TIM_scoop_raytrace.py:354-393 | one segment to the fudged end with the id; an absorber takes its colour and adds no ray; otherwise one ray from the fudged end along the reflection |
| TimScoop.TimEndBeforeHit | TIM_scoop_raytrace.py:365-391 | the recorded end and the next origin lie strictly before the reported hit |
| TimScoop.TimRow | TIM_scoop_raytrace.py:354-393 | the hit of row `i_hit` changes `paths[i_hit]` and no other path |
| TimScoop.TimRound | TIM_scoop_raytrace.py:347-396 | one round: `new_ray_list` is the harvest, and path j changes only by the hit of row j |
| TimScoop.TimBounce | TIM_scoop_raytrace.py:345-398 | one pass of the `while` body takes every path from i rounds to i + 1 rounds and the batch to the next one |
| TimScoop.TimHarvestShorter | TIM_scoop_raytrace.py:376-393 | len(new_ray_list) <= len(hit_mask) |
| TimScoop.TimBatchShrinks | TIM_scoop_raytrace.py:345-396 | no batch is longer than the one before |
| TimScoop.TimHarvestSources | TIM_scoop_raytrace.py:354-393 | harvested ray k continues the hit row at batch position m >= k |
| TimScoop.TimNextBatchSources | TIM_scoop_raytrace.py:376-393 | ray k of the next batch continues the ray at position m >= k, yet is recorded on `paths[k]` |
| TimScoop.TraceTim | TIM_scoop_raytrace.py:342-403 | between 1 and 51 rounds, stopping early only on an empty batch; every path ends in the state the rounds give it |
| TimScoop.TimBatchesShrink | TIM_scoop_raytrace.py:345-396 | batches never grow |
| TimScoop.TimStaleOnceBeyondBatch | TIM_scoop_raytrace.py:376 | a path past the end of a batch is never touched again |
| TimScoop.TimAfterGrows | TIM_scoop_raytrace.py:376-377 | one round adds at most one segment to a path, on a registered mesh |
| TimScoop.TimGrownStep | TIM_scoop_raytrace.py:345-398 | what holds after k rounds holds after k + 1 rounds |
| TimScoop.TimRunAppends | TIM_scoop_raytrace.py:376-377 | rounds only append, at most one segment per round, with rays and lines in step; a path with no new segment keeps its last surface, and one with new segments ends on a registered mesh |
| TimScoop.TimFate | TIM_scoop_raytrace.py:411-417 | a path is relabelled -1 iff it never recorded a segment; otherwise it ends on a registered mesh |
| TimScoop.TimLastSurfaces | TIM_scoop_raytrace.py:409-427 | entry j is -1 when path j's last id is INVALID_ID and that id otherwise; every path is repainted in its colour |
| TimScoop.TimLabelsNamed | TIM_scoop_raytrace.py:176-178 | with `mesh_ids = [-1] + ids` every bar has a label: 'inf' for -1 and `mesh_names[i + 1]` for `ids[i]` |
| TimScoop.TimLabelsFromScene | TIM_scoop_raytrace.py:452 | when every last surface is -1 or a registered mesh, the tick labels exist, one per bar |
| TimScoop.TimEnds | TIM_scoop_raytrace.py:411-417 | after the loop, from new paths, every path's last id is that of its rounds, and relabelled it is -1 or a registered mesh |
| TimScoop.TraceTimLastSurfaces | TIM_scoop_raytrace.py:338-427 | between 1 and 51 rounds; the last surfaces are the relabelled last ids after the rounds, each -1 or a registered mesh |
| TimScoop.RunTim | TIM_scoop_raytrace.py:262-452 | the launch is exactly the sector bundle over the 40 launch points x 50^2 rotations, 100000 rays; at most 51 rounds; entry j of the last surfaces is path j's relabelled last id; the bars count every id and sum to N_rays; the fractions sum to 1; one label per bar |

Definitions with no contract of their own are stated through the lemmas
and methods of their rows:

- `Histogram.Relabel` (`scoop_raytrace/raytrace.py:205-206`): `Histogram.RelabelCounts`, `Histogram.RelabelAbsent`.
- `Raytrace.FanBars` (`scoop_raytrace/raytrace.py:203-206`): `Raytrace.FanBarsCounts`.
- `Raytrace.FanLabels` (`scoop_raytrace/raytrace.py:210`): `Raytrace.FanLabelsFail`, `Raytrace.FanLabelsAgree`.
- `Raytrace.Dropped` (`scoop_raytrace/raytrace.py:114-118`): `Raytrace.FanHit`.
- `Quadrant.Trapped` (`scoop_raytrace/raytrace_quadrant.py:179-180`): `Quadrant.TrappedRun`, `Quadrant.ProcessHit`.
- `TimScoop.Relabelled` (`TIM_scoop_raytrace.py:413-416`): `TimScoop.TimFate`, `TimScoop.TimLastSurfaces`.
- `Quadrant.ExpectedState`: `Quadrant.ExpectedStateFacts`, `Quadrant.BounceLoop`, `Quadrant.CountsMatch`.
- `Raytrace.FanRun` and `Raytrace.Batch`: `Raytrace.TraceFan`, `Raytrace.FanRunAppends`, `Raytrace.NextBatchSources`.
- `TimScoop.TimRun` and `TimScoop.TimBatch`: `TimScoop.TraceTim`, `TimScoop.TimRunAppends`, `TimScoop.TimNextBatchSources`.

## Left out

- Mesh construction (`scoop_raytrace/shortened_no_louvers/geometry.py` and the inline CAD code of the TIM script) is open3d geometry with floating-point trigonometry. Only its output enters: the registered ids, the absorber set and the per-mesh colours and triangles, all in `Scene`.
- `RaycastingScene` (`cast_rays`, `compute_signed_distance`, `list_intersections`) is an external engine. It is the uninterpreted oracle inside `Scene`. The `list_intersections` print at `raytrace.py:89` is output only.
- Rendering and plotting (matplotlib, `o3d.visualization`, LineSet legacy conversion, `plot_rays`) are output only. A painted line is a `Line` value with its colour.
- Printing, including the id-to-name print at `raytrace.py:92-95`, is output only. That print can raise a KeyError of its own; it is not modelled.
- `scoop_raytrace/post_process.py`, the pickle dumps and the KeyboardInterrupt handler at `raytrace_quadrant.py:234-246` are file I/O and plotting.
- `scoop_raytrace/test_rays.py` is a visual experiment on open3d intersections.
- `random_omnidirectional` in `ray_sets.py` only re-samples random directions, which would be inputs here. It is not part of the core.
- `mission_planning/` (astroplan wrappers and a tkinter GUI) is unrelated to the ray tracer.
- Random sampling, the seeded generator, `scipy` rotations, trigonometry and `sqrt` are inputs: samples, rotation functions and the `invNorm` reciprocal-length oracle.
- Floating point and float32 tensors: all arithmetic is on reals, with no rounding.
- `TimScoop.RayPath`: `get_total_length` (`TIM_scoop_raytrace.py:50-51`) is not modelled, because it reads a `lengths` field that does not exist. It would raise if called, and nothing calls it.
- Raytrace.RunFan: `raytrace.py:62` unpacks three values from `get_geometry`, which returns four. The script as written stops there with a ValueError. The model starts from the registered scene instead.
- Raytrace.RunFan and TimScoop.RunTim do not model the geometry-to-id dictionary `geom_dict`. `WellFormed` states the property it relies on: every hit names a registered mesh.
- Raytrace.RunFan: the labels of line 210 are returned as written (`labels`, absent where the KeyError is raised) beside the intended labels (`namedLabels`); only the as-written ones can be absent.
- Raytrace.FanRunAppends: `raytrace.py:78-79` stores views of the rows of `rays` as each path's first record, and line 109 normalises `rays[i_hit]` in place, which rewrites that record too in round 0. The model treats rays as values, so the launch record is the ray as launched. The two agree for unit launch directions, such as the fan's (0, 0, -1), and nothing in the script reads `path.rays`.
- Quadrant.Sweep: a name missing from the table raises a KeyError that ends the script; the model stops the sweep with `completed` false instead. The 45 x 135 grid and its launch points `10 (cos az, sin el, sin az)` are inputs (`Sky.target`), because trigonometry is not modelled. So are the disc samples, which are identical for every cell because `random_disc` reseeds its generator.
- The 100000-ray scale of the TIM run is only a length. Nothing in the proofs depends on the ray count beyond `|launch|`.

## Findings

| source | as written | input that shows it | evidently intended | confidence | as-written member | corrected member |
|---|---|---|---|---|---|---|
| scoop_raytrace/raytrace.py:203-210 | `np.unique` ids have INVALID_ID renamed to -1, then each id is looked up in `mesh_id_to_name`, whose sentinel key is INVALID_ID (line 73), not -1 | any run where a path ends on INVALID_ID, e.g. a fan ray that misses all geometry: the bar id -1 is not a key, so the label comprehension raises KeyError | label every bar by the surface it counts, the sentinel bar by the sentinel's name (the TIM script avoids the issue by keying its table by -1) | not executed | Raytrace.FanLabelsFail | Raytrace.FixedFanLabelsNamed |
