/**
 * What the ray tracer consumes from outside: rays, the answers of the
 * intersection engine, and the registry that names the meshes.
 *
 * The open3d `RaycastingScene` is not modelled: a `Scene` carries it as
 * uninterpreted functions (nearest hit per ray, signed distances), together
 * with the per-triangle data the bounce loop reads off the hit mesh.
 */
module Scenes {
  import opened Vectors

  datatype Option<T> = None | Some(value: T)

  /** Ids handed out by `RaycastingScene.add_triangles`. */
  type MeshId = int

  /** `RaycastingScene.INVALID_ID`, the id reported for a ray that hits nothing (2^32 - 1). */
  const InvalidId: MeshId := 4294967295

  /** A row of the N x 6 ray tensor: origin in columns 0-2, direction in columns 3-5. */
  datatype Ray = Ray(origin: Vec3, dir: Vec3)

  /** One row of a `cast_rays` answer: no finite `t_hit`, or a hit with its data. */
  datatype Hit = Miss | Hit(t: real, meshId: MeshId, triId: nat, normal: Vec3)

  datatype Rgb = Rgb(r: real, g: real, b: real)

  /**
   * The geometry and the engine, as seen by the bounce loops:
   *  - meshIds: the ids returned when the meshes were registered;
   *  - absorbers: ids of the meshes on which a ray stops;
   *  - cast: `scene.cast_rays`, row by row;
   *  - sceneSd / hullSd: `compute_signed_distance` of the scene and of the hull scene;
   *  - centroid / triNormal: vertex centroid and stored normal of a triangle of a mesh;
   *  - color: the first vertex colour of a mesh;
   *  - invNorm: the reciprocal Euclidean length used to normalise a vector.
   */
  datatype Scene = Scene(
    meshIds: set<MeshId>,
    absorbers: set<MeshId>,
    cast: Ray -> Hit,
    sceneSd: Vec3 -> real,
    hullSd: Vec3 -> real,
    centroid: (MeshId, nat) -> Vec3,
    triNormal: (MeshId, nat) -> Vec3,
    color: MeshId -> Rgb,
    invNorm: Vec3 -> real)

  /**
   * What the scripts rely on from the engine: a hit only ever names a
   * registered mesh (the `geom_dict` lookup of every hit would fail
   * otherwise), and the sentinel is never a registered id.
   */
  ghost predicate WellFormed(scene: Scene) {
    && InvalidId !in scene.meshIds
    && forall r :: scene.cast(r).Hit? ==> scene.cast(r).meshId in scene.meshIds
  }

  /** The batch answer of `cast_rays`: one row per ray, in order. */
  function CastAll(scene: Scene, rays: seq<Ray>): (ans: seq<Hit>)
    ensures |ans| == |rays|
    ensures forall k :: 0 <= k < |rays| ==> ans[k] == scene.cast(rays[k])
  {
    if rays == [] then [] else CastAll(scene, rays[..|rays| - 1]) + [scene.cast(rays[|rays| - 1])]
  }

  function Last<T>(s: seq<T>): T
    requires s != []
  {
    s[|s| - 1]
  }

  predicate Increasing(s: seq<nat>) {
    forall i, j :: 0 <= i < j < |s| ==> s[i] < s[j]
  }

  /**
   * `np.where(np.isfinite(t_hit))[0]` (hit = true) and its complement
   * (hit = false): the batch positions of the rows of that kind, in order.
   */
  function Rows(ans: seq<Hit>, hit: bool): (r: seq<nat>)
    ensures Increasing(r) && |r| <= |ans|
    ensures forall q :: 0 <= q < |r| ==> q <= r[q] < |ans| && ans[r[q]].Hit? == hit
    ensures forall k :: 0 <= k < |ans| && ans[k].Hit? == hit ==> k in r
  {
    if ans == [] then []
    else
      var n := |ans| - 1;
      var prev := Rows(ans[..n], hit);
      if ans[n].Hit? == hit then prev + [n] else prev
  }

  /** A vector scaled by the reciprocal length the scene supplies (`v / np.linalg.norm(v)`). */
  function Normalize(scene: Scene, v: Vec3): Vec3 {
    Scale(v, scene.invNorm(v))
  }

  // ---------------------------------------------------------------------------
  // Mesh-id / name table
  // ---------------------------------------------------------------------------

  /**
   * `{ids[i]: names[i] for i, _ in enumerate(names)}`: a later entry with the
   * same id overwrites an earlier one.
   */
  function BuildTable(ids: seq<MeshId>, names: seq<string>): (t: map<MeshId, string>)
    requires |names| <= |ids|
    ensures t.Keys == set i | 0 <= i < |names| :: ids[i]
    decreases |names|
  {
    if names == [] then map[]
    else BuildTable(ids, names[..|names| - 1])[ids[|names| - 1] := names[|names| - 1]]
  }

  /**
   * The table of the scripts: `mesh_ids = [sentinel] + ids`, and the
   * dictionary comprehension over `enumerate(names)`, which raises an
   * IndexError (None here) when there are more names than ids.
   */
  function NameTable(sentinel: MeshId, ids: seq<MeshId>, names: seq<string>): (t: Option<map<MeshId, string>>)
    ensures t.Some? <==> |names| <= |ids| + 1
  {
    if |names| <= |ids| + 1 then Some(BuildTable([sentinel] + ids, names)) else None
  }

  predicate Distinct(ids: seq<MeshId>) {
    forall i, j :: 0 <= i < j < |ids| ==> ids[i] != ids[j]
  }

  /** With distinct ids, every name is found under the id at its own position. */
  lemma {:induction false} BuildTableLookup(ids: seq<MeshId>, names: seq<string>, i: nat)
    requires |names| <= |ids| && Distinct(ids) && i < |names|
    ensures ids[i] in BuildTable(ids, names) && BuildTable(ids, names)[ids[i]] == names[i]
    decreases |names|
  {
    if i < |names| - 1 {
      BuildTableLookup(ids, names[..|names| - 1], i);
    }
  }

  /**
   * The registry of the scripts: with one more name than registered meshes and
   * a sentinel distinct from every id, the sentinel is named by the first name
   * and every registered id by the name at its position plus one.
   */
  lemma NameTableAligned(sentinel: MeshId, ids: seq<MeshId>, names: seq<string>)
    requires |names| == |ids| + 1 && Distinct([sentinel] + ids)
    ensures NameTable(sentinel, ids, names).Some?
    ensures sentinel in NameTable(sentinel, ids, names).value
    ensures NameTable(sentinel, ids, names).value[sentinel] == names[0]
    ensures forall i :: 0 <= i < |ids| ==>
              ids[i] in NameTable(sentinel, ids, names).value && NameTable(sentinel, ids, names).value[ids[i]] == names[i + 1]
  {
    var all := [sentinel] + ids;
    BuildTableLookup(all, names, 0);
    forall i | 0 <= i < |ids|
      ensures ids[i] in BuildTable(all, names) && BuildTable(all, names)[ids[i]] == names[i + 1]
    {
      BuildTableLookup(all, names, i + 1);
    }
  }
}
