/**
 * `RayPath`, the per-ray history of scoop_raytrace/raytrace.py, with the two
 * flags `terminated` and `incident` that the quadrant sweep reads and writes
 * (both start false).
 */
module RayPaths {
  import opened Vectors
  import opened Scenes

  /** `last_pos`: `[inf, inf, inf]` until the first segment is recorded. */
  datatype Position = AtInfinity | At(p: Vec3)

  /** A two-point `LineSet` from a segment's start to its end, unpainted or painted one colour. */
  datatype Line = Line(start: Vec3, end: Vec3, paint: Option<Rgb>)

  const Grey: Rgb := Rgb(0.5, 0.5, 0.5)

  /** The whole state of a path, as one value. */
  datatype PathState = PathState(
    rays: seq<Ray>,
    nBounces: nat,
    surfacesHit: seq<MeshId>,
    lastPos: Position,
    color: Rgb,
    lines: seq<Line>,
    terminated: bool,
    incident: bool)

  class RayPath {
    const id: nat
    var rays: seq<Ray>
    var nBounces: nat
    var surfacesHit: seq<MeshId>
    var lastPos: Position
    var color: Rgb
    var lines: seq<Line>
    var terminated: bool
    var incident: bool

    /** One start ray, one line and one surface id per recorded segment. */
    ghost predicate Valid()
      reads this
    {
      |rays| == nBounces && |surfacesHit| == nBounces && |lines| == nBounces
    }

    ghost function State(): PathState
      reads this
    {
      PathState(rays, nBounces, surfacesHit, lastPos, color, lines, terminated, incident)
    }

    constructor (id: nat)
      ensures this.id == id
      ensures State() == PathState([], 0, [], AtInfinity, Grey, [], false, false)
      ensures Valid()
    {
      this.id := id;
      rays := [];
      nBounces := 0;
      surfacesHit := [];
      lastPos := AtInfinity;
      color := Grey;
      lines := [];
      terminated := false;
      incident := false;
    }

    /** `ray_to_line`: the segment between the two positions; remembers the end as `last_pos`. */
    method RayToLine(start: Ray, end: Ray) returns (l: Line)
      modifies this`lastPos
      ensures l == Line(start.origin, end.origin, None)
      ensures lastPos == At(end.origin)
    {
      l := Line(start.origin, end.origin, None);
      lastPos := At(end.origin);
    }

    /**
     * `append`: records the start ray, the segment's line and the surface id,
     * and counts one more bounce. Note that it is the START ray that goes on
     * `rays`.
     */
    method Append(rayStart: Ray, rayEnd: Ray, surfHitId: MeshId)
      requires Valid()
      modifies this
      ensures Valid()
      ensures rays == old(rays) + [rayStart]
      ensures lines == old(lines) + [Line(rayStart.origin, rayEnd.origin, None)]
      ensures surfacesHit == old(surfacesHit) + [surfHitId]
      ensures nBounces == old(nBounces) + 1
      ensures lastPos == At(rayEnd.origin)
      ensures color == old(color) && terminated == old(terminated) && incident == old(incident)
    {
      rays := rays + [rayStart];
      var line := RayToLine(rayStart, rayEnd);
      lines := lines + [line];
      nBounces := nBounces + 1;
      surfacesHit := surfacesHit + [surfHitId];
    }

    /** `apply_color`: sets the colour and repaints every line with it, keeping their geometry. */
    method ApplyColor(rgb: Rgb)
      requires Valid()
      modifies this
      ensures Valid()
      ensures color == rgb
      ensures |lines| == |old(lines)|
      ensures forall k :: 0 <= k < |lines| ==> lines[k] == old(lines[k]).(paint := Some(rgb))
      ensures rays == old(rays) && surfacesHit == old(surfacesHit) && nBounces == old(nBounces)
      ensures lastPos == old(lastPos) && terminated == old(terminated) && incident == old(incident)
    {
      color := rgb;
      var colored: seq<Line> := [];
      for k := 0 to |lines|
        invariant |colored| == k
        invariant forall q :: 0 <= q < k ==> colored[q] == lines[q].(paint := Some(rgb))
      {
        colored := colored + [lines[k].(paint := Some(rgb))];
      }
      lines := colored;
    }
  }

  /** A fresh path after `append(ray, ray, INVALID_ID)`: the launch state of every ray. */
  function Launched(r: Ray): PathState {
    PathState([r], 1, [InvalidId], At(r.origin), Grey, [Line(r.origin, r.origin, None)], false, false)
  }

  /** Every line of `lines` painted `rgb`, geometry kept. */
  function Painted(lines: seq<Line>, rgb: Rgb): seq<Line> {
    seq(|lines|, k requires 0 <= k < |lines| => lines[k].(paint := Some(rgb)))
  }

  /** A path after `apply_color(path.color)`: its lines repainted in its own colour. */
  function Repainted(b: PathState): PathState {
    b.(lines := Painted(b.lines, b.color))
  }

  /** The states of a sequence of paths, in order. */
  ghost function StatesOf(paths: seq<RayPath>): (s: seq<PathState>)
    reads paths
    ensures |s| == |paths| && forall j :: 0 <= j < |paths| ==> s[j] == paths[j].State()
  {
    if paths == [] then [] else StatesOf(paths[..|paths| - 1]) + [paths[|paths| - 1].State()]
  }

  predicate DistinctPaths(paths: seq<RayPath>) {
    forall a, b :: 0 <= a < b < |paths| ==> paths[a] != paths[b]
  }

  /**
   * `paths = [RayPath(i) for i in range(N_rays)]`, then `append(ray, ray,
   * INVALID_ID)` for every launch ray: path `j` is a new object with id `j`
   * holding exactly the launch state of ray `j`.
   */
  method StartPaths(launch: seq<Ray>) returns (paths: seq<RayPath>)
    ensures |paths| == |launch| && DistinctPaths(paths)
    ensures forall j :: 0 <= j < |paths| ==> fresh(paths[j]) && paths[j].id == j
    ensures forall j :: 0 <= j < |paths| ==> paths[j].Valid() && paths[j].State() == Launched(launch[j])
  {
    paths := [];
    for i := 0 to |launch|
      invariant |paths| == i && DistinctPaths(paths)
      invariant forall j :: 0 <= j < i ==>
                  && fresh(paths[j]) && paths[j].id == j && paths[j].Valid()
                  && paths[j].State() == PathState([], 0, [], AtInfinity, Grey, [], false, false)
    {
      var p := new RayPath(i);
      paths := paths + [p];
    }
    for i := 0 to |paths|
      invariant forall j :: 0 <= j < |paths| ==> paths[j].Valid()
      invariant forall j :: 0 <= j < i ==> paths[j].State() == Launched(launch[j])
      invariant forall j :: i <= j < |paths| ==> paths[j].State() == PathState([], 0, [], AtInfinity, Grey, [], false, false)
    {
      paths[i].Append(launch[i], launch[i], InvalidId);
    }
  }
}
