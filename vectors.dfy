/** Real 3-vectors: the positions, directions and normals of the ray tracer. */
module Vectors {

  datatype Vec3 = Vec3(x: real, y: real, z: real)

  const Zero: Vec3 := Vec3(0.0, 0.0, 0.0)

  function Add(a: Vec3, b: Vec3): Vec3 {
    Vec3(a.x + b.x, a.y + b.y, a.z + b.z)
  }

  function Sub(a: Vec3, b: Vec3): Vec3 {
    Vec3(a.x - b.x, a.y - b.y, a.z - b.z)
  }

  function Scale(v: Vec3, k: real): Vec3 {
    Vec3(v.x * k, v.y * k, v.z * k)
  }

  function Neg(v: Vec3): Vec3 {
    Vec3(-v.x, -v.y, -v.z)
  }

  function Dot(a: Vec3, b: Vec3): real {
    a.x * b.x + a.y * b.y + a.z * b.z
  }

  /** The squared Euclidean length; the model never takes the square root. */
  function Norm2(v: Vec3): real {
    Dot(v, v)
  }

  predicate IsUnit(v: Vec3) {
    Norm2(v) == 1.0
  }

  lemma Norm2NonNegative(v: Vec3)
    ensures Norm2(v) >= 0.0
  {
    assert v.x * v.x >= 0.0 && v.y * v.y >= 0.0 && v.z * v.z >= 0.0;
  }

  /** The point `origin + dir * t` reached by travelling `t` along a ray. */
  function PointAt(origin: Vec3, dir: Vec3, t: real): (p: Vec3)
    ensures Sub(p, origin) == Scale(dir, t)
  {
    Add(origin, Scale(dir, t))
  }

  lemma DotAddLeft(a: Vec3, b: Vec3, c: Vec3)
    ensures Dot(Add(a, b), c) == Dot(a, c) + Dot(b, c)
  {
  }

  lemma DotScaleLeft(a: Vec3, k: real, c: Vec3)
    ensures Dot(Scale(a, k), c) == k * Dot(a, c)
  {
    calc {
      Dot(Scale(a, k), c);
      (a.x * k) * c.x + (a.y * k) * c.y + (a.z * k) * c.z;
      k * (a.x * c.x) + k * (a.y * c.y) + k * (a.z * c.z);
      k * Dot(a, c);
    }
  }

  lemma DotSymmetric(a: Vec3, b: Vec3)
    ensures Dot(a, b) == Dot(b, a)
  {
  }
}
