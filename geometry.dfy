/** Three-component vectors over the reals and axis-aligned bounding boxes:
    the parts of `glm::vec3` and of `AABB` that the geometry core relies on. */
module Geometry {

  datatype Vec3 = Vec3(x: real, y: real, z: real) {

    /** `v[i]` for an axis 0, 1 or 2. */
    function Get(i: nat): real
      requires i < 3
    {
      if i == 0 then x else if i == 1 then y else z
    }

    /** This vector with component `i` replaced by `r`. */
    function With(i: nat, r: real): (v: Vec3)
      requires i < 3
      ensures v.Get(i) == r
      ensures forall j :: 0 <= j < 3 && j != i ==> v.Get(j) == Get(j)
    {
      if i == 0 then Vec3(r, y, z) else if i == 1 then Vec3(x, r, z) else Vec3(x, y, r)
    }
  }

  const Zero := Vec3(0.0, 0.0, 0.0)

  /** Multiplying equals by the same factor, on either side: the step the solver does
      not take by itself inside a product. */
  lemma EqualTimes(a: real, b: real, k: real)
    requires a == b
    ensures a * k == b * k && k * a == k * b
  {
  }

  function Splat(r: real): Vec3 { Vec3(r, r, r) }

  function Add(a: Vec3, b: Vec3): Vec3 { Vec3(a.x + b.x, a.y + b.y, a.z + b.z) }

  function Sub(a: Vec3, b: Vec3): Vec3 { Vec3(a.x - b.x, a.y - b.y, a.z - b.z) }

  function Scale(k: real, a: Vec3): Vec3 { Vec3(k * a.x, k * a.y, k * a.z) }

  function Dot(a: Vec3, b: Vec3): real { a.x * b.x + a.y * b.y + a.z * b.z }

  function Cross(a: Vec3, b: Vec3): Vec3 {
    Vec3(a.y * b.z - a.z * b.y, a.z * b.x - a.x * b.z, a.x * b.y - a.y * b.x)
  }

  /** Squared Euclidean distance, `glm::distance2`. */
  function Dist2(a: Vec3, b: Vec3): real {
    var d := Sub(a, b);
    Dot(d, d)
  }

  function RMin(a: real, b: real): real { if a <= b then a else b }

  function RMax(a: real, b: real): real { if a >= b then a else b }

  function Abs(a: real): real { if a < 0.0 then -a else a }

  /** Componentwise minimum and maximum, `glm::min` and `glm::max`. */
  function Min(a: Vec3, b: Vec3): Vec3 { Vec3(RMin(a.x, b.x), RMin(a.y, b.y), RMin(a.z, b.z)) }

  function Max(a: Vec3, b: Vec3): Vec3 { Vec3(RMax(a.x, b.x), RMax(a.y, b.y), RMax(a.z, b.z)) }

  function Clamp1(v: real, lo: real, hi: real): real { RMin(RMax(v, lo), hi) }

  /** `glm::clamp(v, lo, hi)`, componentwise `min(max(v, lo), hi)`. */
  function Clamp(v: Vec3, lo: Vec3, hi: Vec3): Vec3 {
    Vec3(Clamp1(v.x, lo.x, hi.x), Clamp1(v.y, lo.y, hi.y), Clamp1(v.z, lo.z, hi.z))
  }

  /** A half-line `origin + t * direction`, `t >= 0`. */
  datatype Ray = Ray(origin: Vec3, direction: Vec3)

  /** An axis-aligned bounding box given by its two corners. */
  datatype Aabb = Aabb(min: Vec3, max: Vec3)

  /** `p` lies inside `box` (boundary included). */
  predicate Contains(box: Aabb, p: Vec3) {
    && box.min.x <= p.x <= box.max.x
    && box.min.y <= p.y <= box.max.y
    && box.min.z <= p.z <= box.max.z
  }

  /** The degenerate box whose two corners are `p`. */
  function PointBox(p: Vec3): (box: Aabb)
    ensures Contains(box, p)
    ensures forall q :: Contains(box, q) ==> q == p
  {
    Aabb(p, p)
  }

  /** The smallest box holding `box` and `p`. */
  function Grow(box: Aabb, p: Vec3): Aabb {
    Aabb(Min(box.min, p), Max(box.max, p))
  }

  lemma GrowContains(box: Aabb, p: Vec3, q: Vec3)
    requires Contains(box, q)
    ensures Contains(Grow(box, p), q) && Contains(Grow(box, p), p)
  {
  }
}
