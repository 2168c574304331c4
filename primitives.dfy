/** `Triangle` and `Segment` of src/primitives.hpp with the indexing operator of
    src/primitives.cpp. */
module Primitives {
  import opened Geometry

  /** Exactly three vertices. */
  datatype Triangle = Triangle(a: Vec3, b: Vec3, c: Vec3) {

    /** `const Triangle::operator[](i)`: vertex `i`, for `0 <= i <= 2`. */
    function At(i: int): (v: Vec3)
      requires 0 <= i <= 2
      ensures i == 0 ==> v == a
      ensures i == 1 ==> v == b
      ensures i == 2 ==> v == c
    {
      if i == 0 then a else if i == 1 then b else c
    }

    /** Writing through the non-const `operator[](i)`: the same field as the
        const operator, and no other vertex, takes the new value. */
    function Set(i: int, v: Vec3): (t: Triangle)
      requires 0 <= i <= 2
      ensures t.At(i) == v
      ensures forall j :: 0 <= j <= 2 && j != i ==> t.At(j) == At(j)
    {
      if i == 0 then this.(a := v) else if i == 1 then this.(b := v) else this.(c := v)
    }

    function Vertices(): (vs: seq<Vec3>)
      ensures |vs| == 3 && forall j :: 0 <= j < 3 ==> vs[j] == At(j)
    {
      [a, b, c]
    }
  }

  /** Exactly two end points. */
  datatype Segment = Segment(a: Vec3, b: Vec3)

  /** The point `a + u (b - a) + v (c - a)` of the triangle's plane. */
  function PlanePoint(tri: Triangle, u: real, v: real): Vec3 {
    Add(tri.a, Add(Scale(u, Sub(tri.b, tri.a)), Scale(v, Sub(tri.c, tri.a))))
  }

  /** The point `b + x (a - b)` of the segment's line; `x` in `[0, 1]` stays on the
      segment. */
  function LinePoint(s: Segment, x: real): Vec3 {
    Add(s.b, Scale(x, Sub(s.a, s.b)))
  }

  /** Both points written out componentwise. */
  lemma LinePointExplicit(s: Segment, x: real)
    ensures LinePoint(s, x).x == s.b.x + x * (s.a.x - s.b.x)
    ensures LinePoint(s, x).y == s.b.y + x * (s.a.y - s.b.y)
    ensures LinePoint(s, x).z == s.b.z + x * (s.a.z - s.b.z)
  {
  }

  lemma PlanePointExplicit(t: Triangle, u: real, v: real)
    ensures PlanePoint(t, u, v).x == t.a.x + (u * (t.b.x - t.a.x) + v * (t.c.x - t.a.x))
    ensures PlanePoint(t, u, v).y == t.a.y + (u * (t.b.y - t.a.y) + v * (t.c.y - t.a.y))
    ensures PlanePoint(t, u, v).z == t.a.z + (u * (t.b.z - t.a.z) + v * (t.c.z - t.a.z))
  {
  }

  /** Writing a vertex and reading it back, or reading another one. */
  lemma SetThenAt(t: Triangle, i: int, j: int, v: Vec3)
    requires 0 <= i <= 2 && 0 <= j <= 2
    ensures t.Set(i, v).At(j) == if i == j then v else t.At(j)
  {
  }

  /** Writing back the vertex just read changes nothing. */
  lemma SetAtIdentity(t: Triangle, i: int)
    requires 0 <= i <= 2
    ensures t.Set(i, t.At(i)) == t
  {
  }

  /** The corners of all triangles in order, three per triangle. */
  function Flatten(tris: seq<Triangle>): (vs: seq<Vec3>)
    ensures |vs| == 3 * |tris|
  {
    if tris == [] then [] else Flatten(tris[..|tris| - 1]) + tris[|tris| - 1].Vertices()
  }
}
