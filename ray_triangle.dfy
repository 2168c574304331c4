/** The ray/triangle test of src/ray_triangle_intersection.cpp: Cramer's rule on
    `origin + t * direction = a + u * (b - a) + v * (c - a)`, with the cofactors
    written out. */
module RayTriangle {
  import opened Geometry
  import opened Primitives

  /** The fixed tolerance `epsilon` of the test. */
  const Epsilon: real := 0.00001

  /** First cofactor column `(c11, c21, c31)` as the source spells it. */
  function CofactorColumn1(ab: Vec3, ac: Vec3): Vec3 {
    Vec3(ab.y * ac.z - ab.z * ac.y, ab.z * ac.x - ab.x * ac.z, ab.x * ac.y - ab.y * ac.x)
  }

  /** Second cofactor column `(c12, c22, c32)`. */
  function CofactorColumn2(d: Vec3, ac: Vec3): Vec3 {
    Vec3(d.y * ac.z - d.z * ac.y, d.z * ac.x - d.x * ac.z, d.x * ac.y - d.y * ac.x)
  }

  /** Third cofactor column `(c13, c23, c33)`. */
  function CofactorColumn3(d: Vec3, ab: Vec3): Vec3 {
    Vec3(d.z * ab.y - d.y * ab.z, d.x * ab.z - d.z * ab.x, d.y * ab.x - d.x * ab.y)
  }

  /** `det`: the direction against the first cofactor column. */
  function Det(ray: Ray, tri: Triangle): real {
    Dot(ray.direction, CofactorColumn1(Sub(tri.b, tri.a), Sub(tri.c, tri.a)))
  }

  /** The solution `(t, u, v)` of the linear system computed by the test. */
  datatype Params = Params(t: real, u: real, v: real)

  function Solve(ray: Ray, tri: Triangle): Params
    requires Det(ray, tri) != 0.0
  {
    var ab, ac := Sub(tri.b, tri.a), Sub(tri.c, tri.a);
    var det := Det(ray, tri);
    var c := Sub(tri.a, ray.origin);
    Params(Dot(CofactorColumn1(ab, ac), c) / det,
           Dot(CofactorColumn2(ray.direction, ac), c) / det,
           Dot(CofactorColumn3(ray.direction, ab), c) / det)
  }

  /** `ray_intersects_triangle_non_coplanar(ray, triangle)`, with its early returns
      in the source's order: near-coplanar, then `t`, `u`, `v` and `u + v`. A
      reported hit has a non-singular system. */
  function RayIntersectsTriangleNonCoplanar(ray: Ray, tri: Triangle): (r: bool)
    ensures r ==> Det(ray, tri) != 0.0
  {
    var det := Det(ray, tri);
    if Abs(det) < Epsilon then false
    else
      var s := Solve(ray, tri);
      if s.t < -Epsilon then false
      else if s.u < -Epsilon then false
      else if s.v < -Epsilon then false
      else if s.u + s.v > 1.0 + Epsilon then false
      else true
  }

  /** The point of the ray's line at parameter `t`. */
  function RayPoint(ray: Ray, t: real): Vec3 {
    Add(ray.origin, Scale(t, ray.direction))
  }

  /** The first cofactor column is `cross(ab, ac)`, so `det = dot(direction, cross(ab, ac))`;
      the other two are `cross(direction, ac)` and `cross(ab, direction)`. */
  lemma CofactorsAreCrossProducts(ray: Ray, tri: Triangle)
    ensures CofactorColumn1(Sub(tri.b, tri.a), Sub(tri.c, tri.a)) == Cross(Sub(tri.b, tri.a), Sub(tri.c, tri.a))
    ensures Det(ray, tri) == Dot(ray.direction, Cross(Sub(tri.b, tri.a), Sub(tri.c, tri.a)))
    ensures CofactorColumn2(ray.direction, Sub(tri.c, tri.a)) == Cross(ray.direction, Sub(tri.c, tri.a))
    ensures CofactorColumn3(ray.direction, Sub(tri.b, tri.a)) == Cross(Sub(tri.b, tri.a), ray.direction)
  {
  }

  lemma RayPointExplicit(ray: Ray, t: real)
    ensures RayPoint(ray, t).x == ray.origin.x + t * ray.direction.x
    ensures RayPoint(ray, t).y == ray.origin.y + t * ray.direction.y
    ensures RayPoint(ray, t).z == ray.origin.z + t * ray.direction.z
  {
  }

  /** The system `origin + t d = a + u ab + v ac` rearranged as `a - origin = t d - u ab - v ac`. */
  lemma SystemRearranged(ray: Ray, tri: Triangle, t: real, u: real, v: real)
    ensures var d, ab, ac, c := ray.direction, Sub(tri.b, tri.a), Sub(tri.c, tri.a), Sub(tri.a, ray.origin);
            RayPoint(ray, t) == PlanePoint(tri, u, v) <==>
            && c.x == t * d.x - u * ab.x - v * ac.x
            && c.y == t * d.y - u * ab.y - v * ac.y
            && c.z == t * d.z - u * ab.z - v * ac.z
  {
    RayPointExplicit(ray, t);
    PlanePointExplicit(tri, u, v);
  }

  lemma QuotientOfMultiple(n: real, d: real, q: real)
    requires d != 0.0 && n == q * d
    ensures n / d == q
  {
  }

  lemma MultipleOfQuotient(n: real, d: real, q: real)
    requires d != 0.0 && q == n / d
    ensures q * d == n
  {
  }

  /** Uniqueness: any solution of the system is the one the test computes. */
  lemma SolveIsUnique(ray: Ray, tri: Triangle, t: real, u: real, v: real)
    requires Det(ray, tri) != 0.0
    requires RayPoint(ray, t) == PlanePoint(tri, u, v)
    ensures Solve(ray, tri) == Params(t, u, v)
  {
    SystemRearranged(ray, tri, t, u, v);
    CramerQuotients(ray.direction, Sub(tri.b, tri.a), Sub(tri.c, tri.a), Sub(tri.a, ray.origin), t, u, v);
  }

  /** The quotients of the source's formulas recover any solution `(t, u, v)`. */
  lemma CramerQuotients(d: Vec3, ab: Vec3, ac: Vec3, c: Vec3, t: real, u: real, v: real)
    requires Dot(d, CofactorColumn1(ab, ac)) != 0.0
    requires c.x == t * d.x - u * ab.x - v * ac.x
    requires c.y == t * d.y - u * ab.y - v * ac.y
    requires c.z == t * d.z - u * ab.z - v * ac.z
    ensures Dot(CofactorColumn1(ab, ac), c) / Dot(d, CofactorColumn1(ab, ac)) == t
    ensures Dot(CofactorColumn2(d, ac), c) / Dot(d, CofactorColumn1(ab, ac)) == u
    ensures Dot(CofactorColumn3(d, ab), c) / Dot(d, CofactorColumn1(ab, ac)) == v
  {
    var det := Dot(d, CofactorColumn1(ab, ac));
    TripleProducts(d, ab, ac, c, t, u, v);
    QuotientOfMultiple(Dot(CofactorColumn1(ab, ac), c), det, t);
    QuotientOfMultiple(Dot(CofactorColumn2(d, ac), c), det, u);
    QuotientOfMultiple(Dot(CofactorColumn3(d, ab), c), det, v);
  }

  lemma TripleProducts(d: Vec3, ab: Vec3, ac: Vec3, c: Vec3, t: real, u: real, v: real)
    requires c.x == t * d.x - u * ab.x - v * ac.x
    requires c.y == t * d.y - u * ab.y - v * ac.y
    requires c.z == t * d.z - u * ab.z - v * ac.z
    ensures Dot(CofactorColumn1(ab, ac), c) == t * Dot(d, CofactorColumn1(ab, ac))
    ensures Dot(CofactorColumn2(d, ac), c) == u * Dot(d, CofactorColumn1(ab, ac))
    ensures Dot(CofactorColumn3(d, ab), c) == v * Dot(d, CofactorColumn1(ab, ac))
  {
    ScalarTripleProducts(d.x, d.y, d.z, ab.x, ab.y, ab.z, ac.x, ac.y, ac.z, c.x, c.y, c.z, t, u, v);
  }

  /** `TripleProducts` over plain reals, where the solver can normalise the polynomials. */
  lemma ScalarTripleProducts(d1: real, d2: real, d3: real, b1: real, b2: real, b3: real,
                             e1: real, e2: real, e3: real, c1: real, c2: real, c3: real,
                             t: real, u: real, v: real)
    requires c1 == t * d1 - u * b1 - v * e1
    requires c2 == t * d2 - u * b2 - v * e2
    requires c3 == t * d3 - u * b3 - v * e3
    ensures var n1, n2, n3 := b2 * e3 - b3 * e2, b3 * e1 - b1 * e3, b1 * e2 - b2 * e1;
            var m1, m2, m3 := d2 * e3 - d3 * e2, d3 * e1 - d1 * e3, d1 * e2 - d2 * e1;
            var k1, k2, k3 := d3 * b2 - d2 * b3, d1 * b3 - d3 * b1, d2 * b1 - d1 * b2;
            var det := d1 * n1 + d2 * n2 + d3 * n3;
            && n1 * c1 + n2 * c2 + n3 * c3 == t * det
            && m1 * c1 + m2 * c2 + m3 * c3 == u * det
            && k1 * c1 + k2 * c2 + k3 * c3 == v * det
  {
  }

  /** Existence: when `det != 0` the computed parameters solve the system. */
  lemma SolveSolves(ray: Ray, tri: Triangle)
    requires Det(ray, tri) != 0.0
    ensures RayPoint(ray, Solve(ray, tri).t) == PlanePoint(tri, Solve(ray, tri).u, Solve(ray, tri).v)
  {
    var s := Solve(ray, tri);
    CramerSolves(ray.direction, Sub(tri.b, tri.a), Sub(tri.c, tri.a), Sub(tri.a, ray.origin), s.t, s.u, s.v);
    SystemRearranged(ray, tri, s.t, s.u, s.v);
  }

  /** The quotients of the source's formulas solve the system. */
  lemma CramerSolves(d: Vec3, ab: Vec3, ac: Vec3, c: Vec3, t: real, u: real, v: real)
    requires Dot(d, CofactorColumn1(ab, ac)) != 0.0
    requires t == Dot(CofactorColumn1(ab, ac), c) / Dot(d, CofactorColumn1(ab, ac))
    requires u == Dot(CofactorColumn2(d, ac), c) / Dot(d, CofactorColumn1(ab, ac))
    requires v == Dot(CofactorColumn3(d, ab), c) / Dot(d, CofactorColumn1(ab, ac))
    ensures c.x == t * d.x - u * ab.x - v * ac.x
    ensures c.y == t * d.y - u * ab.y - v * ac.y
    ensures c.z == t * d.z - u * ab.z - v * ac.z
  {
    var det := Dot(d, CofactorColumn1(ab, ac));
    var tn, un, vn := Dot(CofactorColumn1(ab, ac), c), Dot(CofactorColumn2(d, ac), c), Dot(CofactorColumn3(d, ab), c);
    CramerIdentity(d, ab, ac, c);
    MultipleOfQuotient(tn, det, t);
    MultipleOfQuotient(un, det, u);
    MultipleOfQuotient(vn, det, v);
    ScaledEquality(det, c, d, ab, ac, t, u, v, tn, un, vn);
  }

  /** Cramer's rule as a polynomial identity:
      `[c ab ac] d - [d c ac] ab - [d ab c] ac == [d ab ac] c`, componentwise,
      with the brackets written as the source's cofactor columns. */
  lemma CramerIdentity(d: Vec3, ab: Vec3, ac: Vec3, c: Vec3)
    ensures var det := Dot(d, CofactorColumn1(ab, ac));
            var tn, un, vn := Dot(CofactorColumn1(ab, ac), c), Dot(CofactorColumn2(d, ac), c), Dot(CofactorColumn3(d, ab), c);
            && tn * d.x - un * ab.x - vn * ac.x == det * c.x
            && tn * d.y - un * ab.y - vn * ac.y == det * c.y
            && tn * d.z - un * ab.z - vn * ac.z == det * c.z
  {
    CramerAtoms(d, ab, ac, c, Dot(d, CofactorColumn1(ab, ac)), Dot(CofactorColumn1(ab, ac), c),
                Dot(CofactorColumn2(d, ac), c), Dot(CofactorColumn3(d, ab), c));
  }

  lemma CramerAtoms(d: Vec3, ab: Vec3, ac: Vec3, c: Vec3, det: real, tn: real, un: real, vn: real)
    requires det == Dot(d, CofactorColumn1(ab, ac))
    requires tn == Dot(CofactorColumn1(ab, ac), c)
    requires un == Dot(CofactorColumn2(d, ac), c)
    requires vn == Dot(CofactorColumn3(d, ab), c)
    ensures tn * d.x - un * ab.x - vn * ac.x == det * c.x
    ensures tn * d.y - un * ab.y - vn * ac.y == det * c.y
    ensures tn * d.z - un * ab.z - vn * ac.z == det * c.z
  {
    DotCofactorColumn1(d, ab, ac);
    DotCofactorColumn1(c, ab, ac);
    DotCofactorColumn2(c, d, ac);
    DotCofactorColumn3(c, d, ab);
    ScalarCramer(d.x, d.y, d.z, ab.x, ab.y, ab.z, ac.x, ac.y, ac.z, c.x, c.y, c.z, det, tn, un, vn);
  }

  /** The three cofactor columns against a vector, as polynomials in the components. */
  lemma DotCofactorColumn1(w: Vec3, ab: Vec3, ac: Vec3)
    ensures Dot(w, CofactorColumn1(ab, ac)) == w.x * (ab.y * ac.z - ab.z * ac.y) + w.y * (ab.z * ac.x - ab.x * ac.z) + w.z * (ab.x * ac.y - ab.y * ac.x)
    ensures Dot(CofactorColumn1(ab, ac), w) == (ab.y * ac.z - ab.z * ac.y) * w.x + (ab.z * ac.x - ab.x * ac.z) * w.y + (ab.x * ac.y - ab.y * ac.x) * w.z
  {
  }

  lemma DotCofactorColumn2(w: Vec3, d: Vec3, ac: Vec3)
    ensures Dot(CofactorColumn2(d, ac), w) == (d.y * ac.z - d.z * ac.y) * w.x + (d.z * ac.x - d.x * ac.z) * w.y + (d.x * ac.y - d.y * ac.x) * w.z
  {
  }

  lemma DotCofactorColumn3(w: Vec3, d: Vec3, ab: Vec3)
    ensures Dot(CofactorColumn3(d, ab), w) == (d.z * ab.y - d.y * ab.z) * w.x + (d.x * ab.z - d.z * ab.x) * w.y + (d.y * ab.x - d.x * ab.y) * w.z
  {
  }

  /** Cramer's identity over plain reals, one component at a time. */
  lemma ScalarCramer(d1: real, d2: real, d3: real, b1: real, b2: real, b3: real,
                     e1: real, e2: real, e3: real, c1: real, c2: real, c3: real,
                     det: real, tn: real, un: real, vn: real)
    requires det == d1 * (b2 * e3 - b3 * e2) + d2 * (b3 * e1 - b1 * e3) + d3 * (b1 * e2 - b2 * e1)
    requires tn == (b2 * e3 - b3 * e2) * c1 + (b3 * e1 - b1 * e3) * c2 + (b1 * e2 - b2 * e1) * c3
    requires un == (d2 * e3 - d3 * e2) * c1 + (d3 * e1 - d1 * e3) * c2 + (d1 * e2 - d2 * e1) * c3
    requires vn == (d3 * b2 - d2 * b3) * c1 + (d1 * b3 - d3 * b1) * c2 + (d2 * b1 - d1 * b2) * c3
    ensures tn * d1 - un * b1 - vn * e1 == det * c1
    ensures tn * d2 - un * b2 - vn * e2 == det * c2
    ensures tn * d3 - un * b3 - vn * e3 == det * c3
  {
    ScalarCramer1(d1, d2, d3, b1, b2, b3, e1, e2, e3, c1, c2, c3, det, tn, un, vn);
    ScalarCramer2(d1, d2, d3, b1, b2, b3, e1, e2, e3, c1, c2, c3, det, tn, un, vn);
    ScalarCramer3(d1, d2, d3, b1, b2, b3, e1, e2, e3, c1, c2, c3, det, tn, un, vn);
  }

  lemma ScalarCramer1(d1: real, d2: real, d3: real, b1: real, b2: real, b3: real,
                     e1: real, e2: real, e3: real, c1: real, c2: real, c3: real,
                     det: real, tn: real, un: real, vn: real)
    requires det == d1 * (b2 * e3 - b3 * e2) + d2 * (b3 * e1 - b1 * e3) + d3 * (b1 * e2 - b2 * e1)
    requires tn == (b2 * e3 - b3 * e2) * c1 + (b3 * e1 - b1 * e3) * c2 + (b1 * e2 - b2 * e1) * c3
    requires un == (d2 * e3 - d3 * e2) * c1 + (d3 * e1 - d1 * e3) * c2 + (d1 * e2 - d2 * e1) * c3
    requires vn == (d3 * b2 - d2 * b3) * c1 + (d1 * b3 - d3 * b1) * c2 + (d2 * b1 - d1 * b2) * c3
    ensures tn * d1 - un * b1 - vn * e1 == det * c1
  {
    EqualTimes(tn, (b2 * e3 - b3 * e2) * c1 + (b3 * e1 - b1 * e3) * c2 + (b1 * e2 - b2 * e1) * c3, d1);
    EqualTimes(un, (d2 * e3 - d3 * e2) * c1 + (d3 * e1 - d1 * e3) * c2 + (d1 * e2 - d2 * e1) * c3, b1);
    EqualTimes(vn, (d3 * b2 - d2 * b3) * c1 + (d1 * b3 - d3 * b1) * c2 + (d2 * b1 - d1 * b2) * c3, e1);
    EqualTimes(det, d1 * (b2 * e3 - b3 * e2) + d2 * (b3 * e1 - b1 * e3) + d3 * (b1 * e2 - b2 * e1), c1);
  }

  lemma ScalarCramer2(d1: real, d2: real, d3: real, b1: real, b2: real, b3: real,
                     e1: real, e2: real, e3: real, c1: real, c2: real, c3: real,
                     det: real, tn: real, un: real, vn: real)
    requires det == d1 * (b2 * e3 - b3 * e2) + d2 * (b3 * e1 - b1 * e3) + d3 * (b1 * e2 - b2 * e1)
    requires tn == (b2 * e3 - b3 * e2) * c1 + (b3 * e1 - b1 * e3) * c2 + (b1 * e2 - b2 * e1) * c3
    requires un == (d2 * e3 - d3 * e2) * c1 + (d3 * e1 - d1 * e3) * c2 + (d1 * e2 - d2 * e1) * c3
    requires vn == (d3 * b2 - d2 * b3) * c1 + (d1 * b3 - d3 * b1) * c2 + (d2 * b1 - d1 * b2) * c3
    ensures tn * d2 - un * b2 - vn * e2 == det * c2
  {
    EqualTimes(tn, (b2 * e3 - b3 * e2) * c1 + (b3 * e1 - b1 * e3) * c2 + (b1 * e2 - b2 * e1) * c3, d2);
    EqualTimes(un, (d2 * e3 - d3 * e2) * c1 + (d3 * e1 - d1 * e3) * c2 + (d1 * e2 - d2 * e1) * c3, b2);
    EqualTimes(vn, (d3 * b2 - d2 * b3) * c1 + (d1 * b3 - d3 * b1) * c2 + (d2 * b1 - d1 * b2) * c3, e2);
    EqualTimes(det, d1 * (b2 * e3 - b3 * e2) + d2 * (b3 * e1 - b1 * e3) + d3 * (b1 * e2 - b2 * e1), c2);
  }

  lemma ScalarCramer3(d1: real, d2: real, d3: real, b1: real, b2: real, b3: real,
                     e1: real, e2: real, e3: real, c1: real, c2: real, c3: real,
                     det: real, tn: real, un: real, vn: real)
    requires det == d1 * (b2 * e3 - b3 * e2) + d2 * (b3 * e1 - b1 * e3) + d3 * (b1 * e2 - b2 * e1)
    requires tn == (b2 * e3 - b3 * e2) * c1 + (b3 * e1 - b1 * e3) * c2 + (b1 * e2 - b2 * e1) * c3
    requires un == (d2 * e3 - d3 * e2) * c1 + (d3 * e1 - d1 * e3) * c2 + (d1 * e2 - d2 * e1) * c3
    requires vn == (d3 * b2 - d2 * b3) * c1 + (d1 * b3 - d3 * b1) * c2 + (d2 * b1 - d1 * b2) * c3
    ensures tn * d3 - un * b3 - vn * e3 == det * c3
  {
    EqualTimes(tn, (b2 * e3 - b3 * e2) * c1 + (b3 * e1 - b1 * e3) * c2 + (b1 * e2 - b2 * e1) * c3, d3);
    EqualTimes(un, (d2 * e3 - d3 * e2) * c1 + (d3 * e1 - d1 * e3) * c2 + (d1 * e2 - d2 * e1) * c3, b3);
    EqualTimes(vn, (d3 * b2 - d2 * b3) * c1 + (d1 * b3 - d3 * b1) * c2 + (d2 * b1 - d1 * b2) * c3, e3);
    EqualTimes(det, d1 * (b2 * e3 - b3 * e2) + d2 * (b3 * e1 - b1 * e3) + d3 * (b1 * e2 - b2 * e1), c3);
  }

  lemma ScaledEquality(det: real, c: Vec3, d: Vec3, ab: Vec3, ac: Vec3, t: real, u: real, v: real,
                       tn: real, un: real, vn: real)
    requires det != 0.0
    requires t * det == tn && u * det == un && v * det == vn
    requires tn * d.x - un * ab.x - vn * ac.x == det * c.x
    requires tn * d.y - un * ab.y - vn * ac.y == det * c.y
    requires tn * d.z - un * ab.z - vn * ac.z == det * c.z
    ensures c.x == t * d.x - u * ab.x - v * ac.x
    ensures c.y == t * d.y - u * ab.y - v * ac.y
    ensures c.z == t * d.z - u * ab.z - v * ac.z
  {
    assert det * (t * d.x - u * ab.x - v * ac.x) == det * c.x;
    assert det * (t * d.y - u * ab.y - v * ac.y) == det * c.y;
    assert det * (t * d.z - u * ab.z - v * ac.z) == det * c.z;
  }

  /** The test's acceptance region: `t`, `u`, `v` and `1 - u - v` each at least `-Epsilon`. */
  predicate InBand(t: real, u: real, v: real) {
    t >= -Epsilon && u >= -Epsilon && v >= -Epsilon && u + v <= 1.0 + Epsilon
  }

  /** The ray's line meets the triangle's plane at parameter `t`, barycentric `(u, v)`,
      inside the acceptance region. */
  predicate Meets(ray: Ray, tri: Triangle, t: real, u: real, v: real) {
    InBand(t, u, v) && RayPoint(ray, t) == PlanePoint(tri, u, v)
  }

  /** What the test decides: the ray is far enough from parallel to the plane and its line
      meets the plane within the (slightly widened) triangle and not behind the origin. */
  lemma IntersectsIff(ray: Ray, tri: Triangle)
    ensures RayIntersectsTriangleNonCoplanar(ray, tri) <==>
            Abs(Det(ray, tri)) >= Epsilon && exists t, u, v :: Meets(ray, tri, t, u, v)
  {
    if Abs(Det(ray, tri)) >= Epsilon {
      var s := Solve(ray, tri);
      SolveSolves(ray, tri);
      if RayIntersectsTriangleNonCoplanar(ray, tri) {
        assert Meets(ray, tri, s.t, s.u, s.v);
      }
      if exists t, u, v :: Meets(ray, tri, t, u, v) {
        var t, u, v :| Meets(ray, tri, t, u, v);
        SolveIsUnique(ray, tri, t, u, v);
      }
    }
  }

  /** A hit strictly inside the triangle and in front of the origin is reported, unless the
      ray is within `Epsilon` of parallel to the plane. */
  lemma InsideHitIsReported(ray: Ray, tri: Triangle, t: real, u: real, v: real)
    requires Abs(Det(ray, tri)) >= Epsilon
    requires t >= 0.0 && u >= 0.0 && v >= 0.0 && u + v <= 1.0
    requires RayPoint(ray, t) == PlanePoint(tri, u, v)
    ensures RayIntersectsTriangleNonCoplanar(ray, tri)
  {
    assert Meets(ray, tri, t, u, v);
    IntersectsIff(ray, tri);
  }

  /** `(v0 + v1 + v2) / 3`. */
  function Centroid(tri: Triangle): Vec3 {
    Scale(1.0 / 3.0, Add(Add(tri.a, tri.b), tri.c))
  }

  /** The barycentric coordinates `(u, v)` of vertex `i`. */
  function VertexParams(i: int): (r: (real, real))
    requires 0 <= i <= 2
  {
    if i == 0 then (0.0, 0.0) else if i == 1 then (1.0, 0.0) else (0.0, 1.0)
  }

  lemma VertexIsPlanePoint(tri: Triangle, i: int)
    requires 0 <= i <= 2
    ensures PlanePoint(tri, VertexParams(i).0, VertexParams(i).1) == tri.At(i)
  {
    var ab, ac := Sub(tri.b, tri.a), Sub(tri.c, tri.a);
    if i == 0 {
      assert Scale(0.0, ab) == Zero && Scale(0.0, ac) == Zero;
    } else if i == 1 {
      assert Scale(1.0, ab) == ab && Scale(0.0, ac) == Zero;
    } else {
      assert Scale(0.0, ab) == Zero && Scale(1.0, ac) == ac;
    }
  }

  /** Walking `1 / k` along `k * (p - o)` from `o` reaches `p`. */
  lemma ReachesTarget(o: Vec3, p: Vec3, k: real)
    requires k > 0.0
    ensures RayPoint(Ray(o, Scale(k, Sub(p, o))), 1.0 / k) == p
  {
    var w := 1.0 / k;
    assert w * k == 1.0;
    assert w * (k * (p.x - o.x)) == (w * k) * (p.x - o.x);
    assert w * (k * (p.y - o.y)) == (w * k) * (p.y - o.y);
    assert w * (k * (p.z - o.z)) == (w * k) * (p.z - o.z);
  }

  /** A ray from `o` aimed at a point of the triangle hits, unless it is within `Epsilon`
      of the plane. */
  lemma AimedRayHits(tri: Triangle, o: Vec3, p: Vec3, k: real, u: real, v: real)
    requires k > 0.0 && u >= 0.0 && v >= 0.0 && u + v <= 1.0
    requires PlanePoint(tri, u, v) == p
    requires Abs(Det(Ray(o, Scale(k, Sub(p, o))), tri)) >= Epsilon
    ensures RayIntersectsTriangleNonCoplanar(Ray(o, Scale(k, Sub(p, o))), tri)
  {
    ReachesTarget(o, p, k);
    InsideHitIsReported(Ray(o, Scale(k, Sub(p, o))), tri, 1.0 / k, u, v);
  }

  /** From `centroid + n`, a ray aimed at any vertex (with any positive length of direction,
      covering the normalisation) hits, unless it is within `Epsilon` of the plane. */
  lemma VertexRayHits(tri: Triangle, n: Vec3, i: int, k: real)
    requires 0 <= i <= 2 && k > 0.0
    requires var o := Add(Centroid(tri), n);
             Abs(Det(Ray(o, Scale(k, Sub(tri.At(i), o))), tri)) >= Epsilon
    ensures var o := Add(Centroid(tri), n);
            RayIntersectsTriangleNonCoplanar(Ray(o, Scale(k, Sub(tri.At(i), o))), tri)
  {
    VertexIsPlanePoint(tri, i);
    AimedRayHits(tri, Add(Centroid(tri), n), tri.At(i), k, VertexParams(i).0, VertexParams(i).1);
  }

  lemma CentroidIsPlanePoint(tri: Triangle)
    ensures PlanePoint(tri, 1.0 / 3.0, 1.0 / 3.0) == Centroid(tri)
  {
  }

  /** From `centroid + n` along `-n`, the ray reaches the centroid at `t = 1` and hits,
      unless `n` is within `Epsilon` of the plane. */
  lemma CentroidRayHits(tri: Triangle, n: Vec3)
    requires Abs(Det(Ray(Add(Centroid(tri), n), Scale(-1.0, n)), tri)) >= Epsilon
    ensures RayIntersectsTriangleNonCoplanar(Ray(Add(Centroid(tri), n), Scale(-1.0, n)), tri)
  {
    var ray := Ray(Add(Centroid(tri), n), Scale(-1.0, n));
    CentroidIsPlanePoint(tri);
    assert RayPoint(ray, 1.0) == Centroid(tri);
    InsideHitIsReported(ray, tri, 1.0, 1.0 / 3.0, 1.0 / 3.0);
  }

  /** Vertex `i` of the triangle scaled by 2 about its centroid. */
  function ScaledVertex(tri: Triangle, i: int): Vec3
    requires 0 <= i <= 2
  {
    Add(Scale(2.0, Sub(tri.At(i), Centroid(tri))), Centroid(tri))
  }

  /** The barycentric coordinates of the scaled vertices: one of them is `-1/3`. */
  function ScaledVertexParams(i: int): (r: (real, real))
    requires 0 <= i <= 2
    ensures r.0 < -Epsilon || r.1 < -Epsilon
  {
    var third := 1.0 / 3.0;
    if i == 0 then (-third, -third) else if i == 1 then (5.0 * third, -third) else (-third, 5.0 * third)
  }

  lemma ScaledVertexIsPlanePoint(tri: Triangle, i: int)
    requires 0 <= i <= 2
    ensures PlanePoint(tri, ScaledVertexParams(i).0, ScaledVertexParams(i).1) == ScaledVertex(tri, i)
  {
  }

  /** From `centroid + n`, a ray aimed at a vertex of the triangle scaled by 2 about its
      centroid misses the original triangle, for every triangle and offset. */
  lemma ScaledVertexRayMisses(tri: Triangle, n: Vec3, i: int, k: real)
    requires 0 <= i <= 2 && k > 0.0
    ensures var o := Add(Centroid(tri), n);
            !RayIntersectsTriangleNonCoplanar(Ray(o, Scale(k, Sub(ScaledVertex(tri, i), o))), tri)
  {
    var o := Add(Centroid(tri), n);
    var ray := Ray(o, Scale(k, Sub(ScaledVertex(tri, i), o)));
    if Abs(Det(ray, tri)) >= Epsilon {
      ReachesTarget(o, ScaledVertex(tri, i), k);
      ScaledVertexIsPlanePoint(tri, i);
      SolveIsUnique(ray, tri, 1.0 / k, ScaledVertexParams(i).0, ScaledVertexParams(i).1);
    }
  }
}
