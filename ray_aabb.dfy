/** The slab test of src/ray_aabb_intersection.cpp. Single-precision floats are
    modelled as reals extended with +infinity, the initial far bound of a slab. */
module RayAabb {
  import opened Geometry
  import opened Wrappers
  import Common

  /** A real number or +infinity. */
  datatype XReal = Fin(r: real) | PosInf

  predicate XLe(a: XReal, b: XReal) {
    b.PosInf? || (a.Fin? && a.r <= b.r)
  }

  function XMin(a: XReal, b: XReal): XReal { if XLe(a, b) then a else b }

  function XMax(a: XReal, b: XReal): XReal { if XLe(a, b) then b else a }

  /** `min_component(v)`: `min(x, min(y, z))`. */
  function MinComponent(v: seq<XReal>): (m: XReal)
    requires |v| == 3
    ensures forall i :: 0 <= i < 3 ==> XLe(m, v[i])
    ensures m == v[0] || m == v[1] || m == v[2]
  {
    XMin(v[0], XMin(v[1], v[2]))
  }

  /** `max_component(v)` AS WRITTEN: `max(x, min(y, z))`, which is not the
      largest component. */
  function MaxComponent(v: seq<XReal>): (m: XReal)
    requires |v| == 3
    ensures m == v[0] || m == v[1] || m == v[2]
    ensures XLe(v[0], m) && XLe(XMin(v[1], v[2]), m)
    ensures m == v[0] || m == XMin(v[1], v[2])
  {
    XMax(v[0], XMin(v[1], v[2]))
  }

  lemma MaxComponentIsNotTheMaximum()
    ensures MaxComponent([Fin(0.0), Fin(5.0), Fin(1.0)]) == Fin(1.0)
  {
  }

  /** `is_not_all_zeros(v)`: some component has a non-zero magnitude. */
  function IsNotAllZeros(v: Vec3): (r: bool)
    ensures r <==> v != Zero
  {
    Abs(v.x) > 0.0 || Abs(v.y) > 0.0 || Abs(v.z) > 0.0
  }

  /** An axis is treated as parallel to the slab planes when its direction
      component is close to zero in the sense of src/common.cpp. */
  predicate Parallel(ray: Ray, i: nat)
    requires i < 3
  {
    Common.IsClose(ray.direction.Get(i), 0.0)
  }

  /** The two plane-crossing parameters of axis `i`, in increasing order (`std::minmax`). */
  function Crossings(ray: Ray, box: Aabb, i: nat): (c: (real, real))
    requires i < 3 && !Parallel(ray, i)
    ensures c.0 <= c.1
  {
    Common.IsCloseToZeroIsExact(ray.direction.Get(i));
    var d := ray.direction.Get(i);
    var a := (box.min.Get(i) - ray.origin.Get(i)) / d;
    var b := (box.max.Get(i) - ray.origin.Get(i)) / d;
    if b < a then (b, a) else (a, b)
  }

  /** Near bound of the slab of axis `i`: 0 when the axis is parallel. */
  function SlabMin(ray: Ray, box: Aabb, i: nat): XReal
    requires i < 3
  {
    if Parallel(ray, i) then Fin(0.0) else Fin(Crossings(ray, box, i).0)
  }

  /** Far bound of the slab of axis `i`: +infinity when the axis is parallel. */
  function SlabMax(ray: Ray, box: Aabb, i: nat): XReal
    requires i < 3
  {
    if Parallel(ray, i) then PosInf else Fin(Crossings(ray, box, i).1)
  }

  function SlabMins(ray: Ray, box: Aabb): seq<XReal> {
    [SlabMin(ray, box, 0), SlabMin(ray, box, 1), SlabMin(ray, box, 2)]
  }

  function SlabMaxs(ray: Ray, box: Aabb): seq<XReal> {
    [SlabMax(ray, box, 0), SlabMax(ray, box, 1), SlabMax(ray, box, 2)]
  }

  /** `t_min = max(max_component(t_slab_min), 0)`. */
  function TMin(ray: Ray, box: Aabb): XReal {
    XMax(MaxComponent(SlabMins(ray, box)), Fin(0.0))
  }

  /** `t_max = min_component(t_slab_max)`. */
  function TMax(ray: Ray, box: Aabb): XReal {
    MinComponent(SlabMaxs(ray, box))
  }

  /** The value `ray_aabb_intersection` returns, as a function of its inputs:
      never beyond the far bound `t_max`, and non-negative iff `t_max` is. */
  function SlabIntersection(ray: Ray, box: Aabb): (t: XReal)
    ensures XLe(t, TMax(ray, box))
    ensures XLe(Fin(0.0), t) <==> XLe(Fin(0.0), TMax(ray, box))
  {
    XMin(TMin(ray, box), TMax(ray, box))
  }

  /** `ray_aabb_intersection(ray, aabb)`: the three-axis loop filling the slab
      bounds, then `min(t_min, t_max)`. */
  method RayAabbIntersection(ray: Ray, box: Aabb) returns (t: XReal)
    requires IsNotAllZeros(ray.direction)
    ensures t == SlabIntersection(ray, box)
    ensures t.Fin?
  {
    var slabMin := [Fin(0.0), Fin(0.0), Fin(0.0)];
    var slabMax := [PosInf, PosInf, PosInf];
    for i := 0 to 3
      invariant |slabMin| == 3 && |slabMax| == 3
      invariant forall j :: 0 <= j < i ==> slabMin[j] == SlabMin(ray, box, j) && slabMax[j] == SlabMax(ray, box, j)
      invariant forall j :: i <= j < 3 ==> slabMin[j] == Fin(0.0) && slabMax[j] == PosInf
    {
      var d := ray.direction.Get(i);
      if !Common.IsClose(d, 0.0) {
        var near := (box.min.Get(i) - ray.origin.Get(i)) / d;
        var far := (box.max.Get(i) - ray.origin.Get(i)) / d;
        if far < near {
          near, far := far, near;
        }
        slabMin := slabMin[i := Fin(near)];
        slabMax := slabMax[i := Fin(far)];
      }
    }
    assert slabMin == SlabMins(ray, box) && slabMax == SlabMaxs(ray, box);
    var tMin := XMax(MaxComponent(slabMin), Fin(0.0));
    var tMax := MinComponent(slabMax);
    SomeAxisCrossed(ray, box);
    t := XMin(tMin, tMax);
  }

  /** A non-zero direction has an axis that is not parallel, so `t_max` is finite. */
  lemma SomeAxisCrossed(ray: Ray, box: Aabb)
    requires IsNotAllZeros(ray.direction)
    ensures TMax(ray, box).Fin?
  {
    var d := ray.direction;
    Common.IsCloseToZeroIsExact(d.x);
    Common.IsCloseToZeroIsExact(d.y);
    Common.IsCloseToZeroIsExact(d.z);
    assert !Parallel(ray, 0) || !Parallel(ray, 1) || !Parallel(ray, 2);
  }

  /** A parallel axis keeps its slab at `[0, +infinity]`; on every other axis the
      slab's near bound does not exceed its far bound. */
  lemma SlabBounds(ray: Ray, box: Aabb, i: nat)
    requires i < 3
    ensures Parallel(ray, i) ==> SlabMin(ray, box, i) == Fin(0.0) && SlabMax(ray, box, i) == PosInf
    ensures Parallel(ray, i) <==> ray.direction.Get(i) == 0.0
    ensures XLe(SlabMin(ray, box, i), SlabMax(ray, box, i))
  {
    Common.IsCloseToZeroIsExact(ray.direction.Get(i));
  }

  /** `t_min` is never negative, so hit or miss (`t >= 0`) is decided by `t_max`
      alone: the result is non-negative iff every crossed slab's far bound is. */
  lemma HitDecidedByFarBounds(ray: Ray, box: Aabb)
    ensures XLe(Fin(0.0), TMin(ray, box))
    ensures XLe(Fin(0.0), SlabIntersection(ray, box)) <==> XLe(Fin(0.0), TMax(ray, box))
    ensures XLe(Fin(0.0), SlabIntersection(ray, box)) <==>
              forall i :: 0 <= i < 3 && !Parallel(ray, i) ==> Crossings(ray, box, i).1 >= 0.0
  {
    var m := SlabMaxs(ray, box);
    assert forall i :: 0 <= i < 3 ==> m[i] == SlabMax(ray, box, i);
    if XLe(Fin(0.0), TMax(ray, box)) {
      forall i | 0 <= i < 3 && !Parallel(ray, i) ensures Crossings(ray, box, i).1 >= 0.0 {
        assert XLe(TMax(ray, box), m[i]);
      }
    }
  }

  /** The test harness counts a result `t >= 0` as a hit. */
  predicate ReportsHit(ray: Ray, box: Aabb) {
    XLe(Fin(0.0), SlabIntersection(ray, box))
  }

  function UnitBox(): Aabb { Aabb(Splat(-1.0), Splat(1.0)) }

  /** The 25 test cases of src/ray_aabb_intersection.cpp on the box [-1, 1]^3,
      one lemma each, numbered as the test prints them. */
  lemma UnitBoxCase0()
    ensures ReportsHit(Ray(Splat(2.0), Splat(-1.0)), UnitBox())
  {
  }

  lemma UnitBoxCase1()
    ensures !ReportsHit(Ray(Splat(2.0), Splat(1.0)), UnitBox())
  {
  }

  lemma UnitBoxCase2()
    ensures !ReportsHit(Ray(Splat(-2.0), Splat(-1.0)), UnitBox())
  {
  }

  lemma UnitBoxCase3()
    ensures ReportsHit(Ray(Splat(-2.0), Splat(1.0)), UnitBox())
  {
  }

  lemma UnitBoxCase4()
    ensures ReportsHit(Ray(Splat(-1.0), Splat(-1.0)), UnitBox())
  {
  }

  lemma UnitBoxCase5()
    ensures ReportsHit(Ray(Splat(-1.0), Splat(1.0)), UnitBox())
  {
  }

  lemma UnitBoxCase6()
    ensures !ReportsHit(Ray(Splat(-1.0001), Splat(-1.0)), UnitBox())
  {
  }

  lemma UnitBoxCase7()
    ensures ReportsHit(Ray(Splat(-1.0001), Splat(1.0)), UnitBox())
  {
  }

  lemma UnitBoxCase8()
    ensures ReportsHit(Ray(Splat(-0.9999), Splat(1.0)), UnitBox())
  {
  }

  lemma UnitBoxCase9()
    ensures ReportsHit(Ray(Splat(-0.9999), Splat(-1.0)), UnitBox())
  {
  }

  lemma UnitBoxCase10()
    ensures ReportsHit(Ray(Vec3(-1.0, -1.0, -4.0), Vec3(0.0, 0.0, 1.0)), UnitBox())
  {
  }

  lemma UnitBoxCase11()
    ensures ReportsHit(Ray(Vec3(0.0, 0.0, 1.0), Vec3(0.0, 0.0, 1.0)), UnitBox())
  {
  }

  lemma UnitBoxCase12()
    ensures ReportsHit(Ray(Vec3(0.0, 0.0, 1.0), Vec3(1.0, 0.0, 0.0)), UnitBox())
  {
  }

  lemma UnitBoxCase13()
    ensures ReportsHit(Ray(Vec3(0.0, 0.0, 1.0), Vec3(0.0, 1.0, 0.0)), UnitBox())
  {
  }

  lemma UnitBoxCase14()
    ensures ReportsHit(Ray(Zero, Vec3(0.0, 0.0, 1.0)), UnitBox())
  {
  }

  lemma UnitBoxCase15()
    ensures ReportsHit(Ray(Zero, Vec3(0.0, 1.0, 0.0)), UnitBox())
  {
  }

  lemma UnitBoxCase16()
    ensures ReportsHit(Ray(Zero, Vec3(1.0, 0.0, 0.0)), UnitBox())
  {
  }

  lemma UnitBoxCase17()
    ensures ReportsHit(Ray(Zero, Vec3(-1.0, 0.0, 0.0)), UnitBox())
  {
  }

  lemma UnitBoxCase18()
    ensures ReportsHit(Ray(Zero, Vec3(0.0, -1.0, 0.0)), UnitBox())
  {
  }

  lemma UnitBoxCase19()
    ensures ReportsHit(Ray(Zero, Vec3(0.0, 0.0, -1.0)), UnitBox())
  {
  }

  lemma UnitBoxCase20()
    ensures ReportsHit(Ray(Zero, Splat(1.0)), UnitBox())
  {
  }

  lemma UnitBoxCase21()
    ensures !ReportsHit(Ray(Vec3(0.0, 0.0, 2.0), Vec3(0.0, 0.0, 1.0)), UnitBox())
  {
  }

  lemma UnitBoxCase22()
    ensures !ReportsHit(Ray(Vec3(0.0, 0.0, -2.0), Vec3(0.0, 0.0, -1.0)), UnitBox())
  {
  }

  lemma UnitBoxCase23()
    ensures !ReportsHit(Ray(Vec3(2.0, -2.0, -2.0), Vec3(2.0, -2.0, -2.0)), UnitBox())
  {
  }

  lemma UnitBoxCase24()
    ensures ReportsHit(Ray(Vec3(2.0, -2.0, -2.0), Vec3(-2.0, 2.0, 2.0)), UnitBox())
  {
  }

  // Corrected slab test: the entry distance, or no hit when the slabs do not overlap.

  function PointAt(ray: Ray, t: real): Vec3 {
    Add(ray.origin, Scale(t, ray.direction))
  }

  /** The box's corners are ordered on every axis, as for any box built from points. */
  predicate ValidBox(box: Aabb) {
    box.min.x <= box.max.x && box.min.y <= box.max.y && box.min.z <= box.max.z
  }

  /** On every parallel axis the origin already lies within the slab, the
      assumption under which the slab test treats such an axis as unconstrained. */
  predicate ParallelAxesInside(ray: Ray, box: Aabb) {
    forall i :: 0 <= i < 3 && Parallel(ray, i) ==> box.min.Get(i) <= ray.origin.Get(i) <= box.max.Get(i)
  }

  function Near(ray: Ray, box: Aabb, i: nat): real
    requires i < 3
  {
    SlabMin(ray, box, i).r
  }

  /** The true entry parameter `max(0, near_0, near_1, near_2)`. */
  function EntryT(ray: Ray, box: Aabb): real {
    RMax(0.0, RMax(Near(ray, box, 0), RMax(Near(ray, box, 1), Near(ray, box, 2))))
  }

  /** Corrected `ray_aabb_intersection`: the entry distance when the slabs overlap
      (`t_min <= t_max`), and no hit otherwise. */
  function EntryDistance(ray: Ray, box: Aabb): Option<real> {
    var lo := EntryT(ray, box);
    if XLe(Fin(lo), TMax(ray, box)) then Some(lo) else None
  }

  lemma PointAtAxis(ray: Ray, t: real, i: nat)
    requires i < 3
    ensures PointAt(ray, t).Get(i) == ray.origin.Get(i) + t * ray.direction.Get(i)
  {
  }

  lemma DivBounds(n: real, d: real, t: real)
    requires d != 0.0
    ensures d > 0.0 ==> (n / d <= t <==> n <= t * d) && (t <= n / d <==> t * d <= n)
    ensures d < 0.0 ==> (n / d <= t <==> t * d <= n) && (t <= n / d <==> n <= t * d)
  {
    var q := n / d;
    assert q * d == n;
    assert t * d - n == (t - q) * d;
  }

  /** One slab over scalars: `lo <= o + t*d <= hi` iff `t` lies between the two crossings. */
  lemma ScalarSlab(o: real, d: real, lo: real, hi: real, t: real)
    requires d != 0.0 && lo <= hi
    ensures var a, b := (lo - o) / d, (hi - o) / d;
            lo <= o + t * d <= hi <==> (if b < a then b else a) <= t <= (if b < a then a else b)
  {
    var a, b := (lo - o) / d, (hi - o) / d;
    DivBounds(lo - o, d, t);
    DivBounds(hi - o, d, t);
    if d > 0.0 {
      DivBounds(hi - o, d, a);
      assert a <= b;
    } else {
      DivBounds(lo - o, d, b);
      assert b <= a;
    }
  }

  /** On one axis, the point at parameter `t >= 0` lies within the box's slab iff
      `t` lies within the slab's parameter interval. */
  lemma AxisInSlab(ray: Ray, box: Aabb, i: nat, t: real)
    requires i < 3 && t >= 0.0 && box.min.Get(i) <= box.max.Get(i)
    requires Parallel(ray, i) ==> box.min.Get(i) <= ray.origin.Get(i) <= box.max.Get(i)
    ensures box.min.Get(i) <= PointAt(ray, t).Get(i) <= box.max.Get(i) <==>
              XLe(SlabMin(ray, box, i), Fin(t)) && XLe(Fin(t), SlabMax(ray, box, i))
  {
    PointAtAxis(ray, t, i);
    Common.IsCloseToZeroIsExact(ray.direction.Get(i));
    if !Parallel(ray, i) {
      CrossedAxisInSlab(ray, box, i, t);
    } else {
      assert ray.direction.Get(i) == 0.0;
      assert ray.origin.Get(i) + t * ray.direction.Get(i) == ray.origin.Get(i);
    }
  }

  lemma CrossedAxisInSlab(ray: Ray, box: Aabb, i: nat, t: real)
    requires i < 3 && box.min.Get(i) <= box.max.Get(i) && !Parallel(ray, i)
    ensures box.min.Get(i) <= ray.origin.Get(i) + t * ray.direction.Get(i) <= box.max.Get(i) <==>
              Crossings(ray, box, i).0 <= t <= Crossings(ray, box, i).1
  {
    var o, d, lo, hi := ray.origin.Get(i), ray.direction.Get(i), box.min.Get(i), box.max.Get(i);
    Common.IsCloseToZeroIsExact(d);
    ScalarSlab(o, d, lo, hi, t);
  }

  /** For `t >= 0`, the point at `t` is in the box iff `EntryT <= t <= t_max`. */
  lemma InBoxIff(ray: Ray, box: Aabb, t: real)
    requires ValidBox(box) && ParallelAxesInside(ray, box) && t >= 0.0
    ensures Contains(box, PointAt(ray, t)) <==> EntryT(ray, box) <= t && XLe(Fin(t), TMax(ray, box))
  {
    AxisInSlab(ray, box, 0, t);
    AxisInSlab(ray, box, 1, t);
    AxisInSlab(ray, box, 2, t);
    var p := PointAt(ray, t);
    assert p.x == p.Get(0) && p.y == p.Get(1) && p.z == p.Get(2);
  }

  /** The corrected test is exact: it reports the least `t >= 0` whose point is in
      the box, and reports no hit iff there is none. */
  lemma EntryDistanceCorrect(ray: Ray, box: Aabb)
    requires ValidBox(box) && ParallelAxesInside(ray, box)
    ensures EntryDistance(ray, box).Some? ==>
              EntryDistance(ray, box).value >= 0.0 && Contains(box, PointAt(ray, EntryDistance(ray, box).value))
    ensures forall t :: t >= 0.0 && Contains(box, PointAt(ray, t)) ==>
              EntryDistance(ray, box).Some? && EntryDistance(ray, box).value <= t
  {
    var lo := EntryT(ray, box);
    InBoxIff(ray, box, lo);
    forall t | t >= 0.0 && Contains(box, PointAt(ray, t))
      ensures EntryDistance(ray, box).Some? && EntryDistance(ray, box).value <= t
    {
      InBoxIff(ray, box, t);
    }
  }

  /** Every real hit is also reported as a hit by the code as written. */
  lemma RealHitIsReported(ray: Ray, box: Aabb)
    requires EntryDistance(ray, box).Some?
    ensures ReportsHit(ray, box)
  {
    HitDecidedByFarBounds(ray, box);
  }

  /** Finding: a ray passing beside the box, whose slab intervals [2, 4] and
      [8, 16] do not overlap, is reported as a hit. */
  lemma AsWrittenHitsBesideTheBox()
    ensures ReportsHit(Ray(Vec3(-3.0, 3.0, 0.0), Vec3(1.0, -0.25, 0.0)), UnitBox())
    ensures forall t :: t >= 0.0 ==> !Contains(UnitBox(), PointAt(Ray(Vec3(-3.0, 3.0, 0.0), Vec3(1.0, -0.25, 0.0)), t))
    ensures EntryDistance(Ray(Vec3(-3.0, 3.0, 0.0), Vec3(1.0, -0.25, 0.0)), UnitBox()).None?
  {
    var ray := Ray(Vec3(-3.0, 3.0, 0.0), Vec3(1.0, -0.25, 0.0));
    assert Crossings(ray, UnitBox(), 0) == (2.0, 4.0);
    assert Crossings(ray, UnitBox(), 1) == (8.0, 16.0);
    assert SlabMins(ray, UnitBox()) == [Fin(2.0), Fin(8.0), Fin(0.0)];
  }

  /** Finding: with `max_component` taking `max(x, min(y, z))`, a ray starting
      outside the box gets entry distance 0, although it enters at 4. */
  lemma AsWrittenEntryDistanceZeroOutside()
    ensures !Contains(UnitBox(), Vec3(0.0, -5.0, 0.5))
    ensures SlabIntersection(Ray(Vec3(0.0, -5.0, 0.5), Vec3(0.0, 1.0, 0.1)), UnitBox()) == Fin(0.0)
    ensures EntryDistance(Ray(Vec3(0.0, -5.0, 0.5), Vec3(0.0, 1.0, 0.1)), UnitBox()) == Some(4.0)
  {
    var ray := Ray(Vec3(0.0, -5.0, 0.5), Vec3(0.0, 1.0, 0.1));
    assert Crossings(ray, UnitBox(), 1) == (4.0, 6.0);
    assert Crossings(ray, UnitBox(), 2) == (-15.0, 5.0);
    assert SlabMins(ray, UnitBox()) == [Fin(0.0), Fin(4.0), Fin(-15.0)];
  }
}
