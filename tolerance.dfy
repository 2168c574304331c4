/** The relative/absolute closeness test of src/math.cpp, in the style of
    Python's `math.isclose`, together with its tolerance context. */
module Tolerance {
  import opened Geometry

  /** `Tolerance_Context`: a relative and an absolute tolerance. */
  datatype ToleranceContext = ToleranceContext(relTol: real, absTol: real)

  /** `Tolerance_Context::get_default()`. */
  function DefaultContext(): (tc: ToleranceContext)
    ensures tc.relTol == 0.000000001 && tc.absTol == 0.0001
  {
    ToleranceContext(0.000000001, 0.0001)
  }

  /** `is_close(tc, a, b)`: `|a - b| <= max(rel * max(|a|, |b|), abs)`. Numbers
      at most the absolute tolerance apart are always close, whatever the
      relative tolerance. */
  function IsClose(tc: ToleranceContext, a: real, b: real): (r: bool)
    ensures Abs(a - b) <= tc.absTol ==> r
  {
    Abs(a - b) <= RMax(tc.relTol * RMax(Abs(a), Abs(b)), tc.absTol)
  }

  /** `is_close(tc, vec3, vec3)` of src/intersection.cpp: every component is close. */
  function IsCloseVec(tc: ToleranceContext, a: Vec3, b: Vec3): (r: bool)
    ensures Abs(a.x - b.x) <= tc.absTol && Abs(a.y - b.y) <= tc.absTol && Abs(a.z - b.z) <= tc.absTol ==> r
  {
    IsClose(tc, a.x, b.x) && IsClose(tc, a.y, b.y) && IsClose(tc, a.z, b.z)
  }

  lemma IsCloseSymmetric(tc: ToleranceContext, a: real, b: real)
    ensures IsClose(tc, a, b) <==> IsClose(tc, b, a)
  {
    assert Abs(a - b) == Abs(b - a);
    assert RMax(Abs(a), Abs(b)) == RMax(Abs(b), Abs(a));
  }

  /** The vector test inherits the symmetry of the scalar one. */
  lemma {:induction false} IsCloseVecSymmetric(tc: ToleranceContext, a: Vec3, b: Vec3)
    ensures IsCloseVec(tc, a, b) <==> IsCloseVec(tc, b, a)
  {
    IsCloseSymmetric(tc, a.x, b.x);
    IsCloseSymmetric(tc, a.y, b.y);
    IsCloseSymmetric(tc, a.z, b.z);
  }

  lemma IsCloseReflexive(tc: ToleranceContext, a: real)
    requires tc.absTol >= 0.0
    ensures IsClose(tc, a, a)
  {
  }

  /** With a relative tolerance below one, closeness to zero is exactly
      `|x| <= absTol`: the singularity test of `invert`. */
  lemma IsCloseToZero(tc: ToleranceContext, x: real)
    requires 0.0 <= tc.relTol < 1.0 && 0.0 <= tc.absTol
    ensures IsClose(tc, x, 0.0) <==> Abs(x) <= tc.absTol
  {
    var a := Abs(x);
    assert Abs(x - 0.0) == a && RMax(a, Abs(0.0)) == a;
    var m := tc.relTol * a;
    assert IsClose(tc, x, 0.0) <==> a <= RMax(m, tc.absTol);
    if a > tc.absTol {
      ShrinkByFactor(tc.relTol, a, m);
      assert RMax(m, tc.absTol) < a;
    } else {
      assert a <= RMax(m, tc.absTol);
    }
  }

  lemma ShrinkByFactor(r: real, a: real, m: real)
    requires 0.0 <= r < 1.0 && 0.0 < a && m == r * a
    ensures m < a
  {
    assert (1.0 - r) * a > 0.0;
  }

  /** The default context: close to zero means within 1e-4 of it. */
  lemma DefaultIsCloseToZero(x: real)
    ensures IsClose(DefaultContext(), x, 0.0) <==> -0.0001 <= x <= 0.0001
  {
    IsCloseToZero(DefaultContext(), x);
  }
}
