/** The relative-only closeness test of src/common.cpp. */
module Common {
  import opened Geometry

  /** The relative tolerance `epsilon` of `is_close(float, float)`. */
  const Epsilon: real := 0.00001

  /** `is_close(a, b)`: `|a - b| <= 1e-5 * |a|`; the tolerance scales with `a` only.
      Close numbers have the same sign. */
  function IsClose(a: real, b: real): (r: bool)
    ensures r ==> (a == 0.0 <==> b == 0.0) && (a > 0.0 <==> b > 0.0)
  {
    Abs(a - b) <= Epsilon * Abs(a)
  }

  /** `is_close(vec3, vec3)`: the componentwise conjunction. Only the zero
      vector is close to the zero vector. */
  function IsCloseVec(a: Vec3, b: Vec3): (r: bool)
    ensures r ==> (a == Zero <==> b == Zero)
  {
    IsClose(a.x, b.x) && IsClose(a.y, b.y) && IsClose(a.z, b.z)
  }

  lemma IsCloseReflexive(a: real)
    ensures IsClose(a, a)
  {
  }

  /** Closeness to zero is an exact test: only zero itself is close to zero. */
  lemma IsCloseToZeroIsExact(a: real)
    ensures IsClose(a, 0.0) <==> a == 0.0
  {
    if a != 0.0 {
      assert Abs(a - 0.0) == Abs(a);
      assert Epsilon * Abs(a) < Abs(a);
    }
  }

  /** The relation is not symmetric: 99999 is close to 100000 but not the other way round. */
  lemma IsCloseNotSymmetric()
    ensures IsClose(100000.0, 99999.0) && !IsClose(99999.0, 100000.0)
  {
  }

  lemma IsCloseVecComponentwise(a: Vec3, b: Vec3)
    ensures IsCloseVec(a, b) <==> forall i :: 0 <= i < 3 ==> IsClose(a.Get(i), b.Get(i))
  {
    if IsCloseVec(a, b) {
      forall i | 0 <= i < 3 ensures IsClose(a.Get(i), b.Get(i)) {
      }
    } else {
      assert !IsClose(a.Get(0), b.Get(0)) || !IsClose(a.Get(1), b.Get(1)) || !IsClose(a.Get(2), b.Get(2));
    }
  }
}
