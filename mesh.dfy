/** What both mesh constructors derive from a welded mesh once the weld is
    done (src/object.cpp, src/indexed_triangle_mesh_object.cpp): the number of
    triangles at every vertex, one bounding box and one area per triangle, and
    the size guards in front of the upload of the buffers. */
module Mesh {
  import opened Wrappers
  import opened Geometry

  /** Why a mesh is refused: a null result in `Object::from_triangles`, a
      thrown `GeoBox_Error` or `Overflow_Check_Error` in the indexed mesh. */
  datatype MeshError =
    | EmptyMesh
    | NotWholeTriangles
    | TooManyTrianglesPerVertex
    | TooManyVertices
    | TooManyIndices

  // ---------------------------------------------------------------------------
  // Limits.

  /** `std::numeric_limits<float>::max()`, `(2 - 2^-23) * 2^127`. */
  const FltMax: nat := 340282346638528859811704183484516925440
  /** `std::numeric_limits<unsigned int>::max()` and `std::numeric_limits<int>::max()`. */
  const UintMax: nat := 4294967295
  const IntMax: nat := 2147483647
  /** `sizeof(glm::vec3)` and `sizeof(unsigned int)`. */
  const Vec3Bytes: nat := 12
  const IndexBytes: nat := 4
  /** The guards compare against these quotients, rounded down. */
  const MaxUniqueVertices: nat := UintMax / Vec3Bytes
  const MaxIndices: nat := IntMax / IndexBytes

  /** The two overflow guards in front of the upload: too many unique vertices
      first, then too many indices. */
  function CheckSizes(numVertices: nat, numIndices: nat): (r: Option<MeshError>)
    ensures r == None <==> numVertices <= MaxUniqueVertices && numIndices <= MaxIndices
    ensures r == Some(TooManyVertices) <==> numVertices > MaxUniqueVertices
    ensures r == Some(TooManyIndices) <==> numVertices <= MaxUniqueVertices && numIndices > MaxIndices
  {
    if numVertices > MaxUniqueVertices then Some(TooManyVertices)
    else if numIndices > MaxIndices then Some(TooManyIndices)
    else None
  }

  /** What the guards buy: a mesh that passes them has a vertex buffer size
      that fits an `unsigned int` and an index buffer size that fits an `int`,
      and the bounds are the largest for which that holds. */
  lemma GuardsFitBuffers(numVertices: nat, numIndices: nat)
    ensures CheckSizes(numVertices, numIndices) == None ==>
              numVertices * Vec3Bytes <= UintMax && numIndices * IndexBytes <= IntMax
    ensures (MaxUniqueVertices + 1) * Vec3Bytes > UintMax && (MaxIndices + 1) * IndexBytes > IntMax
  {
    if CheckSizes(numVertices, numIndices) == None {
      assert numVertices * Vec3Bytes <= MaxUniqueVertices * Vec3Bytes;
      assert numIndices * IndexBytes <= MaxIndices * IndexBytes;
    }
  }

  // ---------------------------------------------------------------------------
  // Triangles per vertex.

  /** `num_triangles_per_vertex`: entry `v` counts the occurrences of `v`. */
  ghost predicate CountsOf(indices: seq<nat>, n: nat, counts: seq<nat>) {
    |counts| == n && forall v :: 0 <= v < n ==> counts[v] == multiset(indices)[v]
  }

  predicate IndicesBelow(indices: seq<nat>, n: nat) {
    forall i :: 0 <= i < |indices| ==> indices[i] < n
  }

  /** The counting loop of the indexed mesh, which has no guard. */
  method CountIncidence(indices: seq<nat>, n: nat) returns (counts: seq<nat>)
    requires IndicesBelow(indices, n)
    ensures CountsOf(indices, n, counts)
  {
    var a := new nat[n](_ => 0);
    for i := 0 to |indices|
      invariant forall v :: 0 <= v < n ==> a[v] == multiset(indices[..i])[v]
    {
      assert indices[..i + 1] == indices[..i] + [indices[i]];
      a[indices[i]] := a[indices[i]] + 1;
    }
    assert indices[..|indices|] == indices;
    counts := a[..];
  }

  /** The counting loop of `Object::from_triangles`: it gives up when a count
      that already equals the float maximum would be incremented, that is
      exactly when some vertex occurs more often than that. */
  method CountIncidenceGuarded(indices: seq<nat>, n: nat) returns (r: Option<seq<nat>>)
    requires IndicesBelow(indices, n)
    ensures r.None? <==> exists v :: 0 <= v < n && multiset(indices)[v] > FltMax
    ensures r.Some? ==> CountsOf(indices, n, r.value)
  {
    var a := new nat[n](_ => 0);
    for i := 0 to |indices|
      invariant forall v :: 0 <= v < n ==> a[v] == multiset(indices[..i])[v] <= FltMax
    {
      var vi := indices[i];
      assert indices[..i + 1] == indices[..i] + [vi];
      if a[vi] == FltMax {
        PrefixCount(indices, i + 1, vi);
        return None;
      }
      a[vi] := a[vi] + 1;
    }
    assert indices[..|indices|] == indices;
    r := Some(a[..]);
  }

  /** A prefix holds no more occurrences than the whole sequence. */
  lemma PrefixCount(s: seq<nat>, i: nat, v: nat)
    requires i <= |s|
    ensures multiset(s[..i])[v] <= multiset(s)[v]
  {
    assert s == s[..i] + s[i..];
  }

  /** The sum of a sequence of counts. */
  function Sum(s: seq<nat>): nat {
    if s == [] then 0 else Sum(s[..|s| - 1]) + s[|s| - 1]
  }

  /** Every index is counted exactly once: the counts add up to the number of
      indices, three per triangle. */
  lemma {:induction false} CountsAddUp(indices: seq<nat>, n: nat, counts: seq<nat>)
    requires IndicesBelow(indices, n) && CountsOf(indices, n, counts)
    ensures Sum(counts) == |indices|
    decreases |indices|
  {
    if indices == [] {
      SumZero(counts);
    } else {
      var init, x := indices[..|indices| - 1], indices[|indices| - 1];
      assert indices == init + [x];
      var prev := counts[x := counts[x] - 1];
      assert CountsOf(init, n, prev);
      CountsAddUp(init, n, prev);
      SumBump(prev, x);
      assert prev[x := prev[x] + 1] == counts;
    }
  }

  lemma {:induction false} SumZero(s: seq<nat>)
    requires forall i :: 0 <= i < |s| ==> s[i] == 0
    ensures Sum(s) == 0
  {
    if s != [] {
      SumZero(s[..|s| - 1]);
    }
  }

  /** Adding one to an entry adds one to the sum. */
  lemma {:induction false} SumBump(s: seq<nat>, x: nat)
    requires x < |s|
    ensures Sum(s[x := s[x] + 1]) == Sum(s) + 1
  {
    var t := s[x := s[x] + 1];
    if x < |s| - 1 {
      assert t[..|t| - 1] == s[..|s| - 1][x := s[x] + 1];
      SumBump(s[..|s| - 1], x);
    } else {
      assert t[..|t| - 1] == s[..|s| - 1];
    }
  }

  // ---------------------------------------------------------------------------
  // Triangle boxes and areas.

  /** Corner `k` of triangle `t` of an indexed mesh. */
  function Corner(vertices: seq<Vec3>, indices: seq<nat>, t: nat, k: nat): Vec3
    requires k < 3 && 3 * t + k < |indices| && IndicesBelow(indices, |vertices|)
  {
    vertices[indices[3 * t + k]]
  }

  /** The box of one triangle, `min(a, min(b, c))` to `max(a, max(b, c))`. */
  function TriangleBox(a: Vec3, b: Vec3, c: Vec3): (box: Aabb)
    ensures Contains(box, a) && Contains(box, b) && Contains(box, c)
  {
    Aabb(Min(a, Min(b, c)), Max(a, Max(b, c)))
  }

  /** It is the smallest such box: any box holding the three corners holds it. */
  lemma TriangleBoxSmallest(a: Vec3, b: Vec3, c: Vec3, box: Aabb)
    requires Contains(box, a) && Contains(box, b) && Contains(box, c)
    ensures Contains(box, TriangleBox(a, b, c).min) && Contains(box, TriangleBox(a, b, c).max)
  {
  }

  ghost predicate BoxesOf(vertices: seq<Vec3>, indices: seq<nat>, boxes: seq<Aabb>)
    requires |indices| % 3 == 0 && IndicesBelow(indices, |vertices|)
  {
    && |boxes| == |indices| / 3
    && forall t :: 0 <= t < |boxes| ==>
         boxes[t] == TriangleBox(Corner(vertices, indices, t, 0), Corner(vertices, indices, t, 1),
                                 Corner(vertices, indices, t, 2))
  }

  /** The loop over index triples that builds `triangle_bounding_boxes`. */
  method TriangleBoxes(vertices: seq<Vec3>, indices: seq<nat>) returns (boxes: seq<Aabb>)
    requires |indices| % 3 == 0 && IndicesBelow(indices, |vertices|)
    ensures BoxesOf(vertices, indices, boxes)
  {
    boxes := [];
    var i := 0;
    while i < |indices|
      invariant i <= |indices| && i % 3 == 0 && |boxes| == i / 3
      invariant forall t :: 0 <= t < |boxes| ==>
        boxes[t] == TriangleBox(Corner(vertices, indices, t, 0), Corner(vertices, indices, t, 1),
                                Corner(vertices, indices, t, 2))
    {
      var a, b, c := vertices[indices[i]], vertices[indices[i + 1]], vertices[indices[i + 2]];
      boxes := boxes + [TriangleBox(a, b, c)];
      i := i + 3;
    }
  }

  /** `glm::length` is a parameter: any function giving the non-negative
      square root of the squared length. */
  ghost predicate IsLength(length: Vec3 -> real) {
    forall v :: 0.0 <= length(v) && length(v) * length(v) == Dot(v, v)
  }

  /** Half the length of the cross product of two edges. */
  function TriangleArea(a: Vec3, b: Vec3, c: Vec3, length: Vec3 -> real): (area: real)
    requires IsLength(length)
    ensures 0.0 <= area
    ensures 4.0 * area * area == Dot(Cross(Sub(b, a), Sub(c, a)), Cross(Sub(b, a), Sub(c, a)))
  {
    var n := Cross(Sub(b, a), Sub(c, a));
    var l := length(n);
    assert 4.0 * (l * 0.5) * (l * 0.5) == l * l;
    l * 0.5
  }

  /** A triangle has zero area exactly when its edges are parallel. */
  lemma AreaZeroIffDegenerate(a: Vec3, b: Vec3, c: Vec3, length: Vec3 -> real)
    requires IsLength(length)
    ensures TriangleArea(a, b, c, length) == 0.0 <==> Cross(Sub(b, a), Sub(c, a)) == Zero
  {
    HalfLengthZero(Cross(Sub(b, a), Sub(c, a)), TriangleArea(a, b, c, length));
  }

  lemma HalfLengthZero(n: Vec3, area: real)
    requires 0.0 <= area && 4.0 * area * area == Dot(n, n)
    ensures area == 0.0 <==> n == Zero
  {
    if area == 0.0 {
      DotSelfZero(n);
    }
    if n == Zero {
      SquareZero(area);
    }
  }

  lemma SquareNonNegative(r: real)
    ensures r * r >= 0.0
  {
  }

  lemma ProductZero(r: real, s: real)
    requires r == s && r * s <= 0.0
    ensures r == 0.0
  {
  }

  lemma SquareZero(r: real)
    requires r * r <= 0.0
    ensures r == 0.0
  {
    // The solver settles `r * s` with `r == s` but not `r * r` itself.
    var s := r;
    assert r * s <= 0.0;
    ProductZero(r, s);
  }

  lemma DotSelfZero(v: Vec3)
    requires Dot(v, v) == 0.0
    ensures v == Zero
  {
    var x, y, z := v.x, v.y, v.z;
    SquareNonNegative(x);
    SquareNonNegative(y);
    SquareNonNegative(z);
    assert x * x <= 0.0 && y * y <= 0.0 && z * z <= 0.0;
    SquareZero(x);
    SquareZero(y);
    SquareZero(z);
  }

  ghost predicate AreasOf(vertices: seq<Vec3>, indices: seq<nat>, length: Vec3 -> real, areas: seq<real>)
    requires |indices| % 3 == 0 && IndicesBelow(indices, |vertices|) && IsLength(length)
  {
    && |areas| == |indices| / 3
    && forall t :: 0 <= t < |areas| ==>
         areas[t] == TriangleArea(Corner(vertices, indices, t, 0), Corner(vertices, indices, t, 1),
                                  Corner(vertices, indices, t, 2), length)
  }

  /** The loop over index triples that fills `m_triangle_areas`. */
  method TriangleAreas(vertices: seq<Vec3>, indices: seq<nat>, length: Vec3 -> real) returns (areas: seq<real>)
    requires |indices| % 3 == 0 && IndicesBelow(indices, |vertices|) && IsLength(length)
    ensures AreasOf(vertices, indices, length, areas)
    ensures forall t :: 0 <= t < |areas| ==> 0.0 <= areas[t]
  {
    areas := [];
    var i := 0;
    while i < |indices|
      invariant i <= |indices| && i % 3 == 0 && |areas| == i / 3
      invariant forall t :: 0 <= t < |areas| ==>
        areas[t] == TriangleArea(Corner(vertices, indices, t, 0), Corner(vertices, indices, t, 1),
                                 Corner(vertices, indices, t, 2), length)
    {
      var a, b, c := vertices[indices[i]], vertices[indices[i + 1]], vertices[indices[i + 2]];
      areas := areas + [TriangleArea(a, b, c, length)];
      i := i + 3;
    }
  }
}
