/** The CPU part of the `Indexed_Triangle_Mesh_Object` constructor
    (src/indexed_triangle_mesh_object.cpp): a list of triangles is flattened
    to its corners, welded, counted, guarded against buffer overflow, boxed and
    measured triangle by triangle. The `Triangle` of src/triangle.hpp holds its
    corners in `vertices[0..2]`; here that is `Triangle.At(0..2)`. */
module IndexedMesh {
  import opened Wrappers
  import opened Geometry
  import opened Primitives
  import opened Weld
  import opened Mesh
  import ObjectMesh

  /** `m_vertices`, `m_indices`, the triangles per vertex, the boxes the
      triangle BVH is built over and `m_triangle_areas`. */
  datatype IndexedMeshData = IndexedMeshData(vertices: seq<Vec3>, indices: seq<nat>, trianglesPerVertex: seq<nat>,
                                             triangleBoxes: seq<Aabb>, triangleAreas: seq<real>)

  /** The errors thrown as `Overflow_Check_Error`; every error is a
      `GeoBox_Error`. */
  predicate IsOverflowCheckError(e: MeshError) {
    e.TooManyVertices? || e.TooManyIndices?
  }

  /** `get_ith_vertex`: corner `i % 3` of triangle `i / 3`. */
  function GetIthVertex(tris: seq<Triangle>, i: nat): (v: Vec3)
    requires i < 3 * |tris|
    ensures v in tris[i / 3].Vertices()
    ensures v == tris[i / 3].At(i % 3)
  {
    tris[i / 3].At(i % 3)
  }

  /** Corner `i` of the flattened list is what `get_ith_vertex(i)` returns, so
      the weld over the flattened list sees the same vertices as the source's
      filter does. */
  lemma {:induction false} FlattenIsIthVertex(tris: seq<Triangle>, i: nat)
    requires i < 3 * |tris|
    ensures Flatten(tris)[i] == GetIthVertex(tris, i)
    decreases |tris|
  {
    var init := tris[..|tris| - 1];
    if i < 3 * |init| {
      FlattenIsIthVertex(init, i);
      assert tris[i / 3] == init[i / 3];
    } else {
      assert i / 3 == |init|;
      assert Flatten(tris)[i] == tris[|tris| - 1].Vertices()[i - 3 * |init|];
    }
  }

  /** `get_ith_vertex` inverts the flattening: corner `k` of triangle `t` sits
      at position `3 * t + k`. */
  lemma IthVertexOfCorner(tris: seq<Triangle>, t: nat, k: nat)
    requires t < |tris| && k < 3
    ensures GetIthVertex(tris, 3 * t + k) == tris[t].At(k)
  {
    assert (3 * t + k) / 3 == t && (3 * t + k) % 3 == k;
  }

  /** The loop that turns every corner into a degenerate box, kept here as the
      list of corners the point BVH is built over. */
  method FlattenVertices(tris: seq<Triangle>) returns (vs: seq<Vec3>)
    ensures vs == Flatten(tris)
  {
    vs := [];
    for t := 0 to |tris|
      invariant vs == Flatten(tris[..t])
    {
      assert tris[..t + 1][..t] == tris[..t];
      for k := 0 to 3
        invariant vs == Flatten(tris[..t]) + tris[t].Vertices()[..k]
      {
        assert tris[t].Vertices()[..k + 1] == tris[t].Vertices()[..k] + [tris[t].At(k)];
        vs := vs + [tris[t].At(k)];
      }
    }
    assert tris[..|tris|] == tris;
  }

  /** The mesh built from `tris`: the greedy weld of the corners, counts of
      every vertex's occurrences, one box and one area per triangle. */
  ghost predicate Derived(tris: seq<Triangle>, length: Vec3 -> real, m: IndexedMeshData)
    requires IsLength(length)
  {
    var vs := Flatten(tris);
    WholeTriangles(|tris|);
    && m.vertices == Welded(vs) && m.indices == WeldIndices(vs)
    && WeldSpec(vs, m.indices, m.vertices, GreedyReps(vs, |vs|))
    && IndicesBelow(m.indices, |m.vertices|)
    && CountsOf(m.indices, |m.vertices|, m.trianglesPerVertex)
    && BoxesOf(m.vertices, m.indices, m.triangleBoxes)
    && AreasOf(m.vertices, m.indices, length, m.triangleAreas)
    && |m.triangleAreas| == |tris|
    && |m.vertices| <= MaxUniqueVertices && |m.indices| <= MaxIndices
  }

  /** The constructor without the GPU upload and the triangle BVH: an empty
      list throws, then the weld, the counts (with no guard here), the two size
      guards, the triangle boxes and the areas. */
  method NewIndexedMesh(tris: seq<Triangle>, length: Vec3 -> real) returns (r: Result<IndexedMeshData, MeshError>)
    requires IsLength(length)
    ensures r == Err(EmptyMesh) <==> |tris| == 0
    ensures r == Err(TooManyVertices) <==> |tris| > 0 && |Welded(Flatten(tris))| > MaxUniqueVertices
    ensures r == Err(TooManyIndices) <==>
              |tris| > 0 && |Welded(Flatten(tris))| <= MaxUniqueVertices && 3 * |tris| > MaxIndices
    ensures r.Err? ==> r.error == EmptyMesh || IsOverflowCheckError(r.error)
    ensures r.Ok? ==> Derived(tris, length, r.value)
  {
    if |tris| == 0 {
      return Err(EmptyMesh);
    }
    var vs := FlattenVertices(tris);
    WholeTriangles(|tris|);
    var indices, unique, reps := Weld.Weld(vs);
    WeldDetermined(vs, indices, unique, reps);
    ObjectMesh.IndicesOfWeld(vs, indices, unique, reps);
    var counts := CountIncidence(indices, |unique|);
    var guard := CheckSizes(|unique|, |indices|);
    if guard.Some? {
      return Err(guard.value);
    }
    var boxes := TriangleBoxes(unique, indices);
    var areas := TriangleAreas(unique, indices, length);
    r := Ok(IndexedMeshData(unique, indices, counts, boxes, areas));
  }

  /** Three corners per triangle: the corner count of `n` triangles is whole
      triangles again. */
  lemma WholeTriangles(n: nat)
    ensures (3 * n) % 3 == 0 && (3 * n) / 3 == n
  {
  }
}
