/** The CPU part of `Object::from_triangles` (src/object.cpp): a flat list of
    triangle corners is checked, welded, counted, guarded against buffer
    overflow and boxed triangle by triangle. */
module ObjectMesh {
  import opened Wrappers
  import opened Geometry
  import opened Weld
  import opened Mesh

  /** The CPU mesh of an `Object`: `m_vertices`, `m_indices`, the triangles per
      vertex and the boxes the triangle BVH is built over. */
  datatype ObjectData = ObjectData(vertices: seq<Vec3>, indices: seq<nat>, trianglesPerVertex: seq<nat>,
                                   triangleBoxes: seq<Aabb>)

  /** Some welded vertex is a corner of more triangles than a float counts. */
  ghost predicate CountOverflows(vs: seq<Vec3>) {
    exists v :: 0 <= v < |Welded(vs)| && multiset(WeldIndices(vs))[v] > FltMax
  }

  /** `Object::from_triangles` without the GPU upload: an empty list or one
      that is not whole triangles is refused first; then the weld, the counts
      (refused at the float maximum), the two size guards and the triangle
      boxes. Every outcome is fixed by the input through the greedy weld. */
  method FromTriangles(vs: seq<Vec3>) returns (r: Result<ObjectData, MeshError>)
    ensures r == Err(EmptyMesh) <==> |vs| == 0
    ensures r == Err(NotWholeTriangles) <==> |vs| > 0 && |vs| % 3 != 0
    ensures r == Err(TooManyTrianglesPerVertex) <==> |vs| > 0 && |vs| % 3 == 0 && CountOverflows(vs)
    ensures r == Err(TooManyVertices) <==>
              |vs| > 0 && |vs| % 3 == 0 && !CountOverflows(vs) && |Welded(vs)| > MaxUniqueVertices
    ensures r == Err(TooManyIndices) <==>
              |vs| > 0 && |vs| % 3 == 0 && !CountOverflows(vs) && |Welded(vs)| <= MaxUniqueVertices
              && |vs| > MaxIndices
    ensures r.Ok? ==> Derived(vs, r.value)
  {
    if |vs| == 0 {
      return Err(EmptyMesh);
    }
    if |vs| % 3 != 0 {
      return Err(NotWholeTriangles);
    }
    var indices, unique, reps := Weld.Weld(vs);
    WeldDetermined(vs, indices, unique, reps);
    IndicesOfWeld(vs, indices, unique, reps);
    var counts := CountIncidenceGuarded(indices, |unique|);
    if counts.None? {
      return Err(TooManyTrianglesPerVertex);
    }
    var guard := CheckSizes(|unique|, |indices|);
    if guard.Some? {
      return Err(guard.value);
    }
    var boxes := TriangleBoxes(unique, indices);
    r := Ok(ObjectData(unique, indices, counts.value, boxes));
  }

  /** The mesh built from `vs`: the greedy weld, counts of every vertex's
      occurrences and one box per index triple. */
  ghost predicate Derived(vs: seq<Vec3>, m: ObjectData) {
    && |vs| % 3 == 0
    && m.vertices == Welded(vs) && m.indices == WeldIndices(vs)
    && WeldSpec(vs, m.indices, m.vertices, GreedyReps(vs, |vs|))
    && IndicesBelow(m.indices, |m.vertices|)
    && CountsOf(m.indices, |m.vertices|, m.trianglesPerVertex)
    && BoxesOf(m.vertices, m.indices, m.triangleBoxes)
    && |m.vertices| <= MaxUniqueVertices && |m.indices| <= MaxIndices
  }

  lemma IndicesOfWeld(vs: seq<Vec3>, indices: seq<nat>, unique: seq<Vec3>, reps: seq<nat>)
    requires WeldSpec(vs, indices, unique, reps)
    ensures IndicesBelow(indices, |unique|)
  {
    forall i | 0 <= i < |indices|
      ensures indices[i] < |unique|
    {
      WeldedInRange(vs, indices, unique, reps, i);
    }
  }

  /** Any whole list of triangles with at most `MaxUniqueVertices` corners
      loads: no count reaches the float maximum and neither guard fires. */
  lemma SmallMeshesLoad(vs: seq<Vec3>)
    requires |vs| > 0 && |vs| % 3 == 0 && |vs| <= MaxUniqueVertices
    ensures !CountOverflows(vs) && |Welded(vs)| <= MaxUniqueVertices && |vs| <= MaxIndices
  {
    forall v | 0 <= v < |Welded(vs)|
      ensures multiset(WeldIndices(vs))[v] <= FltMax
    {
      CountAtMostLength(WeldIndices(vs), v);
    }
  }

  lemma CountAtMostLength(s: seq<nat>, v: nat)
    ensures multiset(s)[v] <= |s|
  {
    assert |multiset(s)| == |s|;
    assert multiset{v} * multiset(s) <= multiset(s);
    if v in multiset(s) {
      var rest := multiset(s) - multiset{v};
      assert |rest| == |s| - 1;
    }
  }
}
