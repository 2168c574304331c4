# GeoBox geometry core in Dafny

This project models the geometry core of GeoBox, a small C++ mesh viewer, and proves properties of the model.

- **Bounding-volume hierarchy** (`src/bvh.cpp`, `src/bvh.hpp`). A class holds the node arena of `2N - 1` slots, the bump pointer, the primitive index array and the root. The constructor runs the explicit-stack build, proved against a tree invariant. Each popped node gets the min/max box of its points. It is then split on the axis of greatest variance by an in-place partition, or left as a leaf. The traversal entry points whose bodies are not shown (`foreach_primitive`, `count_primitives`) are specified as functions over the tree.
- **Greedy vertex welding** shared by `Object::from_triangles` (`src/object.cpp`) and the `Indexed_Triangle_Mesh_Object` constructor (`src/indexed_triangle_mesh_object.cpp`). Each vertex queries the point hierarchy with a sphere/box filter, and the first vertex seen wins. The weld is proved to compute one fixed greedy function of the input.
- **Mesh derivation.** Incidence counts per vertex, one box and one area per triangle, and the two buffer-size guards.
- **Intersection tests.** The slab test (`src/ray_aabb_intersection.cpp`), the Cramer's-rule ray/triangle test (`src/ray_triangle_intersection.cpp`), and the 3x3 cofactor, transpose, inverse and triangle/segment intersection (`src/intersection.cpp`). The two `is_close` predicates (`src/math.cpp`, `src/common.cpp`) are modelled as well.
- **STL import** (`src/read_stl.cpp`). The binary size formula, the binary/ASCII dispatch, the binary record walk over bytes and the ASCII walk over tokens, each with a round trip against a writer.
- **Application helpers** (`src/geobox_app.cpp`, `src/geobox_app.hpp`):
  - the default box;
  - the older STL reader of that file and the vertex-count guard on loading;
  - the undo/redo stacks, as a class;
  - the barycentric sampling of a triangle.

Coordinates are `real`. The tolerances of the source are constants or parameters. Square roots, vector lengths, the decoding of a 12-byte vertex and the parsing of a number are caller-supplied functions, characterised by what the model needs of them.

Modules: `Wrappers` (Option, Result), `Geometry` (vectors and boxes), `Common`, `Tolerance`, `Primitives`, `RayAabb`, `RayTriangle`, `Intersection`, `BvhTree` (the arena as a value), `Bvh` (the builder class), `Weld`, `Mesh`, `ObjectMesh`, `IndexedMesh`, `Stl` and `GeoBoxApp`.

## Model

| member | source | states |
|---|---|---|
| Common.IsClose | src/common.cpp:3-7 | `|a - b| <= 1e-5 * |a|`; close numbers have the same sign: both zero, both positive or both negative |
| Common.IsCloseReflexive | src/common.cpp:3-7 | every number is close to itself |
| Common.IsCloseToZeroIsExact | src/common.cpp:3-7 | `is_close(a, 0)` holds exactly when `a == 0`, so the parallel-axis test of the slab test is an exact-zero test |
| Common.IsCloseNotSymmetric | src/common.cpp:3-7 | the tolerance scales with the first argument only: 100000 is close to 99999, but not the other way round |
| Common.IsCloseVec | src/common.cpp:9-11 | the componentwise test; only the zero vector is close to the zero vector |
| Common.IsCloseVecComponentwise | src/common.cpp:9-11 | two vectors are close iff each pair of components is close |
| Tolerance.DefaultContext | src/math.hpp:10 | the default context has relative tolerance 1e-9 and absolute tolerance 1e-4 |
| Tolerance.IsClose | src/math.cpp:6-8 | numbers at most the absolute tolerance apart are close, whatever the relative tolerance |
| Tolerance.IsCloseSymmetric | src/math.cpp:6-8 | closeness under a context is symmetric |
| Tolerance.IsCloseVec | src/intersection.cpp:13-15 | the componentwise vector test; vectors whose components are each at most the absolute tolerance apart are close |
| Tolerance.IsCloseVecSymmetric | src/intersection.cpp:13-15 | the vector test is symmetric, as the scalar test is |
| Tolerance.IsCloseReflexive | src/math.cpp:6-8 | with a non-negative absolute tolerance, every number is close to itself |
| Tolerance.IsCloseToZero | src/math.cpp:6-8 | with a relative tolerance below 1, `x` is close to 0 iff `abs(x)` is at most the absolute tolerance |
| Tolerance.DefaultIsCloseToZero | src/math.hpp:10 | under the default context, `x` is close to 0 iff `-1e-4 <= x <= 1e-4` |
| Primitives.Triangle.At | src/primitives.cpp:8-14 | index 0, 1 and 2 give the first, second and third vertex; other indices are refused |
| Primitives.Triangle.Set | src/primitives.cpp:16 | writing through the indexing operator changes that vertex and no other |
| Primitives.SetThenAt | src/primitives.cpp:16 | reading vertex `j` after writing vertex `i` gives the new value iff `i == j`, and the old vertex otherwise |
| Primitives.SetAtIdentity | src/primitives.cpp:16 | writing a vertex's own value back leaves the triangle unchanged |
| Primitives.Triangle.Vertices | src/primitives.hpp:5-9 | a triangle has exactly three vertices, in index order |
| Primitives.Flatten | src/indexed_triangle_mesh_object.cpp:45-52 | `n` triangles give `3n` corners |
| RayAabb.MinComponent | src/ray_aabb_intersection.cpp:12 | the result is one of the three components and no component is smaller |
| RayAabb.MaxComponent | src/ray_aabb_intersection.cpp:14 | `max_component` as written returns the first component or the smaller of the other two, and is at least both of these, but not necessarily the largest component |
| RayAabb.MaxComponentIsNotTheMaximum | src/ray_aabb_intersection.cpp:14 | `max_component` as written yields 1 for `(0, 5, 1)`, which is not the maximum |
| RayAabb.IsNotAllZeros | src/ray_aabb_intersection.cpp:16 | holds exactly for a vector other than the zero vector |
| RayAabb.Crossings | src/ray_aabb_intersection.cpp:26-29 | on a non-parallel axis the near crossing is never after the far one |
| RayAabb.SlabIntersection | src/ray_aabb_intersection.cpp:18-35 | the returned value never exceeds the far bound `t_max`, and is non-negative iff `t_max` is |
| RayAabb.RayAabbIntersection | src/ray_aabb_intersection.cpp:18-35 | the axis loop computes `min(t_min, t_max)` of the slab bounds, and the result is finite for a non-zero direction |
| RayAabb.SomeAxisCrossed | src/ray_aabb_intersection.cpp:16-19 | with a direction that is not all zeros, some axis is crossed, so `t_max` is finite |
| RayAabb.SlabBounds | src/ray_aabb_intersection.cpp:23-31 | an axis is parallel iff its direction component is 0; a parallel slab is `[0, +inf]`; every slab has min <= max |
| RayAabb.HitDecidedByFarBounds | src/ray_aabb_intersection.cpp:32-34 | `t_min >= 0` always, so the result is `>= 0` iff `t_max >= 0`, and iff every crossed axis's far bound is `>= 0` |
| RayAabb.UnitBoxCase0 | src/ray_aabb_intersection.cpp:48 | test case 0: origin (2,2,2) with direction (-1,-1,-1) is reported as a hit |
| RayAabb.UnitBoxCase1 | src/ray_aabb_intersection.cpp:49 | test case 1: origin (2,2,2) with direction (1,1,1) is reported as a miss |
| RayAabb.UnitBoxCase2 | src/ray_aabb_intersection.cpp:50 | test case 2: origin (-2,-2,-2) with direction (-1,-1,-1) is reported as a miss |
| RayAabb.UnitBoxCase3 | src/ray_aabb_intersection.cpp:51 | test case 3: origin (-2,-2,-2) with direction (1,1,1) is reported as a hit |
| RayAabb.UnitBoxCase4 | src/ray_aabb_intersection.cpp:53 | test case 4: an origin on the corner (-1,-1,-1) pointing away is reported as a hit |
| RayAabb.UnitBoxCase5 | src/ray_aabb_intersection.cpp:54 | test case 5: an origin on the corner (-1,-1,-1) pointing inwards is reported as a hit |
| RayAabb.UnitBoxCase6 | src/ray_aabb_intersection.cpp:55 | test case 6: an origin just outside the corner, pointing away, is reported as a miss |
| RayAabb.UnitBoxCase7 | src/ray_aabb_intersection.cpp:56 | test case 7: an origin just outside the corner, pointing inwards, is reported as a hit |
| RayAabb.UnitBoxCase8 | src/ray_aabb_intersection.cpp:57 | test case 8: an origin just inside the corner, pointing inwards, is reported as a hit |
| RayAabb.UnitBoxCase9 | src/ray_aabb_intersection.cpp:58 | test case 9: an origin just inside the corner, pointing away, is reported as a hit |
| RayAabb.UnitBoxCase10 | src/ray_aabb_intersection.cpp:59 | test case 10: a ray along +z through the edge at x = y = -1 is reported as a hit |
| RayAabb.UnitBoxCase11 | src/ray_aabb_intersection.cpp:60 | test case 11: origin (0,0,1) on the top face with direction +z is reported as a hit |
| RayAabb.UnitBoxCase12 | src/ray_aabb_intersection.cpp:61 | test case 12: origin (0,0,1) with direction (1,0,0) is reported as a hit |
| RayAabb.UnitBoxCase13 | src/ray_aabb_intersection.cpp:62 | test case 13: origin (0,0,1) with direction (0,1,0) is reported as a hit |
| RayAabb.UnitBoxCase14 | src/ray_aabb_intersection.cpp:64 | test case 14: a ray from the centre along +z is reported as a hit |
| RayAabb.UnitBoxCase15 | src/ray_aabb_intersection.cpp:65 | test case 15: a ray from the centre along +y is reported as a hit |
| RayAabb.UnitBoxCase16 | src/ray_aabb_intersection.cpp:66 | test case 16: a ray from the centre along +x is reported as a hit |
| RayAabb.UnitBoxCase17 | src/ray_aabb_intersection.cpp:67 | test case 17: a ray from the centre along -x is reported as a hit |
| RayAabb.UnitBoxCase18 | src/ray_aabb_intersection.cpp:68 | test case 18: a ray from the centre along -y is reported as a hit |
| RayAabb.UnitBoxCase19 | src/ray_aabb_intersection.cpp:69 | test case 19: a ray from the centre along -z is reported as a hit |
| RayAabb.UnitBoxCase20 | src/ray_aabb_intersection.cpp:70 | test case 20: a ray from the centre along (1,1,1) is reported as a hit |
| RayAabb.UnitBoxCase21 | src/ray_aabb_intersection.cpp:71 | test case 21: origin (0,0,2) with direction (0,0,1) is reported as a miss |
| RayAabb.UnitBoxCase22 | src/ray_aabb_intersection.cpp:72 | test case 22: origin (0,0,-2) with direction (0,0,-1) is reported as a miss |
| RayAabb.UnitBoxCase23 | src/ray_aabb_intersection.cpp:73 | test case 23: origin (2,-2,-2) pointing further away is reported as a miss |
| RayAabb.UnitBoxCase24 | src/ray_aabb_intersection.cpp:74 | test case 24: origin (2,-2,-2) pointing at the box is reported as a hit |
| RayAabb.InBoxIff | src/ray_aabb_intersection.cpp:18-35 | a ray point at `t >= 0` is in the box iff `t` lies between the largest near bound (at least 0) and `t_max` |
| RayAabb.EntryDistanceCorrect | src/ray_aabb_intersection.cpp:18-35 | the corrected test reports a distance whose ray point is in the box, and every ray point in the box at `t >= 0` is reported, with a distance at most `t` |
| RayAabb.RealHitIsReported | src/ray_aabb_intersection.cpp:32-34 | every real hit is also a hit of the test as written |
| RayAabb.AsWrittenHitsBesideTheBox | src/ray_aabb_intersection.cpp:32-34 | the test as written reports a hit for a ray that never enters the box |
| RayAabb.AsWrittenEntryDistanceZeroOutside | src/ray_aabb_intersection.cpp:14 | for an origin outside the box, the test as written returns 0, while the entry distance is 4 |
| RayTriangle.RayIntersectsTriangleNonCoplanar | src/ray_triangle_intersection.cpp:10-45 | the early returns in the source's order; a reported hit has a non-singular system (`det != 0`) |
| RayTriangle.CofactorsAreCrossProducts | src/ray_triangle_intersection.cpp:11-29 | the cofactor columns are cross products, and `det = dot(direction, cross(ab, ac))` |
| RayTriangle.SolveIsUnique | src/ray_triangle_intersection.cpp:31-39 | with `det != 0`, any `(t, u, v)` where the ray meets the plane point is the Cramer solution |
| RayTriangle.SolveSolves | src/ray_triangle_intersection.cpp:31-39 | with `det != 0`, the Cramer solution puts the ray point on the plane point |
| RayTriangle.IntersectsIff | src/ray_triangle_intersection.cpp:10-45 | the test holds iff `abs(det) >= eps` and the unique solution has `t >= -eps`, `u >= -eps`, `v >= -eps` and `u + v <= 1 + eps` |
| RayTriangle.InsideHitIsReported | src/ray_triangle_intersection.cpp:17-44 | a non-grazing ray that meets the triangle at `t >= 0` is reported |
| RayTriangle.VertexRayHits | src/ray_triangle_intersection.cpp:66-72 | a ray from centroid plus normal towards any vertex is reported as a hit |
| RayTriangle.CentroidRayHits | src/ray_triangle_intersection.cpp:74-77 | a ray from centroid plus normal along the reversed normal is reported as a hit |
| RayTriangle.ScaledVertexParams | src/ray_triangle_intersection.cpp:79-87 | every vertex of the doubled triangle has a barycentric coordinate below `-eps` |
| RayTriangle.ScaledVertexRayMisses | src/ray_triangle_intersection.cpp:79-87 | rays towards the vertices of the doubled triangle are reported as misses |
| Intersection.SignTableIsCheckerboard | src/intersection.cpp:11 | the sign table entry is `(-1)^(r + c)` |
| Intersection.CalcCofactor | src/intersection.cpp:17-34 | the minor-filling loop computes the signed minor without row `r` and column `c` |
| Intersection.CalcCofactorColumn | src/intersection.cpp:36-42 | the column holds the three cofactors of that column |
| Intersection.TransposeOf | src/intersection.cpp:45-53 | entry `(i, j)` of the transpose is entry `(j, i)` of the matrix |
| Intersection.TransposeInvolution | src/intersection.cpp:45-53 | transposing twice gives back the matrix |
| Intersection.Transpose | src/intersection.cpp:45-53 | the in-place swap loop computes the transpose |
| Intersection.LaplaceFirstColumn | src/intersection.cpp:57-58 | the dot product of column 0 with its cofactor column is the determinant |
| Intersection.AdjugateOf | src/intersection.cpp:60-62 | entry `(i, j)` of the adjugate is cofactor `(j, i)` |
| Intersection.AdjugateOfIsAdjugate | src/intersection.cpp:60-62 | the matrix times its adjugate is the determinant times the identity, on both sides |
| Intersection.InverseOf | src/intersection.cpp:55-67 | none when the determinant is close to zero, else the adjugate over the determinant; a matrix with determinant exactly zero is refused whatever the tolerances |
| Intersection.Invert | src/intersection.cpp:55-67 | the method computes the inverse function: none when near-singular, else the adjugate over the determinant |
| Intersection.Transform | src/intersection.cpp:69-72 | the method computes the matrix-vector product of the columns |
| Intersection.InverseNoneIff | src/intersection.cpp:59 | there is no inverse iff the determinant is close to 0 |
| Intersection.InverseNoneIffSmallDet | src/intersection.cpp:59 | with a relative tolerance below 1, there is no inverse iff `abs(det)` is at most the absolute tolerance |
| Intersection.InverseHasNonZeroDet | src/intersection.cpp:55-67 | when an inverse is returned, the determinant is not 0 |
| Intersection.InverseIsExplicit | src/intersection.cpp:55-67 | a returned inverse is the adjugate divided by the determinant |
| Intersection.InverseIsTwoSided | src/intersection.cpp:55-67 | a returned inverse undoes the matrix on both sides |
| Intersection.IntersectOf | src/intersection.cpp:74-85 | the inverse applied to `t.a - s.b`, then the lerp between the segment's ends; a segment whose ends coincide meets nothing |
| Intersection.Intersect | src/intersection.cpp:74-85 | the method computes the intersection function |
| Intersection.IntersectNoneIff | src/intersection.cpp:80-81 | there is no intersection iff the coefficient matrix is near-singular |
| Intersection.LerpIsLinePoint | src/intersection.cpp:84 | `x * a + (1 - x) * b` is the line point at parameter `x` |
| Intersection.IntersectOnLineAndPlane | src/intersection.cpp:74-85 | a returned point lies on the segment's line and on the triangle's plane |
| Intersection.IntersectIsTheCommonPoint | src/intersection.cpp:74-85 | when the test returns a point and a point is common to line and plane, the returned point is that common point, with no range check on the parameters |
| Intersection.TransposeExample | src/intersection.cpp:94-106 | the transpose of the 1..9 rows has columns (1,4,7), (2,5,8), (3,6,9) |
| Intersection.CofactorExample | src/intersection.cpp:108-118 | the nine tested cofactors of the 1..9 matrix |
| Intersection.SingularExample | src/intersection.cpp:121 | the 1..9 matrix has no inverse under any tolerance |
| Intersection.InverseExample | src/intersection.cpp:123-136 | the tested invertible matrix has the tested inverse |
| Intersection.TransformExample | src/intersection.cpp:139-147 | the tested transform gives (13, 31, 49), close to it under the vector test |
| BvhTree.Node.NumPrimitives | src/bvh.hpp:23-26 | a node with `first <= last` holds `last - first + 1 >= 1` primitives |
| BvhTree.Identity | src/bvh.cpp:41-44 | the initial index array is `0, 1, ..., n - 1` |
| BvhTree.IdentityCounts | src/bvh.cpp:41-44 | the initial index array holds each of `0..n-1` exactly once and nothing else |
| BvhTree.LeafOrTwoChildren | src/bvh.cpp:99-117 | in a linked arena a node is a leaf iff its left child is null, and an inner node has both children |
| BvhTree.ChildrenPartitionParent | src/bvh.cpp:99-117 | the children of an inner node are non-empty, disjoint, inside their parent, strictly smaller, and together cover it |
| BvhTree.Split | src/bvh.cpp:104-117 | a split appends exactly two nodes |
| BvhTree.SplitIsTree | src/bvh.cpp:104-117 | splitting a leaf at a point strictly inside its range keeps the arena one tree |
| BvhTree.Filter | src/bvh.hpp:58-60 | the primitive filter keeps exactly the indices that pass it |
| BvhTree.VisitedComplete | src/bvh.hpp:58-60 | a traversal reaches every primitive that passes the filter and whose point passes the box filter in every box holding it |
| BvhTree.VisitedSound | src/bvh.hpp:58-60 | a traversal hands over only primitives of the subtree that pass the filter |
| BvhTree.VisitedAll | src/bvh.hpp:58-60 | with filters that accept everything, a traversal hands over exactly the subtree's index range, in order |
| Bvh.RangeBoxContains | src/bvh.cpp:14-28 | the min/max box of a node's range contains every point of the range |
| Bvh.RangeBoxTight | src/bvh.cpp:14-28 | every face of that box is attained by some point of the range |
| Bvh.CalcAabbIndirect | src/bvh.cpp:14-28 | the accumulation loop computes the min/max box of the points named by the index range |
| Bvh.NodeMoments | src/bvh.cpp:71-78 | the loop computes the mean and the mean of squares of the range |
| Bvh.UniformNodeHasNothingBelowMean | src/bvh.cpp:71-102 | if every point of a node has the same coordinate, the mean is that coordinate and no point lies below it, so the node stays a leaf |
| Bvh.ChooseAxis | src/bvh.cpp:82-89 | the chosen axis has the greatest variance, and ties go to the lower axis |
| Bvh.Partition | src/bvh.cpp:95-97 | the range is permuted in place, points below the split come first, and nothing outside the range moves |
| Bvh.SplitRange | src/bvh.cpp:65-102 | the range is only permuted within itself, and a split is made iff the partition point is strictly inside the range, never for one primitive |
| Bvh.Finished | src/bvh.cpp:57-118 | when the stack is empty, the indices are a permutation, the arena is one tree, every box contains its points, and at most `2N - 1` slots are used |
| Bvh.Bvh.NewNode | src/bvh.cpp:9-12 | the bump pointer hands out the next free slot, which now holds the new node |
| Bvh.Bvh.constructor | src/bvh.cpp:30-119 | the build ends with a valid hierarchy whose boxes contain their points; an empty input allocates nothing and has no root |
| Bvh.Bvh.SettleNode | src/bvh.cpp:58-102 | a popped node gets its box and is either left a leaf or given a split point strictly inside its range, keeping the build invariant |
| Bvh.Bvh.SplitNode | src/bvh.cpp:104-117 | the two new children are pushed, keeping the build invariant |
| Bvh.Bvh.AddChildren | src/bvh.cpp:104-117 | two slots are allocated for `[first, p - 1]` and `[p, last]` and linked from the parent |
| Bvh.Bvh.IsEmpty | src/bvh.cpp:141 | the hierarchy is empty iff it was built from no primitives |
| Bvh.Bvh.CountNodes | src/bvh.cpp:142-158 | the stack walk from the root counts exactly the allocated nodes, at most `2N - 1` |
| Bvh.Bvh.ForeachPrimitive | src/bvh.hpp:58-60 | only primitives that pass the filter are handed over |
| Bvh.Bvh.ForeachComplete | src/bvh.hpp:58-60 | every primitive that passes both filters is handed over |
| Bvh.Bvh.CountPrimitives | src/bvh.hpp:56 | the count equals the number of primitives the hierarchy was built from |
| Bvh.TreeCount | src/bvh.cpp:142-158 | the root of a tree reaches every allocated slot exactly once |
| Weld.ClosestPointOnAabb | src/object.cpp:10-12 | the clamp of a point into a box is the point itself when inside, and lies in the box |
| Weld.PointAabbDistance2 | src/object.cpp:14-16 | the squared distance to the clamped point; zero for a point of the box |
| Weld.SphereAabbIntersection | src/object.cpp:23-25 | a sphere whose centre is at distance zero from the box meets it, whatever its radius |
| Weld.ClosestIsNearest | src/object.cpp:10-16 | no point of the box is nearer than the clamped point |
| Weld.SphereAabbMeaning | src/object.cpp:23-25 | the sphere test holds iff some point of the box is within the radius of the centre |
| Weld.SphereReachesPoint | src/object.cpp:23-25 | a box holding a point within the radius passes the sphere test |
| Weld.NearSymmetric | src/object.cpp:86-89 | the weld range test is symmetric |
| Weld.WeldedInRange | src/object.cpp:61-94 | every index names a unique vertex within the weld range of its vertex |
| Weld.RepresentativesApart | src/object.cpp:61-94 | no two unique vertices are within the weld range of each other |
| Weld.WeldIsGreedy | src/object.cpp:61-94 | the representatives are those of the left-to-right, first-seen-wins pass |
| Weld.WeldDetermined | src/object.cpp:61-94 | any outcome of the weld loop equals the greedy weld function of the input |
| Weld.Welded | src/object.cpp:61-94 | there are never more unique vertices than input vertices |
| Weld.WeldIndices | src/object.cpp:61-94 | there is one index per input vertex |
| Weld.GreedyReps | src/object.cpp:61-94 | the representatives of a prefix are positions inside it |
| Weld.NearestRep | src/object.cpp:61-94 | the index of the first unique vertex within range, or the count if none is |
| Weld.MarkDuplicates | src/object.cpp:76-82 | each found vertex is marked, and only a vertex not yet remapped gets the new index |
| Weld.NeighbourQuery | src/object.cpp:83-90 | the hierarchy query with the sphere filter hands over exactly the vertices within range |
| Weld.WeldRoundAt | src/object.cpp:83-90 | one query marks exactly the vertices within range and remaps those not yet remapped |
| Weld.WeldVertex | src/object.cpp:61-94 | one pass of the loop keeps the weld invariant and adds a unique vertex iff the vertex was not yet remapped |
| Weld.WeldLoop | src/object.cpp:61-94 | the loop over all vertices establishes the weld specification and leaves every vertex remapped |
| Weld.Weld | src/object.cpp:61-94 | the point hierarchy and the loop together produce indices and unique vertices meeting the weld specification, and they are the greedy reference values `Welded` and `WeldIndices` |
| ObjectMesh.FromTriangles | src/object.cpp:27-193 | an empty or non-triangle input, an overflowing count and the two guards are refused in that order, iff they apply; otherwise the result is the greedy weld with its counts and boxes |
| ObjectMesh.IndicesOfWeld | src/object.cpp:61-94 | every index of a weld is below the unique-vertex count |
| ObjectMesh.SmallMeshesLoad | src/object.cpp:99-139 | whole triangle lists of at most `UINT_MAX / 12` corners pass the count and size guards |
| Mesh.CheckSizes | src/object.cpp:130-139 | no error iff both counts fit; too many vertices is reported first, then too many indices |
| Mesh.GuardsFitBuffers | src/object.cpp:130-139 | counts that pass the guards fit the unsigned and int buffer sizes, and the bounds are tight |
| Mesh.CountIncidence | src/indexed_triangle_mesh_object.cpp:112-115 | each vertex's count is the number of its occurrences in the indices |
| Mesh.CountIncidenceGuarded | src/object.cpp:99-110 | fails iff some vertex occurs more often than the float maximum; otherwise it gives the occurrence counts |
| Mesh.CountsAddUp | src/object.cpp:99-110 | the counts add up to the number of indices |
| Mesh.TriangleBox | src/object.cpp:186-187 | the triangle box contains the three corners |
| Mesh.TriangleBoxSmallest | src/object.cpp:186-187 | any box holding the three corners contains the triangle box |
| Mesh.TriangleBoxes | src/object.cpp:180-189 | there is one box per index triple, the box of its three welded corners |
| Mesh.TriangleArea | src/indexed_triangle_mesh_object.cpp:202-211 | the area is non-negative, and four times its square is the squared length of `cross(b - a, c - a)` |
| Mesh.AreaZeroIffDegenerate | src/indexed_triangle_mesh_object.cpp:202-211 | the area is 0 iff the cross product of the edges is zero |
| Mesh.TriangleAreas | src/indexed_triangle_mesh_object.cpp:202-211 | there is one non-negative area per triangle |
| IndexedMesh.GetIthVertex | src/indexed_triangle_mesh_object.cpp:70-77 | corner `i` is vertex `i % 3` of triangle `i / 3`, one of its three vertices |
| IndexedMesh.FlattenIsIthVertex | src/indexed_triangle_mesh_object.cpp:70-77 | corner `i` of the flattened list is `get_ith_vertex(i)` |
| IndexedMesh.IthVertexOfCorner | src/indexed_triangle_mesh_object.cpp:70-77 | `get_ith_vertex(3t + k)` is corner `k` of triangle `t` |
| IndexedMesh.FlattenVertices | src/indexed_triangle_mesh_object.cpp:41-52 | the loop lists the `3n` corners in order |
| IndexedMesh.NewIndexedMesh | src/indexed_triangle_mesh_object.cpp:32-212 | an empty list and the two overflow checks throw iff they apply; otherwise the result is the greedy weld with unguarded counts, boxes and areas |
| Stl.ExpectedBinarySize | src/read_stl.cpp:23-25 | the expected size is `84 + 50n` |
| Stl.ExpectedSizeDetermines | src/read_stl.cpp:23-25 | the size determines the triangle count, is at least 84 and is 84 more than a multiple of 50 |
| Stl.Uint32At | src/read_stl.cpp:82-83 | the little-endian count read is below `2^32` |
| Stl.Uint32RoundTrip | src/read_stl.cpp:82-83 | reading back a written count gives the count |
| Stl.Classify | src/read_stl.cpp:70-90 | a binary classification means the file has exactly the expected size for its count |
| Stl.RecordTriangle | src/read_stl.cpp:27-39 | a record's three vertices are read at offsets 12, 24 and 36 |
| Stl.BinaryTriangles | src/read_stl.cpp:27-39 | the walk gives one triangle per record |
| Stl.ReadBinary | src/read_stl.cpp:27-39 | the record loop yields `3n` vertices, the corners of the records in order |
| Stl.BinaryRoundTrip | src/read_stl.cpp:23-39 | a written binary file is classified as binary and its triangles are read back |
| Stl.Tokens | src/read_stl.cpp:45 | every token is a non-empty word without white space |
| Stl.WordLength | src/read_stl.cpp:45 | a word ends at white space or at the end of the text |
| Stl.TokensOfJoin | src/read_stl.cpp:45 | tokenising words joined by spaces gives the words back |
| Stl.AsciiFrom | src/read_stl.cpp:41-61 | the ASCII walk yields whole triangles |
| Stl.ReadAscii | src/read_stl.cpp:41-61 | the token loop computes the ASCII walk |
| Stl.AsciiRoundTrip | src/read_stl.cpp:41-61 | reading a written ASCII solid gives back its triangles' corners |
| Stl.StlVertices | src/read_stl.cpp:63-91 | only an empty file gives nothing, and every result is whole triangles |
| Stl.ReadStl | src/read_stl.cpp:63-91 | the reader computes the dispatch function |
| Stl.ReadWrittenBinary | src/read_stl.cpp:63-91 | a written binary file is read back as its triangles' corners |
| GeoBoxApp.GenerateBox | src/geobox_app.cpp:80-93 | 8 vertices and 12 triples with every index below 8; vertex 0 is `min` and vertex 6 is `max` |
| GeoBoxApp.BoxVerticesAreCorners | src/geobox_app.cpp:80-93 | every vertex takes the min or max of each axis |
| GeoBoxApp.BoxCornersDistinct | src/geobox_app.cpp:80-93 | for a box with volume the 8 vertices are pairwise distinct |
| GeoBoxApp.BoxTrianglesOnFaces | src/geobox_app.cpp:80-93 | every triangle lies on one face of the box |
| GeoBoxApp.TwoTrianglesPerFace | src/geobox_app.cpp:80-93 | consecutive pairs of triangles share a face, and the six pairs cover six different faces |
| GeoBoxApp.AppReadBinary | src/geobox_app.cpp:112-124 | this reader's record loop reads the same `3n` vertices as the binary walk |
| GeoBoxApp.AppAsciiFrom | src/geobox_app.cpp:126-147 | this ASCII walk yields whole triangles |
| GeoBoxApp.AppReadAscii | src/geobox_app.cpp:126-147 | the token loop computes this ASCII walk |
| GeoBoxApp.AppAsciiWithoutFacets | src/geobox_app.cpp:126-147 | without `facet` tokens this reader still appends three vertices per token, while the other reader appends none |
| GeoBoxApp.AppAsciiEmptySolid | src/geobox_app.cpp:126-147 | the words `solid N endsolid N` of an empty solid give 12 vertices here and none in the other reader |
| GeoBoxApp.AppEmptySolidFile | src/geobox_app.cpp:149-177 | the file `solid N\r\nendsolid N` with a name of 34 characters or more has an odd size of at least 85 bytes, so it is read as ASCII; this reader returns 12 vertices for it and the reader of `src/read_stl.cpp` none |
| GeoBoxApp.AppStlVertices | src/geobox_app.cpp:149-177 | only an empty file gives nothing, and every result is whole triangles |
| GeoBoxApp.AppReadStl | src/geobox_app.cpp:149-177 | the reader computes this file's dispatch function |
| GeoBoxApp.AppReaderAgreesOffAscii | src/geobox_app.cpp:149-177 | off the ASCII path both readers agree |
| GeoBoxApp.DrawCount | src/geobox_app.cpp:442-468 | a mesh is drawn iff it was read and has at most `UINT_MAX` vertices, and then its count is the vertex count |
| GeoBoxApp.BinaryFileDrawn | src/geobox_app.cpp:442-468 | a binary file with `n` triangles is drawn by this file's reader with `3n` vertices iff `3n <= UINT_MAX` |
| GeoBoxApp.App.OnLoadStl | src/geobox_app.cpp:442-468 | reads with this file's own `read_stl_mesh_file`; a GPU mesh of that many vertices is appended iff the read succeeds and the count fits an `unsigned int`, and the stacks are unchanged |
| GeoBoxApp.UndoStep | src/geobox_app.hpp:70-78 | the entry count is preserved; an empty undo stack changes nothing; otherwise the top entry moves to the redo stack and its undo action runs once |
| GeoBoxApp.RedoStep | src/geobox_app.hpp:80-88 | the entry count is preserved; an empty redo stack changes nothing; otherwise the top entry moves to the undo stack and its redo action runs once |
| GeoBoxApp.RedoAfterUndo | src/geobox_app.hpp:70-88 | undo then redo restores both stacks, having run that entry's undo and then its redo |
| GeoBoxApp.UndoAfterRedo | src/geobox_app.hpp:70-88 | redo then undo restores both stacks, having run that entry's redo and then its undo |
| GeoBoxApp.App.constructor | src/geobox_app.hpp:67-68 | the application starts with no GPU meshes and empty stacks |
| GeoBoxApp.App.Undo | src/geobox_app.hpp:70-78 | the stacks and actions change as the undo step says, and the meshes are unchanged |
| GeoBoxApp.App.Redo | src/geobox_app.hpp:80-88 | the stacks and actions change as the redo step says, and the meshes are unchanged |
| GeoBoxApp.BarycentricCoords | src/geobox_app.hpp:98-103 | for draws in `[0, 1]` both coordinates are non-negative and their sum is at most 1 |
| GeoBoxApp.BarycentricCovers | src/geobox_app.hpp:98-103 | every point of the triangle's barycentric domain comes from some pair of draws in `[0, 1]` |
| GeoBoxApp.DrawsRecovered | src/geobox_app.hpp:98-103 | for a positive first draw, both draws are recovered from the coordinates, so the map is one-to-one |

## Left out

- Vertex normals (`glm::normalize` in both mesh constructors) are left out. They involve a square root and a division by zero on degenerate triangles.
- Floating-point rounding is left out. Coordinates are `real`. No result claims IEEE-exact equality, and the tested float examples are stated over exact reals.
- The float counter of the incidence counts is left out. Its increments stop changing at `2^24`. The model counts in `nat` and keeps only the comparison with the float maximum.
- OpenGL, GLFW, ImGui and the file dialogs are left out, with all GPU upload, VAO and buffer code.
- `Indexed_Mesh::to_gpu` and the model and normal matrices are left out for the same reason.
- File opening and its failure, stream seeks and `>>` parsing are left out. The readers work on the file's bytes, or on its white-space separated tokens. The 12-byte vertex decoder and the number parser are parameters.
- Malformed numbers in an ASCII file are left out. The parser parameter always yields a number.
- The extra pass of both ASCII loops after trailing white space at end of file is left out. The token list ends with the last token.
- `read_stl.hpp` declares a different return type from the one `read_stl.cpp` defines. The model follows the definition.
- The `Triangle t` of the app's ASCII reader starts uninitialised. The model takes its initial value as the parameter `t0`.
- The random draws are left out. `get_random_factor` draws from `[0, 1)`, and the draws are parameters. The square root is a parameter characterised by `s >= 0 && s * s == u0`.
- GeoBoxApp.BarycentricCovers is stated on the closed square `[0, 1]^2`. The half-open interval of the draw is not modelled.
- The undo/redo actions are `std::function`s with effects the model cannot see. An action is an opaque number, and running it is recorded in a log.
- The bodies of `foreach_node`, `foreach_leaf_node` and `calc_max_leaf_size` are not part of this model. The traversal is a specification function over the tree.
- The `std::cout` lines that print the result of `count_nodes` in its callers (src/object.cpp:58, src/indexed_triangle_mesh_object.cpp:62) are output only. `count_nodes` itself prints nothing and is modelled as returning the count.
- The triangle hierarchy built from boxes (`from_bounding_boxes`) is not part of this model. Neither is the `did_build_fail`/rethrow path around it. The triangle boxes themselves are modelled.
- The point hierarchy over degenerate boxes is built over the points themselves, so a point box is its point.
- `std::partition` makes no promise about order within each group. Bvh.Partition states only what it does promise: the grouping, a permutation of the range, and nothing else moved.
- The unsigned wrap-around of loop counters is left out. Counts are unbounded naturals, and only the explicit overflow guards are modelled.
- The destructor walk of the hierarchy and the memory management are left out.
- Intersection.IntersectIsTheCommonPoint covers the triangle/segment test at src/intersection.cpp:149-154 for every input where the test returns a point: that point is then the common point. A common point of a near-singular but invertible system is not returned (Intersection.IntersectNoneIff). The concrete instance with its `0.00001` offsets is not stated as a lemma of its own.

## Findings

| source | as written | input that shows it | evidently intended | confidence | as-written member | corrected member |
|---|---|---|---|---|---|---|
| src/ray_aabb_intersection.cpp:32-34 | returns `min(t_min, t_max)` and callers treat `>= 0` as a hit, so a hit needs only `t_max >= 0` | origin (-3, 3, 0), direction (1, -0.25, 0) on the box [-1, 1]^3 is reported as a hit but never enters the box | report a hit iff `t_min <= t_max`, with entry distance `t_min` | high (proved over reals; not executed) | RayAabb.AsWrittenHitsBesideTheBox | RayAabb.EntryDistanceCorrect |
| src/ray_aabb_intersection.cpp:14 | `max_component` is `max(x, min(y, z))`, not the maximum, so `t_min` is wrong and the returned distance is 0 for outside origins | `(0, 5, 1)` gives 1; origin (0, -5, 0.5) with direction (0, 1, 0.1) returns 0 although the box is entered at 4 | the largest of the three components | high (proved over reals; not executed) | RayAabb.AsWrittenEntryDistanceZeroOutside | RayAabb.EntryDistanceCorrect |
| src/geobox_app.cpp:144 | appends the current triangle's three vertices after every token, inside or outside a facet | the 85-byte file `solid N\r\nendsolid N`, `N` any name of 34 non-space 8-bit characters, with nothing after the footer, gives 12 vertices instead of none | append only after a `facet` block, as src/read_stl.cpp:46-58 does | high (proved on the file's bytes; not executed) | GeoBoxApp.AppEmptySolidFile | Stl.AsciiRoundTrip |
