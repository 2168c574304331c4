/** The vertex weld shared by `Object::from_triangles` (src/object.cpp) and the
    `Indexed_Triangle_Mesh_Object` constructor (src/indexed_triangle_mesh_object.cpp):
    one left-to-right pass in which the first vertex not yet remapped becomes a
    representative and takes over, through a BVH query, every vertex within
    `Range` of it that is not yet remapped. */
module Weld {
  import opened Geometry
  import opened BvhTree
  import opened Bvh

  // ---------------------------------------------------------------------------
  // Sphere against box, as the traversal filter uses it.

  /** A box whose corners are ordered on every axis. */
  predicate ValidBox(box: Aabb) {
    box.min.x <= box.max.x && box.min.y <= box.max.y && box.min.z <= box.max.z
  }

  /** `closest_point_on_aabb`: the point clamped into the box. */
  function ClosestPointOnAabb(p: Vec3, box: Aabb): (c: Vec3)
    ensures Contains(box, p) ==> c == p
    ensures ValidBox(box) ==> Contains(box, c)
  {
    Clamp(p, box.min, box.max)
  }

  /** `point_aabb_distance_squared`: zero for a point of the box. */
  function PointAabbDistance2(p: Vec3, box: Aabb): (d: real)
    ensures Contains(box, p) ==> d == 0.0
  {
    Dist2(p, ClosestPointOnAabb(p, box))
  }

  /** `sphere_aabb_intersection` for the sphere of centre `c` and radius `r`:
      a sphere whose centre is at distance zero from the box (one centred in
      it, by the contract above) meets it, whatever its radius. */
  function SphereAabbIntersection(c: Vec3, r: real, box: Aabb): (meets: bool)
    ensures PointAabbDistance2(c, box) == 0.0 ==> meets
  {
    SquareNonNegative(r);
    PointAabbDistance2(c, box) <= r * r
  }

  lemma SquareNonNegative(r: real)
    ensures r * r >= 0.0
  {
    if r < 0.0 {
      assert r * r == (-r) * (-r);
    }
  }

  lemma SquareLe(a: real, b: real)
    requires 0.0 <= a <= b
    ensures a * a <= b * b
  {
    assert a * a <= a * b;
  }

  /** On one axis, clamping into `[lo, hi]` comes at least as close as any
      coordinate of that interval: `d` is the distance to the clamped value,
      `e` the distance to `q`. */
  lemma ClampCloser(v: real, lo: real, hi: real, q: real, d: real, e: real)
    requires lo <= q <= hi
    requires d == v - Clamp1(v, lo, hi) && e == v - q
    ensures d * d <= e * e
  {
    if v < lo {
      SquareLe(lo - v, q - v);
      assert d * d == (lo - v) * (lo - v) && e * e == (q - v) * (q - v);
    } else if v > hi {
      SquareLe(v - hi, v - q);
    } else {
      assert d == 0.0;
    }
  }

  /** The clamped point is the point of the box nearest to `p`. */
  lemma ClosestIsNearest(p: Vec3, box: Aabb, q: Vec3)
    requires Contains(box, q)
    ensures PointAabbDistance2(p, box) <= Dist2(p, q)
  {
    var d, e := Sub(p, ClosestPointOnAabb(p, box)), Sub(p, q);
    ClampCloser(p.x, box.min.x, box.max.x, q.x, d.x, e.x);
    ClampCloser(p.y, box.min.y, box.max.y, q.y, d.y, e.y);
    ClampCloser(p.z, box.min.z, box.max.z, q.z, d.z, e.z);
    DotLe(d, e);
  }

  lemma DotLe(d: Vec3, e: Vec3)
    requires d.x * d.x <= e.x * e.x && d.y * d.y <= e.y * e.y && d.z * d.z <= e.z * e.z
    ensures Dot(d, d) <= Dot(e, e)
  {
  }

  /** For a box with ordered corners, the sphere meets the box exactly when some
      point of the box lies within the radius of the centre. */
  lemma SphereAabbMeaning(c: Vec3, r: real, box: Aabb)
    requires ValidBox(box)
    ensures SphereAabbIntersection(c, r, box) <==> exists q :: Contains(box, q) && Dist2(c, q) <= r * r
  {
    if SphereAabbIntersection(c, r, box) {
      var q := ClosestPointOnAabb(c, box);
      assert Contains(box, q) && Dist2(c, q) <= r * r;
    }
    if q :| Contains(box, q) && Dist2(c, q) <= r * r {
      SphereReachesPoint(c, r, box, q);
    }
  }

  /** A box holding a point within the radius passes the filter; in particular
      a box holding the centre does. */
  lemma SphereReachesPoint(c: Vec3, r: real, box: Aabb, q: Vec3)
    requires Contains(box, q) && Dist2(c, q) <= r * r
    ensures SphereAabbIntersection(c, r, box)
  {
    ClosestIsNearest(c, box, q);
  }

  // ---------------------------------------------------------------------------
  // What the weld promises.

  /** The weld range, `range` in both callers; distances are compared squared. */
  const Range: real := 0.0001

  /** `v` lies within the weld range of `rep`: the primitive filter. */
  predicate Near(rep: Vec3, v: Vec3) {
    Dist2(rep, v) <= Range * Range
  }

  lemma NearSymmetric(a: Vec3, b: Vec3)
    ensures Near(a, b) <==> Near(b, a)
  {
    assert Dist2(a, b) == Dist2(b, a);
  }

  /** Representative `k` is the first one within range of `v`. */
  predicate FirstNear(unique: seq<Vec3>, v: Vec3, k: nat) {
    && k < |unique| && Near(unique[k], v)
    && forall k' :: 0 <= k' < k ==> !Near(unique[k'], v)
  }

  /** No representative is within range of `v`. */
  predicate FarFromAll(v: Vec3, unique: seq<Vec3>) {
    forall k :: 0 <= k < |unique| ==> !Near(unique[k], v)
  }

  /** The outcome of the weld. `reps[k]` is the input position of representative
      `k`, and representatives appear in input order. Each vertex is mapped to
      the first representative within range of it, which comes no later than the
      vertex itself, and each representative is mapped to itself. */
  ghost predicate WeldSpec(vs: seq<Vec3>, indices: seq<nat>, unique: seq<Vec3>, reps: seq<nat>) {
    && |indices| == |vs| && |reps| == |unique| <= |vs|
    && (forall k {:trigger reps[k]} :: 0 <= k < |reps| ==> reps[k] < |vs| && unique[k] == vs[reps[k]] && indices[reps[k]] == k)
    && (forall k, k' :: 0 <= k < k' < |reps| ==> reps[k] < reps[k'])
    && (forall j {:trigger indices[j]} :: 0 <= j < |vs| ==> FirstNear(unique, vs[j], indices[j]) && reps[indices[j]] <= j)
  }

  /** Every index names a representative, and every vertex lies within the weld
      range of the one it names. */
  lemma WeldedInRange(vs: seq<Vec3>, indices: seq<nat>, unique: seq<Vec3>, reps: seq<nat>, j: nat)
    requires WeldSpec(vs, indices, unique, reps) && j < |vs|
    ensures indices[j] < |unique| && Dist2(unique[indices[j]], vs[j]) <= Range * Range
  {
  }

  /** No two representatives are within range of each other. */
  lemma RepresentativesApart(vs: seq<Vec3>, indices: seq<nat>, unique: seq<Vec3>, reps: seq<nat>, k: nat, k': nat)
    requires WeldSpec(vs, indices, unique, reps)
    requires k < |unique| && k' < |unique| && k != k'
    ensures !Near(unique[k], unique[k'])
  {
    if k < k' {
      assert FirstNear(unique, vs[reps[k']], k');
    } else {
      assert FirstNear(unique, vs[reps[k]], k);
      NearSymmetric(unique[k], unique[k']);
    }
  }

  // ---------------------------------------------------------------------------
  // An independent reference: the greedy pass written as a recursion over the
  // input.

  /** The vertices at positions `reps`. */
  function Pick(vs: seq<Vec3>, reps: seq<nat>): (u: seq<Vec3>)
    requires forall k :: 0 <= k < |reps| ==> reps[k] < |vs|
    ensures |u| == |reps| && forall k :: 0 <= k < |reps| ==> u[k] == vs[reps[k]]
  {
    if reps == [] then [] else Pick(vs, reps[..|reps| - 1]) + [vs[reps[|reps| - 1]]]
  }

  /** The representatives among the first `j` vertices: a vertex becomes one when
      no earlier representative is within range of it. */
  function GreedyReps(vs: seq<Vec3>, j: nat): (reps: seq<nat>)
    requires j <= |vs|
    ensures |reps| <= j && forall k :: 0 <= k < |reps| ==> reps[k] < j
  {
    if j == 0 then []
    else
      var r := GreedyReps(vs, j - 1);
      if FarFromAll(vs[j - 1], Pick(vs, r)) then r + [j - 1] else r
  }

  /** The representatives before position `j` are the first `c` of them. */
  predicate PrefixUpTo(reps: seq<nat>, j: nat, c: nat) {
    && c <= |reps|
    && (forall k :: 0 <= k < c ==> reps[k] < j)
    && (forall k :: c <= k < |reps| ==> reps[k] >= j)
  }

  /** After the first `j` vertices the greedy representatives are the first
      `c` entries of `reps`. */
  predicate Walked(vs: seq<Vec3>, reps: seq<nat>, j: nat, c: nat) {
    j <= |vs| && PrefixUpTo(reps, j, c) && GreedyReps(vs, j) == reps[..c]
  }

  /** The count of representatives before position `j + 1`, from the count
      before `j`. */
  function Advance(reps: seq<nat>, j: nat, c: nat): nat {
    if c < |reps| && reps[c] == j then c + 1 else c
  }

  /** The weld promise pins down the representatives: they are exactly the
      greedy ones, so with `WeldSpec` the whole outcome is fixed. */
  lemma WeldIsGreedy(vs: seq<Vec3>, indices: seq<nat>, unique: seq<Vec3>, reps: seq<nat>)
    requires WeldSpec(vs, indices, unique, reps)
    ensures reps == GreedyReps(vs, |vs|) && unique == Pick(vs, reps)
  {
    forall j: nat, c: nat | j < |vs| && Walked(vs, reps, j, c)
      ensures Walked(vs, reps, j + 1, Advance(reps, j, c))
    {
      GreedyStep(vs, indices, unique, reps, j, c);
    }
    assert Walked(vs, reps, 0, 0);
    GreedyFrom(vs, reps, 0, 0);
    assert reps[..|reps|] == reps;
  }

  /** Walks the input from position `j` to the end, one step at a time. */
  lemma {:induction false} GreedyFrom(vs: seq<Vec3>, reps: seq<nat>, j: nat, c: nat)
    requires forall j': nat, c': nat {:trigger Advance(reps, j', c')} ::
      j' < |vs| && Walked(vs, reps, j', c') ==> Walked(vs, reps, j' + 1, Advance(reps, j', c'))
    requires forall k :: 0 <= k < |reps| ==> reps[k] < |vs|
    requires Walked(vs, reps, j, c)
    ensures GreedyReps(vs, |vs|) == reps[..|reps|]
    decreases |vs| - j
  {
    if j == |vs| {
      PrefixEnd(reps, j, c);
    } else {
      GreedyFrom(vs, reps, j + 1, Advance(reps, j, c));
    }
  }

  lemma PrefixEnd(reps: seq<nat>, n: nat, c: nat)
    requires PrefixUpTo(reps, n, c) && forall k :: 0 <= k < |reps| ==> reps[k] < n
    ensures c == |reps|
  {
    if |reps| > 0 {
      assert reps[|reps| - 1] < n;
    }
  }

  lemma PickPrefix(vs: seq<Vec3>, unique: seq<Vec3>, reps: seq<nat>, c: nat)
    requires |reps| == |unique| && c <= |reps|
    requires forall k :: 0 <= k < |reps| ==> reps[k] < |vs| && unique[k] == vs[reps[k]]
    ensures Pick(vs, reps[..c]) == unique[..c]
  {
  }

  /** One position of the walk: `j` is the next representative exactly when the
      greedy rule makes it one. */
  lemma GreedyStep(vs: seq<Vec3>, indices: seq<nat>, unique: seq<Vec3>, reps: seq<nat>, j: nat, c: nat)
    requires WeldSpec(vs, indices, unique, reps) && j < |vs| && Walked(vs, reps, j, c)
    ensures Walked(vs, reps, j + 1, Advance(reps, j, c))
  {
    PickPrefix(vs, unique, reps, c);
    if c < |reps| && reps[c] == j {
      GreedyTakes(vs, indices, unique, reps, j, c);
    } else {
      GreedySkips(vs, indices, unique, reps, j, c);
    }
  }

  lemma GreedyTakes(vs: seq<Vec3>, indices: seq<nat>, unique: seq<Vec3>, reps: seq<nat>, j: nat, c: nat)
    requires WeldSpec(vs, indices, unique, reps) && j < |vs|
    requires PrefixUpTo(reps, j, c) && GreedyReps(vs, j) == reps[..c]
    requires Pick(vs, reps[..c]) == unique[..c]
    requires c < |reps| && reps[c] == j
    ensures PrefixUpTo(reps, j + 1, c + 1) && GreedyReps(vs, j + 1) == reps[..c + 1]
  {
    assert indices[j] == c;
    assert FirstNear(unique, vs[j], c);
    assert FarFromAll(vs[j], unique[..c]);
    TakeOneMore(reps, c);
  }

  lemma TakeOneMore(s: seq<nat>, c: nat)
    requires c < |s|
    ensures s[..c + 1] == s[..c] + [s[c]]
  {
  }

  lemma GreedySkips(vs: seq<Vec3>, indices: seq<nat>, unique: seq<Vec3>, reps: seq<nat>, j: nat, c: nat)
    requires WeldSpec(vs, indices, unique, reps) && j < |vs|
    requires PrefixUpTo(reps, j, c) && GreedyReps(vs, j) == reps[..c]
    requires Pick(vs, reps[..c]) == unique[..c]
    requires !(c < |reps| && reps[c] == j)
    ensures PrefixUpTo(reps, j + 1, c) && GreedyReps(vs, j + 1) == reps[..c]
  {
    var k := indices[j];
    assert FirstNear(unique, vs[j], k) && reps[k] <= j;
    SkippedHasEarlierRep(reps, j, c, k);
    NearRepInPrefix(unique, vs[j], k, c);
    PrefixSkip(reps, j, c);
  }

  /** A position that is not the next representative, but is mapped to one no
      later than itself, is mapped to one of the earlier representatives. */
  lemma SkippedHasEarlierRep(reps: seq<nat>, j: nat, c: nat, r: nat)
    requires PrefixUpTo(reps, j, c) && !(c < |reps| && reps[c] == j)
    requires forall k, k' :: 0 <= k < k' < |reps| ==> reps[k] < reps[k']
    requires r < |reps| && reps[r] <= j
    ensures r < c
  {
  }

  /** A representative within range among the first `c` rules out being far
      from all of them. */
  lemma NearRepInPrefix(unique: seq<Vec3>, v: Vec3, k: nat, c: nat)
    requires FirstNear(unique, v, k) && k < c <= |unique|
    ensures !FarFromAll(v, unique[..c])
  {
    assert unique[..c][k] == unique[k];
  }

  /** Position `j` is not a representative: the split point stays where it is. */
  lemma PrefixSkip(reps: seq<nat>, j: nat, c: nat)
    requires PrefixUpTo(reps, j, c) && !(c < |reps| && reps[c] == j)
    requires forall k, k' :: 0 <= k < k' < |reps| ==> reps[k] < reps[k']
    ensures PrefixUpTo(reps, j + 1, c)
  {
    if c < |reps| {
      assert reps[c] > j;
    }
  }

  /** The index of the first representative within range of `v`, or `|unique|`
      when there is none. */
  function NearestRep(unique: seq<Vec3>, v: Vec3): (k: nat)
    ensures k <= |unique|
    ensures k < |unique| ==> FirstNear(unique, v, k)
    ensures k == |unique| ==> FarFromAll(v, unique)
  {
    if unique == [] then 0
    else
      var init := unique[..|unique| - 1];
      var k := NearestRep(init, v);
      assert forall i :: 0 <= i < |init| ==> init[i] == unique[i];
      if k < |init| then k
      else if Near(unique[|init|], v) then |init|
      else |unique|
  }

  lemma FirstNearUnique(unique: seq<Vec3>, v: Vec3, k: nat, k': nat)
    requires FirstNear(unique, v, k) && FirstNear(unique, v, k')
    ensures k == k'
  {
  }

  /** The representative vertices of the greedy pass over `vs`. */
  function Welded(vs: seq<Vec3>): (unique: seq<Vec3>)
    ensures |unique| <= |vs|
  {
    Pick(vs, GreedyReps(vs, |vs|))
  }

  /** Each vertex mapped to the first representative within range of it. */
  function WeldIndices(vs: seq<Vec3>): (indices: seq<nat>)
    ensures |indices| == |vs|
  {
    var unique := Welded(vs);
    seq(|vs|, j requires 0 <= j < |vs| => NearestRep(unique, vs[j]))
  }

  /** The weld promise leaves no freedom: any outcome meeting it is the greedy
      one, representatives, vertices and indices alike. */
  lemma WeldDetermined(vs: seq<Vec3>, indices: seq<nat>, unique: seq<Vec3>, reps: seq<nat>)
    requires WeldSpec(vs, indices, unique, reps)
    ensures reps == GreedyReps(vs, |vs|) && unique == Welded(vs) && indices == WeldIndices(vs)
  {
    WeldIsGreedy(vs, indices, unique, reps);
    forall j | 0 <= j < |vs|
      ensures indices[j] == WeldIndices(vs)[j]
    {
      var k := NearestRep(unique, vs[j]);
      assert FirstNear(unique, vs[j], indices[j]);
      FirstNearUnique(unique, vs[j], indices[j], k);
    }
  }

  // ---------------------------------------------------------------------------
  // The pass itself.

  /** The state of the pass before position `i`: the representatives found so
      far, every remapped vertex mapped as `WeldSpec` demands, and no vertex that
      is not remapped within range of any representative. */
  ghost predicate WeldInv(vs: seq<Vec3>, idx: seq<nat>, rem: seq<bool>, unique: seq<Vec3>, reps: seq<nat>, i: nat) {
    && |idx| == |vs| && |rem| == |vs| && i <= |vs| && |reps| == |unique|
    && (forall k :: 0 <= k < |reps| ==> k <= reps[k] < i && unique[k] == vs[reps[k]] && rem[reps[k]] && idx[reps[k]] == k)
    && (forall k, k' :: 0 <= k < k' < |reps| ==> reps[k] < reps[k'])
    && (forall j :: 0 <= j < i ==> rem[j])
    && (forall j :: 0 <= j < |vs| && rem[j] ==> FirstNear(unique, vs[j], idx[j]) && reps[idx[j]] <= j)
    && (forall j :: 0 <= j < |vs| && !rem[j] ==> FarFromAll(vs[j], unique))
  }

  /** The duplicate-vertex callback applied to every primitive the traversal
      hands over: a vertex not yet remapped is mapped to representative `u`. */
  method MarkDuplicates(vis: seq<nat>, u: nat, idx: array<nat>, rem: array<bool>)
    requires idx.Length == rem.Length && forall q :: q in vis ==> q < rem.Length
    modifies idx, rem
    ensures forall j :: 0 <= j < rem.Length ==> rem[j] == (old(rem[j]) || j in vis)
    ensures forall j :: 0 <= j < idx.Length ==> idx[j] == if !old(rem[j]) && j in vis then u else old(idx[j])
  {
    for t := 0 to |vis|
      invariant forall j :: 0 <= j < rem.Length ==> rem[j] == (old(rem[j]) || j in vis[..t])
      invariant forall j :: 0 <= j < idx.Length ==> idx[j] == if !old(rem[j]) && j in vis[..t] then u else old(idx[j])
    {
      assert vis[..t + 1] == vis[..t] + [vis[t]];
      var q := vis[t];
      assert q in vis;
      if !rem[q] {
        idx[q] := u;
        rem[q] := true;
      }
    }
    assert vis[..|vis|] == vis;
  }

  lemma WeldStart(vs: seq<Vec3>, idx: seq<nat>, rem: seq<bool>)
    requires |idx| == |vs| && |rem| == |vs| && forall j :: 0 <= j < |rem| ==> !rem[j]
    ensures WeldInv(vs, idx, rem, [], [], 0)
  {
  }

  lemma WeldSkip(vs: seq<Vec3>, idx: seq<nat>, rem: seq<bool>, unique: seq<Vec3>, reps: seq<nat>, i: nat)
    requires WeldInv(vs, idx, rem, unique, reps, i) && i < |vs| && rem[i]
    ensures WeldInv(vs, idx, rem, unique, reps, i + 1)
  {
  }

  /** One representative's round: after the callback has run on exactly the
      vertices within range of `vs[i]`, the state is that of position `i + 1`
      with `vs[i]` as the newest representative. */
  lemma WeldRound(vs: seq<Vec3>, idx: seq<nat>, rem: seq<bool>, unique: seq<Vec3>, reps: seq<nat>, i: nat,
                  vis: seq<nat>, idx': seq<nat>, rem': seq<bool>)
    requires WeldInv(vs, idx, rem, unique, reps, i) && i < |vs| && !rem[i]
    requires forall q :: q in vis ==> q < |vs| && Near(vs[i], vs[q])
    requires forall q :: 0 <= q < |vs| && Near(vs[i], vs[q]) ==> q in vis
    requires |rem'| == |vs| && forall j :: 0 <= j < |vs| ==> rem'[j] == (rem[j] || j in vis)
    requires |idx'| == |vs| && forall j :: 0 <= j < |vs| ==> idx'[j] == if !rem[j] && j in vis then |unique| else idx[j]
    ensures WeldInv(vs, idx', rem', unique + [vs[i]], reps + [i], i + 1)
  {
    RoundReps(vs, idx, rem, unique, reps, i, vis, idx', rem');
    RoundRemapped(vs, idx, rem, unique, reps, i, vis, idx', rem');
    RoundOthers(vs, idx, rem, unique, reps, i, vis, rem');
  }

  lemma RoundReps(vs: seq<Vec3>, idx: seq<nat>, rem: seq<bool>, unique: seq<Vec3>, reps: seq<nat>, i: nat,
                  vis: seq<nat>, idx': seq<nat>, rem': seq<bool>)
    requires WeldInv(vs, idx, rem, unique, reps, i) && i < |vs| && !rem[i] && i in vis
    requires |rem'| == |vs| && forall j :: 0 <= j < |vs| ==> rem'[j] == (rem[j] || j in vis)
    requires |idx'| == |vs| && forall j :: 0 <= j < |vs| ==> idx'[j] == if !rem[j] && j in vis then |unique| else idx[j]
    ensures var reps', unique' := reps + [i], unique + [vs[i]];
      && (forall k :: 0 <= k < |reps'| ==> k <= reps'[k] < i + 1 && unique'[k] == vs[reps'[k]] && rem'[reps'[k]] && idx'[reps'[k]] == k)
      && (forall k, k' :: 0 <= k < k' < |reps'| ==> reps'[k] < reps'[k'])
      && (forall j :: 0 <= j < i + 1 ==> rem'[j])
  {
    var u, unique', reps' := |unique|, unique + [vs[i]], reps + [i];
    if u > 0 {
      assert u - 1 <= reps[u - 1] < i;
    }
    forall k | 0 <= k < |reps'|
      ensures k <= reps'[k] < i + 1 && unique'[k] == vs[reps'[k]] && rem'[reps'[k]] && idx'[reps'[k]] == k
    {
      if k < u {
        assert rem[reps[k]];
      }
    }
  }

  lemma RoundRemapped(vs: seq<Vec3>, idx: seq<nat>, rem: seq<bool>, unique: seq<Vec3>, reps: seq<nat>, i: nat,
                      vis: seq<nat>, idx': seq<nat>, rem': seq<bool>)
    requires WeldInv(vs, idx, rem, unique, reps, i) && i < |vs|
    requires forall q :: q in vis ==> q < |vs| && Near(vs[i], vs[q])
    requires |rem'| == |vs| && forall j :: 0 <= j < |vs| ==> rem'[j] == (rem[j] || j in vis)
    requires |idx'| == |vs| && forall j :: 0 <= j < |vs| ==> idx'[j] == if !rem[j] && j in vis then |unique| else idx[j]
    ensures forall j :: 0 <= j < |vs| && rem'[j] ==>
      FirstNear(unique + [vs[i]], vs[j], idx'[j]) && (reps + [i])[idx'[j]] <= j
  {
    var unique', reps' := unique + [vs[i]], reps + [i];
    forall j | 0 <= j < |vs| && rem'[j]
      ensures FirstNear(unique', vs[j], idx'[j]) && reps'[idx'[j]] <= j
    {
      if rem[j] {
        assert FirstNear(unique, vs[j], idx[j]);
      } else {
        assert FarFromAll(vs[j], unique);
        assert j >= i;
      }
    }
  }

  lemma RoundOthers(vs: seq<Vec3>, idx: seq<nat>, rem: seq<bool>, unique: seq<Vec3>, reps: seq<nat>, i: nat,
                    vis: seq<nat>, rem': seq<bool>)
    requires WeldInv(vs, idx, rem, unique, reps, i) && i < |vs|
    requires forall q :: 0 <= q < |vs| && Near(vs[i], vs[q]) ==> q in vis
    requires |rem'| == |vs| && forall j :: 0 <= j < |vs| ==> rem'[j] == (rem[j] || j in vis)
    ensures forall j :: 0 <= j < |vs| && !rem'[j] ==> FarFromAll(vs[j], unique + [vs[i]])
  {
    forall j | 0 <= j < |vs| && !rem'[j]
      ensures FarFromAll(vs[j], unique + [vs[i]])
    {
      assert !Near(vs[i], vs[j]);
    }
  }

  lemma WeldDone(vs: seq<Vec3>, idx: seq<nat>, rem: seq<bool>, unique: seq<Vec3>, reps: seq<nat>)
    requires WeldInv(vs, idx, rem, unique, reps, |vs|)
    ensures WeldSpec(vs, idx, unique, reps)
  {
    if |reps| > 0 {
      assert |reps| - 1 <= reps[|reps| - 1] < |vs|;
    }
  }

  /** The traversal of one round finds exactly the vertices within range of
      the centre. */
  lemma NeighbourQuery(bvh: Bvh, vs: seq<Vec3>, center: Vec3, af: Aabb -> bool, pf: nat -> bool)
    requires bvh.Valid() && bvh.Bounds(vs)
    requires forall b :: af(b) == SphereAabbIntersection(center, Range, b)
    requires forall q: nat :: pf(q) == (q < |vs| && Near(center, vs[q]))
    ensures forall q :: q in bvh.ForeachPrimitive(af, pf) ==> q < |vs| && Near(center, vs[q])
    ensures forall q :: 0 <= q < |vs| && Near(center, vs[q]) ==> q in bvh.ForeachPrimitive(af, pf)
  {
    forall q | 0 <= q < |vs| && Near(center, vs[q])
      ensures q in bvh.ForeachPrimitive(af, pf)
    {
      forall b | Contains(b, vs[q])
        ensures af(b)
      {
        SphereReachesPoint(center, Range, b, vs[q]);
      }
      bvh.ForeachComplete(vs, af, pf, q);
    }
  }

  /** One round of the loop for a vertex `i` not yet remapped: the traversal
      with the sphere and distance filters, whose callback remaps to
      representative `u` every vertex it is handed that is not yet remapped. */
  method WeldRoundAt(bvh: Bvh, vs: seq<Vec3>, i: nat, u: nat, idx: array<nat>, rem: array<bool>)
    returns (ghost vis: seq<nat>)
    requires bvh.Valid() && bvh.Bounds(vs) && i < |vs|
    requires idx.Length == |vs| && rem.Length == |vs|
    modifies idx, rem
    ensures forall q :: q in vis ==> q < |vs| && Near(vs[i], vs[q])
    ensures forall q :: 0 <= q < |vs| && Near(vs[i], vs[q]) ==> q in vis
    ensures forall j :: 0 <= j < |vs| ==> rem[j] == (old(rem[j]) || j in vis)
    ensures forall j :: 0 <= j < |vs| ==> idx[j] == if !old(rem[j]) && j in vis then u else old(idx[j])
  {
    var center := vs[i];
    var af := (b: Aabb) => SphereAabbIntersection(center, Range, b);
    var pf := (q: nat) => q < |vs| && Dist2(center, vs[q]) <= Range * Range;
    var found := bvh.ForeachPrimitive(af, pf);
    NeighbourQuery(bvh, vs, center, af, pf);
    MarkDuplicates(found, u, idx, rem);
    vis := found;
  }

  /** One iteration of the weld loop: a vertex already remapped is skipped,
      any other becomes the next representative and remaps its neighbours. */
  method WeldVertex(bvh: Bvh, vs: seq<Vec3>, i: nat, idx: array<nat>, rem: array<bool>,
                    unique: seq<Vec3>, ghost reps: seq<nat>)
    returns (unique': seq<Vec3>, ghost reps': seq<nat>)
    requires bvh.Valid() && bvh.Bounds(vs) && i < |vs|
    requires idx.Length == |vs| && rem.Length == |vs|
    requires WeldInv(vs, idx[..], rem[..], unique, reps, i)
    modifies idx, rem
    ensures WeldInv(vs, idx[..], rem[..], unique', reps', i + 1)
    ensures old(rem[i]) ==> unique' == unique && reps' == reps
    ensures !old(rem[i]) ==> unique' == unique + [vs[i]] && reps' == reps + [i]
  {
    if rem[i] {
      WeldSkip(vs, idx[..], rem[..], unique, reps, i);
      unique', reps' := unique, reps;
    } else {
      ghost var idx0, rem0 := idx[..], rem[..];
      ghost var vis := WeldRoundAt(bvh, vs, i, |unique|, idx, rem);
      WeldRound(vs, idx0, rem0, unique, reps, i, vis, idx[..], rem[..]);
      unique' := unique + [vs[i]];
      reps' := reps + [i];
    }
  }

  /** The loop over the vertices, in input order. */
  method WeldLoop(bvh: Bvh, vs: seq<Vec3>, idx: array<nat>, rem: array<bool>)
    returns (indices: seq<nat>, unique: seq<Vec3>, ghost reps: seq<nat>)
    requires bvh.Valid() && bvh.Bounds(vs) && idx != bvh.indices
    requires idx.Length == |vs| && rem.Length == |vs|
    requires forall j :: 0 <= j < rem.Length ==> !rem[j]
    modifies idx, rem
    ensures WeldSpec(vs, indices, unique, reps) && indices == idx[..]
    ensures forall j :: 0 <= j < rem.Length ==> rem[j]
  {
    WeldStart(vs, idx[..], rem[..]);
    unique, reps := [], [];
    for i := 0 to |vs|
      invariant WeldInv(vs, idx[..], rem[..], unique, reps, i)
    {
      unique, reps := WeldVertex(bvh, vs, i, idx, rem, unique, reps);
    }
    indices := idx[..];
    WeldDone(vs, indices, rem[..], unique, reps);
  }

  /** The weld loop of both mesh constructors: a BVH over the vertices, then for
      every vertex not yet remapped a traversal with the sphere of radius `Range`
      around it as box filter and the distance test as primitive filter, whose
      callback remaps every vertex it is handed that is not yet remapped. */
  method Weld(vs: seq<Vec3>) returns (indices: seq<nat>, unique: seq<Vec3>, ghost reps: seq<nat>)
    ensures WeldSpec(vs, indices, unique, reps)
    ensures unique == Welded(vs) && indices == WeldIndices(vs)
  {
    var n := |vs|;
    var idx := new nat[n](_ => 0);
    var rem := new bool[n](_ => false);
    var bvh := new Bvh(vs);
    assert bvh.CountPrimitives() == n;
    indices, unique, reps := WeldLoop(bvh, vs, idx, rem);
    WeldDetermined(vs, indices, unique, reps);
  }
}
