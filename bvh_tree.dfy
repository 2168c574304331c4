/** The node arena of the bounding-volume hierarchy of src/bvh.hpp seen as a value:
    the allocated nodes in arena order and the primitive index array they point
    into. A child pointer is an arena slot, and a null pointer is `None`. The
    traversal entry points whose bodies are not part of this model
    (`foreach_primitive`, `count_primitives`) are specified here as functions over
    the tree. */
module BvhTree {
  import opened Wrappers
  import opened Geometry

  /** `BVH::Node`: a box, the inclusive range `[first, last]` of the index array,
      and the arena slots of the two children. */
  datatype Node = Node(box: Aabb, first: nat, last: nat, left: Option<nat>, right: Option<nat>) {

    /** `Node::is_leaf()`: both child pointers are null. */
    predicate IsLeaf() {
      left.None? && right.None?
    }

    /** `Node::num_primitives()`, defined only for `last >= first`. */
    function NumPrimitives(): (n: nat)
      requires first <= last
      ensures n >= 1 && first + n == last + 1
    {
      last - first + 1
    }
  }

  /** The value-initialised box a freshly allocated node carries. */
  const Unset := Aabb(Zero, Zero)

  /** `0, 1, ..., n - 1`: the index array before any partitioning. */
  function Identity(n: nat): (s: seq<nat>)
    ensures |s| == n && forall i :: 0 <= i < n ==> s[i] == i
  {
    if n == 0 then [] else Identity(n - 1) + [n - 1]
  }

  lemma {:induction false} IdentityCounts(n: nat, k: nat)
    ensures multiset(Identity(n))[k] == if k < n then 1 else 0
  {
    if n > 0 {
      var m: nat := n - 1;
      IdentityCounts(m, k);
      SnocCount(Identity(m), m, k);
    }
  }

  lemma SnocCount(s: seq<nat>, x: nat, k: nat)
    ensures multiset(s + [x])[k] == multiset(s)[k] + if k == x then 1 else 0
  {
    assert multiset(s + [x]) == multiset(s) + multiset{x};
  }

  /** `ids` holds every primitive index below `n` exactly once. */
  predicate IsPermutation(ids: seq<nat>, n: nat) {
    multiset(ids) == multiset(Identity(n))
  }

  lemma PermutationBounds(ids: seq<nat>, n: nat)
    requires IsPermutation(ids, n)
    ensures |ids| == n && forall j :: 0 <= j < |ids| ==> ids[j] < n
  {
    assert |ids| == |multiset(ids)| == |multiset(Identity(n))| == n;
    forall j | 0 <= j < |ids| ensures ids[j] < n {
      assert ids[j] in multiset(ids);
      assert ids[j] in Identity(n);
    }
  }

  /** Range `a` lies within range `b`. */
  predicate Inside(a: Node, b: Node) {
    b.first <= a.first && a.last <= b.last
  }

  /** Ranges `a` and `b` share no position. */
  predicate Apart(a: Node, b: Node) {
    a.last < b.first || b.last < a.first
  }

  /** Every node holds a non-empty range of the `n` primitives. */
  predicate RangesIn(ns: seq<Node>, n: nat) {
    forall k :: 0 <= k < |ns| ==> ns[k].first <= ns[k].last < n
  }

  /** Node `k` has no child or two children in later slots, side by side in the
      arena, that split its range into a left and a right part. */
  predicate ChildrenOk(ns: seq<Node>, k: nat)
    requires k < |ns|
  {
    var nd := ns[k];
    && (nd.left.None? <==> nd.right.None?)
    && (nd.left.Some? ==>
          && k < nd.left.value
          && nd.right.value == nd.left.value + 1
          && nd.right.value < |ns|
          && ns[nd.left.value].first == nd.first
          && ns[nd.left.value].last + 1 == ns[nd.right.value].first
          && ns[nd.right.value].last == nd.last)
  }

  predicate Linked(ns: seq<Node>) {
    forall k :: 0 <= k < |ns| ==> ChildrenOk(ns, k)
  }

  /** The slots reached from slot `k` by following child pointers, with their
      multiplicities. */
  function Reach(ns: seq<Node>, k: nat): multiset<nat>
    requires Linked(ns) && k < |ns|
    decreases |ns| - k
  {
    assert ChildrenOk(ns, k);
    multiset{k} +
      if ns[k].left.Some? then Reach(ns, ns[k].left.value) + Reach(ns, ns[k].right.value)
      else multiset{}
  }

  /** Every slot named by `s` is below `n`. */
  predicate Below(s: seq<nat>, n: nat) {
    forall i :: 0 <= i < |s| ==> s[i] < n
  }

  lemma BelowPop(s: seq<nat>, n: nat)
    requires Below(s, n) && |s| > 0
    ensures Below(s[..|s| - 1], n) && s[|s| - 1] < n
  {
  }

  lemma BelowPush(s: seq<nat>, c: nat, n: nat)
    requires Below(s, n) && c < n
    ensures Below(s + [c], n)
  {
  }

  /** The slots reached from every slot of a stack. */
  function ReachAll(ns: seq<Node>, stack: seq<nat>): multiset<nat>
    requires Linked(ns) && Below(stack, |ns|)
  {
    if stack == [] then multiset{}
    else ReachAll(ns, stack[..|stack| - 1]) + Reach(ns, stack[|stack| - 1])
  }

  /** The arena is one tree: slot 0 covers all `n` primitives, and every allocated
      slot is reached from it exactly once. */
  predicate IsTree(ns: seq<Node>, n: nat) {
    && RangesIn(ns, n)
    && Linked(ns)
    && (|ns| > 0 ==>
          && ns[0].first == 0 && ns[0].last + 1 == n
          && Reach(ns, 0) == multiset(Identity(|ns|)))
  }

  /** `ns'` differs from `ns` at most in the boxes of its nodes. */
  predicate SameShape(ns: seq<Node>, ns': seq<Node>) {
    && |ns'| == |ns|
    && forall x :: 0 <= x < |ns| ==>
         ns'[x].first == ns[x].first && ns'[x].last == ns[x].last
         && ns'[x].left == ns[x].left && ns'[x].right == ns[x].right
  }

  lemma {:induction false} SameShapeReach(ns: seq<Node>, ns': seq<Node>, x: nat)
    requires Linked(ns) && SameShape(ns, ns') && x < |ns|
    ensures Linked(ns') && Reach(ns', x) == Reach(ns, x)
    decreases |ns| - x
  {
    forall q | 0 <= q < |ns'| ensures ChildrenOk(ns', q) {
      assert ChildrenOk(ns, q);
    }
    ReachUnfold(ns, x);
    ReachUnfold(ns', x);
    if ns[x].left.Some? {
      SameShapeReach(ns, ns', ns[x].left.value);
      SameShapeReach(ns, ns', ns[x].right.value);
    }
  }

  /** Writing boxes keeps the arena a tree. */
  lemma SameShapeTree(ns: seq<Node>, ns': seq<Node>, n: nat)
    requires IsTree(ns, n) && SameShape(ns, ns')
    ensures IsTree(ns', n)
  {
    if |ns| > 0 {
      SameShapeReach(ns, ns', 0);
    }
  }

  /** Every node is a leaf or has two children. */
  lemma LeafOrTwoChildren(ns: seq<Node>, k: nat)
    requires Linked(ns) && k < |ns|
    ensures ns[k].IsLeaf() <==> ns[k].left.None?
    ensures !ns[k].IsLeaf() ==> ns[k].left.Some? && ns[k].right.Some?
  {
    assert ChildrenOk(ns, k);
  }

  /** The two children of an inner node are non-empty, apart, strictly smaller
      than their parent, and together cover it. */
  lemma ChildrenPartitionParent(ns: seq<Node>, n: nat, k: nat)
    requires RangesIn(ns, n) && k < |ns| && ChildrenOk(ns, k) && !ns[k].IsLeaf()
    ensures var l, r := ns[ns[k].left.value], ns[ns[k].right.value];
      && Inside(l, ns[k]) && Inside(r, ns[k]) && Apart(l, r)
      && l.NumPrimitives() + r.NumPrimitives() == ns[k].NumPrimitives()
      && l.NumPrimitives() < ns[k].NumPrimitives() && r.NumPrimitives() < ns[k].NumPrimitives()
  {
  }

  /** Turning leaf `k` into an inner node with two fresh leaves holding
      `[first, p - 1]` and `[p, last]`: the step the builder takes for each split. */
  function Split(ns: seq<Node>, k: nat, p: nat): (ns': seq<Node>)
    requires k < |ns| && 0 < p
    ensures |ns'| == |ns| + 2
  {
    var nd := ns[k];
    ns[k := nd.(left := Some(|ns|), right := Some(|ns| + 1))]
      + [Node(Unset, nd.first, p - 1, None, None), Node(Unset, p, nd.last, None, None)]
  }

  lemma SplitLinked(ns: seq<Node>, n: nat, k: nat, p: nat)
    requires RangesIn(ns, n) && Linked(ns) && k < |ns| && ns[k].IsLeaf()
    requires ns[k].first < p <= ns[k].last
    ensures RangesIn(Split(ns, k, p), n) && Linked(Split(ns, k, p))
  {
    var ns' := Split(ns, k, p);
    forall q | 0 <= q < |ns'| ensures ChildrenOk(ns', q) {
      if q < |ns| {
        assert ChildrenOk(ns, q);
      }
    }
  }

  /** One unfolding of `Reach`. */
  lemma ReachUnfold(ns: seq<Node>, x: nat)
    requires Linked(ns) && x < |ns|
    ensures ChildrenOk(ns, x)
    ensures Reach(ns, x) == multiset{x} +
      if ns[x].left.Some? then Reach(ns, ns[x].left.value) + Reach(ns, ns[x].right.value)
      else multiset{}
  {
    assert ChildrenOk(ns, x);
  }

  /** What `Split` leaves in place and what it adds. */
  lemma SplitAt(ns: seq<Node>, k: nat, p: nat, x: nat)
    requires k < |ns| && 0 < p && x < |ns| + 2
    ensures x < |ns| && x != k ==> Split(ns, k, p)[x] == ns[x]
    ensures x < |ns| ==> Split(ns, k, p)[x].first == ns[x].first && Split(ns, k, p)[x].last == ns[x].last
    ensures x == k ==> Split(ns, k, p)[x] == ns[k].(left := Some(|ns|), right := Some(|ns| + 1))
    ensures x >= |ns| ==> Split(ns, k, p)[x].IsLeaf()
  {
  }

  /** `Split` grows leaf `k`. */
  lemma SplitGrown(ns: seq<Node>, k: nat, p: nat)
    requires k < |ns| && 0 < p
    ensures Grown(ns, Split(ns, k, p), k)
  {
  }

  /** `ns'` is `ns` with leaf `k` pointing at two new leaves appended after it,
      every other slot unchanged: what `Split` produces, without its ranges. */
  predicate Grown(ns: seq<Node>, ns': seq<Node>, k: nat) {
    && k < |ns| && |ns'| == |ns| + 2
    && (forall x :: 0 <= x < |ns| && x != k ==> ns'[x] == ns[x])
    && ns'[k].left == Some(|ns|) && ns'[k].right == Some(|ns| + 1)
    && ns'[|ns|].IsLeaf() && ns'[|ns| + 1].IsLeaf()
  }

  /** Growing leaf `k` adds the two new slots once for every time `k` is reached. */
  lemma {:induction false} ReachSplit(ns: seq<Node>, ns': seq<Node>, k: nat, x: nat)
    requires Linked(ns) && Linked(ns') && Grown(ns, ns', k) && ns[k].IsLeaf()
    requires x < |ns| && Reach(ns, x)[k] <= 1
    ensures Reach(ns', x) ==
      if k in Reach(ns, x) then Reach(ns, x) + multiset{|ns|, |ns| + 1} else Reach(ns, x)
    decreases |ns| - x, 1
  {
    if x == k {
      ReachSplitAtLeaf(ns, ns', k);
    } else if ns[x].left.Some? {
      ReachSplitDown(ns, ns', k, x);
    } else {
      ReachSplitOther(ns, ns', k, x);
    }
  }

  /** The inductive step of `ReachSplit`, at an inner node other than `k`. */
  lemma {:induction false} ReachSplitDown(ns: seq<Node>, ns': seq<Node>, k: nat, x: nat)
    requires Linked(ns) && Linked(ns') && Grown(ns, ns', k) && ns[k].IsLeaf()
    requires x < |ns| && Reach(ns, x)[k] <= 1 && x != k && ns[x].left.Some?
    ensures Reach(ns', x) ==
      if k in Reach(ns, x) then Reach(ns, x) + multiset{|ns|, |ns| + 1} else Reach(ns, x)
    decreases |ns| - x, 0
  {
    ChildCounts(ns, x, k);
    ReachSplit(ns, ns', k, ns[x].left.value);
    ReachSplit(ns, ns', k, ns[x].right.value);
    ReachSplitInner(ns, ns', x, k, multiset{|ns|, |ns| + 1});
  }

  /** A child is reached no more often than its parent reaches anything. */
  lemma ChildCounts(ns: seq<Node>, x: nat, k: nat)
    requires Linked(ns) && x < |ns| && ns[x].left.Some?
    ensures ChildrenOk(ns, x) && x < ns[x].left.value < ns[x].right.value < |ns|
    ensures Reach(ns, ns[x].left.value)[k] <= Reach(ns, x)[k]
    ensures Reach(ns, ns[x].right.value)[k] <= Reach(ns, x)[k]
  {
    ReachUnfold(ns, x);
  }

  /** At the grown leaf itself: it now reaches the two new leaves. */
  lemma ReachSplitAtLeaf(ns: seq<Node>, ns': seq<Node>, k: nat)
    requires Linked(ns) && Linked(ns') && Grown(ns, ns', k) && ns[k].IsLeaf()
    ensures Reach(ns', k) == Reach(ns, k) + multiset{|ns|, |ns| + 1}
  {
    ReachUnfold(ns, k);
    ReachUnfold(ns', k);
    ReachUnfold(ns', |ns|);
    ReachUnfold(ns', |ns| + 1);
  }

  /** At a leaf other than the grown one nothing changes. */
  lemma ReachSplitOther(ns: seq<Node>, ns': seq<Node>, k: nat, x: nat)
    requires Linked(ns) && Linked(ns') && Grown(ns, ns', k)
    requires x < |ns| && x != k && ns[x].left.None?
    ensures Reach(ns', x) == Reach(ns, x) && k !in Reach(ns, x)
  {
    ReachUnfold(ns, x);
    ReachUnfold(ns', x);
  }

  /** At an inner node other than the grown leaf, the two children's results add
      up. */
  lemma ReachSplitInner(ns: seq<Node>, ns': seq<Node>, x: nat, k: nat, extra: multiset<nat>)
    requires Linked(ns) && Linked(ns') && x < |ns| && x < |ns'| && x != k
    requires ns[x].left.Some? && ns'[x].left == ns[x].left && ns'[x].right == ns[x].right
    requires Reach(ns, x)[k] <= 1
    requires ns[x].left.value < |ns| && ns[x].left.value < |ns'|
    requires ns[x].right.Some? && ns[x].right.value < |ns| && ns[x].right.value < |ns'|
    requires var l := ns[x].left.value;
      Reach(ns', l) == if k in Reach(ns, l) then Reach(ns, l) + extra else Reach(ns, l)
    requires var r := ns[x].right.value;
      Reach(ns', r) == if k in Reach(ns, r) then Reach(ns, r) + extra else Reach(ns, r)
    ensures Reach(ns', x) == if k in Reach(ns, x) then Reach(ns, x) + extra else Reach(ns, x)
  {
    var l, r := ns[x].left.value, ns[x].right.value;
    ReachUnfold(ns, x);
    ReachUnfold(ns', x);
    JoinSplitReach(Reach(ns, l), Reach(ns, r), Reach(ns', l), Reach(ns', r), extra, x, k);
  }

  /** The multiset step of `ReachSplitInner`. */
  lemma JoinSplitReach(a: multiset<nat>, b: multiset<nat>, a': multiset<nat>, b': multiset<nat>,
                       extra: multiset<nat>, x: nat, k: nat)
    requires x != k && (multiset{x} + (a + b))[k] <= 1
    requires a' == if k in a then a + extra else a
    requires b' == if k in b then b + extra else b
    ensures multiset{x} + (a' + b') ==
      if k in multiset{x} + (a + b) then multiset{x} + (a + b) + extra else multiset{x} + (a + b)
  {
    assert (multiset{x} + (a + b))[k] == a[k] + b[k];
  }

  /** Splitting a leaf keeps the arena one tree over the same primitives. */
  lemma SplitIsTree(ns: seq<Node>, n: nat, k: nat, p: nat)
    requires IsTree(ns, n) && k < |ns| && ns[k].IsLeaf()
    requires ns[k].first < p <= ns[k].last
    ensures IsTree(Split(ns, k, p), n)
  {
    SplitLinked(ns, n, k, p);
    var ns' := Split(ns, k, p);
    SplitGrown(ns, k, p);
    IdentityCounts(|ns|, k);
    ReachSplit(ns, ns', k, 0);
    IdentityGrow(|ns|);
    SplitAt(ns, k, p, 0);
  }

  lemma IdentityGrow(m: nat)
    ensures var m1: nat, m2: nat := m + 1, m + 2;
      multiset(Identity(m2)) == multiset(Identity(m)) + multiset{m, m1}
  {
    var m1: nat, m2: nat := m + 1, m + 2;
    assert Identity(m2) == Identity(m1) + [m1];
    assert Identity(m1) == Identity(m) + [m];
  }


  // ---------------------------------------------------------------------------
  // The traversal declared in src/bvh.hpp.

  /** Keeps the indices that pass `pf`, in order. */
  function Filter(s: seq<nat>, pf: nat -> bool): (r: seq<nat>)
    ensures forall q :: q in r ==> pf(q) && q in s
    ensures forall q :: q in s && pf(q) ==> q in r
  {
    if s == [] then []
    else
      assert s == [s[0]] + s[1..];
      (if pf(s[0]) then [s[0]] else []) + Filter(s[1..], pf)
  }

  /** The filters that accept every box and every primitive. */
  predicate AnyBox(b: Aabb) { true }

  predicate AnyPrimitive(q: nat) { true }

  /** The primitives `foreach_primitive(callback, aabb_filter, primitive_filter)`
      hands to its callback, in order, starting at slot `k`: a subtree whose box
      fails `af` is skipped, and a leaf hands over the indices of its range that
      pass `pf`. Only primitives of the subtree's range that pass `pf` are handed
      over. */
  function Visited(ns: seq<Node>, ids: seq<nat>, k: nat, af: Aabb -> bool, pf: nat -> bool): seq<nat>
    requires RangesIn(ns, |ids|) && Linked(ns) && k < |ns|
    decreases |ns| - k
  {
    assert ChildrenOk(ns, k);
    var nd := ns[k];
    if !af(nd.box) then []
    else if nd.left.None? then Filter(ids[nd.first..nd.last + 1], pf)
    else Visited(ns, ids, nd.left.value, af, pf) + Visited(ns, ids, nd.right.value, af, pf)
  }

  lemma SliceSplit(s: seq<nat>, a: nat, b: nat, c: nat)
    requires a <= b <= c <= |s|
    ensures s[a..c] == s[a..b] + s[b..c]
  {
    assert s[a..c] == s[a..b] + s[b..c];
  }

  lemma JoinSlices(s: seq<nat>, a: nat, b: nat, c: nat, v: seq<nat>, vl: seq<nat>, vr: seq<nat>)
    requires a <= b <= c <= |s|
    requires vl == s[a..b] && vr == s[b..c] && v == vl + vr
    ensures v == s[a..c]
  {
    SliceSplit(s, a, b, c);
  }

  /** Everything in `v` passes `pf` and occurs in `s`. */
  predicate Sound(v: seq<nat>, s: seq<nat>, pf: nat -> bool) {
    forall q :: q in v ==> pf(q) && q in s
  }

  /** What reaches the callback from an inner node reaches it from one of the
      children, whose ranges make up the node's range. */
  lemma SoundJoin(s: seq<nat>, a: nat, b: nat, c: nat, v: seq<nat>, vl: seq<nat>, vr: seq<nat>, pf: nat -> bool)
    requires a <= b <= c <= |s|
    requires v == vl + vr || v == []
    requires Sound(vl, s[a..b], pf) && Sound(vr, s[b..c], pf)
    ensures Sound(v, s[a..c], pf)
  {
    SliceSplit(s, a, b, c);
  }

  /** The box of `nd` holds the points of its range. */
  predicate BoxContains(nd: Node, ids: seq<nat>, points: seq<Vec3>) {
    forall j :: nd.first <= j <= nd.last && j < |ids| && ids[j] < |points| ==> Contains(nd.box, points[ids[j]])
  }

  /** Every node's box holds the points of its range. */
  predicate BoxesContain(ns: seq<Node>, ids: seq<nat>, points: seq<Vec3>) {
    forall k :: 0 <= k < |ns| ==> BoxContains(ns[k], ids, points)
  }

  lemma InSlice(s: seq<nat>, a: nat, b: nat, j: nat)
    requires a <= j < b <= |s|
    ensures s[j] in s[a..b]
  {
    assert s[j] == s[a..b][j - a];
  }

  /** Completeness of the traversal: a primitive that passes `pf`, whose point
      passes `af` in every box holding it, is handed to the callback. This is what
      lets the vertex weld find every vertex within range. */
  lemma {:induction false} VisitedComplete(ns: seq<Node>, ids: seq<nat>, points: seq<Vec3>, k: nat,
                                           af: Aabb -> bool, pf: nat -> bool, j: nat)
    requires RangesIn(ns, |ids|) && Linked(ns) && k < |ns| && BoxesContain(ns, ids, points)
    requires ns[k].first <= j <= ns[k].last && ids[j] < |points|
    requires pf(ids[j])
    requires forall b :: Contains(b, points[ids[j]]) ==> af(b)
    ensures ids[j] in Visited(ns, ids, k, af, pf)
    decreases |ns| - k, 1
  {
    assert BoxContains(ns[k], ids, points);
    assert Contains(ns[k].box, points[ids[j]]);
    if ns[k].left.None? {
      VisitedCompleteLeaf(ns, ids, k, af, pf, j);
    } else {
      VisitedCompleteDown(ns, ids, points, k, af, pf, j);
    }
  }

  lemma VisitedCompleteLeaf(ns: seq<Node>, ids: seq<nat>, k: nat, af: Aabb -> bool, pf: nat -> bool, j: nat)
    requires RangesIn(ns, |ids|) && Linked(ns) && k < |ns| && ns[k].left.None?
    requires ns[k].first <= j <= ns[k].last && pf(ids[j]) && af(ns[k].box)
    ensures ids[j] in Visited(ns, ids, k, af, pf)
  {
    VisitedLeaf(ns, ids, k, af, pf);
    InSlice(ids, ns[k].first, ns[k].last + 1, j);
  }

  lemma {:induction false} VisitedCompleteDown(ns: seq<Node>, ids: seq<nat>, points: seq<Vec3>, k: nat,
                                               af: Aabb -> bool, pf: nat -> bool, j: nat)
    requires RangesIn(ns, |ids|) && Linked(ns) && k < |ns| && BoxesContain(ns, ids, points)
    requires ns[k].first <= j <= ns[k].last && ids[j] < |points|
    requires pf(ids[j]) && af(ns[k].box) && ns[k].left.Some?
    requires forall b :: Contains(b, points[ids[j]]) ==> af(b)
    ensures ids[j] in Visited(ns, ids, k, af, pf)
    decreases |ns| - k, 0
  {
    VisitedInner(ns, ids, k, af, pf);
    var l, r := ns[k].left.value, ns[k].right.value;
    if j <= ns[l].last {
      VisitedComplete(ns, ids, points, l, af, pf, j);
    } else {
      VisitedComplete(ns, ids, points, r, af, pf, j);
    }
  }

  lemma {:induction false} FilterAll(s: seq<nat>, pf: nat -> bool)
    requires forall q :: pf(q)
    ensures Filter(s, pf) == s
  {
    if s != [] {
      FilterAll(s[1..], pf);
    }
  }

  /** One unfolding of the traversal at a leaf and at an inner node. */
  lemma VisitedLeaf(ns: seq<Node>, ids: seq<nat>, k: nat, af: Aabb -> bool, pf: nat -> bool)
    requires RangesIn(ns, |ids|) && Linked(ns) && k < |ns| && ns[k].left.None?
    ensures Visited(ns, ids, k, af, pf)
         == if af(ns[k].box) then Filter(ids[ns[k].first..ns[k].last + 1], pf) else []
  {
  }

  lemma VisitedInner(ns: seq<Node>, ids: seq<nat>, k: nat, af: Aabb -> bool, pf: nat -> bool)
    requires RangesIn(ns, |ids|) && Linked(ns) && k < |ns| && ns[k].left.Some?
    ensures ChildrenOk(ns, k)
    ensures Visited(ns, ids, k, af, pf)
         == if af(ns[k].box)
            then Visited(ns, ids, ns[k].left.value, af, pf) + Visited(ns, ids, ns[k].right.value, af, pf)
            else []
  {
    assert ChildrenOk(ns, k);
  }

  /** Soundness of the traversal: whatever reaches the callback passes `pf` and
      is a primitive of the subtree's range. */
  lemma {:induction false} VisitedSound(ns: seq<Node>, ids: seq<nat>, k: nat, af: Aabb -> bool, pf: nat -> bool)
    requires RangesIn(ns, |ids|) && Linked(ns) && k < |ns|
    ensures Sound(Visited(ns, ids, k, af, pf), ids[ns[k].first..ns[k].last + 1], pf)
    decreases |ns| - k, 1
  {
    if ns[k].left.None? {
      VisitedLeaf(ns, ids, k, af, pf);
    } else {
      VisitedSoundDown(ns, ids, k, af, pf);
    }
  }

  lemma {:induction false} VisitedSoundDown(ns: seq<Node>, ids: seq<nat>, k: nat, af: Aabb -> bool, pf: nat -> bool)
    requires RangesIn(ns, |ids|) && Linked(ns) && k < |ns| && ns[k].left.Some?
    ensures Sound(Visited(ns, ids, k, af, pf), ids[ns[k].first..ns[k].last + 1], pf)
    decreases |ns| - k, 0
  {
    VisitedInner(ns, ids, k, af, pf);
    var l, r := ns[k].left.value, ns[k].right.value;
    var vl, vr := Visited(ns, ids, l, af, pf), Visited(ns, ids, r, af, pf);
    VisitedSound(ns, ids, l, af, pf);
    VisitedSound(ns, ids, r, af, pf);
    SoundJoin(ids, ns[k].first, ns[r].first, ns[k].last + 1, Visited(ns, ids, k, af, pf), vl, vr, pf);
  }

  /** With filters that accept everything, the traversal hands over exactly the
      index range of the subtree, in index-array order. */
  lemma {:induction false} VisitedAll(ns: seq<Node>, ids: seq<nat>, k: nat, af: Aabb -> bool, pf: nat -> bool)
    requires RangesIn(ns, |ids|) && Linked(ns) && k < |ns|
    requires forall b :: af(b)
    requires forall q :: pf(q)
    ensures Visited(ns, ids, k, af, pf) == ids[ns[k].first..ns[k].last + 1]
    decreases |ns| - k, 1
  {
    assert af(ns[k].box);
    if ns[k].left.None? {
      FilterAll(ids[ns[k].first..ns[k].last + 1], pf);
      VisitedLeaf(ns, ids, k, af, pf);
    } else {
      VisitedAllDown(ns, ids, k, af, pf);
    }
  }

  lemma {:induction false} VisitedAllDown(ns: seq<Node>, ids: seq<nat>, k: nat, af: Aabb -> bool, pf: nat -> bool)
    requires RangesIn(ns, |ids|) && Linked(ns) && k < |ns| && ns[k].left.Some?
    requires forall b :: af(b)
    requires forall q :: pf(q)
    ensures Visited(ns, ids, k, af, pf) == ids[ns[k].first..ns[k].last + 1]
    decreases |ns| - k, 0
  {
    assert af(ns[k].box);
    VisitedInner(ns, ids, k, af, pf);
    var l, r := ns[k].left.value, ns[k].right.value;
    var vl, vr := Visited(ns, ids, l, af, pf), Visited(ns, ids, r, af, pf);
    VisitedAll(ns, ids, l, af, pf);
    VisitedAll(ns, ids, r, af, pf);
    JoinSlices(ids, ns[k].first, ns[r].first, ns[k].last + 1, Visited(ns, ids, k, af, pf), vl, vr);
  }
}
