/** The bounding-volume hierarchy builder of src/bvh.cpp: a node arena of `2N - 1`
    slots filled by a bump pointer, an index array that starts as the identity and
    is only reordered in place by a partition step, and an explicit stack of nodes
    still to process. Each popped node gets the min/max box of its points and is
    either left as a leaf or split in two on the axis of greatest variance. */
module Bvh {
  import opened Wrappers
  import opened Geometry
  import opened BvhTree

  /** Componentwise product and quotient, as `glm::vec3` arithmetic does them. */
  function Mul(a: Vec3, b: Vec3): Vec3 { Vec3(a.x * b.x, a.y * b.y, a.z * b.z) }

  function Div(a: Vec3, s: real): Vec3
    requires s != 0.0
  {
    Vec3(a.x / s, a.y / s, a.z / s)
  }

  lemma MinMaxGet(a: Vec3, b: Vec3, i: nat)
    requires i < 3
    ensures Min(a, b).Get(i) == RMin(a.Get(i), b.Get(i))
    ensures Max(a, b).Get(i) == RMax(a.Get(i), b.Get(i))
  {
  }

  // ---------------------------------------------------------------------------
  // calc_aabb_indirect

  /** Positions `[first, last]` of `ids` exist and name points. */
  predicate Indexes(points: seq<Vec3>, ids: seq<nat>, first: nat, last: nat) {
    first <= last < |ids| && forall j :: first <= j <= last ==> ids[j] < |points|
  }

  /** Componentwise minimum and maximum of the points named by `ids[first..last]`. */
  function RangeMin(points: seq<Vec3>, ids: seq<nat>, first: nat, last: nat): Vec3
    requires Indexes(points, ids, first, last)
    decreases last - first
  {
    if last == first then points[ids[first]]
    else Min(RangeMin(points, ids, first, last - 1), points[ids[last]])
  }

  function RangeMax(points: seq<Vec3>, ids: seq<nat>, first: nat, last: nat): Vec3
    requires Indexes(points, ids, first, last)
    decreases last - first
  {
    if last == first then points[ids[first]]
    else Max(RangeMax(points, ids, first, last - 1), points[ids[last]])
  }

  function RangeBox(points: seq<Vec3>, ids: seq<nat>, first: nat, last: nat): Aabb
    requires Indexes(points, ids, first, last)
  {
    Aabb(RangeMin(points, ids, first, last), RangeMax(points, ids, first, last))
  }

  /** The box holds every point of the range ... */
  lemma {:induction false} RangeBoxContains(points: seq<Vec3>, ids: seq<nat>, first: nat, last: nat, j: nat)
    requires Indexes(points, ids, first, last) && first <= j <= last
    ensures Contains(RangeBox(points, ids, first, last), points[ids[j]])
    decreases last - first
  {
    if j < last {
      RangeBoxContains(points, ids, first, last - 1, j);
    }
  }

  /** ... and is the smallest such box: on every axis both faces touch a point. */
  lemma {:induction false} RangeBoxTight(points: seq<Vec3>, ids: seq<nat>, first: nat, last: nat, i: nat)
    requires Indexes(points, ids, first, last) && i < 3
    ensures exists j :: first <= j <= last && RangeMin(points, ids, first, last).Get(i) == points[ids[j]].Get(i)
    ensures exists j :: first <= j <= last && RangeMax(points, ids, first, last).Get(i) == points[ids[j]].Get(i)
    decreases last - first
  {
    if last == first {
      assert RangeMin(points, ids, first, last).Get(i) == points[ids[first]].Get(i);
      assert RangeMax(points, ids, first, last).Get(i) == points[ids[first]].Get(i);
    } else {
      RangeBoxTight(points, ids, first, last - 1, i);
      var lo, hi := RangeMin(points, ids, first, last - 1), RangeMax(points, ids, first, last - 1);
      var p := points[ids[last]];
      MinMaxGet(lo, p, i);
      MinMaxGet(hi, p, i);
      var j0 :| first <= j0 <= last - 1 && lo.Get(i) == points[ids[j0]].Get(i);
      var j1 :| first <= j1 <= last - 1 && hi.Get(i) == points[ids[j1]].Get(i);
      if lo.Get(i) <= p.Get(i) {
        assert RangeMin(points, ids, first, last).Get(i) == points[ids[j0]].Get(i);
      } else {
        assert RangeMin(points, ids, first, last).Get(i) == points[ids[last]].Get(i);
      }
      if hi.Get(i) >= p.Get(i) {
        assert RangeMax(points, ids, first, last).Get(i) == points[ids[j1]].Get(i);
      } else {
        assert RangeMax(points, ids, first, last).Get(i) == points[ids[last]].Get(i);
      }
    }
  }

  /** `calc_aabb_indirect(points, first, last)`: one pass for the minimum, one for
      the maximum, both seeded with the first point of the range. */
  method CalcAabbIndirect(points: seq<Vec3>, ids: array<nat>, first: nat, last: nat) returns (box: Aabb)
    requires Indexes(points, ids[..], first, last)
    ensures box == RangeBox(points, ids[..], first, last)
    ensures forall j :: first <= j <= last ==> Contains(box, points[ids[j]])
  {
    var lo, hi := points[ids[first]], points[ids[first]];
    var i := first;
    while i <= last
      invariant first <= i <= last + 1
      invariant lo == if i == first then points[ids[first]] else RangeMin(points, ids[..], first, i - 1)
    {
      lo := Min(lo, points[ids[i]]);
      i := i + 1;
    }
    i := first;
    while i <= last
      invariant first <= i <= last + 1
      invariant hi == if i == first then points[ids[first]] else RangeMax(points, ids[..], first, i - 1)
    {
      hi := Max(hi, points[ids[i]]);
      i := i + 1;
    }
    box := Aabb(lo, hi);
    forall j | first <= j <= last
      ensures Contains(box, points[ids[j]])
    {
      RangeBoxContains(points, ids[..], first, last, j);
    }
  }

  // ---------------------------------------------------------------------------
  // Variance and the split axis

  /** Positions `[first, hi)` of `ids` exist and name points. */
  predicate IndexesBelow(points: seq<Vec3>, ids: seq<nat>, first: nat, hi: nat) {
    first <= hi <= |ids| && forall j :: first <= j < hi ==> ids[j] < |points|
  }

  /** The running sums of the variance loop over positions `[first, hi)`:
      `sum of v / count` and `sum of v * (v / count)`. */
  function MeanSum(points: seq<Vec3>, ids: seq<nat>, first: nat, hi: nat, count: real): Vec3
    requires IndexesBelow(points, ids, first, hi) && count != 0.0
    decreases hi - first
  {
    if hi == first then Zero
    else Add(MeanSum(points, ids, first, hi - 1, count), Div(points[ids[hi - 1]], count))
  }

  function SquareSum(points: seq<Vec3>, ids: seq<nat>, first: nat, hi: nat, count: real): Vec3
    requires IndexesBelow(points, ids, first, hi) && count != 0.0
    decreases hi - first
  {
    if hi == first then Zero
    else
      var v := points[ids[hi - 1]];
      Add(SquareSum(points, ids, first, hi - 1, count), Mul(v, Div(v, count)))
  }

  /** When every point of the range has coordinate `c` on axis `i`, the running
      mean on that axis is `c / count` times the number of points. */
  lemma {:induction false} MeanSumUniform(points: seq<Vec3>, ids: seq<nat>, first: nat, hi: nat,
                                          count: real, i: nat, c: real)
    requires IndexesBelow(points, ids, first, hi) && count != 0.0 && i < 3
    requires forall j :: first <= j < hi ==> points[ids[j]].Get(i) == c
    ensures MeanSum(points, ids, first, hi, count).Get(i) == (hi - first) as real * (c / count)
    decreases hi - first
  {
    if hi > first {
      MeanSumUniform(points, ids, first, hi - 1, count, i, c);
      MeanSumStep(points, ids, first, hi, count, i);
      OneMoreTimes(hi - first, c / count);
    }
  }

  lemma MeanSumStep(points: seq<Vec3>, ids: seq<nat>, first: nat, hi: nat, count: real, i: nat)
    requires IndexesBelow(points, ids, first, hi) && count != 0.0 && i < 3 && first < hi
    ensures MeanSum(points, ids, first, hi, count).Get(i) ==
            MeanSum(points, ids, first, hi - 1, count).Get(i) + points[ids[hi - 1]].Get(i) / count
  {
    AddDivGet(MeanSum(points, ids, first, hi - 1, count), points[ids[hi - 1]], count, i);
  }

  lemma OneMoreTimes(k: nat, q: real)
    requires k > 0
    ensures k as real * q == (k - 1) as real * q + q
  {
  }

  lemma AddDivGet(a: Vec3, v: Vec3, count: real, i: nat)
    requires count != 0.0 && i < 3
    ensures Add(a, Div(v, count)).Get(i) == a.Get(i) + v.Get(i) / count
  {
  }

  /** The mean of a node whose points share coordinate `c` on axis `i` is `c`, so
      no point lies strictly below it: partitioning there leaves the first group
      empty and the node stays a leaf. */
  lemma UniformNodeHasNothingBelowMean(points: seq<Vec3>, ids: seq<nat>, first: nat, last: nat, i: nat, c: real)
    requires Indexes(points, ids, first, last) && i < 3
    requires forall j :: first <= j <= last ==> points[ids[j]].Get(i) == c
    ensures var mean := MeanSum(points, ids, first, last + 1, (last - first + 1) as real);
      mean.Get(i) == c && forall j :: first <= j <= last ==> !(points[ids[j]].Get(i) < mean.Get(i))
  {
    var count := (last - first + 1) as real;
    MeanSumUniform(points, ids, first, last + 1, count, i, c);
    assert count * (c / count) == c;
  }

  /** The loop of the builder that accumulates the mean and the mean of squares
      of a node's points. */
  method NodeMoments(points: seq<Vec3>, ids: array<nat>, first: nat, last: nat)
    returns (mean: Vec3, meanOfSquares: Vec3)
    requires Indexes(points, ids[..], first, last)
    ensures mean == MeanSum(points, ids[..], first, last + 1, (last - first + 1) as real)
    ensures meanOfSquares == SquareSum(points, ids[..], first, last + 1, (last - first + 1) as real)
  {
    var count := (last - first + 1) as real;
    mean, meanOfSquares := Zero, Zero;
    var i := first;
    while i <= last
      invariant first <= i <= last + 1
      invariant mean == MeanSum(points, ids[..], first, i, count)
      invariant meanOfSquares == SquareSum(points, ids[..], first, i, count)
    {
      var v := points[ids[i]];
      var tmp := Div(v, count);
      mean := Add(mean, tmp);
      meanOfSquares := Add(meanOfSquares, Mul(v, tmp));
      i := i + 1;
    }
  }

  /** `mean_of_squares - mean * mean`. */
  function Variance(mean: Vec3, meanOfSquares: Vec3): Vec3 {
    Sub(meanOfSquares, Mul(mean, mean))
  }

  /** The split axis: 0, replaced by 1 if its variance is strictly larger, then by
      2 if its variance is strictly larger than the current choice's. The result
      has the greatest variance, and ties go to the lower axis. */
  function ChooseAxis(variance: Vec3): (axis: nat)
    ensures axis < 3
    ensures forall i :: 0 <= i < 3 ==> variance.Get(i) <= variance.Get(axis)
    ensures forall i :: 0 <= i < axis ==> variance.Get(i) < variance.Get(axis)
  {
    var a := if variance.Get(1) > variance.Get(0) then 1 else 0;
    if variance.Get(2) > variance.Get(a) then 2 else a
  }

  // ---------------------------------------------------------------------------
  // std::partition on one node's range

  /** `std::partition(first, last + 1, pred)` with `pred(i)` being
      `points[i][axis] < split`: reorders positions `[first, last]` only, and
      returns the first position of the second group. */
  method Partition(points: seq<Vec3>, ids: array<nat>, first: nat, last: nat, axis: nat, split: real)
    returns (p: nat)
    requires first <= last < ids.Length && axis < 3
    requires Below(ids[..], |points|)
    modifies ids
    ensures Below(ids[..], |points|)
    ensures first <= p <= last + 1
    ensures forall j :: first <= j < p ==> points[ids[j]].Get(axis) < split
    ensures forall j :: p <= j <= last ==> !(points[ids[j]].Get(axis) < split)
    ensures multiset(ids[first..last + 1]) == multiset(old(ids[first..last + 1]))
    ensures forall j :: 0 <= j < ids.Length && (j < first || last < j) ==> ids[j] == old(ids[j])
  {
    ghost var s0 := ids[..];
    p := first;
    var i := first;
    while i <= last
      invariant PartitionInv(ids[..], s0, points, first, last, axis, split, p, i)
    {
      if points[ids[i]].Get(axis) < split {
        PartitionSwap(ids[..], s0, points, first, last, axis, split, p, i);
        ids[p], ids[i] := ids[i], ids[p];
        p := p + 1;
      } else {
        PartitionKeep(ids[..], s0, points, first, last, axis, split, p, i);
      }
      i := i + 1;
    }
  }

  /** The state of the partition loop after looking at positions `[first, i)`:
      the first group is `[first, p)`, the second `[p, i)`, and only positions
      inside `[first, last]` have moved. */
  predicate PartitionInv(s: seq<nat>, s0: seq<nat>, points: seq<Vec3>, first: nat, last: nat,
                         axis: nat, split: real, p: nat, i: nat) {
    && |s| == |s0| && first <= p <= i <= last + 1 && last < |s| && axis < 3
    && Below(s, |points|)
    && (forall j :: first <= j < p ==> points[s[j]].Get(axis) < split)
    && (forall j :: p <= j < i ==> !(points[s[j]].Get(axis) < split))
    && multiset(s[first..last + 1]) == multiset(s0[first..last + 1])
    && (forall j :: 0 <= j < |s| && (j < first || last < j) ==> s[j] == s0[j])
  }

  /** An element of the first group is swapped to the end of that group. */
  lemma PartitionSwap(s: seq<nat>, s0: seq<nat>, points: seq<Vec3>, first: nat, last: nat,
                      axis: nat, split: real, p: nat, i: nat)
    requires PartitionInv(s, s0, points, first, last, axis, split, p, i) && i <= last
    requires points[s[i]].Get(axis) < split
    ensures PartitionInv(s[p := s[i]][i := s[p]], s0, points, first, last, axis, split, p + 1, i + 1)
  {
    var t := s[p := s[i]][i := s[p]];
    SwapGroups(s, points, first, axis, split, p, i);
    SwapSlice(s, first, last, p, i);
    assert multiset(t[first..last + 1]) == multiset(s[first..last + 1]);
  }

  lemma SwapGroups(s: seq<nat>, points: seq<Vec3>, first: nat, axis: nat, split: real, p: nat, i: nat)
    requires first <= p <= i < |s| && axis < 3 && Below(s, |points|)
    requires forall j :: first <= j < p ==> points[s[j]].Get(axis) < split
    requires forall j :: p <= j < i ==> !(points[s[j]].Get(axis) < split)
    requires points[s[i]].Get(axis) < split
    ensures var t := s[p := s[i]][i := s[p]];
      && Below(t, |points|)
      && (forall j :: first <= j < p + 1 ==> points[t[j]].Get(axis) < split)
      && (forall j :: p + 1 <= j < i + 1 ==> !(points[t[j]].Get(axis) < split))
  {
  }

  lemma SwapSlice(s: seq<nat>, first: nat, last: nat, p: nat, i: nat)
    requires first <= p <= i <= last < |s|
    ensures var t := s[p := s[i]][i := s[p]];
      && multiset(t[first..last + 1]) == multiset(s[first..last + 1])
      && (forall j :: 0 <= j < |s| && (j < first || last < j) ==> t[j] == s[j])
  {
    var t := s[p := s[i]][i := s[p]];
    assert t[first..last + 1] == s[first..last + 1][p - first := s[i]][i - first := s[p]];
    SwapKeepsMultiset(s[first..last + 1], t[first..last + 1], p - first, i - first);
  }

  /** An element of the second group stays where it is. */
  lemma PartitionKeep(s: seq<nat>, s0: seq<nat>, points: seq<Vec3>, first: nat, last: nat,
                      axis: nat, split: real, p: nat, i: nat)
    requires PartitionInv(s, s0, points, first, last, axis, split, p, i) && i <= last
    requires !(points[s[i]].Get(axis) < split)
    ensures PartitionInv(s, s0, points, first, last, axis, split, p, i + 1)
  {
  }

  lemma SwapKeepsMultiset(s: seq<nat>, t: seq<nat>, a: nat, b: nat)
    requires a < |s| && b < |s| && |t| == |s|
    requires t[a] == s[b] && t[b] == s[a]
    requires forall q :: 0 <= q < |s| && q != a && q != b ==> t[q] == s[q]
    ensures multiset(t) == multiset(s)
  {
    if a != b {
      assert t == s[a := s[b]][b := s[a]];
    } else {
      assert t == s;
    }
  }

  // ---------------------------------------------------------------------------
  // The build invariant

  /** `ids'` is `ids` reordered inside positions `[lo, hi]` only. */
  predicate PermutedWithin(ids: seq<nat>, ids': seq<nat>, lo: nat, hi: nat) {
    && |ids'| == |ids| && lo <= hi < |ids|
    && multiset(ids'[lo..hi + 1]) == multiset(ids[lo..hi + 1])
    && forall j :: 0 <= j < |ids| && (j < lo || hi < j) ==> ids'[j] == ids[j]
  }

  lemma PermutedWithinMember(ids: seq<nat>, ids': seq<nat>, lo: nat, hi: nat, j: nat)
    requires PermutedWithin(ids, ids', lo, hi) && lo <= j <= hi
    ensures exists j' :: lo <= j' <= hi && ids'[j] == ids[j']
  {
    assert ids'[j] == ids'[lo..hi + 1][j - lo];
    assert ids'[j] in multiset(ids'[lo..hi + 1]);
    assert ids'[j] in ids[lo..hi + 1];
    var t :| 0 <= t < hi + 1 - lo && ids[lo..hi + 1][t] == ids'[j];
    assert ids[lo + t] == ids'[j];
  }

  lemma PermutedWithinWhole(ids: seq<nat>, ids': seq<nat>, lo: nat, hi: nat)
    requires PermutedWithin(ids, ids', lo, hi)
    ensures multiset(ids') == multiset(ids)
  {
    assert ids == ids[..lo] + ids[lo..hi + 1] + ids[hi + 1..];
    assert ids' == ids'[..lo] + ids'[lo..hi + 1] + ids'[hi + 1..];
    assert ids'[..lo] == ids[..lo];
    assert ids'[hi + 1..] == ids[hi + 1..];
  }

  /** Sum of `last - first` over the nodes of a stack: how many more splits the
      pending nodes could still need. */
  function Excess(ns: seq<Node>, stack: seq<nat>): int
    requires Below(stack, |ns|)
  {
    if stack == [] then 0
    else Excess(ns, stack[..|stack| - 1]) + (ns[stack[|stack| - 1]].last - ns[stack[|stack| - 1]].first)
  }

  lemma {:induction false} ExcessFrame(ns: seq<Node>, ns': seq<Node>, stack: seq<nat>)
    requires Below(stack, |ns|)
    requires |ns| <= |ns'|
    requires forall x :: 0 <= x < |ns| ==> ns'[x].first == ns[x].first && ns'[x].last == ns[x].last
    ensures Excess(ns', stack) == Excess(ns, stack)
  {
    if stack != [] {
      ExcessFrame(ns, ns', stack[..|stack| - 1]);
    }
  }

  lemma {:induction false} ExcessNonNegative(ns: seq<Node>, n: nat, stack: seq<nat>)
    requires Below(stack, |ns|)
    requires RangesIn(ns, n)
    ensures Excess(ns, stack) >= 0
  {
    if stack != [] {
      ExcessNonNegative(ns, n, stack[..|stack| - 1]);
    }
  }

  /** Every stacked node is an allocated leaf. */
  predicate OnStack(ns: seq<Node>, stack: seq<nat>) {
    Below(stack, |ns|) && forall i :: 0 <= i < |stack| ==> ns[stack[i]].IsLeaf()
  }

  predicate Distinct(stack: seq<nat>) {
    forall a, b :: 0 <= a < b < |stack| ==> stack[a] != stack[b]
  }

  /** Pending nodes hold pairwise disjoint ranges. */
  predicate PendingApart(ns: seq<Node>, stack: seq<nat>)
    requires OnStack(ns, stack)
  {
    forall a, b :: 0 <= a < b < |stack| ==> Apart(ns[stack[a]], ns[stack[b]])
  }

  /** Every other node's range holds the range of `s` or is disjoint from it. */
  predicate Laminar(ns: seq<Node>, s: nat)
    requires s < |ns|
  {
    forall x :: 0 <= x < |ns| && x != s ==> Inside(ns[s], ns[x]) || Apart(ns[s], ns[x])
  }

  predicate PendingLaminar(ns: seq<Node>, stack: seq<nat>)
    requires OnStack(ns, stack)
  {
    forall i :: 0 <= i < |stack| ==> Laminar(ns, stack[i])
  }

  /** Every node that has left the stack has its box. */
  predicate DoneBoxes(ns: seq<Node>, ids: seq<nat>, stack: seq<nat>, points: seq<Vec3>) {
    forall x :: 0 <= x < |ns| && x !in stack ==> BoxContains(ns[x], ids, points)
  }

  /** What holds at the head of every iteration of the build loop. `slack` is
      how many splits the arena still has room for. */
  ghost predicate BuildInv(ns: seq<Node>, ids: seq<nat>, stack: seq<nat>, points: seq<Vec3>, slack: nat) {
    && 0 < |points| && 0 < |ns|
    && IsPermutation(ids, |points|)
    && IsTree(ns, |points|)
    && OnStack(ns, stack) && Distinct(stack) && PendingApart(ns, stack) && PendingLaminar(ns, stack)
    && DoneBoxes(ns, ids, stack, points)
    && |ns| + 2 * slack == 2 * |points| - 1
    && Excess(ns, stack) <= slack
  }

  /** The state right after the root is allocated. */
  lemma Started(points: seq<Vec3>, ns: seq<Node>, ids: seq<nat>)
    requires 0 < |points|
    requires ns == [Node(Unset, 0, |points| - 1, None, None)] && ids == Identity(|points|)
    ensures BuildInv(ns, ids, [0], points, |points| - 1)
  {
    RootTree(ns, |points|);
    assert Excess(ns, [0]) == |points| - 1 by {
      assert [0][..0] == [];
    }
  }

  lemma RootTree(ns: seq<Node>, n: nat)
    requires 0 < n && ns == [Node(Unset, 0, n - 1, None, None)]
    ensures IsTree(ns, n)
  {
    assert ChildrenOk(ns, 0);
    ReachUnfold(ns, 0);
    assert Identity(1) == [0];
  }

  /** What popping a node off the stack leaves known. */
  predicate ReadyToSplit(ns: seq<Node>, rest: seq<nat>, k: nat, slack: nat) {
    && OnStack(ns, rest) && k < |ns| && ns[k].IsLeaf() && k !in rest && Laminar(ns, k)
    && (forall i :: 0 <= i < |rest| ==> Apart(ns[k], ns[rest[i]]))
    && Excess(ns, rest) + (ns[k].last - ns[k].first) <= slack
  }

  lemma Pop(ns: seq<Node>, stack: seq<nat>)
    requires OnStack(ns, stack) && Distinct(stack) && PendingApart(ns, stack) && PendingLaminar(ns, stack)
    requires |stack| > 0
    ensures var k, rest := stack[|stack| - 1], stack[..|stack| - 1];
      && OnStack(ns, rest) && Distinct(rest) && PendingApart(ns, rest) && PendingLaminar(ns, rest)
      && k < |ns| && ns[k].IsLeaf() && k !in rest && Laminar(ns, k)
      && (forall i :: 0 <= i < |rest| ==> Apart(ns[k], ns[rest[i]]))
      && Excess(ns, stack) == Excess(ns, rest) + (ns[k].last - ns[k].first)
  {
    var k, rest := stack[|stack| - 1], stack[..|stack| - 1];
    assert forall i :: 0 <= i < |rest| ==> rest[i] == stack[i];
    assert Laminar(ns, stack[|stack| - 1]);
    assert forall i :: 0 <= i < |rest| ==> Apart(ns[stack[i]], ns[stack[|stack| - 1]]);
  }

  /** Writing a box changes no range and no child. */
  lemma BoxWrite(ns: seq<Node>, k: nat, b: Aabb)
    requires k < |ns|
    ensures SameShape(ns, ns[k := ns[k].(box := b)])
  {
  }

  /** The stack facts only look at ranges and children. */
  lemma ShapeKeeps(ns: seq<Node>, ns1: seq<Node>, rest: seq<nat>, k: nat, slack: nat)
    requires SameShape(ns, ns1)
    requires OnStack(ns, rest) && Distinct(rest) && PendingApart(ns, rest) && PendingLaminar(ns, rest)
    requires k < |ns| && ns[k].IsLeaf() && k !in rest && Laminar(ns, k)
    requires forall i :: 0 <= i < |rest| ==> Apart(ns[k], ns[rest[i]])
    requires Excess(ns, rest) + (ns[k].last - ns[k].first) <= slack
    ensures OnStack(ns1, rest) && Distinct(rest) && PendingApart(ns1, rest) && PendingLaminar(ns1, rest)
    ensures ReadyToSplit(ns1, rest, k, slack)
  {
    ExcessFrame(ns, ns1, rest);
    forall i | 0 <= i < |rest| ensures Laminar(ns1, rest[i]) {
      assert Laminar(ns, rest[i]);
    }
  }

  /** The box of a settled node holds its points once its range is reordered. */
  lemma SettledBox(ns: seq<Node>, ids: seq<nat>, ids': seq<nat>, points: seq<Vec3>, k: nat, b: Aabb)
    requires k < |ns| && Indexes(points, ids, ns[k].first, ns[k].last)
    requires b == RangeBox(points, ids, ns[k].first, ns[k].last)
    requires PermutedWithin(ids, ids', ns[k].first, ns[k].last)
    ensures BoxContains(ns[k].(box := b), ids', points)
  {
    forall j | ns[k].first <= j <= ns[k].last && j < |ids'| && ids'[j] < |points|
      ensures Contains(b, points[ids'[j]])
    {
      PermutedWithinMember(ids, ids', ns[k].first, ns[k].last, j);
      var j' :| ns[k].first <= j' <= ns[k].last && ids'[j] == ids[j'];
      RangeBoxContains(points, ids, ns[k].first, ns[k].last, j');
    }
  }

  /** Reordering inside the range of `k` keeps the box of a node `x` whose range
      holds it or misses it. */
  lemma UnmovedBox(ns: seq<Node>, ids: seq<nat>, ids': seq<nat>, points: seq<Vec3>, k: nat, x: nat)
    requires k < |ns| && x < |ns|
    requires Inside(ns[k], ns[x]) || Apart(ns[k], ns[x])
    requires PermutedWithin(ids, ids', ns[k].first, ns[k].last)
    requires BoxContains(ns[x], ids, points)
    ensures BoxContains(ns[x], ids', points)
  {
    forall j | ns[x].first <= j <= ns[x].last && j < |ids'| && ids'[j] < |points|
      ensures Contains(ns[x].box, points[ids'[j]])
    {
      if ns[k].first <= j <= ns[k].last {
        PermutedWithinMember(ids, ids', ns[k].first, ns[k].last, j);
        var j' :| ns[k].first <= j' <= ns[k].last && ids'[j] == ids[j'];
        assert ns[x].first <= j' <= ns[x].last;
      }
    }
  }

  lemma SettleBoxes(ns: seq<Node>, ids: seq<nat>, ids': seq<nat>, stack: seq<nat>, points: seq<Vec3>, slack: nat, b: Aabb)
    requires BuildInv(ns, ids, stack, points, slack) && |stack| > 0
    requires Indexes(points, ids, ns[stack[|stack| - 1]].first, ns[stack[|stack| - 1]].last)
    requires b == RangeBox(points, ids, ns[stack[|stack| - 1]].first, ns[stack[|stack| - 1]].last)
    requires PermutedWithin(ids, ids', ns[stack[|stack| - 1]].first, ns[stack[|stack| - 1]].last)
    ensures var k := stack[|stack| - 1];
      DoneBoxes(ns[k := ns[k].(box := b)], ids', stack[..|stack| - 1], points)
  {
    var k := stack[|stack| - 1];
    var rest := stack[..|stack| - 1];
    var ns1 := ns[k := ns[k].(box := b)];
    assert Laminar(ns, k);
    forall x | 0 <= x < |ns1| && x !in rest
      ensures BoxContains(ns1[x], ids', points)
    {
      if x == k {
        SettledBox(ns, ids, ids', points, k, b);
      } else {
        assert x !in stack by {
          assert stack == rest + [k];
        }
        UnmovedBox(ns, ids, ids', points, k, x);
      }
    }
  }

  /** A popped node gets its box and, possibly, its range reordered; it leaves the
      stack, and everything a split of it needs stays known. */
  lemma Settle(ns: seq<Node>, ids: seq<nat>, ns1: seq<Node>, ids': seq<nat>, stack: seq<nat>,
               points: seq<Vec3>, slack: nat, b: Aabb)
    requires BuildInv(ns, ids, stack, points, slack) && |stack| > 0
    requires Indexes(points, ids, ns[stack[|stack| - 1]].first, ns[stack[|stack| - 1]].last)
    requires b == RangeBox(points, ids, ns[stack[|stack| - 1]].first, ns[stack[|stack| - 1]].last)
    requires PermutedWithin(ids, ids', ns[stack[|stack| - 1]].first, ns[stack[|stack| - 1]].last)
    requires ns1 == ns[stack[|stack| - 1] := ns[stack[|stack| - 1]].(box := b)]
    ensures BuildInv(ns1, ids', stack[..|stack| - 1], points, slack)
    ensures ReadyToSplit(ns1, stack[..|stack| - 1], stack[|stack| - 1], slack)
  {
    var k, rest := stack[|stack| - 1], stack[..|stack| - 1];
    PermutedWithinWhole(ids, ids', ns[k].first, ns[k].last);
    BoxWrite(ns, k, b);
    SameShapeTree(ns, ns1, |points|);
    SettleBoxes(ns, ids, ids', stack, points, slack, b);
    Pop(ns, stack);
    ShapeKeeps(ns, ns1, rest, k, slack);
  }

  /** Splitting the settled node `k` at `p` pushes two pending children. */
  lemma SplitStep(ns: seq<Node>, ids: seq<nat>, rest: seq<nat>, points: seq<Vec3>, slack: nat,
                  k: nat, p: nat, ns2: seq<Node>, l: nat, r: nat)
    requires BuildInv(ns, ids, rest, points, slack) && ReadyToSplit(ns, rest, k, slack)
    requires ns[k].first < p <= ns[k].last
    requires ns2 == Split(ns, k, p) && l == |ns| && r == |ns| + 1
    ensures slack >= 1
    ensures BuildInv(ns2, ids, rest + [l, r], points, slack - 1)
  {
    var n := |points|;
    ExcessNonNegative(ns, n, rest);
    SplitIsTree(ns, n, k, p);
    SplitFrame(ns, k, p);
    SplitExcess(ns, ns2, rest, k, p);
    SplitPending(ns, ns2, rest, k, p);
    SplitDone(ns, ns2, ids, rest, points, slack, k, p);
  }

  /** `Split` as the builder performs it: two appended leaves, then the links. */
  lemma SplitIsAppendAndLink(ns: seq<Node>, k: nat, p: nat)
    requires k < |ns| && 0 < p
    ensures var grown := ns + [Node(Unset, ns[k].first, p - 1, None, None)]
                            + [Node(Unset, p, ns[k].last, None, None)];
      Split(ns, k, p) == grown[k := grown[k].(left := Some(|ns|), right := Some(|ns| + 1))]
  {
  }

  /** What `Split` keeps of the old slots and what the new ones hold. */
  lemma SplitFrame(ns: seq<Node>, k: nat, p: nat)
    requires k < |ns| && 0 < p
    ensures var ns2 := Split(ns, k, p);
      && (forall x :: 0 <= x < |ns| ==>
            ns2[x].first == ns[x].first && ns2[x].last == ns[x].last && ns2[x].box == ns[x].box)
      && (forall x :: 0 <= x < |ns| && x != k ==> ns2[x] == ns[x])
      && ns2[|ns|] == Node(Unset, ns[k].first, p - 1, None, None)
      && ns2[|ns| + 1] == Node(Unset, p, ns[k].last, None, None)
  {
  }

  lemma SplitExcess(ns: seq<Node>, ns2: seq<Node>, rest: seq<nat>, k: nat, p: nat)
    requires OnStack(ns, rest) && k < |ns| && ns[k].first < p <= ns[k].last
    requires |ns2| == |ns| + 2
    requires forall x :: 0 <= x < |ns| ==> ns2[x].first == ns[x].first && ns2[x].last == ns[x].last
    requires ns2[|ns|].first == ns[k].first && ns2[|ns|].last == p - 1
    requires ns2[|ns| + 1].first == p && ns2[|ns| + 1].last == ns[k].last
    ensures Excess(ns2, rest + [|ns|, |ns| + 1]) == Excess(ns, rest) + (ns[k].last - ns[k].first) - 1
  {
    var l: nat, r: nat := |ns|, |ns| + 1;
    assert Below(rest, |ns2|);
    ExcessFrame(ns, ns2, rest);
    BelowPush(rest, l, |ns2|);
    ExcessPush(ns2, rest, l);
    BelowPush(rest + [l], r, |ns2|);
    ExcessPush(ns2, rest + [l], r);
    assert rest + [l] + [r] == rest + [|ns|, |ns| + 1];
  }

  lemma ExcessPush(ns: seq<Node>, s: seq<nat>, x: nat)
    requires Below(s + [x], |ns|)
    ensures Below(s, |ns|) && x < |ns|
    ensures Excess(ns, s + [x]) == Excess(ns, s) + (ns[x].last - ns[x].first)
  {
    assert (s + [x])[|s|] == x;
    assert (s + [x])[..|s|] == s;
  }

  lemma SplitPending(ns: seq<Node>, ns2: seq<Node>, rest: seq<nat>, k: nat, p: nat)
    requires OnStack(ns, rest) && Distinct(rest) && PendingApart(ns, rest) && PendingLaminar(ns, rest)
    requires k < |ns| && k !in rest && Laminar(ns, k)
    requires forall i :: 0 <= i < |rest| ==> Apart(ns[k], ns[rest[i]])
    requires ns[k].first < p <= ns[k].last
    requires |ns2| == |ns| + 2
    requires forall x :: 0 <= x < |ns| && x != k ==> ns2[x] == ns[x]
    requires ns2[k].first == ns[k].first && ns2[k].last == ns[k].last
    requires ns2[|ns|] == Node(Unset, ns[k].first, p - 1, None, None)
    requires ns2[|ns| + 1] == Node(Unset, p, ns[k].last, None, None)
    ensures var stack := rest + [|ns|, |ns| + 1];
      OnStack(ns2, stack) && Distinct(stack) && PendingApart(ns2, stack) && PendingLaminar(ns2, stack)
  {
    var stack := rest + [|ns|, |ns| + 1];
    PushedOnStack(ns, ns2, rest, k);
    PushedApart(ns, ns2, rest, k, p);
    PushedLaminar(ns, ns2, rest, k, p);
  }

  lemma PushedOnStack(ns: seq<Node>, ns2: seq<Node>, rest: seq<nat>, k: nat)
    requires OnStack(ns, rest) && Distinct(rest) && k < |ns| && k !in rest
    requires |ns2| == |ns| + 2
    requires forall x :: 0 <= x < |ns| && x != k ==> ns2[x] == ns[x]
    requires ns2[|ns|].IsLeaf() && ns2[|ns| + 1].IsLeaf()
    ensures OnStack(ns2, rest + [|ns|, |ns| + 1]) && Distinct(rest + [|ns|, |ns| + 1])
  {
    var stack := rest + [|ns|, |ns| + 1];
    assert forall i :: 0 <= i < |rest| ==> stack[i] == rest[i] && rest[i] < |ns| && rest[i] != k;
    assert stack[|rest|] == |ns| && stack[|rest| + 1] == |ns| + 1;
  }

  lemma PushedApart(ns: seq<Node>, ns2: seq<Node>, rest: seq<nat>, k: nat, p: nat)
    requires OnStack(ns, rest) && PendingApart(ns, rest) && k < |ns| && k !in rest
    requires forall i :: 0 <= i < |rest| ==> Apart(ns[k], ns[rest[i]])
    requires ns[k].first < p <= ns[k].last
    requires |ns2| == |ns| + 2
    requires forall x :: 0 <= x < |ns| && x != k ==> ns2[x] == ns[x]
    requires ns2[|ns|] == Node(Unset, ns[k].first, p - 1, None, None)
    requires ns2[|ns| + 1] == Node(Unset, p, ns[k].last, None, None)
    requires OnStack(ns2, rest + [|ns|, |ns| + 1])
    ensures PendingApart(ns2, rest + [|ns|, |ns| + 1])
  {
    var stack := rest + [|ns|, |ns| + 1];
    assert forall i :: 0 <= i < |rest| ==> stack[i] == rest[i] && rest[i] < |ns| && rest[i] != k;
    assert stack[|rest|] == |ns| && stack[|rest| + 1] == |ns| + 1;
  }

  lemma PushedLaminar(ns: seq<Node>, ns2: seq<Node>, rest: seq<nat>, k: nat, p: nat)
    requires OnStack(ns, rest) && PendingLaminar(ns, rest) && k < |ns| && k !in rest && Laminar(ns, k)
    requires forall i :: 0 <= i < |rest| ==> Apart(ns[k], ns[rest[i]])
    requires ns[k].first < p <= ns[k].last
    requires |ns2| == |ns| + 2
    requires forall x :: 0 <= x < |ns| && x != k ==> ns2[x] == ns[x]
    requires ns2[k].first == ns[k].first && ns2[k].last == ns[k].last
    requires ns2[|ns|] == Node(Unset, ns[k].first, p - 1, None, None)
    requires ns2[|ns| + 1] == Node(Unset, p, ns[k].last, None, None)
    requires OnStack(ns2, rest + [|ns|, |ns| + 1])
    ensures PendingLaminar(ns2, rest + [|ns|, |ns| + 1])
  {
    var stack := rest + [|ns|, |ns| + 1];
    forall i | 0 <= i < |stack| ensures Laminar(ns2, stack[i]) {
      if i < |rest| {
        assert stack[i] == rest[i];
        OldPendingLaminar(ns, ns2, rest, k, p, i);
      } else {
        NewLeafLaminar(ns, ns2, k, p, stack[i]);
      }
    }
  }

  lemma OldPendingLaminar(ns: seq<Node>, ns2: seq<Node>, rest: seq<nat>, k: nat, p: nat, i: nat)
    requires OnStack(ns, rest) && PendingLaminar(ns, rest) && k < |ns| && k !in rest
    requires i < |rest| && Apart(ns[k], ns[rest[i]])
    requires ns[k].first < p <= ns[k].last
    requires |ns2| == |ns| + 2
    requires forall x :: 0 <= x < |ns| && x != k ==> ns2[x] == ns[x]
    requires ns2[k].first == ns[k].first && ns2[k].last == ns[k].last
    requires ns2[|ns|] == Node(Unset, ns[k].first, p - 1, None, None)
    requires ns2[|ns| + 1] == Node(Unset, p, ns[k].last, None, None)
    ensures rest[i] < |ns2| && Laminar(ns2, rest[i])
  {
    var s := rest[i];
    assert Laminar(ns, s);
    assert s != k;
    forall x | 0 <= x < |ns2| && x != s
      ensures Inside(ns2[s], ns2[x]) || Apart(ns2[s], ns2[x])
    {
      if x < |ns| && x != k {
        assert ns2[x] == ns[x];
      }
    }
  }

  lemma NewLeafLaminar(ns: seq<Node>, ns2: seq<Node>, k: nat, p: nat, s: nat)
    requires k < |ns| && Laminar(ns, k)
    requires ns[k].first < p <= ns[k].last
    requires |ns2| == |ns| + 2
    requires forall x :: 0 <= x < |ns| && x != k ==> ns2[x] == ns[x]
    requires ns2[k].first == ns[k].first && ns2[k].last == ns[k].last
    requires ns2[|ns|] == Node(Unset, ns[k].first, p - 1, None, None)
    requires ns2[|ns| + 1] == Node(Unset, p, ns[k].last, None, None)
    requires s == |ns| || s == |ns| + 1
    ensures Laminar(ns2, s)
  {
    forall x | 0 <= x < |ns2| && x != s
      ensures Inside(ns2[s], ns2[x]) || Apart(ns2[s], ns2[x])
    {
      if x < |ns| && x != k {
        assert ns2[x] == ns[x];
        assert Inside(ns[k], ns[x]) || Apart(ns[k], ns[x]);
      }
    }
  }

  lemma SplitDone(ns: seq<Node>, ns2: seq<Node>, ids: seq<nat>, rest: seq<nat>, points: seq<Vec3>, slack: nat, k: nat, p: nat)
    requires BuildInv(ns, ids, rest, points, slack)
    requires k < |ns| && k !in rest && 0 < p
    requires ns2 == Split(ns, k, p)
    requires forall x :: 0 <= x < |ns| ==> ns2[x].first == ns[x].first && ns2[x].last == ns[x].last && ns2[x].box == ns[x].box
    ensures DoneBoxes(ns2, ids, rest + [|ns|, |ns| + 1], points)
  {
    var stack := rest + [|ns|, |ns| + 1];
    forall x | 0 <= x < |ns2| && x !in stack
      ensures BoxContains(ns2[x], ids, points)
    {
      assert x != |ns| && x != |ns| + 1;
      assert x !in rest;
      assert BoxContains(ns[x], ids, points);
    }
  }

  /** A node with more than one primitive leaves room for two more slots. */
  lemma SplitRoom(ns: seq<Node>, ids: seq<nat>, rest: seq<nat>, points: seq<Vec3>, slack: nat, k: nat)
    requires BuildInv(ns, ids, rest, points, slack) && ReadyToSplit(ns, rest, k, slack)
    requires ns[k].first < ns[k].last
    ensures slack >= 1 && |ns| + 2 <= 2 * |points| - 1
  {
    ExcessNonNegative(ns, |points|, rest);
  }

  /** When the stack is empty every node has its box. */
  lemma Finished(ns: seq<Node>, ids: seq<nat>, points: seq<Vec3>, slack: nat)
    requires BuildInv(ns, ids, [], points, slack)
    ensures IsPermutation(ids, |points|) && IsTree(ns, |points|) && BoxesContain(ns, ids, points)
    ensures |ns| <= 2 * |points| - 1
  {
  }

  // ---------------------------------------------------------------------------
  // The hierarchy

  /** The split decision of one build step: a single-primitive range stays a
      leaf; otherwise the range is partitioned around the mean on the axis of
      greatest variance, and the split is abandoned when either group is empty.
      `split` holds exactly when both groups are non-empty, with `p` the first
      position of the second group. */
  method SplitRange(points: seq<Vec3>, ids: array<nat>, first: nat, last: nat) returns (p: nat, split: bool)
    requires first <= last < ids.Length && Below(ids[..], |points|)
    modifies ids
    ensures Below(ids[..], |points|)
    ensures PermutedWithin(old(ids[..]), ids[..], first, last)
    ensures split <==> first < p <= last
    ensures first == last ==> !split
  {
    p := first;
    split := false;
    if first != last {
      var mean, meanOfSquares := NodeMoments(points, ids, first, last);
      var axis := ChooseAxis(Variance(mean, meanOfSquares));
      p := Partition(points, ids, first, last, axis, mean.Get(axis));
      split := !(p == first || p == last + 1);
    }
  }

  class Bvh {
    /** `m_pre_allocated_nodes`: room for `2N - 1` nodes. */
    var nodes: array<Node>
    /** `m_current_free_node`, as the number of slots handed out. */
    var free: nat
    /** `m_primitive_indices`. */
    var indices: array<nat>
    /** `m_root`. */
    var root: Option<nat>

    /** The allocated nodes form one tree over a permutation of the primitives,
        inside an arena of `2N - 1` slots; without primitives nothing is
        allocated and there is no root. */
    ghost predicate Valid()
      reads this, nodes, indices
    {
      && free <= nodes.Length
      && (indices.Length == 0 ==> nodes.Length == 0 && root == None)
      && (indices.Length > 0 ==> nodes.Length == 2 * indices.Length - 1 && root == Some(0) && free > 0)
      && IsPermutation(indices[..], indices.Length)
      && IsTree(nodes[..free], indices.Length)
    }

    /** Every node's box holds the points of its range. */
    ghost predicate Bounds(points: seq<Vec3>)
      reads this, nodes, indices
      requires free <= nodes.Length
    {
      |points| == indices.Length && BoxesContain(nodes[..free], indices[..], points)
    }

    /** `new_node(init)`: hands out the next free slot. */
    method NewNode(init: Node) returns (slot: nat)
      requires free < nodes.Length
      modifies this`free, nodes
      ensures slot == old(free) && free == old(free) + 1
      ensures nodes[..free] == old(nodes[..free]) + [init]
    {
      nodes[free] := init;
      slot := free;
      free := free + 1;
    }

    /** `BVH(points)`. */
    constructor (points: seq<Vec3>)
      ensures Valid() && Bounds(points)
      ensures fresh(nodes) && fresh(indices)
    {
      var n := |points|;
      var ids := new nat[n];
      for i := 0 to n
        invariant forall q :: 0 <= q < i ==> ids[q] == q
      {
        ids[i] := i;
      }
      nodes := new Node[if n == 0 then 0 else 2 * n - 1](_ => Node(Unset, 0, 0, None, None));
      indices := ids;
      free := 0;
      root := None;
      new;
      assert indices[..] == Identity(n);
      if n == 0 {
        return;
      }
      var slot := NewNode(Node(Unset, 0, n - 1, None, None));
      root := Some(slot);
      var stack := [slot];
      ghost var slack: nat := n - 1;
      Started(points, nodes[..free], indices[..]);
      var arena := nodes;
      while |stack| > 0
        invariant nodes == arena && indices == ids
        invariant nodes.Length == 2 * n - 1 && indices.Length == n && free <= nodes.Length
        invariant root == Some(0)
        invariant BuildInv(nodes[..free], indices[..], stack, points, slack)
        decreases 2 * n - 1 - free, |stack|
      {
        ghost var stack0 := stack;
        var k := stack[|stack| - 1];
        stack := stack[..|stack| - 1];
        var p, split := SettleNode(points, k, stack0, slack);
        if split {
          var l, r := SplitNode(points, k, p, stack, slack);
          slack := slack - 1;
          stack := stack + [l, r];
        }
      }
      Finished(nodes[..free], indices[..], points, slack);
    }

    /** One popped node of the build loop: its box is computed and, unless it
        holds a single primitive, its range is partitioned around the mean on the
        axis of greatest variance. `split` says whether both groups are non-empty,
        with `p` the first position of the second group. */
    method SettleNode(points: seq<Vec3>, k: nat, ghost stack: seq<nat>, ghost slack: nat)
      returns (p: nat, split: bool)
      requires free <= nodes.Length && indices.Length == |points|
      requires BuildInv(nodes[..free], indices[..], stack, points, slack)
      requires |stack| > 0 && k == stack[|stack| - 1]
      modifies nodes, indices
      ensures unchanged(this)
      ensures BuildInv(nodes[..free], indices[..], stack[..|stack| - 1], points, slack)
      ensures ReadyToSplit(nodes[..free], stack[..|stack| - 1], k, slack)
      ensures split ==> nodes[k].first < p <= nodes[k].last
    {
      ghost var ns, ids0 := nodes[..free], indices[..];
      PermutationBounds(ids0, |points|);
      assert Below(ids0, |points|);
      assert k < free;
      var first, last := nodes[k].first, nodes[k].last;
      var box := CalcAabbIndirect(points, indices, first, last);
      nodes[k] := nodes[k].(box := box);
      assert nodes[..free] == ns[k := ns[k].(box := box)];
      p, split := SplitRange(points, indices, first, last);
      Settle(ns, ids0, nodes[..free], indices[..], stack, points, slack, box);
    }

    /** Gives a settled node `k` two fresh leaves holding `[first, p - 1]` and
        `[p, last]`, as `new_node` hands them out. */
    method SplitNode(points: seq<Vec3>, k: nat, p: nat, ghost rest: seq<nat>, ghost slack: nat)
      returns (l: nat, r: nat)
      requires free <= nodes.Length && nodes.Length == 2 * |points| - 1
      requires BuildInv(nodes[..free], indices[..], rest, points, slack)
      requires ReadyToSplit(nodes[..free], rest, k, slack)
      requires nodes[k].first < p <= nodes[k].last
      modifies this`free, nodes
      ensures nodes == old(nodes) && indices == old(indices) && root == old(root)
      ensures free == old(free) + 2 && free <= nodes.Length && l == old(free) && r == l + 1
      ensures slack >= 1
      ensures BuildInv(nodes[..free], indices[..], rest + [l, r], points, slack - 1)
    {
      ghost var ns, ids := nodes[..free], indices[..];
      SplitRoom(ns, ids, rest, points, slack, k);
      l, r := AddChildren(k, p);
      assert indices[..] == ids;
      SplitStep(ns, ids, rest, points, slack, k, p, nodes[..free], l, r);
    }

    /** Allocates the two children of node `k`, holding `[first, p - 1]` and
        `[p, last]` of its range, and links them to it. */
    method AddChildren(k: nat, p: nat) returns (l: nat, r: nat)
      requires free + 2 <= nodes.Length && k < free && 0 < p
      modifies this`free, nodes
      ensures free == old(free) + 2 && l == old(free) && r == l + 1
      ensures nodes[..free] == Split(old(nodes[..free]), k, p)
    {
      ghost var ns := nodes[..free];
      var first, last := nodes[k].first, nodes[k].last;
      l := NewNode(Node(Unset, first, p - 1, None, None));
      r := NewNode(Node(Unset, p, last, None, None));
      ghost var grown := nodes[..free];
      nodes[k] := nodes[k].(left := Some(l), right := Some(r));
      assert nodes[..free] == grown[k := grown[k].(left := Some(l), right := Some(r))];
      SplitIsAppendAndLink(ns, k, p);
    }

    /** `is_empty()`: there is no root exactly when there are no primitives. */
    function IsEmpty(): (e: bool)
      reads this, nodes, indices
      requires Valid()
      ensures e <==> indices.Length == 0
    {
      root.None?
    }

    /** `count_nodes()`: a stack walk from the root that counts every node it
        pops. It dereferences the root unconditionally, so the hierarchy must not
        be empty. The count is the number of allocated slots. */
    method CountNodes() returns (count: nat)
      requires Valid() && root.Some?
      ensures count == free && count <= 2 * indices.Length - 1
    {
      ghost var ns := nodes[..free];
      TreeCount(ns, indices.Length);
      count := 0;
      var stack: seq<nat> := [root.value];
      while |stack| > 0
        invariant Below(stack, free)
        invariant count + |ReachAll(ns, stack)| == |Reach(ns, 0)|
        decreases |ReachAll(ns, stack)|
      {
        ReachAllPop(ns, stack);
        BelowPop(stack, free);
        var k := stack[|stack| - 1];
        stack := stack[..|stack| - 1];
        count := count + 1;
        ReachSize(ns, k);
        var nd := nodes[k];
        assert nd == ns[k];
        if nd.left.Some? {
          ReachAllPush(ns, stack, nd.left.value);
          BelowPush(stack, nd.left.value, free);
          stack := stack + [nd.left.value];
        }
        if nd.right.Some? {
          ReachAllPush(ns, stack, nd.right.value);
          BelowPush(stack, nd.right.value, free);
          stack := stack + [nd.right.value];
        }
      }
    }

    /** `foreach_primitive(callback, aabb_filter, primitive_filter)`: the
        primitives handed to the callback, in order. Each passes `pf` and is one
        of the primitives. */
    function ForeachPrimitive(af: Aabb -> bool, pf: nat -> bool): (r: seq<nat>)
      reads this, nodes, indices
      requires Valid()
      ensures forall q :: q in r ==> pf(q) && q < indices.Length
    {
      if root.None? then []
      else
        var ns, ids := nodes[..free], indices[..];
        var r := Visited(ns, ids, 0, af, pf);
        assert forall q :: q in r ==> pf(q) && q < indices.Length by {
          PermutationBounds(ids, indices.Length);
          VisitedSound(ns, ids, 0, af, pf);
          forall q | q in r ensures pf(q) && q < indices.Length {
            assert q in ids[ns[0].first..ns[0].last + 1];
          }
        }
        r
    }

    /** A primitive that passes `pf`, and whose point passes `af` in every box
        holding it, is handed to the callback. */
    lemma ForeachComplete(points: seq<Vec3>, af: Aabb -> bool, pf: nat -> bool, q: nat)
      requires Valid() && Bounds(points) && q < |points| && pf(q)
      requires forall b :: Contains(b, points[q]) ==> af(b)
      ensures q in ForeachPrimitive(af, pf)
    {
      var n := indices.Length;
      var ns, ids := nodes[..free], indices[..];
      IdentityCounts(n, q);
      assert q in multiset(ids);
      var j :| 0 <= j < |ids| && ids[j] == q;
      PermutationBounds(ids, n);
      VisitedComplete(ns, ids, points, 0, af, pf, j);
    }

    /** `count_primitives()`: the number of primitives a traversal with filters
        that accept everything hands over, which is the number of primitives the
        hierarchy was built from. */
    function CountPrimitives(): (c: nat)
      reads this, nodes, indices
      requires Valid()
      ensures c == indices.Length
    {
      if root.None? then 0
      else
        var ns, ids := nodes[..free], indices[..];
        VisitedAll(ns, ids, 0, AnyBox, AnyPrimitive);
        |Visited(ns, ids, 0, AnyBox, AnyPrimitive)|
    }
  }

  /** A tree's root reaches every allocated slot once. */
  lemma TreeCount(ns: seq<Node>, n: nat)
    requires IsTree(ns, n) && |ns| > 0
    ensures Linked(ns) && |Reach(ns, 0)| == |ns|
  {
    assert |multiset(Identity(|ns|))| == |ns|;
  }

  lemma ReachAllPop(ns: seq<Node>, s: seq<nat>)
    requires Linked(ns) && |s| > 0 && Below(s, |ns|)
    ensures |ReachAll(ns, s)| == |ReachAll(ns, s[..|s| - 1])| + |Reach(ns, s[|s| - 1])|
  {
  }

  lemma ReachAllPush(ns: seq<Node>, s: seq<nat>, c: nat)
    requires Linked(ns) && c < |ns| && Below(s, |ns|)
    ensures |ReachAll(ns, s + [c])| == |ReachAll(ns, s)| + |Reach(ns, c)|
  {
    assert (s + [c])[..|s|] == s;
  }

  /** A node counts itself and the nodes below its children. */
  lemma ReachSize(ns: seq<Node>, k: nat)
    requires Linked(ns) && k < |ns|
    ensures ChildrenOk(ns, k)
    ensures |Reach(ns, k)| == 1 +
      if ns[k].left.Some? then |Reach(ns, ns[k].left.value)| + |Reach(ns, ns[k].right.value)| else 0
  {
    ReachUnfold(ns, k);
  }
}
