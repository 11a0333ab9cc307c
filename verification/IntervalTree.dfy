/** A static tree of intervals that answers which of them contain a point or overlap a range. */
module IntervalTree {
  import opened Sorting

  datatype Interval<V> = Interval(low: int, high: int, value: V)

  /** An interval with its position in the list that the tree is built from. */
  datatype Indexed<V> = Indexed(interval: Interval<V>, index: nat) {
    predicate Has(p: int) {
      interval.low <= p <= interval.high
    }

    predicate Overlaps(min: int, max: int) {
      interval.low <= max && min <= interval.high
    }
  }

  ghost predicate AllProper<V>(s: seq<Indexed<V>>) {
    forall k :: 0 <= k < |s| ==> s[k].interval.low <= s[k].interval.high
  }

  // ---------- choosing a point ----------

  function Count<V>(s: seq<Indexed<V>>, p: int): nat {
    if s == [] then 0 else Count(s[..|s| - 1], p) + if s[|s| - 1].Has(p) then 1 else 0
  }

  lemma {:induction false} CountPositive<V>(s: seq<Indexed<V>>, p: int)
    ensures Count(s, p) > 0 <==> exists k :: 0 <= k < |s| && s[k].Has(p)
  {
    if s != [] {
      var n := |s| - 1;
      CountPositive(s[..n], p);
      if Count(s[..n], p) > 0 {
        var k :| 0 <= k < n && s[..n][k].Has(p);
        assert s[k].Has(p);
      }
      if exists k :: 0 <= k < |s| && s[k].Has(p) {
        var k :| 0 <= k < |s| && s[k].Has(p);
        assert k < n ==> s[..n][k].Has(p);
      }
    }
  }

  method ContainingIntervalCount<V>(s: seq<Indexed<V>>, p: int) returns (count: nat)
    ensures count == Count(s, p)
  {
    count := 0;
    for k := 0 to |s|
      invariant count == Count(s[..k], p)
    {
      assert s[..k + 1][..k] == s[..k];
      if s[k].Has(p) {
        count := count + 1;
      }
    }
    assert s[..|s|] == s;
  }

  ghost predicate BestUpTo<V>(s: seq<Indexed<V>>, points: seq<int>, n: nat, i: nat)
    requires n <= |points|
  {
    && i < n && (forall j :: 0 <= j < i ==> Count(s, points[j]) < Count(s, points[i]))
    && (forall j :: 0 <= j < n ==> Count(s, points[j]) <= Count(s, points[i]))
  }

  /** The first of the points that lie in the most intervals. */
  ghost predicate IsFirstBest<V>(s: seq<Indexed<V>>, points: seq<int>, best: int) {
    exists i: nat :: BestUpTo(s, points, |points|, i) && points[i] == best
  }

  function Midpoints<V>(s: seq<Indexed<V>>): (r: seq<int>)
    ensures |r| == |s|
    ensures forall k :: 0 <= k < |s| ==> r[k] == s[k].interval.low + (s[k].interval.high - s[k].interval.low) / 2
  {
    seq(|s|, k requires 0 <= k < |s| => s[k].interval.low + (s[k].interval.high - s[k].interval.low) / 2)
  }

  /** The loop over candidate points: the first of the best, unless none lies in an interval. */
  method PickBest<V>(s: seq<Indexed<V>>, points: seq<int>) returns (best: int, bestCount: nat)
    ensures if bestCount == 0 then forall k :: 0 <= k < |points| ==> Count(s, points[k]) == 0
            else bestCount == Count(s, best) && IsFirstBest(s, points, best)
  {
    bestCount, best := 0, 0;
    ghost var at := 0;
    for i := 0 to |points|
      invariant bestCount == 0 ==> forall k :: 0 <= k < i ==> Count(s, points[k]) == 0
      invariant bestCount > 0 ==>
        BestUpTo(s, points, i, at) && points[at] == best && bestCount == Count(s, best)
    {
      var count := ContainingIntervalCount(s, points[i]);
      if count > bestCount {
        bestCount, best := count, points[i];
        at := i;
      }
    }
  }

  /** The first of the best grid points; if none lies in an interval, the first of the best
      midpoints, and these always do. Whatever the grid, the point lies in an interval. */
  method PickPointForSplitting<V>(s: seq<Indexed<V>>, grid: seq<int>) returns (best: int)
    requires s != [] && AllProper(s)
    ensures exists k :: 0 <= k < |s| && s[k].Has(best)
    ensures if exists k :: 0 <= k < |grid| && Count(s, grid[k]) > 0 then IsFirstBest(s, grid, best)
            else IsFirstBest(s, Midpoints(s), best)
  {
    hide IsFirstBest;
    var bestCount;
    best, bestCount := PickBest(s, grid);
    if bestCount == 0 {
      best, bestCount := PickBest(s, Midpoints(s));
      assert s[0].Has(Midpoints(s)[0]);
      CountPositive(s, Midpoints(s)[0]);
    } else {
      GridHit(s, grid, best);
    }
    assert bestCount != 0;
    CountPositive(s, best);
  }

  lemma GridHit<V>(s: seq<Indexed<V>>, grid: seq<int>, best: int)
    requires IsFirstBest(s, grid, best) && Count(s, best) > 0
    ensures exists k :: 0 <= k < |grid| && Count(s, grid[k]) > 0
  {
  }

  ghost predicate AllBelow<V(!new)>(s: seq<Indexed<V>>, p: int) {
    forall k :: 0 <= k < |s| ==> s[k].interval.high < p
  }

  ghost predicate AllAbove<V(!new)>(s: seq<Indexed<V>>, p: int) {
    forall k :: 0 <= k < |s| ==> p < s[k].interval.low
  }

  ghost predicate AllHit<V(!new)>(s: seq<Indexed<V>>, p: int) {
    forall k :: 0 <= k < |s| ==> s[k].Has(p)
  }

  /** The three parts together hold the same intervals as `s`, on their sides of `p`. */
  ghost predicate SplitAt<V(!new)>(s: seq<Indexed<V>>, p: int, less: seq<Indexed<V>>, more: seq<Indexed<V>>,
                                   hit: seq<Indexed<V>>) {
    && multiset(less) + multiset(more) + multiset(hit) == multiset(s) && |less| + |more| + |hit| == |s|
    && AllBelow(less, p) && AllAbove(more, p) && AllHit(hit, p)
  }

  lemma SplitMore<V(!new)>(s: seq<Indexed<V>>, p: int, less: seq<Indexed<V>>, more: seq<Indexed<V>>,
                           hit: seq<Indexed<V>>, x: Indexed<V>)
    requires SplitAt(s, p, less, more, hit)
    ensures x.interval.high < p ==> SplitAt(s + [x], p, less + [x], more, hit)
    ensures p < x.interval.low ==> SplitAt(s + [x], p, less, more + [x], hit)
    ensures x.Has(p) ==> SplitAt(s + [x], p, less, more, hit + [x])
  {
  }

  lemma SplitNothing<V(!new)>(p: int)
    ensures SplitAt<V>([], p, [], [], [])
  {
  }

  /** Three-way split; every interval goes to one part and the middle one is not empty. */
  method Split<V(!new)>(s: seq<Indexed<V>>, grid: seq<int>)
    returns (less: seq<Indexed<V>>, more: seq<Indexed<V>>, intersecting: seq<Indexed<V>>, point: int)
    requires s != [] && AllProper(s)
    ensures SplitAt(s, point, less, more, intersecting) && intersecting != []
  {
    point := PickPointForSplitting(s, grid);
    ghost var hit: nat :| hit < |s| && s[hit].Has(point);
    hide *;
    less, more, intersecting := SplitBy(s, point);
    HitIsThere(s, point, less, more, intersecting, hit);
  }

  lemma HitIsThere<V(!new)>(s: seq<Indexed<V>>, p: int, less: seq<Indexed<V>>, more: seq<Indexed<V>>,
                            hit: seq<Indexed<V>>, k: nat)
    requires SplitAt(s, p, less, more, hit) && k < |s| && s[k].Has(p)
    ensures s[k] in hit
  {
    assert s[k] in multiset(s);
    assert s[k] !in less && s[k] !in more;
  }

  /** The loop of the split. */
  method SplitBy<V(!new)>(s: seq<Indexed<V>>, point: int)
    returns (less: seq<Indexed<V>>, more: seq<Indexed<V>>, intersecting: seq<Indexed<V>>)
    ensures SplitAt(s, point, less, more, intersecting)
  {
    hide *;
    SplitNothing<V>(point);
    NoneYet(s);
    less, more, intersecting := [], [], [];
    for k := 0 to |s|
      invariant SplitAt(s[..k], point, less, more, intersecting)
    {
      OneMore(s, k);
      SplitMore(s[..k], point, less, more, intersecting, s[k]);
      HasIs(s[k], point);
      if s[k].interval.high < point {
        less := less + [s[k]];
      } else if s[k].interval.low > point {
        more := more + [s[k]];
      } else {
        intersecting := intersecting + [s[k]];
      }
    }
    assert s[..|s|] == s;
  }

  lemma NoneYet<V>(s: seq<Indexed<V>>)
    ensures s[..0] == []
  {
  }

  lemma OneMore<V>(s: seq<Indexed<V>>, k: nat)
    requires k < |s|
    ensures s[..k + 1] == s[..k] + [s[k]]
  {
  }

  lemma HasIs<V(!new)>(x: Indexed<V>, p: int)
    ensures x.Has(p) <==> x.interval.low <= p <= x.interval.high
  {
  }

  // ---------- the tree ----------

  datatype Tree<V> =
    | Empty
    | Node(mid: int, minSorted: seq<Indexed<V>>, maxSorted: seq<Indexed<V>>, less: Tree<V>, more: Tree<V>)

  ghost function Contents<V(!new)>(t: Tree<V>): multiset<Indexed<V>> {
    match t
    case Empty => multiset{}
    case Node(_, mins, _, less, more) => multiset(mins) + Contents(less) + Contents(more)
  }

  predicate LowFirst<V>(a: Indexed<V>, b: Indexed<V>) {
    a.interval.low <= b.interval.low
  }

  predicate HighFirst<V>(a: Indexed<V>, b: Indexed<V>) {
    a.interval.high >= b.interval.high
  }

  ghost predicate NodeOk<V(!new)>(t: Tree<V>)
    requires t.Node?
  {
    && multiset(t.minSorted) == multiset(t.maxSorted)
    && Ordered(LowFirst, t.minSorted) && Ordered(HighFirst, t.maxSorted)
    && AllHit(t.minSorted, t.mid)
    && (forall x :: x in Contents(t.less) ==> x.interval.high < t.mid)
    && (forall x :: x in Contents(t.more) ==> t.mid < x.interval.low)
  }

  ghost predicate Valid<V(!new)>(t: Tree<V>) {
    t.Node? ==> NodeOk(t) && Valid(t.less) && Valid(t.more)
  }

  method SortBothWays<V(!new)>(s: seq<Indexed<V>>, ghost p: int) returns (mins: seq<Indexed<V>>, maxs: seq<Indexed<V>>)
    requires AllHit(s, p)
    ensures multiset(mins) == multiset(maxs) == multiset(s) && AllHit(mins, p)
    ensures Ordered(LowFirst, mins) && Ordered(HighFirst, maxs)
  {
    mins := Sort(s, LowFirst);
    maxs := Sort(mins, HighFirst);
    SameElements(mins, s);
    forall k | 0 <= k < |mins| ensures mins[k].Has(p) {
      assert mins[k] in mins;
    }
  }

  /** The parts of a split and the subtrees built from two of them make a valid node. */
  lemma NodeFits<V(!new)>(t: Tree<V>, less: seq<Indexed<V>>, more: seq<Indexed<V>>)
    requires t.Node? && multiset(t.minSorted) == multiset(t.maxSorted) && AllHit(t.minSorted, t.mid)
    requires Ordered(LowFirst, t.minSorted) && Ordered(HighFirst, t.maxSorted)
    requires Contents(t.less) == multiset(less) && AllBelow(less, t.mid)
    requires Contents(t.more) == multiset(more) && AllAbove(more, t.mid)
    ensures NodeOk(t)
  {
    forall x | x in Contents(t.less) ensures x.interval.high < t.mid {
      assert x in less;
    }
    forall x | x in Contents(t.more) ensures t.mid < x.interval.low {
      assert x in more;
    }
  }

  /** For any choice of candidate points the construction ends, and the tree holds exactly
      the given intervals. */
  method BuildTree<V(!new)>(s: seq<Indexed<V>>, grid: seq<Indexed<V>> -> seq<int>) returns (t: Tree<V>)
    requires AllProper(s)
    ensures Valid(t) && Contents(t) == multiset(s)
    decreases |s|
  {
    if s == [] {
      return Empty;
    }
    var less, more, intersecting, point := Split(s, grid(s));
    hide AllBelow, AllAbove, AllHit, Ordered, NodeOk;
    PartProper(s, less, more + intersecting);
    PartProper(s, more, less + intersecting);
    hide AllProper;
    var lessTree := BuildTree(less, grid);
    var moreTree := BuildTree(more, grid);
    var mins, maxs := SortBothWays(intersecting, point);
    t := Node(point, mins, maxs, lessTree, moreTree);
    NodeFits(t, less, more);
  }

  lemma PartProper<V(!new)>(s: seq<Indexed<V>>, part: seq<Indexed<V>>, rest: seq<Indexed<V>>)
    requires AllProper(s) && multiset(s) == multiset(part) + multiset(rest)
    ensures AllProper(part)
  {
    forall k | 0 <= k < |part| ensures part[k].interval.low <= part[k].interval.high {
      assert part[k] in multiset(part);
      assert part[k] in multiset(s);
      assert part[k] in s;
    }
  }

  // ---------- point lookup ----------

  /** `out` holds the elements of `all` that contain `p`, as often as `all` does. */
  ghost predicate Stabbed<V(!new)>(out: multiset<Indexed<V>>, all: multiset<Indexed<V>>, p: int) {
    forall x :: out[x] == if x.Has(p) then all[x] else 0
  }

  lemma PrefixStabbed<V(!new)>(s: seq<Indexed<V>>, k: nat, p: int)
    requires k <= |s|
    requires forall i :: 0 <= i < |s| ==> (s[i].Has(p) <==> i < k)
    ensures Stabbed(multiset(s[..k]), multiset(s), p)
  {
    assert s == s[..k] + s[k..];
    assert multiset(s) == multiset(s[..k]) + multiset(s[k..]);
    forall x ensures multiset(s[..k])[x] == if x.Has(p) then multiset(s)[x] else 0 {
      assert x in s[..k] ==> x.Has(p);
      assert x in s[k..] ==> !x.Has(p);
      assert x in multiset(s[..k]) ==> x in s[..k];
      assert x in multiset(s[k..]) ==> x in s[k..];
    }
  }

  /** What a node adds to what the subtree on the side of `p` reports. */
  lemma StabbedNode<V(!new)>(t: Tree<V>, own: multiset<Indexed<V>>, side: multiset<Indexed<V>>, p: int)
    requires t.Node? && NodeOk(t) && Stabbed(own, multiset(t.minSorted), p)
    requires p < t.mid ==> Stabbed(side, Contents(t.less), p)
    requires p > t.mid ==> Stabbed(side, Contents(t.more), p)
    requires p == t.mid ==> side == multiset{}
    ensures Stabbed(own + side, Contents(t), p)
  {
    forall x ensures (own + side)[x] == if x.Has(p) then Contents(t)[x] else 0 {
      assert p >= t.mid && x.Has(p) ==> x !in Contents(t.less);
      assert p <= t.mid && x.Has(p) ==> x !in Contents(t.more);
      assert own[x] == if x.Has(p) then multiset(t.minSorted)[x] else 0;
    }
  }

  /** The intervals of one node that contain a point left of its middle. */
  method ScanLeft<V(!new)>(t: Tree<V>, p: int) returns (out: seq<Indexed<V>>)
    requires t.Node? && NodeOk(t) && p < t.mid
    ensures Stabbed(multiset(out), multiset(t.minSorted), p)
  {
    var s := t.minSorted;
    out := [];
    var k := 0;
    while k < |s| && s[k].interval.low <= p
      invariant 0 <= k <= |s| && out == s[..k]
      invariant forall i :: 0 <= i < k ==> s[i].interval.low <= p
    {
      out := out + [s[k]];
      k := k + 1;
    }
    forall i | 0 <= i < |s| ensures s[i].Has(p) <==> i < k {
      assert s[i] in t.minSorted;
      assert k < i ==> LowFirst(s[k], s[i]);
    }
    PrefixStabbed(s, k, p);
  }

  method ScanRight<V(!new)>(t: Tree<V>, p: int) returns (out: seq<Indexed<V>>)
    requires t.Node? && NodeOk(t) && p > t.mid
    ensures Stabbed(multiset(out), multiset(t.minSorted), p)
  {
    var s := t.maxSorted;
    out := [];
    var k := 0;
    while k < |s| && s[k].interval.high >= p
      invariant 0 <= k <= |s| && out == s[..k]
      invariant forall i :: 0 <= i < k ==> s[i].interval.high >= p
    {
      out := out + [s[k]];
      k := k + 1;
    }
    SameElements(s, t.minSorted);
    forall i | 0 <= i < |s| ensures s[i].Has(p) <==> i < k {
      assert s[i] in s;
      assert k < i ==> HighFirst(s[k], s[i]);
    }
    PrefixStabbed(s, k, p);
  }

  /** Reports exactly the intervals that contain the point. */
  method Lookup<V(!new)>(t: Tree<V>, p: int) returns (out: seq<Indexed<V>>)
    requires Valid(t)
    ensures Stabbed(multiset(out), Contents(t), p)
  {
    if t.Empty? {
      return [];
    }
    hide Stabbed, NodeOk;
    if p < t.mid {
      var own := ScanLeft(t, p);
      var side := Lookup(t.less, p);
      out := own + side;
      StabbedNode(t, multiset(own), multiset(side), p);
    } else if p > t.mid {
      var own := ScanRight(t, p);
      var side := Lookup(t.more, p);
      out := own + side;
      StabbedNode(t, multiset(own), multiset(side), p);
    } else {
      out := t.minSorted;
      AllStabbed(t);
      StabbedNode(t, multiset(out), multiset{}, p);
      assert multiset(out) + multiset{} == multiset(out);
    }
  }

  lemma AllStabbed<V(!new)>(t: Tree<V>)
    requires t.Node? && NodeOk(t)
    ensures Stabbed(multiset(t.minSorted), multiset(t.minSorted), t.mid)
  {
    forall x ensures multiset(t.minSorted)[x] == if x.Has(t.mid) then multiset(t.minSorted)[x] else 0 {
      assert x in multiset(t.minSorted) ==> x in t.minSorted;
    }
  }

  // ---------- the root ----------

  /** The tree and the end points of all its intervals in increasing order. */
  datatype TreeRoot<V> = TreeRoot(root: Tree<V>, sorted: seq<(int, Indexed<V>)>)

  function Walk<V(!new)>(t: Tree<V>): (s: seq<Indexed<V>>)
    ensures multiset(s) == Contents(t)
  {
    match t
    case Empty => []
    case Node(_, mins, _, less, more) => mins + Walk(less) + Walk(more)
  }

  function AssignIndices<V>(intervals: seq<Interval<V>>): (r: seq<Indexed<V>>)
    ensures |r| == |intervals|
  {
    seq(|intervals|, i requires 0 <= i < |intervals| => Indexed(intervals[i], i))
  }

  ghost predicate Holds<V(!new)>(intervals: seq<Interval<V>>, x: Indexed<V>) {
    x.index < |intervals| && intervals[x.index] == x.interval
  }

  predicate PointFirst<V>(a: (int, Indexed<V>), b: (int, Indexed<V>)) {
    a.0 <= b.0
  }

  ghost predicate RootOk<V(!new)>(r: TreeRoot<V>, intervals: seq<Interval<V>>) {
    && Valid(r.root) && Contents(r.root) == multiset(AssignIndices(intervals))
    && (forall k :: 0 <= k < |intervals| ==> intervals[k].low <= intervals[k].high)
    && Ordered(PointFirst, r.sorted) && |r.sorted| == 2 * |intervals|
    && (forall x :: Holds(intervals, x) ==> (x.interval.low, x) in r.sorted && (x.interval.high, x) in r.sorted)
    && (forall e :: e in r.sorted ==> Holds(intervals, e.1) && (e.0 == e.1.interval.low || e.0 == e.1.interval.high))
  }

  lemma AssignedIndices<V(!new)>(intervals: seq<Interval<V>>, x: Indexed<V>)
    ensures multiset(AssignIndices(intervals))[x] == if Holds(intervals, x) then 1 else 0
  {
    var s := AssignIndices(intervals);
    if Holds(intervals, x) {
      var k := x.index;
      assert s == s[..k] + [s[k]] + s[k + 1..];
      assert multiset(s) == multiset(s[..k]) + multiset{s[k]} + multiset(s[k + 1..]);
      assert x !in s[..k] && x !in s[k + 1..];
    } else {
      assert x !in s;
    }
  }

  method Endpoints<V(!new)>(s: seq<Indexed<V>>) returns (out: seq<(int, Indexed<V>)>)
    ensures |out| == 2 * |s|
    ensures forall k :: 0 <= k < |s| ==> (s[k].interval.low, s[k]) in out && (s[k].interval.high, s[k]) in out
    ensures forall e :: e in out ==> e.1 in s && (e.0 == e.1.interval.low || e.0 == e.1.interval.high)
  {
    out := [];
    for k := 0 to |s|
      invariant |out| == 2 * k
      invariant forall h :: 0 <= h < k ==> (s[h].interval.low, s[h]) in out && (s[h].interval.high, s[h]) in out
      invariant forall e :: e in out ==> e.1 in s && (e.0 == e.1.interval.low || e.0 == e.1.interval.high)
    {
      out := out + [(s[k].interval.low, s[k])] + [(s[k].interval.high, s[k])];
    }
  }

  method MakeTreeRoot<V(!new)>(intervals: seq<Interval<V>>, grid: seq<Indexed<V>> -> seq<int>) returns (r: TreeRoot<V>)
    requires forall k :: 0 <= k < |intervals| ==> intervals[k].low <= intervals[k].high
    ensures RootOk(r, intervals)
  {
    var root := BuildTree(AssignIndices(intervals), grid);
    var walked := Walk(root);
    var points := Endpoints(walked);
    var sorted := Sort(points, PointFirst);
    SameElements(sorted, points);
    SameElements(walked, AssignIndices(intervals));
    WalkedHolds(intervals, walked);
    r := TreeRoot(root, sorted);
  }

  lemma WalkedHolds<V(!new)>(intervals: seq<Interval<V>>, walked: seq<Indexed<V>>)
    requires multiset(walked) == multiset(AssignIndices(intervals))
    ensures |walked| == |intervals| && forall x :: x in walked <==> Holds(intervals, x)
  {
    assert |multiset(walked)| == |walked| && |multiset(AssignIndices(intervals))| == |intervals|;
    forall x ensures x in walked <==> Holds(intervals, x) {
      AssignedIndices(intervals, x);
      assert x in walked <==> x in multiset(walked);
    }
  }

  // ---------- range lookup ----------

  /** The consumed bits say which intervals are in `out`, and none is in it twice. */
  ghost predicate Reported<V(!new)>(intervals: seq<Interval<V>>, out: seq<Indexed<V>>, consumed: seq<bool>) {
    && |consumed| == |intervals|
    && (forall x :: x in out <==> Holds(intervals, x) && consumed[x.index])
    && (forall i, j :: 0 <= i < j < |out| ==> out[i].index != out[j].index)
  }

  method Consume<V(!new)>(ghost intervals: seq<Interval<V>>, out: seq<Indexed<V>>, consumed: seq<bool>, x: Indexed<V>)
    returns (out': seq<Indexed<V>>, consumed': seq<bool>)
    requires Reported(intervals, out, consumed) && Holds(intervals, x)
    ensures Reported(intervals, out', consumed')
    ensures forall y :: y in out' <==> y in out || y == x
  {
    out', consumed' := out, consumed;
    if !consumed[x.index] {
      out' := out + [x];
      consumed' := consumed[x.index := true];
      forall y ensures y in out' <==> Holds(intervals, y) && consumed'[y.index] {
        assert y in out <==> Holds(intervals, y) && consumed[y.index];
      }
      assert forall k :: 0 <= k < |out| ==> out[k] in out;
    }
  }

  lemma NoIntervals<V(!new)>(r: TreeRoot<V>, intervals: seq<Interval<V>>)
    requires RootOk(r, intervals) && r.root.Empty?
    ensures intervals == []
  {
    assert |multiset(AssignIndices(intervals))| == |intervals|;
  }

  lemma StabbedHolds<V(!new)>(r: TreeRoot<V>, intervals: seq<Interval<V>>, stabbed: seq<Indexed<V>>, p: int)
    requires RootOk(r, intervals) && Stabbed(multiset(stabbed), Contents(r.root), p)
    ensures forall x :: x in stabbed <==> Holds(intervals, x) && x.Has(p)
  {
    forall x ensures x in stabbed <==> Holds(intervals, x) && x.Has(p) {
      AssignedIndices(intervals, x);
      assert x in stabbed <==> x in multiset(stabbed);
      assert multiset(stabbed)[x] == if x.Has(p) then Contents(r.root)[x] else 0;
    }
  }

  predicate EndsIn<V>(x: Indexed<V>, min: int, max: int) {
    min <= x.interval.low <= max || min <= x.interval.high <= max
  }

  lemma EndsAreIn<V(!new)>(r: TreeRoot<V>, intervals: seq<Interval<V>>, min: int, max: int, first: nat, it: nat,
                           x: Indexed<V>)
    requires RootOk(r, intervals) && first <= it <= |r.sorted|
    requires forall k :: 0 <= k < |r.sorted| ==> (k < first <==> r.sorted[k].0 < min)
    requires forall k :: first <= k < it ==> r.sorted[k].0 <= max
    requires it < |r.sorted| ==> r.sorted[it].0 > max
    ensures (exists k :: first <= k < it && r.sorted[k].1 == x) <==> Holds(intervals, x) && EndsIn(x, min, max)
  {
    hide Valid, Contents;
    if k :| first <= k < it && r.sorted[k].1 == x {
      assert r.sorted[k] in r.sorted;
    }
    if Holds(intervals, x) && EndsIn(x, min, max) {
      var v := if min <= x.interval.low <= max then x.interval.low else x.interval.high;
      assert (v, x) in r.sorted;
      var k: nat :| k < |r.sorted| && r.sorted[k] == (v, x);
      WithinScan(r.sorted, min, max, first, it, k);
    }
  }

  lemma WithinScan<V(!new)>(sorted: seq<(int, Indexed<V>)>, min: int, max: int, first: nat, it: nat, k: nat)
    requires Ordered(PointFirst, sorted) && first <= it <= |sorted| && k < |sorted|
    requires forall j :: 0 <= j < |sorted| ==> (j < first <==> sorted[j].0 < min)
    requires it < |sorted| ==> sorted[it].0 > max
    requires min <= sorted[k].0 <= max
    ensures first <= k < it
  {
    if it < |sorted| {
      assert it < k ==> PointFirst(sorted[it], sorted[k]);
    }
  }

  method FirstNotBelow<V(!new)>(sorted: seq<(int, Indexed<V>)>, min: int) returns (first: nat)
    requires Ordered(PointFirst, sorted)
    ensures first <= |sorted| && forall k :: 0 <= k < |sorted| ==> (k < first <==> sorted[k].0 < min)
  {
    first := LowerBound(sorted, (e: (int, Indexed<V>)) => e.0 < min);
  }

  lemma RootEntries<V(!new)>(r: TreeRoot<V>, intervals: seq<Interval<V>>)
    requires RootOk(r, intervals)
    ensures Valid(r.root) && Ordered(PointFirst, r.sorted) && |r.sorted| == 2 * |intervals|
    ensures forall k :: 0 <= k < |intervals| ==> intervals[k].low <= intervals[k].high
    ensures forall k :: 0 <= k < |r.sorted| ==> Holds(intervals, r.sorted[k].1)
  {
  }

  lemma NoneReported<V(!new)>(intervals: seq<Interval<V>>)
    ensures Reported(intervals, [], seq(|intervals|, _ => false))
  {
  }

  lemma ReportedOnce<V(!new)>(intervals: seq<Interval<V>>, out: seq<Indexed<V>>, consumed: seq<bool>)
    requires Reported(intervals, out, consumed)
    ensures forall i, j :: 0 <= i < j < |out| ==> out[i].index != out[j].index
  {
  }

  /** The first pass: intervals with an end point in the range. */
  method ScanEnds<V(!new)>(r: TreeRoot<V>, min: int, max: int, ghost intervals: seq<Interval<V>>)
    returns (out: seq<Indexed<V>>, consumed: seq<bool>)
    requires RootOk(r, intervals)
    ensures Reported(intervals, out, consumed)
    ensures forall x :: x in out <==> Holds(intervals, x) && EndsIn(x, min, max)
  {
    hide RootOk, Reported, Holds, EndsIn, Valid, Contents, Ordered;
    RootEntries(r, intervals);
    consumed := seq(|r.sorted| / 2, _ => false);
    out := [];
    NoneReported(intervals);
    var first := FirstNotBelow(r.sorted, min);
    var it := first;
    while it < |r.sorted| && r.sorted[it].0 <= max
      invariant first <= it <= |r.sorted| && Reported(intervals, out, consumed)
      invariant forall k :: first <= k < it ==> r.sorted[k].0 <= max
      invariant forall x :: x in out ==> exists k :: first <= k < it && r.sorted[k].1 == x
      invariant forall k :: first <= k < it ==> r.sorted[k].1 in out
    {
      out, consumed := Consume(intervals, out, consumed, r.sorted[it].1);
      it := it + 1;
    }
    forall x ensures x in out <==> Holds(intervals, x) && EndsIn(x, min, max) {
      EndsAreIn(r, intervals, min, max, first, it, x);
    }
  }

  /** The second pass: adds the given intervals. */
  method ConsumeAll<V(!new)>(ghost intervals: seq<Interval<V>>, found: seq<Indexed<V>>, out: seq<Indexed<V>>,
                             consumed: seq<bool>)
    returns (out': seq<Indexed<V>>, ghost consumed': seq<bool>)
    requires Reported(intervals, out, consumed) && forall k :: 0 <= k < |found| ==> Holds(intervals, found[k])
    ensures Reported(intervals, out', consumed')
    ensures forall x :: x in out' <==> x in out || x in found
  {
    hide Reported, Holds;
    out' := out;
    var bits := consumed;
    for k := 0 to |found|
      invariant Reported(intervals, out', bits)
      invariant forall x :: x in out' ==> x in out || x in found
      invariant forall x :: x in out ==> x in out'
      invariant forall j :: 0 <= j < k ==> found[j] in out'
    {
      out', bits := Consume(intervals, out', bits, found[k]);
    }
    consumed' := bits;
  }

  /** Reports every interval that overlaps the range exactly once, and no other. */
  method LookupRange<V(!new)>(r: TreeRoot<V>, min: int, max: int, ghost intervals: seq<Interval<V>>)
    returns (out: seq<Indexed<V>>)
    requires RootOk(r, intervals) && min <= max
    ensures forall x :: x in out <==> Holds(intervals, x) && x.Overlaps(min, max)
    ensures forall i, j :: 0 <= i < j < |out| ==> out[i].index != out[j].index
  {
    hide RootOk, Reported, Valid, Contents, Ordered, Stabbed;
    if r.root.Empty? {
      NoIntervals(r, intervals);
      return [];
    }
    RootEntries(r, intervals);
    var ends, consumed := ScanEnds(r, min, max, intervals);
    var point := min + (max - min) / 2;
    assert point >= min;
    var stabbed := Lookup(r.root, point);
    StabbedHolds(r, intervals, stabbed, point);
    ghost var bits;
    out, bits := ConsumeAll(intervals, stabbed, ends, consumed);
    ReportedOnce(intervals, out, bits);
  }
}
