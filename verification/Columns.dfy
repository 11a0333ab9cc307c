/** Indices over an integer column, each of which must agree with a plain scan of it. */
module Columns {
  import opened Sorting
  import opened Ranges
  import opened IntervalTree
  import PackedInts

  ghost predicate Between(c: seq<int>, i: nat, from: int, to: int) {
    i < |c| && from <= c[i] <= to
  }

  /** The answer that a plain scan gives: non-empty ranges, pairwise disjoint, that hold
      exactly the indices with a value in `[from, to]`. */
  ghost predicate MatchesScan(c: seq<int>, from: int, to: int, out: seq<Range>) {
    && (forall k :: 0 <= k < |out| ==> out[k].count > 0)
    && Disjoint(out)
    && (forall x: nat :: Covers(out, x) <==> Between(c, x, from, to))
  }

  ghost predicate Disjoint(out: seq<Range>) {
    forall j, k, x: nat :: 0 <= j < k < |out| && In(out[j], x) ==> !In(out[k], x)
  }

  // ---------- monotone runs ----------

  /** A run of the column that goes up or down throughout. */
  datatype SortedSubsequence = SortedSubsequence(range: Range, increasing: bool)

  ghost predicate Monotone(c: seq<int>, sub: SortedSubsequence) {
    && sub.range.count > 0 && sub.range.End() <= |c|
    && (forall i, j :: sub.range.first <= i < j < sub.range.End() ==>
          if sub.increasing then c[i] <= c[j] else c[i] >= c[j])
  }

  /** The run cannot be extended to the right. */
  ghost predicate Maximal(c: seq<int>, sub: SortedSubsequence) {
    && 2 <= sub.range.count && sub.range.End() < |c|
    && var e := sub.range.End(); if sub.increasing then c[e - 1] > c[e] else c[e - 1] < c[e]
  }

  /** The first two values decide on the direction; equal ones go up. */
  ghost predicate FirstStepCounts(c: seq<int>, sub: SortedSubsequence) {
    2 <= sub.range.count && sub.range.End() <= |c| ==>
      (sub.increasing <==> c[sub.range.first] <= c[sub.range.first + 1])
  }

  /** A run of one value has the direction of the run before; with none before it goes up. */
  ghost predicate SingleGoesOn(subs: seq<SortedSubsequence>, k: nat)
    requires k < |subs|
  {
    subs[k].range.count == 1 ==> (subs[k].increasing <==> k == 0 || subs[k - 1].increasing)
  }

  /** Runs that follow one another from the start of the column up to `end`. */
  ghost predicate Tiles(subs: seq<SortedSubsequence>, end: nat) {
    && (subs == [] ==> end == 0)
    && (subs != [] ==> subs[0].range.first == 0 && subs[|subs| - 1].range.End() == end)
    && (forall k :: 0 <= k < |subs| - 1 ==> subs[k].range.End() == subs[k + 1].range.first)
  }

  lemma SingleRun(c: seq<int>, sub: SortedSubsequence)
    requires sub.range.count == 1 && sub.range.End() <= |c|
    ensures Monotone(c, sub)
  {
  }

  lemma AppendRun(subs: seq<SortedSubsequence>, sub: SortedSubsequence)
    requires Tiles(subs, sub.range.first)
    ensures Tiles(subs + [sub], sub.range.End())
  {
  }

  lemma ExtendRun(c: seq<int>, sub: SortedSubsequence)
    requires Monotone(c, sub) && sub.range.End() < |c|
    requires var e := sub.range.End(); if sub.increasing then c[e - 1] <= c[e] else c[e - 1] >= c[e]
    ensures Monotone(c, sub.(range := Range(sub.range.first, sub.range.count + 1)))
  {
  }

  lemma EndRun(c: seq<int>, sub: SortedSubsequence)
    requires 2 <= sub.range.count && sub.range.End() < |c|
    requires var e := sub.range.End(); if sub.increasing then c[e - 1] > c[e] else c[e - 1] < c[e]
    ensures Maximal(c, sub)
  {
  }

  lemma NoRuns()
    ensures Tiles([], 0)
  {
  }

  /** The runs that are finished, up to `end`. */
  ghost predicate Finished(c: seq<int>, subs: seq<SortedSubsequence>, end: nat) {
    && Tiles(subs, end)
    && (forall k :: 0 <= k < |subs| ==> Monotone(c, subs[k]) && Maximal(c, subs[k]) && FirstStepCounts(c, subs[k]))
  }

  /** The run that is being extended. */
  ghost predicate Current(c: seq<int>, subs: seq<SortedSubsequence>, run: SortedSubsequence) {
    && Monotone(c, run) && FirstStepCounts(c, run)
    && (run.range.count == 1 ==> (run.increasing <==> subs == [] || subs[|subs| - 1].increasing))
  }

  lemma FirstRun(c: seq<int>)
    requires c != []
    ensures Finished(c, [], 0) && Current(c, [], SortedSubsequence(Range(0, 1), true))
  {
    SingleRun(c, SortedSubsequence(Range(0, 1), true));
  }

  lemma SetDirection(c: seq<int>, subs: seq<SortedSubsequence>, range: Range)
    requires range.count == 1 && range.End() < |c|
    ensures Current(c, subs, SortedSubsequence(Range(range.first, 2), c[range.first] <= c[range.first + 1]))
  {
    var single := SortedSubsequence(range, c[range.first] <= c[range.first + 1]);
    SingleRun(c, single);
    ExtendRun(c, single);
  }

  lemma ExtendCurrent(c: seq<int>, subs: seq<SortedSubsequence>, run: SortedSubsequence)
    requires Current(c, subs, run) && 2 <= run.range.count && run.range.End() < |c|
    requires var e := run.range.End(); if run.increasing then c[e - 1] <= c[e] else c[e - 1] >= c[e]
    ensures Current(c, subs, run.(range := Range(run.range.first, run.range.count + 1)))
  {
    ExtendRun(c, run);
  }

  lemma CloseRun(c: seq<int>, subs: seq<SortedSubsequence>, run: SortedSubsequence)
    requires Finished(c, subs, run.range.first) && Current(c, subs, run)
    requires 2 <= run.range.count && run.range.End() < |c|
    requires var e := run.range.End(); if run.increasing then c[e - 1] > c[e] else c[e - 1] < c[e]
    ensures Finished(c, subs + [run], run.range.End())
    ensures Current(c, subs + [run], SortedSubsequence(Range(run.range.End(), 1), run.increasing))
  {
    EndRun(c, run);
    AppendRun(subs, run);
    SingleRun(c, SortedSubsequence(Range(run.range.End(), 1), run.increasing));
    hide Monotone, Maximal, Tiles, FirstStepCounts;
  }

  lemma LongRuns(c: seq<int>, subs: seq<SortedSubsequence>, end: nat)
    requires Finished(c, subs, end)
    ensures Tiles(subs, end)
    ensures forall k :: 0 <= k < |subs| ==> Monotone(c, subs[k]) && Maximal(c, subs[k])
    ensures forall k :: 0 <= k < |subs| ==> FirstStepCounts(c, subs[k]) && subs[k].range.count >= 2
  {
    hide Monotone, Tiles, FirstStepCounts;
  }

  lemma CurrentParts(c: seq<int>, subs: seq<SortedSubsequence>, run: SortedSubsequence)
    requires Current(c, subs, run)
    ensures Monotone(c, run) && FirstStepCounts(c, run)
    ensures run.range.count == 1 ==> (run.increasing <==> subs == [] || subs[|subs| - 1].increasing)
  {
  }

  lemma SinglesGoOn(subs: seq<SortedSubsequence>, run: SortedSubsequence)
    requires forall k :: 0 <= k < |subs| ==> subs[k].range.count >= 2
    requires run.range.count == 1 ==> (run.increasing <==> subs == [] || subs[|subs| - 1].increasing)
    ensures forall k: nat :: k < |subs + [run]| ==> SingleGoesOn(subs + [run], k)
  {
  }

  lemma LastRun(c: seq<int>, subs: seq<SortedSubsequence>, run: SortedSubsequence)
    requires Finished(c, subs, run.range.first) && Current(c, subs, run)
    ensures var all := subs + [run];
      && Tiles(all, run.range.End())
      && (forall k :: 0 <= k < |all| ==> Monotone(c, all[k]) && FirstStepCounts(c, all[k]))
      && (forall k :: 0 <= k < |all| - 1 ==> Maximal(c, all[k]))
      && (forall k: nat :: k < |all| ==> SingleGoesOn(all, k))
  {
    hide *;
    LongRuns(c, subs, run.range.first);
    CurrentParts(c, subs, run);
    AppendRun(subs, run);
    SinglesGoOn(subs, run);
  }

  /** Greedy split of the column into monotone runs. */
  method Get(c: seq<int>) returns (subs: seq<SortedSubsequence>)
    ensures Tiles(subs, |c|)
    ensures forall k :: 0 <= k < |subs| ==> Monotone(c, subs[k]) && FirstStepCounts(c, subs[k])
    ensures forall k :: 0 <= k < |subs| - 1 ==> Maximal(c, subs[k])
    ensures forall k: nat :: k < |subs| ==> SingleGoesOn(subs, k)
  {
    hide *;
    subs := [];
    NoRuns();
    if c == [] {
      return;
    }
    var current, increasing, isSet := Range(0, 1), true, false;
    FirstRun(c);
    var i := 0;
    while i + 1 < |c|
      invariant 0 <= i < |c| && current.first + current.count == i + 1 && current.count > 0
      invariant isSet <==> current.count >= 2
      invariant Finished(c, subs, current.first) && Current(c, subs, SortedSubsequence(current, increasing))
    {
      EndIs(current);
      var at, next := c[i], c[i + 1];
      if !isSet {
        SetDirection(c, subs, current);
        isSet := true;
        increasing := at <= next;
        current := Range(current.first, current.count + 1);
      } else if (increasing && at <= next) || (!increasing && at >= next) {
        ExtendCurrent(c, subs, SortedSubsequence(current, increasing));
        current := Range(current.first, current.count + 1);
      } else {
        CloseRun(c, subs, SortedSubsequence(current, increasing));
        subs := subs + [SortedSubsequence(current, increasing)];
        isSet := false;
        current := Range(i + 1, 1);
      }
      i := i + 1;
    }
    EndIs(current);
    LastRun(c, subs, SortedSubsequence(current, increasing));
    subs := subs + [SortedSubsequence(current, increasing)];
  }

  lemma EndIs(r: Range)
    ensures r.End() == r.first + r.count
  {
  }

  function MinValue(c: seq<int>, sub: SortedSubsequence): int
    requires Monotone(c, sub)
  {
    if sub.increasing then c[sub.range.first] else c[sub.range.End() - 1]
  }

  function MaxValue(c: seq<int>, sub: SortedSubsequence): int
    requires Monotone(c, sub)
  {
    if sub.increasing then c[sub.range.End() - 1] else c[sub.range.first]
  }

  /** Whether the search for `value` passes over `v`. */
  predicate Below(v: int, value: int, lower: bool) {
    if lower then v < value else v <= value
  }

  /** Binary search in either direction. In a run that goes up the result is the first
      index whose value is not below; in one that goes down it is the last such index, and
      one less than the start of the run when there is none. */
  method Bound(c: seq<int>, sub: SortedSubsequence, value: int, lower: bool) returns (threshold: int)
    requires Monotone(c, sub)
    ensures sub.increasing ==> sub.range.first <= threshold <= sub.range.End()
    ensures !sub.increasing ==> sub.range.first - 1 <= threshold < sub.range.End()
    ensures forall i: nat :: In(sub.range, i) ==>
      (Below(c[i], value, lower) <==> if sub.increasing then i < threshold else i > threshold)
  {
    var first, end := sub.range.first, sub.range.End();
    var count := sub.range.count;
    threshold := if sub.increasing then first else end - 1;
    while count > 0
      invariant count >= 0
      invariant sub.increasing ==> first <= threshold && threshold + count <= end
      invariant !sub.increasing ==> first - 1 <= threshold - count && threshold < end
      invariant Passed(c, sub, value, lower, threshold)
      invariant Ahead(c, sub, value, lower, if sub.increasing then threshold + count else threshold - count)
    {
      var step := count / 2;
      var it := if sub.increasing then threshold + step else threshold - step;
      if Below(c[it], value, lower) {
        PassedTo(c, sub, value, lower, it);
        threshold := if sub.increasing then it + 1 else it - 1;
        count := count - (step + 1);
      } else {
        AheadFrom(c, sub, value, lower, it);
        count := step;
      }
    }
  }

  /** The values of the run before `t`, in its direction, are below. */
  ghost predicate Passed(c: seq<int>, sub: SortedSubsequence, value: int, lower: bool, t: int)
    requires Monotone(c, sub)
  {
    forall i: nat :: In(sub.range, i) && (if sub.increasing then i < t else i > t) ==> Below(c[i], value, lower)
  }

  /** The values from `t` on are not. */
  ghost predicate Ahead(c: seq<int>, sub: SortedSubsequence, value: int, lower: bool, t: int)
    requires Monotone(c, sub)
  {
    forall i: nat :: In(sub.range, i) && (if sub.increasing then i >= t else i <= t) ==> !Below(c[i], value, lower)
  }

  lemma PassedTo(c: seq<int>, sub: SortedSubsequence, value: int, lower: bool, it: nat)
    requires Monotone(c, sub) && In(sub.range, it) && Below(c[it], value, lower)
    ensures Passed(c, sub, value, lower, if sub.increasing then it + 1 else it - 1)
  {
  }

  lemma AheadFrom(c: seq<int>, sub: SortedSubsequence, value: int, lower: bool, it: nat)
    requires Monotone(c, sub) && In(sub.range, it) && !Below(c[it], value, lower)
    ensures Ahead(c, sub, value, lower, it)
  {
  }

  /** The part of a run with values in `[from, to]`. */
  method IndicesOfValuesInRange(c: seq<int>, sub: SortedSubsequence, from: int, to: int) returns (r: Range)
    requires Monotone(c, sub) && from <= to
    ensures PartOf(c, sub, from, to, r)
  {
    var lowerFrom := Bound(c, sub, from, true);
    var lowerTo := Bound(c, sub, to, false);
    assert sub.range.first <= lowerTo < sub.range.End() ==> In(sub.range, lowerTo);
    if sub.increasing {
      r := Range(lowerFrom, lowerTo - lowerFrom);
    } else {
      r := Range(lowerTo + 1, lowerFrom - lowerTo);
    }
  }

  // ---------- the interval index ----------

  /** The column split into monotone runs. */
  ghost predicate RunsOf(c: seq<int>, subs: seq<SortedSubsequence>) {
    Tiles(subs, |c|) && forall k :: 0 <= k < |subs| ==> Monotone(c, subs[k])
  }

  lemma {:induction false} RunsInOrder(c: seq<int>, subs: seq<SortedSubsequence>, i: nat, j: nat)
    requires RunsOf(c, subs) && i < j < |subs|
    ensures subs[i].range.End() <= subs[j].range.first
    decreases j - i
  {
    assert subs[j - 1].range.End() == subs[j - 1 + 1].range.first;
    if i < j - 1 {
      RunsInOrder(c, subs, i, j - 1);
    }
  }

  lemma RunsDisjoint(c: seq<int>, subs: seq<SortedSubsequence>, i: nat, j: nat, x: nat)
    requires RunsOf(c, subs) && i < |subs| && j < |subs| && i != j && In(subs[i].range, x)
    ensures !In(subs[j].range, x)
  {
    if i < j {
      RunsInOrder(c, subs, i, j);
    } else {
      RunsInOrder(c, subs, j, i);
    }
  }

  lemma RunWith(c: seq<int>, subs: seq<SortedSubsequence>, x: nat) returns (k: nat)
    requires RunsOf(c, subs) && x < |c|
    ensures k < |subs| && In(subs[k].range, x)
  {
    k := 0;
    while x >= subs[k].range.End()
      invariant k < |subs| && subs[k].range.first <= x
      decreases |subs| - k
    {
      k := k + 1;
    }
  }

  function Intervals(c: seq<int>, subs: seq<SortedSubsequence>): (r: seq<Interval<SortedSubsequence>>)
    requires forall k :: 0 <= k < |subs| ==> Monotone(c, subs[k])
    ensures |r| == |subs|
  {
    seq(|subs|, k requires 0 <= k < |subs| => Interval(MinValue(c, subs[k]), MaxValue(c, subs[k]), subs[k]))
  }

  datatype SortedIntervalIndex = SortedIntervalIndex(container: seq<int>, root: TreeRoot<SortedSubsequence>)

  ghost predicate IndexOver(ix: SortedIntervalIndex, subs: seq<SortedSubsequence>) {
    RunsOf(ix.container, subs) && RootOk(ix.root, Intervals(ix.container, subs))
  }

  ghost predicate IndexOk(ix: SortedIntervalIndex) {
    exists subs :: IndexOver(ix, subs)
  }

  method MakeIntervalIndex(c: seq<int>, grid: seq<Indexed<SortedSubsequence>> -> seq<int>)
    returns (ix: SortedIntervalIndex)
    ensures ix.container == c && IndexOk(ix)
  {
    hide RootOk;
    var subs := Get(c);
    var root := MakeTreeRoot(Intervals(c, subs), grid);
    ix := SortedIntervalIndex(c, root);
    assert IndexOver(ix, subs);
  }

  lemma RunOverlaps(c: seq<int>, sub: SortedSubsequence, x: nat)
    requires Monotone(c, sub) && In(sub.range, x)
    ensures MinValue(c, sub) <= c[x] <= MaxValue(c, sub)
  {
  }

  /** `r` is the part of the run with values in `[from, to]`. */
  ghost predicate PartOf(c: seq<int>, sub: SortedSubsequence, from: int, to: int, r: Range) {
    forall i: nat :: In(r, i) <==> In(sub.range, i) && Between(c, i, from, to)
  }

  /** Parts of different runs, none of them empty. */
  ghost predicate PartsOf(c: seq<int>, subs: seq<SortedSubsequence>, from: int, to: int, out: seq<Range>,
                          which: seq<nat>) {
    && |which| == |out|
    && (forall j :: 0 <= j < |out| ==>
          which[j] < |subs| && out[j].count > 0 && PartOf(c, subs[which[j]], from, to, out[j]))
    && (forall i, j :: 0 <= i < j < |which| ==> which[i] != which[j])
  }

  lemma PartsDisjoint(c: seq<int>, subs: seq<SortedSubsequence>, from: int, to: int, out: seq<Range>, which: seq<nat>)
    requires RunsOf(c, subs) && PartsOf(c, subs, from, to, out, which)
    ensures Disjoint(out)
  {
    forall j, k, x: nat | 0 <= j < k < |out| && In(out[j], x) ensures !In(out[k], x) {
      assert PartOf(c, subs[which[j]], from, to, out[j]) && PartOf(c, subs[which[k]], from, to, out[k]);
      RunsDisjoint(c, subs, which[j], which[k], x);
    }
  }

  /** Each of the runs in `which` or without a matching value has been dealt with. */
  ghost predicate Handled(c: seq<int>, subs: seq<SortedSubsequence>, from: int, to: int, which: seq<nat>, k: nat)
    requires k < |subs|
  {
    k in which || forall x: nat :: In(subs[k].range, x) ==> !Between(c, x, from, to)
  }

  lemma PartsMatchScan(c: seq<int>, subs: seq<SortedSubsequence>, from: int, to: int, out: seq<Range>, which: seq<nat>)
    requires RunsOf(c, subs) && PartsOf(c, subs, from, to, out, which)
    requires forall k: nat :: k < |subs| && MinValue(c, subs[k]) <= to && from <= MaxValue(c, subs[k]) ==>
      Handled(c, subs, from, to, which, k)
    ensures MatchesScan(c, from, to, out)
  {
    hide Tiles;
    PartsDisjoint(c, subs, from, to, out, which);
    forall x: nat ensures Covers(out, x) <==> Between(c, x, from, to) {
      if Covers(out, x) {
        var j :| 0 <= j < |out| && In(out[j], x);
        assert PartOf(c, subs[which[j]], from, to, out[j]);
      }
      if Between(c, x, from, to) {
        var k := RunWith(c, subs, x);
        RunOverlaps(c, subs[k], x);
        assert Handled(c, subs, from, to, which, k);
        var j :| 0 <= j < |which| && which[j] == k;
        assert PartOf(c, subs[which[j]], from, to, out[j]);
        assert In(out[j], x);
      }
    }
  }

  /** What the tree reports are the runs whose values overlap `[from, to]`. */
  lemma FoundRuns(c: seq<int>, subs: seq<SortedSubsequence>, from: int, to: int, found: seq<Indexed<SortedSubsequence>>)
    requires forall k :: 0 <= k < |subs| ==> Monotone(c, subs[k])
    requires forall x :: x in found <==> Holds(Intervals(c, subs), x) && x.Overlaps(from, to)
    ensures forall k :: 0 <= k < |found| ==> found[k].index < |subs| && found[k].interval.value == subs[found[k].index]
    ensures forall k: nat :: k < |subs| && MinValue(c, subs[k]) <= to && from <= MaxValue(c, subs[k]) ==>
      exists m :: 0 <= m < |found| && found[m].index == k
  {
    hide Monotone;
    var intervals := Intervals(c, subs);
    forall k | 0 <= k < |found| ensures found[k].index < |subs| && found[k].interval.value == subs[found[k].index] {
      assert found[k] in found;
    }
    forall k: nat | k < |subs| && MinValue(c, subs[k]) <= to && from <= MaxValue(c, subs[k])
      ensures exists m :: 0 <= m < |found| && found[m].index == k
    {
      assert Indexed(intervals[k], k) in found;
    }
  }

  lemma AddPart(c: seq<int>, subs: seq<SortedSubsequence>, from: int, to: int, out: seq<Range>, which: seq<nat>,
                r: Range, k: nat)
    requires PartsOf(c, subs, from, to, out, which) && k < |subs| && k !in which
    requires r.count > 0 && PartOf(c, subs[k], from, to, r)
    ensures PartsOf(c, subs, from, to, out + [r], which + [k])
    ensures forall h: nat :: h < |subs| && Handled(c, subs, from, to, which, h) ==>
      Handled(c, subs, from, to, which + [k], h)
    ensures Handled(c, subs, from, to, which + [k], k)
  {
    hide PartOf;
  }

  lemma EmptyPart(c: seq<int>, subs: seq<SortedSubsequence>, from: int, to: int, which: seq<nat>, r: Range, k: nat)
    requires k < |subs| && r.count == 0 && PartOf(c, subs[k], from, to, r)
    ensures Handled(c, subs, from, to, which, k)
  {
    assert forall x: nat :: !In(r, x);
  }

  lemma NoParts(c: seq<int>, subs: seq<SortedSubsequence>, from: int, to: int)
    ensures PartsOf(c, subs, from, to, [], [])
  {
  }

  /** The interval index agrees with a plain scan. */
  method ConsumeRanges(ix: SortedIntervalIndex, from: int, to: int) returns (out: seq<Range>)
    requires IndexOk(ix) && from <= to
    ensures MatchesScan(ix.container, from, to, out)
  {
    ghost var subs :| IndexOver(ix, subs);
    hide RootOk, Monotone, Tiles, Intervals, Holds, MatchesScan;
    var found := LookupRange(ix.root, from, to, Intervals(ix.container, subs));
    FoundRuns(ix.container, subs, from, to, found);
    ghost var which;
    out, which := CollectParts(ix.container, from, to, found, subs);
    PartsMatchScan(ix.container, subs, from, to, out, which);
  }

  method CollectParts(c: seq<int>, from: int, to: int, found: seq<Indexed<SortedSubsequence>>,
                      ghost subs: seq<SortedSubsequence>)
    returns (out: seq<Range>, ghost which: seq<nat>)
    requires from <= to && forall k :: 0 <= k < |subs| ==> Monotone(c, subs[k])
    requires forall k :: 0 <= k < |found| ==> found[k].index < |subs| && found[k].interval.value == subs[found[k].index]
    requires forall i, j :: 0 <= i < j < |found| ==> found[i].index != found[j].index
    ensures PartsOf(c, subs, from, to, out, which)
    ensures forall m :: 0 <= m < |found| ==> Handled(c, subs, from, to, which, found[m].index)
  {
    hide Monotone, PartsOf, PartOf, Handled;
    NoParts(c, subs, from, to);
    out, which := [], [];
    for k := 0 to |found|
      invariant PartsOf(c, subs, from, to, out, which)
      invariant forall m :: k <= m < |found| ==> found[m].index !in which
      invariant forall m :: 0 <= m < k ==> Handled(c, subs, from, to, which, found[m].index)
    {
      var range := IndicesOfValuesInRange(c, found[k].interval.value, from, to);
      if range.count > 0 {
        AddPart(c, subs, from, to, out, which, range, found[k].index);
        out := out + [range];
        which := which + [found[k].index];
      } else {
        EmptyPart(c, subs, from, to, which, range, found[k].index);
      }
    }
  }

  // ---------- the basic index ----------

  /** Values in non-decreasing order, each next to a range of indices that hold it. */
  datatype BasicIndex = BasicIndex(values: seq<int>, ranges: seq<Range>)

  ghost predicate Labels(c: seq<int>, values: seq<int>, ranges: seq<Range>) {
    && |values| == |ranges|
    && (forall k :: 0 <= k < |ranges| ==> ranges[k].count > 0 && HoldsValue(c, ranges[k], values[k]))
    && (forall i, j :: 0 <= i < j < |values| ==> values[i] <= values[j])
    && Disjoint(ranges)
  }

  ghost predicate HoldsValue(c: seq<int>, r: Range, v: int) {
    forall x: nat :: In(r, x) ==> x < |c| && c[x] == v
  }

  ghost predicate BasicOk(ix: BasicIndex, c: seq<int>) {
    Labels(c, ix.values, ix.ranges) && forall x: nat :: x < |c| ==> Covers(ix.ranges, x)
  }

  ghost predicate Increasing(s: seq<nat>) {
    forall i, j :: 0 <= i < j < |s| ==> s[i] < s[j]
  }

  /** The indices below `end` that hold `v`, in order. */
  ghost predicate IndicesOf(c: seq<int>, end: nat, v: int, s: seq<nat>)
    requires end <= |c|
  {
    Increasing(s) && forall i: nat :: i in s <==> i < end && c[i] == v
  }

  /** One entry of the ordered map from values to their indices. */
  datatype Group = Group(value: int, indices: seq<nat>)

  ghost predicate Groups(c: seq<int>, end: nat, m: seq<Group>)
    requires end <= |c|
  {
    && (forall i, j :: 0 <= i < j < |m| ==> m[i].value < m[j].value)
    && (forall k :: 0 <= k < |m| ==> IndicesOf(c, end, m[k].value, m[k].indices))
    && (forall x :: 0 <= x < end ==> HasValue(m, c[x]))
  }

  ghost predicate HasValue(m: seq<Group>, v: int) {
    exists k :: 0 <= k < |m| && m[k].value == v
  }

  method GroupIndices(c: seq<int>) returns (m: seq<Group>)
    ensures Groups(c, |c|, m)
  {
    m := [];
    for i := 0 to |c|
      invariant Groups(c, i, m)
    {
      var v := c[i];
      var k := LowerBound(m, (g: Group) => g.value < v);
      if k < |m| && m[k].value == v {
        GroupGrows(c, i, m, k);
        m := m[k := Group(v, m[k].indices + [i])];
      } else {
        GroupAdded(c, i, m, k);
        m := m[..k] + [Group(v, [i])] + m[k..];
      }
    }
  }

  lemma OthersUnchanged(c: seq<int>, i: nat, g: Group)
    requires i < |c| && IndicesOf(c, i, g.value, g.indices) && g.value != c[i]
    ensures IndicesOf(c, i + 1, g.value, g.indices)
  {
  }

  lemma GroupGrows(c: seq<int>, i: nat, m: seq<Group>, k: nat)
    requires i < |c| && Groups(c, i, m) && k < |m| && m[k].value == c[i]
    ensures Groups(c, i + 1, m[k := Group(c[i], m[k].indices + [i])])
  {
    AppendIndex(c, i, m[k].indices);
    var m' := m[k := Group(c[i], m[k].indices + [i])];
    forall j | 0 <= j < |m'| && j != k ensures IndicesOf(c, i + 1, m'[j].value, m'[j].indices) {
      assert m[j].value != c[i];
      OthersUnchanged(c, i, m[j]);
    }
    forall x | 0 <= x < i + 1 ensures HasValue(m', c[x]) {
      if x < i {
        assert HasValue(m, c[x]);
        var j :| 0 <= j < |m| && m[j].value == c[x];
        assert m'[j].value == c[x];
      } else {
        assert m'[k].value == c[x];
      }
    }
  }

  lemma GroupAdded(c: seq<int>, i: nat, m: seq<Group>, k: nat)
    requires i < |c| && Groups(c, i, m) && k <= |m|
    requires forall j :: 0 <= j < |m| ==> if j < k then m[j].value < c[i] else c[i] < m[j].value
    ensures Groups(c, i + 1, m[..k] + [Group(c[i], [i])] + m[k..])
  {
    var m' := m[..k] + [Group(c[i], [i])] + m[k..];
    assert m'[k].value == c[i] && m'[k].indices == [] + [i];
    forall x | 0 <= x < i ensures c[x] != c[i] && HasValue(m', c[x]) {
      ValueStays(c, i, m, k, x);
    }
    assert HasValue(m', c[i]);
    hide HasValue;
    assert IndicesOf(c, i, c[i], []);
    AppendIndex(c, i, []);
    hide IndicesOf;
    forall j | 0 <= j < |m'| && j != k ensures IndicesOf(c, i + 1, m'[j].value, m'[j].indices) {
      assert m'[j] == m[if j < k then j else j - 1];
      OthersUnchanged(c, i, m[if j < k then j else j - 1]);
    }
  }

  lemma ValueStays(c: seq<int>, i: nat, m: seq<Group>, k: nat, x: nat)
    requires x < i < |c| && Groups(c, i, m) && k <= |m|
    requires forall j :: 0 <= j < |m| ==> if j < k then m[j].value < c[i] else c[i] < m[j].value
    ensures c[x] != c[i] && HasValue(m[..k] + [Group(c[i], [i])] + m[k..], c[x])
  {
    assert HasValue(m, c[x]);
    var j :| 0 <= j < |m| && m[j].value == c[x];
    assert (m[..k] + [Group(c[i], [i])] + m[k..])[if j < k then j else j + 1].value == c[x];
  }

  lemma AppendIndex(c: seq<int>, i: nat, before: seq<nat>)
    requires i < |c| && IndicesOf(c, i, c[i], before)
    ensures IndicesOf(c, i + 1, c[i], before + [i])
  {
    var s := before + [i];
    assert forall k :: 0 <= k < |before| ==> before[k] in before;
    forall j: nat ensures j in s <==> j < i + 1 && c[j] == c[i] {
      assert j in s <==> j in before || j == i;
    }
  }

  /** One value: touching indices are merged into ranges. */
  method RangesOfValue(c: seq<int>, v: int, indices: seq<nat>) returns (rs: seq<Range>)
    requires IndicesOf(c, |c|, v, indices)
    ensures NormalForm(rs) && forall x: nat :: Covers(rs, x) <==> x < |c| && c[x] == v
  {
    var units := [];
    for k := 0 to |indices|
      invariant |units| == k && forall j :: 0 <= j < k ==> units[j] == Range(indices[j], 1)
    {
      units := units + [Range(indices[k], 1)];
    }
    ApartCutsNothing(units);
    rs := RangeSet(units, false);
    hide NormalForm, NothingCutAway, Apart;
    forall x: nat ensures Covers(rs, x) <==> x < |c| && c[x] == v {
      assert Covers(rs, x) <==> Covers(units, x);
      UnitsCover(c, v, indices, units, x);
    }
  }

  lemma UnitsCover(c: seq<int>, v: int, indices: seq<nat>, units: seq<Range>, x: nat)
    requires IndicesOf(c, |c|, v, indices)
    requires |units| == |indices| && forall j :: 0 <= j < |units| ==> units[j] == Range(indices[j], 1)
    ensures Covers(units, x) <==> x < |c| && c[x] == v
  {
    assert x in indices <==> x < |c| && c[x] == v;
    if Covers(units, x) {
      var k :| 0 <= k < |units| && In(units[k], x);
      assert indices[k] == x;
    }
    if x in indices {
      var k :| 0 <= k < |indices| && indices[k] == x;
      assert In(units[k], x);
    }
  }

  lemma LabelsGrow(c: seq<int>, values: seq<int>, ranges: seq<Range>, v: int, rs: seq<Range>, values': seq<int>)
    requires Labels(c, values, ranges) && NormalForm(rs) && forall x: nat :: Covers(rs, x) <==> x < |c| && c[x] == v
    requires forall k :: 0 <= k < |values| ==> values[k] < v
    requires |values'| == |values| + |rs|
    requires forall k :: 0 <= k < |values'| ==> values'[k] == if k < |values| then values[k] else v
    ensures Labels(c, values', ranges + rs)
    ensures forall x: nat :: Covers(ranges + rs, x) <==> Covers(ranges, x) || (x < |c| && c[x] == v)
  {
    var all := ranges + rs;
    forall k | 0 <= k < |all| ensures all[k].count > 0 && HoldsValue(c, all[k], values'[k]) {
      if k < |ranges| {
        assert HoldsValue(c, ranges[k], values[k]);
      } else {
        assert all[k] == rs[k - |ranges|];
        assert values'[k] == v;
        forall x: nat | In(all[k], x) ensures x < |c| && c[x] == v {
          assert In(rs[k - |ranges|], x);
          assert Covers(rs, x);
        }
      }
    }
    forall j, k, x: nat | 0 <= j < k < |all| && In(all[j], x) ensures !In(all[k], x) {
      assert HoldsValue(c, all[j], values'[j]) && HoldsValue(c, all[k], values'[k]);
      if k < |ranges| {
        assert all[j] == ranges[j] && all[k] == ranges[k];
      } else if |ranges| <= j {
        assert rs[j - |ranges|].End() < rs[k - |ranges|].first;
      }
    }
    forall x: nat ensures Covers(all, x) <==> Covers(ranges, x) || (x < |c| && c[x] == v) {
      CoversConcat(ranges, rs, x);
    }
  }

  method AppendValue(v: int, rs: seq<Range>, values: seq<int>, ranges: seq<Range>)
    returns (values': seq<int>, ranges': seq<Range>)
    ensures ranges' == ranges + rs && |values'| == |values| + |rs|
    ensures forall k :: 0 <= k < |values'| ==> values'[k] == if k < |values| then values[k] else v
  {
    values', ranges' := values, ranges;
    for k := 0 to |rs|
      invariant ranges' == ranges + rs[..k] && |values'| == |values| + k
      invariant forall j :: 0 <= j < |values'| ==> values'[j] == if j < |values| then values[j] else v
    {
      values' := values' + [v];
      ranges' := ranges' + [rs[k]];
    }
    assert rs[..|rs|] == rs;
  }

  /** Builds the index value by value, in the order of the map. */
  method MakeBasicIndex(c: seq<int>) returns (ix: BasicIndex)
    ensures BasicOk(ix, c)
  {
    hide Labels, IndicesOf, NormalForm, Disjoint, Covers;
    var groups := GroupIndices(c);
    var values, ranges := [], [];
    NoLabels(c);
    for g := 0 to |groups|
      invariant Labels(c, values, ranges)
      invariant forall k :: 0 <= k < |values| ==> g > 0 && values[k] <= groups[g - 1].value
      invariant forall x: nat, j :: 0 <= j < g && x < |c| && c[x] == groups[j].value ==> Covers(ranges, x)
    {
      var v := groups[g].value;
      var rs := RangesOfValue(c, v, groups[g].indices);
      var values', ranges' := AppendValue(v, rs, values, ranges);
      LabelsGrow(c, values, ranges, v, rs, values');
      values, ranges := values', ranges';
    }
    forall x: nat | x < |c| ensures Covers(ranges, x) {
      assert HasValue(groups, c[x]);
    }
    ix := BasicIndex(values, ranges);
  }

  lemma NoLabels(c: seq<int>)
    ensures Labels(c, [], [])
  {
  }

  lemma SliceMatchesScan(ix: BasicIndex, c: seq<int>, from: int, to: int, first: nat, it: nat)
    requires BasicOk(ix, c) && first <= it <= |ix.values|
    requires forall k :: 0 <= k < |ix.values| ==> (k < first <==> ix.values[k] < from)
    requires forall k :: first <= k < it ==> ix.values[k] <= to
    requires it < |ix.values| ==> ix.values[it] > to
    ensures MatchesScan(c, from, to, ix.ranges[first..it])
  {
    var out := ix.ranges[first..it];
    forall j, k, x: nat | 0 <= j < k < |out| && In(out[j], x) ensures !In(out[k], x) {
      assert In(ix.ranges[first + j], x) && out[k] == ix.ranges[first + k];
    }
    forall x: nat ensures Covers(out, x) <==> Between(c, x, from, to) {
      if Covers(out, x) {
        var j :| 0 <= j < |out| && In(out[j], x);
        assert HoldsValue(c, ix.ranges[first + j], ix.values[first + j]);
      }
      if Between(c, x, from, to) {
        assert Covers(ix.ranges, x);
        var k :| 0 <= k < |ix.ranges| && In(ix.ranges[k], x);
        assert HoldsValue(c, ix.ranges[k], ix.values[k]);
        assert first <= k < it;
        assert In(out[k - first], x);
      }
    }
  }

  /** The basic index agrees with a plain scan. */
  method ConsumeBasic(ix: BasicIndex, from: int, to: int, ghost c: seq<int>) returns (out: seq<Range>)
    requires BasicOk(ix, c)
    ensures MatchesScan(c, from, to, out)
  {
    var first := LowerBound(ix.values, (v: int) => v < from);
    out := [];
    var it := first;
    while it < |ix.values| && ix.values[it] <= to
      invariant first <= it <= |ix.values| && out == ix.ranges[first..it]
      invariant forall k :: first <= k < it ==> ix.values[k] <= to
    {
      out := out + [ix.ranges[it]];
      it := it + 1;
    }
    SliceMatchesScan(ix, c, from, to, first, it);
  }

  // ---------- a chunk of a column ----------

  method Bounds(c: seq<int>) returns (min: int, max: int)
    requires c != []
    ensures min in c && max in c && forall i :: 0 <= i < |c| ==> min <= c[i] <= max
  {
    min, max := c[0], c[0];
    for i := 1 to |c|
      invariant min in c && max in c && forall j :: 0 <= j < i ==> min <= c[j] <= max
    {
      if c[i] < min {
        min := c[i];
      }
      if c[i] > max {
        max := c[i];
      }
    }
  }

  lemma WholeMatchesScan(c: seq<int>, from: int, to: int)
    requires c != [] && forall i :: 0 <= i < |c| ==> from <= c[i] <= to
    ensures MatchesScan(c, from, to, [Range(0, |c|)])
  {
    var out := [Range(0, |c|)];
    forall x: nat ensures Covers(out, x) <==> Between(c, x, from, to) {
      assert x < |c| ==> In(out[0], x);
    }
  }

  /** An index of either kind over the values of a column. */
  method ConsumeIndexed(c: seq<int>, keepsBasic: bool, grid: seq<Indexed<SortedSubsequence>> -> seq<int>, from: int,
                        to: int)
    returns (out: seq<Range>)
    requires from <= to
    ensures MatchesScan(c, from, to, out)
  {
    hide IndexOk, BasicOk, MatchesScan;
    if keepsBasic {
      var ix := MakeBasicIndex(c);
      out := ConsumeBasic(ix, from, to, c);
    } else {
      var ix := MakeIntervalIndex(c, grid);
      out := ConsumeRanges(ix, from, to);
    }
  }

  ghost predicate Extremes(c: seq<int>, min: int, max: int) {
    min in c && max in c && forall i :: 0 <= i < |c| ==> min <= c[i] <= max
  }

  /** What a chunk answers: by the extremes of the values where these decide, and otherwise like
      a scan of what was read back. */
  ghost predicate Answers(values: seq<int>, column: seq<int>, from: int, to: int, out: seq<Range>) {
    exists min, max :: Extremes(values, min, max) && AnswersBy(values, column, min, max, from, to, out)
  }

  ghost predicate AnswersBy(values: seq<int>, column: seq<int>, min: int, max: int, from: int, to: int,
                            out: seq<Range>) {
    if to < min || from > max then out == []
    else if to >= max && from <= min then out == [Range(0, |values|)]
    else MatchesScan(column, from, to, out)
  }

  /** A chunk of packed values. Its extremes come from the values themselves and decide alone
      where they can; its index, of either kind, is built over what is read back from the
      packed form. */
  method ConsumeChunk(values: seq<int>, keepsBasic: bool, grid: seq<Indexed<SortedSubsequence>> -> seq<int>, from: int,
                      to: int)
    returns (out: seq<Range>, ghost column: seq<int>)
    requires values != [] && PackedInts.AllInt64(values) && from <= to
    ensures PackedInts.ReadBack(values, column) && Answers(values, column, from, to, out)
    ensures PackedInts.Survives(values) ==> MatchesScan(values, from, to, out)
  {
    hide PackedInts.Survives, PackedInts.ReadBack, MatchesScan;
    var readBack := PackedInts.PackAndReadBack(values);
    column := readBack;
    var min, max := Bounds(values);
    if to < min || from > max {
      out := [];
    } else if to >= max && from <= min {
      out := [Range(0, |values|)];
    } else {
      out := ConsumeIndexed(readBack, keepsBasic, grid, from, to);
    }
    assert Extremes(values, min, max) && AnswersBy(values, column, min, max, from, to, out);
    if PackedInts.Survives(values) {
      AnswerMatches(values, min, max, from, to, out);
    }
  }

  lemma AnswerMatches(values: seq<int>, min: int, max: int, from: int, to: int, out: seq<Range>)
    requires Extremes(values, min, max) && from <= to && AnswersBy(values, values, min, max, from, to, out)
    ensures MatchesScan(values, from, to, out)
  {
    if to < min || from > max {
      assert forall x: nat :: !Between(values, x, from, to);
    } else if to >= max && from <= min {
      WholeMatchesScan(values, from, to);
    }
  }

  /** Some list of ranges matches a scan. */
  lemma {:induction false} ScanExists(c: seq<int>, from: int, to: int, n: nat) returns (out: seq<Range>)
    requires n <= |c|
    ensures MatchesScan(c[..n], from, to, out)
  {
    if n == 0 {
      out := [];
    } else {
      var before := ScanExists(c, from, to, n - 1);
      out := if from <= c[n - 1] <= to then before + [Range(n - 1, 1)] else before;
      ScanOneMore(c, from, to, n, before, out);
    }
  }

  lemma ScanOneMore(c: seq<int>, from: int, to: int, n: nat, before: seq<Range>, out: seq<Range>)
    requires 0 < n <= |c| && MatchesScan(c[..n - 1], from, to, before)
    requires out == if from <= c[n - 1] <= to then before + [Range(n - 1, 1)] else before
    ensures MatchesScan(c[..n], from, to, out)
  {
    var m := |before|;
    forall x: nat ensures Covers(out, x) <==> Between(c[..n], x, from, to) {
      assert Covers(before, x) <==> Between(c[..n - 1], x, from, to);
      if Covers(before, x) {
        var k :| 0 <= k < m && In(before[k], x);
        assert In(out[k], x);
      }
      if |out| > m && x == n - 1 {
        assert In(out[m], x);
      }
    }
    forall j, k, x: nat | 0 <= j < k < |out| && In(out[j], x) ensures !In(out[k], x) {
      assert Covers(before, x);
    }
  }

  /** The index of a value that does not come back is missed by the query for that value. */
  lemma LostIsMissed(values: seq<int>, column: seq<int>, i: nat, out: seq<Range>)
    requires i < |values| == |column| && column[i] != values[i]
    requires !(forall k :: 0 <= k < |values| ==> values[k] == values[0])
    requires Answers(values, column, values[i], values[i], out)
    ensures !MatchesScan(values, values[i], values[i], out)
  {
    var v := values[i];
    var min, max :| Extremes(values, min, max) && AnswersBy(values, column, min, max, v, v, out);
    assert MatchesScan(column, v, v, out);
    assert !Between(column, i, v, v) && Between(values, i, v, v);
  }

  /** Whatever the kind of index: all queries of a chunk match a scan of the values if and only
      if the values come back. */
  lemma ChunkIff(values: seq<int>, column: seq<int>)
    requires values != [] && PackedInts.AllInt64(values) && PackedInts.ReadBack(values, column)
    ensures PackedInts.Survives(values) <==>
      forall from: int, to: int, out :: from <= to && Answers(values, column, from, to, out) ==>
        MatchesScan(values, from, to, out)
  {
    hide PackedInts.Survives, MatchesScan;
    PackedInts.ReadBackIff(values, column);
    assert |column| == |values|;
    hide PackedInts.ReadBack;
    if PackedInts.Survives(values) {
      forall from: int, to: int, out | from <= to && Answers(values, column, from, to, out)
        ensures MatchesScan(values, from, to, out)
      {
        var min, max :| Extremes(values, min, max) && AnswersBy(values, column, min, max, from, to, out);
        AnswerMatches(values, min, max, from, to, out);
      }
    } else {
      if forall k :: 0 <= k < |values| ==> values[k] == values[0] {
        PackedInts.EqualValuesSurvive(values);
      }
      var i: nat :| i < |values| && column[i] != values[i];
      var out := SomeAnswer(values, column, values[i]);
      LostIsMissed(values, column, i, out);
    }
  }

  lemma SomeAnswer(values: seq<int>, column: seq<int>, v: int) returns (out: seq<Range>)
    requires values != []
    ensures Answers(values, column, v, v, out)
  {
    var min, max := LeastAndGreatest(values, |values|);
    assert values[..|values|] == values;
    var scan := ScanExists(column, v, v, |column|);
    assert column[..|column|] == column;
    out := if v < min || v > max then [] else if v >= max && v <= min then [Range(0, |values|)] else scan;
    assert Extremes(values, min, max) && AnswersBy(values, column, min, max, v, v, out);
  }

  lemma {:induction false} LeastAndGreatest(c: seq<int>, n: nat) returns (min: int, max: int)
    requires 0 < n <= |c|
    ensures Extremes(c[..n], min, max)
  {
    if n == 1 {
      min, max := c[0], c[0];
    } else {
      min, max := LeastAndGreatest(c, n - 1);
      var x := c[n - 1];
      assert c[..n] == c[..n - 1] + [x];
      min := if x < min then x else min;
      max := if x > max then x else max;
    }
  }
}
