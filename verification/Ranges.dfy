/** Sets of indices kept as lists of ranges. */
module Ranges {
  import opened Basics
  import opened Sorting

  datatype Range = Range(first: nat, count: nat) {
    function End(): nat {
      first + count
    }
  }

  predicate In(r: Range, x: nat) {
    r.first <= x < r.End()
  }

  ghost predicate Covers(rs: seq<Range>, x: nat) {
    exists k :: 0 <= k < |rs| && In(rs[k], x)
  }

  /** Both lists stand for the same set of indices. */
  ghost predicate SameCover(a: seq<Range>, b: seq<Range>) {
    forall x: nat :: Covers(a, x) <==> Covers(b, x)
  }

  /** Non-empty ranges in order, with a gap between any two. */
  ghost predicate NormalForm(rs: seq<Range>) {
    && (forall i :: 0 <= i < |rs| ==> rs[i].count > 0)
    && (forall i, j :: 0 <= i < j < |rs| ==> rs[i].End() < rs[j].first)
  }

  /** Ranges in order, none reaching into a later one. */
  ghost predicate Apart(rs: seq<Range>) {
    forall i, j :: 0 <= i < j < |rs| ==> rs[i].End() <= rs[j].first
  }

  predicate Le(a: Range, b: Range) {
    a.first < b.first || (a.first == b.first && a.count <= b.count)
  }

  /** Whenever a range that starts before `b` reaches beyond the end of `b`, another range
      after `b` takes over no later than at that end. */
  ghost predicate NothingCutAway(rs: seq<Range>) {
    forall a, b :: a in rs && b in rs && Le(a, b) && b.End() < a.End() ==> TakesOver(rs, b)
  }

  ghost predicate TakesOver(rs: seq<Range>, b: Range) {
    exists c :: c in rs && c != b && Le(b, c) && c.first <= b.End()
  }

  // ---------- removing overlap ----------

  function CutRange(rs: seq<Range>, i: nat): Range
    requires i < |rs| && (i + 1 < |rs| ==> rs[i].first <= rs[i + 1].first)
  {
    if i + 1 < |rs| && rs[i + 1].first < rs[i].End() then Range(rs[i].first, rs[i + 1].first - rs[i].first)
    else rs[i]
  }

  ghost predicate IsCut(rs: seq<Range>, cut: seq<Range>)
    requires Ordered(Le, rs)
  {
    |cut| == |rs| && forall i: nat :: i < |rs| ==> cut[i] == CutRange(rs, i)
  }

  method CutOverlaps(ranges: seq<Range>) returns (cut: seq<Range>)
    requires Ordered(Le, ranges)
    ensures IsCut(ranges, cut) && Apart(cut)
  {
    cut := ranges;
    var i := 0;
    while i + 1 < |ranges|
      invariant 0 <= i && |cut| == |ranges|
      invariant forall j: nat :: j < |ranges| ==> cut[j] == if j < i then CutRange(ranges, j) else ranges[j]
    {
      assert Le(ranges[i], ranges[i + 1]);
      var nextStart, end := cut[i + 1].first, cut[i].End();
      if nextStart < end {
        var delta := end - nextStart;
        assert delta <= cut[i].count;
        cut := cut[i := Range(cut[i].first, cut[i].count - delta)];
      }
      i := i + 1;
    }
    CutIsApart(ranges, cut);
  }

  lemma CutIsApart(rs: seq<Range>, cut: seq<Range>)
    requires Ordered(Le, rs) && IsCut(rs, cut)
    ensures Apart(cut)
  {
    forall i: nat, j: nat | i < j < |cut| ensures cut[i].End() <= cut[j].first {
      assert cut[i] == CutRange(rs, i) && cut[j] == CutRange(rs, j);
      assert Le(rs[i], rs[i + 1]) && (i + 1 < j ==> Le(rs[i + 1], rs[j]));
    }
  }

  lemma CutIsInside(rs: seq<Range>, cut: seq<Range>, x: nat)
    requires Ordered(Le, rs) && IsCut(rs, cut) && Covers(cut, x)
    ensures Covers(rs, x)
  {
    var k: nat :| k < |cut| && In(cut[k], x);
    assert cut[k] == CutRange(rs, k) && In(rs[k], x);
  }

  /** The last range that starts at or before `x`. */
  lemma LastStart(rs: seq<Range>, x: nat, i: nat) returns (j: nat)
    requires Ordered(Le, rs) && i < |rs| && rs[i].first <= x
    ensures i <= j < |rs| && rs[j].first <= x && (j + 1 < |rs| ==> x < rs[j + 1].first)
  {
    j := i;
    while j + 1 < |rs| && rs[j + 1].first <= x
      invariant i <= j < |rs| && rs[j].first <= x
    {
      j := j + 1;
    }
  }

  lemma CutKeeps(rs: seq<Range>, cut: seq<Range>, x: nat)
    requires Ordered(Le, rs) && IsCut(rs, cut) && NothingCutAway(rs) && Covers(rs, x)
    ensures Covers(cut, x)
  {
    var i: nat :| i < |rs| && In(rs[i], x);
    var j := LastStart(rs, x, i);
    assert cut[j] == CutRange(rs, j);
    if x < rs[j].End() {
      assert In(cut[j], x);
    } else {
      assert rs[i] in rs && rs[j] in rs && Le(rs[i], rs[j]);
      assert TakesOver(rs, rs[j]);
      var c :| c in rs && c != rs[j] && Le(rs[j], c) && c.first <= rs[j].End();
      LaterStart(rs, j, c);
    }
  }

  lemma LaterStart(rs: seq<Range>, j: nat, c: Range)
    requires Ordered(Le, rs) && j < |rs| && c in rs && c != rs[j] && Le(rs[j], c)
    ensures j + 1 < |rs| && rs[j + 1].first <= c.first
  {
    var m: nat :| m < |rs| && rs[m] == c;
    assert m < j ==> Le(rs[m], rs[j]);
    assert j + 1 < m ==> Le(rs[j + 1], rs[m]);
  }

  lemma CutLoses(rs: seq<Range>, cut: seq<Range>) returns (x: nat)
    requires Ordered(Le, rs) && IsCut(rs, cut) && !NothingCutAway(rs)
    ensures Covers(rs, x) && !Covers(cut, x)
  {
    var a, b :| a in rs && b in rs && Le(a, b) && b.End() < a.End() && !TakesOver(rs, b);
    x := b.End();
    var i: nat :| i < |rs| && rs[i] == a;
    assert In(rs[i], x);
    var jb: nat :| jb < |rs| && rs[jb] == b;
    forall m: nat | m < |cut| ensures !In(cut[m], x) {
      assert cut[m] == CutRange(rs, m);
      CutMisses(rs, jb, m);
    }
  }

  lemma CutMisses(rs: seq<Range>, j: nat, m: nat)
    requires Ordered(Le, rs) && j < |rs| && m < |rs| && !TakesOver(rs, rs[j])
    ensures !In(CutRange(rs, m), rs[j].End())
  {
    assert rs[m] in rs;
    assert j < m ==> Le(rs[j], rs[m]);
    assert m + 1 < j ==> Le(rs[m + 1], rs[j]);
  }

  /** Cutting keeps the covered set exactly when nothing is cut away. */
  lemma CutCover(rs: seq<Range>, cut: seq<Range>)
    requires Ordered(Le, rs) && IsCut(rs, cut)
    ensures SameCover(cut, rs) <==> NothingCutAway(rs)
  {
    if NothingCutAway(rs) {
      forall x: nat ensures Covers(cut, x) <==> Covers(rs, x) {
        if Covers(rs, x) {
          CutKeeps(rs, cut, x);
        }
        if Covers(cut, x) {
          CutIsInside(rs, cut, x);
        }
      }
    } else {
      var x := CutLoses(rs, cut);
      assert !(Covers(cut, x) <==> Covers(rs, x));
    }
  }

  lemma CoversSnoc(rs: seq<Range>, r: Range, x: nat)
    ensures Covers(rs + [r], x) <==> Covers(rs, x) || In(r, x)
  {
    if Covers(rs, x) {
      var k :| 0 <= k < |rs| && In(rs[k], x);
      assert In((rs + [r])[k], x);
    }
    if In(r, x) {
      assert In((rs + [r])[|rs|], x);
    }
  }

  /** One maximal run of touching ranges from `i` on. */
  method Stretch(ranges: seq<Range>, i: nat) returns (end: nat, next: nat)
    requires Apart(ranges) && i < |ranges|
    ensures i < next <= |ranges| && ranges[i].first <= end && (next < |ranges| ==> end < ranges[next].first)
    ensures forall x: nat :: Covers(ranges[..next], x) <==> Covers(ranges[..i], x) || ranges[i].first <= x < end
  {
    end, next := ranges[i].first, i;
    while next < |ranges|
      invariant i <= next <= |ranges| && ranges[i].first <= end
      invariant next == i ==> end == ranges[i].first
      invariant i < next ==> end == ranges[next - 1].End()
      invariant forall x: nat :: Covers(ranges[..next], x) <==> Covers(ranges[..i], x) || ranges[i].first <= x < end
    {
      var nextIndex := ranges[next].first;
      assert nextIndex >= end; // the overlap abort is never reached
      if nextIndex == end {
        forall x: nat
          ensures Covers(ranges[..next + 1], x) <==> Covers(ranges[..next], x) || In(ranges[next], x)
        {
          assert ranges[..next + 1] == ranges[..next] + [ranges[next]];
          CoversSnoc(ranges[..next], ranges[next], x);
        }
        end := end + ranges[next].count;
        next := next + 1;
      } else {
        break;
      }
    }
  }

  /** Merges touching ranges and drops empty ones. */
  method MergeConsecutive(ranges: seq<Range>) returns (out: seq<Range>)
    requires Apart(ranges)
    ensures NormalForm(out) && SameCover(out, ranges)
  {
    out := [];
    var i := 0;
    while i < |ranges|
      invariant 0 <= i <= |ranges| && NormalForm(out)
      invariant i < |ranges| ==> forall k :: 0 <= k < |out| ==> out[k].End() < ranges[i].first
      invariant forall x: nat :: Covers(out, x) <==> Covers(ranges[..i], x)
    {
      var start := ranges[i].first;
      var end, next := Stretch(ranges, i);
      if end > start {
        forall x: nat ensures Covers(out + [Range(start, end - start)], x) <==> Covers(ranges[..next], x) {
          CoversSnoc(out, Range(start, end - start), x);
        }
        out := out + [Range(start, end - start)];
      }
      i := next;
    }
    assert ranges[..|ranges|] == ranges;
  }

  lemma SameCoverPermuted(a: seq<Range>, b: seq<Range>)
    requires multiset(a) == multiset(b)
    ensures SameCover(a, b) && (NothingCutAway(a) <==> NothingCutAway(b))
  {
    SameElements(a, b);
    forall x: nat ensures Covers(a, x) <==> Covers(b, x) {
      assert Covers(a, x) <==> exists r :: r in a && In(r, x);
      assert Covers(b, x) <==> exists r :: r in b && In(r, x);
    }
    forall r ensures TakesOver(a, r) <==> TakesOver(b, r) {
    }
  }

  /** The constructor: the result is always in normal form and never covers more than the
      given ranges, and it covers all of them exactly when nothing is cut away. */
  method RangeSet(ranges: seq<Range>, alreadySorted: bool) returns (r: seq<Range>)
    requires alreadySorted ==> Ordered(Le, ranges)
    ensures NormalForm(r)
    ensures forall x: nat :: Covers(r, x) ==> Covers(ranges, x)
    ensures SameCover(r, ranges) <==> NothingCutAway(ranges)
    ensures NormalForm(ranges) ==> r == ranges
  {
    if ranges == [] {
      return [];
    }
    var sorted := ranges;
    if !alreadySorted {
      sorted := Sort(ranges, Le);
    }
    SameCoverPermuted(sorted, ranges);
    var cut := CutOverlaps(sorted);
    r := MergeConsecutive(cut);
    CutCover(sorted, cut);
    forall x: nat | Covers(r, x) ensures Covers(ranges, x) {
      CutIsInside(sorted, cut, x);
      assert Covers(sorted, x) <==> Covers(ranges, x);
    }
    CoverChain(r, cut, sorted, ranges);
    if NormalForm(ranges) {
      NormalFormCutsNothing(ranges);
      Canonical(r, ranges);
    }
  }

  lemma CoverChain(r: seq<Range>, cut: seq<Range>, sorted: seq<Range>, ranges: seq<Range>)
    requires SameCover(r, cut) && SameCover(sorted, ranges)
    ensures SameCover(r, ranges) <==> SameCover(cut, sorted)
  {
    if SameCover(r, ranges) {
      forall x: nat ensures Covers(cut, x) <==> Covers(sorted, x) {
        assert Covers(r, x) <==> Covers(cut, x);
        assert Covers(r, x) <==> Covers(ranges, x);
        assert Covers(sorted, x) <==> Covers(ranges, x);
      }
    }
    if SameCover(cut, sorted) {
      forall x: nat ensures Covers(r, x) <==> Covers(ranges, x) {
        assert Covers(r, x) <==> Covers(cut, x);
        assert Covers(cut, x) <==> Covers(sorted, x);
        assert Covers(sorted, x) <==> Covers(ranges, x);
      }
    }
  }

  // ---------- when nothing is cut away ----------

  lemma NormalFormCutsNothing(rs: seq<Range>)
    requires NormalForm(rs)
    ensures NothingCutAway(rs)
  {
  }

  /** Ranges that do not overlap lose nothing. */
  lemma ApartCutsNothing(rs: seq<Range>)
    requires Apart(rs)
    ensures NothingCutAway(rs)
  {
  }

  /** Sorted ranges whose ends never go back lose nothing. */
  lemma GrowingEndsCutNothing(rs: seq<Range>)
    requires Ordered(Le, rs) && forall i, j :: 0 <= i < j < |rs| ==> rs[i].End() <= rs[j].End()
    ensures NothingCutAway(rs)
  {
    forall a, b | a in rs && b in rs && Le(a, b) ensures a.End() <= b.End() {
      var i: nat :| i < |rs| && rs[i] == a;
      var j: nat :| j < |rs| && rs[j] == b;
      assert i < j ==> rs[i].End() <= rs[j].End();
      assert j < i ==> Le(rs[j], rs[i]);
    }
  }

  /** A range inside a longer one makes the constructor lose the rest of the longer one. */
  lemma NestedRangeIsLost()
    ensures var rs := [Range(0, 10), Range(2, 1)];
      Ordered(Le, rs) && !NothingCutAway(rs) && Covers(rs, 5) && forall cut :: IsCut(rs, cut) ==> !Covers(cut, 5)
  {
    var rs := [Range(0, 10), Range(2, 1)];
    assert In(rs[0], 5) && rs[0] in rs && rs[1] in rs;
    assert Le(rs[0], rs[1]) && rs[1].End() < rs[0].End() && !TakesOver(rs, rs[1]);
    forall cut | IsCut(rs, cut) ensures !Covers(cut, 5) {
      assert cut[0] == CutRange(rs, 0) && cut[1] == CutRange(rs, 1);
    }
  }

  // ---------- normal form is canonical ----------

  lemma FirstCovered(rs: seq<Range>)
    requires NormalForm(rs) && rs != []
    ensures Covers(rs, rs[0].first) && !Covers(rs, rs[0].End())
    ensures forall x: nat :: x < rs[0].first ==> !Covers(rs, x)
    ensures forall x: nat :: In(rs[0], x) ==> Covers(rs, x)
  {
    assert In(rs[0], rs[0].first);
  }

  lemma TailCover(rs: seq<Range>, x: nat)
    requires NormalForm(rs) && rs != []
    ensures Covers(rs[1..], x) <==> Covers(rs, x) && x >= rs[0].End()
    ensures NormalForm(rs[1..])
  {
    if Covers(rs[1..], x) {
      var k :| 0 <= k < |rs[1..]| && In(rs[1..][k], x);
      assert In(rs[k + 1], x);
    }
    if Covers(rs, x) && x >= rs[0].End() {
      var k :| 0 <= k < |rs| && In(rs[k], x);
      assert rs[1..][k - 1] == rs[k];
    }
  }

  /** Two lists in normal form that stand for the same set are equal. */
  lemma {:induction false} Canonical(a: seq<Range>, b: seq<Range>)
    requires NormalForm(a) && NormalForm(b) && SameCover(a, b)
    ensures a == b
  {
    if a != [] {
      FirstCovered(a);
      assert Covers(b, a[0].first);
    }
    if b != [] {
      FirstCovered(b);
      assert Covers(a, b[0].first);
    }
    if a != [] {
      SameHead(a, b);
      forall x: nat ensures Covers(a[1..], x) <==> Covers(b[1..], x) {
        assert Covers(a, x) <==> Covers(b, x);
        TailCover(a, x);
        TailCover(b, x);
      }
      TailCover(a, 0);
      TailCover(b, 0);
      Canonical(a[1..], b[1..]);
      assert a == [a[0]] + a[1..] && b == [b[0]] + b[1..];
    }
  }

  lemma SameHead(a: seq<Range>, b: seq<Range>)
    requires NormalForm(a) && NormalForm(b) && SameCover(a, b) && a != [] && b != []
    ensures a[0] == b[0]
  {
    FirstCovered(a);
    FirstCovered(b);
    assert Covers(b, a[0].first) && Covers(a, b[0].first);
    assert !Covers(b, a[0].End()) && !Covers(a, b[0].End());
    assert !In(b[0], a[0].End()) && !In(a[0], b[0].End());
  }

  // ---------- membership ----------

  method ContainsIndex(rs: seq<Range>, index: nat) returns (b: bool)
    requires NormalForm(rs)
    ensures b <==> Covers(rs, index)
  {
    var k := LowerBound(rs, (r: Range) => r.End() - 1 < index);
    if k == |rs| {
      return false;
    }
    b := rs[k].first <= index;
    assert b ==> In(rs[k], index);
  }

  // ---------- union ----------

  function Concat(sets: seq<seq<Range>>): seq<Range> {
    if sets == [] then [] else Concat(sets[..|sets| - 1]) + sets[|sets| - 1]
  }

  ghost predicate InSome(sets: seq<seq<Range>>, x: nat) {
    exists k :: 0 <= k < |sets| && Covers(sets[k], x)
  }

  lemma CoversConcat(a: seq<Range>, b: seq<Range>, x: nat)
    ensures Covers(a + b, x) <==> Covers(a, x) || Covers(b, x)
  {
    if Covers(a, x) {
      var k :| 0 <= k < |a| && In(a[k], x);
      assert In((a + b)[k], x);
    }
    if Covers(b, x) {
      var k :| 0 <= k < |b| && In(b[k], x);
      assert In((a + b)[|a| + k], x);
    }
  }

  lemma {:induction false} ConcatCovers(sets: seq<seq<Range>>, x: nat)
    ensures Covers(Concat(sets), x) <==> InSome(sets, x)
  {
    if sets != [] {
      var n := |sets| - 1;
      ConcatCovers(sets[..n], x);
      CoversConcat(Concat(sets[..n]), sets[n], x);
      if InSome(sets[..n], x) {
        var k :| 0 <= k < n && Covers(sets[..n][k], x);
        assert Covers(sets[k], x);
      }
      if InSome(sets, x) && !Covers(sets[n], x) {
        var k :| 0 <= k < |sets| && Covers(sets[k], x);
        assert Covers(sets[..n][k], x);
      }
    }
  }

  /** The union of sets in normal form, or nothing when there is none to start from. It is
      never too large, and it is the union exactly when a single set is given or nothing is
      cut away from the concatenation. */
  method Union(sets: seq<seq<Range>>) returns (r: Option<seq<Range>>)
    requires forall k :: 0 <= k < |sets| ==> NormalForm(sets[k])
    ensures r.None? <==> sets == []
    ensures r.Some? ==> NormalForm(r.value) && forall x: nat :: Covers(r.value, x) ==> InSome(sets, x)
    ensures r.Some? ==>
      ((forall x: nat :: Covers(r.value, x) <==> InSome(sets, x)) <==> |sets| == 1 || NothingCutAway(Concat(sets)))
  {
    if sets == [] {
      return None;
    }
    if |sets| == 1 {
      forall x: nat ensures Covers(sets[0], x) <==> InSome(sets, x) {
      }
      return Some(sets[0]);
    }
    var all := [];
    for k := 0 to |sets|
      invariant all == Concat(sets[..k])
    {
      assert sets[..k + 1][..k] == sets[..k];
      all := all + sets[k];
    }
    assert sets[..|sets|] == sets;
    var u := RangeSet(all, false);
    forall x: nat ensures Covers(all, x) <==> InSome(sets, x) {
      ConcatCovers(sets, x);
    }
    return Some(u);
  }
}
