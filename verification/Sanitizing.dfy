/** What the answer for sanitized constraints means for the sets that the caller gave. */
module Sanitizing {
  import opened Basics
  import opened Graphs
  import opened Constraints
  import Dfs
  import VisitOrder
  import VisitQuery

  ghost function Sanitized(src: Node, dst: Node, g: AdjacencyList, ex: Exclusion, visit: seq<set<Node>>)
    : VisitQuery.Query
  {
    VisitQuery.Query(src, dst, {}, {}, ex, Remaining(visit, src, dst, |visit|), g)
  }

  // ---------- an answer visits all of them ----------

  /** One position for each set, in order; where the set is not empty the walk stands on it. */
  ghost predicate StopsAt(visit: seq<set<Node>>, src: Node, p: Links, stops: seq<nat>) {
    && |stops| == |visit|
    && (forall i, j :: 0 <= i < j < |visit| ==> stops[i] <= stops[j])
    && (forall i :: 0 <= i < |visit| ==> stops[i] <= |p| && (visit[i] != {} ==> At(src, p, stops[i]) in visit[i]))
  }

  /** The position that the legs give for set `i`. A cleared set takes the end point for which
      it was cleared. */
  ghost function StopFor(visit: seq<set<Node>>, src: Node, dst: Node, p: Links, cuts: seq<nat>, i: nat): nat
    requires i < |visit| && |cuts| == |Remaining(visit, src, dst, |visit|)| + 2
  {
    RemainingGrows(visit, src, dst, i, |visit|);
    var k := |Remaining(visit, src, dst, i)|;
    if Kept(visit, src, dst, i) then cuts[k + 1]
    else if i == |visit| - 1 && dst in visit[i] && !(i == 0 && src in visit[i]) then |p|
    else cuts[k]
  }

  lemma {:induction false} CutsAscend(q: VisitQuery.Query, p: Links, cuts: seq<nat>, a: nat, b: nat)
    requires VisitQuery.Legs(q, p, 0, cuts) && a <= b < |cuts|
    ensures cuts[a] <= cuts[b] <= |p|
    decreases b - a
  {
    if a < b {
      assert VisitQuery.Leg(q, p, 0 + a, cuts[a], cuts[a + 1]);
      CutsAscend(q, p, cuts, a + 1, b);
    } else if a + 1 < |cuts| {
      assert VisitQuery.Leg(q, p, 0 + a, cuts[a], cuts[a + 1]);
    }
  }

  /** Between the cuts before and behind the set. */
  lemma StopBetween(visit: seq<set<Node>>, q: VisitQuery.Query, p: Links, cuts: seq<nat>, i: nat)
    requires VisitQuery.Legs(q, p, 0, cuts) && q.visit == Remaining(visit, q.src, q.dst, |visit|)
    requires i < |visit|
    ensures |Remaining(visit, q.src, q.dst, i)| <= |Remaining(visit, q.src, q.dst, i + 1)| <= |q.visit|
    ensures var stop := StopFor(visit, q.src, q.dst, p, cuts, i);
      && cuts[|Remaining(visit, q.src, q.dst, i)|] <= stop
      && (i + 1 < |visit| ==> stop <= cuts[|Remaining(visit, q.src, q.dst, i + 1)|])
  {
    var k, l := |Remaining(visit, q.src, q.dst, i)|, |Remaining(visit, q.src, q.dst, i + 1)|;
    RemainingGrows(visit, q.src, q.dst, i + 1, |visit|);
    assert l == if Kept(visit, q.src, q.dst, i) then k + 1 else k;
    hide Remaining, Kept;
    CutsAscend(q, p, cuts, k, k);
    CutsAscend(q, p, cuts, k, k + 1);
  }

  lemma StopsAscend(visit: seq<set<Node>>, q: VisitQuery.Query, p: Links, cuts: seq<nat>, i: nat, j: nat)
    requires VisitQuery.Legs(q, p, 0, cuts) && q.visit == Remaining(visit, q.src, q.dst, |visit|)
    requires i < j < |visit|
    ensures StopFor(visit, q.src, q.dst, p, cuts, i) <= StopFor(visit, q.src, q.dst, p, cuts, j)
  {
    hide VisitQuery.Leg, StopFor, Remaining, Kept;
    StopBetween(visit, q, p, cuts, i);
    StopBetween(visit, q, p, cuts, j);
    RemainingGrows(visit, q.src, q.dst, i + 1, j);
    CutsAscend(q, p, cuts, |Remaining(visit, q.src, q.dst, i + 1)|, |Remaining(visit, q.src, q.dst, j)|);
  }

  lemma StopStands(visit: seq<set<Node>>, q: VisitQuery.Query, p: Links, cuts: seq<nat>, i: nat)
    requires VisitQuery.Legs(q, p, 0, cuts) && cuts[0] == 0 && q.visit == Remaining(visit, q.src, q.dst, |visit|)
    requires i < |visit|
    ensures var stop := StopFor(visit, q.src, q.dst, p, cuts, i);
      stop <= |p| && (visit[i] != {} ==> At(q.src, p, stop) in visit[i])
  {
    var k := |Remaining(visit, q.src, q.dst, i)|;
    RemainingGrows(visit, q.src, q.dst, i, |visit|);
    CutsAscend(q, p, cuts, k, k);
    if Kept(visit, q.src, q.dst, i) {
      assert VisitQuery.Leg(q, p, 0 + k, cuts[k], cuts[k + 1]);
      KeptPlace(visit, q.src, q.dst, i, |visit|);
    } else {
      var last := |q.visit|;
      assert VisitQuery.Leg(q, p, 0 + last, cuts[last], cuts[last + 1]);
    }
  }

  lemma {:induction false} KeptPlace(visit: seq<set<Node>>, src: Node, dst: Node, i: nat, n: nat)
    requires i < n <= |visit| && Kept(visit, src, dst, i)
    ensures var k := |Remaining(visit, src, dst, i)|;
      k < |Remaining(visit, src, dst, n)| && Remaining(visit, src, dst, n)[k] == visit[i]
  {
    if i < n - 1 {
      KeptPlace(visit, src, dst, i, n - 1);
    }
  }

  /** A walk that the sanitized query accepts visits every set that the caller gave, in order:
      the cleared sets at the ends of the walk, the empty ones left aside. */
  lemma AcceptedVisitsAll(src: Node, dst: Node, g: AdjacencyList, ex: Exclusion, visit: seq<set<Node>>, p: Links)
    returns (stops: seq<nat>)
    requires VisitQuery.Visits(Sanitized(src, dst, g, ex, visit), p)
    ensures StopsAt(visit, src, p, stops)
  {
    hide VisitQuery.Leg;
    var q := Sanitized(src, dst, g, ex, visit);
    var cuts: seq<nat> :| VisitQuery.Legs(q, p, 0, cuts) && cuts[0] == 0;
    stops := seq(|visit|, i requires 0 <= i < |visit| => StopFor(visit, src, dst, p, cuts, i));
    hide VisitQuery.Legs, StopFor;
    forall i, j | 0 <= i < j < |visit| ensures stops[i] <= stops[j] {
      StopsAscend(visit, q, p, cuts, i, j);
    }
    forall i | 0 <= i < |visit| ensures stops[i] <= |p| && (visit[i] != {} ==> At(src, p, stops[i]) in visit[i]) {
      StopStands(visit, q, p, cuts, i);
    }
  }

  // ---------- the enumeration finds nothing shorter ----------

  /** Standing on a set that remains is standing on the set it comes from. */
  lemma StandsOnGiven(visit: seq<set<Node>>, src: Node, dst: Node, p: Links, a: nat, k: nat) returns (i: nat)
    requires VisitOrder.Stands(Remaining(visit, src, dst, |visit|), src, p, a, k)
    ensures VisitOrder.Stands(visit, src, p, a, i) && k == |Remaining(visit, src, dst, i)| && Kept(visit, src, dst, i)
  {
    i := ComesFrom(visit, src, dst, |visit|, k);
  }

  lemma RemainingNeverBack(visit: seq<set<Node>>, src: Node, dst: Node, p: Links)
    requires VisitOrder.NeverBack(visit, src, p, |p|)
    ensures VisitOrder.NeverBack(Remaining(visit, src, dst, |visit|), src, p, |p|)
  {
    var r := Remaining(visit, src, dst, |visit|);
    forall a: nat, b: nat, k: nat, l: nat |
      a < b <= |p| && VisitOrder.Stands(r, src, p, a, k) && VisitOrder.Stands(r, src, p, b, l)
      ensures k <= l
    {
      var i := StandsOnGiven(visit, src, dst, p, a, k);
      var j := StandsOnGiven(visit, src, dst, p, b, l);
      assert i <= j;
      RemainingGrows(visit, src, dst, i, j);
    }
  }

  lemma RemainingMet(visit: seq<set<Node>>, src: Node, dst: Node, p: Links)
    requires VisitOrder.MeetsAll(visit, src, p)
    ensures VisitOrder.MeetsAll(Remaining(visit, src, dst, |visit|), src, p)
  {
    var r := Remaining(visit, src, dst, |visit|);
    forall k: nat | k < |r| ensures VisitOrder.Meets(r, src, p, |p|, k) {
      var i := ComesFrom(visit, src, dst, |visit|, k);
      assert VisitOrder.Meets(visit, src, p, |p|, i);
      var a: nat :| a <= |p| && VisitOrder.Stands(visit, src, p, a, i);
      assert VisitOrder.Stands(r, src, p, a, k);
    }
  }

  lemma MetSetsAreThere(visit: seq<set<Node>>, src: Node, p: Links)
    requires VisitOrder.MeetsAll(visit, src, p)
    ensures forall i :: 0 <= i < |visit| ==> visit[i] != {}
  {
    forall i: nat | i < |visit| ensures visit[i] != {} {
      assert VisitOrder.Meets(visit, src, p, |p|, i);
      var a: nat :| a <= |p| && VisitOrder.Stands(visit, src, p, a, i);
    }
  }

  lemma SimpleEndsOnce(q: VisitQuery.Query, p: Links)
    requires Simple(q.src, p) && At(q.src, p, |p|) == q.dst && VisitOrder.MeetsAll(q.visit, q.src, p)
    ensures VisitOrder.DestinationLast(q, q.src, p)
  {
    if q.visit != [] {
      assert VisitOrder.Meets(q.visit, q.src, p, |p|, |q.visit| - 1);
      forall m: nat | m < |p| ensures At(q.src, p, m) != q.dst {
        assert At(q.src, p, m) != At(q.src, p, |p|);
      }
    }
  }

  /** No path that the enumeration lists for the same constraints is shorter than the answer,
      and without an answer it lists none. */
  lemma EnumerationNotShorter(src: Node, dst: Node, g: AdjacencyList, ex: Exclusion, visit: seq<set<Node>>,
                              c: Dfs.ConstraintSet, p: Links, r: Option<Walk>)
    requires g.Valid() && Disjoint(visit) && VisitOrder.Names(c, visit)
    requires VisitQuery.ShortestVisit(Sanitized(src, dst, g, ex, visit), r)
    requires p != [] && Simple(src, p) && IsWalk(QueryView(g, ex, {}, {}), src, p, dst) && Dfs.Complies(c, p)
    ensures r.Some? && r.value.delay <= Delay(p)
  {
    var q := Sanitized(src, dst, g, ex, visit);
    assert p[0].src == src && At(src, p, 0) != At(src, p, |p|);
    hide Dfs.Complies, Simple, IsWalk;
    VisitOrder.CompliesIs(c, visit, src, p);
    RemainingNeverBack(visit, src, dst, p);
    RemainingMet(visit, src, dst, p);
    MetSetsAreThere(visit, src, p);
    RemainingDisjoint(visit, src, dst);
    ReadyIff(visit, src, dst);
    WalkEnd(QueryView(g, ex, {}, {}), src, p, dst);
    SimpleEndsOnce(q, p);
    hide VisitOrder.NeverBack, VisitOrder.MeetsAll, VisitOrder.DestinationLast, VisitQuery.Visits;
    VisitOrder.SegmentedIff(q, p);
    VisitQuery.SegmentedIsVisits(q, p);
  }

  lemma WalkEnd(view: View, u: Node, p: Links, v: Node)
    requires IsWalk(view, u, p, v)
    ensures At(u, p, |p|) == v
  {
  }
}
