/** The spur query of the shortest path generator when there are sets to visit: it starts in the
    list of sets where the root has got to. */
module SpurVisits {
  import opened Basics
  import opened Graphs
  import Dfs
  import VisitOrder
  import VisitQuery

  type Sets = seq<set<Node>>

  /** The root has met exactly the first `m` sets and never gone back. */
  ghost predicate RootInStep(visit: Sets, src: Node, root: Links, m: nat) {
    && m <= |visit| && VisitOrder.NeverBack(visit, src, root, |root|)
    && forall i: nat :: i < |visit| ==> (VisitOrder.Meets(visit, src, root, |root|, i) <==> i < m)
  }

  /** The question that is asked at the end of a root: the sets from `m` on. */
  function TailQuery(q: VisitQuery.Query, u: Node, m: nat): VisitQuery.Query
    requires m <= |q.visit|
  {
    q.(src := u, visit := q.visit[m..])
  }

  /** Root and tail together never go back to an earlier set. */
  ghost predicate GoesOn(q: VisitQuery.Query, src: Node, root: Links, p: Links) {
    VisitOrder.NeverBack(q.visit, src, root + p, |root + p|)
  }

  // ---------- root and tail, position by position ----------

  lemma AtJoined(src: Node, root: Links, u: Node, p: Links, a: nat)
    requires At(src, root, |root|) == u && a <= |root| + |p|
    ensures a <= |root| ==> At(src, root + p, a) == At(src, root, a)
    ensures a >= |root| ==> At(src, root + p, a) == At(u, p, a - |root|)
  {
  }

  lemma StandsOnRoot(visit: Sets, src: Node, root: Links, u: Node, p: Links, a: nat, i: nat)
    requires At(src, root, |root|) == u && a <= |root|
    ensures VisitOrder.Stands(visit, src, root + p, a, i) <==> VisitOrder.Stands(visit, src, root, a, i)
  {
    AtJoined(src, root, u, p, a);
  }

  lemma StandsOnTail(visit: Sets, src: Node, root: Links, u: Node, p: Links, m: nat, a: nat, i: nat)
    requires At(src, root, |root|) == u && a <= |p| && m <= |visit|
    ensures VisitOrder.Stands(visit, src, root + p, |root| + a, m + i) <==> VisitOrder.Stands(visit[m..], u, p, a, i)
  {
    AtJoined(src, root, u, p, |root| + a);
  }

  /** Without going back, the tail does not go back among the sets that are left. */
  lemma TailNeverBack(q: VisitQuery.Query, src: Node, root: Links, u: Node, p: Links, m: nat)
    requires At(src, root, |root|) == u && m <= |q.visit| && GoesOn(q, src, root, p)
    ensures VisitOrder.NeverBack(q.visit[m..], u, p, |p|)
  {
    hide At, VisitOrder.Stands;
    var rest := q.visit[m..];
    forall a: nat, b: nat, i: nat, j: nat
      | a < b <= |p| && VisitOrder.Stands(rest, u, p, a, i) && VisitOrder.Stands(rest, u, p, b, j)
      ensures i <= j
    {
      StandsOnTail(q.visit, src, root, u, p, m, a, i);
      StandsOnTail(q.visit, src, root, u, p, m, b, j);
      assert m + i <= m + j;
    }
  }

  lemma RootMeets(visit: Sets, src: Node, root: Links, u: Node, p: Links, i: nat)
    requires At(src, root, |root|) == u && VisitOrder.Meets(visit, src, root, |root|, i)
    ensures VisitOrder.Meets(visit, src, root + p, |root + p|, i)
  {
    var a: nat :| a <= |root| && VisitOrder.Stands(visit, src, root, a, i);
    StandsOnRoot(visit, src, root, u, p, a, i);
    hide VisitOrder.Stands;
    assert a <= |root + p|;
  }

  /** A set that the root has not met is met by both together exactly when the tail meets it. */
  lemma TailMeets(visit: Sets, src: Node, root: Links, u: Node, p: Links, m: nat, i: nat)
    requires At(src, root, |root|) == u && m <= |visit| && i < |visit| - m
    requires !VisitOrder.Meets(visit, src, root, |root|, m + i)
    ensures VisitOrder.Meets(visit, src, root + p, |root + p|, m + i) <==> VisitOrder.Meets(visit[m..], u, p, |p|, i)
  {
    hide At, VisitOrder.Stands;
    if VisitOrder.Meets(visit, src, root + p, |root + p|, m + i) {
      var a: nat :| a <= |root + p| && VisitOrder.Stands(visit, src, root + p, a, m + i);
      if a <= |root| {
        StandsOnRoot(visit, src, root, u, p, a, m + i);
      } else {
        StandsOnTail(visit, src, root, u, p, m, a - |root|, i);
      }
    }
    if VisitOrder.Meets(visit[m..], u, p, |p|, i) {
      var a: nat :| a <= |p| && VisitOrder.Stands(visit[m..], u, p, a, i);
      StandsOnTail(visit, src, root, u, p, m, a, i);
      assert |root| + a <= |root + p|;
    }
  }

  lemma AllMet(visit: Sets, src: Node, root: Links, u: Node, p: Links, m: nat)
    requires At(src, root, |root|) == u && RootInStep(visit, src, root, m)
    ensures VisitOrder.MeetsAll(visit, src, root + p) <==> VisitOrder.MeetsAll(visit[m..], u, p)
  {
    hide At, VisitOrder.Meets, VisitOrder.NeverBack;
    if VisitOrder.MeetsAll(visit, src, root + p) {
      forall i: nat | i < |visit[m..]| ensures VisitOrder.Meets(visit[m..], u, p, |p|, i) {
        TailMeets(visit, src, root, u, p, m, i);
        assert VisitOrder.Meets(visit, src, root + p, |root + p|, m + i);
      }
    }
    if VisitOrder.MeetsAll(visit[m..], u, p) {
      forall i: nat | i < |visit| ensures VisitOrder.Meets(visit, src, root + p, |root + p|, i) {
        if i < m {
          RootMeets(visit, src, root, u, p, i);
        } else {
          assert VisitOrder.Meets(visit[m..], u, p, |p|, i - m);
          TailMeets(visit, src, root, u, p, m, i - m);
        }
      }
    }
  }

  /** The end of the root is not in the next set. */
  lemma EndOutside(visit: Sets, src: Node, root: Links, m: nat)
    requires RootInStep(visit, src, root, m) && m < |visit|
    ensures At(src, root, |root|) !in visit[m]
  {
    hide VisitOrder.NeverBack;
    assert !VisitOrder.Meets(visit, src, root, |root|, m);
    assert !VisitOrder.Stands(visit, src, root, |root|, m);
  }

  // ---------- what the query answers ----------

  /** A way from the end of the root to the destination with which the root complies with the
      constraints, and which stands on the destination only after the last set. */
  ghost predicate IsTail(q: VisitQuery.Query, c: Dfs.ConstraintSet, root: Links, u: Node, m: nat, p: Links)
    requires m <= |q.visit|
  {
    var t := TailQuery(q, u, m);
    IsWalk(VisitOrder.BaseView(t), u, p, q.dst) && Dfs.Complies(c, root + p) && VisitOrder.DestinationLast(t, u, p)
  }

  lemma CompliesJoined(q: VisitQuery.Query, c: Dfs.ConstraintSet, src: Node, root: Links, u: Node, p: Links, m: nat)
    requires VisitOrder.Names(c, q.visit) && At(src, root, |root|) == u && RootInStep(q.visit, src, root, m)
    requires root == [] ==> m == 0
    requires root + p != [] ==> (root + p)[0].src == src
    ensures Dfs.Complies(c, root + p) <==> GoesOn(q, src, root, p) && VisitOrder.MeetsAll(q.visit, src, root + p)
  {
    if root + p == [] {
      assert root == [] && m == 0;
      hide VisitOrder.Stands, VisitOrder.Meets;
      assert q.visit != [] ==> !VisitOrder.Meets(q.visit, src, root, 0, 0);
    } else {
      VisitOrder.CompliesIs(c, q.visit, src, root + p);
    }
  }

  /** A tail of the root is a walk that the query accepts and that does not go back, and the
      other way round. */
  lemma TailIff(q: VisitQuery.Query, c: Dfs.ConstraintSet, src: Node, root: Links, u: Node, m: nat, p: Links)
    requires q.Valid() && VisitOrder.Names(c, q.visit) && (q.visit != [] ==> q.dst !in q.visit[|q.visit| - 1])
    requires At(src, root, |root|) == u && RootInStep(q.visit, src, root, m) && (root == [] ==> m == 0)
    requires root != [] ==> root[0].src == src
    ensures IsTail(q, c, root, u, m, p) <==>
      VisitQuery.Segmented(TailQuery(q, u, m), 0, u, p) && GoesOn(q, src, root, p)
  {
    var t := TailQuery(q, u, m);
    if m < |q.visit| {
      EndOutside(q.visit, src, root, m);
    }
    assert t.Valid() && t.EndsOutside();
    AllMet(q.visit, src, root, u, p, m);
    if GoesOn(q, src, root, p) {
      TailNeverBack(q, src, root, u, p, m);
      VisitOrder.SegmentedIff(t, p);
    }
    hide VisitQuery.Segmented, VisitOrder.MeetsAll, VisitOrder.DestinationLast, GoesOn, RootInStep, Dfs.Complies;
    if IsWalk(VisitOrder.BaseView(t), u, p, q.dst) {
      WalkStarts(VisitOrder.BaseView(t), src, root, u, p, q.dst);
      CompliesJoined(q, c, src, root, u, p, m);
    }
    if VisitQuery.Segmented(t, 0, u, p) {
      VisitOrder.SegmentsMeet(t, 0, u, p);
    }
  }

  lemma WalkStarts(view: View, src: Node, root: Links, u: Node, p: Links, v: Node)
    requires IsWalk(view, u, p, v) && At(src, root, |root|) == u && (root != [] ==> root[0].src == src)
    ensures root + p != [] ==> (root + p)[0].src == src
  {
  }

  /** No tail of the root is shorter than the answer of the spur query, and there is none when it
      has no answer; and the answer is itself a tail, and so a shortest one, if and only if it
      does not go back. */
  lemma SpurIsShortestTail(q: VisitQuery.Query, c: Dfs.ConstraintSet, src: Node, root: Links, u: Node, m: nat,
                           r: Option<Walk>)
    requires q.Valid() && VisitOrder.Names(c, q.visit) && (q.visit != [] ==> q.dst !in q.visit[|q.visit| - 1])
    requires At(src, root, |root|) == u && RootInStep(q.visit, src, root, m) && (root == [] ==> m == 0)
    requires root != [] ==> root[0].src == src
    requires VisitQuery.VisitAnswer(TailQuery(q, u, m), r) && u != q.dst
    ensures forall p: Links :: IsTail(q, c, root, u, m, p) ==> r.Some? && r.value.delay <= Delay(p)
    ensures r.Some? ==> (IsTail(q, c, root, u, m, r.value.links) <==> GoesOn(q, src, root, r.value.links))
  {
    assert m <= |q.visit|;
    hide IsTail, VisitQuery.Segmented, GoesOn, RootInStep, VisitOrder.Names, Delay;
    forall p: Links | IsTail(q, c, root, u, m, p) ensures r.Some? && r.value.delay <= Delay(p) {
      TailIff(q, c, src, root, u, m, p);
    }
    if r.Some? {
      TailIff(q, c, src, root, u, m, r.value.links);
    }
  }

  // ---------- the query of the generator ----------

  /** A root in step by the indices it has visited is in step by the sets it has met. */
  lemma InStepMeets(c: Dfs.ConstraintSet, visit: Sets, src: Node, root: Links, m: nat)
    requires VisitOrder.Names(c, visit) && root != [] && root[0].src == src && m <= |visit|
    ensures Dfs.InStep(c, root, m) <==> RootInStep(visit, src, root, m)
  {
    hide Dfs.Visited, VisitOrder.Meets, VisitOrder.NeverBack;
    VisitOrder.SortedIsNeverBack(c, visit, src, root, |root|);
    var visited := Dfs.Visited(c, root, |root|);
    forall i: nat | i < |visit| ensures i in visited <==> VisitOrder.Meets(visit, src, root, |root|, i) {
      VisitOrder.VisitedMeets(c, visit, src, root, |root|, i);
    }
    forall k | 0 <= k < |visited| ensures visited[k] < |visit| {
      VisitOrder.VisitedBelow(c, visit, src, root, |root|, k);
    }
    InOrderIs(visited, |visit|, m);
  }

  lemma InOrderIs(visited: seq<nat>, count: nat, m: nat)
    requires m <= count && forall k :: 0 <= k < |visited| ==> visited[k] < count
    ensures Dfs.InOrder(visited, m - 1) <==>
      Dfs.Sorted(visited) && forall i: nat :: i < count ==> (i in visited <==> i < m)
  {
    if Dfs.InOrder(visited, m - 1) {
      forall i: nat | i < count ensures i in visited <==> i < m {
        if i in visited {
          var k :| 0 <= k < |visited| && visited[k] == i;
          assert visited[k] <= visited[|visited| - 1];
        }
      }
    }
    if Dfs.Sorted(visited) && forall i: nat :: i < count ==> (i in visited <==> i < m) {
      assert m > 0 ==> m - 1 in visited;
      if visited != [] {
        var last := visited[|visited| - 1];
        assert last in visited && last < m;
        var k :| 0 <= k < |visited| && visited[k] == m - 1;
        assert visited[k] <= last;
      }
    }
  }

  /** The query of the generator: a shortest walk from the spur node through the sets that the
      root has not met. For a root in step that is an answer to the right question; any other
      root resumes where it has first left the order. */
  method ShortestPath(q: VisitQuery.Query, c: Dfs.ConstraintSet, u: Node, avoidNodes: set<Node>, avoidLinks: set<Link>,
                      root: Links)
    returns (r: Option<Walk>, ghost m: nat)
    requires q.Valid() && VisitOrder.Names(c, q.visit)
    ensures m <= |q.visit|
    ensures var t := q.(src := u, avoidNodes := avoidNodes, avoidLinks := avoidLinks, visit := q.visit[m..]);
      VisitQuery.VisitAnswer(t, r) && VisitQuery.ShortestVisit(t, r)
    ensures forall n :: Dfs.InStep(c, root, n) ==> m == n
    ensures Dfs.InStep(c, root, m) || exists k: nat, current: int :: Dfs.Stumbles(c, root, k, current, m)
  {
    hide VisitQuery.VisitAnswer, VisitQuery.ShortestVisit, Dfs.InStep, Dfs.Stumbles, Dfs.Complies;
    var toVisitIndex := Dfs.MinVisit(c, root);
    m := toVisitIndex;
    var t := q.(src := u, avoidNodes := avoidNodes, avoidLinks := avoidLinks, visit := q.visit[toVisitIndex..]);
    r := VisitQuery.ShortestPathStatic(t);
  }
}
