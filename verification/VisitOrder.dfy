/** How the two readings of "visit the sets in order" relate: the segments of the waypoint
    query and the test of the enumeration. */
module VisitOrder {
  import opened Basics
  import opened Graphs
  import Dfs
  import VisitQuery

  type Sets = seq<set<Node>>

  /** The constraints of the enumeration name the same sets. */
  ghost predicate Names(c: Dfs.ConstraintSet, visit: Sets) {
    && c.visitCount == |visit|
    && (forall n <- c.visitIndex :: c.visitIndex[n] < |visit|)
    && (forall n: Node, i: nat :: i < |visit| ==> (n in visit[i] <==> n in c.visitIndex && c.visitIndex[n] == i))
  }

  // ---------- compliance, position by position ----------

  /** At position `a` the walk stands on a node of set `i`. */
  ghost predicate Stands(visit: Sets, u: Node, p: Links, a: nat, i: nat) {
    a <= |p| && i < |visit| && At(u, p, a) in visit[i]
  }

  /** Up to position `n` the walk never goes back to an earlier set. */
  ghost predicate NeverBack(visit: Sets, u: Node, p: Links, n: nat) {
    forall a: nat, b: nat, i: nat, j: nat ::
      a < b <= n && Stands(visit, u, p, a, i) && Stands(visit, u, p, b, j) ==> i <= j
  }

  /** Some position up to `n` is in set `i`. */
  ghost predicate Meets(visit: Sets, u: Node, p: Links, n: nat, i: nat) {
    exists a: nat :: a <= n && Stands(visit, u, p, a, i)
  }

  ghost predicate MeetsAll(visit: Sets, u: Node, p: Links) {
    forall i: nat :: i < |visit| ==> Meets(visit, u, p, |p|, i)
  }

  /** Position `n` is in no set before one that was met up to position `m`. */
  ghost predicate Follows(visit: Sets, u: Node, p: Links, m: nat, n: nat) {
    forall i: nat, j: nat :: Stands(visit, u, p, n, j) && Meets(visit, u, p, m, i) ==> i <= j
  }

  lemma SortedSnoc(s: seq<nat>, x: nat)
    ensures Dfs.Sorted(s + [x]) <==> Dfs.Sorted(s) && forall k :: 0 <= k < |s| ==> s[k] <= x
  {
    var t := s + [x];
    assert t[|s|] == x && forall k :: 0 <= k < |s| ==> t[k] == s[k];
    if Dfs.Sorted(t) {
      forall i, j | 0 <= i < j < |s| ensures s[i] <= s[j] {
        assert t[i] <= t[j];
      }
      forall k | 0 <= k < |s| ensures s[k] <= x {
        assert t[k] <= t[|s|];
      }
    }
  }

  /** What one more position adds to the visited indices. */
  lemma VisitedStep(c: Dfs.ConstraintSet, u: Node, p: Links, n: nat)
    requires p != [] && p[0].src == u && n <= |p|
    ensures Dfs.Visited(c, p, n) ==
      (if n == 0 then [] else Dfs.Visited(c, p, n - 1))
      + if At(u, p, n) in c.visitIndex then [c.visitIndex[At(u, p, n)]] else []
  {
  }

  lemma {:induction false} VisitedMeets(c: Dfs.ConstraintSet, visit: Sets, u: Node, p: Links, n: nat, i: nat)
    requires Names(c, visit) && p != [] && p[0].src == u && n <= |p| && i < |visit|
    ensures i in Dfs.Visited(c, p, n) <==> Meets(visit, u, p, n, i)
  {
    VisitedStep(c, u, p, n);
    assert At(u, p, n) in visit[i] <==> At(u, p, n) in c.visitIndex && c.visitIndex[At(u, p, n)] == i;
    assert At(u, p, n) in visit[i] <==> Stands(visit, u, p, n, i);
    hide Dfs.Visited, Names, Stands;
    if n > 0 {
      VisitedMeets(c, visit, u, p, n - 1, i);
    }
  }

  lemma {:induction false} VisitedBelow(c: Dfs.ConstraintSet, visit: Sets, u: Node, p: Links, n: nat, k: nat)
    requires Names(c, visit) && p != [] && p[0].src == u && n <= |p| && k < |Dfs.Visited(c, p, n)|
    ensures Dfs.Visited(c, p, n)[k] < |visit|
  {
    VisitedStep(c, u, p, n);
    hide Dfs.Visited;
    if n > 0 && k < |Dfs.Visited(c, p, n - 1)| {
      VisitedBelow(c, visit, u, p, n - 1, k);
    }
  }

  lemma NeverBackStep(visit: Sets, u: Node, p: Links, m: nat, n: nat)
    requires n == m + 1 <= |p|
    ensures NeverBack(visit, u, p, n) <==> NeverBack(visit, u, p, m) && Follows(visit, u, p, m, n)
  {
    hide Stands;
    if NeverBack(visit, u, p, m) && Follows(visit, u, p, m, n) {
      forall a: nat, b: nat, i: nat, j: nat | a < b <= n && Stands(visit, u, p, a, i) && Stands(visit, u, p, b, j)
        ensures i <= j
      {
        assert b == n ==> Meets(visit, u, p, m, i);
      }
    }
    if NeverBack(visit, u, p, n) {
      forall i: nat, j: nat | Stands(visit, u, p, n, j) && Meets(visit, u, p, m, i) ensures i <= j {
        var a: nat :| a <= m && Stands(visit, u, p, a, i);
      }
    }
  }

  lemma SortedStep(c: Dfs.ConstraintSet, visit: Sets, u: Node, p: Links, m: nat, n: nat)
    requires Names(c, visit) && p != [] && p[0].src == u && n == m + 1 <= |p|
    ensures Dfs.Sorted(Dfs.Visited(c, p, n)) <==> Dfs.Sorted(Dfs.Visited(c, p, m)) && Follows(visit, u, p, m, n)
  {
    var before := Dfs.Visited(c, p, m);
    VisitedStep(c, u, p, n);
    hide Dfs.Visited;
    forall i: nat ensures Meets(visit, u, p, m, i) <==> i < |visit| && i in before {
      if i < |visit| {
        VisitedMeets(c, visit, u, p, m, i);
      }
    }
    if At(u, p, n) in c.visitIndex {
      var x := c.visitIndex[At(u, p, n)];
      SortedSnoc(before, x);
      OnlyAt(c, visit, u, p, n, x);
      forall k | 0 <= k < |before| ensures before[k] < |visit| {
        VisitedBelow(c, visit, u, p, m, k);
      }
      hide Meets, Stands, Dfs.Sorted, Names;
      FollowsIs(visit, u, p, m, n, before, x);
    } else {
      assert before + [] == before;
      NowhereAt(c, visit, u, p, n);
    }
  }

  lemma FollowsIs(visit: Sets, u: Node, p: Links, m: nat, n: nat, before: seq<nat>, x: nat)
    requires forall j: nat :: Stands(visit, u, p, n, j) <==> j == x
    requires forall i: nat :: Meets(visit, u, p, m, i) <==> i < |visit| && i in before
    requires forall k :: 0 <= k < |before| ==> before[k] < |visit|
    ensures Follows(visit, u, p, m, n) <==> forall k :: 0 <= k < |before| ==> before[k] <= x
  {
    hide Meets, Stands;
    if Follows(visit, u, p, m, n) {
      forall k | 0 <= k < |before| ensures before[k] <= x {
        assert Stands(visit, u, p, n, x) && Meets(visit, u, p, m, before[k]);
      }
    }
  }

  lemma NowhereAt(c: Dfs.ConstraintSet, visit: Sets, u: Node, p: Links, n: nat)
    requires Names(c, visit) && n <= |p| && At(u, p, n) !in c.visitIndex
    ensures forall j: nat :: !Stands(visit, u, p, n, j)
  {
  }

  lemma OnlyAt(c: Dfs.ConstraintSet, visit: Sets, u: Node, p: Links, n: nat, x: nat)
    requires Names(c, visit) && n <= |p| && At(u, p, n) in c.visitIndex && x == c.visitIndex[At(u, p, n)]
    ensures forall j: nat :: Stands(visit, u, p, n, j) <==> j == x
  {
    forall j: nat ensures Stands(visit, u, p, n, j) <==> j == x {
      assert j < |visit| ==> (At(u, p, n) in visit[j] <==> c.visitIndex[At(u, p, n)] == j);
    }
  }

  lemma {:induction false} SortedIsNeverBack(c: Dfs.ConstraintSet, visit: Sets, u: Node, p: Links, n: nat)
    requires Names(c, visit) && p != [] && p[0].src == u && n <= |p|
    ensures Dfs.Sorted(Dfs.Visited(c, p, n)) <==> NeverBack(visit, u, p, n)
  {
    if n == 0 {
      VisitedStep(c, u, p, 0);
    } else {
      hide Names, Dfs.Visited, Dfs.Sorted, NeverBack, Follows;
      SortedIsNeverBack(c, visit, u, p, n - 1);
      NeverBackStep(visit, u, p, n - 1, n);
      SortedStep(c, visit, u, p, n - 1, n);
    }
  }

  /** The test of the enumeration: all sets are met, and the walk never goes back. */
  lemma CompliesIs(c: Dfs.ConstraintSet, visit: Sets, u: Node, p: Links)
    requires Names(c, visit) && p != [] && p[0].src == u
    ensures Dfs.Complies(c, p) <==> NeverBack(visit, u, p, |p|) && MeetsAll(visit, u, p)
  {
    hide Dfs.Visited, NeverBack, Meets, Dfs.Sorted;
    SortedIsNeverBack(c, visit, u, p, |p|);
    forall i: nat | i < |visit| ensures i in Dfs.Visited(c, p, |p|) <==> Meets(visit, u, p, |p|, i) {
      VisitedMeets(c, visit, u, p, |p|, i);
    }
  }

  // ---------- segments, position by position ----------

  /** The view without regard to the sets. */
  ghost function BaseView(q: VisitQuery.Query): View {
    QueryView(q.g, q.ex, q.avoidNodes, q.avoidLinks)
  }

  /** Whenever the walk stands on the destination, it has met the last set. */
  ghost predicate DestinationLast(q: VisitQuery.Query, u: Node, p: Links) {
    q.visit != [] ==> forall m: nat :: m <= |p| && At(u, p, m) == q.dst ==> Meets(q.visit, u, p, m, |q.visit| - 1)
  }

  /** Position `a` is the first in set `i`. */
  ghost predicate IsFirst(visit: Sets, u: Node, p: Links, a: nat, i: nat) {
    Stands(visit, u, p, a, i) && forall b: nat :: b < a ==> !Stands(visit, u, p, b, i)
  }

  lemma {:induction false} FirstMeeting(visit: Sets, u: Node, p: Links, n: nat, i: nat) returns (a: nat)
    requires Meets(visit, u, p, n, i)
    ensures a <= n && IsFirst(visit, u, p, a, i)
  {
    hide Stands;
    if n > 0 && Meets(visit, u, p, n - 1, i) {
      a := FirstMeeting(visit, u, p, n - 1, i);
    } else {
      a := n;
    }
  }

  /** Where the segment that leads to layer `t` ends: at the start, or at the first position
      in set `t - 1`. */
  ghost predicate IsCut(visit: Sets, u: Node, p: Links, t: nat, a: nat) {
    if t == 0 then a == 0 else IsFirst(visit, u, p, a, t - 1)
  }

  lemma CutsAscend(visit: Sets, u: Node, p: Links, t: nat, a: nat, b: nat)
    requires NeverBack(visit, u, p, |p|) && IsCut(visit, u, p, t, a) && IsFirst(visit, u, p, b, t)
    ensures a <= b
  {
    assert a <= |p|;
    hide Stands;
  }

  lemma OneSet(visit: Sets, u: Node, p: Links, x: nat, i: nat, j: nat)
    requires forall i, j :: 0 <= i < j < |visit| ==> visit[i] !! visit[j]
    requires Stands(visit, u, p, x, i) && Stands(visit, u, p, x, j)
    ensures i == j
  {
  }

  /** Between two cuts the walk meets only the two sets that the segment may touch. */
  lemma BetweenCuts(visit: Sets, u: Node, p: Links, t: nat, a: nat, b: nat, x: nat, j: nat)
    requires forall i, j :: 0 <= i < j < |visit| ==> visit[i] !! visit[j]
    requires NeverBack(visit, u, p, |p|) && a <= x <= b <= |p| && Stands(visit, u, p, x, j)
    requires IsCut(visit, u, p, t, a) && (t < |visit| ==> Stands(visit, u, p, b, t)) && t <= |visit|
    ensures t <= j + 1 && (t < |visit| ==> j <= t) && j < |visit|
  {
    assert j < |visit|;
    if t > 0 && a == x {
      OneSet(visit, u, p, x, t - 1, j);
    }
    if t < |visit| && x == b {
      OneSet(visit, u, p, x, t, j);
    }
    hide Stands;
  }

  lemma LastNotEarlier(visit: Sets, u: Node, p: Links, t: nat, b: nat, n: nat)
    requires NeverBack(visit, u, p, |p|) && t < |visit| && IsFirst(visit, u, p, b, t) && n <= b <= |p|
    requires Stands(visit, u, p, n, |visit| - 1)
    ensures n == b
  {
    hide Stands;
  }

  /** Before the last segment the walk does not stand on the destination. */
  lemma BeforeDestination(q: VisitQuery.Query, p: Links, t: nat, b: nat, x: nat)
    requires q.Valid() && q.EndsOutside() && NeverBack(q.visit, q.src, p, |p|) && DestinationLast(q, q.src, p)
    requires t < |q.visit| && IsFirst(q.visit, q.src, p, b, t) && x <= b <= |p|
    ensures At(q.src, p, x) != q.dst
  {
    if At(q.src, p, x) == q.dst {
      var n: nat :| n <= x && Stands(q.visit, q.src, p, n, |q.visit| - 1);
      LastNotEarlier(q.visit, q.src, p, t, b, n);
    }
  }

  /** A part of a walk, in a view with the same links that blocks none of its nodes. */
  lemma SliceNarrow(view: View, narrow: View, u: Node, p: Links, v: Node, a: nat, b: nat)
    requires IsWalk(view, u, p, v) && narrow.links == view.links && a <= b <= |p|
    requires forall x: nat :: a <= x <= b ==> At(u, p, x) !in narrow.blocked
    ensures IsWalk(narrow, At(u, p, a), p[a..b], At(u, p, b))
  {
    var s, w := p[a..b], At(u, p, a);
    forall i: nat | i <= |s| ensures At(w, s, i) == At(u, p, a + i) {
    }
    forall i | 0 <= i < |s| ensures s[i] in narrow.links && s[i].src == At(w, s, i) && s[i].dst !in narrow.blocked {
      assert s[i] == p[a + i] && p[a + i].src == At(u, p, a + i) && s[i].dst == At(u, p, a + i + 1);
    }
    assert At(u, p, a) !in narrow.blocked;
  }

  /** The walk between two cuts is one that the segment allows. */
  lemma SegmentWalk(q: VisitQuery.Query, p: Links, t: nat, a: nat, b: nat)
    requires q.Valid() && q.EndsOutside() && IsWalk(BaseView(q), q.src, p, q.dst)
    requires NeverBack(q.visit, q.src, p, |p|) && DestinationLast(q, q.src, p)
    requires t <= |q.visit| && IsCut(q.visit, q.src, p, t, a) && a <= b <= |p|
    requires t < |q.visit| ==> IsFirst(q.visit, q.src, p, b, t)
    ensures IsWalk(q.SegmentView(t), At(q.src, p, a), p[a..b], At(q.src, p, b))
  {
    forall x: nat | a <= x <= b ensures At(q.src, p, x) !in q.SegmentView(t).blocked {
      NodeAllowed(q, p, t, a, b, x);
    }
    hide IsWalk;
    SliceNarrow(BaseView(q), q.SegmentView(t), q.src, p, q.dst, a, b);
  }

  lemma NodeAllowed(q: VisitQuery.Query, p: Links, t: nat, a: nat, b: nat, x: nat)
    requires q.Valid() && q.EndsOutside() && IsWalk(BaseView(q), q.src, p, q.dst)
    requires NeverBack(q.visit, q.src, p, |p|) && DestinationLast(q, q.src, p)
    requires t <= |q.visit| && IsCut(q.visit, q.src, p, t, a) && a <= x <= b <= |p|
    requires t < |q.visit| ==> IsFirst(q.visit, q.src, p, b, t)
    ensures At(q.src, p, x) !in q.SegmentView(t).blocked
  {
    var n := At(q.src, p, x);
    assert n !in BaseView(q).blocked;
    hide IsWalk;
    if t < |q.visit| {
      BeforeDestination(q, p, t, b, x);
    }
    forall j: nat | j < |q.visit| && j + 1 != t && j != t ensures n !in q.visit[j] {
      if n in q.visit[j] {
        assert Stands(q.visit, q.src, p, x, j);
        BetweenCuts(q.visit, q.src, p, t, a, b, x, j);
      }
    }
  }

  /** A walk that complies, from a cut on, splits into the segments of the query. */
  lemma {:induction false} FromCut(q: VisitQuery.Query, p: Links, t: nat, a: nat)
    requires q.Valid() && q.EndsOutside() && IsWalk(BaseView(q), q.src, p, q.dst)
    requires NeverBack(q.visit, q.src, p, |p|) && MeetsAll(q.visit, q.src, p) && DestinationLast(q, q.src, p)
    requires t <= |q.visit| && IsCut(q.visit, q.src, p, t, a) && a <= |p|
    ensures VisitQuery.Segmented(q, t, At(q.src, p, a), p[a..])
    decreases |q.visit| - t
  {
    var rest := p[a..];
    if t == |q.visit| {
      SegmentWalk(q, p, t, a, |p|);
      EndCut(q, p, a);
    } else {
      assert Meets(q.visit, q.src, p, |p|, t);
      var b := FirstMeeting(q.visit, q.src, p, |p|, t);
      CutsAscend(q.visit, q.src, p, t, a, b);
      SegmentWalk(q, p, t, a, b);
      FromCut(q, p, t + 1, b);
      var k, w := b - a, At(q.src, p, b);
      assert w in q.Layer(t + 1);
      hide *;
      JoinCut(q, p, t, a, b);
    }
  }

  lemma EndCut(q: VisitQuery.Query, p: Links, a: nat)
    requires a <= |p| && At(q.src, p, |p|) == q.dst
    requires IsWalk(q.SegmentView(|q.visit|), At(q.src, p, a), p[a..|p|], q.dst)
    ensures VisitQuery.Segmented(q, |q.visit|, At(q.src, p, a), p[a..])
  {
    hide IsWalk;
    var rest := p[a..];
    assert rest[..|rest|] == p[a..|p|] && rest[|rest|..] == [];
    assert VisitQuery.Segmented(q, |q.visit| + 1, q.dst, rest[|rest|..]);
    assert VisitQuery.CutsAt(q, |q.visit|, At(q.src, p, a), rest, |rest|, q.dst);
  }

  lemma JoinCut(q: VisitQuery.Query, p: Links, t: nat, a: nat, b: nat)
    requires t < |q.visit| && a <= b <= |p| && At(q.src, p, b) in q.Layer(t + 1)
    requires IsWalk(q.SegmentView(t), At(q.src, p, a), p[a..b], At(q.src, p, b))
    requires VisitQuery.Segmented(q, t + 1, At(q.src, p, b), p[b..])
    ensures VisitQuery.Segmented(q, t, At(q.src, p, a), p[a..])
  {
    hide IsWalk, At;
    var rest, k := p[a..], b - a;
    assert rest[..k] == p[a..b] && rest[k..] == p[b..];
    assert VisitQuery.CutsAt(q, t, At(q.src, p, a), rest, k, At(q.src, p, b));
  }

  // ---------- what segments give ----------

  lemma WiderView(view: View, wide: View, u: Node, p: Links, v: Node)
    requires IsWalk(view, u, p, v) && view.links == wide.links && wide.blocked <= view.blocked
    ensures IsWalk(wide, u, p, v)
  {
  }

  lemma AvoidsBlocked(view: View, u: Node, p: Links, v: Node, x: nat)
    requires IsWalk(view, u, p, v) && x <= |p|
    ensures At(u, p, x) !in view.blocked
  {
  }

  lemma ShiftedAt(u: Node, p: Links, k: nat, w: Node, x: nat)
    requires k <= |p| && At(u, p[..k], k) == w
    ensures x <= k ==> At(u, p[..k], x) == At(u, p, x)
    ensures x <= |p| - k ==> At(w, p[k..], x) == At(u, p, k + x)
  {
  }

  lemma SegmentedCut(q: VisitQuery.Query, t: nat, u: Node, p: Links) returns (k: nat, w: Node)
    requires t <= |q.visit| && VisitQuery.Segmented(q, t, u, p)
    ensures VisitQuery.CutsAt(q, t, u, p, k, w) && VisitQuery.Segmented(q, t + 1, w, p[k..])
    ensures IsWalk(BaseView(q), u, p[..k], w)
    ensures t == |q.visit| ==> p[k..] == [] && w == q.dst
  {
    k, w :| VisitQuery.CutsAt(q, t, u, p, k, w) && VisitQuery.Segmented(q, t + 1, w, p[k..]);
    WiderView(q.SegmentView(t), BaseView(q), u, p[..k], w);
  }

  /** A segmented walk is a walk of the view, meets the remaining sets, and stands on the
      destination only after the last of them. */
  lemma {:induction false} SegmentsMeet(q: VisitQuery.Query, t: nat, u: Node, p: Links)
    requires t <= |q.visit| && VisitQuery.Segmented(q, t, u, p)
    ensures IsWalk(BaseView(q), u, p, q.dst)
    ensures forall i: nat :: t <= i < |q.visit| ==> Meets(q.visit, u, p, |p|, i)
    ensures t < |q.visit| ==> DestinationLast(q, u, p)
    decreases |q.visit| - t
  {
    hide IsWalk, VisitQuery.Segmented, VisitQuery.CutsAt, Meets, DestinationLast, BaseView;
    var k, w := SegmentedCut(q, t, u, p);
    CutInside(q, t, u, p, k, w);
    var tail := p[k..];
    assert p == p[..k] + tail;
    if t == |q.visit| {
      assert p[..k] == p;
    } else {
      SegmentsMeet(q, t + 1, w, tail);
      WalkConcat(BaseView(q), u, p[..k], w, tail, q.dst);
      TailMeets(q, t, u, p, k, w, tail);
    }
  }

  lemma CutInside(q: VisitQuery.Query, t: nat, u: Node, p: Links, k: nat, w: Node)
    requires t <= |q.visit| && VisitQuery.CutsAt(q, t, u, p, k, w)
    ensures k <= |p|
  {
  }

  lemma ShiftedMeets(visit: Sets, u: Node, p: Links, k: nat, w: Node, n: nat, i: nat)
    requires k <= |p| && At(u, p[..k], k) == w && n <= |p| - k && Meets(visit, w, p[k..], n, i)
    ensures Meets(visit, u, p, k + n, i)
  {
    var a: nat :| a <= n && Stands(visit, w, p[k..], a, i);
    ShiftedAt(u, p, k, w, a);
    assert Stands(visit, u, p, k + a, i);
  }

  lemma TailMeets(q: VisitQuery.Query, t: nat, u: Node, p: Links, k: nat, w: Node, tail: Links)
    requires t < |q.visit| && VisitQuery.CutsAt(q, t, u, p, k, w) && tail == p[k..]
    requires forall i: nat :: t + 1 <= i < |q.visit| ==> Meets(q.visit, w, tail, |tail|, i)
    requires t + 1 < |q.visit| ==> DestinationLast(q, w, tail)
    ensures forall i: nat :: t <= i < |q.visit| ==> Meets(q.visit, u, p, |p|, i)
    ensures DestinationLast(q, u, p)
  {
    assert At(u, p[..k], k) == w;
    ShiftedAt(u, p, k, w, k);
    assert Stands(q.visit, u, p, k, t);
    forall i: nat | t <= i < |q.visit| ensures Meets(q.visit, u, p, |p|, i) {
      if i > t {
        ShiftedMeets(q.visit, u, p, k, w, |p| - k, i);
      }
    }
    var last := |q.visit| - 1;
    assert q.dst in q.SegmentView(t).blocked;
    forall m: nat | m <= |p| && At(u, p, m) == q.dst ensures Meets(q.visit, u, p, m, last) {
      ShiftedAt(u, p, k, w, m);
      if m <= k {
        AvoidsBlocked(q.SegmentView(t), u, p[..k], w, m);
      } else if t < last {
        ShiftedAt(u, p, k, w, m - k);
        assert Meets(q.visit, w, p[k..], m - k, last);
        ShiftedMeets(q.visit, u, p, k, w, m - k, last);
      }
    }
  }

  // ---------- the relation ----------

  /** A walk that never goes back to an earlier set is a walk of the waypoint query if and
      only if it is a walk of the view that meets all sets and stands on the destination only
      after the last of them. */
  lemma SegmentedIff(q: VisitQuery.Query, p: Links)
    requires q.Valid() && q.EndsOutside() && NeverBack(q.visit, q.src, p, |p|)
    ensures VisitQuery.Segmented(q, 0, q.src, p) <==>
      IsWalk(BaseView(q), q.src, p, q.dst) && MeetsAll(q.visit, q.src, p) && DestinationLast(q, q.src, p)
  {
    if VisitQuery.Segmented(q, 0, q.src, p) {
      SegmentsMeet(q, 0, q.src, p);
    }
    if IsWalk(BaseView(q), q.src, p, q.dst) && MeetsAll(q.visit, q.src, p) && DestinationLast(q, q.src, p) {
      FromCut(q, p, 0, 0);
      assert p[0..] == p;
    }
  }

  /** The same against the test of the enumeration: a walk complies and stands on the
      destination only after the last set exactly when the query accepts it and it never
      goes back. */
  lemma CompliesIffSegmented(q: VisitQuery.Query, c: Dfs.ConstraintSet, p: Links)
    requires q.Valid() && q.EndsOutside() && Names(c, q.visit)
    ensures IsWalk(BaseView(q), q.src, p, q.dst) && Dfs.Complies(c, p) && DestinationLast(q, q.src, p) <==>
      VisitQuery.Segmented(q, 0, q.src, p) && NeverBack(q.visit, q.src, p, |p|)
  {
    if p == [] {
      assert NeverBack(q.visit, q.src, p, 0);
      if q.visit != [] {
        assert !Meets(q.visit, q.src, [], 0, 0);
      }
    } else if IsWalk(BaseView(q), q.src, p, q.dst) {
      assert p[0].src == q.src;
      CompliesIs(c, q.visit, q.src, p);
    }
    hide IsWalk, NeverBack, MeetsAll, DestinationLast, Dfs.Complies, VisitQuery.Segmented;
    if NeverBack(q.visit, q.src, p, |p|) {
      SegmentedIff(q, p);
    }
  }

  // ---------- where the two differ ----------

  /** A chain of nodes 0 to 5. */
  ghost function Chain(): Links {
    [Link(0, 0, 1, 1), Link(1, 1, 2, 1), Link(2, 2, 3, 1), Link(3, 3, 4, 1), Link(4, 4, 5, 1)]
  }

  ghost function ChainGraph(): AdjacencyList {
    AdjacencyList(map[0 := [Chain()[0]], 1 := [Chain()[1]], 2 := [Chain()[2]], 3 := [Chain()[3]], 4 := [Chain()[4]]])
  }

  ghost function ZigzagQuery(): VisitQuery.Query {
    VisitQuery.Query(0, 5, {}, {}, Exclusion({}, {}), [{1, 3}, {2, 4}], ChainGraph())
  }

  lemma ChainLinks()
    ensures ChainGraph().Valid() && forall i :: 0 <= i < 5 ==> Chain()[i] in ChainGraph().AllLinks()
  {
    var g := ChainGraph();
    forall i | 0 <= i < 5 ensures Chain()[i] in g.AllLinks() {
      assert i in g.adj && Chain()[i] in g.adj[i];
    }
  }

  lemma NotExcluded(q: VisitQuery.Query, t: nat, n: Node)
    requires t <= |q.visit| && n !in q.avoidNodes && n !in q.ex.nodes && (t != |q.visit| ==> n != q.dst)
    requires forall j :: 0 <= j < |q.visit| && j + 1 != t && j != t ==> n !in q.visit[j]
    ensures n !in q.SegmentView(t).blocked
  {
  }

  lemma ChainSlice(view: View, a: nat, b: nat)
    requires a <= b <= 5 && forall i :: 0 <= i < 5 ==> Chain()[i] in view.links
    requires forall x: nat :: a <= x <= b ==> x !in view.blocked
    ensures IsWalk(view, a, Chain()[a..b], b) && At(0, Chain(), a) == a && At(0, Chain(), b) == b
  {
    hide Chain;
    ChainLength();
    var p := Chain()[a..b];
    forall i | 0 <= i < |p| ensures p[i] in view.links && p[i].src == At(a, p, i) && p[i].dst !in view.blocked {
      assert p[i] == Chain()[a + i];
      ChainAt(a + i);
      if i > 0 {
        ChainAt(a + i - 1);
        assert p[i - 1] == Chain()[a + i - 1];
      }
    }
    if a < b {
      ChainAt(b - 1);
      assert p[|p| - 1] == Chain()[b - 1];
    }
    if a > 0 {
      ChainAt(a - 1);
    }
  }

  lemma ChainLength()
    ensures |Chain()| == 5
  {
  }

  lemma ChainAt(i: nat)
    requires i < 5
    ensures |Chain()| == 5 && Chain()[i].src == i && Chain()[i].dst == i + 1
  {
  }

  lemma ZigzagSegments()
    ensures var q, p := ZigzagQuery(), Chain();
      && IsWalk(q.SegmentView(0), 0, p[0..1], 1) && IsWalk(q.SegmentView(1), 1, p[1..4], 4)
      && IsWalk(q.SegmentView(2), 4, p[4..5], 5)
      && At(0, p, 0) == 0 && At(0, p, 1) == 1 && At(0, p, 4) == 4 && At(0, p, 5) == 5
  {
    var q := ZigzagQuery();
    ChainLinks();
    assert q.visit[0] == {1, 3} && q.visit[1] == {2, 4};
    hide ChainGraph;
    forall x: nat | x <= 1 ensures x !in q.SegmentView(0).blocked {
      NotExcluded(q, 0, x);
    }
    forall x: nat | 1 <= x <= 4 ensures x !in q.SegmentView(1).blocked {
      NotExcluded(q, 1, x);
    }
    forall x: nat | 4 <= x <= 5 ensures x !in q.SegmentView(2).blocked {
      NotExcluded(q, 2, x);
    }
    hide IsWalk, Chain;
    ChainSlice(q.SegmentView(0), 0, 1);
    ChainSlice(q.SegmentView(1), 1, 4);
    ChainSlice(q.SegmentView(2), 4, 5);
  }

  lemma ZigzagFacts()
    ensures var q, p := ZigzagQuery(), Chain();
      && q.Valid() && q.EndsOutside() && |q.visit| == 2 && q.src == 0 && q.dst == 5
      && 1 in q.Layer(1) && 4 in q.Layer(2) && |p| == 5
  {
    ChainLinks();
    hide ChainGraph;
  }

  lemma ZigzagGoesBack()
    ensures !NeverBack(ZigzagQuery().visit, 0, Chain(), 5)
  {
    var visit, p := ZigzagQuery().visit, Chain();
    assert visit[0] == {1, 3} && visit[1] == {2, 4};
    assert Stands(visit, 0, p, 2, 1) && Stands(visit, 0, p, 3, 0);
  }

  /** Every walk along the chain has the same delay. */
  lemma {:induction false} ChainDelay(view: View, a: Node, p: Links, b: Node)
    requires IsWalk(view, a, p, b) && forall l <- view.links :: l.dst == l.src + 1 && l.delay == 1
    ensures b == a + Delay(p)
  {
    if p != [] {
      var n := |p| - 1;
      WalkSplit(view, a, p, b, n);
      ChainDelay(view, a, p[..n], At(a, p, n));
      assert p[n] in view.links;
    }
  }

  lemma ChainStep()
    ensures forall l <- ChainGraph().AllLinks() :: l.dst == l.src + 1 && l.delay == 1
  {
  }

  /** The chain is what the query answers, since all walks from end to end are as long. */
  lemma ZigzagIsTheAnswer()
    ensures VisitQuery.VisitAnswer(ZigzagQuery(), Some(Walk(Chain(), 5)))
  {
    var q := ZigzagQuery();
    ZigzagIsAccepted();
    ZigzagFacts();
    ChainStep();
    hide ChainGraph, Chain, VisitQuery.Segmented, IsWalk, Delay;
    forall p: Links | VisitQuery.Segmented(q, 0, 0, p) ensures Delay(p) == 5 {
      SegmentsMeet(q, 0, 0, p);
      ChainDelay(BaseView(q), 0, p, 5);
    }
  }

  /** The chain goes from the first set to the second, back and on again. The query accepts
      it as one segment from the first set to the second; the enumeration does not. */
  lemma ZigzagIsAccepted()
    ensures ZigzagQuery().Valid() && ZigzagQuery().EndsOutside() && VisitQuery.Segmented(ZigzagQuery(), 0, 0, Chain())
    ensures !NeverBack(ZigzagQuery().visit, 0, Chain(), 5)
    ensures forall c: Dfs.ConstraintSet :: Names(c, ZigzagQuery().visit) ==> !Dfs.Complies(c, Chain())
  {
    hide *;
    var q, p := ZigzagQuery(), Chain();
    ZigzagFacts();
    ZigzagGoesBack();
    forall c: Dfs.ConstraintSet | Names(c, q.visit) ensures !Dfs.Complies(c, p) {
      ChainAt(0);
      CompliesIs(c, q.visit, 0, p);
    }
    ZigzagSegments();
    assert p[4..] == p[4..5] && p[0..] == p;
    EndCut(q, p, 4);
    JoinCut(q, p, 1, 1, 4);
    JoinCut(q, p, 0, 0, 1);
  }
}
