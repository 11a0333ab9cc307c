/** Waypoint constraints as callers state them, and the query that answers them. */
module Constraints {
  import opened Basics
  import opened Graphs
  import VisitQuery

  ghost predicate Disjoint(visit: seq<set<Node>>) {
    forall i, j :: 0 <= i < j < |visit| ==> visit[i] !! visit[j]
  }

  /** What the waypoint query says it assumes: no empty set, no shared node, and neither end
      point in the set next to it. */
  ghost predicate Ready(visit: seq<set<Node>>, src: Node, dst: Node) {
    && (forall i :: 0 <= i < |visit| ==> visit[i] != {})
    && Disjoint(visit)
    && (visit != [] ==> src !in visit[0] && dst !in visit[|visit| - 1])
  }

  /** A first set with the source, or a last one with the destination, is visited anyway. */
  predicate Cleared(visit: seq<set<Node>>, src: Node, dst: Node, i: nat)
    requires i < |visit|
  {
    (i == 0 && src in visit[i]) || (i == |visit| - 1 && dst in visit[i])
  }

  predicate Kept(visit: seq<set<Node>>, src: Node, dst: Node, i: nat)
    requires i < |visit|
  {
    !Cleared(visit, src, dst, i) && visit[i] != {}
  }

  ghost predicate Aborts(visit: seq<set<Node>>, src: Node, dst: Node) {
    exists i: nat :: i < |visit| && !Cleared(visit, src, dst, i) && src in visit[i] && dst in visit[i]
  }

  /** The first `n` sets without those that are cleared or empty. */
  function Remaining(visit: seq<set<Node>>, src: Node, dst: Node, n: nat): seq<set<Node>>
    requires n <= |visit|
  {
    if n == 0 then []
    else Remaining(visit, src, dst, n - 1) + if Kept(visit, src, dst, n - 1) then [visit[n - 1]] else []
  }

  /** Nothing stands for the abort on a set in the middle that holds both end points. */
  method SanitizeConstraints(visit: seq<set<Node>>, src: Node, dst: Node) returns (r: Option<seq<set<Node>>>)
    ensures r == if Aborts(visit, src, dst) then None else Some(Remaining(visit, src, dst, |visit|))
  {
    var out := [];
    for i := 0 to |visit|
      invariant out == Remaining(visit, src, dst, i)
      invariant forall j: nat :: j < i ==> Cleared(visit, src, dst, j) || src !in visit[j] || dst !in visit[j]
    {
      var nodes := visit[i];
      if i == 0 && src in nodes {
        nodes := {};
      } else if i == |visit| - 1 && dst in nodes {
        nodes := {};
      } else if src in nodes && dst in nodes {
        return None;
      }
      if nodes != {} {
        out := out + [nodes];
      }
    }
    return Some(out);
  }

  // ---------- when the result is ready for the query ----------

  /** Where an element of the result comes from. */
  lemma {:induction false} ComesFrom(visit: seq<set<Node>>, src: Node, dst: Node, n: nat, k: nat) returns (i: nat)
    requires n <= |visit| && k < |Remaining(visit, src, dst, n)|
    ensures i < n && Kept(visit, src, dst, i) && Remaining(visit, src, dst, n)[k] == visit[i]
    ensures k == |Remaining(visit, src, dst, i)|
  {
    if k < |Remaining(visit, src, dst, n - 1)| {
      i := ComesFrom(visit, src, dst, n - 1, k);
    } else {
      i := n - 1;
    }
  }

  lemma {:induction false} RemainingGrows(visit: seq<set<Node>>, src: Node, dst: Node, m: nat, n: nat)
    requires m <= n <= |visit|
    ensures |Remaining(visit, src, dst, m)| <= |Remaining(visit, src, dst, n)|
    ensures (exists i: nat :: m <= i < n && Kept(visit, src, dst, i)) <==>
      |Remaining(visit, src, dst, m)| < |Remaining(visit, src, dst, n)|
  {
    if m < n {
      RemainingGrows(visit, src, dst, m, n - 1);
    }
  }

  lemma RemainingDisjoint(visit: seq<set<Node>>, src: Node, dst: Node)
    requires Disjoint(visit)
    ensures var r := Remaining(visit, src, dst, |visit|); Disjoint(r) && forall k :: 0 <= k < |r| ==> r[k] != {}
  {
    var r := Remaining(visit, src, dst, |visit|);
    forall k: nat | k < |r| ensures r[k] != {} {
      var i := ComesFrom(visit, src, dst, |visit|, k);
    }
    forall k: nat, l: nat | k < l < |r| ensures r[k] !! r[l] {
      var i := ComesFrom(visit, src, dst, |visit|, k);
      var j := ComesFrom(visit, src, dst, |visit|, l);
      if j < i {
        RemainingGrows(visit, src, dst, j, i);
      }
    }
  }

  ghost predicate EmptyBetween(visit: seq<set<Node>>, from: nat, to: nat)
    requires to <= |visit|
  {
    forall j :: from <= j < to ==> visit[j] == {}
  }

  /** The source sits in a set behind empty ones only, and that set is not cleared. */
  ghost predicate SourceExposed(visit: seq<set<Node>>, src: Node, dst: Node) {
    exists a: nat :: 0 < a < |visit| && src in visit[a] && !Cleared(visit, src, dst, a) && EmptyBetween(visit, 0, a)
  }

  ghost predicate DestinationExposed(visit: seq<set<Node>>, src: Node, dst: Node) {
    exists b: nat ::
      b + 1 < |visit| && dst in visit[b] && !Cleared(visit, src, dst, b) && EmptyBetween(visit, b + 1, |visit|)
  }

  /** A first set left that holds the source has only empty sets before it. */
  lemma FirstKeptExposed(visit: seq<set<Node>>, src: Node, dst: Node, a: nat)
    requires Disjoint(visit) && a < |visit| && Kept(visit, src, dst, a) && src in visit[a]
    requires Remaining(visit, src, dst, a) == []
    ensures SourceExposed(visit, src, dst)
  {
    RemainingGrows(visit, src, dst, 0, a);
    forall j: nat | j < a ensures visit[j] == {} {
      assert !Kept(visit, src, dst, j);
      assert src in visit[a];
    }
    assert EmptyBetween(visit, 0, a);
  }

  /** A last set left that holds the destination has only empty sets behind it. */
  lemma LastKeptExposed(visit: seq<set<Node>>, src: Node, dst: Node, b: nat)
    requires Disjoint(visit) && b < |visit| && Kept(visit, src, dst, b) && dst in visit[b]
    requires |Remaining(visit, src, dst, b + 1)| == |Remaining(visit, src, dst, |visit|)|
    ensures DestinationExposed(visit, src, dst)
  {
    var n := |visit|;
    RemainingGrows(visit, src, dst, b + 1, n);
    forall j: nat | b < j < n ensures visit[j] == {} {
      assert !Kept(visit, src, dst, j);
      assert dst in visit[b];
    }
    assert EmptyBetween(visit, b + 1, n);
  }

  lemma FirstRemaining(visit: seq<set<Node>>, src: Node, dst: Node)
    requires Disjoint(visit)
    ensures var r := Remaining(visit, src, dst, |visit|); r != [] ==> (src in r[0] <==> SourceExposed(visit, src, dst))
    ensures Remaining(visit, src, dst, |visit|) == [] ==> !SourceExposed(visit, src, dst)
  {
    var r := Remaining(visit, src, dst, |visit|);
    if SourceExposed(visit, src, dst) {
      var a: nat :| 0 < a < |visit| && src in visit[a] && !Cleared(visit, src, dst, a) && EmptyBetween(visit, 0, a);
      assert Kept(visit, src, dst, a);
      RemainingGrows(visit, src, dst, 0, a);
      RemainingGrows(visit, src, dst, a, |visit|);
      var i := ComesFrom(visit, src, dst, |visit|, 0);
      SamePlace(visit, src, dst, i, a);
    }
    if r != [] && src in r[0] {
      var a := ComesFrom(visit, src, dst, |visit|, 0);
      FirstKeptExposed(visit, src, dst, a);
    }
  }

  /** Two kept sets at the same position of the result are the same set. */
  lemma SamePlace(visit: seq<set<Node>>, src: Node, dst: Node, i: nat, j: nat)
    requires i < |visit| && j < |visit| && Kept(visit, src, dst, i) && Kept(visit, src, dst, j)
    requires |Remaining(visit, src, dst, i)| == |Remaining(visit, src, dst, j)|
    ensures i == j
  {
    if i < j {
      RemainingGrows(visit, src, dst, i, j);
    } else if j < i {
      RemainingGrows(visit, src, dst, j, i);
    }
  }

  lemma LastRemaining(visit: seq<set<Node>>, src: Node, dst: Node)
    requires Disjoint(visit)
    ensures var r := Remaining(visit, src, dst, |visit|);
      r != [] ==> (dst in r[|r| - 1] <==> DestinationExposed(visit, src, dst))
    ensures Remaining(visit, src, dst, |visit|) == [] ==> !DestinationExposed(visit, src, dst)
  {
    var n := |visit|;
    var r := Remaining(visit, src, dst, n);
    if DestinationExposed(visit, src, dst) {
      var b: nat :| b + 1 < n && dst in visit[b] && !Cleared(visit, src, dst, b) && EmptyBetween(visit, b + 1, n);
      assert Kept(visit, src, dst, b);
      RemainingGrows(visit, src, dst, b + 1, n);
      RemainingGrows(visit, src, dst, b, b + 1);
      var i := ComesFrom(visit, src, dst, n, |r| - 1);
      SamePlace(visit, src, dst, i, b);
    }
    if r != [] && dst in r[|r| - 1] {
      var b := ComesFrom(visit, src, dst, n, |r| - 1);
      LastKeptExposed(visit, src, dst, b);
    }
  }

  /** The result is what the query assumes exactly when no end point hides behind empty
      sets; without empty sets it always is. */
  lemma ReadyIff(visit: seq<set<Node>>, src: Node, dst: Node)
    requires Disjoint(visit)
    ensures Ready(Remaining(visit, src, dst, |visit|), src, dst) <==>
      !SourceExposed(visit, src, dst) && !DestinationExposed(visit, src, dst)
    ensures (forall i :: 0 <= i < |visit| ==> visit[i] != {}) ==> Ready(Remaining(visit, src, dst, |visit|), src, dst)
  {
    RemainingDisjoint(visit, src, dst);
    FirstRemaining(visit, src, dst);
    LastRemaining(visit, src, dst);
    if forall i :: 0 <= i < |visit| ==> visit[i] != {} {
      forall from: nat, to: nat | from < to <= |visit| ensures !EmptyBetween(visit, from, to) {
        assert visit[from] != {};
      }
    }
  }

  /** The whole query: a shortest walk through the sets that remain, also where these are not
      what the query is said to assume. */
  method ShortestPathWithConstraints(src: Node, dst: Node, g: AdjacencyList, ex: Exclusion, visit: seq<set<Node>>)
    returns (aborts: bool, r: Option<Walk>)
    requires g.Valid() && Disjoint(visit)
    ensures aborts <==> Aborts(visit, src, dst)
    ensures !aborts ==> var q := VisitQuery.Query(src, dst, {}, {}, ex, Remaining(visit, src, dst, |visit|), g);
      VisitQuery.VisitAnswer(q, r) && VisitQuery.ShortestVisit(q, r)
  {
    hide VisitQuery.VisitAnswer, VisitQuery.ShortestVisit;
    var sanitized := SanitizeConstraints(visit, src, dst);
    if sanitized.None? {
      return true, None;
    }
    RemainingDisjoint(visit, src, dst);
    var answer := VisitQuery.ShortestPathStatic(VisitQuery.Query(src, dst, {}, {}, ex, sanitized.value, g));
    return false, answer;
  }

  // ---------- end points behind empty sets ----------

  /** A set with the source behind an empty one is handed on to the query, which meets it on
      the spot: every walk of the last segment will do. */
  lemma HiddenSource(src: Node, dst: Node, ex: Exclusion, g: AdjacencyList, p: Links)
    requires src != dst && src !in ex.nodes
    ensures var visit: seq<set<Node>> := [{}, {src}];
      && !Aborts(visit, src, dst) && Remaining(visit, src, dst, 2) == [{src}]
      && SourceExposed(visit, src, dst) && !Ready([{src}], src, dst)
    ensures var q := VisitQuery.Query(src, dst, {}, {}, ex, [{src}], g);
      IsWalk(q.SegmentView(1), src, p, dst) ==> VisitQuery.Segmented(q, 0, src, p)
  {
    var visit: seq<set<Node>> := [{}, {src}];
    assert Remaining(visit, src, dst, 1) == [];
    assert !Cleared(visit, src, dst, 1) && src in visit[1] && EmptyBetween(visit, 0, 1);
    var q := VisitQuery.Query(src, dst, {}, {}, ex, [{src}], g);
    if IsWalk(q.SegmentView(1), src, p, dst) {
      assert p[..0] == [] && p[0..] == p && p[..|p|] == p && p[|p|..] == [];
      assert VisitQuery.Segmented(q, 2, dst, []);
      assert VisitQuery.CutsAt(q, 1, src, p, |p|, dst);
      assert VisitQuery.Segmented(q, 1, src, p);
      assert VisitQuery.CutsAt(q, 0, src, p, 0, src);
    }
  }

  /** A set with only the destination before an empty one is handed on as well, and no walk
      meets it: the first segment must reach the destination and stay clear of it. */
  lemma HiddenDestination(src: Node, dst: Node, ex: Exclusion, g: AdjacencyList, p: Links)
    requires src != dst
    ensures var visit: seq<set<Node>> := [{dst}, {}];
      && !Aborts(visit, src, dst) && Remaining(visit, src, dst, 2) == [{dst}]
      && DestinationExposed(visit, src, dst) && !Ready([{dst}], src, dst)
    ensures !VisitQuery.Segmented(VisitQuery.Query(src, dst, {}, {}, ex, [{dst}], g), 0, src, p)
  {
    var visit: seq<set<Node>> := [{dst}, {}];
    assert Remaining(visit, src, dst, 1) == [{dst}];
    assert !Cleared(visit, src, dst, 0) && dst in visit[0] && EmptyBetween(visit, 1, 2);
    var q := VisitQuery.Query(src, dst, {}, {}, ex, [{dst}], g);
    forall k: nat, w: Node ensures !VisitQuery.CutsAt(q, 0, src, p, k, w) {
      if k <= |p| && w == dst {
        assert dst in q.SegmentView(0).blocked;
        assert k > 0 ==> p[..k][k - 1].dst == At(src, p[..k], k);
      }
    }
  }
}
