/** Combining several lists of waypoints into one that obeys them all, by inserting each
    waypoint where it lengthens the way the least. */
module Waypoints {
  import opened Basics
  import opened Graphs
  import opened Dijkstra

  type Trees = map<Node, SpTree>

  // ---------- distances between waypoints ----------

  ghost predicate Reach(view: View, a: Node, b: Node) {
    exists p: Links :: IsWalk(view, a, p, b)
  }

  /** `d` is the least delay of a walk from `a` to `b`. */
  ghost predicate IsDistance(view: View, a: Node, b: Node, d: nat) {
    && (exists p: Links :: IsWalk(view, a, p, b) && Delay(p) == d)
    && forall p: Links :: IsWalk(view, a, p, b) ==> d <= Delay(p)
  }

  lemma {:induction false} DistanceExists(view: View, a: Node, b: Node, p: Links) returns (d: nat)
    requires IsWalk(view, a, p, b)
    ensures IsDistance(view, a, b, d)
    decreases Delay(p)
  {
    hide IsWalk, Delay;
    if q: Links :| IsWalk(view, a, q, b) && Delay(q) < Delay(p) {
      d := DistanceExists(view, a, b, q);
    } else {
      d := Delay(p);
    }
  }

  lemma ReachHasDistance(view: View, a: Node, b: Node)
    requires Reach(view, a, b)
    ensures exists d: nat :: IsDistance(view, a, b, d)
  {
    var p: Links :| IsWalk(view, a, p, b);
    var d := DistanceExists(view, a, b, p);
  }

  ghost function Distance(view: View, a: Node, b: Node): (d: nat)
    requires Reach(view, a, b)
    ensures IsDistance(view, a, b, d)
  {
    ReachHasDistance(view, a, b);
    var d: nat :| IsDistance(view, a, b, d);
    d
  }

  lemma OneDistance(view: View, a: Node, b: Node, d: nat)
    requires IsDistance(view, a, b, d)
    ensures Reach(view, a, b) && Distance(view, a, b) == d
  {
    hide IsWalk, Delay;
    var p: Links :| IsWalk(view, a, p, b) && Delay(p) == d;
    assert Reach(view, a, b);
    var q: Links :| IsWalk(view, a, q, b) && Delay(q) == Distance(view, a, b);
  }

  /** Distances obey the triangle inequality. */
  lemma Triangle(view: View, a: Node, via: Node, b: Node)
    requires Reach(view, a, via) && Reach(view, via, b)
    ensures Reach(view, a, b) && Distance(view, a, b) <= Distance(view, a, via) + Distance(view, via, b)
  {
    hide IsWalk, Delay;
    var p: Links :| IsWalk(view, a, p, via) && Delay(p) == Distance(view, a, via);
    var q: Links :| IsWalk(view, via, q, b) && Delay(q) == Distance(view, via, b);
    WalkConcat(view, a, p, via, q, b);
    DelayConcat(p, q);
    assert IsWalk(view, a, p + q, b);
  }

  /** A shortest path tree for each node, towards all of them. */
  ghost predicate TreesOk(view: View, nodes: set<Node>, trees: Trees) {
    forall a <- nodes :: a in trees && TreeOk(view, nodes, a, trees[a])
  }

  ghost predicate TreeOk(view: View, nodes: set<Node>, a: Node, tree: SpTree) {
    tree.src == a && tree.destinations == nodes && Correct(tree, view)
  }

  /** Trees for all nodes, whether or not they reach one another. */
  method GetSpTrees(nodes: set<Node>, ex: Exclusion, g: AdjacencyList) returns (trees: Trees)
    requires g.Valid()
    ensures TreesOk(QueryView(g, ex, {}, {}), nodes, trees)
  {
    hide QueryView, Correct;
    trees := map[];
    var todo := nodes;
    while todo != {}
      invariant todo <= nodes
      invariant forall a <- nodes - todo :: a in trees && TreeOk(QueryView(g, ex, {}, {}), nodes, a, trees[a])
    {
      var node :| node in todo;
      var tree := ComputePaths(node, nodes, ex, g, {}, {});
      trees := trees[node := tree];
      todo := todo - {node};
    }
    assert nodes - todo == nodes;
  }

  /** The distance, or nothing (an abort) when there is none. */
  method DelayOrDie(trees: Trees, a: Node, b: Node, ghost nodes: set<Node>, ghost view: View) returns (d: Option<nat>)
    requires TreesOk(view, nodes, trees) && a in nodes && b in nodes
    ensures d == if Reach(view, a, b) then Some(Distance(view, a, b)) else None
  {
    hide Correct;
    d := GetPathDistance(trees[a], b, view);
    AnswerIsDistance(view, a, b, d);
  }

  lemma AnswerIsDistance(view: View, a: Node, b: Node, d: Option<nat>)
    requires DistanceAnswer(view, a, b, d)
    ensures d == if Reach(view, a, b) then Some(Distance(view, a, b)) else None
  {
    hide IsWalk, Delay, Simple;
    if d.Some? {
      var p: Links :| Reaches(view, a, p, b, d.value);
      assert IsWalk(view, a, p, b) && Delay(p) == d.value;
      OneDistance(view, a, b, d.value);
    }
  }

  // ---------- where a waypoint fits best ----------

  ghost predicate AllIn(list: seq<Node>, nodes: set<Node>) {
    forall n <- list :: n in nodes
  }

  /** There is a way over `w` from position `i` to the next. */
  ghost predicate Fits(view: View, list: seq<Node>, i: nat, w: Node) {
    i + 1 < |list| && Reach(view, list[i], w) && Reach(view, w, list[i + 1])
  }

  ghost predicate FitsFrom(view: View, list: seq<Node>, start: nat, w: Node) {
    forall i: nat :: start <= i && i + 1 < |list| ==> Fits(view, list, i, w)
  }

  /** How much longer the way gets when `w` is put between positions `i` and `i + 1`. */
  ghost function Delta(view: View, list: seq<Node>, i: nat, w: Node): nat
    requires Fits(view, list, i, w)
  {
    Triangle(view, list[i], w, list[i + 1]);
    Distance(view, list[i], w) + Distance(view, w, list[i + 1]) - Distance(view, list[i], list[i + 1])
  }

  /** The first position from `start` on at which inserting `w` costs the least. */
  ghost predicate Cheapest(view: View, list: seq<Node>, start: nat, w: Node, best: nat) {
    && FitsFrom(view, list, start, w) && start <= best && best + 1 < |list|
    && (forall i: nat :: start <= i && i + 1 < |list| ==> NoMore(view, list, w, best, i))
  }

  /** Position `a` costs no more than `b`, and less if it comes later. */
  ghost predicate NoMore(view: View, list: seq<Node>, w: Node, a: nat, b: nat) {
    && Fits(view, list, a, w) && Fits(view, list, b, w)
    && Delta(view, list, a, w) <= Delta(view, list, b, w)
    && (b < a ==> Delta(view, list, a, w) < Delta(view, list, b, w))
  }

  lemma OneCheapest(view: View, list: seq<Node>, start: nat, w: Node, a: nat, b: nat)
    requires Cheapest(view, list, start, w, a) && Cheapest(view, list, start, w, b)
    ensures a == b
  {
    hide Fits, Delta;
    assert NoMore(view, list, w, a, b) && NoMore(view, list, w, b, a);
  }

  /** The cheapest position, and nothing exactly when one of the distances that are asked for is
      missing. The check that a detour is no shorter never fails. */
  method ClosestTo(trees: Trees, list: seq<Node>, w: Node, startIndex: nat, nodes: set<Node>, ghost view: View)
    returns (best: Option<nat>)
    requires TreesOk(view, nodes, trees) && AllIn(list, nodes) && w in nodes && startIndex + 1 < |list|
    ensures best.Some? <==> FitsFrom(view, list, startIndex, w)
    ensures best.Some? ==> Cheapest(view, list, startIndex, w, best.value)
  {
    hide TreesOk, Reach, Distance;
    var bestDelta: Option<nat>, bestI := None, 0;
    for i := startIndex to |list| - 1
      invariant bestDelta.None? <==> i == startIndex
      invariant bestDelta.Some? ==> BestSoFar(view, list, startIndex, i, w, bestI, bestDelta.value)
    {
      assert list[i] in list && list[i + 1] in list;
      var direct := DelayOrDie(trees, list[i], list[i + 1], nodes, view);
      if direct.None? {
        NoWayOver(view, list, i, w);
        return None;
      }
      var there := DelayOrDie(trees, list[i], w, nodes, view);
      var back := DelayOrDie(trees, w, list[i + 1], nodes, view);
      if there.None? || back.None? {
        assert !Fits(view, list, i, w);
        return None;
      }
      Triangle(view, list[i], w, list[i + 1]);
      var indirect := there.value + back.value;
      assert indirect >= direct.value;
      var delta := indirect - direct.value;
      BestGrows(view, list, startIndex, i, w, bestDelta, bestI, delta);
      if bestDelta.None? || delta < bestDelta.value {
        bestDelta, bestI := Some(delta), i;
      }
    }
    BestIsCheapest(view, list, startIndex, w, bestI, bestDelta.value);
    best := Some(bestI);
  }

  lemma NoWayOver(view: View, list: seq<Node>, i: nat, w: Node)
    requires i + 1 < |list| && !Reach(view, list[i], list[i + 1])
    ensures !Fits(view, list, i, w)
  {
    hide Reach, Distance;
    if Fits(view, list, i, w) {
      Triangle(view, list[i], w, list[i + 1]);
    }
  }

  ghost predicate BestSoFar(view: View, list: seq<Node>, start: nat, end: nat, w: Node, best: nat, delta: nat) {
    && start <= best < end && Fits(view, list, best, w) && Delta(view, list, best, w) == delta
    && forall i: nat :: start <= i < end ==> NoMore(view, list, w, best, i)
  }

  lemma BestGrows(view: View, list: seq<Node>, start: nat, i: nat, w: Node, before: Option<nat>, best: nat, delta: nat)
    requires start <= i && Fits(view, list, i, w) && Delta(view, list, i, w) == delta
    requires if before.None? then i == start else BestSoFar(view, list, start, i, w, best, before.value)
    ensures if before.None? || delta < before.value then BestSoFar(view, list, start, i + 1, w, i, delta)
            else BestSoFar(view, list, start, i + 1, w, best, before.value)
  {
    hide Fits, Delta;
    var best' := if before.None? || delta < before.value then i else best;
    forall j: nat | start <= j < i + 1 ensures NoMore(view, list, w, best', j) {
      assert j < i ==> NoMore(view, list, w, best, j);
    }
  }

  lemma BestIsCheapest(view: View, list: seq<Node>, start: nat, w: Node, best: nat, delta: nat)
    requires start + 1 < |list| && BestSoFar(view, list, start, |list| - 1, w, best, delta)
    ensures Cheapest(view, list, start, w, best)
  {
    hide Delta;
    forall i: nat | start <= i && i + 1 < |list| ensures NoMore(view, list, w, best, i) && Fits(view, list, i, w) {
      assert NoMore(view, list, w, best, i);
    }
  }

  // ---------- order ----------

  /** `s` is found in `t` at the increasing positions `f`. */
  ghost predicate Embeds(s: seq<Node>, t: seq<Node>, f: seq<nat>) {
    && |f| == |s|
    && (forall i :: 0 <= i < |f| ==> f[i] < |t| && t[f[i]] == s[i])
    && (forall i, j :: 0 <= i < j < |f| ==> f[i] < f[j])
  }

  ghost predicate IsSubsequence(s: seq<Node>, t: seq<Node>) {
    exists f :: Embeds(s, t, f)
  }

  function Inserted(t: seq<Node>, at: nat, w: Node): seq<Node>
    requires at <= |t|
  {
    t[..at] + [w] + t[at..]
  }

  lemma InsertKeepsOrder(s: seq<Node>, t: seq<Node>, at: nat, w: Node)
    requires IsSubsequence(s, t) && at <= |t|
    ensures IsSubsequence(s, Inserted(t, at, w))
  {
    var f :| Embeds(s, t, f);
    var g := seq(|f|, i requires 0 <= i < |f| => if f[i] < at then f[i] else f[i] + 1);
    assert Embeds(s, Inserted(t, at, w), g);
  }

  lemma SubsequenceRefl(s: seq<Node>)
    ensures IsSubsequence(s, s)
  {
    assert Embeds(s, s, seq(|s|, i => i));
  }

  lemma SubsequenceTransitive(s: seq<Node>, t: seq<Node>, u: seq<Node>)
    requires IsSubsequence(s, t) && IsSubsequence(t, u)
    ensures IsSubsequence(s, u)
  {
    var f :| Embeds(s, t, f);
    var g :| Embeds(t, u, g);
    assert Embeds(s, u, seq(|f|, i requires 0 <= i < |f| => g[f[i]]));
  }

  lemma SubsequenceExtends(s: seq<Node>, t: seq<Node>, n: nat, m: nat)
    requires n <= m <= |t| && IsSubsequence(s, t[..n])
    ensures IsSubsequence(s, t[..m])
  {
    var f :| Embeds(s, t[..n], f);
    assert Embeds(s, t[..m], f);
  }

  /** Inserting `w` at or after position `n` puts it behind everything found before. */
  lemma InsertAppends(s: seq<Node>, t: seq<Node>, n: nat, at: nat, w: Node)
    requires n <= at <= |t| && IsSubsequence(s, t[..n])
    ensures IsSubsequence(s + [w], Inserted(t, at, w)[..at + 1])
  {
    SubsequenceExtends(s, t, n, at);
    var f :| Embeds(s, t[..at], f);
    assert Inserted(t, at, w)[..at + 1] == t[..at] + [w];
    assert Embeds(s + [w], t[..at] + [w], f + [at]);
  }

  // ---------- merging ----------

  /** The waypoints without the source and destination at the ends. */
  function Inner(current: seq<Node>): seq<Node>
    requires |current| >= 2
  {
    current[1..|current| - 1]
  }

  lemma InnerInserted(current: seq<Node>, index: nat, w: Node)
    requires index + 1 < |current|
    ensures var c' := Inserted(current, index + 1, w);
      && Inner(c') == Inserted(Inner(current), index, w)
      && c'[0] == current[0] && c'[|c'| - 1] == current[|current| - 1] && |c'| == |current| + 1
  {
    var c', inner := Inserted(current, index + 1, w), Inner(current);
    assert |inner| == |current| - 2;
    forall k: nat | k <= |inner| ensures Inner(c')[k] == Inserted(inner, index, w)[k] {
      assert Inner(c')[k] == c'[k + 1];
    }
  }

  lemma InsertedMultiset(t: seq<Node>, at: nat, w: Node)
    requires at <= |t|
    ensures multiset(Inserted(t, at, w)) == multiset(t) + multiset{w}
  {
    assert t == t[..at] + t[at..];
  }

  /** What merging the first `k` waypoints of a list has kept. */
  ghost predicate Merged(start: seq<Node>, merged: seq<Node>, current: seq<Node>, prev: nat) {
    && |current| >= 2 && |start| >= 2 && prev <= |Inner(current)|
    && current[0] == start[0] && current[|current| - 1] == start[|start| - 1]
    && IsSubsequence(Inner(start), Inner(current)) && IsSubsequence(merged, Inner(current)[..prev])
    && multiset(Inner(current)) == multiset(Inner(start)) + multiset(merged)
  }

  lemma MergedOneMore(start: seq<Node>, merged: seq<Node>, current: seq<Node>, prev: nat, index: nat, w: Node)
    requires Merged(start, merged, current, prev) && prev <= index && index + 1 < |current|
    ensures Merged(start, merged + [w], Inserted(current, index + 1, w), index + 1)
  {
    hide IsSubsequence;
    var t := Inner(current);
    InnerInserted(current, index, w);
    SubsequenceRefl(t);
    InsertKeepsOrder(t, t, index, w);
    SubsequenceTransitive(Inner(start), t, Inserted(t, index, w));
    InsertAppends(merged, t, prev, index, w);
    InsertedMultiset(t, index, w);
    hide Inserted;
  }

  /** Every waypoint that is merged, one after another and each at its cheapest position, finds
      the distances it needs. */
  ghost predicate Mergeable(view: View, toMerge: seq<Node>, list: seq<Node>, prev: nat)
    decreases |toMerge|
  {
    toMerge == [] ||
      (FitsFrom(view, list, prev, toMerge[0])
       && forall best: nat :: Cheapest(view, list, prev, toMerge[0], best) ==>
         Mergeable(view, toMerge[1..], Inserted(list, best + 1, toMerge[0]), best + 1))
  }

  /** The list that this leads to. */
  ghost predicate MergesTo(view: View, toMerge: seq<Node>, list: seq<Node>, prev: nat, out: seq<Node>)
    decreases |toMerge|
  {
    if toMerge == [] then out == list
    else exists best: nat :: Cheapest(view, list, prev, toMerge[0], best)
                             && MergesTo(view, toMerge[1..], Inserted(list, best + 1, toMerge[0]), best + 1, out)
  }

  lemma {:induction false} OneMerge(view: View, toMerge: seq<Node>, list: seq<Node>, prev: nat, a: seq<Node>,
                                    b: seq<Node>)
    requires MergesTo(view, toMerge, list, prev, a) && MergesTo(view, toMerge, list, prev, b)
    ensures a == b
    decreases |toMerge|
  {
    if toMerge != [] {
      hide Cheapest, Inserted;
      var w, rest := toMerge[0], toMerge[1..];
      var x: nat :| Cheapest(view, list, prev, w, x) && MergesTo(view, rest, Inserted(list, x + 1, w), x + 1, a);
      var y: nat :| Cheapest(view, list, prev, w, y) && MergesTo(view, rest, Inserted(list, y + 1, w), y + 1, b);
      OneCheapest(view, list, prev, w, x, y);
      OneMerge(view, rest, Inserted(list, x + 1, w), x + 1, a, b);
    }
  }

  /** One step of the merge, from the front of what is left to merge. */
  lemma MergeStep(view: View, toMerge: seq<Node>, k: nat, list: seq<Node>, prev: nat, best: nat)
    requires k < |toMerge| && Cheapest(view, list, prev, toMerge[k], best)
    ensures var next := Inserted(list, best + 1, toMerge[k]);
      && (Mergeable(view, toMerge[k..], list, prev) <==> Mergeable(view, toMerge[k + 1..], next, best + 1))
      && forall out :: MergesTo(view, toMerge[k + 1..], next, best + 1, out) ==>
        MergesTo(view, toMerge[k..], list, prev, out)
  {
    hide Cheapest, Inserted, FitsFrom;
    CheapestFits(view, list, prev, toMerge[k], best);
    assert toMerge[k..][0] == toMerge[k] && toMerge[k..][1..] == toMerge[k + 1..];
    forall other: nat | Cheapest(view, list, prev, toMerge[k], other) ensures other == best {
      OneCheapest(view, list, prev, toMerge[k], best, other);
    }
  }

  lemma CheapestFits(view: View, list: seq<Node>, start: nat, w: Node, best: nat)
    requires Cheapest(view, list, start, w, best)
    ensures FitsFrom(view, list, start, w) && start <= best && best + 1 < |list|
  {
  }

  lemma NotMergeable(view: View, toMerge: seq<Node>, k: nat, list: seq<Node>, prev: nat)
    requires k < |toMerge| && !FitsFrom(view, list, prev, toMerge[k])
    ensures !Mergeable(view, toMerge[k..], list, prev)
  {
  }

  /** Merges a list into the current one between its ends: the order of both is kept and
      no waypoint is added or lost. The index handed to the search is always in range. Nothing
      comes of it exactly when a distance is missing that is asked for on the way. */
  method Merge(toMerge: seq<Node>, trees: Trees, current: seq<Node>, nodes: set<Node>, ghost view: View)
    returns (r: Option<seq<Node>>)
    requires TreesOk(view, nodes, trees) && |current| >= 2 && AllIn(current, nodes) && AllIn(toMerge, nodes)
    ensures r.Some? <==> Mergeable(view, toMerge, current, 0)
    ensures r.Some? ==> |r.value| >= 2 && Merged(current, toMerge, r.value, |r.value| - 2) && AllIn(r.value, nodes)
    ensures r.Some? ==> MergesTo(view, toMerge, current, 0, r.value)
  {
    hide *;
    var current', prev: nat := current, 0;
    MergeStarts(current, toMerge);
    assert toMerge[0..] == toMerge;
    for k := 0 to |toMerge|
      invariant |current'| >= 2 && prev + 1 < |current'| && AllIn(current', nodes)
      invariant Merged(current, toMerge[..k], current', prev)
      invariant Mergeable(view, toMerge, current, 0) <==> Mergeable(view, toMerge[k..], current', prev)
      invariant forall out :: MergesTo(view, toMerge[k..], current', prev, out) ==>
        MergesTo(view, toMerge, current, 0, out)
    {
      var w := toMerge[k];
      InAll(toMerge, nodes, w);
      var index := ClosestTo(trees, current', w, prev, nodes, view);
      if index.None? {
        NotMergeable(view, toMerge, k, current', prev);
        return None;
      }
      CheapestFits(view, current', prev, w, index.value);
      MergeStep(view, toMerge, k, current', prev, index.value);
      MergedOneMore(current, toMerge[..k], current', prev, index.value, w);
      assert toMerge[..k + 1] == toMerge[..k] + [w];
      InsertedIn(current', nodes, index.value + 1, w);
      current' := Inserted(current', index.value + 1, w);
      prev := index.value + 1;
    }
    assert toMerge[..|toMerge|] == toMerge;
    MergedToEnd(current, toMerge, current', prev);
    NothingToMerge(view, toMerge[|toMerge|..], current', prev);
    r := Some(current');
  }

  lemma InAll(list: seq<Node>, nodes: set<Node>, w: Node)
    requires AllIn(list, nodes) && w in list
    ensures w in nodes
  {
  }

  lemma InsertedIn(list: seq<Node>, nodes: set<Node>, at: nat, w: Node)
    requires AllIn(list, nodes) && at <= |list| && w in nodes
    ensures AllIn(Inserted(list, at, w), nodes) && |Inserted(list, at, w)| == |list| + 1
  {
  }

  lemma MergeStarts(current: seq<Node>, toMerge: seq<Node>)
    requires |current| >= 2
    ensures Merged(current, toMerge[..0], current, 0)
  {
    SubsequenceRefl(Inner(current));
    SubsequenceRefl([]);
    assert Inner(current)[..0] == [] == toMerge[..0];
  }

  lemma NothingToMerge(view: View, none: seq<Node>, list: seq<Node>, prev: nat)
    requires none == []
    ensures Mergeable(view, none, list, prev) && MergesTo(view, none, list, prev, list)
  {
  }

  lemma MergedToEnd(start: seq<Node>, merged: seq<Node>, current: seq<Node>, prev: nat)
    requires Merged(start, merged, current, prev)
    ensures Merged(start, merged, current, |current| - 2)
  {
    SubsequenceExtends(merged, Inner(current), prev, |Inner(current)|);
    hide IsSubsequence;
  }

  ghost function AllOf(lists: seq<seq<Node>>): multiset<Node> {
    if lists == [] then multiset{} else AllOf(lists[..|lists| - 1]) + multiset(lists[|lists| - 1])
  }

  /** All nodes between which distances are needed. */
  function Everything(src: Node, dst: Node, waypoints: seq<seq<Node>>): set<Node> {
    {src, dst} + set list <- waypoints, n <- list :: n
  }

  lemma MergedKeepsLists(start: seq<Node>, merged: seq<Node>, current: seq<Node>, list: seq<Node>)
    requires |current| >= 2 && Merged(start, merged, current, |current| - 2)
    ensures IsSubsequence(merged, Inner(current))
    ensures IsSubsequence(list, Inner(start)) ==> IsSubsequence(list, Inner(current))
  {
    hide IsSubsequence;
    assert Inner(current)[..|current| - 2] == Inner(current);
    if IsSubsequence(list, Inner(start)) {
      SubsequenceTransitive(list, Inner(start), Inner(current));
    }
  }

  /** All lists can be merged, one after another. */
  ghost predicate Combinable(view: View, lists: seq<seq<Node>>, current: seq<Node>)
    decreases |lists|
  {
    lists == [] ||
      (Mergeable(view, lists[0], current, 0)
       && forall next :: MergesTo(view, lists[0], current, 0, next) ==> Combinable(view, lists[1..], next))
  }

  /** The list that merging one list after another leads to. */
  ghost predicate CombinesTo(view: View, lists: seq<seq<Node>>, current: seq<Node>, out: seq<Node>)
    decreases |lists|
  {
    if lists == [] then out == current
    else exists next :: MergesTo(view, lists[0], current, 0, next) && CombinesTo(view, lists[1..], next, out)
  }

  /** There is only one. */
  lemma {:induction false} OneCombination(view: View, lists: seq<seq<Node>>, current: seq<Node>, a: seq<Node>,
                                          b: seq<Node>)
    requires CombinesTo(view, lists, current, a) && CombinesTo(view, lists, current, b)
    ensures a == b
    decreases |lists|
  {
    if lists != [] {
      hide MergesTo;
      var x :| MergesTo(view, lists[0], current, 0, x) && CombinesTo(view, lists[1..], x, a);
      var y :| MergesTo(view, lists[0], current, 0, y) && CombinesTo(view, lists[1..], y, b);
      OneMerge(view, lists[0], current, 0, x, y);
      OneCombination(view, lists[1..], x, a, b);
    }
  }

  lemma CombineStep(view: View, lists: seq<seq<Node>>, i: nat, current: seq<Node>, next: seq<Node>)
    requires i < |lists| && Mergeable(view, lists[i], current, 0) && MergesTo(view, lists[i], current, 0, next)
    ensures Combinable(view, lists[i..], current) <==> Combinable(view, lists[i + 1..], next)
    ensures forall out :: CombinesTo(view, lists[i + 1..], next, out) ==> CombinesTo(view, lists[i..], current, out)
  {
    hide Mergeable, MergesTo;
    assert lists[i..][0] == lists[i] && lists[i..][1..] == lists[i + 1..];
    forall other | MergesTo(view, lists[i], current, 0, other) ensures other == next {
      OneMerge(view, lists[i], current, 0, next, other);
    }
  }

  lemma NotCombinable(view: View, lists: seq<seq<Node>>, i: nat, current: seq<Node>)
    requires i < |lists| && !Mergeable(view, lists[i], current, 0)
    ensures !Combinable(view, lists[i..], current)
  {
  }

  lemma NothingToCombine(view: View, none: seq<seq<Node>>, current: seq<Node>)
    requires none == []
    ensures Combinable(view, none, current) && CombinesTo(view, none, current, current)
  {
  }

  /** The combined list is the one that the merges lead to; it obeys every list it was made from
      and holds their waypoints only. It aborts exactly without lists or when a distance is missing
      that is asked for on the way. */
  method CombineWaypoints(src: Node, dst: Node, ex: Exclusion, g: AdjacencyList, waypoints: seq<seq<Node>>)
    returns (combined: Option<seq<Node>>)
    requires g.Valid()
    ensures combined.Some? <==>
      waypoints != [] && Combinable(QueryView(g, ex, {}, {}), waypoints[1..], [src] + waypoints[0] + [dst])
    ensures combined.Some? ==> CombinesTo(QueryView(g, ex, {}, {}), waypoints[1..], [src] + waypoints[0] + [dst],
                                          [src] + combined.value + [dst])
    ensures combined.Some? ==> forall k :: 0 <= k < |waypoints| ==> IsSubsequence(waypoints[k], combined.value)
    ensures combined.Some? ==> multiset(combined.value) == AllOf(waypoints)
  {
    hide TreesOk, IsSubsequence, QueryView, Combinable, CombinesTo, Mergeable, MergesTo;
    if waypoints == [] {
      return None;
    }
    var nodes := Everything(src, dst, waypoints);
    var trees := GetSpTrees(nodes, ex, g);
    ghost var view := QueryView(g, ex, {}, {});
    EverythingHolds(src, dst, waypoints);
    hide Everything;
    var current := [src] + waypoints[0] + [dst];
    assert Inner(current) == waypoints[0];
    SubsequenceRefl(waypoints[0]);
    FirstOf(waypoints);
    hide AllOf;
    for i := 1 to |waypoints|
      invariant |current| >= 2 && AllIn(current, nodes) && current[0] == src && current[|current| - 1] == dst
      invariant forall k :: 0 <= k < i ==> IsSubsequence(waypoints[k], Inner(current))
      invariant multiset(Inner(current)) == AllOf(waypoints[..i])
      invariant Combinable(view, waypoints[1..], [src] + waypoints[0] + [dst]) <==>
        Combinable(view, waypoints[i..], current)
      invariant forall out :: CombinesTo(view, waypoints[i..], current, out) ==>
        CombinesTo(view, waypoints[1..], [src] + waypoints[0] + [dst], out)
    {
      ghost var before := current;
      var merged := Merge(waypoints[i], trees, current, nodes, view);
      if merged.None? {
        NotCombinable(view, waypoints, i, current);
        return None;
      }
      current := merged.value;
      CombineStep(view, waypoints, i, before, current);
      forall k | 0 <= k < i + 1 ensures IsSubsequence(waypoints[k], Inner(current)) {
        MergedKeepsLists(before, waypoints[i], current, waypoints[k]);
      }
      OneMoreOf(waypoints, i);
    }
    assert waypoints[..|waypoints|] == waypoints;
    NothingToCombine(view, waypoints[|waypoints|..], current);
    assert current == [src] + Inner(current) + [dst];
    combined := Some(Inner(current));
  }

  // ---------- when nothing is missing ----------

  /** From all but the last of the list, and from `ws`, all of `ws` and all but the first of the
      list can be reached. */
  ghost predicate Forward(view: View, list: seq<Node>, ws: set<Node>) {
    && |list| >= 2
    && (forall i: nat, w <- ws :: i + 1 < |list| ==> Reach(view, list[i], w))
    && (forall i: nat, w <- ws :: 0 < i < |list| ==> Reach(view, w, list[i]))
    && (forall v <- ws, w <- ws :: Reach(view, v, w))
  }

  lemma ForwardInserted(view: View, list: seq<Node>, ws: set<Node>, at: nat, w: Node)
    requires Forward(view, list, ws) && w in ws && at + 1 < |list|
    ensures Forward(view, Inserted(list, at + 1, w), ws)
  {
    hide Reach;
    var next := Inserted(list, at + 1, w);
    forall i: nat, v <- ws | i + 1 < |next| ensures Reach(view, next[i], v) {
      assert next[i] == if i <= at then list[i] else if i == at + 1 then w else list[i - 1];
    }
    forall i: nat, v <- ws | 0 < i < |next| ensures Reach(view, v, next[i]) {
      assert next[i] == if i <= at then list[i] else if i == at + 1 then w else list[i - 1];
    }
  }

  lemma {:induction false} ForwardMerges(view: View, toMerge: seq<Node>, list: seq<Node>, prev: nat, ws: set<Node>)
    requires Forward(view, list, ws) && forall w <- toMerge :: w in ws
    ensures Mergeable(view, toMerge, list, prev)
    ensures forall out :: MergesTo(view, toMerge, list, prev, out) ==> Forward(view, out, ws)
    decreases |toMerge|
  {
    if toMerge != [] {
      hide Reach;
      var w, rest := toMerge[0], toMerge[1..];
      assert w in toMerge;
      forall i: nat | prev <= i && i + 1 < |list| ensures Fits(view, list, i, w) {
        var next := i + 1;
        assert Reach(view, list[i], w) && Reach(view, w, list[next]);
      }
      hide Forward, FitsFrom, Inserted;
      forall best: nat | Cheapest(view, list, prev, w, best)
        ensures Mergeable(view, rest, Inserted(list, best + 1, w), best + 1)
        ensures forall out :: MergesTo(view, rest, Inserted(list, best + 1, w), best + 1, out) ==>
          Forward(view, out, ws)
      {
        ForwardInserted(view, list, ws, best, w);
        ForwardMerges(view, rest, Inserted(list, best + 1, w), best + 1, ws);
      }
    }
  }

  lemma {:induction false} ForwardCombines(view: View, lists: seq<seq<Node>>, list: seq<Node>, ws: set<Node>)
    requires Forward(view, list, ws) && forall k, w :: 0 <= k < |lists| && w in lists[k] ==> w in ws
    ensures Combinable(view, lists, list)
    decreases |lists|
  {
    if lists != [] {
      hide Forward, Mergeable, MergesTo;
      ForwardMerges(view, lists[0], list, 0, ws);
      forall next | MergesTo(view, lists[0], list, 0, next) ensures Combinable(view, lists[1..], next) {
        ForwardCombines(view, lists[1..], next, ws);
      }
    }
  }

  /** It is enough that the source and all waypoints reach all waypoints and the destination. No
      way back from the destination is needed, nor one to the source. */
  lemma ForwardIsEnough(view: View, src: Node, dst: Node, waypoints: seq<seq<Node>>, ws: set<Node>)
    requires waypoints != [] && forall k, w :: 0 <= k < |waypoints| && w in waypoints[k] ==> w in ws
    requires forall w <- ws :: Reach(view, src, w) && Reach(view, w, dst)
    requires forall v <- ws, w <- ws :: Reach(view, v, w)
    ensures Combinable(view, waypoints[1..], [src] + waypoints[0] + [dst])
  {
    hide Reach, Combinable;
    var list := [src] + waypoints[0] + [dst];
    forall i | 0 < i < |list| - 1 ensures list[i] in ws {
      assert list[i] == waypoints[0][i - 1];
    }
    assert Forward(view, list, ws);
    ForwardCombines(view, waypoints[1..], list, ws);
  }

  lemma EverythingHolds(src: Node, dst: Node, waypoints: seq<seq<Node>>)
    ensures src in Everything(src, dst, waypoints) && dst in Everything(src, dst, waypoints)
    ensures forall k :: 0 <= k < |waypoints| ==> AllIn(waypoints[k], Everything(src, dst, waypoints))
  {
    forall k, n | 0 <= k < |waypoints| && n in waypoints[k] ensures n in Everything(src, dst, waypoints) {
      assert waypoints[k] in waypoints;
    }
  }

  lemma FirstOf(waypoints: seq<seq<Node>>)
    requires waypoints != []
    ensures AllOf(waypoints[..1]) == multiset(waypoints[0])
  {
    var one := waypoints[..1];
    assert one[..|one| - 1] == [];
  }

  lemma OneMoreOf(waypoints: seq<seq<Node>>, i: nat)
    requires i < |waypoints|
    ensures AllOf(waypoints[..i + 1]) == AllOf(waypoints[..i]) + multiset(waypoints[i])
  {
    assert waypoints[..i + 1][..i] == waypoints[..i];
  }
}
