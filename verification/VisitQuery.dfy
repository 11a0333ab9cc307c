/** Shortest walks that visit one node of each of several sets, in order. The query
    builds a graph whose links are shortest paths from each set to the next, finds a
    shortest path in that graph and stitches the walk together. */
module VisitQuery {
  import opened Basics
  import opened Graphs
  import opened Dijkstra

  datatype Query = Query(src: Node, dst: Node, avoidNodes: set<Node>, avoidLinks: set<Link>, ex: Exclusion,
                         visit: seq<set<Node>>, g: AdjacencyList)
  {
    /** No set is empty or shares a node with another. */
    ghost predicate Valid() {
      && g.Valid()
      && (forall i :: 0 <= i < |visit| ==> visit[i] != {})
      && (forall i, j :: 0 <= i < j < |visit| ==> visit[i] !! visit[j])
    }

    /** What the query is said to assume as well: the first set does not hold the source and
        the last does not hold the destination. */
    ghost predicate EndsOutside() {
      visit != [] ==> src !in visit[0] && dst !in visit[|visit| - 1]
    }

    /** The source, the sets in order, the destination. */
    function Layer(t: nat): set<Node>
      requires t <= |visit| + 1
    {
      if t == 0 then {src} else if t == |visit| + 1 then {dst} else visit[t - 1]
    }

    /** Nodes that the segment from layer `t` to the next stays clear of: all other sets,
        and the destination unless the segment is the last. */
    function ToExclude(t: nat): set<Node>
      requires t <= |visit|
    {
      (set j, n | 0 <= j < |visit| && j + 1 != t && j != t && n in visit[j] :: n)
      + (if t != |visit| then {dst} else {}) + avoidNodes
    }

    ghost function SegmentView(t: nat): View
      requires t <= |visit|
    {
      QueryView(g, ex, ToExclude(t), avoidLinks)
    }
  }

  /** `p` leads from `u` in layer `t` through the remaining layers to the destination, in
      one segment per layer. */
  ghost predicate Segmented(q: Query, t: nat, u: Node, p: Links)
    requires t <= |q.visit| + 1
    decreases |q.visit| + 1 - t
  {
    if t == |q.visit| + 1 then u == q.dst && p == []
    else exists k: nat, w: Node :: CutsAt(q, t, u, p, k, w) && Segmented(q, t + 1, w, p[k..])
  }

  ghost predicate CutsAt(q: Query, t: nat, u: Node, p: Links, k: nat, w: Node)
    requires t <= |q.visit|
  {
    k <= |p| && w in q.Layer(t + 1) && IsWalk(q.SegmentView(t), u, p[..k], w)
  }

  /** A shortest walk among all those that visit the sets, or nothing when there is none.
      Without sets, a query from a node to itself has no answer either. */
  ghost predicate VisitAnswer(q: Query, r: Option<Walk>) {
    match r
    case None => (q.visit == [] && q.src == q.dst) || forall p: Links :: !Segmented(q, 0, q.src, p)
    case Some(w) =>
      && Segmented(q, 0, q.src, w.links) && w.delay == Delay(w.links)
      && forall p: Links :: Segmented(q, 0, q.src, p) ==> w.delay <= Delay(p)
  }

  // ---------- the same, position by position ----------

  /** Where the walk may stand on its way from set `t - 1` to set `t`: on no node of another
      set, on the destination only once all sets are behind it, and on nothing excluded. */
  ghost predicate MayStand(q: Query, t: nat, n: Node) {
    && (forall j :: 0 <= j < |q.visit| && n in q.visit[j] ==> j == t || j + 1 == t)
    && (n == q.dst ==> t == |q.visit|)
    && n !in q.ex.nodes && n !in q.avoidNodes
  }

  ghost predicate MayTake(q: Query, l: Link) {
    l in q.g.AllLinks() && l !in q.ex.links && l !in q.avoidLinks
  }

  /** From position `a` to `b` the walk is on its way to set `t`, or to the destination after
      the last set. */
  ghost predicate Leg(q: Query, p: Links, t: nat, a: nat, b: nat) {
    && a <= b <= |p|
    && (if t < |q.visit| then At(q.src, p, b) in q.visit[t] else At(q.src, p, b) == q.dst)
    && (forall i: nat :: a <= i <= b ==> MayStand(q, t, At(q.src, p, i)))
    && (forall i: nat :: a <= i < b ==> MayTake(q, p[i]) && p[i].src == At(q.src, p, i))
  }

  /** `cuts` are the ends of the legs: one leg for each set from `t` on, and one for the
      destination. */
  ghost predicate Legs(q: Query, p: Links, t: nat, cuts: seq<nat>) {
    && t + |cuts| == |q.visit| + 2 && |cuts| > 0 && cuts[|cuts| - 1] == |p|
    && forall k: nat :: k + 1 < |cuts| ==> Leg(q, p, t + k, cuts[k], cuts[k + 1])
  }

  /** The walk takes the sets in order and then the destination. */
  ghost predicate Visits(q: Query, p: Links) {
    exists cuts: seq<nat> :: Legs(q, p, 0, cuts) && cuts[0] == 0
  }

  /** A shortest walk among all those, or nothing when there is none. */
  ghost predicate ShortestVisit(q: Query, r: Option<Walk>) {
    match r
    case None => (q.visit == [] && q.src == q.dst) || forall p: Links :: !Visits(q, p)
    case Some(w) =>
      && Visits(q, w.links) && w.delay == Delay(w.links)
      && forall p: Links :: Visits(q, p) ==> w.delay <= Delay(p)
  }

  lemma OpenIsAllowed(q: Query, t: nat)
    requires t <= |q.visit|
    ensures forall n :: MayStand(q, t, n) <==> n !in q.SegmentView(t).blocked
    ensures forall l :: MayTake(q, l) <==> l in q.SegmentView(t).links
  {
  }

  lemma SliceAt(u: Node, p: Links, a: nat, b: nat, i: nat)
    requires a <= b <= |p| && i <= b - a
    ensures At(At(u, p, a), p[a..b], i) == At(u, p, a + i)
  {
  }

  /** A part of a walk, said of the positions of the whole. */
  ghost predicate SliceOk(view: View, u: Node, p: Links, a: nat, b: nat)
    requires a <= b <= |p|
  {
    && (forall i: nat :: a <= i <= b ==> At(u, p, i) !in view.blocked)
    && (forall i: nat :: a <= i < b ==> p[i] in view.links && p[i].src == At(u, p, i))
  }

  lemma SliceIsWalk(view: View, u: Node, p: Links, a: nat, b: nat)
    requires a <= b <= |p| && SliceOk(view, u, p, a, b)
    ensures IsWalk(view, At(u, p, a), p[a..b], At(u, p, b))
  {
    var s, v := p[a..b], At(u, p, a);
    forall i | 0 <= i < |s| ensures s[i] in view.links && s[i].src == At(v, s, i) && s[i].dst !in view.blocked {
      SliceAt(u, p, a, b, i);
      var next := a + i + 1;
      assert At(u, p, next) !in view.blocked && At(u, p, next) == p[a + i].dst;
    }
    SliceAt(u, p, a, b, |s|);
  }

  lemma WalkIsSlice(view: View, u: Node, p: Links, a: nat, b: nat)
    requires a <= b <= |p| && IsWalk(view, At(u, p, a), p[a..b], At(u, p, b))
    ensures SliceOk(view, u, p, a, b)
  {
    var s, v := p[a..b], At(u, p, a);
    forall i: nat | a <= i < b ensures p[i] in view.links && p[i].src == At(u, p, i) {
      SliceAt(u, p, a, b, i - a);
      assert s[i - a] == p[i];
    }
    forall i: nat | a <= i <= b ensures At(u, p, i) !in view.blocked {
      if i > a {
        assert s[i - a - 1] == p[i - 1];
      }
    }
  }

  lemma LegIs(q: Query, p: Links, t: nat, a: nat, b: nat)
    requires t <= |q.visit| && a <= b <= |p|
    ensures Leg(q, p, t, a, b) <==>
      SliceOk(q.SegmentView(t), q.src, p, a, b) && At(q.src, p, b) in q.Layer(t + 1)
  {
    OpenIsAllowed(q, t);
    hide MayStand, MayTake, Query.SegmentView, At;
  }

  lemma LegIsWalk(q: Query, p: Links, t: nat, a: nat, b: nat)
    requires t <= |q.visit| && Leg(q, p, t, a, b)
    ensures At(q.src, p, b) in q.Layer(t + 1)
    ensures IsWalk(q.SegmentView(t), At(q.src, p, a), p[a..b], At(q.src, p, b))
  {
    hide *;
    LegEnds(q, p, t, a, b);
    LegIs(q, p, t, a, b);
    SliceIsWalk(q.SegmentView(t), q.src, p, a, b);
  }

  lemma WalkIsLeg(q: Query, p: Links, t: nat, a: nat, b: nat)
    requires t <= |q.visit| && a <= b <= |p| && At(q.src, p, b) in q.Layer(t + 1)
    requires IsWalk(q.SegmentView(t), At(q.src, p, a), p[a..b], At(q.src, p, b))
    ensures Leg(q, p, t, a, b)
  {
    hide *;
    LegIs(q, p, t, a, b);
    WalkIsSlice(q.SegmentView(t), q.src, p, a, b);
  }

  /** Legs of a walk from position `a` on are segments of the rest of it. */
  lemma {:induction false} LegsAreSegments(q: Query, p: Links, t: nat, cuts: seq<nat>)
    requires Legs(q, p, t, cuts) && cuts[0] <= |p| && (t == |q.visit| + 1 ==> At(q.src, p, |p|) == q.dst)
    ensures Segmented(q, t, At(q.src, p, cuts[0]), p[cuts[0]..])
    decreases |q.visit| + 1 - t
  {
    hide Leg, At, IsWalk;
    var a := cuts[0];
    if t <= |q.visit| {
      var b := cuts[1];
      assert Leg(q, p, t + 0, cuts[0], cuts[1]);
      LegEnds(q, p, t, a, b);
      forall k: nat | k + 1 < |cuts[1..]| ensures Leg(q, p, t + 1 + k, cuts[1..][k], cuts[1..][k + 1]) {
        assert Leg(q, p, t + (k + 1), cuts[k + 1], cuts[k + 1 + 1]);
      }
      LegsAreSegments(q, p, t + 1, cuts[1..]);
      LegIsWalk(q, p, t, a, b);
      assert p[a..][..b - a] == p[a..b] && p[a..][b - a..] == p[b..];
      assert CutsAt(q, t, At(q.src, p, a), p[a..], b - a, At(q.src, p, b));
    }
  }

  lemma LegEnds(q: Query, p: Links, t: nat, a: nat, b: nat)
    requires Leg(q, p, t, a, b)
    ensures a <= b <= |p| && (t >= |q.visit| ==> At(q.src, p, b) == q.dst)
  {
  }

  lemma {:induction false} SegmentsAreLegs(q: Query, p: Links, t: nat, a: nat) returns (cuts: seq<nat>)
    requires t <= |q.visit| + 1 && a <= |p| && Segmented(q, t, At(q.src, p, a), p[a..])
    ensures Legs(q, p, t, cuts) && cuts[0] == a
    decreases |q.visit| + 1 - t
  {
    hide Leg, At, IsWalk;
    if t == |q.visit| + 1 {
      return [a];
    }
    var k: nat, w: Node :| CutsAt(q, t, At(q.src, p, a), p[a..], k, w) && Segmented(q, t + 1, w, p[a..][k..]);
    var b := a + k;
    assert p[a..][..k] == p[a..b] && p[a..][k..] == p[b..];
    CutEnds(q, p, t, a, b, w);
    var rest := SegmentsAreLegs(q, p, t + 1, b);
    WalkIsLeg(q, p, t, a, b);
    cuts := [a] + rest;
    forall k: nat | k + 1 < |cuts| ensures Leg(q, p, t + k, cuts[k], cuts[k + 1]) {
      assert k > 0 ==> Leg(q, p, t + 1 + (k - 1), rest[k - 1], rest[k - 1 + 1]);
    }
  }

  lemma CutEnds(q: Query, p: Links, t: nat, a: nat, b: nat, w: Node)
    requires t <= |q.visit| && a <= b <= |p| && IsWalk(q.SegmentView(t), At(q.src, p, a), p[a..b], w)
    ensures w == At(q.src, p, b)
  {
  }

  /** The segments of the query, position by position. */
  lemma SegmentedIsVisits(q: Query, p: Links)
    ensures Segmented(q, 0, q.src, p) <==> Visits(q, p)
  {
    hide Leg, Segmented;
    assert p[0..] == p;
    if Visits(q, p) {
      var cuts: seq<nat> :| Legs(q, p, 0, cuts) && cuts[0] == 0;
      LegsAreSegments(q, p, 0, cuts);
    }
    if Segmented(q, 0, q.src, p) {
      var cuts := SegmentsAreLegs(q, p, 0, 0);
    }
  }

  lemma AnswerIsShortestVisit(q: Query, r: Option<Walk>)
    ensures VisitAnswer(q, r) <==> ShortestVisit(q, r)
  {
    hide Segmented, Visits;
    forall p: Links ensures Segmented(q, 0, q.src, p) <==> Visits(q, p) {
      SegmentedIsVisits(q, p);
    }
  }

  // ---------- the graph of shortest paths between consecutive layers ----------

  ghost predicate Connects(q: Query, t: nat, a: Node, b: Node)
    requires t <= |q.visit|
  {
    exists p: Links :: IsWalk(q.SegmentView(t), a, p, b)
  }

  ghost predicate JoinsLayers(q: Query, t: nat, l: Link)
    requires t <= |q.visit|
  {
    l.src in q.Layer(t) && l.dst in q.Layer(t + 1) && DistanceAnswer(q.SegmentView(t), l.src, l.dst, Some(l.delay))
  }

  /** Every link of the path graph stands for a shortest path of a segment before `s`. */
  ghost predicate Sound(q: Query, pg: AdjacencyList, s: nat)
    requires s <= |q.visit| + 1
  {
    forall l <- pg.AllLinks() :: exists t: nat :: t < s && JoinsLayers(q, t, l)
  }

  ghost predicate HasLink(pg: AdjacencyList, a: Node, b: Node) {
    exists l <- pg.AllLinks() :: l.src == a && l.dst == b
  }

  /** Pairs of `froms` and `tos` that a walk of segment `t` connects have their link. */
  ghost predicate Covers(q: Query, pg: AdjacencyList, t: nat, froms: set<Node>, tos: set<Node>)
    requires t <= |q.visit|
  {
    forall a <- froms, b <- tos :: Connects(q, t, a, b) ==> HasLink(pg, a, b)
  }

  ghost predicate Covered(q: Query, pg: AdjacencyList, s: nat)
    requires s <= |q.visit| + 1
  {
    forall t: nat :: t < s ==> Covers(q, pg, t, q.Layer(t), q.Layer(t + 1))
  }

  ghost predicate TreeOf(q: Query, t: nat, a: Node, tree: SpTree)
    requires t <= |q.visit|
  {
    tree.src == a && tree.destinations == q.Layer(t + 1) && Correct(tree, q.SegmentView(t))
  }

  ghost predicate PlantedIn(q: Query, trees: map<Node, SpTree>, t: nat, froms: set<Node>)
    requires t <= |q.visit|
  {
    forall a <- froms :: a in trees && TreeOf(q, t, a, trees[a])
  }

  ghost predicate Planted(q: Query, trees: map<Node, SpTree>, s: nat)
    requires s <= |q.visit| + 1
  {
    forall t: nat :: t < s ==> PlantedIn(q, trees, t, Own(q, t))
  }

  /** The nodes that grow their tree for segment `t` last: all of the layer, but for a source
      that is in the first set as well. */
  ghost function Own(q: Query, t: nat): set<Node>
    requires t <= |q.visit|
  {
    if t == 0 && q.visit != [] then {q.src} - q.visit[0] else q.Layer(t)
  }

  /** The ends differ, the source is open to the first segment, and no node is in two of the
      layers that segments start from, unless it is the source and in the first set. */
  ghost predicate Apart(q: Query) {
    && q.src != q.dst && q.src !in q.SegmentView(0).blocked
    && forall t: nat, t': nat, n :: t < t' <= |q.visit| && n in q.Layer(t) && n in q.Layer(t') ==> t == 0 && t' == 1
  }

  ghost function PathGraphView(pg: AdjacencyList): View {
    QueryView(pg, Exclusion({}, {}), {}, {})
  }

  lemma PathGraphViewIs(pg: AdjacencyList)
    ensures PathGraphView(pg) == View(pg.AllLinks(), {})
  {
  }

  lemma OneLayer(q: Query, t: nat, t': nat, n: Node)
    requires Apart(q) && t <= |q.visit| && t' <= |q.visit| && n in q.Layer(t) && n in q.Layer(t')
    ensures t == t' || (n == q.src && t <= 1 && t' <= 1)
  {
  }

  lemma OwnLayer(q: Query, t: nat, t': nat, n: Node)
    requires Apart(q) && t < t' <= |q.visit| && n in Own(q, t)
    ensures n !in q.Layer(t')
  {
  }

  /** A link that leaves another node than the source has one layer. */
  lemma LayerOfLink(q: Query, pg: AdjacencyList, t: nat, l: Link)
    requires Apart(q) && Sound(q, pg, |q.visit| + 1) && t <= |q.visit| && l in pg.AllLinks()
    requires l.src in q.Layer(t) && l.src != q.src
    ensures JoinsLayers(q, t, l)
  {
    hide DistanceAnswer, Apart;
    var t': nat :| t' < |q.visit| + 1 && JoinsLayers(q, t', l);
    OneLayer(q, t, t', l.src);
  }

  /** So has a link of which both ends are known. */
  lemma LayersOfLink(q: Query, pg: AdjacencyList, t: nat, l: Link)
    requires Apart(q) && Sound(q, pg, |q.visit| + 1) && t <= |q.visit| && l in pg.AllLinks()
    requires l.src in q.Layer(t) && l.dst in q.Layer(t + 1) && (t < |q.visit| ==> l.dst != q.dst)
    ensures JoinsLayers(q, t, l)
  {
    var t': nat :| t' < |q.visit| + 1 && JoinsLayers(q, t', l);
    if t' < |q.visit| {
      ReachedBeforeDst(q, t', l);
    }
    hide DistanceAnswer, Apart;
    OneLayer(q, t, t', l.src);
    if t != t' {
      LayersDisjoint(q, l.dst);
    }
  }

  lemma LayersDisjoint(q: Query, n: Node)
    requires Apart(q) && q.visit != [] && n != q.dst
    ensures !(n in q.Layer(1) && n in q.Layer(2))
  {
  }

  lemma LinkIsShortest(q: Query, t: nat, l: Link, p: Links)
    requires t <= |q.visit| && JoinsLayers(q, t, l) && IsWalk(q.SegmentView(t), l.src, p, l.dst)
    ensures l.delay <= Delay(p)
  {
    hide IsWalk, Reaches, Delay;
  }

  lemma SegmentHasLink(q: Query, pg: AdjacencyList, t: nat, u: Node, seg: Links, w: Node) returns (l: Link)
    requires Apart(q) && Sound(q, pg, |q.visit| + 1) && Covered(q, pg, |q.visit| + 1)
    requires t <= |q.visit| && u in q.Layer(t) && w in q.Layer(t + 1) && IsWalk(q.SegmentView(t), u, seg, w)
    ensures l in pg.AllLinks() && l.src == u && l.dst == w && l.delay <= Delay(seg)
  {
    WalkEndsOpen(q.SegmentView(t), u, seg, w);
    hide Sound, Apart, IsWalk, Delay, JoinsLayers;
    assert Covers(q, pg, t, q.Layer(t), q.Layer(t + 1));
    assert Connects(q, t, u, w);
    l :| l in pg.AllLinks() && l.src == u && l.dst == w;
    LayersOfLink(q, pg, t, l);
    LinkIsShortest(q, t, l, seg);
  }

  lemma SegmentedCut(q: Query, t: nat, u: Node, p: Links) returns (k: nat, w: Node)
    requires t <= |q.visit| && Segmented(q, t, u, p)
    ensures k <= |p| && w in q.Layer(t + 1) && IsWalk(q.SegmentView(t), u, p[..k], w) && Segmented(q, t + 1, w, p[k..])
  {
    hide IsWalk;
    k, w :| CutsAt(q, t, u, p, k, w) && Segmented(q, t + 1, w, p[k..]);
  }

  /** Every walk that visits the sets is matched by a walk of the path graph that is no longer. */
  lemma {:induction false} PathGraphMatches(q: Query, pg: AdjacencyList, t: nat, u: Node, p: Links)
    returns (path: Links)
    requires Apart(q) && Sound(q, pg, |q.visit| + 1) && Covered(q, pg, |q.visit| + 1)
    requires t <= |q.visit| + 1 && u in q.Layer(t) && Segmented(q, t, u, p)
    ensures IsWalk(PathGraphView(pg), u, path, q.dst) && Delay(path) <= Delay(p)
    decreases |q.visit| + 1 - t
  {
    PathGraphViewIs(pg);
    if t == |q.visit| + 1 {
      path := [];
    } else {
      hide *;
      var k, w := SegmentedCut(q, t, u, p);
      var l := SegmentHasLink(q, pg, t, u, p[..k], w);
      var rest := PathGraphMatches(q, pg, t + 1, w, p[k..]);
      path := [l] + rest;
      SingleLink(PathGraphView(pg), l);
      WalkConcat(PathGraphView(pg), u, [l], w, rest, q.dst);
      DelayConcat([l], rest);
      DelaySplit(p, k);
    }
  }

  /** A segment that no walk completes leaves no walk at all. */
  lemma {:induction false} SegmentIsNeeded(q: Query, t: nat, s: nat, u: Node, p: Links) returns (a: Node, b: Node)
    requires t <= s <= |q.visit| && u in q.Layer(t) && Segmented(q, t, u, p)
    ensures a in q.Layer(s) && b in q.Layer(s + 1) && Connects(q, s, a, b)
    decreases s - t
  {
    hide Segmented, IsWalk;
    var k, w := SegmentedCut(q, t, u, p);
    if t < s {
      a, b := SegmentIsNeeded(q, t + 1, s, w, p[k..]);
    } else {
      a, b := u, w;
    }
  }

  lemma WalkEndsOpen(view: View, u: Node, p: Links, v: Node)
    requires IsWalk(view, u, p, v)
    ensures u !in view.blocked && v !in view.blocked
  {
    if p != [] {
      assert p[|p| - 1].dst == v;
    }
  }

  /** Segments before the last do not enter the destination. */
  lemma ReachedBeforeDst(q: Query, t: nat, l: Link)
    requires t < |q.visit| && JoinsLayers(q, t, l)
    ensures l.dst != q.dst
  {
    var p: Links :| Reaches(q.SegmentView(t), l.src, p, l.dst, l.delay);
    WalkEndsOpen(q.SegmentView(t), l.src, p, l.dst);
    hide IsWalk, Simple, Delay;
  }

  lemma Layers(q: Query)
    ensures q.Layer(0) == {q.src} && q.Layer(|q.visit| + 1) == {q.dst}
  {
  }

  lemma JoinsEnds(q: Query, t: nat, l: Link)
    requires t <= |q.visit| && JoinsLayers(q, t, l)
    ensures l.src in q.Layer(t) && l.dst in q.Layer(t + 1)
  {
  }

  lemma WalkStep(view: View, u: Node, p: Links, v: Node, k: nat)
    requires IsWalk(view, u, p, v) && k <= |p|
    ensures k < |p| ==> p[k] in view.links && p[k].src == At(u, p, k) && At(u, p, k + 1) == p[k].dst
    ensures At(u, p, 0) == u && At(u, p, |p|) == v
  {
  }

  /** From the segment of its first link on, a simple path graph walk to the destination takes
      one link per segment, in order. */
  lemma {:induction false} PathGraphWalkClimbs(q: Query, pg: AdjacencyList, path: Links, o: nat, k: nat)
    requires Apart(q) && Sound(q, pg, |q.visit| + 1) && o <= 1 <= |q.visit|
    requires IsWalk(PathGraphView(pg), q.src, path, q.dst) && Simple(q.src, path)
    requires path != [] && JoinsLayers(q, o, path[0]) && 1 <= k <= |q.visit| + 1 - o
    ensures k <= |path| && At(q.src, path, k) in q.Layer(k + o)
    ensures forall j :: 0 <= j < k ==> JoinsLayers(q, j + o, path[j])
    ensures k == |q.visit| + 1 - o ==> |path| == k
  {
    hide *;
    PathGraphViewIs(pg);
    Layers(q);
    WalkStep(PathGraphView(pg), q.src, path, q.dst, 0);
    JoinsEnds(q, o, path[0]);
    if k > 1 {
      PathGraphWalkClimbs(q, pg, path, o, k - 1);
      WalkStep(PathGraphView(pg), q.src, path, q.dst, k - 2);
      ReachedBeforeDst(q, k - 2 + o, path[k - 2]);
      WalkStep(PathGraphView(pg), q.src, path, q.dst, k - 1);
      SimpleLater(q.src, path, k - 1);
      LayerOfLink(q, pg, k - 1 + o, path[k - 1]);
      JoinsEnds(q, k - 1 + o, path[k - 1]);
    }
    if k == |q.visit| + 1 - o {
      SimpleEnds(q.src, path, q.dst, k);
    }
  }

  lemma SimpleLater(u: Node, p: Links, k: nat)
    requires Simple(u, p) && 0 < k <= |p|
    ensures At(u, p, k) != u
  {
    assert At(u, p, 0) == u;
  }

  lemma SimpleEnds(u: Node, p: Links, v: Node, k: nat)
    requires Simple(u, p) && k <= |p| && At(u, p, k) == v == At(u, p, |p|)
    ensures k == |p|
  {
  }

  // ---------- a source in the first set ----------

  /** Segments block less and less of the sets before the last. */
  lemma SecondViewIsWider(q: Query, u: Node, p: Links, v: Node)
    requires q.visit != [] && IsWalk(q.SegmentView(0), u, p, v)
    ensures IsWalk(q.SegmentView(1), u, p, v)
  {
    assert q.ToExclude(1) <= q.ToExclude(0);
  }

  lemma LinkWalk(q: Query, t: nat, l: Link) returns (p: Links)
    requires t <= |q.visit| && JoinsLayers(q, t, l)
    ensures IsWalk(q.SegmentView(t), l.src, p, l.dst) && Delay(p) == l.delay
  {
    p :| Reaches(q.SegmentView(t), l.src, p, l.dst, l.delay);
  }

  /** With the source in the first set, what two links reach by way of another node of that
      set a single one reaches as soon. */
  lemma ShortCut(q: Query, pg: AdjacencyList, l: Link, k: Link) returns (m: Link)
    requires Apart(q) && Sound(q, pg, |q.visit| + 1) && Covered(q, pg, |q.visit| + 1)
    requires q.visit != [] && q.src in q.visit[0]
    requires JoinsLayers(q, 0, l) && l.src == q.src && JoinsLayers(q, 1, k) && k.src == l.dst
    ensures m in pg.AllLinks() && m.src == q.src && m.dst == k.dst && m.delay <= l.delay + k.delay
  {
    hide *;
    var p0 := LinkWalk(q, 0, l);
    var p1 := LinkWalk(q, 1, k);
    SecondViewIsWider(q, l.src, p0, l.dst);
    WalkConcat(q.SegmentView(1), q.src, p0, l.dst, p1, k.dst);
    DelayConcat(p0, p1);
    FirstSetIs(q);
    JoinsEnds(q, 1, k);
    m := SegmentHasLink(q, pg, 1, q.src, p0 + p1, k.dst);
  }

  lemma FirstSetIs(q: Query)
    requires q.visit != []
    ensures q.Layer(1) == q.visit[0]
  {
  }

  lemma TwoLinks(view: View, u: Node, path: Links, v: Node, m: Link)
    requires IsWalk(view, u, path, v) && |path| >= 2 && m in view.links && m.src == u && m.dst == path[1].dst
    ensures IsWalk(view, u, [m] + path[2..], v) && At(u, path, 2) == m.dst
    ensures Delay([m] + path[2..]) == m.delay + Delay(path[2..])
    ensures Delay(path) == path[0].delay + path[1].delay + Delay(path[2..])
    ensures Delay(path[..2]) == path[0].delay + path[1].delay
  {
    WalkSplit(view, u, path, v, 2);
    SingleLink(view, m);
    WalkConcat(view, u, [m], m.dst, path[2..], v);
    hide IsWalk;
    DelayConcat([m], path[2..]);
    DelaySplit(path, 2);
    assert path[..2] == [path[0]] + [path[1]];
    DelayConcat([path[0]], [path[1]]);
    SingleLink(view, path[0]);
    SingleLink(view, path[1]);
  }

  /** A path that goes to another node of the first set goes on to the next. */
  lemma SecondLink(q: Query, pg: AdjacencyList, path: Links)
    requires Apart(q) && Sound(q, pg, |q.visit| + 1) && q.visit != []
    requires IsWalk(PathGraphView(pg), q.src, path, q.dst) && Simple(q.src, path) && path != []
    requires JoinsLayers(q, 0, path[0])
    ensures |path| >= 2 && JoinsLayers(q, 1, path[1]) && path[1].src == path[0].dst && path[0].src == q.src
  {
    hide *;
    PathGraphViewIs(pg);
    WalkStep(PathGraphView(pg), q.src, path, q.dst, 0);
    WalkStep(PathGraphView(pg), q.src, path, q.dst, 1);
    JoinsEnds(q, 0, path[0]);
    ReachedBeforeDst(q, 0, path[0]);
    SimpleLater(q.src, path, 1);
    LayerOfLink(q, pg, 1, path[1]);
  }

  /** With the source in the first set, a shortest path that does so has a tie with a single
      link from the source. */
  lemma SecondLinkTies(q: Query, pg: AdjacencyList, path: Links) returns (m: Link)
    requires Apart(q) && Sound(q, pg, |q.visit| + 1) && Covered(q, pg, |q.visit| + 1)
    requires q.visit != [] && q.src in q.visit[0]
    requires IsWalk(PathGraphView(pg), q.src, path, q.dst)
    requires forall p: Links :: IsWalk(PathGraphView(pg), q.src, p, q.dst) ==> Delay(path) <= Delay(p)
    requires |path| >= 2 && JoinsLayers(q, 0, path[0]) && JoinsLayers(q, 1, path[1])
    requires path[0].src == q.src && path[1].src == path[0].dst
    ensures m in PathGraphView(pg).links && m.src == q.src && At(q.src, path, 2) == m.dst && Delay(path[..2]) == m.delay
  {
    hide *;
    PathGraphViewIs(pg);
    m := ShortCut(q, pg, path[0], path[1]);
    TwoLinks(PathGraphView(pg), q.src, path, q.dst, m);
  }

  /** The path that the search finds starts with a link of the first segment, or, with the
      source in the first set, of the second: it never takes two links where one will do. */
  lemma FirstLink(q: Query, pg: AdjacencyList, w: Walk)
    requires Apart(q) && Sound(q, pg, |q.visit| + 1) && Covered(q, pg, |q.visit| + 1) && q.visit != []
    requires ShortestAnswer(PathGraphView(pg), q.src, q.dst, Some(w))
    requires PrefersDirect(PathGraphView(pg), q.src, w.links)
    ensures w.links != [] && JoinsLayers(q, if q.src in q.visit[0] then 1 else 0, w.links[0])
  {
    hide *;
    AnswerParts(PathGraphView(pg), q.src, q.dst, w);
    var t := FirstLayer(q, pg, w.links);
    if q.src in q.visit[0] && t == 0 {
      SecondLink(q, pg, w.links);
      var m := SecondLinkTies(q, pg, w.links);
      DirectAtTwo(PathGraphView(pg), q.src, w.links, m);
    }
  }

  lemma FirstLayer(q: Query, pg: AdjacencyList, path: Links) returns (t: nat)
    requires Apart(q) && Sound(q, pg, |q.visit| + 1) && q.visit != []
    requires IsWalk(PathGraphView(pg), q.src, path, q.dst) && path != []
    ensures t <= 1 && JoinsLayers(q, t, path[0]) && (t == 1 ==> q.src in q.visit[0])
  {
    hide *;
    PathGraphViewIs(pg);
    WalkStep(PathGraphView(pg), q.src, path, q.dst, 0);
    t := SomeLayer(q, pg, path[0]);
    JoinsEnds(q, t, path[0]);
    Layers(q);
    OneLayer(q, 0, t, q.src);
    FirstSetIs(q);
  }

  lemma SomeLayer(q: Query, pg: AdjacencyList, l: Link) returns (t: nat)
    requires Sound(q, pg, |q.visit| + 1) && l in pg.AllLinks()
    ensures t <= |q.visit| && JoinsLayers(q, t, l)
  {
    t :| t < |q.visit| + 1 && JoinsLayers(q, t, l);
  }

  lemma AnswerParts(view: View, u: Node, v: Node, w: Walk)
    requires ShortestAnswer(view, u, v, Some(w))
    ensures w.links != [] && u != v && IsWalk(view, u, w.links, v) && Simple(u, w.links)
    ensures forall p: Links :: IsWalk(view, u, p, v) ==> Delay(w.links) <= Delay(p)
  {
  }

  lemma DirectAtTwo(view: View, u: Node, p: Links, m: Link)
    requires PrefersDirect(view, u, p) && |p| >= 2 && m in view.links && m.src == u && At(u, p, 2) == m.dst
    ensures Delay(p[..2]) != m.delay
  {
  }

  // ---------- building the path graph ----------

  datatype Build = Build(pg: AdjacencyList, trees: map<Node, SpTree>, nextId: nat) {
    ghost predicate Valid() {
      pg.Valid() && forall l <- pg.AllLinks() :: l.id < nextId
    }
  }

  lemma SoundLater(q: Query, pg: AdjacencyList, s: nat, s': nat)
    requires s <= s' <= |q.visit| + 1 && Sound(q, pg, s)
    ensures Sound(q, pg, s')
  {
    hide JoinsLayers;
  }

  lemma AddedLinkIsSound(q: Query, b: Build, t: nat, l: Link)
    requires b.Valid() && t <= |q.visit| && Sound(q, b.pg, t + 1) && JoinsLayers(q, t, l) && l.id == b.nextId
    ensures b.pg.AddLink(l).Valid() && b.pg.AddLink(l).AllLinks() == b.pg.AllLinks() + {l}
    ensures Sound(q, b.pg.AddLink(l), t + 1)
    ensures forall k <- b.pg.AddLink(l).AllLinks() :: k.id < b.nextId + 1
  {
    hide JoinsLayers;
    b.pg.AddLinkAdds(l);
    hide AdjacencyList.AllLinks, AdjacencyList.AddLink;
  }

  lemma MoreLinks(q: Query, pg: AdjacencyList, pg': AdjacencyList, t: nat, froms: set<Node>, tos: set<Node>)
    requires t <= |q.visit| && pg.AllLinks() <= pg'.AllLinks() && Covers(q, pg, t, froms, tos)
    ensures Covers(q, pg', t, froms, tos)
  {
    hide AdjacencyList.AllLinks, Connects;
  }

  lemma AnswerConnects(q: Query, t: nat, a: Node, b: Node, d: Option<nat>)
    requires t <= |q.visit| && DistanceAnswer(q.SegmentView(t), a, b, d)
    ensures d.Some? <==> Connects(q, t, a, b)
  {
    hide IsWalk, Simple, Delay, Query.SegmentView;
    if d.Some? {
      var p: Links :| Reaches(q.SegmentView(t), a, p, b, d.value);
      assert IsWalk(q.SegmentView(t), a, p, b);
    }
  }

  /** Adds a link from `a` to each node of the next layer that its tree reaches. */
  method AddDestinations(q: Query, t: nat, a: Node, tree: SpTree, build: Build) returns (build': Build, found: bool)
    requires t <= |q.visit| && a in q.Layer(t) && TreeOf(q, t, a, tree)
    requires build.Valid() && Sound(q, build.pg, t + 1)
    ensures build'.Valid() && Sound(q, build'.pg, t + 1) && build'.trees == build.trees
    ensures build.pg.AllLinks() <= build'.pg.AllLinks()
    ensures Covers(q, build'.pg, t, {a}, q.Layer(t + 1))
    ensures found <==> exists b <- q.Layer(t + 1) :: Connects(q, t, a, b)
  {
    hide AdjacencyList.AllLinks, AdjacencyList.AddLink, AdjacencyList.Valid, Sound, Connects, Correct, DistanceAnswer,
         Query.SegmentView, Query.Layer;
    build', found := build, false;
    var todo := q.Layer(t + 1);
    while todo != {}
      invariant todo <= q.Layer(t + 1)
      invariant build'.Valid() && Sound(q, build'.pg, t + 1) && build'.trees == build.trees
      invariant build.pg.AllLinks() <= build'.pg.AllLinks()
      invariant Covers(q, build'.pg, t, {a}, q.Layer(t + 1) - todo)
      invariant found <==> exists b <- q.Layer(t + 1) - todo :: Connects(q, t, a, b)
    {
      var b :| b in todo;
      ghost var done := q.Layer(t + 1) - todo;
      var id := build'.nextId;
      var distance := GetPathDistance(tree, b, q.SegmentView(t));
      AnswerConnects(q, t, a, b, distance);
      if distance.Some? {
        var l := Link(id, a, b, distance.value);
        AddedLinkIsSound(q, build', t, l);
        var pg := build'.pg.AddLink(l);
        MoreLinks(q, build'.pg, pg, t, {a}, done);
        assert HasLink(pg, a, b);
        build' := Build(pg, build'.trees, id + 1);
        found := true;
      } else {
        build' := build'.(nextId := id + 1);
      }
      todo := todo - {b};
      assert q.Layer(t + 1) - todo == done + {b};
    }
  }

  lemma ReplantKeeps(q: Query, trees: map<Node, SpTree>, t: nat, a: Node, tree: SpTree, done: set<Node>)
    requires t <= |q.visit| && a in q.Layer(t) && (t > 0 ==> Apart(q))
    requires Planted(q, trees, t) && PlantedIn(q, trees, t, done) && TreeOf(q, t, a, tree)
    ensures Planted(q, trees[a := tree], t) && PlantedIn(q, trees[a := tree], t, done + {a})
  {
    hide TreeOf, Query.Layer, Apart, Own;
    forall t': nat | t' < t ensures PlantedIn(q, trees[a := tree], t', Own(q, t')) {
      if a in Own(q, t') {
        OwnLayer(q, t', t, a);
      }
    }
  }

  lemma MoreLinksCovered(q: Query, pg: AdjacencyList, pg': AdjacencyList, s: nat)
    requires s <= |q.visit| + 1 && pg.AllLinks() <= pg'.AllLinks() && Covered(q, pg, s)
    ensures Covered(q, pg', s)
  {
    hide Covers, AdjacencyList.AllLinks;
    forall t: nat | t < s ensures Covers(q, pg', t, q.Layer(t), q.Layer(t + 1)) {
      MoreLinks(q, pg, pg', t, q.Layer(t), q.Layer(t + 1));
    }
  }

  lemma CoversUnion(q: Query, pg: AdjacencyList, t: nat, froms: set<Node>, a: Node, tos: set<Node>)
    requires t <= |q.visit| && Covers(q, pg, t, froms, tos) && Covers(q, pg, t, {a}, tos)
    ensures Covers(q, pg, t, froms + {a}, tos)
  {
    hide Connects, HasLink;
  }

  /** A walk of the first segment keeps the source out of all sets but the first. */
  lemma FirstSegmentSeparates(q: Query, b: Node)
    requires q.Valid() && q.visit != [] && Connects(q, 0, q.src, b)
    ensures Apart(q)
  {
    var p: Links :| IsWalk(q.SegmentView(0), q.src, p, b);
    hide IsWalk;
    WalkEndsOpen(q.SegmentView(0), q.src, p, b);
    assert q.src !in q.ToExclude(0);
    forall t: nat, t': nat, n | t < t' <= |q.visit| && n in q.Layer(t)
      ensures n !in q.Layer(t') || (t == 0 && t' == 1)
    {
      if t == 0 {
        assert t' > 1 ==> n !in q.visit[t' - 1];
      } else {
        assert q.visit[t - 1] !! q.visit[t' - 1];
      }
    }
  }

  ghost predicate Ready(q: Query, build: Build, s: nat)
    requires s <= |q.visit| + 1
  {
    && build.Valid() && Sound(q, build.pg, s) && Covered(q, build.pg, s) && Planted(q, build.trees, s)
    && (s > 0 ==> Apart(q))
  }

  lemma ReadyStep(q: Query, build: Build, t: nat)
    requires t <= |q.visit| && (t > 0 ==> Apart(q)) && Apart(q)
    requires build.Valid() && Sound(q, build.pg, t + 1)
    requires Covered(q, build.pg, t) && Covers(q, build.pg, t, q.Layer(t), q.Layer(t + 1))
    requires Planted(q, build.trees, t) && PlantedIn(q, build.trees, t, q.Layer(t))
    ensures Ready(q, build, t + 1)
  {
    hide Covers, Sound, Apart, Build.Valid, TreeOf;
    assert Own(q, t) <= q.Layer(t);
  }

  /** Grows a tree from each node of layer `t` and links the layer to the next. */
  method AddSegment(q: Query, t: nat, build: Build) returns (build': Build, found: bool)
    requires q.Valid() && q.visit != [] && t <= |q.visit| && Ready(q, build, t)
    ensures found ==> Ready(q, build', t + 1)
    ensures !found ==> forall a <- q.Layer(t), b <- q.Layer(t + 1) :: !Connects(q, t, a, b)
  {
    hide AdjacencyList.AllLinks, AdjacencyList.Valid, Sound, Covered, Covers, Planted, PlantedIn, Connects, Correct,
         Query.SegmentView, Query.Layer, Apart, Query.ToExclude;
    build', found := build, false;
    SoundLater(q, build.pg, t, t + 1);
    NothingYet(q, build, t);
    var todo := q.Layer(t);
    assert q.Layer(t) - todo == {};
    while todo != {}
      invariant todo <= q.Layer(t)
      invariant build'.Valid() && Sound(q, build'.pg, t + 1) && Covered(q, build'.pg, t)
      invariant Planted(q, build'.trees, t) && PlantedIn(q, build'.trees, t, q.Layer(t) - todo)
      invariant Covers(q, build'.pg, t, q.Layer(t) - todo, q.Layer(t + 1))
      invariant found ==> Apart(q)
      invariant !found ==> forall a <- q.Layer(t) - todo, b <- q.Layer(t + 1) :: !Connects(q, t, a, b)
    {
      var a :| a in todo;
      ghost var done := q.Layer(t) - todo;
      var tree := ComputePaths(a, q.Layer(t + 1), q.ex, q.g, q.ToExclude(t), q.avoidLinks);
      SegmentViewIs(q, t);
      ReplantKeeps(q, build'.trees, t, a, tree, done);
      ghost var pg := build'.pg;
      var reached;
      build', reached := AddDestinations(q, t, a, tree, build'.(trees := build'.trees[a := tree]));
      MoreLinksCovered(q, pg, build'.pg, t);
      MoreLinks(q, pg, build'.pg, t, done, q.Layer(t + 1));
      CoversUnion(q, build'.pg, t, done, a, q.Layer(t + 1));
      if reached {
        found := true;
        assert Apart(q) by {
          SourceLayer(q, t, a);
          if t == 0 {
            var b :| b in q.Layer(t + 1) && Connects(q, t, a, b);
            FirstSegmentSeparates(q, b);
          }
        }
      }
      todo := todo - {a};
      assert q.Layer(t) - todo == done + {a};
    }
    assert q.Layer(t) - todo == q.Layer(t);
    if found {
      ReadyStep(q, build', t);
    }
  }

  lemma NothingYet(q: Query, build: Build, t: nat)
    requires t <= |q.visit|
    ensures PlantedIn(q, build.trees, t, {}) && Covers(q, build.pg, t, {}, q.Layer(t + 1))
  {
  }

  lemma SegmentViewIs(q: Query, t: nat)
    requires t <= |q.visit|
    ensures q.SegmentView(t) == QueryView(q.g, q.ex, q.ToExclude(t), q.avoidLinks)
  {
  }

  lemma SourceLayer(q: Query, t: nat, a: Node)
    requires t <= |q.visit| && a in q.Layer(t)
    ensures t == 0 ==> a == q.src
  {
  }

  // ---------- stitching ----------

  lemma SegmentedCons(q: Query, t: nat, u: Node, seg: Links, w: Node, tail: Links)
    requires t <= |q.visit| && IsWalk(q.SegmentView(t), u, seg, w) && w in q.Layer(t + 1)
    requires Segmented(q, t + 1, w, tail)
    ensures Segmented(q, t, u, seg + tail)
  {
    hide IsWalk;
    var p := seg + tail;
    assert p[..|seg|] == seg && p[|seg|..] == tail;
    assert CutsAt(q, t, u, p, |seg|, w);
  }

  /** The path that a path graph link stands for is there and has the link's delay. */
  lemma SubPathExists(q: Query, t: nat, l: Link, sub: Option<Walk>)
    requires t <= |q.visit| && JoinsLayers(q, t, l) && l.src != l.dst
    requires ShortestAnswer(q.SegmentView(t), l.src, l.dst, sub)
    ensures sub.Some? && sub.value.delay == l.delay == Delay(sub.value.links)
    ensures IsWalk(q.SegmentView(t), l.src, sub.value.links, l.dst)
  {
    hide IsWalk, Delay, Simple, Query.SegmentView, Query.Layer;
    var p: Links :| Reaches(q.SegmentView(t), l.src, p, l.dst, l.delay);
    assert IsWalk(q.SegmentView(t), l.src, p, l.dst) && Delay(p) == l.delay;
  }

  lemma TreeIsPlanted(q: Query, build: Build, t: nat, a: Node)
    requires Ready(q, build, |q.visit| + 1) && t <= |q.visit| && a in Own(q, t)
    ensures a in build.trees && TreeOf(q, t, a, build.trees[a])
  {
    hide TreeOf, Sound, Covered, Apart, Own;
    assert PlantedIn(q, build.trees, t, Own(q, t));
  }

  /** The links of the path stand for the segments from `o` on: all of them, or all but the
      first, which a source in the first set does not need. */
  ghost predicate Climbs(q: Query, o: nat, path: Links)
    requires q.visit != []
  {
    && o == (if q.src in q.visit[0] then 1 else 0) && |path| == |q.visit| + 1 - o && At(q.src, path, |path|) == q.dst
    && forall k :: 0 <= k < |path| ==>
      JoinsLayers(q, k + o, path[k]) && path[k].src == At(q.src, path, k) != path[k].dst
  }

  lemma ClimbsAt(q: Query, o: nat, path: Links, k: nat)
    requires q.visit != [] && Climbs(q, o, path) && k < |path|
    ensures k + o <= |q.visit| && JoinsLayers(q, k + o, path[k]) && path[k].src == At(q.src, path, k) != path[k].dst
    ensures path[k].src in Own(q, k + o) && path[k].dst in q.Layer(k + o + 1) && path[k].dst == At(q.src, path, k + 1)
  {
    hide DistanceAnswer;
  }

  lemma ClimbsParts(q: Query, o: nat, path: Links)
    requires q.visit != [] && Climbs(q, o, path)
    ensures o <= 1 && |path| + o == |q.visit| + 1 && At(q.src, path, 0) == q.src && At(q.src, path, |path|) == q.dst
    ensures o == 1 ==> q.src in q.Layer(1)
  {
    hide JoinsLayers;
  }

  method Stitch(q: Query, path: Links, build: Build, ghost o: nat) returns (w: Walk)
    requires q.visit != [] && Ready(q, build, |q.visit| + 1) && Climbs(q, o, path)
    ensures Segmented(q, 0, q.src, w.links) && w.delay == Delay(w.links) == Delay(path)
  {
    hide *;
    var finalPath: Links, total := [], 0;
    EmptyDelay();
    ReadyApart(q, build);
    ClimbsParts(q, o, path);
    LeadsFromSource(q, o);
    assert path[..0] == [];
    for k := 0 to |path|
      invariant total == Delay(finalPath) == Delay(path[..k])
      invariant Leads(q, k + o, At(q.src, path, k), finalPath)
    {
      var l := path[k];
      ClimbsAt(q, o, path, k);
      TreeIsPlanted(q, build, k + o, l.src);
      var tree := build.trees[l.src];
      TreeParts(q, k + o, l.src, tree);
      var sub := GetPath(tree, l.dst, q.SegmentView(k + o));
      SubPathExists(q, k + o, l, sub);
      LeadsOn(q, k + o, finalPath, l.src, sub.value.links, l.dst);
      DelayConcat(finalPath, sub.value.links);
      assert path[..k + 1] == path[..k] + [l];
      DelaySnoc(path[..k], l);
      finalPath := finalPath + sub.value.links;
      total := total + sub.value.delay;
    }
    LeadsToDestination(q, finalPath);
    assert path[..|path|] == path;
    w := Walk(finalPath, total);
  }

  lemma TreeParts(q: Query, t: nat, a: Node, tree: SpTree)
    requires t <= |q.visit| && TreeOf(q, t, a, tree)
    ensures tree.src == a && tree.destinations == q.Layer(t + 1) && Correct(tree, q.SegmentView(t))
  {
  }

  lemma EmptyDelay()
    ensures Delay([]) == 0
  {
  }

  lemma ReadyApart(q: Query, build: Build)
    requires Ready(q, build, |q.visit| + 1)
    ensures Apart(q)
  {
  }

  /** Completing `p` from `u` in layer `t` completes a walk from the source. */
  ghost predicate Leads(q: Query, t: nat, u: Node, p: Links)
    requires t <= |q.visit| + 1
  {
    forall tail :: Segmented(q, t, u, tail) ==> Segmented(q, 0, q.src, p + tail)
  }

  /** A source in the first set has met it. */
  lemma LeadsFromSource(q: Query, o: nat)
    requires Apart(q) && q.visit != [] && o <= 1 && (o == 1 ==> q.src in q.Layer(1))
    ensures Leads(q, o, q.src, [])
  {
    hide Segmented, Query.SegmentView;
    forall tail | Segmented(q, o, q.src, tail) ensures Segmented(q, 0, q.src, [] + tail) {
      assert [] + tail == tail;
      if o == 1 {
        assert IsWalk(q.SegmentView(0), q.src, [], q.src);
        SegmentedCons(q, 0, q.src, [], q.src, tail);
      }
    }
  }

  lemma LeadsOn(q: Query, t: nat, p: Links, u: Node, seg: Links, w: Node)
    requires t <= |q.visit| && Leads(q, t, u, p) && IsWalk(q.SegmentView(t), u, seg, w) && w in q.Layer(t + 1)
    ensures Leads(q, t + 1, w, p + seg)
  {
    hide Segmented, IsWalk, Query.SegmentView, Query.Layer;
    forall tail | Segmented(q, t + 1, w, tail) ensures Segmented(q, 0, q.src, p + seg + tail) {
      SegmentedCons(q, t, u, seg, w, tail);
      assert p + (seg + tail) == p + seg + tail;
    }
  }

  lemma LeadsToDestination(q: Query, p: Links)
    requires Leads(q, |q.visit| + 1, q.dst, p)
    ensures Segmented(q, 0, q.src, p)
  {
    assert Segmented(q, |q.visit| + 1, q.dst, []);
    assert p + [] == p;
  }

  // ---------- the query ----------

  lemma NoSegmentNoAnswer(q: Query, t: nat)
    requires t <= |q.visit| && forall a <- q.Layer(t), b <- q.Layer(t + 1) :: !Connects(q, t, a, b)
    ensures VisitAnswer(q, None)
  {
    hide Segmented, Connects;
    forall p: Links ensures !Segmented(q, 0, q.src, p) {
      if Segmented(q, 0, q.src, p) {
        var a, b := SegmentIsNeeded(q, 0, t, q.src, p);
      }
    }
  }

  lemma PathGraphDecides(q: Query, build: Build, sp: Option<Walk>, r: Option<Walk>)
    requires Ready(q, build, |q.visit| + 1)
    requires ShortestAnswer(PathGraphView(build.pg), q.src, q.dst, sp)
    requires sp.None? ==> r.None?
    requires sp.Some? ==> r.Some? && Segmented(q, 0, q.src, r.value.links)
                          && r.value.delay == Delay(r.value.links) == Delay(sp.value.links)
    ensures VisitAnswer(q, r)
  {
    hide Segmented, IsWalk, Delay, Simple, Sound, Covered, Planted, PathGraphView, Query.Layer;
    Layers(q);
    forall p: Links | Segmented(q, 0, q.src, p) ensures sp.Some? && Delay(sp.value.links) <= Delay(p) {
      var path := PathGraphMatches(q, build.pg, 0, q.src, p);
      assert IsWalk(PathGraphView(build.pg), q.src, path, q.dst);
    }
  }

  lemma DirectAnswer(q: Query, r: Option<Walk>)
    requires q.visit == [] && ShortestAnswer(q.SegmentView(0), q.src, q.dst, r)
    ensures VisitAnswer(q, r)
  {
    hide IsWalk, Delay, Simple, Query.SegmentView;
    forall p: Links ensures Segmented(q, 0, q.src, p) <==> IsWalk(q.SegmentView(0), q.src, p, q.dst) {
      if Segmented(q, 0, q.src, p) {
        var k, w := SegmentedCut(q, 0, q.src, p);
        assert Segmented(q, 1, w, p[k..]);
        assert p[..k] == p;
      }
      if IsWalk(q.SegmentView(0), q.src, p, q.dst) {
        assert p[..|p|] == p && p[|p|..] == [];
        assert CutsAt(q, 0, q.src, p, |p|, q.dst) && Segmented(q, 1, q.dst, p[|p|..]);
      }
    }
  }

  lemma ReadyGraph(q: Query, build: Build)
    requires Ready(q, build, |q.visit| + 1)
    ensures build.pg.Valid() && PathGraphView(build.pg) == QueryView(build.pg, Exclusion({}, {}), {}, {})
  {
    hide QueryView, Sound, Covered, Planted, Apart;
  }

  lemma PathGraphPath(q: Query, build: Build, w: Walk) returns (o: nat)
    requires q.visit != [] && Ready(q, build, |q.visit| + 1)
    requires ShortestAnswer(PathGraphView(build.pg), q.src, q.dst, Some(w))
    requires PrefersDirect(PathGraphView(build.pg), q.src, w.links)
    ensures Climbs(q, o, w.links)
  {
    hide Segmented, Delay, Sound, Covered, Planted, PathGraphView, Query.Layer, JoinsLayers, PrefersDirect, Apart;
    FirstLink(q, build.pg, w);
    o := if q.src in q.visit[0] then 1 else 0;
    PathGraphWalkClimbs(q, build.pg, w.links, o, |q.visit| + 1 - o);
    forall k | 0 <= k < |w.links|
      ensures JoinsLayers(q, k + o, w.links[k]) && w.links[k].src == At(q.src, w.links, k) != w.links[k].dst
    {
      assert At(q.src, w.links, k) != At(q.src, w.links, k + 1);
    }
  }

  lemma EmptyBuildIsReady(q: Query)
    ensures Ready(q, Build(AdjacencyList(map[]), map[], 0), 0)
  {
  }

  lemma QueryParts(q: Query)
    requires q.Valid()
    ensures q.g.Valid()
    ensures q.visit == [] ==> q.SegmentView(0) == QueryView(q.g, q.ex, q.avoidNodes, q.avoidLinks)
  {
    hide QueryView;
    if q.visit == [] {
      assert q.ToExclude(0) == q.avoidNodes;
    }
  }

  method ShortestPathStatic(q: Query) returns (r: Option<Walk>)
    requires q.Valid()
    ensures VisitAnswer(q, r) && ShortestVisit(q, r)
  {
    hide *;
    QueryParts(q);
    if q.visit == [] {
      var tree := ComputePaths(q.src, {q.dst}, q.ex, q.g, q.avoidNodes, q.avoidLinks);
      r := GetPath(tree, q.dst, q.SegmentView(0));
      DirectAnswer(q, r);
      AnswerIsShortestVisit(q, r);
      return;
    }
    var build := Build(AdjacencyList(map[]), map[], 0);
    EmptyBuildIsReady(q);
    for t := 0 to |q.visit| + 1
      invariant Ready(q, build, t)
    {
      var found;
      build, found := AddSegment(q, t, build);
      if !found {
        NoSegmentNoAnswer(q, t);
        AnswerIsShortestVisit(q, None);
        return None;
      }
    }
    ReadyGraph(q, build);
    var tree := ComputePaths(q.src, {q.dst}, Exclusion({}, {}), build.pg, {}, {});
    var sp := GetPath(tree, q.dst, PathGraphView(build.pg));
    if sp.Some? {
      ghost var o := PathGraphPath(q, build, sp.value);
      var w := Stitch(q, sp.value.links, build, o);
      r := Some(w);
    } else {
      r := None;
    }
    PathGraphDecides(q, build, sp, r);
    AnswerIsShortestVisit(q, r);
  }
}
