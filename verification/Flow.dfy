/** Decomposition of a flow over links into paths: a recursion that follows links with flow
    left, hands the flow it pushed through to paths and takes it off the links. */
module Flow {
  import opened Graphs

  type Flows = map<Link, real>

  datatype FlowAndPath = FlowAndPath(flow: real, path: Links)

  /** Links out of and into each node. */
  datatype AdjacencyMap = AdjacencyMap(edgesOut: map<Node, seq<Link>>, edgesIn: map<Node, seq<Link>>) {

    ghost predicate Valid() {
      && (forall v <- edgesOut :: NoDuplicates(edgesOut[v]) && forall l <- edgesOut[v] :: l.src == v)
      && (forall v <- edgesIn :: NoDuplicates(edgesIn[v]) && forall l <- edgesIn[v] :: l.dst == v)
    }

    /** The lists know every link that carries flow, and both its ends. */
    ghost predicate Covers(links: set<Link>) {
      forall l <- links ::
        && l.src in edgesOut && l in edgesOut[l.src] && l.dst in edgesOut
        && l.dst in edgesIn && l in edgesIn[l.dst] && l.src in edgesIn
    }
  }

  ghost function Over(flow: Flows): View {
    View(flow.Keys, {})
  }

  // ---------- sums over emitted paths ----------

  ghost function Total(es: seq<FlowAndPath>): real {
    if es == [] then 0.0 else Total(es[..|es| - 1]) + es[|es| - 1].flow
  }

  /** The flow of the paths that use a link. */
  ghost function Through(es: seq<FlowAndPath>, l: Link): real {
    if es == [] then 0.0
    else Through(es[..|es| - 1], l) + if l in es[|es| - 1].path then es[|es| - 1].flow else 0.0
  }

  lemma {:induction false} TotalConcat(es: seq<FlowAndPath>, fs: seq<FlowAndPath>)
    ensures Total(es + fs) == Total(es) + Total(fs)
  {
    if fs == [] {
      assert es + fs == es;
    } else {
      TotalConcat(es, fs[..|fs| - 1]);
      assert (es + fs)[..|es + fs| - 1] == es + fs[..|fs| - 1];
    }
  }

  lemma {:induction false} ThroughConcat(es: seq<FlowAndPath>, fs: seq<FlowAndPath>, l: Link)
    ensures Through(es + fs, l) == Through(es, l) + Through(fs, l)
  {
    if fs == [] {
      assert es + fs == es;
    } else {
      ThroughConcat(es, fs[..|fs| - 1], l);
      assert (es + fs)[..|es + fs| - 1] == es + fs[..|fs| - 1];
    }
  }

  lemma {:induction false} ThroughPrefix(es: seq<FlowAndPath>, l: Link)
    requires forall e <- es :: l in e.path
    ensures Through(es, l) == Total(es)
  {
    if es != [] {
      assert forall e <- es[..|es| - 1] :: e in es;
      ThroughPrefix(es[..|es| - 1], l);
    }
  }

  // ---------- what an emitted path is ----------

  /** No link of the list leaves the sink. */
  ghost predicate StaysBefore(sink: Node, links: Links) {
    forall l <- links :: l.src != sink
  }

  /** A walk from source to sink over links with flow, which ends when it first gets to the
      sink, with no link twice, carrying some flow. */
  ghost predicate GoodPath(flow: Flows, src: Node, sink: Node, prefix: Links, e: FlowAndPath) {
    && e.flow > 0.0 && prefix <= e.path
    && IsWalk(Over(flow), src, e.path, sink) && NoDuplicates(e.path) && StaysBefore(sink, e.path)
  }

  ghost predicate GoodPaths(flow: Flows, src: Node, sink: Node, prefix: Links, es: seq<FlowAndPath>) {
    forall e <- es :: GoodPath(flow, src, sink, prefix, e)
  }

  /** `flow'` is what is left of `flow` after the paths have taken their share. */
  ghost predicate Left(flow: Flows, es: seq<FlowAndPath>, flow': Flows) {
    && flow'.Keys == flow.Keys
    && forall l <- flow :: flow'[l] == flow[l] - Through(es, l) && flow'[l] >= 0.0
  }

  // ---------- taking flow off the links of a path ----------

  function Subtracted(flow: Flows, links: Links, f: real): Flows
    requires forall l <- links :: l in flow
  {
    if links == [] then flow
    else
      var n := |links| - 1;
      assert forall l <- links[..n] :: l in links;
      var rest := Subtracted(flow, links[..n], f);
      if links[n] in rest then rest[links[n] := rest[links[n]] - f] else rest
  }

  lemma {:induction false} SubtractedKeys(flow: Flows, links: Links, f: real)
    requires forall l <- links :: l in flow
    ensures Subtracted(flow, links, f).Keys == flow.Keys
  {
    if links != [] {
      assert forall l <- links[..|links| - 1] :: l in links;
      SubtractedKeys(flow, links[..|links| - 1], f);
    }
  }

  lemma {:induction false} SubtractedDistinct(flow: Flows, links: Links, f: real, l: Link)
    requires (forall k <- links :: k in flow) && NoDuplicates(links) && l in flow
    ensures l in Subtracted(flow, links, f)
    ensures Subtracted(flow, links, f)[l] == flow[l] - if l in links then f else 0.0
  {
    SubtractedKeys(flow, links, f);
    if links != [] {
      var n := |links| - 1;
      assert links == links[..n] + [links[n]];
      assert forall k <- links[..n] :: k in links;
      SubtractedDistinct(flow, links[..n], f, l);
      SubtractedKeys(flow, links[..n], f);
    }
  }

  // ---------- the recursion ----------

  /** A call at `at` may push `overall`: the links so far are a walk to it, none twice, that
      entered only nodes marked as seen, and each of them has that much flow left. */
  ghost predicate Ready(flow: Flows, src: Node, sink: Node, links: Links, seen: set<Node>, at: Node, overall: real) {
    && (forall l <- flow :: flow[l] >= 0.0)
    && IsWalk(Over(flow), src, links, at) && NoDuplicates(links) && StaysBefore(sink, links)
    && (forall l <- links :: l in flow && l.dst in seen && overall <= flow[l])
  }

  /** What pushing flow so far has done, from `flow0` to `flow`. */
  ghost predicate Pushed(flow0: Flows, src: Node, sink: Node, prefix: Links, es: seq<FlowAndPath>, flow: Flows) {
    GoodPaths(flow0, src, sink, prefix, es) && Left(flow0, es, flow)
  }

  lemma NothingPushed(flow: Flows, src: Node, sink: Node, prefix: Links)
    requires forall l <- flow :: flow[l] >= 0.0
    ensures Pushed(flow, src, sink, prefix, [], flow)
  {
  }

  /** Links of the prefix lose exactly what was pushed. */
  lemma PrefixLoses(flow0: Flows, src: Node, sink: Node, prefix: Links, es: seq<FlowAndPath>, flow: Flows, l: Link)
    requires Pushed(flow0, src, sink, prefix, es, flow) && l in prefix && l in flow0
    ensures l in flow && flow[l] == flow0[l] - Total(es)
  {
    hide IsWalk, NoDuplicates, Total, Through;
    forall e <- es ensures l in e.path {
      assert GoodPath(flow0, src, sink, prefix, e);
      assert prefix == e.path[..|prefix|];
    }
    ThroughPrefix(es, l);
  }

  /** Taking an edge to a node not seen yet leaves the call at that node ready. */
  lemma ReadyToDescend(flow0: Flows, src: Node, sink: Node, prefix: Links, seen: set<Node>, at: Node, overall0: real,
                       es: seq<FlowAndPath>, flow: Flows, overall: real, edge: Link, take: real)
    requires Ready(flow0, src, sink, prefix, seen, at, overall0) && at != sink
    requires Pushed(flow0, src, sink, prefix, es, flow)
    requires overall == overall0 - Total(es)
    requires edge in flow && edge.src == at && edge.dst !in seen && take <= overall && take <= flow[edge]
    ensures Ready(flow, src, sink, prefix + [edge], seen + {edge.dst}, edge.dst, take)
  {
    var links := prefix + [edge];
    assert IsWalk(Over(flow), src, prefix, at) by {
      assert flow.Keys == flow0.Keys;
    }
    SingleLink(Over(flow), edge);
    WalkConcat(Over(flow), src, prefix, at, [edge], edge.dst);
    hide IsWalk, GoodPaths, Total, Through;
    assert edge !in prefix;
    assert NoDuplicates(links);
    forall l <- links ensures l in flow && l.dst in seen + {edge.dst} && take <= flow[l] {
      if l in prefix {
        PrefixLoses(flow0, src, sink, prefix, es, flow, l);
      }
    }
  }

  lemma PushedMore(flow0: Flows, src: Node, sink: Node, prefix: Links, es: seq<FlowAndPath>, flow: Flows,
                   edge: Link, more: seq<FlowAndPath>, flow': Flows)
    requires Pushed(flow0, src, sink, prefix, es, flow) && Pushed(flow, src, sink, prefix + [edge], more, flow')
    ensures Pushed(flow0, src, sink, prefix, es + more, flow')
  {
    hide IsWalk, NoDuplicates, Total, Through;
    assert flow0.Keys == flow.Keys;
    forall e <- es + more ensures GoodPath(flow0, src, sink, prefix, e) {
      if e in more {
        assert GoodPath(flow, src, sink, prefix + [edge], e);
        assert prefix <= e.path by {
          assert prefix == (prefix + [edge])[..|prefix|];
        }
      }
    }
    forall l <- flow0 ensures flow'[l] == flow0[l] - Through(es + more, l) && flow'[l] >= 0.0 {
      ThroughConcat(es, more, l);
    }
  }

  lemma Emitted(flow: Flows, src: Node, sink: Node, links: Links, seen: set<Node>, f: real)
    requires Ready(flow, src, sink, links, seen, sink, f) && f > 0.0
    ensures Pushed(flow, src, sink, links, [FlowAndPath(f, links)], Subtracted(flow, links, f))
  {
    hide IsWalk;
    var es := [FlowAndPath(f, links)];
    SubtractedKeys(flow, links, f);
    forall l <- flow
      ensures Subtracted(flow, links, f)[l] == flow[l] - Through(es, l) && Subtracted(flow, links, f)[l] >= 0.0
    {
      SubtractedDistinct(flow, links, f, l);
      assert es[..0] == [] && Through(es[..0], l) == 0.0;
    }
  }

  // ---------- conservation at nodes ----------

  ghost function Sum(flow: Flows, links: seq<Link>): real {
    if links == [] then 0.0
    else Sum(flow, links[..|links| - 1]) + if links[|links| - 1] in flow then flow[links[|links| - 1]] else 0.0
  }

  /** As much flow enters as leaves every node but the ends. */
  ghost predicate Conserved(net: AdjacencyMap, flow: Flows, src: Node, sink: Node) {
    forall v :: v in net.edgesOut && v in net.edgesIn && v != src && v != sink ==>
      Sum(flow, net.edgesIn[v]) == Sum(flow, net.edgesOut[v])
  }

  /** What a path takes off the links of a list. */
  ghost function Crossing(f: real, path: Links, links: seq<Link>): real {
    if links == [] then 0.0
    else Crossing(f, path, links[..|links| - 1]) + if links[|links| - 1] in path then f else 0.0
  }

  ghost function CrossingAll(es: seq<FlowAndPath>, links: seq<Link>): real {
    if es == [] then 0.0
    else CrossingAll(es[..|es| - 1], links) + Crossing(es[|es| - 1].flow, es[|es| - 1].path, links)
  }

  lemma {:induction false} CrossingAllEmpty(es: seq<FlowAndPath>)
    ensures CrossingAll(es, []) == 0.0
  {
    if es != [] {
      CrossingAllEmpty(es[..|es| - 1]);
    }
  }

  lemma {:induction false} CrossingAllSnoc(es: seq<FlowAndPath>, links: seq<Link>, l: Link)
    ensures CrossingAll(es, links + [l]) == CrossingAll(es, links) + Through(es, l)
  {
    if es != [] {
      CrossingAllSnoc(es[..|es| - 1], links, l);
      assert (links + [l])[..|links|] == links;
    }
  }

  /** Sums over links and over paths can be exchanged: a list of links loses what the
      paths take off it. */
  lemma {:induction false} SumLoses(flow: Flows, es: seq<FlowAndPath>, flow': Flows, links: seq<Link>)
    requires Left(flow, es, flow') && forall e <- es, l <- e.path :: l in flow
    ensures Sum(flow', links) == Sum(flow, links) - CrossingAll(es, links)
  {
    if links == [] {
      CrossingAllEmpty(es);
    } else {
      var n := |links| - 1;
      var l := links[n];
      SumLoses(flow, es, flow', links[..n]);
      assert links == links[..n] + [l];
      CrossingAllSnoc(es, links[..n], l);
      if l !in flow {
        NotThrough(es, l);
      }
    }
  }

  lemma {:induction false} NotThrough(es: seq<FlowAndPath>, l: Link)
    requires forall e <- es :: l !in e.path
    ensures Through(es, l) == 0.0
  {
    if es != [] {
      assert forall e <- es[..|es| - 1] :: e in es;
      NotThrough(es[..|es| - 1], l);
    }
  }

  ghost function DstFlow(f: real, path: Links, v: Node): real {
    if path == [] then 0.0
    else DstFlow(f, path[..|path| - 1], v) + if path[|path| - 1].dst == v then f else 0.0
  }

  ghost function SrcFlow(f: real, path: Links, v: Node): real {
    if path == [] then 0.0
    else SrcFlow(f, path[..|path| - 1], v) + if path[|path| - 1].src == v then f else 0.0
  }

  /** A walk enters a node as often as it leaves it, but for its ends. */
  lemma {:induction false} WalkBalances(view: View, f: real, u: Node, p: Links, x: Node, v: Node)
    requires IsWalk(view, u, p, x)
    ensures DstFlow(f, p, v) + (if v == u then f else 0.0) == SrcFlow(f, p, v) + (if v == x then f else 0.0)
  {
    if p != [] {
      WalkSplit(view, u, p, x, |p| - 1);
      WalkBalances(view, f, u, p[..|p| - 1], At(u, p, |p| - 1), v);
      assert p[|p| - 1].src == At(u, p, |p| - 1);
    }
  }

  lemma {:induction false} CrossingSnoc(f: real, path: Links, l: Link, links: seq<Link>)
    requires l !in path && NoDuplicates(links)
    ensures Crossing(f, path + [l], links) == Crossing(f, path, links) + if l in links then f else 0.0
  {
    if links != [] {
      var n := |links| - 1;
      assert links == links[..n] + [links[n]];
      CrossingSnoc(f, path, l, links[..n]);
    }
  }

  lemma {:induction false} CrossingNothing(f: real, links: seq<Link>)
    ensures Crossing(f, [], links) == 0.0
  {
    if links != [] {
      CrossingNothing(f, links[..|links| - 1]);
    }
  }

  lemma {:induction false} CrossingInto(f: real, path: Links, links: seq<Link>, v: Node)
    requires NoDuplicates(path) && NoDuplicates(links) && forall l <- path :: l in links <==> l.dst == v
    ensures Crossing(f, path, links) == DstFlow(f, path, v)
  {
    if path == [] {
      CrossingNothing(f, links);
    } else {
      var n := |path| - 1;
      assert path == path[..n] + [path[n]];
      assert forall l <- path[..n] :: l in path;
      CrossingInto(f, path[..n], links, v);
      CrossingSnoc(f, path[..n], path[n], links);
    }
  }

  lemma {:induction false} CrossingOut(f: real, path: Links, links: seq<Link>, v: Node)
    requires NoDuplicates(path) && NoDuplicates(links) && forall l <- path :: l in links <==> l.src == v
    ensures Crossing(f, path, links) == SrcFlow(f, path, v)
  {
    if path == [] {
      CrossingNothing(f, links);
    } else {
      var n := |path| - 1;
      assert path == path[..n] + [path[n]];
      assert forall l <- path[..n] :: l in path;
      CrossingOut(f, path[..n], links, v);
      CrossingSnoc(f, path[..n], path[n], links);
    }
  }

  /** A path takes as much off the links into a node as off the links out of it. */
  lemma PathBalances(net: AdjacencyMap, flow: Flows, src: Node, sink: Node, prefix: Links, e: FlowAndPath, v: Node)
    requires net.Valid() && net.Covers(flow.Keys) && GoodPath(flow, src, sink, prefix, e)
    requires v in net.edgesOut && v in net.edgesIn
    ensures Crossing(e.flow, e.path, net.edgesIn[v]) + (if v == src then e.flow else 0.0) ==
            Crossing(e.flow, e.path, net.edgesOut[v]) + (if v == sink then e.flow else 0.0)
  {
    assert forall l <- e.path :: l in flow.Keys;
    assert forall l <- e.path :: l in net.edgesIn[v] <==> l.dst == v;
    assert forall l <- e.path :: l in net.edgesOut[v] <==> l.src == v;
    CrossingInto(e.flow, e.path, net.edgesIn[v], v);
    CrossingOut(e.flow, e.path, net.edgesOut[v], v);
    WalkBalances(Over(flow), e.flow, src, e.path, sink, v);
  }

  lemma {:induction false} PathsBalance(net: AdjacencyMap, flow: Flows, src: Node, sink: Node, prefix: Links,
                                        es: seq<FlowAndPath>, v: Node)
    requires net.Valid() && net.Covers(flow.Keys) && GoodPaths(flow, src, sink, prefix, es)
    requires v in net.edgesOut && v in net.edgesIn
    ensures CrossingAll(es, net.edgesIn[v]) + (if v == src then Total(es) else 0.0) ==
            CrossingAll(es, net.edgesOut[v]) + (if v == sink then Total(es) else 0.0)
  {
    if es != [] {
      var n := |es| - 1;
      assert forall e <- es[..n] :: e in es;
      PathsBalance(net, flow, src, sink, prefix, es[..n], v);
      assert GoodPath(flow, src, sink, prefix, es[n]);
      hide GoodPath;
      PathBalances(net, flow, src, sink, prefix, es[n], v);
    }
  }

  lemma PathLinksKnown(flow: Flows, src: Node, sink: Node, prefix: Links, es: seq<FlowAndPath>)
    requires GoodPaths(flow, src, sink, prefix, es)
    ensures forall e <- es, l <- e.path :: l in flow
  {
    forall e <- es, l <- e.path ensures l in flow {
      assert GoodPath(flow, src, sink, prefix, e);
      var i :| 0 <= i < |e.path| && e.path[i] == l;
    }
  }

  /** Pushing flow along paths keeps it conserved. */
  lemma PushingConserves(net: AdjacencyMap, flow0: Flows, src: Node, sink: Node, prefix: Links, es: seq<FlowAndPath>,
                         flow: Flows)
    requires net.Valid() && net.Covers(flow0.Keys) && Pushed(flow0, src, sink, prefix, es, flow)
    requires Conserved(net, flow0, src, sink)
    ensures Conserved(net, flow, src, sink)
  {
    hide GoodPaths, Left, Sum, CrossingAll;
    PathLinksKnown(flow0, src, sink, prefix, es);
    forall v | v in net.edgesOut && v in net.edgesIn && v != src && v != sink
      ensures Sum(flow, net.edgesIn[v]) == Sum(flow, net.edgesOut[v])
    {
      SumLoses(flow0, es, flow, net.edgesIn[v]);
      SumLoses(flow0, es, flow, net.edgesOut[v]);
      PathsBalance(net, flow0, src, sink, prefix, es, v);
    }
  }

  // ---------- acyclic support ----------

  /** The nodes of positive rank hold every node that they have a link to, but for the sink,
      and every link out of them goes down, but for those out of the sink. So among the links
      that can be reached from such a node without leaving the sink there is no cycle. */
  ghost predicate Ordered(links: set<Link>, sink: Node, rank: Node -> nat) {
    forall l <- links :: l.src != sink && rank(l.src) > 0 ==>
      rank(l.dst) < rank(l.src) && (l.dst == sink || rank(l.dst) > 0)
  }

  /** Nothing seen so far ranks below `at`. */
  ghost predicate SeenAbove(seen: set<Node>, at: Node, rank: Node -> nat) {
    forall n <- seen :: rank(at) <= rank(n)
  }

  lemma {:induction false} RankFalls(view: View, u: Node, p: Links, x: Node, sink: Node, rank: Node -> nat)
    requires Ordered(view.links, sink, rank) && IsWalk(view, u, p, x) && StaysBefore(sink, p) && rank(u) > 0
    ensures rank(x) <= rank(u) && (p != [] ==> rank(x) < rank(u)) && (x == sink || rank(x) > 0)
  {
    if p != [] {
      var n := |p| - 1;
      WalkSplit(view, u, p, x, n);
      assert forall l <- p[..n] :: l in p;
      RankFalls(view, u, p[..n], At(u, p, n), sink, rank);
      assert p[n] in view.links && p[n].src == At(u, p, n) && p[n].dst == x;
    }
  }

  lemma {:induction false} NeverReturns(view: View, f: real, u: Node, p: Links, x: Node, sink: Node, rank: Node -> nat)
    requires Ordered(view.links, sink, rank) && IsWalk(view, u, p, x) && StaysBefore(sink, p) && rank(u) > 0
    ensures DstFlow(f, p, u) == 0.0
  {
    if p != [] {
      var n := |p| - 1;
      WalkSplit(view, u, p, x, n);
      assert forall l <- p[..n] :: l in p;
      NeverReturns(view, f, u, p[..n], At(u, p, n), sink, rank);
      RankFalls(view, u, p, x, sink, rank);
    }
  }

  /** No cycle can be reached from the source without leaving the sink. */
  ghost predicate Acyclic(links: set<Link>, src: Node, sink: Node) {
    exists rank: Node -> nat :: rank(src) > 0 && Ordered(links, sink, rank)
  }

  lemma AcyclicHasNoCycle(links: set<Link>, src: Node, sink: Node, p: Links, n: Node, cycle: Links)
    requires Acyclic(links, src, sink) && IsWalk(View(links, {}), src, p, n) && StaysBefore(sink, p)
    requires IsWalk(View(links, {}), n, cycle, n) && StaysBefore(sink, cycle)
    ensures cycle == []
  {
    var rank: Node -> nat :| rank(src) > 0 && Ordered(links, sink, rank);
    RankFalls(View(links, {}), src, p, n, sink, rank);
    if n == sink {
      assert cycle != [] ==> cycle[0] in cycle && cycle[0].src == sink;
    } else {
      RankFalls(View(links, {}), n, cycle, n, sink, rank);
    }
  }

  lemma {:induction false} NothingBackIntoSource(net: AdjacencyMap, flow: Flows, src: Node, sink: Node, prefix: Links,
                                                 es: seq<FlowAndPath>, rank: Node -> nat)
    requires net.Valid() && net.Covers(flow.Keys) && GoodPaths(flow, src, sink, prefix, es)
    requires src in net.edgesIn && Ordered(flow.Keys, sink, rank) && rank(src) > 0
    ensures CrossingAll(es, net.edgesIn[src]) == 0.0
  {
    if es != [] {
      var n := |es| - 1;
      assert forall e <- es[..n] :: e in es;
      NothingBackIntoSource(net, flow, src, sink, prefix, es[..n], rank);
      var e := es[n];
      assert GoodPath(flow, src, sink, prefix, e);
      assert forall l <- e.path :: l in flow.Keys;
      assert forall l <- e.path :: l in net.edgesIn[src] <==> l.dst == src;
      CrossingInto(e.flow, e.path, net.edgesIn[src], src);
      NeverReturns(Over(flow), e.flow, src, e.path, sink, sink, rank);
    }
  }

  /** No flow is left on the links of a list. */
  ghost predicate Dry(flow: Flows, links: seq<Link>) {
    forall l <- links :: l in flow ==> flow[l] == 0.0
  }

  lemma {:induction false} DrySum(flow: Flows, links: seq<Link>)
    requires Dry(flow, links)
    ensures Sum(flow, links) == 0.0
  {
    if links != [] {
      assert forall l <- links[..|links| - 1] :: l in links;
      DrySum(flow, links[..|links| - 1]);
    }
  }

  lemma {:induction false} SumAtLeast(flow: Flows, links: seq<Link>, l: Link)
    requires l in links && l in flow && forall k <- flow :: flow[k] >= 0.0
    ensures Sum(flow, links) >= flow[l]
  {
    var n := |links| - 1;
    assert links == links[..n] + [links[n]];
    if l in links[..n] {
      SumAtLeast(flow, links[..n], l);
    } else {
      SumNonNegative(flow, links[..n]);
    }
  }

  lemma {:induction false} SumNonNegative(flow: Flows, links: seq<Link>)
    requires forall k <- flow :: flow[k] >= 0.0
    ensures Sum(flow, links) >= 0.0
  {
    if links != [] {
      SumNonNegative(flow, links[..|links| - 1]);
    }
  }

  /** A conserving node that has no flow left on its way out has none left on its way in. */
  lemma DryMeansDone(net: AdjacencyMap, flow: Flows, src: Node, sink: Node, at: Node, last: Link)
    requires net.Covers(flow.Keys) && Conserved(net, flow, src, sink) && at != src && at != sink
    requires (forall k <- flow :: flow[k] >= 0.0) && last in flow && last.dst == at
    requires at in net.edgesOut && Dry(flow, net.edgesOut[at])
    ensures flow[last] == 0.0
  {
    DrySum(flow, net.edgesOut[at]);
    SumAtLeast(flow, net.edgesIn[at], last);
    hide Sum, Dry;
  }

  /** A source that had at least the demand on its way out and is dry has sent the demand. */
  lemma DrySourceSentAll(net: AdjacencyMap, flow0: Flows, src: Node, sink: Node, es: seq<FlowAndPath>, flow: Flows,
                         rank: Node -> nat)
    requires net.Valid() && net.Covers(flow0.Keys) && Pushed(flow0, src, sink, [], es, flow) && src != sink
    requires src in net.edgesOut && src in net.edgesIn && Ordered(flow0.Keys, sink, rank) && rank(src) > 0
    requires Dry(flow, net.edgesOut[src])
    ensures Total(es) == Sum(flow0, net.edgesOut[src])
  {
    hide Sum, CrossingAll, Total, GoodPaths, Left;
    PathLinksKnown(flow0, src, sink, [], es);
    SumLoses(flow0, es, flow, net.edgesOut[src]);
    PathsBalance(net, flow0, src, sink, [], es, src);
    NothingBackIntoSource(net, flow0, src, sink, [], es, rank);
    DrySum(flow, net.edgesOut[src]);
  }

  // ---------- the routine ----------

  /** The support has no cycles and flow is conserved between the ends. */
  ghost predicate Sane(net: AdjacencyMap, flow: Flows, src: Node, sink: Node, rank: Node -> nat) {
    Ordered(flow.Keys, sink, rank) && rank(src) > 0 && Conserved(net, flow, src, sink)
  }

  lemma {:induction false} ThroughPositive(es: seq<FlowAndPath>, l: Link)
    requires forall e <- es :: e.flow > 0.0
    ensures Through(es, l) >= 0.0
  {
    if es != [] {
      assert forall e <- es[..|es| - 1] :: e in es;
      ThroughPositive(es[..|es| - 1], l);
    }
  }

  /** Pushing flow never puts any back. */
  lemma PushingDrains(flow0: Flows, src: Node, sink: Node, prefix: Links, es: seq<FlowAndPath>, flow: Flows, l: Link)
    requires Pushed(flow0, src, sink, prefix, es, flow) && l in flow0
    ensures l in flow && 0.0 <= flow[l] <= flow0[l]
  {
    hide IsWalk, NoDuplicates, Through;
    assert forall e <- es :: GoodPath(flow0, src, sink, prefix, e);
    ThroughPositive(es, l);
  }

  lemma {:induction false} SubtractedLess(flow: Flows, links: Links, f: real, l: Link)
    requires (forall k <- links :: k in flow) && l in flow && f > 0.0
    ensures l in Subtracted(flow, links, f) && Subtracted(flow, links, f)[l] <= flow[l]
  {
    SubtractedKeys(flow, links, f);
    if links != [] {
      assert forall k <- links[..|links| - 1] :: k in links;
      SubtractedLess(flow, links[..|links| - 1], f, l);
    }
  }

  /** Below a conserving node nothing is handed back. */
  lemma NothingHandedBack(net: AdjacencyMap, flow: Flows, src: Node, sink: Node, prefix: Links, edge: Link,
                          take: real, more: seq<FlowAndPath>, flow': Flows, rest: real, rank: Node -> nat)
    requires net.Valid() && net.Covers(flow.Keys) && Sane(net, flow, src, sink, rank)
    requires Pushed(flow, src, sink, prefix + [edge], more, flow')
    requires rank(edge.dst) < rank(src)
    requires edge in flow && take <= flow[edge] && Total(more) + rest == take && 0.0 <= rest
    requires rest == 0.0 || (edge.dst != sink && edge.dst in net.edgesOut && Dry(flow', net.edgesOut[edge.dst]))
    ensures rest == 0.0
  {
    hide Sane, Conserved, Dry, Total, IsWalk, Ordered;
    PrefixLoses(flow, src, sink, prefix + [edge], more, flow', edge);
    assert flow'[edge] >= rest;
    if rest != 0.0 {
      SaneParts(net, flow, src, sink, rank);
      PushingConserves(net, flow, src, sink, prefix + [edge], more, flow');
      assert flow'.Keys == flow.Keys;
      DryMeansDone(net, flow', src, sink, edge.dst, edge);
    }
  }

  lemma SaneParts(net: AdjacencyMap, flow: Flows, src: Node, sink: Node, rank: Node -> nat)
    requires Sane(net, flow, src, sink, rank)
    ensures Ordered(flow.Keys, sink, rank) && Conserved(net, flow, src, sink)
  {
  }

  lemma StaysSane(net: AdjacencyMap, flow0: Flows, src: Node, sink: Node, prefix: Links, es: seq<FlowAndPath>,
                  flow: Flows,
                  rank: Node -> nat)
    requires net.Valid() && net.Covers(flow0.Keys) && Pushed(flow0, src, sink, prefix, es, flow)
    requires Sane(net, flow0, src, sink, rank)
    ensures Sane(net, flow, src, sink, rank)
  {
    hide Conserved, GoodPaths;
    PushingConserves(net, flow0, src, sink, prefix, es, flow);
  }

  /** After an edge has been served, either the flow is all sent or the edges so far are dry. */
  lemma EdgeServed(flow: Flows, src: Node, sink: Node, prefix: Links, edge: Link, take: real, overall: real,
                   more: seq<FlowAndPath>, flow': Flows, edges: seq<Link>, k: nat)
    requires k < |edges| && edges[k] == edge && edge in flow && Dry(flow, edges[..k])
    requires take == (if flow[edge] <= overall then flow[edge] else overall) && Total(more) == take
    requires Pushed(flow, src, sink, prefix + [edge], more, flow')
    ensures overall - take == 0.0 || Dry(flow', edges[..k + 1])
  {
    hide Total;
    PrefixLoses(flow, src, sink, prefix + [edge], more, flow', edge);
    assert edges[..k + 1] == edges[..k] + [edge];
    assert flow'.Keys == flow.Keys;
    forall l <- edges[..k] | l in flow' ensures flow'[l] == 0.0 {
      PushingDrains(flow, src, sink, prefix + [edge], more, flow', l);
    }
  }

  // ---------- one call ----------

  /** The state in which a call is made. */
  datatype Call = Call(flow: Flows, links: Links, seen: set<Node>, strayed: bool, at: Node, overall: real)

  /** There are no cycles in reach, so the call cannot come back to a node seen before. */
  ghost predicate Plain(c: Call, src: Node, sink: Node, rank: Node -> nat) {
    && !c.strayed && Ordered(c.flow.Keys, sink, rank) && SeenAbove(c.seen, c.at, rank)
    && (c.at == sink || rank(c.at) > 0) && rank(c.at) <= rank(src)
  }

  /** What a call has achieved after serving the first `k` edges out of its node: sent and
      unsent flow add up to what it was given. Unless a link has been left behind, the paths
      are proper and the flow left on the links is what they have not taken. A support
      without cycles leaves no link behind; if it also conserves flow, there is nothing left
      to send or the edges served are dry. */
  ghost predicate Progress(net: AdjacencyMap, src: Node, sink: Node, rank: Node -> nat, c: Call,
                           flow: Flows, links: Links, strayed: bool, sent: seq<FlowAndPath>,
                           overall: real, edges: seq<Link>)
  {
    && Total(sent) + overall == c.overall && 0.0 <= overall <= c.overall
    && (c.strayed ==> strayed)
    && (!strayed ==> links == c.links && Pushed(c.flow, src, sink, c.links, sent, flow))
    && (Plain(c, src, sink, rank) ==> !strayed)
    && (Plain(c, src, sink, rank) && Sane(net, c.flow, src, sink, rank) ==> overall == 0.0 || Dry(flow, edges))
  }

  ghost predicate CallOk(net: AdjacencyMap, src: Node, sink: Node, c: Call) {
    && c.overall > 0.0
    && (!c.strayed ==> Ready(c.flow, src, sink, c.links, c.seen, c.at, c.overall))
  }

  lemma ProgressStart(net: AdjacencyMap, src: Node, sink: Node, rank: Node -> nat, c: Call)
    requires CallOk(net, src, sink, c)
    ensures Progress(net, src, sink, rank, c, c.flow, c.links, c.strayed, [], c.overall, [])
  {
    if !c.strayed {
      assert forall l <- c.flow :: c.flow[l] >= 0.0;
      NothingPushed(c.flow, src, sink, c.links);
    }
    hide Ready, Pushed, Sane, Plain;
  }

  /** An edge with nothing to take is passed over. */
  lemma ProgressSkip(net: AdjacencyMap, src: Node, sink: Node, rank: Node -> nat, c: Call,
                     flow: Flows, links: Links, strayed: bool, sent: seq<FlowAndPath>,
                     overall: real, edges: seq<Link>, edge: Link)
    requires Progress(net, src, sink, rank, c, flow, links, strayed, sent, overall, edges)
    requires flow.Keys == c.flow.Keys && (edge in flow ==> flow[edge] <= 0.0 || overall <= 0.0)
    ensures Progress(net, src, sink, rank, c, flow, links, strayed, sent, overall, edges + [edge])
  {
    hide Pushed, Sane, Plain, Total;
    if !strayed && edge in flow {
      PushingDrains(c.flow, src, sink, c.links, sent, flow, edge);
    }
  }

  /** An edge to a node seen before leaves its link behind; this ends the promises, which
      a support without cycles never comes to. */
  lemma ProgressStray(net: AdjacencyMap, src: Node, sink: Node, rank: Node -> nat, c: Call,
                      flow: Flows, links: Links, strayed: bool, sent: seq<FlowAndPath>,
                      overall: real, edges: seq<Link>, edge: Link)
    requires Progress(net, src, sink, rank, c, flow, links, strayed, sent, overall, edges)
    requires edge in c.flow && edge.src == c.at && c.at != sink && edge.dst in c.seen
    ensures Progress(net, src, sink, rank, c, flow, links + [edge], true, sent, overall, edges + [edge])
  {
    hide Pushed, Sane, Total;
    assert !Plain(c, src, sink, rank);
  }

  /** The call that an edge leads to. */
  ghost function Descent(c: Call, flow: Flows, links: Links, strayed: bool, edge: Link, take: real): Call {
    Call(flow, links + [edge], c.seen + {edge.dst}, strayed, edge.dst, take)
  }

  lemma DescentIs(c: Call, flow: Flows, links: Links, strayed: bool, edge: Link, take: real)
    ensures Descent(c, flow, links, strayed, edge, take)
         == Call(flow, links + [edge], c.seen + {edge.dst}, strayed, edge.dst, take)
    ensures Descent(c, flow, links, strayed, edge, take).overall == take
  {
  }

  lemma DescentOk(net: AdjacencyMap, src: Node, sink: Node, rank: Node -> nat, c: Call,
                  flow: Flows, links: Links, strayed: bool, sent: seq<FlowAndPath>, overall: real, edges: seq<Link>,
                  edge: Link, take: real)
    requires CallOk(net, src, sink, c) && Progress(net, src, sink, rank, c, flow, links, strayed, sent, overall, edges)
    requires edge in flow && edge.src == c.at && c.at != sink && edge.dst !in c.seen
    requires 0.0 < take <= overall && take <= flow[edge]
    ensures CallOk(net, src, sink, Descent(c, flow, links, strayed, edge, take))
  {
    hide Pushed, Sane, Plain, Total, Ready;
    if !strayed {
      ReadyToDescend(c.flow, src, sink, c.links, c.seen, c.at, c.overall, sent, flow, overall, edge, take);
    }
  }

  lemma DescentPlain(c: Call, flow: Flows, links: Links, strayed: bool, edge: Link, take: real, src: Node, sink: Node,
                     rank: Node -> nat)
    requires Plain(c, src, sink, rank) && !strayed && flow.Keys == c.flow.Keys
    requires edge in flow && edge.src == c.at && c.at != sink
    ensures Plain(Descent(c, flow, links, strayed, edge, take), src, sink, rank) && rank(edge.dst) < rank(src)
  {
  }

  /** Serving an edge. */
  lemma ProgressServed(net: AdjacencyMap, src: Node, sink: Node, rank: Node -> nat, c: Call,
                       flow: Flows, links: Links, strayed: bool, sent: seq<FlowAndPath>,
                       overall: real, edges: seq<Link>,
                       edge: Link, take: real, flow': Flows, links': Links, strayed': bool, more: seq<FlowAndPath>,
                       rest: real, links'': Links, overall': real)
    requires net.Valid() && net.Covers(flow.Keys) && flow.Keys == c.flow.Keys && CallOk(net, src, sink, c)
    requires Progress(net, src, sink, rank, c, flow, links, strayed, sent, overall, edges)
    requires edge in flow && edge.src == c.at && c.at != sink && edge.dst !in c.seen
    requires take == (if flow[edge] <= overall then flow[edge] else overall) && 0.0 < take
    requires edge.dst in net.edgesOut && |links'| > 0
    requires links'' == links'[..|links'| - 1] && overall' == overall - (take - rest)
    requires var d := Descent(c, flow, links, strayed, edge, take);
      && CallOk(net, src, sink, d)
      && Progress(net, src, sink, rank, d, flow', links', strayed', more, rest,
                  if edge.dst == sink then [] else net.edgesOut[edge.dst])
      && (edge.dst == sink ==> rest == 0.0)
    ensures Progress(net, src, sink, rank, c, flow', links'', strayed', sent + more, overall', edges + [edge])
  {
    hide Pushed, Sane, Plain, Total, Ready, Dry, IsWalk;
    TotalConcat(sent, more);
    if !strayed' {
      PushedMore(c.flow, src, sink, c.links, sent, flow, edge, more, flow');
      assert links'' == c.links;
      if Plain(c, src, sink, rank) && Sane(net, c.flow, src, sink, rank) {
        ServedSanely(net, src, sink, rank, c, flow, links, strayed, sent, overall, edges, edge, take, flow', more,
                     rest);
      }
    } else if Plain(c, src, sink, rank) {
      DescentPlain(c, flow, links, strayed, edge, take, src, sink, rank);
    }
  }

  lemma ServedSanely(net: AdjacencyMap, src: Node, sink: Node, rank: Node -> nat, c: Call,
                     flow: Flows, links: Links, strayed: bool, sent: seq<FlowAndPath>, overall: real, edges: seq<Link>,
                     edge: Link, take: real, flow': Flows, more: seq<FlowAndPath>, rest: real)
    requires net.Valid() && net.Covers(c.flow.Keys) && flow.Keys == c.flow.Keys && CallOk(net, src, sink, c)
    requires Plain(c, src, sink, rank) && Sane(net, c.flow, src, sink, rank) && !strayed
    requires Progress(net, src, sink, rank, c, flow, links, strayed, sent, overall, edges)
    requires edge in flow && edge.src == c.at && c.at != sink && edge.dst !in c.seen && edge.dst in net.edgesOut
    requires take == (if flow[edge] <= overall then flow[edge] else overall) && 0.0 < take
    requires CallOk(net, src, sink, Descent(c, flow, links, strayed, edge, take))
    requires Progress(net, src, sink, rank, Descent(c, flow, links, strayed, edge, take), flow', links + [edge], false,
                      more, rest, if edge.dst == sink then [] else net.edgesOut[edge.dst])
    requires edge.dst == sink ==> rest == 0.0
    ensures overall - (take - rest) == 0.0 || Dry(flow', edges + [edge])
  {
    hide Pushed, Sane, Plain, Total, Dry, IsWalk;
    StaysSane(net, c.flow, src, sink, c.links, sent, flow, rank);
    DescentPlain(c, flow, links, strayed, edge, take, src, sink, rank);
    NothingHandedBack(net, flow, src, sink, links, edge, take, more, flow', rest, rank);
    if overall != 0.0 && overall - take != 0.0 {
      assert (edges + [edge])[..|edges|] == edges;
      EdgeServed(flow, src, sink, links, edge, take, overall, more, flow', edges + [edge], |edges|);
      assert (edges + [edge])[..|edges| + 1] == edges + [edge];
    }
  }

  ghost predicate StateFits(net: AdjacencyMap, maxFlow: real, flow: Flows, links: Links, seen: set<Node>) {
    && net.Valid() && net.Covers(flow.Keys) && seen <= net.edgesOut.Keys
    && (forall l <- links :: l in flow) && (forall l <- flow :: flow[l] < maxFlow)
  }

  lemma FitsSeen(net: AdjacencyMap, maxFlow: real, flow: Flows, links: Links, seen: set<Node>, n: Node)
    requires StateFits(net, maxFlow, flow, links, seen) && n in net.edgesOut
    ensures StateFits(net, maxFlow, flow, links, seen + {n})
  {
  }

  lemma FitsBack(net: AdjacencyMap, maxFlow: real, flow: Flows, links: Links, seen: set<Node>, n: Node)
    requires StateFits(net, maxFlow, flow, links, seen) && links != []
    ensures StateFits(net, maxFlow, flow, links[..|links| - 1], seen - {n})
    ensures net.Valid() && net.Covers(flow.Keys)
  {
  }

  lemma FitsFlow(net: AdjacencyMap, maxFlow: real, flow: Flows, links: Links, seen: set<Node>)
    requires StateFits(net, maxFlow, flow, links, seen)
    ensures forall l <- flow :: flow[l] < maxFlow
    ensures net.Valid() && net.Covers(flow.Keys)
  {
  }

  // ---------- the recursion as a function ----------

  /** What the recursion works on: the flow left, the links and nodes so far and the paths found;
      and whether a link was left behind on the way to a node seen before. */
  datatype Trail = Trail(flow: Flows, links: Links, seen: set<Node>, out: seq<FlowAndPath>, strayed: bool)

  /** The least of the flow left on a link and the flow asked for. */
  function ToTake(flow: Flows, edge: Link, overall: real): real
    requires edge in flow
  {
    if flow[edge] <= overall then flow[edge] else overall
  }

  /** What is left to send, and the trail, after a call at `at`. */
  function Recover(net: AdjacencyMap, sink: Node, at: Node, overall: real, t: Trail): (r: (real, Trail))
    ensures r.1.seen == t.seen
    decreases |net.edgesOut.Keys - t.seen|, 2, 0
  {
    if at == sink then
      var left := if forall l <- t.links :: l in t.flow then Subtracted(t.flow, t.links, overall) else t.flow;
      (0.0, t.(flow := left, out := t.out + [FlowAndPath(overall, t.links)]))
    else if at !in net.edgesOut then (overall, t)
    else RecoverOver(net, sink, net.edgesOut[at], overall, t)
  }

  /** After the edges of a list, one after another. */
  function RecoverOver(net: AdjacencyMap, sink: Node, edges: seq<Link>, overall: real, t: Trail): (r: (real, Trail))
    ensures r.1.seen == t.seen
    decreases |net.edgesOut.Keys - t.seen|, 1, |edges|
  {
    if edges == [] then (overall, t)
    else
      var (rest, u) := RecoverEdge(net, sink, edges[0], overall, t);
      RecoverOver(net, sink, edges[1..], rest, u)
  }

  /** After one edge. An edge to a node seen before stays on the trail. */
  function RecoverEdge(net: AdjacencyMap, sink: Node, edge: Link, overall: real, t: Trail): (r: (real, Trail))
    ensures r.1.seen == t.seen
    decreases |net.edgesOut.Keys - t.seen|, 0, 0
  {
    if edge !in t.flow || ToTake(t.flow, edge, overall) <= 0.0 then (overall, t)
    else if edge.dst in t.seen || edge.dst !in net.edgesOut then
      (overall, t.(links := t.links + [edge], strayed := true))
    else
      SmallerRest(net.edgesOut.Keys, t.seen, edge.dst);
      var take := ToTake(t.flow, edge, overall);
      var (rest, u) := Recover(net, sink, edge.dst, take, t.(links := t.links + [edge], seen := t.seen + {edge.dst}));
      var links := if u.links == [] then [] else u.links[..|u.links| - 1];
      (overall - (take - rest), u.(links := links, seen := u.seen - {edge.dst}))
  }

  lemma TakeIs(flow: Flows, edge: Link, overall: real)
    requires edge in flow
    ensures ToTake(flow, edge, overall) == if flow[edge] <= overall then flow[edge] else overall
  {
  }

  lemma RecoverAtSink(net: AdjacencyMap, sink: Node, overall: real, t: Trail)
    requires forall l <- t.links :: l in t.flow
    ensures Recover(net, sink, sink, overall, t)
         == (0.0, t.(flow := Subtracted(t.flow, t.links, overall), out := t.out + [FlowAndPath(overall, t.links)]))
  {
  }

  lemma RecoverOverNext(net: AdjacencyMap, sink: Node, edges: seq<Link>, k: nat, overall: real, t: Trail)
    requires k < |edges|
    ensures var (rest, u) := RecoverEdge(net, sink, edges[k], overall, t);
            RecoverOver(net, sink, edges[k..], overall, t) == RecoverOver(net, sink, edges[k + 1..], rest, u)
  {
    hide RecoverEdge;
    assert edges[k..][0] == edges[k] && edges[k..][1..] == edges[k + 1..];
  }

  lemma RecoverOverNone(net: AdjacencyMap, sink: Node, edges: seq<Link>, overall: real, t: Trail)
    ensures RecoverOver(net, sink, edges[|edges|..], overall, t) == (overall, t)
  {
  }

  lemma RecoverEdgeTaken(net: AdjacencyMap, sink: Node, edge: Link, overall: real, take: real, t: Trail, rest: real,
                         u: Trail)
    requires edge in t.flow && take == ToTake(t.flow, edge, overall) && take > 0.0
    requires edge.dst !in t.seen && edge.dst in net.edgesOut && |u.links| > 0
    requires (rest, u) == Recover(net, sink, edge.dst, take, t.(links := t.links + [edge], seen := t.seen + {edge.dst}))
    ensures RecoverEdge(net, sink, edge, overall, t)
         == (overall - (take - rest), Trail(u.flow, u.links[..|u.links| - 1], t.seen, u.out, u.strayed))
  {
    hide Recover;
    assert u.seen - {edge.dst} == t.seen;
  }

  class Recovery {
    const net: AdjacencyMap
    const src: Node
    const sink: Node
    const demand: real
    /** Stands for the largest value of the number type: no flow reaches it. */
    const maxFlow: real
    var flow: Flows
    var linksSoFar: Links
    var nodesSoFar: set<Node>
    var out: seq<FlowAndPath>
    /** Whether a link was left behind in `linksSoFar` on the way to a node seen before. */
    ghost var strayed: bool

    constructor (net: AdjacencyMap, src: Node, sink: Node, demand: real, maxFlow: real, flow: Flows)
      ensures this.net == net && this.src == src && this.sink == sink && this.demand == demand
      ensures this.maxFlow == maxFlow
      ensures this.flow == flow && linksSoFar == [] && nodesSoFar == {} && out == [] && !strayed
    {
      this.net, this.src, this.sink, this.demand, this.maxFlow := net, src, sink, demand, maxFlow;
      this.flow, linksSoFar, nodesSoFar, out, strayed := flow, [], {}, [], false;
    }

    ghost predicate Fits()
      reads this
    {
      StateFits(net, maxFlow, flow, linksSoFar, nodesSoFar)
    }

    /** Takes the flow of a path off each link of it. */
    method Subtract(f: real)
      requires f > 0.0 && forall l <- linksSoFar :: l in flow
      modifies this`flow
      ensures flow == Subtracted(old(flow), linksSoFar, f)
    {
      for k := 0 to |linksSoFar|
        invariant forall l <- linksSoFar :: l in old(flow) && l in flow
        invariant flow == Subtracted(old(flow), linksSoFar[..k], f)
      {
        var link := linksSoFar[k];
        assert linksSoFar[..k + 1][..k] == linksSoFar[..k];
        SubtractedKeys(old(flow), linksSoFar[..k], f);
        flow := flow[link := flow[link] - f];
      }
      assert linksSoFar[..|linksSoFar|] == linksSoFar;
    }

    lemma FitsIs()
      ensures Fits() <==> StateFits(net, maxFlow, flow, linksSoFar, nodesSoFar)
    {
    }

    lemma NowIs(c: Call)
      requires c == Call(flow, linksSoFar, nodesSoFar, strayed, c.at, c.overall)
      ensures Now(c.at, c.overall) == c
    {
    }

    lemma CurrentIs(t: Trail)
      requires t == Trail(flow, linksSoFar, nodesSoFar, out, strayed)
      ensures Current() == t
    {
    }

    lemma EdgesIs(at: Node)
      requires at in net.edgesOut
      ensures Edges(at) == if at == sink then [] else net.edgesOut[at]
    {
    }

    ghost function Current(): Trail
      reads this
    {
      Trail(flow, linksSoFar, nodesSoFar, out, strayed)
    }

    ghost function Now(at: Node, overall: real): Call
      reads this
    {
      Call(flow, linksSoFar, nodesSoFar, strayed, at, overall)
    }

    /** The edges that a call at `at` serves. */
    ghost function Edges(at: Node): seq<Link> {
      if at == sink || at !in net.edgesOut then [] else net.edgesOut[at]
    }

    /** Pushes up to `overallFlow` from `at` to the sink and returns what could not be sent. */
    method RecoverPathsRecursive(at: Node, overallFlow: real, ghost rank: Node -> nat)
      returns (remainder: real, ghost sent: seq<FlowAndPath>)
      requires Fits() && (at == sink || at in net.edgesOut)
      requires (demand > 0.0 ==> overallFlow <= demand) && (at == sink ==> overallFlow < maxFlow)
      requires CallOk(net, src, sink, Now(at, overallFlow))
      modifies this
      ensures Fits() && flow.Keys == old(flow.Keys) && nodesSoFar == old(nodesSoFar)
      ensures |linksSoFar| >= |old(linksSoFar)|
      ensures out == old(out) + sent
      ensures Progress(net, src, sink, rank, old(Now(at, overallFlow)), flow, linksSoFar, strayed, sent, remainder,
                       Edges(at))
      ensures at == sink ==> remainder == 0.0
      ensures (remainder, Current()) == Recover(net, sink, at, overallFlow, old(Current()))
      decreases |net.edgesOut.Keys - nodesSoFar|, 3
    {
      hide Progress, CallOk, AdjacencyMap.Valid, AdjacencyMap.Covers, Subtracted, RecoverOver, RecoverEdge;
      ghost var c := Now(at, overallFlow);
      if at == sink {
        assert overallFlow != maxFlow;
        assert demand > 0.0 ==> overallFlow <= demand;
        CallPositive(net, src, sink, c);
        SubtractedFits(flow, linksSoFar, overallFlow);
        RecoverAtSink(net, sink, overallFlow, Current());
        Subtract(overallFlow);
        out := out + [FlowAndPath(overallFlow, linksSoFar)];
        sent := [FlowAndPath(overallFlow, linksSoFar)];
        ProgressSink(net, src, sink, rank, c);
        return 0.0, sent;
      }
      var edgesOut := net.edgesOut[at];
      var overall := overallFlow;
      sent := [];
      ProgressStart(net, src, sink, rank, c);
      assert edgesOut[..0] == [] && edgesOut[0..] == edgesOut;
      ghost var result := Recover(net, sink, at, overallFlow, Current());
      for k := 0 to |edgesOut|
        invariant Fits() && flow.Keys == c.flow.Keys && nodesSoFar == c.seen && |linksSoFar| >= |c.links|
        invariant out == old(out) + sent && overall <= overallFlow
        invariant Progress(net, src, sink, rank, c, flow, linksSoFar, strayed, sent, overall, edgesOut[..k])
        invariant RecoverOver(net, sink, edgesOut[k..], overall, Current()) == result
      {
        ghost var more;
        assert edgesOut[..k + 1] == edgesOut[..k] + [edgesOut[k]];
        RecoverOverNext(net, sink, edgesOut, k, overall, Current());
        overall, more := ServeEdge(edgesOut[k], overall, rank, c, sent, edgesOut[..k]);
        sent := sent + more;
      }
      assert edgesOut[..|edgesOut|] == edgesOut;
      RecoverOverNone(net, sink, edgesOut, overall, Current());
      remainder := overall;
    }

    /** One round of the loop over the edges out of a node. */
    method ServeEdge(edge: Link, overall: real, ghost rank: Node -> nat, ghost c: Call, ghost sent: seq<FlowAndPath>,
                     ghost edges: seq<Link>)
      returns (overall': real, ghost more: seq<FlowAndPath>)
      requires Fits() && flow.Keys == c.flow.Keys && nodesSoFar == c.seen && |linksSoFar| >= |c.links|
      requires c.at in net.edgesOut && c.at != sink && edge in net.edgesOut[c.at]
      requires (demand > 0.0 ==> overall <= demand) && CallOk(net, src, sink, c) && overall <= c.overall
      requires Progress(net, src, sink, rank, c, flow, linksSoFar, strayed, sent, overall, edges)
      modifies this
      ensures Fits() && flow.Keys == c.flow.Keys && nodesSoFar == c.seen && |linksSoFar| >= |c.links|
      ensures out == old(out) + more && overall' <= overall
      ensures Progress(net, src, sink, rank, c, flow, linksSoFar, strayed, sent + more, overall', edges + [edge])
      ensures (overall', Current()) == RecoverEdge(net, sink, edge, overall, old(Current()))
      decreases |net.edgesOut.Keys - c.seen|, 2
    {
      hide Progress, CallOk, AdjacencyMap.Valid, AdjacencyMap.Covers, Recover;
      more := [];
      assert sent + [] == sent;
      if edge !in flow {
        ProgressSkip(net, src, sink, rank, c, flow, linksSoFar, strayed, sent, overall, edges, edge);
        return overall, more;
      }
      var toTake := ToTake(flow, edge, overall);
      if toTake <= 0.0 {
        ProgressSkip(net, src, sink, rank, c, flow, linksSoFar, strayed, sent, overall, edges, edge);
        return overall, more;
      }
      EdgeEnds(net, flow, c.at, edge);
      linksSoFar := linksSoFar + [edge];
      var neighbor := edge.dst;
      if neighbor in nodesSoFar {
        ProgressStray(net, src, sink, rank, c, flow, old(linksSoFar), strayed, sent, overall, edges, edge);
        strayed := true;
        return overall, more;
      }
      overall', more := Descend(edge, toTake, overall, rank, c, sent, edges, old(linksSoFar));
    }

    /** Follows the edge last pushed to a node not seen before, comes back and pops it. */
    method Visit(neighbor: Node, toTake: real, ghost rank: Node -> nat)
      returns (rest: real, ghost sent: seq<FlowAndPath>, ghost links: Links)
      requires Fits() && neighbor in net.edgesOut && neighbor !in nodesSoFar && linksSoFar != []
      requires (demand > 0.0 ==> toTake <= demand) && toTake < maxFlow
      requires CallOk(net, src, sink, Call(flow, linksSoFar, nodesSoFar + {neighbor}, strayed, neighbor, toTake))
      modifies this
      ensures Fits() && flow.Keys == old(flow.Keys) && nodesSoFar == old(nodesSoFar)
      ensures |links| >= |old(linksSoFar)| && linksSoFar == links[..|links| - 1]
      ensures out == old(out) + sent
      ensures Progress(net, src, sink, rank,
                       Call(old(flow), old(linksSoFar), old(nodesSoFar) + {neighbor}, old(strayed), neighbor, toTake),
                       flow, links, strayed, sent, rest, Edges(neighbor))
      ensures neighbor == sink ==> rest == 0.0
      ensures (rest, Trail(flow, links, nodesSoFar + {neighbor}, out, strayed))
           == Recover(net, sink, neighbor, toTake,
                      Trail(old(flow), old(linksSoFar), old(nodesSoFar) + {neighbor}, old(out), old(strayed)))
      decreases |net.edgesOut.Keys - nodesSoFar|, 0
    {
      hide *;
      FitsIs();
      FitsSeen(net, maxFlow, flow, linksSoFar, nodesSoFar, neighbor);
      SmallerRest(net.edgesOut.Keys, nodesSoFar, neighbor);
      nodesSoFar := nodesSoFar + {neighbor};
      FitsIs();
      CurrentIs(Trail(flow, linksSoFar, nodesSoFar, out, strayed));
      NowIs(Call(flow, linksSoFar, nodesSoFar, strayed, neighbor, toTake));
      rest, sent := RecoverPathsRecursive(neighbor, toTake, rank);
      FitsIs();
      CurrentIs(Trail(flow, linksSoFar, nodesSoFar, out, strayed));
      links := linksSoFar;
      FitsBack(net, maxFlow, flow, links, nodesSoFar, neighbor);
      nodesSoFar := nodesSoFar - {neighbor};
      linksSoFar := linksSoFar[..|linksSoFar| - 1];
      assert nodesSoFar == old(nodesSoFar);
      FitsIs();
    }

    /** Takes what can be taken along an edge to a node not seen before. */
    method Descend(edge: Link, toTake: real, overall: real, ghost rank: Node -> nat, ghost c: Call,
                   ghost sent: seq<FlowAndPath>, ghost edges: seq<Link>, ghost links: Links)
      returns (overall': real, ghost more: seq<FlowAndPath>)
      requires Fits() && flow.Keys == c.flow.Keys && nodesSoFar == c.seen && linksSoFar == links + [edge]
      requires |links| >= |c.links|
      requires edge in flow && edge.src == c.at && c.at != sink
      requires edge.dst in net.edgesOut && edge.dst !in nodesSoFar
      requires toTake == ToTake(flow, edge, overall) && 0.0 < toTake
      requires (demand > 0.0 ==> overall <= demand) && CallOk(net, src, sink, c)
      requires Progress(net, src, sink, rank, c, flow, links, strayed, sent, overall, edges)
      modifies this
      ensures Fits() && flow.Keys == c.flow.Keys && nodesSoFar == c.seen && |linksSoFar| >= |c.links|
      ensures out == old(out) + more && overall' <= overall
      ensures Progress(net, src, sink, rank, c, flow, linksSoFar, strayed, sent + more, overall', edges + [edge])
      ensures (overall', Current())
           == RecoverEdge(net, sink, edge, overall, Trail(old(flow), links, old(nodesSoFar), old(out), old(strayed)))
      decreases |net.edgesOut.Keys - c.seen|, 1
    {
      hide *;
      FitsIs();
      FitsFlow(net, maxFlow, flow, linksSoFar, nodesSoFar);
      TakeIs(flow, edge, overall);
      ghost var t, was := Trail(flow, links, nodesSoFar, out, strayed), strayed;
      DescentOk(net, src, sink, rank, c, flow, links, strayed, sent, overall, edges, edge, toTake);
      DescentIs(c, flow, links, strayed, edge, toTake);
      var rest;
      ghost var links';
      rest, more, links' := Visit(edge.dst, toTake, rank);
      overall' := overall - (toTake - rest);
      EdgesIs(edge.dst);
      FitsIs();
      CurrentIs(Trail(flow, links'[..|links'| - 1], c.seen, out, strayed));
      RecoverEdgeTaken(net, sink, edge, overall, toTake, t, rest,
                       Trail(flow, links', c.seen + {edge.dst}, out, strayed));
      RestPart(net, src, sink, rank, Descent(c, t.flow, links, was, edge, toTake), flow, links', strayed, more, rest,
               Edges(edge.dst));
      ProgressServed(net, src, sink, rank, c, t.flow, links, was, sent, overall, edges, edge, toTake,
                     flow, links', strayed, more, rest, linksSoFar, overall');
      assert Current() == RecoverEdge(net, sink, edge, overall, t).1;
      assert t == Trail(old(flow), links, old(nodesSoFar), old(out), old(strayed));
    }
  }

  lemma RestPart(net: AdjacencyMap, src: Node, sink: Node, rank: Node -> nat, c: Call,
                  flow: Flows, links: Links, strayed: bool, sent: seq<FlowAndPath>, overall: real, edges: seq<Link>)
    requires Progress(net, src, sink, rank, c, flow, links, strayed, sent, overall, edges)
    ensures overall <= c.overall
  {
  }

  lemma CallPositive(net: AdjacencyMap, src: Node, sink: Node, c: Call)
    requires CallOk(net, src, sink, c)
    ensures c.overall > 0.0
  {
  }

  lemma ProgressSink(net: AdjacencyMap, src: Node, sink: Node, rank: Node -> nat, c: Call)
    requires CallOk(net, src, sink, c) && c.at == sink && forall l <- c.links :: l in c.flow
    ensures Progress(net, src, sink, rank, c, Subtracted(c.flow, c.links, c.overall), c.links, c.strayed,
                     [FlowAndPath(c.overall, c.links)], 0.0, [])
  {
    if !c.strayed {
      Emitted(c.flow, src, sink, c.links, c.seen, c.overall);
    }
    hide Ready, Pushed, Sane;
    OneTotal(FlowAndPath(c.overall, c.links));
    hide Total;
  }

  lemma OneTotal(e: FlowAndPath)
    ensures Total([e]) == e.flow
  {
    assert [e][..0] == [];
    assert Total([e][..0]) == 0.0;
  }

  lemma SubtractedFits(flow: Flows, links: Links, f: real)
    requires (forall l <- links :: l in flow) && f > 0.0
    ensures Subtracted(flow, links, f).Keys == flow.Keys
    ensures forall l <- flow :: Subtracted(flow, links, f)[l] <= flow[l]
  {
    SubtractedKeys(flow, links, f);
    forall l <- flow ensures Subtracted(flow, links, f)[l] <= flow[l] {
      SubtractedLess(flow, links, f, l);
    }
  }

  lemma EdgeEnds(net: AdjacencyMap, flow: Flows, at: Node, edge: Link)
    requires net.Valid() && net.Covers(flow.Keys) && at in net.edgesOut && edge in net.edgesOut[at] && edge in flow
    ensures edge.src == at && edge.dst in net.edgesOut
  {
  }

  lemma SmallerRest(all: set<Node>, seen: set<Node>, n: Node)
    requires n in all && n !in seen
    ensures |all - (seen + {n})| < |all - seen|
  {
    assert all - seen == (all - (seen + {n})) + {n};
  }

  // ---------- the callers ----------

  /** What a decomposition promises: proper paths that take no more off a link than it has. */
  ghost predicate Decomposes(flow: Flows, src: Node, sink: Node, paths: seq<FlowAndPath>) {
    && GoodPaths(flow, src, sink, [], paths)
    && forall l <- flow :: Through(paths, l) <= flow[l]
  }

  lemma PushedDecomposes(flow0: Flows, src: Node, sink: Node, paths: seq<FlowAndPath>, flow: Flows)
    requires Pushed(flow0, src, sink, [], paths, flow)
    ensures Decomposes(flow0, src, sink, paths)
  {
    hide GoodPaths, Through;
    assert forall l <- flow0 :: flow[l] == flow0[l] - Through(paths, l);
  }

  lemma FirstCall(net: AdjacencyMap, flow: Flows, src: Node, sink: Node, start: real, rank: Node -> nat)
    requires (forall l <- flow :: flow[l] > 0.0) && start > 0.0
    ensures CallOk(net, src, sink, Call(flow, [], {}, false, src, start))
    ensures Ordered(flow.Keys, sink, rank) && rank(src) > 0 ==>
      Plain(Call(flow, [], {}, false, src, start), src, sink, rank)
  {
  }

  /** Reads the end of the first call. */
  lemma FirstOutcome(net: AdjacencyMap, flow0: Flows, src: Node, sink: Node, start: real, rank: Node -> nat,
                     flow: Flows, links: Links, strayed: bool, paths: seq<FlowAndPath>, remainder: real)
    requires net.Valid() && net.Covers(flow0.Keys) && src in net.edgesOut && src in net.edgesIn && src != sink
    requires (forall l <- flow0 :: flow0[l] > 0.0) && start > 0.0
    requires Ordered(flow0.Keys, sink, rank) && rank(src) > 0
    requires Progress(net, src, sink, rank, Call(flow0, [], {}, false, src, start), flow, links, strayed, paths,
                      remainder, net.edgesOut[src])
    ensures Decomposes(flow0, src, sink, paths)
    ensures Conserved(net, flow0, src, sink) ==> remainder == 0.0 || Total(paths) == Sum(flow0, net.edgesOut[src])
  {
    hide Pushed, Decomposes, Conserved, Dry, Sum, Total, Ordered;
    FirstCall(net, flow0, src, sink, start, rank);
    PushedDecomposes(flow0, src, sink, paths, flow);
    if Conserved(net, flow0, src, sink) && remainder != 0.0 {
      assert Sane(net, flow0, src, sink, rank);
      DrySourceSentAll(net, flow0, src, sink, paths, flow, rank);
    }
  }

  /** What is left to send and the paths, as the recursion has them. */
  function Recovered(net: AdjacencyMap, src: Node, sink: Node, demand: real, maxFlow: real, flow: Flows)
    : (real, seq<FlowAndPath>)
  {
    var (rest, t) := Recover(net, sink, src, if demand > 0.0 then demand else maxFlow, Trail(flow, [], {}, [], false));
    (rest, t.out)
  }

  /** Paths for one source. A demand of zero asks for all the flow there is. */
  method RecoverPaths(net: AdjacencyMap, src: Node, sink: Node, demand: real, maxFlow: real, flow: Flows)
    returns (paths: seq<FlowAndPath>, remainder: real)
    requires net.Valid() && net.Covers(flow.Keys) && src in net.edgesOut && src in net.edgesIn && src != sink
    requires (forall l <- flow :: 0.0 < flow[l] < maxFlow) && 0.0 < maxFlow && demand < maxFlow
    ensures Total(paths) + remainder == if demand > 0.0 then demand else maxFlow
    ensures remainder >= 0.0
    ensures (remainder, paths) == Recovered(net, src, sink, demand, maxFlow, flow)
    ensures Acyclic(flow.Keys, src, sink) ==> Decomposes(flow, src, sink, paths)
    ensures Acyclic(flow.Keys, src, sink) && Conserved(net, flow, src, sink) ==>
      if 0.0 < demand <= Sum(flow, net.edgesOut[src]) then Total(paths) == demand && remainder == 0.0
      else remainder == 0.0 || Total(paths) == Sum(flow, net.edgesOut[src])
  {
    hide Progress, CallOk, Decomposes, Conserved, Sum, Total, Ordered, AdjacencyMap.Valid, AdjacencyMap.Covers;
    ghost var rank: Node -> nat := n => 0;
    if Acyclic(flow.Keys, src, sink) {
      rank :| rank(src) > 0 && Ordered(flow.Keys, sink, rank);
    }
    var recovery := new Recovery(net, src, sink, demand, maxFlow, flow);
    var startingFlow := if demand > 0.0 then demand else maxFlow;
    FirstCall(net, flow, src, sink, startingFlow, rank);
    assert recovery.Now(src, startingFlow) == Call(flow, [], {}, false, src, startingFlow);
    assert recovery.Edges(src) == net.edgesOut[src];
    ghost var sent;
    remainder, sent := recovery.RecoverPathsRecursive(src, startingFlow, rank);
    paths := recovery.out;
    assert paths == sent;
    OutcomeTotals(net, src, sink, rank, Call(flow, [], {}, false, src, startingFlow), recovery.flow,
                  recovery.linksSoFar, recovery.strayed, paths, remainder, net.edgesOut[src]);
    if Ordered(flow.Keys, sink, rank) && rank(src) > 0 {
      FirstOutcome(net, flow, src, sink, startingFlow, rank, recovery.flow, recovery.linksSoFar, recovery.strayed,
                   paths, remainder);
    }
  }

  lemma OutcomeTotals(net: AdjacencyMap, src: Node, sink: Node, rank: Node -> nat, c: Call,
                      flow: Flows, links: Links, strayed: bool, sent: seq<FlowAndPath>, overall: real, edges: seq<Link>)
    requires Progress(net, src, sink, rank, c, flow, links, strayed, sent, overall, edges)
    ensures Total(sent) + overall == c.overall && overall >= 0.0
  {
  }

  // ---------- a cycle in reach ----------

  const Into := Link(0, 0, 1, 1)
  const Across := Link(1, 1, 2, 1)
  const Back := Link(2, 2, 1, 1)
  const Onward := Link(3, 2, 3, 1)

  /** From 0 to 3 by way of 1 and 2, with a link from 2 back to 1 that is listed first. */
  const LoopNet := AdjacencyMap(map[0 := [Into], 1 := [Across], 2 := [Back, Onward], 3 := []],
                                map[0 := [], 1 := [Into, Back], 2 := [Across], 3 := [Onward]])

  /** `f` goes from end to end and `g` around the cycle. */
  function LoopFlow(f: real, g: real): Flows {
    map[Into := f, Across := f + g, Back := g, Onward := f]
  }

  lemma LoopNetIs()
    ensures LoopNet.edgesOut.Keys == {0, 1, 2, 3} && LoopNet.edgesIn.Keys == {0, 1, 2, 3}
    ensures LoopNet.edgesOut[0] == [Into] && LoopNet.edgesOut[1] == [Across]
    ensures LoopNet.edgesOut[2] == [Back, Onward] && LoopNet.edgesOut[3] == []
    ensures LoopNet.edgesIn[0] == [] && LoopNet.edgesIn[1] == [Into, Back]
    ensures LoopNet.edgesIn[2] == [Across] && LoopNet.edgesIn[3] == [Onward]
  {
  }

  lemma LoopNetValid()
    ensures LoopNet.Valid()
  {
    LoopNetIs();
  }

  lemma LoopNetCovers(f: real, g: real)
    ensures LoopNet.Covers(LoopFlow(f, g).Keys)
  {
    LoopNetIs();
    assert LoopFlow(f, g).Keys == {Into, Across, Back, Onward};
  }

  lemma LoopConserves(f: real, g: real)
    ensures Conserved(LoopNet, LoopFlow(f, g), 0, 3)
  {
    LoopNetIs();
    var flow := LoopFlow(f, g);
    SumOfOne(flow, Across);
    SumOfTwo(flow, Into, Back);
    SumOfTwo(flow, Back, Onward);
    hide Sum;
    assert Sum(flow, LoopNet.edgesIn[1]) == Sum(flow, LoopNet.edgesOut[1]);
    assert Sum(flow, LoopNet.edgesIn[2]) == Sum(flow, LoopNet.edgesOut[2]);
  }

  lemma SumOfOne(flow: Flows, l: Link)
    requires l in flow
    ensures Sum(flow, [l]) == flow[l]
  {
    assert [l][..0] == [];
  }

  lemma SumOfTwo(flow: Flows, l: Link, k: Link)
    requires l in flow && k in flow
    ensures Sum(flow, [l, k]) == flow[l] + flow[k]
  {
    SumOfOne(flow, l);
    assert [l, k][..1] == [l];
  }

  /** A node with one edge, to a node not seen before: the call there decides. */
  lemma OneEdge(net: AdjacencyMap, sink: Node, at: Node, edge: Link, overall: real, t: Trail, rest: real, u: Trail)
    requires at != sink && at in net.edgesOut && net.edgesOut[at] == [edge]
    requires edge in t.flow && 0.0 < overall <= t.flow[edge] && edge.dst !in t.seen && edge.dst in net.edgesOut
    requires |u.links| > 0
    requires (rest, u)
          == Recover(net, sink, edge.dst, overall,
                     Trail(t.flow, t.links + [edge], t.seen + {edge.dst}, t.out, t.strayed))
    ensures Recover(net, sink, at, overall, t)
         == (rest, Trail(u.flow, u.links[..|u.links| - 1], t.seen, u.out, u.strayed))
  {
    hide RecoverEdge, RecoverOver;
    RecoverEdgeTaken(net, sink, edge, overall, overall, t, rest, u);
    assert [edge][0..] == [edge];
    RecoverOverNext(net, sink, [edge], 0, overall, t);
    RecoverOverNone(net, sink, [edge], rest, Trail(u.flow, u.links[..|u.links| - 1], t.seen, u.out, u.strayed));
  }

  /** At node 2 the link back stays on the trail, and the path goes on from its start. */
  lemma AtTheFork(f: real, g: real)
    requires f > 0.0 && g > 0.0
    ensures var p := [Into, Across, Back, Onward];
      Recover(LoopNet, 3, 2, f, Trail(LoopFlow(f, g), [Into, Across], {1} + {2}, [], false))
      == (0.0, Trail(Subtracted(LoopFlow(f, g), p, f), [Into, Across, Back], {1} + {2}, [FlowAndPath(f, p)], true))
  {
    hide RecoverOver, Subtracted;
    var flow, p := LoopFlow(f, g), [Into, Across, Back, Onward];
    var t := Trail(flow, [Into, Across], {1} + {2}, [], false);
    var t' := Trail(flow, [Into, Across, Back], {1} + {2}, [], true);
    var at := Trail(flow, p, t'.seen + {Onward.dst}, [], true);
    var end := Trail(Subtracted(flow, p, f), p, at.seen, [FlowAndPath(f, p)], true);
    assert t.links + [Back] == t'.links && t'.links + [Onward] == p && p[..3] == t'.links;
    assert RecoverEdge(LoopNet, 3, Back, f, t) == (f, t');
    RecoverAtSink(LoopNet, 3, f, at);
    assert at.out + [FlowAndPath(f, p)] == end.out;
    RecoverEdgeTaken(LoopNet, 3, Onward, f, f, t', 0.0, end);
    hide RecoverEdge;
    assert [Back, Onward][0..] == [Back, Onward];
    RecoverOverNext(LoopNet, 3, [Back, Onward], 0, f, t);
    RecoverOverNext(LoopNet, 3, [Back, Onward], 1, f, t');
    RecoverOverNone(LoopNet, 3, [Back, Onward], 0.0, end.(links := t'.links, seen := t'.seen));
  }

  lemma BeforeTheFork(f: real, g: real)
    requires f > 0.0 && g > 0.0
    ensures var p := [Into, Across, Back, Onward];
      Recover(LoopNet, 3, 1, f, Trail(LoopFlow(f, g), [Into], {1}, [], false))
      == (0.0, Trail(Subtracted(LoopFlow(f, g), p, f), [Into, Across], {1}, [FlowAndPath(f, p)], true))
  {
    hide Recover, RecoverOver, RecoverEdge, Subtracted;
    var flow, p := LoopFlow(f, g), [Into, Across, Back, Onward];
    AtTheFork(f, g);
    assert [Into] + [Across] == [Into, Across] && [Into, Across, Back][..2] == [Into, Across];
    OneEdge(LoopNet, 3, 1, Across, f, Trail(flow, [Into], {1}, [], false), 0.0,
            Trail(Subtracted(flow, p, f), [Into, Across, Back], {1} + {2}, [FlowAndPath(f, p)], true));
  }

  lemma AroundTheLoop(f: real, g: real)
    requires f > 0.0 && g > 0.0
    ensures var p := [Into, Across, Back, Onward];
      Recover(LoopNet, 3, 0, f, Trail(LoopFlow(f, g), [], {}, [], false))
      == (0.0, Trail(Subtracted(LoopFlow(f, g), p, f), [Into], {}, [FlowAndPath(f, p)], true))
  {
    hide Recover, RecoverOver, RecoverEdge, Subtracted;
    var flow, p := LoopFlow(f, g), [Into, Across, Back, Onward];
    BeforeTheFork(f, g);
    assert [] + [Into] == [Into] && {} + {1} == {1} && [Into, Across][..1] == [Into];
    OneEdge(LoopNet, 3, 0, Into, f, Trail(flow, [], {}, [], false), 0.0,
            Trail(Subtracted(flow, p, f), [Into, Across], {1}, [FlowAndPath(f, p)], true));
  }

  /** On a flow that is conserved the recursion emits a list of links that is no walk. */
  lemma CycleBreaksPath(f: real, g: real, maxFlow: real)
    requires f > 0.0 && g > 0.0
    ensures LoopNet.Valid() && LoopNet.Covers(LoopFlow(f, g).Keys) && Conserved(LoopNet, LoopFlow(f, g), 0, 3)
    ensures Recovered(LoopNet, 0, 3, f, maxFlow, LoopFlow(f, g))
         == (0.0, [FlowAndPath(f, [Into, Across, Back, Onward])])
    ensures !IsWalk(Over(LoopFlow(f, g)), 0, [Into, Across, Back, Onward], 3)
  {
    hide Recover, Conserved, AdjacencyMap.Valid, AdjacencyMap.Covers, Subtracted, LoopFlow;
    LoopNetValid();
    LoopNetCovers(f, g);
    LoopConserves(f, g);
    AroundTheLoop(f, g);
    var p := [Into, Across, Back, Onward];
    assert p[3].src != At(0, p, 3);
  }
}
