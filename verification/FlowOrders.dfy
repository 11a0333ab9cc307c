/** When the flow decomposition leaves no link behind, whatever the order of the edge lists:
    exactly when no cycle can be reached from the source without leaving the sink. */
module FlowOrders {
  import opened Graphs
  import opened Flow

  // ---------- cycles ----------

  ghost predicate Leads(links: set<Link>, sink: Node, u: Node, v: Node) {
    exists p: Links :: IsWalk(View(links, {}), u, p, v) && StaysBefore(sink, p)
  }

  /** No closed walk starts where the source leads, if none leaves the sink. */
  ghost predicate NoCycle(links: set<Link>, src: Node, sink: Node) {
    forall n: Node, cycle: Links ::
      Leads(links, sink, src, n) && IsWalk(View(links, {}), n, cycle, n) && StaysBefore(sink, cycle) ==> cycle == []
  }

  lemma LeadsOn(links: set<Link>, sink: Node, u: Node, l: Link)
    requires Leads(links, sink, u, l.src) && l in links && l.src != sink
    ensures Leads(links, sink, u, l.dst)
  {
    var view := View(links, {});
    var p: Links :| IsWalk(view, u, p, l.src) && StaysBefore(sink, p);
    SingleLink(view, l);
    WalkConcat(view, u, p, l.src, [l], l.dst);
    assert StaysBefore(sink, p + [l]);
  }

  lemma LeadsFrom(links: set<Link>, sink: Node, l: Link, v: Node) returns (p: Links)
    requires Leads(links, sink, l.dst, v) && l in links && l.src != sink
    ensures IsWalk(View(links, {}), l.src, p, v) && StaysBefore(sink, p) && p != []
  {
    var view := View(links, {});
    var q: Links :| IsWalk(view, l.dst, q, v) && StaysBefore(sink, q);
    SingleLink(view, l);
    WalkConcat(view, l.src, [l], l.dst, q, v);
    p := [l] + q;
  }

  lemma LeadsNowhere(links: set<Link>, sink: Node, u: Node)
    ensures Leads(links, sink, u, u)
  {
    assert IsWalk(View(links, {}), u, [], u) && StaysBefore(sink, []);
  }

  ghost function Ends(links: set<Link>): set<Node> {
    set l <- links :: l.dst
  }

  /** The nodes that `v` leads to, itself included. */
  ghost function Ahead(links: set<Link>, sink: Node, v: Node): set<Node> {
    set n <- Ends(links) + {v} | Leads(links, sink, v, n)
  }

  lemma SmallerSet<T>(a: set<T>, b: set<T>, x: T)
    requires a <= b && x in b && x !in a
    ensures |a| < |b|
  {
    assert a <= b - {x};
    Subset(a, b - {x});
  }

  lemma {:induction false} Subset<T>(a: set<T>, b: set<T>)
    requires a <= b
    ensures |a| <= |b|
    decreases |a|
  {
    if a != {} {
      var x :| x in a;
      Subset(a - {x}, b - {x});
    }
  }

  /** A link leads on to fewer nodes than its start does. */
  lemma AheadShrinks(links: set<Link>, src: Node, sink: Node, l: Link)
    requires NoCycle(links, src, sink) && l in links && l.src != sink && Leads(links, sink, src, l.src)
    ensures |Ahead(links, sink, l.dst)| < |Ahead(links, sink, l.src)|
  {
    hide IsWalk, StaysBefore, Leads;
    assert l.dst in Ends(links);
    forall n <- Ahead(links, sink, l.dst) ensures n in Ahead(links, sink, l.src) && n != l.src {
      var p := LeadsFrom(links, sink, l, n);
      LeadsBy(links, sink, l.src, p, n);
    }
    LeadsNowhere(links, sink, l.src);
    SmallerSet(Ahead(links, sink, l.dst), Ahead(links, sink, l.src), l.src);
  }

  lemma LeadsBy(links: set<Link>, sink: Node, u: Node, p: Links, v: Node)
    requires IsWalk(View(links, {}), u, p, v) && StaysBefore(sink, p)
    ensures Leads(links, sink, u, v)
  {
  }

  /** Nodes in reach rank by the number of nodes ahead of them. */
  ghost function RankBy(links: set<Link>, src: Node, sink: Node, v: Node): nat {
    if Leads(links, sink, src, v) then |Ahead(links, sink, v)| else 0
  }

  lemma RankIsPositive(links: set<Link>, src: Node, sink: Node, v: Node)
    ensures RankBy(links, src, sink, v) > 0 <==> Leads(links, sink, src, v)
  {
    hide Leads;
    LeadsNowhere(links, sink, v);
    assert Leads(links, sink, src, v) ==> v in Ahead(links, sink, v);
  }

  /** The ranking that the decomposition asks for exists if and only if there is no cycle in
      reach. */
  lemma AcyclicIffNoCycle(links: set<Link>, src: Node, sink: Node)
    ensures Acyclic(links, src, sink) <==> NoCycle(links, src, sink)
  {
    if Acyclic(links, src, sink) {
      forall n: Node, cycle: Links
        | Leads(links, sink, src, n) && IsWalk(View(links, {}), n, cycle, n) && StaysBefore(sink, cycle)
        ensures cycle == []
      {
        var p: Links :| IsWalk(View(links, {}), src, p, n) && StaysBefore(sink, p);
        AcyclicHasNoCycle(links, src, sink, p, n, cycle);
      }
    }
    if NoCycle(links, src, sink) {
      NoCycleRanks(links, src, sink);
    }
  }

  lemma NoCycleRanks(links: set<Link>, src: Node, sink: Node)
    requires NoCycle(links, src, sink)
    ensures Acyclic(links, src, sink)
  {
    hide NoCycle, Leads, RankBy;
    var rank: Node -> nat := v => RankBy(links, src, sink, v);
    LeadsNowhere(links, sink, src);
    RankIsPositive(links, src, sink, src);
    forall l <- links | l.src != sink && rank(l.src) > 0
      ensures rank(l.dst) < rank(l.src) && rank(l.dst) > 0
    {
      RankIsPositive(links, src, sink, l.src);
      RankIsPositive(links, src, sink, l.dst);
      LeadsOn(links, sink, src, l);
      RankIs(links, src, sink, l.src);
      RankIs(links, src, sink, l.dst);
      AheadShrinks(links, src, sink, l);
    }
    assert Ordered(links, sink, rank);
  }

  lemma RankIs(links: set<Link>, src: Node, sink: Node, v: Node)
    requires Leads(links, sink, src, v)
    ensures RankBy(links, src, sink, v) == |Ahead(links, sink, v)|
  {
  }

  // ---------- orders ----------

  /** The same edges at each node, in any order. */
  ghost predicate Reordered(out: map<Node, seq<Link>>, out': map<Node, seq<Link>>) {
    out'.Keys == out.Keys && forall v <- out :: multiset(out'[v]) == multiset(out[v])
  }

  /** The lists of `net` know the links that carry flow, and both their ends. */
  ghost predicate Knows(net: AdjacencyMap, links: set<Link>) {
    && (forall v <- net.edgesOut, l <- net.edgesOut[v] :: l.src == v)
    && forall l <- links :: l.src in net.edgesOut && l in net.edgesOut[l.src] && l.dst in net.edgesOut
  }

  lemma ReorderedKnows(net: AdjacencyMap, links: set<Link>, out': map<Node, seq<Link>>)
    requires net.Valid() && net.Covers(links) && Reordered(net.edgesOut, out')
    ensures Knows(AdjacencyMap(out', net.edgesIn), links)
  {
    forall v <- out', l ensures l in out'[v] <==> l in net.edgesOut[v] {
      assert l in out'[v] <==> l in multiset(out'[v]);
    }
  }

  // ---------- no cycle, nothing left behind ----------

  lemma {:induction false} NoneAtNode(net: AdjacencyMap, sink: Node, at: Node, overall: real, t: Trail,
                                      rank: Node -> nat)
    requires Knows(net, t.flow.Keys) && Ordered(t.flow.Keys, sink, rank)
    requires SeenAbove(t.seen, at, rank) && (at == sink || rank(at) > 0)
    ensures var u := Recover(net, sink, at, overall, t).1; u.flow.Keys == t.flow.Keys && u.strayed == t.strayed
    decreases |net.edgesOut.Keys - t.seen|, 2, 0
  {
    if at == sink {
      if forall l <- t.links :: l in t.flow {
        SubtractedKeys(t.flow, t.links, overall);
      }
    } else if at in net.edgesOut {
      NoneOver(net, sink, net.edgesOut[at], overall, t, at, rank);
    }
  }

  lemma {:induction false} NoneOver(net: AdjacencyMap, sink: Node, edges: seq<Link>, overall: real, t: Trail, at: Node,
                                    rank: Node -> nat)
    requires Knows(net, t.flow.Keys) && Ordered(t.flow.Keys, sink, rank)
    requires SeenAbove(t.seen, at, rank) && at != sink && rank(at) > 0 && forall l <- edges :: l.src == at
    ensures var u := RecoverOver(net, sink, edges, overall, t).1; u.flow.Keys == t.flow.Keys && u.strayed == t.strayed
    decreases |net.edgesOut.Keys - t.seen|, 1, |edges|
  {
    if edges != [] {
      hide Knows, Ordered, SeenAbove, Recover;
      assert edges[0] in edges;
      NoneAlong(net, sink, edges[0], overall, t, rank);
      var r := RecoverEdge(net, sink, edges[0], overall, t);
      hide RecoverEdge;
      NoneOver(net, sink, edges[1..], r.0, r.1, at, rank);
    }
  }

  lemma {:induction false} NoneAlong(net: AdjacencyMap, sink: Node, edge: Link, overall: real, t: Trail,
                                     rank: Node -> nat)
    requires Knows(net, t.flow.Keys) && Ordered(t.flow.Keys, sink, rank)
    requires SeenAbove(t.seen, edge.src, rank) && edge.src != sink && rank(edge.src) > 0
    ensures var u := RecoverEdge(net, sink, edge, overall, t).1; u.flow.Keys == t.flow.Keys && u.strayed == t.strayed
    decreases |net.edgesOut.Keys - t.seen|, 0, 0
  {
    if edge in t.flow && ToTake(t.flow, edge, overall) > 0.0 {
      assert rank(edge.dst) < rank(edge.src) && edge.dst !in t.seen && edge.dst in net.edgesOut;
      SmallerRest(net.edgesOut.Keys, t.seen, edge.dst);
      var t' := t.(links := t.links + [edge], seen := t.seen + {edge.dst});
      assert SeenAbove(t'.seen, edge.dst, rank);
      NoneAtNode(net, sink, edge.dst, ToTake(t.flow, edge, overall), t', rank);
      hide Recover;
    }
  }

  // ---------- a link left behind stays so ----------

  lemma {:induction false} StraysAtNode(net: AdjacencyMap, sink: Node, at: Node, overall: real, t: Trail)
    requires t.strayed
    ensures Recover(net, sink, at, overall, t).1.strayed
    decreases |net.edgesOut.Keys - t.seen|, 2, 0
  {
    if at != sink && at in net.edgesOut {
      StraysOver(net, sink, net.edgesOut[at], overall, t);
    }
  }

  lemma {:induction false} StraysOver(net: AdjacencyMap, sink: Node, edges: seq<Link>, overall: real, t: Trail)
    requires t.strayed
    ensures RecoverOver(net, sink, edges, overall, t).1.strayed
    decreases |net.edgesOut.Keys - t.seen|, 1, |edges|
  {
    if edges != [] {
      hide Recover;
      StraysAlong(net, sink, edges[0], overall, t);
      var r := RecoverEdge(net, sink, edges[0], overall, t);
      hide RecoverEdge;
      StraysOver(net, sink, edges[1..], r.0, r.1);
    }
  }

  lemma {:induction false} StraysAlong(net: AdjacencyMap, sink: Node, edge: Link, overall: real, t: Trail)
    requires t.strayed
    ensures RecoverEdge(net, sink, edge, overall, t).1.strayed
    decreases |net.edgesOut.Keys - t.seen|, 0, 0
  {
    if edge in t.flow && ToTake(t.flow, edge, overall) > 0.0 && edge.dst !in t.seen && edge.dst in net.edgesOut {
      SmallerRest(net.edgesOut.Keys, t.seen, edge.dst);
      StraysAtNode(net, sink, edge.dst, ToTake(t.flow, edge, overall),
                   t.(links := t.links + [edge], seen := t.seen + {edge.dst}));
      hide Recover;
    }
  }

  // ---------- a cycle in reach, and an order that runs into it ----------

  ghost predicate SimpleUpTo(u: Node, p: Links, n: nat)
    requires n <= |p|
  {
    forall i, j :: 0 <= i < j <= n ==> At(u, p, i) != At(u, p, j)
  }

  /** The walk comes back for the first time with link `k`, to position `j`. */
  lemma {:induction false} FirstReturn(u: Node, p: Links, n: nat) returns (k: nat, j: nat)
    requires n <= |p| && !SimpleUpTo(u, p, n)
    ensures j <= k < |p| && SimpleUpTo(u, p, k) && At(u, p, j) == At(u, p, k + 1)
  {
    if SimpleUpTo(u, p, n - 1) {
      k := n - 1;
      hide At;
      j :| 0 <= j < n && At(u, p, j) == At(u, p, n);
    } else {
      k, j := FirstReturn(u, p, n - 1);
    }
  }

  /** The list with `l` moved to the front. */
  ghost function Front(edges: seq<Link>, l: Link): (r: seq<Link>)
    ensures l in edges ==> r != [] && r[0] == l
  {
    if l in edges then
      var i: nat :| i < |edges| && edges[i] == l;
      [l] + edges[..i] + edges[i + 1..]
    else edges
  }

  lemma FrontReorders(edges: seq<Link>, l: Link)
    ensures multiset(Front(edges, l)) == multiset(edges)
  {
    if l in edges {
      var i: nat :| i < |edges| && edges[i] == l && Front(edges, l) == [l] + edges[..i] + edges[i + 1..];
      assert edges == edges[..i] + [l] + edges[i + 1..];
    }
  }

  /** The lists with the first `n` links of the walk in front at their nodes. */
  ghost function Leading(out: map<Node, seq<Link>>, p: Links, n: nat): map<Node, seq<Link>>
    requires n <= |p|
  {
    if n == 0 then out
    else
      var before := Leading(out, p, n - 1);
      var l := p[n - 1];
      if l.src in before then before[l.src := Front(before[l.src], l)] else before
  }

  lemma {:induction false} LeadingReorders(out: map<Node, seq<Link>>, p: Links, n: nat)
    requires n <= |p|
    ensures Reordered(out, Leading(out, p, n))
  {
    if n > 0 {
      LeadingReorders(out, p, n - 1);
      hide Front;
      var before, l := Leading(out, p, n - 1), p[n - 1];
      if l.src in before {
        FrontReorders(before[l.src], l);
      }
    }
  }

  ghost predicate IsFirstAt(out: map<Node, seq<Link>>, l: Link) {
    l.src in out && out[l.src] != [] && out[l.src][0] == l
  }

  lemma FrontIsFirst(before: map<Node, seq<Link>>, l: Link, k: Link)
    requires l.src in before && l in before[l.src]
    ensures var after := before[l.src := Front(before[l.src], l)];
      IsFirstAt(after, l) && (IsFirstAt(before, k) && k.src != l.src ==> IsFirstAt(after, k))
  {
    hide Front;
  }

  lemma ReorderedHas(out: map<Node, seq<Link>>, out': map<Node, seq<Link>>, l: Link)
    requires Reordered(out, out') && l.src in out && l in out[l.src]
    ensures l.src in out' && l in out'[l.src]
  {
    assert l in multiset(out[l.src]) && multiset(out'[l.src]) == multiset(out[l.src]);
  }

  /** The first `n` links start at different nodes, and the lists have them. */
  ghost predicate Listed(out: map<Node, seq<Link>>, p: Links, n: nat) {
    && n <= |p| && (forall a, b :: 0 <= a < b < n ==> p[a].src != p[b].src)
    && forall k :: 0 <= k < n ==> p[k].src in out && p[k] in out[p[k].src]
  }

  lemma ListedBefore(out: map<Node, seq<Link>>, p: Links, n: nat, i: nat)
    requires Listed(out, p, n) && i < n
    ensures Listed(out, p, n - 1) && p[n - 1].src in out && p[n - 1] in out[p[n - 1].src]
    ensures i < n - 1 ==> p[i].src != p[n - 1].src
  {
  }

  lemma LeadingStep(out: map<Node, seq<Link>>, p: Links, n: nat)
    requires 0 < n <= |p| && p[n - 1].src in Leading(out, p, n - 1)
    ensures var before, l := Leading(out, p, n - 1), p[n - 1];
      Leading(out, p, n) == before[l.src := Front(before[l.src], l)]
  {
  }

  lemma LeadingHas(out: map<Node, seq<Link>>, p: Links, n: nat)
    requires Listed(out, p, n) && n > 0
    ensures n <= |p| && p[n - 1].src in Leading(out, p, n - 1) && p[n - 1] in Leading(out, p, n - 1)[p[n - 1].src]
  {
    assert n <= |p|;
    hide *;
    LeadingReorders(out, p, n - 1);
    ListedBefore(out, p, n, n - 1);
    ReorderedHas(out, Leading(out, p, n - 1), p[n - 1]);
  }

  lemma {:induction false} LeadingLeads(out: map<Node, seq<Link>>, p: Links, n: nat, i: nat)
    requires Listed(out, p, n) && i < n
    ensures n <= |p| && IsFirstAt(Leading(out, p, n), p[i])
    decreases n
  {
    assert n <= |p|;
    hide *;
    LeadingHas(out, p, n);
    var before, l := Leading(out, p, n - 1), p[n - 1];
    FrontIsFirst(before, l, p[i]);
    LeadingStep(out, p, n);
    if i < n - 1 {
      ListedBefore(out, p, n, i);
      LeadingLeads(out, p, n - 1, i);
    }
  }

  /** What the run needs: each link of the walk, up to the one that comes back, is first in the
      list of its node, and carries flow. */
  ghost predicate Runs(net: AdjacencyMap, sink: Node, src: Node, flow: Flows, p: Links, k: nat, j: nat) {
    && j <= k < |p| && SimpleUpTo(src, p, k) && At(src, p, j) == At(src, p, k + 1)
    && (forall i: nat :: i <= k ==> RunsAt(net, sink, src, flow, p, i))
  }

  ghost predicate RunsAt(net: AdjacencyMap, sink: Node, src: Node, flow: Flows, p: Links, i: nat) {
    && i < |p| && p[i].src == At(src, p, i) != sink && p[i] in flow && flow[p[i]] > 0.0
    && p[i].src in net.edgesOut && p[i].dst in net.edgesOut
    && net.edgesOut[p[i].src] != [] && net.edgesOut[p[i].src][0] == p[i]
  }

  ghost predicate Passed(src: Node, p: Links, i: nat, n: Node)
    requires i <= |p|
  {
    exists m :: 1 <= m <= i && At(src, p, m) == n
  }

  /** The nodes seen are those at positions 1 to `i`. */
  ghost predicate SeenTo(src: Node, p: Links, i: nat, seen: set<Node>)
    requires i <= |p|
  {
    forall n :: n in seen <==> Passed(src, p, i, n)
  }

  /** A call goes along the first edge of its node. */
  lemma AlongFirst(net: AdjacencyMap, sink: Node, at: Node, overall: real, t: Trail)
    requires at != sink && at in net.edgesOut && net.edgesOut[at] != []
    requires RecoverEdge(net, sink, net.edgesOut[at][0], overall, t).1.strayed
    ensures Recover(net, sink, at, overall, t).1.strayed
  {
    var r := RecoverEdge(net, sink, net.edgesOut[at][0], overall, t);
    hide RecoverEdge;
    StraysOver(net, sink, net.edgesOut[at][1..], r.0, r.1);
  }

  lemma StraysInside(net: AdjacencyMap, sink: Node, edge: Link, overall: real, t: Trail)
    requires edge in t.flow && t.flow[edge] > 0.0 && overall > 0.0 && edge.dst in net.edgesOut
    requires edge.dst in t.seen ||
      Recover(net, sink, edge.dst, ToTake(t.flow, edge, overall),
              t.(links := t.links + [edge], seen := t.seen + {edge.dst})).1.strayed
    ensures RecoverEdge(net, sink, edge, overall, t).1.strayed
  {
    hide Recover;
  }

  /** At the start again: the first link leads to a node seen before. */
  lemma AtTheStartAgain(net: AdjacencyMap, sink: Node, src: Node, flow: Flows, p: Links, k: nat, overall: real,
                        t: Trail)
    requires Runs(net, sink, src, flow, p, k, 0) && overall > 0.0 && t.flow == flow
    requires src in t.seen && (k > 0 ==> At(src, p, 1) in t.seen)
    ensures Recover(net, sink, src, overall, t).1.strayed
  {
    assert RunsAt(net, sink, src, flow, p, 0);
    StraysInside(net, sink, p[0], overall, t);
    AlongFirst(net, sink, src, overall, t);
  }

  /** The run follows the walk down to the link that comes back, and leaves that behind. */
  lemma {:induction false} DownTheWalk(net: AdjacencyMap, sink: Node, src: Node, flow: Flows, p: Links, k: nat, j: nat,
                                       i: nat, overall: real, t: Trail)
    requires Runs(net, sink, src, flow, p, k, j) && i <= k && overall > 0.0 && t.flow == flow
    requires SeenTo(src, p, i, t.seen)
    ensures Recover(net, sink, At(src, p, i), overall, t).1.strayed
    decreases k - i
  {
    assert RunsAt(net, sink, src, flow, p, i);
    var l := p[i];
    var take := ToTake(flow, l, overall);
    var t' := t.(links := t.links + [l], seen := t.seen + {l.dst});
    assert l.dst == At(src, p, i + 1);
    hide Recover, RecoverEdge;
    if i < k {
      SeenMore(src, p, i, t.seen);
      DownTheWalk(net, sink, src, flow, p, k, j, i + 1, take, t');
    } else if l.dst !in t.seen {
      BackAtTheStart(src, p, k, j, t.seen);
      AtTheStartAgain(net, sink, src, flow, p, k, take, t');
    }
    StraysInside(net, sink, l, overall, t);
    AlongFirst(net, sink, l.src, overall, t);
  }

  lemma SeenMore(src: Node, p: Links, i: nat, seen: set<Node>)
    requires i < |p| && SeenTo(src, p, i, seen)
    ensures SeenTo(src, p, i + 1, seen + {At(src, p, i + 1)})
  {
    hide At;
    forall n ensures Passed(src, p, i + 1, n) <==> Passed(src, p, i, n) || n == At(src, p, i + 1) {
      if Passed(src, p, i, n) {
        var m :| 1 <= m <= i && At(src, p, m) == n;
        assert m <= i + 1;
      }
    }
  }

  lemma PassedBefore(src: Node, p: Links, k: nat, m: nat)
    requires m <= k <= |p|
    ensures m == 0 || Passed(src, p, k, At(src, p, m))
  {
  }

  lemma BackAtTheStart(src: Node, p: Links, k: nat, j: nat, seen: set<Node>)
    requires j <= k < |p| && At(src, p, j) == At(src, p, k + 1) && SeenTo(src, p, k, seen) && At(src, p, k + 1) !in seen
    ensures j == 0 && At(src, p, k + 1) == src && (k > 0 ==> At(src, p, 1) in seen)
  {
    assert At(src, p, 0) == src;
    hide At;
    PassedBefore(src, p, k, j);
    if k > 0 {
      PassedBefore(src, p, k, 1);
    }
  }

  /** A walk from the source that comes back, and an order in which the run leaves a link behind. */
  lemma CycleStrays(net: AdjacencyMap, flow: Flows, src: Node, sink: Node, start: real, p: Links, v: Node)
    returns (out': map<Node, seq<Link>>)
    requires net.Valid() && net.Covers(flow.Keys) && (forall l <- flow :: flow[l] > 0.0) && start > 0.0
    requires IsWalk(Over(flow), src, p, v) && StaysBefore(sink, p) && !SimpleUpTo(src, p, |p|)
    ensures Reordered(net.edgesOut, out')
    ensures Recover(AdjacencyMap(out', net.edgesIn), sink, src, start, Trail(flow, [], {}, [], false)).1.strayed
  {
    hide Recover, Leading, RunsAt, Reordered;
    var k, j := FirstReturn(src, p, |p|);
    out' := Leading(net.edgesOut, p, k + 1);
    LeadingReorders(net.edgesOut, p, k + 1);
    var net' := AdjacencyMap(out', net.edgesIn);
    forall i: nat | i <= k ensures RunsAt(net', sink, src, flow, p, i) {
      WalkRuns(net, flow, src, sink, p, v, k, net', i);
    }
    hide IsWalk, AdjacencyMap.Valid, AdjacencyMap.Covers;
    assert SeenTo(src, p, 0, {});
    DownTheWalk(net', sink, src, flow, p, k, j, 0, start, Trail(flow, [], {}, [], false));
  }

  lemma WalkRuns(net: AdjacencyMap, flow: Flows, src: Node, sink: Node, p: Links, v: Node, k: nat, net': AdjacencyMap,
                 i: nat)
    requires net.Valid() && net.Covers(flow.Keys) && (forall l <- flow :: flow[l] > 0.0)
    requires IsWalk(Over(flow), src, p, v) && StaysBefore(sink, p) && k < |p| && SimpleUpTo(src, p, k) && i <= k
    requires net' == AdjacencyMap(Leading(net.edgesOut, p, k + 1), net.edgesIn)
    ensures RunsAt(net', sink, src, flow, p, i)
  {
    WalkListed(net, flow, src, p, v, k);
    LeadingReorders(net.edgesOut, p, k + 1);
    ReorderedKnows(net, flow.Keys, Leading(net.edgesOut, p, k + 1));
    LeadingLeads(net.edgesOut, p, k + 1, i);
    assert p[i] in p && p[i] in flow.Keys && p[i].src == At(src, p, i);
    hide Leading, Reordered, SimpleUpTo, IsWalk, At;
  }

  lemma WalkListed(net: AdjacencyMap, flow: Flows, src: Node, p: Links, v: Node, k: nat)
    requires net.Covers(flow.Keys) && IsWalk(Over(flow), src, p, v) && k < |p| && SimpleUpTo(src, p, k)
    ensures Listed(net.edgesOut, p, k + 1)
  {
    forall a, b | 0 <= a < b < k + 1 ensures p[a].src != p[b].src {
      assert At(src, p, a) != At(src, p, b);
    }
    forall i | 0 <= i < k + 1 ensures p[i].src in net.edgesOut && p[i] in net.edgesOut[p[i].src] {
      assert p[i] in flow.Keys;
    }
  }

  // ---------- both directions ----------

  ghost predicate NeverStrays(net: AdjacencyMap, flow: Flows, src: Node, sink: Node, start: real) {
    forall out' :: Reordered(net.edgesOut, out') ==>
      !Recover(AdjacencyMap(out', net.edgesIn), sink, src, start, Trail(flow, [], {}, [], false)).1.strayed
  }

  /** No cycle can be reached from the source without leaving the sink if and only if, for every
      order of the edge lists, the decomposition leaves no link behind. */
  lemma AcyclicIffNeverStrays(net: AdjacencyMap, flow: Flows, src: Node, sink: Node, start: real)
    requires net.Valid() && net.Covers(flow.Keys) && (forall l <- flow :: flow[l] > 0.0) && start > 0.0
    ensures Acyclic(flow.Keys, src, sink) <==> NeverStrays(net, flow, src, sink, start)
  {
    if Acyclic(flow.Keys, src, sink) {
      var rank: Node -> nat :| rank(src) > 0 && Ordered(flow.Keys, sink, rank);
      hide Recover, Ordered;
      forall out' | Reordered(net.edgesOut, out')
        ensures !Recover(AdjacencyMap(out', net.edgesIn), sink, src, start, Trail(flow, [], {}, [], false)).1.strayed
      {
        ReorderedKnows(net, flow.Keys, out');
        assert SeenAbove({}, src, rank);
        NoneAtNode(AdjacencyMap(out', net.edgesIn), sink, src, start, Trail(flow, [], {}, [], false), rank);
      }
    } else {
      hide Recover, Reordered;
      AcyclicIffNoCycle(flow.Keys, src, sink);
      var n: Node, cycle: Links :|
        Leads(flow.Keys, sink, src, n) && IsWalk(Over(flow), n, cycle, n) && StaysBefore(sink, cycle) && cycle != [];
      var p: Links :| IsWalk(Over(flow), src, p, n) && StaysBefore(sink, p);
      ComesBack(Over(flow), src, p, n, cycle);
      assert StaysBefore(sink, p + cycle);
      var out' := CycleStrays(net, flow, src, sink, start, p + cycle, n);
    }
  }

  lemma ComesBack(view: View, u: Node, p: Links, n: Node, cycle: Links)
    requires IsWalk(view, u, p, n) && IsWalk(view, n, cycle, n) && cycle != []
    ensures IsWalk(view, u, p + cycle, n) && !SimpleUpTo(u, p + cycle, |p + cycle|)
  {
    WalkConcat(view, u, p, n, cycle, n);
    var q := p + cycle;
    assert At(u, q, |p|) == n == At(u, q, |q|);
  }
}
