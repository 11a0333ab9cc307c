/** The single-source shortest path tree: Dijkstra's algorithm with a heap from which
    outdated entries are never deleted and an early exit once every requested
    destination has been settled. */
module Dijkstra {
  import opened Basics
  import opened Graphs

  /** A shortest path tree is built by its constructor and only read afterwards. */
  datatype SpTree = SpTree(src: Node, destinations: set<Node>, minDelays: map<Node, nat>, previous: map<Node, Link>)

  type Queue = multiset<(nat, Node)>

  // ---------- what a tree promises ----------

  ghost predicate Reaches(view: View, src: Node, p: Links, v: Node, delay: nat) {
    IsWalk(view, src, p, v) && Delay(p) == delay && Simple(src, p)
  }

  /** `paths` unfolds the predecessor links: every labelled node has a simple walk of
      exactly its label, and that walk is its predecessor's walk plus one link. */
  ghost predicate Unfolds(view: View, src: Node, minDelays: map<Node, nat>, previous: map<Node, Link>,
                          paths: map<Node, Links>)
  {
    paths.Keys == minDelays.Keys && Labels(view, src, minDelays, paths) && Linked(src, previous, paths)
  }

  ghost predicate Labels(view: View, src: Node, minDelays: map<Node, nat>, paths: map<Node, Links>)
    requires paths.Keys == minDelays.Keys
  {
    forall v <- minDelays :: Reaches(view, src, paths[v], v, minDelays[v])
  }

  ghost predicate Linked(src: Node, previous: map<Node, Link>, paths: map<Node, Links>) {
    && src !in previous
    && (src in paths ==> paths[src] == [])
    && previous.Keys <= paths.Keys <= previous.Keys + {src}
    && (forall v {:trigger previous[v]} :: v in previous ==>
          previous[v].src in paths && paths[v] == paths[previous[v].src] + [previous[v]])
  }

  /** The requested destinations carry the minimum delay over all admissible walks, and
      carry no label exactly when there is no such walk. */
  ghost predicate Correct(t: SpTree, view: View) {
    && (exists paths :: Unfolds(view, t.src, t.minDelays, t.previous, paths))
    && Exact(view, t.src, t.minDelays, t.destinations)
  }

  ghost predicate Exact(view: View, src: Node, minDelays: map<Node, nat>, destinations: set<Node>) {
    forall d <- destinations, p: Links :: IsWalk(view, src, p, d) ==> d in minDelays && minDelays[d] <= Delay(p)
  }

  // ---------- the loop invariant, in parts ----------

  /** Links out of `done` nodes have been relaxed. */
  ghost predicate Relaxed(view: View, minDelays: map<Node, nat>, done: set<Node>)
    requires done <= minDelays.Keys
  {
    forall l <- view.links :: l.src in done && l.dst !in view.blocked ==>
      l.dst in minDelays && minDelays[l.dst] <= minDelays[l.src] + l.delay
  }

  /** Inner nodes of the recorded walks are settled. */
  ghost predicate Rooted(src: Node, minDelays: map<Node, nat>, settled: set<Node>, paths: map<Node, Links>) {
    && src in minDelays && minDelays[src] == 0
    && settled <= minDelays.Keys == paths.Keys
    && forall v <- minDelays, i :: 0 <= i < |paths[v]| ==> At(src, paths[v], i) in settled
  }

  ghost predicate FromSettled(previous: map<Node, Link>, settled: set<Node>) {
    forall v {:trigger previous[v]} :: v in previous ==> previous[v].src in settled
  }

  /** The heap holds each unsettled label once, next to outdated entries, and nothing
      in it is closer than a settled node. */
  ghost predicate Queued(minDelays: map<Node, nat>, settled: set<Node>, queue: Queue) {
    && settled <= minDelays.Keys
    && (forall e <- queue :: e.1 in minDelays && minDelays[e.1] <= e.0 && queue[e] == 1)
    && (forall e <- queue :: e.1 in settled ==> minDelays[e.1] < e.0)
    && (forall v <- minDelays :: v !in settled ==> (minDelays[v], v) in queue)
    && (forall e <- queue, u <- settled :: minDelays[u] <= e.0)
  }

  lemma {:induction false} SmallestExists(q: Queue) returns (top: (nat, Node))
    requires q != multiset{}
    ensures top in q && forall e <- q :: top.0 < e.0 || (top.0 == e.0 && top.1 <= e.1)
    decreases |q|
  {
    top :| top in q;
    var rest := q - multiset{top};
    if rest != multiset{} {
      var other := SmallestExists(rest);
      if other.0 < top.0 || (other.0 == top.0 && other.1 <= top.1) {
        top := other;
      }
      assert forall e <- q :: e in rest || q[e] == 1;
    }
  }

  method PopTop(q: Queue) returns (top: (nat, Node), rest: Queue)
    requires q != multiset{}
    ensures top in q && rest == q - multiset{top}
    ensures forall e <- q :: top.0 < e.0 || (top.0 == e.0 && top.1 <= e.1)
  {
    ghost var least := SmallestExists(q);
    top :| top in q && forall e <- q :: top.0 < e.0 || (top.0 == e.0 && top.1 <= e.1);
    rest := q - multiset{top};
  }

  /** A walk either ends on a node labelled no higher than its delay, or is at least as
      long as every label outside the relaxed nodes. */
  lemma {:induction false} LabelsBoundWalks(view: View, src: Node, minDelays: map<Node, nat>, done: set<Node>,
                                            bound: nat, p: Links, v: Node)
    requires src in minDelays && minDelays[src] == 0 && done <= minDelays.Keys
    requires Relaxed(view, minDelays, done)
    requires forall w <- minDelays :: w !in done ==> bound <= minDelays[w]
    requires IsWalk(view, src, p, v)
    ensures bound <= Delay(p) || (v in minDelays && minDelays[v] <= Delay(p))
    decreases |p|
  {
    if p != [] {
      var n := |p| - 1;
      var u := At(src, p, n);
      WalkSplit(view, src, p, v, n);
      LabelsBoundWalks(view, src, minDelays, done, bound, p[..n], u);
      assert p[n] in view.links;
    }
  }

  /** Both ways of leaving the main loop leave exact labels behind: nothing is queued, or
      all destinations are settled and only the last of them has not been relaxed. */
  lemma LabelsAreExact(view: View, src: Node, minDelays: map<Node, nat>, done: set<Node>, bound: nat,
                       destinations: set<Node>)
    requires src in minDelays && minDelays[src] == 0 && done <= minDelays.Keys
    requires Relaxed(view, minDelays, done)
    requires forall w <- minDelays :: w !in done ==> bound <= minDelays[w]
    requires done == minDelays.Keys || forall d <- destinations :: d in minDelays && minDelays[d] <= bound
    ensures Exact(view, src, minDelays, destinations)
  {
    forall d <- destinations, p: Links | IsWalk(view, src, p, d)
      ensures d in minDelays && minDelays[d] <= Delay(p)
    {
      var b := if done == minDelays.Keys then Delay(p) + 1 else bound;
      LabelsBoundWalks(view, src, minDelays, done, b, p, d);
    }
  }

  /** The working state of the main loop. */
  datatype Search = Search(minDelays: map<Node, nat>, previous: map<Node, Link>, queue: Queue)

  ghost predicate SearchInv(view: View, src: Node, s: Search, settled: set<Node>, paths: map<Node, Links>) {
    && Unfolds(view, src, s.minDelays, s.previous, paths)
    && Rooted(src, s.minDelays, settled, paths)
    && FromSettled(s.previous, settled)
    && Queued(s.minDelays, settled, s.queue)
  }

  /** Settling the closest queued node keeps the invariant. */
  lemma SettleKeepsInv(view: View, src: Node, s: Search, settled: set<Node>, paths: map<Node, Links>,
                       top: (nat, Node))
    requires SearchInv(view, src, s, settled, paths)
    requires top in s.queue && top.1 in s.minDelays && top.0 == s.minDelays[top.1]
    requires forall e <- s.queue :: top.0 <= e.0
    ensures top.1 !in settled
    ensures SearchInv(view, src, s.(queue := s.queue - multiset{top}), settled + {top.1}, paths)
    ensures forall u <- settled + {top.1} :: u in s.minDelays && s.minDelays[u] <= top.0
    ensures forall w <- s.minDelays :: w !in settled ==> top.0 <= s.minDelays[w]
  {
    hide Unfolds;
    assert Queued(s.minDelays, settled + {top.1}, s.queue - multiset{top}) by {
      hide Rooted;
    }
    hide Queued;
    assert Rooted(src, s.minDelays, settled + {top.1}, paths);
  }

  lemma DropKeepsInv(view: View, src: Node, s: Search, settled: set<Node>, paths: map<Node, Links>,
                     top: (nat, Node))
    requires SearchInv(view, src, s, settled, paths)
    requires top in s.queue && top.1 in s.minDelays && s.minDelays[top.1] < top.0
    ensures SearchInv(view, src, s.(queue := s.queue - multiset{top}), settled, paths)
  {
    hide Unfolds;
  }

  lemma BlockedSource(t: SpTree, view: View)
    requires t.src in view.blocked && t.minDelays == map[] && t.previous == map[]
    ensures Correct(t, view)
  {
    assert Unfolds(view, t.src, t.minDelays, t.previous, map[]);
  }

  lemma InitialInv(view: View, src: Node)
    requires src !in view.blocked
    ensures SearchInv(view, src, Search(map[src := 0], map[], multiset{(0, src)}), {}, map[src := []])
    ensures Relaxed(view, map[src := 0], {})
  {
  }

  lemma InvGivesCorrect(view: View, src: Node, destinations: set<Node>, s: Search, settled: set<Node>,
                        paths: map<Node, Links>)
    requires SearchInv(view, src, s, settled, paths) && Exact(view, src, s.minDelays, destinations)
    ensures Correct(SpTree(src, destinations, s.minDelays, s.previous), view)
  {
    hide Unfolds, Queued, Exact;
  }

  lemma SettlingCounts(destinations: set<Node>, settled: set<Node>, current: Node)
    requires current !in settled
    ensures |destinations - (settled + {current})| ==
            if current in destinations then |destinations - settled| - 1 else |destinations - settled|
    ensures |destinations - (settled + {current})| == 0 ==> destinations <= settled + {current}
    ensures settled + {current} - {current} == settled
  {
    assert destinations - (settled + {current}) == (destinations - settled) - {current};
    if |destinations - (settled + {current})| == 0 {
      assert destinations - (settled + {current}) == {};
    }
  }

  lemma InvLabels(view: View, src: Node, s: Search, settled: set<Node>, paths: map<Node, Links>)
    requires SearchInv(view, src, s, settled, paths)
    ensures src in s.minDelays && s.minDelays[src] == 0 && settled <= s.minDelays.Keys
    ensures forall e <- s.queue :: e.1 in s.minDelays && s.minDelays[e.1] <= e.0
    ensures s.queue == multiset{} ==> s.minDelays.Keys <= settled
  {
    hide Unfolds;
  }

  lemma SimpleSnoc(src: Node, p: Links, l: Link)
    requires Simple(src, p)
    requires forall i :: 0 <= i <= |p| ==> At(src, p, i) != l.dst
    ensures Simple(src, p + [l])
  {
    var q := p + [l];
    forall i, j | 0 <= i < j <= |q| ensures At(src, q, i) != At(src, q, j) {
      assert At(src, q, i) == At(src, p, i);
      assert j <= |p| ==> At(src, q, j) == At(src, p, j);
    }
  }

  lemma WalkSnoc(view: View, src: Node, p: Links, l: Link)
    requires IsWalk(view, src, p, l.src) && l in view.links && l.dst !in view.blocked
    ensures IsWalk(view, src, p + [l], l.dst)
    ensures forall i :: 0 <= i <= |p| ==> At(src, p + [l], i) == At(src, p, i)
  {
  }

  lemma ReachesSnoc(view: View, src: Node, p: Links, d: nat, l: Link)
    requires Reaches(view, src, p, l.src, d) && l in view.links && l.dst !in view.blocked
    requires forall i :: 0 <= i <= |p| ==> At(src, p, i) != l.dst
    ensures Reaches(view, src, p + [l], l.dst, d + l.delay)
    ensures forall i :: 0 <= i <= |p| ==> At(src, p + [l], i) == At(src, p, i)
  {
    WalkSnoc(view, src, p, l);
    DelaySnoc(p, l);
    SimpleSnoc(src, p, l);
  }

  function Lowered(s: Search, link: Link, via: nat): Search {
    Search(s.minDelays[link.dst := via], s.previous[link.dst := link], s.queue + multiset{(via, link.dst)})
  }

  lemma UnfoldedReaches(view: View, src: Node, minDelays: map<Node, nat>, previous: map<Node, Link>,
                        paths: map<Node, Links>, v: Node)
    requires Unfolds(view, src, minDelays, previous, paths) && v in minDelays
    ensures v in paths && Reaches(view, src, paths[v], v, minDelays[v])
  {
  }

  lemma LowerKeepsUnfolds(view: View, src: Node, s: Search, settled: set<Node>, paths: map<Node, Links>, link: Link)
    requires Unfolds(view, src, s.minDelays, s.previous, paths)
    requires FromSettled(s.previous, settled)
    requires link.src in s.minDelays && link.src in settled && link.dst !in settled && link.dst != src
    requires Reaches(view, src, paths[link.src] + [link], link.dst, s.minDelays[link.src] + link.delay)
    ensures var s' := Lowered(s, link, s.minDelays[link.src] + link.delay);
      var paths' := paths[link.dst := paths[link.src] + [link]];
      Unfolds(view, src, s'.minDelays, s'.previous, paths')
  {
    hide Labels, Linked;
    var via, p := s.minDelays[link.src] + link.delay, paths[link.src] + [link];
    LowerKeepsLabels(view, src, s.minDelays, paths, link.dst, via, p);
    LowerKeepsLinked(src, s.previous, paths, settled, link);
  }

  lemma LowerKeepsLabels(view: View, src: Node, minDelays: map<Node, nat>, paths: map<Node, Links>, v: Node, via: nat,
                         p: Links)
    requires paths.Keys == minDelays.Keys && Labels(view, src, minDelays, paths) && Reaches(view, src, p, v, via)
    ensures Labels(view, src, minDelays[v := via], paths[v := p])
  {
    hide Reaches;
  }

  lemma LowerKeepsLinked(src: Node, previous: map<Node, Link>, paths: map<Node, Links>, settled: set<Node>, link: Link)
    requires Linked(src, previous, paths) && FromSettled(previous, settled)
    requires link.src in paths && link.src in settled && link.dst !in settled && link.dst != src
    ensures Linked(src, previous[link.dst := link], paths[link.dst := paths[link.src] + [link]])
  {
  }

  lemma InnerNodesSettled(view: View, src: Node, s: Search, settled: set<Node>, paths: map<Node, Links>, link: Link)
    requires Rooted(src, s.minDelays, settled, paths)
    requires link.src in settled && link.dst !in settled
    requires Reaches(view, src, paths[link.src], link.src, s.minDelays[link.src])
    ensures forall i :: 0 <= i <= |paths[link.src]| ==> At(src, paths[link.src], i) != link.dst
    ensures var p' := paths[link.src] + [link];
      Rooted(src, s.minDelays[link.dst := s.minDelays[link.src] + link.delay], settled, paths[link.dst := p'])
      || link.dst == src
  {
    var p := paths[link.src];
    var q := p + [link];
    assert At(src, p, |p|) == link.src;
    assert forall i :: 0 <= i < |p| ==> At(src, p, i) in settled;
    forall i | 0 <= i < |q| ensures At(src, q, i) in settled {
      assert At(src, q, i) == At(src, p, i);
    }
    hide At, Reaches;
  }

  lemma LowerKeepsPaths(view: View, src: Node, s: Search, settled: set<Node>, paths: map<Node, Links>, link: Link)
    requires Unfolds(view, src, s.minDelays, s.previous, paths) && Rooted(src, s.minDelays, settled, paths)
    requires FromSettled(s.previous, settled)
    requires link in view.links && link.dst !in view.blocked && link.src in settled
    requires link.dst !in settled && link.dst != src && link.src in s.minDelays && link.src in paths
    ensures Unfolds(view, src, s.minDelays[link.dst := s.minDelays[link.src] + link.delay],
                    s.previous[link.dst := link], paths[link.dst := paths[link.src] + [link]])
    ensures Rooted(src, s.minDelays[link.dst := s.minDelays[link.src] + link.delay], settled,
                   paths[link.dst := paths[link.src] + [link]])
  {
    var p := paths[link.src];
    hide *;
    UnfoldedReaches(view, src, s.minDelays, s.previous, paths, link.src);
    InnerNodesSettled(view, src, s, settled, paths, link);
    ReachesSnoc(view, src, p, s.minDelays[link.src], link);
    LowerKeepsUnfolds(view, src, s, settled, paths, link);
  }

  lemma LowerKeepsEntry(s: Search, settled: set<Node>, link: Link, via: nat, e: (nat, Node))
    requires Queued(s.minDelays, settled, s.queue)
    requires forall u <- settled :: s.minDelays[u] <= via
    requires link.dst in s.minDelays ==> via < s.minDelays[link.dst]
    requires link.dst !in settled && e in Lowered(s, link, via).queue
    ensures var s' := Lowered(s, link, via);
      && e.1 in s'.minDelays && s'.minDelays[e.1] <= e.0 && s'.queue[e] == 1
      && (e.1 in settled ==> s'.minDelays[e.1] < e.0)
      && forall u <- settled :: s'.minDelays[u] <= e.0
  {
    var key := (via, link.dst);
    assert key !in s.queue;
    if e != key {
      assert e in s.queue;
    }
  }

  lemma LowerKeepsQueue(s: Search, settled: set<Node>, link: Link, via: nat)
    requires Queued(s.minDelays, settled, s.queue)
    requires forall u <- settled :: s.minDelays[u] <= via
    requires link.dst in s.minDelays ==> via < s.minDelays[link.dst]
    ensures link.dst !in settled
    ensures var s' := Lowered(s, link, via); Queued(s'.minDelays, settled, s'.queue)
  {
    var s' := Lowered(s, link, via);
    forall e <- s'.queue
      ensures e.1 in s'.minDelays && s'.minDelays[e.1] <= e.0 && s'.queue[e] == 1
      ensures e.1 in settled ==> s'.minDelays[e.1] < e.0
      ensures forall u <- settled :: s'.minDelays[u] <= e.0
    {
      LowerKeepsEntry(s, settled, link, via, e);
    }
    forall v <- s'.minDelays | v !in settled ensures (s'.minDelays[v], v) in s'.queue {
      if v != link.dst {
        assert (s.minDelays[v], v) in s.queue;
      }
    }
  }

  /** Recording a strictly shorter way to a node keeps the invariant: such a node is
      never a settled one. */
  lemma LowerKeepsInv(view: View, src: Node, s: Search, settled: set<Node>, paths: map<Node, Links>, link: Link)
    requires SearchInv(view, src, s, settled, paths)
    requires link in view.links && link.dst !in view.blocked && link.src in settled && settled <= s.minDelays.Keys
    requires forall u <- settled :: s.minDelays[u] <= s.minDelays[link.src]
    requires link.dst in s.minDelays ==> s.minDelays[link.src] + link.delay < s.minDelays[link.dst]
    ensures link.dst !in settled && link.src in paths
    ensures SearchInv(view, src, Lowered(s, link, s.minDelays[link.src] + link.delay), settled,
                paths[link.dst := paths[link.src] + [link]])
  {
    LowerKeepsQueue(s, settled, link, s.minDelays[link.src] + link.delay);
    hide Queued;
    LowerKeepsPaths(view, src, s, settled, paths, link);
    hide Unfolds, Rooted;
  }

  // ---------- ties ----------

  /** A node that a link from the source reaches at the delay of its label has such a link for
      its predecessor: the source is relaxed first, and only shorter ways replace a label. */
  ghost predicate Direct(view: View, src: Node, minDelays: map<Node, nat>, previous: map<Node, Link>) {
    forall l <- view.links ::
      l.src == src && l.dst in previous && l.dst in minDelays && minDelays[l.dst] == l.delay ==>
        previous[l.dst].src == src
  }

  /** The links out of the source have been relaxed. */
  ghost predicate SourceRelaxed(view: View, src: Node, minDelays: map<Node, nat>) {
    forall l <- view.links :: l.src == src && l.dst !in view.blocked ==>
      l.dst in minDelays && minDelays[l.dst] <= l.delay
  }

  lemma LowerKeepsDirect(view: View, src: Node, s: Search, link: Link, via: nat)
    requires Direct(view, src, s.minDelays, s.previous) && link.dst !in view.blocked
    requires link.dst in s.minDelays ==> via < s.minDelays[link.dst]
    requires link.src != src ==> SourceRelaxed(view, src, s.minDelays)
    ensures var s' := Lowered(s, link, via);
      && Direct(view, src, s'.minDelays, s'.previous)
      && (SourceRelaxed(view, src, s.minDelays) ==> SourceRelaxed(view, src, s'.minDelays))
  {
  }

  lemma SourceIsRelaxed(view: View, src: Node, minDelays: map<Node, nat>, done: set<Node>)
    requires done <= minDelays.Keys && Relaxed(view, minDelays, done) && src in done && minDelays[src] == 0
    ensures SourceRelaxed(view, src, minDelays)
  {
  }

  lemma NoneDirect(view: View, src: Node, minDelays: map<Node, nat>)
    ensures Direct(view, src, minDelays, map[])
  {
  }

  // ---------- the main loop ----------

  /** Labels have only gone down, and those of settled nodes have not changed. */
  ghost predicate Improves(minDelays: map<Node, nat>, minDelays': map<Node, nat>, settled: set<Node>) {
    && (forall v <- minDelays :: v in minDelays' && minDelays'[v] <= minDelays[v])
    && forall u <- settled :: u in minDelays && minDelays'[u] == minDelays[u]
  }

  lemma ImprovesMore(minDelays: map<Node, nat>, minDelays': map<Node, nat>, settled: set<Node>, v: Node, via: nat)
    requires Improves(minDelays, minDelays', settled) && v !in settled && (v in minDelays' ==> via < minDelays'[v])
    ensures Improves(minDelays, minDelays'[v := via], settled)
  {
  }

  lemma ImprovedLabels(minDelays: map<Node, nat>, minDelays': map<Node, nat>, settled: set<Node>, u: Node)
    requires Improves(minDelays, minDelays', settled) && settled <= minDelays.Keys
    ensures settled <= minDelays'.Keys
    ensures u in settled ==> minDelays'[u] == minDelays[u]
    ensures forall v <- settled :: minDelays'[v] == minDelays[v]
  {
  }

  /** The first `k` links have been relaxed. */
  ghost predicate RelaxedUpTo(view: View, minDelays: map<Node, nat>, neighbors: seq<Link>, k: nat, distance: nat)
    requires k <= |neighbors|
  {
    forall j :: 0 <= j < k && neighbors[j] in view.links && neighbors[j].dst !in view.blocked ==>
      neighbors[j].dst in minDelays && minDelays[neighbors[j].dst] <= distance + neighbors[j].delay
  }

  lemma RelaxedOneMore(view: View, minDelays: map<Node, nat>, neighbors: seq<Link>, k: nat, distance: nat)
    requires k < |neighbors| && RelaxedUpTo(view, minDelays, neighbors, k, distance)
    ensures var l := neighbors[k];
      && (l !in view.links || l.dst in view.blocked
          || (l.dst in minDelays && minDelays[l.dst] <= distance + l.delay) ==>
            RelaxedUpTo(view, minDelays, neighbors, k + 1, distance))
      && (l.dst !in minDelays || distance + l.delay < minDelays[l.dst] ==>
            RelaxedUpTo(view, minDelays[l.dst := distance + l.delay], neighbors, k + 1, distance))
  {
  }

  lemma AllRelaxed(view: View, g: AdjacencyList, minDelays: map<Node, nat>, minDelays': map<Node, nat>,
                   settled: set<Node>, current: Node)
    requires current in settled && settled <= minDelays.Keys && Relaxed(view, minDelays, settled - {current})
    requires Improves(minDelays, minDelays', settled) && settled <= minDelays'.Keys
    requires forall l <- view.links :: l.src == current ==> l in g.Neighbors(current)
    requires RelaxedUpTo(view, minDelays', g.Neighbors(current), |g.Neighbors(current)|, minDelays[current])
    ensures Relaxed(view, minDelays', settled)
  {
    hide AdjacencyList.Neighbors;
    forall l <- view.links | l.src in settled && l.dst !in view.blocked
      ensures l.dst in minDelays' && minDelays'[l.dst] <= minDelays'[l.src] + l.delay
    {
      if l.src == current {
        var j :| 0 <= j < |g.Neighbors(current)| && g.Neighbors(current)[j] == l;
      }
    }
  }

  lemma NothingRelaxed(view: View, minDelays: map<Node, nat>, neighbors: seq<Link>, distance: nat, settled: set<Node>)
    requires settled <= minDelays.Keys
    ensures RelaxedUpTo(view, minDelays, neighbors, 0, distance) && Improves(minDelays, minDelays, settled)
  {
  }

  lemma NeighborsInView(g: AdjacencyList, ex: Exclusion, avoidNodes: set<Node>, avoidLinks: set<Link>, current: Node)
    requires g.Valid()
    ensures var view := QueryView(g, ex, avoidNodes, avoidLinks);
      && (forall l <- view.links :: l.src == current ==> l in g.Neighbors(current))
      && forall l <- g.Neighbors(current) ::
        && l.src == current && l.dst in g.AllNodes()
        && (l in view.links <==> !(l in ex.links || l in avoidLinks))
        && (l.dst in view.blocked <==> l.dst in ex.nodes || l.dst in avoidNodes)
  {
    g.NeighborsAreLinks(current);
  }

  /** The node just settled is the furthest so far, all others have been relaxed, and the
      source is settled. */
  ghost predicate Settled(view: View, src: Node, minDelays: map<Node, nat>, settled: set<Node>, current: Node) {
    && current in settled && settled <= minDelays.Keys && Relaxed(view, minDelays, settled - {current})
    && (forall u <- settled :: minDelays[u] <= minDelays[current]) && (current == src || src in settled)
  }

  /** The search `s` after the first `k` links out of the node just settled in `s0`. */
  ghost predicate Relaxing(view: View, src: Node, s0: Search, s: Search, settled: set<Node>, paths: map<Node, Links>,
                           g: AdjacencyList, current: Node, k: nat)
    requires k <= |g.Neighbors(current)| && current in s0.minDelays
  {
    && SearchInv(view, src, s, settled, paths)
    && s.minDelays.Keys <= s0.minDelays.Keys + g.AllNodes()
    && Improves(s0.minDelays, s.minDelays, settled)
    && RelaxedUpTo(view, s.minDelays, g.Neighbors(current), k, s0.minDelays[current])
    && Direct(view, src, s.minDelays, s.previous)
    && (current != src ==> SourceRelaxed(view, src, s.minDelays))
  }

  lemma RelaxingStarts(view: View, src: Node, s: Search, settled: set<Node>, paths: map<Node, Links>, g: AdjacencyList,
                       current: Node)
    requires SearchInv(view, src, s, settled, paths) && Settled(view, src, s.minDelays, settled, current)
    requires Direct(view, src, s.minDelays, s.previous)
    ensures Relaxing(view, src, s, s, settled, paths, g, current, 0)
  {
    hide SearchInv, Direct, AdjacencyList.AllNodes;
    InvLabels(view, src, s, settled, paths);
    NothingRelaxed(view, s.minDelays, g.Neighbors(current), s.minDelays[current], settled);
    if current != src {
      SourceIsRelaxed(view, src, s.minDelays, settled - {current});
    }
  }

  lemma SkipKeepsRelaxing(view: View, src: Node, s0: Search, s: Search, settled: set<Node>, paths: map<Node, Links>,
                          g: AdjacencyList, current: Node, k: nat)
    requires k < |g.Neighbors(current)| && current in s0.minDelays
    requires Relaxing(view, src, s0, s, settled, paths, g, current, k)
    requires var l := g.Neighbors(current)[k];
      || l !in view.links || l.dst in view.blocked
      || (l.dst in s.minDelays && s.minDelays[l.dst] <= s0.minDelays[current] + l.delay)
    ensures Relaxing(view, src, s0, s, settled, paths, g, current, k + 1)
  {
    hide SearchInv, Direct, AdjacencyList.AllNodes, AdjacencyList.Neighbors, Improves, RelaxedUpTo, SourceRelaxed;
    RelaxedOneMore(view, s.minDelays, g.Neighbors(current), k, s0.minDelays[current]);
  }

  lemma LowerKeepsRelaxing(view: View, src: Node, s0: Search, s: Search, settled: set<Node>, paths: map<Node, Links>,
                           g: AdjacencyList, current: Node, k: nat)
    requires k < |g.Neighbors(current)| && Settled(view, src, s0.minDelays, settled, current)
    requires Relaxing(view, src, s0, s, settled, paths, g, current, k)
    requires var l := g.Neighbors(current)[k];
      && l.src == current && l.dst in g.AllNodes() && l in view.links && l.dst !in view.blocked
      && (l.dst in s.minDelays ==> s0.minDelays[current] + l.delay < s.minDelays[l.dst])
    ensures current in paths
    ensures var l := g.Neighbors(current)[k];
      Relaxing(view, src, s0, Lowered(s, l, s0.minDelays[current] + l.delay), settled,
               paths[l.dst := paths[current] + [l]], g, current, k + 1)
  {
    hide SearchInv, Direct, AdjacencyList.AllNodes, AdjacencyList.Neighbors, Improves, RelaxedUpTo, SourceRelaxed;
    var l, via := g.Neighbors(current)[k], s0.minDelays[current] + g.Neighbors(current)[k].delay;
    ImprovedLabels(s0.minDelays, s.minDelays, settled, current);
    LowerKeepsInv(view, src, s, settled, paths, l);
    LowerKeepsDirect(view, src, s, l, via);
    ImprovesMore(s0.minDelays, s.minDelays, settled, l.dst, via);
    RelaxedOneMore(view, s.minDelays, g.Neighbors(current), k, s0.minDelays[current]);
  }

  lemma RelaxingEnds(view: View, src: Node, s0: Search, s: Search, settled: set<Node>, paths: map<Node, Links>,
                     g: AdjacencyList, current: Node)
    requires Settled(view, src, s0.minDelays, settled, current)
    requires Relaxing(view, src, s0, s, settled, paths, g, current, |g.Neighbors(current)|)
    requires forall l <- view.links :: l.src == current ==> l in g.Neighbors(current)
    ensures SearchInv(view, src, s, settled, paths) && Direct(view, src, s.minDelays, s.previous)
    ensures settled <= s.minDelays.Keys && Relaxed(view, s.minDelays, settled)
    ensures s.minDelays.Keys <= s0.minDelays.Keys + g.AllNodes()
  {
    hide SearchInv, Direct, AdjacencyList.AllNodes, AdjacencyList.Neighbors, RelaxedUpTo, SourceRelaxed, Relaxed;
    ImprovedLabels(s0.minDelays, s.minDelays, settled, current);
    AllRelaxed(view, g, s0.minDelays, s.minDelays, settled, current);
  }

  method RelaxNeighbors(ghost view: View, ghost src: Node, s: Search, ghost settled: set<Node>,
                        ghost paths: map<Node, Links>,
                        current: Node, ex: Exclusion, g: AdjacencyList, avoidNodes: set<Node>, avoidLinks: set<Link>)
    returns (s': Search, ghost paths': map<Node, Links>)
    requires g.Valid() && view == QueryView(g, ex, avoidNodes, avoidLinks)
    requires SearchInv(view, src, s, settled, paths) && Direct(view, src, s.minDelays, s.previous)
    requires current in s.minDelays && Settled(view, src, s.minDelays, settled, current)
    ensures SearchInv(view, src, s', settled, paths') && Direct(view, src, s'.minDelays, s'.previous)
    ensures settled <= s'.minDelays.Keys && Relaxed(view, s'.minDelays, settled)
    ensures s'.minDelays.Keys <= s.minDelays.Keys + g.AllNodes()
  {
    hide *;
    NeighborsInView(g, ex, avoidNodes, avoidLinks, current);
    s', paths' := s, paths;
    RelaxingStarts(view, src, s, settled, paths, g, current);
    var distance := s.minDelays[current];
    var neighbors := g.Neighbors(current);
    for k := 0 to |neighbors|
      invariant Relaxing(view, src, s, s', settled, paths', g, current, k)
    {
      var link := neighbors[k];
      if link in ex.links || link in avoidLinks {
        SkipKeepsRelaxing(view, src, s, s', settled, paths', g, current, k);
        continue;
      }
      if link.dst in ex.nodes || link.dst in avoidNodes {
        SkipKeepsRelaxing(view, src, s, s', settled, paths', g, current, k);
        continue;
      }
      var via := distance + link.delay;
      if link.dst !in s'.minDelays || via < s'.minDelays[link.dst] {
        LowerKeepsRelaxing(view, src, s, s', settled, paths', g, current, k);
        s', paths' := Lowered(s', link, via), paths'[link.dst := paths'[current] + [link]];
      } else {
        SkipKeepsRelaxing(view, src, s, s', settled, paths', g, current, k);
      }
    }
    RelaxingEnds(view, src, s, s', settled, paths', g, current);
  }

  lemma SettledIs(view: View, src: Node, minDelays: map<Node, nat>, settled: set<Node>, current: Node)
    requires current in settled && settled <= minDelays.Keys && Relaxed(view, minDelays, settled - {current})
    requires (forall u <- settled :: minDelays[u] <= minDelays[current]) && (current == src || src in settled)
    ensures Settled(view, src, minDelays, settled, current)
  {
  }

  method ComputePaths(src: Node, destinations: set<Node>, ex: Exclusion, g: AdjacencyList,
                      avoidNodes: set<Node>, avoidLinks: set<Link>) returns (t: SpTree)
    requires g.Valid()
    ensures t.src == src && t.destinations == destinations
    ensures Correct(t, QueryView(g, ex, avoidNodes, avoidLinks))
    ensures Direct(QueryView(g, ex, avoidNodes, avoidLinks), src, t.minDelays, t.previous)
  {
    hide *;
    ghost var view := QueryView(g, ex, avoidNodes, avoidLinks);
    QueryViewBlocks(g, ex, avoidNodes, avoidLinks);
    var s := Search(map[], map[], multiset{});
    if src in ex.nodes || src in avoidNodes {
      t := SpTree(src, destinations, s.minDelays, s.previous);
      BlockedSource(t, view);
      NoneDirect(view, src, map[]);
      return;
    }

    s := Search(map[src := 0], map[], multiset{(0, src)});
    var remaining := |destinations|;
    ghost var settled: set<Node>, paths: map<Node, Links> := {}, map[src := []];
    ghost var everything := g.AllNodes() + {src};
    ghost var exhausted := true;
    assert destinations - settled == destinations;
    InitialInv(view, src);
    NoneDirect(view, src, s.minDelays);

    while s.queue != multiset{}
      invariant SearchInv(view, src, s, settled, paths)
      invariant settled <= s.minDelays.Keys && Relaxed(view, s.minDelays, settled) && exhausted
      invariant remaining == |destinations - settled|
      invariant s.minDelays.Keys <= everything
      invariant Direct(view, src, s.minDelays, s.previous)
      invariant src in settled || s.queue == multiset{(0, src)}
      decreases everything - settled, |s.queue|
    {
      InvLabels(view, src, s, settled, paths);
      var top, rest := PopTop(s.queue);
      var (distance, current) := top;
      if distance > s.minDelays[current] {
        DropKeepsInv(view, src, s, settled, paths, top);
        s := s.(queue := rest);
        continue;
      }
      SettleKeepsInv(view, src, s, settled, paths, top);
      s := s.(queue := rest);
      ghost var before := settled;
      SettlingCounts(destinations, before, current);
      settled := settled + {current};
      if current in destinations {
        remaining := remaining - 1;
        if remaining == 0 {
          LabelsAreExact(view, src, s.minDelays, before, distance, destinations);
          exhausted := false;
          break;
        }
      }
      SettledIs(view, src, s.minDelays, settled, current);
      s, paths := RelaxNeighbors(view, src, s, settled, paths, current, ex, g, avoidNodes, avoidLinks);
    }
    if exhausted {
      InvLabels(view, src, s, settled, paths);
      LabelsAreExact(view, src, s.minDelays, settled, 0, destinations);
    }
    t := SpTree(src, destinations, s.minDelays, s.previous);
    InvGivesCorrect(view, src, destinations, s, settled, paths);
  }

  // ---------- queries on a finished tree ----------

  /** What a path query answers: nothing when there is no walk, or when the ends are the
      same node; otherwise a simple walk of minimum delay and that delay. */
  ghost predicate ShortestAnswer(view: View, u: Node, v: Node, r: Option<Walk>) {
    match r
    case None => u == v || forall p: Links :: !IsWalk(view, u, p, v)
    case Some(w) =>
      && u != v && Reaches(view, u, w.links, v, w.delay)
      && forall p: Links :: IsWalk(view, u, p, v) ==> w.delay <= Delay(p)
  }

  /** What a distance query answers: nothing (the maximum) when there is no walk. */
  ghost predicate DistanceAnswer(view: View, u: Node, v: Node, d: Option<nat>) {
    match d
    case None => forall p: Links :: !IsWalk(view, u, p, v)
    case Some(n) =>
      && (exists p: Links :: Reaches(view, u, p, v, n))
      && forall p: Links :: IsWalk(view, u, p, v) ==> n <= Delay(p)
  }

  lemma UnfoldStep(t: SpTree, view: View, paths: map<Node, Links>, v: Node)
    requires Unfolds(view, t.src, t.minDelays, t.previous, paths)
    ensures v in paths <==> v in t.minDelays
    ensures v != t.src ==> (v in t.previous <==> v in paths)
    ensures t.src in paths ==> paths[t.src] == []
    ensures v in t.previous ==>
      var l := t.previous[v]; v in paths && l.src in paths && paths[v] == paths[l.src] + [l]
  {
    hide Reaches;
  }

  /** Follows predecessor links back to the source; terminates even across links of
      zero delay, because each step shortens the unfolded walk. */
  method RecoverPath(t: SpTree, dst: Node, ghost view: View, ghost paths: map<Node, Links>) returns (links: Links)
    requires Unfolds(view, t.src, t.minDelays, t.previous, paths)
    ensures links == if dst in t.minDelays && dst in paths then paths[dst] else []
  {
    hide *;
    links := [];
    var current := dst;
    UnfoldStep(t, view, paths, dst);
    while current != t.src
      invariant current in paths <==> dst in paths
      invariant if dst in paths then paths[dst] == paths[current] + links else current == dst && links == []
      decreases if current in paths then |paths[current]| else 0
    {
      UnfoldStep(t, view, paths, current);
      if current !in t.previous {
        return [];
      }
      var link := t.previous[current];
      assert paths[current] + links == paths[link.src] + ([link] + links);
      links := [link] + links;
      current := link.src;
    }
  }

  method GetPath(t: SpTree, dst: Node, ghost view: View) returns (r: Option<Walk>)
    requires Correct(t, view) && dst in t.destinations
    ensures ShortestAnswer(view, t.src, dst, r)
    ensures Direct(view, t.src, t.minDelays, t.previous) && r.Some? ==> PrefersDirect(view, t.src, r.value.links)
  {
    hide Direct, PrefersDirect, Exact, Unfolds, ShortestAnswer;
    ghost var paths :| Unfolds(view, t.src, t.minDelays, t.previous, paths);
    var links := RecoverPath(t, dst, view, paths);
    UnfoldStep(t, view, paths, dst);
    RecoveredAnswer(t, view, paths, dst);
    if links == [] {
      return None;
    }
    r := Some(Walk(links, t.minDelays[dst]));
    if Direct(view, t.src, t.minDelays, t.previous) {
      PathPrefersDirect(t, view, paths, dst);
    }
  }

  lemma RecoveredAnswer(t: SpTree, view: View, paths: map<Node, Links>, dst: Node)
    requires Unfolds(view, t.src, t.minDelays, t.previous, paths) && Exact(view, t.src, t.minDelays, t.destinations)
    requires dst in t.destinations
    ensures dst in paths && paths[dst] != [] ==>
      dst in t.minDelays && ShortestAnswer(view, t.src, dst, Some(Walk(paths[dst], t.minDelays[dst])))
    ensures dst !in paths || paths[dst] == [] ==> ShortestAnswer(view, t.src, dst, None)
  {
    hide Delay;
    UnfoldStep(t, view, paths, dst);
    if dst in t.minDelays {
      UnfoldedReaches(view, t.src, t.minDelays, t.previous, paths, dst);
    }
    hide Unfolds;
  }

  /** Wherever a link from the source is as short as the walk, the walk itself took one. */
  ghost predicate PrefersDirect(view: View, src: Node, p: Links) {
    forall l <- view.links, i :: l.src == src && 0 < i <= |p| && At(src, p, i) == l.dst && Delay(p[..i]) == l.delay ==>
      i == 1
  }

  /** The walk of a node on the way is the walk up to it. */
  lemma {:induction false} OnTheWay(t: SpTree, view: View, paths: map<Node, Links>, v: Node, i: nat)
    requires Unfolds(view, t.src, t.minDelays, t.previous, paths) && v in paths && 0 < i <= |paths[v]|
    ensures var x := At(t.src, paths[v], i);
      x in t.previous && x in paths && paths[x] == paths[v][..i] && t.previous[x] == paths[v][i - 1]
    decreases |paths[v]|
  {
    hide *;
    UnfoldStep(t, view, paths, v);
    UnfoldedReaches(view, t.src, t.minDelays, t.previous, paths, v);
    ReachesEnd(view, t.src, paths[v], v, t.minDelays[v]);
    var p, l := paths[v], t.previous[v];
    if i < |p| {
      OnTheWay(t, view, paths, l.src, i);
      AtBefore(t.src, paths[l.src], l, i);
    } else {
      assert p[..i] == p;
    }
  }

  lemma ReachesEnd(view: View, src: Node, p: Links, v: Node, d: nat)
    requires Reaches(view, src, p, v, d)
    ensures At(src, p, |p|) == v && IsWalk(view, src, p, v)
  {
  }

  lemma AtBefore(u: Node, p: Links, l: Link, i: nat)
    requires 0 < i <= |p|
    ensures At(u, p + [l], i) == At(u, p, i) && (p + [l])[..i] == p[..i] && (p + [l])[i - 1] == p[i - 1]
  {
  }

  lemma PathPrefersDirect(t: SpTree, view: View, paths: map<Node, Links>, v: Node)
    requires Unfolds(view, t.src, t.minDelays, t.previous, paths) && v in paths
    requires Direct(view, t.src, t.minDelays, t.previous)
    ensures PrefersDirect(view, t.src, paths[v])
  {
    hide Unfolds, Delay;
    var p := paths[v];
    forall l <- view.links, i | l.src == t.src && 0 < i <= |p| && At(t.src, p, i) == l.dst && Delay(p[..i]) == l.delay
      ensures i == 1
    {
      var x := l.dst;
      OnTheWay(t, view, paths, v, i);
      UnfoldStep(t, view, paths, v);
      UnfoldStep(t, view, paths, x);
      UnfoldedReaches(view, t.src, t.minDelays, t.previous, paths, v);
      UnfoldedReaches(view, t.src, t.minDelays, t.previous, paths, x);
      assert At(t.src, p, i - 1) == p[i - 1].src == t.src == At(t.src, p, 0);
    }
  }

  method GetPathDistance(t: SpTree, dst: Node, ghost view: View) returns (d: Option<nat>)
    requires Correct(t, view) && dst in t.destinations
    ensures DistanceAnswer(view, t.src, dst, d)
  {
    if dst !in t.minDelays {
      return None;
    }
    d := Some(t.minDelays[dst]);
    ghost var paths :| Unfolds(view, t.src, t.minDelays, t.previous, paths);
    assert Reaches(view, t.src, paths[dst], dst, t.minDelays[dst]);
  }
}
