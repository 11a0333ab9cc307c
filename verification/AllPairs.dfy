/** Shortest paths between all pairs of nodes: the Floyd-Warshall algorithm, run in place
    on one table of distances and successor links. */
module AllPairs {
  import opened Basics
  import opened Graphs
  import Dijkstra

  /** Distance between a pair and the first link on the way; a pair that is not in the
      table has the maximum distance. */
  datatype SpData = SpData(distance: nat, next: Option<Link>)

  type Table = map<(Node, Node), SpData>

  // ---------- the links that the table is filled from ----------

  predicate Usable(ex: Exclusion, avoidLinks: set<Link>, l: Link) {
    l !in ex.links && l !in avoidLinks
  }

  /** The last usable link of a list to a given node: earlier ones are overwritten. */
  function LastTo(links: seq<Link>, ex: Exclusion, avoidLinks: set<Link>, dst: Node): Option<Link> {
    if links == [] then None
    else
      var l := links[|links| - 1];
      if Usable(ex, avoidLinks, l) && l.dst == dst then Some(l)
      else LastTo(links[..|links| - 1], ex, avoidLinks, dst)
  }

  /** The links that survive: for each ordered pair of nodes the last usable one. */
  ghost function Effective(g: AdjacencyList, ex: Exclusion, avoidLinks: set<Link>): set<Link> {
    set l | l in g.AllLinks() && LastTo(g.Neighbors(l.src), ex, avoidLinks, l.dst) == Some(l)
  }

  ghost function EffectiveView(g: AdjacencyList, ex: Exclusion, avoidLinks: set<Link>): View {
    View(Effective(g, ex, avoidLinks), {})
  }

  // ---------- one phase ----------

  function Entry(data: Table, i: Node, j: Node): Option<SpData> {
    if (i, j) in data then Some(data[(i, j)]) else None
  }

  /** The entry for `(i, j)` once routing through `k` has been considered. */
  function Through(data: Table, k: Node, i: Node, j: Node): Option<SpData> {
    var current, ik, kj := Entry(data, i, j), Entry(data, i, k), Entry(data, k, j);
    if ik.Some? && kj.Some? && (current.None? || ik.value.distance + kj.value.distance < current.value.distance)
    then Some(SpData(ik.value.distance + kj.value.distance, ik.value.next))
    else current
  }

  /** `data'` is the table after the phase for `k`: every entry is routed through `k`
      with the distances from before the phase. */
  ghost predicate IsPhase(data: Table, data': Table, nodes: set<Node>, k: Node) {
    forall i, j :: Entry(data', i, j) == if i in nodes && j in nodes then Through(data, k, i, j) else Entry(data, i, j)
  }

  /** The phase does not change what it reads: entries from and to `k` stay. */
  lemma ThroughKeepsRowAndColumn(data: Table, k: Node, i: Node)
    ensures Through(data, k, i, k) == Entry(data, i, k) && Through(data, k, k, i) == Entry(data, k, i)
  {
  }

  /** Which pairs the loops of a phase have already updated. */
  ghost predicate Updated(data: Table, data': Table, k: Node, rows: set<Node>, row: Node, columns: set<Node>,
                          nodes: set<Node>) {
    forall i, j :: Entry(data', i, j) ==
      if (i in rows && j in nodes) || (i == row && j in columns) then Through(data, k, i, j) else Entry(data, i, j)
  }

  lemma UpdateOne(data: Table, data': Table, k: Node, rows: set<Node>, row: Node, columns: set<Node>,
                  nodes: set<Node>, j: Node)
    requires Updated(data, data', k, rows, row, columns, nodes) && row !in rows && j !in columns
    ensures Through(data', k, row, j) == Through(data, k, row, j)
    ensures var e := Through(data', k, row, j);
      Updated(data, if e.Some? then data'[(row, j) := e.value] else data', k, rows, row, columns + {j}, nodes)
  {
    ThroughKeepsRowAndColumn(data, k, row);
    ThroughKeepsRowAndColumn(data, k, j);
    assert Entry(data', row, k) == Entry(data, row, k);
    assert Entry(data', k, j) == Entry(data, k, j);
    assert Entry(data', row, j) == Entry(data, row, j);
    assert Through(data', k, row, j) == Through(data, k, row, j);
    hide Through;
  }

  method Phase(nodes: set<Node>, k: Node, data: Table) returns (data': Table)
    ensures IsPhase(data, data', nodes, k)
  {
    data' := data;
    var rows := nodes;
    while rows != {}
      invariant rows <= nodes
      invariant Updated(data, data', k, nodes - rows, k, {}, nodes)
    {
      var i :| i in rows;
      ghost var done := nodes - rows;
      var columns := nodes;
      assert Updated(data, data', k, done, i, {}, nodes);
      assert nodes - columns == {};
      while columns != {}
        invariant columns <= nodes
        invariant Updated(data, data', k, done, i, nodes - columns, nodes)
      {
        var j :| j in columns;
        UpdateOne(data, data', k, done, i, nodes - columns, nodes, j);
        var ik := Entry(data', i, k);
        var kj := Entry(data', k, j);
        if ik.Some? && kj.Some? {
          var alt := ik.value.distance + kj.value.distance;
          if (i, j) !in data' || alt < data'[(i, j)].distance {
            data' := data'[(i, j) := SpData(alt, ik.value.next)];
          }
        }
        assert nodes - (columns - {j}) == nodes - columns + {j};
        columns := columns - {j};
      }
      assert nodes - columns == nodes;
      assert nodes - (rows - {i}) == done + {i};
      rows := rows - {i};
    }
    assert nodes - rows == nodes;
  }

  // ---------- distances ----------

  ghost predicate Inner(u: Node, p: Links, via: set<Node>) {
    forall m :: 0 < m < |p| ==> At(u, p, m) in via
  }

  /** No walk that passes only through `via` is shorter than the table says. */
  ghost predicate Bounded(view: View, data: Table, via: set<Node>) {
    forall i: Node, j: Node, p: Links :: p != [] && IsWalk(view, i, p, j) && Inner(i, p, via) ==>
      (i, j) in data && data[(i, j)].distance <= Delay(p)
  }

  /** Some walk has delay `d`; only nodes of `zeroed` count as reaching themselves by the
      empty walk. */
  ghost predicate Real(view: View, zeroed: set<Node>, i: Node, j: Node, d: nat) {
    exists p: Links :: IsWalk(view, i, p, j) && Delay(p) == d && (p == [] ==> i in zeroed)
  }

  /** Every entry is the delay of some walk. */
  ghost predicate Realized(view: View, zeroed: set<Node>, data: Table) {
    forall i, j :: (i, j) in data ==> Real(view, zeroed, i, j, data[(i, j)].distance)
  }

  ghost predicate Inside(view: View, nodes: set<Node>) {
    view.blocked == {} && forall l <- view.links :: l.src in nodes && l.dst in nodes
  }

  lemma WalkInside(view: View, nodes: set<Node>, i: Node, p: Links, j: Node)
    requires Inside(view, nodes) && IsWalk(view, i, p, j) && p != []
    ensures i in nodes && j in nodes
  {
    assert p[0] in view.links && p[|p| - 1] in view.links;
  }

  /** First and last visit of `k` inside a walk that does visit it. */
  lemma {:induction false} FirstVisit(u: Node, p: Links, k: Node, n: nat) returns (a: nat)
    requires n <= |p|
    requires exists m :: n <= m < |p| && At(u, p, m) == k
    ensures n <= a < |p| && At(u, p, a) == k && forall m :: n <= m < a ==> At(u, p, m) != k
    decreases |p| - n
  {
    if n < |p| && At(u, p, n) == k {
      a := n;
    } else {
      a := FirstVisit(u, p, k, n + 1);
    }
  }

  lemma {:induction false} LastVisit(u: Node, p: Links, k: Node, n: nat) returns (b: nat)
    requires n <= |p|
    requires exists m :: 0 < m < n && At(u, p, m) == k
    ensures 0 < b < n && At(u, p, b) == k && forall m :: b < m < n ==> At(u, p, m) != k
  {
    if At(u, p, n - 1) == k && n > 1 {
      b := n - 1;
    } else {
      b := LastVisit(u, p, k, n - 1);
    }
  }

  /** A walk through `via` and `k` is no shorter than its parts up to the first and from the
      last visit of `k`, which pass through `via` only. */
  lemma CutAround(view: View, i: Node, p: Links, j: Node, via: set<Node>, k: Node) returns (head: Links, tail: Links)
    requires IsWalk(view, i, p, j) && Inner(i, p, via + {k}) && !Inner(i, p, via)
    ensures head != [] && tail != [] && IsWalk(view, i, head, k) && IsWalk(view, k, tail, j)
    ensures Inner(i, head, via) && Inner(k, tail, via)
    ensures Delay(head) + Delay(tail) <= Delay(p)
  {
    var a := FirstVisit(i, p, k, 1);
    var b := LastVisit(i, p, k, |p|);
    head, tail := p[..a], p[b..];
    WalkSplit(view, i, p, j, a);
    WalkSplit(view, i, p, j, b);
    CutDelays(p, a, b);
    forall m | 0 < m < |head| ensures At(i, head, m) in via {
      assert At(i, head, m) == At(i, p, m);
    }
    forall m | 0 < m < |tail| ensures At(k, tail, m) in via {
      assert At(k, tail, m) == At(i, p, b + m);
    }
  }

  lemma CutDelays(p: Links, a: nat, b: nat)
    requires a <= b <= |p|
    ensures Delay(p[..a]) + Delay(p[b..]) <= Delay(p)
  {
    hide Delay;
    DelaySplit(p, b);
    DelaySplit(p[..b], a);
    assert p[..b][..a] == p[..a];
  }

  lemma PhaseBounds(view: View, data: Table, data': Table, nodes: set<Node>, via: set<Node>, k: Node)
    requires Inside(view, nodes) && Bounded(view, data, via) && IsPhase(data, data', nodes, k)
    ensures Bounded(view, data', via + {k})
  {
    hide IsWalk, Delay, Inner, Inside;
    forall i: Node, j: Node, p: Links | p != [] && IsWalk(view, i, p, j) && Inner(i, p, via + {k})
      ensures (i, j) in data' && data'[(i, j)].distance <= Delay(p)
    {
      WalkInside(view, nodes, i, p, j);
      assert Entry(data', i, j) == Through(data, k, i, j);
      if !Inner(i, p, via) {
        var head, tail := CutAround(view, i, p, j, via, k);
      }
    }
  }

  lemma RealConcat(view: View, zeroed: set<Node>, i: Node, k: Node, j: Node, d: nat, e: nat)
    requires Real(view, zeroed, i, k, d) && Real(view, zeroed, k, j, e)
    ensures Real(view, zeroed, i, j, d + e)
  {
    hide IsWalk, Delay;
    var p: Links :| IsWalk(view, i, p, k) && Delay(p) == d && (p == [] ==> i in zeroed);
    var q: Links :| IsWalk(view, k, q, j) && Delay(q) == e && (q == [] ==> k in zeroed);
    WalkConcat(view, i, p, k, q, j);
    DelayConcat(p, q);
    EmptyWalkStays(view, i, p, k);
  }

  lemma EmptyWalkStays(view: View, i: Node, p: Links, k: Node)
    requires IsWalk(view, i, p, k)
    ensures p == [] ==> i == k
  {
  }

  lemma PhaseRealizes(view: View, zeroed: set<Node>, data: Table, data': Table, nodes: set<Node>, k: Node)
    requires Realized(view, zeroed, data) && IsPhase(data, data', nodes, k)
    ensures Realized(view, zeroed, data')
  {
    hide Real;
    forall i, j | (i, j) in data' ensures Real(view, zeroed, i, j, data'[(i, j)].distance) {
      assert Entry(data', i, j) == Some(data'[(i, j)]);
      if Entry(data', i, j) != Entry(data, i, j) {
        RealConcat(view, zeroed, i, k, j, data[(i, k)].distance, data[(k, j)].distance);
      }
    }
  }

  // ---------- successor links ----------

  type Rank = map<(Node, Node), nat>

  /** The successor of an entry is a link on a way of its distance: the link itself, or the
      link and the entry behind it. Where that way is exactly as long as the entry says, the
      entry behind has a lower rank. */
  ghost predicate GoodSuccessor(view: View, data: Table, rank: Rank, i: Node, j: Node)
    requires (i, j) in data
  {
    var e := data[(i, j)];
    match e.next
    case None => i == j && e.distance == 0
    case Some(l) =>
      && l in view.links && l.src == i
      && if l.dst == j then e.distance == l.delay
         else
           && (l.dst, j) in data && l.delay + data[(l.dst, j)].distance <= e.distance
           && (l.delay + data[(l.dst, j)].distance == e.distance ==>
                 (l.dst, j) in rank && (i, j) in rank && rank[(l.dst, j)] < rank[(i, j)])
  }

  ghost predicate Successors(view: View, data: Table, rank: Rank) {
    && rank.Keys == data.Keys
    && forall i, j :: (i, j) in data ==> GoodSuccessor(view, data, rank, i, j)
  }

  /** Links bound the entries of their ends. */
  ghost predicate LinkBound(view: View, data: Table) {
    forall l <- view.links :: (l.src, l.dst) in data && data[(l.src, l.dst)].distance <= l.delay
  }

  ghost predicate Below(rank: Rank, m: nat) {
    forall e <- rank :: rank[e] < m
  }

  /** Ranks after a phase: updated entries rank above everything before, in the order of
      the entries towards `k` that they were built from. */
  ghost function NewRank(data: Table, data': Table, rank: Rank, k: Node, m: nat): Rank
    requires rank.Keys == data.Keys <= data'.Keys
  {
    map e | e in data' :: if e in data && data'[e] == data[e] then rank[e]
                          else m + if (e.0, k) in rank then rank[(e.0, k)] else 0
  }

  lemma {:induction false} RankBound(rank: Rank) returns (m: nat)
    ensures Below(rank, m)
  {
    m := 0;
    var todo := rank.Keys;
    while todo != {}
      invariant forall e <- rank.Keys - todo :: rank[e] < m
    {
      var e :| e in todo;
      if rank[e] >= m {
        m := rank[e] + 1;
      }
      todo := todo - {e};
    }
  }

  ghost predicate Within(data: Table, nodes: set<Node>) {
    forall i, j :: (i, j) in data ==> i in nodes && j in nodes
  }

  /** What a phase does to one entry. */
  lemma PhaseEntry(data: Table, data': Table, nodes: set<Node>, k: Node, i: Node, j: Node)
    requires IsPhase(data, data', nodes, k) && i in nodes && j in nodes
    ensures (i, j) in data ==> (i, j) in data' && data'[(i, j)].distance <= data[(i, j)].distance
    ensures (i, k) in data && (k, j) in data ==>
      (i, j) in data' && data'[(i, j)].distance <= data[(i, k)].distance + data[(k, j)].distance
    ensures (i, j) in data' ==>
      || ((i, j) in data && data'[(i, j)] == data[(i, j)])
      || ((i, k) in data && (k, j) in data
          && data'[(i, j)] == SpData(data[(i, k)].distance + data[(k, j)].distance, data[(i, k)].next)
          && ((i, j) in data ==> data'[(i, j)].distance < data[(i, j)].distance))
  {
    assert Entry(data', i, j) == Through(data, k, i, j);
  }

  lemma PhaseGrows(data: Table, data': Table, nodes: set<Node>, k: Node)
    requires IsPhase(data, data', nodes, k) && Within(data, nodes) && k in nodes
    ensures data.Keys <= data'.Keys && Within(data', nodes)
  {
    forall e <- data.Keys ensures e in data'.Keys {
      PhaseEntry(data, data', nodes, k, e.0, e.1);
      assert e == (e.0, e.1);
    }
    forall i, j | (i, j) in data' ensures i in nodes && j in nodes {
      assert Entry(data', i, j).Some?;
    }
  }

  ghost predicate PhaseSetting(view: View, data: Table, data': Table, nodes: set<Node>, k: Node, rank: Rank, m: nat) {
    && Successors(view, data, rank) && LinkBound(view, data) && Below(rank, m) && Within(data, nodes)
    && k in nodes && IsPhase(data, data', nodes, k) && data.Keys <= data'.Keys
  }

  /** An entry that the phase leaves alone keeps a good successor. */
  lemma KeptSuccessor(view: View, data: Table, data': Table, nodes: set<Node>, k: Node, rank: Rank, m: nat, i: Node,
                      j: Node)
    requires PhaseSetting(view, data, data', nodes, k, rank, m)
    requires (i, j) in data && (i, j) in data' && data'[(i, j)] == data[(i, j)]
    ensures GoodSuccessor(view, data', NewRank(data, data', rank, k, m), i, j)
  {
    hide IsPhase, LinkBound, Below;
    assert GoodSuccessor(view, data, rank, i, j);
    var next := data[(i, j)].next;
    if next.Some? && next.value.dst != j {
      var n := next.value.dst;
      PhaseEntry(data, data', nodes, k, n, j);
    }
  }

  /** An updated entry takes its successor from the entry towards `k`. */
  lemma UpdatedSuccessor(view: View, data: Table, data': Table, nodes: set<Node>, k: Node, rank: Rank, m: nat,
                         i: Node, j: Node)
    requires PhaseSetting(view, data, data', nodes, k, rank, m)
    requires (i, j) in data' && ((i, j) !in data || data'[(i, j)] != data[(i, j)])
    ensures GoodSuccessor(view, data', NewRank(data, data', rank, k, m), i, j)
  {
    hide IsPhase;
    var rank' := NewRank(data, data', rank, k, m);
    PhaseChanged(data, data', nodes, k, i, j);
    assert GoodSuccessor(view, data, rank, i, k);
    var l := data[(i, k)].next.value;
    assert (i, l.dst) in data && data[(i, l.dst)].distance <= l.delay;
    if l.dst == k {
      ThroughKeepsRowAndColumn(data, k, j);
      PhaseRow(data, data', nodes, k, j);
    } else {
      PhaseEntry(data, data', nodes, k, l.dst, j);
    }
  }

  lemma PhaseChanged(data: Table, data': Table, nodes: set<Node>, k: Node, i: Node, j: Node)
    requires IsPhase(data, data', nodes, k)
    requires (i, j) in data' && ((i, j) !in data || data'[(i, j)] != data[(i, j)])
    ensures i in nodes && j in nodes && i != k && j != k && (i, k) in data && (k, j) in data
    ensures data'[(i, j)] == SpData(data[(i, k)].distance + data[(k, j)].distance, data[(i, k)].next)
    ensures (i, j) in data ==> data'[(i, j)].distance < data[(i, j)].distance
  {
    assert Entry(data', i, j) != Entry(data, i, j);
  }

  lemma PhaseRow(data: Table, data': Table, nodes: set<Node>, k: Node, j: Node)
    requires IsPhase(data, data', nodes, k) && (k, j) in data
    ensures (k, j) in data' && data'[(k, j)] == data[(k, j)]
  {
    ThroughKeepsRowAndColumn(data, k, j);
    assert Entry(data', k, j) == Entry(data, k, j);
  }

  // ---------- filling the table ----------

  /** Nodes that get a zero distance to themselves. */
  ghost function Zeroed(g: AdjacencyList, ex: Exclusion, avoidNodes: set<Node>): set<Node> {
    g.AllNodes() - ex.nodes - avoidNodes
  }

  /** Nodes whose zero no surviving link to themselves overwrites. */
  ghost function Standing(g: AdjacencyList, ex: Exclusion, avoidLinks: set<Link>, zeroed: set<Node>): set<Node> {
    set n | n in zeroed && LastTo(g.Neighbors(n), ex, avoidLinks, n).None?
  }

  ghost predicate IsDiagonal(data: Table, zeroed: set<Node>) {
    forall u, v :: Entry(data, u, v) == if u == v && u in zeroed then Some(SpData(0, None)) else None
  }

  /** The first entry of a pair: its surviving link, or the zero of a node to itself. */
  ghost function FirstEntry(zeroed: set<Node>, links: seq<Link>, ex: Exclusion, avoidLinks: set<Link>, u: Node,
                            v: Node): Option<SpData> {
    match LastTo(links, ex, avoidLinks, v)
    case Some(l) => Some(SpData(l.delay, Some(l)))
    case None => if u == v && u in zeroed then Some(SpData(0, None)) else None
  }

  ghost predicate IsFilled(g: AdjacencyList, ex: Exclusion, avoidLinks: set<Link>, zeroed: set<Node>, data: Table) {
    forall u, v :: Entry(data, u, v) == FirstEntry(zeroed, g.Neighbors(u), ex, avoidLinks, u, v)
  }

  lemma DiagonalAdd(data: Table, zeroed: set<Node>, n: Node)
    requires IsDiagonal(data, zeroed)
    ensures IsDiagonal(data[(n, n) := SpData(0, None)], zeroed + {n})
  {
    var data' := data[(n, n) := SpData(0, None)];
    forall u, v ensures Entry(data', u, v) == if u == v && u in zeroed + {n} then Some(SpData(0, None)) else None {
      assert Entry(data, u, v) == if u == v && u in zeroed then Some(SpData(0, None)) else None;
    }
  }

  method FillDiagonal(nodes: set<Node>, ex: Exclusion, avoidNodes: set<Node>) returns (data: Table)
    ensures IsDiagonal(data, nodes - ex.nodes - avoidNodes)
  {
    data := map[];
    var todo := nodes;
    while todo != {}
      invariant todo <= nodes
      invariant IsDiagonal(data, nodes - todo - ex.nodes - avoidNodes)
    {
      var n :| n in todo;
      ghost var before := nodes - todo - ex.nodes - avoidNodes;
      todo := todo - {n};
      if n !in ex.nodes && n !in avoidNodes {
        DiagonalAdd(data, before, n);
        data := data[(n, n) := SpData(0, None)];
        assert nodes - todo - ex.nodes - avoidNodes == before + {n};
      } else {
        assert nodes - todo - ex.nodes - avoidNodes == before;
      }
    }
    assert nodes - todo == nodes;
  }

  /** Rows of `done` nodes hold their links, the row of `at` its first `k` links. */
  ghost predicate FilledTo(g: AdjacencyList, ex: Exclusion, avoidLinks: set<Link>, zeroed: set<Node>, done: set<Node>,
                           at: Node, k: nat, data: Table)
  {
    forall u, v :: Entry(data, u, v) ==
      var links :=
        if u in done then g.Neighbors(u)
        else if u == at && k <= |g.Neighbors(u)| then g.Neighbors(u)[..k]
        else [];
      FirstEntry(zeroed, links, ex, avoidLinks, u, v)
  }

  lemma FillOne(g: AdjacencyList, ex: Exclusion, avoidLinks: set<Link>, zeroed: set<Node>, done: set<Node>,
                at: Node, k: nat, data: Table)
    requires g.Valid() && FilledTo(g, ex, avoidLinks, zeroed, done, at, k, data)
    requires at !in done && k < |g.Neighbors(at)|
    ensures var l := g.Neighbors(at)[k];
      FilledTo(g, ex, avoidLinks, zeroed, done, at, k + 1,
               if Usable(ex, avoidLinks, l) then data[(l.src, l.dst) := SpData(l.delay, Some(l))] else data)
  {
    var links := g.Neighbors(at);
    var l := links[k];
    var data' := if Usable(ex, avoidLinks, l) then data[(l.src, l.dst) := SpData(l.delay, Some(l))] else data;
    assert links[..k + 1][..k] == links[..k] && links[..k + 1][k] == l && l.src == at;
    forall u, v ensures Entry(data', u, v) ==
      var ls :=
        if u in done then g.Neighbors(u)
        else if u == at && k + 1 <= |g.Neighbors(u)| then g.Neighbors(u)[..k + 1]
        else [];
      FirstEntry(zeroed, ls, ex, avoidLinks, u, v)
    {
      if u == at {
        assert Entry(data, u, v) == FirstEntry(zeroed, links[..k], ex, avoidLinks, u, v);
      } else {
        assert Entry(data', u, v) == Entry(data, u, v);
      }
    }
  }

  method FillLinks(g: AdjacencyList, ex: Exclusion, avoidLinks: set<Link>, ghost zeroed: set<Node>, data: Table)
    returns (data': Table)
    requires g.Valid()
    requires IsDiagonal(data, zeroed)
    ensures IsFilled(g, ex, avoidLinks, zeroed, data')
  {
    hide FirstEntry, LastTo;
    data' := data;
    var todo := g.adj.Keys;
    NothingFilled(g, ex, avoidLinks, zeroed, data);
    assert g.adj.Keys - todo == {};
    while todo != {}
      invariant todo <= g.adj.Keys
      invariant FilledTo(g, ex, avoidLinks, zeroed, g.adj.Keys - todo, 0, |g.Neighbors(0)| + 1, data')
    {
      var n :| n in todo;
      ghost var done := g.adj.Keys - todo;
      var links := g.adj[n];
      StartRow(g, ex, avoidLinks, zeroed, done, n, data');
      for k := 0 to |links|
        invariant FilledTo(g, ex, avoidLinks, zeroed, done, n, k, data')
      {
        var l := links[k];
        FillOne(g, ex, avoidLinks, zeroed, done, n, k, data');
        if Usable(ex, avoidLinks, l) {
          data' := data'[(l.src, l.dst) := SpData(l.delay, Some(l))];
        }
      }
      EndRow(g, ex, avoidLinks, zeroed, done, n, data');
      todo := todo - {n};
      assert g.adj.Keys - todo == done + {n};
    }
    AllFilled(g, ex, avoidLinks, zeroed, data');
  }

  lemma NothingFilled(g: AdjacencyList, ex: Exclusion, avoidLinks: set<Link>, zeroed: set<Node>, data: Table)
    requires IsDiagonal(data, zeroed)
    ensures FilledTo(g, ex, avoidLinks, zeroed, {}, 0, |g.Neighbors(0)| + 1, data)
  {
  }

  lemma StartRow(g: AdjacencyList, ex: Exclusion, avoidLinks: set<Link>, zeroed: set<Node>, done: set<Node>, n: Node,
                 data: Table)
    requires FilledTo(g, ex, avoidLinks, zeroed, done, 0, |g.Neighbors(0)| + 1, data)
    ensures FilledTo(g, ex, avoidLinks, zeroed, done, n, 0, data)
  {
    hide FirstEntry;
    assert g.Neighbors(n)[..0] == [];
  }

  lemma EndRow(g: AdjacencyList, ex: Exclusion, avoidLinks: set<Link>, zeroed: set<Node>, done: set<Node>, n: Node,
               data: Table)
    requires FilledTo(g, ex, avoidLinks, zeroed, done, n, |g.Neighbors(n)|, data)
    ensures FilledTo(g, ex, avoidLinks, zeroed, done + {n}, 0, |g.Neighbors(0)| + 1, data)
  {
    hide FirstEntry;
    assert g.Neighbors(n)[..|g.Neighbors(n)|] == g.Neighbors(n);
  }

  lemma AllFilled(g: AdjacencyList, ex: Exclusion, avoidLinks: set<Link>, zeroed: set<Node>, data: Table)
    requires FilledTo(g, ex, avoidLinks, zeroed, g.adj.Keys, 0, |g.Neighbors(0)| + 1, data)
    ensures IsFilled(g, ex, avoidLinks, zeroed, data)
  {
    hide FirstEntry;
  }

  // ---------- the whole computation ----------

  /** What the finished table promises about the surviving links: an entry is the delay of
      a shortest walk, and its successor starts one. */
  ghost predicate TableOk(view: View, standing: set<Node>, data: Table) {
    && (forall i: Node, j: Node, p: Links :: p != [] && IsWalk(view, i, p, j) ==>
          (i, j) in data && data[(i, j)].distance <= Delay(p))
    && Realized(view, standing, data) && ZeroAt(data, standing)
    && (exists rank :: Successors(view, data, rank))
  }

  ghost predicate ZeroAt(data: Table, standing: set<Node>) {
    forall n <- standing :: (n, n) in data && data[(n, n)].distance == 0
  }

  ghost predicate TableInv(view: View, standing: set<Node>, nodes: set<Node>, data: Table, via: set<Node>) {
    && Inside(view, nodes) && Within(data, nodes)
    && Bounded(view, data, via) && Realized(view, standing, data) && LinkBound(view, data) && ZeroAt(data, standing)
    && (exists rank :: Successors(view, data, rank))
  }

  lemma {:induction false} LastToIs(links: seq<Link>, ex: Exclusion, avoidLinks: set<Link>, dst: Node)
    ensures var r := LastTo(links, ex, avoidLinks, dst);
      r.Some? ==> r.value in links && Usable(ex, avoidLinks, r.value) && r.value.dst == dst
  {
    if links != [] {
      LastToIs(links[..|links| - 1], ex, avoidLinks, dst);
    }
  }

  /** A filled entry comes from a surviving link or from the diagonal. */
  lemma FilledEntry(g: AdjacencyList, ex: Exclusion, avoidLinks: set<Link>, zeroed: set<Node>, data: Table, u: Node,
                    v: Node)
    requires g.Valid() && IsFilled(g, ex, avoidLinks, zeroed, data) && (u, v) in data
    ensures match data[(u, v)].next
      case None => u == v && u in Standing(g, ex, avoidLinks, zeroed) && data[(u, v)].distance == 0
      case Some(l) => l in Effective(g, ex, avoidLinks) && l.src == u && l.dst == v && data[(u, v)].distance == l.delay
  {
    assert Entry(data, u, v) == FirstEntry(zeroed, g.Neighbors(u), ex, avoidLinks, u, v);
    LastToIs(g.Neighbors(u), ex, avoidLinks, v);
    g.NeighborsAreLinks(u);
  }

  lemma FilledHasLink(g: AdjacencyList, ex: Exclusion, avoidLinks: set<Link>, zeroed: set<Node>, data: Table, l: Link)
    requires IsFilled(g, ex, avoidLinks, zeroed, data) && l in Effective(g, ex, avoidLinks)
    ensures (l.src, l.dst) in data && data[(l.src, l.dst)].distance == l.delay
  {
    assert Entry(data, l.src, l.dst) == FirstEntry(zeroed, g.Neighbors(l.src), ex, avoidLinks, l.src, l.dst);
  }

  lemma NoInnerNodes(view: View, i: Node, p: Links, j: Node)
    requires p != [] && IsWalk(view, i, p, j) && Inner(i, p, {})
    ensures p == [p[0]] && p[0] in view.links && p[0].src == i && p[0].dst == j
  {
    assert At(i, p, 1) in {} || |p| == 1;
  }

  lemma FilledBounds(g: AdjacencyList, ex: Exclusion, avoidLinks: set<Link>, zeroed: set<Node>, data: Table)
    requires g.Valid() && IsFilled(g, ex, avoidLinks, zeroed, data)
    ensures Bounded(EffectiveView(g, ex, avoidLinks), data, {})
  {
    var view := EffectiveView(g, ex, avoidLinks);
    hide IsWalk, Inner, Delay, IsFilled;
    forall i: Node, j: Node, p: Links | p != [] && IsWalk(view, i, p, j) && Inner(i, p, {})
      ensures (i, j) in data && data[(i, j)].distance <= Delay(p)
    {
      NoInnerNodes(view, i, p, j);
      SingleLink(view, p[0]);
      FilledHasLink(g, ex, avoidLinks, zeroed, data, p[0]);
    }
  }

  lemma FilledRealized(g: AdjacencyList, ex: Exclusion, avoidLinks: set<Link>, zeroed: set<Node>, data: Table)
    requires g.Valid() && IsFilled(g, ex, avoidLinks, zeroed, data)
    ensures Realized(EffectiveView(g, ex, avoidLinks), Standing(g, ex, avoidLinks, zeroed), data)
  {
    var view, standing := EffectiveView(g, ex, avoidLinks), Standing(g, ex, avoidLinks, zeroed);
    forall u, v | (u, v) in data ensures Real(view, standing, u, v, data[(u, v)].distance) {
      FilledEntry(g, ex, avoidLinks, zeroed, data, u, v);
      match data[(u, v)].next
      case None =>
        assert IsWalk(view, u, [], v) && Delay([]) == 0;
      case Some(l) =>
        SingleLink(view, l);
    }
  }

  lemma FilledZeros(g: AdjacencyList, ex: Exclusion, avoidLinks: set<Link>, zeroed: set<Node>, data: Table)
    requires IsFilled(g, ex, avoidLinks, zeroed, data)
    ensures ZeroAt(data, Standing(g, ex, avoidLinks, zeroed))
  {
    forall n <- Standing(g, ex, avoidLinks, zeroed) ensures (n, n) in data && data[(n, n)].distance == 0 {
      assert Entry(data, n, n) == FirstEntry(zeroed, g.Neighbors(n), ex, avoidLinks, n, n);
    }
  }

  lemma PhaseKeepsZeros(data: Table, data': Table, nodes: set<Node>, k: Node, standing: set<Node>)
    requires ZeroAt(data, standing) && Within(data, nodes) && IsPhase(data, data', nodes, k)
    ensures ZeroAt(data', standing)
  {
    hide IsPhase;
    forall n <- standing ensures (n, n) in data' && data'[(n, n)].distance == 0 {
      PhaseEntry(data, data', nodes, k, n, n);
    }
  }

  lemma FilledInv(g: AdjacencyList, ex: Exclusion, avoidLinks: set<Link>, zeroed: set<Node>, data: Table)
    requires g.Valid() && IsFilled(g, ex, avoidLinks, zeroed, data) && zeroed <= g.AllNodes()
    ensures TableInv(EffectiveView(g, ex, avoidLinks), Standing(g, ex, avoidLinks, zeroed), g.AllNodes(), data, {})
  {
    var view := EffectiveView(g, ex, avoidLinks);
    FilledBounds(g, ex, avoidLinks, zeroed, data);
    FilledRealized(g, ex, avoidLinks, zeroed, data);
    FilledZeros(g, ex, avoidLinks, zeroed, data);
    hide Bounded, Realized, IsFilled, ZeroAt, Standing;
    forall l <- view.links
      ensures (l.src, l.dst) in data && data[(l.src, l.dst)].distance <= l.delay && l.src in g.AllNodes()
      ensures l.dst in g.AllNodes()
    {
      FilledHasLink(g, ex, avoidLinks, zeroed, data, l);
      g.EndsAreNodes(l);
    }
    var rank: Rank := map e | e in data :: 0;
    forall u, v | (u, v) in data
      ensures GoodSuccessor(view, data, rank, u, v) && u in g.AllNodes() && v in g.AllNodes()
    {
      FilledEntry(g, ex, avoidLinks, zeroed, data, u, v);
    }
    assert Successors(view, data, rank);
  }

  lemma PhaseKeepsInv(view: View, standing: set<Node>, nodes: set<Node>, data: Table, data': Table, via: set<Node>,
                      k: Node)
    requires TableInv(view, standing, nodes, data, via) && k in nodes && IsPhase(data, data', nodes, k)
    ensures TableInv(view, standing, nodes, data', via + {k})
  {
    PhaseBounds(view, data, data', nodes, via, k);
    PhaseRealizes(view, standing, data, data', nodes, k);
    PhaseGrows(data, data', nodes, k);
    PhaseKeepsZeros(data, data', nodes, k, standing);
    var rank :| Successors(view, data, rank);
    PhaseSuccessors(view, data, data', nodes, k, rank);
    hide Bounded, Realized, Successors, IsPhase, ZeroAt;
    forall l <- view.links ensures (l.src, l.dst) in data' && data'[(l.src, l.dst)].distance <= l.delay {
      PhaseEntry(data, data', nodes, k, l.src, l.dst);
    }
  }

  lemma PhaseSuccessors(view: View, data: Table, data': Table, nodes: set<Node>, k: Node, rank: Rank)
    requires Successors(view, data, rank) && LinkBound(view, data) && Within(data, nodes)
    requires k in nodes && IsPhase(data, data', nodes, k) && data.Keys <= data'.Keys
    ensures exists rank' :: Successors(view, data', rank')
  {
    var m := RankBound(rank);
    assert PhaseSetting(view, data, data', nodes, k, rank, m);
    var rank' := NewRank(data, data', rank, k, m);
    hide PhaseSetting, GoodSuccessor;
    forall i, j | (i, j) in data' ensures GoodSuccessor(view, data', rank', i, j) {
      if (i, j) in data && data'[(i, j)] == data[(i, j)] {
        KeptSuccessor(view, data, data', nodes, k, rank, m, i, j);
      } else {
        UpdatedSuccessor(view, data, data', nodes, k, rank, m, i, j);
      }
    }
    assert Successors(view, data', rank');
  }

  lemma InvGivesTableOk(view: View, standing: set<Node>, nodes: set<Node>, data: Table)
    requires TableInv(view, standing, nodes, data, nodes)
    ensures TableOk(view, standing, data)
  {
    hide Realized, Successors, LinkBound, Within, Delay, ZeroAt;
    forall i: Node, j: Node, p: Links | p != [] && IsWalk(view, i, p, j)
      ensures (i, j) in data && data[(i, j)].distance <= Delay(p)
    {
      assert Inner(i, p, nodes) by {
        forall m | 0 < m < |p| ensures At(i, p, m) in nodes {
          assert p[m].src == At(i, p, m);
        }
      }
    }
  }

  /** The nodes that reach themselves at once in the table of a query. */
  ghost function StandingIn(g: AdjacencyList, ex: Exclusion, avoidNodes: set<Node>, avoidLinks: set<Link>): set<Node> {
    Standing(g, ex, avoidLinks, Zeroed(g, ex, avoidNodes))
  }

  method ComputePaths(g: AdjacencyList, ex: Exclusion, avoidNodes: set<Node>, avoidLinks: set<Link>)
    returns (data: Table)
    requires g.Valid()
    ensures TableOk(EffectiveView(g, ex, avoidLinks), StandingIn(g, ex, avoidNodes, avoidLinks), data)
    ensures forall n <- Zeroed(g, ex, avoidNodes) :: (n, n) in data
  {
    hide *;
    var nodes := g.AllNodes();
    ghost var view, zeroed := EffectiveView(g, ex, avoidLinks), Zeroed(g, ex, avoidNodes);
    ghost var standing := Standing(g, ex, avoidLinks, zeroed);
    StandingIs(g, ex, avoidNodes, avoidLinks);
    ZeroedIs(g, ex, avoidNodes);
    data := FillDiagonal(nodes, ex, avoidNodes);
    data := FillLinks(g, ex, avoidLinks, zeroed, data);
    FilledInv(g, ex, avoidLinks, zeroed, data);
    FilledDiagonal(g, ex, avoidLinks, zeroed, data);
    var todo := nodes;
    assert nodes - todo == {};
    while todo != {}
      invariant todo <= nodes && TableInv(view, standing, nodes, data, nodes - todo)
      invariant forall n <- zeroed :: (n, n) in data
    {
      var k :| k in todo;
      ghost var before := data;
      data := Phase(nodes, k, data);
      PhaseKeepsInv(view, standing, nodes, before, data, nodes - todo, k);
      InvGrows(view, standing, nodes, before, data, nodes - todo, k);
      assert nodes - (todo - {k}) == nodes - todo + {k};
      todo := todo - {k};
    }
    assert nodes - todo == nodes;
    InvGivesTableOk(view, standing, nodes, data);
  }

  lemma StandingIs(g: AdjacencyList, ex: Exclusion, avoidNodes: set<Node>, avoidLinks: set<Link>)
    ensures StandingIn(g, ex, avoidNodes, avoidLinks) == Standing(g, ex, avoidLinks, Zeroed(g, ex, avoidNodes))
  {
  }

  lemma InvGrows(view: View, standing: set<Node>, nodes: set<Node>, data: Table, data': Table, via: set<Node>, k: Node)
    requires TableInv(view, standing, nodes, data, via) && k in nodes && IsPhase(data, data', nodes, k)
    ensures data.Keys <= data'.Keys
  {
    PhaseGrows(data, data', nodes, k);
  }

  lemma ZeroedIs(g: AdjacencyList, ex: Exclusion, avoidNodes: set<Node>)
    ensures Zeroed(g, ex, avoidNodes) == g.AllNodes() - ex.nodes - avoidNodes
    ensures Zeroed(g, ex, avoidNodes) <= g.AllNodes()
  {
  }

  lemma FilledDiagonal(g: AdjacencyList, ex: Exclusion, avoidLinks: set<Link>, zeroed: set<Node>, data: Table)
    requires IsFilled(g, ex, avoidLinks, zeroed, data)
    ensures forall n <- zeroed :: (n, n) in data
  {
    forall n <- zeroed ensures (n, n) in data {
      assert Entry(data, n, n) == FirstEntry(zeroed, g.Neighbors(n), ex, avoidLinks, n, n);
    }
  }

  // ---------- following successors ----------

  /** With exact distances an entry is its successor link plus the entry behind it. */
  lemma SuccessorIsExact(view: View, standing: set<Node>, data: Table, rank: Rank, i: Node, j: Node)
    requires TableOk(view, standing, data) && Successors(view, data, rank) && view.blocked == {}
    requires (i, j) in data && i != j
    ensures data[(i, j)].next.Some?
    ensures var l := data[(i, j)].next.value;
      && l in view.links && l.src == i
      && if l.dst == j then data[(i, j)].distance == l.delay
         else
           && (l.dst, j) in data && data[(i, j)].distance == l.delay + data[(l.dst, j)].distance
           && (i, j) in rank && (l.dst, j) in rank && rank[(l.dst, j)] < rank[(i, j)]
  {
    hide IsWalk, Delay, Real;
    assert GoodSuccessor(view, data, rank, i, j);
    var l := data[(i, j)].next.value;
    if l.dst != j {
      LinkThenEntry(view, standing, data, l, j);
    }
  }

  lemma LinkThenEntry(view: View, standing: set<Node>, data: Table, l: Link, j: Node)
    requires TableOk(view, standing, data) && view.blocked == {} && l in view.links && (l.dst, j) in data
    ensures (l.src, j) in data && data[(l.src, j)].distance <= l.delay + data[(l.dst, j)].distance
  {
    hide IsWalk, Delay, Successors;
    assert Real(view, standing, l.dst, j, data[(l.dst, j)].distance);
    var p: Links :|
      IsWalk(view, l.dst, p, j) && Delay(p) == data[(l.dst, j)].distance && (p == [] ==> l.dst in standing);
    SingleLink(view, l);
    WalkConcat(view, l.src, [l], l.dst, p, j);
    DelayConcat([l], p);
    assert [l] + p != [];
  }

  /** Terminates, also across links of zero delay, and gives a walk with the stored delay.
      That is the delay of its links exactly between different nodes and for a node that
      stores zero to itself: from a node to itself there are no links. */
  method GetPath(data: Table, src: Node, dst: Node, ghost view: View, ghost standing: set<Node>)
    returns (r: Option<Walk>)
    requires TableOk(view, standing, data) && view.blocked == {}
    ensures r.None? <==> (src, dst) !in data
    ensures r.Some? ==> r.value.delay == data[(src, dst)].distance && IsWalk(view, src, r.value.links, dst)
    ensures r.Some? ==> (Delay(r.value.links) == r.value.delay <==> src != dst || data[(src, dst)].distance == 0)
    ensures r.Some? && src == dst ==> r.value.links == []
  {
    if (src, dst) !in data {
      return None;
    }
    var dist := data[(src, dst)].distance;
    ghost var rank :| Successors(view, data, rank);
    var links: Links, next := [], src;
    EmptyWalk(view, src);
    hide TableOk, Successors, IsWalk, Delay;
    while next != dst
      invariant IsWalk(view, src, links, next)
      invariant src == dst ==> links == [] && next == src && Delay(links) == 0
      invariant next != dst ==>
        (next, dst) in data && (next, dst) in rank && Delay(links) + data[(next, dst)].distance == dist
      invariant next == dst && src != dst ==> Delay(links) == dist
      decreases next != dst, if next != dst && (next, dst) in rank then rank[(next, dst)] else 0
    {
      SuccessorIsExact(view, standing, data, rank, next, dst);
      var link := data[(next, dst)].next.value;
      SingleLink(view, link);
      WalkConcat(view, src, links, next, [link], link.dst);
      DelayConcat(links, [link]);
      links := links + [link];
      next := link.dst;
    }
    r := Some(Walk(links, dist));
  }

  lemma EmptyWalk(view: View, u: Node)
    requires u !in view.blocked
    ensures IsWalk(view, u, [], u) && Delay([]) == 0
  {
  }

  // ---------- the diagonal ----------

  ghost predicate ClosedWalk(view: View, n: Node, p: Links) {
    p != [] && IsWalk(view, n, p, n)
  }

  /** A node has an entry to itself only if it stands or lies on a cycle, and the entry is
      zero if and only if it stands or lies on a cycle without delay. */
  lemma DiagonalIff(view: View, standing: set<Node>, data: Table, n: Node)
    requires TableOk(view, standing, data)
    ensures (n, n) in data ==> n in standing || exists p: Links :: ClosedWalk(view, n, p)
    ensures (n, n) in data && data[(n, n)].distance == 0 <==>
      n in standing || exists p: Links :: ClosedWalk(view, n, p) && Delay(p) == 0
  {
    hide IsWalk, Successors;
    if (n, n) in data {
      assert Real(view, standing, n, n, data[(n, n)].distance);
      var p: Links :| IsWalk(view, n, p, n) && Delay(p) == data[(n, n)].distance && (p == [] ==> n in standing);
      assert p != [] ==> ClosedWalk(view, n, p);
    }
  }

  /** One node with a link to itself. */
  ghost function Loop(): AdjacencyList {
    AdjacencyList(map[0 := [Link(0, 0, 0, 3)]])
  }

  lemma LoopIs()
    ensures var ex := Exclusion({}, {}); EffectiveView(Loop(), ex, {}) == View({Link(0, 0, 0, 3)}, {})
    ensures StandingIn(Loop(), Exclusion({}, {}), {}, {}) == {}
  {
    var g, l, ex := Loop(), Link(0, 0, 0, 3), Exclusion({}, {});
    assert g.Neighbors(0) == [l] && LastTo([l], ex, {}, 0) == Some(l);
    assert l in g.adj[0];
    assert g.AllLinks() == {l};
    assert g.AllNodes() == {0};
    assert Effective(g, ex, {}) == {l};
  }

  /** A link from a node to itself overwrites the zero of the node: the table says 3, and the
      path it gives for that has no links. */
  lemma SelfLinkHidesZero(data: Table)
    requires TableOk(EffectiveView(Loop(), Exclusion({}, {}), {}), StandingIn(Loop(), Exclusion({}, {}), {}, {}), data)
    ensures (0, 0) in data && data[(0, 0)].distance == 3
  {
    LoopIs();
    hide EffectiveView, StandingIn, Loop, Successors;
    var l := Link(0, 0, 0, 3);
    var view := View({l}, {});
    SingleLink(view, l);
    assert Real(view, {}, 0, 0, data[(0, 0)].distance);
    var p: Links :| IsWalk(view, 0, p, 0) && Delay(p) == data[(0, 0)].distance && (p == [] ==> 0 in {});
    assert p[|p| - 1] in view.links;
  }

  // ---------- agreement with the single-source trees ----------

  /** Between different open nodes the table holds the distances of `view`. */
  ghost predicate ExactFor(view: View, data: Table) {
    && (forall i: Node, j: Node, p: Links :: i != j && IsWalk(view, i, p, j) ==>
          (i, j) in data && data[(i, j)].distance <= Delay(p))
    && (forall i, j :: i != j && i !in view.blocked && j !in view.blocked && (i, j) in data ==>
          Real(view, {}, i, j, data[(i, j)].distance))
  }

  ghost predicate Detour(view: View, i: Node, j: Node, d: nat) {
    exists p: Links :: IsWalk(view, i, p, j) && Delay(p) <= d
  }

  predicate IsOpen(view: View, l: Link) {
    l.src != l.dst && l.src !in view.blocked && l.dst !in view.blocked
  }

  /** No overwritten link was a shortcut: for every usable link between two different open
      nodes the surviving links offer a way that is no longer. */
  ghost predicate NothingLost(query: View, effective: View) {
    forall l <- query.links :: IsOpen(query, l) ==> Detour(effective, l.src, l.dst, l.delay)
  }

  /** All nodes strictly inside the walk are blocked. */
  ghost predicate BlockedInside(view: View, i: Node, p: Links) {
    forall m :: 0 < m < |p| ==> At(i, p, m) in view.blocked
  }

  /** Crossing blocked nodes is no shortcut: for every surviving walk between two different
      open nodes that runs through blocked ones only, the query has a way that is no longer. */
  ghost predicate NothingCrossed(query: View, effective: View) {
    forall i: Node, j: Node, p: Links ::
      i != j && i !in query.blocked && j !in query.blocked
      && IsWalk(effective, i, p, j) && BlockedInside(query, i, p) ==>
        Detour(query, i, j, Delay(p))
  }

  lemma EffectiveIsUsable(g: AdjacencyList, ex: Exclusion, avoidNodes: set<Node>, avoidLinks: set<Link>)
    requires g.Valid()
    ensures EffectiveView(g, ex, avoidLinks).links <= QueryView(g, ex, avoidNodes, avoidLinks).links
  {
    forall l <- Effective(g, ex, avoidLinks) ensures l !in ex.links && l !in avoidLinks {
      LastToIs(g.Neighbors(l.src), ex, avoidLinks, l.dst);
    }
  }

  lemma DetourOn(effective: View, i: Node, k: Node, j: Node, d: nat, e: nat)
    requires Detour(effective, i, k, d) && Detour(effective, k, j, e)
    ensures Detour(effective, i, j, d + e)
  {
    hide IsWalk, Delay;
    var head: Links :| IsWalk(effective, i, head, k) && Delay(head) <= d;
    var tail: Links :| IsWalk(effective, k, tail, j) && Delay(tail) <= e;
    WalkConcat(effective, i, head, k, tail, j);
    DelayConcat(head, tail);
  }

  lemma DetourNowhere(view: View, i: Node, d: nat)
    requires i !in view.blocked
    ensures Detour(view, i, i, d)
  {
    EmptyWalk(view, i);
  }

  lemma LastStep(view: View, i: Node, p: Links, j: Node)
    requires IsWalk(view, i, p, j) && p != []
    ensures var l := p[|p| - 1];
      && l in view.links && l.dst == j && l.src !in view.blocked && j !in view.blocked
      && IsWalk(view, i, p[..|p| - 1], l.src) && Delay(p) == Delay(p[..|p| - 1]) + l.delay
  {
    WalkSplit(view, i, p, j, |p| - 1);
  }

  /** Every walk of the query has a surviving way that is no longer: link by link. */
  lemma {:induction false} DetourAround(query: View, effective: View, i: Node, p: Links, j: Node)
    requires NothingLost(query, effective) && effective.blocked == {} && IsWalk(query, i, p, j)
    ensures Detour(effective, i, j, Delay(p))
    decreases |p|
  {
    if p == [] {
      DetourNowhere(effective, i, 0);
    } else {
      hide IsWalk, Delay, Detour;
      LastStep(query, i, p, j);
      var l := p[|p| - 1];
      DetourAround(query, effective, i, p[..|p| - 1], l.src);
      if l.src == j {
        DetourNowhere(effective, j, l.delay);
      }
      DetourOn(effective, i, l.src, j, Delay(p[..|p| - 1]), l.delay);
    }
  }

  /** The first open node of a walk after its start. */
  lemma {:induction false} FirstOpen(view: View, i: Node, p: Links, n: nat) returns (m: nat)
    requires 0 < n <= |p| && At(i, p, |p|) !in view.blocked
    requires forall k :: 0 < k < n ==> At(i, p, k) in view.blocked
    ensures 0 < m <= |p| && At(i, p, m) !in view.blocked
    ensures forall k :: 0 < k < m ==> At(i, p, k) in view.blocked
    decreases |p| - n
  {
    if At(i, p, n) in view.blocked {
      m := FirstOpen(view, i, p, n + 1);
    } else {
      m := n;
    }
  }

  /** The first piece of a surviving walk, up to the next open node. */
  lemma FirstPiece(query: View, effective: View, i: Node, p: Links, j: Node) returns (m: nat, k: Node)
    requires NothingCrossed(query, effective) && IsWalk(effective, i, p, j) && p != []
    requires i !in query.blocked && j !in query.blocked
    ensures 0 < m <= |p| && k !in query.blocked && IsWalk(effective, k, p[m..], j)
    ensures Detour(query, i, k, Delay(p[..m]))
  {
    hide Delay, Detour;
    m := FirstOpen(query, i, p, 1);
    k := At(i, p, m);
    WalkSplit(effective, i, p, j, m);
    assert BlockedInside(query, i, p[..m]) by {
      forall n | 0 < n < m ensures At(i, p[..m], n) in query.blocked {
        assert At(i, p[..m], n) == At(i, p, n);
      }
    }
    hide IsWalk;
    if i == k {
      DetourNowhere(query, i, Delay(p[..m]));
    }
  }

  /** Every surviving walk between open nodes has a way of the query that is no longer: cut
      at its open nodes, piece by piece. */
  lemma {:induction false} WayAround(query: View, effective: View, i: Node, p: Links, j: Node)
    requires NothingCrossed(query, effective) && IsWalk(effective, i, p, j)
    requires i !in query.blocked && j !in query.blocked
    ensures Detour(query, i, j, Delay(p))
    decreases |p|
  {
    if p == [] {
      DetourNowhere(query, i, 0);
    } else {
      hide IsWalk, Delay, Detour, NothingCrossed;
      var m, k := FirstPiece(query, effective, i, p, j);
      WayAround(query, effective, k, p[m..], j);
      DelaySplit(p, m);
      DetourOn(query, i, k, j, Delay(p[..m]), Delay(p[m..]));
    }
  }

  lemma ExactLosesNothing(query: View, effective: View, standing: set<Node>, data: Table, l: Link)
    requires TableOk(effective, standing, data) && ExactFor(query, data) && l in query.links && IsOpen(query, l)
    ensures Detour(effective, l.src, l.dst, l.delay)
  {
    hide Successors;
    SingleLink(query, l);
    hide IsWalk, Delay;
    assert Real(effective, standing, l.src, l.dst, data[(l.src, l.dst)].distance);
  }

  lemma ExactCrossesNothing(query: View, effective: View, standing: set<Node>, data: Table, i: Node, p: Links, j: Node)
    requires TableOk(effective, standing, data) && ExactFor(query, data) && IsWalk(effective, i, p, j)
    requires i != j && i !in query.blocked && j !in query.blocked
    ensures Detour(query, i, j, Delay(p))
  {
    hide Successors, Delay;
    EmptyWalkStays(effective, i, p, j);
    hide IsWalk;
    assert Real(query, {}, i, j, data[(i, j)].distance);
  }

  lemma BoundsQuery(query: View, effective: View, standing: set<Node>, data: Table, i: Node, p: Links, j: Node)
    requires TableOk(effective, standing, data) && effective.blocked == {} && NothingLost(query, effective)
    requires i != j && IsWalk(query, i, p, j)
    ensures (i, j) in data && data[(i, j)].distance <= Delay(p)
  {
    hide IsWalk, Delay, Successors, NothingLost;
    DetourAround(query, effective, i, p, j);
    var q: Links :| IsWalk(effective, i, q, j) && Delay(q) <= Delay(p);
    EmptyWalkStays(effective, i, q, j);
  }

  lemma RealInQuery(query: View, effective: View, standing: set<Node>, data: Table, i: Node, j: Node)
    requires TableOk(effective, standing, data) && effective.blocked == {}
    requires NothingLost(query, effective) && NothingCrossed(query, effective)
    requires i != j && i !in query.blocked && j !in query.blocked && (i, j) in data
    ensures Real(query, {}, i, j, data[(i, j)].distance)
  {
    hide IsWalk, Delay, Successors, NothingLost, NothingCrossed;
    assert Real(effective, standing, i, j, data[(i, j)].distance);
    var p: Links :| IsWalk(effective, i, p, j) && Delay(p) == data[(i, j)].distance;
    WayAround(query, effective, i, p, j);
    var q: Links :| IsWalk(query, i, q, j) && Delay(q) <= Delay(p);
    BoundsQuery(query, effective, standing, data, i, q, j);
    EmptyWalkStays(query, i, q, j);
  }

  /** The table is exact for a query, between different open nodes, if and only if neither
      overwriting a parallel link lost a shortcut nor crossing blocked nodes gives one. */
  lemma ExactIff(query: View, effective: View, standing: set<Node>, data: Table)
    requires TableOk(effective, standing, data) && effective.blocked == {}
    ensures ExactFor(query, data) <==> NothingLost(query, effective) && NothingCrossed(query, effective)
  {
    if ExactFor(query, data) {
      hide TableOk, ExactFor, IsWalk, Delay, Detour;
      forall l <- query.links | IsOpen(query, l) ensures Detour(effective, l.src, l.dst, l.delay) {
        ExactLosesNothing(query, effective, standing, data, l);
      }
      forall i: Node, j: Node, p: Links | i != j && i !in query.blocked && j !in query.blocked
                                          && IsWalk(effective, i, p, j) && BlockedInside(query, i, p)
        ensures Detour(query, i, j, Delay(p))
      {
        ExactCrossesNothing(query, effective, standing, data, i, p, j);
      }
    }
    if NothingLost(query, effective) && NothingCrossed(query, effective) {
      hide TableOk, IsWalk, Delay, Detour, NothingLost, NothingCrossed, Real;
      forall i: Node, j: Node, p: Links | i != j && IsWalk(query, i, p, j)
        ensures (i, j) in data && data[(i, j)].distance <= Delay(p)
      {
        BoundsQuery(query, effective, standing, data, i, p, j);
      }
      forall i, j | i != j && i !in query.blocked && j !in query.blocked && (i, j) in data
        ensures Real(query, {}, i, j, data[(i, j)].distance)
      {
        RealInQuery(query, effective, standing, data, i, j);
      }
    }
  }

  /** The same for the table that is computed for a query. */
  lemma ExactIffNothingLost(g: AdjacencyList, ex: Exclusion, avoidNodes: set<Node>, avoidLinks: set<Link>, data: Table)
    requires g.Valid()
    requires TableOk(EffectiveView(g, ex, avoidLinks), StandingIn(g, ex, avoidNodes, avoidLinks), data)
    ensures var query, effective := QueryView(g, ex, avoidNodes, avoidLinks), EffectiveView(g, ex, avoidLinks);
      ExactFor(query, data) <==> NothingLost(query, effective) && NothingCrossed(query, effective)
  {
    hide TableOk, ExactFor, NothingLost, NothingCrossed;
    ExactIff(QueryView(g, ex, avoidNodes, avoidLinks), EffectiveView(g, ex, avoidLinks),
             StandingIn(g, ex, avoidNodes, avoidLinks), data);
  }

  /** Without blocked nodes there is nothing to cross. */
  lemma NothingToCross(g: AdjacencyList, ex: Exclusion, avoidLinks: set<Link>)
    requires g.Valid() && ex.nodes == {}
    ensures NothingCrossed(QueryView(g, ex, {}, avoidLinks), EffectiveView(g, ex, avoidLinks))
  {
    var query, effective := QueryView(g, ex, {}, avoidLinks), EffectiveView(g, ex, avoidLinks);
    EffectiveIsUsable(g, ex, {}, avoidLinks);
    hide Effective;
    forall i: Node, j: Node, p: Links | IsWalk(effective, i, p, j) ensures Detour(query, i, j, Delay(p)) {
      assert IsWalk(query, i, p, j);
    }
  }

  ghost predicate OneLinkPerPair(links: set<Link>) {
    forall k, l | k in links && l in links && k.src == l.src && k.dst == l.dst :: k == l
  }

  lemma {:induction false} LastToFinds(links: seq<Link>, ex: Exclusion, avoidLinks: set<Link>, l: Link)
    requires l in links && Usable(ex, avoidLinks, l)
    ensures LastTo(links, ex, avoidLinks, l.dst).Some?
  {
    var n := |links| - 1;
    if !(Usable(ex, avoidLinks, links[n]) && links[n].dst == l.dst) {
      assert links == links[..n] + [links[n]];
      LastToFinds(links[..n], ex, avoidLinks, l);
    }
  }

  /** Without parallel links every usable link survives, so nothing is lost. */
  lemma UniqueLinksSurvive(g: AdjacencyList, ex: Exclusion, avoidNodes: set<Node>, avoidLinks: set<Link>)
    requires g.Valid() && OneLinkPerPair(QueryView(g, ex, avoidNodes, avoidLinks).links)
    ensures NothingLost(QueryView(g, ex, avoidNodes, avoidLinks), EffectiveView(g, ex, avoidLinks))
  {
    var query, effective := QueryView(g, ex, avoidNodes, avoidLinks), EffectiveView(g, ex, avoidLinks);
    forall l <- query.links ensures Detour(effective, l.src, l.dst, l.delay) {
      g.NeighborsAreLinks(l.src);
      LastToFinds(g.Neighbors(l.src), ex, avoidLinks, l);
      LastToIs(g.Neighbors(l.src), ex, avoidLinks, l.dst);
      var last := LastTo(g.Neighbors(l.src), ex, avoidLinks, l.dst).value;
      assert last in query.links && last.src == l.src;
      SingleLink(effective, l);
    }
  }

  /** An exact table and a shortest path tree of the same query hold the same distances. */
  lemma AgreesWithTree(query: View, data: Table, t: Dijkstra.SpTree, dst: Node)
    requires ExactFor(query, data) && Dijkstra.Correct(t, query)
    requires dst in t.destinations && dst != t.src && t.src !in query.blocked && dst !in query.blocked
    ensures (t.src, dst) in data <==> dst in t.minDelays
    ensures dst in t.minDelays ==> data[(t.src, dst)].distance == t.minDelays[dst]
  {
    hide IsWalk, Delay, Simple;
    var paths :| Dijkstra.Unfolds(query, t.src, t.minDelays, t.previous, paths);
    if dst in t.minDelays {
      Dijkstra.UnfoldedReaches(query, t.src, t.minDelays, t.previous, paths, dst);
    }
    hide Dijkstra.Unfolds;
    if (t.src, dst) in data {
      assert Real(query, {}, t.src, dst, data[(t.src, dst)].distance);
    }
  }

  /** A quick link listed before a slow parallel one is lost. */
  lemma QuickParallelLinkIsLost()
    ensures var quick, slow := Link(0, 0, 1, 1), Link(1, 0, 1, 5);
      var g, ex := AdjacencyList(map[0 := [quick, slow]]), Exclusion({}, {});
      && g.Valid() && quick in QueryView(g, ex, {}, {}).links
      && !NothingLost(QueryView(g, ex, {}, {}), EffectiveView(g, ex, {}))
      && forall p: Links :: IsWalk(EffectiveView(g, ex, {}), 0, p, 1) ==> 5 <= Delay(p)
  {
    var quick, slow := Link(0, 0, 1, 1), Link(1, 0, 1, 5);
    var g, ex := AdjacencyList(map[0 := [quick, slow]]), Exclusion({}, {});
    assert quick in g.adj[0];
    var view := EffectiveView(g, ex, {});
    forall l <- view.links ensures l == slow {
      g.NeighborsAreLinks(l.src);
      assert l.src == 0 && l in [quick, slow];
      assert LastTo([quick, slow], ex, {}, 1) == Some(slow);
    }
    forall p: Links | IsWalk(view, 0, p, 1) ensures 5 <= Delay(p) {
      assert p[|p| - 1] == slow;
    }
  }

  /** Excluded nodes still carry traffic in the table. */
  lemma ExcludedNodeIsCrossed()
    ensures var a, b := Link(0, 0, 1, 1), Link(1, 1, 2, 1);
      var g, ex := AdjacencyList(map[0 := [a], 1 := [b]]), Exclusion({}, {1});
      && IsWalk(EffectiveView(g, ex, {}), 0, [a, b], 2)
      && (forall p: Links :: !IsWalk(QueryView(g, ex, {}, {}), 0, p, 2))
      && !NothingCrossed(QueryView(g, ex, {}, {}), EffectiveView(g, ex, {}))
  {
    var a, b := Link(0, 0, 1, 1), Link(1, 1, 2, 1);
    var g, ex := AdjacencyList(map[0 := [a], 1 := [b]]), Exclusion({}, {1});
    var query, effective := QueryView(g, ex, {}, {}), EffectiveView(g, ex, {});
    assert a in g.adj[0] && b in g.adj[1];
    assert LastTo([a], ex, {}, 1) == Some(a) && LastTo([b], ex, {}, 2) == Some(b);
    assert a in g.AllLinks() && b in g.AllLinks();
    assert forall l <- g.AllLinks() :: l.src == 0 ==> l.dst == 1;
    assert IsWalk(effective, 0, [a, b], 2);
    assert BlockedInside(query, 0, [a, b]);
    hide Effective;
    forall p: Links ensures !IsWalk(query, 0, p, 2) {
      if p != [] {
        assert p[0] !in g.AllLinks() || p[0].src != At(0, p, 0) || p[0].dst in ex.nodes;
      }
    }
    assert !Detour(query, 0, 2, Delay([a, b]));
  }
}
