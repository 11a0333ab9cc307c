/** Directed multigraphs as the path algorithms see them: links, adjacency lists,
    exclusions, walks and their delays. A link index and the record it names are
    identified, so a list of link indices is a sequence of `Link` records. */
module Graphs {

  type Node = nat

  datatype Link = Link(id: nat, src: Node, dst: Node, delay: nat)

  type Links = seq<Link>

  /** A walk as the queries return it: its links and the delay stored with them. */
  datatype Walk = Walk(links: Links, delay: nat)

  /** Links and nodes that a query must not use. */
  datatype Exclusion = Exclusion(links: set<Link>, nodes: set<Node>)

  ghost predicate NoDuplicates<T>(s: seq<T>) {
    forall i, j :: 0 <= i < j < |s| ==> s[i] != s[j]
  }

  datatype AdjacencyList = AdjacencyList(adj: map<Node, seq<Link>>) {

    /** Each list holds links that leave its node, and holds each of them once. */
    ghost predicate Valid() {
      forall n <- adj ::
        && NoDuplicates(adj[n])
        && forall k :: 0 <= k < |adj[n]| ==> adj[n][k].src == n
    }

    function Neighbors(n: Node): seq<Link> {
      if n in adj then adj[n] else []
    }

    function AllLinks(): set<Link> {
      set n, l | n in adj && l in adj[n] :: l
    }

    function AllNodes(): set<Node> {
      adj.Keys + set l <- AllLinks() :: l.dst
    }

    function AddLink(l: Link): AdjacencyList {
      AdjacencyList(adj[l.src := Neighbors(l.src) + [l]])
    }

    lemma AddLinkAdds(l: Link)
      requires Valid() && l !in AllLinks()
      ensures AddLink(l).Valid() && AddLink(l).AllLinks() == AllLinks() + {l}
      ensures AddLink(l).AllNodes() == AllNodes() + {l.src, l.dst}
    {
      var g' := AddLink(l);
      forall n <- g'.adj ensures NoDuplicates(g'.adj[n]) && forall k :: 0 <= k < |g'.adj[n]| ==> g'.adj[n][k].src == n {
        if n == l.src {
          NeighborsAreLinks(n);
        } else {
          assert g'.adj[n] == adj[n];
        }
      }
      forall m ensures m in g'.AllLinks() <==> m in AllLinks() + {l} {
        if m in g'.AllLinks() {
          var n :| n in g'.adj && m in g'.adj[n];
          assert m == l || (n in adj && m in adj[n]);
        }
        if m in AllLinks() {
          var n :| n in adj && m in adj[n];
          assert n in g'.adj && m in g'.adj[n];
        }
        assert l in g'.adj[l.src];
      }
    }

    lemma NeighborsDistinct(n: Node)
      requires Valid()
      ensures forall k :: 0 <= k < |Neighbors(n)| ==> Neighbors(n)[k] !in Neighbors(n)[..k]
    {
    }

    lemma EndsAreNodes(l: Link)
      requires Valid() && l in AllLinks()
      ensures l.src in AllNodes() && l.dst in AllNodes()
    {
      var n :| n in adj && l in adj[n];
    }

    lemma NeighborsAreLinks(n: Node)
      requires Valid()
      ensures forall l :: l in Neighbors(n) <==> l in AllLinks() && l.src == n
    {
      forall l | l in AllLinks() && l.src == n ensures l in Neighbors(n) {
        var m :| m in adj && l in adj[m];
        var k :| 0 <= k < |adj[m]| && adj[m][k] == l;
      }
    }
  }

  /** The part of a graph that one query may use: the links it may take and the
      nodes it must not touch. */
  datatype View = View(links: set<Link>, blocked: set<Node>)

  ghost function QueryView(g: AdjacencyList, ex: Exclusion, avoidNodes: set<Node>, avoidLinks: set<Link>): View {
    View(g.AllLinks() - ex.links - avoidLinks, ex.nodes + avoidNodes)
  }

  lemma QueryViewBlocks(g: AdjacencyList, ex: Exclusion, avoidNodes: set<Node>, avoidLinks: set<Link>)
    ensures QueryView(g, ex, avoidNodes, avoidLinks).blocked == ex.nodes + avoidNodes
  {
  }

  /** The node a walk from `u` stands on after `i` links. */
  function At(u: Node, p: Links, i: nat): Node
    requires i <= |p|
  {
    if i == 0 then u else p[i - 1].dst
  }

  /** `p` leads from `u` to `v` using only what the view allows, both ends included. */
  ghost predicate IsWalk(view: View, u: Node, p: Links, v: Node) {
    && u !in view.blocked
    && At(u, p, |p|) == v
    && forall i :: 0 <= i < |p| ==> p[i] in view.links && p[i].src == At(u, p, i) && p[i].dst !in view.blocked
  }

  /** No node is visited twice. */
  ghost predicate Simple(u: Node, p: Links) {
    forall i, j :: 0 <= i < j <= |p| ==> At(u, p, i) != At(u, p, j)
  }

  function Delay(p: Links): nat {
    if p == [] then 0 else Delay(p[..|p| - 1]) + p[|p| - 1].delay
  }

  lemma {:induction false} DelayConcat(p: Links, q: Links)
    ensures Delay(p + q) == Delay(p) + Delay(q)
  {
    if q == [] {
      assert p + q == p;
    } else {
      DelayConcat(p, q[..|q| - 1]);
      assert (p + q)[..|p + q| - 1] == p + q[..|q| - 1];
    }
  }

  lemma DelaySnoc(p: Links, l: Link)
    ensures Delay(p + [l]) == Delay(p) + l.delay
  {
    assert (p + [l])[..|p + [l]| - 1] == p;
  }

  lemma SingleLink(view: View, l: Link)
    requires l in view.links && l.src !in view.blocked && l.dst !in view.blocked
    ensures IsWalk(view, l.src, [l], l.dst) && Delay([l]) == l.delay
  {
    assert Delay([l]) == l.delay by {
      hide IsWalk;
      assert [l][..0] == [] && [l][0] == l;
    }
    hide Delay;
  }

  lemma WalkConcat(view: View, u: Node, p: Links, v: Node, q: Links, w: Node)
    requires IsWalk(view, u, p, v) && IsWalk(view, v, q, w)
    ensures IsWalk(view, u, p + q, w)
  {
    var r := p + q;
    forall i | 0 <= i < |r|
      ensures r[i] in view.links && r[i].src == At(u, r, i) && r[i].dst !in view.blocked
    {
      if i < |p| {
        assert At(u, r, i) == At(u, p, i);
      } else {
        assert r[i] == q[i - |p|];
        assert At(u, r, i) == At(v, q, i - |p|);
      }
    }
  }

  lemma DelaySplit(p: Links, n: nat)
    requires n <= |p|
    ensures Delay(p) == Delay(p[..n]) + Delay(p[n..])
  {
    assert p == p[..n] + p[n..];
    DelayConcat(p[..n], p[n..]);
  }

  lemma WalkSplit(view: View, u: Node, p: Links, v: Node, n: nat)
    requires IsWalk(view, u, p, v) && n <= |p|
    ensures IsWalk(view, u, p[..n], At(u, p, n))
    ensures IsWalk(view, At(u, p, n), p[n..], v)
  {
    var q, m := p[n..], At(u, p, n);
    assert n > 0 ==> p[n - 1].dst == m;
    forall i | 0 <= i < |q|
      ensures q[i] in view.links && q[i].src == At(m, q, i) && q[i].dst !in view.blocked
    {
      assert q[i] == p[n + i];
      assert At(m, q, i) == At(u, p, n + i);
    }
    assert At(m, q, |q|) == v;
    var r := p[..n];
    forall i | 0 <= i < |r|
      ensures r[i] in view.links && r[i].src == At(u, r, i) && r[i].dst !in view.blocked
    {
      assert r[i] == p[i];
      assert At(u, r, i) == At(u, p, i);
    }
  }

  lemma SimpleConcat(u: Node, p: Links, v: Node, q: Links)
    requires Simple(u, p) && Simple(v, q) && At(u, p, |p|) == v
    requires forall a, b :: 0 <= a < |p| && 0 <= b <= |q| ==> At(u, p, a) != At(v, q, b)
    ensures Simple(u, p + q)
  {
    var r := p + q;
    assert forall a :: 0 <= a <= |p| ==> At(u, r, a) == At(u, p, a);
    assert forall a :: |p| <= a <= |r| ==> At(u, r, a) == At(v, q, a - |p|);
    hide At;
  }

  lemma SimpleSplit(u: Node, p: Links, n: nat)
    requires Simple(u, p) && n <= |p|
    ensures Simple(u, p[..n])
    ensures forall a :: 0 <= a <= n ==> At(u, p[..n], a) == At(u, p, a)
  {
    assert forall a :: 0 <= a <= n ==> At(u, p[..n], a) == At(u, p, a);
    hide At;
  }
}
