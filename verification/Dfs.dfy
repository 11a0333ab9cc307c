/** Depth-first enumeration of the walks between two nodes, subject to constraints, and the
    test of a walk against the sets that it has to visit in order. */
module Dfs {
  import opened Basics
  import opened Graphs
  import Yen

  // ---------- constraints ----------

  /** Exclusions and the number of sets to visit, with the set that each node belongs to. */
  datatype ConstraintSet = ConstraintSet(ex: Exclusion, visitCount: nat, visitIndex: map<Node, nat>) {
    ghost predicate Valid() {
      forall n <- visitIndex :: visitIndex[n] < visitCount
    }
  }

  /** Set indices of the nodes after the first `n` links, the first node included. */
  function Visited(c: ConstraintSet, links: Links, n: nat): seq<nat>
    requires links != [] && n <= |links|
  {
    var node := if n == 0 then links[0].src else links[n - 1].dst;
    (if n == 0 then [] else Visited(c, links, n - 1)) + (if node in c.visitIndex then [c.visitIndex[node]] else [])
  }

  /** A walk complies when it visits the sets in order, each of them at least once. */
  ghost predicate Complies(c: ConstraintSet, links: Links) {
    if links == [] then c.visitCount == 0
    else
      var visited := Visited(c, links, |links|);
      && Sorted(visited)
      && (forall k: nat :: k < c.visitCount ==> k in visited)
  }

  /** The indices seen so far go up by at most one at a time and end at `current`. */
  ghost predicate InOrder(visited: seq<nat>, current: int) {
    && Sorted(visited)
    && (forall k :: 0 <= k <= current ==> k in visited)
    && (if visited == [] then current == -1 else current == visited[|visited| - 1])
  }

  lemma InOrderStep(visited: seq<nat>, current: int, i: nat)
    requires InOrder(visited, current) && (i == current || i == current + 1)
    ensures InOrder(visited + [i], i)
  {
    var v := visited + [i];
    forall k | 0 <= k <= i ensures k in v {
      if k <= current {
        assert k in visited;
      } else {
        assert v[|visited|] == k;
      }
    }
  }

  ghost predicate Sorted(s: seq<nat>) {
    forall i, j :: 0 <= i < j < |s| ==> s[i] <= s[j]
  }

  /** A sorted list that goes on after a gap never fills it. */
  lemma GapStays(all: seq<nat>, visited: seq<nat>, current: int, i: nat)
    requires InOrder(visited, current) && visited + [i] <= all && Sorted(all) && i > current + 1
    ensures 0 <= current + 1 && current + 1 !in all
  {
    var n := |visited|;
    forall j | 0 <= j < |all| ensures all[j] != current + 1 {
      assert j < n ==> all[j] == visited[j];
      assert j < n - 1 ==> visited[j] <= visited[n - 1];
      assert n < j ==> all[n] <= all[j];
    }
  }

  lemma BackIsUnsorted(all: seq<nat>, visited: seq<nat>, current: int, i: nat)
    requires InOrder(visited, current) && visited + [i] <= all && i < current
    ensures !Sorted(all)
  {
    var n := |visited|;
    assert all[n - 1] == visited[n - 1] && all[n] == i;
  }

  /** Once an index is out of step, no walk that goes on from there complies. */
  lemma OutOfStep(c: ConstraintSet, links: Links, n: nat, visited: seq<nat>, current: int, i: nat)
    requires c.Valid() && links != [] && n <= |links| && InOrder(visited, current)
    requires Visited(c, links, n) == visited + [i] && i != current && i != current + 1 && i < c.visitCount
    ensures !Complies(c, links) && forall m :: !InStep(c, links, m)
  {
    hide Visited, InOrder, Sorted;
    VisitedGrows(c, links, n, |links|);
    var all := Visited(c, links, |links|);
    if i < current {
      BackIsUnsorted(all, visited, current, i);
    } else if Sorted(all) {
      GapStays(all, visited, current, i);
    }
    forall last: int ensures !InOrder(all, last) {
      if Sorted(all) {
        GapHasNoEnd(all, visited, current, i, last);
      } else {
        InOrderIsSorted(all, last);
      }
    }
  }

  lemma InOrderIsSorted(all: seq<nat>, last: int)
    ensures InOrder(all, last) ==> Sorted(all)
  {
  }

  lemma GapHasNoEnd(all: seq<nat>, visited: seq<nat>, current: int, i: nat, last: int)
    requires InOrder(visited, current) && visited + [i] <= all && Sorted(all) && current + 1 !in all && -1 <= current
    ensures current + 1 < i ==> !InOrder(all, last)
  {
    assert all[|visited|] == i;
  }

  /** The walk has visited exactly the first `m` sets, in order. The empty walk has visited none. */
  ghost predicate InStep(c: ConstraintSet, links: Links, m: nat) {
    if links == [] then m == 0 else InOrder(Visited(c, links, |links|), m - 1)
  }

  /** The first index out of step is the one at `k`, after indices that end at `current`; the
      search resumes behind the smaller of the two. */
  ghost predicate Stumbles(c: ConstraintSet, links: Links, k: nat, current: int, r: nat) {
    && links != []
    && var all := Visited(c, links, |links|);
       && k < |all| && InOrder(all[..k], current) && all[k] != current && all[k] != current + 1
       && r == (if all[k] < current then all[k] else current) + 1
  }

  lemma StumblesHere(c: ConstraintSet, links: Links, n: nat, visited: seq<nat>, current: int, i: nat)
    requires links != [] && n <= |links| && InOrder(visited, current) && -1 <= current
    requires Visited(c, links, n) == visited + [i] && i != current && i != current + 1
    ensures Stumbles(c, links, |visited|, current, (if i < current then i else current) + 1)
  {
    VisitedGrows(c, links, n, |links|);
    hide Visited, InOrder;
    var all := Visited(c, links, |links|);
    assert (visited + [i])[|visited|] == i && all[..|visited|] == visited;
  }

  lemma {:induction false} VisitedGrows(c: ConstraintSet, links: Links, n: nat, m: nat)
    requires links != [] && n <= m <= |links|
    ensures Visited(c, links, n) <= Visited(c, links, m)
    decreases m - n
  {
    if n < m {
      VisitedGrows(c, links, n, m - 1);
    }
  }

  lemma EmptyInStep(c: ConstraintSet)
    ensures forall m :: InStep(c, [], m) <==> m == 0
  {
  }

  lemma EmptyComplies(c: ConstraintSet)
    ensures Complies(c, []) <==> c.visitCount == 0
  {
  }

  lemma AllBelow(c: ConstraintSet)
    requires c.Valid()
    ensures forall n <- c.visitIndex :: c.visitIndex[n] < c.visitCount
  {
  }

  lemma VisitedStep(c: ConstraintSet, links: Links, n: nat)
    requires links != [] && n < |links|
    ensures Visited(c, links, n + 1) ==
            Visited(c, links, n) + (if links[n].dst in c.visitIndex then [c.visitIndex[links[n].dst]] else [])
  {
  }

  lemma VisitedFirst(c: ConstraintSet, links: Links)
    requires links != []
    ensures Visited(c, links, 0) == if links[0].src in c.visitIndex then [c.visitIndex[links[0].src]] else []
    ensures InOrder([], -1)
  {
  }

  /** Returns the number of sets exactly for walks that comply, for every walk in step the number
      of sets that it has visited, and for any other walk the place to resume from. */
  method MinVisit(c: ConstraintSet, links: Links) returns (r: nat)
    requires c.Valid()
    ensures r <= c.visitCount
    ensures r == c.visitCount <==> Complies(c, links)
    ensures forall m :: InStep(c, links, m) ==> r == m
    ensures InStep(c, links, r) || exists k: nat, current: int :: Stumbles(c, links, k, current, r)
  {
    hide *;
    AllBelow(c);
    if links == [] {
      EmptyComplies(c);
      EmptyInStep(c);
      return 0;
    }
    var current := -1;
    var pathSrc := links[0].src;
    VisitedFirst(c, links);
    if pathSrc in c.visitIndex {
      var i := c.visitIndex[pathSrc];
      assert [] + [i] == [i];
      if current != i && current + 1 != i {
        OutOfStep(c, links, 0, [], -1, i);
        StumblesHere(c, links, 0, [], -1, i);
        return current + 1;
      }
      InOrderStep([], -1, i);
      current := i;
    }
    for n := 0 to |links|
      invariant -1 <= current < c.visitCount
      invariant InOrder(Visited(c, links, n), current)
    {
      var dst := links[n].dst;
      ghost var visited := Visited(c, links, n);
      VisitedStep(c, links, n);
      if dst in c.visitIndex {
        var i := c.visitIndex[dst];
        if i < current {
          OutOfStep(c, links, n + 1, visited, current, i);
          StumblesHere(c, links, n + 1, visited, current, i);
          return i + 1;
        }
        if current != i && current + 1 != i {
          OutOfStep(c, links, n + 1, visited, current, i);
          StumblesHere(c, links, n + 1, visited, current, i);
          return current + 1;
        }
        InOrderStep(visited, current, i);
        current := i;
      } else {
        assert visited + [] == visited;
      }
    }
    r := current + 1;
    AtEnd(c, links, current);
  }

  lemma AtEnd(c: ConstraintSet, links: Links, current: int)
    requires c.Valid() && links != [] && -1 <= current < c.visitCount && InOrder(Visited(c, links, |links|), current)
    ensures Complies(c, links) <==> current + 1 == c.visitCount
    ensures InStep(c, links, current + 1) && forall m :: InStep(c, links, m) ==> current + 1 == m
  {
    var visited := Visited(c, links, |links|);
    if current + 1 < c.visitCount {
      var k: nat := current + 1;
      assert k !in visited;
    }
  }

  // ---------- what the enumeration lists ----------

  /** A limit that is absent is the largest value of its type. */
  datatype Config = Config(simple: bool, maxDistance: Option<nat>, maxHops: Option<nat>)

  datatype Problem = Problem(config: Config, dst: Node, g: AdjacencyList, c: ConstraintSet)

  predicate Exceeds(n: nat, limit: Option<nat>) {
    limit.Some? && n > limit.value
  }

  ghost predicate Within(n: nat, limit: Option<nat>) {
    forall most :: limit == Some(most) ==> n <= most
  }

  /** Where the search stands: what it has seen and the walk it has built. */
  datatype Trail = Trail(linksSeen: set<Link>, nodesSeen: set<Node>, current: Links, distance: nat)

  ghost predicate MayFollow(pr: Problem, l: Link) {
    l in pr.g.AllLinks() && l !in pr.c.ex.links && l.dst !in pr.c.ex.nodes
  }

  ghost predicate Connected(u: Node, p: Links) {
    forall i :: 0 <= i < |p| ==> p[i].src == At(u, p, i)
  }

  /** Nothing is used twice: nodes before the end in simple mode, links otherwise. */
  ghost predicate NoRepeats(pr: Problem, t: Trail, u: Node, p: Links) {
    if pr.config.simple then
      && (forall i, j :: 0 <= i < j < |p| ==> At(u, p, i) != At(u, p, j))
      && (forall i :: 0 <= i < |p| ==> At(u, p, i) !in t.nodesSeen)
    else
      && (forall i, j :: 0 <= i < j < |p| ==> p[i] != p[j])
      && (forall i :: 0 <= i < |p| ==> p[i] !in t.linksSeen)
  }

  /** `p` completes the trail from `u`: it follows allowed links to the destination, stops
      when it first gets there, repeats nothing and stays within the limits. The distance
      limit applies to every node before the destination. */
  ghost predicate Completes(pr: Problem, t: Trail, u: Node, p: Links) {
    && Follows(pr, u, p)
    && NoRepeats(pr, t, u, p)
    && Within(|t.current| + |p|, pr.config.maxHops)
    && WithinDistance(pr, t.distance, p)
    && Complies(pr.c, t.current + p)
  }

  function Extended(pr: Problem, t: Trail, l: Link): Trail {
    Trail(if pr.config.simple then t.linksSeen else t.linksSeen + {l},
          if pr.config.simple then t.nodesSeen + {l.src} else t.nodesSeen,
          t.current + [l], t.distance + l.delay)
  }

  /** At the destination only the empty completion is left. */
  lemma CompletesAtEnd(pr: Problem, t: Trail, p: Links)
    ensures Completes(pr, t, pr.dst, p) <==>
            p == [] && Within(|t.current|, pr.config.maxHops) && Complies(pr.c, t.current)
  {
    if p == [] {
      assert t.current + p == t.current;
    } else {
      assert At(pr.dst, p, 0) == pr.dst;
    }
  }

  lemma TailNodes(l: Link, p: Links)
    ensures forall i :: 0 <= i <= |p| ==> At(l.src, [l] + p, i + 1) == At(l.dst, p, i)
  {
  }

  lemma NoRepeatsCons(pr: Problem, t: Trail, l: Link, p: Links)
    ensures NoRepeats(pr, t, l.src, [l] + p) <==>
            (if pr.config.simple then l.src !in t.nodesSeen else l !in t.linksSeen)
            && NoRepeats(pr, Extended(pr, t, l), l.dst, p)
  {
    var q := [l] + p;
    TailNodes(l, p);
    assert forall i :: 0 < i < |q| ==> q[i] == p[i - 1] && At(l.src, q, i) == At(l.dst, p, i - 1);
    assert At(l.src, q, 0) == l.src && q[0] == l;
    hide At;
    var t' := Extended(pr, t, l);
    if NoRepeats(pr, t, l.src, q) {
      if pr.config.simple {
        forall i | 0 <= i < |p|
          ensures At(l.dst, p, i) !in t'.nodesSeen && forall j :: i < j < |p| ==> At(l.dst, p, i) != At(l.dst, p, j)
        {
          assert At(l.src, q, i + 1) != At(l.src, q, 0);
          forall j | i < j < |p| ensures At(l.dst, p, i) != At(l.dst, p, j) {
            assert At(l.src, q, i + 1) != At(l.src, q, j + 1);
          }
        }
      } else {
        forall i | 0 <= i < |p| ensures p[i] !in t'.linksSeen && forall j :: i < j < |p| ==> p[i] != p[j] {
          assert q[i + 1] != q[0];
          forall j | i < j < |p| ensures p[i] != p[j] {
            assert q[i + 1] != q[j + 1];
          }
        }
      }
    }
  }

  lemma DelayCons(l: Link, p: Links)
    ensures Delay([l] + p) == l.delay + Delay(p)
  {
    DelayConcat([l], p);
    assert [l] == [] + [l];
    DelaySnoc([], l);
  }

  ghost predicate WithinDistance(pr: Problem, d: nat, p: Links) {
    forall i :: 0 <= i < |p| ==> Within(d + Delay(p[..i]), pr.config.maxDistance)
  }

  lemma WithinDistanceCons(pr: Problem, d: nat, l: Link, p: Links)
    ensures WithinDistance(pr, d, [l] + p) <==> Within(d, pr.config.maxDistance) && WithinDistance(pr, d + l.delay, p)
  {
    var q := [l] + p;
    assert q[..0] == [];
    forall i | 0 <= i < |p| ensures Delay(q[..i + 1]) == l.delay + Delay(p[..i]) {
      assert q[..i + 1] == [l] + p[..i];
      DelayCons(l, p[..i]);
    }
    assert Delay(q[..0]) == 0;
    hide Delay;
    if WithinDistance(pr, d, q) {
      assert Within(d + Delay(q[..0]), pr.config.maxDistance);
      forall i | 0 <= i < |p| ensures Within(d + l.delay + Delay(p[..i]), pr.config.maxDistance) {
        assert Within(d + Delay(q[..i + 1]), pr.config.maxDistance);
      }
    }
    if Within(d, pr.config.maxDistance) && WithinDistance(pr, d + l.delay, p) {
      forall i | 0 <= i < |q| ensures Within(d + Delay(q[..i]), pr.config.maxDistance) {
        if i > 0 {
          assert Delay(q[..i - 1 + 1]) == l.delay + Delay(p[..i - 1]);
        }
      }
    }
  }

  ghost predicate Follows(pr: Problem, u: Node, p: Links) {
    && Connected(u, p) && At(u, p, |p|) == pr.dst
    && forall i :: 0 <= i < |p| ==> MayFollow(pr, p[i]) && At(u, p, i) != pr.dst
  }

  lemma FollowsCons(pr: Problem, l: Link, p: Links)
    ensures Follows(pr, l.src, [l] + p) <==> MayFollow(pr, l) && l.src != pr.dst && Follows(pr, l.dst, p)
  {
    var q := [l] + p;
    TailNodes(l, p);
    assert forall i :: 0 <= i < |p| ==> q[i + 1] == p[i];
    assert At(l.src, q, 0) == l.src && q[0] == l;
    assert At(l.src, q, |q|) == At(l.dst, p, |p|);
    hide At, MayFollow;
    if Follows(pr, l.src, q) {
      forall i | 0 <= i < |p| ensures p[i].src == At(l.dst, p, i) && MayFollow(pr, p[i]) && At(l.dst, p, i) != pr.dst {
        assert q[i + 1].src == At(l.src, q, i + 1) && MayFollow(pr, q[i + 1]) && At(l.src, q, i + 1) != pr.dst;
      }
    }
    if MayFollow(pr, l) && l.src != pr.dst && Follows(pr, l.dst, p) {
      forall i | 0 <= i < |q| ensures q[i].src == At(l.src, q, i) && MayFollow(pr, q[i]) && At(l.src, q, i) != pr.dst {
        if i > 0 {
          assert At(l.src, q, i - 1 + 1) == At(l.dst, p, i - 1);
        }
      }
    }
  }

  /** Before the destination a completion is an allowed, unused link and a completion of
      the trail that it extends. */
  lemma CompletesCons(pr: Problem, t: Trail, l: Link, p: Links)
    ensures Completes(pr, t, l.src, [l] + p) <==>
            && MayFollow(pr, l) && l.src != pr.dst
            && (if pr.config.simple then l.src !in t.nodesSeen else l !in t.linksSeen)
            && Within(t.distance, pr.config.maxDistance)
            && Completes(pr, Extended(pr, t, l), l.dst, p)
  {
    FollowsCons(pr, l, p);
    NoRepeatsCons(pr, t, l, p);
    WithinDistanceCons(pr, t.distance, l, p);
    assert t.current + ([l] + p) == (t.current + [l]) + p;
    hide Follows, NoRepeats, WithinDistance, MayFollow;
  }

  // ---------- the search ----------

  /** The walks handed to the callback for completions `found` of a trail. */
  function Recorded(t: Trail, found: seq<Links>): seq<Walk> {
    seq(|found|, i requires 0 <= i < |found| => Walk(t.current + found[i], t.distance + Delay(found[i])))
  }

  function Prepended(l: Link, found: seq<Links>): seq<Links> {
    seq(|found|, i requires 0 <= i < |found| => [l] + found[i])
  }

  lemma RecordedPrepended(pr: Problem, t: Trail, l: Link, before: seq<Links>, found: seq<Links>)
    ensures Recorded(t, before) + Recorded(Extended(pr, t, l), found) == Recorded(t, before + Prepended(l, found))
  {
    forall i | 0 <= i < |found|
      ensures Recorded(Extended(pr, t, l), found)[i] == Recorded(t, before + Prepended(l, found))[|before| + i]
    {
      DelayCons(l, found[i]);
      assert t.current + [l] + found[i] == t.current + ([l] + found[i]);
      assert (before + Prepended(l, found))[|before| + i] == [l] + found[i];
    }
    hide Delay;
  }

  /** `found` lists, once each, the completions from `u` whose first link is in `firsts`. */
  ghost predicate ListsFrom(pr: Problem, t: Trail, u: Node, firsts: seq<Link>, found: seq<Links>) {
    && NoDuplicates(found)
    && forall p :: p in found <==> p != [] && p[0] in firsts && Completes(pr, t, u, p)
  }

  ghost predicate Lists(pr: Problem, t: Trail, u: Node, found: seq<Links>) {
    && NoDuplicates(found)
    && forall p :: p in found <==> Completes(pr, t, u, p)
  }

  lemma ConsTail(p: Links)
    requires p != []
    ensures p == [p[0]] + p[1..]
  {
  }

  lemma PrependedIn(l: Link, found: seq<Links>, p: Links)
    ensures p in Prepended(l, found) <==> p != [] && p[0] == l && p[1..] in found
  {
    if p != [] && p[0] == l && p[1..] in found {
      var i :| 0 <= i < |found| && found[i] == p[1..];
      assert Prepended(l, found)[i] == [l] + p[1..] == p;
    }
    if p in Prepended(l, found) {
      var i :| 0 <= i < |found| && Prepended(l, found)[i] == p;
      assert p == [l] + found[i];
      assert p[1..] == found[i];
    }
  }

  lemma PrependedDistinct(l: Link, found: seq<Links>, firsts: seq<Link>, before: seq<Links>)
    requires NoDuplicates(found) && NoDuplicates(before) && l !in firsts
    requires forall p <- before :: p != [] && p[0] in firsts
    ensures NoDuplicates(before + Prepended(l, found))
  {
    var all := before + Prepended(l, found);
    forall i, j | 0 <= i < j < |all| ensures all[i] != all[j] {
      if j >= |before| {
        assert all[j] == [l] + found[j - |before|];
        if i >= |before| {
          assert all[i] == [l] + found[i - |before|];
          assert all[i][1..] == found[i - |before|] && all[j][1..] == found[j - |before|];
        } else {
          assert all[i] in before;
        }
      }
    }
  }

  ghost predicate Fresh(pr: Problem, t: Trail, l: Link) {
    if pr.config.simple then l.src !in t.nodesSeen else l !in t.linksSeen
  }

  /** Taking the next link adds the completions through it. */
  lemma ListsOneMore(pr: Problem, t: Trail, firsts: seq<Link>, before: seq<Links>, l: Link, found: seq<Links>)
    requires ListsFrom(pr, t, l.src, firsts, before) && l !in firsts
    requires MayFollow(pr, l) && l.src != pr.dst && Fresh(pr, t, l) && Within(t.distance, pr.config.maxDistance)
    requires Lists(pr, Extended(pr, t, l), l.dst, found)
    ensures ListsFrom(pr, t, l.src, firsts + [l], before + Prepended(l, found))
  {
    hide Completes, MayFollow;
    PrependedDistinct(l, found, firsts, before);
    forall p
      ensures p in before + Prepended(l, found) <==> p != [] && p[0] in firsts + [l] && Completes(pr, t, l.src, p)
    {
      PrependedIn(l, found, p);
      if p != [] && p[0] == l {
        ConsTail(p);
        CompletesCons(pr, t, l, p[1..]);
      }
    }
  }

  /** A link that is skipped starts no completion. */
  lemma ListsSkip(pr: Problem, t: Trail, firsts: seq<Link>, before: seq<Links>, l: Link)
    requires ListsFrom(pr, t, l.src, firsts, before)
    requires !MayFollow(pr, l) || !Fresh(pr, t, l)
    ensures ListsFrom(pr, t, l.src, firsts + [l], before)
  {
    hide Completes, MayFollow;
    forall p ensures p in before <==> p != [] && p[0] in firsts + [l] && Completes(pr, t, l.src, p) {
      if p != [] && p[0] == l {
        ConsTail(p);
        CompletesCons(pr, t, l, p[1..]);
      }
    }
  }

  /** A completion before the destination starts with a link of the node. */
  lemma FirstLink(pr: Problem, t: Trail, u: Node, p: Links)
    requires pr.g.Valid() && u != pr.dst && Completes(pr, t, u, p)
    ensures p != [] && p[0] in pr.g.Neighbors(u) && p[0].src == u && Fresh(pr, t, p[0])
    ensures Within(t.distance, pr.config.maxDistance)
  {
    assert p != [];
    assert p[0].src == At(u, p, 0) && MayFollow(pr, p[0]);
    pr.g.NeighborsAreLinks(u);
    ConsTail(p);
    hide Completes, MayFollow;
    CompletesCons(pr, t, p[0], p[1..]);
  }

  lemma ListsAll(pr: Problem, t: Trail, u: Node, found: seq<Links>)
    requires pr.g.Valid() && u != pr.dst && ListsFrom(pr, t, u, pr.g.Neighbors(u), found)
    ensures Lists(pr, t, u, found)
  {
    hide Completes;
    forall p | Completes(pr, t, u, p) ensures p != [] && p[0] in pr.g.Neighbors(u) {
      FirstLink(pr, t, u, p);
    }
  }

  lemma ListsNothing(pr: Problem, t: Trail, u: Node)
    requires pr.g.Valid()
    requires || Exceeds(|t.current|, pr.config.maxHops)
             || (u != pr.dst && Exceeds(t.distance, pr.config.maxDistance))
             || (u != pr.dst && pr.config.simple && u in t.nodesSeen)
    ensures Lists(pr, t, u, [])
  {
    forall p ensures !Completes(pr, t, u, p) {
      if Within(|t.current|, pr.config.maxHops) && Completes(pr, t, u, p) {
        FirstLink(pr, t, u, p);
      }
    }
  }

  lemma ListsEnd(pr: Problem, t: Trail, found: seq<Links>)
    requires found == if Within(|t.current|, pr.config.maxHops) && Complies(pr.c, t.current) then [[]] else []
    ensures Lists(pr, t, pr.dst, found)
  {
    forall p ensures p in found <==> Completes(pr, t, pr.dst, p) {
      CompletesAtEnd(pr, t, p);
    }
  }

  lemma NothingListed(pr: Problem, t: Trail, u: Node)
    ensures ListsFrom(pr, t, u, [], []) && Recorded(t, []) == []
  {
  }

  lemma MayFollowIs(pr: Problem, l: Link)
    requires l in pr.g.AllLinks()
    ensures MayFollow(pr, l) <==> l !in pr.c.ex.links && l.dst !in pr.c.ex.nodes
  {
  }

  ghost function Measure(g: AdjacencyList, t: Trail, at: Node): nat {
    |g.AllNodes() + {at} - t.nodesSeen| + |g.AllLinks() - t.linksSeen|
  }

  lemma SubsetSmaller<T>(a: set<T>, b: set<T>)
    requires a <= b
    ensures |a| <= |b| && (a != b ==> |a| < |b|)
  {
    var rest := b - a;
    assert b == a + rest;
    if a != b {
      var x :| x in rest;
    }
  }

  /** Each link taken uses up a node or a link. */
  lemma MeasureDrops(pr: Problem, t: Trail, l: Link)
    requires pr.g.Valid() && l in pr.g.AllLinks() && Fresh(pr, t, l)
    ensures Measure(pr.g, Extended(pr, t, l), l.dst) < Measure(pr.g, t, l.src)
  {
    var g, t' := pr.g, Extended(pr, t, l);
    g.EndsAreNodes(l);
    hide AdjacencyList.AllLinks, AdjacencyList.AllNodes;
    var a, b := g.AllNodes() + {l.dst} - t'.nodesSeen, g.AllNodes() + {l.src} - t.nodesSeen;
    var c, d := g.AllLinks() - t'.linksSeen, g.AllLinks() - t.linksSeen;
    if pr.config.simple {
      assert l.src in b && l.src !in a;
    } else {
      assert l in d && l !in c;
    }
    SubsetSmaller(a, b);
    SubsetSmaller(c, d);
  }

  class Search {
    const pr: Problem
    var linksSeen: set<Link>
    var nodesSeen: set<Node>
    var current: Links
    var totalDistance: nat
    /** The walks that the callback has received. */
    var walks: seq<Walk>

    constructor (pr: Problem)
      ensures this.pr == pr && Here() == Trail({}, {}, [], 0) && walks == []
    {
      this.pr := pr;
      linksSeen, nodesSeen, current, totalDistance, walks := {}, {}, [], 0, [];
    }

    ghost function Here(): Trail
      reads this
    {
      Trail(linksSeen, nodesSeen, current, totalDistance)
    }

    /** Calls back once for each completion of the current trail and leaves the scratch
        state as it was. */
    method PathsRecursive(at: Node) returns (ghost found: seq<Links>)
      requires pr.g.Valid() && pr.c.Valid()
      modifies this
      ensures Here() == old(Here())
      ensures walks == old(walks) + Recorded(old(Here()), found)
      ensures Lists(pr, old(Here()), at, found)
      decreases Measure(pr.g, Here(), at)
    {
      hide Lists, ListsFrom, Completes, Complies, Delay, AdjacencyList.AllLinks;
      ghost var here := Here();
      if Exceeds(|current|, pr.config.maxHops) {
        ListsNothing(pr, here, at);
        return [];
      }
      if at == pr.dst {
        var minV := MinVisit(pr.c, current);
        if minV != pr.c.visitCount {
          ListsEnd(pr, here, []);
          return [];
        }
        walks := walks + [Walk(current, totalDistance)];
        found := [[]];
        ListsEnd(pr, here, found);
        EmptyCompletion(here);
        return;
      }
      if Exceeds(totalDistance, pr.config.maxDistance) {
        ListsNothing(pr, here, at);
        return [];
      }
      if pr.config.simple {
        if at in nodesSeen {
          ListsNothing(pr, here, at);
          return [];
        }
        nodesSeen := nodesSeen + {at};
      }
      var outgoing := pr.g.Neighbors(at);
      found := SearchLinks(at, outgoing, here);
      if pr.config.simple {
        nodesSeen := nodesSeen - {at};
      }
      ListsAll(pr, here, at, found);
    }

    method SearchLinks(at: Node, outgoing: seq<Link>, ghost here: Trail) returns (ghost found: seq<Links>)
      requires pr.g.Valid() && pr.c.Valid() && outgoing == pr.g.Neighbors(at) && at != pr.dst
      requires Here() == here.(nodesSeen := if pr.config.simple then here.nodesSeen + {at} else here.nodesSeen)
      requires pr.config.simple ==> at !in here.nodesSeen
      requires Within(here.distance, pr.config.maxDistance)
      modifies this
      ensures Here() == old(Here())
      ensures walks == old(walks) + Recorded(here, found)
      ensures ListsFrom(pr, here, at, outgoing, found)
      decreases Measure(pr.g, here, at), 0
    {
      hide Lists, ListsFrom, Completes, MayFollow, Delay, Recorded, Prepended,
           AdjacencyList.AllLinks, AdjacencyList.AllNodes,
           AdjacencyList.Neighbors, AdjacencyList.Valid, ConstraintSet.Valid, Measure, Exceeds, Within;
      found := [];
      pr.g.NeighborsAreLinks(at);
      pr.g.NeighborsDistinct(at);
      NothingListed(pr, here, at);
      assert outgoing[..0] == [];
      for k := 0 to |outgoing|
        invariant Here() == old(Here())
        invariant walks == old(walks) + Recorded(here, found)
        invariant ListsFrom(pr, here, at, outgoing[..k], found)
      {
        var link := outgoing[k];
        assert outgoing[..k + 1] == outgoing[..k] + [link];
        MayFollowIs(pr, link);
        if link in pr.c.ex.links {
          ListsSkip(pr, here, outgoing[..k], found, link);
          continue;
        }
        var nextHop := link.dst;
        if nextHop in pr.c.ex.nodes {
          ListsSkip(pr, here, outgoing[..k], found, link);
          continue;
        }
        if !pr.config.simple {
          if link in linksSeen {
            ListsSkip(pr, here, outgoing[..k], found, link);
            continue;
          }
          linksSeen := linksSeen + {link};
        }
        current := current + [link];
        totalDistance := totalDistance + link.delay;
        assert Here() == Extended(pr, here, link);
        MeasureDrops(pr, here, link);
        ghost var more := PathsRecursive(nextHop);
        totalDistance := totalDistance - link.delay;
        current := current[..|current| - 1];
        if !pr.config.simple {
          linksSeen := linksSeen - {link};
        }
        ListsOneMore(pr, here, outgoing[..k], found, link, more);
        RecordedPrepended(pr, here, link, found, more);
        found := found + Prepended(link, more);
      }
      assert outgoing[..|outgoing|] == outgoing;
    }
  }

  lemma EmptyCompletion(t: Trail)
    ensures Recorded(t, [[]]) == [Walk(t.current, t.distance)]
  {
    assert t.current + [] == t.current;
  }

  ghost function Start(): Trail {
    Trail({}, {}, [], 0)
  }

  function LinksOf(walks: seq<Walk>): (r: seq<Links>)
    ensures |r| == |walks|
  {
    seq(|walks|, i requires 0 <= i < |walks| => walks[i].links)
  }

  /** All walks between two nodes, in the order of the callback: the completions of the
      empty trail, each once, with its delay. */
  method Paths(src: Node, pr: Problem) returns (walks: seq<Walk>)
    requires pr.g.Valid() && pr.c.Valid()
    ensures Lists(pr, Start(), src, LinksOf(walks))
    ensures forall i :: 0 <= i < |walks| ==> walks[i].delay == Delay(walks[i].links)
  {
    hide Lists, Delay;
    var search := new Search(pr);
    ghost var found := search.PathsRecursive(src);
    walks := search.walks;
    forall i | 0 <= i < |found| ensures walks[i] == Walk(found[i], Delay(found[i])) {
      assert [] + found[i] == found[i];
    }
    assert LinksOf(walks) == found;
  }

  // ---------- the same paths as the generator of shortest paths ----------

  ghost predicate IsDefault(pr: Problem) {
    pr.config == Config(true, None, None) && pr.c.visitCount == 0 && pr.c.visitIndex == map[]
  }

  lemma {:induction false} NothingVisited(c: ConstraintSet, links: Links, n: nat)
    requires c.visitIndex == map[] && links != [] && n <= |links|
    ensures Visited(c, links, n) == []
  {
    if n > 0 {
      NothingVisited(c, links, n - 1);
    }
  }

  ghost predicate StopsAt(u: Node, p: Links, dst: Node) {
    At(u, p, |p|) == dst && forall i :: 0 <= i < |p| ==> At(u, p, i) != dst
  }

  lemma FollowsIsWalk(pr: Problem, u: Node, p: Links)
    requires u !in pr.c.ex.nodes
    ensures Follows(pr, u, p) <==> IsWalk(QueryView(pr.g, pr.c.ex, {}, {}), u, p, pr.dst) && StopsAt(u, p, pr.dst)
  {
    hide AdjacencyList.AllLinks, At;
  }

  lemma NoRepeatsIsSimple(pr: Problem, u: Node, p: Links)
    requires pr.config.simple && At(u, p, |p|) == pr.dst
    ensures Simple(u, p) <==> StopsAt(u, p, pr.dst) && NoRepeats(pr, Start(), u, p)
  {
    hide At;
    if Simple(u, p) {
      forall i | 0 <= i < |p| ensures At(u, p, i) != pr.dst {
        assert At(u, p, i) != At(u, p, |p|);
      }
    }
  }

  /** In the default mode without sets to visit, the enumeration lists exactly the paths
      that the generator of shortest paths lists. */
  lemma DefaultListsAdmissible(pr: Problem, src: Node, p: Links)
    requires pr.g.Valid() && IsDefault(pr) && src != pr.dst && src !in pr.c.ex.nodes
    ensures Completes(pr, Start(), src, p) <==> Yen.Admissible(QueryView(pr.g, pr.c.ex, {}, {}), src, pr.dst, p)
  {
    assert [] + p == p;
    if p != [] {
      NothingVisited(pr.c, p, |p|);
    }
    assert Complies(pr.c, p);
    hide Complies, Delay, Simple, NoRepeats, QueryView;
    FollowsIsWalk(pr, src, p);
    if At(src, p, |p|) == pr.dst {
      NoRepeatsIsSimple(pr, src, p);
    }
  }

  /** A complete list of the generator and a run of the enumeration hold the same paths. */
  lemma SamePathsAsGenerator(pr: Problem, src: Node, found: seq<Links>, ks: seq<Yen.Entry>, p: Links)
    requires pr.g.Valid() && IsDefault(pr) && src != pr.dst && src !in pr.c.ex.nodes
    requires Lists(pr, Start(), src, found)
    requires Yen.ListOk(QueryView(pr.g, pr.c.ex, {}, {}), src, pr.dst, ks)
    requires Yen.Complete(QueryView(pr.g, pr.c.ex, {}, {}), src, pr.dst, ks)
    ensures p in found <==> Yen.Listed(ks, p)
  {
    hide Completes, Yen.Admissible, QueryView;
    DefaultListsAdmissible(pr, src, p);
    Yen.AllEntriesOk(QueryView(pr.g, pr.c.ex, {}, {}), src, pr.dst, ks);
  }
}
