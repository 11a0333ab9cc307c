/** Yen's algorithm with Lawler's start indices: a generator of the simple paths between
    two nodes in order of delay. */
module Yen {
  import opened Basics
  import opened Graphs
  import opened Dijkstra
  import Trie

  /** A stored path with its delay and the index from which spurs are taken off it. */
  datatype Entry = Entry(links: Links, delay: nat, start: nat)

  /** The paths the generator is to list. */
  ghost predicate Admissible(view: View, src: Node, dst: Node, q: Links) {
    q != [] && IsWalk(view, src, q, dst) && Simple(src, q)
  }

  ghost predicate EntryOk(view: View, src: Node, dst: Node, e: Entry) {
    Admissible(view, src, dst, e.links) && e.delay == Delay(e.links) && e.start < |e.links|
  }

  ghost predicate Listed(ks: seq<Entry>, q: Links) {
    exists k :: 0 <= k < |ks| && ks[k].links == q
  }

  /** A path that may come next: admissible, not listed, and as short as any such path. */
  ghost predicate MayComeNext(view: View, src: Node, dst: Node, ks: seq<Entry>, c: Entry) {
    && Admissible(view, src, dst, c.links) && !Listed(ks, c.links) && c.delay == Delay(c.links)
    && forall q :: Admissible(view, src, dst, q) && !Listed(ks, q) ==> c.delay <= Delay(q)
  }

  ghost predicate Complete(view: View, src: Node, dst: Node, ks: seq<Entry>) {
    forall q :: Admissible(view, src, dst, q) ==> Listed(ks, q)
  }

  // ---------- slots: the paths that leave the listed ones right after a given root ----------

  ghost predicate RootOf(root: Links, q: Links) {
    |root| < |q| && root == q[..|root|]
  }

  ghost predicate IsRoot(ks: seq<Entry>, root: Links) {
    exists k :: 0 <= k < |ks| && RootOf(root, ks[k].links)
  }

  /** The links that listed paths take right after `root`. */
  ghost function Taken(ks: seq<Entry>, root: Links): set<Link> {
    set k | 0 <= k < |ks| && RootOf(root, ks[k].links) :: ks[k].links[|root|]
  }

  ghost predicate InSlot(view: View, src: Node, dst: Node, ks: seq<Entry>, root: Links, q: Links) {
    Admissible(view, src, dst, q) && RootOf(root, q) && q[|root|] !in Taken(ks, root)
  }

  function Root(c: Entry): Links {
    if c.start <= |c.links| then c.links[..c.start] else c.links
  }

  /** A candidate is a shortest path of the slot at its root. */
  ghost predicate CandidateOk(view: View, src: Node, dst: Node, ks: seq<Entry>, c: Entry) {
    && EntryOk(view, src, dst, c)
    && IsRoot(ks, Root(c))
    && c.links[c.start] !in Taken(ks, Root(c))
    && forall q :: InSlot(view, src, dst, ks, Root(c), q) ==> c.delay <= Delay(q)
  }

  /** Roots of the last listed path whose slots have not been searched yet. */
  ghost predicate Pending(ks: seq<Entry>, from: nat, root: Links) {
    ks != [] && from <= |root| && RootOf(root, ks[|ks| - 1].links)
  }

  ghost predicate ListOk(view: View, src: Node, dst: Node, ks: seq<Entry>) {
    && (forall k :: 0 <= k < |ks| ==> EntryOk(view, src, dst, ks[k]))
    && (forall j, k :: 0 <= j < k < |ks| ==> ks[j].links != ks[k].links && ks[j].delay <= ks[k].delay)
    && (ks != [] ==> forall q :: Admissible(view, src, dst, q) && !Listed(ks, q) ==> ks[|ks| - 1].delay <= Delay(q))
  }

  ghost predicate CandidatesOk(view: View, src: Node, dst: Node, ks: seq<Entry>, cands: multiset<Entry>) {
    && (forall c <- cands :: CandidateOk(view, src, dst, ks, c) && cands[c] == 1)
    && (forall c, d | c in cands && d in cands && Root(c) == Root(d) :: c == d)
  }

  ghost predicate HasCandidate(cands: multiset<Entry>, root: Links) {
    exists c <- cands :: Root(c) == root
  }

  /** Every searched slot that is not empty has its candidate, and no unsearched one has. */
  ghost predicate SlotsOk(view: View, src: Node, dst: Node, ks: seq<Entry>, cands: multiset<Entry>, from: nat) {
    && (forall root, q :: IsRoot(ks, root) && InSlot(view, src, dst, ks, root, q) && !Pending(ks, from, root) ==>
          HasCandidate(cands, root))
    && (forall c <- cands :: !Pending(ks, from, Root(c)))
  }

  ghost predicate GeneratorInv(view: View, src: Node, dst: Node, ks: seq<Entry>, cands: multiset<Entry>, from: nat) {
    && ListOk(view, src, dst, ks)
    && CandidatesOk(view, src, dst, ks, cands)
    && SlotsOk(view, src, dst, ks, cands, from)
  }

  // ---------- combinatorics of simple paths ----------

  /** A simple path to `dst` is not a proper prefix of another. */
  lemma NoProperPrefix(view: View, src: Node, dst: Node, p: Links, q: Links)
    requires Admissible(view, src, dst, p) && Admissible(view, src, dst, q)
    ensures p <= q ==> p == q
  {
    if p <= q {
      assert At(src, q, |p|) == At(src, p, |p|) == dst == At(src, q, |q|);
    }
  }

  /** Two different admissible paths that agree on `n` links both go on after them. */
  lemma BothContinue(view: View, src: Node, dst: Node, p: Links, q: Links, n: nat)
    requires Admissible(view, src, dst, p) && Admissible(view, src, dst, q) && p != q
    requires n <= |p| && n <= |q| && p[..n] == q[..n]
    ensures n < |p| && n < |q|
  {
    hide *;
    NoProperPrefix(view, src, dst, p, q);
    NoProperPrefix(view, src, dst, q, p);
    assert p[..|p|] == p && q[..|q|] == q;
  }

  /** An admissible path that is not listed leaves the listed ones after some root. */
  lemma {:induction false} UnlistedHasSlot(view: View, src: Node, dst: Node, ks: seq<Entry>, q: Links, k: nat, n: nat)
    returns (root: Links)
    requires forall k :: 0 <= k < |ks| ==> EntryOk(view, src, dst, ks[k])
    requires Admissible(view, src, dst, q) && !Listed(ks, q)
    requires k < |ks| && n <= |q| && n <= |ks[k].links| && ks[k].links[..n] == q[..n]
    ensures IsRoot(ks, root) && InSlot(view, src, dst, ks, root, q)
    decreases |q| - n
  {
    hide Admissible, Delay;
    assert EntryOk(view, src, dst, ks[k]);
    BothContinue(view, src, dst, ks[k].links, q, n);
    root := q[..n];
    assert RootOf(root, ks[k].links);
    if q[n] in Taken(ks, root) {
      var j :| 0 <= j < |ks| && RootOf(root, ks[j].links) && ks[j].links[n] == q[n];
      assert ks[j].links[..n + 1] == root + [q[n]] == q[..n + 1];
      root := UnlistedHasSlot(view, src, dst, ks, q, j, n + 1);
    }
  }

  // ---------- the spur search ----------

  ghost function TakenBetween(ks: seq<Entry>, last: Links, from: nat, to: nat): set<Link>
    requires to <= |last|
  {
    set j, l | from <= j < to && l in Taken(ks, last[..j]) :: l
  }

  ghost function NodesBefore(src: Node, last: Links, i: nat): set<Node>
    requires i <= |last|
  {
    set j | 0 <= j < i :: At(src, last, j)
  }

  /** What a spur from position `i` may use. The excluded links pile up over the roots
      searched in the same call. */
  ghost function SpurView(view: View, src: Node, ks: seq<Entry>, last: Links, from: nat, i: nat): View
    requires i < |last|
  {
    View(view.links - TakenBetween(ks, last, from, i + 1), view.blocked + NodesBefore(src, last, i))
  }

  /** Links taken after an earlier root leave from a node before the spur. */
  lemma TakenLeavesRoot(view: View, src: Node, dst: Node, ks: seq<Entry>, root: Links, l: Link)
    requires forall k :: 0 <= k < |ks| ==> EntryOk(view, src, dst, ks[k])
    requires l in Taken(ks, root)
    ensures l.src == At(src, root, |root|)
  {
    var k :| 0 <= k < |ks| && RootOf(root, ks[k].links) && ks[k].links[|root|] == l;
    assert EntryOk(view, src, dst, ks[k]);
    assert At(src, ks[k].links, |root|) == At(src, root, |root|);
    hide Simple;
  }

  lemma SharedNodes(src: Node, p: Links, q: Links, i: nat)
    requires i <= |p| && i <= |q| && p[..i] == q[..i]
    ensures forall j :: 0 <= j <= i ==> At(src, p, j) == At(src, q, j) == At(src, p[..j], j)
  {
    forall j | 0 <= j <= i ensures At(src, p, j) == At(src, q, j) == At(src, p[..j], j) {
      if j > 0 {
        assert p[j - 1] == p[..i][j - 1] == q[j - 1];
      }
    }
  }

  lemma SlotLinkNotTaken(view: View, src: Node, dst: Node, ks: seq<Entry>, last: Links, i: nat, q: Links, m: nat,
                         j: nat)
    requires forall k :: 0 <= k < |ks| ==> EntryOk(view, src, dst, ks[k])
    requires j <= i < |last| && InSlot(view, src, dst, ks, last[..i], q) && i <= m < |q|
    ensures q[m] !in Taken(ks, last[..j])
  {
    if q[m] in Taken(ks, last[..j]) {
      TakenLeavesRoot(view, src, dst, ks, last[..j], q[m]);
      SharedNodes(src, last, q, i);
    }
  }

  /** The tail of every path in the slot is open to the spur search. */
  lemma SlotIsSearched(view: View, src: Node, dst: Node, ks: seq<Entry>, last: Links, from: nat, i: nat, q: Links)
    requires forall k :: 0 <= k < |ks| ==> EntryOk(view, src, dst, ks[k])
    requires i < |last| && InSlot(view, src, dst, ks, last[..i], q)
    ensures IsWalk(SpurView(view, src, ks, last, from, i), At(src, last, i), q[i..], dst)
    ensures Delay(q) == Delay(last[..i]) + Delay(q[i..])
  {
    var sv := SpurView(view, src, ks, last, from, i);
    assert last[..i] == q[..i];
    DelaySplit(q, i);
    SharedNodes(src, last, q, i);
    WalkSplit(view, src, q, dst, i);
    var u, t := At(src, last, i), q[i..];
    forall m | 0 <= m < |t| ensures t[m] in sv.links && t[m].dst !in sv.blocked {
      forall j | from <= j < i + 1 ensures t[m] !in Taken(ks, last[..j]) {
        SlotLinkNotTaken(view, src, dst, ks, last, i, q, i + m, j);
      }
      assert t[m].dst == At(src, q, i + m + 1);
    }
  }

  /** A spur path completes the root to a path of the slot. */
  lemma SpurStaysInSlot(view: View, src: Node, dst: Node, ks: seq<Entry>, last: Links, from: nat, i: nat, t: Links,
                        d: nat)
    requires Admissible(view, src, dst, last) && from <= i < |last|
    requires Reaches(SpurView(view, src, ks, last, from, i), At(src, last, i), t, dst, d)
    ensures InSlot(view, src, dst, ks, last[..i], last[..i] + t)
    ensures Delay(last[..i] + t) == Delay(last[..i]) + d
  {
    var sv, u, root := SpurView(view, src, ks, last, from, i), At(src, last, i), last[..i];
    var q := root + t;
    assert t[0] in sv.links && q[..i] == root by {
      assert At(src, last, i) != At(src, last, |last|);
    }
    SpurIsWalk(view, src, dst, ks, last, from, i, t);
    DelayConcat(root, t);
    SimpleSplit(src, last, i);
    forall a, b | 0 <= a < i && 0 <= b <= |t| ensures At(src, root, a) != At(u, t, b) {
      assert At(src, root, a) in NodesBefore(src, last, i);
      assert At(u, t, b) !in sv.blocked;
    }
    SimpleConcat(src, root, u, t);
    assert t[0] !in Taken(ks, last[..i]);
  }

  lemma SpurIsWalk(view: View, src: Node, dst: Node, ks: seq<Entry>, last: Links, from: nat, i: nat, t: Links)
    requires IsWalk(view, src, last, dst) && from <= i < |last|
    requires IsWalk(SpurView(view, src, ks, last, from, i), At(src, last, i), t, dst)
    ensures IsWalk(view, src, last[..i] + t, dst)
  {
    WalkSplit(view, src, last, dst, i);
    assert IsWalk(view, At(src, last, i), t, dst);
    WalkConcat(view, src, last[..i], At(src, last, i), t, dst);
  }

  // ---------- searching one slot ----------

  ghost function Filled(cands: multiset<Entry>, root: Links, spur: Option<Walk>): multiset<Entry> {
    match spur
    case None => cands
    case Some(w) => cands + multiset{Entry(root + w.links, Delay(root + w.links), |root|)}
  }

  ghost predicate Spurred(view: View, src: Node, dst: Node, ks: seq<Entry>, i: nat, spur: Option<Walk>) {
    && ks != []
    && var last := ks[|ks| - 1];
      && last.start <= i < |last.links|
      && ShortestAnswer(SpurView(view, src, ks, last.links, last.start, i), At(src, last.links, i), dst, spur)
  }

  /** No answer from the spur search means an empty slot. */
  lemma NoSpurNoSlot(view: View, src: Node, dst: Node, ks: seq<Entry>, i: nat, q: Links)
    requires ListOk(view, src, dst, ks) && Spurred(view, src, dst, ks, i, None)
    ensures !InSlot(view, src, dst, ks, ks[|ks| - 1].links[..i], q)
  {
    hide Simple, ListOk, InSlot, Delay;
    ListedEntry(view, src, dst, ks, |ks| - 1);
    var last := ks[|ks| - 1];
    if InSlot(view, src, dst, ks, last.links[..i], q) {
      AllEntriesOk(view, src, dst, ks);
      SpurNodeIsNotDst(view, src, dst, last.links, i);
      SlotIsSearched(view, src, dst, ks, last.links, last.start, i, q);
    }
  }

  lemma SpurNodeIsNotDst(view: View, src: Node, dst: Node, last: Links, i: nat)
    requires Admissible(view, src, dst, last) && i < |last|
    ensures At(src, last, i) != dst
  {
    assert At(src, last, i) != At(src, last, |last|);
  }

  lemma AllEntriesOk(view: View, src: Node, dst: Node, ks: seq<Entry>)
    requires ListOk(view, src, dst, ks)
    ensures forall k :: 0 <= k < |ks| ==> EntryOk(view, src, dst, ks[k])
  {
  }

  lemma ListedEntry(view: View, src: Node, dst: Node, ks: seq<Entry>, k: nat)
    requires ListOk(view, src, dst, ks) && k < |ks|
    ensures EntryOk(view, src, dst, ks[k]) && Admissible(view, src, dst, ks[k].links)
  {
    hide Admissible;
  }

  /** An answer from the spur search is a shortest path of the slot. */
  lemma SpurIsCandidate(view: View, src: Node, dst: Node, ks: seq<Entry>, i: nat, w: Walk)
    requires ListOk(view, src, dst, ks) && Spurred(view, src, dst, ks, i, Some(w))
    ensures var root := ks[|ks| - 1].links[..i];
      CandidateOk(view, src, dst, ks, Entry(root + w.links, Delay(root + w.links), i))
  {
    hide Simple, ListOk, Delay, IsWalk;
    var last := ks[|ks| - 1];
    var root := last.links[..i];
    var c := Entry(root + w.links, Delay(root + w.links), i);
    ListedEntry(view, src, dst, ks, |ks| - 1);
    AllEntriesOk(view, src, dst, ks);
    SpurStaysInSlot(view, src, dst, ks, last.links, last.start, i, w.links, w.delay);
    assert RootOf(root, last.links) && IsRoot(ks, root);
    assert Root(c) == root;
    forall q | InSlot(view, src, dst, ks, root, q) ensures c.delay <= Delay(q) {
      SlotIsSearched(view, src, dst, ks, last.links, last.start, i, q);
    }
  }

  lemma PendingAdvances(ks: seq<Entry>, i: nat)
    requires ks != [] && i < |ks[|ks| - 1].links|
    ensures var root := ks[|ks| - 1].links[..i];
      && Pending(ks, i, root)
      && !Pending(ks, i + 1, root)
      && forall r :: Pending(ks, i, r) <==> r == root || Pending(ks, i + 1, r)
  {
  }

  lemma AddedCandidate(view: View, src: Node, dst: Node, ks: seq<Entry>, cands: multiset<Entry>, i: nat, c: Entry)
    requires ks != [] && i < |ks[|ks| - 1].links| && Root(c) == ks[|ks| - 1].links[..i]
    requires CandidatesOk(view, src, dst, ks, cands) && SlotsOk(view, src, dst, ks, cands, i)
    requires CandidateOk(view, src, dst, ks, c)
    ensures CandidatesOk(view, src, dst, ks, cands + multiset{c})
    ensures SlotsOk(view, src, dst, ks, cands + multiset{c}, i + 1)
  {
    hide CandidateOk, InSlot, Pending, IsRoot, Root;
    PendingAdvances(ks, i);
    assert c !in cands;
  }

  /** Searching the next slot of the last path keeps the invariant. */
  lemma FillKeepsInv(view: View, src: Node, dst: Node, ks: seq<Entry>, cands: multiset<Entry>, i: nat,
                     spur: Option<Walk>)
    requires GeneratorInv(view, src, dst, ks, cands, i) && Spurred(view, src, dst, ks, i, spur)
    ensures GeneratorInv(view, src, dst, ks, Filled(cands, ks[|ks| - 1].links[..i], spur), i + 1)
  {
    hide ListOk, CandidatesOk, SlotsOk, ShortestAnswer, Delay;
    var root := ks[|ks| - 1].links[..i];
    if spur.Some? {
      SpurIsCandidate(view, src, dst, ks, i, spur.value);
      var c := Entry(root + spur.value.links, Delay(root + spur.value.links), i);
      assert Root(c) == root;
      AddedCandidate(view, src, dst, ks, cands, i, c);
    } else {
      forall q ensures !InSlot(view, src, dst, ks, root, q) {
        NoSpurNoSlot(view, src, dst, ks, i, q);
      }
      EmptySlotSkipped(view, src, dst, ks, cands, i, root);
    }
  }

  lemma EmptySlotSkipped(view: View, src: Node, dst: Node, ks: seq<Entry>, cands: multiset<Entry>, i: nat, root: Links)
    requires ks != [] && i < |ks[|ks| - 1].links| && root == ks[|ks| - 1].links[..i]
    requires SlotsOk(view, src, dst, ks, cands, i)
    requires forall q :: !InSlot(view, src, dst, ks, root, q)
    ensures SlotsOk(view, src, dst, ks, cands, i + 1)
  {
    PendingAdvances(ks, i);
    hide InSlot, Pending, IsRoot, HasCandidate, Root;
  }

  // ---------- listing the shortest candidate ----------

  ghost predicate Shortest(cands: multiset<Entry>, c: Entry) {
    c in cands && forall d <- cands :: c.delay <= d.delay
  }

  lemma DeeperRootIsTaken(ks: seq<Entry>, c: Entry, root: Links)
    requires IsRoot(ks, root) && RootOf(root, c.links) && c.start < |root|
    ensures c.links[c.start] in Taken(ks, Root(c))
  {
    var k :| 0 <= k < |ks| && RootOf(root, ks[k].links);
    assert Root(c) == root[..c.start] == ks[k].links[..c.start];
    assert ks[k].links[c.start] == root[c.start] == c.links[c.start];
    assert RootOf(Root(c), ks[k].links);
  }

  /** Listing a candidate changes what is taken after its own root only: it follows
      listed paths before that root and is the first to use anything after it. */
  lemma TakenStable(view: View, src: Node, dst: Node, ks: seq<Entry>, c: Entry, root: Links)
    requires CandidateOk(view, src, dst, ks, c) && IsRoot(ks, root) && root != Root(c)
    ensures Taken(ks + [c], root) == Taken(ks, root)
    ensures RootOf(root, c.links) ==> |root| < c.start
  {
    hide Admissible, Delay, InSlot;
    var ks' := ks + [c];
    var k :| 0 <= k < |ks| && RootOf(root, ks[k].links);
    if RootOf(root, c.links) {
      if c.start < |root| {
        DeeperRootIsTaken(ks, c, root);
      }
      assert |root| != c.start;
      var j :| 0 <= j < |ks| && RootOf(Root(c), ks[j].links);
      assert root == Root(c)[..|root|] == ks[j].links[..|root|];
      assert RootOf(root, ks[j].links) && ks[j].links[|root|] == Root(c)[|root|] == c.links[|root|];
    }
    forall l ensures l in Taken(ks', root) <==> l in Taken(ks, root) {
      if l in Taken(ks', root) {
        var m :| 0 <= m < |ks'| && RootOf(root, ks'[m].links) && ks'[m].links[|root|] == l;
      }
      if l in Taken(ks, root) {
        var m :| 0 <= m < |ks| && RootOf(root, ks[m].links) && ks[m].links[|root|] == l;
        assert ks'[m] == ks[m];
      }
    }
  }

  lemma CandidateIsUnlisted(view: View, src: Node, dst: Node, ks: seq<Entry>, c: Entry)
    requires CandidateOk(view, src, dst, ks, c)
    ensures !Listed(ks, c.links)
  {
    hide Admissible, Delay, InSlot;
    assert RootOf(Root(c), c.links);
    assert forall k :: 0 <= k < |ks| && RootOf(Root(c), ks[k].links) ==> ks[k].links[|Root(c)|] in Taken(ks, Root(c));
  }

  /** With nothing left to search, the shortest candidate is a shortest unlisted path. */
  lemma ShortestCandidateIsNext(view: View, src: Node, dst: Node, ks: seq<Entry>, cands: multiset<Entry>, c: Entry,
                                q: Links)
    requires ks != [] && GeneratorInv(view, src, dst, ks, cands, |ks[|ks| - 1].links|) && Shortest(cands, c)
    requires Admissible(view, src, dst, q) && !Listed(ks, q)
    ensures c.delay <= Delay(q)
  {
    hide Admissible, InSlot, IsRoot, EntryOk, Listed, Delay;
    AllEntriesOk(view, src, dst, ks);
    var root := UnlistedHasSlot(view, src, dst, ks, q, 0, 0);
    assert HasCandidate(cands, root);
  }

  lemma NothingPending(ks: seq<Entry>, root: Links)
    requires ks != []
    ensures !Pending(ks, |ks[|ks| - 1].links|, root)
  {
  }

  lemma AppendKeepsList(view: View, src: Node, dst: Node, ks: seq<Entry>, cands: multiset<Entry>, c: Entry)
    requires ks != [] && GeneratorInv(view, src, dst, ks, cands, |ks[|ks| - 1].links|) && Shortest(cands, c)
    requires CandidateOk(view, src, dst, ks, c)
    ensures ListOk(view, src, dst, ks + [c])
  {
    hide Admissible, InSlot, IsRoot, Delay, Taken, SlotsOk, CandidatesOk, Shortest;
    var ks' := ks + [c];
    CandidateIsUnlisted(view, src, dst, ks, c);
    forall k | 0 <= k < |ks| ensures ks[k].links != c.links && ks[k].delay <= c.delay {
      assert ks[k].delay <= ks[|ks| - 1].delay;
    }
    forall q | Admissible(view, src, dst, q) && !Listed(ks', q) ensures c.delay <= Delay(q) {
      assert !Listed(ks, q) by {
        assert forall k :: 0 <= k < |ks| ==> ks'[k] == ks[k];
      }
      ShortestCandidateIsNext(view, src, dst, ks, cands, c, q);
    }
  }

  lemma AppendKeepsCandidate(view: View, src: Node, dst: Node, ks: seq<Entry>, c: Entry, d: Entry)
    requires CandidateOk(view, src, dst, ks, c) && CandidateOk(view, src, dst, ks, d) && Root(c) != Root(d)
    ensures CandidateOk(view, src, dst, ks + [c], d)
    ensures !Pending(ks + [c], c.start, Root(d))
  {
    hide Admissible, Delay, Taken;
    TakenStable(view, src, dst, ks, c, Root(d));
    var k :| 0 <= k < |ks| && RootOf(Root(d), ks[k].links);
    assert (ks + [c])[k] == ks[k];
  }

  lemma AppendKeepsSlot(view: View, src: Node, dst: Node, ks: seq<Entry>, cands: multiset<Entry>, c: Entry,
                        root: Links, q: Links)
    requires ks != [] && SlotsOk(view, src, dst, ks, cands, |ks[|ks| - 1].links|) && CandidateOk(view, src, dst, ks, c)
    requires IsRoot(ks + [c], root) && InSlot(view, src, dst, ks + [c], root, q) && !Pending(ks + [c], c.start, root)
    ensures root != Root(c) && HasCandidate(cands, root)
  {
    hide Admissible, Delay, Taken;
    var ks' := ks + [c];
    var k :| 0 <= k < |ks'| && RootOf(root, ks'[k].links);
    assert RootOf(Root(c), c.links);
    if k == |ks| {
      var j :| 0 <= j < |ks| && RootOf(Root(c), ks[j].links);
      assert root == Root(c)[..|root|] == ks[j].links[..|root|];
      assert RootOf(root, ks[j].links);
    } else {
      assert ks'[k] == ks[k];
    }
    TakenStable(view, src, dst, ks, c, root);
    NothingPending(ks, root);
    assert InSlot(view, src, dst, ks, root, q);
  }

  lemma OtherCandidate(view: View, src: Node, dst: Node, ks: seq<Entry>, cands: multiset<Entry>, c: Entry, d: Entry)
    requires CandidatesOk(view, src, dst, ks, cands) && c in cands
    ensures d in cands - multiset{c} <==> d in cands && d != c
    ensures d in cands - multiset{c} ==>
      Root(d) != Root(c) && (cands - multiset{c})[d] == 1 && CandidateOk(view, src, dst, ks, d)
  {
    hide CandidateOk, Root;
  }

  lemma AppendKeepsCandidates(view: View, src: Node, dst: Node, ks: seq<Entry>, cands: multiset<Entry>, c: Entry)
    requires CandidatesOk(view, src, dst, ks, cands) && c in cands && CandidateOk(view, src, dst, ks, c)
    ensures CandidatesOk(view, src, dst, ks + [c], cands - multiset{c})
    ensures forall d <- cands - multiset{c} :: !Pending(ks + [c], c.start, Root(d))
  {
    hide CandidateOk, Root, Pending;
    var ks', cands' := ks + [c], cands - multiset{c};
    forall d <- cands'
      ensures CandidateOk(view, src, dst, ks', d) && cands'[d] == 1 && !Pending(ks', c.start, Root(d))
    {
      OtherCandidate(view, src, dst, ks, cands, c, d);
      AppendKeepsCandidate(view, src, dst, ks, c, d);
    }
  }

  lemma AppendKeepsSlots(view: View, src: Node, dst: Node, ks: seq<Entry>, cands: multiset<Entry>, c: Entry)
    requires ks != [] && SlotsOk(view, src, dst, ks, cands, |ks[|ks| - 1].links|)
    requires CandidatesOk(view, src, dst, ks, cands) && c in cands && CandidateOk(view, src, dst, ks, c)
    requires forall d <- cands - multiset{c} :: !Pending(ks + [c], c.start, Root(d))
    ensures SlotsOk(view, src, dst, ks + [c], cands - multiset{c}, c.start)
  {
    hide InSlot, Pending, IsRoot, Root, CandidateOk, CandidatesOk;
    var ks', cands' := ks + [c], cands - multiset{c};
    forall root, q | IsRoot(ks', root) && InSlot(view, src, dst, ks', root, q) && !Pending(ks', c.start, root)
      ensures HasCandidate(cands', root)
    {
      AppendKeepsSlot(view, src, dst, ks, cands, c, root, q);
      var d :| d in cands && Root(d) == root;
      OtherCandidate(view, src, dst, ks, cands, c, d);
      assert d in cands';
    }
  }

  /** Listing the shortest candidate keeps the invariant; what is left to search are the
      slots from its start index on. */
  lemma AppendKeepsInv(view: View, src: Node, dst: Node, ks: seq<Entry>, cands: multiset<Entry>, c: Entry)
    requires ks != [] && GeneratorInv(view, src, dst, ks, cands, |ks[|ks| - 1].links|) && Shortest(cands, c)
    ensures GeneratorInv(view, src, dst, ks + [c], cands - multiset{c}, c.start)
  {
    assert CandidateOk(view, src, dst, ks, c);
    hide ListOk, CandidatesOk, SlotsOk, CandidateOk;
    AppendKeepsList(view, src, dst, ks, cands, c);
    AppendKeepsCandidates(view, src, dst, ks, cands, c);
    AppendKeepsSlots(view, src, dst, ks, cands, c);
  }

  // ---------- first path, exhaustion, and what the list means ----------

  lemma FirstPathInv(view: View, src: Node, dst: Node, w: Walk)
    requires ShortestAnswer(view, src, dst, Some(w))
    ensures GeneratorInv(view, src, dst, [Entry(w.links, w.delay, 0)], multiset{}, 0)
  {
    hide Simple, Delay, IsWalk;
    var ks := [Entry(w.links, w.delay, 0)];
    assert EntryOk(view, src, dst, ks[0]) by {
      assert w.links != [] by {
        assert IsWalk(view, src, w.links, dst);
        EmptyWalkStays(view, src, dst);
      }
    }
    assert forall root :: IsRoot(ks, root) ==> Pending(ks, 0, root);
  }

  lemma FirstIsAdmissible(view: View, src: Node, dst: Node, w: Walk)
    requires ShortestAnswer(view, src, dst, Some(w))
    ensures MayComeNext(view, src, dst, [], Entry(w.links, w.delay, 0))
  {
    hide Simple, Delay;
  }

  lemma EmptyWalkStays(view: View, src: Node, dst: Node)
    ensures IsWalk(view, src, [], dst) ==> src == dst
  {
  }

  lemma NoFirstPath(view: View, src: Node, dst: Node, q: Links)
    requires ShortestAnswer(view, src, dst, None)
    ensures !Admissible(view, src, dst, q)
  {
    if src == dst && q != [] {
      assert At(src, q, 0) == src;
      assert IsWalk(view, src, q, dst) ==> At(src, q, |q|) == src;
    }
  }

  /** No candidates after searching everything means that everything is listed. */
  lemma ExhaustedMeansComplete(view: View, src: Node, dst: Node, ks: seq<Entry>, q: Links)
    requires ks != [] && GeneratorInv(view, src, dst, ks, multiset{}, |ks[|ks| - 1].links|)
    requires Admissible(view, src, dst, q)
    ensures Listed(ks, q)
  {
    hide Admissible, InSlot, IsRoot, EntryOk, Delay;
    if !Listed(ks, q) {
      AllEntriesOk(view, src, dst, ks);
      var root := UnlistedHasSlot(view, src, dst, ks, q, 0, 0);
      NothingPending(ks, root);
    }
  }

  /** An exhausted generator stays exhausted: the last path may be searched again. */
  lemma ExhaustedKeepsInv(view: View, src: Node, dst: Node, ks: seq<Entry>, from: nat, from': nat)
    requires GeneratorInv(view, src, dst, ks, multiset{}, from) && from' <= from
    ensures GeneratorInv(view, src, dst, ks, multiset{}, from')
  {
    hide ListOk, InSlot, IsRoot, HasCandidate;
  }

  /** The k-th listed path is a k-th shortest one: nothing outside the first k is shorter. */
  lemma KthIsKthShortest(view: View, src: Node, dst: Node, ks: seq<Entry>, k: nat, q: Links)
    requires ListOk(view, src, dst, ks) && k < |ks|
    requires Admissible(view, src, dst, q) && !Listed(ks[..k], q)
    ensures Admissible(view, src, dst, ks[k].links) && Delay(ks[k].links) <= Delay(q)
  {
    hide Admissible, Delay;
    assert EntryOk(view, src, dst, ks[k]);
    assert forall i :: 0 <= i < k ==> ks[..k][i] == ks[i];
    if j :| 0 <= j < |ks| && ks[j].links == q {
      assert EntryOk(view, src, dst, ks[j]);
    } else {
      assert ks[k].delay <= ks[|ks| - 1].delay;
    }
  }

  // ---------- the prefix tree of listed paths ----------

  function TrieOf(ks: seq<Entry>): Trie.TrieNode<Link, nat> {
    if ks == [] then Trie.Empty()
    else Trie.Add(TrieOf(ks[..|ks| - 1]), ks[|ks| - 1].links, |ks| - 1)
  }

  /** The tree answers a prefix query with exactly the indices of the paths that have it. */
  lemma {:induction false} TrieFinds(ks: seq<Entry>, prefix: Links)
    ensures forall k :: k in Trie.SequencesWithPrefix(TrieOf(ks), prefix) <==> 0 <= k < |ks| && prefix <= ks[k].links
  {
    if ks == [] {
      Trie.EmptyHoldsNothing<Link, nat>(prefix, 0);
    } else {
      var n := |ks| - 1;
      TrieFinds(ks[..n], prefix);
      Trie.AddExtendsPrefixes(TrieOf(ks[..n]), ks[n].links, n, prefix, 0);
    }
  }

  /** The shortest path query of the generator when there are no sets to visit. */
  method ShortestPath(u: Node, v: Node, g: AdjacencyList, ex: Exclusion, avoidNodes: set<Node>, avoidLinks: set<Link>)
    returns (r: Option<Walk>)
    requires g.Valid()
    ensures ShortestAnswer(QueryView(g, ex, avoidNodes, avoidLinks), u, v, r)
  {
    hide *;
    var tree := ComputePaths(u, {v}, ex, g, avoidNodes, avoidLinks);
    r := GetPath(tree, v, QueryView(g, ex, avoidNodes, avoidLinks));
  }

  lemma SpurViewIsQueryView(g: AdjacencyList, ex: Exclusion, src: Node, ks: seq<Entry>, last: Links, from: nat, i: nat)
    requires i < |last|
    ensures SpurView(QueryView(g, ex, {}, {}), src, ks, last, from, i) ==
            QueryView(g, ex, NodesBefore(src, last, i), TakenBetween(ks, last, from, i + 1))
  {
    var view := QueryView(g, ex, {}, {});
    assert view.links == g.AllLinks() - ex.links && view.blocked == ex.nodes;
  }

  lemma StillBegins(a: seq<Entry>, b: seq<Entry>, c: seq<Entry>)
    requires a <= b && |c| == |b| + 1 && c[..|b|] == b
    ensures a <= c
  {
  }

  lemma ShortestExists(cands: multiset<Entry>) returns (c: Entry)
    requires cands != multiset{}
    ensures Shortest(cands, c)
    decreases |cands|
  {
    c :| c in cands;
    var first, rest := c, cands - multiset{c};
    if rest != multiset{} {
      var other := ShortestExists(rest);
      if other.delay < c.delay {
        c := other;
      }
    }
    forall d <- cands ensures c.delay <= d.delay {
      assert d == first || rest[d] == cands[d];
    }
  }

  /** Every listed path that starts with a root of the last one goes on after it, so the
      check on stored lengths never fires. */
  lemma ListedOutlastsRoot(view: View, src: Node, dst: Node, ks: seq<Entry>, i: nat, k: nat)
    requires ListOk(view, src, dst, ks) && k < |ks| && i < |ks[|ks| - 1].links|
    requires ks[|ks| - 1].links[..i] <= ks[k].links
    ensures i < |ks[k].links| && RootOf(ks[|ks| - 1].links[..i], ks[k].links)
  {
    hide *;
    var last := ks[|ks| - 1].links;
    ListedEntry(view, src, dst, ks, |ks| - 1);
    ListedEntry(view, src, dst, ks, k);
    if ks[k].links != last {
      BothContinue(view, src, dst, ks[k].links, last, i);
    }
    RootOfPrefix(last[..i], ks[k].links);
  }

  lemma RootOfPrefix(root: Links, q: Links)
    requires root <= q && |root| < |q|
    ensures RootOf(root, q)
  {
  }

  lemma TakenOneMore(ks: seq<Entry>, root: Links, k: nat)
    requires k < |ks| && RootOf(root, ks[k].links)
    ensures Taken(ks[..k + 1], root) == Taken(ks[..k], root) + {ks[k].links[|root|]}
  {
    var a, b := ks[..k], ks[..k + 1];
    assert forall j :: 0 <= j < k ==> a[j] == b[j] == ks[j];
    assert b[k] == ks[k];
  }

  lemma TakenNone(ks: seq<Entry>, root: Links)
    ensures Taken(ks[..0], root) == {}
  {
  }

  lemma RootOfIs(root: Links, q: Links)
    requires RootOf(root, q)
    ensures |root| < |q| && root == q[..|root|]
  {
  }

  lemma RootOfNothing(ks: seq<Entry>, k: nat)
    requires k < |ks| && RootOf([], ks[|ks| - 1].links)
    ensures 0 < |ks[|ks| - 1].links| && ks[|ks| - 1].links[..0] == [] && [] <= ks[k].links
  {
  }

  /** The links that these paths take right after the root are in the set. */
  ghost predicate Collected(ks: seq<Entry>, root: Links, which: seq<nat>, out: set<Link>) {
    forall i :: 0 <= i < |which| ==>
      which[i] < |ks| && RootOf(root, ks[which[i]].links) && ks[which[i]].links[|root|] in out
  }

  lemma CollectNone(ks: seq<Entry>, root: Links, which: seq<nat>, out: set<Link>)
    ensures Collected(ks, root, which[..0], out)
  {
  }

  lemma CollectOne(ks: seq<Entry>, root: Links, which: seq<nat>, j: nat, out: set<Link>)
    requires j < |which| && Collected(ks, root, which[..j], out) && which[j] < |ks| && RootOf(root, ks[which[j]].links)
    ensures Collected(ks, root, which[..j + 1], out + {ks[which[j]].links[|root|]})
    ensures ks[which[j]].links[|root|] in Taken(ks, root)
  {
    assert forall i :: 0 <= i < j ==> which[..j][i] == which[i] == which[..j + 1][i];
  }

  lemma CollectedAll(ks: seq<Entry>, root: Links, which: seq<nat>, out: set<Link>)
    requires Collected(ks, root, which, out)
    requires forall k :: k in which <==> 0 <= k < |ks| && root <= ks[k].links
    ensures Taken(ks, root) <= out
  {
    forall l <- Taken(ks, root) ensures l in out {
      var k :| 0 <= k < |ks| && RootOf(root, ks[k].links) && ks[k].links[|root|] == l;
      assert k in which;
    }
  }

  lemma ExclusionsGrow(src: Node, ks: seq<Entry>, last: Links, from: nat, i: nat)
    requires i < |last|
    ensures NodesBefore(src, last, 0) == {} && TakenBetween(ks, last, from, 0) == {}
    ensures NodesBefore(src, last, i + 1) == NodesBefore(src, last, i) + {At(src, last, i)}
    ensures TakenBetween(ks, last, from, i + 1) ==
            TakenBetween(ks, last, from, i) + if i < from then {} else Taken(ks, last[..i])
  {
    hide Taken, At;
  }

  lemma LinksLeaveNodes(view: View, src: Node, dst: Node, ks: seq<Entry>, k: nat, i: nat)
    requires ListOk(view, src, dst, ks) && k < |ks| && i < |ks[k].links|
    ensures ks[k].links[i].src == At(src, ks[k].links, i)
  {
    assert EntryOk(view, src, dst, ks[k]);
    hide Simple;
  }

  lemma GeneratorParts(view: View, src: Node, dst: Node, ks: seq<Entry>, cands: multiset<Entry>, from: nat)
    requires GeneratorInv(view, src, dst, ks, cands, from)
    ensures ListOk(view, src, dst, ks)
    ensures ks != [] ==> ks[|ks| - 1].start < |ks[|ks| - 1].links|
  {
    if ks != [] {
      assert EntryOk(view, src, dst, ks[|ks| - 1]);
    }
  }

  lemma ShortestCandidateMayComeNext(view: View, src: Node, dst: Node, ks: seq<Entry>, cands: multiset<Entry>, c: Entry)
    requires ks != [] && GeneratorInv(view, src, dst, ks, cands, |ks[|ks| - 1].links|) && Shortest(cands, c)
    ensures MayComeNext(view, src, dst, ks, c)
  {
    hide Admissible, Listed, Delay, IsRoot, InSlot, Taken, SlotsOk, ListOk, Shortest;
    assert c in cands by {
      CandidateIn(cands, c);
    }
    assert CandidateOk(view, src, dst, ks, c);
    CandidateIsUnlisted(view, src, dst, ks, c);
    forall q | Admissible(view, src, dst, q) && !Listed(ks, q) ensures c.delay <= Delay(q) {
      ShortestCandidateIsNext(view, src, dst, ks, cands, c, q);
    }
  }

  lemma CandidateIn(cands: multiset<Entry>, c: Entry)
    requires Shortest(cands, c)
    ensures c in cands
  {
  }

  lemma FilledIs(cands: multiset<Entry>, root: Links, spur: Option<Walk>)
    ensures spur.None? ==> Filled(cands, root, spur) == cands
    ensures spur.Some? ==> Filled(cands, root, spur) ==
                           cands + multiset{Entry(root + spur.value.links, Delay(root + spur.value.links), |root|)}
  {
  }

  lemma SpurAnswered(g: AdjacencyList, ex: Exclusion, src: Node, dst: Node, ks: seq<Entry>, i: nat, spur: Option<Walk>)
    requires ks != [] && ks[|ks| - 1].start <= i < |ks[|ks| - 1].links|
    requires var last := ks[|ks| - 1];
      ShortestAnswer(QueryView(g, ex, NodesBefore(src, last.links, i), TakenBetween(ks, last.links, last.start, i + 1)),
                     At(src, last.links, i), dst, spur)
    ensures Spurred(QueryView(g, ex, {}, {}), src, dst, ks, i, spur)
  {
    hide ShortestAnswer, NodesBefore, TakenBetween, At, QueryView, SpurView;
    SpurViewIsQueryView(g, ex, src, ks, ks[|ks| - 1].links, ks[|ks| - 1].start, i);
  }

  class KShortestPathsGenerator {
    const src: Node
    const dst: Node
    const g: AdjacencyList
    const ex: Exclusion
    var kPaths: seq<Entry>
    var kPathsTrie: Trie.TrieNode<Link, nat>
    var candidates: multiset<Entry>

    constructor (src: Node, dst: Node, g: AdjacencyList, ex: Exclusion)
      requires g.Valid()
      ensures Valid() && kPaths == []
      ensures this.src == src && this.dst == dst && this.g == g && this.ex == ex
    {
      this.src, this.dst, this.g, this.ex := src, dst, g, ex;
      kPaths, kPathsTrie, candidates := [], Trie.Empty(), multiset{};
    }

    ghost function TheView(): View {
      QueryView(g, ex, {}, {})
    }

    lemma TheViewIs()
      ensures TheView() == QueryView(g, ex, {}, {})
    {
    }

    ghost predicate Valid()
      reads this
    {
      && g.Valid()
      && kPathsTrie == TrieOf(kPaths)
      && if kPaths == [] then candidates == multiset{}
         else GeneratorInv(TheView(), src, dst, kPaths, candidates, kPaths[|kPaths| - 1].start)
    }

    /** Adds the links that listed paths take right after `rootPath`. */
    method GetLinkExclusionSet(rootPath: Links, out: set<Link>) returns (out': set<Link>)
      requires kPathsTrie == TrieOf(kPaths) && kPaths != [] && ListOk(TheView(), src, dst, kPaths)
      requires RootOf(rootPath, kPaths[|kPaths| - 1].links)
      ensures out' == out + Taken(kPaths, rootPath)
    {
      hide *;
      out' := out;
      if rootPath == [] {
        TakenNone(kPaths, rootPath);
        for k := 0 to |kPaths|
          invariant out' == out + Taken(kPaths[..k], rootPath)
        {
          RootOfNothing(kPaths, k);
          ListedOutlastsRoot(TheView(), src, dst, kPaths, 0, k);
          var links := kPaths[k].links;
          out' := out' + {links[0]};
          TakenOneMore(kPaths, rootPath, k);
        }
        assert kPaths[..|kPaths|] == kPaths;
        return;
      }
      var same := Trie.SequencesWithPrefix(kPathsTrie, rootPath);
      TrieFinds(kPaths, rootPath);
      CollectNone(kPaths, rootPath, same, out);
      for j := 0 to |same|
        invariant out <= out' <= out + Taken(kPaths, rootPath) && Collected(kPaths, rootPath, same[..j], out')
      {
        var k := same[j];
        assert k in same;
        RootOfIs(rootPath, kPaths[|kPaths| - 1].links);
        ListedOutlastsRoot(TheView(), src, dst, kPaths, |rootPath|, k);
        RootOfIs(rootPath, kPaths[k].links);
        var links := kPaths[k].links;
        CollectOne(kPaths, rootPath, same, j, out');
        out' := out' + {links[|rootPath|]};
      }
      assert same[..|same|] == same;
      CollectedAll(kPaths, rootPath, same, out');
    }

    /** Searches the slots of the last listed path from its start index on. */
    method SearchSlots()
      requires g.Valid() && kPaths != [] && kPathsTrie == TrieOf(kPaths)
      requires GeneratorInv(TheView(), src, dst, kPaths, candidates, kPaths[|kPaths| - 1].start)
      modifies this`candidates
      ensures GeneratorInv(TheView(), src, dst, kPaths, candidates, |kPaths[|kPaths| - 1].links|)
    {
      hide *;
      ghost var view := TheView();
      TheViewIs();
      var last := kPaths[|kPaths| - 1];
      GeneratorParts(view, src, dst, kPaths, candidates, last.start);
      var linksToExclude: set<Link>, nodesToExclude: set<Node>, rootPath: Links := {}, {}, [];
      ExclusionsGrow(src, kPaths, last.links, last.start, 0);
      for i := 0 to |last.links|
        invariant rootPath == last.links[..i] && nodesToExclude == NodesBefore(src, last.links, i)
        invariant linksToExclude == TakenBetween(kPaths, last.links, last.start, i)
        invariant GeneratorInv(view, src, dst, kPaths, candidates, if i < last.start then last.start else i)
      {
        var link := last.links[i];
        var spurNode := link.src;
        GeneratorParts(view, src, dst, kPaths, candidates, if i < last.start then last.start else i);
        LinksLeaveNodes(view, src, dst, kPaths, |kPaths| - 1, i);
        ExclusionsGrow(src, kPaths, last.links, last.start, i);
        assert last.links[..i + 1] == last.links[..i] + [link];
        if i < last.start {
          nodesToExclude := nodesToExclude + {spurNode};
          rootPath := rootPath + [link];
          continue;
        }
        RootOfPrefix(rootPath, last.links);
        linksToExclude := GetLinkExclusionSet(rootPath, linksToExclude);
        var spur := ShortestPath(spurNode, dst, g, ex, nodesToExclude, linksToExclude);
        SpurAnswered(g, ex, src, dst, kPaths, i, spur);
        FillKeepsInv(view, src, dst, kPaths, candidates, i, spur);
        FilledIs(candidates, rootPath, spur);
        if spur.Some? {
          var links := rootPath + spur.value.links;
          candidates := candidates + multiset{Entry(links, Delay(links), i)};
        }
        nodesToExclude := nodesToExclude + {spurNode};
        rootPath := rootPath + [link];
      }
    }

    /** Lists one more path: it finds one exactly when some admissible path is not listed
        yet, and then the one it appends is a shortest of those. */
    method NextPath() returns (found: bool)
      requires Valid()
      modifies this
      ensures Valid()
      ensures !found ==> kPaths == old(kPaths) && Complete(TheView(), src, dst, kPaths)
      ensures found ==> |kPaths| == |old(kPaths)| + 1 && kPaths[..|old(kPaths)|] == old(kPaths)
      ensures found ==> MayComeNext(TheView(), src, dst, old(kPaths), kPaths[|old(kPaths)|])
    {
      hide GeneratorInv, ShortestAnswer, Admissible, QueryView, Shortest, MayComeNext, Listed;
      ghost var view := TheView();
      if kPaths == [] {
        var path := ShortestPath(src, dst, g, ex, {}, {});
        if path.None? {
          forall q ensures !Admissible(view, src, dst, q) {
            NoFirstPath(view, src, dst, q);
          }
          return false;
        }
        FirstPathInv(view, src, dst, path.value);
        FirstIsAdmissible(view, src, dst, path.value);
        kPathsTrie := Trie.Add(kPathsTrie, path.value.links, 0);
        kPaths := [Entry(path.value.links, path.value.delay, 0)];
        return true;
      }

      SearchSlots();

      if candidates == multiset{} {
        forall q | Admissible(view, src, dst, q) ensures Listed(kPaths, q) {
          ExhaustedMeansComplete(view, src, dst, kPaths, q);
        }
        GeneratorParts(view, src, dst, kPaths, candidates, |kPaths[|kPaths| - 1].links|);
        ExhaustedKeepsInv(view, src, dst, kPaths, |kPaths[|kPaths| - 1].links|, kPaths[|kPaths| - 1].start);
        return false;
      }
      var least := PopTop();
      kPathsTrie := Trie.Add(kPathsTrie, least.links, |kPaths|);
      kPaths := kPaths + [least];
      return true;
    }

    /** Takes a shortest candidate, whichever of those of equal delay the heap holds on top. */
    method PopTop() returns (least: Entry)
      requires candidates != multiset{} && kPaths != []
      requires GeneratorInv(TheView(), src, dst, kPaths, candidates, |kPaths[|kPaths| - 1].links|)
      modifies this`candidates
      ensures GeneratorInv(TheView(), src, dst, kPaths + [least], candidates, least.start)
      ensures MayComeNext(TheView(), src, dst, kPaths, least)
    {
      hide GeneratorInv, MayComeNext;
      ghost var some := ShortestExists(candidates);
      least :| least in candidates && forall d <- candidates :: least.delay <= d.delay;
      ShortestCandidateMayComeNext(TheView(), src, dst, kPaths, candidates, least);
      AppendKeepsInv(TheView(), src, dst, kPaths, candidates, least);
      candidates := candidates - multiset{least};
    }

    /** The k-th listed path, listing as many as needed; nothing when the list is complete
        and has no k-th path. */
    method KthShortestPathOrNull(k: nat) returns (r: Option<Walk>)
      requires Valid()
      modifies this
      ensures Valid() && old(kPaths) <= kPaths
      ensures r.Some? <==> k < |kPaths|
      ensures r.Some? ==> r.value == Walk(kPaths[k].links, kPaths[k].delay)
      ensures r.None? ==> Complete(TheView(), src, dst, kPaths)
    {
      hide *;
      if k < |kPaths| {
        return Some(Walk(kPaths[k].links, kPaths[k].delay));
      }
      var delta := k + 1 - |kPaths|;
      for i := 0 to delta
        invariant Valid() && old(kPaths) <= kPaths && |kPaths| == |old(kPaths)| + i
      {
        ghost var before := kPaths;
        var found := NextPath();
        if !found {
          return None;
        }
        StillBegins(old(kPaths), before, kPaths);
      }
      var last := kPaths[|kPaths| - 1];
      r := Some(Walk(last.links, last.delay));
    }

    lemma ValidList()
      requires Valid()
      ensures ListOk(TheView(), src, dst, kPaths)
    {
    }

    /** The position of an admissible path among the listed ones: its own index when it is
        among the first `limit`, and otherwise `limit`. Neither the check that listed
        delays do not exceed the path's own nor the use of a missing path can fail. */
    method KforPath(toLookFor: Walk, limit: nat) returns (k: nat)
      requires Valid()
      requires Admissible(TheView(), src, dst, toLookFor.links) && toLookFor.delay == Delay(toLookFor.links)
      modifies this
      ensures Valid() && old(kPaths) <= kPaths
      ensures k <= limit
      ensures k < limit ==> k < |kPaths| && kPaths[k].links == toLookFor.links
      ensures k == limit ==> limit <= |kPaths| && !Listed(kPaths[..limit], toLookFor.links)
    {
      hide ListOk, GeneratorInv, Admissible, Delay;
      k := 0;
      while k < limit
        invariant Valid() && old(kPaths) <= kPaths && k <= limit && k <= |kPaths|
        invariant !Listed(kPaths[..k], toLookFor.links)
      {
        ghost var before := kPaths[..k];
        var path := KthShortestPathOrNull(k);
        assert kPaths[..k] == before;
        assert path.Some? by {
          assert path.None? ==> before == kPaths;
        }
        ValidList();
        KthIsKthShortest(TheView(), src, dst, kPaths, k, toLookFor.links);
        ListedEntry(TheView(), src, dst, kPaths, k);
        assert path.value.delay <= toLookFor.delay;
        if path.value.links == toLookFor.links {
          return k;
        }
        assert kPaths[..k + 1] == before + [kPaths[k]];
        k := k + 1;
      }
    }
  }
}
