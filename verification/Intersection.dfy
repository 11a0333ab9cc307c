/** The sweep that intersects range sets. */
module Intersection {
  import opened Basics
  import opened Ranges

  /** Where a range of set number `s` starts or ends. */
  datatype Event = Event(index: nat, start: bool, i: nat, s: nat)

  /** The order of the heap: by index, at one index ends come before starts. */
  predicate NoLater(a: Event, b: Event) {
    a.index < b.index || (a.index == b.index && (a.start ==> b.start))
  }

  ghost predicate InAll(sets: seq<seq<Range>>, x: nat) {
    forall s :: 0 <= s < |sets| ==> Covers(sets[s], x)
  }

  ghost predicate AllNormal(sets: seq<seq<Range>>) {
    forall s :: 0 <= s < |sets| ==> NormalForm(sets[s])
  }

  function EventAt(sets: seq<seq<Range>>, s: nat, i: nat, start: bool): Event
    requires s < |sets| && i < |sets[s]|
  {
    Event(if start then sets[s][i].first else sets[s][i].End(), start, i, s)
  }

  // ---------- the state of the sweep ----------

  /** Which range each set is at, and which sets the sweep line is inside of. */
  ghost predicate Shape(sets: seq<seq<Range>>, pos: seq<nat>, inside: set<nat>) {
    && |pos| == |sets|
    && (forall s :: s in inside ==> s < |sets| && pos[s] < |sets[s]|)
    && (forall s :: 0 <= s < |sets| ==> pos[s] <= |sets[s]|)
  }

  ghost predicate Pending(sets: seq<seq<Range>>, pos: seq<nat>, inside: set<nat>, queue: set<Event>)
    requires Shape(sets, pos, inside)
  {
    && (forall e :: e in queue ==>
          e.s < |sets| && pos[e.s] < |sets[e.s]| && e == EventAt(sets, e.s, pos[e.s], e.s !in inside))
    && (forall s: nat :: s < |sets| && pos[s] < |sets[s]| ==> EventAt(sets, s, pos[s], s !in inside) in queue)
  }

  ghost predicate Future(sets: seq<seq<Range>>, pos: seq<nat>, inside: set<nat>, todo: set<Event>)
    requires Shape(sets, pos, inside)
  {
    forall s: nat, i: nat, b :: s < |sets| && pos[s] <= i < |sets[s]| && (b && i == pos[s] ==> s !in inside)
      ==> EventAt(sets, s, i, b) in todo
  }

  /** What set `s` has behind and ahead of the sweep line at `at`. */
  ghost predicate LineAt(rs: seq<Range>, p: nat, inside: bool, at: nat)
    requires p <= |rs|
  {
    && (p > 0 ==> rs[p - 1].End() <= at)
    && (p < |rs| ==> if inside then rs[p].first <= at <= rs[p].End() else at <= rs[p].first)
  }

  ghost predicate Open(sets: seq<seq<Range>>, inside: set<nat>) {
    forall s: nat :: s < |sets| ==> s in inside
  }

  ghost predicate Sweep(sets: seq<seq<Range>>, pos: seq<nat>, inside: set<nat>, at: nat, start: nat, out: seq<Range>)
    requires Shape(sets, pos, inside)
  {
    && (forall s: nat :: s < |sets| ==> LineAt(sets[s], pos[s], s in inside, at))
    && (Open(sets, inside) ==> start <= at && forall s: nat :: s < |sets| ==> sets[s][pos[s]].first <= start)
    && Apart(out)
    && (forall k :: 0 <= k < |out| ==> out[k].End() <= if Open(sets, inside) then start else at)
    && (forall x: nat :: Covers(out, x) ==> InAll(sets, x))
    && (forall x: nat :: x < at && InAll(sets, x) ==> Covers(out, x) || (Open(sets, inside) && start <= x))
  }

  lemma OutsideNotCovered(rs: seq<Range>, p: nat, at: nat, c: nat, x: nat)
    requires NormalForm(rs) && p <= |rs| && LineAt(rs, p, false, at) && at <= x < c && (p < |rs| ==> c <= rs[p].first)
    ensures !Covers(rs, x)
  {
    forall k | 0 <= k < |rs| ensures !In(rs[k], x) {
      assert k < p - 1 ==> rs[k].End() < rs[p - 1].first;
      assert k > p ==> rs[p].End() < rs[k].first;
    }
  }

  /** All pending events lie at or after `c`. */
  ghost predicate Reaches(sets: seq<seq<Range>>, pos: seq<nat>, inside: set<nat>, c: nat)
    requires Shape(sets, pos, inside)
  {
    forall s: nat :: s < |sets| && pos[s] < |sets[s]| ==> c <= EventAt(sets, s, pos[s], s !in inside).index
  }

  lemma NothingBetween(sets: seq<seq<Range>>, pos: seq<nat>, inside: set<nat>, at: nat, start: nat, out: seq<Range>,
                       c: nat, x: nat)
    requires AllNormal(sets) && Shape(sets, pos, inside) && Sweep(sets, pos, inside, at, start, out)
    requires Reaches(sets, pos, inside, c) && !Open(sets, inside) && at <= x < c
    ensures !InAll(sets, x)
  {
    var s: nat :| s < |sets| && s !in inside;
    assert LineAt(sets[s], pos[s], false, at);
    assert pos[s] < |sets[s]| ==> c <= EventAt(sets, s, pos[s], true).index;
    OutsideNotCovered(sets[s], pos[s], at, c, x);
  }

  lemma StartKeepsSweep(sets: seq<seq<Range>>, pos: seq<nat>, inside: set<nat>, at: nat, start: nat, out: seq<Range>,
                        c: nat, s: nat, inside': set<nat>, start': nat)
    requires AllNormal(sets) && Shape(sets, pos, inside) && Sweep(sets, pos, inside, at, start, out)
    requires Reaches(sets, pos, inside, c) && s < |sets| && pos[s] < |sets[s]| && s !in inside
    requires c == sets[s][pos[s]].first
    requires inside' == inside + {s} && (Open(sets, inside') ==> start' == c)
    ensures Shape(sets, pos, inside') && Sweep(sets, pos, inside', c, start', out)
  {
    assert LineAt(sets[s], pos[s], false, at);
    forall t: nat | t < |sets| ensures LineAt(sets[t], pos[t], t in inside', c) {
      assert LineAt(sets[t], pos[t], t in inside, at);
      assert pos[t] < |sets[t]| ==> c <= EventAt(sets, t, pos[t], t !in inside).index;
    }
    forall t: nat | Open(sets, inside') && t < |sets| ensures sets[t][pos[t]].first <= start' {
      assert t in inside';
      assert LineAt(sets[t], pos[t], t in inside', c);
    }
    forall x: nat | x < c && InAll(sets, x) ensures Covers(out, x) {
      if at <= x {
        NothingBetween(sets, pos, inside, at, start, out, c, x);
      }
    }
  }

  lemma EndCovers(sets: seq<seq<Range>>, pos: seq<nat>, inside: set<nat>, at: nat, start: nat, out: seq<Range>,
                  c: nat, x: nat)
    requires Shape(sets, pos, inside) && Sweep(sets, pos, inside, at, start, out) && Reaches(sets, pos, inside, c)
    requires Open(sets, inside) && start <= x < c
    ensures InAll(sets, x)
  {
    forall t: nat | t < |sets| ensures Covers(sets[t], x) {
      assert t in inside;
      assert c <= EventAt(sets, t, pos[t], t !in inside).index;
      assert In(sets[t][pos[t]], x);
    }
  }

  lemma EndKeepsLine(sets: seq<seq<Range>>, pos: seq<nat>, inside: set<nat>, at: nat, c: nat, s: nat, t: nat)
    requires AllNormal(sets) && Shape(sets, pos, inside) && t < |sets| && LineAt(sets[t], pos[t], t in inside, at)
    requires at <= c
    requires Reaches(sets, pos, inside, c) && s in inside && c == sets[s][pos[s]].End()
    ensures LineAt(sets[t], pos[s := pos[s] + 1][t], t in inside - {s}, c)
  {
    assert pos[t] < |sets[t]| ==> c <= EventAt(sets, t, pos[t], t !in inside).index;
    assert pos[s] + 1 < |sets[s]| ==> sets[s][pos[s]].End() < sets[s][pos[s] + 1].first;
  }

  lemma EndKeepsSweep(sets: seq<seq<Range>>, pos: seq<nat>, inside: set<nat>, at: nat, start: nat, out: seq<Range>,
                      c: nat, s: nat, pos': seq<nat>, inside': set<nat>, out': seq<Range>)
    requires AllNormal(sets) && Shape(sets, pos, inside) && Sweep(sets, pos, inside, at, start, out)
    requires Reaches(sets, pos, inside, c) && s in inside && c == sets[s][pos[s]].End()
    requires pos' == pos[s := pos[s] + 1] && inside' == inside - {s}
    requires if Open(sets, inside) then start <= c && out' == out + [Range(start, c - start)] else out' == out
    ensures Shape(sets, pos', inside') && Sweep(sets, pos', inside', c, start, out')
  {
    assert LineAt(sets[s], pos[s], true, at);
    forall t: nat | t < |sets| ensures LineAt(sets[t], pos'[t], t in inside', c) {
      EndKeepsLine(sets, pos, inside, at, c, s, t);
    }
    assert !Open(sets, inside');
    forall x: nat
      ensures Covers(out', x) ==> InAll(sets, x)
      ensures x < c && InAll(sets, x) ==> Covers(out', x)
    {
      if Open(sets, inside) {
        CoversSnoc(out, Range(start, c - start), x);
        if start <= x < c {
          EndCovers(sets, pos, inside, at, start, out, c, x);
        }
      } else if at <= x < c {
        NothingBetween(sets, pos, inside, at, start, out, c, x);
      }
    }
  }

  lemma {:induction false} AllInside(inside: set<nat>, n: nat)
    requires forall s :: s in inside ==> s < n
    ensures |inside| <= n && (|inside| == n <==> forall s: nat :: s < n ==> s in inside)
  {
    if n == 0 {
      assert inside == {};
    } else {
      AllInside(inside - {n - 1}, n - 1);
    }
  }

  lemma SmallestExists(queue: set<Event>) returns (e: Event)
    requires queue != {}
    ensures e in queue && forall f :: f in queue ==> NoLater(e, f)
  {
    e :| e in queue;
    var rest := queue - {e};
    assert queue == rest + {e};
    if rest != {} {
      var f := SmallestExists(rest);
      if !NoLater(e, f) {
        e := f;
      }
    }
  }

  method PopTop(queue: set<Event>) returns (e: Event, rest: set<Event>)
    requires queue != {}
    ensures e in queue && rest == queue - {e} && forall f :: f in queue ==> NoLater(e, f)
  {
    ghost var least := SmallestExists(queue);
    assert least in queue;
    e :| e in queue && forall f :: f in queue ==> NoLater(e, f);
    rest := queue - {e};
  }

  /** What follows the event `e` of its set: the end of the range it starts, or the start
      of the next one. */
  ghost predicate Moves(sets: seq<seq<Range>>, pos: seq<nat>, inside: set<nat>, e: Event, pos': seq<nat>,
                        inside': set<nat>)
    requires Shape(sets, pos, inside) && e.s < |sets|
  {
    if e.start then pos' == pos && inside' == inside + {e.s} && pos[e.s] < |sets[e.s]|
    else e.s in inside && pos' == pos[e.s := pos[e.s] + 1] && inside' == inside - {e.s}
  }

  lemma MoveKeepsQueue(sets: seq<seq<Range>>, pos: seq<nat>, inside: set<nat>, queue: set<Event>, e: Event,
                       pos': seq<nat>, inside': set<nat>, queue': set<Event>)
    requires Shape(sets, pos, inside) && Pending(sets, pos, inside, queue) && e in queue
    requires Moves(sets, pos, inside, e, pos', inside')
    requires queue' ==
      if pos'[e.s] < |sets[e.s]| then queue - {e} + {EventAt(sets, e.s, pos'[e.s], !e.start)} else queue - {e}
    ensures Shape(sets, pos', inside') && Pending(sets, pos', inside', queue')
  {
  }

  lemma MoveKeepsFuture(sets: seq<seq<Range>>, pos: seq<nat>, inside: set<nat>, queue: set<Event>, e: Event,
                        pos': seq<nat>, inside': set<nat>, todo: set<Event>)
    requires Shape(sets, pos, inside) && Pending(sets, pos, inside, queue) && e in queue
    requires Moves(sets, pos, inside, e, pos', inside') && Future(sets, pos, inside, todo)
    ensures e in todo && Shape(sets, pos', inside') && Future(sets, pos', inside', todo - {e})
  {
    assert e == EventAt(sets, e.s, pos[e.s], e.start);
  }

  lemma SmallestReaches(sets: seq<seq<Range>>, pos: seq<nat>, inside: set<nat>, queue: set<Event>, e: Event)
    requires Shape(sets, pos, inside) && Pending(sets, pos, inside, queue)
    requires e in queue && forall f :: f in queue ==> NoLater(e, f)
    ensures Reaches(sets, pos, inside, e.index)
  {
    forall s: nat | s < |sets| && pos[s] < |sets[s]| ensures e.index <= EventAt(sets, s, pos[s], s !in inside).index {
      assert NoLater(e, EventAt(sets, s, pos[s], s !in inside));
    }
  }

  /** At the end of the sweep the output covers exactly what all sets cover. */
  lemma SweptAll(sets: seq<seq<Range>>, pos: seq<nat>, inside: set<nat>, at: nat, start: nat, out: seq<Range>)
    requires AllNormal(sets) && Shape(sets, pos, inside) && Sweep(sets, pos, inside, at, start, out) && sets != []
    requires forall s :: 0 <= s < |sets| ==> pos[s] == |sets[s]|
    ensures Apart(out) && forall x: nat :: Covers(out, x) <==> InAll(sets, x)
  {
    assert 0 !in inside;
    forall x: nat ensures Covers(out, x) <==> InAll(sets, x) {
      if at <= x {
        NothingBetween(sets, pos, inside, at, start, out, x + 1, x);
      }
    }
  }

  /** Where every set starts: at its first range, outside of it. */
  method FirstStarts(sets: seq<seq<Range>>) returns (queue: set<Event>)
    requires forall s :: 0 <= s < |sets| ==> sets[s] != []
    ensures Shape(sets, seq(|sets|, _ => 0), {}) && Pending(sets, seq(|sets|, _ => 0), {}, queue)
  {
    queue := {};
    for s := 0 to |sets|
      invariant forall e :: e in queue ==> e.s < s && e == EventAt(sets, e.s, 0, true)
      invariant forall t: nat :: t < s ==> EventAt(sets, t, 0, true) in queue
    {
      queue := queue + {EventAt(sets, s, 0, true)};
    }
  }

  ghost function AllEvents(sets: seq<seq<Range>>): (r: set<Event>)
    ensures forall s: nat, i: nat, b :: s < |sets| && i < |sets[s]| ==> EventAt(sets, s, i, b) in r
  {
    (set s: nat, i: nat | s < |sets| && i < |sets[s]| :: EventAt(sets, s, i, true))
    + (set s: nat, i: nat | s < |sets| && i < |sets[s]| :: EventAt(sets, s, i, false))
  }

  lemma InitSweep(sets: seq<seq<Range>>)
    requires sets != []
    ensures var pos: seq<nat> := seq(|sets|, _ => 0);
      Shape(sets, pos, {}) && Future(sets, pos, {}, AllEvents(sets)) && Sweep(sets, pos, {}, 0, 0, [])
  {
    var pos: seq<nat> := seq(|sets|, _ => 0);
    EmptyIsNotOpen(sets, {});
  }

  lemma EmptyIsNotOpen(sets: seq<seq<Range>>, inside: set<nat>)
    requires sets != [] && inside == {}
    ensures !Open(sets, inside)
  {
    assert 0 !in inside;
  }

  lemma EventIsPending(sets: seq<seq<Range>>, pos: seq<nat>, inside: set<nat>, queue: set<Event>, e: Event)
    requires Shape(sets, pos, inside) && Pending(sets, pos, inside, queue) && e in queue
    ensures e.s < |sets| && pos[e.s] < |sets[e.s]| && e == EventAt(sets, e.s, pos[e.s], e.start)
    ensures e.start <==> e.s !in inside
  {
  }

  lemma OpenIffAll(sets: seq<seq<Range>>, pos: seq<nat>, inside: set<nat>)
    requires Shape(sets, pos, inside)
    ensures |inside| == |sets| <==> Open(sets, inside)
  {
    AllInside(inside, |sets|);
  }

  lemma OpenStart(sets: seq<seq<Range>>, pos: seq<nat>, inside: set<nat>, at: nat, start: nat, out: seq<Range>, s: nat)
    requires Shape(sets, pos, inside) && Sweep(sets, pos, inside, at, start, out) && Open(sets, inside) && s in inside
    ensures start <= sets[s][pos[s]].End()
  {
    assert LineAt(sets[s], pos[s], s in inside, at);
  }

  lemma NothingPending(sets: seq<seq<Range>>, pos: seq<nat>, inside: set<nat>, queue: set<Event>)
    requires Shape(sets, pos, inside) && Pending(sets, pos, inside, queue) && queue == {}
    ensures forall s :: 0 <= s < |sets| ==> pos[s] == |sets[s]|
  {
  }

  // ---------- no empty ranges ----------

  ghost predicate NonEmpty(out: seq<Range>) {
    forall k :: 0 <= k < |out| ==> out[k].count > 0
  }

  /** All ranges that the sweep line is inside of end behind `x`. */
  ghost predicate EndBehind(sets: seq<seq<Range>>, pos: seq<nat>, inside: set<nat>, x: nat)
    requires Shape(sets, pos, inside)
  {
    forall s <- inside :: x < sets[s][pos[s]].End()
  }

  ghost predicate Wide(sets: seq<seq<Range>>, pos: seq<nat>, inside: set<nat>, start: nat)
    requires Shape(sets, pos, inside)
  {
    Open(sets, inside) ==> EndBehind(sets, pos, inside, start)
  }

  /** Ends come before starts, so nothing ends where a range starts. */
  lemma StartsBeforeEnds(sets: seq<seq<Range>>, pos: seq<nat>, inside: set<nat>, queue: set<Event>, e: Event)
    requires Shape(sets, pos, inside) && Pending(sets, pos, inside, queue) && e.start
    requires forall f :: f in queue ==> NoLater(e, f)
    ensures EndBehind(sets, pos, inside, e.index)
  {
    forall s <- inside ensures e.index < sets[s][pos[s]].End() {
      assert EventAt(sets, s, pos[s], false) in queue;
    }
  }

  lemma StartKeepsWide(sets: seq<seq<Range>>, pos: seq<nat>, inside: set<nat>, e: Event)
    requires AllNormal(sets) && Shape(sets, pos, inside) && EndBehind(sets, pos, inside, e.index)
    requires e.s < |sets| && pos[e.s] < |sets[e.s]| && e.index == sets[e.s][pos[e.s]].first
    ensures Shape(sets, pos, inside + {e.s}) && EndBehind(sets, pos, inside + {e.s}, e.index)
  {
    assert NormalForm(sets[e.s]);
  }

  /** Handles one event: counts the sets the sweep line is inside of and closes a range of
      the output when it leaves the first of them. */
  method Advance(sets: seq<seq<Range>>, e: Event, running: nat, rangeStart: nat, out: seq<Range>,
                 ghost pos: seq<nat>, ghost inside: set<nat>, ghost at: nat)
    returns (running': nat, rangeStart': nat, out': seq<Range>, i: nat, ghost pos': seq<nat>, ghost inside': set<nat>)
    requires AllNormal(sets) && Shape(sets, pos, inside) && Sweep(sets, pos, inside, at, rangeStart, out)
    requires e.s < |sets| && pos[e.s] < |sets[e.s]| && e == EventAt(sets, e.s, pos[e.s], e.start)
    requires (e.start <==> e.s !in inside) && Reaches(sets, pos, inside, e.index) && running == |inside|
    requires NonEmpty(out) && Wide(sets, pos, inside, rangeStart)
    requires e.start ==> EndBehind(sets, pos, inside, e.index)
    ensures Moves(sets, pos, inside, e, pos', inside') && Shape(sets, pos', inside')
    ensures NonEmpty(out') && Wide(sets, pos', inside', rangeStart')
    ensures Sweep(sets, pos', inside', e.index, rangeStart', out') && running' == |inside'| && i == pos'[e.s]
  {
    hide Sweep, Open, InAll, AllNormal, Reaches, Covers, Apart;
    running', rangeStart', out', i, pos', inside' := running, rangeStart, out, e.i, pos, inside;
    OpenIffAll(sets, pos, inside);
    if e.start {
      StartKeepsWide(sets, pos, inside, e);
      running' := running + 1;
      inside' := inside + {e.s};
      if running' == |sets| {
        rangeStart' := e.index;
      }
      OpenIffAll(sets, pos, inside');
      StartKeepsSweep(sets, pos, inside, at, rangeStart, out, e.index, e.s, inside', rangeStart');
    } else {
      if running == |sets| {
        OpenStart(sets, pos, inside, at, rangeStart, out, e.s);
        assert rangeStart < e.index;
        out' := out + [Range(rangeStart, e.index - rangeStart)];
      }
      running' := running - 1;
      i := i + 1;
      pos', inside' := pos[e.s := pos[e.s] + 1], inside - {e.s};
      EndKeepsSweep(sets, pos, inside, at, rangeStart, out, e.index, e.s, pos', inside', out');
      NotOpen(sets, inside', e.s);
    }
  }

  lemma NotOpen(sets: seq<seq<Range>>, inside: set<nat>, s: nat)
    requires s < |sets| && s !in inside
    ensures !Open(sets, inside)
  {
  }

  /** The sweep itself; `out` covers exactly the indices in all sets, with no empty range. */
  method SweepLine(sets: seq<seq<Range>>) returns (out: seq<Range>)
    requires AllNormal(sets) && sets != [] && forall s :: 0 <= s < |sets| ==> sets[s] != []
    ensures Apart(out) && NonEmpty(out) && forall x: nat :: Covers(out, x) <==> InAll(sets, x)
  {
    hide Pending, Future, Sweep, InAll, AllNormal, Reaches, AllEvents, NoLater, Covers, Apart, EndBehind;
    var queue := FirstStarts(sets);
    var rangeStart, running := 0, 0;
    out := [];
    ghost var pos: seq<nat>, inside: set<nat>, at := seq(|sets|, _ => 0), {}, 0;
    ghost var todo := AllEvents(sets);
    InitSweep(sets);
    NotOpen(sets, inside, 0);
    while queue != {}
      invariant Shape(sets, pos, inside) && Pending(sets, pos, inside, queue) && Future(sets, pos, inside, todo)
      invariant Sweep(sets, pos, inside, at, rangeStart, out) && running == |inside|
      invariant NonEmpty(out) && Wide(sets, pos, inside, rangeStart)
      decreases |todo|
    {
      var e, rest := PopTop(queue);
      if e.start {
        StartsBeforeEnds(sets, pos, inside, queue, e);
      }
      SmallestReaches(sets, pos, inside, queue, e);
      EventIsPending(sets, pos, inside, queue, e);
      ghost var pos', inside';
      var i;
      running, rangeStart, out, i, pos', inside' := Advance(sets, e, running, rangeStart, out, pos, inside, at);
      if |sets[e.s]| != i {
        rest := rest + {EventAt(sets, e.s, i, !e.start)};
      }
      MoveKeepsQueue(sets, pos, inside, queue, e, pos', inside', rest);
      MoveKeepsFuture(sets, pos, inside, queue, e, pos', inside', todo);
      pos, inside, at, todo, queue := pos', inside', e.index, todo - {e}, rest;
    }
    NothingPending(sets, pos, inside, queue);
    SweptAll(sets, pos, inside, at, rangeStart, out);
  }

  /** The intersection, or nothing when one of the sets is empty: an index is in the result
      exactly when it is in every one of at least one set. */
  method Intersect(sets: seq<seq<Range>>) returns (r: Option<seq<Range>>)
    requires AllNormal(sets)
    ensures r.None? <==> exists s :: 0 <= s < |sets| && sets[s] == []
    ensures r.Some? ==> NormalForm(r.value)
    ensures r.Some? ==> forall x: nat :: Covers(r.value, x) <==> sets != [] && InAll(sets, x)
  {
    if exists s :: 0 <= s < |sets| && sets[s] == [] {
      return None;
    }
    var out := [];
    if sets != [] {
      out := SweepLine(sets);
    }
    ApartCutsNothing(out);
    var ranges := RangeSet(out, false);
    forall x: nat ensures Covers(ranges, x) <==> sets != [] && InAll(sets, x) {
      assert Covers(ranges, x) <==> Covers(out, x);
    }
    return Some(ranges);
  }
}
