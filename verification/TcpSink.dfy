/** Reassembly in the TCP sink. */
module TcpSink {

  /** The last byte received in order, and the segments kept beyond it. */
  datatype Sink = Sink(ack: nat, received: seq<nat>)

  // ---------- what one segment does ----------

  /** Acknowledges kept segments as long as they are next in line, each counted with the
      size of the segment that just arrived. */
  function Drain(s: Sink, size: nat): Sink
    decreases |s.received|
  {
    if s.received != [] && s.received[0] == s.ack + 1 then Drain(Sink(s.ack + size, s.received[1..]), size) else s
  }

  /** Keeps a segment in order unless it is there already. */
  function Keep(received: seq<nat>, seqno: nat): seq<nat> {
    if received == [] then [seqno]
    else if seqno == received[0] then received
    else if seqno < received[0] then [seqno] + received
    else [received[0]] + Keep(received[1..], seqno)
  }

  /** A segment numbered 1 starts the flow anew. */
  function Receive(s: Sink, seqno: nat, size: nat): Sink {
    var s0 := if seqno == 1 then Sink(0, []) else s;
    if seqno == s0.ack + 1 then Drain(Sink(seqno + size - 1, s0.received), size)
    else if seqno < s0.ack + 1 then s0
    else Sink(s0.ack, Keep(s0.received, seqno))
  }

  class TCPSink {
    var cumulativeAck: nat
    var received: seq<nat>

    ghost function State(): Sink
      reads this
    {
      Sink(cumulativeAck, received)
    }

    constructor ()
      ensures State() == Sink(0, [])
    {
      cumulativeAck, received := 0, [];
    }

    method Reset()
      modifies this
      ensures State() == Sink(0, [])
    {
      cumulativeAck, received := 0, [];
    }

    /** The result is the number that the acknowledgement carries. */
    method ReceivePacket(seqno: nat, size: nat) returns (ack: nat)
      requires Increasing(received)
      modifies this
      ensures State() == Receive(old(State()), seqno, size) && ack == State().ack
      ensures Increasing(received)
    {
      hide Drain, Keep;
      if seqno == 1 {
        Reset();
      }
      ghost var s := State();
      if seqno == cumulativeAck + 1 {
        cumulativeAck := seqno + size - 1;
        while received != [] && received[0] == cumulativeAck + 1
          invariant Increasing(received) && Drain(State(), size) == Drain(Sink(seqno + size - 1, s.received), size)
          decreases |received|
        {
          DrainStep(State(), size);
          received := received[1..];
          cumulativeAck := cumulativeAck + size;
        }
        DrainStep(State(), size);
      } else if seqno > cumulativeAck + 1 {
        KeepFirst(seqno);
        KeepLast(received, seqno);
        KeepContents(received, seqno);
        if received == [] {
          received := [seqno];
        } else if seqno > received[|received| - 1] {
          received := received + [seqno];
        } else {
          var i := 0;
          while received[i] < seqno
            invariant 0 <= i < |received| && forall j :: 0 <= j < i ==> received[j] < seqno
          {
            i := i + 1;
          }
          KeepAt(received, seqno, i);
          if seqno < received[i] {
            received := PutAt(received, seqno, i);
          }
        }
      }
      ack := cumulativeAck;
    }
  }

  lemma DrainStep(s: Sink, size: nat)
    ensures Drain(s, size) ==
      if s.received != [] && s.received[0] == s.ack + 1 then Drain(Sink(s.ack + size, s.received[1..]), size) else s
  {
  }

  lemma KeepFirst(seqno: nat)
    ensures Keep([], seqno) == [seqno]
  {
  }

  ghost predicate Increasing(received: seq<nat>) {
    forall i, j :: 0 <= i < j < |received| ==> received[i] < received[j]
  }

  lemma {:induction false} KeepLast(received: seq<nat>, seqno: nat)
    requires Increasing(received)
    ensures received != [] && seqno > received[|received| - 1] ==> Keep(received, seqno) == received + [seqno]
  {
    if |received| > 1 {
      KeepLast(received[1..], seqno);
      assert received == [received[0]] + received[1..];
    }
  }

  /** The list with `seqno` put in at position `i`. */
  function PutAt(received: seq<nat>, seqno: nat, i: nat): seq<nat>
    requires i <= |received|
  {
    received[..i] + [seqno] + received[i..]
  }

  lemma PutLater(received: seq<nat>, seqno: nat, i: nat)
    requires 0 < i <= |received|
    ensures PutAt(received, seqno, i) == [received[0]] + PutAt(received[1..], seqno, i - 1)
  {
    assert received == [received[0]] + received[1..];
    assert received[..i] == [received[0]] + received[1..][..i - 1];
    assert received[i..] == received[1..][i - 1..];
  }

  lemma {:induction false} KeepAt(received: seq<nat>, seqno: nat, i: nat)
    requires i < |received| && seqno <= received[i] && forall j :: 0 <= j < i ==> received[j] < seqno
    ensures Keep(received, seqno) == if received[i] == seqno then received else PutAt(received, seqno, i)
  {
    if i > 0 {
      KeepAt(received[1..], seqno, i - 1);
      PutLater(received, seqno, i);
      hide PutAt;
      assert received == [received[0]] + received[1..];
    } else {
      assert received[..0] == [] && received[0..] == received;
    }
  }

  lemma {:induction false} KeepContents(received: seq<nat>, seqno: nat)
    requires Increasing(received)
    ensures Increasing(Keep(received, seqno))
    ensures forall x :: x in Keep(received, seqno) <==> x in received || x == seqno
  {
    if received != [] {
      KeepContents(received[1..], seqno);
      assert received == [received[0]] + received[1..];
      var tail := Keep(received[1..], seqno);
      if seqno > received[0] {
        forall k | 0 <= k < |tail| ensures received[0] < tail[k] {
          assert tail[k] in tail;
        }
      }
    }
  }

  // ---------- segments that lie end to end ----------

  /** The size of each segment of the flow. */
  type Sizes = nat -> nat

  ghost predicate AllPositive(sizes: Sizes) {
    forall k: nat :: sizes(k) > 0
  }

  /** The first byte of segment number `k`. */
  ghost function Start(k: nat, sizes: Sizes): nat {
    if k == 0 then 1 else Start(k - 1, sizes) + sizes(k - 1)
  }

  lemma {:induction false} StartsAscend(a: nat, b: nat, sizes: Sizes)
    requires AllPositive(sizes) && a < b
    ensures Start(a, sizes) < Start(b, sizes)
  {
    if a < b - 1 {
      StartsAscend(a, b - 1, sizes);
    }
    assert sizes(b - 1) > 0;
  }

  lemma StartOrder(a: nat, b: nat, sizes: Sizes)
    requires AllPositive(sizes)
    ensures Start(a, sizes) < Start(b, sizes) <==> a < b
    ensures Start(a, sizes) == Start(b, sizes) <==> a == b
  {
    hide Start;
    if a < b {
      StartsAscend(a, b, sizes);
    } else if b < a {
      StartsAscend(b, a, sizes);
    }
  }

  /** The first `n` segments are all there and the next one is not. */
  ghost predicate LongestPrefix(got: seq<nat>, n: nat) {
    (forall k: nat :: k < n ==> k in got) && n !in got
  }

  /** What is kept are exactly the segments from number `n` on. */
  ghost predicate KeepsFrom(received: seq<nat>, got: seq<nat>, n: nat, sizes: Sizes) {
    && Increasing(received)
    && (forall i :: 0 <= i < |received| ==> IsStart(received[i], got, n, sizes))
    && (forall k :: k in got && k >= n ==> Start(k, sizes) in received)
  }

  ghost predicate IsStart(x: nat, got: seq<nat>, n: nat, sizes: Sizes) {
    exists k: nat :: k >= n && k in got && x == Start(k, sizes)
  }

  /** The acknowledged bytes are those of the longest prefix of the segments `got`, and the
      list holds exactly the segments beyond it. */
  ghost predicate SinkOk(s: Sink, got: seq<nat>, n: nat, sizes: Sizes) {
    s.ack + 1 == Start(n, sizes) && LongestPrefix(got, n) && KeepsFrom(s.received, got, n, sizes)
  }

  ghost predicate InOrder(s: Sink, got: seq<nat>, sizes: Sizes) {
    exists n: nat :: SinkOk(s, got, n, sizes)
  }

  lemma OnePrefix(got: seq<nat>, m: nat, n: nat)
    requires LongestPrefix(got, m) && LongestPrefix(got, n)
    ensures m == n
  {
  }

  ghost function Beyond(got: seq<nat>): nat {
    if got == [] then 0 else
      var rest := Beyond(got[1..]);
      if got[0] >= rest then got[0] + 1 else rest
  }

  lemma {:induction false} BeyondAll(got: seq<nat>, k: nat)
    requires k in got
    ensures k < Beyond(got)
  {
    assert got == [got[0]] + got[1..];
    if k != got[0] {
      BeyondAll(got[1..], k);
    }
  }

  lemma {:induction false} PrefixExists(got: seq<nat>, m: nat) returns (n: nat)
    requires forall k: nat :: k < m ==> k in got
    ensures m <= n && LongestPrefix(got, n)
    decreases Beyond(got) - m
  {
    if m in got {
      BeyondAll(got, m);
      n := PrefixExists(got, m + 1);
    } else {
      n := m;
    }
  }

  // ---------- draining the list ----------

  lemma FirstIsNext(received: seq<nat>, got: seq<nat>, m: nat, sizes: Sizes)
    requires AllPositive(sizes) && KeepsFrom(received, got, m, sizes) && m in got
    ensures received != [] && received[0] == Start(m, sizes)
  {
    assert Start(m, sizes) in received;
    var i :| 0 <= i < |received| && received[i] == Start(m, sizes);
    assert IsStart(received[0], got, m, sizes);
    var k: nat :| k >= m && k in got && received[0] == Start(k, sizes);
    hide Start;
    StartOrder(k, m, sizes);
    StartOrder(m, k, sizes);
  }

  lemma FirstIsLater(received: seq<nat>, got: seq<nat>, m: nat, sizes: Sizes)
    requires AllPositive(sizes) && KeepsFrom(received, got, m, sizes) && m !in got
    ensures received != [] ==> received[0] > Start(m, sizes)
  {
    hide Start;
    if received != [] {
      assert IsStart(received[0], got, m, sizes);
      var k: nat :| k >= m && k in got && received[0] == Start(k, sizes);
      StartOrder(m, k, sizes);
    }
  }

  lemma DropFirst(received: seq<nat>, got: seq<nat>, m: nat, sizes: Sizes)
    requires AllPositive(sizes) && KeepsFrom(received, got, m, sizes) && m in got
    requires received != [] && received[0] == Start(m, sizes)
    ensures KeepsFrom(received[1..], got, m + 1, sizes)
  {
    hide Start;
    var rest := received[1..];
    forall i | 0 <= i < |rest| ensures IsStart(rest[i], got, m + 1, sizes) {
      assert IsStart(received[i + 1], got, m, sizes);
      var k: nat :| k >= m && k in got && received[i + 1] == Start(k, sizes);
      assert received[0] < received[i + 1];
      assert k != m;
    }
    forall k | k in got && k >= m + 1 ensures Start(k, sizes) in rest {
      StartOrder(m, k, sizes);
      assert Start(k, sizes) in received;
      var i :| 0 <= i < |received| && received[i] == Start(k, sizes);
      assert rest[i - 1] == received[i];
    }
  }

  /** Draining only takes segments off the front. */
  lemma {:induction false} DrainDrops(s: Sink, size: nat) returns (k: nat)
    ensures k <= |s.received| && Drain(s, size).received == s.received[k..] && (k == 0 ==> Drain(s, size) == s)
    decreases |s.received|
  {
    if s.received != [] && s.received[0] == s.ack + 1 {
      var rest := s.received[1..];
      var m := DrainDrops(Sink(s.ack + size, rest), size);
      k := m + 1;
      assert rest[m..] == s.received[k..];
    } else {
      k := 0;
    }
  }

  lemma OneIndex(received: seq<nat>, i: nat, j: nat)
    requires Increasing(received) && i < |received| && j < |received| && received[i] == received[j]
    ensures i == j
  {
  }

  /** A list without its first element does not keep everything any more. */
  lemma NothingMayGo(received: seq<nat>, k: nat, got: seq<nat>, m: nat, sizes: Sizes)
    requires k <= |received| && KeepsFrom(received, got, m, sizes) && KeepsFrom(received[k..], got, m, sizes)
    ensures k == 0
  {
    hide Start;
    if received != [] {
      assert IsStart(received[0], got, m, sizes);
      assert received[0] in received[k..];
      var i :| 0 <= i < |received[k..]| && received[k..][i] == received[0];
      OneIndex(received, k + i, 0);
    }
  }

  /** With the next segment missing, draining leaves the sink in order exactly when it was. */
  lemma DrainStops(s: Sink, got: seq<nat>, n: nat, sizes: Sizes, size: nat)
    requires AllPositive(sizes) && KeepsFrom(s.received, got, n, sizes) && LongestPrefix(got, n)
    ensures SinkOk(Drain(s, size), got, n, sizes) <==> s.ack + 1 == Start(n, sizes)
  {
    hide Start, IsStart;
    if s.ack + 1 == Start(n, sizes) {
      FirstIsLater(s.received, got, n, sizes);
    }
    if SinkOk(Drain(s, size), got, n, sizes) {
      var k := DrainDrops(s, size);
      NothingMayGo(s.received, k, got, n, sizes);
    }
  }

  /** Segments `m` to `n - 1` have the given size. */
  ghost predicate AllOfSize(m: nat, n: nat, sizes: Sizes, size: nat) {
    forall j: nat :: m <= j < n ==> sizes(j) == size
  }

  lemma StopsTooEarly(s: Sink, got: seq<nat>, m: nat, n: nat, sizes: Sizes, size: nat)
    requires AllPositive(sizes) && KeepsFrom(s.received, got, m, sizes) && m in got && m < n
    requires s.ack + 1 != Start(m, sizes)
    ensures !SinkOk(Drain(s, size), got, n, sizes)
  {
    hide Start;
    FirstIsNext(s.received, got, m, sizes);
    assert Drain(s, size) == s;
    if KeepsFrom(s.received, got, n, sizes) {
      assert IsStart(s.received[0], got, n, sizes);
      var k: nat :| k >= n && k in got && s.received[0] == Start(k, sizes);
      StartOrder(m, k, sizes);
    }
  }

  lemma AllOfSizeStep(m: nat, n: nat, sizes: Sizes, size: nat)
    requires m < n
    ensures AllOfSize(m, n, sizes, size) <==> sizes(m) == size && AllOfSize(m + 1, n, sizes, size)
    ensures Start(m + 1, sizes) == Start(m, sizes) + sizes(m)
  {
  }

  lemma PrefixHas(got: seq<nat>, n: nat, m: nat)
    requires LongestPrefix(got, n) && m < n
    ensures m in got
  {
  }

  /** Draining ends in order exactly when it starts at the next segment and all segments
      up to the first gap have the size it counts them with. */
  lemma {:induction false} DrainIff(s: Sink, got: seq<nat>, m: nat, n: nat, sizes: Sizes, size: nat)
    requires AllPositive(sizes) && KeepsFrom(s.received, got, m, sizes) && LongestPrefix(got, n) && m <= n
    ensures SinkOk(Drain(s, size), got, n, sizes) <==> s.ack + 1 == Start(m, sizes) && AllOfSize(m, n, sizes, size)
    decreases n - m
  {
    hide Start, KeepsFrom, LongestPrefix, SinkOk, AllPositive, AllOfSize;
    if m == n {
      DrainStops(s, got, n, sizes, size);
      NoneOfSize(n, sizes, size);
    } else if s.ack + 1 != Start(m, sizes) {
      PrefixHas(got, n, m);
      StopsTooEarly(s, got, m, n, sizes, size);
    } else {
      PrefixHas(got, n, m);
      FirstIsNext(s.received, got, m, sizes);
      DropFirst(s.received, got, m, sizes);
      AllOfSizeStep(m, n, sizes, size);
      DrainIff(Sink(s.ack + size, s.received[1..]), got, m + 1, n, sizes, size);
    }
  }

  lemma NoneOfSize(n: nat, sizes: Sizes, size: nat)
    ensures AllOfSize(n, n, sizes, size)
  {
  }

  // ---------- one more segment ----------

  /** A packet with the first byte of segment `k` and some number of bytes. */
  datatype Arrival = Arrival(k: nat, size: nat)

  /** The packet is one that the sink handles rightly when the first `n` segments and those
      in `got` have arrived: the first and the next expected segment must come with their own
      size, and so must have every kept segment in the run right behind the next one. */
  ghost predicate Fits(a: Arrival, got: seq<nat>, n: nat, sizes: Sizes) {
    if a.k == 0 then a.size == sizes(0)
    else if a.k == n then
      a.size == sizes(n) && forall j: nat :: j > n && RunBehind(got, n, j) ==> sizes(j) == a.size
    else true
  }

  /** All segments after `n`, up to and including `j`, have arrived. */
  ghost predicate RunBehind(got: seq<nat>, n: nat, j: nat) {
    forall i: nat :: n < i <= j ==> i in got
  }

  function After(got: seq<nat>, k: nat): seq<nat> {
    if k == 0 then [0] else got + [k]
  }

  lemma KeepsMore(received: seq<nat>, got: seq<nat>, n: nat, sizes: Sizes, k: nat)
    requires KeepsFrom(received, got, n, sizes) && k >= n
    ensures KeepsFrom(Keep(received, Start(k, sizes)), got + [k], n, sizes)
  {
    hide Start;
    KeepContents(received, Start(k, sizes));
    hide Keep;
    var kept := Keep(received, Start(k, sizes));
    forall i | 0 <= i < |kept| ensures IsStart(kept[i], got + [k], n, sizes) {
      assert kept[i] in kept;
      if kept[i] == Start(k, sizes) {
        assert k in got + [k];
      } else {
        var j :| 0 <= j < |received| && received[j] == kept[i];
        assert IsStart(received[j], got, n, sizes);
      }
    }
  }

  lemma SkipNext(received: seq<nat>, got: seq<nat>, n: nat, sizes: Sizes)
    requires KeepsFrom(received, got, n, sizes) && n !in got
    ensures KeepsFrom(received, got + [n], n + 1, sizes)
  {
    hide Start;
    forall i | 0 <= i < |received| ensures IsStart(received[i], got + [n], n + 1, sizes) {
      assert IsStart(received[i], got, n, sizes);
    }
  }

  lemma SameKept(received: seq<nat>, got: seq<nat>, n: nat, sizes: Sizes, k: nat)
    requires KeepsFrom(received, got, n, sizes) && k < n
    ensures KeepsFrom(received, got + [k], n, sizes)
  {
    hide Start;
    forall i | 0 <= i < |received| ensures IsStart(received[i], got + [k], n, sizes) {
      assert IsStart(received[i], got, n, sizes);
    }
  }

  lemma ReceiveFirst(s: Sink, sizes: Sizes, size: nat)
    requires AllPositive(sizes)
    ensures InOrder(Receive(s, 1, size), [0], sizes) <==> size == sizes(0)
  {
    assert Receive(s, 1, size) == Sink(size, []);
    assert Start(0, sizes) == 1 && Start(1, sizes) == 1 + sizes(0);
    assert LongestPrefix([0], 1);
    if size == sizes(0) {
      assert SinkOk(Sink(size, []), [0], 1, sizes);
    }
    if InOrder(Sink(size, []), [0], sizes) {
      var n: nat :| SinkOk(Sink(size, []), [0], n, sizes);
      OnePrefix([0], n, 1);
    }
  }

  lemma RunIsPrefix(got: seq<nat>, n: nat, next: nat, sizes: Sizes, size: nat)
    requires LongestPrefix(got, n) && LongestPrefix(got + [n], next) && n < next
    ensures AllOfSize(n + 1, next, sizes, size) <==> forall j: nat :: j > n && RunBehind(got, n, j) ==> sizes(j) == size
  {
    forall j: nat | j > n ensures RunBehind(got, n, j) <==> j < next {
      if j < next {
        forall i: nat | n < i <= j ensures i in got {
          assert i in got + [n];
        }
      } else {
        assert next !in got && n < next <= j;
      }
    }
  }

  lemma ReceiveDrains(s: Sink, n: nat, sizes: Sizes, size: nat)
    requires AllPositive(sizes) && s.ack + 1 == Start(n, sizes) && n > 0
    ensures Start(n, sizes) > 1 && Start(n + 1, sizes) == Start(n, sizes) + sizes(n)
    ensures Receive(s, Start(n, sizes), size) == Drain(Sink(Start(n, sizes) + size - 1, s.received), size)
  {
    hide Drain;
    StartOrder(0, n, sizes);
    assert Start(0, sizes) == 1;
  }

  lemma SinkParts(s: Sink, got: seq<nat>, n: nat, sizes: Sizes)
    requires SinkOk(s, got, n, sizes)
    ensures s.ack + 1 == Start(n, sizes) && LongestPrefix(got, n) && KeepsFrom(s.received, got, n, sizes) && n !in got
    ensures forall k: nat :: k < n + 1 ==> k in got + [n]
  {
  }

  lemma ReceiveNext(s: Sink, got: seq<nat>, n: nat, sizes: Sizes, size: nat)
    requires AllPositive(sizes) && SinkOk(s, got, n, sizes) && n > 0
    ensures InOrder(Receive(s, Start(n, sizes), size), got + [n], sizes) <==> Fits(Arrival(n, size), got, n, sizes)
  {
    hide Receive, Drain, Start, KeepsFrom, LongestPrefix, SinkOk, AllPositive, AllOfSize, RunBehind;
    var got' := got + [n];
    SinkParts(s, got, n, sizes);
    ReceiveDrains(s, n, sizes, size);
    var drained := Sink(Start(n, sizes) + size - 1, s.received);
    SkipNext(s.received, got, n, sizes);
    var next := PrefixExists(got', n + 1);
    DrainIff(drained, got', n + 1, next, sizes, size);
    RunIsPrefix(got, n, next, sizes, size);
    InOrderAt(Drain(drained, size), got', next, sizes);
  }

  lemma InOrderAt(s: Sink, got: seq<nat>, n: nat, sizes: Sizes)
    requires LongestPrefix(got, n)
    ensures InOrder(s, got, sizes) <==> SinkOk(s, got, n, sizes)
  {
    hide KeepsFrom, Start;
    if n': nat :| SinkOk(s, got, n', sizes) {
      OnePrefix(got, n', n);
    }
  }

  lemma ReceiveOther(s: Sink, got: seq<nat>, n: nat, sizes: Sizes, a: Arrival)
    requires AllPositive(sizes) && SinkOk(s, got, n, sizes) && a.k != 0 && a.k != n
    ensures SinkOk(Receive(s, Start(a.k, sizes), a.size), got + [a.k], n, sizes)
  {
    hide Start, KeepsFrom, Drain, Keep, AllPositive, LongestPrefix;
    StartFirst(sizes);
    SamePrefix(got, n, a.k);
    StartOrder(0, a.k, sizes);
    StartOrder(a.k, n, sizes);
    StartOrder(n, a.k, sizes);
    if a.k < n {
      SameKept(s.received, got, n, sizes, a.k);
    } else {
      KeepsMore(s.received, got, n, sizes, a.k);
    }
  }

  lemma SamePrefix(got: seq<nat>, n: nat, k: nat)
    requires LongestPrefix(got, n) && k != n
    ensures LongestPrefix(got + [k], n)
  {
  }

  lemma StartFirst(sizes: Sizes)
    ensures Start(0, sizes) == 1
  {
  }

  /** One more packet, in any order and possibly a duplicate, leaves a sink in order if and
      only if it fits. */
  lemma ReceiveIff(s: Sink, got: seq<nat>, n: nat, sizes: Sizes, a: Arrival)
    requires AllPositive(sizes) && SinkOk(s, got, n, sizes)
    ensures InOrder(Receive(s, Start(a.k, sizes), a.size), After(got, a.k), sizes) <==> Fits(a, got, n, sizes)
  {
    hide Receive, SinkOk, RunBehind, AllPositive;
    if a.k == 0 {
      assert Start(0, sizes) == 1;
      ReceiveFirst(s, sizes, a.size);
    } else if a.k == n {
      ReceiveNext(s, got, n, sizes, a.size);
    } else {
      ReceiveOther(s, got, n, sizes, a);
    }
  }

  // ---------- runs ----------

  /** The segments that arrived since the last one numbered 1, that one included. */
  function SinceFirst(arrived: seq<Arrival>): seq<nat> {
    if arrived == [] then [] else After(SinceFirst(arrived[..|arrived| - 1]), arrived[|arrived| - 1].k)
  }

  ghost function Run(arrived: seq<Arrival>, sizes: Sizes): Sink {
    if arrived == [] then Sink(0, [])
    else
      var a := arrived[|arrived| - 1];
      Receive(Run(arrived[..|arrived| - 1], sizes), Start(a.k, sizes), a.size)
  }

  /** Each packet fits what has arrived before it. */
  ghost predicate AllFit(arrived: seq<Arrival>, sizes: Sizes) {
    forall i, n: nat :: 0 <= i < |arrived| && LongestPrefix(SinceFirst(arrived[..i]), n) ==>
      Fits(arrived[i], SinceFirst(arrived[..i]), n, sizes)
  }

  /** The sink is in order after every packet. */
  ghost predicate AlwaysInOrder(arrived: seq<Arrival>, sizes: Sizes) {
    forall i :: 0 <= i <= |arrived| ==> InOrder(Run(arrived[..i], sizes), SinceFirst(arrived[..i]), sizes)
  }

  lemma EmptyInOrder(sizes: Sizes)
    ensures InOrder(Run([], sizes), SinceFirst([]), sizes)
  {
    assert SinkOk(Sink(0, []), [], 0, sizes);
  }

  lemma RunStep(arrived: seq<Arrival>, sizes: Sizes, i: nat)
    requires i < |arrived|
    ensures Run(arrived[..i + 1], sizes)
         == Receive(Run(arrived[..i], sizes), Start(arrived[i].k, sizes), arrived[i].size)
    ensures SinceFirst(arrived[..i + 1]) == After(SinceFirst(arrived[..i]), arrived[i].k)
  {
    assert arrived[..i + 1][..i] == arrived[..i];
  }

  /** In a run that is in order so far, the next packet keeps it so exactly when it fits. */
  lemma StepIff(arrived: seq<Arrival>, sizes: Sizes, i: nat)
    requires AllPositive(sizes) && i < |arrived| && InOrder(Run(arrived[..i], sizes), SinceFirst(arrived[..i]), sizes)
    ensures InOrder(Run(arrived[..i + 1], sizes), SinceFirst(arrived[..i + 1]), sizes) <==>
      forall n: nat :: LongestPrefix(SinceFirst(arrived[..i]), n) ==>
        Fits(arrived[i], SinceFirst(arrived[..i]), n, sizes)
  {
    var got := SinceFirst(arrived[..i]);
    var n: nat :| SinkOk(Run(arrived[..i], sizes), got, n, sizes);
    assert LongestPrefix(got, n);
    ReceiveIff(Run(arrived[..i], sizes), got, n, sizes, arrived[i]);
    RunStep(arrived, sizes, i);
    hide *;
    forall m: nat | LongestPrefix(got, m) ensures m == n {
      OnePrefix(got, m, n);
    }
  }

  lemma {:induction false} FitsUpTo(arrived: seq<Arrival>, sizes: Sizes, i: nat)
    requires AllPositive(sizes) && AllFit(arrived, sizes) && i <= |arrived|
    ensures InOrder(Run(arrived[..i], sizes), SinceFirst(arrived[..i]), sizes)
  {
    if i == 0 {
      EmptyInOrder(sizes);
    } else {
      FitsUpTo(arrived, sizes, i - 1);
      StepIff(arrived, sizes, i - 1);
    }
  }

  /** In every run the sink is in order after each packet if and only if each packet fits
      what has arrived before it. */
  lemma RunIff(arrived: seq<Arrival>, sizes: Sizes)
    requires AllPositive(sizes)
    ensures AlwaysInOrder(arrived, sizes) <==> AllFit(arrived, sizes)
  {
    hide InOrder, Fits, LongestPrefix, Run, SinceFirst;
    if AllFit(arrived, sizes) {
      forall i | 0 <= i <= |arrived| ensures InOrder(Run(arrived[..i], sizes), SinceFirst(arrived[..i]), sizes) {
        FitsUpTo(arrived, sizes, i);
      }
    }
    if AlwaysInOrder(arrived, sizes) {
      forall i, n: nat | 0 <= i < |arrived| && LongestPrefix(SinceFirst(arrived[..i]), n)
        ensures Fits(arrived[i], SinceFirst(arrived[..i]), n, sizes)
      {
        StepIff(arrived, sizes, i);
      }
    }
  }

  /** For equal-size segments in any order, with any duplicates and losses, the
      acknowledgement is the longest contiguous prefix of the segments since the last one
      numbered 1, and what is kept are exactly the others, in order and beyond the next
      expected byte. */
  lemma AckIsLongestPrefix(arrived: seq<Arrival>, size: nat) returns (n: nat)
    requires size > 0 && forall i :: 0 <= i < |arrived| ==> arrived[i].size == size
    ensures var sizes := (k: nat) => size;
      && SinkOk(Run(arrived, sizes), SinceFirst(arrived), n, sizes) && Run(arrived, sizes).ack == n * size
      && forall i :: 0 <= i < |Run(arrived, sizes).received| ==>
        Run(arrived, sizes).received[i] > Run(arrived, sizes).ack + 1
  {
    var sizes: Sizes := (k: nat) => size;
    hide LongestPrefix, Run, SinceFirst, RunBehind, SinkOk;
    assert AllFit(arrived, sizes);
    hide Fits;
    FitsUpTo(arrived, sizes, |arrived|);
    assert arrived[..|arrived|] == arrived;
    n :| SinkOk(Run(arrived, sizes), SinceFirst(arrived), n, sizes);
    EqualStarts(n, sizes, size);
    BeyondNext(Run(arrived, sizes), SinceFirst(arrived), n, sizes);
    AckIs(Run(arrived, sizes), SinceFirst(arrived), n, sizes);
  }

  lemma AckIs(s: Sink, got: seq<nat>, n: nat, sizes: Sizes)
    requires SinkOk(s, got, n, sizes)
    ensures s.ack + 1 == Start(n, sizes)
  {
  }

  lemma {:induction false} EqualStarts(k: nat, sizes: Sizes, size: nat)
    requires forall j: nat :: sizes(j) == size
    ensures Start(k, sizes) == 1 + k * size
  {
    if k > 0 {
      EqualStarts(k - 1, sizes, size);
      assert k * size == (k - 1) * size + size;
    }
  }

  lemma BeyondNext(s: Sink, got: seq<nat>, n: nat, sizes: Sizes)
    requires AllPositive(sizes) && SinkOk(s, got, n, sizes)
    ensures forall i :: 0 <= i < |s.received| ==> s.received[i] > s.ack + 1
  {
    hide Start;
    forall i | 0 <= i < |s.received| ensures s.received[i] > s.ack + 1 {
      assert IsStart(s.received[i], got, n, sizes);
      var k: nat :| k >= n && k in got && s.received[i] == Start(k, sizes);
      StartOrder(n, k, sizes);
    }
  }

  // ---------- the same in bytes ----------

  /** Byte `b` belongs to one of the segments that arrived. */
  ghost predicate HasByte(got: seq<nat>, sizes: Sizes, b: nat) {
    exists k: nat :: k in got && Start(k, sizes) <= b < Start(k + 1, sizes)
  }

  lemma {:induction false} BytesBefore(got: seq<nat>, n: nat, sizes: Sizes, b: nat)
    requires (forall k: nat :: k < n ==> k in got) && 1 <= b < Start(n, sizes)
    ensures HasByte(got, sizes, b)
  {
    if b < Start(n - 1, sizes) {
      BytesBefore(got, n - 1, sizes, b);
    } else {
      assert n - 1 in got && Start(n - 1, sizes) <= b < Start(n - 1 + 1, sizes);
    }
  }

  /** A sink in order acknowledges exactly the bytes up to the first that is missing. */
  lemma AckInBytes(s: Sink, got: seq<nat>, sizes: Sizes)
    requires AllPositive(sizes) && InOrder(s, got, sizes)
    ensures forall b: nat :: 1 <= b <= s.ack ==> HasByte(got, sizes, b)
    ensures !HasByte(got, sizes, s.ack + 1)
  {
    var n: nat :| SinkOk(s, got, n, sizes);
    hide KeepsFrom;
    forall b: nat | 1 <= b <= s.ack ensures HasByte(got, sizes, b) {
      BytesBefore(got, n, sizes, b);
    }
    hide Start;
    forall k: nat | k in got ensures !(Start(k, sizes) <= s.ack + 1 < Start(k + 1, sizes)) {
      StartOrder(k, n, sizes);
      StartOrder(n, k + 1, sizes);
    }
  }

  /** Byte `b` came with one of the packets. */
  ghost predicate ByteArrived(arrived: seq<Arrival>, sizes: Sizes, b: nat) {
    exists i :: 0 <= i < |arrived| && Start(arrived[i].k, sizes) <= b < Start(arrived[i].k, sizes) + arrived[i].size
  }

  lemma RunSnoc(arrived: seq<Arrival>, a: Arrival, sizes: Sizes)
    ensures Run(arrived + [a], sizes) == Receive(Run(arrived, sizes), Start(a.k, sizes), a.size)
    ensures SinceFirst(arrived + [a]) == After(SinceFirst(arrived), a.k)
  {
    assert (arrived + [a])[..|arrived|] == arrived;
  }

  /** Two segments of 10 bytes, the others of 5. */
  ghost function LongThenShort(): Sizes {
    (k: nat) => if k < 2 then 10 else 5
  }

  lemma LongThenShortStarts()
    ensures var sizes := LongThenShort();
      && AllPositive(sizes) && Start(0, sizes) == 1 && Start(1, sizes) == 11 && Start(2, sizes) == 21
      && Start(3, sizes) == 26 && Start(4, sizes) == 31
  {
    var sizes := LongThenShort();
    assert Start(1, sizes) == 11;
    assert Start(2, sizes) == 21;
    assert Start(3, sizes) == 26;
  }

  lemma FirstAndThird()
    ensures var arrived, sizes := [Arrival(0, 10), Arrival(2, 5)], LongThenShort();
      Run(arrived, sizes) == Sink(10, [21]) && SinceFirst(arrived) == [0, 2]
  {
    var sizes := LongThenShort();
    LongThenShortStarts();
    hide Start, LongThenShort;
    RunSnoc([], Arrival(0, 10), sizes);
    RunSnoc([Arrival(0, 10)], Arrival(2, 5), sizes);
    assert [] + [Arrival(0, 10)] == [Arrival(0, 10)];
    assert [Arrival(0, 10)] + [Arrival(2, 5)] == [Arrival(0, 10), Arrival(2, 5)];
    assert Receive(Sink(0, []), 1, 10) == Sink(10, []);
    assert Receive(Sink(10, []), 21, 5) == Sink(10, [21]);
  }

  /** With a segment of 5 bytes early, the acknowledgement ends up at byte 30, although
      bytes 26 to 30 never arrived. */
  lemma SizesMustBeEqual()
    ensures var arrived, sizes := [Arrival(0, 10), Arrival(2, 5), Arrival(1, 10)], LongThenShort();
      && Run(arrived, sizes) == Sink(30, []) && !InOrder(Run(arrived, sizes), SinceFirst(arrived), sizes)
      && forall b: nat :: 26 <= b <= 30 ==> !ByteArrived(arrived, sizes, b)
  {
    var sizes, before := LongThenShort(), [Arrival(0, 10), Arrival(2, 5)];
    FirstAndThird();
    LongThenShortStarts();
    hide Start, LongThenShort;
    var arrived := [Arrival(0, 10), Arrival(2, 5), Arrival(1, 10)];
    RunSnoc(before, Arrival(1, 10), sizes);
    assert before + [Arrival(1, 10)] == arrived;
    assert Receive(Sink(10, [21]), 11, 10) == Drain(Sink(20, [21]), 10);
    assert Drain(Sink(20, [21]), 10) == Drain(Sink(30, []), 10) == Sink(30, []);
    var got := SinceFirst(arrived);
    assert got == [0, 2, 1];
    assert got[0] == 0 && got[1] == 2 && got[2] == 1;
    assert LongestPrefix(got, 3);
    InOrderAt(Sink(30, []), got, 3, sizes);
  }

  lemma DrainsOnce()
    ensures Receive(Sink(10, [21]), 26, 5) == Sink(10, [21, 26])
    ensures Receive(Sink(10, [21, 26]), 11, 10) == Sink(30, [26])
  {
    assert Keep([21], 26) == [21] + Keep([], 26);
    assert [21, 26][1..] == [26];
    assert Drain(Sink(20, [21, 26]), 10) == Drain(Sink(30, [26]), 10) == Sink(30, [26]);
  }

  /** With two segments of 5 bytes early the number comes out right by chance, but the start
      of the second stays in the list. */
  lemma StaleStartStays()
    ensures var arrived, sizes := [Arrival(0, 10), Arrival(2, 5), Arrival(3, 5), Arrival(1, 10)], LongThenShort();
      && Run(arrived, sizes) == Sink(30, [26]) && LongestPrefix(SinceFirst(arrived), 4) && Start(4, sizes) == 31
      && !InOrder(Run(arrived, sizes), SinceFirst(arrived), sizes)
  {
    var sizes, before := LongThenShort(), [Arrival(0, 10), Arrival(2, 5)];
    FirstAndThird();
    LongThenShortStarts();
    hide Start, LongThenShort;
    RunSnoc(before, Arrival(3, 5), sizes);
    RunSnoc(before + [Arrival(3, 5)], Arrival(1, 10), sizes);
    var arrived := [Arrival(0, 10), Arrival(2, 5), Arrival(3, 5), Arrival(1, 10)];
    assert before + [Arrival(3, 5)] + [Arrival(1, 10)] == arrived;
    DrainsOnce();
    hide Receive;
    var got := SinceFirst(arrived);
    assert got == [0, 2, 3, 1];
    assert got[0] == 0 && got[1] == 2 && got[2] == 3 && got[3] == 1;
    assert LongestPrefix(got, 4);
    InOrderAt(Sink(30, [26]), got, 4, sizes);
    assert [26][0] == 26 && !IsStart(26, got, 4, sizes);
  }
}
