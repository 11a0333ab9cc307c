/** The packet matcher: a seven-level tree of exact values and wildcards over rules that the
    matcher owns. */
module Match {
  import opened Basics
  import Actions

  datatype FiveTuple = FiveTuple(ipSrc: nat, ipDst: nat, ipProto: nat, srcPort: nat, dstPort: nat)

  datatype RuleKey = RuleKey(tag: nat, inputPort: nat, tuples: seq<FiveTuple>)

  /** A rule and its identity, with the weights of its actions. A rule without actions stands
      for a deletion. */
  datatype Rule = Rule(id: nat, key: RuleKey, weights: seq<nat>) {
    predicate HasActions() {
      weights != []
    }
  }

  const WILDCARD: nat := 0

  /** The fields in the order of the levels of the tree. */
  type Pattern = seq<nat>

  const LEVELS: nat := 7

  function PatternOf(t: FiveTuple, inputPort: nat, tag: nat): (p: Pattern)
    ensures |p| == LEVELS
  {
    [inputPort, tag, t.ipDst, t.ipSrc, t.ipProto, t.srcPort, t.dstPort]
  }

  /** Wildcard fields of the pattern match anything. */
  predicate Matches(p: Pattern, q: Pattern) {
    |p| == |q| && forall i :: 0 <= i < |p| ==> p[i] == WILDCARD || p[i] == q[i]
  }

  /** At the first field where they differ `a` is exact and `b` is not. */
  ghost predicate Prefers(a: Pattern, b: Pattern) {
    exists i :: 0 <= i < |a| && i < |b| && a[..i] == b[..i] && a[i] != WILDCARD && b[i] == WILDCARD
  }

  // ---------- the tree ----------

  datatype Node = Leaf(rule: Option<Rule>) | Inner(children: map<nat, Node>, wildcard: Option<Node>)

  ghost predicate Shaped(t: Node, levels: nat) {
    if levels == 0 then t.Leaf?
    else
      && t.Inner? && WILDCARD !in t.children
      && (forall k :: k in t.children ==> Shaped(t.children[k], levels - 1))
      && (t.wildcard.Some? ==> Shaped(t.wildcard.value, levels - 1))
  }

  function Fresh(levels: nat): (t: Node)
    ensures Shaped(t, levels)
  {
    if levels == 0 then Leaf(None) else Inner(map[], None)
  }

  /** The rule that the tree holds for exactly this pattern. */
  ghost function RuleAt(t: Node, p: Pattern): Option<Rule>
    requires Shaped(t, |p|)
    decreases |p|
  {
    if p == [] then t.rule
    else if p[0] == WILDCARD then (if t.wildcard.Some? then RuleAt(t.wildcard.value, p[1..]) else None)
    else if p[0] in t.children then RuleAt(t.children[p[0]], p[1..])
    else None
  }

  function InsertOrUpdate(t: Node, p: Pattern, r: Rule): (t': Node)
    requires Shaped(t, |p|)
    ensures Shaped(t', |p|)
    decreases |p|
  {
    if p == [] then Leaf(Some(r))
    else if p[0] == WILDCARD then
      var child := if t.wildcard.Some? then t.wildcard.value else Fresh(|p| - 1);
      t.(wildcard := Some(InsertOrUpdate(child, p[1..], r)))
    else
      var child := if p[0] in t.children then t.children[p[0]] else Fresh(|p| - 1);
      t.(children := t.children[p[0] := InsertOrUpdate(child, p[1..], r)])
  }

  function ClearRule(t: Node, levels: nat, r: Rule): (t': Node)
    requires Shaped(t, levels)
    ensures Shaped(t', levels)
    decreases levels
  {
    if levels == 0 then (if t.rule == Some(r) then Leaf(None) else t)
    else
      Inner(map k | k in t.children :: ClearRule(t.children[k], levels - 1, r),
            if t.wildcard.Some? then Some(ClearRule(t.wildcard.value, levels - 1, r)) else None)
  }

  function MatchBelow(t: Node, q: Pattern): Option<Rule>
    requires Shaped(t, |q|)
    decreases |q|
  {
    if q == [] then t.rule
    else
      var exact := if q[0] in t.children then MatchBelow(t.children[q[0]], q[1..]) else None;
      if exact.Some? then exact
      else if t.wildcard.Some? then MatchBelow(t.wildcard.value, q[1..])
      else None
  }

  lemma {:induction false} FreshIsEmpty(p: Pattern)
    ensures RuleAt(Fresh(|p|), p) == None
  {
  }

  /** Inserting changes the rule of one pattern. */
  lemma {:induction false} InsertAt(t: Node, p: Pattern, r: Rule, p': Pattern)
    requires Shaped(t, |p|) && |p'| == |p|
    ensures RuleAt(InsertOrUpdate(t, p, r), p') == if p' == p then Some(r) else RuleAt(t, p')
    decreases |p|
  {
    if p != [] {
      assert p == [p[0]] + p[1..] && p' == [p'[0]] + p'[1..];
      if p'[0] == p[0] {
        var has := if p[0] == WILDCARD then t.wildcard.Some? else p[0] in t.children;
        var child := if !has then Fresh(|p| - 1) else if p[0] == WILDCARD then t.wildcard.value else t.children[p[0]];
        InsertAt(child, p[1..], r, p'[1..]);
        if !has {
          FreshIsEmpty(p'[1..]);
        }
      }
    }
  }

  /** Clearing removes the rule from every pattern that has it, and changes nothing else. */
  lemma {:induction false} ClearAt(t: Node, r: Rule, p: Pattern)
    requires Shaped(t, |p|)
    ensures RuleAt(ClearRule(t, |p|, r), p) == if RuleAt(t, p) == Some(r) then None else RuleAt(t, p)
    decreases |p|
  {
    if p != [] {
      if p[0] == WILDCARD {
        if t.wildcard.Some? {
          ClearAt(t.wildcard.value, r, p[1..]);
        }
      } else if p[0] in t.children {
        ClearAt(t.children[p[0]], r, p[1..]);
      }
    }
  }

  /** `p` is the pattern that a scan of all patterns in the tree prefers for the packet. */
  ghost predicate IsBest(t: Node, q: Pattern, p: Pattern)
    requires Shaped(t, |q|)
  {
    && Matches(p, q) && RuleAt(t, p).Some?
    && forall p' :: Matches(p', q) && RuleAt(t, p').Some? && p' != p ==> Prefers(p, p')
  }

  lemma MatchesTail(p: Pattern, q: Pattern)
    requires p != [] && q != []
    ensures Matches(p, q) <==> (p[0] == WILDCARD || p[0] == q[0]) && Matches(p[1..], q[1..])
  {
  }

  lemma PrefersTail(a: Pattern, b: Pattern)
    requires a != [] && b != [] && a[0] == b[0] && Prefers(a[1..], b[1..])
    ensures Prefers(a, b)
  {
    var i :|
      && 0 <= i < |a[1..]| && i < |b[1..]|
      && a[1..][..i] == b[1..][..i] && a[1..][i] != WILDCARD && b[1..][i] == WILDCARD;
    assert a[..i + 1] == [a[0]] + a[1..][..i] && b[..i + 1] == [b[0]] + b[1..][..i];
    assert a[i + 1] != WILDCARD && b[i + 1] == WILDCARD;
  }

  lemma ExactFirst(a: Pattern, b: Pattern)
    requires a != [] && b != [] && a[0] != WILDCARD && b[0] == WILDCARD
    ensures Prefers(a, b)
  {
    assert a[..0] == b[..0];
  }

  /** A lookup returns the rule of the pattern that a scan prefers. */
  lemma {:induction false} LookupFindsBest(t: Node, q: Pattern) returns (p: Pattern)
    requires Shaped(t, |q|) && MatchBelow(t, q).Some?
    ensures IsBest(t, q, p) && RuleAt(t, p) == MatchBelow(t, q)
    decreases |q|
  {
    if q == [] {
      return [];
    }
    if q[0] in t.children && MatchBelow(t.children[q[0]], q[1..]).Some? {
      var tail := LookupFindsBest(t.children[q[0]], q[1..]);
      p := [q[0]] + tail;
      assert p[1..] == tail;
      forall p' | Matches(p', q) && RuleAt(t, p').Some? && p' != p ensures Prefers(p, p') {
        MatchesTail(p', q);
        if p'[0] == q[0] {
          assert p'[1..] != tail;
          PrefersTail(p, p');
        } else {
          ExactFirst(p, p');
        }
      }
    } else {
      var tail := LookupFindsBest(t.wildcard.value, q[1..]);
      p := [WILDCARD] + tail;
      assert p[1..] == tail;
      forall p' | Matches(p', q) && RuleAt(t, p').Some? && p' != p ensures Prefers(p, p') {
        MatchesTail(p', q);
        if p'[0] != WILDCARD {
          LookupMissesNone(t.children[q[0]], q[1..], p'[1..]);
        }
        PrefersTail(p, p');
      }
    }
    MatchesTail(p, q);
  }

  /** A lookup fails only when no pattern of the tree matches. */
  lemma {:induction false} LookupMissesNone(t: Node, q: Pattern, p: Pattern)
    requires Shaped(t, |q|) && Matches(p, q) && RuleAt(t, p).Some?
    ensures MatchBelow(t, q).Some?
    decreases |q|
  {
    if q != [] {
      MatchesTail(p, q);
      if p[0] == WILDCARD {
        LookupMissesNone(t.wildcard.value, q[1..], p[1..]);
      } else {
        LookupMissesNone(t.children[q[0]], q[1..], p[1..]);
      }
    }
  }

  // ---------- what a history of additions and deletions should leave behind ----------

  /** `p` is one of the first `n` patterns of the key. */
  predicate InFirst(key: RuleKey, n: nat, p: Pattern)
    requires n <= |key.tuples|
  {
    exists k :: 0 <= k < n && PatternOf(key.tuples[k], key.inputPort, key.tag) == p
  }

  predicate InKey(key: RuleKey, p: Pattern) {
    InFirst(key, |key.tuples|, p)
  }

  predicate Writes(r: Rule, p: Pattern) {
    r.HasActions() && InKey(r.key, p)
  }

  /** `i` is the last of the rules that were given for `p`, and its key has not been used
      again since. */
  ghost predicate IsServer(h: seq<Rule>, p: Pattern, i: nat) {
    && i < |h| && Writes(h[i], p)
    && (forall j :: i < j < |h| ==> !Writes(h[j], p) && h[j].key != h[i].key)
  }

  /** `i` is the last use of `key`, and it was not a deletion. */
  ghost predicate IsOwner(h: seq<Rule>, key: RuleKey, i: nat) {
    && i < |h| && h[i].key == key && h[i].HasActions()
    && (forall j :: i < j < |h| ==> h[j].key != key)
  }

  ghost predicate Serves(h: seq<Rule>, p: Pattern, r: Rule) {
    exists i: nat :: IsServer(h, p, i) && h[i] == r
  }

  ghost predicate Owns(h: seq<Rule>, r: Rule) {
    exists i: nat :: IsOwner(h, r.key, i) && h[i] == r
  }

  lemma ServerIsOwner(h: seq<Rule>, p: Pattern, r: Rule)
    requires Serves(h, p, r)
    ensures Owns(h, r) && Writes(r, p)
  {
    var i: nat :| IsServer(h, p, i) && h[i] == r;
    assert IsOwner(h, r.key, i);
  }

  lemma LastWriters(h: seq<Rule>, p: Pattern, i: nat, j: nat)
    requires IsServer(h, p, i) && IsServer(h, p, j)
    ensures i == j
  {
  }

  lemma OneServer(h: seq<Rule>, p: Pattern, a: Rule, b: Rule)
    requires Serves(h, p, a) && Serves(h, p, b)
    ensures a == b
  {
    var i: nat :| IsServer(h, p, i) && h[i] == a;
    var j: nat :| IsServer(h, p, j) && h[j] == b;
    LastWriters(h, p, i, j);
  }

  /** Who serves a pattern after one more rule. */
  lemma ServesNext(h: seq<Rule>, p: Pattern, next: Rule, r: Rule)
    ensures Serves(h + [next], p, r) <==>
      if Writes(next, p) then r == next else Serves(h, p, r) && r.key != next.key
  {
    var h' := h + [next];
    var n := |h|;
    if Writes(next, p) && r == next {
      assert IsServer(h', p, n) && h'[n] == r;
    }
    if Serves(h', p, r) {
      var i: nat :| IsServer(h', p, i) && h'[i] == r;
      assert i < n ==> !Writes(h'[n], p) && h'[n].key != h'[i].key;
      if i < n {
        forall j | i < j < n ensures !Writes(h[j], p) && h[j].key != h[i].key {
          assert h[j] == h'[j];
        }
        assert IsServer(h, p, i) && h[i] == r;
      }
    }
    if !Writes(next, p) && Serves(h, p, r) && r.key != next.key {
      var i: nat :| IsServer(h, p, i) && h[i] == r;
      assert IsServer(h', p, i) && h'[i] == r;
    }
  }

  lemma OwnsNext(h: seq<Rule>, next: Rule, r: Rule)
    ensures Owns(h + [next], r) <==>
      if r.key == next.key then next.HasActions() && r == next else Owns(h, r)
  {
    var h' := h + [next];
    var n := |h|;
    if next.HasActions() && r == next {
      assert IsOwner(h', r.key, n) && h'[n] == r;
    }
    if Owns(h', r) {
      var i: nat :| IsOwner(h', r.key, i) && h'[i] == r;
      assert i < n ==> h'[n].key != r.key;
      if i < n {
        forall j | i < j < n ensures h[j].key != r.key {
          assert h[j] == h'[j];
        }
        assert IsOwner(h, r.key, i) && h[i] == r;
      }
    }
    if r.key != next.key && Owns(h, r) {
      var i: nat :| IsOwner(h, r.key, i) && h[i] == r;
      assert IsOwner(h', r.key, i) && h'[i] == r;
    }
  }

  // ---------- when every owned rule stays in force ----------

  ghost predicate Served(h: seq<Rule>, p: Pattern) {
    exists s :: Serves(h, p, s)
  }

  /** Every pattern of every owned rule is served by some rule. */
  ghost predicate AllServed(h: seq<Rule>) {
    forall r, p :: Owns(h, r) && InKey(r.key, p) ==> Served(h, p)
  }

  /** The rule under `key` serves a pattern that another owned rule has too. */
  ghost predicate Shadows(h: seq<Rule>, key: RuleKey) {
    exists r, p, s :: Owns(h, r) && r.key != key && InKey(r.key, p) && Serves(h, p, s) && s.key == key
  }

  lemma AddedKeepsServed(h: seq<Rule>, next: Rule, r: Rule, p: Pattern)
    requires AllServed(h) && next.HasActions() && Owns(h + [next], r) && InKey(r.key, p)
    ensures Served(h + [next], p)
  {
    OwnsNext(h, next, r);
    if Writes(next, p) {
      ServesNext(h, p, next, next);
    } else {
      assert Owns(h, r) && Served(h, p);
      var s :| Serves(h, p, s);
      ServerIsOwner(h, p, s);
      ServesNext(h, p, next, s);
    }
  }

  lemma DeletedKeepsServed(h: seq<Rule>, next: Rule, r: Rule, p: Pattern)
    requires AllServed(h) && !next.HasActions() && !Shadows(h, next.key) && Owns(h + [next], r) && InKey(r.key, p)
    ensures Served(h + [next], p)
  {
    OwnsNext(h, next, r);
    assert Served(h, p);
    var s :| Serves(h, p, s);
    ServesNext(h, p, next, s);
  }

  lemma DeletedUnserves(h: seq<Rule>, next: Rule)
    requires !next.HasActions() && Shadows(h, next.key)
    ensures !AllServed(h + [next])
  {
    var r, p, s :| Owns(h, r) && r.key != next.key && InKey(r.key, p) && Serves(h, p, s) && s.key == next.key;
    OwnsNext(h, next, r);
    forall s' ensures !Serves(h + [next], p, s') {
      ServesNext(h, p, next, s');
      if Serves(h, p, s') {
        OneServer(h, p, s, s');
      }
    }
    assert !Served(h + [next], p);
  }

  /** An addition or replacement never takes an owned rule out of force. A deletion does so
      exactly when the deleted rule shadows a pattern of another one: that pattern is not
      given back. */
  lemma NextKeepsServed(h: seq<Rule>, next: Rule)
    requires AllServed(h)
    ensures AllServed(h + [next]) <==> next.HasActions() || !Shadows(h, next.key)
  {
    if next.HasActions() {
      forall r, p | Owns(h + [next], r) && InKey(r.key, p) ensures Served(h + [next], p) {
        AddedKeepsServed(h, next, r, p);
      }
    } else if Shadows(h, next.key) {
      DeletedUnserves(h, next);
    } else {
      forall r, p | Owns(h + [next], r) && InKey(r.key, p) ensures Served(h + [next], p) {
        DeletedKeepsServed(h, next, r, p);
      }
    }
  }

  /** Rules with different keys have no pattern in common. */
  ghost predicate NoSharing(h: seq<Rule>) {
    forall i, j, p :: 0 <= i < |h| && 0 <= j < |h| && InKey(h[i].key, p) && InKey(h[j].key, p) ==> h[i].key == h[j].key
  }

  /** Without shared patterns all owned rules are in force at any time. */
  lemma {:induction false} NoSharingAllServed(h: seq<Rule>)
    requires NoSharing(h)
    ensures AllServed(h)
  {
    if h != [] {
      var n := |h| - 1;
      var before, next := h[..n], h[n];
      assert h == before + [next];
      forall i, j, p | 0 <= i < n && 0 <= j < n && InKey(before[i].key, p) && InKey(before[j].key, p)
        ensures before[i].key == before[j].key
      {
        assert before[i] == h[i] && before[j] == h[j];
      }
      NoSharingAllServed(before);
      forall r, p, s | Owns(before, r) && InKey(r.key, p) && Serves(before, p, s) ensures r.key == s.key {
        var i: nat :| IsOwner(before, r.key, i) && before[i] == r;
        var j: nat :| IsServer(before, p, j) && before[j] == s;
        assert h[i].key == h[j].key;
      }
      NextKeepsServed(before, next);
    }
  }

  /** Deleting a rule that overlaps an earlier one leaves the earlier one owned but out of
      force. */
  lemma OverlapIsNotGivenBack()
    ensures exists h, r, p :: Owns(h, r) && InKey(r.key, p) && !Served(h, p)
  {
    var t, u := FiveTuple(1, 1, 1, 1, 1), FiveTuple(2, 2, 2, 2, 2);
    var a := Rule(0, RuleKey(1, 1, [t]), [1]);
    var b := Rule(1, RuleKey(1, 1, [t, u]), [1]);
    var h := [a, b, Rule(2, b.key, [])];
    var p := PatternOf(t, 1, 1);
    assert PatternOf(a.key.tuples[0], 1, 1) == p && PatternOf(b.key.tuples[0], 1, 1) == p;
    assert InKey(a.key, p) && InKey(b.key, p);
    assert |a.key.tuples| != |b.key.tuples|;
    assert IsOwner(h, a.key, 0) && h[0] == a;
    assert Owns(h, a);
    forall s ensures !Serves(h, p, s) {
      forall i: nat ensures !IsServer(h, p, i) {
        assert h[1] == b && Writes(h[1], p) && h[2].key == b.key;
      }
    }
    assert !Served(h, p);
  }

  // ---------- the same, field by field ----------

  /** What a rule asks of a packet, or what a packet has. */
  datatype Fields = Fields(inputPort: nat, tag: nat, tuple: FiveTuple)

  ghost predicate Fits(asked: nat, has: nat) {
    asked == 0 || asked == has
  }

  /** Every field that the rule names is that of the packet. */
  ghost predicate Accepts(f: Fields, packet: Fields) {
    && Fits(f.inputPort, packet.inputPort) && Fits(f.tag, packet.tag)
    && Fits(f.tuple.ipSrc, packet.tuple.ipSrc) && Fits(f.tuple.ipDst, packet.tuple.ipDst)
    && Fits(f.tuple.ipProto, packet.tuple.ipProto)
    && Fits(f.tuple.srcPort, packet.tuple.srcPort) && Fits(f.tuple.dstPort, packet.tuple.dstPort)
  }

  ghost predicate Sharper(a: nat, b: nat) {
    a != 0 && b == 0
  }

  /** At the first difference `a` names the field and `b` does not. The input port comes first,
      then the tag, the addresses from destination to source, the protocol and the ports from
      source to destination. */
  ghost predicate Outranks(a: Fields, b: Fields) {
    var t, u := a.tuple, b.tuple;
    || Sharper(a.inputPort, b.inputPort)
    || (a.inputPort == b.inputPort && Sharper(a.tag, b.tag))
    || (a.inputPort == b.inputPort && a.tag == b.tag
        && (|| Sharper(t.ipDst, u.ipDst)
            || (t.ipDst == u.ipDst && Sharper(t.ipSrc, u.ipSrc))
            || (t.ipDst == u.ipDst && t.ipSrc == u.ipSrc && Sharper(t.ipProto, u.ipProto))
            || (t.ipDst == u.ipDst && t.ipSrc == u.ipSrc && t.ipProto == u.ipProto
                && (Sharper(t.srcPort, u.srcPort) || (t.srcPort == u.srcPort && Sharper(t.dstPort, u.dstPort))))))
  }

  /** The rule has actions and its key lists the fields. */
  ghost predicate Asks(r: Rule, f: Fields) {
    r.weights != [] && f.inputPort == r.key.inputPort && f.tag == r.key.tag && f.tuple in r.key.tuples
  }

  /** Rule `i` is the last that asks for the fields, and its key has not been used again since. */
  ghost predicate InForce(h: seq<Rule>, f: Fields, i: nat) {
    && i < |h| && Asks(h[i], f)
    && forall j :: i < j < |h| ==> !Asks(h[j], f) && h[j].key != h[i].key
  }

  ghost predicate Wins(h: seq<Rule>, packet: Fields, f: Fields, i: nat) {
    && InForce(h, f, i) && Accepts(f, packet)
    && forall f', j: nat :: InForce(h, f', j) && Accepts(f', packet) && f' != f ==> Outranks(f, f')
  }

  /** Nothing when no rule in force accepts the packet, else the one that outranks the others. */
  ghost predicate Answers(h: seq<Rule>, packet: Fields, r: Option<Rule>) {
    match r
    case None => forall f, i: nat :: InForce(h, f, i) ==> !Accepts(f, packet)
    case Some(rule) => exists f, i: nat :: Wins(h, packet, f, i) && h[i] == rule
  }

  function Of(f: Fields): (p: Pattern)
    ensures |p| == LEVELS
  {
    PatternOf(f.tuple, f.inputPort, f.tag)
  }

  lemma OfIsOneToOne(f: Fields, f': Fields)
    ensures Of(f) == Of(f') <==> f == f'
  {
    assert forall i :: 0 <= i < LEVELS ==> (Of(f) == Of(f') ==> Of(f)[i] == Of(f')[i]);
  }

  lemma FieldsOf(p: Pattern) returns (f: Fields)
    requires |p| == LEVELS
    ensures Of(f) == p
  {
    f := Fields(p[0], p[1], FiveTuple(p[3], p[2], p[4], p[5], p[6]));
  }

  lemma AcceptsIsMatches(f: Fields, packet: Fields)
    ensures Matches(Of(f), Of(packet)) <==> Accepts(f, packet)
  {
    var p, q := Of(f), Of(packet);
    assert Matches(p, q) <==>
      (forall i :: 0 <= i < 7 ==> p[i] == 0 || p[i] == q[i]);
    if Matches(p, q) {
      assert Fits(p[0], q[0]) && Fits(p[1], q[1]) && Fits(p[2], q[2]) && Fits(p[3], q[3]);
      assert Fits(p[4], q[4]) && Fits(p[5], q[5]) && Fits(p[6], q[6]);
    }
  }

  /** The preference by the first field, then by the others. */
  lemma PrefersHead(a: Pattern, b: Pattern)
    requires |a| == |b| > 0
    ensures Prefers(a, b) <==> Sharper(a[0], b[0]) || (a[0] == b[0] && Prefers(a[1..], b[1..]))
  {
    if Prefers(a, b) {
      var i :| 0 <= i < |a| && i < |b| && a[..i] == b[..i] && a[i] != WILDCARD && b[i] == WILDCARD;
      if i > 0 {
        assert a[0] == a[..i][0] == b[..i][0] == b[0];
        assert a[1..][..i - 1] == a[..i][1..] == b[..i][1..] == b[1..][..i - 1];
        assert a[1..][i - 1] != WILDCARD && b[1..][i - 1] == WILDCARD;
      }
    }
    if Sharper(a[0], b[0]) {
      ExactFirst(a, b);
    }
    if a[0] == b[0] && Prefers(a[1..], b[1..]) {
      PrefersTail(a, b);
    }
  }

  lemma NothingPrefers()
    ensures !Prefers([], [])
  {
  }

  lemma OutranksIsPrefers(a: Fields, b: Fields)
    ensures Prefers(Of(a), Of(b)) <==> Outranks(a, b)
  {
    var p, q := Of(a), Of(b);
    var t, u := a.tuple, b.tuple;
    assert p == [a.inputPort, a.tag, t.ipDst, t.ipSrc, t.ipProto, t.srcPort, t.dstPort];
    assert q == [b.inputPort, b.tag, u.ipDst, u.ipSrc, u.ipProto, u.srcPort, u.dstPort];
    hide Prefers, Sharper, PatternOf;
    PrefersHead(p, q);
    assert p[1..] == [a.tag, t.ipDst, t.ipSrc, t.ipProto, t.srcPort, t.dstPort];
    assert q[1..] == [b.tag, u.ipDst, u.ipSrc, u.ipProto, u.srcPort, u.dstPort];
    PrefersHead(p[1..], q[1..]);
    assert p[1..][1..] == [t.ipDst, t.ipSrc, t.ipProto, t.srcPort, t.dstPort];
    assert q[1..][1..] == [u.ipDst, u.ipSrc, u.ipProto, u.srcPort, u.dstPort];
    AddressesOutrank(t, u);
  }

  lemma AddressesOutrank(t: FiveTuple, u: FiveTuple)
    ensures Prefers([t.ipDst, t.ipSrc, t.ipProto, t.srcPort, t.dstPort],
                    [u.ipDst, u.ipSrc, u.ipProto, u.srcPort, u.dstPort]) <==>
      || Sharper(t.ipDst, u.ipDst)
      || (t.ipDst == u.ipDst && Sharper(t.ipSrc, u.ipSrc))
      || (t.ipDst == u.ipDst && t.ipSrc == u.ipSrc && Sharper(t.ipProto, u.ipProto))
      || (t.ipDst == u.ipDst && t.ipSrc == u.ipSrc && t.ipProto == u.ipProto
          && (Sharper(t.srcPort, u.srcPort) || (t.srcPort == u.srcPort && Sharper(t.dstPort, u.dstPort))))
  {
    hide Prefers, Sharper;
    var p: Pattern := [t.ipDst, t.ipSrc, t.ipProto, t.srcPort, t.dstPort];
    var q: Pattern := [u.ipDst, u.ipSrc, u.ipProto, u.srcPort, u.dstPort];
    PrefersHead(p, q);
    assert p[1..] == [t.ipSrc, t.ipProto, t.srcPort, t.dstPort] && q[1..] == [u.ipSrc, u.ipProto, u.srcPort, u.dstPort];
    PrefersHead(p[1..], q[1..]);
    assert p[1..][1..] == [t.ipProto, t.srcPort, t.dstPort] && q[1..][1..] == [u.ipProto, u.srcPort, u.dstPort];
    PortsOutrank(p[1..][1..], q[1..][1..]);
  }

  lemma PortsOutrank(p: Pattern, q: Pattern)
    requires |p| == |q| == 3
    ensures Prefers(p, q) <==>
      || Sharper(p[0], q[0])
      || (p[0] == q[0] && (Sharper(p[1], q[1]) || (p[1] == q[1] && Sharper(p[2], q[2]))))
  {
    hide Prefers, Sharper;
    PrefersHead(p, q);
    PrefersHead(p[1..], q[1..]);
    PrefersHead(p[1..][1..], q[1..][1..]);
    assert p[1..][1..][1..] == [] && q[1..][1..][1..] == [];
    NothingPrefers();
  }

  lemma AsksIsWrites(r: Rule, f: Fields)
    ensures Writes(r, Of(f)) <==> Asks(r, f)
  {
    forall k | 0 <= k < |r.key.tuples|
      ensures PatternOf(r.key.tuples[k], r.key.inputPort, r.key.tag) == Of(f) <==>
        r.key.tuples[k] == f.tuple && r.key.inputPort == f.inputPort && r.key.tag == f.tag
    {
      OfIsOneToOne(Fields(r.key.inputPort, r.key.tag, r.key.tuples[k]), f);
    }
  }

  lemma InForceIsServer(h: seq<Rule>, f: Fields, i: nat)
    ensures IsServer(h, Of(f), i) <==> InForce(h, f, i)
  {
    hide Writes, Asks;
    forall j | 0 <= j < |h| ensures Writes(h[j], Of(f)) <==> Asks(h[j], f) {
      AsksIsWrites(h[j], f);
    }
  }

  lemma NoneAnswers(h: seq<Rule>, packet: Fields)
    requires forall p, s :: Matches(p, Of(packet)) ==> !Serves(h, p, s)
    ensures Answers(h, packet, None)
  {
    hide Matches, IsServer, InForce, Accepts;
    forall f, i: nat | InForce(h, f, i) ensures !Accepts(f, packet) {
      InForceIsServer(h, f, i);
      AcceptsIsMatches(f, packet);
      ServerIsInside(h, Of(f), i);
      assert Serves(h, Of(f), h[i]);
    }
  }

  lemma ServerIsInside(h: seq<Rule>, p: Pattern, i: nat)
    requires IsServer(h, p, i)
    ensures i < |h|
  {
  }

  lemma PreferredWins(h: seq<Rule>, packet: Fields, p: Pattern, r: Rule)
    requires Preferred(h, Of(packet), p, r)
    ensures Answers(h, packet, Some(r))
  {
    MatchesLength(p, Of(packet));
    var f := FieldsOf(p);
    var i: nat :| IsServer(h, p, i) && h[i] == r;
    hide Matches, IsServer, InForce, Accepts, Prefers, Outranks;
    InForceIsServer(h, f, i);
    AcceptsIsMatches(f, packet);
    forall f', j: nat | InForce(h, f', j) && Accepts(f', packet) && f' != f ensures Outranks(f, f') {
      InForceIsServer(h, f', j);
      AcceptsIsMatches(f', packet);
      OfIsOneToOne(f, f');
      ServerIsInside(h, Of(f'), j);
      assert Serves(h, Of(f'), h[j]);
      OutranksIsPrefers(f, f');
    }
    assert Wins(h, packet, f, i);
  }

  lemma MatchesLength(p: Pattern, q: Pattern)
    requires Matches(p, q)
    ensures |p| == |q|
  {
  }

  // ---------- the matcher ----------

  /** The tree answers for every pattern as the history demands. */
  ghost predicate TreeFollows(root: Node, h: seq<Rule>) {
    && Shaped(root, LEVELS)
    && forall p: Pattern, r :: |p| == LEVELS ==> (RuleAt(root, p) == Some(r) <==> Serves(h, p, r))
  }

  ghost predicate RulesFollow(rules: map<RuleKey, Rule>, h: seq<Rule>) {
    && (forall key :: key in rules ==> rules[key].key == key && Owns(h, rules[key]))
    && (forall r :: Owns(h, r) ==> r.key in rules && rules[r.key] == r)
  }

  class Matcher {
    var root: Node
    var allRules: map<RuleKey, Rule>
    ghost var history: seq<Rule>

    ghost predicate Valid()
      reads this
    {
      TreeFollows(root, history) && RulesFollow(allRules, history)
    }

    constructor ()
      ensures Valid() && history == []
    {
      root, allRules, history := Fresh(LEVELS), map[], [];
      new;
      forall p: Pattern | |p| == LEVELS ensures RuleAt(root, p) == None {
        FreshIsEmpty(p);
      }
    }

    /** Adds, replaces or deletes a rule. The caller hands the rule over, so the matcher
        cannot own it yet. */
    method AddRule(rule: Rule)
      requires Valid() && (rule.key in allRules ==> allRules[rule.key].id != rule.id)
      modifies this
      ensures Valid() && history == old(history) + [rule]
    {
      var key := rule.key;
      var tree := root;
      if rule.HasActions() {
        tree := InsertAll(root, rule);
      }
      ghost var inserted := tree;
      if key in allRules {
        tree := ClearRule(tree, LEVELS, allRules[key]);
      }
      TreeAdvances(root, allRules, history, rule, inserted, tree);
      root := tree;
      var rules := if rule.HasActions() then allRules[key := rule] else allRules - {key};
      RulesAdvance(allRules, history, rule, rules);
      allRules := rules;
      history := history + [rule];
    }

    /** The rule for a packet: nothing exactly when no rule in force accepts it, otherwise the one
        that outranks the others, and the matcher owns it. Of its actions the hash of the packet
        chooses one. */
    method MatchOrNull(t: FiveTuple, inputPort: nat, tag: nat, hash: nat) returns (r: Option<Rule>, action: Option<nat>)
      requires Valid() && inputPort != WILDCARD
      ensures r.None? <==> forall p, s :: Matches(p, PatternOf(t, inputPort, tag)) ==> !Serves(history, p, s)
      ensures Answers(history, Fields(inputPort, tag, t), r)
      ensures r.Some? ==> r.value.key in allRules && allRules[r.value.key] == r.value
      ensures r.Some? ==> exists p :: Preferred(history, PatternOf(t, inputPort, tag), p, r.value)
      ensures if r.Some? then Actions.Chooses(r.value.weights, hash, action) else action.None?
    {
      hide Actions.Chooses, Actions.Total;
      var q := PatternOf(t, inputPort, tag);
      r, action := MatchBelow(root, q), None;
      LookupFollows(root, history, q);
      if r.Some? {
        action := Actions.ChooseOrNull(r.value.weights, Actions.Total(r.value.weights), hash);
        ghost var p :| Preferred(history, q, p, r.value);
        ServerIsOwner(history, p, r.value);
        PreferredWins(history, Fields(inputPort, tag, t), p, r.value);
      } else {
        NoneAnswers(history, Fields(inputPort, tag, t));
      }
    }
  }

  ghost predicate Preferred(h: seq<Rule>, q: Pattern, p: Pattern, r: Rule) {
    && Matches(p, q) && Serves(h, p, r)
    && forall p', s :: Matches(p', q) && Serves(h, p', s) && p' != p ==> Prefers(p, p')
  }

  lemma LookupFollows(root: Node, h: seq<Rule>, q: Pattern)
    requires TreeFollows(root, h) && |q| == LEVELS
    ensures MatchBelow(root, q).None? <==> forall p, s :: Matches(p, q) ==> !Serves(h, p, s)
    ensures MatchBelow(root, q).Some? ==> exists p :: Preferred(h, q, p, MatchBelow(root, q).value)
  {
    forall p, s | Matches(p, q) && Serves(h, p, s) ensures MatchBelow(root, q).Some? {
      assert RuleAt(root, p) == Some(s);
      LookupMissesNone(root, q, p);
    }
    if MatchBelow(root, q).Some? {
      var p := LookupFindsBest(root, q);
      var r := MatchBelow(root, q).value;
      assert RuleAt(root, p) == Some(r) && Serves(h, p, r);
      forall p', s | Matches(p', q) && Serves(h, p', s) && p' != p ensures Prefers(p, p') {
        assert RuleAt(root, p') == Some(s);
      }
      assert Preferred(h, q, p, r);
    }
  }

  method InsertAll(root: Node, rule: Rule) returns (t: Node)
    requires Shaped(root, LEVELS)
    ensures Shaped(t, LEVELS)
    ensures forall p: Pattern :: |p| == LEVELS ==>
      RuleAt(t, p) == if InKey(rule.key, p) then Some(rule) else RuleAt(root, p)
  {
    t := root;
    for k := 0 to |rule.key.tuples|
      invariant Shaped(t, LEVELS)
      invariant forall p: Pattern :: |p| == LEVELS ==>
        RuleAt(t, p) == if InFirst(rule.key, k, p) then Some(rule) else RuleAt(root, p)
    {
      var pattern := PatternOf(rule.key.tuples[k], rule.key.inputPort, rule.key.tag);
      forall p: Pattern | |p| == LEVELS
        ensures RuleAt(InsertOrUpdate(t, pattern, rule), p) == if p == pattern then Some(rule) else RuleAt(t, p)
      {
        InsertAt(t, pattern, rule, p);
      }
      t := InsertOrUpdate(t, pattern, rule);
    }
  }

  lemma TreeAdvances(root: Node, rules: map<RuleKey, Rule>, h: seq<Rule>, rule: Rule, inserted: Node, tree: Node)
    requires TreeFollows(root, h) && RulesFollow(rules, h) && Shaped(inserted, LEVELS) && Shaped(tree, LEVELS)
    requires rule.key in rules ==> rules[rule.key].id != rule.id
    requires forall p: Pattern :: |p| == LEVELS ==>
      RuleAt(inserted, p) == if Writes(rule, p) then Some(rule) else RuleAt(root, p)
    requires tree == if rule.key in rules then ClearRule(inserted, LEVELS, rules[rule.key]) else inserted
    ensures TreeFollows(tree, h + [rule])
  {
    forall p: Pattern, r | |p| == LEVELS ensures RuleAt(tree, p) == Some(r) <==> Serves(h + [rule], p, r) {
      ServesNext(h, p, rule, r);
      if rule.key in rules {
        ClearAt(inserted, rules[rule.key], p);
      }
      assert RuleAt(root, p) == Some(r) <==> Serves(h, p, r);
      if Serves(h, p, r) {
        ServerIsOwner(h, p, r);
      }
    }
  }

  lemma RulesAdvance(rules: map<RuleKey, Rule>, h: seq<Rule>, rule: Rule, rules': map<RuleKey, Rule>)
    requires RulesFollow(rules, h)
    requires rules' == if rule.HasActions() then rules[rule.key := rule] else rules - {rule.key}
    ensures RulesFollow(rules', h + [rule])
  {
    forall r ensures Owns(h + [rule], r) <==> r.key in rules' && rules'[r.key] == r {
      OwnsNext(h, rule, r);
    }
  }
}
