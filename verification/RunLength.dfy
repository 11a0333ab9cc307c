/** Integer sequences stored as strides: a start, an increment and a length. Arithmetic is
    that of 64-bit words. */
module RunLength {
  import opened Basics
  import opened Words
  import opened Sorting

  /** `len` counts the elements after the first. */
  datatype Stride = Stride(value: int, increment: int, len: nat, startingIndex: nat)

  function Element(s: Stride, k: nat): int {
    I64(s.value + k * s.increment)
  }

  function Elements(s: Stride): (r: seq<int>)
    ensures |r| == s.len + 1 && forall k :: 0 <= k <= s.len ==> r[k] == Element(s, k)
  {
    seq(s.len + 1, k requires 0 <= k => Element(s, k))
  }

  /** The sequence that the strides stand for. */
  function Restored(strides: seq<Stride>): seq<int> {
    if strides == [] then [] else Restored(strides[..|strides| - 1]) + Elements(strides[|strides| - 1])
  }

  /** Strides know where they start, and all but the last have at least two elements. */
  ghost predicate Placed(strides: seq<Stride>) {
    && (forall k :: 0 <= k < |strides| ==>
          strides[k].startingIndex == |Restored(strides[..k])| && IsInt64(strides[k].value))
    && (forall k :: 0 <= k < |strides| - 1 ==> strides[k].len > 0)
  }

  /** What comes after a stride does not continue it. */
  ghost predicate Breaks(s: Stride, next: Stride) {
    next.value != Element(s, s.len + 1)
  }

  ghost predicate Greedy(strides: seq<Stride>) {
    forall k :: 0 <= k < |strides| - 1 ==> Breaks(strides[k], strides[k + 1])
  }

  lemma {:induction false} RestoredPrefix(strides: seq<Stride>, k: nat)
    requires k < |strides|
    ensures |Restored(strides[..k])| + strides[k].len + 1 <= |Restored(strides)|
    ensures var first := |Restored(strides[..k])|;
      Restored(strides)[first..first + strides[k].len + 1] == Elements(strides[k])
    decreases |strides| - k
  {
    var n := |strides| - 1;
    var init := strides[..n];
    if k < n {
      RestoredPrefix(init, k);
      assert init[..k] == strides[..k];
    }
  }

  lemma RestoredSnoc(strides: seq<Stride>, s: Stride)
    ensures Restored(strides + [s]) == Restored(strides) + Elements(s)
  {
    assert (strides + [s])[..|strides|] == strides;
  }

  lemma NextWord(x: int, y: int)
    requires IsInt64(y)
    ensures I64(x + I64(y - x)) == y
  {
    var d := y - x;
    var w := I64(d);
    assert exists q :: w == d + TWO64 * q by {
      var q := if d % TWO64 < TWO63 then -(d / TWO64) else -(d / TWO64) - 1;
      assert w == d + TWO64 * q;
    }
    var q :| w == d + TWO64 * q;
    WordPeriod(y, q);
    FitsI64(y);
  }

  lemma WordPeriod(y: int, q: int)
    ensures I64(y + TWO64 * q) == I64(y)
  {
    Remainder(y + TWO64 * q, TWO64, y / TWO64 + q, y % TWO64);
  }

  method RestoreStride(stride: Stride) returns (out: seq<int>)
    requires IsInt64(stride.value)
    ensures out == Elements(stride)
  {
    FitsI64(stride.value);
    hide I64;
    out := [stride.value];
    for i := 0 to stride.len
      invariant |out| == i + 1 && forall k: nat :: k <= i ==> out[k] == Element(stride, k)
    {
      out := out + [I64(stride.value + (i + 1) * stride.increment)];
    }
  }

  class RLEField {
    var strides: seq<Stride>
    var totalNumElements: nat
    ghost var contents: seq<int>

    ghost predicate Valid()
      reads this
    {
      Placed(strides) && Greedy(strides) && Restored(strides) == contents && totalNumElements == |contents|
    }

    constructor ()
      ensures Valid() && contents == []
    {
      strides, totalNumElements, contents := [], 0, [];
    }

    /** Extends the last stride when the value continues it, else starts a new one. */
    method Append(value: int)
      requires Valid() && IsInt64(value)
      modifies this
      ensures Valid() && contents == old(contents) + [value]
      ensures |old(strides)| <= |strides| <= |old(strides)| + 1
    {
      hide Placed, Restored, Elements, I64, Greedy;
      totalNumElements := totalNumElements + 1;
      contents := contents + [value];
      if strides == [] {
        NothingRestored();
        strides := [Stride(value, 0, 0, 0)];
        FirstStride(value);
        OneIsGreedy(strides);
        return;
      }
      var n := |strides| - 1;
      var last := strides[n];
      if last.len == 0 {
        NextWord(last.value, value);
        LastGrows(strides, I64(value - last.value), value);
        GreedyGrows(strides, I64(value - last.value), 1);
        strides := strides[n := last.(increment := I64(value - last.value), len := 1)];
        return;
      }
      var expected := I64(last.value + (last.len + 1) * last.increment);
      if value == expected {
        LastGrows(strides, last.increment, value);
        GreedyGrows(strides, last.increment, last.len + 1);
        strides := strides[n := last.(len := last.len + 1)];
        return;
      }
      NewStride(strides, value);
      GreedyMore(strides, Stride(value, 0, 0, last.startingIndex + last.len + 1));
      strides := strides + [Stride(value, 0, 0, last.startingIndex + last.len + 1)];
    }

    method Restore() returns (out: seq<int>)
      requires Valid()
      ensures out == contents
    {
      out := [];
      NothingRestored();
      for k := 0 to |strides|
        invariant out == Restored(strides[..k])
      {
        assert strides[..k + 1] == strides[..k] + [strides[k]];
        RestoredSnoc(strides[..k], strides[k]);
        var elements := RestoreStride(strides[k]);
        out := out + elements;
      }
      assert strides[..|strides|] == strides;
    }

    /** Random access by binary search over the strides. */
    method At(index: nat) returns (v: int)
      requires Valid() && index < totalNumElements
      ensures v == contents[index]
    {
      hide Greedy;
      StartsGrow(strides);
      var it := LowerBound(strides, (s: Stride) => s.startingIndex <= index);
      FirstStarts(strides, index, it);
      StrideOf(strides, index, it);
      var stride := strides[it - 1];
      var delta := index - stride.startingIndex;
      v := I64(stride.value + delta * stride.increment);
    }
  }

  // ---------- no fewer strides will do ----------

  lemma OneIsGreedy(strides: seq<Stride>)
    requires |strides| == 1
    ensures Greedy(strides)
  {
  }

  lemma GreedyGrows(strides: seq<Stride>, increment: int, len: nat)
    requires strides != [] && Greedy(strides)
    ensures var n := |strides| - 1; Greedy(strides[n := strides[n].(increment := increment, len := len)])
  {
    hide Element;
    var n := |strides| - 1;
    var grown := strides[n := strides[n].(increment := increment, len := len)];
    forall k | 0 <= k < |grown| - 1 ensures Breaks(grown[k], grown[k + 1]) {
      assert Breaks(strides[k], strides[k + 1]);
    }
  }

  lemma GreedyMore(strides: seq<Stride>, s: Stride)
    requires strides != [] && Greedy(strides) && Breaks(strides[|strides| - 1], s)
    ensures Greedy(strides + [s])
  {
    hide Breaks;
    var more := strides + [s];
    forall k | 0 <= k < |more| - 1 ensures Breaks(more[k], more[k + 1]) {
      assert k < |strides| - 1 ==> Breaks(strides[k], strides[k + 1]);
    }
  }

  lemma SameWordApart(a: int, b: int) returns (q: int)
    requires I64(a) == I64(b)
    ensures a == b + TWO64 * q
  {
    q := a / TWO64 - b / TWO64;
  }

  /** Strides that agree on two elements in a row agree on all that follow. */
  lemma Continues(s: Stride, o: Stride, k: nat, t: nat)
    requires Element(s, 0) == Element(o, k) && Element(s, 1) == Element(o, k + 1)
    ensures Element(s, t) == Element(o, k + t)
  {
    var v, i, w, j := s.value, s.increment, o.value, o.increment;
    var q := SameWordApart(v + 0 * i, w + k * j);
    var r := SameWordApart(v + 1 * i, w + (k + 1) * j);
    Parts(i, j, k, t, r - q);
    assert i == j + TWO64 * (r - q);
    WordPeriod(w + (k + t) * j, q + t * (r - q));
  }

  lemma Parts(i: int, j: int, k: nat, t: nat, d: int)
    ensures (k + 1) * j == k * j + j && (k + t) * j == k * j + t * j
    ensures i == j + TWO64 * d ==> t * i == t * j + TWO64 * (t * d)
  {
    assert (k + t) * j == k * j + t * j;
    if i == j + TWO64 * d {
      assert t * i == t * j + t * (TWO64 * d);
      assert t * (TWO64 * d) == TWO64 * (t * d);
    }
  }

  /** The element at a position inside stride `j`. */
  lemma ElementOf(strides: seq<Stride>, j: nat, t: nat)
    requires j < |strides| && t <= strides[j].len
    ensures var first := |Restored(strides[..j])|;
      first + t < |Restored(strides)| && Restored(strides)[first + t] == Element(strides[j], t)
  {
    hide Element;
    RestoredPrefix(strides, j);
    var first := |Restored(strides[..j])|;
    assert Restored(strides)[first..first + strides[j].len + 1][t] == Elements(strides[j])[t];
  }

  lemma EndOf(strides: seq<Stride>, j: nat)
    requires j < |strides|
    ensures |Restored(strides[..j + 1])| == |Restored(strides[..j])| + strides[j].len + 1
  {
    assert strides[..j + 1] == strides[..j] + [strides[j]];
    RestoredSnoc(strides[..j], strides[j]);
  }

  lemma StartsWithValue(strides: seq<Stride>, j: nat)
    requires Placed(strides) && j < |strides|
    ensures Element(strides[j], 0) == strides[j].value && (j + 1 < |strides| ==> strides[j].len > 0)
  {
    FitsI64(strides[j].value);
  }

  lemma BreaksAt(strides: seq<Stride>, j: nat)
    requires Greedy(strides) && j + 1 < |strides|
    ensures strides[j + 1].value != Element(strides[j], strides[j].len + 1)
  {
    hide Element;
    assert Breaks(strides[j], strides[j + 1]);
  }

  /** Both have the element at this distance from the start of stride `j`. */
  lemma SameElement(strides: seq<Stride>, other: seq<Stride>, j: nat, t: nat, u: nat)
    requires Restored(other) == Restored(strides) && j < |other| && j < |strides|
    requires |Restored(other[..j])| + u == |Restored(strides[..j])| + t && t <= strides[j].len && u <= other[j].len
    ensures Element(strides[j], t) == Element(other[j], u)
  {
    hide *;
    ElementOf(strides, j, t);
    ElementOf(other, j, u);
  }

  lemma NextElement(strides: seq<Stride>, other: seq<Stride>, j: nat, u: nat)
    requires Placed(strides) && Restored(other) == Restored(strides) && j < |other| && j + 1 < |strides|
    requires |Restored(other[..j])| + u == |Restored(strides[..j])| + strides[j].len + 1 && u <= other[j].len
    ensures strides[j + 1].value == Element(other[j], u)
  {
    hide *;
    EndOf(strides, j);
    StartsWithValue(strides, j + 1);
    ElementOf(strides, j + 1, 0);
    ElementOf(other, j, u);
  }

  /** Strides over the same elements that go on past the end of stride `j` contradict it. */
  lemma GoesOn(strides: seq<Stride>, other: seq<Stride>, j: nat, k: nat)
    requires Placed(strides) && Restored(other) == Restored(strides) && j < |other| && j + 1 < |strides|
    requires |Restored(other[..j])| + k == |Restored(strides[..j])| && other[j].len > k + strides[j].len
    ensures strides[j + 1].value == Element(strides[j], strides[j].len + 1)
  {
    hide *;
    var s, o := strides[j], other[j];
    StartsWithValue(strides, j);
    SameElement(strides, other, j, 0, k);
    SameElement(strides, other, j, 1, k + 1);
    NextElement(strides, other, j, k + (s.len + 1));
    assert Element(s, 1) == Element(o, k + 1);
    Continues(s, o, k, s.len + 1);
  }

  /** A stride that starts no later than stride `j` ends no later. */
  lemma NoFurther(strides: seq<Stride>, other: seq<Stride>, j: nat)
    requires Placed(strides) && Greedy(strides) && Restored(other) == Restored(strides)
    requires j < |other| && j < |strides| && |Restored(other[..j])| <= |Restored(strides[..j])|
    ensures |Restored(other[..j + 1])| <= |Restored(strides[..j + 1])|
  {
    hide *;
    EndOf(strides, j);
    EndOf(other, j);
    var k := |Restored(strides[..j])| - |Restored(other[..j])|;
    if other[j].len > k + strides[j].len {
      ElementOf(other, j, k + strides[j].len + 1);
      NotLast(strides, j);
      GoesOn(strides, other, j, k);
      BreaksAt(strides, j);
    }
  }

  lemma NotLast(strides: seq<Stride>, j: nat)
    requires j < |strides| && |Restored(strides[..j])| + strides[j].len + 1 < |Restored(strides)|
    ensures j + 1 < |strides|
  {
    EndOf(strides, j);
    assert strides[..|strides|] == strides;
  }

  lemma {:induction false} EndsNoLater(strides: seq<Stride>, other: seq<Stride>, j: nat)
    requires Placed(strides) && Greedy(strides) && Restored(other) == Restored(strides)
    requires j <= |other| && j <= |strides|
    ensures |Restored(other[..j])| <= |Restored(strides[..j])|
  {
    hide Placed, Greedy;
    if j > 0 {
      EndsNoLater(strides, other, j - 1);
      NoFurther(strides, other, j - 1);
    }
  }

  /** Any other strides for the same sequence are at least as many. */
  lemma FewestStrides(strides: seq<Stride>, other: seq<Stride>)
    requires Placed(strides) && Greedy(strides) && Restored(other) == Restored(strides)
    ensures |strides| <= |other|
  {
    hide Restored, Placed, Greedy;
    assert other[..|other|] == other;
    if |other| < |strides| {
      EndsNoLater(strides, other, |other|);
      RestoredPrefix(strides, |other|);
    }
  }

  lemma NothingRestored()
    ensures Restored([]) == []
  {
  }

  lemma FirstStride(value: int)
    requires IsInt64(value)
    ensures Placed([Stride(value, 0, 0, 0)]) && Restored([Stride(value, 0, 0, 0)]) == [value]
  {
    var s := Stride(value, 0, 0, 0);
    assert [s][..0] == [];
    FitsI64(value);
  }

  lemma LastGrows(strides: seq<Stride>, increment: int, value: int)
    requires strides != [] && Placed(strides)
    requires var last := strides[|strides| - 1];
      (last.len == 0 || last.increment == increment) && I64(last.value + (last.len + 1) * increment) == value
    ensures var n := |strides| - 1; var last := strides[n];
      var grown := strides[n := last.(increment := increment, len := last.len + 1)];
      Placed(grown) && Restored(grown) == Restored(strides) + [value]
  {
    hide Placed, Restored, Elements, I64;
    var n := |strides| - 1;
    var last := strides[n];
    var next := last.(increment := increment, len := last.len + 1);
    var grown := strides[n := next];
    assert grown[..n] == strides[..n];
    SamePlaces(strides, grown, n);
    StrideGrows(last, next, value);
    RestoredLast(strides);
    RestoredLast(grown);
  }

  /** Strides up to `n` that start alike, after the same strides, are placed alike. */
  lemma SamePlaces(strides: seq<Stride>, other: seq<Stride>, n: nat)
    requires Placed(strides) && n < |strides| && |other| == n + 1 && other[..n] == strides[..n]
    requires other[n].startingIndex == strides[n].startingIndex && other[n].value == strides[n].value
    ensures Placed(other)
  {
    hide Restored;
    forall k | 0 <= k < |other| ensures other[k].startingIndex == |Restored(other[..k])| && IsInt64(other[k].value) {
      assert other[..k] == other[..n][..k] == strides[..n][..k] == strides[..k];
      assert k < n ==> other[k] == other[..n][k] == strides[..n][k] == strides[k];
      assert strides[k].startingIndex == |Restored(strides[..k])|;
    }
    forall k | 0 <= k < n ensures other[k].len > 0 {
      assert other[k] == other[..n][k] == strides[..n][k] == strides[k];
    }
  }

  lemma StrideGrows(last: Stride, next: Stride, value: int)
    requires next.value == last.value && next.len == last.len + 1 && (last.len == 0 || last.increment == next.increment)
    requires Element(next, next.len) == value
    ensures Elements(next) == Elements(last) + [value]
  {
    hide I64;
    forall k: nat | k <= last.len ensures Element(next, k) == Element(last, k) {
      assert last.len == 0 ==> k * next.increment == 0 && k * last.increment == 0;
    }
  }

  lemma RestoredLast(strides: seq<Stride>)
    requires strides != []
    ensures var n := |strides| - 1; Restored(strides) == Restored(strides[..n]) + Elements(strides[n])
  {
  }

  lemma NewStride(strides: seq<Stride>, value: int)
    requires strides != [] && Placed(strides) && strides[|strides| - 1].len > 0 && IsInt64(value)
    ensures var last := strides[|strides| - 1];
      var more := strides + [Stride(value, 0, 0, last.startingIndex + last.len + 1)];
      Placed(more) && Restored(more) == Restored(strides) + [value]
  {
    hide Placed, Restored, Elements;
    var last := strides[|strides| - 1];
    var s := Stride(value, 0, 0, last.startingIndex + last.len + 1);
    RestoredSnoc(strides, s);
    EndIndex(strides);
    SingleElement(s);
    OneMorePlace(strides, s);
  }

  lemma OneMorePlace(strides: seq<Stride>, s: Stride)
    requires strides != [] && Placed(strides) && strides[|strides| - 1].len > 0
    requires IsInt64(s.value) && s.startingIndex == |Restored(strides)|
    ensures Placed(strides + [s])
  {
    hide Restored;
    var n, more := |strides|, strides + [s];
    forall k: nat | k <= n ensures PlacedAt(more, k) && (k < n ==> more[k].len > 0) {
      MorePlaceAt(strides, s, k);
    }
  }

  ghost predicate PlacedAt(strides: seq<Stride>, k: nat)
    requires k < |strides|
  {
    strides[k].startingIndex == |Restored(strides[..k])| && IsInt64(strides[k].value)
  }

  lemma PlacedIs(strides: seq<Stride>, k: nat)
    requires k < |strides| && Placed(strides)
    ensures PlacedAt(strides, k) && (k < |strides| - 1 ==> strides[k].len > 0)
  {
  }

  lemma MorePlaceAt(strides: seq<Stride>, s: Stride, k: nat)
    requires strides != [] && Placed(strides) && strides[|strides| - 1].len > 0 && k <= |strides|
    requires IsInt64(s.value) && s.startingIndex == |Restored(strides)|
    ensures var more := strides + [s]; PlacedAt(more, k) && (k < |strides| ==> more[k].len > 0)
  {
    hide Restored, Placed;
    var more := strides + [s];
    assert more[..k] == strides[..k];
    if k < |strides| {
      PlacedIs(strides, k);
    } else {
      assert strides[..k] == strides;
    }
  }

  lemma EndIndex(strides: seq<Stride>)
    requires strides != [] && Placed(strides)
    ensures var last := strides[|strides| - 1]; |Restored(strides)| == last.startingIndex + last.len + 1
  {
  }

  lemma SingleElement(s: Stride)
    requires s.len == 0 && IsInt64(s.value)
    ensures Elements(s) == [s.value]
  {
    FitsI64(s.value);
  }

  lemma StartsGrow(strides: seq<Stride>)
    requires Placed(strides)
    ensures forall i, j :: 0 <= i < j < |strides| ==> strides[i].startingIndex < strides[j].startingIndex
  {
    forall i, j | 0 <= i < j < |strides| ensures strides[i].startingIndex < strides[j].startingIndex {
      RestoredPrefix(strides[..j], i);
      assert strides[..j][..i] == strides[..i];
    }
  }

  lemma FirstStarts(strides: seq<Stride>, index: nat, it: nat)
    requires Placed(strides) && index < |Restored(strides)| && it <= |strides|
    requires forall i :: 0 <= i < |strides| ==> (i < it <==> strides[i].startingIndex <= index)
    ensures it > 0
  {
    assert strides != [];
    assert strides[..0] == [];
    StartOf(strides, 0);
  }

  /** The stride before the first that starts after `index` holds it. */
  lemma StrideOf(strides: seq<Stride>, index: nat, it: nat)
    requires Placed(strides) && index < |Restored(strides)| && 0 < it <= |strides|
    requires forall i :: 0 <= i < |strides| ==> (i < it <==> strides[i].startingIndex <= index)
    ensures strides[it - 1].startingIndex <= index
    ensures Restored(strides)[index] == Element(strides[it - 1], index - strides[it - 1].startingIndex)
  {
    hide Element, Elements, Restored, Placed;
    StrideEnds(strides, it);
    StartOf(strides, it - 1);
    InStride(strides, it - 1, index - strides[it - 1].startingIndex);
  }

  lemma StartOf(strides: seq<Stride>, k: nat)
    requires Placed(strides) && k < |strides|
    ensures strides[k].startingIndex == |Restored(strides[..k])|
  {
  }

  /** Strides follow one another without a gap. */
  lemma StrideEnds(strides: seq<Stride>, it: nat)
    requires Placed(strides) && 0 < it <= |strides|
    ensures strides[it - 1].startingIndex + strides[it - 1].len + 1 ==
      if it < |strides| then strides[it].startingIndex else |Restored(strides)|
  {
    hide Elements;
    StrideDone(strides, it);
  }

  /** Hands out one element after the other. */
  class RLEFieldIterator {
    const strides: seq<Stride>
    var current: Option<Stride>
    var strideIndex: nat
    var indexInStride: nat
    ghost var handedOut: nat

    ghost predicate Valid()
      reads this
    {
      && strideIndex <= |strides| && (current.None? <==> strideIndex == 0)
      && (current.None? ==> handedOut == 0)
      && (current.Some? ==> current.value == strides[strideIndex - 1] && 1 <= indexInStride <= current.value.len + 1)
      && (current.Some? ==> handedOut == |Restored(strides[..strideIndex - 1])| + indexInStride)
    }

    constructor (parent: RLEField)
      ensures Valid() && strides == parent.strides && handedOut == 0
    {
      strides, current, strideIndex, indexInStride, handedOut := parent.strides, None, 0, 0, 0;
    }

    /** The next element in order, and nothing once all have been handed out. */
    method Next() returns (value: Option<int>)
      requires Valid()
      modifies this
      ensures Valid()
      ensures old(handedOut) < |Restored(strides)| ==>
        value == Some(Restored(strides)[old(handedOut)]) && handedOut == old(handedOut) + 1
      ensures old(handedOut) >= |Restored(strides)| ==> value == None && handedOut == old(handedOut)
    {
      hide Restored, I64;
      if current.None? || indexInStride > current.value.len {
        StrideDone(strides, strideIndex);
        if strideIndex == |strides| {
          return None;
        }
        current := Some(strides[strideIndex]);
        strideIndex := strideIndex + 1;
        indexInStride := 0;
      }
      var v := I64(current.value.value + indexInStride * current.value.increment);
      InStride(strides, strideIndex - 1, indexInStride);
      indexInStride := indexInStride + 1;
      handedOut := handedOut + 1;
      return Some(v);
    }
  }

  lemma StrideDone(strides: seq<Stride>, k: nat)
    requires k <= |strides|
    ensures k > 0 ==> |Restored(strides[..k])| == |Restored(strides[..k - 1])| + strides[k - 1].len + 1
    ensures k == 0 ==> Restored(strides[..k]) == []
    ensures k == |strides| ==> strides[..k] == strides
    ensures k < |strides| ==> |Restored(strides[..k])| < |Restored(strides)|
  {
    if k > 0 {
      assert strides[..k][..k - 1] == strides[..k - 1];
    }
    if k < |strides| {
      RestoredPrefix(strides, k);
    }
  }

  lemma InStride(strides: seq<Stride>, k: nat, i: nat)
    requires k < |strides| && i <= strides[k].len
    ensures |Restored(strides[..k])| + i < |Restored(strides)|
    ensures Restored(strides)[|Restored(strides[..k])| + i] == Element(strides[k], i)
  {
    RestoredPrefix(strides, k);
    var start := |Restored(strides[..k])|;
    assert Restored(strides)[start + i] == Restored(strides)[start..start + strides[k].len + 1][i];
  }
}
