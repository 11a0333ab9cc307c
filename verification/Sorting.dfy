/** The contracts of the two library algorithms that the column code builds on. Callers see
    the contracts only, so they hold for any order among equal elements. */
module Sorting {

  ghost predicate Ordered<T>(le: (T, T) -> bool, s: seq<T>) {
    forall i, j :: 0 <= i < j < |s| ==> le(s[i], s[j])
  }

  ghost predicate TotalOrder<T(!new)>(le: (T, T) -> bool) {
    && (forall a, b :: le(a, b) || le(b, a))
    && (forall a, b, c :: le(a, b) && le(b, c) ==> le(a, c))
  }

  /** `std::sort` with `le` as the order. */
  method Sort<T(!new)>(s: seq<T>, le: (T, T) -> bool) returns (r: seq<T>)
    requires TotalOrder(le)
    ensures Ordered(le, r) && multiset(r) == multiset(s) && |r| == |s|
  {
    r := [];
    for k := 0 to |s|
      invariant Ordered(le, r) && multiset(r) == multiset(s[..k]) && |r| == k
    {
      r := Insert(r, s[k], le);
      assert s[..k + 1] == s[..k] + [s[k]];
    }
    assert s[..|s|] == s;
  }

  method Insert<T(!new)>(s: seq<T>, x: T, le: (T, T) -> bool) returns (r: seq<T>)
    requires TotalOrder(le) && Ordered(le, s)
    ensures Ordered(le, r) && multiset(r) == multiset(s) + multiset{x} && |r| == |s| + 1
  {
    var p := |s|;
    while p > 0 && le(x, s[p - 1])
      invariant 0 <= p <= |s|
      invariant forall i :: p <= i < |s| ==> le(x, s[i])
    {
      p := p - 1;
    }
    BelowInserted(s, x, le, p);
    hide TotalOrder;
    r := s[..p] + [x] + s[p..];
    InsertedOrdered(s, x, le, p);
    assert s == s[..p] + s[p..];
  }

  lemma BelowInserted<T(!new)>(s: seq<T>, x: T, le: (T, T) -> bool, p: nat)
    requires TotalOrder(le) && Ordered(le, s) && p <= |s| && (p == 0 || !le(x, s[p - 1]))
    ensures forall i :: 0 <= i < p ==> le(s[i], x)
  {
    if p > 0 {
      assert le(s[p - 1], x);
    }
  }

  lemma InsertedOrdered<T>(s: seq<T>, x: T, le: (T, T) -> bool, p: nat)
    requires Ordered(le, s) && p <= |s|
    requires forall i :: 0 <= i < p ==> le(s[i], x)
    requires forall i :: p <= i < |s| ==> le(x, s[i])
    ensures Ordered(le, s[..p] + [x] + s[p..])
  {
  }

  /** `std::lower_bound`: the elements that come before the searched one form a prefix. */
  method LowerBound<T>(s: seq<T>, before: T -> bool) returns (k: nat)
    requires forall i, j :: 0 <= i < j < |s| && before(s[j]) ==> before(s[i])
    ensures k <= |s|
    ensures forall i :: 0 <= i < |s| ==> (i < k <==> before(s[i]))
  {
    k := 0;
    var end := |s|;
    while k < end
      invariant k <= end <= |s|
      invariant forall i :: 0 <= i < k ==> before(s[i])
      invariant forall i :: end <= i < |s| ==> !before(s[i])
    {
      var mid := k + (end - k) / 2;
      if before(s[mid]) {
        k := mid + 1;
      } else {
        end := mid;
      }
    }
  }

  lemma SameElements<T>(r: seq<T>, s: seq<T>)
    requires multiset(r) == multiset(s)
    ensures forall x :: x in r <==> x in s
  {
    forall x ensures x in r <==> x in s {
      assert x in r <==> x in multiset(r);
      assert x in s <==> x in multiset(s);
    }
  }
}
