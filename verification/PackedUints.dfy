/** Non-decreasing unsigned integers stored as differences of one to eight bytes. */
module PackedUints {
  import opened Basics
  import opened Words

  const ONE_BYTE_LIMIT: nat := 32
  const EIGHT_BYTE_LIMIT: nat := 0x2000_0000_0000_0000

  /** What fits into `n` bytes next to the three bits that tell the number of bytes. */
  function Limit(n: nat): nat
    requires n > 0
  {
    ONE_BYTE_LIMIT * Pow256(n - 1)
  }

  /** Bytes of `x`, highest first. */
  function HighFirst(x: nat, n: nat): (s: seq<Byte>)
    ensures |s| == n
  {
    if n == 0 then [] else HighFirst(x / 256, n - 1) + [x % 256]
  }

  function FromHighFirst(s: seq<Byte>): nat {
    if s == [] then 0 else 256 * FromHighFirst(s[..|s| - 1]) + s[|s| - 1]
  }

  lemma {:induction false} HighFirstRoundTrip(x: nat, n: nat)
    requires x < Pow256(n)
    ensures FromHighFirst(HighFirst(x, n)) == x
  {
    if n > 0 {
      assert HighFirst(x, n)[..n - 1] == HighFirst(x / 256, n - 1);
      HighFirstRoundTrip(x / 256, n - 1);
    }
  }

  /** The least number of bytes for a difference. */
  function SizeFrom(diff: nat, n: nat): (r: nat)
    requires 1 <= n <= 8 && diff < Limit(8) && (n > 1 ==> diff >= Limit(n - 1))
    ensures n <= r <= 8 && diff < Limit(r) && (r > 1 ==> diff >= Limit(r - 1))
    decreases 8 - n
  {
    if diff < Limit(n) then n else SizeFrom(diff, n + 1)
  }

  lemma LimitEight()
    ensures Limit(8) == EIGHT_BYTE_LIMIT
  {
    assert Pow256(2) == 0x1_0000;
    assert Pow256(4) == 0x1_0000_0000;
    assert Pow256(6) == 0x1_0000_0000_0000;
  }

  function Size(diff: nat): (n: nat)
    requires diff < EIGHT_BYTE_LIMIT
    ensures 1 <= n <= 8 && diff < Limit(n) && (n > 1 ==> diff >= Limit(n - 1))
  {
    LimitEight();
    SizeFrom(diff, 1)
  }

  /** The number of bytes, less one, in the three highest bits, then the difference. */
  function Code(diff: nat): (s: seq<Byte>)
    requires diff < EIGHT_BYTE_LIMIT
    ensures |s| == Size(diff)
  {
    var n := Size(diff);
    TopBits(diff, n);
    [(n - 1) * 32 + diff / Pow256(n - 1)] + HighFirst(diff % Pow256(n - 1), n - 1)
  }

  lemma TopBits(diff: nat, n: nat)
    requires 1 <= n && diff < Limit(n)
    ensures 0 <= diff / Pow256(n - 1) < 32
  {
    hide Pow256;
    var p := Pow256(n - 1);
    assert diff < p * 32;
    QuotientBound(diff, p, 32);
  }

  /** The difference at the start of the bytes, and how many of them it takes. */
  function Deflate(s: seq<Byte>): (r: (nat, nat))
    requires s != [] && |s| > s[0] / 32
    ensures r.1 == s[0] / 32 + 1
  {
    var n := s[0] / 32 + 1;
    (s[0] % 32 * Pow256(n - 1) + FromHighFirst(s[1..n]), n)
  }

  /** Reading a difference back, whatever follows it. */
  lemma CodeRoundTrip(diff: nat, tail: seq<Byte>)
    requires diff < EIGHT_BYTE_LIMIT
    ensures var s := Code(diff) + tail; |s| > s[0] / 32 && Deflate(s) == (diff, Size(diff))
  {
    hide Pow256, HighFirst, FromHighFirst, Size, Limit;
    var n := Size(diff);
    var p := Pow256(n - 1);
    TopBits(diff, n);
    var s := Code(diff) + tail;
    var top := diff / p;
    assert s[0] == 32 * (n - 1) + top;
    Remainder(s[0], 32, n - 1, top);
    assert s[1..n] == HighFirst(diff % p, n - 1);
    HighFirstRoundTrip(diff % p, n - 1);
    assert diff == top * p + diff % p;
  }

  ghost function BigEndian(s: seq<Byte>): nat {
    if s == [] then 0 else s[0] * Pow256(|s| - 1) + BigEndian(s[1..])
  }

  lemma {:induction false} BigEndianMore(s: seq<Byte>, b: Byte)
    ensures BigEndian(s + [b]) == 256 * BigEndian(s) + b
  {
    var t := s + [b];
    if s != [] {
      assert t[1..] == s[1..] + [b];
      BigEndianMore(s[1..], b);
      assert s[0] * (256 * Pow256(|s| - 1)) == 256 * (s[0] * Pow256(|s| - 1));
    } else {
      assert t[1..] == [];
    }
  }

  lemma {:induction false} BigEndianOf(x: nat, n: nat)
    requires x < Pow256(n)
    ensures BigEndian(HighFirst(x, n)) == x
  {
    if n > 0 {
      BigEndianOf(x / 256, n - 1);
      BigEndianMore(HighFirst(x / 256, n - 1), x % 256);
    }
  }

  lemma TopByte(m: nat, diff: nat, p: nat)
    requires p > 0
    ensures (m * 32 + diff / p) * p + diff % p == m * (32 * p) + diff
  {
    assert (m * 32 + diff / p) * p == m * 32 * p + diff / p * p;
    assert m * 32 * p == m * (32 * p);
    assert diff == p * (diff / p) + diff % p;
  }

  lemma CodeParts(diff: nat)
    requires diff < EIGHT_BYTE_LIMIT
    ensures var code, n := Code(diff), Size(diff);
      var p := Pow256(n - 1);
      |code| == n && code[0] == (n - 1) * 32 + diff / p && code[1..] == HighFirst(diff % p, n - 1)
  {
    hide Pow256, HighFirst, Size;
  }

  /** Read as one number, the bytes of a difference are the difference with the number of further
      bytes in the three highest bits. They are as few as can be. */
  lemma CodeIsNumber(diff: nat)
    requires diff < 0x2000_0000_0000_0000
    ensures var n := |Code(diff)|;
      && 1 <= n <= 8 && diff < 32 * Pow256(n - 1) && (n > 1 ==> diff >= 32 * Pow256(n - 2))
      && BigEndian(Code(diff)) == (n - 1) * (32 * Pow256(n - 1)) + diff
  {
    hide Pow256, HighFirst, Size, Code;
    var n := Size(diff);
    var p := Pow256(n - 1);
    CodeParts(diff);
    BigEndianOf(diff % p, n - 1);
    hide BigEndian;
    BigEndianHead(Code(diff));
    TopByte(n - 1, diff, p);
  }

  lemma BigEndianHead(s: seq<Byte>)
    requires s != []
    ensures BigEndian(s) == s[0] * Pow256(|s| - 1) + BigEndian(s[1..])
  {
  }

  // ---------- sequences ----------

  ghost predicate Growing(c: seq<nat>) {
    forall i: nat :: i < |c| ==> Before(c, i) <= c[i] < Before(c, i) + EIGHT_BYTE_LIMIT
  }

  function Before(c: seq<nat>, i: nat): nat
    requires i <= |c|
  {
    if i == 0 then 0 else c[i - 1]
  }

  function Last(c: seq<nat>): nat {
    Before(c, |c|)
  }

  ghost function CodeAll(c: seq<nat>): seq<Byte>
    requires Growing(c)
  {
    if c == [] then []
    else
      var n := |c| - 1;
      GrowingPrefix(c, n);
      CodeAll(c[..n]) + Code(c[n] - Before(c, n))
  }

  lemma GrowingPrefix(c: seq<nat>, k: nat)
    requires Growing(c) && k <= |c|
    ensures Growing(c[..k])
  {
    forall i: nat | i < k ensures Before(c[..k], i) <= c[..k][i] < Before(c[..k], i) + EIGHT_BYTE_LIMIT {
      assert Before(c[..k], i) == Before(c, i);
    }
  }

  lemma CodeStep(c: seq<nat>, k: nat)
    requires Growing(c) && k < |c|
    ensures Growing(c[..k]) && Growing(c[..k + 1])
    ensures CodeAll(c[..k + 1]) == CodeAll(c[..k]) + Code(c[k] - Before(c, k))
  {
    hide Code;
    GrowingPrefix(c, k);
    GrowingPrefix(c, k + 1);
    assert c[..k + 1][..k] == c[..k];
  }

  lemma DiffFits(c: seq<nat>, k: nat)
    requires Growing(c) && k < |c|
    ensures 0 <= c[k] - Before(c, k) < EIGHT_BYTE_LIMIT
  {
  }

  lemma DiffStays(c: seq<nat>, n: nat, k: nat)
    requires Growing(c) && k < n <= |c|
    ensures Growing(c[..n]) && c[..n][k] == c[k] && Before(c[..n], k) == Before(c, k) && c[..n][..k] == c[..k]
  {
    GrowingPrefix(c, n);
  }

  /** The code of element `k` follows those of the elements before it. */
  lemma {:induction false} CodeAt(c: seq<nat>, k: nat) returns (tail: seq<Byte>)
    requires Growing(c) && k < |c|
    ensures Growing(c[..k])
    ensures CodeAll(c) == CodeAll(c[..k]) + Code(c[k] - Before(c, k)) + tail
    decreases |c|
  {
    hide *;
    var n := |c| - 1;
    DiffFits(c, k);
    DiffFits(c, n);
    CodeStep(c, k);
    CodeStep(c, n);
    assert c[..n + 1] == c;
    if k == n {
      tail := [];
    } else {
      DiffStays(c, n, k);
      var rest := CodeAt(c[..n], k);
      tail := rest + Code(c[n] - Before(c, n));
      MoreBehind(CodeAll(c[..k]) + Code(c[k] - Before(c, k)), rest, Code(c[n] - Before(c, n)));
    }
  }

  lemma MoreBehind(a: seq<Byte>, b: seq<Byte>, c: seq<Byte>)
    ensures a + b + c == a + (b + c)
  {
  }

  lemma DeflateAt(c: seq<nat>, data: seq<Byte>, k: nat)
    requires Growing(c) && data == CodeAll(c) && k < |c|
    ensures Growing(c[..k]) && Growing(c[..k + 1])
    ensures var offset := |CodeAll(c[..k])|;
      && offset < |data| && |data| - offset > data[offset] / 32
      && Deflate(data[offset..]) == (c[k] - Before(c, k), |CodeAll(c[..k + 1])| - offset)
  {
    hide CodeAll, Code, Pow256, Limit, Size, Deflate;
    var tail := CodeAt(c, k);
    CodeStep(c, k);
    var offset, diff := |CodeAll(c[..k])|, c[k] - Before(c, k);
    assert data[offset..] == Code(diff) + tail;
    CodeRoundTrip(diff, tail);
    assert data[offset] == data[offset..][0];
  }

  /** The number in the first `n` bytes, without the count in the first one. */
  ghost function HighPart(s: seq<Byte>, n: nat): nat
    requires 1 <= n <= |s|
  {
    s[0] % 32 * Pow256(n - 1) + FromHighFirst(s[1..n])
  }

  lemma HighPartStart(s: seq<Byte>)
    requires s != []
    ensures HighPart(s, 1) == s[0] % 32
  {
    assert s[1..1] == [];
  }

  lemma HighPartStep(s: seq<Byte>, n: nat)
    requires 1 <= n < |s|
    ensures HighPart(s, n + 1) == HighPart(s, n) * 256 + s[n]
  {
    assert s[1..n + 1][..n - 1] == s[1..n];
    var a, p := s[0] % 32, Pow256(n - 1);
    assert a * (256 * p) == 256 * (a * p);
  }

  class PackedUintSeq {
    var data: seq<Byte>
    var len: nat
    var lastAppend: nat
    ghost var contents: seq<nat>

    ghost predicate Valid()
      reads this
    {
      Growing(contents) && data == CodeAll(contents) && len == |contents| && lastAppend == Last(contents)
    }

    constructor ()
      ensures Valid() && contents == []
    {
      data, len, lastAppend, contents := [], 0, 0, [];
    }

    /** Fails when the value is below the last one or too far above it. `bytes` is the
        number of bytes that the sequence grows by. */
    method Append(value: nat) returns (ok: bool, bytes: nat)
      requires Valid()
      modifies this
      ensures Valid() && |data| == |old(data)| + bytes
      ensures ok <==> Last(old(contents)) <= value < Last(old(contents)) + EIGHT_BYTE_LIMIT
      ensures contents == if ok then old(contents) + [value] else old(contents)
    {
      if value < lastAppend || value - lastAppend >= EIGHT_BYTE_LIMIT {
        return false, 0;
      }
      var diff := value - lastAppend;
      AppendGrows(contents, value);
      data := data + Code(diff);
      len := len + 1;
      lastAppend := value;
      contents := contents + [value];
      return true, |Code(diff)|;
    }

    method DeflateSingleInteger(offset: nat) returns (value: nat, n: nat)
      requires offset < |data| && |data| - offset > data[offset] / 32
      ensures (value, n) == Deflate(data[offset..])
    {
      hide FromHighFirst, Pow256;
      ghost var s := data[offset..];
      var c := data[offset];
      n := c / 32 + 1;
      value := c % 32;
      HighPartStart(s);
      for i := 1 to n
        invariant value == HighPart(s, i)
      {
        HighPartStep(s, i);
        value := value * 256 + data[offset + i];
      }
    }

    method Restore() returns (out: seq<nat>)
      requires Valid()
      ensures out == contents
    {
      hide Deflate, Growing, CodeAll;
      out := [];
      var prev, offset := 0, 0;
      StartOffset(contents);
      for i := 0 to len
        invariant Growing(contents[..i]) && offset == |CodeAll(contents[..i])| && prev == Before(contents, i)
        invariant out == contents[..i]
      {
        DeflateAt(contents, data, i);
        var diff, n := DeflateSingleInteger(offset);
        offset := offset + n;
        prev := prev + diff;
        out := out + [prev];
      }
    }
  }

  lemma StartOffset(c: seq<nat>)
    ensures Growing(c[..0]) && CodeAll(c[..0]) == []
  {
  }

  lemma AppendGrows(c: seq<nat>, value: nat)
    requires Growing(c) && Last(c) <= value < Last(c) + EIGHT_BYTE_LIMIT
    ensures Growing(c + [value]) && CodeAll(c + [value]) == CodeAll(c) + Code(value - Last(c))
  {
    hide Code, Pow256, Limit, Size;
    var c' := c + [value];
    forall i: nat | i < |c'| ensures Before(c', i) <= c'[i] < Before(c', i) + EIGHT_BYTE_LIMIT {
      assert Before(c', i) == Before(c, i);
    }
    assert c'[..|c|] == c;
  }

  /** Hands out one element after the other. */
  class PackedUintSeqIterator {
    const parent: PackedUintSeq
    var nextOffset: nat
    var prevValue: nat
    var elementCount: nat

    ghost predicate Valid()
      reads this, parent
    {
      && parent.Valid() && elementCount <= |parent.contents|
      && Growing(parent.contents[..elementCount])
      && nextOffset == |CodeAll(parent.contents[..elementCount])| && prevValue == Before(parent.contents, elementCount)
    }

    constructor (parent: PackedUintSeq)
      requires parent.Valid()
      ensures Valid() && this.parent == parent && elementCount == 0
    {
      this.parent, nextOffset, prevValue, elementCount := parent, 0, 0, 0;
      StartOffset(parent.contents);
    }

    method Next() returns (value: Option<nat>)
      requires Valid()
      modifies this
      ensures Valid()
      ensures old(elementCount) < |parent.contents| ==>
        value == Some(parent.contents[old(elementCount)]) && elementCount == old(elementCount) + 1
      ensures old(elementCount) == |parent.contents| ==> value == None && elementCount == old(elementCount)
    {
      hide Deflate, Growing, CodeAll;
      if elementCount >= parent.len {
        return None;
      }
      DeflateAt(parent.contents, parent.data, elementCount);
      var diff, n := parent.DeflateSingleInteger(nextOffset);
      nextOffset := nextOffset + n;
      prevValue := prevValue + diff;
      elementCount := elementCount + 1;
      return Some(prevValue);
    }
  }
}
