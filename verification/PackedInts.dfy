/** Integers packed into the fewest bytes that hold their distance from the smallest. */
module PackedInts {
  import opened Words

  ghost predicate AllInt64(values: seq<int>) {
    forall i :: 0 <= i < |values| ==> IsInt64(values[i])
  }

  // ---------- bytes, lowest first ----------

  function ToBytes(x: nat, n: nat): (s: seq<Byte>)
    ensures |s| == n
  {
    if n == 0 then [] else [x % 256] + ToBytes(x / 256, n - 1)
  }

  function FromBytes(s: seq<Byte>): nat {
    if s == [] then 0 else s[0] + 256 * FromBytes(s[1..])
  }

  /** The low bytes of a number give its remainder. */
  lemma {:induction false} LowBytes(x: nat, n: nat)
    ensures FromBytes(ToBytes(x, n)) == x % Pow256(n)
  {
    if n > 0 {
      LowBytes(x / 256, n - 1);
      assert ToBytes(x, n)[1..] == ToBytes(x / 256, n - 1);
      SplitByte(x, Pow256(n - 1));
    }
  }

  lemma SplitByte(x: nat, p: nat)
    requires p > 0
    ensures x % (256 * p) == x % 256 + 256 * (x / 256 % p)
  {
    var y := x / 256;
    assert x == 256 * (p * (y / p) + y % p) + x % 256;
    assert x == (256 * p) * (y / p) + (x % 256 + 256 * (y % p));
    Remainder(x, 256 * p, y / p, x % 256 + 256 * (y % p));
  }

  /** Masking a longer load leaves the bytes that were asked for. */
  lemma {:induction false} MaskedLoad(s: seq<Byte>, n: nat)
    requires n <= |s|
    ensures FromBytes(s) % Pow256(n) == FromBytes(s[..n])
  {
    if n > 0 {
      MaskedLoad(s[1..], n - 1);
      var rest := FromBytes(s[1..]);
      SplitByte(FromBytes(s), Pow256(n - 1));
      Remainder(FromBytes(s), 256, rest, s[0]);
      assert s[..n][1..] == s[1..][..n - 1];
    }
  }

  lemma {:induction false} EightBytes()
    ensures Pow256(8) == TWO64 && Pow256(7) == 0x100_0000_0000_0000
  {
    assert Pow256(2) == 0x1_0000;
    assert Pow256(4) == 0x1_0000_0000;
    assert Pow256(6) == 0x1_0000_0000_0000;
  }

  lemma {:induction false} PowGrows(m: nat, n: nat)
    requires m <= n
    ensures Pow256(m) <= Pow256(n)
  {
    if m < n {
      PowGrows(m, n - 1);
    }
  }

  // ---------- zigzag ----------

  /** Shifting left and complementing negative values, in a 64-bit word: small distances
      from zero become small numbers. */
  function ZigZag(v: int): int {
    I64(if v >= 0 then 2 * v else -2 * v - 1)
  }

  function ZigZagDecode(v: nat): int {
    if v % 2 == 0 then v / 2 else -(v / 2) - 1
  }

  lemma SameWord(x: int)
    ensures U64(I64(x)) == U64(x) && IsInt64(I64(x))
  {
  }

  lemma ZigZagRoundTrip(v: int)
    requires IsInt64(v)
    ensures ZigZagDecode(U64(ZigZag(v))) == v
  {
    var x := if v >= 0 then 2 * v else -2 * v - 1;
    SameWord(x);
    FitsU64(x);
  }

  /** The same in the words of the code: shifted left by one bit and, for negative values,
      complemented; shifted right and, for odd words, complemented. */
  lemma ZigZagShifts(v: int, w: nat)
    requires IsInt64(v) && w < TWO64
    ensures U64(ZigZag(v)) == if v < 0 then TWO64 - 1 - U64(2 * v) else U64(2 * v)
    ensures ZigZagDecode(w) == I64(if w % 2 == 1 then TWO64 - 1 - w / 2 else w / 2)
  {
    SameWord(if v >= 0 then 2 * v else -2 * v - 1);
    if v < 0 {
      Remainder(2 * v, TWO64, -1, 2 * v + TWO64);
    }
  }

  lemma ZigZagDecodeInjective(a: nat, b: nat)
    requires ZigZagDecode(a) == ZigZagDecode(b)
    ensures a == b
  {
  }

  // ---------- what is stored ----------

  predicate HasNegative(values: seq<int>) {
    exists i :: 0 <= i < |values| && values[i] < 0
  }

  function Encode(v: int, zigZagged: bool): int {
    if zigZagged then ZigZag(v) else v
  }

  function Decode(w: nat, zigZagged: bool): int {
    if zigZagged then ZigZagDecode(w) else I64(w)
  }

  lemma DecodeEncode(v: int, zigZagged: bool)
    requires IsInt64(v)
    ensures Decode(U64(Encode(v, zigZagged)), zigZagged) == v && IsInt64(Encode(v, zigZagged))
  {
    if zigZagged {
      ZigZagRoundTrip(v);
      SameWord(if v >= 0 then 2 * v else -2 * v - 1);
    }
  }

  lemma DecodeInjective(a: nat, b: nat, zigZagged: bool)
    requires a < TWO64 && b < TWO64 && Decode(a, zigZagged) == Decode(b, zigZagged)
    ensures a == b
  {
    if zigZagged {
      ZigZagDecodeInjective(a, b);
    }
  }

  /** All integers are stored as distances from `base`, in `bytesPerNum` bytes each. */
  datatype Packed = Packed(base: nat, bytesPerNum: nat, zigZagged: bool, data: seq<Byte>)

  ghost predicate IsMin(m: int, s: seq<int>) {
    (exists i :: 0 <= i < |s| && s[i] == m) && forall i :: 0 <= i < |s| ==> m <= s[i]
  }

  ghost predicate IsMax(m: int, s: seq<int>) {
    (exists i :: 0 <= i < |s| && s[i] == m) && forall i :: 0 <= i < |s| ==> s[i] <= m
  }

  function EncodeAll(values: seq<int>): (r: seq<int>)
    ensures |r| == |values|
  {
    seq(|values|, i requires 0 <= i < |values| => Encode(values[i], HasNegative(values)))
  }

  /** The distances from `low` as signed words, which is how the width is chosen. */
  function Signed(encoded: seq<int>, low: int): (r: seq<int>)
    ensures |r| == |encoded|
  {
    seq(|encoded|, i requires 0 <= i < |encoded| => I64(encoded[i] - low))
  }

  /** The fewest bytes, at most eight, that hold `max`. */
  ghost predicate IsWidth(n: nat, max: int) {
    && 1 <= n <= 8 && (n == 8 || max < Pow256(n)) && forall k: nat :: 1 <= k < n ==> max >= Pow256(k)
  }

  function Slot(p: Packed, i: nat): seq<Byte>
    requires (i + 1) * p.bytesPerNum <= |p.data|
  {
    assert i * p.bytesPerNum <= (i + 1) * p.bytesPerNum;
    p.data[i * p.bytesPerNum..(i + 1) * p.bytesPerNum]
  }

  ghost predicate Stores(p: Packed, values: seq<int>, low: int, max: int) {
    var encoded := EncodeAll(values);
    && p.zigZagged == HasNegative(values)
    && IsMin(low, encoded) && p.base == U64(low)
    && IsMax(max, Signed(encoded, low)) && IsWidth(p.bytesPerNum, max)
    && |p.data| == |values| * p.bytesPerNum
    && forall i: nat :: i < |values| ==> SlotHolds(p, i, encoded[i] - low)
  }

  ghost predicate SlotHolds(p: Packed, i: nat, distance: int) {
    (i + 1) * p.bytesPerNum <= |p.data| && Slot(p, i) == ToBytes(U64(distance), p.bytesPerNum)
  }

  function ValueAt(p: Packed, i: nat): int
    requires (i + 1) * p.bytesPerNum <= |p.data|
  {
    Decode(U64(p.base + FromBytes(Slot(p, i))), p.zigZagged)
  }

  // ---------- when the values come back ----------

  ghost predicate Big(x: int) {
    x >= TWO63
  }

  /** The distance does not fit seven bytes, and its top bit is clear. */
  ghost predicate Wide(x: int) {
    0x100_0000_0000_0000 <= x < TWO63
  }

  lemma Distance(values: seq<int>, low: int, i: nat)
    requires AllInt64(values) && IsMin(low, EncodeAll(values)) && i < |values|
    ensures 0 <= EncodeAll(values)[i] - low < TWO64 && IsInt64(low)
  {
    var encoded := EncodeAll(values);
    var k :| 0 <= k < |encoded| && encoded[k] == low;
    DecodeEncode(values[k], HasNegative(values));
    DecodeEncode(values[i], HasNegative(values));
  }

  lemma SignedOf(x: int)
    requires 0 <= x < TWO64
    ensures I64(x) == if Big(x) then x - TWO64 else x
  {
  }

  lemma SumWord(low: int, stored: int, e: int)
    requires 0 <= stored <= e - low < TWO64
    ensures U64(U64(low) + stored) == U64(e) <==> stored == e - low
  {
    var q, r := low / TWO64, low % TWO64;
    var w, v := U64(r + stored), U64(e);
    assert e - (r + stored) == TWO64 * q + (e - low - stored);
    if w == v {
      assert (e - low) - stored == TWO64 * (e / TWO64 - (r + stored) / TWO64 - q);
      Multiple(TWO64, e / TWO64 - (r + stored) / TWO64 - q);
    } else if stored == e - low {
      Remainder(e, TWO64, (r + stored) / TWO64 + q, w);
    }
  }

  lemma RemainderIsAll(x: nat, m: nat)
    requires m > 0
    ensures 0 <= x % m <= x && (x % m == x <==> x < m)
  {
    if x < m {
      Remainder(x, m, 0, x);
    } else {
      assert x % m < m;
    }
  }

  /** A slot gives the value back exactly when the distance fits it. */
  lemma SlotRoundTrip(p: Packed, values: seq<int>, low: int, max: int, i: nat)
    requires AllInt64(values) && Stores(p, values, low, max) && i < |values|
    ensures (i + 1) * p.bytesPerNum <= |p.data|
    ensures ValueAt(p, i) == values[i] <==> EncodeAll(values)[i] - low < Pow256(p.bytesPerNum)
  {
    hide Decode, ToBytes, FromBytes, Pow256, Encode, IsWidth, IsMax;
    var e := EncodeAll(values)[i];
    Distance(values, low, i);
    hide IsMin;
    assert SlotHolds(p, i, e - low);
    FitsU64(e - low);
    LowBytes(e - low, p.bytesPerNum);
    hide U64;
    var m := Pow256(p.bytesPerNum);
    RemainderIsAll(e - low, m);
    var stored := (e - low) % m;
    var w := U64(p.base + stored);
    SumWord(low, stored, e);
    DecodeEncode(values[i], p.zigZagged);
    WordRange(p.base + stored);
    WordRange(e);
    if Decode(w, p.zigZagged) == values[i] {
      DecodeInjective(w, U64(e), p.zigZagged);
    }
  }

  lemma WordRange(x: int)
    ensures 0 <= U64(x) < TWO64
  {
  }

  lemma WidthLimits(n: nat, max: int)
    requires IsWidth(n, max) && max < TWO63
    ensures n <= 8 && (n == 8 <==> max >= 0x100_0000_0000_0000)
    ensures max < Pow256(n)
  {
    EightBytes();
    if n < 8 {
      PowGrows(n, 7);
    }
  }

  ghost function Distances(values: seq<int>, low: int): (d: seq<int>)
    ensures |d| == |values|
  {
    seq(|values|, i requires 0 <= i < |values| => EncodeAll(values)[i] - low)
  }

  ghost predicate AsSigned(d: seq<int>, signed: seq<int>) {
    |signed| == |d| && forall i :: 0 <= i < |d| ==> signed[i] == if Big(d[i]) then d[i] - TWO64 else d[i]
  }

  ghost predicate NoneBig(d: seq<int>) {
    forall i :: 0 <= i < |d| ==> !Big(d[i])
  }

  ghost predicate SomeWide(d: seq<int>) {
    exists i :: 0 <= i < |d| && Wide(d[i])
  }

  ghost predicate AllFit(d: seq<int>, limit: int) {
    forall i :: 0 <= i < |d| ==> d[i] < limit
  }

  /** The width chosen from the signed distances holds all of them exactly when none has
      its top bit set or one of the others needs eight bytes. */
  lemma WidthFits(d: seq<int>, signed: seq<int>, max: int, n: nat)
    requires AsSigned(d, signed) && IsMax(max, signed) && IsWidth(n, max)
    requires (exists i :: 0 <= i < |d| && d[i] == 0) && forall i :: 0 <= i < |d| ==> 0 <= d[i] < TWO64
    ensures AllFit(d, Pow256(n)) <==> NoneBig(d) || SomeWide(d)
  {
    hide IsWidth, Pow256;
    var zero :| 0 <= zero < |d| && d[zero] == 0;
    assert signed[zero] == 0;
    var k :| 0 <= k < |signed| && signed[k] == max;
    assert d[k] == max;
    WidthLimits(n, max);
    EightBytes();
    if n == 8 {
      assert Wide(d[k]);
    } else {
      WidthSmall(n, max);
      forall i | 0 <= i < |d| ensures !Wide(d[i]) && (d[i] < Pow256(n) <==> !Big(d[i])) {
        assert signed[i] <= max;
      }
    }
  }

  lemma WidthSmall(n: nat, max: int)
    requires IsWidth(n, max) && n < 8
    ensures max < Pow256(n) <= 0x100_0000_0000_0000
  {
    EightBytes();
    PowGrows(n, 7);
  }

  ghost predicate ComesBack(p: Packed, values: seq<int>, i: nat)
    requires i < |values|
  {
    (i + 1) * p.bytesPerNum <= |p.data| && ValueAt(p, i) == values[i]
  }

  /** No distance has its top bit set, or another one forces eight bytes anyway. */
  ghost predicate WidthIsRight(values: seq<int>, low: int) {
    NoneBig(Distances(values, low)) || SomeWide(Distances(values, low))
  }

  /** Every value comes back exactly when the width is right for all of them. */
  lemma RoundTripIff(p: Packed, values: seq<int>, low: int, max: int)
    requires AllInt64(values) && Stores(p, values, low, max)
    ensures (forall i: nat :: i < |values| ==> ComesBack(p, values, i)) <==> WidthIsRight(values, low)
  {
    hide Pow256, IsWidth;
    var d := Distances(values, low);
    forall i: nat | i < |values| ensures ComesBack(p, values, i) <==> d[i] < Pow256(p.bytesPerNum) {
      SlotRoundTrip(p, values, low, max, i);
    }
    assert (forall i: nat :: i < |values| ==> ComesBack(p, values, i)) <==> AllFit(d, Pow256(p.bytesPerNum));
    DistancesFit(p, values, low, max);
  }

  lemma DistancesFit(p: Packed, values: seq<int>, low: int, max: int)
    requires AllInt64(values) && Stores(p, values, low, max)
    ensures AllFit(Distances(values, low), Pow256(p.bytesPerNum)) <==> WidthIsRight(values, low)
  {
    hide Pow256, IsWidth;
    var encoded, d := EncodeAll(values), Distances(values, low);
    forall i: nat | i < |values|
      ensures 0 <= d[i] < TWO64 && Signed(encoded, low)[i] == if Big(d[i]) then d[i] - TWO64 else d[i]
    {
      Distance(values, low, i);
      SignedOf(encoded[i] - low);
    }
    var k :| 0 <= k < |encoded| && encoded[k] == low;
    assert d[k] == 0;
    WidthFits(d, Signed(encoded, low), max, p.bytesPerNum);
  }

  /** Without negative values, or with all of them in `[-2^62, 2^62)`, the width is right. */
  lemma UsualValuesComeBack(values: seq<int>, low: int)
    requires AllInt64(values) && IsMin(low, EncodeAll(values))
    requires || (forall i :: 0 <= i < |values| ==> values[i] >= 0)
             || (forall i :: 0 <= i < |values| ==> -TWO63 <= 2 * values[i] < TWO63)
    ensures WidthIsRight(values, low)
  {
    var encoded := EncodeAll(values);
    forall i | 0 <= i < |values| ensures 0 <= encoded[i] < TWO63 {
      if HasNegative(values) {
        FitsI64(if values[i] >= 0 then 2 * values[i] else -2 * values[i] - 1);
      }
    }
  }

  /** One negative value next to one of at least `2^62` does not come back. */
  lemma FarApartIsLost()
    ensures var values := [-1, 0x4000_0000_0000_0000];
      AllInt64(values) && IsMin(-TWO63, EncodeAll(values)) && !WidthIsRight(values, -TWO63)
  {
    var values := [-1, 0x4000_0000_0000_0000];
    assert values[0] < 0;
    var encoded, d := EncodeAll(values), Distances(values, -TWO63);
    assert encoded[0] == 1 && encoded[1] == -TWO63;
    assert d[0] == TWO63 + 1 && d[1] == 0;
    assert Big(d[0]);
  }

  // ---------- building ----------

  method ZigZagEncode(values: seq<int>) returns (r: seq<int>)
    requires HasNegative(values)
    ensures r == EncodeAll(values)
  {
    r := values;
    for i := 0 to |values|
      invariant |r| == |values|
      invariant forall j :: 0 <= j < |values| ==> r[j] == if j < i then ZigZag(values[j]) else values[j]
    {
      r := r[i := ZigZag(r[i])];
    }
  }

  method Smallest(s: seq<int>) returns (m: int)
    requires s != []
    ensures IsMin(m, s)
  {
    m := s[0];
    for i := 1 to |s|
      invariant exists j :: 0 <= j < i && s[j] == m
      invariant forall j :: 0 <= j < i ==> m <= s[j]
    {
      if s[i] < m {
        m := s[i];
      }
    }
  }

  method Largest(s: seq<int>) returns (m: int)
    requires s != []
    ensures IsMax(m, s)
  {
    m := s[0];
    for i := 1 to |s|
      invariant exists j :: 0 <= j < i && s[j] == m
      invariant forall j :: 0 <= j < i ==> s[j] <= m
    {
      if s[i] > m {
        m := s[i];
      }
    }
  }

  /** Subtracts the smallest value, kept as an unsigned word, from all values. */
  method Rebase(values: seq<int>) returns (base: nat, r: seq<int>)
    requires values != []
    ensures exists low :: IsMin(low, values) && base == U64(low) && r == Signed(values, low)
  {
    var m := Smallest(values);
    ghost var low := m;
    base := U64(m);
    r := values;
    for i := 0 to |values|
      invariant |r| == |values|
      invariant forall j :: 0 <= j < |values| ==> r[j] == if j < i then I64(values[j] - low) else values[j]
    {
      WordDifference(values[i], m);
      r := r[i := I64(r[i] - base)];
    }
    assert r == Signed(values, low);
  }

  lemma WordDifference(x: int, y: int)
    ensures I64(x - U64(y)) == I64(x - y)
  {
    var q := y / TWO64;
    assert x - U64(y) == x - y + TWO64 * q;
    Remainder(x - U64(y), TWO64, (x - y) / TWO64 + q, (x - y) % TWO64);
  }

  method Width(max: int) returns (n: nat)
    ensures IsWidth(n, max)
  {
    n := 1;
    while n < 8 && max >= Pow256(n)
      invariant 1 <= n <= 8 && forall k: nat :: 1 <= k < n ==> max >= Pow256(k)
    {
      n := n + 1;
    }
  }

  method StoreAll(rebased: seq<int>, n: nat) returns (data: seq<Byte>)
    ensures |data| == |rebased| * n
    ensures forall i: nat :: i < |rebased| ==> InSlot(data, n, i, ToBytes(U64(rebased[i]), n))
  {
    data := [];
    for i := 0 to |rebased|
      invariant |data| == i * n
      invariant forall j: nat :: j < i ==> InSlot(data, n, j, ToBytes(U64(rebased[j]), n))
    {
      var bytes := ToBytes(U64(rebased[i]), n);
      forall j: nat | j < i ensures InSlot(data + bytes, n, j, ToBytes(U64(rebased[j]), n)) {
        SlotStays(data, bytes, n, j, ToBytes(U64(rebased[j]), n));
      }
      SlotAdded(data, bytes, n, i);
      data := data + bytes;
    }
  }

  ghost predicate InSlot(data: seq<Byte>, n: nat, i: nat, bytes: seq<Byte>) {
    0 <= i * n <= (i + 1) * n <= |data| && data[i * n..(i + 1) * n] == bytes
  }

  lemma SlotStays(data: seq<Byte>, more: seq<Byte>, n: nat, i: nat, bytes: seq<Byte>)
    requires InSlot(data, n, i, bytes)
    ensures InSlot(data + more, n, i, bytes)
  {
  }

  lemma SlotAdded(data: seq<Byte>, bytes: seq<Byte>, n: nat, i: nat)
    requires |data| == i * n && |bytes| == n
    ensures InSlot(data + bytes, n, i, bytes) && |data + bytes| == (i + 1) * n
  {
    assert (i + 1) * n == i * n + n;
  }

  lemma PlainEncode(values: seq<int>)
    requires !HasNegative(values)
    ensures EncodeAll(values) == values
  {
  }

  /** What the constructor stores; nothing for an empty vector. */
  method Init(values: seq<int>) returns (p: Packed, ghost low: int, ghost max: int)
    requires AllInt64(values)
    ensures values == [] ==> p == Packed(0, 1, false, [])
    ensures values != [] ==> Stores(p, values, low, max)
  {
    hide IsMin, IsMax, IsWidth, U64, I64, ToBytes, Encode, InSlot, SlotHolds;
    if values == [] {
      return Packed(0, 1, false, []), 0, 0;
    }
    var encoded := values;
    if HasNegative(values) {
      encoded := ZigZagEncode(values);
    } else {
      PlainEncode(values);
    }
    var base, rebased := Rebase(encoded);
    low :| IsMin(low, encoded) && base == U64(low) && rebased == Signed(encoded, low);
    var m := Largest(rebased);
    max := m;
    var n := Width(m);
    var data := StoreAll(rebased, n);
    p := Packed(base, n, HasNegative(values), data);
    StoredSlots(p, encoded, low, rebased);
  }

  lemma StoredSlots(p: Packed, encoded: seq<int>, low: int, rebased: seq<int>)
    requires rebased == Signed(encoded, low)
    requires forall i: nat :: i < |rebased| ==>
      InSlot(p.data, p.bytesPerNum, i, ToBytes(U64(rebased[i]), p.bytesPerNum))
    ensures forall i: nat :: i < |encoded| ==> SlotHolds(p, i, encoded[i] - low)
  {
    forall i: nat | i < |encoded| ensures SlotHolds(p, i, encoded[i] - low) {
      assert InSlot(p.data, p.bytesPerNum, i, ToBytes(U64(rebased[i]), p.bytesPerNum));
      SameWord(encoded[i] - low);
    }
  }

  // ---------- reading ----------

  /** Loads eight bytes and masks them where that many follow, else only those of the slot. */
  method RawValueAtIndex(p: Packed, index: nat) returns (raw: nat)
    requires 1 <= p.bytesPerNum <= 8 && (index + 1) * p.bytesPerNum <= |p.data|
    ensures raw == FromBytes(Slot(p, index))
  {
    var n, at := p.bytesPerNum, index * p.bytesPerNum;
    assert at + n == (index + 1) * n;
    if |p.data| - at > 8 {
      var word := p.data[at..at + 8];
      MaskedLoad(word, n);
      assert word[..n] == p.data[at..at + n];
      raw := FromBytes(word) % Pow256(n);
    } else {
      raw := FromBytes(p.data[at..at + n]);
    }
  }

  method At(p: Packed, index: nat) returns (v: int)
    requires 1 <= p.bytesPerNum <= 8 && (index + 1) * p.bytesPerNum <= |p.data|
    ensures v == ValueAt(p, index)
  {
    var raw := RawValueAtIndex(p, index);
    v := Decode(U64(p.base + raw), p.zigZagged);
  }

  /** Packing a vector and reading one of its values. */
  method PackThenRead(values: seq<int>, index: nat) returns (v: int)
    requires AllInt64(values) && index < |values|
    requires || (forall i :: 0 <= i < |values| ==> values[i] >= 0)
             || (forall i :: 0 <= i < |values| ==> -TWO63 <= 2 * values[i] < TWO63)
    ensures v == values[index]
  {
    var p, low, max := Init(values);
    UsualValuesComeBack(values, low);
    RoundTripIff(p, values, low, max);
    assert ComesBack(p, values, index);
    v := At(p, index);
  }

  /** All values, read one by one. */
  method ReadAll(p: Packed, n: nat) returns (column: seq<int>)
    requires 1 <= p.bytesPerNum <= 8 && |p.data| == n * p.bytesPerNum
    ensures |column| == n
    ensures forall i: nat :: i < n ==> HasSlot(p, i) && column[i] == ValueAt(p, i)
  {
    column := [];
    for k := 0 to n
      invariant |column| == k
      invariant forall i: nat :: i < k ==> HasSlot(p, i) && column[i] == ValueAt(p, i)
    {
      SlotInside(k, n, p.bytesPerNum);
      var v := At(p, k);
      column := column + [v];
    }
  }

  predicate HasSlot(p: Packed, i: nat) {
    (i + 1) * p.bytesPerNum <= |p.data|
  }

  lemma SlotInside(k: nat, n: nat, width: nat)
    requires k < n
    ensures (k + 1) * width <= n * width
  {
    assert n * width - (k + 1) * width == (n - k - 1) * width;
  }

  /** The vector comes back from its packed form. */
  ghost predicate Survives(values: seq<int>) {
    exists low :: IsMin(low, EncodeAll(values)) && WidthIsRight(values, low)
  }

  lemma OneMin(s: seq<int>, a: int, b: int)
    requires IsMin(a, s) && IsMin(b, s)
    ensures a == b
  {
  }

  /** The values that are read back from what is stored for `values`. */
  ghost predicate ReadBack(values: seq<int>, column: seq<int>) {
    |column| == |values| && exists p, low, max :: Stores(p, values, low, max) && ReadFrom(p, column)
  }

  ghost predicate ReadFrom(p: Packed, column: seq<int>) {
    forall i: nat :: i < |column| ==> HasSlot(p, i) && column[i] == ValueAt(p, i)
  }

  /** Packs a vector and reads it back. */
  method PackAndReadBack(values: seq<int>) returns (column: seq<int>)
    requires AllInt64(values) && values != []
    ensures ReadBack(values, column)
    ensures |column| == |values| && (column == values <==> Survives(values))
  {
    var p, low, max := Init(values);
    StoredWidth(p, values, low, max);
    column := ReadAll(p, |values|);
    hide Stores, Survives;
    assert ReadFrom(p, column);
    ReadBackIff(values, column);
  }

  /** Vectors of equal values always survive. */
  lemma EqualValuesSurvive(values: seq<int>)
    requires AllInt64(values) && values != [] && forall i :: 0 <= i < |values| ==> values[i] == values[0]
    ensures Survives(values)
  {
    var encoded := EncodeAll(values);
    var low := encoded[0];
    assert IsMin(low, encoded);
    assert forall i :: 0 <= i < |values| ==> Distances(values, low)[i] == 0;
    assert WidthIsRight(values, low);
  }

  /** The same vector comes back if and only if it survives. */
  lemma ReadBackIff(values: seq<int>, column: seq<int>)
    requires AllInt64(values) && values != [] && ReadBack(values, column)
    ensures column == values <==> Survives(values)
  {
    var p, low, max :| Stores(p, values, low, max) && ReadFrom(p, column);
    StoredWidth(p, values, low, max);
    RoundTripIff(p, values, low, max);
    SurvivesAt(values, low);
    hide Survives, WidthIsRight, Stores, ValueAt;
    if forall i: nat :: i < |values| ==> ComesBack(p, values, i) {
      forall i | 0 <= i < |values| ensures column[i] == values[i] {
        assert ComesBack(p, values, i);
      }
    }
    if column == values {
      forall i: nat | i < |values| ensures ComesBack(p, values, i) {
        assert HasSlot(p, i) && column[i] == ValueAt(p, i);
      }
    }
  }

  lemma StoredWidth(p: Packed, values: seq<int>, low: int, max: int)
    requires Stores(p, values, low, max)
    ensures 1 <= p.bytesPerNum <= 8 && |p.data| == |values| * p.bytesPerNum && IsMin(low, EncodeAll(values))
  {
  }

  lemma SurvivesAt(values: seq<int>, low: int)
    requires IsMin(low, EncodeAll(values))
    ensures Survives(values) <==> WidthIsRight(values, low)
  {
    hide WidthIsRight;
    if m :| IsMin(m, EncodeAll(values)) && WidthIsRight(values, m) {
      OneMin(EncodeAll(values), m, low);
    }
  }
}
