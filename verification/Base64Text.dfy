/** Base64 as numbers: a text in either alphabet is the big-endian number of its bytes, written
    with 64 digits. */
module Base64Text {
  import opened Basics
  import opened Words
  import opened Base64

  // ---------- the alphabets ----------

  const UPPER: string := "ABCDEFGHIJKLMNOPQRSTUVWXYZ"
  const LOWER: string := "abcdefghijklmnopqrstuvwxyz"
  const NUMERALS: string := "0123456789"

  ghost function Alphabet(webSafe: bool): (s: string)
    ensures |s| == 64
  {
    UPPER + LOWER + NUMERALS + if webSafe then "-_" else "+/"
  }

  /** The character stands for the value. */
  ghost predicate Stands(c: Byte, webSafe: bool, v: nat) {
    v < 64 && Alphabet(webSafe)[v] as int == c
  }

  ghost predicate IsWhite(c: Byte) {
    c == ' ' as int || c == '\t' as int || c == '\n' as int || c == 11 || c == 12 || c == '\r' as int
  }

  ghost predicate IsPadding(c: Byte) {
    c == '=' as int || c == '.' as int
  }

  lemma UpperIs(v: nat)
    requires v < 26
    ensures UPPER[v] as int == 65 + v
  {
  }

  lemma LowerIs(v: nat)
    requires v < 26
    ensures LOWER[v] as int == 97 + v
  {
  }

  lemma NumeralIs(v: nat)
    requires v < 10
    ensures NUMERALS[v] as int == 48 + v
  {
  }

  lemma AlphabetIs(v: nat, webSafe: bool)
    requires v < 64
    ensures Alphabet(webSafe)[v] as int == Char(v, webSafe)
  {
    if v < 26 {
      UpperIs(v);
    } else if v < 52 {
      LowerIs(v - 26);
    } else if v < 62 {
      NumeralIs(v - 52);
    }
  }

  /** The encoding and the decoding table are those of the alphabet. */
  lemma StandsIs(c: Byte, webSafe: bool, v: nat)
    ensures Stands(c, webSafe, v) <==> v < 64 && c == Char(v, webSafe)
    ensures Stands(c, webSafe, v) <==> v == Digit(c, webSafe)
  {
    if v < 64 {
      AlphabetIs(v, webSafe);
    }
  }

  // ---------- numbers ----------

  ghost function BigEndian(v: seq<nat>, base: nat): nat {
    if v == [] then 0 else BigEndian(v[..|v| - 1], base) * base + v[|v| - 1]
  }

  ghost function Pow(base: nat, n: nat): nat {
    if n == 0 then 1 else Pow(base, n - 1) * base
  }

  lemma Regroup(a: nat, p: nat, b: nat, base: nat, x: nat)
    ensures (a * p + b) * base + x == a * (p * base) + (b * base + x)
  {
    assert (a * p + b) * base == a * p * base + b * base;
    assert a * p * base == a * (p * base);
  }

  lemma {:induction false} BigAppend(v: seq<nat>, w: seq<nat>, base: nat)
    ensures BigEndian(v + w, base) == BigEndian(v, base) * Pow(base, |w|) + BigEndian(w, base)
  {
    if w == [] {
      assert v + w == v;
    } else {
      var n := |w| - 1;
      assert (v + w)[..|v + w| - 1] == v + w[..n];
      BigAppend(v, w[..n], base);
      Regroup(BigEndian(v, base), Pow(base, n), BigEndian(w[..n], base), base, w[n]);
    }
  }

  ghost predicate Below(v: seq<nat>, base: nat) {
    forall i :: 0 <= i < |v| ==> v[i] < base
  }

  /** Digits are determined by their number. */
  lemma {:induction false} OneSpelling(v: seq<nat>, w: seq<nat>, base: nat)
    requires |v| == |w| && Below(v, base) && Below(w, base) && BigEndian(v, base) == BigEndian(w, base)
    ensures v == w
  {
    if v != [] {
      var n := |v| - 1;
      var x, y := BigEndian(v[..n], base), BigEndian(w[..n], base);
      Remainder(base * x + v[n], base, x, v[n]);
      Remainder(base * x + v[n], base, y, w[n]);
      OneSpelling(v[..n], w[..n], base);
      assert v == v[..n] + [v[n]] && w == w[..n] + [w[n]];
    }
  }

  lemma BigOne(a: nat, base: nat)
    ensures BigEndian([a], base) == a
  {
    assert [a][..0] == [];
  }

  lemma BigTwo(a: nat, b: nat, base: nat)
    ensures BigEndian([a, b], base) == a * base + b
  {
    assert [a, b][..1] == [a];
    BigOne(a, base);
  }

  lemma BigThree(a: nat, b: nat, c: nat, base: nat)
    ensures BigEndian([a, b, c], base) == (a * base + b) * base + c
  {
    assert [a, b, c][..2] == [a, b];
    BigTwo(a, b, base);
  }

  lemma {:induction false} BitsIs(d: seq<nat>)
    ensures Bits(d) == BigEndian(d, 64)
  {
    if d != [] {
      BitsIs(d[..|d| - 1]);
    }
  }

  // ---------- encoding ----------

  /** By how much the number is shifted for a length that is no multiple of three. */
  ghost function Shift(n: nat): nat {
    if n % 3 == 1 then 16 else if n % 3 == 2 then 4 else 1
  }

  ghost function Values(src: seq<Byte>): (v: seq<nat>)
    ensures |v| == |src| && forall i :: 0 <= i < |src| ==> v[i] == src[i]
  {
    seq(|src|, i requires 0 <= i < |src| => src[i])
  }

  /** `d` is the number of the bytes in 64 digits. */
  ghost predicate Packs(src: seq<Byte>, d: seq<nat>) {
    && |d| == (4 * |src| + 2) / 3 && Below(d, 64)
    && BigEndian(d, 64) == BigEndian(Values(src), 256) * Shift(|src|)
  }

  ghost function Repeated(c: char, n: nat): seq<Byte>
    requires c as int < 256
  {
    seq(n, _ => c as int)
  }

  /** How many characters are missing in the last group of four. */
  ghost function PadCount(n: nat, padding: bool): nat {
    if padding then (3 - n % 3) % 3 else 0
  }

  /** The text spells the digits, and padding fills the last group of four. */
  ghost predicate IsEncoding(src: seq<Byte>, webSafe: bool, padding: bool, out: seq<Byte>, d: seq<nat>) {
    && Packs(src, d) && |out| >= |d|
    && (forall i :: 0 <= i < |d| ==> Stands(out[i], webSafe, d[i]))
    && out[|d|..] == Repeated('=', PadCount(|src|, padding))
  }

  lemma PowShort(n: nat)
    requires n < 3
    ensures Pow(64, (4 * n + 2) / 3) == Pow(256, n) * Shift(n)
  {
    if n == 1 {
      assert Pow(64, 2) == 64 * 64;
    } else if n == 2 {
      assert Pow(64, 3) == 64 * 64 * 64;
    }
  }

  lemma {:induction false} PowRatio(n: nat)
    ensures Pow(64, (4 * n + 2) / 3) == Pow(256, n) * Shift(n)
  {
    if n < 3 {
      PowShort(n);
    } else {
      hide *;
      var m := n - 3;
      var k := (4 * m + 2) / 3;
      PowRatio(m);
      ShiftRepeats(m);
      PowPlus(64, k, 4);
      PowPlus(256, m, 3);
      PowFour();
      Swap(Pow(256, m), Shift(m));
    }
  }

  lemma Swap(p: nat, s: nat)
    ensures p * s * 0x100_0000 == p * 0x100_0000 * s
  {
  }

  lemma {:induction false} PowPlus(base: nat, m: nat, n: nat)
    ensures Pow(base, m + n) == Pow(base, m) * Pow(base, n)
  {
    if n > 0 {
      PowPlus(base, m, n - 1);
      assert Pow(base, m) * Pow(base, n - 1) * base == Pow(base, m) * (Pow(base, n - 1) * base);
    }
  }

  lemma PowFour()
    ensures Pow(64, 4) == 0x100_0000 && Pow(256, 3) == 0x100_0000
  {
    assert Pow(64, 1) == 64 && Pow(64, 2) == 0x1000 && Pow(64, 3) == 0x4_0000;
    assert Pow(256, 1) == 256 && Pow(256, 2) == 0x1_0000;
  }

  lemma PackOne(a: Byte)
    ensures Packs([a], Digits(Word(a, 0, 0))[..2])
  {
    hide *;
    var x: nat := a;
    var d0, d1 := x / 4, x % 4 * 16;
    var d := Digits(Word(a, 0, 0))[..2];
    DigitsOne(a);
    assert d == [d0, d1];
    BigTwo(d0, d1, 64);
    ValuesOne(a);
    BigOne(a, 256);
    Packing([a], d, 16 * x, x);
  }

  lemma ValuesOne(a: Byte)
    ensures Values([a]) == [a] && Shift(1) == 16
  {
  }

  lemma PackTwo(a: Byte, b: Byte)
    ensures Packs([a, b], Digits(Word(a, b, 0))[..3])
  {
    hide *;
    var x: nat := a * 256 + b;
    var d0, d1, d2 := x / 1024, x % 1024 / 16, x % 16 * 4;
    var d := Digits(Word(a, b, 0))[..3];
    DigitsTwo(a, b);
    assert d == [d0, d1, d2];
    BigThree(d0, d1, d2, 64);
    Sextets(x);
    ValuesTwo(a, b);
    BigTwo(a, b, 256);
    Packing([a, b], d, 4 * x, x);
  }

  lemma ValuesTwo(a: Byte, b: Byte)
    ensures Values([a, b]) == [a, b] && Shift(2) == 4
  {
  }

  lemma Packing(src: seq<Byte>, d: seq<nat>, y: nat, x: nat)
    requires |d| == (4 * |src| + 2) / 3 && BigEndian(d, 64) == y && BigEndian(Values(src), 256) == x
    requires y == x * Shift(|src|) && forall i :: 0 <= i < |d| ==> d[i] < 64
    ensures Packs(src, d)
  {
    hide BigEndian, Values, Shift;
  }

  lemma Sextets(x: nat)
    ensures (x / 1024 * 64 + x % 1024 / 16) * 64 + x % 16 * 4 == 4 * x
  {
    var y := x % 1024;
    Remainder(x, 16, x / 1024 * 64 + y / 16, y % 16);
  }

  lemma Distribute(w: nat, p: nat, s: nat, b: nat)
    ensures w * (p * s) + b * s == (w * p + b) * s
  {
    assert w * (p * s) == w * p * s;
  }

  lemma ValuesSplit(src: seq<Byte>)
    requires |src| >= 3
    ensures Values(src) == [src[0], src[1], src[2]] + Values(src[3..])
  {
  }

  lemma PackingOf(src: seq<Byte>, d: seq<nat>)
    requires Packs(src, d)
    ensures |d| == (4 * |src| + 2) / 3 && BigEndian(d, 64) == BigEndian(Values(src), 256) * Shift(|src|)
    ensures forall i :: 0 <= i < |d| ==> d[i] < 64
  {
  }

  lemma ShiftRepeats(n: nat)
    ensures Shift(n + 3) == Shift(n) && (4 * (n + 3) + 2) / 3 == (4 * n + 2) / 3 + 4
  {
  }

  lemma WordIs(a: Byte, b: Byte, c: Byte)
    ensures Word(a, b, c) == (a * 256 + b) * 256 + c
  {
  }

  lemma PackGroup(src: seq<Byte>, d: seq<nat>)
    requires |src| >= 3 && Packs(src[3..], d)
    ensures Packs(src, Digits(Word(src[0], src[1], src[2])) + d)
  {
    hide *;
    var a: nat, b: nat, c: nat := src[0], src[1], src[2];
    var w, rest := Word(src[0], src[1], src[2]), src[3..];
    var e := Digits(w);
    PackingOf(rest, d);
    DigitsBits(w);
    BitsIs(e);
    BigAppend(e, d, 64);
    ValuesSplit(src);
    WordIs(src[0], src[1], src[2]);
    BigThree(a, b, c, 256);
    BigAppend([a, b, c], Values(rest), 256);
    PowRatio(|rest|);
    ShiftRepeats(|rest|);
    Distribute(w, Pow(256, |rest|), Shift(|rest|), BigEndian(Values(rest), 256));
    Packing(src, e + d, BigEndian(e + d, 64), BigEndian(Values(src), 256));
  }

  lemma Padding()
    ensures Repeated('=', 0) == [] && Repeated('=', 1) == [EQUALS] && Repeated('=', 2) == [EQUALS, EQUALS]
  {
  }

  lemma CharsAppend(d: seq<nat>, e: seq<nat>, webSafe: bool)
    requires Below(d, 64) && Below(e, 64)
    ensures Chars(d + e, webSafe) == Chars(d, webSafe) + Chars(e, webSafe)
  {
    hide Char;
  }

  lemma EncodeShort(src: seq<Byte>, webSafe: bool, padding: bool) returns (d: seq<nat>)
    requires |src| < 3
    ensures Packs(src, d)
    ensures Encode(src, webSafe, padding) == Chars(d, webSafe) + Repeated('=', PadCount(|src|, padding))
  {
    hide Packs, Digits, Word, Char;
    Padding();
    if |src| == 0 {
      d := [];
      PackNothing();
      assert Chars(d, webSafe) == [];
    } else if |src| == 1 {
      d := Digits(Word(src[0], 0, 0))[..2];
      PackOne(src[0]);
      assert src == [src[0]];
    } else {
      d := Digits(Word(src[0], src[1], 0))[..3];
      PackTwo(src[0], src[1]);
      assert src == [src[0], src[1]];
    }
  }

  lemma EncodeMore(src: seq<Byte>, webSafe: bool, padding: bool)
    requires |src| >= 3
    ensures Encode(src, webSafe, padding) ==
      Chars(Digits(Word(src[0], src[1], src[2])), webSafe) + Encode(src[3..], webSafe, padding)
    ensures PadCount(|src|, padding) == PadCount(|src[3..]|, padding)
  {
    hide Chars, Digits, Word;
  }

  /** Every encoding is the number of its bytes. */
  lemma {:induction false} EncodePacks(src: seq<Byte>, webSafe: bool, padding: bool) returns (d: seq<nat>)
    ensures Packs(src, d)
    ensures Encode(src, webSafe, padding) == Chars(d, webSafe) + Repeated('=', PadCount(|src|, padding))
    decreases |src|
  {
    hide *;
    if |src| < 3 {
      d := EncodeShort(src, webSafe, padding);
    } else {
      var rest := EncodePacks(src[3..], webSafe, padding);
      var e := Digits(Word(src[0], src[1], src[2]));
      d := e + rest;
      EncodeMore(src, webSafe, padding);
      PackGroup(src, rest);
      PackBelow(src[3..], rest);
      DigitsBelow(e);
      CharsAppend(e, rest, webSafe);
    }
  }

  lemma DigitsBelow(d: seq<nat>)
    requires forall i :: 0 <= i < |d| ==> d[i] < 64
    ensures Below(d, 64)
  {
  }

  lemma PackNothing()
    ensures Packs([], [])
  {
    assert Values([]) == [];
  }

  lemma PackBelow(src: seq<Byte>, d: seq<nat>)
    requires Packs(src, d)
    ensures Below(d, 64) && forall i :: 0 <= i < |d| ==> d[i] < 64
  {
  }

  /** A text is the encoding of the bytes exactly when it spells their number. */
  lemma EncodeIs(src: seq<Byte>, webSafe: bool, padding: bool, out: seq<Byte>)
    ensures out == Encode(src, webSafe, padding) <==> exists d :: IsEncoding(src, webSafe, padding, out, d)
  {
    hide Encode, BigEndian;
    var d := EncodePacks(src, webSafe, padding);
    var pad := Repeated('=', PadCount(|src|, padding));
    var text := Chars(d, webSafe);
    hide Stands;
    forall c: Byte, v: nat ensures Stands(c, webSafe, v) <==> v < 64 && c == Char(v, webSafe) {
      StandsIs(c, webSafe, v);
    }
    if out == text + pad {
      assert out[|d|..] == pad;
      assert IsEncoding(src, webSafe, padding, out, d);
    }
    forall e | IsEncoding(src, webSafe, padding, out, e) ensures out == text + pad {
      OneSpelling(d, e, 64);
      assert out == out[..|d|] + out[|d|..];
      assert out[..|d|] == text;
    }
  }

  // ---------- decoding ----------

  /** By how much the number of the digits is shifted, for a last group of two or three. */
  ghost function Surplus(n: nat): nat {
    if n % 4 == 2 then 16 else if n % 4 == 3 then 4 else 1
  }

  /** The bytes are the number of the digits without its surplus bits. */
  ghost predicate Unpacks(d: seq<nat>, out: seq<Byte>) {
    && |d| % 4 != 1 && |out| == |d| * 3 / 4
    && BigEndian(Values(out), 256) == BigEndian(d, 64) / Surplus(|d|)
  }

  lemma BytesTwo(d: seq<nat>)
    requires |d| == 2 && Below(d, 64)
    ensures Unpacks(d, Bytes(d))
  {
    var x := Bits(d);
    assert Bytes(d) == [x / 16 % 256];
    BitsIs(d);
    assert d == [d[0], d[1]];
    BigTwo(d[0], d[1], 64);
    hide *;
    TwoBelow(d, x);
    var b := [x / 16];
    ValuesOne(b[0]);
    BigOne(b[0], 256);
    Unpacking(d, b, x, x / 16);
  }

  lemma TwoBelow(d: seq<nat>, x: nat)
    requires |d| == 2 && Below(d, 64) && x == d[0] * 64 + d[1]
    ensures x / 16 % 256 == x / 16 < 256 && Surplus(2) == 16
  {
  }

  lemma TwoOfThree(x: nat)
    requires x < 0x4_0000
    ensures x / 1024 % 256 == x / 1024 && x / 1024 * 256 + x / 4 % 256 == x / 4
  {
    Remainder(x, 4, x / 1024 * 256 + x % 1024 / 4, x % 4);
    Remainder(x / 4, 256, x / 1024, x % 1024 / 4);
  }

  lemma BytesThree(d: seq<nat>)
    requires |d| == 3 && Below(d, 64)
    ensures Unpacks(d, Bytes(d))
  {
    var x := Bits(d);
    assert Bytes(d) == [x / 1024 % 256, x / 4 % 256];
    BitsIs(d);
    assert d == [d[0], d[1], d[2]];
    BigThree(d[0], d[1], d[2], 64);
    hide *;
    ThreeBelow(d, x);
    TwoOfThree(x);
    var b := [x / 1024, x / 4 % 256];
    ValuesTwo(b[0], b[1]);
    BigTwo(b[0], b[1], 256);
    Unpacking(d, b, x, x / 4);
  }

  lemma ThreeBelow(d: seq<nat>, x: nat)
    requires |d| == 3 && Below(d, 64) && x == (d[0] * 64 + d[1]) * 64 + d[2]
    ensures x < 0x4_0000
  {
  }

  lemma Unpacking(d: seq<nat>, out: seq<Byte>, y: nat, x: nat)
    requires |d| % 4 != 1 && |out| == |d| * 3 / 4 && BigEndian(d, 64) == y && BigEndian(Values(out), 256) == x
    requires x == y / Surplus(|d|)
    ensures Unpacks(d, out)
  {
    hide BigEndian, Values;
  }

  lemma UnpackingOf(d: seq<nat>, out: seq<Byte>)
    requires Unpacks(d, out)
    ensures |d| % 4 != 1 && |out| == |d| * 3 / 4
    ensures BigEndian(Values(out), 256) == BigEndian(d, 64) / Surplus(|d|)
  {
  }

  lemma FourBelow(d: seq<nat>, w: nat)
    requires |d| == 4 && Below(d, 64) && w == ((d[0] * 64 + d[1]) * 64 + d[2]) * 64 + d[3]
    ensures w < 0x100_0000
  {
  }

  lemma ThreeIs(w: nat)
    requires w < 0x100_0000
    ensures var v := Values(Three(w)); v == [v[0], v[1], v[2]] && (v[0] * 256 + v[1]) * 256 + v[2] == w
  {
    var a, r := w / 0x1_0000, w % 0x1_0000;
    Remainder(w, 256, a * 256 + r / 256, r % 256);
    Remainder(w / 256, 256, a, r / 256);
  }

  lemma GroupNumber(d: seq<nat>)
    requires |d| == 4 && Below(d, 64)
    ensures Bits(d) < 0x100_0000 && BigEndian(Values(Three(Bits(d))), 256) == Bits(d) == BigEndian(d, 64)
  {
    hide *;
    BitsIs(d);
    BitsFour(d);
    var w := Bits(d);
    FourBelow(d, w);
    ThreeIs(w);
    var v := Values(Three(w));
    BigThree(v[0], v[1], v[2], 256);
  }

  lemma WholeGroups(n: nat, m: nat)
    requires n % 4 != 1 && m == n * 3 / 4
    ensures (4 * m + 2) / 3 == n && Shift(m) == Surplus(n)
  {
    var k, r := n / 4, n % 4;
    assert m == 3 * k + (if r == 0 then 0 else r - 1);
  }

  lemma PowSurplus(n: nat)
    requires n % 4 != 1
    ensures Pow(64, n) == Pow(256, n * 3 / 4) * Surplus(n)
  {
    hide *;
    WholeGroups(n, n * 3 / 4);
    PowRatio(n * 3 / 4);
  }

  lemma SurplusDivides(w: nat, p: nat, s: nat, b: nat, x: nat)
    requires s > 0 && b == x / s
    ensures w * p + b == (w * (p * s) + x) / s
  {
    Distribute(w, p, s, b);
    Remainder(w * (p * s) + x, s, w * p + b, x % s);
  }

  lemma SurplusRepeats(n: nat)
    ensures Surplus(n + 4) == Surplus(n) && (n + 4) * 3 / 4 == n * 3 / 4 + 3
  {
  }

  lemma ValuesAppend(a: seq<Byte>, b: seq<Byte>)
    ensures Values(a + b) == Values(a) + Values(b)
  {
  }

  lemma UnpackGroup(d: seq<nat>, rest: seq<Byte>)
    requires |d| >= 4 && Below(d, 64) && Unpacks(d[4..], rest)
    ensures Unpacks(d, Three(Bits(d[..4])) + rest)
  {
    var e, t := d[..4], d[4..];
    assert Below(e, 64);
    hide *;
    var w, b := Bits(e), Three(Bits(e));
    UnpackingOf(t, rest);
    GroupNumber(e);
    assert d == e + t;
    BigAppend(e, t, 64);
    ValuesAppend(b, rest);
    BigAppend(Values(b), Values(rest), 256);
    PowSurplus(|t|);
    SurplusRepeats(|t|);
    SurplusPositive(|t|);
    SurplusDivides(w, Pow(256, |rest|), Surplus(|t|), BigEndian(Values(rest), 256), BigEndian(t, 64));
    Unpacking(d, b + rest, BigEndian(d, 64), BigEndian(Values(b + rest), 256));
  }

  lemma SurplusPositive(n: nat)
    ensures Surplus(n) > 0
  {
  }

  lemma {:induction false} BytesUnpack(d: seq<nat>)
    requires |d| % 4 != 1 && Below(d, 64)
    ensures Unpacks(d, Bytes(d))
    decreases |d|
  {
    if |d| == 0 {
      assert Values([]) == [];
    } else if |d| == 2 {
      BytesTwo(d);
    } else if |d| == 3 {
      BytesThree(d);
    } else {
      hide Unpacks, Bits, Three;
      BytesUnpack(d[4..]);
      UnpackGroup(d, Bytes(d[4..]));
    }
  }

  /** The digits that the text carries, between white space. */
  ghost predicate Carries(text: seq<Byte>, webSafe: bool, d: seq<nat>) {
    if text == [] then d == []
    else if IsWhite(text[0]) then Carries(text[1..], webSafe, d)
    else d != [] && Stands(text[0], webSafe, d[0]) && Carries(text[1..], webSafe, d[1..])
  }

  /** Padding and white space, from the first padding character on. */
  ghost predicate IsPad(text: seq<Byte>) {
    text != [] ==> IsPadding(text[0]) && forall i :: 0 <= i < |text| ==> IsPadding(text[i]) || IsWhite(text[i])
  }

  ghost function CountPads(text: seq<Byte>): nat {
    if text == [] then 0 else CountPads(text[1..]) + if IsPadding(text[0]) then 1 else 0
  }

  /** Digits and white space up to position `k`, padding from there on. */
  ghost predicate IsReading(s: seq<Byte>, webSafe: bool, k: nat, d: seq<nat>) {
    k <= |s| && Carries(s[..k], webSafe, d) && IsPad(s[k..])
  }

  /** The text stands for the bytes: its digits do, and padding is either absent or fills the
      last group of four. */
  ghost predicate Denotes(s: seq<Byte>, webSafe: bool, out: seq<Byte>, k: nat, d: seq<nat>) {
    && IsReading(s, webSafe, k, d) && Unpacks(d, out)
    && (CountPads(s[k..]) == 0 || CountPads(s[k..]) == (4 - |d| % 4) % 4)
  }

  lemma ClassesAre(c: Byte, webSafe: bool)
    ensures IsWhite(c) <==> IsSpace(c)
    ensures IsPadding(c) <==> Base64.IsPad(c)
    ensures IsWhite(c) ==> Digit(c, webSafe) < 0 && !IsPadding(c)
    ensures IsPadding(c) ==> Digit(c, webSafe) < 0
  {
  }

  lemma {:induction false} PadsAre(d: seq<nat>, equals: nat, s: seq<Byte>)
    requires NoZeroByte(s)
    ensures Pads(d, equals, s) ==
      if forall i :: 0 <= i < |s| ==> IsPadding(s[i]) || IsWhite(s[i]) then Finish(d, equals + CountPads(s)) else None
    decreases |s|
  {
    hide Finish, IsPadding, IsWhite;
    if s != [] {
      ClassesAre(s[0], false);
      hide Base64.IsPad, IsSpace;
      assert s == [s[0]] + s[1..];
      PadsAre(d, if IsPadding(s[0]) then equals + 1 else equals, s[1..]);
    }
  }

  /** The digits of a reading end where the padding starts. */
  lemma ReadingStep(s: seq<Byte>, webSafe: bool, k: nat, d: seq<nat>)
    requires s != [] && k <= |s|
    ensures k == 0 ==> (IsReading(s, webSafe, k, d) <==> d == [] && IsPad(s))
    ensures k > 0 ==> (IsReading(s, webSafe, k, d) <==>
      if IsWhite(s[0]) then IsReading(s[1..], webSafe, k - 1, d)
      else d != [] && Stands(s[0], webSafe, d[0]) && IsReading(s[1..], webSafe, k - 1, d[1..]))
    ensures k > 0 ==> s[1..][k - 1..] == s[k..]
    ensures k == 0 ==> s[k..] == s
  {
    hide IsPad, Stands, IsWhite;
    if k > 0 {
      assert s[..k][1..] == s[1..][..k - 1] && s[1..][k - 1..] == s[k..] && s[..k][0] == s[0];
    } else {
      assert s[k..] == s && s[..k] == [];
    }
  }

  ghost predicate ReadsTo(d: seq<nat>, s: seq<Byte>, webSafe: bool, r: Option<seq<Byte>>, k: nat, e: seq<nat>) {
    IsReading(s, webSafe, k, e) && Finish(d + e, CountPads(s[k..])) == r
  }

  /** One character of a reading. */
  lemma ReadsFirst(d: seq<nat>, s: seq<Byte>, webSafe: bool, r: Option<seq<Byte>>, e: seq<nat>)
    requires s != []
    ensures ReadsTo(d, s, webSafe, r, 0, e) <==> e == [] && IsPad(s) && Finish(d, CountPads(s)) == r
  {
    ReadingStep(s, webSafe, 0, e);
    hide IsReading, Finish, IsPad, CountPads;
    assert e == [] ==> d + e == d;
  }

  lemma ReadsWhite(d: seq<nat>, s: seq<Byte>, webSafe: bool, r: Option<seq<Byte>>, k: nat, e: seq<nat>)
    requires s != [] && 0 < k <= |s| && IsWhite(s[0])
    ensures ReadsTo(d, s, webSafe, r, k, e) <==> ReadsTo(d, s[1..], webSafe, r, k - 1, e)
  {
    hide IsReading, Finish, IsPad, Stands, IsWhite, CountPads;
    ReadingStep(s, webSafe, k, e);
  }

  lemma ReadsDigit(d: seq<nat>, s: seq<Byte>, webSafe: bool, r: Option<seq<Byte>>, k: nat, e: seq<nat>)
    requires s != [] && 0 < k <= |s| && !IsWhite(s[0])
    ensures ReadsTo(d, s, webSafe, r, k, e) <==>
      e != [] && Stands(s[0], webSafe, e[0]) && ReadsTo(d + [e[0]], s[1..], webSafe, r, k - 1, e[1..])
  {
    hide IsReading, Finish, IsPad, Stands, IsWhite, CountPads;
    ReadingStep(s, webSafe, k, e);
    if e != [] {
      assert d + e == d + [e[0]] + e[1..];
    }
  }

  lemma ReadsNothing(d: seq<nat>, webSafe: bool, r: Option<seq<Byte>>, k: nat, e: seq<nat>)
    ensures ReadsTo(d, [], webSafe, r, k, e) <==> k == 0 && e == [] && Finish(d, 0) == r
  {
    hide Finish;
    assert e == [] ==> d + e == d;
  }

  /** One character of the decoder. */
  lemma ScanStep(d: seq<nat>, s: seq<Byte>, webSafe: bool)
    ensures s == [] ==> Scan(d, s, webSafe) == Finish(d, 0)
    ensures s != [] ==> (Scan(d, s, webSafe) ==
      if Digit(s[0], webSafe) >= 0 then Scan(d + [Digit(s[0], webSafe)], s[1..], webSafe)
      else if IsWhite(s[0]) then Scan(d, s[1..], webSafe)
      else if IsPadding(s[0]) then Pads(d, 0, s)
      else None)
  {
    if s != [] {
      ClassesAre(s[0], webSafe);
    }
    hide Digit, Finish, Pads, IsSpace, Base64.IsPad, IsWhite, IsPadding;
  }

  lemma {:induction false} ScanReads(d: seq<nat>, s: seq<Byte>, webSafe: bool) returns (k: nat, e: seq<nat>)
    requires NoZeroByte(s) && Scan(d, s, webSafe).Some?
    ensures k <= |s| && ReadsTo(d, s, webSafe, Scan(d, s, webSafe), k, e)
    decreases |s|
  {
    hide Scan, Finish, Pads, ReadsTo, Stands, IsWhite, IsPadding, Digit, CountPads, IsReading;
    ScanStep(d, s, webSafe);
    var r := Scan(d, s, webSafe);
    k, e := 0, [];
    if s == [] {
      ReadsNothing(d, webSafe, r, k, e);
      return;
    }
    ClassesAre(s[0], webSafe);
    if Digit(s[0], webSafe) >= 0 {
      var v: nat := Digit(s[0], webSafe);
      StandsIs(s[0], webSafe, v);
      k, e := ScanReads(d + [v], s[1..], webSafe);
      assert ([v] + e)[1..] == e;
      k, e := k + 1, [v] + e;
      ReadsDigit(d, s, webSafe, r, k, e);
    } else if IsWhite(s[0]) {
      k, e := ScanReads(d, s[1..], webSafe);
      k := k + 1;
      ReadsWhite(d, s, webSafe, r, k, e);
    } else {
      PadsAre(d, 0, s);
      ReadsFirst(d, s, webSafe, r, e);
    }
  }

  lemma {:induction false} ReadsScan(d: seq<nat>, s: seq<Byte>, webSafe: bool, r: Option<seq<Byte>>, k: nat,
                                     e: seq<nat>)
    requires NoZeroByte(s) && k <= |s| && ReadsTo(d, s, webSafe, r, k, e)
    ensures Scan(d, s, webSafe) == r
    decreases |s|
  {
    hide Scan, Finish, Pads, ReadsTo, Stands, IsWhite, IsPadding, Digit, CountPads, IsReading;
    ScanStep(d, s, webSafe);
    if s == [] {
      ReadsNothing(d, webSafe, r, k, e);
      return;
    }
    ClassesAre(s[0], webSafe);
    if k == 0 {
      ReadsFirst(d, s, webSafe, r, e);
      PadsAre(d, 0, s);
    } else if IsWhite(s[0]) {
      ReadsWhite(d, s, webSafe, r, k, e);
      ReadsScan(d, s[1..], webSafe, r, k - 1, e);
    } else {
      ReadsDigit(d, s, webSafe, r, k, e);
      StandsIs(s[0], webSafe, e[0]);
      ReadsScan(d + [e[0]], s[1..], webSafe, r, k - 1, e[1..]);
    }
  }

  lemma {:induction false} CarriedBelow(text: seq<Byte>, webSafe: bool, d: seq<nat>)
    requires Carries(text, webSafe, d)
    ensures Below(d, 64)
  {
    if text != [] {
      if IsWhite(text[0]) {
        CarriedBelow(text[1..], webSafe, d);
      } else {
        CarriedBelow(text[1..], webSafe, d[1..]);
        assert d == [d[0]] + d[1..];
      }
    }
  }

  lemma FinishIs(d: seq<nat>, pads: nat, out: seq<Byte>)
    requires Below(d, 64)
    ensures Finish(d, pads) == Some(out) <==> Unpacks(d, out) && (pads == 0 || pads == (4 - |d| % 4) % 4)
  {
    hide BigEndian, Bytes;
    if |d| % 4 != 1 {
      BytesUnpack(d);
      if Unpacks(d, out) {
        OneSpelling(Values(out), Values(Bytes(d)), 256);
        assert forall i :: 0 <= i < |out| ==> out[i] == Values(out)[i] == Bytes(d)[i];
        assert out == Bytes(d);
      }
    }
  }

  /** A text without zero bytes is decoded to the bytes that it denotes, and not at all when it
      denotes none. */
  lemma DecodeIs(s: seq<Byte>, webSafe: bool, out: seq<Byte>)
    requires NoZeroByte(s)
    ensures Scan([], s, webSafe) == Some(out) <==> exists k: nat, d :: Denotes(s, webSafe, out, k, d)
  {
    hide Scan, IsReading, Finish, Unpacks, CountPads;
    forall k: nat, d ensures Denotes(s, webSafe, out, k, d) <==> ReadsTo([], s, webSafe, Some(out), k, d) {
      assert [] + d == d;
      if IsReading(s, webSafe, k, d) {
        ReadingBelow(s, webSafe, k, d);
        FinishIs(d, CountPads(s[k..]), out);
      }
    }
    hide Denotes, ReadsTo;
    if Scan([], s, webSafe) == Some(out) {
      var k, d := ScanReads([], s, webSafe);
      assert Denotes(s, webSafe, out, k, d);
    }
    forall k: nat, d | Denotes(s, webSafe, out, k, d) ensures Scan([], s, webSafe) == Some(out) {
      DenotesInside(s, webSafe, out, k, d);
      ReadsScan([], s, webSafe, Some(out), k, d);
    }
  }

  lemma ReadingBelow(s: seq<Byte>, webSafe: bool, k: nat, d: seq<nat>)
    requires IsReading(s, webSafe, k, d)
    ensures k <= |s| && Below(d, 64)
  {
    CarriedBelow(s[..k], webSafe, d);
  }

  lemma DenotesInside(s: seq<Byte>, webSafe: bool, out: seq<Byte>, k: nat, d: seq<nat>)
    requires Denotes(s, webSafe, out, k, d)
    ensures k <= |s|
  {
  }
}
