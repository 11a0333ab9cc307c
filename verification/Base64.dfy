/** Base64 as in sections 3 and 4 of RFC 3548, with both alphabets. Characters are given by
    their codes. */
module Base64 {
  import opened Basics
  import opened Words

  const EQUALS: Byte := 61
  const DOT: Byte := 46

  predicate IsPad(c: Byte) {
    c == EQUALS || c == DOT
  }

  predicate IsSpace(c: Byte) {
    c == 32 || 9 <= c <= 13
  }

  /** `A`-`Z`, `a`-`z`, `0`-`9`, then `+/` or, in the web-safe alphabet, `-_`. */
  function Char(d: nat, webSafe: bool): Byte
    requires d < 64
  {
    if d < 26 then 65 + d
    else if d < 52 then 71 + d
    else if d < 62 then d - 4
    else if d == 62 then (if webSafe then 45 else 43)
    else (if webSafe then 95 else 47)
  }

  /** The decoding table, -1 for characters outside the alphabet. */
  function Digit(c: Byte, webSafe: bool): (d: int)
    ensures -1 <= d < 64
  {
    if 65 <= c < 91 then c - 65
    else if 97 <= c < 123 then c - 71
    else if 48 <= c < 58 then c + 4
    else if c == (if webSafe then 45 else 43) then 62
    else if c == (if webSafe then 95 else 47) then 63
    else -1
  }

  lemma CharDigit(d: nat, webSafe: bool)
    requires d < 64
    ensures Digit(Char(d, webSafe), webSafe) == d && Char(d, webSafe) != 0
  {
  }

  lemma Mod256(q: int, y: int)
    ensures (256 * q + y) % 256 == y % 256
  {
    Remainder(256 * q + y, 256, q + y / 256, y % 256);
  }

  // ---------- encoding ----------

  function CalculateBase64EscapedLen(n: nat, padding: bool): nat {
    n / 3 * 4 + if n % 3 == 0 then 0 else if n % 3 == 1 then (if padding then 4 else 2) else (if padding then 4 else 3)
  }

  /** The four digits of 24 bits. */
  function Digits(word: nat): (d: seq<nat>)
    requires word < 0x100_0000
    ensures |d| == 4 && forall i :: 0 <= i < 4 ==> d[i] < 64
  {
    [word / 0x4_0000, word % 0x4_0000 / 0x1000, word % 0x1000 / 0x40, word % 0x40]
  }

  function Word(a: Byte, b: Byte, c: Byte): (w: nat)
    ensures w < 0x100_0000
  {
    a * 0x1_0000 + b * 0x100 + c
  }

  function Chars(d: seq<nat>, webSafe: bool): (s: seq<Byte>)
    requires forall i :: 0 <= i < |d| ==> d[i] < 64
    ensures |s| == |d| && forall i :: 0 <= i < |d| ==> s[i] == Char(d[i], webSafe)
  {
    seq(|d|, i requires 0 <= i < |d| => Char(d[i], webSafe))
  }

  /** The characters of the last one or two bytes: missing bits are zero. */
  function Tail(src: seq<Byte>, webSafe: bool, padding: bool): seq<Byte>
    requires |src| < 3
  {
    if |src| == 0 then []
    else if |src| == 1 then Chars(Digits(Word(src[0], 0, 0))[..2], webSafe) + if padding then [EQUALS, EQUALS] else []
    else Chars(Digits(Word(src[0], src[1], 0))[..3], webSafe) + if padding then [EQUALS] else []
  }

  function Encode(src: seq<Byte>, webSafe: bool, padding: bool): seq<Byte> {
    if |src| < 3 then Tail(src, webSafe, padding)
    else Chars(Digits(Word(src[0], src[1], src[2])), webSafe) + Encode(src[3..], webSafe, padding)
  }

  lemma LengthStep(n: nat, padding: bool)
    requires n >= 3
    ensures CalculateBase64EscapedLen(n, padding) == 4 + CalculateBase64EscapedLen(n - 3, padding)
  {
    assert n / 3 == (n - 3) / 3 + 1 && n % 3 == (n - 3) % 3;
  }

  lemma {:induction false} EncodeLength(src: seq<Byte>, webSafe: bool, padding: bool)
    ensures |Encode(src, webSafe, padding)| == CalculateBase64EscapedLen(|src|, padding)
  {
    hide Digits, Word, Char;
    if |src| >= 3 {
      EncodeLength(src[3..], webSafe, padding);
      LengthStep(|src|, padding);
      hide CalculateBase64EscapedLen;
    }
  }

  // ---------- decoding, one character at a time ----------

  function Three(word: nat): (r: seq<Byte>)
    ensures |r| == 3
  {
    [word / 0x1_0000 % 256, word / 0x100 % 256, word % 256]
  }

  function Bits(d: seq<nat>): nat {
    if d == [] then 0 else Bits(d[..|d| - 1]) * 64 + d[|d| - 1]
  }

  /** What digits stand for: three bytes for four of them, and the whole bytes of the rest. */
  function Bytes(d: seq<nat>): seq<Byte> {
    if |d| < 2 then []
    else if |d| == 2 then [Bits(d) / 16 % 256]
    else if |d| == 3 then [Bits(d) / 1024 % 256, Bits(d) / 4 % 256]
    else Three(Bits(d[..4])) + Bytes(d[4..])
  }

  function Expected(d: seq<nat>): nat {
    if |d| % 4 == 2 then 2 else if |d| % 4 == 3 then 1 else 0
  }

  function Finish(d: seq<nat>, equals: nat): Option<seq<Byte>> {
    if |d| % 4 != 1 && (equals == 0 || equals == Expected(d)) then Some(Bytes(d)) else None
  }

  /** Padding and white space only, up to a zero byte. */
  function Pads(d: seq<nat>, equals: nat, s: seq<Byte>): Option<seq<Byte>>
    decreases |s|
  {
    if s == [] || s[0] == 0 then Finish(d, equals)
    else if IsPad(s[0]) then Pads(d, equals + 1, s[1..])
    else if IsSpace(s[0]) then Pads(d, equals, s[1..])
    else None
  }

  /** Digits and white space up to the padding. */
  function Scan(d: seq<nat>, s: seq<Byte>, webSafe: bool): Option<seq<Byte>>
    decreases |s|
  {
    if s == [] then Finish(d, 0)
    else if Digit(s[0], webSafe) >= 0 then Scan(d + [Digit(s[0], webSafe)], s[1..], webSafe)
    else if IsSpace(s[0]) then Scan(d, s[1..], webSafe)
    else if IsPad(s[0]) then Pads(d, 0, s)
    else None
  }

  /** The same with zero bytes. The loop over groups goes on while there may be a whole group
      left; it steps over a zero byte and leaves the rest to the slow loop, which takes one
      for the end of the digits. */
  function Read(d: seq<nat>, s: seq<Byte>, groups: bool, webSafe: bool): Option<seq<Byte>>
    decreases |s|, groups
  {
    if s == [] then Finish(d, 0)
    else if groups && |s| < 4 - |d| % 4 then Read(d, s, false, webSafe)
    else if Digit(s[0], webSafe) >= 0 then Read(d + [Digit(s[0], webSafe)], s[1..], groups, webSafe)
    else if IsSpace(s[0]) then Read(d, s[1..], groups, webSafe)
    else if s[0] == 0 then if groups then Read(d, s[1..], false, webSafe) else Pads(d, 0, s[1..])
    else if IsPad(s[0]) then Pads(d, 0, s)
    else None
  }

  // ---------- the round trip ----------

  lemma {:induction false} BytesAppend(d: seq<nat>, e: seq<nat>)
    requires |d| % 4 == 0
    ensures Bytes(d + e) == Bytes(d) + Bytes(e)
  {
    if d == [] {
      assert d + e == e;
    } else {
      assert (d + e)[..4] == d[..4] && (d + e)[4..] == d[4..] + e;
      BytesAppend(d[4..], e);
    }
  }

  lemma BitsFour(d: seq<nat>)
    requires |d| == 4
    ensures Bits(d) == ((d[0] * 64 + d[1]) * 64 + d[2]) * 64 + d[3]
  {
    assert d[..3][..2] == d[..2] && d[..2][..1] == d[..1] && d[..1][..0] == [];
    assert Bits(d[..1]) == d[0];
    assert Bits(d[..2]) == d[0] * 64 + d[1];
    assert Bits(d[..3]) == (d[0] * 64 + d[1]) * 64 + d[2];
  }

  lemma DigitsBits(word: nat)
    requires word < 0x100_0000
    ensures Bits(Digits(word)) == word
  {
    BitsFour(Digits(word));
    hide Bits;
    var d0, r1 := word / 0x4_0000, word % 0x4_0000;
    var d1, r2 := r1 / 0x1000, r1 % 0x1000;
    Remainder(word, 0x1000, 64 * d0 + d1, r2);
    Remainder(word, 0x40, 0x1000 * d0 + 0x40 * d1 + r2 / 0x40, r2 % 0x40);
  }

  lemma ThreeWord(a: Byte, b: Byte, c: Byte)
    ensures Three(Word(a, b, c)) == [a, b, c]
  {
    var w := Word(a, b, c);
    assert w / 0x100 == a * 256 + b && w % 256 == c;
    assert w / 0x1_0000 == a;
    assert (a * 256 + b) % 256 == b;
  }

  lemma {:induction false} ScanDigits(d: seq<nat>, e: seq<nat>, tail: seq<Byte>, webSafe: bool)
    requires forall i :: 0 <= i < |e| ==> e[i] < 64
    ensures Scan(d, Chars(e, webSafe) + tail, webSafe) == Scan(d + e, tail, webSafe)
    decreases |e|
  {
    if e == [] {
      assert Chars(e, webSafe) + tail == tail && d + e == d;
    } else {
      var s := Chars(e, webSafe) + tail;
      CharDigit(e[0], webSafe);
      assert s[1..] == Chars(e[1..], webSafe) + tail;
      ScanDigits(d + [e[0]], e[1..], tail, webSafe);
      assert d + [e[0]] + e[1..] == d + e;
    }
  }

  /** The tail of an encoding is read back as the bytes it stands for. */
  lemma ScanTail(d: seq<nat>, src: seq<Byte>, webSafe: bool, padding: bool)
    requires |d| % 4 == 0 && |src| < 3
    ensures Scan(d, Tail(src, webSafe, padding), webSafe) == Some(Bytes(d) + src)
  {
    hide Digits, Word, Chars, Bytes;
    if |src| == 0 {
      assert Finish(d, 0) == Some(Bytes(d));
      assert Bytes(d) + src == Bytes(d);
    } else if |src| == 1 {
      hide Scan;
      ScanTailOne(d, src[0], webSafe, if padding then [EQUALS, EQUALS] else []);
      assert src == [src[0]];
    } else {
      hide Scan;
      ScanTailTwo(d, src[0], src[1], webSafe, if padding then [EQUALS] else []);
      assert src == [src[0], src[1]];
    }
  }

  lemma ScanTailOne(d: seq<nat>, a: Byte, webSafe: bool, pad: seq<Byte>)
    requires |d| % 4 == 0 && (pad == [] || pad == [EQUALS, EQUALS])
    ensures Scan(d, Chars(Digits(Word(a, 0, 0))[..2], webSafe) + pad, webSafe) == Some(Bytes(d) + [a])
  {
    hide Digits, Word, Chars, Bytes, Scan;
    var e := Digits(Word(a, 0, 0))[..2];
    ScanDigits(d, e, pad, webSafe);
    ScanPads(d + e, pad, webSafe);
    BytesAppend(d, e);
    TailOne(a);
  }

  lemma ScanTailTwo(d: seq<nat>, a: Byte, b: Byte, webSafe: bool, pad: seq<Byte>)
    requires |d| % 4 == 0 && (pad == [] || pad == [EQUALS])
    ensures Scan(d, Chars(Digits(Word(a, b, 0))[..3], webSafe) + pad, webSafe) == Some(Bytes(d) + [a, b])
  {
    hide Digits, Word, Chars, Bytes, Scan;
    var e := Digits(Word(a, b, 0))[..3];
    ScanDigits(d, e, pad, webSafe);
    ScanPads(d + e, pad, webSafe);
    BytesAppend(d, e);
    TailTwo(a, b);
  }

  lemma ScanPads(d: seq<nat>, pad: seq<Byte>, webSafe: bool)
    requires |d| % 4 != 1 && (pad == [] || (|pad| == Expected(d) && forall i :: 0 <= i < |pad| ==> pad[i] == EQUALS))
    ensures Scan(d, pad, webSafe) == Some(Bytes(d))
  {
    hide Bytes;
    if |pad| == 1 {
      assert Pads(d, 0, pad) == Pads(d, 1, pad[1..]);
    } else if |pad| == 2 {
      assert Pads(d, 0, pad) == Pads(d, 1, pad[1..]);
      assert Pads(d, 1, pad[1..]) == Pads(d, 2, pad[1..][1..]);
    }
  }

  lemma BitsOfDigits(w: nat)
    requires w < 0x100_0000
    ensures Bits(Digits(w)[..2]) == w / 0x1000 && Bits(Digits(w)[..3]) == w / 0x40
  {
    var d := Digits(w);
    assert d[..3][..2] == d[..2] && d[..2][..1] == d[..1] && d[..1][..0] == [];
    assert Bits(d[..1]) == d[0];
    assert Bits(d[..2]) == d[0] * 64 + d[1];
    assert Bits(d[..3]) == (d[0] * 64 + d[1]) * 64 + d[2];
  }

  lemma WordOne(a: Byte)
    ensures Word(a, 0, 0) / 0x1000 == 16 * a && 16 * a / 16 % 256 == a
  {
    var x: int := a;
    assert Word(a, 0, 0) == 0x1_0000 * x;
  }

  lemma TailOne(a: Byte)
    ensures Bytes(Digits(Word(a, 0, 0))[..2]) == [a]
  {
    BitsOfDigits(Word(a, 0, 0));
    WordOne(a);
    hide Digits, Bits, Word;
  }

  lemma WordTwo(a: Byte, b: Byte)
    ensures var x := Word(a, b, 0) / 0x40; x / 1024 % 256 == a && x / 4 % 256 == b
  {
    var w, high: int, low: int := Word(a, b, 0), a, b;
    Remainder(w, 0x40, high * 1024 + low * 4, 0);
    Remainder(high * 1024 + low * 4, 1024, high, low * 4);
    Remainder(high * 1024 + low * 4, 4, high * 256 + low, 0);
    Remainder(high * 256 + low, 256, high, low);
  }

  lemma TailTwo(a: Byte, b: Byte)
    ensures Bytes(Digits(Word(a, b, 0))[..3]) == [a, b]
  {
    BitsOfDigits(Word(a, b, 0));
    WordTwo(a, b);
    hide Digits, Bits, Word;
  }

  lemma {:induction false} ScanEncoded(d: seq<nat>, src: seq<Byte>, webSafe: bool, padding: bool)
    requires |d| % 4 == 0
    ensures Scan(d, Encode(src, webSafe, padding), webSafe) == Some(Bytes(d) + src)
    decreases |src|
  {
    hide Scan, Digits, Word, Bits, Three, Tail;
    if |src| < 3 {
      ScanTail(d, src, webSafe, padding);
    } else {
      var word := Word(src[0], src[1], src[2]);
      var e := Digits(word);
      ScanDigits(d, e, Encode(src[3..], webSafe, padding), webSafe);
      ScanEncoded(d + e, src[3..], webSafe, padding);
      BytesAppend(d, e);
      DigitsBits(word);
      ThreeWord(src[0], src[1], src[2]);
      assert e[..4] == e;
      assert Bytes(e) == [src[0], src[1], src[2]];
      assert src == [src[0], src[1], src[2]] + src[3..];
      assert Bytes(d) + src == Bytes(d + e) + src[3..];
    }
  }

  /** Decoding undoes encoding, padded or not, in either alphabet. */
  lemma RoundTrip(src: seq<Byte>, webSafe: bool, padding: bool)
    ensures Scan([], Encode(src, webSafe, padding), webSafe) == Some(src)
  {
    ScanEncoded([], src, webSafe, padding);
    assert Bytes([]) + src == src;
  }

  // ---------- the encoder ----------

  lemma LengthRatio(n: nat, padding: bool)
    ensures 3 * CalculateBase64EscapedLen(n, padding) >= 4 * n
  {
  }

  lemma DigitsOne(a: Byte)
    ensures Digits(Word(a, 0, 0))[..2] == [a / 4, a % 4 * 16]
  {
    var w, x: int := Word(a, 0, 0), a;
    assert w == 0x1_0000 * x;
    Remainder(w, 0x4_0000, x / 4, x % 4 * 0x1_0000);
    Remainder(x % 4 * 0x1_0000, 0x1000, x % 4 * 16, 0);
  }

  lemma DigitsTwo(a: Byte, b: Byte)
    ensures var x := a * 256 + b; Digits(Word(a, b, 0))[..3] == [x / 1024, x % 1024 / 16, x % 16 * 4]
  {
    var w, x: int := Word(a, b, 0), a * 256 + b;
    assert w == 0x100 * x;
    Remainder(w, 0x4_0000, x / 1024, x % 1024 * 0x100);
    Remainder(w, 0x1000, x / 16, x % 16 * 0x100);
    var y := x % 1024;
    Remainder(y * 0x100, 0x1000, y / 16, y % 16 * 0x100);
    Remainder(x % 16 * 0x100, 0x40, x % 16 * 4, 0);
  }

  /** Fails, with an empty result, exactly when the buffer is too small for the encoding. */
  method Base64EscapeInternal(src: seq<Byte>, szdest: nat, webSafe: bool, padding: bool) returns (r: seq<Byte>)
    ensures r == if CalculateBase64EscapedLen(|src|, padding) <= szdest then Encode(src, webSafe, padding) else []
  {
    hide Digits, Word, Chars, Encode, CalculateBase64EscapedLen;
    EncodeLength(src, webSafe, padding);
    if |src| == 0 {
      EncodeNothing(webSafe, padding);
      return [];
    }
    LengthRatio(|src|, padding);
    if |src| * 4 > szdest * 3 {
      return [];
    }
    r := [];
    var i := 0;
    assert src[0..] == src;
    while i < |src| - 3
      invariant i < |src| && r + Encode(src[i..], webSafe, padding) == Encode(src, webSafe, padding)
    {
      EncodeGroup(src, i, r, webSafe, padding);
      r := r + Chars(Digits(Word(src[i], src[i + 1], src[i + 2])), webSafe);
      i := i + 3;
    }
    var last := EncodeLast(src[i..], szdest - |r|, webSafe, padding);
    if last.None? {
      return [];
    }
    r := r + last.value;
  }

  lemma EncodeNothing(webSafe: bool, padding: bool)
    ensures Encode([], webSafe, padding) == []
  {
  }

  lemma EncodeGroup(src: seq<Byte>, i: nat, r: seq<Byte>, webSafe: bool, padding: bool)
    requires i + 3 <= |src|
    ensures r + Chars(Digits(Word(src[i], src[i + 1], src[i + 2])), webSafe) + Encode(src[i + 3..], webSafe, padding)
         == r + Encode(src[i..], webSafe, padding)
  {
    hide Digits, Word, Chars;
    assert src[i..][3..] == src[i + 3..];
  }

  /** The last one to three bytes. */
  method EncodeLast(src: seq<Byte>, room: int, webSafe: bool, padding: bool) returns (r: Option<seq<Byte>>)
    requires 1 <= |src| <= 3
    ensures r == if |Encode(src, webSafe, padding)| <= room then Some(Encode(src, webSafe, padding)) else None
  {
    hide Digits, Word, Char;
    if |src| == 1 {
      if room < 2 {
        return None;
      }
      var a := src[0];
      DigitsOne(a);
      var out := Chars([a / 4, a % 4 * 16], webSafe);
      if padding {
        if room < 4 {
          return None;
        }
        out := out + [EQUALS, EQUALS];
      }
      assert Tail(src, webSafe, padding) == out;
      return Some(out);
    } else if |src| == 2 {
      if room < 3 {
        return None;
      }
      DigitsTwo(src[0], src[1]);
      var high: int, low: int := src[0], src[1];
      var x := high * 256 + low;
      assert Digits(Word(src[0], src[1], 0))[..3] == [x / 1024, x % 1024 / 16, x % 16 * 4];
      var out := Chars([x / 1024, x % 1024 / 16, x % 16 * 4], webSafe);
      if padding {
        if room < 4 {
          return None;
        }
        out := out + [EQUALS];
      }
      assert Tail(src, webSafe, padding) == out;
      return Some(out);
    } else {
      if room < 4 {
        return None;
      }
      var out := Chars(Digits(Word(src[0], src[1], src[2])), webSafe);
      assert Encode(src, webSafe, padding) == out + [];
      assert out + [] == out;
      return Some(out);
    }
  }

  /** The predicted length is the length of the result. */
  method Base64Escape(src: seq<Byte>, webSafe: bool, padding: bool) returns (r: seq<Byte>)
    ensures r == Encode(src, webSafe, padding) && |r| == CalculateBase64EscapedLen(|src|, padding)
  {
    EncodeLength(src, webSafe, padding);
    r := Base64EscapeInternal(src, CalculateBase64EscapedLen(|src|, padding), webSafe, padding);
  }

  // ---------- the decoder ----------

  /** What fits into the given room. */
  function Fit(r: Option<seq<Byte>>, room: nat): Option<seq<Byte>> {
    if r.Some? && |r.value| <= room then r else None
  }

  ghost predicate NoZeroByte(s: seq<Byte>) {
    forall k :: 0 <= k < |s| ==> s[k] != 0
  }

  /** Without zero bytes it makes no difference which loop reads what. */
  lemma {:induction false} ReadIsScan(d: seq<nat>, s: seq<Byte>, groups: bool, webSafe: bool)
    requires NoZeroByte(s)
    ensures Read(d, s, groups, webSafe) == Scan(d, s, webSafe)
    decreases |s|, groups
  {
    hide Digit, Finish, Pads;
    if s != [] {
      if groups && |s| < 4 - |d| % 4 {
        ReadIsScan(d, s, false, webSafe);
      } else if Digit(s[0], webSafe) >= 0 {
        ReadIsScan(d + [Digit(s[0], webSafe)], s[1..], groups, webSafe);
      } else if IsSpace(s[0]) {
        ReadIsScan(d, s[1..], groups, webSafe);
      }
    }
  }

  /** Digits and white space only. */
  ghost predicate IsText(s: seq<Byte>, webSafe: bool) {
    forall k :: 0 <= k < |s| ==> Digit(s[k], webSafe) >= 0 || IsSpace(s[k])
  }

  function DigitsIn(s: seq<Byte>, webSafe: bool): (r: seq<nat>)
    ensures |r| <= |s|
  {
    if s == [] then []
    else if Digit(s[0], webSafe) >= 0 then [Digit(s[0], webSafe)] + DigitsIn(s[1..], webSafe)
    else DigitsIn(s[1..], webSafe)
  }

  /** A zero byte behind digits and white space is ignored if the group it is met in could
      still be completed, and ends the digits otherwise. */
  lemma {:induction false} ZeroByte(d: seq<nat>, a: seq<Byte>, b: seq<Byte>, groups: bool, webSafe: bool)
    requires IsText(a, webSafe) && NoZeroByte(b)
    ensures var e := d + DigitsIn(a, webSafe);
      Read(d, a + [0] + b, groups, webSafe) ==
      if groups && |b| + 1 >= 4 - |e| % 4 then Scan(d, a + b, webSafe) else Pads(e, 0, b)
    decreases |a|, groups
  {
    hide *;
    var s := a + [0] + b;
    if a == [] {
      assert s == [0] + b && a + b == b;
      ZeroByteFirst(d, b, groups, webSafe);
      assert d + DigitsIn(a, webSafe) == d by {
        NoDigitsIn(a, webSafe);
      }
    } else if groups && |s| < 4 - |d| % 4 {
      ZeroByte(d, a, b, false, webSafe);
      ReadSlowly(d, s, webSafe);
      TooShort(|d|, |a|, |b|, |DigitsIn(a, webSafe)|);
    } else {
      TextFirst(a, webSafe);
      assert s[1..] == a[1..] + [0] + b && s[0..] == s;
      assert (a + b)[1..] == a[1..] + b;
      ReadOne(d, s, 0, groups, webSafe);
      ScanText(d, a + b, webSafe);
      if Digit(a[0], webSafe) >= 0 {
        var x := Digit(a[0], webSafe);
        assert d + [x] + DigitsIn(a[1..], webSafe) == d + DigitsIn(a, webSafe);
        ZeroByte(d + [x], a[1..], b, groups, webSafe);
      } else {
        ZeroByte(d, a[1..], b, groups, webSafe);
      }
    }
  }

  /** "QUJD" with a zero byte in the middle is read as if that were not there. */
  lemma ZeroByteIsIgnored(webSafe: bool)
    ensures Read([], [81, 85, 0, 74, 68], true, webSafe) == Scan([], [81, 85, 74, 68], webSafe) == Some([65, 66, 67])
  {
    var a, b: seq<Byte> := [81, 85], [74, 68];
    assert a + [0] + b == [81, 85, 0, 74, 68] && a + b == [81, 85, 74, 68];
    TwoDigits(webSafe);
    FourDigits(webSafe);
    hide *;
    assert [] + DigitsIn(a, webSafe) == DigitsIn(a, webSafe);
    ZeroByte([], a, b, true, webSafe);
  }

  lemma TwoDigits(webSafe: bool)
    ensures IsText([81, 85], webSafe) && NoZeroByte([74, 68]) && |DigitsIn([81, 85], webSafe)| == 2
  {
    assert [81, 85][1..] == [85] && [85][1..] == [];
    assert |DigitsIn([85], webSafe)| == 1;
  }

  lemma FourDigits(webSafe: bool)
    ensures Scan([], [81, 85, 74, 68], webSafe) == Some([65, 66, 67])
  {
    EncodesAbc(webSafe);
    RoundTrip([65, 66, 67], webSafe, true);
    hide Encode, Scan;
  }

  lemma EncodesAbc(webSafe: bool)
    ensures Encode([65, 66, 67], webSafe, true) == [81, 85, 74, 68]
  {
    hide *;
    var src, none, r: seq<Byte> := [65, 66, 67], [], [81, 85, 74, 68];
    AbcChars(webSafe);
    EncodeNothing(webSafe, true);
    EncodeGroup(src, 0, none, webSafe, true);
    assert src[3..] == none && src[0..] == src && none + r + none == r;
    assert none + Encode(src, webSafe, true) == Encode(src, webSafe, true);
  }

  lemma AbcDigits()
    ensures Digits(Word(65, 66, 67)) == [16, 20, 9, 3]
  {
    assert Word(65, 66, 67) == 4276803;
  }

  lemma AbcChars(webSafe: bool)
    ensures Chars(Digits(Word(65, 66, 67)), webSafe) == [81, 85, 74, 68]
  {
    hide *;
    AbcDigits();
    CharIs(16, webSafe);
    CharIs(20, webSafe);
    CharIs(9, webSafe);
    CharIs(3, webSafe);
  }

  lemma CharIs(d: nat, webSafe: bool)
    requires d < 26
    ensures Char(d, webSafe) == 65 + d
  {
  }

  lemma ZeroByteFirst(d: seq<nat>, b: seq<Byte>, groups: bool, webSafe: bool)
    requires NoZeroByte(b)
    ensures Read(d, [0] + b, groups, webSafe) ==
      if groups && |b| + 1 >= 4 - |d| % 4 then Scan(d, b, webSafe) else Pads(d, 0, b)
  {
    hide Finish, Pads, Scan;
    ZeroIsNoDigit(webSafe);
    hide Digit;
    assert ([0] + b)[1..] == b;
    ReadIsScan(d, b, false, webSafe);
  }

  lemma NoDigitsIn(a: seq<Byte>, webSafe: bool)
    requires a == []
    ensures DigitsIn(a, webSafe) == []
  {
  }

  /** With too little left for a group there is too little left after any part of it. */
  lemma TooShort(d: nat, a: nat, b: nat, digits: nat)
    requires a + 1 + b < 4 - d % 4 && digits <= a
    ensures b + 1 < 4 - (d + digits) % 4
  {
    Remainder(d + digits, 4, d / 4, d % 4 + digits);
  }

  lemma TextFirst(a: seq<Byte>, webSafe: bool)
    requires a != [] && IsText(a, webSafe)
    ensures (Digit(a[0], webSafe) >= 0 || IsSpace(a[0])) && IsText(a[1..], webSafe)
    ensures Digit(a[0], webSafe) >= 0 ==> DigitsIn(a, webSafe) == [Digit(a[0], webSafe)] + DigitsIn(a[1..], webSafe)
    ensures Digit(a[0], webSafe) < 0 ==> DigitsIn(a, webSafe) == DigitsIn(a[1..], webSafe)
  {
    hide Digit;
  }

  lemma ScanText(d: seq<nat>, s: seq<Byte>, webSafe: bool)
    requires s != [] && (Digit(s[0], webSafe) >= 0 || IsSpace(s[0]))
    ensures Digit(s[0], webSafe) >= 0 ==> Scan(d, s, webSafe) == Scan(d + [Digit(s[0], webSafe)], s[1..], webSafe)
    ensures Digit(s[0], webSafe) < 0 ==> Scan(d, s, webSafe) == Scan(d, s[1..], webSafe)
  {
    hide Digit;
  }

  lemma ZeroIsNoDigit(webSafe: bool)
    ensures Digit(0, webSafe) < 0
  {
  }

  lemma ReadOne(d: seq<nat>, s: seq<Byte>, i: nat, groups: bool, webSafe: bool)
    requires i < |s| && (groups ==> |s| - i >= 4 - |d| % 4)
    ensures var r := Read(d, s[i..], groups, webSafe);
      if Digit(s[i], webSafe) >= 0 then r == Read(d + [Digit(s[i], webSafe)], s[i + 1..], groups, webSafe)
      else if IsSpace(s[i]) then r == Read(d, s[i + 1..], groups, webSafe)
      else if s[i] == 0 then r == if groups then Read(d, s[i + 1..], false, webSafe) else Pads(d, 0, s[i + 1..])
      else r == if IsPad(s[i]) then Pads(d, 0, s[i..]) else None
  {
    hide Digit, Pads;
    assert s[i..][1..] == s[i + 1..];
  }

  lemma ReadSlowly(d: seq<nat>, s: seq<Byte>, webSafe: bool)
    requires |s| < 4 - |d| % 4
    ensures Read(d, s, true, webSafe) == Read(d, s, false, webSafe)
  {
  }

  /** Skips white space, as long as at least `remain` characters are left. */
  method GetInput(s: seq<Byte>, i: nat, remain: nat, webSafe: bool, ghost d: seq<nat>)
    returns (i': nat, ch: Byte, decode: int)
    requires 1 <= remain <= |s| - i && remain == 4 - |d| % 4
    ensures i < i' <= |s| && ch == s[i' - 1] && decode == Digit(ch, webSafe) && |s| - i' >= remain - 1
    ensures decode < 0 && IsSpace(ch) ==> |s| - i' < remain
    ensures Read(d, s[i..], true, webSafe) == Read(d, s[i' - 1..], true, webSafe)
  {
    hide Read, Digit;
    i', ch := i + 1, s[i];
    while Digit(ch, webSafe) < 0 && IsSpace(ch) && |s| - i' >= remain
      invariant i < i' <= |s| && ch == s[i' - 1] && |s| - i' >= remain - 1
      invariant Read(d, s[i..], true, webSafe) == Read(d, s[i' - 1..], true, webSafe)
    {
      ReadOne(d, s, i' - 1, true, webSafe);
      i', ch := i' + 1, s[i'];
    }
    decode := Digit(ch, webSafe);
  }

  function Power(state: nat): nat
    requires state < 4
  {
    if state == 0 then 1 else if state == 1 then 64 else if state == 2 then 0x1000 else 0x4_0000
  }

  /** The lowest bits of `temp` are those of the digits. */
  ghost predicate Holds(temp: nat, e: seq<nat>) {
    && |e| < 4 && temp % Power(|e|) == Bits(e) && forall i :: 0 <= i < |e| ==> e[i] < 64
  }

  /** Shifting in a 32-bit word moves the low bits up by six. */
  lemma Shifted(t: nat)
    ensures t * 64 % 0x1_0000_0000 % 64 == 0
    ensures t * 64 % 0x1_0000_0000 % 0x1000 == t % 64 * 64
    ensures t * 64 % 0x1_0000_0000 % 0x4_0000 == t % 0x1000 * 64
    ensures t * 64 % 0x1_0000_0000 % 0x100_0000 == t % 0x4_0000 * 64
  {
    var j := t * 64 / 0x1_0000_0000;
    var x := t * 64 % 0x1_0000_0000;
    Remainder(x, 64, t - 0x400_0000 * j, 0);
    Remainder(x, 0x1000, t / 64 - 0x10_0000 * j, t % 64 * 64);
    Remainder(x, 0x4_0000, t / 0x1000 - 0x4000 * j, t % 0x1000 * 64);
    Remainder(x, 0x100_0000, t / 0x4_0000 - 0x100 * j, t % 0x4_0000 * 64);
  }

  lemma LowMore(t: nat, n: nat, digit: nat)
    requires n < 3 && digit < 64
    ensures (t * 64 % 0x1_0000_0000 + digit) % Power(n + 1) == t % Power(n) * 64 + digit
  {
    Shifted(t);
    var x := t * 64 % 0x1_0000_0000;
    if n == 0 {
      Remainder(x + digit, 64, x / 64, digit);
    } else if n == 1 {
      Remainder(x + digit, 0x1000, x / 0x1000, t % 64 * 64 + digit);
    } else {
      Remainder(x + digit, 0x4_0000, x / 0x4_0000, t % 0x1000 * 64 + digit);
    }
  }

  lemma HoldsMore(temp: nat, e: seq<nat>, digit: nat)
    requires Holds(temp, e) && |e| < 3 && digit < 64
    ensures Holds(temp * 64 % 0x1_0000_0000 + digit, e + [digit])
  {
    assert (e + [digit])[..|e|] == e;
    assert Bits(e + [digit]) == Bits(e) * 64 + digit;
    LowMore(temp, |e|, digit);
    hide Power;
  }

  lemma HoldsFour(temp: nat, e: seq<nat>, digit: nat)
    requires Holds(temp, e) && |e| == 3 && digit < 64
    ensures Three(temp * 64 % 0x1_0000_0000 + digit) == Three(Bits(e + [digit]))
  {
    assert (e + [digit])[..3] == e;
    assert Bits(e + [digit]) == Bits(e) * 64 + digit;
    Shifted(temp);
    var x := temp * 64 % 0x1_0000_0000;
    Remainder(x + digit, 0x100_0000, x / 0x100_0000, temp % 0x4_0000 * 64 + digit);
    ThreeLow(temp * 64 % 0x1_0000_0000 + digit);
  }

  lemma ThreeLow(w: nat)
    ensures Three(w) == Three(w % 0x100_0000)
  {
    var q, r := w / 0x100_0000, w % 0x100_0000;
    Remainder(w, 0x1_0000, 256 * q + r / 0x1_0000, r % 0x1_0000);
    Remainder(w, 0x100, 0x1_0000 * q + r / 0x100, r % 0x100);
    Mod256(q, r / 0x1_0000);
    Mod256(256 * q, r / 0x100);
  }

  /** Reads one group with white space in it. It either gets four digits, or it stops at a
      character that is no digit after fewer of them, with `e` the digits it got. */
  method SlowGroup(s: seq<Byte>, i: nat, junk: nat, webSafe: bool, ghost d: seq<nat>)
    returns (full: bool, state: nat, temp: nat, i': nat, ch: Byte, ghost e: seq<nat>)
    requires |s| - i >= 4 && |d| % 4 == 0
    ensures i < i' <= |s| && ch == s[i' - 1] && (forall k :: 0 <= k < |e| ==> e[k] < 64)
    ensures full ==> |e| == 4 && Three(temp) == Three(Bits(e)) && Digit(ch, webSafe) >= 0
    ensures full ==> Read(d, s[i..], true, webSafe) == Read(d + e, s[i'..], true, webSafe)
    ensures !full ==> state == |e| < 4 && Holds(temp, e) && Digit(ch, webSafe) < 0
    ensures !full ==> |s| - i' >= 3 - |e| && (IsSpace(ch) ==> |s| - i' < 4 - |e|)
    ensures !full ==> Read(d, s[i..], true, webSafe) == Read(d + e, s[i' - 1..], true, webSafe)
  {
    hide Read, Bits, Power, Three, Digit;
    full, state, temp, i', ch, e := true, 0, junk, i, s[i], [];
    HoldsNothing(junk);
    assert d + e == d;
    while state < 4
      invariant i <= i' <= |s| && |s| - i' >= 4 - state && state == |e| <= 4
      invariant i < i' <==> state > 0
      invariant state > 0 ==> ch == s[i' - 1] && Digit(ch, webSafe) >= 0
      invariant forall k :: 0 <= k < |e| ==> e[k] < 64
      invariant if state < 4 then Holds(temp, e) else Three(temp) == Three(Bits(e))
      invariant Read(d, s[i..], true, webSafe) == Read(d + e, s[i'..], true, webSafe)
    {
      var decode;
      GroupPosition(|d|, state);
      i', ch, decode := GetInput(s, i', 4 - state, webSafe, d + e);
      if decode < 0 {
        full := false;
        return;
      }
      ReadOne(d + e, s, i' - 1, true, webSafe);
      if state == 0 {
        HoldsNothing(0);
        temp := 0;
      }
      if state < 3 {
        HoldsMore(temp, e, decode);
      } else {
        HoldsFour(temp, e, decode);
      }
      temp := temp * 64 % 0x1_0000_0000 + decode;
      assert d + e + [decode] == d + (e + [decode]);
      e, state := e + [decode], state + 1;
    }
  }

  lemma GroupPosition(whole: nat, state: nat)
    requires whole % 4 == 0 && state < 4
    ensures (whole + state) % 4 == state
  {
  }

  lemma HoldsNothing(junk: nat)
    ensures Holds(junk, [])
  {
  }

  /** Reading on after whole groups yields at least their bytes. */
  lemma {:induction false} ReadGrows(d: seq<nat>, e: seq<nat>, s: seq<Byte>, groups: bool, webSafe: bool)
    requires |d| % 4 == 0
    ensures var r := Read(d + e, s, groups, webSafe); r.Some? ==> |r.value| >= |Bytes(d)|
    decreases |s|, groups
  {
    hide Bytes, Digit;
    BytesAppend(d, e);
    if s != [] {
      PadsAnswer(d + e, 0, s);
      PadsAnswer(d + e, 0, s[1..]);
      hide Pads;
      if groups {
        ReadGrows(d, e, s, false, webSafe);
        ReadGrows(d, e, s[1..], false, webSafe);
      }
      if Digit(s[0], webSafe) >= 0 {
        assert d + e + [Digit(s[0], webSafe)] == d + (e + [Digit(s[0], webSafe)]);
        ReadGrows(d, e + [Digit(s[0], webSafe)], s[1..], groups, webSafe);
      } else {
        ReadGrows(d, e, s[1..], groups, webSafe);
      }
    }
  }

  lemma {:induction false} PadsAnswer(d: seq<nat>, equals: nat, s: seq<Byte>)
    ensures Pads(d, equals, s).Some? ==> Pads(d, equals, s).value == Bytes(d) && |d| % 4 != 1
    decreases |s|
  {
    hide Bytes;
    if s != [] {
      PadsAnswer(d, equals + 1, s[1..]);
      PadsAnswer(d, equals, s[1..]);
    }
  }

  lemma AddGroup(d: seq<nat>, e: seq<nat>, temp: nat, dest: seq<Byte>)
    requires |d| % 4 == 0 && |e| == 4 && Three(temp) == Three(Bits(e)) && dest == Bytes(d)
    ensures dest + Three(temp) == Bytes(d + e)
  {
    BytesAppend(d, e);
    assert e[..4] == e && e[4..] == [];
    assert Bytes(e) == Three(Bits(e)) + [];
  }

  /** The state between the two loops: `dest` holds the whole groups among the digits `d`,
      and `temp` the `state` digits after them. */
  ghost predicate Decoded(dest: seq<Byte>, state: nat, temp: nat, d: seq<nat>, room: nat) {
    && state < 4 && state <= |d| && (|d| - state) % 4 == 0
    && dest == Bytes(d[..|d| - state]) && Holds(temp, d[|d| - state..]) && |dest| <= room
  }

  lemma GroupsDecoded(dest: seq<Byte>, temp: nat, d: seq<nat>, e: seq<nat>, room: nat)
    requires |d| % 4 == 0 && dest == Bytes(d) && |dest| <= room && Holds(temp, e)
    ensures Decoded(dest, |e|, temp, d + e, room)
  {
    assert (d + e)[..|d|] == d && (d + e)[|d|..] == e;
  }

  /** The fast loop over groups of four. It ends with fewer than four characters left, at a
      character that is no digit (`stopped`), or without room. */
  method DecodeGroups(s: seq<Byte>, room: nat, webSafe: bool)
    returns (fits: bool, stopped: bool, dest: seq<Byte>, state: nat, temp: nat, i: nat, ch: Byte, ghost d: seq<nat>)
    ensures i <= |s|
    ensures !fits ==> Fit(Read([], s, true, webSafe), room) == None
    ensures fits ==> Decoded(dest, state, temp, d, room) && (IsPad(ch) ==> stopped)
    ensures fits && stopped ==> i > 0 && ch == s[i - 1] && Digit(ch, webSafe) < 0
    ensures fits && (!stopped || IsSpace(ch) || ch == 0) ==>
      Read([], s, true, webSafe) == Read(d, s[i..], false, webSafe)
    ensures fits && stopped && IsPad(ch) ==> Read([], s, true, webSafe) == Pads(d, 0, s[i - 1..])
    ensures fits && stopped && !IsSpace(ch) && ch != 0 && !IsPad(ch) ==> Read([], s, true, webSafe) == None
  {
    hide Read, Bytes, Bits, Three, Digit, Holds, Decoded;
    fits, stopped, dest, state, temp, i, ch, d := true, false, [], 0, 0, 0, 0, [];
    HoldsNothing(0);
    BytesOfNothing();
    assert s[0..] == s;
    while |s| - i >= 4
      invariant i <= |s| && state == 0 && |d| % 4 == 0 && dest == Bytes(d) && |dest| <= room && !IsPad(ch)
      invariant Read([], s, true, webSafe) == Read(d, s[i..], true, webSafe)
    {
      ghost var e;
      if Digit(s[i], webSafe) >= 0 && Digit(s[i + 1], webSafe) >= 0
         && Digit(s[i + 2], webSafe) >= 0 && Digit(s[i + 3], webSafe) >= 0 {
        temp, e := FastGroup(s, i, webSafe, d);
        i, ch := i + 4, 0;
      } else {
        var full;
        full, state, temp, i, ch, e := SlowGroup(s, i, temp, webSafe, d);
        if !full {
          GroupsDecoded(dest, temp, d, e, room);
          StoppedAt(s, i, d, e, webSafe);
          d := d + e;
          stopped := true;
          return;
        }
        DigitIsNoPad(ch, webSafe);
        state := 0;
      }
      AddGroup(d, e, temp, dest);
      dest, d := dest + Three(temp), d + e;
      if |dest| > room {
        ReadGrows(d, [], s[i..], true, webSafe);
        assert d + [] == d;
        fits := false;
        return;
      }
    }
    ReadSlowly(d, s[i..], webSafe);
    HoldsNothing(temp);
    GroupsDecoded(dest, temp, d, [], room);
    assert d + [] == d;
  }

  /** What is left to read when a group ends at a character that is no digit. */
  lemma StoppedAt(s: seq<Byte>, i: nat, d: seq<nat>, e: seq<nat>, webSafe: bool)
    requires 0 < i <= |s| && |d| % 4 == 0 && |e| < 4 && Digit(s[i - 1], webSafe) < 0 && |s| - i >= 3 - |e|
    requires IsSpace(s[i - 1]) ==> |s| - i < 4 - |e|
    ensures var r := Read(d + e, s[i - 1..], true, webSafe);
      if IsSpace(s[i - 1]) || s[i - 1] == 0 then r == Read(d + e, s[i..], false, webSafe)
      else r == if IsPad(s[i - 1]) then Pads(d + e, 0, s[i - 1..]) else None
  {
    hide Read, Pads, Digit;
    GroupPosition(|d|, |e|);
    ReadOne(d + e, s, i - 1, true, webSafe);
    if IsSpace(s[i - 1]) {
      ReadSlowly(d + e, s[i..], webSafe);
    }
  }

  lemma BytesOfNothing()
    ensures Bytes([]) == []
  {
  }

  lemma DigitIsNoPad(ch: Byte, webSafe: bool)
    requires Digit(ch, webSafe) >= 0
    ensures !IsPad(ch)
  {
  }

  /** Four digits at once. */
  method FastGroup(s: seq<Byte>, i: nat, webSafe: bool, ghost d: seq<nat>) returns (temp: nat, ghost e: seq<nat>)
    requires i + 4 <= |s| && |d| % 4 == 0
    requires Digit(s[i], webSafe) >= 0 && Digit(s[i + 1], webSafe) >= 0 && Digit(s[i + 2], webSafe) >= 0
    requires Digit(s[i + 3], webSafe) >= 0
    ensures |e| == 4 && Three(temp) == Three(Bits(e))
    ensures Read(d, s[i..], true, webSafe) == Read(d + e, s[i + 4..], true, webSafe)
  {
    hide Read, Bits, Three, Digit;
    var d0, d1 := Digit(s[i], webSafe), Digit(s[i + 1], webSafe);
    var d2, d3 := Digit(s[i + 2], webSafe), Digit(s[i + 3], webSafe);
    temp := d0 * 0x4_0000 + d1 * 0x1000 + d2 * 0x40 + d3;
    e := [d0, d1, d2, d3];
    BitsFour(e);
    ReadOne(d, s, i, true, webSafe);
    ReadOne(d + [d0], s, i + 1, true, webSafe);
    ReadOne(d + [d0] + [d1], s, i + 2, true, webSafe);
    ReadOne(d + [d0] + [d1] + [d2], s, i + 3, true, webSafe);
    assert d + [d0] + [d1] + [d2] + [d3] == d + e;
  }

  lemma DecodedMore(dest: seq<Byte>, state: nat, temp: nat, d: seq<nat>, room: nat, digit: nat)
    requires Decoded(dest, state, temp, d, room) && state < 3 && digit < 64
    ensures Decoded(dest, state + 1, temp * 64 % 0x1_0000_0000 + digit, d + [digit], room)
  {
    hide Holds, Bytes;
    var k := |d| - state;
    assert (d + [digit])[..k] == d[..k] && (d + [digit])[k..] == d[k..] + [digit];
    HoldsMore(temp, d[k..], digit);
  }

  lemma DecodedFour(dest: seq<Byte>, temp: nat, d: seq<nat>, room: nat, digit: nat)
    requires Decoded(dest, 3, temp, d, room) && digit < 64
    ensures |d + [digit]| % 4 == 0 && dest + Three(temp * 64 % 0x1_0000_0000 + digit) == Bytes(d + [digit])
  {
    hide Holds, Bytes, Three, Bits;
    var k := |d| - 3;
    assert d + [digit] == d[..k] + (d[k..] + [digit]);
    HoldsFour(temp, d[k..], digit);
    AddGroup(d[..k], d[k..] + [digit], temp * 64 % 0x1_0000_0000 + digit, dest);
  }

  /** The slow loop over what the fast one left: up to the padding, a zero byte or the end. */
  method DecodeRest(s: seq<Byte>, i: nat, room: nat, webSafe: bool, dest: seq<Byte>, state: nat, temp: nat,
                    ghost d: seq<nat>)
    returns (ok: bool, i': nat, dest': seq<Byte>, state': nat, temp': nat, ghost d': seq<nat>)
    requires i <= |s| && Decoded(dest, state, temp, d, room)
    ensures i' <= |s|
    ensures !ok ==> Fit(Read(d, s[i..], false, webSafe), room) == None
    ensures ok ==> Decoded(dest', state', temp', d', room)
    ensures ok ==> Read(d, s[i..], false, webSafe) == Pads(d', 0, s[i'..])
  {
    hide Read, Pads, Bytes, Bits, Three, Digit, Holds, Decoded;
    i', dest', state', temp', d' := i, dest, state, temp, d;
    while i' < |s|
      invariant i' <= |s| && Decoded(dest', state', temp', d', room)
      invariant Read(d, s[i..], false, webSafe) == Read(d', s[i'..], false, webSafe)
    {
      var ch := s[i'];
      var decode := Digit(ch, webSafe);
      ReadOne(d', s, i', false, webSafe);
      StateIsSmall(dest', state', temp', d', room);
      if decode < 0 {
        if IsSpace(ch) {
          i' := i' + 1;
          continue;
        } else if ch == 0 {
          i' := i' + 1;
          return true, i', dest', state', temp', d';
        } else if IsPad(ch) {
          return true, i', dest', state', temp', d';
        } else {
          return false, i', dest', state', temp', d';
        }
      }
      i' := i' + 1;
      if state' < 3 {
        DecodedMore(dest', state', temp', d', room, decode);
        temp', state', d' := temp' * 64 % 0x1_0000_0000 + decode, state' + 1, d' + [decode];
      } else {
        DecodedFour(dest', temp', d', room, decode);
        dest', d' := dest' + Three(temp' * 64 % 0x1_0000_0000 + decode), d' + [decode];
        if |dest'| > room {
          ReadGrows(d', [], s[i'..], false, webSafe);
          assert d' + [] == d';
          return false, i', dest', state', temp', d';
        }
        HoldsNothing(0);
        GroupsDecoded(dest', 0, d', [], room);
        assert d' + [] == d';
        state', temp' := 0, 0;
      }
    }
    ReadEnd(d', s[i'..], webSafe);
    ok := true;
  }

  lemma StateIsSmall(dest: seq<Byte>, state: nat, temp: nat, d: seq<nat>, room: nat)
    requires Decoded(dest, state, temp, d, room)
    ensures state < 4
  {
  }

  lemma ReadEnd(d: seq<nat>, s: seq<Byte>, webSafe: bool)
    requires s == []
    ensures Read(d, s, false, webSafe) == Pads(d, 0, s)
  {
  }

  lemma LowBits12(t: nat)
    ensures t / 16 % 256 == t % 0x1000 / 16 % 256
  {
    var q, r := t / 0x1000, t % 0x1000;
    Remainder(t, 16, 256 * q + r / 16, r % 16);
    Mod256(q, r / 16);
  }

  lemma LowBits18(t: nat)
    ensures t / 1024 % 256 == t % 0x4_0000 / 1024 % 256
    ensures t / 4 % 256 == t % 0x4_0000 / 4 % 256
  {
    var q, r := t / 0x4_0000, t % 0x4_0000;
    Remainder(t, 1024, 256 * q + r / 1024, r % 1024);
    Mod256(q, r / 1024);
    Remainder(t, 4, 0x1_0000 * q + r / 4, r % 4);
    Mod256(256 * q, r / 4);
  }

  /** The whole bytes of two or three digits at the low end of a word. */
  function LeftBytes(temp: nat, state: nat): seq<Byte> {
    if state == 2 then [temp / 16 % 256]
    else if state == 3 then [temp / 1024 % 256, temp / 4 % 256]
    else []
  }

  lemma BytesLeft(temp: nat, e: seq<nat>)
    requires Holds(temp, e)
    ensures Bytes(e) == LeftBytes(temp, |e|)
  {
    hide Bits;
    if |e| == 2 {
      LowBits12(temp);
    } else if |e| == 3 {
      LowBits18(temp);
    }
  }

  lemma Leftover(dest: seq<Byte>, state: nat, temp: nat, d: seq<nat>, room: nat)
    requires Decoded(dest, state, temp, d, room)
    ensures |d| % 4 == state && Bytes(d) == dest + LeftBytes(temp, state)
  {
    hide Bits, Bytes, Holds, LeftBytes;
    var k := |d| - state;
    Remainder(|d|, 4, k / 4, state);
    assert d == d[..k] + d[k..];
    BytesAppend(d[..k], d[k..]);
    BytesLeft(temp, d[k..]);
  }

  /** The decoder reads what there is to read, as far as it fits into the buffer. Without zero
      bytes that is reading one character at a time. */
  method Base64UnescapeInternal(s: seq<Byte>, room: nat, webSafe: bool) returns (r: Option<seq<Byte>>)
    ensures r == Fit(Read([], s, true, webSafe), room)
    ensures NoZeroByte(s) ==> r == Fit(Scan([], s, webSafe), room)
  {
    hide Scan, Read, Pads, Bytes, Bits, Three, Digit, Holds, Decoded, NoZeroByte;
    if NoZeroByte(s) {
      ReadIsScan([], s, true, webSafe);
    }
    var fits, stopped, dest, state, temp, i, ch, d := DecodeGroups(s, room, webSafe);
    if !fits {
      return None;
    }
    if stopped && ch != 0 && !IsPad(ch) && !IsSpace(ch) {
      return None;
    }
    PadIsNoSpace(ch);
    if IsPad(ch) {
      i := i - 1;
    } else {
      var ok;
      ok, i, dest, state, temp, d := DecodeRest(s, i, room, webSafe, dest, state, temp, d);
      if !ok {
        return None;
      }
    }
    r := DecodeTail(s, i, room, dest, state, temp, d);
  }

  lemma PadIsNoSpace(ch: Byte)
    ensures IsPad(ch) ==> !IsSpace(ch) && ch != 0
  {
  }

  /** The bytes of an incomplete group, and the right amount of padding. */
  method DecodeTail(s: seq<Byte>, i: nat, room: nat, dest: seq<Byte>, state: nat, temp: nat, ghost d: seq<nat>)
    returns (r: Option<seq<Byte>>)
    requires i <= |s| && Decoded(dest, state, temp, d, room)
    ensures r == Fit(Pads(d, 0, s[i..]), room)
  {
    hide Bytes, Bits, Three, Holds, Decoded, Pads;
    StateIsSmall(dest, state, temp, d, room);
    Leftover(dest, state, temp, d, room);
    PadsAnswer(d, 0, s[i..]);
    var out, expected := dest, 0;
    if state == 1 {
      return None;
    } else if state == 2 {
      if |dest| + 1 > room {
        return None;
      }
      out, expected := dest + LeftBytes(temp, 2), 2;
    } else if state == 3 {
      if |dest| + 2 > room {
        return None;
      }
      out, expected := dest + LeftBytes(temp, 3), 1;
    } else {
      RoomLeft(dest, state, temp, d, room);
      assert dest + LeftBytes(temp, 0) == dest;
    }
    var equals, ok := CountPads(s, i, d);
    if ok && (equals == 0 || equals == expected) {
      r := Some(out);
    } else {
      r := None;
    }
  }

  lemma RoomLeft(dest: seq<Byte>, state: nat, temp: nat, d: seq<nat>, room: nat)
    requires Decoded(dest, state, temp, d, room)
    ensures |dest| <= room
  {
  }

  method CountPads(s: seq<Byte>, i: nat, ghost d: seq<nat>) returns (equals: nat, ok: bool)
    requires i <= |s|
    ensures Pads(d, 0, s[i..]) == if ok then Finish(d, equals) else None
  {
    equals := 0;
    var j := i;
    while j < |s| && s[j] != 0
      invariant i <= j <= |s| && Pads(d, 0, s[i..]) == Pads(d, equals, s[j..])
    {
      assert s[j..][1..] == s[j + 1..];
      if IsPad(s[j]) {
        equals := equals + 1;
      } else if !IsSpace(s[j]) {
        return equals, false;
      }
      j := j + 1;
    }
    ok := true;
  }

  /** The buffer that the caller sizes from the input is always large enough. */
  method Base64Unescape(s: seq<Byte>, webSafe: bool) returns (r: Option<seq<Byte>>)
    ensures r == Read([], s, true, webSafe)
    ensures NoZeroByte(s) ==> r == Scan([], s, webSafe)
  {
    hide Read, Scan;
    r := Base64UnescapeInternal(s, 3 * (|s| / 4) + |s| % 4, webSafe);
    ReadRoom([], s, true, webSafe);
    if NoZeroByte(s) {
      ReadIsScan([], s, true, webSafe);
    }
  }

  lemma {:induction false} BytesLength(d: seq<nat>)
    ensures |Bytes(d)| <= 3 * (|d| / 4) + |d| % 4
  {
    hide Bits;
    if |d| >= 4 {
      BytesLength(d[4..]);
    }
  }

  lemma RoomGrows(m: nat, n: nat)
    requires m <= n
    ensures 3 * (m / 4) + m % 4 <= 3 * (n / 4) + n % 4
  {
  }

  lemma {:induction false} ReadRoom(d: seq<nat>, s: seq<Byte>, groups: bool, webSafe: bool)
    ensures var r := Read(d, s, groups, webSafe); r.Some? ==> |r.value| <= 3 * ((|d| + |s|) / 4) + (|d| + |s|) % 4
    decreases |s|, groups
  {
    hide Bytes, Digit;
    RoomGrows(|d|, |d| + |s|);
    BytesLength(d);
    if s != [] {
      PadsAnswer(d, 0, s);
      PadsAnswer(d, 0, s[1..]);
      hide Pads;
      RoomGrows(|d| + |s| - 1, |d| + |s|);
      if groups {
        ReadRoom(d, s, false, webSafe);
        ReadRoom(d, s[1..], false, webSafe);
      }
      if Digit(s[0], webSafe) >= 0 {
        ReadRoom(d + [Digit(s[0], webSafe)], s[1..], groups, webSafe);
      } else {
        ReadRoom(d, s[1..], groups, webSafe);
      }
    }
  }

  lemma EncodedHasNoZero(src: seq<Byte>, webSafe: bool, padding: bool)
    ensures NoZeroByte(Encode(src, webSafe, padding))
  {
    hide Digits, Word;
    if |src| >= 3 {
      EncodedHasNoZero(src[3..], webSafe, padding);
    }
  }

  /** Encoding and then decoding gives back the bytes. */
  method EncodeThenDecode(src: seq<Byte>, webSafe: bool, padding: bool) returns (r: Option<seq<Byte>>)
    ensures r == Some(src)
  {
    var encoded := Base64Escape(src, webSafe, padding);
    EncodedHasNoZero(src, webSafe, padding);
    RoundTrip(src, webSafe, padding);
    r := Base64Unescape(encoded, webSafe);
  }
}
