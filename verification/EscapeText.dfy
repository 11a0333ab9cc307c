/** What escaped text looks like, character by character, and what each escape stands for. */
module EscapeText {
  import opened Words
  import opened CEscape

  /** The codes of the characters. */
  function Text(s: string): (r: seq<Byte>)
    requires forall i :: 0 <= i < |s| ==> s[i] as int < 256
    ensures |r| == |s| && forall i :: 0 <= i < |s| ==> r[i] == s[i] as int
  {
    seq(|s|, i requires 0 <= i < |s| => s[i] as int)
  }

  const OCTAL_DIGITS: string := "01234567"
  const HEX_DIGITS: string := "0123456789abcdef"
  const UPPER_HEX_DIGITS: string := "0123456789ABCDEF"

  ghost predicate IsDigit(alphabet: string, c: Byte, v: nat) {
    v < |alphabet| && alphabet[v] as int == c
  }

  /** A hex digit in either case. */
  ghost predicate IsAnyHex(c: Byte, v: nat) {
    IsDigit(HEX_DIGITS, c, v) || IsDigit(UPPER_HEX_DIGITS, c, v)
  }

  lemma OctalDigitIs(c: Byte, v: nat)
    ensures IsDigit(OCTAL_DIGITS, c, v) <==> IsOctal(c) && v == OctalDigit(c)
    ensures IsDigit(OCTAL_DIGITS, c, v) <==> v < 8 && c == ZERO + v
  {
  }

  lemma HexDigitIs(c: Byte, v: nat)
    ensures IsDigit(HEX_DIGITS, c, v) <==> v < 16 && c == HexDigit(v)
  {
  }

  lemma UpperDigitIs(c: Byte, v: nat)
    ensures IsDigit(UPPER_HEX_DIGITS, c, v) <==> v < 16 && c == if v < 10 then 48 + v else 55 + v
  {
  }

  lemma AnyHexIs(c: Byte, v: nat)
    ensures IsAnyHex(c, v) <==> IsHex(c) && v == HexValue(c)
  {
    hide IsDigit;
    HexDigitIs(c, v);
    UpperDigitIs(c, v);
  }

  lemma NoHexIs(c: Byte)
    ensures IsHex(c) <==> exists v :: IsAnyHex(c, v)
  {
    hide IsAnyHex;
    forall v: nat ensures IsAnyHex(c, v) <==> IsHex(c) && v == HexValue(c) {
      AnyHexIs(c, v);
    }
    if IsHex(c) {
      assert IsAnyHex(c, HexValue(c));
    }
  }

  // ---------- escaping ----------

  /** Characters with an escape of their own, and that escape. */
  ghost predicate IsPair(b: Byte, out: seq<Byte>) {
    || (b == '\n' as int && out == Text("\\n"))
    || (b == '\r' as int && out == Text("\\r"))
    || (b == '\t' as int && out == Text("\\t"))
    || (b == '\"' as int && out == Text("\\\""))
    || (b == '\'' as int && out == Text("\\'"))
    || (b == '\\' as int && out == Text("\\\\"))
  }

  ghost predicate HasPair(b: Byte) {
    exists out :: IsPair(b, out)
  }

  /** Backslash, x and two hex digits with the value of the byte. */
  ghost predicate IsHexPiece(b: Byte, out: seq<Byte>) {
    && |out| == 4 && out[..2] == Text("\\x")
    && exists u: nat, v: nat :: IsDigit(HEX_DIGITS, out[2], u) && IsDigit(HEX_DIGITS, out[3], v) && b == 16 * u + v
  }

  /** Backslash and three octal digits with the value of the byte. */
  ghost predicate IsOctalPiece(b: Byte, out: seq<Byte>) {
    && |out| == 4 && out[..1] == Text("\\")
    && exists u: nat, v: nat, w: nat ::
      && IsDigit(OCTAL_DIGITS, out[1], u) && IsDigit(OCTAL_DIGITS, out[2], v) && IsDigit(OCTAL_DIGITS, out[3], w)
      && b == 64 * u + 8 * v + w
  }

  /** Characters that stand for themselves. Behind a hex escape a hex digit would be taken for
      a part of it; in the mode that is safe for UTF-8 bytes above the ASCII range are kept. */
  ghost predicate IsPlain(b: Byte, afterHex: bool, utf8Safe: bool) {
    || (utf8Safe && b >= 128)
    || (' ' as int <= b <= '~' as int && !(afterHex && exists v :: IsAnyHex(b, v)))
  }

  /** `out` is what byte `b` turns into. */
  ghost predicate IsPiece(b: Byte, afterHex: bool, useHex: bool, utf8Safe: bool, out: seq<Byte>) {
    if HasPair(b) then IsPair(b, out)
    else if IsPlain(b, afterHex, utf8Safe) then out == [b]
    else if useHex then IsHexPiece(b, out)
    else IsOctalPiece(b, out)
  }

  /** The piece is a hex escape. */
  ghost predicate EndsInHex(out: seq<Byte>) {
    |out| > 1 && out[..2] == Text("\\x")
  }

  ghost predicate PieceAt(src: seq<Byte>, useHex: bool, utf8Safe: bool, pieces: seq<seq<Byte>>, i: nat)
    requires i < |src| && i < |pieces|
  {
    IsPiece(src[i], i > 0 && EndsInHex(pieces[i - 1]), useHex, utf8Safe, pieces[i])
  }

  ghost predicate ArePieces(src: seq<Byte>, useHex: bool, utf8Safe: bool, pieces: seq<seq<Byte>>) {
    && |pieces| == |src|
    && forall i :: 0 <= i < |src| ==> PieceAt(src, useHex, utf8Safe, pieces, i)
  }

  function Concat(pieces: seq<seq<Byte>>): seq<Byte> {
    if pieces == [] then [] else Concat(pieces[..|pieces| - 1]) + pieces[|pieces| - 1]
  }

  lemma PairIs(b: Byte, out: seq<Byte>)
    ensures IsPair(b, out) <==> Letter(b).Some? && out == [BACKSLASH, Letter(b).value]
  {
  }

  lemma HasPairIs(b: Byte)
    ensures HasPair(b) <==> Letter(b).Some?
  {
    hide IsPair;
    forall out ensures IsPair(b, out) <==> Letter(b).Some? && out == [BACKSLASH, Letter(b).value] {
      PairIs(b, out);
    }
    if Letter(b).Some? {
      assert IsPair(b, [BACKSLASH, Letter(b).value]);
    }
  }

  lemma HexPieceIs(b: Byte, out: seq<Byte>)
    ensures IsHexPiece(b, out) <==> out == [BACKSLASH, LOWER_X, HexDigit(b / 16), HexDigit(b % 16)]
  {
    hide IsDigit, HexDigit;
    assert Text("\\x") == [BACKSLASH, LOWER_X];
    if IsHexPiece(b, out) {
      var u: nat, v: nat :| IsDigit(HEX_DIGITS, out[2], u) && IsDigit(HEX_DIGITS, out[3], v) && b == 16 * u + v;
      HexDigitIs(out[2], u);
      HexDigitIs(out[3], v);
      assert u == b / 16 && v == b % 16;
      assert out == out[..2] + [out[2], out[3]];
    }
    if out == [BACKSLASH, LOWER_X, HexDigit(b / 16), HexDigit(b % 16)] {
      HexDigitIs(out[2], b / 16);
      HexDigitIs(out[3], b % 16);
    }
  }

  lemma OctalPieceIs(b: Byte, out: seq<Byte>)
    ensures IsOctalPiece(b, out) <==> out == [BACKSLASH, ZERO + b / 64, ZERO + b / 8 % 8, ZERO + b % 8]
  {
    hide IsDigit;
    assert Text("\\") == [BACKSLASH];
    assert b == 64 * (b / 64) + 8 * (b / 8 % 8) + b % 8;
    if IsOctalPiece(b, out) {
      var u: nat, v: nat, w: nat :|
        && IsDigit(OCTAL_DIGITS, out[1], u) && IsDigit(OCTAL_DIGITS, out[2], v) && IsDigit(OCTAL_DIGITS, out[3], w)
        && b == 64 * u + 8 * v + w;
      OctalDigitIs(out[1], u);
      OctalDigitIs(out[2], v);
      OctalDigitIs(out[3], w);
      OctalParts(b, u, v, w);
      assert out == out[..1] + [out[1], out[2], out[3]];
    }
    if out == [BACKSLASH, ZERO + b / 64, ZERO + b / 8 % 8, ZERO + b % 8] {
      OctalDigitIs(out[1], b / 64);
      OctalDigitIs(out[2], b / 8 % 8);
      OctalDigitIs(out[3], b % 8);
    }
  }

  lemma OctalParts(b: Byte, u: nat, v: nat, w: nat)
    requires b == 64 * u + 8 * v + w && v < 8 && w < 8
    ensures u == b / 64 && v == b / 8 % 8 && w == b % 8
  {
    Words.Remainder(b, 8, 8 * u + v, w);
    Words.Remainder(b / 8, 8, u, v);
  }

  lemma PlainIs(b: Byte, afterHex: bool, utf8Safe: bool)
    requires Letter(b).None?
    ensures IsPlain(b, afterHex, utf8Safe) <==> !Numeric(b, afterHex, utf8Safe)
  {
    hide IsAnyHex;
    NoHexIs(b);
  }

  lemma PieceIs(b: Byte, afterHex: bool, useHex: bool, utf8Safe: bool, out: seq<Byte>)
    ensures IsPiece(b, afterHex, useHex, utf8Safe, out) <==> out == EscapeByte(b, afterHex, useHex, utf8Safe)
  {
    hide IsPair, HasPair, IsPlain, IsHexPiece, IsOctalPiece, Letter, Numeric, HexDigit;
    HasPairIs(b);
    PairIs(b, out);
    if Letter(b).None? {
      PlainIs(b, afterHex, utf8Safe);
    }
    HexPieceIs(b, out);
    OctalPieceIs(b, out);
  }

  lemma PieceEnds(b: Byte, afterHex: bool, useHex: bool, utf8Safe: bool)
    ensures EndsInHex(EscapeByte(b, afterHex, useHex, utf8Safe)) <==> useHex && Numeric(b, afterHex, utf8Safe)
  {
    hide HexDigit;
    assert Text("\\x") == [BACKSLASH, LOWER_X];
    var out := EscapeByte(b, afterHex, useHex, utf8Safe);
    assert |out| > 1 ==> out[..2] == [out[0], out[1]];
  }

  /** One piece more. */
  lemma PiecesSnoc(src: seq<Byte>, b: Byte, useHex: bool, utf8Safe: bool, pieces: seq<seq<Byte>>, last: seq<Byte>)
    requires |src| == |pieces|
    ensures ArePieces(src + [b], useHex, utf8Safe, pieces + [last]) <==>
      && ArePieces(src, useHex, utf8Safe, pieces)
      && IsPiece(b, pieces != [] && EndsInHex(pieces[|pieces| - 1]), useHex, utf8Safe, last)
  {
    hide IsPiece, EndsInHex;
    var s, ps, n := src + [b], pieces + [last], |src|;
    forall i | 0 <= i < n ensures PieceAt(s, useHex, utf8Safe, ps, i) <==> PieceAt(src, useHex, utf8Safe, pieces, i) {
    }
    assert PieceAt(s, useHex, utf8Safe, ps, n) <==>
      IsPiece(b, pieces != [] && EndsInHex(pieces[n - 1]), useHex, utf8Safe, last);
    hide PieceAt;
    if ArePieces(s, useHex, utf8Safe, ps) {
      forall i | 0 <= i < n ensures PieceAt(src, useHex, utf8Safe, pieces, i) {
        assert PieceAt(s, useHex, utf8Safe, ps, i);
      }
    }
  }

  /** An escaped string consists of one piece for each byte, and of nothing else. */
  lemma {:induction false} PiecesAreEscape(src: seq<Byte>, useHex: bool, utf8Safe: bool, pieces: seq<seq<Byte>>)
    requires ArePieces(src, useHex, utf8Safe, pieces)
    ensures |pieces| == |src| && Concat(pieces) == Escape(src, false, useHex, utf8Safe)
    ensures AfterHex(src, false, useHex, utf8Safe) <==> pieces != [] && EndsInHex(pieces[|pieces| - 1])
  {
    hide PieceAt, IsPiece, EndsInHex, Escape, EscapeByte, AfterHex, Numeric;
    EscapeStep(src, false, useHex, utf8Safe);
    if src != [] {
      var n := |src| - 1;
      var front, b := src[..n], src[n];
      var fronts, last := pieces[..n], pieces[n];
      assert src == front + [b] && pieces == fronts + [last];
      PiecesSnoc(front, b, useHex, utf8Safe, fronts, last);
      hide ArePieces;
      PiecesAreEscape(front, useHex, utf8Safe, fronts);
      EscapeSnoc(front, b, false, useHex, utf8Safe);
      var after := AfterHex(front, false, useHex, utf8Safe);
      PieceIs(b, after, useHex, utf8Safe, last);
      PieceEnds(b, after, useHex, utf8Safe);
    }
  }

  lemma {:induction false} EscapeHasPieces(src: seq<Byte>, useHex: bool, utf8Safe: bool)
    returns (pieces: seq<seq<Byte>>)
    ensures ArePieces(src, useHex, utf8Safe, pieces)
  {
    hide PieceAt, IsPiece, EndsInHex, EscapeByte;
    pieces := [];
    if src != [] {
      var n := |src| - 1;
      var rest := EscapeHasPieces(src[..n], useHex, utf8Safe);
      var after := rest != [] && EndsInHex(rest[|rest| - 1]);
      var last := EscapeByte(src[n], after, useHex, utf8Safe);
      PieceIs(src[n], after, useHex, utf8Safe, last);
      PiecesSnoc(src[..n], src[n], useHex, utf8Safe, rest, last);
      pieces := rest + [last];
      assert src == src[..n] + [src[n]];
    }
  }

  /** A string is the escaped form of `src` exactly when it is made of the right pieces. */
  lemma EscapeIs(src: seq<Byte>, useHex: bool, utf8Safe: bool, out: seq<Byte>)
    ensures out == Escape(src, false, useHex, utf8Safe) <==>
      exists pieces :: ArePieces(src, useHex, utf8Safe, pieces) && out == Concat(pieces)
  {
    hide ArePieces, Concat, Escape, AfterHex, EndsInHex;
    var pieces := EscapeHasPieces(src, useHex, utf8Safe);
    PiecesAreEscape(src, useHex, utf8Safe, pieces);
    forall others | ArePieces(src, useHex, utf8Safe, others) ensures Concat(others) == Concat(pieces) {
      PiecesAreEscape(src, useHex, utf8Safe, others);
    }
  }

  // ---------- unescaping ----------

  ghost function Number(values: seq<nat>, base: nat): nat {
    if values == [] then 0 else base * Number(values[..|values| - 1], base) + values[|values| - 1]
  }

  ghost predicate SpellsOctal(text: seq<Byte>, values: seq<nat>) {
    |text| == |values| && forall i :: 0 <= i < |text| ==> IsDigit(OCTAL_DIGITS, text[i], values[i])
  }

  ghost predicate SpellsHex(text: seq<Byte>, values: seq<nat>) {
    |text| == |values| && forall i :: 0 <= i < |text| ==> IsAnyHex(text[i], values[i])
  }

  /** The escapes with a name: bell, backspace, form feed, newline, return, tab, vertical tab and
      four characters that stand for themselves. */
  const NAMES: string := "abfnrtv\\?'\""
  const NAMED_BYTES: seq<Byte> := [7, 8, 12, 10, 13, 9, 11, 92, 63, 39, 34]

  ghost predicate Named(text: seq<Byte>, out: seq<Byte>) {
    && |text| == 2 && text[..1] == Text("\\")
    && exists k :: 0 <= k < 11 && text[1] == NAMES[k] as int && out == [NAMED_BYTES[k]]
  }

  /** One to three octal digits, as many as there are, modulo 256. */
  ghost predicate OctalEscape(text: seq<Byte>, tail: seq<Byte>, out: seq<Byte>) {
    && 2 <= |text| <= 4 && text[..1] == Text("\\")
    && (|text| == 4 || tail == [] || forall v :: !IsDigit(OCTAL_DIGITS, tail[0], v))
    && exists values :: SpellsOctal(text[1..], values) && out == [Number(values, 8) % 256]
  }

  /** As many hex digits as there are, modulo 256. Without any digit nothing is written. */
  ghost predicate HexEscape(text: seq<Byte>, tail: seq<Byte>, out: seq<Byte>) {
    && |text| >= 2 && (text[..2] == Text("\\x") || text[..2] == Text("\\X"))
    && (tail == [] || forall v :: !IsAnyHex(tail[0], v))
    && exists values :: SpellsHex(text[2..], values) && out == if values == [] then [] else [Number(values, 16) % 256]
  }

  /** Any other character behind a backslash: nothing is written. */
  ghost predicate UnknownEscape(text: seq<Byte>, out: seq<Byte>) {
    && |text| == 2 && text[..1] == Text("\\") && text[1] != 0 && out == []
    && (forall named :: !Named(text, named))
    && (forall v :: !IsDigit(OCTAL_DIGITS, text[1], v))
    && text != Text("\\x") && text != Text("\\X")
  }

  /** `text` is an escape when `tail` comes next, and stands for `out`. */
  ghost predicate StandsFor(text: seq<Byte>, tail: seq<Byte>, out: seq<Byte>) {
    Named(text, out) || OctalEscape(text, tail, out) || HexEscape(text, tail, out) || UnknownEscape(text, out)
  }

  /** `out` is what the text says up to its end or a zero byte; a backslash at the end says
      nothing. */
  ghost predicate Says(s: seq<Byte>, out: seq<Byte>)
    decreases |s|
  {
    if s == [] || s[0] == 0 then out == []
    else if s[0] != '\\' as int then out != [] && out[0] == s[0] && Says(s[1..], out[1..])
    else if |s| == 1 || s[1] == 0 then out == []
    else
      exists n: nat, m: nat ::
        2 <= n <= |s| && m <= |out| && StandsFor(s[..n], s[n..], out[..m]) && Says(s[n..], out[m..])
  }

  lemma NamedIs(text: seq<Byte>, out: seq<Byte>)
    ensures Named(text, out) <==>
      && |text| == 2 && text[0] == BACKSLASH && Unletter(text[1]).Some?
      && out == [Unletter(text[1]).value]
  {
    if |text| == 2 {
      assert text[..1] == [text[0]] && Text("\\") == [BACKSLASH];
      NameIs(text[1], out);
    }
  }

  lemma NameIs(c: Byte, out: seq<Byte>)
    ensures Unletter(c).Some? && out == [Unletter(c).value] <==>
      exists k :: 0 <= k < 11 && c == NAMES[k] as int && out == [NAMED_BYTES[k]]
  {
    if Unletter(c).Some? && out == [Unletter(c).value] {
      var k := if c == 97 then 0 else if c == 98 then 1 else if c == 102 then 2 else if c == 110 then 3
        else if c == 114 then 4 else if c == 116 then 5 else if c == 118 then 6 else if c == 92 then 7
        else if c == 63 then 8 else if c == 39 then 9 else 10;
      assert c == NAMES[k] as int && out == [NAMED_BYTES[k]];
    }
  }

  lemma NoOctalIs(c: Byte)
    ensures IsOctal(c) <==> exists v :: IsDigit(OCTAL_DIGITS, c, v)
  {
    hide IsDigit;
    forall v: nat ensures IsDigit(OCTAL_DIGITS, c, v) <==> IsOctal(c) && v == OctalDigit(c) {
      OctalDigitIs(c, v);
    }
    if IsOctal(c) {
      assert IsDigit(OCTAL_DIGITS, c, OctalDigit(c));
    }
  }

  lemma {:induction false} OctalNumber(s: seq<Byte>, n: nat, values: seq<nat>)
    requires n <= |s| && SpellsOctal(s[..n], values)
    ensures (forall i :: 0 <= i < n ==> IsOctal(s[i])) && OctalValue(s, n) == Number(values, 8)
  {
    hide IsDigit;
    forall i | 0 <= i < n ensures IsOctal(s[i]) && values[i] == OctalDigit(s[i]) {
      assert IsDigit(OCTAL_DIGITS, s[..n][i], values[i]);
      OctalDigitIs(s[i], values[i]);
    }
    if n > 0 {
      var front, most := s[..n - 1], values[..n - 1];
      forall i | 0 <= i < |front| ensures IsDigit(OCTAL_DIGITS, front[i], most[i]) {
        assert IsDigit(OCTAL_DIGITS, s[..n][i], values[i]);
      }
      OctalNumber(s, n - 1, most);
    }
  }

  lemma OctalSpelled(s: seq<Byte>, n: nat) returns (values: seq<nat>)
    requires n <= |s| && forall i :: 0 <= i < n ==> IsOctal(s[i])
    ensures SpellsOctal(s[..n], values)
  {
    values := seq(n, i requires 0 <= i < n => OctalDigit(s[i]));
    hide IsDigit;
    forall i | 0 <= i < n ensures IsDigit(OCTAL_DIGITS, s[..n][i], values[i]) {
      OctalDigitIs(s[i], values[i]);
    }
  }

  lemma OctalEscapeIs(s: seq<Byte>, n: nat, out: seq<Byte>)
    requires 2 <= n <= |s| && s[0] == BACKSLASH
    ensures OctalEscape(s[..n], s[n..], out) <==>
      IsOctal(s[1]) && n == 1 + OctalRun(s[1..]) && out == [OctalValue(s[1..], n - 1) % 256]
  {
    var text, tail, digits := s[..n], s[n..], s[1..];
    assert text[..1] == Text("\\") && text[1..] == digits[..n - 1];
    hide IsDigit, OctalValue;
    if tail != [] {
      NoOctalIs(tail[0]);
      assert tail[0] == digits[n - 1];
    }
    if OctalEscape(text, tail, out) {
      var values :| SpellsOctal(text[1..], values) && out == [Number(values, 8) % 256];
      OctalNumber(digits, n - 1, values);
    }
    if IsOctal(s[1]) && n == 1 + OctalRun(s[1..]) && out == [OctalValue(s[1..], n - 1) % 256] {
      var values := OctalSpelled(digits, n - 1);
      OctalNumber(digits, n - 1, values);
    }
  }

  lemma LowByte(x: nat, y: nat)
    requires y == x % 0x1_0000_0000
    ensures y % 256 == x % 256
  {
    var q := x / 0x1_0000_0000;
    assert x == q * 0x1_0000_0000 + y;
    Words.Remainder(x, 256, q * 0x100_0000 + y / 256, y % 256);
  }

  lemma HexWord(a: nat, b: nat, d: nat)
    requires b == a % 0x1_0000_0000
    ensures (16 * b + d) % 0x1_0000_0000 == (16 * a + d) % 0x1_0000_0000
  {
    var q, x := a / 0x1_0000_0000, 16 * b + d;
    assert a == q * 0x1_0000_0000 + b;
    Words.Remainder(16 * a + d, 0x1_0000_0000, 16 * q + x / 0x1_0000_0000, x % 0x1_0000_0000);
  }

  lemma {:induction false} HexDigitsNumber(s: seq<Byte>, n: nat, values: seq<nat>)
    requires n <= |s| && SpellsHex(s[..n], values)
    ensures (forall i :: 0 <= i < n ==> IsHex(s[i])) && HexNumber(s, n) == Number(values, 16) % 0x1_0000_0000
  {
    hide IsAnyHex;
    forall i | 0 <= i < n ensures IsHex(s[i]) && values[i] == HexValue(s[i]) {
      assert IsAnyHex(s[..n][i], values[i]);
      AnyHexIs(s[i], values[i]);
    }
    if n > 0 {
      var front, most := s[..n - 1], values[..n - 1];
      forall i | 0 <= i < |front| ensures IsAnyHex(front[i], most[i]) {
        assert IsAnyHex(s[..n][i], values[i]);
      }
      HexDigitsNumber(s, n - 1, most);
      hide HexValue;
      HexWord(Number(most, 16), HexNumber(s, n - 1), values[n - 1]);
    }
  }

  lemma HexSpelled(s: seq<Byte>, n: nat) returns (values: seq<nat>)
    requires n <= |s| && forall i :: 0 <= i < n ==> IsHex(s[i])
    ensures SpellsHex(s[..n], values)
  {
    values := seq(n, i requires 0 <= i < n => HexValue(s[i]));
    hide IsAnyHex, HexValue;
    forall i | 0 <= i < n ensures IsAnyHex(s[..n][i], values[i]) {
      AnyHexIs(s[i], values[i]);
    }
  }

  lemma HexParts(s: seq<Byte>, n: nat)
    requires 2 <= n <= |s| && s[0] == BACKSLASH
    ensures s[..n][..2] == Text("\\x") || s[..n][..2] == Text("\\X") <==> s[1] == LOWER_X || s[1] == UPPER_X
    ensures s[..n][2..] == s[2..][..n - 2]
    ensures s[n..] != [] ==> s[n..][0] == s[2..][n - 2]
    ensures s[n..] == [] || (forall v :: !IsAnyHex(s[n..][0], v)) <==> n == |s| || !IsHex(s[2..][n - 2])
  {
    assert s[..n][..2] == [s[0], s[1]];
    assert Text("\\x") == [BACKSLASH, LOWER_X] && Text("\\X") == [BACKSLASH, UPPER_X];
    hide IsAnyHex, IsHex;
    if n < |s| {
      NoHexIs(s[n]);
    }
  }

  ghost predicate ReadsHex(s: seq<Byte>, n: nat, out: seq<Byte>)
    requires 2 <= n <= |s|
  {
    && (s[1] == LOWER_X || s[1] == UPPER_X) && n == 2 + HexRun(s[2..])
    && out == if n == 2 then [] else [HexNumber(s[2..], n - 2) % 256]
  }

  lemma HexEscapeIsRead(s: seq<Byte>, n: nat, out: seq<Byte>)
    requires 2 <= n <= |s| && s[0] == BACKSLASH && HexEscape(s[..n], s[n..], out)
    ensures ReadsHex(s, n, out)
  {
    hide IsAnyHex, IsHex, HexNumber, HexValue;
    HexParts(s, n);
    var digits := s[2..];
    var values :| SpellsHex(s[..n][2..], values) && out == if values == [] then [] else [Number(values, 16) % 256];
    HexDigitsNumber(digits, n - 2, values);
    HexRunEnds(digits, n - 2);
    LowByte(Number(values, 16), HexNumber(digits, n - 2));
  }

  lemma ReadIsHexEscape(s: seq<Byte>, n: nat, out: seq<Byte>)
    requires 2 <= n <= |s| && s[0] == BACKSLASH && ReadsHex(s, n, out)
    ensures HexEscape(s[..n], s[n..], out)
  {
    hide IsAnyHex, IsHex, HexNumber, HexValue;
    HexParts(s, n);
    var digits := s[2..];
    var values := HexSpelled(digits, n - 2);
    HexDigitsNumber(digits, n - 2, values);
    LowByte(Number(values, 16), HexNumber(digits, n - 2));
  }

  lemma HexEscapeIs(s: seq<Byte>, n: nat, out: seq<Byte>)
    requires 2 <= n <= |s| && s[0] == BACKSLASH
    ensures HexEscape(s[..n], s[n..], out) <==> ReadsHex(s, n, out)
  {
    hide HexEscape, ReadsHex;
    if HexEscape(s[..n], s[n..], out) {
      HexEscapeIsRead(s, n, out);
    }
    if ReadsHex(s, n, out) {
      ReadIsHexEscape(s, n, out);
    }
  }

  lemma UnknownEscapeIs(s: seq<Byte>, n: nat, out: seq<Byte>)
    requires 2 <= n <= |s| && s[0] == BACKSLASH && s[1] != 0
    ensures UnknownEscape(s[..n], out) <==>
      && n == 2 && out == [] && Unletter(s[1]).None? && !IsOctal(s[1]) && s[1] != LOWER_X && s[1] != UPPER_X
  {
    hide IsDigit, Named;
    var text := s[..n];
    assert text[..1] == Text("\\");
    assert n == 2 ==> text == [s[0], s[1]];
    assert Text("\\x") == [BACKSLASH, LOWER_X] && Text("\\X") == [BACKSLASH, UPPER_X];
    NoOctalIs(s[1]);
    forall named ensures Named(text, named) <==> n == 2 && Unletter(s[1]).Some? && named == [Unletter(s[1]).value] {
      NamedIs(text, named);
    }
    if n == 2 && Unletter(s[1]).Some? {
      assert Named(text, [Unletter(s[1]).value]);
    }
  }

  /** The cases of an escape, by its first character. */
  lemma SequenceIs(s: seq<Byte>)
    requires |s| > 1 && s[0] == BACKSLASH && s[1] != 0
    ensures Unletter(s[1]).Some? ==> Sequence(s) == ([Unletter(s[1]).value], 2)
    ensures IsOctal(s[1]) ==> var n := OctalRun(s[1..]); Sequence(s) == ([OctalValue(s[1..], n) % 256], 1 + n)
    ensures s[1] == LOWER_X || s[1] == UPPER_X ==>
      var n := HexRun(s[2..]); Sequence(s) == (if n == 0 then [] else [HexNumber(s[2..], n) % 256], 2 + n)
    ensures Unletter(s[1]).None? && !IsOctal(s[1]) && s[1] != LOWER_X && s[1] != UPPER_X ==> Sequence(s) == ([], 2)
    ensures Unletter(s[1]).Some? ==> !IsOctal(s[1]) && s[1] != LOWER_X && s[1] != UPPER_X
    ensures IsOctal(s[1]) ==> s[1] != LOWER_X && s[1] != UPPER_X
  {
    hide OctalValue, HexRun, HexNumber;
  }

  /** The reading of an escape is the only one. */
  lemma StandsForIs(s: seq<Byte>, n: nat, out: seq<Byte>)
    requires 2 <= n <= |s| && s[0] == BACKSLASH && s[1] != 0
    ensures StandsFor(s[..n], s[n..], out) <==> Sequence(s) == (out, n)
  {
    hide Named, OctalEscape, HexEscape, UnknownEscape, Unletter, IsOctal, Sequence,
         OctalRun, OctalValue, HexRun, HexNumber;
    SequenceIs(s);
    NamedIs(s[..n], out);
    OctalEscapeIs(s, n, out);
    HexEscapeIs(s, n, out);
    UnknownEscapeIs(s, n, out);
  }

  lemma UnescapeEscape(s: seq<Byte>)
    requires |s| > 1 && s[0] == BACKSLASH && s[1] != 0
    ensures Unescape(s) == Sequence(s).0 + Unescape(s[Sequence(s).1..])
  {
    hide Sequence;
  }

  /** What the decoder writes is what the text says, and the text says nothing else. */
  lemma {:induction false} UnescapeIs(s: seq<Byte>, out: seq<Byte>)
    ensures Says(s, out) <==> out == Unescape(s)
    decreases |s|
  {
    if s == [] || s[0] == 0 {
    } else if s[0] != BACKSLASH {
      if out != [] {
        UnescapeIs(s[1..], out[1..]);
        assert out == [out[0]] + out[1..];
      }
    } else if |s| > 1 && s[1] != 0 {
      UnescapeEscape(s);
      var (o, k) := Sequence(s);
      hide Unescape, Sequence, StandsFor;
      forall n: nat, m: nat | 2 <= n <= |s| && m <= |out|
        ensures StandsFor(s[..n], s[n..], out[..m]) <==> n == k && out[..m] == o
        ensures Says(s[n..], out[m..]) <==> out[m..] == Unescape(s[n..])
      {
        StandsForIs(s, n, out[..m]);
        UnescapeIs(s[n..], out[m..]);
      }
      if Says(s, out) {
        var n: nat, m: nat :|
          2 <= n <= |s| && m <= |out| && StandsFor(s[..n], s[n..], out[..m]) && Says(s[n..], out[m..]);
        assert out == out[..m] + out[m..];
      }
      if out == o + Unescape(s[k..]) {
        assert out[..|o|] == o && out[|o|..] == Unescape(s[k..]);
      }
    }
  }
}
