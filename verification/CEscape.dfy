/** C-style escaping of byte strings and its inverse. Characters are given by their codes. */
module CEscape {
  import opened Basics
  import opened Words

  const BACKSLASH: Byte := 92
  const LOWER_X: Byte := 120
  const UPPER_X: Byte := 88
  const ZERO: Byte := 48

  predicate IsPrint(b: Byte) {
    32 <= b < 127
  }

  predicate IsOctal(b: Byte) {
    48 <= b < 56
  }

  predicate IsHex(b: Byte) {
    48 <= b < 58 || 65 <= b < 71 || 97 <= b < 103
  }

  function HexDigit(n: nat): Byte
    requires n < 16
  {
    if n < 10 then 48 + n else 87 + n
  }

  function HexValue(b: Byte): (n: nat)
    requires IsHex(b)
    ensures n < 16
  {
    if b < 58 then b - 48 else if b < 71 then b - 55 else b - 87
  }

  // ---------- escaping ----------

  /** The letter of a two-letter escape: newline, return, tab, both quotes, backslash. */
  function Letter(b: Byte): Option<Byte> {
    if b == 10 then Some(110) else if b == 13 then Some(114) else if b == 9 then Some(116)
    else if b == 34 || b == 39 || b == BACKSLASH then Some(b)
    else None
  }

  /** Bytes that become a numeric escape; `afterHex` says that the byte before did, in hex. */
  predicate Numeric(b: Byte, afterHex: bool, utf8Safe: bool) {
    Letter(b).None? && (!utf8Safe || b < 128) && (!IsPrint(b) || (afterHex && IsHex(b)))
  }

  function EscapeByte(b: Byte, afterHex: bool, useHex: bool, utf8Safe: bool): seq<Byte> {
    if Letter(b).Some? then [BACKSLASH, Letter(b).value]
    else if !Numeric(b, afterHex, utf8Safe) then [b]
    else if useHex then [BACKSLASH, LOWER_X, HexDigit(b / 16), HexDigit(b % 16)]
    else [BACKSLASH, ZERO + b / 64, ZERO + b / 8 % 8, ZERO + b % 8]
  }

  function Escape(src: seq<Byte>, afterHex: bool, useHex: bool, utf8Safe: bool): seq<Byte> {
    if src == [] then []
    else
      EscapeByte(src[0], afterHex, useHex, utf8Safe)
      + Escape(src[1..], useHex && Numeric(src[0], afterHex, utf8Safe), useHex, utf8Safe)
  }

  lemma {:induction false} EscapeSnoc(src: seq<Byte>, b: Byte, afterHex: bool, useHex: bool, utf8Safe: bool)
    ensures Escape(src + [b], afterHex, useHex, utf8Safe) ==
      Escape(src, afterHex, useHex, utf8Safe)
      + EscapeByte(b, AfterHex(src, afterHex, useHex, utf8Safe), useHex, utf8Safe)
    ensures AfterHex(src + [b], afterHex, useHex, utf8Safe) ==
      (useHex && Numeric(b, AfterHex(src, afterHex, useHex, utf8Safe), utf8Safe))
  {
    hide *;
    var more := src + [b];
    EscapeStep(more, afterHex, useHex, utf8Safe);
    EscapeStep(src, afterHex, useHex, utf8Safe);
    if src == [] {
      assert more[1..] == [];
      EscapeStep([], useHex && Numeric(b, afterHex, utf8Safe), useHex, utf8Safe);
    } else {
      assert more[1..] == src[1..] + [b];
      EscapeSnoc(src[1..], b, useHex && Numeric(src[0], afterHex, utf8Safe), useHex, utf8Safe);
    }
  }

  lemma EscapeStep(src: seq<Byte>, afterHex: bool, useHex: bool, utf8Safe: bool)
    ensures src == [] ==>
      Escape(src, afterHex, useHex, utf8Safe) == [] && AfterHex(src, afterHex, useHex, utf8Safe) == afterHex
    ensures src != [] ==> var next := useHex && Numeric(src[0], afterHex, utf8Safe);
      && Escape(src, afterHex, useHex, utf8Safe) ==
         EscapeByte(src[0], afterHex, useHex, utf8Safe) + Escape(src[1..], next, useHex, utf8Safe)
      && AfterHex(src, afterHex, useHex, utf8Safe) == AfterHex(src[1..], next, useHex, utf8Safe)
  {
  }

  /** Whether the last byte of `src` became a hex escape. */
  function AfterHex(src: seq<Byte>, afterHex: bool, useHex: bool, utf8Safe: bool): bool {
    if src == [] then afterHex
    else AfterHex(src[1..], useHex && Numeric(src[0], afterHex, utf8Safe), useHex, utf8Safe)
  }

  lemma {:induction false} EscapeLength(src: seq<Byte>, afterHex: bool, useHex: bool, utf8Safe: bool)
    ensures |src| <= |Escape(src, afterHex, useHex, utf8Safe)| <= 4 * |src|
  {
    if src != [] {
      EscapeLength(src[1..], useHex && Numeric(src[0], afterHex, utf8Safe), useHex, utf8Safe);
    }
  }

  lemma {:induction false} EscapePrefix(src: seq<Byte>, k: nat, useHex: bool, utf8Safe: bool)
    requires k <= |src|
    ensures |Escape(src[..k], false, useHex, utf8Safe)| + (|src| - k) <= |Escape(src, false, useHex, utf8Safe)|
    decreases |src| - k
  {
    if k == |src| {
      assert src[..k] == src;
    } else {
      assert src[..k + 1] == src[..k] + [src[k]];
      EscapeSnoc(src[..k], src[k], false, useHex, utf8Safe);
      EscapePrefix(src, k + 1, useHex, utf8Safe);
    }
  }

  /** A numeric escape at position `k` finds exactly four bytes of room. */
  ghost predicate FourLeft(src: seq<Byte>, k: nat, destLen: nat, useHex: bool, utf8Safe: bool) {
    && k < |src| && |Escape(src[..k], false, useHex, utf8Safe)| + 4 == destLen
    && Numeric(src[k], AfterHex(src[..k], false, useHex, utf8Safe), utf8Safe)
  }

  ghost predicate Overruns(src: seq<Byte>, destLen: nat, useHex: bool, utf8Safe: bool) {
    OverrunsBefore(src, |src|, destLen, useHex, utf8Safe)
  }

  ghost predicate OverrunsBefore(src: seq<Byte>, n: nat, destLen: nat, useHex: bool, utf8Safe: bool) {
    exists k: nat :: k < n && FourLeft(src, k, destLen, useHex, utf8Safe)
  }

  lemma EscapeGrows(src: seq<Byte>, k: nat, j: nat, useHex: bool, utf8Safe: bool)
    requires k <= j <= |src|
    ensures |Escape(src[..k], false, useHex, utf8Safe)| <= |Escape(src[..j], false, useHex, utf8Safe)|
  {
    assert src[..j][..k] == src[..k];
    EscapePrefix(src[..j], k, useHex, utf8Safe);
  }

  /** From where there is no room for a numeric escape there is none further on. */
  lemma NoneLater(src: seq<Byte>, k: nat, destLen: nat, useHex: bool, utf8Safe: bool)
    requires k <= |src| && |Escape(src[..k], false, useHex, utf8Safe)| + 4 > destLen
    ensures Overruns(src, destLen, useHex, utf8Safe) <==> OverrunsBefore(src, k, destLen, useHex, utf8Safe)
  {
    forall j: nat | FourLeft(src, j, destLen, useHex, utf8Safe) ensures j < k {
      if k <= j {
        EscapeGrows(src, k, j, useHex, utf8Safe);
      }
    }
  }

  lemma NoneBefore(src: seq<Byte>, destLen: nat, useHex: bool, utf8Safe: bool)
    ensures !OverrunsBefore(src, 0, destLen, useHex, utf8Safe)
  {
  }

  lemma OverrunsStep(src: seq<Byte>, k: nat, destLen: nat, useHex: bool, utf8Safe: bool)
    requires k < |src|
    ensures OverrunsBefore(src, k + 1, destLen, useHex, utf8Safe) <==>
      || OverrunsBefore(src, k, destLen, useHex, utf8Safe)
      || (|Escape(src[..k], false, useHex, utf8Safe)| + 4 == destLen
          && Numeric(src[k], AfterHex(src[..k], false, useHex, utf8Safe), utf8Safe))
  {
    hide Escape, AfterHex, Numeric;
    if |Escape(src[..k], false, useHex, utf8Safe)| + 4 == destLen
       && Numeric(src[k], AfterHex(src[..k], false, useHex, utf8Safe), utf8Safe) {
      assert FourLeft(src, k, destLen, useHex, utf8Safe);
    }
  }

  /** Four bytes for each byte and one more are always enough. */
  lemma RoomyNeverOverruns(src: seq<Byte>, destLen: nat, useHex: bool, utf8Safe: bool)
    requires destLen > 4 * |src|
    ensures !Overruns(src, destLen, useHex, utf8Safe)
  {
    forall k: nat | k < |src| ensures !FourLeft(src, k, destLen, useHex, utf8Safe) {
      EscapeLength(src[..k], false, useHex, utf8Safe);
    }
  }

  /** One byte that is not printable, and a buffer of four. */
  lemma FourBytesOverrun(useHex: bool)
    ensures Overruns([1], 4, useHex, false)
  {
    var src: seq<Byte> := [1];
    EscapeStep(src[..0], false, useHex, false);
    assert FourLeft(src, 0, 4, useHex, false);
  }

  /** Fails exactly when the buffer cannot hold the escaped string and a terminator. `touched` is
      the number of bytes from the start of the buffer up to the last one written. Numeric
      escapes are written with a terminator that the test for room does not count, so the byte
      behind the buffer is written if and only if such an escape finds exactly four bytes. */
  method CEscapeInternal(src: seq<Byte>, destLen: nat, useHex: bool, utf8Safe: bool)
    returns (r: Option<seq<Byte>>, touched: nat)
    ensures var escaped := Escape(src, false, useHex, utf8Safe);
      r == if |escaped| < destLen then Some(escaped) else None
    ensures touched <= destLen + 1 && (touched == destLen + 1 <==> Overruns(src, destLen, useHex, utf8Safe))
    ensures r.Some? ==> touched == |r.value| + 1
  {
    hide Escape, AfterHex, OverrunsBefore, FourLeft, Writing;
    var dest, lastHex := [], false;
    touched := 0;
    WriteStarts(src, destLen, useHex, utf8Safe);
    for k := 0 to |src|
      invariant Writing(src, k, destLen, useHex, utf8Safe, dest, lastHex, touched)
    {
      if destLen - |dest| < 2 {
        WriteStops(src, k, destLen, useHex, utf8Safe, dest, lastHex, touched);
        return None, touched;
      }
      var isHex := false;
      var b := src[k];
      ghost var before, was := dest, touched;
      if Letter(b).Some? {
        dest := dest + [BACKSLASH, Letter(b).value];
      } else if (!utf8Safe || b < 128) && (!IsPrint(b) || (lastHex && IsHex(b))) {
        if destLen - |dest| < 4 {
          WriteStops(src, k, destLen, useHex, utf8Safe, dest, lastHex, touched);
          return None, touched;
        }
        touched := |dest| + 5;
        dest := dest + EscapeByte(b, lastHex, useHex, utf8Safe);
        isHex := useHex;
      } else {
        dest := dest + [b];
      }
      touched := if touched < |dest| then |dest| else touched;
      WriteStep(src, k, destLen, useHex, utf8Safe, before, lastHex, was);
      lastHex := isHex;
    }
    assert src[..|src|] == src;
    WriteEnds(src, destLen, useHex, utf8Safe, dest, lastHex, touched);
    if destLen - |dest| < 1 {
      return None, touched;
    }
    touched := |dest| + 1;
    return Some(dest), touched;
  }

  /** What has been written for the first `k` bytes. */
  ghost predicate Writing(src: seq<Byte>, k: nat, destLen: nat, useHex: bool, utf8Safe: bool, dest: seq<Byte>,
                          lastHex: bool, touched: nat)
  {
    && k <= |src| && dest == Escape(src[..k], false, useHex, utf8Safe)
    && lastHex == AfterHex(src[..k], false, useHex, utf8Safe)
    && (k > 0 ==> |dest| <= destLen) && |dest| <= touched <= |dest| + 1 && touched <= destLen + 1
    && (touched == destLen + 1 <==> OverrunsBefore(src, k, destLen, useHex, utf8Safe))
  }

  lemma WriteStarts(src: seq<Byte>, destLen: nat, useHex: bool, utf8Safe: bool)
    ensures Writing(src, 0, destLen, useHex, utf8Safe, [], false, 0)
  {
    hide Escape, AfterHex;
    EscapeStep(src[..0], false, useHex, utf8Safe);
    NoneBefore(src, destLen, useHex, utf8Safe);
  }

  lemma WriteStep(src: seq<Byte>, k: nat, destLen: nat, useHex: bool, utf8Safe: bool, dest: seq<Byte>, lastHex: bool,
                  touched: nat)
    requires Writing(src, k, destLen, useHex, utf8Safe, dest, lastHex, touched) && k < |src| && destLen - |dest| >= 2
    requires Numeric(src[k], lastHex, utf8Safe) ==> destLen - |dest| >= 4
    ensures var numeric := Numeric(src[k], lastHex, utf8Safe);
      var dest' := dest + EscapeByte(src[k], lastHex, useHex, utf8Safe);
      Writing(src, k + 1, destLen, useHex, utf8Safe, dest', useHex && numeric,
              if numeric then |dest| + 5 else if touched < |dest'| then |dest'| else touched)
  {
    assert |EscapeByte(src[k], lastHex, useHex, utf8Safe)| == 4 || !Numeric(src[k], lastHex, utf8Safe);
    assert |EscapeByte(src[k], lastHex, useHex, utf8Safe)| <= 2 || Numeric(src[k], lastHex, utf8Safe);
    assert |EscapeByte(src[k], lastHex, useHex, utf8Safe)| >= 1;
    hide Escape, AfterHex, EscapeByte, Numeric, OverrunsBefore;
    assert src[..k + 1] == src[..k] + [src[k]];
    EscapeSnoc(src[..k], src[k], false, useHex, utf8Safe);
    OverrunsStep(src, k, destLen, useHex, utf8Safe);
  }

  lemma WriteStops(src: seq<Byte>, k: nat, destLen: nat, useHex: bool, utf8Safe: bool, dest: seq<Byte>, lastHex: bool,
                   touched: nat)
    requires Writing(src, k, destLen, useHex, utf8Safe, dest, lastHex, touched) && k < |src|
    requires destLen - |dest| < 2 || (destLen - |dest| < 4 && Numeric(src[k], lastHex, utf8Safe))
    ensures |Escape(src, false, useHex, utf8Safe)| >= destLen && touched <= destLen + 1
    ensures touched == destLen + 1 <==> Overruns(src, destLen, useHex, utf8Safe)
  {
    hide Escape, AfterHex, OverrunsBefore, FourLeft;
    NoneLater(src, k, destLen, useHex, utf8Safe);
    EscapePrefix(src, k, useHex, utf8Safe);
    EscapePrefix(src, k + 1, useHex, utf8Safe);
    assert src[..k + 1] == src[..k] + [src[k]];
    EscapeSnoc(src[..k], src[k], false, useHex, utf8Safe);
  }

  lemma WriteEnds(src: seq<Byte>, destLen: nat, useHex: bool, utf8Safe: bool, dest: seq<Byte>, lastHex: bool,
                  touched: nat)
    requires Writing(src, |src|, destLen, useHex, utf8Safe, dest, lastHex, touched)
    ensures dest == Escape(src, false, useHex, utf8Safe) && touched <= destLen + 1 && touched <= |dest| + 1
    ensures touched == destLen + 1 <==> Overruns(src, destLen, useHex, utf8Safe)
  {
    hide Escape, AfterHex, OverrunsBefore;
    assert src[..|src|] == src;
  }

  /** The buffer is always large enough. */
  method CHexEscape(src: seq<Byte>) returns (r: seq<Byte>)
    ensures r == Escape(src, false, true, false)
  {
    EscapeLength(src, false, true, false);
    RoomyNeverOverruns(src, |src| * 4 + 1, true, false);
    var out, touched := CEscapeInternal(src, |src| * 4 + 1, true, false);
    assert touched <= |src| * 4 + 1;
    r := out.value;
  }

  method Utf8SafeCEscape(src: seq<Byte>) returns (r: seq<Byte>)
    ensures r == Escape(src, false, false, true)
  {
    EscapeLength(src, false, false, true);
    RoomyNeverOverruns(src, |src| * 4 + 1, false, true);
    var out, touched := CEscapeInternal(src, |src| * 4 + 1, false, true);
    assert touched <= |src| * 4 + 1;
    r := out.value;
  }

  // ---------- the faster form ----------

  /** The length table, indexed by the byte. */
  function TableLength(b: Byte): nat {
    if b == 9 || b == 10 || b == 13 || b == 34 || b == 39 || b == 92 then 2
    else if b < 32 || b >= 127 then 4
    else 1
  }

  method CEscapedLength(src: seq<Byte>) returns (n: nat)
    ensures n == |Escape(src, false, false, false)|
  {
    n := 0;
    assert src[..0] == [];
    for k := 0 to |src|
      invariant n == |Escape(src[..k], false, false, false)|
      invariant !AfterHex(src[..k], false, false, false)
    {
      assert src[..k + 1] == src[..k] + [src[k]];
      EscapeSnoc(src[..k], src[k], false, false, false);
      n := n + TableLength(src[k]);
    }
    assert src[..|src|] == src;
  }

  /** When the escaped string is no longer than the source, nothing was escaped. */
  lemma {:induction false} NothingEscaped(src: seq<Byte>)
    requires |Escape(src, false, false, false)| == |src|
    ensures Escape(src, false, false, false) == src
  {
    if src != [] {
      EscapeLength(src[1..], false, false, false);
      NothingEscaped(src[1..]);
    }
  }

  lemma EscapeNothing(src: seq<Byte>)
    requires src == []
    ensures Escape(src, false, false, false) == [] && !AfterHex(src, false, false, false)
  {
  }

  lemma OctalByte(c: Byte)
    ensures EscapeByte(c, false, false, false) ==
      if Letter(c).Some? then [BACKSLASH, Letter(c).value]
      else if !IsPrint(c) then [BACKSLASH, ZERO + c / 64, ZERO + c % 64 / 8, ZERO + c % 8]
      else [c]
  {
    hide Letter, IsPrint;
    MiddleDigit(c);
  }

  lemma MiddleDigit(c: Byte)
    ensures c / 8 % 8 == c % 64 / 8
  {
    var a, r := c / 64, c % 64;
    var b, e := r / 8, r % 8;
    Words.Remainder(c, 8, 8 * a + b, e);
    Words.Remainder(c / 8, 8, a, b);
  }

  /** Computes the length first and writes octal escapes only; agrees with the general form. */
  method CEscapeAndAppend(src: seq<Byte>, dest: seq<Byte>) returns (r: seq<Byte>)
    ensures r == dest + Escape(src, false, false, false)
  {
    hide Escape, EscapeByte, AfterHex, Letter;
    var n := CEscapedLength(src);
    if n == |src| {
      NothingEscaped(src);
      return dest + src;
    }
    r := dest;
    EscapeNothing(src[..0]);
    for k := 0 to |src|
      invariant r == dest + Escape(src[..k], false, false, false)
      invariant !AfterHex(src[..k], false, false, false)
    {
      assert src[..k + 1] == src[..k] + [src[k]];
      EscapeSnoc(src[..k], src[k], false, false, false);
      var c := src[k];
      OctalByte(c);
      if Letter(c).Some? {
        r := r + [BACKSLASH, Letter(c).value];
      } else if !IsPrint(c) {
        r := r + [BACKSLASH, ZERO + c / 64, ZERO + c % 64 / 8, ZERO + c % 8];
      } else {
        r := r + [c];
      }
    }
    assert src[..|src|] == src;
    assert |r| == |dest| + n;
  }

  // ---------- unescaping ----------

  /** The byte of an escape that is a single letter. */
  function Unletter(c: Byte): Option<Byte> {
    if c == 97 then Some(7) else if c == 98 then Some(8) else if c == 102 then Some(12)
    else if c == 110 then Some(10) else if c == 114 then Some(13) else if c == 116 then Some(9)
    else if c == 118 then Some(11)
    else if c == BACKSLASH || c == 63 || c == 39 || c == 34 then Some(c)
    else None
  }

  /** How many octal digits the escape has: at most three. */
  function OctalRun(s: seq<Byte>): nat
    requires s != [] && IsOctal(s[0])
  {
    if |s| > 1 && IsOctal(s[1]) then (if |s| > 2 && IsOctal(s[2]) then 3 else 2) else 1
  }

  function OctalDigit(b: Byte): nat
    requires IsOctal(b)
  {
    b - 48
  }

  function OctalValue(s: seq<Byte>, n: nat): nat
    requires n <= |s| && forall i :: 0 <= i < n ==> IsOctal(s[i])
  {
    if n == 0 then 0 else 8 * OctalValue(s, n - 1) + OctalDigit(s[n - 1])
  }

  /** A hex escape takes all digits that follow. */
  function HexRun(s: seq<Byte>): (n: nat)
    ensures n <= |s| && (forall i :: 0 <= i < n ==> IsHex(s[i])) && (n < |s| ==> !IsHex(s[n]))
  {
    if s != [] && IsHex(s[0]) then 1 + HexRun(s[1..]) else 0
  }

  /** The value of the digits in a 32-bit word. */
  function HexNumber(s: seq<Byte>, n: nat): nat
    requires n <= |s| && forall i :: 0 <= i < n ==> IsHex(s[i])
  {
    if n == 0 then 0 else (16 * HexNumber(s, n - 1) + HexValue(s[n - 1])) % 0x1_0000_0000
  }

  /** What an escape stands for and how many bytes it takes; `s` starts at the backslash. */
  function Sequence(s: seq<Byte>): (r: (seq<Byte>, nat))
    requires |s| > 1 && s[0] == BACKSLASH && s[1] != 0
    ensures 2 <= r.1 <= |s|
  {
    var c := s[1];
    if Unletter(c).Some? then ([Unletter(c).value], 2)
    else if IsOctal(c) then
      var n := OctalRun(s[1..]);
      ([OctalValue(s[1..], n) % 256], 1 + n)
    else if c == LOWER_X || c == UPPER_X then
      var n := HexRun(s[2..]);
      (if n == 0 then [] else [HexNumber(s[2..], n) % 256], 2 + n)
    else ([], 2)
  }

  /** A zero byte ends the string. */
  function Unescape(s: seq<Byte>): seq<Byte>
    decreases |s|
  {
    if s == [] || s[0] == 0 then []
    else if s[0] != BACKSLASH then [s[0]] + Unescape(s[1..])
    else if |s| == 1 || s[1] == 0 then []
    else var r := Sequence(s); r.0 + Unescape(s[r.1..])
  }

  lemma {:induction false} UnescapeLength(s: seq<Byte>)
    ensures |Unescape(s)| <= |s|
    decreases |s|
  {
    if s != [] && s[0] != 0 {
      if s[0] != BACKSLASH {
        UnescapeLength(s[1..]);
      } else if |s| > 1 && s[1] != 0 {
        UnescapeLength(s[Sequence(s).1..]);
      }
    }
  }

  lemma {:induction false} HexRunEnds(s: seq<Byte>, n: nat)
    requires n <= |s| && (forall i :: 0 <= i < n ==> IsHex(s[i])) && (n < |s| ==> !IsHex(s[n]))
    ensures HexRun(s) == n
  {
    if n > 0 {
      HexRunEnds(s[1..], n - 1);
    }
  }

  lemma ModStep(v: nat, d: nat)
    ensures (8 * v + d) % 256 == (v % 256 * 8 + d) % 256
  {
    var x, q := v % 256 * 8 + d, v / 256;
    Words.Remainder(8 * v + d, 256, x / 256 + 8 * q, x % 256);
  }

  /** Up to three octal digits, added up in a byte. */
  method ReadOctal(s: seq<Byte>) returns (b: Byte, n: nat)
    requires s != [] && IsOctal(s[0])
    ensures n == OctalRun(s) && b == OctalValue(s, n) % 256
  {
    var ch: int := OctalDigit(s[0]);
    n := 1;
    assert ch == OctalValue(s, 1);
    if n < |s| && IsOctal(s[n]) {
      ModStep(OctalValue(s, 1), OctalDigit(s[1]));
      ch, n := (ch * 8 + OctalDigit(s[n])) % 256, n + 1;
      if n < |s| && IsOctal(s[n]) {
        ModStep(OctalValue(s, 2), OctalDigit(s[2]));
        ch, n := (ch * 8 + OctalDigit(s[n])) % 256, n + 1;
      }
    }
    b := ch;
  }

  /** All hex digits there are, added up in a 32-bit word. */
  method ReadHex(s: seq<Byte>) returns (ch: nat, n: nat)
    ensures n == HexRun(s) && ch == HexNumber(s, n)
  {
    ch, n := 0, 0;
    while n < |s| && IsHex(s[n])
      invariant n <= |s| && forall i :: 0 <= i < n ==> IsHex(s[i])
      invariant ch == HexNumber(s, n)
    {
      ch, n := (16 * ch + HexValue(s[n])) % 0x1_0000_0000, n + 1;
    }
    HexRunEnds(s, n);
  }

  method ReadEscape(s: seq<Byte>) returns (out: seq<Byte>, n: nat)
    requires |s| > 1 && s[0] == BACKSLASH && s[1] != 0
    ensures (out, n) == Sequence(s)
  {
    hide OctalRun, OctalValue, HexRun, HexNumber;
    var c := s[1];
    if Unletter(c).Some? {
      out, n := [Unletter(c).value], 2;
    } else if IsOctal(c) {
      var b, k := ReadOctal(s[1..]);
      out, n := [b], 1 + k;
    } else if c == LOWER_X || c == UPPER_X {
      var ch, k := ReadHex(s[2..]);
      out, n := if k == 0 then [] else [ch % 256], 2 + k;
    } else {
      out, n := [], 2;
    }
  }

  /** The output never needs more room than the input. */
  method UnescapeCEscapeSequences(source: seq<Byte>) returns (dest: seq<Byte>)
    ensures dest == Unescape(source) && |dest| <= |source|
  {
    hide Sequence;
    dest := [];
    var p := 0;
    assert source[0..] == source;
    while p < |source| && source[p] != 0
      invariant p <= |source| && dest + Unescape(source[p..]) == Unescape(source)
      decreases |source| - p
    {
      ghost var rest := source[p..];
      if source[p] != BACKSLASH {
        assert rest[1..] == source[p + 1..];
        dest, p := dest + [source[p]], p + 1;
      } else {
        if p + 1 == |source| || source[p + 1] == 0 {
          break;
        }
        var out, n := ReadEscape(source[p..]);
        assert rest[n..] == source[p + n..];
        dest, p := dest + out, p + n;
      }
    }
    assert Unescape(source[p..]) == [];
    UnescapeLength(source);
  }

  // ---------- in place ----------

  /** An escape stands for at most one byte and has no zero byte in it. */
  lemma SequenceFits(s: seq<Byte>)
    requires |s| > 1 && s[0] == BACKSLASH && s[1] != 0
    ensures |Sequence(s).0| <= 1 && forall k :: 0 <= k < Sequence(s).1 ==> s[k] != 0
  {
    hide OctalValue, HexNumber, HexRun;
    forall k | 2 <= k < Sequence(s).1 ensures s[k] != 0 {
      if IsOctal(s[1]) {
        assert s[k] == s[1..][k - 1];
      } else {
        assert s[k] == s[2..][k - 2];
      }
    }
  }

  lemma UnescapeAt(s: seq<Byte>, p: nat)
    requires p < |s|
    ensures s[p] == 0 ==> Unescape(s[p..]) == []
    ensures s[p] != 0 && s[p] != BACKSLASH ==> Unescape(s[p..]) == [s[p]] + Unescape(s[p + 1..])
    ensures s[p] == BACKSLASH && (p + 1 == |s| || s[p + 1] == 0) ==> Unescape(s[p..]) == []
    ensures s[p] == BACKSLASH && p + 1 < |s| && s[p + 1] != 0 ==>
      var r := Sequence(s[p..]); p + r.1 <= |s| && Unescape(s[p..]) == r.0 + Unescape(s[p + r.1..])
  {
    hide Sequence;
    assert s[p..][1..] == s[p + 1..];
    if s[p] == BACKSLASH && p + 1 < |s| && s[p + 1] != 0 {
      assert s[p..][Sequence(s[p..]).1..] == s[p + Sequence(s[p..]).1..];
    }
  }

  lemma {:induction false} HexNumberAgrees(a: seq<Byte>, b: seq<Byte>, n: nat)
    requires n <= |a| && n <= |b| && (forall i :: 0 <= i < n ==> IsHex(a[i]) && b[i] == a[i])
    ensures HexNumber(a, n) == HexNumber(b, n)
  {
    if n > 0 {
      HexNumberAgrees(a, b, n - 1);
    }
  }

  lemma {:induction false} OctalValueAgrees(a: seq<Byte>, b: seq<Byte>, n: nat)
    requires n <= |a| && n <= |b| && (forall i :: 0 <= i < n ==> IsOctal(a[i]) && b[i] == a[i])
    ensures OctalValue(a, n) == OctalValue(b, n)
  {
    if n > 0 {
      OctalValueAgrees(a, b, n - 1);
    }
  }

  /** An escape does not depend on what follows a zero byte. */
  lemma SequenceStops(a: seq<Byte>, z: nat)
    requires 2 <= z < |a| && a[0] == BACKSLASH && a[z] == 0 && forall k :: 0 <= k < z ==> a[k] != 0
    ensures Sequence(a) == Sequence(a[..z])
  {
    hide OctalValue, HexNumber, HexRun;
    var b := a[..z];
    if Unletter(a[1]).None? {
      if IsOctal(a[1]) {
        assert b[1..] == a[1..][..z - 1];
        OctalValueAgrees(a[1..], b[1..], OctalRun(b[1..]));
      } else if a[1] == LOWER_X || a[1] == UPPER_X {
        assert b[2..] == a[2..][..z - 2];
        HexRunEnds(a[2..], HexRun(b[2..]));
        HexNumberAgrees(a[2..], b[2..], HexRun(b[2..]));
      }
    }
  }

  /** Nor does the unescaped string. */
  lemma {:induction false} UnescapeStops(s: seq<Byte>, p: nat, z: nat)
    requires p <= z < |s| && s[z] == 0 && forall k :: 0 <= k < z ==> s[k] != 0
    ensures Unescape(s[p..]) == Unescape(s[p..z])
    decreases z - p
  {
    hide Unescape, Sequence;
    UnescapeAt(s, p);
    var t := s[..z];
    assert t[p..] == s[p..z];
    if p == z {
      UnescapeNothing(t[p..]);
    } else {
      UnescapeAt(t, p);
      if s[p] != BACKSLASH {
        UnescapeStops(s, p + 1, z);
        assert t[p + 1..] == s[p + 1..z];
      } else if p + 1 < z {
        assert s[p..][..z - p] == t[p..];
        SequenceStops(s[p..], z - p);
        var m := Sequence(s[p..]).1;
        UnescapeStops(s, p + m, z);
        assert t[p + m..] == s[p + m..z];
      }
    }
  }

  lemma UnescapeNothing(s: seq<Byte>)
    requires s == []
    ensures Unescape(s) == []
  {
  }

  /** `done` bytes of output are in front, and the input from `p` on is as it was. */
  ghost predicate Progress(before: seq<Byte>, now: seq<Byte>, p: nat, done: nat) {
    && |now| == |before| && done <= p <= |now| && now[p..] == before[p..]
    && now[..done] + Unescape(before[p..]) == Unescape(before)
  }

  /** The step writes at most one byte, behind the output and before what is still to be read. */
  lemma ProgressStep(before: seq<Byte>, now: seq<Byte>, p: nat, done: nat, out: seq<Byte>, p': nat)
    requires Progress(before, now, p, done) && p < p' <= |now| && |out| <= 1
    requires Unescape(before[p..]) == out + Unescape(before[p'..])
    ensures out == [] ==> Progress(before, now, p', done)
    ensures out != [] ==> Progress(before, now[done := out[0]], p', done + 1)
  {
    hide Unescape;
    assert now[p'..] == now[p..][p' - p..] == before[p..][p' - p..] == before[p'..];
    if out != [] {
      var now' := now[done := out[0]];
      assert now'[p'..] == now[p'..] && now'[..done + 1] == now[..done] + out;
    } else {
      assert now[..done] + (out + Unescape(before[p'..])) == now[..done] + Unescape(before[p'..]);
    }
  }

  /** With source and destination the same buffer, which holds a string that ends in a zero
      byte: the output never overtakes the input, nothing behind the old end is written or
      matters, and the buffer holds the unescaped string in the end. */
  method UnescapeInPlace(buffer: array<Byte>, ghost z: nat) returns (n: nat)
    requires z < buffer.Length && buffer[z] == 0 && forall k :: 0 <= k < z ==> buffer[k] != 0
    modifies buffer
    ensures n <= z && buffer[..n] == Unescape(old(buffer[..z])) && buffer[n] == 0
    ensures forall k :: z < k < buffer.Length ==> buffer[k] == old(buffer[k])
  {
    hide Unescape, Sequence, Progress;
    ghost var s := buffer[..];
    var p, d := 0, 0;
    ProgressStarts(s);
    while buffer[p] != 0 && buffer[p] != BACKSLASH
      invariant d == p <= z && buffer[..] == s && Progress(s, buffer[..], p, d)
      decreases z - p
    {
      UnescapeAt(s, p);
      ProgressStep(s, s, p, d, [s[p]], p + 1);
      assert s[d := s[p]] == s;
      p, d := p + 1, d + 1;
    }
    while buffer[p] != 0
      invariant d <= p <= z && Progress(s, buffer[..], p, d)
      invariant forall k :: p <= k < buffer.Length ==> buffer[k] == s[k]
      decreases z - p
    {
      UnescapeAt(s, p);
      if buffer[p] != BACKSLASH {
        ProgressStep(s, buffer[..], p, d, [s[p]], p + 1);
        ghost var now := buffer[..];
        buffer[d] := buffer[p];
        assert buffer[..] == now[d := s[p]];
        p, d := p + 1, d + 1;
      } else {
        if buffer[p + 1] == 0 {
          break;
        }
        assert buffer[p..] == s[p..];
        SequenceFits(s[p..]);
        var out, m := ReadEscape(buffer[p..]);
        StaysBeforeEnd(s, p, m, z);
        ProgressStep(s, buffer[..], p, d, out, p + m);
        ghost var now := buffer[..];
        if out != [] {
          buffer[d] := out[0];
          assert buffer[..] == now[d := out[0]];
          d := d + 1;
        }
        p := p + m;
      }
    }
    UnescapeAt(s, p);
    ProgressEnds(s, buffer[..], p, d);
    UnescapeStops(s, 0, z);
    assert s[0..] == s && s[0..z] == s[..z];
    ghost var now := buffer[..];
    buffer[d] := 0;
    assert buffer[..d] == now[..d];
    n := d;
  }

  lemma ProgressStarts(s: seq<Byte>)
    ensures Progress(s, s, 0, 0)
  {
    assert s[0..] == s && s[..0] + Unescape(s) == Unescape(s);
  }

  lemma ProgressEnds(before: seq<Byte>, now: seq<Byte>, p: nat, done: nat)
    requires Progress(before, now, p, done) && Unescape(before[p..]) == []
    ensures now[..done] == Unescape(before)
  {
    assert now[..done] + [] == now[..done];
  }

  lemma StaysBeforeEnd(s: seq<Byte>, p: nat, m: nat, z: nat)
    requires p < z < |s| && s[z] == 0 && p + m <= |s| && forall k :: 0 <= k < m ==> s[p..][k] != 0
    ensures p + m <= z
  {
    assert s[p..][z - p] == s[z];
  }

  // ---------- the round trip ----------

  lemma {:induction false} NoHexAfterHex(src: seq<Byte>, useHex: bool, utf8Safe: bool)
    requires Escape(src, true, useHex, utf8Safe) != []
    ensures !IsHex(Escape(src, true, useHex, utf8Safe)[0])
  {
    var b := src[0];
    assert Escape(src, true, useHex, utf8Safe)[0] == EscapeByte(b, true, useHex, utf8Safe)[0];
  }

  /** One escaped byte is read back as that byte, whatever may follow it. */
  lemma UnescapeByte(b: Byte, afterHex: bool, useHex: bool, utf8Safe: bool, tail: seq<Byte>)
    requires useHex && Numeric(b, afterHex, utf8Safe) && tail != [] ==> !IsHex(tail[0])
    ensures Unescape(EscapeByte(b, afterHex, useHex, utf8Safe) + tail) == [b] + Unescape(tail)
  {
    hide HexDigit, HexRun, HexNumber, OctalRun, OctalValue;
    var e := EscapeByte(b, afterHex, useHex, utf8Safe);
    var s := e + tail;
    if |e| == 1 {
      assert s[1..] == tail;
    } else if Letter(b).Some? {
      assert Sequence(s) == ([b], 2);
      assert s[2..] == tail;
    } else if useHex {
      HexEscape(b, s, tail);
      assert s[4..] == tail;
    } else {
      OctalEscape(b, s, tail);
      assert s[4..] == tail;
    }
  }

  lemma HexEscape(b: Byte, s: seq<Byte>, tail: seq<Byte>)
    requires s == [BACKSLASH, LOWER_X, HexDigit(b / 16), HexDigit(b % 16)] + tail && (tail != [] ==> !IsHex(tail[0]))
    ensures Sequence(s) == ([b], 4)
  {
    var t := s[2..];
    assert t[1..][1..] == tail;
    assert HexRun(t) == 2;
    assert HexNumber(t, 1) == b / 16;
    assert HexNumber(t, 2) == b;
  }

  lemma OctalEscape(b: Byte, s: seq<Byte>, tail: seq<Byte>)
    requires s == [BACKSLASH, ZERO + b / 64, ZERO + b / 8 % 8, ZERO + b % 8] + tail
    ensures Sequence(s) == ([b], 4)
  {
    var t := s[1..];
    assert OctalRun(t) == 3;
    assert OctalValue(t, 1) == b / 64;
    assert OctalValue(t, 2) == b / 8;
    assert OctalValue(t, 3) == b;
  }

  /** Unescaping undoes every way of escaping, for every byte string. */
  lemma {:induction false} RoundTrip(src: seq<Byte>, afterHex: bool, useHex: bool, utf8Safe: bool)
    ensures Unescape(Escape(src, afterHex, useHex, utf8Safe)) == src
  {
    if src != [] {
      var b := src[0];
      var next := useHex && Numeric(b, afterHex, utf8Safe);
      var tail := Escape(src[1..], next, useHex, utf8Safe);
      RoundTrip(src[1..], next, useHex, utf8Safe);
      if next && tail != [] {
        NoHexAfterHex(src[1..], useHex, utf8Safe);
      }
      UnescapeByte(b, afterHex, useHex, utf8Safe, tail);
      assert src == [b] + src[1..];
    }
  }
}
