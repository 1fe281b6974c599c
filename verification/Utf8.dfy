/** The UTF-8 encoder of src/common.h and the permissive decoder and clip of src/sessions/CommandBlocks.cpp.
  *
  * Bit operations are written as the arithmetic they amount to: bits are only ever or-ed into places that hold zeros,
  * or into the top nibble of ones of a four-byte lead.
  */
module Utf8 {
  import opened Bits

  type CodePoint = c: nat | c < 0x1_0000_0000

  const REPLACEMENT: CodePoint := 0xFFFD
  const ELLIPSIS: CodePoint := 0x2026

  /** 0x80 | (x & 0x3F) */
  function Continuation(x: nat): Byte {
    0x80 + x % 64
  }

  /** The cast to char keeps the low eight bits of a lead, so a lead of a code point too large for four bytes wraps. */
  function Encoded(cp: CodePoint): Bytes {
    if cp < 0x80 then [cp]
    else if cp < 0x800 then [0xC0 + cp / 64, Continuation(cp)]
    else if cp < 0x10000 then [0xE0 + cp / 4096, Continuation(cp / 64), Continuation(cp)]
    else [0xF0 + cp / 0x40000 % 16, Continuation(cp / 4096), Continuation(cp / 64), Continuation(cp)]
  }

  function EncodedAll(cps: seq<CodePoint>): Bytes {
    if cps == [] then [] else Encoded(cps[0]) + EncodedAll(cps[1..])
  }

  /** How many bytes the lead byte announces; none for a stray continuation byte. */
  function Announced(b: Byte): nat {
    if b >= 0xF0 then 4 else if b >= 0xE0 then 3 else if b >= 0xC0 then 2 else if b >= 0x80 then 0 else 1
  }

  function LeadBits(b: Byte): CodePoint {
    if b >= 0xF0 then b % 8 else if b >= 0xE0 then b % 16 else if b >= 0xC0 then b % 32 else b
  }

  predicate IsContinuation(b: Byte) {
    0x80 <= b < 0xC0
  }

  /** Folds the bytes numbered `k` to `n - 1` of `s` into `cp`. A byte that is not a continuation ends the character
    * there as a replacement. The second result is how many bytes were used. */
  function Fold(s: Bytes, k: nat, n: nat, cp: nat): (nat, nat)
    requires 1 <= k <= n <= |s|
    decreases n - k
  {
    if k == n then (cp, n)
    else if !IsContinuation(s[k]) then (REPLACEMENT, k)
    else Fold(s, k + 1, n, cp * 64 + s[k] % 64)
  }

  lemma {:induction false} FoldRange(s: Bytes, k: nat, n: nat, cp: nat)
    requires 1 <= k <= n <= |s|
    ensures k <= Fold(s, k, n, cp).1 <= n
    decreases n - k
  {
    if k < n && IsContinuation(s[k]) {
      FoldRange(s, k + 1, n, cp * 64 + s[k] % 64);
    }
  }

  /** The character at the front of the text and the bytes it takes; a truncated one takes all that is left. */
  function First(s: Bytes): (r: (CodePoint, nat))
    requires s != []
    ensures 1 <= r.1 <= |s| && r.0 < 0x200000
  {
    var n := Announced(s[0]);
    if n == 0 then (REPLACEMENT, 1)
    else if |s| < n then (REPLACEMENT, |s|)
    else
      FoldRange(s, 1, n, LeadBits(s[0]));
      FoldBounded(s, n);
      Fold(s, 1, n, LeadBits(s[0]))
  }

  lemma FoldBounded(s: Bytes, n: nat)
    requires s != [] && n == Announced(s[0]) && 1 <= n <= |s|
    ensures Fold(s, 1, n, LeadBits(s[0])).0 < 0x200000
  {
    if n >= 2 && IsContinuation(s[1]) {
      var c1 := LeadBits(s[0]) * 64 + s[1] % 64;
      assert Fold(s, 1, n, LeadBits(s[0])) == Fold(s, 2, n, c1);
      if n >= 3 && IsContinuation(s[2]) {
        var c2 := c1 * 64 + s[2] % 64;
        assert Fold(s, 2, n, c1) == Fold(s, 3, n, c2);
        if n == 4 && IsContinuation(s[3]) {
          assert Fold(s, 3, n, c2) == Fold(s, 4, n, c2 * 64 + s[3] % 64);
        }
      }
    }
  }

  function Decoded(s: Bytes): seq<CodePoint> {
    if s == [] then [] else [First(s).0] + Decoded(s[First(s).1..])
  }

  method AppendUtf8(out: Bytes, cp: CodePoint) returns (r: Bytes)
    ensures r == out + Encoded(cp)
  {
    if cp < 0x80 {
      r := out + [cp];
    } else if cp < 0x800 {
      r := out + [0xC0 + cp / 64] + [Continuation(cp)];
    } else if cp < 0x10000 {
      r := out + [0xE0 + cp / 4096] + [Continuation(cp / 64)] + [Continuation(cp)];
    } else {
      r := out + [0xF0 + cp / 0x40000 % 16] + [Continuation(cp / 4096)] + [Continuation(cp / 64)] + [Continuation(cp)];
    }
  }

  method AppendUtf32(out: seq<CodePoint>, utf8: Bytes) returns (r: seq<CodePoint>)
    ensures r == out + Decoded(utf8)
  {
    hide First;
    r := out;
    var i := 0;
    while i < |utf8|
      invariant 0 <= i <= |utf8| && r + Decoded(utf8[i..]) == out + Decoded(utf8)
      decreases |utf8| - i
    {
      var cp, used := Next(utf8, i);
      assert utf8[i..][used..] == utf8[i + used..];
      assert r + ([cp] + Decoded(utf8[i + used..])) == r + [cp] + Decoded(utf8[i + used..]);
      r := r + [cp];
      i := i + used;
    }
    assert utf8[i..] == [] && r + [] == r;
  }

  /** One turn of the decoder's loop. */
  method Next(utf8: Bytes, i: nat) returns (cp: CodePoint, used: nat)
    requires i < |utf8|
    ensures (cp, used) == First(utf8[i..])
  {
    ghost var s := utf8[i..];
    var b0 := utf8[i];
    var n := 1;
    var acc: nat := b0;
    if b0 >= 0xF0 {
      acc, n := b0 % 8, 4;
    } else if b0 >= 0xE0 {
      acc, n := b0 % 16, 3;
    } else if b0 >= 0xC0 {
      acc, n := b0 % 32, 2;
    } else if b0 >= 0x80 {
      return REPLACEMENT, 1;
    }
    if i + n > |utf8| {
      return REPLACEMENT, |utf8| - i;
    }
    var k := 1;
    while k < n
      invariant 1 <= k <= n <= |s|
      invariant Fold(s, 1, Announced(b0), LeadBits(b0)) == Fold(s, k, n, acc)
    {
      var bk := utf8[i + k];
      assert bk == s[k];
      if !(0x80 <= bk < 0xC0) {
        acc := REPLACEMENT;
        n := k;
        break;
      }
      acc := acc * 64 + bk % 64;
      k := k + 1;
    }
    assert (acc, n) == First(s);
    return acc, n;
  }

  // ---- text that is not well formed -----------------------------------------------------------------------------

  /** A stray continuation byte is one replacement, and reading goes on behind it. */
  lemma StrayByte(b: Byte, rest: Bytes)
    requires 0x80 <= b < 0xC0
    ensures Decoded([b] + rest) == [0xFFFD] + Decoded(rest)
  {
    assert ([b] + rest)[1..] == rest;
  }

  /** A lead byte with its continuation bytes is read as the bits they carry, also when fewer bytes would have done. */
  lemma BitsAreRead(x: nat, y: nat, rest: Bytes)
    requires x < 32 && y < 64
    ensures First([0xC0 + x, 0x80 + y] + rest) == (64 * x + y, 2)
  {
    hide Fold;
    var s: Bytes := [0xC0 + x, 0x80 + y] + rest;
    FoldStep(s, 1, 2, x);
    FoldDone(s, 2, 64 * x + y);
  }

  /** How many bytes the encoder gives a character that begins with this byte. */
  function LengthOf(lead: Byte): nat {
    if lead < 0x80 then 1 else if lead < 0xE0 then 2 else if lead < 0xF0 then 3 else 4
  }

  /** A character cut short, with something else than a continuation byte behind it: it is one replacement, and reading
    * goes on there; unless less is left than its length, and then the replacement swallows all that is left. */
  lemma CutShortIff(part: Bytes, rest: Bytes)
    requires 0 < |part| < LengthOf(part[0]) && 0xC0 <= part[0] && rest != [] && !(0x80 <= rest[0] < 0xC0)
    requires forall i :: 1 <= i < |part| ==> 0x80 <= part[i] < 0xC0
    ensures Decoded(part + rest) == [0xFFFD] + if LengthOf(part[0]) <= |part| + |rest| then Decoded(rest) else []
  {
    hide Fold;
    var s := part + rest;
    if LengthOf(part[0]) <= |s| {
      StopsAt(s, 1, |part|, LengthOf(part[0]), LeadBits(part[0]));
      assert s[|part|..] == rest;
    }
  }

  /** Two letters behind the first byte of a four-byte character are lost with it. */
  lemma LettersAreSwallowed()
    ensures Decoded([0xF0, 'a' as int, 'b' as int]) == [0xFFFD]
  {
    CutShortIff([0xF0], ['a' as int, 'b' as int]);
    assert [0xF0] + ['a' as int, 'b' as int] == [0xF0, 'a' as int, 'b' as int];
  }

  lemma {:induction false} StopsAt(s: Bytes, k: nat, at: nat, n: nat, cp: nat)
    requires 1 <= k <= at < n <= |s| && !(0x80 <= s[at] < 0xC0) && forall i :: k <= i < at ==> 0x80 <= s[i] < 0xC0
    ensures Fold(s, k, n, cp) == (REPLACEMENT, at)
    decreases at - k
  {
    if k < at {
      StopsAt(s, k + 1, at, n, cp * 64 + s[k] % 64);
    }
  }

  // ---- decoding undoes encoding ---------------------------------------------------------------------------------

  lemma FoldStep(s: Bytes, k: nat, n: nat, cp: nat)
    requires 1 <= k < n <= |s| && IsContinuation(s[k])
    ensures Fold(s, k, n, cp) == Fold(s, k + 1, n, cp * 64 + s[k] % 64)
  {}

  lemma FoldDone(s: Bytes, n: nat, cp: nat)
    requires 1 <= n <= |s|
    ensures Fold(s, n, n, cp) == (cp, n)
  {}

  lemma ContinuationBits(x: nat)
    ensures IsContinuation(Continuation(x)) && Continuation(x) % 64 == x % 64
  {}

  lemma FirstOfTwo(cp: CodePoint, rest: Bytes)
    requires 0x80 <= cp < 0x800
    ensures First(Encoded(cp) + rest) == (cp, 2)
  {
    hide Fold, Continuation, IsContinuation;
    var s := Encoded(cp) + rest;
    ContinuationBits(cp);
    FoldStep(s, 1, 2, cp / 64);
    FoldDone(s, 2, cp);
  }

  lemma FirstOfThree(cp: CodePoint, rest: Bytes)
    requires 0x800 <= cp < 0x10000
    ensures First(Encoded(cp) + rest) == (cp, 3)
  {
    hide Fold, Continuation, IsContinuation;
    var s := Encoded(cp) + rest;
    ContinuationBits(cp);
    ContinuationBits(cp / 64);
    FoldStep(s, 1, 3, cp / 4096);
    FoldStep(s, 2, 3, cp / 64);
    FoldDone(s, 3, cp);
  }

  /** The low 21 bits of a code point, in the groups a four-byte character carries them. */
  lemma FourDigits(cp: CodePoint)
    ensures var low := cp % 0x200000;
      && (0xF0 + cp / 0x40000 % 16) % 8 == low / 0x40000
      && low / 0x40000 * 64 + cp / 4096 % 64 == low / 4096
      && low / 4096 * 64 + cp / 64 % 64 == low / 64
      && low / 64 * 64 + cp % 64 == low
  {
    var h, low := cp / 0x200000, cp % 0x200000;
    assert cp == 0x200000 * h + low;
    HighPart(h, low);
    Groups(low);
    TopBits(h, low / 0x40000);
    LowBits(8 * h, low / 4096);
    LowBits(512 * h, low / 64);
    LowBits(32768 * h, low);
  }

  lemma TopBits(h: nat, t: nat)
    requires t < 8
    ensures (0xF0 + (8 * h + t) % 16) % 8 == t
  {}

  lemma LowBits(h: nat, x: nat)
    ensures (64 * h + x) % 64 == x % 64
  {}

  lemma HighPart(h: nat, low: nat)
    requires low < 0x200000
    ensures (0x200000 * h + low) / 0x40000 == 8 * h + low / 0x40000
    ensures (0x200000 * h + low) / 4096 == 512 * h + low / 4096
    ensures (0x200000 * h + low) / 64 == 32768 * h + low / 64
  {}

  lemma Groups(low: nat)
    requires low < 0x200000
    ensures low / 0x40000 < 8
    ensures low / 0x40000 * 64 + low / 4096 % 64 == low / 4096
    ensures low / 4096 * 64 + low / 64 % 64 == low / 64
    ensures low / 64 * 64 + low % 64 == low
  {}

  lemma FirstOfFour(cp: CodePoint, rest: Bytes)
    requires 0x10000 <= cp
    ensures First(Encoded(cp) + rest) == (cp % 0x200000, 4)
  {
    hide Fold, Continuation, IsContinuation;
    var s := Encoded(cp) + rest;
    var low := cp % 0x200000;
    ContinuationBits(cp);
    ContinuationBits(cp / 64);
    ContinuationBits(cp / 4096);
    FourDigits(cp);
    FoldStep(s, 1, 4, low / 0x40000);
    FoldStep(s, 2, 4, low / 4096);
    FoldStep(s, 3, 4, low / 64);
    FoldDone(s, 4, low);
  }

  /** A character read back from its encoding is itself modulo 2^21, whatever follows it. */
  lemma FirstOfEncoded(cp: CodePoint, rest: Bytes)
    ensures First(Encoded(cp) + rest) == (cp % 0x200000, |Encoded(cp)|)
  {
    if cp < 0x80 {
      FoldDone(Encoded(cp) + rest, 1, cp);
    } else {
      hide First;
      if cp < 0x800 {
        FirstOfTwo(cp, rest);
      } else if cp < 0x10000 {
        FirstOfThree(cp, rest);
      } else {
        FirstOfFour(cp, rest);
      }
    }
  }

  /** Decoding undoes encoding for every sequence of code points below 2^21, so for all of Unicode, and reads an encoded
    * prefix the same whatever bytes come after it. */
  lemma {:induction false} DecodeUndoesEncode(cps: seq<CodePoint>, rest: Bytes)
    requires forall c :: c in cps ==> c < 0x200000
    ensures Decoded(EncodedAll(cps) + rest) == cps + Decoded(rest)
    decreases |cps|
  {
    hide First, Encoded, Decoded;
    if cps == [] {
      assert EncodedAll(cps) + rest == rest && cps + Decoded(rest) == Decoded(rest);
    } else {
      var tail := EncodedAll(cps[1..]) + rest;
      assert EncodedAll(cps) + rest == Encoded(cps[0]) + tail;
      assert cps[0] in cps;
      OneDecoded(cps[0], tail);
      assert cps[0] in cps && forall c :: c in cps[1..] ==> c in cps;
      DecodeUndoesEncode(cps[1..], rest);
      assert [cps[0]] + (cps[1..] + Decoded(rest)) == cps + Decoded(rest);
    }
  }

  lemma OneDecoded(cp: CodePoint, tail: Bytes)
    requires cp < 0x200000
    ensures Decoded(Encoded(cp) + tail) == [cp] + Decoded(tail)
  {
    hide First, Encoded;
    FirstOfEncoded(cp, tail);
    EncodedNotEmpty(cp);
    assert (Encoded(cp) + tail)[|Encoded(cp)|..] == tail;
  }

  lemma EncodedNotEmpty(cp: CodePoint)
    ensures Encoded(cp) != []
  {}

  /** The encoder accepts any 32-bit value; exactly those below 2^21 come back. */
  lemma RoundTripIff(cp: CodePoint)
    ensures Decoded(Encoded(cp)) == [cp] <==> cp < 0x200000
  {
    hide First, Encoded;
    var s := Encoded(cp);
    FirstOfEncoded(cp, []);
    EncodedNotEmpty(cp);
    assert s + [] == s && s[|s|..] == [];
    assert Decoded(s) == [cp % 0x200000];
    assert Decoded(s) == [cp] ==> Decoded(s)[0] == cp;
  }

  /** On any bytes at all the decoder gives at most one code point a byte, at least one unless there are none, and only
    * values that fit four bytes. */
  lemma {:induction false} DecodedSize(s: Bytes)
    ensures |Decoded(s)| <= |s| && (s != [] ==> Decoded(s) != [])
    ensures forall c :: c in Decoded(s) ==> c < 0x200000
  {
    hide First;
    if s != [] {
      DecodedSize(s[First(s).1..]);
    }
  }

  // ---- clipping -------------------------------------------------------------------------------------------------

  method Clip(s: seq<CodePoint>, maxCp: nat) returns (r: seq<CodePoint>)
    ensures |s| <= maxCp ==> r == s
    ensures |s| > maxCp ==> |r| == (if maxCp == 0 then 1 else maxCp) && r[|r| - 1] == ELLIPSIS && r[..|r| - 1] <= s
    ensures |r| <= maxCp <==> maxCp != 0 || s == []
  {
    r := s;
    if |r| <= maxCp {
      return;
    }
    r := r[..if maxCp > 0 then maxCp - 1 else 0];
    r := r + [ELLIPSIS];
  }
}
