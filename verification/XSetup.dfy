/** Rewriting the X11 connection-setup packet as it streams in (src/remote/XAuth.cpp, RewriteSetup).
  *
  * `Rewrite` follows the code on raw bytes. `Packet` is the setup message of the X Window System Protocol, chapter 8,
  * as a value, and `PacketBytes` writes it down in either byte order; the decision is then read off the packet.
  */
module XSetup {
  import opened Bits
  import opened XAuth

  datatype Verdict = NeedMore | Rewritten(out: Bytes) | Rejected

  function Pad4(n: nat): nat {
    (n + 3) / 4 * 4
  }

  function U16At(big: bool, data: Bytes, off: nat): nat
    requires off + 2 <= |data|
  {
    var a: nat, b: nat := data[off], data[off + 1];
    if big then a * 256 + b else b * 256 + a
  }

  datatype Header = Header(bigEndian: bool, major: nat, minor: nat, nameLen: nat, dataLen: nat, total: nat, valid: bool)

  const NO_HEADER := Header(false, 0, 0, 0, 0, 0, false)
  const BIG: Byte := 0x42
  const LITTLE: Byte := 0x6C

  function ParseSetupHeader(data: Bytes): Header {
    if |data| < 12 then NO_HEADER
    else if data[0] != BIG && data[0] != LITTLE then NO_HEADER
    else
      var big := data[0] == BIG;
      var n, d := U16At(big, data, 6), U16At(big, data, 8);
      Header(big, U16At(big, data, 2), U16At(big, data, 4), n, d, 12 + Pad4(n) + Pad4(d), true)
  }

  /** The code copies sixteen bytes over the cookie field, so its caller's own cookie must be that long when a real one
    * is to be put in. */
  function Rewrite(input: Bytes, expectFake: Bytes, realCookie: Bytes): Verdict
    requires |realCookie| == COOKIE_BYTES ==> |expectFake| == COOKIE_BYTES
  {
    var h := ParseSetupHeader(input);
    if !h.valid then if |input| < 12 then NeedMore else Rejected
    else if |input| < h.total then NeedMore
    else
      var dataAt := 12 + Pad4(h.nameLen);
      if input[12..12 + h.nameLen] != MIT_MAGIC_COOKIE then Rejected
      else if h.dataLen != |expectFake| || expectFake == [] then Rejected
      else if input[dataAt..dataAt + h.dataLen] != expectFake then Rejected
      else if realCookie == [] then Rewritten(input)
      else if |realCookie| != COOKIE_BYTES then Rejected
      else Rewritten(input[..dataAt] + realCookie + input[dataAt + COOKIE_BYTES..])
  }

  method RewriteSetup(input: Bytes, expectFake: Bytes, realCookie: Bytes) returns (v: Verdict)
    requires |realCookie| == COOKIE_BYTES ==> |expectFake| == COOKIE_BYTES
    ensures v == Rewrite(input, expectFake, realCookie)
  {
    var h := ParseSetupHeader(input);
    if !h.valid {
      return if |input| < 12 then NeedMore else Rejected;
    }
    if |input| < h.total {
      return NeedMore;
    }
    var nameAt := 12;
    var dataAt := nameAt + Pad4(h.nameLen);
    if input[nameAt..nameAt + h.nameLen] != MIT_MAGIC_COOKIE {
      return Rejected;
    }
    if h.dataLen != |expectFake| || expectFake == [] {
      return Rejected;
    }
    var same := CookieEqual(input[dataAt..dataAt + h.dataLen], expectFake);
    if !same {
      return Rejected;
    }
    if realCookie == [] {
      return Rewritten(input);
    }
    if |realCookie| != COOKIE_BYTES {
      return Rejected;
    }
    var out := input;
    for i := 0 to COOKIE_BYTES
      invariant out == input[..dataAt] + realCookie[..i] + input[dataAt + i..]
    {
      out := out[dataAt + i := realCookie[i]];
    }
    return Rewritten(out);
  }

  // ---- the packet -----------------------------------------------------------------------------------------------

  /** The unused bytes and the padding may hold anything. */
  datatype Packet = Packet(bigEndian: bool, unused: Byte, major: nat, minor: nat, name: Bytes, cookie: Bytes,
                           unused10: Byte, unused11: Byte, namePad: Bytes, cookiePad: Bytes)

  predicate PacketOk(p: Packet) {
    && p.major < 0x10000 && p.minor < 0x10000 && |p.name| < 0x10000 && |p.cookie| < 0x10000
    && |p.name| + |p.namePad| == Pad4(|p.name|) && |p.cookie| + |p.cookiePad| == Pad4(|p.cookie|)
  }

  lemma Pad4IsLeast(n: nat)
    ensures Pad4(n) % 4 == 0 && n <= Pad4(n) < n + 4
  {}

  /** A packet is well formed exactly when its fields fit sixteen bits and each part is padded to a whole number of four
    * bytes. */
  lemma PacketOkIff(p: Packet)
    ensures PacketOk(p) <==>
            && p.major < 0x10000 && p.minor < 0x10000 && |p.name| < 0x10000 && |p.cookie| < 0x10000
            && |p.namePad| == (4 - |p.name| % 4) % 4 && |p.cookiePad| == (4 - |p.cookie| % 4) % 4
  {}

  function N16(big: bool, n: nat): Bytes
    requires n < 0x10000
  {
    if big then [n / 256, n % 256] else [n % 256, n / 256]
  }

  function HeaderBytes(p: Packet): Bytes
    requires PacketOk(p)
  {
    [if p.bigEndian then BIG else LITTLE, p.unused] + N16(p.bigEndian, p.major) + N16(p.bigEndian, p.minor)
    + N16(p.bigEndian, |p.name|) + N16(p.bigEndian, |p.cookie|) + [p.unused10, p.unused11]
  }

  function PacketBytes(p: Packet): Bytes
    requires PacketOk(p)
  {
    HeaderBytes(p) + (p.name + (p.namePad + (p.cookie + p.cookiePad)))
  }

  lemma HeaderParses(p: Packet, rest: Bytes)
    requires PacketOk(p)
    ensures |HeaderBytes(p)| == 12
    ensures ParseSetupHeader(HeaderBytes(p) + rest)
            == Header(p.bigEndian, p.major, p.minor, |p.name|, |p.cookie|, 12 + Pad4(|p.name|) + Pad4(|p.cookie|), true)
  {
    var d := HeaderBytes(p) + rest;
    N16Reads(p.bigEndian, p.major, d, 2);
    N16Reads(p.bigEndian, p.minor, d, 4);
    N16Reads(p.bigEndian, |p.name|, d, 6);
    N16Reads(p.bigEndian, |p.cookie|, d, 8);
  }

  lemma N16Reads(big: bool, n: nat, d: Bytes, off: nat)
    requires n < 0x10000 && off + 2 <= |d|
    ensures d[off..off + 2] == N16(big, n) ==> U16At(big, d, off) == n
  {
    assert d[off..off + 2][0] == d[off] && d[off..off + 2][1] == d[off + 1];
  }

  lemma Slice(s: Bytes, from: nat, t: Bytes, u: Bytes)
    requires from <= |s| && s[from..] == t + u
    ensures from + |t| <= |s| && s[from..from + |t|] == t && s[from + |t|..] == u
  {
    assert s[from..from + |t|] == s[from..][..|t|];
    assert s[from + |t|..] == s[from..][|t|..];
  }

  /** The name, and everything from the cookie on, sit where the header says. */
  lemma PacketLayout(p: Packet, more: Bytes)
    requires PacketOk(p)
    ensures var b := PacketBytes(p) + more;
      var dataAt := 12 + Pad4(|p.name|);
      && |PacketBytes(p)| == dataAt + Pad4(|p.cookie|)
      && b == HeaderBytes(p) + b[12..]
      && b[12..12 + |p.name|] == p.name
      && b[dataAt..dataAt + |p.cookie|] == p.cookie
      && b[dataAt + |p.cookie|..] == p.cookiePad + more
  {
    hide HeaderBytes, Pad4;
    HeaderParses(p, []);
    FiveSlices(HeaderBytes(p), p.name, p.namePad, p.cookie, p.cookiePad, more);
  }

  lemma FiveSlices(h: Bytes, n: Bytes, m: Bytes, c: Bytes, d: Bytes, more: Bytes)
    ensures var b := (h + (n + (m + (c + d)))) + more;
      var at := |h| + |n| + |m|;
      && |b| == at + |c| + |d| + |more| && b == h + b[|h|..] && b[|h|..|h| + |n|] == n
      && b[at..at + |c|] == c && b[at + |c|..] == d + more
  {
    var b := (h + (n + (m + (c + d)))) + more;
    Regroup(h, n, m, c, d, more);
    assert b[0..] == b;
    Slice(b, 0, h, n + (m + (c + (d + more))));
    Slice(b, |h|, n, m + (c + (d + more)));
    Slice(b, |h| + |n|, m, c + (d + more));
    Slice(b, |h| + |n| + |m|, c, d + more);
  }

  lemma PacketFront(p: Packet, more: Bytes)
    requires PacketOk(p)
    ensures 12 + Pad4(|p.name|) <= |PacketBytes(p)|
    ensures (PacketBytes(p) + more)[..12 + Pad4(|p.name|)] == HeaderBytes(p) + (p.name + p.namePad)
  {
    hide HeaderBytes, Pad4;
    HeaderParses(p, []);
    var tail := p.cookie + (p.cookiePad + more);
    Regroup(HeaderBytes(p), p.name, p.namePad, p.cookie, p.cookiePad, more);
    var front := HeaderBytes(p) + (p.name + p.namePad);
    assert PacketBytes(p) + more == front + tail;
    assert (front + tail)[..|front|] == front;
  }

  predicate Accepts(p: Packet, fake: Bytes) {
    p.name == MIT_MAGIC_COOKIE && p.cookie == fake != []
  }

  /** What happens to a whole packet, in either byte order and with anything behind it. */
  lemma WholePacket(p: Packet, more: Bytes, fake: Bytes, own: Bytes)
    requires PacketOk(p) && (|own| == COOKIE_BYTES ==> |fake| == COOKIE_BYTES)
    ensures Rewrite(PacketBytes(p) + more, fake, own) ==
            if Accepts(p, fake) && own == [] then Rewritten(PacketBytes(p) + more)
            else if Accepts(p, fake) && |own| == COOKIE_BYTES then Rewritten(PacketBytes(p.(cookie := own)) + more)
            else Rejected
  {
    hide HeaderBytes, ParseSetupHeader, Pad4, PacketBytes;
    var b := PacketBytes(p) + more;
    PacketLayout(p, more);
    HeaderParses(p, b[12..]);
    if Accepts(p, fake) && |own| == COOKIE_BYTES {
      CookieReplaced(p, more, own);
    }
  }

  /** The packet an X client really sends: sixteen bytes of cookie behind two of padding, in either byte order, whatever
    * its version numbers. The real cookie takes the place of the expected one and nothing else changes. */
  lemma OrdinaryPacket(head: Bytes, pad: Bytes, fake: Bytes, more: Bytes, own: Bytes)
    requires |head| == 12 && |pad| == 2 && |fake| == 16 && |own| == 16
    requires || (head[0] == 'l' as int && head[6..10] == [18, 0, 16, 0])
             || (head[0] == 'B' as int && head[6..10] == [0, 18, 0, 16])
    ensures Rewrite(head + MIT_MAGIC_COOKIE + pad + fake + more, fake, own) ==
            Rewritten(head + MIT_MAGIC_COOKIE + pad + own + more)
  {
    hide ParseSetupHeader, U16At;
    var b := head + MIT_MAGIC_COOKIE + pad + fake + more;
    OrdinaryHeader(head, b);
    OrdinaryParts(head, pad, fake, more, own);
  }

  lemma OrdinaryHeader(head: Bytes, b: Bytes)
    requires |head| == 12 && 12 <= |b| && b[..12] == head
    requires || (head[0] == 'l' as int && head[6..10] == [18, 0, 16, 0])
             || (head[0] == 'B' as int && head[6..10] == [0, 18, 0, 16])
    ensures var h := ParseSetupHeader(b); h.valid && h.nameLen == 18 && h.dataLen == 16 && h.total == 48
  {
    var four := head[6..10];
    assert b[0] == b[..12][0] && b[6] == b[..12][6] && b[7] == b[..12][7] && b[8] == b[..12][8] && b[9] == b[..12][9];
    assert head[6] == four[0] && head[7] == four[1] && head[8] == four[2] && head[9] == four[3];
  }

  lemma OrdinaryParts(head: Bytes, pad: Bytes, fake: Bytes, more: Bytes, own: Bytes)
    requires |head| == 12 && |pad| == 2 && |fake| == 16 && |own| == 16
    ensures var b := head + MIT_MAGIC_COOKIE + pad + fake + more;
      && b[..12] == head && b[12..30] == MIT_MAGIC_COOKIE && b[32..48] == fake
      && b[..32] + own + b[48..] == head + MIT_MAGIC_COOKIE + pad + own + more
  {}

  lemma CookieReplaced(p: Packet, more: Bytes, own: Bytes)
    requires PacketOk(p) && |own| == |p.cookie|
    ensures var b := PacketBytes(p) + more;
      var dataAt := 12 + Pad4(|p.name|);
      && PacketOk(p.(cookie := own)) && dataAt + |own| <= |b|
      && PacketBytes(p.(cookie := own)) + more == b[..dataAt] + own + b[dataAt + |own|..]
  {
    hide HeaderBytes, Pad4, PacketBytes;
    HeaderKept(p, own);
    var q := p.(cookie := own);
    PacketLayout(p, more);
    PacketLayout(q, more);
    PacketFront(p, more);
    PacketFront(q, more);
    var dataAt := 12 + Pad4(|p.name|);
    ThreeParts(PacketBytes(q) + more, dataAt, dataAt + |own|);
  }

  lemma ThreeParts(c: Bytes, i: nat, j: nat)
    requires i <= j <= |c|
    ensures c == c[..i] + c[i..j] + c[j..]
  {}

  lemma HeaderKept(p: Packet, own: Bytes)
    requires PacketOk(p) && |own| == |p.cookie|
    ensures PacketOk(p.(cookie := own)) && HeaderBytes(p.(cookie := own)) == HeaderBytes(p)
  {}

  function PacketAt(b: Bytes): Packet
    requires ParseSetupHeader(b).valid && ParseSetupHeader(b).total <= |b|
  {
    var h := ParseSetupHeader(b);
    var dataAt := 12 + Pad4(h.nameLen);
    Packet(h.bigEndian, b[1], h.major, h.minor, b[12..12 + h.nameLen], b[dataAt..dataAt + h.dataLen], b[10], b[11],
           b[12 + h.nameLen..dataAt], b[dataAt + h.dataLen..h.total])
  }

  /** Every input long enough for its header is some packet with something behind it. */
  lemma DecidedIsPacket(b: Bytes)
    requires ParseSetupHeader(b).valid && ParseSetupHeader(b).total <= |b|
    ensures var p := PacketAt(b); PacketOk(p) && b == PacketBytes(p) + b[ParseSetupHeader(b).total..]
  {
    hide *;
    HeaderIs(b);
    HeaderShape(b);
    PacketAtIs(b);
    var h := ParseSetupHeader(b);
    var dataAt := 12 + Pad4(h.nameLen);
    FiveCuts(b, 12 + h.nameLen, dataAt, dataAt + h.dataLen, h.total);
  }

  lemma PacketAtIs(b: Bytes)
    requires ParseSetupHeader(b).valid && ParseSetupHeader(b).total <= |b| && PacketOk(PacketAt(b))
    ensures var h := ParseSetupHeader(b);
      var at1, at2, at3 := 12 + h.nameLen, 12 + Pad4(h.nameLen), 12 + Pad4(h.nameLen) + h.dataLen;
      && at1 <= at2 <= at3 <= h.total
      && PacketBytes(PacketAt(b)) ==
         HeaderBytes(PacketAt(b)) + (b[12..at1] + (b[at1..at2] + (b[at2..at3] + b[at3..h.total])))
  {
    HeaderShape(b);
    hide HeaderBytes, ParseSetupHeader, Pad4;
  }

  lemma HeaderShape(b: Bytes)
    requires ParseSetupHeader(b).valid
    ensures var h := ParseSetupHeader(b);
      && h.total == 12 + Pad4(h.nameLen) + Pad4(h.dataLen)
      && h.nameLen <= Pad4(h.nameLen) && h.dataLen <= Pad4(h.dataLen)
  {}

  lemma FiveCuts(b: Bytes, i: nat, j: nat, k: nat, n: nat)
    requires 12 <= i <= j <= k <= n <= |b|
    ensures b == (b[0..12] + (b[12..i] + (b[i..j] + (b[j..k] + b[k..n])))) + b[n..]
  {
    Cut(b, k, n);
    Cut(b, j, k);
    Cut(b, i, j);
    Cut(b, 12, i);
    Cut(b, 0, 12);
    assert b[0..] == b;
    Regroup(b[0..12], b[12..i], b[i..j], b[j..k], b[k..n], b[n..]);
  }

  lemma Cut(b: Bytes, i: nat, j: nat)
    requires i <= j <= |b|
    ensures b[i..] == b[i..j] + b[j..]
  {}

  lemma HeaderIs(b: Bytes)
    requires ParseSetupHeader(b).valid && ParseSetupHeader(b).total <= |b|
    ensures PacketOk(PacketAt(b)) && HeaderBytes(PacketAt(b)) == b[0..12]
  {
    var h := ParseSetupHeader(b);
    hide N16, U16At;
    HeaderCut(b);
    U16Fits(h.bigEndian, b, 2);
    U16Fits(h.bigEndian, b, 4);
    U16Fits(h.bigEndian, b, 6);
    U16Fits(h.bigEndian, b, 8);
  }

  lemma HeaderCut(b: Bytes)
    requires 12 <= |b|
    ensures b[0..12] == [b[0], b[1]] + b[2..4] + b[4..6] + b[6..8] + b[8..10] + [b[10], b[11]]
  {}

  lemma U16Fits(big: bool, b: Bytes, off: nat)
    requires off + 2 <= |b|
    ensures U16At(big, b, off) < 0x10000 && N16(big, U16At(big, b, off)) == b[off..off + 2]
  {
    assert b[off..off + 2] == [b[off], b[off + 1]];
  }

  // ---- the decision ---------------------------------------------------------------------------------------------

  /** A decision once made stands: more bytes change nothing and go straight through behind the packet. */
  lemma DecisionStands(b: Bytes, more: Bytes, fake: Bytes, own: Bytes)
    requires |own| == COOKIE_BYTES ==> |fake| == COOKIE_BYTES
    requires !Rewrite(b, fake, own).NeedMore?
    ensures Rewrite(b + more, fake, own) ==
            match Rewrite(b, fake, own) case Rewritten(out) => Rewritten(out + more) case v => v
  {
    hide Rewrite, PacketBytes, PacketAt, PacketOk, ParseSetupHeader, Pad4;
    DecisionMeansWhole(b, fake, own);
    if !ParseSetupHeader(b).valid {
      InvalidStands(b, more, fake, own);
    } else {
      DecidedIsPacket(b);
      var rest := b[ParseSetupHeader(b).total..];
      assert b + more == PacketBytes(PacketAt(b)) + (rest + more);
      WholeStands(PacketAt(b), rest, more, fake, own);
    }
  }

  lemma InvalidStands(b: Bytes, more: Bytes, fake: Bytes, own: Bytes)
    requires |own| == COOKIE_BYTES ==> |fake| == COOKIE_BYTES
    requires !ParseSetupHeader(b).valid && 12 <= |b|
    ensures Rewrite(b + more, fake, own) == Rejected == Rewrite(b, fake, own)
  {
    assert (b + more)[0] == b[0];
  }

  lemma WholeStands(p: Packet, rest: Bytes, more: Bytes, fake: Bytes, own: Bytes)
    requires PacketOk(p) && (|own| == COOKIE_BYTES ==> |fake| == COOKIE_BYTES)
    ensures Rewrite(PacketBytes(p) + (rest + more), fake, own) ==
            match Rewrite(PacketBytes(p) + rest, fake, own) case Rewritten(out) => Rewritten(out + more) case v => v
  {
    hide Rewrite, PacketBytes;
    WholePacket(p, rest, fake, own);
    WholePacket(p, rest + more, fake, own);
    assert PacketBytes(p) + (rest + more) == PacketBytes(p) + rest + more;
    if |own| == COOKIE_BYTES && p.cookie == fake {
      HeaderKept(p, own);
      var q := p.(cookie := own);
      assert PacketBytes(q) + (rest + more) == PacketBytes(q) + rest + more;
    }
  }

  lemma DecisionMeansWhole(b: Bytes, fake: Bytes, own: Bytes)
    requires |own| == COOKIE_BYTES ==> |fake| == COOKIE_BYTES
    ensures var h := ParseSetupHeader(b);
      Rewrite(b, fake, own).NeedMore? <==> |b| < 12 || (h.valid && |b| < h.total)
  {}

  /** Fed any prefixes of a stream, the code asks for more below one point of it and never after: the decision does not
    * depend on how the bytes were cut. */
  lemma OneDecisionPoint(b: Bytes, j: nat, k: nat, fake: Bytes, own: Bytes)
    requires |own| == COOKIE_BYTES ==> |fake| == COOKIE_BYTES
    requires j <= k <= |b| && !Rewrite(b[..j], fake, own).NeedMore?
    ensures Rewrite(b[..k], fake, own) ==
            match Rewrite(b[..j], fake, own) case Rewritten(out) => Rewritten(out + b[j..k]) case v => v
  {
    assert b[..j] + b[j..k] == b[..k];
    DecisionStands(b[..j], b[j..k], fake, own);
  }

  /** A packet is passed on exactly when it is a setup packet naming MIT-MAGIC-COOKIE-1 and carrying the fake cookie;
    * what is passed on is that packet with the real cookie, or unchanged when there is none. */
  lemma PassedOnIff(b: Bytes, fake: Bytes, own: Bytes, out: Bytes)
    requires |own| == COOKIE_BYTES ==> |fake| == COOKIE_BYTES
    ensures Rewrite(b, fake, own) == Rewritten(out) <==>
            fake != [] && (own == [] || |own| == COOKIE_BYTES) &&
            exists p: Packet, more: Bytes :: PacketOk(p) && p.name == MIT_MAGIC_COOKIE && p.cookie == fake
              && b == PacketBytes(p) + more && Replaced(p, more, own, out)
  {
    hide Rewrite, PacketBytes, PacketOk, PacketAt, ParseSetupHeader, Replaced;
    if Rewrite(b, fake, own).Rewritten? {
      RewrittenMeansWhole(b, fake, own);
      var p, more := PacketAt(b), b[ParseSetupHeader(b).total..];
      DecidedIsPacket(b);
      WholePacket(p, more, fake, own);
      if Rewrite(b, fake, own) == Rewritten(out) {
        ReplacedIs(p, more, own, out);
        assert PacketOk(p) && b == PacketBytes(p) + more && Replaced(p, more, own, out);
      }
    }
    forall p: Packet, more: Bytes | PacketOk(p) && p.name == MIT_MAGIC_COOKIE && p.cookie == fake
        && b == PacketBytes(p) + more && Replaced(p, more, own, out)
        && fake != [] && (own == [] || |own| == COOKIE_BYTES)
      ensures Rewrite(b, fake, own) == Rewritten(out)
    {
      WholePacket(p, more, fake, own);
      ReplacedIs(p, more, own, out);
    }
  }

  lemma RewrittenMeansWhole(b: Bytes, fake: Bytes, own: Bytes)
    requires (|own| == COOKIE_BYTES ==> |fake| == COOKIE_BYTES) && Rewrite(b, fake, own).Rewritten?
    ensures ParseSetupHeader(b).valid && ParseSetupHeader(b).total <= |b|
  {}

  ghost predicate Replaced(p: Packet, more: Bytes, own: Bytes, out: Bytes)
    requires PacketOk(p)
  {
    var q := if own == [] then p else p.(cookie := own);
    PacketOk(q) && out == PacketBytes(q) + more
  }

  lemma ReplacedIs(p: Packet, more: Bytes, own: Bytes, out: Bytes)
    requires PacketOk(p) && (own != [] ==> |own| == |p.cookie|)
    ensures Replaced(p, more, own, out) <==> out == PacketBytes(if own == [] then p else p.(cookie := own)) + more
  {
    if own != [] {
      HeaderKept(p, own);
    }
  }

  /** With two sixteen-byte cookies the rewrite is undone by rewriting back, keeps the header, and moves no byte outside
    * the cookie field. */
  lemma RewriteSwapsBack(b: Bytes, fake: Bytes, own: Bytes)
    requires |fake| == |own| == COOKIE_BYTES && Rewrite(b, fake, own).Rewritten?
    ensures var out := Rewrite(b, fake, own).out;
      && Rewrite(out, own, fake) == Rewritten(b)
      && ParseSetupHeader(out) == ParseSetupHeader(b) && |out| == |b|
      && (var at := 12 + Pad4(ParseSetupHeader(b).nameLen);
          at + COOKIE_BYTES <= |b| && out == b[..at] + own + b[at + COOKIE_BYTES..])
  {
    hide PacketBytes, PacketOk, HeaderBytes, Rewrite, ParseSetupHeader, Pad4;
    RewrittenMeansWhole(b, fake, own);
    var p, more := PacketAt(b), b[ParseSetupHeader(b).total..];
    DecidedIsPacket(b);
    WholePacket(p, more, fake, own);
    SwappedBack(p, more, fake, own);
    CookieReplaced(p, more, own);
    PacketLayout(p, more);
    HeaderParses(p, b[12..]);
    var q := p.(cookie := own);
    PacketLayout(q, more);
    HeaderParses(q, (PacketBytes(q) + more)[12..]);
  }

  lemma SwappedBack(p: Packet, more: Bytes, fake: Bytes, own: Bytes)
    requires PacketOk(p) && p.name == MIT_MAGIC_COOKIE && p.cookie == fake && |fake| == |own| == COOKIE_BYTES
    ensures PacketOk(p.(cookie := own))
    ensures Rewrite(PacketBytes(p.(cookie := own)) + more, own, fake) == Rewritten(PacketBytes(p) + more)
  {
    hide Rewrite, PacketBytes, HeaderBytes;
    HeaderKept(p, own);
    var q := p.(cookie := own);
    WholePacket(q, more, own, fake);
    assert q.(cookie := fake) == p;
  }
}
