/** X11 forwarding authentication (src/remote/XAuth.cpp): the .Xauthority file, hex cookies and the connection-setup
  * packet of the X Window System Protocol, chapter 8.
  */
module XAuth {
  import opened Wrappers
  import opened Bits

  const COOKIE_BYTES: nat := 16
  /** "MIT-MAGIC-COOKIE-1" */
  const MIT_MAGIC_COOKIE: Bytes := [77, 73, 84, 45, 77, 65, 71, 73, 67, 45, 67, 79, 79, 75, 73, 69, 45, 49]

  // ---- hex ------------------------------------------------------------------------------------------------------

  function HexVal(c: char): (v: int)
    ensures -1 <= v < 16
  {
    if '0' <= c <= '9' then c as int - '0' as int
    else if 'a' <= c <= 'f' then c as int - 'a' as int + 10
    else if 'A' <= c <= 'F' then c as int - 'A' as int + 10
    else -1
  }

  function HexDigit(v: nat): char
    requires v < 16
  {
    if v < 10 then ('0' as int + v) as char else ('a' as int + v - 10) as char
  }

  function Hex(b: Bytes): string {
    if b == [] then "" else [HexDigit(b[0] / 16), HexDigit(b[0] % 16)] + Hex(b[1..])
  }

  /** An even number of hex digits. */
  predicate IsHex(h: string) {
    h == "" || (2 <= |h| && HexVal(h[0]) >= 0 && HexVal(h[1]) >= 0 && IsHex(h[2..]))
  }

  function UnHex(h: string): Bytes
    requires IsHex(h)
  {
    if h == "" then [] else [HexVal(h[0]) * 16 + HexVal(h[1])] + UnHex(h[2..])
  }

  function LowerHex(h: string): string
    requires IsHex(h)
  {
    if h == "" then "" else [HexDigit(HexVal(h[0])), HexDigit(HexVal(h[1]))] + LowerHex(h[2..])
  }

  method BytesToHex(b: Bytes) returns (out: string)
    ensures out == Hex(b)
  {
    hide HexDigit;
    out := "";
    for i := 0 to |b|
      invariant out + Hex(b[i..]) == Hex(b)
    {
      assert b[i..][1..] == b[i + 1..];
      out := out + [HexDigit(b[i] / 16), HexDigit(b[i] % 16)];
    }
    assert out + "" == out;
  }

  /** All or nothing: a text that is not hex gives no bytes at all. */
  method HexToBytes(hex: string) returns (out: Bytes)
    ensures out == if IsHex(hex) then UnHex(hex) else []
  {
    hide HexVal;
    EvenHex(hex);
    if |hex| % 2 != 0 {
      return [];
    }
    out := [];
    var i := 0;
    while i < |hex|
      invariant 0 <= i <= |hex| && i % 2 == 0
      invariant IsHex(hex[i..]) <==> IsHex(hex)
      invariant IsHex(hex) ==> out + UnHex(hex[i..]) == UnHex(hex)
    {
      var hi, lo := HexVal(hex[i]), HexVal(hex[i + 1]);
      assert hex[i..][2..] == hex[i + 2..];
      if hi < 0 || lo < 0 {
        return [];
      }
      out := out + [hi * 16 + lo];
      i := i + 2;
    }
    assert hex[i..] == "" && out + [] == out;
  }

  lemma {:induction false} EvenHex(h: string)
    ensures IsHex(h) ==> |h| % 2 == 0
  {
    hide HexVal;
    if 2 <= |h| {
      EvenHex(h[2..]);
    }
  }

  lemma {:induction false} HexRoundTrip(b: Bytes)
    ensures IsHex(Hex(b)) && UnHex(Hex(b)) == b
  {
    if b != [] {
      DigitRoundTrip(b[0] / 16);
      DigitRoundTrip(b[0] % 16);
      hide HexVal, HexDigit;
      HexRoundTrip(b[1..]);
      assert Hex(b)[2..] == Hex(b[1..]);
    }
  }

  lemma DigitRoundTrip(v: nat)
    requires v < 16
    ensures HexVal(HexDigit(v)) == v
  {}

  /** The other way round hex comes back in lower case. */
  lemma {:induction false} UnHexRoundTrip(h: string)
    requires IsHex(h)
    ensures Hex(UnHex(h)) == LowerHex(h)
    decreases |h|
  {
    hide HexVal, HexDigit;
    if h != "" {
      UnHexRoundTrip(h[2..]);
      assert UnHex(h)[1..] == UnHex(h[2..]);
    }
  }

  // ---- cookies --------------------------------------------------------------------------------------------------

  /** Every byte is compared, whatever the earlier ones did. */
  method CookieEqual(a: Bytes, b: Bytes) returns (same: bool)
    ensures same == (a != [] && a == b)
  {
    if |a| != |b| || a == [] {
      return false;
    }
    hide Xor, Or;
    var diff := 0;
    for i := 0 to |a|
      invariant diff == 0 <==> a[..i] == b[..i]
    {
      OrIsZero(diff, Xor(a[i], b[i]));
      XorIsZero(a[i], b[i]);
      assert a[..i + 1] == a[..i] + [a[i]] && b[..i + 1] == b[..i] + [b[i]];
      diff := Or(diff, Xor(a[i], b[i]));
    }
    assert a[..|a|] == a && b[..|b|] == b;
    return diff == 0;
  }

  // ---- .Xauthority ----------------------------------------------------------------------------------------------

  datatype Entry = Entry(family: nat, address: Bytes, number: Bytes, name: Bytes, data: Bytes)

  /** Lengths and the family are 16-bit. */
  predicate EntryOk(e: Entry) {
    e.family < 0x10000 && |e.address| < 0x10000 && |e.number| < 0x10000 && |e.name| < 0x10000 && |e.data| < 0x10000
  }

  function U16(n: nat): Bytes
    requires n < 0x10000
  {
    [n / 256, n % 256]
  }

  function Block(s: Bytes): Bytes
    requires |s| < 0x10000
  {
    U16(|s|) + s
  }

  function EntryBytes(e: Entry): Bytes
    requires EntryOk(e)
  {
    U16(e.family) + (Block(e.address) + (Block(e.number) + (Block(e.name) + Block(e.data))))
  }

  function FileBytes(es: seq<Entry>): Bytes
    requires forall e :: e in es ==> EntryOk(e)
  {
    if es == [] then [] else EntryBytes(es[0]) + FileBytes(es[1..])
  }

  /** A 16-bit big-endian number and what is left. */
  function ReadU16(f: Bytes): Option<(nat, Bytes)> {
    if |f| < 2 then None
    else
      var hi: nat := f[0];
      Some((hi * 256 + f[1], f[2..]))
  }

  function ReadBlock(f: Bytes): Option<(Bytes, Bytes)> {
    match ReadU16(f)
    case None => None
    case Some((n, rest)) => if |rest| < n then None else Some((rest[..n], rest[n..]))
  }

  function ReadEntry(f: Bytes): Option<(Entry, Bytes)> {
    match ReadU16(f) case None => None case Some((family, f1)) =>
    match ReadBlock(f1) case None => None case Some((address, f2)) =>
    match ReadBlock(f2) case None => None case Some((number, f3)) =>
    match ReadBlock(f3) case None => None case Some((name, f4)) =>
    match ReadBlock(f4) case None => None case Some((data, f5)) =>
    Some((Entry(family, address, number, name, data), f5))
  }

  lemma U16Splits(f: Bytes)
    ensures match ReadU16(f)
            case Some((n, rest)) => n < 0x10000 && f == U16(n) + rest && |rest| < |f|
            case None => true
  {}

  lemma BlockSplits(f: Bytes)
    ensures match ReadBlock(f)
            case Some((s, rest)) => |s| < 0x10000 && f == Block(s) + rest && |rest| < |f|
            case None => true
  {}

  lemma EntrySplits(f: Bytes)
    ensures match ReadEntry(f)
            case Some((e, rest)) => EntryOk(e) && f == EntryBytes(e) + rest && |rest| < |f|
            case None => true
  {
    if ReadEntry(f).Some? {
      hide ReadBlock, ReadU16, Block, U16;
      U16Splits(f);
      var (family, f1) := ReadU16(f).value;
      var (address, f2) := ReadBlock(f1).value;
      var (number, f3) := ReadBlock(f2).value;
      var (name, f4) := ReadBlock(f3).value;
      var (data, f5) := ReadBlock(f4).value;
      BlockSplits(f1);
      BlockSplits(f2);
      BlockSplits(f3);
      BlockSplits(f4);
      assert f == U16(family) + (Block(address) + (Block(number) + (Block(name) + (Block(data) + f5))));
      Regroup(U16(family), Block(address), Block(number), Block(name), Block(data), f5);
    }
  }

  lemma Regroup(a: Bytes, b: Bytes, c: Bytes, d: Bytes, e: Bytes, rest: Bytes)
    ensures (a + (b + (c + (d + e)))) + rest == a + (b + (c + (d + (e + rest))))
  {}

  function Parsed(f: Bytes): seq<Entry>
    decreases |f|
  {
    match ReadEntry(f)
    case None => []
    case Some((e, rest)) =>
      EntrySplits(f);
      [e] + Parsed(rest)
  }

  lemma ReadBlockOf(s: Bytes, rest: Bytes)
    requires |s| < 0x10000
    ensures ReadBlock(Block(s) + rest) == Some((s, rest))
  {
    var f := Block(s) + rest;
    assert f[2..] == s + rest;
  }

  lemma ReadEntryOf(e: Entry, rest: Bytes)
    requires EntryOk(e)
    ensures ReadEntry(EntryBytes(e) + rest) == Some((e, rest))
  {
    hide ReadBlock, Block;
    var f5 := rest;
    var f4 := Block(e.data) + f5;
    var f3 := Block(e.name) + f4;
    var f2 := Block(e.number) + f3;
    var f1 := Block(e.address) + f2;
    Regroup(U16(e.family), Block(e.address), Block(e.number), Block(e.name), Block(e.data), rest);
    assert (U16(e.family) + f1)[2..] == f1;
    ReadBlockOf(e.address, f2);
    ReadBlockOf(e.number, f3);
    ReadBlockOf(e.name, f4);
    ReadBlockOf(e.data, f5);
  }

  /** Whatever the file holds, what was read is really there: the entries written back are how the file begins. */
  lemma {:induction false} ParsedIsThere(f: Bytes)
    ensures forall e :: e in Parsed(f) ==> EntryOk(e)
    ensures FileBytes(Parsed(f)) <= f
    decreases |f|
  {
    hide ReadEntry, EntryBytes, EntryOk;
    EntrySplits(f);
    match ReadEntry(f)
    case None =>
    case Some((e, rest)) =>
      ParsedIsThere(rest);
      assert Parsed(f)[1..] == Parsed(rest);
      assert rest == FileBytes(Parsed(rest)) + rest[|FileBytes(Parsed(rest))|..];
      assert EntryBytes(e) + rest == EntryBytes(e) + FileBytes(Parsed(rest)) + rest[|FileBytes(Parsed(rest))|..];
  }

  /** More bytes never change an entry already read: reading a shorter file loses nothing but its tail. */
  lemma {:induction false} ParsedGrows(f: Bytes, more: Bytes)
    ensures Parsed(f) <= Parsed(f + more)
    decreases |f|
  {
    hide ReadEntry, EntryBytes, EntryOk;
    EntrySplits(f);
    match ReadEntry(f)
    case None =>
    case Some((e, rest)) =>
      assert f + more == EntryBytes(e) + (rest + more);
      ReadEntryOf(e, rest + more);
      ParsedGrows(rest, more);
  }

  /** How many leading entries lie wholly within the first `k` bytes. */
  function WholeEntries(es: seq<Entry>, k: nat): nat
    requires forall e :: e in es ==> EntryOk(e)
  {
    if es == [] || k < |EntryBytes(es[0])| then 0 else 1 + WholeEntries(es[1..], k - |EntryBytes(es[0])|)
  }

  /** No proper prefix of an entry reads as an entry. */
  lemma PartIsNoEntry(e: Entry, k: nat)
    requires EntryOk(e) && k < |EntryBytes(e)|
    ensures ReadEntry(EntryBytes(e)[..k]).None?
  {
    hide ReadEntry, EntryBytes, EntryOk;
    var part, tail := EntryBytes(e)[..k], EntryBytes(e)[k..];
    assert part + tail == EntryBytes(e) == EntryBytes(e) + [];
    EntrySplits(part);
    if ReadEntry(part).Some? {
      var (d, rest) := ReadEntry(part).value;
      ReadEntryOf(d, rest + tail);
      assert EntryBytes(d) + (rest + tail) == EntryBytes(e) + [];
      ReadEntryOf(e, []);
      assert false;
    }
  }

  /** Any prefix of a written file reads as exactly the entries that lie wholly within it. */
  lemma {:induction false} PrefixParses(es: seq<Entry>, k: nat)
    requires (forall e :: e in es ==> EntryOk(e)) && k <= |FileBytes(es)|
    ensures WholeEntries(es, k) <= |es| && Parsed(FileBytes(es)[..k]) == es[..WholeEntries(es, k)]
    decreases |es|
  {
    hide ReadEntry, EntryBytes, EntryOk;
    if es == [] {
      NothingParses();
    } else {
      var first, rest := EntryBytes(es[0]), FileBytes(es[1..]);
      if k < |first| {
        assert FileBytes(es)[..k] == first[..k];
        PartIsNoEntry(es[0], k);
      } else {
        assert FileBytes(es)[..k] == first + rest[..k - |first|];
        ReadEntryOf(es[0], rest[..k - |first|]);
        PrefixParses(es[1..], k - |first|);
      }
    }
  }

  lemma NothingParses()
    ensures ReadEntry([]).None?
  {}

  /** The whole file parses back to its entries. */
  lemma {:induction false} FileRoundTrip(es: seq<Entry>)
    requires forall e :: e in es ==> EntryOk(e)
    ensures Parsed(FileBytes(es)) == es
    decreases |es|
  {
    hide ReadEntry, EntryBytes, EntryOk;
    if es == [] {
      NothingParses();
    } else {
      ReadEntryOf(es[0], FileBytes(es[1..]));
      FileRoundTrip(es[1..]);
    }
  }

  /** Decimal digits of a display number. */
  function Decimal(n: nat): Bytes {
    if n < 10 then [48 + n] else Decimal(n / 10) + [48 + n % 10]
  }

  function ReadDecimal(digits: Bytes): int {
    if digits == [] then 0 else ReadDecimal(digits[..|digits| - 1]) * 10 + (digits[|digits| - 1] as int - 48)
  }

  /** A display number is written in digits '0' to '9', without a leading zero, and reads back. */
  lemma {:induction false} DecimalReads(n: nat)
    ensures forall d :: d in Decimal(n) ==> '0' as int <= d <= '9' as int
    ensures Decimal(n) != [] && (Decimal(n)[0] == '0' as int <==> n == 0)
    ensures ReadDecimal(Decimal(n)) == n
  {
    if n >= 10 {
      DecimalReads(n / 10);
      assert Decimal(n)[..|Decimal(n)| - 1] == Decimal(n / 10);
    } else {
      assert Decimal(n)[..0] == [];
    }
  }

  ghost predicate Matches(e: Entry, display: nat) {
    e.name == MIT_MAGIC_COOKIE && e.number == Decimal(display) && |e.data| == COOKIE_BYTES
  }

  ghost predicate FirstMatch(entries: seq<Entry>, display: nat, i: int) {
    0 <= i < |entries| && Matches(entries[i], display) && forall j :: 0 <= j < i ==> !Matches(entries[j], display)
  }

  /** The cookie of the first entry for this display, protocol and cookie length; nothing when there is none. */
  method CookieForDisplay(entries: seq<Entry>, display: nat, valid: bool) returns (cookie: Bytes)
    ensures !valid ==> cookie == []
    ensures valid && (forall i :: 0 <= i < |entries| ==> !Matches(entries[i], display)) ==> cookie == []
    ensures forall i :: valid && FirstMatch(entries, display, i) ==> cookie == entries[i].data
  {
    if !valid {
      return [];
    }
    var want := Decimal(display);
    for i := 0 to |entries|
      invariant forall j :: 0 <= j < i ==> !Matches(entries[j], display)
    {
      var e := entries[i];
      if e.name != MIT_MAGIC_COOKIE {
        continue;
      }
      if e.number != want {
        continue;
      }
      if |e.data| != COOKIE_BYTES {
        continue;
      }
      return e.data;
    }
    return [];
  }

  /** One display's number is never another's: the texts differ when the numbers do. */
  lemma {:induction false} DecimalInjective(m: nat, n: nat)
    ensures Decimal(m) == Decimal(n) <==> m == n
  {
    if m >= 10 && n >= 10 {
      DecimalInjective(m / 10, n / 10);
      var a, b := Decimal(m), Decimal(n);
      assert a[..|a| - 1] == Decimal(m / 10) && b[..|b| - 1] == Decimal(n / 10);
      assert a[|a| - 1] == 48 + m % 10 && b[|b| - 1] == 48 + n % 10;
    } else if m >= 10 {
      DecimalReads(m / 10);
    } else if n >= 10 {
      DecimalReads(n / 10);
    }
  }

  /** The cursor's view of a read: what it gives and where it leaves the cursor. */
  ghost predicate TookBlock(f: Bytes, at: nat, ok: bool, s: Bytes, next: nat) {
    at <= |f| && match ReadBlock(f[at..])
                 case None => !ok
                 case Some((t, rest)) => ok && s == t && at <= next <= |f| && f[next..] == rest
  }

  method TakeU16(f: Bytes, at: nat) returns (ok: bool, v: nat, next: nat)
    requires at <= |f|
    ensures ok <==> ReadU16(f[at..]).Some?
    ensures ok ==> next == at + 2 <= |f| && ReadU16(f[at..]) == Some((v, f[next..]))
  {
    if at + 2 > |f| {
      return false, 0, at;
    }
    var hi: nat := f[at];
    assert f[at..][2..] == f[at + 2..];
    return true, hi * 256 + f[at + 1], at + 2;
  }

  method TakeBlock(f: Bytes, at: nat) returns (ok: bool, s: Bytes, next: nat)
    requires at <= |f|
    ensures TookBlock(f, at, ok, s, next)
  {
    var got, n, start := TakeU16(f, at);
    if !got || start + n > |f| {
      return false, [], at;
    }
    assert f[start..][..n] == f[start..start + n] && f[start..][n..] == f[start + n..];
    return true, f[start..start + n], start + n;
  }

  method TakeEntry(f: Bytes, at: nat) returns (ok: bool, e: Entry, next: nat)
    requires at <= |f|
    ensures match ReadEntry(f[at..])
            case None => !ok
            case Some((d, rest)) => ok && e == d && at < next <= |f| && f[next..] == rest
  {
    hide ReadBlock;
    EntrySplits(f[at..]);
    e, next := Entry(0, [], [], [], []), at;
    var family, address, number, name, data;
    ok, family, next := TakeU16(f, next);
    if ok {
      ok, address, next := TakeBlock(f, next);
    }
    if ok {
      ok, number, next := TakeBlock(f, next);
    }
    if ok {
      ok, name, next := TakeBlock(f, next);
    }
    if ok {
      ok, data, next := TakeBlock(f, next);
    }
    if ok {
      e := Entry(family, address, number, name, data);
    }
  }

  method ParseXAuthority(f: Bytes) returns (out: seq<Entry>)
    ensures out == Parsed(f)
  {
    hide ReadEntry;
    out := [];
    var at := 0;
    NothingParses();
    while at < |f|
      invariant 0 <= at <= |f| && out + Parsed(f[at..]) == Parsed(f)
    {
      var ok, e, next := TakeEntry(f, at);
      EntrySplits(f[at..]);
      if !ok {
        assert out + [] == out;
        return;
      }
      assert out + ([e] + Parsed(f[next..])) == out + [e] + Parsed(f[next..]);
      out := out + [e];
      at := next;
    }
    assert f[at..] == [] && out + [] == out;
  }
}
