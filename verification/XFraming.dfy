/** An X client reading its side of a control channel (src/amberx/PreviewClient.cpp, XClient).
  *
  * Bytes come in channel frames of any size, between frames for others and timeouts. `script` is what polling will
  * answer from here on. The client cuts the bytes into X11 messages and keeps the events it was not waiting for.
  */
module XFraming {
  import opened Bits
  import opened Wrappers

  type Msg = Bytes

  const FIXED: nat := 32
  const UINT32: nat := 0x1_0000_0000

  /** One turn of the receive loop: a frame, or the reason there was none. */
  datatype Outcome =
    | Data(bytes: Bytes)          // channel data for this client
    | Foreign(bytes: Bytes)       // channel data for another client
    | Host                        // the host's own frames: errors, clipboard, report
    | NoFrame                     // the poll failed or the time was up
    | Closed                      // this client's channel was closed

  datatype Kind = Error | Reply | Event

  datatype Got = Nothing | Message(kind: Kind, bytes: Msg) | Overrun

  /** `log` is every message read so far; `held` and `given` are the places in it of the events set aside and of those
    * handed out. */
  datatype Client = Client(inbuf: Bytes, events: seq<Msg>, others: seq<Bytes>, script: seq<Outcome>,
                           log: seq<Msg>, held: seq<nat>, given: seq<nat>)

  // ---- messages -------------------------------------------------------------------------------------------------

  function U16(b: Bytes, at: nat): nat
    requires at + 2 <= |b|
  {
    var lo: nat, hi: nat := b[at], b[at + 1];
    lo + 0x100 * hi
  }

  function U32(b: Bytes, at: nat): (n: nat)
    requires at + 4 <= |b|
    ensures n < UINT32
  {
    var b0: nat, b1: nat, b2: nat, b3: nat := b[at], b[at + 1], b[at + 2], b[at + 3];
    b0 + 0x100 * b1 + 0x1_0000 * b2 + 0x100_0000 * b3
  }

  function Type(m: Msg): nat
    requires m != []
  {
    m[0] % 128
  }

  function KindOf(m: Msg): Kind
    requires m != []
  {
    if Type(m) == 0 then Error else if Type(m) == 1 then Reply else Event
  }

  /** An event says in its top bit that another client sent it; that bit changes nothing about what it is. Code 0 is an
    * error, code 1 a reply and every other an event. */
  lemma SentBitIsIgnored(code: Byte, rest: Bytes)
    requires code < 0x80
    ensures Type([code] + rest) == code == Type([code + 0x80] + rest)
    ensures KindOf([code + 0x80] + rest) == KindOf([code] + rest)
    ensures KindOf([code] + rest) == match code case 0 => Error case 1 => Reply case _ => Event
  {}

  predicate HasMore(m: Msg)
    requires m != []
  {
    Type(m) == 1 || Type(m) == 35
  }

  /** How long the program takes the message that starts with these bytes to be: multiplication and sum both wrap as
    * 32-bit arithmetic does. */
  function Size(b: Bytes): nat
    requires FIXED <= |b|
  {
    if HasMore(b) then (FIXED + U32(b, 4) * 4 % UINT32) % UINT32 else FIXED
  }

  /** The four bytes of a number, the low one first. */
  function Little(n: nat): (b: Bytes)
    requires n < UINT32
    ensures |b| == 4
  {
    [n % 0x100, n / 0x100 % 0x100, n / 0x1_0000 % 0x100, n / 0x100_0000 % 0x100]
  }

  lemma LittleReads(b: Bytes, at: nat, n: nat)
    requires n < UINT32 && at + 4 <= |b| && b[at..at + 4] == Little(n)
    ensures U32(b, at) == n
  {
    FourBytes(n);
    var four := b[at..at + 4];
    assert b[at] == four[0] && b[at + 1] == four[1] && b[at + 2] == four[2] && b[at + 3] == four[3];
  }

  /** The size of the protocol: a fixed 32 bytes, and for a reply (code 1) or a GenericEvent (code 35), sent by another
    * client or not, as many units of four as it says. */
  function ProtocolSize(code: nat, units: nat): nat {
    if code in {1, 35, 0x80 + 1, 0x80 + 35} then 32 + 4 * units else 32
  }

  lemma SizeIsTheProtocolsIff(b: Bytes, units: nat)
    requires 32 <= |b| && units < UINT32 && b[4..8] == Little(units)
    ensures Size(b) == ProtocolSize(b[0], units) <==> b[0] !in {1, 35, 0x80 + 1, 0x80 + 35} || units < 0x3FFF_FFF8
  {
    hide Little, U32;
    LittleReads(b, 4, units);
  }

  /** Where an event says which window it is about: behind eight bytes more for the input and crossing events and a
    * selection request, behind four more for the other two selection events, and at once for the rest. */
  lemma EventNamesItsWindow(head: Bytes, skipped: Bytes, window: nat, tail: Bytes)
    requires |head| == 4 && window < UINT32 && 32 <= |head + skipped + Little(window) + tail|
    requires var code := head[0] % 128;
      |skipped| == if 2 <= code <= 8 || code == 30 then 8 else if code == 29 || code == 31 then 4 else 0
    ensures EventWindow(head + skipped + Little(window) + tail) == window
  {
    hide Little, U32;
    var m := head + skipped + Little(window) + tail;
    var at := 4 + |skipped|;
    assert m[at..at + 4] == Little(window);
    LittleReads(m, at, window);
  }

  /** The first message of a stream is there in full. A sum that wrapped is below 32; nothing is framed past that. */
  predicate Starts(s: Bytes) {
    FIXED <= |s| && FIXED <= Size(s) <= |s|
  }

  /** The framing of a stream, independent of how it arrives. */
  function Framed(s: Bytes): seq<Msg>
    decreases |s|
  {
    if Starts(s) then [s[..Size(s)]] + Framed(s[Size(s)..]) else []
  }

  /** `ms` are the first messages of `s`, and `t` is what follows them. */
  predicate Cuts(s: Bytes, ms: seq<Msg>, t: Bytes)
    decreases |ms|
  {
    if ms == [] then s == t
    else Starts(s) && ms[0] == s[..Size(s)] && Cuts(s[Size(s)..], ms[1..], t)
  }

  lemma StartStands(s: Bytes, more: Bytes)
    requires FIXED <= |s|
    ensures Size(s + more) == Size(s)
  {}

  lemma {:induction false} CutsThenFramed(s: Bytes, ms: seq<Msg>, t: Bytes)
    requires Cuts(s, ms, t)
    ensures Framed(s) == ms + Framed(t)
    decreases |ms|
  {
    hide Size;
    if ms != [] {
      CutsThenFramed(s[Size(s)..], ms[1..], t);
      assert ms == [ms[0]] + ms[1..];
    }
  }

  lemma {:induction false} CutsOneMore(s: Bytes, ms: seq<Msg>, t: Bytes)
    requires Cuts(s, ms, t) && Starts(t)
    ensures Cuts(s, ms + [t[..Size(t)]], t[Size(t)..])
    decreases |ms|
  {
    hide Size;
    if ms == [] {
      assert Cuts(t[Size(t)..], [], t[Size(t)..]);
    } else {
      CutsOneMore(s[Size(s)..], ms[1..], t);
      assert (ms + [t[..Size(t)]])[1..] == ms[1..] + [t[..Size(t)]];
    }
  }

  // ---- receiving ------------------------------------------------------------------------------------------------

  /** The bytes for this client in what is still to come. */
  function Ours(script: seq<Outcome>): Bytes {
    if script == [] then [] else (if script[0].Data? then script[0].bytes else []) + Ours(script[1..])
  }

  /** Everything this client has not cut into messages yet, arrived or not. */
  function Stream(c: Client): Bytes {
    c.inbuf + Ours(c.script)
  }

  /** What one turn of the loop does with its frame; the flag says whether the loop goes on. */
  function Turn(c: Client): (Client, bool)
    requires c.script != []
  {
    var rest := c.(script := c.script[1..]);
    match c.script[0]
    case Data(b) => (rest.(inbuf := c.inbuf + b), true)
    case Foreign(b) => (rest.(others := c.others + [b]), true)
    case Host => (rest, true)
    case NoFrame => (rest, false)
    case Closed => (rest, false)
  }

  /** Receives until `want` bytes are buffered. With nothing more to come the time runs out. */
  function Recv(c: Client, want: nat): (r: (Client, bool))
    ensures r.1 <==> want <= |r.0.inbuf|
    decreases |c.script|
  {
    if want <= |c.inbuf| then (c, true)
    else if c.script == [] then (c, false)
    else
      var (d, on) := Turn(c);
      if on then Recv(d, want) else (d, false)
  }

  function Next(c: Client): (Client, Got) {
    var (c1, ok1) := Recv(c, FIXED);
    if !ok1 then (c1, Nothing)
    else
      var n := Size(c1.inbuf);
      if n < FIXED then (c1, Overrun)
      else
        var (c2, ok2) := Recv(c1, n);
        if !ok2 then (c2, Nothing)
        else
          var m := c2.inbuf[..n];
          (c2.(inbuf := c2.inbuf[n..], log := c2.log + [m]), Message(KindOf(m), m))
  }

  /** Only the buffer and what is to come move; no byte is lost, and none the loop had no room for is asked for. */
  lemma {:induction false} RecvKeepsTheStream(c: Client, want: nat)
    ensures var (d, ok) := Recv(c, want);
      && Stream(d) == Stream(c) && c.inbuf <= d.inbuf && (ok <==> want <= |d.inbuf|)
      && d == c.(inbuf := d.inbuf, others := d.others, script := d.script)
    decreases |c.script|
  {
    if |c.inbuf| < want && c.script != [] {
      var (d, on) := Turn(c);
      assert Stream(d) == Stream(c);
      if on {
        RecvKeepsTheStream(d, want);
      }
    }
  }

  /** A `Next` that yields nothing consumes nothing; one that yields a message yields the first of the stream. */
  lemma NextFrames(c: Client)
    ensures var (d, g) := Next(c);
      && d == c.(inbuf := d.inbuf, others := d.others, script := d.script, log := d.log)
      && (g.Message? ==>
            && Starts(Stream(c)) && g.bytes == Stream(c)[..Size(Stream(c))] && Stream(d) == Stream(c)[Size(Stream(c))..]
            && d.log == c.log + [g.bytes] && |g.bytes| >= FIXED && g.kind == KindOf(g.bytes))
      && (!g.Message? ==> Stream(d) == Stream(c) && c.inbuf <= d.inbuf && d.log == c.log)
      && (g == Overrun ==> FIXED <= |Stream(c)| && Size(Stream(c)) < FIXED)
  {
    hide Size, Recv;
    var (c1, ok1) := Recv(c, FIXED);
    RecvKeepsTheStream(c, FIXED);
    if ok1 {
      StartStands(c1.inbuf, Ours(c1.script));
      var n := Size(c1.inbuf);
      if FIXED <= n {
        RecvKeepsTheStream(c1, n);
      }
    }
  }

  lemma RecvReady(c: Client, want: nat)
    requires want <= |c.inbuf|
    ensures Recv(c, want) == (c, true)
  {}

  lemma SizeWithMore(b: Bytes)
    requires FIXED <= |b|
    ensures Size(b) == if HasMore(b) then (FIXED + U32(b, 4) * 4 % UINT32) % UINT32 else FIXED
  {}

  /** What the channel says before the first time it says nothing, or closes. */
  function UpToBreak(script: seq<Outcome>): seq<Outcome> {
    if script == [] || script[0].NoFrame? || script[0].Closed? then [] else [script[0]] + UpToBreak(script[1..])
  }

  /** A receive gets its bytes exactly when they are buffered or arrive before the first such break; it does not wait
    * past one. */
  lemma {:induction false} RecvGetsIff(c: Client, want: nat)
    ensures Recv(c, want).1 <==> want <= |c.inbuf + Ours(UpToBreak(c.script))|
    decreases |c.script|
  {
    if want > |c.inbuf| && c.script != [] {
      var (d, on) := Turn(c);
      if on {
        assert UpToBreak(c.script)[1..] == UpToBreak(c.script[1..]);
        RecvGetsIff(d, want);
      }
    }
  }

  /** With no timeout or closing in the way, `Next` finds a message exactly when the stream has one. */
  predicate Unbroken(script: seq<Outcome>) {
    script == [] || (!script[0].NoFrame? && !script[0].Closed? && Unbroken(script[1..]))
  }

  lemma {:induction false} UnbrokenRecv(c: Client, want: nat)
    requires Unbroken(c.script)
    ensures var (d, ok) := Recv(c, want); Unbroken(d.script) && (ok <==> want <= |Stream(c)|)
    decreases |c.script|
  {
    if |c.inbuf| < want && c.script != [] {
      var (d, on) := Turn(c);
      assert Stream(d) == Stream(c);
      UnbrokenRecv(d, want);
    }
  }

  lemma NextFindsIff(c: Client)
    requires Unbroken(c.script)
    ensures Next(c).1.Message? <==> Starts(Stream(c))
    ensures Unbroken(Next(c).0.script)
  {
    hide Size, Recv;
    var (c1, ok1) := Recv(c, FIXED);
    RecvKeepsTheStream(c, FIXED);
    UnbrokenRecv(c, FIXED);
    if ok1 {
      StartStands(c1.inbuf, Ours(c1.script));
      UnbrokenRecv(c1, Size(c1.inbuf));
      RecvKeepsTheStream(c1, Size(c1.inbuf));
    }
  }

  // ---- waiting for a message ------------------------------------------------------------------------------------

  datatype Want = ReplyTo(request: nat) | EventOf(kind: nat, window: nat)

  /** The window an event names. */
  function EventWindow(m: Msg): nat
    requires FIXED <= |m|
  {
    var t := Type(m);
    if 2 <= t <= 8 then U32(m, 12)
    else if t == 29 || t == 31 then U32(m, 8)
    else if t == 30 then U32(m, 12)
    else U32(m, 4)
  }

  predicate Matches(m: Msg, kind: nat, window: nat)
    requires FIXED <= |m|
  {
    Type(m) == kind && (window == 0 || EventWindow(m) == window)
  }

  predicate Wanted(w: Want, m: Msg)
    requires FIXED <= |m|
  {
    match w
    case ReplyTo(request) => KindOf(m) == Reply && U16(m, 2) == request % 0x1_0000
    case EventOf(kind, window) => KindOf(m) == Event && Matches(m, kind, window)
  }

  /** A message answers a request exactly when it is a reply and carries the low sixteen bits of the request's
    * number. */
  lemma AnswersIff(code: Byte, detail: Byte, low: Byte, high: Byte, rest: Bytes, request: nat)
    requires 28 <= |rest|
    ensures Wanted(ReplyTo(request), [code, detail, low, high] + rest) <==>
            (code == 1 || code == 0x81) && exists n: nat :: request == n * 0x1_0000 + (0x100 * high + low)
  {
    var m, seqNo := [code, detail, low, high] + rest, 0x100 * high + low;
    assert U16(m, 2) == seqNo;
    if request % 0x1_0000 == seqNo {
      assert request == request / 0x1_0000 * 0x1_0000 + seqNo;
    }
    forall n: nat | request == n * 0x1_0000 + seqNo
      ensures request % 0x1_0000 == seqNo
    {
    }
  }

  /** An event is the one waited for exactly when it is of that kind and names that window, or any will do. */
  lemma IsAwaitedIff(head: Bytes, skipped: Bytes, named: nat, tail: Bytes, kind: nat, window: nat)
    requires |head| == 4 && named < UINT32 && 32 <= |head + skipped + Little(named) + tail|
    requires var code := head[0] % 128;
      |skipped| == if 2 <= code <= 8 || code == 30 then 8 else if code == 29 || code == 31 then 4 else 0
    ensures Wanted(EventOf(kind, window), head + skipped + Little(named) + tail) <==>
            2 <= kind && (head[0] == kind || head[0] == 0x80 + kind) && kind < 0x80 && (window == 0 || window == named)
  {
    hide EventWindow, Little;
    EventNamesItsWindow(head, skipped, named, tail);
    assert (head + skipped + Little(named) + tail)[0] == head[0];
  }

  /** The event just read goes to the back of the queue, or straight to the caller. */
  function SetAside(c: Client): Client
    requires c.log != []
  {
    c.(events := c.events + [c.log[|c.log| - 1]], held := c.held + [|c.log| - 1])
  }

  function HandOut(c: Client): Client
    requires c.log != []
  {
    if c.log[|c.log| - 1] != [] && KindOf(c.log[|c.log| - 1]) == Event then c.(given := c.given + [|c.log| - 1]) else c
  }

  /** The loop of `reply` and of `event`: at most `attempts` turns before the time is up. */
  function Await(c: Client, w: Want, attempts: nat): (Client, Option<Msg>)
    decreases attempts
  {
    if attempts == 0 then (c, None)
    else
      var (d, g) := Next(c);
      NextFrames(c);
      match g
      case Nothing => Await(d, w, attempts - 1)
      case Overrun => (d, None)
      case Message(kind, m) =>
        if Wanted(w, m) then (HandOut(d), Some(m))
        else Await(if kind == Event then SetAside(d) else d, w, attempts - 1)
  }

  function EventsOf(ms: seq<Msg>): seq<Msg> {
    if ms == [] then []
    else
      var m := ms[|ms| - 1];
      EventsOf(ms[..|ms| - 1]) + (if m != [] && KindOf(m) == Event then [m] else [])
  }

  ghost predicate NoneWanted(w: Want, ms: seq<Msg>) {
    forall i :: 0 <= i < |ms| ==> FIXED <= |ms[i]| && !Wanted(w, ms[i])
  }

  /** What the wait read, and what became of it: the answer is the first message wanted, every event read before it
    * joined the queue in the order it came, and nothing else moved. */
  ghost predicate Awaited(c: Client, d: Client, r: Option<Msg>, w: Want) {
    && c.log <= d.log
    && var news := d.log[|c.log|..];
      if r == None then NoneWanted(w, news) && d.events == c.events + EventsOf(news)
      else
        && news != [] && r.value == news[|news| - 1] && FIXED <= |r.value| && Wanted(w, r.value)
        && NoneWanted(w, news[..|news| - 1]) && d.events == c.events + EventsOf(news[..|news| - 1])
  }

  lemma EventsOfConcat(a: seq<Msg>, b: seq<Msg>)
    ensures EventsOf(a + b) == EventsOf(a) + EventsOf(b)
    decreases |b|
  {
    if b == [] {
      assert a + b == a;
    } else {
      assert (a + b)[..|a + b| - 1] == a + b[..|b| - 1];
      EventsOfConcat(a, b[..|b| - 1]);
    }
  }

  lemma OneEvent(m: Msg)
    ensures EventsOf([m]) == if m != [] && KindOf(m) == Event then [m] else []
  {}

  /** A wait that first read `m`, which was not wanted. */
  lemma AwaitedAfter(c: Client, e: Client, d: Client, r: Option<Msg>, w: Want, m: Msg)
    requires FIXED <= |m| && !Wanted(w, m) && e.log == c.log + [m] && e.events == c.events + EventsOf([m])
    requires Awaited(e, d, r, w)
    ensures Awaited(c, d, r, w)
  {
    hide Wanted, EventsOf;
    var later := d.log[|e.log|..];
    var news := d.log[|c.log|..];
    assert news == [m] + later;
    EventsOfConcat([m], later);
    if r != None {
      assert news[..|news| - 1] == [m] + later[..|later| - 1];
      EventsOfConcat([m], later[..|later| - 1]);
    }
  }

  /** For every way the bytes may arrive, the answer is the first message read that was wanted. */
  lemma {:induction false} AwaitFindsTheFirst(c: Client, w: Want, attempts: nat)
    ensures var (d, r) := Await(c, w, attempts); Awaited(c, d, r, w)
    decreases attempts
  {
    hide Wanted, Next, Awaited, EventsOf, HandOut;
    NothingAwaited(c, w);
    if attempts > 0 {
      var (d, g) := Next(c);
      NextFrames(c);
      match g
      case Nothing =>
        AwaitFindsTheFirst(d, w, attempts - 1);
        var (d', r) := Await(d, w, attempts - 1);
        AwaitedFrom(c, d, d', r, w);
      case Overrun =>
        NothingAwaited(d, w);
        AwaitedFrom(c, d, d, None, w);
      case Message(kind, m) =>
        if Wanted(w, m) {
          AwaitedAtOnce(c, d, w, m);
        } else {
          OneEvent(m);
          var e := if kind == Event then SetAside(d) else d;
          AwaitFindsTheFirst(e, w, attempts - 1);
          var (d', r) := Await(e, w, attempts - 1);
          AwaitedAfter(c, e, d', r, w, m);
        }
    }
  }

  lemma NothingAwaited(c: Client, w: Want)
    ensures Awaited(c, c, None, w)
  {}

  lemma AwaitedFrom(c: Client, d: Client, e: Client, r: Option<Msg>, w: Want)
    requires c.log == d.log && c.events == d.events && Awaited(d, e, r, w)
    ensures Awaited(c, e, r, w)
  {}

  lemma AwaitedAtOnce(c: Client, d: Client, w: Want, m: Msg)
    requires FIXED <= |m| && Wanted(w, m) && d.log == c.log + [m] && d.events == c.events
    ensures Awaited(c, HandOut(d), Some(m), w)
  {}

  /** With nothing in the way, the first wanted message of the stream is found as soon as there are turns enough to read
    * that far. */
  lemma {:induction false} AwaitFindsWhatComes(c: Client, w: Want, attempts: nat, i: nat)
    requires Unbroken(c.script) && i < |Framed(Stream(c))| && i < attempts
    requires FIXED <= |Framed(Stream(c))[i]| && Wanted(w, Framed(Stream(c))[i]) && NoneWanted(w, Framed(Stream(c))[..i])
    ensures Await(c, w, attempts).1 == Some(Framed(Stream(c))[i])
    decreases attempts
  {
    hide Wanted, Next, Unbroken, Stream, Size, Starts;
    var s := Stream(c);
    var (d, g) := Next(c);
    NextFrames(c);
    NextFindsIff(c);
    assert Framed(s) == [g.bytes] + Framed(Stream(d));
    if i > 0 {
      assert Framed(s)[..i][0] == g.bytes;
      var e := if g.kind == Event then SetAside(d) else d;
      SetAsideStream(d);
      forall k | 0 <= k < i - 1
        ensures Framed(Stream(d))[k] == Framed(s)[..i][k + 1]
      {}
      AwaitFindsWhatComes(e, w, attempts - 1, i - 1);
    }
  }

  /** The first event of the queue that matches; the length of the queue when none does. */
  function FirstMatch(events: seq<Msg>, kind: nat, window: nat): (i: nat)
    requires forall k :: 0 <= k < |events| ==> FIXED <= |events[k]|
    ensures i <= |events| && (i < |events| ==> Matches(events[i], kind, window))
    ensures forall k :: 0 <= k < i ==> !Matches(events[k], kind, window)
  {
    if events == [] || Matches(events[0], kind, window) then 0 else 1 + FirstMatch(events[1..], kind, window)
  }

  // ---- what every run keeps -------------------------------------------------------------------------------------

  ghost predicate IsEvent(log: seq<Msg>, i: nat)
    requires i < |log|
  {
    FIXED <= |log[i]| && KindOf(log[i]) == Event
  }

  ghost predicate Increasing(s: seq<nat>) {
    forall i, j :: 0 <= i < j < |s| ==> s[i] < s[j]
  }

  ghost predicate Distinct(s: seq<nat>) {
    forall i, j :: 0 <= i < j < |s| ==> s[i] != s[j]
  }

  /** Every event read is in the queue or has been handed out, never both and never twice, and the queue is in order of
    * arrival. */
  ghost predicate Ledger(c: Client) {
    && (forall i :: 0 <= i < |c.log| ==> FIXED <= |c.log[i]|)
    && |c.held| == |c.events|
    && (forall k :: 0 <= k < |c.held| ==> c.held[k] < |c.log| && c.events[k] == c.log[c.held[k]])
    && (forall k :: 0 <= k < |c.given| ==> c.given[k] < |c.log|)
    && Increasing(c.held) && Distinct(c.given)
    && (forall i :: 0 <= i < |c.log| ==> (IsEvent(c.log, i) <==> i in c.held || i in c.given))
    && (forall i :: !(i in c.held && i in c.given))
  }

  ghost predicate Inv(start: Bytes, c: Client) {
    Cuts(start, c.log, Stream(c)) && Ledger(c)
  }

  /** `c` with one more message read, which is neither queued nor handed out yet. */
  ghost predicate Reads(c: Client, d: Client, m: Msg) {
    FIXED <= |m| && d.log == c.log + [m] && d.events == c.events && d.held == c.held && d.given == c.given
  }

  lemma LedgerPasses(c: Client, d: Client, m: Msg)
    requires Ledger(c) && Reads(c, d, m) && KindOf(m) != Event
    ensures Ledger(d)
  {}

  lemma LedgerSetsAside(c: Client, d: Client, m: Msg)
    requires Ledger(c) && Reads(c, d, m) && KindOf(m) == Event
    ensures Ledger(SetAside(d))
  {}

  lemma LedgerHandsOut(c: Client, d: Client, m: Msg)
    requires Ledger(c) && Reads(c, d, m)
    ensures Ledger(HandOut(d))
  {}

  function Remove<T>(s: seq<T>, i: nat): (r: seq<T>)
    requires i < |s|
    ensures |r| == |s| - 1
  {
    s[..i] + s[i + 1..]
  }

  lemma RemovedAt<T>(s: seq<T>, i: nat, k: nat)
    requires i < |s| && k < |s| - 1
    ensures Remove(s, i)[k] == s[if k < i then k else k + 1]
  {}

  predicate Queued(c: Client) {
    forall k :: 0 <= k < |c.events| ==> FIXED <= |c.events[k]|
  }

  /** The queued event `i` goes to the caller. */
  function Given(c: Client, i: nat): Client
    requires |c.held| == |c.events| && i < |c.events|
  {
    c.(events := Remove(c.events, i), held := Remove(c.held, i), given := c.given + [c.held[i]])
  }

  /** `event`: the queue first, then the stream. */
  function AwaitEvent(c: Client, kind: nat, window: nat, attempts: nat): (Client, Option<Msg>)
    requires Queued(c) && |c.held| == |c.events|
  {
    var i := FirstMatch(c.events, kind, window);
    if i < |c.events| then (Given(c, i), Some(c.events[i])) else Await(c, EventOf(kind, window), attempts)
  }

  lemma RemovedOne(held: seq<nat>, i: nat, x: nat)
    requires Increasing(held) && i < |held|
    ensures x in Remove(held, i) <==> x in held && x != held[i]
    ensures Increasing(Remove(held, i))
  {}

  lemma LedgerGives(c: Client, i: nat)
    requires Ledger(c) && i < |c.events|
    ensures Ledger(Given(c, i))
  {
    hide Remove, IsEvent;
    var d := Given(c, i);
    assert c.held[i] in c.held && c.held[i] !in c.given;
    forall x: nat
      ensures x in d.held <==> x in c.held && x != c.held[i]
    {
      RemovedOne(c.held, i, x);
    }
    RemovedOne(c.held, i, 0);
    forall x: nat
      ensures x in d.given <==> x in c.given || x == c.held[i]
    {}
    assert Distinct(d.given);
    forall k | 0 <= k < |d.held|
      ensures d.held[k] < |d.log| && d.events[k] == d.log[d.held[k]]
    {
      RemovedAt(c.held, i, k);
      RemovedAt(c.events, i, k);
    }
  }

  // ---- runs -----------------------------------------------------------------------------------------------------

  lemma {:induction false} AwaitKeepsLedger(c: Client, w: Want, attempts: nat)
    requires Ledger(c)
    ensures Ledger(Await(c, w, attempts).0)
    decreases attempts
  {
    hide Wanted, Next, Ledger, SetAside, HandOut;
    if attempts > 0 {
      var (d, g) := Next(c);
      NextFrames(c);
      match g
      case Nothing =>
        LedgerStays(c, d);
        AwaitKeepsLedger(d, w, attempts - 1);
      case Overrun => LedgerStays(c, d);
      case Message(kind, m) =>
        if Wanted(w, m) {
          LedgerHandsOut(c, d, m);
        } else if kind == Event {
          LedgerSetsAside(c, d, m);
          AwaitKeepsLedger(SetAside(d), w, attempts - 1);
        } else {
          LedgerPasses(c, d, m);
          AwaitKeepsLedger(d, w, attempts - 1);
        }
    }
  }

  lemma {:induction false} AwaitCuts(start: Bytes, c: Client, w: Want, attempts: nat)
    requires Cuts(start, c.log, Stream(c))
    ensures var d := Await(c, w, attempts).0; Cuts(start, d.log, Stream(d))
    decreases attempts
  {
    hide Wanted, Next, SetAside, HandOut, Starts, Size, Stream, Cuts;
    if attempts > 0 {
      var (d, g) := Next(c);
      NextFrames(c);
      match g
      case Nothing => AwaitCuts(start, d, w, attempts - 1);
      case Overrun =>
      case Message(kind, m) =>
        CutsOneMore(start, c.log, Stream(c));
        SetAsideStream(d);
        if !Wanted(w, m) {
          AwaitCuts(start, if kind == Event then SetAside(d) else d, w, attempts - 1);
        }
    }
  }

  lemma SetAsideStream(d: Client)
    requires d.log != []
    ensures Stream(SetAside(d)) == Stream(HandOut(d)) == Stream(d) && SetAside(d).log == HandOut(d).log == d.log
  {}

  lemma LedgerStays(c: Client, d: Client)
    requires Ledger(c) && d == c.(inbuf := d.inbuf, others := d.others, script := d.script)
    ensures Ledger(d)
  {}

  datatype Call = CallReply(request: nat, attempts: nat) | CallEvent(kind: nat, window: nat, attempts: nat)

  function Step(c: Client, call: Call): (Client, Option<Msg>)
    requires Ledger(c)
  {
    match call
    case CallReply(request, attempts) => Await(c, ReplyTo(request), attempts)
    case CallEvent(kind, window, attempts) =>
      LedgerQueued(c);
      AwaitEvent(c, kind, window, attempts)
  }

  lemma LedgerQueued(c: Client)
    requires Ledger(c)
    ensures Queued(c) && |c.held| == |c.events|
  {}

  lemma GivenStream(c: Client, i: nat)
    requires |c.held| == |c.events| && i < |c.events|
    ensures Stream(Given(c, i)) == Stream(c) && Given(c, i).log == c.log
  {}

  lemma StepKeepsLedger(c: Client, call: Call)
    requires Ledger(c)
    ensures Ledger(Step(c, call).0)
  {
    hide Ledger, Await, Given;
    LedgerQueued(c);
    match call
    case CallReply(request, attempts) => AwaitKeepsLedger(c, ReplyTo(request), attempts);
    case CallEvent(kind, window, attempts) =>
      var i := FirstMatch(c.events, kind, window);
      if i < |c.events| {
        LedgerGives(c, i);
      } else {
        AwaitKeepsLedger(c, EventOf(kind, window), attempts);
      }
  }

  lemma StepCuts(start: Bytes, c: Client, call: Call)
    requires Inv(start, c)
    ensures var d := Step(c, call).0; Cuts(start, d.log, Stream(d))
  {
    hide Ledger, Cuts, Await, Given;
    LedgerQueued(c);
    match call
    case CallReply(request, attempts) => AwaitCuts(start, c, ReplyTo(request), attempts);
    case CallEvent(kind, window, attempts) =>
      var i := FirstMatch(c.events, kind, window);
      if i < |c.events| {
        GivenStream(c, i);
      } else {
        AwaitCuts(start, c, EventOf(kind, window), attempts);
      }
  }

  function Run(c: Client, calls: seq<Call>): Client
    requires Ledger(c)
    decreases |calls|
  {
    if calls == [] then c
    else
      StepKeepsLedger(c, calls[0]);
      Run(Step(c, calls[0]).0, calls[1..])
  }

  /** Any run of waits keeps the ledger, and has read exactly the first messages of the stream it started with. */
  lemma {:induction false} RunKeepsInv(start: Bytes, c: Client, calls: seq<Call>)
    requires Inv(start, c)
    ensures Inv(start, Run(c, calls))
    decreases |calls|
  {
    hide Step, Ledger, Cuts;
    if calls != [] {
      StepKeepsLedger(c, calls[0]);
      StepCuts(start, c, calls[0]);
      RunKeepsInv(start, Step(c, calls[0]).0, calls[1..]);
    }
  }

  function Fresh(inbuf: Bytes, script: seq<Outcome>): (c: Client)
    ensures Inv(Stream(c), c)
  {
    Client(inbuf, [], [], script, [], [], [])
  }

  /** What has been read never depends on how the bytes were cut into frames or on the timeouts between them: one
    * stream, delivered in two ways to clients that wait for different things, gives messages that agree as far as both
    * have read, and all the same ones when neither has a whole message left. */
  lemma ArrivalDoesNotMatter(c: Client, d: Client, cCalls: seq<Call>, dCalls: seq<Call>)
    requires c == Fresh(c.inbuf, c.script) && d == Fresh(d.inbuf, d.script) && Stream(c) == Stream(d)
    ensures var (c', d') := (Run(c, cCalls), Run(d, dCalls));
      && c'.log + Framed(Stream(c')) == d'.log + Framed(Stream(d')) == Framed(Stream(c))
      && (c'.log <= d'.log || d'.log <= c'.log)
      && (!Starts(Stream(c')) && !Starts(Stream(d')) ==> c'.log == d'.log == Framed(Stream(c)))
  {
    hide Run, Starts, Cuts, Ledger;
    RunKeepsInv(Stream(c), c, cCalls);
    RunKeepsInv(Stream(c), d, dCalls);
    var c', d' := Run(c, cCalls), Run(d, dCalls);
    CutsThenFramed(Stream(c), c'.log, Stream(c'));
    CutsThenFramed(Stream(c), d'.log, Stream(d'));
    PrefixesOfOne(c'.log, Framed(Stream(c')), d'.log, Framed(Stream(d')));
  }

  lemma PrefixesOfOne(a: seq<Msg>, x: seq<Msg>, b: seq<Msg>, y: seq<Msg>)
    requires a + x == b + y
    ensures a <= b || b <= a
    ensures x == [] && y == [] ==> a == b
  {
    assert forall i :: 0 <= i < |a| ==> a[i] == (b + y)[i];
  }

  // ---- sending --------------------------------------------------------------------------------------------------

  const MAX_PAYLOAD: nat := 0x10_0000

  /** The frames raw bytes go out in: one byte each, or as large as a frame may be. */
  function Pieces(bytes: Bytes, fragmented: bool): seq<Bytes>
    decreases |bytes|
  {
    if bytes == [] then []
    else
      var n := if fragmented then 1 else if |bytes| < MAX_PAYLOAD then |bytes| else MAX_PAYLOAD;
      [bytes[..n]] + Pieces(bytes[n..], fragmented)
  }

  function Concat(frames: seq<Bytes>): Bytes {
    if frames == [] then [] else frames[0] + Concat(frames[1..])
  }

  /** Sent whole, in order, no frame empty and none too large to be accepted. */
  lemma {:induction false} PiecesAreTheBytes(bytes: Bytes, fragmented: bool)
    ensures Concat(Pieces(bytes, fragmented)) == bytes
    ensures forall i :: 0 <= i < |Pieces(bytes, fragmented)| ==>
      1 <= |Pieces(bytes, fragmented)[i]| <= (if fragmented then 1 else MAX_PAYLOAD)
    decreases |bytes|
  {
    if bytes != [] {
      var n := if fragmented then 1 else if |bytes| < MAX_PAYLOAD then |bytes| else MAX_PAYLOAD;
      PiecesAreTheBytes(bytes[n..], fragmented);
    }
  }

  /** How many of `n` frames the channel takes before it refuses one. */
  function Accepted(answers: seq<bool>, n: nat): (k: nat)
    ensures k <= n
  {
    if n == 0 || answers == [] || !answers[0] then 0 else 1 + Accepted(answers[1..], n - 1)
  }

  lemma PiecesStep(bytes: Bytes, off: nat, n: nat, fragmented: bool)
    requires off < |bytes|
    requires n == if fragmented then 1 else if |bytes| - off < MAX_PAYLOAD then |bytes| - off else MAX_PAYLOAD
    ensures Pieces(bytes[off..], fragmented) == [bytes[off..off + n]] + Pieces(bytes[off + n..], fragmented)
  {
    assert bytes[off..][..n] == bytes[off..off + n] && bytes[off..][n..] == bytes[off + n..];
  }

  lemma OneMorePiece(all: seq<Bytes>, i: nat)
    requires i < |all|
    ensures all[i..][0] == all[i] && all[i..][1..] == all[i + 1..] && all[..i] + [all[i]] == all[..i + 1]
  {}

  lemma NoPieces(fragmented: bool)
    ensures Pieces([], fragmented) == []
  {}

  lemma AcceptedStep(answers: seq<bool>, n: nat)
    ensures Accepted(answers, n) ==
      if n == 0 || answers == [] || !answers[0] then 0 else 1 + Accepted(answers[1..], n - 1)
  {}

  /** A request with its length, in units of four, written into bytes two and three. */
  function Stamped(req: Bytes): (r: Bytes)
    requires 4 <= |req|
    ensures |r| == |req|
  {
    req[2 := |req| / 4 % 0x100][3 := |req| / 4 / 0x100 % 0x100]
  }

  /** A BIG-REQUESTS request: length zero, then the length in 32 bits. */
  function Big(req: Bytes): (r: Bytes)
    requires 4 <= |req|
    ensures |r| == |req| + 4
  {
    var units := (|req| + 4) / 4 % UINT32;
    req[..2] + [0, 0]
    + [units % 0x100, units / 0x100 % 0x100, units / 0x1_0000 % 0x100, units / 0x100_0000 % 0x100]
    + req[4..]
  }

  /** The length field says how long the request is exactly when it is a whole number of units that sixteen bits
    * hold. */
  lemma StampedLengthIff(req: Bytes)
    requires 4 <= |req|
    ensures U16(Stamped(req), 2) * 4 == |req| <==> |req| % 4 == 0 && |req| < 0x4_0000
    ensures Stamped(req)[..2] == req[..2] && Stamped(req)[4..] == req[4..]
  {}

  lemma FourBytes(n: nat)
    requires n < UINT32
    ensures n % 0x100 + 0x100 * (n / 0x100 % 0x100) + 0x1_0000 * (n / 0x1_0000 % 0x100)
      + 0x100_0000 * (n / 0x100_0000 % 0x100) == n
  {
    var p := n / 0x100;
    var q := p / 0x100;
    var r := q / 0x100;
    assert n == 0x100 * p + n % 0x100 && p == 0x100 * q + p % 0x100 && q == 0x100 * r + q % 0x100;
    assert n / 0x1_0000 == q && n / 0x100_0000 == r;
  }

  /** The same for a big request, whose short length is zero and whose long one counts itself. */
  lemma BigLengthIff(req: Bytes)
    requires 4 <= |req|
    ensures U16(Big(req), 2) == 0 && Big(req)[..2] == req[..2] && Big(req)[8..] == req[4..]
    ensures U32(Big(req), 4) * 4 == |Big(req)| <==> |req| % 4 == 0 && |Big(req)| < 0x4_0000_0000
  {
    var units := (|req| + 4) / 4 % UINT32;
    FourBytes(units);
    var b := Big(req);
    assert b[4] == units % 0x100 && b[5] == units / 0x100 % 0x100;
    assert b[6] == units / 0x1_0000 % 0x100 && b[7] == units / 0x100_0000 % 0x100;
    assert U32(b, 4) == units;
  }

  // ---- the client -----------------------------------------------------------------------------------------------

  class XClient {
    var inbuf: Bytes
    var events: seq<Msg>
    var others: seq<Bytes>
    var requests: nat
    const fragmented: bool
    /** The channel: what polling will answer, what it will say to each frame sent, and the frames it took. */
    var script: seq<Outcome>
    var answers: seq<bool>
    var sent: seq<Bytes>
    ghost var log: seq<Msg>
    ghost var held: seq<nat>
    ghost var given: seq<nat>

    ghost function View(): Client
      reads this
    {
      Client(inbuf, events, others, script, log, held, given)
    }

    constructor (script: seq<Outcome>, answers: seq<bool>, fragmented: bool)
      ensures View() == Fresh([], script) && sent == [] && requests == 0
      ensures this.answers == answers && this.fragmented == fragmented
    {
      inbuf, events, others, requests, sent := [], [], [], 0, [];
      this.script, this.answers, this.fragmented := script, answers, fragmented;
      log, held, given := [], [], [];
    }

    /** Receives until `want` bytes are buffered; false when the time is up first. */
    method Receive(want: nat) returns (ok: bool)
      modifies this`inbuf, this`others, this`script
      ensures (View(), ok) == Recv(old(View()), want)
    {
      while |inbuf| < want
        invariant Recv(View(), want) == Recv(old(View()), want)
        decreases |script|
      {
        if script == [] {
          return false;
        }
        var r := script[0];
        script := script[1..];
        match r
        case Data(b) => inbuf := inbuf + b;
        case Foreign(b) => others := others + [b];
        case Host =>
        case NoFrame => return false;
        case Closed => return false;
      }
      return true;
    }

    /** Pulls one message off the stream. */
    method Pull() returns (g: Got)
      modifies this`inbuf, this`others, this`script, this`log
      ensures (View(), g) == Next(old(View()))
    {
      hide Recv, Size;
      var ok := Receive(FIXED);
      if !ok {
        return Nothing;
      }
      var kind := Type(inbuf);
      if kind == 1 || kind == 35 {
        var extra := U32(inbuf, 4) * 4 % UINT32;
        var size := (FIXED + extra) % UINT32;
        assert size == Size(inbuf) by { SizeWithMore(inbuf); }
        if size < FIXED {
          return Overrun;
        }
        RecvKeepsTheStream(View(), size);
        ok := Receive(size);
        if !ok {
          return Nothing;
        }
        var m := inbuf[..size];
        inbuf := inbuf[size..];
        log := log + [m];
        return Message(if kind == 1 then Reply else Event, m);
      }
      assert FIXED == Size(inbuf) by { SizeWithMore(inbuf); }
      RecvReady(View(), FIXED);
      var m := inbuf[..FIXED];
      inbuf := inbuf[FIXED..];
      log := log + [m];
      return Message(if kind == 0 then Error else Event, m);
    }

    /** Waits for the reply to `request`, queueing the events seen on the way. */
    method AwaitReply(request: nat, attempts: nat) returns (out: Option<Msg>)
      modifies this`inbuf, this`others, this`script, this`events, this`log, this`held, this`given
      ensures (View(), out) == Await(old(View()), ReplyTo(request), attempts)
    {
      hide Next;
      for i := 0 to attempts
        invariant Await(View(), ReplyTo(request), attempts - i) == Await(old(View()), ReplyTo(request), attempts)
      {
        NextFrames(View());
        var g := Pull();
        match g
        case Nothing =>
        case Overrun => return None;
        case Message(kind, m) =>
          if kind == Reply && U16(m, 2) == request % 0x1_0000 {
            return Some(m);
          }
          if kind == Event {
            events := events + [m];
            held := held + [|log| - 1];
          }
      }
      return None;
    }

    /** Waits for an event of a kind on a window, or on any window when that is zero, queueing the others. */
    method AwaitEventOf(kind: nat, window: nat, attempts: nat) returns (out: Option<Msg>)
      requires Ledger(View())
      modifies this`inbuf, this`others, this`script, this`events, this`log, this`held, this`given
      ensures Queued(old(View())) && |old(held)| == |old(events)|
      ensures (View(), out) == AwaitEvent(old(View()), kind, window, attempts)
    {
      hide Next, Ledger;
      LedgerQueued(View());
      var k := 0;
      while k < |events|
        invariant 0 <= k <= |events| && View() == old(View())
        invariant FirstMatch(events, kind, window) == k + FirstMatch(events[k..], kind, window)
      {
        if Matches(events[k], kind, window) {
          out := Some(events[k]);
          given := given + [held[k]];
          held := Remove(held, k);
          events := Remove(events, k);
          return;
        }
        k := k + 1;
      }
      out := AwaitOnStream(kind, window, attempts);
    }

    /** The part of `event` that reads the stream. */
    method AwaitOnStream(kind: nat, window: nat, attempts: nat) returns (out: Option<Msg>)
      modifies this`inbuf, this`others, this`script, this`events, this`log, this`held, this`given
      ensures (View(), out) == Await(old(View()), EventOf(kind, window), attempts)
    {
      hide Next;
      for i := 0 to attempts
        invariant Await(View(), EventOf(kind, window), attempts - i) ==
                  Await(old(View()), EventOf(kind, window), attempts)
      {
        NextFrames(View());
        var g := Pull();
        match g
        case Nothing =>
        case Overrun => return None;
        case Message(k, m) =>
          if k == Event {
            if Matches(m, kind, window) {
              given := given + [|log| - 1];
              return Some(m);
            }
            events := events + [m];
            held := held + [|log| - 1];
          }
      }
      return None;
    }

    method SendData(frame: Bytes) returns (ok: bool)
      modifies this`answers, this`sent
      ensures ok == (old(answers) != [] && old(answers)[0] && |frame| <= MAX_PAYLOAD)
      ensures answers == if old(answers) == [] then [] else old(answers)[1..]
      ensures sent == if ok then old(sent) + [frame] else old(sent)
    {
      ok := answers != [] && answers[0] && |frame| <= MAX_PAYLOAD;
      if answers != [] {
        answers := answers[1..];
      }
      if ok {
        sent := sent + [frame];
      }
    }

    /** Raw bytes in frame-sized pieces, or one byte per frame, up to the first that is refused. */
    method SendRaw(bytes: Bytes) returns (ok: bool)
      modifies this`answers, this`sent
      ensures var pieces := Pieces(bytes, fragmented);
        var k := Accepted(old(answers), |pieces|);
        sent == old(sent) + pieces[..k] && (ok <==> k == |pieces|)
    {
      hide Pieces, Accepted;
      var off: nat := 0;
      ghost var all, i := Pieces(bytes, fragmented), 0;
      assert bytes[0..] == bytes;
      while off < |bytes|
        invariant off <= |bytes| && 0 <= i <= |all| && all[i..] == Pieces(bytes[off..], fragmented)
        invariant sent == old(sent) + all[..i]
        invariant Accepted(old(answers), |all|) == i + Accepted(answers, |all| - i)
      {
        var n := if fragmented then 1 else if |bytes| - off < MAX_PAYLOAD then |bytes| - off else MAX_PAYLOAD;
        PiecesStep(bytes, off, n, fragmented);
        AcceptedStep(answers, |all| - i);
        OneMorePiece(all, i);
        var accepted := SendData(bytes[off..off + n]);
        if !accepted {
          return false;
        }
        off := off + n;
        i := i + 1;
      }
      NoPieces(fragmented);
      assert bytes[off..] == [];
      AcceptedStep(answers, 0);
      return true;
    }

    method Send(req: Bytes) returns (ok: bool)
      requires 4 <= |req|
      modifies this`answers, this`sent, this`requests
      ensures requests == (old(requests) + 1) % UINT32
      ensures var pieces := Pieces(Stamped(req), fragmented);
        var k := Accepted(old(answers), |pieces|);
        sent == old(sent) + pieces[..k] && (ok <==> k == |pieces|)
    {
      requests := (requests + 1) % UINT32;
      ok := SendRaw(Stamped(req));
    }

    method SendBig(req: Bytes) returns (ok: bool)
      requires 4 <= |req|
      modifies this`answers, this`sent, this`requests
      ensures requests == (old(requests) + 1) % UINT32
      ensures var pieces := Pieces(Big(req), fragmented);
        var k := Accepted(old(answers), |pieces|);
        sent == old(sent) + pieces[..k] && (ok <==> k == |pieces|)
    {
      requests := (requests + 1) % UINT32;
      ok := SendRaw(Big(req));
    }
  }
}
