/** The visual identity of a host key (src/security/HostSigil.cpp): the text it is derived from, the figure, its
  * mnemonic and when two figures are the same.
  *
  * Coordinates are real numbers. Sine and cosine are parameters, and what is proved holds for any of them.
  */
module HostSigil {
  import opened Arithmetic
  import opened Bits
  import opened Wrappers
  import opened SigilHash

  const VERSION := 1
  const SHA256: Text := [0x53, 0x48, 0x41, 0x32, 0x35, 0x36, 0x3A]

  // ---- the source text ------------------------------------------------------------------------------------------

  predicate IsBlank(b: Byte) {
    b == 0x20 || b == 0x09 || b == 0x0D || b == 0x0A
  }

  predicate IsSpace(b: Byte) {
    IsBlank(b) || b == 0x0B || b == 0x0C
  }

  /** Where the first "SHA256:" starts. */
  function Find(t: Text): Option<nat> {
    if t == [] then None
    else if SHA256 <= t then Some(0)
    else match Find(t[1..]) case None => None case Some(i) => Some(i + 1)
  }

  function UpToBlank(t: Text): Text {
    if t == [] || IsBlank(t[0]) then [] else [t[0]] + UpToBlank(t[1..])
  }

  function TrimFront(t: Text): Text {
    if t != [] && IsSpace(t[0]) then TrimFront(t[1..]) else t
  }

  function TrimBack(t: Text): Text {
    if t != [] && IsSpace(t[|t| - 1]) then TrimBack(t[..|t| - 1]) else t
  }

  lemma {:induction false} FindInRange(t: Text)
    ensures Find(t).Some? ==> Find(t).value + 7 <= |t|
  {
    if t != [] && !(SHA256 <= t) {
      FindInRange(t[1..]);
    }
  }

  function SourceText(fingerprint: Text): Text {
    FindInRange(fingerprint);
    match Find(fingerprint)
    case Some(at) => UpToBlank(fingerprint[at + 7..])
    case None => TrimBack(TrimFront(fingerprint))
  }

  /** What is looked for begins with its only S, so it never starts inside one thing and ends inside another of
    * itself. */
  lemma {:induction false} FindAfter(prefix: Text, rest: Text)
    requires Find(prefix) == None
    ensures Find(prefix + SHA256 + rest) == Some(|prefix|)
  {
    var t := prefix + SHA256 + rest;
    if prefix == [] {
      assert t == SHA256 + rest;
    } else {
      if |prefix| < 7 {
        assert t[|prefix|] == SHA256[0] != SHA256[|prefix|];
      } else {
        assert t[..7] == prefix[..7];
      }
      assert t[1..] == prefix[1..] + SHA256 + rest;
      FindAfter(prefix[1..], rest);
    }
  }

  lemma {:induction false} UpToBlankStops(body: Text, rest: Text)
    requires forall b :: b in body ==> !IsBlank(b)
    requires rest != [] ==> IsBlank(rest[0])
    ensures UpToBlank(body + rest) == body
  {
    if body == [] {
      assert body + rest == rest;
    } else {
      assert (body + rest)[1..] == body[1..] + rest;
      UpToBlankStops(body[1..], rest);
    }
  }

  /** A fingerprint body is found whatever is printed before it, unless that holds a fingerprint itself, and whatever
    * comment after it. */
  lemma SourceTextIsTheBody(prefix: Text, body: Text, rest: Text)
    requires Find(prefix) == None
    requires forall b :: b in body ==> !IsBlank(b)
    requires rest != [] ==> IsBlank(rest[0])
    ensures SourceText(prefix + SHA256 + (body + rest)) == body
  {
    var t := prefix + SHA256 + (body + rest);
    FindAfter(prefix, body + rest);
    FindInRange(t);
    assert t[|prefix| + 7..] == body + rest;
    UpToBlankStops(body, rest);
  }

  // ---- the figure -----------------------------------------------------------------------------------------------

  datatype Node = Node(x: real, y: real, r: real, filled: bool)

  datatype Edge = Edge(a: nat, b: nat, doubled: bool)

  datatype Sigil = Sigil(version: int, seed: Word, nodes: seq<Node>, edges: seq<Edge>, corners: seq<real>,
                         rhythm: seq<real>, hueDeg: real, fromFingerprint: bool)

  datatype Trig = Trig(cos: real -> real, sin: real -> real)

  const TURN := 6.2831853

  /** A draw as a number from 0 up to, not including, 1. */
  function Unit(seed: Word, k: nat): real {
    Fraction(Draw(seed, k))
  }

  predicate Bit(seed: Word, k: nat) {
    Draw(seed, k) % 2 == 1
  }

  function NodeCount(seed: Word): nat {
    5 + Draw(seed, 1) % 4
  }

  function Fraction(x: nat): real {
    (x % 100000) as real / 100000.0
  }

  /** A node from its four draws: radial jitter, angular jitter, size and whether it is filled. */
  function NodeFrom(base: real, rad: real, wobble: real, size: real, filled: bool, trig: Trig): Node {
    Node(0.5 + trig.cos(base + wobble) * rad, 0.5 + trig.sin(base + wobble) * rad, size, filled)
  }

  function Base(phase: real, i: nat, n: nat): real
    requires 0 < n
  {
    phase + TURN * i as real / n as real
  }

  /** Node `i` uses four draws, after the two that chose the node count and the phase. */
  function NodeAt(seed: Word, i: nat, trig: Trig): Node {
    NodeFrom(Base(Unit(seed, 2) * TURN, i, NodeCount(seed)), 0.26 + Unit(seed, 4 * i + 3) * 0.16,
             (Unit(seed, 4 * i + 4) - 0.5) * 0.35, 0.045 + Unit(seed, 4 * i + 5) * 0.045, Bit(seed, 4 * i + 6), trig)
  }

  function Nodes(seed: Word, count: nat, trig: Trig): seq<Node> {
    if count == 0 then [] else Nodes(seed, count - 1, trig) + [NodeAt(seed, count - 1, trig)]
  }

  function Ring(n: nat, count: nat): seq<Edge>
    requires 0 < n
  {
    if count == 0 then [] else Ring(n, count - 1) + [Edge(count - 1, count % n, false)]
  }

  predicate Degenerate(a: nat, b: nat, n: nat)
    requires 0 < n
  {
    a == b || (a + 1) % n == b || (b + 1) % n == a
  }

  /** Up to `left` chords starting with draw `k + 1`, and the number of the last draw used. */
  function Chords(seed: Word, k: nat, left: nat, n: nat): (seq<Edge>, nat)
    requires 0 < n
    decreases left
  {
    if left == 0 then ([], k)
    else
      var a, b := Draw(seed, k + 1) % n, Draw(seed, k + 2) % n;
      if Degenerate(a, b, n) then Chords(seed, k + 2, left - 1, n)
      else
        var (more, last) := Chords(seed, k + 3, left - 1, n);
        ([Edge(a, b, Bit(seed, k + 3))] + more, last)
  }

  /** A corner is cut or square by one draw; a cut corner takes its size from a second. */
  function CornerAt(seed: Word, k: nat): real {
    if Bit(seed, k + 1) then 0.12 + Unit(seed, k + 2) * 0.20 else 0.0
  }

  function CornerEnd(seed: Word, k: nat): nat {
    if Bit(seed, k + 1) then k + 2 else k + 1
  }

  function Corners(seed: Word, k: nat, left: nat): (seq<real>, nat)
    decreases left
  {
    if left == 0 then ([], k)
    else
      var (more, last) := Corners(seed, CornerEnd(seed, k), left - 1);
      ([CornerAt(seed, k)] + more, last)
  }

  function Rhythm(seed: Word, k: nat, count: nat): seq<real> {
    if count == 0 then [] else Rhythm(seed, k, count - 1) + [0.4 + Unit(seed, k + count) * 1.6]
  }

  /** The whole figure is a function of the seed. */
  function Figure(seed: Word, trig: Trig, fromFingerprint: bool): Sigil {
    var n := NodeCount(seed);
    var k := 4 * n + 3;
    var (chords, k1) := Chords(seed, k, 1 + Draw(seed, k) % 3, n);
    var (corners, k2) := Corners(seed, k1, 4);
    var segs := 6 + Draw(seed, k2 + 1) % 5;
    Sigil(VERSION, seed, Nodes(seed, n, trig), Ring(n, n) + chords, corners, Rhythm(seed, k2 + 1, segs),
          Unit(seed, k2 + segs + 2) * 360.0, fromFingerprint)
  }

  function SeedText(fingerprint: Text): Text {
    if SourceText(fingerprint) == [] then fingerprint else SourceText(fingerprint)
  }

  function Made(fingerprint: Text, trig: Trig): Sigil {
    Figure(Fnv(SeedText(fingerprint)), trig, Find(fingerprint).Some? && 40 <= |SourceText(fingerprint)|)
  }

  method MakeSigil(fingerprint: Text, trig: Trig) returns (s: Sigil)
    ensures s == Made(fingerprint, trig)
  {
    hide Fnv, SourceText, Find, Figure;
    var body := SourceText(fingerprint);
    var seed := Fnv1a64(if body == [] then fingerprint else body);
    s := DrawFigure(seed, trig, Find(fingerprint).Some? && 40 <= |body|);
  }

  /** Everything after the seed: each part takes its draws from the one stream, in this order. */
  method DrawFigure(seed: Word, trig: Trig, fromFingerprint: bool) returns (s: Sigil)
    ensures s == Figure(seed, trig, fromFingerprint)
  {
    hide Draw, StateAt, Nodes, Ring, Chords, Corners, Rhythm, Fraction;
    var rnd := new Stream(seed);
    var x := rnd.Next();
    var n := 5 + x % 4;
    x := rnd.Next();
    var phase := Fraction(x) * TURN;
    var nodes := DrawNodes(rnd, n, phase, trig);
    var edges := RingEdges(n);
    x := rnd.Next();
    var chords := DrawChords(rnd, 1 + x % 3, n);
    var corners := DrawCorners(rnd, 4);
    x := rnd.Next();
    var rhythm := DrawRhythm(rnd, 6 + x % 5);
    x := rnd.Next();
    s := Sigil(VERSION, seed, nodes, edges + chords, corners, rhythm, Fraction(x) * 360.0, fromFingerprint);
  }

  method DrawNodes(rnd: Stream, n: nat, phase: real, trig: Trig) returns (nodes: seq<Node>)
    requires rnd.Valid() && rnd.drawn == 2 && n == NodeCount(rnd.seed) && phase == Unit(rnd.seed, 2) * TURN
    modifies rnd
    ensures rnd.Valid() && rnd.drawn == 4 * n + 2 && nodes == Nodes(rnd.seed, n, trig)
  {
    hide Draw, StateAt, Fraction, NodeFrom, Base;
    nodes := [];
    for i := 0 to n
      invariant rnd.Valid() && rnd.drawn == 4 * i + 2 && nodes == Nodes(rnd.seed, i, trig)
    {
      var a := rnd.Next();
      var b := rnd.Next();
      var c := rnd.Next();
      var d := rnd.Next();
      var rad := 0.26 + Fraction(a) * 0.16;
      var wobble := (Fraction(b) - 0.5) * 0.35;
      var node := NodeFrom(Base(phase, i, n), rad, wobble, 0.045 + Fraction(c) * 0.045, d % 2 == 1, trig);
      assert node == NodeAt(rnd.seed, i, trig);
      nodes := nodes + [node];
    }
  }

  method RingEdges(n: nat) returns (edges: seq<Edge>)
    requires 0 < n
    ensures edges == Ring(n, n)
  {
    edges := [];
    for i := 0 to n
      invariant edges == Ring(n, i)
    {
      edges := edges + [Edge(i, (i + 1) % n, false)];
    }
  }

  method DrawChords(rnd: Stream, chords: nat, n: nat) returns (edges: seq<Edge>)
    requires rnd.Valid() && 0 < n
    modifies rnd
    ensures rnd.Valid() && (edges, rnd.drawn) == Chords(rnd.seed, old(rnd.drawn), chords, n)
  {
    hide Draw, StateAt, Degenerate;
    edges := [];
    ghost var all := Chords(rnd.seed, rnd.drawn, chords, n);
    for i := 0 to chords
      invariant rnd.Valid()
      invariant var rest := Chords(rnd.seed, rnd.drawn, chords - i, n); all.0 == edges + rest.0 && all.1 == rest.1
    {
      var a := rnd.Next();
      var b := rnd.Next();
      if Degenerate(a % n, b % n, n) {
        continue;
      }
      var c := rnd.Next();
      edges := edges + [Edge(a % n, b % n, c % 2 == 1)];
    }
    assert edges + [] == edges;
  }

  method DrawCorner(rnd: Stream) returns (corner: real)
    requires rnd.Valid()
    modifies rnd
    ensures rnd.Valid()
    ensures corner == CornerAt(rnd.seed, old(rnd.drawn)) && rnd.drawn == CornerEnd(rnd.seed, old(rnd.drawn))
  {
    hide Draw, StateAt, Fraction;
    var a := rnd.Next();
    corner := 0.0;
    if a % 2 == 1 {
      var b := rnd.Next();
      corner := 0.12 + Fraction(b) * 0.20;
    }
  }

  method DrawCorners(rnd: Stream, count: nat) returns (corners: seq<real>)
    requires rnd.Valid()
    modifies rnd
    ensures rnd.Valid() && (corners, rnd.drawn) == Corners(rnd.seed, old(rnd.drawn), count)
  {
    hide CornerAt, CornerEnd, StateAt;
    corners := [];
    ghost var all := Corners(rnd.seed, rnd.drawn, count);
    for i := 0 to count
      invariant rnd.Valid()
      invariant var rest := Corners(rnd.seed, rnd.drawn, count - i); all.0 == corners + rest.0 && all.1 == rest.1
    {
      var corner := DrawCorner(rnd);
      corners := corners + [corner];
    }
    assert corners + [] == corners;
  }

  method DrawRhythm(rnd: Stream, segs: nat) returns (rhythm: seq<real>)
    requires rnd.Valid()
    modifies rnd
    ensures rnd.Valid() && rnd.drawn == old(rnd.drawn) + segs && rhythm == Rhythm(rnd.seed, old(rnd.drawn), segs)
  {
    hide Draw, StateAt, Fraction;
    rhythm := [];
    for i := 0 to segs
      invariant rnd.Valid() && rnd.drawn == old(rnd.drawn) + i && rhythm == Rhythm(rnd.seed, old(rnd.drawn), i)
    {
      var x := rnd.Next();
      rhythm := rhythm + [0.4 + Fraction(x) * 1.6];
    }
  }

  // ---- what every figure looks like -----------------------------------------------------------------------------

  ghost predicate Bounded(trig: Trig) {
    forall t :: -1.0 <= trig.cos(t) <= 1.0 && -1.0 <= trig.sin(t) <= 1.0
  }

  ghost predicate WellDrawn(s: Sigil) {
    var n := |s.nodes|;
    && 5 <= n <= 8 && n <= |s.edges| <= n + 3 && |s.corners| == 4 && 6 <= |s.rhythm| <= 10 && 0.0 <= s.hueDeg < 360.0
    && (forall i :: 0 <= i < n ==> s.edges[i] == Edge(i, (i + 1) % n, false))
    && (forall i :: n <= i < |s.edges| ==>
          s.edges[i].a < n && s.edges[i].b < n && !Degenerate(s.edges[i].a, s.edges[i].b, n))
    && (forall i :: 0 <= i < 4 ==> s.corners[i] == 0.0 || 0.12 <= s.corners[i] < 0.32)
    && (forall i :: 0 <= i < |s.rhythm| ==> 0.4 <= s.rhythm[i] < 2.0)
    && (forall i :: 0 <= i < n ==>
          0.08 < s.nodes[i].x < 0.92 && 0.08 < s.nodes[i].y < 0.92 && 0.045 <= s.nodes[i].r < 0.09)
  }

  lemma UnitRange(seed: Word, k: nat)
    ensures 0.0 <= Unit(seed, k) < 1.0
  {
    hide Draw;
  }

  lemma Scaled(c: real, rad: real)
    requires -1.0 <= c <= 1.0 && 0.0 < rad < 0.42
    ensures 0.08 < 0.5 + c * rad < 0.92
  {
    assert -rad <= c * rad <= rad;
  }

  lemma {:induction false} NodesInBox(seed: Word, count: nat, trig: Trig)
    requires Bounded(trig)
    ensures |Nodes(seed, count, trig)| == count
    ensures forall i :: 0 <= i < count ==>
              var v := Nodes(seed, count, trig)[i];
              0.08 < v.x < 0.92 && 0.08 < v.y < 0.92 && 0.045 <= v.r < 0.09
    decreases count
  {
    hide Unit, Bit, Base, Draw;
    if count != 0 {
      NodesInBox(seed, count - 1, trig);
      var i := count - 1;
      UnitRange(seed, 4 * i + 3);
      UnitRange(seed, 4 * i + 5);
      var t := Base(Unit(seed, 2) * TURN, i, NodeCount(seed)) + (Unit(seed, 4 * i + 4) - 0.5) * 0.35;
      Scaled(trig.cos(t), 0.26 + Unit(seed, 4 * i + 3) * 0.16);
      Scaled(trig.sin(t), 0.26 + Unit(seed, 4 * i + 3) * 0.16);
    }
  }

  lemma {:induction false} RingAt(n: nat, count: nat)
    requires 0 < n
    ensures |Ring(n, count)| == count
    ensures forall i :: 0 <= i < count ==> Ring(n, count)[i] == Edge(i, (i + 1) % n, false)
    decreases count
  {
    if count != 0 {
      RingAt(n, count - 1);
    }
  }

  ghost predicate Joined(edges: seq<Edge>, a: nat, b: nat) {
    Edge(a, b, false) in edges || Edge(b, a, false) in edges
  }

  /** A chord is degenerate exactly when it joins a node to itself or lies on an edge of the ring. */
  lemma DegenerateIff(a: nat, b: nat, n: nat)
    requires a < n && b < n
    ensures Degenerate(a, b, n) <==> a == b || Joined(Ring(n, n), a, b)
  {
    hide Ring;
    RingAt(n, n);
    assert Ring(n, n)[a] == Edge(a, (a + 1) % n, false) && Ring(n, n)[b] == Edge(b, (b + 1) % n, false);
  }

  lemma {:induction false} ChordsOk(seed: Word, k: nat, left: nat, n: nat)
    requires 0 < n
    ensures |Chords(seed, k, left, n).0| <= left
    ensures forall e :: e in Chords(seed, k, left, n).0 ==> e.a < n && e.b < n && !Degenerate(e.a, e.b, n)
    decreases left
  {
    hide Draw, Degenerate, Bit;
    if left != 0 {
      ChordsOk(seed, k + 2, left - 1, n);
      ChordsOk(seed, k + 3, left - 1, n);
    }
  }

  lemma {:induction false} CornersOk(seed: Word, k: nat, left: nat)
    ensures |Corners(seed, k, left).0| == left
    ensures forall c :: c in Corners(seed, k, left).0 ==> c == 0.0 || 0.12 <= c < 0.32
    decreases left
  {
    hide Unit, Bit;
    if left != 0 {
      CornersOk(seed, CornerEnd(seed, k), left - 1);
      UnitRange(seed, k + 2);
    }
  }

  lemma {:induction false} RhythmOk(seed: Word, k: nat, count: nat)
    ensures |Rhythm(seed, k, count)| == count
    ensures forall x :: x in Rhythm(seed, k, count) ==> 0.4 <= x < 2.0
    decreases count
  {
    hide Unit;
    if count != 0 {
      RhythmOk(seed, k, count - 1);
      UnitRange(seed, k + count);
    }
  }

  /** Every figure is a connected ring of five to eight nodes with up to three proper chords, and every node's centre
    * lies well inside the unit box. */
  lemma FiguresAreWellDrawn(seed: Word, trig: Trig, fromFingerprint: bool)
    requires Bounded(trig)
    ensures WellDrawn(Figure(seed, trig, fromFingerprint))
  {
    hide Draw, Nodes, Ring, Chords, Corners, Rhythm, Unit, Degenerate, Bounded;
    var n := NodeCount(seed);
    var k := 4 * n + 3;
    NodesInBox(seed, n, trig);
    RingAt(n, n);
    ChordsOk(seed, k, 1 + Draw(seed, k) % 3, n);
    var (chords, k1) := Chords(seed, k, 1 + Draw(seed, k) % 3, n);
    CornersOk(seed, k1, 4);
    var k2 := Corners(seed, k1, 4).1;
    var segs := 6 + Draw(seed, k2 + 1) % 5;
    RhythmOk(seed, k2 + 1, segs);
    UnitRange(seed, k2 + segs + 2);
    var s := Figure(seed, trig, fromFingerprint);
    assert forall i :: n <= i < |s.edges| ==> s.edges[i] == chords[i - n] && chords[i - n] in chords;
    assert forall i :: 0 <= i < n ==> s.edges[i] == Ring(n, n)[i];
    assert forall i :: 0 <= i < 4 ==> s.corners[i] in s.corners;
    assert forall i :: 0 <= i < |s.rhythm| ==> s.rhythm[i] in s.rhythm;
  }

  // ---- no two nodes in one place --------------------------------------------------------------------------------

  /** What sine and cosine are relied on for: they are on the unit circle, the cosine of a difference, and that it is
    * well below one away from a full turn. */
  ghost predicate Circular(trig: Trig) {
    && (forall t :: Product(trig.cos(t), trig.cos(t)) + Product(trig.sin(t), trig.sin(t)) == 1.0)
    && (forall t, u :: Product(trig.cos(t), trig.cos(u)) + Product(trig.sin(t), trig.sin(u)) == trig.cos(t - u))
    && (forall t :: 0.435 <= t <= TURN - 0.435 ==> trig.cos(t) <= 0.91)
  }

  function Product(x: real, y: real): real {
    x * y
  }

  function Distance2(v: Node, w: Node): real {
    Product(v.x - w.x, v.x - w.x) + Product(v.y - w.y, v.y - w.y)
  }

  function Angle(seed: Word, i: nat): real {
    Base(Unit(seed, 2) * TURN, i, NodeCount(seed)) + (Unit(seed, 4 * i + 4) - 0.5) * 0.35
  }

  function Radius(seed: Word, i: nat): real {
    0.26 + Unit(seed, 4 * i + 3) * 0.16
  }

  /** Between the angles of two nodes of at most eight there is room left by the jitter of both, either way round. */
  lemma AnglesApart(seed: Word, i: nat, j: nat)
    requires j < i < NodeCount(seed)
    ensures 0.435 <= Angle(seed, i) - Angle(seed, j) <= TURN - 0.435
  {
    hide Unit, Draw;
    var n := NodeCount(seed);
    UnitRange(seed, 4 * i + 4);
    UnitRange(seed, 4 * j + 4);
    var wobble := (Unit(seed, 4 * i + 4) - Unit(seed, 4 * j + 4)) * 0.35;
    StepsApart(i, j, n);
    assert Angle(seed, i) - Angle(seed, j) == TURN * i as real / n as real - TURN * j as real / n as real + wobble;
  }

  lemma StepsApart(i: nat, j: nat, n: nat)
    requires j < i < n <= 8
    ensures 0.785 < TURN * i as real / n as real - TURN * j as real / n as real < TURN - 0.785
  {
    var a, b, m := i as real, j as real, n as real;
    var step := TURN / m;
    Share(step, a, m, TURN * a / m);
    Share(step, b, m, TURN * b / m);
    Steps(step, a, b, m, TURN * a / m - TURN * b / m);
  }

  lemma Share(step: real, a: real, m: real, share: real)
    requires 0.0 < m && step == TURN / m && share == TURN * a / m
    ensures share == step * a && step * m == TURN && 0.0 < step
  {}

  lemma Steps(step: real, a: real, b: real, m: real, far: real)
    requires step * m == TURN && 0.0 < step && 0.0 < m <= 8.0 && 1.0 <= a - b <= m - 1.0
    requires far == step * a - step * b
    ensures 0.785 < far < TURN - 0.785
  {
    var d := a - b;
    assert far == step * d;
    Least(step, m);
    Ordered(step, 1.0, d, step, far);
    var rest := m - 1.0 - d;
    Ordered(step, 0.0, rest, 0.0, step * rest);
    assert step * rest == step * m - step - step * d;
  }

  lemma Least(step: real, m: real)
    requires step * m == TURN && 0.0 < step && 0.0 < m <= 8.0
    ensures 0.785 < step
  {
    if step <= 0.785 {
      Ordered(m, step, 0.785, TURN, m * 0.785);
      assert false;
    }
  }

  lemma Ordered(a: real, x: real, y: real, ax: real, ay: real)
    requires 0.0 <= a && x <= y && ax == a * x && ay == a * y
    ensures ax <= ay
  {}

  /** The law of cosines, for two points at least 0.26 from the middle. */
  lemma PointsApart(c1: real, s1: real, r1: real, c2: real, s2: real, r2: real, x: real, y: real)
    requires x == c1 * r1 - c2 * r2 && y == s1 * r1 - s2 * r2
    requires Product(c1, c1) + Product(s1, s1) == 1.0 && Product(c2, c2) + Product(s2, s2) == 1.0
    requires Product(c1, c2) + Product(s1, s2) <= 0.91 && 0.26 <= r1 && 0.26 <= r2
    ensures Product(x, x) + Product(y, y) > 0.0121
  {
    hide Product;
    SquareOfDifference(c1, r1, c2, r2, x);
    SquareOfDifference(s1, r1, s2, r2, y);
    Gather(r1 * r1, Product(c1, c1), Product(s1, s1));
    Gather(r2 * r2, Product(c2, c2), Product(s2, s2));
    Gather(r1 * r2, Product(c1, c2), Product(s1, s2));
    LongAndWide(r1, r2, Product(c1, c2) + Product(s1, s2));
  }

  lemma Gather(a: real, x: real, y: real)
    ensures a * x + a * y == a * (x + y)
  {}

  lemma LongAndWide(r: real, u: real, k: real)
    requires 0.26 <= r && 0.26 <= u && k <= 0.91
    ensures r * r + u * u - 2.0 * (r * u * k) > 0.0121
  {
    var m := r * u;
    assert m >= 0.26 * u;
    assert m * k <= m * 0.91;
    SquareIsNotNegative(r - u);
    assert (r - u) * (r - u) == r * r - 2.0 * m + u * u;
  }

  lemma SquareIsNotNegative(d: real)
    ensures 0.0 <= d * d
  {}

  lemma SquareOfDifference(x: real, r: real, y: real, u: real, d: real)
    requires d == x * r - y * u
    ensures Product(d, d) == r * r * Product(x, x) + u * u * Product(y, y) - 2.0 * (r * u * Product(x, y))
  {
    var a, b := x * r, y * u;
    assert (a - b) * (a - b) == a * a - 2.0 * (a * b) + b * b;
    assert a * a == r * r * (x * x);
    assert b * b == u * u * (y * y);
    assert a * b == r * u * (x * y);
  }

  /** However the nodes are jittered, the centres of any two are more than 0.11 apart. */
  lemma NodesNeverMeet(seed: Word, trig: Trig, fromFingerprint: bool, i: nat, j: nat)
    requires Circular(trig) && j < i < NodeCount(seed)
    ensures var nodes := Figure(seed, trig, fromFingerprint).nodes;
      |nodes| == NodeCount(seed) && Distance2(nodes[i], nodes[j]) > 0.0121
  {
    hide Draw, Unit, Chords, Corners, Rhythm, Ring, NodeCount, NodeAt, Circular, Distance2;
    NodesAre(seed, NodeCount(seed), trig);
    CentresApart(seed, trig, i, j);
  }

  lemma CentreIs(seed: Word, trig: Trig, i: nat)
    ensures var v, t := NodeAt(seed, i, trig), Angle(seed, i);
      v.x == 0.5 + trig.cos(t) * Radius(seed, i) && v.y == 0.5 + trig.sin(t) * Radius(seed, i)
    ensures 0.26 <= Radius(seed, i)
  {
    hide Draw, Unit;
    UnitRange(seed, 4 * i + 3);
  }

  lemma CentresApart(seed: Word, trig: Trig, i: nat, j: nat)
    requires Circular(trig) && j < i < NodeCount(seed)
    ensures Distance2(NodeAt(seed, i, trig), NodeAt(seed, j, trig)) > 0.0121
  {
    hide Draw, Unit, Product, NodeCount, NodeAt, Angle, Radius;
    CentreIs(seed, trig, i);
    CentreIs(seed, trig, j);
    AnglesApart(seed, i, j);
    var t, u := Angle(seed, i), Angle(seed, j);
    assert Product(trig.cos(t), trig.cos(u)) + Product(trig.sin(t), trig.sin(u)) == trig.cos(t - u);
    var v, w := NodeAt(seed, i, trig), NodeAt(seed, j, trig);
    PointsApart(trig.cos(t), trig.sin(t), Radius(seed, i), trig.cos(u), trig.sin(u), Radius(seed, j),
                v.x - w.x, v.y - w.y);
  }

  lemma {:induction false} NodesAre(seed: Word, count: nat, trig: Trig)
    ensures |Nodes(seed, count, trig)| == count
    ensures forall i :: 0 <= i < count ==> Nodes(seed, count, trig)[i] == NodeAt(seed, i, trig)
    decreases count
  {
    hide NodeAt;
    if count != 0 {
      NodesAre(seed, count - 1, trig);
    }
  }

  // ---- sameness -------------------------------------------------------------------------------------------------

  predicate Near(x: real, y: real) {
    Abs(x - y) <= 0.000001
  }

  method SigilEqual(a: Sigil, b: Sigil) returns (same: bool)
    requires |a.corners| == |b.corners| == 4
    ensures same == Same(a, b)
  {
    if a.version != b.version || a.seed != b.seed {
      return false;
    }
    if |a.nodes| != |b.nodes| || |a.edges| != |b.edges| || |a.rhythm| != |b.rhythm| {
      return false;
    }
    for i := 0 to |a.nodes|
      invariant forall j :: 0 <= j < i ==> SameNode(a.nodes[j], b.nodes[j])
    {
      var x, y := a.nodes[i], b.nodes[i];
      if x.filled != y.filled || !Near(x.x, y.x) || !Near(x.y, y.y) || !Near(x.r, y.r) {
        return false;
      }
    }
    for i := 0 to |a.edges|
      invariant forall j :: 0 <= j < i ==> a.edges[j] == b.edges[j]
    {
      if a.edges[i] != b.edges[i] {
        return false;
      }
    }
    for i := 0 to 4
      invariant forall j :: 0 <= j < i ==> Near(a.corners[j], b.corners[j])
    {
      if !Near(a.corners[i], b.corners[i]) {
        return false;
      }
    }
    return true;
  }

  predicate SameNode(x: Node, y: Node) {
    x.filled == y.filled && Near(x.x, y.x) && Near(x.y, y.y) && Near(x.r, y.r)
  }

  predicate Same(a: Sigil, b: Sigil)
    requires |a.corners| == |b.corners| == 4
  {
    && a.version == b.version && a.seed == b.seed
    && |a.nodes| == |b.nodes| && |a.edges| == |b.edges| && |a.rhythm| == |b.rhythm|
    && (forall i :: 0 <= i < |a.nodes| ==> SameNode(a.nodes[i], b.nodes[i]))
    && (forall i :: 0 <= i < |a.edges| ==> a.edges[i] == b.edges[i])
    && forall i :: 0 <= i < 4 ==> Near(a.corners[i], b.corners[i])
  }

  lemma MadeHasCorners(fingerprint: Text, trig: Trig)
    ensures |Made(fingerprint, trig).corners| == 4
  {
    hide Draw, Chords, Corners, Fnv, SeedText;
    var seed := Fnv(SeedText(fingerprint));
    var n := NodeCount(seed);
    CornersOk(seed, Chords(seed, 4 * n + 3, 1 + Draw(seed, 4 * n + 3) % 3, n).1, 4);
  }

  /** Two figures are equal to SigilEqual, which compares the seed before it looks at the drawing, exactly when their
    * fingerprints hash the same. */
  lemma SameIffHashedSame(p: Text, q: Text, trig: Trig)
    ensures |Made(p, trig).corners| == |Made(q, trig).corners| == 4
    ensures Same(Made(p, trig), Made(q, trig)) <==> Fnv(SeedText(p)) == Fnv(SeedText(q))
  {
    MadeHasCorners(p, trig);
    MadeHasCorners(q, trig);
    hide Draw, Nodes, Ring, Chords, Corners, Rhythm, Unit, Fnv, SeedText, NodeCount, Find, SourceText;
  }

  /** The printed key type and comment make no difference to any field, and one changed byte of the body is never equal
    * to SigilEqual. */
  lemma IdentityIsTheBody(pre: Text, pre': Text, before: Text, c: Byte, d: Byte, after: Text, rest: Text, rest': Text,
                          trig: Trig)
    requires Find(pre) == None && Find(pre') == None
    requires forall b :: b in before + [c] + after || b in before + [d] + after ==> !IsBlank(b)
    requires (rest != [] ==> IsBlank(rest[0])) && (rest' != [] ==> IsBlank(rest'[0]))
    ensures var s := Made(pre + SHA256 + (before + [c] + after + rest), trig);
      var t := Made(pre' + SHA256 + (before + [d] + after + rest'), trig);
      |s.corners| == |t.corners| == 4 && (Same(s, t) <==> c == d) && (c == d ==> s == t)
  {
    var p := pre + SHA256 + (before + [c] + after + rest);
    var q := pre' + SHA256 + (before + [d] + after + rest');
    hide Made, Fnv, Same, SourceText, IsBlank, Find;
    SourceTextIsTheBody(pre, before + [c] + after, rest);
    SourceTextIsTheBody(pre', before + [d] + after, rest');
    SameIffHashedSame(p, q, trig);
    if c != d {
      OneByteChangesTheHash(before, c, d, after);
    } else {
      FindAfter(pre, before + [c] + after + rest);
      FindAfter(pre', before + [d] + after + rest');
      SameBodySameFigure(p, q, trig);
    }
  }

  lemma SameBodySameFigure(p: Text, q: Text, trig: Trig)
    requires SourceText(p) == SourceText(q) != [] && Find(p).Some? && Find(q).Some?
    ensures Made(p, trig) == Made(q, trig)
  {
    hide Figure, Fnv, SourceText, Find;
  }

  // ---- the mnemonic ---------------------------------------------------------------------------------------------

  const CONSONANTS := "BDFGHJKMNPRSTVZ"
  const VOWELS := "AEIOU"

  function Consonant(i: nat): char
    requires i < 15
  {
    CONSONANTS[i]
  }

  function Vowel(i: nat): char
    requires i < 5
  {
    VOWELS[i]
  }

  function Mnemonic(seed: Word): string {
    var v := seed / 15 / 5;
    [Consonant(seed % 15), Vowel(seed / 15 % 5), Consonant(v % 15), Vowel(v / 15 % 5)]
  }

  method SigilMnemonic(seed: Word) returns (out: string)
    ensures out == Mnemonic(seed)
  {
    hide Consonant, Vowel;
    var v: nat := seed;
    out := "";
    for i := 0 to 2
      invariant i == 0 ==> out == "" && v == seed
      invariant i == 1 ==> out == [Consonant(seed % 15), Vowel(seed / 15 % 5)] && v == seed / 15 / 5
      invariant i == 2 ==> out == Mnemonic(seed)
    {
      out := out + [Consonant(v % 15)];
      v := v / 15;
      out := out + [Vowel(v % 5)];
      v := v / 5;
    }
  }

  /** Two keys share a mnemonic exactly when their seeds agree modulo 5625, the number of mnemonics there are. */
  lemma MnemonicsCollideModulo5625(a: Word, b: Word)
    ensures Mnemonic(a) == Mnemonic(b) <==> a % 5625 == b % 5625
  {
    hide Consonant, Vowel;
    var v, w := a / 15 / 5, b / 15 / 5;
    Digits(a);
    Digits(b);
    LettersDiffer(a % 15, b % 15, a / 15 % 5, b / 15 % 5);
    LettersDiffer(v % 15, w % 15, v / 15 % 5, w / 15 % 5);
    var m, n := Mnemonic(a), Mnemonic(b);
    assert m == n <==> m[0] == n[0] && m[1] == n[1] && m[2] == n[2] && m[3] == n[3];
  }

  lemma LettersDiffer(i: nat, j: nat, p: nat, q: nat)
    requires i < 15 && j < 15 && p < 5 && q < 5
    ensures Consonant(i) == Consonant(j) <==> i == j
    ensures Vowel(p) == Vowel(q) <==> p == q
  {}

  lemma Digits(a: nat)
    ensures a % 5625 == a % 15 + 15 * (a / 15 % 5) + 75 * (a / 15 / 5 % 15) + 1125 * (a / 15 / 5 / 15 % 5)
  {
    var p := a / 15;
    var q := p / 5;
    var r := q / 15;
    var s := r / 5;
    var low := a % 15 + 15 * (p % 5) + 75 * (q % 15) + 1125 * (r % 5);
    assert a == 15 * p + a % 15 && p == 5 * q + p % 5 && q == 15 * r + q % 15 && r == 5 * s + r % 5;
    Remainder(a, s, low);
  }

  lemma Remainder(a: nat, s: nat, low: nat)
    requires a == 5625 * s + low && low < 5625
    ensures a % 5625 == low
  {}
}
