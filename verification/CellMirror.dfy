/** The CPU shadow of the terminal grid and its GPU copy (src/render/particles.cpp).
  *
  * Each frame is diffed into the shadow and only the changed cells, coalesced into at most 64 ranges, are copied up.
  * The point of the module is that this incremental copy always leaves the GPU holding what a full copy would.
  * Before that the births are planned: each changed cell is given the time it appears, and the screen is judged to be
  * scrolling, repainted or updated in place.
  */
module CellMirror {
  import opened Arithmetic
  import opened Wrappers

  const UINT32_MAX: nat := 0xFFFF_FFFF
  const MAX_RANGES := 64
  const MERGE_GAP := 16
  const BRIGHT_STEP: real := 0.002
  const MIN_PARTICLES_PER_CELL: nat := 8
  const MAX_PARTICLES_PER_CELL: nat := 256

  datatype Flags = Flags(selected: bool, color: bool, quiet: bool)

  datatype Cell = Cell(glyph: nat, prevGlyph: nat, birth: real, bright: real, flags: Flags, rgb: nat)

  const BLANK := Cell(0, 0, -100.0, 0.0, Flags(false, false, false), 0)

  datatype Visual = Visual(glyph: nat, bright: real, rgb: nat, flags: Flags)

  // ---- one cell -------------------------------------------------------------------------------------------------

  /** The cell after a frame that wants `v` there. */
  function Diffed(s: Cell, v: Visual, birth: real, bulk: bool): Cell {
    var s1 := if v.glyph != s.glyph then s.(prevGlyph := s.glyph, glyph := v.glyph, birth := birth) else s;
    var quiet := if v.glyph != s.glyph then v.flags.quiet && !bulk else s.flags.quiet;
    var s2 := if Abs(v.bright - s.bright) > BRIGHT_STEP then s1.(bright := v.bright) else s1;
    s2.(flags := Flags(v.flags.selected, v.flags.color, quiet), rgb := v.rgb)
  }

  /** The diff shows what was asked for, and a cell's birth, previous glyph and quiet bit belong to its glyph: they move
    * only when the glyph does. */
  lemma DiffFollowsTheGlyph(s: Cell, v: Visual, birth: real, bulk: bool)
    ensures var t := Diffed(s, v, birth, bulk);
      && t.glyph == v.glyph && t.rgb == v.rgb && Abs(v.bright - t.bright) <= BRIGHT_STEP
      && t.flags.selected == v.flags.selected && t.flags.color == v.flags.color
      && (t.glyph == s.glyph ==> t.birth == s.birth && t.prevGlyph == s.prevGlyph && t.flags.quiet == s.flags.quiet)
      && (t.glyph != s.glyph ==>
          t.birth == birth && t.prevGlyph == s.glyph && t.flags.quiet == (v.flags.quiet && !bulk))
  {}

  /** The diff is settled after one frame: showing the same screen again changes no cell. */
  lemma DiffSettles(s: Cell, v: Visual, birth: real, bulk: bool, birth': real, bulk': bool)
    ensures var t := Diffed(s, v, birth, bulk); Diffed(t, v, birth', bulk') == t
  {}

  // ---- births ---------------------------------------------------------------------------------------------------

  const ANCHOR_AGE: real := 0.8

  /** How fast reveals run: the overall speed, the motion style's own factor, and whether motion is to be reduced. */
  datatype Tuning = Tuning(effectSpeed: real, waveScale: real, reducedMotion: bool)

  /** What the planner counts: changed cells that show the cell below, changed cells that have one, cells with ink
    * before or after, changed cells, and cells with ink that has been still for a while. */
  datatype Tally = Tally(matches: nat, checked: nat, ink: nat, changes: nat, anchors: nat)
  {
    predicate Many() {
      changes > 50 && changes * 3 > ink * 2
    }

    predicate ScrollLike() {
      Many() && checked > 0 && matches * 10 > checked * 6
    }

    predicate Anchored() {
      !ScrollLike() && anchors >= 40 && anchors * 100 >= ink * 8
    }

    predicate Bulk() {
      Many() && !Anchored()
    }
  }

  function Tallied(shadow: seq<Cell>, visuals: seq<Visual>, cols: nat, time: real, n: nat): Tally
    requires n <= |shadow| <= |visuals|
  {
    if n == 0 then Tally(0, 0, 0, 0, 0)
    else
      var i := n - 1;
      var t := Tallied(shadow, visuals, cols, time, i);
      var was, now := shadow[i].glyph, visuals[i].glyph;
      var t1 := if was != 0 || now != 0 then t.(ink := t.ink + 1) else t;
      if was == now then (if was != 0 && time - shadow[i].birth > ANCHOR_AGE then t1.(anchors := t.anchors + 1) else t1)
      else
        var t2 := t1.(changes := t.changes + 1);
        if i + cols < |shadow| then
          t2.(checked := t.checked + 1, matches := t.matches + (if now == shadow[i + cols].glyph then 1 else 0))
        else t2
  }

  /** Cells without ink on either side never differ, and an anchor is ink that did not: so every change and every anchor
    * is a cell of its own among those with ink. */
  lemma {:induction false} TallyAddsUp(shadow: seq<Cell>, visuals: seq<Visual>, cols: nat, time: real, n: nat)
    requires n <= |shadow| <= |visuals|
    ensures var t := Tallied(shadow, visuals, cols, time, n);
      t.matches <= t.checked <= t.changes && t.changes + t.anchors <= t.ink <= n
  {
    if n > 0 {
      TallyAddsUp(shadow, visuals, cols, time, n - 1);
    }
  }

  /** A screen is taken for a bulk repaint only when fewer than a third of its ink stayed where it was. */
  lemma BulkLosesItsAnchors(shadow: seq<Cell>, visuals: seq<Visual>, cols: nat, time: real)
    requires |shadow| <= |visuals|
    ensures var t := Tallied(shadow, visuals, cols, time, |shadow|); t.Bulk() ==> t.anchors * 3 < t.ink
  {
    TallyAddsUp(shadow, visuals, cols, time, |shadow|);
  }

  /** The screen moved up a line: every changed cell with one below it shows what that one showed. */
  ghost predicate MovedUp(shadow: seq<Cell>, visuals: seq<Visual>, cols: nat) {
    |shadow| <= |visuals|
    && forall i :: 0 <= i < |shadow| && i + cols < |shadow| && visuals[i].glyph != shadow[i].glyph ==>
      visuals[i].glyph == shadow[i + cols].glyph
  }

  lemma {:induction false} MovedUpMatches(shadow: seq<Cell>, visuals: seq<Visual>, cols: nat, time: real, n: nat)
    requires MovedUp(shadow, visuals, cols) && n <= |shadow|
    ensures var t := Tallied(shadow, visuals, cols, time, n); t.matches == t.checked
  {
    if n > 0 {
      MovedUpMatches(shadow, visuals, cols, time, n - 1);
    }
  }

  function RowDelay(t: Tally, rows: nat, tuning: Tuning): real {
    if !t.Bulk() || t.ScrollLike() || tuning.reducedMotion then 0.0
    else
      var speed := if tuning.effectSpeed < 0.1 then 0.1 else tuning.effectSpeed;
      0.7 / speed / (if rows == 0 then 1 else rows) as real * tuning.waveScale
  }

  function Planned(shadow: seq<Cell>, visuals: seq<Visual>, cols: nat, time: real, delay: real): (plan: seq<real>)
    requires 0 < cols && |shadow| <= |visuals|
    ensures |plan| == |shadow|
  {
    seq(|shadow|, i requires 0 <= i < |shadow| =>
      if visuals[i].glyph != shadow[i].glyph then time + delay * (i / cols) as real else shadow[i].birth)
  }

  /** A scroll is calm: however much of the screen it changes, all of it appears at once, with no sweep down the
    * rows. */
  lemma ScrollIsCalm(shadow: seq<Cell>, visuals: seq<Visual>, cols: nat, rows: nat, time: real, tuning: Tuning, i: nat)
    requires 0 < cols && MovedUp(shadow, visuals, cols) && i < |shadow|
    requires Tallied(shadow, visuals, cols, time, |shadow|).checked > 0
    ensures var t := Tallied(shadow, visuals, cols, time, |shadow|);
      && (t.Many() <==> t.ScrollLike()) && RowDelay(t, rows, tuning) == 0.0
      && Planned(shadow, visuals, cols, time, RowDelay(t, rows, tuning))[i] ==
           if visuals[i].glyph != shadow[i].glyph then time else shadow[i].birth
  {
    MovedUpMatches(shadow, visuals, cols, time, |shadow|);
  }

  lemma ScaledOrder(a: real, m: nat, n: nat)
    requires 0.0 <= a && m <= n
    ensures 0.0 <= a * m as real <= a * n as real
  {}

  /** Nothing appears before its frame, and a reveal sweeps down the screen: no row before one above it. */
  lemma RevealSweepsDown(shadow: seq<Cell>, visuals: seq<Visual>, cols: nat, time: real, delay: real, i: nat, j: nat)
    requires 0 < cols && |shadow| <= |visuals| && 0.0 <= delay && i <= j < |shadow|
    requires visuals[i].glyph != shadow[i].glyph && visuals[j].glyph != shadow[j].glyph
    ensures var plan := Planned(shadow, visuals, cols, time, delay); time <= plan[i] <= plan[j]
    ensures var plan := Planned(shadow, visuals, cols, time, delay); i / cols == j / cols ==> plan[i] == plan[j]
  {
    QuotientOrder(i, j, cols);
    ScaledOrder(delay, i / cols, j / cols);
  }

  lemma QuotientOrder(i: nat, j: nat, cols: nat)
    requires 0 < cols && i <= j
    ensures i / cols <= j / cols
  {
    var p, q := i / cols, j / cols;
    assert i == cols * p + i % cols && j == cols * q + j % cols;
    ProductStep(cols, p, q);
  }

  lemma ProductStep(a: nat, p: nat, q: nat)
    ensures p > q ==> a * p >= a * q + a
  {
    if p > q {
      var d: nat := p - q - 1;
      assert a * (q + d + 1) == a * q + a * d + a;
    }
  }

  // ---- when the screen sweeps -----------------------------------------------------------------------------------

  function Speed(tuning: Tuning): real {
    if tuning.effectSpeed < 0.1 then 0.1 else tuning.effectSpeed
  }

  /** A screen is swept exactly when it is a repaint, not a scroll, and motion is not reduced; one sweep of all its rows
    * then takes seven tenths of a second, scaled by the style and the speed. */
  lemma SweepsIff(t: Tally, rows: nat, tuning: Tuning)
    requires 0.0 < tuning.waveScale && 0 < rows
    ensures 0.0 <= RowDelay(t, rows, tuning)
    ensures 0.0 < RowDelay(t, rows, tuning) <==> t.Bulk() && !t.ScrollLike() && !tuning.reducedMotion
    ensures 0.0 < RowDelay(t, rows, tuning) ==>
              RowDelay(t, rows, tuning) * rows as real == 0.7 * tuning.waveScale / Speed(tuning)
  {
    hide Tally.Bulk, Tally.ScrollLike;
    Shares(0.7, Speed(tuning), rows as real, tuning.waveScale);
  }

  lemma Shares(a: real, s: real, n: real, w: real)
    requires 0.0 < a && 0.0 < s && 0.0 < n && 0.0 < w
    ensures 0.0 < a / s / n * w && a / s / n * w * n == a * w / s
  {
    var p := a / s;
    var q := p / n;
    assert 0.0 < p && 0.0 < q;
    assert q * n == p;
    assert q * w * n == p * w;
    assert a * w / s == p * w;
  }

  /** The screen is a repaint and no scroll, and motion is wanted. */
  predicate Sweeps(shadow: seq<Cell>, visuals: seq<Visual>, cols: nat, time: real, tuning: Tuning)
    requires |shadow| <= |visuals|
  {
    var t := Tallied(shadow, visuals, cols, time, |shadow|);
    t.Bulk() && !t.ScrollLike() && !tuning.reducedMotion
  }

  function Births(shadow: seq<Cell>, visuals: seq<Visual>, cols: nat, rows: nat, time: real, tuning: Tuning): seq<real>
    requires 0 < cols && |shadow| <= |visuals|
  {
    Planned(shadow, visuals, cols, time, RowDelay(Tallied(shadow, visuals, cols, time, |shadow|), rows, tuning))
  }

  /** What becomes of a changed cell: unless the screen sweeps it appears with its frame, and a sweep is over in
    * time. */
  lemma BornInTime(shadow: seq<Cell>, visuals: seq<Visual>, cols: nat, rows: nat, time: real, tuning: Tuning, i: nat)
    requires 0 < cols && 0 < rows && |shadow| == cols * rows <= |visuals| && 0.0 < tuning.waveScale
    requires i < |shadow| && visuals[i].glyph != shadow[i].glyph
    ensures var born := Births(shadow, visuals, cols, rows, time, tuning)[i];
      if Sweeps(shadow, visuals, cols, time, tuning) then time <= born < time + 0.7 * tuning.waveScale / Speed(tuning)
      else born == time
  {
    hide Tallied, Tally.Bulk, Tally.ScrollLike, RowDelay, Planned;
    var t := Tallied(shadow, visuals, cols, time, |shadow|);
    PlannedAt(shadow, visuals, cols, time, RowDelay(t, rows, tuning), i);
    SweepsIff(t, rows, tuning);
    RowOf(i, cols, rows);
    Later(RowDelay(t, rows, tuning), 0, i / cols);
    Later(RowDelay(t, rows, tuning), i / cols, rows);
  }

  /** A sweep brings each row later than every row above it. */
  lemma RowsInOrder(shadow: seq<Cell>, visuals: seq<Visual>, cols: nat, rows: nat, time: real, tuning: Tuning,
                    i: nat, j: nat)
    requires 0 < cols && 0 < rows && |shadow| == cols * rows <= |visuals| && 0.0 < tuning.waveScale
    requires i < |shadow| && j < |shadow| && visuals[i].glyph != shadow[i].glyph && visuals[j].glyph != shadow[j].glyph
    requires Sweeps(shadow, visuals, cols, time, tuning) && i / cols < j / cols
    ensures var births := Births(shadow, visuals, cols, rows, time, tuning);
      births[i] < births[j]
  {
    hide Tallied, Tally.Bulk, Tally.ScrollLike, RowDelay, Planned;
    var t := Tallied(shadow, visuals, cols, time, |shadow|);
    var delay := RowDelay(t, rows, tuning);
    SweepIsPositive(t, rows, tuning);
    PlannedBefore(shadow, visuals, cols, time, delay, i, j);
  }

  lemma PlannedAt(shadow: seq<Cell>, visuals: seq<Visual>, cols: nat, time: real, delay: real, i: nat)
    requires 0 < cols && |shadow| <= |visuals| && i < |shadow| && visuals[i].glyph != shadow[i].glyph
    ensures Planned(shadow, visuals, cols, time, delay)[i] == time + delay * (i / cols) as real
  {}

  lemma PlannedBefore(shadow: seq<Cell>, visuals: seq<Visual>, cols: nat, time: real, delay: real, i: nat, j: nat)
    requires 0 < cols && |shadow| <= |visuals| && i < |shadow| && j < |shadow| && i / cols < j / cols && 0.0 < delay
    requires visuals[i].glyph != shadow[i].glyph && visuals[j].glyph != shadow[j].glyph
    ensures Planned(shadow, visuals, cols, time, delay)[i] < Planned(shadow, visuals, cols, time, delay)[j]
  {
    hide Planned;
    PlannedAt(shadow, visuals, cols, time, delay, i);
    PlannedAt(shadow, visuals, cols, time, delay, j);
    Later(delay, i / cols, j / cols);
  }

  lemma SweepIsPositive(t: Tally, rows: nat, tuning: Tuning)
    requires 0.0 < tuning.waveScale && 0 < rows && t.Bulk() && !t.ScrollLike() && !tuning.reducedMotion
    ensures 0.0 < RowDelay(t, rows, tuning)
  {
    SweepsIff(t, rows, tuning);
  }

  lemma RowOf(i: nat, cols: nat, rows: nat)
    requires 0 < cols && i < cols * rows
    ensures i / cols < rows
  {
    var q := i / cols;
    assert i == cols * q + i % cols;
    if rows <= q {
      MoreSteps(rows, q, cols);
    }
  }

  lemma Later(delay: real, m: nat, n: nat)
    requires 0.0 <= delay && m <= n
    ensures delay * m as real <= delay * n as real
    ensures 0.0 < delay && m < n ==> delay * m as real < delay * n as real
  {
    var d := (n - m) as real;
    assert delay * n as real == delay * m as real + delay * d;
  }

  /** A screen that keeps its frame is calm: with forty still cells, and one in twelve and a half of its ink, changed
    * cells appear with their frame; and so with at most fifty changes, or two thirds of the ink. */
  lemma KeptScreenIsCalm(shadow: seq<Cell>, visuals: seq<Visual>, cols: nat, rows: nat, time: real, tuning: Tuning,
                         i: nat)
    requires 0 < cols && |shadow| <= |visuals| && i < |shadow| && visuals[i].glyph != shadow[i].glyph
    requires var t := Tallied(shadow, visuals, cols, time, |shadow|);
      t.changes <= 50 || 3 * t.changes <= 2 * t.ink || (40 <= t.anchors && 8 * t.ink <= 100 * t.anchors)
    ensures var t := Tallied(shadow, visuals, cols, time, |shadow|);
      (!t.Bulk() || t.ScrollLike()) && Births(shadow, visuals, cols, rows, time, tuning)[i] == time
  {
    hide Tallied;
  }

  /** Nothing kept, and more than fifty cells changed: a repaint. */
  lemma NothingKeptIsBulk(shadow: seq<Cell>, visuals: seq<Visual>, cols: nat, time: real)
    requires |shadow| <= |visuals|
    requires forall i :: 0 <= i < |shadow| && shadow[i].glyph != 0 ==> visuals[i].glyph != shadow[i].glyph
    ensures var t := Tallied(shadow, visuals, cols, time, |shadow|); t.Bulk() <==> 50 < t.changes
  {
    NothingKept(shadow, visuals, cols, time, |shadow|);
  }

  lemma {:induction false} NothingKept(shadow: seq<Cell>, visuals: seq<Visual>, cols: nat, time: real, n: nat)
    requires n <= |shadow| <= |visuals|
    requires forall i :: 0 <= i < |shadow| && shadow[i].glyph != 0 ==> visuals[i].glyph != shadow[i].glyph
    ensures var t := Tallied(shadow, visuals, cols, time, n); t.changes == t.ink && t.anchors == 0
  {
    if n > 0 {
      NothingKept(shadow, visuals, cols, time, n - 1);
    }
  }

  /** The verdicts as shares: more than two thirds of the ink changed and more than fifty cells; more than three fifths
    * of those that could show the cell below; and forty still cells, two in twenty-five of the ink. */
  lemma VerdictsIff(t: Tally)
    ensures t.Many() <==> 51 <= t.changes && 2 * t.ink < 3 * t.changes
    ensures t.ScrollLike() <==> t.Many() && 0 < t.checked && 3 * t.checked < 5 * t.matches
    ensures t.Bulk() <==> t.Many() && (t.ScrollLike() || t.anchors < 40 || 25 * t.anchors < 2 * t.ink)
  {}

  // ---- coalescing -----------------------------------------------------------------------------------------------

  datatype Range = Range(first: nat, last: nat)

  /** The coalescer part way through a frame: closed ranges, the open one (start is UINT32_MAX when there is none),
    * and whether more than 64 were needed. */
  datatype Scan = Scan(ranges: seq<Range>, start: nat, end: nat, full: bool) {
    function Flush(): Scan {
      if start == UINT32_MAX then this
      else if |ranges| < MAX_RANGES then this.(ranges := ranges + [Range(start, end)], start := UINT32_MAX)
      else this.(full := true, start := UINT32_MAX)
    }

    function Touch(i: nat): Scan {
      if start == UINT32_MAX then this.(start := i, end := i)
      else if i > end + MERGE_GAP then Flush().(start := i, end := i)
      else this.(end := i)
    }
  }

  function ScanDirty(dirty: seq<bool>, full: bool): Scan {
    if dirty == [] then Scan([], UINT32_MAX, 0, full)
    else
      var s := ScanDirty(dirty[..|dirty| - 1], full);
      if dirty[|dirty| - 1] then s.Touch(|dirty| - 1) else s
  }

  /** Cell `i` starts a cluster: it is dirty and the sixteen cells before it are clean. */
  predicate StartsCluster(dirty: seq<bool>, i: nat)
    requires i < |dirty|
  {
    dirty[i] && forall j :: 0 <= j < i && i <= j + MERGE_GAP ==> !dirty[j]
  }

  function Count(dirty: seq<bool>): nat {
    if dirty == [] then 0 else Count(dirty[..|dirty| - 1]) + (if dirty[|dirty| - 1] then 1 else 0)
  }

  /** It is how many cells are dirty. */
  lemma {:induction false} CountIsSize(dirty: seq<bool>)
    ensures Count(dirty) == |set i | 0 <= i < |dirty| && dirty[i]|
  {
    var now := set i | 0 <= i < |dirty| && dirty[i];
    if dirty != [] {
      var n := |dirty| - 1;
      CountIsSize(dirty[..n]);
      var was := set i | 0 <= i < n && dirty[..n][i];
      assert now == if dirty[n] then was + {n} else was;
    } else {
      assert now == {};
    }
  }

  function Clusters(dirty: seq<bool>): nat {
    if dirty == [] then 0
    else Clusters(dirty[..|dirty| - 1]) + (if StartsCluster(dirty, |dirty| - 1) then 1 else 0)
  }

  ghost predicate In(i: nat, r: Range) {
    r.first <= i <= r.last
  }

  /** A range runs from the start of a cluster to a dirty cell. */
  ghost predicate Tight(dirty: seq<bool>, r: Range) {
    r.first <= r.last < |dirty| && StartsCluster(dirty, r.first) && dirty[r.last]
  }

  ghost predicate Separated(ranges: seq<Range>) {
    forall a, b :: 0 <= a < b < |ranges| ==> ranges[a].last + MERGE_GAP < ranges[b].first
  }

  ghost predicate Covered(i: nat, ranges: seq<Range>) {
    exists k :: 0 <= k < |ranges| && In(i, ranges[k])
  }

  /** The closed ranges together with the open one. */
  ghost function AllRanges(s: Scan): seq<Range> {
    if s.start == UINT32_MAX then s.ranges else s.ranges + [Range(s.start, s.end)]
  }

  function Min(a: nat, b: nat): nat {
    if a < b then a else b
  }

  /** The coalescer's counters after the cells of `dirty`: of C clusters seen, C - 1 have been flushed. */
  ghost predicate Counted(dirty: seq<bool>, s: Scan, full: bool) {
    var c := Clusters(dirty);
    if s.start == UINT32_MAX then
      c == 0 && s.ranges == [] && s.full == full && forall i :: 0 <= i < |dirty| ==> !dirty[i]
    else
      && 0 < c && s.start <= s.end < |dirty| && dirty[s.end]
      && (forall i :: s.end < i < |dirty| ==> !dirty[i])
      && |s.ranges| == Min(c - 1, MAX_RANGES)
      && s.full == (full || c > MAX_RANGES + 1)
  }

  ghost predicate Laid(dirty: seq<bool>, ranges: seq<Range>) {
    Separated(ranges) && forall k :: 0 <= k < |ranges| ==> Tight(dirty, ranges[k])
  }

  ghost predicate Covers(dirty: seq<bool>, ranges: seq<Range>) {
    forall i :: 0 <= i < |dirty| && dirty[i] ==> Covered(i, ranges)
  }

  lemma LaidInLonger(dirty: seq<bool>, n: nat, ranges: seq<Range>)
    requires n <= |dirty| && Laid(dirty[..n], ranges)
    ensures Laid(dirty, ranges)
  {}

  /** The coalescer opens a new range exactly at the start of a cluster. */
  lemma OpensAtCluster(dirty: seq<bool>, s: Scan, full: bool)
    requires 0 < |dirty| && dirty[|dirty| - 1]
    requires Counted(dirty[..|dirty| - 1], s, full)
    ensures StartsCluster(dirty, |dirty| - 1) <==> s.start == UINT32_MAX || |dirty| - 1 > s.end + MERGE_GAP
  {}

  lemma TouchCounts(dirty: seq<bool>, s: Scan, full: bool)
    requires 0 < |dirty| <= UINT32_MAX && dirty[|dirty| - 1]
    requires Counted(dirty[..|dirty| - 1], s, full)
    ensures Counted(dirty, s.Touch(|dirty| - 1), full)
  {}

  lemma LaidAppend(dirty: seq<bool>, ranges: seq<Range>, r: Range)
    requires Laid(dirty, ranges) && Tight(dirty, r)
    requires forall k :: 0 <= k < |ranges| ==> ranges[k].last + MERGE_GAP < r.first
    ensures Laid(dirty, ranges + [r])
  {}

  lemma TouchLays(dirty: seq<bool>, s: Scan, full: bool)
    requires 0 < |dirty| <= UINT32_MAX && dirty[|dirty| - 1]
    requires Counted(dirty[..|dirty| - 1], s, full) && Laid(dirty[..|dirty| - 1], AllRanges(s))
    ensures Laid(dirty, AllRanges(s.Touch(|dirty| - 1)))
  {
    hide Clusters, StartsCluster, Laid;
    var n := |dirty| - 1;
    OpensAtCluster(dirty, s, full);
    LaidInLonger(dirty, n, AllRanges(s));
    if s.start == UINT32_MAX {
      NothingLaid(dirty);
      LaidAppend(dirty, [], Range(n, n));
    } else {
      OpenIsLaid(dirty, s);
      if n > s.end + MERGE_GAP {
        FlushedBefore(s, n);
        LaidAppend(dirty, s.Flush().ranges, Range(n, n));
      } else {
        LaidAppend(dirty, s.ranges, Range(s.start, n));
      }
    }
  }

  lemma NothingLaid(dirty: seq<bool>)
    ensures Laid(dirty, [])
  {}

  lemma FlushedBefore(s: Scan, n: nat)
    requires s.start != UINT32_MAX && s.start <= s.end && n > s.end + MERGE_GAP
    requires forall k :: 0 <= k < |s.ranges| ==> s.ranges[k].last + MERGE_GAP < s.start
    ensures forall k :: 0 <= k < |s.Flush().ranges| ==> s.Flush().ranges[k].last + MERGE_GAP < n
  {}

  /** The open range comes after the closed ones, and flushing it changes nothing about that. */
  lemma OpenIsLaid(dirty: seq<bool>, s: Scan)
    requires s.start != UINT32_MAX && Laid(dirty, AllRanges(s))
    ensures Tight(dirty, Range(s.start, s.end)) && Laid(dirty, s.ranges) && Laid(dirty, s.Flush().ranges)
    ensures forall k :: 0 <= k < |s.ranges| ==> s.ranges[k].last + MERGE_GAP < s.start
  {
    hide Tight;
    var all, n := AllRanges(s), |s.ranges|;
    assert all[n] == Range(s.start, s.end);
    forall k | 0 <= k < n
      ensures s.ranges[k] == all[k] && s.ranges[k].last + MERGE_GAP < s.start
    {}
    assert Laid(dirty, s.ranges);
  }

  /** While there is room, touching a cell only extends the last range or adds one. */
  lemma TouchGrows(s: Scan, n: nat)
    requires n < UINT32_MAX && (s.start != UINT32_MAX ==> s.start <= s.end < n)
    requires s.start != UINT32_MAX && n > s.end + MERGE_GAP ==> |s.ranges| < MAX_RANGES
    ensures var before, after := AllRanges(s), AllRanges(s.Touch(n));
      && |before| <= |after| && after != [] && In(n, after[|after| - 1])
      && forall k :: 0 <= k < |before| ==> after[k].first == before[k].first && before[k].last <= after[k].last
  {}

  lemma TouchHasRoom(dirty: seq<bool>, s: Scan, full: bool)
    requires 0 < |dirty| <= UINT32_MAX && dirty[|dirty| - 1]
    requires Counted(dirty[..|dirty| - 1], s, full) && Clusters(dirty) <= MAX_RANGES + 1
    ensures s.start != UINT32_MAX ==> s.start <= s.end < |dirty| - 1
    ensures s.start != UINT32_MAX && |dirty| - 1 > s.end + MERGE_GAP ==> |s.ranges| < MAX_RANGES
  {}

  lemma TouchCovers(dirty: seq<bool>, s: Scan, full: bool)
    requires 0 < |dirty| <= UINT32_MAX && dirty[|dirty| - 1]
    requires Counted(dirty[..|dirty| - 1], s, full) && Clusters(dirty) <= MAX_RANGES + 1
    requires Covers(dirty[..|dirty| - 1], AllRanges(s))
    ensures Covers(dirty, AllRanges(s.Touch(|dirty| - 1)))
  {
    hide Clusters, StartsCluster, Counted, Scan.Touch, AllRanges;
    var n := |dirty| - 1;
    TouchHasRoom(dirty, s, full);
    TouchGrows(s, n);
    var before, after := AllRanges(s), AllRanges(s.Touch(n));
    assert Covered(n, after);
    assert |before| <= |after|;
    forall i | 0 <= i < n && dirty[i]
      ensures Covered(i, after)
    {
      assert dirty[..n][i] && Covered(i, before);
      var k :| 0 <= k < |before| && In(i, before[k]);
      assert In(i, after[k]);
    }
  }

  lemma {:induction false} ScanIsGood(dirty: seq<bool>, full: bool)
    requires |dirty| <= UINT32_MAX
    ensures var s := ScanDirty(dirty, full);
      && Counted(dirty, s, full)
      && Laid(dirty, AllRanges(s))
      && (Clusters(dirty) <= MAX_RANGES + 1 ==> Covers(dirty, AllRanges(s)))
  {
    if dirty != [] {
      var n := |dirty| - 1;
      ScanIsGood(dirty[..n], full);
      var s := ScanDirty(dirty[..n], full);
      if dirty[n] {
        TouchCounts(dirty, s, full);
        TouchLays(dirty, s, full);
        if Clusters(dirty) <= MAX_RANGES + 1 {
          TouchCovers(dirty, s, full);
        }
      } else {
        LaidInLonger(dirty, n, AllRanges(s));
        assert forall i :: 0 <= i < n ==> dirty[..n][i] == dirty[i];
      }
    }
  }

  /** The ranges a frame uploads: one per cluster of dirty cells, sorted and more than sixteen cells apart, never more
    * than 64; a 65th cluster turns the frame into one full upload, and nothing else does. */
  lemma CoalescedRanges(dirty: seq<bool>, full: bool)
    requires |dirty| <= UINT32_MAX
    ensures var s := ScanDirty(dirty, full).Flush();
      && |s.ranges| == Min(Clusters(dirty), MAX_RANGES)
      && s.full == (full || Clusters(dirty) > MAX_RANGES)
      && Laid(dirty, s.ranges)
      && (Clusters(dirty) <= MAX_RANGES ==> Covers(dirty, s.ranges))
  {
    ScanIsGood(dirty, full);
    hide Clusters, ScanDirty, Laid, Covers;
    var s := ScanDirty(dirty, full);
    if s.start != UINT32_MAX {
      OpenIsLaid(dirty, s);
    }
  }

  lemma FullExactlyWhen(dirty: seq<bool>, full: bool)
    requires |dirty| <= UINT32_MAX
    ensures ScanDirty(dirty, full).Flush().full == (full || Clusters(dirty) > MAX_RANGES)
  {
    CoalescedRanges(dirty, full);
  }

  // ---- the copy -------------------------------------------------------------------------------------------------

  function Paste(gpu: seq<Cell>, shadow: seq<Cell>, r: Range): seq<Cell>
    requires r.first <= r.last < |shadow| <= |gpu|
  {
    gpu[..r.first] + shadow[r.first..r.last + 1] + gpu[r.last + 1..]
  }

  ghost predicate Fit(ranges: seq<Range>, n: nat) {
    forall k :: 0 <= k < |ranges| ==> ranges[k].first <= ranges[k].last < n
  }

  ghost function PasteAll(gpu: seq<Cell>, shadow: seq<Cell>, ranges: seq<Range>): (out: seq<Cell>)
    requires |shadow| <= |gpu| && Fit(ranges, |shadow|)
    ensures |out| == |gpu|
  {
    if ranges == [] then gpu
    else Paste(PasteAll(gpu, shadow, ranges[..|ranges| - 1]), shadow, ranges[|ranges| - 1])
  }

  lemma {:induction false} PasteAllAt(gpu: seq<Cell>, shadow: seq<Cell>, ranges: seq<Range>, i: nat)
    requires |shadow| <= |gpu| && i < |gpu| && Fit(ranges, |shadow|)
    ensures PasteAll(gpu, shadow, ranges)[i] == if Covered(i, ranges) then shadow[i] else gpu[i]
  {
    if ranges != [] {
      var n := |ranges| - 1;
      PasteAllAt(gpu, shadow, ranges[..n], i);
      assert Covered(i, ranges) <==> Covered(i, ranges[..n]) || In(i, ranges[n]) by {
        if Covered(i, ranges[..n]) {
          var k :| 0 <= k < n && In(i, ranges[..n][k]);
          assert In(i, ranges[k]);
        }
        if In(i, ranges[n]) {}
        if Covered(i, ranges) && !In(i, ranges[n]) {
          var k :| 0 <= k < |ranges| && In(i, ranges[k]);
          assert In(i, ranges[..n][k]);
        }
      }
    }
  }

  /** Copying only the coalesced ranges leaves the GPU holding exactly what copying everything would. */
  lemma IncrementalEqualsFull(gpu: seq<Cell>, was: seq<Cell>, now: seq<Cell>, dirty: seq<bool>)
    requires |was| == |now| == |dirty| <= |gpu| && |dirty| <= UINT32_MAX
    requires gpu[..|was|] == was
    requires forall i :: 0 <= i < |dirty| ==> dirty[i] == (was[i] != now[i])
    ensures var s := ScanDirty(dirty, false).Flush();
      && Fit(s.ranges, |now|)
      && (!s.full ==> PasteAll(gpu, now, s.ranges) == now + gpu[|now|..])
  {
    CoalescedRanges(dirty, false);
    var s := ScanDirty(dirty, false).Flush();
    if !s.full {
      forall i | 0 <= i < |gpu|
        ensures PasteAll(gpu, now, s.ranges)[i] == (now + gpu[|now|..])[i]
      {
        PasteAllAt(gpu, now, s.ranges, i);
        if i < |now| {
          assert gpu[i] == gpu[..|was|][i];
        }
      }
    }
  }

  // ---- the renderer ---------------------------------------------------------------------------------------------

  ghost function DirtyOf(was: seq<Cell>, now: seq<Cell>): seq<bool>
    requires |was| == |now|
  {
    seq(|was|, i requires 0 <= i < |was| => was[i] != now[i])
  }

  class ParticleRenderer {
    var cols: nat
    var rows: nat
    var lastPpc: nat
    var shadow: seq<Cell>
    var cells: seq<Cell>            // the GPU buffer
    var birthPlan: seq<real>
    var planBulk: bool
    var planSuppress: bool
    var waveStart: real
    var waveRowDelay: real
    var instantNext: bool
    var resetPending: bool
    var resetKeepBright: bool
    var dirtyLast: nat

    /** Unless a full upload is already due, the GPU holds the shadow. */
    ghost predicate Valid()
      reads this
    {
      && |shadow| == cols * rows <= |cells|
      && |cells| <= UINT32_MAX
      && (!resetPending ==> cells[..|shadow|] == shadow)
    }

    constructor ()
      ensures Valid() && shadow == [] && resetPending
    {
      cols, rows, lastPpc, shadow, cells := 0, 0, 0, [], [];
      birthPlan, planBulk, resetPending, resetKeepBright, dirtyLast := [], false, true, false, 0;
      planSuppress, waveStart, waveRowDelay, instantNext := false, -1000000000.0, 0.0, false;
    }

    /** `junk` is whatever a newly made GPU buffer holds. */
    method EnsureGrid(newCols: nat, newRows: nat, particlesPerCell: nat, junk: nat -> Cell)
      requires Valid() && newCols * newRows + newCols * newRows / 4 <= UINT32_MAX
      modifies this
      ensures Valid() && cols == newCols && rows == newRows
      ensures newCols == old(cols) && newRows == old(rows) ==> shadow == old(shadow) && birthPlan == old(birthPlan)
      ensures !(newCols == old(cols) && newRows == old(rows)) ==>
                resetPending && birthPlan == [] && forall i :: 0 <= i < |shadow| ==> shadow[i] == BLANK
      ensures newCols == old(cols) && newRows == old(rows) && lastPpc == old(lastPpc) ==> unchanged(this)
      ensures lastPpc == Clamp(particlesPerCell, MIN_PARTICLES_PER_CELL, MAX_PARTICLES_PER_CELL)
      ensures lastPpc != old(lastPpc) ==> resetPending
    {
      var cellCount := newCols * newRows;
      var ppc := Clamp(particlesPerCell, MIN_PARTICLES_PER_CELL, MAX_PARTICLES_PER_CELL);
      var sameGrid := newCols == cols && newRows == rows && |shadow| == cellCount;
      if sameGrid && ppc == lastPpc {
        return;
      }
      cols, rows, lastPpc := newCols, newRows, ppc;
      if cellCount > |cells| {
        cells := seq(cellCount + cellCount / 4, i requires 0 <= i => junk(i));
      }
      if !sameGrid {
        shadow := seq(cellCount, _ => BLANK);
        birthPlan := [];
      }
      resetPending := true;
      resetKeepBright := sameGrid;
    }

    method Reset(instant: bool)
      requires Valid()
      modifies this
      ensures Valid() && resetPending && shadow == old(shadow) && cells == old(cells)
      ensures cols == old(cols) && rows == old(rows) && birthPlan == old(birthPlan)
      ensures instantNext == (instant || old(instantNext))
    {
      resetPending := true;
      resetKeepBright := instant;
      if instant {
        instantNext := true;
      }
    }

    /** Births for the coming frame. After an instant reset every cell is long settled; otherwise the counts decide. */
    method PlanBirths(visuals: seq<Visual>, time: real, tuning: Tuning)
      requires Valid()
      modifies this`birthPlan, this`planBulk, this`planSuppress, this`waveStart, this`waveRowDelay, this`instantNext
      ensures cols * rows == 0 || |visuals| < cols * rows ==> unchanged(this)
      ensures 0 < cols * rows <= |visuals| && old(instantNext) ==>
                && !instantNext && |birthPlan| == |shadow|
                && (forall i :: 0 <= i < |birthPlan| ==> birthPlan[i] == time - 100.0)
                && planSuppress && !planBulk && waveRowDelay == 0.0 && waveStart == old(waveStart)
      ensures 0 < cols * rows <= |visuals| && !old(instantNext) ==>
                var t := Tallied(shadow, visuals, cols, time, |shadow|);
                && 0 < cols && birthPlan == Planned(shadow, visuals, cols, time, RowDelay(t, rows, tuning))
                && planBulk == t.Bulk() && planSuppress == (t.Bulk() && t.ScrollLike()) && !instantNext
                && (if t.Bulk() && !t.ScrollLike() then waveStart == time && waveRowDelay == RowDelay(t, rows, tuning)
                    else waveStart == old(waveStart) && waveRowDelay == old(waveRowDelay))
    {
      var cellCount := cols * rows;
      if cellCount == 0 || |visuals| < cellCount {
        return;
      }
      if instantNext {
        instantNext := false;
        birthPlan := seq(cellCount, _ => time - 100.0);
        planSuppress := true;
        planBulk := false;
        waveRowDelay := 0.0;
        return;
      }
      hide Tallied, Planned, RowDelay, Tally.Many, Tally.ScrollLike, Tally.Anchored, Tally.Bulk;
      var tally := CountChanges(visuals, time);
      var bulk := tally.Bulk();
      planSuppress := bulk && tally.ScrollLike();
      planBulk := bulk;
      var rowDelay := Sweep(tally, tuning);
      if bulk && !tally.ScrollLike() {
        waveStart := time;
        waveRowDelay := rowDelay;
      }
      FillPlan(visuals, time, rowDelay);
    }

    /** The sweep down the screen: none but for a repaint that is not a scroll. */
    method Sweep(t: Tally, tuning: Tuning) returns (rowDelay: real)
      ensures rowDelay == RowDelay(t, rows, tuning)
    {
      rowDelay := 0.0;
      if t.Bulk() && !t.ScrollLike() {
        rowDelay := 0.7 / (if tuning.effectSpeed < 0.1 then 0.1 else tuning.effectSpeed)
          / (if rows == 0 then 1 else rows) as real;
        rowDelay := rowDelay * tuning.waveScale;
        if tuning.reducedMotion {
          rowDelay := 0.0;
        }
      }
    }

    /** The counting loop. */
    method CountChanges(visuals: seq<Visual>, time: real) returns (t: Tally)
      requires |shadow| <= |visuals|
      ensures t == Tallied(shadow, visuals, cols, time, |shadow|)
    {
      t := Tally(0, 0, 0, 0, 0);
      for i := 0 to |shadow|
        invariant t == Tallied(shadow, visuals, cols, time, i)
      {
        var oldInk, newInk := shadow[i].glyph != 0, visuals[i].glyph != 0;
        if oldInk || newInk {
          t := t.(ink := t.ink + 1);
        }
        if visuals[i].glyph == shadow[i].glyph {
          if oldInk && time - shadow[i].birth > ANCHOR_AGE {
            t := t.(anchors := t.anchors + 1);
          }
        } else {
          if oldInk || newInk {
            t := t.(changes := t.changes + 1);
          }
          if i + cols < |shadow| {
            t := t.(checked := t.checked + 1);
            if visuals[i].glyph == shadow[i + cols].glyph {
              t := t.(matches := t.matches + 1);
            }
          }
        }
      }
    }

    method FillPlan(visuals: seq<Visual>, time: real, rowDelay: real)
      requires 0 < cols && |shadow| <= |visuals|
      modifies this`birthPlan
      ensures birthPlan == Planned(shadow, visuals, cols, time, rowDelay)
    {
      birthPlan := [];
      for i := 0 to |shadow|
        invariant |birthPlan| == i
        invariant forall j :: 0 <= j < i ==> birthPlan[j] == Planned(shadow, visuals, cols, time, rowDelay)[j]
      {
        if visuals[i].glyph != shadow[i].glyph {
          birthPlan := birthPlan + [time + rowDelay * (i / cols) as real];
        } else {
          birthPlan := birthPlan + [shadow[i].birth];
        }
      }
    }

    /** One frame. Whichever way the upload goes, the GPU ends with the new shadow in front and the rest of its buffer
      * untouched; the shadow is the diff of every cell against the screen. */
    method Simulate(visuals: seq<Visual>, time: real, tuning: Tuning)
      requires Valid()
      modifies this
      ensures Valid() && cols == old(cols) && rows == old(rows)
      ensures |visuals| < cols * rows || cols * rows == 0 ==>
                shadow == old(shadow) && cells == old(cells) && resetPending == old(resetPending)
      ensures 0 < cols * rows <= |visuals| ==>
                && !resetPending && |birthPlan| == |shadow| == |old(shadow)|
                && (|old(birthPlan)| == |shadow| ==> birthPlan == old(birthPlan) && planBulk == old(planBulk))
                && (forall i :: 0 <= i < |shadow| ==>
                    shadow[i] == Diffed(old(shadow)[i], visuals[i], birthPlan[i], planBulk))
                && cells == shadow + old(cells)[|shadow|..]
                && var dirty := DirtyOf(old(shadow), shadow);
                   dirtyLast == if old(resetPending) || Clusters(dirty) > MAX_RANGES then |shadow| else Count(dirty)
    {
      var cellCount := cols * rows;
      if cellCount == 0 || |visuals| < cellCount {
        return;
      }
      if |birthPlan| != cellCount {
        PlanBirths(visuals, time, tuning);
      }
      ghost var was := shadow;
      var scan := DiffScreen(visuals, time);
      Upload(scan.Flush(), was, DirtyOf(was, shadow));
      resetPending := false;
    }

    /** The diff loop: rewrites the shadow in place, counting and coalescing the cells that change. */
    method DiffScreen(visuals: seq<Visual>, time: real) returns (scan: Scan)
      requires |shadow| == |birthPlan| <= |visuals| && |shadow| <= UINT32_MAX
      modifies this`shadow, this`dirtyLast
      ensures |shadow| == |old(shadow)|
      ensures forall i :: 0 <= i < |shadow| ==> shadow[i] == Diffed(old(shadow)[i], visuals[i], birthPlan[i], planBulk)
      ensures scan == ScanDirty(DirtyOf(old(shadow), shadow), resetPending)
      ensures dirtyLast == Count(DirtyOf(old(shadow), shadow))
    {
      ghost var was := shadow;
      dirtyLast := 0;
      scan := Scan([], UINT32_MAX, 0, resetPending);
      ghost var dirty: seq<bool> := [];
      for i := 0 to |shadow|
        invariant |shadow| == |was| && |dirty| == i
        invariant forall j :: 0 <= j < i ==> shadow[j] == Diffed(was[j], visuals[j], birthPlan[j], planBulk)
        invariant forall j :: i <= j < |was| ==> shadow[j] == was[j]
        invariant forall j :: 0 <= j < i ==> dirty[j] == (was[j] != shadow[j])
        invariant scan == ScanDirty(dirty, resetPending) && dirtyLast == Count(dirty)
      {
        var changed := DiffCell(i, visuals[i], time);
        if changed {
          dirtyLast := dirtyLast + 1;
          scan := scan.Touch(i);
        }
        dirty := dirty + [changed];
        assert dirty[..i] == dirty[..|dirty| - 1];
      }
      assert dirty == DirtyOf(was, shadow);
    }

    method DiffCell(i: nat, v: Visual, time: real) returns (changed: bool)
      requires i < |shadow| == |birthPlan|
      modifies this`shadow
      ensures shadow == old(shadow)[i := Diffed(old(shadow)[i], v, birthPlan[i], planBulk)]
      ensures changed == (shadow[i] != old(shadow)[i])
    {
      var s := shadow[i];
      changed := false;
      var quiet := s.flags.quiet;
      if v.glyph != s.glyph {
        s := s.(prevGlyph := s.glyph, glyph := v.glyph, birth := if i < |birthPlan| then birthPlan[i] else time);
        quiet := v.flags.quiet && !planBulk;
        changed := true;
      }
      if Abs(v.bright - s.bright) > BRIGHT_STEP {
        s := s.(bright := v.bright);
        changed := true;
      }
      var wantFlags := Flags(v.flags.selected, v.flags.color, quiet);
      if wantFlags != s.flags || v.rgb != s.rgb {
        s := s.(flags := wantFlags, rgb := v.rgb);
        changed := true;
      }
      shadow := shadow[i := s];
    }

    method Upload(scan: Scan, ghost was: seq<Cell>, ghost dirty: seq<bool>)
      requires |was| == |shadow| == |dirty| <= |cells| && |dirty| <= UINT32_MAX
      requires scan == ScanDirty(dirty, resetPending).Flush()
      requires !resetPending ==> cells[..|was|] == was
      requires forall i :: 0 <= i < |dirty| ==> dirty[i] == (was[i] != shadow[i])
      modifies this`cells, this`dirtyLast
      ensures cells == shadow + old(cells)[|shadow|..]
      ensures dirtyLast == if resetPending || Clusters(dirty) > MAX_RANGES then |shadow| else old(dirtyLast)
    {
      FullExactlyWhen(dirty, resetPending);
      if scan.full {
        cells := shadow + cells[|shadow|..];
        dirtyLast := |shadow|;
        return;
      }
      IncrementalEqualsFull(cells, was, shadow, dirty);
      CopyRanges(scan.ranges);
    }

    method CopyRanges(ranges: seq<Range>)
      requires |shadow| <= |cells| && Fit(ranges, |shadow|)
      modifies this`cells
      ensures cells == PasteAll(old(cells), shadow, ranges)
    {
      for r := 0 to |ranges|
        invariant |cells| == |old(cells)|
        invariant cells == PasteAll(old(cells), shadow, ranges[..r])
      {
        assert ranges[..r + 1][..r] == ranges[..r];
        cells := Paste(cells, shadow, ranges[r]);
      }
      assert ranges[..|ranges|] == ranges;
    }
  }

  function Clamp(x: nat, lo: nat, hi: nat): nat {
    if x < lo then lo else if hi < x then hi else x
  }

  lemma ClampWithin(x: nat, lo: nat, hi: nat)
    requires lo <= hi
    ensures lo <= Clamp(x, lo, hi) <= hi && (lo <= x <= hi ==> Clamp(x, lo, hi) == x)
    ensures (x < lo ==> Clamp(x, lo, hi) == lo) && (hi < x ==> Clamp(x, lo, hi) == hi)
  {}
}
