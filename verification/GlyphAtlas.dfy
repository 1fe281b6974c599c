/** The shelf-packed glyph atlas (src/glyphs/sampler.cpp).
  *
  * `Place` is the packer's decision as a function of its cursor; `Pack` is the cursor with the glyph map, and `Lazy`
  * is what a lookup answers. The class writes rasters into one byte array and keeps every packed glyph's own pixels
  * intact. Rasterising is an input: a font is any function from code point and size to a raster.
  */
module GlyphAtlas {
  import opened Arithmetic
  import opened Bits
  import opened Wrappers

  const ATLAS_W: nat := 2048
  const ATLAS_H: nat := 1024

  datatype Rect = Rect(x: nat, y: nat, w: nat, h: nat)

  /** A raster as its rows, top to bottom. */
  datatype Raster = Raster(w: nat, rows: seq<seq<Byte>>)

  type Font = (nat, real) -> Option<Raster>

  ghost predicate RasterOk(r: Raster) {
    && r.w < ATLAS_W
    && forall y :: 0 <= y < |r.rows| ==> |r.rows[y]| == r.w
  }

  /** Every raster is narrower than the atlas; see InsideIffNarrow for why that is needed. */
  ghost predicate FontOk(font: Font) {
    forall cp, px :: font(cp, px).Some? ==> RasterOk(font(cp, px).value)
  }

  lemma FontDraws(font: Font, cp: nat, px: real)
    requires FontOk(font) && font(cp, px).Some?
    ensures RasterOk(font(cp, px).value)
  {}

  // ---- the packer -----------------------------------------------------------------------------------------------

  datatype Cursor = Cursor(x: nat, y: nat, rowH: nat)

  const START := Cursor(1, 1, 0)

  function Place(c: Cursor, w: nat, h: nat): (Cursor, Option<Rect>) {
    var c := if c.x + w + 1 >= ATLAS_W then Cursor(1, c.y + c.rowH + 2, 0) else c;
    if c.y + h + 1 >= ATLAS_H then (c, None)
    else (Cursor(c.x + w + 2, c.y, if c.rowH < h then h else c.rowH), Some(Rect(c.x, c.y, w, h)))
  }

  ghost predicate InAtlas(r: Rect) {
    1 <= r.x && r.x + r.w <= ATLAS_W && 1 <= r.y && r.y + r.h < ATLAS_H
  }

  /** At least two pixels lie between the rectangles, across or down. */
  ghost predicate Gutter(a: Rect, b: Rect) {
    || a.x + a.w + 2 <= b.x || b.x + b.w + 2 <= a.x
    || a.y + a.h + 2 <= b.y || b.y + b.h + 2 <= a.y
  }

  /** The rectangle is in a finished row, or in this row to the left of the cursor. */
  ghost predicate Behind(r: Rect, c: Cursor) {
    r.y + r.h + 2 <= c.y || (r.y == c.y && r.h <= c.rowH && r.x + r.w + 2 <= c.x)
  }

  lemma PlaceSafe(c: Cursor, w: nat, h: nat)
    requires 1 <= c.x && 1 <= c.y
    ensures var (c', r) := Place(c, w, h);
      && 1 <= c'.x && 1 <= c'.y && c.y <= c'.y
      && (forall g: Rect :: Behind(g, c) ==> Behind(g, c'))
      && (r.Some? ==>
            && r.value.w == w && r.value.h == h && Behind(r.value, c')
            && forall g: Rect :: Behind(g, c) ==> Gutter(g, r.value))
  {}

  /** The width is not checked again after a wrap, so a placed rectangle lies inside the atlas exactly when the raster
    * is narrower than the atlas. */
  lemma InsideIffNarrow(c: Cursor, w: nat, h: nat)
    requires 1 <= c.x && 1 <= c.y && Place(c, w, h).1.Some?
    ensures InAtlas(Place(c, w, h).1.value) <==> w < ATLAS_W
  {}

  // ---- the glyph map --------------------------------------------------------------------------------------------

  /** A glyph the font cannot draw is kept as an entry with an advance and no pixels. */
  datatype Entry = Blank | Inked(rect: Rect)

  datatype Pack = Pack(cursor: Cursor, glyphs: map<nat, Entry>)

  const EMPTY := Pack(START, map[])

  /** AddAtlasGlyph: false when the atlas is full. */
  function Add(p: Pack, cp: nat, raster: Option<Raster>): (Pack, bool) {
    if raster.None? then (p.(glyphs := p.glyphs[cp := Blank]), true)
    else
      var (c, r) := Place(p.cursor, raster.value.w, |raster.value.rows|);
      if r.None? then (p.(cursor := c), false)
      else (Pack(c, p.glyphs[cp := Inked(r.value)]), true)
  }

  /** AtlasForLazy: the entry, adding the glyph on first demand; None when it does not fit. */
  function Lazy(p: Pack, cp: nat, font: Font, px: real): (Pack, Option<Entry>) {
    if cp in p.glyphs then (p, Some(p.glyphs[cp]))
    else
      var (q, ok) := Add(p, cp, font(cp, px));
      if ok then (q, Some(q.glyphs[cp])) else (q, None)
  }

  function LazyAll(p: Pack, cps: seq<nat>, font: Font, px: real): Pack {
    if cps == [] then p else Lazy(LazyAll(p, cps[..|cps| - 1], font, px), cps[|cps| - 1], font, px).0
  }

  /** Inside the atlas, behind the cursor, pairwise two pixels apart. */
  ghost predicate WellPacked(p: Pack) {
    && 1 <= p.cursor.x && 1 <= p.cursor.y
    && (forall cp :: cp in p.glyphs && p.glyphs[cp].Inked? ==>
          InAtlas(p.glyphs[cp].rect) && Behind(p.glyphs[cp].rect, p.cursor))
    && (forall a, b :: a in p.glyphs && b in p.glyphs && a != b && p.glyphs[a].Inked? && p.glyphs[b].Inked? ==>
          Gutter(p.glyphs[a].rect, p.glyphs[b].rect))
  }

  lemma AddKeepsPacked(p: Pack, cp: nat, raster: Option<Raster>)
    requires WellPacked(p) && (raster.Some? ==> RasterOk(raster.value))
    ensures WellPacked(Add(p, cp, raster).0)
    ensures Add(p, cp, raster).1 == (cp in Add(p, cp, raster).0.glyphs) || cp in p.glyphs
  {}

  /** For any sequence of lookups after a rebuild the atlas stays well packed. */
  lemma {:induction false} LookupsKeepPacked(p: Pack, cps: seq<nat>, font: Font, px: real)
    requires WellPacked(p) && FontOk(font)
    ensures WellPacked(LazyAll(p, cps, font, px))
  {
    if cps != [] {
      var n := |cps| - 1;
      LookupsKeepPacked(p, cps[..n], font, px);
      AddKeepsPacked(LazyAll(p, cps[..n], font, px), cps[n], font(cps[n], px));
    }
  }

  /** A refusal leaves the cursor too low for that height, and the cursor never moves up. */
  ghost predicate Refused(p: Pack, cp: nat, font: Font, px: real) {
    cp !in p.glyphs && font(cp, px).Some? && p.cursor.y + |font(cp, px).value.rows| + 1 >= ATLAS_H
  }

  lemma {:induction false} AnswerKept(p: Pack, cp: nat, later: seq<nat>, font: Font, px: real)
    ensures cp in p.glyphs ==>
              cp in LazyAll(p, later, font, px).glyphs && LazyAll(p, later, font, px).glyphs[cp] == p.glyphs[cp]
    ensures Refused(p, cp, font, px) ==> Refused(LazyAll(p, later, font, px), cp, font, px)
  {
    if later != [] {
      AnswerKept(p, cp, later[..|later| - 1], font, px);
    }
  }

  /** Once a glyph is placed or refused, whatever is looked up afterwards, asking again gets the same answer. */
  lemma AnswerNeverChanges(p: Pack, cp: nat, later: seq<nat>, font: Font, px: real)
    ensures var (p1, first) := Lazy(p, cp, font, px);
      Lazy(LazyAll(p1, later, font, px), cp, font, px).1 == first
  {
    var (p1, first) := Lazy(p, cp, font, px);
    AnswerKept(p1, cp, later, font, px);
  }

  // ---- how much fits --------------------------------------------------------------------------------------------

  /** Glyphs of one width that a row holds, and rows of one height that the atlas holds. */
  function Columns(w: nat): nat {
    (ATLAS_W - 1) / (w + 2)
  }

  function Rows(h: nat): nat {
    (ATLAS_H - 1) / (h + 2)
  }

  function Spot(col: nat, row: nat, w: nat, h: nat): Rect {
    Rect(1 + col * (w + 2), 1 + row * (h + 2), w, h)
  }

  /** The place of number `i` in a grid filled row by row. */
  function GridRect(i: nat, w: nat, h: nat): Rect
    requires 0 < Columns(w)
  {
    InGrid(i, Columns(w), w, h)
  }

  function InGrid(i: nat, cols: nat, w: nat, h: nat): Rect
    requires 0 < cols
  {
    Spot(i % cols, i / cols, w, h)
  }

  ghost predicate OneSize(cps: seq<nat>, font: Font, px: real, w: nat, h: nat) {
    forall cp :: cp in cps ==> font(cp, px).Some? && font(cp, px).value.w == w && |font(cp, px).value.rows| == h
  }

  ghost predicate Distinct(cps: seq<nat>) {
    forall i, j :: 0 <= i < j < |cps| ==> cps[i] != cps[j]
  }

  /** The cursor behind the last of `n` glyphs in the grid. */
  ghost predicate GridCursor(c: Cursor, n: nat, w: nat, h: nat)
    requires 0 < Columns(w)
  {
    if n == 0 then c == START
    else var last := GridRect(n - 1, w, h); c == Cursor(last.x + w + 2, last.y, h)
  }

  /** The next in a grid is beside the last one, or begins a row below it. */
  lemma GridNext(n: nat, cols: nat)
    requires 0 < cols && 0 < n
    ensures if n % cols == 0 then n / cols == (n - 1) / cols + 1 && (n - 1) % cols == cols - 1
            else n / cols == (n - 1) / cols && n % cols == (n - 1) % cols + 1
  {
    var q, r := (n - 1) / cols, (n - 1) % cols;
    assert n - 1 == cols * q + r;
    if r == cols - 1 {
      assert n == cols * (q + 1) + 0;
      QuotientIs(n, cols, q + 1, 0);
    } else {
      QuotientIs(n, cols, q, r + 1);
    }
  }

  /** From a grid of `n` the next glyph of the size goes to its place in the grid, or is refused when the grid is
    * full. */
  lemma GridStep(c: Cursor, n: nat, w: nat, h: nat)
    requires w + 2 < ATLAS_W && 0 < Columns(w) && GridCursor(c, n, w, h)
    ensures var (c', r) := Place(c, w, h);
      if n < Columns(w) * Rows(h) then r == Some(GridRect(n, w, h)) && GridCursor(c', n + 1, w, h)
      else r == None && c'.y + h + 1 >= ATLAS_H && 1 <= c'.x
  {
    hide Place, Rows, Spot, Columns;
    RowCounts(n, Columns(w), Rows(h));
    if n == 0 {
      QuotientIs(0, Columns(w), 0, 0);
      FirstSpot(w, h);
    } else {
      GridNext(n, Columns(w));
      SpotStep((n - 1) % Columns(w), (n - 1) / Columns(w), w, h);
    }
  }

  lemma FirstSpot(w: nat, h: nat)
    requires w + 2 < ATLAS_W
    ensures Place(START, w, h) == if 1 <= Rows(h) then (Cursor(w + 3, 1, h), Some(Spot(0, 0, w, h))) else (START, None)
    ensures Spot(0, 0, w, h) == Rect(1, 1, w, h) && (1 > Rows(h) ==> 1 + h + 1 >= ATLAS_H)
  {
    StepsFit(1, h + 2, ATLAS_H - 1);
  }

  lemma SpotStep(col: nat, row: nat, w: nat, h: nat)
    requires w + 2 < ATLAS_W && col < Columns(w)
    ensures var last := Spot(col, row, w, h);
      var next := if col + 1 == Columns(w) then Spot(0, row + 1, w, h) else Spot(col + 1, row, w, h);
      var down := if col + 1 == Columns(w) then row + 2 else row + 1;
      var (c, r) := Place(Cursor(last.x + w + 2, last.y, h), w, h);
      if down <= Rows(h) then r == Some(next) && c == Cursor(next.x + w + 2, next.y, h)
      else r == None && c.y + h + 1 >= ATLAS_H && 1 <= c.x
  {
    hide Columns, Rows;
    Room(col + 2, w);
    LinesFit(row + 1, h);
    LinesFit(row + 2, h);
    Distribute(col, 1, w + 2);
    Distribute(col, 2, w + 2);
    Distribute(row, 1, h + 2);
    Distribute(row, 2, h + 2);
  }

  lemma Room(n: nat, w: nat)
    ensures n * (w + 2) <= ATLAS_W - 1 <==> n <= Columns(w)
  {
    StepsFit(n, w + 2, ATLAS_W - 1);
  }

  lemma LinesFit(n: nat, h: nat)
    ensures n * (h + 2) <= ATLAS_H - 1 <==> n <= Rows(h)
  {
    StepsFit(n, h + 2, ATLAS_H - 1);
  }

  lemma RowCounts(n: nat, cols: nat, rows: nat)
    requires 0 < cols
    ensures n < cols * rows <==> n / cols + 1 <= rows
  {
    var q := n / cols;
    assert n == cols * q + n % cols;
    Regroup(1, cols, q);
    Regroup(1, cols, rows);
    if q + 1 <= rows {
      MoreSteps(q + 1, rows, cols);
      Distribute(q, 1, cols);
    } else {
      MoreSteps(rows, q, cols);
    }
  }

  /** Glyphs of one size fill the atlas as a grid, row by row from the top: each has its place, and exactly those past
    * the last place are refused. */
  lemma {:induction false} GridFills(cps: seq<nat>, font: Font, px: real, w: nat, h: nat)
    requires w + 2 < ATLAS_W && Distinct(cps) && OneSize(cps, font, px, w, h)
    ensures 0 < Columns(w) && Filled(LazyAll(EMPTY, cps, font, px), cps, w, h)
  {
    hide Filled, Place, Columns;
    Room(1, w);
    if cps == [] {
      StartsGrid(w, h);
    } else {
      var n := |cps| - 1;
      GridFills(cps[..n], font, px, w, h);
      FillsOneMore(LazyAll(EMPTY, cps[..n], font, px), cps, w, h, font(cps[n], px));
    }
  }

  /** The glyphs that have a place in the grid are at it, and the others are not in the map. */
  ghost predicate Filled(p: Pack, cps: seq<nat>, w: nat, h: nat)
    requires 0 < Columns(w)
  {
    var room := Columns(w) * Rows(h);
    && (if |cps| <= room then GridCursor(p.cursor, |cps|, w, h) else p.cursor.y + h + 1 >= ATLAS_H && 1 <= p.cursor.x)
    && (forall cp :: cp in p.glyphs ==> cp in cps)
    && forall i :: 0 <= i < |cps| ==>
         if i < room then cps[i] in p.glyphs && p.glyphs[cps[i]] == Inked(GridRect(i, w, h)) else cps[i] !in p.glyphs
  }

  lemma FillsOneMore(p: Pack, cps: seq<nat>, w: nat, h: nat, raster: Option<Raster>)
    requires w + 2 < ATLAS_W && 0 < Columns(w) && cps != [] && Distinct(cps) && Filled(p, cps[..|cps| - 1], w, h)
    requires raster.Some? && raster.value.w == w && |raster.value.rows| == h
    ensures cps[|cps| - 1] !in p.glyphs && Filled(Add(p, cps[|cps| - 1], raster).0, cps, w, h)
  {
    hide Place, GridRect, GridCursor, Columns, Rows;
    var n := |cps| - 1;
    assert cps == cps[..n] + [cps[n]];
    if n <= Columns(w) * Rows(h) {
      GridStep(p.cursor, n, w, h);
    } else {
      StaysRefused(p.cursor, w, h);
    }
  }

  lemma StartsGrid(w: nat, h: nat)
    requires 0 < Columns(w)
    ensures Filled(EMPTY, [], w, h)
  {
    hide Columns, Rows;
  }

  lemma StaysRefused(c: Cursor, w: nat, h: nat)
    requires c.y + h + 1 >= ATLAS_H && 1 <= c.x
    ensures Place(c, w, h).1 == None && Place(c, w, h).0.y + h + 1 >= ATLAS_H && 1 <= Place(c, w, h).0.x
  {}

  /** So they all fit exactly when there are no more of them than places. */
  lemma AllFitIff(cps: seq<nat>, font: Font, px: real, w: nat, h: nat)
    requires w + 2 < ATLAS_W && Distinct(cps) && OneSize(cps, font, px, w, h)
    ensures (forall cp :: cp in cps ==> cp in LazyAll(EMPTY, cps, font, px).glyphs) <==>
            |cps| <= (ATLAS_W - 1) / (w + 2) * ((ATLAS_H - 1) / (h + 2))
  {
    hide LazyAll, GridRect, GridCursor;
    GridFills(cps, font, px, w, h);
    var room: nat := Columns(w) * Rows(h);
    if room < |cps| {
      assert cps[room] in cps;
    }
  }

  /** The glyphs of the row being filled, left to right: they start at the left edge, two pixels apart, and
    * everything else is at least two pixels above. */
  ghost predicate Filling(p: Pack, row: seq<Rect>) {
    && 1 <= p.cursor.x && 1 <= p.cursor.y
    && SideBySide(row) && (forall r :: r in row ==> r.y == p.cursor.y && Packed(p, r))
    && (forall cp :: cp in p.glyphs && p.glyphs[cp].Inked? ==>
          p.glyphs[cp].rect in row || p.glyphs[cp].rect.y + p.glyphs[cp].rect.h + 2 <= p.cursor.y)
    && p.cursor.x == NextX(row) && p.cursor.rowH == Tallest(row)
  }

  ghost predicate Packed(p: Pack, r: Rect) {
    exists cp :: cp in p.glyphs && p.glyphs[cp] == Inked(r)
  }

  lemma IsPacked(p: Pack, cp: nat)
    requires cp in p.glyphs && p.glyphs[cp].Inked?
    ensures Packed(p, p.glyphs[cp].rect)
  {}

  lemma StaysPacked(p: Pack, r: Rect, cp: nat, e: Entry, c: Cursor)
    requires Packed(p, r) && cp !in p.glyphs
    ensures Packed(Pack(c, p.glyphs[cp := e]), r)
  {
    var g :| g in p.glyphs && p.glyphs[g] == Inked(r);
    assert p.glyphs[cp := e][g] == Inked(r);
  }

  function RightOf(r: Rect): nat {
    r.x + r.w + 2
  }

  /** Where the next of the row begins. */
  function NextX(row: seq<Rect>): nat {
    if row == [] then 1 else RightOf(row[|row| - 1])
  }

  /** The first at the left edge, each of the others two pixels right of the one before. */
  ghost predicate SideBySide(row: seq<Rect>) {
    row == [] || (SideBySide(row[..|row| - 1]) && row[|row| - 1].x == NextX(row[..|row| - 1]))
  }

  function Tallest(row: seq<Rect>): nat {
    if row == [] then 0
    else
      var t := Tallest(row[..|row| - 1]);
      if t < row[|row| - 1].h then row[|row| - 1].h else t
  }

  /** Where a glyph goes: on the row if that leaves a column free at the right edge, otherwise at the left edge two
    * pixels below the tallest of the row; and it is refused exactly when its height leaves no line free there. */
  lemma GoesWhere(p: Pack, row: seq<Rect>, w: nat, h: nat)
    requires Filling(p, row)
    ensures var onRow := NextX(row) + w + 1 < ATLAS_W;
      var x, y := if onRow then NextX(row) else 1, if onRow then p.cursor.y else p.cursor.y + Tallest(row) + 2;
      && (Place(p.cursor, w, h).1 == None <==> y + h + 1 >= ATLAS_H)
      && (y + h + 1 < ATLAS_H ==> Place(p.cursor, w, h).1 == Some(Rect(x, y, w, h)))
  {}

  /** Whatever is looked up after a rebuild, there is such a row. */
  lemma {:induction false} AlwaysFilling(cps: seq<nat>, font: Font, px: real) returns (row: seq<Rect>)
    ensures Filling(LazyAll(EMPTY, cps, font, px), row)
  {
    if cps == [] {
      row := [];
    } else {
      var n := |cps| - 1;
      var p := LazyAll(EMPTY, cps[..n], font, px);
      row := AlwaysFilling(cps[..n], font, px);
      row := KeepsFilling(p, row, cps[n], font(cps[n], px));
    }
  }

  lemma KeepsFilling(p: Pack, row: seq<Rect>, cp: nat, raster: Option<Raster>) returns (row': seq<Rect>)
    requires Filling(p, row)
    ensures cp in p.glyphs ==> Filling(p, row')
    ensures cp !in p.glyphs ==> Filling(Add(p, cp, raster).0, row')
  {
    hide Filling, Place;
    row' := row;
    if cp !in p.glyphs {
      if raster.None? {
        BlankKeepsFilling(p, row, cp);
      } else {
        var w, h := raster.value.w, |raster.value.rows|;
        var q := p;
        if p.cursor.x + w + 1 >= ATLAS_W {
          q, row' := p.(cursor := Cursor(1, p.cursor.y + p.cursor.rowH + 2, 0)), [];
          NewRow(p, row);
        }
        PlaceFrom(p.cursor, w, h);
        var (c, r) := Place(p.cursor, w, h);
        if r.Some? {
          OneMoreOnRow(q, row', cp, r.value);
          row' := row' + [r.value];
        }
      }
    }
  }

  lemma PlaceFrom(c: Cursor, w: nat, h: nat)
    ensures var from := if c.x + w + 1 >= ATLAS_W then Cursor(1, c.y + c.rowH + 2, 0) else c;
      Place(c, w, h) == if from.y + h + 1 >= ATLAS_H then (from, None)
                        else (Past(from, w, h), Some(Rect(from.x, from.y, w, h)))
  {}

  function Past(c: Cursor, w: nat, h: nat): Cursor {
    Cursor(c.x + w + 2, c.y, if c.rowH < h then h else c.rowH)
  }

  lemma BlankKeepsFilling(p: Pack, row: seq<Rect>, cp: nat)
    requires Filling(p, row) && cp !in p.glyphs
    ensures Filling(p.(glyphs := p.glyphs[cp := Blank]), row)
  {
    hide Packed;
    forall r | r in row
      ensures Packed(Pack(p.cursor, p.glyphs[cp := Blank]), r)
    {
      StaysPacked(p, r, cp, Blank, p.cursor);
    }
  }

  lemma NewRow(p: Pack, row: seq<Rect>)
    requires Filling(p, row)
    ensures Filling(p.(cursor := Cursor(1, p.cursor.y + p.cursor.rowH + 2, 0)), [])
  {
    hide Tallest;
    TallestBounds(row);
    assert Tallest([]) == 0 by { NoneIsTall(); }
  }

  lemma NoneIsTall()
    ensures Tallest([]) == 0
  {}

  lemma OneMoreOnRow(p: Pack, row: seq<Rect>, cp: nat, r: Rect)
    requires Filling(p, row) && cp !in p.glyphs && r.x == p.cursor.x && r.y == p.cursor.y
    ensures Filling(Pack(Past(p.cursor, r.w, r.h), p.glyphs[cp := Inked(r)]), row + [r])
  {
    hide Tallest, Packed, SideBySide, NextX;
    TallestWith(row, r);
    BesideRow(row, r);
    var more := row + [r];
    var q := Pack(Past(p.cursor, r.w, r.h), p.glyphs[cp := Inked(r)]);
    forall g | g in row
      ensures Packed(q, g)
    {
      StaysPacked(p, g, cp, Inked(r), q.cursor);
    }
    IsPacked(q, cp);
    assert forall g :: g in more <==> g in row || g == r;
  }

  lemma BesideRow(row: seq<Rect>, r: Rect)
    requires SideBySide(row) && r.x == NextX(row)
    ensures SideBySide(row + [r]) && NextX(row + [r]) == r.x + r.w + 2
  {
    assert (row + [r])[..|row|] == row;
  }

  lemma TallestWith(row: seq<Rect>, r: Rect)
    ensures Tallest(row + [r]) == if Tallest(row) < r.h then r.h else Tallest(row)
  {
    assert (row + [r])[..|row|] == row;
  }

  lemma {:induction false} TallestBounds(row: seq<Rect>)
    ensures forall r :: r in row ==> r.h <= Tallest(row)
    ensures row != [] ==> exists r :: r in row && r.h == Tallest(row)
  {
    if row != [] {
      var n := |row| - 1;
      TallestBounds(row[..n]);
      assert row == row[..n] + [row[n]];
      if n == 0 || Tallest(row[..n]) < row[n].h {
        assert row[n] in row;
      } else {
        var r :| r in row[..n] && r.h == Tallest(row[..n]);
        assert r in row;
      }
    }
  }

  // ---- the pixels -----------------------------------------------------------------------------------------------

  ghost predicate Inside(r: Rect, i: nat) {
    r.x <= i % ATLAS_W < r.x + r.w && r.y <= i / ATLAS_W < r.y + r.h
  }

  /** The rectangle of the image holds exactly these rows. */
  ghost predicate Holds(image: seq<Byte>, r: Rect, rows: seq<seq<Byte>>) {
    && |image| == ATLAS_W * ATLAS_H && InAtlas(r) && |rows| == r.h
    && (forall y :: 0 <= y < r.h ==> |rows[y]| == r.w)
    && forall x, y :: 0 <= x < r.w && 0 <= y < r.h ==> image[(r.y + y) * ATLAS_W + (r.x + x)] == rows[y][x]
  }

  lemma HoldsElsewhere(before: seq<Byte>, after: seq<Byte>, r: Rect, rows: seq<seq<Byte>>, changed: Rect)
    requires Holds(before, r, rows) && Gutter(r, changed) && |after| == |before|
    requires forall i :: 0 <= i < |before| && !Inside(changed, i) ==> after[i] == before[i]
    ensures Holds(after, r, rows)
  {
    forall x, y | 0 <= x < r.w && 0 <= y < r.h
      ensures after[(r.y + y) * ATLAS_W + (r.x + x)] == rows[y][x]
    {
      var i := (r.y + y) * ATLAS_W + (r.x + x);
      assert i / ATLAS_W == r.y + y && i % ATLAS_W == r.x + x;
      assert !Inside(changed, i);
    }
  }

  /** Every packed glyph's pixels are exactly its own raster. */
  ghost predicate Drawn(image: seq<Byte>, glyphs: map<nat, Entry>, font: Font, px: real) {
    forall cp :: cp in glyphs && glyphs[cp].Inked? ==>
      font(cp, px).Some? && Holds(image, glyphs[cp].rect, font(cp, px).value.rows)
  }

  lemma DrawnOneMore(before: seq<Byte>, after: seq<Byte>, p: Pack, q: Pack, cp: nat, r: Rect, font: Font, px: real)
    requires Drawn(before, p.glyphs, font, px) && WellPacked(q) && cp !in p.glyphs &&
             q.glyphs == p.glyphs[cp := Inked(r)]
    requires font(cp, px).Some? && Holds(after, r, font(cp, px).value.rows) && |after| == |before|
    requires forall i :: 0 <= i < |before| && !Inside(r, i) ==> after[i] == before[i]
    ensures Drawn(after, q.glyphs, font, px)
  {
    hide Holds, Inside;
    forall g | g in p.glyphs && p.glyphs[g].Inked?
      ensures font(g, px).Some? && Holds(after, p.glyphs[g].rect, font(g, px).value.rows)
    {
      assert q.glyphs[g] == p.glyphs[g] && q.glyphs[cp].rect == r;
      HoldsElsewhere(before, after, p.glyphs[g].rect, font(g, px).value.rows, r);
    }
  }

  lemma DrawnBlank(image: seq<Byte>, glyphs: map<nat, Entry>, cp: nat, font: Font, px: real)
    requires Drawn(image, glyphs, font, px)
    ensures Drawn(image, glyphs[cp := Blank], font, px)
  {}

  lemma PlacedInside(p: Pack, cp: nat, raster: Raster, r: Rect)
    requires WellPacked(p) && RasterOk(raster) && Place(p.cursor, raster.w, |raster.rows|).1 == Some(r)
    ensures InAtlas(r) && |raster.rows| == r.h && forall y :: 0 <= y < r.h ==> |raster.rows[y]| == r.w
  {}

  /** ASCII 33..126, the password bullet and the full block, in the order a rebuild draws them. */
  const PRELOAD: seq<nat> := seq(94, i => 33 + i) + [0x2022, 0x2588]

  class GlyphSampler {
    var font: Font
    var atlas: array<Byte>
    var glyphs: map<nat, Entry>
    var curX: nat
    var curY: nat
    var rowH: nat
    var fontPx: real
    var version: nat

    ghost function View(): Pack
      reads this
    {
      Pack(Cursor(curX, curY, rowH), glyphs)
    }

    /** Well packed, and every packed glyph's pixels are exactly its own raster. */
    ghost predicate Valid()
      reads this, atlas
    {
      && FontOk(font) && WellPacked(View())
      && (atlas.Length == 0 || atlas.Length == ATLAS_W * ATLAS_H)
      && (atlas.Length == 0 ==> glyphs == map[])
      && Drawn(atlas[..], glyphs, font, fontPx)
    }

    constructor (face: Font)
      requires FontOk(face)
      ensures Valid() && View() == EMPTY && atlas.Length == 0 && font == face
    {
      font, atlas, glyphs := face, new Byte[0], map[];
      curX, curY, rowH, fontPx, version := 1, 1, 0, 0.0, 0;
    }

    /** The row-by-row copy of a raster into the atlas. */
    method Blit(r: Rect, rows: seq<seq<Byte>>)
      requires atlas.Length == ATLAS_W * ATLAS_H && InAtlas(r) && |rows| == r.h
      requires forall y :: 0 <= y < r.h ==> |rows[y]| == r.w
      modifies atlas
      ensures Holds(atlas[..], r, rows)
      ensures forall i :: 0 <= i < atlas.Length && !Inside(r, i) ==> atlas[i] == old(atlas[i])
    {
      for y := 0 to r.h
        invariant forall i :: 0 <= i < atlas.Length && !Inside(r, i) ==> atlas[i] == old(atlas[i])
        invariant forall x', y' :: 0 <= x' < r.w && 0 <= y' < y ==>
                    atlas[(r.y + y') * ATLAS_W + (r.x + x')] == rows[y'][x']
      {
        var base := (r.y + y) * ATLAS_W + r.x;
        forall x | 0 <= x < r.w {
          atlas[base + x] := rows[y][x];
        }
      }
    }

    method AddAtlasGlyph(cp: nat) returns (ok: bool)
      requires Valid() && atlas.Length != 0 && cp !in glyphs
      modifies this`glyphs, this`curX, this`curY, this`rowH, atlas
      ensures Valid() && (View(), ok) == Add(old(View()), cp, font(cp, fontPx))
    {
      hide Drawn, Holds, WellPacked, Inside, RasterOk;
      var raster := font(cp, fontPx);
      if raster.Some? {
        FontDraws(font, cp, fontPx);
      }
      AddKeepsPacked(View(), cp, raster);
      if raster.None? {
        DrawnBlank(atlas[..], glyphs, cp, font, fontPx);
        glyphs := glyphs[cp := Blank];
        return true;
      }
      var w, h := raster.value.w, |raster.value.rows|;
      ghost var before, p := atlas[..], View();
      if curX + w + 1 >= ATLAS_W {
        curX := 1;
        curY := curY + rowH + 2;
        rowH := 0;
      }
      if curY + h + 1 >= ATLAS_H {
        return false;
      }
      var r := Rect(curX, curY, w, h);
      PlacedInside(p, cp, raster.value, r);
      Blit(r, raster.value.rows);
      DrawnOneMore(before, atlas[..], p, Add(p, cp, raster).0, cp, r, font, fontPx);
      glyphs := glyphs[cp := Inked(r)];
      curX := curX + w + 2;
      rowH := if rowH < h then h else rowH;
      return true;
    }

    /** Rebuilds for a new size; a matching size leaves everything as it is. */
    method EnsureAtlas(px: real)
      requires Valid()
      modifies this, atlas
      ensures Valid() && font == old(font) && atlas.Length != 0 && fontPx == px
      ensures old(fontPx) == px && old(atlas.Length) != 0 ==> View() == old(View()) && version == old(version)
      ensures !(old(fontPx) == px && old(atlas.Length) != 0) ==>
                fresh(atlas) && View() == LazyAll(EMPTY, PRELOAD, font, px) && version == old(version) + 1
    {
      if fontPx == px && atlas.Length != 0 {
        return;
      }
      fontPx := px;
      atlas := new Byte[ATLAS_W * ATLAS_H](_ => 0);
      glyphs := map[];
      curX, curY, rowH := 1, 1, 0;
      Preload(PRELOAD);
      version := version + 1;
    }

    method Preload(cps: seq<nat>)
      requires Valid() && atlas.Length != 0 && View() == EMPTY
      requires forall i, j :: 0 <= i < j < |cps| ==> cps[i] != cps[j]
      modifies this`glyphs, this`curX, this`curY, this`rowH, atlas
      ensures Valid() && View() == LazyAll(EMPTY, cps, font, fontPx)
    {
      for k := 0 to |cps|
        invariant Valid() && View() == LazyAll(EMPTY, cps[..k], font, fontPx)
        invariant forall cp :: cp in glyphs ==> cp in cps[..k]
      {
        assert cps[..k + 1][..k] == cps[..k];
        var ok := AddAtlasGlyph(cps[k]);
      }
      assert cps[..|cps|] == cps;
    }

    method AtlasForLazy(cp: nat) returns (entry: Option<Entry>)
      requires Valid()
      modifies this, atlas
      ensures Valid() && font == old(font) && atlas == old(atlas) && fontPx == old(fontPx)
      ensures atlas.Length == 0 ==> entry == None && View() == old(View())
      ensures atlas.Length != 0 ==> (View(), entry) == Lazy(old(View()), cp, font, fontPx)
      ensures version == old(version) + (if entry.Some? && cp !in old(glyphs) then 1 else 0)
    {
      if cp in glyphs {
        return Some(glyphs[cp]);
      }
      if atlas.Length == 0 {
        return None;
      }
      var ok := AddAtlasGlyph(cp);
      if !ok {
        return None;
      }
      version := version + 1;
      return Some(glyphs[cp]);
    }

    /** A font or style change: the map is dropped and the next EnsureAtlas rebuilds. */
    method Invalidate(face: Font)
      requires Valid() && FontOk(face)
      modifies this
      ensures Valid() && font == face && glyphs == map[] && atlas == old(atlas)
    {
      font := face;
      fontPx := -1.0;
      glyphs := map[];
    }
  }
}
