/** Damage from a remote desktop going to the GPU (src/render/desktop.cpp, Upload).
  *
  * Each damage rectangle is pasted into the CPU shadow; where a pixel changed, the size of the change is pooled into a
  * grid of every S-th pixel, which the shaders turn into motion. The GPU is a framebuffer texture and a yes or no to
  * each copy. All buffers are row after row in one array, as in the program.
  */
module DesktopDamage {
  import opened Arithmetic

  datatype Rect = Rect(x: nat, y: nat, w: nat, h: nat)

  datatype Damage = Damage(width: nat, height: nat, rects: seq<Rect>, pixels: seq<nat>)

  /** A block of the sampled grid sent to the GPU. */
  datatype Inject = Inject(x: nat, y: nat, w: nat, h: nat, cells: seq<nat>)

  function Apart(a: nat, b: nat): nat {
    if a < b then b - a else a - b
  }

  /** The largest change of a colour channel; the top byte is not a colour. */
  function Delta(o: nat, n: nat): (d: nat)
    ensures d <= 255
  {
    Max(Apart(o / 65536 % 256, n / 65536 % 256), Max(Apart(o / 256 % 256, n / 256 % 256), Apart(o % 256, n % 256)))
  }

  /** What a changed pixel stirs up: never nothing, whatever the disturbance, so that the change is always stamped. */
  function Burst(o: nat, n: nat, disturbance: real): (b: nat)
    ensures 1 <= b <= 255
  {
    var scaled := (Delta(o, n) as real * disturbance).Floor;
    if scaled < 1 then 1 else if scaled > 255 then 255 else scaled
  }

  /** Red, green and blue, with a fourth byte that is not a colour. */
  function Colour(top: nat, r: nat, g: nat, b: nat): nat {
    top * 0x100_0000 + r * 0x1_0000 + g * 0x100 + b
  }

  ghost predicate LargestChange(d: int, r: int, g: int, b: int) {
    -d <= r <= d && -d <= g <= d && -d <= b <= d && (d == r || d == -r || d == g || d == -g || d == b || d == -b)
  }

  /** The change of a pixel is the largest change of its three colours. */
  lemma DeltaIsTheLargest(o: nat, t: nat, r: nat, g: nat, b: nat, n: nat, t': nat, r': nat, g': nat, b': nat)
    requires r < 256 && g < 256 && b < 256 && r' < 256 && g' < 256 && b' < 256
    requires o == Colour(t, r, g, b) && n == Colour(t', r', g', b')
    ensures LargestChange(Delta(o, n), r - r', g - g', b - b')
  {
    hide Colour;
    Channels(t, r, g, b);
    Channels(t', r', g', b');
  }

  lemma Channels(t: nat, r: nat, g: nat, b: nat)
    requires r < 256 && g < 256 && b < 256
    ensures var c := Colour(t, r, g, b); c / 65536 % 256 == r && c / 256 % 256 == g && c % 256 == b
  {
    var c := Colour(t, r, g, b);
    QuotientIs(c, 256, t * 0x1_0000 + r * 0x100 + g, b);
    QuotientIs(t * 0x1_0000 + r * 0x100 + g, 256, t * 0x100 + r, g);
    QuotientIs(t * 0x100 + r, 256, t, r);
    QuotientIs(c, 65536, t * 0x100 + r, g * 0x100 + b);
  }

  /** The burst is the change scaled by the disturbance, cut down to a whole number, and brought into 1 to 255. */
  lemma BurstIsScaled(o: nat, n: nat, disturbance: real)
    ensures var b, exact := Burst(o, n, disturbance), Delta(o, n) as real * disturbance;
      && (b <= 254 ==> exact < b as real + 1.0) && (2 <= b ==> b as real <= exact)
  {}

  function Stirred(o: nat, n: nat, disturbance: real): nat {
    if o == n then 0 else Burst(o, n, disturbance)
  }

  // ---- row after row --------------------------------------------------------------------------------------------

  lemma RowsApart(a: nat, b: nat, w: nat)
    ensures a < b ==> a * w + w <= b * w
  {
    if a < b {
      var d: nat := b - a - 1;
      assert b == a + d + 1;
      assert (a + d + 1) * w == a * w + d * w + w;
    }
  }

  lemma RowAfter(y: nat, w: nat)
    ensures (y + 1) * w == y * w + w
  {}

  lemma RowAndColumn(w: nat, x: nat, y: nat)
    requires x < w
    ensures (y * w + x) / w == y && (y * w + x) % w == x
  {
    var k := y * w + x;
    assert k == (k / w) * w + k % w;
    RowsApart(k / w, y, w);
    RowsApart(y, k / w, w);
  }

  lemma RowFits(w: nat, h: nat, x: nat, y: nat)
    requires x < w && y < h
    ensures y * w + x < h * w
  {
    RowsApart(y, h, w);
  }

  lemma IndexSplits(w: nat, h: nat, i: nat)
    requires 0 < w && i < h * w
    ensures i / w < h && i % w < w && i == (i / w) * w + i % w
  {}

  lemma DivideMonotone(a: nat, b: nat, s: nat)
    requires 0 < s && a <= b
    ensures a / s <= b / s
  {
    assert a == (a / s) * s + a % s && b == (b / s) * s + b % s;
    RowsApart(b / s, a / s, s);
  }

  predicate InRect(width: nat, r: Rect, k: nat)
    requires 0 < width
  {
    r.x <= k % width < r.x + r.w && r.y <= k / width < r.y + r.h
  }

  /** Where position `k` of the screen falls among the rectangle's own pixels. */
  function PixelAt(width: nat, r: Rect, k: nat): nat
    requires 0 < width && InRect(width, r, k)
  {
    (k / width - r.y) * r.w + (k % width - r.x)
  }

  predicate InBounds(width: nat, height: nat, r: Rect) {
    r.x + r.w <= width && r.y + r.h <= height
  }

  /** A rectangle with pixels is in bounds exactly when the last of them is on the screen. */
  lemma InBoundsIff(width: nat, height: nat, r: Rect)
    ensures 0 < r.w && 0 < r.h ==>
              (InBounds(width, height, r) <==> r.x + r.w - 1 < width && r.y + r.h - 1 < height)
  {}

  /** The screen `s` with the rectangle's pixels in place. */
  function Paste(width: nat, height: nat, s: seq<nat>, r: Rect, px: seq<nat>): (t: seq<nat>)
    requires |s| == height * width && |px| == r.h * r.w
    ensures |t| == |s|
  {
    seq(|s|, k requires 0 <= k < |s| =>
      PasteOver(width, height, s, r, px, k))
  }

  function PasteOver(width: nat, height: nat, s: seq<nat>, r: Rect, px: seq<nat>, k: nat): nat
    requires |s| == height * width && |px| == r.h * r.w && k < |s|
  {
    WidthIsPositive(width, height, k);
    if InRect(width, r, k) then
      PixelAtFits(width, r, k);
      px[PixelAt(width, r, k)]
    else s[k]
  }

  lemma WidthIsPositive(width: nat, height: nat, k: nat)
    requires k < height * width
    ensures 0 < width
  {}

  lemma PixelAtFits(width: nat, r: Rect, k: nat)
    requires 0 < width && InRect(width, r, k)
    ensures PixelAt(width, r, k) < r.h * r.w
  {
    RowFits(r.w, r.h, k % width - r.x, k / width - r.y);
  }

  // ---- one rectangle --------------------------------------------------------------------------------------------

  /** One rectangle of damage over the shadow as it was, sampled every `stride` pixels. */
  datatype Patch = Patch(width: nat, height: nat, stride: nat, disturbance: real, was: seq<nat>, rect: Rect,
                         pixels: seq<nat>)
  {
    ghost predicate Valid() {
      && 0 < stride && 0 < rect.w && 0 < rect.h && InBounds(width, height, rect)
      && |was| == height * width && |pixels| == rect.h * rect.w
    }

    /** The screen position of the rectangle's pixel `i`. */
    function Pos(i: nat): (k: nat)
      requires Valid() && i < |pixels|
      ensures k < |was| && 0 < width
    {
      IndexSplits(rect.w, rect.h, i);
      RowFits(width, height, rect.x + i % rect.w, rect.y + i / rect.w);
      (rect.y + i / rect.w) * width + (rect.x + i % rect.w)
    }

    function CellsWide(): nat
      requires 0 < stride && 0 < rect.w
    {
      DivideMonotone(rect.x, rect.x + rect.w - 1, stride);
      (rect.x + rect.w - 1) / stride - rect.x / stride + 1
    }

    function CellsHigh(): nat
      requires 0 < stride && 0 < rect.h
    {
      DivideMonotone(rect.y, rect.y + rect.h - 1, stride);
      (rect.y + rect.h - 1) / stride - rect.y / stride + 1
    }

    function CellX(i: nat): nat
      requires 0 < stride && 0 < rect.w
    {
      DivideMonotone(rect.x, rect.x + i % rect.w, stride);
      (rect.x + i % rect.w) / stride - rect.x / stride
    }

    function CellY(i: nat): nat
      requires 0 < stride && 0 < rect.w
    {
      DivideMonotone(rect.y, rect.y + i / rect.w, stride);
      (rect.y + i / rect.w) / stride - rect.y / stride
    }

    /** The grid cell the rectangle's pixel `i` pools into. */
    function CellOf(i: nat): nat
      requires 0 < stride && 0 < rect.w
    {
      CellY(i) * CellsWide() + CellX(i)
    }

    function Stir(i: nat): nat
      requires Valid() && i < |pixels|
    {
      Stirred(was[Pos(i)], pixels[i], disturbance)
    }

    /** Cell `c` once the first `n` pixels of the rectangle have been seen. */
    function Pooled(c: nat, n: nat): nat
      requires Valid() && n <= |pixels|
    {
      if n == 0 then 0
      else if CellOf(n - 1) == c then Max(Pooled(c, n - 1), Stir(n - 1))
      else Pooled(c, n - 1)
    }

    function Cells(): seq<nat>
      requires Valid()
    {
      seq(CellsHigh() * CellsWide(), c requires 0 <= c => Pooled(c, |pixels|))
    }

    function Block(): Inject
      requires Valid()
    {
      Inject(rect.x / stride, rect.y / stride, CellsWide(), CellsHigh(), Cells())
    }

    ghost predicate Changed(i: nat)
      requires Valid() && i < |pixels|
    {
      was[Pos(i)] != pixels[i]
    }

    /** The shadow and the grid once the first `n` pixels are done. */
    ghost predicate PartWay(shadow: seq<nat>, inject: seq<nat>, n: nat)
      requires Valid() && n <= |pixels|
    {
      && |shadow| == |was| && |inject| == CellsHigh() * CellsWide()
      && (forall i :: 0 <= i < |pixels| ==> shadow[Pos(i)] == if i < n then pixels[i] else was[Pos(i)])
      && (forall k :: 0 <= k < |was| && !InRect(width, rect, k) ==> shadow[k] == was[k])
      && (forall c :: 0 <= c < |inject| ==> inject[c] == Pooled(c, n))
    }
  }

  lemma PosSplits(p: Patch, i: nat)
    requires p.Valid() && i < |p.pixels|
    ensures p.Pos(i) / p.width == p.rect.y + i / p.rect.w && p.Pos(i) % p.width == p.rect.x + i % p.rect.w
  {
    IndexSplits(p.rect.w, p.rect.h, i);
    RowAndColumn(p.width, p.rect.x + i % p.rect.w, p.rect.y + i / p.rect.w);
  }

  lemma PosInRect(p: Patch, i: nat)
    requires p.Valid() && i < |p.pixels|
    ensures InRect(p.width, p.rect, p.Pos(i)) && PixelAt(p.width, p.rect, p.Pos(i)) == i
  {
    hide Patch.Pos;
    PosSplits(p, i);
    IndexSplits(p.rect.w, p.rect.h, i);
    var k := p.Pos(i);
    assert k / p.width - p.rect.y == i / p.rect.w;
  }

  /** The rectangle's pixels go to distinct positions of the screen, all inside it. */
  lemma PosIsInjective(p: Patch, i: nat, j: nat)
    requires p.Valid() && i < |p.pixels| && j < |p.pixels|
    ensures p.Pos(i) == p.Pos(j) ==> i == j
    ensures InRect(p.width, p.rect, p.Pos(i)) && PixelAt(p.width, p.rect, p.Pos(i)) == i
  {
    hide Patch.Pos, InRect, PixelAt;
    PosInRect(p, i);
    PosInRect(p, j);
  }

  lemma PosOfPixelAt(p: Patch, k: nat)
    requires p.Valid() && 0 < p.width && InRect(p.width, p.rect, k)
    ensures PixelAt(p.width, p.rect, k) < |p.pixels| && p.Pos(PixelAt(p.width, p.rect, k)) == k
  {
    PixelAtFits(p.width, p.rect, k);
    RowAndColumn(p.rect.w, k % p.width - p.rect.x, k / p.width - p.rect.y);
  }

  /** Every pixel pools into a cell of the block that is sent, for any stride. */
  lemma CellFits(p: Patch, i: nat)
    requires p.Valid() && i < |p.pixels|
    ensures p.CellX(i) < p.CellsWide() && p.CellY(i) < p.CellsHigh()
    ensures p.CellOf(i) < p.CellsHigh() * p.CellsWide()
  {
    IndexSplits(p.rect.w, p.rect.h, i);
    DivideMonotone(p.rect.x + i % p.rect.w, p.rect.x + p.rect.w - 1, p.stride);
    DivideMonotone(p.rect.y + i / p.rect.w, p.rect.y + p.rect.h - 1, p.stride);
    RowFits(p.CellsWide(), p.CellsHigh(), p.CellX(i), p.CellY(i));
  }

  /** A cell stands for a square of the screen: a pixel pools into it exactly when its position lies in that square. */
  lemma CellIsASquare(p: Patch, i: nat, cx: nat, cy: nat)
    requires p.Valid() && i < |p.pixels| && cx < p.CellsWide() && cy < p.CellsHigh()
    ensures p.CellOf(i) == cy * p.CellsWide() + cx <==>
      p.Pos(i) % p.width / p.stride == p.rect.x / p.stride + cx
      && p.Pos(i) / p.width / p.stride == p.rect.y / p.stride + cy
  {
    PosSplits(p, i);
    CellFits(p, i);
    RowAndColumn(p.CellsWide(), p.CellX(i), p.CellY(i));
    RowAndColumn(p.CellsWide(), cx, cy);
  }

  /** Some of so many steps from `a` on falls in the `c`-th square of the grid after that of `a`. */
  lemma SquareIsHit(a: nat, n: nat, s: nat, c: nat) returns (x: nat)
    requires 0 < s && 0 < n && c <= (a + n - 1) / s - a / s
    ensures a <= x < a + n && x / s == a / s + c
  {
    if c == 0 {
      x := a;
    } else {
      var q := a / s + c;
      x := q * s;
      Regroup(1, q, s);
      QuotientIs(x, s, q, 0);
      StepsFit(q, s, a + n - 1);
      StepsFit(q, s, a);
    }
  }

  /** The block that is sent has no cell to spare: some pixel pools into every one. */
  lemma EveryCellIsUsed(p: Patch, cx: nat, cy: nat) returns (i: nat)
    requires p.Valid() && cx < p.CellsWide() && cy < p.CellsHigh()
    ensures i < |p.pixels| && p.CellOf(i) == cy * p.CellsWide() + cx
  {
    var x := SquareIsHit(p.rect.x, p.rect.w, p.stride, cx);
    var y := SquareIsHit(p.rect.y, p.rect.h, p.stride, cy);
    i := IndexOf(p, x, y);
    assert p.CellX(i) == cx && p.CellY(i) == cy;
  }

  lemma IndexOf(p: Patch, x: nat, y: nat) returns (i: nat)
    requires p.Valid() && p.rect.x <= x < p.rect.x + p.rect.w && p.rect.y <= y < p.rect.y + p.rect.h
    ensures i < |p.pixels| && p.rect.x + i % p.rect.w == x && p.rect.y + i / p.rect.w == y
  {
    i := Index(p.rect.w, p.rect.h, x - p.rect.x, y - p.rect.y);
  }

  lemma Index(w: nat, h: nat, x: nat, y: nat) returns (i: nat)
    requires x < w && y < h
    ensures i < h * w && i % w == x && i / w == y
  {
    i := y * w + x;
    RowFits(w, h, x, y);
    RowAndColumn(w, x, y);
  }

  /** A cell is zero exactly when no pixel of it changed; otherwise it is the largest burst of those that did. */
  lemma {:induction false} PooledIsTheMaximum(p: Patch, c: nat, n: nat)
    requires p.Valid() && n <= |p.pixels|
    ensures forall i :: 0 <= i < n && p.CellOf(i) == c ==> p.Stir(i) <= p.Pooled(c, n)
    ensures p.Pooled(c, n) != 0 ==>
            exists i :: 0 <= i < n && p.CellOf(i) == c && p.Changed(i) && p.Pooled(c, n) == p.Stir(i)
    ensures p.Pooled(c, n) == 0 <==> forall i :: 0 <= i < n && p.CellOf(i) == c ==> !p.Changed(i)
    ensures p.Pooled(c, n) <= 255
  {
    if n > 0 {
      PooledIsTheMaximum(p, c, n - 1);
    }
  }

  // ---- pixel by pixel -------------------------------------------------------------------------------------------

  lemma PartWayStart(p: Patch, inject: seq<nat>)
    requires p.Valid() && |inject| == p.CellsHigh() * p.CellsWide() && forall c :: 0 <= c < |inject| ==> inject[c] == 0
    ensures p.PartWay(p.was, inject, 0)
  {}

  lemma PartWayStep(p: Patch, shadow: seq<nat>, inject: seq<nat>, n: nat)
    requires p.Valid() && n < |p.pixels| && p.PartWay(shadow, inject, n)
    ensures p.CellOf(n) < |inject| && shadow[p.Pos(n)] == p.was[p.Pos(n)]
    ensures p.PartWay(shadow[p.Pos(n) := p.pixels[n]],
                      inject[p.CellOf(n) := Max(inject[p.CellOf(n)], p.Stir(n))], n + 1)
  {
    hide Stirred, InRect, PixelAt, Patch.Pos, Patch.CellOf;
    CellFits(p, n);
    PosIsInjective(p, n, n);
    var shadow', inject' :=
      shadow[p.Pos(n) := p.pixels[n]], inject[p.CellOf(n) := Max(inject[p.CellOf(n)], p.Stir(n))];
    forall i | 0 <= i < |p.pixels|
      ensures shadow'[p.Pos(i)] == if i < n + 1 then p.pixels[i] else p.was[p.Pos(i)]
    {
      PosIsInjective(p, i, n);
    }
    forall c | 0 <= c < |inject'|
      ensures inject'[c] == p.Pooled(c, n + 1)
    {
      assert inject[c] == p.Pooled(c, n);
    }
  }

  lemma PartWayEnd(p: Patch, shadow: seq<nat>, inject: seq<nat>)
    requires p.Valid() && p.PartWay(shadow, inject, |p.pixels|)
    ensures shadow == Paste(p.width, p.height, p.was, p.rect, p.pixels)
    ensures inject == p.Cells()
  {
    hide Patch.Pos, InRect, PixelAt, Patch.Pooled;
    var whole := Paste(p.width, p.height, p.was, p.rect, p.pixels);
    forall k | 0 <= k < |shadow|
      ensures shadow[k] == whole[k]
    {
      WidthIsPositive(p.width, p.height, k);
      if InRect(p.width, p.rect, k) {
        PosOfPixelAt(p, k);
      }
    }
  }

  lemma PartWaySizes(p: Patch, shadow: seq<nat>, inject: seq<nat>, n: nat)
    requires p.Valid() && n <= |p.pixels| && p.PartWay(shadow, inject, n)
    ensures |shadow| == |p.was| && |inject| == p.CellsHigh() * p.CellsWide()
  {}

  /** The paste changes the screen exactly when one of the pixels is new. */
  lemma ChangedIsDifferent(p: Patch)
    requires p.Valid()
    ensures Paste(p.width, p.height, p.was, p.rect, p.pixels) != p.was <==>
      exists i :: 0 <= i < |p.pixels| && p.Changed(i)
  {
    hide Patch.Pos, InRect, PixelAt;
    var whole := Paste(p.width, p.height, p.was, p.rect, p.pixels);
    forall i | 0 <= i < |p.pixels|
      ensures p.Changed(i) <==> whole[p.Pos(i)] != p.was[p.Pos(i)]
    {
      PosIsInjective(p, i, i);
    }
    forall k | 0 <= k < |p.was| && whole[k] != p.was[k]
      ensures exists i :: 0 <= i < |p.pixels| && p.Changed(i)
    {
      WidthIsPositive(p.width, p.height, k);
      assert InRect(p.width, p.rect, k);
      PosOfPixelAt(p, k);
      assert p.Changed(PixelAt(p.width, p.rect, k));
    }
  }

  lemma ChangeStirs(p: Patch, i: nat)
    requires p.Valid() && i < |p.pixels| && p.Changed(i)
    ensures p.CellOf(i) < |p.Cells()| && p.Cells()[p.CellOf(i)] != 0
  {
    hide Patch.CellOf, Patch.Changed, Patch.Stir, Patch.Pooled;
    CellFits(p, i);
    PooledIsTheMaximum(p, p.CellOf(i), |p.pixels|);
  }

  lemma StirringIsAChange(p: Patch, c: nat)
    requires p.Valid() && c < |p.Cells()| && p.Cells()[c] != 0
    ensures exists i :: 0 <= i < |p.pixels| && p.Changed(i)
  {
    hide Patch.CellOf, Patch.Changed, Patch.Stir, Patch.Pooled;
    PooledIsTheMaximum(p, c, |p.pixels|);
  }

  /** A block is sent exactly when some cell of it is not zero. */
  lemma SentIffStirred(p: Patch)
    requires p.Valid()
    ensures Paste(p.width, p.height, p.was, p.rect, p.pixels) != p.was <==>
      exists c :: 0 <= c < |p.Cells()| && p.Cells()[c] != 0
  {
    hide *;
    ChangedIsDifferent(p);
    forall i | 0 <= i < |p.pixels| && p.Changed(i)
      ensures exists c :: 0 <= c < |p.Cells()| && p.Cells()[c] != 0
    {
      ChangeStirs(p, i);
    }
    forall c | 0 <= c < |p.Cells()| && p.Cells()[c] != 0
      ensures exists i :: 0 <= i < |p.pixels| && p.Changed(i)
    {
      StirringIsAChange(p, c);
    }
  }

  // ---- a whole damage -------------------------------------------------------------------------------------------

  /** The shadow, the framebuffer texture, the blocks of the grid sent so far, and how many rectangles got through. */
  datatype Screen = Screen(shadow: seq<nat>, frame: seq<nat>, sent: seq<Inject>, rects: nat)

  ghost predicate NonEmpty(rects: seq<Rect>) {
    forall j :: 0 <= j < |rects| ==> 0 < rects[j].w && 0 < rects[j].h
  }

  function Count(r: Rect): nat {
    r.h * r.w
  }

  /** Where rectangle `j`'s pixels begin. */
  function Base(rects: seq<Rect>, j: nat): nat
    requires j <= |rects|
  {
    if j == 0 then 0 else Count(rects[0]) + Base(rects[1..], j - 1)
  }

  /** What the rectangles do in turn: the first that does not fit its pixels or the screen stops the rest, and so does
    * one the GPU has no room for, though that one is in the shadow by then. `taken` is the GPU's answer to each. */
  ghost function Uploaded(width: nat, height: nat, stride: nat, disturbance: real, sc: Screen, rects: seq<Rect>,
                          pixels: seq<nat>,
                    taken: seq<bool>): (t: Screen)
    requires 0 < stride && NonEmpty(rects) && |taken| == |rects| && |sc.shadow| == |sc.frame| == height * width
    ensures |t.shadow| == |t.frame| == height * width && sc.rects <= t.rects <= sc.rects + |rects|
    decreases |rects|
  {
    if rects == [] || |pixels| < Count(rects[0]) || !InBounds(width, height, rects[0]) then sc
    else
      var r, n := rects[0], Count(rects[0]);
      var p := Patch(width, height, stride, disturbance, sc.shadow, r, pixels[..n]);
      var shadow := Paste(width, height, sc.shadow, r, pixels[..n]);
      if !taken[0] then sc.(shadow := shadow)
      else
        var block := p.Block();
        var next := Screen(shadow, Paste(width, height, sc.frame, r, pixels[..n]),
                           if shadow != sc.shadow then sc.sent + [block] else sc.sent, sc.rects + 1);
        Uploaded(width, height, stride, disturbance, next, rects[1..], pixels[n..], taken[1..])
  }

  /** How many of the rectangles reach the shadow. */
  function Reached(width: nat, height: nat, rects: seq<Rect>, pixels: seq<nat>, taken: seq<bool>): (m: nat)
    requires |taken| == |rects|
    ensures m <= |rects|
    decreases |rects|
  {
    if rects == [] || |pixels| < Count(rects[0]) || !InBounds(width, height, rects[0]) then 0
    else if !taken[0] then 1
    else 1 + Reached(width, height, rects[1..], pixels[Count(rects[0])..], taken[1..])
  }

  /** The rectangles reached are on the screen and have their pixels; the next one is not or has not, unless the GPU
    * refused the last. */
  lemma {:induction false} ReachedFits(width: nat, height: nat, rects: seq<Rect>, pixels: seq<nat>, taken: seq<bool>)
    requires |taken| == |rects|
    ensures var m := Reached(width, height, rects, pixels, taken);
      && Base(rects, m) <= |pixels|
      && (forall j :: 0 <= j < m ==> InBounds(width, height, rects[j]) && (j + 1 < m ==> taken[j]))
      && (m == |rects| || (m > 0 && !taken[m - 1]) || |pixels| < Base(rects, m) + Count(rects[m])
          || !InBounds(width, height, rects[m]))
    decreases |rects|
  {
    hide InBounds, Count;
    if rects != [] && Count(rects[0]) <= |pixels| && InBounds(width, height, rects[0]) && taken[0] {
      ReachedFits(width, height, rects[1..], pixels[Count(rects[0])..], taken[1..]);
    }
  }

  /** The screen `s` overwritten by the first `m` rectangles in turn. */
  function PasteAll(width: nat, height: nat, s: seq<nat>, rects: seq<Rect>, pixels: seq<nat>, m: nat): (t: seq<nat>)
    requires |s| == height * width && m <= |rects|
    ensures |t| == |s|
    decreases m
  {
    if m == 0 || |pixels| < Count(rects[0]) then s
    else
      var n := Count(rects[0]);
      PasteAll(width, height, Paste(width, height, s, rects[0], pixels[..n]), rects[1..], pixels[n..], m - 1)
  }

  ghost predicate NoneOver(width: nat, rects: seq<Rect>, from: nat, to: nat, k: nat)
    requires 0 < width && to <= |rects|
  {
    forall l :: from <= l < to ==> !InRect(width, rects[l], k)
  }

  /** Where no rectangle lies, nothing changes. */
  lemma {:induction false} Untouched(width: nat, height: nat, s: seq<nat>, rects: seq<Rect>, pixels: seq<nat>, m: nat,
                                     k: nat)
    requires |s| == height * width && m <= |rects| && 0 < width && k < |s| && NoneOver(width, rects, 0, m, k)
    ensures PasteAll(width, height, s, rects, pixels, m)[k] == s[k]
    decreases m
  {
    hide InRect, PixelAt;
    if m > 0 && Count(rects[0]) <= |pixels| {
      var n := Count(rects[0]);
      assert !InRect(width, rects[0], k);
      forall l | 0 <= l < m - 1
        ensures !InRect(width, rects[1..][l], k)
      {
        assert rects[1..][l] == rects[l + 1];
      }
      Untouched(width, height, Paste(width, height, s, rects[0], pixels[..n]), rects[1..], pixels[n..], m - 1, k);
    }
  }

  /** Where several rectangles overlap, the last of them has its pixel there. */
  lemma {:induction false} LastRectangleWins(width: nat, height: nat, s: seq<nat>, rects: seq<Rect>, pixels: seq<nat>,
                                             m: nat, j: nat, k: nat)
    requires |s| == height * width && j < m <= |rects| && 0 < width && k < |s|
    requires InRect(width, rects[j], k) && NoneOver(width, rects, j + 1, m, k) && Base(rects, m) <= |pixels|
    ensures Base(rects, j) + PixelAt(width, rects[j], k) < |pixels|
    ensures PasteAll(width, height, s, rects, pixels, m)[k] == pixels[Base(rects, j) + PixelAt(width, rects[j], k)]
    decreases m
  {
    hide InRect, PixelAt;
    var n := Count(rects[0]);
    var next := Paste(width, height, s, rects[0], pixels[..n]);
    forall l | j <= l < m - 1
      ensures !InRect(width, rects[1..][l], k)
    {
      assert rects[1..][l] == rects[l + 1];
    }
    if j == 0 {
      PixelAtFits(width, rects[0], k);
      Untouched(width, height, next, rects[1..], pixels[n..], m - 1, k);
    } else {
      assert rects[1..][j - 1] == rects[j];
      LastRectangleWins(width, height, next, rects[1..], pixels[n..], m - 1, j - 1, k);
    }
  }

  /** The shadow takes every rectangle reached, the texture every rectangle the GPU took: the same ones, or all but the
    * last. */
  lemma {:induction false} UploadPastes(width: nat, height: nat, stride: nat, disturbance: real, sc: Screen,
                                        rects: seq<Rect>, pixels: seq<nat>, taken: seq<bool>)
    requires 0 < stride && NonEmpty(rects) && |taken| == |rects| && |sc.shadow| == |sc.frame| == height * width
    ensures var m := Reached(width, height, rects, pixels, taken);
      var t := Uploaded(width, height, stride, disturbance, sc, rects, pixels, taken);
      var got := t.rects - sc.rects;
      && t.shadow == PasteAll(width, height, sc.shadow, rects, pixels, m)
      && got == (if m > 0 && !taken[m - 1] then m - 1 else m)
      && t.frame == PasteAll(width, height, sc.frame, rects, pixels, got)
    decreases |rects|
  {
    hide Paste, PasteOver, InBounds;
    if rects == [] || |pixels| < Count(rects[0]) || !InBounds(width, height, rects[0]) {
    } else if taken[0] {
      var r, n := rects[0], Count(rects[0]);
      var p := Patch(width, height, stride, disturbance, sc.shadow, r, pixels[..n]);
      var shadow := Paste(width, height, sc.shadow, r, pixels[..n]);
      var block := p.Block();
      var next := Screen(shadow, Paste(width, height, sc.frame, r, pixels[..n]),
                         if shadow != sc.shadow then sc.sent + [block] else sc.sent, sc.rects + 1);
      UploadPastes(width, height, stride, disturbance, next, rects[1..], pixels[n..], taken[1..]);
    }
  }

  /** If the texture held what the shadow holds, it still does, unless the GPU refused a rectangle; then they differ at
    * most inside that one. */
  lemma FrameFollowsShadow(width: nat, height: nat, stride: nat, disturbance: real, sc: Screen, rects: seq<Rect>,
                           pixels: seq<nat>, taken: seq<bool>)
    requires 0 < width && 0 < stride && NonEmpty(rects) && |taken| == |rects| && |sc.shadow| == height * width
    requires sc.frame == sc.shadow
    ensures var m := Reached(width, height, rects, pixels, taken);
      var t := Uploaded(width, height, stride, disturbance, sc, rects, pixels, taken);
      && (m == 0 || taken[m - 1] ==> t.frame == t.shadow)
      && (m > 0 && !taken[m - 1] ==>
            forall k :: 0 <= k < height * width && !InRect(width, rects[m - 1], k) ==> t.frame[k] == t.shadow[k])
  {
    hide Uploaded, Reached, PasteAll, InRect;
    var m := Reached(width, height, rects, pixels, taken);
    UploadPastes(width, height, stride, disturbance, sc, rects, pixels, taken);
    if m > 0 && !taken[m - 1] {
      forall k | 0 <= k < height * width && !InRect(width, rects[m - 1], k)
        ensures PasteAll(width, height, sc.shadow, rects, pixels, m)[k] ==
                PasteAll(width, height, sc.shadow, rects, pixels, m - 1)[k]
      {
        LastOneElsewhere(width, height, sc.shadow, rects, pixels, m, k);
      }
    }
  }

  lemma {:induction false} LastOneElsewhere(width: nat, height: nat, s: seq<nat>, rects: seq<Rect>, pixels: seq<nat>,
                                            m: nat, k: nat)
    requires |s| == height * width && 0 < m <= |rects| && 0 < width && k < |s| && !InRect(width, rects[m - 1], k)
    ensures PasteAll(width, height, s, rects, pixels, m)[k] == PasteAll(width, height, s, rects, pixels, m - 1)[k]
    decreases m
  {
    hide InRect, PixelAt;
    if Count(rects[0]) <= |pixels| {
      var n := Count(rects[0]);
      var next := Paste(width, height, s, rects[0], pixels[..n]);
      if m > 1 {
        LastOneElsewhere(width, height, next, rects[1..], pixels[n..], m - 1, k);
      }
    }
  }

  /** A damage gets through whole exactly when its rectangles lie on the screen, it has their pixels and the GPU takes
    * them. */
  lemma {:induction false} WholeDamageIff(width: nat, height: nat, rects: seq<Rect>, pixels: seq<nat>, taken: seq<bool>)
    requires |taken| == |rects|
    ensures var m := Reached(width, height, rects, pixels, taken);
      m == |rects| && (m > 0 ==> taken[m - 1]) <==>
        (forall j :: 0 <= j < |rects| ==> InBounds(width, height, rects[j]) && taken[j])
        && Base(rects, |rects|) <= |pixels|
    decreases |rects|
  {
    hide InBounds, Count;
    if rects != [] && Count(rects[0]) <= |pixels| && InBounds(width, height, rects[0]) && taken[0] {
      WholeDamageIff(width, height, rects[1..], pixels[Count(rects[0])..], taken[1..]);
      forall j | 0 < j < |rects|
        ensures rects[j] == rects[1..][j - 1] && taken[j] == taken[1..][j - 1]
      {}
    }
  }

  // ---- what was there before ------------------------------------------------------------------------------------

  function CopyOver(width: nat, to: seq<nat>, from: seq<nat>, r: Rect): (t: seq<nat>)
    requires |to| == |from| && 0 < width
    ensures |t| == |to|
  {
    seq(|to|, k requires 0 <= k < |to| => if InRect(width, r, k) then from[k] else to[k])
  }

  predicate Keeps(width: nat, height: nat, r: Rect) {
    InBounds(width, height, r) && r.w != 0 && r.h != 0
  }

  lemma KeepsWhatHasPixels(width: nat, height: nat, rects: seq<Rect>, k: nat)
    requires 0 < width
    ensures forall j :: 0 <= j < |rects| && InRect(width, rects[j], k) ==>
              Keeps(width, height, rects[j]) == InBounds(width, height, rects[j])
  {}

  /** The texture that keeps what the damage is about to replace: for every rectangle on the screen, also those after
    * one that stops the upload. */
  function Kept(width: nat, height: nat, prev: seq<nat>, frame: seq<nat>, rects: seq<Rect>): (t: seq<nat>)
    requires |prev| == |frame| && 0 < width
    ensures |t| == |prev|
  {
    if rects == [] then prev
    else
      var before := Kept(width, height, prev, frame, rects[..|rects| - 1]);
      var r := rects[|rects| - 1];
      if Keeps(width, height, r) then CopyOver(width, before, frame, r) else before
  }

  lemma {:induction false} KeptIsTheOldFrame(width: nat, height: nat, prev: seq<nat>, frame: seq<nat>,
                                             rects: seq<Rect>, k: nat)
    requires |prev| == |frame| && 0 < width && k < |frame|
    ensures Kept(width, height, prev, frame, rects)[k] ==
      if exists j :: 0 <= j < |rects| && InBounds(width, height, rects[j]) && InRect(width, rects[j], k) then frame[k]
      else prev[k]
  {
    hide InRect, Keeps, InBounds;
    KeepsWhatHasPixels(width, height, rects, k);
    if rects != [] {
      var m := |rects| - 1;
      KeptIsTheOldFrame(width, height, prev, frame, rects[..m], k);
      assert forall j :: 0 <= j < m ==> rects[..m][j] == rects[j];
    }
  }

  lemma NothingToUpload(width: nat, height: nat, stride: nat, disturbance: real, sc: Screen, rects: seq<Rect>,
                        pixels: seq<nat>, taken: seq<bool>, prev: seq<nat>)
    requires 0 < width && 0 < stride && NonEmpty(rects) && |taken| == |rects|
    requires |sc.shadow| == |sc.frame| == |prev| == height * width
    ensures rects == [] ==> Uploaded(width, height, stride, disturbance, sc, rects, pixels, taken) == sc
    ensures rects == [] ==> Kept(width, height, prev, sc.frame, rects) == prev
  {}

  /** The upload with rectangle `i` next. */
  lemma UploadedStep(width: nat, height: nat, stride: nat, disturbance: real, sc: Screen, rects: seq<Rect>,
                     pixels: seq<nat>, taken: seq<bool>, i: nat, base: nat)
    requires 0 < stride && NonEmpty(rects) && |taken| == |rects| && |sc.shadow| == |sc.frame| == height * width
    requires i < |rects| && base <= |pixels|
    ensures var r, n := rects[i], Count(rects[i]);
      var t := Uploaded(width, height, stride, disturbance, sc, rects[i..], pixels[base..], taken[i..]);
      if base + n > |pixels| || !InBounds(width, height, r) then t == sc
      else
        var p := Patch(width, height, stride, disturbance, sc.shadow, r, pixels[base..base + n]);
        var shadow := Paste(width, height, sc.shadow, r, p.pixels);
        if !taken[i] then t == sc.(shadow := shadow)
        else
          var next := Screen(shadow, Paste(width, height, sc.frame, r, p.pixels),
                             if shadow != sc.shadow then sc.sent + [p.Block()] else sc.sent, sc.rects + 1);
          t == Uploaded(width, height, stride, disturbance, next, rects[i + 1..], pixels[base + n..], taken[i + 1..])
  {
    hide Paste, InBounds, Patch.Block;
    var n := Count(rects[i]);
    assert rects[i..][0] == rects[i] && rects[i..][1..] == rects[i + 1..] && taken[i..][1..] == taken[i + 1..];
    if base + n <= |pixels| {
      assert pixels[base..][..n] == pixels[base..base + n] && pixels[base..][n..] == pixels[base + n..];
    }
  }

  class DesktopParticles {
    const width: nat
    const height: nat
    const stride: nat
    const shadow: array<nat>
    /** The framebuffer texture, and the one that keeps what the last damage replaced. */
    var frame: seq<nat>
    var prev: seq<nat>

    ghost predicate Valid()
      reads this
    {
      0 < stride && shadow.Length == |frame| == |prev| == height * width
    }

    /** The loop along one row of the rectangle. */
    method PoolRow(ghost p: Patch, yy: nat, r: Rect, px: seq<nat>, inject: array<nat>, disturbance: real)
      returns (any: bool)
      requires Valid() && p.Valid() && p == Patch(width, height, stride, disturbance, p.was, r, px)
      requires yy < r.h && inject != shadow && yy * r.w + r.w <= |px|
      requires p.PartWay(shadow[..], inject[..], yy * r.w)
      modifies shadow, inject
      ensures p.PartWay(shadow[..], inject[..], yy * r.w + r.w)
      ensures any <==> exists i :: yy * r.w <= i < yy * r.w + r.w && p.Changed(i)
    {
      hide Patch.Pooled, Patch.PartWay, Burst;
      var sw := (r.x + r.w - 1) / stride - r.x / stride + 1;
      any := false;
      for xx := 0 to r.w
        invariant p.PartWay(shadow[..], inject[..], yy * r.w + xx)
        invariant any <==> exists i :: yy * r.w <= i < yy * r.w + xx && p.Changed(i)
      {
        ghost var n := yy * r.w + xx;
        ghost var s, c := shadow[..], inject[..];
        PartWayStep(p, s, c, n);
        RowAndColumn(r.w, xx, yy);
        var at := (r.y + yy) * width + r.x + xx;
        var cell := ((r.y + yy) / stride - r.y / stride) * sw + ((r.x + xx) / stride - r.x / stride);
        assert at == p.Pos(n) && cell == p.CellOf(n);
        PartWaySizes(p, s, c, n);
        var o, m := shadow[at], px[yy * r.w + xx];
        if o != m {
          var burst := Burst(o, m, disturbance);
          if burst > inject[cell] {
            inject[cell] := burst;
          }
          shadow[at] := m;
          any := true;
        }
        assert p.Changed(n) <==> o != m;
        assert shadow[..] == s[at := m];
        assert inject[..] == c[cell := Max(c[cell], p.Stir(n))];
      }
    }

    /** The two pixel loops: shadow and grid are both what the rectangle says, and the answer is whether anything
      * changed. */
    method PoolRect(r: Rect, px: seq<nat>, inject: array<nat>, disturbance: real) returns (any: bool)
      requires Valid() && 0 < r.w && 0 < r.h && InBounds(width, height, r) && |px| == r.h * r.w && inject != shadow
      requires var p := Patch(width, height, stride, disturbance, shadow[..], r, px);
        inject.Length == p.CellsHigh() * p.CellsWide()
      requires forall c :: 0 <= c < inject.Length ==> inject[c] == 0
      modifies shadow, inject
      ensures shadow[..] == Paste(width, height, old(shadow[..]), r, px)
      ensures inject[..] == Patch(width, height, stride, disturbance, old(shadow[..]), r, px).Cells()
      ensures any <==> shadow[..] != old(shadow[..])
    {
      hide Patch.Pooled, Patch.PartWay, Paste, Patch.Changed, Patch.Cells, Patch.CellsHigh, Patch.CellsWide;
      ghost var p := Patch(width, height, stride, disturbance, shadow[..], r, px);
      any := false;
      PartWayStart(p, inject[..]);
      ghost var n := 0;
      for yy := 0 to r.h
        invariant n == yy * r.w <= |px|
        invariant p.PartWay(shadow[..], inject[..], n)
        invariant any <==> exists i :: 0 <= i < n && p.Changed(i)
      {
        RowsApart(yy, r.h, r.w);
        RowAfter(yy, r.w);
        var changed := PoolRow(p, yy, r, px, inject, disturbance);
        any := any || changed;
        n := n + r.w;
      }
      PartWayEnd(p, shadow[..], inject[..]);
      ChangedIsDifferent(p);
    }

    /** The copies out of the framebuffer texture, made before anything overwrites it. */
    method KeepReplaced(rects: seq<Rect>)
      requires Valid() && 0 < width
      modifies this
      ensures Valid() && frame == old(frame)
      ensures prev == Kept(width, height, old(prev), frame, rects)
    {
      for i := 0 to |rects|
        invariant Valid() && frame == old(frame)
        invariant prev == Kept(width, height, old(prev), frame, rects[..i])
      {
        assert rects[..i + 1][..i] == rects[..i];
        if Keeps(width, height, rects[i]) {
          prev := CopyOver(width, prev, frame, rects[i]);
        }
      }
      assert rects[..|rects|] == rects;
    }

    /** One rectangle: it goes into the shadow, and into the texture when the GPU takes it. */
    method UploadOne(r: Rect, px: seq<nat>, disturbance: real, took: bool) returns (any: bool, block: Inject)
      requires Valid() && 0 < r.w && 0 < r.h && InBounds(width, height, r) && |px| == r.h * r.w
      modifies this, shadow
      ensures Valid() && prev == old(prev)
      ensures shadow[..] == Paste(width, height, old(shadow[..]), r, px)
      ensures frame == if took then Paste(width, height, old(frame), r, px) else old(frame)
      ensures any <==> shadow[..] != old(shadow[..])
      ensures block == Patch(width, height, stride, disturbance, old(shadow[..]), r, px).Block()
    {
      hide Paste, Patch.Cells;
      ghost var p := Patch(width, height, stride, disturbance, shadow[..], r, px);
      var sx0, sy0 := r.x / stride, r.y / stride;
      var sx1, sy1 := (r.x + r.w - 1) / stride, (r.y + r.h - 1) / stride;
      assert sx1 - sx0 + 1 == p.CellsWide() && sy1 - sy0 + 1 == p.CellsHigh();
      var sw: nat, sh: nat := sx1 - sx0 + 1, sy1 - sy0 + 1;
      var inject := new nat[sh * sw](_ => 0);
      any := PoolRect(r, px, inject, disturbance);
      block := Inject(sx0, sy0, sw, sh, inject[..]);
      if took {
        frame := Paste(width, height, frame, r, px);
      }
    }

    /** The whole upload. `taken` answers each copy into the framebuffer texture. */
    method Upload(d: Damage, disturbance: real, taken: seq<bool>) returns (sent: seq<Inject>, rects: nat)
      requires Valid() && 0 < width && NonEmpty(d.rects) && |taken| == |d.rects|
      modifies this, shadow
      ensures Valid()
      ensures d.width != width || d.height != height ==>
        shadow[..] == old(shadow[..]) && frame == old(frame) && prev == old(prev) && sent == [] && rects == 0
      ensures d.width == width && d.height == height ==>
        && Screen(shadow[..], frame, sent, rects) ==
             Uploaded(width, height, stride, disturbance, Screen(old(shadow[..]), old(frame), [], 0), d.rects,
                      d.pixels, taken)
        && prev == Kept(width, height, old(prev), old(frame), d.rects)
    {
      hide Uploaded, Paste, Kept, Patch.Block, InBounds;
      sent, rects := [], 0;
      if |d.rects| == 0 || d.width != width || d.height != height {
        NothingToUpload(width, height, stride, disturbance, Screen(shadow[..], frame, [], 0), d.rects, d.pixels, taken,
                        prev);
        return;
      }
      KeepReplaced(d.rects);
      ghost var sc := Screen(shadow[..], frame, [], 0);
      ghost var end := Uploaded(width, height, stride, disturbance, sc, d.rects, d.pixels, taken);
      var base: nat, i: nat := 0, 0;
      var stopped := false;
      while i < |d.rects| && !stopped
        invariant 0 <= i <= |d.rects| && base <= |d.pixels| && Valid()
        invariant prev == Kept(width, height, old(prev), old(frame), d.rects)
        invariant sc == Screen(shadow[..], frame, sent, rects)
        invariant if stopped then end == sc
                  else
                    end == Uploaded(width, height, stride, disturbance, sc, d.rects[i..], d.pixels[base..], taken[i..])
        decreases |d.rects| - i, !stopped
      {
        UploadedStep(width, height, stride, disturbance, sc, d.rects, d.pixels, taken, i, base);
        var r := d.rects[i];
        var count := r.h * r.w;
        if base + count > |d.pixels| || !InBounds(width, height, r) {
          stopped := true;
        } else {
          var px := d.pixels[base..base + count];
          base := base + count;
          var any, block := UploadOne(r, px, disturbance, taken[i]);
          if !taken[i] {
            stopped := true;
          } else {
            if any {
              sent := sent + [block];
            }
            rects := rects + 1;
            i := i + 1;
          }
          sc := Screen(shadow[..], frame, sent, rects);
        }
      }
      if !stopped {
        NothingToUpload(width, height, stride, disturbance, sc, d.rects[i..], d.pixels[base..], taken[i..], prev);
      }
    }
  }
}
