/** How many particles a remote desktop gets (src/render/desktop.cpp, Configure).
  *
  * Density comes down first; only when density 1 still does not fit is the desktop sampled at every s-th pixel. Sides
  * and strides are 32 bits wide, which decides what a budget of nothing leads to.
  */
module DesktopBudget {
  import opened Arithmetic

  const MAX_PARTICLES: nat := 8 * 1024 * 1024
  const PARTICLE_BYTES: nat := 16

  datatype Layout = Layout(density: nat, stride: nat, sampledW: nat, sampledH: nat, particles: nat, clamped: bool,
                           sampled: bool)

  /** A quarter of the adapter's memory, never more than the maximum; the maximum when the memory is unknown. */
  function Budget(videoMemory: nat): nat {
    if videoMemory == 0 then MAX_PARTICLES
    else if videoMemory / 4 / PARTICLE_BYTES < MAX_PARTICLES then videoMemory / 4 / PARTICLE_BYTES
    else MAX_PARTICLES
  }

  /** The budget is as many particles as fit in a quarter of the memory, if that is no more than the maximum. */
  lemma BudgetIsAQuarter(videoMemory: nat, n: nat)
    requires 0 < videoMemory
    ensures n <= Budget(videoMemory) <==> n <= 8388608 && 4 * (16 * n) <= videoMemory
  {
    QuotientBounds(videoMemory, 4, 16 * n);
    QuotientBounds(videoMemory / 4, 16, n);
  }

  /** The density is brought to the nearest of one to four. */
  lemma ClampIsNearest(density: nat, d: nat)
    requires 1 <= d <= 4
    ensures 1 <= Clamp(density) <= 4
    ensures (if density < Clamp(density) then Clamp(density) - density else density - Clamp(density)) <=
            (if density < d then d - density else density - d)
  {}

  function Clamp(density: nat): nat {
    if density < 1 then 1 else if density > 4 then 4 else density
  }

  /** Pixels left of `n` when every `s`-th is kept. */
  function Sampled(n: nat, s: nat): nat
    requires 0 < s
  {
    (n + s - 1) / s
  }

  function Particles(w: nat, h: nat, stride: nat, density: nat): nat
    requires 0 < stride
  {
    Sampled(w, stride) * Sampled(h, stride) * density
  }

  predicate Fits(w: nat, h: nat, stride: nat, density: nat, budget: nat)
    requires 0 < stride
  {
    Particles(w, h, stride, density) <= budget
  }

  // ---- arithmetic -----------------------------------------------------------------------------------------------

  lemma ProductAtLeastOne(a: nat, b: nat)
    requires 1 <= a && 1 <= b
    ensures 1 <= a * b
  {}

  lemma ProductMonotone(a: nat, b: nat, c: nat, d: nat)
    requires a <= c && b <= d
    ensures a * b <= c * d
  {}

  lemma QuotientBounds(n: nat, s: nat, q: nat)
    requires 0 < s
    ensures q <= n / s <==> q * s <= n
  {
    var d := n / s;
    assert s * d <= n < s * d + s;
    if q <= d {
      assert q * s <= d * s;
    } else {
      assert (d + 1) * s <= q * s;
    }
  }

  /** The number kept is the least `q` whose blocks of `s` pixels cover the side. */
  lemma SampledCovers(n: nat, s: nat, q: nat)
    requires 0 < s && 1 <= n
    ensures Sampled(n, s) <= q <==> n <= q * s
  {
    QuotientBounds(n + s - 1, s, q + 1);
    assert (q + 1) * s == q * s + s;
  }

  /** A larger stride keeps no more pixels, a pixel is always kept, and a stride as large as the side keeps just one. */
  lemma SampledMonotone(n: nat, s: nat, t: nat)
    requires 0 < s <= t && 1 <= n
    ensures 1 <= Sampled(n, t) <= Sampled(n, s) <= n
    ensures n <= s ==> Sampled(n, s) == 1
  {
    hide Sampled;
    var p := Sampled(n, s);
    SampledCovers(n, s, p);
    ProductMonotone(p, s, p, t);
    SampledCovers(n, t, p);
    SampledCovers(n, t, 0);
    SampledCovers(n, s, 0);
    SampledCovers(n, s, n);
    ProductMonotone(n, 1, n, s);
    SampledCovers(n, s, 1);
  }

  /** Fewer particles with a larger stride and a smaller density, and never none. */
  lemma ParticlesMonotone(w: nat, h: nat, s: nat, t: nat, d: nat, e: nat)
    requires 1 <= w && 1 <= h && 0 < s <= t && 1 <= e <= d
    ensures 1 <= Particles(w, h, t, e) <= Particles(w, h, s, d)
  {
    SampledMonotone(w, s, t);
    SampledMonotone(h, s, t);
    ProductAtLeastOne(Sampled(w, t), Sampled(h, t));
    ProductAtLeastOne(Sampled(w, t) * Sampled(h, t), e);
    ProductMonotone(Sampled(w, t), Sampled(h, t), Sampled(w, s), Sampled(h, s));
    ProductMonotone(Sampled(w, t) * Sampled(h, t), e, Sampled(w, s) * Sampled(h, s), d);
  }

  lemma WholeSideFits(w: nat, h: nat, s: nat)
    requires 1 <= w && 1 <= h && Max(w, h) <= s
    ensures Particles(w, h, s, 1) == 1
  {
    SampledMonotone(w, s, s);
    SampledMonotone(h, s, s);
  }

  // ---- 32 bits --------------------------------------------------------------------------------------------------

  const UINT32: nat := 0x1_0000_0000
  const SIDE_LIMIT: nat := 0x8000_0000

  /** The sampled side as the program computes it: the sum wraps. */
  function Sampled32(n: nat, s: nat): nat
    requires 0 < s
  {
    (n + s - 1) % UINT32 / s
  }

  function Particles32(w: nat, h: nat, stride: nat, density: nat): nat
    requires 0 < stride
  {
    Sampled32(w, stride) * Sampled32(h, stride) * density
  }

  /** A sum that wraps leaves less than one stride, so no pixel at all. */
  lemma Sampled32Is(n: nat, s: nat)
    requires 0 < s < UINT32 && 1 <= n < UINT32
    ensures Sampled32(n, s) == if n + s - 1 < UINT32 then Sampled(n, s) else 0
  {
    if UINT32 <= n + s - 1 {
      var rest: nat := n + s - 1 - UINT32;
      assert (n + s - 1) % UINT32 == rest < s;
      QuotientBounds(rest, s, 1);
    }
  }

  /** The first stride at which the longer side wraps; none for a desktop of one pixel. */
  function WrapStride(w: nat, h: nat): nat
    requires Max(w, h) < UINT32
  {
    UINT32 - Max(w, h) + 1
  }

  predicate SideOk(n: nat) {
    1 <= n < SIDE_LIMIT
  }

  lemma BeforeWrap(w: nat, h: nat, s: nat, d: nat)
    requires SideOk(w) && SideOk(h) && 0 < s < UINT32 && s < WrapStride(w, h)
    ensures Sampled32(w, s) == Sampled(w, s) && Sampled32(h, s) == Sampled(h, s)
    ensures Particles32(w, h, s, d) == Particles(w, h, s, d)
  {
    hide Sampled, Sampled32;
    Sampled32Is(w, s);
    Sampled32Is(h, s);
  }

  lemma AtWrap(w: nat, h: nat, d: nat)
    requires SideOk(w) && SideOk(h) && 2 <= Max(w, h)
    ensures WrapStride(w, h) < UINT32
    ensures Sampled32(w, WrapStride(w, h)) == 0 || Sampled32(h, WrapStride(w, h)) == 0
    ensures Particles32(w, h, WrapStride(w, h), d) == 0
  {
    hide Sampled, Sampled32;
    Sampled32Is(w, WrapStride(w, h));
    Sampled32Is(h, WrapStride(w, h));
  }

  /** Some stride stops the loop exactly when the budget is not nothing, or some side has two pixels. A desktop of one
    * pixel with a budget of nothing takes the stride through all of 32 bits to zero, by which the program then
    * divides. */
  lemma SomeStrideStopsIff(w: nat, h: nat, budget: nat)
    requires SideOk(w) && SideOk(h)
    ensures (exists s: nat :: 0 < s < UINT32 && Particles32(w, h, s, 1) <= budget) <==> 1 <= budget || 2 <= Max(w, h)
  {
    hide Particles32;
    if 1 <= budget {
      BeforeWrap(w, h, Max(w, h), 1);
      WholeSideFits(w, h, Max(w, h));
    } else if 2 <= Max(w, h) {
      AtWrap(w, h, 1);
    } else {
      forall s: nat | 0 < s < UINT32
        ensures Particles32(w, h, s, 1) >= 1
      {
        BeforeWrap(w, h, s, 1);
        ParticlesMonotone(w, h, s, s, 1, 1);
      }
    }
  }

  // ---- the loop -------------------------------------------------------------------------------------------------

  /** What the loop settles on: the largest allowed density if the whole desktop fits at any, otherwise density 1 and
    * the smallest stride that fits. */
  ghost predicate Optimal(w: nat, h: nat, density: nat, budget: nat, l: Layout) {
    && 1 <= l.density <= Clamp(density) && 1 <= l.stride <= Max(w, h)
    && Fits(w, h, l.stride, l.density, budget)
    && (l.stride == 1 ==> forall d :: l.density < d <= Clamp(density) ==> !Fits(w, h, 1, d, budget))
    && (l.stride > 1 ==> l.density == 1)
    && (l.stride > 1 ==> forall s: nat, d: nat :: 0 < s < l.stride && 1 <= d ==> !Fits(w, h, s, d, budget))
  }

  /** The last stride the loop can come to. */
  function LastStride(w: nat, h: nat, budget: nat): nat
    requires Max(w, h) < UINT32
  {
    if 1 <= budget then Max(w, h) else WrapStride(w, h)
  }

  /** What is known each time round: every denser whole desktop and every smaller stride has been turned down. */
  ghost predicate Tried(w: nat, h: nat, density: nat, budget: nat, l: Layout)
    requires Max(w, h) < UINT32
  {
    && 1 <= l.density <= Clamp(density) && 1 <= l.stride <= LastStride(w, h, budget)
    && (l.clamped <==> l.density < Clamp(density)) && (l.sampled <==> l.stride > 1)
    && (l.stride > 1 ==> l.density == 1)
    && (forall d :: l.density < d <= Clamp(density) ==> !Fits(w, h, 1, d, budget))
    && (forall s: nat :: 0 < s < l.stride ==> !Fits(w, h, s, 1, budget))
  }

  /** The loop goes on only at a stride before the last, where nothing has wrapped yet. */
  lemma GoesOn(w: nat, h: nat, density: nat, budget: nat, l: Layout)
    requires SideOk(w) && SideOk(h) && (1 <= budget || 2 <= Max(w, h))
    requires Tried(w, h, density, budget, l) && Particles32(w, h, l.stride, l.density) > budget
    ensures !Fits(w, h, l.stride, l.density, budget)
    ensures l.density == 1 ==> l.stride < LastStride(w, h, budget)
  {
    hide Particles, Particles32;
    if 1 <= budget {
      BeforeWrap(w, h, l.stride, l.density);
      WholeSideFits(w, h, Max(w, h));
    } else {
      AtWrap(w, h, l.density);
      BeforeWrap(w, h, if l.stride < WrapStride(w, h) then l.stride else 1, l.density);
    }
  }

  lemma TriedStarts(w: nat, h: nat, density: nat, budget: nat)
    requires SideOk(w) && SideOk(h)
    ensures Tried(w, h, density, budget, Layout(Clamp(density), 1, 0, 0, 0, false, false))
  {}

  /** What was turned down is among what has been tried next time round. */
  lemma TriedMore(w: nat, h: nat, density: nat, budget: nat, l: Layout)
    requires Max(w, h) < UINT32 && Tried(w, h, density, budget, l) && !Fits(w, h, l.stride, l.density, budget)
    requires l.density == 1 ==> l.stride < LastStride(w, h, budget)
    ensures 1 <= l.density && 1 <= l.stride <= LastStride(w, h, budget)
    ensures l.density > 1 ==> Tried(w, h, density, budget, l.(density := l.density - 1, clamped := true))
    ensures l.density == 1 ==> Tried(w, h, density, budget, l.(stride := l.stride + 1, sampled := true))
  {
    hide Fits;
  }

  /** The flags and the bounds of what has been tried. */
  lemma TriedFlags(w: nat, h: nat, density: nat, budget: nat, l: Layout, sw: nat, sh: nat, n: nat)
    requires Max(w, h) < UINT32 && Tried(w, h, density, budget, l)
    ensures Tried(w, h, density, budget, l.(sampledW := sw, sampledH := sh, particles := n))
    ensures 1 <= l.density && 1 <= l.stride <= LastStride(w, h, budget)
    ensures (l.clamped <==> l.density < Clamp(density)) && (l.sampled <==> l.stride > 1)
  {}

  lemma TriedAndFitsIsOptimal(w: nat, h: nat, density: nat, budget: nat, l: Layout)
    requires 1 <= w && 1 <= h && 1 <= budget && Max(w, h) < UINT32
    requires Tried(w, h, density, budget, l) && Fits(w, h, l.stride, l.density, budget)
    ensures Optimal(w, h, density, budget, l)
  {
    hide Particles;
    forall s: nat, d: nat | 0 < s < l.stride && 1 <= d
      ensures !Fits(w, h, s, d, budget)
    {
      assert !Fits(w, h, s, 1, budget);
      ParticlesMonotone(w, h, s, s, d, 1);
    }
  }

  /** With a budget of nothing the loop stops only where a side has wrapped. */
  lemma NothingFitsBeforeWrap(w: nat, h: nat, density: nat, l: Layout)
    requires SideOk(w) && SideOk(h) && 2 <= Max(w, h)
    requires Tried(w, h, density, 0, l) && Particles32(w, h, l.stride, l.density) == 0
    ensures l.stride == WrapStride(w, h) && l.density == 1
  {
    hide Particles, Particles32;
    if l.stride < WrapStride(w, h) {
      BeforeWrap(w, h, l.stride, l.density);
      ParticlesMonotone(w, h, l.stride, l.stride, l.density, l.density);
    }
  }

  lemma StopsInside(w: nat, h: nat, density: nat, budget: nat, l: Layout)
    requires SideOk(w) && SideOk(h) && 1 <= budget
    requires Tried(w, h, density, budget, l) && Particles32(w, h, l.stride, l.density) <= budget
    ensures Optimal(w, h, density, budget, l)
    ensures Sampled32(w, l.stride) == Sampled(w, l.stride) && Sampled32(h, l.stride) == Sampled(h, l.stride)
  {
    hide Sampled, Sampled32, Optimal, Tried;
    assert 1 <= l.stride <= Max(w, h) by { TriedStride(w, h, density, budget, l); }
    BeforeWrap(w, h, l.stride, l.density);
    TriedAndFitsIsOptimal(w, h, density, budget, l);
  }

  lemma TriedStride(w: nat, h: nat, density: nat, budget: nat, l: Layout)
    requires Max(w, h) < UINT32 && Tried(w, h, density, budget, l)
    ensures 1 <= l.stride <= LastStride(w, h, budget)
  {}

  /** With an adapter that reports some memory but less than four particles' worth the budget is nothing. */
  lemma BudgetIsNothingIff(videoMemory: nat)
    ensures Budget(videoMemory) == 0 <==> 0 < videoMemory < 4 * PARTICLE_BYTES
  {}

  /** With a budget the layout is the best one; with none it is empty, at the first stride whose sum wraps. */
  method Configure(w: nat, h: nat, density: nat, videoMemory: nat) returns (l: Layout)
    requires SideOk(w) && SideOk(h) && (1 <= Budget(videoMemory) || 2 <= Max(w, h))
    ensures l.particles <= Budget(videoMemory)
    ensures l.clamped <==> l.density < Clamp(density)
    ensures l.sampled <==> l.stride > 1
    ensures 1 <= Budget(videoMemory) ==>
      && Optimal(w, h, density, Budget(videoMemory), l)
      && l.sampledW == Sampled(w, l.stride) && l.sampledH == Sampled(h, l.stride)
      && l.particles == Particles(w, h, l.stride, l.density)
    ensures Budget(videoMemory) == 0 ==>
      l.density == 1 && l.stride == WrapStride(w, h) && l.particles == 0 && (l.sampledW == 0 || l.sampledH == 0)
  {
    hide Sampled, Sampled32, Optimal, Fits, Tried;
    TriedStarts(w, h, density, Budget(videoMemory));
    var budget := MAX_PARTICLES;
    if videoMemory > 0 && videoMemory / 4 / PARTICLE_BYTES < budget {
      budget := videoMemory / 4 / PARTICLE_BYTES;
    }
    l := Layout(Clamp(density), 1, 0, 0, 0, false, false);
    while true
      invariant 1 <= l.density && 1 <= l.stride && Tried(w, h, density, budget, l)
      decreases l.density + LastStride(w, h, budget) - l.stride
    {
      TriedFlags(w, h, density, budget, l, Sampled32(w, l.stride), Sampled32(h, l.stride), l.particles);
      l := l.(sampledW := Sampled32(w, l.stride), sampledH := Sampled32(h, l.stride));
      var n := l.sampledW * l.sampledH * l.density;
      if n <= budget {
        break;
      }
      GoesOn(w, h, density, budget, l);
      TriedMore(w, h, density, budget, l);
      if l.density > 1 {
        l := l.(density := l.density - 1, clamped := true);
      } else {
        l := l.(stride := l.stride + 1, sampled := true);
      }
    }
    TriedFlags(w, h, density, budget, l, l.sampledW, l.sampledH, l.sampledW * l.sampledH * l.density);
    l := l.(particles := l.sampledW * l.sampledH * l.density);
    if budget == 0 {
      NothingFitsBeforeWrap(w, h, density, l);
      AtWrap(w, h, 1);
    } else {
      StopsInside(w, h, density, budget, l);
    }
  }

  /** There is only one optimal layout, and no layout that fits has a smaller stride, or the same stride of one and a
    * larger allowed density. */
  lemma OptimalIsUnique(w: nat, h: nat, density: nat, budget: nat, k: Layout, l: Layout)
    requires 1 <= w && 1 <= h && Optimal(w, h, density, budget, k) && Optimal(w, h, density, budget, l)
    ensures k.density == l.density && k.stride == l.stride
  {}

  /** A larger budget never gives a coarser picture: the stride does not grow, nor does the density shrink at one. */
  lemma BudgetMonotone(w: nat, h: nat, density: nat, small: nat, large: nat, k: Layout, l: Layout)
    requires 1 <= w && 1 <= h && small <= large
    requires Optimal(w, h, density, small, k) && Optimal(w, h, density, large, l)
    ensures l.stride <= k.stride && (k.stride == 1 ==> k.density <= l.density)
  {
    assert Fits(w, h, k.stride, k.density, large);
  }
}
