/** The spill-over linear allocator a frame uploads through (src/dx/frame.cpp).
  *
  * `Ring` is the allocator as a value and `Alloc` says outright where a request lands: in place when it fits,
  * otherwise at the start of the first later block that is large enough, otherwise in one new block.
  * The class `UploadRing` runs the walk and the doubling loop of the source and is proved against `Alloc`.
  */
module UploadRings {
  import opened Arithmetic
  import opened Bits
  import opened Wrappers

  datatype Ring = Ring(blockSize: nat, blocks: seq<nat>, block: nat, head: nat) {
    ghost predicate Valid() {
      0 < blockSize && block < |blocks| && head <= blocks[block]
    }

    function Reset(): Ring {
      this.(block := 0, head := 0)
    }
  }

  /** A byte range handed out: `size` bytes from `offset` inside block number `block`. */
  datatype Placement = Placement(block: nat, offset: nat, size: nat)

  datatype Request = Request(size: nat, align: nat)

  function AlignUp(v: nat, a: nat): nat
    requires 0 < a
  {
    (v + a - 1) / a * a
  }

  lemma AlignUpIsLeast(v: nat, a: nat)
    requires 0 < a
    ensures AlignUp(v, a) % a == 0
    ensures v <= AlignUp(v, a) < v + a
  {
    var q := (v + a - 1) / a;
    QuotientIs(q * a, a, q, 0);
  }

  /** The size the doubling loop settles on. */
  function Want(blockSize: nat, need: nat): (w: nat)
    requires 0 < blockSize
    ensures need <= w && blockSize <= w
    ensures w == blockSize || w < 2 * need
    decreases need - blockSize
  {
    if need <= blockSize then blockSize else Want(2 * blockSize, need)
  }

  /** It is the block size doubled as few times as will do. */
  lemma {:induction false} WantIsDoubled(blockSize: nat, need: nat) returns (k: nat)
    requires 0 < blockSize
    ensures Want(blockSize, need) == blockSize * Pow2(k)
    ensures 0 < k ==> blockSize * Pow2(k - 1) < need
    decreases need - blockSize
  {
    if need <= blockSize {
      k := 0;
    } else {
      k := WantIsDoubled(2 * blockSize, need);
      k := k + 1;
      Regroup(blockSize, 2, Pow2(k - 1));
      if 1 < k {
        Regroup(blockSize, 2, Pow2(k - 2));
      }
    }
  }

  /** The first block numbered `from` or later that holds `size` bytes, or the number of blocks. */
  function Seek(blocks: seq<nat>, from: nat, size: nat): (k: nat)
    requires from <= |blocks|
    ensures from <= k <= |blocks|
    ensures forall j :: from <= j < k ==> blocks[j] < size
    ensures k < |blocks| ==> size <= blocks[k]
    decreases |blocks| - from
  {
    if from == |blocks| || size <= blocks[from] then from else Seek(blocks, from + 1, size)
  }

  /** Where a request lands. `canGrow` is whether the driver grants one more buffer; None is the exception the
    * source raises when it does not. */
  function Alloc(r: Ring, q: Request, canGrow: bool): (Ring, Option<Placement>)
    requires r.Valid() && 0 < q.align
  {
    var start := AlignUp(r.head, q.align);
    if start + q.size <= r.blocks[r.block] then
      (r.(head := start + q.size), Some(Placement(r.block, start, q.size)))
    else
      var k := Seek(r.blocks, r.block + 1, q.size);
      if k < |r.blocks| then
        (r.(block := k, head := q.size), Some(Placement(k, 0, q.size)))
      else if canGrow then
        var w := Want(r.blockSize, q.size + q.align);
        (r.(blocks := r.blocks + [w], block := k, head := q.size), Some(Placement(k, 0, q.size)))
      else
        (r.(block := k - 1, head := if r.block == k - 1 then r.head else 0), None)
  }

  /** The placement lies wholly before the cursor of the ring. */
  ghost predicate Before(p: Placement, r: Ring) {
    p.block < r.block || (p.block == r.block && p.offset + p.size <= r.head)
  }

  ghost predicate InBounds(p: Placement, r: Ring) {
    p.block < |r.blocks| && p.offset + p.size <= r.blocks[p.block]
  }

  ghost predicate Overlap(p: Placement, q: Placement) {
    p.block == q.block && p.offset < q.offset + q.size && q.offset < p.offset + p.size
  }

  /** One allocation: the ring stays valid, grows by at most one block, keeps the blocks it had, and the range
    * handed out is aligned, inside its block, and apart from everything the cursor has already passed. */
  lemma AllocSafe(r: Ring, q: Request, canGrow: bool)
    requires r.Valid() && 0 < q.align
    ensures var (r', p) := Alloc(r, q, canGrow);
      && r'.Valid() && r'.blockSize == r.blockSize
      && r.blocks <= r'.blocks && |r'.blocks| <= |r.blocks| + 1
      && (p.None? ==> !canGrow && r'.blocks == r.blocks)
      && (forall g: Placement :: Before(g, r) ==> Before(g, r'))
      && (p.Some? ==>
            && p.value.size == q.size
            && p.value.offset % q.align == 0
            && InBounds(p.value, r')
            && Before(p.value, r')
            && forall g: Placement :: Before(g, r) ==> !Overlap(g, p.value))
  {
    hide AlignUp;
    AlignUpIsLeast(r.head, q.align);
  }

  /** The blocks a refusal leaves behind were all too small, so growth is asked for only when it is needed. */
  lemma GrowsOnlyWhenNothingFits(r: Ring, q: Request, canGrow: bool)
    requires r.Valid() && 0 < q.align
    ensures var (r', p) := Alloc(r, q, canGrow);
      (r'.blocks != r.blocks || p.None?) <==>
        (AlignUp(r.head, q.align) + q.size > r.blocks[r.block]
         && (forall j :: r.block < j < |r.blocks| ==> r.blocks[j] < q.size))
  {
    var k := Seek(r.blocks, r.block + 1, q.size);
    if k == |r.blocks| {
      assert forall w: nat :: |r.blocks + [w]| == |r.blocks| + 1;
    }
  }

  /** A frame's requests in order, on a machine that always grants a buffer. */
  function Serve(r: Ring, qs: seq<Request>): (Ring, seq<Placement>)
    requires r.Valid() && forall q :: q in qs ==> 0 < q.align
    decreases |qs|
  {
    if qs == [] then (r, [])
    else
      AllocSafe(r, qs[0], true);
      var (r1, p) := Alloc(r, qs[0], true);
      var (r2, ps) := Serve(r1, qs[1..]);
      (r2, [p.value] + ps)
  }

  lemma {:induction false} ServeKeepsBlocks(r: Ring, qs: seq<Request>)
    requires r.Valid() && forall q :: q in qs ==> 0 < q.align
    ensures r.blocks <= Serve(r, qs).0.blocks && Serve(r, qs).0.Valid()
    ensures Serve(r, qs).0.blockSize == r.blockSize
    decreases |qs|
  {
    if qs != [] {
      AllocSafe(r, qs[0], true);
      ServeKeepsBlocks(Alloc(r, qs[0], true).0, qs[1..]);
    }
  }

  /** A ring that already owns the blocks a run ends up with serves that run without making one. */
  lemma {:induction false} ServeWithBlocks(r: Ring, s: Ring, qs: seq<Request>)
    requires r.Valid() && forall q :: q in qs ==> 0 < q.align
    requires s == r.(blocks := Serve(r, qs).0.blocks)
    ensures s.Valid()
    ensures Serve(s, qs) == Serve(r, qs)
    decreases |qs|
  {
    ServeKeepsBlocks(r, qs);
    if qs != [] {
      var q := qs[0];
      AllocSafe(r, q, true);
      var (r1, p) := Alloc(r, q, true);
      ServeKeepsBlocks(r1, qs[1..]);
      assert r1.blocks <= s.blocks;
      var (s1, p') := Alloc(s, q, true);
      var k := Seek(r.blocks, r.block + 1, q.size);
      var k' := Seek(s.blocks, r.block + 1, q.size);
      if AlignUp(r.head, q.align) + q.size > r.blocks[r.block] {
        assert r1.blocks[k] == s.blocks[k] && q.size <= r1.blocks[k];
        assert k' == k by {
          assert forall j :: r.block + 1 <= j < k ==> s.blocks[j] == r.blocks[j];
        }
      }
      assert s1 == r1.(blocks := s.blocks) && p' == p;
      ServeWithBlocks(r1, s1, qs[1..]);
    }
  }

  /** The steady state: after Reset the same requests land in the same places and no block is made. */
  lemma ReplayAllocatesNothing(r: Ring, qs: seq<Request>)
    requires r.Valid() && forall q :: q in qs ==> 0 < q.align
    ensures var (r1, ps) := Serve(r.Reset(), qs);
      r1.Reset().Valid() && Serve(r1.Reset(), qs) == (r1, ps)
  {
    ServeKeepsBlocks(r.Reset(), qs);
    ServeWithBlocks(r.Reset(), Serve(r.Reset(), qs).0.Reset(), qs);
  }

  /** All ranges of one run are pairwise apart, each inside its block. */
  lemma {:induction false} ServedApart(r: Ring, qs: seq<Request>)
    requires r.Valid() && forall q :: q in qs ==> 0 < q.align
    ensures var (r', ps) := Serve(r, qs);
      && |ps| == |qs|
      && (forall g: Placement :: Before(g, r) ==> Before(g, r'))
      && (forall i :: 0 <= i < |ps| ==> ps[i].size == qs[i].size && ps[i].offset % qs[i].align == 0
                                        && InBounds(ps[i], r') && Before(ps[i], r'))
      && (forall g: Placement, i :: Before(g, r) && 0 <= i < |ps| ==> !Overlap(g, ps[i]))
      && (forall i, j :: 0 <= i < j < |ps| ==> !Overlap(ps[i], ps[j]))
    decreases |qs|
  {
    if qs != [] {
      AllocSafe(r, qs[0], true);
      var (r1, p) := Alloc(r, qs[0], true);
      ServeKeepsBlocks(r1, qs[1..]);
      ServedApart(r1, qs[1..]);
    }
  }

  /** Part way through the walk for a request: still on the first block, or at the start of a later one with every block
    * passed too small, perhaps on the one block that was added. */
  ghost predicate Searching(r: Ring, q: Request, canGrow: bool, now: Ring, start: nat)
    requires r.Valid() && 0 < q.align
  {
    && now.blockSize == r.blockSize && r.block <= now.block
    && (if now.block == r.block then now == r && start == AlignUp(r.head, q.align)
        else now.head == start == 0 && r.blocks[r.block] < AlignUp(r.head, q.align) + q.size)
    && (if now.blocks == r.blocks then
          && now.block < |r.blocks|
          && (now.block == r.block || Seek(r.blocks, r.block + 1, q.size) == Seek(r.blocks, now.block, q.size))
        else
          && canGrow && now.block == |r.blocks| == Seek(r.blocks, r.block + 1, q.size)
          && now.blocks == r.blocks + [Want(r.blockSize, q.size + q.align)])
  }

  lemma SearchStarts(r: Ring, q: Request, canGrow: bool)
    requires r.Valid() && 0 < q.align
    ensures Searching(r, q, canGrow, r, AlignUp(r.head, q.align))
  {
    hide AlignUp;
  }

  /** The block looked at is too small: it was one of the first, the next is tried or made, and without a driver's leave
    * the request fails there. */
  lemma SearchMoves(r: Ring, q: Request, canGrow: bool, now: Ring, start: nat)
    requires r.Valid() && now.Valid() && 0 < q.align && Searching(r, q, canGrow, now, start)
    requires start + q.size > now.blocks[now.block]
    ensures now.blocks == r.blocks && now.block < |r.blocks|
    ensures now.block + 1 < |now.blocks| ==> Searching(r, q, canGrow, now.(block := now.block + 1, head := 0), 0)
    ensures now.block + 1 >= |now.blocks| && canGrow ==>
      Searching(r, q, canGrow,
                now.(blocks := now.blocks + [Want(now.blockSize, q.size + q.align)], block := now.block + 1,
                      head := 0), 0)
    ensures now.block + 1 >= |now.blocks| && !canGrow ==> Alloc(r, q, canGrow) == (now, None)
  {
    hide AlignUp;
  }

  lemma SearchEnds(r: Ring, q: Request, canGrow: bool, now: Ring, start: nat)
    requires r.Valid() && now.Valid() && 0 < q.align && Searching(r, q, canGrow, now, start)
    requires start + q.size <= now.blocks[now.block]
    ensures Alloc(r, q, canGrow) == (now.(head := start + q.size), Some(Placement(now.block, start, q.size)))
  {
    hide AlignUp;
  }

  class UploadRing {
    var blockSize: nat
    var blocks: seq<nat>
    var block: nat
    var head: nat

    ghost function View(): Ring
      reads this
    {
      Ring(blockSize, blocks, block, head)
    }

    constructor (sizeBytes: nat)
      requires 0 < sizeBytes
      ensures View() == Ring(sizeBytes, [sizeBytes], 0, 0) && View().Valid()
    {
      blockSize, blocks, block, head := sizeBytes, [sizeBytes], 0, 0;
    }

    method Reset()
      requires View().Valid()
      modifies this
      ensures View() == old(View()).Reset() && View().Valid()
    {
      block, head := 0, 0;
    }

    /** The doubling loop of `Allocate`. */
    method SizeFor(need: nat) returns (want: nat)
      requires View().Valid()
      ensures want == Want(blockSize, need)
    {
      want := blockSize;
      while want < need
        invariant blockSize <= want && Want(want, need) == Want(blockSize, need)
        decreases need - want
      {
        want := want * 2;
      }
    }

    method Allocate(sizeBytes: nat, align: nat, canGrow: bool) returns (p: Option<Placement>)
      requires View().Valid() && 0 < align
      modifies this
      ensures (View(), p) == Alloc(old(View()), Request(sizeBytes, align), canGrow)
      ensures View().Valid()
    {
      hide Searching, Alloc, AlignUp, Want;
      ghost var r, q := View(), Request(sizeBytes, align);
      AllocSafe(r, q, canGrow);
      SearchStarts(r, q, canGrow);
      var start: nat := AlignUp(head, align);
      while block >= |blocks| || start + sizeBytes > blocks[block]
        invariant View().Valid() && blockSize == r.blockSize && Searching(r, q, canGrow, View(), start)
        decreases |r.blocks| + 1 - block
      {
        SearchMoves(r, q, canGrow, View(), start);
        if block + 1 >= |blocks| {
          if !canGrow {
            return None;
          }
          var want := SizeFor(sizeBytes + align);
          blocks := blocks + [want];
        }
        block := block + 1;
        head := 0;
        start := 0;
      }
      SearchEnds(r, q, canGrow, View(), start);
      head := start + sizeBytes;
      p := Some(Placement(block, start, sizeBytes));
    }
  }
}
