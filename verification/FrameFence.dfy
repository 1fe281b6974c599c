/** Three frames in flight behind one monotone GPU fence (src/dx/device.cpp).
  *
  * `Device` is what BeginFrame, EndFrame and WaitIdle touch. `System` adds the history a proof needs: the fence value
  * every submitted frame was given, and every byte range handed out with the number of the frame that asked for it.
  * A run interleaves CPU calls with the GPU completing fence values.
  */
module FrameFence {
  import opened Wrappers
  import opened UploadRings

  const FRAMES_IN_FLIGHT := 3

  /** The slot frame number `k` uses. */
  function Slot(k: nat): (slot: nat)
    ensures slot < FRAMES_IN_FLIGHT
  {
    k % FRAMES_IN_FLIGHT
  }

  datatype Device = Device(rings: seq<Ring>, fences: seq<nat>, frame: nat, fenceLast: nat, completed: nat,
                           recording: bool)
  {
    ghost predicate Valid() {
      && |rings| == |fences| == FRAMES_IN_FLIGHT && frame < FRAMES_IN_FLIGHT
      && completed <= fenceLast
      && (forall i :: 0 <= i < FRAMES_IN_FLIGHT ==> rings[i].Valid() && fences[i] <= fenceLast)
    }

    /** BeginFrame returns only once the fence has reached the value its slot was last given. */
    predicate CanBegin()
      requires Valid()
    {
      !recording && fences[frame] <= completed
    }

    function Begin(): Device
      requires Valid()
    {
      this.(rings := rings[frame := rings[frame].Reset()], recording := true)
    }

    function Allocate(q: Request, canGrow: bool): (Device, Option<Placement>)
      requires Valid() && 0 < q.align
    {
      var (r, p) := Alloc(rings[frame], q, canGrow);
      (this.(rings := rings[frame := r]), p)
    }

    function End(): Device
      requires Valid()
    {
      this.(fences := fences[frame := fenceLast + 1], fenceLast := fenceLast + 1,
            frame := (frame + 1) % FRAMES_IN_FLIGHT, recording := false)
    }

    /** WaitIdle signals one more value and returns when the GPU has reached it. */
    function Idle(): Device {
      this.(fenceLast := fenceLast + 1, completed := fenceLast + 1)
    }
  }

  /** A range handed out to frame number `owner`; frames are numbered from 0 and use slot `owner % 3`. */
  datatype Grant = Grant(owner: nat, place: Placement)

  datatype System = System(dev: Device, submitted: seq<nat>, grants: seq<Grant>) {
    /** Frame `k` is being recorded, or was submitted and the GPU may still read what it was handed. */
    ghost predicate InFlight(k: nat) {
      if k < |submitted| then dev.completed < submitted[k] else k == |submitted| && dev.recording
    }

    ghost function Unfinished(): set<int> {
      set k | 0 <= k < |submitted| && dev.completed < submitted[k]
    }
  }

  datatype Event =
    | BeginFrame
    | Allocate(q: Request, canGrow: bool)
    | EndFrame
    | WaitIdle
    | GpuReaches(value: nat)

  function Init(ringBytes: nat): System
    requires 0 < ringBytes
  {
    var r := Ring(ringBytes, [ringBytes], 0, 0);
    System(Device([r, r, r], [0, 0, 0], 0, 0, 0, false), [], [])
  }

  /** None when the event cannot happen now: a blocked BeginFrame, calls out of order, or a fence value the GPU was
    * never told to signal. */
  function Step(s: System, e: Event): Option<System>
    requires s.dev.Valid()
  {
    match e
    case BeginFrame =>
      if s.dev.CanBegin() then Some(s.(dev := s.dev.Begin())) else None
    case Allocate(q, canGrow) =>
      if !s.dev.recording || q.align == 0 then None
      else
        var (d, p) := s.dev.Allocate(q, canGrow);
        Some(s.(dev := d, grants := if p.Some? then s.grants + [Grant(|s.submitted|, p.value)] else s.grants))
    case EndFrame =>
      if !s.dev.recording then None
      else Some(s.(dev := s.dev.End(), submitted := s.submitted + [s.dev.fenceLast + 1]))
    case WaitIdle =>
      Some(s.(dev := s.dev.Idle()))
    case GpuReaches(v) =>
      if s.dev.completed < v <= s.dev.fenceLast then Some(s.(dev := s.dev.(completed := v))) else None
  }

  /** What holds in every reachable state. Frames older than the last three are finished; each later frame's slot still
    * carries its fence value and its ring cursor is past everything that frame was handed. */
  ghost predicate Inv(s: System) {
    s.dev.Valid() && Fenced(s) && Passed(s) && OwnApart(s)
  }

  function Begun(s: System): nat {
    |s.submitted| + (if s.dev.recording then 1 else 0)
  }

  ghost predicate Fenced(s: System)
    requires s.dev.Valid()
  {
    var n := |s.submitted|;
    && s.dev.frame == Slot(n)
    && (forall k :: 0 <= k < n ==> 0 < s.submitted[k] <= s.dev.fenceLast)
    && (forall k :: 0 <= k < n && n <= k + FRAMES_IN_FLIGHT ==> s.dev.fences[Slot(k)] == s.submitted[k])
    && (forall k :: 0 <= k < n && k + FRAMES_IN_FLIGHT < Begun(s) ==> s.submitted[k] <= s.dev.completed)
  }

  ghost predicate Passed(s: System)
    requires s.dev.Valid()
  {
    && (forall i :: 0 <= i < |s.grants| ==> s.grants[i].owner < Begun(s))
    && (forall i :: 0 <= i < |s.grants| && Begun(s) <= s.grants[i].owner + FRAMES_IN_FLIGHT ==>
          Before(s.grants[i].place, s.dev.rings[Slot(s.grants[i].owner)]))
  }

  ghost predicate OwnApart(s: System) {
    forall i, j :: 0 <= i < j < |s.grants| && s.grants[i].owner == s.grants[j].owner ==>
      !Overlap(s.grants[i].place, s.grants[j].place)
  }

  /** Three frames in a row use different slots. */
  lemma SlotsDiffer(j: nat, k: nat)
    requires j < k < j + FRAMES_IN_FLIGHT
    ensures Slot(j) != Slot(k)
  {}

  lemma BeginKeepsFenced(s: System)
    requires Inv(s) && s.dev.CanBegin()
    ensures s.dev.Begin().Valid() && Fenced(s.(dev := s.dev.Begin()))
  {}

  lemma BeginKeepsInv(s: System)
    requires Inv(s) && s.dev.CanBegin()
    ensures Inv(Step(s, BeginFrame).value)
  {
    hide Slot, Before, Overlap;
    var t := s.(dev := s.dev.Begin());
    BeginKeepsFenced(s);
    forall i | 0 <= i < |t.grants| && Begun(t) <= t.grants[i].owner + FRAMES_IN_FLIGHT
      ensures Before(t.grants[i].place, t.dev.rings[Slot(t.grants[i].owner)])
    {
      SlotsDiffer(t.grants[i].owner, |s.submitted|);
    }
  }

  lemma AllocateKeepsPassed(s: System, r: Ring, grants: seq<Grant>)
    requires Inv(s) && s.dev.recording && r.Valid()
    requires forall g: Placement :: Before(g, s.dev.rings[s.dev.frame]) ==> Before(g, r)
    requires s.grants <= grants && |grants| <= |s.grants| + 1
    requires |grants| > |s.grants| ==> grants[|s.grants|].owner == |s.submitted| && Before(grants[|s.grants|].place, r)
    ensures var t := s.(dev := s.dev.(rings := s.dev.rings[s.dev.frame := r]), grants := grants);
      t.dev.Valid() && Passed(t)
  {}

  lemma AllocateKeepsInv(s: System, q: Request, canGrow: bool)
    requires Inv(s) && s.dev.recording && 0 < q.align
    ensures Inv(Step(s, Allocate(q, canGrow)).value)
  {
    hide Slot, Before, Overlap, Alloc, Passed;
    AllocSafe(s.dev.rings[s.dev.frame], q, canGrow);
    var (r, p) := Alloc(s.dev.rings[s.dev.frame], q, canGrow);
    var t := Step(s, Allocate(q, canGrow)).value;
    AllocateKeepsPassed(s, r, t.grants);
    forall i | 0 <= i < |s.grants| && s.grants[i].owner == |s.submitted|
      ensures Before(s.grants[i].place, s.dev.rings[s.dev.frame])
    {
      OwnBefore(s, i);
    }
  }

  lemma OwnBefore(s: System, i: nat)
    requires Inv(s) && s.dev.recording && i < |s.grants| && s.grants[i].owner == |s.submitted|
    ensures Before(s.grants[i].place, s.dev.rings[s.dev.frame])
  {}

  lemma EndKeepsInv(s: System)
    requires Inv(s) && s.dev.recording
    ensures Inv(Step(s, EndFrame).value)
  {
    hide Slot, Before, Overlap;
    var t := Step(s, EndFrame).value;
    assert t.dev.frame == Slot(|t.submitted|) by { NextSlot(|s.submitted|); }
    forall k | 0 <= k < |t.submitted| && |t.submitted| <= k + FRAMES_IN_FLIGHT
      ensures t.dev.fences[Slot(k)] == t.submitted[k]
    {
      if k < |s.submitted| {
        SlotsDiffer(k, |s.submitted|);
      }
    }
  }

  lemma NextSlot(n: nat)
    ensures Slot(n + 1) == (Slot(n) + 1) % FRAMES_IN_FLIGHT
  {}

  lemma StepKeepsInv(s: System, e: Event)
    requires Inv(s) && Step(s, e).Some?
    ensures Inv(Step(s, e).value)
  {
    match e
    case BeginFrame => BeginKeepsInv(s);
    case Allocate(q, canGrow) => AllocateKeepsInv(s, q, canGrow);
    case EndFrame => EndKeepsInv(s);
    case WaitIdle =>
    case GpuReaches(v) =>
  }

  /** Two grants share bytes when they come from the same ring and their ranges meet. */
  ghost predicate ShareMemory(g: Grant, h: Grant) {
    Slot(g.owner) == Slot(h.owner) && Overlap(g.place, h.place)
  }

  /** No two ranges that the CPU is filling or the GPU may still be reading share a byte. */
  ghost predicate Safe(s: System) {
    forall i, j :: 0 <= i < j < |s.grants| && s.InFlight(s.grants[i].owner) && s.InFlight(s.grants[j].owner) ==>
      !ShareMemory(s.grants[i], s.grants[j])
  }

  lemma InvIsSafe(s: System)
    requires Inv(s)
    ensures Safe(s)
    ensures |s.Unfinished()| <= if s.dev.recording then 2 else FRAMES_IN_FLIGHT
  {
    var n, begun := |s.submitted|, |s.submitted| + (if s.dev.recording then 1 else 0);
    forall i, j | 0 <= i < j < |s.grants| && s.InFlight(s.grants[i].owner) && s.InFlight(s.grants[j].owner)
      ensures !ShareMemory(s.grants[i], s.grants[j])
    {
      var a, b := s.grants[i].owner, s.grants[j].owner;
      assert begun <= a + FRAMES_IN_FLIGHT && begun <= b + FRAMES_IN_FLIGHT;
    }
    SubsetSize(s.Unfinished(), if s.dev.recording then {n - 1, n - 2} else {n - 1, n - 2, n - 3});
  }

  lemma {:induction false} SubsetSize<T>(a: set<T>, b: set<T>)
    requires a <= b
    ensures |a| <= |b|
  {
    if x :| x in a {
      SubsetSize(a - {x}, b - {x});
    }
  }

  ghost function Run(s: System, es: seq<Event>): (t: Option<System>)
    requires Inv(s)
    ensures t.Some? ==> Inv(t.value)
    decreases |es|
  {
    if es == [] then Some(s)
    else if Step(s, es[0]).None? then None
    else
      StepKeepsInv(s, es[0]);
      Run(Step(s, es[0]).value, es[1..])
  }

  lemma InitHasInv(ringBytes: nat)
    requires 0 < ringBytes
    ensures Inv(Init(ringBytes))
  {}

  /** In every interleaving of BeginFrame, Allocate, EndFrame and WaitIdle with the GPU completing fence values, no two
    * live ranges overlap and at most three submitted frames are unfinished (two while a fourth is recorded). */
  lemma {:induction false} FramesNeverShareMemory(s: System, es: seq<Event>)
    requires Inv(s)
    ensures Run(s, es).Some? ==>
              && Inv(Run(s, es).value) && Safe(Run(s, es).value)
              && |Run(s, es).value.Unfinished()| <= if Run(s, es).value.dev.recording then 2 else FRAMES_IN_FLIGHT
    decreases |es|
  {
    if es == [] {
      InvIsSafe(s);
    } else if Step(s, es[0]).Some? {
      StepKeepsInv(s, es[0]);
      FramesNeverShareMemory(Step(s, es[0]).value, es[1..]);
    }
  }

  /** A blocked BeginFrame is always waiting for a value the GPU has been told to signal, and reaching it unblocks. */
  lemma BeginIsNeverStuck(s: System)
    requires Inv(s) && !s.dev.recording
    ensures Step(s, BeginFrame).Some?
            || (var v := s.dev.fences[s.dev.frame];
                Step(s, GpuReaches(v)).Some? && Step(Step(s, GpuReaches(v)).value, BeginFrame).Some?)
  {}

  /** After WaitIdle nothing submitted is unfinished. */
  lemma IdleDrains(s: System)
    requires Inv(s)
    ensures Step(s, WaitIdle).value.Unfinished() == {}
  {}

  // ---- the steady state -----------------------------------------------------------------------------------------

  /** What a frame number was handed, in order. */
  function PlacesOf(grants: seq<Grant>, owner: nat): seq<Placement> {
    if grants == [] then []
    else
      var n := |grants| - 1;
      PlacesOf(grants[..n], owner) + if grants[n].owner == owner then [grants[n].place] else []
  }

  function Requests(es: seq<Event>): seq<Request> {
    if es == [] then []
    else (if es[0].Allocate? then [Request(es[0].q.size, es[0].q.align)] else []) + Requests(es[1..])
  }

  /** What may happen while one frame is recorded. */
  ghost predicate Inner(es: seq<Event>) {
    forall e :: e in es ==> !e.BeginFrame? && !e.EndFrame?
  }

  /** The whole recording of one frame. */
  ghost predicate IsFrame(es: seq<Event>) {
    2 <= |es| && es[0] == BeginFrame && es[|es| - 1] == EndFrame && Inner(es[1..|es| - 1])
  }

  /** No frame of this slot is begun. */
  ghost predicate Elsewhere(s: System, es: seq<Event>, slot: nat)
    requires Inv(s)
    decreases |es|
  {
    if es == [] || Step(s, es[0]).None? then true
    else
      StepKeepsInv(s, es[0]);
      !(es[0].BeginFrame? && s.dev.frame == slot) && Elsewhere(Step(s, es[0]).value, es[1..], slot)
  }

  function Owned(owner: nat, ps: seq<Placement>): seq<Grant> {
    seq(|ps|, i requires 0 <= i < |ps| => Grant(owner, ps[i]))
  }

  lemma {:induction false} PlacesConcat(a: seq<Grant>, b: seq<Grant>, owner: nat)
    ensures PlacesOf(a + b, owner) == PlacesOf(a, owner) + PlacesOf(b, owner)
    decreases |b|
  {
    if b == [] {
      assert a + b == a;
    } else {
      assert (a + b)[..|a + b| - 1] == a + b[..|b| - 1];
      PlacesConcat(a, b[..|b| - 1], owner);
    }
  }

  lemma {:induction false} OwnedPlaces(owner: nat, ps: seq<Placement>)
    ensures PlacesOf(Owned(owner, ps), owner) == ps
  {
    if ps != [] {
      var n := |ps| - 1;
      assert Owned(owner, ps)[..n] == Owned(owner, ps[..n]);
      OwnedPlaces(owner, ps[..n]);
      assert ps[..n] + [ps[n]] == ps;
    }
  }

  lemma {:induction false} NonePlaced(grants: seq<Grant>, owner: nat)
    requires forall g :: g in grants ==> g.owner != owner
    ensures PlacesOf(grants, owner) == []
  {
    if grants != [] {
      NonePlaced(grants[..|grants| - 1], owner);
    }
  }

  /** Nothing more than what was handed out is asked for. */
  ghost predicate AllGranted(before: System, es: seq<Event>, after: System) {
    |after.grants| - |before.grants| == |Requests(es)|
  }

  lemma GrantedIsGrown(r: Ring, q: Request, canGrow: bool)
    requires r.Valid() && 0 < q.align
    requires Alloc(r, q, canGrow).1.Some? || Alloc(r, q, true).0.blocks == r.blocks
    ensures Alloc(r, q, canGrow) == Alloc(r, q, true)
  {
    hide AlignUp;
    var k := Seek(r.blocks, r.block + 1, q.size);
    assert |r.blocks + [Want(r.blockSize, q.size + q.align)]| == |r.blocks| + 1;
  }

  lemma {:induction false} GrantsBounded(s: System, es: seq<Event>)
    requires Inv(s) && Run(s, es).Some?
    ensures |Run(s, es).value.grants| <= |s.grants| + |Requests(es)|
    ensures forall q :: q in Requests(es) ==> 0 < q.align
    decreases |es|
  {
    hide Fenced, Passed, OwnApart, Alloc;
    if es != [] {
      StepKeepsInv(s, es[0]);
      GrantsBounded(Step(s, es[0]).value, es[1..]);
      assert es[0].Allocate? ==> 0 < Request(es[0].q.size, es[0].q.align).align;
    }
  }

  /** Serving these requests is what happened to the device between the two states, under this owner. */
  ghost predicate Served(s: System, t: System, r: Ring, ps: seq<Placement>)
    requires s.dev.Valid()
  {
    && t.dev.rings == s.dev.rings[s.dev.frame := r] && t.grants == s.grants + Owned(|s.submitted|, ps)
    && t.submitted == s.submitted && t.dev.recording && t.dev.frame == s.dev.frame
  }

  /** One request, and the rest still to come: it was granted, or needs no block. */
  lemma RequestServed(s: System, e: Event, qs: seq<Request>)
    requires Inv(s) && s.dev.recording && e.Allocate? && Step(s, e).Some? && forall q :: q in qs ==> 0 < q.align
    requires var ring := s.dev.rings[s.dev.frame];
      |Step(s, e).value.grants| > |s.grants| || Serve(ring, [e.q] + qs).0.blocks == ring.blocks
    ensures var ring := s.dev.rings[s.dev.frame];
      var (r, p) := Alloc(ring, e.q, true);
      && p.Some? && Served(s, Step(s, e).value, r, [p.value]) && r.Valid()
      && (Serve(ring, [e.q] + qs).0.blocks == ring.blocks ==> Serve(r, qs).0.blocks == r.blocks)
  {
    hide Alloc, Fenced, Passed, OwnApart, Slot;
    var ring := s.dev.rings[s.dev.frame];
    AllocSafe(ring, e.q, true);
    var (r, p) := Alloc(ring, e.q, true);
    ServeKeepsBlocks(r, qs);
    assert ([e.q] + qs)[1..] == qs;
    GrantedIsGrown(ring, e.q, e.canGrow);
  }

  /** Serving one and then the rest is serving them all. */
  lemma ServedNext(s: System, m: System, t: System, r: Ring, p: Placement, qs: seq<Request>)
    requires s.dev.Valid() && m.dev.Valid() && r.Valid() && forall q :: q in qs ==> 0 < q.align
    requires Served(s, m, r, [p]) && Served(m, t, Serve(r, qs).0, Serve(r, qs).1)
    ensures Served(s, t, Serve(r, qs).0, [p] + Serve(r, qs).1)
  {
    hide Serve;
    var (r2, ps) := Serve(r, qs);
    var owner := |s.submitted|;
    assert s.dev.rings[s.dev.frame := r][s.dev.frame := r2] == s.dev.rings[s.dev.frame := r2];
    assert s.grants + Owned(owner, [p]) + Owned(owner, ps) == s.grants + Owned(owner, [p] + ps);
  }

  /** While a frame is recorded its ring serves the requests in order, if they are all granted or none needs a block. */
  lemma {:induction false} RecordingServes(s: System, es: seq<Event>)
    requires Inv(s) && s.dev.recording && Inner(es) && Run(s, es).Some?
    requires forall q :: q in Requests(es) ==> 0 < q.align
    requires AllGranted(s, es, Run(s, es).value)
             || Serve(s.dev.rings[s.dev.frame], Requests(es)).0.blocks == s.dev.rings[s.dev.frame].blocks
    ensures var (r, ps) := Serve(s.dev.rings[s.dev.frame], Requests(es)); Served(s, Run(s, es).value, r, ps)
    decreases |es|
  {
    hide Alloc, Fenced, Passed, OwnApart, Slot;
    var ring := s.dev.rings[s.dev.frame];
    if es == [] {
      assert s.dev.rings == s.dev.rings[s.dev.frame := ring];
      assert s.grants == s.grants + Owned(|s.submitted|, []);
    } else {
      var e, t := es[0], Step(s, es[0]).value;
      StepKeepsInv(s, e);
      GrantsBounded(t, es[1..]);
      assert e in es && forall x :: x in es[1..] ==> x in es;
      if e.Allocate? {
        assert Requests(es) == [e.q] + Requests(es[1..]);
        RequestServed(s, e, Requests(es[1..]));
        RecordingServes(t, es[1..]);
        var (r1, p) := Alloc(ring, e.q, true);
        ServedNext(s, t, Run(s, es).value, r1, p.value, Requests(es[1..]));
      } else {
        assert Requests(es) == Requests(es[1..]);
        RecordingServes(t, es[1..]);
      }
    }
  }

  lemma {:induction false} RunConcat(s: System, es: seq<Event>, fs: seq<Event>)
    requires Inv(s)
    ensures Run(s, es + fs) == if Run(s, es).None? then Option.None else Run(Run(s, es).value, fs)
    decreases |es|
  {
    hide Fenced, Passed, OwnApart, Step;
    if es == [] {
      assert es + fs == fs;
    } else {
      assert (es + fs)[1..] == es[1..] + fs;
      if Step(s, es[0]).Some? {
        StepKeepsInv(s, es[0]);
        RunConcat(Step(s, es[0]).value, es[1..], fs);
      }
    }
  }

  lemma {:induction false} RequestsConcat(es: seq<Event>, fs: seq<Event>)
    ensures Requests(es + fs) == Requests(es) + Requests(fs)
  {
    if es == [] {
      assert es + fs == fs;
    } else {
      assert (es + fs)[1..] == es[1..] + fs;
      RequestsConcat(es[1..], fs);
      var first := if es[0].Allocate? then [Request(es[0].q.size, es[0].q.align)] else [];
      assert Requests(es) == first + Requests(es[1..]);
      assert Requests(es + fs) == first + Requests(es[1..] + fs);
      Associative(first, Requests(es[1..]), Requests(fs));
    }
  }

  lemma Associative(a: seq<Request>, b: seq<Request>, c: seq<Request>)
    ensures a + (b + c) == a + b + c
  {}

  /** A frame is its beginning, the recording and its end. */
  lemma FrameSplits(s: System, es: seq<Event>, t: System) returns (mid: seq<Event>, done: System)
    requires Inv(s) && IsFrame(es) && Run(s, es) == Some(t)
    ensures Inner(mid) && Requests(mid) == Requests(es)
    ensures s.dev.CanBegin() && Inv(s.(dev := s.dev.Begin())) && Run(s.(dev := s.dev.Begin()), mid) == Some(done)
    ensures Step(done, EndFrame) == Some(t)
  {
    hide Alloc, Fenced, Passed, OwnApart, Slot, Requests, Run;
    mid := es[1..|es| - 1];
    var last := mid + [EndFrame];
    assert es == [BeginFrame] + last;
    RunOne(s, BeginFrame);
    RunConcat(s, [BeginFrame], last);
    BeginKeepsInv(s);
    var begun := s.(dev := s.dev.Begin());
    RunConcat(begun, mid, [EndFrame]);
    done := Run(begun, mid).value;
    RunOne(done, EndFrame);
    RequestsConcat([BeginFrame], last);
    RequestsConcat(mid, [EndFrame]);
    OneRequest(BeginFrame);
    OneRequest(EndFrame);
  }

  /** What recording a whole frame does: its ring serves it, the frame is submitted, and the next slot is up. */
  ghost predicate Handed(s: System, t: System, r: Ring, ps: seq<Placement>)
    requires s.dev.Valid()
  {
    && t.dev.rings == s.dev.rings[s.dev.frame := r] && t.grants == s.grants + Owned(|s.submitted|, ps)
    && |t.submitted| == |s.submitted| + 1 && !t.dev.recording && !s.dev.recording && t.dev.frame != s.dev.frame
  }

  /** A whole frame, from a reset ring. */
  lemma FrameServes(s: System, es: seq<Event>, t: System)
    requires Inv(s) && IsFrame(es) && Run(s, es) == Some(t)
    ensures forall q :: q in Requests(es) ==> 0 < q.align
    ensures
      var ring := s.dev.rings[s.dev.frame];
      var (r, ps) := Serve(ring.Reset(), Requests(es));
      AllGranted(s, es, t) || r.blocks == ring.blocks ==> Handed(s, t, r, ps)
  {
    hide Alloc, Fenced, Passed, OwnApart, Slot, Requests, Run, IsFrame, Serve, Inner, Served, Handed;
    GrantsBounded(s, es);
    var mid, done := FrameSplits(s, es, t);
    var begun := s.(dev := s.dev.Begin());
    var ring := s.dev.rings[s.dev.frame];
    if AllGranted(s, es, t) || Serve(ring.Reset(), Requests(es)).0.blocks == ring.blocks {
      RecordingServes(begun, mid);
      var (r, ps) := Serve(ring.Reset(), Requests(es));
      BegunThenEnded(s, done, t, r, ps);
    }
  }

  lemma BegunThenEnded(s: System, done: System, t: System, r: Ring, ps: seq<Placement>)
    requires Inv(s) && s.dev.CanBegin() && s.dev.Begin().Valid() && done.dev.Valid()
    requires Served(s.(dev := s.dev.Begin()), done, r, ps) && Step(done, EndFrame) == Some(t)
    ensures Handed(s, t, r, ps)
  {
    hide Fenced, Passed, OwnApart;
    var slot := s.dev.frame;
    assert s.dev.rings[slot := s.dev.rings[slot].Reset()][slot := r] == s.dev.rings[slot := r];
  }

  lemma RunOne(s: System, e: Event)
    requires Inv(s)
    ensures Run(s, [e]) == Step(s, e)
  {
    hide Fenced, Passed, OwnApart, Step;
    if Step(s, e).Some? {
      StepKeepsInv(s, e);
      assert Run(Step(s, e).value, []) == Step(s, e);
    }
  }

  lemma OneRequest(e: Event)
    ensures Requests([e]) == if e.Allocate? then [Request(e.q.size, e.q.align)] else []
  {
    assert Requests([e][1..]) == [];
  }

  /** What does not concern a slot leaves its ring alone, and every grant made belongs to this frame or a later one. */
  lemma {:induction false} ElsewhereLeavesTheRing(s: System, es: seq<Event>, slot: nat)
    requires Inv(s) && Run(s, es).Some? && slot < FRAMES_IN_FLIGHT
    requires Elsewhere(s, es, slot) && (s.dev.recording ==> s.dev.frame != slot)
    ensures var t := Run(s, es).value;
      && t.dev.rings[slot] == s.dev.rings[slot]
      && s.grants <= t.grants && |s.submitted| <= |t.submitted|
      && forall i :: |s.grants| <= i < |t.grants| ==> |s.submitted| <= t.grants[i].owner
    decreases |es|
  {
    hide Alloc, Fenced, Passed, OwnApart, Slot;
    if es != [] {
      StepKeepsInv(s, es[0]);
      ElsewhereLeavesTheRing(Step(s, es[0]).value, es[1..], slot);
    }
  }

  /** The steady state: a frame was granted all it asked for; whatever is done next without beginning a frame of its
    * slot, the slot's next frame, asking for the same, is handed the same ranges and no block is made for it. Nothing
    * is asked of the driver, so it holds whether or not the driver would still grant a block. */
  lemma SteadyState(s: System, first: seq<Event>, a: System, between: seq<Event>, b: System, again: seq<Event>,
                    c: System)
    requires Inv(s) && IsFrame(first) && Run(s, first) == Some(a) && AllGranted(s, first, a)
    requires Elsewhere(a, between, s.dev.frame) && Run(a, between) == Some(b) && b.dev.frame == s.dev.frame
    requires IsFrame(again) && Requests(again) == Requests(first) && Run(b, again) == Some(c)
    ensures PlacesOf(c.grants, |b.submitted|) == PlacesOf(a.grants, |s.submitted|)
    ensures |PlacesOf(a.grants, |s.submitted|)| == |Requests(first)|
    ensures c.dev.rings[s.dev.frame] == a.dev.rings[s.dev.frame]
  {
    hide Alloc, Fenced, Passed, OwnApart, Slot, Serve, AllGranted, IsFrame, Elsewhere, Run, Requests, PlacesOf;
    FirstFrame(s, first, a);
    ElsewhereLeavesTheRing(a, between, s.dev.frame);
    LaterFrame(b, again, c, s.dev.rings[s.dev.frame], Requests(first));
  }

  /** A frame granted all it asks for is handed what its ring serves from the start. */
  lemma FirstFrame(s: System, es: seq<Event>, t: System)
    requires Inv(s) && IsFrame(es) && Run(s, es) == Some(t) && AllGranted(s, es, t)
    ensures forall q :: q in Requests(es) ==> 0 < q.align
    ensures var (r, ps) := Serve(s.dev.rings[s.dev.frame].Reset(), Requests(es));
      && PlacesOf(t.grants, |s.submitted|) == ps && |ps| == |Requests(es)|
      && t.dev.rings[s.dev.frame] == r && !t.dev.recording
  {
    hide Alloc, Fenced, Passed, OwnApart, Slot, Serve, AllGranted, IsFrame, Run, Requests, PlacesOf, Handed;
    FrameServes(s, es, t);
    var (r, ps) := Serve(s.dev.rings[s.dev.frame].Reset(), Requests(es));
    FrameIsHanded(s, t, r, ps);
    OneForEach(s.dev.rings[s.dev.frame].Reset(), Requests(es));
  }

  /** A frame whose ring has just served the same requests from its start is handed the same, without a block. */
  lemma LaterFrame(s: System, es: seq<Event>, t: System, ring: Ring, qs: seq<Request>)
    requires Inv(s) && IsFrame(es) && Run(s, es) == Some(t) && Requests(es) == qs
    requires ring.Valid() && forall q :: q in qs ==> 0 < q.align
    requires s.dev.rings[s.dev.frame] == Serve(ring.Reset(), qs).0
    ensures PlacesOf(t.grants, |s.submitted|) == Serve(ring.Reset(), qs).1
    ensures t.dev.rings[s.dev.frame] == Serve(ring.Reset(), qs).0
  {
    hide Alloc, Fenced, Passed, OwnApart, Slot, Serve, AllGranted, IsFrame, Run, Requests, PlacesOf, Handed;
    ServesAgain(s, es, t, ring, qs);
    FrameIsHanded(s, t, Serve(ring.Reset(), qs).0, Serve(ring.Reset(), qs).1);
  }

  lemma OneForEach(ring: Ring, qs: seq<Request>)
    requires ring.Valid() && forall q :: q in qs ==> 0 < q.align
    ensures |Serve(ring, qs).1| == |qs|
  {
    ServedApart(ring, qs);
  }

  /** A ring left by serving these requests from its start serves them again in the same places, without a block. */
  lemma ServesAgain(b: System, again: seq<Event>, c: System, ring: Ring, qs: seq<Request>)
    requires Inv(b) && IsFrame(again) && Run(b, again) == Some(c) && Requests(again) == qs
    requires ring.Valid() && forall q :: q in qs ==> 0 < q.align
    requires b.dev.rings[b.dev.frame] == Serve(ring.Reset(), qs).0
    ensures Handed(b, c, Serve(ring.Reset(), qs).0, Serve(ring.Reset(), qs).1)
  {
    hide Alloc, Fenced, Passed, OwnApart, Slot, Serve, AllGranted, IsFrame, Run, Requests, Handed;
    ReplayAllocatesNothing(ring, qs);
    FrameServes(b, again, c);
  }

  /** A frame not yet begun has been handed nothing. */
  lemma FrameIsHanded(s: System, t: System, r: Ring, ps: seq<Placement>)
    requires Inv(s) && Handed(s, t, r, ps)
    ensures PlacesOf(t.grants, |s.submitted|) == ps
    ensures t.dev.rings == s.dev.rings[s.dev.frame := r] && !t.dev.recording
  {
    hide Fenced, OwnApart;
    NonePlaced(s.grants, |s.submitted|);
    OwnedPlaces(|s.submitted|, ps);
    PlacesConcat(s.grants, Owned(|s.submitted|, ps), |s.submitted|);
  }

  /** The renderer's device: three frame contexts, the fence the GPU advances and the values the CPU has signalled. */
  class FrameDevice {
    const rings: seq<UploadRing>
    var fences: seq<nat>
    var frame: nat
    var fenceLast: nat
    var completed: nat
    var recording: bool

    ghost predicate Shape()
      reads this
    {
      |rings| == FRAMES_IN_FLIGHT && forall i, j :: 0 <= i < j < |rings| ==> rings[i] != rings[j]
    }

    ghost function View(): Device
      requires Shape()
      reads this, rings
    {
      Device([rings[0].View(), rings[1].View(), rings[2].View()], fences, frame, fenceLast, completed, recording)
    }

    ghost predicate Valid()
      reads this, rings
    {
      Shape() && View().Valid()
    }

    constructor (ringBytes: nat)
      requires 0 < ringBytes
      ensures Valid() && View() == Init(ringBytes).dev
    {
      var a := new UploadRing(ringBytes);
      var b := new UploadRing(ringBytes);
      var c := new UploadRing(ringBytes);
      rings := [a, b, c];
      fences, frame, fenceLast, completed, recording := [0, 0, 0], 0, 0, 0, false;
    }

    /** Blocks until the GPU has reached `value`; how much further it has got is the GPU's choice. */
    method WaitForFence(value: nat)
      requires Valid() && value <= fenceLast
      modifies this`completed
      ensures value <= completed <= fenceLast && old(completed) <= completed
    {
      if completed < value {
        var reached :| value <= reached <= fenceLast;
        completed := reached;
      }
    }

    method BeginFrame()
      requires Valid() && !recording
      modifies this, rings
      ensures Valid() && old(completed) <= completed
      ensures var waited := old(View()).(completed := completed);
        waited.Valid() && waited.CanBegin() && View() == waited.Begin()
    {
      assert frame == 0 || frame == 1 || frame == 2;
      assert View().rings[frame].Valid() && View().rings[frame] == rings[frame].View();
      WaitForFence(fences[frame]);
      rings[frame].Reset();
      assert View().rings == old(View()).rings[frame := rings[frame].View()];
      recording := true;
    }

    method Allocate(sizeBytes: nat, align: nat, canGrow: bool) returns (p: Option<Placement>)
      requires Valid() && recording && 0 < align
      modifies this, rings
      ensures Valid()
      ensures (View(), p) == old(View()).Allocate(Request(sizeBytes, align), canGrow)
    {
      assert frame == 0 || frame == 1 || frame == 2;
      assert View().rings[frame].Valid() && View().rings[frame] == rings[frame].View();
      AllocSafe(rings[frame].View(), Request(sizeBytes, align), canGrow);
      p := rings[frame].Allocate(sizeBytes, align, canGrow);
      assert View().rings == old(View()).rings[frame := rings[frame].View()];
    }

    method EndFrame()
      requires Valid() && recording
      modifies this
      ensures Valid() && View() == old(View()).End()
    {
      fenceLast := fenceLast + 1;
      fences := fences[frame := fenceLast];
      frame := (frame + 1) % FRAMES_IN_FLIGHT;
      recording := false;
    }

    method WaitIdle()
      requires Valid()
      modifies this
      ensures Valid() && View() == old(View()).Idle()
    {
      fenceLast := fenceLast + 1;
      WaitForFence(fenceLast);
    }
  }
}
