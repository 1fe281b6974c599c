/** The one-slot mailbox between the render thread and the colour-emoji rasteriser (src/glyphs/sampler.cpp).
  *
  * Every critical section under the mutex is one step; drawing happens between the worker's two sections, so the render
  * thread may run any number of its own in between. `drawn` remembers what each filed bitmap was really drawn for.
  */
module ColorWorker {
  import opened Wrappers
  import opened GlyphAtlas

  const MAX_BOX: nat := ATLAS_H - 4

  datatype Job = Job(cp: nat, box: nat, vs16: bool)

  /** A finished rasterisation; a square of side `box` when `ok`. */
  datatype Bitmap = Bitmap(job: Job, ok: bool)

  datatype Mail = Mail(
    reqPending: bool, req: Job,
    inFlight: nat,                   // code point being rasterised, 0 when the render thread believes the worker idle
    resReady: bool, res: Bitmap,
    worker: Option<Job>,             // what the worker thread is drawing
    box: nat,                        // the raster size at the current font size
    pack: Pack,                      // the colour glyph map and its packer cursor
    drawn: map<nat, Bitmap>)

  datatype Event =
    | Take
    | Publish(ok: bool)
    | Poll
    | Ask(cp: nat, vs16: bool)
    | Rebuild(newBox: nat)

  const NO_JOB := Job(0, 8, false)

  function Init(box: nat): Mail {
    Mail(false, NO_JOB, 0, false, Bitmap(NO_JOB, false), None, box, EMPTY, map[])
  }

  // ---- the critical sections ------------------------------------------------------------------------------------

  function Taken(s: Mail): Mail {
    s.(worker := Some(s.req), reqPending := false)
  }

  function Published(s: Mail, ok: bool): Mail
    requires s.worker.Some?
  {
    s.(res := Bitmap(s.worker.value, ok), reqPending := false, resReady := true, worker := None)
  }

  /** File a bitmap under a code point: a failure, or a full atlas, is remembered as an entry without pixels. */
  function Filed(s: Mail, cp: nat, b: Bitmap): Mail {
    if !b.ok || b.job.box == 0 then
      s.(pack := s.pack.(glyphs := s.pack.glyphs[cp := Blank]))
    else
      var (c, r) := Place(s.pack.cursor, b.job.box, b.job.box);
      if r.None? then s.(pack := Pack(c, s.pack.glyphs[cp := Blank]))
      else s.(pack := Pack(c, s.pack.glyphs[cp := Inked(r.value)]), drawn := s.drawn[cp := b])
  }

  function Polled(s: Mail): Mail {
    if !s.resReady then s
    else
      var t := s.(resReady := false, inFlight := 0);
      if s.inFlight == 0 then t else Filed(t, s.inFlight, s.res)
  }

  function Asked(s: Mail, cp: nat, vs16: bool): Mail {
    if !s.reqPending && !s.resReady && s.inFlight == 0 then
      s.(inFlight := cp, req := Job(cp, s.box, vs16), reqPending := true)
    else s
  }

  function Rebuilt(s: Mail, newBox: nat): Mail {
    s.(pack := EMPTY, drawn := map[], box := newBox)
  }

  /** None when the thread concerned cannot take the step now. */
  function Step(s: Mail, e: Event): Option<Mail> {
    match e
    case Take => if s.worker.None? && s.reqPending then Some(Taken(s)) else None
    case Publish(ok) => if s.worker.Some? then Some(Published(s, ok)) else None
    case Poll => Some(Polled(s))
    case Ask(cp, vs16) => if cp !in s.pack.glyphs then Some(Asked(s, cp, vs16)) else None
    case Rebuild(newBox) => if 0 < newBox <= MAX_BOX then Some(Rebuilt(s, newBox)) else None
  }

  function Run(s: Mail, es: seq<Event>): Option<Mail>
    decreases |es|
  {
    if es == [] then Some(s)
    else if Step(s, es[0]).None? then None
    else Run(Step(s, es[0]).value, es[1..])
  }

  // ---- what every run keeps -------------------------------------------------------------------------------------

  function Bit(b: bool): nat {
    if b then 1 else 0
  }

  /** Rasterisations asked for and not yet collected. */
  function Outstanding(s: Mail): nat {
    Bit(s.reqPending) + Bit(s.worker.Some?) + Bit(s.resReady)
  }

  /** The job of the outstanding rasterisation. */
  function Current(s: Mail): Job {
    if s.reqPending then s.req else if s.worker.Some? then s.worker.value else s.res.job
  }

  ghost predicate Inv(s: Mail) {
    && 0 < s.box <= MAX_BOX
    && Outstanding(s) == Bit(s.inFlight != 0)
    && (s.inFlight != 0 ==> Current(s).cp == s.inFlight && 0 < Current(s).box <= MAX_BOX)
    && (s.inFlight != 0 ==> s.inFlight !in s.pack.glyphs)
    && WellPacked(s.pack)
    && (forall cp :: cp in s.pack.glyphs && s.pack.glyphs[cp].Inked? ==>
          && cp in s.drawn && s.drawn[cp].ok && s.drawn[cp].job.cp == cp
          && s.pack.glyphs[cp].rect.w == s.pack.glyphs[cp].rect.h == s.drawn[cp].job.box)
  }

  /** Code point 0 is what `inFlight` uses to mean idle. */
  predicate AsksNul(e: Event) {
    e.Ask? && e.cp == 0
  }

  lemma WorkerKeepsInv(s: Mail, e: Event)
    requires Inv(s) && Step(s, e).Some? && (e.Take? || e.Publish?)
    ensures Inv(Step(s, e).value)
  {
    hide WellPacked;
  }

  lemma FiledIsPacked(s: Mail, cp: nat, b: Bitmap)
    requires WellPacked(s.pack) && b.job.box <= MAX_BOX
    ensures WellPacked(Filed(s, cp, b).pack)
  {
    if b.job.box != 0 {
      PlaceSafe(s.pack.cursor, b.job.box, b.job.box);
    }
  }

  lemma PollKeepsInv(s: Mail)
    requires Inv(s)
    ensures Inv(Polled(s))
  {
    hide WellPacked, Place;
    if s.resReady && s.inFlight != 0 {
      var t := s.(resReady := false, inFlight := 0);
      FiledIsPacked(t, s.inFlight, s.res);
      PlacedSize(s.pack.cursor, s.res.job.box);
    }
  }

  lemma PlacedSize(c: Cursor, side: nat)
    ensures var r := Place(c, side, side).1; r.Some? ==> r.value.w == r.value.h == side
  {}

  /** Every step of either thread keeps the mailbox in order, but for exactly one: a request for code point 0 while
    * nothing is in flight, which is accepted and leaves the mailbox looking idle. */
  lemma StepKeepsInvIff(s: Mail, e: Event)
    requires Inv(s) && Step(s, e).Some?
    ensures Inv(Step(s, e).value) <==> !(AsksNul(e) && s.inFlight == 0)
  {
    hide WellPacked, Polled;
    match e
    case Take => WorkerKeepsInv(s, e);
    case Publish(ok) => WorkerKeepsInv(s, e);
    case Poll => PollKeepsInv(s);
    case Ask(cp, vs16) =>
    case Rebuild(newBox) => EmptyIsPacked();
  }

  lemma EmptyIsPacked()
    ensures WellPacked(EMPTY)
  {}

  ghost predicate AlwaysInv(s: Mail, es: seq<Event>)
    decreases |es|
  {
    Inv(s) && (es != [] && Step(s, es[0]).Some? ==> AlwaysInv(Step(s, es[0]).value, es[1..]))
  }

  predicate NulIsNeverAccepted(s: Mail, es: seq<Event>)
    decreases |es|
  {
    es != [] && Step(s, es[0]).Some? ==>
      !(AsksNul(es[0]) && s.inFlight == 0) && NulIsNeverAccepted(Step(s, es[0]).value, es[1..])
  }

  /** In every interleaving of the two threads: the mailbox is in order throughout exactly when code point 0 is never
    * accepted. */
  lemma {:induction false} InOrderIff(s: Mail, es: seq<Event>)
    requires Inv(s)
    ensures AlwaysInv(s, es) <==> NulIsNeverAccepted(s, es)
    decreases |es|
  {
    hide Inv, Step;
    if es != [] && Step(s, es[0]).Some? {
      StepKeepsInvIff(s, es[0]);
      var t := Step(s, es[0]).value;
      if Inv(t) {
        InOrderIff(t, es[1..]);
      }
    }
  }

  /** In every interleaving of the two threads that never asks for code point 0, at most one rasterisation is
    * outstanding, its code point is `inFlight`, every filed bitmap was drawn for the code point it is filed under, and
    * the packed squares stay inside the atlas two pixels apart. */
  lemma {:induction false} MailboxSafe(s: Mail, es: seq<Event>)
    requires Inv(s) && Run(s, es).Some?
    requires forall e :: e in es ==> !AsksNul(e)
    ensures Inv(Run(s, es).value)
    decreases |es|
  {
    hide Inv, Step;
    if es != [] {
      StepKeepsInvIff(s, es[0]);
      MailboxSafe(Step(s, es[0]).value, es[1..]);
    }
  }

  /** A cell of the screen: what it shows, whether it is concealed, and its variation selectors. */
  datatype ScreenCell = ScreenCell(cp: nat, conceal: bool, emojiSelector: bool, textSelector: bool)

  /** The one caller of the lookup asks for a cell with ink that is an emoji by default or was made one. */
  function Asks(cell: ScreenCell, emojiByDefault: bool): Option<Event> {
    var hasInk := cell.cp != 0x20 && cell.cp != 0 && !cell.conceal;
    var vs16 := cell.emojiSelector && !cell.textSelector;
    if hasInk && !cell.textSelector && (emojiByDefault || (vs16 && cell.cp >= 0xA9))
    then Some(Ask(cell.cp, vs16))
    else None
  }

  ghost predicate FromTheScreen(e: Event) {
    e.Ask? ==> exists cell, emojiByDefault :: Asks(cell, emojiByDefault) == Some(e)
  }

  /** So for what is really asked the mailbox is in order in every interleaving. */
  lemma ScreenIsSafe(box: nat, es: seq<Event>)
    requires 0 < box <= MAX_BOX && Run(Init(box), es).Some?
    requires forall e :: e in es ==> FromTheScreen(e)
    ensures Inv(Run(Init(box), es).value)
  {
    hide Inv, Run;
    InitHasInv(box);
    forall e | e in es
      ensures !AsksNul(e)
    {
      assert FromTheScreen(e);
    }
    MailboxSafe(Init(box), es);
  }

  lemma InitHasInv(box: nat)
    requires 0 < box <= MAX_BOX
    ensures Inv(Init(box))
  {}

  /** The worker clears the request flag a second time when it publishes. No request is lost by it: the flag is already
    * down, because nothing can be asked for while a job is in flight. */
  lemma SecondClearingDiscardsNothing(s: Mail, ok: bool)
    requires Inv(s) && s.worker.Some?
    ensures !s.reqPending && Published(s, ok).reqPending == s.reqPending
  {}

  /** How far an accepted request has come: waiting, being drawn, drawn, filed. */
  function Advance(k: nat, e: Event): nat {
    if (k == 0 && e.Take?) || (k == 1 && e.Publish?) || (k == 2 && e.Poll?) then k + 1 else k
  }

  /** The worker takes the request, publishes, and is polled, in this order, whatever comes between. */
  predicate Completes(es: seq<Event>, k: nat)
    decreases |es|
  {
    k >= 3 || (es != [] && Completes(es[1..], Advance(k, es[0])))
  }

  ghost predicate OnItsWay(s: Mail, job: Job, k: nat) {
    if k == 3 then
      && job.cp in s.pack.glyphs
      && (s.pack.glyphs[job.cp].Inked? ==> job.cp in s.drawn && s.drawn[job.cp].job == job)
    else
      && s.inFlight == job.cp && Current(s) == job && job.cp !in s.pack.glyphs
      && (k == 0 ==> s.reqPending) && (k == 1 ==> s.worker.Some?) && (k == 2 ==> s.resReady)
  }

  lemma StepAdvances(s: Mail, job: Job, k: nat, e: Event)
    requires Inv(s) && job.cp != 0 && k <= 3 && OnItsWay(s, job, k) && Step(s, e).Some? && !e.Rebuild? && !AsksNul(e)
    ensures Advance(k, e) <= 3 && OnItsWay(Step(s, e).value, job, Advance(k, e))
  {
    hide WellPacked, Place;
  }

  lemma {:induction false} RunAdvances(s: Mail, job: Job, k: nat, es: seq<Event>)
    requires Inv(s) && job.cp != 0 && k <= 3 && OnItsWay(s, job, k) && Run(s, es).Some?
    requires forall e :: e in es ==> !e.Rebuild? && !AsksNul(e)
    ensures var t := Run(s, es).value;
      && (Completes(es, k) <==> job.cp in t.pack.glyphs)
      && (Completes(es, k) && t.pack.glyphs[job.cp].Inked? ==> job.cp in t.drawn && t.drawn[job.cp].job == job)
    decreases |es|
  {
    hide Inv, Step, Current;
    if es != [] {
      StepAdvances(s, job, k, es[0]);
      StepKeepsInvIff(s, es[0]);
      RunAdvances(Step(s, es[0]).value, job, Advance(k, es[0]), es[1..]);
    }
  }

  /** An accepted request is answered, with the bitmap that was asked for, by any run without a rebuild exactly when
    * that run holds the worker's taking it, the worker's publishing and the next poll, in this order. */
  lemma RequestIsAnsweredIff(s: Mail, cp: nat, vs16: bool, es: seq<Event>)
    requires Inv(s) && cp != 0 && cp !in s.pack.glyphs && s.inFlight == 0
    requires Run(Asked(s, cp, vs16), es).Some?
    requires forall e :: e in es ==> !e.Rebuild? && !AsksNul(e)
    ensures var t := Run(Asked(s, cp, vs16), es).value;
      && (cp in t.pack.glyphs <==> Completes(es, 0))
      && (cp in t.pack.glyphs && t.pack.glyphs[cp].Inked? ==> cp in t.drawn && t.drawn[cp].job == Job(cp, s.box, vs16))
  {
    hide Run, WellPacked;
    StepKeepsInvIff(s, Ask(cp, vs16));
    RunAdvances(Asked(s, cp, vs16), Job(cp, s.box, vs16), 0, es);
  }

  // ---- the size of what is filed --------------------------------------------------------------------------------

  /** Every packed bitmap, and the one on its way, has the current raster size. */
  ghost predicate Fresh(s: Mail) {
    && (s.inFlight != 0 ==> Current(s).box == s.box)
    && forall cp :: cp in s.pack.glyphs && s.pack.glyphs[cp].Inked? ==>
         cp in s.drawn && s.drawn[cp].job.box == s.box
  }

  /** A rebuild empties the map but not the mailbox. The sizes of what is filed and of what is on its way stay current
    * in every step except a change of size made while a rasterisation is in flight. */
  lemma FreshUnlessRebuiltInFlight(s: Mail, e: Event)
    requires Inv(s) && Fresh(s) && Step(s, e).Some? && !AsksNul(e)
    ensures Fresh(Step(s, e).value) <==> !(e.Rebuild? && e.newBox != s.box && s.inFlight != 0)
  {}

  /** How far the outstanding rasterisation has come. */
  function Stage(s: Mail): nat {
    if s.reqPending then 0 else if s.worker.Some? then 1 else 2
  }

  /** The request completes and the drawing succeeds; `ok` is what is known of it so far. */
  predicate FilesInk(es: seq<Event>, k: nat, ok: bool)
    decreases |es|
  {
    if k >= 3 then ok
    else es != [] && FilesInk(es[1..], Advance(k, es[0]), AfterPublish(ok, k, es[0]))
  }

  function AfterPublish(ok: bool, k: nat, e: Event): bool {
    if k == 1 && e.Publish? then e.ok else ok
  }

  /** A job from before a rebuild, and the map since: empty until the job is filed, and of the current size but for
    * it. */
  ghost predicate Overtaken(s: Mail, job: Job, k: nat, ok: bool) {
    && OnItsWay(s, job, k)
    && (k < 3 ==> s.pack == EMPTY && (k == 2 ==> s.res.ok == ok))
    && (k == 3 ==>
          && (s.pack.glyphs[job.cp].Inked? <==> ok)
          && (s.inFlight != 0 ==> Current(s).box == s.box)
          && OthersCurrent(s, job.cp))
  }

  ghost predicate OthersCurrent(s: Mail, cp: nat) {
    forall g :: g in s.pack.glyphs && s.pack.glyphs[g].Inked? && g != cp ==> g in s.drawn && s.drawn[g].job.box == s.box
  }

  lemma FirstSquareFits(side: nat)
    requires side <= MAX_BOX
    ensures Place(EMPTY.cursor, side, side).1.Some?
  {}

  lemma StepOvertakes(s: Mail, job: Job, k: nat, ok: bool, e: Event)
    requires Inv(s) && job.cp != 0 && k <= 3 && Overtaken(s, job, k, ok)
    requires Step(s, e).Some? && !e.Rebuild? && !AsksNul(e)
    ensures Advance(k, e) <= 3 && Overtaken(Step(s, e).value, job, Advance(k, e), AfterPublish(ok, k, e))
  {
    hide WellPacked, Place;
    StepAdvances(s, job, k, e);
    if s.inFlight != 0 {
      FirstSquareFits(Current(s).box);
    }
  }

  lemma {:induction false} RunOvertakes(s: Mail, job: Job, k: nat, ok: bool, es: seq<Event>)
    requires Inv(s) && job.cp != 0 && k <= 3 && Overtaken(s, job, k, ok) && Run(s, es).Some?
    requires forall e :: e in es ==> !e.Rebuild? && !AsksNul(e)
    ensures var t := Run(s, es).value;
      && Inv(t) && t.box == s.box
      && (Completes(es, k) <==> job.cp in t.pack.glyphs)
      && (FilesInk(es, k, ok) <==> job.cp in t.pack.glyphs && t.pack.glyphs[job.cp].Inked?)
      && (FilesInk(es, k, ok) ==> t.pack.glyphs[job.cp].rect.w == t.pack.glyphs[job.cp].rect.h == job.box)
      && OthersCurrent(t, job.cp)
    decreases |es|
  {
    hide WellPacked, Step, Current, Outstanding;
    if es != [] {
      StepOvertakes(s, job, k, ok, es[0]);
      StepKeepsInvIff(s, es[0]);
      StepKeepsBox(s, es[0]);
      RunOvertakes(Step(s, es[0]).value, job, Advance(k, es[0]), AfterPublish(ok, k, es[0]), es[1..]);
    }
  }

  lemma StepKeepsBox(s: Mail, e: Event)
    requires Step(s, e).Some? && !e.Rebuild?
    ensures Step(s, e).value.box == s.box
  {}

  /** A packed square whose size is not the current one. */
  ghost predicate HoldsOldSize(s: Mail) {
    exists cp :: cp in s.pack.glyphs && s.pack.glyphs[cp].Inked? && s.pack.glyphs[cp].rect.w != s.box
  }

  /** After a rebuild to another size than that of the rasterisation in flight, whatever the two threads then do: the
    * old rasterisation is filed once the worker has finished it and is polled, at its own size if it was drawn, and so
    * a square of the wrong size is in the atlas exactly when it was. */
  lemma OldSizeIsFiledIff(s: Mail, newBox: nat, es: seq<Event>)
    requires Inv(s) && s.inFlight != 0 && 0 < newBox <= MAX_BOX && newBox != Current(s).box
    requires Run(Rebuilt(s, newBox), es).Some?
    requires forall e :: e in es ==> !e.Rebuild? && !AsksNul(e)
    ensures var t, cp := Run(Rebuilt(s, newBox), es).value, s.inFlight;
      var drawn := FilesInk(es, Stage(s), s.res.ok);
      && (cp in t.pack.glyphs <==> Completes(es, Stage(s)))
      && (cp in t.pack.glyphs && t.pack.glyphs[cp].Inked? <==> drawn)
      && (drawn ==> t.pack.glyphs[cp].rect.w == t.pack.glyphs[cp].rect.h == Current(s).box)
      && (HoldsOldSize(t) <==> drawn)
  {
    hide WellPacked, Run;
    StepKeepsInvIff(s, Rebuild(newBox));
    RunOvertakes(Rebuilt(s, newBox), Current(s), Stage(s), s.res.ok, es);
  }

  /** With nothing in flight at the rebuild, or a rasterisation of the new size already, everything filed until the next
    * one is of the current size. */
  lemma CurrentSizeOtherwise(s: Mail, newBox: nat, es: seq<Event>)
    requires Inv(s) && 0 < newBox <= MAX_BOX && (s.inFlight != 0 ==> Current(s).box == newBox)
    requires Run(Rebuilt(s, newBox), es).Some?
    requires forall e :: e in es ==> !e.Rebuild? && !AsksNul(e)
    ensures !HoldsOldSize(Run(Rebuilt(s, newBox), es).value)
  {
    hide WellPacked, Run;
    StepKeepsInvIff(s, Rebuild(newBox));
    StaysFresh(Rebuilt(s, newBox), es);
  }

  lemma {:induction false} StaysFresh(s: Mail, es: seq<Event>)
    requires Inv(s) && Fresh(s) && Run(s, es).Some?
    requires forall e :: e in es ==> !e.Rebuild? && !AsksNul(e)
    ensures Inv(Run(s, es).value) && Fresh(Run(s, es).value)
    decreases |es|
  {
    hide Inv, Step, Fresh;
    if es != [] {
      StepKeepsInvIff(s, es[0]);
      FreshUnlessRebuiltInFlight(s, es[0]);
      StaysFresh(Step(s, es[0]).value, es[1..]);
    }
  }

  /** So an emoji asked for at twenty pixels is filed as a square of twenty after the size has become forty. */
  lemma OldSizeIsFiled()
    ensures var es := [Ask(0x1F600, false), Rebuild(40), Take, Publish(true), Poll]; var t := Run(Init(20), es);
      && t.Some? && t.value.box == 40
      && 0x1F600 in t.value.pack.glyphs && t.value.pack.glyphs[0x1F600] == Inked(Rect(1, 1, 20, 20))
  {
    var asked := Asked(Init(20), 0x1F600, false);
    var rebuilt := Rebuilt(asked, 40);
    var published := Published(Taken(rebuilt), true);
    assert Run(published, [Poll]) == Some(Polled(published));
    assert Run(Taken(rebuilt), [Publish(true), Poll]) == Run(published, [Poll]);
    assert Run(rebuilt, [Take, Publish(true), Poll]) == Run(Taken(rebuilt), [Publish(true), Poll]);
    assert Run(asked, [Rebuild(40), Take, Publish(true), Poll]) == Run(rebuilt, [Take, Publish(true), Poll]);
  }

  // ---- the two threads' code ------------------------------------------------------------------------------------

  class ColorMailbox {
    var reqPending: bool
    var req: Job
    var inFlight: nat
    var resReady: bool
    var res: Bitmap
    var worker: Option<Job>
    var box: nat
    var glyphs: map<nat, Entry>
    var curX: nat
    var curY: nat
    var rowH: nat
    ghost var drawn: map<nat, Bitmap>

    ghost function View(): Mail
      reads this
    {
      Mail(reqPending, req, inFlight, resReady, res, worker, box, Pack(Cursor(curX, curY, rowH), glyphs), drawn)
    }

    constructor (size: nat)
      ensures View() == Init(size)
    {
      reqPending, req, inFlight, resReady, res := false, NO_JOB, 0, false, Bitmap(NO_JOB, false);
      worker, box, glyphs, curX, curY, rowH := None, size, map[], 1, 1, 0;
      drawn := map[];
    }

    /** Worker: wait for a request and take it. */
    method TakeRequest()
      requires worker.None? && reqPending
      modifies this
      ensures View() == Taken(old(View()))
    {
      worker := Some(req);
      reqPending := false;
    }

    /** Worker: hand the finished bitmap over. */
    method PublishResult(ok: bool)
      requires worker.Some?
      modifies this
      ensures View() == Published(old(View()), ok)
    {
      res := Bitmap(worker.value, ok);
      reqPending := false;
      resReady := true;
      worker := None;
    }

    /** Render thread: pack a finished bitmap, if there is one. */
    method PollColorResults()
      modifies this
      ensures View() == Polled(old(View()))
    {
      if !resReady {
        return;
      }
      var cp := inFlight;
      var b := res;
      resReady := false;
      inFlight := 0;
      if cp == 0 {
        return;
      }
      FileBitmap(cp, b);
    }

    method FileBitmap(cp: nat, b: Bitmap)
      modifies this`glyphs, this`drawn, this`curX, this`curY, this`rowH
      ensures View() == Filed(old(View()), cp, b)
    {
      var side := b.job.box;
      if !b.ok || side <= 0 {
        glyphs := glyphs[cp := Blank];
        return;
      }
      if curX + side + 1 >= ATLAS_W {
        curX := 1;
        curY := curY + rowH + 2;
        rowH := 0;
      }
      if curY + side + 1 >= ATLAS_H {
        glyphs := glyphs[cp := Blank];
        return;
      }
      glyphs := glyphs[cp := Inked(Rect(curX, curY, side, side))];
      drawn := drawn[cp := b];
      curX := curX + side + 2;
      rowH := if rowH < side then side else rowH;
    }

    /** Render thread: what a lookup answers. The worker may run between the poll and the request, which is why the run
      * theorem treats them as two steps. */
    method ColorAtlasForLazy(cp: nat, vs16: bool, emoji: bool) returns (entry: Option<Rect>)
      modifies this
      ensures !emoji && !vs16 ==> entry == None && View() == old(View())
      ensures (emoji || vs16) && cp in old(glyphs) ==> View() == old(View())
      ensures (emoji || vs16) && cp !in old(glyphs) ==>
                var p := Polled(old(View()));
                View() == if cp in p.pack.glyphs then p else Asked(p, cp, vs16)
      ensures emoji || vs16 ==>
                entry ==
                if cp in glyphs && glyphs[cp].Inked? && 0 < glyphs[cp].rect.w then Some(glyphs[cp].rect) else None
    {
      if !emoji && !vs16 {
        return None;
      }
      if cp !in glyphs {
        PollColorResults();
        if cp !in glyphs {
          if !reqPending && !resReady && inFlight == 0 {
            inFlight := cp;
            req := Job(cp, box, vs16);
            reqPending := true;
          }
          return None;
        }
      }
      return if glyphs[cp].Inked? && 0 < glyphs[cp].rect.w then Some(glyphs[cp].rect) else None;
    }
  }
}
