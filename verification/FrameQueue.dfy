/** The host frame queue (src/amberx/AmberXController.cpp): a reader thread feeds it, a manual-reset event is held high
  * while there is something to read, and one session loop polls it.
  *
  * Every section under the queue's mutex is one step. A poll that finds nothing and may wait is three steps, with the
  * reader free to run between them: its first look, its wait ending, and its second look.
  */
module FrameQueue {
  import opened Arithmetic
  import opened Wrappers

  /** What ReadFrame and Poll report; only Ok carries a frame. */
  datatype PipeRead = Ok | Timeout | Closed | Broken

  datatype Queued<F> = Queued(frame: F, arrived: nat)

  /** The poll in progress: none, blocked on the event, or woken for the second look. */
  datatype Consumer = Idle | Waiting | Woken(byEvent: bool)

  datatype Queue<F> = Queue(
    q: seq<Queued<F>>, readable: bool, end: PipeRead, running: bool,
    waitSum: nat, waitMax: nat, waited: nat,
    consumer: Consumer,
    read: seq<F>,                    // every frame the pipe has delivered, in order
    delivered: seq<F>,               // every frame Poll has returned, in order
    results: seq<PipeRead>,          // every result Poll has returned, in order
    picked: seq<Pickup>)             // the frames delivered since QueueWait was last read

  /** When a frame came and when it was picked up. */
  datatype Pickup = Pickup(arrived: nat, taken: nat)

  datatype Event<F> =
    | PipeFrame(frame: F, now: nat)    // ReadFrame returned a frame
    | PipeEnd(code: PipeRead)          // ReadFrame failed for good
    | PipeIdle                         // ReadFrame timed out
    | Stopped                          // the reader saw the stop request
    | FirstLook(mayWait: bool, now: nat)
    | EventHigh                        // the wait ended because the event was high
    | WaitExpired                      // the wait ended because its time was up
    | SecondLook(now: nat)
    | TakeStats                        // QueueWait: read the pickup latency and zero it

  function Init<F>(): Queue<F> {
    Queue([], false, Ok, true, 0, 0, 0, Idle, [], [], [], [])
  }

  // ---- the sections under the mutex -----------------------------------------------------------------------------

  /** The reader's section: queue a frame or record the end, and raise the event either way. */
  function Arrived<F>(s: Queue<F>, frame: F, now: nat): Queue<F> {
    s.(q := s.q + [Queued(frame, now)], readable := true, read := s.read + [frame])
  }

  function Ended<F>(s: Queue<F>, code: PipeRead): Queue<F> {
    s.(end := code, readable := true, running := false)
  }

  function Waited(now: nat, arrived: nat): nat {
    if now > arrived then now - arrived else 0
  }

  /** The consumer's section: the oldest frame, else the end code, else nothing. */
  function Looked<F>(s: Queue<F>, now: nat): (Queue<F>, PipeRead) {
    if s.q != [] then
      var w := Waited(now, s.q[0].arrived);
      (s.(q := s.q[1..], waitSum := s.waitSum + w, waitMax := Max(s.waitMax, w), waited := s.waited + 1,
          readable := s.readable && !(|s.q| == 1 && s.end == Ok),
          delivered := s.delivered + [s.q[0].frame], picked := s.picked + [Pickup(s.q[0].arrived, now)]), Ok)
    else (s, if s.end == Ok then Timeout else s.end)
  }

  function Report<F>(s: Queue<F>, r: PipeRead): Queue<F> {
    s.(consumer := Idle, results := s.results + [r])
  }

  /** None when the thread concerned cannot take the step now. */
  function Step<F>(s: Queue<F>, e: Event<F>): Option<Queue<F>> {
    match e
    case PipeFrame(f, now) => if s.running then Some(Arrived(s, f, now)) else None
    case PipeEnd(code) => if s.running && code != Ok && code != Timeout then Some(Ended(s, code)) else None
    case PipeIdle => if s.running then Some(s) else None
    case Stopped => if s.running then Some(s.(running := false)) else None
    case FirstLook(mayWait, now) =>
      if s.consumer != Idle then None
      else
        var (t, r) := Looked(s, now);
        Some(if r == Timeout && mayWait then t.(consumer := Waiting) else Report(t, r))
    case EventHigh => if s.consumer == Waiting && s.readable then Some(s.(consumer := Woken(true))) else None
    case WaitExpired => if s.consumer == Waiting then Some(s.(consumer := Woken(false))) else None
    case SecondLook(now) =>
      if !s.consumer.Woken? then None
      else
        var (t, r) := Looked(s, now);
        Some(Report(t, r))
    case TakeStats => Some(s.(waitSum := 0, waitMax := 0, waited := 0, picked := []))
  }

  function Run<F>(s: Queue<F>, es: seq<Event<F>>): Option<Queue<F>>
    decreases |es|
  {
    if es == [] then Some(s)
    else if Step(s, es[0]).None? then None
    else Run(Step(s, es[0]).value, es[1..])
  }

  // ---- what every run keeps -------------------------------------------------------------------------------------

  function Frames<F>(q: seq<Queued<F>>): seq<F> {
    seq(|q|, i requires 0 <= i < |q| => q[i].frame)
  }

  /** How often Poll reported Ok. */
  function Oks(results: seq<PipeRead>): nat {
    if results == [] then 0 else Oks(results[..|results| - 1]) + (if results[|results| - 1] == Ok then 1 else 0)
  }

  /** How long a frame lay in the queue; a clock that ran backwards counts for nothing. */
  function Delay(p: Pickup): nat {
    Max(p.arrived, p.taken) - p.arrived
  }

  function Delays(ps: seq<Pickup>): nat {
    if ps == [] then 0 else Delays(ps[..|ps| - 1]) + Delay(ps[|ps| - 1])
  }

  /** The statistics are those of the frames delivered since they were last read: how many, how long they waited
    * together, and the longest wait of them. */
  ghost predicate Counted(waited: nat, waitSum: nat, waitMax: nat, picked: seq<Pickup>) {
    && waited == |picked| && waitSum == Delays(picked)
    && (forall p :: p in picked ==> Delay(p) <= waitMax)
    && (if picked == [] then waitMax == 0 else exists p :: p in picked && Delay(p) == waitMax)
  }

  ghost predicate Inv<F>(s: Queue<F>) {
    && s.delivered + Frames(s.q) == s.read
    && (s.readable <==> s.q != [] || s.end != Ok)
    && s.end != Timeout && (s.end != Ok ==> !s.running)
    && (s.consumer == Woken(true) ==> s.readable)
    && Oks(s.results) == |s.delivered|
    && Counted(s.waited, s.waitSum, s.waitMax, s.picked)
    && (forall i :: 0 <= i < |s.results| && s.results[i] != Ok && s.results[i] != Timeout ==>
          s.end == s.results[i] && s.q == [] && s.delivered == s.read)
  }

  lemma LookKeepsInv<F>(s: Queue<F>, now: nat)
    requires Inv(s)
    ensures var (t, r) := Looked(s, now);
      && Inv(Report(t, r)) && Inv(t.(consumer := Waiting, results := s.results + if r == Ok then [r] else []))
      && (r == Ok <==> s.q != [])
      && (r == Timeout <==> !s.readable)
  {
    hide Counted, Waited, Max;
    var (t, r) := Looked(s, now);
    assert (s.results + [r])[..|s.results|] == s.results;
    if s.q != [] {
      assert Frames(s.q) == [s.q[0].frame] + Frames(t.q);
      PickupCounts(s.waited, s.waitSum, s.waitMax, s.picked, Pickup(s.q[0].arrived, now));
    } else {
      assert s.results + [] == s.results;
    }
  }

  lemma PickupCounts(waited: nat, sum: nat, max: nat, picked: seq<Pickup>, p: Pickup)
    requires Counted(waited, sum, max, picked)
    ensures Counted(waited + 1, sum + Waited(p.taken, p.arrived), Max(max, Waited(p.taken, p.arrived)), picked + [p])
  {
    var more := picked + [p];
    assert more[..|picked|] == picked && more[|picked|] == p;
    if picked != [] && Delay(p) < max {
      var longest :| longest in picked && Delay(longest) == max;
      assert longest in more;
    } else {
      assert p in more;
    }
  }

  lemma {:induction false} DelaysBounded(ps: seq<Pickup>, max: nat)
    requires forall p :: p in ps ==> Delay(p) <= max
    ensures Delays(ps) <= max * |ps|
  {
    if ps != [] {
      DelaysBounded(ps[..|ps| - 1], max);
      Distribute(max, 0, |ps| - 1);
      assert max * |ps| == max * (|ps| - 1) + max;
    }
  }

  lemma StepKeepsInv<F>(s: Queue<F>, e: Event<F>)
    requires Inv(s) && Step(s, e).Some?
    ensures Inv(Step(s, e).value)
  {
    hide Counted, Looked;
    match e
    case TakeStats =>
      NothingCounted();
    case PipeFrame(f, now) =>
      assert Frames(s.q + [Queued(f, now)]) == Frames(s.q) + [f];
    case FirstLook(_, now) =>
      LookKeepsInv(s, now);
    case SecondLook(now) =>
      LookKeepsInv(s, now);
    case _ =>
  }

  lemma NothingCounted()
    ensures Counted(0, 0, 0, [])
  {}

  lemma StepOnlyAdds<F>(s: Queue<F>, e: Event<F>)
    requires Step(s, e).Some?
    ensures s.delivered <= Step(s, e).value.delivered && s.results <= Step(s, e).value.results
  {}

  lemma InitHasInv<F>()
    ensures Inv(Init<F>())
  {}

  /** In every interleaving of the reader and the session loop: the frames delivered, then those queued, are exactly
    * those the pipe read, in order; the event is high exactly when a frame is queued or the reader has ended; and an
    * end code is reported only after every frame has been delivered. */
  lemma {:induction false} QueueSafe<F>(s: Queue<F>, es: seq<Event<F>>)
    requires Inv(s) && Run(s, es).Some?
    ensures Inv(Run(s, es).value)
    ensures s.delivered <= Run(s, es).value.delivered && s.results <= Run(s, es).value.results
    decreases |es|
  {
    hide Inv, Step;
    if es != [] {
      StepKeepsInv(s, es[0]);
      StepOnlyAdds(s, es[0]);
      QueueSafe(Step(s, es[0]).value, es[1..]);
    }
  }

  /** A poll woken by the event never reports Timeout: nothing but the poll itself lowers the event. */
  lemma WokenPollNeverTimesOut<F>(s: Queue<F>, now: nat)
    requires Inv(s) && s.consumer == Woken(true)
    ensures var t := Step(s, SecondLook(now)).value;
      t.results == s.results + [Looked(s, now).1] && Looked(s, now).1 != Timeout
  {}

  /** What the reader does while a poll sleeps or has just been woken never lowers the event. */
  lemma ReaderKeepsEventHigh<F>(s: Queue<F>, e: Event<F>)
    requires s.readable && Step(s, e).Some? && !e.FirstLook? && !e.SecondLook?
    ensures Step(s, e).value.readable
  {}

  /** After the end code has been reported once, every later poll reports it again and nothing more is delivered. */
  lemma EndIsFinal<F>(s: Queue<F>, i: nat, mayWait: bool, now: nat)
    requires Inv(s) && i < |s.results| && s.results[i] != Ok && s.results[i] != Timeout && s.consumer == Idle
    ensures var t := Step(s, FirstLook(mayWait, now));
      t.Some? && t.value.results == s.results + [s.results[i]] && t.value.delivered == s.delivered
  {}

  /** The average pickup latency reported never exceeds the maximum. */
  lemma AverageWithinMaximum<F>(s: Queue<F>)
    requires Inv(s) && 0 < s.waited
    ensures s.waitSum / s.waited <= s.waitMax
  {
    DelaysBounded(s.picked, s.waitMax);
    QuotientWithin(s.waitSum, s.waited, s.waitMax);
  }

  lemma QuotientWithin(sum: nat, n: nat, max: nat)
    requires 0 < n && sum <= max * n
    ensures sum / n <= max
  {
    StepsFit(sum / n, n, sum);
    if max < sum / n {
      MoreSteps(max + 1, sum / n, n);
      Distribute(max, 1, n);
    }
  }

  /** A poll in progress can always be finished, whatever the reader does: it reports once, and then another may
    * begin. */
  lemma PollCanEnd<F>(s: Queue<F>, now: nat)
    requires s.consumer != Idle
    ensures var rest: seq<Event<F>> := [SecondLook(now)];
      var es := if s.consumer == Waiting then [WaitExpired] + rest else rest;
      Run(s, es).Some? && Run(s, es).value.consumer == Idle && |Run(s, es).value.results| == |s.results| + 1
  {
    if s.consumer == Waiting {
      var t := Step(s, WaitExpired).value;
      assert Run(t, [SecondLook(now)]) == Step(t, SecondLook(now)) by { RunOne(t, SecondLook(now)); }
    } else {
      RunOne(s, SecondLook(now));
    }
  }

  lemma RunOne<F>(s: Queue<F>, e: Event<F>)
    ensures Run(s, [e]) == Step(s, e)
  {
    hide Step;
    if Step(s, e).Some? {
      assert Run(Step(s, e).value, []) == Step(s, e);
    }
  }

  function Looks<F>(es: seq<Event<F>>): nat {
    if es == [] then 0 else (if es[0].FirstLook? then 1 else 0) + Looks(es[1..])
  }

  function Unreported<F>(s: Queue<F>): nat {
    if s.consumer == Idle then 0 else 1
  }

  /** Over any run every poll reports exactly once, but for the one that may be in progress. */
  lemma {:induction false} EveryPollReports<F>(s: Queue<F>, es: seq<Event<F>>)
    requires Run(s, es).Some?
    ensures var t := Run(s, es).value;
      |t.results| + Unreported(t) == |s.results| + Unreported(s) + Looks(es)
    decreases |es|
  {
    if es != [] {
      EveryPollReports(Step(s, es[0]).value, es[1..]);
    }
  }

  function Arrivals<F>(fs: seq<F>, now: nat): seq<Event<F>> {
    seq(|fs|, i requires 0 <= i < |fs| => PipeFrame(fs[i], now))
  }

  function Polls<F>(n: nat, now: nat): seq<Event<F>> {
    seq(n, _ => FirstLook(false, now))
  }

  /** From the start, any frames the pipe delivers are handed out, all of them and in order, by as many polls. */
  lemma FramesGetThrough<F>(fs: seq<F>, came: nat, now: nat)
    ensures var t := Run(Init(), Arrivals(fs, came) + Polls(|fs|, now));
      t.Some? && t.value.delivered == fs && t.value.q == [] && t.value.running && !t.value.readable
  {
    hide Step, Inv;
    InitHasInv<F>();
    assert Init<F>().read + fs == fs;
    AllArrive(Init(), fs, came, Polls(|fs|, now));
    var s := Run(Init(), Arrivals(fs, came)).value;
    assert Arrivals(fs, came) + [] == Arrivals(fs, came);
    AllArrive(Init(), fs, came, []);
    QueueSafe(Init(), Arrivals(fs, came));
    AllPicked(s, now);
  }

  /** The frames come in, whatever is done afterwards. */
  lemma {:induction false} AllArrive<F>(s: Queue<F>, fs: seq<F>, now: nat, more: seq<Event<F>>)
    requires s.running && s.end == Ok && s.consumer == Idle
    ensures var t := Run(s, Arrivals(fs, now));
      && t.Some? && t.value.running && t.value.end == Ok && t.value.consumer == Idle
      && t.value.read == s.read + fs && |t.value.q| == |s.q| + |fs| && t.value.delivered == s.delivered
      && Run(s, Arrivals(fs, now) + more) == Run(t.value, more)
    decreases |fs|
  {
    if fs == [] {
      assert Arrivals(fs, now) == [] && Arrivals(fs, now) + more == more && s.read + fs == s.read;
    } else {
      var es, t := Arrivals(fs, now), Step(s, PipeFrame(fs[0], now)).value;
      assert es[0] == PipeFrame(fs[0], now) && es[1..] == Arrivals(fs[1..], now);
      assert (es + more)[1..] == es[1..] + more;
      AllArrive(t, fs[1..], now, more);
      assert s.read + [fs[0]] + fs[1..] == s.read + fs;
    }
  }

  lemma NothingWaits<F>(s: Queue<F>)
    requires Inv(s) && s.running && s.q == []
    ensures s.delivered == s.read && !s.readable
  {
    assert s.delivered + Frames(s.q) == s.delivered;
  }

  lemma PollPicks<F>(s: Queue<F>, now: nat)
    requires Inv(s) && s.running && s.consumer == Idle && s.q != []
    ensures Step(s, FirstLook(false, now)).Some?
    ensures var t := Step(s, FirstLook(false, now)).value;
      Inv(t) && t.running && t.consumer == Idle && t.read == s.read && |t.q| == |s.q| - 1
  {
    StepKeepsInv(s, FirstLook(false, now));
  }

  /** As many polls as there are frames queued hand them all out. */
  lemma {:induction false} AllPicked<F>(s: Queue<F>, now: nat)
    requires Inv(s) && s.running && s.consumer == Idle
    ensures var t := Run(s, Polls(|s.q|, now));
      t.Some? && t.value.q == [] && t.value.delivered == s.read && t.value.running && !t.value.readable
    decreases |s.q|
  {
    hide Inv, Step;
    if s.q == [] {
      assert Polls<F>(0, now) == [];
      NothingWaits(s);
    } else {
      PollPicks(s, now);
      var t := Step(s, FirstLook(false, now)).value;
      var es := Polls<F>(|s.q|, now);
      assert es[0] == FirstLook(false, now) && es[1..] == Polls(|t.q|, now);
      AllPicked(t, now);
    }
  }

  // ---- the two threads' code ------------------------------------------------------------------------------------

  class Reader<F> {
    var q: seq<Queued<F>>
    var readable: bool
    var end: PipeRead
    var running: bool
    var waitSum: nat
    var waitMax: nat
    var waited: nat
    ghost var consumer: Consumer
    ghost var read: seq<F>
    ghost var delivered: seq<F>
    ghost var results: seq<PipeRead>
    ghost var picked: seq<Pickup>

    ghost function View(): Queue<F>
      reads this
    {
      Queue(q, readable, end, running, waitSum, waitMax, waited, consumer, read, delivered, results,
            picked)
    }

    constructor ()
      ensures View() == Init()
    {
      q, readable, end, running, waitSum, waitMax, waited := [], false, Ok, true, 0, 0, 0;
      consumer, read, delivered, results, picked := Idle, [], [], [], [];
    }

    /** One turn of the reader thread, given what the pipe answered; true when the thread goes on. */
    method ReaderTurn(rc: PipeRead, frame: F, stop: bool, now: nat) returns (more: bool)
      requires running
      modifies this
      ensures Step(old(View()), if stop then Stopped else match rc
                                case Ok => PipeFrame(frame, now)
                                case Timeout => PipeIdle
                                case _ => PipeEnd(rc)) == Some(View())
      ensures more == running
    {
      if stop {
        running := false;
        return false;
      }
      if rc == Timeout {
        return true;
      }
      if rc == Ok {
        q := q + [Queued(frame, now)];
        read := read + [frame];
      } else {
        end := rc;
      }
      readable := true;
      if rc != Ok {
        running := false;
        return false;
      }
      return true;
    }

    method Count(arrived: nat, now: nat)
      modifies this`waitSum, this`waitMax, this`waited, this`picked
      ensures waitSum == old(waitSum) + Waited(now, arrived) && waitMax == Max(old(waitMax), Waited(now, arrived))
      ensures waited == old(waited) + 1 && picked == old(picked) + [Pickup(arrived, now)]
    {
      var w := if now > arrived then now - arrived else 0;
      waitSum := waitSum + w;
      if w > waitMax {
        waitMax := w;
      }
      waited := waited + 1;
      picked := picked + [Pickup(arrived, now)];
    }

    /** The locked part of a poll: what it found, Timeout when there was nothing to report. */
    method Look(now: nat) returns (r: PipeRead, frame: Option<F>)
      modifies this
      ensures (View(), r) == Looked(old(View()), now)
      ensures frame == if r == Ok then Some(old(q)[0].frame) else None
    {
      if q != [] {
        hide Max, Waited;
        var front := q[0];
        q := q[1..];
        delivered := delivered + [front.frame];
        Count(front.arrived, now);
        if q == [] && end == Ok {
          readable := false;
        }
        return Ok, Some(front.frame);
      }
      if end != Ok {
        return end, None;
      }
      return Timeout, None;
    }
  }
}
