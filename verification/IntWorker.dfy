/**
 * The deferred-interrupt worker: interrupts queue their data and wake the worker; the worker drains the queue. The
 * worker runs as a machine of small steps, and an interrupt may arrive between any two of them while interrupts are
 * enabled.
 */
module IntWorker {
  import opened RingBuffer

  const RING_SIZE := 4096

  datatype IsrData = IsrData(interrupt: int, registers: seq<int>)

  /** Where the worker is in its loop. */
  datatype Place =
    | Disable | Check | SetWaiting | EnableYield | Yield | EnableAgain | AssertNotFull | ClearPending
    | TestEmpty | Copy | Advance | Handle
    | Panicked

  datatype State = Running | Ready | Waiting

  datatype World = World(
    buffer: seq<IsrData>, start: int, end: int,
    pending: bool,
    place: Place,
    data: IsrData,             // the worker's local copy
    state: State,
    current: bool,             // the worker is the running task
    enabled: bool,             // interrupts
    queued: seq<IsrData>,      // history: everything interrupts have queued
    handled: seq<IsrData>)     // history: everything handled, in order

  ghost predicate WellFormed(w: World) {
    |w.buffer| == RING_SIZE && 0 <= w.start < RING_SIZE && 0 <= w.end < RING_SIZE
  }

  ghost function Queue(w: World): (q: seq<IsrData>)
    requires WellFormed(w)
    ensures |q| < RING_SIZE
    ensures q == [] <==> w.start == w.end
    ensures |q| == RING_SIZE - 1 <==> Next(w.end, RING_SIZE) == w.start
  {
    Items(w.buffer, w.start, w.end)
  }

  // ---- steps ----

  datatype Event =
    | Work                         // the worker's next step
    | Interrupt(data: IsrData)     // int_worker_add
    | Preempt                      // the timer takes the processor from the worker
    | Dispatch                     // the scheduler chooses the worker

  predicate Possible(w: World, e: Event) {
    match e
    case Work => w.current && w.place != Panicked
    case Interrupt(_) => w.enabled && w.place != Panicked
    case Preempt => w.current && w.enabled && w.place != Panicked
    case Dispatch => !w.current && w.state != Waiting
  }

  /** One step of int_worker_task. */
  function WorkStep(w: World): World
    requires |w.buffer| == RING_SIZE && 0 <= w.start < RING_SIZE && 0 <= w.end < RING_SIZE
  {
    match w.place
    case Disable => w.(enabled := false, place := Check)
    case Check => w.(place := if !w.pending then SetWaiting else EnableAgain)
    case SetWaiting => w.(state := Waiting, place := EnableYield)
    case EnableYield => w.(enabled := true, place := Yield)
    case Yield => GiveWay(w).(place := EnableAgain)
    case EnableAgain => w.(enabled := true, place := AssertNotFull)
    case AssertNotFull => w.(place := if Next(w.end, RING_SIZE) == w.start then Panicked else ClearPending)
    case ClearPending => w.(pending := false, place := TestEmpty)
    case TestEmpty => w.(place := if w.start == w.end then Disable else Copy)
    case Copy => w.(data := w.buffer[w.start], place := Advance)
    case Advance => w.(start := Next(w.start, RING_SIZE), place := Handle)
    case Handle => w.(handled := w.handled + [w.data], place := TestEmpty)
    case Panicked => w
  }

  /** Another task becomes current; only a running task is put back among the ready ones. */
  function GiveWay(w: World): World {
    w.(current := false, state := if w.state == Running then Ready else w.state)
  }

  /** int_worker_add; the push is one step, for the interrupt runs with interrupts disabled. */
  function InterruptStep(w: World, d: IsrData): World
    requires |w.buffer| == RING_SIZE && 0 <= w.start < RING_SIZE && 0 <= w.end < RING_SIZE
  {
    if Next(w.end, RING_SIZE) == w.start then w.(place := Panicked)
    else w.(buffer := w.buffer[w.end := d], end := Next(w.end, RING_SIZE), pending := true, state := Ready,
      queued := w.queued + [d])
  }

  function Step(w: World, e: Event): World
    requires |w.buffer| == RING_SIZE && 0 <= w.start < RING_SIZE && 0 <= w.end < RING_SIZE
  {
    match e
    case Work => WorkStep(w)
    case Interrupt(d) => InterruptStep(w, d)
    case Preempt => GiveWay(w)
    case Dispatch => w.(current := true, state := Running)
  }

  // ---- invariant ----

  predicate Draining(p: Place) {
    p == TestEmpty || p == Copy || p == Advance || p == Handle
  }

  /** What the worker has taken off the queue and not handled yet. */
  function InFlight(w: World): seq<IsrData> {
    if w.place == Handle then [w.data] else []
  }

  ghost predicate Inv(w: World) {
    && WellFormed(w)
    && (w.place != Panicked ==>
      && w.queued == w.handled + InFlight(w) + Queue(w)
      && (Queue(w) != [] ==> w.pending || Draining(w.place))
      && (w.state == Waiting ==>
        !w.pending && Queue(w) == [] && (w.place == EnableYield || w.place == Yield || w.place == EnableAgain))
      && (w.state == Waiting && w.place == EnableAgain ==> !w.current)
      && (w.place == SetWaiting ==> !w.pending)
      && (!w.enabled ==>
        w.current && (w.place == Check || w.place == SetWaiting || w.place == EnableYield || w.place == EnableAgain))
      && (w.place == Check || w.place == SetWaiting || w.place == EnableYield ==> !w.enabled)
      && (w.place == Copy || w.place == Advance ==> w.start != w.end)
      && (w.place == Advance ==> w.data == w.buffer[w.start])
      && (!w.current ==> w.state != Running))
  }

  function Init(blank: IsrData): World {
    World(seq(RING_SIZE, _ => blank), 0, 0, false, Disable, blank, Ready, false, true, [], [])
  }

  lemma AdvanceKeeps(w: World)
    requires Inv(w) && w.place == Advance && w.current
    ensures Inv(WorkStep(w))
  {
    hide Items;
    ItemsPopped(w.buffer, w.start, w.end);
  }

  lemma DrainKeeps(w: World)
    requires Inv(w) && w.place != Advance && Draining(w.place) && w.current
    ensures Inv(WorkStep(w))
  {
    hide Items;
  }

  lemma WorkKeeps(w: World)
    requires Inv(w) && Possible(w, Work)
    ensures Inv(WorkStep(w))
  {
    hide Items;
    if w.place == Advance {
      AdvanceKeeps(w);
    } else if Draining(w.place) {
      DrainKeeps(w);
    }
  }

  lemma InterruptKeeps(w: World, d: IsrData)
    requires Inv(w) && Possible(w, Interrupt(d))
    ensures Inv(InterruptStep(w, d))
  {
    hide Items;
    if Next(w.end, RING_SIZE) != w.start {
      ItemsPushed(w.buffer, w.start, w.end, d);
    }
  }

  lemma StepKeeps(w: World, e: Event)
    requires Inv(w) && Possible(w, e)
    ensures Inv(Step(w, e))
  {
    match e
    case Work => WorkKeeps(w);
    case Interrupt(d) => InterruptKeeps(w, d);
    case Preempt =>
    case Dispatch =>
  }

  // ---- runs ----

  /** A run from the start; the steps themselves keep every state well formed. */
  ghost predicate IsRun(ws: seq<World>, es: seq<Event>, blank: IsrData) {
    && |ws| == |es| + 1
    && ws[0] == Init(blank)
    && forall i :: 0 <= i < |es| ==> WellFormed(ws[i]) && Possible(ws[i], es[i]) && ws[i + 1] == Step(ws[i], es[i])
  }

  lemma {:induction false} RunKeeps(ws: seq<World>, es: seq<Event>, blank: IsrData, i: nat)
    requires IsRun(ws, es, blank) && i < |ws|
    ensures Inv(ws[i])
  {
    if i > 0 {
      RunKeeps(ws, es, blank, i - 1);
      StepKeeps(ws[i - 1], es[i - 1]);
    }
  }

  /** In every interleaving: no wake-up is lost, the worker waits only on an empty queue, and what has been handled is a
      first-in first-out prefix of what has been queued, each once. */
  lemma NoLostWakeUp(ws: seq<World>, es: seq<Event>, blank: IsrData, i: nat)
    requires IsRun(ws, es, blank) && i < |ws| && ws[i].place != Panicked
    ensures WellFormed(ws[i])
    ensures Queue(ws[i]) != [] ==> ws[i].pending || Draining(ws[i].place)
    ensures Queue(ws[i]) != [] ==> ws[i].state != Waiting
    ensures ws[i].queued == ws[i].handled + InFlight(ws[i]) + Queue(ws[i])
    ensures ws[i].handled <= ws[i].queued
  {
    RunKeeps(ws, es, blank, i);
  }

  /** The kernel stops exactly when the queue holds 4095 elements and either one more interrupt comes or the worker
      checks that the queue is not full. */
  lemma PanicsExactly(w: World, e: Event)
    requires Inv(w) && w.place != Panicked && Possible(w, e)
    ensures Step(w, e).place == Panicked <==>
      |Queue(w)| == RING_SIZE - 1 && (e.Interrupt? || (e.Work? && w.place == AssertNotFull))
  {
  }

  // ---- progress ----

  /** Left alone, the worker is dispatched if it is not running and then works. */
  function Alone(w: World): Event {
    if w.current then Work else Dispatch
  }

  /** Steps the worker needs, left alone, until it has drained the queue. */
  function Distance(w: World): nat {
    match w.place
    case Handle => 1
    case Advance => 2
    case Copy => 3
    case TestEmpty => 4
    case ClearPending => 5
    case AssertNotFull => 6
    case EnableAgain => 7
    case Yield => 8
    case EnableYield => 9
    case SetWaiting => 10
    case Check => 11
    case Disable => 12
    case Panicked => 0
  }

  ghost function Drained(w: World, n: nat): World
    requires Inv(w)
    decreases n
  {
    if n == 0 || w.place == Panicked || !Possible(w, Alone(w)) then w
    else
      StepKeeps(w, Alone(w));
      Drained(Step(w, Alone(w)), n - 1)
  }

  /** The worker will not panic on a full queue: it has room, or its check is passed. */
  ghost predicate WillDrain(w: World)
    requires WellFormed(w)
  {
    w.place != Panicked && (|Queue(w)| < RING_SIZE - 1 || w.place == ClearPending || Draining(w.place))
  }

  /** One step of the worker alone keeps it so ... */
  lemma AloneKeeps(w: World)
    requires Inv(w) && WillDrain(w) && (Queue(w) != [] || InFlight(w) != [])
    ensures
      var w' := Step(w, Alone(w));
      Possible(w, Alone(w)) && Inv(w') && WillDrain(w') && w'.queued == w.queued
  {
    hide Items;
    StepKeeps(w, Alone(w));
    if w.current && w.place == Advance {
      ItemsPopped(w.buffer, w.start, w.end);
    }
  }

  /** ... and brings it closer to the empty queue. */
  lemma AloneProgress(w: World)
    requires Inv(w) && WillDrain(w) && (Queue(w) != [] || InFlight(w) != []) && WellFormed(Step(w, Alone(w)))
    ensures
      var w' := Step(w, Alone(w));
      var n, n' := |Queue(w)| + |InFlight(w)|, |Queue(w')| + |InFlight(w')|;
      n' < n || (n' == n && (Distance(w') < Distance(w) || (Distance(w') == Distance(w) && w'.current && !w.current)))
  {
    hide Items;
    if w.current && w.place == Advance {
      ItemsPopped(w.buffer, w.start, w.end);
    }
  }

  ghost predicate Idle(w: World)
    requires WellFormed(w)
  {
    w.place != Panicked && Queue(w) == [] && InFlight(w) == []
  }

  predicate Asleep(w: World) {
    w.state == Waiting && !w.current
  }

  /** Steps an idle worker needs, left alone, until it waits off the processor. */
  function ToSleep(w: World): nat {
    if Asleep(w) then 0
    else match w.place
    case Yield => if w.state == Waiting then 1 else if w.pending then 14 else 10
    case EnableYield => if w.state == Waiting then 2 else if w.pending then 15 else 11
    case SetWaiting => 3
    case Check => if w.pending then 14 else 4
    case Disable => if w.pending then 15 else 5
    case TestEmpty => if w.pending then 16 else 6
    case ClearPending => if w.pending then 11 else 7
    case AssertNotFull => if w.pending then 12 else 8
    case EnableAgain => if w.pending then 13 else 9
    case _ => 0
  }

  lemma IdleStep(w: World)
    requires Inv(w) && Idle(w) && !Asleep(w)
    ensures
      var w' := Step(w, Alone(w));
      && Possible(w, Alone(w)) && Inv(w') && Idle(w') && w'.queued == w.queued && w'.handled == w.handled
      && (ToSleep(w') < ToSleep(w) || (ToSleep(w') == ToSleep(w) && w'.current && !w.current))
  {
    hide Items;
    StepKeeps(w, Alone(w));
    IdleCloser(w);
  }

  lemma IdleCloser(w: World)
    requires Inv(w) && Idle(w) && !Asleep(w) && Possible(w, Alone(w))
    ensures
      var w' := Step(w, Alone(w));
      ToSleep(w') < ToSleep(w) || (ToSleep(w') == ToSleep(w) && w'.current && !w.current)
  {
    hide Items;
  }

  /** Once interrupts stop, the worker handles everything queued and then waits, off the processor: it does not spin. */
  lemma {:induction false} FallsAsleep(w: World) returns (n: nat)
    requires Inv(w) && WillDrain(w)
    ensures Asleep(Drained(w, n)) && Drained(w, n).queued == w.queued && Drained(w, n).handled == w.queued
    decreases |Queue(w)| + |InFlight(w)|, if Idle(w) then ToSleep(w) else Distance(w), if w.current then 0 else 1
  {
    hide Items;
    if Idle(w) && Asleep(w) {
      n := 0;
    } else {
      hide Step, Possible;
      if Idle(w) {
        IdleStep(w);
      } else {
        AloneKeeps(w);
        AloneProgress(w);
      }
      var m := FallsAsleep(Step(w, Alone(w)));
      n := m + 1;
    }
  }

  /** Whatever the interleaving so far, once interrupts stop, the worker handles everything queued, unless the queue is
      full and the worker has its check for that still ahead. */
  lemma EverythingHandled(w: World) returns (n: nat)
    requires Inv(w) && WillDrain(w)
    ensures Drained(w, n).queued == w.queued && Drained(w, n).handled == w.queued
  {
    n := FallsAsleep(w);
  }

  /** Nothing but an interrupt happens to a worker that waits, and that makes it ready to run. */
  lemma SleepsUntilInterrupt(w: World, e: Event)
    requires Inv(w) && Asleep(w) && Possible(w, e)
    ensures e.Interrupt? && Step(w, e).state == Ready && Step(w, e).pending && Possible(Step(w, e), Dispatch)
  {
    hide Items;
  }
}
