/**
 * The round-robin scheduler as a machine over the ring of tasks, written from the current task on. Waiting is bounded:
 * a task that stays ready becomes current within its distance from the current one.
 */
module SchedModel {

  datatype State = Terminated | Running | Ready | Sleeping | Waiting

  /** A task in the ring; exactly one is the lazy task that runs when nothing else can. */
  datatype Slot = Slot(id: int, state: State, wake: int, isLazy: bool)

  /** The ring in order of `right` links; its first task is the current one. */
  type Ring = seq<Slot>

  ghost predicate Distinct(r: Ring) {
    forall i, j :: 0 <= i < j < |r| ==> r[i].id != r[j].id
  }

  ghost predicate Valid(r: Ring) {
    && Distinct(r)
    && (exists i :: 0 <= i < |r| && r[i].isLazy)
    && (forall i, j :: 0 <= i < j < |r| ==> !(r[i].isLazy && r[j].isLazy))
  }

  // ---- choosing the next task ----

  /** What a visit does to a task: the lazy task is put aside, a sleeper past its time wakes up. */
  function Visited(s: Slot, now: int): (v: Slot)
    ensures v.id == s.id && v.isLazy == s.isLazy && v.wake == s.wake
  {
    if s.isLazy then s.(state := Waiting)
    else if s.state == Sleeping && now >= s.wake then s.(state := Ready)
    else s
  }

  predicate Runnable(s: Slot) {
    s.state == Ready || s.state == Running
  }

  /** Tasks are visited from the right neighbour of the current one around to the current one itself. */
  function VisitOrder(r: Ring): (v: Ring)
    requires r != []
    ensures |v| == |r|
  {
    r[1..] + [r[0]]
  }

  /** Number of tasks passed over before one is runnable, all of them if none is. */
  function Passed(v: Ring, now: int): (k: nat)
    ensures k <= |v|
    ensures forall i :: 0 <= i < k ==> !Runnable(Visited(v[i], now))
    ensures k < |v| ==> Runnable(Visited(v[k], now))
  {
    if v == [] || Runnable(Visited(v[0], now)) then 0 else 1 + Passed(v[1..], now)
  }

  function LazyIndex(v: Ring): (k: nat)
    ensures k <= |v| && (k < |v| ==> v[k].isLazy)
    ensures k == |v| ==> forall i :: 0 <= i < |v| ==> !v[i].isLazy
  {
    if v == [] || v[0].isLazy then 0 else 1 + LazyIndex(v[1..])
  }

  /** sched_task_get_next: place of the chosen task in the order of visits. */
  function Chosen(v: Ring, now: int): nat {
    if Passed(v, now) < |v| then Passed(v, now) else LazyIndex(v)
  }

  /** The order of visits after the visits up to the chosen task, or all of them. */
  function AfterVisits(v: Ring, now: int): (w: Ring)
    ensures |w| == |v|
    ensures forall i :: 0 <= i < |v| ==> w[i] == if i <= Passed(v, now) then Visited(v[i], now) else v[i]
  {
    seq(|v|, i requires 0 <= i < |v| => if i <= Passed(v, now) then Visited(v[i], now) else v[i])
  }

  function Rotate(v: Ring, k: nat): Ring
    requires k <= |v|
  {
    v[k..] + v[..k]
  }

  // ---- steps ----

  datatype Event =
    | Tick(now: int)                                  // the timer looks for another task
    | Switch(now: int)                                // task_switch_prepare
    | Exit(now: int)                                  // task_exit of the current task and its destruction
    | Create(id: int)                                 // a new ready task, left of the current one
    | Change(id: int, state: State, wake: int)        // a task sleeps, waits or is made ready

  function Demoted(s: Slot): Slot {
    if s.state == Running then s.(state := Ready) else s
  }

  /** The chosen task comes first; the task that gave way, last in the order of visits, is no longer running. */
  function Promote(w: Ring, k: nat): Ring
    requires k < |w|
  {
    var w1 := w[|w| - 1 := Demoted(w[|w| - 1])];
    Rotate(w1[k := w1[k].(state := Running)], k)
  }

  function Without(r: Ring, id: int): Ring {
    if r == [] then [] else if r[0].id == id then r[1..] else [r[0]] + Without(r[1..], id)
  }

  function SetState(r: Ring, id: int, state: State, wake: int): Ring {
    seq(|r|, i requires 0 <= i < |r| => if r[i].id == id then r[i].(state := state, wake := wake) else r[i])
  }

  function SwitchTo(r: Ring, now: int): Ring
    requires r != [] && Chosen(VisitOrder(r), now) < |r|
  {
    Promote(AfterVisits(VisitOrder(r), now), Chosen(VisitOrder(r), now))
  }

  lemma ChosenExists(r: Ring, now: int)
    requires Valid(r)
    ensures r != [] && Chosen(VisitOrder(r), now) < |r|
  {
    var i :| 0 <= i < |r| && r[i].isLazy;
    assert VisitOrder(r)[if i > 0 then i - 1 else |r| - 1] == r[i];
  }

  /** What the kernel may do next: the lazy task never exits, sleeps or waits, and new tasks have new numbers. */
  ghost predicate Allowed(r: Ring, e: Event) {
    match e
    case Exit(_) => r != [] && !r[0].isLazy
    case Create(id) => forall i :: 0 <= i < |r| ==> r[i].id != id
    case Change(id, state, _) =>
      state != Terminated && state != Running && forall i :: 0 <= i < |r| && r[i].id == id ==> !r[i].isLazy
    case _ => true
  }

  ghost function Step(r: Ring, e: Event): Ring
    requires Valid(r) && Allowed(r, e)
  {
    match e
    case Tick(now) =>
      Rotate(AfterVisits(VisitOrder(r), now), |r| - 1)
    case Switch(now) =>
      ChosenExists(r, now);
      SwitchTo(r, now)
    case Exit(now) =>
      ExitValid(r);
      ChosenExists(r[0 := r[0].(state := Terminated)], now);
      Without(SwitchTo(r[0 := r[0].(state := Terminated)], now), r[0].id)
    case Create(id) =>
      r + [Slot(id, Ready, 0, false)]
    case Change(id, state, wake) =>
      SetState(r, id, state, wake)
  }

  lemma ExitValid(r: Ring)
    requires Valid(r) && !r[0].isLazy
    ensures Valid(r[0 := r[0].(state := Terminated)])
  {
    var i :| 0 <= i < |r| && r[i].isLazy;
    assert r[0 := r[0].(state := Terminated)][i].isLazy;
  }

  // ---- invariants ----

  lemma RotateValid(v: Ring, k: nat)
    requires Valid(v) && k <= |v|
    ensures Valid(Rotate(v, k))
  {
    var i :| 0 <= i < |v| && v[i].isLazy;
    assert Rotate(v, k)[if i >= k then i - k else i + |v| - k] == v[i];
  }

  /** Changing states only keeps the ring valid. */
  lemma SameTasks(v: Ring, w: Ring)
    requires Valid(v) && |w| == |v| && forall i :: 0 <= i < |v| ==> w[i].id == v[i].id && w[i].isLazy == v[i].isLazy
    ensures Valid(w)
  {
    var i :| 0 <= i < |v| && v[i].isLazy;
    assert w[i].isLazy;
  }

  lemma DistinctTail(r: Ring, k: nat)
    requires Distinct(r) && 0 < k < |r|
    ensures r[0].id != r[k].id && Distinct(r[1..]) && r[1..][k - 1] == r[k]
  {
  }

  lemma {:induction false} WithoutIndex(r: Ring, k: nat)
    requires Distinct(r) && k < |r|
    ensures Without(r, r[k].id) == r[..k] + r[k + 1..]
  {
    if k > 0 {
      DistinctTail(r, k);
      hide Distinct;
      WithoutIndex(r[1..], k - 1);
      assert r[..k] == [r[0]] + r[1..][..k - 1];
      assert r[k + 1..] == r[1..][k..];
    }
  }

  lemma PromoteValid(w: Ring, k: nat)
    requires Valid(w) && k < |w|
    ensures Valid(Promote(w, k))
  {
    var w1 := w[|w| - 1 := Demoted(w[|w| - 1])];
    SameTasks(w, w1);
    SameTasks(w1, w1[k := w1[k].(state := Running)]);
    RotateValid(w1[k := w1[k].(state := Running)], k);
  }

  lemma SwitchValid(r: Ring, now: int)
    requires Valid(r)
    ensures r != [] && Chosen(VisitOrder(r), now) < |r| && Valid(SwitchTo(r, now))
  {
    hide Visited, Passed, LazyIndex, Runnable, Promote;
    ChosenExists(r, now);
    var v := VisitOrder(r);
    assert v == Rotate(r, 1);
    RotateValid(r, 1);
    SameTasks(v, AfterVisits(v, now));
    PromoteValid(AfterVisits(v, now), Chosen(v, now));
  }

  /** Where the task at place i of the old ring is after a switch. */
  function SwitchedPlace(n: nat, k: nat, i: nat): int {
    var j := if i == 0 then n - 1 else i - 1;
    if j >= k then j - k else j + n - k
  }

  /** A switch moves tasks around the ring and changes nothing but states. */
  lemma SwitchMoves(r: Ring, now: int, i: nat)
    requires Valid(r) && i < |r| && Chosen(VisitOrder(r), now) < |r|
    ensures
      var k := Chosen(VisitOrder(r), now);
      var j := if i == 0 then |r| - 1 else i - 1;
      var p := SwitchedPlace(|r|, k, i);
      && 0 <= p < |r| && SwitchTo(r, now)[p].id == r[i].id && SwitchTo(r, now)[p].isLazy == r[i].isLazy
      && (p == 0 <==> j == k)
      && (j == k ==> SwitchTo(r, now)[p].state == Running)
      && (j != k && i > 0 ==>
        SwitchTo(r, now)[p] == if j <= Passed(VisitOrder(r), now) then Visited(r[i], now) else r[i])
  {
    hide Passed, LazyIndex, Valid, Promote, VisitOrder;
    var v := VisitOrder(r);
    VisitedAt(r, i);
    PromotedAt(AfterVisits(v, now), Chosen(v, now), if i == 0 then |r| - 1 else i - 1);
  }

  lemma VisitedAt(r: Ring, i: nat)
    requires i < |r|
    ensures VisitOrder(r)[if i == 0 then |r| - 1 else i - 1] == r[i]
  {
  }

  lemma RotatedAt(v: Ring, k: nat, i: nat)
    requires k <= |v| && i < |v|
    ensures |Rotate(v, k)| == |v| && Rotate(v, k)[if i >= k then i - k else i + |v| - k] == v[i]
  {
  }

  lemma PromotedAt(w: Ring, k: nat, j: nat)
    requires k < |w| && j < |w|
    ensures |Promote(w, k)| == |w|
    ensures
      var p := Promote(w, k)[if j >= k then j - k else j + |w| - k];
      && p.id == w[j].id && p.isLazy == w[j].isLazy && p.wake == w[j].wake
      && (if j == k then p.state == Running else p == if j == |w| - 1 then Demoted(w[j]) else w[j])
  {
    hide Rotate;
    var w1 := w[|w| - 1 := Demoted(w[|w| - 1])];
    RotatedAt(w1[k := w1[k].(state := Running)], k, j);
  }

  lemma ExitRemoves(r: Ring, now: int) returns (q: nat)
    requires Valid(r) && !r[0].isLazy
    ensures
      var r1 := r[0 := r[0].(state := Terminated)];
      && Valid(r1) && Chosen(VisitOrder(r1), now) < |r|
      && q == SwitchedPlace(|r|, Chosen(VisitOrder(r1), now), 0) && 0 < q < |r|
      && SwitchTo(r1, now)[q].id == r[0].id && !SwitchTo(r1, now)[q].isLazy
      && Step(r, Exit(now)) == SwitchTo(r1, now)[..q] + SwitchTo(r1, now)[q + 1..]
  {
    ExitValid(r);
    var r1 := r[0 := r[0].(state := Terminated)];
    SwitchValid(r1, now);
    var k := Chosen(VisitOrder(r1), now);
    assert VisitOrder(r1)[|r| - 1] == r1[0];
    assert !Runnable(Visited(r1[0], now)) && !r1[0].isLazy;
    SwitchMoves(r1, now, 0);
    q := SwitchedPlace(|r|, k, 0);
    WithoutIndex(SwitchTo(r1, now), q);
  }

  lemma CutValid(r: Ring, q: nat)
    requires Valid(r) && q < |r| && !r[q].isLazy
    ensures Valid(r[..q] + r[q + 1..])
  {
    var i :| 0 <= i < |r| && r[i].isLazy;
    assert (r[..q] + r[q + 1..])[if i < q then i else i - 1] == r[i];
  }

  lemma VisitOrderRotates(r: Ring)
    requires r != []
    ensures VisitOrder(r) == Rotate(r, 1)
  {
  }

  lemma TickKeeps(r: Ring, now: int)
    requires Valid(r)
    ensures Valid(Step(r, Tick(now)))
  {
    hide Visited, Passed, Valid, Rotate, LazyIndex;
    ChosenExists(r, now);
    VisitOrderRotates(r);
    RotateValid(r, 1);
    SameTasks(VisitOrder(r), AfterVisits(VisitOrder(r), now));
    RotateValid(AfterVisits(VisitOrder(r), now), |r| - 1);
  }

  lemma ExitKeeps(r: Ring, now: int)
    requires Valid(r) && !r[0].isLazy
    ensures Valid(Step(r, Exit(now)))
  {
    var q := ExitRemoves(r, now);
    ExitValid(r);
    hide SwitchTo, Without;
    var r1 := r[0 := r[0].(state := Terminated)];
    SwitchValid(r1, now);
    CutValid(SwitchTo(r1, now), q);
  }

  lemma CreateKeeps(r: Ring, id: int)
    requires Valid(r) && forall i :: 0 <= i < |r| ==> r[i].id != id
    ensures Valid(r + [Slot(id, Ready, 0, false)])
  {
    var i :| 0 <= i < |r| && r[i].isLazy;
    assert (r + [Slot(id, Ready, 0, false)])[i].isLazy;
  }

  /** Every step keeps the tasks distinct and the one lazy task in the ring. */
  lemma StepKeeps(r: Ring, e: Event)
    requires Valid(r) && Allowed(r, e)
    ensures Valid(Step(r, e))
  {
    hide Valid, SwitchTo, Without;
    match e
    case Tick(now) => TickKeeps(r, now);
    case Switch(now) => SwitchValid(r, now);
    case Exit(now) => ExitKeeps(r, now);
    case Create(id) => CreateKeeps(r, id);
    case Change(id, state, wake) => SameTasks(r, SetState(r, id, state, wake));
  }

  // ---- running tasks ----

  /** A task that is running is the current one. */
  ghost predicate OnlyCurrentRuns(r: Ring) {
    forall i :: 0 < i < |r| ==> r[i].state != Running
  }

  lemma PromoteRuns(w: Ring, k: nat)
    requires k < |w| && forall i :: 0 <= i < |w| - 1 ==> w[i].state != Running
    ensures |Promote(w, k)| == |w| && OnlyCurrentRuns(Promote(w, k)) && Promote(w, k)[0].state == Running
  {
    var p := Promote(w, k);
    forall i | 0 < i < |p| ensures p[i].state != Running {
      var j := if i < |w| - k then i + k else i + k - |w|;
      assert j != k && (p[i] == w[j] || (j == |w| - 1 && p[i] == Demoted(w[j])));
    }
  }

  lemma SwitchRuns(r: Ring, now: int)
    requires Valid(r) && OnlyCurrentRuns(r) && r != [] && Chosen(VisitOrder(r), now) < |r|
    ensures OnlyCurrentRuns(SwitchTo(r, now)) && |SwitchTo(r, now)| == |r| && SwitchTo(r, now)[0].state == Running
  {
    hide Promote, Valid;
    var w := AfterVisits(VisitOrder(r), now);
    forall i | 0 <= i < |w| - 1 ensures w[i].state != Running {
      assert VisitOrder(r)[i] == r[i + 1];
    }
    PromoteRuns(w, Chosen(VisitOrder(r), now));
  }

  lemma CutRuns(r: Ring, q: nat)
    requires 0 < q < |r| && OnlyCurrentRuns(r)
    ensures OnlyCurrentRuns(r[..q] + r[q + 1..]) && (r[..q] + r[q + 1..])[0] == r[0]
  {
  }

  /** Every step keeps all but the current task from running; after a switch or an exit the current one does run. */
  lemma RunnersKept(r: Ring, e: Event)
    requires Valid(r) && Allowed(r, e) && OnlyCurrentRuns(r)
    ensures OnlyCurrentRuns(Step(r, e))
    ensures IsSwitch(e) ==> Step(r, e) != [] && Step(r, e)[0].state == Running
  {
    hide Valid, SwitchTo, Without, Passed, LazyIndex;
    match e
    case Tick(now) =>
      ChosenExists(r, now);
      forall i | 0 < i < |r| ensures Step(r, e)[i].state != Running {
        assert VisitOrder(r)[i - 1] == r[i];
      }
    case Switch(now) =>
      ChosenExists(r, now);
      SwitchRuns(r, now);
    case Exit(now) =>
      var q := ExitRemoves(r, now);
      ExitValid(r);
      var r1 := r[0 := r[0].(state := Terminated)];
      SwitchRuns(r1, now);
      CutRuns(SwitchTo(r1, now), q);
    case Create(id) =>
    case Change(id, state, wake) =>
  }

  // ---- the lazy task ----

  /** The lazy task is chosen exactly when every other task neither can run nor is due to wake up. */
  lemma LazyOnlyWhenIdle(r: Ring, now: int)
    requires Valid(r)
    ensures r != [] && Chosen(VisitOrder(r), now) < |r|
    ensures VisitOrder(r)[Chosen(VisitOrder(r), now)].isLazy <==>
      forall i :: 0 <= i < |r| && !r[i].isLazy ==> !Runnable(r[i]) && !(r[i].state == Sleeping && now >= r[i].wake)
  {
    ChosenExists(r, now);
    var v := VisitOrder(r);
    forall i | 0 <= i < |r| ensures v[if i == 0 then |r| - 1 else i - 1] == r[i] {
    }
    var p := Passed(v, now);
    if p < |v| {
      assert r[if p == |v| - 1 then 0 else p + 1] == v[p];
    } else {
      forall i | 0 <= i < |r| && !r[i].isLazy ensures !Runnable(Visited(r[i], now)) {
        assert v[if i == 0 then |r| - 1 else i - 1] == r[i];
      }
    }
  }

  // ---- what a switch and a tick do to each task ----

  predicate Due(s: Slot, now: int) {
    s.state == Ready || s.state == Running || (s.state == Sleeping && now >= s.wake)
  }

  /** The chosen task is the first to the right that can run or is due to wake up, or else the lazy one. */
  lemma ChosenIsFirst(r: Ring, now: int, i: nat)
    requires Valid(r) && i < |r| && Chosen(VisitOrder(r), now) < |r|
    ensures
      var k, j := Chosen(VisitOrder(r), now), if i == 0 then |r| - 1 else i - 1;
      && (j == k ==> r[i].isLazy || Due(r[i], now))
      && (!r[i].isLazy && Due(r[i], now) ==> !VisitOrder(r)[k].isLazy && k <= j)
  {
    hide LazyIndex, Valid;
    VisitedAt(r, i);
  }

  /** After a switch the chosen task is running; the one that gave way is ready if it was running; and all others, but
      for the lazy task, are as they were. */
  lemma SwitchStates(r: Ring, now: int, i: nat) returns (p: nat)
    requires Valid(r) && i < |r| && !r[i].isLazy
    ensures p < |Step(r, Switch(now))| == |r| && Step(r, Switch(now))[p].id == r[i].id
    ensures
      var s, t := r[i], Step(r, Switch(now))[p];
      && !t.isLazy && t.wake == s.wake && (p == 0 ==> t.state == Running && Due(s, now))
      && (p > 0 ==> t.state == if i == 0 && s.state == Running then Ready else s.state)
  {
    hide LazyIndex, Valid, VisitOrder, Promote;
    ChosenExists(r, now);
    var v, j := VisitOrder(r), if i == 0 then |r| - 1 else i - 1;
    var k := Chosen(v, now);
    VisitedAt(r, i);
    ChosenIsFirst(r, now, i);
    PromotedAt(AfterVisits(v, now), k, j);
    PromotedSize(AfterVisits(v, now), k);
    p := SwitchedPlace(|r|, k, i);
  }

  /** The lazy task waits once it has been passed over, and runs if nothing else can. */
  lemma LazyStates(r: Ring, now: int, i: nat) returns (p: nat)
    requires Valid(r) && i < |r| && r[i].isLazy
    ensures Chosen(VisitOrder(r), now) < |r|
    ensures p < |Step(r, Switch(now))| == |r| && Step(r, Switch(now))[p].id == r[i].id
    ensures
      var k, j, t := Chosen(VisitOrder(r), now), if i == 0 then |r| - 1 else i - 1, Step(r, Switch(now))[p];
      t.isLazy && t.wake == r[i].wake && t.state ==
        if j == k then Running
        else if j < k then Waiting
        else if i == 0 && r[i].state == Running then Ready
        else r[i].state
  {
    hide Valid, VisitOrder, Promote;
    ChosenExists(r, now);
    var v, j := VisitOrder(r), if i == 0 then |r| - 1 else i - 1;
    var k := Chosen(v, now);
    VisitedAt(r, i);
    PromotedAt(AfterVisits(v, now), k, j);
    PromotedSize(AfterVisits(v, now), k);
    OneLazy(r, i);
    p := SwitchedPlace(|r|, k, i);
  }

  /** If nothing can run, the search ends at the lazy task. */
  lemma OneLazy(r: Ring, i: nat)
    requires Valid(r) && i < |r| && r[i].isLazy
    ensures LazyIndex(VisitOrder(r)) == if i == 0 then |r| - 1 else i - 1
  {
    VisitedAt(r, i);
    var v := VisitOrder(r);
    var j := LazyIndex(v);
    assert v[j] == r[if j == |r| - 1 then 0 else j + 1];
  }

  lemma PromotedSize(w: Ring, k: nat)
    requires k < |w|
    ensures |Promote(w, k)| == |w|
  {
  }

  /** A tick leaves every task in its place, and wakes at most the sleeper that a switch would choose. */
  lemma TickStates(r: Ring, now: int, i: nat)
    requires Valid(r) && i < |r| && !r[i].isLazy
    ensures |Step(r, Tick(now))| == |r| && Chosen(VisitOrder(r), now) < |r|
    ensures
      var chosen := Chosen(VisitOrder(r), now) == if i == 0 then |r| - 1 else i - 1;
      Step(r, Tick(now))[i] ==
        if chosen && r[i].state == Sleeping && now >= r[i].wake then r[i].(state := Ready) else r[i]
  {
    hide LazyIndex, Valid, VisitOrder, Rotate;
    ChosenExists(r, now);
    VisitedAt(r, i);
    ChosenIsFirst(r, now, i);
    RotatedAt(AfterVisits(VisitOrder(r), now), |r| - 1, if i == 0 then |r| - 1 else i - 1);
  }

  /** A switch leaves the current task where it is exactly if the visits end at it. */
  lemma StaysExactly(r: Ring, now: int)
    requires Valid(r)
    ensures r != [] && |Step(r, Switch(now))| == |r| && Chosen(VisitOrder(r), now) < |r|
    ensures Step(r, Switch(now))[0].id == r[0].id <==> Chosen(VisitOrder(r), now) == |r| - 1
  {
    hide LazyIndex, Passed, VisitOrder, Promote;
    ChosenExists(r, now);
    var k := Chosen(VisitOrder(r), now);
    PromotedSize(AfterVisits(VisitOrder(r), now), k);
    SwitchMoves(r, now, if k == |r| - 1 then 0 else k + 1);
  }

  // ---- bounded waiting ----

  /** Task t is ready at distance d from the current task. */
  ghost predicate WaitsAt(r: Ring, t: int, d: nat) {
    0 < d < |r| && r[d].id == t && r[d].state == Ready && !r[d].isLazy
  }

  ghost predicate IsCurrent(r: Ring, t: int) {
    r != [] && r[0].id == t && r[0].state == Running
  }

  predicate IsSwitch(e: Event) {
    e.Switch? || e.Exit?
  }

  /** After a switch, a ready task is current or strictly closer. */
  lemma SwitchApproaches(r: Ring, now: int, t: int, d: nat)
    requires Valid(r) && WaitsAt(r, t, d) && Chosen(VisitOrder(r), now) < |r|
    ensures
      var k := Chosen(VisitOrder(r), now);
      && k < d && SwitchedPlace(|r|, k, d) == d - 1 - k
      && (if d - 1 == k then IsCurrent(SwitchTo(r, now), t) else WaitsAt(SwitchTo(r, now), t, d - 1 - k))
  {
    assert VisitOrder(r)[d - 1] == r[d];
    SwitchMoves(r, now, d);
  }

  /** A task that is preempted is ready again at once, somewhere in the ring ... */
  lemma PreemptedWaits(r: Ring, now: int) returns (d: nat)
    requires Valid(r) && r[0].state == Running && !r[0].isLazy
    ensures IsCurrent(Step(r, Switch(now)), r[0].id) || WaitsAt(Step(r, Switch(now)), r[0].id, d)
  {
    hide Step;
    d := SwitchStates(r, now, 0);
  }

  /** ... and so is a new task, furthest from the current one. */
  lemma CreatedWaits(r: Ring, id: int)
    requires Valid(r) && Allowed(r, Create(id))
    ensures WaitsAt(Step(r, Create(id)), id, |r|)
  {
    ChosenExists(r, 0);
  }

  /** One step of anything but a change of t's own state: t is current, or ready no further away, and closer by at
      least one if there was a switch. */
  lemma StepApproaches(r: Ring, e: Event, t: int, d: nat) returns (d': nat)
    requires Valid(r) && Allowed(r, e) && WaitsAt(r, t, d) && !(e.Change? && e.id == t)
    ensures IsCurrent(Step(r, e), t) || (WaitsAt(Step(r, e), t, d') && d' <= d - if IsSwitch(e) then 1 else 0)
  {
    d' := d;
    match e
    case Tick(now) =>
      TickKeepsPlace(r, now, t, d);
    case Switch(now) =>
      ChosenExists(r, now);
      SwitchApproaches(r, now, t, d);
      d' := d - 1 - Chosen(VisitOrder(r), now);
    case Exit(now) =>
      d' := ExitApproaches(r, now, t, d);
    case Create(id) =>
    case Change(id, state, wake) =>
  }

  lemma TickKeepsPlace(r: Ring, now: int, t: int, d: nat)
    requires Valid(r) && WaitsAt(r, t, d)
    ensures WaitsAt(Step(r, Tick(now)), t, d)
  {
    hide Valid, Passed, LazyIndex, Rotate, VisitOrder;
    VisitedAt(r, d);
    RotatedAt(AfterVisits(VisitOrder(r), now), |r| - 1, d - 1);
  }

  lemma ExitApproaches(r: Ring, now: int, t: int, d: nat) returns (d': nat)
    requires Valid(r) && Allowed(r, Exit(now)) && WaitsAt(r, t, d)
    ensures IsCurrent(Step(r, Exit(now)), t) || (WaitsAt(Step(r, Exit(now)), t, d') && d' <= d - 1)
  {
    var q := ExitRemoves(r, now);
    var r1 := r[0 := r[0].(state := Terminated)];
    SwitchApproaches(r1, now, t, d);
    d' := d - 1 - Chosen(VisitOrder(r1), now);
    assert q > d';
  }

  ghost predicate RunAllowed(r: Ring, es: seq<Event>)
    requires Valid(r)
    decreases |es|
  {
    es == [] || (Allowed(r, es[0]) && (StepKeeps(r, es[0]); RunAllowed(Step(r, es[0]), es[1..])))
  }

  ghost function Run(r: Ring, es: seq<Event>): (r': Ring)
    requires Valid(r) && RunAllowed(r, es)
    ensures Valid(r')
    decreases |es|
  {
    if es == [] then r
    else
      StepKeeps(r, es[0]);
      Run(Step(r, es[0]), es[1..])
  }

  function Switches(es: seq<Event>): nat {
    if es == [] then 0 else Switches(es[1..]) + if IsSwitch(es[0]) then 1 else 0
  }

  lemma RunLonger(r: Ring, es: seq<Event>, k: nat)
    requires Valid(r) && RunAllowed(r, es) && k < |es| && Valid(Step(r, es[0]))
    requires RunAllowed(Step(r, es[0]), es[1..][..k])
    ensures RunAllowed(r, es[..k + 1]) && Run(r, es[..k + 1]) == Run(Step(r, es[0]), es[1..][..k])
    ensures Switches(es[..k + 1]) == Switches(es[1..][..k]) + if IsSwitch(es[0]) then 1 else 0
  {
    hide Step, Allowed, Valid;
    assert es[..k + 1][1..] == es[1..][..k] && es[..k + 1][0] == es[0];
  }

  ghost predicate BecomesCurrent(r: Ring, es: seq<Event>, k: nat, t: int, d: nat) {
    && Valid(r) && k <= |es| && RunAllowed(r, es[..k]) && IsCurrent(Run(r, es[..k]), t) && Switches(es[..k]) <= d
  }

  /** Over any run of switches, exits, creations, ticks and changes of other tasks, a ready task at distance d becomes
      current within d switches. */
  lemma {:induction false} BoundedWaiting(r: Ring, es: seq<Event>, t: int, d: nat)
    requires Valid(r) && RunAllowed(r, es) && WaitsAt(r, t, d) && Switches(es) >= d
    requires forall i :: 0 <= i < |es| ==> !(es[i].Change? && es[i].id == t)
    ensures exists k: nat :: BecomesCurrent(r, es, k, t, d)
    decreases |es|
  {
    hide Step, Allowed, Valid;
    StepKeeps(r, es[0]);
    var r' := Step(r, es[0]);
    var d' := StepApproaches(r, es[0], t, d);
    if IsCurrent(r', t) {
      RunLonger(r, es, 0);
      assert BecomesCurrent(r, es, 1, t, d);
    } else {
      BoundedWaiting(r', es[1..], t, d');
      var k: nat :| BecomesCurrent(r', es[1..], k, t, d');
      RunLonger(r, es, k);
      assert BecomesCurrent(r, es, k + 1, t, d);
    }
  }

  /** A task that is preempted is current again within as many switches as there are tasks. */
  lemma PreemptedReturns(r: Ring, now: int, es: seq<Event>)
    requires Valid(r) && r[0].state == Running && !r[0].isLazy
    requires Valid(Step(r, Switch(now))) && RunAllowed(Step(r, Switch(now)), es) && Switches(es) >= |r|
    requires forall i :: 0 <= i < |es| ==> !(es[i].Change? && es[i].id == r[0].id)
    ensures exists k: nat :: BecomesCurrent(Step(r, Switch(now)), es, k, r[0].id, |r|)
  {
    hide Step, Valid;
    ChosenExists(r, now);
    SameTaskCount(r, now);
    var r' := Step(r, Switch(now));
    var d := PreemptedWaits(r, now);
    if IsCurrent(r', r[0].id) {
      assert es[..0] == [];
      assert BecomesCurrent(r', es, 0, r[0].id, |r|);
    } else {
      BoundedWaiting(r', es, r[0].id, d);
      var k: nat :| BecomesCurrent(r', es, k, r[0].id, d);
      assert BecomesCurrent(r', es, k, r[0].id, |r|);
    }
  }

  lemma SameTaskCount(r: Ring, now: int)
    requires Valid(r)
    ensures |Step(r, Switch(now))| == |r|
  {
    hide Step;
    StaysExactly(r, now);
  }
}
