/** The scheduler on its intrusive circular list, refining the ring machine of SchedModel. */
module Scheduler {
  import opened SchedModel

  class Task {
    const id: int
    var left: Task?
    var right: Task?
    var state: State
    var wake: int

    constructor (id: int)
      ensures this.id == id && state == Ready && wake == 0
    {
      this.id := id;
      state := Ready;
      wake := 0;
      left, right := null, null;
    }
  }

  /** The tasks form one cycle of right and left links in the order of the sequence. */
  ghost predicate Cycle(ring: seq<Task>)
    reads ring`left, ring`right
  {
    && |ring| > 0
    && (forall i, j :: 0 <= i < j < |ring| ==> ring[i] != ring[j])
    && (forall i :: 0 <= i < |ring| - 1 ==> ring[i].right == ring[i + 1])
    && (forall i :: 0 < i < |ring| ==> ring[i].left == ring[i - 1])
    && ring[|ring| - 1].right == ring[0] && ring[0].left == ring[|ring| - 1]
  }

  ghost function SlotOf(t: Task, lazyTask: Task): Slot
    reads t
  {
    Slot(t.id, t.state, t.wake, t == lazyTask)
  }

  ghost function Slots(ring: seq<Task>, lazyTask: Task): (r: Ring)
    reads ring
    ensures |r| == |ring|
  {
    seq(|ring|, i requires 0 <= i < |ring| reads ring => SlotOf(ring[i], lazyTask))
  }

  function NextPlace(n: nat, k: nat): nat {
    if k + 1 < n then k + 1 else 0
  }

  class RoundRobin {
    var current: Task
    const lazyTask: Task
    ghost var ring: seq<Task>      // from the current task on

    ghost predicate Valid()
      reads this, ring
    {
      && Cycle(ring) && ring[0] == current
      && SchedModel.Valid(Abs())
    }

    ghost function Abs(): Ring
      reads this, ring
    {
      Slots(ring, lazyTask)
    }

    /** sched_task_add_first: the lazy task alone. */
    constructor (lazyTask: Task)
      modifies lazyTask
      ensures Valid() && this.lazyTask == lazyTask && ring == [lazyTask] && current == lazyTask
      ensures lazyTask.state == old(lazyTask.state)
    {
      this.lazyTask := lazyTask;
      current := lazyTask;
      ring := [lazyTask];
      new;
      lazyTask.left := lazyTask;
      lazyTask.right := lazyTask;
      assert Abs()[0].isLazy;
    }

    /** _proc_task_state. */
    method Visit(t: Task, now: int)
      modifies t`state
      ensures SlotOf(t, lazyTask) == Visited(old(SlotOf(t, lazyTask)), now)
    {
      if t == lazyTask {
        t.state := Waiting;
      } else if t.state == Sleeping && now >= t.wake {
        t.state := Ready;
      }
    }

    /** After m visits, the first m tasks in the order of visits have changed as a visit does. */
    ghost predicate Slotted(abs0: Ring, now: int, m: nat)
      reads this, ring
    {
      && |abs0| == |ring|
      && forall i :: 0 <= i < |ring| ==>
        SlotOf(ring[i], lazyTask) == if 0 < i <= m || (i == 0 && m == |ring|) then Visited(abs0[i], now) else abs0[i]
    }

    lemma SlottedNone(now: int)
      ensures Slotted(Abs(), now, 0)
    {
    }

    /** One round of the loop in sched_task_get_next: on to the right neighbour, which is visited. */
    method VisitRight(n: Task, now: int, ghost abs0: Ring, ghost k: nat) returns (m: Task)
      requires Cycle(ring) && k < |ring| && n == ring[k] && Slotted(abs0, now, k)
      modifies ring`state
      ensures Cycle(ring) && m == ring[NextPlace(|ring|, k)] && Slotted(abs0, now, k + 1)
      ensures m == ring[0] <==> k + 1 == |ring|
      ensures (m.state == Ready || m.state == Running) <==> Runnable(Visited(VisitOrder(abs0)[k], now))
    {
      assert n.right == ring[NextPlace(|ring|, k)];
      assert VisitOrder(abs0)[k] == abs0[NextPlace(|ring|, k)];
      m := n.right;
      Visit(m, now);
    }

    lemma VisitsSeen(abs0: Ring, now: int, k: nat)
      requires |ring| > 0 && k <= |ring| && Slotted(abs0, now, if k < |ring| then k + 1 else k)
      requires forall i :: 0 <= i < k ==> !Runnable(Visited(VisitOrder(abs0)[i], now))
      requires k < |ring| ==> Runnable(Visited(VisitOrder(abs0)[k], now))
      ensures Passed(VisitOrder(abs0), now) == k
      ensures Abs() == Rotate(AfterVisits(VisitOrder(abs0), now), |ring| - 1)
    {
      hide Passed, AfterVisits, Rotate, VisitOrder, Visited;
      VisitsDone(abs0, Abs(), now, k);
    }

    lemma TaskInOrder(abs0: Ring, now: int, m: nat, j: nat)
      requires |ring| > 0 && Slotted(abs0, now, m) && j < |ring|
      ensures (ring[1..] + [ring[0]])[j] == ring[NextPlace(|ring|, j)]
      ensures VisitOrder(abs0)[j].isLazy <==> (ring[1..] + [ring[0]])[j] == lazyTask
    {
      assert VisitOrder(abs0)[j] == abs0[NextPlace(|ring|, j)];
    }

    /** The visits have ended at the task that the machine chooses. */
    ghost predicate Looked(abs0: Ring, now: int, next: Task)
      reads this, ring
    {
      && |abs0| == |ring| > 0 && Cycle(ring) && Abs() == Rotate(AfterVisits(VisitOrder(abs0), now), |ring| - 1)
      && Chosen(VisitOrder(abs0), now) < |ring|
      && next == (ring[1..] + [ring[0]])[Chosen(VisitOrder(abs0), now)]
    }

    lemma FoundReady(abs0: Ring, now: int, k: nat)
      requires Cycle(ring) && k < |ring| == |abs0| && Slotted(abs0, now, k + 1)
      requires Runnable(Visited(VisitOrder(abs0)[k], now))
      requires forall i :: 0 <= i < k ==> !Runnable(Visited(VisitOrder(abs0)[i], now))
      ensures Looked(abs0, now, ring[NextPlace(|ring|, k)])
    {
      hide Passed, LazyIndex, AfterVisits, Rotate, Slotted, VisitOrder, Visited, Slots, Runnable, Cycle;
      VisitsSeen(abs0, now, k);
      TaskInOrder(abs0, now, k + 1, k);
    }

    lemma FoundNone(abs0: Ring, now: int)
      requires Cycle(ring) && SchedModel.Valid(abs0) && |ring| == |abs0| && Slotted(abs0, now, |ring|)
      requires forall i :: 0 <= i < |ring| ==> !Runnable(Visited(VisitOrder(abs0)[i], now))
      ensures Looked(abs0, now, lazyTask)
    {
      hide Passed, LazyIndex, AfterVisits, SchedModel.Valid, Rotate, Slotted, VisitOrder, Visited, Slots, Runnable,
        Cycle;
      ChosenExists(abs0, now);
      VisitsSeen(abs0, now, |ring|);
      TaskInOrder(abs0, now, |ring|, LazyIndex(VisitOrder(abs0)));
    }

    /** sched_task_get_next. */
    method GetNext(now: int) returns (next: Task)
      requires Valid()
      modifies ring`state
      ensures Looked(old(Abs()), now, next)
    {
      hide Passed, LazyIndex, AfterVisits, SchedModel.Valid, Rotate, Slotted, VisitOrder, Visited, Slots, Runnable,
        Cycle, Looked;
      ghost var abs0 := Abs();
      ChosenExists(abs0, now);
      SlottedNone(now);
      var n := current;
      ghost var k := 0;
      while true
        invariant 0 <= k < |ring| && n == ring[k] && Cycle(ring) && ring[0] == current && Slotted(abs0, now, k)
        invariant forall i :: 0 <= i < k ==> !Runnable(Visited(VisitOrder(abs0)[i], now))
        decreases |ring| - k
      {
        n := VisitRight(n, now, abs0, k);
        if n.state == Ready || n.state == Running {
          FoundReady(abs0, now, k);
          return n;
        }
        k := k + 1;
        if n == current {
          break;
        }
      }
      FoundNone(abs0, now);
      return lazyTask;
    }

    /** tasks_tick only looks for another task; the looking already wakes sleepers. */
    method Tick(now: int) returns (reschedule: bool)
      requires Valid()
      modifies ring`state
      ensures Valid() && Abs() == Step(old(Abs()), Event.Tick(now))
      ensures ring != [] && |Step(old(Abs()), Switch(now))| == |ring|
      ensures reschedule <==> Step(old(Abs()), Switch(now))[0].id != current.id
    {
      hide Passed, LazyIndex, AfterVisits, SchedModel.Valid, Rotate, VisitOrder, Slots, Cycle, Step;
      StepKeeps(Abs(), Event.Tick(now));
      StaysExactly(Abs(), now);
      FirstSlot(ring, lazyTask);
      TickIsLook(Abs(), now);
      var next := GetNext(now);
      LastInOrder(ring, Chosen(VisitOrder(old(Abs())), now));
      reschedule := next != current;
    }

    /** task_switch_prepare. */
    method SwitchPrepare(now: int)
      requires Valid()
      modifies this, ring`state
      ensures Valid() && Abs() == Step(old(Abs()), Switch(now))
      ensures multiset(ring) == multiset(old(ring))
    {
      hide Passed, LazyIndex, AfterVisits, SchedModel.Valid, Rotate, Promote, VisitOrder, Slots, Chosen;
      StepKeeps(Abs(), Switch(now));
      ghost var v := VisitOrder(Abs());
      var next := GetNext(now);
      RotateBack(AfterVisits(v, now));
      MakeCurrent(next, Chosen(v, now));
    }

    /** task_switch_prepare_state: the next task is the k-th in the order of visits, where the previous one is last. */
    static method PrepareState(prev: Task, next: Task, ghost v: seq<Task>, ghost k: nat, ghost lazyTask: Task)
      requires Cycle(v) && k < |v| && v[k] == next && v[|v| - 1] == prev
      modifies v`state
      ensures Cycle(v) && Slots(Turned(v, k), lazyTask) == Promote(old(Slots(v, lazyTask)), k)
    {
      hide Promote;
      ghost var w := Slots(v, lazyTask);
      if prev.state == Running {
        prev.state := Ready;
      }
      next.state := Running;
      PromoteSlots(v, w, k, lazyTask);
    }

    /** task_switch_prepare_state and task_set_current for the task that comes k-th in the order of visits. */
    method MakeCurrent(next: Task, ghost k: nat)
      requires Cycle(ring) && ring[0] == current && k < |ring| && next == (ring[1..] + [ring[0]])[k]
      modifies this, ring`state
      ensures Cycle(ring) && ring[0] == current && current == next
      ensures ring == Turned(Turned(old(ring), 1), k)
      ensures Abs() == Promote(Rotate(old(Abs()), 1), k)
      ensures multiset(ring) == multiset(old(ring))
    {
      hide Promote, Rotate, Slots, Demoted, Turned, Cycle;
      ghost var v := Turned(ring, 1);
      TurnedEnds(ring, k);
      SlotsTurned(ring, 1, lazyTask);
      CycleRotates(ring, 1);
      PrepareState(current, next, v, k, lazyTask);
      CycleRotates(v, k);
      current := next;
      ring := Turned(v, k);
    }

    /** list_erase_cycle of the task at place q. */
    method EraseCycle(t: Task, ghost q: nat)
      requires Cycle(ring) && 0 < q < |ring| && ring[q] == t
      modifies ring`left, ring`right
      ensures Cycle(ring[..q] + ring[q + 1..]) && t.left == null && t.right == null
      ensures Abs() == old(Abs())
    {
      hide Cycle;
      Unhook(ring, t, q);
      assert forall i :: 0 <= i < |ring| ==> SlotOf(ring[i], lazyTask) == old(SlotOf(ring[i], lazyTask));
    }

    static method Unhook(ghost ring: seq<Task>, t: Task, ghost q: nat)
      requires Cycle(ring) && 0 < q < |ring| && ring[q] == t
      modifies ring`left, ring`right
      ensures Cycle(ring[..q] + ring[q + 1..]) && t.left == null && t.right == null
    {
      assert t.left == ring[q - 1] && t.right == ring[NextPlace(|ring|, q)];
      if t.left != null {
        t.left.right := t.right;
      }
      if t.right != null {
        t.right.left := t.left;
      }
      t.left, t.right := null, null;
      ghost var r := ring[..q] + ring[q + 1..];
      forall i | 0 <= i < |r| ensures r[i] == ring[if i < q then i else i + 1] {
      }
    }

    method Terminate()
      requires Valid() && current != lazyTask
      modifies current`state
      ensures Cycle(ring) && !old(Abs())[0].isLazy
      ensures Abs() == old(Abs())[0 := old(Abs())[0].(state := Terminated)]
    {
      current.state := Terminated;
    }

    /** The first part of task_exit: the current task terminates and another one becomes current. */
    method LeaveCurrent(now: int) returns (acc: Task, ghost q: nat)
      requires Valid() && current != lazyTask
      modifies this, ring`state
      ensures acc == old(current) && Cycle(ring) && 0 < q < |ring| && ring[q] == acc && ring[0] == current
      ensures multiset(ring) == multiset(old(ring)) && forall i :: 0 <= i < |ring| ==> ring[i] in old(ring)
      ensures Allowed(old(Abs()), Event.Exit(now)) && Step(old(Abs()), Event.Exit(now)) == Abs()[..q] + Abs()[q + 1..]
    {
      hide Passed, LazyIndex, AfterVisits, SchedModel.Valid, Rotate, Promote, VisitOrder, Slots, Chosen, Turned, Step,
        Cycle;
      acc := current;
      CycleNonEmpty(ring);
      Terminate();
      q := ExitRemoves(old(Abs()), now);
      ExitValid(old(Abs()));
      ghost var r1 := Abs();
      ghost var k := Chosen(VisitOrder(r1), now);
      FirstTurned(ring, k);
      var next := GetNext(now);
      RotateBack(AfterVisits(VisitOrder(r1), now));
      MakeCurrent(next, k);
      SameMembers(ring, old(ring));
    }

    /** task_exit, with sched_task_erase of the task left in to_destroy_accumulator. */
    method Exit(now: int)
      requires Valid() && current != lazyTask
      modifies this, ring
      ensures Valid() && Allowed(old(Abs()), Event.Exit(now)) && Abs() == Step(old(Abs()), Event.Exit(now))
      ensures multiset(ring) == multiset(old(ring)) - multiset{old(current)}
    {
      hide Step, SchedModel.Valid, Slots, Cycle, Allowed;
      ghost var abs0 := Abs();
      var acc, q := LeaveCurrent(now);
      StepKeeps(abs0, Event.Exit(now));
      EraseCycle(acc, q);
      SlotsErased(ring, q, lazyTask);
      ring := ring[..q] + ring[q + 1..];
    }

    /** The links of sched_task_add_new. */
    method LinkLeft(t: Task)
      requires Cycle(ring) && ring[0] == current && t !in ring
      modifies ring`left, ring`right, t`left, t`right
      ensures |ring| > 0 && Cycle(ring + [t])
    {
      var left := current.left;
      var r := left.right;
      left.right := t;
      t.left := left;
      t.right := r;
      if r != null {
        r.left := t;
      }
    }

    /** task_create: sched_task_add_new puts a new ready task left of the current one. */
    method AddNew(id: int) returns (t: Task)
      requires Valid() && forall i :: 0 <= i < |ring| ==> ring[i].id != id
      modifies this, ring`left, ring`right
      ensures Valid() && Allowed(old(Abs()), Create(id)) && Abs() == Step(old(Abs()), Create(id))
      ensures fresh(t) && ring == old(ring) + [t] && current == old(current)
    {
      hide SchedModel.Valid, Cycle;
      StepKeeps(Abs(), Create(id));
      t := new Task(id);
      LinkLeft(t);
      ring := ring + [t];
      forall i | 0 <= i < |ring| ensures SlotOf(ring[i], lazyTask) == Step(old(Abs()), Create(id))[i] {
      }
      assert Abs() == Step(old(Abs()), Create(id));
    }

    /** sched_task_set_state by a task that waits or by whoever makes it ready. */
    method SetState(t: Task, state: State)
      requires Valid() && t in ring && t != lazyTask && state != Terminated && state != Running
      modifies t`state
      ensures Allowed(old(Abs()), Change(t.id, state, t.wake))
      ensures Valid() && Abs() == Step(old(Abs()), Change(t.id, state, t.wake))
    {
      hide SchedModel.Valid, Step;
      ghost var q: nat :| q < |ring| && ring[q] == t;
      ChangeAllowed(Abs(), q, state, t.wake);
      t.state := state;
      assert Abs() == old(Abs())[q := old(Abs())[q].(state := state)];
    }

    /** task_sleep, before it gives way. */
    method Sleep(now: int, milliseconds: int)
      requires Valid() && current != lazyTask
      modifies current`state, current`wake
      ensures Allowed(old(Abs()), Change(current.id, Sleeping, now + milliseconds))
      ensures Valid() && Abs() == Step(old(Abs()), Change(current.id, Sleeping, now + milliseconds))
    {
      hide SchedModel.Valid, Step;
      ChangeAllowed(Abs(), 0, Sleeping, now + milliseconds);
      current.state := Sleeping;
      current.wake := now + milliseconds;
      assert Abs() == old(Abs())[0 := old(Abs())[0].(state := Sleeping, wake := now + milliseconds)];
    }
  }

  lemma FirstSlot(ring: seq<Task>, lazyTask: Task)
    requires Cycle(ring)
    ensures |Slots(ring, lazyTask)| == |ring| > 0 && Slots(ring, lazyTask)[0].id == ring[0].id
  {
  }

  lemma TickIsLook(r: Ring, now: int)
    requires SchedModel.Valid(r) && r != []
    ensures Step(r, Event.Tick(now)) == Rotate(AfterVisits(VisitOrder(r), now), |r| - 1)
  {
  }

  /** In the order of visits only the last is the current task. */
  lemma LastInOrder(ring: seq<Task>, k: nat)
    requires Cycle(ring) && k < |ring|
    ensures (ring[1..] + [ring[0]])[k] == ring[0] <==> k == |ring| - 1
  {
  }

  lemma CycleNonEmpty(ring: seq<Task>)
    requires Cycle(ring)
    ensures |ring| > 0
  {
  }

  lemma SameMembers(r: seq<Task>, s: seq<Task>)
    requires multiset(r) == multiset(s)
    ensures forall i :: 0 <= i < |r| ==> r[i] in s
  {
    forall i | 0 <= i < |r| ensures r[i] in s {
      assert r[i] in multiset(s);
    }
  }

  /** A change of one task's state is a step. */
  lemma ChangeAllowed(r: Ring, q: nat, state: State, wake: int)
    requires SchedModel.Valid(r) && q < |r| && !r[q].isLazy && state != Terminated && state != Running
    ensures Allowed(r, Change(r[q].id, state, wake))
    ensures Step(r, Change(r[q].id, state, wake)) == r[q := r[q].(state := state, wake := wake)]
    ensures SchedModel.Valid(r[q := r[q].(state := state, wake := wake)])
  {
    StepKeeps(r, Change(r[q].id, state, wake));
  }

  lemma SlotsErased(ring: seq<Task>, q: nat, lazyTask: Task)
    requires q < |ring|
    ensures Slots(ring[..q] + ring[q + 1..], lazyTask) == Slots(ring, lazyTask)[..q] + Slots(ring, lazyTask)[q + 1..]
    ensures multiset(ring[..q] + ring[q + 1..]) == multiset(ring) - multiset{ring[q]}
    ensures q > 0 ==> (ring[..q] + ring[q + 1..])[0] == ring[0]
  {
    assert ring == ring[..q] + [ring[q]] + ring[q + 1..];
  }

  lemma PromoteSlots(v: seq<Task>, w: Ring, k: nat, lazyTask: Task)
    requires |v| == |w| && k < |w|
    requires forall i :: 0 <= i < |v| ==>
      SlotOf(v[i], lazyTask) == if i == k then w[i].(state := Running) else if i == |v| - 1 then Demoted(w[i]) else w[i]
    ensures Slots(Turned(v, k), lazyTask) == Promote(w, k)
  {
    forall i | 0 <= i < |v| ensures SlotOf(Turned(v, k)[i], lazyTask) == Promote(w, k)[i] {
      TurnedAt(v, k, i);
    }
  }

  /** The ring seen from its k-th task. */
  ghost function Turned(ring: seq<Task>, k: nat): (r: seq<Task>)
    requires k <= |ring|
    ensures |r| == |ring|
  {
    ring[k..] + ring[..k]
  }

  lemma TurnedEnds(ring: seq<Task>, k: nat)
    requires Cycle(ring) && k < |ring|
    ensures var v := Turned(ring, 1);
      v == ring[1..] + [ring[0]] && v[|v| - 1] == ring[0] && Turned(v, k)[0] == v[k] && v[k] in ring && ring[0] in ring
    ensures forall t :: t in Turned(ring, 1) ==> t in ring
  {
  }

  lemma FirstTurned(ring: seq<Task>, k: nat)
    requires Cycle(ring) && k < |ring|
    ensures Turned(Turned(ring, 1), k)[SwitchedPlace(|ring|, k, 0)] == ring[0]
  {
  }

  lemma TurnedAt(ring: seq<Task>, k: nat, i: nat)
    requires k <= |ring| && i < |ring|
    ensures Turned(ring, k)[i] == ring[if i < |ring| - k then i + k else i + k - |ring|]
  {
  }

  lemma SlotsTurned(ring: seq<Task>, k: nat, lazyTask: Task)
    requires k <= |ring|
    ensures Slots(Turned(ring, k), lazyTask) == Rotate(Slots(ring, lazyTask), k)
  {
  }

  lemma RotateBack(w: Ring)
    requires |w| > 0
    ensures Rotate(Rotate(w, |w| - 1), 1) == w
  {
  }

  lemma TurnedSame(ring: seq<Task>, k: nat)
    requires k <= |ring|
    ensures multiset(Turned(ring, k)) == multiset(ring)
  {
    assert ring == ring[..k] + ring[k..];
  }

  lemma CycleRotates(ring: seq<Task>, k: nat)
    requires Cycle(ring) && k <= |ring|
    ensures Cycle(Turned(ring, k)) && multiset(Turned(ring, k)) == multiset(ring)
  {
    TurnedSame(ring, k);
    hide Turned;
    var r, n := Turned(ring, k), |ring|;
    forall i | 0 <= i < n - 1 ensures r[i].right == r[i + 1] && r[i + 1].left == r[i] {
      TurnedAt(ring, k, i);
      TurnedAt(ring, k, i + 1);
    }
    forall i, j | 0 <= i < j < n ensures r[i] != r[j] {
      TurnedAt(ring, k, i);
      TurnedAt(ring, k, j);
    }
    TurnedAt(ring, k, 0);
    TurnedAt(ring, k, n - 1);
  }

  /** The visits stopped at the k-th, which was runnable, or went all the way round. */
  lemma VisitsDone(r: Ring, r': Ring, now: int, k: nat)
    requires 0 < |r| == |r'| && k <= |r|
    requires forall i :: 0 <= i < k ==> !Runnable(Visited(VisitOrder(r)[i], now))
    requires k < |r| ==> Runnable(Visited(VisitOrder(r)[k], now))
    requires forall i :: 0 < i < |r| ==> r'[i] == if i <= k + 1 then Visited(r[i], now) else r[i]
    requires r'[0] == if k >= |r| - 1 then Visited(r[0], now) else r[0]
    ensures Passed(VisitOrder(r), now) == k
    ensures r' == Rotate(AfterVisits(VisitOrder(r), now), |r| - 1)
  {
    var v := VisitOrder(r);
    var p := Passed(v, now);
    var w := AfterVisits(v, now);
    forall i | 0 <= i < |r| ensures r'[i] == Rotate(w, |r| - 1)[i] {
      assert Rotate(w, |r| - 1)[i] == w[if i == 0 then |r| - 1 else i - 1];
    }
  }
}
