/** What holds over every run of the scheduler. */
module SchedulingProperties {
  import opened Word64
  import opened Scheduling
  import Page

  // ---- the invariant

  ghost predicate NoDuplicates(q: seq<TaskRef>) {
    forall i, j :: 0 <= i < j < |q| ==> q[i] != q[j]
  }

  /** The number of tasks ever created. */
  function Created(s: Sched): nat {
    FirstEmpty(s.slots, 0)
  }

  /** The task table: occupied slots are a prefix, slot i has id i + 1, the idle task has slot 0. */
  ghost predicate DenseTable(s: Sched) {
    && 1 <= Created(s)
    && (forall t: TaskRef :: s.slots[t].state != Empty <==> t < Created(s))
    && (forall t: TaskRef :: t < Created(s) ==> s.slots[t].id == t + 1)
    && s.nextId == Created(s) + 1
    && s.idle == Some(0)
  }

  /** The ready queue holds each waiting task once. */
  ghost predicate QueueOk(w: World) {
    && NoDuplicates(w.s.queue)
    && (forall t :: t in w.s.queue ==>
                      t in w.pushed && w.s.slots[t].state == Ready && w.s.idle != Some(t) && w.s.current != Some(t))
  }

  /** Every pushed task is in exactly one of: queue, current, Dead. */
  ghost predicate PushedPlaced(w: World) {
    forall t :: t in w.pushed ==>
                  w.s.Occupied(t) && w.s.idle != Some(t)
                  && (t in w.s.queue || w.s.current == Some(t) || w.s.slots[t].state == Dead)
  }

  /** A task other than idle is Running exactly when it is current. */
  ghost predicate RunningIsCurrent(w: World) {
    forall t: TaskRef :: w.s.idle != Some(t) ==> (w.s.slots[t].state == Running <==> w.s.current == Some(t))
  }

  /** A task that was never pushed has not run. */
  ghost predicate UnpushedAway(w: World) {
    forall t: TaskRef :: w.s.idle != Some(t) && t !in w.pushed ==>
                           w.s.slots[t].state in {Empty, Ready} && w.s.current != Some(t)
  }

  ghost predicate TasksOk(w: World) {
    PushedPlaced(w) && RunningIsCurrent(w) && UnpushedAway(w)
  }

  /** The context of every task that does not have the processor holds its last registers. */
  ghost predicate ContextsOk(w: World) {
    forall t: TaskRef :: w.s.Occupied(t) && w.s.current != Some(t) ==> t in w.last && w.s.slots[t].context == w.last[t]
  }

  ghost predicate Inv(w: World) {
    && DenseTable(w.s)
    && QueueOk(w) && TasksOk(w) && ContextsOk(w)
    && (w.s.current.Some? ==> w.s.Occupied(w.s.current.value))
  }

  // ---- every step keeps the invariant

  /** The number of created tasks depends only on which slots are Empty. */
  lemma {:induction false} SameCreated(a: Table, b: Table, i: nat)
    requires i <= MAX_TASKS
    requires forall t: TaskRef :: a[t].state == Empty <==> b[t].state == Empty
    ensures FirstEmpty(a, i) == FirstEmpty(b, i)
    decreases MAX_TASKS - i
  {
    if i < MAX_TASKS {
      SameCreated(a, b, i + 1);
    }
  }

  lemma {:induction false} FirstEmptyIs(a: Table, i: nat, r: nat)
    requires i <= r <= MAX_TASKS
    requires forall j: TaskRef :: i <= j < r ==> a[j].state != Empty
    requires r < MAX_TASKS ==> a[r].state == Empty
    ensures FirstEmpty(a, i) == r
    decreases MAX_TASKS - i
  {
    if i < r {
      FirstEmptyIs(a, i + 1, r);
    }
  }

  lemma DenseKept(s: Sched, s': Sched)
    requires DenseTable(s) && s'.idle == s.idle && s'.nextId == s.nextId
    requires forall t: TaskRef :: (s.slots[t].state == Empty <==> s'.slots[t].state == Empty) && s'.slots[t].id == s.slots[t].id
    ensures DenseTable(s')
  {
    SameCreated(s.slots, s'.slots, 0);
  }

  /** The head of a queue without duplicates is not in the tail. */
  lemma QueueTail(q: seq<TaskRef>)
    requires NoDuplicates(q)
    ensures q != [] ==> NoDuplicates(q[1..]) && q[0] !in q[1..]
    ensures q != [] ==> forall t :: t in q <==> t == q[0] || t in q[1..]
  {
    if q != [] {
      assert q == [q[0]] + q[1..];
    }
  }

  lemma BootInv(s: Sched, trampoline: u64, idleEntry: u64, idleStack: u64, idleStackSize: u64)
    requires idleStack != 0 && idleStackSize != 0
    ensures Inv(Booted(s, trampoline, idleEntry, idleStack, idleStackSize))
  {
    var c := Cleared(s);
    assert FirstEmpty(c.slots, 0) == 0;
    var w := Booted(s, trampoline, idleEntry, idleStack, idleStackSize);
    assert w.s.slots[0].state == Ready;
    assert forall t: TaskRef :: t != 0 ==> w.s.slots[t].state == Empty;
    assert FirstEmpty(w.s.slots, 0) == 1;
  }

  /** A new task takes a slot that no task has used: it is not waiting, current or pushed. */
  ghost predicate AddsTask(w: World, w': World, t: TaskRef) {
    && t == Created(w.s) && t !in w.s.queue && t !in w.pushed && w.s.current != Some(t) && w.s.idle != Some(t)
    && w'.s.queue == w.s.queue && w'.s.current == w.s.current && w'.s.idle == w.s.idle && w'.pushed == w.pushed
    && w'.s.nextId == w.s.nextId + 1 && w'.s.slots[t].state == Ready && w'.s.slots[t].id == w.s.nextId
    && w'.last == w.last[t := w'.s.slots[t].context]
    && forall u: TaskRef :: u != t ==> w'.s.slots[u] == w.s.slots[u]
  }

  lemma CreateAdds(w: World, step: Step)
    requires Inv(w) && step.CreateTask? && CanCreate(w.s, step.stackBase, step.stackSize)
    ensures AddsTask(w, Take(w, step), Created(w.s))
  {
    hide FirstEmpty, NoDuplicates, InitialContext, ContextsOk;
    InvHasIdle(w);
  }

  lemma TableWithTask(w: World, w': World, t: TaskRef)
    requires DenseTable(w.s) && AddsTask(w, w', t)
    ensures DenseTable(w'.s)
  {
    hide FirstEmpty;
    FirstEmptyIs(w'.s.slots, 0, t + 1);
  }

  lemma QueueWithTask(w: World, w': World, t: TaskRef)
    requires QueueOk(w) && AddsTask(w, w', t)
    ensures QueueOk(w')
  {
    hide NoDuplicates, Created;
  }

  lemma TasksWithTask(w: World, w': World, t: TaskRef)
    requires TasksOk(w) && AddsTask(w, w', t)
    ensures TasksOk(w')
  {
    hide Created;
  }

  lemma ContextsWithTask(w: World, w': World, t: TaskRef)
    requires Inv(w) && AddsTask(w, w', t)
    ensures ContextsOk(w') && (w'.s.current.Some? ==> w'.s.Occupied(w'.s.current.value))
  {
    hide Created, DenseTable, QueueOk, TasksOk;
  }

  lemma CreateInv(w: World, step: Step)
    requires Inv(w) && step.CreateTask?
    ensures Inv(Take(w, step))
  {
    hide DenseTable, QueueOk, TasksOk, ContextsOk, AddsTask, FirstEmpty, InitialContext;
    InvHasIdle(w);
    if CanCreate(w.s, step.stackBase, step.stackSize) {
      var w', t := Take(w, step), Created(w.s);
      CreateAdds(w, step);
      TableWithTask(w, w', t);
      QueueWithTask(w, w', t);
      TasksWithTask(w, w', t);
      ContextsWithTask(w, w', t);
    }
  }

  /** A push makes an unpushed task the last one waiting. */
  ghost predicate PushesTask(w: World, w': World, t: TaskRef) {
    && t !in w.s.queue && t !in w.pushed && w.s.current != Some(t) && w.s.idle != Some(t) && w.s.Occupied(t)
    && w'.s.queue == w.s.queue + [t] && w'.s.current == w.s.current && w'.s.idle == w.s.idle
    && w'.pushed == w.pushed + {t} && w'.last == w.last && w'.s.nextId == w.s.nextId
    && w'.s.slots[t] == w.s.slots[t].(state := Ready)
    && forall u: TaskRef :: u != t ==> w'.s.slots[u] == w.s.slots[u]
  }

  lemma PushAdds(w: World, step: Step)
    requires Inv(w) && step.PushTask? && Allowed(w, step)
    ensures PushesTask(w, Take(w, step), step.task)
  {
    hide DenseTable, NoDuplicates, ContextsOk, PushedPlaced, RunningIsCurrent;
    InvHasIdle(w);
  }

  lemma QueueWithPush(w: World, w': World, t: TaskRef)
    requires QueueOk(w) && PushesTask(w, w', t)
    ensures QueueOk(w')
  {
    hide NoDuplicates;
    AppendDistinct(w.s.queue, t);
  }

  lemma TasksWithPush(w: World, w': World, t: TaskRef)
    requires TasksOk(w) && PushesTask(w, w', t)
    ensures TasksOk(w')
  {
    assert forall u :: u in w'.s.queue <==> u in w.s.queue || u == t;
  }

  lemma ContextsWithPush(w: World, w': World, t: TaskRef)
    requires Inv(w) && PushesTask(w, w', t)
    ensures ContextsOk(w') && DenseTable(w'.s) && (w'.s.current.Some? ==> w'.s.Occupied(w'.s.current.value))
  {
    hide DenseTable, QueueOk, TasksOk;
    DenseKept(w.s, w'.s);
  }

  lemma PushInv(w: World, step: Step)
    requires Inv(w) && step.PushTask? && Allowed(w, step)
    ensures Inv(Take(w, step))
  {
    hide DenseTable, QueueOk, TasksOk, ContextsOk, PushesTask;
    InvHasIdle(w);
    var w', t := Take(w, step), step.task;
    PushAdds(w, step);
    QueueWithPush(w, w', t);
    TasksWithPush(w, w', t);
    ContextsWithPush(w, w', t);
  }

  /** What stays with a task for its life. */
  predicate SameTask(a: Slot, b: Slot) {
    b.id == a.id && b.entry == a.entry && b.stackBase == a.stackBase && b.stackSize == a.stackSize
  }

  /** What a dispatch changes: `next` becomes current and Running; `prev`, if any, goes to the end of
      the queue as Ready when it is `requeued`, and its registers are saved. */
  ghost predicate Dispatched(s: Sched, s': Sched, prev: Option<TaskRef>, next: TaskRef, requeued: bool) {
    && s'.queue == Popped(s).queue + (if requeued && prev.Some? then [prev.value] else [])
    && s'.current == Some(next) && s'.idle == s.idle && s'.nextId == s.nextId
    && forall t: TaskRef ::
         && SameTask(s.slots[t], s'.slots[t])
         && s'.slots[t].state == (if t == next then Running
                                  else if requeued && prev == Some(t) then Ready
                                  else s.slots[t].state)
         && s'.slots[t].context == (if prev == Some(t) then s.cpu else s.slots[t].context)
  }

  lemma StartDispatches(s: Sched)
    requires NextOrIdle(s).Some?
    ensures Dispatched(s, Start(s), None, NextOrIdle(s).value, false)
    ensures Start(s).cpu == s.slots[NextOrIdle(s).value].context
  {}

  lemma RescheduleDispatches(s: Sched)
    requires s.current.Some? && NextOrIdle(s).Some?
    ensures var c, next := s.current.value, NextOrIdle(s).value;
            && Dispatched(s, Reschedule(s), s.current, next, s.idle != Some(c) && s.slots[c].state == Running)
            && Reschedule(s).cpu == if next == c then s.cpu else s.slots[next].context
  {}

  /** The next task is the head of the queue, which is Ready, or idle. */
  lemma NextIs(w: World, q: seq<TaskRef>)
    requires Inv(w) && q == Popped(w.s).queue
    ensures NextOrIdle(w.s).Some?
    ensures var next := NextOrIdle(w.s).value;
            && NoDuplicates(q) && next !in q
            && (forall t :: t in w.s.queue <==> t in q || (t == next && w.s.idle != Some(next)))
            && (w.s.idle != Some(next) ==>
                  next in w.pushed && w.s.slots[next].state == Ready && w.s.current != Some(next))
  {
    hide DenseTable, TasksOk, ContextsOk;
    InvHasIdle(w);
    QueueTail(w.s.queue);
  }

  /** The states between w and w' of a dispatch: the previous task is marked Dead first when it exits,
      and goes back to the queue when it does not, unless it is idle. */
  ghost predicate Handover(w: World, s0: Sched, w': World, exiting: bool, requeued: bool) {
    var prev := w.s.current;
    && NextOrIdle(w.s).Some?
    && (exiting ==> prev.Some?)
    && s0 == (if exiting then w.s.WithState(prev.value, Dead) else w.s)
    && requeued == (!exiting && prev.Some? && w.s.idle != prev)
    && Dispatched(s0, w'.s, prev, NextOrIdle(w.s).value, requeued)
    && w'.pushed == w.pushed
    && w'.last == if prev.None? then w.last else w.last[prev.value := w.s.cpu]
  }

  lemma QueueAfter(w: World, s0: Sched, w': World, exiting: bool, requeued: bool)
    requires Inv(w) && Handover(w, s0, w', exiting, requeued)
    ensures QueueOk(w')
    ensures forall t :: t in w'.s.queue <==> t in Popped(w.s).queue || (requeued && w.s.current == Some(t))
  {
    hide DenseTable, ContextsOk, TasksOk, NextOrIdle, QueueOk, NoDuplicates;
    NextIs(w, Popped(w.s).queue);
    CurrentNotQueued(w);
    var q := Popped(w.s).queue;
    assert forall t :: t in w'.s.queue <==> t in q || (requeued && w.s.current == Some(t));
    WaitingIs(w);
    if requeued {
      AppendDistinct(q, w.s.current.value);
    } else {
      assert w'.s.queue == q;
    }
    QueueOkFrom(w');
  }

  lemma AppendDistinct(q: seq<TaskRef>, t: TaskRef)
    requires NoDuplicates(q) && t !in q
    ensures NoDuplicates(q + [t])
  {}

  lemma CurrentNotQueued(w: World)
    requires Inv(w)
    ensures forall t :: w.s.current == Some(t) ==> t !in w.s.queue && (w.s.idle != Some(t) ==> t in w.pushed)
  {
    hide DenseTable, ContextsOk;
  }

  lemma WaitingIs(w: World)
    requires Inv(w)
    ensures forall t :: t in w.s.queue ==>
                          t in w.pushed && w.s.slots[t].state == Ready && w.s.idle != Some(t) && w.s.current != Some(t)
  {
    hide DenseTable, ContextsOk, TasksOk;
  }

  lemma QueueOkFrom(w: World)
    requires NoDuplicates(w.s.queue)
    requires forall t :: t in w.s.queue ==>
                           t in w.pushed && w.s.slots[t].state == Ready && w.s.idle != Some(t) && w.s.current != Some(t)
    ensures QueueOk(w)
  {}

  lemma PushedAfter(w: World, s0: Sched, w': World, exiting: bool, requeued: bool)
    requires Inv(w) && Handover(w, s0, w', exiting, requeued)
    ensures PushedPlaced(w')
  {
    hide DenseTable, ContextsOk, QueueOk, RunningIsCurrent, UnpushedAway, NoDuplicates;
    NextIs(w, Popped(w.s).queue);
    QueueAfter(w, s0, w', exiting, requeued);
  }

  lemma RunningAfter(w: World, s0: Sched, w': World, exiting: bool, requeued: bool)
    requires Inv(w) && Handover(w, s0, w', exiting, requeued)
    ensures RunningIsCurrent(w')
  {
    hide DenseTable, ContextsOk, QueueOk, PushedPlaced, UnpushedAway, NoDuplicates;
  }

  lemma UnpushedAfter(w: World, s0: Sched, w': World, exiting: bool, requeued: bool)
    requires Inv(w) && Handover(w, s0, w', exiting, requeued)
    ensures UnpushedAway(w')
  {
    hide DenseTable, ContextsOk, QueueOk, PushedPlaced, RunningIsCurrent, NoDuplicates;
    NextIs(w, Popped(w.s).queue);
  }

  lemma TasksAfter(w: World, s0: Sched, w': World, exiting: bool, requeued: bool)
    requires Inv(w) && Handover(w, s0, w', exiting, requeued)
    ensures TasksOk(w')
  {
    hide Inv, Handover, PushedPlaced, RunningIsCurrent, UnpushedAway;
    PushedAfter(w, s0, w', exiting, requeued);
    RunningAfter(w, s0, w', exiting, requeued);
    UnpushedAfter(w, s0, w', exiting, requeued);
  }

  lemma ContextsAfter(w: World, s0: Sched, w': World, exiting: bool, requeued: bool)
    requires Inv(w) && Handover(w, s0, w', exiting, requeued)
    ensures ContextsOk(w')
  {
    hide DenseTable, QueueOk;
    NextIs(w, Popped(w.s).queue);
  }

  lemma TableAfter(w: World, s0: Sched, w': World, exiting: bool, requeued: bool)
    requires Inv(w) && Handover(w, s0, w', exiting, requeued)
    ensures DenseTable(w'.s) && w'.s.Occupied(NextOrIdle(w.s).value)
  {
    hide QueueOk, ContextsOk, PushedPlaced, RunningIsCurrent, UnpushedAway, NoDuplicates, FirstEmpty;
    NextIs(w, Popped(w.s).queue);
    DenseKept(w.s, w'.s);
  }

  /** A dispatch keeps the invariant. */
  lemma AfterDispatch(w: World, s0: Sched, w': World, exiting: bool, requeued: bool)
    requires Inv(w) && Handover(w, s0, w', exiting, requeued)
    ensures Inv(w')
  {
    hide DenseTable, QueueOk, TasksOk, ContextsOk;
    QueueAfter(w, s0, w', exiting, requeued);
    TasksAfter(w, s0, w', exiting, requeued);
    ContextsAfter(w, s0, w', exiting, requeued);
    TableAfter(w, s0, w', exiting, requeued);
  }

  lemma StartHandsOver(w: World)
    requires Inv(w) && w.s.current.None?
    ensures Handover(w, w.s, Take(w, StartScheduler), false, false)
  {
    hide DenseTable, QueueOk, TasksOk, ContextsOk, Dispatched;
    InvHasIdle(w);
    NextIs(w, Popped(w.s).queue);
    StartDispatches(w.s);
  }

  lemma YieldHandsOver(w: World)
    requires Inv(w) && w.s.current.Some?
    ensures Handover(w, w.s, Take(w, Yield), false, w.s.idle != w.s.current)
  {
    hide DenseTable, QueueOk, ContextsOk, Dispatched;
    NextIs(w, Popped(w.s).queue);
    RescheduleDispatches(w.s);
  }

  lemma ExitHandsOver(w: World)
    requires Inv(w) && w.s.current.Some?
    ensures Handover(w, w.s.WithState(w.s.current.value, Dead), Take(w, ExitTask), true, false)
  {
    hide DenseTable, QueueOk, ContextsOk, Dispatched;
    NextIs(w, Popped(w.s).queue);
    RescheduleDispatches(w.s.WithState(w.s.current.value, Dead));
  }

  lemma StepInv(w: World, step: Step)
    requires Inv(w) && Allowed(w, step)
    ensures Inv(Take(w, step))
  {
    match step
    case CreateTask(_, _, _, _) => CreateInv(w, step);
    case PushTask(_) => PushInv(w, step);
    case StartScheduler =>
      StartHandsOver(w);
      AfterDispatch(w, w.s, Take(w, StartScheduler), false, false);
    case Yield =>
      YieldHandsOver(w);
      AfterDispatch(w, w.s, Take(w, Yield), false, w.s.idle != w.s.current);
    case ExitTask =>
      ExitHandsOver(w);
      AfterDispatch(w, w.s.WithState(w.s.current.value, Dead), Take(w, ExitTask), true, false);
    case Execute(_) => DenseKept(w.s, Take(w, step).s);
  }

  /** The invariant holds in every state that a run reaches. */
  lemma {:induction false} RunInv(w: World, steps: seq<Step>)
    requires Inv(w) && AllowedRun(w, steps)
    ensures Inv(Run(w, steps))
    decreases |steps|
  {
    hide Inv, Allowed, Take;
    if steps != [] {
      InvHasIdle(w);
      StepInv(w, steps[0]);
      RunInv(Take(w, steps[0]), steps[1..]);
    }
  }

  lemma InvHasIdle(w: World)
    requires Inv(w)
    ensures w.s.idle == Some(0)
  {}

  // ---- one step

  /** What one step changes, whatever the step: occupied slots stay occupied with their ids, entries
      and stacks, Dead tasks stay Dead, and the registers remembered for a task change only when it gives up the
      processor. */
  lemma StepKeeps(w: World, step: Step, t: TaskRef)
    requires Inv(w) && Allowed(w, step) && w.s.Occupied(t)
    ensures var w' := Take(w, step);
            && w'.s.Occupied(t) && SameTask(w.s.slots[t], w'.s.slots[t])
            && w.pushed <= w'.pushed
            && (t != 0 && w.s.slots[t].state == Dead ==> w'.s.slots[t].state == Dead)
            && (w.s.current != Some(t) ==> t in w'.last && w'.last[t] == w.last[t])
  {
    hide Inv, Take;
    InvHasIdle(w);
    match step
    case CreateTask(_, _, _, _) => OtherStepKeeps(w, step, t);
    case PushTask(_) => OtherStepKeeps(w, step, t);
    case StartScheduler =>
      StartHandsOver(w);
      HandoverKeeps(w, w.s, Take(w, step), false, false, t);
    case Yield =>
      CurrentFrom(w, step);
      YieldHandsOver(w);
      HandoverKeeps(w, w.s, Take(w, step), false, w.s.idle != w.s.current, t);
    case ExitTask =>
      CurrentFrom(w, step);
      ExitHandsOver(w);
      HandoverKeeps(w, w.s.WithState(w.s.current.value, Dead), Take(w, step), true, false, t);
    case Execute(_) => OtherStepKeeps(w, step, t);
  }

  lemma CurrentFrom(w: World, step: Step)
    requires Allowed(w, step) && IsReschedule(step)
    ensures w.s.current.Some?
  {}

  lemma OtherStepKeeps(w: World, step: Step, t: TaskRef)
    requires Inv(w) && Allowed(w, step) && w.s.Occupied(t)
    requires step.CreateTask? || step.PushTask? || step.Execute?
    ensures var w' := Take(w, step);
            && w'.s.Occupied(t) && SameTask(w.s.slots[t], w'.s.slots[t])
            && w.pushed <= w'.pushed
            && (t != 0 && w.s.slots[t].state == Dead ==> w'.s.slots[t].state == Dead)
            && (w.s.current != Some(t) ==> t in w'.last && w'.last[t] == w.last[t])
  {
    hide QueueOk, InitialContext;
    InvHasIdle(w);
  }

  lemma HandoverKeeps(w: World, s0: Sched, w': World, exiting: bool, requeued: bool, t: TaskRef)
    requires Inv(w) && Handover(w, s0, w', exiting, requeued) && w.s.Occupied(t)
    ensures && w'.s.Occupied(t) && SameTask(w.s.slots[t], w'.s.slots[t])
            && w.pushed <= w'.pushed
            && (t != 0 && w.s.slots[t].state == Dead ==> w'.s.slots[t].state == Dead)
            && (w.s.current != Some(t) ==> t in w'.last && w'.last[t] == w.last[t])
  {
    hide QueueOk, DenseTable;
    InvHasIdle(w);
    NextIs(w, Popped(w.s).queue);
  }

  /** Dead is absorbing, slots never return to Empty, and ids, entries and stacks never change, over every run. */
  lemma {:induction false} RunKeeps(w: World, steps: seq<Step>, t: TaskRef)
    requires Inv(w) && AllowedRun(w, steps) && w.s.Occupied(t)
    ensures var w' := Run(w, steps);
            && w'.s.Occupied(t) && SameTask(w.s.slots[t], w'.s.slots[t])
            && w.pushed <= w'.pushed
            && (t != 0 && w.s.slots[t].state == Dead ==> w'.s.slots[t].state == Dead)
    decreases |steps|
  {
    hide Inv, Allowed, Take;
    if steps != [] {
      InvHasIdle(w);
      StepInv(w, steps[0]);
      StepKeeps(w, steps[0], t);
      RunKeeps(Take(w, steps[0]), steps[1..], t);
    }
  }

  /** Once boot is done, no two tasks of any later state share an id, and a pushed task is in exactly one
      of the queue, the processor and the dead. */
  lemma TaskPlaces(w: World, steps: seq<Step>, t: TaskRef, u: TaskRef)
    requires Inv(w) && AllowedRun(w, steps)
    ensures var s := Run(w, steps).s;
            && (s.Occupied(t) && s.Occupied(u) && t != u ==> s.slots[t].id != s.slots[u].id)
            && (t in Run(w, steps).pushed ==>
                  && (t in s.queue || s.current == Some(t) || s.slots[t].state == Dead)
                  && !(t in s.queue && s.current == Some(t))
                  && !(t in s.queue && s.slots[t].state == Dead)
                  && !(s.current == Some(t) && s.slots[t].state == Dead))
  {
    hide Run, AllowedRun, ContextsOk;
    InvHasIdle(w);
    RunInv(w, steps);
  }

  // ---- bounded waiting

  /** Position of a waiting task after one step. */
  lemma QueueAdvances(w: World, step: Step, i: nat)
    requires Inv(w) && Allowed(w, step) && w.s.current.Some? && i < |w.s.queue|
    ensures var w' := Take(w, step);
            && w'.s.current.Some?
            && if !IsReschedule(step) then i < |w'.s.queue| && w'.s.queue[i] == w.s.queue[i] && w'.s.current == w.s.current
               else if i == 0 then w'.s.current == Some(w.s.queue[0])
               else i - 1 < |w'.s.queue| && w'.s.queue[i - 1] == w.s.queue[i]
  {
    hide DenseTable, TasksOk, ContextsOk, QueueOk;
    InvHasIdle(w);
    match step
    case CreateTask(_, _, _, _) =>
    case PushTask(_) =>
    case StartScheduler =>
    case Yield => YieldHandsOver(w);
    case ExitTask => ExitHandsOver(w);
    case Execute(_) =>
  }

  /** A task at position i of the ready queue waits through i reschedules, whatever mix of yields and
      exits they are and whatever else happens between them... */
  lemma {:induction false} StillWaiting(w: World, steps: seq<Step>, i: nat)
    requires Inv(w) && AllowedRun(w, steps) && w.s.current.Some? && i < |w.s.queue|
    requires Reschedules(steps) <= i
    ensures var s := Run(w, steps).s;
            && s.current.Some? && s.current != Some(w.s.queue[i])
            && i - Reschedules(steps) < |s.queue| && s.queue[i - Reschedules(steps)] == w.s.queue[i]
    decreases |steps|
  {
    hide Inv, Allowed, Take;
    InvHasIdle(w);
    if steps == [] {
      WaitingNotCurrent(w, i);
    } else {
      StepInv(w, steps[0]);
      QueueAdvances(w, steps[0], i);
      StillWaiting(Take(w, steps[0]), steps[1..], if IsReschedule(steps[0]) then i - 1 else i);
    }
  }

  lemma WaitingNotCurrent(w: World, i: nat)
    requires Inv(w) && i < |w.s.queue|
    ensures w.s.current != Some(w.s.queue[i])
  {}

  /** ... and becomes current at exactly the (i + 1)-th. */
  lemma BoundedWaiting(w: World, steps: seq<Step>, last: Step, i: nat)
    requires Inv(w) && AllowedRun(w, steps) && w.s.current.Some? && i < |w.s.queue|
    requires Reschedules(steps) == i && IsReschedule(last)
    ensures Take(Run(w, steps), last).s.current == Some(w.s.queue[i])
  {
    hide Inv, Allowed, Take, Run, AllowedRun;
    InvHasIdle(w);
    StillWaiting(w, steps, i);
    RunInv(w, steps);
    AllowedWhenCurrent(Run(w, steps), last);
    QueueAdvances(Run(w, steps), last, 0);
  }

  lemma AllowedWhenCurrent(w: World, step: Step)
    requires w.s.current.Some? && IsReschedule(step)
    ensures Allowed(w, step)
  {}

  /** The processor and its queue, in the order in which tasks will run. */
  function Ring(s: Sched): seq<TaskRef>
    requires s.current.Some?
  {
    [s.current.value] + s.queue
  }

  function Yields(k: nat): seq<Step> {
    seq(k, i => Yield)
  }

  /** While a task other than idle is current and others wait, k yields rotate the ring by k places; so
      |queue| + 1 yields bring every task back to its place. */
  lemma {:induction false} YieldsRotate(w: World, k: nat)
    requires Inv(w) && w.s.current.Some? && w.s.current != Some(0) && w.s.queue != []
    requires k <= |w.s.queue| + 1
    ensures AllowedRun(w, Yields(k))
    ensures var s := Run(w, Yields(k)).s;
            s.current.Some? && s.current != Some(0) && Ring(s) == Ring(w.s)[k..] + Ring(w.s)[..k]
    decreases k
  {
    hide Inv;
    InvHasIdle(w);
    if k == 0 {
      assert Ring(w.s)[0..] + Ring(w.s)[..0] == Ring(w.s);
    } else {
      assert Yields(k)[0] == Yield && Yields(k)[1..] == Yields(k - 1);
      StepInv(w, Yield);
      YieldRotates(w);
      YieldsRotate(Take(w, Yield), k - 1);
      RotateMore(Ring(w.s), Ring(Take(w, Yield).s), k - 1);
    }
  }

  lemma YieldRotates(w: World)
    requires Inv(w) && w.s.current.Some? && w.s.current != Some(0) && w.s.queue != []
    ensures var s := Take(w, Yield).s;
            && s.current.Some? && s.current != Some(0) && |s.queue| == |w.s.queue|
            && Ring(s) == Ring(w.s)[1..] + Ring(w.s)[..1]
  {
    hide DenseTable, ContextsOk;
    InvHasIdle(w);
    YieldHandsOver(w);
    assert w.s.queue[0] in w.s.queue;
  }

  lemma RotateMore(r: seq<TaskRef>, r': seq<TaskRef>, k: nat)
    requires k < |r| && r' == r[1..] + r[..1]
    ensures r'[k..] + r'[..k] == r[k + 1..] + r[..k + 1]
  {}

  // ---- register isolation

  /** The task is not current in any state of the run but the last. */
  predicate AwayUntilLast(w: World, steps: seq<Step>, t: TaskRef)
    requires w.s.idle.Some?
    decreases |steps|
  {
    steps == [] || (w.s.current != Some(t) && AwayUntilLast(Take(w, steps[0]), steps[1..], t))
  }

  lemma StartResumes(w: World, t: TaskRef)
    requires Inv(w) && w.s.current.None? && w.s.Occupied(t)
    ensures Take(w, StartScheduler).s.current == Some(t) ==> Take(w, StartScheduler).s.cpu == w.last[t]
  {
    hide QueueOk, TasksOk, DenseTable;
    NextIs(w, Popped(w.s).queue);
    StartDispatches(w.s);
  }

  lemma YieldResumes(w: World, t: TaskRef)
    requires Inv(w) && w.s.current.Some? && w.s.Occupied(t) && w.s.current != Some(t)
    ensures Take(w, Yield).s.current == Some(t) ==> Take(w, Yield).s.cpu == w.last[t]
  {
    hide QueueOk, TasksOk, DenseTable, Reschedule;
    NextIs(w, Popped(w.s).queue);
    RescheduleDispatches(w.s);
  }

  lemma ExitResumes(w: World, t: TaskRef)
    requires Inv(w) && w.s.current.Some? && w.s.Occupied(t) && w.s.current != Some(t)
    ensures Take(w, ExitTask).s.current == Some(t) ==> Take(w, ExitTask).s.cpu == w.last[t]
  {
    hide QueueOk, TasksOk, DenseTable, Reschedule;
    NextIs(w, Popped(w.s).queue);
    RescheduleDispatches(w.s.WithState(w.s.current.value, Dead));
  }

  /** A step that makes a waiting task current gives it the registers remembered for it. */
  lemma StepResumes(w: World, step: Step, t: TaskRef)
    requires Inv(w) && Allowed(w, step) && w.s.Occupied(t) && w.s.current != Some(t)
    ensures Take(w, step).s.current == Some(t) ==> Take(w, step).s.cpu == w.last[t]
  {
    hide DenseTable, QueueOk, TasksOk, Reschedule, Start, Exit;
    InvHasIdle(w);
    match step
    case CreateTask(_, _, _, _) =>
    case PushTask(_) =>
    case StartScheduler => StartResumes(w, t);
    case Yield => YieldResumes(w, t);
    case ExitTask => ExitResumes(w, t);
    case Execute(_) =>
  }

  /** Across any run of other tasks, whatever they leave in the registers, a task that becomes current
      again finds exactly the registers remembered for it: those it left with when it last gave up
      the processor, or those it was created with. */
  lemma {:induction false} ResumesWithOwnRegisters(w: World, steps: seq<Step>, t: TaskRef)
    requires Inv(w) && AllowedRun(w, steps) && w.s.Occupied(t) && w.s.current != Some(t)
    requires AwayUntilLast(w, steps, t)
    ensures Run(w, steps).s.current == Some(t) ==> t in w.last && Run(w, steps).s.cpu == w.last[t]
    decreases |steps|
  {
    hide Inv, Allowed, Take;
    if steps != [] {
      InvHasIdle(w);
      var w1 := Take(w, steps[0]);
      StepInv(w, steps[0]);
      StepKeeps(w, steps[0], t);
      StepResumes(w, steps[0], t);
      LastKnown(w, t);
      if w1.s.current == Some(t) {
        assert steps[1..] == [];
      } else {
        ResumesWithOwnRegisters(w1, steps[1..], t);
      }
    }
  }

  lemma LastKnown(w: World, t: TaskRef)
    requires Inv(w) && w.s.Occupied(t) && w.s.current != Some(t)
    ensures t in w.last
  {}

  /** A task that yields to another task and is later resumed continues with the registers it had. */
  lemma YieldPreservesRegisters(w: World, steps: seq<Step>, t: TaskRef)
    requires Inv(w) && w.s.current == Some(t)
    requires Take(w, Yield).s.current != Some(t)
    requires AllowedRun(Take(w, Yield), steps) && AwayUntilLast(Take(w, Yield), steps, t)
    requires Run(Take(w, Yield), steps).s.current == Some(t)
    ensures Run(Take(w, Yield), steps).s.cpu == w.s.cpu
  {
    hide Inv, Run, AllowedRun, AwayUntilLast;
    InvHasIdle(w);
    StepInv(w, Yield);
    CurrentOccupied(w);
    StepKeeps(w, Yield, t);
    ResumesWithOwnRegisters(Take(w, Yield), steps, t);
  }

  lemma CurrentOccupied(w: World)
    requires Inv(w) && w.s.current.Some?
    ensures w.s.Occupied(w.s.current.value)
  {}

  // ---- outside the discipline

  /** A reschedule before the scheduler is started loses the head of the queue: every waiting task
      stays in the queue or becomes current exactly when there is a current task or nothing waits. */
  lemma RescheduleLosesExactly(w: World)
    requires Inv(w)
    ensures (forall t :: t in w.s.queue ==> t in Reschedule(w.s).queue || Reschedule(w.s).current == Some(t))
            <==> (w.s.current.Some? || w.s.queue == [])
  {
    hide DenseTable, ContextsOk, TasksOk;
    InvHasIdle(w);
    QueueTail(w.s.queue);
    if w.s.current.Some? {
      RescheduleDispatches(w.s);
    } else if w.s.queue != [] {
      assert w.s.queue[0] in w.s.queue && w.s.queue[0] !in w.s.queue[1..];
    }
  }

  // ---- initial stacks

  lemma StackPointerIs(stackBase: u64, stackSize: u64)
    ensures var top := Wrap(stackBase + stackSize);
            InitialStackPointer(stackBase, stackSize) == top - top % 16
  {
    var top := Wrap(stackBase + stackSize);
    Pow2Of64();
    assert Pow2(4) == 16;
    Page.SplitByMask(top, 0xf, 64);
    MaskIsLow(top, 4);
    Low4Is(top, 4);
  }

  lemma Low4Is(x: nat, n: nat)
    requires n == 4
    ensures Low(x, n) == x % 16
  {
    hide Low;
    Low3(x, n - 3);
    LowStep(x / 8, n - 3);
    NoLowBits(x / 8 / 2, n - 4);
    Modulo16(x);
  }

  lemma NoLowBits(x: nat, n: nat)
    requires n == 0
    ensures Low(x, n) == 0
  {}

  lemma Modulo16(x: nat)
    ensures x % 16 == 8 * (x / 8 % 2) + x % 8
  {}

  lemma NewContext(trampoline: u64, stackBase: u64, stackSize: u64)
    ensures var c, top := InitialContext(trampoline, stackBase, stackSize), Wrap(stackBase + stackSize);
            && c.ra == trampoline && c.sp == top - top % 16
            && c.s0 == c.s1 == c.s2 == c.s3 == c.s4 == c.s5 == c.s6 == c.s7 == c.s8 == c.s9 == c.s10 == c.s11 == 0
  {
    hide InitialStackPointer, Wrap;
    StackPointerIs(stackBase, stackSize);
  }

  /** A creation does nothing without a stack or an Empty slot.  Otherwise the first Empty slot gets a Ready
      task whose first switch enters the trampoline at the aligned top of its stack, with all other
      registers 0. */
  lemma CreatedTask(w: World, trampoline: u64, entry: u64, stackBase: u64, stackSize: u64)
    requires w.s.idle.Some?
    ensures var w', t := Take(w, CreateTask(trampoline, entry, stackBase, stackSize)), FirstEmpty(w.s.slots, 0);
            if stackBase == 0 || stackSize == 0 || t == 32 then w' == w
            else
              var task, c, top := w'.s.slots[t], w'.s.slots[t].context, Wrap(stackBase + stackSize);
              && task.id == w.s.nextId && task.state == Ready && task.entry == entry
              && task.stackBase == stackBase && task.stackSize == stackSize
              && c.ra == trampoline && c.sp == top - top % 16
              && c.s0 == c.s1 == c.s2 == c.s3 == c.s4 == c.s5 == c.s6 == c.s7 == c.s8 == c.s9 == c.s10 == c.s11 == 0
              && w' == w.(s := w.s.(slots := w.s.slots[t := task], nextId := w.s.nextId + 1), last := w.last[t := c])
  {
    hide InitialContext, FirstEmpty, Wrap;
    NewContext(trampoline, stackBase, stackSize);
  }

  /** The stack pointer of a new task is 16-byte aligned, and lies above the base and not above the end
      of its stack exactly when the stack does not wrap and is larger than what alignment drops. */
  lemma InitialStackInside(w: World, trampoline: u64, entry: u64, stackBase: u64, stackSize: u64)
    requires w.s.idle.Some? && stackBase != 0 && stackSize != 0 && FirstEmpty(w.s.slots, 0) < 32
    ensures var sp := Take(w, CreateTask(trampoline, entry, stackBase, stackSize)).s.slots[FirstEmpty(w.s.slots, 0)].context.sp;
            && sp % 16 == 0
            && (stackBase < sp <= stackBase + stackSize
                <==> (stackBase + stackSize < WORD_LIMIT && (stackBase + stackSize) % 16 < stackSize))
            && (stackSize >= 16 && stackBase + stackSize < WORD_LIMIT ==> stackBase < sp <= stackBase + stackSize)
  {
    hide Take, FirstEmpty, Wrap;
    CreatedTask(w, trampoline, entry, stackBase, stackSize);
    WrapOnce(stackBase, stackSize);
    InsideExactly(stackBase, stackSize, Wrap(stackBase + stackSize));
  }

  lemma WrapOnce(x: u64, y: u64)
    ensures Wrap(x + y) == if x + y < WORD_LIMIT then x + y else x + y - WORD_LIMIT
  {}

  lemma InsideExactly(base: u64, size: u64, top: u64)
    requires size > 0 && top == if base + size < WORD_LIMIT then base + size else base + size - WORD_LIMIT
    ensures (top - top % 16) % 16 == 0
    ensures base < top - top % 16 <= base + size <==> (base + size < WORD_LIMIT && (base + size) % 16 < size)
  {}

  // ---- the size of the task table

  /** The creations with a stack. */
  function Creations(steps: seq<Step>): nat {
    if steps == [] then 0
    else Creations(steps[1..])
         + if steps[0].CreateTask? && steps[0].stackBase != 0 && steps[0].stackSize != 0 then 1 else 0
  }

  lemma CreatedStep(w: World, step: Step)
    requires Inv(w) && Allowed(w, step)
    ensures Inv(Take(w, step))
    ensures Created(Take(w, step).s) ==
            Created(w.s) + if Created(w.s) < 32 && Creations([step]) == 1 then 1 else 0
  {
    hide QueueOk, TasksOk, ContextsOk, FirstEmpty, InitialContext, NoDuplicates;
    StepInv(w, step);
    assert [step][1..] == [];
  }

  lemma {:induction false} CreatedCount(w: World, steps: seq<Step>)
    requires Inv(w) && AllowedRun(w, steps)
    ensures Created(Run(w, steps).s) ==
            if Created(w.s) + Creations(steps) < 32 then Created(w.s) + Creations(steps) else 32
    decreases |steps|
  {
    hide Inv, Take, Allowed, Created;
    CreatedBound(w.s);
    InvHasIdle(w);
    if steps != [] {
      CreatedStep(w, steps[0]);
      InvHasIdle(Take(w, steps[0]));
      CreatedCount(Take(w, steps[0]), steps[1..]);
      assert [steps[0]][1..] == [];
    }
  }

  lemma CreatedBound(s: Sched)
    ensures Created(s) <= 32
  {}

  /** After boot 31 tasks can be created: whatever else happens, a creation with a stack succeeds exactly
      when fewer than 31 did before. */
  lemma ThirtyOneTasks(s: Sched, trampoline: u64, idleEntry: u64, idleStack: u64, idleStackSize: u64,
                       steps: seq<Step>, stackBase: u64, stackSize: u64)
    requires idleStack != 0 && idleStackSize != 0
    requires var w := Booted(s, trampoline, idleEntry, idleStack, idleStackSize);
             w.s.idle.Some? && AllowedRun(w, steps)
    ensures var w := Run(Booted(s, trampoline, idleEntry, idleStack, idleStackSize), steps);
            CanCreate(w.s, stackBase, stackSize) <==> stackBase != 0 && stackSize != 0 && Creations(steps) < 31
  {
    hide Booted, AllowedRun, Run, FirstEmpty;
    var w := Booted(s, trampoline, idleEntry, idleStack, idleStackSize);
    BootInv(s, trampoline, idleEntry, idleStack, idleStackSize);
    BootIs(s, trampoline, idleEntry, idleStack, idleStackSize);
    CreatedCount(w, steps);
  }

  /** Boot clears every slot and, when it has a stack, makes the idle task the first one. */
  lemma BootIs(s: Sched, trampoline: u64, idleEntry: u64, idleStack: u64, idleStackSize: u64)
    ensures var w := Booted(s, trampoline, idleEntry, idleStack, idleStackSize).s;
            && w.queue == [] && w.current == None && w.cpu == s.cpu
            && (forall t: TaskRef :: t != 0 || idleStack == 0 || idleStackSize == 0 ==>
                  w.slots[t].state == Empty && w.slots[t].entry == w.slots[t].stackBase == w.slots[t].stackSize == 0
                  && w.slots[t].id == s.slots[t].id && w.slots[t].context == s.slots[t].context)
            && if idleStack == 0 || idleStackSize == 0 then w.idle == None && w.nextId == 1
               else
                 var task, c, top := w.slots[0], w.slots[0].context, Wrap(idleStack + idleStackSize);
                 && w.idle == Some(0) && w.nextId == 2
                 && task.id == 1 && task.state == Ready && task.entry == idleEntry
                 && task.stackBase == idleStack && task.stackSize == idleStackSize
                 && c.ra == trampoline && c.sp == top - top % 16
                 && c.s0 == c.s1 == c.s2 == c.s3 == c.s4 == c.s5 == c.s6 == c.s7 == c.s8 == c.s9 == c.s10 == c.s11 == 0
  {
    hide InitialContext, Wrap;
    assert FirstEmpty(Cleared(s).slots, 0) == 0;
    NewContext(trampoline, idleStack, idleStackSize);
  }

  /** An exit ends a task other than idle: it is Dead and nowhere else. */
  lemma ExitEnds(w: World, t: TaskRef)
    requires Inv(w) && w.s.current == Some(t) && t != 0
    ensures var w' := Take(w, ExitTask).s;
            w'.slots[t].state == Dead && t !in w'.queue && w'.current != Some(t)
  {
    hide QueueOk, TasksOk, ContextsOk;
    InvHasIdle(w);
    CurrentNotQueued(w);
    NextIs(w, Popped(w.s).queue);
    ExitHandsOver(w);
  }
}
