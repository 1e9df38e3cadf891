/** The kernel objects take every run of the state machine: what is proved about runs holds of them. */
module KernelRuns {
  import opened Word64
  import opened Scheduling
  import opened SchedulingProperties
  import opened Lists
  import opened TaskSystem

  /** In every reachable state a running task that reschedule will push is not waiting. */
  lemma InvRequeuable(w: World)
    requires Inv(w)
    ensures Requeuable(w.s)
  {
    hide DenseTable, TasksOk, ContextsOk;
    QueueTail(w.s.queue);
  }

  /** In every reachable state the slot that the next task gets is not waiting. */
  lemma InvSlotFree(w: World)
    requires Inv(w)
    ensures FirstEmpty(w.s.slots, 0) !in w.s.queue
  {
    hide ContextsOk, FirstEmpty;
  }

  lemma PushNotQueued(w: World, t: TaskRef)
    requires Inv(w) && Allowed(w, PushTask(t))
    ensures t !in w.s.queue
  {
    hide DenseTable, ContextsOk, TasksOk;
  }

  lemma StartHasNext(w: World)
    requires Inv(w)
    ensures w.s.idle.Some? && NextOrIdle(w.s).Some?
  {
    InvHasIdle(w);
  }

  /** What each step does to the scheduler state. */
  lemma TakeIs(w: World, step: Step)
    requires w.s.idle.Some? && Allowed(w, step)
    ensures Take(w, step).s == match step
                               case CreateTask(tr, e, b, n) => Create(w.s, tr, e, b, n)
                               case PushTask(t) => Scheduling.Push(w.s, t)
                               case StartScheduler => Start(w.s)
                               case Yield => Reschedule(w.s)
                               case ExitTask => Exit(w.s)
                               case Execute(r) => w.s.(cpu := r)
  {
    hide Create, Scheduling.Push, Start, Reschedule, Exit;
    if step.CreateTask? && !CanCreate(w.s, step.stackBase, step.stackSize) {
      NotCreated(w.s, step.trampoline, step.entry, step.stackBase, step.stackSize);
    }
  }

  lemma NotCreated(s: Sched, trampoline: u64, entry: u64, stackBase: u64, stackSize: u64)
    requires !CanCreate(s, stackBase, stackSize)
    ensures Create(s, trampoline, entry, stackBase, stackSize) == s
  {}

  /** Performs one allowed step on the objects. */
  method TakeStep(k: Kernel, step: Step, ghost w: World)
    requires k.Valid() && k.model == w.s && Inv(w) && Allowed(w, step)
    modifies k.Objects()
    ensures k.Valid() && w.s.idle.Some? && k.model == Take(w, step).s && Inv(Take(w, step))
  {
    hide *;
    StartHasNext(w);
    TakeIs(w, step);
    StepInv(w, step);
    match step {
      case CreateTask(trampoline, entry, stackBase, stackSize) =>
        InvSlotFree(w);
        var task := k.CreateKernelTask(trampoline, entry, stackBase, stackSize);
      case PushTask(t) =>
        PushNotQueued(w, t);
        k.Facts();
        k.Queued(k.tasks[t]);
        var ok := k.Push(k.tasks[t]);
      case StartScheduler =>
        k.Start();
      case Yield =>
        InvRequeuable(w);
        k.Yield();
      case ExitTask =>
        k.SysExit();
      case Execute(registers) =>
        k.Execute(registers);
    }
  }

  /** What Valid() says about the objects after boot. */
  lemma ObjectsAre(k: Kernel)
    requires k.Valid()
    ensures |k.tasks| == 32 && |k.readyQueue.list.nodes| == |k.model.queue|
    ensures k.nextId == k.model.nextId && (k.current == null <==> k.model.current.None?)
    ensures k.idleTask == if k.model.idle.None? then null else k.tasks[k.model.idle.value]
    ensures forall i :: 0 <= i < 32 ==>
              && k.tasks[i].id == k.model.slots[i].id && k.tasks[i].state == k.model.slots[i].state
              && k.tasks[i].context == k.model.slots[i].context && k.tasks[i].entry == k.model.slots[i].entry
              && k.tasks[i].stackBase == k.model.slots[i].stackBase && k.tasks[i].stackSize == k.model.slots[i].stackSize
  {
    hide List.Valid;
    assert forall i :: 0 <= i < 32 ==> k.tasks[i].View() == k.model.slots[i];
  }

  /** TaskManager::init and Scheduler::init. */
  method Boot(k: Kernel, trampoline: u64, idleEntry: u64, idleStack: u64, idleStackSize: u64)
    requires k.Valid() && 0 !in k.model.queue
    modifies k.Objects()
    ensures k.Valid()
    ensures k.model == Booted(old(k.model), trampoline, idleEntry, idleStack, idleStackSize).s
    ensures |k.tasks| == 32 && k.readyQueue.list.nodes == [] && k.current == null
    ensures forall i :: 0 <= i < 32 && (i != 0 || idleStack == 0 || idleStackSize == 0) ==>
              && k.tasks[i].state == Empty && k.tasks[i].entry == k.tasks[i].stackBase == k.tasks[i].stackSize == 0
              && k.tasks[i].id == old(k.tasks[i].id) && k.tasks[i].context == old(k.tasks[i].context)
    ensures if idleStack == 0 || idleStackSize == 0 then k.idleTask == null && k.nextId == 1
            else
              var idle, c, top := k.tasks[0], k.tasks[0].context, Wrap(idleStack + idleStackSize);
              && k.idleTask == idle && k.nextId == 2
              && idle.id == 1 && idle.state == Ready && idle.entry == idleEntry
              && idle.stackBase == idleStack && idle.stackSize == idleStackSize
              && c.ra == trampoline && c.sp == top - top % 16
              && c.s0 == c.s1 == c.s2 == c.s3 == c.s4 == c.s5 == c.s6 == c.s7 == c.s8 == c.s9 == c.s10 == c.s11 == 0
  {
    hide Kernel.Valid, InitTasks, Wrap;
    ObjectsAre(k);
    BootIs(k.model, trampoline, idleEntry, idleStack, idleStackSize);
    k.InitTasks(trampoline, idleEntry, idleStack, idleStackSize);
    k.InitScheduler();
    ObjectsAre(k);
  }

  /** Boots the kernel and performs any allowed run on it: the objects end in the state of the run, and
      the invariant holds there. */
  method EveryRun(k: Kernel, trampoline: u64, idleEntry: u64, idleStack: u64, idleStackSize: u64, steps: seq<Step>)
    requires k.Valid() && 0 !in k.model.queue
    requires idleStack != 0 && idleStackSize != 0
    requires var w := Booted(k.model, trampoline, idleEntry, idleStack, idleStackSize);
             w.s.idle.Some? && AllowedRun(w, steps)
    modifies k.Objects()
    ensures k.Valid()
    ensures var w := Booted(old(k.model), trampoline, idleEntry, idleStack, idleStackSize);
            w.s.idle.Some? && k.model == Run(w, steps).s && Inv(Run(w, steps))
  {
    hide *;
    ghost var start := Booted(k.model, trampoline, idleEntry, idleStack, idleStackSize);
    BootInv(k.model, trampoline, idleEntry, idleStack, idleStackSize);
    Boot(k, trampoline, idleEntry, idleStack, idleStackSize);
    ghost var w := start;
    var i := 0;
    assert steps[0..] == steps;
    while i < |steps|
      invariant i <= |steps|
      invariant k.Valid() && k.model == w.s && Inv(w) && w.s.idle.Some?
      invariant AllowedRun(w, steps[i..])
      invariant Run(w, steps[i..]) == Run(start, steps)
    {
      RunStep(w, steps[i..]);
      assert steps[i..][0] == steps[i] && steps[i..][1..] == steps[i + 1..];
      TakeStep(k, steps[i], w);
      w := Take(w, steps[i]);
      i := i + 1;
    }
    RunEnd(w, steps[i..]);
  }

  lemma RunStep(w: World, steps: seq<Step>)
    requires w.s.idle.Some? && AllowedRun(w, steps) && steps != []
    ensures Allowed(w, steps[0]) && AllowedRun(Take(w, steps[0]), steps[1..])
    ensures Run(w, steps) == Run(Take(w, steps[0]), steps[1..])
  {}

  lemma RunEnd(w: World, steps: seq<Step>)
    requires w.s.idle.Some? && steps == []
    ensures Run(w, steps) == w
  {}
}
