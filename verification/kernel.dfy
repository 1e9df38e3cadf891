/** Tasks, run queue, scheduler and task manager as objects that are updated in place, proved against
    the state machine of module Scheduling. */
module TaskSystem {
  import opened Word64
  import opened Scheduling
  import opened Lists
  import SchedulingProperties

  /** The callee-saved registers of the processor. */
  class Hart {
    var ra: u64
    var sp: u64
    var s0: u64
    var s1: u64
    var s2: u64
    var s3: u64
    var s4: u64
    var s5: u64
    var s6: u64
    var s7: u64
    var s8: u64
    var s9: u64
    var s10: u64
    var s11: u64

    function Value(): Registers
      reads this
    {
      Registers(ra, sp, s0, s1, s2, s3, s4, s5, s6, s7, s8, s9, s10, s11)
    }

    constructor ()
      ensures Value() == NO_REGISTERS
    {
      ra, sp, s0, s1, s2, s3, s4, s5, s6, s7, s8, s9, s10, s11 := 0, 0, 0, 0, 0, 0, 0, 0, 0, 0, 0, 0, 0, 0;
    }

    /** The fourteen stores of switch.S, in the order of the context layout. */
    method Store() returns (context: Registers)
      ensures context.ra == ra && context.sp == sp && context.s0 == s0 && context.s1 == s1 && context.s2 == s2 && context.s3 == s3 && context.s4 == s4
      ensures context.s5 == s5 && context.s6 == s6 && context.s7 == s7 && context.s8 == s8 && context.s9 == s9 && context.s10 == s10 && context.s11 == s11
      ensures context == Value()
    {
      context := NO_REGISTERS;
      context := context.(ra := ra);
      context := context.(sp := sp);
      context := context.(s0 := s0);
      context := context.(s1 := s1);
      context := context.(s2 := s2);
      context := context.(s3 := s3);
      context := context.(s4 := s4);
      context := context.(s5 := s5);
      context := context.(s6 := s6);
      context := context.(s7 := s7);
      context := context.(s8 := s8);
      context := context.(s9 := s9);
      context := context.(s10 := s10);
      context := context.(s11 := s11);
    }

    /** The fourteen loads of switch.S. */
    method Load(context: Registers)
      modifies this
      ensures ra == context.ra && sp == context.sp && s0 == context.s0 && s1 == context.s1 && s2 == context.s2 && s3 == context.s3 && s4 == context.s4
      ensures s5 == context.s5 && s6 == context.s6 && s7 == context.s7 && s8 == context.s8 && s9 == context.s9 && s10 == context.s10 && s11 == context.s11
      ensures Value() == context
    {
      ra := context.ra;
      sp := context.sp;
      s0 := context.s0;
      s1 := context.s1;
      s2 := context.s2;
      s3 := context.s3;
      s4 := context.s4;
      s5 := context.s5;
      s6 := context.s6;
      s7 := context.s7;
      s8 := context.s8;
      s9 := context.s9;
      s10 := context.s10;
      s11 := context.s11;
    }
  }

  const NO_REGISTERS: Registers := Registers(0, 0, 0, 0, 0, 0, 0, 0, 0, 0, 0, 0, 0, 0)
  const NO_TASK: Slot := Slot(0, Empty, NO_REGISTERS, 0, 0, 0)

  /** switch.S: every store comes before the first load, so switching from a task to itself leaves the
      registers as they are. */
  method ContextSwitch(hart: Hart, a0: Task, a1: Task)
    modifies hart, a0`context
    ensures a0.context.ra == old(hart.ra) && a0.context.sp == old(hart.sp) && a0.context.s0 == old(hart.s0) && a0.context.s1 == old(hart.s1)
    ensures a0.context.s2 == old(hart.s2) && a0.context.s3 == old(hart.s3) && a0.context.s4 == old(hart.s4) && a0.context.s5 == old(hart.s5)
    ensures a0.context.s6 == old(hart.s6) && a0.context.s7 == old(hart.s7) && a0.context.s8 == old(hart.s8) && a0.context.s9 == old(hart.s9)
    ensures a0.context.s10 == old(hart.s10) && a0.context.s11 == old(hart.s11)
    ensures hart.ra == if a0 == a1 then old(hart.ra) else old(a1.context.ra)
    ensures hart.sp == if a0 == a1 then old(hart.sp) else old(a1.context.sp)
    ensures hart.s0 == if a0 == a1 then old(hart.s0) else old(a1.context.s0)
    ensures hart.s1 == if a0 == a1 then old(hart.s1) else old(a1.context.s1)
    ensures hart.s2 == if a0 == a1 then old(hart.s2) else old(a1.context.s2)
    ensures hart.s3 == if a0 == a1 then old(hart.s3) else old(a1.context.s3)
    ensures hart.s4 == if a0 == a1 then old(hart.s4) else old(a1.context.s4)
    ensures hart.s5 == if a0 == a1 then old(hart.s5) else old(a1.context.s5)
    ensures hart.s6 == if a0 == a1 then old(hart.s6) else old(a1.context.s6)
    ensures hart.s7 == if a0 == a1 then old(hart.s7) else old(a1.context.s7)
    ensures hart.s8 == if a0 == a1 then old(hart.s8) else old(a1.context.s8)
    ensures hart.s9 == if a0 == a1 then old(hart.s9) else old(a1.context.s9)
    ensures hart.s10 == if a0 == a1 then old(hart.s10) else old(a1.context.s10)
    ensures hart.s11 == if a0 == a1 then old(hart.s11) else old(a1.context.s11)
    ensures a0.context == old(hart.Value())
    ensures hart.Value() == if a0 == a1 then old(hart.Value()) else old(a1.context)
  {
    a0.context := hart.Store();
    hart.Load(a1.context);
  }

  class Task {
    const slot: TaskRef
    const runNode: ListNode
    var id: nat
    var state: State
    var context: Registers
    var entry: u64
    var stackBase: u64
    var stackSize: u64

    constructor (slot: TaskRef, runNode: ListNode)
      ensures this.slot == slot && this.runNode == runNode && View() == NO_TASK
    {
      this.slot, this.runNode := slot, runNode;
      id, state, context, entry, stackBase, stackSize := 0, Empty, NO_REGISTERS, 0, 0, 0;
    }

    ghost function View(): Slot
      reads this
    {
      Slot(id, state, context, entry, stackBase, stackSize)
    }
  }

  class Kernel {
    const tasks: seq<Task>
    const readyQueue: Queue
    const hart: Hart
    /** KERNEL_CONTAINER_OF: the task that a run node is part of. */
    const taskOf: map<ListNode, Task>
    var current: Task?
    var idleTask: Task?
    var nextId: nat
    /** The abstract state; Valid() ties it to the fields. */
    ghost var model: Sched

    ghost function RunNodes(): set<ListNode> {
      set t | t in tasks :: t.runNode
    }

    ghost function Objects(): set<object> {
      {this, hart, readyQueue.list, readyQueue.list.head} + (set t | t in tasks) + RunNodes()
    }

    /** The objects are distinct where the source has distinct memory. */
    ghost predicate Layout() {
      && |tasks| == MAX_TASKS
      && (forall i :: 0 <= i < MAX_TASKS ==> tasks[i].slot == i)
      && (forall i :: 0 <= i < MAX_TASKS ==> tasks[i].runNode in taskOf && taskOf[tasks[i].runNode] == tasks[i])
      && readyQueue.list.head !in RunNodes()
    }

    ghost predicate Points(p: Task?, t: Option<TaskRef>)
      requires |tasks| == MAX_TASKS
    {
      if t.None? then p == null else p == tasks[t.value]
    }

    ghost predicate QueueMatches()
      requires |tasks| == MAX_TASKS
      reads this, readyQueue.list
    {
      && |readyQueue.list.nodes| == |model.queue|
      && forall i :: 0 <= i < |model.queue| ==> readyQueue.list.nodes[i] == tasks[model.queue[i]].runNode
    }

    ghost predicate TasksMatch()
      requires |tasks| == MAX_TASKS
      reads this, tasks
    {
      forall i :: 0 <= i < MAX_TASKS ==> tasks[i].View() == model.slots[i]
    }

    ghost predicate Valid()
      reads Objects()
    {
      && Layout()
      && (forall n :: n in readyQueue.list.nodes ==> n in RunNodes())
      && readyQueue.list.Valid()
      && QueueMatches()
      && TasksMatch()
      && Points(current, model.current)
      && Points(idleTask, model.idle)
      && nextId == model.nextId
      && hart.Value() == model.cpu
    }

    /** The static objects of the kernel, before TaskManager::init. */
    constructor ()
      ensures Valid() && fresh(Objects())
      ensures model.queue == [] && model.current.None? && model.idle.None?
      ensures forall t: TaskRef :: model.slots[t].state == Empty
    {
      hide List.Valid;
      var queue := new Queue();
      var processor := new Hart();
      var ts, owners := StaticTasks();
      ghost var slots := seq(MAX_TASKS, i => NO_TASK);
      tasks := ts;
      readyQueue := queue;
      hart := processor;
      taskOf := owners;
      current, idleTask, nextId := null, null, 0;
      model := Sched(slots, [], None, None, 0, NO_REGISTERS);
    }

    /** What Valid() says about the pointers and flags that the code tests. */
    lemma Facts()
      requires Valid()
      ensures |tasks| == MAX_TASKS && Points(current, model.current) && Points(idleTask, model.idle)
      ensures current == null <==> model.current.None?
      ensures idleTask == null <==> model.idle.None?
      ensures current != null ==> current in tasks && model.current == Some(current.slot)
      ensures idleTask != null ==> idleTask in tasks && model.idle == Some(idleTask.slot)
      ensures forall t :: t in tasks ==> t == tasks[t.slot] && t.View() == model.slots[t.slot]
      ensures forall i :: 0 <= i < MAX_TASKS ==> tasks[i] in tasks && tasks[i].slot == i
      ensures |readyQueue.list.nodes| == |model.queue|
      ensures this in Objects() && hart in Objects() && forall t :: t in tasks ==> t in Objects()
    {}

    lemma PointsAt(p: Task?, t: Option<TaskRef>)
      requires Valid() && Points(p, t)
      ensures p == null <==> t.None?
      ensures p != null ==> p in tasks && t == Some(p.slot)
    {}

    /** Assigning a task's state. */
    method SetState(task: Task, state: State)
      requires Valid() && task in tasks
      modifies task`state, this`model
      ensures Valid() && model == old(model).WithState(task.slot, state)
    {
      hide List.Valid;
      task.state := state;
      model := model.WithState(task.slot, state);
      SlotUpdated(task);
    }

    /** The nodes that the queue writes beside its sentinel are run nodes or the sentinel. */
    lemma ListEnds()
      requires Valid()
      ensures readyQueue.list.head.prev in Objects()
      ensures readyQueue.list.head.next != null && readyQueue.list.head.next.next in Objects()
    {
      var nodes := readyQueue.list.nodes;
      if nodes != [] {
        assert nodes[0] in RunNodes() && nodes[|nodes| - 1] in RunNodes();
        readyQueue.list.LinksAt(0);
        if |nodes| > 1 {
          assert nodes[1] in RunNodes();
        }
      }
    }

    method Enqueue(task: Task)
      requires Valid() && task in tasks && task.runNode !in readyQueue.list.nodes
      modifies Objects()
      ensures Valid() && model == old(model).(queue := old(model).queue + [task.slot])
      ensures current == old(current) && idleTask == old(idleTask)
    {
      hide List.Valid;
      ListEnds();
      readyQueue.Push(task.runNode);
      model := model.(queue := model.queue + [task.slot]);
    }

    // ---- run_queue.cpp

    /** The caller pushes a task whose node is not in the queue, as the list demands. */
    method Push(task: Task?) returns (ok: bool)
      requires Valid() && (task != null ==> task in tasks && task.runNode !in readyQueue.list.nodes)
      modifies Objects()
      ensures Valid() && current == old(current) && idleTask == old(idleTask)
      ensures ok <==> task != null
      ensures model == if task == null then old(model) else Scheduling.Push(old(model), task.slot)
    {
      hide Valid;
      if task == null {
        return false;
      }
      SetState(task, Ready);
      Enqueue(task);
      return true;
    }

    /** RunQueue::next. */
    method Next() returns (task: Task?)
      requires Valid()
      modifies Objects()
      ensures Valid() && current == old(current) && idleTask == old(idleTask)
      ensures model == Popped(old(model))
      ensures Points(task, if old(model).queue == [] then None else Some(old(model).queue[0]))
    {
      hide List.Valid;
      ListEnds();
      if readyQueue.list.nodes != [] {
        assert readyQueue.list.nodes[0] == tasks[model.queue[0]].runNode;
      }
      var node := readyQueue.Pop();
      model := Popped(model);
      if node == null {
        return null;
      }
      task := taskOf[node];
    }

    method SetCurrent(task: Task)
      requires Valid() && task in tasks
      modifies this`current, this`model
      ensures Valid() && model == old(model).(current := Some(task.slot))
    {
      hide List.Valid;
      current := task;
      model := model.(current := Some(task.slot));
    }

    method SwitchContext(prev: Task, next: Task)
      requires Valid() && prev in tasks && next in tasks
      modifies hart, prev`context, this`model
      ensures Valid() && model == Switch(old(model), prev.slot, next.slot)
    {
      hide List.Valid;
      ContextSwitch(hart, prev, next);
      model := Switch(model, prev.slot, next.slot);
    }

    /** A task is in the queue exactly when its node is in the list. */
    lemma Queued(task: Task)
      requires Valid() && task in tasks
      ensures task.runNode in readyQueue.list.nodes <==> task.slot in model.queue
    {
      if task.runNode in readyQueue.list.nodes {
        var i :| 0 <= i < |readyQueue.list.nodes| && readyQueue.list.nodes[i] == task.runNode;
        assert tasks[model.queue[i]].runNode == task.runNode;
      }
      if task.slot in model.queue {
        var i :| 0 <= i < |model.queue| && model.queue[i] == task.slot;
        assert readyQueue.list.nodes[i] == task.runNode;
      }
    }

    // ---- scheduler.cpp

    /** A task that will be pushed is not in the queue: otherwise the list would break. */
    method Reschedule()
      requires Valid() && Requeuable(model)
      modifies Objects()
      ensures Valid() && model == Scheduling.Reschedule(old(model))
    {
      hide Valid, Scheduling.Reschedule, Switch, Scheduling.Push, Sched.WithState;
      Facts();
      ghost var m := model;
      var prev := current;
      var next := Next();
      Facts();
      if next == null {
        next := idleTask;
      }
      NullCases(m);
      if next == null || prev == null {
        return;
      }
      Steps(m, prev.slot, next.slot);
      PoppedStates(m, prev.slot);
      if prev != idleTask && prev.state == Running {
        Queued(prev);
        SetState(prev, Ready);
        StateOnly(Popped(m), prev.slot, Ready);
        Queued(prev);
        var _ := Push(prev);
      }
      SetState(next, Running);
      SetCurrent(next);
      SwitchContext(prev, next);
    }

    method Yield()
      requires Valid() && Requeuable(model)
      modifies Objects()
      ensures Valid() && model == Scheduling.Reschedule(old(model))
    {
      Reschedule();
    }

    /** sys_exit without its output. */
    method SysExit()
      requires Valid()
      modifies Objects()
      ensures Valid() && model == Scheduling.Exit(old(model))
    {
      hide Valid;
      Facts();
      ExitRequeues(model);
      if current != null {
        SetState(current, Dead);
      }
      Reschedule();
    }

    /** Scheduler::start up to the first task; the boot context is dropped.  With no idle task and an
        empty queue the source would dereference a null pointer. */
    method Start()
      requires Valid() && NextOrIdle(model).Some?
      modifies Objects()
      ensures Valid() && model == Scheduling.Start(old(model))
    {
      hide *;
      Facts();
      ghost var m := model;
      var next := Next();
      PointsAt(next, if m.queue == [] then None else Some(m.queue[0]));
      PoppedIdle(m);
      Facts();
      if next == null {
        next := idleTask;
      }
      StartSteps(m, next.slot);
      SetCurrent(next);
      SetState(next, Running);
      LoadFrom(next);
    }

    /** The current task computes: it may leave anything in the registers. */
    method Execute(registers: Registers)
      requires Valid()
      modifies Objects()
      ensures Valid() && model == old(model).(cpu := registers)
    {
      hide List.Valid;
      hart.Load(registers);
      model := model.(cpu := registers);
    }

    /** The first switch saves the boot context to a place that nothing reads. */
    method LoadFrom(next: Task)
      requires Valid() && next in tasks
      modifies hart, this`model
      ensures Valid() && model == old(model).(cpu := old(model).slots[next.slot].context)
    {
      hide List.Valid;
      var boot := hart.Store();
      hart.Load(next.context);
      model := model.(cpu := model.slots[next.slot].context);
    }

    /** Scheduler::init. */
    method InitScheduler()
      requires Valid()
      modifies this, readyQueue.list, readyQueue.list.head
      ensures Valid() && model == old(model).(queue := [], current := None)
    {
      readyQueue.Init();
      current := null;
      model := model.(queue := [], current := None);
    }

    // ---- task_manager.cpp

    /** Clears the slots and creates the idle task in the first one. */
    method InitTasks(trampoline: u64, idleEntry: u64, idleStack: u64, idleStackSize: u64)
      requires Valid() && 0 !in model.queue
      modifies Objects()
      ensures Valid() && model == Scheduling.InitTasks(old(model), trampoline, idleEntry, idleStack, idleStackSize)
    {
      hide Valid, Create, Cleared, FirstEmpty;
      ClearedIs(model);
      ClearSlots();
      ghost var m := model;
      var task := CreateKernelTask(trampoline, idleEntry, idleStack, idleStackSize);
      SetIdle(task, if CanCreate(m, idleStack, idleStackSize) then Some(FirstEmpty(m.slots, 0)) else None);
    }

    method ClearSlots()
      requires Valid()
      modifies tasks, this`nextId, this`model
      ensures Valid() && model == Cleared(old(model))
    {
      hide Valid, Cleared;
      Facts();
      SetNextId(1);
      ghost var m := model;
      AllCleared(old(model), m);
      var i := 0;
      while i < |tasks|
        invariant i <= |tasks| && Valid()
        invariant model == ClearedBelow(m, i)
      {
        ClearSlot(tasks[i]);
        ClearOne(m, i);
        i := i + 1;
      }
    }

    method SetNextId(id: nat)
      requires Valid()
      modifies this`nextId, this`model
      ensures Valid() && model == old(model).(nextId := id)
    {
      nextId := id;
      model := model.(nextId := id);
    }

    /** Changing one task and its slot together keeps the objects in step with the model. */
    twostate lemma SlotUpdated(task: Task)
      requires old(Valid()) && task in tasks
      requires model == old(model).(slots := old(model).slots[task.slot := task.View()])
      requires unchanged(this`current, this`idleTask, this`nextId, hart, readyQueue.list, readyQueue.list.head)
      requires forall n :: n in readyQueue.list.nodes ==> n.prev == old(n.prev) && n.next == old(n.next)
      requires forall i :: 0 <= i < |tasks| && tasks[i] != task ==> unchanged(tasks[i])
      ensures Valid()
    {
      hide List.Valid;
      readyQueue.list.LinksKept();
    }

    method ClearSlot(task: Task)
      requires Valid() && task in tasks
      modifies task, this`model
      ensures Valid() && model == old(model).(slots := old(model).slots[task.slot := ClearedSlot(old(model).slots[task.slot])])
    {
      hide List.Valid;
      task.state := Empty;
      task.stackBase := 0;
      task.stackSize := 0;
      task.entry := 0;
      model := model.(slots := model.slots[task.slot := ClearedSlot(model.slots[task.slot])]);
      SlotUpdated(task);
    }

    method SetIdle(task: Task?, ghost t: Option<TaskRef>)
      requires Valid() && Points(task, t)
      modifies this`idleTask, this`model
      ensures Valid() && model == old(model).(idle := t)
    {
      idleTask := task;
      model := model.(idle := t);
    }

    /** The first task whose slot is Empty, or null. */
    method EmptyTask() returns (task: Task?)
      requires Valid()
      ensures Points(task, if FirstEmpty(model.slots, 0) < MAX_TASKS then Some(FirstEmpty(model.slots, 0)) else None)
    {
      hide Valid;
      Facts();
      task := null;
      var i := 0;
      while i < |tasks|
        invariant i <= |tasks| && task == null
        invariant FirstEmpty(model.slots, 0) == FirstEmpty(model.slots, i)
      {
        assert tasks[i].View() == model.slots[i];
        if tasks[i].state == Empty {
          task := tasks[i];
          return;
        }
        i := i + 1;
      }
    }

    /** The search of the table, in terms of the tasks. */
    lemma EmptySlots()
      requires Valid()
      ensures |tasks| == 32
      ensures var t := FirstEmpty(model.slots, 0);
              && (t == 32 <==> forall i :: 0 <= i < 32 ==> tasks[i].state != Empty)
              && (t < 32 ==> tasks[t].state == Empty)
              && (forall i :: 0 <= i < t ==> tasks[i].state != Empty)
    {
      hide Valid, FirstEmpty;
      Facts();
      assert forall i :: 0 <= i < 32 ==> tasks[i].View() == model.slots[i];
    }

    /** Takes the first Empty slot and prepares a context that enters the trampoline on the task's own
        stack; null when the stack is missing or no slot is Empty. */
    method CreateKernelTask(trampoline: u64, entry: u64, stackBase: u64, stackSize: u64) returns (task: Task?)
      requires Valid() && FirstEmpty(model.slots, 0) !in model.queue
      modifies Objects()
      ensures Valid() && model == Create(old(model), trampoline, entry, stackBase, stackSize)
      ensures Points(task, if CanCreate(old(model), stackBase, stackSize) then Some(FirstEmpty(old(model).slots, 0)) else None)
      ensures task == null <==> stackBase == 0 || stackSize == 0 || forall i :: 0 <= i < 32 ==> old(tasks[i].state) != Empty
      ensures task != null ==>
                && task in tasks && old(task.state) == Empty
                && (forall i :: 0 <= i < task.slot ==> old(tasks[i].state) != Empty)
                && task.id == old(nextId) && nextId == old(nextId) + 1
                && task.state == Ready && task.entry == entry
                && task.stackBase == stackBase && task.stackSize == stackSize
                && task.runNode.prev == null && task.runNode.next == null
      ensures task != null ==>
                var c, top := task.context, Wrap(stackBase + stackSize);
                && c.ra == trampoline && c.sp == top - top % 16
                && c.s0 == c.s1 == c.s2 == c.s3 == c.s4 == c.s5 == c.s6 == c.s7 == c.s8 == c.s9 == c.s10 == c.s11 == 0
    {
      hide Valid, Create, CanCreate, FirstEmpty, InitialContext;
      Facts();
      CreateIs(model, trampoline, entry, stackBase, stackSize);
      if stackBase == 0 || stackSize == 0 {
        return null;
      }
      EmptySlots();
      task := EmptyTask();
      PointsAt(task, if FirstEmpty(model.slots, 0) < MAX_TASKS then Some(FirstEmpty(model.slots, 0)) else None);
      if task == null {
        return null;
      }
      Queued(task);
      FillSlot(task, trampoline, entry, stackBase, stackSize);
      SchedulingProperties.NewContext(trampoline, stackBase, stackSize);
    }

    method FillSlot(task: Task, trampoline: u64, entry: u64, stackBase: u64, stackSize: u64)
      requires Valid() && task in tasks && task.runNode !in readyQueue.list.nodes
      modifies task, task.runNode, this`nextId, this`model
      ensures Valid()
      ensures model == old(model).(
                slots := old(model).slots[task.slot := Slot(old(model).nextId, Ready,
                           InitialContext(trampoline, stackBase, stackSize), entry, stackBase, stackSize)],
                nextId := old(model).nextId + 1)
      ensures task.id == old(nextId) && nextId == old(nextId) + 1
      ensures task.state == Ready && task.entry == entry && task.stackBase == stackBase && task.stackSize == stackSize
      ensures task.runNode.prev == null && task.runNode.next == null
      ensures task.context == InitialContext(trampoline, stackBase, stackSize)
    {
      hide Valid;
      Facts();
      ResetLinks(task);
      var sp := And(Wrap(stackBase + stackSize), Not(0xf));
      FillFields(task, nextId, entry, stackBase, stackSize,
                 Registers(trampoline, sp, 0, 0, 0, 0, 0, 0, 0, 0, 0, 0, 0, 0));
      SetNextId(nextId + 1);
    }

    method FillFields(task: Task, id: nat, entry: u64, stackBase: u64, stackSize: u64, context: Registers)
      requires Valid() && task in tasks
      modifies task, this`model
      ensures Valid()
      ensures model == old(model).(slots := old(model).slots[task.slot := Slot(id, Ready, context, entry, stackBase, stackSize)])
      ensures task.id == id && task.state == Ready && task.entry == entry && task.context == context
      ensures task.stackBase == stackBase && task.stackSize == stackSize
    {
      hide List.Valid;
      task.id := id;
      task.state := Ready;
      task.entry := entry;
      task.stackBase := stackBase;
      task.stackSize := stackSize;
      task.context := context;
      model := model.(slots := model.slots[task.slot := Slot(id, Ready, context, entry, stackBase, stackSize)]);
      SlotUpdated(task);
    }

    method ResetLinks(task: Task)
      requires Valid() && task in tasks && task.runNode !in readyQueue.list.nodes
      modifies task.runNode
      ensures Valid() && task.runNode.prev == null && task.runNode.next == null
    {
      task.runNode.prev := null;
      task.runNode.next := null;
    }
  }

  /** The task table: every task has its own slot number and run node. */
  method StaticTasks() returns (ts: seq<Task>, owners: map<ListNode, Task>)
    ensures |ts| == MAX_TASKS
    ensures forall i :: 0 <= i < |ts| ==> fresh(ts[i]) && fresh(ts[i].runNode) && ts[i].slot == i && ts[i].View() == NO_TASK
    ensures forall i :: 0 <= i < |ts| ==> ts[i].runNode in owners && owners[ts[i].runNode] == ts[i]
  {
    ts, owners := [], map[];
    while |ts| < MAX_TASKS
      invariant |ts| <= MAX_TASKS
      invariant forall i :: 0 <= i < |ts| ==> fresh(ts[i]) && fresh(ts[i].runNode) && ts[i].slot == i && ts[i].View() == NO_TASK
      invariant forall i :: 0 <= i < |ts| ==> ts[i].runNode in owners && owners[ts[i].runNode] == ts[i]
      invariant forall n :: n in owners ==> fresh(n)
    {
      var node := new ListNode();
      var task := new Task(|ts|, node);
      ts := ts + [task];
      owners := owners[node := task];
    }
  }

  function ClearedSlot(s: Slot): Slot {
    s.(state := Empty, entry := 0, stackBase := 0, stackSize := 0)
  }

  ghost function ClearedBelow(m: Sched, k: nat): Sched {
    m.(slots := seq(MAX_TASKS, i requires 0 <= i < MAX_TASKS => if i < k then ClearedSlot(m.slots[i]) else m.slots[i]))
  }

  lemma ClearOne(m: Sched, k: nat)
    requires k < MAX_TASKS
    ensures var s := ClearedBelow(m, k);
            ClearedBelow(m, k + 1) == s.(slots := s.slots[k := ClearedSlot(s.slots[k])])
  {
    var s := ClearedBelow(m, k);
    assert ClearedBelow(m, k + 1).slots == s.slots[k := ClearedSlot(s.slots[k])];
  }

  lemma AllCleared(before: Sched, m: Sched)
    requires m == before.(nextId := 1)
    ensures ClearedBelow(m, MAX_TASKS) == Cleared(before)
    ensures ClearedBelow(m, 0) == m
  {
    assert ClearedBelow(m, MAX_TASKS).slots == Cleared(before).slots;
    assert ClearedBelow(m, 0).slots == m.slots;
  }

  lemma ClearedIs(m: Sched)
    ensures Cleared(m).queue == m.queue
    ensures FirstEmpty(Cleared(m).slots, 0) == 0
  {}

  /** A running task that reschedule will push back is not waiting behind the head already. */
  predicate Requeuable(m: Sched) {
    m.current.Some? && m.idle != m.current && m.slots[m.current.value].state == Running ==>
      m.current.value !in Popped(m).queue
  }

  lemma CreateIs(m: Sched, trampoline: u64, entry: u64, stackBase: u64, stackSize: u64)
    ensures CanCreate(m, stackBase, stackSize) <==> stackBase != 0 && stackSize != 0 && FirstEmpty(m.slots, 0) < MAX_TASKS
    ensures Create(m, trampoline, entry, stackBase, stackSize) ==
            if !CanCreate(m, stackBase, stackSize) then m
            else m.(slots := m.slots[FirstEmpty(m.slots, 0) := Slot(m.nextId, Ready,
                        InitialContext(trampoline, stackBase, stackSize), entry, stackBase, stackSize)],
                    nextId := m.nextId + 1)
  {}

  lemma ExitRequeues(m: Sched)
    ensures Requeuable(if m.current.None? then m else m.WithState(m.current.value, Dead))
  {}

  // ---- the model's reschedule, in the order of the code

  lemma NullCases(m: Sched)
    ensures NextOrIdle(m).None? || m.current.None? ==> Scheduling.Reschedule(m) == Popped(m)
  {}

  lemma PoppedIdle(m: Sched)
    ensures Popped(m).idle == m.idle
    ensures NextOrIdle(m) == if m.queue == [] then m.idle else Some(m.queue[0])
  {}

  lemma StartSteps(m: Sched, next: TaskRef)
    requires NextOrIdle(m) == Some(next)
    ensures var s := Popped(m).(current := Some(next)).WithState(next, Running);
            Scheduling.Start(m) == s.(cpu := s.slots[next].context)
  {}

  lemma PoppedStates(m: Sched, t: TaskRef)
    ensures Popped(m).slots == m.slots && Popped(m).idle == m.idle && Popped(m).current == m.current
    ensures Requeuable(m) && m.current == Some(t) && m.idle != Some(t) && m.slots[t].state == Running ==> t !in Popped(m).queue
  {}

  lemma StateOnly(m: Sched, t: TaskRef, state: State)
    ensures m.WithState(t, state).queue == m.queue
  {}

  lemma Steps(m: Sched, prev: TaskRef, next: TaskRef)
    requires m.current == Some(prev) && NextOrIdle(m) == Some(next)
    ensures var requeued := m.idle != Some(prev) && m.slots[prev].state == Running;
            var s1 := if requeued then Scheduling.Push(Popped(m).WithState(prev, Ready), prev) else Popped(m);
            Scheduling.Reschedule(m) == Switch(s1.WithState(next, Running).(current := Some(next)), prev, next)
  {
    assert m.slots[prev := m.slots[prev].(state := Ready)][prev := m.slots[prev].(state := Ready)]
        == m.slots[prev := m.slots[prev].(state := Ready)];
  }
}
