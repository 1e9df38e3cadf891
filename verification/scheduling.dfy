/** The cooperative scheduler as a state machine on values: the task table of `task_manager.cpp`, the
    run queue of `run_queue.cpp`, the steps of `scheduler.cpp` and `sys_exit.cpp`, and the register
    exchange of `switch.S`.  The classes of module Kernel are proved to take exactly these steps. */
module Scheduling {
  import opened Word64
  import Page

  const MAX_TASKS: nat := 32

  datatype Option<+T> = None | Some(value: T)

  /** The 14 callee-saved registers, in the order of the context layout. */
  datatype Registers = Registers(ra: u64, sp: u64, s0: u64, s1: u64, s2: u64, s3: u64, s4: u64, s5: u64,
                                 s6: u64, s7: u64, s8: u64, s9: u64, s10: u64, s11: u64)

  datatype State = Empty | Ready | Running | Blocked | Dead

  datatype Slot = Slot(id: nat, state: State, context: Registers, entry: u64, stackBase: u64, stackSize: u64)

  type Table = s: seq<Slot> | |s| == MAX_TASKS
    witness seq(MAX_TASKS, i => Slot(0, Empty, Registers(0, 0, 0, 0, 0, 0, 0, 0, 0, 0, 0, 0, 0, 0), 0, 0, 0))

  /** Tasks are named by their slot. */
  type TaskRef = t: nat | t < MAX_TASKS

  datatype Sched = Sched(slots: Table, queue: seq<TaskRef>, current: Option<TaskRef>, idle: Option<TaskRef>,
                         nextId: nat, cpu: Registers)
  {
    predicate Occupied(t: TaskRef) {
      slots[t].state != Empty
    }

    function WithState(t: TaskRef, state: State): Sched {
      this.(slots := slots[t := slots[t].(state := state)])
    }
  }

  // ---- switch.S

  /** Saves to a's context, then loads from b's: when they are the same, nothing changes. */
  function Switch(s: Sched, a: TaskRef, b: TaskRef): Sched {
    var saved := s.slots[a := s.slots[a].(context := s.cpu)];
    s.(slots := saved, cpu := saved[b].context)
  }

  // ---- run_queue.cpp

  function Push(s: Sched, t: TaskRef): Sched {
    s.WithState(t, Ready).(queue := s.queue + [t])
  }

  function Popped(s: Sched): Sched {
    if s.queue == [] then s else s.(queue := s.queue[1..])
  }

  /** RunQueue::next, or the idle task when the queue is empty. */
  function NextOrIdle(s: Sched): Option<TaskRef> {
    if s.queue == [] then s.idle else Some(s.queue[0])
  }

  // ---- scheduler.cpp, sys_exit.cpp

  function Reschedule(s: Sched): Sched {
    var next := NextOrIdle(s);
    if next.None? || s.current.None? then Popped(s)
    else
      var prev := s.current.value;
      var s1 := if s.idle != Some(prev) && s.slots[prev].state == Running then Push(Popped(s), prev) else Popped(s);
      Switch(s1.WithState(next.value, Running).(current := next), prev, next.value)
  }

  function Start(s: Sched): Sched
    requires NextOrIdle(s).Some?
  {
    var next := NextOrIdle(s).value;
    var s1 := Popped(s).WithState(next, Running).(current := Some(next));
    s1.(cpu := s1.slots[next].context)
  }

  function Exit(s: Sched): Sched {
    Reschedule(if s.current.None? then s else s.WithState(s.current.value, Dead))
  }

  // ---- task_manager.cpp

  function InitialStackPointer(stackBase: u64, stackSize: u64): u64 {
    And(Wrap(stackBase + stackSize), Not(0xf))
  }

  function InitialContext(trampoline: u64, stackBase: u64, stackSize: u64): Registers {
    Registers(trampoline, InitialStackPointer(stackBase, stackSize), 0, 0, 0, 0, 0, 0, 0, 0, 0, 0, 0, 0)
  }

  /** The first slot marked Empty from slot i on, or MAX_TASKS. */
  function FirstEmpty(slots: Table, i: nat): (r: nat)
    requires i <= MAX_TASKS
    ensures i <= r <= MAX_TASKS
    ensures r < MAX_TASKS ==> slots[r].state == Empty
    ensures forall j :: i <= j < r ==> slots[j].state != Empty
    decreases MAX_TASKS - i
  {
    if i == MAX_TASKS || slots[i].state == Empty then i else FirstEmpty(slots, i + 1)
  }

  predicate CanCreate(s: Sched, stackBase: u64, stackSize: u64) {
    stackBase != 0 && stackSize != 0 && FirstEmpty(s.slots, 0) < MAX_TASKS
  }

  function Create(s: Sched, trampoline: u64, entry: u64, stackBase: u64, stackSize: u64): Sched {
    if !CanCreate(s, stackBase, stackSize) then s
    else
      var t := FirstEmpty(s.slots, 0);
      s.(slots := s.slots[t := Slot(s.nextId, Ready, InitialContext(trampoline, stackBase, stackSize),
                                    entry, stackBase, stackSize)],
         nextId := s.nextId + 1)
  }

  /** TaskManager::init marks every slot Empty and creates the idle task. */
  function Cleared(s: Sched): Sched {
    s.(slots := seq(MAX_TASKS, i requires 0 <= i < MAX_TASKS =>
                      s.slots[i].(state := Empty, entry := 0, stackBase := 0, stackSize := 0)),
       nextId := 1)
  }

  function InitTasks(s: Sched, trampoline: u64, idleEntry: u64, idleStack: u64, idleStackSize: u64): Sched {
    var s1 := Cleared(s);
    var s2 := Create(s1, trampoline, idleEntry, idleStack, idleStackSize);
    s2.(idle := if CanCreate(s1, idleStack, idleStackSize) then Some(FirstEmpty(s1.slots, 0)) else None)
  }

  // ---- runs

  /** What can happen after boot.  `Execute` is the current task computing: it may leave anything in the
      registers. */
  datatype Step =
    | CreateTask(trampoline: u64, entry: u64, stackBase: u64, stackSize: u64)
    | PushTask(task: TaskRef)
    | StartScheduler
    | Yield
    | ExitTask
    | Execute(registers: Registers)

  /** A run remembers which tasks were pushed and, independently of the saved contexts, the registers
      each task had when it last gave up the processor, or was created with. */
  datatype World = World(s: Sched, pushed: set<TaskRef>, last: map<TaskRef, Registers>)

  /** Tasks are pushed once, after their creation; the scheduler is started once; only then do tasks
      run. */
  predicate Allowed(w: World, step: Step) {
    match step
    case CreateTask(_, _, _, _) => true
    case PushTask(t) => w.s.Occupied(t) && w.s.idle != Some(t) && t !in w.pushed
    case StartScheduler => w.s.current.None?
    case Yield => w.s.current.Some?
    case ExitTask => w.s.current.Some?
    case Execute(_) => w.s.current.Some?
  }

  predicate IsReschedule(step: Step) {
    step.Yield? || step.ExitTask?
  }

  function Take(w: World, step: Step): (r: World)
    requires w.s.idle.Some?
    ensures r.s.idle == w.s.idle
  {
    match step
    case CreateTask(tr, e, b, n) =>
      if CanCreate(w.s, b, n)
      then w.(s := Create(w.s, tr, e, b, n), last := w.last[FirstEmpty(w.s.slots, 0) := InitialContext(tr, b, n)])
      else w
    case PushTask(t) => w.(s := Push(w.s, t), pushed := w.pushed + {t})
    case StartScheduler => w.(s := Start(w.s))
    case Yield => if w.s.current.None? then w
                  else w.(s := Reschedule(w.s), last := w.last[w.s.current.value := w.s.cpu])
    case ExitTask => if w.s.current.None? then w
                     else w.(s := Exit(w.s), last := w.last[w.s.current.value := w.s.cpu])
    case Execute(r) => w.(s := w.s.(cpu := r))
  }

  function Run(w: World, steps: seq<Step>): (r: World)
    requires w.s.idle.Some?
    ensures r.s.idle == w.s.idle
    decreases |steps|
  {
    if steps == [] then w else Run(Take(w, steps[0]), steps[1..])
  }

  predicate AllowedRun(w: World, steps: seq<Step>)
    requires w.s.idle.Some?
    decreases |steps|
  {
    steps == [] || (Allowed(w, steps[0]) && AllowedRun(Take(w, steps[0]), steps[1..]))
  }

  /** The number of reschedules in a run. */
  function Reschedules(steps: seq<Step>): nat {
    if steps == [] then 0 else (if IsReschedule(steps[0]) then 1 else 0) + Reschedules(steps[1..])
  }

  /** The state after TaskManager::init and Scheduler::init. */
  function Booted(s: Sched, trampoline: u64, idleEntry: u64, idleStack: u64, idleStackSize: u64): World {
    World(InitTasks(s, trampoline, idleEntry, idleStack, idleStackSize).(queue := [], current := None), {},
          map[0 := InitialContext(trampoline, idleStack, idleStackSize)])
  }
}
