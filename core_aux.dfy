/**
 * The scheduling hooks of the PingPong OS kernel: the priority scheduler
 * with aging over the circular ready list, the static-priority setter and
 * getter, the timer-tick handler, the task-switch metrics and the
 * execution-time stamps of task creation and exit.
 */
module CoreAux {

  import opened Word32
  import opened Priority
  import opened Quantum

  /** The fields of a task descriptor that the scheduling hooks read and write. */
  class Task {
    var staticPrio: int        // iStaticPrio
    var dynPrio: int           // iDinamPrio
    var processorTicks: u32    // uiProcessorTicks
    var activations: u32       // uiActivations
    var execTicks: u32         // uiExecTicks
  }

  /** A circular list holds each task once. */
  predicate Distinct(ring: seq<Task>)
  {
    forall i, j :: 0 <= i < j < |ring| ==> ring[i] != ring[j]
  }

  /** The priorities of the ring's tasks, from the head on. */
  function Prios(ring: seq<Task>): (ps: seq<Prio>)
    reads ring
    ensures |ps| == |ring|
    ensures forall i :: 0 <= i < |ring| ==> ps[i] == Prio(ring[i].staticPrio, ring[i].dynPrio)
  {
    seq(|ring|, i reads ring requires 0 <= i < |ring| => Prio(ring[i].staticPrio, ring[i].dynPrio))
  }

  /**
   * `getHighestPrioTaks`: one walk around the ring from its head, keeping
   * the first task whose dynamic priority is strictly smaller than the
   * best seen so far.
   */
  method HighestPrioTask(ring: seq<Task>) returns (best: Task, ghost k: nat)
    requires |ring| > 0
    ensures k < |ring| && best == ring[k]
    ensures forall j :: 0 <= j < |ring| ==> best.dynPrio <= ring[j].dynPrio
    ensures forall j :: 0 <= j < k ==> best.dynPrio < ring[j].dynPrio
  {
    k := 0;
    best := ring[0];
    var i := 0;
    while i < |ring|
      invariant 0 <= i <= |ring|
      invariant k < |ring| && best == ring[k] && k <= i && (i > 0 ==> k < i)
      invariant forall j :: 0 <= j < i ==> best.dynPrio <= ring[j].dynPrio
      invariant forall j :: 0 <= j < k ==> best.dynPrio < ring[j].dynPrio
    {
      var runner := ring[i];
      if runner.dynPrio < best.dynPrio {
        best, k := runner, i;
      }
      i := i + 1;
    }
  }

  /**
   * The second walk of `scheduler`: add the aging factor to the dynamic
   * priority of every ring task except `next`.
   */
  method AgeOthers(ring: seq<Task>, next: Task)
    requires Distinct(ring)
    modifies ring
    ensures forall j :: 0 <= j < |ring| && ring[j] != next ==>
      ring[j].dynPrio == old(ring[j].dynPrio) + UnixAgingFactor
    ensures forall j :: 0 <= j < |ring| ==>
      ring[j].staticPrio == old(ring[j].staticPrio) &&
      ring[j].processorTicks == old(ring[j].processorTicks) &&
      ring[j].activations == old(ring[j].activations) &&
      ring[j].execTicks == old(ring[j].execTicks)
    ensures next.dynPrio == old(next.dynPrio)
  {
    var i := 0;
    while i < |ring|
      invariant 0 <= i <= |ring|
      invariant forall j :: 0 <= j < i && ring[j] != next ==>
        ring[j].dynPrio == old(ring[j].dynPrio) + UnixAgingFactor
      invariant forall j :: i <= j < |ring| ==> ring[j].dynPrio == old(ring[j].dynPrio)
      invariant forall j :: 0 <= j < |ring| ==>
        ring[j].staticPrio == old(ring[j].staticPrio) &&
        ring[j].processorTicks == old(ring[j].processorTicks) &&
        ring[j].activations == old(ring[j].activations) &&
        ring[j].execTicks == old(ring[j].execTicks)
      invariant next.dynPrio == old(next.dynPrio)
    {
      var runner := ring[i];
      if runner != next {
        runner.dynPrio := runner.dynPrio + UnixAgingFactor;
      }
      i := i + 1;
    }
  }

  /**
   * `scheduler` on the ready ring `readyQueue`, listed from its head: pick
   * the task with the smallest dynamic priority (the first one from the
   * head on a tie), reset its dynamic priority to its static one and age
   * every other ready task by one. An empty ring yields NULL.
   */
  method Scheduler(readyQueue: seq<Task>) returns (next: Task?)
    requires Distinct(readyQueue)
    modifies readyQueue
    ensures readyQueue == [] <==> next == null
    ensures readyQueue != [] ==> next == readyQueue[HighestPrioIndex(old(Prios(readyQueue)))]
    ensures Prios(readyQueue) == ScheduleRound(old(Prios(readyQueue)))
    ensures forall j :: 0 <= j < |readyQueue| ==>
      readyQueue[j].processorTicks == old(readyQueue[j].processorTicks) &&
      readyQueue[j].activations == old(readyQueue[j].activations) &&
      readyQueue[j].execTicks == old(readyQueue[j].execTicks)
  {
    next := null;
    if readyQueue != [] {
      ghost var ps := Prios(readyQueue);
      ghost var k;
      next, k := HighestPrioTask(readyQueue);
      SelectedIffFirstMinimum(ps, k);
      next.dynPrio := next.staticPrio;
      AgeOthers(readyQueue, next);
      ghost var after := Prios(readyQueue);
      forall j | 0 <= j < |ps| && j != k
        ensures after[j] == Age(ps[j])
      {
        assert readyQueue[j] != next;
      }
      RoundFromParts(ps, after);
    }
  }

  /**
   * The kernel state the hooks share: the clock, the quantum countdown
   * (`iTaskTicksQty`, static in `tickHandler`), the tick of the last task
   * switch, the running task and the dispatcher.
   * The ghost fields give the unbounded tick count behind the 32-bit clock.
   */
  class Kernel {
    var systemTime: u32
    var taskTicksQty: int
    var taskStartingTick: u32
    var yieldsRequested: nat
    var taskExec: Task
    var taskDisp: Task

    ghost var ticks: nat
    ghost var lastSwitch: nat
    ghost var createdAt: map<Task, nat>

    ghost predicate Valid()
      reads this, createdAt.Keys
    {
      1 <= taskTicksQty <= DefaultTaskTicks &&
      systemTime == Wrap(ticks) &&
      lastSwitch <= ticks && taskStartingTick == Wrap(lastSwitch) &&
      forall t :: t in createdAt ==> createdAt[t] <= ticks && t.execTicks == Wrap(createdAt[t])
    }

    /**
     * The kernel before the first hook runs: the clock at whatever `time` the
     * kernel's start-up gave it, the switch tick at 0, a fresh quantum and no
     * task stamped yet.
     */
    constructor (exec: Task, disp: Task, time: u32)
      ensures Valid()
      ensures systemTime == time && taskTicksQty == DefaultTaskTicks && taskStartingTick == 0
      ensures yieldsRequested == 0 && ticks == time && lastSwitch == 0 && createdAt == map[]
      ensures taskExec == exec && taskDisp == disp
    {
      systemTime, taskTicksQty, taskStartingTick, yieldsRequested := time, DefaultTaskTicks, 0, 0;
      taskExec, taskDisp := exec, disp;
      ticks, lastSwitch, createdAt := time, 0, map[];
    }

    /** The task a `task_setprio` or `task_getprio` argument denotes: NULL stands for the running task. */
    function Target(task: Task?): Task
      reads this
    {
      if task == null then taskExec else task
    }

    /** `task_getprio`. */
    function GetPrio(task: Task?): (p: int)
      reads this, Target(task)
      ensures task != null ==> p == task.staticPrio
      ensures task == null ==> p == taskExec.staticPrio
    {
      Target(task).staticPrio
    }

    /** `task_setprio`: a priority outside [-20, 20] is ignored. */
    method SetPrio(task: Task?, prio: int)
      requires Valid()
      modifies Target(task)`staticPrio
      ensures Valid()
      ensures GetPrio(task) == if InPrioRange(prio) then prio else old(GetPrio(task))
    {
      if InPrioRange(prio) {
        if task != null {
          task.staticPrio := prio;
        } else {
          taskExec.staticPrio := prio;
        }
      }
    }

    function ClockState(): Clock
      reads this
    {
      Clock(systemTime, taskTicksQty, yieldsRequested)
    }

    /** `tickHandler`: one timer interrupt; a yield request stands for the call of `task_yield`. */
    method TickHandler()
      requires Valid()
      modifies this`systemTime, this`taskTicksQty, this`yieldsRequested, this`ticks
      ensures Valid()
      ensures ticks == old(ticks) + 1
      ensures ClockState() == Tick(old(ClockState()), taskExec == taskDisp)
    {
      taskTicksQty := taskTicksQty - 1;
      AddOneTracksClock(ticks);
      systemTime := Add(systemTime, 1);
      ticks := ticks + 1;
      if taskTicksQty <= 0 {
        taskTicksQty := DefaultTaskTicks;
        if taskExec != taskDisp {
          yieldsRequested := yieldsRequested + 1;
        }
      }
    }

    /**
     * `metricsHandler`, run before every task switch: the outgoing task is
     * credited with the ticks since the last switch, the incoming task's
     * activation count grows by one.
     */
    method MetricsHandler(prev: Task, next: Task)
      requires Valid()
      modifies prev`processorTicks, next`activations, this`taskStartingTick, this`lastSwitch
      ensures Valid()
      ensures prev.processorTicks == Add(old(prev.processorTicks), Sub(systemTime, old(taskStartingTick)))
      ensures next.activations == Add(old(next.activations), 1)
      ensures taskStartingTick == systemTime && lastSwitch == ticks
      ensures ticks - old(lastSwitch) < Modulus ==>
        Sub(systemTime, old(taskStartingTick)) == ticks - old(lastSwitch)
    {
      if ticks - lastSwitch < Modulus {
        SubRecoversElapsed(lastSwitch, ticks);
      }
      prev.processorTicks := Add(prev.processorTicks, Sub(systemTime, taskStartingTick));
      next.activations := Add(next.activations, 1);
      taskStartingTick := systemTime;
      lastSwitch := ticks;
    }

    /**
     * `before_task_switch`: before the dispatcher switches to `task`, the
     * running task is the outgoing one of `metricsHandler`.
     */
    method BeforeTaskSwitch(task: Task)
      requires Valid()
      modifies taskExec`processorTicks, task`activations, this`taskStartingTick, this`lastSwitch
      ensures Valid()
      ensures taskExec.processorTicks == Add(old(taskExec.processorTicks), Sub(systemTime, old(taskStartingTick)))
      ensures task.activations == Add(old(task.activations), 1)
      ensures taskStartingTick == systemTime && lastSwitch == ticks
      ensures ticks - old(lastSwitch) < Modulus ==>
        Sub(systemTime, old(taskStartingTick)) == ticks - old(lastSwitch)
    {
      MetricsHandler(taskExec, task);
    }

    /** `after_task_create`: stamp the new task with the current time. */
    method AfterTaskCreate(task: Task)
      requires Valid()
      modifies task`execTicks, this`createdAt
      ensures Valid()
      ensures task.execTicks == systemTime
      ensures createdAt == old(createdAt)[task := ticks]
    {
      task.execTicks := systemTime;
      createdAt := createdAt[task := ticks];
    }

    /**
     * `after_task_exit`: replace the running task's creation stamp by the
     * ticks elapsed since; that is its exact lifetime unless 2^32 ticks or
     * more have passed.
     */
    method AfterTaskExit()
      requires Valid()
      modifies taskExec`execTicks, this`createdAt
      ensures Valid()
      ensures taskExec.execTicks == Sub(systemTime, old(taskExec.execTicks))
      ensures createdAt == old(createdAt) - {taskExec}
      ensures old(taskExec in createdAt) && ticks - old(createdAt[taskExec]) < Modulus ==>
        taskExec.execTicks == ticks - old(createdAt[taskExec])
    {
      if taskExec in createdAt && ticks - createdAt[taskExec] < Modulus {
        SubRecoversElapsed(createdAt[taskExec], ticks);
      }
      taskExec.execTicks := Sub(systemTime, taskExec.execTicks);
      createdAt := createdAt - {taskExec};
    }
  }
}
