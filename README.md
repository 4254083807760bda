# PingPong OS scheduling hooks in Dafny

PingPong OS is a teaching kernel. It runs user-level tasks in a single Unix
process. `ppos-core-aux.c` holds the hooks the kernel calls around its
own operations. This project models the scheduling part of that file:

- the priority scheduler with aging over the circular ready list
  (`scheduler`, `getHighestPrioTaks`);
- the static-priority setter and getter (`task_setprio`, `task_getprio`);
- the timer-tick handler, which runs the 40-tick quantum (`tickHandler`);
- the processor-time and activation metrics taken at every task switch
  (`metricsHandler`);
- the execution-time stamps of task creation and exit (`after_task_create`,
  `after_task_exit`).

Modules:

- `Word32` (`word32.dfy`): arithmetic on 32-bit unsigned
  counters. Addition and subtraction wrap modulo 2^32. The lemmas show how
  the wrapped difference of two clock readings gives back the elapsed time.
- `Priority` (`priority.dfy`): the priority policy, on values. The ring of
  ready tasks is a sequence of `(static, dynamic)` priority pairs, listed
  from the head in `next` order.
  - `HighestPrioIndex` is the position `getHighestPrioTaks` picks.
  - `ScheduleRound` is one call of `scheduler`.
  - `Rounds` is a run of consecutive calls.
  
  The module proves that the picked position is the first minimum. It also
  proves that aging bounds how long a ready task waits. Take a ring that
  stays the same between calls: no task joins or leaves, the head does not
  move and no priority is set. If all static priorities are at least -20,
  a task whose dynamic priority is `d` is picked within `max(0, d + 20) + n`
  rounds, where `n` is the number of tasks on the ring.
- `Quantum` (`quantum.dfy`): the tick handler as a state machine on
  `(systemTime, iTaskTicksQty, yields requested)`. Its lemmas give the
  outcome of a run of ticks started from a fresh quantum.
- `CoreAux` (`core_aux.dfy`): the imperative model.
  - `Task` is a class with the descriptor fields the hooks update in place.
  - `HighestPrioTask`, `AgeOthers` and `Scheduler` walk and update a ring
    of distinct tasks.
  - `Kernel` is a class with the shared state: `systemTime`,
    `uiTaskStartingTick`, the static countdown `iTaskTicksQty` of
    `tickHandler`, `taskExec` and `taskDisp`. Its methods model the
    remaining hooks.
  - The ghost fields of `Kernel` hold the unbounded tick count behind the
    32-bit clock. With them, the tick counters can be stated as exact
    elapsed times whenever less than 2^32 ticks have passed.
  - `Scheduler` is stated against `Priority.ScheduleRound` and
    `Priority.HighestPrioIndex`, and `Kernel.TickHandler` against
    `Quantum.Tick`. `MetricsHandler`, `BeforeTaskSwitch`, `AfterTaskCreate`
    and `AfterTaskExit` are stated with the wrapped arithmetic of `Word32`
    and the ghost tick count. `BeforeTaskSwitch` calls `MetricsHandler`
    with the running task as the outgoing one.

The circular `next` links are not represented directly. The ring is the
sequence of its tasks from `readyQueue` on, and each task appears in it
once (`Distinct`). A walk `do { …; runner = runner->next; } while (runner !=
first)` therefore visits the positions `0 .. n-1` in order.

Where the code and its documentation disagree, the model follows the code:

- The comment on `tickHandler` (line 46) speaks of 20 ticks per quantum.
  `DEFAULT_TASK_TICKS` is 40 (line 13), so the model uses 40.
- `scheduler` on an empty ready list returns `NULL` rather than requiring
  a non-empty list. The model has that case too.
- Dynamic priorities are aged without a lower clamp, so they can fall below
  -20. `Priority.AgingAccumulates` states this.

## Model

| member | source | states |
|---|---|---|
| Priority.HighestPrioIsFirstMinimum | ppos-core-aux.c:576-593 | the task the walk keeps has the smallest dynamic priority on the ring, and every task before it from the head has a strictly larger one (ties go to the first) |
| Priority.SelectedIffFirstMinimum | ppos-core-aux.c:581-590 | a position is the one picked exactly when it holds a minimum dynamic priority and no earlier position holds that minimum |
| Priority.HighestPrioIndex | ppos-core-aux.c:576-593 | the position the walk keeps lies on the ring; what it means (the first minimum) is stated by HighestPrioIsFirstMinimum and SelectedIffFirstMinimum |
| Priority.ScheduleRound | ppos-core-aux.c:544-560 | one scheduler call on the ring's priorities keeps the ring's length and every static priority; its effect on dynamic priorities is stated by RoundResetsFirstMinimum |
| Priority.RoundResetsFirstMinimum | ppos-core-aux.c:544-560 | one scheduler call gives the first task with the smallest dynamic priority its static priority back and lowers every other task's dynamic priority by exactly one |
| Priority.RoundsKeepStatic | ppos-core-aux.c:545-556 | no number of scheduler calls changes a static priority |
| Priority.AgingAccumulates | ppos-core-aux.c:551-560 | a task passed over for n calls has its dynamic priority lowered by exactly n, without a floor |
| Priority.WinnerIsReset | ppos-core-aux.c:545 | the task picked in a round leaves that round with its static priority as dynamic priority |
| Priority.PickedFloor | ppos-core-aux.c:545-556 | after being picked, a task's dynamic priority sinks by at most one per later round below -20 |
| Priority.RepeatPickIsEarly | ppos-core-aux.c:538-593 | while task t waits, another task can be picked a second time only if its first pick lay within dynPrio(t) + 20 rounds |
| Priority.WaitIsBounded | ppos-core-aux.c:538-593 | after those early rounds, fewer rounds than there are tasks can pass over t |
| Priority.NoStarvation | ppos-core-aux.c:538-593 | on a ready ring that stays fixed between calls (no task joins or leaves, the head does not move, no priority is set), with every static priority at least -20, each task is picked within max(0, dynPrio + 20) + ring-size scheduler calls |
| CoreAux.HighestPrioTask | ppos-core-aux.c:576-593 | one walk from the head returns a ring task with the minimum dynamic priority, and no task before it has that minimum |
| CoreAux.AgeOthers | ppos-core-aux.c:547-560 | the second walk ages every ring task except the picked one by -1 and changes no other field |
| CoreAux.Scheduler | ppos-core-aux.c:538-564 | returns NULL exactly on an empty ready list; otherwise returns the task at the first-minimum position, and the ring's priorities become ScheduleRound of the old ones; metrics are untouched |
| CoreAux.Kernel.constructor | ppos-core-aux.c:31 | the hooks start with `uiTaskStartingTick` 0 and a full 40-tick quantum (line 597); the clock starts at a given value |
| CoreAux.Kernel.GetPrio | ppos-core-aux.c:522-536 | the static priority of the given task, or of the running task when the argument is NULL |
| CoreAux.Kernel.SetPrio | ppos-core-aux.c:505-520 | a priority in [-20, 20] becomes the static priority of the given task (the running task on NULL); any other value leaves it unchanged |
| CoreAux.Kernel.TickHandler | ppos-core-aux.c:595-613 | one interrupt is exactly one `Quantum.Tick` of the kernel's clock state and keeps the clock equal to the true tick count modulo 2^32 |
| CoreAux.Kernel.MetricsHandler | ppos-core-aux.c:615-624 | the outgoing task gets the wrapped ticks since the last switch, which is the true elapsed time when that is below 2^32; the incoming task gets one more activation; the switch tick becomes now |
| CoreAux.Kernel.BeforeTaskSwitch | ppos-core-aux.c:161-167 | the running task is the outgoing one: it is credited with the ticks since the last switch (exact below 2^32), the task switched to gets one more activation, and the switch tick becomes now |
| CoreAux.Kernel.AfterTaskCreate | ppos-core-aux.c:133-139 | the new task is stamped with the current system time |
| CoreAux.Kernel.AfterTaskExit | ppos-core-aux.c:148-152 | the running task's stamp becomes the wrapped time since its creation stamp, which is its exact lifetime when that is below 2^32 ticks |
| Quantum.Tick | ppos-core-aux.c:595-613 | the clock advances by one modulo 2^32; the countdown stays within 1..40; a yield is requested exactly when the countdown runs out while the running task is not the dispatcher |
| Quantum.TicksAdvanceClock | ppos-core-aux.c:600 | n ticks advance the system clock by n modulo 2^32 |
| Quantum.QuantumSchedule | ppos-core-aux.c:595-613 | from a fresh quantum, n ticks advance the clock by n (mod 2^32), leave 40 - n mod 40 ticks of the quantum and request one yield at each 40th tick where the dispatcher is not running |
| Quantum.OneYieldPerQuantum | ppos-core-aux.c:602-609 | while the dispatcher never runs, n ticks request exactly n / 40 yields |
| Quantum.DispatcherNeverYields | ppos-core-aux.c:606-609 | while the dispatcher runs, no yield is ever requested |
| Word32.SubRecoversElapsed | ppos-core-aux.c:617 | the 32-bit difference of two clock readings less than 2^32 ticks apart is the exact number of ticks between them |
| Word32.AddOneTracksClock | ppos-core-aux.c:600 | incrementing the wrapped clock is the same as wrapping the incremented tick count |

## Left out

- `before_ppos_init`: installing the signal handlers and arming the interval
  timer are operating-system calls. They are not modelled. Timer interrupts
  become explicit calls of `Kernel.TickHandler`. As written, the function
  also installs `tickHandler` for `SIGUSR1` (lines 104-108), where
  `memActionHandler` is evidently meant. This is not modelled either.
- `memActionHandler` and `printTaskInfo`: the first only forwards to
  `memActionFinished`, which is not part of this model. The second only prints.
- The remaining `before_*` / `after_*` hooks only print under `DEBUG`.
  The exceptions are `after_task_create`, `after_task_exit` and
  `before_task_switch`; all three are modelled.
- `task_yield` is outside this file. `Kernel.TickHandler` records each call
  it would make as one more `yieldsRequested`.
- Signals are asynchronous. The model runs every handler as one atomic step.
- `systemTime`, `readyQueue`, `taskExec`, `taskDisp` and the task
  descriptor are declared in headers that are not part of this model.
  - `systemTime` is taken to be a 32-bit unsigned counter.
  - `readyQueue` is the sequence passed to `CoreAux.Scheduler`.
  - The running task and the dispatcher are fields of `Kernel`.
- Priorities are unbounded integers. The model does not capture a C
  `int` overflow of `iDinamPrio` after about 2^31 rounds of aging.
- The ring's `next` pointers are not represented. A ring is a sequence
  of distinct tasks, so a ring whose links do not close into one circle
  is not modelled.
- `ppos_disk.c`: `disk_mgr_init` only forwards to `disk_cmd` (init, disk
  size, block size) and returns the init status. `disk_block_read` and
  `disk_block_write` are empty. `ppos_disk.h` holds only declarations. The disk manager, its request queue and its FCFS, SSTF and
  CSCAN policies are therefore not modelled.
- `Priority.HighestPrioIndex`: its own contract states only that the
  position is on the ring. The first-minimum property is proved separately,
  in `HighestPrioIsFirstMinimum` and `SelectedIffFirstMinimum`.
- `Priority.NoStarvation`: the bound is proved for consecutive calls of
  `scheduler` on one fixed ring. The dispatcher and the task code that add
  or remove ready tasks, move the head of `readyQueue` or call
  `task_setprio` between calls are not part of this model. Nothing here
  shows that the ring stays fixed in a real run.
- `CoreAux.Kernel.constructor`: where `systemTime` starts is set in code
  that is not part of this model. The constructor takes the starting value
  as a parameter. Line 31 fixes only `uiTaskStartingTick` at 0.
- `Priority.NoStarvation` also assumes every static priority is at least -20.
  `task_setprio` only stores values in [-20, 20]. The static priority that
  `task_create` gives a new task is set in code that is not part of this
  model.
