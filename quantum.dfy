/**
 * The timer-tick state machine of `tickHandler`, as values: the system
 * clock, the countdown of the running quantum and the number of yields
 * requested so far.
 */
module Quantum {

  import opened Word32

  /** Length of a quantum, in ticks. */
  const DefaultTaskTicks: int := 40

  datatype Clock = Clock(systemTime: u32, taskTicksQty: int, yieldsRequested: nat)

  /**
   * One timer interrupt. `execIsDisp` tells whether the running task is the
   * dispatcher, which is never asked to yield.
   */
  function Tick(c: Clock, execIsDisp: bool): (r: Clock)
    ensures r.systemTime == Add(c.systemTime, 1)
    ensures 1 <= c.taskTicksQty <= DefaultTaskTicks ==> 1 <= r.taskTicksQty <= DefaultTaskTicks
    ensures r.yieldsRequested == c.yieldsRequested || r.yieldsRequested == c.yieldsRequested + 1
    ensures r.yieldsRequested > c.yieldsRequested <==> c.taskTicksQty <= 1 && !execIsDisp
  {
    var qty := c.taskTicksQty - 1;
    var time := Add(c.systemTime, 1);
    if qty <= 0 then
      Clock(time, DefaultTaskTicks, if execIsDisp then c.yieldsRequested else c.yieldsRequested + 1)
    else
      Clock(time, qty, c.yieldsRequested)
  }

  /** The clock after one tick per element of `disps` (true: the dispatcher was running). */
  function Ticks(c: Clock, disps: seq<bool>): Clock
  {
    if disps == [] then c else Tick(Ticks(c, disps[..|disps| - 1]), disps[|disps| - 1])
  }

  /** How many of the ticks in `disps` end a quantum (every 40th) while a task other than the dispatcher runs. */
  function DueYields(disps: seq<bool>): nat
  {
    if disps == [] then 0
    else
      DueYields(disps[..|disps| - 1]) +
      (if |disps| % DefaultTaskTicks == 0 && !disps[|disps| - 1] then 1 else 0)
  }

  /** Every tick advances the system clock by one, modulo 2^32. */
  lemma {:induction false} TicksAdvanceClock(c: Clock, disps: seq<bool>)
    ensures Ticks(c, disps).systemTime == Wrap(c.systemTime + |disps|)
  {
    if disps != [] {
      var n := |disps| - 1;
      TicksAdvanceClock(c, disps[..n]);
      AddOneTracksClock(c.systemTime + n);
    }
  }

  /** The countdown after `n + 1` ticks of a quantum, given the one after `n`. */
  lemma CountdownStep(n: nat)
    ensures DefaultTaskTicks - n % DefaultTaskTicks - 1 <= 0 <==> (n + 1) % DefaultTaskTicks == 0
    ensures (n + 1) % DefaultTaskTicks != 0 ==>
      DefaultTaskTicks - n % DefaultTaskTicks - 1 == DefaultTaskTicks - (n + 1) % DefaultTaskTicks
  {
  }

  /**
   * From a fresh quantum, `n` ticks advance the clock by `n` (modulo 2^32),
   * leave `40 - n % 40` ticks of the quantum and request exactly one yield
   * on every 40th tick at which the dispatcher is not running.
   */
  lemma {:induction false} QuantumSchedule(c: Clock, disps: seq<bool>)
    requires c.taskTicksQty == DefaultTaskTicks
    ensures Ticks(c, disps).systemTime == Wrap(c.systemTime + |disps|)
    ensures Ticks(c, disps).taskTicksQty == DefaultTaskTicks - |disps| % DefaultTaskTicks
    ensures Ticks(c, disps).yieldsRequested == c.yieldsRequested + DueYields(disps)
  {
    TicksAdvanceClock(c, disps);
    if disps != [] {
      var n := |disps| - 1;
      QuantumSchedule(c, disps[..n]);
      CountdownStep(n);
    }
  }

  /** While the dispatcher never runs, a yield is requested once per 40 ticks. */
  lemma {:induction false} OneYieldPerQuantum(disps: seq<bool>)
    requires forall i :: 0 <= i < |disps| ==> !disps[i]
    ensures DueYields(disps) == |disps| / DefaultTaskTicks
  {
    if disps != [] {
      var n := |disps| - 1;
      OneYieldPerQuantum(disps[..n]);
      if (n + 1) % DefaultTaskTicks == 0 {
        assert (n + 1) / DefaultTaskTicks == n / DefaultTaskTicks + 1;
      } else {
        assert (n + 1) / DefaultTaskTicks == n / DefaultTaskTicks;
      }
    }
  }

  /** While the dispatcher runs, no yield is ever requested. */
  lemma {:induction false} DispatcherNeverYields(disps: seq<bool>)
    requires forall i :: 0 <= i < |disps| ==> disps[i]
    ensures DueYields(disps) == 0
  {
    if disps != [] {
      DispatcherNeverYields(disps[..|disps| - 1]);
    }
  }
}
