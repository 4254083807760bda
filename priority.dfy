/**
 * The Unix-style priority policy of the CPU scheduler, as values: the static
 * and dynamic priority of every task on the ready ring, listed from the head
 * of the ring in `next` order. Lower numbers are more urgent.
 */
module Priority {

  const UnixMaxPrio: int := 20
  const UnixMinPrio: int := -20
  const UnixAgingFactor: int := -1

  /** The closed range `task_setprio` accepts. */
  predicate InPrioRange(p: int)
  {
    UnixMinPrio <= p <= UnixMaxPrio
  }

  datatype Prio = Prio(staticPrio: int, dynPrio: int)

  /**
   * The ring position `getHighestPrioTaks` picks: it walks the ring from the
   * head and replaces its candidate only on a strictly smaller dynamic
   * priority.
   */
  function HighestPrioIndex(ps: seq<Prio>): (k: nat)
    requires |ps| > 0
    ensures k < |ps|
  {
    if |ps| == 1 then 0
    else
      var k := HighestPrioIndex(ps[..|ps| - 1]);
      if ps[|ps| - 1].dynPrio < ps[k].dynPrio then |ps| - 1 else k
  }

  /** The picked position holds the smallest dynamic priority, and no earlier position holds it. */
  lemma {:induction false} HighestPrioIsFirstMinimum(ps: seq<Prio>)
    requires |ps| > 0
    ensures forall j :: 0 <= j < |ps| ==> ps[HighestPrioIndex(ps)].dynPrio <= ps[j].dynPrio
    ensures forall j :: 0 <= j < HighestPrioIndex(ps) ==> ps[HighestPrioIndex(ps)].dynPrio < ps[j].dynPrio
  {
    if |ps| > 1 {
      var front := ps[..|ps| - 1];
      HighestPrioIsFirstMinimum(front);
      var k, last := HighestPrioIndex(front), |ps| - 1;
      assert forall j :: 0 <= j < last ==> ps[j] == front[j];
      if ps[last].dynPrio < ps[k].dynPrio {
        assert HighestPrioIndex(ps) == last;
      } else {
        assert HighestPrioIndex(ps) == k;
      }
    }
  }

  /** A position is the one picked exactly when it is the first minimum. */
  lemma {:induction false} SelectedIffFirstMinimum(ps: seq<Prio>, i: nat)
    requires i < |ps|
    ensures HighestPrioIndex(ps) == i <==>
      (forall j :: 0 <= j < |ps| ==> ps[i].dynPrio <= ps[j].dynPrio) &&
      (forall j :: 0 <= j < i ==> ps[i].dynPrio < ps[j].dynPrio)
  {
    HighestPrioIsFirstMinimum(ps);
  }

  function Reset(p: Prio): Prio
  {
    p.(dynPrio := p.staticPrio)
  }

  function Age(p: Prio): Prio
  {
    p.(dynPrio := p.dynPrio + UnixAgingFactor)
  }

  /**
   * One call of `scheduler` on the ring's priorities: the picked task's
   * dynamic priority is reset to its static one, every other task is aged.
   * An empty ring is left as it is.
   */
  function ScheduleRound(ps: seq<Prio>): (r: seq<Prio>)
    ensures |r| == |ps|
    ensures forall i :: 0 <= i < |ps| ==> r[i].staticPrio == ps[i].staticPrio
  {
    if ps == [] then []
    else
      var k := HighestPrioIndex(ps);
      seq(|ps|, i requires 0 <= i < |ps| => if i == k then Reset(ps[i]) else Age(ps[i]))
  }

  /**
   * One round, read off the first minimum itself: the first position holding
   * the smallest dynamic priority gets its static priority back, every other
   * position sinks by one, and no static priority moves.
   */
  lemma {:induction false} RoundResetsFirstMinimum(ps: seq<Prio>, k: nat)
    requires k < |ps|
    requires forall j :: 0 <= j < |ps| ==> ps[k].dynPrio <= ps[j].dynPrio
    requires forall j :: 0 <= j < k ==> ps[k].dynPrio < ps[j].dynPrio
    ensures ScheduleRound(ps)[k].dynPrio == ps[k].staticPrio
    ensures forall j :: 0 <= j < |ps| && j != k ==> ScheduleRound(ps)[j].dynPrio == ps[j].dynPrio - 1
    ensures forall j :: 0 <= j < |ps| ==> ScheduleRound(ps)[j].staticPrio == ps[j].staticPrio
  {
    SelectedIffFirstMinimum(ps, k);
  }

  /** Unfolds `ScheduleRound` at position `i`; a helper for `PickedFloor`. */
  lemma RoundAt(ps: seq<Prio>, i: nat)
    requires i < |ps|
    ensures ScheduleRound(ps)[i] == if i == HighestPrioIndex(ps) then Reset(ps[i]) else Age(ps[i])
  {
  }

  /** Folds a pointwise round back into `ScheduleRound`; a helper for `CoreAux.Scheduler`. */
  lemma RoundFromParts(before: seq<Prio>, after: seq<Prio>)
    requires |before| > 0 && |after| == |before|
    requires after[HighestPrioIndex(before)] == Reset(before[HighestPrioIndex(before)])
    requires forall j :: 0 <= j < |before| && j != HighestPrioIndex(before) ==> after[j] == Age(before[j])
    ensures after == ScheduleRound(before)
  {
  }

  /** The ring's priorities after `n` consecutive calls of `scheduler`. */
  function Rounds(ps: seq<Prio>, n: nat): (r: seq<Prio>)
    ensures |r| == |ps|
  {
    if n == 0 then ps else ScheduleRound(Rounds(ps, n - 1))
  }

  /** The ring position `scheduler` picks in round `n` (counting from 0). */
  function Winner(ps: seq<Prio>, n: nat): (k: nat)
    requires |ps| > 0
    ensures k < |ps|
  {
    HighestPrioIndex(Rounds(ps, n))
  }

  /** Static priorities survive any number of rounds. */
  lemma {:induction false} RoundsKeepStatic(ps: seq<Prio>, n: nat, i: nat)
    requires i < |ps|
    ensures Rounds(ps, n)[i].staticPrio == ps[i].staticPrio
  {
    if n > 0 {
      RoundsKeepStatic(ps, n - 1, i);
    }
  }

  /**
   * Aging accumulates without any clamp: a task passed over for `n` rounds
   * has its dynamic priority lowered by exactly `n`, below -20 if need be.
   */
  lemma {:induction false} AgingAccumulates(ps: seq<Prio>, n: nat, i: nat)
    requires i < |ps|
    requires forall r :: 0 <= r < n ==> Winner(ps, r) != i
    ensures Rounds(ps, n)[i].dynPrio == ps[i].dynPrio - n
  {
    if n > 0 {
      AgingAccumulates(ps, n - 1, i);
      assert Winner(ps, n - 1) != i;
    }
  }

  /** The task picked in a round leaves it with its static priority. */
  lemma {:induction false} WinnerIsReset(ps: seq<Prio>, n: nat)
    requires |ps| > 0
    ensures Rounds(ps, n + 1)[Winner(ps, n)].dynPrio == ps[Winner(ps, n)].staticPrio
  {
    RoundsKeepStatic(ps, n, Winner(ps, n));
  }

  /** Every static priority on the ring is at least the floor of the range `task_setprio` accepts. */
  predicate StaticAtLeastFloor(ps: seq<Prio>)
  {
    forall i :: 0 <= i < |ps| ==> UnixMinPrio <= ps[i].staticPrio
  }

  /** After being picked in round `q`, a task's dynamic priority sinks by at most one per round. */
  lemma {:induction false} PickedFloor(ps: seq<Prio>, q: nat, r: nat)
    requires |ps| > 0 && StaticAtLeastFloor(ps)
    requires q < r
    ensures Rounds(ps, r)[Winner(ps, q)].dynPrio >= UnixMinPrio - (r - 1 - q)
  {
    var u := Winner(ps, q);
    var prev := Rounds(ps, r - 1);
    assert Rounds(ps, r) == ScheduleRound(prev);
    RoundAt(prev, u);
    if u == HighestPrioIndex(prev) {
      RoundsKeepStatic(ps, r - 1, u);
      assert Rounds(ps, r)[u].dynPrio == ps[u].staticPrio;
    } else {
      assert r - 1 != q;
      PickedFloor(ps, q, r - 1);
      assert Rounds(ps, r)[u].dynPrio == prev[u].dynPrio - 1;
    }
  }

  /**
   * While task `t` waits, another task can be picked a second time only if
   * its earlier pick came before round `dynPrio(t) + 20`.
   */
  lemma {:induction false} RepeatPickIsEarly(ps: seq<Prio>, t: nat, q: nat, r: nat)
    requires t < |ps| && StaticAtLeastFloor(ps)
    requires q < r && Winner(ps, q) == Winner(ps, r)
    requires forall x :: 0 <= x <= r ==> Winner(ps, x) != t
    ensures q < ps[t].dynPrio - UnixMinPrio
  {
    AgingAccumulates(ps, r, t);
    PickedFloor(ps, q, r);
    HighestPrioIsFirstMinimum(Rounds(ps, r));
  }

  /** Pigeonhole: a sequence of distinct elements of `s` is no longer than `s` has elements. */
  lemma {:induction false} DistinctFit(xs: seq<nat>, s: set<nat>)
    requires forall i :: 0 <= i < |xs| ==> xs[i] in s
    requires forall i, j :: 0 <= i < j < |xs| ==> xs[i] != xs[j]
    ensures |xs| <= |s|
  {
    if xs != [] {
      var last := xs[|xs| - 1];
      DistinctFit(xs[..|xs| - 1], s - {last});
    }
  }

  /** The ring positions below `n`. */
  function Positions(n: nat): (p: set<nat>)
    ensures forall i: nat :: i in p <==> i < n
    ensures |p| == n
  {
    if n == 0 then {} else Positions(n - 1) + {n - 1}
  }

  /** The number of rounds before `WaitBound` in which earlier picks can repeat. */
  function EarlyRounds(ps: seq<Prio>, t: nat): nat
    requires t < |ps|
  {
    if ps[t].dynPrio - UnixMinPrio > 0 then ps[t].dynPrio - UnixMinPrio else 0
  }

  /**
   * How many rounds task `t` can wait at most: the distance of its dynamic
   * priority above the floor of the range, plus the ring size.
   */
  function WaitBound(ps: seq<Prio>, t: nat): nat
    requires t < |ps|
  {
    EarlyRounds(ps, t) + |ps|
  }

  /** While `t` waits, the rounds after `EarlyRounds` pick pairwise distinct tasks. */
  lemma {:induction false} WaitingPicksDistinct(ps: seq<Prio>, t: nat, m: nat, i: nat, j: nat)
    requires t < |ps| && StaticAtLeastFloor(ps)
    requires forall r: nat :: r < EarlyRounds(ps, t) + m ==> Winner(ps, r) != t
    requires i < j < m
    ensures Winner(ps, EarlyRounds(ps, t) + i) != Winner(ps, EarlyRounds(ps, t) + j)
  {
    var early := EarlyRounds(ps, t);
    var x, y := early + i, early + j;
    if Winner(ps, x) == Winner(ps, y) {
      assert forall r: nat :: r <= y ==> Winner(ps, r) != t;
      RepeatPickIsEarly(ps, t, x, y);
    }
  }

  /** The positions picked in the `n` rounds starting with round `lo`, in round order. */
  function PicksFrom(ps: seq<Prio>, lo: nat, n: nat): (xs: seq<nat>)
    requires |ps| > 0
    ensures |xs| == n
    ensures forall i :: 0 <= i < n ==> xs[i] == Winner(ps, lo + i)
  {
    if n == 0 then [] else PicksFrom(ps, lo, n - 1) + [Winner(ps, lo + n - 1)]
  }

  /**
   * Task `t` is passed over for fewer than `EarlyRounds + |ps|` rounds: after
   * `EarlyRounds`, each other task can be picked at most once before `t`.
   */
  lemma {:induction false} WaitIsBounded(ps: seq<Prio>, t: nat, m: nat)
    requires t < |ps| && StaticAtLeastFloor(ps)
    requires forall r: nat :: r < EarlyRounds(ps, t) + m ==> Winner(ps, r) != t
    ensures m < |ps|
  {
    var n, early := |ps|, EarlyRounds(ps, t);
    var picks := PicksFrom(ps, early, m);
    forall i, j | 0 <= i < j < m
      ensures picks[i] != picks[j]
    {
      WaitingPicksDistinct(ps, t, m, i, j);
    }
    var others := Positions(n) - {t};
    forall i | 0 <= i < m
      ensures picks[i] in others
    {
      assert early + i < early + m;
    }
    assert Positions(n) == others + {t};
    DistinctFit(picks, others);
  }

  /**
   * Aging prevents starvation: as long as no static priority lies below
   * -20, every task on the ring is picked within `WaitBound` rounds.
   */
  lemma {:induction false} NoStarvation(ps: seq<Prio>, t: nat)
    requires t < |ps| && StaticAtLeastFloor(ps)
    ensures exists r: nat :: r < WaitBound(ps, t) && Winner(ps, r) == t
  {
    if forall r: nat :: r < WaitBound(ps, t) ==> Winner(ps, r) != t {
      WaitIsBounded(ps, t, |ps|);
      assert false;
    }
  }
}
