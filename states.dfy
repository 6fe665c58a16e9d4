/**
 * The process lifecycle: four states, their numeric encoding in the
 * `process.state` column, and the transition one `process` call performs.
 */
module States {
  import opened Wrappers

  datatype StateEnum = Ready | ReadyInPartition | Running | Finished

  /** The time a waiting-to-running transition takes off the remaining time. */
  const Quantum: int := 5

  /** `get_state_number`: the discriminant stored in the database. */
  function StateNumber(s: StateEnum): (n: int)
    ensures 0 <= n < 4
  {
    match s
    case Ready => 0
    case ReadyInPartition => 1
    case Running => 2
    case Finished => 3
  }

  /** `get_state_from_enum`: None stands for the "State not recognized" panic. */
  function StateFromNumber(n: int): (r: Option<StateEnum>)
    ensures r.Some? <==> 0 <= n < 4
    ensures r.Some? ==> StateNumber(r.value) == n
  {
    if n == 0 then Some(Ready)
    else if n == 1 then Some(ReadyInPartition)
    else if n == 2 then Some(Running)
    else if n == 3 then Some(Finished)
    else None
  }

  /** Decoding the number of a state gives that state back. */
  lemma StateNumberRoundTrip(s: StateEnum)
    ensures StateFromNumber(StateNumber(s)) == Some(s)
  {
  }

  /**
   * What one transition does: the next state, the new remaining time, and
   * whether the process's partition assignment is deleted.
   */
  datatype Step = Step(next: StateEnum, time: int, releases: bool)

  /** The `process` method of the four `State` implementations. */
  function Transition(s: StateEnum, time: int): (r: Step)
    ensures time >= 0 ==> 0 <= r.time <= time
    ensures time < 0 ==> r.time == (if s == Ready || s == ReadyInPartition then 0 else time)
    ensures r.releases <==> s == Running && time <= 0
    ensures (s == Ready || s == ReadyInPartition) ==> r.next == Running && r.time == (if time > Quantum then time - Quantum else 0)
    ensures s == Running ==> r.time == time && (r.next == Finished <==> time <= 0) && (r.next == ReadyInPartition <==> time > 0)
    ensures s == Finished ==> r == Step(Finished, time, false)
  {
    match s
    case Ready => Step(Running, Max0(time - Quantum), false)
    case ReadyInPartition => Step(Running, Max0(time - Quantum), false)
    case Running => if time > 0 then Step(ReadyInPartition, time, false) else Step(Finished, time, true)
    case Finished => Step(Finished, time, false)
  }

  /** `std::cmp::max(0, x)`: the larger of 0 and `x`. */
  function Max0(x: int): (r: int)
    ensures r >= 0 && r >= x && (r == 0 || r == x)
  {
    if x > 0 then x else 0
  }

  /** The state and remaining time after `k` transitions. */
  function Iterate(s: StateEnum, time: int, k: nat): (StateEnum, int)
    decreases k
  {
    if k == 0 then (s, time)
    else
      var st := Transition(s, time);
      Iterate(st.next, st.time, k - 1)
  }

  /** The number of waiting-to-running cycles needed to use up `time`: at least one. */
  function Cycles(time: int): (c: nat)
    ensures c >= 1
    ensures c * Quantum >= time && (c - 1) * Quantum < (if time > 0 then time else 1)
    decreases time
  {
    if time <= Quantum then 1 else 1 + Cycles(time - Quantum)
  }

  /**
   * A waiting process (Ready or ReadyInPartition) with remaining time `time`
   * reaches Finished after exactly 2 * Cycles(time) transitions, and not before.
   */
  lemma {:induction false} FinishesAfterCycles(s: StateEnum, time: int)
    requires s == Ready || s == ReadyInPartition
    ensures Iterate(s, time, 2 * Cycles(time)).0 == Finished
    ensures forall k :: 0 <= k < 2 * Cycles(time) ==> Iterate(s, time, k).0 != Finished
    decreases time
  {
    var st := Transition(s, time);
    assert Iterate(s, time, 1) == (Running, st.time);
    if time <= Quantum {
      assert st.time == 0;
      assert Iterate(s, time, 2) == Iterate(Running, 0, 1);
      assert Iterate(Running, 0, 1) == (Finished, 0);
      forall k | 0 <= k < 2 * Cycles(time)
        ensures Iterate(s, time, k).0 != Finished
      {
        assert k == 0 || k == 1;
      }
    } else {
      var rest := time - Quantum;
      assert st.time == rest && rest > 0;
      FinishesAfterCycles(ReadyInPartition, rest);
      forall k | 2 <= k
        ensures Iterate(s, time, k) == Iterate(ReadyInPartition, rest, k - 2)
      {
        assert Iterate(s, time, k) == Iterate(Running, rest, k - 1);
      }
      forall k | 0 <= k < 2 * Cycles(time)
        ensures Iterate(s, time, k).0 != Finished
      {
        if k >= 2 {
          assert Iterate(s, time, k) == Iterate(ReadyInPartition, rest, k - 2);
        } else {
          assert k == 0 || k == 1;
        }
      }
    }
  }

  /** Finished is a fixpoint: any number of further transitions leaves the process untouched. */
  lemma {:induction false} FinishedStays(time: int, k: nat)
    ensures Iterate(Finished, time, k) == (Finished, time)
  {
    if k > 0 {
      FinishedStays(time, k - 1);
    }
  }

  /** From a non-negative remaining time, any number of transitions keeps it between 0 and its start value. */
  lemma {:induction false} IterateTimeBounds(s: StateEnum, time: int, k: nat)
    requires time >= 0
    ensures 0 <= Iterate(s, time, k).1 <= time
    decreases k
  {
    if k > 0 {
      var st := Transition(s, time);
      IterateTimeBounds(st.next, st.time, k - 1);
    }
  }
}
