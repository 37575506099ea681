/** The global connection counter: the accept loop adds before it checks, and every served
    connection's guard subtracts when it is dropped (`ConnGuard`). */
module ConnCount {
  import opened Wire

  /** `count` is the shared atomic; `live` counts the connections whose guard exists; `accepting`
      is what the accept loop's fetch_add returned, until it has decided. */
  datatype Machine = Machine(count: int, live: nat, accepting: Option<int>)

  datatype Action =
    | Add      // the accept loop's fetch_add
    | Decide   // reject with fetch_sub, or hand over to a guarded task
    | Drop     // some guard is dropped

  function Act(max: nat, m: Machine, a: Action): Machine {
    match a
    case Add =>
      if m.accepting.Some? then m else Machine(m.count + 1, m.live, Some(m.count))
    case Decide =>
      if m.accepting.None? then m
      else if m.accepting.value >= max then Machine(m.count - 1, m.live, None)
      else Machine(m.count, m.live + 1, None)
    case Drop =>
      if m.live == 0 then m else Machine(m.count - 1, m.live - 1, m.accepting)
  }

  function Run(max: nat, actions: seq<Action>): Machine {
    if actions == [] then Machine(0, 0, None)
    else Act(max, Run(max, actions[..|actions| - 1]), actions[|actions| - 1])
  }

  /** `accepting` was the number of live connections when it was read, so it bounds theirs. */
  predicate Balanced(max: nat, m: Machine) {
    && m.count == m.live + (if m.accepting.Some? then 1 else 0)
    && m.live <= max
    && (m.accepting.Some? ==> m.live <= m.accepting.value)
  }

  /** However accepts and drops interleave, the counter is the number of live connections plus
      the accept in flight, and never more than `max` connections live. */
  lemma {:induction false} CounterBalanced(max: nat, actions: seq<Action>)
    ensures Balanced(max, Run(max, actions))
  {
    if actions != [] { CounterBalanced(max, actions[..|actions| - 1]); }
  }

  lemma RunAppend(max: nat, actions: seq<Action>, a: Action)
    ensures Run(max, actions + [a]) == Act(max, Run(max, actions), a)
  {
    assert (actions + [a])[..|actions|] == actions;
  }

  function Drops(k: nat): seq<Action> {
    if k == 0 then [] else Drops(k - 1) + [Drop]
  }

  lemma {:induction false} DropsRun(max: nat, actions: seq<Action>, k: nat)
    requires k <= Run(max, actions).live
    ensures var m := Run(max, actions);
            Run(max, actions + Drops(k)) == Machine(m.count - k, m.live - k, m.accepting)
  {
    hide Run;
    if k == 0 {
      assert actions + Drops(0) == actions;
    } else {
      DropsRun(max, actions, k - 1);
      RunAppend(max, actions + Drops(k - 1), Drop);
      assert actions + Drops(k) == actions + Drops(k - 1) + [Drop];
    }
  }

  /** An accepted connection is rejected exactly when `max` connections were live as it was
      counted, whatever is dropped before the loop decides; a rejection leaves no trace. */
  lemma RejectedIffFull(max: nat, actions: seq<Action>, k: nat)
    requires Run(max, actions).accepting.None? && k <= Run(max, actions).live
    ensures var m := Run(max, actions);
            var decided := Run(max, actions + [Add] + Drops(k) + [Decide]);
            && decided.accepting.None?
            && decided.count == decided.live
            && decided.live == m.live - k + (if m.live == max then 0 else 1)
  {
    CounterBalanced(max, actions);
    RunAppend(max, actions, Add);
    DropsRun(max, actions + [Add], k);
    RunAppend(max, actions + [Add] + Drops(k), Decide);
  }
}
