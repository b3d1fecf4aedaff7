/** A fuel-bounded driver for machines that run turn by turn, with the facts
    about it that hold whatever the turn does: more fuel never changes a
    finished run, invariants carry to the outcome, and one machine that
    follows another in lockstep finishes as the other does. */
module Loops {
  import opened Results

  /** What one turn of a machine does: finish with an outcome, or move to a
      new configuration. */
  datatype Turn<C, O> = Done(outcome: O) | Continue(next: C)

  /** Runs `turn` from `c` until it finishes; `None` if that would take more
      than `fuel` continuing turns. */
  function Loop<C, O>(turn: C -> Turn<C, O>, c: C, fuel: nat): (r: Option<O>)
    ensures turn(c).Done? ==> r == Some(turn(c).outcome)
    ensures turn(c).Continue? && fuel == 0 ==> r.None?
    decreases fuel
  {
    match turn(c)
    case Done(o) => Some(o)
    case Continue(d) => if fuel == 0 then None else Loop(turn, d, fuel - 1)
  }

  /** A continuing turn with fuel left hands the rest of the run to the next
      configuration. */
  lemma LoopContinue<C, O>(turn: C -> Turn<C, O>, c: C, fuel: nat)
    requires turn(c).Continue? && fuel > 0
    ensures Loop(turn, c, fuel) == Loop(turn, turn(c).next, fuel - 1)
  {
  }

  /** Fuel only bounds the run: once a run finishes, more fuel gives the
      same outcome. */
  lemma {:induction false} MoreFuel<C, O>(turn: C -> Turn<C, O>, c: C, fuel: nat, more: nat)
    requires Loop(turn, c, fuel).Some?
    requires more >= fuel
    ensures Loop(turn, c, more) == Loop(turn, c, fuel)
    decreases fuel
  {
    match turn(c)
    case Done(o) =>
    case Continue(d) => MoreFuel(turn, d, fuel - 1, more - 1);
  }

  /** An invariant `inv` of the configurations whose finishing turns all
      satisfy `post` gives `post` for the outcome of every finished run. */
  lemma {:induction false} Invariant<C, O>(turn: C -> Turn<C, O>, inv: C -> bool, post: O -> bool, c: C, fuel: nat)
    requires inv(c)
    requires forall d | inv(d) :: turn(d).Continue? ==> inv(turn(d).next)
    requires forall d | inv(d) :: turn(d).Done? ==> post(turn(d).outcome)
    ensures Loop(turn, c, fuel).Some? ==> post(Loop(turn, c, fuel).value)
    decreases fuel
  {
    match turn(c)
    case Done(o) =>
    case Continue(d) =>
      if fuel > 0 {
        Invariant(turn, inv, post, d, fuel - 1);
      }
  }

  /** One turn of the leading machine (`x`) against the matching turn of the
      follower (`y`) from related configurations: a finishing turn with a
      `good` outcome is matched by a finishing turn whose outcome `agree`s,
      and a continuing turn by a continuing turn to related configurations,
      unless the leader moves to a configuration from which it is `doomed`
      never to reach a good outcome. */
  predicate Lockstep<C1, O1, C2, O2>(x: Turn<C1, O1>, y: Turn<C2, O2>, rel: (C1, C2) -> bool,
                                     doomed: C1 -> bool, good: O1 -> bool, agree: (O1, O2) -> bool)
  {
    match x
    case Done(o) => good(o) ==> y.Done? && agree(o, y.outcome)
    case Continue(n) => doomed(n) || (y.Continue? && rel(n, y.next))
  }

  /** When each turn of `lead` is matched by `follow` in lockstep, a run of
      `lead` that finishes with a good outcome is matched by a run of
      `follow`, on the same fuel, that finishes with an outcome that agrees. */
  lemma {:induction false} Simulation<C1, O1, C2, O2>(lead: C1 -> Turn<C1, O1>, follow: C2 -> Turn<C2, O2>,
                                                      rel: (C1, C2) -> bool, doomed: C1 -> bool,
                                                      good: O1 -> bool, agree: (O1, O2) -> bool,
                                                      c1: C1, c2: C2, fuel: nat)
    requires rel(c1, c2)
    requires forall a, b | rel(a, b) :: Lockstep(lead(a), follow(b), rel, doomed, good, agree)
    requires forall a, f: nat | doomed(a) && Loop(lead, a, f).Some? :: !good(Loop(lead, a, f).value)
    ensures Loop(lead, c1, fuel).Some? && good(Loop(lead, c1, fuel).value) ==>
              Loop(follow, c2, fuel).Some? && agree(Loop(lead, c1, fuel).value, Loop(follow, c2, fuel).value)
    decreases fuel
  {
    assert Lockstep(lead(c1), follow(c2), rel, doomed, good, agree);
    match lead(c1)
    case Done(o) =>
    case Continue(n) =>
      if fuel > 0 {
        if doomed(n) {
          assert Loop(lead, c1, fuel) == Loop(lead, n, fuel - 1);
        } else {
          Simulation(lead, follow, rel, doomed, good, agree, n, follow(c2).next, fuel - 1);
        }
      }
  }
}
