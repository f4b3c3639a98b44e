/** Logs in order: what has happened decides what may happen next. */
module Chronicle {

  /** A state that every entry changes, and the entries it allows. */
  datatype Rules<!E, !S> = Rules(start: S, step: (S, E) -> S, allows: (S, E) -> bool)

  function StateOf<E, S>(rules: Rules<E, S>, log: seq<E>): S {
    if log == [] then rules.start else rules.step(StateOf(rules, log[..|log| - 1]), log[|log| - 1])
  }

  /** Each entry was allowed by the ones before it. */
  predicate Ordered<E, S>(rules: Rules<E, S>, log: seq<E>) {
    log != [] ==> Ordered(rules, log[..|log| - 1]) && rules.allows(StateOf(rules, log[..|log| - 1]), log[|log| - 1])
  }

  ghost predicate Asked<E>(log: seq<E>) { true }

  /** The log is in order and leads to the state; folded up unless asked for. */
  ghost predicate History<E(!new), S>(rules: Rules<E, S>, log: seq<E>, state: S) {
    forall l {:trigger Asked(l)} :: Asked(l) && l == log ==> Ordered(rules, l) && StateOf(rules, l) == state
  }

  lemma Append<E(!new), S>(rules: Rules<E, S>, log: seq<E>, state: S, e: E)
    requires History(rules, log, state) && rules.allows(state, e)
    ensures History(rules, log + [e], rules.step(state, e))
  {
    assert Asked(log);
    assert (log + [e])[..|log|] == log;
  }

  /** Every entry of an ordered log was allowed where it stands. */
  lemma {:induction false} OrderedAt<E, S>(rules: Rules<E, S>, log: seq<E>, k: nat)
    requires Ordered(rules, log) && k < |log|
    ensures rules.allows(StateOf(rules, log[..k]), log[k])
  {
    if k < |log| - 1 {
      OrderedAt(rules, log[..|log| - 1], k);
      assert log[..|log| - 1][..k] == log[..k];
    }
  }
}
