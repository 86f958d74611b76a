/** The mistakes counter: `increment` counts a mistake unless the counter is
    frozen, `reset` zeroes it, and `withFreeze` runs a body with the counter
    frozen, unfreezing it afterwards whether or not the body throws. Saving
    the count is not modelled. */
module MistakeCounter {
  /** The number of mistakes that ends a game. */
  const Limit: int := 3

  datatype Counter = Counter(count: int, freeze: bool)

  function Increment(m: Counter): (r: Counter)
    ensures r.freeze == m.freeze
    ensures r.count == if m.freeze then m.count else m.count + 1
  {
    if !m.freeze then m.(count := m.count + 1) else m
  }

  function Reset(m: Counter): (r: Counter)
    ensures r.count == 0 && r.freeze == m.freeze
  {
    m.(count := 0)
  }

  /** The counter calls a body can make. */
  datatype Call = IncrementCall | ResetCall

  function Apply(m: Counter, c: Call): (r: Counter)
    ensures r.freeze == m.freeze
  {
    match c
    case IncrementCall => Increment(m)
    case ResetCall => Reset(m)
  }

  /** The calls in order. */
  function Run(m: Counter, calls: seq<Call>): (r: Counter)
    decreases calls
    ensures r.freeze == m.freeze
  {
    if calls == [] then m else Run(Apply(m, calls[0]), calls[1..])
  }

  /** `withFreeze`: freeze, run the calls the body makes before it returns or
      throws, and unfreeze. The second component says whether the body's
      exception propagates. */
  function WithFreeze(m: Counter, calls: seq<Call>, throws: bool): (r: (Counter, bool))
    ensures !r.0.freeze && r.1 == throws
  {
    var after := Run(m.(freeze := true), calls);
    (after.(freeze := false), throws)
  }

  /** While frozen, only a reset changes the count. */
  lemma {:induction false} FrozenRun(m: Counter, calls: seq<Call>)
    requires m.freeze
    decreases calls
    ensures Run(m, calls).count == if ResetCall in calls then 0 else m.count
  {
    if calls != [] {
      FrozenRun(Apply(m, calls[0]), calls[1..]);
      assert calls == [calls[0]] + calls[1..];
    }
  }

  /** Inside `withFreeze` no mistake is counted, and afterwards the counter
      is unfrozen and counts again. */
  lemma WithFreezeCountsNothing(m: Counter, calls: seq<Call>, throws: bool)
    ensures WithFreeze(m, calls, throws).0.count == if ResetCall in calls then 0 else m.count
    ensures Increment(WithFreeze(m, calls, throws).0).count == WithFreeze(m, calls, throws).0.count + 1
  {
    FrozenRun(m.(freeze := true), calls);
  }

  /** The number of increments in `calls`. */
  function Increments(calls: seq<Call>): (n: nat)
    ensures n <= |calls|
  {
    if calls == [] then 0 else (if calls[0] == IncrementCall then 1 else 0) + Increments(calls[1..])
  }

  /** Unfrozen, every increment counts: with no reset the count grows by the
      number of increments. */
  lemma {:induction false} UnfrozenRun(m: Counter, calls: seq<Call>)
    requires !m.freeze && ResetCall !in calls
    decreases calls
    ensures Run(m, calls).count == m.count + Increments(calls)
  {
    if calls != [] {
      assert calls[0] == IncrementCall;
      assert ResetCall !in calls[1..];
      UnfrozenRun(Apply(m, calls[0]), calls[1..]);
    }
  }
}
