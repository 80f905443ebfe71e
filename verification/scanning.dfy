/** The maximal-munch scan shared by both automaton kinds.

    The scan is generic in the configuration type `C`: a set of nodes for
    an NFA, a single node (or "stuck") for a DFA. It starts in `init`,
    records position 0 when `init` is accepting, and for each symbol moves
    to `step(current, symbol)`, recording the new position whenever the
    configuration is accepting. It stops before the next symbol once the
    configuration is `dead`. `Run` and `LastAccepted` are the reference
    definitions the scan is proved against. */
module Scanning {
  import opened Wrappers

  /** The configuration after the first `k` symbols, never stopping early. */
  function Run<C, T>(step: (C, T) -> C, init: C, input: seq<T>, k: nat): C
    requires k <= |input|
  {
    if k == 0 then init else step(Run(step, init, input, k - 1), input[k - 1])
  }

  /** The longest prefix of length at most `k` whose configuration accepts. */
  function LastAccepted<C, T>(step: (C, T) -> C, init: C, accepting: C -> bool, input: seq<T>, k: nat)
    : Option<nat>
    requires k <= |input|
  {
    if accepting(Run(step, init, input, k)) then Some(k)
    else if k == 0 then None
    else LastAccepted(step, init, accepting, input, k - 1)
  }

  /** A dead configuration never accepts and only leads to dead ones. */
  ghost predicate Absorbing<C(!new), T(!new)>(step: (C, T) -> C, accepting: C -> bool, dead: C -> bool)
  {
    && (forall c :: dead(c) ==> !accepting(c))
    && (forall c, a :: dead(c) ==> dead(step(c, a)))
  }

  /** `LastAccepted` is the greatest accepted prefix length up to `k`. */
  lemma {:induction false} LastAcceptedIsLongest<C, T>(
    step: (C, T) -> C, init: C, accepting: C -> bool, input: seq<T>, k: nat)
    requires k <= |input|
    ensures var r := LastAccepted(step, init, accepting, input, k);
            && (r.Some? ==> r.value <= k && accepting(Run(step, init, input, r.value))
                            && forall j | r.value < j <= k :: !accepting(Run(step, init, input, j)))
            && (r.None? <==> forall j | 0 <= j <= k :: !accepting(Run(step, init, input, j)))
  {
    if !accepting(Run(step, init, input, k)) && k > 0 {
      LastAcceptedIsLongest(step, init, accepting, input, k - 1);
    }
  }

  /** Once dead, the configuration stays dead and accepts nothing. */
  lemma {:induction false} DeadStaysDead<C(!new), T(!new)>(
    step: (C, T) -> C, init: C, accepting: C -> bool, dead: C -> bool, input: seq<T>, k: nat, j: nat)
    requires Absorbing(step, accepting, dead)
    requires k <= j <= |input| && dead(Run(step, init, input, k))
    ensures dead(Run(step, init, input, j))
    ensures !accepting(Run(step, init, input, j))
    decreases j
  {
    if j > k {
      DeadStaysDead(step, init, accepting, dead, input, k, j - 1);
    }
  }

  /** When nothing after `k` is accepted, the best match up to any later
      position is the best match up to `k`. */
  lemma {:induction false} LastAcceptedStable<C, T>(
    step: (C, T) -> C, init: C, accepting: C -> bool, input: seq<T>, k: nat, n: nat)
    requires k <= n <= |input|
    requires forall j | k < j <= |input| :: !accepting(Run(step, init, input, j))
    ensures LastAccepted(step, init, accepting, input, n) == LastAccepted(step, init, accepting, input, k)
    decreases n
  {
    if n > k {
      LastAcceptedStable(step, init, accepting, input, k, n - 1);
    }
  }

  /** The scan loop: `current` is the configuration after `consumed`
      symbols and `last` the best match so far. */
  function Scan<C(!new), T(!new)>(
    step: (C, T) -> C, init: C, accepting: C -> bool, dead: C -> bool,
    current: C, input: seq<T>, consumed: nat, last: Option<nat>): (r: Option<nat>)
    requires Absorbing(step, accepting, dead)
    requires consumed <= |input|
    requires current == Run(step, init, input, consumed)
    requires last == LastAccepted(step, init, accepting, input, consumed)
    ensures r == LastAccepted(step, init, accepting, input, |input|)
    decreases |input| - consumed
  {
    if consumed == |input| then last
    else if dead(current) then
      assert forall j | consumed < j <= |input| :: !accepting(Run(step, init, input, j)) by {
        forall j | consumed < j <= |input|
          ensures !accepting(Run(step, init, input, j))
        {
          DeadStaysDead(step, init, accepting, dead, input, consumed, j);
        }
      }
      LastAcceptedStable(step, init, accepting, input, consumed, |input|);
      last
    else
      var next := step(current, input[consumed]);
      Scan(step, init, accepting, dead, next, input, consumed + 1,
           if accepting(next) then Some(consumed + 1) else last)
  }

  /** The longest prefix whose configuration accepts, or `None`. */
  function LongestMatch<C(!new), T(!new)>(
    step: (C, T) -> C, init: C, accepting: C -> bool, dead: C -> bool, input: seq<T>)
    : (r: Option<nat>)
    requires Absorbing(step, accepting, dead)
    ensures r.Some? ==> r.value <= |input| && accepting(Run(step, init, input, r.value))
    ensures r.Some? ==> forall j | r.value < j <= |input| :: !accepting(Run(step, init, input, j))
    ensures r.None? <==> forall j | 0 <= j <= |input| :: !accepting(Run(step, init, input, j))
  {
    LastAcceptedIsLongest(step, init, accepting, input, |input|);
    Scan(step, init, accepting, dead, init, input, 0, if accepting(init) then Some(0) else None)
  }

  /** The configurations of a prefix depend only on that prefix. */
  lemma {:induction false} RunOfPrefix<C, T>(step: (C, T) -> C, init: C, p: seq<T>, s: seq<T>, k: nat)
    requires k <= |p|
    ensures Run(step, init, p + s, k) == Run(step, init, p, k)
    decreases k
  {
    if k > 0 {
      RunOfPrefix(step, init, p, s, k - 1);
      assert (p + s)[k - 1] == p[k - 1];
    }
  }

  /** Stopping at a dead configuration loses nothing: the symbols after a
      prefix that leads to a dead configuration never change the result. */
  lemma EarlyExitIrrelevant<C(!new), T(!new)>(
    step: (C, T) -> C, init: C, accepting: C -> bool, dead: C -> bool, p: seq<T>, s: seq<T>)
    requires Absorbing(step, accepting, dead)
    requires dead(Run(step, init, p, |p|))
    ensures LongestMatch(step, init, accepting, dead, p + s) == LongestMatch(step, init, accepting, dead, p)
  {
    var w := p + s;
    RunOfPrefix(step, init, p, s, |p|);
    forall j | |p| < j <= |w|
      ensures !accepting(Run(step, init, w, j))
    {
      DeadStaysDead(step, init, accepting, dead, w, |p|, j);
    }
    forall j | 0 <= j <= |p|
      ensures Run(step, init, w, j) == Run(step, init, p, j)
    {
      RunOfPrefix(step, init, p, s, j);
    }
    var r := LongestMatch(step, init, accepting, dead, p);
    var r' := LongestMatch(step, init, accepting, dead, w);
    if r.Some? {
      assert r'.Some?;
      assert r'.value == r.value;
    } else {
      assert r'.None?;
    }
  }

  /** Simulation by a smaller machine: when `abs` maps `start` to `init`
      and commutes with the steps, every configuration of the run is the
      image of the smaller machine's state after the same prefix. */
  lemma {:induction false} RunSimulation<C, S(!new), T(!new)>(
    step: (C, T) -> C, init: C, small: (S, T) -> S, start: S, abs: S -> C, input: seq<T>, k: nat)
    requires abs(start) == init
    requires forall s, a :: step(abs(s), a) == abs(small(s, a))
    requires k <= |input|
    ensures Run(step, init, input, k) == abs(Run(small, start, input, k))
    decreases k
  {
    if k > 0 {
      RunSimulation(step, init, small, start, abs, input, k - 1);
    }
  }
}
