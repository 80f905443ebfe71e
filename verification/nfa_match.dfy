/** Longest-prefix ("maximal munch") matching on an NFA.

    A configuration is the set of nodes the automaton may be in. The scan
    starts from the epsilon-closure of the start node, follows each symbol
    from every node of the configuration and closes the result again, and
    remembers the last position at which the configuration held the end
    node. `Configs` and `LastAccepted` are the reference definitions the
    scan is proved against. */
module NfaMatch {
  import opened Wrappers
  import opened NfaNodes
  import opened EpsilonClosure
  import opened Nfas
  import opened Scanning

  /** The nodes reached from `current` by one edge labelled `symbol`. */
  function Move<T(==,!new)>(g: Nfa<T>, current: set<nat>, symbol: T): set<nat>
  {
    set c, x | c in current && x in Successors(g.nodes, c, Some(symbol)) :: x
  }

  /** One scan step: follow `symbol`, then take the epsilon-closure of
      every node reached. */
  function Step<T(==,!new)>(g: Nfa<T>, current: set<nat>, symbol: T): (r: set<nat>)
    ensures current == {} ==> r == {}
  {
    UnionClosures(g.nodes, Move(g, current, symbol))
  }

  /** The scan builds a step node by node: a step from a union is the
      union of the steps from its parts, a step from one node merges the
      closures of that node's `symbol` destinations, and a step from the
      empty configuration reaches nothing. Together these determine `Step`
      on every configuration. */
  lemma StepPerNode<T(!new)>(g: Nfa<T>, a: set<nat>, b: set<nat>, x: nat, symbol: T)
    ensures Move(g, a + b, symbol) == Move(g, a, symbol) + Move(g, b, symbol)
    ensures Move(g, {x}, symbol) == Successors(g.nodes, x, Some(symbol))
    ensures Step(g, a + b, symbol) == Step(g, a, symbol) + Step(g, b, symbol)
    ensures Step(g, {x}, symbol) == UnionClosures(g.nodes, Successors(g.nodes, x, Some(symbol)))
    ensures Step(g, {}, symbol) == {}
  {
    MoveOfUnion(g, a, b, symbol);
    MoveOfSingleton(g, x, symbol);
    StepOfUnion(g, a, b, symbol);
  }

  /** A step from a union is the union of the steps from its parts. */
  lemma StepOfUnion<T(!new)>(g: Nfa<T>, a: set<nat>, b: set<nat>, symbol: T)
    ensures Step(g, a + b, symbol) == Step(g, a, symbol) + Step(g, b, symbol)
  {
    var ma, mb := Move(g, a, symbol), Move(g, b, symbol);
    MoveOfUnion(g, a, b, symbol);
    UnionClosuresOfUnion(g.nodes, ma, mb);
  }

  /** Following a symbol distributes over union. */
  lemma MoveOfUnion<T(!new)>(g: Nfa<T>, a: set<nat>, b: set<nat>, symbol: T)
    ensures Move(g, a + b, symbol) == Move(g, a, symbol) + Move(g, b, symbol)
  {
    var m, ma, mb := Move(g, a + b, symbol), Move(g, a, symbol), Move(g, b, symbol);
    forall y | y in m
      ensures y in ma + mb
    {
      var c :| c in a + b && y in Successors(g.nodes, c, Some(symbol));
      if c in a {
        assert y in ma;
      } else {
        assert y in mb;
      }
    }
    forall y | y in ma + mb
      ensures y in m
    {
      if y in ma {
        var c :| c in a && y in Successors(g.nodes, c, Some(symbol));
        assert c in a + b;
      } else {
        var c :| c in b && y in Successors(g.nodes, c, Some(symbol));
        assert c in a + b;
      }
    }
  }

  /** From one node, a symbol leads exactly to that node's destinations. */
  lemma MoveOfSingleton<T(!new)>(g: Nfa<T>, x: nat, symbol: T)
    ensures Move(g, {x}, symbol) == Successors(g.nodes, x, Some(symbol))
  {
    forall y | y in Move(g, {x}, symbol)
      ensures y in Successors(g.nodes, x, Some(symbol))
    {
      var c :| c in {x} && y in Successors(g.nodes, c, Some(symbol));
    }
  }

  /** `Step` as a transition function for the shared scan. */
  function NfaStep<T(==,!new)>(g: Nfa<T>): (set<nat>, T) -> set<nat>
  {
    (current, symbol) => Step(g, current, symbol)
  }

  /** A configuration accepts when it holds the end node. */
  function Accepting<T(==,!new)>(g: Nfa<T>): set<nat> -> bool
  {
    current => g.end in current
  }

  /** The scan gives up once the configuration is empty. */
  function IsEmpty(): set<nat> -> bool
  {
    current => current == {}
  }

  /** The configuration after reading the first `k` symbols of `input`. */
  function Configs<T(==,!new)>(g: Nfa<T>, input: seq<T>, k: nat): set<nat>
    requires k <= |input|
  {
    Run(NfaStep(g), Closure(g.nodes, g.start), input, k)
  }

  /** The automaton accepts the prefix of length `k`: reading it can end
      in the end node. */
  ghost predicate AcceptsPrefix<T(!new)>(g: Nfa<T>, input: seq<T>, k: nat)
    requires k <= |input|
  {
    g.end in Configs(g, input, k)
  }

  /** Advances a known configuration by a known step. */
  lemma ConfigsAdvance<T(!new)>(g: Nfa<T>, input: seq<T>, k: nat, current: set<nat>, next: set<nat>)
    requires k < |input| && Configs(g, input, k) == current
    requires Step(g, current, input[k]) == next
    ensures Configs(g, input, k + 1) == next
  {
  }

  /** A small machine simulating the scan: when `abs` maps its start state
      to the initial configuration and commutes with `Step`, the
      configuration after any prefix is the image of the machine's state. */
  lemma ConfigsSimulated<S(!new), T(!new)>(
    g: Nfa<T>, small: (S, T) -> S, start: S, abs: S -> set<nat>, input: seq<T>, k: nat)
    requires abs(start) == Closure(g.nodes, g.start)
    requires forall s, a :: Step(g, abs(s), a) == abs(small(s, a))
    requires k <= |input|
    ensures Configs(g, input, k) == abs(Run(small, start, input, k))
  {
    RunSimulation(NfaStep(g), Closure(g.nodes, g.start), small, start, abs, input, k);
  }

  /** The empty configuration is absorbing and never accepts. */
  lemma EmptyAbsorbing<T(!new)>(g: Nfa<T>)
    ensures Absorbing(NfaStep(g), Accepting(g), IsEmpty())
  {
  }

  /** Once the configuration is empty it stays empty. */
  lemma ConfigsStayEmpty<T(!new)>(g: Nfa<T>, input: seq<T>, k: nat)
    requires k <= |input| && Configs(g, input, k) == {}
    ensures forall j | k <= j <= |input| :: Configs(g, input, j) == {}
  {
    EmptyAbsorbing(g);
    forall j | k <= j <= |input|
      ensures Configs(g, input, j) == {}
    {
      DeadStaysDead(NfaStep(g), Closure(g.nodes, g.start), Accepting(g), IsEmpty(), input, k, j);
    }
  }

  /** Longest-prefix match: the longest prefix of `input` the automaton
      accepts, as a length, or `None` when it accepts no prefix at all.
      The scan stops as soon as the configuration is empty. */
  function LongestMatch<T(==,!new)>(g: Nfa<T>, input: seq<T>): (r: Option<nat>)
    ensures r.Some? ==> r.value <= |input| && AcceptsPrefix(g, input, r.value)
    ensures r.Some? ==> forall j | r.value < j <= |input| :: !AcceptsPrefix(g, input, j)
    ensures r.None? <==> forall j | 0 <= j <= |input| :: !AcceptsPrefix(g, input, j)
  {
    EmptyAbsorbing(g);
    assert forall j | 0 <= j <= |input| ::
      AcceptsPrefix(g, input, j) == Accepting(g)(Run(NfaStep(g), Closure(g.nodes, g.start), input, j));
    Scanning.LongestMatch(NfaStep(g), Closure(g.nodes, g.start), Accepting(g), IsEmpty(), input)
  }

  /** The contract pins the result down: an accepted prefix length with
      nothing longer accepted is the answer. */
  lemma LongestMatchIs<T(!new)>(g: Nfa<T>, input: seq<T>, k: nat)
    requires k <= |input| && AcceptsPrefix(g, input, k)
    requires forall j | k < j <= |input| :: !AcceptsPrefix(g, input, j)
    ensures LongestMatch(g, input) == Some(k)
  {
  }

  /** With no accepted prefix the answer is "no match". */
  lemma LongestMatchNone<T(!new)>(g: Nfa<T>, input: seq<T>)
    requires forall j | 0 <= j <= |input| :: !AcceptsPrefix(g, input, j)
    ensures LongestMatch(g, input) == None
  {
  }

  /** On the empty input the answer is 0 exactly when the closure of the
      start node already holds the end node. */
  lemma LongestMatchEmptyInput<T(!new)>(g: Nfa<T>)
    ensures LongestMatch(g, []) == if g.end in Closure(g.nodes, g.start) then Some(0) else None
  {
    var empty: seq<T> := [];
    assert Configs(g, empty, 0) == Closure(g.nodes, g.start);
  }

  /** Stopping early on an empty configuration loses nothing: whatever
      follows a prefix whose configuration is empty never changes the
      result. */
  lemma EarlyExitIrrelevant<T(!new)>(g: Nfa<T>, p: seq<T>, s: seq<T>)
    requires Configs(g, p, |p|) == {}
    ensures LongestMatch(g, p + s) == LongestMatch(g, p)
  {
    EmptyAbsorbing(g);
    Scanning.EarlyExitIrrelevant(NfaStep(g), Closure(g.nodes, g.start), Accepting(g), IsEmpty(), p, s);
  }
}
