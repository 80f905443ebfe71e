/** What the engine's small automata match, for every input.

    Each graph built by the combinators from an id counter `n` gets a
    predicate fixing its edges, the step from each configuration its scan
    can reach, a machine of a few numbered states that simulates the scan,
    and its longest match on every input. The last lemmas instantiate these
    with the inputs of the engine's own examples. */
module NfaExamples {
  import opened Wrappers
  import opened NfaNodes
  import opened EpsilonClosure
  import opened Nfas
  import opened NfaMatch

  /** A step whose symbol leads nowhere yields the empty configuration. */
  lemma StepNowhere<T(!new)>(g: Nfa<T>, current: set<nat>, c: T)
    requires Move(g, current, c) == {}
    ensures Step(g, current, c) == {}
  {
    UnionClosuresExact(g.nodes, {}, {});
  }

  // ---------------------------------------------------------------------
  // epsilon()

  /** The one-node automaton matches the empty prefix of every input and
      nothing longer. */
  lemma EpsilonMatchesEmptyPrefix<T(!new)>(n: nat, w: seq<T>)
    ensures LongestMatch(Epsilon<T>(n).nfa, w) == Some(0)
  {
    var g := Epsilon<T>(n).nfa;
    ClosureOfSink(g.nodes, n);
    if |w| > 0 {
      assert Move(g, {n}, w[0]) == {};
      StepNowhere(g, {n}, w[0]);
      ConfigsAdvance(g, w, 0, {n}, {});
      ConfigsStayEmpty(g, w, 1);
    }
    LongestMatchIs(g, w, 0);
  }

  // ---------------------------------------------------------------------
  // matchAny(S) and match(a)

  /** The shape of `matchAny(S)`: one edge `n --s--> n+1` per `s` in `S`. */
  ghost predicate MatchAnyShape<T(!new)>(g: Nfa<T>, acceptAny: set<T>, n: nat)
  {
    && g.start == n && g.end == n + 1
    && forall id, input :: Successors(g.nodes, id, input)
         == if id == n && input.Some? && input.value in acceptAny then {n + 1} else {}
  }

  lemma MatchAnyHasShape<T(!new)>(acceptAny: set<T>, n: nat)
    ensures MatchAnyShape(MatchAny(acceptAny, n).nfa, acceptAny, n)
  {
  }

  /** From the start node a member of `S` leads to the end node. */
  lemma MatchAnyStepFromStart<T(!new)>(g: Nfa<T>, acceptAny: set<T>, n: nat, c: T)
    requires MatchAnyShape(g, acceptAny, n)
    ensures Step(g, {n}, c) == if c in acceptAny then {n + 1} else {}
  {
    if c in acceptAny {
      assert n + 1 in Successors(g.nodes, n, Some(c));
      assert Move(g, {n}, c) == {n + 1};
      UnionClosuresExact(g.nodes, {n + 1}, {n + 1});
    } else {
      assert Move(g, {n}, c) == {};
      StepNowhere(g, {n}, c);
    }
  }

  /** The end node has no edges. */
  lemma MatchAnyStepFromEnd<T(!new)>(g: Nfa<T>, acceptAny: set<T>, n: nat, c: T)
    requires MatchAnyShape(g, acceptAny, n)
    ensures Step(g, {n + 1}, c) == {}
  {
    assert Move(g, {n + 1}, c) == {};
    StepNowhere(g, {n + 1}, c);
  }

  /** The configurations the scan of `matchAny(S)` can reach, numbered:
      0 at the start, 1 at the end, 2 stuck. */
  function MatchAnyConfig(n: nat): nat -> set<nat>
  {
    s => if s == 0 then {n} else if s == 1 then {n + 1} else {}
  }

  /** Only configuration 1 holds the end node. */
  lemma MatchAnyEndOnlyIn(n: nat, s: nat)
    ensures n + 1 in MatchAnyConfig(n)(s) <==> s == 1
  {
  }

  /** How the numbered configurations of `matchAny(S)` follow each other. */
  function MatchAnyMachine<T(==,!new)>(acceptAny: set<T>): (nat, T) -> nat
  {
    (s, c) => if s == 0 && c in acceptAny then 1 else 2
  }

  /** One step of the scan of a `matchAny(S)`-shaped automaton from a
      numbered configuration lands on the configuration `MatchAnyMachine`
      names. */
  lemma MatchAnyStep<T(!new)>(g: Nfa<T>, acceptAny: set<T>, n: nat, s: nat, c: T)
    requires MatchAnyShape(g, acceptAny, n)
    ensures Step(g, MatchAnyConfig(n)(s), c) == MatchAnyConfig(n)(MatchAnyMachine(acceptAny)(s, c))
  {
    var next := MatchAnyMachine(acceptAny)(s, c);
    if s == 0 {
      assert MatchAnyConfig(n)(s) == {n};
      MatchAnyStepFromStart(g, acceptAny, n, c);
      assert MatchAnyConfig(n)(next) == if c in acceptAny then {n + 1} else {};
    } else if s == 1 {
      assert MatchAnyConfig(n)(s) == {n + 1};
      MatchAnyStepFromEnd(g, acceptAny, n, c);
      assert MatchAnyConfig(n)(next) == {};
    } else {
      assert MatchAnyConfig(n)(s) == {};
      assert MatchAnyConfig(n)(next) == {};
    }
  }

  /** The three-state machine simulates the scan of a `matchAny(S)`-shaped
      automaton. */
  lemma MatchAnySimulated<T(!new)>(g: Nfa<T>, acceptAny: set<T>, n: nat)
    requires MatchAnyShape(g, acceptAny, n)
    ensures MatchAnyConfig(n)(0) == Closure(g.nodes, g.start)
    ensures forall s, c ::
      Step(g, MatchAnyConfig(n)(s), c) == MatchAnyConfig(n)(MatchAnyMachine(acceptAny)(s, c))
  {
    ClosureOfSink(g.nodes, n);
    forall s, c
      ensures Step(g, MatchAnyConfig(n)(s), c) == MatchAnyConfig(n)(MatchAnyMachine(acceptAny)(s, c))
    {
      MatchAnyStep(g, acceptAny, n, s, c);
    }
  }

  /** The state of `MatchAnyMachine` after `k` symbols of `w`. */
  function MatchAnyState<T(==,!new)>(acceptAny: set<T>, w: seq<T>, k: nat): nat
    requires k <= |w|
  {
    if k == 0 then 0
    else if k == 1 && w[0] in acceptAny then 1
    else 2
  }

  /** `MatchAnyMachine` walks through `MatchAnyState`. */
  lemma {:induction false} MatchAnyRun<T(!new)>(acceptAny: set<T>, w: seq<T>, k: nat)
    requires k <= |w|
    ensures Scanning.Run(MatchAnyMachine(acceptAny), 0, w, k) == MatchAnyState(acceptAny, w, k)
  {
    if k > 0 {
      MatchAnyRun(acceptAny, w, k - 1);
    }
  }

  /** A `matchAny(S)`-shaped automaton accepts exactly the one-symbol
      prefixes drawn from `S`. */
  lemma MatchAnyAccepts<T(!new)>(g: Nfa<T>, acceptAny: set<T>, n: nat, w: seq<T>, j: nat)
    requires MatchAnyShape(g, acceptAny, n) && j <= |w|
    ensures AcceptsPrefix(g, w, j) <==> j == 1 && w[0] in acceptAny
  {
    MatchAnySimulated(g, acceptAny, n);
    ConfigsSimulated(g, MatchAnyMachine(acceptAny), 0, MatchAnyConfig(n), w, j);
    MatchAnyRun(acceptAny, w, j);
    MatchAnyEndOnlyIn(n, MatchAnyState(acceptAny, w, j));
  }

  /** `matchAny(S)` matches exactly one symbol, and only one from `S`. */
  lemma MatchAnyMatchesOneSymbol<T(!new)>(acceptAny: set<T>, n: nat, w: seq<T>)
    ensures LongestMatch(MatchAny(acceptAny, n).nfa, w)
              == if |w| > 0 && w[0] in acceptAny then Some(1) else None
  {
    var g := MatchAny(acceptAny, n).nfa;
    MatchAnyHasShape(acceptAny, n);
    forall j | 0 <= j <= |w|
      ensures AcceptsPrefix(g, w, j) <==> j == 1 && w[0] in acceptAny
    {
      MatchAnyAccepts(g, acceptAny, n, w, j);
    }
    if |w| > 0 && w[0] in acceptAny {
      LongestMatchIs(g, w, 1);
    } else {
      LongestMatchNone(g, w);
    }
  }

  /** `match(a)` matches exactly the one-symbol prefix `a`. */
  lemma MatchMatchesSymbol<T(!new)>(accept: T, n: nat, w: seq<T>)
    ensures LongestMatch(Match(accept, n).nfa, w)
              == if |w| > 0 && w[0] == accept then Some(1) else None
  {
    MatchIsMatchAnySingleton(accept, n);
    MatchAnyMatchesOneSymbol({accept}, n, w);
  }

  // ---------------------------------------------------------------------
  // concat(match(a), match(b))

  /** `concat(match(a), match(b))` built from counter `n`: the left
      operand is built first and the right one from the counter it returns. */
  function Sequence<T(==,!new)>(a: T, b: T, n: nat): Nfa<T>
  {
    var left := Match(a, n);
    Concat(left.nfa, Match(b, left.nextId).nfa)
  }

  /** The shape of `Sequence`: `n --a--> n+1 --eps--> n+2 --b--> n+3`,
      nothing else, from `n` to `n+3`. */
  ghost predicate SequenceShape<T(!new)>(g: Nfa<T>, a: T, b: T, n: nat)
  {
    && g.start == n && g.end == n + 3
    && forall id, input :: Successors(g.nodes, id, input)
         == if id == n && input == Some(a) then {n + 1}
            else if id == n + 1 && input == None then {n + 2}
            else if id == n + 2 && input == Some(b) then {n + 3}
            else {}
  }

  lemma SequenceHasShape<T(!new)>(a: T, b: T, n: nat)
    ensures SequenceShape(Sequence(a, b, n), a, b, n)
  {
  }

  /** From the start node only `a` leads on, into `{n+1, n+2}`. */
  lemma SequenceStepFromStart<T(!new)>(g: Nfa<T>, a: T, b: T, n: nat, c: T)
    requires SequenceShape(g, a, b, n)
    ensures Step(g, {n}, c) == if c == a then {n + 1, n + 2} else {}
  {
    if c == a {
      assert n + 1 in Successors(g.nodes, n, Some(c));
      assert n + 2 in Successors(g.nodes, n + 1, None);
      assert Move(g, {n}, c) == {n + 1};
      UnionClosuresExact(g.nodes, {n + 1}, {n + 1, n + 2});
    } else {
      assert Move(g, {n}, c) == {};
      StepNowhere(g, {n}, c);
    }
  }

  /** From `{n+1, n+2}` only `b` leads on, into the end node. */
  lemma SequenceStepFromMiddle<T(!new)>(g: Nfa<T>, a: T, b: T, n: nat, c: T)
    requires SequenceShape(g, a, b, n)
    ensures Step(g, {n + 1, n + 2}, c) == if c == b then {n + 3} else {}
  {
    if c == b {
      assert n + 3 in Successors(g.nodes, n + 2, Some(c));
      assert Move(g, {n + 1, n + 2}, c) == {n + 3};
      UnionClosuresExact(g.nodes, {n + 3}, {n + 3});
    } else {
      assert Move(g, {n + 1, n + 2}, c) == {};
      StepNowhere(g, {n + 1, n + 2}, c);
    }
  }

  /** The end node has no edges. */
  lemma SequenceStepFromEnd<T(!new)>(g: Nfa<T>, a: T, b: T, n: nat, c: T)
    requires SequenceShape(g, a, b, n)
    ensures Step(g, {n + 3}, c) == {}
  {
    assert Move(g, {n + 3}, c) == {};
    StepNowhere(g, {n + 3}, c);
  }

  /** The configurations the scan of `Sequence` can reach, numbered:
      0 before `a`, 1 between `a` and `b`, 2 after `b`, 3 stuck. */
  function SequenceConfig(n: nat): nat -> set<nat>
  {
    s => if s == 0 then {n} else if s == 1 then {n + 1, n + 2} else if s == 2 then {n + 3} else {}
  }

  /** Only configuration 2 holds the end node. */
  lemma SequenceEndOnlyIn(n: nat, s: nat)
    ensures n + 3 in SequenceConfig(n)(s) <==> s == 2
  {
  }

  /** How the numbered configurations of `Sequence` follow each other. */
  function SequenceMachine<T(==,!new)>(a: T, b: T): (nat, T) -> nat
  {
    (s, c) => if s == 0 && c == a then 1 else if s == 1 && c == b then 2 else 3
  }

  /** One step of the scan of a `Sequence`-shaped automaton from a
      numbered configuration lands on the configuration `SequenceMachine`
      names. */
  lemma SequenceStep<T(!new)>(g: Nfa<T>, a: T, b: T, n: nat, s: nat, c: T)
    requires SequenceShape(g, a, b, n)
    ensures Step(g, SequenceConfig(n)(s), c) == SequenceConfig(n)(SequenceMachine(a, b)(s, c))
  {
    var next := SequenceMachine(a, b)(s, c);
    if s == 0 {
      assert SequenceConfig(n)(s) == {n};
      SequenceStepFromStart(g, a, b, n, c);
      assert SequenceConfig(n)(next) == if c == a then {n + 1, n + 2} else {};
    } else if s == 1 {
      assert SequenceConfig(n)(s) == {n + 1, n + 2};
      SequenceStepFromMiddle(g, a, b, n, c);
      assert SequenceConfig(n)(next) == if c == b then {n + 3} else {};
    } else if s == 2 {
      assert SequenceConfig(n)(s) == {n + 3};
      SequenceStepFromEnd(g, a, b, n, c);
      assert SequenceConfig(n)(next) == {};
    } else {
      assert SequenceConfig(n)(s) == {};
      assert SequenceConfig(n)(next) == {};
    }
  }

  /** The four-state machine simulates the scan of a `Sequence`-shaped
      automaton. */
  lemma SequenceSimulated<T(!new)>(g: Nfa<T>, a: T, b: T, n: nat)
    requires SequenceShape(g, a, b, n)
    ensures SequenceConfig(n)(0) == Closure(g.nodes, g.start)
    ensures forall s, c :: Step(g, SequenceConfig(n)(s), c) == SequenceConfig(n)(SequenceMachine(a, b)(s, c))
  {
    ClosureOfSink(g.nodes, n);
    forall s, c
      ensures Step(g, SequenceConfig(n)(s), c) == SequenceConfig(n)(SequenceMachine(a, b)(s, c))
    {
      SequenceStep(g, a, b, n, s, c);
    }
  }

  /** The state of `SequenceMachine` after `k` symbols of `w`. */
  function SequenceState<T(==,!new)>(a: T, b: T, w: seq<T>, k: nat): nat
    requires k <= |w|
  {
    if k == 0 then 0
    else if k == 1 && w[0] == a then 1
    else if k == 2 && w[0] == a && w[1] == b then 2
    else 3
  }

  /** `SequenceMachine` walks through `SequenceState`. */
  lemma {:induction false} SequenceRun<T(!new)>(a: T, b: T, w: seq<T>, k: nat)
    requires k <= |w|
    ensures Scanning.Run(SequenceMachine(a, b), 0, w, k) == SequenceState(a, b, w, k)
  {
    if k > 0 {
      SequenceRun(a, b, w, k - 1);
    }
  }

  /** A `Sequence`-shaped automaton accepts exactly the prefix `a b`. */
  lemma SequenceAccepts<T(!new)>(g: Nfa<T>, a: T, b: T, n: nat, w: seq<T>, j: nat)
    requires SequenceShape(g, a, b, n) && j <= |w|
    ensures AcceptsPrefix(g, w, j) <==> j == 2 && w[0] == a && w[1] == b
  {
    SequenceSimulated(g, a, b, n);
    ConfigsSimulated(g, SequenceMachine(a, b), 0, SequenceConfig(n), w, j);
    SequenceRun(a, b, w, j);
    SequenceEndOnlyIn(n, SequenceState(a, b, w, j));
  }

  /** `concat(match(a), match(b))` matches exactly the two-symbol prefix
      `a b`, and nothing on any other input. */
  lemma SequenceMatchesPair<T(!new)>(a: T, b: T, n: nat, w: seq<T>)
    ensures LongestMatch(Sequence(a, b, n), w)
              == if |w| >= 2 && w[0] == a && w[1] == b then Some(2) else None
  {
    var g := Sequence(a, b, n);
    SequenceHasShape(a, b, n);
    forall j | 0 <= j <= |w|
      ensures AcceptsPrefix(g, w, j) <==> j == 2 && w[0] == a && w[1] == b
    {
      SequenceAccepts(g, a, b, n, w, j);
    }
    if |w| >= 2 && w[0] == a && w[1] == b {
      LongestMatchIs(g, w, 2);
    } else {
      LongestMatchNone(g, w);
    }
  }

  // ---------------------------------------------------------------------
  // either(match(a), match(b))

  /** `either(match(a), match(b))` built from counter `n`: the left
      operand is built first and the right one from the counter it returns. */
  function Alternative<T(==,!new)>(a: T, b: T, n: nat): Nfa<T>
  {
    var left := Match(a, n);
    Either(left.nfa, Match(b, left.nextId).nfa)
  }

  /** The shape of `Alternative`: `n --a--> n+1`, `n --eps--> n+2`,
      `n+2 --b--> n+3`, `n+3 --eps--> n+1`, from `n` to `n+1`. */
  ghost predicate AlternativeShape<T(!new)>(g: Nfa<T>, a: T, b: T, n: nat)
  {
    && g.start == n && g.end == n + 1
    && forall id, input :: Successors(g.nodes, id, input)
         == if id == n && input == Some(a) then {n + 1}
            else if id == n && input == None then {n + 2}
            else if id == n + 2 && input == Some(b) then {n + 3}
            else if id == n + 3 && input == None then {n + 1}
            else {}
  }

  lemma AlternativeHasShape<T(!new)>(a: T, b: T, n: nat)
    ensures AlternativeShape(Alternative(a, b, n), a, b, n)
  {
  }

  /** From `{n, n+2}`, `a` reaches `n+1` and `b` reaches `n+3` and,
      through its epsilon edge, `n+1`. */
  lemma AlternativeStepFromStart<T(!new)>(g: Nfa<T>, a: T, b: T, n: nat, c: T)
    requires AlternativeShape(g, a, b, n)
    ensures Step(g, {n, n + 2}, c) == if c == b then {n + 1, n + 3} else if c == a then {n + 1} else {}
  {
    if c == b {
      assert n + 3 in Successors(g.nodes, n + 2, Some(c));
      assert n + 1 in Successors(g.nodes, n + 3, None);
      if c == a {
        assert n + 1 in Successors(g.nodes, n, Some(c));
        assert Move(g, {n, n + 2}, c) == {n + 1, n + 3};
      } else {
        assert Move(g, {n, n + 2}, c) == {n + 3};
      }
      UnionClosuresExact(g.nodes, Move(g, {n, n + 2}, c), {n + 1, n + 3});
    } else if c == a {
      assert n + 1 in Successors(g.nodes, n, Some(c));
      assert Move(g, {n, n + 2}, c) == {n + 1};
      UnionClosuresExact(g.nodes, {n + 1}, {n + 1});
    } else {
      assert Move(g, {n, n + 2}, c) == {};
      StepNowhere(g, {n, n + 2}, c);
    }
  }

  /** The end node has no edges of its own. */
  lemma AlternativeStepFromEnd<T(!new)>(g: Nfa<T>, a: T, b: T, n: nat, c: T)
    requires AlternativeShape(g, a, b, n)
    ensures Step(g, {n + 1}, c) == {}
    ensures Step(g, {n + 1, n + 3}, c) == {}
  {
    assert Move(g, {n + 1}, c) == {};
    StepNowhere(g, {n + 1}, c);
    assert Move(g, {n + 1, n + 3}, c) == {};
    StepNowhere(g, {n + 1, n + 3}, c);
  }

  /** The configurations the scan of `Alternative` can reach, numbered:
      0 at the start, 1 after `b`, 2 after `a` alone, 3 stuck. */
  function AlternativeConfig(n: nat): nat -> set<nat>
  {
    s => if s == 0 then {n, n + 2} else if s == 1 then {n + 1, n + 3} else if s == 2 then {n + 1} else {}
  }

  /** Only configurations 1 and 2 hold the end node. */
  lemma AlternativeEndOnlyIn(n: nat, s: nat)
    ensures n + 1 in AlternativeConfig(n)(s) <==> s == 1 || s == 2
  {
  }

  /** How the numbered configurations of `Alternative` follow each other. */
  function AlternativeMachine<T(==,!new)>(a: T, b: T): (nat, T) -> nat
  {
    (s, c) => if s == 0 && c == b then 1 else if s == 0 && c == a then 2 else 3
  }

  /** One step of the scan of an `Alternative`-shaped automaton from a
      numbered configuration lands on the configuration
      `AlternativeMachine` names. */
  lemma AlternativeStep<T(!new)>(g: Nfa<T>, a: T, b: T, n: nat, s: nat, c: T)
    requires AlternativeShape(g, a, b, n)
    ensures Step(g, AlternativeConfig(n)(s), c) == AlternativeConfig(n)(AlternativeMachine(a, b)(s, c))
  {
    var next := AlternativeMachine(a, b)(s, c);
    if s == 0 {
      assert AlternativeConfig(n)(s) == {n, n + 2};
      AlternativeStepFromStart(g, a, b, n, c);
      assert AlternativeConfig(n)(next) == if c == b then {n + 1, n + 3} else if c == a then {n + 1} else {};
    } else if s == 1 {
      assert AlternativeConfig(n)(s) == {n + 1, n + 3};
      AlternativeStepFromEnd(g, a, b, n, c);
      assert AlternativeConfig(n)(next) == {};
    } else if s == 2 {
      assert AlternativeConfig(n)(s) == {n + 1};
      AlternativeStepFromEnd(g, a, b, n, c);
      assert AlternativeConfig(n)(next) == {};
    } else {
      assert AlternativeConfig(n)(s) == {};
      assert AlternativeConfig(n)(next) == {};
    }
  }

  /** The four-state machine simulates the scan of an
      `Alternative`-shaped automaton. */
  lemma AlternativeSimulated<T(!new)>(g: Nfa<T>, a: T, b: T, n: nat)
    requires AlternativeShape(g, a, b, n)
    ensures AlternativeConfig(n)(0) == Closure(g.nodes, g.start)
    ensures forall s, c :: Step(g, AlternativeConfig(n)(s), c) == AlternativeConfig(n)(AlternativeMachine(a, b)(s, c))
  {
    assert n + 2 in Successors(g.nodes, n, None);
    ClosureOfPair(g.nodes, n, n + 2);
    forall s, c
      ensures Step(g, AlternativeConfig(n)(s), c) == AlternativeConfig(n)(AlternativeMachine(a, b)(s, c))
    {
      AlternativeStep(g, a, b, n, s, c);
    }
  }

  /** The state of `AlternativeMachine` after `k` symbols of `w`. */
  function AlternativeState<T(==,!new)>(a: T, b: T, w: seq<T>, k: nat): nat
    requires k <= |w|
  {
    if k == 0 then 0
    else if k == 1 && w[0] == b then 1
    else if k == 1 && w[0] == a then 2
    else 3
  }

  /** `AlternativeMachine` walks through `AlternativeState`. */
  lemma {:induction false} AlternativeRun<T(!new)>(a: T, b: T, w: seq<T>, k: nat)
    requires k <= |w|
    ensures Scanning.Run(AlternativeMachine(a, b), 0, w, k) == AlternativeState(a, b, w, k)
  {
    if k > 0 {
      AlternativeRun(a, b, w, k - 1);
    }
  }

  /** An `Alternative`-shaped automaton accepts exactly the one-symbol
      prefixes `a` and `b`. */
  lemma AlternativeAccepts<T(!new)>(g: Nfa<T>, a: T, b: T, n: nat, w: seq<T>, j: nat)
    requires AlternativeShape(g, a, b, n) && j <= |w|
    ensures AcceptsPrefix(g, w, j) <==> j == 1 && (w[0] == a || w[0] == b)
  {
    AlternativeSimulated(g, a, b, n);
    ConfigsSimulated(g, AlternativeMachine(a, b), 0, AlternativeConfig(n), w, j);
    AlternativeRun(a, b, w, j);
    AlternativeEndOnlyIn(n, AlternativeState(a, b, w, j));
  }

  /** `either(match(a), match(b))` matches exactly one symbol that is `a`
      or `b`. */
  lemma AlternativeMatchesEither<T(!new)>(a: T, b: T, n: nat, w: seq<T>)
    ensures LongestMatch(Alternative(a, b, n), w)
              == if |w| > 0 && (w[0] == a || w[0] == b) then Some(1) else None
  {
    var g := Alternative(a, b, n);
    AlternativeHasShape(a, b, n);
    forall j | 0 <= j <= |w|
      ensures AcceptsPrefix(g, w, j) <==> j == 1 && (w[0] == a || w[0] == b)
    {
      AlternativeAccepts(g, a, b, n, w, j);
    }
    if |w| > 0 && (w[0] == a || w[0] == b) {
      LongestMatchIs(g, w, 1);
    } else {
      LongestMatchNone(g, w);
    }
  }

  /** `either(match(a), match(b))` and `matchAny({a, b})` agree on every
      input. */
  lemma AlternativeAgreesWithMatchAny<T(!new)>(a: T, b: T, n: nat, w: seq<T>)
    ensures LongestMatch(Alternative(a, b, n), w) == LongestMatch(MatchAny({a, b}, n).nfa, w)
  {
    AlternativeMatchesEither(a, b, n, w);
    MatchAnyMatchesOneSymbol({a, b}, n, w);
  }

  // ---------------------------------------------------------------------
  // zeroOrMore(concat(match(a), match(b)))

  /** `zeroOrMore(concat(match(a), match(b)))` built from counter `n`. */
  function Star<T(==,!new)>(a: T, b: T, n: nat): Nfa<T>
  {
    SequenceHasShape(a, b, n);
    ZeroOrMore(Sequence(a, b, n))
  }

  /** The shape of `Star`: the edges of `Sequence` plus `n --eps--> n+3`
      (skip) and `n+3 --eps--> n` (repeat), from `n` to `n+3`. */
  ghost predicate StarShape<T(!new)>(g: Nfa<T>, a: T, b: T, n: nat)
  {
    && g.start == n && g.end == n + 3
    && forall id, input :: Successors(g.nodes, id, input)
         == if id == n && input == Some(a) then {n + 1}
            else if id == n && input == None then {n + 3}
            else if id == n + 1 && input == None then {n + 2}
            else if id == n + 2 && input == Some(b) then {n + 3}
            else if id == n + 3 && input == None then {n}
            else {}
  }

  lemma StarHasShape<T(!new)>(a: T, b: T, n: nat)
    ensures StarShape(Star(a, b, n), a, b, n)
  {
    SequenceHasShape(a, b, n);
  }

  /** From the start configuration `{n, n+3}` only `a` leads on. */
  lemma StarStepFromStart<T(!new)>(g: Nfa<T>, a: T, b: T, n: nat, c: T)
    requires StarShape(g, a, b, n)
    ensures Step(g, {n, n + 3}, c) == if c == a then {n + 1, n + 2} else {}
  {
    if c == a {
      assert n + 1 in Successors(g.nodes, n, Some(c));
      assert n + 2 in Successors(g.nodes, n + 1, None);
      assert Move(g, {n, n + 3}, c) == {n + 1};
      UnionClosuresExact(g.nodes, {n + 1}, {n + 1, n + 2});
    } else {
      assert Move(g, {n, n + 3}, c) == {};
      StepNowhere(g, {n, n + 3}, c);
    }
  }

  /** From `{n+1, n+2}` only `b` leads on, back to `{n, n+3}`. */
  lemma StarStepFromMiddle<T(!new)>(g: Nfa<T>, a: T, b: T, n: nat, c: T)
    requires StarShape(g, a, b, n)
    ensures Step(g, {n + 1, n + 2}, c) == if c == b then {n, n + 3} else {}
  {
    if c == b {
      assert n + 3 in Successors(g.nodes, n + 2, Some(c));
      assert n in Successors(g.nodes, n + 3, None);
      assert Move(g, {n + 1, n + 2}, c) == {n + 3};
      UnionClosuresExact(g.nodes, {n + 3}, {n, n + 3});
    } else {
      assert Move(g, {n + 1, n + 2}, c) == {};
      StepNowhere(g, {n + 1, n + 2}, c);
    }
  }

  /** The configurations the scan of `Star` can reach, numbered: 0 between
      pairs, 1 inside a pair, 2 stuck. */
  function StarConfig(n: nat): nat -> set<nat>
  {
    s => if s == 0 then {n, n + 3} else if s == 1 then {n + 1, n + 2} else {}
  }

  /** Only configuration 0 holds the end node. */
  lemma StarEndOnlyIn(n: nat, s: nat)
    ensures n + 3 in StarConfig(n)(s) <==> s == 0
  {
  }

  /** How the numbered configurations of `Star` follow each other. */
  function StarMachine<T(==,!new)>(a: T, b: T): (nat, T) -> nat
  {
    (s, c) => if s == 0 && c == a then 1 else if s == 1 && c == b then 0 else 2
  }

  /** One step of the scan of a `Star`-shaped automaton from a numbered
      configuration lands on the configuration `StarMachine` names. */
  lemma StarStep<T(!new)>(g: Nfa<T>, a: T, b: T, n: nat, s: nat, c: T)
    requires StarShape(g, a, b, n)
    ensures Step(g, StarConfig(n)(s), c) == StarConfig(n)(StarMachine(a, b)(s, c))
  {
    var next := StarMachine(a, b)(s, c);
    if s == 0 {
      assert StarConfig(n)(s) == {n, n + 3};
      StarStepFromStart(g, a, b, n, c);
      assert StarConfig(n)(next) == if c == a then {n + 1, n + 2} else {};
    } else if s == 1 {
      assert StarConfig(n)(s) == {n + 1, n + 2};
      StarStepFromMiddle(g, a, b, n, c);
      assert StarConfig(n)(next) == if c == b then {n, n + 3} else {};
    } else {
      assert StarConfig(n)(s) == {};
      assert StarConfig(n)(next) == {};
    }
  }

  /** The three-state machine simulates the scan of a `Star`-shaped
      automaton. */
  lemma StarSimulated<T(!new)>(g: Nfa<T>, a: T, b: T, n: nat)
    requires StarShape(g, a, b, n)
    ensures StarConfig(n)(0) == Closure(g.nodes, g.start)
    ensures forall s, c :: Step(g, StarConfig(n)(s), c) == StarConfig(n)(StarMachine(a, b)(s, c))
  {
    assert n + 3 in Successors(g.nodes, n, None);
    ClosureOfPair(g.nodes, n, n + 3);
    forall s, c
      ensures Step(g, StarConfig(n)(s), c) == StarConfig(n)(StarMachine(a, b)(s, c))
    {
      StarStep(g, a, b, n, s, c);
    }
  }

  /** The number of `a b` pairs `w` starts with. */
  function LeadingPairs<T(==,!new)>(a: T, b: T, w: seq<T>): (r: nat)
    ensures 2 * r <= |w|
    ensures forall i | 0 <= i < 2 * r :: w[i] == if i % 2 == 0 then a else b
    ensures !(2 * r + 2 <= |w| && w[2 * r] == a && w[2 * r + 1] == b)
    decreases |w|
  {
    if 2 <= |w| && w[0] == a && w[1] == b then
      var rest := LeadingPairs(a, b, w[2..]);
      assert forall i | 2 <= i < 2 * rest + 2 :: w[i] == w[2..][i - 2];
      rest + 1
    else
      0
  }

  /** The state of `StarMachine` after `k` symbols of `w`: alternating
      between 0 and 1 through the leading pairs, 1 once more if an
      unfinished pair follows, and stuck after that. */
  function StarState<T(==,!new)>(a: T, b: T, w: seq<T>, k: nat): nat
    requires k <= |w|
  {
    var pairs := LeadingPairs(a, b, w);
    if k <= 2 * pairs then k % 2
    else if k == 2 * pairs + 1 && w[2 * pairs] == a then 1
    else 2
  }

  /** `StarMachine` walks through `StarState`. */
  lemma {:induction false} StarRun<T(!new)>(a: T, b: T, w: seq<T>, k: nat)
    requires k <= |w|
    ensures Scanning.Run(StarMachine(a, b), 0, w, k) == StarState(a, b, w, k)
  {
    if k > 0 {
      StarRun(a, b, w, k - 1);
    }
  }

  /** A `Star`-shaped automaton accepts exactly the prefixes made of
      whole leading pairs. */
  lemma StarAccepts<T(!new)>(g: Nfa<T>, a: T, b: T, n: nat, w: seq<T>, j: nat)
    requires StarShape(g, a, b, n) && j <= |w|
    ensures AcceptsPrefix(g, w, j) <==> j % 2 == 0 && j <= 2 * LeadingPairs(a, b, w)
  {
    StarSimulated(g, a, b, n);
    ConfigsSimulated(g, StarMachine(a, b), 0, StarConfig(n), w, j);
    StarRun(a, b, w, j);
    StarEndOnlyIn(n, StarState(a, b, w, j));
  }

  /** A `Star`-shaped automaton matches all the leading `a b` pairs. */
  lemma StarLongest<T(!new)>(g: Nfa<T>, a: T, b: T, n: nat, w: seq<T>)
    requires StarShape(g, a, b, n)
    ensures LongestMatch(g, w) == Some(2 * LeadingPairs(a, b, w))
  {
    var pairs := LeadingPairs(a, b, w);
    forall j | 0 <= j <= |w|
      ensures AcceptsPrefix(g, w, j) <==> j % 2 == 0 && j <= 2 * pairs
    {
      StarAccepts(g, a, b, n, w, j);
    }
    assert (2 * pairs) % 2 == 0;
    LongestMatchIs(g, w, 2 * pairs);
  }

  /** `zeroOrMore(concat(match(a), match(b)))` matches all the leading
      `a b` pairs, and the empty prefix when there are none. */
  lemma StarMatchesPairs<T(!new)>(a: T, b: T, n: nat, w: seq<T>)
    ensures LongestMatch(Star(a, b, n), w) == Some(2 * LeadingPairs(a, b, w))
  {
    StarHasShape(a, b, n);
    StarLongest(Star(a, b, n), a, b, n, w);
  }

  // ---------------------------------------------------------------------
  // The engine's own examples, on characters, built from counter 0

  /** `epsilon()` matches the empty prefix of "" and of "a". */
  lemma EpsilonExamples()
    ensures LongestMatch(Epsilon<char>(0).nfa, "") == Some(0)
    ensures LongestMatch(Epsilon<char>(0).nfa, "a") == Some(0)
  {
    EpsilonMatchesEmptyPrefix<char>(0, "");
    EpsilonMatchesEmptyPrefix<char>(0, "a");
  }

  /** `concat(match('a'), match('b'))` matches "ab" at the front and fails
      on everything else. */
  lemma SequenceExamples()
    ensures LongestMatch(Sequence('a', 'b', 0), "ab") == Some(2)
    ensures LongestMatch(Sequence('a', 'b', 0), "abc") == Some(2)
    ensures LongestMatch(Sequence('a', 'b', 0), "abbc") == Some(2)
    ensures LongestMatch(Sequence('a', 'b', 0), "") == None
    ensures LongestMatch(Sequence('a', 'b', 0), "a") == None
    ensures LongestMatch(Sequence('a', 'b', 0), "b") == None
    ensures LongestMatch(Sequence('a', 'b', 0), "aab") == None
    ensures LongestMatch(Sequence('a', 'b', 0), "c") == None
    ensures LongestMatch(Sequence('a', 'b', 0), "cab") == None
  {
    SequenceMatchesPair('a', 'b', 0, "ab");
    SequenceMatchesPair('a', 'b', 0, "abc");
    SequenceMatchesPair('a', 'b', 0, "abbc");
    SequenceMatchesPair('a', 'b', 0, "");
    SequenceMatchesPair('a', 'b', 0, "a");
    SequenceMatchesPair('a', 'b', 0, "b");
    SequenceMatchesPair('a', 'b', 0, "aab");
    SequenceMatchesPair('a', 'b', 0, "c");
    SequenceMatchesPair('a', 'b', 0, "cab");
  }

  /** `either(match('a'), match('b'))` matches one leading 'a' or 'b'
      and fails on "c". */
  lemma AlternativeExamples()
    ensures LongestMatch(Alternative('a', 'b', 0), "a") == Some(1)
    ensures LongestMatch(Alternative('a', 'b', 0), "b") == Some(1)
    ensures LongestMatch(Alternative('a', 'b', 0), "ab") == Some(1)
    ensures LongestMatch(Alternative('a', 'b', 0), "ba") == Some(1)
    ensures LongestMatch(Alternative('a', 'b', 0), "ac") == Some(1)
    ensures LongestMatch(Alternative('a', 'b', 0), "bc") == Some(1)
    ensures LongestMatch(Alternative('a', 'b', 0), "c") == None
  {
    AlternativeMatchesEither('a', 'b', 0, "a");
    AlternativeMatchesEither('a', 'b', 0, "b");
    AlternativeMatchesEither('a', 'b', 0, "ab");
    AlternativeMatchesEither('a', 'b', 0, "ba");
    AlternativeMatchesEither('a', 'b', 0, "ac");
    AlternativeMatchesEither('a', 'b', 0, "bc");
    AlternativeMatchesEither('a', 'b', 0, "c");
  }

  /** `matchAny({'a', 'b'})` behaves like the alternative above. */
  lemma MatchAnyExamples()
    ensures LongestMatch(MatchAny({'a', 'b'}, 0).nfa, "a") == Some(1)
    ensures LongestMatch(MatchAny({'a', 'b'}, 0).nfa, "b") == Some(1)
    ensures LongestMatch(MatchAny({'a', 'b'}, 0).nfa, "ab") == Some(1)
    ensures LongestMatch(MatchAny({'a', 'b'}, 0).nfa, "ba") == Some(1)
    ensures LongestMatch(MatchAny({'a', 'b'}, 0).nfa, "ac") == Some(1)
    ensures LongestMatch(MatchAny({'a', 'b'}, 0).nfa, "bc") == Some(1)
  {
    MatchAnyMatchesOneSymbol({'a', 'b'}, 0, "a");
    MatchAnyMatchesOneSymbol({'a', 'b'}, 0, "b");
    MatchAnyMatchesOneSymbol({'a', 'b'}, 0, "ab");
    MatchAnyMatchesOneSymbol({'a', 'b'}, 0, "ba");
    MatchAnyMatchesOneSymbol({'a', 'b'}, 0, "ac");
    MatchAnyMatchesOneSymbol({'a', 'b'}, 0, "bc");
  }

  /** `matchAny({'a', 'b'})` fails on "c", like the alternative above. */
  lemma MatchAnyRejects()
    ensures LongestMatch(MatchAny({'a', 'b'}, 0).nfa, "c") == None
  {
    assert "c"[0] !in {'a', 'b'};
    MatchAnyMatchesOneSymbol({'a', 'b'}, 0, "c");
  }

  /** The leading "ab" pairs of the inputs below. */
  lemma ExamplePairs()
    ensures LeadingPairs('a', 'b', "") == 0
    ensures LeadingPairs('a', 'b', "c") == 0
    ensures LeadingPairs('a', 'b', "ac") == 0
    ensures LeadingPairs('a', 'b', "cb") == 0
    ensures LeadingPairs('a', 'b', "ab") == 1
    ensures LeadingPairs('a', 'b', "abc") == 1
    ensures LeadingPairs('a', 'b', "aba") == 1
    ensures LeadingPairs('a', 'b', "ababc") == 2
  {
  }

  /** `zeroOrMore(concat(match('a'), match('b')))` matches every run of
      leading "ab" pairs, possibly empty. */
  lemma StarExamples()
    ensures LongestMatch(Star('a', 'b', 0), "") == Some(0)
    ensures LongestMatch(Star('a', 'b', 0), "c") == Some(0)
    ensures LongestMatch(Star('a', 'b', 0), "ac") == Some(0)
    ensures LongestMatch(Star('a', 'b', 0), "cb") == Some(0)
    ensures LongestMatch(Star('a', 'b', 0), "ab") == Some(2)
    ensures LongestMatch(Star('a', 'b', 0), "abc") == Some(2)
    ensures LongestMatch(Star('a', 'b', 0), "aba") == Some(2)
    ensures LongestMatch(Star('a', 'b', 0), "ababc") == Some(4)
  {
    ExamplePairs();
    StarMatchesPairs('a', 'b', 0, "");
    StarMatchesPairs('a', 'b', 0, "c");
    StarMatchesPairs('a', 'b', 0, "ac");
    StarMatchesPairs('a', 'b', 0, "cb");
    StarMatchesPairs('a', 'b', 0, "ab");
    StarMatchesPairs('a', 'b', 0, "abc");
    StarMatchesPairs('a', 'b', 0, "aba");
    StarMatchesPairs('a', 'b', 0, "ababc");
  }
}
