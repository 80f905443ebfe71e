/** The DFA and its longest-prefix scan.

    A DFA owns a sequence of nodes, names its start node by index, and
    records the NFA id `end` whose presence makes a node accepting. The
    scan is the single-state case of the shared maximal-munch scan: the
    configuration is the current node, or `None` once a symbol had no
    edge. `Walk` is the reference definition the scan loop is proved
    against. */
module Dfas {
  import opened Wrappers
  import opened DfaNodes
  import opened Scanning

  datatype Dfa<T(==,!new), I(==)> = Dfa(nodes: seq<DfaNode<T, I>>, start: nat, end: I)
  {
    /** The start node exists and every edge leads to a node of this DFA. */
    ghost predicate Valid()
    {
      && start < |nodes|
      && forall i, input | 0 <= i < |nodes| && input in nodes[i].connections ::
           nodes[i].connections[input] < |nodes|
    }
  }

  /** A DFA of one node, standing for `startStates`, which is the start
      node; `end` is recorded as given. */
  function NewDfa<T(==,!new), I(==)>(startStates: set<I>, end: I): (r: Dfa<T, I>)
    ensures r.Valid()
    ensures |r.nodes| == 1 && r.start == 0 && r.end == end
    ensures r.nodes[0].nfaStates == startStates
    ensures forall input :: r.nodes[0].Next(input) == None
  {
    Dfa([NewDfaNode(startStates)], 0, end)
  }

  /** One scan step: follow the current node's edge for `symbol`, if any. */
  function DfaStep<T(==,!new), I(==)>(d: Dfa<T, I>): (Option<nat>, T) -> Option<nat>
  {
    (current: Option<nat>, symbol) =>
      if current.Some? && current.value < |d.nodes| then d.nodes[current.value].Next(symbol) else None
  }

  /** A node is accepting when it stands for the NFA id `end`. */
  function Accepting<T(==,!new), I(==)>(d: Dfa<T, I>): Option<nat> -> bool
  {
    (current: Option<nat>) => current.Some? && current.value < |d.nodes| && d.nodes[current.value].Contains(d.end)
  }

  /** The scan gives up once a symbol had no edge. */
  function IsStuck(): Option<nat> -> bool
  {
    (current: Option<nat>) => current.None?
  }

  /** The node reached after the first `k` symbols of `input`, or `None`
      when one of them had no edge. */
  function Walk<T(==,!new), I(==)>(d: Dfa<T, I>, input: seq<T>, k: nat): Option<nat>
    requires k <= |input|
  {
    Run(DfaStep(d), Some(d.start), input, k)
  }

  /** The DFA accepts the prefix of length `k`: its walk reaches a node
      that stands for `end`. */
  ghost predicate AcceptsPrefix<T(!new), I>(d: Dfa<T, I>, input: seq<T>, k: nat)
    requires k <= |input|
  {
    Accepting(d)(Walk(d, input, k))
  }

  /** Being stuck is absorbing and never accepts. */
  lemma StuckAbsorbing<T(!new), I>(d: Dfa<T, I>)
    ensures Absorbing(DfaStep(d), Accepting(d), IsStuck())
  {
  }

  /** The walk is a deterministic path: it starts at the start node, stays
      inside the DFA, and each symbol either follows the single edge of the
      current node or leaves the walk stuck for good. */
  lemma {:induction false} WalkIsPath<T(!new), I>(d: Dfa<T, I>, input: seq<T>, k: nat)
    requires d.Valid() && k <= |input|
    ensures Walk(d, input, k).Some? ==> Walk(d, input, k).value < |d.nodes|
    ensures k > 0 ==>
      Walk(d, input, k)
        == (if Walk(d, input, k - 1).Some? then d.nodes[Walk(d, input, k - 1).value].Next(input[k - 1]) else None)
    ensures k == 0 ==> Walk(d, input, k) == Some(d.start)
    decreases k
  {
    if k > 0 {
      WalkIsPath(d, input, k - 1);
      var previous := Walk(d, input, k - 1);
      if previous.Some? {
        var next := d.nodes[previous.value].Next(input[k - 1]);
        assert next.Some? ==> input[k - 1] in d.nodes[previous.value].connections;
      }
    }
  }

  /** Longest-prefix match: the longest prefix of `input` the DFA accepts,
      as a length, or `None`. */
  function LongestMatch<T(==,!new), I(==)>(d: Dfa<T, I>, input: seq<T>): (r: Option<nat>)
    ensures r.Some? ==> r.value <= |input| && AcceptsPrefix(d, input, r.value)
    ensures r.Some? ==> forall j | r.value < j <= |input| :: !AcceptsPrefix(d, input, j)
    ensures r.None? <==> forall j | 0 <= j <= |input| :: !AcceptsPrefix(d, input, j)
  {
    StuckAbsorbing(d);
    assert forall j | 0 <= j <= |input| ::
      AcceptsPrefix(d, input, j) == Accepting(d)(Run(DfaStep(d), Some(d.start), input, j));
    Scanning.LongestMatch(DfaStep(d), Some(d.start), Accepting(d), IsStuck(), input)
  }

  /** The contract pins the result down: an accepted prefix length with
      nothing longer accepted is the answer. */
  lemma LongestMatchIs<T(!new), I>(d: Dfa<T, I>, input: seq<T>, k: nat)
    requires k <= |input| && AcceptsPrefix(d, input, k)
    requires forall j | k < j <= |input| :: !AcceptsPrefix(d, input, j)
    ensures LongestMatch(d, input) == Some(k)
  {
  }

  /** The scan as the engine runs it: start at the start node, note
      position 0 if it accepts, follow one edge per symbol, stop at the
      first symbol without an edge, and note every accepting position. */
  method Scan<T(==,!new), I(==)>(d: Dfa<T, I>, input: seq<T>) returns (r: Option<nat>)
    requires d.Valid()
    ensures r == LongestMatch(d, input)
  {
    var current := d.start;
    r := if d.nodes[current].Contains(d.end) then Some(0) else None;
    var i := 0;
    ghost var stuck := false;
    while i < |input|
      invariant 0 <= i <= |input|
      invariant current < |d.nodes|
      invariant Walk(d, input, i) == Some(current)
      invariant r == LastAccepted(DfaStep(d), Some(d.start), Accepting(d), input, i)
      decreases |input| - i
    {
      var next := d.nodes[current].Next(input[i]);
      if next.None? {
        assert Walk(d, input, i + 1) == None;
        stuck := true;
        break;
      }
      current := next.value;
      i := i + 1;
      if d.nodes[current].Contains(d.end) {
        r := Some(i);
      }
    }
    StuckAbsorbing(d);
    assert stuck ==> i < |input| && Walk(d, input, i + 1) == None;
    if stuck {
      forall j | i < j <= |input|
        ensures !Accepting(d)(Run(DfaStep(d), Some(d.start), input, j))
      {
        DeadStaysDead(DfaStep(d), Some(d.start), Accepting(d), IsStuck(), input, i + 1, j);
      }
      LastAcceptedStable(DfaStep(d), Some(d.start), Accepting(d), input, i, |input|);
    }
    LastAcceptedIsLongest(DfaStep(d), Some(d.start), Accepting(d), input, |input|);
  }

  /** Position 0 is a match exactly when the start node stands for `end`;
      on the empty input that decides the answer. */
  lemma LongestMatchEmptyInput<T(!new), I>(d: Dfa<T, I>)
    requires d.Valid()
    ensures LongestMatch(d, []) == if d.nodes[d.start].Contains(d.end) then Some(0) else None
  {
    var empty: seq<T> := [];
    assert Walk(d, empty, 0) == Some(d.start);
  }

  /** When the start node stands for `end` there is always a match. */
  lemma StartAcceptsMatches<T(!new), I>(d: Dfa<T, I>, input: seq<T>)
    requires d.Valid() && d.nodes[d.start].Contains(d.end)
    ensures LongestMatch(d, input).Some?
  {
    assert AcceptsPrefix(d, input, 0);
  }

  /** Stopping at the first symbol without an edge loses nothing: no later
      symbol affects the result. */
  lemma EarlyExitIrrelevant<T(!new), I>(d: Dfa<T, I>, p: seq<T>, s: seq<T>)
    requires Walk(d, p, |p|).None?
    ensures LongestMatch(d, p + s) == LongestMatch(d, p)
  {
    StuckAbsorbing(d);
    Scanning.EarlyExitIrrelevant(DfaStep(d), Some(d.start), Accepting(d), IsStuck(), p, s);
  }

  /** A freshly made DFA has no edges: it matches the empty prefix of every
      input when its start set holds `end`, and nothing otherwise. */
  lemma NewDfaMatches<T(!new), I>(startStates: set<I>, end: I, input: seq<T>)
    ensures LongestMatch(NewDfa<T, I>(startStates, end), input)
              == if end in startStates then Some(0) else None
  {
    var d := NewDfa<T, I>(startStates, end);
    if |input| > 0 {
      assert Walk(d, input, 1) == None;
      forall j | 1 <= j <= |input|
        ensures !AcceptsPrefix(d, input, j)
      {
        StuckAbsorbing(d);
        DeadStaysDead(DfaStep(d), Some(d.start), Accepting(d), IsStuck(), input, 1, j);
      }
    }
    if end in startStates {
      LongestMatchIs(d, input, 0);
    }
  }
}
