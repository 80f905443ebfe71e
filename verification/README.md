# Automata engine of learncpp, modelled in Dafny

This project models the small automaton library in `src/learncpp/automata/`
and proves properties of the model. The library has four parts.

- NFA nodes. Each node maps a label to a set of destinations. The label is
  a symbol, or "no symbol" for an epsilon edge. A node also computes its
  epsilon-closure by a depth-first search with a visited set.
- NFAs. Graph builders `epsilon`, `match` and `matchAny` take fresh ids
  from a process-wide counter. Combinators `concat`, `either` and
  `zeroOrMore` merge node maps and add epsilon edges. The scan
  `longest_match` returns the longest accepted prefix of an input.
- DFA nodes. Each node stands for a fixed set of NFA ids and has at most
  one successor per symbol.
- DFAs. A DFA is made from a start subset, and has its own single-state
  `longest_match`.

How the model represents these:

- Nodes are natural-number ids in a map, not pointers.
- A label is `Option<T>`, and `None` is epsilon.
- An input is a `seq<T>`.
- A match is the length of the matched prefix, as `Option<nat>`.
- A DFA node's successor is an index into the DFA's node sequence.
  `get_nfa_states` is the field `nfaStates`, and `contains` is membership
  in it.
- The id counter is an explicit `nextId` argument. Every builder returns
  it, advanced past the ids it used.

Both scans are instances of one generic maximal-munch scan (`Scanning`):

- The NFA's configuration is a set of node ids. The DFA's is a node index,
  or `None` once a symbol had no edge.
- The scan records every position whose configuration is accepting.
- It stops as soon as the configuration is dead (empty, or stuck).
- It is proved equal to the reference definition `LastAccepted`. That
  definition is the greatest accepting position of the run that never
  stops early.

The closure DFS (`EpsilonClosure.EpsilonClosure`) is proved to compute the
least epsilon-closed set containing its node (`EpsilonClosure.Closure`).
That set is exactly the set of nodes reachable by epsilon edges.

The DFA scan loop (`Dfas.Scan`) follows the source's loop line for line. It
is proved equal to the DFA scan function.

For every input, the graphs built in the engine's test file are proved to
match exactly what the tests expect:

- `epsilon()`;
- `match(a)` and `matchAny(S)`;
- `concat(match(a), match(b))`;
- `either(match(a), match(b))`;
- `zeroOrMore(concat(match(a), match(b)))`.

`epsilon()` has a single node without edges, so its proof needs only
the closure of that node and the empty step. For `match`, `matchAny` and
the three composite graphs, each proof exhibits a machine of three or
four numbered states and shows that it simulates the NFA scan
(`NfaMatch.ConfigsSimulated`). The concrete strings of the test file are
then instances of these theorems.

Files:

- `wrappers.dfy`: `Option`, `Result`.
- `nfa_node.dfy`: module `NfaNodes`.
- `epsilon_closure.dfy`: module `EpsilonClosure`.
- `nfa.dfy`: module `Nfas`, the graph and its builders.
- `scanning.dfy`: module `Scanning`, the generic scan.
- `nfa_match.dfy`: module `NfaMatch`, the NFA scan.
- `nfa_examples.dfy`: module `NfaExamples`, the tested graphs.
- `dfa_node.dfy`: module `DfaNodes`.
- `dfa.dfy`: module `Dfas`.

## Model

| member | source | states |
|---|---|---|
| NfaNodes.NfaNode.AddConnection | src/learncpp/automata/nfa_node.hpp:36-40 | the destination joins the label's set, every other label's set is unchanged, the id is kept |
| NfaNodes.NewNode | src/learncpp/automata/nfa_node.hpp:28-30 | a new node keeps its id and has no destination under any label |
| NfaNodes.AddConnectionIdempotent | src/learncpp/automata/nfa_node.hpp:38-39 | adding the same edge twice gives the same node as adding it once (set semantics) |
| NfaNodes.NextCollectsEdges | src/learncpp/automata/nfa_node.hpp:36-45 | after any sequence of `add_connection` calls, `next(label)` is the node's earlier set plus exactly the destinations added under that label; the id is kept |
| NfaNodes.AddConnectionCommutes | src/learncpp/automata/nfa_node.hpp:36-40 | the order in which edges are added does not matter |
| NfaNodes.CreateNodeExample | tests/nfa_test.cpp:9-29 | two symbol edges and one epsilon edge out of node 0 give `next('a') = {0, 1}`, `next(epsilon) = {1}`, nothing under another symbol |
| EpsilonClosure.SaturateIsLeastClosed | src/learncpp/automata/nfa_node.hpp:47-56 | the fixpoint iteration yields a superset of its seed that is closed under epsilon edges and contained in every closed superset |
| EpsilonClosure.Closure | src/learncpp/automata/nfa_node.hpp:58-63 | the closure of a node contains the node itself |
| EpsilonClosure.ClosureClosed | src/learncpp/automata/nfa_node.hpp:51-55 | every epsilon successor of a member of the closure is in the closure |
| EpsilonClosure.ClosureLeast | src/learncpp/automata/nfa_node.hpp:47-56 | the closure lies inside every epsilon-closed set containing the node |
| EpsilonClosure.ClosureTransitive | src/learncpp/automata/nfa_node.hpp:51-55 | the closure of a member of a closure is inside that closure |
| EpsilonClosure.ClosureIdempotent | src/learncpp/automata/nfa_node.hpp:47-63 | the union of the closures of all members of a closure is that closure |
| EpsilonClosure.UnionClosuresIsSaturate | src/learncpp/automata/nfa.hpp:106-110 | merging the closures of a set of nodes gives the least closed superset of the set |
| EpsilonClosure.UnionClosuresPerNode | src/learncpp/automata/nfa.hpp:106-110 | merging closures one node at a time: the merged closures of a union are the union of the parts' merged closures, one node contributes its own closure, and the empty set contributes nothing |
| EpsilonClosure.UnionClosuresClosed | src/learncpp/automata/nfa.hpp:106-110 | the merged closures of any set are closed under epsilon edges |
| EpsilonClosure.UnionClosuresExact | src/learncpp/automata/nfa.hpp:106-110 | a closed superset reached from the set in one epsilon step is exactly the merged closures |
| EpsilonClosure.ClosureOfSink | src/learncpp/automata/nfa_node.hpp:49-55 | a node without epsilon edges is its own closure |
| EpsilonClosure.ClosureOfPair | src/learncpp/automata/nfa_node.hpp:49-55 | two nodes whose epsilon edges stay between them, one reached from the other, form the closure |
| EpsilonClosure.PathInClosure | src/learncpp/automata/nfa_node.hpp:51-55 | the end of every epsilon path from a node lies in its closure |
| EpsilonClosure.ClosureIsReachability | src/learncpp/automata/nfa_node.hpp:47-56 | a node is in the closure exactly when an epsilon path leads to it, both directions |
| EpsilonClosure.VisitEpsilonClosure | src/learncpp/automata/nfa_node.hpp:47-56 | the search keeps the visited set, adds the node, adds only reachable nodes, and every added node has its epsilon successors in the result; it stops on cycles because a visited node is not expanded again |
| EpsilonClosure.EpsilonClosure | src/learncpp/automata/nfa_node.hpp:58-63 | the search from an empty visited set returns exactly the closure |
| EpsilonClosure.ClosureExample | tests/nfa_test.cpp:31-47 | on the cycle a to a, a to b, b to c, c to a with b --'d'--> d, the closure of a is {a, b, c} |
| Nfas.Merge | src/learncpp/automata/nfa.hpp:26-29 | the merged map has both key sets; on a colliding id the first operand's node is kept, like `emplace` |
| Nfas.MergeDisjoint | src/learncpp/automata/nfa.hpp:26-29 | on disjoint ids every edge of both operands survives |
| Nfas.MergeDropsCollision | src/learncpp/automata/nfa.hpp:26-29 | on a colliding id the second operand's node is lost |
| Nfas.AddEdge | src/learncpp/automata/nfa.hpp:30 | adding one edge leaves the ids, the nodes' own ids and all other edges alone |
| Nfas.Concat | src/learncpp/automata/nfa.hpp:24-33 | the result keeps the first start and the second end, holds both operands' ids, and adds exactly the epsilon edge from the first end to the second start |
| Nfas.ConcatDisjoint | src/learncpp/automata/nfa.hpp:24-33 | on disjoint operands the edges are the union of both plus the joining edge |
| Nfas.Either | src/learncpp/automata/nfa.hpp:36-45 | start and end stay the left operand's; exactly the two epsilon edges around the right operand are added |
| Nfas.EitherDisjoint | src/learncpp/automata/nfa.hpp:36-45 | on disjoint operands the edges are the union of both plus the two new edges |
| Nfas.ZeroOrMore | src/learncpp/automata/nfa.hpp:47-53 | start, end and ids are unchanged; exactly the skip and repeat epsilon edges are added |
| Nfas.Epsilon | src/learncpp/automata/nfa.hpp:148-154 | one fresh node that is both start and end, without edges; the counter advances by one |
| Nfas.Match | src/learncpp/automata/nfa.hpp:156-166 | two fresh nodes joined by exactly one edge labelled with the symbol; the counter advances by two |
| Nfas.MatchAny | src/learncpp/automata/nfa.hpp:168-181 | two fresh nodes joined by one edge per symbol of the set and no other edge |
| Nfas.MatchIsMatchAnySingleton | src/learncpp/automata/nfa.hpp:156-181 | `match(a)` builds the same graph as `matchAny({a})` |
| Nfas.SequentialBuildsDisjoint | src/learncpp/automata/nfa.hpp:145-159 | graphs built one after another from the counter have disjoint ids, so merging them loses no edge |
| Scanning.LastAcceptedIsLongest | src/learncpp/automata/nfa.hpp:96-114 | the reference result is an accepting position, nothing after it accepts, and it is absent only when no position accepts |
| Scanning.DeadStaysDead | src/learncpp/automata/nfa.hpp:97 | a dead configuration only leads to dead, non-accepting ones |
| Scanning.LastAcceptedStable | src/learncpp/automata/nfa.hpp:97-115 | when nothing after a position accepts, the best match up to any later position equals the best match up to it |
| Scanning.Scan | src/learncpp/automata/nfa.hpp:95-116 | the scan loop, stopping at a dead configuration, returns the reference result for the whole input |
| Scanning.LongestMatch | src/learncpp/automata/nfa.hpp:93-117 | the result is the greatest accepting position, or `None` exactly when no position accepts |
| Scanning.RunOfPrefix | src/learncpp/automata/nfa.hpp:97-112 | the configuration after a prefix does not depend on what follows it |
| Scanning.EarlyExitIrrelevant | src/learncpp/automata/nfa.hpp:97 | whatever follows a prefix that ends dead never changes the result |
| Scanning.RunSimulation | src/learncpp/automata/nfa.hpp:97-115 | a smaller machine whose states map onto configurations, commuting with the steps, predicts every configuration of the run |
| NfaMatch.Step | src/learncpp/automata/nfa.hpp:99-112 | stepping from the empty configuration gives the empty configuration |
| NfaMatch.StepPerNode | src/learncpp/automata/nfa.hpp:99-111 | the step is built node by node: following a symbol from a union is the union of following it from the parts, from one node it reaches that node's destinations, and a step merges their closures; together these fix the step on every configuration |
| NfaMatch.ConfigsAdvance | src/learncpp/automata/nfa.hpp:99-112 | one more symbol moves a known configuration to its step |
| NfaMatch.ConfigsSimulated | src/learncpp/automata/nfa.hpp:95-115 | a small machine that commutes with the NFA step predicts the configuration after every prefix |
| NfaMatch.EmptyAbsorbing | src/learncpp/automata/nfa.hpp:97 | the empty configuration never accepts and steps only to itself |
| NfaMatch.ConfigsStayEmpty | src/learncpp/automata/nfa.hpp:97-115 | once empty, the configuration stays empty for the rest of the input |
| NfaMatch.LongestMatch | src/learncpp/automata/nfa.hpp:93-117 | `Some(k)` means the prefix of length k is accepted and no longer one is; `None` holds exactly when no prefix is accepted |
| NfaMatch.LongestMatchIs | src/learncpp/automata/nfa.hpp:93-117 | an accepted length with nothing longer accepted is the result |
| NfaMatch.LongestMatchNone | src/learncpp/automata/nfa.hpp:93-117 | with no accepted prefix the result is `None` |
| NfaMatch.LongestMatchEmptyInput | src/learncpp/automata/nfa.hpp:95-96 | on the empty input the result is `Some(0)` exactly when the start closure holds the end node |
| NfaMatch.EarlyExitIrrelevant | src/learncpp/automata/nfa.hpp:97 | symbols after a prefix whose configuration is empty never change the result |
| NfaExamples.StepNowhere | src/learncpp/automata/nfa.hpp:99-112 | a symbol with no edge out of the configuration empties it |
| NfaExamples.EpsilonMatchesEmptyPrefix | src/learncpp/automata/nfa.hpp:148-154 | `epsilon()` matches the empty prefix of every input |
| NfaExamples.MatchAnyHasShape | src/learncpp/automata/nfa.hpp:168-181 | `matchAny(S)` has exactly the edges from its start to its end labelled by members of S |
| NfaExamples.MatchAnyStepFromStart | src/learncpp/automata/nfa.hpp:99-112 | from the start node a member of S reaches the end node and anything else empties the configuration |
| NfaExamples.MatchAnyStepFromEnd | src/learncpp/automata/nfa.hpp:99-112 | from the end node every symbol empties the configuration |
| NfaExamples.MatchAnyStep | src/learncpp/automata/nfa.hpp:99-112 | each numbered configuration steps to the one the three-state machine names |
| NfaExamples.MatchAnySimulated | src/learncpp/automata/nfa.hpp:95-112 | the three-state machine starts at the start closure and commutes with every step |
| NfaExamples.MatchAnyRun | src/learncpp/automata/nfa.hpp:97-115 | the machine's state after k symbols is given in closed form |
| NfaExamples.MatchAnyAccepts | src/learncpp/automata/nfa.hpp:113-114 | a prefix is accepted exactly when it is one symbol from S |
| NfaExamples.MatchAnyMatchesOneSymbol | src/learncpp/automata/nfa.hpp:168-181 | `matchAny(S)` gives `Some(1)` when the input starts with a member of S and `None` otherwise |
| NfaExamples.MatchMatchesSymbol | src/learncpp/automata/nfa.hpp:156-166 | `match(a)` gives `Some(1)` when the input starts with a and `None` otherwise |
| NfaExamples.SequenceHasShape | src/learncpp/automata/nfa.hpp:24-33 | `concat(match(a), match(b))` has exactly the edges n --a--> n+1 --eps--> n+2 --b--> n+3 |
| NfaExamples.SequenceStepFromStart | src/learncpp/automata/nfa.hpp:99-112 | from the start only a leads on, into {n+1, n+2} |
| NfaExamples.SequenceStepFromMiddle | src/learncpp/automata/nfa.hpp:99-112 | from {n+1, n+2} only b leads on, into the end node |
| NfaExamples.SequenceStepFromEnd | src/learncpp/automata/nfa.hpp:99-112 | from the end node every symbol empties the configuration |
| NfaExamples.SequenceStep | src/learncpp/automata/nfa.hpp:99-112 | each numbered configuration steps to the one the four-state machine names |
| NfaExamples.SequenceSimulated | src/learncpp/automata/nfa.hpp:95-112 | the four-state machine starts at the start closure and commutes with every step |
| NfaExamples.SequenceRun | src/learncpp/automata/nfa.hpp:97-115 | the machine's state after k symbols is given in closed form |
| NfaExamples.SequenceAccepts | src/learncpp/automata/nfa.hpp:113-114 | a prefix is accepted exactly when it is `a b` |
| NfaExamples.SequenceMatchesPair | tests/nfa_test.cpp:80-86 | `concat(match(a), match(b))` gives `Some(2)` on inputs starting with `a b` and `None` on every other input |
| NfaExamples.AlternativeHasShape | src/learncpp/automata/nfa.hpp:36-45 | `either(match(a), match(b))` has exactly the edges of both operands plus n --eps--> n+2 and n+3 --eps--> n+1 |
| NfaExamples.AlternativeStepFromStart | src/learncpp/automata/nfa.hpp:99-112 | from {n, n+2}, b reaches {n+1, n+3}, a reaches {n+1}, anything else empties the configuration |
| NfaExamples.AlternativeStepFromEnd | src/learncpp/automata/nfa.hpp:99-112 | after one symbol every further symbol empties the configuration |
| NfaExamples.AlternativeStep | src/learncpp/automata/nfa.hpp:99-112 | each numbered configuration steps to the one the four-state machine names |
| NfaExamples.AlternativeSimulated | src/learncpp/automata/nfa.hpp:95-112 | the four-state machine starts at the start closure and commutes with every step |
| NfaExamples.AlternativeRun | src/learncpp/automata/nfa.hpp:97-115 | the machine's state after k symbols is given in closed form |
| NfaExamples.AlternativeAccepts | src/learncpp/automata/nfa.hpp:113-114 | a prefix is accepted exactly when it is the single symbol a or b |
| NfaExamples.AlternativeMatchesEither | tests/nfa_test.cpp:88-95 | `either(match(a), match(b))` gives `Some(1)` when the input starts with a or b and `None` otherwise |
| NfaExamples.AlternativeAgreesWithMatchAny | tests/nfa_test.cpp:88-95 | `either(match(a), match(b))` and `matchAny({a, b})` give the same result on every input |
| NfaExamples.StarHasShape | src/learncpp/automata/nfa.hpp:47-53 | `zeroOrMore(concat(match(a), match(b)))` has the edges of the sequence plus the skip and repeat edges |
| NfaExamples.StarStepFromStart | src/learncpp/automata/nfa.hpp:99-112 | from {n, n+3} only a leads on, into {n+1, n+2} |
| NfaExamples.StarStepFromMiddle | src/learncpp/automata/nfa.hpp:99-112 | from {n+1, n+2} only b leads on, back to {n, n+3} |
| NfaExamples.StarStep | src/learncpp/automata/nfa.hpp:99-112 | each numbered configuration steps to the one the three-state machine names |
| NfaExamples.StarSimulated | src/learncpp/automata/nfa.hpp:95-112 | the three-state machine starts at the start closure and commutes with every step |
| NfaExamples.LeadingPairs | tests/nfa_test.cpp:97-105 | the count P of leading `a b` pairs: the first 2P symbols alternate a and b, and no further whole pair follows |
| NfaExamples.StarRun | src/learncpp/automata/nfa.hpp:97-115 | the machine alternates through the leading pairs, then steps into one unfinished pair at most, then is stuck |
| NfaExamples.StarAccepts | src/learncpp/automata/nfa.hpp:113-114 | a prefix is accepted exactly when it consists of whole leading pairs |
| NfaExamples.StarLongest | src/learncpp/automata/nfa.hpp:93-117 | a graph of that shape matches exactly the leading pairs |
| NfaExamples.StarMatchesPairs | tests/nfa_test.cpp:97-105 | `zeroOrMore(concat(match(a), match(b)))` gives `Some(2P)` for P leading `a b` pairs, on every input |
| NfaExamples.EpsilonExamples | tests/nfa_test.cpp:73-78 | `epsilon()` gives `Some(0)` on "" and "a" |
| NfaExamples.SequenceExamples | tests/nfa_test.cpp:80-86 | the concat graph gives `Some(2)` on "ab", "abc", "abbc" and `None` on "", "a", "b", "aab", "c", "cab" |
| NfaExamples.AlternativeExamples | tests/nfa_test.cpp:88-95 | the either graph gives `Some(1)` on "a", "b", "ab", "ba", "ac", "bc" and `None` on "c" |
| NfaExamples.MatchAnyExamples | tests/nfa_test.cpp:88-95 | `matchAny({'a', 'b'})` gives `Some(1)` on "a", "b", "ab", "ba", "ac", "bc" |
| NfaExamples.MatchAnyRejects | tests/nfa_test.cpp:88-95 | `matchAny({'a', 'b'})` gives `None` on "c" |
| NfaExamples.StarExamples | tests/nfa_test.cpp:97-105 | the star graph gives 0 on "", "c", "ac", "cb", 2 on "ab", "abc", "aba", and 4 on "ababc" |
| DfaNodes.NextAfterAdds | src/learncpp/automata/dfa_node.hpp:35-54 | after a successful sequence of `add_connection` calls, `next(t)` is empty exactly when the node had no edge for t and no call named t; otherwise it is the destination the call for t gave |
| DfaNodes.NextAfterAddsKeeps | src/learncpp/automata/dfa_node.hpp:35-54 | successful additions that do not name t, or that follow an existing edge for t, leave `next(t)` as it was |
| DfaNodes.AddConnectionsSucceeds | src/learncpp/automata/dfa_node.hpp:35-40 | a sequence of additions succeeds exactly when each symbol is new to the node and named once; otherwise it fails with "Edge already exists!" |
| DfaNodes.DfaNode.AddConnection | src/learncpp/automata/dfa_node.hpp:35-40 | fails with "Edge already exists!" exactly when the symbol has an edge; otherwise the symbol leads to the destination, other symbols and the NFA ids are unchanged |
| DfaNodes.NewDfaNode | src/learncpp/automata/dfa_node.hpp:26-28 | a new node stands for the given NFA ids and has no edges |
| DfaNodes.AddConnectionNeverOverwrites | src/learncpp/automata/dfa_node.hpp:37-39 | after adding an edge, a second edge for the same symbol fails and the first stays |
| DfaNodes.AddConnectionCommutes | src/learncpp/automata/dfa_node.hpp:35-40 | edges for two different new symbols can be added in either order |
| DfaNodes.AddConnectionsKeepsStates | src/learncpp/automata/dfa_node.hpp:30-40 | `get_nfa_states` is unchanged by any successful sequence of edge additions |
| DfaNodes.NfaStatesFixed | src/learncpp/automata/dfa_node.hpp:42-45 | `contains` answers, after any successful edge additions, as the ids given at construction say |
| Dfas.NewDfa | src/learncpp/automata/dfa.hpp:32-37 | exactly one node, which is the start, stands for the given subset and has no edges; `end` is recorded |
| Dfas.StuckAbsorbing | src/learncpp/automata/dfa.hpp:50-53 | being stuck never accepts and stays stuck |
| Dfas.WalkIsPath | src/learncpp/automata/dfa.hpp:44-54 | the walk starts at the start node, stays inside the DFA, and each symbol follows the current node's single edge or gets stuck |
| Dfas.LongestMatch | src/learncpp/automata/dfa.hpp:42-59 | `Some(k)` means the node reached after k symbols contains `end` and no later one does; `None` holds exactly when no reached node contains `end` |
| Dfas.LongestMatchIs | src/learncpp/automata/dfa.hpp:42-59 | an accepted length with nothing longer accepted is the result |
| Dfas.Scan | src/learncpp/automata/dfa.hpp:42-59 | the loop as written, breaking at the first symbol without an edge, returns `LongestMatch` |
| Dfas.LongestMatchEmptyInput | src/learncpp/automata/dfa.hpp:45 | on the empty input the result is `Some(0)` exactly when the start node contains `end` |
| Dfas.StartAcceptsMatches | src/learncpp/automata/dfa.hpp:45 | when the start node contains `end` there is always a match |
| Dfas.EarlyExitIrrelevant | src/learncpp/automata/dfa.hpp:48-53 | after the first symbol without an edge, no later symbol affects the result |
| Dfas.NewDfaMatches | src/learncpp/automata/dfa.hpp:32-37 | a freshly made DFA gives `Some(0)` on every input when its subset holds `end`, and `None` otherwise |

## Left out

- Subset construction (NFA to DFA) and NFA/DFA equivalence. There is no
  code for either, only a friend declaration (`nfa.hpp:128-129`). The DFA
  scan is therefore stated for every DFA whose edges stay inside it.
- Language-level theorems ("either is union", "zeroOrMore is Kleene
  star"). The combinators reuse their operands' start and end nodes
  instead of adding fresh ones, so such theorems do not hold in general.
  For example, `either(zeroOrMore(match a), match b)` also accepts "ab".
  Only the edge facts and the tested graphs are modelled.
- C++ ownership, move semantics and deleted copies; the `fully_defined`
  template trick; iterator concepts. Ids are naturals, inputs are
  sequences, and a match is a prefix length instead of an iterator.
- The node-level counter of `NfaNode<T, int>` (`nfa_node.hpp:76-79`),
  which the graph builders do not use. The graph counter
  (`nfa.hpp:145`) is an explicit argument instead of a static variable.
- Overflow of the id counter. The source's counter is a signed `int`
  (`nfa.hpp:145`), and incrementing it past its maximum is undefined
  behaviour. The model's counter is an unbounded natural, so
  `SequentialBuildsDisjoint` holds for every number of builds.
- Operands that share ids, such as `concat(move(x), move(x))`. The source
  leaves these undefined: `emplace` on an existing id discards the
  moved-in node, and the other operand's pointers dangle. The model
  gives them `Merge`'s meaning instead: the first operand's node is
  kept and the second's is dropped (`MergeDropsCollision`). Only the
  disjoint case matches the source.
- The order in which C++ evaluates the arguments of
  `concat(match('a'), match('b'))` is unspecified, so the ids the two
  operands get may be swapped. The tested graphs are built left operand
  first. Either order yields disjoint ids.
- `NfaNode::next` inserts an empty set into the map when a label has no
  entry (`operator[]`). The model's `Next` is a pure lookup. The extra
  empty entry changes no destination set.
- Compile-level defects, modelled as evidently intended:
  - `try_emplate` and the rvalue structured binding at `dfa_node.hpp:37`
    are modelled as `try_emplace`.
  - The NFA scan tests the set returned by `next` as if it were an
    optional (`nfa.hpp:102-105`). It is modelled as "no destinations".
  - The dangling combinator friend declarations in `dfa.hpp:61-68` are
    left out.
- The default `Nfa<T, I>` constructor for a non-`int` id type
  (`nfa.hpp:136-138`). It leaves start and end unset, so there is no
  defined behaviour to model.
- Hashing and the iteration order of unordered containers. Dafny `set`
  and `map` are used instead.
- `apps/main.cpp` (a driver with console I/O) and `tests/square_test.cpp`
  (an unrelated utility) are not part of this model.
- NfaMatch.Step: its own contract states only that the empty
  configuration stays empty. What a step does is stated through
  `StepPerNode`, `UnionClosuresIsSaturate` and the per-graph step lemmas.
- EpsilonClosure.Closure: its own contract states only that the node is a
  member. Closedness, leastness and reachability are the lemmas
  `ClosureClosed`, `ClosureLeast` and `ClosureIsReachability`.
