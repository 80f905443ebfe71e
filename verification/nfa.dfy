/** The NFA graph and the combinators that build it.

    A graph owns a map from id to node and names a start and an end
    (accepting) node. Fresh ids come from an explicit counter that the
    constructors take and return, standing in for the process-wide
    counter of the engine. */
module Nfas {
  import opened Wrappers
  import opened NfaNodes
  import opened EpsilonClosure

  datatype Nfa<T(==,!new)> = Nfa(nodes: NodeMap<T>, start: nat, end: nat)
  {
    /** What every graph the engine hands out satisfies: start and end are
        members, each node sits under its own id, and every edge leads to
        a member. */
    ghost predicate Valid()
    {
      && start in nodes
      && end in nodes
      && (forall id | id in nodes :: nodes[id].id == id)
      && (forall id, input :: Successors(nodes, id, input) <= nodes.Keys)
    }
  }

  /** A freshly built graph together with the id counter after building it. */
  datatype Built<T(==,!new)> = Built(nfa: Nfa<T>, nextId: nat)

  /** All node ids of `g` lie in `[lo, hi)`. */
  predicate IdsWithin<T(==,!new)>(g: Nfa<T>, lo: nat, hi: nat)
  {
    forall id | id in g.nodes :: lo <= id < hi
  }

  /** Moves every node of `second` into `first`. Like `emplace`, an id that
      `first` already holds keeps `first`'s node. */
  function Merge<T(==,!new)>(first: NodeMap<T>, second: NodeMap<T>): (r: NodeMap<T>)
    ensures r.Keys == first.Keys + second.Keys
    ensures forall id | id in first :: r[id] == first[id]
    ensures forall id | id in second && id !in first :: r[id] == second[id]
    ensures forall id, input ::
      Successors(r, id, input) == Successors(if id in first then first else second, id, input)
  {
    second + first
  }

  /** On disjoint ids no node of either operand is lost. */
  lemma MergeDisjoint<T(!new)>(first: NodeMap<T>, second: NodeMap<T>)
    requires first.Keys !! second.Keys
    ensures forall id, input ::
      Successors(Merge(first, second), id, input)
        == Successors(first, id, input) + Successors(second, id, input)
  {
  }

  /** On a colliding id the second operand's node is dropped. */
  lemma MergeDropsCollision<T(!new)>(first: NodeMap<T>, second: NodeMap<T>, id: nat)
    requires id in first && id in second && first[id] != second[id]
    ensures Merge(first, second)[id] != second[id]
  {
  }

  /** Adds the edge `from --input--> to` to the node stored under `from`. */
  function AddEdge<T(==,!new)>(nodes: NodeMap<T>, from: nat, input: Option<T>, to: nat): (r: NodeMap<T>)
    requires from in nodes
    ensures r.Keys == nodes.Keys
    ensures forall id | id in r :: r[id].id == nodes[id].id
    ensures forall id, other ::
      Successors(r, id, other)
        == Successors(nodes, id, other) + (if id == from && other == input then {to} else {})
  {
    nodes[from := nodes[from].AddConnection(input, to)]
  }

  /** Sequencing: run `first`, then `second`. The only new edge is an epsilon
      edge from `first`'s end to `second`'s start; no node is created. */
  function Concat<T(==,!new)>(first: Nfa<T>, second: Nfa<T>): (r: Nfa<T>)
    requires first.Valid() && second.Valid()
    ensures r.Valid()
    ensures r.start == first.start && r.end == second.end
    ensures r.nodes.Keys == first.nodes.Keys + second.nodes.Keys
    ensures forall id, input ::
      Successors(r.nodes, id, input)
        == Successors(if id in first.nodes then first.nodes else second.nodes, id, input)
           + (if id == first.end && input.None? then {second.start} else {})
  {
    var nodes := AddEdge(Merge(first.nodes, second.nodes), first.end, None, second.start);
    Nfa(nodes, first.start, second.end)
  }

  /** Alternation: epsilon edges from `left`'s start to `right`'s start and
      from `right`'s end to `left`'s end; start and end stay `left`'s. */
  function Either<T(==,!new)>(left: Nfa<T>, right: Nfa<T>): (r: Nfa<T>)
    requires left.Valid() && right.Valid()
    ensures r.Valid()
    ensures r.start == left.start && r.end == left.end
    ensures r.nodes.Keys == left.nodes.Keys + right.nodes.Keys
    ensures forall id, input ::
      Successors(r.nodes, id, input)
        == Successors(if id in left.nodes then left.nodes else right.nodes, id, input)
           + (if id == left.start && input.None? then {right.start} else {})
           + (if id == right.end && input.None? then {left.end} else {})
  {
    var merged := Merge(left.nodes, right.nodes);
    var inner := AddEdge(merged, left.start, None, right.start);
    assert forall id, input :: Successors(inner, id, input) <= merged.Keys;
    var nodes := AddEdge(inner, right.end, None, left.end);
    assert forall id, input :: Successors(nodes, id, input) <= merged.Keys;
    Nfa(nodes, left.start, left.end)
  }

  /** On operands with disjoint ids, `Concat` keeps every edge of both and
      adds exactly the epsilon edge joining them. */
  lemma ConcatDisjoint<T(!new)>(first: Nfa<T>, second: Nfa<T>)
    requires first.Valid() && second.Valid()
    requires first.nodes.Keys !! second.nodes.Keys
    ensures forall id, input ::
      Successors(Concat(first, second).nodes, id, input)
        == Successors(first.nodes, id, input) + Successors(second.nodes, id, input)
           + (if id == first.end && input.None? then {second.start} else {})
  {
  }

  /** On operands with disjoint ids, `Either` keeps every edge of both and
      adds exactly the two epsilon edges around `right`. */
  lemma EitherDisjoint<T(!new)>(left: Nfa<T>, right: Nfa<T>)
    requires left.Valid() && right.Valid()
    requires left.nodes.Keys !! right.nodes.Keys
    ensures forall id, input ::
      Successors(Either(left, right).nodes, id, input)
        == Successors(left.nodes, id, input) + Successors(right.nodes, id, input)
           + (if id == left.start && input.None? then {right.start} else {})
           + (if id == right.end && input.None? then {left.end} else {})
  {
  }

  /** Repetition: an epsilon edge from start to end (skip) and one from
      end to start (repeat); nothing else changes. */
  function ZeroOrMore<T(==,!new)>(g: Nfa<T>): (r: Nfa<T>)
    requires g.Valid()
    ensures r.Valid()
    ensures r.start == g.start && r.end == g.end
    ensures r.nodes.Keys == g.nodes.Keys
    ensures forall id, input ::
      Successors(r.nodes, id, input)
        == Successors(g.nodes, id, input)
           + (if id == g.start && input.None? then {g.end} else {})
           + (if id == g.end && input.None? then {g.start} else {})
  {
    var nodes := AddEdge(AddEdge(g.nodes, g.start, None, g.end), g.end, None, g.start);
    Nfa(nodes, g.start, g.end)
  }

  /** One fresh node that is both start and end, with no edges. */
  function Epsilon<T(==,!new)>(nextId: nat): (r: Built<T>)
    ensures r.nfa.Valid()
    ensures r.nfa.start == r.nfa.end == nextId
    ensures r.nfa.nodes.Keys == {nextId}
    ensures r.nextId == nextId + 1
    ensures forall id, input :: Successors(r.nfa.nodes, id, input) == {}
  {
    Built(Nfa(map[nextId := NewNode(nextId)], nextId, nextId), nextId + 1)
  }

  /** Two fresh nodes joined by a single edge labelled `accept`. */
  function Match<T(==,!new)>(accept: T, nextId: nat): (r: Built<T>)
    ensures r.nfa.Valid()
    ensures r.nfa.start == nextId && r.nfa.end == nextId + 1
    ensures r.nfa.nodes.Keys == {nextId, nextId + 1}
    ensures r.nextId == nextId + 2
    ensures forall id, input ::
      Successors(r.nfa.nodes, id, input)
        == if id == nextId && input == Some(accept) then {nextId + 1} else {}
  {
    var s := NewNode<T>(nextId).AddConnection(Some(accept), nextId + 1);
    var e := NewNode<T>(nextId + 1);
    Built(Nfa(map[nextId := s, nextId + 1 := e], nextId, nextId + 1), nextId + 2)
  }

  /** Two fresh nodes joined by one edge for each symbol of `acceptAny`. */
  function MatchAny<T(==,!new)>(acceptAny: set<T>, nextId: nat): (r: Built<T>)
    ensures r.nfa.Valid()
    ensures r.nfa.start == nextId && r.nfa.end == nextId + 1
    ensures r.nfa.nodes.Keys == {nextId, nextId + 1}
    ensures r.nextId == nextId + 2
    ensures forall id, input ::
      Successors(r.nfa.nodes, id, input)
        == if id == nextId && input.Some? && input.value in acceptAny then {nextId + 1} else {}
  {
    var s := NfaNode(nextId, map a | a in acceptAny :: Some(a) := {nextId + 1});
    var e := NewNode<T>(nextId + 1);
    Built(Nfa(map[nextId := s, nextId + 1 := e], nextId, nextId + 1), nextId + 2)
  }

  /** `match(a)` is `matchAny` of the one-symbol set `{a}`. */
  lemma MatchIsMatchAnySingleton<T(!new)>(accept: T, nextId: nat)
    ensures Match(accept, nextId) == MatchAny({accept}, nextId)
  {
    var m := Match(accept, nextId);
    var n := MatchAny({accept}, nextId);
    var mc := m.nfa.nodes[nextId].connections;
    var nc := n.nfa.nodes[nextId].connections;
    assert Some(accept) in nc;
    assert nc.Keys == {Some(accept)};
    assert mc.Keys == {Some(accept)};
    assert mc[Some(accept)] == nc[Some(accept)];
    assert mc == nc;
  }

  /** Graphs built one after another from the same counter have disjoint
      ids, so combining them loses no node. */
  lemma SequentialBuildsDisjoint<T(!new)>(a: Built<T>, b: Built<T>, lo: nat)
    requires IdsWithin(a.nfa, lo, a.nextId)
    requires IdsWithin(b.nfa, a.nextId, b.nextId)
    ensures a.nfa.nodes.Keys !! b.nfa.nodes.Keys
    ensures forall id, input ::
      Successors(Merge(a.nfa.nodes, b.nfa.nodes), id, input)
        == Successors(a.nfa.nodes, id, input) + Successors(b.nfa.nodes, id, input)
  {
    MergeDisjoint(a.nfa.nodes, b.nfa.nodes);
  }
}
