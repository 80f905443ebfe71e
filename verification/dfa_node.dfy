/** A DFA node: the set of NFA ids it stands for and at most one
    successor per symbol. Successors are node indices of the owning DFA. */
module DfaNodes {
  import opened Wrappers

  /** `nfaStates` is fixed when the node is made; `connections` maps a
      symbol to the index of its single successor. */
  datatype DfaNode<T(==,!new), I(==)> = DfaNode(nfaStates: set<I>, connections: map<T, nat>)
  {
    /** Whether the node stands for the NFA id `nfaState`. */
    predicate Contains(nfaState: I)
    {
      nfaState in nfaStates
    }

    /** The successor under `input`, or `None` when no edge was added for it. */
    function Next(input: T): (r: Option<nat>)
      ensures r.None? <==> input !in connections
      ensures r.Some? ==> r.value == connections[input]
    {
      if input in connections then Some(connections[input]) else None
    }

    /** Adds the edge `input --> destination`. A symbol that already has an
        edge keeps it, and the call fails. */
    function AddConnection(input: T, destination: nat): (r: Result<DfaNode<T, I>>)
      ensures r.Failure? <==> Next(input).Some?
      ensures r.Failure? ==> r.error == "Edge already exists!"
      ensures r.Success? ==> r.value.nfaStates == nfaStates
      ensures r.Success? ==> r.value.Next(input) == Some(destination)
      ensures r.Success? ==> forall other :: other != input ==> r.value.Next(other) == Next(other)
    {
      if input in connections then Failure("Edge already exists!")
      else Success(DfaNode(nfaStates, connections[input := destination]))
    }
  }

  /** A node standing for `nfaStates`, with no edges. */
  function NewDfaNode<T(==,!new), I(==)>(nfaStates: set<I>): (r: DfaNode<T, I>)
    ensures r.nfaStates == nfaStates
    ensures forall input :: r.Next(input) == None
  {
    DfaNode(nfaStates, map[])
  }

  /** Adding a second edge for a symbol fails and the first edge stays:
      every symbol has at most one successor. */
  lemma AddConnectionNeverOverwrites<T(!new), I>(n: DfaNode<T, I>, input: T, first: nat, second: nat)
    requires n.AddConnection(input, first).Success?
    ensures n.AddConnection(input, first).value.AddConnection(input, second).Failure?
    ensures n.AddConnection(input, first).value.Next(input) == Some(first)
  {
  }

  /** Edges for two different symbols can be added in either order. */
  lemma AddConnectionCommutes<T(!new), I>(n: DfaNode<T, I>, t1: T, d1: nat, t2: T, d2: nat)
    requires t1 != t2
    requires n.Next(t1).None? && n.Next(t2).None?
    ensures n.AddConnection(t1, d1).value.AddConnection(t2, d2)
         == n.AddConnection(t2, d2).value.AddConnection(t1, d1)
  {
    var a := n.AddConnection(t1, d1).value.AddConnection(t2, d2).value;
    var b := n.AddConnection(t2, d2).value.AddConnection(t1, d1).value;
    assert a.connections == b.connections;
  }

  /** The NFA ids a node stands for never change: whatever edges are added,
      `Contains` answers as it did when the node was made. */
  lemma NfaStatesFixed<T(!new), I>(nfaStates: set<I>, edges: seq<(T, nat)>, i: I)
    ensures AddConnections(NewDfaNode(nfaStates), edges).Success? ==>
              AddConnections(NewDfaNode(nfaStates), edges).value.Contains(i) == (i in nfaStates)
  {
    AddConnectionsKeepsStates(NewDfaNode(nfaStates), edges);
  }

  /** Adds `edges` in order, stopping at the first failure. */
  function AddConnections<T(==,!new), I(==)>(n: DfaNode<T, I>, edges: seq<(T, nat)>): (r: Result<DfaNode<T, I>>)
    decreases |edges|
  {
    if |edges| == 0 then Success(n)
    else
      match n.AddConnection(edges[0].0, edges[0].1)
      case Failure(e) => Failure(e)
      case Success(next) => AddConnections(next, edges[1..])
  }

  /** Every successful sequence of additions keeps the node's NFA ids. */
  lemma {:induction false} AddConnectionsKeepsStates<T(!new), I>(n: DfaNode<T, I>, edges: seq<(T, nat)>)
    ensures AddConnections(n, edges).Success? ==> AddConnections(n, edges).value.nfaStates == n.nfaStates
    decreases |edges|
  {
    if |edges| > 0 && n.AddConnection(edges[0].0, edges[0].1).Success? {
      AddConnectionsKeepsStates(n.AddConnection(edges[0].0, edges[0].1).value, edges[1..]);
    }
  }

  /** `AddConnections` succeeds exactly when every symbol it adds is new
      to the node and occurs once in `edges`; otherwise it fails with the
      duplicate-edge error. */
  lemma {:induction false} AddConnectionsSucceeds<T(!new), I>(n: DfaNode<T, I>, edges: seq<(T, nat)>)
    ensures AddConnections(n, edges).Success? <==>
              && (forall i | 0 <= i < |edges| :: n.Next(edges[i].0).None?)
              && (forall i, j | 0 <= i < j < |edges| :: edges[i].0 != edges[j].0)
    ensures AddConnections(n, edges).Failure? ==> AddConnections(n, edges).error == "Edge already exists!"
    decreases |edges|
  {
    if |edges| > 0 {
      var first := n.AddConnection(edges[0].0, edges[0].1);
      if first.Success? {
        var rest := edges[1..];
        AddConnectionsSucceeds(first.value, rest);
        assert forall i | 0 <= i < |rest| :: rest[i] == edges[i + 1];
        assert forall i | 0 < i < |edges| :: edges[i] == rest[i - 1];
      }
    }
  }

  /** Additions that never name `t` leave its edge alone, and so do
      successful additions once `t` already has an edge. */
  lemma {:induction false} NextAfterAddsKeeps<T(!new), I>(n: DfaNode<T, I>, edges: seq<(T, nat)>, t: T)
    requires AddConnections(n, edges).Success?
    requires n.Next(t).Some? || forall i | 0 <= i < |edges| :: edges[i].0 != t
    ensures AddConnections(n, edges).value.Next(t) == n.Next(t)
    decreases |edges|
  {
    if |edges| > 0 {
      var first := n.AddConnection(edges[0].0, edges[0].1).value;
      assert edges[0].0 != t;
      assert forall i | 0 <= i < |edges[1..]| :: edges[1..][i] == edges[i + 1];
      NextAfterAddsKeeps(first, edges[1..], t);
    }
  }

  /** What `next` answers after a successful sequence of additions: `None`
      exactly when the node had no edge for `t` and no addition named `t`,
      and otherwise the destination the addition for `t` gave. */
  lemma {:induction false} NextAfterAdds<T(!new), I>(n: DfaNode<T, I>, edges: seq<(T, nat)>, t: T)
    requires AddConnections(n, edges).Success?
    ensures AddConnections(n, edges).value.Next(t).None? <==>
              n.Next(t).None? && forall i | 0 <= i < |edges| :: edges[i].0 != t
    ensures forall i | 0 <= i < |edges| && edges[i].0 == t ::
              AddConnections(n, edges).value.Next(t) == Some(edges[i].1)
    decreases |edges|
  {
    if n.Next(t).Some? || forall i | 0 <= i < |edges| :: edges[i].0 != t {
      NextAfterAddsKeeps(n, edges, t);
    }
    if |edges| > 0 {
      var first := n.AddConnection(edges[0].0, edges[0].1).value;
      var rest := edges[1..];
      assert forall i | 0 <= i < |rest| :: rest[i] == edges[i + 1];
      assert forall i | 0 < i < |edges| :: edges[i] == rest[i - 1];
      NextAfterAdds(first, rest, t);
      if edges[0].0 == t {
        NextAfterAddsKeeps(first, rest, t);
      }
    }
  }
}
