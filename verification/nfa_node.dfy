/** An NFA node: its id and, for each label, the set of destination ids. */
module NfaNodes {
  import opened Wrappers

  /** `connections` maps an input (a label) to the ids of the nodes it leads to.
      The label `None` stands for an epsilon edge. */
  datatype NfaNode<T(==,!new)> = NfaNode(id: nat, connections: map<Option<T>, set<nat>>)
  {
    /** The destinations reached from this node under `input`
        (empty for a label that was never connected). */
    function Next(input: Option<T>): set<nat>
    {
      if input in connections then connections[input] else {}
    }

    /** Records one more destination under `input`. */
    function AddConnection(input: Option<T>, destination: nat): (r: NfaNode<T>)
      ensures r.id == id
      ensures destination in r.Next(input)
      ensures r.Next(input) == Next(input) + {destination}
      ensures forall other :: other != input ==> r.Next(other) == Next(other)
    {
      NfaNode(id, connections[input := Next(input) + {destination}])
    }
  }

  /** A node with the given id and no outgoing edges. */
  function NewNode<T(==,!new)>(id: nat): (r: NfaNode<T>)
    ensures r.id == id
    ensures forall input :: r.Next(input) == {}
  {
    NfaNode(id, map[])
  }

  /** Adding the same edge twice is the same as adding it once. */
  lemma AddConnectionIdempotent<T(!new)>(n: NfaNode<T>, input: Option<T>, destination: nat)
    ensures n.AddConnection(input, destination).AddConnection(input, destination)
         == n.AddConnection(input, destination)
  {
    var once := n.AddConnection(input, destination);
    assert once.Next(input) + {destination} == once.Next(input);
  }

  /** The order in which edges are added does not matter. */
  lemma AddConnectionCommutes<T(!new)>(n: NfaNode<T>, l1: Option<T>, d1: nat, l2: Option<T>, d2: nat)
    ensures n.AddConnection(l1, d1).AddConnection(l2, d2)
         == n.AddConnection(l2, d2).AddConnection(l1, d1)
  {
    var a := n.AddConnection(l1, d1).AddConnection(l2, d2);
    var b := n.AddConnection(l2, d2).AddConnection(l1, d1);
    forall l | true
      ensures a.Next(l) == b.Next(l)
    {
    }
    assert a.connections.Keys == b.connections.Keys;
    assert forall l | l in a.connections :: a.connections[l] == a.Next(l);
    assert forall l | l in b.connections :: b.connections[l] == b.Next(l);
  }

  /** Adds `edges` in order. */
  function AddConnections<T(==,!new)>(n: NfaNode<T>, edges: seq<(Option<T>, nat)>): NfaNode<T>
    decreases |edges|
  {
    if |edges| == 0 then n
    else AddConnections(n.AddConnection(edges[0].0, edges[0].1), edges[1..])
  }

  /** After any sequence of additions, `next(input)` is what the node had
      under `input` plus the destination of every addition labelled
      `input`, and nothing else; the id is unchanged. */
  lemma {:induction false} NextCollectsEdges<T(!new)>(n: NfaNode<T>, edges: seq<(Option<T>, nat)>, input: Option<T>)
    ensures AddConnections(n, edges).id == n.id
    ensures AddConnections(n, edges).Next(input)
         == n.Next(input) + set i | 0 <= i < |edges| && edges[i].0 == input :: edges[i].1
    decreases |edges|
  {
    if |edges| > 0 {
      var first := n.AddConnection(edges[0].0, edges[0].1);
      var rest := edges[1..];
      NextCollectsEdges(first, rest, input);
      var added := set i | 0 <= i < |edges| && edges[i].0 == input :: edges[i].1;
      var later := set i | 0 <= i < |rest| && rest[i].0 == input :: rest[i].1;
      forall y
        ensures y in added <==> y in later || (edges[0].0 == input && y == edges[0].1)
      {
        if y in later {
          var i :| 0 <= i < |rest| && rest[i].0 == input && rest[i].1 == y;
          assert edges[i + 1] == rest[i];
        }
        if y in added {
          var i :| 0 <= i < |edges| && edges[i].0 == input && edges[i].1 == y;
          if i > 0 {
            assert rest[i - 1] == edges[i];
          }
        }
      }
    }
  }

  /** Two symbol edges and one epsilon edge out of node 0: the symbol
      input keeps both destinations and epsilon is kept apart from it. */
  lemma CreateNodeExample()
    ensures var a := NewNode<char>(0).AddConnection(Some('a'), 1)
                                     .AddConnection(Some('a'), 0)
                                     .AddConnection(None, 1);
            && a.id == 0
            && a.Next(Some('a')) == {0, 1}
            && a.Next(None) == {1}
            && a.Next(Some('b')) == {}
  {
    var a0 := NewNode<char>(0);
    var a1 := a0.AddConnection(Some('a'), 1);
    var a2 := a1.AddConnection(Some('a'), 0);
    var a3 := a2.AddConnection(None, 1);
    assert a3.Next(Some('a')) == a2.Next(Some('a')) == {1} + {0};
    assert a3.Next(None) == {} + {1};
  }
}
