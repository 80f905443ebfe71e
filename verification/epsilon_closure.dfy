/** Epsilon-closure over a graph of NFA nodes addressed by id.

    `Closure` is the reference definition (the least epsilon-closed set
    containing a node); `EpsilonClosure` is the depth-first search with a
    visited set that the automaton engine runs, proved to compute it. */
module EpsilonClosure {
  import opened Wrappers
  import opened NfaNodes

  /** The nodes of a graph, by id. */
  type NodeMap<T(==,!new)> = map<nat, NfaNode<T>>

  /** Destinations of node `id` under `input`; an id without a node has none. */
  function Successors<T(==,!new)>(nodes: NodeMap<T>, id: nat, input: Option<T>): set<nat>
  {
    if id in nodes then nodes[id].Next(input) else {}
  }

  /** Every id that some epsilon edge of the graph leads to. */
  function EpsilonTargets<T(==,!new)>(nodes: NodeMap<T>): set<nat>
  {
    set id, y | id in nodes && y in Successors(nodes, id, None) :: y
  }

  /** The ids one epsilon edge away from some member of `s`. */
  function EpsilonImage<T(==,!new)>(nodes: NodeMap<T>, s: set<nat>): (r: set<nat>)
    ensures r <= EpsilonTargets(nodes)
  {
    set x, y | x in s && y in Successors(nodes, x, None) :: y
  }

  /** `s` contains the destination of every epsilon edge leaving it. */
  predicate Closed<T(==,!new)>(nodes: NodeMap<T>, s: set<nat>)
  {
    forall x | x in s :: Successors(nodes, x, None) <= s
  }

  lemma StrictSubsetCard(a: set<nat>, b: set<nat>)
    requires a < b
    ensures |a| < |b|
  {
    assert b == a + (b - a);
    assert a * (b - a) == {};
  }

  /** Grows `s` one epsilon step at a time until nothing new is added. */
  function Saturate<T(==,!new)>(nodes: NodeMap<T>, s: set<nat>): set<nat>
    decreases |EpsilonTargets(nodes) - s|
  {
    var grown := s + EpsilonImage(nodes, s);
    if grown <= s then s
    else
      StrictSubsetCard(EpsilonTargets(nodes) - grown, EpsilonTargets(nodes) - s);
      Saturate(nodes, grown)
  }

  /** `Saturate(nodes, s)` is the least epsilon-closed superset of `s`. */
  lemma {:induction false} SaturateIsLeastClosed<T(!new)>(nodes: NodeMap<T>, s: set<nat>)
    ensures s <= Saturate(nodes, s)
    ensures Closed(nodes, Saturate(nodes, s))
    ensures forall q :: s <= q && Closed(nodes, q) ==> Saturate(nodes, s) <= q
    decreases |EpsilonTargets(nodes) - s|
  {
    var grown := s + EpsilonImage(nodes, s);
    if !(grown <= s) {
      StrictSubsetCard(EpsilonTargets(nodes) - grown, EpsilonTargets(nodes) - s);
      SaturateIsLeastClosed(nodes, grown);
    }
  }

  /** The nodes reachable from `x` by zero or more epsilon edges. */
  function Closure<T(==,!new)>(nodes: NodeMap<T>, x: nat): (r: set<nat>)
    ensures x in r
  {
    SaturateIsLeastClosed(nodes, {x});
    Saturate(nodes, {x})
  }

  /** The closure is closed under epsilon edges. */
  lemma ClosureClosed<T(!new)>(nodes: NodeMap<T>, x: nat)
    ensures Closed(nodes, Closure(nodes, x))
  {
    SaturateIsLeastClosed(nodes, {x});
  }

  /** The closure is the least epsilon-closed set containing `x`. */
  lemma ClosureLeast<T(!new)>(nodes: NodeMap<T>, x: nat, q: set<nat>)
    requires x in q && Closed(nodes, q)
    ensures Closure(nodes, x) <= q
  {
    SaturateIsLeastClosed(nodes, {x});
  }

  /** The union of the closures of the members of `s`. */
  function UnionClosures<T(==,!new)>(nodes: NodeMap<T>, s: set<nat>): (r: set<nat>)
    ensures s <= r
  {
    assert forall z | z in s :: z in Closure(nodes, z);
    set x, y | x in s && y in Closure(nodes, x) :: y
  }

  /** Merging closures node by node, as the scan does: the merged closures
      of a union are the union of the merged closures of its parts, a
      single node contributes exactly its own closure, and the empty set
      contributes nothing. */
  lemma UnionClosuresPerNode<T(!new)>(nodes: NodeMap<T>, a: set<nat>, b: set<nat>, x: nat)
    ensures UnionClosures(nodes, a + b) == UnionClosures(nodes, a) + UnionClosures(nodes, b)
    ensures UnionClosures(nodes, {x}) == Closure(nodes, x)
    ensures UnionClosures(nodes, {}) == {}
  {
    UnionClosuresOfUnion(nodes, a, b);
    UnionClosuresOfSingleton(nodes, x);
  }

  /** Merging closures distributes over union. */
  lemma UnionClosuresOfUnion<T(!new)>(nodes: NodeMap<T>, a: set<nat>, b: set<nat>)
    ensures UnionClosures(nodes, a + b) == UnionClosures(nodes, a) + UnionClosures(nodes, b)
  {
    UnionClosuresMonotone(nodes, a, a + b);
    UnionClosuresMonotone(nodes, b, a + b);
    var u := UnionClosures(nodes, a + b);
    forall y | y in u
      ensures y in UnionClosures(nodes, a) || y in UnionClosures(nodes, b)
    {
      var z := UnionClosuresWitness(nodes, a + b, y);
      if z in a {
        UnionClosuresHas(nodes, a, z, y);
      } else {
        UnionClosuresHas(nodes, b, z, y);
      }
    }
  }

  /** A member of the merged closures comes from the closure of some node of the set. */
  lemma UnionClosuresWitness<T(!new)>(nodes: NodeMap<T>, s: set<nat>, y: nat) returns (z: nat)
    requires y in UnionClosures(nodes, s)
    ensures z in s && y in Closure(nodes, z)
  {
    z :| z in s && y in Closure(nodes, z);
  }

  /** The closure of each node of the set is merged in. */
  lemma UnionClosuresHas<T(!new)>(nodes: NodeMap<T>, s: set<nat>, z: nat, y: nat)
    requires z in s && y in Closure(nodes, z)
    ensures y in UnionClosures(nodes, s)
  {
  }

  /** A larger set has larger merged closures. */
  lemma UnionClosuresMonotone<T(!new)>(nodes: NodeMap<T>, s: set<nat>, t: set<nat>)
    requires s <= t
    ensures UnionClosures(nodes, s) <= UnionClosures(nodes, t)
  {
    forall y | y in UnionClosures(nodes, s)
      ensures y in UnionClosures(nodes, t)
    {
      var z :| z in s && y in Closure(nodes, z);
      UnionClosuresHas(nodes, t, z, y);
    }
  }

  /** A single node contributes exactly its own closure. */
  lemma UnionClosuresOfSingleton<T(!new)>(nodes: NodeMap<T>, x: nat)
    ensures UnionClosures(nodes, {x}) == Closure(nodes, x)
  {
    forall y | y in UnionClosures(nodes, {x})
      ensures y in Closure(nodes, x)
    {
      var z :| z in {x} && y in Closure(nodes, z);
    }
  }

  /** A closure contains the closure of each of its members. */
  lemma ClosureTransitive<T(!new)>(nodes: NodeMap<T>, x: nat, y: nat)
    requires y in Closure(nodes, x)
    ensures Closure(nodes, y) <= Closure(nodes, x)
  {
    ClosureClosed(nodes, x);
    ClosureLeast(nodes, y, Closure(nodes, x));
  }

  /** Idempotence: closing every member of a closure adds nothing. */
  lemma ClosureIdempotent<T(!new)>(nodes: NodeMap<T>, x: nat)
    ensures UnionClosures(nodes, Closure(nodes, x)) == Closure(nodes, x)
  {
    var c := Closure(nodes, x);
    forall y | y in UnionClosures(nodes, c)
      ensures y in c
    {
      var z :| z in c && y in Closure(nodes, z);
      ClosureTransitive(nodes, x, z);
    }
  }

  /** A node without epsilon edges is its own closure. */
  lemma ClosureOfSink<T(!new)>(nodes: NodeMap<T>, x: nat)
    requires Successors(nodes, x, None) == {}
    ensures Closure(nodes, x) == {x}
  {
    ClosureLeast(nodes, x, {x});
  }

  /** Two nodes whose epsilon edges stay among themselves, with an edge
      from `x` to `y`: the closure of `x` is exactly the pair. */
  lemma ClosureOfPair<T(!new)>(nodes: NodeMap<T>, x: nat, y: nat)
    requires y in Successors(nodes, x, None)
    requires Successors(nodes, x, None) <= {x, y} && Successors(nodes, y, None) <= {x, y}
    ensures Closure(nodes, x) == {x, y}
  {
    ClosureLeast(nodes, x, {x, y});
    ClosureClosed(nodes, x);
  }

  /** The union of the closures of the members of `s` is epsilon-closed. */
  lemma UnionClosuresClosed<T(!new)>(nodes: NodeMap<T>, s: set<nat>)
    ensures Closed(nodes, UnionClosures(nodes, s))
  {
    var u := UnionClosures(nodes, s);
    forall y | y in u
      ensures Successors(nodes, y, None) <= u
    {
      var x :| x in s && y in Closure(nodes, x);
      ClosureClosed(nodes, x);
    }
  }

  /** Closing each member separately and saturating the whole set agree:
      both are the least epsilon-closed superset of `s`. */
  lemma UnionClosuresIsSaturate<T(!new)>(nodes: NodeMap<T>, s: set<nat>)
    ensures UnionClosures(nodes, s) == Saturate(nodes, s)
  {
    var u, sat := UnionClosures(nodes, s), Saturate(nodes, s);
    SaturateIsLeastClosed(nodes, s);
    UnionClosuresClosed(nodes, s);
    forall x | x in s
      ensures Closure(nodes, x) <= sat
    {
      ClosureLeast(nodes, x, sat);
    }
  }

  /** Every epsilon successor of a member of a closed superset of `s` is in it. */
  lemma ImageInClosed<T(!new)>(nodes: NodeMap<T>, s: set<nat>, q: set<nat>)
    requires s <= q && Closed(nodes, q)
    ensures EpsilonImage(nodes, s) <= q
  {
  }

  /** The closure of a set that one round of epsilon edges already closes. */
  lemma UnionClosuresExact<T(!new)>(nodes: NodeMap<T>, s: set<nat>, q: set<nat>)
    requires s <= q && Closed(nodes, q)
    requires q <= s + EpsilonImage(nodes, s)
    ensures UnionClosures(nodes, s) == q
  {
    UnionClosuresIsSaturate(nodes, s);
    SaturateIsLeastClosed(nodes, s);
    ImageInClosed(nodes, s, Saturate(nodes, s));
  }

  /** `p` walks along epsilon edges only. */
  ghost predicate EpsilonPath<T(!new)>(nodes: NodeMap<T>, p: seq<nat>)
  {
    forall i | 0 <= i < |p| - 1 :: p[i + 1] in Successors(nodes, p[i], None)
  }

  /** Some epsilon path leads from `x` to `y`. */
  ghost predicate Reachable<T(!new)>(nodes: NodeMap<T>, x: nat, y: nat)
  {
    exists p :: EpsilonPath(nodes, p) && |p| > 0 && p[0] == x && p[|p| - 1] == y
  }

  /** Every epsilon path from `x` stays inside the closure of `x`. */
  lemma {:induction false} PathInClosure<T(!new)>(nodes: NodeMap<T>, x: nat, p: seq<nat>)
    requires EpsilonPath(nodes, p) && |p| > 0 && p[0] == x
    ensures p[|p| - 1] in Closure(nodes, x)
    decreases |p|
  {
    if |p| > 1 {
      var q := p[..|p| - 1];
      assert EpsilonPath(nodes, q);
      PathInClosure(nodes, x, q);
      ClosureClosed(nodes, x);
      assert p[|p| - 1] in Successors(nodes, q[|q| - 1], None);
    }
  }

  /** The closure holds exactly the nodes reachable by epsilon edges,
      never a node reached only through a symbol edge. */
  lemma ClosureIsReachability<T(!new)>(nodes: NodeMap<T>, x: nat, y: nat)
    ensures y in Closure(nodes, x) <==> Reachable(nodes, x, y)
  {
    if Reachable(nodes, x, y) {
      var p :| EpsilonPath(nodes, p) && |p| > 0 && p[0] == x && p[|p| - 1] == y;
      PathInClosure(nodes, x, p);
    }
    if y in Closure(nodes, x) {
      var c := Closure(nodes, x);
      ClosureClosed(nodes, x);
      var reached := set z | z in c && Reachable(nodes, x, z);
      assert EpsilonPath(nodes, [x]);
      assert x in reached;
      forall z | z in reached
        ensures Successors(nodes, z, None) <= reached
      {
        forall w | w in Successors(nodes, z, None)
          ensures w in reached
        {
          var p :| EpsilonPath(nodes, p) && |p| > 0 && p[0] == x && p[|p| - 1] == z;
          var p' := p + [w];
          assert EpsilonPath(nodes, p');
        }
      }
      ClosureLeast(nodes, x, reached);
    }
  }

  /** Depth-first search over epsilon edges. A node already in `visited`
      is not expanded again, which is what makes the search stop on
      cyclic epsilon graphs. Every node it adds is reachable from `x`,
      and every node it adds has all its epsilon successors in the result. */
  method VisitEpsilonClosure<T(==,!new)>(nodes: NodeMap<T>, x: nat, visited: set<nat>)
    returns (r: set<nat>)
    ensures visited <= r
    ensures x in r
    ensures r - visited <= Closure(nodes, x)
    ensures forall y | y in r - visited :: Successors(nodes, y, None) <= r
    decreases |EpsilonTargets(nodes) + {x} - visited|
  {
    if x in visited {
      return visited;
    }
    r := visited + {x};
    var toVisit := Successors(nodes, x, None);
    var pending := toVisit;
    ClosureClosed(nodes, x);
    while pending != {}
      invariant pending <= toVisit
      invariant visited + {x} <= r
      invariant r - visited <= Closure(nodes, x)
      invariant toVisit - pending <= r
      invariant forall y | y in r - visited - {x} :: Successors(nodes, y, None) <= r
      decreases |pending|
    {
      var v :| v in pending;
      pending := pending - {v};
      assert v in EpsilonTargets(nodes);
      StrictSubsetCard(EpsilonTargets(nodes) + {v} - r, EpsilonTargets(nodes) + {x} - visited);
      ClosureTransitive(nodes, x, v);
      r := VisitEpsilonClosure(nodes, v, r);
    }
  }

  /** The epsilon-closure of node `x`, computed by the depth-first search. */
  method EpsilonClosure<T(==,!new)>(nodes: NodeMap<T>, x: nat) returns (r: set<nat>)
    ensures r == Closure(nodes, x)
  {
    r := VisitEpsilonClosure(nodes, x, {});
    assert Closed(nodes, r);
    ClosureLeast(nodes, x, r);
  }

  /** The cyclic example a -> a, a -> b, b -> c, c -> a over epsilon plus
      b --'d'--> d: the closure of a is {a, b, c}, and d is left out. */
  lemma ClosureExample()
    ensures
      var a := NewNode<char>(0).AddConnection(None, 0).AddConnection(None, 1);
      var b := NewNode<char>(1).AddConnection(None, 2).AddConnection(Some('d'), 3);
      var c := NewNode<char>(2).AddConnection(None, 0);
      var d := NewNode<char>(3);
      Closure(map[0 := a, 1 := b, 2 := c, 3 := d], 0) == {0, 1, 2}
  {
    var a := NewNode<char>(0).AddConnection(None, 0).AddConnection(None, 1);
    var b := NewNode<char>(1).AddConnection(None, 2).AddConnection(Some('d'), 3);
    var c := NewNode<char>(2).AddConnection(None, 0);
    var d := NewNode<char>(3);
    var nodes := map[0 := a, 1 := b, 2 := c, 3 := d];
    assert Successors(nodes, 0, None) == {0, 1};
    assert Successors(nodes, 1, None) == {2};
    assert Successors(nodes, 2, None) == {0};
    assert Closed(nodes, {0, 1, 2});
    ClosureLeast(nodes, 0, {0, 1, 2});
    ClosureClosed(nodes, 0);
    var cl := Closure(nodes, 0);
    assert 1 in cl;
    assert 2 in cl;
  }
}
