/** The graph store: nodes indexed by identity, the adjacency map that
    mirrors every node's neighbour list, and the colouring failure counter (`backtrackCount`). */
module Graphs {
  import opened Palette

  /** A node: its identity, its colour slot and its neighbours in
      edge-creation order (parallel edges repeat a neighbour). The on-screen
      position belongs to the interaction shell and is not modelled. */
  datatype Node = Node(id: int, colour: int, neighbours: seq<int>)

  /** The whole engine state. `failures` is the process-wide count of
      endpoints that found no available colour (backtrackCount). */
  datatype Graph = Graph(nodes: seq<Node>, adjacency: map<int, seq<int>>, failures: nat)

  /** The graph at start-up. */
  const Empty: Graph := Graph([], map[], 0)

  predicate IsNode(g: Graph, x: int) {
    0 <= x < |g.nodes|
  }

  /** The identities of all nodes, in storage order. */
  function Ids(ns: seq<Node>): (ids: seq<int>)
    ensures |ids| == |ns|
  {
    seq(|ns|, i requires 0 <= i < |ns| => ns[i].id)
  }

  /** The neighbour lists of all nodes, indexed by identity. */
  function Links(ns: seq<Node>): (ls: seq<seq<int>>)
    ensures |ls| == |ns|
  {
    seq(|ns|, i requires 0 <= i < |ns| => ns[i].neighbours)
  }

  /** The entry of x in an adjacency map; a missing key reads as an empty list. */
  function Entry(adj: map<int, seq<int>>, x: int): seq<int> {
    if x in adj then adj[x] else []
  }

  /** How many times x occurs in s. */
  function Multiplicity(s: seq<int>, x: int): nat {
    multiset(s)[x]
  }

  /** Identities are 0, 1, 2, ... in creation order. */
  predicate IdsContiguous(ns: seq<Node>) {
    Ids(ns) == seq(|ns|, i => i)
  }

  /** Every colour slot is the sentinel or a palette index. */
  predicate SlotsValid(ns: seq<Node>) {
    forall i :: 0 <= i < |ns| ==> IsSlot(ns[i].colour)
  }

  /** Every list only names one of the n nodes. */
  predicate LinksWithin(ls: seq<seq<int>>, n: int) {
    forall i, v :: 0 <= i < |ls| && v in ls[i] ==> 0 <= v < n
  }

  /** Every neighbour list only names existing nodes. */
  predicate WellLinked(ns: seq<Node>) {
    LinksWithin(Links(ns), |ns|)
  }

  /** The adjacency map has a key only for nodes, and every node's entry
      (missing counts as empty) equals its neighbour list. */
  predicate Mirrors(adj: map<int, seq<int>>, ls: seq<seq<int>>) {
    && (forall x :: x in adj ==> 0 <= x < |ls|)
    && (forall i :: 0 <= i < |ls| ==> Entry(adj, i) == ls[i])
  }

  /** j occurs in i's list exactly as often as i occurs in j's list. */
  predicate SymmetricLinks(ls: seq<seq<int>>) {
    forall i, j :: 0 <= i < |ls| && 0 <= j < |ls| ==> Multiplicity(ls[i], j) == Multiplicity(ls[j], i)
  }

  /** The invariant every reachable engine state satisfies. */
  predicate Valid(g: Graph) {
    && IdsContiguous(g.nodes)
    && SlotsValid(g.nodes)
    && WellLinked(g.nodes)
    && Mirrors(g.adjacency, Links(g.nodes))
    && SymmetricLinks(Links(g.nodes))
  }

  lemma EmptyValid()
    ensures Valid(Empty)
  {
  }

  /** A neighbour of a node in a well-linked store is a node. */
  lemma NeighbourIsNode(ns: seq<Node>, n: int, v: int)
    requires WellLinked(ns) && 0 <= n < |ns| && v in ns[n].neighbours
    ensures 0 <= v < |ns|
  {
    assert v in Links(ns)[n];
  }

  /** Two states that differ at most in colour slots and the failure counter. */
  predicate SameLinks(g: Graph, g': Graph) {
    && |g'.nodes| == |g.nodes|
    && Ids(g'.nodes) == Ids(g.nodes)
    && Links(g'.nodes) == Links(g.nodes)
    && g'.adjacency == g.adjacency
  }

  /** Only the colour slots can break the invariant of a state with the same links. */
  lemma SameLinksKeepsValid(g: Graph, g': Graph)
    requires Valid(g) && SameLinks(g, g') && SlotsValid(g'.nodes)
    ensures Valid(g')
  {
  }

  /** agregarNodo: append an uncoloured node without neighbours; its identity
      is the previous node count. */
  function AddNode(g: Graph): (g': Graph)
    ensures |g'.nodes| == |g.nodes| + 1
    ensures g'.nodes[|g.nodes|] == Node(|g.nodes|, Uncoloured, [])
    ensures forall i :: 0 <= i < |g.nodes| ==> g'.nodes[i] == g.nodes[i]
    ensures g'.adjacency == g.adjacency && g'.failures == g.failures
  {
    g.(nodes := g.nodes + [Node(|g.nodes|, Uncoloured, [])])
  }

  /** Adding a node keeps the invariant; in particular node i has identity i. */
  lemma AddNodeKeepsValid(g: Graph)
    requires Valid(g)
    ensures Valid(AddNode(g))
    ensures forall i :: 0 <= i < |AddNode(g).nodes| ==> AddNode(g).nodes[i].id == i
  {
    var g' := AddNode(g);
    var n := |g.nodes|;
    var ls, ls' := Links(g.nodes), Links(g'.nodes);
    assert ls' == ls + [[]];
    assert Ids(g'.nodes) == Ids(g.nodes) + [n];
    forall i | 0 <= i < n
      ensures Multiplicity(ls'[i], n) == 0
    {
      assert n !in ls[i];
    }
    assert n !in g.adjacency;
    forall i | 0 <= i < |g'.nodes|
      ensures g'.nodes[i].id == i
    {
      assert Ids(g'.nodes)[i] == i;
    }
  }

  /** Count one more colouring failure (`backtrackCount`); nothing else changes. */
  function CountFailure(g: Graph): (g': Graph)
    ensures SameLinks(g, g') && g'.nodes == g.nodes
    ensures g'.failures == g.failures + 1
  {
    g.(failures := g.failures + 1)
  }

  /** Store colour c in x's slot. */
  function SetColour(g: Graph, x: int, c: int): (g': Graph)
    requires IsNode(g, x)
    ensures SameLinks(g, g') && g'.failures == g.failures
    ensures g'.nodes[x].colour == c
    ensures forall i :: 0 <= i < |g.nodes| && i != x ==> g'.nodes[i] == g.nodes[i]
  {
    var g' := g.(nodes := g.nodes[x := g.nodes[x].(colour := c)]);
    assert Links(g'.nodes) == Links(g.nodes);
    assert Ids(g'.nodes) == Ids(g.nodes);
    g'
  }

  /** A neighbour list after the edge a-b is recorded: node i gains b when it
      is a, and then gains a when it is b. */
  function Grown(s: seq<int>, i: int, a: int, b: int): seq<int> {
    s + (if i == a then [b] else []) + (if i == b then [a] else [])
  }

  lemma GrownMultiplicity(s: seq<int>, i: int, a: int, b: int, j: int)
    ensures Multiplicity(Grown(s, i, a, b), j)
         == Multiplicity(s, j) + (if i == a && j == b then 1 else 0) + (if i == b && j == a then 1 else 0)
  {
    assert multiset(Grown(s, i, a, b))
        == multiset(s) + multiset(if i == a then [b] else []) + multiset(if i == b then [a] else []);
  }

  /** Every list grown by the edge a-b. */
  function GrownLinks(ls: seq<seq<int>>, a: int, b: int): (ls': seq<seq<int>>)
    ensures |ls'| == |ls|
  {
    seq(|ls|, i requires 0 <= i < |ls| => Grown(ls[i], i, a, b))
  }

  /** Record the edge a-b: b is appended to a's list and a to b's, both in the
      nodes and in the adjacency map (whose missing entries start empty). */
  function Link(g: Graph, a: int, b: int): (g': Graph)
    requires IsNode(g, a) && IsNode(g, b)
    ensures |g'.nodes| == |g.nodes| && g'.failures == g.failures
    ensures Ids(g'.nodes) == Ids(g.nodes)
    ensures Links(g'.nodes) == GrownLinks(Links(g.nodes), a, b)
    ensures forall i :: 0 <= i < |g.nodes| ==> g'.nodes[i].colour == g.nodes[i].colour
    ensures g'.adjacency.Keys == g.adjacency.Keys + {a, b}
    ensures forall i :: Entry(g'.adjacency, i) == Grown(Entry(g.adjacency, i), i, a, b)
  {
    var nodes' := seq(|g.nodes|, i requires 0 <= i < |g.nodes| =>
      g.nodes[i].(neighbours := Grown(g.nodes[i].neighbours, i, a, b)));
    var adj1 := g.adjacency[a := Entry(g.adjacency, a) + [b]];
    var adj2 := adj1[b := Entry(adj1, b) + [a]];
    assert Links(nodes') == GrownLinks(Links(g.nodes), a, b);
    assert Ids(nodes') == Ids(g.nodes);
    Graph(nodes', adj2, g.failures)
  }

  /** Node by node, lists grown by the edge a-b: each endpoint gains the other
      (a self-loop gains the node twice) and every other list is unchanged. */
  lemma GrownNeighbours(ns: seq<Node>, ns': seq<Node>, a: int, b: int)
    requires |ns'| == |ns| && 0 <= a < |ns| && 0 <= b < |ns|
    requires Links(ns') == GrownLinks(Links(ns), a, b)
    ensures forall i :: 0 <= i < |ns| ==> ns'[i].neighbours == Grown(ns[i].neighbours, i, a, b)
    ensures a != b ==> ns'[a].neighbours == ns[a].neighbours + [b] && ns'[b].neighbours == ns[b].neighbours + [a]
    ensures a == b ==> ns'[a].neighbours == ns[a].neighbours + [a, a]
  {
    forall i | 0 <= i < |ns|
      ensures ns'[i].neighbours == Grown(ns[i].neighbours, i, a, b)
    {
      assert ns'[i].neighbours == Links(ns')[i];
      assert ns[i].neighbours == Links(ns)[i];
    }
    assert ns'[a].neighbours == Grown(ns[a].neighbours, a, a, b);
    assert ns'[b].neighbours == Grown(ns[b].neighbours, b, a, b);
  }

  lemma GrownSymmetric(ls: seq<seq<int>>, a: int, b: int)
    requires SymmetricLinks(ls)
    ensures SymmetricLinks(GrownLinks(ls, a, b))
  {
    var ls' := GrownLinks(ls, a, b);
    forall i, j | 0 <= i < |ls| && 0 <= j < |ls|
      ensures Multiplicity(ls'[i], j) == Multiplicity(ls'[j], i)
    {
      GrownMultiplicity(ls[i], i, a, b, j);
      GrownMultiplicity(ls[j], j, a, b, i);
    }
  }

  lemma GrownWithin(ls: seq<seq<int>>, a: int, b: int)
    requires LinksWithin(ls, |ls|) && 0 <= a < |ls| && 0 <= b < |ls|
    ensures LinksWithin(GrownLinks(ls, a, b), |ls|)
  {
    var ls' := GrownLinks(ls, a, b);
    forall i, v | 0 <= i < |ls'| && v in ls'[i]
      ensures 0 <= v < |ls|
    {
      assert v in ls[i] || v == a || v == b;
    }
  }

  /** Recording an edge between two nodes keeps the invariant. */
  lemma LinkKeepsValid(g: Graph, a: int, b: int)
    requires Valid(g) && IsNode(g, a) && IsNode(g, b)
    ensures Valid(Link(g, a, b))
  {
    var g' := Link(g, a, b);
    GrownSymmetric(Links(g.nodes), a, b);
    GrownWithin(Links(g.nodes), a, b);
    assert Mirrors(g'.adjacency, Links(g'.nodes));
    assert SlotsValid(g'.nodes);
  }

  /** Adjacency is symmetric as a relation: v lists u whenever u lists v. */
  lemma NeighbourSymmetric(g: Graph, u: int, v: int)
    requires Valid(g) && IsNode(g, u) && IsNode(g, v)
    requires v in g.nodes[u].neighbours
    ensures u in g.nodes[v].neighbours
  {
    var ls := Links(g.nodes);
    assert Multiplicity(ls[u], v) > 0;
    assert Multiplicity(ls[v], u) > 0;
  }
}
