/** A worked run of the engine from start-up: four nodes, the edges 0-1 and
    2-3, a fifth node, and the edge 4-0, all under heuristic 1. The last edge
    joins two nodes of the same colour. */
module Scenarios {
  import opened Palette
  import opened Graphs
  import opened Availability
  import opened LeastUsed
  import opened Colouring

  /** The colour an uncoloured endpoint receives is the option at the earliest
      least-used position. */
  lemma ColourEndpointPicks(g: Graph, x: int, k: int)
    requires WellLinked(g.nodes) && IsNode(g, x) && g.nodes[x].colour == Uncoloured
    requires IsEarliestLeast(g.nodes, AvailableColors(g.nodes, x), k)
    ensures ColourEndpoint(g, x).nodes[x].colour == AvailableColors(g.nodes, x)[k]
  {
    LeastUsedColourCharacterised(g.nodes, AvailableColors(g.nodes, x), k);
  }

  /** Whether n holds colour c, as one node's share of Usage. */
  function Holds(n: Node, c: int): nat {
    if n.colour != Uncoloured && n.colour == c then 1 else 0
  }

  /** Usage over four nodes, node by node. */
  lemma UsageOfFour(ns: seq<Node>, c: int)
    requires |ns| == 4
    ensures Usage(ns, c) == Holds(ns[0], c) + Holds(ns[1], c) + Holds(ns[2], c) + Holds(ns[3], c)
  {
    var t1 := ns[1..];
    var t2 := t1[1..];
    var t3 := t2[1..];
    assert t3[1..] == [];
    assert Usage(t3, c) == Holds(ns[3], c);
    assert Usage(t2, c) == Holds(ns[2], c) + Usage(t3, c);
    assert Usage(t1, c) == Holds(ns[1], c) + Usage(t2, c);
  }

  /** Usage over five nodes, node by node. */
  lemma UsageOfFive(ns: seq<Node>, c: int)
    requires |ns| == 5
    ensures Usage(ns, c) == Holds(ns[0], c) + Holds(ns[1], c) + Holds(ns[2], c) + Holds(ns[3], c) + Holds(ns[4], c)
  {
    UsageOfFour(ns[1..], c);
  }

  /** Four clicks on empty space. */
  const Four: Graph := Graph(
    [Node(0, Uncoloured, []), Node(1, Uncoloured, []), Node(2, Uncoloured, []), Node(3, Uncoloured, [])],
    map[], 0)

  lemma FourReached()
    ensures AddNode(AddNode(AddNode(AddNode(Empty)))) == Four
    ensures Valid(Four)
  {
    EmptyValid();
    AddNodeKeepsValid(Empty);
    AddNodeKeepsValid(AddNode(Empty));
    AddNodeKeepsValid(AddNode(AddNode(Empty)));
    AddNodeKeepsValid(AddNode(AddNode(AddNode(Empty))));
  }

  /** Four after node 1 took colour 0. */
  const FirstPairOne: Graph := Four.(nodes :=
    [Node(0, Uncoloured, []), Node(1, 0, []), Node(2, Uncoloured, []), Node(3, Uncoloured, [])])

  /** FirstPairOne after node 0 took colour 1. */
  const FirstPairBoth: Graph := Four.(nodes :=
    [Node(0, 1, []), Node(1, 0, []), Node(2, Uncoloured, []), Node(3, Uncoloured, [])])

  /** After the edge 0-1. */
  const Paired: Graph := Graph(
    [Node(0, 1, [1]), Node(1, 0, [0]), Node(2, Uncoloured, []), Node(3, Uncoloured, [])],
    map[1 := [0], 0 := [1]], 0)

  /** Edge 0-1, node 1 first: nothing is used, so it takes colour 0. */
  lemma FirstPairChoiceOne()
    ensures WellLinked(Four.nodes) && ColourEndpoint(Four, 1) == FirstPairOne
  {
    FourReached();
    var g := Four;
    LonelyAvailable(g.nodes, 1);
    UsageOfFour(g.nodes, 0);
    UsageOfFour(g.nodes, 1);
    UsageOfFour(g.nodes, 2);
    assert IsEarliestLeast(g.nodes, [0, 1, 2], 0);
    ColourEndpointPicks(g, 1, 0);
  }

  /** Edge 0-1, node 0 second: colour 0 is used once, so it takes colour 1. */
  lemma FirstPairChoiceZero()
    ensures WellLinked(FirstPairOne.nodes) && ColourEndpoint(FirstPairOne, 0) == FirstPairBoth
  {
    var g := FirstPairOne;
    assert Links(g.nodes) == [[], [], [], []];
    LonelyAvailable(g.nodes, 0);
    UsageOfFour(g.nodes, 0);
    UsageOfFour(g.nodes, 1);
    UsageOfFour(g.nodes, 2);
    assert IsEarliestLeast(g.nodes, [0, 1, 2], 1);
    ColourEndpointPicks(g, 0, 1);
  }

  /** Edge 0-1 under heuristic 1: both endpoints see the whole palette, and
      the tie puts node 1 first. */
  lemma FirstPairOrder()
    ensures WellLinked(Four.nodes) && Order(Four, 0, 1, 1) == Endpoints(1, 0)
  {
    FourReached();
    LonelyAvailable(Four.nodes, 0);
    LonelyAvailable(Four.nodes, 1);
  }

  lemma FirstPairLinked()
    ensures Link(FirstPairBoth, 1, 0) == Paired
  {
    var g, g' := FirstPairBoth, Link(FirstPairBoth, 1, 0);
    forall i | 0 <= i < 4
      ensures g'.nodes[i] == Paired.nodes[i]
    {
      assert g'.nodes[i].neighbours == Links(g'.nodes)[i] == Grown(g.nodes[i].neighbours, i, 1, 0);
      assert g'.nodes[i].id == Ids(g'.nodes)[i] == Ids(g.nodes)[i];
    }
    assert Entry(g'.adjacency, 0) == [1] && Entry(g'.adjacency, 1) == [0];
  }

  lemma FirstPairReached()
    ensures Valid(Four) && ConnectNodes(Four, 0, 1, 1) == Paired
  {
    FourReached();
    FirstPairOrder();
    FirstPairChoiceOne();
    FirstPairChoiceZero();
    FirstPairLinked();
    ConnectVia(Four, 0, 1, 1, FirstPairOne, FirstPairBoth);
  }

  /** Paired after node 3 took colour 2. */
  const SecondPairThree: Graph := Paired.(nodes :=
    [Node(0, 1, [1]), Node(1, 0, [0]), Node(2, Uncoloured, []), Node(3, 2, [])])

  /** SecondPairThree after node 2 took colour 0. */
  const SecondPairBoth: Graph := Paired.(nodes :=
    [Node(0, 1, [1]), Node(1, 0, [0]), Node(2, 0, []), Node(3, 2, [])])

  /** After the edge 2-3. */
  const TwoEdges: Graph := Graph(
    [Node(0, 1, [1]), Node(1, 0, [0]), Node(2, 0, [3]), Node(3, 2, [2])],
    map[1 := [0], 0 := [1], 3 := [2], 2 := [3]], 0)

  lemma PairedLinked()
    ensures WellLinked(Paired.nodes) && WellLinked(SecondPairThree.nodes)
  {
    assert Links(Paired.nodes) == [[1], [0], [], []];
    assert Links(SecondPairThree.nodes) == [[1], [0], [], []];
  }

  /** Edge 2-3 under heuristic 1: both endpoints see the whole palette, and
      the tie puts node 3 first. */
  lemma SecondPairOrder()
    ensures WellLinked(Paired.nodes) && Order(Paired, 2, 3, 1) == Endpoints(3, 2)
  {
    PairedLinked();
    LonelyAvailable(Paired.nodes, 2);
    LonelyAvailable(Paired.nodes, 3);
  }

  /** Edge 2-3, node 3 first: colours 0 and 1 are used once, 2 not at all. */
  lemma SecondPairChoiceThree()
    ensures WellLinked(Paired.nodes) && ColourEndpoint(Paired, 3) == SecondPairThree
  {
    PairedLinked();
    var g := Paired;
    LonelyAvailable(g.nodes, 3);
    UsageOfFour(g.nodes, 0);
    UsageOfFour(g.nodes, 1);
    UsageOfFour(g.nodes, 2);
    assert IsEarliestLeast(g.nodes, [0, 1, 2], 2);
    ColourEndpointPicks(g, 3, 2);
  }

  /** Edge 2-3, node 2 second: every colour is used once, so the earliest wins. */
  lemma SecondPairChoiceTwo()
    ensures WellLinked(SecondPairThree.nodes) && ColourEndpoint(SecondPairThree, 2) == SecondPairBoth
  {
    PairedLinked();
    var g := SecondPairThree;
    LonelyAvailable(g.nodes, 2);
    UsageOfFour(g.nodes, 0);
    UsageOfFour(g.nodes, 1);
    UsageOfFour(g.nodes, 2);
    assert IsEarliestLeast(g.nodes, [0, 1, 2], 0);
    ColourEndpointPicks(g, 2, 0);
  }

  lemma SecondPairLinked()
    ensures Link(SecondPairBoth, 3, 2) == TwoEdges
  {
    var g, g' := SecondPairBoth, Link(SecondPairBoth, 3, 2);
    forall i | 0 <= i < 4
      ensures g'.nodes[i] == TwoEdges.nodes[i]
    {
      assert g'.nodes[i].neighbours == Links(g'.nodes)[i] == Grown(g.nodes[i].neighbours, i, 3, 2);
      assert g'.nodes[i].id == Ids(g'.nodes)[i] == Ids(g.nodes)[i];
    }
    assert Entry(g'.adjacency, 2) == [3] && Entry(g'.adjacency, 3) == [2];
  }

  lemma SecondPairReached()
    ensures Valid(Paired) && ConnectNodes(Paired, 2, 3, 1) == TwoEdges
  {
    FirstPairReached();
    SecondPairOrder();
    SecondPairChoiceThree();
    SecondPairChoiceTwo();
    SecondPairLinked();
    ConnectVia(Paired, 2, 3, 1, SecondPairThree, SecondPairBoth);
  }

  /** A fifth click on empty space after the two edges. */
  const Five: Graph := Graph(
    [Node(0, 1, [1]), Node(1, 0, [0]), Node(2, 0, [3]), Node(3, 2, [2]), Node(4, Uncoloured, [])],
    TwoEdges.adjacency, 0)

  /** Five after node 4 took colour 1. */
  const LastChosen: Graph := Five.(nodes :=
    [Node(0, 1, [1]), Node(1, 0, [0]), Node(2, 0, [3]), Node(3, 2, [2]), Node(4, 1, [])])

  lemma TwoEdgesValid()
    ensures Valid(TwoEdges)
  {
    SecondPairReached();
    var g' := ConnectNodes(Paired, 2, 3, 1);
    assert Valid(g');
  }

  lemma FiveReached()
    ensures AddNode(TwoEdges) == Five && Valid(Five)
  {
    TwoEdgesValid();
    AddNodeKeepsValid(TwoEdges);
    assert AddNode(TwoEdges).nodes == Five.nodes;
  }

  /** Node 0 holds colour 1 and its neighbour node 1 holds colour 0. */
  lemma FiveAvailable()
    ensures WellLinked(Five.nodes)
    ensures AvailableColors(Five.nodes, 0) == [1, 2]
    ensures AvailableColors(Five.nodes, 4) == [0, 1, 2]
  {
    FiveReached();
    var ns := Five.nodes;
    LonelyAvailable(ns, 4);
    assert NeighbourHolds(ns, 0, 0) by {
      assert 1 in ns[0].neighbours && ns[1].colour == 0;
    }
    forall d | d in [1, 2]
      ensures !NeighbourHolds(ns, 0, d)
    {
      assert ns[0].neighbours == [1];
    }
    AvailableColorsUnique(ns, 0, [1, 2]);
  }

  /** Edge 4-0 under heuristic 1: node 0 has fewer colours available, so it
      goes first; it is coloured already and keeps its colour. */
  lemma LastOrder()
    ensures WellLinked(Five.nodes) && Order(Five, 4, 0, 1) == Endpoints(0, 4)
    ensures ColourEndpoint(Five, 0) == Five
  {
    FiveAvailable();
  }

  /** Edge 4-0, node 4 second: colour 0 is used twice, 1 and 2 once each, so
      it takes colour 1, the colour node 0 already holds. */
  lemma LastChoice()
    ensures WellLinked(Five.nodes) && ColourEndpoint(Five, 4) == LastChosen
  {
    FiveAvailable();
    var g := Five;
    UsageOfFive(g.nodes, 0);
    UsageOfFive(g.nodes, 1);
    UsageOfFive(g.nodes, 2);
    assert IsEarliestLeast(g.nodes, [0, 1, 2], 1);
    ColourEndpointPicks(g, 4, 1);
  }

  /** The edge 4-0 joins two nodes of colour 1. */
  lemma LastEdgeConflicts()
    ensures Valid(Five)
    ensures var g' := ConnectNodes(Five, 4, 0, 1);
      && 4 in g'.nodes[0].neighbours
      && g'.nodes[0].colour == 1 && g'.nodes[4].colour == 1
  {
    FiveReached();
    LastOrder();
    LastChoice();
    ConnectVia(Five, 4, 0, 1, Five, LastChosen);
    var g' := Link(LastChosen, 0, 4);
    assert g'.nodes[0].neighbours == Links(g'.nodes)[0] == Grown([1], 0, 0, 4);
  }

  /** A run from start-up in which an edge joins two nodes of the same colour.
      The endpoints of a new edge are coloured against the adjacency before
      it, and colours are never revisited: node 4, isolated, takes the least
      used colour 1, which node 0 already holds. */
  lemma ConnectMayConflict(g0: Graph)
    requires g0 == AddNode(AddNode(AddNode(AddNode(Empty))))
    ensures Valid(g0)
    ensures var g1 := ConnectNodes(g0, 0, 1, 1);
      && g1 == Paired && Valid(g1)
      && var g2 := ConnectNodes(g1, 2, 3, 1);
      && g2 == TwoEdges && Valid(AddNode(g2))
      && var g' := ConnectNodes(AddNode(g2), 4, 0, 1);
      && 4 in g'.nodes[0].neighbours
      && g'.nodes[0].colour == 1 && g'.nodes[4].colour == 1
  {
    FourReached();
    FirstPairReached();
    SecondPairReached();
    FiveReached();
    LastEdgeConflicts();
  }

  /** An insertion whose re-check is a no-op is its two colouring attempts
      followed by the edge. */
  lemma ConnectVia(g: Graph, id1: int, id2: int, heuristic: int, g1: Graph, g2: Graph)
    requires Valid(g) && IsNode(g, id1) && IsNode(g, id2)
    requires ColourEndpoint(g, Order(g, id1, id2, heuristic).first) == g1
    requires WellLinked(g1.nodes) && IsNode(g1, Order(g, id1, id2, heuristic).second)
    requires ColourEndpoint(g1, Order(g, id1, id2, heuristic).second) == g2
    ensures var e := Order(g, id1, id2, heuristic);
      IsNode(g2, e.first) && IsNode(g2, e.second) && ConnectNodes(g, id1, id2, heuristic) == Link(g2, e.first, e.second)
  {
    CatchUpIsNoOp(g, id1, id2, heuristic);
  }
}
