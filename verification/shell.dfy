/** The click-pairing logic of the mouse callback: a click on empty space adds
    a node, and two clicks on two different nodes connect them. */
module Shell {
  import opened Palette
  import opened Graphs
  import opened Colouring

  /** What the hit test reports for a click: empty space, or the identity of
      the node under the cursor. */
  datatype Hit = Miss | OnNode(id: int)

  /** The engine together with the one-slot pending selection. */
  datatype Session = Session(graph: Graph, selected: int)

  /** The selection slot when no node is pending (nodoSeleccionado == -1). */
  const NoSelection: int := -1

  /** The session at start-up. */
  const Start: Session := Session(Empty, NoSelection)

  /** The graph is valid and the selection is empty or names a node. */
  predicate SessionValid(s: Session) {
    Valid(s.graph) && (s.selected == NoSelection || IsNode(s.graph, s.selected))
  }

  /** The hit test only ever reports nodes that exist. */
  predicate HitValid(s: Session, hit: Hit) {
    hit.OnNode? ==> IsNode(s.graph, hit.id)
  }

  /** No node lists itself as a neighbour. */
  predicate NoSelfLoops(g: Graph) {
    Loopless(Links(g.nodes))
  }

  /** No list names its own index. */
  predicate Loopless(ls: seq<seq<int>>) {
    forall i :: 0 <= i < |ls| ==> i !in ls[i]
  }

  /** Every uncoloured node has no neighbours. */
  predicate UncolouredLonely(g: Graph) {
    forall i :: 0 <= i < |g.nodes| && g.nodes[i].colour == Uncoloured ==> g.nodes[i].neighbours == []
  }

  /** One left click: a miss adds a node; a hit with nothing pending selects
      the node; a hit with a node pending connects the two when they differ,
      and clears the selection in either case. */
  function Click(s: Session, hit: Hit, heuristic: int): (s': Session)
    requires SessionValid(s) && HitValid(s, hit)
    ensures SessionValid(s')
  {
    match hit
    case Miss =>
      AddNodeKeepsValid(s.graph);
      s.(graph := AddNode(s.graph))
    case OnNode(id) =>
      if s.selected == NoSelection then s.(selected := id)
      else if id != s.selected then Session(ConnectNodes(s.graph, s.selected, id, heuristic), NoSelection)
      else s.(selected := NoSelection)
  }

  lemma StartValid()
    ensures SessionValid(Start) && Start.graph.failures == 0
    ensures NoSelfLoops(Start.graph) && UncolouredLonely(Start.graph)
  {
    EmptyValid();
  }

  /** A miss adds one uncoloured node, numbered after the existing ones, and
      keeps the selection. */
  lemma ClickMiss(s: Session, heuristic: int)
    requires SessionValid(s)
    ensures var s' := Click(s, Miss, heuristic);
      && |s'.graph.nodes| == |s.graph.nodes| + 1
      && s'.graph.nodes[|s.graph.nodes|] == Node(|s.graph.nodes|, Uncoloured, [])
      && s'.graph.nodes[..|s.graph.nodes|] == s.graph.nodes
      && s'.graph.adjacency == s.graph.adjacency
      && s'.selected == s.selected
  {
  }

  /** A hit with nothing pending selects the node and changes nothing else. */
  lemma ClickSelects(s: Session, id: int, heuristic: int)
    requires SessionValid(s) && IsNode(s.graph, id) && s.selected == NoSelection
    ensures Click(s, OnNode(id), heuristic) == Session(s.graph, id)
  {
  }

  /** A hit with a node pending clears the selection, and inserts the edge
      from the pending node to the hit one only when they differ. */
  lemma ClickPairs(s: Session, id: int, heuristic: int)
    requires SessionValid(s) && IsNode(s.graph, id) && s.selected != NoSelection
    ensures var s' := Click(s, OnNode(id), heuristic);
      && s'.selected == NoSelection
      && (id != s.selected ==> s'.graph == ConnectNodes(s.graph, s.selected, id, heuristic))
      && (id == s.selected ==> s'.graph == s.graph)
  {
  }

  /** Growing the lists by an edge between two different nodes adds no self-loop. */
  lemma GrownLoopless(ls: seq<seq<int>>, a: int, b: int)
    requires Loopless(ls) && a != b
    ensures Loopless(GrownLinks(ls, a, b))
  {
    forall i | 0 <= i < |ls|
      ensures i !in GrownLinks(ls, a, b)[i]
    {
      assert GrownLinks(ls, a, b)[i] == Grown(ls[i], i, a, b);
    }
  }

  /** Clicks never create a self-loop: the edge insertion is only reached with
      two different nodes. */
  lemma ClickKeepsNoSelfLoops(s: Session, hit: Hit, heuristic: int)
    requires SessionValid(s) && HitValid(s, hit) && NoSelfLoops(s.graph)
    ensures NoSelfLoops(Click(s, hit, heuristic).graph)
  {
    match hit
    case Miss =>
      assert Links(AddNode(s.graph).nodes) == Links(s.graph.nodes) + [[]];
    case OnNode(id) =>
      if s.selected != NoSelection && id != s.selected {
        var e := Order(s.graph, s.selected, id, heuristic);
        CatchUpIsNoOp(s.graph, s.selected, id, heuristic);
        GrownLoopless(Links(s.graph.nodes), e.first, e.second);
      }
  }

  /** An edge insertion in a state whose uncoloured nodes are isolated colours
      both endpoints. */
  lemma ConnectColoursBoth(g: Graph, a: int, b: int, heuristic: int)
    requires Valid(g) && IsNode(g, a) && IsNode(g, b) && UncolouredLonely(g)
    ensures ConnectNodes(g, a, b, heuristic).nodes[a].colour != Uncoloured
    ensures ConnectNodes(g, a, b, heuristic).nodes[b].colour != Uncoloured
  {
    ConnectFrame(g, a, b, heuristic);
    if g.nodes[a].colour == Uncoloured {
      ConnectColoursLonely(g, a, b, heuristic, a);
    }
    if g.nodes[b].colour == Uncoloured {
      ConnectColoursLonely(g, a, b, heuristic, b);
    }
  }

  /** Such an insertion keeps the uncoloured nodes isolated. */
  lemma ConnectKeepsLonely(g: Graph, a: int, b: int, heuristic: int)
    requires Valid(g) && IsNode(g, a) && IsNode(g, b) && UncolouredLonely(g)
    ensures UncolouredLonely(ConnectNodes(g, a, b, heuristic))
  {
    var g' := ConnectNodes(g, a, b, heuristic);
    ConnectColoursBoth(g, a, b, heuristic);
    ConnectFrame(g, a, b, heuristic);
    forall i | 0 <= i < |g'.nodes| && g'.nodes[i].colour == Uncoloured
      ensures g'.nodes[i].neighbours == []
    {
      if i != a && i != b {
        assert g'.nodes[i] == g.nodes[i];
      }
    }
  }

  /** Such an insertion counts no failure. */
  lemma ConnectNeverFails(g: Graph, a: int, b: int, heuristic: int)
    requires Valid(g) && IsNode(g, a) && IsNode(g, b) && UncolouredLonely(g)
    ensures ConnectNodes(g, a, b, heuristic).failures == g.failures
  {
    ConnectColoursBoth(g, a, b, heuristic);
    ConnectFailures(g, a, b, heuristic);
  }

  /** Clicks keep every uncoloured node isolated and never count a colouring
      failure: an edge is only ever added between two nodes that either are
      coloured already or have no neighbours, and a node without neighbours
      always finds a colour. So from start-up backtrackCount stays 0. */
  lemma ClickNeverFails(s: Session, hit: Hit, heuristic: int)
    requires SessionValid(s) && HitValid(s, hit) && UncolouredLonely(s.graph)
    ensures UncolouredLonely(Click(s, hit, heuristic).graph)
    ensures Click(s, hit, heuristic).graph.failures == s.graph.failures
  {
    match hit
    case Miss =>
    case OnNode(id) =>
      if s.selected != NoSelection && id != s.selected {
        ConnectKeepsLonely(s.graph, s.selected, id, heuristic);
        ConnectNeverFails(s.graph, s.selected, id, heuristic);
      }
  }
}
