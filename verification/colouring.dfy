/** The colouring policy run on every edge insertion (conectarNodos). */
module Colouring {
  import opened Palette
  import opened Graphs
  import opened Availability
  import opened LeastUsed

  /** The two endpoints of a new edge in the order they are coloured. */
  datatype Endpoints = Endpoints(first: int, second: int)

  /** Endpoint ordering. Heuristic 1 colours first the endpoint with fewer
      available colours, heuristic 2 the one with more neighbours; ties go to
      the second argument; any other flag keeps the arguments' order. */
  function Order(g: Graph, id1: int, id2: int, heuristic: int): (e: Endpoints)
    requires WellLinked(g.nodes) && IsNode(g, id1) && IsNode(g, id2)
    ensures e == Endpoints(id1, id2) || e == Endpoints(id2, id1)
    ensures heuristic == 1 ==>
      |AvailableColors(g.nodes, e.first)| <= |AvailableColors(g.nodes, e.second)|
    ensures heuristic == 1 && |AvailableColors(g.nodes, id1)| == |AvailableColors(g.nodes, id2)| ==>
      e.first == id2
    ensures heuristic == 2 ==>
      |g.nodes[e.first].neighbours| >= |g.nodes[e.second].neighbours|
    ensures heuristic == 2 && |g.nodes[id1].neighbours| == |g.nodes[id2].neighbours| ==>
      e.first == id2
    ensures heuristic != 1 && heuristic != 2 ==> e == Endpoints(id1, id2)
  {
    if heuristic == 1 then
      if |AvailableColors(g.nodes, id1)| < |AvailableColors(g.nodes, id2)| then Endpoints(id1, id2)
      else Endpoints(id2, id1)
    else if heuristic == 2 then
      if |g.nodes[id1].neighbours| > |g.nodes[id2].neighbours| then Endpoints(id1, id2)
      else Endpoints(id2, id1)
    else Endpoints(id1, id2)
  }

  /** Colour slots only move from the sentinel to a colour: a node coloured in
      g has the same colour in g'. */
  ghost predicate KeepsColours(g: Graph, g': Graph)
    requires |g'.nodes| == |g.nodes|
  {
    forall i :: 0 <= i < |g.nodes| && g.nodes[i].colour != Uncoloured ==>
      g'.nodes[i].colour == g.nodes[i].colour
  }

  /** One colouring attempt (coloreo_de_grafos.cpp:91-100, and :103-111 for
      the second endpoint) for x, against the adjacency before the edge:
      an uncoloured x gets the least-used available colour, or stays
      uncoloured and counts one failure when no colour is available. */
  function ColourEndpoint(g: Graph, x: int): (g': Graph)
    requires WellLinked(g.nodes) && IsNode(g, x)
    ensures SameLinks(g, g') && KeepsColours(g, g')
    ensures forall i :: 0 <= i < |g.nodes| && i != x ==> g'.nodes[i] == g.nodes[i]
    ensures g.nodes[x].colour != Uncoloured ==> g' == g
    ensures g'.nodes[x].colour == Uncoloured ==> g'.nodes == g.nodes
    ensures g.nodes[x].colour == Uncoloured ==> IsSlot(g'.nodes[x].colour)
  {
    if g.nodes[x].colour != Uncoloured then g
    else
      var options := AvailableColors(g.nodes, x);
      if options != [] then SetColour(g, x, LeastUsedColour(g.nodes, options))
      else CountFailure(g)
  }

  /** What one colouring attempt does to an uncoloured endpoint x: it gets a colour iff
      one is available; that colour is held by no neighbour and is the
      least-used available one (earliest on ties); otherwise one failure is
      counted. */
  lemma ColourEndpointOutcome(g: Graph, x: int)
    requires WellLinked(g.nodes) && IsNode(g, x) && g.nodes[x].colour == Uncoloured
    ensures var g' := ColourEndpoint(g, x);
      && (g'.nodes[x].colour == Uncoloured <==> AvailableColors(g.nodes, x) == [])
      && (g'.nodes[x].colour != Uncoloured ==>
            && IsColour(g'.nodes[x].colour)
            && !NeighbourHolds(g.nodes, x, g'.nodes[x].colour)
            && IsLeastUsedOption(g.nodes, AvailableColors(g.nodes, x), g'.nodes[x].colour)
            && g'.failures == g.failures)
      && (g'.nodes[x].colour == Uncoloured ==> g'.failures == g.failures + 1)
  {
  }

  lemma ColourEndpointKeepsValid(g: Graph, x: int)
    requires Valid(g) && IsNode(g, x)
    ensures Valid(ColourEndpoint(g, x))
  {
    var g' := ColourEndpoint(g, x);
    if g.nodes[x].colour == Uncoloured {
      ColourEndpointOutcome(g, x);
    }
    assert SlotsValid(g'.nodes);
    SameLinksKeepsValid(g, g');
  }

  /** The two colouring attempts (:91-112): both endpoints, in the chosen order. */
  function ColourBoth(g: Graph, a: int, b: int): (g': Graph)
    requires WellLinked(g.nodes) && IsNode(g, a) && IsNode(g, b)
    ensures SameLinks(g, g') && KeepsColours(g, g')
    ensures forall i :: 0 <= i < |g.nodes| && i != a && i != b ==> g'.nodes[i] == g.nodes[i]
  {
    ColourEndpoint(ColourEndpoint(g, a), b)
  }

  /** The two colouring attempts, then the edge a-b recorded (:91-117). */
  function Insert(g: Graph, a: int, b: int): (g': Graph)
    requires WellLinked(g.nodes) && IsNode(g, a) && IsNode(g, b)
    ensures WellLinked(g'.nodes) && |g'.nodes| == |g.nodes| && KeepsColours(g, g')
    ensures Ids(g'.nodes) == Ids(g.nodes)
    ensures Links(g'.nodes) == GrownLinks(Links(g.nodes), a, b)
    ensures forall i :: 0 <= i < |g.nodes| && i != a && i != b ==> g'.nodes[i].colour == g.nodes[i].colour
  {
    GrownWithin(Links(g.nodes), a, b);
    Link(ColourBoth(g, a, b), a, b)
  }

  lemma InsertKeepsValid(g: Graph, a: int, b: int)
    requires Valid(g) && IsNode(g, a) && IsNode(g, b)
    ensures Valid(Insert(g, a, b))
  {
    ColourEndpointKeepsValid(g, a);
    ColourEndpointKeepsValid(ColourEndpoint(g, a), b);
    LinkKeepsValid(ColourBoth(g, a, b), a, b);
  }

  /** The re-check after the edge is recorded (:119-125): an uncoloured a takes
      the first colour in palette order that is now available, if any. */
  function CatchUp(g: Graph, a: int): (g': Graph)
    requires WellLinked(g.nodes) && IsNode(g, a)
    ensures SameLinks(g, g') && KeepsColours(g, g') && g'.failures == g.failures
    ensures forall i :: 0 <= i < |g.nodes| && i != a ==> g'.nodes[i] == g.nodes[i]
    ensures g.nodes[a].colour != Uncoloured || AvailableColors(g.nodes, a) == [] ==> g' == g
    ensures g.nodes[a].colour == Uncoloured && AvailableColors(g.nodes, a) != [] ==>
      && g'.nodes[a].colour in AvailableColors(g.nodes, a)
      && forall d :: d in AvailableColors(g.nodes, a) ==> g'.nodes[a].colour <= d
  {
    if g.nodes[a].colour == Uncoloured then
      var options := AvailableColors(g.nodes, a);
      if options != [] then SetColour(g, a, options[0]) else g
    else g
  }

  lemma CatchUpKeepsValid(g: Graph, a: int)
    requires Valid(g) && IsNode(g, a)
    ensures Valid(CatchUp(g, a))
  {
    var g' := CatchUp(g, a);
    assert SlotsValid(g'.nodes);
    SameLinksKeepsValid(g, g');
  }

  /** conectarNodos: order the endpoints, colour them against the pre-edge
      adjacency, record the edge, then re-check the first endpoint. */
  function ConnectNodes(g: Graph, id1: int, id2: int, heuristic: int): (g': Graph)
    requires Valid(g) && IsNode(g, id1) && IsNode(g, id2)
    ensures Valid(g')
    ensures |g'.nodes| == |g.nodes|
  {
    var e := Order(g, id1, id2, heuristic);
    InsertKeepsValid(g, e.first, e.second);
    CatchUpKeepsValid(Insert(g, e.first, e.second), e.first);
    CatchUp(Insert(g, e.first, e.second), e.first)
  }

  /** The re-check at :119-125 never changes anything: it can only act when
      the first endpoint found no colour in its attempt at :91-100, and
      availability only shrinks once the edge is added and colours are set. */
  lemma CatchUpIsNoOp(g: Graph, id1: int, id2: int, heuristic: int)
    requires Valid(g) && IsNode(g, id1) && IsNode(g, id2)
    ensures var e := Order(g, id1, id2, heuristic);
      ConnectNodes(g, id1, id2, heuristic) == Insert(g, e.first, e.second)
  {
    var e := Order(g, id1, id2, heuristic);
    var a, b := e.first, e.second;
    var g1 := ColourEndpoint(g, a);
    var g2 := ColourEndpoint(g1, b);
    var g3 := Insert(g, a, b);
    if g3.nodes[a].colour == Uncoloured {
      assert g2.nodes[a].colour == Uncoloured;
      assert g1.nodes[a].colour == Uncoloured;
      ColourEndpointOutcome(g, a);
      assert forall v :: v in g.nodes[a].neighbours ==> v in g3.nodes[a].neighbours by {
        assert g3.nodes[a].neighbours == Links(g3.nodes)[a];
        assert g.nodes[a].neighbours == Links(g.nodes)[a];
      }
      AvailabilityShrinks(g.nodes, g3.nodes, a);
    }
  }

  /** Each endpoint's list gains exactly the other endpoint; every other list
      is unchanged. */
  lemma InsertNeighbours(g: Graph, a: int, b: int)
    requires WellLinked(g.nodes) && IsNode(g, a) && IsNode(g, b)
    ensures var g' := Insert(g, a, b);
      && (forall i :: 0 <= i < |g.nodes| ==>
            g'.nodes[i].neighbours == Grown(g.nodes[i].neighbours, i, a, b))
      && (a != b ==>
            && g'.nodes[a].neighbours == g.nodes[a].neighbours + [b]
            && g'.nodes[b].neighbours == g.nodes[b].neighbours + [a])
      && (a == b ==> g'.nodes[a].neighbours == g.nodes[a].neighbours + [a, a])
  {
    GrownNeighbours(g.nodes, Insert(g, a, b).nodes, a, b);
  }

  /** The colouring attempts and the edge recording touch only the endpoints. */
  lemma InsertUntouched(g: Graph, a: int, b: int)
    requires WellLinked(g.nodes) && IsNode(g, a) && IsNode(g, b)
    ensures var g' := Insert(g, a, b);
      forall i :: 0 <= i < |g.nodes| && i != a && i != b ==> g'.nodes[i] == g.nodes[i]
  {
    var g' := Insert(g, a, b);
    forall i | 0 <= i < |g.nodes| && i != a && i != b
      ensures g'.nodes[i] == g.nodes[i]
    {
      assert g'.nodes[i].id == Ids(g'.nodes)[i];
      assert g.nodes[i].id == Ids(g.nodes)[i];
      assert g'.nodes[i].neighbours == Links(g'.nodes)[i];
      assert g.nodes[i].neighbours == Links(g.nodes)[i];
    }
  }

  /** After the colouring attempts and the edge recording node i still has
      identity i and a valid slot, and the
      adjacency map mirrors every list. */
  lemma InsertMirrors(g: Graph, a: int, b: int)
    requires Valid(g) && IsNode(g, a) && IsNode(g, b)
    ensures var g' := Insert(g, a, b);
      && (forall i :: 0 <= i < |g.nodes| ==> g'.nodes[i].id == i && IsSlot(g'.nodes[i].colour))
      && (forall i :: 0 <= i < |g.nodes| ==> Entry(g'.adjacency, i) == g'.nodes[i].neighbours)
  {
    var g' := Insert(g, a, b);
    InsertKeepsValid(g, a, b);
    forall i | 0 <= i < |g.nodes|
      ensures g'.nodes[i].id == i && Entry(g'.adjacency, i) == g'.nodes[i].neighbours
    {
      assert g'.nodes[i].id == Ids(g'.nodes)[i];
      assert g'.nodes[i].neighbours == Links(g'.nodes)[i];
    }
  }

  /** Frame of an edge insertion: the node count is unchanged, only the two
      endpoints change, colour slots only move from the sentinel to a colour,
      identities stay i, and the adjacency map still mirrors every list. */
  lemma ConnectFrame(g: Graph, id1: int, id2: int, heuristic: int)
    requires Valid(g) && IsNode(g, id1) && IsNode(g, id2)
    ensures var g' := ConnectNodes(g, id1, id2, heuristic);
      && |g'.nodes| == |g.nodes|
      && (forall i :: 0 <= i < |g.nodes| && i != id1 && i != id2 ==> g'.nodes[i] == g.nodes[i])
      && KeepsColours(g, g')
      && (forall i :: 0 <= i < |g.nodes| ==> g'.nodes[i].id == i && IsSlot(g'.nodes[i].colour))
      && (forall i :: 0 <= i < |g.nodes| ==> Entry(g'.adjacency, i) == g'.nodes[i].neighbours)
  {
    CatchUpIsNoOp(g, id1, id2, heuristic);
    var e := Order(g, id1, id2, heuristic);
    InsertUntouched(g, e.first, e.second);
    InsertMirrors(g, e.first, e.second);
  }

  /** Each endpoint's list gains exactly the other endpoint (a self-loop adds
      the node to its own list twice). */
  lemma ConnectNeighbours(g: Graph, id1: int, id2: int, heuristic: int)
    requires Valid(g) && IsNode(g, id1) && IsNode(g, id2)
    ensures var g' := ConnectNodes(g, id1, id2, heuristic);
      && (id1 != id2 ==>
            && g'.nodes[id1].neighbours == g.nodes[id1].neighbours + [id2]
            && g'.nodes[id2].neighbours == g.nodes[id2].neighbours + [id1])
      && (id1 == id2 ==> g'.nodes[id1].neighbours == g.nodes[id1].neighbours + [id1, id1])
  {
    CatchUpIsNoOp(g, id1, id2, heuristic);
    var e := Order(g, id1, id2, heuristic);
    InsertNeighbours(g, e.first, e.second);
  }

  /** An endpoint that was uncoloured before the edge and is still uncoloured
      after it: one colouring failure (`backtrackCount`). */
  function Stuck(g: Graph, g': Graph, x: int): nat
    requires IsNode(g, x) && IsNode(g', x)
  {
    if g.nodes[x].colour == Uncoloured && g'.nodes[x].colour == Uncoloured then 1 else 0
  }

  /** One colouring attempt counts one failure exactly when it leaves its endpoint uncoloured. */
  lemma ColourEndpointFailures(g: Graph, x: int)
    requires WellLinked(g.nodes) && IsNode(g, x)
    ensures var g' := ColourEndpoint(g, x); g'.failures == g.failures + Stuck(g, g', x)
  {
    if g.nodes[x].colour == Uncoloured {
      ColourEndpointOutcome(g, x);
    }
  }

  /** The two colouring attempts count one failure per endpoint they leave uncoloured. */
  lemma ColourBothFailures(g: Graph, a: int, b: int)
    requires WellLinked(g.nodes) && IsNode(g, a) && IsNode(g, b)
    ensures var g2 := ColourBoth(g, a, b);
      g2.failures == g.failures + Stuck(g, g2, a) + Stuck(g, g2, b)
  {
    var g1 := ColourEndpoint(g, a);
    ColourEndpointFailures(g, a);
    ColourEndpointFailures(g1, b);
    if a == b && g1.nodes[a].colour == Uncoloured {
      ColourEndpointOutcome(g, a);
      ColourEndpointOutcome(g1, a);
    }
  }

  /** The colouring attempts and the edge recording count one failure per endpoint
      left uncoloured. */
  lemma InsertFailures(g: Graph, a: int, b: int)
    requires WellLinked(g.nodes) && IsNode(g, a) && IsNode(g, b)
    ensures var g' := Insert(g, a, b);
      g'.failures == g.failures + Stuck(g, g', a) + Stuck(g, g', b)
  {
    ColourBothFailures(g, a, b);
  }

  /** The failure counter grows by exactly the number of endpoints that could
      not be coloured (0, 1 or 2), and the edge is recorded all the same. */
  lemma ConnectFailures(g: Graph, id1: int, id2: int, heuristic: int)
    requires Valid(g) && IsNode(g, id1) && IsNode(g, id2)
    ensures var g' := ConnectNodes(g, id1, id2, heuristic);
      && g'.failures == g.failures + Stuck(g, g', id1) + Stuck(g, g', id2)
      && id2 in g'.nodes[id1].neighbours && id1 in g'.nodes[id2].neighbours
  {
    CatchUpIsNoOp(g, id1, id2, heuristic);
    var e := Order(g, id1, id2, heuristic);
    InsertFailures(g, e.first, e.second);
    InsertNeighbours(g, e.first, e.second);
  }

  /** An endpoint with no colour available before the edge stays uncoloured. */
  lemma InsertKeepsStuck(g: Graph, a: int, b: int, x: int)
    requires WellLinked(g.nodes) && IsNode(g, a) && IsNode(g, b) && (x == a || x == b)
    requires g.nodes[x].colour == Uncoloured && AvailableColors(g.nodes, x) == []
    ensures Insert(g, a, b).nodes[x].colour == Uncoloured
  {
    var g1 := ColourEndpoint(g, a);
    if g.nodes[a].colour == Uncoloured {
      ColourEndpointOutcome(g, a);
    }
    if x == b && a != b {
      assert forall v :: v in g.nodes[b].neighbours ==> v in g1.nodes[b].neighbours by {
        assert g1.nodes[b] == g.nodes[b];
      }
      AvailabilityShrinks(g.nodes, g1.nodes, b);
      ColourEndpointOutcome(g1, b);
    }
  }

  /** An endpoint with no colour available before the edge ends uncoloured. */
  lemma ConnectKeepsStuck(g: Graph, id1: int, id2: int, heuristic: int, x: int)
    requires Valid(g) && IsNode(g, id1) && IsNode(g, id2) && (x == id1 || x == id2)
    requires g.nodes[x].colour == Uncoloured && AvailableColors(g.nodes, x) == []
    ensures ConnectNodes(g, id1, id2, heuristic).nodes[x].colour == Uncoloured
  {
    CatchUpIsNoOp(g, id1, id2, heuristic);
    var e := Order(g, id1, id2, heuristic);
    InsertKeepsStuck(g, e.first, e.second, x);
  }

  /** An endpoint without neighbours before the edge ends coloured: it sees
      the whole palette when its turn comes. */
  lemma InsertColoursLonely(g: Graph, a: int, b: int, x: int)
    requires WellLinked(g.nodes) && IsNode(g, a) && IsNode(g, b) && (x == a || x == b)
    requires g.nodes[x].neighbours == []
    ensures Insert(g, a, b).nodes[x].colour != Uncoloured
  {
    var g1 := ColourEndpoint(g, a);
    if g.nodes[a].colour == Uncoloured && x == a {
      LonelyAvailable(g.nodes, a);
      ColourEndpointOutcome(g, a);
    }
    if g1.nodes[x].colour == Uncoloured {
      assert x == b;
      assert g1.nodes[b].neighbours == Links(g1.nodes)[b] == Links(g.nodes)[b];
      LonelyAvailable(g1.nodes, b);
      ColourEndpointOutcome(g1, b);
    }
  }

  /** An endpoint without neighbours before the edge ends coloured, so its
      colouring attempt never counts a failure. */
  lemma ConnectColoursLonely(g: Graph, id1: int, id2: int, heuristic: int, x: int)
    requires Valid(g) && IsNode(g, id1) && IsNode(g, id2) && (x == id1 || x == id2)
    requires g.nodes[x].neighbours == []
    ensures ConnectNodes(g, id1, id2, heuristic).nodes[x].colour != Uncoloured
  {
    CatchUpIsNoOp(g, id1, id2, heuristic);
    var e := Order(g, id1, id2, heuristic);
    InsertColoursLonely(g, e.first, e.second, x);
  }

  /** A colour given to x by this insertion is held by no node x was already
      adjacent to, even after the edge is recorded. (The new edge itself may
      join two nodes of the same colour.) */
  ghost predicate FreshColourSound(g: Graph, g': Graph, x: int)
    requires |g'.nodes| == |g.nodes| && IsNode(g, x)
  {
    g.nodes[x].colour == Uncoloured && g'.nodes[x].colour != Uncoloured ==>
      forall v :: v in g.nodes[x].neighbours && 0 <= v < |g.nodes| && v != x ==>
        g'.nodes[v].colour != g'.nodes[x].colour
  }

  lemma InsertColourSoundFirst(g: Graph, a: int, b: int)
    requires Valid(g) && IsNode(g, a) && IsNode(g, b)
    ensures FreshColourSound(g, Insert(g, a, b), a)
  {
    var g1 := ColourEndpoint(g, a);
    var g2 := ColourEndpoint(g1, b);
    var g' := Insert(g, a, b);
    if g.nodes[a].colour == Uncoloured && g'.nodes[a].colour != Uncoloured {
      ColourEndpointOutcome(g, a);
      if g1.nodes[a].colour == Uncoloured {
        // a == b: the second attempt coloured it, against the same nodes
        ColourEndpointOutcome(g1, a);
      } else {
        var c := g1.nodes[a].colour;
        forall v | v in g.nodes[a].neighbours && 0 <= v < |g.nodes| && v != a
          ensures g'.nodes[v].colour != c
        {
          if v == b && g.nodes[b].colour == Uncoloured && g2.nodes[b].colour != Uncoloured {
            NeighbourSymmetric(g, a, b);
            assert g1.nodes[b] == g.nodes[b];
            ColourEndpointOutcome(g1, b);
          }
        }
      }
    }
  }

  lemma InsertColourSoundSecond(g: Graph, a: int, b: int)
    requires Valid(g) && IsNode(g, a) && IsNode(g, b)
    ensures FreshColourSound(g, Insert(g, a, b), b)
  {
    var g1 := ColourEndpoint(g, a);
    var g2 := ColourEndpoint(g1, b);
    var g' := Insert(g, a, b);
    if a == b {
      InsertColourSoundFirst(g, a, b);
    } else if g.nodes[b].colour == Uncoloured && g'.nodes[b].colour != Uncoloured {
      assert g1.nodes[b] == g.nodes[b];
      ColourEndpointOutcome(g1, b);
    }
  }

  /** No endpoint coloured by an edge insertion shares its colour with a node
      it was already adjacent to. */
  lemma ConnectColourSound(g: Graph, id1: int, id2: int, heuristic: int)
    requires Valid(g) && IsNode(g, id1) && IsNode(g, id2)
    ensures FreshColourSound(g, ConnectNodes(g, id1, id2, heuristic), id1)
    ensures FreshColourSound(g, ConnectNodes(g, id1, id2, heuristic), id2)
  {
    CatchUpIsNoOp(g, id1, id2, heuristic);
    var e := Order(g, id1, id2, heuristic);
    InsertColourSoundFirst(g, e.first, e.second);
    InsertColourSoundSecond(g, e.first, e.second);
  }
}
