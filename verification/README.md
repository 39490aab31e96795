# Incremental greedy graph colouring — a Dafny model

This project models the colouring engine of `coloreo_grafos/coloreo_de_grafos.cpp`. The engine keeps
a store of nodes (`Grafo`). Each node has an identity, a colour slot that holds either -1
("uncoloured") or an index into a three-colour palette, and a neighbour list. An adjacency map
mirrors those lists.

- Adding a node appends it, uncoloured and without neighbours; its identity is the node count.
- Connecting two nodes runs a greedy step:
  1. Order the endpoints by a heuristic flag.
  2. Colour each uncoloured endpoint with the least-used colour among those its current neighbours
     do not hold. When no colour is available, bump the process-wide failure counter
     (`backtrackCount`) instead.
  3. Record the edge in both lists and in the map.
  4. Re-check the first endpoint.
- The click handler pairs clicks. A click on empty space adds a node. The first click on a node
  selects it. The second click connects the two nodes when they differ, and clears the selection
  either way.

The model is functional. `Graphs.Graph` carries the nodes, the adjacency map and the failure
counter. The heuristic flag is an explicit parameter. Each step of `conectarNodos` is its own
function, and `Colouring.ConnectNodes` composes them.

The invariant every reachable state keeps is `Graphs.Valid`:

- node `i` has identity `i`;
- every slot is -1 or a palette index;
- every neighbour names a node;
- the map mirrors every list;
- `j` occurs in `i`'s list exactly as often as `i` occurs in `j`'s.

Adding a node, inserting an edge and every click keep it.

The model does not claim that the engine produces a proper colouring, and the source does not
promise one. Both endpoints are coloured against the adjacency as it was before the edge, and
colours are never revisited. So a new edge can join two nodes of the same colour.
`Scenarios.ConnectMayConflict` exhibits such an edge in a run from start-up:

1. add nodes 0 to 3;
2. connect 0-1, then 2-3, under heuristic 1;
3. add node 4;
4. connect 4-0.

Node 4 is isolated and takes the least-used colour 1, which node 0 already holds. What is proved
instead is that a newly assigned colour differs from every node the endpoint was already adjacent
to (`Colouring.ConnectColourSound`).

The final re-check of the first endpoint never changes the state (`Colouring.CatchUpIsNoOp`):

- That pass can only act when the first endpoint was uncoloured and found no colour before the edge.
- Adding the edge and colouring the other endpoint only shrink its availability.
- So the pass finds nothing either.

No endpoint is ever coloured by the palette-first rule at coloreo_de_grafos.cpp:123. The model keeps the pass and
proves it inert.

Driven by clicks, the failure branches at coloreo_de_grafos.cpp:96-99 and :108-111 are just as unreachable
(`Shell.ClickNeverFails`):

- In every state the clicks reach, an uncoloured node has no neighbours.
- So each endpoint of a new edge is either coloured already or sees the whole palette.
- So `backtrackCount` stays 0.

Those branches only matter for states built by calling `conectarNodos` directly.

## Model

| member | source | states |
|---|---|---|
| `Graphs.AddNode` | coloreo_grafos/coloreo_de_grafos.cpp:36-43 | exactly one node is appended: uncoloured, no neighbours, identity equal to the old node count; earlier nodes, the map and the failure counter are unchanged |
| `Graphs.AddNodeKeepsValid` | coloreo_grafos/coloreo_de_grafos.cpp:36-43 | adding a node keeps the store invariant, in particular `nodes[i].id == i` for every node |
| `Graphs.Link` | coloreo_grafos/coloreo_de_grafos.cpp:114-117 | recording edge a-b appends b to a's list and a to b's, in the nodes and in the map (a missing key starts empty); colours, identities and the counter are untouched |
| `Graphs.LinkKeepsValid` | coloreo_grafos/coloreo_de_grafos.cpp:114-117 | recording an edge keeps the invariant: neighbours stay in range, the map still mirrors the lists, multiplicities stay symmetric |
| `Graphs.NeighbourSymmetric` | coloreo_grafos/coloreo_de_grafos.cpp:114-117 | in a valid state, v in u's list implies u in v's list |
| `Availability.NoneHolds` | coloreo_grafos/coloreo_de_grafos.cpp:46-51 | the neighbour scan answers true iff no listed neighbour holds the colour |
| `Availability.IsColourValid` | coloreo_grafos/coloreo_de_grafos.cpp:45-52 | a colour is valid for a node iff none of its neighbours holds it |
| `Availability.AvailableFrom` | coloreo_grafos/coloreo_de_grafos.cpp:56-60 | the candidates from c upwards are exactly the colours in [c, 3) that no neighbour holds, strictly increasing, at most 3 - c of them |
| `Availability.AvailableColors` | coloreo_grafos/coloreo_de_grafos.cpp:54-62 | d is listed iff d is a palette index no neighbour holds (soundness and completeness); the list is strictly increasing and at most MAX_COLORS long |
| `Availability.AvailableColorsUnique` | coloreo_grafos/coloreo_de_grafos.cpp:54-62 | any strictly increasing list with that membership is the availability list, so the list is determined by the neighbours' colours |
| `Availability.AvailableColorsLocal` | coloreo_grafos/coloreo_de_grafos.cpp:45-62 | availability depends only on the node's list and its neighbours' colours: two stores that agree there give the same list |
| `Availability.AvailabilityShrinks` | coloreo_grafos/coloreo_de_grafos.cpp:45-62 | gaining neighbours and colouring nodes only removes available colours; a node with nothing available still has nothing |
| `Availability.LonelyAvailable` | coloreo_grafos/coloreo_de_grafos.cpp:54-62 | a node without neighbours has every palette colour available, in order |
| `LeastUsed.Scan` | coloreo_grafos/coloreo_de_grafos.cpp:147-156 | the scan ends on the earliest option of minimal usage; a later option replaces the current one only when strictly less used |
| `LeastUsed.LeastUsedColour` | coloreo_grafos/coloreo_de_grafos.cpp:138-158 | the result is one of the options, its usage over all coloured nodes is minimal, and every earlier option is strictly more used |
| `LeastUsed.EarliestLeastUnique` | coloreo_grafos/coloreo_de_grafos.cpp:147-156 | at most one position is the earliest least-used one |
| `LeastUsed.LeastUsedColourCharacterised` | coloreo_grafos/coloreo_de_grafos.cpp:138-158 | whatever option is the earliest least-used one is exactly what colorMenosUsado returns |
| `Colouring.Order` | coloreo_grafos/coloreo_de_grafos.cpp:64-88 | heuristic 1 puts first the endpoint with fewer available colours, heuristic 2 the one with more neighbours, ties going to id2 first; any other flag keeps (id1, id2) |
| `Colouring.ColourEndpoint` | coloreo_grafos/coloreo_de_grafos.cpp:91-112 | colouring one endpoint changes only that endpoint's slot and the counter; an already coloured endpoint is left alone; an uncoloured one ends with -1 or a palette index, and a colour once set is kept |
| `Colouring.ColourEndpointOutcome` | coloreo_grafos/coloreo_de_grafos.cpp:91-100 | an uncoloured endpoint gets a colour iff one is available; that colour is held by no neighbour and is the least-used available one; otherwise the counter grows by one |
| `Colouring.ColourEndpointKeepsValid` | coloreo_grafos/coloreo_de_grafos.cpp:91-112 | colouring an endpoint keeps the store invariant |
| `Colouring.ColourBoth` | coloreo_grafos/coloreo_de_grafos.cpp:90-112 | colouring both endpoints changes no other node and leaves links, identities and the map alone |
| `Colouring.Insert` | coloreo_grafos/coloreo_de_grafos.cpp:90-117 | colouring both endpoints and recording the edge keeps the node count and identities, grows exactly the endpoints' lists, and leaves other nodes' colours as they were |
| `Colouring.InsertKeepsValid` | coloreo_grafos/coloreo_de_grafos.cpp:90-117 | colouring both endpoints and then recording the edge keeps the invariant |
| `Colouring.CatchUp` | coloreo_grafos/coloreo_de_grafos.cpp:119-125 | the re-check gives an uncoloured first endpoint the smallest colour now available, if any; it never touches another node or the counter |
| `Colouring.CatchUpKeepsValid` | coloreo_grafos/coloreo_de_grafos.cpp:119-125 | the re-check keeps the invariant |
| `Colouring.ConnectNodes` | coloreo_grafos/coloreo_de_grafos.cpp:64-126 | an edge insertion between two nodes of a valid state yields a valid state with the same node count |
| `Colouring.CatchUpIsNoOp` | coloreo_grafos/coloreo_de_grafos.cpp:119-125 | the whole insertion equals the insertion without the re-check: the pass is dead code |
| `Colouring.InsertNeighbours` | coloreo_grafos/coloreo_de_grafos.cpp:114-115 | after colouring and recording, each endpoint's list gained the other endpoint and every other list is unchanged |
| `Colouring.ConnectFrame` | coloreo_grafos/coloreo_de_grafos.cpp:64-126 | an insertion keeps the node count, changes no node other than the two endpoints, only moves slots from -1 to a colour, keeps `nodes[i].id == i`, and the map still mirrors every list |
| `Colouring.ConnectNeighbours` | coloreo_grafos/coloreo_de_grafos.cpp:114-117 | for distinct endpoints each list gains exactly the other; a self-loop adds the node to its own list twice |
| `Colouring.ColourEndpointFailures` | coloreo_grafos/coloreo_de_grafos.cpp:91-100 | colouring one endpoint bumps the counter exactly when it leaves a previously uncoloured endpoint uncoloured |
| `Colouring.ColourBothFailures` | coloreo_grafos/coloreo_de_grafos.cpp:90-112 | colouring both endpoints bumps the counter once per endpoint left uncoloured |
| `Colouring.InsertFailures` | coloreo_grafos/coloreo_de_grafos.cpp:90-117 | the counter after colouring and recording is the old one plus the endpoints left uncoloured |
| `Colouring.ConnectFailures` | coloreo_grafos/coloreo_de_grafos.cpp:91-112 | backtrackCount grows by exactly the number of endpoints that were and stay uncoloured (0, 1 or 2), and the edge is recorded regardless |
| `Colouring.InsertKeepsStuck` | coloreo_grafos/coloreo_de_grafos.cpp:91-112 | an uncoloured endpoint with no colour available before the edge is still uncoloured after colouring and recording |
| `Colouring.ConnectKeepsStuck` | coloreo_grafos/coloreo_de_grafos.cpp:91-125 | an uncoloured endpoint with no colour available before the edge is still uncoloured after the whole insertion, re-check included |
| `Colouring.InsertColoursLonely` | coloreo_grafos/coloreo_de_grafos.cpp:91-112 | an endpoint without neighbours before the edge ends coloured after the two colouring attempts |
| `Colouring.ConnectColoursLonely` | coloreo_grafos/coloreo_de_grafos.cpp:91-125 | an endpoint without neighbours before the edge ends coloured after the whole insertion |
| `Colouring.InsertColourSoundFirst` | coloreo_grafos/coloreo_de_grafos.cpp:91-100 | a colour given to the first endpoint differs from every node it was already adjacent to, including the second endpoint's later choice |
| `Colouring.InsertColourSoundSecond` | coloreo_grafos/coloreo_de_grafos.cpp:103-111 | a colour given to the second endpoint differs from every node it was already adjacent to |
| `Colouring.ConnectColourSound` | coloreo_grafos/coloreo_de_grafos.cpp:91-112 | a colour given to either endpoint by an insertion is held by no node it was adjacent to before the edge |
| `Shell.StartValid` | coloreo_grafos/coloreo_de_grafos.cpp:162-163 | the start state (empty graph, selection -1, and backtrackCount 0 from :23) is valid, has no self-loops and no uncoloured node with neighbours |
| `Shell.Click` | coloreo_grafos/coloreo_de_grafos.cpp:183-196 | one click keeps the state valid, and the selection stays -1 or a node |
| `Shell.ClickMiss` | coloreo_grafos/coloreo_de_grafos.cpp:184-186 | a click on empty space appends one fresh uncoloured node and keeps the selection |
| `Shell.ClickSelects` | coloreo_grafos/coloreo_de_grafos.cpp:188-190 | a click on a node with nothing selected selects it and changes nothing else |
| `Shell.ClickPairs` | coloreo_grafos/coloreo_de_grafos.cpp:191-196 | a click on a node with a node selected clears the selection, and connects the selected node to it only when the two differ |
| `Shell.ClickKeepsNoSelfLoops` | coloreo_grafos/coloreo_de_grafos.cpp:192-194 | clicks never create a self-loop, because the edge insertion is only reached with two different nodes |
| `Shell.ConnectColoursBoth` | coloreo_grafos/coloreo_de_grafos.cpp:91-112 | when every uncoloured node is isolated, an insertion leaves both endpoints coloured |
| `Shell.ConnectKeepsLonely` | coloreo_grafos/coloreo_de_grafos.cpp:64-126 | such an insertion keeps every uncoloured node isolated |
| `Shell.ConnectNeverFails` | coloreo_grafos/coloreo_de_grafos.cpp:96-111 | such an insertion leaves backtrackCount unchanged: neither failure branch (:96-99 for the first endpoint, :108-111 for the second) is taken |
| `Shell.ClickNeverFails` | coloreo_grafos/coloreo_de_grafos.cpp:183-196 | clicks keep every uncoloured node isolated and never change backtrackCount, so the failure branches are unreachable from start-up |
| `Scenarios.ConnectMayConflict` | coloreo_grafos/coloreo_de_grafos.cpp:91-117 | from four fresh nodes, connecting 0-1 and 2-3, adding node 4 and connecting 4-0 under heuristic 1 gives an edge whose endpoints 0 and 4 both hold colour 1 |

## Left out

- Rendering is not modelled: GLFW/OpenGL, the window, circle drawing, the RGB palette arrays and
  the gray colour. Colours are the indices 0, 1 and 2.
- Node positions and the hit test `nodoClickeado` are not modelled, since they need floating-point
  geometry and a square root. A click arrives as `Shell.Hit`: empty space, or the identity of a
  node. The mouse-button and press filter of the callback is left out as well.
- Console messages on a failure are left out because they are output only. The failure counter
  they accompany is modelled.
- `srand` and the keyboard handling that would change the heuristic flag are left out. The flag is
  a parameter of every operation.
- `int` overflow is not modelled. Node identities and the failure counter are unbounded
  naturals; the source's 32-bit `int` would wrap only after about two billion nodes or failures.
- MAX_COLORS is fixed at 3, as in the source. The engine lemmas hold for any palette size; only
  the worked run in scenarios.dfy depends on the value 3.
- `Colouring.ConnectNodes` and `Colouring.ColourEndpoint` require both identities to name nodes.
  In the source an out-of-range identity indexes past the node vector, which is undefined
  behaviour, and the only call site (coloreo_de_grafos.cpp:193) passes identities returned by the
  hit test.
- Self-loops: `Colouring.ConnectNodes` accepts equal endpoints, as `conectarNodos` does. Its
  lemmas hold for them, with a self-loop adding the node to its own list twice. The click handler
  never issues one.
- Colour soundness is stated per insertion and excludes the new edge itself; that is what the
  code guarantees. No global proper-colouring invariant is claimed, since `ConnectMayConflict`
  shows it does not hold.
- The worked run is stated as a chain of `AddNode` and `ConnectNodes` calls rather than clicks;
  `Shell.ClickMiss` and `Shell.ClickPairs` relate each click to those calls.
