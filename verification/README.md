# Adjacency-list graph (EDA/project/graph.c) in Dafny

This project models the graph container of `EDA/project/graph.c`. It is a
table of `size` vertex slots fixed when the graph is created, filled in order
and never emptied. Each vertex has:

- an integer key and the index of its record in the caller's data table;
- a singly linked list of neighbour nodes, each a vertex position and a weight;
- one traversal cursor into that list.

Edges are inserted by key pair. An undirected graph also gets the reverse
edge. Unweighted insertion ignores a target that is already in the list;
weighted insertion asserts that the edge is new.

The model is functional. A graph is a value:

- `Graph(vertices, size, len, kind)`, with `Valid()` as its representation invariant;
- each vertex is `Vertex(key, dataIdx, neighbors, cursor)`;
- the neighbour list is a `seq<Node>` whose head is position 0;
- the cursor is `Null` or `At(pos)`, the position of the node it points at.

Each C function becomes a pure function. Its `requires` clauses are the C
`assert`s. A pointer into the vertex table becomes a position in it.

Modules:

- `Wrappers`: `Option`, standing in for a pointer that may be NULL.
- `Vertices`: the node and vertex records, the cursor protocol, `find_index_in_vertex` and `insert`.
- `Graphs`: the graph record, creation, vertex insertion, `find`, edge insertion and retrieval.
- `GraphLemmas`: properties that relate several operations.
- `Sessions`: sequences of API calls, and the seven-airport example built by the driver program.

Behaviour kept as the code has it:

- `find` scans the whole capacity in both edge insertions. Unused slots keep key 0. So key 0 names the first unused slot while no inserted vertex has key 0 (`KeyZeroFindsUnusedSlot`, `KeyZeroEdgeAccepted`).
- An undirected edge added that way is cut in half when a vertex is later inserted into that slot (`KeyZeroBreaksSymmetry`).
- Every other lookup scans only the inserted vertices `[0, len)`.
- `insert` puts the new node at the head, so neighbours come out most-recent first.
- A cursor already inside a list keeps pointing at the same node when a node is added in front (`Insert` keeps `Remaining`).
- `Graph_AddVertex` does not touch the cursor. It is NULL in an unused slot, and `Valid` records that.
- `Graph_AddWeightedEdge` asserts that the forward node was created. In an undirected graph it also dereferences the reverse node without a check. The precondition `WeightedInsertable` therefore asks for both edges to be new, which also rules out an undirected self-loop.
- Both edge insertions assert `len > 0` (graph.c:444, 467).
- Unweighted insertion gives a new node weight 0, because `calloc` zeroes it (graph.c:417).
- The `Map` record declares its data-index field as `caferetia_idx` (graph.c:94). The functions read and write `aereopuertos_idx` (graph.c:201, 271, 375). The model treats these as one field, `dataIdx`.

## Model

| member | source | states |
|---|---|---|
| Vertices.Start | EDA/project/graph.c:145-150 | after Start the nodes still to visit are the whole neighbour list; a valid cursor, the list itself untouched |
| Vertices.End | EDA/project/graph.c:175-178 | End holds exactly when no node is left to visit |
| Vertices.Next | EDA/project/graph.c:160-165 | needs a non-null cursor; afterwards the nodes still to visit are the previous ones minus the first |
| Vertices.Get | EDA/project/graph.c:131-136 | needs a non-null cursor; returns the vertex index of the next node to visit |
| Vertices.DataIndex | EDA/project/graph.c:199-202 | returns the vertex's data-table index; its partner GraphLemmas.DataIndexRoundTrip shows it is the index given to vertex insertion |
| Vertices.NextN | EDA/project/graph.c:160-165 | k calls of Next drop exactly the first k of the nodes still to visit |
| Vertices.EndAfterExactlyLength | EDA/project/graph.c:145-178 | from Start, End holds after exactly as many Next calls as the list has nodes, and after no fewer |
| Vertices.RestartIsStart | EDA/project/graph.c:145-150 | calling Start again after any number of steps restarts at the same first neighbour |
| Vertices.Traverse | EDA/project/graph.c:117-128 | the documented Start/End/Get/Next loop visits every neighbour index in list order, takes as many steps as there are nodes and ends with End true |
| Vertices.ListContains | EDA/project/graph.c:402-408 | the scan answers true exactly when some node of the list carries the index |
| Vertices.FindIndexInVertex | EDA/project/graph.c:402-408 | true exactly when the index is among the vertex's neighbour indices |
| Vertices.Prepend | EDA/project/graph.c:420-423 | the new node becomes the head and the old list its tail; a cursor keeps the same nodes ahead of it |
| Vertices.PrependKeepsNoDup | EDA/project/graph.c:414-423 | putting an index not yet present in front of a duplicate-free list keeps it duplicate-free |
| Vertices.Insert | EDA/project/graph.c:412-429 | a node is created exactly when the index was absent; if it was present nothing changes; otherwise (index, 0) is the new head over the old list; the neighbour set gains exactly the index; no duplicates and an in-flight traversal are preserved |
| Vertices.SetHeadWeight | EDA/project/graph.c:483 | the head node gets the weight, its target and the rest of the list stay as they were |
| Graphs.New | EDA/project/graph.c:246-285 | needs size > 0; a valid graph with no inserted vertex, the given capacity and kind, every slot with key 0, data index 0 and no neighbours |
| Graphs.AddVertex | EDA/project/graph.c:367-379 | needs len < size; slot len gets the key, data index and an empty list, len grows by one, every other slot is unchanged and the invariant (len <= size among it) is kept |
| Graphs.GetSize | EDA/project/graph.c:381-384 | the capacity is positive and equals the number of slots |
| Graphs.GetLen | EDA/project/graph.c:577-580 | returns the vertex count len, which never exceeds the capacity; every slot past it is unused |
| Graphs.ScanFrom | EDA/project/graph.c:393-398 | the front-to-back scan returns the first slot in range holding the key, or none when no slot does |
| Graphs.FirstIndex | EDA/project/graph.c:391-399 | returns the first of the scanned slots holding the key, or none exactly when none does |
| Graphs.Find | EDA/project/graph.c:391-399 | returns -1 exactly when no scanned slot holds the key, otherwise the smallest position that does |
| Graphs.InsertAt | EDA/project/graph.c:456 | insert on one slot keeps the invariant and the keys, and adds exactly the one edge to the edge relation |
| Graphs.SetHeadWeightAt | EDA/project/graph.c:483 | setting a head weight keeps the invariant and leaves the edge relation unchanged |
| Graphs.WeightedInsertAt | EDA/project/graph.c:479-483 | for an absent edge, the slot's list becomes (target, weight) in front of the old list and the edge relation gains exactly that edge |
| Graphs.AddEdge | EDA/project/graph.c:442-463 | needs len > 0; false with the graph untouched exactly when a key is missing over the whole capacity; otherwise start's vertex is exactly what insert(finish) makes of it, finish's vertex is exactly what insert(start) makes of it when undirected and distinct, and untouched when directed; start->finish exists, finish->start too when undirected, no other vertex changes, and the edge relation grows by exactly those edges |
| Graphs.AddWeightedEdge | EDA/project/graph.c:465-494 | same failure behaviour; needs the forward edge (and, undirected, a distinct reverse edge) absent; on success start's list is (finish, w) over the old list, and finish's list is (start, w) over its old list when undirected; the touched vertices keep their key and data index and their cursors stay on the same node; no other vertex changes |
| Graphs.GetNeighborsByKey | EDA/project/graph.c:505-513 | the neighbour list of the first inserted vertex holding the key, or the empty list when none does |
| Graphs.GetVertexByKey | EDA/project/graph.c:523-533 | none exactly when no inserted vertex holds the key, otherwise the first one that does |
| Graphs.GetVertexByIndex | EDA/project/graph.c:543-549 | needs index < len; the vertex at that position, which satisfies the vertex invariant |
| Graphs.GetIndex | EDA/project/graph.c:562-575 | needs some inserted vertex with the key; returns the first inserted position holding it |
| GraphLemmas.AddEdgeIdempotent | EDA/project/graph.c:412-463 | adding the same edge a second time reports the same result and changes nothing |
| GraphLemmas.WeightedRoundTrip | EDA/project/graph.c:465-494 | after a successful weighted insertion the edge start->finish (and finish->start when undirected) carries exactly the weight given |
| GraphLemmas.KeyZeroFindsUnusedSlot | EDA/project/graph.c:447-448 | while the table is not full and no inserted vertex has key 0, find over the capacity resolves key 0 to the first unused slot |
| GraphLemmas.KeyZeroEdgeAccepted | EDA/project/graph.c:442-463 | an edge from an inserted key to key 0 is then accepted and lands on that unused slot |
| GraphLemmas.LookupAfterAddVertex | EDA/project/graph.c:367-379 | a fresh key finds the new vertex, at position len, with its data index; a key an earlier vertex holds still finds that earlier vertex |
| GraphLemmas.DataIndexRoundTrip | EDA/project/graph.c:199-202 | the data index given to vertex insertion is the one read back from the inserted vertex |
| GraphLemmas.GetIndexOfVertexByIndex | EDA/project/graph.c:562-575 | for the vertex at position i, Graph_GetIndex finds a position <= i, equal to i exactly when no earlier vertex shares its key |
| GraphLemmas.AddEdgeKeepsSymmetry | EDA/project/graph.c:456-459 | in an undirected graph whose edges all have their reverse, edge insertion keeps that so |
| GraphLemmas.AddWeightedEdgeKeepsSymmetry | EDA/project/graph.c:479-490 | the same for weighted edge insertion |
| GraphLemmas.AddVertexKeepsSymmetry | EDA/project/graph.c:367-379 | vertex insertion keeps every edge paired with its reverse when the slot it fills has no neighbours |
| GraphLemmas.KeyZeroBreaksSymmetry | EDA/project/graph.c:447-459 | an undirected edge to key 0 followed by a vertex insertion into that slot leaves an edge without its reverse |
| Sessions.Step | EDA/project/graph.c:367-494 | one call aborts exactly when an assertion fails or it would dereference NULL; otherwise the invariant, capacity and kind are kept and the count grows by one only for a vertex insertion |
| Sessions.Run | EDA/project/graph.c:367-494 | a completed call sequence keeps the invariant, so len <= size, and len grows by exactly the number of vertex insertions |
| Sessions.SessionKeepsCountWithinCapacity | EDA/project/graph.c:246-379 | from a new graph, a completed session ends with as many vertices as it inserted and no more than the capacity |
| Sessions.FindDistinct | EDA/project/graph.c:391-399 | with distinct keys the position holding a key is what the scans return |
| Sessions.Airports | EDA/project/graph.c:649-660 | the driver's capacity-7 undirected graph with all seven airports inserted is valid and full |
| Sessions.AirportsReady | EDA/project/graph.c:649-660 | the seven airports inserted in order sit at positions 0..6 with their keys and no neighbours |
| Sessions.FraBer | EDA/project/graph.c:663 | edge 140-160 (1.5) is insertable and gives each end a single node with weight 1.5 |
| Sessions.FraLhr | EDA/project/graph.c:664 | edge 140-120 (3) is then insertable and goes at the head of 140's list |
| Sessions.MexFra | EDA/project/graph.c:665 | edge 100-140 (10) is then insertable and leaves 140 with neighbours 100, 120, 160 at weights 10, 3, 1.5 and 160 with 140 at 1.5 |
| Sessions.AirportLookups | EDA/project/graph.c:505-513 | with the airport keys in place, looking up 140 and 160 returns the lists at positions 2 and 4 |
| Sessions.AirportScenario | EDA/project/graph.c:663-665 | the three weighted insertions on the seven airports are all allowed, and key lookup then returns those neighbour lists |

## Left out

- `Graph_Print` (console output) and `Graph_Delete` (memory release only) are not modelled. Values in Dafny need no freeing.
- Allocation failure is not modelled: the NULL returns of `malloc`/`calloc` in `Graph_New`, and the `calloc` assertion in `insert`.
- `Vertex_GetKey` and `Graph_GetWeight` have empty bodies, so there is no behaviour to model.
- The `Menu` and `Cafeteria` records and the driver's airport table are payload only. The table uses an `Airport` type that is not declared.
- The driver inserts 100-150 and later 150-100 as weighted edges of an undirected graph. That second call fails the forward-node assertion, so only the first three weighted edges form the example.
- Weights are `real` values that are only stored. IEEE `double` semantics are not modelled.
- Keys, indices and counts are unbounded integers. `find` returns a `size_t` position as an `int`, and positions beyond `INT_MAX` are not modelled.
- Pointer identity is replaced by positions. A vertex obtained by key or index is a copy, so cursor calls on it do not write back into the graph.
- The cursor operations are modelled on a vertex value, not on a vertex stored in the graph.
- Sessions.AirportScenario: stated for any graph that meets the conditions `Sessions.AirportsReady` proves of the seven-airport graph, rather than for the literal term, to keep the proof small.
