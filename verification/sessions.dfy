/**
 * Sequences of API calls on one graph. A call whose assertion would fail
 * aborts the program; a run that reaches such a call yields None.
 */
module Sessions {

  import opened Wrappers
  import opened Vertices
  import opened Graphs

  /** The mutating calls: Graph_AddVertex, Graph_AddEdge, Graph_AddWeightedEdge. */
  datatype Op =
    | AddV(key: int, index: nat)
    | AddE(start: int, finish: int)
    | AddWE(start: int, finish: int, weight: Weight)

  /**
   * The call runs to completion on `g`: none of its assertions fails and,
   * for a weighted insertion into an undirected graph, it does not follow
   * the NULL node an unchecked duplicate reverse insertion would return.
   */
  predicate Allowed(g: Graph, op: Op)
    requires g.Valid()
  {
    match op
    case AddV(_, _) => g.len < g.size
    case AddE(_, _) => g.len > 0
    case AddWE(s, f, _) => g.len > 0 && WeightedInsertable(g, s, f)
  }

  /** One call; None when an assertion fails or it would dereference NULL. */
  function Step(g: Graph, op: Op): (r: Option<Graph>)
    requires g.Valid()
    ensures r.None? <==> !Allowed(g, op)
    ensures r.Some? ==> r.value.Valid() && r.value.size == g.size && r.value.kind == g.kind
    ensures r.Some? ==> r.value.len == g.len + (if op.AddV? then 1 else 0)
  {
    if !Allowed(g, op) then None
    else
      match op
      case AddV(k, i) => Some(AddVertex(g, k, i))
      case AddE(s, f) => Some(AddEdge(g, s, f).graph)
      case AddWE(s, f, w) => Some(AddWeightedEdge(g, s, f, w).graph)
  }

  /** How many vertex insertions a call sequence holds. */
  function CountAddV(ops: seq<Op>): nat {
    if |ops| == 0 then 0 else (if ops[0].AddV? then 1 else 0) + CountAddV(ops[1..])
  }

  /**
   * The calls in order. A run that completes keeps the representation
   * invariant, so the vertex count never exceeds the capacity; the count
   * grows by exactly the number of vertex insertions; capacity and
   * directedness never change.
   */
  function Run(g: Graph, ops: seq<Op>): (r: Option<Graph>)
    requires g.Valid()
    ensures r.Some? ==> r.value.Valid() && r.value.len <= r.value.size
    ensures r.Some? ==> r.value.size == g.size && r.value.kind == g.kind
    ensures r.Some? ==> r.value.len == g.len + CountAddV(ops)
    decreases |ops|
  {
    if |ops| == 0 then Some(g)
    else
      match Step(g, ops[0])
      case None => None
      case Some(g1) => Run(g1, ops[1..])
  }

  /** Vertex count after a completed session from Graph_New: at most the capacity. */
  lemma SessionKeepsCountWithinCapacity(size: nat, kind: GraphType, ops: seq<Op>)
    requires size > 0
    ensures var r := Run(New(size, kind), ops);
            r.Some? ==> CountAddV(ops) == GetLen(r.value) <= GetSize(r.value) == size
  {
  }

  //--------------------------------------------------------------------
  // The documented airport example
  //--------------------------------------------------------------------

  /** Seven airports, keys 120, 130, 140, 150, 160, 170, 100 at data indices 0..6. */
  function Airports(): (g: Graph)
    ensures g.Valid() && g.len == 7 && g.size == 7 && g.kind == Undirected
  {
    var g0 := New(7, Undirected);
    var g1 := AddVertex(g0, 120, 0);
    var g2 := AddVertex(g1, 130, 1);
    var g3 := AddVertex(g2, 140, 2);
    var g4 := AddVertex(g3, 150, 3);
    var g5 := AddVertex(g4, 160, 4);
    var g6 := AddVertex(g5, 170, 5);
    AddVertex(g6, 100, 6)
  }

  /** The seven airport keys sit at positions 0..6. */
  predicate AirportKeyed(g: Graph) {
    && g.Valid() && g.len == 7 && g.size == 7 && g.kind == Undirected
    && g.vertices[0].key == 120 && g.vertices[1].key == 130 && g.vertices[2].key == 140
    && g.vertices[3].key == 150 && g.vertices[4].key == 160 && g.vertices[5].key == 170
    && g.vertices[6].key == 100
  }

  /** With distinct keys, the position that holds a key is the one every scan returns. */
  lemma FindDistinct(vs: seq<Vertex>, n: nat, key: int, i: nat)
    requires n <= |vs| && i < n && vs[i].key == key
    requires forall j :: 0 <= j < n && j != i ==> vs[j].key != key
    ensures Find(vs, n, key) == i && FirstIndex(vs, n, key) == Some(i)
  {
    assert IsFirstMatch(vs, n, key, i);
  }

  /** Graph_AddWeightedEdge(140, 160, 1.5) on the fresh airport graph. */
  lemma FraBer(g: Graph)
    requires AirportKeyed(g) && forall i :: 0 <= i < 7 ==> g.vertices[i].neighbors == []
    ensures WeightedInsertable(g, 140, 160)
    ensures var r := AddWeightedEdge(g, 140, 160, 1.5);
            && r.ok && AirportKeyed(r.graph)
            && r.graph.vertices[2].neighbors == [Node(4, 1.5)] && r.graph.vertices[4].neighbors == [Node(2, 1.5)]
            && r.graph.vertices[0].neighbors == [] && r.graph.vertices[6].neighbors == []
  {
    FindDistinct(g.vertices, 7, 140, 2);
    FindDistinct(g.vertices, 7, 160, 4);
    assert Targets(g.vertices[2].neighbors) == [] && Targets(g.vertices[4].neighbors) == [];
  }

  /** ... then Graph_AddWeightedEdge(140, 120, 3). */
  lemma FraLhr(g: Graph)
    requires AirportKeyed(g)
    requires g.vertices[2].neighbors == [Node(4, 1.5)] && g.vertices[4].neighbors == [Node(2, 1.5)]
    requires g.vertices[0].neighbors == [] && g.vertices[6].neighbors == []
    ensures WeightedInsertable(g, 140, 120)
    ensures var r := AddWeightedEdge(g, 140, 120, 3.0);
            && r.ok && AirportKeyed(r.graph)
            && r.graph.vertices[2].neighbors == [Node(0, 3.0), Node(4, 1.5)]
            && r.graph.vertices[4].neighbors == [Node(2, 1.5)]
            && r.graph.vertices[6].neighbors == []
  {
    FindDistinct(g.vertices, 7, 140, 2);
    FindDistinct(g.vertices, 7, 120, 0);
    assert Targets(g.vertices[2].neighbors) == [4] && Targets(g.vertices[0].neighbors) == [];
  }

  /** ... then Graph_AddWeightedEdge(100, 140, 10). */
  lemma MexFra(g: Graph)
    requires AirportKeyed(g)
    requires g.vertices[2].neighbors == [Node(0, 3.0), Node(4, 1.5)]
    requires g.vertices[4].neighbors == [Node(2, 1.5)] && g.vertices[6].neighbors == []
    ensures WeightedInsertable(g, 100, 140)
    ensures var r := AddWeightedEdge(g, 100, 140, 10.0);
            && r.ok && AirportKeyed(r.graph)
            && r.graph.vertices[2].neighbors == [Node(6, 10.0), Node(0, 3.0), Node(4, 1.5)]
            && r.graph.vertices[4].neighbors == [Node(2, 1.5)]
  {
    FindDistinct(g.vertices, 7, 100, 6);
    FindDistinct(g.vertices, 7, 140, 2);
    assert Targets(g.vertices[2].neighbors) == [0, 4] && Targets(g.vertices[6].neighbors) == [];
  }

  /** Looking the keys 140 and 160 up returns the lists held at positions 2 and 4. */
  lemma AirportLookups(g: Graph)
    requires AirportKeyed(g)
    ensures GetNeighborsByKey(g, 140) == g.vertices[2].neighbors
    ensures GetNeighborsByKey(g, 160) == g.vertices[4].neighbors
  {
    FindDistinct(g.vertices, 7, 140, 2);
    FindDistinct(g.vertices, 7, 160, 4);
  }

  /**
   * The end-to-end example: in an undirected graph of the seven airports,
   * weighted edges 140-160 (1.5), 140-120 (3) and 100-140 (10) leave 140
   * with neighbours 100, 120 and 160 (most recent first) carrying those
   * weights, and 160 with neighbour 140 at weight 1.5.
   */
  lemma AirportScenario(g: Graph)
    requires AirportKeyed(g) && forall i :: 0 <= i < 7 ==> g.vertices[i].neighbors == []
    ensures var g1 := AddWeightedEdge(g, 140, 160, 1.5).graph;
            && WeightedInsertable(g1, 140, 120)
            && var g2 := AddWeightedEdge(g1, 140, 120, 3.0).graph;
            && WeightedInsertable(g2, 100, 140)
            && var g3 := AddWeightedEdge(g2, 100, 140, 10.0).graph;
            && GetNeighborsByKey(g3, 140) == [Node(6, 10.0), Node(0, 3.0), Node(4, 1.5)]
            && GetNeighborsByKey(g3, 160) == [Node(2, 1.5)]
  {
    FraBer(g);
    var g1 := AddWeightedEdge(g, 140, 160, 1.5).graph;
    FraLhr(g1);
    var g2 := AddWeightedEdge(g1, 140, 120, 3.0).graph;
    MexFra(g2);
    AirportLookups(AddWeightedEdge(g2, 100, 140, 10.0).graph);
  }

  /** The seven airports inserted in order meet the scenario's starting conditions. */
  lemma AirportsReady()
    ensures AirportKeyed(Airports())
    ensures forall i :: 0 <= i < 7 ==> Airports().vertices[i].neighbors == []
  {
  }
}
