/**
 * The fixed-capacity, append-only vertex table with keyed lookup and edge
 * insertion. Pointers into the table are replaced by positions in it.
 */
module Graphs {

  import opened Wrappers
  import opened Vertices

  datatype GraphType = Undirected | Directed

  /**
   * `size` is the capacity fixed at creation, `len` the number of vertices
   * inserted so far; slots [len, size) are the unused, zero-filled ones.
   */
  datatype Graph = Graph(vertices: seq<Vertex>, size: nat, len: nat, kind: GraphType)
  {
    /** The representation invariant every graph reachable through the API keeps. */
    predicate Valid() {
      && 0 < size
      && |vertices| == size
      && len <= size
      && (forall i :: 0 <= i < |vertices| ==> WellFormed(vertices[i], size))
      && (forall i :: len <= i < |vertices| ==> Unused(vertices[i]))
    }
  }

  /** An unused slot keeps the zeroes the table was created with and a NULL cursor. */
  predicate Unused(v: Vertex) {
    v.key == 0 && v.dataIdx == 0 && v.cursor.Null?
  }

  /** What an edge insertion returns, with the graph it leaves behind. */
  datatype Outcome = Outcome(graph: Graph, ok: bool)

  /** Vertex `i` lists vertex `t` among its neighbours. */
  predicate HasEdge(g: Graph, i: nat, t: nat) {
    i < |g.vertices| && t in Targets(g.vertices[i].neighbors)
  }

  //--------------------------------------------------------------------
  // Creation and vertex insertion
  //--------------------------------------------------------------------

  /** Graph_New: `size` zero-filled slots, no vertex in use. */
  function New(size: nat, kind: GraphType): (g: Graph)
    requires size > 0
    ensures g.Valid()
    ensures g.len == 0 && g.size == size && g.kind == kind
    ensures forall i :: 0 <= i < size ==>
              g.vertices[i].key == 0 && g.vertices[i].dataIdx == 0 && g.vertices[i].neighbors == []
  {
    Graph(seq(size, _ => Vertex(0, 0, [], Null)), size, 0, kind)
  }

  /**
   * Graph_AddVertex: slot `len` gets the key, the data index and an empty
   * neighbour list; its cursor is left as it was (NULL in an unused slot).
   */
  function AddVertex(g: Graph, key: int, index: nat): (r: Graph)
    requires g.Valid() && g.len < g.size
    ensures r.Valid()
    ensures r.len == g.len + 1 && r.size == g.size && r.kind == g.kind
    ensures r.vertices[g.len].key == key && r.vertices[g.len].dataIdx == index
    ensures r.vertices[g.len].neighbors == []
    ensures forall i :: 0 <= i < |g.vertices| && i != g.len ==> r.vertices[i] == g.vertices[i]
  {
    var slot := g.vertices[g.len];
    g.(vertices := g.vertices[g.len := Vertex(key, index, [], slot.cursor)], len := g.len + 1)
  }

  /** Graph_GetSize: the capacity. */
  function GetSize(g: Graph): (n: nat)
    requires g.Valid()
    ensures n > 0 && n == |g.vertices|
  {
    g.size
  }

  /** Graph_GetLen: the number of vertices inserted, never more than the capacity. */
  function GetLen(g: Graph): (n: nat)
    requires g.Valid()
    ensures n == g.len
    ensures n <= GetSize(g)
    ensures forall i :: n <= i < |g.vertices| ==> Unused(g.vertices[i])
  {
    g.len
  }

  //--------------------------------------------------------------------
  // Key lookup
  //--------------------------------------------------------------------

  /** Position `i` is the first of the first `n` slots that holds `key`. */
  predicate IsFirstMatch(vs: seq<Vertex>, n: nat, key: int, i: nat)
    requires n <= |vs|
  {
    i < n && vs[i].key == key && forall j :: 0 <= j < i ==> vs[j].key != key
  }

  /** None of the first `n` slots holds `key`. */
  predicate NoMatch(vs: seq<Vertex>, n: nat, key: int)
    requires n <= |vs|
  {
    forall j :: 0 <= j < n ==> vs[j].key != key
  }

  /** The scan of slots [i, n) for `key`, front to back. */
  function ScanFrom(vs: seq<Vertex>, n: nat, key: int, i: nat): (r: Option<nat>)
    requires i <= n <= |vs|
    ensures r.None? <==> forall j :: i <= j < n ==> vs[j].key != key
    ensures r.Some? ==> i <= r.value < n && vs[r.value].key == key
                        && forall j :: i <= j < r.value ==> vs[j].key != key
    decreases n - i
  {
    if i == n then None
    else if vs[i].key == key then Some(i)
    else ScanFrom(vs, n, key, i + 1)
  }

  /** The first of the first `n` slots whose key is `key`, if any. */
  function FirstIndex(vs: seq<Vertex>, n: nat, key: int): (r: Option<nat>)
    requires n <= |vs|
    ensures r.None? <==> NoMatch(vs, n, key)
    ensures r.Some? ==> IsFirstMatch(vs, n, key, r.value)
  {
    ScanFrom(vs, n, key, 0)
  }

  /** find: the position of the first slot among the first `n` holding `key`, or -1. */
  function Find(vs: seq<Vertex>, n: nat, key: int): (r: int)
    requires n <= |vs|
    ensures r == -1 <==> NoMatch(vs, n, key)
    ensures r != -1 ==> 0 <= r && IsFirstMatch(vs, n, key, r)
  {
    match FirstIndex(vs, n, key)
    case None => -1
    case Some(i) => i
  }

  //--------------------------------------------------------------------
  // Edge insertion
  //--------------------------------------------------------------------

  /** insert on the vertex in slot `i`. */
  function InsertAt(g: Graph, i: nat, t: nat): (r: Graph)
    requires g.Valid() && i < g.size && t < g.size
    ensures r.Valid()
    ensures r.size == g.size && r.len == g.len && r.kind == g.kind
    ensures forall j :: 0 <= j < |g.vertices| ==> r.vertices[j].key == g.vertices[j].key
    ensures r.vertices[i] == Insert(g.vertices[i], t).vertex
    ensures forall j :: 0 <= j < |g.vertices| && j != i ==> r.vertices[j] == g.vertices[j]
    ensures forall a, b :: HasEdge(r, a, b) <==> HasEdge(g, a, b) || (a == i && b == t)
  {
    var v := Insert(g.vertices[i], t).vertex;
    var r := g.(vertices := g.vertices[i := v]);
    assert WellFormed(v, g.size) by {
      assert forall u :: u in Targets(v.neighbors) ==> u < g.size;
      forall j | 0 <= j < |v.neighbors| ensures v.neighbors[j].index < g.size {
        assert Targets(v.neighbors)[j] == v.neighbors[j].index;
      }
    }
    r
  }

  /** `n->weight = weight` on the head node of the vertex in slot `i`. */
  function SetHeadWeightAt(g: Graph, i: nat, w: Weight): (r: Graph)
    requires g.Valid() && i < g.size && |g.vertices[i].neighbors| > 0
    ensures r.Valid()
    ensures r.size == g.size && r.len == g.len && r.kind == g.kind
    ensures forall j :: 0 <= j < |g.vertices| ==> r.vertices[j].key == g.vertices[j].key
    ensures r.vertices[i] == SetHeadWeight(g.vertices[i], w)
    ensures forall j :: 0 <= j < |g.vertices| && j != i ==> r.vertices[j] == g.vertices[j]
    ensures forall a, b :: HasEdge(r, a, b) <==> HasEdge(g, a, b)
  {
    var v := SetHeadWeight(g.vertices[i], w);
    assert forall j :: 0 <= j < |v.neighbors| ==> v.neighbors[j].index == Targets(v.neighbors)[j];
    assert forall j :: 0 <= j < |v.neighbors| ==>
             Targets(g.vertices[i].neighbors)[j] == g.vertices[i].neighbors[j].index;
    g.(vertices := g.vertices[i := v])
  }

  /** insert of a new edge on slot `i` followed by setting the new node's weight. */
  function WeightedInsertAt(g: Graph, i: nat, t: nat, w: Weight): (r: Graph)
    requires g.Valid() && i < g.size && t < g.size && !HasEdge(g, i, t)
    ensures r.Valid()
    ensures r.size == g.size && r.len == g.len && r.kind == g.kind
    ensures forall j :: 0 <= j < |g.vertices| ==> r.vertices[j].key == g.vertices[j].key
    ensures r.vertices[i].neighbors == [Node(t, w)] + g.vertices[i].neighbors
    ensures r.vertices[i].dataIdx == g.vertices[i].dataIdx
    ensures r.vertices[i].cursor == ShiftCursor(g.vertices[i].cursor)
    ensures forall j :: 0 <= j < |g.vertices| && j != i ==> r.vertices[j] == g.vertices[j]
    ensures forall a, b :: HasEdge(r, a, b) <==> HasEdge(g, a, b) || (a == i && b == t)
  {
    var g1 := InsertAt(g, i, t);
    var r := SetHeadWeightAt(g1, i, w);
    assert r.vertices[i].neighbors == [Node(t, w)] + g.vertices[i].neighbors by {
      assert r.vertices[i].neighbors[1..] == g.vertices[i].neighbors;
    }
    r
  }

  /**
   * Graph_AddEdge: both keys are looked up over the whole capacity (so key 0
   * can name an unused slot); if either is missing nothing changes and the
   * result is false. Otherwise start -> finish is inserted and, in an
   * undirected graph, finish -> start too, each deduplicated on its own.
   */
  function AddEdge(g: Graph, start: int, finish: int): (r: Outcome)
    requires g.Valid() && g.len > 0
    ensures r.graph.Valid()
    ensures r.graph.size == g.size && r.graph.len == g.len && r.graph.kind == g.kind
    ensures forall j :: 0 <= j < |g.vertices| ==> r.graph.vertices[j].key == g.vertices[j].key
    ensures r.ok <==> !NoMatch(g.vertices, g.size, start) && !NoMatch(g.vertices, g.size, finish)
    ensures !r.ok ==> r.graph == g
    ensures r.ok ==>
              var s, f := Find(g.vertices, g.size, start), Find(g.vertices, g.size, finish);
              && HasEdge(r.graph, s, f)
              && r.graph.vertices[s] == Insert(g.vertices[s], f).vertex
              && (g.kind == Undirected && s != f ==> r.graph.vertices[f] == Insert(g.vertices[f], s).vertex)
              && (g.kind == Undirected ==> HasEdge(r.graph, f, s))
              && (g.kind == Directed && s != f ==> r.graph.vertices[f] == g.vertices[f])
              && (forall j :: 0 <= j < |g.vertices| && j != s && j != f ==> r.graph.vertices[j] == g.vertices[j])
              && (forall a, b :: HasEdge(r.graph, a, b) <==>
                    HasEdge(g, a, b) || (a == s && b == f) || (g.kind == Undirected && a == f && b == s))
  {
    var s := Find(g.vertices, g.size, start);
    var f := Find(g.vertices, g.size, finish);
    if s == -1 || f == -1 then Outcome(g, false)
    else
      var g1 := InsertAt(g, s, f);
      if g.kind == Undirected then Outcome(InsertAt(g1, f, s), true)
      else Outcome(g1, true)
  }

  /**
   * What Graph_AddWeightedEdge needs to run without failing its assertion or
   * following a NULL node: when both keys are found, the forward edge is
   * new and, in an undirected graph, so is the reverse one (which also rules
   * out a self-loop, as the forward insertion would make the reverse a duplicate).
   */
  predicate WeightedInsertable(g: Graph, start: int, finish: int)
    requires g.Valid()
  {
    var s, f := Find(g.vertices, g.size, start), Find(g.vertices, g.size, finish);
    s != -1 && f != -1 ==>
      && !HasEdge(g, s, f)
      && (g.kind == Undirected ==> s != f && !HasEdge(g, f, s))
  }

  /**
   * Graph_AddWeightedEdge: lookup and failure as in AddEdge; on success the
   * new head of start's list is (finish, weight) and, in an undirected
   * graph, the new head of finish's list is (start, weight).
   */
  function AddWeightedEdge(g: Graph, start: int, finish: int, w: Weight): (r: Outcome)
    requires g.Valid() && g.len > 0
    requires WeightedInsertable(g, start, finish)
    ensures r.graph.Valid()
    ensures r.graph.size == g.size && r.graph.len == g.len && r.graph.kind == g.kind
    ensures forall j :: 0 <= j < |g.vertices| ==> r.graph.vertices[j].key == g.vertices[j].key
    ensures r.ok <==> !NoMatch(g.vertices, g.size, start) && !NoMatch(g.vertices, g.size, finish)
    ensures !r.ok ==> r.graph == g
    ensures r.ok ==>
              var s, f := Find(g.vertices, g.size, start), Find(g.vertices, g.size, finish);
              && r.graph.vertices[s].neighbors == [Node(f, w)] + g.vertices[s].neighbors
              && r.graph.vertices[s].dataIdx == g.vertices[s].dataIdx
              && r.graph.vertices[s].cursor == ShiftCursor(g.vertices[s].cursor)
              && (g.kind == Undirected ==>
                    && r.graph.vertices[f].neighbors == [Node(s, w)] + g.vertices[f].neighbors
                    && r.graph.vertices[f].dataIdx == g.vertices[f].dataIdx
                    && r.graph.vertices[f].cursor == ShiftCursor(g.vertices[f].cursor))
              && (g.kind == Directed && s != f ==> r.graph.vertices[f] == g.vertices[f])
              && (forall j :: 0 <= j < |g.vertices| && j != s && j != f ==> r.graph.vertices[j] == g.vertices[j])
              && (forall a, b :: HasEdge(r.graph, a, b) <==>
                    HasEdge(g, a, b) || (a == s && b == f) || (g.kind == Undirected && a == f && b == s))
  {
    var s := Find(g.vertices, g.size, start);
    var f := Find(g.vertices, g.size, finish);
    if s == -1 || f == -1 then Outcome(g, false)
    else
      var g1 := WeightedInsertAt(g, s, f, w);
      if g.kind == Undirected then
        Outcome(WeightedInsertAt(g1, f, s, w), true)
      else Outcome(g1, true)
  }

  //--------------------------------------------------------------------
  // Retrieval
  //--------------------------------------------------------------------

  /**
   * Graph_GetNeighborsByKey: the neighbour list of the first inserted vertex
   * holding `key`; the empty list (a NULL head) when there is none.
   */
  function GetNeighborsByKey(g: Graph, key: int): (ns: seq<Node>)
    requires g.Valid()
    ensures NoMatch(g.vertices, g.len, key) ==> ns == []
    ensures forall i :: 0 <= i < g.len && IsFirstMatch(g.vertices, g.len, key, i) ==> ns == g.vertices[i].neighbors
  {
    match FirstIndex(g.vertices, g.len, key)
    case None => []
    case Some(i) => g.vertices[i].neighbors
  }

  /** Graph_GetVertexByKey: the first inserted vertex holding `key`, or none. */
  function GetVertexByKey(g: Graph, key: int): (r: Option<Vertex>)
    requires g.Valid()
    ensures r.None? <==> NoMatch(g.vertices, g.len, key)
    ensures forall i :: 0 <= i < g.len && IsFirstMatch(g.vertices, g.len, key, i) ==> r == Some(g.vertices[i])
  {
    match FirstIndex(g.vertices, g.len, key)
    case None => None
    case Some(i) => Some(g.vertices[i])
  }

  /** Graph_GetVertexByIndex: the vertex at an inserted position. */
  function GetVertexByIndex(g: Graph, index: nat): (v: Vertex)
    requires g.Valid() && index < g.len
    ensures WellFormed(v, g.size)
    ensures v == g.vertices[index]
  {
    g.vertices[index]
  }

  /**
   * Graph_GetIndex: re-derives a vertex's position by scanning the inserted
   * vertices for its key; the source asserts that one is found.
   */
  function GetIndex(g: Graph, v: Vertex): (index: nat)
    requires g.Valid()
    requires exists i :: 0 <= i < g.len && g.vertices[i].key == v.key
    ensures IsFirstMatch(g.vertices, g.len, v.key, index)
  {
    match FirstIndex(g.vertices, g.len, v.key)
    case Some(i) => i
  }
}
