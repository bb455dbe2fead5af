/**
 * One vertex of the adjacency-list graph: its key, the index of its record
 * in the caller's data table, its singly linked neighbour list (here a
 * sequence whose head is position 0) and its single traversal cursor.
 */
module Vertices {

  import opened Wrappers

  /** Edge weights are only stored and handed back; `real` stands in for `double`. */
  type Weight = real

  /** A neighbour-list node: the neighbour's position in the vertex table and the edge weight. */
  datatype Node = Node(index: nat, weight: Weight)

  /**
   * The cursor is a pointer into the neighbour list or NULL. A non-null
   * cursor is recorded as the position of the node it points at.
   */
  datatype Cursor = Null | At(pos: nat)

  /** `key` and `dataIdx` are the pair the source keeps in its `Map` record. */
  datatype Vertex = Vertex(key: int, dataIdx: nat, neighbors: seq<Node>, cursor: Cursor)
  {
    /** A non-null cursor points at a node of this vertex's own list. */
    predicate CursorValid() {
      cursor.At? ==> cursor.pos < |neighbors|
    }
  }

  /** The neighbour indices of a list, head first. */
  function Targets(ns: seq<Node>): (ts: seq<nat>)
    ensures |ts| == |ns|
    ensures forall j :: 0 <= j < |ns| ==> ts[j] == ns[j].index
  {
    seq(|ns|, j requires 0 <= j < |ns| => ns[j].index)
  }

  /** No neighbour index occurs twice in the list. */
  predicate NoDupTargets(ns: seq<Node>) {
    forall j, k :: 0 <= j < k < |ns| ==> ns[j].index != ns[k].index
  }

  /**
   * The invariant every vertex of a graph of capacity `bound` keeps: a
   * valid cursor, no duplicate neighbour, every neighbour a slot of the table.
   */
  predicate WellFormed(v: Vertex, bound: nat) {
    && v.CursorValid()
    && NoDupTargets(v.neighbors)
    && forall j :: 0 <= j < |v.neighbors| ==> v.neighbors[j].index < bound
  }

  /** The nodes a traversal has still to visit: from the cursor to the end. */
  function Remaining(v: Vertex): seq<Node> {
    match v.cursor
    case Null => []
    case At(p) => if p < |v.neighbors| then v.neighbors[p..] else []
  }

  //--------------------------------------------------------------------
  // Traversal protocol
  //--------------------------------------------------------------------

  /** Vertex_Start: point the cursor at the head of the list (NULL when the list is empty). */
  function Start(v: Vertex): (r: Vertex)
    ensures r.CursorValid()
    ensures Remaining(r) == v.neighbors
    ensures r.key == v.key && r.dataIdx == v.dataIdx && r.neighbors == v.neighbors
  {
    v.(cursor := if |v.neighbors| == 0 then Null else At(0))
  }

  /** Vertex_End: the cursor is NULL. */
  function End(v: Vertex): (atEnd: bool)
    requires v.CursorValid()
    ensures atEnd <==> Remaining(v) == []
  {
    v.cursor.Null?
  }

  /** Vertex_Next: move the cursor one node on; it becomes NULL after the last node. */
  function Next(v: Vertex): (r: Vertex)
    requires v.CursorValid() && v.cursor.At?
    ensures r.CursorValid()
    ensures Remaining(r) == Remaining(v)[1..]
    ensures r.key == v.key && r.dataIdx == v.dataIdx && r.neighbors == v.neighbors
  {
    var p := v.cursor.pos + 1;
    v.(cursor := if p < |v.neighbors| then At(p) else Null)
  }

  /** Vertex_Get: the neighbour index of the node under the cursor. */
  function Get(v: Vertex): (index: nat)
    requires v.CursorValid() && v.cursor.At?
    ensures Remaining(v) != [] && index == Remaining(v)[0].index
  {
    v.neighbors[v.cursor.pos].index
  }

  /** Vertex_GetaereopuertosIndex: the index into the caller's data table. */
  function DataIndex(v: Vertex): (index: nat)
    ensures index == v.dataIdx
  {
    v.dataIdx
  }

  /** The vertex after `k` calls of Next. */
  function NextN(v: Vertex, k: nat): (r: Vertex)
    requires v.CursorValid() && k <= |Remaining(v)|
    ensures r.CursorValid()
    ensures Remaining(r) == Remaining(v)[k..]
    ensures r.key == v.key && r.dataIdx == v.dataIdx && r.neighbors == v.neighbors
    decreases k
  {
    if k == 0 then v else NextN(Next(v), k - 1)
  }

  /**
   * Starting from Start, End holds after exactly |neighbors| calls of Next
   * and after no fewer.
   */
  lemma EndAfterExactlyLength(v: Vertex, k: nat)
    requires k <= |v.neighbors|
    ensures End(NextN(Start(v), k)) <==> k == |v.neighbors|
  {
  }

  /** Calling Start again after any number of steps restarts at the same first neighbour. */
  lemma RestartIsStart(v: Vertex, k: nat)
    requires k <= |v.neighbors|
    ensures Start(NextN(Start(v), k)) == Start(v)
  {
  }

  /**
   * The loop the source documents for enumerating neighbours
   * (Start; while !End { Get; Next }): it visits every neighbour index in
   * list order, takes |neighbors| steps and leaves the cursor at the end.
   */
  method Traverse(v: Vertex) returns (visited: seq<nat>, steps: nat, done: Vertex)
    ensures visited == Targets(v.neighbors)
    ensures steps == |v.neighbors|
    ensures done.CursorValid() && End(done)
    ensures done.key == v.key && done.dataIdx == v.dataIdx && done.neighbors == v.neighbors
  {
    var cur := Start(v);
    visited := [];
    steps := 0;
    while !End(cur)
      invariant cur.CursorValid()
      invariant cur.key == v.key && cur.dataIdx == v.dataIdx && cur.neighbors == v.neighbors
      invariant steps <= |v.neighbors|
      invariant Remaining(cur) == v.neighbors[steps..]
      invariant visited == Targets(v.neighbors[..steps])
      decreases |Remaining(cur)|
    {
      assert v.neighbors[..steps + 1] == v.neighbors[..steps] + [v.neighbors[steps]];
      visited := visited + [Get(cur)];
      cur := Next(cur);
      steps := steps + 1;
    }
    assert v.neighbors[..steps] == v.neighbors;
    done := cur;
  }

  //--------------------------------------------------------------------
  // Neighbour lookup and insertion
  //--------------------------------------------------------------------

  /** The linear scan of a neighbour list for a given index. */
  function ListContains(ns: seq<Node>, index: nat): (found: bool)
    ensures found <==> exists j :: 0 <= j < |ns| && ns[j].index == index
  {
    if |ns| == 0 then false
    else if ns[0].index == index then true
    else
      var rest := ListContains(ns[1..], index);
      assert forall j :: 0 < j < |ns| ==> ns[j] == ns[1..][j - 1];
      rest
  }

  /** find_index_in_vertex: does `index` already occur in the vertex's neighbour list? */
  function FindIndexInVertex(v: Vertex, index: nat): (found: bool)
    ensures found <==> index in Targets(v.neighbors)
  {
    ListContains(v.neighbors, index)
  }

  /** What `insert` leaves behind: the vertex, and whether a node was created (a non-NULL return). */
  datatype Inserted = Inserted(vertex: Vertex, created: bool)

  /** A pointer to a node keeps pointing at it when a node is put in front of it. */
  function ShiftCursor(c: Cursor): Cursor {
    match c
    case Null => Null
    case At(p) => At(p + 1)
  }

  /** Putting a fresh index in front of a list keeps the list free of duplicates. */
  lemma PrependKeepsNoDup(ns: seq<Node>, n: Node)
    requires NoDupTargets(ns) && n.index !in Targets(ns)
    ensures NoDupTargets([n] + ns)
  {
    var ms := [n] + ns;
    forall j, k | 0 <= j < k < |ms|
      ensures ms[j].index != ms[k].index
    {
      if j == 0 {
        assert Targets(ns)[k - 1] == ms[k].index;
      } else {
        assert ms[j] == ns[j - 1] && ms[k] == ns[k - 1];
      }
    }
  }

  /**
   * Linking a node in front of the head. A non-null cursor keeps pointing at
   * the same node, which is now one position further from the head.
   */
  function Prepend(v: Vertex, n: Node): (r: Vertex)
    ensures |r.neighbors| == |v.neighbors| + 1 && r.neighbors[0] == n && r.neighbors[1..] == v.neighbors
    ensures Targets(r.neighbors) == [n.index] + Targets(v.neighbors)
    ensures r.key == v.key && r.dataIdx == v.dataIdx
    ensures v.CursorValid() ==> r.CursorValid() && Remaining(r) == Remaining(v)
    ensures r.cursor == ShiftCursor(v.cursor)
  {
    var r := Vertex(v.key, v.dataIdx, [n] + v.neighbors, ShiftCursor(v.cursor));
    assert r.neighbors[1..] == v.neighbors;
    if v.cursor.At? && v.cursor.pos < |v.neighbors| then
      assert r.neighbors[v.cursor.pos + 1..] == v.neighbors[v.cursor.pos..];
      r
    else r
  }

  /**
   * insert: when `index` is already a neighbour nothing changes and no node
   * is reported; otherwise a node (index, weight 0) becomes the new head.
   */
  function Insert(v: Vertex, index: nat): (r: Inserted)
    ensures r.created <==> index !in Targets(v.neighbors)
    ensures !r.created ==> r.vertex == v
    ensures r.created ==> |r.vertex.neighbors| == |v.neighbors| + 1
                          && r.vertex.neighbors[0] == Node(index, 0.0)
                          && r.vertex.neighbors[1..] == v.neighbors
    ensures forall t :: t in Targets(r.vertex.neighbors) <==> t in Targets(v.neighbors) || t == index
    ensures r.vertex.key == v.key && r.vertex.dataIdx == v.dataIdx
    ensures NoDupTargets(v.neighbors) ==> NoDupTargets(r.vertex.neighbors)
    ensures v.CursorValid() ==> r.vertex.CursorValid() && Remaining(r.vertex) == Remaining(v)
    ensures r.created ==> r.vertex.cursor == ShiftCursor(v.cursor)
    ensures v.cursor.Null? ==> r.vertex.cursor.Null?
  {
    if FindIndexInVertex(v, index) then Inserted(v, false)
    else
      var n := Node(index, 0.0);
      if NoDupTargets(v.neighbors) then
        PrependKeepsNoDup(v.neighbors, n);
        Inserted(Prepend(v, n), true)
      else
        Inserted(Prepend(v, n), true)
  }

  /** The weight on the edge to `index`, if the list holds one. */
  function WeightTo(ns: seq<Node>, index: nat): (w: Option<Weight>)
    ensures w.None? <==> index !in Targets(ns)
  {
    if |ns| == 0 then None
    else if ns[0].index == index then Some(ns[0].weight)
    else
      assert Targets(ns) == [ns[0].index] + Targets(ns[1..]);
      WeightTo(ns[1..], index)
  }

  /** `n->weight = weight` on the node `insert` just put at the head of the list. */
  function SetHeadWeight(v: Vertex, w: Weight): (r: Vertex)
    requires |v.neighbors| > 0
    ensures |r.neighbors| == |v.neighbors| && r.neighbors[0] == Node(v.neighbors[0].index, w)
    ensures r.neighbors[1..] == v.neighbors[1..]
    ensures Targets(r.neighbors) == Targets(v.neighbors)
    ensures r.key == v.key && r.dataIdx == v.dataIdx && r.cursor == v.cursor
  {
    var ns := v.neighbors[0 := Node(v.neighbors[0].index, w)];
    assert Targets(ns) == Targets(v.neighbors);
    v.(neighbors := ns)
  }
}
