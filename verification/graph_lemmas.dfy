/** Properties relating several graph operations. */
module GraphLemmas {

  import opened Wrappers
  import opened Vertices
  import opened Graphs

  /** Lookups read only the keys of the slots they scan. */
  lemma FindReadsKeysOnly(vs: seq<Vertex>, ws: seq<Vertex>, n: nat, key: int)
    requires n <= |vs| && n <= |ws|
    requires forall j :: 0 <= j < n ==> vs[j].key == ws[j].key
    ensures Find(vs, n, key) == Find(ws, n, key)
  {
    var a, b := Find(vs, n, key), Find(ws, n, key);
    if a != -1 && b != -1 {
      assert !(a < b) && !(b < a);
    }
  }

  /** Inserting an edge that is already there leaves the graph as it was. */
  lemma InsertAtExisting(g: Graph, i: nat, t: nat)
    requires g.Valid() && i < g.size && t < g.size && HasEdge(g, i, t)
    ensures InsertAt(g, i, t) == g
  {
    assert g.vertices[i := g.vertices[i]] == g.vertices;
  }

  /**
   * Adding the same edge twice is the same as adding it once: the second
   * call reports the same result and changes nothing.
   */
  lemma AddEdgeIdempotent(g: Graph, start: int, finish: int)
    requires g.Valid() && g.len > 0
    ensures AddEdge(AddEdge(g, start, finish).graph, start, finish) == AddEdge(g, start, finish)
  {
    var r := AddEdge(g, start, finish);
    var g1 := r.graph;
    FindReadsKeysOnly(g.vertices, g1.vertices, g.size, start);
    FindReadsKeysOnly(g.vertices, g1.vertices, g.size, finish);
    if r.ok {
      var s, f := Find(g.vertices, g.size, start), Find(g.vertices, g.size, finish);
      InsertAtExisting(g1, s, f);
      if g.kind == Undirected {
        InsertAtExisting(g1, f, s);
      }
    }
  }

  /** After a successful weighted insertion, looking up the edge yields exactly the weight given. */
  lemma WeightedRoundTrip(g: Graph, start: int, finish: int, w: Weight)
    requires g.Valid() && g.len > 0 && WeightedInsertable(g, start, finish)
    ensures var r := AddWeightedEdge(g, start, finish, w);
            var s, f := Find(g.vertices, g.size, start), Find(g.vertices, g.size, finish);
            r.ok ==>
              && WeightTo(r.graph.vertices[s].neighbors, f) == Some(w)
              && (g.kind == Undirected ==> WeightTo(r.graph.vertices[f].neighbors, s) == Some(w))
  {
  }

  /**
   * find scans the whole capacity and unused slots hold key 0, so while
   * the table is not full and no inserted vertex has key 0, key 0 resolves
   * to the first unused slot.
   */
  lemma KeyZeroFindsUnusedSlot(g: Graph)
    requires g.Valid() && g.len < g.size
    requires NoMatch(g.vertices, g.len, 0)
    ensures Find(g.vertices, g.size, 0) == g.len
  {
    assert IsFirstMatch(g.vertices, g.size, 0, g.len);
  }

  /** ... and an edge to key 0 is then accepted, landing on that unused slot. */
  lemma KeyZeroEdgeAccepted(g: Graph, start: int)
    requires g.Valid() && 0 < g.len < g.size
    requires NoMatch(g.vertices, g.len, 0)
    requires !NoMatch(g.vertices, g.len, start)
    ensures var r := AddEdge(g, start, 0);
            r.ok && HasEdge(r.graph, Find(g.vertices, g.size, start), g.len)
  {
    KeyZeroFindsUnusedSlot(g);
    var i :| 0 <= i < g.len && g.vertices[i].key == start;
    assert g.vertices[i].key == start;
  }

  /**
   * Key lookup after a vertex insertion: a key no earlier vertex holds finds
   * the new vertex, whose position and data index come back unchanged; a
   * key an earlier vertex holds still finds that earlier vertex.
   */
  lemma LookupAfterAddVertex(g: Graph, key: int, index: nat)
    requires g.Valid() && g.len < g.size
    ensures var r := AddVertex(g, key, index);
            && (NoMatch(g.vertices, g.len, key) ==>
                  && GetVertexByKey(r, key) == Some(r.vertices[g.len])
                  && GetIndex(r, r.vertices[g.len]) == g.len
                  && DataIndex(r.vertices[g.len]) == index)
            && (!NoMatch(g.vertices, g.len, key) ==> GetVertexByKey(r, key) == GetVertexByKey(g, key))
  {
    var r := AddVertex(g, key, index);
    if NoMatch(g.vertices, g.len, key) {
      assert IsFirstMatch(r.vertices, r.len, key, g.len);
    } else {
      var i := FirstIndex(g.vertices, g.len, key).value;
      assert IsFirstMatch(r.vertices, r.len, key, i);
    }
  }

  /** The data index given to Graph_AddVertex is the one Vertex_GetaereopuertosIndex hands back. */
  lemma DataIndexRoundTrip(g: Graph, key: int, index: nat)
    requires g.Valid() && g.len < g.size
    ensures DataIndex(GetVertexByIndex(AddVertex(g, key, index), g.len)) == index
  {
  }

  /**
   * Graph_GetIndex applied to the vertex at position i finds i, unless an
   * earlier vertex shares its key, in which case it finds that earlier one.
   */
  lemma GetIndexOfVertexByIndex(g: Graph, i: nat)
    requires g.Valid() && i < g.len
    ensures var v := GetVertexByIndex(g, i);
            && (exists j :: 0 <= j < g.len && g.vertices[j].key == v.key)
            && GetIndex(g, v) <= i
            && (GetIndex(g, v) == i <==> forall j :: 0 <= j < i ==> g.vertices[j].key != v.key)
  {
    var v := GetVertexByIndex(g, i);
    assert g.vertices[i].key == v.key;
  }

  /** Every edge has its reverse: the shape undirected insertion builds. */
  ghost predicate Symmetric(g: Graph) {
    forall a: nat, b: nat :: HasEdge(g, a, b) ==> HasEdge(g, b, a)
  }

  /** Edge insertion in an undirected graph keeps every edge paired with its reverse. */
  lemma AddEdgeKeepsSymmetry(g: Graph, start: int, finish: int)
    requires g.Valid() && g.len > 0 && g.kind == Undirected && Symmetric(g)
    ensures Symmetric(AddEdge(g, start, finish).graph)
  {
    var r := AddEdge(g, start, finish);
    if r.ok {
      var s, f := Find(g.vertices, g.size, start), Find(g.vertices, g.size, finish);
      forall a: nat, b: nat | HasEdge(r.graph, a, b) ensures HasEdge(r.graph, b, a) {
        if HasEdge(g, a, b) {
          assert HasEdge(g, b, a);
        }
      }
    }
  }

  /** The same for weighted edge insertion. */
  lemma AddWeightedEdgeKeepsSymmetry(g: Graph, start: int, finish: int, w: Weight)
    requires g.Valid() && g.len > 0 && g.kind == Undirected && Symmetric(g)
    requires WeightedInsertable(g, start, finish)
    ensures Symmetric(AddWeightedEdge(g, start, finish, w).graph)
  {
    var r := AddWeightedEdge(g, start, finish, w);
    if r.ok {
      forall a: nat, b: nat | HasEdge(r.graph, a, b) ensures HasEdge(r.graph, b, a) {
        if HasEdge(g, a, b) {
          assert HasEdge(g, b, a);
        }
      }
    }
  }

  /** Vertex insertion keeps symmetry when the slot it fills has no edges. */
  lemma AddVertexKeepsSymmetry(g: Graph, key: int, index: nat)
    requires g.Valid() && g.len < g.size && Symmetric(g)
    requires g.vertices[g.len].neighbors == []
    ensures Symmetric(AddVertex(g, key, index))
  {
    var r := AddVertex(g, key, index);
    forall a: nat, b: nat | HasEdge(r, a, b) ensures HasEdge(r, b, a) {
      assert a != g.len;
      assert HasEdge(g, a, b);
      assert HasEdge(g, b, a);
    }
  }

  /**
   * Without that condition it fails: an undirected edge to key 0 lands on
   * the first unused slot, and inserting a vertex there empties that
   * slot's list while its partner still lists it.
   */
  lemma KeyZeroBreaksSymmetry()
    ensures var g1 := AddVertex(New(2, Undirected), 5, 0);
            var g2 := AddEdge(g1, 5, 0);
            && g2.ok && Symmetric(g2.graph)
            && !Symmetric(AddVertex(g2.graph, 7, 1))
  {
    var g0 := New(2, Undirected);
    var g1 := AddVertex(g0, 5, 0);
    assert IsFirstMatch(g1.vertices, 2, 5, 0);
    assert IsFirstMatch(g1.vertices, 2, 0, 1);
    var g2 := AddEdge(g1, 5, 0);
    assert g2.ok;
    forall a: nat, b: nat | HasEdge(g2.graph, a, b) ensures HasEdge(g2.graph, b, a) {
      assert HasEdge(g1, a, b) || (a == 0 && b == 1) || (a == 1 && b == 0);
      assert Targets(g1.vertices[0].neighbors) == [] && Targets(g1.vertices[1].neighbors) == [];
    }
    var g3 := AddVertex(g2.graph, 7, 1);
    assert HasEdge(g3, 0, 1);
    assert Targets(g3.vertices[1].neighbors) == [];
    assert !HasEdge(g3, 1, 0);
  }
}
