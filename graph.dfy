/** The graph of day 23: vertices are computer labels, the graph is the list of
    connections read from the input, and two adjacency views are derived from it:
    the neighbour query `adjacent` and the dictionary-of-dictionaries matrix built
    by `generate_adj_matrix`. */
module Graph {
  import opened Wrappers

  type Vertex = string

  /** One connection `a-b` of the input, as the tuple `(a, b)`. */
  type Edge = (Vertex, Vertex)

  /** The dictionary-of-dictionaries adjacency matrix, entries 0 or 1. */
  type Matrix = map<Vertex, map<Vertex, int>>

  /** The exceptions the day-23 code can raise on the inputs it is given. */
  datatype Error = KeyError(key: Vertex) | IndexError

  /** `a` and `b` are joined by a connection, listed in either direction. */
  predicate Linked(edges: seq<Edge>, a: Vertex, b: Vertex)
  {
    (a, b) in edges || (b, a) in edges
  }

  /** The input is simple in the sense the search needs: no connection joins a
      computer to itself. */
  predicate NoSelfLoops(edges: seq<Edge>)
  {
    forall e :: e in edges ==> e.0 != e.1
  }

  /** The endpoint `adjacent` reports for an edge that contains `v`. */
  function Other(e: Edge, v: Vertex): Vertex
  {
    if e.0 != v then e.0 else e.1
  }

  /** `adjacent(vertex, edges)`: the other endpoint of every edge containing the vertex. */
  function Adjacent(v: Vertex, edges: seq<Edge>): (r: set<Vertex>)
    ensures forall u :: u in r <==> Linked(edges, v, u)
    decreases |edges|
  {
    if edges == [] then {}
    else
      var e := edges[0];
      assert forall x :: x in edges <==> x == e || x in edges[1..];
      (if e.0 == v || e.1 == v then {Other(e, v)} else {}) + Adjacent(v, edges[1..])
  }

  /** The vertex set built from the connections: both endpoints of every edge. */
  function VerticesOf(edges: seq<Edge>): (r: set<Vertex>)
    ensures forall a, b :: Linked(edges, a, b) ==> a in r && b in r
  {
    (set e | e in edges :: e.0) + (set e | e in edges :: e.1)
  }

  /** A vertex of the edge list is exactly a name with at least one neighbour. */
  lemma VertexHasNeighbour(edges: seq<Edge>, v: Vertex)
    ensures v in VerticesOf(edges) <==> Adjacent(v, edges) != {}
  {
    if v in VerticesOf(edges) {
      var e :| e in edges && (e.0 == v || e.1 == v);
      if e.0 == v {
        assert e.1 in Adjacent(v, edges);
      } else {
        assert e.0 in Adjacent(v, edges);
      }
    }
  }

  /** Every member of `c` is joined to every other member. */
  ghost predicate IsClique(edges: seq<Edge>, c: set<Vertex>)
  {
    forall a, b :: a in c && b in c && a != b ==> Linked(edges, a, b)
  }

  /** Every vertex of `s` is joined to every vertex of `r`. */
  ghost predicate AllAdjacentTo(edges: seq<Edge>, s: set<Vertex>, r: set<Vertex>)
  {
    forall a, b :: a in s && b in r ==> Linked(edges, a, b)
  }

  /** The vertices that get a row: `permutations(vertices, 2)` is empty unless there are
      at least two vertices. */
  function RowKeys(verts: set<Vertex>): set<Vertex>
  {
    if |verts| >= 2 then verts else {}
  }

  predicate EdgeWithin(e: Edge, keys: set<Vertex>)
  {
    e.0 in keys && e.1 in keys
  }

  predicate EdgesWithin(edges: seq<Edge>, keys: set<Vertex>)
  {
    forall e :: e in edges ==> EdgeWithin(e, keys)
  }

  /** The key whose lookup fails first for an edge `(a, b)`: `matrix[a]` is read before `matrix[b]`. */
  function MissingEndpoint(e: Edge, keys: set<Vertex>): Vertex
  {
    if e.0 !in keys then e.0 else e.1
  }

  /** What the matrix built from `edges` and `verts` is: a row for every vertex (when
      there are two or more), a column for every other vertex and for every vertex
      joined to the row's vertex, and entry 1 exactly where a connection joins the two. */
  ghost predicate IsAdjMatrix(m: Matrix, edges: seq<Edge>, verts: set<Vertex>)
  {
    && m.Keys == RowKeys(verts)
    && EdgesWithin(edges, m.Keys)
    && (forall a, b :: a in m ==> (b in m[a] <==> (b in verts && b != a) || Linked(edges, a, b)))
    && (forall a, b :: a in m && b in m[a] ==> m[a][b] == if Linked(edges, a, b) then 1 else 0)
  }

  lemma {:induction false} RemoveOne(s: set<Vertex>, a: Vertex)
    requires a in s
    ensures |s - {a}| == |s| - 1
  {
    assert s == (s - {a}) + {a};
  }

  /** `permutations(vertices, 2)`: every ordered pair of distinct vertices. */
  function Permutations2(vertices: set<Vertex>): (pairs: set<Edge>)
    ensures forall a, b :: (a, b) in pairs <==> a in vertices && b in vertices && a != b
  {
    set a, b | a in vertices && b in vertices && a != b :: (a, b)
  }

  /** A vertex is the first component of some pair exactly when it gets a row. */
  lemma {:induction false} PairsHaveRowKeys(vertices: set<Vertex>, a: Vertex)
    ensures a in Firsts(Permutations2(vertices)) <==> a in RowKeys(vertices)
  {
    if a in RowKeys(vertices) {
      RemoveOne(vertices, a);
      var b :| b in vertices - {a};
      assert (a, b) in Permutations2(vertices);
    } else if a in vertices {
      RemoveOne(vertices, a);
      assert vertices - {a} == {};
    }
  }

  /** The first components of a set of pairs. */
  function Firsts(pairs: set<Edge>): set<Vertex>
  {
    set p | p in pairs :: p.0
  }

  /** The initialised part of the matrix after the pairs `done` have been visited. */
  ghost predicate ZeroedFor(matrix: Matrix, done: set<Edge>)
  {
    && matrix.Keys == Firsts(done)
    && (forall a, b :: a in matrix ==> (b in matrix[a] <==> (a, b) in done))
    && (forall a, b :: a in matrix && b in matrix[a] ==> matrix[a][b] == 0)
  }

  /** One step of the initialisation loop: `matrix[a].update({b: 0})` or `matrix[a] = {b: 0}`. */
  lemma {:induction false} ZeroStep(matrix: Matrix, done: set<Edge>, p: Edge)
    requires ZeroedFor(matrix, done)
    ensures ZeroedFor(if p.0 in matrix then matrix[p.0 := matrix[p.0][p.1 := 0]] else matrix[p.0 := map[p.1 := 0]],
                      done + {p})
  {
    assert Firsts(done + {p}) == Firsts(done) + {p.0};
  }

  /** The initialisation loop of `generate_adj_matrix`: a 0 entry for every pair that
      `permutations(vertices, 2)` yields. */
  method ZeroMatrix(vertices: set<Vertex>) returns (matrix: Matrix)
    ensures matrix.Keys == RowKeys(vertices)
    ensures forall a :: a in matrix ==> matrix[a].Keys == vertices - {a}
    ensures forall a, b :: a in matrix && b in matrix[a] ==> matrix[a][b] == 0
  {
    matrix := map[];
    var pairs := Permutations2(vertices);
    var todo := pairs;
    while todo != {}
      invariant todo <= pairs
      invariant ZeroedFor(matrix, pairs - todo)
      decreases todo
    {
      var p :| p in todo;
      ZeroStep(matrix, pairs - todo, p);
      var (a, b) := p;
      if a in matrix {
        matrix := matrix[a := matrix[a][b := 0]];
      } else {
        matrix := matrix[a := map[b := 0]];
      }
      assert pairs - (todo - {p}) == (pairs - todo) + {p};
      todo := todo - {p};
    }
    ZeroedKeys(matrix, vertices);
    ZeroedRows(matrix, vertices);
  }

  /** Once every pair has been visited the rows are the ones `permutations` gives. */
  lemma {:induction false} ZeroedKeys(matrix: Matrix, vertices: set<Vertex>)
    requires matrix.Keys == Firsts(Permutations2(vertices))
    ensures matrix.Keys == RowKeys(vertices)
  {
    forall a ensures a in matrix <==> a in RowKeys(vertices) {
      PairsHaveRowKeys(vertices, a);
    }
  }

  /** ... and each row has a column for every other vertex. */
  lemma {:induction false} ZeroedRows(matrix: Matrix, vertices: set<Vertex>)
    requires matrix.Keys <= vertices
    requires forall a, b :: a in matrix ==> (b in matrix[a] <==> (a, b) in Permutations2(vertices))
    ensures forall a :: a in matrix ==> matrix[a].Keys == vertices - {a}
  {
  }

  /** One more connection `e` links exactly the pairs linked before and the two orders of `e`. */
  lemma LinkedAppend(edges: seq<Edge>, e: Edge, a: Vertex, b: Vertex)
    ensures Linked(edges + [e], a, b) <==> Linked(edges, a, b) || (a, b) == e || (b, a) == e
  {
    assert forall x :: x in edges + [e] <==> x in edges || x == e;
  }

  /** Writing one more edge `(a, b)` in both directions keeps the matrix filled. */
  lemma FillStep(matrix: Matrix, edges: seq<Edge>, verts: set<Vertex>, e: Edge)
    requires IsAdjMatrix(matrix, edges, verts)
    requires EdgeWithin(e, matrix.Keys)
    ensures IsAdjMatrix(matrix[e.0 := matrix[e.0][e.1 := 1]][e.1 := matrix[e.0 := matrix[e.0][e.1 := 1]][e.1][e.0 := 1]],
                       edges + [e], verts)
  {
    var es := edges + [e];
    var m1 := matrix[e.0 := matrix[e.0][e.1 := 1]];
    var m2 := m1[e.1 := m1[e.1][e.0 := 1]];
    assert m2.Keys == matrix.Keys;
    forall x | x in es ensures EdgeWithin(x, m2.Keys) {
      assert x in edges || x == e;
    }
    forall a, b | a in m2
      ensures b in m2[a] <==> (b in verts && b != a) || Linked(es, a, b)
      ensures b in m2[a] ==> m2[a][b] == if Linked(es, a, b) then 1 else 0
    {
      LinkedAppend(edges, e, a, b);
      if a == e.1 {
        assert m2[a] == m1[a][e.0 := 1];
      } else {
        assert m2[a] == m1[a];
      }
      if a == e.0 {
        assert m1[a] == matrix[a][e.1 := 1];
      } else {
        assert m1[a] == matrix[a];
      }
    }
  }

  /** `generate_adj_matrix(edges, verts)`. When an endpoint of some edge has no row it fails
      with the KeyError of the first lookup that misses. */
  method GenerateAdjMatrix(edges: seq<Edge>, verts: set<Vertex>) returns (r: Result<Matrix, Error>)
    ensures r.Ok? <==> EdgesWithin(edges, RowKeys(verts))
    ensures r.Ok? ==> IsAdjMatrix(r.value, edges, verts)
    ensures r.Err? ==>
      exists i :: 0 <= i < |edges| && EdgesWithin(edges[..i], RowKeys(verts))
        && !EdgeWithin(edges[i], RowKeys(verts))
        && r.error == KeyError(MissingEndpoint(edges[i], RowKeys(verts)))
  {
    var vertices := verts;

    // every ordered pair of distinct vertices starts at 0
    var matrix := ZeroMatrix(vertices);
    assert IsAdjMatrix(matrix, edges[..0], verts);

    // each connection sets both of its entries to 1
    for i := 0 to |edges|
      invariant IsAdjMatrix(matrix, edges[..i], verts)
    {
      assert edges[..i + 1] == edges[..i] + [edges[i]];
      var (a, b) := edges[i];
      assert edges[i] in edges;
      if a !in matrix {
        return Err(KeyError(a));
      }
      ghost var before := matrix;
      matrix := matrix[a := matrix[a][b := 1]];
      if b !in matrix {
        return Err(KeyError(b));
      }
      matrix := matrix[b := matrix[b][a := 1]];
      FillStep(before, edges[..i], verts, edges[i]);
    }
    assert edges[..|edges|] == edges;
    return Ok(matrix);
  }

  /** The matrix is symmetric: an entry for `(a, b)` comes with an equal entry for `(b, a)`. */
  lemma AdjMatrixSymmetric(m: Matrix, edges: seq<Edge>, verts: set<Vertex>, a: Vertex, b: Vertex)
    requires IsAdjMatrix(m, edges, verts)
    requires a in m && b in m[a]
    ensures b in m && a in m[b] && m[a][b] == m[b][a]
  {
    if !(b in verts && b != a) {
      assert Linked(edges, a, b);
      var e :| e in edges && (e == (a, b) || e == (b, a));
      assert EdgeWithin(e, m.Keys);
    }
  }

  /** Every key of the matrix is a vertex of `verts`; with two or more vertices every
      ordered pair of distinct vertices has an entry, and without self-loops there is
      no entry on the diagonal. */
  lemma AdjMatrixShape(m: Matrix, edges: seq<Edge>, verts: set<Vertex>)
    requires IsAdjMatrix(m, edges, verts)
    ensures m.Keys <= verts
    ensures |verts| >= 2 ==> forall a, b :: a in verts && b in verts && a != b ==> a in m && b in m[a]
    ensures NoSelfLoops(edges) ==> forall a :: a in m ==> a !in m[a]
  {
  }

  /** With the vertex set built from the connections the matrix construction fails
      exactly when the connections name a single computer. */
  lemma AdjMatrixOfOwnVertices(edges: seq<Edge>)
    ensures EdgesWithin(edges, RowKeys(VerticesOf(edges))) <==> |VerticesOf(edges)| != 1
  {
    var v := VerticesOf(edges);
    if |v| == 1 {
      var x :| x in v;
      var e :| e in edges && (e.0 == x || e.1 == x);
      assert !EdgeWithin(e, RowKeys(v));
    } else {
      assert forall e :: e in edges ==> Linked(edges, e.0, e.1);
    }
  }
}
