/** `bron_kerbosch`: the Bron–Kerbosch maximum-clique search with a pivot taken from
    P ∪ X, writing the largest clique it meets into a shared one-slot holder. */
module CliqueSearch {
  import opened Seqs
  import opened Graph

  /** A clique of the graph that no vertex of the graph extends. */
  ghost predicate Maximal(edges: seq<Edge>, m: set<Vertex>)
  {
    && IsClique(edges, m)
    && m <= VerticesOf(edges)
    && forall w :: w in VerticesOf(edges) && w !in m ==> !AllAdjacentTo(edges, {w}, m)
  }

  /** A clique of the graph that no clique of the graph outnumbers. */
  ghost predicate IsMaximumClique(edges: seq<Edge>, c: set<Vertex>)
  {
    && IsClique(edges, c)
    && c <= VerticesOf(edges)
    && forall d :: IsClique(edges, d) && d <= VerticesOf(edges) ==> |d| <= |c|
  }

  /** The shared slot `max_clique`, a one-element list whose element the search replaces.
      The stored `list(R)` is kept as the set of its elements: it never repeats a vertex,
      so its length is the size of that set. */
  class MaxClique {
    var clique: set<Vertex>

    constructor ()
      ensures clique == {}
    {
      clique := {};
    }
  }

  /** The state every call of the search is in when it starts from `part2`: R is a
      clique, every vertex of P and of X is joined to all of R, the three sets are
      pairwise disjoint and lie in the vertex set. */
  ghost predicate SearchState(edges: seq<Edge>, r: set<Vertex>, p: set<Vertex>, x: set<Vertex>)
  {
    && IsClique(edges, r)
    && AllAdjacentTo(edges, p, r)
    && AllAdjacentTo(edges, x, r)
    && r !! p && r !! x && p !! x
    && r + p + x <= VerticesOf(edges)
  }

  /** The pivot loop: start from `first`, a member of P, and move to a vertex of P ∪ X
      only when it has strictly more neighbours. */
  method ChoosePivot(first: Vertex, p: set<Vertex>, x: set<Vertex>, edges: seq<Edge>) returns (pivot: Vertex)
    requires first in p
    ensures pivot in p + x
    ensures forall u :: u in p + x ==> |Adjacent(u, edges)| <= |Adjacent(pivot, edges)|
    ensures pivot == first || |Adjacent(pivot, edges)| > |Adjacent(first, edges)|
  {
    pivot := first;
    var todo := p + x;
    while todo != {}
      invariant todo <= p + x
      invariant pivot in p + x
      invariant forall u :: u in (p + x) - todo ==> |Adjacent(u, edges)| <= |Adjacent(pivot, edges)|
      invariant pivot == first || |Adjacent(pivot, edges)| > |Adjacent(first, edges)|
      decreases todo
    {
      var u :| u in todo;
      if |Adjacent(u, edges)| > |Adjacent(pivot, edges)| {
        pivot := u;
      }
      todo := todo - {u};
    }
  }

  /** Every maximal clique between R and R ∪ P that meets `done` is no larger than `size`. */
  ghost predicate Covered(edges: seq<Edge>, r: set<Vertex>, p: set<Vertex>, done: set<Vertex>, size: nat)
  {
    forall m :: Maximal(edges, m) && r <= m <= r + p && !(m !! done) ==> |m| <= size
  }

  /** Every maximal clique between R and R ∪ P is no larger than `size`. */
  ghost predicate AllCovered(edges: seq<Edge>, r: set<Vertex>, p: set<Vertex>, size: nat)
  {
    forall m :: Maximal(edges, m) && r <= m <= r + p ==> |m| <= size
  }

  /** The slot went from `before` to `after` only by taking a strictly larger clique
      between R and R ∪ P. */
  ghost predicate Replaced(edges: seq<Edge>, r: set<Vertex>, p: set<Vertex>, before: set<Vertex>, after: set<Vertex>)
  {
    after == before || (|after| > |before| && IsClique(edges, after) && r <= after <= r + p)
  }

  /** A descent hands the child a strictly smaller P, because `v` is not its own neighbour. */
  lemma ChildShrinks(edges: seq<Edge>, v: Vertex, p: set<Vertex>)
    requires NoSelfLoops(edges)
    requires v in p
    ensures p * Adjacent(v, edges) < p
  {
    assert v !in Adjacent(v, edges);
  }

  /** The state handed to the child for `v` is again a search state. */
  lemma {:induction false} ChildState(edges: seq<Edge>, r: set<Vertex>, p: set<Vertex>, x: set<Vertex>, v: Vertex)
    requires NoSelfLoops(edges)
    requires SearchState(edges, r, p, x)
    requires v in p
    ensures SearchState(edges, r + {v}, p * Adjacent(v, edges), x * Adjacent(v, edges))
  {
    var nv := Adjacent(v, edges);
    assert v !in nv;
    forall a, b | a in r + {v} && b in r + {v} && a != b ensures Linked(edges, a, b) {
      if a == v {
        assert Linked(edges, b, v);
      } else if b == v {
        assert Linked(edges, a, v);
      }
    }
    forall a, b | a in p * nv && b in r + {v} ensures Linked(edges, a, b) {
      if b == v {
        assert Linked(edges, v, a);
      }
    }
    forall a, b | a in x * nv && b in r + {v} ensures Linked(edges, a, b) {
      if b == v {
        assert Linked(edges, v, a);
      }
    }
  }

  /** Moving `v` from P to X after its branch keeps the state a search state. */
  lemma MoveToExcluded(edges: seq<Edge>, r: set<Vertex>, p: set<Vertex>, x: set<Vertex>, v: Vertex)
    requires SearchState(edges, r, p, x)
    requires v in p
    ensures SearchState(edges, r, p - {v}, x + {v})
  {
  }

  /** With P and X empty, R is the only candidate and the slot, at least as large as R,
      covers it. */
  lemma {:induction false} LeafCovered(edges: seq<Edge>, r: set<Vertex>, size: nat)
    requires |r| <= size
    ensures AllCovered(edges, r, {}, size)
  {
    forall m | Maximal(edges, m) && r <= m <= r + {} ensures |m| <= size {
      assert m == r;
    }
  }

  /** With P empty and X not, a vertex of X extends R, so no maximal clique is in range. */
  lemma {:induction false} ExcludedCovered(edges: seq<Edge>, r: set<Vertex>, x: set<Vertex>, size: nat)
    requires SearchState(edges, r, {}, x)
    requires x != {}
    ensures AllCovered(edges, r, {}, size)
  {
    var w :| w in x;
    assert w in VerticesOf(edges) && w !in r && AllAdjacentTo(edges, {w}, r);
    assert !Maximal(edges, r);
    forall m | r <= m <= r + {} ensures m == r {
    }
  }

  /** The pivot rule loses nothing: every maximal clique between R and R ∪ P meets
      P minus the neighbours of the pivot. */
  lemma {:induction false} PivotMeets(edges: seq<Edge>, r: set<Vertex>, p: set<Vertex>, x: set<Vertex>,
                                      u: Vertex, m: set<Vertex>)
    requires NoSelfLoops(edges)
    requires SearchState(edges, r, p, x)
    requires u in p + x
    requires Maximal(edges, m) && r <= m <= r + p
    ensures !(m !! (p - Adjacent(u, edges)))
  {
    var skip := p - Adjacent(u, edges);
    assert u !in Adjacent(u, edges);
    if u in m {
      assert u in p;
      assert u in m * skip;
    } else {
      assert u in VerticesOf(edges);
      assert !AllAdjacentTo(edges, {u}, m);
      var a, b :| a in {u} && b in m && !Linked(edges, a, b);
      assert b !in r;
      assert b in p && b !in Adjacent(u, edges);
      assert b in m * skip;
    }
  }

  /** Hence covering the maximal cliques that meet P minus N(pivot) covers them all. */
  lemma {:induction false} PivotCovered(edges: seq<Edge>, r: set<Vertex>, p: set<Vertex>, x: set<Vertex>,
                                        u: Vertex, size: nat)
    requires NoSelfLoops(edges)
    requires SearchState(edges, r, p, x)
    requires u in p + x
    requires Covered(edges, r, p, p - Adjacent(u, edges), size)
    ensures AllCovered(edges, r, p, size)
  {
    forall m | Maximal(edges, m) && r <= m <= r + p ensures |m| <= size {
      PivotMeets(edges, r, p, x, u, m);
    }
  }

  /** A maximal clique that avoids the vertices already visited and contains `v` lies
      between R ∪ {v} and R ∪ {v} ∪ (P ∩ N(v)) for the live P. */
  lemma {:induction false} InChildRange(edges: seq<Edge>, r: set<Vertex>, p: set<Vertex>, done: set<Vertex>,
                                        v: Vertex, m: set<Vertex>)
    requires IsClique(edges, m)
    requires r <= m <= r + p
    requires m !! done
    requires v in m && v in p - done
    requires r !! p
    ensures r + {v} <= m <= (r + {v}) + (p - done) * Adjacent(v, edges)
  {
    forall w | w in m && w !in r + {v} ensures w in (p - done) * Adjacent(v, edges) {
      assert Linked(edges, v, w);
    }
  }

  /** After the branch for `v` the maximal cliques meeting `done + {v}` are covered. */
  lemma {:induction false} BranchCovered(edges: seq<Edge>, r: set<Vertex>, p: set<Vertex>, done: set<Vertex>,
                                         v: Vertex, size0: nat, size1: nat)
    requires r !! p
    requires v in p - done
    requires Covered(edges, r, p, done, size0) && size0 <= size1
    requires AllCovered(edges, r + {v}, (p - done) * Adjacent(v, edges), size1)
    ensures Covered(edges, r, p, done + {v}, size1)
  {
    forall m | Maximal(edges, m) && r <= m <= r + p && !(m !! (done + {v})) ensures |m| <= size1 {
      if m !! done {
        assert v in m;
        InChildRange(edges, r, p, done, v, m);
      }
    }
  }

  /** A replacement made inside the branch for `v` is a replacement within R and R ∪ P. */
  lemma {:induction false} BranchReplaced(edges: seq<Edge>, r: set<Vertex>, p: set<Vertex>, done: set<Vertex>,
                                          v: Vertex, c0: set<Vertex>, c1: set<Vertex>, c2: set<Vertex>)
    requires v in p
    requires Replaced(edges, r, p, c0, c1) && |c1| >= |c0|
    requires Replaced(edges, r + {v}, (p - done) * Adjacent(v, edges), c1, c2) && |c2| >= |c1|
    ensures Replaced(edges, r, p, c0, c2)
  {
  }

  /** The state of the sweep over P minus N(pivot) once the vertices `done` have had their
      branch: they have moved from P to X, the slot has only grown by cliques in range,
      and the maximal cliques meeting `done` are covered. */
  ghost predicate Sweeping(edges: seq<Edge>, r: set<Vertex>, p: set<Vertex>, x: set<Vertex>, done: set<Vertex>,
                           liveP: set<Vertex>, liveX: set<Vertex>, c0: set<Vertex>, c: set<Vertex>)
  {
    && liveP == p - done
    && liveX == x + done
    && SearchState(edges, r, liveP, liveX)
    && |c| >= |c0|
    && Replaced(edges, r, p, c0, c)
    && Covered(edges, r, p, done, |c|)
  }

  /** Before the first branch nothing is done and the slot is untouched. */
  lemma SweepStart(edges: seq<Edge>, r: set<Vertex>, p: set<Vertex>, x: set<Vertex>, c0: set<Vertex>)
    requires SearchState(edges, r, p, x)
    ensures Sweeping(edges, r, p, x, {}, p, x, c0, c0)
  {
  }

  /** The branch for `v` starts from a search state with a smaller P. */
  lemma SweepChild(edges: seq<Edge>, r: set<Vertex>, p: set<Vertex>, x: set<Vertex>, done: set<Vertex>,
                   liveP: set<Vertex>, liveX: set<Vertex>, c0: set<Vertex>, c: set<Vertex>, v: Vertex)
    requires NoSelfLoops(edges)
    requires Sweeping(edges, r, p, x, done, liveP, liveX, c0, c)
    requires v in p - done
    ensures liveP * Adjacent(v, edges) < liveP
    ensures SearchState(edges, r + {v}, liveP * Adjacent(v, edges), liveX * Adjacent(v, edges))
  {
    ChildShrinks(edges, v, liveP);
    ChildState(edges, r, liveP, liveX, v);
  }

  /** After the branch for `v`, moving `v` from P to X gives the sweep state with `v` done. */
  lemma SweepStep(edges: seq<Edge>, r: set<Vertex>, p: set<Vertex>, x: set<Vertex>, done: set<Vertex>,
                  liveP: set<Vertex>, liveX: set<Vertex>, c0: set<Vertex>, c1: set<Vertex>, c2: set<Vertex>,
                  v: Vertex)
    requires Sweeping(edges, r, p, x, done, liveP, liveX, c0, c1)
    requires v in p - done
    requires |c2| >= |c1|
    requires Replaced(edges, r + {v}, liveP * Adjacent(v, edges), c1, c2)
    requires AllCovered(edges, r + {v}, liveP * Adjacent(v, edges), |c2|)
    ensures Sweeping(edges, r, p, x, done + {v}, liveP - {v}, liveX + {v}, c0, c2)
  {
    BranchCovered(edges, r, p, done, v, |c1|, |c2|);
    BranchReplaced(edges, r, p, done, v, c0, c1, c2);
    MoveToExcluded(edges, r, liveP, liveX, v);
  }

  /** Taking `v` off the vertices still to visit adds it to the visited ones. */
  lemma VisitOne(skip: set<Vertex>, todo: set<Vertex>, v: Vertex)
    requires todo <= skip && v in todo
    ensures skip - (todo - {v}) == (skip - todo) + {v}
  {
  }

  /** `bron_kerbosch(R, P, X, edges, max_clique)`.
      The slot changes only to a larger clique between R and R ∪ P, and afterwards it is
      at least as large as every maximal clique of the graph between R and R ∪ P. */
  method BronKerbosch(r: set<Vertex>, p: set<Vertex>, x: set<Vertex>, edges: seq<Edge>, maxClique: MaxClique)
    requires NoSelfLoops(edges)
    requires SearchState(edges, r, p, x)
    modifies maxClique
    decreases p, 1
    ensures |maxClique.clique| >= old(|maxClique.clique|)
    ensures Replaced(edges, r, p, old(maxClique.clique), maxClique.clique)
    ensures AllCovered(edges, r, p, |maxClique.clique|)
  {
    if p == {} && x == {} {
      // R is a maximal clique: keep it when it beats the stored one
      if |r| > |maxClique.clique| {
        maxClique.clique := r;
      }
      LeafCovered(edges, r, |maxClique.clique|);
      return;
    }

    // Find the pivot: a vertex of P ∪ X with the most neighbours
    if p != {} {
      var first :| first in p;
      var pivot := ChoosePivot(first, p, x, edges);
      var nu := Adjacent(pivot, edges);
      Sweep(r, p, x, p - nu, edges, maxClique);
      PivotCovered(edges, r, p, x, pivot, |maxClique.clique|);
    } else {
      Sweep(r, p, x, {}, edges, maxClique);
      ExcludedCovered(edges, r, x, |maxClique.clique|);
    }
  }

  /** The loop of `bron_kerbosch`: branch on every vertex of `todo` (P minus the pivot's
      neighbours), each time with the P and X left by the branches before it, and move the
      vertex from P to X afterwards. */
  method Sweep(r: set<Vertex>, p: set<Vertex>, x: set<Vertex>, todo: set<Vertex>, edges: seq<Edge>, maxClique: MaxClique)
    requires NoSelfLoops(edges)
    requires SearchState(edges, r, p, x)
    requires todo <= p
    modifies maxClique
    decreases p, 0
    ensures Sweeping(edges, r, p, x, todo, p - todo, x + todo, old(maxClique.clique), maxClique.clique)
  {
    var liveP, liveX := p, x;
    var left := todo;
    SweepStart(edges, r, p, x, maxClique.clique);
    while left != {}
      invariant left <= todo
      invariant Sweeping(edges, r, p, x, todo - left, liveP, liveX, old(maxClique.clique), maxClique.clique)
      decreases left
    {
      var v :| v in left;
      ghost var done := todo - left;
      ghost var before := maxClique.clique;
      SweepChild(edges, r, p, x, done, liveP, liveX, old(maxClique.clique), before, v);
      BronKerbosch(r + {v}, liveP * Adjacent(v, edges), liveX * Adjacent(v, edges), edges, maxClique);
      SweepStep(edges, r, p, x, done, liveP, liveX, old(maxClique.clique), before, maxClique.clique, v);
      liveP := liveP - {v};
      liveX := liveX + {v};
      VisitOne(todo, left, v);
      left := left - {v};
    }
  }

  /** Every clique of the graph lies inside a maximal one. */
  lemma {:induction false} ExtendToMaximal(edges: seq<Edge>, c: set<Vertex>) returns (m: set<Vertex>)
    requires IsClique(edges, c) && c <= VerticesOf(edges)
    ensures Maximal(edges, m) && c <= m
    decreases VerticesOf(edges) - c
  {
    if w :| w in VerticesOf(edges) && w !in c && AllAdjacentTo(edges, {w}, c) {
      var c' := c + {w};
      forall a, b | a in c' && b in c' && a != b ensures Linked(edges, a, b) {
        if a == w {
          assert a in {w};
        } else if b == w {
          assert b in {w};
          assert Linked(edges, b, a);
        }
      }
      assert VerticesOf(edges) - c' < VerticesOf(edges) - c;
      m := ExtendToMaximal(edges, c');
    } else {
      m := c;
    }
  }

  /** The search started as `part2` starts it, with R and X empty and P the whole vertex
      set, leaves a maximum clique of the graph in the slot. */
  method FindMaxClique(edges: seq<Edge>) returns (best: set<Vertex>)
    requires NoSelfLoops(edges)
    ensures IsMaximumClique(edges, best)
  {
    var vertices := VerticesOf(edges);
    var maxClique := new MaxClique();
    assert SearchState(edges, {}, vertices, {});
    BronKerbosch({}, vertices, {}, edges, maxClique);
    best := maxClique.clique;
    assert IsClique(edges, best) && best <= vertices;
    forall d | IsClique(edges, d) && d <= VerticesOf(edges) ensures |d| <= |best| {
      var m := ExtendToMaximal(edges, d);
      SubsetSize(d, m);
    }
  }

  /** Why the search needs simple input: with the self-loop `a-a`, `a` is its own neighbour,
      so the first call picks `a` as its only possible pivot, finds P minus the pivot's
      neighbours empty and branches nowhere, although `{a, b}` is a clique of two. */
  lemma SelfLoopHidesClique(edges: seq<Edge>)
    requires edges == [("a", "a"), ("a", "b")]
    ensures VerticesOf(edges) == {"a", "b"}
    ensures Adjacent("a", edges) == {"a", "b"} && Adjacent("b", edges) == {"a"}
    ensures forall u :: u in VerticesOf(edges) && |Adjacent(u, edges)| >= |Adjacent("a", edges)| ==> u == "a"
    ensures VerticesOf(edges) - Adjacent("a", edges) == {}
    ensures IsClique(edges, {"a", "b"}) && |{"a", "b"}| == 2
  {
    SelfLoopNeighbours(edges);
    SelfLoopVertices(edges);
    assert |{"a", "b"}| == 2 && |{"a"}| == 1;
    assert Linked(edges, "a", "b") && Linked(edges, "b", "a");
  }

  lemma SelfLoopNeighbours(edges: seq<Edge>)
    requires edges == [("a", "a"), ("a", "b")]
    ensures Adjacent("a", edges) == {"a", "b"} && Adjacent("b", edges) == {"a"}
  {
    assert Linked(edges, "a", "a") && Linked(edges, "a", "b") && !Linked(edges, "b", "b");
  }

  lemma SelfLoopVertices(edges: seq<Edge>)
    requires edges == [("a", "a"), ("a", "b")]
    ensures VerticesOf(edges) == {"a", "b"}
  {
    assert edges[0] in edges && edges[1] in edges;
    forall v | v in VerticesOf(edges) ensures v == "a" || v == "b" {
      var e :| e in edges && (v == e.0 || v == e.1);
    }
  }
}
