/** `part1` of day 23: every three-computer set that is fully connected and has a
    computer whose label starts with `t`, found by testing all `combinations(vertices, 3)`
    against the adjacency matrix. */
module Triangles {
  import opened Wrappers
  import opened Seqs
  import opened Graph

  type Pair = (Vertex, Vertex)
  type Triple = (Vertex, Vertex, Vertex)

  /** The pairs that start with `x`, one per element of `ys`, in order. */
  function Pairs(x: Vertex, ys: seq<Vertex>): (r: seq<Pair>)
    ensures |r| == |ys|
    ensures forall n :: 0 <= n < |ys| ==> r[n] == (x, ys[n])
  {
    seq(|ys|, n requires 0 <= n < |ys| => (x, ys[n]))
  }

  /** `combinations(xs, 2)`: the pairs `(xs[i], xs[j])` with `i < j`, in lexicographic
      order of the positions; there are n(n-1)/2 of them. */
  function Comb2(xs: seq<Vertex>): (r: seq<Pair>)
    ensures 2 * |r| == |xs| * (|xs| - 1)
  {
    if |xs| == 0 then [] else Pairs(xs[0], xs[1..]) + Comb2(xs[1..])
  }

  /** The triples that start with `x`, one per pair of `ps`, in order. */
  function Triples(x: Vertex, ps: seq<Pair>): (r: seq<Triple>)
    ensures |r| == |ps|
    ensures forall n :: 0 <= n < |ps| ==> r[n] == (x, ps[n].0, ps[n].1)
  {
    seq(|ps|, n requires 0 <= n < |ps| => (x, ps[n].0, ps[n].1))
  }

  /** `combinations(xs, 3)`: the triples `(xs[i], xs[j], xs[k])` with `i < j < k`, in
      lexicographic order of the positions; there are n(n-1)(n-2)/6 of them. */
  function Comb3(xs: seq<Vertex>): (r: seq<Triple>)
    ensures 6 * |r| == |xs| * (|xs| - 1) * (|xs| - 2)
  {
    if |xs| == 0 then []
    else
      var n := |xs|;
      assert 6 * |Triples(xs[0], Comb2(xs[1..]))| == 3 * (n - 1) * (n - 2);
      assert 3 * (n - 1) * (n - 2) + (n - 1) * (n - 2) * (n - 3) == n * (n - 1) * (n - 2);
      Triples(xs[0], Comb2(xs[1..])) + Comb3(xs[1..])
  }

  function PairSet(p: Pair): set<Vertex>
  {
    {p.0, p.1}
  }

  function TripleSet(t: Triple): set<Vertex>
  {
    {t.0, t.1, t.2}
  }

  /** The members of a triple in the order `for computer in clique` visits them. */
  function Members(t: Triple): seq<Vertex>
  {
    [t.0, t.1, t.2]
  }

  /** Every pair of `combinations(xs, 2)` takes two positions `i < j` of `xs`. */
  lemma {:induction false} Comb2Sound(xs: seq<Vertex>, n: nat)
    requires n < |Comb2(xs)|
    ensures exists i, j :: 0 <= i < j < |xs| && Comb2(xs)[n] == (xs[i], xs[j])
    decreases |xs|
  {
    var ys := xs[1..];
    var ps := Pairs(xs[0], ys);
    if n < |ps| {
      assert Comb2(xs)[n] == (xs[0], xs[n + 1]);
    } else {
      Comb2Sound(ys, n - |ps|);
      var i, j :| 0 <= i < j < |ys| && Comb2(ys)[n - |ps|] == (ys[i], ys[j]);
      assert Comb2(xs)[n] == (xs[i + 1], xs[j + 1]);
    }
  }

  /** Every two positions `i < j` of `xs` give a pair of `combinations(xs, 2)`. */
  lemma {:induction false} Comb2Complete(xs: seq<Vertex>, i: nat, j: nat)
    requires i < j < |xs|
    ensures (xs[i], xs[j]) in Comb2(xs)
    decreases |xs|
  {
    var ys := xs[1..];
    if i == 0 {
      assert Pairs(xs[0], ys)[j - 1] == (xs[i], xs[j]);
    } else {
      Comb2Complete(ys, i - 1, j - 1);
    }
  }

  /** On a list without repeats, the pairs at two different places of
      `combinations(xs, 2)` are different sets. */
  lemma {:induction false} Comb2Distinct(xs: seq<Vertex>, n: nat, n': nat)
    requires Distinct(xs)
    requires n < |Comb2(xs)| && n' < |Comb2(xs)| && n != n'
    ensures PairSet(Comb2(xs)[n]) != PairSet(Comb2(xs)[n'])
    decreases |xs|
  {
    var x, ys := xs[0], xs[1..];
    var ps := Pairs(x, ys);
    var c := Comb2(xs);
    DistinctTail(xs);
    if n < |ps| && n' < |ps| {
      assert ys[n] == xs[n + 1] && ys[n'] == xs[n' + 1];
      assert ys[n] !in PairSet(c[n']);
    } else if n < |ps| {
      TailPairAvoids(x, ys, n' - |ps|);
      assert x in PairSet(c[n]);
    } else if n' < |ps| {
      TailPairAvoids(x, ys, n - |ps|);
      assert x in PairSet(c[n']);
    } else {
      Comb2Distinct(ys, n - |ps|, n' - |ps|);
    }
  }

  /** A pair of `combinations(ys, 2)` has no member outside `ys`. */
  lemma TailPairAvoids(x: Vertex, ys: seq<Vertex>, n: nat)
    requires x !in ys && n < |Comb2(ys)|
    ensures x !in PairSet(Comb2(ys)[n])
  {
    Comb2Sound(ys, n);
    var j, k :| 0 <= j < k < |ys| && Comb2(ys)[n] == (ys[j], ys[k]);
  }

  /** Every triple of `combinations(xs, 3)` takes three positions `i < j < k` of `xs`. */
  lemma {:induction false} Comb3Sound(xs: seq<Vertex>, n: nat)
    requires n < |Comb3(xs)|
    ensures exists i, j, k :: 0 <= i < j < k < |xs| && Comb3(xs)[n] == (xs[i], xs[j], xs[k])
    decreases |xs|
  {
    var ys := xs[1..];
    var ts := Triples(xs[0], Comb2(ys));
    if n < |ts| {
      Comb2Sound(ys, n);
      var j, k :| 0 <= j < k < |ys| && Comb2(ys)[n] == (ys[j], ys[k]);
      assert Comb3(xs)[n] == (xs[0], xs[j + 1], xs[k + 1]);
    } else {
      Comb3Sound(ys, n - |ts|);
      var i, j, k :| 0 <= i < j < k < |ys| && Comb3(ys)[n - |ts|] == (ys[i], ys[j], ys[k]);
      assert Comb3(xs)[n] == (xs[i + 1], xs[j + 1], xs[k + 1]);
    }
  }

  /** Every three positions `i < j < k` of `xs` give a triple of `combinations(xs, 3)`. */
  lemma {:induction false} Comb3Complete(xs: seq<Vertex>, i: nat, j: nat, k: nat)
    requires i < j < k < |xs|
    ensures (xs[i], xs[j], xs[k]) in Comb3(xs)
    decreases |xs|
  {
    var ys := xs[1..];
    if i == 0 {
      Comb2Complete(ys, j - 1, k - 1);
      var n :| 0 <= n < |Comb2(ys)| && Comb2(ys)[n] == (ys[j - 1], ys[k - 1]);
      assert Triples(xs[0], Comb2(ys))[n] == (xs[i], xs[j], xs[k]);
    } else {
      Comb3Complete(ys, i - 1, j - 1, k - 1);
    }
  }

  /** On a list without repeats, the triples at two different places of
      `combinations(xs, 3)` are different sets. */
  lemma {:induction false} Comb3Distinct(xs: seq<Vertex>, n: nat, n': nat)
    requires Distinct(xs)
    requires n < |Comb3(xs)| && n' < |Comb3(xs)| && n != n'
    ensures TripleSet(Comb3(xs)[n]) != TripleSet(Comb3(xs)[n'])
    decreases |xs|
  {
    var x, ys := xs[0], xs[1..];
    var ts := Triples(x, Comb2(ys));
    var c := Comb3(xs);
    DistinctTail(xs);
    if n < |ts| && n' < |ts| {
      HeadTriplesDistinct(x, ys, n, n');
    } else if n < |ts| {
      TailTripleAvoids(x, ys, n' - |ts|);
      assert x in TripleSet(c[n]);
    } else if n' < |ts| {
      TailTripleAvoids(x, ys, n - |ts|);
      assert x in TripleSet(c[n']);
    } else {
      Comb3Distinct(ys, n - |ts|, n' - |ts|);
    }
  }

  /** A triple of `combinations(ys, 3)` has no member outside `ys`. */
  lemma TailTripleAvoids(x: Vertex, ys: seq<Vertex>, n: nat)
    requires x !in ys && n < |Comb3(ys)|
    ensures x !in TripleSet(Comb3(ys)[n])
  {
    Comb3Sound(ys, n);
    var i, j, k :| 0 <= i < j < k < |ys| && Comb3(ys)[n] == (ys[i], ys[j], ys[k]);
  }

  /** The triples that start with `x` differ as sets when their pairs do. */
  lemma HeadTriplesDistinct(x: Vertex, ys: seq<Vertex>, n: nat, n': nat)
    requires Distinct(ys) && x !in ys
    requires n < |Comb2(ys)| && n' < |Comb2(ys)| && n != n'
    ensures TripleSet(Triples(x, Comb2(ys))[n]) != TripleSet(Triples(x, Comb2(ys))[n'])
  {
    var c := Triples(x, Comb2(ys));
    Comb2Sound(ys, n);
    Comb2Sound(ys, n');
    Comb2Distinct(ys, n, n');
    assert TripleSet(c[n]) == {x} + PairSet(Comb2(ys)[n]);
    assert TripleSet(c[n']) == {x} + PairSet(Comb2(ys)[n']);
    assert x !in PairSet(Comb2(ys)[n]) && x !in PairSet(Comb2(ys)[n']);
  }

  /** On a list without repeats, a triple of `combinations(xs, 3)` has three different
      members, all from the list. */
  lemma Comb3Members(xs: seq<Vertex>, n: nat)
    requires Distinct(xs)
    requires n < |Comb3(xs)|
    ensures var t := Comb3(xs)[n]; t.0 != t.1 && t.0 != t.2 && t.1 != t.2
    ensures TripleSet(Comb3(xs)[n]) <= Elements(xs)
  {
    Comb3Sound(xs, n);
  }

  /** Three different members of a list without repeats sit at three positions, which
      taken in increasing order give the same set. */
  lemma SortedPositions(xs: seq<Vertex>, a: Vertex, b: Vertex, c: Vertex)
      returns (i: nat, j: nat, k: nat)
    requires a in xs && b in xs && c in xs
    requires a != b && a != c && b != c
    ensures i < j < k < |xs|
    ensures {xs[i], xs[j], xs[k]} == {a, b, c}
  {
    var ia :| 0 <= ia < |xs| && xs[ia] == a;
    var ib :| 0 <= ib < |xs| && xs[ib] == b;
    var ic :| 0 <= ic < |xs| && xs[ic] == c;
    if ia < ib {
      if ib < ic {
        i, j, k := ia, ib, ic;
      } else if ia < ic {
        i, j, k := ia, ic, ib;
      } else {
        i, j, k := ic, ia, ib;
      }
    } else {
      if ia < ic {
        i, j, k := ib, ia, ic;
      } else if ib < ic {
        i, j, k := ib, ic, ia;
      } else {
        i, j, k := ic, ib, ia;
      }
    }
  }

  /** Three different computers, each joined to the other two. */
  ghost predicate Triangle(edges: seq<Edge>, a: Vertex, b: Vertex, c: Vertex)
  {
    a != b && a != c && b != c && IsClique(edges, {a, b, c})
  }

  /** `computer[0] == "t"` for a non-empty label. */
  predicate StartsWithT(s: Vertex)
  {
    |s| > 0 && s[0] == 't'
  }

  /** Some computer of the set has a label starting with `t`. */
  predicate HasT(s: set<Vertex>)
  {
    exists v :: v in s && StartsWithT(v)
  }

  /** The matrix answers every lookup between two different members of `s`, with 1
      exactly for joined pairs. */
  ghost predicate Answers(m: Matrix, edges: seq<Edge>, s: set<Vertex>)
  {
    forall a, b :: a in s && b in s && a != b ==>
      a in m && b in m[a] && (m[a][b] == 1 <==> Linked(edges, a, b))
  }

  /** The matrix built from the vertex set answers every lookup inside that set. */
  lemma AdjMatrixAnswers(m: Matrix, edges: seq<Edge>, verts: set<Vertex>, s: set<Vertex>)
    requires IsAdjMatrix(m, edges, verts)
    requires s <= verts
    ensures Answers(m, edges, s)
  {
    forall a, b | a in s && b in s && a != b
      ensures a in m && b in m[a] && (m[a][b] == 1 <==> Linked(edges, a, b))
    {
      SubsetSize({a, b}, verts);
    }
  }

  /** `combinations(subset, 2)` on a three-element subset. */
  lemma Comb2OfThree(t: Triple)
    ensures Comb2(Members(t)) == [(t.0, t.1), (t.0, t.2), (t.1, t.2)]
  {
    var xs := Members(t);
    assert xs[1..] == [t.1, t.2];
    assert xs[1..][1..] == [t.2];
    assert xs[1..][1..][1..] == [];
    assert Comb2([t.2]) == [];
    assert Comb2([t.1, t.2]) == [(t.1, t.2)];
  }

  /** The pair test of `part1`: every pair of `combinations(subset, 2)` has matrix entry 1. */
  method IsTriangle(m: Matrix, edges: seq<Edge>, t: Triple) returns (clique: bool)
    requires Answers(m, edges, TripleSet(t))
    requires t.0 != t.1 && t.0 != t.2 && t.1 != t.2
    ensures clique <==> Triangle(edges, t.0, t.1, t.2)
  {
    var pairs := Comb2(Members(t));
    Comb2OfThree(t);
    clique := true;
    for n := 0 to |pairs|
      invariant clique <==> forall q :: 0 <= q < n ==> Linked(edges, pairs[q].0, pairs[q].1)
    {
      var (a, b) := pairs[n];
      assert a in TripleSet(t) && b in TripleSet(t) && a != b;
      if m[a][b] != 1 {
        clique := false;
      }
    }
    assert pairs[0] == (t.0, t.1) && pairs[1] == (t.0, t.2) && pairs[2] == (t.1, t.2);
    if clique {
      assert Linked(edges, pairs[0].0, pairs[0].1) && Linked(edges, pairs[1].0, pairs[1].1);
      assert Linked(edges, pairs[2].0, pairs[2].1);
      forall a, b | a in TripleSet(t) && b in TripleSet(t) && a != b ensures Linked(edges, a, b) {
      }
    } else {
      var q :| 0 <= q < 3 && !Linked(edges, pairs[q].0, pairs[q].1);
      assert pairs[q].0 in TripleSet(t) && pairs[q].1 in TripleSet(t) && pairs[q].0 != pairs[q].1;
    }
  }

  /** The `t` test of `part1`: visit the members in order, stop at the first label
      starting with `t`; an empty label met before that raises `IndexError`. */
  method ContainsT(t: Triple) returns (r: Result<bool, Error>)
    ensures r.Ok? ==> (r.value <==> HasT(TripleSet(t)))
    ensures r.Err? ==> r.error == IndexError && "" in TripleSet(t)
    ensures !HasT(TripleSet(t)) && "" in TripleSet(t) ==> r.Err?
  {
    var members := Members(t);
    var containsT := false;
    var n := 0;
    while n < |members|
      invariant 0 <= n <= |members|
      invariant !containsT
      invariant forall q :: 0 <= q < n ==> members[q] != "" && !StartsWithT(members[q])
    {
      var computer := members[n];
      if |computer| == 0 {
        return Err(IndexError);
      }
      if computer[0] == 't' {
        containsT := true;
        break;
      }
      n := n + 1;
    }
    assert containsT ==> members[n] in TripleSet(t) && StartsWithT(members[n]);
    assert forall v :: v in TripleSet(t) ==> v == members[0] || v == members[1] || v == members[2];
    assert !containsT ==> forall v :: v in TripleSet(t) ==> v != "" && !StartsWithT(v);
    r := Ok(containsT);
  }

  /** A subset further on in `combinations(order, 3)` is a set not met before. */
  lemma NewTripleSet(order: seq<Vertex>, seen: seq<Triple>, i: nat)
    requires Distinct(order)
    requires i < |Comb3(order)|
    requires forall n :: 0 <= n < |seen| ==> seen[n] in Comb3(order)[..i]
    ensures forall n :: 0 <= n < |seen| ==> TripleSet(seen[n]) != TripleSet(Comb3(order)[i])
  {
    forall n | 0 <= n < |seen| ensures TripleSet(seen[n]) != TripleSet(Comb3(order)[i]) {
      var q := PrefixIndex(Comb3(order), i, seen[n]);
      Comb3Distinct(order, q, i);
    }
  }

  /** After `i` subsets of the first loop: the kept triples are the triangles among them,
      each a different set. */
  ghost predicate TrianglesUpTo(edges: seq<Edge>, subsets: seq<Triple>, i: nat, cliques: seq<Triple>)
    requires i <= |subsets|
  {
    && (forall n :: 0 <= n < |cliques| ==>
          cliques[n] in subsets[..i] && Triangle(edges, cliques[n].0, cliques[n].1, cliques[n].2))
    && (forall n :: 0 <= n < i && Triangle(edges, subsets[n].0, subsets[n].1, subsets[n].2) ==>
          subsets[n] in cliques)
    && SetsDistinct(cliques)
  }

  /** A turn of the first loop that keeps `subsets[i]`, a triangle not met before as a set. */
  lemma TrianglesKeep(edges: seq<Edge>, subsets: seq<Triple>, i: nat, cliques: seq<Triple>)
    requires i < |subsets| && TrianglesUpTo(edges, subsets, i, cliques)
    requires Triangle(edges, subsets[i].0, subsets[i].1, subsets[i].2)
    requires forall n :: 0 <= n < |cliques| ==> TripleSet(cliques[n]) != TripleSet(subsets[i])
    ensures TrianglesUpTo(edges, subsets, i + 1, cliques + [subsets[i]])
  {
    var cliques' := cliques + [subsets[i]];
    forall n | 0 <= n < |cliques'|
      ensures cliques'[n] in subsets[..i + 1] && Triangle(edges, cliques'[n].0, cliques'[n].1, cliques'[n].2)
    {
      if n < |cliques| {
        var q := PrefixIndex(subsets, i, cliques[n]);
        assert subsets[..i + 1][q] == cliques'[n];
      } else {
        assert subsets[..i + 1][i] == cliques'[n];
      }
    }
    forall n | 0 <= n < i + 1 && Triangle(edges, subsets[n].0, subsets[n].1, subsets[n].2)
      ensures subsets[n] in cliques'
    {
      if n == i {
        assert cliques'[|cliques|] == subsets[n];
      } else {
        var q :| 0 <= q < |cliques| && cliques[q] == subsets[n];
        assert cliques'[q] == subsets[n];
      }
    }
    forall n, n' | 0 <= n < n' < |cliques'| ensures TripleSet(cliques'[n]) != TripleSet(cliques'[n']) {
      if n' < |cliques| {
        assert cliques'[n] == cliques[n] && cliques'[n'] == cliques[n'];
      } else {
        assert cliques'[n] == cliques[n] && cliques'[n'] == subsets[i];
      }
    }
  }

  /** A turn of the first loop that passes over `subsets[i]`, which is no triangle. */
  lemma TrianglesSkip(edges: seq<Edge>, subsets: seq<Triple>, i: nat, cliques: seq<Triple>)
    requires i < |subsets| && TrianglesUpTo(edges, subsets, i, cliques)
    requires !Triangle(edges, subsets[i].0, subsets[i].1, subsets[i].2)
    ensures TrianglesUpTo(edges, subsets, i + 1, cliques)
  {
    forall n | 0 <= n < |cliques| ensures cliques[n] in subsets[..i + 1] {
      var q := PrefixIndex(subsets, i, cliques[n]);
      assert subsets[..i + 1][q] == cliques[n];
    }
  }

  /** The first loop of `part1`: keep the subsets all of whose pairs have matrix entry 1.
      The kept triples are exactly the triangles among the subsets, and no two of them
      are the same set. */
  method KeepTriangles(m: Matrix, edges: seq<Edge>, order: seq<Vertex>) returns (cliques: seq<Triple>)
    requires Distinct(order)
    requires Answers(m, edges, Elements(order))
    ensures forall n :: 0 <= n < |cliques| ==>
      cliques[n] in Comb3(order) && Triangle(edges, cliques[n].0, cliques[n].1, cliques[n].2)
    ensures forall t :: t in Comb3(order) && Triangle(edges, t.0, t.1, t.2) ==> t in cliques
    ensures SetsDistinct(cliques)
  {
    var subsets := Comb3(order);
    cliques := [];
    for i := 0 to |subsets|
      invariant TrianglesUpTo(edges, subsets, i, cliques)
    {
      Comb3Members(order, i);
      var clique := IsTriangle(m, edges, subsets[i]);
      if clique {
        NewTripleSet(order, cliques, i);
        TrianglesKeep(edges, subsets, i, cliques);
        cliques := cliques + [subsets[i]];
      } else {
        TrianglesSkip(edges, subsets, i, cliques);
      }
    }
    assert subsets[..|subsets|] == subsets;
  }

  /** After `i` triangles of the second loop, none of which raised: the kept ones are
      those among them with a `t` computer, each a different set. */
  predicate WithTUpTo(cliques: seq<Triple>, i: nat, valid: seq<Triple>)
    requires i <= |cliques|
  {
    && (forall n :: 0 <= n < |valid| ==> valid[n] in cliques[..i] && HasT(TripleSet(valid[n])))
    && (forall n :: 0 <= n < i && HasT(TripleSet(cliques[n])) ==> cliques[n] in valid)
    && (forall n :: 0 <= n < i ==> HasT(TripleSet(cliques[n])) || "" !in TripleSet(cliques[n]))
    && SetsDistinct(valid)
  }

  /** A turn of the second loop that keeps `cliques[i]`, which has a `t` computer. */
  lemma WithTKeep(cliques: seq<Triple>, i: nat, valid: seq<Triple>)
    requires SetsDistinct(cliques)
    requires i < |cliques| && WithTUpTo(cliques, i, valid)
    requires HasT(TripleSet(cliques[i]))
    ensures WithTUpTo(cliques, i + 1, valid + [cliques[i]])
  {
    NotYetKept(cliques, valid, i);
    var valid' := valid + [cliques[i]];
    forall n | 0 <= n < |valid'| ensures valid'[n] in cliques[..i + 1] && HasT(TripleSet(valid'[n])) {
      if n < |valid| {
        var q := PrefixIndex(cliques, i, valid[n]);
        assert cliques[..i + 1][q] == valid'[n];
      } else {
        assert cliques[..i + 1][i] == valid'[n];
      }
    }
    forall n | 0 <= n < i + 1 && HasT(TripleSet(cliques[n])) ensures cliques[n] in valid' {
      if n == i {
        assert valid'[|valid|] == cliques[n];
      } else {
        var q :| 0 <= q < |valid| && valid[q] == cliques[n];
        assert valid'[q] == cliques[n];
      }
    }
    forall n, n' | 0 <= n < n' < |valid'| ensures TripleSet(valid'[n]) != TripleSet(valid'[n']) {
      if n' < |valid| {
        assert valid'[n] == valid[n] && valid'[n'] == valid[n'];
      } else {
        assert valid'[n] == valid[n] && valid'[n'] == cliques[i];
      }
    }
  }

  /** A turn of the second loop that passes over `cliques[i]`, which has neither a `t`
      computer nor an empty label. */
  lemma WithTSkip(cliques: seq<Triple>, i: nat, valid: seq<Triple>)
    requires i < |cliques| && WithTUpTo(cliques, i, valid)
    requires !HasT(TripleSet(cliques[i])) && "" !in TripleSet(cliques[i])
    ensures WithTUpTo(cliques, i + 1, valid)
  {
    forall n | 0 <= n < |valid| ensures valid[n] in cliques[..i + 1] {
      var q := PrefixIndex(cliques, i, valid[n]);
      assert cliques[..i + 1][q] == valid[n];
    }
  }

  /** An entry of `cliques` differs as a set from every entry before it, so from every
      triple kept from that prefix. */
  lemma NotYetKept(cliques: seq<Triple>, kept: seq<Triple>, i: nat)
    requires SetsDistinct(cliques)
    requires i < |cliques|
    requires forall n :: 0 <= n < |kept| ==> kept[n] in cliques[..i]
    ensures forall n :: 0 <= n < |kept| ==> TripleSet(kept[n]) != TripleSet(cliques[i])
  {
    forall n | 0 <= n < |kept| ensures TripleSet(kept[n]) != TripleSet(cliques[i]) {
      var q := PrefixIndex(cliques, i, kept[n]);
      assert cliques[q] == kept[n];
    }
  }

  /** The second loop of `part1`: keep the triangles with a `t` computer, stopping at the
      first `IndexError` the `t` test raises. */
  method KeepWithT(cliques: seq<Triple>) returns (r: Result<seq<Triple>, Error>)
    requires SetsDistinct(cliques)
    ensures r.Ok? ==> forall n :: 0 <= n < |r.value| ==> r.value[n] in cliques && HasT(TripleSet(r.value[n]))
    ensures r.Ok? ==> forall t :: t in cliques && HasT(TripleSet(t)) ==> t in r.value
    ensures r.Ok? ==> SetsDistinct(r.value)
    ensures r.Err? ==> r.error == IndexError && exists t :: t in cliques && "" in TripleSet(t)
    ensures (exists t :: t in cliques && "" in TripleSet(t) && !HasT(TripleSet(t))) ==> r.Err?
  {
    var valid: seq<Triple> := [];
    for i := 0 to |cliques|
      invariant WithTUpTo(cliques, i, valid)
    {
      var containsT := ContainsT(cliques[i]);
      if containsT.Err? {
        return Err(containsT.error);
      }
      if containsT.value {
        WithTKeep(cliques, i, valid);
        valid := valid + [cliques[i]];
      } else {
        WithTSkip(cliques, i, valid);
      }
    }
    assert cliques[..|cliques|] == cliques;
    r := Ok(valid);
  }

  /** Every triangle of the graph is, as a set, a triple of `combinations(order, 3)`
      when `order` lists the vertex set without repeats. */
  lemma TriangleInComb3(edges: seq<Edge>, order: seq<Vertex>, a: Vertex, b: Vertex, c: Vertex)
      returns (t: Triple)
    requires Distinct(order) && Elements(order) == VerticesOf(edges)
    requires Triangle(edges, a, b, c)
    ensures t in Comb3(order) && TripleSet(t) == {a, b, c}
    ensures Triangle(edges, t.0, t.1, t.2)
  {
    assert Linked(edges, a, b) && Linked(edges, a, c);
    var i, j, k := SortedPositions(order, a, b, c);
    Comb3Complete(order, i, j, k);
    t := (order[i], order[j], order[k]);
  }

  /** Every entry is a triangle with a `t` computer. */
  ghost predicate OnlyTTriangles(edges: seq<Edge>, ts: seq<Triple>)
  {
    forall n :: 0 <= n < |ts| ==> Triangle(edges, ts[n].0, ts[n].1, ts[n].2) && HasT(TripleSet(ts[n]))
  }

  /** Every triangle with a `t` computer is, as a set, an entry. */
  ghost predicate AllTTriangles(edges: seq<Edge>, ts: seq<Triple>)
  {
    forall a, b, c :: Triangle(edges, a, b, c) && HasT({a, b, c}) ==>
      exists n :: 0 <= n < |ts| && TripleSet(ts[n]) == {a, b, c}
  }

  /** No two entries are the same set. */
  predicate SetsDistinct(ts: seq<Triple>)
  {
    forall n, n' :: 0 <= n < n' < |ts| ==> TripleSet(ts[n]) != TripleSet(ts[n'])
  }

  /** Some triangle has a computer with the empty label. */
  ghost predicate EmptyLabelTriangle(edges: seq<Edge>)
  {
    exists a, b, c :: Triangle(edges, a, b, c) && "" in {a, b, c}
  }

  lemma EmptyLabelWitness(edges: seq<Edge>, t: Triple)
    requires Triangle(edges, t.0, t.1, t.2) && "" in TripleSet(t)
    ensures EmptyLabelTriangle(edges)
  {
    assert Triangle(edges, t.0, t.1, t.2) && "" in {t.0, t.1, t.2};
  }

  /** Some triangle has a computer with the empty label and no `t` computer. */
  ghost predicate EmptyLabelTriangleWithoutT(edges: seq<Edge>)
  {
    exists a, b, c :: Triangle(edges, a, b, c) && "" in {a, b, c} && !HasT({a, b, c})
  }

  /** The two filters together keep every triangle with a `t` computer. */
  lemma FiltersComplete(edges: seq<Edge>, order: seq<Vertex>, cliques: seq<Triple>, valid: seq<Triple>)
    requires Distinct(order) && Elements(order) == VerticesOf(edges)
    requires forall t :: t in Comb3(order) && Triangle(edges, t.0, t.1, t.2) ==> t in cliques
    requires forall t :: t in cliques && HasT(TripleSet(t)) ==> t in valid
    ensures AllTTriangles(edges, valid)
  {
    forall a, b, c | Triangle(edges, a, b, c) && HasT({a, b, c})
      ensures exists n :: 0 <= n < |valid| && TripleSet(valid[n]) == {a, b, c}
    {
      var t := TriangleInComb3(edges, order, a, b, c);
      assert t in valid;
    }
  }

  /** A triangle with an empty label and no `t` computer reaches the `t` test. */
  lemma ReachesEmptyLabel(edges: seq<Edge>, order: seq<Vertex>, cliques: seq<Triple>)
    requires Distinct(order) && Elements(order) == VerticesOf(edges)
    requires forall t :: t in Comb3(order) && Triangle(edges, t.0, t.1, t.2) ==> t in cliques
    requires EmptyLabelTriangleWithoutT(edges)
    ensures exists t :: t in cliques && "" in TripleSet(t) && !HasT(TripleSet(t))
  {
    var a, b, c :| Triangle(edges, a, b, c) && "" in {a, b, c} && !HasT({a, b, c});
    var t := TriangleInComb3(edges, order, a, b, c);
    assert t in cliques;
  }

  /** `part1`: the fully connected three-computer sets with a `t` computer, each once.
      The matrix raises `KeyError` exactly when there is a single vertex; the `t` test
      raises `IndexError` only on a triangle with an empty label, and always does when
      such a triangle has no `t` computer. */
  method Part1(edges: seq<Edge>) returns (r: Result<seq<Triple>, Error>)
    ensures r.Ok? ==> OnlyTTriangles(edges, r.value) && AllTTriangles(edges, r.value) && SetsDistinct(r.value)
    ensures (r.Err? && r.error.KeyError?) <==> |VerticesOf(edges)| == 1
    ensures r.Err? && r.error == IndexError ==> EmptyLabelTriangle(edges)
    ensures EmptyLabelTriangleWithoutT(edges) ==> r.Err?
  {
    var vertices := VerticesOf(edges);
    var order := ListOf(vertices);
    var matrix := GenerateAdjMatrix(edges, vertices);
    AdjMatrixOfOwnVertices(edges);
    if matrix.Err? {
      return Err(matrix.error);
    }
    var m := matrix.value;
    AdjMatrixAnswers(m, edges, vertices, Elements(order));
    var cliques := KeepTriangles(m, edges, order);
    r := KeepWithT(cliques);
    if r.Ok? {
      FiltersComplete(edges, order, cliques, r.value);
    } else {
      var t :| t in cliques && "" in TripleSet(t);
      EmptyLabelWitness(edges, t);
    }
    if EmptyLabelTriangleWithoutT(edges) {
      ReachesEmptyLabel(edges, order, cliques);
    }
  }
}
