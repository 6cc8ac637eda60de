/** `part2` of day 23: the password is the labels of a maximum clique, sorted in
    Python's string order and joined with commas. */
module Password {
  import opened Seqs
  import opened Graph
  import opened CliqueSearch

  /** Python's `a < b` on strings: the first differing character decides, and a proper
      prefix comes first. */
  predicate Below(a: string, b: string)
    ensures |a| < |b| && a == b[..|a|] ==> Below(a, b)
    ensures |b| <= |a| && b == a[..|b|] ==> !Below(a, b)
    decreases |a|
  {
    if |a| == 0 then |b| > 0
    else if |b| == 0 then false
    else if a[0] != b[0] then a[0] < b[0]
    else Below(a[1..], b[1..])
  }

  lemma {:induction false} BelowIrreflexive(a: string)
    ensures !Below(a, a)
    decreases |a|
  {
    if |a| > 0 {
      BelowIrreflexive(a[1..]);
    }
  }

  lemma {:induction false} BelowAsymmetric(a: string, b: string)
    requires Below(a, b)
    ensures !Below(b, a)
    decreases |a|
  {
    if |a| > 0 && |b| > 0 && a[0] == b[0] {
      BelowAsymmetric(a[1..], b[1..]);
    }
  }

  lemma {:induction false} BelowTransitive(a: string, b: string, c: string)
    requires Below(a, b) && Below(b, c)
    ensures Below(a, c)
    decreases |a|
  {
    if |a| > 0 && a[0] == b[0] && b[0] == c[0] {
      BelowTransitive(a[1..], b[1..], c[1..]);
    }
  }

  /** Two different strings are ordered one way or the other. */
  lemma {:induction false} BelowTotal(a: string, b: string)
    requires a != b
    ensures Below(a, b) || Below(b, a)
    decreases |a|
  {
    if |a| > 0 && |b| > 0 && a[0] == b[0] {
      assert a == [a[0]] + a[1..] && b == [b[0]] + b[1..];
      BelowTotal(a[1..], b[1..]);
    }
  }

  /** Strictly increasing in Python's string order. */
  predicate StrictlySorted(xs: seq<string>)
  {
    forall i, j :: 0 <= i < j < |xs| ==> Below(xs[i], xs[j])
  }

  /** Put `x` in its place in a sorted list. */
  function Insert(x: string, xs: seq<string>): (r: seq<string>)
    ensures multiset(r) == multiset(xs) + multiset{x}
  {
    if |xs| == 0 then [x]
    else if Below(xs[0], x) then
      assert xs == [xs[0]] + xs[1..];
      [xs[0]] + Insert(x, xs[1..])
    else [x] + xs
  }

  /** `sorted(xs)`, as an insertion sort: for lists without repeats the sorted
      permutation is unique, so any sorting algorithm gives this list. */
  function Sort(xs: seq<string>): (r: seq<string>)
    ensures multiset(r) == multiset(xs)
  {
    if |xs| == 0 then []
    else
      assert xs == [xs[0]] + xs[1..];
      Insert(xs[0], Sort(xs[1..]))
  }

  /** Dropping the head of a sorted list leaves it sorted. */
  lemma TailSorted(xs: seq<string>)
    requires |xs| > 0 && StrictlySorted(xs)
    ensures StrictlySorted(xs[1..])
  {
    var tail := xs[1..];
    forall i, j | 0 <= i < j < |tail| ensures Below(tail[i], tail[j]) {
      assert tail[i] == xs[i + 1] && tail[j] == xs[j + 1];
    }
  }

  /** A head below every entry of a sorted list keeps it sorted. */
  lemma ConsSorted(h: string, rest: seq<string>)
    requires StrictlySorted(rest)
    requires forall k :: 0 <= k < |rest| ==> Below(h, rest[k])
    ensures StrictlySorted([h] + rest)
  {
    var r := [h] + rest;
    forall i, j | 0 <= i < j < |r| ensures Below(r[i], r[j]) {
      assert r[j] == rest[j - 1];
      if i > 0 {
        assert r[i] == rest[i - 1];
      }
    }
  }

  /** A string below `x` and below every entry of `tail` is below every entry of
      `Insert(x, tail)`. */
  lemma BelowInsert(h: string, x: string, tail: seq<string>)
    requires Below(h, x)
    requires forall k :: 0 <= k < |tail| ==> Below(h, tail[k])
    ensures forall k :: 0 <= k < |Insert(x, tail)| ==> Below(h, Insert(x, tail)[k])
  {
    var rest := Insert(x, tail);
    forall k | 0 <= k < |rest| ensures Below(h, rest[k]) {
      assert rest[k] in multiset(rest);
      if rest[k] != x {
        assert rest[k] in multiset(tail);
        var m :| 0 <= m < |tail| && tail[m] == rest[k];
      }
    }
  }

  lemma {:induction false} InsertSorted(x: string, xs: seq<string>)
    requires StrictlySorted(xs) && x !in xs
    ensures StrictlySorted(Insert(x, xs))
    decreases |xs|
  {
    if |xs| == 0 {
    } else if Below(xs[0], x) {
      var tail := xs[1..];
      TailSorted(xs);
      assert x !in tail;
      InsertSorted(x, tail);
      forall k | 0 <= k < |tail| ensures Below(xs[0], tail[k]) {
        assert tail[k] == xs[k + 1];
      }
      BelowInsert(xs[0], x, tail);
      ConsSorted(xs[0], Insert(x, tail));
    } else {
      BelowTotal(x, xs[0]);
      forall k | 0 <= k < |xs| ensures Below(x, xs[k]) {
        if k > 0 {
          BelowTransitive(x, xs[0], xs[k]);
        }
      }
      ConsSorted(x, xs);
    }
  }

  /** Sorting a list without repeats gives a strictly increasing list. */
  lemma {:induction false} SortSorted(xs: seq<string>)
    requires Distinct(xs)
    ensures StrictlySorted(Sort(xs))
    decreases |xs|
  {
    if |xs| > 0 {
      var tail := xs[1..];
      assert Distinct(tail) by {
        forall i, j | 0 <= i < j < |tail| ensures tail[i] != tail[j] {
          assert tail[i] == xs[i + 1] && tail[j] == xs[j + 1];
        }
      }
      SortSorted(tail);
      assert xs[0] !in tail by {
        forall k | 0 <= k < |tail| ensures tail[k] != xs[0] {
          assert tail[k] == xs[k + 1];
        }
      }
      assert xs[0] !in multiset(Sort(tail));
      InsertSorted(xs[0], Sort(tail));
    }
  }

  /** A strictly increasing list is determined by its set of elements. */
  lemma {:induction false} SortedUnique(xs: seq<string>, ys: seq<string>)
    requires StrictlySorted(xs) && StrictlySorted(ys)
    requires Elements(xs) == Elements(ys)
    ensures xs == ys
    decreases |xs|
  {
    ElementsOfNonEmpty(xs);
    ElementsOfNonEmpty(ys);
    if |xs| > 0 && |ys| > 0 {
      assert xs[0] in Elements(ys) && ys[0] in Elements(xs);
      if xs[0] != ys[0] {
        var i :| 0 <= i < |ys| && ys[i] == xs[0];
        var j :| 0 <= j < |xs| && xs[j] == ys[0];
        assert i > 0 && j > 0;
        BelowAsymmetric(ys[0], ys[i]);
      }
      var xt, yt := xs[1..], ys[1..];
      assert StrictlySorted(xt) by {
        forall a, b | 0 <= a < b < |xt| ensures Below(xt[a], xt[b]) {
          assert xt[a] == xs[a + 1] && xt[b] == xs[b + 1];
        }
      }
      assert StrictlySorted(yt) by {
        forall a, b | 0 <= a < b < |yt| ensures Below(yt[a], yt[b]) {
          assert yt[a] == ys[a + 1] && yt[b] == ys[b + 1];
        }
      }
      assert Elements(xt) == Elements(xs) - {xs[0]} by {
        forall v | v in Elements(xs) - {xs[0]} ensures v in Elements(xt) {
          var k :| 0 <= k < |xs| && xs[k] == v;
          assert k > 0 && xt[k - 1] == v;
        }
        forall v | v in Elements(xt) ensures v in Elements(xs) - {xs[0]} {
          var k :| 0 <= k < |xt| && xt[k] == v;
          assert xs[k + 1] == v;
          BelowIrreflexive(xs[0]);
        }
      }
      assert Elements(yt) == Elements(ys) - {ys[0]} by {
        forall v | v in Elements(ys) - {ys[0]} ensures v in Elements(yt) {
          var k :| 0 <= k < |ys| && ys[k] == v;
          assert k > 0 && yt[k - 1] == v;
        }
        forall v | v in Elements(yt) ensures v in Elements(ys) - {ys[0]} {
          var k :| 0 <= k < |yt| && yt[k] == v;
          assert ys[k + 1] == v;
          BelowIrreflexive(ys[0]);
        }
      }
      SortedUnique(xt, yt);
      assert xs == [xs[0]] + xt && ys == [ys[0]] + yt;
    }
  }

  /** The total number of characters in `parts`. */
  function TotalLength(parts: seq<string>): nat
  {
    if |parts| == 0 then 0 else |parts[0]| + TotalLength(parts[1..])
  }

  /** `sep.join(parts)`: the parts in order with one separator between neighbours. */
  function Join(parts: seq<string>, sep: char): (r: string)
    ensures |r| == TotalLength(parts) + (if |parts| == 0 then 0 else |parts| - 1)
    ensures |parts| > 0 ==> r[..|parts[0]|] == parts[0]
  {
    if |parts| == 0 then ""
    else if |parts| == 1 then parts[0]
    else parts[0] + [sep] + Join(parts[1..], sep)
  }

  /** `s.split(sep)`: the pieces between separators; there is always at least one. */
  function Split(s: string, sep: char): (r: seq<string>)
    ensures |r| >= 1
  {
    if |s| == 0 then [""]
    else if s[0] == sep then [""] + Split(s[1..], sep)
    else
      var rest := Split(s[1..], sep);
      [[s[0]] + rest[0]] + rest[1..]
  }

  /** A piece without the separator splits into itself, and a separator after it ends
      the first piece. */
  lemma {:induction false} SplitAfterPiece(p: string, s: string, sep: char)
    requires sep !in p
    ensures Split(p, sep) == [p]
    ensures Split(p + [sep] + s, sep) == [p] + Split(s, sep)
    decreases |p|
  {
    if |p| == 0 {
      assert p + [sep] + s == [sep] + s;
      assert ([sep] + s)[1..] == s;
    } else {
      var t := p[1..];
      assert sep !in t;
      SplitAfterPiece(t, s, sep);
      assert (p + [sep] + s)[1..] == t + [sep] + s;
      assert [p[0]] + t == p;
    }
  }

  /** Splitting the joined labels gives the labels back, when there is at least one
      label and none contains the separator. */
  lemma {:induction false} SplitJoin(parts: seq<string>, sep: char)
    requires |parts| >= 1
    requires forall k :: 0 <= k < |parts| ==> sep !in parts[k]
    ensures Split(Join(parts, sep), sep) == parts
    decreases |parts|
  {
    SplitAfterPiece(parts[0], "", sep);
    if |parts| > 1 {
      var tail := parts[1..];
      assert forall k :: 0 <= k < |tail| ==> sep !in tail[k] by {
        forall k | 0 <= k < |tail| ensures sep !in tail[k] {
          assert tail[k] == parts[k + 1];
        }
      }
      SplitJoin(tail, sep);
      SplitAfterPiece(parts[0], Join(tail, sep), sep);
      assert parts == [parts[0]] + tail;
    }
  }

  /** Joining the pieces of a split gives the string back. */
  lemma {:induction false} JoinSplit(s: string, sep: char)
    ensures Join(Split(s, sep), sep) == s
    decreases |s|
  {
    if |s| > 0 {
      JoinSplit(s[1..], sep);
      var rest := Split(s[1..], sep);
      if s[0] == sep {
        assert ([""] + rest)[1..] == rest;
        assert s == [s[0]] + s[1..];
      } else {
        var r := [[s[0]] + rest[0]] + rest[1..];
        assert r[1..] == rest[1..];
        if |rest| > 1 {
          assert Join(rest, sep) == rest[0] + [sep] + Join(rest[1..], sep);
        }
        assert s == [s[0]] + s[1..];
      }
    }
  }

  /** The end of `part2`: run the search from scratch, turn the stored clique into a
      list, sort it and join it with commas. The list holds the labels of a maximum
      clique in increasing order; the password splits back into them when no label
      contains a comma. */
  method Part2(edges: seq<Edge>) returns (clique: seq<Vertex>, password: string)
    requires NoSelfLoops(edges)
    ensures IsMaximumClique(edges, Elements(clique))
    ensures StrictlySorted(clique) && Distinct(clique)
    ensures password == Join(clique, ',')
    ensures |clique| >= 1 && (forall k :: 0 <= k < |clique| ==> ',' !in clique[k]) ==>
      Split(password, ',') == clique
  {
    var best := FindMaxClique(edges);
    var stored := ListOf(best);
    clique := Sort(stored);
    SortSorted(stored);
    assert Elements(clique) == best by {
      forall v ensures v in clique <==> v in stored {
        assert v in clique <==> v in multiset(clique);
        assert v in stored <==> v in multiset(stored);
      }
    }
    assert Distinct(clique) by {
      forall i, j | 0 <= i < j < |clique| ensures clique[i] != clique[j] {
        if clique[i] == clique[j] {
          BelowIrreflexive(clique[i]);
        }
      }
    }
    password := Join(clique, ',');
    if |clique| >= 1 && (forall k :: 0 <= k < |clique| ==> ',' !in clique[k]) {
      SplitJoin(clique, ',');
    }
  }

  /** The password depends only on which clique was stored, not on the order `list(R)`
      produced: two increasing lists of the same labels join to the same string. */
  lemma PasswordOfClique(xs: seq<Vertex>, ys: seq<Vertex>)
    requires StrictlySorted(xs) && StrictlySorted(ys)
    requires Elements(xs) == Elements(ys)
    ensures Join(xs, ',') == Join(ys, ',')
  {
    SortedUnique(xs, ys);
  }
}
