# Clique search and grid vectors, modelled in Dafny

This project models two puzzle solvers and proves properties of the models.

**Day 23 (`23/23.py`)** models a network of computers given as a list of connections.
- `adjacent` gives the neighbours of a computer.
- `generate_adj_matrix` builds the adjacency matrix, a dictionary of dictionaries.
- `part1` keeps every three-computer subset that the matrix shows to be fully connected and has a computer whose name starts with `t`.
- `part2` runs the Bron–Kerbosch search with a pivot. It stores the largest clique in a one-slot holder, sorts that clique and joins it with commas into the password.

**Day 15 (`15/15.py`)** models the `Vector` class: element-wise addition, scalar multiplication and remainder, iteration through a stored position, indexing and equality. It also models the four-arrow `directions` table and `find_robot`, which looks for `@` in a grid.

Modules:
- `Wrappers`: `Result` and `Option`.
- `Seqs`: lists built from sets.
- `Graph`: adjacency and the matrix.
- `CliqueSearch`: `bron_kerbosch`.
- `Triangles`: `part1`.
- `Password`: sorting, joining and `part2`.
- `Vectors`: the `Vector` class.
- `Robot`: `directions` and `find_robot`.

Python's exceptions are `Err` values of a `Result`.

Python's set iteration order is not modelled. Wherever the source walks a set (`list(P)[0]`, `for u in P.union(X)`, `for v in list(P - Nu)`, `combinations(vertices, 3)`), the model picks elements with `:|`, so every property holds for every order.

The state the source changes in place is modelled as objects:
- The holder `max_clique` is the class `MaxClique`.
- The live `P`/`X` of the branch loop are local variables that `Sweep` reassigns.
- The iteration position `self.index` of a vector is a field of `Vector`, which `Iter` and `Next` update.

Behaviour of the code that the model keeps as it is:
- The code does not check that a connection joins two different computers. The matrix construction accepts self-loops, and `part1` fails with `KeyError` exactly when the connections name a single computer (`Graph.AdjMatrixOfOwnVertices`).
- The `t` test of `part1` reads `computer[0]`, so an empty name raises `IndexError` (`Triangles.ContainsT`, `Triangles.Part1`).
- `__mod__` raises `ZeroDivisionError` on a zero divisor. The model returns that as an error value and does not make it a precondition.
- `v % v` pairs consecutive components, because both sides of `zip` advance the one shared position (see Findings).

## Model

| member | source | states |
|---|---|---|
| Graph.Adjacent | 23/23.py:40-42 | `u` is a neighbour of `v` exactly when `(v, u)` or `(u, v)` is a connection |
| Graph.VerticesOf | 23/23.py:70 | both ends of every connection are in the vertex set |
| Graph.VertexHasNeighbour | 23/23.py:70 | a computer is in the vertex set exactly when it has a neighbour |
| Graph.PairsHaveRowKeys | 23/23.py:25-30 | a vertex is the first component of some pair exactly when there are at least two vertices, so it gets a row |
| Graph.ZeroStep | 23/23.py:26-30 | one pass of the initialising loop adds `b: 0` to row `a` and keeps the rows zero |
| Graph.ZeroMatrix | 23/23.py:24-30 | after initialisation, each row key maps every other vertex to 0 |
| Graph.ZeroedKeys | 23/23.py:24-30 | the matrix has rows exactly when there are at least two vertices |
| Graph.ZeroedRows | 23/23.py:24-30 | each row of the initial matrix covers all vertices but its own |
| Graph.LinkedAppend | 23/23.py:33-35 | one more connection links exactly its two orders in addition to what was linked before |
| Graph.FillStep | 23/23.py:33-35 | writing `matrix[a][b] = matrix[b][a] = 1` for one more connection keeps the matrix describing the connections read so far |
| Graph.GenerateAdjMatrix | 23/23.py:9-37 | succeeds exactly when both ends of every connection have rows; the result then has an entry 1 exactly for linked pairs and 0 for other pairs of distinct vertices; otherwise the error is the `KeyError` of the first lookup that misses |
| Graph.AdjMatrixSymmetric | 23/23.py:31-35 | `matrix[a][b] == matrix[b][a]` whenever the first exists |
| Graph.AdjMatrixShape | 23/23.py:24-35 | all rows are vertices; with two or more vertices every pair of distinct vertices has an entry; without self-loops the diagonal is empty |
| Graph.AdjMatrixOfOwnVertices | 23/23.py:70-75 | with the vertex set built from the connections, the matrix fails exactly when that set has one element |
| Seqs.ListOf | 23/23.py:62 | `list(s)` holds each element of the set once |
| CliqueSearch.MaxClique.constructor | 23/23.py:106 | the holder starts with the empty clique |
| CliqueSearch.ChoosePivot | 23/23.py:53-57 | the pivot is in P ∪ X and has at least as many neighbours as any vertex there; it moves from `list(P)[0]` only to a strictly better vertex |
| CliqueSearch.ChildShrinks | 23/23.py:63 | without self-loops, `P ∩ N(v)` is strictly smaller than P for `v` in P |
| CliqueSearch.ChildState | 23/23.py:63 | the recursive call's `R ∪ {v}`, `P ∩ N(v)`, `X ∩ N(v)` keep the search invariant |
| CliqueSearch.MoveToExcluded | 23/23.py:64-65 | moving `v` from P to X keeps the search invariant |
| CliqueSearch.LeafCovered | 23/23.py:46-50 | with P and X empty, R is the only maximal clique in range, and the holder (replaced when R is larger) is at least as large |
| CliqueSearch.ExcludedCovered | 23/23.py:59-62 | with P empty and X not, no maximal clique lies in range, so returning without a branch loses nothing |
| CliqueSearch.PivotMeets | 23/23.py:58-62 | every maximal clique in range contains a vertex of `P - N(pivot)` |
| CliqueSearch.PivotCovered | 23/23.py:53-65 | once the branches on `P - N(pivot)` are covered, every maximal clique in range is covered |
| CliqueSearch.InChildRange | 23/23.py:63 | a maximal clique in range that contains `v` and avoids earlier branches lies in the child's range |
| CliqueSearch.BranchCovered | 23/23.py:62-65 | after the branch on `v` the cliques through `v` are covered as well |
| CliqueSearch.BranchReplaced | 23/23.py:62-65 | after the branch the holder is unchanged or holds a larger clique between R and R ∪ P |
| CliqueSearch.SweepStart | 23/23.py:62 | the branch loop starts with nothing covered and the holder unchanged |
| CliqueSearch.SweepChild | 23/23.py:63 | each branch call gets a strictly smaller P and a valid state |
| CliqueSearch.SweepStep | 23/23.py:62-65 | one branch plus the move of `v` to X extends what the loop has covered |
| CliqueSearch.Sweep | 23/23.py:62-65 | the loop over `P - Nu` covers every maximal clique through a visited vertex and leaves the holder only larger |
| CliqueSearch.BronKerbosch | 23/23.py:45-65 | the holder never shrinks; it is either unchanged or replaced by a larger clique between R and R ∪ P; afterwards it is at least as large as every maximal clique between R and R ∪ P |
| CliqueSearch.ExtendToMaximal | 23/23.py:45-65 | every clique of the graph lies inside a maximal clique |
| CliqueSearch.SelfLoopHidesClique | 23/23.py:53-62 | on the connections `a-a`, `a-b` the pivot can only be `a`, P minus its neighbours is empty, and yet `{a, b}` is a clique: with self-loops the search misses cliques |
| CliqueSearch.FindMaxClique | 23/23.py:102-108 | started from `R = X = ∅`, `P = vertices`, the search leaves a maximum clique of the graph in the holder |
| Password.Below | 23/23.py:111 | Python's string order: a proper prefix sorts before the longer string, and no string sorts before one of its own prefixes; `BelowIrreflexive`, `BelowAsymmetric`, `BelowTransitive` and `BelowTotal` make it a strict total order |
| Password.BelowIrreflexive | 23/23.py:111 | no name sorts before itself |
| Password.BelowAsymmetric | 23/23.py:111 | two names never sort before each other |
| Password.BelowTransitive | 23/23.py:111 | the string order is transitive |
| Password.BelowTotal | 23/23.py:111 | of two different names, one sorts first |
| Password.Insert | 23/23.py:111 | inserting adds exactly one occurrence of the element |
| Password.Sort | 23/23.py:111 | `sorted` is a permutation of its input |
| Password.InsertSorted | 23/23.py:111 | inserting a new name into a strictly increasing list keeps it strictly increasing |
| Password.SortSorted | 23/23.py:111 | `sorted` of a list without repeats is strictly increasing |
| Password.SortedUnique | 23/23.py:111 | two strictly increasing lists with the same elements are equal |
| Password.Split | 23/23.py:112 | `split` always gives at least one piece |
| Password.SplitJoin | 23/23.py:112 | splitting a comma-joined nonempty list of comma-free names gives the list back |
| Password.Join | 23/23.py:112 | `",".join(parts)` is as long as the parts together plus one separator between each two, and begins with the first part; `SplitJoin` and `JoinSplit` show that splitting at the separator undoes it |
| Password.JoinSplit | 23/23.py:112 | joining the pieces of a split gives the string back |
| Password.Part2 | 23/23.py:102-113 | the list is a maximum clique in increasing order without repeats; the password is its comma join and splits back into it when there is a name and no name holds a comma |
| Password.PasswordOfClique | 23/23.py:110-112 | the password depends only on the set of the stored clique, not on the order of `list(R)` |
| Triangles.Comb2 | 23/23.py:79 | `combinations(xs, 2)` has n(n-1)/2 pairs for n elements; `Comb2Sound`, `Comb2Complete` and `Comb2Distinct` give their positions and distinctness |
| Triangles.Comb2Sound | 23/23.py:79 | every pair of `combinations(xs, 2)` takes two positions `i < j` |
| Triangles.Comb2Complete | 23/23.py:79 | every two positions `i < j` give a pair of `combinations(xs, 2)` |
| Triangles.Comb2Distinct | 23/23.py:79 | on a list without repeats, different places of `combinations(xs, 2)` are different sets |
| Triangles.Comb3 | 23/23.py:74 | `combinations(xs, 3)` has n(n-1)(n-2)/6 triples for n elements; `Comb3Sound`, `Comb3Complete` and `Comb3Distinct` give their positions and distinctness |
| Triangles.Comb3Sound | 23/23.py:74 | every triple of `combinations(xs, 3)` takes three positions `i < j < k` |
| Triangles.Comb3Complete | 23/23.py:74 | every three positions `i < j < k` give a triple of `combinations(xs, 3)` |
| Triangles.Comb3Distinct | 23/23.py:74 | on a list without repeats, different places of `combinations(xs, 3)` are different sets |
| Triangles.Comb3Members | 23/23.py:74 | a triple has three different members, all from the list |
| Triangles.TriangleInComb3 | 23/23.py:74 | every triangle of the graph is, as a set, some triple of `combinations(vertices, 3)` |
| Triangles.AdjMatrixAnswers | 23/23.py:75-82 | the matrix built from the vertex set answers every lookup `adj_matrix[a][b]` among vertices, with 1 exactly for connected pairs |
| Triangles.Comb2OfThree | 23/23.py:79 | `combinations(subset, 2)` of a triple is its three pairs |
| Triangles.IsTriangle | 23/23.py:79-84 | the pair test keeps `clique` true exactly when the three members are pairwise connected |
| Triangles.ContainsT | 23/23.py:89-93 | the `t` test answers whether some member starts with `t`; it raises `IndexError` only when a member is empty, and always when an empty member is met with no `t` member |
| Triangles.NewTripleSet | 23/23.py:74-85 | a later subset differs as a set from every triple kept from earlier subsets |
| Triangles.TrianglesKeep | 23/23.py:84-85 | appending a triangle keeps the first loop's record of kept triangles |
| Triangles.TrianglesSkip | 23/23.py:78-85 | passing over a non-triangle keeps that record |
| Triangles.KeepTriangles | 23/23.py:74-85 | the kept triples are exactly the triangles among the subsets, each a different set |
| Triangles.WithTKeep | 23/23.py:94-95 | appending a triangle with a `t` member keeps the second loop's record |
| Triangles.WithTSkip | 23/23.py:88-95 | passing over a triangle without `t` or empty members keeps that record |
| Triangles.KeepWithT | 23/23.py:87-95 | without an error, the result is exactly the kept triangles with a `t` member, each a different set; the error is `IndexError`, only when a kept triangle has an empty member, and always when one has no `t` member besides |
| Triangles.EmptyLabelWitness | 23/23.py:88-95 | a kept triangle with an empty member is a triangle of the graph with an empty name |
| Triangles.FiltersComplete | 23/23.py:72-95 | the two filters together keep every triangle of the graph with a `t` member |
| Triangles.ReachesEmptyLabel | 23/23.py:88-95 | a triangle with an empty name and no `t` member is among the kept triangles |
| Triangles.Part1 | 23/23.py:72-99 | the result lists exactly the triangles with a `t` member, each set once; `KeyError` exactly when the vertex set has a single computer; `IndexError` only when some triangle has an empty name, and always when one of those has no `t` member |
| Vectors.PyMod | 15/15.py:28 | Python's `%` lies in `[0, b)` for `b > 0` and in `(b, 0]` for `b < 0` |
| Vectors.PyModQuotient | 15/15.py:28 | `a == (a // b) * b + a % b` with floor division |
| Vectors.PyModIdempotent | 15/15.py:28 | taking the remainder twice changes nothing |
| Vectors.FirstZeroDivisor | 15/15.py:28 | the first pair whose divisor is 0 |
| Vectors.RemaindersInRange | 15/15.py:28 | by positive divisors, each remainder lies in `[0, divisor)` |
| Vectors.RemaindersIdempotent | 15/15.py:28 | `(v % w) % w == v % w` for vectors of the same dimension without zero divisors |
| Vectors.ShiftInverse | 15/15.py:8 | `(v + k) + (-k)` gives back the components of `v` |
| Vectors.ShiftIsSumWithRepeat | 15/15.py:8 | adding a scalar is adding the vector of that scalar repeated |
| Vectors.SumCommutes | 15/15.py:13 | vector addition is commutative |
| Vectors.ScaleDistributes | 15/15.py:19 | scalar multiplication distributes over vector addition |
| Vectors.Vector.constructor | 15/15.py:2-4 | the components are the given list, the dimension their number, and there is no position yet |
| Vectors.Vector.Get | 15/15.py:41-42 | indexing succeeds exactly for `-dimension <= item < dimension`; a negative index counts from the end; otherwise `IndexError` |
| Vectors.Vector.GetFromEnd | 15/15.py:41-42 | `v[i - dimension]` is `v[i]` |
| Vectors.Vector.Add | 15/15.py:6-13 | a scalar is added to each component; a vector of another dimension raises `ValueError`; one of the same dimension is added component by component, into a new vector |
| Vectors.Vector.Mul | 15/15.py:15-19 | a vector operand raises `ValueError`; an integer scales each component, into a new vector |
| Vectors.Vector.Mod | 15/15.py:21-28 | an integer is broadcast; another dimension raises `ValueError("None conformable Vector objects")`; otherwise the result holds the remainders of the pairs `zip(self, other)` yields, with `ZeroDivisionError` at the first zero divisor, and the position at which iteration stopped |
| Vectors.Vector.Iter | 15/15.py:30-32 | `iter` resets the position to 0 and returns the vector itself |
| Vectors.Vector.Next | 15/15.py:33-39 | `next` yields the component at the position and advances it; past the end it raises `StopIteration`; before any `iter` it raises `AttributeError` |
| Vectors.Vector.IterateAll | 15/15.py:30-39 | one full iteration yields exactly the components in order and ends at the last position |
| Vectors.Vector.Equals | 15/15.py:44-50 | `==` holds exactly when the two component lists are equal |
| Vectors.ZipRemainders | 15/15.py:28 | `zip` over two iterators yields each pair once and stops at the first `StopIteration`; over the same vector twice, both sides advance the shared position |
| Vectors.Vector.ModIntended | 15/15.py:21-28 | one remainder per component, position by position, with `ZeroDivisionError` exactly when some divisor is 0 |
| Vectors.ModOfItselfHalves | 15/15.py:28 | for `v = Vector([4, 2])`, `v % v` as written yields `<0>`, and the intended version yields `<0, 0>` |
| Robot.DirectionsAreUnitSteps | 15/15.py:64-67 | the table has the four arrows, each a step of length one along one axis |
| Robot.OppositeDirectionsCancel | 15/15.py:64-67 | opposite arrows add up to `<0, 0>` |
| Robot.IndexOf | 15/15.py:71 | `line.index("@")` succeeds exactly when `@` occurs, and otherwise raises `ValueError("'@' is not in list")` |
| Robot.IndexOfFirst | 15/15.py:71-72 | on success the answer is the position of the first `@` |
| Robot.OnlyFirstRow | 15/15.py:70-71 | `index` never answers -1, so the loop cannot pass a row |
| Robot.FindRobot | 15/15.py:69-73 | as written: only the first row is examined; an empty grid raises `ValueError("Couldnt find robot in grid")` |
| Robot.FindRobotMissesLowerRows | 15/15.py:69-73 | a grid with `@` only in its second row gives the error of `index` |
| Robot.FindRobotIntended | 15/15.py:69-73 | the first row holding `@` and the first `@` in it; `ValueError("Couldnt find robot in grid")` exactly when no row holds one |

## Left out

- Reading the input files (`parse` in both files) and every `print` are not modelled. The connections and the grid are parameters.
- The module-level globals `connections` and `vertices` are not modelled as globals. Each model derives the vertex set from its `edges` argument, as line 70 of `23/23.py` does.
- Python's set iteration order is not modelled. Which maximum clique ends up in the holder among several of the same size depends on it, so `Password.Part2` states only that the stored clique is a maximum clique.
- CliqueSearch.BronKerbosch, CliqueSearch.FindMaxClique and Password.Part2 require the connections to have no self-loops. The Python search still ends on such input, because the pivot is joined to all of R and so every branch adds a new vertex to R. But a self-loop puts a vertex among its own neighbours, and the search can then miss cliques: on the connections `a-a` and `a-b` the pivot is `a`, P minus its neighbours is empty, and the holder stays empty although `{a, b}` is a clique (`CliqueSearch.SelfLoopHidesClique`). The maximality proof does not cover that case.
- Graph.GenerateAdjMatrix takes `verts` as a set. The annotation says `list`, but the only caller passes a set.
- `max_clique[0] = list(R)` is stored as the set `R`. The list never repeats an element, and its only consumer sorts it.
- Slicing in `__getitem__` is not modelled. Only integer indices are.
- The float branch of `__add__` is not modelled (no floating point). Neither is `bool` being an `int`.
- Operands of other types in `__add__`, `__mod__` and `__eq__` are not modelled; in Python they raise `AttributeError` or `TypeError`.
- `__str__` is not modelled. It is formatting only.
- `directions` holds the component lists of its vectors rather than `Vector` objects. The table is never iterated.
- Vectors.Vector.Add and Vectors.Vector.Mul: `raise ValueError` without a message is modelled as `ValueError("")`.

## Findings

| source | as written | input that shows it | evidently intended | confidence | as-written member | corrected member |
|---|---|---|---|---|---|---|
| 15/15.py:70-72 | `line.index("@") != -1`: `index` raises `ValueError` instead of returning -1, so the first row without `@` ends the search | `[['.'], ['@']]` gives `ValueError("'@' is not in list")` | the first row holding `@` and its column; `ValueError("Couldnt find robot in grid")` when no row has one | not executed | Robot.FindRobot, Robot.FindRobotMissesLowerRows | Robot.FindRobotIntended |
| 15/15.py:28 | `zip(self, other)` iterates through the vectors' own shared position, so `v % v` pairs consecutive components and drops half | `Vector([4, 2]) % itself` gives `<0>` | one remainder per component, as `zip(self.data, other.data)` in `__add__` and `__eq__` gives | not executed | Vectors.Vector.Mod, Vectors.ModOfItselfHalves | Vectors.Vector.ModIntended |
