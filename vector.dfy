/** The integer `Vector` of day 15: a list of components with its length, elementwise
    `+`, `*` and `%`, equality, indexing with Python's negative indices, and an iterator
    whose position is kept in the vector itself. */
module Vectors {
  import opened Wrappers

  /** The exceptions the class raises. `ValueError` carries its message, empty when the
      source raises the bare class. */
  datatype VectorError =
    | ValueError(message: string)
    | IndexError
    | StopIteration
    | AttributeError
    | ZeroDivisionError

  /** The right operand of `+`, `*` and `%`: an `int` or another vector. */
  datatype Operand = Scalar(k: int) | Vec(v: Vector)

  /** Python's `a % b` on integers: the result takes the sign of the divisor. */
  function PyMod(a: int, b: int): (r: int)
    requires b != 0
    ensures b > 0 ==> 0 <= r < b
    ensures b < 0 ==> b < r <= 0
  {
    if b > 0 || a % b == 0 then a % b else a % b + b
  }

  /** The remainder is what is left after taking off a whole multiple of the divisor:
      `a == (a // b) * b + a % b` with Python's floor division. */
  lemma PyModQuotient(a: int, b: int) returns (q: int)
    requires b != 0
    ensures a == q * b + PyMod(a, b)
  {
    if b > 0 || a % b == 0 {
      q := a / b;
    } else {
      q := a / b - 1;
      assert q * b == (a / b) * b - b;
    }
  }

  /** A multiple of a negative `b` strictly between `2 * b` and 0 is `b` itself. */
  lemma OnlyMultipleBetween(q: int, b: int)
    requires b < 0 && 2 * b < q * b < 0
    ensures q == 1
  {
    assert (q - 2) * b == q * b - 2 * b;
  }

  /** Taking the remainder twice changes nothing. */
  lemma PyModIdempotent(a: int, b: int)
    requires b != 0
    ensures PyMod(PyMod(a, b), b) == PyMod(a, b)
  {
    var r := PyMod(a, b);
    if b > 0 {
      assert r == 0 * b + r;
      assert r % b == r;
    } else if r != 0 {
      OnlyMultipleBetween(r / b, b);
      assert r % b == r - b;
    }
  }

  /** `[a + k for a in data]`. */
  function Shift(s: seq<int>, k: int): (r: seq<int>)
  {
    seq(|s|, i requires 0 <= i < |s| => s[i] + k)
  }

  /** `[a + b for a, b in zip(s, t)]` for lists of the same length. */
  function Sum(s: seq<int>, t: seq<int>): (r: seq<int>)
    requires |s| == |t|
  {
    seq(|s|, i requires 0 <= i < |s| => s[i] + t[i])
  }

  /** `[a * k for a in data]`. */
  function Scale(s: seq<int>, k: int): (r: seq<int>)
  {
    seq(|s|, i requires 0 <= i < |s| => s[i] * k)
  }

  /** `[k] * n`. */
  function Repeat(k: int, n: nat): (r: seq<int>)
  {
    seq(n, i => k)
  }

  /** The pairs `zip(self, other)` produces: position by position for two different
      vectors of the same dimension, and, when both arguments are the same vector, the
      components two at a time, because both sides advance the one shared position. */
  function Zipped(s: seq<int>, t: seq<int>, shared: bool): (r: seq<(int, int)>)
    requires shared ==> s == t
    requires |s| == |t|
  {
    if shared then seq(|s| / 2, i requires 0 <= i < |s| / 2 => (s[2 * i], s[2 * i + 1]))
    else seq(|s|, i requires 0 <= i < |s| => (s[i], t[i]))
  }

  /** Some pair has divisor 0. */
  predicate ZeroDivisor(ps: seq<(int, int)>)
  {
    exists i :: 0 <= i < |ps| && ps[i].1 == 0
  }

  /** The position of the first pair with divisor 0. */
  function FirstZeroDivisor(ps: seq<(int, int)>): (q: nat)
    requires ZeroDivisor(ps)
    ensures q < |ps| && ps[q].1 == 0
    ensures forall i :: 0 <= i < q ==> ps[i].1 != 0
  {
    if ps[0].1 == 0 then 0
    else
      assert ZeroDivisor(ps[1..]) by {
        var i :| 0 <= i < |ps| && ps[i].1 == 0;
        assert ps[1..][i - 1] == ps[i];
      }
      1 + FirstZeroDivisor(ps[1..])
  }

  /** `[a % b for a, b in pairs]`, when no divisor is 0. */
  function Remainders(ps: seq<(int, int)>): (r: seq<int>)
    requires !ZeroDivisor(ps)
  {
    seq(|ps|, i requires 0 <= i < |ps| => PyMod(ps[i].0, ps[i].1))
  }

  /** Two vectors of the same dimension that are different objects pair up position by
      position, and the remainders keep the range of Python's `%`. */
  lemma RemaindersInRange(s: seq<int>, t: seq<int>)
    requires |s| == |t|
    requires forall i :: 0 <= i < |t| ==> t[i] > 0
    ensures !ZeroDivisor(Zipped(s, t, false))
    ensures forall i :: 0 <= i < |s| ==> 0 <= Remainders(Zipped(s, t, false))[i] < t[i]
  {
  }

  /** Reducing a second time by the same divisors changes nothing. */
  lemma RemaindersIdempotent(s: seq<int>, t: seq<int>)
    requires |s| == |t|
    requires !ZeroDivisor(Zipped(s, t, false))
    ensures !ZeroDivisor(Zipped(Remainders(Zipped(s, t, false)), t, false))
    ensures Remainders(Zipped(Remainders(Zipped(s, t, false)), t, false)) == Remainders(Zipped(s, t, false))
  {
    var r := Remainders(Zipped(s, t, false));
    assert forall i :: 0 <= i < |t| ==> t[i] == Zipped(s, t, false)[i].1;
    forall i | 0 <= i < |s| ensures PyMod(r[i], t[i]) == r[i] {
      PyModIdempotent(s[i], t[i]);
    }
  }

  /** Adding a scalar undoes adding its negation. */
  lemma ShiftInverse(s: seq<int>, k: int)
    ensures Shift(Shift(s, k), -k) == s
  {
  }

  /** `v + k` is `v + Vector([k] * dimension)`. */
  lemma ShiftIsSumWithRepeat(s: seq<int>, k: int)
    ensures Sum(s, Repeat(k, |s|)) == Shift(s, k)
  {
  }

  /** Vector addition is commutative. */
  lemma SumCommutes(s: seq<int>, t: seq<int>)
    requires |s| == |t|
    ensures Sum(s, t) == Sum(t, s)
  {
  }

  /** Scalar multiplication distributes over vector addition. */
  lemma ScaleDistributes(s: seq<int>, t: seq<int>, k: int)
    requires |s| == |t|
    ensures Scale(Sum(s, t), k) == Sum(Scale(s, k), Scale(t, k))
  {
    forall i | 0 <= i < |s| ensures (s[i] + t[i]) * k == s[i] * k + t[i] * k {
    }
  }

  class Vector {
    /** `self.data = list(data)`: a copy of the components. */
    const data: seq<int>
    /** `self.dimension = len(data)`. */
    const dimension: nat
    /** `self.index`: absent until `__iter__` first sets it. */
    var index: Option<nat>

    /** The dimension is the number of components. */
    ghost predicate Valid()
    {
      dimension == |data|
    }

    /** `Vector(data)`. */
    constructor (data: seq<int>)
      ensures this.data == data && dimension == |data| && index == None
      ensures Valid()
    {
      this.data := data;
      dimension := |data|;
      index := None;
    }

    /** `self[item]` for an integer index: a negative index counts from the end, and an
        index outside `-dimension <= item < dimension` raises `IndexError`. */
    function Get(item: int): (r: Result<int, VectorError>)
      requires Valid()
      ensures r.Ok? <==> -(dimension as int) <= item < dimension
      ensures r.Ok? && item >= 0 ==> r.value == data[item]
      ensures r.Ok? && item < 0 ==> r.value == data[dimension + item]
      ensures r.Err? ==> r.error == IndexError
    {
      if 0 <= item < |data| then Ok(data[item])
      else if -|data| <= item < 0 then Ok(data[|data| + item])
      else Err(IndexError)
    }

    /** Index `i` and index `i - dimension` name the same component. */
    lemma GetFromEnd(i: int)
      requires Valid()
      requires 0 <= i < dimension
      ensures Get(i - dimension) == Get(i)
    {
    }

    /** `v + other`: a scalar is added to every component; a vector of another
        dimension raises `ValueError`, one of the same dimension is added component by
        component. */
    method Add(other: Operand) returns (r: Result<Vector, VectorError>)
      requires Valid()
      requires other.Vec? ==> other.v.Valid()
      ensures other.Scalar? ==>
        (r.Ok? && fresh(r.value) && r.value.Valid() && r.value.index.None? && r.value.data == Shift(data, other.k))
      ensures other.Vec? && other.v.dimension != dimension ==> r == Err(ValueError(""))
      ensures other.Vec? && other.v.dimension == dimension ==>
        (r.Ok? && fresh(r.value) && r.value.Valid() && r.value.index.None? && r.value.data == Sum(data, other.v.data))
    {
      if other.Scalar? {
        var sum := new Vector(Shift(data, other.k));
        return Ok(sum);
      }
      if dimension != other.v.dimension {
        return Err(ValueError(""));
      }
      var sum := new Vector(Sum(data, other.v.data));
      return Ok(sum);
    }

    /** `v * other`: anything but an integer raises `ValueError`; an integer multiplies
        every component. */
    method Mul(other: Operand) returns (r: Result<Vector, VectorError>)
      requires Valid()
      ensures other.Vec? ==> r == Err(ValueError(""))
      ensures other.Scalar? ==>
        (r.Ok? && fresh(r.value) && r.value.Valid() && r.value.index.None? && r.value.data == Scale(data, other.k))
    {
      if !other.Scalar? {
        return Err(ValueError(""));
      }
      var product := new Vector(Scale(data, other.k));
      return Ok(product);
    }

    /** `iter(v)`: restart the position and hand back the vector itself. */
    method Iter() returns (it: Vector)
      modifies this
      ensures it == this && index == Some(0)
    {
      index := Some(0);
      return this;
    }

    /** `next(v)`: the component at the position, which then moves on. Before any
        `iter(v)` there is no position (`AttributeError`); past the end it raises
        `StopIteration`. */
    method Next() returns (r: Result<int, VectorError>)
      requires Valid()
      modifies this
      ensures old(index).None? ==> r == Err(AttributeError) && index == old(index)
      ensures old(index).Some? && old(index).value >= dimension ==>
        r == Err(StopIteration) && index == old(index)
      ensures old(index).Some? && old(index).value < dimension ==>
        r == Ok(data[old(index).value]) && index == Some(old(index).value + 1)
    {
      if index.None? {
        return Err(AttributeError);
      }
      if index.value >= dimension {
        return Err(StopIteration);
      }
      var output := Get(index.value);
      index := Some(index.value + 1);
      return Ok(output.value);
    }

    /** `list(v)`: one full iteration yields exactly the components, in order. */
    method IterateAll() returns (out: seq<int>)
      requires Valid()
      modifies this
      ensures out == data && index == Some(dimension)
    {
      var it := Iter();
      out := [];
      while true
        invariant index == Some(|out|) && |out| <= dimension
        invariant out == data[..|out|]
        decreases dimension - |out|
      {
        var x := it.Next();
        if x.Err? {
          break;
        }
        out := out + [x.value];
      }
    }

    /** `v % other`. An integer is first broadcast to a vector of this dimension; a
        vector of another dimension raises `ValueError`. Otherwise the result holds the
        remainders of the pairs `zip(self, other)` yields, and the first zero divisor
        raises `ZeroDivisionError`. */
    method Mod(other: Operand) returns (r: Result<Vector, VectorError>)
      requires Valid()
      requires other.Vec? ==> other.v.Valid()
      modifies this, if other.Vec? then {other.v} else {}
      ensures other.Vec? && other.v.dimension != dimension ==>
        (r == Err(ValueError("None conformable Vector objects"))
         && index == old(index) && other.v.index == old(other.v.index))
      ensures other.Scalar? || other.v.dimension == dimension ==>
        var shared := other.Vec? && other.v == this;
        var divisors := if other.Scalar? then Repeat(other.k, dimension) else other.v.data;
        var pairs := Zipped(data, divisors, shared);
        && (ZeroDivisor(pairs) ==>
             (r == Err(ZeroDivisionError) && index == Some(StopPosition(pairs, shared))))
        && (!ZeroDivisor(pairs) ==>
             (r.Ok? && fresh(r.value) && r.value.Valid() && r.value.index.None?
              && r.value.data == Remainders(pairs) && index == Some(dimension)))
        && (other.Vec? ==> other.v.index == index)
    {
      var divisor: Vector;
      if other.Scalar? {
        divisor := new Vector(Repeat(other.k, dimension));
      } else {
        divisor := other.v;
      }
      if divisor.dimension != dimension {
        return Err(ValueError("None conformable Vector objects"));
      }
      var remainders := ZipRemainders(this, divisor);
      if remainders.Err? {
        return Err(remainders.error);
      }
      var result := new Vector(remainders.value);
      return Ok(result);
    }

    /** `v % other` as evidently intended: the components are paired position by
        position, as `zip(self.data, other.data)` pairs them in `__add__` and `__eq__`,
        so `v % v` too has one remainder per component. No position changes. */
    method ModIntended(other: Operand) returns (r: Result<Vector, VectorError>)
      requires Valid()
      requires other.Vec? ==> other.v.Valid()
      ensures other.Vec? && other.v.dimension != dimension ==>
        r == Err(ValueError("None conformable Vector objects"))
      ensures other.Scalar? || other.v.dimension == dimension ==>
        var divisors := if other.Scalar? then Repeat(other.k, dimension) else other.v.data;
        && ((exists i :: 0 <= i < dimension && divisors[i] == 0) ==> r == Err(ZeroDivisionError))
        && ((forall i :: 0 <= i < dimension ==> divisors[i] != 0) ==>
             (r.Ok? && fresh(r.value) && r.value.Valid() && r.value.index.None?
              && r.value.dimension == dimension
              && forall i :: 0 <= i < dimension ==> r.value.data[i] == PyMod(data[i], divisors[i])))
    {
      var divisors: seq<int>;
      if other.Scalar? {
        divisors := Repeat(other.k, dimension);
      } else {
        if other.v.dimension != dimension {
          return Err(ValueError("None conformable Vector objects"));
        }
        divisors := other.v.data;
      }
      var pairs := Zipped(data, divisors, false);
      assert forall i :: 0 <= i < dimension ==> pairs[i] == (data[i], divisors[i]);
      if ZeroDivisor(pairs) {
        return Err(ZeroDivisionError);
      }
      var result := new Vector(Remainders(pairs));
      return Ok(result);
    }

    /** `v == other`: false for another dimension, otherwise true exactly when every
        pair of components agrees. */
    method Equals(other: Vector) returns (r: bool)
      requires Valid() && other.Valid()
      ensures r <==> data == other.data
    {
      if dimension != other.dimension {
        return false;
      }
      var i := 0;
      while i < dimension
        invariant 0 <= i <= dimension
        invariant data[..i] == other.data[..i]
      {
        if data[i] != other.data[i] {
          return false;
        }
        assert data[..i + 1] == data[..i] + [data[i]];
        assert other.data[..i + 1] == other.data[..i] + [other.data[i]];
        i := i + 1;
      }
      assert data == data[..i] && other.data == other.data[..i];
      return true;
    }
  }

  /** Where the iteration leaves the position when the first zero divisor of `pairs`
      is met: one step per vector read, two per pair when both sides are one vector. */
  function StopPosition(pairs: seq<(int, int)>, shared: bool): nat
    requires ZeroDivisor(pairs)
  {
    if shared then 2 * FirstZeroDivisor(pairs) + 2 else FirstZeroDivisor(pairs) + 1
  }

  /** `[a % b for a, b in zip(left, right)]` over two vectors of the same dimension,
      read through their iterators: `zip` restarts both, then takes `next` of the left
      and of the right until one raises `StopIteration`. */
  method ZipRemainders(left: Vector, right: Vector) returns (r: Result<seq<int>, VectorError>)
    requires left.Valid() && right.Valid() && left.dimension == right.dimension
    modifies left, right
    ensures var shared := left == right;
      var pairs := Zipped(left.data, right.data, shared);
      && (ZeroDivisor(pairs) ==>
           (r == Err(ZeroDivisionError) && left.index == Some(StopPosition(pairs, shared))))
      && (!ZeroDivisor(pairs) ==> (r == Ok(Remainders(pairs)) && left.index == Some(left.dimension)))
      && right.index == left.index
  {
    ghost var shared := left == right;
    ghost var pairs := Zipped(left.data, right.data, shared);
    var a := left.Iter();
    var b := right.Iter();
    var out: seq<int> := [];
    while true
      invariant a == left && b == right
      invariant |out| <= |pairs|
      invariant shared ==> left.index == Some(2 * |out|) && 2 * |out| <= left.dimension
      invariant !shared ==> left.index == Some(|out|) && right.index == Some(|out|)
      invariant forall i :: 0 <= i < |out| ==> pairs[i].1 != 0 && out[i] == PyMod(pairs[i].0, pairs[i].1)
      decreases left.dimension - left.index.value
    {
      ghost var n := |out|;
      var x := a.Next();
      if x.Err? {
        assert |out| == |pairs|;
        break;
      }
      var y := b.Next();
      if y.Err? {
        assert shared && |out| == |pairs|;
        break;
      }
      assert n < |pairs| && pairs[n] == (x.value, y.value);
      if y.value == 0 {
        assert FirstZeroDivisor(pairs) == n;
        return Err(ZeroDivisionError);
      }
      out := out + [PyMod(x.value, y.value)];
    }
    assert out == Remainders(pairs);
    return Ok(out);
  }

  /** `v % v` as written pairs consecutive components: for `Vector([4, 2])` it yields
      the single remainder `4 % 2`, one component short. The intended version keeps
      both. */
  method ModOfItselfHalves() returns (v: Vector, r: Result<Vector, VectorError>, intended: Result<Vector, VectorError>)
    ensures v.data == [4, 2]
    ensures r.Ok? && r.value.data == [0] && r.value.dimension < v.dimension
    ensures intended.Ok? && intended.value.data == [0, 0]
  {
    v := new Vector([4, 2]);
    assert Zipped(v.data, v.data, true) == [(4, 2)];
    assert PyMod(4, 2) == 0;
    assert Remainders([(4, 2)]) == [0];
    r := v.Mod(Vec(v));
    intended := v.ModIntended(Vec(v));
    assert PyMod(2, 2) == 0;
    assert intended.value.data == [0, 0];
  }
}
