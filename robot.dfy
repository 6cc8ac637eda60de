/** The arrow table and the robot search of day 15. The grid is a list of rows, each a
    list of one-character cells. */
module Robot {
  import opened Wrappers
  import Vectors

  type Grid = seq<seq<char>>

  /** The exception `find_robot` can end with, with its message. */
  datatype RobotError = ValueError(message: string)

  const NotInList: string := "'@' is not in list"
  const NoRobot: string := "Couldnt find robot in grid"

  /** `directions`: the arrow of a move to the components of its step, as (row, column). */
  const Directions: map<char, seq<int>> := map['^' := [-1, 0], '>' := [0, 1], 'v' := [1, 0], '<' := [0, -1]]

  /** Each arrow is a step of length one along a single axis. */
  lemma DirectionsAreUnitSteps()
    ensures Directions.Keys == {'^', '>', 'v', '<'}
    ensures forall c :: c in Directions ==>
      |Directions[c]| == 2 && Directions[c][0] * Directions[c][0] + Directions[c][1] * Directions[c][1] == 1
  {
  }

  /** Opposite arrows cancel: the two steps add up to `<0, 0>`. */
  lemma OppositeDirectionsCancel()
    ensures Vectors.Sum(Directions['^'], Directions['v']) == [0, 0]
    ensures Vectors.Sum(Directions['<'], Directions['>']) == [0, 0]
  {
    assert Vectors.Sum(Directions['^'], Directions['v'])[0] == 0;
  }

  /** `line.index(c)`: the first position of `c`, or `ValueError` when it is absent. */
  function IndexOf(line: seq<char>, c: char): (r: Result<int, RobotError>)
    ensures r.Ok? <==> c in line
    ensures r.Err? ==> r.error == ValueError(NotInList)
  {
    if |line| == 0 then Err(ValueError(NotInList))
    else if line[0] == c then Ok(0)
    else
      assert c in line <==> c in line[1..] by {
        assert line == [line[0]] + line[1..];
      }
      match IndexOf(line[1..], c)
      case Ok(k) => Ok(k + 1)
      case Err(e) => Err(e)
  }

  /** When `c` occurs, `index` gives the position of its first occurrence. */
  lemma {:induction false} IndexOfFirst(line: seq<char>, c: char)
    requires c in line
    ensures 0 <= IndexOf(line, c).value < |line|
    ensures line[IndexOf(line, c).value] == c
    ensures forall k :: 0 <= k < IndexOf(line, c).value ==> line[k] != c
  {
    if line[0] != c {
      assert line == [line[0]] + line[1..];
      IndexOfFirst(line[1..], c);
    }
  }

  /** `index` never answers -1, so a scan that goes on only past rows answering -1
      can be at no row but the first. */
  lemma OnlyFirstRow(grid: Grid, i: nat)
    requires i <= |grid|
    requires forall k :: 0 <= k < i ==> IndexOf(grid[k], '@') == Ok(-1)
    ensures i == 0
  {
    if i > 0 {
      IndexOfFirst(grid[0], '@');
    }
  }

  /** `find_robot` as written: `line.index("@")` raises instead of returning -1, so the
      first row decides: its first `@`, or the error of `index`. Only an empty grid
      reaches the final `raise`. */
  method FindRobot(grid: Grid) returns (r: Result<(int, int), RobotError>)
    ensures |grid| == 0 ==> r == Err(ValueError(NoRobot))
    ensures |grid| > 0 && '@' in grid[0] ==> r == Ok((0, IndexOf(grid[0], '@').value))
    ensures |grid| > 0 && '@' !in grid[0] ==> r == Err(ValueError(NotInList))
  {
    for i := 0 to |grid|
      invariant forall k :: 0 <= k < i ==> IndexOf(grid[k], '@') == Ok(-1)
    {
      var line := grid[i];
      var found := IndexOf(line, '@');
      if found.Err? {
        OnlyFirstRow(grid, i);
        return Err(found.error);
      }
      if found.value != -1 {
        OnlyFirstRow(grid, i);
        var column := IndexOf(line, '@');
        return Ok((i, column.value));
      }
    }
    OnlyFirstRow(grid, |grid|);
    return Err(ValueError(NoRobot));
  }

  /** The robot on the second row of a two-row grid is never found: the scan stops at
      the first row with the error of `index`. */
  method FindRobotMissesLowerRows() returns (grid: Grid, r: Result<(int, int), RobotError>)
    ensures |grid| == 2 && '@' !in grid[0] && |grid[1]| == 1 && grid[1][0] == '@'
    ensures r == Err(ValueError(NotInList))
  {
    grid := [['.'], ['@']];
    assert '@' !in grid[0];
    r := FindRobot(grid);
  }

  /** `find_robot` as evidently intended: the first row holding `@`, and the first `@`
      in it; the explicit `ValueError` exactly when no row holds one. */
  method FindRobotIntended(grid: Grid) returns (r: Result<(int, int), RobotError>)
    ensures r.Ok? <==> exists i :: 0 <= i < |grid| && '@' in grid[i]
    ensures r.Ok? ==>
      (&& 0 <= r.value.0 < |grid| && '@' in grid[r.value.0]
       && (forall i :: 0 <= i < r.value.0 ==> '@' !in grid[i])
       && 0 <= r.value.1 < |grid[r.value.0]| && grid[r.value.0][r.value.1] == '@'
       && (forall k :: 0 <= k < r.value.1 ==> grid[r.value.0][k] != '@'))
    ensures r.Err? ==> r.error == ValueError(NoRobot)
  {
    for i := 0 to |grid|
      invariant forall k :: 0 <= k < i ==> '@' !in grid[k]
    {
      var line := grid[i];
      if '@' in line {
        IndexOfFirst(line, '@');
        var found := IndexOf(line, '@');
        return Ok((i, found.value));
      }
    }
    return Err(ValueError(NoRobot));
  }
}
