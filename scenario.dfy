/** Two concrete mazes go through the parser and the solver, and their
    outcomes are proved. */
module MazeScenario {
  import opened MazeTypes
  import opened MazeGrid
  import opened MazeText
  import opened MazeSearch

  /** A 3 × 3 maze without walls, `A` in the top-left corner and `B` in the
      bottom-right one, parses and is solved: the path ends at (2, 2) and at
      most nine cells are removed from the frontier. */
  method SolveOpenSquare() returns (r: Result<Solution>, removals: nat)
    ensures r.Ok? && r.value.cells != [] && r.value.cells[|r.value.cells| - 1] == Coord(2, 2)
    ensures removals <= 9
  {
    var lines := ["A  ", "   ", "  B"];
    assert Occurrences(lines, 'A') == {Coord(0, 0)} by {
      forall x | x in Occurrences(lines, 'A') ensures x == Coord(0, 0) {
        var i, j :| 0 <= i < |lines| && 0 <= j < |lines[i]| && lines[i][j] == 'A' && x == Coord(i, j);
      }
      assert lines[0][0] == 'A';
    }
    assert Occurrences(lines, 'B') == {Coord(2, 2)} by {
      forall x | x in Occurrences(lines, 'B') ensures x == Coord(2, 2) {
        var i, j :| 0 <= i < |lines| && 0 <= j < |lines[i]| && lines[i][j] == 'B' && x == Coord(i, j);
      }
      assert lines[2][2] == 'B';
    }
    var parsed := ParseGrid(lines);
    var g := parsed.value;
    assert g.start == Coord(0, 0) && g.goal == Coord(2, 2);
    assert Reachable(g, g.goal) by {
      var actions := [Down, Down, Right, Right];
      var cells := [Coord(1, 0), Coord(2, 0), Coord(2, 1), Coord(2, 2)];
      forall i | 0 <= i < 4 ensures StepOk(g, g.start, actions, cells, i) {
        assert !IsWallChar(lines, cells[i].row, cells[i].col);
      }
      assert IsPath(g, g.start, actions, cells) && EndOf(g.start, cells) == g.goal;
    }
    var maze := new Maze(g);
    r := maze.Solve();
    removals := maze.numExplored;
  }

  /** A text with two `B`s is rejected, and the start check passes first. */
  method RejectTwoGoals() returns (r: Result<Grid>)
    ensures r == Err(MalformedMaze(GoalNotUnique))
  {
    var lines := ["A B", "   ", "B  "];
    assert Occurrences(lines, 'A') == {Coord(0, 0)} by {
      forall x | x in Occurrences(lines, 'A') ensures x == Coord(0, 0) {
        var i, j :| 0 <= i < |lines| && 0 <= j < |lines[i]| && lines[i][j] == 'A' && x == Coord(i, j);
      }
      assert lines[0][0] == 'A';
    }
    assert Coord(0, 2) in Occurrences(lines, 'B') && Coord(2, 0) in Occurrences(lines, 'B') by {
      assert lines[0][2] == 'B' && lines[2][0] == 'B';
    }
    assert |Occurrences(lines, 'B')| != 1 by {
      if |Occurrences(lines, 'B')| == 1 {
        var x := SingletonOfSizeOne(Occurrences(lines, 'B'));
      }
    }
    r := ParseGrid(lines);
  }
}
