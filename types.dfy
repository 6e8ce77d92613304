/** Values shared by every part of the maze solver: grid coordinates, the four
    moves and their deltas, and the failure outcomes that replace exceptions. */
module MazeTypes {

  /** A cell of the grid, (row, col), 0-indexed, row growing downward. Neighbour
      candidates may fall outside the grid, so both components are plain ints. */
  datatype Coord = Coord(row: int, col: int)

  /** The action labels "up", "down", "left", "right". */
  datatype Action = Up | Down | Left | Right

  /** The coordinate reached from `c` by one step of `a`. */
  function Apply(a: Action, c: Coord): (d: Coord)
    ensures (d.row == c.row && (d.col == c.col - 1 || d.col == c.col + 1)) ||
            (d.col == c.col && (d.row == c.row - 1 || d.row == c.row + 1))
  {
    match a
    case Up => Coord(c.row - 1, c.col)
    case Down => Coord(c.row + 1, c.col)
    case Left => Coord(c.row, c.col - 1)
    case Right => Coord(c.row, c.col + 1)
  }

  /** Position of an action in the fixed order in which neighbours are listed. */
  function Rank(a: Action): nat
  {
    match a
    case Up => 0
    case Down => 1
    case Left => 2
    case Right => 3
  }

  /** From one cell, distinct actions lead to distinct cells. */
  lemma ApplyInjective(a: Action, b: Action, c: Coord)
    requires a != b
    ensures Apply(a, c) != Apply(b, c)
  {
  }

  /** One entry of a neighbour list: the action and the cell it leads to. */
  datatype Move = Move(action: Action, cell: Coord)

  /** The solution of a maze: the actions taken and the cells visited, start
      excluded, oldest first. */
  datatype Solution = Solution(actions: seq<Action>, cells: seq<Coord>)

  /** Which uniqueness check of the maze text failed. */
  datatype MazeDefect = StartNotUnique | GoalNotUnique

  /** The three exceptions of the solver, as values. */
  datatype Error =
    | MalformedMaze(defect: MazeDefect)
    | EmptyFrontier
    | NoSolution

  datatype Result<+T> = Ok(value: T) | Err(error: Error)

  datatype Option<+T> = None | Some(value: T)
}
