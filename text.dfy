/** Building the grid from the maze text: the uniqueness checks on `A` and `B`,
    the dimensions, and the row-by-row construction of the wall map. The text
    arrives already split into lines; reading the file is not modelled. */
module MazeText {
  import opened MazeTypes
  import opened MazeGrid

  /** Number of occurrences of `ch` in one line. */
  function CountIn(s: string, ch: char): nat
  {
    if s == [] then 0
    else CountIn(s[..|s| - 1], ch) + (if s[|s| - 1] == ch then 1 else 0)
  }

  /** The positions (line, column) at which `ch` occurs. */
  function Occurrences(lines: seq<string>, ch: char): set<Coord>
  {
    set i, j | 0 <= i < |lines| && 0 <= j < |lines[i]| && lines[i][j] == ch :: Coord(i, j)
  }

  /** The positions of `ch` in line `i`, whose text is `s`. */
  function RowOccurrences(i: int, s: string, ch: char): set<Coord>
  {
    set j | 0 <= j < |s| && s[j] == ch :: Coord(i, j)
  }

  lemma {:induction false} RowOccurrencesCount(i: int, s: string, ch: char)
    ensures |RowOccurrences(i, s, ch)| == CountIn(s, ch)
  {
    if s != [] {
      var n := |s| - 1;
      RowOccurrencesCount(i, s[..n], ch);
      assert RowOccurrences(i, s, ch) ==
        RowOccurrences(i, s[..n], ch) + (if s[n] == ch then {Coord(i, n)} else {});
    }
  }

  /** Number of occurrences of `ch` in the whole text (line breaks hold no
      `A` or `B`, so counting line by line equals counting the raw text). It
      equals the number of positions at which `ch` occurs, so the text holds
      exactly one `ch` iff `ch` occurs at exactly one position. */
  function CountChar(lines: seq<string>, ch: char): (r: nat)
    ensures r == |Occurrences(lines, ch)|
  {
    if lines == [] then 0
    else
      var n := |lines| - 1;
      RowOccurrencesCount(n, lines[n], ch);
      assert Occurrences(lines, ch) == Occurrences(lines[..n], ch) + RowOccurrences(n, lines[n], ch);
      assert Occurrences(lines[..n], ch) !! RowOccurrences(n, lines[n], ch);
      CountChar(lines[..n], ch) + CountIn(lines[n], ch)
  }

  /** The length of the longest line. */
  function MaxLen(lines: seq<string>): (w: nat)
    requires lines != []
    ensures forall i :: 0 <= i < |lines| ==> |lines[i]| <= w
    ensures exists i :: 0 <= i < |lines| && |lines[i]| == w
  {
    if |lines| == 1 then |lines[0]|
    else
      var w := MaxLen(lines[..|lines| - 1]);
      if |lines[|lines| - 1]| > w then |lines[|lines| - 1]| else w
  }

  /** Whether cell (i, j) is a wall: `A`, `B` and space are open, any other
      character is a wall, and a column past the end of a short line is open.
      In particular the positions of `A` and `B` are never walls. */
  predicate IsWallChar(lines: seq<string>, i: nat, j: nat): (b: bool)
    requires i < |lines|
    ensures j >= |lines[i]| ==> !b
    ensures b ==> Coord(i, j) !in Occurrences(lines, 'A') && Coord(i, j) !in Occurrences(lines, 'B')
    ensures j < |lines[i]| && lines[i][j] == ' ' ==> !b
  {
    j < |lines[i]| && lines[i][j] != 'A' && lines[i][j] != 'B' && lines[i][j] != ' '
  }

  /** `g` is the grid the text describes. */
  ghost predicate Describes(lines: seq<string>, g: Grid)
  {
    && lines != []
    && g.height == |lines|
    && g.width == MaxLen(lines)
    && Shaped(g)
    && (forall i, j :: 0 <= i < g.height && 0 <= j < g.width ==> g.walls[i][j] == IsWallChar(lines, i, j))
    && Occurrences(lines, 'A') == {g.start}
    && Occurrences(lines, 'B') == {g.goal}
  }

  /** A set of size one is a singleton. */
  lemma SingletonOfSizeOne(s: set<Coord>) returns (x: Coord)
    requires |s| == 1
    ensures s == {x}
  {
    x :| x in s;
    assert |s - {x}| == 0;
  }

  /** The grid construction of the maze constructor: reject the text unless it
      holds exactly one `A` and exactly one `B` (checked in that order), then
      append one row of wall flags per line, `width` flags per row, recording
      where `A` and `B` were seen. */
  method ParseGrid(lines: seq<string>) returns (r: Result<Grid>)
    ensures r.Ok? <==> |Occurrences(lines, 'A')| == 1 && |Occurrences(lines, 'B')| == 1
    ensures |Occurrences(lines, 'A')| != 1 ==> r == Err(MalformedMaze(StartNotUnique))
    ensures |Occurrences(lines, 'A')| == 1 && |Occurrences(lines, 'B')| != 1 ==>
              r == Err(MalformedMaze(GoalNotUnique))
    ensures r.Ok? ==> Describes(lines, r.value) && WellFormed(r.value)
  {
    if CountChar(lines, 'A') != 1 {
      return Err(MalformedMaze(StartNotUnique));
    }
    if CountChar(lines, 'B') != 1 {
      return Err(MalformedMaze(GoalNotUnique));
    }
    ghost var a := SingletonOfSizeOne(Occurrences(lines, 'A'));
    ghost var b := SingletonOfSizeOne(Occurrences(lines, 'B'));
    assert a in Occurrences(lines, 'A') && b in Occurrences(lines, 'B');

    var height := |lines|;
    var width := MaxLen(lines);
    var walls: seq<seq<bool>> := [];
    var start, goal := Coord(0, 0), Coord(0, 0);
    for i := 0 to height
      invariant |walls| == i
      invariant forall k :: 0 <= k < i ==> |walls[k]| == width
      invariant forall k, j :: 0 <= k < i && 0 <= j < width ==> walls[k][j] == IsWallChar(lines, k, j)
      invariant a.row < i ==> start == a
      invariant b.row < i ==> goal == b
    {
      var row: seq<bool> := [];
      for j := 0 to width
        invariant |row| == j
        invariant forall k :: 0 <= k < j ==> row[k] == IsWallChar(lines, i, k)
        invariant a.row < i || (a.row == i && a.col < j) ==> start == a
        invariant b.row < i || (b.row == i && b.col < j) ==> goal == b
      {
        if j >= |lines[i]| {
          row := row + [false];
        } else if lines[i][j] == 'A' {
          assert Coord(i, j) in Occurrences(lines, 'A');
          start := Coord(i, j);
          row := row + [false];
        } else if lines[i][j] == 'B' {
          assert Coord(i, j) in Occurrences(lines, 'B');
          goal := Coord(i, j);
          row := row + [false];
        } else if lines[i][j] == ' ' {
          row := row + [false];
        } else {
          row := row + [true];
        }
      }
      walls := walls + [row];
    }
    var g := Grid(height, width, walls, start, goal);
    assert start == a && goal == b;
    r := Ok(g);
  }
}
