/** The grid of a parsed maze: its wall map, start and goal, the neighbour
    enumeration the search expands with, and what it means for a cell to be
    reachable from the start. */
module MazeGrid {
  import opened MazeTypes

  /** `walls[i][j]` is true when cell (i, j) is a wall. */
  datatype Grid = Grid(height: nat, width: nat, walls: seq<seq<bool>>, start: Coord, goal: Coord)

  /** The wall map has `height` rows of `width` entries each. */
  ghost predicate Shaped(g: Grid)
  {
    |g.walls| == g.height && forall i :: 0 <= i < g.height ==> |g.walls[i]| == g.width
  }

  predicate InBounds(g: Grid, c: Coord)
  {
    0 <= c.row < g.height && 0 <= c.col < g.width
  }

  /** An in-bounds cell that is not a wall. */
  predicate Open(g: Grid, c: Coord)
    requires Shaped(g)
  {
    InBounds(g, c) && !g.walls[c.row][c.col]
  }

  /** What every constructed maze satisfies: a well-shaped wall map and two
      distinct open cells as start and goal. */
  ghost predicate WellFormed(g: Grid)
  {
    Shaped(g) && Open(g, g.start) && Open(g, g.goal) && g.start != g.goal
  }

  /** The four candidate moves from `s`, in the order up, down, left, right:
      exactly the one-step moves, each action once. */
  function Candidates(s: Coord): (r: seq<Move>)
    ensures forall m :: m in r <==> m.cell == Apply(m.action, s)
    ensures StrictlyRanked(r)
  {
    [Move(Up, Coord(s.row - 1, s.col)), Move(Down, Coord(s.row + 1, s.col)),
     Move(Left, Coord(s.row, s.col - 1)), Move(Right, Coord(s.row, s.col + 1))]
  }

  /** Actions appear in strictly increasing up/down/left/right order. */
  ghost predicate StrictlyRanked(ms: seq<Move>)
  {
    forall i, j :: 0 <= i < j < |ms| ==> Rank(ms[i].action) < Rank(ms[j].action)
  }

  /** The candidates whose cell is open, in their original order. */
  function KeepOpen(g: Grid, cands: seq<Move>): (r: seq<Move>)
    requires Shaped(g)
    ensures forall m :: m in r <==> m in cands && Open(g, m.cell)
    ensures StrictlyRanked(cands) ==> StrictlyRanked(r)
    ensures |r| <= |cands|
  {
    if cands == [] then []
    else (if Open(g, cands[0].cell) then [cands[0]] else []) + KeepOpen(g, cands[1..])
  }

  /** The moves available from `s`: every in-bounds, non-wall cell one step
      away, labelled with the action that reaches it, listed up, down, left,
      right; hence no cell twice and at most four entries. */
  function Neighbors(g: Grid, s: Coord): (r: seq<Move>)
    requires Shaped(g)
    ensures forall m :: m in r <==> m.cell == Apply(m.action, s) && Open(g, m.cell)
    ensures StrictlyRanked(r)
    ensures forall i, j :: 0 <= i < j < |r| ==> r[i].cell != r[j].cell
    ensures |r| <= 4
  {
    var r := KeepOpen(g, Candidates(s));
    RankedMovesDistinct(r, s);
    r
  }

  /** Moves from one cell with strictly ordered actions lead to distinct
      cells. */
  lemma RankedMovesDistinct(ms: seq<Move>, s: Coord)
    requires StrictlyRanked(ms)
    requires forall m :: m in ms ==> m.cell == Apply(m.action, s)
    ensures forall i, j :: 0 <= i < j < |ms| ==> ms[i].cell != ms[j].cell
  {
    forall i, j | 0 <= i < j < |ms| ensures ms[i].cell != ms[j].cell {
      assert ms[i] in ms && ms[j] in ms;
      ApplyInjective(ms[i].action, ms[j].action, s);
    }
  }

  /** The last cell of a walk that starts at `from` and visits `cells`. */
  function EndOf(from: Coord, cells: seq<Coord>): Coord
  {
    if cells == [] then from else cells[|cells| - 1]
  }

  /** `actions[i]` applied to the previous cell (`from` for i = 0) gives
      `cells[i]`, and every visited cell is open. */
  ghost predicate IsPath(g: Grid, from: Coord, actions: seq<Action>, cells: seq<Coord>)
    requires Shaped(g)
  {
    |actions| == |cells| && forall i :: 0 <= i < |cells| ==> StepOk(g, from, actions, cells, i)
  }

  /** Step `i` of a walk from `from`: `actions[i]` leads from the previous
      cell to the open cell `cells[i]`. */
  ghost predicate StepOk(g: Grid, from: Coord, actions: seq<Action>, cells: seq<Coord>, i: nat)
    requires Shaped(g) && i < |actions| && i < |cells|
  {
    Open(g, cells[i]) && cells[i] == Apply(actions[i], if i == 0 then from else cells[i - 1])
  }

  /** `c` can be reached from the start by moves through open cells. */
  ghost predicate Reachable(g: Grid, c: Coord)
    requires Shaped(g)
  {
    exists actions: seq<Action>, cells: seq<Coord> ::
      IsPath(g, g.start, actions, cells) && EndOf(g.start, cells) == c
  }

  /** No open cell one step from a member of `s` lies outside `s`. */
  ghost predicate Closed(g: Grid, s: set<Coord>)
    requires Shaped(g)
  {
    forall c, a :: c in s && Open(g, Apply(a, c)) ==> Apply(a, c) in s
  }

  /** A path that starts inside a closed set never leaves it. */
  lemma {:induction false} PathStaysInClosed(g: Grid, s: set<Coord>, from: Coord,
                                             actions: seq<Action>, cells: seq<Coord>)
    requires Shaped(g) && Closed(g, s) && from in s
    requires IsPath(g, from, actions, cells)
    ensures forall i :: 0 <= i < |cells| ==> cells[i] in s
    ensures EndOf(from, cells) in s
  {
    if cells != [] {
      var n := |cells| - 1;
      assert IsPath(g, from, actions[..n], cells[..n]) by {
        forall i | 0 <= i < n
          ensures StepOk(g, from, actions[..n], cells[..n], i)
        {
          assert StepOk(g, from, actions, cells, i);
        }
      }
      PathStaysInClosed(g, s, from, actions[..n], cells[..n]);
      assert StepOk(g, from, actions, cells, n);
      assert n > 0 ==> cells[n - 1] == cells[..n][n - 1];
    }
  }

  /** Reachable cells are exactly what a closed set around the start must
      contain: if the goal is outside such a set, it is unreachable. */
  lemma ClosedExcludesUnreachable(g: Grid, s: set<Coord>, c: Coord)
    requires Shaped(g) && Closed(g, s) && g.start in s
    requires Reachable(g, c)
    ensures c in s
  {
    var actions, cells :| IsPath(g, g.start, actions, cells) && EndOf(g.start, cells) == c;
    PathStaysInClosed(g, s, g.start, actions, cells);
  }

  /** Extending a path by one move into an open cell gives a path. */
  lemma PathExtend(g: Grid, from: Coord, actions: seq<Action>, cells: seq<Coord>, a: Action)
    requires Shaped(g) && IsPath(g, from, actions, cells)
    requires Open(g, Apply(a, EndOf(from, cells)))
    ensures IsPath(g, from, actions + [a], cells + [Apply(a, EndOf(from, cells))])
    ensures EndOf(from, cells + [Apply(a, EndOf(from, cells))]) == Apply(a, EndOf(from, cells))
  {
    var cells' := cells + [Apply(a, EndOf(from, cells))];
    var actions' := actions + [a];
    forall i | 0 <= i < |cells'|
      ensures StepOk(g, from, actions', cells', i)
    {
      if i < |cells| {
        assert StepOk(g, from, actions, cells, i);
      } else if i > 0 {
        assert cells'[i - 1] == EndOf(from, cells);
      }
    }
  }

  /** Every cell of the grid. */
  function AllCells(g: Grid): set<Coord>
  {
    set r, c | 0 <= r < g.height && 0 <= c < g.width :: Coord(r, c)
  }

  function RowCells(r: int, w: nat): set<Coord>
  {
    set c | 0 <= c < w :: Coord(r, c)
  }

  function Rows(h: nat, w: nat): set<Coord>
  {
    set r, c | 0 <= r < h && 0 <= c < w :: Coord(r, c)
  }

  lemma {:induction false} RowCellsCount(r: int, w: nat)
    ensures |RowCells(r, w)| == w
  {
    if w > 0 {
      RowCellsCount(r, w - 1);
      assert RowCells(r, w) == RowCells(r, w - 1) + {Coord(r, w - 1)};
    }
  }

  lemma {:induction false} RowsCount(h: nat, w: nat)
    ensures |Rows(h, w)| == h * w
  {
    if h > 0 {
      assert |Rows(h, w)| == |Rows(h - 1, w)| + w by {
        RowCellsCount(h - 1, w);
        assert Rows(h, w) == Rows(h - 1, w) + RowCells(h - 1, w) by {
          forall x | x in Rows(h, w) ensures x in Rows(h - 1, w) + RowCells(h - 1, w) {
            if x.row == h - 1 { assert x in RowCells(h - 1, w); }
          }
        }
        assert Rows(h - 1, w) !! RowCells(h - 1, w);
      }
      RowsCount(h - 1, w);
      assert (h - 1) * w + w == h * w;
    }
  }

  /** A grid has height × width cells, and every open cell is one of them. */
  lemma AllCellsCount(g: Grid)
    ensures |AllCells(g)| == g.height * g.width
    ensures Shaped(g) ==> forall c :: Open(g, c) ==> c in AllCells(g)
  {
    RowsCount(g.height, g.width);
    assert AllCells(g) == Rows(g.height, g.width);
  }
}
