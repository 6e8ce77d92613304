/** The maze and its solver: generic graph search over the grid with a
    frontier, an explored set and a count of removals, followed by the walk
    back along parent links when the goal is removed. */
module MazeSearch {
  import opened MazeTypes
  import opened MazeGrid
  import opened Nodes
  import opened Frontiers

  /** The states of the nodes in `ns`. */
  function StatesOf(ns: seq<Node>): set<Coord>
  {
    set i | 0 <= i < |ns| :: ns[i].state
  }

  /** No two nodes of `ns` share a state. */
  ghost predicate DistinctStates(ns: seq<Node>)
  {
    forall i, j :: 0 <= i < j < |ns| ==> ns[i].state != ns[j].state
  }

  /** The nodes the expansion loop adds for `moves`: a move whose cell is
      neither held by the frontier (including what this loop has added so
      far) nor explored becomes a child of the arena node `parent`. */
  function Discover(moves: seq<Move>, held: seq<Node>, explored: set<Coord>, parent: nat): (r: seq<Node>)
    ensures |r| <= |moves|
    ensures forall i :: 0 <= i < |r| ==> r[i].Child? && r[i].parent == parent && r[i].state !in explored
    decreases |moves|
  {
    if moves == [] then []
    else
      var m := moves[0];
      if !AnyHasState(held, m.cell) && m.cell !in explored then
        var child := Child(m.cell, parent, m.action);
        [child] + Discover(moves[1..], held + [child], explored, parent)
      else
        Discover(moves[1..], held, explored, parent)
  }

  /** The states of a concatenation are the states of its parts. */
  lemma StatesOfConcat(a: seq<Node>, b: seq<Node>)
    ensures StatesOf(a + b) == StatesOf(a) + StatesOf(b)
  {
    forall x | x in StatesOf(a + b) ensures x in StatesOf(a) + StatesOf(b) {
      var i :| 0 <= i < |a + b| && (a + b)[i].state == x;
      if i < |a| { assert a[i] == (a + b)[i]; } else { assert b[i - |a|] == (a + b)[i]; }
    }
    forall x | x in StatesOf(a) + StatesOf(b) ensures x in StatesOf(a + b) {
      if x in StatesOf(a) {
        var i :| 0 <= i < |a| && a[i].state == x;
        assert (a + b)[i] == a[i];
      } else {
        var i :| 0 <= i < |b| && b[i].state == x;
        assert (a + b)[|a| + i] == b[i];
      }
    }
  }

  lemma StatesOfSingle(n: Node)
    ensures StatesOf([n]) == {n.state}
  {
    assert [n][0] == n;
  }

  /** `n` is a node the expansion may add: a child of `parent` reached by one
      of `moves`, at a state neither explored nor held. */
  ghost predicate NewChild(n: Node, moves: seq<Move>, held: seq<Node>, explored: set<Coord>, parent: nat)
  {
    && n.Child? && n.parent == parent
    && Move(n.action, n.state) in moves
    && n.state !in explored && n.state !in StatesOf(held)
  }

  /** Every node the expansion adds is a child of `parent` for one of the
      moves, and its state is neither explored nor held beforehand. */
  lemma {:induction false} DiscoverChildren(moves: seq<Move>, held: seq<Node>, explored: set<Coord>, parent: nat)
    ensures forall n :: n in Discover(moves, held, explored, parent) ==> NewChild(n, moves, held, explored, parent)
    decreases |moves|
  {
    if moves != [] {
      var m := moves[0];
      assert moves == [m] + moves[1..];
      if !AnyHasState(held, m.cell) && m.cell !in explored {
        var child := Child(m.cell, parent, m.action);
        var held' := held + [child];
        var rest := Discover(moves[1..], held', explored, parent);
        DiscoverChildren(moves[1..], held', explored, parent);
        assert Discover(moves, held, explored, parent) == [child] + rest;
        StatesOfConcat(held, [child]);
        forall n | n in rest ensures NewChild(n, moves, held, explored, parent) {
          assert NewChild(n, moves[1..], held', explored, parent);
        }
      } else {
        DiscoverChildren(moves[1..], held, explored, parent);
        forall n | n in Discover(moves[1..], held, explored, parent)
          ensures NewChild(n, moves, held, explored, parent)
        {
          assert NewChild(n, moves[1..], held, explored, parent);
        }
      }
    }
  }

  /** The expansion never puts a state on the frontier twice. */
  lemma {:induction false} DiscoverDistinct(moves: seq<Move>, held: seq<Node>, explored: set<Coord>, parent: nat)
    requires DistinctStates(held)
    ensures DistinctStates(held + Discover(moves, held, explored, parent))
    decreases |moves|
  {
    if moves != [] {
      var m := moves[0];
      if !AnyHasState(held, m.cell) && m.cell !in explored {
        var child := Child(m.cell, parent, m.action);
        var held' := held + [child];
        assert DistinctStates(held');
        DiscoverDistinct(moves[1..], held', explored, parent);
        assert held + Discover(moves, held, explored, parent) ==
               held' + Discover(moves[1..], held', explored, parent);
      } else {
        DiscoverDistinct(moves[1..], held, explored, parent);
      }
    }
  }

  /** After the expansion, the cell of every move is explored or held. */
  lemma {:induction false} DiscoverCovers(moves: seq<Move>, held: seq<Node>, explored: set<Coord>, parent: nat)
    ensures forall m :: m in moves ==>
      m.cell in explored || m.cell in StatesOf(held + Discover(moves, held, explored, parent))
    decreases |moves|
  {
    if moves != [] {
      var m := moves[0];
      var added := Discover(moves, held, explored, parent);
      assert moves == [m] + moves[1..];
      if !AnyHasState(held, m.cell) && m.cell !in explored {
        var child := Child(m.cell, parent, m.action);
        var held' := held + [child];
        var rest := Discover(moves[1..], held', explored, parent);
        DiscoverCovers(moves[1..], held', explored, parent);
        assert held + added == held' + rest;
        assert (held' + rest)[|held|] == child;
      } else {
        DiscoverCovers(moves[1..], held, explored, parent);
        var rest := Discover(moves[1..], held, explored, parent);
        StatesOfConcat(held, rest);
        if m.cell !in explored {
          var i :| 0 <= i < |held| && held[i].state == m.cell;
          assert m.cell in StatesOf(held);
        }
      }
    }
  }

  /** One turn of the neighbour loop: handling `moves[k]` either appends its
      child to the frontier or leaves it, and what remains to be added is
      the discovery over the later moves. */
  lemma DiscoverUnfold(moves: seq<Move>, k: nat, held: seq<Node>, explored: set<Coord>, parent: nat)
    requires k < |moves|
    ensures var m := moves[k];
      var child := Child(m.cell, parent, m.action);
      var unseen := !AnyHasState(held, m.cell) && m.cell !in explored;
      var held' := if unseen then held + [child] else held;
      held' + Discover(moves[k + 1..], held', explored, parent) == held + Discover(moves[k..], held, explored, parent)
  {
    assert moves[k..][0] == moves[k] && moves[k..][1..] == moves[k + 1..];
  }

  /** Every frontier node is linked to the arena. */
  ghost predicate FrontierLinked(g: Grid, arena: seq<Node>, frontier: seq<Node>)
    requires Shaped(g)
  {
    forall i :: 0 <= i < |frontier| ==> LinkedAt(g, arena, frontier[i], |arena|)
  }

  /** Every open cell one move from an explored cell is explored or held. */
  ghost predicate ClosedBesides(g: Grid, explored: set<Coord>, held: set<Coord>)
    requires Shaped(g)
  {
    forall c, a :: c in explored && Open(g, Apply(a, c)) ==> Apply(a, c) in explored || Apply(a, c) in held
  }

  /** What holds of the search between iterations: the arena (the expanded
      nodes) and the frontier are linked into paths from the start; the
      explored set is the arena's states and excludes the goal; the frontier
      holds each state at most once and none that is explored; and every open
      cell next to an explored cell is explored or on the frontier, as is the
      start. */
  ghost predicate SearchInv(g: Grid, arena: seq<Node>, frontier: seq<Node>, explored: set<Coord>)
  {
    && WellFormed(g)
    && Linked(g, arena)
    && FrontierLinked(g, arena, frontier)
    && explored == StatesOf(arena)
    && DistinctStates(frontier)
    && explored !! StatesOf(frontier)
    && g.goal !in explored
    && ClosedBesides(g, explored, StatesOf(frontier))
    && (g.start in explored || g.start in StatesOf(frontier))
  }

  /** The search begins with the root alone on the frontier. */
  lemma SearchInvInit(g: Grid)
    requires WellFormed(g)
    ensures SearchInv(g, [], [Root(g.start)], {})
  {
    StatesOfSingle(Root(g.start));
  }

  /** Linking is unaffected by appending to the arena. */
  lemma LinkedAtGrow(g: Grid, arena: seq<Node>, n: Node, m: Node, bound: nat, bound': nat)
    requires Shaped(g) && LinkedAt(g, arena, m, bound) && bound <= bound' <= |arena| + 1
    ensures LinkedAt(g, arena + [n], m, bound')
  {
    assert m.Child? ==> (arena + [n])[m.parent] == arena[m.parent];
  }

  /** Taking the node at index `k` out of a frontier without repeated
      states removes exactly its state. */
  lemma RemoveAt(frontier: seq<Node>, k: nat)
    requires DistinctStates(frontier) && k < |frontier|
    ensures var rest := frontier[..k] + frontier[k + 1..];
      && |rest| == |frontier| - 1
      && (forall i :: 0 <= i < |rest| ==> rest[i] == frontier[if i < k then i else i + 1])
      && DistinctStates(rest)
      && StatesOf(frontier) == StatesOf(rest) + {frontier[k].state}
      && frontier[k].state !in StatesOf(rest)
  {
    var rest := frontier[..k] + frontier[k + 1..];
    assert forall i :: 0 <= i < |rest| ==> rest[i] == frontier[if i < k then i else i + 1];
    assert frontier == frontier[..k] + [frontier[k]] + frontier[k + 1..];
    StatesOfConcat(frontier[..k] + [frontier[k]], frontier[k + 1..]);
    StatesOfConcat(frontier[..k], [frontier[k]]);
    StatesOfConcat(frontier[..k], frontier[k + 1..]);
    StatesOfSingle(frontier[k]);
  }

  /** After the expanded node joins the arena, the arena stays linked and so
      do the remaining frontier nodes and the node's new children. */
  lemma StepLinked(g: Grid, arena: seq<Node>, node: Node, rest: seq<Node>, added: seq<Node>)
    requires Shaped(g) && Linked(g, arena) && LinkedAt(g, arena, node, |arena|)
    requires FrontierLinked(g, arena, rest)
    requires forall n :: n in added ==>
               n.Child? && n.parent == |arena| && Move(n.action, n.state) in Neighbors(g, node.state)
    ensures Linked(g, arena + [node]) && FrontierLinked(g, arena + [node], rest + added)
  {
    var arena' := arena + [node];
    forall j | 0 <= j < |arena'| ensures LinkedAt(g, arena', arena'[j], j) {
      if j < |arena| {
        LinkedAtGrow(g, arena, node, arena[j], j, j);
      } else {
        LinkedAtGrow(g, arena, node, node, |arena|, |arena|);
      }
    }
    var frontier' := rest + added;
    forall i | 0 <= i < |frontier'| ensures LinkedAt(g, arena', frontier'[i], |arena'|) {
      if i < |rest| {
        assert LinkedAt(g, arena, rest[i], |arena|);
        LinkedAtGrow(g, arena, node, rest[i], |arena|, |arena'|);
      } else {
        var c := added[i - |rest|];
        assert c in added;
        assert arena'[c.parent] == node;
      }
    }
  }

  /** Expanding the cell `s` keeps every open neighbour of an explored cell
      explored or on the frontier. */
  lemma StepClosed(g: Grid, explored: set<Coord>, s: Coord, before: set<Coord>, after: set<Coord>)
    requires Shaped(g) && ClosedBesides(g, explored, before)
    requires before - {s} <= after
    requires forall m :: m in Neighbors(g, s) ==> m.cell in explored + {s} || m.cell in after
    ensures ClosedBesides(g, explored + {s}, after)
  {
    forall c, a | c in explored + {s} && Open(g, Apply(a, c))
      ensures Apply(a, c) in explored + {s} || Apply(a, c) in after
    {
      if c == s {
        assert Move(a, Apply(a, c)) in Neighbors(g, s);
      } else {
        assert Apply(a, c) in explored || Apply(a, c) in before;
      }
    }
  }

  /** One iteration that does not find the goal keeps the invariant: the node
      at index `k` leaves the frontier, its state joins the explored set (which
      grows by one cell of the grid), the node joins the arena, and its
      undiscovered neighbours are added as its children. */
  lemma SearchInvStep(g: Grid, arena: seq<Node>, frontier: seq<Node>, explored: set<Coord>, k: nat,
                      arena': seq<Node>, frontier': seq<Node>, explored': set<Coord>)
    requires SearchInv(g, arena, frontier, explored)
    requires k < |frontier| && frontier[k].state != g.goal
    requires arena' == arena + [frontier[k]]
    requires explored' == explored + {frontier[k].state}
    requires var rest := frontier[..k] + frontier[k + 1..];
      frontier' == rest + Discover(Neighbors(g, frontier[k].state), rest, explored', |arena|)
    ensures SearchInv(g, arena', frontier', explored')
    ensures frontier[k].state !in explored && frontier[k].state in AllCells(g)
    ensures |explored'| == |explored| + 1
  {
    var node := frontier[k];
    var rest := frontier[..k] + frontier[k + 1..];
    var moves := Neighbors(g, node.state);
    var added := Discover(moves, rest, explored', |arena|);
    assert frontier' == rest + added;

    RemoveAt(frontier, k);
    assert node.state in AllCells(g) by {
      assert LinkedAt(g, arena, node, |arena|);
      AllCellsCount(g);
    }
    assert Linked(g, arena') && FrontierLinked(g, arena', frontier') by {
      assert LinkedAt(g, arena, node, |arena|);
      assert FrontierLinked(g, arena, rest) by {
        forall i | 0 <= i < |rest| ensures LinkedAt(g, arena, rest[i], |arena|) {
          assert rest[i] == frontier[if i < k then i else i + 1];
        }
      }
      DiscoverChildren(moves, rest, explored', |arena|);
      assert forall n :: n in added ==> NewChild(n, moves, rest, explored', |arena|);
      StepLinked(g, arena, node, rest, added);
    }
    assert explored' == StatesOf(arena') by {
      StatesOfConcat(arena, [node]);
      StatesOfSingle(node);
    }
    assert DistinctStates(frontier') by {
      DiscoverDistinct(moves, rest, explored', |arena|);
    }
    assert StatesOf(frontier') == StatesOf(rest) + StatesOf(added) by {
      StatesOfConcat(rest, added);
    }
    assert StatesOf(added) !! explored' by {
      DiscoverChildren(moves, rest, explored', |arena|);
      forall x | x in StatesOf(added) ensures x !in explored' {
        var i :| 0 <= i < |added| && added[i].state == x;
        assert NewChild(added[i], moves, rest, explored', |arena|);
      }
    }
    assert ClosedBesides(g, explored', StatesOf(frontier')) by {
      DiscoverCovers(moves, rest, explored', |arena|);
      StepClosed(g, explored, node.state, StatesOf(frontier), StatesOf(frontier'));
    }
  }

  /** A node on the frontier heads a chain of parent links through the arena. */
  lemma FrontierChain(g: Grid, arena: seq<Node>, frontier: seq<Node>, explored: set<Coord>, k: nat)
    requires SearchInv(g, arena, frontier, explored) && k < |frontier|
    ensures Acyclic(arena) && ParentBefore(arena, frontier[k], |arena|)
  {
    assert LinkedAt(g, arena, frontier[k], |arena|);
    ChainIsPath(g, arena, frontier[k]);
  }

  /** When the node removed from the frontier is at the goal, its chain is a
      non-empty path from the start to the goal, and the explored cells and
      the goal together fit in the grid. */
  lemma GoalChain(g: Grid, arena: seq<Node>, frontier: seq<Node>, explored: set<Coord>, k: nat)
    requires SearchInv(g, arena, frontier, explored) && k < |frontier| && frontier[k].state == g.goal
    ensures Acyclic(arena) && ParentBefore(arena, frontier[k], |arena|)
    ensures var actions, cells := ChainActions(arena, frontier[k]), ChainCells(arena, frontier[k]);
      && IsPath(g, g.start, actions, cells)
      && cells != [] && cells[|cells| - 1] == g.goal
      && Reachable(g, g.goal)
    ensures |explored| + 1 <= g.height * g.width
  {
    var node := frontier[k];
    assert LinkedAt(g, arena, node, |arena|);
    ChainIsPath(g, arena, node);
    var actions, cells := ChainActions(arena, node), ChainCells(arena, node);
    assert IsPath(g, g.start, actions, cells) && EndOf(g.start, cells) == g.goal;
    AllCellsCount(g);
    assert node.state in StatesOf(frontier);
    assert explored + {g.goal} <= AllCells(g) by {
      forall c | c in explored ensures c in AllCells(g) {
        var j :| 0 <= j < |arena| && arena[j].state == c;
        assert LinkedAt(g, arena, arena[j], j);
      }
    }
    SubsetSize(explored + {g.goal}, AllCells(g));
  }

  /** When the frontier runs dry, the explored set is closed under moves and
      holds the start, so it is exactly the set of reachable cells, and the
      goal is unreachable. */
  lemma SearchInvExhausted(g: Grid, arena: seq<Node>, explored: set<Coord>)
    requires SearchInv(g, arena, [], explored)
    ensures forall c :: c in explored <==> Reachable(g, c)
    ensures !Reachable(g, g.goal)
  {
    assert Closed(g, explored);
    forall c | Reachable(g, c) ensures c in explored {
      ClosedExcludesUnreachable(g, explored, c);
    }
    ExploredReachable(g, arena, [], explored);
  }

  /** Every explored cell is reachable from the start: it is the state of an
      arena node, whose parent chain is a path from the start to it. */
  lemma ExploredReachable(g: Grid, arena: seq<Node>, frontier: seq<Node>, explored: set<Coord>)
    requires SearchInv(g, arena, frontier, explored)
    ensures forall c :: c in explored ==> Reachable(g, c)
  {
    forall c | c in explored ensures Reachable(g, c) {
      var k :| 0 <= k < |arena| && arena[k].state == c;
      assert LinkedAt(g, arena, arena[k], k);
      LinkedAtGrow(g, arena, arena[k], arena[k], k, k);
      assert LinkedAt(g, arena, arena[k], |arena|);
      ChainIsPath(g, arena, arena[k]);
      assert IsPath(g, g.start, ChainActions(arena, arena[k]), ChainCells(arena, arena[k]));
    }
  }

  class Maze {
    const grid: Grid
    var solution: Option<Solution>
    var numExplored: nat
    var explored: set<Coord>

    /** A maze over a parsed grid, not yet solved. */
    constructor (g: Grid)
      requires WellFormed(g)
      ensures grid == g && solution == None && numExplored == 0 && explored == {}
    {
      grid := g;
      solution := None;
      numExplored := 0;
      explored := {};
    }

    /** The neighbour loop of one expansion: every move from `node` whose
        cell is neither on the frontier nor in `seen` (the explored set) is
        added to the frontier as a child of `node`, which sits in the arena
        at `index`. */
    method Expand(frontier: Frontier, node: Node, index: nat, seen: set<Coord>)
      requires Shaped(grid)
      modifies frontier
      ensures frontier.nodes ==
                old(frontier.nodes) + Discover(Neighbors(grid, node.state), old(frontier.nodes), seen, index)
    {
      var moves := Neighbors(grid, node.state);
      ghost var goal := old(frontier.nodes) + Discover(moves, old(frontier.nodes), seen, index);
      assert moves[0..] == moves;
      for k := 0 to |moves|
        invariant frontier.nodes + Discover(moves[k..], frontier.nodes, seen, index) == goal
      {
        var m := moves[k];
        DiscoverUnfold(moves, k, frontier.nodes, seen, index);
        if !frontier.ContainsState(m.cell) && m.cell !in seen {
          frontier.Add(Child(m.cell, index, m.action));
        }
      }
      assert moves[|moves|..] == [];
    }

    /** Solves the maze with a stack frontier. It succeeds exactly when the
        goal is reachable, returning (and storing) a path from the start to
        the goal; otherwise it fails with NoSolution, and the explored set is
        then exactly the reachable cells. `numExplored` counts removals,
        including the one that finds the goal, and is at most height × width.
        The counter and the explored set are kept in locals while the loop
        runs and stored in their fields on either exit. */
    method Solve() returns (r: Result<Solution>)
      requires WellFormed(grid)
      modifies this
      ensures r.Ok? <==> Reachable(grid, grid.goal)
      ensures r.Ok? ==> && IsPath(grid, grid.start, r.value.actions, r.value.cells)
                        && r.value.cells != []
                        && r.value.cells[|r.value.cells| - 1] == grid.goal
                        && solution == Some(r.value)
                        && grid.goal !in explored
                        && (forall c :: c in explored ==> Reachable(grid, c))
                        && numExplored == |explored| + 1
      ensures r.Err? ==> && r.error == NoSolution
                         && solution == old(solution)
                         && (forall c :: c in explored <==> Reachable(grid, c))
                         && numExplored == |explored|
      ensures explored <= AllCells(grid) && numExplored <= grid.height * grid.width
    {
      var count := 0;
      var start := Root(grid.start);
      var frontier := new Frontier(Stack);
      frontier.Add(start);
      var seen: set<Coord> := {};
      var arena: seq<Node> := [];
      assert frontier.nodes == [start];
      SearchInvInit(grid);

      while true
        invariant frontier.policy == Stack
        invariant SearchInv(grid, arena, frontier.nodes, seen)
        invariant count == |seen|
        invariant solution == old(solution)
        decreases grid.height * grid.width - |seen|
      {
        if frontier.Empty() {
          SearchInvExhausted(grid, arena, seen);
          ExploredInGrid(grid, arena, frontier.nodes, seen);
          numExplored, explored := count, seen;
          return Err(NoSolution);
        }
        ghost var before := frontier.nodes;
        ghost var k := |before| - 1;
        var removed := frontier.Remove();
        var node := removed.value;
        count := count + 1;

        if node.state == grid.goal {
          GoalChain(grid, arena, before, seen, k);
          ExploredInGrid(grid, arena, before, seen);
          ExploredReachable(grid, arena, before, seen);
          var actions, cells := Reconstruct(arena, node);
          numExplored, explored := count, seen;
          solution := Some(Solution(actions, cells));
          return Ok(Solution(actions, cells));
        }

        FrontierChain(grid, arena, before, seen, k);
        ghost var arena0, seen0, rest := arena, seen, frontier.nodes;
        assert rest == before[..k] + before[k + 1..];
        var index := |arena|;
        seen := seen + {node.state};
        arena := arena + [node];
        Expand(frontier, node, index, seen);
        assert frontier.nodes == rest + Discover(Neighbors(grid, node.state), rest, seen, index);
        SearchInvStep(grid, arena0, before, seen0, k, arena, frontier.nodes, seen);
        ExploredInGrid(grid, arena, frontier.nodes, seen);
      }
    }
  }

  /** The explored cells are cells of the grid, so there are at most
      height × width of them. */
  lemma ExploredInGrid(g: Grid, arena: seq<Node>, frontier: seq<Node>, explored: set<Coord>)
    requires SearchInv(g, arena, frontier, explored)
    ensures explored <= AllCells(g) && |explored| <= g.height * g.width
  {
    AllCellsCount(g);
    forall c | c in explored ensures c in AllCells(g) {
      var j :| 0 <= j < |arena| && arena[j].state == c;
      assert LinkedAt(g, arena, arena[j], j);
    }
    SubsetSize(explored, AllCells(g));
  }

  /** A subset is no larger than its superset. */
  lemma {:induction false} SubsetSize(a: set<Coord>, b: set<Coord>)
    requires a <= b
    ensures |a| <= |b|
    decreases |b|
  {
    if a != {} {
      var x :| x in a;
      SubsetSize(a - {x}, b - {x});
    }
  }
}
