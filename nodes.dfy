/** Search nodes and the walk back along parent links that turns the goal node
    into a solution. A node's parent is an index into an arena: the sequence
    of nodes expanded so far, each of which was stored before any node that
    names it as parent, so every parent index is smaller than its child's. */
module Nodes {
  import opened MazeTypes
  import opened MazeGrid

  /** The root has no parent and no action; every other node records the
      arena index of its parent and the action that led from it. */
  datatype Node =
    | Root(state: Coord)
    | Child(state: Coord, parent: nat, action: Action)

  /** `n` may sit in the arena at an index `bound` or later: its parent, if
      any, comes before `bound`. */
  ghost predicate ParentBefore(arena: seq<Node>, n: Node, bound: nat)
  {
    bound <= |arena| && (n.Child? ==> n.parent < bound)
  }

  /** Every arena node's parent precedes it. */
  ghost predicate Acyclic(arena: seq<Node>)
  {
    forall k :: 0 <= k < |arena| ==> ParentBefore(arena, arena[k], k)
  }

  /** The measure that shrinks along a parent link. */
  function LinkMeasure(n: Node): nat
  {
    if n.Root? then 0 else n.parent + 1
  }

  /** The actions on the chain from the root to `n`, oldest first; the root
      contributes none. */
  ghost function ChainActions(arena: seq<Node>, n: Node): seq<Action>
    requires Acyclic(arena) && ParentBefore(arena, n, |arena|)
    decreases LinkMeasure(n)
  {
    if n.Root? then [] else ChainActions(arena, arena[n.parent]) + [n.action]
  }

  /** The states on the chain from the root (excluded) to `n`, oldest first. */
  ghost function ChainCells(arena: seq<Node>, n: Node): seq<Coord>
    requires Acyclic(arena) && ParentBefore(arena, n, |arena|)
    decreases LinkMeasure(n)
  {
    if n.Root? then [] else ChainCells(arena, arena[n.parent]) + [n.state]
  }

  /** `s` in reverse order. */
  function Reverse<T>(s: seq<T>): (r: seq<T>)
    ensures |r| == |s|
    ensures forall i :: 0 <= i < |s| ==> r[i] == s[|s| - 1 - i]
  {
    if s == [] then [] else Reverse(s[1..]) + [s[0]]
  }

  lemma ReverseAppend<T>(s: seq<T>, x: T)
    ensures Reverse(s + [x]) == [x] + Reverse(s)
  {
    assert forall i :: 0 <= i < |s| + 1 ==> Reverse(s + [x])[i] == ([x] + Reverse(s))[i];
  }

  /** The path reconstruction of the search: follow parent links from `node`
      back to the root, collecting each node's action and state, then reverse
      both lists so they read from the start towards `node`. */
  method Reconstruct(arena: seq<Node>, node: Node) returns (actions: seq<Action>, cells: seq<Coord>)
    requires Acyclic(arena) && ParentBefore(arena, node, |arena|)
    ensures actions == ChainActions(arena, node)
    ensures cells == ChainCells(arena, node)
  {
    actions, cells := [], [];
    var n := node;
    while n.Child?
      invariant ParentBefore(arena, n, |arena|)
      invariant ChainActions(arena, node) == ChainActions(arena, n) + Reverse(actions)
      invariant ChainCells(arena, node) == ChainCells(arena, n) + Reverse(cells)
      decreases LinkMeasure(n)
    {
      ReverseAppend(actions, n.action);
      ReverseAppend(cells, n.state);
      actions := actions + [n.action];
      cells := cells + [n.state];
      n := arena[n.parent];
    }
    actions := Reverse(actions);
    cells := Reverse(cells);
  }

  /** Each node is one move from its parent into an open cell, and the root
      sits at the start. */
  ghost predicate LinkedAt(g: Grid, arena: seq<Node>, n: Node, bound: nat)
    requires Shaped(g)
  {
    && ParentBefore(arena, n, bound)
    && Open(g, n.state)
    && (n.Root? ==> n.state == g.start)
    && (n.Child? ==> n.state == Apply(n.action, arena[n.parent].state))
  }

  /** Every arena node is linked to an earlier one. */
  ghost predicate Linked(g: Grid, arena: seq<Node>)
    requires Shaped(g)
  {
    forall k :: 0 <= k < |arena| ==> LinkedAt(g, arena, arena[k], k)
  }

  /** The chain ending at a linked node is a path of the grid from the start
      that ends at the node's state; it is empty only for the root. */
  lemma {:induction false} ChainIsPath(g: Grid, arena: seq<Node>, n: Node)
    requires Shaped(g) && Linked(g, arena) && LinkedAt(g, arena, n, |arena|)
    ensures Acyclic(arena)
    ensures IsPath(g, g.start, ChainActions(arena, n), ChainCells(arena, n))
    ensures EndOf(g.start, ChainCells(arena, n)) == n.state
    ensures ChainCells(arena, n) == [] <==> n.Root?
    decreases LinkMeasure(n)
  {
    assert Acyclic(arena) by {
      forall k | 0 <= k < |arena| ensures ParentBefore(arena, arena[k], k) {
        assert LinkedAt(g, arena, arena[k], k);
      }
    }
    if n.Child? {
      var p := arena[n.parent];
      assert LinkedAt(g, arena, p, n.parent);
      ChainIsPath(g, arena, p);
      PathExtend(g, g.start, ChainActions(arena, p), ChainCells(arena, p), n.action);
    }
  }
}
