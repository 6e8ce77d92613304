/** The frontier: the discovered but not yet expanded nodes, kept as a list.
    Both frontier kinds add at the end; they differ only in which end
    `Remove` takes from, chosen here by a policy value. */
module Frontiers {
  import opened MazeTypes
  import opened Nodes

  /** Stack: last in, first out. Queue: first in, first out. */
  datatype Policy = Stack | Queue

  /** Some node of `ns` has state `s`, checked from the front. */
  function AnyHasState(ns: seq<Node>, s: Coord): (b: bool)
    ensures b <==> exists i :: 0 <= i < |ns| && ns[i].state == s
  {
    if ns == [] then false
    else ns[0].state == s || AnyHasState(ns[1..], s)
  }

  class Frontier {
    const policy: Policy
    var nodes: seq<Node>

    /** A new, empty frontier. */
    constructor (policy: Policy)
      ensures this.policy == policy && nodes == []
    {
      this.policy := policy;
      nodes := [];
    }

    /** Appends `n`; no de-duplication happens here. */
    method Add(n: Node)
      modifies this
      ensures nodes == old(nodes) + [n]
    {
      nodes := nodes + [n];
    }

    /** Whether some held node has state `s`. */
    function ContainsState(s: Coord): (b: bool)
      reads this
      ensures b <==> exists i :: 0 <= i < |nodes| && nodes[i].state == s
    {
      AnyHasState(nodes, s)
    }

    /** Whether the frontier holds no node. */
    function Empty(): (b: bool)
      reads this
      ensures b <==> nodes == []
      ensures b <==> forall s :: !ContainsState(s)
    {
      assert nodes != [] ==> ContainsState(nodes[0].state);
      |nodes| == 0
    }

    /** Takes the last node (stack) or the first node (queue) out of the
      frontier and returns it; an empty frontier is an error and stays as
      it is. */
    method Remove() returns (r: Result<Node>)
      modifies this
      ensures old(nodes) == [] ==> r == Err(EmptyFrontier) && nodes == old(nodes)
      ensures old(nodes) != [] && policy == Stack ==>
                r == Ok(old(nodes)[|old(nodes)| - 1]) && nodes == old(nodes)[..|old(nodes)| - 1]
      ensures old(nodes) != [] && policy == Queue ==>
                r == Ok(old(nodes)[0]) && nodes == old(nodes)[1..]
    {
      if Empty() {
        return Err(EmptyFrontier);
      }
      if policy == Stack {
        var node := nodes[|nodes| - 1];
        nodes := nodes[..|nodes| - 1];
        r := Ok(node);
      } else {
        var node := nodes[0];
        nodes := nodes[1..];
        r := Ok(node);
      }
    }
  }

  /** After adding n1, n2, n3 to an empty stack frontier, removal yields n3. */
  method StackRemovesLastAdded(n1: Node, n2: Node, n3: Node) returns (r: Result<Node>)
    ensures r == Ok(n3)
  {
    var f := new Frontier(Stack);
    f.Add(n1);
    f.Add(n2);
    f.Add(n3);
    r := f.Remove();
  }

  /** After adding n1, n2, n3 to an empty queue frontier, removal yields n1. */
  method QueueRemovesFirstAdded(n1: Node, n2: Node, n3: Node) returns (r: Result<Node>)
    ensures r == Ok(n1)
  {
    var f := new Frontier(Queue);
    f.Add(n1);
    f.Add(n2);
    f.Add(n3);
    r := f.Remove();
  }

  /** Removing from a new frontier of either kind fails with EmptyFrontier. */
  method RemoveFromNewFails(p: Policy) returns (r: Result<Node>)
    ensures r == Err(EmptyFrontier)
  {
    var f := new Frontier(p);
    r := f.Remove();
  }
}
