/** Inspector of ir/visitor.cpp, with identity preorder and visitDagOnce, on any graph, cyclic or not */
module Inspectors {
  import opened IrGraph
  import opened Cycles

  /** The state of a traversal: the stack of nodes being visited, and the nodes in the order in which they were
      entered and left */
  datatype Walk = Walk(stack: seq<NodeId>, entered: seq<NodeId>, left: seq<NodeId>)

  /** The marks tell which nodes were entered, which were left, and which are still being visited. */
  ghost predicate Marked(visited: map<NodeId, bool>, w: Walk) {
    && (forall k :: k in visited <==> k in w.entered)
    && (forall k :: k in w.left <==> k in visited && visited[k])
    && (forall k :: k in w.stack <==> k in visited && !visited[k])
  }

  ghost predicate WalkOk<L>(g: Graph<L>, root: NodeId, visited: map<NodeId, bool>, w: Walk) {
    && IsStack(g, root, w.stack)
    && Distinct(w.entered) && Distinct(w.left) && ChildrenFirst(g, w.left)
    && Marked(visited, w)
    && (forall k | k in w.entered :: k in g && Reaches(g, root, k))
  }

  class Inspector<L> {
    const g: Graph<L>
    const root: NodeId
    /** For each node that was entered, whether its visit is done */
    var visited: map<NodeId, bool>
    ghost var walk: Walk

    constructor (g: Graph<L>, root: NodeId)
      requires Closed(g) && root in g
      ensures Valid() && this.g == g && this.root == root && walk == Walk([], [], [])
    {
      this.g, this.root, visited, walk := g, root, map[], Walk([], [], []);
    }

    ghost predicate Valid()
      reads this
    {
      Closed(g) && root in g && WalkOk(g, root, visited, walk)
    }

    /** Visits a node. The visit is given up when an IR loop is found. */
    method ApplyVisitor(n: NodeId) returns (loop: bool)
      requires Valid() && n in g
      requires IsNext(g, root, walk.stack, n)
      modifies this
      ensures loop ==> ReachesCycle(g, root)
      ensures !loop ==> Valid() && walk.stack == old(walk.stack) && n in walk.left && Within(old(walk.left), walk.left)
      ensures old(visited.Keys) <= visited.Keys
      decreases g.Keys - visited.Keys, 0
    {
      if n in visited {
        if !visited[n] {
          FoundCycle(g, root, walk.stack, n);
          return true;
        }
        return false;
      }
      visited := visited[n := false];
      Entered(g, root, old(visited), walk, n);
      walk := walk.(stack := walk.stack + [n], entered := walk.entered + [n]);
      loop := VisitChildren(n);
      if loop { return true; }
      Left(g, root, visited, walk, n);
      visited := visited[n := true];
      walk := walk.(stack := walk.stack[..|walk.stack| - 1], left := walk.left + [n]);
      assert walk.stack == old(walk.stack);
      return false;
    }

    method VisitChildren(n: NodeId) returns (loop: bool)
      requires Valid() && walk.stack != [] && walk.stack[|walk.stack| - 1] == n && n in g
      modifies this
      ensures loop ==> ReachesCycle(g, root)
      ensures !loop ==> Valid() && walk.stack == old(walk.stack) && Within(old(walk.left), walk.left)
      ensures !loop ==> forall j | 0 <= j < |g[n].children| && g[n].children[j].To? :: g[n].children[j].id in walk.left
      ensures old(visited.Keys) <= visited.Keys
      decreases g.Keys - visited.Keys, 1
    {
      for i := 0 to |g[n].children|
        invariant Valid() && walk.stack == old(walk.stack) && Within(old(walk.left), walk.left)
        invariant old(visited.Keys) <= visited.Keys
        invariant forall j | 0 <= j < i && g[n].children[j].To? :: g[n].children[j].id in walk.left
      {
        var child := g[n].children[i];
        if child.To? {
          assert IsChild(g, n, child.id);
          loop := ApplyVisitor(child.id);
          if loop { return true; }
        }
      }
      return false;
    }

    /** A traversal from the root halts. It reports a loop exactly when a cycle can be reached from the root;
        otherwise it enters and leaves every node that can be reached exactly once, children before parents. */
    method Apply() returns (loop: bool)
      requires Valid() && walk == Walk([], [], [])
      modifies this
      ensures loop <==> ReachesCycle(g, root)
      ensures !loop ==>
                && Distinct(walk.entered) && Distinct(walk.left) && ChildrenFirst(g, walk.left)
                && (forall k :: k in walk.entered <==> Reaches(g, root, k))
                && (forall k :: k in walk.left <==> Reaches(g, root, k))
    {
      loop := ApplyVisitor(root);
      if !loop { AllLeft(g, root, visited, walk); }
    }
  }

  lemma Entered<L>(g: Graph<L>, root: NodeId, visited: map<NodeId, bool>, w: Walk, n: NodeId)
    requires WalkOk(g, root, visited, w) && n in g && n !in visited && IsNext(g, root, w.stack, n)
    ensures WalkOk(g, root, visited[n := false], w.(stack := w.stack + [n], entered := w.entered + [n]))
  {
    Pushed(g, root, w.stack, n);
  }

  lemma Left<L>(g: Graph<L>, root: NodeId, visited: map<NodeId, bool>, w: Walk, n: NodeId)
    requires WalkOk(g, root, visited, w) && w.stack != [] && w.stack[|w.stack| - 1] == n
    requires n !in w.stack[..|w.stack| - 1] && n in visited && !visited[n]
    requires forall j | 0 <= j < |g[n].children| && g[n].children[j].To? :: g[n].children[j].id in w.left
    ensures WalkOk(g, root, visited[n := true], w.(stack := w.stack[..|w.stack| - 1], left := w.left + [n]))
  {
    Popped(g, root, w.stack);
    forall c | IsChild(g, n, c) ensures c in w.left {
      var j :| 0 <= j < |g[n].children| && g[n].children[j] == To(c);
    }
    ChildrenFirstMore(g, w.left, n);
    OneMore(w.left, n);
    LeftMarked(visited, w, w.stack[..|w.stack| - 1], n);
  }

  lemma LeftMarked(visited: map<NodeId, bool>, w: Walk, stack: seq<NodeId>, n: NodeId)
    requires Marked(visited, w) && w.stack == stack + [n] && n !in stack && n in visited && !visited[n]
    ensures Marked(visited[n := true], w.(stack := stack, left := w.left + [n]))
  {
    OneMore(stack, n);
    OneMore(w.left, n);
    assert forall k :: k in visited[n := true] <==> k in visited;
  }

  lemma AllLeft<L>(g: Graph<L>, root: NodeId, visited: map<NodeId, bool>, w: Walk)
    requires WalkOk(g, root, visited, w) && w.stack == [] && root in w.left
    ensures forall k :: k in w.entered <==> Reaches(g, root, k)
    ensures forall k :: k in w.left <==> Reaches(g, root, k)
    ensures !ReachesCycle(g, root)
  {
    NoCycleBelow(g, root, w.left);
  }
}
