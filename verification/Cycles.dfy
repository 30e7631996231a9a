/** Cycles of IR graphs, and orders in which they cannot occur */
module Cycles {
  import opened IrGraph

  ghost predicate OnCycle<L>(g: Graph<L>, n: NodeId) {
    exists p :: IsCycle(g, p, n)
  }

  ghost predicate IsCycle<L>(g: Graph<L>, p: seq<NodeId>, n: NodeId) {
    |p| > 1 && Joins(g, p, n, n)
  }

  ghost predicate ReachesCycle<L>(g: Graph<L>, root: NodeId) {
    exists n :: Reaches(g, root, n) && OnCycle(g, n)
  }

  /** The children of node n are among the given nodes. */
  ghost predicate ChildrenIn<L>(g: Graph<L>, n: NodeId, s: seq<NodeId>) {
    forall c | IsChild(g, n, c) :: c in s
  }

  /** In the order in which nodes are left, children come before their parents. */
  ghost predicate ChildrenFirst<L>(g: Graph<L>, left: seq<NodeId>) {
    forall i | 0 <= i < |left| :: ChildrenIn(g, left[i], left[..i])
  }

  ghost predicate Distinct(s: seq<NodeId>) {
    forall i, j | 0 <= i < j < |s| :: s[i] != s[j]
  }

  ghost predicate Within(s: seq<NodeId>, t: seq<NodeId>) {
    forall k | k in s :: k in t
  }

  lemma {:induction false} PathStaysLeft<L>(g: Graph<L>, left: seq<NodeId>, p: seq<NodeId>, k: nat)
    requires ChildrenFirst(g, left) && Path(g, p) && k < |left| && p[0] == left[k]
    ensures |p| > 1 ==> p[|p| - 1] in left[..k]
    decreases |p|
  {
    if |p| > 1 {
      var q := p[..|p| - 1];
      assert Path(g, q) by {
        forall i | 0 < i < |q| ensures IsChild(g, q[i - 1], q[i]) { assert IsChild(g, p[i - 1], p[i]); }
      }
      PathStaysLeft(g, left, q, k);
      var last := q[|q| - 1];
      assert IsChild(g, p[|p| - 2], p[|p| - 1]);
      assert last in left[..k + 1];
      var j :| 0 <= j <= k && left[j] == last;
      assert ChildrenIn(g, left[j], left[..j]);
      assert left[..j] <= left[..k];
    }
  }

  /** No cycle passes through nodes that can be ordered with children first. */
  lemma OrderedHaveNoCycle<L>(g: Graph<L>, left: seq<NodeId>, n: NodeId)
    requires ChildrenFirst(g, left) && Distinct(left) && n in left
    ensures !OnCycle(g, n)
  {
    if OnCycle(g, n) {
      var p :| IsCycle(g, p, n);
      var k :| 0 <= k < |left| && left[k] == n;
      PathStaysLeft(g, left, p, k);
    }
  }

  /** What is listed with children first, and contains the root, is all that the root reaches, and has no cycle. */
  lemma NoCycleBelow<L>(g: Graph<L>, root: NodeId, left: seq<NodeId>)
    requires ChildrenFirst(g, left) && Distinct(left) && root in left
    ensures forall k | Reaches(g, root, k) :: k in left
    ensures !ReachesCycle(g, root)
  {
    var all := set k | k in left;
    forall n, c | n in all && IsChild(g, n, c)
      ensures c in all
    {
      var i :| 0 <= i < |left| && left[i] == n;
      assert ChildrenIn(g, left[i], left[..i]);
    }
    forall k | Reaches(g, root, k)
      ensures k in left
    {
      var p :| Joins(g, p, root, k);
      ReachedInside(g, all, root, p);
    }
    forall k | k in left ensures !OnCycle(g, k) { OrderedHaveNoCycle(g, left, k); }
  }

  lemma RankFallsStrictly<L>(g: Graph<L>, rank: map<NodeId, int>, p: seq<NodeId>)
    requires Ranked(g, rank) && Path(g, p) && |p| > 1
    ensures p[0] in rank && p[|p| - 1] in rank && rank[p[|p| - 1]] < rank[p[0]]
  {
    var q := p[1..];
    assert IsChild(g, p[0], p[1]) && RankOk(g, rank, p[0]);
    forall i | 0 < i < |q| ensures IsChild(g, q[i - 1], q[i]) { assert IsChild(g, p[i], p[i + 1]); }
    RankFalls(g, rank, q);
  }

  /** An acyclic graph has no cycle to reach. */
  lemma RankedHasNoCycle<L>(g: Graph<L>, rank: map<NodeId, int>, root: NodeId)
    requires Ranked(g, rank)
    ensures !ReachesCycle(g, root)
  {
    forall n, p: seq<NodeId> | |p| > 1 && Path(g, p)
      ensures !IsCycle(g, p, n)
    {
      RankFallsStrictly(g, rank, p);
    }
  }

  /** The position of each node in a list */
  function Order(s: seq<NodeId>): map<NodeId, int> {
    if s == [] then map[] else Order(s[..|s| - 1])[s[|s| - 1] := |s| - 1]
  }

  lemma {:induction false} OrderIs(s: seq<NodeId>)
    requires Distinct(s)
    ensures forall k :: k in Order(s) <==> k in s
    ensures forall i | 0 <= i < |s| :: s[i] in Order(s) && Order(s)[s[i]] == i
  {
    if s != [] {
      var t, last := s[..|s| - 1], s[|s| - 1];
      OrderIs(t);
      forall i | 0 <= i < |s| ensures s[i] in Order(s) && Order(s)[s[i]] == i {
        if i < |t| { assert t[i] == s[i] && s[i] != last; }
      }
      forall k ensures k in Order(s) <==> k in s { assert k in s <==> k in t || k == last; }
    }
  }

  /** A list with children first ranks its nodes. */
  lemma OrderRanks<L>(g: Graph<L>, left: seq<NodeId>)
    requires ChildrenFirst(g, left) && Distinct(left) && forall k | k in left :: k in g
    ensures RankedPart(g, Order(left)) && forall k :: k in Order(left) <==> k in left
  {
    OrderIs(left);
    forall n | n in Order(left)
      ensures RankOk(g, Order(left), n)
    {
      var i :| 0 <= i < |left| && left[i] == n;
      assert ChildrenIn(g, left[i], left[..i]);
      var kids := g[n].children;
      forall j | 0 <= j < |kids| && kids[j].To?
        ensures kids[j].id in left && Order(left)[kids[j].id] < i
      {
        assert kids[j] == To(kids[j].id) && IsChild(g, n, kids[j].id);
        var c :| 0 <= c < i && left[c] == kids[j].id;
      }
    }
  }

  // ---- the nodes that are being visited ----

  /** The stack of open visits is a path from the root. */
  ghost predicate IsStack<L>(g: Graph<L>, root: NodeId, stack: seq<NodeId>) {
    stack != [] ==> Path(g, stack) && stack[0] == root
  }

  /** A node that a traversal comes to: the root, or a child of the node that is being visited */
  ghost predicate IsNext<L>(g: Graph<L>, root: NodeId, stack: seq<NodeId>, n: NodeId) {
    if stack == [] then n == root else IsChild(g, stack[|stack| - 1], n)
  }

  lemma Pushed<L>(g: Graph<L>, root: NodeId, stack: seq<NodeId>, n: NodeId)
    requires IsStack(g, root, stack) && IsNext(g, root, stack, n) && n in g
    ensures IsStack(g, root, stack + [n]) && Reaches(g, root, n)
  {
    var s := stack + [n];
    forall i | 0 < i < |s| ensures IsChild(g, s[i - 1], s[i]) {
      if i < |stack| { assert IsChild(g, stack[i - 1], stack[i]); }
    }
    assert Joins(g, s, root, n);
  }

  lemma Popped<L>(g: Graph<L>, root: NodeId, stack: seq<NodeId>)
    requires IsStack(g, root, stack) && stack != []
    ensures IsStack(g, root, stack[..|stack| - 1])
  {
    var s := stack[..|stack| - 1];
    forall i | 0 < i < |s| ensures IsChild(g, s[i - 1], s[i]) { assert IsChild(g, stack[i - 1], stack[i]); }
  }

  lemma FoundCycle<L>(g: Graph<L>, root: NodeId, stack: seq<NodeId>, n: NodeId)
    requires IsStack(g, root, stack) && IsNext(g, root, stack, n) && n in stack && n in g
    ensures ReachesCycle(g, root)
  {
    var k :| 0 <= k < |stack| && stack[k] == n;
    var to, around := stack[..k + 1], stack[k..] + [n];
    assert Joins(g, to, root, n) by {
      forall i | 0 < i < |to| ensures IsChild(g, to[i - 1], to[i]) { assert IsChild(g, stack[i - 1], stack[i]); }
    }
    assert IsCycle(g, around, n) by {
      forall i | 0 < i < |around| ensures IsChild(g, around[i - 1], around[i]) {
        if i < |around| - 1 { assert IsChild(g, stack[k + i - 1], stack[k + i]); }
      }
    }
    assert Reaches(g, root, n) && OnCycle(g, n);
  }

  /** What it means to append a node to a list */
  lemma OneMore(s: seq<NodeId>, n: NodeId)
    ensures forall k :: k in s + [n] <==> k in s || k == n
    ensures Distinct(s) && n !in s ==> Distinct(s + [n])
  {
  }

  lemma ChildrenFirstMore<L>(g: Graph<L>, left: seq<NodeId>, n: NodeId)
    requires ChildrenFirst(g, left) && forall c | IsChild(g, n, c) :: c in left
    ensures ChildrenFirst(g, left + [n])
  {
    var more := left + [n];
    forall i | 0 <= i < |more| ensures ChildrenIn(g, more[i], more[..i]) {
      assert more[..i] == left[..i];
      if i < |left| { assert ChildrenIn(g, left[i], left[..i]); } else { assert left[..i] == left; }
    }
  }
}
