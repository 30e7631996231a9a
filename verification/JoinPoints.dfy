/** SetupJoinPoints of ir/visitor.cpp: how many edges lead to each node that the root reaches */
module JoinPoints {
  import opened IrGraph

  /** The child pointer at index `at` of node `from` */
  datatype Edge = Edge(from: NodeId, at: int)

  ghost predicate IsEdge<L>(g: Graph<L>, e: Edge) {
    e.from in g && 0 <= e.at < |g[e.from].children| && g[e.from].children[e.at].To?
  }

  ghost predicate LeadsTo<L>(g: Graph<L>, e: Edge, n: NodeId) {
    e.from in g && 0 <= e.at < |g[e.from].children| && g[e.from].children[e.at] == To(n)
  }

  ghost function Into<L>(g: Graph<L>, edges: set<Edge>, n: NodeId): set<Edge> {
    set e | e in edges && LeadsTo(g, e, n)
  }

  ghost function Reached<L>(g: Graph<L>, root: NodeId): set<NodeId> {
    set k | k in g && Reaches(g, root, k)
  }

  /** The edges between nodes that the root reaches */
  ghost function Edges<L>(g: Graph<L>, root: NodeId): set<Edge> {
    set p, i | p in Reached(g, root) && 0 <= i < |g[p].children| && g[p].children[i].To? :: Edge(p, i)
  }

  /** The number of edges that lead to a node */
  ghost function InDegree<L>(g: Graph<L>, root: NodeId, n: NodeId): nat {
    |Into(g, Edges(g, root), n)|
  }

  /** All edges from node n are among the given ones. */
  ghost predicate Spread<L>(g: Graph<L>, edges: set<Edge>, n: NodeId)
    requires n in g
  {
    forall i | 0 <= i < |g[n].children| && g[n].children[i].To? :: Edge(n, i) in edges
  }

  lemma IntoGrows<L>(g: Graph<L>, edges: set<Edge>, e: Edge, n: NodeId)
    requires e !in edges
    ensures |Into(g, edges + {e}, n)| == |Into(g, edges, n)| + if LeadsTo(g, e, n) then 1 else 0
  {
    assert Into(g, edges + {e}, n) == Into(g, edges, n) + if LeadsTo(g, e, n) then {e} else {};
  }

  function CountOf(counts: map<NodeId, int>, n: NodeId): int {
    if n in counts then counts[n] else 0
  }

  /** Nodes are counted once for each edge that was followed; the root, from which no edge was followed yet, is
      counted once more. */
  ghost predicate CountsOk<L>(g: Graph<L>, root: NodeId, counts: map<NodeId, int>, followed: set<Edge>) {
    && (forall n :: CountOf(counts, n) == |Into(g, followed, n)| + if n == root then 1 else 0)
    && (forall n | n in counts :: n in g && counts[n] > 0 && Reaches(g, root, n))
    && (forall e | e in followed :: IsEdge(g, e) && e.from in counts)
  }

  /** What a visit adds: nodes from which all edges are followed, and edges that start at them, at node n or are
      `more` */
  ghost predicate Followed<L>(g: Graph<L>, counts0: map<NodeId, int>, followed0: set<Edge>, counts: map<NodeId, int>,
                              followed: set<Edge>, n: NodeId, more: set<Edge>) {
    && counts0.Keys <= counts.Keys && followed0 + more <= followed
    && (forall k | k in counts && k !in counts0 :: k in g && Spread(g, followed, k))
    && (forall e | e in followed && e !in followed0 && e !in more :: e.from == n || e.from !in counts0)
  }

  lemma Counted<L>(g: Graph<L>, root: NodeId, counts: map<NodeId, int>, followed: set<Edge>, e: Edge, n: NodeId)
    requires Closed(g) && CountsOk(g, root, counts, followed)
    requires LeadsTo(g, e, n) && e.from in counts && e !in followed
    ensures CountsOk(g, root, counts[n := CountOf(counts, n) + 1], followed + {e})
  {
    var counts' := counts[n := CountOf(counts, n) + 1];
    assert Has(g, g[e.from].children[e.at]);
    assert IsChild(g, e.from, n);
    ReachesChild(g, root, e.from, n);
    forall k
      ensures CountOf(counts', k) == |Into(g, followed + {e}, k)| + if k == root then 1 else 0
    {
      IntoGrows(g, followed, e, k);
      assert CountOf(counts, k) == |Into(g, followed, k)| + if k == root then 1 else 0;
    }
  }

  /** Following an edge to a new node n, and what the visit of n then adds */
  lemma FollowedTo<L>(g: Graph<L>, root: NodeId, counts0: map<NodeId, int>, followed0: set<Edge>, e: Edge, n: NodeId,
                      counts: map<NodeId, int>, followed: set<Edge>)
    requires CountsOk(g, root, counts0, followed0) && e.from in counts0 && n !in counts0 && n in g
    requires Followed(g, counts0[n := 1], followed0 + {e}, counts, followed, n, {}) && Spread(g, followed, n)
    ensures Followed(g, counts0, followed0, counts, followed, e.from, {e})
    ensures forall f | f in followed && f !in followed0 && f.from == e.from :: f == e
  {
  }

  lemma RankedIsClosed<L>(g: Graph<L>, rank: map<NodeId, int>)
    requires Ranked(g, rank)
    ensures Closed(g)
  {
    forall n, i | n in g && 0 <= i < |g[n].children|
      ensures Has(g, g[n].children[i])
    {
      assert RankOk(g, rank, n);
    }
  }

  class SetupJoinPoints<L> {
    const g: Graph<L>
    const root: NodeId
    ghost const rank: map<NodeId, int>
    var counts: map<NodeId, int>
    ghost var followed: set<Edge>

    constructor (g: Graph<L>, root: NodeId, ghost rank: map<NodeId, int>)
      requires Ranked(g, rank) && root in g
      ensures this.g == g && this.root == root && this.rank == rank && counts == map[] && followed == {}
    {
      this.g, this.root, this.rank, counts, followed := g, root, rank, map[], {};
    }

    ghost predicate Valid()
      reads this
    {
      Ranked(g, rank) && root in g && CountsOk(g, root, counts, followed)
    }

    /** Counts a node that an edge was followed to, and visits its children when it is counted for the first time. */
    method ApplyVisitor(n: NodeId, ghost e: Edge)
      requires Valid() && LeadsTo(g, e, n) && e.from in counts && e !in followed
      modifies this
      ensures Valid() && n in counts
      ensures Followed(g, old(counts), old(followed), counts, followed, e.from, {e})
      ensures forall f | f in followed && f !in old(followed) && f.from == e.from :: f == e
      decreases if n in rank then rank[n] else 0, 1
    {
      RankedIsClosed(g, rank);
      Counted(g, root, counts, followed, e, n);
      counts := counts[n := CountOf(counts, n) + 1];
      followed := followed + {e};
      if counts[n] == 1 {
        VisitChildren(n);
        FollowedTo(g, root, old(counts), old(followed), e, n, counts, followed);
      }
    }

    method VisitChildren(n: NodeId)
      requires Valid() && n in counts && forall e | e in followed :: e.from != n
      modifies this
      ensures Valid() && n in g && Spread(g, followed, n)
      ensures Followed(g, old(counts), old(followed), counts, followed, n, {})
      decreases if n in rank then rank[n] else 0, 0
    {
      var children := g[n].children;
      for i := 0 to |children|
        invariant Valid() && Followed(g, old(counts), old(followed), counts, followed, n, {})
        invariant forall j | 0 <= j < i && children[j].To? :: Edge(n, j) in followed
        invariant forall e | e in followed && e.from == n :: e.at < i
      {
        if children[i].To? {
          assert RankOk(g, rank, n) && LeadsTo(g, Edge(n, i), children[i].id);
          ApplyVisitor(children[i].id, Edge(n, i));
        }
      }
    }

    /** After the traversal every node that the root reaches is counted once for each edge that leads to it, and the
        root is counted once more. */
    method Apply()
      requires Valid() || (Ranked(g, rank) && root in g && counts == map[] && followed == {})
      modifies this
      ensures counts.Keys == Reached(g, root)
      ensures forall n | n in counts :: counts[n] == InDegree(g, root, n) + if n == root then 1 else 0
    {
      counts, followed := map[root := 1], {};
      RankedIsClosed(g, rank);
      ReachesSelf(g, root);
      assert forall n :: Into(g, followed, n) == {};
      VisitChildren(root);
      AllCounted(g, root, counts, followed);
    }
  }

  lemma AllCounted<L>(g: Graph<L>, root: NodeId, counts: map<NodeId, int>, followed: set<Edge>)
    requires Closed(g) && CountsOk(g, root, counts, followed) && root in counts
    requires forall k | k in counts :: k in g && Spread(g, followed, k)
    ensures counts.Keys == Reached(g, root) && followed == Edges(g, root)
  {
    forall n, c | n in counts.Keys && IsChild(g, n, c)
      ensures c in counts.Keys
    {
      var i :| 0 <= i < |g[n].children| && g[n].children[i] == To(c);
      assert Edge(n, i) in Into(g, followed, c);
    }
    forall k | Reaches(g, root, k)
      ensures k in counts
    {
      var p :| Joins(g, p, root, k);
      ReachedInside(g, counts.Keys, root, p);
    }
    var reached := Reached(g, root);
    assert forall k :: k in reached <==> k in counts.Keys;
    assert counts.Keys == reached;
    forall e | e in followed ensures e in Edges(g, root) { assert IsEdge(g, e); }
    forall e | e in Edges(g, root)
      ensures e in followed
    {
      assert Spread(g, followed, e.from);
    }
  }
}
