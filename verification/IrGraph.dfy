/** IR graphs: nodes that share children, as ids in a finite store. A child pointer may be null. */
module IrGraph {
  type NodeId = int

  datatype Pointer = Null | To(id: NodeId)

  /** The kind and the fields of a node other than its children are its tag. */
  datatype Node<L> = Node(tag: L, children: seq<Pointer>)

  type Graph<L> = map<NodeId, Node<L>>

  /** What a graph looks like from one of its nodes when sharing is forgotten */
  datatype Tree<L> = Absent | Branch(tag: L, kids: seq<Tree<L>>)

  predicate Has<L>(g: Graph<L>, n: Pointer) {
    n.To? ==> n.id in g
  }

  /** Every child pointer is null or leads to a node of the graph. */
  ghost predicate Closed<L>(g: Graph<L>) {
    forall n, i | n in g && 0 <= i < |g[n].children| :: Has(g, g[n].children[i])
  }

  ghost predicate IsChild<L>(g: Graph<L>, n: NodeId, c: NodeId) {
    n in g && To(c) in g[n].children
  }

  // ---- paths ----

  ghost predicate Path<L>(g: Graph<L>, p: seq<NodeId>) {
    && p != []
    && (forall i | 0 <= i < |p| :: p[i] in g)
    && (forall i | 0 < i < |p| :: IsChild(g, p[i - 1], p[i]))
  }

  ghost predicate Joins<L>(g: Graph<L>, p: seq<NodeId>, a: NodeId, b: NodeId) {
    Path(g, p) && p[0] == a && p[|p| - 1] == b
  }

  ghost predicate Reaches<L>(g: Graph<L>, a: NodeId, b: NodeId) {
    exists p :: Joins(g, p, a, b)
  }

  lemma ReachesSelf<L>(g: Graph<L>, a: NodeId)
    requires a in g
    ensures Reaches(g, a, a)
  {
    assert Joins(g, [a], a, a);
  }

  lemma ReachesChild<L>(g: Graph<L>, a: NodeId, b: NodeId, c: NodeId)
    requires Reaches(g, a, b) && IsChild(g, b, c) && c in g
    ensures Reaches(g, a, c)
  {
    var p :| Joins(g, p, a, b);
    assert Joins(g, p + [c], a, c);
  }

  /** A set that holds `a` and the children of all its members holds all that `a` reaches. */
  lemma {:induction false} ReachedInside<L>(g: Graph<L>, s: set<NodeId>, a: NodeId, p: seq<NodeId>)
    requires a in s && Path(g, p) && p[0] == a
    requires forall n, c | n in s && IsChild(g, n, c) :: c in s
    ensures p[|p| - 1] in s
    decreases |p|
  {
    if |p| > 1 {
      var q := p[..|p| - 1];
      assert Path(g, q) by {
        forall i | 0 < i < |q| ensures IsChild(g, q[i - 1], q[i]) { assert IsChild(g, p[i - 1], p[i]); }
      }
      ReachedInside(g, s, a, q);
      assert IsChild(g, p[|p| - 2], p[|p| - 1]);
    }
  }

  // ---- acyclic graphs ----

  /** Child pointers lead to nodes of the graph of a rank below the bound. */
  ghost predicate KidsBelow<L>(g: Graph<L>, rank: map<NodeId, int>, kids: seq<Pointer>, bound: int) {
    forall i | 0 <= i < |kids| && kids[i].To? ::
      kids[i].id in g && kids[i].id in rank && rank[kids[i].id] < bound
  }

  /** A graph is acyclic when its nodes can be ranked above their children. */
  ghost predicate RankOk<L>(g: Graph<L>, rank: map<NodeId, int>, n: NodeId)
    requires n in g
  {
    n in rank && rank[n] >= 0 && KidsBelow(g, rank, g[n].children, rank[n])
  }

  ghost predicate Ranked<L>(g: Graph<L>, rank: map<NodeId, int>) {
    forall n | n in g :: RankOk(g, rank, n)
  }

  lemma {:induction false} RankFalls<L>(g: Graph<L>, rank: map<NodeId, int>, p: seq<NodeId>)
    requires Ranked(g, rank) && Path(g, p)
    ensures p[0] in rank && p[|p| - 1] in rank && rank[p[|p| - 1]] <= rank[p[0]]
    decreases |p|
  {
    assert RankOk(g, rank, p[0]);
    if |p| > 1 {
      assert IsChild(g, p[0], p[1]);
      forall i | 0 < i < |p[1..]| ensures IsChild(g, p[1..][i - 1], p[1..][i]) { assert IsChild(g, p[i], p[i + 1]); }
      RankFalls(g, rank, p[1..]);
    }
  }

  /** A rank may cover a part of a graph only: the part is acyclic, and holds the children of its nodes. */
  ghost predicate RankedPart<L>(g: Graph<L>, rank: map<NodeId, int>) {
    forall n | n in rank :: n in g && RankOk(g, rank, n)
  }

  ghost predicate InPart(rank: map<NodeId, int>, p: Pointer) {
    p.To? ==> p.id in rank
  }

  ghost predicate AllInPart(rank: map<NodeId, int>, ps: seq<Pointer>) {
    forall i | 0 <= i < |ps| :: InPart(rank, ps[i])
  }

  function Unfold<L>(g: Graph<L>, ghost rank: map<NodeId, int>, n: Pointer): Tree<L>
    requires RankedPart(g, rank) && InPart(rank, n)
    decreases if n.To? then rank[n.id] + 1 else 0
  {
    if n == Null then Absent
    else
      assert RankOk(g, rank, n.id);
      var kids := g[n.id].children;
      Branch(g[n.id].tag, seq(|kids|, i requires 0 <= i < |kids| => Unfold(g, rank, kids[i])))
  }

  function UnfoldAll<L>(g: Graph<L>, ghost rank: map<NodeId, int>, kids: seq<Pointer>): (r: seq<Tree<L>>)
    requires RankedPart(g, rank) && AllInPart(rank, kids)
    ensures |r| == |kids| && forall i | 0 <= i < |kids| :: r[i] == Unfold(g, rank, kids[i])
  {
    seq(|kids|, i requires 0 <= i < |kids| => Unfold(g, rank, kids[i]))
  }

  /** The second graph has the nodes of the first one, and may have more. */
  ghost predicate Extends<L>(g: Graph<L>, g': Graph<L>) {
    forall n | n in g :: n in g' && g'[n] == g[n]
  }

  /** What is added to a graph, and how it is ranked, does not change what its nodes look like. */
  lemma {:induction false} UnfoldFrame<L>(g: Graph<L>, rank: map<NodeId, int>, g': Graph<L>, rank': map<NodeId, int>,
                                          n: Pointer)
    requires RankedPart(g, rank) && RankedPart(g', rank') && InPart(rank, n) && InPart(rank', n)
    requires forall k | k in rank && k in g :: k in g' && g'[k] == g[k]
    ensures Unfold(g, rank, n) == Unfold(g', rank', n)
    decreases if n.To? then rank[n.id] + 1 else 0
  {
    if n.To? {
      var kids := g[n.id].children;
      assert RankOk(g, rank, n.id) && RankOk(g', rank', n.id);
      forall i | 0 <= i < |kids|
        ensures Unfold(g, rank, kids[i]) == Unfold(g', rank', kids[i])
      {
        UnfoldFrame(g, rank, g', rank', kids[i]);
      }
    }
  }

  lemma UnfoldAllFrame<L>(g: Graph<L>, rank: map<NodeId, int>, g': Graph<L>, rank': map<NodeId, int>,
                          kids: seq<Pointer>)
    requires RankedPart(g, rank) && RankedPart(g', rank') && AllInPart(rank, kids) && AllInPart(rank', kids)
    requires forall k | k in rank && k in g :: k in g' && g'[k] == g[k]
    ensures UnfoldAll(g, rank, kids) == UnfoldAll(g', rank', kids)
  {
    forall i | 0 <= i < |kids| ensures Unfold(g, rank, kids[i]) == Unfold(g', rank', kids[i]) {
      UnfoldFrame(g, rank, g', rank', kids[i]);
    }
  }
}
