/** The state of a traversal by a Modifier (ir/visitor.cpp): what holds of it, and what each step keeps */
module Memos {
  import opened IrGraph
  import opened Cycles
  import opened TreeRewriting

  // ---- all nodes there are ----

  /** All nodes there are, the id that the next one gets, and a rank for every node that a visit has resulted in or that
      postorder has made; all ranks are below `top`. */
  datatype Pool<L> = Pool(store: Graph<L>, next: NodeId, rank: map<NodeId, int>, top: int)

  ghost predicate PoolOk<L>(original: Graph<L>, pool: Pool<L>) {
    && Extends(original, pool.store) && RankedPart(pool.store, pool.rank) && 0 <= pool.top
    && (forall k | k in pool.rank :: pool.rank[k] < pool.top)
    && (forall k | k in pool.store :: k < pool.next)
  }

  /** Nothing that was there is changed, and new nodes have ids that were not given out before. */
  ghost predicate PoolGrew<L>(pool: Pool<L>, pool': Pool<L>) {
    && Extends(pool.store, pool'.store) && pool.next <= pool'.next && pool.top <= pool'.top
    && (forall k | k in pool.rank :: k in pool'.rank && pool'.rank[k] == pool.rank[k])
    && (forall k | k in pool'.store && k !in pool.store :: pool.next <= k < pool'.next)
  }

  /** Only new nodes were ranked. */
  ghost predicate OnlyNewRanked<L>(pool: Pool<L>, pool': Pool<L>) {
    forall k | k in pool'.rank && k !in pool.rank :: k !in pool.store
  }

  /** A new node whose children are ranked */
  function Added<L>(pool: Pool<L>, id: NodeId, node: Node<L>): Pool<L> {
    Pool(pool.store[id := node], pool.next, pool.rank[id := pool.top], pool.top + 1)
  }

  lemma AddedOk<L>(original: Graph<L>, pool: Pool<L>, id: NodeId, node: Node<L>)
    requires PoolOk(original, pool) && AllInPart(pool.rank, node.children) && id < pool.next
    requires id in pool.store ==> node == pool.store[id] && id !in pool.rank
    ensures PoolOk(original, Added(pool, id, node))
    ensures Extends(pool.store, Added(pool, id, node).store)
  {
    var pool' := Added(pool, id, node);
    forall k | k in pool'.rank
      ensures RankOk(pool'.store, pool'.rank, k)
    {
      if k in pool.rank { assert RankOk(pool.store, pool.rank, k); }
    }
  }

  lemma PoolGrewFurther<L>(a: Pool<L>, b: Pool<L>, c: Pool<L>)
    requires PoolGrew(a, b) && PoolGrew(b, c)
    ensures PoolGrew(a, c)
    ensures OnlyNewRanked(a, b) && OnlyNewRanked(b, c) ==> OnlyNewRanked(a, c)
  {
  }

  // ---- the state of a traversal ----

  /** The state of a traversal, as its invariant sees it: the nodes, what is tracked, the nodes on which postorder was
      called in this order, the stack of open visits, and for each new result the node that it is the result of */
  datatype Memo<L> = Memo(pool: Pool<L>, visited: Visited, posted: seq<NodeId>, stack: seq<NodeId>,
                          origin: map<NodeId, NodeId>)

  /** What stays the same during a traversal */
  datatype Task<!L> = Task(original: Graph<L>, root: NodeId, post: Postorder<L>)

  ghost predicate MemoOk<L>(t: Task<L>, m: Memo<L>) {
    && Closed(t.original) && t.root in t.original && PoolOk(t.original, m.pool)
    && (forall k {:trigger EntryOk(t, m, k)} | k in m.visited :: EntryOk(t, m, k))
    && Distinct(m.posted) && ChildrenFirst(t.original, m.posted) && IsStack(t.original, t.root, m.stack)
    && ListsOk(t, m)
  }

  /** The lists agree with what is tracked. */
  ghost predicate ListsOk<L>(t: Task<L>, m: Memo<L>) {
    && (forall k :: k in m.posted <==> k in t.original && DoneIn(m.visited, k))
    && (forall k :: k in m.stack <==> k in m.visited && m.visited[k].inProgress)
    && (forall k | k in m.pool.rank && k in t.original :: DoneIn(m.visited, k))
  }

  /** What holds of a tracked node */
  ghost predicate EntryOk<L>(t: Task<L>, m: Memo<L>, k: NodeId)
    requires k in m.visited && RankedPart(m.pool.store, m.pool.rank)
  {
    && m.visited[k].visitOnce
    && (k in t.original ==> Reaches(t.original, t.root, k))
    && if m.visited[k].inProgress then k in t.original && m.visited[k].result == To(k) else Finished(t, m, k)
  }

  ghost predicate Finished<L>(t: Task<L>, m: Memo<L>, k: NodeId)
    requires k in m.visited && RankedPart(m.pool.store, m.pool.rank)
  {
    var r := m.visited[k].result;
    && r.To? && r.id in m.pool.rank && DoneIn(m.visited, r.id) && m.visited[r.id].result == r
    && (if k in t.original then Equation(t.original, m.pool.store, m.pool.rank, m.visited, t.post, k) else r == To(k))
    && (k in t.original && r != To(k) ==> r.id in m.origin && m.origin[r.id] == k)
  }

  /** What a traversal may come to: null, a node that is done, or the next node of the original graph */
  ghost predicate Visitable<L>(t: Task<L>, m: Memo<L>, p: Pointer) {
    p.To? && !DoneIn(m.visited, p.id) ==> p.id in t.original && IsNext(t.original, t.root, m.stack, p.id)
  }

  /** Nothing that was there is changed or forgotten, and every visit that was begun since is ended. */
  ghost predicate Grown<L>(m: Memo<L>, m': Memo<L>) {
    && PoolGrew(m.pool, m'.pool) && m'.stack == m.stack
    && (forall k | k in m.visited :: k in m'.visited && m'.visited[k] == m.visited[k])
    && (forall k | k in m'.visited && k !in m.visited :: !m'.visited[k].inProgress)
  }

  /** The same, except that the visit of node n, the last one begun, is ended too. Its clone has the given id. */
  ghost predicate EndGrown<L>(m: Memo<L>, m': Memo<L>, n: NodeId, id: NodeId) {
    && PoolGrew(m.pool.(next := id), m'.pool) && m.pool.next <= m'.pool.next && m.stack == m'.stack + [n]
    && (forall k | k in m.visited && k != n :: k in m'.visited && m'.visited[k] == m.visited[k])
    && (forall k | k in m'.visited && (k == n || k !in m.visited) :: !m'.visited[k].inProgress)
  }

  // ---- the beginning of a visit ----

  function Started<L>(m: Memo<L>, n: NodeId): Memo<L> {
    m.(pool := m.pool.(next := m.pool.next + 1), visited := m.visited[n := VisitInfo(true, true, To(n))],
       stack := m.stack + [n])
  }

  lemma StartKeeps<L>(t: Task<L>, m: Memo<L>, n: NodeId)
    requires MemoOk(t, m) && Visitable(t, m, To(n)) && n !in m.visited
    ensures n in t.original && n in m.pool.store && m.pool.store[n] == t.original[n]
    ensures MemoOk(t, Started(m, n))
  {
    var m' := Started(m, n);
    Pushed(t.original, t.root, m.stack, n);
    OneMore(m.stack, n);
    forall k | k in m'.visited
      ensures EntryOk(t, m', k)
    {
      if k != n { EntryKept(t, m, m', k); }
    }
  }

  /** Entries of nodes that were tracked before are as good as before. */
  lemma EntryKept<L>(t: Task<L>, m: Memo<L>, m': Memo<L>, k: NodeId)
    requires Closed(t.original) && RankedPart(m.pool.store, m.pool.rank) && RankedPart(m'.pool.store, m'.pool.rank)
    requires k in m.visited && EntryOk(t, m, k) && k in m'.visited && m'.visited[k] == m.visited[k]
    requires Extends(m.pool.store, m'.pool.store) && forall j | j in m.pool.rank :: j in m'.pool.rank
    requires forall j | DoneIn(m.visited, j) :: j in m'.visited && m'.visited[j] == m.visited[j]
    requires forall j | j in m.origin && j in m.pool.rank :: j in m'.origin && m'.origin[j] == m.origin[j]
    ensures EntryOk(t, m', k)
  {
    if !m.visited[k].inProgress && k in t.original {
      EquationKept(t.original, m.pool.store, m.pool.rank, m.visited, m'.pool.store, m'.pool.rank, m'.visited, t.post,
                   k);
    }
  }

  /** A node whose visit is neither done nor in progress is not tracked. */
  lemma NotBegun<L>(t: Task<L>, m: Memo<L>, n: NodeId)
    requires MemoOk(t, m) && !DoneIn(m.visited, n) && !(n in m.visited && m.visited[n].inProgress)
    ensures n !in m.visited
  {
    assert n in m.visited ==> EntryOk(t, m, n);
  }

  // ---- the children ----

  /** What is found in the place of child p: p itself, or its result when that is known */
  ghost predicate MaybeForwarded(visited: Visited, p: Pointer, q: Pointer) {
    q == p || (p.To? && DoneIn(visited, p.id) && q == ResultIn(visited, p))
  }

  /** The first i children are replaced by their results, and the others may have been. */
  ghost predicate KidsUpTo(visited: Visited, from: seq<Pointer>, i: nat, kids: seq<Pointer>) {
    && |kids| == |from|
    && (forall j | 0 <= j < i && j < |kids| ::
          (from[j].To? ==> DoneIn(visited, from[j].id)) && kids[j] == ResultIn(visited, from[j]))
    && (forall j | i <= j < |kids| :: MaybeForwarded(visited, from[j], kids[j]))
  }

  lemma KidVisited<L>(m: Memo<L>, m': Memo<L>, from: seq<Pointer>, i: nat, kids: seq<Pointer>, kid: Pointer)
    requires Grown(m, m') && KidsUpTo(m.visited, from, i, kids) && i < |kids|
    requires kid == ResultIn(m'.visited, kids[i]) && (kids[i].To? ==> DoneIn(m'.visited, kids[i].id))
    requires from[i] != kids[i] ==>
               kids[i].To? && DoneIn(m.visited, kids[i].id) && ResultIn(m.visited, kids[i]) == kids[i]
    ensures KidsUpTo(m'.visited, from, i + 1, kids[i := kid])
  {
  }

  lemma GrownFurther<L>(m0: Memo<L>, m: Memo<L>, m': Memo<L>)
    requires Grown(m0, m) && Grown(m, m')
    ensures Grown(m0, m')
  {
    PoolGrewFurther(m0.pool, m.pool, m'.pool);
  }

  lemma ChildVisitable<L>(t: Task<L>, m: Memo<L>, n: NodeId, i: nat, q: Pointer)
    requires MemoOk(t, m) && n in t.original && i < |t.original[n].children|
    requires m.stack != [] && m.stack[|m.stack| - 1] == n
    requires MaybeForwarded(m.visited, t.original[n].children[i], q)
    ensures Visitable(t, m, q)
    ensures t.original[n].children[i] != q ==> q.To? && DoneIn(m.visited, q.id) && ResultIn(m.visited, q) == q
  {
    var p := t.original[n].children[i];
    assert Has(t.original, p);
    if q != p { assert EntryOk(t, m, p.id); }
    if p.To? { assert IsChild(t.original, n, p.id); }
  }

  ghost predicate KidsDone<L>(t: Task<L>, m: Memo<L>, n: NodeId, kids: seq<Pointer>)
    requires n in t.original
  {
    AllDone(m.visited, t.original[n].children) && kids == ResultsIn(m.visited, t.original[n].children)
  }

  lemma KidsOk<L>(t: Task<L>, m: Memo<L>, n: NodeId, kids: seq<Pointer>)
    requires MemoOk(t, m) && n in t.original && KidsDone(t, m, n, kids)
    ensures AllInPart(m.pool.rank, kids)
  {
    var children := t.original[n].children;
    forall i | 0 <= i < |kids| ensures InPart(m.pool.rank, kids[i]) {
      if children[i].To? { assert EntryOk(t, m, children[i].id); }
    }
  }

  // ---- the end of a visit ----

  /** Nodes that postorder makes keep the state as good as it was. */
  lemma PlacedKeeps<L>(t: Task<L>, m: Memo<L>, pool: Pool<L>)
    requires MemoOk(t, m) && PoolOk(t.original, pool) && PoolGrew(m.pool, pool) && OnlyNewRanked(m.pool, pool)
    ensures MemoOk(t, m.(pool := pool))
  {
    var m' := m.(pool := pool);
    forall k | k in m'.visited ensures EntryOk(t, m', k) { EntryKept(t, m, m', k); }
    forall k | k in pool.rank && k in t.original
      ensures DoneIn(m.visited, k)
    {
      assert k in m.pool.store;
    }
  }

  /** Node n gets its result, and what is new is added. */
  function Ended<L(==)>(m: Memo<L>, n: NodeId, copy: Node<L>, id: NodeId): Memo<L>
    requires n in m.pool.store && m.stack != []
  {
    var posted, stack := m.posted + [n], m.stack[..|m.stack| - 1];
    if copy == m.pool.store[n] then
      Memo(Added(m.pool, n, copy), m.visited[n := VisitInfo(false, true, To(n))], posted, stack, m.origin)
    else
      Memo(Added(m.pool, id, copy),
           m.visited[n := VisitInfo(false, true, To(id))][id := VisitInfo(false, true, To(id))],
           posted, stack, m.origin[id := n])
  }

  /** What postorder leaves as the clone of node n */
  ghost predicate IsCopy<L>(t: Task<L>, pool: Pool<L>, n: NodeId, kids: seq<Pointer>, copy: Node<L>)
    requires n in t.original && RankedPart(pool.store, pool.rank) && AllInPart(pool.rank, kids)
  {
    IsEdited(t.original, pool.store, kids, t.post(t.original[n].tag, UnfoldAll(pool.store, pool.rank, kids)), copy)
  }

  /** The visit of node n is the last one that was begun. */
  ghost predicate Begun<L>(m: Memo<L>, n: NodeId) {
    && n in m.visited && m.visited[n].inProgress
    && m.stack != [] && m.stack[|m.stack| - 1] == n && n !in m.stack[..|m.stack| - 1]
  }

  lemma OpenVisit<L>(t: Task<L>, m: Memo<L>, n: NodeId)
    requires MemoOk(t, m) && Begun(m, n) && n in t.original
    ensures m.visited[n] == VisitInfo(true, true, To(n)) && n in m.pool.store && n !in m.pool.rank
    ensures m.pool.store[n] == t.original[n]
  {
    assert EntryOk(t, m, n);
  }

  /** While the children of a node are visited, its visit stays the last one that was begun. */
  lemma StillBegun<L>(t: Task<L>, m0: Memo<L>, m: Memo<L>, n: NodeId)
    requires MemoOk(t, m0) && n !in m0.visited && Grown(Started(m0, n), m)
    ensures Begun(m, n) && m0.pool.next < m.pool.next && m0.pool.next !in m.pool.store
  {
    assert n in Started(m0, n).visited;
    assert m.stack[..|m.stack| - 1] == m0.stack;
  }

  lemma EndKeeps<L>(t: Task<L>, m: Memo<L>, n: NodeId, kids: seq<Pointer>, copy: Node<L>, id: NodeId)
    requires MemoOk(t, m) && Begun(m, n) && n in t.original && KidsDone(t, m, n, kids)
    requires AllInPart(m.pool.rank, kids) && AllInPart(m.pool.rank, copy.children) && IsCopy(t, m.pool, n, kids, copy)
    requires id !in m.pool.store && id < m.pool.next
    ensures n in m.pool.store && MemoOk(t, Ended(m, n, copy, id))
  {
    hide IsEdited, Equation, IsCopy, EntryOk, ChildrenFirst, IsStack;
    OpenVisit(t, m, n);
    NotTracked(t, m, id);
    var m' := Ended(m, n, copy, id);
    AddedOk(t.original, m.pool, if copy == m.pool.store[n] then n else id, copy);
    EndEquation(t, m, n, kids, copy, id, m');
    EndEntries(t, m, n, copy, id, m');
    EndLists(t, m, n, copy, id, m');
    EndPosted(t, m, n);
    Popped(t.original, t.root, m.stack);
  }

  lemma EndEntries<L>(t: Task<L>, m: Memo<L>, n: NodeId, copy: Node<L>, id: NodeId, m': Memo<L>)
    requires MemoOk(t, m) && Begun(m, n) && n in t.original && PoolOk(t.original, m'.pool)
    requires n in m.pool.store && id !in m.visited && id !in t.original && id !in m.pool.rank
    requires m' == Ended(m, n, copy, id) && PoolGrew(m.pool.(next := id), m'.pool)
    requires Equation(t.original, m'.pool.store, m'.pool.rank, m'.visited, t.post, n)
    ensures forall k {:trigger EntryOk(t, m', k)} | k in m'.visited :: EntryOk(t, m', k)
  {
    hide IsEdited, Equation;
    assert EntryOk(t, m, n);
    forall k | k in m'.visited
      ensures EntryOk(t, m', k)
    {
      if k != n && k != id { EntryKept(t, m, m', k); }
    }
  }

  /** When the visit of a node ends, its children are posted. */
  lemma EndPosted<L>(t: Task<L>, m: Memo<L>, n: NodeId)
    requires Closed(t.original) && ListsOk(t, m) && n in t.original && AllDone(m.visited, t.original[n].children)
    requires Distinct(m.posted) && ChildrenFirst(t.original, m.posted) && !DoneIn(m.visited, n)
    ensures Distinct(m.posted + [n]) && ChildrenFirst(t.original, m.posted + [n])
  {
    forall c | IsChild(t.original, n, c)
      ensures c in m.posted
    {
      var j :| 0 <= j < |t.original[n].children| && t.original[n].children[j] == To(c);
      assert Has(t.original, t.original[n].children[j]) && DoneIn(m.visited, c);
    }
    ChildrenFirstMore(t.original, m.posted, n);
    OneMore(m.posted, n);
  }

  /** An id that no node has is not tracked. */
  lemma NotTracked<L>(t: Task<L>, m: Memo<L>, id: NodeId)
    requires MemoOk(t, m) && id !in m.pool.store
    ensures id !in m.visited && id !in t.original && id !in m.pool.rank
  {
    forall k | k in m.visited ensures k in m.pool.store { assert EntryOk(t, m, k); }
  }

  lemma EndLists<L>(t: Task<L>, m: Memo<L>, n: NodeId, copy: Node<L>, id: NodeId, m': Memo<L>)
    requires ListsOk(t, m) && n in m.pool.store && n in t.original && Begun(m, n)
    requires id !in m.visited && id !in t.original && m' == Ended(m, n, copy, id)
    ensures ListsOk(t, m')
  {
    var stack := m.stack[..|m.stack| - 1];
    assert m.stack == stack + [n];
    OneMore(stack, n);
    OneMore(m.posted, n);
    assert forall k | k in t.original :: DoneIn(m'.visited, k) <==> DoneIn(m.visited, k) || k == n;
  }

  lemma EndEquation<L>(t: Task<L>, m: Memo<L>, n: NodeId, kids: seq<Pointer>, copy: Node<L>, id: NodeId, m': Memo<L>)
    requires PoolOk(t.original, m.pool) && PoolOk(t.original, m'.pool) && Closed(t.original)
    requires n in t.original && KidsDone(t, m, n, kids) && AllInPart(m.pool.rank, kids)
    requires n in m.pool.store && m.stack != [] && !DoneIn(m.visited, n) && id !in m.visited && id !in m.pool.store
    requires m' == Ended(m, n, copy, id) && IsCopy(t, m.pool, n, kids, copy)
    ensures Equation(t.original, m'.pool.store, m'.pool.rank, m'.visited, t.post, n)
  {
    hide IsEdited, PoolGrew, Unfold, Closed;
    EndCopied(t, m, n, kids, copy, id, m');
  }

  /** The copy is still what postorder makes of the original node, and is the original node if that is so as well. */
  lemma EndCopied<L>(t: Task<L>, m: Memo<L>, n: NodeId, kids: seq<Pointer>, copy: Node<L>, id: NodeId, m': Memo<L>)
    requires PoolOk(t.original, m.pool) && PoolOk(t.original, m'.pool) && Closed(t.original)
    requires n in t.original && KidsDone(t, m, n, kids) && AllInPart(m.pool.rank, kids)
    requires n in m.pool.store && m.stack != [] && !DoneIn(m.visited, n) && id !in m.visited && id !in m.pool.store
    requires m' == Ended(m, n, copy, id) && IsCopy(t, m.pool, n, kids, copy)
    ensures ResultsIn(m'.visited, t.original[n].children) == kids && AllDone(m'.visited, t.original[n].children)
    ensures AllInPart(m'.pool.rank, kids)
    ensures var edit := t.post(t.original[n].tag, UnfoldAll(m'.pool.store, m'.pool.rank, kids));
            && IsEdited(t.original, m'.pool.store, kids, edit, copy)
            && (IsEdited(t.original, m'.pool.store, kids, edit, t.original[n]) <==> copy == t.original[n])
  {
    hide IsEdited, PoolGrew, Unfold, Closed;
    var pool, pool' := m.pool, m'.pool;
    assert ResultsIn(m'.visited, t.original[n].children) == kids;
    UnfoldAllFrame(pool.store, pool.rank, pool'.store, pool'.rank, kids);
    var edit := t.post(t.original[n].tag, UnfoldAll(pool.store, pool.rank, kids));
    IsEditedKept(t.original, pool.store, pool.rank, pool'.store, kids, edit, copy);
    OriginalEditedKept(t.original, pool.store, pool.rank, pool'.store, kids, edit, n);
    if IsEdited(t.original, pool.store, kids, edit, t.original[n]) {
      EditedOnce(t.original, pool.store, kids, edit, n, copy);
    }
  }

  lemma EndGrows<L>(m: Memo<L>, n: NodeId, copy: Node<L>, id: NodeId)
    requires n in m.pool.store && n in m.visited && m.stack != [] && m.stack[|m.stack| - 1] == n
    requires id !in m.pool.store && id < m.pool.next && n !in m.pool.rank && id !in m.pool.rank
    requires copy != m.pool.store[n] ==> id !in m.visited
    ensures EndGrown(m, Ended(m, n, copy, id), n, id)
  {
    assert m.stack == m.stack[..|m.stack| - 1] + [n];
  }

  lemma VisitGrown<L>(m0: Memo<L>, m: Memo<L>, m': Memo<L>, n: NodeId)
    requires n !in m0.visited && Grown(Started(m0, n), m) && EndGrown(m, m', n, m0.pool.next)
    ensures Grown(m0, m')
  {
    var m1 := Started(m0, n);
    assert forall k | k in m0.visited :: k in m1.visited && m1.visited[k] == m0.visited[k] && k != n;
    assert m1.stack[..|m1.stack| - 1] == m0.stack && (m'.stack + [n])[..|m'.stack|] == m'.stack;
  }

  lemma PlacedGrown<L>(m0: Memo<L>, m: Memo<L>, m': Memo<L>, n: NodeId, id: NodeId)
    requires PoolGrew(m0.pool, m.pool) && m == m0.(pool := m.pool) && EndGrown(m, m', n, id) && id < m0.pool.next
    ensures EndGrown(m0, m', n, id)
  {
  }

  /** After a traversal, what was posted is what the root reaches, and there is no cycle to reach. */
  lemma VisitedAll<L>(t: Task<L>, m: Memo<L>)
    requires MemoOk(t, m) && DoneIn(m.visited, t.root)
    ensures !ReachesCycle(t.original, t.root)
    ensures forall k :: k in m.posted <==> Reaches(t.original, t.root, k)
    ensures forall k | k in t.original && DoneIn(m.visited, k) ::
              k in m.posted && Equation(t.original, m.pool.store, m.pool.rank, m.visited, t.post, k)
    ensures forall j, k | j in m.posted && k in m.posted && j != k ::
              j in m.visited && k in m.visited && m.visited[j].result != m.visited[k].result
  {
    NoCycleBelow(t.original, t.root, m.posted);
    forall k | k in t.original && DoneIn(m.visited, k)
      ensures Reaches(t.original, t.root, k)
      ensures Equation(t.original, m.pool.store, m.pool.rank, m.visited, t.post, k)
    {
      assert EntryOk(t, m, k);
    }
    forall j, k | j in m.posted && k in m.posted && j != k
      ensures m.visited[j].result != m.visited[k].result
    {
      assert EntryOk(t, m, j) && EntryOk(t, m, k);
    }
  }

  /** On an acyclic graph no loop is reported, and any way to rank it gives the same unfolding. */
  lemma AcyclicHasNoLoop<L>(g: Graph<L>, rank: map<NodeId, int>, root: NodeId, part: map<NodeId, int>)
    requires Ranked(g, rank) && (forall k | k in rank :: k in g) && RankedPart(g, part) && root in part
    ensures !ReachesCycle(g, root)
    ensures Unfold(g, part, To(root)) == Unfold(g, rank, To(root))
  {
    RankedHasNoCycle(g, rank, root);
    UnfoldFrame(g, part, g, rank, To(root));
  }
}
