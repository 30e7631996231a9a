/** What a Modifier computes: the bottom-up rewriting of a tree, and the equations that a memoised rewriting of a graph
    has to satisfy to agree with it (ir/visitor.cpp). */
module TreeRewriting {
  import opened IrGraph

  /** What postorder leaves in a field that holds a child: null, a node found below one of the rewritten children (the
      path leads from child to child), or a new node whose fields are filled in the same way */
  datatype Pick<L> = Clear | Keep(at: int, path: seq<int>) | Make(tag: L, parts: seq<Pick<L>>)

  /** What postorder makes of a node: its new tag, and what its fields hold */
  datatype Edit<L> = Edit(tag: L, picks: seq<Pick<L>>)

  /** Postorder is any function of the fields of a node and of its rewritten children. */
  type Postorder<!L> = (L, seq<Tree<L>>) -> Edit<L>

  function Below<L>(t: Tree<L>, path: seq<int>): Tree<L>
    decreases |path|
  {
    if path == [] then t
    else if t.Absent? || !(0 <= path[0] < |t.kids|) then Absent
    else Below(t.kids[path[0]], path[1..])
  }

  /** What a field looks like */
  function Picked<L>(kids: seq<Tree<L>>, pick: Pick<L>): Tree<L>
    decreases pick
  {
    match pick
    case Clear => Absent
    case Keep(at, path) => if 0 <= at < |kids| then Below(kids[at], path) else Absent
    case Make(tag, parts) => Branch(tag, seq(|parts|, i requires 0 <= i < |parts| => Picked(kids, parts[i])))
  }

  function PickedAll<L>(kids: seq<Tree<L>>, picks: seq<Pick<L>>): (r: seq<Tree<L>>)
    ensures |r| == |picks| && forall i | 0 <= i < |picks| :: r[i] == Picked(kids, picks[i])
  {
    seq(|picks|, i requires 0 <= i < |picks| => Picked(kids, picks[i]))
  }

  /** The bottom-up rewriting */
  function Rewrite<L>(post: Postorder<L>, t: Tree<L>): Tree<L> {
    match t
    case Absent => Absent
    case Branch(tag, kids) =>
      var rewritten := seq(|kids|, i requires 0 <= i < |kids| => Rewrite(post, kids[i]));
      var edit := post(tag, rewritten);
      Branch(edit.tag, PickedAll(rewritten, edit.picks))
  }

  // ---- edits of a graph ----

  function Descend<L>(g: Graph<L>, p: Pointer, path: seq<int>): Pointer
    decreases |path|
  {
    if path == [] then p
    else if p == Null || p.id !in g || !(0 <= path[0] < |g[p.id].children|) then Null
    else Descend(g, g[p.id].children[path[0]], path[1..])
  }

  /** A field holds what an edit says. New nodes are not among the original ones. */
  ghost predicate Holds<L>(original: Graph<L>, g: Graph<L>, kids: seq<Pointer>, pick: Pick<L>, q: Pointer)
    decreases pick
  {
    match pick
    case Clear => q == Null
    case Keep(at, path) => q == if 0 <= at < |kids| then Descend(g, kids[at], path) else Null
    case Make(tag, parts) =>
      && q.To? && q.id !in original && q.id in g && g[q.id].tag == tag && |g[q.id].children| == |parts|
      && forall i | 0 <= i < |parts| :: Holds(original, g, kids, parts[i], g[q.id].children[i])
  }

  ghost predicate AllHold<L>(original: Graph<L>, g: Graph<L>, kids: seq<Pointer>, picks: seq<Pick<L>>,
                             qs: seq<Pointer>) {
    |qs| == |picks| && forall i | 0 <= i < |picks| :: Holds(original, g, kids, picks[i], qs[i])
  }

  /** A node is what an edit says. */
  ghost predicate IsEdited<L>(original: Graph<L>, g: Graph<L>, kids: seq<Pointer>, edit: Edit<L>, node: Node<L>) {
    node.tag == edit.tag && AllHold(original, g, kids, edit.picks, node.children)
  }

  lemma {:induction false} DescendInPart<L>(g: Graph<L>, rank: map<NodeId, int>, p: Pointer, path: seq<int>)
    requires RankedPart(g, rank) && InPart(rank, p)
    ensures InPart(rank, Descend(g, p, path))
    ensures Unfold(g, rank, Descend(g, p, path)) == Below(Unfold(g, rank, p), path)
    decreases |path|
  {
    if path != [] && p.To? {
      assert RankOk(g, rank, p.id);
      if 0 <= path[0] < |g[p.id].children| { DescendInPart(g, rank, g[p.id].children[path[0]], path[1..]); }
    }
  }

  lemma {:induction false} DescendKept<L>(g: Graph<L>, rank: map<NodeId, int>, g': Graph<L>, p: Pointer, path: seq<int>)
    requires RankedPart(g, rank) && InPart(rank, p) && Extends(g, g')
    ensures Descend(g', p, path) == Descend(g, p, path)
    decreases |path|
  {
    if path != [] && p.To? {
      assert RankOk(g, rank, p.id);
      if 0 <= path[0] < |g[p.id].children| { DescendKept(g, rank, g', g[p.id].children[path[0]], path[1..]); }
    }
  }

  lemma {:induction false} HoldsKept<L>(original: Graph<L>, g: Graph<L>, rank: map<NodeId, int>, g': Graph<L>,
                                        kids: seq<Pointer>, pick: Pick<L>, q: Pointer)
    requires RankedPart(g, rank) && AllInPart(rank, kids) && Extends(g, g')
    ensures Holds(original, g, kids, pick, q) ==> Holds(original, g', kids, pick, q)
    decreases pick
  {
    match pick
    case Clear =>
    case Keep(at, path) => if 0 <= at < |kids| { DescendKept(g, rank, g', kids[at], path); }
    case Make(tag, parts) =>
      if Holds(original, g, kids, pick, q) {
        forall i | 0 <= i < |parts| ensures Holds(original, g', kids, parts[i], g'[q.id].children[i]) {
          HoldsKept(original, g, rank, g', kids, parts[i], g[q.id].children[i]);
        }
      }
  }

  lemma IsEditedKept<L>(original: Graph<L>, g: Graph<L>, rank: map<NodeId, int>, g': Graph<L>, kids: seq<Pointer>,
                        edit: Edit<L>, node: Node<L>)
    requires RankedPart(g, rank) && AllInPart(rank, kids) && Extends(g, g')
    ensures IsEdited(original, g, kids, edit, node) ==> IsEdited(original, g', kids, edit, node)
  {
    forall i | 0 <= i < |edit.picks| && i < |node.children|
      ensures Holds(original, g, kids, edit.picks[i], node.children[i])
              ==> Holds(original, g', kids, edit.picks[i], node.children[i])
    {
      HoldsKept(original, g, rank, g', kids, edit.picks[i], node.children[i]);
    }
  }

  /** Whether an original node is what an edit says does not depend on what was added meanwhile. */
  lemma OriginalEditedKept<L>(original: Graph<L>, g: Graph<L>, rank: map<NodeId, int>, g': Graph<L>, kids: seq<Pointer>,
                              edit: Edit<L>, k: NodeId)
    requires RankedPart(g, rank) && AllInPart(rank, kids) && Extends(g, g') && Closed(original) && k in original
    ensures IsEdited(original, g, kids, edit, original[k]) <==> IsEdited(original, g', kids, edit, original[k])
  {
    var node := original[k];
    forall i | 0 <= i < |edit.picks| && i < |node.children|
      ensures Holds(original, g, kids, edit.picks[i], node.children[i])
              <==> Holds(original, g', kids, edit.picks[i], node.children[i])
    {
      assert Has(original, node.children[i]);
      var pick := edit.picks[i];
      if pick.Keep? && 0 <= pick.at < |kids| { DescendKept(g, rank, g', kids[pick.at], pick.path); }
    }
  }

  /** Only one node is what an edit says that leaves an original node as it is. */
  lemma EditedOnce<L>(original: Graph<L>, g: Graph<L>, kids: seq<Pointer>, edit: Edit<L>, k: NodeId, node: Node<L>)
    requires Closed(original) && k in original
    requires IsEdited(original, g, kids, edit, original[k]) && IsEdited(original, g, kids, edit, node)
    ensures node == original[k]
  {
    forall i | 0 <= i < |edit.picks| ensures node.children[i] == original[k].children[i] {
      assert Has(original, original[k].children[i]);
      assert Holds(original, g, kids, edit.picks[i], original[k].children[i]);
      assert Holds(original, g, kids, edit.picks[i], node.children[i]);
    }
  }

  /** What a field holds looks like what the edit says. */
  lemma {:induction false} HoldsLooks<L>(original: Graph<L>, g: Graph<L>, rank: map<NodeId, int>, kids: seq<Pointer>,
                                         pick: Pick<L>, q: Pointer)
    requires RankedPart(g, rank) && AllInPart(rank, kids) && InPart(rank, q) && Holds(original, g, kids, pick, q)
    ensures Unfold(g, rank, q) == Picked(UnfoldAll(g, rank, kids), pick)
    decreases pick
  {
    match pick
    case Clear =>
    case Keep(at, path) => if 0 <= at < |kids| { DescendInPart(g, rank, kids[at], path); }
    case Make(tag, parts) =>
      assert RankOk(g, rank, q.id);
      var trees := UnfoldAll(g, rank, kids);
      forall i | 0 <= i < |parts| ensures Unfold(g, rank, g[q.id].children[i]) == Picked(trees, parts[i]) {
        HoldsLooks(original, g, rank, kids, parts[i], g[q.id].children[i]);
      }
  }

  lemma EditedLooks<L>(original: Graph<L>, g: Graph<L>, rank: map<NodeId, int>, kids: seq<Pointer>, edit: Edit<L>,
                       n: NodeId)
    requires RankedPart(g, rank) && AllInPart(rank, kids) && n in rank && IsEdited(original, g, kids, edit, g[n])
    ensures Unfold(g, rank, To(n)) == Branch(edit.tag, PickedAll(UnfoldAll(g, rank, kids), edit.picks))
  {
    assert RankOk(g, rank, n);
    forall i | 0 <= i < |edit.picks|
      ensures Unfold(g, rank, g[n].children[i]) == Picked(UnfoldAll(g, rank, kids), edit.picks[i])
    {
      HoldsLooks(original, g, rank, kids, edit.picks[i], g[n].children[i]);
    }
  }

  // ---- tracked nodes ----

  datatype VisitInfo = VisitInfo(inProgress: bool, visitOnce: bool, result: Pointer)

  type Visited = map<NodeId, VisitInfo>

  predicate DoneIn(visited: Visited, n: NodeId) {
    n in visited && !visited[n].inProgress && visited[n].visitOnce
  }

  /** The result of a node is the node itself as long as it is not tracked. */
  function ResultIn(visited: Visited, p: Pointer): Pointer {
    if p.To? && p.id in visited then visited[p.id].result else p
  }

  function ResultsIn(visited: Visited, ps: seq<Pointer>): (r: seq<Pointer>)
    ensures |r| == |ps| && forall i | 0 <= i < |ps| :: r[i] == ResultIn(visited, ps[i])
  {
    seq(|ps|, i requires 0 <= i < |ps| => ResultIn(visited, ps[i]))
  }

  ghost predicate AllDone(visited: Visited, ps: seq<Pointer>) {
    forall i | 0 <= i < |ps| && ps[i].To? :: DoneIn(visited, ps[i].id)
  }

  /** What is done stays as it is. */
  ghost predicate Grows(visited: Visited, visited': Visited) {
    forall n | DoneIn(visited, n) :: n in visited' && visited'[n] == visited[n]
  }

  // ---- the equations of a memoised rewriting ----

  /** The result of node k is made of the results of its children: it is k itself when that changes nothing, and a new
      node otherwise. */
  ghost predicate Equation<L>(original: Graph<L>, store: Graph<L>, rank: map<NodeId, int>, visited: Visited,
                              post: Postorder<L>, k: NodeId)
    requires RankedPart(store, rank) && k in original
  {
    var kids := ResultsIn(visited, original[k].children);
    && DoneIn(visited, k) && AllDone(visited, original[k].children) && AllInPart(rank, kids)
    && var edit, r := post(original[k].tag, UnfoldAll(store, rank, kids)), visited[k].result;
       && r.To? && r.id in rank && IsEdited(original, store, kids, edit, store[r.id])
       && if IsEdited(original, store, kids, edit, original[k]) then r == To(k) else r.id !in original
  }

  lemma EquationKept<L>(original: Graph<L>, store: Graph<L>, rank: map<NodeId, int>, visited: Visited,
                        store': Graph<L>, rank': map<NodeId, int>, visited': Visited, post: Postorder<L>, k: NodeId)
    requires RankedPart(store, rank) && RankedPart(store', rank') && Closed(original) && k in original
    requires Equation(original, store, rank, visited, post, k)
    requires Extends(store, store') && (forall j | j in rank :: j in rank') && Grows(visited, visited')
    ensures Equation(original, store', rank', visited', post, k)
  {
    var kids := ResultsIn(visited, original[k].children);
    assert ResultsIn(visited', original[k].children) == kids;
    UnfoldAllFrame(store, rank, store', rank', kids);
    var edit := post(original[k].tag, UnfoldAll(store, rank, kids));
    IsEditedKept(original, store, rank, store', kids, edit, store[visited[k].result.id]);
    OriginalEditedKept(original, store, rank, store', kids, edit, k);
  }

  /** Memoised rewriting of a graph agrees with the rewriting of trees: from what satisfies the equations, every node
      looks like the bottom-up rewriting of what the original node looks like. */
  lemma {:induction false} MemoisedIsRewritten<L>(original: Graph<L>, rank0: map<NodeId, int>, store: Graph<L>,
                                                  rank: map<NodeId, int>, visited: Visited, post: Postorder<L>,
                                                  n: NodeId)
    requires RankedPart(original, rank0) && RankedPart(store, rank) && n in rank0
    requires forall k | k in original && DoneIn(visited, k) :: Equation(original, store, rank, visited, post, k)
    requires DoneIn(visited, n)
    ensures visited[n].result.To? && visited[n].result.id in rank
    ensures Unfold(store, rank, visited[n].result) == Rewrite(post, Unfold(original, rank0, To(n)))
    decreases rank0[n]
  {
    assert RankOk(original, rank0, n) && Equation(original, store, rank, visited, post, n);
    var children := original[n].children;
    var kids := ResultsIn(visited, children);
    var before := Unfold(original, rank0, To(n));
    forall i | 0 <= i < |children|
      ensures Unfold(store, rank, kids[i]) == Rewrite(post, before.kids[i])
    {
      assert before.kids[i] == Unfold(original, rank0, children[i]);
      if children[i].To? {
        assert children[i] == To(children[i].id);
        MemoisedIsRewritten(original, rank0, store, rank, visited, post, children[i].id);
      }
    }
    var trees := UnfoldAll(store, rank, kids);
    assert trees == seq(|before.kids|, i requires 0 <= i < |before.kids| => Rewrite(post, before.kids[i]));
    EditedLooks(original, store, rank, kids, post(original[n].tag, trees), visited[n].result.id);
  }

  // ---- when nothing changes ----

  /** Postorder leaves every child where it is, or clears it. */
  ghost predicate InPlace<L(!new)>(post: Postorder<L>) {
    forall tag, kids: seq<Tree<L>> :: InPlacePicks(post(tag, kids).picks, |kids|)
  }

  ghost predicate InPlacePicks<L>(picks: seq<Pick<L>>, n: nat) {
    |picks| == n && forall j | 0 <= j < n :: picks[j] == Clear || picks[j] == Keep(j, [])
  }

  /** For edits in place, the result of a node is the same pointer exactly when its tree is not changed. */
  lemma {:induction false} SameExactlyWhenUnchanged<L(!new)>(original: Graph<L>, rank0: map<NodeId, int>,
                                                             store: Graph<L>, rank: map<NodeId, int>,
                                                             visited: Visited, post: Postorder<L>, n: NodeId)
    requires RankedPart(original, rank0) && RankedPart(store, rank) && Extends(original, store) && n in rank0
    requires forall k | k in original && DoneIn(visited, k) :: Equation(original, store, rank, visited, post, k)
    requires DoneIn(visited, n) && InPlace(post)
    ensures visited[n].result == To(n)
            <==> Rewrite(post, Unfold(original, rank0, To(n))) == Unfold(original, rank0, To(n))
    decreases rank0[n]
  {
    var before := Unfold(original, rank0, To(n));
    MemoisedIsRewritten(original, rank0, store, rank, visited, post, n);
    if visited[n].result == To(n) {
      UnfoldFrame(original, rank0, store, rank, To(n));
    } else if Rewrite(post, before) == before {
      UnchangedKeeps(original, rank0, store, rank, visited, post, n);
    }
  }

  lemma UnchangedKeeps<L(!new)>(original: Graph<L>, rank0: map<NodeId, int>, store: Graph<L>, rank: map<NodeId, int>,
                                visited: Visited, post: Postorder<L>, n: NodeId)
    requires RankedPart(original, rank0) && RankedPart(store, rank) && Extends(original, store) && n in rank0
    requires forall k | k in original && DoneIn(visited, k) :: Equation(original, store, rank, visited, post, k)
    requires DoneIn(visited, n) && InPlace(post)
    requires Rewrite(post, Unfold(original, rank0, To(n))) == Unfold(original, rank0, To(n))
    ensures visited[n].result == To(n)
    decreases rank0[n], 0
  {
    var before := Unfold(original, rank0, To(n));
    assert RankOk(original, rank0, n) && Equation(original, store, rank, visited, post, n);
    var children := original[n].children;
    var kids := ResultsIn(visited, children);
    var rewritten := seq(|children|, i requires 0 <= i < |children| => Rewrite(post, before.kids[i]));
    var edit := post(original[n].tag, rewritten);
    assert InPlacePicks(edit.picks, |rewritten|);
    assert before.kids == PickedAll(rewritten, edit.picks);
    forall i | 0 <= i < |children|
      ensures Unfold(store, rank, kids[i]) == rewritten[i]
      ensures Holds(original, store, kids, edit.picks[i], children[i])
    {
      assert before.kids[i] == Picked(rewritten, edit.picks[i]) == Unfold(original, rank0, children[i]);
      if children[i].To? {
        var c := children[i].id;
        MemoisedIsRewritten(original, rank0, store, rank, visited, post, c);
        SameExactlyWhenUnchanged(original, rank0, store, rank, visited, post, c);
      }
    }
    assert UnfoldAll(store, rank, kids) == rewritten;
  }
}
