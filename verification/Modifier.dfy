/** ChangeTracker and Modifier of ir/visitor.cpp, with identity preorder and visitDagOnce, on any graph, cyclic or
    not */
module Modifiers {
  import opened IrGraph
  import opened Cycles
  import opened TreeRewriting
  import opened Memos

  class ChangeTracker {
    var visited: Visited

    constructor ()
      ensures visited == map[]
    {
      visited := map[];
    }

    predicate Done(n: NodeId)
      reads this
    {
      DoneIn(visited, n)
    }

    function Result(p: Pointer): Pointer
      reads this
    {
      ResultIn(visited, p)
    }

    /** Begins the visit of a node; an IR loop is reported when its visit is in progress already. */
    method Start(n: NodeId, defaultVisitOnce: bool) returns (loop: bool)
      modifies this
      ensures loop <==> n in old(visited) && old(visited)[n].inProgress
      ensures visited == if n in old(visited) then old(visited)
                         else old(visited)[n := VisitInfo(true, defaultVisitOnce, To(n))]
    {
      var inserted := n !in visited;
      if inserted { visited := visited[n := VisitInfo(true, defaultVisitOnce, To(n))]; }
      loop := !inserted && visited[n].inProgress;
    }

    /** Ends the visit of a node. `same` tells whether the final node has the contents of the original one. A final
        node with other contents is tracked as done too. */
    method Finish(orig: NodeId, final: Pointer, same: bool) returns (changed: bool)
      requires orig in visited
      modifies this
      ensures changed <==> final == Null || (final != To(orig) && !same)
      ensures var info := old(visited)[orig];
              visited == if final == Null then old(visited)[orig := VisitInfo(false, info.visitOnce, Null)]
                         else if !changed then old(visited)[orig := info.(inProgress := false)]
                         else
                           var kept := old(visited)[orig := VisitInfo(false, info.visitOnce, final)];
                           if final.id in kept then kept
                           else kept[final.id := VisitInfo(false, info.visitOnce, final)]
    {
      visited := visited[orig := visited[orig].(inProgress := false)];
      if final == Null {
        visited := visited[orig := visited[orig].(result := final)];
        return true;
      } else if final != To(orig) && !same {
        visited := visited[orig := visited[orig].(result := final)];
        if final.id !in visited { visited := visited[final.id := VisitInfo(false, visited[orig].visitOnce, final)]; }
        return true;
      } else {
        return false;
      }
    }
  }

  class Modifier<L(==,!new)> {
    const post: Postorder<L>
    const dontForwardChildrenBeforePreorder: bool
    const tracker: ChangeTracker
    /** All nodes there are; the ids that clones and other new nodes get come from nextId. */
    var store: Graph<L>
    var nextId: NodeId
    ghost const original: Graph<L>
    const root: NodeId
    ghost var rank: map<NodeId, int>
    ghost var top: int
    ghost var posted: seq<NodeId>
    ghost var stack: seq<NodeId>
    ghost var origin: map<NodeId, NodeId>

    constructor (post: Postorder<L>, dontForward: bool, store: Graph<L>, nextId: NodeId, root: NodeId)
      requires Closed(store) && root in store && forall k | k in store :: k < nextId
      ensures Valid() && fresh(tracker) && tracker.visited == map[] && stack == []
      ensures this.post == post && this.store == store == original && this.root == root
    {
      this.post, dontForwardChildrenBeforePreorder := post, dontForward;
      this.store, this.nextId := store, nextId;
      this.original, this.root := store, root;
      rank, top, posted, stack, origin := map[], 0, [], [], map[];
      tracker := new ChangeTracker();
    }

    ghost function Mission(): Task<L> {
      Task(original, root, post)
    }

    ghost function Nodes(): Pool<L>
      reads this
    {
      Pool(store, nextId, rank, top)
    }

    ghost function State(): Memo<L>
      reads this, tracker
    {
      Memo(Nodes(), tracker.visited, posted, stack, origin)
    }

    ghost predicate Valid()
      reads this, tracker
    {
      MemoOk(Mission(), State())
    }

    /** Visits a node. The visit is given up when an IR loop is found. */
    method ApplyVisitor(n: Pointer) returns (r: Pointer, loop: bool)
      requires Valid() && Visitable(Mission(), State(), n)
      modifies this, tracker
      ensures loop ==> ReachesCycle(original, root)
      ensures !loop ==> Valid() && Grown(old(State()), State())
      ensures !loop ==> (n.To? ==> DoneIn(tracker.visited, n.id)) && r == ResultIn(tracker.visited, n)
      ensures old(tracker.visited.Keys) <= tracker.visited.Keys
      decreases original.Keys - tracker.visited.Keys, 1
    {
      r, loop := n, false;
      if n == Null { return; }
      if tracker.Done(n.id) {
        r := tracker.Result(n);
      } else {
        r, loop := Visit(n.id);
      }
    }

    method Visit(n: NodeId) returns (r: Pointer, loop: bool)
      requires Valid() && Visitable(Mission(), State(), To(n)) && !DoneIn(tracker.visited, n)
      modifies this, tracker
      ensures loop ==> ReachesCycle(original, root)
      ensures !loop ==> Valid() && Grown(old(State()), State())
      ensures !loop ==> DoneIn(tracker.visited, n) && r == ResultIn(tracker.visited, To(n))
      ensures old(tracker.visited.Keys) <= tracker.visited.Keys
      decreases original.Keys - tracker.visited.Keys, 0
    {
      hide MemoOk, Grown, KidsDone, KidsUpTo, EndGrown;
      var id := nextId;
      ghost var before := State();
      r := To(n);
      var kids;
      loop, kids := Begin(n);
      if loop { return; }
      assert n in original.Keys - before.visited.Keys && n !in original.Keys - tracker.visited.Keys;
      kids, loop := VisitChildren(n, kids);
      if loop { return; }
      ghost var visited := State();
      StillBegun(Mission(), before, visited, n);
      r := EndVisit(n, kids, id);
      VisitGrown(before, visited, State(), n);
    }

    /** Begins the visit of a node, and clones it. */
    method Begin(n: NodeId) returns (loop: bool, kids: seq<Pointer>)
      requires Valid() && Visitable(Mission(), State(), To(n)) && !DoneIn(tracker.visited, n)
      modifies this, tracker
      ensures loop ==> ReachesCycle(original, root)
      ensures !loop ==> Valid() && State() == Started(old(State()), n) && n !in old(tracker.visited)
      ensures !loop ==> n in original && KidsUpTo(tracker.visited, original[n].children, 0, kids)
      ensures old(tracker.visited.Keys) <= tracker.visited.Keys
    {
      kids := [];
      loop := tracker.Start(n, true);
      ghost var before := old(State());
      if loop {
        FoundCycle(original, root, stack, n);
        return;
      }
      NotBegun(Mission(), before, n);
      StartKeeps(Mission(), before, n);
      kids := store[n].children;
      nextId, stack := nextId + 1, stack + [n];
      assert State() == Started(before, n);
      if !dontForwardChildrenBeforePreorder { kids := ForwardChildren(kids); }
    }

    /** Children whose results are known are replaced by them. */
    method ForwardChildren(children: seq<Pointer>) returns (kids: seq<Pointer>)
      ensures KidsUpTo(tracker.visited, children, 0, kids)
    {
      kids := children;
      for i := 0 to |children|
        invariant KidsUpTo(tracker.visited, children, 0, kids)
        invariant kids[i..] == children[i..]
      {
        if kids[i].To? && tracker.Done(kids[i].id) { kids := kids[i := tracker.Result(kids[i])]; }
      }
    }

    /** Visits the children that a clone of node n has, and puts the results in their places. */
    method VisitChildren(n: NodeId, children: seq<Pointer>) returns (kids: seq<Pointer>, loop: bool)
      requires Valid() && n in original && stack != [] && stack[|stack| - 1] == n
      requires KidsUpTo(tracker.visited, original[n].children, 0, children)
      modifies this, tracker
      ensures loop ==> ReachesCycle(original, root)
      ensures !loop ==> Valid() && Grown(old(State()), State()) && KidsDone(Mission(), State(), n, kids)
      ensures old(tracker.visited.Keys) <= tracker.visited.Keys
      decreases original.Keys - tracker.visited.Keys, 2
    {
      ghost var from := original[n].children;
      kids, loop := children, false;
      for i := 0 to |children|
        invariant Valid() && Grown(old(State()), State())
        invariant old(tracker.visited.Keys) <= tracker.visited.Keys
        invariant KidsUpTo(tracker.visited, from, i, kids)
      {
        ghost var before := State();
        ChildVisitable(Mission(), before, n, i, kids[i]);
        var kid;
        kid, loop := ApplyVisitor(kids[i]);
        if loop { return; }
        GrownFurther(old(State()), before, State());
        KidVisited(before, State(), from, i, kids, kid);
        kids := kids[i := kid];
      }
    }

    /** What postorder puts into a field. New nodes are made after what their own fields hold. */
    method Place(pick: Pick<L>, kids: seq<Pointer>) returns (p: Pointer)
      requires PoolOk(original, Nodes()) && AllInPart(rank, kids)
      modifies `store, `nextId, `rank, `top
      ensures PoolOk(original, Nodes()) && PoolGrew(old(Nodes()), Nodes()) && OnlyNewRanked(old(Nodes()), Nodes())
      ensures InPart(rank, p) && Holds(original, store, kids, pick, p)
      decreases pick
    {
      match pick
      case Clear => p := Null;
      case Keep(at, path) =>
        p := Null;
        if 0 <= at < |kids| {
          DescendInPart(store, rank, kids[at], path);
          p := Descend(store, kids[at], path);
        }
      case Make(tag, parts) =>
        var fields := PlaceAll(parts, kids);
        ghost var before := Nodes();
        p := To(nextId);
        AddedOk(original, before.(next := nextId + 1), nextId, Node(tag, fields));
        store, rank := store[nextId := Node(tag, fields)], rank[nextId := top];
        nextId, top := nextId + 1, top + 1;
        PoolGrewFurther(old(Nodes()), before, Nodes());
        forall i | 0 <= i < |parts| ensures Holds(original, store, kids, parts[i], fields[i]) {
          HoldsKept(original, before.store, before.rank, store, kids, parts[i], fields[i]);
        }
    }

    method PlaceAll(picks: seq<Pick<L>>, kids: seq<Pointer>) returns (ps: seq<Pointer>)
      requires PoolOk(original, Nodes()) && AllInPart(rank, kids)
      modifies `store, `nextId, `rank, `top
      ensures PoolOk(original, Nodes()) && PoolGrew(old(Nodes()), Nodes()) && OnlyNewRanked(old(Nodes()), Nodes())
      ensures AllInPart(rank, ps) && AllHold(original, store, kids, picks, ps)
      decreases picks
    {
      ps := [];
      for i := 0 to |picks|
        invariant PoolOk(original, Nodes()) && PoolGrew(old(Nodes()), Nodes()) && OnlyNewRanked(old(Nodes()), Nodes())
        invariant |ps| == i && AllInPart(rank, ps)
        invariant forall j | 0 <= j < i :: Holds(original, store, kids, picks[j], ps[j])
      {
        ghost var before := Nodes();
        var p := Place(picks[i], kids);
        PoolGrewFurther(old(Nodes()), before, Nodes());
        forall j | 0 <= j < i ensures Holds(original, store, kids, picks[j], ps[j]) {
          HoldsKept(original, before.store, before.rank, store, kids, picks[j], ps[j]);
        }
        ps := ps + [p];
      }
    }

    /** Calls postorder on the clone of a node, and ends the visit of the node. */
    method EndVisit(n: NodeId, kids: seq<Pointer>, id: NodeId) returns (r: Pointer)
      requires Valid() && Begun(State(), n) && n in original && KidsDone(Mission(), State(), n, kids)
      requires id !in store && id < nextId
      modifies this, tracker
      ensures Valid() && EndGrown(old(State()), State(), n, id)
      ensures DoneIn(tracker.visited, n) && r == tracker.visited[n].result
      ensures old(tracker.visited.Keys) <= tracker.visited.Keys
    {
      var copy := Postorder(n, kids);
      ghost var placed := State();
      r := Settle(n, kids, copy, id);
      PlacedGrown(old(State()), placed, State(), n, id);
    }

    method Postorder(n: NodeId, kids: seq<Pointer>) returns (copy: Node<L>)
      requires Valid() && n in original && KidsDone(Mission(), State(), n, kids)
      modifies `store, `nextId, `rank, `top
      ensures Valid() && State() == old(State()).(pool := Nodes())
      ensures PoolGrew(old(Nodes()), Nodes()) && OnlyNewRanked(old(Nodes()), Nodes())
      ensures AllInPart(rank, kids) && AllInPart(rank, copy.children) && IsCopy(Mission(), Nodes(), n, kids, copy)
    {
      ghost var before := State();
      KidsOk(Mission(), before, n, kids);
      var edit := post(store[n].tag, UnfoldAll(store, rank, kids));
      var fields := PlaceAll(edit.picks, kids);
      PlacedKeeps(Mission(), before, Nodes());
      UnfoldAllFrame(before.pool.store, before.pool.rank, store, rank, kids);
      copy := Node(edit.tag, fields);
    }

    method Settle(n: NodeId, kids: seq<Pointer>, copy: Node<L>, id: NodeId) returns (r: Pointer)
      requires Valid() && Begun(State(), n) && n in original && KidsDone(Mission(), State(), n, kids)
      requires AllInPart(rank, kids) && AllInPart(rank, copy.children) && IsCopy(Mission(), Nodes(), n, kids, copy)
      requires id !in store && id < nextId
      modifies this, tracker
      ensures Valid() && EndGrown(old(State()), State(), n, id)
      ensures DoneIn(tracker.visited, n) && r == tracker.visited[n].result
      ensures old(tracker.visited.Keys) <= tracker.visited.Keys
    {
      hide MemoOk, KidsDone, IsCopy, EntryOk;
      ghost var before := State();
      NotTracked(Mission(), before, id);
      OpenVisit(Mission(), before, n);
      EndKeeps(Mission(), before, n, kids, copy, id);
      EndGrows(before, n, copy, id);
      ghost var after := Ended(before, n, copy, id);
      var changed := tracker.Finish(n, To(id), copy == store[n]);
      r := To(n);
      if changed {
        store := store[id := copy];
        r := To(id);
      }
      assert tracker.visited == after.visited && r == after.visited[n].result;
      assert store == after.pool.store;
      rank, top := after.pool.rank, after.pool.top;
      posted, stack, origin := after.posted, after.stack, after.origin;
      assert Nodes() == after.pool;
    }

    /** init_apply and apply_visitor on the root: the traversal halts, and reports an IR loop exactly when the root
        reaches a cycle. Otherwise the result looks like the bottom-up rewriting of the original graph. Each node that
        the root reaches is rewritten once, after its children, and has one result wherever it is shared; for edits in
        place the root is given back itself exactly when nothing changes. */
    method Apply() returns (r: Pointer, loop: bool)
      requires Valid() && tracker.visited == map[] && stack == [] && store == original
      modifies this, tracker
      ensures loop <==> ReachesCycle(original, root)
      ensures !loop ==>
                && Distinct(posted) && ChildrenFirst(original, posted)
                && (forall k :: k in posted <==> Reaches(original, root, k))
      ensures !loop ==>
                && Extends(original, store) && RankedPart(store, rank) && InPart(rank, r)
                && RankedPart(original, Order(posted)) && root in Order(posted)
                && Unfold(store, rank, r) == Rewrite(post, Unfold(original, Order(posted), To(root)))
      ensures !loop ==>
                forall k | k in posted :: k in original && Equation(original, store, rank, tracker.visited, post, k)
      ensures !loop ==>
                forall j, k | j in posted && k in posted && j != k ::
                  ResultIn(tracker.visited, To(j)) != ResultIn(tracker.visited, To(k))
      ensures !loop ==> r == ResultIn(tracker.visited, To(root))
      ensures !loop && InPlace(post) ==>
                (r == To(root) <==> Unfold(store, rank, r) == Unfold(original, Order(posted), To(root)))
    {
      hide Unfold, Rewrite, Equation, Reaches, ReachesCycle, ChildrenFirst;
      r, loop := ApplyVisitor(To(root));
      if loop { return; }
      VisitedAll(Mission(), State());
      OrderRanks(original, posted);
      MemoisedIsRewritten(original, Order(posted), store, rank, tracker.visited, post, root);
      if InPlace(post) { SameExactlyWhenUnchanged(original, Order(posted), store, rank, tracker.visited, post, root); }
    }
  }
}
