/** ControlFlowVisitor::join_flows of ir/visitor.cpp in an Inspector with identity preorder and no filtered node, on
    any acyclic graph */
module JoinFlows {
  import opened Wrappers
  import opened IrGraph
  import opened JoinPoints
  import opened FlowRecords

  /** A flow that comes to a node along an edge */
  datatype Arrival<F> = Arrival(edge: Edge, flow: F)

  /** The accumulator of a join point, and how many edges were not followed to it yet */
  datatype JoinPoint<F> = JoinPoint(acc: Option<F>, left: int)

  /** The nodes in the order in which they were entered, what arrived at each node in this order, and the flow with
      which each node was entered */
  datatype Walk<F> = Walk(entered: seq<NodeId>, arrivals: map<NodeId, seq<Arrival<F>>>, entry: map<NodeId, F>)

  function ArrivalsAt<F>(w: Walk<F>, n: NodeId): seq<Arrival<F>> {
    if n in w.arrivals then w.arrivals[n] else []
  }

  /** The accumulated flow: the first one to arrive, merged with each of the others */
  function Accumulated<F>(merge: (F, F) -> F, arrivals: seq<Arrival<F>>): F
    requires arrivals != []
  {
    var n := |arrivals| - 1;
    if n == 0 then arrivals[0].flow else merge(Accumulated(merge, arrivals[..n]), arrivals[n].flow)
  }

  /** The flow with which a node is entered: the last one to arrive, merged with the accumulated others */
  function Joined<F>(merge: (F, F) -> F, arrivals: seq<Arrival<F>>): F
    requires arrivals != []
  {
    var n := |arrivals| - 1;
    if n == 0 then arrivals[0].flow else merge(arrivals[n].flow, Accumulated(merge, arrivals[..n]))
  }

  /** The edges that a traversal can follow, each with the node that it leads to */
  type Targets = map<Edge, NodeId>

  ghost function EdgesTo(t: Targets, edges: set<Edge>, n: NodeId): set<Edge> {
    set e | e in edges && e in t && t[e] == n
  }

  ghost function Degree(t: Targets, n: NodeId): nat {
    |EdgesTo(t, t.Keys, n)|
  }

  /** Each of the given edges brought one flow. */
  ghost predicate ArrivalsOk<F>(edges: set<Edge>, arrivals: seq<Arrival<F>>) {
    && (forall i, j | 0 <= i < j < |arrivals| :: arrivals[i].edge != arrivals[j].edge)
    && (forall i | 0 <= i < |arrivals| :: arrivals[i].edge in edges)
    && |arrivals| == |edges|
  }

  ghost predicate JoinOk<F>(merge: (F, F) -> F, degree: int, join: JoinPoint<F>, arrivals: seq<Arrival<F>>) {
    && join.left == degree - |arrivals|
    && (join.left > 0 ==> join.acc == if arrivals == [] then None else Some(Accumulated(merge, arrivals)))
  }

  /** The node is entered when all edges to it were followed. It is entered with their joined flows. */
  ghost predicate EntryOk<F>(merge: (F, F) -> F, root: NodeId, degree: int, w: Walk<F>, n: NodeId) {
    && (n in w.entered <==> n == root || (ArrivalsAt(w, n) != [] && |ArrivalsAt(w, n)| == degree))
    && (n in w.entered && n != root ==> n in w.entry && w.entry[n] == Joined(merge, ArrivalsAt(w, n)))
  }

  ghost predicate NodeOk<F>(t: Targets, root: NodeId, merge: (F, F) -> F, joins: map<NodeId, JoinPoint<F>>,
                            followed: set<Edge>, w: Walk<F>, n: NodeId) {
    && ArrivalsOk(EdgesTo(t, followed, n), ArrivalsAt(w, n))
    && (n in joins <==> Degree(t, n) > 1)
    && (n in joins ==> JoinOk(merge, Degree(t, n), joins[n], ArrivalsAt(w, n)))
    && EntryOk(merge, root, Degree(t, n), w, n)
  }

  /** All parents of a node were entered before the node. */
  ghost predicate ParentsIn(t: Targets, n: NodeId, before: seq<NodeId>) {
    forall e | e in t && t[e] == n :: e.from in before
  }

  ghost predicate OrderOk(t: Targets, entered: seq<NodeId>) {
    && (forall i, j | 0 <= i < j < |entered| :: entered[i] != entered[j])
    && (forall i | 0 <= i < |entered| :: ParentsIn(t, entered[i], entered[..i]))
  }

  ghost predicate WalkOk<F>(t: Targets, root: NodeId, merge: (F, F) -> F, joins: map<NodeId, JoinPoint<F>>,
                            followed: set<Edge>, w: Walk<F>) {
    && Degree(t, root) == 0
    && followed <= t.Keys && (forall e | e in followed :: e.from in w.entered)
    && OrderOk(t, w.entered)
    && (forall n :: NodeOk(t, root, merge, joins, followed, w, n))
  }

  function Arrived<F>(w: Walk<F>, n: NodeId, a: Arrival<F>): Walk<F> {
    w.(arrivals := w.arrivals[n := ArrivalsAt(w, n) + [a]])
  }

  /** What join_flows does when a flow comes to a node: it puts off the visit, or gives the flow to enter the node
      with. */
  datatype Merged<F> = Merged(joins: map<NodeId, JoinPoint<F>>, putOff: bool, flow: F)

  function Merge<F>(merge: (F, F) -> F, joins: map<NodeId, JoinPoint<F>>, n: NodeId, flow: F): Merged<F> {
    if n !in joins then Merged(joins, false, flow)
    else
      var join := joins[n];
      if join.left == 1 then
        Merged(joins[n := join.(left := 0)], false, if join.acc.Some? then merge(flow, join.acc.value) else flow)
      else
        var acc := if join.acc.Some? then merge(join.acc.value, flow) else flow;
        Merged(joins[n := JoinPoint(Some(acc), join.left - 1)], true, flow)
  }

  function Stepped<F>(w: Walk<F>, n: NodeId, a: Arrival<F>, m: Merged<F>): Walk<F> {
    if m.putOff then Arrived(w, n, a)
    else Arrived(w, n, a).(entered := w.entered + [n], entry := w.entry[n := m.flow])
  }

  /** A flow comes along an edge that was not followed yet. */
  ghost predicate Coming<F>(t: Targets, followed: set<Edge>, w: Walk<F>, n: NodeId, e: Edge) {
    e in t && t[e] == n && e !in followed && e.from in w.entered
  }

  lemma EdgesToMore(t: Targets, followed: set<Edge>, e: Edge, n: NodeId)
    requires e in t && t[e] == n && e !in followed && followed <= t.Keys
    ensures EdgesTo(t, followed + {e}, n) == EdgesTo(t, followed, n) + {e}
    ensures |EdgesTo(t, followed, n)| + 1 == |EdgesTo(t, followed + {e}, n)| <= Degree(t, n)
    ensures |EdgesTo(t, followed, n)| + 1 == Degree(t, n) ==> EdgesTo(t, followed + {e}, n) == EdgesTo(t, t.Keys, n)
  {
    assert EdgesTo(t, followed + {e}, n) == EdgesTo(t, followed, n) + {e};
    SubsetSize(EdgesTo(t, followed + {e}, n), EdgesTo(t, t.Keys, n));
  }

  lemma {:induction false} OneMore<F>(t: Targets, root: NodeId, merge: (F, F) -> F, joins: map<NodeId, JoinPoint<F>>,
                   followed: set<Edge>, w: Walk<F>, n: NodeId, a: Arrival<F>)
    requires WalkOk(t, root, merge, joins, followed, w) && Coming(t, followed, w, n, a.edge)
    ensures n != root && n !in w.entered
    ensures |ArrivalsAt(w, n)| + 1 <= Degree(t, n)
    ensures ArrivalsOk(EdgesTo(t, followed + {a.edge}, n), ArrivalsAt(w, n) + [a])
    ensures |ArrivalsAt(w, n)| + 1 == Degree(t, n) ==> EdgesTo(t, followed + {a.edge}, n) == EdgesTo(t, t.Keys, n)
  {
    assert NodeOk(t, root, merge, joins, followed, w, n);
    EdgesToMore(t, followed, a.edge, n);
    ArrivalsMore(EdgesTo(t, followed, n), ArrivalsAt(w, n), a);
  }

  lemma ArrivalsMore<F>(edges: set<Edge>, arrivals: seq<Arrival<F>>, a: Arrival<F>)
    requires ArrivalsOk(edges, arrivals) && a.edge !in edges
    ensures ArrivalsOk(edges + {a.edge}, arrivals + [a])
  {
  }

  lemma MergedElsewhere<F>(merge: (F, F) -> F, joins: map<NodeId, JoinPoint<F>>, n: NodeId, flow: F, k: NodeId)
    requires k != n
    ensures var m := Merge(merge, joins, n, flow);
            (k in m.joins <==> k in joins) && (k in joins ==> m.joins[k] == joins[k])
  {
  }

  lemma SteppedElsewhere<F>(w: Walk<F>, n: NodeId, a: Arrival<F>, m: Merged<F>, k: NodeId)
    requires k != n
    ensures var w' := Stepped(w, n, a, m);
            && ArrivalsAt(w', k) == ArrivalsAt(w, k) && (k in w'.entered <==> k in w.entered)
            && (k in w.entry ==> k in w'.entry && w'.entry[k] == w.entry[k])
  {
    InSnoc(w.entered, n);
  }

  /** What happens at one node leaves the others as they are. */
  lemma {:induction false} OthersKept<F>(t: Targets, root: NodeId, merge: (F, F) -> F, joins: map<NodeId, JoinPoint<F>>,
                                         followed: set<Edge>, w: Walk<F>, n: NodeId, a: Arrival<F>)
    requires forall k :: NodeOk(t, root, merge, joins, followed, w, k)
    requires a.edge in t && t[a.edge] == n
    ensures var m := Merge(merge, joins, n, a.flow);
            forall k | k != n :: NodeOk(t, root, merge, m.joins, followed + {a.edge}, Stepped(w, n, a, m), k)
  {
    var m := Merge(merge, joins, n, a.flow);
    hide Merge, Stepped, ArrivalsAt, Degree, ArrivalsOk, JoinOk, Joined;
    forall k | k != n
      ensures NodeOk(t, root, merge, m.joins, followed + {a.edge}, Stepped(w, n, a, m), k)
    {
      assert NodeOk(t, root, merge, joins, followed, w, k);
      assert EdgesTo(t, followed + {a.edge}, k) == EdgesTo(t, followed, k);
      MergedElsewhere(merge, joins, n, a.flow, k);
      SteppedElsewhere(w, n, a, m, k);
    }
  }

  lemma InSnoc(s: seq<NodeId>, n: NodeId)
    ensures forall k :: k in s + [n] <==> k in s || k == n
  {
  }

  lemma {:induction false} PutOffAt<F>(t: Targets, root: NodeId, merge: (F, F) -> F, joins: map<NodeId, JoinPoint<F>>,
                                       followed: set<Edge>, w: Walk<F>, n: NodeId, a: Arrival<F>)
    requires NodeOk(t, root, merge, joins, followed, w, n) && n != root && n !in w.entered
    requires ArrivalsOk(EdgesTo(t, followed + {a.edge}, n), ArrivalsAt(w, n) + [a])
    requires |ArrivalsAt(w, n)| + 1 < Degree(t, n)
    ensures var m := Merge(merge, joins, n, a.flow);
            && m.putOff && m.flow == a.flow
            && NodeOk(t, root, merge, m.joins, followed + {a.edge}, Arrived(w, n, a), n)
  {
    hide EdgesTo, Degree, ArrivalsOk;
    var w' := Arrived(w, n, a);
    assert ArrivalsAt(w', n)[..|ArrivalsAt(w, n)|] == ArrivalsAt(w, n);
  }

  /** A flow that is not the last one to come is accumulated, and the visit of the node is put off. */
  lemma {:induction false} PutOff<F>(t: Targets, root: NodeId, merge: (F, F) -> F, joins: map<NodeId, JoinPoint<F>>,
                                     followed: set<Edge>, w: Walk<F>, n: NodeId, a: Arrival<F>)
    requires WalkOk(t, root, merge, joins, followed, w) && Coming(t, followed, w, n, a.edge)
    requires |ArrivalsAt(w, n)| + 1 < Degree(t, n)
    ensures var m := Merge(merge, joins, n, a.flow);
            m.putOff && m.flow == a.flow && WalkOk(t, root, merge, m.joins, followed + {a.edge}, Arrived(w, n, a))
  {
    hide NodeOk, EdgesTo, ArrivalsOk, OrderOk, Merge;
    OneMore(t, root, merge, joins, followed, w, n, a);
    assert NodeOk(t, root, merge, joins, followed, w, n);
    PutOffAt(t, root, merge, joins, followed, w, n, a);
    OthersKept(t, root, merge, joins, followed, w, n, a);
    assert Stepped(w, n, a, Merge(merge, joins, n, a.flow)) == Arrived(w, n, a);
  }

  /** The last flow to come is merged with what was accumulated. */
  lemma {:induction false} LastMerged<F>(merge: (F, F) -> F, joins: map<NodeId, JoinPoint<F>>, n: NodeId,
                                         arrivals: seq<Arrival<F>>, a: Arrival<F>)
    requires if n in joins then |arrivals| > 0 && JoinOk(merge, |arrivals| + 1, joins[n], arrivals)
             else arrivals == []
    ensures var m := Merge(merge, joins, n, a.flow);
            && !m.putOff && m.flow == Joined(merge, arrivals + [a]) && (n in joins ==> joins[n].acc.Some?)
            && (n in m.joins <==> n in joins)
            && (n in joins ==> JoinOk(merge, |arrivals| + 1, m.joins[n], arrivals + [a]))
  {
    assert (arrivals + [a])[..|arrivals|] == arrivals;
  }

  lemma {:induction false} EnteredAt<F>(t: Targets, root: NodeId, merge: (F, F) -> F, joins: map<NodeId, JoinPoint<F>>,
                                        followed: set<Edge>, w: Walk<F>, n: NodeId, a: Arrival<F>)
    requires NodeOk(t, root, merge, joins, followed, w, n) && n != root && n !in w.entered
    requires ArrivalsOk(EdgesTo(t, followed + {a.edge}, n), ArrivalsAt(w, n) + [a])
    requires |ArrivalsAt(w, n)| + 1 == Degree(t, n)
    ensures var m := Merge(merge, joins, n, a.flow);
            && !m.putOff && (n in joins ==> joins[n].acc.Some?)
            && NodeOk(t, root, merge, m.joins, followed + {a.edge}, Stepped(w, n, a, m), n)
  {
    hide EdgesTo, Degree, ArrivalsOk, Accumulated, Joined, Merge;
    var w' := Stepped(w, n, a, Merge(merge, joins, n, a.flow));
    InSnoc(w.entered, n);
    LastMerged(merge, joins, n, ArrivalsAt(w, n), a);
    assert ArrivalsAt(w', n) == ArrivalsAt(w, n) + [a];
  }

  lemma {:induction false} EnteredNodes<F>(t: Targets, root: NodeId, merge: (F, F) -> F,
                                           joins: map<NodeId, JoinPoint<F>>, followed: set<Edge>, w: Walk<F>,
                                           n: NodeId, a: Arrival<F>)
    requires WalkOk(t, root, merge, joins, followed, w) && Coming(t, followed, w, n, a.edge)
    requires |ArrivalsAt(w, n)| + 1 == Degree(t, n)
    ensures var m := Merge(merge, joins, n, a.flow);
            && !m.putOff && (n in joins ==> joins[n].acc.Some?) && Stepped(w, n, a, m).entered == w.entered + [n]
            && forall k :: NodeOk(t, root, merge, m.joins, followed + {a.edge}, Stepped(w, n, a, m), k)
  {
    hide NodeOk, ArrivalsOk, OrderOk, Merge, Degree, EdgesTo, ArrivalsAt;
    OneMore(t, root, merge, joins, followed, w, n, a);
    assert NodeOk(t, root, merge, joins, followed, w, n);
    EnteredAt(t, root, merge, joins, followed, w, n, a);
    OthersKept(t, root, merge, joins, followed, w, n, a);
  }

  /** When all edges to a node were followed, all its parents were entered. */
  lemma ParentsBefore(t: Targets, followed: set<Edge>, entered: seq<NodeId>, n: NodeId)
    requires EdgesTo(t, followed, n) == EdgesTo(t, t.Keys, n) && forall e | e in followed :: e.from in entered
    ensures ParentsIn(t, n, entered)
  {
    forall e | e in t && t[e] == n ensures e.from in entered { assert e in EdgesTo(t, t.Keys, n); }
  }

  /** With the last flow that comes, the node is entered; all its parents were entered before. */
  lemma {:induction false} Entered<F>(t: Targets, root: NodeId, merge: (F, F) -> F, joins: map<NodeId, JoinPoint<F>>,
                                      followed: set<Edge>, w: Walk<F>, n: NodeId, a: Arrival<F>)
    requires WalkOk(t, root, merge, joins, followed, w) && Coming(t, followed, w, n, a.edge)
    requires |ArrivalsAt(w, n)| + 1 == Degree(t, n)
    ensures var m := Merge(merge, joins, n, a.flow);
            && !m.putOff && (n in joins ==> joins[n].acc.Some?)
            && WalkOk(t, root, merge, m.joins, followed + {a.edge}, Stepped(w, n, a, m))
  {
    hide NodeOk, ArrivalsOk, OrderOk, Merge, Degree, EdgesTo, ParentsIn, ArrivalsAt;
    assert OrderOk(t, w.entered + [n]) by {
      OneMore(t, root, merge, joins, followed, w, n, a);
      ParentsBefore(t, followed + {a.edge}, w.entered, n);
      EnteredOrder(t, w.entered, n);
    }
    EnteredNodes(t, root, merge, joins, followed, w, n, a);
    hide Stepped;
    InSnoc(w.entered, n);
  }

  lemma {:induction false} Arrives<F>(t: Targets, root: NodeId, merge: (F, F) -> F, joins: map<NodeId, JoinPoint<F>>,
                                      followed: set<Edge>, w: Walk<F>, n: NodeId, a: Arrival<F>)
    requires WalkOk(t, root, merge, joins, followed, w) && Coming(t, followed, w, n, a.edge)
    ensures n != root && n !in w.entered && (n in joins && joins[n].left == 1 ==> joins[n].acc.Some?)
    ensures forall e | e in followed + {a.edge} :: e.from != n
    ensures var m := Merge(merge, joins, n, a.flow);
            WalkOk(t, root, merge, m.joins, followed + {a.edge}, Stepped(w, n, a, m))
  {
    OneMore(t, root, merge, joins, followed, w, n, a);
    if |ArrivalsAt(w, n)| + 1 < Degree(t, n) {
      PutOff(t, root, merge, joins, followed, w, n, a);
    } else {
      Entered(t, root, merge, joins, followed, w, n, a);
    }
  }

  // ---- the flows that are recorded ----

  /** The record tells what was sent along the edges that were followed, and with what and through which edge the nodes
      were entered. */
  ghost predicate Linked<F>(w: Walk<F>, fl: Flows<F>, followed: set<Edge>, root: NodeId) {
    && fl.sent.Keys == followed && (forall e | e in fl.back :: e in followed)
    && (forall n :: n in fl.entry <==> n in w.entered)
    && (forall n :: n in fl.via <==> n in w.entered && n != root)
    && (forall n | n in w.entered && n != root :: EnteredVia(w, fl, n))
    && (forall n :: ArrivalsSent(w, fl, n))
  }

  /** A node is entered through the last edge along which a flow came to it. */
  ghost predicate EnteredVia<F>(w: Walk<F>, fl: Flows<F>, n: NodeId) {
    var arrivals := ArrivalsAt(w, n);
    && n in fl.entry && n in w.entry && fl.entry[n] == w.entry[n]
    && arrivals != [] && n in fl.via && arrivals[|arrivals| - 1].edge == fl.via[n]
  }

  ghost predicate ArrivalsSent<F>(w: Walk<F>, fl: Flows<F>, n: NodeId) {
    var arrivals := ArrivalsAt(w, n);
    forall i | 0 <= i < |arrivals| :: arrivals[i].edge in fl.sent && fl.sent[arrivals[i].edge] == arrivals[i].flow
  }

  lemma LinkedAt<F>(w: Walk<F>, fl: Flows<F>, n: NodeId, e: Edge, flow: F, m: Merged<F>)
    requires ArrivalsSent(w, fl, n) && e !in fl.sent && n !in w.entered
    ensures var w', fl' := Stepped(w, n, Arrival(e, flow), m), SentAlong(fl, e, n, flow, m.putOff, m.flow);
            ArrivalsSent(w', fl', n) && (n in w'.entered ==> EnteredVia(w', fl', n))
  {
  }

  lemma LinkedKept<F>(w: Walk<F>, fl: Flows<F>, n: NodeId, e: Edge, flow: F, m: Merged<F>, k: NodeId)
    requires k != n && ArrivalsSent(w, fl, k) && e !in fl.sent
    ensures var w', fl' := Stepped(w, n, Arrival(e, flow), m), SentAlong(fl, e, n, flow, m.putOff, m.flow);
            ArrivalsSent(w', fl', k) && (EnteredVia(w, fl, k) ==> EnteredVia(w', fl', k))
  {
    var w' := Stepped(w, n, Arrival(e, flow), m);
    assert ArrivalsAt(w', k) == ArrivalsAt(w, k);
  }

  lemma LinkedStep<F>(w: Walk<F>, fl: Flows<F>, followed: set<Edge>, root: NodeId, n: NodeId, e: Edge, flow: F,
                      m: Merged<F>)
    requires Linked(w, fl, followed, root) && n !in w.entered && n != root && e !in followed
    ensures Linked(Stepped(w, n, Arrival(e, flow), m), SentAlong(fl, e, n, flow, m.putOff, m.flow), followed + {e},
                   root)
  {
    var w', fl' := Stepped(w, n, Arrival(e, flow), m), SentAlong(fl, e, n, flow, m.putOff, m.flow);
    InSnoc(w.entered, n);
    hide ArrivalsSent, EnteredVia, ArrivalsAt;
    forall k
      ensures ArrivalsSent(w', fl', k)
      ensures k in w'.entered && k != root ==> EnteredVia(w', fl', k)
    {
      assert ArrivalsSent(w, fl, k);
      assert k in w.entered && k != root ==> EnteredVia(w, fl, k);
      if k == n { LinkedAt(w, fl, n, e, flow, m); } else { LinkedKept(w, fl, n, e, flow, m, k); }
    }
  }

  lemma NotSent<F>(w: Walk<F>, fl: Flows<F>, followed: set<Edge>, root: NodeId, e: Edge, n: NodeId)
    requires Linked(w, fl, followed, root) && e !in followed
    ensures e !in fl.sent && e !in fl.back && (n !in w.entered ==> n !in fl.entry && n !in fl.via)
  {
  }

  lemma LinkedBack<F>(w: Walk<F>, fl: Flows<F>, followed: set<Edge>, root: NodeId, e: Edge, flow: F)
    requires Linked(w, fl, followed, root) && e in followed
    ensures Linked(w, BackAlong(fl, e, flow), followed, root)
  {
    var fl' := BackAlong(fl, e, flow);
    forall k
      ensures ArrivalsSent(w, fl', k)
      ensures k in w.entered && k != root ==> EnteredVia(w, fl', k)
    {
      assert ArrivalsSent(w, fl, k);
      assert k in w.entered && k != root ==> EnteredVia(w, fl, k);
    }
  }

  lemma LinkedStart<F>(root: NodeId, flow: F)
    ensures Linked(Walk([root], map[], map[]), Flows(map[root := flow], map[], map[], map[]), {}, root)
  {
  }

  lemma EnteredOrder(t: Targets, entered: seq<NodeId>, n: NodeId)
    requires OrderOk(t, entered) && n !in entered && ParentsIn(t, n, entered)
    ensures OrderOk(t, entered + [n])
  {
    var s := entered + [n];
    forall i | 0 <= i < |s| ensures ParentsIn(t, s[i], s[..i]) {
      assert s[..i] == entered[..i];
    }
  }

  // ---- the edges of a graph ----

  ghost function TargetsOf<L>(g: Graph<L>, root: NodeId): Targets {
    map e | e in Edges(g, root) :: g[e.from].children[e.at].id
  }

  lemma DegreeIsInDegree<L>(g: Graph<L>, root: NodeId, n: NodeId)
    ensures Degree(TargetsOf(g, root), n) == InDegree(g, root, n)
  {
    assert EdgesTo(TargetsOf(g, root), TargetsOf(g, root).Keys, n) == Into(g, Edges(g, root), n);
  }

  /** The child that a followed edge leads to is reached, and it ranks below its parent. */
  lemma EdgeTarget<L>(g: Graph<L>, rank: map<NodeId, int>, root: NodeId, n: NodeId, i: int)
    requires Ranked(g, rank) && root in g && n in g && Reaches(g, root, n)
    requires 0 <= i < |g[n].children| && g[n].children[i].To?
    ensures var t, c := TargetsOf(g, root), g[n].children[i].id;
            && Edge(n, i) in t && t[Edge(n, i)] == c && c in g && Reaches(g, root, c)
            && root in rank && n in rank && c in rank && 0 <= rank[c] < rank[n] <= rank[root]
  {
    var c := g[n].children[i].id;
    assert RankOk(g, rank, n) && IsChild(g, n, c);
    ReachesChild(g, root, n, c);
    assert RankOk(g, rank, c);
    var p :| Joins(g, p, root, n);
    RankFalls(g, rank, p);
    assert n in Reached(g, root);
    assert Edge(n, i) in Edges(g, root);
  }

  lemma NoEdgeToRoot<L>(g: Graph<L>, rank: map<NodeId, int>, root: NodeId)
    requires Ranked(g, rank) && root in g
    ensures Degree(TargetsOf(g, root), root) == 0
  {
    var t := TargetsOf(g, root);
    forall e | e in t ensures t[e] != root {
      EdgeTarget(g, rank, root, e.from, e.at);
    }
    assert EdgesTo(t, t.Keys, root) == {};
  }

  /** A node that is reached, and is not the root, has a parent that is reached. */
  lemma HasParent<L>(g: Graph<L>, root: NodeId, n: NodeId) returns (e: Edge)
    requires Reaches(g, root, n) && n != root
    ensures e in TargetsOf(g, root) && TargetsOf(g, root)[e] == n
  {
    var p :| Joins(g, p, root, n);
    var before := p[..|p| - 1];
    var parent := before[|before| - 1];
    forall i | 0 < i < |before| ensures IsChild(g, before[i - 1], before[i]) { assert IsChild(g, p[i - 1], p[i]); }
    assert Joins(g, before, root, parent);
    assert IsChild(g, p[|p| - 2], n) && parent in Reached(g, root);
    var i :| 0 <= i < |g[parent].children| && g[parent].children[i] == To(n);
    e := Edge(parent, i);
    assert e in Edges(g, root);
  }

  /** When all edges from the nodes that were entered were followed, every node that is reached was entered. */
  lemma {:induction false} AllEntered<L, F>(g: Graph<L>, rank: map<NodeId, int>, root: NodeId, merge: (F, F) -> F,
                                            joins: map<NodeId, JoinPoint<F>>, followed: set<Edge>, w: Walk<F>,
                                            n: NodeId)
    requires Ranked(g, rank) && root in g && WalkOk(TargetsOf(g, root), root, merge, joins, followed, w)
    requires forall k | k in w.entered :: k in g && Spread(g, followed, k)
    requires n in g && Reaches(g, root, n)
    ensures n in w.entered
    decreases if root in rank && n in rank then rank[root] - rank[n] else 0
  {
    var t := TargetsOf(g, root);
    assert NodeOk(t, root, merge, joins, followed, w, n);
    if n != root {
      var parent := HasParent(g, root, n);
      forall e | e in EdgesTo(t, t.Keys, n)
        ensures e in followed
      {
        EdgeTarget(g, rank, root, e.from, e.at);
        AllEntered(g, rank, root, merge, joins, followed, w, e.from);
        assert Spread(g, followed, e.from);
      }
      assert EdgesTo(t, followed, n) == EdgesTo(t, t.Keys, n);
      assert parent in EdgesTo(t, followed, n);
    }
  }

  /** What a visit adds: nodes from which all edges are followed, and edges that start at them, at node n or are
      `more` */
  ghost predicate Grew<L>(g: Graph<L>, entered0: seq<NodeId>, followed0: set<Edge>, entered: seq<NodeId>,
                          followed: set<Edge>, n: NodeId, more: set<Edge>) {
    && (forall k | k in entered0 :: k in entered) && followed0 + more <= followed
    && (forall k | k in entered && k !in entered0 :: k in g && Spread(g, followed, k))
    && (forall e | e in followed && e !in followed0 && e !in more :: e.from == n || e.from !in entered0)
  }

  lemma GrewTo<L>(g: Graph<L>, entered0: seq<NodeId>, followed0: set<Edge>, e: Edge, n: NodeId, entered: seq<NodeId>,
                  followed: set<Edge>)
    requires n !in entered0 && n in g && e.from in entered0
    requires Grew(g, entered0 + [n], followed0 + {e}, entered, followed, n, {}) && Spread(g, followed, n)
    ensures Grew(g, entered0, followed0, entered, followed, e.from, {e})
    ensures forall f | f in followed && f !in followed0 && f.from == e.from :: f == e
  {
    assert forall k | k in entered0 :: k in entered0 + [n];
  }

  /** Of the edges from node n, those before the i-th one were followed. */
  lemma GrewByEdge<L>(g: Graph<L>, entered: seq<NodeId>, followed: set<Edge>, e: Edge)
    requires e.from in entered
    ensures Grew(g, entered, followed, entered, followed + {e}, e.from, {e})
  {
  }

  ghost predicate FollowedBelow<L>(g: Graph<L>, followed: set<Edge>, n: NodeId, i: int)
    requires n in g && i <= |g[n].children|
  {
    && (forall j | 0 <= j < i && g[n].children[j].To? :: Edge(n, j) in followed)
    && (forall e | e in followed && e.from == n :: e.at < i)
  }

  lemma GrewFurther<L>(g: Graph<L>, entered0: seq<NodeId>, followed0: set<Edge>, entered1: seq<NodeId>,
                       followed1: set<Edge>, entered2: seq<NodeId>, followed2: set<Edge>, e: Edge)
    requires Grew(g, entered0, followed0, entered1, followed1, e.from, {})
    requires Grew(g, entered1, followed1, entered2, followed2, e.from, {e})
    requires IsEdge(g, e) && FollowedBelow(g, followed1, e.from, e.at)
    requires forall f | f in followed2 && f !in followed1 && f.from == e.from :: f == e
    ensures Grew(g, entered0, followed0, entered2, followed2, e.from, {})
    ensures FollowedBelow(g, followed2, e.from, e.at + 1)
  {
  }

  // ---- the loop over the children of a node ----

  /** How far the visit of node n came since the walk, the edges and the record were the given ones */
  ghost predicate Passing<L, F>(g: Graph<L>, a: Analysis<F>, w0: Walk<F>, edges0: set<Edge>, fl0: Flows<F>,
                                w: Walk<F>, edges: set<Edge>, fl: Flows<F>, n: NodeId, i: nat, flow: F) {
    && n in g && i <= |g[n].children|
    && Grew(g, w0.entered, edges0, w.entered, edges, n, {}) && FollowedBelow(g, edges, n, i)
    && FlowsGrew(fl0, fl) && OnlyNewBack(fl0, fl) && NewPassed(g, a, fl, w0.entered, w.entered)
    && Passed(g, a, fl, n, i) && flow == FlowAt(g, a, fl, n, i)
  }

  lemma PassingStarts<L, F>(g: Graph<L>, a: Analysis<F>, w: Walk<F>, edges: set<Edge>, fl: Flows<F>, n: NodeId)
    requires n in g && n in fl.entry && forall e | e in edges :: e.from != n
    ensures Passing(g, a, w, edges, fl, w, edges, fl, n, 0, a.enter(n, fl.entry[n]))
  {
    NothingNew(g, a, fl, w.entered);
    assert Grew(g, w.entered, edges, w.entered, edges, n, {});
  }

  lemma PassingAt<L, F>(g: Graph<L>, a: Analysis<F>, w0: Walk<F>, edges0: set<Edge>, fl0: Flows<F>, w: Walk<F>,
                        edges: set<Edge>, fl: Flows<F>, n: NodeId, i: nat, flow: F)
    requires Passing(g, a, w0, edges0, fl0, w, edges, fl, n, i, flow)
    requires i < |g[n].children| && g[n].children[i].To?
    ensures IsLink(g, n, i) && FollowedBelow(g, edges, n, i) && Passed(g, a, fl, n, i) && flow == FlowAt(g, a, fl, n, i)
  {
  }

  /** One more child was visited. */
  lemma PassingOn<L, F>(g: Graph<L>, a: Analysis<F>, w0: Walk<F>, edges0: set<Edge>, fl0: Flows<F>, w: Walk<F>,
                        edges: set<Edge>, fl: Flows<F>, flow: F, w': Walk<F>, edges': set<Edge>, fl': Flows<F>,
                        n: NodeId, i: nat, flow': F)
    requires Passing(g, a, w0, edges0, fl0, w, edges, fl, n, i, flow) && IsLink(g, n, i)
    requires Grew(g, w.entered, edges, w'.entered, edges', n, {Edge(n, i)})
    requires forall f | f in edges' && f !in edges && f.from == n :: f == Edge(n, i)
    requires FlowsGrew(fl, fl') && OnlyNewBack(fl, fl') && NewPassed(g, a, fl', w.entered, w'.entered)
    requires Passed(g, a, fl', n, i + 1) && flow' == FlowAt(g, a, fl', n, i + 1)
    ensures Passing(g, a, w0, edges0, fl0, w', edges', fl', n, i + 1, flow')
  {
    hide Grew, FollowedBelow, FlowsGrew, OnlyNewBack, NewPassed, Passed, FlowAt;
    GrewFurther(g, w0.entered, edges0, w.entered, edges, w'.entered, edges', Edge(n, i));
    GrewTwice(fl0, fl, fl');
    NewPassedKept(g, a, fl, fl', w0.entered, w.entered, w'.entered);
  }

  lemma PassingNull<L, F>(g: Graph<L>, a: Analysis<F>, w0: Walk<F>, edges0: set<Edge>, fl0: Flows<F>, w: Walk<F>,
                          edges: set<Edge>, fl: Flows<F>, n: NodeId, i: nat, flow: F)
    requires Passing(g, a, w0, edges0, fl0, w, edges, fl, n, i, flow)
    requires i < |g[n].children| && !g[n].children[i].To?
    ensures Passing(g, a, w0, edges0, fl0, w, edges, fl, n, i + 1, flow)
  {
    hide Grew, FlowsGrew, OnlyNewBack, NewPassed;
    PassedNull(g, a, fl, n, i);
  }

  lemma PassingEnds<L, F>(g: Graph<L>, a: Analysis<F>, w0: Walk<F>, edges0: set<Edge>, fl0: Flows<F>, w: Walk<F>,
                          edges: set<Edge>, fl: Flows<F>, n: NodeId, flow: F)
    requires n in g && Passing(g, a, w0, edges0, fl0, w, edges, fl, n, |g[n].children|, flow)
    ensures Spread(g, edges, n) && Grew(g, w0.entered, edges0, w.entered, edges, n, {})
    ensures FlowsGrew(fl0, fl) && OnlyNewBack(fl0, fl) && NewPassed(g, a, fl, w0.entered, w.entered)
    ensures AllPassed(g, a, fl, n) && flow == FlowAt(g, a, fl, n, |g[n].children|)
  {
  }

  lemma SomeMember(s: set<NodeId>)
    ensures s == {} || exists n :: n in s
  {
    if forall n :: n !in s { assert s == {}; }
  }

  /** Only nodes that are counted more than once are kept as join points. */
  method JoinPointsOf<F>(counts: map<NodeId, int>) returns (joins: map<NodeId, JoinPoint<F>>)
    ensures joins == map n | n in counts && counts[n] > 1 :: JoinPoint(None, counts[n])
  {
    joins := map n | n in counts :: JoinPoint(None, counts[n]);
    var rest := counts.Keys;
    while rest != {}
      invariant forall n | n in rest :: n in counts
      invariant joins == map n | n in counts && (n in rest || counts[n] > 1) :: JoinPoint(None, counts[n])
      decreases rest
    {
      SomeMember(rest);
      var n :| n in rest;
      if counts[n] <= 1 { joins := joins - {n}; }
      rest := rest - {n};
    }
  }

  class JoinFlowInspector<L, F> {
    const g: Graph<L>
    const root: NodeId
    const analysis: Analysis<F>
    ghost const rank: map<NodeId, int>
    var joinPoints: map<NodeId, JoinPoint<F>>
    /** The data of the visitor */
    var flow: F
    ghost var followed: set<Edge>
    ghost var walk: Walk<F>
    ghost var flows: Flows<F>

    constructor (g: Graph<L>, root: NodeId, analysis: Analysis<F>, flow: F, ghost rank: map<NodeId, int>)
      requires Ranked(g, rank) && root in g
      ensures this.g == g && this.root == root && this.analysis == analysis && this.flow == flow && this.rank == rank
    {
      this.g, this.root, this.analysis, this.flow, this.rank := g, root, analysis, flow, rank;
      joinPoints, followed, walk := map[], {}, Walk([], map[], map[]);
      flows := Flows(map[], map[], map[], map[]);
    }

    ghost predicate Valid()
      reads this
    {
      && Ranked(g, rank) && root in g
      && WalkOk(TargetsOf(g, root), root, analysis.merge, joinPoints, followed, walk)
      && Linked(walk, flows, followed, root)
    }

    /** Merges the flow that comes to a node; true means that the visit of the node is put off. */
    method JoinsFlow(n: NodeId) returns (putOff: bool)
      requires n in joinPoints && joinPoints[n].left == 1 ==> joinPoints[n].acc.Some?
      modifies `joinPoints, `flow
      ensures Merged(joinPoints, putOff, flow) == Merge(analysis.merge, old(joinPoints), n, old(flow))
    {
      if n in joinPoints {
        var status := joinPoints[n];
        status := status.(left := status.left - 1);
        joinPoints := joinPoints[n := status];
        if status.left == 0 {
          flow := analysis.merge(flow, status.acc.value);
          return false;
        } else if status.acc.Some? {
          joinPoints := joinPoints[n := status.(acc := Some(analysis.merge(status.acc.value, flow)))];
          return true;
        } else {
          joinPoints := joinPoints[n := status.(acc := Some(flow))];
          return true;
        }
      }
      return false;
    }

    /** A flow comes along an edge; the node is entered, with what the flows are merged to, unless its visit is put
        off. */
    method Arrive(n: NodeId, ghost e: Edge) returns (putOff: bool)
      requires Valid() && Coming(TargetsOf(g, root), followed, walk, n, e)
      modifies this
      ensures Valid() && followed == old(followed) + {e} && n !in old(walk.entered)
      ensures forall f | f in followed :: f.from != n
      ensures ArrivalsAt(walk, n) == old(ArrivalsAt(walk, n)) + [Arrival(e, old(flow))]
      ensures if putOff then walk.entered == old(walk.entered) && flow == old(flow)
              else walk.entered == old(walk.entered) + [n] && n in walk.entry && walk.entry[n] == flow
      ensures flows == SentAlong(old(flows), e, n, old(flow), putOff, flow)
    {
      hide WalkOk, Linked, FlowsGrew;
      ghost var a := Arrival(e, flow);
      Arrives(TargetsOf(g, root), root, analysis.merge, joinPoints, followed, walk, n, a);
      ghost var m := Merge(analysis.merge, joinPoints, n, flow);
      LinkedStep(walk, flows, followed, root, n, e, flow, m);
      putOff := JoinsFlow(n);
      followed, walk, flows := followed + {e}, Stepped(walk, n, a, m), SentAlong(flows, e, n, a.flow, putOff, flow);
    }

    method ApplyVisitor(n: NodeId, ghost e: Edge)
      requires Valid() && Coming(TargetsOf(g, root), followed, walk, n, e) && n in g && Reaches(g, root, n)
      modifies this
      ensures Valid() && Grew(g, old(walk.entered), old(followed), walk.entered, followed, e.from, {e})
      ensures forall f | f in followed && f !in old(followed) && f.from == e.from :: f == e
      ensures FlowsGrew(old(flows), flows) && OnlyNewBack(old(flows), flows)
      ensures NewPassed(g, analysis, flows, old(walk.entered), walk.entered)
      ensures Returned(g, analysis, flows, e, n) && flows.sent[e] == old(flow) && flows.back[e] == flow
      decreases if n in rank then rank[n] else 0, 3
    {
      hide WalkOk, Linked, FlowsGrew, OnlyNewBack, NewPassed, Returned, Grew, AllPassed;
      ghost var entered, edges, before, sent := walk.entered, followed, flows, flow;
      NotSent(walk, flows, followed, root, e, n);
      var putOff := Arrive(n, e);
      SentGrows(before, e, n, sent, putOff, flow);
      ghost var arrived := flows;
      if putOff {
        GrewByEdge(g, entered, edges, e);
        PutOffReturns(g, analysis, before, e, n, flow);
        NothingNew(g, analysis, flows, entered);
      } else {
        VisitEntered(n, e);
        GrewTo(g, entered, edges, e, n, walk.entered, followed);
        NewPassedWith(g, analysis, flows, entered, n, walk.entered);
        VisitReturns(g, analysis, flows, e, n, flow);
        GrewTwice(before, arrived, flows);
      }
      LinkedBack(walk, flows, followed, root, e, flow);
      BackGrows(flows, e, flow);
      SentAndBack(before, flows, e, flow);
      NothingNew(g, analysis, BackAlong(flows, e, flow), walk.entered);
      NewPassedKept(g, analysis, flows, BackAlong(flows, e, flow), entered, walk.entered, walk.entered);
      flows := BackAlong(flows, e, flow);
    }

    /** The visit of a node that was just entered through edge e: preorder, the children, and postorder */
    method VisitEntered(n: NodeId, ghost e: Edge)
      requires Valid() && n in g && Reaches(g, root, n) && n in walk.entered
      requires n in flows.entry && flow == flows.entry[n]
      requires e in flows.sent && e !in flows.back && n in flows.via && flows.via[n] == e
      requires forall f | f in followed :: f.from != n
      modifies this
      ensures Valid() && Spread(g, followed, n)
      ensures Grew(g, old(walk.entered), old(followed), walk.entered, followed, n, {})
      ensures FlowsGrew(old(flows), flows) && OnlyNewBack(old(flows), flows)
      ensures NewPassed(g, analysis, flows, old(walk.entered), walk.entered) && AllPassed(g, analysis, flows, n)
      ensures flow == analysis.leave(n, FlowAt(g, analysis, flows, n, |g[n].children|))
      ensures e in flows.sent && flows.sent[e] == old(flows).sent[e] && e !in flows.back
      ensures n in flows.via && flows.via[n] == e
      decreases if n in rank then rank[n] else 0, 2
    {
      hide WalkOk, Linked, NewPassed, Grew, AllPassed, Spread;
      flow := analysis.enter(n, flow);
      VisitChildren(n);
      flow := analysis.leave(n, flow);
    }

    method VisitChildren(n: NodeId)
      requires Valid() && n in g && Reaches(g, root, n) && n in walk.entered
      requires n in flows.entry && flow == analysis.enter(n, flows.entry[n])
      requires forall e | e in followed :: e.from != n
      modifies this
      ensures Valid() && Spread(g, followed, n)
      ensures Grew(g, old(walk.entered), old(followed), walk.entered, followed, n, {})
      ensures FlowsGrew(old(flows), flows) && OnlyNewBack(old(flows), flows)
      ensures NewPassed(g, analysis, flows, old(walk.entered), walk.entered) && AllPassed(g, analysis, flows, n)
      ensures flow == FlowAt(g, analysis, flows, n, |g[n].children|)
      decreases if n in rank then rank[n] else 0, 1
    {
      PassingStarts(g, analysis, walk, followed, flows, n);
      hide *;
      for i := 0 to |g[n].children|
        invariant Valid() && n in walk.entered
        invariant Passing(g, analysis, old(walk), old(followed), old(flows), walk, followed, flows, n, i, flow)
      {
        if g[n].children[i].To? {
          ghost var w, edges, fl, sent := walk, followed, flows, flow;
          PassingAt(g, analysis, old(walk), old(followed), old(flows), w, edges, fl, n, i, sent);
          VisitChild(n, i);
          PassingOn(g, analysis, old(walk), old(followed), old(flows), w, edges, fl, sent,
                    walk, followed, flows, n, i, flow);
        } else {
          PassingNull(g, analysis, old(walk), old(followed), old(flows), walk, followed, flows, n, i, flow);
        }
      }
      PassingEnds(g, analysis, old(walk), old(followed), old(flows), walk, followed, flows, n, flow);
    }

    method VisitChild(n: NodeId, i: nat)
      requires Valid() && n in g && Reaches(g, root, n) && n in walk.entered && IsLink(g, n, i)
      requires FollowedBelow(g, followed, n, i)
      requires Passed(g, analysis, flows, n, i) && flow == FlowAt(g, analysis, flows, n, i)
      modifies this
      ensures Valid() && Grew(g, old(walk.entered), old(followed), walk.entered, followed, n, {Edge(n, i)})
      ensures forall f | f in followed && f !in old(followed) && f.from == n :: f == Edge(n, i)
      ensures FlowsGrew(old(flows), flows) && OnlyNewBack(old(flows), flows)
      ensures NewPassed(g, analysis, flows, old(walk.entered), walk.entered)
      ensures Passed(g, analysis, flows, n, i + 1) && flow == FlowAt(g, analysis, flows, n, i + 1)
      decreases if n in rank then rank[n] else 0, 0
    {
      ghost var before, sent := flows, flow;
      EdgeTarget(g, rank, root, n, i);
      hide WalkOk, Linked, FlowsGrew, OnlyNewBack, NewPassed, Returned, Grew, Passed, FlowAt;
      ApplyVisitor(g[n].children[i].id, Edge(n, i));
      PassedMore(g, analysis, before, flows, n, i, sent, flow);
    }

    /** init_join_flows: the nodes to which more than one edge leads become join points. */
    method InitJoinFlows()
      requires Ranked(g, rank) && root in g
      modifies this`joinPoints
      ensures forall n :: n in joinPoints <==> Degree(TargetsOf(g, root), n) > 1
      ensures forall n | n in joinPoints :: joinPoints[n] == JoinPoint(None, Degree(TargetsOf(g, root), n))
    {
      var setup := new SetupJoinPoints(g, root, rank);
      setup.Apply();
      joinPoints := JoinPointsOf(setup.counts);
      CountedDegrees(g, rank, root, setup.counts, joinPoints);
    }

    /** The join points are found, and the root is entered with the flow that the visitor begins with. */
    method InitApply()
      requires Ranked(g, rank) && root in g
      modifies this
      ensures Valid() && Reaches(g, root, root) && flow == old(flow)
      ensures walk.entered == [root] && followed == {} && root in flows.entry && flows.entry[root] == flow
    {
      InitJoinFlows();
      ReachesSelf(g, root);
      walk, followed := Walk([root], map[], map[]), {};
      flows := Flows(map[root := flow], map[], map[], map[]);
      StartOk(g, rank, root, analysis.merge, joinPoints);
      LinkedStart(root, flow);
    }

    /** Every node that the root reaches is entered exactly once, and only after all its parents; each of the edges to
        a node brings one flow, and the node is entered with all of them merged, through the last of these edges. What
        each edge brings is what the visits make of the flow that the visitor began with. */
    method Apply()
      requires Ranked(g, rank) && root in g
      modifies this
      ensures forall i, j | 0 <= i < j < |walk.entered| :: walk.entered[i] != walk.entered[j]
      ensures forall n :: n in walk.entered <==> n in g && Reaches(g, root, n)
      ensures forall i | 0 <= i < |walk.entered| ::
                ParentsIn(TargetsOf(g, root), walk.entered[i], walk.entered[..i])
      ensures forall n | n in walk.entered && n != root ::
                && ArrivalsAt(walk, n) != [] && n in walk.entry
                && ArrivalsOk(EdgesTo(TargetsOf(g, root), TargetsOf(g, root).Keys, n), ArrivalsAt(walk, n))
                && walk.entry[n] == Joined(analysis.merge, ArrivalsAt(walk, n))
      ensures forall n | n in walk.entered ::
                && AllPassed(g, analysis, flows, n) && ArrivalsSent(walk, flows, n)
                && (n != root ==> EnteredVia(walk, flows, n))
      ensures AllPassed(g, analysis, flows, root) && flows.entry[root] == old(flow)
      ensures flow == analysis.leave(root, FlowAt(g, analysis, flows, root, |g[root].children|))
    {
      InitApply();
      hide WalkOk, Linked, FlowsGrew, OnlyNewBack, NewPassed, AllPassed, Grew, Spread, FlowAt, Ranked;
      ghost var started := flows;
      flow := analysis.enter(root, flow);
      VisitChildren(root);
      flow := analysis.leave(root, flow);
      Recorded(g, rank, root, analysis, joinPoints, followed, walk, started, flows);
    }
  }

  lemma UnreachedHasNoEdge<L>(g: Graph<L>, rank: map<NodeId, int>, root: NodeId, n: NodeId)
    requires Ranked(g, rank) && root in g && n !in Reached(g, root)
    ensures Degree(TargetsOf(g, root), n) == 0
  {
    var t := TargetsOf(g, root);
    forall e | e in t ensures t[e] != n { EdgeTarget(g, rank, root, e.from, e.at); }
    assert EdgesTo(t, t.Keys, n) == {};
  }

  lemma {:induction false} CountedDegrees<L, F>(g: Graph<L>, rank: map<NodeId, int>, root: NodeId,
                                                counts: map<NodeId, int>, joins: map<NodeId, JoinPoint<F>>)
    requires Ranked(g, rank) && root in g && counts.Keys == Reached(g, root)
    requires forall n | n in counts :: counts[n] == InDegree(g, root, n) + if n == root then 1 else 0
    requires joins == map n | n in counts && counts[n] > 1 :: JoinPoint(None, counts[n])
    ensures forall n :: n in joins <==> Degree(TargetsOf(g, root), n) > 1
    ensures forall n | n in joins :: joins[n] == JoinPoint(None, Degree(TargetsOf(g, root), n))
  {
    NoEdgeToRoot(g, rank, root);
    forall n
      ensures n in joins <==> Degree(TargetsOf(g, root), n) > 1
      ensures n in joins ==> joins[n] == JoinPoint(None, Degree(TargetsOf(g, root), n))
    {
      DegreeIsInDegree(g, root, n);
      if n !in counts { UnreachedHasNoEdge(g, rank, root, n); }
    }
  }

  lemma StartOk<L, F>(g: Graph<L>, rank: map<NodeId, int>, root: NodeId, merge: (F, F) -> F,
                      joins: map<NodeId, JoinPoint<F>>)
    requires Ranked(g, rank) && root in g
    requires forall n :: n in joins <==> Degree(TargetsOf(g, root), n) > 1
    requires forall n | n in joins :: joins[n] == JoinPoint(None, Degree(TargetsOf(g, root), n))
    ensures WalkOk(TargetsOf(g, root), root, merge, joins, {}, Walk([root], map[], map[]))
  {
    var t := TargetsOf(g, root);
    var w: Walk<F> := Walk([root], map[], map[]);
    NoEdgeToRoot(g, rank, root);
    assert EdgesTo(t, t.Keys, root) == {};
    assert forall e | e in t :: t[e] == root ==> e in EdgesTo(t, t.Keys, root);
    forall n ensures NodeOk(t, root, merge, joins, {}, w, n) {
      assert EdgesTo(t, {}, n) == {};
    }
  }

  /** What a finished walk and its record tell of the nodes that were entered */
  lemma Recorded<L, F>(g: Graph<L>, rank: map<NodeId, int>, root: NodeId, a: Analysis<F>,
                       joins: map<NodeId, JoinPoint<F>>, followed: set<Edge>, w: Walk<F>, fl0: Flows<F>, fl: Flows<F>)
    requires Ranked(g, rank) && root in g && WalkOk(TargetsOf(g, root), root, a.merge, joins, followed, w)
    requires Linked(w, fl, followed, root) && Grew(g, [root], {}, w.entered, followed, root, {})
    requires Spread(g, followed, root) && AllPassed(g, a, fl, root) && NewPassed(g, a, fl, [root], w.entered)
    requires root in fl0.entry && FlowsGrew(fl0, fl)
    ensures forall i, j | 0 <= i < j < |w.entered| :: w.entered[i] != w.entered[j]
    ensures forall n :: n in w.entered <==> n in g && Reaches(g, root, n)
    ensures forall i | 0 <= i < |w.entered| :: ParentsIn(TargetsOf(g, root), w.entered[i], w.entered[..i])
    ensures forall n | n in w.entered && n != root ::
              && ArrivalsAt(w, n) != [] && n in w.entry
              && ArrivalsOk(EdgesTo(TargetsOf(g, root), TargetsOf(g, root).Keys, n), ArrivalsAt(w, n))
              && w.entry[n] == Joined(a.merge, ArrivalsAt(w, n))
    ensures forall n | n in w.entered ::
              AllPassed(g, a, fl, n) && ArrivalsSent(w, fl, n) && (n != root ==> EnteredVia(w, fl, n))
    ensures root in fl.entry && fl.entry[root] == fl0.entry[root]
  {
    hide NodeOk, ArrivalsSent, EnteredVia, AllPassed, ParentsIn, Spread, ArrivalsAt, ArrivalsOk, EdgesTo, Joined,
         Reaches;
    assert forall k | k in w.entered :: k in g && Spread(g, followed, k);
    AllJoined(g, rank, root, a.merge, joins, followed, w);
    hide WalkOk, Grew, Ranked;
    assert forall n | n in w.entered :: AllPassed(g, a, fl, n);
    assert forall n :: ArrivalsSent(w, fl, n);
  }

  lemma AllJoined<L, F>(g: Graph<L>, rank: map<NodeId, int>, root: NodeId, merge: (F, F) -> F,
                        joins: map<NodeId, JoinPoint<F>>, followed: set<Edge>, w: Walk<F>)
    requires Ranked(g, rank) && root in g && WalkOk(TargetsOf(g, root), root, merge, joins, followed, w)
    requires forall k | k in w.entered :: k in g && Spread(g, followed, k)
    ensures forall n :: n in w.entered <==> n in g && Reaches(g, root, n)
    ensures forall n | n in w.entered && n != root ::
              && ArrivalsAt(w, n) != [] && n in w.entry
              && ArrivalsOk(EdgesTo(TargetsOf(g, root), TargetsOf(g, root).Keys, n), ArrivalsAt(w, n))
              && w.entry[n] == Joined(merge, ArrivalsAt(w, n))
  {
    var t := TargetsOf(g, root);
    ReachesSelf(g, root);
    forall n | n in g && Reaches(g, root, n) ensures n in w.entered {
      AllEntered(g, rank, root, merge, joins, followed, w, n);
    }
    forall n | n in w.entered && n != root
      ensures Reaches(g, root, n)
      ensures ArrivalsAt(w, n) != [] && n in w.entry && w.entry[n] == Joined(merge, ArrivalsAt(w, n))
      ensures ArrivalsOk(EdgesTo(t, t.Keys, n), ArrivalsAt(w, n))
    {
      assert NodeOk(t, root, merge, joins, followed, w, n);
      SubsetSize(EdgesTo(t, followed, n), EdgesTo(t, t.Keys, n));
      var e := ArrivalsAt(w, n)[0].edge;
      assert e in EdgesTo(t, followed, n);
      EdgeTarget(g, rank, root, e.from, e.at);
    }
  }
}
