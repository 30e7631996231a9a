/** What flows along the edges of a graph when an Inspector with join flows walks over it (ir/visitor.cpp) */
module FlowRecords {
  import opened IrGraph
  import opened JoinPoints

  /** What a visitor does with the data that flows through it is arbitrary: what preorder and postorder make of it,
      and how two flows are merged. */
  datatype Analysis<!F> = Analysis(enter: (NodeId, F) -> F, leave: (NodeId, F) -> F, merge: (F, F) -> F)

  /** The flow with which each node was entered, the flows that were sent along edges and that came back, and the edge
      through which each node was entered */
  datatype Flows<F> = Flows(entry: map<NodeId, F>, sent: map<Edge, F>, back: map<Edge, F>, via: map<NodeId, Edge>)

  ghost predicate IsLink<L>(g: Graph<L>, n: NodeId, j: int) {
    n in g && 0 <= j < |g[n].children| && g[n].children[j].To?
  }

  /** The flows that were sent to the first i children came back. */
  ghost predicate CameBack<L, F>(g: Graph<L>, fl: Flows<F>, n: NodeId, i: nat) {
    && n in g && n in fl.entry && i <= |g[n].children|
    && forall j | 0 <= j < i && IsLink(g, n, j) :: Edge(n, j) in fl.sent && Edge(n, j) in fl.back
  }

  /** The flow of a visit before child i: what preorder made of the flow at the entry, or what came back from the child
      before. Null children are passed over. */
  ghost function FlowAt<L, F>(g: Graph<L>, a: Analysis<F>, fl: Flows<F>, n: NodeId, i: nat): F
    requires CameBack(g, fl, n, i)
  {
    if i == 0 then a.enter(n, fl.entry[n])
    else if IsLink(g, n, i - 1) then fl.back[Edge(n, i - 1)]
    else FlowAt(g, a, fl, n, i - 1)
  }

  /** What comes back along an edge: what postorder made of the flow of the visit that it began, or what was sent when
      it began none */
  ghost predicate Returned<L, F>(g: Graph<L>, a: Analysis<F>, fl: Flows<F>, e: Edge, c: NodeId) {
    && e in fl.sent && e in fl.back
    && if c in fl.via && fl.via[c] == e then
         c in g && CameBack(g, fl, c, |g[c].children|)
         && fl.back[e] == a.leave(c, FlowAt(g, a, fl, c, |g[c].children|))
       else fl.back[e] == fl.sent[e]
  }

  ghost predicate Sent<L, F>(g: Graph<L>, a: Analysis<F>, fl: Flows<F>, n: NodeId, j: nat) {
    && CameBack(g, fl, n, j) && IsLink(g, n, j)
    && Returned(g, a, fl, Edge(n, j), g[n].children[j].id)
    && fl.sent[Edge(n, j)] == FlowAt(g, a, fl, n, j)
  }

  /** The visit of a node was passed on to its first i children, one after the other. */
  ghost predicate Passed<L, F>(g: Graph<L>, a: Analysis<F>, fl: Flows<F>, n: NodeId, i: nat) {
    CameBack(g, fl, n, i) && forall j | 0 <= j < i && IsLink(g, n, j) :: Sent(g, a, fl, n, j)
  }

  ghost predicate AllPassed<L, F>(g: Graph<L>, a: Analysis<F>, fl: Flows<F>, n: NodeId) {
    n in g && Passed(g, a, fl, n, |g[n].children|)
  }

  /** What is recorded stays, and nodes that are entered later are not entered through edges that came back. */
  ghost predicate FlowsGrew<F>(fl: Flows<F>, fl': Flows<F>) {
    && (forall n | n in fl.entry :: n in fl'.entry && fl'.entry[n] == fl.entry[n])
    && (forall e | e in fl.sent :: e in fl'.sent && fl'.sent[e] == fl.sent[e])
    && (forall e | e in fl.back :: e in fl'.back && fl'.back[e] == fl.back[e])
    && (forall n | n in fl.via :: n in fl'.via && fl'.via[n] == fl.via[n])
    && (forall n | n in fl'.via && n !in fl.via :: fl'.via[n] !in fl.back)
  }

  /** Only flows that were sent meanwhile came back meanwhile. */
  ghost predicate OnlyNewBack<F>(fl: Flows<F>, fl': Flows<F>) {
    forall e | e in fl'.back && e !in fl.back :: e !in fl.sent
  }

  lemma GrewTwice<F>(a: Flows<F>, b: Flows<F>, c: Flows<F>)
    requires FlowsGrew(a, b) && FlowsGrew(b, c)
    ensures FlowsGrew(a, c)
    ensures OnlyNewBack(a, b) && OnlyNewBack(b, c) ==> OnlyNewBack(a, c)
  {
  }

  lemma {:induction false} FlowAtKept<L, F>(g: Graph<L>, a: Analysis<F>, fl: Flows<F>, fl': Flows<F>, n: NodeId, i: nat)
    requires CameBack(g, fl, n, i) && FlowsGrew(fl, fl')
    ensures CameBack(g, fl', n, i) && FlowAt(g, a, fl', n, i) == FlowAt(g, a, fl, n, i)
  {
    if i > 0 && !IsLink(g, n, i - 1) { FlowAtKept(g, a, fl, fl', n, i - 1); }
  }

  lemma SentKept<L, F>(g: Graph<L>, a: Analysis<F>, fl: Flows<F>, fl': Flows<F>, n: NodeId, j: nat)
    requires Sent(g, a, fl, n, j) && FlowsGrew(fl, fl')
    ensures Sent(g, a, fl', n, j)
  {
    FlowAtKept(g, a, fl, fl', n, j);
    var c := g[n].children[j].id;
    if c in fl.via && fl.via[c] == Edge(n, j) { FlowAtKept(g, a, fl, fl', c, |g[c].children|); }
  }

  lemma PassedKept<L, F>(g: Graph<L>, a: Analysis<F>, fl: Flows<F>, fl': Flows<F>, n: NodeId, i: nat)
    requires Passed(g, a, fl, n, i) && FlowsGrew(fl, fl')
    ensures Passed(g, a, fl', n, i)
  {
    forall j | 0 <= j < i && IsLink(g, n, j) ensures Sent(g, a, fl', n, j) { SentKept(g, a, fl, fl', n, j); }
    FlowAtKept(g, a, fl, fl', n, i);
  }

  /** One more child: a flow was sent to it, and another one came back. */
  lemma PassedMore<L, F>(g: Graph<L>, a: Analysis<F>, fl: Flows<F>, fl': Flows<F>, n: NodeId, i: nat, before: F,
                         after: F)
    requires Passed(g, a, fl, n, i) && FlowsGrew(fl, fl') && IsLink(g, n, i) && before == FlowAt(g, a, fl, n, i)
    requires Returned(g, a, fl', Edge(n, i), g[n].children[i].id)
    requires fl'.sent[Edge(n, i)] == before && fl'.back[Edge(n, i)] == after
    ensures Passed(g, a, fl', n, i + 1) && FlowAt(g, a, fl', n, i + 1) == after
  {
    PassedKept(g, a, fl, fl', n, i);
    FlowAtKept(g, a, fl, fl', n, i);
  }

  lemma PassedNull<L, F>(g: Graph<L>, a: Analysis<F>, fl: Flows<F>, n: NodeId, i: nat)
    requires Passed(g, a, fl, n, i) && i < |g[n].children| && !IsLink(g, n, i)
    ensures Passed(g, a, fl, n, i + 1) && FlowAt(g, a, fl, n, i + 1) == FlowAt(g, a, fl, n, i)
  {
  }

  /** The nodes that were entered meanwhile passed their flows on to all their children. */
  ghost predicate NewPassed<L, F>(g: Graph<L>, a: Analysis<F>, fl: Flows<F>, entered0: seq<NodeId>,
                                  entered: seq<NodeId>) {
    forall k | k in entered && k !in entered0 :: AllPassed(g, a, fl, k)
  }

  lemma NewPassedKept<L, F>(g: Graph<L>, a: Analysis<F>, fl: Flows<F>, fl': Flows<F>, entered0: seq<NodeId>,
                            entered: seq<NodeId>, entered': seq<NodeId>)
    requires NewPassed(g, a, fl, entered0, entered) && FlowsGrew(fl, fl') && NewPassed(g, a, fl', entered, entered')
    ensures NewPassed(g, a, fl', entered0, entered')
  {
    forall k | k in entered' && k !in entered0
      ensures AllPassed(g, a, fl', k)
    {
      if k in entered { PassedKept(g, a, fl, fl', k, |g[k].children|); }
    }
  }

  lemma NothingNew<L, F>(g: Graph<L>, a: Analysis<F>, fl: Flows<F>, entered: seq<NodeId>)
    ensures NewPassed(g, a, fl, entered, entered)
  {
  }

  lemma NewPassedWith<L, F>(g: Graph<L>, a: Analysis<F>, fl: Flows<F>, entered0: seq<NodeId>, n: NodeId,
                            entered: seq<NodeId>)
    requires NewPassed(g, a, fl, entered0 + [n], entered) && AllPassed(g, a, fl, n)
    ensures NewPassed(g, a, fl, entered0, entered)
  {
    assert forall k :: k in entered0 + [n] <==> k in entered0 || k == n;
  }

  // ---- the steps of a walk ----

  /** A flow is sent along an edge. It enters the node that the edge leads to, as `flow`, or is put off. */
  function SentAlong<F>(fl: Flows<F>, e: Edge, n: NodeId, sent: F, putOff: bool, flow: F): Flows<F> {
    var fl' := fl.(sent := fl.sent[e := sent]);
    if putOff then fl' else fl'.(entry := fl'.entry[n := flow], via := fl'.via[n := e])
  }

  function BackAlong<F>(fl: Flows<F>, e: Edge, flow: F): Flows<F> {
    fl.(back := fl.back[e := flow])
  }

  lemma SentGrows<F>(fl: Flows<F>, e: Edge, n: NodeId, sent: F, putOff: bool, flow: F)
    requires e !in fl.sent && e !in fl.back && (!putOff ==> n !in fl.entry && n !in fl.via)
    ensures FlowsGrew(fl, SentAlong(fl, e, n, sent, putOff, flow))
    ensures OnlyNewBack(fl, SentAlong(fl, e, n, sent, putOff, flow))
  {
  }

  lemma BackGrows<F>(fl: Flows<F>, e: Edge, flow: F)
    requires e !in fl.back
    ensures FlowsGrew(fl, BackAlong(fl, e, flow))
  {
  }

  /** A flow was sent along an edge, perhaps others were sent and came back, and it came back. */
  lemma SentAndBack<F>(fl: Flows<F>, mid: Flows<F>, e: Edge, flow: F)
    requires e !in fl.sent && e !in mid.back && FlowsGrew(fl, mid) && OnlyNewBack(fl, mid)
    ensures FlowsGrew(fl, BackAlong(mid, e, flow)) && OnlyNewBack(fl, BackAlong(mid, e, flow))
  {
  }

  lemma PutOffReturns<L, F>(g: Graph<L>, a: Analysis<F>, fl: Flows<F>, e: Edge, n: NodeId, flow: F)
    requires n !in fl.via
    ensures Returned(g, a, BackAlong(SentAlong(fl, e, n, flow, true, flow), e, flow), e, n)
  {
  }

  lemma VisitReturns<L, F>(g: Graph<L>, a: Analysis<F>, fl: Flows<F>, e: Edge, n: NodeId, flow: F)
    requires AllPassed(g, a, fl, n) && e in fl.sent && e !in fl.back && n in fl.via && fl.via[n] == e
    requires flow == a.leave(n, FlowAt(g, a, fl, n, |g[n].children|))
    ensures Returned(g, a, BackAlong(fl, e, flow), e, n)
  {
    BackGrows(fl, e, flow);
    FlowAtKept(g, a, fl, BackAlong(fl, e, flow), n, |g[n].children|);
  }
}
