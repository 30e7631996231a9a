/** Loading what the generator wrote (ir/json_generator.h, ir/json_loader.h) */
module JsonGraphRoundTrip {
  import opened Wrappers
  import opened IrGraph
  import opened JoinPoints
  import opened JsonGraph

  /** What stays the same: a graph, its root, and the nodes that the root reaches */
  datatype Source = Source(g: Graph<Label>, root: int, nodes: set<int>, types: Types, rank: map<int, int>)

  ghost predicate SourceOk(s: Source) {
    && s.root in s.nodes && (forall n | n in s.nodes :: NodeOk(s, n))
    && WellTyped(s.g, s.types) && VectorsOwned(s.g, s.nodes, s.types)
  }

  ghost predicate NodeOk(s: Source, n: int) {
    && n in s.g && n in s.rank && s.root in s.rank && 0 <= s.rank[n] <= s.rank[s.root]
    && forall i | 0 <= i < |s.g[n].children| && s.g[n].children[i].To? :: ChildOk(s, n, s.g[n].children[i].id)
  }

  ghost predicate ChildOk(s: Source, n: int, c: int) {
    c in s.nodes && c in s.rank && n in s.rank && s.rank[c] < s.rank[n]
  }

  /** The edge belongs to the graph, and leads to node c. */
  ghost predicate Leads(s: Source, e: Edge, c: int) {
    EdgeAmong(s.g, s.nodes, e) && LeadsTo(s.g, e, c)
  }

  /** No field that holds a vector leads to node k. */
  ghost predicate Referable(s: Source, k: int) {
    forall e | Leads(s, e, k) :: !InlineEdge(s.g, s.types, e)
  }

  // ---- how far generator and loader are ----

  /** The object of node k is complete, and get_node knows it unless it is a vector. */
  ghost predicate CopyOk(s: Source, h: map<int, int>, heap: Heap, k: int) {
    && CopyOf(s.g, heap, h, k)
    && h[k] < heap.next && k < heap.currentId
    && (if Referable(s, k) then k in heap.refs && heap.refs[k] == To(h[k]) else k !in heap.refs)
  }

  ghost predicate ObjectOk(h: map<int, int>, heap: Heap, x: int) {
    x < heap.next && exists k :: k in h && h[k] == x
  }

  ghost predicate Copied(s: Source, h: map<int, int>, heap: Heap) {
    && (forall k | k in h :: CopyOk(s, h, heap, k))
    && heap.refs.Keys <= h.Keys
    && (forall x | x in heap.objects :: ObjectOk(h, heap, x))
  }

  ghost predicate HasFollowed(s: Source, followed: set<Edge>, k: int) {
    exists e :: e in followed && Leads(s, e, k)
  }

  /** The ids that are written are those of the root and of nodes to which an edge was followed. */
  ghost predicate Written(s: Source, refs: set<int>, followed: set<Edge>) {
    && refs <= s.nodes
    && (forall e | e in followed :: EdgeAmong(s.g, s.nodes, e) && e.from in refs)
    && (forall k | k in refs && k != s.root :: HasFollowed(s, followed, k))
  }

  /** The ids that are written, the objects that are made for nodes, the edges that were followed, and the heap of the
      loader */
  datatype Progress = Progress(refs: set<int>, h: map<int, int>, followed: set<Edge>, heap: Heap)

  ghost predicate InSync(s: Source, p: Progress) {
    p.h.Keys <= p.refs && Copied(s, p.h, p.heap) && Written(s, p.refs, p.followed)
  }

  /** What the visit of an edge or of a node adds */
  ghost predicate Advanced(p: Progress, p': Progress, n: int, more: set<Edge>) {
    && p.h.Keys <= p'.h.Keys && p.refs <= p'.refs && p'.refs - p'.h.Keys == p.refs - p.h.Keys
    && p.followed + more <= p'.followed
    && (forall e | e in p'.followed && e !in p.followed && e !in more :: e.from == n || e.from !in p.refs)
    && (forall k | k in p.h :: p'.h[k] == p.h[k])
    && p.heap.next <= p'.heap.next && p.heap.currentId <= p'.heap.currentId
    && (forall x | x in p'.heap.objects && x !in p.heap.objects :: p.heap.next <= x)
  }

  /** Of the edges from the same node, only this one was followed. */
  ghost predicate OneOf(p: Progress, p': Progress, e: Edge) {
    forall f | f in p'.followed && f !in p.followed && f.from == e.from :: f == e
  }

  /** Nodes that are being written rank at least as high as the bound. */
  ghost predicate PendingAbove(s: Source, p: Progress, bound: int) {
    forall k | k in p.refs && k !in p.h :: k in s.rank && s.rank[k] >= bound
  }

  lemma AdvancedFurther(p0: Progress, p1: Progress, p2: Progress, n: int, e: Edge)
    requires Advanced(p0, p1, n, {}) && Advanced(p1, p2, n, {e}) && e.from == n
    ensures Advanced(p0, p2, n, {})
  {
  }

  // ---- a pointer to a node that is written already ----

  lemma SoleParent(s: Source, e: Edge, c: int)
    requires SourceOk(s) && Leads(s, e, c)
    ensures Referable(s, c) <==> !InlineEdge(s.g, s.types, e)
    ensures InlineEdge(s.g, s.types, e) ==> forall f | Leads(s, f, c) :: f == e
  {
    forall f | Leads(s, f, c)
      ensures InlineEdge(s.g, s.types, f) || InlineEdge(s.g, s.types, e) ==> f == e
    {
      assert SameTarget(s.g, f, e) && SameTarget(s.g, e, f);
    }
  }

  lemma ChildBelow(s: Source, e: Edge, c: int)
    requires SourceOk(s) && Leads(s, e, c)
    ensures c in s.nodes && c != s.root && NodeOk(s, c) && NodeOk(s, e.from) && s.rank[c] < s.rank[e.from]
    ensures FitsField(s.g, s.types, e, c) && c >= 0
  {
    assert NodeOk(s, e.from) && ChildOk(s, e.from, c) && NodeOk(s, c);
  }

  lemma WrittenBefore(s: Source, p: Progress, e: Edge, c: int)
    requires SourceOk(s) && InSync(s, p) && Leads(s, e, c) && e !in p.followed && c in p.refs
    requires e.from in s.rank && PendingAbove(s, p, s.rank[e.from])
    ensures !InlineEdge(s.g, s.types, e) && c in p.h
    ensures LoadedOne(s.types, ReferTo(c), None, p.heap) == (To(p.h[c]), p.heap)
  {
    ChildBelow(s, e, c);
    SoleParent(s, e, c);
    assert HasFollowed(s, p.followed, c);
    assert CopyOk(s, p.h, p.heap, c);
  }

  // ---- a pointer to a node that is not written yet ----

  /** Before the children of a node: its id is written, and its object is taken. */
  function Begun(p: Progress, e: Edge, c: int): Progress {
    Progress(p.refs + {c}, p.h, p.followed + {e}, Taken(p.heap, c))
  }

  function Taken(heap: Heap, c: int): Heap {
    var heap1 := WithId(ReferTo(c), heap).1;
    heap1.(next := heap1.next + 1)
  }

  lemma BeginKeeps(s: Source, p: Progress, e: Edge, c: int)
    requires SourceOk(s) && InSync(s, p) && Leads(s, e, c) && e.from in p.refs && c !in p.refs
    ensures InSync(s, Begun(p, e, c))
  {
    ChildBelow(s, e, c);
    var p' := Begun(p, e, c);
    forall k | k in p'.h ensures CopyOk(s, p'.h, p'.heap, k) { assert CopyOk(s, p.h, p.heap, k); }
    forall x | x in p'.heap.objects ensures ObjectOk(p'.h, p'.heap, x) { assert ObjectOk(p.h, p.heap, x); }
    forall k | k in p'.refs && k != s.root ensures HasFollowed(s, p'.followed, k) {
      if k == c { assert e in p'.followed; } else { FollowedStays(s, p.followed, p'.followed, k); }
    }
  }

  lemma FollowedStays(s: Source, followed: set<Edge>, followed': set<Edge>, k: int)
    requires HasFollowed(s, followed, k) && followed <= followed'
    ensures HasFollowed(s, followed', k)
  {
  }

  /** After the children of a node: its object is complete, and get_node knows it unless it is a vector. */
  function Finished(heap: Heap, c: int, obj: int, loaded: Loaded, inlined: bool): Heap {
    var heap' := heap.(objects := heap.objects[obj := loaded]);
    if inlined then heap' else heap'.(refs := heap'.refs[c := To(obj)])
  }

  ghost predicate KidsCopied(s: Source, h: map<int, int>, c: int, k: nat)
    requires c in s.g && k <= |s.g[c].children|
  {
    forall i | 0 <= i < k && s.g[c].children[i].To? :: s.g[c].children[i].id in h
  }

  lemma FinishKeeps(s: Source, h: map<int, int>, heap: Heap, c: int, obj: int, loaded: Loaded, inlined: bool)
    requires Copied(s, h, heap) && c in s.g && (Referable(s, c) <==> !inlined)
    requires c !in h && obj !in heap.objects && obj < heap.next && c < heap.currentId
    requires KidsCopied(s, h, c, |s.g[c].children|)
    requires loaded == Loaded(c, s.g[c].tag, TranslatedAll(h, s.g[c].children))
    ensures Copied(s, h[c := obj], Finished(heap, c, obj, loaded, inlined))
  {
    var h', heap' := h[c := obj], Finished(heap, c, obj, loaded, inlined);
    assert TranslatedAll(h', s.g[c].children) == TranslatedAll(h, s.g[c].children);
    forall k | k in h' ensures CopyOk(s, h', heap', k) {
      if k != c { CopyStays(s, h, heap, c, obj, h', heap', k); }
    }
    forall x | x in heap'.objects ensures ObjectOk(h', heap', x) {
      if x == obj {
        assert h'[c] == x;
      } else {
        assert ObjectOk(h, heap, x);
        var k :| k in h && h[k] == x;
        assert h'[k] == x;
      }
    }
  }

  lemma CopyStays(s: Source, h: map<int, int>, heap: Heap, c: int, obj: int, h': map<int, int>, heap': Heap, k: int)
    requires CopyOk(s, h, heap, k) && k in h && k != c && h' == h[c := obj] && c !in h && obj !in heap.objects
    requires heap'.next == heap.next && heap'.currentId == heap.currentId
    requires heap'.objects.Keys == heap.objects.Keys + {obj}
    requires forall x | x in heap.objects :: heap'.objects[x] == heap.objects[x]
    requires k in heap.refs ==> k in heap'.refs && heap'.refs[k] == heap.refs[k]
    requires k !in heap.refs ==> k !in heap'.refs
    ensures CopyOk(s, h', heap', k)
  {
    assert TranslatedAll(h', s.g[k].children) == TranslatedAll(h, s.g[k].children);
  }

  /** What is known when an edge is about to be followed */
  ghost predicate AtEdge(s: Source, p: Progress, e: Edge, c: int) {
    && SourceOk(s) && InSync(s, p) && Leads(s, e, c) && e !in p.followed && e.from in p.refs
    && e.from in s.rank && PendingAbove(s, p, s.rank[e.from])
  }

  /** Generator and loader went along an edge together. */
  ghost predicate Together(s: Source, p: Progress, e: Edge, c: int, p': Progress)
    requires e.from in s.g
  {
    var (d, refs') := Generated(s.g, To(c), p.refs);
    var (q, heap') := LoadedOne(s.types, d, InlinedAs(s.types, s.g[e.from].tag.kind, e.at), p.heap);
    p'.refs == refs' && p'.heap == heap' && c in p'.h && q == To(p'.h[c])
  }

  lemma {:induction false} OneInSync(s: Source, p: Progress, e: Edge, c: int) returns (p': Progress)
    requires AtEdge(s, p, e, c)
    ensures Together(s, p, e, c, p') && InSync(s, p') && Advanced(p, p', e.from, {e}) && OneOf(p, p', e)
    decreases s.rank[e.from], 0
  {
    ChildBelow(s, e, c);
    if c in p.refs {
      WrittenBefore(s, p, e, c);
      p' := p.(followed := p.followed + {e});
      forall k | k in p'.refs && k != s.root ensures HasFollowed(s, p'.followed, k) {
        FollowedStays(s, p.followed, p'.followed, k);
      }
    } else {
      p' := NewInSync(s, p, e, c);
    }
  }

  /** What is written and loaded for a node that is not written yet */
  lemma {:induction false} NewComputed(s: Source, refs: set<int>, heap0: Heap, inlined: Option<string>, c: int)
    requires c in s.g && c !in refs && c >= 0 && c !in heap0.refs
    requires if inlined.Some? then inlined.value == s.g[c].tag.kind else s.g[c].tag.kind in s.types.unpackers
    ensures var kind := s.g[c].tag.kind;
            var (kids, refs') := GeneratedAll(s.g, s.g[c].children, refs + {c});
            var (ptrs, heap) := LoadedAll(s.types, kids, |kids|, kind, Taken(heap0, c));
            var d := ObjectDump(c, kind, s.g[c].tag.scalars, kids);
            && Generated(s.g, To(c), refs) == (d, refs')
            && LoadedOne(s.types, d, inlined, heap0)
               == (To(heap0.next), Finished(heap, c, heap0.next, Loaded(c, s.g[c].tag, ptrs), inlined.Some?))
  {
    var kids := GeneratedAll(s.g, s.g[c].children, refs + {c}).0;
    var d := ObjectDump(c, s.g[c].tag.kind, s.g[c].tag.scalars, kids);
    var (ptrs, heap) := LoadedAll(s.types, kids, |kids|, s.g[c].tag.kind, Taken(heap0, c));
    assert WithId(d, heap0) == WithId(ReferTo(c), heap0);
    assert Constructed(s.types, d, s.g[c].tag.kind, heap0)
           == (To(heap0.next), heap.(objects := heap.objects[heap0.next := Loaded(c, s.g[c].tag, ptrs)]));
  }

  lemma {:induction false} NewInSync(s: Source, p: Progress, e: Edge, c: int) returns (p': Progress)
    requires AtEdge(s, p, e, c) && c !in p.refs && c in s.rank && 0 <= s.rank[c] < s.rank[e.from]
    ensures Together(s, p, e, c, p') && InSync(s, p') && Advanced(p, p', e.from, {e}) && OneOf(p, p', e)
    decreases s.rank[c], 2
  {
    ChildBelow(s, e, c);
    BeginKeeps(s, p, e, c);
    var p1, node := Begun(p, e, c), s.g[c];
    var kids := GeneratedAll(s.g, node.children, p1.refs).0;
    assert node.children[..|kids|] == node.children && kids[..|kids|] == kids;
    assert forall f | f in p1.followed :: f.from != c;
    var p2 := AllInSync(s, p1, c, kids, |kids|);
    p' := Completed(s, p, e, c, p1, p2);
    NewComputed(s, p.refs, p.heap, InlinedAs(s.types, s.g[e.from].tag.kind, e.at), c);
  }

  lemma Completed(s: Source, p: Progress, e: Edge, c: int, p1: Progress, p2: Progress) returns (p': Progress)
    requires AtEdge(s, p, e, c) && c !in p.refs && p1 == Begun(p, e, c) && c in s.g
    requires InSync(s, p2) && Advanced(p1, p2, c, {}) && KidsCopied(s, p2.h, c, |s.g[c].children|)
    ensures p'.refs == p2.refs && p'.h == p2.h[c := p.heap.next]
    ensures p'.heap == Finished(p2.heap, c, p.heap.next, Loaded(c, s.g[c].tag, TranslatedAll(p2.h, s.g[c].children)),
                                InlineEdge(s.g, s.types, e))
    ensures InSync(s, p') && Advanced(p, p', e.from, {e}) && OneOf(p, p', e)
  {
    var obj := p.heap.next;
    assert c in p1.refs && c !in p1.h && c !in p2.h;
    assert obj !in p1.heap.objects && c < p1.heap.currentId && obj < p1.heap.next by {
      assert forall x | x in p.heap.objects :: ObjectOk(p.h, p.heap, x);
    }
    var loaded := Loaded(c, s.g[c].tag, TranslatedAll(p2.h, s.g[c].children));
    SoleParent(s, e, c);
    FinishKeeps(s, p2.h, p2.heap, c, obj, loaded, InlineEdge(s.g, s.types, e));
    p' := Progress(p2.refs, p2.h[c := obj], p2.followed,
                   Finished(p2.heap, c, obj, loaded, InlineEdge(s.g, s.types, e)));
    CompletedAdvances(p, p1, p2, p', e, c);
  }

  lemma CompletedAdvances(p: Progress, p1: Progress, p2: Progress, p': Progress, e: Edge, c: int)
    requires c !in p.refs && c !in p.h && p1 == Begun(p, e, c) && Advanced(p1, p2, c, {}) && e.from in p.refs
    requires p'.refs == p2.refs && p'.h == p2.h[c := p.heap.next] && p'.followed == p2.followed
    requires p'.heap.next == p2.heap.next && p'.heap.currentId == p2.heap.currentId
    requires p'.heap.objects.Keys == p2.heap.objects.Keys + {p.heap.next}
    ensures Advanced(p, p', e.from, {e}) && OneOf(p, p', e)
  {
    assert p'.refs - p'.h.Keys == p2.refs - p2.h.Keys - {c};
    assert p1.refs - p1.h.Keys == (p.refs - p.h.Keys) + {c};
    assert p1.heap.objects == p.heap.objects;
  }

  lemma AllStep(s: Source, refs: set<int>, heap: Heap, n: int, ds: seq<Dump>, k: nat)
    requires n in s.g && 0 < k <= |s.g[n].children| && k <= |ds|
    requires ds[..k] == GeneratedAll(s.g, s.g[n].children[..k], refs).0
    ensures var children, kind := s.g[n].children, s.g[n].tag.kind;
            var (before, refs1) := GeneratedAll(s.g, children[..k - 1], refs);
            var (kid, refs2) := Generated(s.g, children[k - 1], refs1);
            var (ptrs, heap1) := LoadedAll(s.types, ds, k - 1, kind, heap);
            var (ptr, heap2) := LoadedOne(s.types, kid, InlinedAs(s.types, kind, k - 1), heap1);
            && ds[..k - 1] == before && GeneratedAll(s.g, children[..k], refs).1 == refs2
            && LoadedAll(s.types, ds, k, kind, heap) == (ptrs + [ptr], heap2)
  {
    var children := s.g[n].children;
    assert children[..k][..k - 1] == children[..k - 1] && children[..k][k - 1] == children[k - 1];
    assert ds[..k][..k - 1] == ds[..k - 1] && ds[..k][k - 1] == ds[k - 1];
  }

  lemma TranslatedMore(h: map<int, int>, h': map<int, int>, ps: seq<Pointer>, k: nat)
    requires 0 < k <= |ps| && (forall i | 0 <= i < k - 1 && ps[i].To? :: ps[i].id in h)
    requires forall x | x in h :: x in h' && h'[x] == h[x]
    ensures TranslatedAll(h', ps[..k]) == TranslatedAll(h, ps[..k - 1]) + [Translated(h', ps[k - 1])]
  {
  }

  /** The first k fields of a node that is being written */
  lemma {:induction false} AllInSync(s: Source, p: Progress, n: int, ds: seq<Dump>, k: nat) returns (p': Progress)
    requires SourceOk(s) && InSync(s, p) && n in p.refs && n !in p.h && n in s.g
    requires n in s.rank && PendingAbove(s, p, s.rank[n]) && forall e | e in p.followed :: e.from != n
    requires k <= |s.g[n].children| && k <= |ds| && ds[..k] == GeneratedAll(s.g, s.g[n].children[..k], p.refs).0
    ensures p'.refs == GeneratedAll(s.g, s.g[n].children[..k], p.refs).1
    ensures LoadedAll(s.types, ds, k, s.g[n].tag.kind, p.heap)
            == (TranslatedAll(p'.h, s.g[n].children[..k]), p'.heap)
    ensures InSync(s, p') && Advanced(p, p', n, {}) && KidsCopied(s, p'.h, n, k)
    ensures forall e | e in p'.followed && e.from == n :: e.at < k
    decreases s.rank[n], 1, k
  {
    hide LoadedOne, Generated, PendingAbove, SourceOk, Translated;
    if k == 0 {
      p' := p;
    } else {
      AllStep(s, p.refs, p.heap, n, ds, k);
      var p1 := AllInSync(s, p, n, ds, k - 1);
      p' := NextInSync(s, p, p1, n, k - 1);
      TranslatedMore(p1.h, p'.h, s.g[n].children, k);
    }
  }

  /** One more field */
  lemma {:induction false} NextInSync(s: Source, p: Progress, p1: Progress, n: int, i: nat) returns (p': Progress)
    requires SourceOk(s) && InSync(s, p1) && Advanced(p, p1, n, {}) && n in p.refs && n !in p.h && n in s.g
    requires n in s.rank && PendingAbove(s, p, s.rank[n]) && n in s.nodes
    requires i < |s.g[n].children| && KidsCopied(s, p1.h, n, i)
    requires forall e | e in p1.followed && e.from == n :: e.at < i
    ensures var c := s.g[n].children[i];
            var (d, refs') := Generated(s.g, c, p1.refs);
            var (q, heap') := LoadedOne(s.types, d, InlinedAs(s.types, s.g[n].tag.kind, i), p1.heap);
            p'.refs == refs' && p'.heap == heap' && q == Translated(p'.h, c)
    ensures InSync(s, p') && Advanced(p, p', n, {}) && KidsCopied(s, p'.h, n, i + 1)
    ensures (forall k | k in p1.h :: k in p'.h && p'.h[k] == p1.h[k])
    ensures forall e | e in p'.followed && e.from == n :: e.at < i + 1
    decreases s.rank[n], 1, i
  {
    var c, e := s.g[n].children[i], Edge(n, i);
    if c == Null {
      p' := p1;
      NullInSync(s, p1, n, i);
    } else {
      ReadyForEdge(s, p, p1, n, i, c.id);
      p' := OneInSync(s, p1, e, c.id);
      AdvancedFurther(p, p1, p', n, e);
    }
  }

  lemma NullInSync(s: Source, p: Progress, n: int, i: nat)
    requires SourceOk(s) && n in s.g && n in s.nodes && i < |s.g[n].children| && s.g[n].children[i] == Null
    ensures Generated(s.g, Null, p.refs) == (NullDump, p.refs)
    ensures LoadedOne(s.types, NullDump, InlinedAs(s.types, s.g[n].tag.kind, i), p.heap) == (Null, p.heap)
  {
    assert NoNullVector(s.g, s.types, n);
    assert !InlineEdge(s.g, s.types, Edge(n, i));
  }

  lemma ReadyForEdge(s: Source, p: Progress, p1: Progress, n: int, i: nat, c: int)
    requires SourceOk(s) && InSync(s, p1) && Advanced(p, p1, n, {}) && n in p.refs && n !in p.h && n in s.g
    requires n in s.rank && PendingAbove(s, p, s.rank[n]) && n in s.nodes
    requires i < |s.g[n].children| && s.g[n].children[i] == To(c)
    requires forall e | e in p1.followed && e.from == n :: e.at < i
    ensures AtEdge(s, p1, Edge(n, i), c) && 0 <= s.rank[n]
  {
    assert NodeOk(s, n);
    forall k | k in p1.refs && k !in p1.h ensures k in s.rank && s.rank[k] >= s.rank[n] {
      assert k in p1.refs - p1.h.Keys;
      assert k in p.refs - p.h.Keys;
    }
  }

  // ---- whole graphs ----

  ghost function SourceOf(g: Graph<Label>, root: int, types: Types, rank: map<int, int>): Source {
    Source(g, root, Reached(g, root), types, rank)
  }

  lemma SourceIsOk(g: Graph<Label>, root: int, types: Types, rank: map<int, int>)
    requires Ranked(g, rank) && WellTyped(g, types) && root in g && VectorsOwned(g, Reached(g, root), types)
    ensures SourceOk(SourceOf(g, root, types, rank))
  {
    var s := SourceOf(g, root, types, rank);
    ReachesSelf(g, root);
    assert RankOk(g, rank, root);
    forall n | n in s.nodes ensures NodeOk(s, n) {
      assert RankOk(g, rank, n);
      var p :| Joins(g, p, root, n);
      RankFalls(g, rank, p);
      forall i | 0 <= i < |g[n].children| && g[n].children[i].To? ensures ChildOk(s, n, g[n].children[i].id) {
        assert IsChild(g, n, g[n].children[i].id);
        ReachesChild(g, root, n, g[n].children[i].id);
        assert RankOk(g, rank, g[n].children[i].id);
      }
    }
  }

  /** What a new loader loads from what the generator wrote for a graph; ids of nodes made before are below
      currentId. */
  function RoundTrip(g: Graph<Label>, root: int, types: Types, currentId: int): (Pointer, Heap) {
    LoadedOne(types, Generated(g, To(root), {}).0, None, NewHeap(currentId))
  }

  /** Loading what the generator wrote for an acyclic well-typed graph gives a copy of the graph, with the same ids and
      the same sharing, when vectors are not shared, whatever was loaded by other loaders before. The next fresh id
      is above all loaded ids and never gets smaller. */
  lemma {:induction false} LoadsCopy(g: Graph<Label>, root: int, types: Types, rank: map<int, int>, currentId: int)
    requires Ranked(g, rank) && WellTyped(g, types) && root in g && g[root].tag.kind in types.unpackers
    requires VectorsOwned(g, Reached(g, root), types)
    ensures var (p, heap) := RoundTrip(g, root, types, currentId);
            && (exists h :: IsCopy(g, root, heap, p, h))
            && currentId <= heap.currentId && forall k | k in Reached(g, root) :: k < heap.currentId
  {
    var s := SourceOf(g, root, types, rank);
    SourceIsOk(g, root, types, rank);
    var p1 := Progress({root}, map[], {}, Taken(NewHeap(currentId), root));
    var children := g[root].children;
    var kids := GeneratedAll(g, children, {root}).0;
    assert children[..|kids|] == children && kids[..|kids|] == kids;
    assert NodeOk(s, root);
    var p2 := AllInSync(s, p1, root, kids, |kids|);
    var loaded := Loaded(root, g[root].tag, TranslatedAll(p2.h, children));
    RootIsReferable(s);
    assert 0 !in p2.heap.objects;
    FinishKeeps(s, p2.h, p2.heap, root, 0, loaded, false);
    assert {} + {root} == {root};
    NewComputed(s, {}, NewHeap(currentId), None, root);
    var h, heap := p2.h[root := 0], Finished(p2.heap, root, 0, loaded, false);
    assert RoundTrip(g, root, types, currentId) == (To(0), heap);
    CopiesAll(s, h, heap);
  }

  lemma LeadsElsewhere(s: Source, e: Edge, c: int)
    requires SourceOk(s)
    ensures Leads(s, e, c) ==> c != s.root
  {
    if Leads(s, e, c) { ChildBelow(s, e, c); }
  }

  lemma RootIsReferable(s: Source)
    requires SourceOk(s)
    ensures Referable(s, s.root)
  {
    forall e ensures !Leads(s, e, s.root) { LeadsElsewhere(s, e, s.root); }
  }

  lemma CopiesAll(s: Source, h: map<int, int>, heap: Heap)
    requires s.nodes == Reached(s.g, s.root) && s.root in s.g && Copied(s, h, heap) && h.Keys <= s.nodes && s.root in h
    ensures IsCopy(s.g, s.root, heap, To(h[s.root]), h)
    ensures forall k | k in s.nodes :: k < heap.currentId
  {
    forall n, c | n in h.Keys && IsChild(s.g, n, c)
      ensures c in h.Keys
    {
      assert CopyOk(s, h, heap, n);
    }
    forall k | k in s.nodes ensures k in h {
      var p :| Joins(s.g, p, s.root, k);
      ReachedInside(s.g, h.Keys, s.root, p);
    }
    assert h.Keys == s.nodes;
    forall k | k in h ensures CopyOf(s.g, heap, h, k) && k < heap.currentId { assert CopyOk(s, h, heap, k); }
    forall x | x in heap.objects ensures exists k :: k in h && h[k] == x { assert ObjectOk(h, heap, x); }
  }
}
