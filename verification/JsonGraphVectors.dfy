/** Shared vectors are lost: what ir/json_loader.h makes of any dump, and when exactly a graph survives */
module JsonGraphVectors {
  import opened Wrappers
  import opened IrGraph
  import opened JoinPoints
  import opened JsonGraph
  import opened JsonGraphRoundTrip

  ghost predicate Holds(heap: Heap, x: int, i: int, q: Pointer) {
    x in heap.objects && 0 <= i < |heap.objects[x].children| && heap.objects[x].children[i] == q
  }

  ghost predicate Held(heap: Heap, q: Pointer) {
    exists x, i :: Holds(heap, x, i, q)
  }

  ghost predicate Known(heap: Heap, q: Pointer) {
    exists id :: id in heap.refs && heap.refs[id] == q
  }

  /** Field i of object x holds a vector: get_node does not know it, and nothing else points to it. */
  ghost predicate Sole(heap: Heap, x: int, i: int, q: Pointer) {
    q.To? && !Known(heap, q) && forall y, j | Holds(heap, y, j, q) :: y == x && j == i
  }

  ghost predicate InlineField(types: Types, heap: Heap, x: int, i: int)
    requires x in heap.objects
  {
    0 <= i < |heap.objects[x].children| && InlinedAs(types, heap.objects[x].tag.kind, i).Some?
  }

  ghost predicate VectorsSole(types: Types, heap: Heap) {
    forall x, i | x in heap.objects && InlineField(types, heap, x, i) :: Sole(heap, x, i, heap.objects[x].children[i])
  }

  ghost predicate Below(q: Pointer, bound: int) {
    q.To? ==> q.id < bound
  }

  ghost predicate HeapOk(types: Types, heap: Heap) {
    && (forall x | x in heap.objects :: x < heap.next)
    && (forall x, i, q | Holds(heap, x, i, q) :: Below(q, heap.next))
    && (forall id | id in heap.refs :: Below(heap.refs[id], heap.next))
    && VectorsSole(types, heap)
  }

  /** What loading adds: new objects, which point to new objects or to known ones, and knowledge of new objects */
  ghost predicate Grew(heap: Heap, heap': Heap) {
    && heap.next <= heap'.next
    && (forall x | x in heap.objects :: x in heap'.objects && heap'.objects[x] == heap.objects[x])
    && (forall x | x in heap'.objects && x !in heap.objects :: heap.next <= x)
    && (forall x, i, q | Holds(heap', x, i, q) && x !in heap.objects :: NewOrKnown(heap, q))
    && (forall id | id in heap.refs :: id in heap'.refs && heap'.refs[id] == heap.refs[id])
    && (forall id | id in heap'.refs && id !in heap.refs :: heap'.refs[id].To? && heap.next <= heap'.refs[id].id)
  }

  ghost predicate NewOrKnown(heap: Heap, q: Pointer) {
    q.To? && q.id < heap.next ==> Known(heap, q)
  }

  /** A pointer that is not in the heap yet: to a vector, or to what get_node gave */
  ghost predicate PointerOk(heap: Heap, inlined: bool, q: Pointer) {
    && Below(q, heap.next)
    && if inlined then q.To? && !Known(heap, q) && !Held(heap, q) else q == Null || Known(heap, q)
  }

  ghost predicate PointersOk(types: Types, kind: string, heap: Heap, ptrs: seq<Pointer>) {
    && (forall i | 0 <= i < |ptrs| :: PointerOk(heap, InlinedAs(types, kind, i).Some?, ptrs[i]))
    && (forall i, j | 0 <= i < |ptrs| && 0 <= j < |ptrs| && InlinedAs(types, kind, i).Some? && ptrs[i] == ptrs[j] ::
          i == j)
  }

  ghost predicate Fresh(heap: Heap, q: Pointer) {
    q.To? && heap.next <= q.id
  }

  // ---- one step each ----

  lemma GrewFurther(heap0: Heap, heap1: Heap, heap2: Heap)
    requires Grew(heap0, heap1) && Grew(heap1, heap2)
    ensures Grew(heap0, heap2)
  {
    forall x, i, q | Holds(heap2, x, i, q) && x !in heap0.objects
      ensures NewOrKnown(heap0, q)
    {
      if x in heap1.objects {
        assert Holds(heap1, x, i, q);
      } else if q.To? && q.id < heap0.next {
        assert NewOrKnown(heap1, q) && Known(heap1, q);
        var id :| id in heap1.refs && heap1.refs[id] == q;
        assert id in heap0.refs;
      }
    }
  }

  /** What nobody points to or knows stays so. */
  lemma StaysUnknown(heap: Heap, heap': Heap, q: Pointer, x: int, i: int, id: int)
    requires q.To? && !Known(heap, q) && !Held(heap, q) && Below(q, heap.next) && Grew(heap, heap')
    ensures !Holds(heap', x, i, q) && !(id in heap'.refs && heap'.refs[id] == q)
  {
    assert x in heap.objects ==> !Holds(heap, x, i, q);
    assert !NewOrKnown(heap, q);
    assert id in heap.refs ==> heap.refs[id] != q;
  }

  /** A pointer stays as it is while more is loaded. */
  lemma PointerStays(heap: Heap, heap': Heap, inlined: bool, q: Pointer)
    requires PointerOk(heap, inlined, q) && Grew(heap, heap')
    ensures PointerOk(heap', inlined, q)
  {
    if inlined {
      forall x, i, id ensures !Holds(heap', x, i, q) && !(id in heap'.refs && heap'.refs[id] == q) {
        StaysUnknown(heap, heap', q, x, i, id);
      }
    } else if q != Null {
      var id :| id in heap.refs && heap.refs[id] == q;
      assert id in heap'.refs && heap'.refs[id] == q;
    }
  }

  /** What is new is neither known nor pointed to. */
  lemma FreshIsUnknown(types: Types, heap: Heap, q: Pointer)
    requires HeapOk(types, heap) && Fresh(heap, q)
    ensures !Known(heap, q) && !Held(heap, q)
  {
    forall x, i ensures !Holds(heap, x, i, q) {
      assert Holds(heap, x, i, q) ==> Below(q, heap.next);
    }
  }

  /** The id of a node, and an object for it, are taken. */
  lemma TakeKeeps(types: Types, heap: Heap, heap': Heap)
    requires HeapOk(types, heap) && heap'.objects == heap.objects && heap'.refs == heap.refs
    requires heap'.next == heap.next + 1
    ensures HeapOk(types, heap') && Grew(heap, heap')
    ensures PointerOk(heap', true, To(heap.next))
  {
    FreshIsUnknown(types, heap, To(heap.next));
    forall x, i, q | Holds(heap', x, i, q) ensures Holds(heap, x, i, q) {}
    assert forall id | id in heap'.refs :: heap'.refs[id] == heap.refs[id];
    forall x, i | x in heap'.objects && InlineField(types, heap', x, i)
      ensures Sole(heap', x, i, heap'.objects[x].children[i])
    {
      assert InlineField(types, heap, x, i);
    }
  }

  /** The object is completed: it holds pointers that are fit for its fields. */
  lemma CompleteKeeps(types: Types, heap: Heap, obj: int, loaded: Loaded, heap': Heap)
    requires HeapOk(types, heap) && obj !in heap.objects && obj < heap.next
    requires PointersOk(types, loaded.tag.kind, heap, loaded.children)
    requires heap' == heap.(objects := heap.objects[obj := loaded])
    ensures HeapOk(types, heap')
  {
    forall x, i, q | Holds(heap', x, i, q) ensures Below(q, heap'.next) {
      if x == obj { assert PointerOk(heap, InlinedAs(types, loaded.tag.kind, i).Some?, q); }
      else { assert Holds(heap, x, i, q); }
    }
    forall x, i | x in heap'.objects && InlineField(types, heap', x, i)
      ensures Sole(heap', x, i, heap'.objects[x].children[i])
    {
      SoleAfter(types, heap, obj, loaded, heap', x, i);
    }
  }

  lemma SoleAfter(types: Types, heap: Heap, obj: int, loaded: Loaded, heap': Heap, x: int, i: int)
    requires HeapOk(types, heap) && obj !in heap.objects && obj < heap.next
    requires PointersOk(types, loaded.tag.kind, heap, loaded.children)
    requires heap' == heap.(objects := heap.objects[obj := loaded])
    requires x in heap'.objects && InlineField(types, heap', x, i)
    ensures Sole(heap', x, i, heap'.objects[x].children[i])
  {
    var q := heap'.objects[x].children[i];
    if x == obj {
      assert PointerOk(heap, true, q);
      forall y, j | Holds(heap', y, j, q) ensures y == x && j == i {
        assert y != obj ==> Holds(heap, y, j, q);
      }
    } else {
      assert InlineField(types, heap, x, i) && Sole(heap, x, i, q) && Holds(heap, x, i, q);
      NotAmong(types, heap, loaded.tag.kind, loaded.children, q);
      forall y, j | Holds(heap', y, j, q) ensures y == x && j == i {
        assert Holds(heap, y, j, q);
      }
    }
  }

  lemma NotAmong(types: Types, heap: Heap, kind: string, ptrs: seq<Pointer>, q: Pointer)
    requires PointersOk(types, kind, heap, ptrs) && q.To? && Held(heap, q) && !Known(heap, q)
    ensures forall j | 0 <= j < |ptrs| :: ptrs[j] != q
  {
    forall j | 0 <= j < |ptrs| ensures ptrs[j] != q {
      assert PointerOk(heap, InlinedAs(types, kind, j).Some?, ptrs[j]);
    }
  }

  // ---- any dump ----

  /** What loading a pointer promises */
  ghost predicate LoadedWell(types: Types, heap: Heap, inlined: bool, q: Pointer, heap': Heap) {
    HeapOk(types, heap') && Grew(heap, heap') && PointerOk(heap', inlined, q) && (inlined ==> Fresh(heap, q))
  }

  lemma {:induction false} ConstructsWell(types: Types, d: Dump, kind: string, heap: Heap)
    requires HeapOk(types, heap)
    ensures var (q, heap') := Constructed(types, d, kind, heap);
            LoadedWell(types, heap, true, q, heap') && q == To(heap.next)
    decreases d, 1
  {
    var (id, heap1) := WithId(d, heap);
    var obj := heap.next;
    var taken := heap1.(next := obj + 1);
    TakeKeeps(types, heap, taken);
    var ds := if d.ObjectDump? then d.kids else [];
    var scalars := if d.ObjectDump? then d.scalars else [];
    if d.ObjectDump? { LoadsAllWell(types, d.kids, |d.kids|, kind, taken); }
    var (kids, heap2) := if d.ObjectDump? then LoadedAll(types, d.kids, |d.kids|, kind, taken) else ([], taken);
    var loaded := Loaded(id, Label(kind, scalars), kids);
    var heap3 := heap2.(objects := heap2.objects[obj := loaded]);
    assert Constructed(types, d, kind, heap) == (To(obj), heap3);
    CompletesWell(types, heap, taken, heap2, obj, loaded, heap3);
  }

  lemma CompletesWell(types: Types, heap: Heap, taken: Heap, heap2: Heap, obj: int, loaded: Loaded, heap3: Heap)
    requires HeapOk(types, heap) && HeapOk(types, heap2) && Grew(heap, taken) && Grew(taken, heap2)
    requires obj == heap.next && taken.next == obj + 1 && taken.objects == heap.objects
    requires PointerOk(taken, true, To(obj)) && PointersOk(types, loaded.tag.kind, heap2, loaded.children)
    requires forall i | 0 <= i < |loaded.children| :: NewOrKnown(taken, loaded.children[i])
    requires heap3 == heap2.(objects := heap2.objects[obj := loaded])
    ensures LoadedWell(types, heap, true, To(obj), heap3)
  {
    assert obj !in heap.objects && obj !in heap2.objects;
    CompleteKeeps(types, heap2, obj, loaded, heap3);
    PointerStays(taken, heap2, true, To(obj));
    GrewFurther(heap, taken, heap2);
    forall x, i, q | Holds(heap3, x, i, q) && x !in heap.objects ensures NewOrKnown(heap, q) {
      if x == obj { assert NewOrKnown(taken, loaded.children[i]); } else { assert Holds(heap2, x, i, q); }
    }
    forall x, i ensures !Holds(heap3, x, i, To(obj)) {
      if x == obj && 0 <= i < |loaded.children| {
        assert NewOrKnown(taken, loaded.children[i]) && !Known(taken, To(obj));
      } else {
        assert !Holds(heap2, x, i, To(obj));
      }
    }
  }

  lemma {:induction false} LoadsAllWell(types: Types, ds: seq<Dump>, n: nat, kind: string, heap: Heap)
    requires n <= |ds| && HeapOk(types, heap)
    ensures var (ptrs, heap') := LoadedAll(types, ds, n, kind, heap);
            && HeapOk(types, heap') && Grew(heap, heap') && PointersOk(types, kind, heap', ptrs)
            && forall i | 0 <= i < |ptrs| :: NewOrKnown(heap, ptrs[i])
    decreases ds, n
  {
    if n > 0 {
      LoadsAllWell(types, ds, n - 1, kind, heap);
      var (ptrs, heap1) := LoadedAll(types, ds, n - 1, kind, heap);
      var inlined := InlinedAs(types, kind, n - 1);
      LoadsOneWell(types, ds[n - 1], inlined, heap1);
      var (q, heap2) := LoadedOne(types, ds[n - 1], inlined, heap1);
      GrewFurther(heap, heap1, heap2);
      OneMorePointer(types, kind, heap, heap1, heap2, ptrs, q);
    }
  }

  lemma OneMorePointer(types: Types, kind: string, heap: Heap, heap1: Heap, heap2: Heap, ptrs: seq<Pointer>, q: Pointer)
    requires Grew(heap, heap1) && HeapOk(types, heap1) && PointersOk(types, kind, heap1, ptrs)
    requires LoadedWell(types, heap1, InlinedAs(types, kind, |ptrs|).Some?, q, heap2)
    requires forall i | 0 <= i < |ptrs| :: NewOrKnown(heap, ptrs[i])
    ensures PointersOk(types, kind, heap2, ptrs + [q])
    ensures forall i | 0 <= i <= |ptrs| :: NewOrKnown(heap, (ptrs + [q])[i])
  {
    var all := ptrs + [q];
    forall i | 0 <= i < |all| ensures PointerOk(heap2, InlinedAs(types, kind, i).Some?, all[i]) {
      if i < |ptrs| { PointerStays(heap1, heap2, InlinedAs(types, kind, i).Some?, ptrs[i]); }
    }
  }

  /** get_node remembers a new object. */
  lemma NowKnown(types: Types, heap: Heap, heap1: Heap, id: int, q: Pointer)
    requires HeapOk(types, heap) && LoadedWell(types, heap, true, q, heap1) && id !in heap.refs
    ensures LoadedWell(types, heap, false, q, heap1.(refs := heap1.refs[id := q]))
  {
    var heap2 := heap1.(refs := heap1.refs[id := q]);
    assert Known(heap2, q) by { assert heap2.refs[id] == q; }
    forall x, i, p | Holds(heap2, x, i, p) ensures Holds(heap1, x, i, p) {}
    forall x, i | x in heap2.objects && InlineField(types, heap2, x, i)
      ensures Sole(heap2, x, i, heap2.objects[x].children[i])
    {
      var p := heap2.objects[x].children[i];
      assert InlineField(types, heap1, x, i) && Sole(heap1, x, i, p) && Holds(heap1, x, i, p);
      forall k | k in heap2.refs ensures heap2.refs[k] != p {
        assert k in heap1.refs ==> heap1.refs[k] != p;
      }
    }
  }

  lemma {:induction false} LoadsOneWell(types: Types, d: Dump, inlined: Option<string>, heap: Heap)
    requires HeapOk(types, heap)
    ensures var (q, heap') := LoadedOne(types, d, inlined, heap); LoadedWell(types, heap, inlined.Some?, q, heap')
    decreases d, 2
  {
    if inlined.Some? {
      ConstructsWell(types, d, inlined.value, heap);
    } else if d.ObjectDump? && d.id >= 0 && d.id !in heap.refs && d.kind in types.unpackers {
      ConstructsWell(types, d, d.kind, heap);
      var (q, heap1) := Constructed(types, d, d.kind, heap);
      NowKnown(types, heap, heap1, d.id, q);
    }
  }

  // ---- when exactly a graph survives ----

  /** If the objects are a copy of the graph, no vector of the graph is shared. */
  lemma CopyOwnsVectors(g: Graph<Label>, root: int, types: Types, heap: Heap, p: Pointer, h: map<int, int>)
    requires HeapOk(types, heap) && IsCopy(g, root, heap, p, h)
    ensures VectorsOwned(g, Reached(g, root), types)
  {
    var nodes := Reached(g, root);
    forall n | n in nodes && n in g
      ensures NoNullVector(g, types, n)
    {
      forall i | 0 <= i < |g[n].children| && InlineEdge(g, types, Edge(n, i)) ensures g[n].children[i].To? {
        VectorIsSole(g, types, heap, h, Edge(n, i));
      }
    }
    forall e, f | EdgeAmong(g, nodes, e) && EdgeAmong(g, nodes, f) && SameTarget(g, e, f) && InlineEdge(g, types, e)
      ensures e == f
    {
      assert CopyOf(g, heap, h, e.from) && CopyOf(g, heap, h, f.from);
      VectorIsSole(g, types, heap, h, e);
      var q := Translated(h, g[e.from].children[e.at]);
      assert Holds(heap, h[f.from], f.at, q);
    }
  }

  lemma VectorIsSole(g: Graph<Label>, types: Types, heap: Heap, h: map<int, int>, e: Edge)
    requires HeapOk(types, heap) && CopyOf(g, heap, h, e.from)
    requires 0 <= e.at < |g[e.from].children| && InlineEdge(g, types, e)
    ensures Sole(heap, h[e.from], e.at, Translated(h, g[e.from].children[e.at]))
  {
    assert InlineField(types, heap, h[e.from], e.at);
  }

  /** A library survives if and only if no vector in it is shared or null: then, and only then, loading what was
      written gives a copy of the graph, with the same ids and the same sharing. */
  lemma {:induction false} SurvivesExactly(g: Graph<Label>, root: int, types: Types, rank: map<int, int>,
                                           currentId: int)
    requires Ranked(g, rank) && WellTyped(g, types) && root in g && g[root].tag.kind in types.unpackers
    ensures var (p, heap) := RoundTrip(g, root, types, currentId);
            (exists h :: IsCopy(g, root, heap, p, h)) <==> VectorsOwned(g, Reached(g, root), types)
  {
    if VectorsOwned(g, Reached(g, root), types) { LoadsCopy(g, root, types, rank, currentId); }
    LoadsOneWell(types, Generated(g, To(root), {}).0, None, NewHeap(currentId));
    var (p, heap) := RoundTrip(g, root, types, currentId);
    forall h | IsCopy(g, root, heap, p, h) ensures VectorsOwned(g, Reached(g, root), types) {
      CopyOwnsVectors(g, root, types, heap, p, h);
    }
  }

  const PARENT := "Parent"
  const VECTOR := "Vector"
  const LEAF := "Leaf"

  /** A node with two fields that hold the same vector of one node */
  function SharedVector(): Graph<Label> {
    map[0 := Node(Label(PARENT, []), [To(1), To(1)]), 1 := Node(Label(VECTOR, []), [To(2)]),
        2 := Node(Label(LEAF, []), [])]
  }

  function SharedTypes(): Types {
    Types({PARENT, LEAF}, map[(PARENT, 0) := VECTOR, (PARENT, 1) := VECTOR])
  }

  lemma SharedVectorIsRanked()
    ensures Ranked(SharedVector(), map[0 := 2, 1 := 1, 2 := 0])
  {
    assert forall n | n in SharedVector() :: RankOk(SharedVector(), map[0 := 2, 1 := 1, 2 := 0], n);
  }

  lemma SharedVectorIsShared()
    ensures !VectorsOwned(SharedVector(), Reached(SharedVector(), 0), SharedTypes())
  {
    var g, nodes := SharedVector(), Reached(SharedVector(), 0);
    ReachesSelf(g, 0);
    assert SameTarget(g, Edge(0, 0), Edge(0, 1)) && InlineEdge(g, SharedTypes(), Edge(0, 0));
    assert EdgeAmong(g, nodes, Edge(0, 0)) && EdgeAmong(g, nodes, Edge(0, 1));
  }

  lemma SharedVectorIsWellTyped()
    ensures WellTyped(SharedVector(), SharedTypes())
  {
  }

  /** It does not survive, though it is well typed. */
  lemma {:induction false} SharedVectorIsLost(g: Graph<Label>, types: Types, currentId: int)
    requires g == SharedVector() && types == SharedTypes()
    ensures WellTyped(g, types)
    ensures var (p, heap) := RoundTrip(g, 0, types, currentId); !exists h :: IsCopy(g, 0, heap, p, h)
  {
    SharedVectorIsRanked();
    SharedVectorIsShared();
    SharedVectorIsWellTyped();
    SurvivesExactly(g, 0, types, map[0 := 2, 1 := 1, 2 := 0], currentId);
  }

  // ---- fresh ids ----

  ghost predicate IdsBelow(heap: Heap) {
    forall x | x in heap.objects :: heap.objects[x].id < heap.currentId
  }

  /** Whatever is loaded, the next fresh id is above the ids of all objects. */
  lemma {:induction false} LoadedIdsBelow(types: Types, d: Dump, inlined: Option<string>, heap: Heap)
    requires IdsBelow(heap)
    ensures IdsBelow(LoadedOne(types, d, inlined, heap).1)
    ensures heap.currentId <= LoadedOne(types, d, inlined, heap).1.currentId
    decreases d, 2
  {
    ConstructedIdsBelow(types, d, if inlined.Some? then inlined.value else if d.ObjectDump? then d.kind else "", heap);
  }

  lemma {:induction false} ConstructedIdsBelow(types: Types, d: Dump, kind: string, heap: Heap)
    requires IdsBelow(heap)
    ensures IdsBelow(Constructed(types, d, kind, heap).1)
    ensures heap.currentId <= Constructed(types, d, kind, heap).1.currentId
    decreases d, 1
  {
    if d.ObjectDump? {
      var (id, heap1) := WithId(d, heap);
      AllIdsBelow(types, d.kids, |d.kids|, kind, heap1.(next := heap1.next + 1));
    }
  }

  lemma {:induction false} AllIdsBelow(types: Types, ds: seq<Dump>, n: nat, kind: string, heap: Heap)
    requires n <= |ds| && IdsBelow(heap)
    ensures IdsBelow(LoadedAll(types, ds, n, kind, heap).1)
    ensures heap.currentId <= LoadedAll(types, ds, n, kind, heap).1.currentId
    decreases ds, n
  {
    if n > 0 {
      AllIdsBelow(types, ds, n - 1, kind, heap);
      LoadedIdsBelow(types, ds[n - 1], InlinedAs(types, kind, n - 1), LoadedAll(types, ds, n - 1, kind, heap).1);
    }
  }
}
