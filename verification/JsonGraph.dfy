/** Dumps of IR graphs (ir/json_generator.h, ir/json_loader.h, ir/node.cpp): a node is written out at its first
    occurrence and referred to by its id afterwards. */
module JsonGraph {
  import opened Wrappers
  import opened IrGraph
  import opened JoinPoints
  import JsonText

  /** The node type, and the values of the fields that hold no nodes */
  datatype Label = Label(kind: string, scalars: seq<JsonText.Json>)

  /** What is written for a pointer: null, or a JSON object. In a mere reference only the id is present, so the node
      type is empty and all other fields are missing. */
  datatype Dump = NullDump | ObjectDump(id: int, kind: string, scalars: seq<JsonText.Json>, kids: seq<Dump>)

  function ReferTo(id: int): Dump {
    ObjectDump(id, "", [], [])
  }

  // ---- the generator ----

  /** What is written for a pointer when the nodes in `refs` are written already, and what is written then */
  function Generated(g: Graph<Label>, p: Pointer, refs: set<int>): (r: (Dump, set<int>))
    ensures refs <= r.1
    decreases g.Keys - refs, 0
  {
    if p == Null then (NullDump, refs)
    else if p.id in refs || p.id !in g then (ReferTo(p.id), refs)
    else
      var node := g[p.id];
      var (kids, refs') := GeneratedAll(g, node.children, refs + {p.id});
      (ObjectDump(p.id, node.tag.kind, node.tag.scalars, kids), refs')
  }

  function GeneratedAll(g: Graph<Label>, ps: seq<Pointer>, refs: set<int>): (r: (seq<Dump>, set<int>))
    ensures refs <= r.1 && |r.0| == |ps|
    decreases g.Keys - refs, |ps| + 1
  {
    if ps == [] then ([], refs)
    else
      var n := |ps| - 1;
      var (kids, refs1) := GeneratedAll(g, ps[..n], refs);
      var (kid, refs2) := Generated(g, ps[n], refs1);
      (kids + [kid], refs2)
  }

  /** What is written for a node: everything at its first occurrence, and the id alone later */
  ghost predicate Describes(g: Graph<Label>, p: Pointer, refs: set<int>, d: Dump) {
    match p
    case Null => d == NullDump
    case To(id) =>
      && d.ObjectDump? && d.id == id
      && if id in refs || id !in g then d == ObjectDump(id, "", [], [])
         else d.kind == g[id].tag.kind && d.scalars == g[id].tag.scalars && |d.kids| == |g[id].children|
  }

  lemma OneDescribed(g: Graph<Label>, p: Pointer, refs: set<int>)
    ensures Describes(g, p, refs, Generated(g, p, refs).0)
    ensures p.To? && p.id in g ==> p.id in Generated(g, p, refs).1
  {
  }

  lemma {:induction false} OneAfterTheOther(g: Graph<Label>, ps: seq<Pointer>, refs: set<int>, i: nat)
    requires i < |ps|
    ensures var before := GeneratedAll(g, ps[..i], refs).1;
            && GeneratedAll(g, ps, refs).0[i] == Generated(g, ps[i], before).0
            && GeneratedAll(g, ps[..i + 1], refs).1 == Generated(g, ps[i], before).1
            && before <= GeneratedAll(g, ps[..i + 1], refs).1
    decreases |ps|
  {
    hide Generated;
    var n := |ps| - 1;
    if i < n {
      OneAfterTheOther(g, ps[..n], refs, i);
      assert ps[..n][..i] == ps[..i] && ps[..n][..i + 1] == ps[..i + 1];
    } else {
      assert ps[..i + 1] == ps;
    }
  }

  lemma {:induction false} StaysWritten(g: Graph<Label>, ps: seq<Pointer>, refs: set<int>, j: nat, i: nat)
    requires j < i <= |ps| && ps[j].To? && ps[j].id in g
    ensures ps[j].id in GeneratedAll(g, ps[..i], refs).1
    decreases i
  {
    hide Generated, GeneratedAll;
    OneAfterTheOther(g, ps, refs, i - 1);
    if j < i - 1 {
      StaysWritten(g, ps, refs, j, i - 1);
    } else {
      OneDescribed(g, ps[j], GeneratedAll(g, ps[..j], refs).1);
    }
  }

  /** Pointers are written one after the other: what stands for each is decided by the nodes in `refs` and by those that
      were written for the pointers before it. */
  lemma WrittenInOrder(g: Graph<Label>, ps: seq<Pointer>, refs: set<int>, i: nat)
    requires i < |ps|
    ensures var written := GeneratedAll(g, ps[..i], refs).1;
            && Describes(g, ps[i], written, GeneratedAll(g, ps, refs).0[i])
            && refs <= written
            && forall j | 0 <= j < i && ps[j].To? && ps[j].id in g :: ps[j].id in written
  {
    hide Generated, GeneratedAll, Describes;
    OneAfterTheOther(g, ps, refs, i);
    OneDescribed(g, ps[i], GeneratedAll(g, ps[..i], refs).1);
    forall j | 0 <= j < i && ps[j].To? && ps[j].id in g
      ensures ps[j].id in GeneratedAll(g, ps[..i], refs).1
    {
      StaysWritten(g, ps, refs, j, i);
    }
  }

  // ---- the loader ----

  /** A node that the loader made; pointers lead to objects. */
  datatype Loaded = Loaded(id: int, tag: Label, children: seq<Pointer>)

  /** The objects that were made, in this order; node_refs; and the id that the next new node gets */
  datatype Heap = Heap(objects: map<int, Loaded>, next: int, refs: map<int, Pointer>, currentId: int)

  /** What a new loader knows: no objects and no references. The counter of ids is that of all nodes. */
  function NewHeap(currentId: int): Heap {
    Heap(map[], 0, map[], currentId)
  }

  /** The node types that get_node can make, and for each field the static type when a field holds a vector, an indexed
      vector or a name map: these are made from the JSON at hand, whatever it says. */
  datatype Types = Types(unpackers: set<string>, inlined: map<(string, int), string>)

  function InlinedAs(types: Types, kind: string, i: int): Option<string> {
    if (kind, i) in types.inlined then Some(types.inlined[(kind, i)]) else None
  }

  function IdOf(d: Dump): int {
    if d.ObjectDump? then d.id else -1
  }

  /** The constructor of Node: nodes without an id get a new one, and the next new id is above all ids. */
  function WithId(d: Dump, heap: Heap): (r: (int, Heap))
    ensures r.0 < r.1.currentId && heap.currentId <= r.1.currentId
  {
    var id := IdOf(d);
    if id < 0 then (heap.currentId, heap.(currentId := heap.currentId + 1))
    else if id >= heap.currentId then (id, heap.(currentId := id + 1))
    else (id, heap)
  }

  function Constructed(types: Types, d: Dump, kind: string, heap: Heap): (Pointer, Heap)
    decreases d, 1
  {
    var (id, heap1) := WithId(d, heap);
    var obj := heap1.next;
    if d == NullDump then
      (To(obj), heap1.(next := obj + 1, objects := heap1.objects[obj := Loaded(id, Label(kind, []), [])]))
    else
      var (kids, heap2) := LoadedAll(types, d.kids, |d.kids|, kind, heap1.(next := obj + 1));
      (To(obj), heap2.(objects := heap2.objects[obj := Loaded(id, Label(kind, d.scalars), kids)]))
  }

  /** The first n children, each loaded as its field asks for */
  function LoadedAll(types: Types, ds: seq<Dump>, n: nat, kind: string, heap: Heap): (r: (seq<Pointer>, Heap))
    requires n <= |ds|
    ensures |r.0| == n
    decreases ds, n
  {
    if n == 0 then ([], heap)
    else
      var (kids, heap1) := LoadedAll(types, ds, n - 1, kind, heap);
      var (kid, heap2) := LoadedOne(types, ds[n - 1], InlinedAs(types, kind, n - 1), heap1);
      (kids + [kid], heap2)
  }

  /** get_node, or the construction of a vector from the JSON at hand */
  function LoadedOne(types: Types, d: Dump, inlined: Option<string>, heap: Heap): (Pointer, Heap)
    decreases d, 2
  {
    if inlined.Some? then Constructed(types, d, inlined.value, heap)
    else if IdOf(d) < 0 then (Null, heap)
    else if d.id in heap.refs then (heap.refs[d.id], heap)
    else if d.kind in types.unpackers then
      var (p, heap1) := Constructed(types, d, d.kind, heap);
      (p, heap1.(refs := heap1.refs[d.id := p]))
    else (Null, heap)
  }

  // ---- the round trip ----

  function Translated(h: map<int, int>, p: Pointer): Pointer {
    if p.To? && p.id in h then To(h[p.id]) else Null
  }

  function TranslatedAll(h: map<int, int>, ps: seq<Pointer>): (r: seq<Pointer>)
    ensures |r| == |ps| && forall i | 0 <= i < |ps| :: r[i] == Translated(h, ps[i])
  {
    seq(|ps|, i requires 0 <= i < |ps| => Translated(h, ps[i]))
  }

  /** Object h[k] is a copy of node k, with the id of k. */
  ghost predicate CopyOf(g: Graph<Label>, heap: Heap, h: map<int, int>, k: int) {
    && k in g && k in h && h[k] in heap.objects
    && (forall i | 0 <= i < |g[k].children| && g[k].children[i].To? :: g[k].children[i].id in h)
    && heap.objects[h[k]] == Loaded(k, g[k].tag, TranslatedAll(h, g[k].children))
  }

  /** The objects are copies of the nodes that the root reaches, one object for each node: ids and sharing are the
      same. */
  ghost predicate IsCopy(g: Graph<Label>, root: int, heap: Heap, p: Pointer, h: map<int, int>) {
    && h.Keys == Reached(g, root) && root in h && p == To(h[root])
    && (forall k | k in h :: CopyOf(g, heap, h, k))
    && (forall x | x in heap.objects :: exists k :: k in h && h[k] == x)
  }

  /** The field behind an edge holds a vector. */
  ghost predicate InlineEdge(g: Graph<Label>, types: Types, e: Edge)
    requires e.from in g
  {
    InlinedAs(types, g[e.from].tag.kind, e.at).Some?
  }

  ghost predicate EdgeAmong(g: Graph<Label>, nodes: set<int>, e: Edge) {
    IsEdge(g, e) && e.from in nodes
  }

  /** A field that holds a vector is not null. */
  ghost predicate NoNullVector(g: Graph<Label>, types: Types, n: int)
    requires n in g
  {
    forall i | 0 <= i < |g[n].children| && InlineEdge(g, types, Edge(n, i)) :: g[n].children[i].To?
  }

  ghost predicate SameTarget(g: Graph<Label>, e: Edge, f: Edge) {
    IsEdge(g, e) && IsEdge(g, f) && g[e.from].children[e.at] == g[f.from].children[f.at]
  }

  /** Vectors are not shared: a field that holds a vector is not null, and nothing else points to the same vector. */
  ghost predicate VectorsOwned(g: Graph<Label>, nodes: set<int>, types: Types) {
    && (forall n | n in nodes && n in g :: NoNullVector(g, types, n))
    && (forall e, f | EdgeAmong(g, nodes, e) && EdgeAmong(g, nodes, f) && SameTarget(g, e, f) ::
          InlineEdge(g, types, e) ==> e == f)
  }

  /** Ids are not negative, fields that hold vectors hold vectors of their static type, and get_node knows the types of
      all other nodes. */
  ghost predicate WellTyped(g: Graph<Label>, types: Types) {
    && "" !in types.unpackers
    && (forall n | n in g :: n >= 0)
    && (forall e, c | LeadsTo(g, e, c) && c in g :: FitsField(g, types, e, c))
  }

  ghost predicate FitsField(g: Graph<Label>, types: Types, e: Edge, c: int)
    requires e.from in g && c in g
  {
    var inlined := InlinedAs(types, g[e.from].tag.kind, e.at);
    if inlined.Some? then inlined.value == g[c].tag.kind else g[c].tag.kind in types.unpackers
  }
}
