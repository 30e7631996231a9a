/** JSONGenerator (ir/json_generator.h) and JSONLoader (ir/json_loader.h) */
module JsonGraphStreams {
  import opened Wrappers
  import opened IrGraph
  import opened JsonGraph

  class JsonGenerator {
    const g: Graph<Label>
    var nodeRefs: set<int>

    constructor (g: Graph<Label>)
      ensures this.g == g && nodeRefs == {}
    {
      this.g, nodeRefs := g, {};
    }

    /** A node is written at its first occurrence; later its id is. */
    method Generate(p: Pointer) returns (d: Dump)
      modifies this
      ensures (d, nodeRefs) == Generated(g, p, old(nodeRefs))
      decreases g.Keys - nodeRefs, 0
    {
      if p == Null { return NullDump; }
      if p.id in nodeRefs || p.id !in g { return ReferTo(p.id); }
      nodeRefs := nodeRefs + {p.id};
      var kids := GenerateAll(g[p.id].children);
      return ObjectDump(p.id, g[p.id].tag.kind, g[p.id].tag.scalars, kids);
    }

    method GenerateAll(ps: seq<Pointer>) returns (kids: seq<Dump>)
      modifies this
      ensures (kids, nodeRefs) == GeneratedAll(g, ps, old(nodeRefs))
      decreases g.Keys - nodeRefs, 1
    {
      kids := [];
      for i := 0 to |ps|
        invariant (kids, nodeRefs) == GeneratedAll(g, ps[..i], old(nodeRefs))
      {
        assert ps[..i + 1][..i] == ps[..i];
        var kid := Generate(ps[i]);
        kids := kids + [kid];
      }
      assert ps[..|ps|] == ps;
    }
  }

  class JsonLoader {
    const types: Types
    var objects: map<int, Loaded>
    var next: int
    var nodeRefs: map<int, Pointer>
    var currentId: int

    /** `currentId` is the counter of all nodes of the process, wherever it stands. */
    constructor (types: Types, currentId: int)
      ensures this.types == types && State() == NewHeap(currentId)
    {
      this.types, this.currentId, objects, next, nodeRefs := types, currentId, map[], 0, map[];
    }

    ghost function State(): Heap
      reads this
    {
      Heap(objects, next, nodeRefs, currentId)
    }

    /** The constructor of Node, and of the fields that it has */
    method Construct(d: Dump, kind: string) returns (p: Pointer)
      modifies this
      ensures (p, State()) == Constructed(types, d, kind, old(State()))
      ensures p == To(old(next)) && old(next) in objects && objects[old(next)].tag.kind == kind
      ensures objects[old(next)].id == if d.ObjectDump? && d.id >= 0 then d.id else old(currentId)
      decreases d, 1
    {
      var id := if d.ObjectDump? then d.id else -1;
      if id < 0 {
        id := currentId;
        currentId := currentId + 1;
      } else if id >= currentId {
        currentId := id + 1;
      }
      var obj := next;
      next := next + 1;
      if d.ObjectDump? {
        var kids := LoadAll(d.kids, kind);
        objects := objects[obj := Loaded(id, Label(kind, d.scalars), kids)];
      } else {
        objects := objects[obj := Loaded(id, Label(kind, []), [])];
      }
      return To(obj);
    }

    method LoadAll(ds: seq<Dump>, kind: string) returns (kids: seq<Pointer>)
      modifies this
      ensures (kids, State()) == LoadedAll(types, ds, |ds|, kind, old(State()))
      decreases ds
    {
      kids := [];
      for i := 0 to |ds|
        invariant (kids, State()) == LoadedAll(types, ds, i, kind, old(State()))
      {
        var kid := LoadOne(ds[i], InlinedAs(types, kind, i));
        kids := kids + [kid];
      }
    }

    method LoadOne(d: Dump, inlined: Option<string>) returns (p: Pointer)
      modifies this
      ensures (p, State()) == LoadedOne(types, d, inlined, old(State()))
      decreases d, 3
    {
      if inlined.Some? {
        p := Construct(d, inlined.value);
      } else {
        p := GetNode(d);
      }
    }

    method GetNode(d: Dump) returns (p: Pointer)
      modifies this
      ensures (p, State()) == LoadedOne(types, d, None, old(State()))
      ensures d == NullDump || d.id < 0 ==> p == Null && State() == old(State())
      ensures d.ObjectDump? && d.id in old(nodeRefs) && d.id >= 0 ==>
                p == old(nodeRefs)[d.id] && State() == old(State())
      ensures d.ObjectDump? && d.id !in old(nodeRefs) && d.id >= 0 ==>
                if d.kind in types.unpackers then p == To(old(next)) && d.id in nodeRefs && nodeRefs[d.id] == p
                else p == Null && State() == old(State())
      decreases d, 2
    {
      if d == NullDump || d.id < 0 { return Null; }
      if d.id !in nodeRefs {
        if d.kind !in types.unpackers { return Null; }
        var made := Construct(d, d.kind);
        nodeRefs := nodeRefs[d.id := made];
      }
      return nodeRefs[d.id];
    }
  }
}
