/** The library file as a whole: nodes are written as JSON objects (ir/node.cpp, ir/ir-inline.h, and what
    tools/ir-generator/methods.cpp generates), as text with any white space, and the loader sees them again. */
module LibraryFiles {
  import opened Wrappers
  import opened IrGraph
  import opened JoinPoints
  import opened JsonText
  import opened JsonRoundTrip
  import opened JsonGraph
  import JsonGraphRoundTrip
  import JsonGraphVectors
  import opened JsonWriters

  /** A field of a node type, in the order in which fields are written: one without nodes, or a child. A child that may
      be null is not written when it is. */
  datatype Slot = ScalarSlot(name: string) | ChildSlot(name: string, nullOk: bool)

  /** The fields of a node type. All further children are the elements of an array. */
  datatype Shape = Shape(slots: seq<Slot>, elements: Option<string>)

  type Schema = map<string, Shape>

  const NODE_ID := "Node_ID"
  const NODE_TYPE := "Node_Type"

  function ScalarsIn(slots: seq<Slot>, n: nat): nat
    requires n <= |slots|
  {
    if n == 0 then 0 else ScalarsIn(slots, n - 1) + if slots[n - 1].ScalarSlot? then 1 else 0
  }

  function KidsIn(slots: seq<Slot>, n: nat): nat
    requires n <= |slots|
  {
    if n == 0 then 0 else KidsIn(slots, n - 1) + if slots[n - 1].ChildSlot? then 1 else 0
  }

  // ---- what is written ----

  /** The JSON value of a dump */
  function Written(schema: Schema, d: Dump): Json
    decreases d, 2
  {
    if d == NullDump then Json.Null
    else if d == ReferTo(d.id) || d.kind !in schema then Object([Field(NODE_ID, Number(d.id))])
    else
      var shape := schema[d.kind];
      Object(Head(d.id, d.kind) + SlotFields(schema, d, shape.slots, |shape.slots|)
             + ElementFields(schema, d, shape.elements, KidsIn(shape.slots, |shape.slots|)))
  }

  function Head(id: int, kind: string): seq<Field> {
    [Field(NODE_ID, Number(id)), Field(NODE_TYPE, String(kind))]
  }

  function SlotFields(schema: Schema, d: Dump, slots: seq<Slot>, n: nat): seq<Field>
    requires d.ObjectDump? && n <= |slots|
    decreases d, 1, n
  {
    if n == 0 then [] else SlotFields(schema, d, slots, n - 1) + SlotField(schema, d, slots, n - 1)
  }

  /** What is written for slot k: a field, or nothing */
  function SlotField(schema: Schema, d: Dump, slots: seq<Slot>, k: nat): (fields: seq<Field>)
    requires d.ObjectDump? && k < |slots|
    ensures |fields| <= 1 && (fields != [] ==> fields[0].key == slots[k].name)
    decreases d, 0
  {
    match slots[k]
    case ScalarSlot(name) =>
      var i := ScalarsIn(slots, k);
      if i < |d.scalars| then [Field(name, d.scalars[i])] else []
    case ChildSlot(name, nullOk) =>
      var i := KidsIn(slots, k);
      if i < |d.kids| && !(nullOk && d.kids[i] == NullDump) then [Field(name, Written(schema, d.kids[i]))] else []
  }

  function ElementFields(schema: Schema, d: Dump, elements: Option<string>, from: nat): (fields: seq<Field>)
    requires d.ObjectDump?
    ensures |fields| <= 1 && (fields != [] ==> elements.Some? && fields[0].key == elements.value)
    decreases d, 0
  {
    if elements.None? || from > |d.kids| then []
    else
      [Field(elements.value,
             Array(seq(|d.kids| - from, i requires 0 <= i < |d.kids| - from => Written(schema, d.kids[from + i]))))]
  }

  // ---- what the loader sees ----

  function Find(fields: seq<Field>, key: string): (k: nat)
    ensures k <= |fields| && (k < |fields| ==> fields[k].key == key) && forall i | 0 <= i < k :: fields[i].key != key
  {
    if fields == [] || fields[0].key == key then 0 else 1 + Find(fields[1..], key)
  }

  function Get(fields: seq<Field>, key: string): Option<Json> {
    var k := Find(fields, key);
    if k < |fields| then Some(fields[k].value) else None
  }

  /** JsonObject::get_id and get_type */
  function IdIn(fields: seq<Field>): int {
    match Get(fields, NODE_ID)
    case Some(Number(id)) => id
    case _ => -1
  }

  function TypeIn(fields: seq<Field>): string {
    match Get(fields, NODE_TYPE)
    case Some(String(kind)) => kind
    case _ => ""
  }

  /** What the loader finds in a JSON value. Fields are looked up by the names of the static type when the value is
      that of a vector field, and of the type that it names otherwise. */
  function Seen(schema: Schema, types: Types, j: Json, inlined: Option<string>): Dump
    decreases j, 1
  {
    if !j.Object? then NullDump
    else if Get(j.fields, NODE_TYPE).None? then ReferTo(IdIn(j.fields))
    else
      var kind := if inlined.Some? then inlined.value else TypeIn(j.fields);
      if kind !in schema then ObjectDump(IdIn(j.fields), TypeIn(j.fields), [], [])
      else
        var shape := schema[kind];
        var n := |shape.slots|;
        ObjectDump(IdIn(j.fields), TypeIn(j.fields), SeenScalars(j.fields, shape.slots, n),
                   SeenKids(schema, types, j, kind, shape.slots, n)
                   + SeenElements(schema, types, j, kind, shape.elements, KidsIn(shape.slots, n)))
  }

  function SeenScalars(fields: seq<Field>, slots: seq<Slot>, n: nat): seq<Json>
    requires n <= |slots|
  {
    if n == 0 then []
    else if slots[n - 1].ChildSlot? then SeenScalars(fields, slots, n - 1)
    else
      var value := Get(fields, slots[n - 1].name);
      SeenScalars(fields, slots, n - 1) + [if value.Some? then value.value else Json.Null]
  }

  function SeenKids(schema: Schema, types: Types, j: Json, kind: string, slots: seq<Slot>, n: nat): seq<Dump>
    requires j.Object? && n <= |slots|
    decreases j, 0, n
  {
    if n == 0 then []
    else if slots[n - 1].ScalarSlot? then SeenKids(schema, types, j, kind, slots, n - 1)
    else
      var k := Find(j.fields, slots[n - 1].name);
      SeenKids(schema, types, j, kind, slots, n - 1)
      + [if k < |j.fields| then Seen(schema, types, j.fields[k].value, InlinedAs(types, kind, KidsIn(slots, n - 1)))
         else NullDump]
  }

  function SeenElements(schema: Schema, types: Types, j: Json, kind: string, elements: Option<string>, from: nat):
    seq<Dump>
    requires j.Object?
    decreases j, 0, 0
  {
    if elements.None? then []
    else
      var k := Find(j.fields, elements.value);
      if k == |j.fields| || !j.fields[k].value.Array? then []
      else
        var elems := j.fields[k].value.elems;
        seq(|elems|, i requires 0 <= i < |elems| => Seen(schema, types, elems[i], InlinedAs(types, kind, from + i)))
  }

  // ---- what is written is seen ----

  /** The fields of a node type have different names. */
  ghost predicate NamesOk(shape: Shape) {
    && (forall i, k | 0 <= i < k < |shape.slots| :: shape.slots[i].name != shape.slots[k].name)
    && (forall i | 0 <= i < |shape.slots| :: shape.slots[i].name !in [NODE_ID, NODE_TYPE])
    && (shape.elements.Some? ==>
          && shape.elements.value !in [NODE_ID, NODE_TYPE]
          && forall i | 0 <= i < |shape.slots| :: shape.slots[i].name != shape.elements.value)
  }

  ghost predicate SchemaOk(schema: Schema) {
    forall kind | kind in schema :: NamesOk(schema[kind])
  }

  /** A node has as many fields as its type. */
  ghost predicate HasShape(shape: Shape, scalars: nat, kids: nat) {
    var n := |shape.slots|;
    && scalars == ScalarsIn(shape.slots, n) && KidsIn(shape.slots, n) <= kids
    && (shape.elements.None? ==> kids == KidsIn(shape.slots, n))
  }

  /** A dump whose nodes have the shapes of their types, and whose vectors have their static types */
  ghost predicate IsShaped(schema: Schema, types: Types, d: Dump, inlined: Option<string>)
    decreases d
  {
    d == NullDump || d == ReferTo(d.id)
    || (d.kind in schema && (inlined.Some? ==> inlined.value == d.kind)
        && HasShape(schema[d.kind], |d.scalars|, |d.kids|)
        && forall i | 0 <= i < |d.kids| :: IsShaped(schema, types, d.kids[i], InlinedAs(types, d.kind, i)))
  }

  lemma {:induction false} FindIn(a: seq<Field>, b: seq<Field>, key: string)
    ensures Find(a + b, key) == if Find(a, key) < |a| then Find(a, key) else |a| + Find(b, key)
  {
    if a == [] {
      assert a + b == b;
    } else if a[0].key != key {
      assert (a + b)[1..] == a[1..] + b;
      FindIn(a[1..], b, key);
    }
  }

  lemma GetIn(a: seq<Field>, b: seq<Field>, key: string)
    ensures Get(a + b, key) == if Get(a, key).Some? then Get(a, key) else Get(b, key)
  {
    FindIn(a, b, key);
  }

  /** The value that one field or none has for its key */
  function ValueIn(fields: seq<Field>): Option<Json> {
    if fields == [] then None else Some(fields[0].value)
  }

  lemma GetOne(fields: seq<Field>, key: string)
    requires |fields| <= 1
    ensures Get(fields, key) == if fields != [] && fields[0].key == key then ValueIn(fields) else None
  {
    assert fields != [] ==> fields[1..] == [];
  }

  /** Of the first n slots, slot k is found under its name, and nothing is found under other names. */
  lemma {:induction false} GetSlot(schema: Schema, d: Dump, slots: seq<Slot>, n: nat, key: string)
    requires d.ObjectDump? && n <= |slots|
    requires forall i, k | 0 <= i < k < |slots| :: slots[i].name != slots[k].name
    ensures (forall k | 0 <= k < n :: slots[k].name != key) ==> Get(SlotFields(schema, d, slots, n), key) == None
    ensures forall k | 0 <= k < n && slots[k].name == key ::
              Get(SlotFields(schema, d, slots, n), key) == ValueIn(SlotField(schema, d, slots, k))
  {
    hide SlotField, Get, ValueIn;
    if n > 0 {
      GetSlot(schema, d, slots, n - 1, key);
      GetIn(SlotFields(schema, d, slots, n - 1), SlotField(schema, d, slots, n - 1), key);
      GetOne(SlotField(schema, d, slots, n - 1), key);
      ValueOfNone(SlotField(schema, d, slots, n - 1));
    } else {
      GetOne([], key);
    }
  }

  lemma ValueOfNone(fields: seq<Field>)
    ensures ValueIn(fields).None? <==> fields == []
  {
  }

  /** All fields of a node */
  function AllFields(schema: Schema, d: Dump): seq<Field>
    requires d.ObjectDump? && d.kind in schema
  {
    var shape := schema[d.kind];
    Head(d.id, d.kind) + SlotFields(schema, d, shape.slots, |shape.slots|)
    + ElementFields(schema, d, shape.elements, KidsIn(shape.slots, |shape.slots|))
  }

  lemma GetHead(id: int, kind: string, key: string)
    ensures Get(Head(id, kind), key) ==
            if key == NODE_ID then Some(Number(id)) else if key == NODE_TYPE then Some(String(kind)) else None
  {
    var a, b := [Field(NODE_ID, Number(id))], [Field(NODE_TYPE, String(kind))];
    assert Head(id, kind) == a + b && |NODE_ID| != |NODE_TYPE|;
    GetIn(a, b, key);
    GetOne(a, key);
    GetOne(b, key);
  }

  lemma GetAny(schema: Schema, d: Dump, key: string)
    requires d.ObjectDump? && d.kind in schema && NamesOk(schema[d.kind])
    ensures var shape := schema[d.kind];
            var slots, n := shape.slots, |shape.slots|;
            && (key == NODE_ID ==> Get(AllFields(schema, d), key) == Some(Number(d.id)))
            && (key == NODE_TYPE ==> Get(AllFields(schema, d), key) == Some(String(d.kind)))
            && (forall k | 0 <= k < n && slots[k].name == key ::
                  Get(AllFields(schema, d), key) == ValueIn(SlotField(schema, d, slots, k)))
            && (shape.elements == Some(key) ==>
                  Get(AllFields(schema, d), key) == ValueIn(ElementFields(schema, d, shape.elements, KidsIn(slots, n))))
  {
    hide Get, ValueIn, SlotField, SlotFields, ElementFields, Head, KidsIn;
    var shape := schema[d.kind];
    var a, b := Head(d.id, d.kind), SlotFields(schema, d, shape.slots, |shape.slots|);
    var c := ElementFields(schema, d, shape.elements, KidsIn(shape.slots, |shape.slots|));
    GetHead(d.id, d.kind, key);
    GetSlot(schema, d, shape.slots, |shape.slots|, key);
    GetOne(c, key);
    ValueOfNone(c);
    GetIn(a + b, c, key);
    GetIn(a, b, key);
  }

  /** The loader sees what was written. */
  lemma {:induction false} SeesWritten(schema: Schema, types: Types, d: Dump, inlined: Option<string>)
    requires SchemaOk(schema) && IsShaped(schema, types, d, inlined)
    ensures Seen(schema, types, Written(schema, d), inlined) == d
    decreases d, 1
  {
    if d != NullDump {
      if d == ReferTo(d.id) {
        SeesReference(schema, types, d.id, inlined);
      } else {
        SeesObject(schema, types, d, inlined);
      }
    }
  }

  lemma SeesReference(schema: Schema, types: Types, id: int, inlined: Option<string>)
    ensures Seen(schema, types, Written(schema, ReferTo(id)), inlined) == ReferTo(id)
  {
    GetOne([Field(NODE_ID, Number(id))], NODE_ID);
    GetOne([Field(NODE_ID, Number(id))], NODE_TYPE);
  }

  lemma {:induction false} SeesObject(schema: Schema, types: Types, d: Dump, inlined: Option<string>)
    requires SchemaOk(schema) && IsShaped(schema, types, d, inlined) && d != NullDump && d != ReferTo(d.id)
    ensures Seen(schema, types, Written(schema, d), inlined) == d
    decreases d, 0
  {
    forall i | 0 <= i < |d.kids|
      ensures Seen(schema, types, Written(schema, d.kids[i]), InlinedAs(types, d.kind, i)) == d.kids[i]
    {
      SeesWritten(schema, types, d.kids[i], InlinedAs(types, d.kind, i));
    }
    SeesParts(schema, types, d, inlined);
  }

  lemma SeesParts(schema: Schema, types: Types, d: Dump, inlined: Option<string>)
    requires SchemaOk(schema) && d.ObjectDump? && d != ReferTo(d.id) && d.kind in schema && KidsSeen(schema, types, d)
    requires HasShape(schema[d.kind], |d.scalars|, |d.kids|) && (inlined.Some? ==> inlined.value == d.kind)
    ensures Seen(schema, types, Written(schema, d), inlined) == d
  {
    hide Get, AllFields, KidsSeen, SeenScalars, SeenKids, SeenElements, Head, SlotFields, ElementFields;
    var shape := schema[d.kind];
    var n := |shape.slots|;
    WrittenObject(schema, d);
    GetAny(schema, d, NODE_ID);
    GetAny(schema, d, NODE_TYPE);
    SeesScalars(schema, d, n);
    SeesKids(schema, types, d, n);
    SeesElements(schema, types, d);
    assert d.kids == d.kids[..KidsIn(shape.slots, n)] + d.kids[KidsIn(shape.slots, n)..];
    assert d.scalars[..|d.scalars|] == d.scalars;
  }

  lemma WrittenObject(schema: Schema, d: Dump)
    requires d.ObjectDump? && d != ReferTo(d.id) && d.kind in schema
    ensures Written(schema, d) == Object(AllFields(schema, d))
  {
  }

  lemma {:induction false} SeesScalars(schema: Schema, d: Dump, n: nat)
    requires d.ObjectDump? && d.kind in schema && NamesOk(schema[d.kind]) && n <= |schema[d.kind].slots|
    requires ScalarsIn(schema[d.kind].slots, n) <= |d.scalars|
    ensures SeenScalars(AllFields(schema, d), schema[d.kind].slots, n)
            == d.scalars[..ScalarsIn(schema[d.kind].slots, n)]
  {
    hide AllFields, Get;
    if n > 0 {
      var slots := schema[d.kind].slots;
      SeesScalars(schema, d, n - 1);
      GetAny(schema, d, slots[n - 1].name);
    }
  }

  ghost predicate KidsSeen(schema: Schema, types: Types, d: Dump)
    requires d.ObjectDump?
  {
    forall i | 0 <= i < |d.kids| ::
      Seen(schema, types, Written(schema, d.kids[i]), InlinedAs(types, d.kind, i)) == d.kids[i]
  }

  lemma {:induction false} SeesKids(schema: Schema, types: Types, d: Dump, n: nat)
    requires d.ObjectDump? && d.kind in schema && NamesOk(schema[d.kind]) && n <= |schema[d.kind].slots|
    requires KidsIn(schema[d.kind].slots, n) <= |d.kids| && KidsSeen(schema, types, d)
    ensures SeenKids(schema, types, Object(AllFields(schema, d)), d.kind, schema[d.kind].slots, n)
            == d.kids[..KidsIn(schema[d.kind].slots, n)]
  {
    hide AllFields, Seen, Written;
    if n > 0 {
      var slots := schema[d.kind].slots;
      SeesKids(schema, types, d, n - 1);
      GetAny(schema, d, slots[n - 1].name);
    }
  }

  lemma SeesElements(schema: Schema, types: Types, d: Dump)
    requires d.ObjectDump? && d.kind in schema && NamesOk(schema[d.kind]) && KidsSeen(schema, types, d)
    requires HasShape(schema[d.kind], |d.scalars|, |d.kids|)
    ensures var shape := schema[d.kind];
            var from := KidsIn(shape.slots, |shape.slots|);
            SeenElements(schema, types, Object(AllFields(schema, d)), d.kind, shape.elements, from) == d.kids[from..]
  {
    hide AllFields, Seen, Written;
    var shape := schema[d.kind];
    if shape.elements.Some? { GetAny(schema, d, shape.elements.value); }
  }

  // ---- what is written can be printed ----

  ghost predicate NamesEscaped(schema: Schema) {
    forall kind | kind in schema ::
      && WellEscaped(kind)
      && (forall k | 0 <= k < |schema[kind].slots| :: WellEscaped(schema[kind].slots[k].name))
      && (schema[kind].elements.Some? ==> WellEscaped(schema[kind].elements.value))
  }

  ghost predicate ScalarsPrintable(d: Dump)
    decreases d
  {
    d.ObjectDump? ==>
      && (forall i | 0 <= i < |d.scalars| :: Printable(d.scalars[i]))
      && (forall i | 0 <= i < |d.kids| :: ScalarsPrintable(d.kids[i]))
  }

  /** Fields with different keys of the given ones, which can be printed */
  ghost predicate FieldsOk(fields: seq<Field>, keys: seq<string>) {
    && (forall i | 0 <= i < |fields| :: PrintableField(fields[i]) && fields[i].key in keys)
    && (forall i, k | 0 <= i < k < |fields| :: fields[i].key != fields[k].key)
  }

  lemma FieldsTogether(a: seq<Field>, x: seq<string>, b: seq<Field>, y: seq<string>)
    requires FieldsOk(a, x) && FieldsOk(b, y) && forall key | key in x :: key !in y
    ensures FieldsOk(a + b, x + y)
  {
    hide PrintableField;
    forall i | 0 <= i < |a + b| ensures PrintableField((a + b)[i]) && (a + b)[i].key in x + y {
      assert (a + b)[i] == if i < |a| then a[i] else b[i - |a|];
    }
  }

  function SlotNames(slots: seq<Slot>, n: nat): (names: seq<string>)
    requires n <= |slots|
    ensures forall key :: key in names <==> exists k :: 0 <= k < n && slots[k].name == key
  {
    if n == 0 then [] else SlotNames(slots, n - 1) + [slots[n - 1].name]
  }

  lemma {:induction false} SlotsPrintable(schema: Schema, d: Dump, n: nat)
    requires SchemaOk(schema) && NamesEscaped(schema) && ScalarsPrintable(d)
    requires d.ObjectDump? && d.kind in schema && n <= |schema[d.kind].slots|
    requires forall i | 0 <= i < |d.kids| :: Printable(Written(schema, d.kids[i]))
    ensures FieldsOk(SlotFields(schema, d, schema[d.kind].slots, n), SlotNames(schema[d.kind].slots, n))
  {
    hide Printable, Written, FieldsOk;
    var slots := schema[d.kind].slots;
    if n > 0 {
      SlotsPrintable(schema, d, n - 1);
      OneFieldOk(SlotField(schema, d, slots, n - 1), slots[n - 1].name);
      FieldsTogether(SlotFields(schema, d, slots, n - 1), SlotNames(slots, n - 1), SlotField(schema, d, slots, n - 1),
                     [slots[n - 1].name]);
    } else {
      OneFieldOk([], "");
    }
  }

  lemma OneFieldOk(fields: seq<Field>, key: string)
    requires |fields| <= 1 && (fields != [] ==> fields[0].key == key && WellEscaped(key) && Printable(fields[0].value))
    ensures FieldsOk(fields, [key]) && (fields == [] ==> FieldsOk(fields, []))
  {
    if fields != [] { assert PrintableField(fields[0]); }
  }

  lemma {:induction false} WrittenPrintable(schema: Schema, d: Dump)
    requires SchemaOk(schema) && NamesEscaped(schema) && ScalarsPrintable(d)
    ensures Printable(Written(schema, d))
    decreases d
  {
    HeadPrintable(IdOf(d), "");
    if d != NullDump && d != ReferTo(d.id) && d.kind in schema {
      forall i | 0 <= i < |d.kids| ensures Printable(Written(schema, d.kids[i])) {
        WrittenPrintable(schema, d.kids[i]);
      }
      ObjectPrintable(schema, d);
    }
  }

  lemma HeadPrintable(id: int, kind: string)
    requires WellEscaped(kind)
    ensures FieldsOk(Head(id, kind), [NODE_ID, NODE_TYPE]) && Printable(Object([Field(NODE_ID, Number(id))]))
  {
    assert |NODE_ID| != |NODE_TYPE| && WellEscaped(NODE_ID) && WellEscaped(NODE_TYPE);
    assert PrintableField(Field(NODE_ID, Number(id))) && PrintableField(Field(NODE_TYPE, String(kind)));
  }

  lemma ObjectPrintable(schema: Schema, d: Dump)
    requires SchemaOk(schema) && NamesEscaped(schema) && ScalarsPrintable(d)
    requires d.ObjectDump? && d != ReferTo(d.id) && d.kind in schema
    requires forall i | 0 <= i < |d.kids| :: Printable(Written(schema, d.kids[i]))
    ensures Printable(Written(schema, d))
  {
    var shape := schema[d.kind];
    var n := |shape.slots|;
    var a, b := Head(d.id, d.kind), SlotFields(schema, d, shape.slots, n);
    var c := ElementFields(schema, d, shape.elements, KidsIn(shape.slots, n));
    hide FieldsOk, SlotFields, Head;
    HeadPrintable(d.id, d.kind);
    SlotsPrintable(schema, d, n);
    FieldsTogether(a, [NODE_ID, NODE_TYPE], b, SlotNames(shape.slots, n));
    if shape.elements.Some? {
      OneFieldOk(c, shape.elements.value);
      FieldsTogether(a + b, [NODE_ID, NODE_TYPE] + SlotNames(shape.slots, n), c, [shape.elements.value]);
      FieldsPrintable(a + b + c, [NODE_ID, NODE_TYPE] + SlotNames(shape.slots, n) + [shape.elements.value]);
    } else {
      assert a + b + c == a + b;
      FieldsPrintable(a + b, [NODE_ID, NODE_TYPE] + SlotNames(shape.slots, n));
    }
  }

  lemma FieldsPrintable(fields: seq<Field>, keys: seq<string>)
    requires FieldsOk(fields, keys)
    ensures Printable(Object(fields))
  {
  }

  // ---- graphs ----

  ghost predicate GraphShaped(schema: Schema, g: Graph<Label>) {
    forall n | n in g ::
      g[n].tag.kind in schema && HasShape(schema[g[n].tag.kind], |g[n].tag.scalars|, |g[n].children|)
  }

  /** What the generator writes has the shapes of the nodes. */
  lemma {:induction false} GeneratedShaped(schema: Schema, types: Types, g: Graph<Label>, p: Pointer, refs: set<int>,
                                           inlined: Option<string>)
    requires GraphShaped(schema, g) && WellTyped(g, types)
    requires p.To? && p.id in g && inlined.Some? ==> inlined.value == g[p.id].tag.kind
    ensures IsShaped(schema, types, Generated(g, p, refs).0, inlined)
    decreases g.Keys - refs, 0
  {
    if p.To? && p.id !in refs && p.id in g {
      AllGeneratedShaped(schema, types, g, p.id, |g[p.id].children|, refs + {p.id});
      assert g[p.id].children[..|g[p.id].children|] == g[p.id].children;
    }
  }

  lemma {:induction false} AllGeneratedShaped(schema: Schema, types: Types, g: Graph<Label>, n: int, k: nat,
                                              refs: set<int>)
    requires GraphShaped(schema, g) && WellTyped(g, types) && n in g && k <= |g[n].children|
    ensures forall i | 0 <= i < k ::
              IsShaped(schema, types, GeneratedAll(g, g[n].children[..k], refs).0[i],
                       InlinedAs(types, g[n].tag.kind, i))
    decreases g.Keys - refs, k + 1
  {
    if k > 0 {
      var children := g[n].children;
      assert children[..k][..k - 1] == children[..k - 1];
      var refs1 := GeneratedAll(g, children[..k - 1], refs).1;
      AllGeneratedShaped(schema, types, g, n, k - 1, refs);
      var p := children[k - 1];
      if p.To? && p.id in g {
        assert LeadsTo(g, Edge(n, k - 1), p.id) && FitsField(g, types, Edge(n, k - 1), p.id);
      }
      GeneratedShaped(schema, types, g, p, refs1, InlinedAs(types, g[n].tag.kind, k - 1));
    }
  }

  ghost predicate GraphPrintable(g: Graph<Label>) {
    forall n, i | n in g && 0 <= i < |g[n].tag.scalars| :: Printable(g[n].tag.scalars[i])
  }

  lemma {:induction false} GeneratedPrintable(g: Graph<Label>, p: Pointer, refs: set<int>)
    requires GraphPrintable(g)
    ensures ScalarsPrintable(Generated(g, p, refs).0)
    decreases g.Keys - refs, 0
  {
    if p.To? && p.id !in refs && p.id in g { AllGeneratedPrintable(g, g[p.id].children, refs + {p.id}); }
  }

  lemma {:induction false} AllGeneratedPrintable(g: Graph<Label>, ps: seq<Pointer>, refs: set<int>)
    requires GraphPrintable(g)
    ensures forall i | 0 <= i < |ps| :: ScalarsPrintable(GeneratedAll(g, ps, refs).0[i])
    decreases g.Keys - refs, |ps| + 1
  {
    if ps != [] {
      var n := |ps| - 1;
      AllGeneratedPrintable(g, ps[..n], refs);
      GeneratedPrintable(g, ps[n], GeneratedAll(g, ps[..n], refs).1);
    }
  }

  /** Every graph with printable fields can be written to a file, for example as the printer lays it out. */
  lemma SomeFile(schema: Schema, g: Graph<Label>, root: int, indent: nat) returns (doc: Doc)
    requires SchemaOk(schema) && NamesEscaped(schema) && GraphPrintable(g)
    ensures WellFormed(doc) && ValueOfDoc(doc) == Written(schema, Generated(g, To(root), {}).0)
  {
    var d := Generated(g, To(root), {}).0;
    GeneratedPrintable(g, To(root), {});
    WrittenPrintable(schema, d);
    LaidIsDoc(Written(schema, d), indent);
    doc := Laid(Written(schema, d), indent);
  }

  /** What is loaded from a dump is a copy of the graph. */
  ghost predicate ComesBack(g: Graph<Label>, root: int, types: Types, d: Dump, currentId: int) {
    var (p, heap) := LoadedOne(types, d, None, NewHeap(currentId));
    exists h :: IsCopy(g, root, heap, p, h)
  }

  /** The round trip of a library file. A well-typed acyclic graph is written as JSON, as text with any white space; the
      text is read and loaded. The text is consumed exactly, the loader sees what the generator wrote, and it makes a
      copy of the graph, with the same ids and the same sharing, if and only if no vector is null or shared. */
  lemma {:induction false} FileRoundTrip(schema: Schema, types: Types, g: Graph<Label>, root: int,
                                         rank: map<int, int>, currentId: int, doc: Doc, rest: string)
    requires Ranked(g, rank) && WellTyped(g, types) && root in g && g[root].tag.kind in types.unpackers
    requires SchemaOk(schema) && GraphShaped(schema, g)
    requires WellFormed(doc) && ValueOfDoc(doc) == Written(schema, Generated(g, To(root), {}).0)
    ensures var got := ReadValue(In(Text(doc) + rest, true));
            && got.value.Some? && got.left == In(rest, true)
            && (ComesBack(g, root, types, Seen(schema, types, got.value.value, None), currentId)
                <==> VectorsOwned(g, Reached(g, root), types))
  {
    hide Generated, Written, Seen, ComesBack, VectorsOwned, Ranked, WellTyped, Reached, WellFormed, ReadValue,
         ValueOfDoc, Text, GraphShaped;
    var d := Generated(g, To(root), {}).0;
    RootWritten(g, root);
    FileRead(schema, d, doc, rest);
    GeneratedShaped(schema, types, g, To(root), {}, None);
    SeesWritten(schema, types, d, None);
    ComesBackExactly(g, root, types, rank, currentId);
  }

  lemma ComesBackExactly(g: Graph<Label>, root: int, types: Types, rank: map<int, int>, currentId: int)
    requires Ranked(g, rank) && WellTyped(g, types) && root in g && g[root].tag.kind in types.unpackers
    ensures ComesBack(g, root, types, Generated(g, To(root), {}).0, currentId)
            <==> VectorsOwned(g, Reached(g, root), types)
  {
    JsonGraphVectors.SurvivesExactly(g, root, types, rank, currentId);
    assert JsonGraphRoundTrip.RoundTrip(g, root, types, currentId)
           == LoadedOne(types, Generated(g, To(root), {}).0, None, NewHeap(currentId));
  }

  lemma RootWritten(g: Graph<Label>, root: int)
    ensures Generated(g, To(root), {}).0 != NullDump
  {
  }

  lemma FileRead(schema: Schema, d: Dump, doc: Doc, rest: string)
    requires d != NullDump && WellFormed(doc) && ValueOfDoc(doc) == Written(schema, d)
    ensures ReadValue(In(Text(doc) + rest, true)) == Got(Some(Written(schema, d)), In(rest, true))
  {
    var text := Text(doc);
    assert "" + text == text;
    assert Written(schema, d).Object?;
    ReadsDoc("", doc, rest);
  }
}
