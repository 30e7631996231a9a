/** Flat structs are put together again (midend/flattenInterfaceStructs.cpp). */
module ExplodeStructs {
  import opened FlattenStructs
  import opened Wrappers

  /** A struct initializer: a field of the flat struct, or the parts of a struct of a given name */
  datatype Init = FlatField(name: string) | Initializer(struct: string, parts: seq<Part>)

  datatype Part = Part(name: string, init: Init)

  /** What initializes the struct at a path, or nothing when there is no struct */
  function Exploded(remap: map<string, string>, structs: map<string, Type>, prefix: string, t: Type): Option<Init>
    decreases t, 1
  {
    if prefix !in structs || structs[prefix] != t || !t.Struct? then None
    else
      var parts := ExplodedFields(remap, structs, prefix, t.fields, |t.fields|);
      if parts.None? then None else Some(Initializer(t.name, parts.value))
  }

  function ExplodedFields(remap: map<string, string>, structs: map<string, Type>, prefix: string, fields: seq<Field>,
                          n: nat): Option<seq<Part>>
    requires n <= |fields|
    decreases fields, n
  {
    if n == 0 then Some([])
    else
      var before := ExplodedFields(remap, structs, prefix, fields, n - 1);
      var init := ExplodedField(remap, structs, prefix, fields[n - 1]);
      if before.None? || init.None? then None else Some(before.value + [Part(fields[n - 1].name, init.value)])
  }

  function ExplodedField(remap: map<string, string>, structs: map<string, Type>, prefix: string, f: Field): Option<Init>
    decreases f, 0
  {
    var path := Sub(prefix, f.name);
    if path in remap then Some(FlatField(remap[path])) else Exploded(remap, structs, path, f.typ)
  }

  // ---- values ----

  datatype Value = Leaf(n: int) | Record(struct: string, members: seq<Member>)

  datatype Member = Member(name: string, value: Value)

  ghost predicate HasType(v: Value, t: Type)
    decreases t, 1
  {
    if t.Struct? then v.Record? && v.struct == t.name && |v.members| == |t.fields| && HaveTypes(v.members, t.fields)
    else v.Leaf?
  }

  ghost predicate HaveTypes(members: seq<Member>, fields: seq<Field>)
    requires |members| == |fields|
    decreases fields
  {
    forall i | 0 <= i < |fields| :: MemberOk(members[i], fields[i])
  }

  ghost predicate MemberOk(m: Member, f: Field)
    decreases f
  {
    m.name == f.name && HasType(m.value, f.typ)
  }

  /** The values of all leaves, in order */
  function LeafValues(v: Value): seq<int>
    decreases v, 0
  {
    if v.Leaf? then [v.n] else LeafValuesOf(v.members, |v.members|)
  }

  function LeafValuesOf(members: seq<Member>, n: nat): seq<int>
    requires n <= |members|
    decreases members, n
  {
    if n == 0 then [] else LeafValuesOf(members, n - 1) + MemberLeaves(members[n - 1])
  }

  function MemberLeaves(m: Member): seq<int>
    decreases m, 0
  {
    LeafValues(m.value)
  }

  /** The value of an initializer, given the fields of the flat struct */
  function Built(init: Init, flat: map<string, int>): Option<Value>
    decreases init, 0
  {
    if init.FlatField? then if init.name in flat then Some(Leaf(flat[init.name])) else None
    else
      var members := BuiltParts(init.parts, |init.parts|, flat);
      if members.None? then None else Some(Record(init.struct, members.value))
  }

  function BuiltParts(parts: seq<Part>, n: nat, flat: map<string, int>): Option<seq<Member>>
    requires n <= |parts|
    decreases parts, n
  {
    if n == 0 then Some([])
    else
      var before, value := BuiltParts(parts, n - 1, flat), BuiltPart(parts[n - 1], flat);
      if before.None? || value.None? then None else Some(before.value + [Member(parts[n - 1].name, value.value)])
  }

  function BuiltPart(p: Part, flat: map<string, int>): Option<Value>
    decreases p, 0
  {
    Built(p.init, flat)
  }

  // ---- what the maps say about a part of the type ----

  /** The maps of the whole type, seen from the part at a path */
  ghost predicate MapsFit(remap: map<string, string>, structs: map<string, Type>, prefix: string, t: Type) {
    && (forall p | p in Internals(prefix, t) :: p in structs && structs[p] == Internals(prefix, t)[p] && p !in remap)
    && (forall p | p in Leaves(prefix, t) :: p in remap)
  }

  lemma {:induction false} NoLeafIsInternal(prefix: string, t: Type, p: string)
    requires WellNamed(t) && p in Leaves(prefix, t)
    ensures p !in Internals(prefix, t)
    decreases t, 1
  {
    if t.Struct? {
      LeavesOfBelow(prefix, t.fields, |t.fields|);
      var i :| 0 <= i < |t.fields| && Below(Sub(prefix, t.fields[i].name), p);
      BelowSub(prefix, t.fields[i].name, p);
      NoLeafIsInternalOf(prefix, t, |t.fields|, p);
    }
  }

  lemma {:induction false} NoLeafIsInternalOf(prefix: string, t: Type, n: nat, p: string)
    requires t.Struct? && WellNamed(t) && n <= |t.fields| && p in LeavesOf(prefix, t.fields, |t.fields|)
    ensures p !in InternalsOf(prefix, t.fields, n)
    decreases t.fields, n
  {
    if n > 0 {
      NoLeafIsInternalOf(prefix, t, n - 1, p);
      var f := t.fields[n - 1];
      assert FieldOk(f);
      FieldInternalsBelow(prefix, f);
      if Below(Sub(prefix, f.name), p) {
        LeafOfField(prefix, t, n - 1, |t.fields|, p);
        NoLeafIsInternal(Sub(prefix, f.name), f.typ, p);
      }
    }
  }

  /** A leaf below a field is a leaf of the field. */
  lemma {:induction false} LeafOfField(prefix: string, t: Type, i: nat, n: nat, p: string)
    requires t.Struct? && WellNamed(t) && i < |t.fields| && n <= |t.fields|
    requires p in LeavesOf(prefix, t.fields, n) && Below(Sub(prefix, t.fields[i].name), p)
    ensures i < n && p in FieldLeaves(prefix, t.fields[i])
    decreases n
  {
    assert FieldOk(t.fields[i]) && FieldOk(t.fields[n - 1]);
    if p in FieldLeaves(prefix, t.fields[n - 1]) {
      FieldLeavesBelow(prefix, t.fields[n - 1]);
      DifferentFields(prefix, t.fields[i].name, t.fields[n - 1].name, p);
    } else {
      LeafOfField(prefix, t, i, n - 1, p);
    }
  }

  lemma {:induction false} FieldLeavesInside(prefix: string, fields: seq<Field>, i: nat, n: nat)
    requires i < n <= |fields|
    ensures forall p | p in FieldLeaves(prefix, fields[i]) :: p in LeavesOf(prefix, fields, n)
    decreases n
  {
    if i < n - 1 { FieldLeavesInside(prefix, fields, i, n - 1); }
  }

  lemma {:induction false} FieldInternalsInside(prefix: string, t: Type, i: nat, n: nat)
    requires t.Struct? && WellNamed(t) && i < n <= |t.fields|
    ensures forall p | p in FieldInternals(prefix, t.fields[i]) ::
              p in InternalsOf(prefix, t.fields, n) && p != prefix
              && InternalsOf(prefix, t.fields, n)[p] == FieldInternals(prefix, t.fields[i])[p]
    decreases n
  {
    FieldInternalsBelow(prefix, t.fields[i]);
    if i < n - 1 {
      FieldInternalsInside(prefix, t, i, n - 1);
      FieldInternalsBelow(prefix, t.fields[n - 1]);
      forall p | p in FieldInternals(prefix, t.fields[i])
        ensures p !in FieldInternals(prefix, t.fields[n - 1])
      {
        if Below(Sub(prefix, t.fields[n - 1].name), p) {
          assert FieldOk(t.fields[i]) && FieldOk(t.fields[n - 1]);
          DifferentFields(prefix, t.fields[i].name, t.fields[n - 1].name, p);
        }
      }
    }
  }

  lemma MapsFitFields(remap: map<string, string>, structs: map<string, Type>, prefix: string, t: Type, i: nat)
    requires t.Struct? && WellNamed(t) && i < |t.fields| && MapsFit(remap, structs, prefix, t)
    ensures MapsFit(remap, structs, Sub(prefix, t.fields[i].name), t.fields[i].typ)
  {
    var f := t.fields[i];
    FieldLeavesInside(prefix, t.fields, i, |t.fields|);
    FieldInternalsInside(prefix, t, i, |t.fields|);
    assert Internals(prefix, t) == InternalsOf(prefix, t.fields, |t.fields|)[prefix := t];
    assert FieldInternals(prefix, f) == Internals(Sub(prefix, f.name), f.typ);
    assert FieldLeaves(prefix, f) == Leaves(Sub(prefix, f.name), f.typ);
    assert Leaves(prefix, t) == LeavesOf(prefix, t.fields, |t.fields|);
  }

  // ---- the identity on values ----

  /** The flat struct holds the values of these leaves under their names. */
  ghost predicate Holds(remap: map<string, string>, flat: map<string, int>, paths: seq<string>, values: seq<int>) {
    |paths| == |values| && forall k | 0 <= k < |paths| :: HoldsAt(remap, flat, paths[k], values[k])
  }

  ghost predicate HoldsAt(remap: map<string, string>, flat: map<string, int>, path: string, value: int) {
    path in remap && remap[path] in flat && flat[remap[path]] == value
  }

  lemma {:induction false} AsManyLeaves(prefix: string, t: Type, v: Value)
    requires HasType(v, t)
    ensures |Leaves(prefix, t)| == |LeafValues(v)|
    decreases t, 1
  {
    if t.Struct? { AsManyLeavesOf(prefix, t.fields, v.members, |t.fields|); }
  }

  lemma {:induction false} AsManyLeavesOf(prefix: string, fields: seq<Field>, members: seq<Member>, n: nat)
    requires |members| == |fields| && HaveTypes(members, fields) && n <= |fields|
    ensures |LeavesOf(prefix, fields, n)| == |LeafValuesOf(members, n)|
    decreases fields, n
  {
    if n > 0 {
      AsManyLeavesOf(prefix, fields, members, n - 1);
      assert MemberOk(members[n - 1], fields[n - 1]);
      AsManyInField(prefix, fields[n - 1], members[n - 1]);
    }
  }

  lemma {:induction false} AsManyInField(prefix: string, f: Field, m: Member)
    requires MemberOk(m, f)
    ensures |FieldLeaves(prefix, f)| == |MemberLeaves(m)|
    decreases f, 0
  {
    AsManyLeaves(Sub(prefix, f.name), f.typ, m.value);
  }

  lemma HoldsParts(remap: map<string, string>, flat: map<string, int>, a: seq<string>, b: seq<string>, x: seq<int>,
                   y: seq<int>)
    requires |a| == |x| && |b| == |y|
    ensures Holds(remap, flat, a + b, x + y) <==> Holds(remap, flat, a, x) && Holds(remap, flat, b, y)
  {
    if Holds(remap, flat, a + b, x + y) {
      forall k | 0 <= k < |a| ensures HoldsAt(remap, flat, a[k], x[k]) {
        assert HoldsAt(remap, flat, (a + b)[k], (x + y)[k]);
      }
      forall k | 0 <= k < |b| ensures HoldsAt(remap, flat, b[k], y[k]) {
        assert HoldsAt(remap, flat, (a + b)[|a| + k], (x + y)[|a| + k]);
      }
    }
  }

  /** What the part of a struct at a path is initialized with has the value of this part. */
  lemma {:induction false} ExplodedIsValue(remap: map<string, string>, structs: map<string, Type>, prefix: string,
                                           t: Type, flat: map<string, int>, v: Value)
    requires t.Struct? && WellNamed(t) && MapsFit(remap, structs, prefix, t) && HasType(v, t)
    requires Holds(remap, flat, Leaves(prefix, t), LeafValues(v))
    ensures var init := Exploded(remap, structs, prefix, t); init.Some? && Built(init.value, flat) == Some(v)
    decreases t, 1
  {
    ExplodedFieldsAreValues(remap, structs, prefix, t, |t.fields|, flat, v);
    var parts := ExplodedFields(remap, structs, prefix, t.fields, |t.fields|).value;
    assert Internals(prefix, t)[prefix] == t;
    assert v.members[..|t.fields|] == v.members;
    assert Exploded(remap, structs, prefix, t) == Some(Initializer(t.name, parts));
  }

  lemma {:induction false} ExplodedFieldsAreValues(remap: map<string, string>, structs: map<string, Type>,
                                                   prefix: string, t: Type, n: nat, flat: map<string, int>, v: Value)
    requires t.Struct? && WellNamed(t) && MapsFit(remap, structs, prefix, t) && HasType(v, t) && n <= |t.fields|
    requires Holds(remap, flat, LeavesOf(prefix, t.fields, n), LeafValuesOf(v.members, n))
    ensures var parts := ExplodedFields(remap, structs, prefix, t.fields, n);
            && parts.Some? && |parts.value| == n
            && BuiltParts(parts.value, n, flat) == Some(v.members[..n])
    decreases t.fields, n
  {
    if n > 0 {
      var f, m := t.fields[n - 1], v.members[n - 1];
      assert FieldOk(f) && MemberOk(m, f);
      AsManyLeavesOf(prefix, t.fields, v.members, n - 1);
      AsManyInField(prefix, f, m);
      HoldsParts(remap, flat, LeavesOf(prefix, t.fields, n - 1), FieldLeaves(prefix, f),
                 LeafValuesOf(v.members, n - 1), MemberLeaves(m));
      ExplodedFieldsAreValues(remap, structs, prefix, t, n - 1, flat, v);
      MapsFitFields(remap, structs, prefix, t, n - 1);
      ExplodedFieldIsValue(remap, structs, prefix, f, flat, m);
      var before := ExplodedFields(remap, structs, prefix, t.fields, n - 1).value;
      var part := Part(f.name, ExplodedField(remap, structs, prefix, f).value);
      BuiltOneMore(before, part, flat);
      assert v.members[..n] == v.members[..n - 1] + [m];
    }
  }

  lemma {:induction false} BuiltOneMore(parts: seq<Part>, part: Part, flat: map<string, int>)
    requires BuiltParts(parts, |parts|, flat).Some? && BuiltPart(part, flat).Some?
    ensures BuiltParts(parts + [part], |parts| + 1, flat)
            == Some(BuiltParts(parts, |parts|, flat).value + [Member(part.name, BuiltPart(part, flat).value)])
  {
    BuiltPrefix(parts, part, |parts|, flat);
  }

  lemma {:induction false} BuiltPrefix(parts: seq<Part>, part: Part, n: nat, flat: map<string, int>)
    requires n <= |parts|
    ensures BuiltParts(parts + [part], n, flat) == BuiltParts(parts, n, flat)
  {
    if n > 0 { BuiltPrefix(parts, part, n - 1, flat); }
  }

  lemma {:induction false} ExplodedFieldIsValue(remap: map<string, string>, structs: map<string, Type>, prefix: string,
                                                f: Field, flat: map<string, int>, m: Member)
    requires FieldOk(f) && MapsFit(remap, structs, Sub(prefix, f.name), f.typ) && MemberOk(m, f)
    requires Holds(remap, flat, FieldLeaves(prefix, f), MemberLeaves(m))
    ensures var init := ExplodedField(remap, structs, prefix, f);
            init.Some? && BuiltPart(Part(f.name, init.value), flat) == Some(m.value)
    decreases f, 0
  {
    var path := Sub(prefix, f.name);
    if f.typ.Struct? {
      assert path in Internals(path, f.typ);
      ExplodedIsValue(remap, structs, path, f.typ, flat, m.value);
    } else {
      assert Leaves(path, f.typ) == [path] && LeafValues(m.value) == [m.value.n];
      assert HoldsAt(remap, flat, [path][0], [m.value.n][0]);
    }
  }

  // ---- the whole replacement ----

  /** The flat value: each leaf under its flat name */
  function Flattened(paths: seq<string>, values: seq<int>, n: nat): map<string, int>
    requires n <= |paths| == |values|
  {
    if n == 0 then map[] else Flattened(paths, values, n - 1)[FlatName(paths[n - 1], n - 1) := values[n - 1]]
  }

  ghost predicate NamesDiffer(paths: seq<string>) {
    forall i, j | 0 <= i < j < |paths| :: FlatName(paths[i], i) != FlatName(paths[j], j)
  }

  lemma {:induction false} FlattenedHolds(paths: seq<string>, values: seq<int>, n: nat, k: nat)
    requires n <= |paths| == |values| && NamesDiffer(paths) && k < n
    ensures var flat := Flattened(paths, values, n);
            FlatName(paths[k], k) in flat && flat[FlatName(paths[k], k)] == values[k]
  {
    if k < n - 1 { FlattenedHolds(paths, values, n - 1, k); }
  }

  /** The value comes back when the struct is flattened and put together again. */
  ghost predicate IsKept(t: Type, v: Value, remap: map<string, string>) {
    && |LeafValues(v)| == |Leaves("", t)|
    && var flat := Flattened(Leaves("", t), LeafValues(v), |LeafValues(v)|);
       var init := Exploded(remap, Internals("", t), "", t);
       init.Some? && Built(init.value, flat) == Some(v)
  }

  /** Flattening a struct and putting it together again is the identity on values, when flat names differ. */
  lemma {:induction false} FlattenThenExplode(t: Type, v: Value, remap: map<string, string>)
    requires t.Struct? && WellNamed(t) && HasType(v, t)
    requires NamesLeaves(remap, Leaves("", t)) && NamesDiffer(Leaves("", t))
    ensures IsKept(t, v, remap)
  {
    var paths, values := Leaves("", t), LeafValues(v);
    AsManyLeaves("", t, v);
    var flat := Flattened(paths, values, |values|);
    forall k | 0 <= k < |paths| ensures HoldsAt(remap, flat, paths[k], values[k]) {
      FlattenedHolds(paths, values, |values|, k);
    }
    AllMapsFit(remap, t);
    ExplodedIsValue(remap, Internals("", t), "", t, flat, v);
  }

  lemma AllMapsFit(remap: map<string, string>, t: Type)
    requires t.Struct? && WellNamed(t) && NamesLeaves(remap, Leaves("", t))
    ensures MapsFit(remap, Internals("", t), "", t)
  {
    forall p | p in Internals("", t) ensures p !in remap {
      if p in Leaves("", t) { NoLeafIsInternal("", t, p); }
    }
  }

  // ---- when flat names do not differ ----

  /** There is a value with any given leaves. */
  lemma {:induction false} SomeValue(prefix: string, t: Type, values: seq<int>) returns (v: Value)
    requires |values| == |Leaves(prefix, t)|
    ensures HasType(v, t) && LeafValues(v) == values
    decreases t, 1
  {
    if t.Struct? {
      var members := SomeMembers(prefix, t.fields, |t.fields|, values);
      v := Record(t.name, members);
    } else {
      v := Leaf(values[0]);
    }
  }

  lemma {:induction false} SomeMembers(prefix: string, fields: seq<Field>, n: nat, values: seq<int>)
    returns (members: seq<Member>)
    requires n <= |fields| && |values| == |LeavesOf(prefix, fields, n)|
    ensures |members| == n && forall i | 0 <= i < n :: MemberOk(members[i], fields[i])
    ensures LeafValuesOf(members, n) == values
    decreases fields, n
  {
    members := [];
    if n > 0 {
      var k := |LeavesOf(prefix, fields, n - 1)|;
      var before := SomeMembers(prefix, fields, n - 1, values[..k]);
      var member := SomeMember(prefix, fields[n - 1], values[k..]);
      members := before + [member];
      LeafValuesOfPrefix(before, member, n - 1);
    }
  }

  lemma {:induction false} SomeMember(prefix: string, f: Field, values: seq<int>) returns (m: Member)
    requires |values| == |FieldLeaves(prefix, f)|
    ensures MemberOk(m, f) && MemberLeaves(m) == values
    decreases f, 0
  {
    var v := SomeValue(Sub(prefix, f.name), f.typ, values);
    m := Member(f.name, v);
  }

  lemma {:induction false} LeafValuesOfPrefix(members: seq<Member>, m: Member, n: nat)
    requires n <= |members|
    ensures LeafValuesOf(members + [m], n) == LeafValuesOf(members, n)
  {
    if n > 0 { LeafValuesOfPrefix(members, m, n - 1); }
  }

  lemma {:induction false} FlattenedHasNames(paths: seq<string>, values: seq<int>, n: nat, k: nat)
    requires k < n <= |paths| == |values|
    ensures FlatName(paths[k], k) in Flattened(paths, values, n)
  {
    if k < n - 1 { FlattenedHasNames(paths, values, n - 1, k); }
  }

  /** Two leaves with one flat name: a value in which they differ does not come back, since both are read from the same
      field. */
  lemma {:induction false} CollisionLosesValue(t: Type, remap: map<string, string>, i: nat, j: nat) returns (v: Value)
    requires t.Struct? && WellNamed(t) && NamesLeaves(remap, Leaves("", t)) && i < j < |Leaves("", t)|
    requires FlatName(Leaves("", t)[i], i) == FlatName(Leaves("", t)[j], j)
    ensures HasType(v, t) && !IsKept(t, v, remap)
  {
    var paths := Leaves("", t);
    var n := |paths|;
    v := SomeValue("", t, seq(n, k => k));
    var flat := Flattened(paths, LeafValues(v), n);
    forall k | 0 <= k < n ensures FlatName(paths[k], k) in flat { FlattenedHasNames(paths, LeafValues(v), n, k); }
    var w := SomeValue("", t, seq(n, k requires 0 <= k < n => flat[FlatName(paths[k], k)]));
    forall k | 0 <= k < n ensures HoldsAt(remap, flat, paths[k], LeafValues(w)[k]) {
      assert remap[paths[k]] == FlatName(paths[k], k);
    }
    AllMapsFit(remap, t);
    ExplodedIsValue(remap, Internals("", t), "", t, flat, w);
    assert LeafValues(w)[i] == LeafValues(w)[j];
  }

  /** Flattening and putting together is the identity on all values of a type if and only if its flat names differ. */
  lemma {:induction false} KeptExactly(t: Type, remap: map<string, string>)
    requires t.Struct? && WellNamed(t) && NamesLeaves(remap, Leaves("", t))
    ensures NamesDiffer(Leaves("", t)) <==> forall v | HasType(v, t) :: IsKept(t, v, remap)
  {
    var paths := Leaves("", t);
    if NamesDiffer(paths) {
      forall v | HasType(v, t) ensures IsKept(t, v, remap) { FlattenThenExplode(t, v, remap); }
    } else {
      var i, j :| 0 <= i < j < |paths| && FlatName(paths[i], i) == FlatName(paths[j], j);
      var v := CollisionLosesValue(t, remap, i, j);
    }
  }

  /** No field that is not a struct has a name that ends in a digit. */
  ghost predicate NoDigitAtEnd(t: Type)
    decreases t
  {
    t.Struct? ==> forall i | 0 <= i < |t.fields| :: NoDigitAtEndOf(t.fields[i])
  }

  ghost predicate NoDigitAtEndOf(f: Field)
    decreases f
  {
    (!f.typ.Struct? ==> !EndsInDigit(f.name)) && NoDigitAtEnd(f.typ)
  }

  lemma {:induction false} LeavesEndPlain(prefix: string, t: Type)
    requires NoDigitAtEnd(t) && WellNamed(t) && (t.Struct? || !EndsInDigit(prefix))
    ensures forall p | p in Leaves(prefix, t) :: !EndsInDigit(p)
    decreases t, 1
  {
    if t.Struct? { LeavesOfEndPlain(prefix, t, |t.fields|); }
  }

  lemma {:induction false} LeavesOfEndPlain(prefix: string, t: Type, n: nat)
    requires t.Struct? && NoDigitAtEnd(t) && WellNamed(t) && n <= |t.fields|
    ensures forall p | p in LeavesOf(prefix, t.fields, n) :: !EndsInDigit(p)
    decreases t.fields, n
  {
    if n > 0 {
      var f := t.fields[n - 1];
      LeavesOfEndPlain(prefix, t, n - 1);
      assert NoDigitAtEndOf(f) && FieldOk(f);
      FieldLeavesEndPlain(prefix, f);
    }
  }

  lemma {:induction false} FieldLeavesEndPlain(prefix: string, f: Field)
    requires NoDigitAtEndOf(f) && FieldOk(f)
    ensures forall p | p in FieldLeaves(prefix, f) :: !EndsInDigit(p)
    decreases f, 0
  {
    var path := Sub(prefix, f.name);
    assert path[|path| - 1] == f.name[|f.name| - 1];
    LeavesEndPlain(path, f.typ);
  }

  /** Flat names differ when no field that is not a struct has a name that ends in a digit. */
  lemma {:induction false} NoDigitsNamesDiffer(t: Type)
    requires t.Struct? && WellNamed(t) && NoDigitAtEnd(t)
    ensures NamesDiffer(Leaves("", t))
  {
    var paths := Leaves("", t);
    LeavesEndPlain("", t);
    forall i, j | 0 <= i < j < |paths| ensures FlatName(paths[i], i) != FlatName(paths[j], j) {
      FlatNamesDiffer(paths[i], i, paths[j], j);
    }
  }
}
