/** Nested structs at interfaces become flat structs (midend/flattenInterfaceStructs.cpp). */
module FlattenStructs {
  import opened Decimals

  /** Types other than structs are known by a number. */
  datatype Type = Plain(kind: int) | Struct(name: string, fields: seq<Field>)

  datatype Field = Field(name: string, typ: Type)

  /** Field names of a struct are distinct, and they are identifiers: neither empty nor with dots. */
  ghost predicate WellNamed(t: Type)
    decreases t
  {
    t.Struct? ==>
      && (forall i | 0 <= i < |t.fields| :: FieldOk(t.fields[i]))
      && forall i, j | 0 <= i < j < |t.fields| :: t.fields[i].name != t.fields[j].name
  }

  ghost predicate FieldOk(f: Field)
    decreases f
  {
    f.name != "" && '.' !in f.name && WellNamed(f.typ)
  }

  // ---- paths ----

  function Sub(prefix: string, name: string): string {
    prefix + "." + name
  }

  /** The paths of all fields that are not structs, in order */
  function Leaves(prefix: string, t: Type): seq<string>
    decreases t, 0
  {
    if t.Struct? then LeavesOf(prefix, t.fields, |t.fields|) else [prefix]
  }

  function LeavesOf(prefix: string, fields: seq<Field>, n: nat): seq<string>
    requires n <= |fields|
    decreases fields, n
  {
    if n == 0 then [] else LeavesOf(prefix, fields, n - 1) + FieldLeaves(prefix, fields[n - 1])
  }

  function FieldLeaves(prefix: string, f: Field): seq<string>
    decreases f, 0
  {
    Leaves(Sub(prefix, f.name), f.typ)
  }

  /** Fields come in the order of their declarations, a nested struct in the place of its field. */
  lemma LeavesInOrder(inner: Type, t: Type)
    requires inner == Struct("Inner", [Field("b", Plain(1)), Field("c", Plain(2))])
    requires t == Struct("Outer", [Field("a", Plain(0)), Field("s", inner), Field("d", Plain(3))])
    ensures Leaves("", t) == [".a", ".s.b", ".s.c", ".d"]
  {
    assert Sub("", "a") == ".a" && Sub("", "s") == ".s" && Sub("", "d") == ".d";
    assert Sub(".s", "b") == ".s.b" && Sub(".s", "c") == ".s.c";
    assert LeavesOf(".s", inner.fields, 1) == [".s.b"];
    assert LeavesOf(".s", inner.fields, 2) == [".s.b", ".s.c"];
    assert LeavesOf("", t.fields, 1) == [".a"];
    assert LeavesOf("", t.fields, 2) == [".a", ".s.b", ".s.c"];
    assert LeavesOf("", t.fields, 3) == [".a", ".s.b", ".s.c", ".d"];
  }

  /** A path is below another one when it continues it with more fields. */
  predicate Below(prefix: string, path: string) {
    path == prefix || (|path| > |prefix| && path[..|prefix|] == prefix && path[|prefix|] == '.')
  }

  lemma {:induction false} LeavesBelow(prefix: string, t: Type)
    ensures forall p | p in Leaves(prefix, t) :: Below(prefix, p)
    decreases t, 0
  {
    if t.Struct? { LeavesOfBelow(prefix, t.fields, |t.fields|); }
  }

  lemma {:induction false} LeavesOfBelow(prefix: string, fields: seq<Field>, n: nat)
    requires n <= |fields|
    ensures forall p | p in LeavesOf(prefix, fields, n) :: Below(prefix, p)
    ensures forall p | p in LeavesOf(prefix, fields, n) ::
              exists i :: 0 <= i < n && Below(Sub(prefix, fields[i].name), p)
    decreases fields, n
  {
    if n > 0 {
      LeavesOfBelow(prefix, fields, n - 1);
      FieldLeavesBelow(prefix, fields[n - 1]);
    }
  }

  lemma {:induction false} FieldLeavesBelow(prefix: string, f: Field)
    ensures forall p | p in FieldLeaves(prefix, f) :: Below(Sub(prefix, f.name), p) && Below(prefix, p)
    decreases f, 0
  {
    LeavesBelow(Sub(prefix, f.name), f.typ);
    forall p | p in FieldLeaves(prefix, f) ensures Below(prefix, p) { BelowSub(prefix, f.name, p); }
  }

  lemma BelowSub(prefix: string, name: string, path: string)
    requires Below(Sub(prefix, name), path)
    ensures Below(prefix, path) && path != prefix
  {
    var sub := Sub(prefix, name);
    assert path[..|sub|] == sub;
    assert path[..|prefix|] == sub[..|prefix|] == prefix && path[|prefix|] == sub[|prefix|];
  }

  lemma LongerHasDot(prefix: string, f: string, g: string, path: string)
    requires Below(Sub(prefix, f), path) && Below(Sub(prefix, g), path) && |f| < |g|
    ensures '.' in g
  {
    var a, b, n := Sub(prefix, f), Sub(prefix, g), |prefix| + 1;
    assert path[..|b|] == b && path[|a|] == '.';
    assert g[|a| - n] == b[|a|] == path[|a|];
  }

  /** Paths below different fields are different. */
  lemma DifferentFields(prefix: string, f: string, g: string, path: string)
    requires '.' !in f && '.' !in g && Below(Sub(prefix, f), path) && Below(Sub(prefix, g), path)
    ensures f == g
  {
    if |f| < |g| { LongerHasDot(prefix, f, g, path); }
    if |g| < |f| { LongerHasDot(prefix, g, f, path); }
    var a, b := Sub(prefix, f), Sub(prefix, g);
    assert path[..|a|] == a && path[..|b|] == b;
    assert f == a[|prefix| + 1..] && g == b[|prefix| + 1..];
  }

  ghost predicate Distinct(s: seq<string>) {
    forall i, j | 0 <= i < j < |s| :: s[i] != s[j]
  }

  lemma DistinctConcat(s: seq<string>, t: seq<string>)
    requires Distinct(s) && Distinct(t) && forall x | x in s :: x !in t
    ensures Distinct(s + t)
  {
    forall i, j | 0 <= i < j < |s + t| ensures (s + t)[i] != (s + t)[j] {
      assert i < |s| <= j ==> s[i] in s && t[j - |s|] in t;
    }
  }

  lemma {:induction false} LeavesDistinct(prefix: string, t: Type)
    requires WellNamed(t)
    ensures Distinct(Leaves(prefix, t))
    decreases t, 0
  {
    if t.Struct? { LeavesOfDistinct(prefix, t, |t.fields|); }
  }

  lemma {:induction false} LeavesOfDistinct(prefix: string, t: Type, n: nat)
    requires t.Struct? && WellNamed(t) && n <= |t.fields|
    ensures Distinct(LeavesOf(prefix, t.fields, n))
    decreases t.fields, n
  {
    if n > 0 {
      var f := t.fields[n - 1];
      LeavesOfDistinct(prefix, t, n - 1);
      assert FieldOk(f);
      FieldLeavesDistinct(prefix, f);
      FieldIsApart(prefix, t, n - 1);
      DistinctConcat(LeavesOf(prefix, t.fields, n - 1), FieldLeaves(prefix, f));
    }
  }

  lemma {:induction false} FieldLeavesDistinct(prefix: string, f: Field)
    requires FieldOk(f)
    ensures Distinct(FieldLeaves(prefix, f))
    decreases f, 0
  {
    LeavesDistinct(Sub(prefix, f.name), f.typ);
  }

  /** No path below one field is below an earlier one. */
  lemma FieldIsApart(prefix: string, t: Type, n: nat)
    requires t.Struct? && WellNamed(t) && n < |t.fields|
    ensures forall p | p in LeavesOf(prefix, t.fields, n) :: p !in FieldLeaves(prefix, t.fields[n])
  {
    LeavesOfBelow(prefix, t.fields, n);
    FieldLeavesBelow(prefix, t.fields[n]);
    forall p | p in LeavesOf(prefix, t.fields, n) ensures p !in FieldLeaves(prefix, t.fields[n]) {
      var i :| 0 <= i < n && Below(Sub(prefix, t.fields[i].name), p);
      if Below(Sub(prefix, t.fields[n].name), p) {
        assert FieldOk(t.fields[i]) && FieldOk(t.fields[n]);
        DifferentFields(prefix, t.fields[i].name, t.fields[n].name, p);
      }
    }
  }

  // ---- flat names ----

  function Mangled(path: string): string {
    if path == "" then ""
    else Mangled(path[..|path| - 1]) + if path[|path| - 1] == '.' then "_" else [path[|path| - 1]]
  }

  /** The name of the k-th leaf */
  function FlatName(path: string, k: nat): string {
    Mangled(path) + Digits(k)
  }

  lemma {:induction false} MangledKeeps(path: string)
    ensures |Mangled(path)| == |path|
    ensures forall i | 0 <= i < |path| :: Mangled(path)[i] == if path[i] == '.' then '_' else path[i]
  {
    if path != "" { MangledKeeps(path[..|path| - 1]); }
  }

  predicate EndsInDigit(path: string) {
    path != "" && IsDigit(path[|path| - 1])
  }

  /** Two leaves get the same name if and only if the mangled path of the earlier one is that of the later one with
      leading digits of the later index, and the other digits are the earlier index. */
  lemma {:induction false} FlatNamesCollide(p: string, i: nat, q: string, j: nat)
    requires i < j
    ensures FlatName(p, i) == FlatName(q, j)
            <==> var k := |Digits(j)| - |Digits(i)|;
                 k > 0 && Mangled(p) == Mangled(q) + Digits(j)[..k] && Digits(j)[k..] == Digits(i)
  {
    var d, e := Digits(i), Digits(j);
    DigitsGrow(i, j);
    DigitsRead(i);
    DigitsRead(j);
    var k := |e| - |d|;
    assert e[0..] == e && d != e;
    SplitAt(Mangled(q), e, k);
    if FlatName(p, i) == FlatName(q, j) { SameEnds(Mangled(p), d, Mangled(q) + e[..k], e[k..]); }
  }

  lemma SplitAt(a: string, b: string, k: nat)
    requires k <= |b|
    ensures a + b == a + b[..k] + b[k..]
  {
  }

  lemma SameEnds(a: string, b: string, c: string, d: string)
    requires a + b == c + d && |b| == |d|
    ensures a == c && b == d
  {
    assert |a| == |c|;
    assert a == (a + b)[..|a|] && c == (c + d)[..|c|] && b == (a + b)[|a|..] && d == (c + d)[|c|..];
  }

  /** The names are distinct when no field name ends in a digit. */
  lemma {:induction false} FlatNamesDiffer(p: string, i: nat, q: string, j: nat)
    requires i < j && !EndsInDigit(p)
    ensures FlatName(p, i) != FlatName(q, j)
  {
    FlatNamesCollide(p, i, q, j);
    var k := |Digits(j)| - |Digits(i)|;
    if k > 0 && Mangled(p) == Mangled(q) + Digits(j)[..k] {
      DigitsRead(j);
      EndsAsMangled(p, Mangled(q), Digits(j)[..k]);
    }
  }

  lemma EndsAsMangled(p: string, a: string, b: string)
    requires Mangled(p) == a + b && b != "" && IsDigit(b[|b| - 1])
    ensures EndsInDigit(p)
  {
    MangledKeeps(p);
    assert (a + b)[|a + b| - 1] == b[|b| - 1];
  }

  /** A field a1 at leaf 1 and a field a at leaf 11 both become _a11. */
  lemma CollidingNames()
    ensures FlatName(".a1", 1) == "_a11" && FlatName(".a", 11) == "_a11"
  {
    assert Mangled(".a1") == "_a1" by { assert ".a1"[..2] == ".a" && ".a"[..1] == "." && "."[..0] == ""; }
    assert Mangled(".a") == "_a" by { assert ".a"[..1] == "." && "."[..0] == ""; }
    assert Digits(1) == "1" && Digits(11) == "11";
  }

  // ---- the replacement ----

  /** The structs inside a type, each with its path */
  function Internals(prefix: string, t: Type): map<string, Type>
    decreases t, 0
  {
    if t.Struct? then InternalsOf(prefix, t.fields, |t.fields|)[prefix := t] else map[]
  }

  function InternalsOf(prefix: string, fields: seq<Field>, n: nat): map<string, Type>
    requires n <= |fields|
    decreases fields, n
  {
    if n == 0 then map[] else InternalsOf(prefix, fields, n - 1) + FieldInternals(prefix, fields[n - 1])
  }

  function FieldInternals(prefix: string, f: Field): map<string, Type>
    decreases f, 0
  {
    Internals(Sub(prefix, f.name), f.typ)
  }

  lemma {:induction false} InternalsBelow(prefix: string, t: Type)
    ensures forall p | p in Internals(prefix, t) :: Below(prefix, p)
    decreases t, 0
  {
    if t.Struct? { InternalsOfBelow(prefix, t.fields, |t.fields|); }
  }

  lemma {:induction false} InternalsOfBelow(prefix: string, fields: seq<Field>, n: nat)
    requires n <= |fields|
    ensures forall p | p in InternalsOf(prefix, fields, n) ::
              Below(prefix, p) && p != prefix && exists i :: 0 <= i < n && Below(Sub(prefix, fields[i].name), p)
    decreases fields, n
  {
    if n > 0 {
      InternalsOfBelow(prefix, fields, n - 1);
      FieldInternalsBelow(prefix, fields[n - 1]);
    }
  }

  lemma {:induction false} FieldInternalsBelow(prefix: string, f: Field)
    ensures forall p | p in FieldInternals(prefix, f) ::
              Below(Sub(prefix, f.name), p) && Below(prefix, p) && p != prefix
    decreases f, 0
  {
    InternalsBelow(Sub(prefix, f.name), f.typ);
    forall p | p in FieldInternals(prefix, f) ensures Below(prefix, p) && p != prefix { BelowSub(prefix, f.name, p); }
  }

  /** The structs that were met before field n are not below it. */
  lemma MetBefore(prefix: string, t: Type, n: nat, met: map<string, Type>)
    requires t.Struct? && WellNamed(t) && n < |t.fields| && forall p | p in met :: !Below(prefix, p)
    ensures forall p | p in met[prefix := t] + InternalsOf(prefix, t.fields, n) ::
              !Below(Sub(prefix, t.fields[n].name), p)
  {
    InternalsOfBelow(prefix, t.fields, n);
    forall p | p in met[prefix := t] + InternalsOf(prefix, t.fields, n)
      ensures !Below(Sub(prefix, t.fields[n].name), p)
    {
      if Below(Sub(prefix, t.fields[n].name), p) {
        BelowSub(prefix, t.fields[n].name, p);
        var i :| 0 <= i < n && Below(Sub(prefix, t.fields[i].name), p);
        assert FieldOk(t.fields[i]) && FieldOk(t.fields[n]);
        DifferentFields(prefix, t.fields[i].name, t.fields[n].name, p);
      }
    }
  }

  lemma {:induction false} LeavesOfPrefix(prefix: string, fields: seq<Field>, m: nat, n: nat)
    requires m <= n <= |fields|
    ensures LeavesOf(prefix, fields, m) <= LeavesOf(prefix, fields, n)
    decreases n
  {
    if m < n { LeavesOfPrefix(prefix, fields, m, n - 1); }
  }

  lemma DistinctPart(s: seq<string>, prefix: string, t: Type, n: nat)
    requires t.Struct? && n < |t.fields| && Distinct(s + Leaves(prefix, t))
    ensures Distinct(s + LeavesOf(prefix, t.fields, n) + FieldLeaves(prefix, t.fields[n]))
  {
    LeavesOfPrefix(prefix, t.fields, n + 1, |t.fields|);
    var part := LeavesOf(prefix, t.fields, n + 1);
    ConcatAssociates(s, LeavesOf(prefix, t.fields, n), FieldLeaves(prefix, t.fields[n]));
    DistinctPrefix(s + part, s + Leaves(prefix, t));
  }

  lemma DistinctPrefix(s: seq<string>, t: seq<string>)
    requires s <= t && Distinct(t)
    ensures Distinct(s)
  {
  }

  lemma FlatNamesOneMore(paths: seq<string>, p: string)
    ensures FlatNames(paths + [p]) == FlatNames(paths) + [FlatName(p, |paths|)]
  {
  }

  lemma NamesOneMore(remap: map<string, string>, paths: seq<string>, p: string)
    requires NamesLeaves(remap, paths) && Distinct(paths + [p])
    ensures NamesLeaves(remap[p := FlatName(p, |paths|)], paths + [p])
  {
    forall i | 0 <= i < |paths| ensures paths[i] != p {
      assert (paths + [p])[i] != (paths + [p])[|paths|];
    }
    assert p !in remap;
  }

  /** The leaves are mapped to their flat names, in order. */
  ghost predicate NamesLeaves(remap: map<string, string>, paths: seq<string>) {
    && Distinct(paths) && |remap| == |paths|
    && (forall k | 0 <= k < |paths| :: paths[k] in remap && remap[paths[k]] == FlatName(paths[k], k))
    && (forall p | p in remap :: p in paths)
  }

  function Remap(paths: seq<string>): map<string, string> {
    if paths == [] then map[]
    else
      var n := |paths| - 1;
      Remap(paths[..n])[paths[n] := FlatName(paths[n], n)]
  }

  lemma {:induction false} RemapNamesLeaves(paths: seq<string>)
    requires Distinct(paths)
    ensures NamesLeaves(Remap(paths), paths)
  {
    hide FlatName, Distinct;
    if paths != [] {
      var n := |paths| - 1;
      DistinctPrefix(paths[..n], paths);
      RemapNamesLeaves(paths[..n]);
      assert paths == paths[..n] + [paths[n]];
      NamesOneMore(Remap(paths[..n]), paths[..n], paths[n]);
    }
  }

  lemma {:induction false} RemapSize(paths: seq<string>, more: string)
    requires Distinct(paths + [more])
    ensures |Remap(paths)| == |paths|
    ensures Remap(paths + [more]) == Remap(paths)[more := FlatName(more, |paths|)]
  {
    assert (paths + [more])[..|paths|] == paths;
    DistinctPrefix(paths, paths + [more]);
    RemapNamesLeaves(paths);
  }

  function FlatNames(paths: seq<string>): seq<string> {
    seq(|paths|, k requires 0 <= k < |paths| => FlatName(paths[k], k))
  }

  lemma ConcatAssociates(a: seq<string>, b: seq<string>, c: seq<string>)
    ensures (a + b) + c == a + (b + c)
  {
  }

  lemma MergeAssociates(a: map<string, Type>, b: map<string, Type>, c: map<string, Type>)
    ensures (a + b) + c == a + (b + c)
  {
  }

  lemma MergeSelf(a: map<string, Type>, b: map<string, Type>, prefix: string, t: Type)
    requires prefix !in b
    ensures a[prefix := t] + b == a + b[prefix := t]
  {
  }

  class StructTypeReplacement {
    var fieldNameRemap: map<string, string>
    var structFieldMap: map<string, Type>
    /** The names of the fields of the flat struct */
    var fields: seq<string>
    ghost var paths: seq<string>

    /** The keys of the two maps are exactly the paths of the leaves and of the structs; the fields of the flat struct
        are the names of the leaves, in order. */
    constructor (t: Type)
      requires WellNamed(t) && t.Struct?
      ensures paths == Leaves("", t) && NamesLeaves(fieldNameRemap, paths) && fields == FlatNames(paths)
      ensures structFieldMap == Internals("", t)
    {
      hide Leaves, Internals, Distinct, NamesLeaves, WellNamed;
      fieldNameRemap, structFieldMap, fields, paths := map[], map[], [], [];
      new;
      LeavesDistinct("", t);
      Flatten("", t);
      assert [] + Leaves("", t) == Leaves("", t);
      RemapNamesLeaves(Leaves("", t));
    }

    ghost predicate Consistent()
      reads this
    {
      fieldNameRemap == Remap(paths) && fields == FlatNames(paths)
    }

    method Flatten(prefix: string, t: Type)
      requires WellNamed(t) && Consistent() && Distinct(paths + Leaves(prefix, t))
      requires forall p | p in structFieldMap :: !Below(prefix, p)
      modifies this
      ensures Consistent() && paths == old(paths) + Leaves(prefix, t)
      ensures structFieldMap == old(structFieldMap) + Internals(prefix, t)
      decreases t
    {
      if t.Struct? {
        FlattenFields(prefix, t);
      } else {
        AddLeaf(prefix);
      }
    }

    method FlattenFields(prefix: string, t: Type)
      requires t.Struct? && WellNamed(t) && Consistent() && Distinct(paths + Leaves(prefix, t))
      requires forall p | p in structFieldMap :: !Below(prefix, p)
      modifies this
      ensures Consistent() && paths == old(paths) + Leaves(prefix, t)
      ensures structFieldMap == old(structFieldMap) + Internals(prefix, t)
      decreases t, 0
    {
      ghost var before, met := paths, structFieldMap;
      structFieldMap := structFieldMap[prefix := t];
      for i := 0 to |t.fields|
        invariant Consistent() && FieldsFlattened(before, met, prefix, t, i)
      {
        FlattenField(before, met, prefix, t, i);
      }
      InternalsOfBelow(prefix, t.fields, |t.fields|);
      MergeSelf(met, InternalsOf(prefix, t.fields, |t.fields|), prefix, t);
    }

    /** The first i fields of a struct are done. */
    ghost predicate FieldsFlattened(before: seq<string>, met: map<string, Type>, prefix: string, t: Type, i: nat)
      requires t.Struct?
      reads this
    {
      && i <= |t.fields| && paths == before + LeavesOf(prefix, t.fields, i)
      && structFieldMap == met[prefix := t] + InternalsOf(prefix, t.fields, i)
    }

    method FlattenField(ghost before: seq<string>, ghost met: map<string, Type>, prefix: string, t: Type, i: nat)
      requires t.Struct? && WellNamed(t) && i < |t.fields| && Consistent()
      requires FieldsFlattened(before, met, prefix, t, i)
      requires Distinct(before + Leaves(prefix, t)) && forall p | p in met :: !Below(prefix, p)
      modifies this
      ensures Consistent() && FieldsFlattened(before, met, prefix, t, i + 1)
      decreases t.fields[i]
    {
      MetBefore(prefix, t, i, met);
      DistinctPart(before, prefix, t, i);
      assert FieldOk(t.fields[i]);
      Flatten(Sub(prefix, t.fields[i].name), t.fields[i].typ);
      ConcatAssociates(before, LeavesOf(prefix, t.fields, i), FieldLeaves(prefix, t.fields[i]));
      MergeAssociates(met[prefix := t], InternalsOf(prefix, t.fields, i), FieldInternals(prefix, t.fields[i]));
    }

    method AddLeaf(prefix: string)
      requires Consistent() && Distinct(paths + [prefix])
      modifies `fieldNameRemap, `fields, `paths
      ensures Consistent() && paths == old(paths) + [prefix]
    {
      RemapSize(paths, prefix);
      FlatNamesOneMore(paths, prefix);
      var fieldName := Mangled(prefix) + Digits(|fieldNameRemap|);
      fieldNameRemap := fieldNameRemap[prefix := fieldName];
      fields := fields + [fieldName];
      paths := paths + [prefix];
    }
  }
}
