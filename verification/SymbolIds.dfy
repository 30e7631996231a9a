/** Id assignment of the P4Runtime symbol table (control-plane/p4RuntimeSerializer.cpp), as functions on the
    table's state. The class in SymbolTable.dfy is proved to compute these functions. */
module SymbolIds {
  import opened Wrappers

  /** `INVALID_ID`, which marks a symbol that has no id yet */
  const INVALID: nat := 0
  /** Number of ids that share a resource type */
  const SLOTS: nat := 0x1_0000
  const UINT32: nat := 0x1_0000_0000

  /** One call of `add`: resource type, name and the optional `@id` */
  datatype Entry = Entry(kind: nat, name: string, id: Option<nat>)

  datatype State = State(used: set<nat>, tables: map<nat, map<string, nat>>) {
    /** The id recorded for a symbol, INVALID when the symbol is not in the table */
    function IdOf(kind: nat, name: string): nat {
      if kind in tables && name in tables[kind] then tables[kind][name] else INVALID
    }

    predicate Has(kind: nat, name: string) {
      kind in tables && name in tables[kind]
    }

    function Put(kind: nat, name: string, id: nat): State {
      var table := if kind in tables then tables[kind] else map[];
      this.(tables := tables[kind := table[name := id]])
    }
  }

  const EMPTY: State := State({}, map[])

  // ---- add ----

  function AddEntry(st: State, e: Entry): State {
    if st.Has(e.kind, e.name) then
      st
    else if e.id.None? || e.id.value in st.used then
      st.Put(e.kind, e.name, INVALID)
    else
      st.Put(e.kind, e.name, e.id.value).(used := st.used + {e.id.value})
  }

  /** All the `add` calls, in order */
  function AddAll(es: seq<Entry>): State {
    if es == [] then EMPTY else AddEntry(AddAll(es[..|es| - 1]), es[|es| - 1])
  }

  // ---- probing ----

  /** `(resourceType << 24) | (value & 0xffff)` in 32 bits */
  function ConstructId(kind: nat, value: nat): nat {
    kind * 0x100_0000 % UINT32 + value % SLOTS
  }

  /** The id that probing tries after k steps */
  function Candidate(kind: nat, source: nat, k: nat): nat {
    ConstructId(kind, source + k)
  }

  /** The first free id among those at distance k and more from the source value, in cyclic order */
  function ProbeFrom(used: set<nat>, kind: nat, source: nat, k: nat): Option<nat>
    requires k <= SLOTS
    decreases SLOTS - k
  {
    if k == SLOTS then None
    else if Candidate(kind, source, k) in used then ProbeFrom(used, kind, source, k + 1)
    else Some(Candidate(kind, source, k))
  }

  /** All the ids of a type are taken. */
  ghost predicate Full(used: set<nat>, kind: nat) {
    forall v | 0 <= v < SLOTS :: ConstructId(kind, v) in used
  }

  /** Probing fails exactly when the type is full; otherwise it finds the first free id in cyclic order. */
  lemma {:induction false} ProbeResult(used: set<nat>, kind: nat, source: nat, k: nat)
    requires k <= SLOTS
    requires forall j | 0 <= j < k :: Candidate(kind, source, j) in used
    ensures ProbeFrom(used, kind, source, k).None? <==> Full(used, kind)
    ensures ProbeFrom(used, kind, source, k).Some? ==>
              exists j :: k <= j < SLOTS && ProbeFrom(used, kind, source, k) == Some(Candidate(kind, source, j))
                          && Candidate(kind, source, j) !in used
                          && forall i | 0 <= i < j :: Candidate(kind, source, i) in used
    decreases SLOTS - k
  {
    if k == SLOTS {
      forall v | 0 <= v < SLOTS
        ensures ConstructId(kind, v) in used
      {
        var j := (v - source) % SLOTS;
        assert Candidate(kind, source, j) in used;
        assert (source + j) % SLOTS == v;
      }
    } else if Candidate(kind, source, k) in used {
      ProbeResult(used, kind, source, k + 1);
    } else {
      assert Candidate(kind, source, k) == ConstructId(kind, (source + k) % SLOTS);
    }
  }

  /** Ids of different types below 256 are different, and none is INVALID. */
  lemma KindsApart(kind: nat, kind': nat, v: nat, v': nat)
    requires 0 < kind < 256 && 0 < kind' < 256
    ensures ConstructId(kind, v) == kind * 0x100_0000 + v % SLOTS != INVALID
    ensures kind != kind' ==> ConstructId(kind, v) != ConstructId(kind', v')
  {
  }

  // ---- names in order ----

  /** The order in which `std::map` visits names */
  predicate AtMost(a: string, b: string) {
    a == [] || (b != [] && (a[0] < b[0] || (a[0] == b[0] && AtMost(a[1..], b[1..]))))
  }

  lemma {:induction false} AtMostTotal(a: string, b: string)
    ensures AtMost(a, b) || AtMost(b, a)
    ensures AtMost(a, b) && AtMost(b, a) ==> a == b
  {
    if a != [] && b != [] {
      AtMostTotal(a[1..], b[1..]);
      if a[0] == b[0] { assert a == [a[0]] + a[1..] && b == [b[0]] + b[1..]; }
    }
  }

  lemma {:induction false} AtMostTransitive(a: string, b: string, c: string)
    requires AtMost(a, b) && AtMost(b, c)
    ensures AtMost(a, c)
  {
    if a != [] && a[0] == b[0] == c[0] { AtMostTransitive(a[1..], b[1..], c[1..]); }
  }

  lemma {:induction false} FirstExists(names: set<string>) returns (n: string)
    requires names != {}
    ensures n in names && forall m | m in names :: AtMost(n, m)
  {
    var x :| x in names;
    if names == {x} {
      AtMostTotal(x, x);
      return x;
    }
    var y := FirstExists(names - {x});
    AtMostTotal(x, y);
    AtMostTotal(x, x);
    n := if AtMost(x, y) then x else y;
    forall m | m in names
      ensures AtMost(n, m)
    {
      if m != x && n == x { AtMostTransitive(x, y, m); }
    }
  }

  ghost function First(names: set<string>): (n: string)
    requires names != {}
    ensures n in names && forall m | m in names :: AtMost(n, m)
  {
    assert exists n :: n in names && forall m | m in names :: AtMost(n, m) by {
      var n := FirstExists(names);
    }
    var n :| n in names && forall m | m in names :: AtMost(n, m);
    n
  }

  lemma FirstUnique(names: set<string>, n: string)
    requires n in names && forall m | m in names :: AtMost(n, m)
    ensures n == First(names)
  {
    AtMostTotal(n, First(names));
  }

  // ---- computeIdsForSymbols ----

  /** The names of a type that still need an id */
  function Pending(st: State, kind: nat): set<string> {
    if kind in st.tables then set n | n in st.tables[kind] && st.tables[kind][n] == INVALID else {}
  }

  function Take(st: State, kind: nat, name: string, id: nat): State {
    st.Put(kind, name, id).(used := st.used + {id})
  }

  /** Give ids to `names` in order; the first name for which there is none left ends the work. */
  ghost function AssignNames(st: State, kind: nat, names: set<string>, hash: string -> nat): State
    decreases names
  {
    if names == {} then
      st
    else
      var n := First(names);
      match ProbeFrom(st.used, kind, hash(n), 0)
      case None => st
      case Some(id) => AssignNames(Take(st, kind, n, id), kind, names - {n}, hash)
  }

  /** The types are visited in ascending order. */
  ghost function AssignKinds(st: State, kinds: set<nat>, hash: string -> nat): State
    decreases kinds
  {
    if kinds == {} then
      st
    else
      var k := Least(kinds);
      AssignKinds(AssignNames(st, k, Pending(st, k), hash), kinds - {k}, hash)
  }

  lemma {:induction false} LeastExists(kinds: set<nat>) returns (k: nat)
    requires kinds != {}
    ensures k in kinds && forall m | m in kinds :: k <= m
  {
    k :| k in kinds;
    if kinds != {k} {
      var y := LeastExists(kinds - {k});
      forall m | m in kinds
        ensures k <= m || y <= m
      {
        assert m == k || m in kinds - {k};
      }
      if y < k { k := y; }
    }
  }

  ghost function Least(kinds: set<nat>): (k: nat)
    requires kinds != {}
    ensures k in kinds && forall m | m in kinds :: k <= m
  {
    assert exists k :: k in kinds && forall m | m in kinds :: k <= m by {
      var k := LeastExists(kinds);
    }
    var k :| k in kinds && forall m | m in kinds :: k <= m;
    k
  }

  /** The whole construction: all `add` calls, then ids for every type */
  ghost function Create(es: seq<Entry>, hash: string -> nat): State {
    var st := AddAll(es);
    AssignKinds(st, st.tables.Keys, hash)
  }

  // ---- ids are distinct ----

  ghost predicate Distinct(st: State) {
    && (forall k, n :: st.IdOf(k, n) != INVALID ==> st.IdOf(k, n) in st.used)
    && (forall k, n, k', n' :: st.IdOf(k, n) != INVALID && st.IdOf(k, n) == st.IdOf(k', n') ==> k == k' && n == n')
  }

  lemma PutIdOf(st: State, kind: nat, name: string, id: nat, k: nat, n: string)
    ensures st.Put(kind, name, id).IdOf(k, n) == if k == kind && n == name then id else st.IdOf(k, n)
    ensures st.Put(kind, name, id).Has(k, n) <==> (k == kind && n == name) || st.Has(k, n)
  {
  }

  lemma AddKeepsDistinct(st: State, e: Entry)
    requires Distinct(st)
    ensures Distinct(AddEntry(st, e))
    ensures AddEntry(st, e).tables.Keys == st.tables.Keys + {e.kind}
    ensures forall k, n :: st.Has(k, n) ==> AddEntry(st, e).Has(k, n) && AddEntry(st, e).IdOf(k, n) == st.IdOf(k, n)
    ensures st.used <= AddEntry(st, e).used
  {
    var st' := AddEntry(st, e);
    forall k, n
      ensures st'.IdOf(k, n) == st.IdOf(k, n)
              || (k == e.kind && n == e.name && !st.Has(k, n)
                  && e.id == Some(st'.IdOf(k, n)) && e.id.value !in st.used)
    {
      if !st.Has(e.kind, e.name) {
        PutIdOf(st, e.kind, e.name, INVALID, k, n);
        if e.id.Some? { PutIdOf(st, e.kind, e.name, e.id.value, k, n); }
      }
    }
  }

  /** What giving ids to some names of a type changes: each of them keeps INVALID, and then the type is full, or
      gets an id of its type that nobody had. */
  ghost predicate Assigns(st: State, st': State, kind: nat, names: set<string>) {
    && st'.tables.Keys == st.tables.Keys
    && st.used <= st'.used
    && (forall k, n :: st'.Has(k, n) <==> st.Has(k, n))
    && (forall k, n :: !(k == kind && n in names) ==> st'.IdOf(k, n) == st.IdOf(k, n))
    && (forall n | n in names :: GotId(st, st', kind, n))
  }

  ghost predicate GotId(st: State, st': State, kind: nat, n: string) {
    if st'.IdOf(kind, n) == INVALID then Full(st'.used, kind)
    else st'.IdOf(kind, n) !in st.used && exists v :: 0 <= v < SLOTS && st'.IdOf(kind, n) == ConstructId(kind, v)
  }

  ghost predicate AllPending(st: State, kind: nat, names: set<string>) {
    forall n | n in names :: st.Has(kind, n) && st.IdOf(kind, n) == INVALID
  }

  lemma {:induction false} AssignNamesOutcome(st: State, kind: nat, names: set<string>, hash: string -> nat)
    requires 0 < kind < 256 && Distinct(st) && AllPending(st, kind, names)
    ensures Distinct(AssignNames(st, kind, names, hash))
    ensures Assigns(st, AssignNames(st, kind, names, hash), kind, names)
    decreases names
  {
    hide Distinct, ConstructId, Take;
    if names != {} {
      var n := First(names);
      ProbeResult(st.used, kind, hash(n), 0);
      match ProbeFrom(st.used, kind, hash(n), 0) {
        case None =>
        case Some(id) =>
          TakeOutcome(st, kind, n, id);
          AssignNamesOutcome(Take(st, kind, n, id), kind, names - {n}, hash);
          var j :| 0 <= j < SLOTS && id == Candidate(kind, hash(n), j);
          AssignsMore(st, AssignNames(st, kind, names, hash), kind, names, n, id, hash(n) + j);
      }
    }
  }

  /** One name gets an id, and then the others do. */
  lemma AssignsMore(st: State, st': State, kind: nat, names: set<string>, n: string, id: nat, v: nat)
    requires 0 < kind < 256 && n in names && id == ConstructId(kind, v) && id !in st.used
    requires Distinct(st) && AllPending(st, kind, names)
    requires Assigns(Take(st, kind, n, id), st', kind, names - {n})
    ensures Assigns(st, st', kind, names)
  {
    var mid := Take(st, kind, n, id);
    TakeOutcome(st, kind, n, id);
    hide Distinct, Take, ConstructId;
    ConstructedMod(kind, v);
    forall m | m in names
      ensures GotId(st, st', kind, m)
    {
      if m != n { assert GotId(mid, st', kind, m); }
    }
  }

  lemma ConstructedMod(kind: nat, v: nat)
    requires 0 < kind < 256
    ensures ConstructId(kind, v) == ConstructId(kind, v % SLOTS) != INVALID
  {
  }

  lemma TakeOutcome(st: State, kind: nat, name: string, id: nat)
    requires Distinct(st) && st.Has(kind, name) && st.IdOf(kind, name) == INVALID && id !in st.used
    ensures Distinct(Take(st, kind, name, id))
    ensures Take(st, kind, name, id).tables.Keys == st.tables.Keys
    ensures forall k, n :: Take(st, kind, name, id).Has(k, n) <==> st.Has(k, n)
    ensures forall k, n :: Take(st, kind, name, id).IdOf(k, n) == if k == kind && n == name then id else st.IdOf(k, n)
  {
    var st' := Take(st, kind, name, id);
    forall k, n
      ensures st'.IdOf(k, n) == if k == kind && n == name then id else st.IdOf(k, n)
    {
      PutIdOf(st, kind, name, id, k, n);
    }
  }

  /** Ids for a set of types: every symbol of such a type keeps the id it had, or gets one of its type, or is left
      without because its type is full. Symbols of other types do not change. */
  lemma {:induction false} AssignKindsOutcome(st: State, kinds: set<nat>, hash: string -> nat)
    requires Distinct(st) && kinds <= st.tables.Keys && forall k | k in kinds :: 0 < k < 256
    ensures Distinct(AssignKinds(st, kinds, hash))
    ensures AssignsKinds(st, AssignKinds(st, kinds, hash), kinds)
    decreases kinds
  {
    if kinds != {} {
      var k := Least(kinds);
      AssignNamesOutcome(st, k, Pending(st, k), hash);
      var mid := AssignNames(st, k, Pending(st, k), hash);
      AssignKindsOutcome(mid, kinds - {k}, hash);
      var st' := AssignKinds(mid, kinds - {k}, hash);
      forall k', n
        ensures st'.IdOf(k', n) == st.IdOf(k', n) || (k' in kinds && st.IdOf(k', n) == INVALID)
        ensures k' in kinds && st.Has(k', n) && st.IdOf(k', n) == INVALID ==> GotId(st, st', k', n)
      {
        if k' == k {
          assert n in Pending(st, k) ==> GotId(st, mid, k, n);
        } else if k' in kinds && st.Has(k', n) && st.IdOf(k', n) == INVALID {
          assert mid.Has(k', n) && mid.IdOf(k', n) == INVALID;
          assert GotId(mid, st', k', n);
        }
      }
    }
  }

  ghost predicate AssignsKinds(st: State, st': State, kinds: set<nat>) {
    && st'.tables.Keys == st.tables.Keys
    && st.used <= st'.used
    && (forall k, n :: st'.Has(k, n) <==> st.Has(k, n))
    && (forall k, n :: st'.IdOf(k, n) == st.IdOf(k, n) || (k in kinds && st.IdOf(k, n) == INVALID))
    && (forall k, n :: k in kinds && st.Has(k, n) && st.IdOf(k, n) == INVALID ==> GotId(st, st', k, n))
  }

  lemma {:induction false} AddAllDistinct(es: seq<Entry>)
    ensures Distinct(AddAll(es))
    ensures forall k | k in AddAll(es).tables :: exists e :: e in es && e.kind == k
  {
    if es != [] {
      AddAllDistinct(es[..|es| - 1]);
      AddKeepsDistinct(AddAll(es[..|es| - 1]), es[|es| - 1]);
    }
  }

  /** Over every sequence of `add` calls with resource types from 1 to 255: the valid ids are pairwise distinct over
      all types; a symbol keeps the id that `add` gave it; another symbol gets an id of its type, or none when all
      65536 ids of its type are taken. */
  lemma CreateOutcome(es: seq<Entry>, hash: string -> nat)
    requires forall e | e in es :: 0 < e.kind < 256
    ensures Distinct(Create(es, hash))
    ensures AssignsKinds(AddAll(es), Create(es, hash), AddAll(es).tables.Keys)
  {
    AddAllDistinct(es);
    AssignKindsOutcome(AddAll(es), AddAll(es).tables.Keys, hash);
  }

  // ---- what the add calls leave behind ----

  predicate SameSymbol(e: Entry, f: Entry) {
    e.kind == f.kind && e.name == f.name
  }

  /** The j-th call is the first one for its symbol: the others are ignored. */
  ghost predicate FirstCall(es: seq<Entry>, j: nat)
    requires j < |es|
  {
    forall i | 0 <= i < j :: !SameSymbol(es[i], es[j])
  }

  ghost predicate Called(es: seq<Entry>, kind: nat, name: string) {
    exists j :: 0 <= j < |es| && es[j].kind == kind && es[j].name == name
  }

  /** One of the first i calls counted and claimed the id. */
  ghost predicate ClaimedBefore(es: seq<Entry>, i: nat, v: nat)
    requires i <= |es|
  {
    exists j :: 0 <= j < i && FirstCall(es, j) && es[j].id == Some(v)
  }

  lemma FirstCallInPrefix(es: seq<Entry>, n: nat, j: nat)
    requires j < n <= |es|
    ensures FirstCall(es, j) <==> FirstCall(es[..n], j)
  {
  }

  lemma ClaimedInPrefix(es: seq<Entry>, n: nat, i: nat, v: nat)
    requires i <= n <= |es|
    ensures ClaimedBefore(es, i, v) <==> ClaimedBefore(es[..n], i, v)
  {
    forall j | 0 <= j < i
      ensures FirstCall(es, j) <==> FirstCall(es[..n], j)
    {
      FirstCallInPrefix(es, n, j);
    }
    if ClaimedBefore(es, i, v) {
      var j :| 0 <= j < i && FirstCall(es, j) && es[j].id == Some(v);
      assert es[..n][j] == es[j];
    }
  }

  lemma CalledSnoc(es: seq<Entry>, kind: nat, name: string)
    requires es != []
    ensures Called(es, kind, name) <==>
            Called(es[..|es| - 1], kind, name) || (es[|es| - 1].kind == kind && es[|es| - 1].name == name)
  {
    var fs := es[..|es| - 1];
    if Called(fs, kind, name) {
      var j :| 0 <= j < |fs| && fs[j].kind == kind && fs[j].name == name;
      assert es[j] == fs[j];
    }
  }

  lemma {:induction false} HasAfterAdds(es: seq<Entry>, kind: nat, name: string)
    ensures AddAll(es).Has(kind, name) <==> Called(es, kind, name)
  {
    if es != [] {
      HasAfterAdds(es[..|es| - 1], kind, name);
      CalledSnoc(es, kind, name);
    }
  }

  lemma LastCallIsFirst(es: seq<Entry>)
    requires es != []
    ensures var n := |es| - 1; FirstCall(es, n) <==> !Called(es[..n], es[n].kind, es[n].name)
  {
    var n := |es| - 1;
    var fs := es[..n];
    if !FirstCall(es, n) {
      var i :| 0 <= i < n && SameSymbol(es[i], es[n]);
      assert fs[i] == es[i];
    }
  }

  lemma {:induction false} UsedAfterAdds(es: seq<Entry>, v: nat)
    ensures v in AddAll(es).used <==> ClaimedBefore(es, |es|, v)
  {
    if es != [] {
      var n := |es| - 1;
      var fs, e := es[..n], es[n];
      UsedAfterAdds(fs, v);
      ClaimedInPrefix(es, n, n, v);
      HasAfterAdds(fs, e.kind, e.name);
      LastCallIsFirst(es);
      ClaimedStep(es, n, v);
    }
  }

  lemma ClaimedStep(es: seq<Entry>, n: nat, v: nat)
    requires n < |es|
    ensures ClaimedBefore(es, n + 1, v) <==> ClaimedBefore(es, n, v) || (FirstCall(es, n) && es[n].id == Some(v))
  {
  }

  /** The id that the i-th call is granted: the one it claims, unless an earlier call that counted claimed it */
  ghost function Granted(es: seq<Entry>, i: nat): nat
    requires i < |es|
  {
    if es[i].id.Some? && !ClaimedBefore(es, i, es[i].id.value) then es[i].id.value else INVALID
  }

  lemma {:induction false} IdAfterAdds(es: seq<Entry>, i: nat)
    requires i < |es| && FirstCall(es, i)
    ensures AddAll(es).Has(es[i].kind, es[i].name)
    ensures AddAll(es).IdOf(es[i].kind, es[i].name) == Granted(es, i)
  {
    var n := |es| - 1;
    var fs := es[..n];
    AddAllDistinct(fs);
    AddKeepsDistinct(AddAll(fs), es[n]);
    if i < n {
      FirstCallInPrefix(es, n, i);
      IdAfterAdds(fs, i);
      if es[i].id.Some? { ClaimedInPrefix(es, n, i, es[i].id.value); }
      assert fs[i] == es[i];
    } else {
      LastCallIsFirst(es);
      HasAfterAdds(fs, es[n].kind, es[n].name);
      if es[n].id.Some? {
        UsedAfterAdds(fs, es[n].id.value);
        ClaimedInPrefix(es, n, n, es[n].id.value);
      }
    }
  }

  /** The first non-zero explicit claim of an id is kept to the end. */
  lemma FirstClaimKept(es: seq<Entry>, i: nat, v: nat, hash: string -> nat)
    requires forall e | e in es :: 0 < e.kind < 256
    requires i < |es| && FirstCall(es, i) && es[i].id == Some(v) && v != INVALID
    requires !ClaimedBefore(es, i, v)
    ensures Create(es, hash).IdOf(es[i].kind, es[i].name) == v
  {
    IdAfterAdds(es, i);
    CreateOutcome(es, hash);
  }

  // ---- the order of the add calls does not matter ----

  /** No symbol is added twice and no non-zero id is claimed twice. */
  ghost predicate NoClash(es: seq<Entry>) {
    forall i, j | 0 <= i < j < |es| ::
      !SameSymbol(es[i], es[j]) && (es[i].id.Some? && es[i].id == es[j].id ==> es[i].id.value == INVALID)
  }

  ghost predicate Claimed(es: seq<Entry>, kind: nat, name: string, id: nat) {
    exists e :: e in es && e.kind == kind && e.name == name && id == if e.id.Some? then e.id.value else INVALID
  }

  /** Without clashes the table holds for each call its symbol with the id it claims, and nothing else. */
  lemma WithoutClash(es: seq<Entry>)
    requires NoClash(es)
    ensures forall k, n, id :: AddAll(es).Has(k, n) && AddAll(es).IdOf(k, n) == id <==> Claimed(es, k, n, id)
    ensures forall v :: v in AddAll(es).used <==> exists e :: e in es && e.id == Some(v)
  {
    forall j | 0 <= j < |es|
      ensures FirstCall(es, j)
      ensures AddAll(es).Has(es[j].kind, es[j].name)
      ensures AddAll(es).IdOf(es[j].kind, es[j].name) == if es[j].id.Some? then es[j].id.value else INVALID
    {
      IdAfterAdds(es, j);
    }
    forall v
      ensures v in AddAll(es).used <==> exists e :: e in es && e.id == Some(v)
    {
      UsedAfterAdds(es, v);
      if e :| e in es && e.id == Some(v) {
        var j :| 0 <= j < |es| && es[j] == e;
        assert FirstCall(es, j);
      }
    }
    forall k, n, id
      ensures AddAll(es).Has(k, n) && AddAll(es).IdOf(k, n) == id <==> Claimed(es, k, n, id)
    {
      HasAfterAdds(es, k, n);
      if Claimed(es, k, n, id) {
        var e :| e in es && e.kind == k && e.name == n && id == if e.id.Some? then e.id.value else INVALID;
        var j :| 0 <= j < |es| && es[j] == e;
        assert FirstCall(es, j);
      } else if AddAll(es).Has(k, n) {
        var j :| 0 <= j < |es| && es[j].kind == k && es[j].name == n;
        assert es[j] in es && FirstCall(es, j);
      }
    }
  }

  lemma {:induction false} NoEmptyTable(es: seq<Entry>)
    ensures forall k :: k in AddAll(es).tables <==> exists n :: AddAll(es).Has(k, n)
  {
    if es != [] {
      var st, e := AddAll(es[..|es| - 1]), es[|es| - 1];
      NoEmptyTable(es[..|es| - 1]);
      forall k
        ensures k in AddAll(es).tables <==> exists n :: AddAll(es).Has(k, n)
      {
        forall n
          ensures AddAll(es).Has(k, n) <==> st.Has(k, n) || (k == e.kind && n == e.name)
        {
        }
        if k in AddAll(es).tables {
          assert k in st.tables || AddAll(es).Has(k, e.name);
          if n :| st.Has(k, n) { assert AddAll(es).Has(k, n); }
        }
      }
    }
  }

  lemma SameState(st: State, st': State)
    requires st.used == st'.used
    requires forall k, n :: st.Has(k, n) <==> st'.Has(k, n)
    requires forall k, n :: st.Has(k, n) ==> st.IdOf(k, n) == st'.IdOf(k, n)
    requires forall k :: k in st.tables <==> exists n :: st.Has(k, n)
    requires forall k :: k in st'.tables <==> exists n :: st'.Has(k, n)
    ensures st == st'
  {
    assert forall k :: k in st.tables <==> k in st'.tables;
    forall k | k in st.tables
      ensures st.tables[k] == st'.tables[k]
    {
      forall n
        ensures n in st.tables[k] <==> n in st'.tables[k]
        ensures n in st.tables[k] ==> st.tables[k][n] == st'.tables[k][n]
      {
        assert st.Has(k, n) <==> st'.Has(k, n);
        assert st.Has(k, n) ==> st.IdOf(k, n) == st'.IdOf(k, n);
      }
    }
    assert st.tables == st'.tables;
  }

  /** The final table is the same for every order of the same calls, if they do not clash. */
  lemma OrderIrrelevant(es: seq<Entry>, fs: seq<Entry>, hash: string -> nat)
    requires NoClash(es) && multiset(es) == multiset(fs)
    ensures Create(es, hash) == Create(fs, hash)
  {
    NoClashPermuted(es, fs);
    SameElements(es, fs);
    WithoutClash(es);
    WithoutClash(fs);
    NoEmptyTable(es);
    NoEmptyTable(fs);
    SameClaims(es, fs);
    SameState(AddAll(es), AddAll(fs));
  }

  lemma SameClaims(es: seq<Entry>, fs: seq<Entry>)
    requires NoClash(es) && NoClash(fs) && forall e :: e in es <==> e in fs
    ensures AddAll(es).used == AddAll(fs).used
    ensures forall k, n :: AddAll(es).Has(k, n) <==> AddAll(fs).Has(k, n)
    ensures forall k, n :: AddAll(es).Has(k, n) ==> AddAll(es).IdOf(k, n) == AddAll(fs).IdOf(k, n)
  {
    WithoutClash(es);
    WithoutClash(fs);
    forall k, n, id
      ensures Claimed(es, k, n, id) <==> Claimed(fs, k, n, id)
    {
    }
    forall k, n
      ensures AddAll(es).Has(k, n) <==> AddAll(fs).Has(k, n)
      ensures AddAll(es).Has(k, n) ==> AddAll(es).IdOf(k, n) == AddAll(fs).IdOf(k, n)
    {
      assert AddAll(es).Has(k, n) ==> Claimed(es, k, n, AddAll(es).IdOf(k, n));
      assert AddAll(fs).Has(k, n) ==> Claimed(fs, k, n, AddAll(fs).IdOf(k, n));
    }
  }

  lemma SameElements(es: seq<Entry>, fs: seq<Entry>)
    requires multiset(es) == multiset(fs)
    ensures forall e :: e in es <==> e in fs
  {
    forall e
      ensures e in es <==> e in fs
    {
      assert e in es <==> e in multiset(es);
      assert e in fs <==> e in multiset(fs);
    }
  }

  lemma TwoOccurrences(es: seq<Entry>, i: nat, j: nat)
    requires i < j < |es| && es[i] == es[j]
    ensures multiset(es)[es[i]] >= 2
  {
    assert es == es[..j] + [es[j]] + es[j + 1..];
    assert es[i] in es[..j];
  }

  lemma NoClashPermuted(es: seq<Entry>, fs: seq<Entry>)
    requires NoClash(es) && multiset(es) == multiset(fs)
    ensures NoClash(fs)
  {
    SameElements(es, fs);
    forall i, j | 0 <= i < j < |fs|
      ensures !SameSymbol(fs[i], fs[j]) && (fs[i].id.Some? && fs[i].id == fs[j].id ==> fs[i].id.value == INVALID)
    {
      OnceOnly(es, fs[i]);
      if fs[i] == fs[j] {
        TwoOccurrences(fs, i, j);
      } else {
        assert fs[i] in es && fs[j] in es;
        var k :| 0 <= k < |es| && es[k] == fs[i];
        var l :| 0 <= l < |es| && es[l] == fs[j];
        assert SameSymbol(es[k], es[l]) <==> SameSymbol(es[l], es[k]);
        assert k < l || l < k;
      }
    }
  }

  lemma {:induction false} OnceOnly(es: seq<Entry>, e: Entry)
    requires NoClash(es)
    ensures multiset(es)[e] <= 1
  {
    if es != [] {
      var n := |es| - 1;
      OnceOnly(es[..n], e);
      assert es == es[..n] + [es[n]];
      assert forall i | 0 <= i < n :: !SameSymbol(es[i], es[n]) && es[..n][i] == es[i];
    }
  }
}
