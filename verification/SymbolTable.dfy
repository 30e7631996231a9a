/** P4RuntimeSymbolTable of control-plane/p4RuntimeSerializer.cpp: symbols are collected by `add`, then ids are
    computed for every resource type. The hash of names is an arbitrary function. */
module SymbolTables {
  import opened Wrappers
  import opened SymbolIds
  import opened Suffixes
  import opened SymbolHashes

  ghost predicate Known(st: State, name: string) {
    exists k :: st.Has(k, name)
  }

  class SymbolTable {
    const hash: string -> nat
    const suffixSet: SuffixSet
    var assignedIds: set<nat>
    var symbolTables: map<nat, map<string, nat>>
    /** The calls of `add` so far */
    ghost var calls: seq<Entry>

    ghost function Snapshot(): State
      reads this
    {
      State(assignedIds, symbolTables)
    }

    ghost predicate Valid()
      reads this, suffixSet
    {
      && suffixSet.Valid()
      && (forall s :: s in suffixSet.symbols <==> Known(Snapshot(), s))
    }

    constructor (hash: string -> nat)
      ensures Valid() && fresh(suffixSet) && suffixSet.symbols == {} && this.hash == hash
      ensures calls == [] && Snapshot() == AddAll(calls)
    {
      this.hash := hash;
      suffixSet := new SuffixSet();
      assignedIds := {};
      symbolTables := map[];
      calls := [];
    }

    /** Duplicates of a symbol are ignored. */
    method Add(kind: nat, name: string, id: Option<nat>)
      requires Valid() && name != ""
      requires Snapshot() == AddAll(calls)
      modifies this, suffixSet
      ensures Valid() && calls == old(calls) + [Entry(kind, name, id)]
      ensures Snapshot() == AddAll(calls)
      ensures suffixSet.symbols == old(suffixSet.symbols) + {name}
    {
      hide Tree, CountsOf;
      ghost var st := Snapshot();
      assert forall s :: s in suffixSet.symbols <==> Known(st, s);
      calls := calls + [Entry(kind, name, id)];
      assert calls[..|calls| - 1] == old(calls);
      var symbolTable := if kind in symbolTables then symbolTables[kind] else map[];
      if name in symbolTable {
        assert st.Has(kind, name) && Snapshot() == st;
        return;
      }
      var assigned' := TryToAssignId(id);
      symbolTables := symbolTables[kind := symbolTable[name := assigned']];
      assert Snapshot() == AddEntry(st, Entry(kind, name, id));
      suffixSet.AddSymbol(name);
      assert Snapshot() == AddEntry(st, Entry(kind, name, id));
      forall s
        ensures s in suffixSet.symbols <==> Known(Snapshot(), s)
      {
        AddedSymbols(st, Entry(kind, name, id), s);
      }
    }

    /** The explicit id if nobody has it, else INVALID */
    method TryToAssignId(id: Option<nat>) returns (r: nat)
      modifies `assignedIds
      ensures r == if id.Some? && id.value !in old(assignedIds) then id.value else INVALID
      ensures assignedIds == old(assignedIds) + if id.Some? then {id.value} else {}
    {
      if id.None? { return INVALID; }
      if id.value in assignedIds { return INVALID; }
      assignedIds := assignedIds + {id.value};
      return id.value;
    }

    /** Give ids to the symbols of a type that have none, in the order of their names. */
    method ComputeIdsForSymbols(kind: nat)
      requires kind in symbolTables && forall s :: hash(s) < UINT32
      modifies `assignedIds, `symbolTables
      ensures Snapshot() == old(AssignNames(Snapshot(), kind, Pending(Snapshot(), kind), hash))
      ensures 0 < kind < 256 && old(Distinct(Snapshot())) ==>
                forall n | n in old(Pending(Snapshot(), kind)) ::
                  HasFirstFree(old(assignedIds), old(Pending(Snapshot(), kind)), Snapshot(), kind, n, hash(n))
    {
      hide Distinct, HasFirstFree;
      if 0 < kind < 256 && Distinct(Snapshot()) {
        NamesHaveFirstFree(Snapshot(), kind, Pending(Snapshot(), kind), hash);
      }
      var pending := set n | n in symbolTables[kind] && symbolTables[kind][n] == INVALID;
      assert pending == Pending(Snapshot(), kind);
      while pending != {}
        invariant kind in symbolTables
        invariant AssignNames(Snapshot(), kind, pending, hash)
                  == old(AssignNames(Snapshot(), kind, Pending(Snapshot(), kind), hash))
        decreases pending
      {
        ghost var first := First(pending);
        var name :| name in pending && forall m | m in pending :: AtMost(name, m);
        FirstUnique(pending, name);
        var id := ProbeForId(kind, hash(name));
        if id.None? { return; }
        ghost var st := Snapshot();
        assignedIds := assignedIds + {id.value};
        symbolTables := symbolTables[kind := symbolTables[kind][name := id.value]];
        assert Snapshot() == Take(st, kind, name, id.value);
        pending := pending - {name};
      }
    }

    /** The second half of `create`: types in ascending order */
    method ComputeIds()
      requires forall s :: hash(s) < UINT32
      modifies `assignedIds, `symbolTables
      ensures Snapshot() == old(AssignKinds(Snapshot(), symbolTables.Keys, hash))
    {
      var kinds := symbolTables.Keys;
      while kinds != {}
        invariant kinds <= symbolTables.Keys
        invariant AssignKinds(Snapshot(), kinds, hash) == old(AssignKinds(Snapshot(), symbolTables.Keys, hash))
        decreases kinds
      {
        ghost var least := Least(kinds);
        var kind :| kind in kinds && forall m | m in kinds :: kind <= m;
        assert kind == least;
        KeysKept(Snapshot(), kind, Pending(Snapshot(), kind), hash);
        ComputeIdsForSymbols(kind);
        kinds := kinds - {kind};
      }
    }

    /** Linear probing over 32-bit values; None once every value was tried. */
    method ProbeForId(kind: nat, sourceValue: nat) returns (id: Option<nat>)
      requires sourceValue < UINT32
      ensures id == ProbeFrom(assignedIds, kind, sourceValue, 0)
    {
      var value := sourceValue;
      ghost var k := 0;
      while ConstructId(kind, value) in assignedIds
        invariant k < UINT32 && value == Wrap(sourceValue + k)
        invariant forall j | 0 <= j < k && j < SLOTS :: Candidate(kind, sourceValue, j) in assignedIds
        decreases UINT32 - k
      {
        SameCandidate(kind, sourceValue, k);
        value := (value + 1) % UINT32;
        k := k + 1;
        if value == sourceValue {
          FirstFree(assignedIds, kind, sourceValue, SLOTS, 0);
          return None;
        }
      }
      SameCandidate(kind, sourceValue, k);
      FirstFree(assignedIds, kind, sourceValue, k, 0);
      return Some(ConstructId(kind, value));
    }
  }

  /** Reduction modulo 2^32 of a sum of two 32-bit values */
  function Wrap(x: nat): nat {
    if x < UINT32 then x else x - UINT32
  }

  lemma AddedSymbols(st: State, e: Entry, s: string)
    requires !st.Has(e.kind, e.name)
    ensures Known(AddEntry(st, e), s) <==> s == e.name || Known(st, s)
  {
    forall k
      ensures AddEntry(st, e).Has(k, s) <==> (k == e.kind && s == e.name) || st.Has(k, s)
    {
    }
    if s == e.name { assert AddEntry(st, e).Has(e.kind, s); }
    if k :| st.Has(k, s) { assert AddEntry(st, e).Has(k, s); }
  }

  lemma SameCandidate(kind: nat, source: nat, k: nat)
    ensures ConstructId(kind, Wrap(source + k)) == Candidate(kind, source, k)
  {
  }

  /** The candidates repeat with period 65536, so probing stops before that or not at all. */
  lemma {:induction false} FirstFree(used: set<nat>, kind: nat, source: nat, k: nat, i: nat)
    requires i <= SLOTS && i <= k
    requires forall j | 0 <= j < k && j < SLOTS :: Candidate(kind, source, j) in used
    requires k == SLOTS || Candidate(kind, source, k) !in used
    ensures ProbeFrom(used, kind, source, i) ==
            if k == SLOTS && Candidate(kind, source, k) in used then None else Some(Candidate(kind, source, k))
    decreases SLOTS - i
  {
    assert Candidate(kind, source, k) == Candidate(kind, source, k % SLOTS);
    if i < SLOTS && i < k { FirstFree(used, kind, source, k, i + 1); }
  }

  lemma {:induction false} KeysKept(st: State, kind: nat, names: set<string>, hash: string -> nat)
    requires kind in st.tables
    ensures AssignNames(st, kind, names, hash).tables.Keys == st.tables.Keys
    decreases names
  {
    if names != {} {
      var n := First(names);
      var id := ProbeFrom(st.used, kind, hash(n), 0);
      if id.Some? { KeysKept(Take(st, kind, n, id.value), kind, names - {n}, hash); }
    }
  }

  ghost function Names(es: seq<Entry>): set<string> {
    set e | e in es :: e.name
  }

  lemma NamesOfMore(es: seq<Entry>, i: nat)
    requires i < |es|
    ensures es[..i + 1] == es[..i] + [es[i]]
    ensures Names(es[..i + 1]) == Names(es[..i]) + {es[i].name}
  {
    assert es[..i + 1] == es[..i] + [es[i]];
    forall n | n in Names(es[..i]) + {es[i].name} ensures n in Names(es[..i + 1]) {
      if n == es[i].name {
        assert es[i] in es[..i + 1];
      } else {
        var e :| e in es[..i] && e.name == n;
        assert e in es[..i + 1];
      }
    }
  }

  /** `create`: all the calls of `add`, then the ids. The result is the function whose properties are proved in
      SymbolIds, and the aliases know exactly the names that were added. */
  method Create(es: seq<Entry>, hash: string -> nat) returns (t: SymbolTable)
    requires forall e | e in es :: e.name != ""
    requires forall s :: hash(s) < UINT32
    ensures t.Snapshot() == SymbolIds.Create(es, hash)
    ensures (forall e | e in es :: 0 < e.kind < 256) ==> IdsFollowHashes(es, t.Snapshot(), hash)
    ensures t.suffixSet.Valid() && t.suffixSet.symbols == Names(es)
  {
    hide AddAll, AssignKinds, Known, Tree, CountsOf, IdsFollowHashes;
    t := new SymbolTable(hash);
    assert es[..0] == [];
    for i := 0 to |es|
      invariant t.Valid() && t.calls == es[..i] && t.Snapshot() == AddAll(t.calls) && t.hash == hash
      invariant fresh(t) && fresh(t.suffixSet)
      invariant t.suffixSet.symbols == Names(es[..i])
    {
      NamesOfMore(es, i);
      t.Add(es[i].kind, es[i].name, es[i].id);
    }
    assert es[..|es|] == es;
    t.ComputeIds();
    if forall e | e in es :: 0 < e.kind < 256 { CreatedFollowHashes(es, hash); }
  }
}
