/** Which id a name gets: the first one in cyclic order from its hash that is taken neither by an explicit claim nor by
    a name before it. This is stated about the finished table alone. */
module SymbolHashes {
  import opened Wrappers
  import opened SymbolIds

  /** Byte 3 is the resource type, and the lower two bytes are those of the hash, i places further. */
  function HashedId(kind: nat, hash: nat, i: nat): nat {
    kind * 0x100_0000 + (hash + i) % 0x1_0000
  }

  lemma HashedIsCandidate(kind: nat, hash: nat, i: nat)
    requires 0 < kind < 256
    ensures HashedId(kind, hash, i) == Candidate(kind, hash, i) && HashedId(kind, hash, i) != 0
  {
  }

  predicate Before(m: string, n: string) {
    m != n && AtMost(m, n)
  }

  /** Someone else had the id when it was the turn of name n: it was in use before, or a smaller one of the names has
      it. */
  ghost predicate Taken(used: set<nat>, names: set<string>, st: State, kind: nat, n: string, id: nat) {
    id in used || exists m :: m in names && Before(m, n) && st.IdOf(kind, m) == id
  }

  /** In the table `st`, name n has the first id from its hash that is not taken, and none if all are. */
  ghost predicate HasFirstFree(used: set<nat>, names: set<string>, st: State, kind: nat, n: string, hash: nat) {
    var id := st.IdOf(kind, n);
    if id == 0 then forall i | 0 <= i < 0x1_0000 :: Taken(used, names, st, kind, n, HashedId(kind, hash, i))
    else FreeAt(used, names, st, kind, n, hash)
  }

  ghost predicate FreeAt(used: set<nat>, names: set<string>, st: State, kind: nat, n: string, hash: nat) {
    exists j :: 0 <= j < 0x1_0000 && st.IdOf(kind, n) == HashedId(kind, hash, j)
                && !Taken(used, names, st, kind, n, HashedId(kind, hash, j))
                && forall i | 0 <= i < j :: Taken(used, names, st, kind, n, HashedId(kind, hash, i))
  }

  // ---- one type ----

  lemma FullTakesAll(used: set<nat>, kind: nat, hash: nat, i: nat)
    requires 0 < kind < 256 && Full(used, kind)
    ensures HashedId(kind, hash, i) in used
  {
    assert HashedId(kind, hash, i) == ConstructId(kind, (hash + i) % SLOTS);
  }

  /** The smallest name finds the first id that is not in use. */
  lemma FirstHasFirstFree(used: set<nat>, names: set<string>, st: State, kind: nat, n: string, hash: nat)
    requires 0 < kind < 256 && n in names && forall m | m in names :: AtMost(n, m)
    requires st.IdOf(kind, n)
             == match ProbeFrom(used, kind, hash, 0) case None => 0 case Some(id) => id
    ensures HasFirstFree(used, names, st, kind, n, hash)
  {
    hide ProbeFrom;
    ProbeResult(used, kind, hash, 0);
    forall m | m in names ensures !Before(m, n) { AtMostTotal(m, n); }
    if Full(used, kind) {
      forall i | 0 <= i < 0x1_0000 ensures HashedId(kind, hash, i) in used { FullTakesAll(used, kind, hash, i); }
    } else {
      var j :| 0 <= j < SLOTS && ProbeFrom(used, kind, hash, 0) == Some(Candidate(kind, hash, j))
               && Candidate(kind, hash, j) !in used && forall i | 0 <= i < j :: Candidate(kind, hash, i) in used;
      HashedIsCandidate(kind, hash, j);
      forall i | 0 <= i < j ensures HashedId(kind, hash, i) in used { HashedIsCandidate(kind, hash, i); }
    }
  }

  /** What is taken for a later name when the smallest one is done, and what is taken from the start */
  lemma TakenLater(used: set<nat>, names: set<string>, st: State, kind: nat, first: string, n: string, id: nat)
    requires first in names && Before(first, n) && id == st.IdOf(kind, first)
    ensures forall v :: Taken(used + {id}, names - {first}, st, kind, n, v) <==> Taken(used, names, st, kind, n, v)
  {
  }

  lemma SameTaken(used: set<nat>, names: set<string>, used': set<nat>, names': set<string>, st: State, kind: nat,
                  n: string, hash: nat)
    requires forall i :: 0 <= i ==>
               (Taken(used, names, st, kind, n, HashedId(kind, hash, i))
                <==> Taken(used', names', st, kind, n, HashedId(kind, hash, i)))
    requires HasFirstFree(used, names, st, kind, n, hash)
    ensures HasFirstFree(used', names', st, kind, n, hash)
  {
    hide Taken, HashedId;
    if st.IdOf(kind, n) != 0 {
      var j :| 0 <= j < 0x1_0000 && st.IdOf(kind, n) == HashedId(kind, hash, j)
               && !Taken(used, names, st, kind, n, HashedId(kind, hash, j))
               && forall i | 0 <= i < j :: Taken(used, names, st, kind, n, HashedId(kind, hash, i));
      assert !Taken(used', names', st, kind, n, HashedId(kind, hash, j));
    }
  }

  lemma {:induction false} NamesHaveFirstFree(st: State, kind: nat, names: set<string>, hash: string -> nat)
    requires 0 < kind < 256 && Distinct(st) && AllPending(st, kind, names)
    ensures forall n | n in names ::
              HasFirstFree(st.used, names, AssignNames(st, kind, names, hash), kind, n, hash(n))
    decreases names
  {
    hide Distinct, ConstructId, Take, HasFirstFree, Taken, HashedId;
    if names != {} {
      var first := First(names);
      var st' := AssignNames(st, kind, names, hash);
      ProbeResult(st.used, kind, hash(first), 0);
      match ProbeFrom(st.used, kind, hash(first), 0) {
        case None =>
          assert st' == st && Full(st.used, kind);
          forall n | n in names ensures HasFirstFree(st.used, names, st', kind, n, hash(n)) {
            NothingFree(st, kind, names, n, hash(n));
          }
        case Some(id) =>
          TakeOutcome(st, kind, first, id);
          var mid := Take(st, kind, first, id);
          AssignNamesOutcome(mid, kind, names - {first}, hash);
          NamesHaveFirstFree(mid, kind, names - {first}, hash);
          assert st'.IdOf(kind, first) == id;
          TakenIsUsed(st, kind, first, id);
          FirstHasFirstFree(st.used, names, st', kind, first, hash(first));
          forall n | n in names && n != first ensures HasFirstFree(st.used, names, st', kind, n, hash(n)) {
            LaterHasFirstFree(st, mid, st', kind, names, first, n, hash(n));
          }
      }
    }
  }

  lemma TakenIsUsed(st: State, kind: nat, name: string, id: nat)
    ensures Take(st, kind, name, id).used == st.used + {id}
  {
  }

  lemma NothingFree(st: State, kind: nat, names: set<string>, n: string, hash: nat)
    requires 0 < kind < 256 && Full(st.used, kind) && st.IdOf(kind, n) == INVALID
    ensures HasFirstFree(st.used, names, st, kind, n, hash)
  {
    forall i | 0 <= i < 0x1_0000 ensures HashedId(kind, hash, i) in st.used { FullTakesAll(st.used, kind, hash, i); }
  }

  lemma LaterHasFirstFree(st: State, mid: State, st': State, kind: nat, names: set<string>, first: string, n: string,
                          hash: nat)
    requires first in names && n in names && n != first && AtMost(first, n)
    requires mid.used == st.used + {st'.IdOf(kind, first)}
    requires HasFirstFree(mid.used, names - {first}, st', kind, n, hash)
    ensures HasFirstFree(st.used, names, st', kind, n, hash)
  {
    TakenLater(st.used, names, st', kind, first, n, st'.IdOf(kind, first));
    SameTaken(mid.used, names - {first}, st.used, names, st', kind, n, hash);
  }

  // ---- all types ----

  /** Ids that are given to a type come from this type. */
  lemma {:induction false} UsedGrows(st: State, kind: nat, names: set<string>, hash: string -> nat, v: nat)
    requires 0 < kind < 256
    requires v in AssignNames(st, kind, names, hash).used
    ensures v in st.used || exists w :: v == ConstructId(kind, w)
    decreases names
  {
    hide ConstructId;
    if names != {} {
      var n := First(names);
      ProbeResult(st.used, kind, hash(n), 0);
      var id := ProbeFrom(st.used, kind, hash(n), 0);
      if id.Some? { UsedGrows(Take(st, kind, n, id.value), kind, names - {n}, hash, v); }
    }
  }

  /** Ids given to another type take none of this type. */
  lemma OtherTypesApart(st: State, kind: nat, names: set<string>, hash: string -> nat, kind': nat, h: nat, i: nat)
    requires 0 < kind < 256 && 0 < kind' < 256 && kind != kind'
    requires Distinct(st) && AllPending(st, kind, names)
    ensures HashedId(kind', h, i) in AssignNames(st, kind, names, hash).used <==> HashedId(kind', h, i) in st.used
  {
    hide Distinct, ConstructId;
    AssignNamesOutcome(st, kind, names, hash);
    var v := HashedId(kind', h, i);
    if v in AssignNames(st, kind, names, hash).used {
      UsedGrows(st, kind, names, hash, v);
      HashedIsCandidate(kind', h, i);
      forall w ensures v != ConstructId(kind, w) { KindsApart(kind', kind, h + i, w); }
    }
  }

  ghost predicate AllFirstFree(st: State, st': State, kinds: set<nat>, hash: string -> nat) {
    forall k, n | k in kinds && n in Pending(st, k) ::
      HasFirstFree(st.used, Pending(st, k), st', k, n, hash(n))
  }

  lemma {:induction false} KindsHaveFirstFree(st: State, kinds: set<nat>, hash: string -> nat)
    requires Distinct(st) && kinds <= st.tables.Keys && forall k | k in kinds :: 0 < k < 256
    ensures AllFirstFree(st, AssignKinds(st, kinds, hash), kinds, hash)
    decreases kinds
  {
    hide Distinct, HasFirstFree, Assigns, AssignsKinds, AllPending, Pending;
    if kinds != {} {
      var k := Least(kinds);
      PendingAll(st, k);
      var mid := AssignNames(st, k, Pending(st, k), hash);
      AssignNamesOutcome(st, k, Pending(st, k), hash);
      NamesHaveFirstFree(st, k, Pending(st, k), hash);
      AssignedKeys(st, mid, k, Pending(st, k));
      AssignKindsOutcome(mid, kinds - {k}, hash);
      KindsHaveFirstFree(mid, kinds - {k}, hash);
      var st' := AssignKinds(mid, kinds - {k}, hash);
      KindUntouched(mid, st', kinds - {k}, k);
      forall k', n | k' in kinds && n in Pending(st, k')
        ensures HasFirstFree(st.used, Pending(st, k'), st', k', n, hash(n))
      {
        if k' == k {
          SameIds(st.used, Pending(st, k), mid, st', k, n, hash(n));
        } else {
          PendingKept(st, mid, k, k');
          OtherFirst(st, st', k, k', n, hash);
        }
      }
    }
  }

  lemma PendingAll(st: State, kind: nat)
    ensures AllPending(st, kind, Pending(st, kind))
  {
  }

  lemma AssignedKeys(st: State, mid: State, kind: nat, names: set<string>)
    requires Assigns(st, mid, kind, names)
    ensures mid.tables.Keys == st.tables.Keys
  {
  }

  lemma KindUntouched(mid: State, st': State, kinds: set<nat>, kind: nat)
    requires AssignsKinds(mid, st', kinds) && kind !in kinds
    ensures forall m :: mid.IdOf(kind, m) == st'.IdOf(kind, m)
  {
  }

  lemma PendingKept(st: State, mid: State, kind: nat, kind': nat)
    requires Assigns(st, mid, kind, Pending(st, kind)) && kind' != kind
    ensures Pending(mid, kind') == Pending(st, kind')
  {
    hide GotId;
    forall n ensures n in Pending(mid, kind') <==> n in Pending(st, kind') {
      assert mid.Has(kind', n) <==> st.Has(kind', n);
      assert mid.IdOf(kind', n) == st.IdOf(kind', n);
    }
  }

  lemma SameIds(used: set<nat>, names: set<string>, st: State, st': State, kind: nat, n: string, hash: nat)
    requires forall m :: st.IdOf(kind, m) == st'.IdOf(kind, m)
    requires HasFirstFree(used, names, st, kind, n, hash)
    ensures HasFirstFree(used, names, st', kind, n, hash)
  {
    hide HashedId;
    forall v ensures Taken(used, names, st, kind, n, v) <==> Taken(used, names, st', kind, n, v) {
    }
    if st.IdOf(kind, n) != 0 {
      var j :| 0 <= j < 0x1_0000 && st.IdOf(kind, n) == HashedId(kind, hash, j)
               && !Taken(used, names, st, kind, n, HashedId(kind, hash, j))
               && forall i | 0 <= i < j :: Taken(used, names, st, kind, n, HashedId(kind, hash, i));
      assert !Taken(used, names, st', kind, n, HashedId(kind, hash, j));
    }
  }

  /** A type is not disturbed by an earlier one. */
  lemma OtherFirst(st: State, st': State, kind: nat, kind': nat, n: string, hash: string -> nat)
    requires 0 < kind < 256 && 0 < kind' < 256 && kind != kind' && Distinct(st)
    requires var mid := AssignNames(st, kind, Pending(st, kind), hash);
             Pending(mid, kind') == Pending(st, kind')
             && HasFirstFree(mid.used, Pending(mid, kind'), st', kind', n, hash(n))
    ensures HasFirstFree(st.used, Pending(st, kind'), st', kind', n, hash(n))
  {
    hide Distinct, HashedId, HasFirstFree;
    var names := Pending(st, kind');
    var mid := AssignNames(st, kind, Pending(st, kind), hash);
    forall i | 0 <= i
      ensures Taken(mid.used, names, st', kind', n, HashedId(kind', hash(n), i))
              <==> Taken(st.used, names, st', kind', n, HashedId(kind', hash(n), i))
    {
      OtherTypesApart(st, kind, Pending(st, kind), hash, kind', hash(n), i);
    }
    SameTaken(mid.used, names, st.used, names, st', kind', n, hash(n));
  }

  // ---- the finished table ----

  /** The first call for a symbol claims no id, or one that was claimed before, or 0. */
  ghost predicate Generated(es: seq<Entry>, kind: nat, n: string) {
    exists i :: 0 <= i < |es| && FirstCall(es, i) && es[i].kind == kind && es[i].name == n
                && (es[i].id.None? || es[i].id == Some(0) || ClaimedBefore(es, i, es[i].id.value))
  }

  /** An id is claimed by a call, or it is the id of a smaller generated name of its type. */
  ghost predicate TakenFor(es: seq<Entry>, st: State, kind: nat, n: string, id: nat) {
    ClaimedBefore(es, |es|, id) || exists m :: Generated(es, kind, m) && Before(m, n) && st.IdOf(kind, m) == id
  }

  /** The id of a generated name: the first one from its hash that is not taken */
  ghost predicate FollowsHash(es: seq<Entry>, st: State, kind: nat, n: string, hash: nat) {
    if st.IdOf(kind, n) == 0 then
      forall i | 0 <= i < 0x1_0000 :: TakenFor(es, st, kind, n, HashedId(kind, hash, i))
    else
      exists j :: 0 <= j < 0x1_0000 && st.IdOf(kind, n) == HashedId(kind, hash, j)
                  && !TakenFor(es, st, kind, n, HashedId(kind, hash, j))
                  && forall i | 0 <= i < j :: TakenFor(es, st, kind, n, HashedId(kind, hash, i))
  }

  ghost predicate IdsFollowHashes(es: seq<Entry>, st: State, hash: string -> nat) {
    forall k, n | Generated(es, k, n) :: FollowsHash(es, st, k, n, hash(n))
  }

  lemma FirstCallOf(es: seq<Entry>, kind: nat, n: string, j: nat) returns (i: nat)
    requires j < |es| && es[j].kind == kind && es[j].name == n
    ensures i < |es| && FirstCall(es, i) && es[i].kind == kind && es[i].name == n
  {
    if FirstCall(es, j) { return j; }
    var k :| 0 <= k < j && SameSymbol(es[k], es[j]);
    i := FirstCallOf(es, kind, n, k);
  }

  lemma GeneratedIsPending(es: seq<Entry>, kind: nat, n: string)
    ensures Generated(es, kind, n) <==> n in Pending(AddAll(es), kind)
  {
    hide AddAll, FirstCall;
    HasAfterAdds(es, kind, n);
    if Generated(es, kind, n) {
      var i :| 0 <= i < |es| && FirstCall(es, i) && es[i].kind == kind && es[i].name == n
               && (es[i].id.None? || es[i].id == Some(0) || ClaimedBefore(es, i, es[i].id.value));
      IdAfterAdds(es, i);
    }
    if n in Pending(AddAll(es), kind) {
      var j :| 0 <= j < |es| && es[j].kind == kind && es[j].name == n;
      var i := FirstCallOf(es, kind, n, j);
      IdAfterAdds(es, i);
    }
  }

  lemma TakenIsTakenFor(es: seq<Entry>, st: State, kind: nat, n: string)
    ensures forall v :: Taken(AddAll(es).used, Pending(AddAll(es), kind), st, kind, n, v)
                        <==> TakenFor(es, st, kind, n, v)
  {
    hide AddAll, Generated, ClaimedBefore;
    forall m ensures Generated(es, kind, m) <==> m in Pending(AddAll(es), kind) { GeneratedIsPending(es, kind, m); }
    forall v ensures v in AddAll(es).used <==> ClaimedBefore(es, |es|, v) { UsedAfterAdds(es, v); }
  }

  /** Over every sequence of `add` calls with resource types from 1 to 255, every generated id follows from the name:
      it is the type and the hash, moved on to the first id that neither a call claims nor a smaller generated name of
      the type has. A name is left without exactly when all are taken in this way. */
  lemma CreatedFollowHashes(es: seq<Entry>, hash: string -> nat)
    requires forall e | e in es :: 0 < e.kind < 256
    ensures IdsFollowHashes(es, Create(es, hash), hash)
  {
    hide AddAll, AssignKinds, Generated, HashedId, Taken, TakenFor, Distinct;
    var st := Create(es, hash);
    AddAllDistinct(es);
    KindsHaveFirstFree(AddAll(es), AddAll(es).tables.Keys, hash);
    forall k, n | Generated(es, k, n)
      ensures FollowsHash(es, st, k, n, hash(n))
    {
      GeneratedIsPending(es, k, n);
      TakenIsTakenFor(es, st, k, n);
      assert HasFirstFree(AddAll(es).used, Pending(AddAll(es), k), st, k, n, hash(n));
      Transferred(es, st, k, n, hash(n));
    }
  }

  lemma Transferred(es: seq<Entry>, st: State, kind: nat, n: string, hash: nat)
    requires HasFirstFree(AddAll(es).used, Pending(AddAll(es), kind), st, kind, n, hash)
    requires forall v :: Taken(AddAll(es).used, Pending(AddAll(es), kind), st, kind, n, v)
                         <==> TakenFor(es, st, kind, n, v)
    ensures FollowsHash(es, st, kind, n, hash)
  {
    hide AddAll, Taken, TakenFor, HashedId;
    var a := AddAll(es);
    if st.IdOf(kind, n) != 0 {
      var j :| 0 <= j < 0x1_0000 && st.IdOf(kind, n) == HashedId(kind, hash, j)
               && !Taken(a.used, Pending(a, kind), st, kind, n, HashedId(kind, hash, j))
               && forall i | 0 <= i < j :: Taken(a.used, Pending(a, kind), st, kind, n, HashedId(kind, hash, i));
      assert !TakenFor(es, st, kind, n, HashedId(kind, hash, j));
    }
  }

  // ---- when the id is that of the hash itself ----

  /** A generated name has the id of its own hash if and only if this id is not taken. */
  lemma OwnIdExactly(es: seq<Entry>, hash: string -> nat, kind: nat, n: string)
    requires forall e | e in es :: 0 < e.kind < 256
    requires Generated(es, kind, n)
    ensures var st := Create(es, hash);
            st.IdOf(kind, n) == kind * 0x100_0000 + hash(n) % 0x1_0000
            <==> !TakenFor(es, st, kind, n, kind * 0x100_0000 + hash(n) % 0x1_0000)
  {
    hide AddAll, AssignKinds, Generated, TakenFor, Create;
    CreatedFollowHashes(es, hash);
    var st := Create(es, hash);
    assert FollowsHash(es, st, kind, n, hash(n));
    assert HashedId(kind, hash(n), 0) == kind * 0x100_0000 + hash(n) % 0x1_0000;
    if st.IdOf(kind, n) == 0 {
      assert TakenFor(es, st, kind, n, HashedId(kind, hash(n), 0));
      KindOf(es, kind, n);
    }
  }

  lemma KindOf(es: seq<Entry>, kind: nat, n: string)
    requires forall e | e in es :: 0 < e.kind < 256
    requires Generated(es, kind, n)
    ensures 0 < kind < 256
  {
  }

  /** The hashes of the generated names of a type differ in their lower two bytes, and no call claims an id that one of
      them leads to. */
  ghost predicate NoCollision(es: seq<Entry>, kind: nat, hash: string -> nat) {
    && (forall m, n | Generated(es, kind, m) && Generated(es, kind, n) && m != n ::
          hash(m) % 0x1_0000 != hash(n) % 0x1_0000)
    && (forall n | Generated(es, kind, n) ::
          !ClaimedBefore(es, |es|, kind * 0x100_0000 + hash(n) % 0x1_0000))
  }

  lemma {:induction false} OwnId(es: seq<Entry>, hash: string -> nat, kind: nat, n: string, smaller: set<string>)
    requires forall e | e in es :: 0 < e.kind < 256
    requires NoCollision(es, kind, hash) && Generated(es, kind, n)
    requires forall m :: m in smaller <==> Generated(es, kind, m) && Before(m, n)
    ensures Create(es, hash).IdOf(kind, n) == kind * 0x100_0000 + hash(n) % 0x1_0000
    decreases smaller
  {
    hide AddAll, AssignKinds, Generated, Create, ClaimedBefore;
    OwnIdExactly(es, hash, kind, n);
    var st := Create(es, hash);
    forall m | m in smaller
      ensures st.IdOf(kind, m) == kind * 0x100_0000 + hash(m) % 0x1_0000
    {
      SmallerStill(smaller, m, n);
      OwnId(es, hash, kind, m, set l | l in smaller && Before(l, m));
    }
  }

  /** Without collisions every generated id is the type and the hash of the name. */
  lemma OwnIds(es: seq<Entry>, hash: string -> nat, kind: nat)
    requires forall e | e in es :: 0 < e.kind < 256
    requires NoCollision(es, kind, hash)
    ensures forall n | Generated(es, kind, n) ::
              Create(es, hash).IdOf(kind, n) == kind * 0x100_0000 + hash(n) % 0x1_0000
  {
    hide AddAll, AssignKinds, Generated, Create, Pending, NoCollision;
    forall n | Generated(es, kind, n)
      ensures Create(es, hash).IdOf(kind, n) == kind * 0x100_0000 + hash(n) % 0x1_0000
    {
      forall m ensures Generated(es, kind, m) <==> m in Pending(AddAll(es), kind) { GeneratedIsPending(es, kind, m); }
      OwnId(es, hash, kind, n, set m | m in Pending(AddAll(es), kind) && Before(m, n));
    }
  }

  lemma SmallerStill(smaller: set<string>, m: string, n: string)
    requires m in smaller && Before(m, n)
    ensures (set l | l in smaller && Before(l, m)) < smaller
    ensures forall l :: Before(l, m) ==> Before(l, n)
  {
    var fewer := set l | l in smaller && Before(l, m);
    assert m !in fewer;
    forall l | Before(l, m) ensures Before(l, n) {
      AtMostTransitive(l, m, n);
      AtMostTotal(l, m);
      AtMostTotal(m, n);
    }
  }

  /** That no other name and no call leads to the id of a hash is not enough: here the claim of 0x100_0005 moves "a" to
      0x100_0006, and this moves "b", whose hash is the only one to lead there. */
  lemma MovedByNeighbour(es: seq<Entry>, hash: string -> nat)
    requires es == [Entry(1, "c", Some(0x100_0005)), Entry(1, "a", None), Entry(1, "b", None)]
    requires hash("a") == 5 && hash("b") == 6
    ensures !ClaimedBefore(es, |es|, 0x100_0006) && Create(es, hash).IdOf(1, "b") == 0x100_0007
  {
    hide AddAll, AssignKinds, Create, Generated, ClaimedBefore, FollowsHash;
    var st := Create(es, hash);
    CreatedFollowHashes(es, hash);
    NamesOfExample(es);
    assert FollowsHash(es, st, 1, "a", 5) && FollowsHash(es, st, 1, "b", 6);
    IdOfA(es, st);
    IdOfB(es, st);
  }

  lemma NamesOfExample(es: seq<Entry>)
    requires es == [Entry(1, "c", Some(0x100_0005)), Entry(1, "a", None), Entry(1, "b", None)]
    ensures forall n :: Generated(es, 1, n) <==> n == "a" || n == "b"
    ensures forall v :: ClaimedBefore(es, |es|, v) <==> v == 0x100_0005
    ensures Before("a", "b") && !Before("b", "a") && !Before("a", "a") && !Before("b", "b")
  {
    assert "a"[0] == 'a' && "b"[0] == 'b' && "c"[0] == 'c';
    assert FirstCall(es, 0) && FirstCall(es, 1) && FirstCall(es, 2);
    assert es[1].name == "a" && es[2].name == "b" && es[0].name == "c";
    assert !ClaimedBefore(es, 0, 0x100_0005);
  }

  lemma IdOfA(es: seq<Entry>, st: State)
    requires forall n :: Generated(es, 1, n) <==> n == "a" || n == "b"
    requires forall v :: ClaimedBefore(es, |es|, v) <==> v == 0x100_0005
    requires !Before("b", "a") && !Before("a", "a") && FollowsHash(es, st, 1, "a", 5)
    ensures st.IdOf(1, "a") == 0x100_0006
  {
    hide Generated, ClaimedBefore, Before;
    assert HashedId(1, 5, 0) == 0x100_0005 && HashedId(1, 5, 1) == 0x100_0006;
    assert TakenFor(es, st, 1, "a", HashedId(1, 5, 0)) && !TakenFor(es, st, 1, "a", HashedId(1, 5, 1));
  }

  lemma IdOfB(es: seq<Entry>, st: State)
    requires forall n :: Generated(es, 1, n) <==> n == "a" || n == "b"
    requires forall v :: ClaimedBefore(es, |es|, v) <==> v == 0x100_0005
    requires Before("a", "b") && !Before("b", "b") && FollowsHash(es, st, 1, "b", 6)
    requires st.IdOf(1, "a") == 0x100_0006
    ensures st.IdOf(1, "b") == 0x100_0007
  {
    hide Generated, ClaimedBefore, Before;
    assert HashedId(1, 6, 0) == 0x100_0006 && HashedId(1, 6, 1) == 0x100_0007;
    assert TakenFor(es, st, 1, "b", HashedId(1, 6, 0)) && !TakenFor(es, st, 1, "b", HashedId(1, 6, 1));
  }
}
