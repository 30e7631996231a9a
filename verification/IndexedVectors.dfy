/** Vectors of declarations with an index by name (ir/indexed_vector.h, ir/ir-inline.h) */
module IndexedVectors {
  import opened IrGraph

  /** The name of a declaration. Names are fixed once a node is made. */
  type Names = NodeId -> string

  ghost predicate NameTaken(names: Names, vec: seq<NodeId>, name: string) {
    exists i :: 0 <= i < |vec| && names(vec[i]) == name
  }

  ghost predicate DistinctNames(names: Names, vec: seq<NodeId>) {
    forall i, j | 0 <= i < j < |vec| :: names(vec[i]) != names(vec[j])
  }

  /** The index maps exactly the names of the elements, each to its element. */
  ghost predicate IsIndex(names: Names, vec: seq<NodeId>, index: map<string, NodeId>) {
    && (forall i | 0 <= i < |vec| :: names(vec[i]) in index && index[names(vec[i])] == vec[i])
    && (forall name | name in index :: names(index[name]) == name && index[name] in vec)
  }

  ghost predicate Indexed(names: Names, vec: seq<NodeId>, index: map<string, NodeId>) {
    DistinctNames(names, vec) && IsIndex(names, vec, index)
  }

  /** The index after a declaration is entered: the first declaration of a name stays. */
  function Entered(names: Names, index: map<string, NodeId>, a: NodeId): map<string, NodeId> {
    if names(a) in index then index else index[names(a) := a]
  }

  function Inserted(vec: seq<NodeId>, i: nat, a: NodeId): seq<NodeId>
    requires i <= |vec|
  {
    vec[..i] + [a] + vec[i..]
  }

  function Erased(vec: seq<NodeId>, i: nat): seq<NodeId>
    requires i < |vec|
  {
    vec[..i] + vec[i + 1..]
  }

  /** Where element k is found after an insertion at i, or was before an erasure at i */
  function Shifted(i: int, k: int): int {
    if k < i then k else k + 1
  }

  lemma InsertedAt(vec: seq<NodeId>, i: nat, a: NodeId, j: nat)
    requires i <= |vec| && j <= |vec|
    ensures Inserted(vec, i, a)[j] == if j == i then a else vec[if j < i then j else j - 1]
  {
  }

  lemma TakenMeansIndexed(names: Names, vec: seq<NodeId>, index: map<string, NodeId>, name: string)
    requires Indexed(names, vec, index)
    ensures name in index <==> NameTaken(names, vec, name)
  {
    if name in index {
      var k :| 0 <= k < |vec| && vec[k] == index[name];
      assert names(vec[k]) == name;
    }
  }

  lemma InsertedDistinct(names: Names, vec: seq<NodeId>, i: nat, a: NodeId)
    requires DistinctNames(names, vec) && i <= |vec|
    ensures DistinctNames(names, Inserted(vec, i, a)) <==> !NameTaken(names, vec, names(a))
  {
    var v := Inserted(vec, i, a);
    forall j, k | 0 <= j < k < |v|
      ensures names(v[j]) == names(v[k]) ==> NameTaken(names, vec, names(a))
    {
      InsertedAt(vec, i, a, j);
      InsertedAt(vec, i, a, k);
    }
    if NameTaken(names, vec, names(a)) {
      var k :| 0 <= k < |vec| && names(vec[k]) == names(a);
      InsertedAt(vec, i, a, i);
      InsertedAt(vec, i, a, Shifted(i, k));
      assert if k < i then 0 <= Shifted(i, k) < i else i < Shifted(i, k) < |v|;
    }
  }

  lemma InsertIndexed(names: Names, vec: seq<NodeId>, index: map<string, NodeId>, i: nat, a: NodeId)
    requires Indexed(names, vec, index) && i <= |vec|
    ensures names(a) in index <==> NameTaken(names, vec, names(a))
    ensures names(a) in index ==> !DistinctNames(names, Inserted(vec, i, a))
    ensures names(a) !in index ==> Indexed(names, Inserted(vec, i, a), index[names(a) := a])
  {
    TakenMeansIndexed(names, vec, index, names(a));
    InsertedDistinct(names, vec, i, a);
    var v, index' := Inserted(vec, i, a), index[names(a) := a];
    if names(a) !in index {
      forall j | 0 <= j < |v| ensures names(v[j]) in index' && index'[names(v[j])] == v[j] {
        InsertedAt(vec, i, a, j);
      }
      forall name | name in index' ensures names(index'[name]) == name && index'[name] in v {
        if name == names(a) {
          InsertedAt(vec, i, a, i);
        } else {
          var k :| 0 <= k < |vec| && vec[k] == index[name];
          InsertedAt(vec, i, a, Shifted(i, k));
        }
      }
    }
  }

  lemma ErasedAt(vec: seq<NodeId>, i: nat, k: nat)
    requires i < |vec| && k < |vec| - 1
    ensures Erased(vec, i)[k] == vec[Shifted(i, k)]
  {
  }

  lemma EraseIndexed(names: Names, vec: seq<NodeId>, index: map<string, NodeId>, i: nat)
    requires Indexed(names, vec, index) && i < |vec|
    ensures names(vec[i]) in index
    ensures Indexed(names, Erased(vec, i), index - {names(vec[i])})
  {
    var v, index' := Erased(vec, i), index - {names(vec[i])};
    forall k | 0 <= k < |v| ensures names(v[k]) in index' && index'[names(v[k])] == v[k] {
      ErasedAt(vec, i, k);
    }
    forall j, k | 0 <= j < k < |v| ensures names(v[j]) != names(v[k]) {
      ErasedAt(vec, i, j);
      ErasedAt(vec, i, k);
    }
    forall name | name in index' ensures index'[name] in v {
      var k :| 0 <= k < |vec| && vec[k] == index[name];
      ErasedAt(vec, i, if k < i then k else k - 1);
    }
  }

  lemma ReinsertedIsUpdated(vec: seq<NodeId>, i: nat, a: NodeId)
    requires i < |vec|
    ensures Inserted(Erased(vec, i), i, a) == vec[i := a]
  {
  }

  lemma ReplaceIndexed(names: Names, vec: seq<NodeId>, index: map<string, NodeId>, i: nat, a: NodeId)
    requires Indexed(names, vec, index) && i < |vec|
    ensures var index1 := index - {names(vec[i])};
            && names(vec[i]) in index
            && (names(a) in index1 <==> NameTaken(names, Erased(vec, i), names(a)))
            && (names(a) in index1 ==> !DistinctNames(names, vec[i := a]))
            && (names(a) !in index1 ==> Indexed(names, vec[i := a], index1[names(a) := a]))
  {
    EraseIndexed(names, vec, index, i);
    InsertIndexed(names, Erased(vec, i), index - {names(vec[i])}, i, a);
    ReinsertedIsUpdated(vec, i, a);
  }

  /** What a visitor returns for a declaration: null, a node, a vector of declarations, or something else */
  datatype Result = Drop | Keep(node: NodeId) | Splice(nodes: seq<NodeId>) | Wrong

  function Piece(r: Result): seq<NodeId> {
    match r
    case Drop => []
    case Keep(node) => [node]
    case Splice(nodes) => nodes
    case Wrong => []
  }

  function Pieces(results: seq<Result>, n: nat): seq<NodeId>
    requires n <= |results|
  {
    if n == 0 then [] else Pieces(results, n - 1) + Piece(results[n - 1])
  }

  /** What was returned for a declaration stands in the vector from `from` up to `to`: nothing, the node, or all nodes
      of the vector that was returned. */
  ghost predicate Filled(vec: seq<NodeId>, from: nat, to: nat, r: Result) {
    && from <= to <= |vec|
    && match r
       case Drop => from == to
       case Keep(node) => vec[from..to] == [node]
       case Splice(nodes) => vec[from..to] == nodes
       case Wrong => false
  }

  /** The first n results fill the vector one after the other; starts[k] is where result k begins. */
  ghost predicate InPlaces(results: seq<Result>, n: nat, vec: seq<NodeId>, starts: seq<nat>) {
    && n <= |results| && |starts| == n + 1 && starts[0] == 0 && starts[n] == |vec|
    && forall k | 0 <= k < n :: Filled(vec, starts[k], starts[k + 1], results[k])
  }

  lemma FilledStill(vec: seq<NodeId>, more: seq<NodeId>, from: nat, to: nat, r: Result)
    requires Filled(vec, from, to, r)
    ensures Filled(vec + more, from, to, r)
  {
    assert (vec + more)[from..to] == vec[from..to];
  }

  lemma PieceFills(vec: seq<NodeId>, r: Result)
    requires r != Wrong
    ensures Filled(vec + Piece(r), |vec|, |vec| + |Piece(r)|, r)
  {
    assert (vec + Piece(r))[|vec|..] == Piece(r);
  }

  lemma OneMoreInPlace(results: seq<Result>, k: nat, vec: seq<NodeId>, starts: seq<nat>, piece: seq<NodeId>)
    requires k < |results| && InPlaces(results, k, vec, starts)
    requires Filled(vec + piece, |vec|, |vec| + |piece|, results[k])
    ensures InPlaces(results, k + 1, vec + piece, starts + [|vec| + |piece|])
  {
    hide Filled;
    var starts' := starts + [|vec| + |piece|];
    forall i | 0 <= i <= k
      ensures Filled(vec + piece, starts'[i], starts'[i + 1], results[i])
    {
      if i < k { FilledStill(vec, piece, starts[i], starts[i + 1], results[i]); }
    }
  }

  lemma {:induction false} PiecesInPlaces(results: seq<Result>, n: nat) returns (starts: seq<nat>)
    requires n <= |results| && NoneWrong(results, n)
    ensures InPlaces(results, n, Pieces(results, n), starts)
  {
    hide Piece, Filled;
    if n == 0 {
      starts := [0];
    } else {
      var k := n - 1;
      starts := PiecesInPlaces(results, k);
      PieceFills(Pieces(results, k), results[k]);
      OneMoreInPlace(results, k, Pieces(results, k), starts, Piece(results[k]));
      starts := starts + [|Pieces(results, k)| + |Piece(results[k])|];
    }
  }

  /** The vector when the first k elements are replaced by what the visitor returned for them */
  function AfterSteps(vec: seq<NodeId>, results: seq<Result>, k: nat): seq<NodeId>
    requires k <= |vec| <= |results|
  {
    Pieces(results, k) + vec[k..]
  }

  ghost predicate DistinctAtEveryStep(names: Names, vec: seq<NodeId>, results: seq<Result>, n: nat)
    requires n <= |vec| <= |results|
  {
    DistinctNames(names, AfterSteps(vec, results, n)) && (n > 0 ==> DistinctAtEveryStep(names, vec, results, n - 1))
  }

  function SplicedIn(vec: seq<NodeId>, i: nat, nodes: seq<NodeId>): seq<NodeId>
    requires i <= |vec|
  {
    vec[..i] + nodes + vec[i..]
  }

  lemma DistinctPrefix(names: Names, vec: seq<NodeId>, i: nat, nodes: seq<NodeId>, k: nat)
    requires i <= |vec| && k < |nodes| && DistinctNames(names, SplicedIn(vec, i, nodes))
    ensures DistinctNames(names, SplicedIn(vec, i, nodes[..k + 1]))
  {
    var v, w := SplicedIn(vec, i, nodes), SplicedIn(vec, i, nodes[..k + 1]);
    forall a, b | 0 <= a < b < |w| ensures names(w[a]) != names(w[b]) {
      PrefixAt(vec, i, nodes, k, a);
      PrefixAt(vec, i, nodes, k, b);
    }
  }

  lemma PrefixAt(vec: seq<NodeId>, i: nat, nodes: seq<NodeId>, k: nat, a: nat)
    requires i <= |vec| && k < |nodes| && a < |vec| + k + 1
    ensures SplicedIn(vec, i, nodes[..k + 1])[a]
            == SplicedIn(vec, i, nodes)[if a < i + k + 1 then a else a + |nodes| - k - 1]
  {
  }

  lemma SplicedOneMore(vec: seq<NodeId>, i: nat, nodes: seq<NodeId>, k: nat)
    requires i <= |vec| && k < |nodes|
    ensures SplicedIn(vec, i, nodes[..k + 1]) == Inserted(SplicedIn(vec, i, nodes[..k]), i + k, nodes[k])
  {
  }

  lemma {:induction false} DistinctBefore(names: Names, vec: seq<NodeId>, results: seq<Result>, k: nat, n: nat)
    requires k <= n <= |vec| <= |results| && DistinctAtEveryStep(names, vec, results, n)
    ensures DistinctAtEveryStep(names, vec, results, k)
  {
    if k < n { DistinctBefore(names, vec, results, k, n - 1); }
  }

  lemma DistinctOneMore(names: Names, vec: seq<NodeId>, results: seq<Result>, k: nat)
    requires k < |vec| <= |results|
    ensures DistinctAtEveryStep(names, vec, results, k + 1) <==>
            DistinctNames(names, AfterSteps(vec, results, k + 1)) && DistinctAtEveryStep(names, vec, results, k)
  {
  }

  /** The visitor returned nothing wrong for the first n elements. */
  ghost predicate NoneWrong(results: seq<Result>, n: nat)
    requires n <= |results|
  {
    forall k | 0 <= k < n :: results[k] != Wrong
  }

  lemma PiecesMore(results: seq<Result>, k: nat)
    requires k < |results|
    ensures Pieces(results, k + 1) == Pieces(results, k) + Piece(results[k])
  {
  }

  lemma DropOne(s: seq<NodeId>, i: nat, t: seq<NodeId>, k: nat)
    requires i < |s| && k < |t| && s[i..] == t[k..]
    ensures s[i + 1..] == t[k + 1..]
  {
    assert s[i + 1..] == s[i..][1..] && t[k + 1..] == t[k..][1..];
  }

  lemma StepsDone(vec: seq<NodeId>, i: nat, was: seq<NodeId>, results: seq<Result>, k: nat)
    requires i <= |vec| && k <= |was| <= |results| && vec[..i] == Pieces(results, k) && vec[i..] == was[k..]
    ensures vec == AfterSteps(was, results, k)
  {
    assert vec == vec[..i] + vec[i..];
  }

  class IndexedVector {
    const names: Names
    var vec: seq<NodeId>
    var declarations: map<string, NodeId>
    /** The number of duplicate declarations that were reported */
    var errors: nat

    constructor (names: Names)
      ensures this.names == names && vec == [] && errors == 0 && Valid()
    {
      this.names, vec, declarations, errors := names, [], map[], 0;
    }

    ghost predicate Valid()
      reads this
    {
      Indexed(names, vec, declarations)
    }

    /** Reports an error, and leaves the index as it is, when the name is taken. */
    method InsertInMap(a: NodeId)
      modifies `declarations, `errors
      ensures declarations == Entered(names, old(declarations), a)
      ensures errors == old(errors) + if names(a) in old(declarations) then 1 else 0
    {
      if names(a) in declarations {
        errors := errors + 1;
      } else {
        declarations := declarations[names(a) := a];
      }
    }

    /** Fails when the name is not in the index. */
    method RemoveFromMap(a: NodeId) returns (ok: bool)
      modifies `declarations
      ensures ok == (names(a) in old(declarations))
      ensures declarations == if ok then old(declarations) - {names(a)} else old(declarations)
    {
      ok := names(a) in declarations;
      if ok { declarations := declarations - {names(a)}; }
    }

    /** The index stays right if and only if the name of the new element is free; otherwise an error is reported. */
    method Insert(i: nat, a: NodeId)
      requires Valid() && i <= |vec|
      modifies this
      ensures vec == Inserted(old(vec), i, a) && declarations == Entered(names, old(declarations), a)
      ensures Valid() <==> !old(NameTaken(names, vec, names(a)))
      ensures errors == old(errors) + if Valid() then 0 else 1
    {
      InsertIndexed(names, vec, declarations, i, a);
      InsertInMap(a);
      vec := vec[..i] + [a] + vec[i..];
    }

    /** The index stays right if and only if all names are distinct afterwards. */
    method InsertAll(i: nat, nodes: seq<NodeId>)
      requires i <= |vec|
      modifies this
      ensures vec == SplicedIn(old(vec), i, nodes) && errors >= old(errors)
      ensures old(Valid()) ==>
                if DistinctNames(names, vec) then Valid() && errors == old(errors) else errors > old(errors)
    {
      assert SplicedIn(vec, i, nodes[..0]) == vec;
      for k := 0 to |nodes|
        invariant vec == old(vec) && errors >= old(errors)
        invariant old(Valid()) && errors == old(errors) ==>
                    Indexed(names, SplicedIn(vec, i, nodes[..k]), declarations)
        invariant old(Valid()) && errors > old(errors) ==> !DistinctNames(names, SplicedIn(vec, i, nodes))
      {
        if old(Valid()) && errors == old(errors) {
          SplicedOneMore(vec, i, nodes, k);
          InsertIndexed(names, SplicedIn(vec, i, nodes[..k]), declarations, i + k, nodes[k]);
          if DistinctNames(names, SplicedIn(vec, i, nodes)) { DistinctPrefix(names, vec, i, nodes, k); }
        }
        InsertInMap(nodes[k]);
      }
      assert nodes[..|nodes|] == nodes;
      vec := vec[..i] + nodes + vec[i..];
    }

    method Erase(i: nat) returns (ok: bool)
      requires i < |vec|
      modifies `vec, `declarations
      ensures ok == (names(old(vec[i])) in old(declarations))
      ensures vec == if ok then Erased(old(vec), i) else old(vec)
      ensures declarations == old(declarations) - {names(old(vec[i]))}
      ensures old(Valid()) ==> ok && Valid()
    {
      if old(Valid()) { EraseIndexed(names, vec, declarations, i); }
      ok := RemoveFromMap(vec[i]);
      if ok { vec := vec[..i] + vec[i + 1..]; }
    }

    /** The index stays right if and only if no other element has the name of the new one. */
    method Replace(i: nat, a: NodeId) returns (ok: bool)
      requires i < |vec|
      modifies this
      ensures ok == (names(old(vec[i])) in old(declarations))
      ensures vec == (if ok then old(vec)[i := a] else old(vec)) && errors >= old(errors)
      ensures ok ==> declarations == Entered(names, old(declarations) - {names(old(vec[i]))}, a)
      ensures old(Valid()) ==>
                && ok && (Valid() <==> !NameTaken(names, Erased(old(vec), i), names(a)))
                && (if DistinctNames(names, vec) then Valid() && errors == old(errors) else errors > old(errors))
    {
      if old(Valid()) { ReplaceIndexed(names, vec, declarations, i, a); }
      ok := RemoveFromMap(vec[i]);
      if !ok { return; }
      vec := vec[i := a];
      InsertInMap(a);
    }

    /** Visits each element once, from left to right, and puts what the visitor returns in its place. No error is
        reported if and only if names are distinct after every step; then the index is right in the end. */
    method VisitChildren(results: seq<Result>) returns (ok: bool, ghost starts: seq<nat>)
      requires Valid() && |results| >= |vec|
      modifies this
      ensures ok ==> vec == Pieces(results, |old(vec)|) && errors >= old(errors)
      ensures ok ==> InPlaces(results, |old(vec)|, vec, starts)
      ensures ok ==> (errors == old(errors) <==> DistinctAtEveryStep(names, old(vec), results, |old(vec)|))
      ensures ok && errors == old(errors) ==> Valid()
      ensures DistinctAtEveryStep(names, old(vec), results, |old(vec)|) ==>
                (ok <==> NoneWrong(results, |old(vec)|))
    {
      hide InPlaces;
      starts := [];
      ghost var was, errors0 := vec, errors;
      var i: nat, k: nat := 0, 0;
      assert AfterSteps(was, results, 0) == was;
      assert Going(was, results, errors0, i, k);
      while i < |vec|
        invariant Going(was, results, errors0, i, k)
        decreases |was| - k
      {
        i, ok := VisitElement(i, was, results, errors0, k);
        if !ok { return; }
        k := k + 1;
      }
      ok := true;
      assert vec[..i] == vec;
      starts := PiecesInPlaces(results, |was|);
    }

    /** The first k elements are replaced, and the next one is at i. */
    ghost predicate Stepped(was: seq<NodeId>, results: seq<Result>, i: nat, k: nat)
      requires |results| >= |was|
      reads this
    {
      && k <= |was| && i <= |vec| && |vec| - i == |was| - k
      && vec[..i] == Pieces(results, k) && vec[i..] == was[k..]
    }

    /** No error was reported so far if and only if names were distinct after every step. */
    ghost predicate Going(was: seq<NodeId>, results: seq<Result>, errors0: nat, i: nat, k: nat)
      requires |results| >= |was|
      reads this
    {
      && Stepped(was, results, i, k) && NoneWrong(results, k) && errors >= errors0
      && (errors == errors0 <==> DistinctAtEveryStep(names, was, results, k))
      && (errors == errors0 ==> Valid())
    }

    /** One element is visited; a visit that fails while no error was reported fails because of a wrong type. */
    method VisitElement(i: nat, ghost was: seq<NodeId>, results: seq<Result>, ghost errors0: nat, k: nat)
      returns (next: nat, ok: bool)
      requires |results| >= |was| && Going(was, results, errors0, i, k) && i < |vec|
      modifies this
      ensures ok ==> Going(was, results, errors0, next, k + 1)
      ensures !ok && DistinctAtEveryStep(names, was, results, |was|) ==> !NoneWrong(results, |was|)
    {
      hide Valid, Pieces, AfterSteps, DistinctAtEveryStep, DistinctNames;
      DropOne(vec, i, was, k);
      DistinctOneMore(names, was, results, k);
      next, ok := ReplaceElement(i, results[k]);
      if ok {
        PiecesMore(results, k);
        StepsDone(vec, next, was, results, k + 1);
      } else if DistinctAtEveryStep(names, was, results, |was|) {
        DistinctBefore(names, was, results, k, |was|);
      }
    }

    /** One element is replaced by what the visitor returned for it. */
    method ReplaceElement(i: nat, result: Result) returns (next: nat, ok: bool)
      requires i < |vec|
      modifies this
      ensures next <= |vec| && errors >= old(errors)
      ensures ok ==>
                match result
                case Drop => vec == old(vec[..i]) + old(vec[i + 1..]) && next == i
                case Keep(node) => vec == old(vec)[i := node] && next == i + 1
                case Splice(nodes) => vec == old(vec[..i]) + nodes + old(vec[i + 1..]) && next == i + |nodes|
                case Wrong => false
      ensures ok ==> result != Wrong && vec[..next] == old(vec[..i]) + Piece(result) && vec[next..] == old(vec[i + 1..])
      ensures old(Valid()) ==> ok == (result != Wrong)
      ensures old(Valid()) && ok ==> (errors == old(errors) <==> DistinctNames(names, vec))
      ensures old(Valid()) && ok && errors == old(errors) ==> Valid()
    {
      next, ok := i, false;
      match result {
        case Drop =>
          ok := Erase(i);
        case Keep(node) =>
          if node == vec[i] {
            ok := true;
          } else {
            ok := Replace(i, node);
          }
          if ok { next := i + 1; }
        case Splice(nodes) =>
          ok := Erase(i);
          if ok {
            InsertAll(i, nodes);
            next := i + |nodes|;
          }
        case Wrong =>
      }
      assert ok ==> vec[..next] == old(vec[..i]) + Piece(result) && vec[next..] == old(vec[i + 1..]);
    }

    method RemoveByName(name: string) returns (removed: bool)
      requires Valid()
      modifies `vec, `declarations
      ensures Valid() && removed == old(NameTaken(names, vec, name))
      ensures !removed ==> vec == old(vec)
      ensures removed ==> exists i :: 0 <= i < |old(vec)| && names(old(vec)[i]) == name
                                      && vec == Erased(old(vec), i)
      ensures !NameTaken(names, vec, name)
    {
      for i := 0 to |vec|
        invariant vec == old(vec) && declarations == old(declarations)
        invariant forall k | 0 <= k < i :: names(vec[k]) != name
      {
        if names(vec[i]) == name {
          var ok := Erase(i);
          return true;
        }
      }
      return false;
    }

    method GetDeclaration(name: string) returns (found: Pointer)
      requires Valid()
      ensures found == Null <==> !NameTaken(names, vec, name)
      ensures found.To? ==> found.id in vec && names(found.id) == name
    {
      if name !in declarations { return Null; }
      return To(declarations[name]);
    }

    /** The check passes on a vector of distinct names exactly when the index maps every name to its element. */
    method CheckValid() returns (ok: bool)
      ensures ok <==> forall i | 0 <= i < |vec| ::
                names(vec[i]) in declarations && declarations[names(vec[i])] == vec[i]
      ensures Valid() ==> ok
    {
      for i := 0 to |vec|
        invariant forall k | 0 <= k < i :: names(vec[k]) in declarations && declarations[names(vec[k])] == vec[k]
      {
        if names(vec[i]) !in declarations || declarations[names(vec[i])] != vec[i] { return false; }
      }
      return true;
    }
  }
}
