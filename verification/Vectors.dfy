/** Vectors of nodes, and how their elements are visited and replaced in place (ir/vector.h, ir/ir-inline.h) */
module Vectors {
  import opened IrGraph

  /** What a visitor returns for an element: a node or null, a vector of the same type, a vector of another type, or
      something that is neither. The elements of another vector may be of a wrong type. */
  datatype Visited =
    | One(node: Pointer)
    | Several(nodes: seq<Pointer>)
    | Others(others: seq<Pointer>, valid: bool)
    | Invalid

  predicate Acceptable(r: Visited) {
    match r
    case One(_) => true
    case Several(_) => true
    case Others(others, valid) => valid || others == []
    case Invalid => false
  }

  /** What takes the place of an element */
  function Piece(elem: Pointer, r: Visited): seq<Pointer> {
    match r
    case One(node) => if node == Null && elem != Null then [] else [node]
    case Several(nodes) => nodes
    case Others(others, _) => others
    case Invalid => [elem]
  }

  /** The ordered concatenation of what takes the places of the first n elements */
  function Pieces(vec: seq<Pointer>, results: seq<Visited>, n: nat): seq<Pointer>
    requires n <= |vec| <= |results|
  {
    if n == 0 then [] else Pieces(vec, results, n - 1) + Piece(vec[n - 1], results[n - 1])
  }

  // ---- where the results stand ----

  /** What was returned for an element stands in the vector from `from` up to `to`: nothing when the visitor removed the
      element, the node that it returned, or all elements of the vector that it returned. */
  ghost predicate Filled(vec: seq<Pointer>, from: nat, to: nat, elem: Pointer, r: Visited) {
    && from <= to <= |vec|
    && match r
       case One(Null) => if elem == Null then vec[from..to] == [Null] else from == to
       case One(To(id)) => vec[from..to] == [To(id)]
       case Several(nodes) => vec[from..to] == nodes
       case Others(others, valid) => vec[from..to] == others && (valid || from == to)
       case Invalid => false
  }

  /** The results fill the vector one after the other; starts[k] is where the result for element k begins. */
  ghost predicate InPlaces(was: seq<Pointer>, results: seq<Visited>, vec: seq<Pointer>, starts: seq<nat>) {
    && |was| <= |results| && |starts| == |was| + 1 && starts[0] == 0 && starts[|was|] == |vec|
    && forall k | 0 <= k < |was| :: Filled(vec, starts[k], starts[k + 1], was[k], results[k])
  }

  lemma FilledStill(vec: seq<Pointer>, more: seq<Pointer>, from: nat, to: nat, elem: Pointer, r: Visited)
    requires Filled(vec, from, to, elem, r)
    ensures Filled(vec + more, from, to, elem, r)
  {
    assert (vec + more)[from..to] == vec[from..to];
  }

  lemma PieceFills(vec: seq<Pointer>, elem: Pointer, r: Visited)
    requires Acceptable(r)
    ensures Filled(vec + Piece(elem, r), |vec|, |vec| + |Piece(elem, r)|, elem, r)
  {
    assert (vec + Piece(elem, r))[|vec|..] == Piece(elem, r);
  }

  lemma OneMoreInPlace(was: seq<Pointer>, results: seq<Visited>, k: nat, vec: seq<Pointer>, starts: seq<nat>,
                       piece: seq<Pointer>)
    requires k < |was| <= |results| && InPlaces(was[..k], results, vec, starts)
    requires Filled(vec + piece, |vec|, |vec| + |piece|, was[k], results[k])
    ensures InPlaces(was[..k + 1], results, vec + piece, starts + [|vec| + |piece|])
  {
    hide Filled;
    var starts' := starts + [|vec| + |piece|];
    forall i | 0 <= i <= k
      ensures Filled(vec + piece, starts'[i], starts'[i + 1], was[i], results[i])
    {
      if i < k {
        assert was[..k][i] == was[i] && starts'[i + 1] == starts[i + 1];
        FilledStill(vec, piece, starts[i], starts[i + 1], was[i], results[i]);
      }
    }
  }

  lemma {:induction false} PiecesInPlaces(was: seq<Pointer>, results: seq<Visited>, n: nat) returns (starts: seq<nat>)
    requires n <= |was| <= |results| && forall k | 0 <= k < n :: Acceptable(results[k])
    ensures InPlaces(was[..n], results, Pieces(was, results, n), starts)
  {
    hide Acceptable, Piece, Filled;
    if n == 0 {
      starts := [0];
    } else {
      var k := n - 1;
      var vec, piece := Pieces(was, results, k), Piece(was[k], results[k]);
      starts := PiecesInPlaces(was, results, k);
      PieceFills(vec, was[k], results[k]);
      OneMoreInPlace(was, results, k, vec, starts, piece);
      starts := starts + [|vec| + |piece|];
    }
  }

  /** How many elements take the place of one */
  function Size(elem: Pointer, r: Visited): nat {
    match r
    case One(node) => if node == Null && elem != Null then 0 else 1
    case Several(nodes) => |nodes|
    case Others(others, _) => |others|
    case Invalid => 0
  }

  function Sizes(was: seq<Pointer>, results: seq<Visited>, n: nat): nat
    requires n <= |was| <= |results|
  {
    if n == 0 then 0 else Sizes(was, results, n - 1) + Size(was[n - 1], results[n - 1])
  }

  lemma FilledSize(vec: seq<Pointer>, from: nat, to: nat, elem: Pointer, r: Visited)
    requires Filled(vec, from, to, elem, r)
    ensures to == from + Size(elem, r)
  {
    assert |vec[from..to]| == to - from;
  }

  lemma {:induction false} StartsAreSizes(was: seq<Pointer>, results: seq<Visited>, vec: seq<Pointer>,
                                          starts: seq<nat>, n: nat)
    requires InPlaces(was, results, vec, starts) && n <= |was|
    ensures starts[n] == Sizes(was, results, n)
  {
    hide Filled, Size;
    if n > 0 {
      var k := n - 1;
      StartsAreSizes(was, results, vec, starts, k);
      FilledSize(vec, starts[k], starts[k + 1], was[k], results[k]);
    }
  }

  /** A result that adds no null: a node, null, or a vector without null */
  predicate AddsNoNull(r: Visited) {
    match r
    case One(_) => true
    case Several(nodes) => Null !in nodes
    case Others(others, _) => Null !in others
    case Invalid => true
  }

  lemma {:induction false} NoNullSoFar(was: seq<Pointer>, results: seq<Visited>, vec: seq<Pointer>,
                                       starts: seq<nat>, n: nat)
    requires InPlaces(was, results, vec, starts) && n <= |was|
    requires Null !in was && forall k | 0 <= k < |was| :: AddsNoNull(results[k])
    ensures starts[n] <= |vec| && Null !in vec[..starts[n]]
  {
    if n > 0 {
      var k := n - 1;
      NoNullSoFar(was, results, vec, starts, k);
      assert was[k] != Null && Filled(vec, starts[k], starts[n], was[k], results[k]);
      assert vec[..starts[n]] == vec[..starts[k]] + vec[starts[k]..starts[n]];
    }
  }

  /** Where neither the elements nor the vectors returned for them have a null, none is left by the visit. */
  lemma NoNullIsLeft(was: seq<Pointer>, results: seq<Visited>, vec: seq<Pointer>, starts: seq<nat>)
    requires InPlaces(was, results, vec, starts)
    ensures |vec| == Sizes(was, results, |was|)
    ensures Null !in was && (forall k | 0 <= k < |was| :: AddsNoNull(results[k])) ==> Null !in vec
  {
    hide Filled;
    StartsAreSizes(was, results, vec, starts, |was|);
    if Null !in was && forall k | 0 <= k < |was| :: AddsNoNull(results[k]) {
      NoNullSoFar(was, results, vec, starts, |was|);
      assert vec[..|vec|] == vec;
    }
  }

  class Vector {
    var vec: seq<Pointer>
    /** The elements that the visitor was called for, in this order */
    ghost var seen: seq<Pointer>

    constructor (vec: seq<Pointer>)
      ensures this.vec == vec && seen == []
    {
      this.vec, seen := vec, [];
    }

    method Erase(i: nat)
      requires i < |vec|
      modifies `vec
      ensures vec == old(vec[..i] + vec[i + 1..])
    {
      vec := vec[..i] + vec[i + 1..];
    }

    method Insert(i: nat, nodes: seq<Pointer>)
      requires i <= |vec|
      modifies `vec
      ensures vec == old(vec[..i]) + nodes + old(vec[i..])
    {
      vec := vec[..i] + nodes + vec[i..];
    }

    /** Replaces the element at i by the elements of a vector of another type: room is made, and then filled. */
    method Overwrite(i: nat, others: seq<Pointer>, valid: bool) returns (next: nat, ok: bool)
      requires i < |vec|
      modifies `vec
      ensures ok == (valid || others == [])
      ensures ok ==> vec == old(vec[..i]) + others + old(vec[i + 1..]) && next == i + |others|
    {
      next, ok := i, true;
      if others == [] {
        Erase(i);
        assert vec == old(vec[..i]) + others + old(vec[i + 1..]);
      } else {
        Insert(i, seq(|others| - 1, _ => Null));
        if !valid { return next, false; }
        for k := 0 to |others|
          invariant next == i + k && |vec| == |old(vec)| + |others| - 1
          invariant vec[..i] == old(vec[..i]) && vec[i..next] == others[..k]
          invariant vec[i + |others|..] == old(vec[i + 1..])
        {
          ghost var before := vec;
          vec := vec[next := others[k]];
          assert vec[..i] == before[..i] && vec[i + |others|..] == before[i + |others|..];
          assert vec[i..next + 1] == before[i..next] + [others[k]] == others[..k + 1];
          next := next + 1;
        }
        assert vec == vec[..i] + vec[i..next] + vec[next..];
      }
    }

    /** Puts what the visitor returned in the place of one element, if that is acceptable. */
    method ReplaceElement(i: nat, result: Visited) returns (next: nat, ok: bool)
      requires i < |vec|
      modifies `vec
      ensures ok == Acceptable(result)
      ensures ok ==>
                match result
                case One(Null) =>
                  if old(vec[i]) == Null then vec == old(vec) && next == i + 1
                  else vec == old(vec[..i]) + old(vec[i + 1..]) && next == i
                case One(To(id)) => vec == old(vec)[i := To(id)] && next == i + 1
                case Several(nodes) => vec == old(vec[..i]) + nodes + old(vec[i + 1..]) && next == i + |nodes|
                case Others(others, _) => vec == old(vec[..i]) + others + old(vec[i + 1..]) && next == i + |others|
      ensures ok ==> next == i + |Piece(old(vec[i]), result)|
      ensures ok ==> vec == old(vec[..i]) + Piece(old(vec[i]), result) + old(vec[i + 1..])
    {
      next, ok := i, true;
      match result {
        case One(node) =>
          if node == Null && vec[i] != Null {
            Erase(i);
            assert vec == old(vec[..i]) + [] + old(vec[i + 1..]);
          } else {
            vec := vec[i := node];
            next := i + 1;
            assert vec == old(vec[..i]) + [node] + old(vec[i + 1..]);
          }
        case Several(nodes) =>
          Erase(i);
          Insert(i, nodes);
          next := i + |nodes|;
        case Others(others, valid) =>
          next, ok := Overwrite(i, others, valid);
        case Invalid =>
          ok := false;
      }
    }

    /** Visits each element once, from left to right, and puts what the visitor returns in its place. The visit fails
        on a result that is not acceptable; otherwise the results fill the vector one after the other. */
    method VisitChildren(results: seq<Visited>) returns (ok: bool, ghost starts: seq<nat>)
      requires seen == [] && |results| >= |vec|
      modifies this
      ensures ok <==> forall k | 0 <= k < |old(vec)| :: Acceptable(results[k])
      ensures ok ==> vec == Pieces(old(vec), results, |old(vec)|) && seen == old(vec)
      ensures ok ==> InPlaces(old(vec), results, vec, starts) && |vec| == Sizes(old(vec), results, |old(vec)|)
      ensures ok && Null !in old(vec) && (forall k | 0 <= k < |old(vec)| :: AddsNoNull(results[k])) ==> Null !in vec
    {
      hide Acceptable, Piece, Filled, InPlaces, Sizes, AddsNoNull;
      starts := [];
      ghost var was := vec;
      var i: nat, k: nat := 0, 0;
      while i < |vec|
        invariant k <= |was| && seen == was[..k] && Stepped(vec, was, results, i, k)
        invariant forall j | 0 <= j < k :: Acceptable(results[j])
        decreases |was| - k
      {
        ghost var before := vec;
        assert vec[i] == was[k] by { assert vec[i..][0] == was[k..][0]; }
        seen := seen + [vec[i]];
        ghost var i0 := i;
        i, ok := ReplaceElement(i, results[k]);
        if !ok { return; }
        StepTaken(before, vec, was, results, i0, i, k);
        k := k + 1;
      }
      ok := true;
      assert vec[..i] == vec && was[..|was|] == was;
      starts := PiecesInPlaces(was, results, |was|);
      NoNullIsLeft(was, results, vec, starts);
    }
  }

  /** The first k elements are replaced, and the next one is at i. */
  ghost predicate Stepped(vec: seq<Pointer>, was: seq<Pointer>, results: seq<Visited>, i: nat, k: nat) {
    && k <= |was| <= |results| && i <= |vec| && |vec| - i == |was| - k
    && vec[..i] == Pieces(was, results, k) && vec[i..] == was[k..]
  }

  lemma StepTaken(vec: seq<Pointer>, vec': seq<Pointer>, was: seq<Pointer>, results: seq<Visited>, i: nat, i': nat,
                  k: nat)
    requires Stepped(vec, was, results, i, k) && i < |vec| && k < |was|
    requires i' == i + |Piece(vec[i], results[k])|
    requires vec' == vec[..i] + Piece(vec[i], results[k]) + vec[i + 1..]
    ensures Stepped(vec', was, results, i', k + 1)
  {
    assert vec[i] == vec[i..][0] == was[k];
    var piece, after := Piece(was[k], results[k]), vec[i + 1..];
    hide Piece;
    assert after == vec[i..][1..] == was[k..][1..] == was[k + 1..];
    assert vec'[..i'] == vec[..i] + piece;
    assert vec'[i'..] == after;
  }
}
