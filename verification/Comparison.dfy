/** Comparisons of headers, structs, unions, stacks and lists are replaced by comparisons of their fields
    (midend/complexComparison.cpp). Equality is that of the P4-16 language specification, version 1.2.1, in the sections
    on operations on headers, on header stacks and on struct types. */
module Comparison {
  import opened Wrappers

  /** Fields are known by their position. Unions compare like structs. */
  datatype Type =
    | Base
    | Header(fields: seq<Type>)
    | Struct(fields: seq<Type>)
    | Stack(element: Type, size: nat)
    | Tuple(components: seq<Type>)

  datatype Expr =
    | Operand(id: int)
    | Member(of: Expr, field: nat)
    | ArrayIndex(of: Expr, index: nat)
    | List(exprs: seq<Expr>)
    | IsValid(of: Expr)
    | Literal(b: bool)
    | Not(of: Expr)
    | And(left: Expr, right: Expr)
    | Or(left: Expr, right: Expr)
    | Equ(left: Expr, right: Expr)

  datatype Value =
    | Scalar(n: int)
    | Bool(b: bool)
    | HeaderValue(valid: bool, parts: seq<Value>)
    | StructValue(parts: seq<Value>)
    | StackValue(parts: seq<Value>)
    | TupleValue(parts: seq<Value>)

  // ---- the rewriting ----

  function Size(t: Type): (n: nat)
    ensures n > 0
    decreases t, 0
  {
    match t
    case Base => 1
    case Header(fs) => 1 + SizeOfAll(fs, |fs|)
    case Struct(fs) => 1 + SizeOfAll(fs, |fs|)
    case Stack(element, _) => 1 + Size(element)
    case Tuple(cs) => 1 + SizeOfAll(cs, |cs|)
  }

  function SizeOfAll(ts: seq<Type>, n: nat): nat
    requires n <= |ts|
    decreases ts, n
  {
    if n == 0 then 0 else SizeOfAll(ts, n - 1) + Size(ts[n - 1])
  }

  lemma {:induction false} PartIsSmaller(ts: seq<Type>, i: nat, n: nat)
    requires i < n <= |ts|
    ensures Size(ts[i]) <= SizeOfAll(ts, n)
  {
    if i < n - 1 { PartIsSmaller(ts, i, n - 1); }
  }

  /** What gets smaller when the operands are swapped and compared by fields */
  function Larger(a: Type, b: Type): nat {
    if Size(a) > Size(b) then Size(a) else Size(b)
  }

  /** What field i of the left operand is compared with: the same field of the right operand, or a component of the
      list that it is. There is nothing when the right operand is of a tuple type but no list, or too short a list. */
  function Counterpart(ftype: Type, rt: Type, r: Expr, i: nat): Option<(Type, Expr)> {
    if !rt.Tuple? then Some((ftype, Member(r, i)))
    else if r.List? && i < |r.exprs| && i < |rt.components| then Some((rt.components[i], r.exprs[i]))
    else None
  }

  /** The comparison of l and r, or nothing when the pass gives up with an internal error */
  function Exploded(lt: Type, l: Expr, rt: Type, r: Expr): Option<Expr>
    decreases Larger(lt, rt), if lt.Tuple? && !rt.Tuple? then 2 else 1, 0
  {
    if lt.Tuple? && !rt.Tuple? then Exploded(rt, r, lt, l)
    else
      match lt
      case Header(fs) =>
        var rvalid := if rt.Tuple? then Literal(true) else IsValid(r);
        var invalid := And(Not(IsValid(l)), Not(rvalid));
        var valid := ExplodedFields(lt, fs, |fs|, l, rt, r, And(IsValid(l), rvalid));
        if valid.None? then None else Some(Or(invalid, valid.value))
      case Struct(fs) => ExplodedFields(lt, fs, |fs|, l, rt, r, Literal(true))
      case Stack(element, size) => if rt.Stack? then ExplodedElements(element, size, l, rt, r) else None
      case Tuple(cs) => if l.List? then ExplodedComponents(cs, l, |l.exprs|, rt, r) else None
      case Base => Some(Equ(l, r))
  }

  /** The comparisons of the first n fields, after `first` */
  function ExplodedFields(lt: Type, fs: seq<Type>, n: nat, l: Expr, rt: Type, r: Expr, first: Expr): Option<Expr>
    requires (lt == Header(fs) || lt == Struct(fs)) && n <= |fs|
    decreases Larger(lt, rt), 0, n
  {
    if n == 0 then Some(first)
    else
      var before := ExplodedFields(lt, fs, n - 1, l, rt, r, first);
      var right := Counterpart(fs[n - 1], rt, r, n - 1);
      if before.None? || right.None? then None
      else
        PartIsSmaller(fs, n - 1, |fs|);
        if rt.Tuple? then
          PartIsSmaller(rt.components, n - 1, |rt.components|);
          Anded(before, Exploded(fs[n - 1], Member(l, n - 1), right.value.0, right.value.1))
        else
          Anded(before, Exploded(fs[n - 1], Member(l, n - 1), fs[n - 1], Member(r, n - 1)))
  }

  function ExplodedElements(element: Type, n: nat, l: Expr, rt: Type, r: Expr): Option<Expr>
    requires rt.Stack?
    decreases Larger(Stack(element, n), rt), 0, n
  {
    if n == 0 then Some(Literal(true))
    else
      Anded(ExplodedElements(element, n - 1, l, rt, r),
            Exploded(element, ArrayIndex(l, n - 1), element, ArrayIndex(r, n - 1)))
  }

  function ExplodedComponents(cs: seq<Type>, l: Expr, n: nat, rt: Type, r: Expr): Option<Expr>
    requires l.List? && n <= |l.exprs| && rt.Tuple?
    decreases Larger(Tuple(cs), rt), 0, n
  {
    if n == 0 then Some(Literal(true))
    else
      var right := if n <= |cs| then Counterpart(cs[n - 1], rt, r, n - 1) else None;
      if right.None? then None
      else
        PartIsSmaller(cs, n - 1, |cs|);
        PartIsSmaller(rt.components, n - 1, |rt.components|);
        Anded(ExplodedComponents(cs, l, n - 1, rt, r),
              Exploded(cs[n - 1], l.exprs[n - 1], right.value.0, right.value.1))
  }

  function Anded(a: Option<Expr>, b: Option<Expr>): Option<Expr> {
    if a.Some? && b.Some? then Some(And(a.value, b.value)) else None
  }

  // ---- the meaning of comparisons ----

  datatype Outcome = Result(value: Value) | Undefined

  function FieldOf(v: Value, i: nat): Outcome {
    match v
    case HeaderValue(valid, parts) => if valid && i < |parts| then Result(parts[i]) else Undefined
    case StructValue(parts) => if i < |parts| then Result(parts[i]) else Undefined
    case _ => Undefined
  }

  /** The value of an expression. The fields of an invalid header have none. Conjunctions and disjunctions do not
      evaluate the right operand when the left one decides. */
  function Eval(e: Expr, env: map<int, Value>): Outcome
    decreases e, 0
  {
    match e
    case Operand(id) => if id in env then Result(env[id]) else Undefined
    case Member(of, i) =>
      var v := Eval(of, env);
      if v.Result? then FieldOf(v.value, i) else Undefined
    case ArrayIndex(of, i) =>
      var v := Eval(of, env);
      if v.Result? && v.value.StackValue? && i < |v.value.parts| then Result(v.value.parts[i]) else Undefined
    case List(exprs) =>
      var vs := EvalAll(exprs, |exprs|, env);
      if vs.Some? then Result(TupleValue(vs.value)) else Undefined
    case IsValid(of) =>
      var v := Eval(of, env);
      if v.Result? && v.value.HeaderValue? then Result(Bool(v.value.valid)) else Undefined
    case Literal(b) => Result(Bool(b))
    case Not(of) =>
      var v := Eval(of, env);
      if v.Result? && v.value.Bool? then Result(Bool(!v.value.b)) else Undefined
    case And(a, b) =>
      var v := Eval(a, env);
      if v.Result? && v.value.Bool? then (if v.value.b then Eval(b, env) else v) else Undefined
    case Or(a, b) =>
      var v := Eval(a, env);
      if v.Result? && v.value.Bool? then (if v.value.b then v else Eval(b, env)) else Undefined
    case Equ(a, b) =>
      var v, w := Eval(a, env), Eval(b, env);
      if v.Result? && w.Result? then Result(Bool(v.value == w.value)) else Undefined
  }

  function EvalAll(es: seq<Expr>, n: nat, env: map<int, Value>): (r: Option<seq<Value>>)
    requires n <= |es|
    ensures r.Some? ==> |r.value| == n
    decreases es, n
  {
    if n == 0 then Some([])
    else
      var before, v := EvalAll(es, n - 1, env), Eval(es[n - 1], env);
      if before.Some? && v.Result? then Some(before.value + [v.value]) else None
  }

  /** Values of a type. Values of base types are scalars and Booleans. */
  ghost predicate HasType(v: Value, t: Type)
    decreases t, 0
  {
    match t
    case Base => v.Scalar? || v.Bool?
    case Header(fs) => v.HeaderValue? && |v.parts| == |fs| && HaveTypes(v.parts, fs)
    case Struct(fs) => v.StructValue? && |v.parts| == |fs| && HaveTypes(v.parts, fs)
    case Stack(element, size) =>
      v.StackValue? && |v.parts| == size && forall i | 0 <= i < size :: HasType(v.parts[i], element)
    case Tuple(cs) => v.TupleValue? && |v.parts| == |cs| && HaveTypes(v.parts, cs)
  }

  ghost predicate HaveTypes(vs: seq<Value>, ts: seq<Type>)
    requires |vs| == |ts|
    decreases ts, 0
  {
    forall i | 0 <= i < |ts| :: HasType(vs[i], ts[i])
  }

  /** Equality: two headers are equal when both are invalid, or both are valid and their fields are equal. A list stands
      for a struct or for a valid header with its components as fields. */
  function DeepEqual(v: Value, w: Value): bool
    decreases v, w, 0
  {
    match (v, w)
    case (HeaderValue(a, ps), HeaderValue(b, qs)) => (!a && !b) || (a && b && AllEqual(ps, qs))
    case (HeaderValue(a, ps), TupleValue(qs)) => a && AllEqual(ps, qs)
    case (TupleValue(ps), HeaderValue(b, qs)) => b && AllEqual(ps, qs)
    case (StructValue(ps), StructValue(qs)) => AllEqual(ps, qs)
    case (StructValue(ps), TupleValue(qs)) => AllEqual(ps, qs)
    case (TupleValue(ps), StructValue(qs)) => AllEqual(ps, qs)
    case (TupleValue(ps), TupleValue(qs)) => AllEqual(ps, qs)
    case (StackValue(ps), StackValue(qs)) => AllEqual(ps, qs)
    case (Scalar(m), Scalar(n)) => m == n
    case (Bool(a), Bool(b)) => a == b
    case _ => false
  }

  function AllEqual(ps: seq<Value>, qs: seq<Value>): bool
    decreases ps, qs, 1
  {
    |ps| == |qs| && EqualUpTo(ps, qs, |ps|)
  }

  function EqualUpTo(ps: seq<Value>, qs: seq<Value>, n: nat): bool
    requires n <= |ps| && n <= |qs|
    decreases ps, qs, 0, n
  {
    n == 0 || (EqualUpTo(ps, qs, n - 1) && DeepEqual(ps[n - 1], qs[n - 1]))
  }

  // ---- the theorem ----

  /** The operands that the type checker lets through: operands of one type, or lists against headers, structs and
      lists */
  ghost predicate Comparable(lt: Type, rt: Type)
    decreases Larger(lt, rt), 0
  {
    lt == rt
    || (rt.Tuple? && (lt.Header? || lt.Struct?) && |lt.fields| == |rt.components|
        && forall i | 0 <= i < |lt.fields| :: ComparableParts(lt, lt.fields, rt, i))
    || (lt.Tuple? && (rt.Header? || rt.Struct?) && |rt.fields| == |lt.components|
        && forall i | 0 <= i < |rt.fields| :: ComparableParts(rt, rt.fields, lt, i))
    || (lt.Tuple? && rt.Tuple? && |lt.components| == |rt.components|
        && forall i | 0 <= i < |lt.components| :: ComparableParts(lt, lt.components, rt, i))
  }

  ghost predicate ComparableParts(lt: Type, parts: seq<Type>, rt: Type, i: nat)
    requires rt.Tuple? && i < |parts| && i < |rt.components|
    requires lt == Header(parts) || lt == Struct(parts) || lt == Tuple(parts)
    decreases Larger(lt, rt), 0, 0
  {
    PartIsSmaller(parts, i, |parts|);
    PartIsSmaller(rt.components, i, |rt.components|);
    Comparable(parts[i], rt.components[i])
  }

  lemma {:induction false} DeepEqualSymmetric(v: Value, w: Value)
    ensures DeepEqual(v, w) == DeepEqual(w, v)
    decreases v, w, 0
  {
    match (v, w)
    case (HeaderValue(_, ps), HeaderValue(_, qs)) => AllEqualSymmetric(ps, qs);
    case (HeaderValue(_, ps), TupleValue(qs)) => AllEqualSymmetric(ps, qs);
    case (TupleValue(ps), HeaderValue(_, qs)) => AllEqualSymmetric(ps, qs);
    case (StructValue(ps), StructValue(qs)) => AllEqualSymmetric(ps, qs);
    case (StructValue(ps), TupleValue(qs)) => AllEqualSymmetric(ps, qs);
    case (TupleValue(ps), StructValue(qs)) => AllEqualSymmetric(ps, qs);
    case (TupleValue(ps), TupleValue(qs)) => AllEqualSymmetric(ps, qs);
    case (StackValue(ps), StackValue(qs)) => AllEqualSymmetric(ps, qs);
    case _ =>
  }

  lemma {:induction false} AllEqualSymmetric(ps: seq<Value>, qs: seq<Value>)
    ensures AllEqual(ps, qs) == AllEqual(qs, ps)
    decreases ps, qs, 1
  {
    if |ps| == |qs| { EqualUpToSymmetric(ps, qs, |ps|); }
  }

  lemma {:induction false} EqualUpToSymmetric(ps: seq<Value>, qs: seq<Value>, n: nat)
    requires n <= |ps| && n <= |qs|
    ensures EqualUpTo(ps, qs, n) == EqualUpTo(qs, ps, n)
    decreases ps, qs, 0, n
  {
    if n > 0 {
      EqualUpToSymmetric(ps, qs, n - 1);
      DeepEqualSymmetric(ps[n - 1], qs[n - 1]);
    }
  }

  lemma {:induction false} ListParts(es: seq<Expr>, n: nat, env: map<int, Value>, i: nat)
    requires i < n <= |es| && EvalAll(es, n, env).Some?
    ensures Eval(es[i], env) == Result(EvalAll(es, n, env).value[i])
  {
    if i < n - 1 { ListParts(es, n - 1, env, i); }
  }

  /** What an operand of a type evaluates to */
  ghost predicate Evaluates(e: Expr, t: Type, env: map<int, Value>, v: Value) {
    Eval(e, env) == Result(v) && HasType(v, t)
  }

  lemma PartHasType(v: Value, t: Type, ts: seq<Type>, i: nat)
    requires HasType(v, t) && (t == Header(ts) || t == Struct(ts) || t == Tuple(ts)) && i < |ts|
    ensures !v.Scalar? && !v.Bool? && |v.parts| == |ts| && HasType(v.parts[i], ts[i])
  {
    assert HaveTypes(v.parts, ts);
  }

  /** A value whose parts can be read */
  predicate Readable(v: Value) {
    !v.Scalar? && !v.Bool? && (v.HeaderValue? ==> v.valid)
  }

  /** The field at n and its counterpart evaluate to the parts of the operands. */
  lemma PartsEvaluate(lt: Type, fs: seq<Type>, n: nat, l: Expr, rt: Type, r: Expr, env: map<int, Value>, lv: Value,
                      rv: Value)
    requires (lt == Header(fs) || lt == Struct(fs)) && n < |fs| && Comparable(lt, rt) && (rt == lt || rt.Tuple?)
    requires Evaluates(l, lt, env, lv) && Evaluates(r, rt, env, rv) && Readable(lv) && Readable(rv)
    requires Counterpart(fs[n], rt, r, n).Some?
    ensures |lv.parts| == |rv.parts| == |fs| && Evaluates(Member(l, n), fs[n], env, lv.parts[n])
    ensures var (ct, ce) := Counterpart(fs[n], rt, r, n).value;
            Evaluates(ce, ct, env, rv.parts[n]) && Comparable(fs[n], ct)
  {
    PartHasType(lv, lt, fs, n);
    if rt.Tuple? {
      ListParts(r.exprs, |r.exprs|, env, n);
      PartHasType(rv, rt, rt.components, n);
      assert ComparableParts(lt, fs, rt, n);
    } else {
      PartHasType(rv, rt, fs, n);
    }
  }

  /** When the comparison before the fields is false, the fields are not evaluated. */
  lemma {:induction false} FieldsSkipped(lt: Type, fs: seq<Type>, n: nat, l: Expr, rt: Type, r: Expr, first: Expr,
                                         env: map<int, Value>)
    requires (lt == Header(fs) || lt == Struct(fs)) && n <= |fs| && Eval(first, env) == Result(Bool(false))
    requires ExplodedFields(lt, fs, n, l, rt, r, first).Some?
    ensures Eval(ExplodedFields(lt, fs, n, l, rt, r, first).value, env) == Result(Bool(false))
  {
    if n > 0 { FieldsSkipped(lt, fs, n - 1, l, rt, r, first, env); }
  }

  lemma CounterpartIsSmaller(lt: Type, fs: seq<Type>, rt: Type, r: Expr, i: nat)
    requires (lt == Header(fs) || lt == Struct(fs)) && i < |fs| && Counterpart(fs[i], rt, r, i).Some?
    ensures Larger(fs[i], Counterpart(fs[i], rt, r, i).value.0) < Larger(lt, rt)
  {
    PartIsSmaller(fs, i, |fs|);
    if rt.Tuple? { PartIsSmaller(rt.components, i, |rt.components|); }
  }

  lemma {:induction false} FieldsEqual(lt: Type, fs: seq<Type>, n: nat, l: Expr, rt: Type, r: Expr, first: Expr,
                                       env: map<int, Value>, lv: Value, rv: Value)
    requires (lt == Header(fs) || lt == Struct(fs)) && n <= |fs| && Comparable(lt, rt) && (rt == lt || rt.Tuple?)
    requires Evaluates(l, lt, env, lv) && Evaluates(r, rt, env, rv) && Readable(lv) && Readable(rv)
    requires ExplodedFields(lt, fs, n, l, rt, r, first).Some? && Eval(first, env) == Result(Bool(true))
    ensures |lv.parts| == |rv.parts| == |fs|
    ensures Eval(ExplodedFields(lt, fs, n, l, rt, r, first).value, env)
            == Result(Bool(EqualUpTo(lv.parts, rv.parts, n)))
    decreases Larger(lt, rt), 0, n
  {
    hide Exploded, DeepEqual, HaveTypes, Size;
    if n > 0 {
      FieldsEqual(lt, fs, n - 1, l, rt, r, first, env, lv, rv);
      PartsEvaluate(lt, fs, n - 1, l, rt, r, env, lv, rv);
      var (ct, ce) := Counterpart(fs[n - 1], rt, r, n - 1).value;
      CounterpartIsSmaller(lt, fs, rt, r, n - 1);
      ExplodedIsEqual(fs[n - 1], Member(l, n - 1), ct, ce, env, lv.parts[n - 1], rv.parts[n - 1]);
    }
  }

  lemma {:induction false} ElementsEqual(element: Type, size: nat, n: nat, l: Expr, r: Expr, env: map<int, Value>,
                                         lv: Value, rv: Value)
    requires n <= size && Evaluates(l, Stack(element, size), env, lv) && Evaluates(r, Stack(element, size), env, rv)
    requires ExplodedElements(element, n, l, Stack(element, size), r).Some?
    ensures |lv.parts| == |rv.parts| == size
    ensures Eval(ExplodedElements(element, n, l, Stack(element, size), r).value, env)
            == Result(Bool(EqualUpTo(lv.parts, rv.parts, n)))
    decreases Larger(Stack(element, n), Stack(element, size)), 0, n
  {
    if n > 0 {
      ElementsEqual(element, size, n - 1, l, r, env, lv, rv);
      ExplodedIsEqual(element, ArrayIndex(l, n - 1), element, ArrayIndex(r, n - 1), env, lv.parts[n - 1],
                      rv.parts[n - 1]);
    }
  }

  lemma ComponentsComparable(cs: seq<Type>, rt: Type, i: nat)
    requires rt.Tuple? && Comparable(Tuple(cs), rt) && i < |cs|
    ensures i < |rt.components| && Comparable(cs[i], rt.components[i])
    ensures Larger(cs[i], rt.components[i]) < Larger(Tuple(cs), rt)
  {
    if Tuple(cs) != rt { assert ComparableParts(Tuple(cs), cs, rt, i); }
    PartIsSmaller(cs, i, |cs|);
    PartIsSmaller(rt.components, i, |rt.components|);
  }

  lemma ListHasParts(e: Expr, cs: seq<Type>, env: map<int, Value>, v: Value)
    requires e.List? && Evaluates(e, Tuple(cs), env, v)
    ensures v.TupleValue? && |v.parts| == |e.exprs| == |cs|
  {
  }

  lemma SameLength(cs: seq<Type>, rt: Type, rv: Value)
    requires rt.Tuple? && Comparable(Tuple(cs), rt) && HasType(rv, rt)
    ensures rv.TupleValue? && |rv.parts| == |rt.components| == |cs|
  {
  }

  lemma ComponentEvaluates(e: Expr, cs: seq<Type>, env: map<int, Value>, v: Value, i: nat)
    requires e.List? && Evaluates(e, Tuple(cs), env, v) && i < |cs|
    ensures i < |e.exprs| == |cs| == |v.parts| && Evaluates(e.exprs[i], cs[i], env, v.parts[i])
  {
    ListHasParts(e, cs, env, v);
    ListParts(e.exprs, |e.exprs|, env, i);
    PartHasType(v, Tuple(cs), cs, i);
  }

  lemma {:induction false} ComponentsEqual(cs: seq<Type>, l: Expr, n: nat, rt: Type, r: Expr, env: map<int, Value>,
                                           lv: Value, rv: Value)
    requires l.List? && rt.Tuple? && n <= |l.exprs| && Comparable(Tuple(cs), rt)
    requires Evaluates(l, Tuple(cs), env, lv) && Evaluates(r, rt, env, rv)
    requires ExplodedComponents(cs, l, n, rt, r).Some?
    ensures |lv.parts| == |rv.parts| == |l.exprs| == |cs|
    ensures Eval(ExplodedComponents(cs, l, n, rt, r).value, env) == Result(Bool(EqualUpTo(lv.parts, rv.parts, n)))
    decreases Larger(Tuple(cs), rt), 0, n
  {
    hide Exploded, DeepEqual, HasType, Comparable, Size;
    ListHasParts(l, cs, env, lv);
    SameLength(cs, rt, rv);
    if n > 0 {
      ComponentsEqual(cs, l, n - 1, rt, r, env, lv, rv);
      ComponentEvaluates(l, cs, env, lv, n - 1);
      ComponentEvaluates(r, rt.components, env, rv, n - 1);
      ComponentsComparable(cs, rt, n - 1);
      ExplodedIsEqual(cs[n - 1], l.exprs[n - 1], rt.components[n - 1], r.exprs[n - 1], env, lv.parts[n - 1],
                      rv.parts[n - 1]);
    }
  }

  /** The comparison by fields evaluates to deep equality, in either order of the operands. In particular it never
      reads a field of an invalid header. */
  lemma {:induction false} ExplodedIsEqual(lt: Type, l: Expr, rt: Type, r: Expr, env: map<int, Value>, lv: Value,
                                           rv: Value)
    requires Comparable(lt, rt) && Exploded(lt, l, rt, r).Some?
    requires Evaluates(l, lt, env, lv) && Evaluates(r, rt, env, rv)
    ensures Eval(Exploded(lt, l, rt, r).value, env) == Result(Bool(DeepEqual(lv, rv)))
    decreases Larger(lt, rt), if lt.Tuple? && !rt.Tuple? then 2 else 1, 0
  {
    if lt.Tuple? && !rt.Tuple? {
      ExplodedIsEqual(rt, r, lt, l, env, rv, lv);
      DeepEqualSymmetric(lv, rv);
    } else {
      match lt
      case Header(fs) => HeadersEqual(lt, fs, l, rt, r, env, lv, rv);
      case Struct(fs) => StructsEqual(lt, fs, l, rt, r, env, lv, rv);
      case Stack(element, size) => StacksEqual(element, size, l, r, env, lv, rv);
      case Tuple(cs) => TuplesEqual(cs, l, rt, r, env, lv, rv);
      case Base => ScalarsEqual(l, r, env, lv, rv);
    }
  }

  lemma {:induction false} StructsEqual(lt: Type, fs: seq<Type>, l: Expr, rt: Type, r: Expr, env: map<int, Value>,
                                        lv: Value, rv: Value)
    requires lt == Struct(fs) && Comparable(lt, rt) && Exploded(lt, l, rt, r).Some?
    requires Evaluates(l, lt, env, lv) && Evaluates(r, rt, env, rv)
    ensures Eval(Exploded(lt, l, rt, r).value, env) == Result(Bool(DeepEqual(lv, rv)))
    decreases Larger(lt, rt), 0, |fs| + 1
  {
    FieldsEqual(lt, fs, |fs|, l, rt, r, Literal(true), env, lv, rv);
  }

  lemma {:induction false} StacksEqual(element: Type, size: nat, l: Expr, r: Expr, env: map<int, Value>, lv: Value,
                                       rv: Value)
    requires Evaluates(l, Stack(element, size), env, lv) && Evaluates(r, Stack(element, size), env, rv)
    requires Exploded(Stack(element, size), l, Stack(element, size), r).Some?
    ensures Eval(Exploded(Stack(element, size), l, Stack(element, size), r).value, env)
            == Result(Bool(DeepEqual(lv, rv)))
    decreases Larger(Stack(element, size), Stack(element, size)), 0, size + 1
  {
    ElementsEqual(element, size, size, l, r, env, lv, rv);
  }

  lemma ScalarsEqual(l: Expr, r: Expr, env: map<int, Value>, lv: Value, rv: Value)
    requires Evaluates(l, Base, env, lv) && Evaluates(r, Base, env, rv)
    ensures Eval(Equ(l, r), env) == Result(Bool(DeepEqual(lv, rv)))
  {
  }

  lemma {:induction false} TuplesEqual(cs: seq<Type>, l: Expr, rt: Type, r: Expr, env: map<int, Value>, lv: Value,
                                       rv: Value)
    requires rt.Tuple? && Comparable(Tuple(cs), rt) && Exploded(Tuple(cs), l, rt, r).Some?
    requires Evaluates(l, Tuple(cs), env, lv) && Evaluates(r, rt, env, rv)
    ensures Eval(Exploded(Tuple(cs), l, rt, r).value, env) == Result(Bool(DeepEqual(lv, rv)))
    decreases Larger(Tuple(cs), rt), 0, |l.exprs| + 1
  {
    ComponentsEqual(cs, l, |l.exprs|, rt, r, env, lv, rv);
  }

  lemma ValidityEvaluates(l: Expr, r: Expr, env: map<int, Value>, a: bool, b: bool)
    requires Eval(l, env) == Result(Bool(a)) && Eval(r, env) == Result(Bool(b))
    ensures Eval(And(l, r), env) == Result(Bool(a && b))
    ensures Eval(And(Not(l), Not(r)), env) == Result(Bool(!a && !b))
  {
    assert Eval(Not(r), env) == Result(Bool(!b));
  }

  lemma {:induction false} HeadersEqual(lt: Type, fs: seq<Type>, l: Expr, rt: Type, r: Expr, env: map<int, Value>,
                                        lv: Value, rv: Value)
    requires lt == Header(fs) && Comparable(lt, rt) && Exploded(lt, l, rt, r).Some?
    requires Evaluates(l, lt, env, lv) && Evaluates(r, rt, env, rv)
    ensures Eval(Exploded(lt, l, rt, r).value, env) == Result(Bool(DeepEqual(lv, rv)))
    decreases Larger(lt, rt), 0, |fs| + 1
  {
    hide ExplodedFields, EqualUpTo, HaveTypes, Size;
    var rvalid := if rt.Tuple? then Literal(true) else IsValid(r);
    var first := And(IsValid(l), rvalid);
    var rightValid := rt.Tuple? || rv.valid;
    ValidityEvaluates(IsValid(l), rvalid, env, lv.valid, rightValid);
    if lv.valid && rightValid {
      FieldsEqual(lt, fs, |fs|, l, rt, r, first, env, lv, rv);
    } else {
      FieldsSkipped(lt, fs, |fs|, l, rt, r, first, env);
    }
  }

  /** What the pass makes of a comparison: simple ones stay, and inequality is the negation. */
  function Rewritten(isNeq: bool, lt: Type, l: Expr, rt: Type, r: Expr): Option<Expr> {
    var e := Exploded(lt, l, rt, r);
    if lt.Base? then Some(if isNeq then Not(Equ(l, r)) else Equ(l, r))
    else if e.None? then None
    else Some(if isNeq then Not(e.value) else e.value)
  }

  /** Whenever the pass returns, the comparison that it returns means what the original one means. */
  lemma {:induction false} RewrittenMeansTheSame(isNeq: bool, lt: Type, l: Expr, rt: Type, r: Expr,
                                                 env: map<int, Value>, lv: Value, rv: Value)
    requires Comparable(lt, rt) && Rewritten(isNeq, lt, l, rt, r).Some?
    requires Evaluates(l, lt, env, lv) && Evaluates(r, rt, env, rv)
    ensures Eval(Rewritten(isNeq, lt, l, rt, r).value, env) == Result(Bool(DeepEqual(lv, rv) != isNeq))
  {
    if lt.Base? { ScalarsEqual(l, r, env, lv, rv); } else { ExplodedIsEqual(lt, l, rt, r, env, lv, rv); }
  }

  // ---- when the pass returns ----

  /** Lists have as many components as their types. */
  predicate Fits(t: Type, e: Expr)
    decreases t
  {
    e.List? ==>
      t.Tuple? && |e.exprs| == |t.components|
      && forall i | 0 <= i < |e.exprs| :: Fits(t.components[i], e.exprs[i])
  }

  /** The types of fields and components */
  function Parts(t: Type): seq<Type> {
    match t
    case Header(fs) => fs
    case Struct(fs) => fs
    case Tuple(cs) => cs
    case _ => []
  }

  /** A component of a list, or a field */
  function PartOf(e: Expr, i: nat): Expr {
    if e.List? && i < |e.exprs| then e.exprs[i] else Member(e, i)
  }

  /** What stands for a value of a tuple type is a list, at all depths, when it is compared with a value of another
      type. It need not be one when it has no components, unless it is on the left and compared with a tuple. */
  ghost predicate Listed(t: Type, e: Expr, other: Type, onLeft: bool)
    decreases t, 0
  {
    match t
    case Base => true
    case Header(fs) => PartsListed(fs, e, other, onLeft || other.Tuple?)
    case Struct(fs) => PartsListed(fs, e, other, onLeft || other.Tuple?)
    case Stack(element, size) => forall i | 0 <= i < size :: Listed(element, ArrayIndex(e, i), element, onLeft)
    case Tuple(cs) =>
      (cs != [] || (onLeft && other.Tuple?) ==> e.List?) && PartsListed(cs, e, other, onLeft && other.Tuple?)
  }

  ghost predicate PartsListed(ts: seq<Type>, e: Expr, other: Type, onLeft: bool)
    decreases ts, 1
  {
    forall i | 0 <= i < |ts| :: PartListed(ts, e, other, onLeft, i)
  }

  ghost predicate PartListed(ts: seq<Type>, e: Expr, other: Type, onLeft: bool, i: nat)
    requires i < |ts|
    decreases ts, 0
  {
    Listed(ts[i], PartOf(e, i), if i < |Parts(other)| then Parts(other)[i] else ts[i], onLeft)
  }

  /** The i-th parts of both operands are listed. */
  ghost predicate BothListed(lt: Type, l: Expr, rt: Type, r: Expr, i: nat)
    requires i < |Parts(lt)| && i < |Parts(rt)|
  {
    && Listed(Parts(lt)[i], PartOf(l, i), Parts(rt)[i], true)
    && Listed(Parts(rt)[i], PartOf(r, i), Parts(lt)[i], false)
  }

  lemma FieldFits(lt: Type, fs: seq<Type>, i: nat, rt: Type, r: Expr)
    requires (lt == Header(fs) || lt == Struct(fs)) && i < |fs| && Comparable(lt, rt) && (rt == lt || rt.Tuple?)
    requires Fits(rt, r)
    ensures i < |Parts(rt)| && Comparable(fs[i], Parts(rt)[i]) && Fits(Parts(rt)[i], PartOf(r, i))
    ensures Counterpart(fs[i], rt, r, i) ==
            if rt.Tuple? && !r.List? then None else Some((Parts(rt)[i], PartOf(r, i)))
  {
    if rt.Tuple? { assert ComparableParts(lt, fs, rt, i); }
  }

  lemma {:induction false} FieldsExplode(lt: Type, fs: seq<Type>, n: nat, l: Expr, rt: Type, r: Expr, first: Expr)
    requires (lt == Header(fs) || lt == Struct(fs)) && n <= |fs| && Comparable(lt, rt) && (rt == lt || rt.Tuple?)
    requires Fits(lt, l) && Fits(rt, r)
    ensures |Parts(rt)| == |fs|
    ensures ExplodedFields(lt, fs, n, l, rt, r, first).Some?
            <==> (n > 0 && rt.Tuple? ==> r.List?) && AllListed(lt, l, rt, r, n)
    decreases Larger(lt, rt), 0, n
  {
    hide Fits, Listed, Exploded;
    if n > 0 {
      FieldsExplode(lt, fs, n - 1, l, rt, r, first);
      FieldFits(lt, fs, n - 1, rt, r);
      if !rt.Tuple? || r.List? {
        CounterpartIsSmaller(lt, fs, rt, r, n - 1);
        NotAList(lt, l, n - 1);
        ExplodesExactly(fs[n - 1], Member(l, n - 1), Parts(rt)[n - 1], PartOf(r, n - 1));
        assert ExplodedFields(lt, fs, n, l, rt, r, first).Some?
               <==> ExplodedFields(lt, fs, n - 1, l, rt, r, first).Some? && BothListed(lt, l, rt, r, n - 1);
      }
    }
  }

  lemma NotAList(t: Type, e: Expr, i: nat)
    requires Fits(t, e) && !t.Tuple?
    ensures !e.List? && PartOf(e, i) == Member(e, i)
    ensures forall u :: Fits(u, Member(e, i)) && Fits(u, ArrayIndex(e, i))
  {
  }

  /** All parts of both operands are listed. */
  ghost predicate AllListed(lt: Type, l: Expr, rt: Type, r: Expr, n: nat)
    requires n <= |Parts(lt)| && n <= |Parts(rt)|
  {
    forall i | 0 <= i < n :: BothListed(lt, l, rt, r, i)
  }

  lemma SidesListed(lt: Type, l: Expr, rt: Type, r: Expr)
    requires |Parts(lt)| == |Parts(rt)| && AllListed(lt, l, rt, r, |Parts(lt)|)
    ensures PartsListed(Parts(lt), l, rt, true) && PartsListed(Parts(rt), r, lt, false)
  {
    hide Listed, PartOf;
    forall i | 0 <= i < |Parts(lt)|
      ensures PartListed(Parts(lt), l, rt, true, i) && PartListed(Parts(rt), r, lt, false, i)
    {
      assert BothListed(lt, l, rt, r, i);
    }
  }

  lemma ListedTogether(lt: Type, l: Expr, rt: Type, r: Expr)
    requires |Parts(lt)| == |Parts(rt)|
    requires PartsListed(Parts(lt), l, rt, true) && PartsListed(Parts(rt), r, lt, false)
    ensures AllListed(lt, l, rt, r, |Parts(lt)|)
  {
    hide Listed, PartOf;
    forall i | 0 <= i < |Parts(lt)|
      ensures BothListed(lt, l, rt, r, i)
    {
      assert PartListed(Parts(lt), l, rt, true, i) && PartListed(Parts(rt), r, lt, false, i);
    }
  }

  lemma PartsOfBoth(lt: Type, l: Expr, rt: Type, r: Expr)
    requires |Parts(lt)| == |Parts(rt)|
    ensures AllListed(lt, l, rt, r, |Parts(lt)|)
            <==> PartsListed(Parts(lt), l, rt, true) && PartsListed(Parts(rt), r, lt, false)
  {
    hide AllListed, PartsListed, Parts;
    if AllListed(lt, l, rt, r, |Parts(lt)|) { SidesListed(lt, l, rt, r); }
    if PartsListed(Parts(lt), l, rt, true) && PartsListed(Parts(rt), r, lt, false) { ListedTogether(lt, l, rt, r); }
  }

  lemma FieldsListed(lt: Type, l: Expr, rt: Type, r: Expr)
    requires (lt.Header? || lt.Struct?) && |Parts(rt)| == |Parts(lt)| && (rt == lt || rt.Tuple?)
    ensures (Parts(lt) != [] && rt.Tuple? ==> r.List?) && AllListed(lt, l, rt, r, |Parts(lt)|)
            <==> Listed(lt, l, rt, true) && Listed(rt, r, lt, false)
  {
    hide AllListed, PartsListed;
    PartsOfBoth(lt, l, rt, r);
  }

  lemma {:induction false} ElementsExplode(element: Type, size: nat, n: nat, l: Expr, r: Expr)
    requires n <= size && Fits(Stack(element, size), l) && Fits(Stack(element, size), r)
    ensures ExplodedElements(element, n, l, Stack(element, size), r).Some?
            <==> forall i | 0 <= i < n :: Listed(element, ArrayIndex(l, i), element, true)
                                          && Listed(element, ArrayIndex(r, i), element, false)
    decreases Larger(Stack(element, n), Stack(element, size)), 0, n
  {
    hide Listed;
    if n > 0 {
      ElementsExplode(element, size, n - 1, l, r);
      ExplodesExactly(element, ArrayIndex(l, n - 1), element, ArrayIndex(r, n - 1));
    }
  }

  lemma ComponentFits(cs: seq<Type>, l: Expr, i: nat, rt: Type, r: Expr)
    requires l.List? && rt.Tuple? && i < |cs| && Comparable(Tuple(cs), rt) && Fits(Tuple(cs), l) && Fits(rt, r)
    ensures |l.exprs| == |cs| == |rt.components|
    ensures Fits(cs[i], l.exprs[i]) && (r.List? ==> i < |r.exprs| && Fits(rt.components[i], r.exprs[i]))
  {
  }

  lemma {:induction false} ComponentsExplode(cs: seq<Type>, l: Expr, n: nat, rt: Type, r: Expr)
    requires l.List? && rt.Tuple? && n <= |l.exprs| == |cs| == |rt.components| && Comparable(Tuple(cs), rt)
    requires Fits(Tuple(cs), l) && Fits(rt, r)
    ensures ExplodedComponents(cs, l, n, rt, r).Some?
            <==> (n > 0 ==> r.List?) && AllListed(Tuple(cs), l, rt, r, n)
    decreases Larger(Tuple(cs), rt), 0, n
  {
    hide Fits, Listed, Exploded, Comparable;
    if n > 0 {
      ComponentsExplode(cs, l, n - 1, rt, r);
      ComponentFits(cs, l, n - 1, rt, r);
      if r.List? {
        ComponentsComparable(cs, rt, n - 1);
        ExplodesExactly(cs[n - 1], l.exprs[n - 1], rt.components[n - 1], r.exprs[n - 1]);
        assert ExplodedComponents(cs, l, n, rt, r).Some?
               <==> ExplodedComponents(cs, l, n - 1, rt, r).Some? && BothListed(Tuple(cs), l, rt, r, n - 1);
      }
    }
  }

  lemma ComponentsListed(cs: seq<Type>, l: Expr, rt: Type, r: Expr)
    requires rt.Tuple? && |cs| == |rt.components|
    ensures l.List? && (cs != [] ==> r.List?) && AllListed(Tuple(cs), l, rt, r, |cs|)
            <==> Listed(Tuple(cs), l, rt, true) && Listed(rt, r, Tuple(cs), false)
  {
    hide AllListed, PartsListed;
    PartsOfBoth(Tuple(cs), l, rt, r);
  }

  lemma SidesSwap(lt: Type, l: Expr, rt: Type, r: Expr)
    requires Comparable(lt, rt) && lt.Tuple? && !rt.Tuple?
    ensures Comparable(rt, lt)
    ensures Listed(lt, l, rt, true) == Listed(lt, l, rt, false) && Listed(rt, r, lt, true) == Listed(rt, r, lt, false)
  {
  }

  /** The pass returns if and only if lists stand for everything of a tuple type that it takes apart. */
  lemma {:induction false} ExplodesExactly(lt: Type, l: Expr, rt: Type, r: Expr)
    requires Comparable(lt, rt) && Fits(lt, l) && Fits(rt, r)
    ensures Exploded(lt, l, rt, r).Some? <==> Listed(lt, l, rt, true) && Listed(rt, r, lt, false)
    decreases Larger(lt, rt), if lt.Tuple? && !rt.Tuple? then 2 else 1, 0
  {
    hide AllListed, PartsListed, ExplodedFields, ExplodedComponents, Size;
    if lt.Tuple? && !rt.Tuple? {
      SidesSwap(lt, l, rt, r);
      ExplodesExactly(rt, r, lt, l);
    } else {
      match lt
      case Header(fs) =>
        var rvalid := if rt.Tuple? then Literal(true) else IsValid(r);
        FieldsExplode(lt, fs, |fs|, l, rt, r, And(IsValid(l), rvalid));
        FieldsListed(lt, l, rt, r);
      case Struct(fs) =>
        FieldsExplode(lt, fs, |fs|, l, rt, r, Literal(true));
        FieldsListed(lt, l, rt, r);
      case Stack(element, size) => ElementsExplode(element, size, size, l, r);
      case Tuple(cs) =>
        ComponentsListed(cs, l, rt, r);
        if l.List? { ComponentsExplode(cs, l, |l.exprs|, rt, r); }
      case Base =>
    }
  }

  /** A struct with a tuple for a field is well typed, but the pass does not return. */
  lemma TupleFieldFails(l: Expr, r: Expr)
    ensures var t := Struct([Tuple([Base])]); Comparable(t, t) && Exploded(t, l, t, r).None?
  {
    var t := Struct([Tuple([Base])]);
    assert Exploded(Tuple([Base]), Member(l, 0), Tuple([Base]), Member(r, 0)).None?;
    assert ExplodedFields(t, [Tuple([Base])], 1, l, t, r, Literal(true)).None?;
  }
}
