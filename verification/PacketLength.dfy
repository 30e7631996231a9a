/** The packet-length analysis of composable packages (midend/controlBlockInterpreter.cpp,
    midend/composablePackageInterpreter.cpp): what one walk over a control body computes, and what it is meant to be,
    a maximum over all execution paths. */
module PacketLength {
  import opened Wrappers

  datatype HeaderMethod = SetValid | SetInvalid | IsValid

  /** A resolved control body. The declarations that calls refer to stand at the calls, so each is entered once. */
  datatype Statement =
    | CallHeader(name: HeaderMethod, width: nat)
    | Block(statements: seq<Statement>)
    | If(ifTrue: Statement, ifFalse: Optional)
    | Switch(cases: seq<Optional>)
    | ApplyTable(actions: seq<Statement>)
    | CallAction(body: Statement)
    | ApplyPackage(package: Package)
    | Exit
    | OtherStatement

  /** A statement that may be null */
  datatype Optional = Missing | Given(statement: Statement)

  /** The extract length of the micro_parser, when there is one, and the body of the micro_control, when that is a
      control */
  datatype Package = Package(parser: Option<nat>, control: Optional)

  function Max(a: nat, b: nat): nat {
    if a > b then a else b
  }

  // ---- what the paths do ----

  /** What happens on a path: how many bits of headers are made valid and invalid in all, how many its callees make
      invalid, and the largest sum, over the packages that it calls, of what earlier callees made invalid and what
      this one extracts. */
  datatype Effect = Effect(incr: nat, decr: nat, shrink: nat, extract: Option<nat>)

  const SKIP := Effect(0, 0, 0, None)

  function MaxExtract(a: Option<nat>, b: Option<nat>): Option<nat> {
    if a.None? then b else if b.None? then a else Some(Max(a.value, b.value))
  }

  function Later(shrink: nat, extract: Option<nat>): Option<nat> {
    if extract.None? then None else Some(shrink + extract.value)
  }

  function Then(a: Effect, b: Effect): Effect {
    Effect(a.incr + b.incr, a.decr + b.decr, a.shrink + b.shrink, MaxExtract(a.extract, Later(a.shrink, b.extract)))
  }

  /** What a call of a package is for the caller, from what happens in its control */
  function Called(p: Package, e: Effect): Effect {
    Effect(e.incr, e.decr, e.decr, Some(OrZero(p.parser) + OrZero(e.extract)))
  }

  function OrZero(n: Option<nat>): nat {
    if n.Some? then n.value else 0
  }

  /** The effects of the paths through a statement that reach its end, or that end at an exit inside (ended). A table
      executes one of its actions or none; a switch enters at one of its cases or at none, and a case without a
      statement falls through to the next. An exit ends all callers too. */
  ghost function Paths(ended: bool, s: Statement): set<Effect>
    decreases s, 0
  {
    match s
    case CallHeader(SetValid, w) => if ended then {} else {Effect(w, 0, 0, None)}
    case CallHeader(SetInvalid, w) => if ended then {} else {Effect(0, w, 0, None)}
    case CallHeader(IsValid, _) => Idle(ended)
    case Block(ss) => BlockPaths(ended, ss, |ss|)
    case If(t, f) => Paths(ended, t) + OptionalPaths(ended, f)
    case Switch(cs) => Idle(ended) + set i, e | 0 <= i < |cs| && e in EntryPaths(ended, cs, i) :: e
    case ApplyTable(actions) => ActionPaths(ended, actions, |actions|)
    case CallAction(body) => Paths(ended, body)
    case ApplyPackage(p) => set e | e in OptionalPaths(ended, p.control) :: Called(p, e)
    case Exit => Idle(!ended)
    case OtherStatement => Idle(ended)
  }

  /** Nothing happens, and the path goes on. */
  ghost function Idle(ended: bool): set<Effect> {
    if ended then {} else {SKIP}
  }

  ghost function OptionalPaths(ended: bool, o: Optional): set<Effect>
    decreases o, 0
  {
    if o.Given? then Paths(ended, o.statement) else Idle(ended)
  }

  /** The paths through the first n statements: those that ended before the last one, and those that came to it */
  ghost function BlockPaths(ended: bool, ss: seq<Statement>, n: nat): set<Effect>
    requires n <= |ss|
    decreases ss, n
  {
    if n == 0 then Idle(ended)
    else
      (if ended then BlockPaths(true, ss, n - 1) else {})
      + set a, b | a in BlockPaths(false, ss, n - 1) && b in Paths(ended, ss[n - 1]) :: Then(a, b)
  }

  /** The paths through one of the first n actions, or through none */
  ghost function ActionPaths(ended: bool, actions: seq<Statement>, n: nat): set<Effect>
    requires n <= |actions|
    decreases actions, n
  {
    if n == 0 then Idle(ended) else ActionPaths(ended, actions, n - 1) + Paths(ended, actions[n - 1])
  }

  /** The paths when a switch is entered at case i */
  ghost function EntryPaths(ended: bool, cs: seq<Optional>, i: nat): set<Effect>
    requires i <= |cs|
    decreases cs, |cs| - i
  {
    if i == |cs| then Idle(ended)
    else if cs[i].Given? then OptionalPaths(ended, cs[i])
    else EntryPaths(ended, cs, i + 1)
  }

  /** The effects of all paths */
  ghost function AllPaths(s: Statement): set<Effect> {
    Paths(false, s) + Paths(true, s)
  }

  // ---- the largest values over all paths ----

  function Either(a: Effect, b: Effect): Effect {
    Effect(Max(a.incr, b.incr), Max(a.decr, b.decr), Max(a.shrink, b.shrink), MaxExtract(a.extract, b.extract))
  }

  /** The same when there may be no path at all */
  function EitherOf(a: Option<Effect>, b: Option<Effect>): Option<Effect> {
    if a.None? then b else if b.None? then a else Some(Either(a.value, b.value))
  }

  function ThenOf(a: Option<Effect>, b: Option<Effect>): Option<Effect> {
    if a.Some? && b.Some? then Some(Then(a.value, b.value)) else None
  }

  function CalledOf(p: Package, a: Option<Effect>): Option<Effect> {
    if a.Some? then Some(Called(p, a.value)) else None
  }

  /** The maxima over the paths that reach the end of a statement, or that end inside, computed along its structure */
  function Best(ended: bool, s: Statement): Option<Effect>
    decreases s, 0
  {
    match s
    case CallHeader(SetValid, w) => if ended then None else Some(Effect(w, 0, 0, None))
    case CallHeader(SetInvalid, w) => if ended then None else Some(Effect(0, w, 0, None))
    case CallHeader(IsValid, _) => BestIdle(ended)
    case Block(ss) => BestBlock(ended, ss, |ss|)
    case If(t, f) => EitherOf(Best(ended, t), BestOptional(ended, f))
    case Switch(cs) => BestCases(ended, cs, |cs|)
    case ApplyTable(actions) => BestActions(ended, actions, |actions|)
    case CallAction(body) => Best(ended, body)
    case ApplyPackage(p) => CalledOf(p, BestOptional(ended, p.control))
    case Exit => BestIdle(!ended)
    case OtherStatement => BestIdle(ended)
  }

  function BestIdle(ended: bool): Option<Effect> {
    if ended then None else Some(SKIP)
  }

  function BestOptional(ended: bool, o: Optional): Option<Effect>
    decreases o, 0
  {
    if o.Given? then Best(ended, o.statement) else BestIdle(ended)
  }

  function BestBlock(ended: bool, ss: seq<Statement>, n: nat): Option<Effect>
    requires n <= |ss|
    decreases ss, n
  {
    if n == 0 then BestIdle(ended)
    else
      EitherOf(if ended then BestBlock(true, ss, n - 1) else None,
               ThenOf(BestBlock(false, ss, n - 1), Best(ended, ss[n - 1])))
  }

  function BestCases(ended: bool, cs: seq<Optional>, n: nat): Option<Effect>
    requires n <= |cs|
    decreases cs, n
  {
    if n == 0 then BestIdle(ended) else EitherOf(BestCases(ended, cs, n - 1), BestOptional(ended, cs[n - 1]))
  }

  function BestActions(ended: bool, actions: seq<Statement>, n: nat): Option<Effect>
    requires n <= |actions|
    decreases actions, n
  {
    if n == 0 then BestIdle(ended) else EitherOf(BestActions(ended, actions, n - 1), Best(ended, actions[n - 1]))
  }

  /** The maxima over all paths */
  function Overall(s: Statement): Option<Effect> {
    EitherOf(Best(false, s), Best(true, s))
  }

  predicate ExtractAtMost(a: Option<nat>, b: Option<nat>) {
    a.Some? ==> b.Some? && a.value <= b.value
  }

  predicate AtMost(a: Effect, b: Effect) {
    a.incr <= b.incr && a.decr <= b.decr && a.shrink <= b.shrink && ExtractAtMost(a.extract, b.extract)
  }

  /** Each component of e is a maximum over the paths. */
  ghost predicate IsMaximum(paths: set<Effect>, e: Effect) {
    && (forall p | p in paths :: AtMost(p, e))
    && (exists p :: p in paths && p.incr == e.incr)
    && (exists p :: p in paths && p.decr == e.decr)
    && (exists p :: p in paths && p.shrink == e.shrink)
    && (exists p :: p in paths && p.extract == e.extract)
  }

  ghost predicate IsBest(paths: set<Effect>, o: Option<Effect>) {
    if o.Some? then IsMaximum(paths, o.value) else paths == {}
  }

  lemma OnlyMaximum(paths: set<Effect>, x: Effect, y: Effect)
    requires IsMaximum(paths, x) && IsMaximum(paths, y)
    ensures x == y
  {
  }

  lemma MaximumOfOne(e: Effect)
    ensures IsMaximum({e}, e)
  {
    assert e in {e};
  }

  lemma MaximumOfUnion(a: set<Effect>, b: set<Effect>, x: Effect, y: Effect)
    requires IsMaximum(a, x) && IsMaximum(b, y)
    ensures IsMaximum(a + b, Either(x, y))
  {
    var p1 :| p1 in a && p1.incr == x.incr;
    var p2 :| p2 in a && p2.decr == x.decr;
    var p3 :| p3 in a && p3.shrink == x.shrink;
    var p4 :| p4 in a && p4.extract == x.extract;
    var q1 :| q1 in b && q1.incr == y.incr;
    var q2 :| q2 in b && q2.decr == y.decr;
    var q3 :| q3 in b && q3.shrink == y.shrink;
    var q4 :| q4 in b && q4.extract == y.extract;
    assert {p1, p2, p3, p4, q1, q2, q3, q4} <= a + b;
  }

  lemma BestOfUnion(a: set<Effect>, b: set<Effect>, x: Option<Effect>, y: Option<Effect>)
    requires IsBest(a, x) && IsBest(b, y)
    ensures IsBest(a + b, EitherOf(x, y))
  {
    if x.Some? && y.Some? {
      MaximumOfUnion(a, b, x.value, y.value);
    } else {
      assert a + b == if x.None? then b else a;
    }
  }

  ghost function AllThen(a: set<Effect>, b: set<Effect>): set<Effect> {
    set p, q | p in a && q in b :: Then(p, q)
  }

  lemma ThenInAll(a: set<Effect>, b: set<Effect>, p: Effect, q: Effect)
    requires p in a && q in b
    ensures Then(p, q) in AllThen(a, b)
  {
  }

  lemma ThenAtMost(a: Effect, b: Effect, x: Effect, y: Effect)
    requires AtMost(a, x) && AtMost(b, y)
    ensures AtMost(Then(a, b), Then(x, y))
  {
  }

  lemma {:induction false} MaximumOfThen(a: set<Effect>, b: set<Effect>, x: Effect, y: Effect)
    requires IsMaximum(a, x) && IsMaximum(b, y)
    ensures IsMaximum(AllThen(a, b), Then(x, y))
  {
    forall p, q | p in a && q in b ensures AtMost(Then(p, q), Then(x, y)) { ThenAtMost(p, q, x, y); }
    var p1 :| p1 in a && p1.incr == x.incr;
    var p2 :| p2 in a && p2.decr == x.decr;
    var p3 :| p3 in a && p3.shrink == x.shrink;
    var p4 :| p4 in a && p4.extract == x.extract;
    var q1 :| q1 in b && q1.incr == y.incr;
    var q2 :| q2 in b && q2.decr == y.decr;
    var q3 :| q3 in b && q3.shrink == y.shrink;
    var q4 :| q4 in b && q4.extract == y.extract;
    ThenInAll(a, b, p1, q1);
    ThenInAll(a, b, p2, q2);
    ThenInAll(a, b, p3, q3);
    ThenInAll(a, b, p4, q4);
    ThenInAll(a, b, p3, q4);
    ThenReaches(p3, p4, q4, x, y);
  }

  /** The extract length of two statements is reached by a path that reaches that of the first one, or by one that
      shrinks most in the first and reaches that of the second. */
  lemma ThenReaches(p3: Effect, p4: Effect, q4: Effect, x: Effect, y: Effect)
    requires AtMost(p3, x) && AtMost(p4, x) && AtMost(q4, y)
    requires p3.shrink == x.shrink && p4.extract == x.extract && q4.extract == y.extract
    ensures Then(p4, q4).extract == Then(x, y).extract || Then(p3, q4).extract == Then(x, y).extract
  {
  }

  lemma BestOfThen(a: set<Effect>, b: set<Effect>, x: Option<Effect>, y: Option<Effect>)
    requires IsBest(a, x) && IsBest(b, y)
    ensures IsBest(AllThen(a, b), ThenOf(x, y))
  {
    if x.Some? && y.Some? { MaximumOfThen(a, b, x.value, y.value); }
  }

  lemma BestOfCalls(p: Package, a: set<Effect>, x: Option<Effect>)
    requires IsBest(a, x)
    ensures IsBest(set e | e in a :: Called(p, e), CalledOf(p, x))
  {
    if x.Some? {
      var calls := set e | e in a :: Called(p, e);
      forall e | e in a ensures AtMost(Called(p, e), Called(p, x.value)) && Called(p, e) in calls {
      }
      var p1 :| p1 in a && p1.incr == x.value.incr;
      var p2 :| p2 in a && p2.decr == x.value.decr;
      var p4 :| p4 in a && p4.extract == x.value.extract;
      assert Called(p, p1) in calls && Called(p, p2) in calls && Called(p, p4) in calls;
    }
  }

  lemma IdleIsBest(ended: bool)
    ensures IsBest(Idle(ended), BestIdle(ended))
  {
    MaximumOfOne(SKIP);
  }

  /** One value for all paths: what the structure of a statement gives is the maximum over its paths, of which there
      can be exponentially many. */
  lemma {:induction false} BestIsMaximum(ended: bool, s: Statement)
    ensures IsBest(Paths(ended, s), Best(ended, s))
    decreases s, 1
  {
    match s
    case CallHeader(SetValid, w) => MaximumOfOne(Effect(w, 0, 0, None));
    case CallHeader(SetInvalid, w) => MaximumOfOne(Effect(0, w, 0, None));
    case CallHeader(IsValid, _) => IdleIsBest(ended);
    case Block(ss) => BlockIsMaximum(ended, ss, |ss|);
    case If(t, f) =>
      BestIsMaximum(ended, t);
      OptionalIsMaximum(ended, f);
      BestOfUnion(Paths(ended, t), OptionalPaths(ended, f), Best(ended, t), BestOptional(ended, f));
    case Switch(cs) =>
      CasesIsMaximum(ended, cs, |cs|);
      EntriesAreCases(ended, cs);
    case ApplyTable(actions) => ActionsIsMaximum(ended, actions, |actions|);
    case CallAction(body) => BestIsMaximum(ended, body);
    case ApplyPackage(p) =>
      OptionalIsMaximum(ended, p.control);
      BestOfCalls(p, OptionalPaths(ended, p.control), BestOptional(ended, p.control));
    case Exit => IdleIsBest(!ended);
    case OtherStatement => IdleIsBest(ended);
  }

  lemma {:induction false} OptionalIsMaximum(ended: bool, o: Optional)
    ensures IsBest(OptionalPaths(ended, o), BestOptional(ended, o))
    decreases o, 1
  {
    if o.Given? { BestIsMaximum(ended, o.statement); } else { IdleIsBest(ended); }
  }

  lemma {:induction false} BlockIsMaximum(ended: bool, ss: seq<Statement>, n: nat)
    requires n <= |ss|
    ensures IsBest(BlockPaths(ended, ss, n), BestBlock(ended, ss, n))
    decreases ss, n
  {
    if n == 0 {
      IdleIsBest(ended);
    } else {
      BlockIsMaximum(true, ss, n - 1);
      BlockIsMaximum(false, ss, n - 1);
      BestIsMaximum(ended, ss[n - 1]);
      var before, last := BlockPaths(false, ss, n - 1), Paths(ended, ss[n - 1]);
      BestOfThen(before, last, BestBlock(false, ss, n - 1), Best(ended, ss[n - 1]));
      BestOfUnion(if ended then BlockPaths(true, ss, n - 1) else {}, AllThen(before, last),
                  if ended then BestBlock(true, ss, n - 1) else None,
                  ThenOf(BestBlock(false, ss, n - 1), Best(ended, ss[n - 1])));
    }
  }

  /** The paths through one of the first n cases, without falling through, or through none */
  ghost function CasePaths(ended: bool, cs: seq<Optional>, n: nat): set<Effect>
    requires n <= |cs|
  {
    if n == 0 then Idle(ended) else CasePaths(ended, cs, n - 1) + OptionalPaths(ended, cs[n - 1])
  }

  lemma {:induction false} InCasePaths(ended: bool, cs: seq<Optional>, n: nat, e: Effect)
    requires n <= |cs|
    ensures e in CasePaths(ended, cs, n)
            <==> e in Idle(ended) || exists i :: 0 <= i < n && e in OptionalPaths(ended, cs[i])
  {
    if n > 0 { InCasePaths(ended, cs, n - 1, e); }
  }

  /** Falling through adds no effect that is not the effect of entering a later case, or of entering none. */
  lemma {:induction false} EntriesAreCases(ended: bool, cs: seq<Optional>)
    ensures Paths(ended, Switch(cs)) == CasePaths(ended, cs, |cs|)
  {
    forall e ensures e in Paths(ended, Switch(cs)) <==> e in CasePaths(ended, cs, |cs|) {
      InCasePaths(ended, cs, |cs|, e);
      forall i | 0 <= i < |cs| && e in EntryPaths(ended, cs, i) ensures e in CasePaths(ended, cs, |cs|) {
        EntryInCases(ended, cs, i, e);
      }
      forall i | 0 <= i < |cs| && e in OptionalPaths(ended, cs[i]) ensures e in Paths(ended, Switch(cs)) {
        if cs[i].Given? { assert e in EntryPaths(ended, cs, i); }
      }
    }
  }

  lemma {:induction false} EntryInCases(ended: bool, cs: seq<Optional>, i: nat, e: Effect)
    requires i <= |cs| && e in EntryPaths(ended, cs, i)
    ensures e in CasePaths(ended, cs, |cs|)
    decreases |cs| - i
  {
    InCasePaths(ended, cs, |cs|, e);
    if i < |cs| && !cs[i].Given? { EntryInCases(ended, cs, i + 1, e); }
  }

  lemma {:induction false} CasesIsMaximum(ended: bool, cs: seq<Optional>, n: nat)
    requires n <= |cs|
    ensures IsBest(CasePaths(ended, cs, n), BestCases(ended, cs, n))
    decreases cs, n
  {
    if n == 0 {
      IdleIsBest(ended);
    } else {
      CasesIsMaximum(ended, cs, n - 1);
      OptionalIsMaximum(ended, cs[n - 1]);
      BestOfUnion(CasePaths(ended, cs, n - 1), OptionalPaths(ended, cs[n - 1]), BestCases(ended, cs, n - 1),
                  BestOptional(ended, cs[n - 1]));
    }
  }

  lemma {:induction false} ActionsIsMaximum(ended: bool, actions: seq<Statement>, n: nat)
    requires n <= |actions|
    ensures IsBest(ActionPaths(ended, actions, n), BestActions(ended, actions, n))
    decreases actions, n
  {
    if n == 0 {
      IdleIsBest(ended);
    } else {
      ActionsIsMaximum(ended, actions, n - 1);
      BestIsMaximum(ended, actions[n - 1]);
      BestOfUnion(ActionPaths(ended, actions, n - 1), Paths(ended, actions[n - 1]),
                  BestActions(ended, actions, n - 1), Best(ended, actions[n - 1]));
    }
  }

  lemma OverallIsMaximum(s: Statement)
    ensures IsBest(AllPaths(s), Overall(s))
  {
    BestIsMaximum(false, s);
    BestIsMaximum(true, s);
    BestOfUnion(Paths(false, s), Paths(true, s), Best(false, s), Best(true, s));
  }

  // ---- what the walk adds to its fields ----

  /** What a table makes of two of its actions. The maxima are those of Either, but the walk takes the second action as
      called after the first one as far as accumulated decreases are concerned. */
  function Alternatives(a: Effect, b: Effect): Effect {
    Then(a, b).(incr := Max(a.incr, b.incr), decr := Max(a.decr, b.decr))
  }

  /** What the walk finds for a statement: exits are ignored, and actions accumulate. */
  function Summary(s: Statement): Effect
    decreases s, 0
  {
    match s
    case CallHeader(SetValid, w) => Effect(w, 0, 0, None)
    case CallHeader(SetInvalid, w) => Effect(0, w, 0, None)
    case CallHeader(IsValid, _) => SKIP
    case Block(ss) => BlockSummary(ss, |ss|)
    case If(t, f) => Either(Summary(t), OptionalSummary(f))
    case Switch(cs) => CasesSummary(cs, |cs|)
    case ApplyTable(actions) => ActionsSummary(actions, |actions|)
    case CallAction(body) => Summary(body)
    case ApplyPackage(p) => Called(p, OptionalSummary(p.control))
    case Exit => SKIP
    case OtherStatement => SKIP
  }

  function OptionalSummary(o: Optional): Effect
    decreases o, 0
  {
    if o.Given? then Summary(o.statement) else SKIP
  }

  function BlockSummary(ss: seq<Statement>, n: nat): Effect
    requires n <= |ss|
    decreases ss, n
  {
    if n == 0 then SKIP else Then(BlockSummary(ss, n - 1), Summary(ss[n - 1]))
  }

  function CasesSummary(cs: seq<Optional>, n: nat): Effect
    requires n <= |cs|
    decreases cs, n
  {
    if n == 0 then SKIP else Either(CasesSummary(cs, n - 1), OptionalSummary(cs[n - 1]))
  }

  function ActionsSummary(actions: seq<Statement>, n: nat): Effect
    requires n <= |actions|
    decreases actions, n
  {
    if n == 0 then SKIP else Alternatives(ActionsSummary(actions, n - 1), Summary(actions[n - 1]))
  }

  // ---- the walk ----

  const UINT_LIMIT := 0x1_0000_0000

  /** Addition of unsigned values */
  function Plus(a: nat, b: nat): nat {
    if a + b < UINT_LIMIT then a + b else (a + b) % UINT_LIMIT
  }

  /** The fields of a ControlBlockInterpreter */
  datatype Lengths = Lengths(maxIncr: nat, maxDecr: nat, maxExtLen: nat, accumDecrPktLen: nat)

  /** What the visit of a statement makes of the fields */
  function Visited(s: Statement, l: Lengths): Lengths
    decreases s, 0
  {
    match s
    case CallHeader(SetValid, w) => l.(maxIncr := Plus(l.maxIncr, w))
    case CallHeader(SetInvalid, w) => l.(maxDecr := Plus(l.maxDecr, w))
    case CallHeader(IsValid, _) => l
    case Block(ss) => VisitedBlock(ss, |ss|, l)
    case If(t, f) =>
      var a := Visited(t, l);
      var b := VisitedOptional(f, l.(maxExtLen := a.maxExtLen));
      Lengths(Max(a.maxIncr, b.maxIncr), Max(a.maxDecr, b.maxDecr), b.maxExtLen,
              Max(a.accumDecrPktLen, b.accumDecrPktLen))
    case Switch(cs) => VisitedCases(cs, |cs|, l)
    case ApplyTable(actions) => VisitedActions(actions, |actions|, l)
    case CallAction(body) => Visited(body, l)
    case ApplyPackage(p) => AfterCall(p, VisitedOptional(p.control, Lengths(0, 0, 0, 0)), l)
    case Exit => l
    case OtherStatement => l
  }

  function ExtractLength(p: Package, callee: Lengths): nat {
    if p.control.Given? then Plus(OrZero(p.parser), callee.maxExtLen) else OrZero(p.parser)
  }

  /** What a call makes of the fields of the caller, from those of the walk over the control of the package */
  function AfterCall(p: Package, callee: Lengths, l: Lengths): Lengths {
    var extLen := Plus(l.accumDecrPktLen, ExtractLength(p, callee));
    Lengths(Plus(l.maxIncr, callee.maxIncr), Plus(l.maxDecr, callee.maxDecr), Max(l.maxExtLen, extLen),
            Plus(l.accumDecrPktLen, callee.maxDecr))
  }

  function VisitedOptional(o: Optional, l: Lengths): Lengths
    decreases o, 0
  {
    if o.Given? then Visited(o.statement, l) else l
  }

  function VisitedBlock(ss: seq<Statement>, n: nat, l: Lengths): Lengths
    requires n <= |ss|
    decreases ss, n
  {
    if n == 0 then l else Visited(ss[n - 1], VisitedBlock(ss, n - 1, l))
  }

  /** The largest values after n cases, each of which starts from the values before the switch, with the extract length
      found so far */
  function VisitedCases(cs: seq<Optional>, n: nat, l: Lengths): Lengths
    requires n <= |cs|
    decreases cs, n
  {
    if n == 0 then l
    else
      var a := VisitedCases(cs, n - 1, l);
      var b := VisitedOptional(cs[n - 1], l.(maxExtLen := a.maxExtLen));
      Lengths(Max(a.maxIncr, b.maxIncr), Max(a.maxDecr, b.maxDecr), b.maxExtLen,
              Max(a.accumDecrPktLen, b.accumDecrPktLen))
  }

  /** The same for actions, except that what callees make invalid accumulates over them */
  function VisitedActions(actions: seq<Statement>, n: nat, l: Lengths): Lengths
    requires n <= |actions|
    decreases actions, n
  {
    if n == 0 then l
    else
      var a := VisitedActions(actions, n - 1, l);
      var b := Visited(actions[n - 1], a.(maxIncr := l.maxIncr, maxDecr := l.maxDecr));
      b.(maxIncr := Max(a.maxIncr, b.maxIncr), maxDecr := Max(a.maxDecr, b.maxDecr))
  }

  /** What an effect adds to the fields */
  function Plussed(l: Lengths, e: Effect): Lengths {
    Lengths(l.maxIncr + e.incr, l.maxDecr + e.decr,
            if e.extract.Some? then Max(l.maxExtLen, l.accumDecrPktLen + e.extract.value) else l.maxExtLen,
            l.accumDecrPktLen + e.shrink)
  }

  /** The sum of all widths and extract lengths in a statement */
  function Weight(s: Statement): nat
    decreases s, 0
  {
    match s
    case CallHeader(_, w) => w
    case Block(ss) => TotalWeight(ss, |ss|)
    case If(t, f) => Weight(t) + OptionalWeight(f)
    case Switch(cs) => CasesWeight(cs, |cs|)
    case ApplyTable(actions) => TotalWeight(actions, |actions|)
    case CallAction(body) => Weight(body)
    case ApplyPackage(p) => OrZero(p.parser) + OptionalWeight(p.control)
    case Exit => 0
    case OtherStatement => 0
  }

  function OptionalWeight(o: Optional): nat
    decreases o, 0
  {
    if o.Given? then Weight(o.statement) else 0
  }

  function TotalWeight(ss: seq<Statement>, n: nat): nat
    requires n <= |ss|
    decreases ss, n
  {
    if n == 0 then 0 else TotalWeight(ss, n - 1) + Weight(ss[n - 1])
  }

  function CasesWeight(cs: seq<Optional>, n: nat): nat
    requires n <= |cs|
    decreases cs, n
  {
    if n == 0 then 0 else CasesWeight(cs, n - 1) + OptionalWeight(cs[n - 1])
  }

  predicate Within(e: Effect, w: nat) {
    e.incr <= w && e.decr <= w && e.shrink <= w && OrZero(e.extract) <= w
  }

  predicate Fits(l: Lengths, w: nat) {
    && l.maxIncr + w < 0x1_0000_0000 && l.maxDecr + w < 0x1_0000_0000 && l.accumDecrPktLen + w < 0x1_0000_0000
  }

  lemma FitsLess(l: Lengths, x: Effect, w: nat, v: nat)
    requires Fits(l, w + v) && Within(x, w)
    ensures Fits(l, w) && Fits(l, v) && Fits(Plussed(l, x), v)
  {
  }

  lemma ThenAdds(l: Lengths, x: Effect, y: Effect, w: nat, v: nat)
    requires Within(x, w) && Within(y, v)
    ensures Plussed(Plussed(l, x), y) == Plussed(l, Then(x, y))
    ensures Within(Then(x, y), w + v) && Within(Either(x, y), w + v) && Within(Alternatives(x, y), w + v)
  {
  }

  lemma EitherAdds(l: Lengths, x: Effect, y: Effect)
    ensures var a, b := Plussed(l, x), Plussed(l.(maxExtLen := Plussed(l, x).maxExtLen), y);
            Lengths(Max(a.maxIncr, b.maxIncr), Max(a.maxDecr, b.maxDecr), b.maxExtLen,
                    Max(a.accumDecrPktLen, b.accumDecrPktLen)) == Plussed(l, Either(x, y))
  {
  }

  lemma AlternativesAdd(l: Lengths, x: Effect, y: Effect)
    ensures var a := Plussed(l, x);
            var b := Plussed(a.(maxIncr := l.maxIncr, maxDecr := l.maxDecr), y);
            b.(maxIncr := Max(a.maxIncr, b.maxIncr), maxDecr := Max(a.maxDecr, b.maxDecr))
            == Plussed(l, Alternatives(x, y))
  {
  }

  lemma ExtractFits(p: Package, x: Effect, w: nat)
    requires Within(x, w) && OrZero(p.parser) + w < 0x1_0000_0000 && (p.control.Missing? ==> x == SKIP)
    ensures ExtractLength(p, Plussed(Lengths(0, 0, 0, 0), x)) == OrZero(p.parser) + OrZero(x.extract)
  {
  }

  lemma {:induction false} CallAdds(p: Package, l: Lengths, x: Effect, w: nat)
    requires Within(x, w) && Fits(l, OrZero(p.parser) + w) && (p.control.Missing? ==> x == SKIP)
    ensures AfterCall(p, Plussed(Lengths(0, 0, 0, 0), x), l) == Plussed(l, Called(p, x))
    ensures Within(Called(p, x), OrZero(p.parser) + w)
  {
    ExtractFits(p, x, w);
  }

  /** As long as the sum of all widths does not reach 2^32, the walk adds to its fields what the structure gives. */
  lemma {:induction false} WalkAddsSummary(s: Statement, l: Lengths)
    requires Fits(l, Weight(s))
    ensures Visited(s, l) == Plussed(l, Summary(s)) && Within(Summary(s), Weight(s))
    decreases s, 1
  {
    match s
    case CallHeader(_, w) =>
    case Block(ss) => BlockAddsSummary(ss, |ss|, l);
    case If(t, f) => BranchesAddSummary(t, f, l);
    case Switch(cs) => CasesAddSummary(cs, |cs|, l);
    case ApplyTable(actions) => ActionsAddSummary(actions, |actions|, l);
    case CallAction(body) => WalkAddsSummary(body, l);
    case ApplyPackage(p) =>
      hide Plus, Plussed, Called, AfterCall, Fits, Within;
      assert Fits(Lengths(0, 0, 0, 0), OptionalWeight(p.control)) by { FitsZero(p, l); }
      OptionalAddsSummary(p.control, Lengths(0, 0, 0, 0));
      CallAdds(p, l, OptionalSummary(p.control), OptionalWeight(p.control));
    case Exit =>
    case OtherStatement =>
  }

  lemma FitsZero(p: Package, l: Lengths)
    requires Fits(l, OrZero(p.parser) + OptionalWeight(p.control))
    ensures Fits(Lengths(0, 0, 0, 0), OptionalWeight(p.control))
  {
  }

  lemma {:induction false} BranchesAddSummary(t: Statement, f: Optional, l: Lengths)
    requires Fits(l, Weight(If(t, f)))
    ensures Visited(If(t, f), l) == Plussed(l, Summary(If(t, f))) && Within(Summary(If(t, f)), Weight(If(t, f)))
    decreases If(t, f), 0
  {
    var x, y := Summary(t), OptionalSummary(f);
    FitsLess(l, SKIP, Weight(t), OptionalWeight(f));
    WalkAddsSummary(t, l);
    OptionalAddsSummary(f, l.(maxExtLen := Visited(t, l).maxExtLen));
    hide Plussed, Either, Then, Alternatives, Within;
    EitherAdds(l, x, y);
    ThenAdds(l, x, y, Weight(t), OptionalWeight(f));
  }

  lemma {:induction false} OptionalAddsSummary(o: Optional, l: Lengths)
    requires Fits(l, OptionalWeight(o))
    ensures VisitedOptional(o, l) == Plussed(l, OptionalSummary(o))
    ensures Within(OptionalSummary(o), OptionalWeight(o))
    decreases o, 1
  {
    if o.Given? { WalkAddsSummary(o.statement, l); }
  }

  lemma {:induction false} BlockAddsSummary(ss: seq<Statement>, n: nat, l: Lengths)
    requires n <= |ss| && Fits(l, TotalWeight(ss, n))
    ensures VisitedBlock(ss, n, l) == Plussed(l, BlockSummary(ss, n))
    ensures Within(BlockSummary(ss, n), TotalWeight(ss, n))
    decreases ss, n
  {
    if n > 0 {
      var x, y, w, v := BlockSummary(ss, n - 1), Summary(ss[n - 1]), TotalWeight(ss, n - 1), Weight(ss[n - 1]);
      hide Plussed, Either, Then, Alternatives, Within, Fits;
      SkipIsWithin(w);
      FitsLess(l, SKIP, w, v);
      BlockAddsSummary(ss, n - 1, l);
      FitsLess(l, x, w, v);
      WalkAddsSummary(ss[n - 1], Plussed(l, x));
      ThenAdds(l, x, y, w, v);
    }
  }

  lemma SkipIsWithin(w: nat)
    ensures Within(SKIP, w)
  {
  }

  lemma {:induction false} CasesAddSummary(cs: seq<Optional>, n: nat, l: Lengths)
    requires n <= |cs| && Fits(l, CasesWeight(cs, n))
    ensures VisitedCases(cs, n, l) == Plussed(l, CasesSummary(cs, n))
    ensures Within(CasesSummary(cs, n), CasesWeight(cs, n))
    decreases cs, n
  {
    if n > 0 {
      var x, y := CasesSummary(cs, n - 1), OptionalSummary(cs[n - 1]);
      FitsLess(l, SKIP, CasesWeight(cs, n - 1), OptionalWeight(cs[n - 1]));
      CasesAddSummary(cs, n - 1, l);
      OptionalAddsSummary(cs[n - 1], l.(maxExtLen := VisitedCases(cs, n - 1, l).maxExtLen));
      hide Plussed, Either, Then, Alternatives, Within, Fits;
      EitherAdds(l, x, y);
      ThenAdds(l, x, y, CasesWeight(cs, n - 1), OptionalWeight(cs[n - 1]));
    }
  }

  lemma {:induction false} ActionsAddSummary(actions: seq<Statement>, n: nat, l: Lengths)
    requires n <= |actions| && Fits(l, TotalWeight(actions, n))
    ensures VisitedActions(actions, n, l) == Plussed(l, ActionsSummary(actions, n))
    ensures Within(ActionsSummary(actions, n), TotalWeight(actions, n))
    decreases actions, n
  {
    if n > 0 {
      var x, y := ActionsSummary(actions, n - 1), Summary(actions[n - 1]);
      FitsLess(l, SKIP, TotalWeight(actions, n - 1), Weight(actions[n - 1]));
      ActionsAddSummary(actions, n - 1, l);
      var a := VisitedActions(actions, n - 1, l);
      WalkAddsSummary(actions[n - 1], a.(maxIncr := l.maxIncr, maxDecr := l.maxDecr));
      hide Plussed, Either, Then, Alternatives, Within, Fits;
      AlternativesAdd(l, x, y);
      ThenAdds(l, x, y, TotalWeight(actions, n - 1), Weight(actions[n - 1]));
    }
  }
}
