/** What the walk finds (midend/controlBlockInterpreter.cpp, midend/composablePackageInterpreter.cpp) is never less than
    what a path does, and from what it finds for the parts of a body one can tell whether a path does as much. */
module PacketLengthAttained {
  import opened Wrappers
  import opened PacketLength

  // ---- the walk never falls short ----

  predicate Covered(o: Option<Effect>, e: Effect) {
    o.Some? ==> AtMost(o.value, e)
  }

  lemma CoveredThen(a: Option<Effect>, b: Option<Effect>, x: Effect, y: Effect)
    requires Covered(a, x) && Covered(b, y)
    ensures Covered(ThenOf(a, b), Then(x, y)) && Covered(a, Then(x, y))
  {
  }

  lemma CoveredEither(a: Option<Effect>, b: Option<Effect>, x: Effect)
    requires Covered(a, x) && Covered(b, x)
    ensures Covered(EitherOf(a, b), x)
  {
  }

  lemma EitherAtMost(x: Effect, y: Effect)
    ensures AtMost(x, Either(x, y)) && AtMost(y, Either(x, y))
    ensures AtMost(x, Alternatives(x, y)) && AtMost(y, Alternatives(x, y))
  {
  }

  lemma CoveredByLarger(a: Option<Effect>, x: Effect, y: Effect)
    requires Covered(a, x) && AtMost(x, y)
    ensures Covered(a, y)
  {
  }

  lemma {:induction false} WalkCovers(ended: bool, s: Statement)
    ensures Covered(Best(ended, s), Summary(s))
    decreases s, 1
  {
    match s
    case CallHeader(_, _) =>
    case Block(ss) => BlockCovers(ended, ss, |ss|);
    case If(t, f) =>
      WalkCovers(ended, t);
      OptionalCovers(ended, f);
      CoveredByEither(Best(ended, t), BestOptional(ended, f), Summary(t), OptionalSummary(f));
    case Switch(cs) => CasesCover(ended, cs, |cs|);
    case ApplyTable(actions) => ActionsCover(ended, actions, |actions|);
    case CallAction(body) => WalkCovers(ended, body);
    case ApplyPackage(p) => OptionalCovers(ended, p.control);
    case Exit =>
    case OtherStatement =>
  }

  lemma CoveredByEither(a: Option<Effect>, b: Option<Effect>, x: Effect, y: Effect)
    requires Covered(a, x) && Covered(b, y)
    ensures Covered(EitherOf(a, b), Either(x, y)) && Covered(EitherOf(a, b), Alternatives(x, y))
  {
    EitherAtMost(x, y);
    CoveredByLarger(a, x, Either(x, y));
    CoveredByLarger(b, y, Either(x, y));
    CoveredEither(a, b, Either(x, y));
    CoveredByLarger(a, x, Alternatives(x, y));
    CoveredByLarger(b, y, Alternatives(x, y));
    CoveredEither(a, b, Alternatives(x, y));
  }

  lemma {:induction false} OptionalCovers(ended: bool, o: Optional)
    ensures Covered(BestOptional(ended, o), OptionalSummary(o))
    decreases o, 1
  {
    if o.Given? { WalkCovers(ended, o.statement); }
  }

  lemma {:induction false} BlockCovers(ended: bool, ss: seq<Statement>, n: nat)
    requires n <= |ss|
    ensures Covered(BestBlock(ended, ss, n), BlockSummary(ss, n))
    decreases ss, n
  {
    if n > 0 {
      BlockCovers(true, ss, n - 1);
      BlockCovers(false, ss, n - 1);
      WalkCovers(ended, ss[n - 1]);
      var before, last := BlockSummary(ss, n - 1), Summary(ss[n - 1]);
      CoveredThen(BestBlock(false, ss, n - 1), Best(ended, ss[n - 1]), before, last);
      CoveredThen(BestBlock(true, ss, n - 1), Best(ended, ss[n - 1]), before, last);
      CoveredEither(if ended then BestBlock(true, ss, n - 1) else None,
                    ThenOf(BestBlock(false, ss, n - 1), Best(ended, ss[n - 1])), Then(before, last));
    }
  }

  lemma {:induction false} CasesCover(ended: bool, cs: seq<Optional>, n: nat)
    requires n <= |cs|
    ensures Covered(BestCases(ended, cs, n), CasesSummary(cs, n))
    decreases cs, n
  {
    if n > 0 {
      CasesCover(ended, cs, n - 1);
      OptionalCovers(ended, cs[n - 1]);
      CoveredByEither(BestCases(ended, cs, n - 1), BestOptional(ended, cs[n - 1]), CasesSummary(cs, n - 1),
                      OptionalSummary(cs[n - 1]));
    }
  }

  lemma {:induction false} ActionsCover(ended: bool, actions: seq<Statement>, n: nat)
    requires n <= |actions|
    ensures Covered(BestActions(ended, actions, n), ActionsSummary(actions, n))
    decreases actions, n
  {
    if n > 0 {
      ActionsCover(ended, actions, n - 1);
      WalkCovers(ended, actions[n - 1]);
      CoveredByEither(BestActions(ended, actions, n - 1), Best(ended, actions[n - 1]), ActionsSummary(actions, n - 1),
                      Summary(actions[n - 1]));
    }
  }

  // ---- there is always a path ----

  lemma {:induction false} SomePath(s: Statement)
    ensures Overall(s).Some? && AtMost(Overall(s).value, Summary(s))
    decreases s, 1
  {
    WalkCovers(false, s);
    WalkCovers(true, s);
    CoveredEither(Best(false, s), Best(true, s), Summary(s));
    match s
    case Block(ss) => SomeBlockPath(ss, |ss|);
    case If(t, f) => SomePath(t);
    case Switch(cs) => SomeCasePath(cs, |cs|);
    case ApplyTable(actions) => SomeActionPath(actions, |actions|);
    case CallAction(body) => SomePath(body);
    case ApplyPackage(p) => SomeOptionalPath(p.control);
    case _ =>
  }

  lemma {:induction false} SomeOptionalPath(o: Optional)
    ensures BestOptional(false, o).Some? || BestOptional(true, o).Some?
    decreases o, 1
  {
    if o.Given? { SomePath(o.statement); }
  }

  lemma {:induction false} SomeBlockPath(ss: seq<Statement>, n: nat)
    requires n <= |ss|
    ensures BestBlock(false, ss, n).Some? || BestBlock(true, ss, n).Some?
    decreases ss, n
  {
    if n > 0 {
      SomeBlockPath(ss, n - 1);
      SomePath(ss[n - 1]);
    }
  }

  lemma {:induction false} SomeCasePath(cs: seq<Optional>, n: nat)
    requires n <= |cs|
    ensures BestCases(false, cs, n).Some?
  {
    if n > 0 { SomeCasePath(cs, n - 1); }
  }

  lemma {:induction false} SomeActionPath(actions: seq<Statement>, n: nat)
    requires n <= |actions|
    ensures BestActions(false, actions, n).Some?
  {
    if n > 0 { SomeActionPath(actions, n - 1); }
  }

  /** The maxima over all paths through a statement */
  function Total(s: Statement): Effect {
    if Overall(s).Some? then Overall(s).value else SKIP
  }

  /** What the walk finds for a statement is the maximum over its paths. */
  predicate IsExact(s: Statement) {
    Overall(s) == Some(Summary(s))
  }

  // ---- what the walk finds, and whether a path gets it ----

  datatype Part = Incr | Decr | Shrink

  function Of(part: Part, e: Effect): nat {
    match part
    case Incr => e.incr
    case Decr => e.decr
    case Shrink => e.shrink
  }

  function Found(part: Part, s: Statement): nat {
    Of(part, Summary(s))
  }

  /** One of two alternatives is the larger one, and gets what is found for it. */
  predicate LargerGets(aGets: bool, a: nat, bGets: bool, b: nat) {
    (aGets && a >= b) || (bGets && b >= a)
  }

  /** Whether some path through a statement, or some path that also reaches its end (goesOn), makes as much valid or
      invalid as the walk finds. This is told from what the walk finds for the parts of the statement: a sequence is
      passed when all its statements are; a path that does not pass the next statement may leave behind only what
      counts nothing; one of the largest alternatives has to get its own; and of the actions of a table only one may
      have callees that make anything invalid, since the walk adds this up. */
  predicate Gets(part: Part, goesOn: bool, s: Statement)
    decreases s, 0
  {
    match s
    case Block(ss) => BlockGets(part, goesOn, ss, |ss|)
    case If(t, f) => LargerGets(Gets(part, goesOn, t), Found(part, t), OptionalGets(part, goesOn, f),
                                Of(part, OptionalSummary(f)))
    case Switch(cs) => CasesGet(part, goesOn, cs, |cs|)
    case ApplyTable(actions) => ActionsGet(part, goesOn, actions, |actions|)
    case CallAction(body) => Gets(part, goesOn, body)
    case ApplyPackage(p) => OptionalGets(if part == Incr then Incr else Decr, goesOn, p.control)
    case Exit => !goesOn
    case _ => true
  }

  predicate OptionalGets(part: Part, goesOn: bool, o: Optional)
    decreases o, 0
  {
    o.Given? ==> Gets(part, goesOn, o.statement)
  }

  predicate BlockGets(part: Part, goesOn: bool, ss: seq<Statement>, n: nat)
    requires n <= |ss|
    decreases ss, n
  {
    n == 0
    || (BlockGets(part, true, ss, n - 1) && Gets(part, goesOn, ss[n - 1]))
    || (!goesOn && BlockGets(part, false, ss, n - 1) && Found(part, ss[n - 1]) == 0)
  }

  predicate CasesGet(part: Part, goesOn: bool, cs: seq<Optional>, n: nat)
    requires n <= |cs|
    decreases cs, n
  {
    n == 0
    || LargerGets(CasesGet(part, goesOn, cs, n - 1), Of(part, CasesSummary(cs, n - 1)),
                  OptionalGets(part, goesOn, cs[n - 1]), Of(part, OptionalSummary(cs[n - 1])))
  }

  predicate ActionsGet(part: Part, goesOn: bool, actions: seq<Statement>, n: nat)
    requires n <= |actions|
    decreases actions, n
  {
    n == 0
    || var before, last := Of(part, ActionsSummary(actions, n - 1)), Found(part, actions[n - 1]);
       if part == Shrink then
         || (ActionsGet(part, goesOn, actions, n - 1) && last == 0)
         || (Gets(part, goesOn, actions[n - 1]) && before == 0)
       else
         LargerGets(ActionsGet(part, goesOn, actions, n - 1), before, Gets(part, goesOn, actions[n - 1]), last)
  }

  /** The same of two extract lengths */
  predicate LongerGets(aGets: bool, a: Option<nat>, bGets: bool, b: Option<nat>) {
    (aGets && ExtractAtMost(b, a)) || (bGets && ExtractAtMost(a, b))
  }

  /** Whether some path through a statement extracts as much as the walk finds. A statement in a sequence has to come
      after all that is counted for those before it; an action only after nothing. */
  predicate Extracts(s: Statement)
    decreases s, 0
  {
    match s
    case Block(ss) => BlockExtracts(ss, |ss|)
    case If(t, f) => LongerGets(Extracts(t), Summary(t).extract, OptionalExtracts(f), OptionalSummary(f).extract)
    case Switch(cs) => CasesExtract(cs, |cs|)
    case ApplyTable(actions) => ActionsExtract(actions, |actions|)
    case CallAction(body) => Extracts(body)
    case ApplyPackage(p) => OptionalExtracts(p.control) || OrZero(OptionalSummary(p.control).extract) == 0
    case _ => true
  }

  predicate OptionalExtracts(o: Optional)
    decreases o, 0
  {
    o.Given? ==> Extracts(o.statement)
  }

  predicate BlockExtracts(ss: seq<Statement>, n: nat)
    requires n <= |ss|
    decreases ss, n
  {
    n == 0
    || var before, last := BlockSummary(ss, n - 1), Summary(ss[n - 1]).extract;
       LongerGets(BlockExtracts(ss, n - 1), before.extract,
                  BlockGets(Shrink, true, ss, n - 1) && Extracts(ss[n - 1]), Later(before.shrink, last))
  }

  predicate CasesExtract(cs: seq<Optional>, n: nat)
    requires n <= |cs|
    decreases cs, n
  {
    n == 0
    || LongerGets(CasesExtract(cs, n - 1), CasesSummary(cs, n - 1).extract,
                  OptionalExtracts(cs[n - 1]), OptionalSummary(cs[n - 1]).extract)
  }

  predicate ActionsExtract(actions: seq<Statement>, n: nat)
    requires n <= |actions|
    decreases actions, n
  {
    n == 0
    || var before, last := ActionsSummary(actions, n - 1), Summary(actions[n - 1]).extract;
       LongerGets(ActionsExtract(actions, n - 1), before.extract,
                  before.shrink == 0 && Extracts(actions[n - 1]), Later(before.shrink, last))
  }

  // ---- how maxima combine ----

  lemma EitherCommutes(a: Option<Effect>, b: Option<Effect>)
    ensures EitherOf(a, b) == EitherOf(b, a)
  {
  }

  lemma EitherAssociates(a: Option<Effect>, b: Option<Effect>, c: Option<Effect>)
    ensures EitherOf(EitherOf(a, b), c) == EitherOf(a, EitherOf(b, c))
  {
  }

  lemma EitherShuffle(a: Option<Effect>, b: Option<Effect>, c: Option<Effect>, d: Option<Effect>)
    ensures EitherOf(EitherOf(a, b), EitherOf(c, d)) == EitherOf(EitherOf(a, c), EitherOf(b, d))
  {
    hide EitherOf;
    EitherAssociates(a, b, EitherOf(c, d));
    EitherAssociates(b, c, d);
    EitherCommutes(b, c);
    EitherAssociates(c, b, d);
    EitherAssociates(a, c, EitherOf(b, d));
  }

  /** The maxima are what is found. */
  predicate IsGot(part: Part, most: Option<Effect>, found: Effect) {
    most.Some? && Of(part, most.value) == Of(part, found)
  }

  lemma EitherGot(part: Part, a: Option<Effect>, b: Option<Effect>, x: Effect, y: Effect)
    requires Covered(a, x) && Covered(b, y)
    ensures IsGot(part, EitherOf(a, b), Either(x, y))
            <==> LargerGets(IsGot(part, a, x), Of(part, x), IsGot(part, b, y), Of(part, y))
  {
  }

  lemma ThenGot(part: Part, a: Option<Effect>, b: Option<Effect>, x: Effect, y: Effect)
    requires Covered(a, x) && Covered(b, y)
    ensures IsGot(part, ThenOf(a, b), Then(x, y)) <==> IsGot(part, a, x) && IsGot(part, b, y)
  {
  }

  /** After a sequence of which some paths ended (c) and some went on (a) */
  lemma EndsOrThenGot(part: Part, a: Option<Effect>, c: Option<Effect>, b: Option<Effect>, x: Effect, y: Effect)
    requires Covered(a, x) && Covered(c, x) && Covered(b, y) && b.Some?
    ensures IsGot(part, EitherOf(c, ThenOf(a, b)), Then(x, y))
            <==> (IsGot(part, a, x) && IsGot(part, b, y)) || (IsGot(part, EitherOf(a, c), x) && Of(part, y) == 0)
  {
  }

  lemma AlternativesGot(a: Option<Effect>, b: Option<Effect>, x: Effect, y: Effect)
    requires Covered(a, x) && Covered(b, y)
    ensures IsGot(Shrink, EitherOf(a, b), Alternatives(x, y))
            <==> (IsGot(Shrink, a, x) && y.shrink == 0) || (IsGot(Shrink, b, y) && x.shrink == 0)
  {
  }

  predicate IsExtracted(most: Option<Effect>, found: Effect) {
    most.Some? && most.value.extract == found.extract
  }

  lemma EitherExtracted(a: Option<Effect>, b: Option<Effect>, x: Effect, y: Effect)
    requires Covered(a, x) && Covered(b, y) && a.Some? && b.Some?
    ensures IsExtracted(EitherOf(a, b), Either(x, y))
            <==> LongerGets(IsExtracted(a, x), x.extract, IsExtracted(b, y), y.extract)
  {
  }

  lemma EndsOrThenExtracted(a: Option<Effect>, c: Option<Effect>, b: Option<Effect>, x: Effect, y: Effect)
    requires Covered(a, x) && Covered(c, x) && Covered(b, y) && b.Some? && (a.Some? || c.Some?)
    ensures IsExtracted(EitherOf(c, ThenOf(a, b)), Then(x, y))
            <==> LongerGets(IsExtracted(EitherOf(a, c), x), x.extract,
                            IsGot(Shrink, a, x) && IsExtracted(b, y), Later(x.shrink, y.extract))
  {
  }

  lemma AlternativesExtracted(a: Option<Effect>, b: Option<Effect>, x: Effect, y: Effect)
    requires Covered(a, x) && Covered(b, y) && a.Some? && b.Some?
    ensures IsExtracted(EitherOf(a, b), Alternatives(x, y))
            <==> LongerGets(IsExtracted(a, x), x.extract, x.shrink == 0 && IsExtracted(b, y),
                            Later(x.shrink, y.extract))
  {
  }

  // ---- the maxima along the structure ----

  /** The maxima over the paths that reach the end, or over all paths */
  function Most(goesOn: bool, s: Statement): Option<Effect> {
    if goesOn then Best(false, s) else Overall(s)
  }

  function MostOptional(goesOn: bool, o: Optional): Option<Effect> {
    if goesOn then BestOptional(false, o) else EitherOf(BestOptional(false, o), BestOptional(true, o))
  }

  function MostBlock(goesOn: bool, ss: seq<Statement>, n: nat): Option<Effect>
    requires n <= |ss|
  {
    if goesOn then BestBlock(false, ss, n) else EitherOf(BestBlock(false, ss, n), BestBlock(true, ss, n))
  }

  function MostCases(goesOn: bool, cs: seq<Optional>, n: nat): Option<Effect>
    requires n <= |cs|
  {
    if goesOn then BestCases(false, cs, n) else EitherOf(BestCases(false, cs, n), BestCases(true, cs, n))
  }

  function MostActions(goesOn: bool, actions: seq<Statement>, n: nat): Option<Effect>
    requires n <= |actions|
  {
    if goesOn then BestActions(false, actions, n)
    else EitherOf(BestActions(false, actions, n), BestActions(true, actions, n))
  }

  lemma MostCovered(goesOn: bool, s: Statement)
    ensures Covered(Most(goesOn, s), Summary(s)) && (!goesOn ==> Most(goesOn, s).Some?)
  {
    WalkCovers(false, s);
    SomePath(s);
  }

  lemma MostOptionalCovered(goesOn: bool, o: Optional)
    ensures Covered(MostOptional(goesOn, o), OptionalSummary(o)) && (!goesOn ==> MostOptional(goesOn, o).Some?)
  {
    if o.Given? { MostCovered(goesOn, o.statement); }
  }

  lemma MostBlockCovered(goesOn: bool, ss: seq<Statement>, n: nat)
    requires n <= |ss|
    ensures Covered(MostBlock(goesOn, ss, n), BlockSummary(ss, n)) && (!goesOn ==> MostBlock(goesOn, ss, n).Some?)
  {
    BlockCovers(false, ss, n);
    BlockCovers(true, ss, n);
    SomeBlockPath(ss, n);
    CoveredEither(BestBlock(false, ss, n), BestBlock(true, ss, n), BlockSummary(ss, n));
  }

  lemma MostCasesCovered(goesOn: bool, cs: seq<Optional>, n: nat)
    requires n <= |cs|
    ensures Covered(MostCases(goesOn, cs, n), CasesSummary(cs, n)) && (!goesOn ==> MostCases(goesOn, cs, n).Some?)
  {
    CasesCover(false, cs, n);
    CasesCover(true, cs, n);
    SomeCasePath(cs, n);
    CoveredEither(BestCases(false, cs, n), BestCases(true, cs, n), CasesSummary(cs, n));
  }

  lemma MostActionsCovered(goesOn: bool, actions: seq<Statement>, n: nat)
    requires n <= |actions|
    ensures Covered(MostActions(goesOn, actions, n), ActionsSummary(actions, n))
    ensures !goesOn ==> MostActions(goesOn, actions, n).Some?
  {
    ActionsCover(false, actions, n);
    ActionsCover(true, actions, n);
    SomeActionPath(actions, n);
    CoveredEither(BestActions(false, actions, n), BestActions(true, actions, n), ActionsSummary(actions, n));
  }

  lemma MostIf(goesOn: bool, t: Statement, f: Optional)
    ensures Most(goesOn, If(t, f)) == EitherOf(Most(goesOn, t), MostOptional(goesOn, f))
  {
    EitherShuffle(Best(false, t), BestOptional(false, f), Best(true, t), BestOptional(true, f));
  }

  lemma CalledEither(p: Package, a: Option<Effect>, b: Option<Effect>)
    ensures CalledOf(p, EitherOf(a, b)) == EitherOf(CalledOf(p, a), CalledOf(p, b))
  {
  }

  lemma MostCall(goesOn: bool, p: Package)
    ensures Most(goesOn, ApplyPackage(p)) == CalledOf(p, MostOptional(goesOn, p.control))
  {
    hide CalledOf, EitherOf, BestOptional;
    CalledEither(p, BestOptional(false, p.control), BestOptional(true, p.control));
  }

  lemma MoreCases(goesOn: bool, cs: seq<Optional>, n: nat)
    requires 0 < n <= |cs|
    ensures MostCases(goesOn, cs, n) == EitherOf(MostCases(goesOn, cs, n - 1), MostOptional(goesOn, cs[n - 1]))
  {
    EitherShuffle(BestCases(false, cs, n - 1), BestOptional(false, cs[n - 1]), BestCases(true, cs, n - 1),
                  BestOptional(true, cs[n - 1]));
  }

  lemma MoreActions(goesOn: bool, actions: seq<Statement>, n: nat)
    requires 0 < n <= |actions|
    ensures MostActions(goesOn, actions, n)
            == EitherOf(MostActions(goesOn, actions, n - 1), Most(goesOn, actions[n - 1]))
  {
    EitherShuffle(BestActions(false, actions, n - 1), Best(false, actions[n - 1]), BestActions(true, actions, n - 1),
                  Best(true, actions[n - 1]));
  }

  lemma ThenOfEither(a: Option<Effect>, b: Option<Effect>, c: Option<Effect>)
    ensures EitherOf(ThenOf(a, b), ThenOf(a, c)) == ThenOf(a, EitherOf(b, c))
  {
  }

  lemma MoreBlock(ss: seq<Statement>, n: nat)
    requires 0 < n <= |ss|
    ensures MostBlock(true, ss, n) == ThenOf(MostBlock(true, ss, n - 1), Most(true, ss[n - 1]))
    ensures MostBlock(false, ss, n)
            == EitherOf(BestBlock(true, ss, n - 1), ThenOf(MostBlock(true, ss, n - 1), Most(false, ss[n - 1])))
  {
    var through, ended, s := BestBlock(false, ss, n - 1), BestBlock(true, ss, n - 1), ss[n - 1];
    var a, b := ThenOf(through, Best(false, s)), ThenOf(through, Best(true, s));
    assert BestBlock(false, ss, n) == a && BestBlock(true, ss, n) == EitherOf(ended, b);
    ThenOfEither(through, Best(false, s), Best(true, s));
    EitherCommutes(a, EitherOf(ended, b));
    EitherAssociates(ended, b, a);
    EitherCommutes(b, a);
  }

  // ---- the conditions are exact ----

  lemma {:induction false} GetsExactly(part: Part, goesOn: bool, s: Statement)
    ensures Gets(part, goesOn, s) <==> IsGot(part, Most(goesOn, s), Summary(s))
    decreases s, 1
  {
    match s
    case Block(ss) => BlockGetsExactly(part, goesOn, ss, |ss|);
    case If(t, f) =>
      GetsExactly(part, goesOn, t);
      OptionalGetsExactly(part, goesOn, f);
      MostIf(goesOn, t, f);
      MostCovered(goesOn, t);
      MostOptionalCovered(goesOn, f);
      EitherGot(part, Most(goesOn, t), MostOptional(goesOn, f), Summary(t), OptionalSummary(f));
    case Switch(cs) => CasesGetExactly(part, goesOn, cs, |cs|);
    case ApplyTable(actions) => ActionsGetExactly(part, goesOn, actions, |actions|);
    case CallAction(body) => GetsExactly(part, goesOn, body);
    case ApplyPackage(p) =>
      OptionalGetsExactly(if part == Incr then Incr else Decr, goesOn, p.control);
      MostCall(goesOn, p);
    case CallHeader(_, _) =>
    case Exit =>
    case OtherStatement =>
  }

  lemma {:induction false} OptionalGetsExactly(part: Part, goesOn: bool, o: Optional)
    ensures OptionalGets(part, goesOn, o) <==> IsGot(part, MostOptional(goesOn, o), OptionalSummary(o))
    decreases o, 1
  {
    if o.Given? { GetsExactly(part, goesOn, o.statement); }
  }

  lemma {:induction false} BlockGetsExactly(part: Part, goesOn: bool, ss: seq<Statement>, n: nat)
    requires n <= |ss|
    ensures BlockGets(part, goesOn, ss, n) <==> IsGot(part, MostBlock(goesOn, ss, n), BlockSummary(ss, n))
    decreases ss, n
  {
    hide Gets, Best, Summary, Most, IsGot, ThenOf, EitherOf, Then;
    if n > 0 {
      var before, last := BlockSummary(ss, n - 1), Summary(ss[n - 1]);
      BlockGetsExactly(part, true, ss, n - 1);
      GetsExactly(part, goesOn, ss[n - 1]);
      MoreBlock(ss, n);
      MostCovered(goesOn, ss[n - 1]);
      BlockCovers(false, ss, n - 1);
      if goesOn {
        ThenGot(part, MostBlock(true, ss, n - 1), Most(true, ss[n - 1]), before, last);
      } else {
        BlockGetsExactly(part, false, ss, n - 1);
        BlockCovers(true, ss, n - 1);
        EndsOrThenGot(part, BestBlock(false, ss, n - 1), BestBlock(true, ss, n - 1), Most(false, ss[n - 1]), before,
                      last);
      }
    } else {
      NothingGot(part, goesOn);
    }
  }

  lemma NothingGot(part: Part, goesOn: bool)
    ensures IsGot(part, BestIdle(false), SKIP) && IsGot(part, EitherOf(BestIdle(false), BestIdle(true)), SKIP)
  {
  }

  lemma {:induction false} CasesGetExactly(part: Part, goesOn: bool, cs: seq<Optional>, n: nat)
    requires n <= |cs|
    ensures CasesGet(part, goesOn, cs, n) <==> IsGot(part, MostCases(goesOn, cs, n), CasesSummary(cs, n))
    decreases cs, n
  {
    if n > 0 {
      CasesGetExactly(part, goesOn, cs, n - 1);
      OptionalGetsExactly(part, goesOn, cs[n - 1]);
      MoreCases(goesOn, cs, n);
      MostCasesCovered(goesOn, cs, n - 1);
      MostOptionalCovered(goesOn, cs[n - 1]);
      EitherGot(part, MostCases(goesOn, cs, n - 1), MostOptional(goesOn, cs[n - 1]), CasesSummary(cs, n - 1),
                OptionalSummary(cs[n - 1]));
    }
  }

  lemma {:induction false} ActionsGetExactly(part: Part, goesOn: bool, actions: seq<Statement>, n: nat)
    requires n <= |actions|
    ensures ActionsGet(part, goesOn, actions, n)
            <==> IsGot(part, MostActions(goesOn, actions, n), ActionsSummary(actions, n))
    decreases actions, n
  {
    if n > 0 {
      var before, last := ActionsSummary(actions, n - 1), Summary(actions[n - 1]);
      ActionsGetExactly(part, goesOn, actions, n - 1);
      GetsExactly(part, goesOn, actions[n - 1]);
      MoreActions(goesOn, actions, n);
      MostActionsCovered(goesOn, actions, n - 1);
      MostCovered(goesOn, actions[n - 1]);
      if part == Shrink {
        AlternativesGot(MostActions(goesOn, actions, n - 1), Most(goesOn, actions[n - 1]), before, last);
      } else {
        EitherGot(part, MostActions(goesOn, actions, n - 1), Most(goesOn, actions[n - 1]), before, last);
      }
    }
  }

  lemma {:induction false} ExtractsExactly(s: Statement)
    ensures Extracts(s) <==> IsExtracted(Overall(s), Summary(s))
    decreases s, 1
  {
    match s
    case Block(ss) => BlockExtractsExactly(ss, |ss|);
    case If(t, f) =>
      ExtractsExactly(t);
      OptionalExtractsExactly(f);
      MostIf(false, t, f);
      MostCovered(false, t);
      MostOptionalCovered(false, f);
      EitherExtracted(Most(false, t), MostOptional(false, f), Summary(t), OptionalSummary(f));
    case Switch(cs) => CasesExtractExactly(cs, |cs|);
    case ApplyTable(actions) => ActionsExtractExactly(actions, |actions|);
    case CallAction(body) => ExtractsExactly(body);
    case ApplyPackage(p) =>
      OptionalExtractsExactly(p.control);
      MostOptionalCovered(false, p.control);
      MostCall(false, p);
    case CallHeader(_, _) =>
    case Exit =>
    case OtherStatement =>
  }

  lemma {:induction false} OptionalExtractsExactly(o: Optional)
    ensures OptionalExtracts(o) <==> IsExtracted(MostOptional(false, o), OptionalSummary(o))
    decreases o, 1
  {
    if o.Given? { ExtractsExactly(o.statement); }
  }

  lemma {:induction false} BlockExtractsExactly(ss: seq<Statement>, n: nat)
    requires n <= |ss|
    ensures BlockExtracts(ss, n) <==> IsExtracted(MostBlock(false, ss, n), BlockSummary(ss, n))
    decreases ss, n
  {
    if n > 0 {
      var before, last := BlockSummary(ss, n - 1), Summary(ss[n - 1]);
      BlockExtractsExactly(ss, n - 1);
      BlockGetsExactly(Shrink, true, ss, n - 1);
      ExtractsExactly(ss[n - 1]);
      MoreBlock(ss, n);
      MostCovered(false, ss[n - 1]);
      BlockCovers(false, ss, n - 1);
      BlockCovers(true, ss, n - 1);
      MostBlockCovered(false, ss, n - 1);
      EndsOrThenExtracted(BestBlock(false, ss, n - 1), BestBlock(true, ss, n - 1), Most(false, ss[n - 1]), before,
                          last);
    }
  }

  lemma {:induction false} CasesExtractExactly(cs: seq<Optional>, n: nat)
    requires n <= |cs|
    ensures CasesExtract(cs, n) <==> IsExtracted(MostCases(false, cs, n), CasesSummary(cs, n))
    decreases cs, n
  {
    if n > 0 {
      CasesExtractExactly(cs, n - 1);
      OptionalExtractsExactly(cs[n - 1]);
      MoreCases(false, cs, n);
      MostCasesCovered(false, cs, n - 1);
      MostOptionalCovered(false, cs[n - 1]);
      EitherExtracted(MostCases(false, cs, n - 1), MostOptional(false, cs[n - 1]), CasesSummary(cs, n - 1),
                      OptionalSummary(cs[n - 1]));
    }
  }

  lemma {:induction false} ActionsExtractExactly(actions: seq<Statement>, n: nat)
    requires n <= |actions|
    ensures ActionsExtract(actions, n) <==> IsExtracted(MostActions(false, actions, n), ActionsSummary(actions, n))
    decreases actions, n
  {
    if n > 0 {
      var before, last := ActionsSummary(actions, n - 1), Summary(actions[n - 1]);
      ActionsExtractExactly(actions, n - 1);
      ExtractsExactly(actions[n - 1]);
      MoreActions(false, actions, n);
      MostActionsCovered(false, actions, n - 1);
      MostCovered(false, actions[n - 1]);
      AlternativesExtracted(MostActions(false, actions, n - 1), Most(false, actions[n - 1]), before, last);
    }
  }

  /** All that the walk finds for a statement is attained by paths through it. */
  predicate Meets(s: Statement) {
    Gets(Incr, false, s) && Gets(Decr, false, s) && Gets(Shrink, false, s) && Extracts(s)
  }

  lemma MeetsExactly(s: Statement)
    ensures Meets(s) <==> IsExact(s)
  {
    GetsExactly(Incr, false, s);
    GetsExactly(Decr, false, s);
    GetsExactly(Shrink, false, s);
    ExtractsExactly(s);
  }
}
