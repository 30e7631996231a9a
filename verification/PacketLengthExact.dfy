/** When what the walk finds (midend/controlBlockInterpreter.cpp, midend/composablePackageInterpreter.cpp) is a maximum
    over all execution paths: for sequences, for tables, for bodies without exits, and for whole packages */
module PacketLengthExact {
  import opened Wrappers
  import opened PacketLength
  import opened PacketLengthAttained

  // ---- the conditions for sequences and tables, spelled out ----

  lemma NothingToGet(part: Part, s: Statement)
    requires Found(part, s) == 0
    ensures Gets(part, false, s)
  {
    GetsExactly(part, false, s);
    MostCovered(false, s);
  }

  /** Some path passes the first k statements and gets what is found for each. */
  ghost predicate Passes(part: Part, ss: seq<Statement>, k: nat)
    requires k <= |ss|
  {
    forall i | 0 <= i < k :: Gets(part, true, ss[i])
  }

  /** What the walk finds for a sequence is got as far as statement k, and those after it count nothing. */
  ghost predicate GetsUpTo(part: Part, ss: seq<Statement>, k: nat, n: nat)
    requires k < n <= |ss|
  {
    Passes(part, ss, k) && Gets(part, false, ss[k]) && forall i | k < i < n :: Found(part, ss[i]) == 0
  }

  ghost predicate GetsSomehow(part: Part, ss: seq<Statement>, n: nat)
    requires n <= |ss|
  {
    n == 0 || exists k :: 0 <= k < n && GetsUpTo(part, ss, k, n)
  }

  lemma {:induction false} BlockPasses(part: Part, ss: seq<Statement>, n: nat)
    requires n <= |ss|
    ensures BlockGets(part, true, ss, n) <==> Passes(part, ss, n)
  {
    hide Gets;
    if n > 0 { BlockPasses(part, ss, n - 1); }
  }

  lemma {:induction false} BlockGetsSomehow(part: Part, ss: seq<Statement>, n: nat)
    requires n <= |ss|
    ensures BlockGets(part, false, ss, n) <==> GetsSomehow(part, ss, n)
  {
    hide Gets, Found, Passes;
    if n > 0 {
      var last := ss[n - 1];
      BlockGetsSomehow(part, ss, n - 1);
      BlockPasses(part, ss, n - 1);
      if Found(part, last) == 0 && GetsSomehow(part, ss, n - 1) {
        if n == 1 {
          NothingToGet(part, last);
          NothingToPass(part, ss);
          assert GetsUpTo(part, ss, 0, n);
        } else {
          var k :| 0 <= k < n - 1 && GetsUpTo(part, ss, k, n - 1);
          assert GetsUpTo(part, ss, k, n);
        }
      }
      if Passes(part, ss, n - 1) && Gets(part, false, last) { assert GetsUpTo(part, ss, n - 1, n); }
      if k :| 0 <= k < n - 1 && GetsUpTo(part, ss, k, n) { assert GetsUpTo(part, ss, k, n - 1); }
    }
  }

  lemma NothingToPass(part: Part, ss: seq<Statement>)
    ensures Passes(part, ss, 0)
  {
  }

  /** What the callees of the first n statements can make invalid, added up */
  function ShrinkSum(ss: seq<Statement>, n: nat): nat
    requires n <= |ss|
  {
    if n == 0 then 0 else ShrinkSum(ss, n - 1) + Found(Shrink, ss[n - 1])
  }

  /** What statement j extracts, when everything before it counts as executed */
  function Counted(ss: seq<Statement>, j: nat): Option<nat>
    requires j < |ss|
  {
    Later(ShrinkSum(ss, j), Summary(ss[j]).extract)
  }

  /** x is the largest of the first n counted lengths. */
  ghost predicate LargestCounted(ss: seq<Statement>, n: nat, x: Option<nat>)
    requires n <= |ss|
  {
    && (forall j | 0 <= j < n :: ExtractAtMost(Counted(ss, j), x))
    && (x.Some? ==> exists j :: 0 <= j < n && Counted(ss, j) == x)
  }

  lemma MoreCounted(ss: seq<Statement>, n: nat, x: Option<nat>)
    requires 0 < n <= |ss| && LargestCounted(ss, n - 1, x)
    ensures LargestCounted(ss, n, MaxExtract(x, Counted(ss, n - 1)))
  {
    hide Counted;
  }

  lemma {:induction false} BlockCounts(ss: seq<Statement>, n: nat)
    requires n <= |ss|
    ensures BlockSummary(ss, n).shrink == ShrinkSum(ss, n) && LargestCounted(ss, n, BlockSummary(ss, n).extract)
  {
    hide LargestCounted;
    if n > 0 {
      BlockCounts(ss, n - 1);
      MoreCounted(ss, n, BlockSummary(ss, n - 1).extract);
    } else {
      NothingCounted(ss);
    }
  }

  lemma {:induction false} ActionsCount(actions: seq<Statement>, n: nat)
    requires n <= |actions|
    ensures ActionsSummary(actions, n).shrink == ShrinkSum(actions, n)
    ensures LargestCounted(actions, n, ActionsSummary(actions, n).extract)
  {
    hide LargestCounted;
    if n > 0 {
      ActionsCount(actions, n - 1);
      MoreCounted(actions, n, ActionsSummary(actions, n - 1).extract);
    } else {
      NothingCounted(actions);
    }
  }

  lemma NothingCounted(ss: seq<Statement>)
    ensures LargestCounted(ss, 0, None)
  {
  }

  /** The largest counted length is extracted by statement j, and some path comes to it with all that is counted. */
  ghost predicate ExtractsAt(ss: seq<Statement>, j: nat, n: nat)
    requires j < n <= |ss|
  {
    && Passes(Shrink, ss, j) && Extracts(ss[j]) && Counted(ss, j).Some?
    && forall k | 0 <= k < n :: ExtractAtMost(Counted(ss, k), Counted(ss, j))
  }

  ghost predicate ExtractsSomewhere(ss: seq<Statement>, n: nat)
    requires n <= |ss|
  {
    (forall j | 0 <= j < n :: Counted(ss, j).None?) || exists j :: 0 <= j < n && ExtractsAt(ss, j, n)
  }

  lemma {:induction false} BlockExtractsSomewhere(ss: seq<Statement>, n: nat)
    requires n <= |ss|
    ensures BlockExtracts(ss, n) <==> ExtractsSomewhere(ss, n)
  {
    hide Extracts, Passes, Counted, BlockSummary, BlockGets, LargestCounted, ExtractsSomewhere, LongerGets, Later,
         Summary, ShrinkSum;
    if n > 0 {
      BlockExtractsSomewhere(ss, n - 1);
      BlockPasses(Shrink, ss, n - 1);
      BlockCounts(ss, n - 1);
      CountedIs(ss, n - 1);
      ExtractsSomewhereMore(ss, n, BlockSummary(ss, n - 1).extract);
    } else {
      NothingExtracted(ss);
    }
  }

  lemma CountedIs(ss: seq<Statement>, j: nat)
    requires j < |ss|
    ensures Counted(ss, j) == Later(ShrinkSum(ss, j), Summary(ss[j]).extract)
  {
  }

  lemma NothingExtracted(ss: seq<Statement>)
    ensures ExtractsSomewhere(ss, 0)
  {
  }

  lemma ExtractsSomewhereMore(ss: seq<Statement>, n: nat, x: Option<nat>)
    requires 0 < n <= |ss| && LargestCounted(ss, n - 1, x)
    ensures ExtractsSomewhere(ss, n) <==>
            LongerGets(ExtractsSomewhere(ss, n - 1), x, Passes(Shrink, ss, n - 1) && Extracts(ss[n - 1]),
                       Counted(ss, n - 1))
  {
    hide Extracts, Passes, Counted;
    var m, last := n - 1, Counted(ss, n - 1);
    if j :| 0 <= j < m && ExtractsAt(ss, j, m) && ExtractAtMost(last, x) { assert ExtractsAt(ss, j, n); }
    if j :| 0 <= j < m && ExtractsAt(ss, j, n) { assert ExtractsAt(ss, j, m); }
    if Passes(Shrink, ss, m) && Extracts(ss[m]) && ExtractAtMost(x, last) && last.Some? {
      assert ExtractsAt(ss, m, n);
    }
  }

  /** When the walk is exact on a sequence */
  ghost predicate BlockMeets(ss: seq<Statement>) {
    && GetsSomehow(Incr, ss, |ss|) && GetsSomehow(Decr, ss, |ss|) && GetsSomehow(Shrink, ss, |ss|)
    && ExtractsSomewhere(ss, |ss|)
  }

  /** The walk is exact on a sequence if and only if all that it finds is got on the way to some statement after which
      nothing counts, for each of the sums, and the largest extract length can be got where it is counted. */
  lemma BlockIsExact(ss: seq<Statement>)
    ensures IsExact(Block(ss)) <==> BlockMeets(ss)
  {
    MeetsExactly(Block(ss));
    BlockGetsSomehow(Incr, ss, |ss|);
    BlockGetsSomehow(Decr, ss, |ss|);
    BlockGetsSomehow(Shrink, ss, |ss|);
    BlockExtractsSomewhere(ss, |ss|);
  }

  ghost predicate AtMostOneShrinks(actions: seq<Statement>, n: nat)
    requires n <= |actions|
  {
    forall i, j | 0 <= i < j < n :: !(Found(Shrink, actions[i]) > 0 && Found(Shrink, actions[j]) > 0)
  }

  /** Some action extracts by itself as much as each of the first n actions does after all actions before it. */
  ghost predicate OneExtractsAll(actions: seq<Statement>, n: nat)
    requires n <= |actions|
  {
    n == 0 || exists k :: 0 <= k < n && LargestCountedAt(actions, n, k)
  }

  ghost predicate LargestCountedAt(actions: seq<Statement>, n: nat, k: nat)
    requires n <= |actions| && k < |actions|
  {
    forall j | 0 <= j < n :: ExtractAtMost(Counted(actions, j), Summary(actions[k]).extract)
  }

  /** When the walk is exact on a table whose actions it is exact on */
  ghost predicate TableMeets(actions: seq<Statement>) {
    AtMostOneShrinks(actions, |actions|) && OneExtractsAll(actions, |actions|)
  }

  ghost predicate AllOf(ss: seq<Statement>) {
    forall i | 0 <= i < |ss| :: IsExact(ss[i])
  }

  /** The walk is exact on a table if and only if at most one action can shrink the packet, and some action extracts by
      itself as much as each action does after all actions before it. */
  lemma TableIsExact(actions: seq<Statement>)
    requires AllOf(actions)
    ensures IsExact(ApplyTable(actions)) <==> TableMeets(actions)
  {
    var n := |actions|;
    forall i | 0 <= i < n ensures Meets(actions[i]) { MeetsExactly(actions[i]); }
    MeetsExactly(ApplyTable(actions));
    ActionsAlternate(Incr, false, actions, n);
    ActionsAlternate(Decr, false, actions, n);
    ActionsShrink(actions, n);
    ActionsExtractOnce(actions, n);
  }

  lemma {:induction false} ActionsAlternate(part: Part, goesOn: bool, actions: seq<Statement>, n: nat)
    requires n <= |actions| && part != Shrink && forall i | 0 <= i < n :: Gets(part, goesOn, actions[i])
    ensures ActionsGet(part, goesOn, actions, n)
  {
    hide Gets;
    if n > 0 { ActionsAlternate(part, goesOn, actions, n - 1); }
  }

  lemma {:induction false} ActionsShrink(actions: seq<Statement>, n: nat)
    requires n <= |actions| && forall i | 0 <= i < n :: Gets(Shrink, false, actions[i])
    ensures ActionsGet(Shrink, false, actions, n) <==> AtMostOneShrinks(actions, n)
    ensures ActionsSummary(actions, n).shrink == 0 <==> forall i | 0 <= i < n :: Found(Shrink, actions[i]) == 0
  {
    hide Gets;
    if n > 0 { ActionsShrink(actions, n - 1); }
  }

  lemma {:induction false} ActionsExtractOnce(actions: seq<Statement>, n: nat)
    requires n <= |actions| && forall i | 0 <= i < n :: Extracts(actions[i])
    ensures ActionsExtract(actions, n) <==> OneExtractsAll(actions, n)
  {
    hide Extracts, Counted, ActionsSummary;
    if n > 0 {
      ActionsExtractOnce(actions, n - 1);
      ActionsCount(actions, n - 1);
      OneExtractsMore(actions, n, ActionsSummary(actions, n - 1).extract);
      CountedIs(actions, n - 1);
    }
  }

  lemma LargestAt(actions: seq<Statement>, n: nat, k: nat, x: Option<nat>)
    requires n <= |actions| && k < |actions| && LargestCounted(actions, n, x)
    ensures LargestCountedAt(actions, n, k) <==> ExtractAtMost(x, Summary(actions[k]).extract)
    ensures k < n ==> ExtractAtMost(Summary(actions[k]).extract, x)
  {
    if k < n { assert ExtractAtMost(Counted(actions, k), x); }
  }

  lemma OneExtractsMore(actions: seq<Statement>, n: nat, x: Option<nat>)
    requires 0 < n <= |actions| && LargestCounted(actions, n - 1, x)
    ensures OneExtractsAll(actions, n) <==>
            LongerGets(OneExtractsAll(actions, n - 1), x, ShrinkSum(actions, n - 1) == 0, Counted(actions, n - 1))
  {
    hide LargestCountedAt, LargestCounted, Counted, Summary;
    var m, last := n - 1, Counted(actions, n - 1);
    CountedIs(actions, m);
    MoreCounted(actions, n, x);
    NoneBeforeFirst(actions, x, m);
    LargestAt(actions, n, m, MaxExtract(x, last));
    LargestAt(actions, m, 0, x);
    LargestAt(actions, n, 0, MaxExtract(x, last));
    if k :| 0 <= k < n && LargestCountedAt(actions, n, k) {
      LargestAt(actions, n, k, MaxExtract(x, last));
      LargestAt(actions, m, k, x);
    }
    if k :| 0 <= k < m && LargestCountedAt(actions, m, k) {
      LargestAt(actions, n, k, MaxExtract(x, last));
      LargestAt(actions, m, k, x);
    }
  }

  lemma NoneBeforeFirst(ss: seq<Statement>, x: Option<nat>, n: nat)
    requires n <= |ss| && LargestCounted(ss, n, x)
    ensures n == 0 ==> x == None
  {
  }

  // ---- bodies in which no path ends at an exit ----

  /** Every table of a body meets its condition. */
  ghost predicate TablesMeet(s: Statement)
    decreases s, 0
  {
    match s
    case Block(ss) => forall i | 0 <= i < |ss| :: TablesMeet(ss[i])
    case If(t, f) => TablesMeet(t) && OptionalTablesMeet(f)
    case Switch(cs) => forall i | 0 <= i < |cs| :: OptionalTablesMeet(cs[i])
    case ApplyTable(actions) => TableMeets(actions) && forall i | 0 <= i < |actions| :: TablesMeet(actions[i])
    case CallAction(body) => TablesMeet(body)
    case ApplyPackage(p) => OptionalTablesMeet(p.control)
    case _ => true
  }

  ghost predicate OptionalTablesMeet(o: Optional)
    decreases o, 0
  {
    o.Given? ==> TablesMeet(o.statement)
  }

  lemma {:induction false} NoEndInBlock(ss: seq<Statement>, n: nat, i: nat)
    requires i < n <= |ss| && BestBlock(true, ss, n).None?
    ensures Best(true, ss[i]).None?
  {
    SomeBlockPath(ss, n - 1);
    if i < n - 1 { NoEndInBlock(ss, n - 1, i); }
  }

  lemma {:induction false} NoEndInCases(cs: seq<Optional>, n: nat, i: nat)
    requires i < n <= |cs| && BestCases(true, cs, n).None?
    ensures BestOptional(true, cs[i]).None?
  {
    if i < n - 1 { NoEndInCases(cs, n - 1, i); }
  }

  lemma {:induction false} NoEndInActions(actions: seq<Statement>, n: nat, i: nat)
    requires i < n <= |actions| && BestActions(true, actions, n).None?
    ensures Best(true, actions[i]).None?
  {
    if i < n - 1 { NoEndInActions(actions, n - 1, i); }
  }

  lemma GoesOnAnyway(part: Part, s: Statement)
    requires Best(true, s).None?
    ensures Gets(part, true, s) <==> Gets(part, false, s)
  {
    GetsExactly(part, true, s);
    GetsExactly(part, false, s);
  }

  lemma {:induction false} BlockExtractsAll(ss: seq<Statement>, n: nat)
    requires n <= |ss| && Passes(Shrink, ss, n) && forall i | 0 <= i < n :: Extracts(ss[i])
    ensures BlockExtracts(ss, n)
  {
    hide Extracts, Gets;
    if n > 0 {
      BlockExtractsAll(ss, n - 1);
      BlockPasses(Shrink, ss, n - 1);
    }
  }

  lemma {:induction false} CasesGetAll(part: Part, cs: seq<Optional>, n: nat)
    requires n <= |cs| && forall i | 0 <= i < n :: OptionalGets(part, true, cs[i])
    ensures CasesGet(part, true, cs, n)
  {
    hide OptionalGets;
    if n > 0 { CasesGetAll(part, cs, n - 1); }
  }

  lemma {:induction false} CasesExtractAll(cs: seq<Optional>, n: nat)
    requires n <= |cs| && forall i | 0 <= i < n :: OptionalExtracts(cs[i])
    ensures CasesExtract(cs, n)
  {
    hide OptionalExtracts;
    if n > 0 { CasesExtractAll(cs, n - 1); }
  }

  lemma ExactWithoutEnds(s: Statement)
    requires Best(true, s).None? && Gets(Incr, true, s) && Gets(Decr, true, s) && Gets(Shrink, true, s) && Extracts(s)
    ensures IsExact(s)
  {
    GoesOnAnyway(Incr, s);
    GoesOnAnyway(Decr, s);
    GoesOnAnyway(Shrink, s);
    MeetsExactly(s);
  }

  lemma TableWithoutEnds(actions: seq<Statement>)
    requires AllOf(actions) && TableMeets(actions) && Best(true, ApplyTable(actions)).None?
    ensures Gets(Shrink, true, ApplyTable(actions)) && Extracts(ApplyTable(actions))
  {
    TableIsExact(actions);
    MeetsExactly(ApplyTable(actions));
    GoesOnAnyway(Shrink, ApplyTable(actions));
  }

  /** When no path ends at an exit, the increase and the decrease are exact whatever the tables are, and the rest is
      when every table meets its condition. */
  lemma {:induction false} WithoutExits(s: Statement)
    requires Best(true, s).None?
    ensures Gets(Incr, true, s) && Gets(Decr, true, s)
    ensures TablesMeet(s) ==> Gets(Shrink, true, s) && Extracts(s)
    decreases s, 1
  {
    match s
    case Block(ss) =>
      forall i | 0 <= i < |ss|
        ensures Gets(Incr, true, ss[i]) && Gets(Decr, true, ss[i])
        ensures TablesMeet(s) ==> Gets(Shrink, true, ss[i]) && Extracts(ss[i])
      {
        NoEndInBlock(ss, |ss|, i);
        WithoutExits(ss[i]);
      }
      BlockPasses(Incr, ss, |ss|);
      BlockPasses(Decr, ss, |ss|);
      BlockPasses(Shrink, ss, |ss|);
      if TablesMeet(s) { BlockExtractsAll(ss, |ss|); }
    case If(t, f) =>
      WithoutExits(t);
      OptionalWithoutExits(f);
    case Switch(cs) =>
      forall i | 0 <= i < |cs|
        ensures OptionalGets(Incr, true, cs[i]) && OptionalGets(Decr, true, cs[i])
        ensures TablesMeet(s) ==> OptionalGets(Shrink, true, cs[i]) && OptionalExtracts(cs[i])
      {
        NoEndInCases(cs, |cs|, i);
        OptionalWithoutExits(cs[i]);
      }
      CasesGetAll(Incr, cs, |cs|);
      CasesGetAll(Decr, cs, |cs|);
      if TablesMeet(s) {
        CasesGetAll(Shrink, cs, |cs|);
        CasesExtractAll(cs, |cs|);
      }
    case ApplyTable(actions) =>
      forall i | 0 <= i < |actions|
        ensures Gets(Incr, true, actions[i]) && Gets(Decr, true, actions[i])
        ensures TablesMeet(s) ==> IsExact(actions[i])
      {
        NoEndInActions(actions, |actions|, i);
        WithoutExits(actions[i]);
        if TablesMeet(s) { ExactWithoutEnds(actions[i]); }
      }
      ActionsAlternate(Incr, true, actions, |actions|);
      ActionsAlternate(Decr, true, actions, |actions|);
      if TablesMeet(s) { TableWithoutEnds(actions); }
    case CallAction(body) => WithoutExits(body);
    case ApplyPackage(p) => OptionalWithoutExits(p.control);
    case _ =>
  }

  lemma {:induction false} OptionalWithoutExits(o: Optional)
    requires BestOptional(true, o).None?
    ensures OptionalGets(Incr, true, o) && OptionalGets(Decr, true, o)
    ensures OptionalTablesMeet(o) ==> OptionalGets(Shrink, true, o) && OptionalExtracts(o)
    decreases o, 1
  {
    if o.Given? { WithoutExits(o.statement); }
  }

  /** The walk is exact on a body and on everything inside. */
  ghost predicate AllExact(s: Statement)
    decreases s, 0
  {
    IsExact(s) &&
    match s
    case Block(ss) => forall i | 0 <= i < |ss| :: AllExact(ss[i])
    case If(t, f) => AllExact(t) && OptionalExact(f)
    case Switch(cs) => forall i | 0 <= i < |cs| :: OptionalExact(cs[i])
    case ApplyTable(actions) => forall i | 0 <= i < |actions| :: AllExact(actions[i])
    case CallAction(body) => AllExact(body)
    case ApplyPackage(p) => OptionalExact(p.control)
    case _ => true
  }

  ghost predicate OptionalExact(o: Optional)
    decreases o, 0
  {
    o.Given? ==> AllExact(o.statement)
  }

  /** When no path ends at an exit, the walk is exact on everything in a body if and only if every table meets its
      condition. */
  lemma {:induction false} ExactEverywhere(s: Statement)
    requires Best(true, s).None?
    ensures AllExact(s) <==> TablesMeet(s)
    decreases s, 1
  {
    WithoutExits(s);
    if TablesMeet(s) { ExactWithoutEnds(s); }
    match s
    case Block(ss) =>
      forall i | 0 <= i < |ss| ensures AllExact(ss[i]) <==> TablesMeet(ss[i]) {
        NoEndInBlock(ss, |ss|, i);
        ExactEverywhere(ss[i]);
      }
    case If(t, f) =>
      ExactEverywhere(t);
      ExactOptional(f);
    case Switch(cs) =>
      forall i | 0 <= i < |cs| ensures OptionalExact(cs[i]) <==> OptionalTablesMeet(cs[i]) {
        NoEndInCases(cs, |cs|, i);
        ExactOptional(cs[i]);
      }
    case ApplyTable(actions) =>
      forall i | 0 <= i < |actions| ensures AllExact(actions[i]) <==> TablesMeet(actions[i]) {
        NoEndInActions(actions, |actions|, i);
        ExactEverywhere(actions[i]);
      }
      if AllExact(s) { TableIsExact(actions); }
    case CallAction(body) => ExactEverywhere(body);
    case ApplyPackage(p) => ExactOptional(p.control);
    case _ =>
  }

  lemma {:induction false} ExactOptional(o: Optional)
    requires BestOptional(true, o).None?
    ensures OptionalExact(o) <==> OptionalTablesMeet(o)
    decreases o, 1
  {
    if o.Given? { ExactEverywhere(o.statement); }
  }

  /** A body without exit statements */
  ghost predicate NoExits(s: Statement)
    decreases s, 0
  {
    match s
    case Block(ss) => forall i | 0 <= i < |ss| :: NoExits(ss[i])
    case If(t, f) => NoExits(t) && OptionalNoExits(f)
    case Switch(cs) => forall i | 0 <= i < |cs| :: OptionalNoExits(cs[i])
    case ApplyTable(actions) => forall i | 0 <= i < |actions| :: NoExits(actions[i])
    case CallAction(body) => NoExits(body)
    case ApplyPackage(p) => OptionalNoExits(p.control)
    case Exit => false
    case _ => true
  }

  ghost predicate OptionalNoExits(o: Optional)
    decreases o, 0
  {
    o.Given? ==> NoExits(o.statement)
  }

  lemma {:induction false} NoneEnds(s: Statement)
    requires NoExits(s)
    ensures Best(true, s).None?
    decreases s, 1
  {
    match s
    case Block(ss) => NoneEndsInBlock(ss, |ss|);
    case If(t, f) =>
      NoneEnds(t);
      NoneEndsOptional(f);
    case Switch(cs) => NoneEndsInCases(cs, |cs|);
    case ApplyTable(actions) => NoneEndsInActions(actions, |actions|);
    case CallAction(body) => NoneEnds(body);
    case ApplyPackage(p) => NoneEndsOptional(p.control);
    case _ =>
  }

  lemma {:induction false} NoneEndsOptional(o: Optional)
    requires OptionalNoExits(o)
    ensures BestOptional(true, o).None?
    decreases o, 1
  {
    if o.Given? { NoneEnds(o.statement); }
  }

  lemma {:induction false} NoneEndsInBlock(ss: seq<Statement>, n: nat)
    requires n <= |ss| && forall i | 0 <= i < n :: NoExits(ss[i])
    ensures BestBlock(true, ss, n).None?
    decreases ss, n
  {
    if n > 0 {
      NoneEndsInBlock(ss, n - 1);
      NoneEnds(ss[n - 1]);
    }
  }

  lemma {:induction false} NoneEndsInCases(cs: seq<Optional>, n: nat)
    requires n <= |cs| && forall i | 0 <= i < n :: OptionalNoExits(cs[i])
    ensures BestCases(true, cs, n).None?
    decreases cs, n
  {
    if n > 0 {
      NoneEndsInCases(cs, n - 1);
      NoneEndsOptional(cs[n - 1]);
    }
  }

  lemma {:induction false} NoneEndsInActions(actions: seq<Statement>, n: nat)
    requires n <= |actions| && forall i | 0 <= i < n :: NoExits(actions[i])
    ensures BestActions(true, actions, n).None?
    decreases actions, n
  {
    if n > 0 {
      NoneEndsInActions(actions, n - 1);
      NoneEnds(actions[n - 1]);
    }
  }

  // ---- packages ----

  /** The result of the walk over a package, as an effect of a call of it: the maximum increase and decrease, and the
      maximum extract length */
  function Analysed(p: Package): Effect {
    var l := VisitedOptional(p.control, Lengths(0, 0, 0, 0));
    Effect(l.maxIncr, l.maxDecr, l.maxDecr, Some(ExtractLength(p, l)))
  }

  lemma {:induction false} WalkFound(p: Package)
    requires Weight(ApplyPackage(p)) < 0x1_0000_0000
    ensures Analysed(p) == Summary(ApplyPackage(p))
  {
    hide Plus, Plussed;
    var zero, e := Lengths(0, 0, 0, 0), OptionalSummary(p.control);
    OptionalAddsSummary(p.control, zero);
    ExtractFits(p, e, OptionalWeight(p.control));
    PlussedZero(e);
  }

  lemma PlussedZero(e: Effect)
    ensures Plussed(Lengths(0, 0, 0, 0), e) == Lengths(e.incr, e.decr, OrZero(e.extract), e.shrink)
  {
  }

  lemma MaximumIsBound(paths: set<Effect>, x: Effect, y: Effect)
    requires IsMaximum(paths, x) && AtMost(x, y)
    ensures forall e | e in paths :: AtMost(e, y)
  {
  }

  /** Maxima of all components are reached where bounds of them are, if and only if they are the bounds. */
  lemma BoundsAttained(paths: set<Effect>, x: Effect, y: Effect)
    requires IsMaximum(paths, x) && AtMost(x, y)
    ensures (exists e :: e in paths && e.incr == y.incr) <==> x.incr == y.incr
    ensures (exists e :: e in paths && e.decr == y.decr) <==> x.decr == y.decr
    ensures (exists e :: e in paths && e.extract == y.extract) <==> x.extract == y.extract
  {
  }

  /** For any body the three lengths are bounds for all paths. When no path ends at an exit, the increase and the
      decrease are attained. */
  lemma {:induction false} WalkIsBound(p: Package)
    requires Weight(ApplyPackage(p)) < 0x1_0000_0000
    ensures forall e | e in AllPaths(ApplyPackage(p)) :: AtMost(e, Analysed(p))
    ensures Paths(true, ApplyPackage(p)) == {} ==>
              && (exists e :: e in AllPaths(ApplyPackage(p)) && e.incr == Analysed(p).incr)
              && (exists e :: e in AllPaths(ApplyPackage(p)) && e.decr == Analysed(p).decr)
  {
    hide IsMaximum, AllPaths, Summary, Analysed, AtMost, Gets, Extracts;
    var s := ApplyPackage(p);
    WalkFound(p);
    SomePath(s);
    OverallIsMaximum(s);
    MaximumIsBound(AllPaths(s), Total(s), Summary(s));
    WalkAttains(p);
    if Paths(true, s) == {} { MetWithoutExits(s); }
  }

  /** Each of the three lengths is attained by a path if and only if the body of the package meets the condition for
      it. */
  lemma {:induction false} WalkAttains(p: Package)
    requires Weight(ApplyPackage(p)) < 0x1_0000_0000
    ensures (exists e :: e in AllPaths(ApplyPackage(p)) && e.incr == Analysed(p).incr)
            <==> Gets(Incr, false, ApplyPackage(p))
    ensures (exists e :: e in AllPaths(ApplyPackage(p)) && e.decr == Analysed(p).decr)
            <==> Gets(Decr, false, ApplyPackage(p))
    ensures (exists e :: e in AllPaths(ApplyPackage(p)) && e.extract == Analysed(p).extract)
            <==> Extracts(ApplyPackage(p))
  {
    hide IsMaximum, AllPaths, Summary, Analysed, AtMost, Gets, Extracts, Best;
    var s := ApplyPackage(p);
    WalkFound(p);
    SomePath(s);
    OverallIsMaximum(s);
    BoundsAttained(AllPaths(s), Total(s), Summary(s));
    GetsExactly(Incr, false, s);
    GetsExactly(Decr, false, s);
    ExtractsExactly(s);
  }

  /** All of it is the maximum if and only if the body meets all conditions. */
  lemma {:induction false} MaximumExactly(p: Package)
    requires Weight(ApplyPackage(p)) < 0x1_0000_0000
    ensures IsMaximum(AllPaths(ApplyPackage(p)), Analysed(p)) <==> Meets(ApplyPackage(p))
  {
    hide IsMaximum, AllPaths, Summary, Meets;
    var s := ApplyPackage(p);
    WalkFound(p);
    SomePath(s);
    OverallIsMaximum(s);
    MeetsExactly(s);
    if IsMaximum(AllPaths(s), Analysed(p)) { OnlyMaximum(AllPaths(s), Analysed(p), Total(s)); }
  }

  /** One walk computes a maximum over all execution paths, through nested packages, when no path ends at an exit, every
      table meets its condition, and the sum of all widths does not reach 2^32. */
  lemma {:induction false} WalkIsMaximum(p: Package)
    requires Weight(ApplyPackage(p)) < 0x1_0000_0000
    requires Paths(true, ApplyPackage(p)) == {} && TablesMeet(ApplyPackage(p))
    ensures IsMaximum(AllPaths(ApplyPackage(p)), Analysed(p))
  {
    MetWithoutExits(ApplyPackage(p));
    MaximumExactly(p);
  }

  lemma MetWithoutExits(s: Statement)
    requires Paths(true, s) == {}
    ensures Gets(Incr, false, s) && Gets(Decr, false, s) && (TablesMeet(s) ==> Meets(s))
  {
    BestIsMaximum(true, s);
    WithoutExits(s);
    GoesOnAnyway(Incr, s);
    GoesOnAnyway(Decr, s);
    GoesOnAnyway(Shrink, s);
  }

  /** A body without exit statements has no path that ends at one. */
  lemma NoPathEnds(s: Statement)
    requires NoExits(s)
    ensures Paths(true, s) == {}
  {
    NoneEnds(s);
    BestIsMaximum(true, s);
  }

  // ---- inputs on which the walk is not exact ----

  /** A package without parser that makes a header invalid, and one that extracts as much */
  function Shrinking(width: nat): Package {
    Package(None, Given(CallHeader(SetInvalid, width)))
  }

  function Extracting(width: nat): Package {
    Package(Some(width), Given(OtherStatement))
  }

  /** What is known of a statement: what the walk finds, the maxima of the paths that go on and that end, its weight */
  ghost predicate Facts(s: Statement, found: Effect, through: Option<Effect>, ended: Option<Effect>, w: nat) {
    Summary(s) == found && Best(false, s) == through && Best(true, s) == ended && Weight(s) == w
  }

  lemma PackageFacts(p: Package, x: Effect, a: Option<Effect>, b: Option<Effect>, w: nat)
    requires p.control.Given? && Facts(p.control.statement, x, a, b, w)
    ensures Facts(ApplyPackage(p), Called(p, x), CalledOf(p, a), CalledOf(p, b), OrZero(p.parser) + w)
  {
    hide Called, CalledOf;
    assert OptionalSummary(p.control) == x && OptionalWeight(p.control) == w;
    assert BestOptional(false, p.control) == a && BestOptional(true, p.control) == b;
  }

  lemma ShrinkingFacts(w: nat)
    ensures Facts(ApplyPackage(Shrinking(w)), Effect(0, w, w, Some(0)), Some(Effect(0, w, w, Some(0))), None, w)
  {
    var e := Effect(0, w, 0, None);
    assert Facts(CallHeader(SetInvalid, w), e, Some(e), None, w);
    PackageFacts(Shrinking(w), e, Some(e), None, w);
  }

  lemma ExtractingFacts(w: nat)
    ensures Facts(ApplyPackage(Extracting(w)), Effect(0, 0, 0, Some(w)), Some(Effect(0, 0, 0, Some(w))), None, w)
  {
    assert Facts(OtherStatement, SKIP, Some(SKIP), None, 0);
    PackageFacts(Extracting(w), SKIP, Some(SKIP), None, 0);
  }

  /** Two statements in sequence */
  lemma PairFacts(ss: seq<Statement>, x: Effect, a: Option<Effect>, b: Option<Effect>, w: nat, y: Effect,
                  c: Option<Effect>, d: Option<Effect>, v: nat)
    requires |ss| == 2 && Facts(ss[0], x, a, b, w) && Facts(ss[1], y, c, d, v)
    ensures Facts(Block(ss), Then(Then(SKIP, x), y), ThenOf(ThenOf(Some(SKIP), a), c),
                  EitherOf(ThenOf(Some(SKIP), b), ThenOf(ThenOf(Some(SKIP), a), d)), w + v)
  {
    assert BlockSummary(ss, 1) == Then(SKIP, x) && TotalWeight(ss, 1) == w;
    assert BestBlock(false, ss, 1) == ThenOf(Some(SKIP), a) && BestBlock(true, ss, 1) == ThenOf(Some(SKIP), b);
    assert BlockSummary(ss, 2) == Then(Then(SKIP, x), y) && TotalWeight(ss, 2) == w + v;
    assert BestBlock(false, ss, 2) == ThenOf(ThenOf(Some(SKIP), a), c);
    assert BestBlock(true, ss, 2)
           == EitherOf(BestBlock(true, ss, 1), ThenOf(BestBlock(false, ss, 1), Best(true, ss[1])));
  }

  /** A table of two actions that have no exits */
  lemma TableFacts(actions: seq<Statement>, x: Effect, a: Effect, w: nat, y: Effect, c: Effect, v: nat)
    requires |actions| == 2 && Facts(actions[0], x, Some(a), None, w) && Facts(actions[1], y, Some(c), None, v)
    ensures Facts(ApplyTable(actions), Alternatives(Alternatives(SKIP, x), y), Some(Either(Either(SKIP, a), c)), None,
                  w + v)
  {
    assert ActionsSummary(actions, 1) == Alternatives(SKIP, x) && TotalWeight(actions, 1) == w;
    assert BestActions(false, actions, 1) == Some(Either(SKIP, a)) && BestActions(true, actions, 1) == None;
    assert ActionsSummary(actions, 2) == Alternatives(Alternatives(SKIP, x), y) && TotalWeight(actions, 2) == w + v;
    assert BestActions(false, actions, 2) == Some(Either(Either(SKIP, a), c)) && BestActions(true, actions, 2) == None;
  }

  lemma BranchFacts(s: Statement, x: Effect, a: Option<Effect>, b: Option<Effect>, w: nat)
    requires Facts(s, x, a, b, w)
    ensures Facts(If(s, Missing), Either(x, SKIP), EitherOf(a, Some(SKIP)), b, w)
  {
    assert OptionalSummary(Missing) == SKIP && OptionalWeight(Missing) == 0;
    assert BestOptional(false, Missing) == Some(SKIP) && BestOptional(true, Missing) == None;
  }

  /** What the walk finds for a package with a given control, and what is the maximum */
  lemma Compared(p: Package, s: Statement, found: Effect, through: Option<Effect>, ended: Option<Effect>, w: nat)
    requires p == Package(None, Given(s)) && Facts(s, found, through, ended, w) && w < 0x1_0000_0000
    ensures Analysed(p) == Called(p, found)
    ensures IsBest(AllPaths(ApplyPackage(p)), EitherOf(CalledOf(p, through), CalledOf(p, ended)))
  {
    hide Analysed, AllPaths, IsBest, Called, CalledOf, EitherOf;
    PackageFacts(p, found, through, ended, w);
    WalkFound(p);
    OverallIsMaximum(ApplyPackage(p));
  }

  /** A parser extracts before the packages that the control calls. */
  lemma ParserBeforeCallees(w: nat, v: nat)
    requires w + v < 0x1_0000_0000
    ensures Analysed(Package(Some(w), Given(ApplyPackage(Package(Some(v), Missing))))) == Effect(0, 0, 0, Some(w + v))
  {
    var inner := ApplyPackage(Package(Some(v), Missing));
    assert Visited(inner, Lengths(0, 0, 0, 0)) == Lengths(0, 0, v, 0);
  }

  /** Only one action of a table is executed, but what the callees of the first one make invalid is counted for the
      second one. */
  lemma {:induction false} ActionsAccumulate(w: nat, v: nat)
    requires w > 0 && w + v < 0x1_0000_0000
    ensures var p := Package(None, Given(ApplyTable([ApplyPackage(Shrinking(w)), ApplyPackage(Extracting(v))])));
            && Analysed(p).extract == Some(w + v)
            && forall e | e in AllPaths(ApplyPackage(p)) :: ExtractAtMost(e.extract, Some(v))
  {
    hide Analysed, AllPaths, Facts, Shrinking, Extracting;
    var a, b := ApplyPackage(Shrinking(w)), ApplyPackage(Extracting(v));
    ShrinkingFacts(w);
    ExtractingFacts(v);
    var x, y := Effect(0, w, w, Some(0)), Effect(0, 0, 0, Some(v));
    TableFacts([a, b], x, x, w, y, y, v);
    Compared(Package(None, Given(ApplyTable([a, b]))), ApplyTable([a, b]), Alternatives(Alternatives(SKIP, x), y),
             Some(Either(Either(SKIP, x), y)), None, w + v);
  }

  /** A branch that ends at an exit, and a statement after it. The walk goes on after the exit. */
  lemma ExitThen(a: Statement, b: Statement, x: Effect, y: Effect, w: nat, v: nat)
    requires Facts(a, x, Some(x), None, w) && Facts(b, y, Some(y), None, v)
    ensures Facts(Block([If(Block([a, Exit]), Missing), b]), Then(Either(x, SKIP), y), Some(y), Some(x), w + v)
  {
    hide Facts, Then, Either, Summary, Best, Weight;
    ExitFacts();
    SkipIsUnit(SKIP);
    SkipIsUnit(x);
    SkipIsUnit(y);
    SkipIsUnit(Either(x, SKIP));
    PairFacts([a, Exit], x, Some(x), None, w, SKIP, None, Some(SKIP), 0);
    BranchFacts(Block([a, Exit]), x, None, Some(x), w);
    PairFacts([If(Block([a, Exit]), Missing), b], Either(x, SKIP), Some(SKIP), Some(x), w, y, Some(y), None, v);
  }

  lemma ExitFacts()
    ensures Facts(Exit, SKIP, None, Some(SKIP), 0)
  {
  }

  lemma SkipIsUnit(e: Effect)
    ensures Then(SKIP, e) == e && Then(e, SKIP) == e
  {
  }

  /** The walk takes the extraction as coming after a decrease that ends the program. */
  lemma {:induction false} ExitIsIgnored(w: nat, v: nat)
    requires w > 0 && w + v < 0x1_0000_0000
    ensures var body := [If(Block([ApplyPackage(Shrinking(w)), Exit]), Missing), ApplyPackage(Extracting(v))];
            var p := Package(None, Given(Block(body)));
            && Analysed(p).extract == Some(w + v)
            && forall e | e in AllPaths(ApplyPackage(p)) :: ExtractAtMost(e.extract, Some(v))
  {
    hide Analysed, AllPaths, Facts, Shrinking, Extracting;
    var a, b := ApplyPackage(Shrinking(w)), ApplyPackage(Extracting(v));
    ShrinkingFacts(w);
    ExtractingFacts(v);
    var x, y := Effect(0, w, w, Some(0)), Effect(0, 0, 0, Some(v));
    ExitThen(a, b, x, y, w, v);
    var s := Block([If(Block([a, Exit]), Missing), b]);
    Compared(Package(None, Given(s)), s, Then(Either(x, SKIP), y), Some(y), Some(x), w + v);
  }

  /** The same for the headers of the control itself: the widths of two headers are added up, but no path makes both
      valid. */
  lemma {:induction false} HeadersAfterExit(w: nat, v: nat)
    requires w > 0 && v > 0 && w + v < 0x1_0000_0000
    ensures var body := [If(Block([CallHeader(SetValid, w), Exit]), Missing), CallHeader(SetValid, v)];
            var p := Package(None, Given(Block(body)));
            && Analysed(p).incr == w + v
            && forall e | e in AllPaths(ApplyPackage(p)) :: e.incr <= Max(w, v) < w + v
  {
    var a, b := CallHeader(SetValid, w), CallHeader(SetValid, v);
    var x, y := Effect(w, 0, 0, None), Effect(v, 0, 0, None);
    assert Facts(a, x, Some(x), None, w) && Facts(b, y, Some(y), None, v);
    hide Analysed, AllPaths, Facts;
    ExitThen(a, b, x, y, w, v);
    var s := Block([If(Block([a, Exit]), Missing), b]);
    Compared(Package(None, Given(s)), s, Then(Either(x, SKIP), y), Some(y), Some(x), w + v);
  }
}
