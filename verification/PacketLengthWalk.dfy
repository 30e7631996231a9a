/** ControlBlockInterpreter and ComposablePackageInterpreter (midend/controlBlockInterpreter.cpp,
    midend/composablePackageInterpreter.cpp) */
module PacketLengthWalk {
  import opened Wrappers
  import opened PacketLength
  import opened PacketLengthAttained
  import opened PacketLengthExact

  class ControlBlockInterpreter {
    var maxIncr: nat
    var maxDecr: nat
    var maxExtLen: nat
    var accumDecrPktLen: nat

    constructor ()
      ensures State() == Lengths(0, 0, 0, 0)
    {
      maxIncr, maxDecr, maxExtLen, accumDecrPktLen := 0, 0, 0, 0;
    }

    ghost function State(): Lengths
      reads this
    {
      Lengths(maxIncr, maxDecr, maxExtLen, accumDecrPktLen)
    }

    method Visit(s: Statement)
      modifies this
      ensures State() == Visited(s, old(State()))
      decreases s, 1
    {
      match s
      case CallHeader(name, width) =>
        if name == SetValid {
          maxIncr := Plus(maxIncr, width);
        } else if name == SetInvalid {
          maxDecr := Plus(maxDecr, width);
        }
      case Block(statements) =>
        for i := 0 to |statements|
          invariant State() == VisitedBlock(statements, i, old(State()))
        {
          Visit(statements[i]);
        }
      case If(ifTrue, ifFalse) => VisitIf(ifTrue, ifFalse);
      case Switch(cases) => VisitSwitch(cases);
      case ApplyTable(actions) => VisitActionList(actions);
      case CallAction(body) => Visit(body);
      case ApplyPackage(package) => VisitPackage(package);
      case Exit =>
      case OtherStatement =>
    }

    method VisitOptional(o: Optional)
      modifies this
      ensures State() == VisitedOptional(o, old(State()))
      decreases o, 1
    {
      if o.Given? { Visit(o.statement); }
    }

    method VisitIf(ifTrue: Statement, ifFalse: Optional)
      modifies this
      ensures State() == Visited(If(ifTrue, ifFalse), old(State()))
      decreases If(ifTrue, ifFalse), 0
    {
      var currIncr, currDecr, currAccum := maxIncr, maxDecr, accumDecrPktLen;
      Visit(ifTrue);
      var trueIncr, trueDecr, trueAccum := maxIncr, maxDecr, accumDecrPktLen;
      maxIncr, maxDecr, accumDecrPktLen := currIncr, currDecr, currAccum;
      VisitOptional(ifFalse);
      if trueIncr > maxIncr { maxIncr := trueIncr; }
      if trueDecr > maxDecr { maxDecr := trueDecr; }
      if trueAccum > accumDecrPktLen { accumDecrPktLen := trueAccum; }
    }

    method VisitSwitch(cases: seq<Optional>)
      modifies this
      ensures State() == VisitedCases(cases, |cases|, old(State()))
      decreases cases
    {
      var currIncr, currDecr, currAccum := maxIncr, maxDecr, accumDecrPktLen;
      var localIncr: nat, localDecr: nat, localAccum: nat := maxIncr, maxDecr, accumDecrPktLen;
      for i := 0 to |cases|
        invariant State() == old(State()).(maxExtLen := maxExtLen)
        invariant VisitedCases(cases, i, old(State())) == Lengths(localIncr, localDecr, maxExtLen, localAccum)
      {
        VisitOptional(cases[i]);
        if localIncr < maxIncr { localIncr := maxIncr; }
        if localDecr < maxDecr { localDecr := maxDecr; }
        if localAccum < accumDecrPktLen { localAccum := accumDecrPktLen; }
        accumDecrPktLen, maxIncr, maxDecr := currAccum, currIncr, currDecr;
      }
      maxIncr, maxDecr, accumDecrPktLen := localIncr, localDecr, localAccum;
    }

    /** The accumulated decrease is neither saved nor restored here. */
    method VisitActionList(actions: seq<Statement>)
      modifies this
      ensures State() == VisitedActions(actions, |actions|, old(State()))
      decreases actions
    {
      var currIncr, currDecr := maxIncr, maxDecr;
      var localIncr: nat, localDecr: nat := maxIncr, maxDecr;
      for i := 0 to |actions|
        invariant maxIncr == old(maxIncr) && maxDecr == old(maxDecr)
        invariant VisitedActions(actions, i, old(State())) == Lengths(localIncr, localDecr, maxExtLen, accumDecrPktLen)
      {
        Visit(actions[i]);
        if localIncr < maxIncr { localIncr := maxIncr; }
        if localDecr < maxDecr { localDecr := maxDecr; }
        maxIncr, maxDecr := currIncr, currDecr;
      }
      maxIncr, maxDecr := localIncr, localDecr;
    }

    method VisitPackage(p: Package)
      modifies this
      ensures State() == Visited(ApplyPackage(p), old(State()))
      decreases p
    {
      var cpi := new ComposablePackageInterpreter();
      cpi.VisitPackage(p);
      maxIncr := Plus(maxIncr, cpi.maxIncrPktLen);
      maxDecr := Plus(maxDecr, cpi.maxDecrPktLen);
      var currMaxExtLen := Plus(accumDecrPktLen, cpi.maxExtLen);
      if maxExtLen < currMaxExtLen { maxExtLen := currMaxExtLen; }
      accumDecrPktLen := Plus(accumDecrPktLen, cpi.maxDecrPktLen);
    }
  }

  class ComposablePackageInterpreter {
    var maxExtLen: nat
    var maxIncrPktLen: nat
    var maxDecrPktLen: nat

    constructor ()
      ensures maxExtLen == 0 && maxIncrPktLen == 0 && maxDecrPktLen == 0
    {
      maxExtLen, maxIncrPktLen, maxDecrPktLen := 0, 0, 0;
    }

    method VisitPackage(p: Package)
      requires maxExtLen == 0 && maxIncrPktLen == 0 && maxDecrPktLen == 0
      modifies this
      ensures var callee := VisitedOptional(p.control, Lengths(0, 0, 0, 0));
              && maxIncrPktLen == callee.maxIncr && maxDecrPktLen == callee.maxDecr
              && maxExtLen == ExtractLength(p, callee)
      decreases p, 0
    {
      if p.parser.Some? { maxExtLen := p.parser.value; }
      if p.control.Given? {
        var cbi := new ControlBlockInterpreter();
        cbi.Visit(p.control.statement);
        maxExtLen := Plus(maxExtLen, cbi.maxExtLen);
        maxIncrPktLen := cbi.maxIncr;
        maxDecrPktLen := cbi.maxDecr;
      }
    }

    /** For lengths whose sum does not reach 2^32, the three lengths are bounds for all paths through the package and
        those it calls, and each is attained by a path if and only if the body of the package meets the condition for
        it. That is so for the first two when no path ends at an exit, and for all three when besides every table meets
        its condition. */
    method Apply(p: Package)
      requires maxExtLen == 0 && maxIncrPktLen == 0 && maxDecrPktLen == 0
      requires Weight(ApplyPackage(p)) < 0x1_0000_0000
      modifies this
      ensures forall e | e in AllPaths(ApplyPackage(p)) ::
                e.incr <= maxIncrPktLen && e.decr <= maxDecrPktLen && e.extract.Some? && e.extract.value <= maxExtLen
      ensures (exists e :: e in AllPaths(ApplyPackage(p)) && e.incr == maxIncrPktLen)
              <==> Gets(Incr, false, ApplyPackage(p))
      ensures (exists e :: e in AllPaths(ApplyPackage(p)) && e.decr == maxDecrPktLen)
              <==> Gets(Decr, false, ApplyPackage(p))
      ensures (exists e :: e in AllPaths(ApplyPackage(p)) && e.extract == Some(maxExtLen))
              <==> Extracts(ApplyPackage(p))
      ensures Paths(true, ApplyPackage(p)) == {} ==>
                Gets(Incr, false, ApplyPackage(p)) && Gets(Decr, false, ApplyPackage(p))
      ensures Paths(true, ApplyPackage(p)) == {} && TablesMeet(ApplyPackage(p)) ==> Extracts(ApplyPackage(p))
    {
      hide Gets, Extracts, TablesMeet, Summary, IsMaximum;
      VisitPackage(p);
      WalkIsBound(p);
      assert forall e | e in AllPaths(ApplyPackage(p)) :: AtMost(e, Analysed(p));
      WalkAttains(p);
      if Paths(true, ApplyPackage(p)) == {} { MetWithoutExits(ApplyPackage(p)); }
    }
  }
}
