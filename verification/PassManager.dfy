/** PassManager and PassRepeated of ir/pass_manager.cpp */
module PassManagers {
  import opened Wrappers
  import opened PassMachine
  import opened PassRecords

  /** Where the loop goes after an invocation */
  datatype Next = Continue | Leave | ReturnNull | Rethrow

  class PassManager<P, T> {
    const passes: Passes
    var stopOnError: bool
    var earlyExitFlag: bool
    var running: bool

    constructor (passes: Passes)
      ensures this.passes == passes && stopOnError && !running
    {
      this.passes := passes;
      stopOnError := true;
      earlyExitFlag := false;
      running := false;
    }

    /** The main loop. Its runs are those of the state machine; `h` lists the invocations, and they account for the
        result. */
    method ApplyVisitor(program: P, script: seq<Outcome<P, T>>)
      returns (r: Ending<P, T>, ghost h: seq<Invocation<P>>)
      requires running
      modifies this
      ensures r == EndingOf(Run(passes, stopOnError, Start(passes, program), script))
      ensures Account(passes, stopOnError, program, script, h)
      ensures EndsAs(passes, stopOnError, program, script, h, r) && (r.Unfinished? ==> |h| == |script|)
      ensures stopOnError == old(stopOnError) && running == !r.Done?
    {
      hide Account, EndsAs, Good, Step;
      h := Run(passes, stopOnError, Start(passes, program), script).history;
      EveryRun(passes, stopOnError, program, script);
      earlyExitFlag := false;
      var cur, it: nat, backup: seq<Backup<P>> := program, 0, [];
      var errors := 0;
      var step := 0;
      ghost var m: Machine<P, T> := Start(passes, program);
      assert script[0..] == script;
      while it < |passes|
        invariant step <= |script|
        invariant Run(passes, stopOnError, m, script[step..])
                  == Run(passes, stopOnError, Start(passes, program), script)
        invariant InRange(passes, m) && Agrees(m, it, cur, backup, errors, earlyExitFlag)
        invariant m.status == if it < |passes| then Going else Finished
        invariant running && stopOnError == old(stopOnError)
        decreases |script| - step
      {
        if step == |script| {
          RunEnds(passes, stopOnError, m, script[step..]);
          return Unfinished, h;
        }
        RunStep(passes, stopOnError, m, script, step);
        StaysInRange(passes, stopOnError, m, script[step]);
        var next;
        it, cur, backup, errors, next := Invoke(it, cur, backup, errors, script[step], m);
        m := Step(passes, stopOnError, m, script[step]);
        step := step + 1;
        if next == Leave {
          RunEnds(passes, stopOnError, m, script[step..]);
          break;
        }
        if next == ReturnNull {
          RunEnds(passes, stopOnError, m, script[step..]);
          running := false;
          return Done(None), h;
        }
        if next == Rethrow {
          RunEnds(passes, stopOnError, m, script[step..]);
          return Rethrown(script[step - 1].trig), h;
        }
      }
      if it >= |passes| { RunEnds(passes, stopOnError, m, script[step..]); }
      running := false;
      return Done(Some(cur)), h;
    }

    /** One invocation of the pass at `it`, which is one step of the machine: what the loop body does before it
        goes on or is left. */
    method Invoke(it0: nat, cur0: P, backup0: seq<Backup<P>>, errors0: nat, outcome: Outcome<P, T>,
                  ghost m: Machine<P, T>)
      returns (it: nat, cur: P, backup: seq<Backup<P>>, errors: nat, next: Next)
      requires it0 < |passes| && Agrees(m, it0, cur0, backup0, errors0, earlyExitFlag)
      modifies `earlyExitFlag
      ensures var m' := Step(passes, stopOnError, m, outcome);
              && (next != Rethrow ==> Agrees(m', it, cur, backup, errors, earlyExitFlag))
              && match next
                 case Continue => m'.status.Going? || (m'.status.Finished? && it == |passes|)
                 case Leave => m'.status.ErrorStop? || m'.status.EarlyExit?
                 case ReturnNull => m'.status.NullProgram?
                 case Rethrow => outcome.Threw? && m'.status == Escaped(outcome.trig)
      ensures errors == errors0 + outcome.errors && earlyExitFlag == (old(earlyExitFlag) || outcome.exit)
      ensures outcome.Returned? ==>
                if stopOnError && errors > 0 then next == Leave && cur == cur0
                else if outcome.after.None? then next == ReturnNull
                else
                  && cur == outcome.after.value
                  && if earlyExitFlag then next == Leave else next == Continue && it == it0 + 1
    {
      it, cur, backup := it0, cur0, backup0;
      if passes[it] { backup := backup + [Backup(it, cur)]; }
      errors := errors0 + outcome.errors;
      earlyExitFlag := earlyExitFlag || outcome.exit;
      if outcome.Threw? {
        backup, it, cur := Backtrack(backup, it, cur, outcome.accepting);
        next := if backup == [] then Rethrow else Continue;
      } else if stopOnError && errors > 0 {
        next := Leave;
      } else if outcome.after.None? {
        next := ReturnNull;
      } else {
        cur := outcome.after.value;
        if earlyExitFlag {
          next := Leave;
        } else {
          it, next := it + 1, Continue;
        }
      }
    }

    /** The handler of a trigger: backups are popped until one of another pass accepts it. */
    method Backtrack(backup0: seq<Backup<P>>, it0: nat, cur0: P, accepting: set<nat>)
      returns (backup: seq<Backup<P>>, it: nat, cur: P)
      ensures backup == Unwind(backup0, it0, accepting)
      ensures backup != [] ==> var b := backup[|backup| - 1]; it == b.pos && cur == b.program
    {
      backup, it, cur := backup0, it0, cur0;
      while backup != []
        invariant Unwind(backup0, it0, accepting) == Unwind(backup, it, accepting)
        decreases |backup|, if backup != [] && backup[|backup| - 1].pos == it then 0 else 1
      {
        var back := backup[|backup| - 1];
        if back.pos == it {
          backup := backup[..|backup| - 1];
          continue;
        }
        if back.pos in accepting {
          it, cur := back.pos, back.program;
          return;
        }
        it, cur := back.pos, back.program;
      }
    }
  }

  /** The local variables of the loop are those of the state machine. */
  ghost predicate Agrees<P, T>(m: Machine<P, T>, it: nat, cur: P, backup: seq<Backup<P>>, errors: int, exit: bool) {
    m.it == it && m.program == cur && m.backup == backup && m.errors == errors && m.exit == exit
  }

  ghost predicate InRange<P, T>(passes: Passes, m: Machine<P, T>) {
    m.it <= |passes| && forall k | 0 <= k < |m.backup| :: m.backup[k].pos < |passes|
  }

  lemma {:induction false} UnwindPrefix<P>(backup: seq<Backup<P>>, it: nat, accepting: set<nat>)
    ensures Unwind(backup, it, accepting) <= backup
    decreases |backup|, if backup != [] && backup[|backup| - 1].pos == it then 0 else 1
  {
    if backup != [] {
      var n := |backup| - 1;
      if backup[n].pos == it {
        UnwindPrefix(backup[..n], it, accepting);
      } else if backup[n].pos !in accepting {
        UnwindPrefix(backup, backup[n].pos, accepting);
      }
    }
  }

  lemma RunStep<P, T>(passes: Passes, stopOnError: bool, m: Machine<P, T>, script: seq<Outcome<P, T>>, n: nat)
    requires m.status.Going? && m.it < |passes| && n < |script|
    ensures Run(passes, stopOnError, m, script[n..])
            == Run(passes, stopOnError, Step(passes, stopOnError, m, script[n]), script[n + 1..])
  {
    assert script[n..][1..] == script[n + 1..];
  }

  lemma RunEnds<P, T>(passes: Passes, stopOnError: bool, m: Machine<P, T>, script: seq<Outcome<P, T>>)
    requires script == [] || !m.status.Going?
    ensures Run(passes, stopOnError, m, script) == m
  {
  }

  lemma StaysInRange<P, T>(passes: Passes, stopOnError: bool, m: Machine<P, T>, o: Outcome<P, T>)
    requires InRange(passes, m) && m.status.Going? && m.it < |passes|
    ensures var m' := Step(passes, stopOnError, m, o);
            InRange(passes, m') && (m'.status.Going? ==> m'.it < |passes|)
  {
    var backup := Pushed(passes, m);
    assert forall k | 0 <= k < |backup| :: backup[k].pos < |passes|;
    if o.Threw? {
      UnwindPrefix(backup, m.it, o.accepting);
      var rest := Unwind(backup, m.it, o.accepting);
      assert forall k | 0 <= k < |rest| :: rest[k] == backup[k];
    }
  }

  /** PassRepeated: one round is one run of the passes. `rounds` tells what the rounds return, and how many errors
      they report. The outcome is None while the script of rounds does not suffice. */
  method ApplyRepeated<P(==)>(program0: P, repeats: nat, stopOnError: bool, rounds: seq<(Option<P>, nat)>)
    returns (r: Option<Option<P>>, iterations: nat)
    ensures iterations <= |rounds|
    ensures forall n | 0 < n < iterations :: !EndsAfter(program0, repeats, stopOnError, rounds, n)
    ensures r.Some? ==>
              && iterations > 0 && EndsAfter(program0, repeats, stopOnError, rounds, iterations)
              && Left(program0, stopOnError, rounds, iterations, r.value)
    ensures r.None? ==>
              && iterations == |rounds|
              && (iterations > 0 ==> !EndsAfter(program0, repeats, stopOnError, rounds, iterations))
    ensures repeats != 0 ==> iterations <= repeats + 1
  {
    var done := false;
    iterations := 0;
    var program := Some(program0);
    var errorCount := 0;
    while !done
      invariant iterations <= |rounds| && (repeats != 0 ==> iterations <= if done then repeats + 1 else repeats)
      invariant errorCount == ErrorsUpTo(rounds, iterations) && (stopOnError ==> errorCount == 0)
      invariant forall n | 0 < n < iterations :: !EndsAfter(program0, repeats, stopOnError, rounds, n)
      invariant done ==> iterations > 0
      invariant iterations > 0 ==> done == EndsAfter(program0, repeats, stopOnError, rounds, iterations)
      invariant iterations > 0 ==> program == rounds[iterations - 1].0
      invariant !done ==> program.Some? && Reached(program0, rounds, iterations, program.value)
      decreases |rounds| - iterations, !done
    {
      if iterations == |rounds| { return None, iterations; }
      var newprogram := rounds[iterations].0;
      errorCount := errorCount + rounds[iterations].1;
      if program == newprogram || newprogram.None? { done := true; }
      if stopOnError && errorCount > 0 { return Some(program), iterations + 1; }
      iterations := iterations + 1;
      if repeats != 0 && iterations > repeats { done := true; }
      program := newprogram;
    }
    return Some(program), iterations;
  }

  function ErrorsUpTo<P>(rounds: seq<(Option<P>, nat)>, n: nat): nat
    requires n <= |rounds|
  {
    if n == 0 then 0 else ErrorsUpTo(rounds, n - 1) + rounds[n - 1].1
  }

  /** The first n rounds lead from the initial program to `program`. */
  predicate Reached<P(==)>(initial: P, rounds: seq<(Option<P>, nat)>, n: nat, program: P)
    requires n <= |rounds|
  {
    if n == 0 then program == initial else rounds[n - 1].0 == Some(program)
  }

  /** The reasons to end after round n: errors, a null program, a program that the round gave back unchanged, or one
      round more than `repeats`. */
  ghost predicate EndsAfter<P>(initial: P, repeats: nat, stopOnError: bool, rounds: seq<(Option<P>, nat)>, n: nat)
    requires 0 < n <= |rounds|
  {
    || (stopOnError && ErrorsUpTo(rounds, n) > 0)
    || rounds[n - 1].0.None?
    || Reached(initial, rounds, n - 1, rounds[n - 1].0.value)
    || (repeats != 0 && n > repeats)
  }

  /** What is returned after round n: on errors the program before the round, otherwise what the round returned */
  ghost predicate Left<P>(initial: P, stopOnError: bool, rounds: seq<(Option<P>, nat)>, n: nat, result: Option<P>)
    requires 0 < n <= |rounds|
  {
    if stopOnError && ErrorsUpTo(rounds, n) > 0 then result.Some? && Reached(initial, rounds, n - 1, result.value)
    else result == rounds[n - 1].0
  }
}
