/** The account of a run of a pass manager: which passes were invoked, with what programs, and why the run ended. It is
    stated about the outcomes of the passes alone; every run of the state machine has one. */
module PassRecords {
  import opened Wrappers
  import opened PassMachine

  /** How a call of apply_visitor ends: with a program or null, by a trigger that nobody accepts, or not within the
      script. */
  datatype Ending<P, T> = Done(program: Option<P>) | Rethrown(trig: T) | Unfinished

  function EndingOf<P, T>(m: Machine<P, T>): Ending<P, T> {
    match m.status
    case Going => Unfinished
    case Escaped(trig) => Rethrown(trig)
    case _ => Done(Returns(m))
  }

  /** The errors that the first n outcomes report */
  function ErrorsOf<P, T>(script: seq<Outcome<P, T>>, n: nat): nat
    requires n <= |script|
  {
    if n == 0 then 0 else ErrorsOf(script, n - 1) + script[n - 1].errors
  }

  /** early_exit() was called by one of the first n outcomes. */
  predicate ExitCalled<P, T>(script: seq<Outcome<P, T>>, n: nat)
    requires n <= |script|
  {
    exists k :: 0 <= k < n && script[k].exit
  }

  /** Outcome n ends a run by errors: a pass returned, and by then errors have been reported since the start. */
  predicate ErrorsEnd<P, T>(stopOnError: bool, script: seq<Outcome<P, T>>, n: nat)
    requires n < |script|
  {
    stopOnError && script[n].Returned? && ErrorsOf(script, n + 1) > 0
  }

  /** Otherwise, a pass returned null. */
  predicate NullEnds<P, T>(stopOnError: bool, script: seq<Outcome<P, T>>, n: nat)
    requires n < |script|
  {
    !ErrorsEnd(stopOnError, script, n) && script[n].Returned? && script[n].after.None?
  }

  /** Otherwise, a pass returned a program after early_exit() had been called. */
  predicate ExitEnds<P, T>(stopOnError: bool, script: seq<Outcome<P, T>>, n: nat)
    requires n < |script|
  {
    !ErrorsEnd(stopOnError, script, n) && script[n].Returned? && script[n].after.Some? && ExitCalled(script, n + 1)
  }

  /** A trigger thrown at pass `it` is refused by every earlier pass. */
  ghost predicate Refused<P, T>(passes: Passes, it: nat, o: Outcome<P, T>)
    requires it <= |passes|
  {
    o.Threw? && forall p | 0 <= p < it && passes[p] :: p !in o.accepting
  }

  /** Pass `pos` was last entered with `input`. */
  ghost predicate LastEntered<P>(h: seq<Invocation<P>>, pos: nat, input: P) {
    exists j :: 0 <= j < |h| && h[j].pos == pos && h[j].input == input && forall i | j < i < |h| :: h[i].pos != pos
  }

  /** The invocation of pass `pos` with `input` follows the invocations in h: the first pass with the initial
      program, after a program the next pass with this program, after a trigger the nearest earlier pass that accepts
      it with the program it was last entered with, and nothing after an outcome that ends the run. */
  ghost predicate Follows<P, T>(passes: Passes, stopOnError: bool, initial: P, script: seq<Outcome<P, T>>,
                                      h: seq<Invocation<P>>, pos: nat, input: P)
    requires |h| <= |script|
  {
    if h == [] then pos == 0 && input == initial
    else
      var n := |h| - 1;
      match script[n]
      case Returned(after, _, _) =>
        && !ErrorsEnd(stopOnError, script, n) && after == Some(input) && !ExitCalled(script, n + 1)
        && pos == h[n].pos + 1
      case Threw(_, accepting, _, _) =>
        h[n].pos <= |passes| && Nearest(passes, h[n].pos, accepting, pos) && LastEntered(h, pos, input)
  }

  /** h lists the invocations of a run from the initial program, one for each outcome that was used. */
  ghost predicate Account<P, T>(passes: Passes, stopOnError: bool, initial: P, script: seq<Outcome<P, T>>,
                                      h: seq<Invocation<P>>)
  {
    && |h| <= |script|
    && forall k | 0 <= k < |h| ::
         && h[k].pos < |passes|
         && h[k].output == (if script[k].Threw? || ErrorsEnd(stopOnError, script, k) then None else script[k].after)
         && Follows(passes, stopOnError, initial, script, h[..k], h[k].pos, h[k].input)
  }

  /** How a run with the invocations in h ends. On errors the program is the one that the last pass received. */
  ghost predicate EndsAs<P, T>(passes: Passes, stopOnError: bool, initial: P, script: seq<Outcome<P, T>>,
                                           h: seq<Invocation<P>>, r: Ending<P, T>)
    requires Account(passes, stopOnError, initial, script, h)
  {
    if h == [] then r == if passes == [] then Done(Some(initial)) else Unfinished
    else
      var n := |h| - 1;
      if ErrorsEnd(stopOnError, script, n) then r == Done(Some(h[n].input))
      else if NullEnds(stopOnError, script, n) then r == Done(None)
      else if ExitEnds(stopOnError, script, n) then r == Done(script[n].after)
      else if Refused(passes, h[n].pos, script[n]) then r == Rethrown(script[n].trig)
      else if script[n].Returned? && h[n].pos + 1 == |passes| then r == Done(script[n].after)
      else r == Unfinished
  }

  /** A machine after the first |m.history| outcomes of a script */
  ghost predicate Accounted<P, T>(passes: Passes, stopOnError: bool, initial: P,
                                              script: seq<Outcome<P, T>>, m: Machine<P, T>)
  {
    var h := m.history;
    && Account(passes, stopOnError, initial, script, h)
    && m.errors == ErrorsOf(script, |h|) && m.exit == ExitCalled(script, |h|)
    && (m.status.Going? ==> Follows(passes, stopOnError, initial, script, h, m.it, m.program))
    && EndsAs(passes, stopOnError, initial, script, h, EndingOf(m))
  }

  lemma {:induction false} LastEntryIsLast<P>(h: seq<Invocation<P>>, pos: nat, input: P)
    requires LastEntry(h, pos) == Some(input)
    ensures LastEntered(h, pos, input)
  {
    var n := |h| - 1;
    if h[n].pos != pos {
      LastEntryIsLast(h[..n], pos, input);
      var j :| 0 <= j < n && h[..n][j].pos == pos && h[..n][j].input == input
               && forall i | j < i < n :: h[..n][i].pos != pos;
      assert h[j].pos == pos && h[j].input == input;
      assert forall i | j < i < n :: h[i] == h[..n][i];
    }
  }

  lemma AccountGrows<P, T>(passes: Passes, stopOnError: bool, initial: P, script: seq<Outcome<P, T>>,
                                 h: seq<Invocation<P>>, i: Invocation<P>)
    requires Account(passes, stopOnError, initial, script, h) && |h| < |script|
    requires Follows(passes, stopOnError, initial, script, h, i.pos, i.input) && i.pos < |passes|
    requires i.output
             == if script[|h|].Threw? || ErrorsEnd(stopOnError, script, |h|) then None else script[|h|].after
    ensures Account(passes, stopOnError, initial, script, h + [i])
  {
    var h' := h + [i];
    forall k | 0 <= k < |h'|
      ensures Follows(passes, stopOnError, initial, script, h'[..k], h'[k].pos, h'[k].input)
    {
      assert h'[..k] == if k < |h| then h[..k] else h;
    }
  }

  lemma ExitGrows<P, T>(script: seq<Outcome<P, T>>, n: nat)
    requires n < |script|
    ensures ExitCalled(script, n + 1) == (ExitCalled(script, n) || script[n].exit)
  {
  }

  lemma StepHistory<P, T>(passes: Passes, stopOnError: bool, m: Machine<P, T>, o: Outcome<P, T>)
    requires m.it < |passes|
    ensures var m' := Step(passes, stopOnError, m, o);
            && m'.history
               == m.history + [Invocation(m.it, m.program,
                                          if o.Threw? || (stopOnError && m.errors + o.errors > 0) then None
                                          else o.after)]
            && m'.errors == m.errors + o.errors && m'.exit == (m.exit || o.exit)
  {
    hide Unwind;
  }

  /** What a step does to the record, whatever the outcome */
  lemma StepRecords<P, T>(passes: Passes, stopOnError: bool, initial: P, script: seq<Outcome<P, T>>, m: Machine<P, T>)
    requires Accounted(passes, stopOnError, initial, script, m) && |m.history| < |script|
    requires m.status.Going? && m.it < |passes|
    ensures var n, m' := |m.history|, Step(passes, stopOnError, m, script[|m.history|]);
            && |m'.history| == n + 1 && m'.history[n].pos == m.it && m'.history[n].input == m.program
            && m'.history[..n] == m.history
            && Account(passes, stopOnError, initial, script, m'.history)
            && m.errors + script[n].errors == m'.errors == ErrorsOf(script, n + 1)
            && (m.exit || script[n].exit) == m'.exit == ExitCalled(script, n + 1)
  {
    hide Step, Follows, EndsAs, ExitCalled, Account;
    var n := |m.history|;
    StepHistory(passes, stopOnError, m, script[n]);
    ExitGrows(script, n);
    AccountGrows(passes, stopOnError, initial, script, m.history,
                 Step(passes, stopOnError, m, script[n]).history[n]);
  }

  lemma ReturnAccounted<P, T>(passes: Passes, stopOnError: bool, initial: P, script: seq<Outcome<P, T>>,
                                          m: Machine<P, T>)
    requires Accounted(passes, stopOnError, initial, script, m) && |m.history| < |script|
    requires m.status.Going? && m.it < |passes| && script[|m.history|].Returned?
    ensures Accounted(passes, stopOnError, initial, script, Step(passes, stopOnError, m, script[|m.history|]))
  {
    hide Step, ExitCalled, Account;
    StepRecords(passes, stopOnError, initial, script, m);
    CompletedOutcome(passes, stopOnError, m, script[|m.history|]);
  }

  lemma TriggerAccounted<P, T>(passes: Passes, stopOnError: bool, initial: P, script: seq<Outcome<P, T>>,
                                           m: Machine<P, T>)
    requires Accounted(passes, stopOnError, initial, script, m) && |m.history| < |script|
    requires m.status.Going? && m.it < |passes| && Inv(passes, initial, m) && script[|m.history|].Threw?
    ensures Accounted(passes, stopOnError, initial, script, Step(passes, stopOnError, m, script[|m.history|]))
  {
    hide Step, ExitCalled, Account, Inv, LastEntry;
    StepRecords(passes, stopOnError, initial, script, m);
    TriggerOutcome(passes, stopOnError, initial, m, script[|m.history|]);
    var m' := Step(passes, stopOnError, m, script[|m.history|]);
    if m'.status.Going? { LastEntryIsLast(m'.history, m'.it, m'.program); }
  }

  lemma StepAccounted<P, T>(passes: Passes, stopOnError: bool, initial: P, script: seq<Outcome<P, T>>,
                                        m: Machine<P, T>)
    requires Accounted(passes, stopOnError, initial, script, m) && |m.history| < |script|
    requires m.status.Going? && Inv(passes, initial, m)
    ensures var m' := Step(passes, stopOnError, m, script[|m.history|]);
            Accounted(passes, stopOnError, initial, script, m') && |m'.history| == |m.history| + 1
  {
    hide Accounted, Step, Settled, Chain, HasBackup, BackupOk, Sorted;
    StepRecords(passes, stopOnError, initial, script, m);
    if script[|m.history|].Returned? {
      ReturnAccounted(passes, stopOnError, initial, script, m);
    } else {
      TriggerAccounted(passes, stopOnError, initial, script, m);
    }
  }

  lemma {:induction false} RunAccounted<P, T>(
      passes: Passes, stopOnError: bool, initial: P, script: seq<Outcome<P, T>>, m: Machine<P, T>)
    requires Accounted(passes, stopOnError, initial, script, m) && Good(passes, initial, m)
    ensures var m' := Run(passes, stopOnError, m, script[|m.history|..]);
            && Accounted(passes, stopOnError, initial, script, m')
            && (m'.status.Going? ==> |m'.history| == |script|)
    decreases |script| - |m.history|
  {
    var n := |m.history|;
    if n < |script| && m.status.Going? {
      StepAccounted(passes, stopOnError, initial, script, m);
      StepKeeps(passes, stopOnError, initial, m, script[n]);
      assert script[n..][1..] == script[n + 1..];
      RunAccounted(passes, stopOnError, initial, script, Step(passes, stopOnError, m, script[n]));
    }
  }

  /** What holds after every script, for all passes and all that they may do: the history is the account of the run,
      which ends as the account says and is unfinished only when the script does not suffice. While the run goes on,
      each backup holds the program its pass received on its latest entry, and every earlier backtracking pass has
      one; a run that finishes, or exits early, returns the end of an unbroken chain of last completed
      invocations. */
  lemma EveryRun<P, T>(passes: Passes, stopOnError: bool, initial: P, script: seq<Outcome<P, T>>)
    ensures var m := Run(passes, stopOnError, Start(passes, initial), script);
            && Good(passes, initial, m)
            && Account(passes, stopOnError, initial, script, m.history)
            && EndsAs(passes, stopOnError, initial, script, m.history, EndingOf(m))
            && (EndingOf(m).Unfinished? ==> |m.history| == |script|)
  {
    RunKeeps(passes, stopOnError, initial, Start(passes, initial), script);
    assert script[0..] == script;
    RunAccounted(passes, stopOnError, initial, script, Start(passes, initial));
  }

  // ---- the account is unique ----

  lemma SameFollows<P, T>(passes: Passes, stopOnError: bool, initial: P, script: seq<Outcome<P, T>>,
                          h: seq<Invocation<P>>, pos: nat, input: P, pos': nat, input': P)
    requires |h| <= |script|
    requires Follows(passes, stopOnError, initial, script, h, pos, input)
    requires Follows(passes, stopOnError, initial, script, h, pos', input')
    ensures pos == pos' && input == input'
  {
  }

  /** Two accounts of one script agree as far as both go. */
  lemma {:induction false} AccountsAgree<P, T>(passes: Passes, stopOnError: bool, initial: P,
                                               script: seq<Outcome<P, T>>, h: seq<Invocation<P>>,
                                               h': seq<Invocation<P>>, n: nat)
    requires Account(passes, stopOnError, initial, script, h)
    requires Account(passes, stopOnError, initial, script, h')
    requires n <= |h| && n <= |h'|
    ensures h[..n] == h'[..n]
  {
    hide Follows;
    if n > 0 {
      var k := n - 1;
      AccountsAgree(passes, stopOnError, initial, script, h, h', k);
      SameFollows(passes, stopOnError, initial, script, h[..k], h[k].pos, h[k].input, h'[k].pos, h'[k].input);
    }
  }

  /** Only an unfinished run goes on. */
  lemma FollowsUnfinished<P, T>(passes: Passes, stopOnError: bool, initial: P, script: seq<Outcome<P, T>>,
                                h: seq<Invocation<P>>, r: Ending<P, T>, pos: nat, input: P)
    requires Account(passes, stopOnError, initial, script, h) && EndsAs(passes, stopOnError, initial, script, h, r)
    requires Follows(passes, stopOnError, initial, script, h, pos, input) && pos < |passes|
    ensures r.Unfinished?
  {
    hide Account, LastEntered, ErrorsOf;
  }

  lemma LongerUnfinished<P, T>(passes: Passes, stopOnError: bool, initial: P, script: seq<Outcome<P, T>>,
                               h: seq<Invocation<P>>, r: Ending<P, T>, h': seq<Invocation<P>>)
    requires Account(passes, stopOnError, initial, script, h) && EndsAs(passes, stopOnError, initial, script, h, r)
    requires Account(passes, stopOnError, initial, script, h') && |h| < |h'|
    ensures r.Unfinished? && |h| < |script|
  {
    hide EndsAs, Follows;
    var n := |h|;
    AccountsAgree(passes, stopOnError, initial, script, h, h', n);
    assert h == h'[..n];
    FollowsUnfinished(passes, stopOnError, initial, script, h, r, h'[n].pos, h'[n].input);
  }

  lemma SameEnding<P, T>(passes: Passes, stopOnError: bool, initial: P, script: seq<Outcome<P, T>>,
                         h: seq<Invocation<P>>, r: Ending<P, T>, r': Ending<P, T>)
    requires Account(passes, stopOnError, initial, script, h)
    requires EndsAs(passes, stopOnError, initial, script, h, r)
    requires EndsAs(passes, stopOnError, initial, script, h, r')
    ensures r == r'
  {
    hide Account, ErrorsOf, ExitCalled, Nearest;
  }

  /** The passes and what they do decide what is invoked and how the run ends. */
  lemma OneAccount<P, T>(passes: Passes, stopOnError: bool, initial: P, script: seq<Outcome<P, T>>,
                         h: seq<Invocation<P>>, r: Ending<P, T>, h': seq<Invocation<P>>, r': Ending<P, T>)
    requires Account(passes, stopOnError, initial, script, h)
    requires EndsAs(passes, stopOnError, initial, script, h, r) && (r.Unfinished? ==> |h| == |script|)
    requires Account(passes, stopOnError, initial, script, h')
    requires EndsAs(passes, stopOnError, initial, script, h', r') && (r'.Unfinished? ==> |h'| == |script|)
    ensures h == h' && r == r'
  {
    hide EndsAs;
    var n := if |h| <= |h'| then |h| else |h'|;
    AccountsAgree(passes, stopOnError, initial, script, h, h', n);
    assert h[..|h|] == h && h'[..|h'|] == h';
    if |h| == |h'| {
      SameEnding(passes, stopOnError, initial, script, h, r, r');
    } else if |h| < |h'| {
      LongerUnfinished(passes, stopOnError, initial, script, h, r, h');
    } else {
      LongerUnfinished(passes, stopOnError, initial, script, h', r', h);
    }
  }
}
