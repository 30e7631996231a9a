/** The run of a pass manager (ir/pass_manager.cpp) as a state machine: one step per invocation of a pass. What the
    passes do is arbitrary, so a run is driven by a script of outcomes; programs and triggers are any values. */
module PassMachine {
  import opened Wrappers

  /** Whether a pass takes part in backtracking (is a Backtrack and never_backtracks() is false) */
  type Passes = seq<bool>

  /** What one invocation of a pass does. `errors` is the number of errors it reports, `exit` whether it calls
      early_exit(). A thrown trigger comes with the set of passes whose backtrack() would accept it. */
  datatype Outcome<P, T> =
    | Returned(after: Option<P>, errors: nat, exit: bool)
    | Threw(trig: T, accepting: set<nat>, errors: nat, exit: bool)

  datatype Status<T> = Going | Finished | ErrorStop | NullProgram | EarlyExit | Escaped(trig: T)

  /** A backup: the position of a pass and the program that it received */
  datatype Backup<P> = Backup(pos: nat, program: P)

  /** The record of one invocation; there is no output when it threw, returned null or stopped on errors. */
  datatype Invocation<P> = Invocation(pos: nat, input: P, output: Option<P>)

  datatype Machine<P, T> = Machine(
    it: nat,
    program: P,
    backup: seq<Backup<P>>,
    errors: nat,
    exit: bool,
    status: Status<T>,
    history: seq<Invocation<P>>)

  function Start<P, T>(passes: Passes, program: P): Machine<P, T> {
    Machine(0, program, [], 0, false, if passes == [] then Finished else Going, [])
  }

  /** Entry to a pass: passes that may backtrack leave a backup. */
  function Pushed<P, T>(passes: Passes, m: Machine<P, T>): seq<Backup<P>>
    requires m.it < |passes|
  {
    if passes[m.it] then m.backup + [Backup(m.it, m.program)] else m.backup
  }

  /** The search through the backups after a trigger was thrown at position `it`: backups of the pass at hand are
      dropped; the pass of any other backup is asked, and becomes the pass at hand. */
  function Unwind<P>(backup: seq<Backup<P>>, it: nat, accepting: set<nat>): (rest: seq<Backup<P>>)
    decreases |backup|, if backup != [] && backup[|backup| - 1].pos == it then 0 else 1
  {
    if backup == [] then []
    else
      var b := backup[|backup| - 1];
      if b.pos == it then Unwind(backup[..|backup| - 1], it, accepting)
      else if b.pos in accepting then backup
      else Unwind(backup, b.pos, accepting)
  }

  function Step<P, T>(passes: Passes, stopOnError: bool, m: Machine<P, T>, o: Outcome<P, T>): Machine<P, T>
    requires m.it < |passes|
  {
    var backup, errors, exit := Pushed(passes, m), m.errors + o.errors, m.exit || o.exit;
    var failed := m.history + [Invocation(m.it, m.program, None)];
    match o
    case Threw(trig, accepting, _, _) =>
      var rest := Unwind(backup, m.it, accepting);
      if rest == [] then
        Machine(m.it, m.program, [], errors, exit, Escaped(trig), failed)
      else
        Machine(rest[|rest| - 1].pos, rest[|rest| - 1].program, rest, errors, exit, Going, failed)
    case Returned(after, _, _) =>
      if stopOnError && errors > 0 then
        Machine(m.it, m.program, backup, errors, exit, ErrorStop, failed)
      else if after.None? then
        Machine(m.it, m.program, backup, errors, exit, NullProgram, failed)
      else
        var completed := m.history + [Invocation(m.it, m.program, after)];
        if exit then
          Machine(m.it, after.value, backup, errors, exit, EarlyExit, completed)
        else
          Machine(m.it + 1, after.value, backup, errors, exit, if m.it + 1 == |passes| then Finished else Going,
                  completed)
  }

  /** The state that the outcomes of a script lead to, as far as they are used */
  function Run<P, T>(passes: Passes, stopOnError: bool, m: Machine<P, T>, script: seq<Outcome<P, T>>): Machine<P, T>
    decreases |script|
  {
    if script == [] || !m.status.Going? || m.it >= |passes| then m
    else Run(passes, stopOnError, Step(passes, stopOnError, m, script[0]), script[1..])
  }

  /** What apply_visitor returns: the program at hand, which is null when a pass returned null */
  function Returns<P, T>(m: Machine<P, T>): Option<P> {
    if m.status.NullProgram? then None else Some(m.program)
  }

  // ---- what a history tells ----

  /** The program that a pass received on its latest entry */
  function LastEntry<P>(h: seq<Invocation<P>>, pos: nat): Option<P> {
    if h == [] then None
    else if h[|h| - 1].pos == pos then Some(h[|h| - 1].input)
    else LastEntry(h[..|h| - 1], pos)
  }

  /** The last invocation of a pass that completed */
  function LastCompleted<P>(h: seq<Invocation<P>>, pos: nat): Option<Invocation<P>> {
    if h == [] then None
    else if h[|h| - 1].pos == pos && h[|h| - 1].output.Some? then Some(h[|h| - 1])
    else LastCompleted(h[..|h| - 1], pos)
  }

  /** The last completed invocations of the first n passes form an unbroken chain from the initial program to
      `program`. */
  predicate Chain<P(==)>(h: seq<Invocation<P>>, initial: P, n: nat, program: P) {
    if n == 0 then program == initial
    else
      var last := LastCompleted(h, n - 1);
      last.Some? && last.value.output == Some(program) && Chain(h, initial, n - 1, last.value.input)
  }

  lemma {:induction false} ChainFrame<P>(h: seq<Invocation<P>>, i: Invocation<P>, initial: P, n: nat, program: P)
    requires i.pos >= n || i.output.None?
    ensures Chain(h + [i], initial, n, program) <==> Chain(h, initial, n, program)
  {
    assert (h + [i])[..|h|] == h;
    if n > 0 && LastCompleted(h, n - 1).Some? {
      ChainFrame(h, i, initial, n - 1, LastCompleted(h, n - 1).value.input);
    }
  }

  lemma Appended<P>(h: seq<Invocation<P>>, i: Invocation<P>, pos: nat)
    ensures LastEntry(h + [i], pos) == if i.pos == pos then Some(i.input) else LastEntry(h, pos)
    ensures LastCompleted(h + [i], pos) == if i.pos == pos && i.output.Some? then Some(i) else LastCompleted(h, pos)
  {
    assert (h + [i])[..|h|] == h;
  }

  // ---- the invariant of every run ----

  /** A backup holds the program that its pass received on its latest entry. */
  ghost predicate BackupOk<P>(passes: Passes, h: seq<Invocation<P>>, it: nat, b: Backup<P>) {
    b.pos <= it && b.pos < |passes| && passes[b.pos] && LastEntry(h, b.pos) == Some(b.program)
  }

  ghost predicate Sorted<P>(backup: seq<Backup<P>>) {
    forall k, l | 0 <= k < l < |backup| :: backup[k].pos <= backup[l].pos
  }

  ghost predicate HasBackup<P>(backup: seq<Backup<P>>, pos: nat) {
    exists k :: 0 <= k < |backup| && backup[k].pos == pos
  }

  /** The pass at `pos` completed since it was last entered. */
  ghost predicate Settled<P>(h: seq<Invocation<P>>, pos: nat) {
    LastCompleted(h, pos).Some? && LastEntry(h, pos) == Some(LastCompleted(h, pos).value.input)
  }

  ghost predicate Inv<P, T>(passes: Passes, initial: P, m: Machine<P, T>) {
    && m.it <= |passes|
    && (m.status.Going? ==> m.it < |passes|)
    && Sorted(m.backup)
    && (forall k | 0 <= k < |m.backup| :: BackupOk(passes, m.history, m.it, m.backup[k]))
    && (forall k | 0 <= k < |m.backup| && m.backup[k].pos == m.it :: m.backup[k].program == m.program)
    && (forall p | 0 <= p < m.it && passes[p] :: HasBackup(m.backup, p))
    && (forall p | 0 <= p < m.it :: Settled(m.history, p))
    && Chain(m.history, initial, m.it, m.program)
  }

  lemma {:induction false} ChainPrefix<P>(h: seq<Invocation<P>>, initial: P, n: nat, program: P, a: nat)
    requires Chain(h, initial, n, program) && a < n
    ensures LastCompleted(h, a).Some? && Chain(h, initial, a, LastCompleted(h, a).value.input)
  {
    if a < n - 1 { ChainPrefix(h, initial, n - 1, LastCompleted(h, n - 1).value.input, a); }
  }

  /** Unwinding keeps a prefix of the backups. What it drops belongs to the pass that threw or to passes that
      refused; what it stops at is the latest backup of a pass that accepts. */
  ghost predicate Unwound<P>(backup: seq<Backup<P>>, rest: seq<Backup<P>>, it: nat, accepting: set<nat>) {
    && rest <= backup
    && (forall k | |rest| <= k < |backup| :: backup[k].pos == it || backup[k].pos !in accepting)
    && (rest != [] ==>
          var a := rest[|rest| - 1].pos;
          && a < it && a in accepting
          && forall k | |rest| <= k < |backup| :: backup[k].pos > a)
  }

  lemma {:induction false} UnwindResult<P>(backup: seq<Backup<P>>, it: nat, accepting: set<nat>)
    requires Sorted(backup) && forall k | 0 <= k < |backup| :: backup[k].pos <= it
    ensures Unwound(backup, Unwind(backup, it, accepting), it, accepting)
    decreases |backup|, if backup != [] && backup[|backup| - 1].pos == it then 0 else 1
  {
    hide Unwound;
    if backup == [] {
      StopsUnwound(backup, [], it, accepting);
    } else {
      var n := |backup| - 1;
      if backup[n].pos == it {
        UnwindResult(backup[..n], it, accepting);
        PoppedUnwound(backup, Unwind(backup[..n], it, accepting), it, accepting);
      } else if backup[n].pos in accepting {
        StopsUnwound(backup, backup, it, accepting);
      } else {
        UnwindResult(backup, backup[n].pos, accepting);
        RefusedUnwound(backup, Unwind(backup, backup[n].pos, accepting), it, accepting);
      }
    }
  }

  lemma StopsUnwound<P>(backup: seq<Backup<P>>, rest: seq<Backup<P>>, it: nat, accepting: set<nat>)
    requires rest == backup
    requires rest != [] ==> rest[|rest| - 1].pos < it && rest[|rest| - 1].pos in accepting
    ensures Unwound(backup, rest, it, accepting)
  {
  }

  lemma PoppedUnwound<P>(backup: seq<Backup<P>>, rest: seq<Backup<P>>, it: nat, accepting: set<nat>)
    requires backup != [] && backup[|backup| - 1].pos == it
    requires Unwound(backup[..|backup| - 1], rest, it, accepting)
    ensures Unwound(backup, rest, it, accepting)
  {
    var before := backup[..|backup| - 1];
    assert forall k | |rest| <= k < |before| :: backup[k] == before[k];
  }

  lemma RefusedUnwound<P>(backup: seq<Backup<P>>, rest: seq<Backup<P>>, it: nat, accepting: set<nat>)
    requires backup != [] && backup[|backup| - 1].pos < it && backup[|backup| - 1].pos !in accepting
    requires Unwound(backup, rest, backup[|backup| - 1].pos, accepting)
    ensures Unwound(backup, rest, it, accepting)
  {
  }

  /** Every state of a run, with what holds in it */
  ghost predicate Good<P, T>(passes: Passes, initial: P, m: Machine<P, T>) {
    match m.status
    case Going => Inv(passes, initial, m)
    case Finished => m.it == |passes| && Inv(passes, initial, m)
    case ErrorStop => Chain(m.history, initial, m.it, m.program)
    case NullProgram => Chain(m.history, initial, m.it, m.program)
    case EarlyExit => Chain(m.history, initial, m.it + 1, m.program)
    case Escaped(_) => m.backup == []
  }

  lemma PushedOk<P, T>(passes: Passes, initial: P, m: Machine<P, T>, output: Option<P>)
    requires Inv(passes, initial, m) && m.status.Going?
    ensures var backup, h := Pushed(passes, m), m.history + [Invocation(m.it, m.program, output)];
            && Sorted(backup)
            && (forall k | 0 <= k < |backup| :: BackupOk(passes, h, m.it, backup[k]))
            && (forall p | 0 <= p <= m.it && passes[p] :: HasBackup(backup, p))
            && (forall p | 0 <= p < m.it :: Settled(h, p))
            && Chain(h, initial, m.it, m.program)
  {
    var i := Invocation(m.it, m.program, output);
    var backup, h := Pushed(passes, m), m.history + [i];
    forall k | 0 <= k < |backup|
      ensures BackupOk(passes, h, m.it, backup[k])
    {
      Appended(m.history, i, backup[k].pos);
      if k < |m.backup| { assert backup[k] == m.backup[k] && BackupOk(passes, m.history, m.it, m.backup[k]); }
    }
    forall p | 0 <= p <= m.it && passes[p]
      ensures HasBackup(backup, p)
    {
      if p < m.it {
        assert HasBackup(m.backup, p);
        var k :| 0 <= k < |m.backup| && m.backup[k].pos == p;
        assert backup[k].pos == p;
      } else {
        assert backup[|backup| - 1].pos == p;
      }
    }
    forall p | 0 <= p < m.it
      ensures Settled(h, p)
    {
      Appended(m.history, i, p);
      assert Settled(m.history, p);
    }
    ChainFrame(m.history, i, initial, m.it, m.program);
  }

  /** Where a trigger thrown at `it` leads: the nearest strictly earlier pass that backtracks and accepts it */
  ghost predicate Nearest(passes: Passes, it: nat, accepting: set<nat>, a: nat)
    requires it <= |passes|
  {
    && a < it && passes[a] && a in accepting
    && forall p | a < p < it && passes[p] :: p !in accepting
  }

  /** A pass before `it` whose backups were all dropped is one that refused. */
  lemma DroppedRefused<P>(passes: Passes, backup: seq<Backup<P>>, it: nat, accepting: set<nat>, p: nat)
    requires Sorted(backup) && forall k | 0 <= k < |backup| :: backup[k].pos <= it
    requires HasBackup(backup, p) && p < it
    requires var rest := Unwind(backup, it, accepting); rest == [] || rest[|rest| - 1].pos < p
    ensures p !in accepting
  {
    UnwindResult(backup, it, accepting);
    var rest := Unwind(backup, it, accepting);
    assert rest != [] ==> backup[|rest| - 1] == rest[|rest| - 1];
    var k :| 0 <= k < |backup| && backup[k].pos == p;
    assert |rest| <= k;
  }

  lemma UnwindNearest<P>(passes: Passes, backup: seq<Backup<P>>, h: seq<Invocation<P>>, it: nat, accepting: set<nat>)
    requires it <= |passes| && Sorted(backup)
    requires forall k | 0 <= k < |backup| :: BackupOk(passes, h, it, backup[k])
    requires forall p | 0 <= p < it && passes[p] :: HasBackup(backup, p)
    ensures var rest := Unwind(backup, it, accepting);
            if rest == [] then forall p | 0 <= p < it && passes[p] :: p !in accepting
            else
              var b := rest[|rest| - 1];
              Nearest(passes, it, accepting, b.pos) && LastEntry(h, b.pos) == Some(b.program)
  {
    forall k | 0 <= k < |backup| ensures backup[k].pos <= it { assert BackupOk(passes, h, it, backup[k]); }
    UnwindResult(backup, it, accepting);
    var rest := Unwind(backup, it, accepting);
    if rest != [] {
      assert rest[|rest| - 1] == backup[|rest| - 1];
      assert BackupOk(passes, h, it, backup[|rest| - 1]);
    }
    forall p | 0 <= p < it && passes[p] && (rest == [] || rest[|rest| - 1].pos < p)
      ensures p !in accepting
    {
      DroppedRefused(passes, backup, it, accepting, p);
    }
  }

  /** A trigger resumes the nearest strictly earlier accepting pass with the program of its latest entry, and
      escapes exactly when every earlier pass refuses. */
  lemma TriggerOutcome<P, T>(passes: Passes, stopOnError: bool, initial: P, m: Machine<P, T>, o: Outcome<P, T>)
    requires Inv(passes, initial, m) && m.status.Going? && o.Threw?
    ensures var m' := Step(passes, stopOnError, m, o);
            if m'.status.Escaped? then
              m'.status.trig == o.trig && forall p | 0 <= p < m.it && passes[p] :: p !in o.accepting
            else
              m'.status.Going? && Nearest(passes, m.it, o.accepting, m'.it)
              && LastEntry(m'.history, m'.it) == Some(m'.program)
  {
    PushedOk(passes, initial, m, None);
    UnwindNearest(passes, Pushed(passes, m), m.history + [Invocation(m.it, m.program, None)], m.it, o.accepting);
  }

  lemma {:induction false} TriggerKeeps<P, T>(passes: Passes, stopOnError: bool, initial: P, m: Machine<P, T>,
                                              o: Outcome<P, T>)
    requires Inv(passes, initial, m) && m.status.Going? && o.Threw?
    ensures Good(passes, initial, Step(passes, stopOnError, m, o))
  {
    hide Settled, Chain, HasBackup, Sorted;
    var backup, h := Pushed(passes, m), m.history + [Invocation(m.it, m.program, None)];
    PushedOk(passes, initial, m, None);
    forall k | 0 <= k < |backup| ensures backup[k].pos <= m.it { assert BackupOk(passes, h, m.it, backup[k]); }
    UnwindResult(backup, m.it, o.accepting);
    if Unwind(backup, m.it, o.accepting) != [] {
      ResumedInv(passes, initial, Step(passes, stopOnError, m, o), backup, m.it, m.program);
    }
  }

  /** The invariant holds again where a run resumes. */
  lemma ResumedInv<P, T>(passes: Passes, initial: P, m: Machine<P, T>, backup: seq<Backup<P>>, it: nat, program: P)
    requires m.backup != [] && m.backup <= backup && Sorted(backup) && it <= |passes| && m.status.Going?
    requires var b := m.backup[|m.backup| - 1]; m.it == b.pos < it && m.program == b.program
    requires forall k | |m.backup| <= k < |backup| :: backup[k].pos > m.it
    requires forall k | 0 <= k < |backup| :: BackupOk(passes, m.history, it, backup[k])
    requires forall p | 0 <= p < it && passes[p] :: HasBackup(backup, p)
    requires forall p | 0 <= p < it :: Settled(m.history, p)
    requires Chain(m.history, initial, it, program)
    ensures Inv(passes, initial, m)
  {
    var last := m.backup[|m.backup| - 1];
    assert last == backup[|m.backup| - 1];
    forall k | 0 <= k < |m.backup|
      ensures BackupOk(passes, m.history, m.it, m.backup[k])
      ensures m.backup[k].pos == m.it ==> m.backup[k].program == m.program
    {
      assert m.backup[k] == backup[k] && BackupOk(passes, m.history, it, backup[k]);
      assert BackupOk(passes, m.history, it, last);
    }
    forall p | 0 <= p < m.it && passes[p]
      ensures HasBackup(m.backup, p)
    {
      assert HasBackup(backup, p);
      var k :| 0 <= k < |backup| && backup[k].pos == p;
      assert m.backup[k] == backup[k];
    }
    ChainPrefix(m.history, initial, it, program, m.it);
    assert Settled(m.history, m.it);
  }

  lemma StillBacked<P>(passes: Passes, h: seq<Invocation<P>>, it: nat, b: Backup<P>)
    requires BackupOk(passes, h, it, b)
    ensures BackupOk(passes, h, it + 1, b) && b.pos != it + 1
  {
  }

  /** A pass that returns ends the run on errors with the program it received, on null, or after early_exit();
      otherwise the run goes on with the next pass. */
  lemma CompletedOutcome<P, T>(passes: Passes, stopOnError: bool, m: Machine<P, T>, o: Outcome<P, T>)
    requires m.it < |passes| && o.Returned?
    ensures var m' := Step(passes, stopOnError, m, o);
            if stopOnError && m.errors + o.errors > 0 then m'.status.ErrorStop? && m'.program == m.program
            else if o.after.None? then m'.status.NullProgram?
            else
              && m'.program == o.after.value && (m.exit || o.exit <==> m'.status.EarlyExit?)
              && (!m.exit && !o.exit ==>
                    m'.it == m.it + 1 && m'.status == if m'.it == |passes| then Finished else Going)
  {
  }

  lemma StoppedGood<P, T>(passes: Passes, stopOnError: bool, initial: P, m: Machine<P, T>, o: Outcome<P, T>)
    requires Inv(passes, initial, m) && m.status.Going? && o.Returned?
    requires o.after.None? || (stopOnError && m.errors + o.errors > 0)
    ensures Good(passes, initial, Step(passes, stopOnError, m, o))
  {
    hide BackupOk, Settled, HasBackup, Sorted;
    PushedOk(passes, initial, m, None);
  }

  /** The backups after a pass completed, seen from the next pass */
  lemma AdvancedBackups<P, T>(passes: Passes, initial: P, m: Machine<P, T>, output: Option<P>)
    requires Inv(passes, initial, m) && m.status.Going?
    ensures var backup, h := Pushed(passes, m), m.history + [Invocation(m.it, m.program, output)];
            forall k | 0 <= k < |backup| :: BackupOk(passes, h, m.it + 1, backup[k]) && backup[k].pos != m.it + 1
  {
    hide Settled, HasBackup, Sorted, Chain;
    PushedOk(passes, initial, m, output);
    var backup, h := Pushed(passes, m), m.history + [Invocation(m.it, m.program, output)];
    forall k | 0 <= k < |backup|
      ensures BackupOk(passes, h, m.it + 1, backup[k]) && backup[k].pos != m.it + 1
    {
      StillBacked(passes, h, m.it, backup[k]);
    }
  }

  lemma AdvancedGood<P, T>(passes: Passes, stopOnError: bool, initial: P, m: Machine<P, T>, o: Outcome<P, T>)
    requires Inv(passes, initial, m) && m.status.Going? && o.Returned?
    requires o.after.Some? && !(stopOnError && m.errors + o.errors > 0)
    ensures Good(passes, initial, Step(passes, stopOnError, m, o))
  {
    hide BackupOk, HasBackup, Sorted;
    PushedOk(passes, initial, m, o.after);
    AdvancedBackups(passes, initial, m, o.after);
    Appended(m.history, Invocation(m.it, m.program, o.after), m.it);
  }

  lemma CompletedKeeps<P, T>(passes: Passes, stopOnError: bool, initial: P, m: Machine<P, T>, o: Outcome<P, T>)
    requires Inv(passes, initial, m) && m.status.Going? && o.Returned?
    ensures Good(passes, initial, Step(passes, stopOnError, m, o))
    ensures var m' := Step(passes, stopOnError, m, o);
            if stopOnError && m.errors + o.errors > 0 then m'.status.ErrorStop? && m'.program == m.program
            else if o.after.None? then m'.status.NullProgram?
            else
              && m'.program == o.after.value && (m.exit || o.exit <==> m'.status.EarlyExit?)
              && (!m.exit && !o.exit ==>
                    m'.it == m.it + 1 && m'.status == if m'.it == |passes| then Finished else Going)
  {
    hide Step, Good;
    CompletedOutcome(passes, stopOnError, m, o);
    if o.after.None? || (stopOnError && m.errors + o.errors > 0) {
      StoppedGood(passes, stopOnError, initial, m, o);
    } else {
      AdvancedGood(passes, stopOnError, initial, m, o);
    }
  }

  lemma StepKeeps<P, T>(passes: Passes, stopOnError: bool, initial: P, m: Machine<P, T>, o: Outcome<P, T>)
    requires m.status.Going? && Good(passes, initial, m)
    ensures Good(passes, initial, Step(passes, stopOnError, m, o))
  {
    if o.Threw? {
      TriggerKeeps(passes, stopOnError, initial, m, o);
    } else {
      CompletedKeeps(passes, stopOnError, initial, m, o);
    }
  }

  lemma {:induction false} RunKeeps<P, T>(passes: Passes, stopOnError: bool, initial: P, m: Machine<P, T>,
                                         script: seq<Outcome<P, T>>)
    requires Good(passes, initial, m)
    ensures Good(passes, initial, Run(passes, stopOnError, m, script))
    decreases |script|
  {
    if script != [] && m.status.Going? {
      StepKeeps(passes, stopOnError, initial, m, script[0]);
      RunKeeps(passes, stopOnError, initial, Step(passes, stopOnError, m, script[0]), script[1..]);
    }
  }
}
