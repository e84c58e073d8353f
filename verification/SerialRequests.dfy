/** Requests that run one after the other on the memory backend
    (fastapi_modular/infrastructure/database/memory.py): what they leave is what
    nested transactions with a log for each open block would leave, and the
    programs that `Transactions` runs take their steps in the order this asks for. */
module SerialRequests {
  import opened Wrappers
  import opened Transactions
  import opened Interleaving

  /** The task has attempted a write or has a block open. */
  predicate Active(steps: seq<Step>, n: nat, task: nat)
    requires n <= |steps|
  {
    JoinedAt(steps, n, task).Some? || OpenedAt(steps, n, task) != []
  }

  /** No step of a task comes while another one is active. */
  ghost predicate Serial(steps: seq<Step>, n: nat)
    requires n <= |steps|
  {
    forall i, t :: 0 <= i < n && t != steps[i].task ==> !Active(steps, i, t)
  }

  /** Every write comes after its request's attempt, every leaving after an
      opening, and a request ends with all of its blocks left. */
  ghost predicate Orderly(steps: seq<Step>, n: nat)
    requires n <= |steps|
  {
    forall i :: 0 <= i < n ==> StepOrderly(steps, i)
  }

  ghost predicate StepOrderly(steps: seq<Step>, i: nat)
    requires i < |steps|
  {
    match steps[i]
    case Does(task, _) => JoinedAt(steps, i, task).Some?
    case Closes(task, _) => OpenedAt(steps, i, task) != []
    case Ends(task, _) => OpenedAt(steps, i, task) == []
    case _ => true
  }

  /** The writes of the requests that did not fail, and a log for the open
      request with one more for each block it has open, innermost last. */
  datatype Ledger = Ledger(kept: seq<Write>, logs: seq<seq<Write>>)

  function Flat(logs: seq<seq<Write>>): seq<Write> {
    if logs == [] then [] else Flat(Front(logs)) + Last(logs)
  }

  function All(l: Ledger): seq<Write> {
    l.kept + Flat(l.logs)
  }

  /** Nested transactions as a database would log them: a block that does not
      finish drops its log, one that does adds it to the log around it, and a
      failed request drops everything. */
  function Enter(step: Step, l: Ledger): (after: Ledger)
    requires l.logs != []
    ensures after.logs != []
  {
    match step
    case Joins(_) => l
    case Does(_, write) => l.(logs := Front(l.logs) + [Last(l.logs) + [write]])
    case Opens(_) => l.(logs := l.logs + [[]])
    case Closes(_, aborted) =>
      if |l.logs| == 1 then l
      else if aborted then l.(logs := Front(l.logs))
      else
        var around := Front(l.logs);
        l.(logs := Front(around) + [Last(around) + Last(l.logs)])
    case Ends(_, failed) => Ledger(if failed then l.kept else All(l), [[]])
  }

  function Book(steps: seq<Step>, n: nat): (l: Ledger)
    requires n <= |steps|
    ensures l.logs != []
  {
    if n == 0 then Ledger([], [[]]) else Enter(steps[n - 1], Book(steps, n - 1))
  }

  /** What the logs held when block i was opened. */
  function Below(l: Ledger, i: nat): seq<Write>
    requires i < |l.logs|
  {
    l.kept + Flat(l.logs[..i + 1])
  }

  /** The snapshots of the one active task stand where its logs say. */
  ghost predicate Booked(steps: seq<Step>, n: nat, task: nat)
    requires n <= |steps|
  {
    BlocksBooked(steps, OpenedAt(steps, n, task), Book(steps, n))
      && JoinBooked(steps, JoinedAt(steps, n, task), Book(steps, n))
  }

  ghost predicate BlocksBooked(steps: seq<Step>, open: seq<nat>, l: Ledger) {
    && |l.logs| == |open| + 1
    && forall i :: 0 <= i < |open| ==> open[i] <= |steps| && Survivors(steps, open[i]) == Below(l, i)
  }

  ghost predicate JoinBooked(steps: seq<Step>, at: Option<nat>, l: Ledger) {
    match at
    case None => Flat(l.logs) == []
    case Some(n) => n <= |steps| && Survivors(steps, n) == l.kept
  }

  ghost predicate BookRight(steps: seq<Step>, n: nat)
    requires n <= |steps|
  {
    && Survivors(steps, n) == All(Book(steps, n))
    && (forall t :: Active(steps, n, t) ==> Booked(steps, n, t))
    && ((forall t :: !Active(steps, n, t)) ==> Book(steps, n).logs == [[]])
  }

  /** Requests one after the other are nested transactions: the tables hold
      exactly the writes of finished blocks of requests that did not fail, and
      those of the request still open. */
  lemma SerialRequestsAreAtomic(steps: seq<Step>, rows: Rows)
    requires Serial(steps, |steps|) && Orderly(steps, |steps|)
    ensures After(steps, Shared(rows, map[], map[])).rows == Replay(rows, All(Book(steps, |steps|)))
  {
    SerialBook(steps, |steps|);
    TablesHoldSurvivors(steps, |steps|, rows);
    assert steps[..|steps|] == steps;
  }

  lemma {:induction false} SerialBook(steps: seq<Step>, n: nat)
    requires n <= |steps| && Serial(steps, n) && Orderly(steps, n)
    ensures BookRight(steps, n)
  {
    if n == 0 {
      EmptyBook(steps);
    } else {
      SerialBook(steps, n - 1);
      assert StepOrderly(steps, n - 1);
      OthersIdle(steps, n);
      BookedEvenIfIdle(steps, n - 1, steps[n - 1].task);
      BookStep(steps, n);
    }
  }

  lemma EmptyBook(steps: seq<Step>)
    ensures BookRight(steps, 0)
  {
    assert All(Book(steps, 0)) == [];
  }

  ghost predicate OnlyActive(steps: seq<Step>, n: nat, task: nat)
    requires n <= |steps|
  {
    forall t :: t != task ==> !Active(steps, n, t)
  }

  lemma OthersIdle(steps: seq<Step>, n: nat)
    requires 0 < n <= |steps| && Serial(steps, n)
    ensures OnlyActive(steps, n - 1, steps[n - 1].task) && OnlyActive(steps, n, steps[n - 1].task)
  {
    forall t | t != steps[n - 1].task ensures !Active(steps, n - 1, t) && !Active(steps, n, t) {
      assert !Active(steps, n - 1, t);
    }
  }

  lemma BookedEvenIfIdle(steps: seq<Step>, n: nat, task: nat)
    requires n <= |steps| && BookRight(steps, n) && OnlyActive(steps, n, task)
    ensures Booked(steps, n, task)
  {
    if !Active(steps, n, task) {
      assert Book(steps, n).logs == [[]];
    }
  }

  lemma BookStep(steps: seq<Step>, n: nat)
    requires 0 < n <= |steps| && ReadyToBook(steps, n) && OnlyActive(steps, n, steps[n - 1].task)
    ensures BookRight(steps, n)
  {
    var task := steps[n - 1].task;
    match steps[n - 1] {
      case Joins(_) => BookJoin(steps, n);
      case Does(_, _) => BookWrite(steps, n);
      case Opens(_) => BookOpening(steps, n);
      case Closes(_, _) => BookLeaving(steps, n);
      case Ends(_, _) => BookEnd(steps, n);
    }
    if !Active(steps, n, task) {
      OneEmptyLog(Book(steps, n).logs);
    }
  }

  ghost predicate ReadyToBook(steps: seq<Step>, n: nat)
    requires 0 < n <= |steps|
  {
    && StepOrderly(steps, n - 1)
    && Survivors(steps, n - 1) == All(Book(steps, n - 1))
    && Booked(steps, n - 1, steps[n - 1].task)
  }

  ghost predicate NowBooked(steps: seq<Step>, n: nat)
    requires 0 < n <= |steps|
  {
    Survivors(steps, n) == All(Book(steps, n)) && Booked(steps, n, steps[n - 1].task)
  }

  /** What a step that does not go back leaves as it was. */
  lemma UnlessBack(steps: seq<Step>, n: nat)
    requires 0 < n <= |steps| && Back(steps, n).None?
    ensures var step := steps[n - 1];
      && Survivors(steps, n) == (if step.Does? then Survivors(steps, n - 1) + [step.write] else Survivors(steps, n - 1))
      && (!step.Joins? && !step.Ends? ==> JoinedAt(steps, n, step.task) == JoinedAt(steps, n - 1, step.task))
      && (!step.Opens? && !step.Closes? ==> OpenedAt(steps, n, step.task) == OpenedAt(steps, n - 1, step.task))
  {
    SurvivorsStep(steps, n);
  }

  lemma BookJoin(steps: seq<Step>, n: nat)
    requires 0 < n <= |steps| && steps[n - 1].Joins? && ReadyToBook(steps, n)
    ensures NowBooked(steps, n)
  {
    var task, l := steps[n - 1].task, Book(steps, n - 1);
    UnlessBack(steps, n);
    assert Book(steps, n) == l;
    if JoinedAt(steps, n - 1, task).None? {
      assert All(l) == l.kept;
      assert JoinedAt(steps, n, task) == Some(n - 1);
      assert JoinBooked(steps, Some(n - 1), l);
    } else {
      assert JoinedAt(steps, n, task) == JoinedAt(steps, n - 1, task);
    }
  }

  lemma BookWrite(steps: seq<Step>, n: nat)
    requires 0 < n <= |steps| && steps[n - 1].Does? && ReadyToBook(steps, n)
    ensures NowBooked(steps, n)
  {
    UnlessBack(steps, n);
    WriteLogs(steps[n - 1], Book(steps, n - 1));
  }

  lemma WriteLogs(step: Step, l: Ledger)
    requires step.Does? && l.logs != []
    ensures |Enter(step, l).logs| == |l.logs| && All(Enter(step, l)) == All(l) + [step.write]
    ensures forall i :: 0 <= i < |l.logs| - 1 ==> Below(Enter(step, l), i) == Below(l, i)
  {
    var after := Enter(step, l).logs;
    assert Front(after) == Front(l.logs);
    forall i | 0 <= i < |l.logs| - 1 ensures Below(Enter(step, l), i) == Below(l, i) {
      assert after[..i + 1] == l.logs[..i + 1];
    }
  }

  lemma BookOpening(steps: seq<Step>, n: nat)
    requires 0 < n <= |steps| && steps[n - 1].Opens? && ReadyToBook(steps, n)
    ensures NowBooked(steps, n)
  {
    var step, l := steps[n - 1], Book(steps, n - 1);
    var open, at := OpenedAt(steps, n - 1, step.task), JoinedAt(steps, n - 1, step.task);
    OpeningBooked(steps, step, open, at, l, n - 1);
    NowIs(steps, n, open + [n - 1], at, Enter(step, l));
  }

  lemma NowIs(steps: seq<Step>, n: nat, open: seq<nat>, at: Option<nat>, l: Ledger)
    requires 0 < n <= |steps| && steps[n - 1].Opens? && l == Enter(steps[n - 1], Book(steps, n - 1))
    requires open == OpenedAt(steps, n - 1, steps[n - 1].task) + [n - 1]
      && at == JoinedAt(steps, n - 1, steps[n - 1].task)
    requires BlocksBooked(steps, open, l) && JoinBooked(steps, at, l) && Survivors(steps, n - 1) == All(l)
    ensures NowBooked(steps, n)
  {
    SurvivorsStep(steps, n);
  }

  lemma OpeningBooked(steps: seq<Step>, step: Step, open: seq<nat>, at: Option<nat>, l: Ledger, n: nat)
    requires step.Opens? && BlocksBooked(steps, open, l) && JoinBooked(steps, at, l)
    requires n <= |steps| && Survivors(steps, n) == All(l)
    ensures BlocksBooked(steps, open + [n], Enter(step, l)) && JoinBooked(steps, at, Enter(step, l))
    ensures All(Enter(step, l)) == All(l)
  {
    OpeningLogs(step, l);
    OneMoreBlock(steps, open, l, Enter(step, l), n);
  }

  lemma OneMoreBlock(steps: seq<Step>, open: seq<nat>, l: Ledger, after: Ledger, n: nat)
    requires BlocksBooked(steps, open, l) && n <= |steps| && Survivors(steps, n) == All(l)
    requires |after.logs| == |l.logs| + 1 && Below(after, |l.logs| - 1) == All(l)
    requires forall i :: 0 <= i < |l.logs| - 1 ==> Below(after, i) == Below(l, i)
    ensures BlocksBooked(steps, open + [n], after)
  {
  }

  lemma OpeningLogs(step: Step, l: Ledger)
    requires step.Opens? && l.logs != []
    ensures var after := Enter(step, l);
      && |after.logs| == |l.logs| + 1
      && All(after) == All(l) && Flat(after.logs) == Flat(l.logs)
      && Below(after, |l.logs| - 1) == All(l)
      && forall i :: 0 <= i < |l.logs| - 1 ==> Below(after, i) == Below(l, i)
  {
    var after := Enter(step, l).logs;
    assert Front(after) == after[..|l.logs|] == l.logs;
    forall i | 0 <= i < |l.logs| - 1 ensures Below(Enter(step, l), i) == Below(l, i) {
      assert after[..i + 1] == l.logs[..i + 1];
    }
  }

  lemma BookLeaving(steps: seq<Step>, n: nat)
    requires 0 < n <= |steps| && steps[n - 1].Closes? && ReadyToBook(steps, n)
    ensures NowBooked(steps, n)
  {
    var step, open, l := steps[n - 1], OpenedAt(steps, n - 1, steps[n - 1].task), Book(steps, n - 1);
    LeavingLogs(step, l);
    OneLessBlock(steps, open, l, Enter(step, l));
    assert JoinedAt(steps, n, step.task) == JoinedAt(steps, n - 1, step.task);
    assert OpenedAt(steps, n, step.task) == Front(open);
    SurvivorsStep(steps, n);
  }

  lemma OneLessBlock(steps: seq<Step>, open: seq<nat>, l: Ledger, after: Ledger)
    requires BlocksBooked(steps, open, l) && open != [] && |after.logs| == |l.logs| - 1
    requires forall i :: 0 <= i < |l.logs| - 2 ==> Below(after, i) == Below(l, i)
    ensures BlocksBooked(steps, Front(open), after)
  {
  }

  lemma LeavingLogs(step: Step, l: Ledger)
    requires step.Closes? && |l.logs| > 1
    ensures var after := Enter(step, l);
      && |after.logs| == |l.logs| - 1
      && All(after) == (if step.aborted then Below(l, |l.logs| - 2) else All(l))
      && (Flat(l.logs) == [] ==> Flat(after.logs) == [])
      && forall i :: 0 <= i < |l.logs| - 2 ==> Below(after, i) == Below(l, i)
  {
    var after, around := Enter(step, l).logs, Front(l.logs);
    assert l.logs[..|l.logs| - 1] == around;
    if !step.aborted {
      assert Front(after) == Front(around);
      calc {
        Flat(after);
        Flat(Front(around)) + (Last(around) + Last(l.logs));
        Flat(around) + Last(l.logs);
        Flat(l.logs);
      }
    }
    forall i | 0 <= i < |l.logs| - 2 ensures Below(Enter(step, l), i) == Below(l, i) {
      assert after[..i + 1] == l.logs[..i + 1];
    }
  }

  lemma BookEnd(steps: seq<Step>, n: nat)
    requires 0 < n <= |steps| && steps[n - 1].Ends? && ReadyToBook(steps, n)
    ensures NowBooked(steps, n)
  {
    var l := Book(steps, n - 1);
    assert Flat([[]]) == [];
    assert JoinedAt(steps, n - 1, steps[n - 1].task).None? ==> All(l) == l.kept;
    assert l.kept + [] == l.kept && All(l) + [] == All(l);
  }

  lemma OneEmptyLog(logs: seq<seq<Write>>)
    requires |logs| == 1 && Flat(logs) == []
    ensures logs == [[]]
  {
    assert Front(logs) == [];
  }

  // ------------------------------------------------- programs behave that way

  lemma {:induction false} PrefixDecides(a: seq<Step>, b: seq<Step>, n: nat, task: nat)
    requires n <= |a|
    ensures JoinedAt(a + b, n, task) == JoinedAt(a, n, task) && OpenedAt(a + b, n, task) == OpenedAt(a, n, task)
  {
    if n > 0 { PrefixDecides(a, b, n - 1, task); }
  }

  /** One more step after an orderly run. */
  lemma OrderlyNext(steps: seq<Step>, step: Step)
    requires Orderly(steps, |steps|)
    requires StepOrderly(steps + [step], |steps|)
    ensures Orderly(steps + [step], |steps + [step]|)
  {
    forall i | 0 <= i < |steps| ensures StepOrderly(steps + [step], i) {
      assert StepOrderly(steps, i);
      PrefixDecides(steps, [step], i, steps[i].task);
    }
  }

  /** What a run tells the task that goes on from it. */
  ghost predicate GoesOn(before: seq<Step>, task: nat, s: State, open: seq<nat>) {
    && Orderly(before, |before|)
    && (JoinedAt(before, |before|, task).Some? <==> s.held.Taken?)
    && OpenedAt(before, |before|, task) == open
  }

  /** A program of a request, run after any orderly run, leaves it orderly, with
      all of its own blocks left. */
  lemma {:induction false} ProgramIsOrderly(schema: Schema, p: Prog, task: nat, s: State, before: seq<Step>,
      open: seq<nat>)
    requires s.held != NoRequest && GoesOn(before, task, s, open)
    ensures GoesOn(before + StepsOf(schema, p, task, s), task, Meaning(schema, p, s).0, open)
    ensures Meaning(schema, p, s).0.held != NoRequest
    decreases p
  {
    match p
    case Seq(first, rest) =>
      var (t, outcome) := Meaning(schema, first, s);
      var steps := StepsOf(schema, first, task, s);
      ProgramIsOrderly(schema, first, task, s, before, open);
      if outcome == Done {
        ProgramIsOrderly(schema, rest, task, t, before + steps, open);
        Associate(before, steps, StepsOf(schema, rest, task, t));
      } else {
        assert steps + [] == steps;
      }
    case Try(body, handler) =>
      var (t, outcome) := Meaning(schema, body, s);
      var steps := StepsOf(schema, body, task, s);
      ProgramIsOrderly(schema, body, task, s, before, open);
      if outcome != Done {
        ProgramIsOrderly(schema, handler, task, t, before + steps, open);
        Associate(before, steps, StepsOf(schema, handler, task, t));
      } else {
        assert steps + [] == steps;
      }
    case Block(body) =>
      var (t, outcome) := Meaning(schema, body, s);
      var steps, opening, leaving := StepsOf(schema, body, task, s), Opens(task), Closes(task, outcome != Done);
      GoesOnNext(before, task, s, open, opening);
      ProgramIsOrderly(schema, body, task, s, before + [opening], open + [|before|]);
      LeavingIsOrderly(before, steps, task, t, Meaning(schema, p, s).0, open, outcome != Done);
    case _ => OperationIsOrderly(schema, p, task, s, before, open);
  }

  lemma Associate(a: seq<Step>, b: seq<Step>, c: seq<Step>)
    ensures a + (b + c) == a + b + c
  {
  }

  lemma LeavingIsOrderly(before: seq<Step>, steps: seq<Step>, task: nat, t: State, after: State, open: seq<nat>,
      aborted: bool)
    requires GoesOn(before + [Opens(task)] + steps, task, t, open + [|before|]) && after.held == t.held
    ensures GoesOn(before + ([Opens(task)] + steps + [Closes(task, aborted)]), task, after, open)
  {
    var leaving := Closes(task, aborted);
    GoesOnNext(before + [Opens(task)] + steps, task, t, open + [|before|], leaving);
    assert before + ([Opens(task)] + steps + [leaving]) == before + [Opens(task)] + steps + [leaving];
  }

  /** So a request, from its beginning to its end, is orderly. */
  lemma RequestIsOrderly(schema: Schema, handler: Prog, task: nat, s: State, before: seq<Step>, failed: bool)
    requires s.held == NotYet && Orderly(before, |before|) && !Active(before, |before|, task)
    ensures var steps := before + StepsOf(schema, handler, task, s) + [Ends(task, failed)];
      Orderly(steps, |steps|) && !Active(steps, |steps|, task)
  {
    ProgramIsOrderly(schema, handler, task, s, before, []);
    EndIsOrderly(before + StepsOf(schema, handler, task, s), task, failed);
  }

  lemma EndIsOrderly(steps: seq<Step>, task: nat, failed: bool)
    requires Orderly(steps, |steps|) && OpenedAt(steps, |steps|, task) == []
    ensures var ended := steps + [Ends(task, failed)]; Orderly(ended, |ended|) && !Active(ended, |ended|, task)
  {
    PrefixDecides(steps, [Ends(task, failed)], |steps|, task);
    OrderlyNext(steps, Ends(task, failed));
  }

  lemma GoesOnNext(before: seq<Step>, task: nat, s: State, open: seq<nat>, step: Step)
    requires GoesOn(before, task, s, open) && step.task == task && !step.Ends?
    requires (step.Closes? ==> open != []) && (step.Does? ==> s.held.Taken?)
    ensures GoesOn(before + [step], task,
      if step.Joins? && !s.held.Taken? then s.(held := Taken(s.rows)) else s,
      if step.Opens? then open + [|before|] else if step.Closes? then Front(open) else open)
  {
    PrefixDecides(before, [step], |before|, task);
    OrderlyNext(before, step);
  }

  lemma OperationIsOrderly(schema: Schema, p: Prog, task: nat, s: State, before: seq<Step>, open: seq<nat>)
    requires s.held != NoRequest && GoesOn(before, task, s, open) && !p.Seq? && !p.Block? && !p.Try?
    ensures GoesOn(before + StepsOf(schema, p, task, s), task, Meaning(schema, p, s).0, open)
    ensures Meaning(schema, p, s).0.held != NoRequest
  {
    if Attempts(p, s) {
      AttemptHolds(schema, p, s);
      var writes := Effects(schema, p, s);
      GoesOnNext(before, task, s, open, Joins(task));
      if writes == [] {
        assert StepsOf(schema, p, task, s) == [Joins(task)];
      } else {
        GoesOnNext(before + [Joins(task)], task, Joined(s), open, Does(task, writes[0]));
        assert StepsOf(schema, p, task, s) == [Joins(task), Does(task, writes[0])];
        assert before + [Joins(task), Does(task, writes[0])] == before + [Joins(task)] + [Does(task, writes[0])];
      }
    } else {
      assert before + [] == before;
    }
  }
}
