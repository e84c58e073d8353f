/** Tasks that interleave on the tables of the memory backend
    (fastapi_modular/infrastructure/database/memory.py). */
module Interleaving {
  import opened Wrappers
  import opened Transactions

  type Rows = map<Key, Row>

  // Two things put whole tables back: a request that fails, to its first attempt
  // to write (`MemoryUnitOfWork`), and a transaction block that does not finish,
  // to its opening (`transaction`). The tables are shared by all tasks.

  /** One operation of one task: its request's first attempt to write, a write,
      the opening or the leaving of a block, the end of the request. A task
      outside of requests never joins. */
  datatype Step =
    | Joins(task: nat)
    | Does(task: nat, write: Write)
    | Opens(task: nat)
    | Closes(task: nat, aborted: bool)
    | Ends(task: nat, failed: bool)

  /** The tables all tasks share, what each unit of work holds and the snapshots
      of each task's open blocks, innermost last. */
  datatype Shared = Shared(rows: Rows, held: map<nat, Rows>, blocks: map<nat, seq<Rows>>)

  function BlocksOf(s: Shared, task: nat): seq<Rows> {
    if task in s.blocks then s.blocks[task] else []
  }

  function Take(step: Step, s: Shared): Shared {
    match step
    case Joins(task) => if task in s.held then s else s.(held := s.held[task := s.rows])
    case Does(_, write) => s.(rows := Written(s.rows, write))
    case Opens(task) => s.(blocks := s.blocks[task := BlocksOf(s, task) + [s.rows]])
    case Closes(task, aborted) =>
      var open := BlocksOf(s, task);
      if open == [] then s
      else s.(rows := if aborted then Last(open) else s.rows, blocks := s.blocks[task := Front(open)])
    case Ends(task, failed) =>
      s.(rows := if failed && task in s.held then s.held[task] else s.rows, held := s.held - {task})
  }

  function After(steps: seq<Step>, s: Shared): Shared {
    if steps == [] then s else Take(Last(steps), After(Front(steps), s))
  }

  function Last<T>(s: seq<T>): T
    requires s != []
  {
    s[|s| - 1]
  }

  function Front<T>(s: seq<T>): seq<T>
    requires s != []
  {
    s[..|s| - 1]
  }

  lemma {:induction false} AfterConcat(a: seq<Step>, b: seq<Step>, s: Shared)
    ensures After(a + b, s) == After(b, After(a, s))
  {
    if b == [] {
      assert a + b == a;
    } else {
      assert Front(a + b) == a + Front(b);
      AfterConcat(a, Front(b), s);
    }
  }

  // ------------------------------------------------ programs take these steps

  function JoinSteps(task: nat, s: State): seq<Step> {
    if s.held == NoRequest then [] else [Joins(task)]
  }

  /** The steps a program takes when nothing comes in between. */
  ghost function StepsOf(schema: Schema, p: Prog, task: nat, s: State): seq<Step>
    decreases p
  {
    match p
    case Save(table, own, row) =>
      JoinSteps(task, s) + DoesEach(task, Effects(schema, p, s))
    case Update(table, id, changes) =>
      if Key(table, id) !in s.rows then [] else JoinSteps(task, s) + DoesEach(task, Effects(schema, p, s))
    case Delete(table, id) =>
      if Key(table, id) !in s.rows then [] else JoinSteps(task, s) + DoesEach(task, Effects(schema, p, s))
    case Seq(first, rest) =>
      var (t, outcome) := Meaning(schema, first, s);
      StepsOf(schema, first, task, s) + if outcome == Done then StepsOf(schema, rest, task, t) else []
    case Block(body) =>
      [Opens(task)] + StepsOf(schema, body, task, s) + [Closes(task, Meaning(schema, body, s).1 != Done)]
    case Try(body, handler) =>
      var (t, outcome) := Meaning(schema, body, s);
      StepsOf(schema, body, task, s) + if outcome == Done then [] else StepsOf(schema, handler, task, t)
    case _ => []
  }

  function DoesEach(task: nat, writes: seq<Write>): seq<Step> {
    seq(|writes|, i requires 0 <= i < |writes| => Does(task, writes[i]))
  }

  /** What one task sees of the shared state. */
  ghost predicate Sees(sh: Shared, task: nat, s: State) {
    && sh.rows == s.rows
    && (task in sh.held <==> s.held.Taken?)
    && (s.held.Taken? ==> sh.held[task] == s.held.rows)
  }

  /** Nothing but the tables and the task's own snapshot is different. */
  ghost predicate OnlyOwn(a: Shared, b: Shared, task: nat) {
    && a.held - {task} == b.held - {task}
    && forall t :: BlocksOf(a, t) == BlocksOf(b, t)
  }

  /** A whole program, with its blocks and exceptions, is the sequence of its
      steps. */
  lemma {:induction false} ProgramTakesSteps(schema: Schema, p: Prog, task: nat, s: State, sh: Shared)
    requires Sees(sh, task, s)
    ensures var after := After(StepsOf(schema, p, task, s), sh);
      Sees(after, task, Meaning(schema, p, s).0) && OnlyOwn(sh, after, task)
    decreases p
  {
    match p
    case Seq(first, rest) =>
      var (t, outcome) := Meaning(schema, first, s);
      ProgramTakesSteps(schema, first, task, s, sh);
      if outcome == Done {
        var mid := After(StepsOf(schema, first, task, s), sh);
        ProgramTakesSteps(schema, rest, task, t, mid);
        AfterConcat(StepsOf(schema, first, task, s), StepsOf(schema, rest, task, t), sh);
      } else {
        assert StepsOf(schema, first, task, s) + [] == StepsOf(schema, first, task, s);
      }
    case Try(body, handler) =>
      var (t, outcome) := Meaning(schema, body, s);
      ProgramTakesSteps(schema, body, task, s, sh);
      if outcome == Done {
        assert StepsOf(schema, body, task, s) + [] == StepsOf(schema, body, task, s);
      } else {
        var mid := After(StepsOf(schema, body, task, s), sh);
        ProgramTakesSteps(schema, handler, task, t, mid);
        AfterConcat(StepsOf(schema, body, task, s), StepsOf(schema, handler, task, t), sh);
      }
    case Block(body) =>
      ProgramTakesSteps(schema, body, task, s, Take(Opens(task), sh));
      var (t, outcome) := Meaning(schema, body, s);
      BlockTakesSteps(StepsOf(schema, body, task, s), task, outcome != Done, s, t, sh);
    case _ => OperationTakesSteps(schema, p, task, s, sh);
  }

  lemma BlockTakesSteps(steps: seq<Step>, task: nat, aborted: bool, s: State, t: State, sh: Shared)
    requires Sees(sh, task, s)
    requires var inside := Take(Opens(task), sh);
      var after := After(steps, inside); Sees(after, task, t) && OnlyOwn(inside, after, task)
    ensures var left := After([Opens(task)] + steps + [Closes(task, aborted)], sh);
      Sees(left, task, t.(rows := if aborted then s.rows else t.rows)) && OnlyOwn(sh, left, task)
  {
    Enclosed(steps, task, aborted, sh);
    CloseRestores(task, aborted, sh, After(steps, Take(Opens(task), sh)));
  }

  lemma Enclosed(steps: seq<Step>, task: nat, aborted: bool, s: Shared)
    ensures After([Opens(task)] + steps + [Closes(task, aborted)], s)
      == Take(Closes(task, aborted), After(steps, Take(Opens(task), s)))
  {
    var opening := [Opens(task)];
    assert Front(opening) == [];
    assert After(opening, s) == Take(Opens(task), s);
    AfterConcat(opening, steps, s);
    assert Front(opening + steps + [Closes(task, aborted)]) == opening + steps;
  }

  /** Leaving a block finds the snapshot its opening took. */
  lemma CloseRestores(task: nat, aborted: bool, sh: Shared, after: Shared)
    requires OnlyOwn(Take(Opens(task), sh), after, task)
    ensures var left := Take(Closes(task, aborted), after);
      OnlyOwn(sh, left, task) && left.held == after.held && left.rows == if aborted then sh.rows else after.rows
  {
    var inside, left := Take(Opens(task), sh), Take(Closes(task, aborted), after);
    assert BlocksOf(after, task) == BlocksOf(inside, task) == BlocksOf(sh, task) + [sh.rows];
    forall t ensures BlocksOf(sh, t) == BlocksOf(left, t) {
      assert BlocksOf(inside, t) == BlocksOf(after, t);
    }
  }

  lemma OperationTakesSteps(schema: Schema, p: Prog, task: nat, s: State, sh: Shared)
    requires Sees(sh, task, s) && !p.Seq? && !p.Block? && !p.Try?
    ensures var after := After(StepsOf(schema, p, task, s), sh);
      Sees(after, task, Meaning(schema, p, s).0) && OnlyOwn(sh, after, task)
  {
    var writes := Effects(schema, p, s);
    TablesAreSurvivingWrites(schema, p, s);
    if Attempts(p, s) {
      AttemptHolds(schema, p, s);
      JoinThenWrite(task, writes, s, sh);
    }
  }

  /** The program is one operation that comes to `_join_request`. */
  predicate Attempts(p: Prog, s: State) {
    match p
    case Save(_, _, _) => true
    case Update(table, id, _) => Key(table, id) in s.rows
    case Delete(table, id) => Key(table, id) in s.rows
    case _ => false
  }

  lemma AttemptHolds(schema: Schema, p: Prog, s: State)
    requires Attempts(p, s)
    ensures Meaning(schema, p, s).0.held == Joined(s).held && |Effects(schema, p, s)| <= 1
  {
  }

  lemma JoinThenWrite(task: nat, writes: seq<Write>, s: State, sh: Shared)
    requires Sees(sh, task, s) && |writes| <= 1
    ensures var after := After(JoinSteps(task, s) + DoesEach(task, writes), sh);
      after.rows == Replay(s.rows, writes) && Sees(after, task, Joined(s).(rows := after.rows))
        && OnlyOwn(sh, after, task)
  {
    var joined := After(JoinSteps(task, s), sh);
    JoinTakesStep(task, s, sh);
    WriteTakesStep(task, writes, joined);
    AfterConcat(JoinSteps(task, s), DoesEach(task, writes), sh);
  }

  lemma JoinTakesStep(task: nat, s: State, sh: Shared)
    requires Sees(sh, task, s)
    ensures var joined := After(JoinSteps(task, s), sh); Sees(joined, task, Joined(s)) && OnlyOwn(sh, joined, task)
  {
    assert Front([Joins(task)]) == [];
    assert After([Joins(task)], sh) == Take(Joins(task), sh);
  }

  lemma WriteTakesStep(task: nat, writes: seq<Write>, sh: Shared)
    requires |writes| <= 1
    ensures After(DoesEach(task, writes), sh) == sh.(rows := Replay(sh.rows, writes))
  {
    if writes != [] {
      assert Front(DoesEach(task, writes)) == [];
      assert writes == [writes[0]];
      ReplayOne(sh.rows, writes[0]);
    }
  }

  // ------------------------------------------------------- where steps go back

  /** The moment of the task's first attempt to write since its last end, among
      the first n steps. */
  function JoinedAt(steps: seq<Step>, n: nat, task: nat): (at: Option<nat>)
    requires n <= |steps|
    ensures at.Some? ==> at.value < n
  {
    if n == 0 || (steps[n - 1].Ends? && steps[n - 1].task == task) then None
    else if JoinedAt(steps, n - 1, task).Some? then JoinedAt(steps, n - 1, task)
    else if steps[n - 1] == Joins(task) then Some(n - 1)
    else None
  }

  /** The moments at which the blocks the task has open were opened. */
  function OpenedAt(steps: seq<Step>, n: nat, task: nat): (at: seq<nat>)
    requires n <= |steps|
    ensures forall f :: f in at ==> f < n
  {
    if n == 0 then []
    else
      var before := OpenedAt(steps, n - 1, task);
      if steps[n - 1] == Opens(task) then before + [n - 1]
      else if steps[n - 1].Closes? && steps[n - 1].task == task && before != [] then
        assert forall f :: f in Front(before) ==> f in before;
        Front(before)
      else before
  }

  /** The moment to which the last of n steps puts the tables back, if it does. */
  function Back(steps: seq<Step>, n: nat): (to: Option<nat>)
    requires 0 < n <= |steps|
    ensures to.Some? ==> to.value < n - 1
  {
    match steps[n - 1]
    case Ends(task, failed) => if failed then JoinedAt(steps, n - 1, task) else None
    case Closes(task, aborted) =>
      var open := OpenedAt(steps, n - 1, task);
      if aborted && open != [] then
        assert Last(open) in open;
        Some(Last(open))
      else None
    case _ => None
  }

  /** A write made at a moment by a task. */
  datatype Made = Made(at: nat, task: nat, write: Write)

  /** The writes in force after the first n steps. */
  function InForce(steps: seq<Step>, n: nat): seq<Made>
    requires n <= |steps|
  {
    if n == 0 then []
    else if Back(steps, n).Some? then InForce(steps, Back(steps, n).value)
    else InForce(steps, n - 1) + MadeBy(steps[n - 1], n - 1)
  }

  function MadeBy(step: Step, at: nat): seq<Made> {
    if step.Does? then [Made(at, step.task, step.write)] else []
  }

  function WritesOf(made: seq<Made>): (writes: seq<Write>)
    ensures |writes| == |made|
  {
    seq(|made|, i requires 0 <= i < |made| => made[i].write)
  }

  function Survivors(steps: seq<Step>, n: nat): seq<Write>
    requires n <= |steps|
  {
    WritesOf(InForce(steps, n))
  }

  /** The shared state holds the surviving writes, and every snapshot the ones
      that survived when it was taken. */
  ghost predicate Mirrors(s: Shared, steps: seq<Step>, n: nat, rows: Rows)
    requires n <= |steps|
  {
    && s.rows == Replay(rows, Survivors(steps, n))
    && forall t :: HeldRight(s, steps, n, rows, t) && BlocksRight(s, steps, n, rows, t)
  }

  ghost predicate HeldRight(s: Shared, steps: seq<Step>, n: nat, rows: Rows, t: nat)
    requires n <= |steps|
  {
    var at := JoinedAt(steps, n, t);
    && (t in s.held <==> at.Some?)
    && (at.Some? ==> s.held[t] == Replay(rows, Survivors(steps, at.value)))
  }

  ghost predicate BlocksRight(s: Shared, steps: seq<Step>, n: nat, rows: Rows, t: nat)
    requires n <= |steps|
  {
    Recorded(BlocksOf(s, t), steps, OpenedAt(steps, n, t), rows)
  }

  ghost predicate Recorded(snapshots: seq<Rows>, steps: seq<Step>, at: seq<nat>, rows: Rows) {
    && |snapshots| == |at|
    && forall i :: 0 <= i < |at| ==> at[i] <= |steps| && snapshots[i] == Replay(rows, Survivors(steps, at[i]))
  }

  /** Under every interleaving of requests and blocks the tables hold exactly the
      writes in force. */
  lemma {:induction false} TablesHoldSurvivors(steps: seq<Step>, n: nat, rows: Rows)
    requires n <= |steps|
    ensures Mirrors(After(steps[..n], Shared(rows, map[], map[])), steps, n, rows)
  {
    if n > 0 {
      TablesHoldSurvivors(steps, n - 1, rows);
      assert Front(steps[..n]) == steps[..n - 1];
      MirrorStep(After(steps[..n - 1], Shared(rows, map[], map[])), steps, n, rows);
    }
  }

  lemma MirrorStep(s: Shared, steps: seq<Step>, n: nat, rows: Rows)
    requires 0 < n <= |steps| && Mirrors(s, steps, n - 1, rows)
    ensures Mirrors(Take(steps[n - 1], s), steps, n, rows)
  {
    var after := Take(steps[n - 1], s);
    forall t ensures HeldRight(after, steps, n, rows, t) && BlocksRight(after, steps, n, rows, t) {
      HeldStep(s, steps, n, rows, t);
      BlocksStep(s, steps, n, rows, t);
    }
    RowsStep(s, steps, n, rows);
  }

  lemma HeldStep(s: Shared, steps: seq<Step>, n: nat, rows: Rows, t: nat)
    requires 0 < n <= |steps| && s.rows == Replay(rows, Survivors(steps, n - 1)) && HeldRight(s, steps, n - 1, rows, t)
    ensures HeldRight(Take(steps[n - 1], s), steps, n, rows, t)
  {
    var at := JoinedAt(steps, n - 1, t);
    if steps[n - 1].Ends? && steps[n - 1].task == t {
      assert JoinedAt(steps, n, t) == None;
    } else if steps[n - 1] == Joins(t) && at.None? {
      assert JoinedAt(steps, n, t) == Some(n - 1);
    } else {
      assert JoinedAt(steps, n, t) == at;
    }
  }

  lemma BlocksStep(s: Shared, steps: seq<Step>, n: nat, rows: Rows, t: nat)
    requires 0 < n <= |steps| && s.rows == Replay(rows, Survivors(steps, n - 1))
      && BlocksRight(s, steps, n - 1, rows, t)
    ensures BlocksRight(Take(steps[n - 1], s), steps, n, rows, t)
  {
    var open, at := BlocksOf(s, t), OpenedAt(steps, n - 1, t);
    if steps[n - 1] == Opens(t) {
      RecordedAlso(open, steps, at, rows, s.rows, n - 1);
    } else if steps[n - 1].Closes? && steps[n - 1].task == t && open != [] {
      RecordedLess(open, steps, at, rows);
    }
  }

  lemma RecordedAlso(snapshots: seq<Rows>, steps: seq<Step>, at: seq<nat>, rows: Rows, last: Rows, n: nat)
    requires Recorded(snapshots, steps, at, rows) && n <= |steps| && last == Replay(rows, Survivors(steps, n))
    ensures Recorded(snapshots + [last], steps, at + [n], rows)
  {
  }

  lemma RecordedLess(snapshots: seq<Rows>, steps: seq<Step>, at: seq<nat>, rows: Rows)
    requires Recorded(snapshots, steps, at, rows) && at != []
    ensures Recorded(Front(snapshots), steps, Front(at), rows)
  {
  }

  lemma RowsStep(s: Shared, steps: seq<Step>, n: nat, rows: Rows)
    requires 0 < n <= |steps| && Mirrors(s, steps, n - 1, rows)
    ensures Take(steps[n - 1], s).rows == Replay(rows, Survivors(steps, n))
  {
    var step := steps[n - 1];
    SurvivorsStep(steps, n);
    if step.Does? {
      ReplayNext(rows, Survivors(steps, n - 1), step.write);
    } else if Back(steps, n).Some? {
      BackPutsBack(s, steps, n, rows);
    } else {
      assert HeldRight(s, steps, n - 1, rows, step.task) && BlocksRight(s, steps, n - 1, rows, step.task);
    }
  }

  lemma BackPutsBack(s: Shared, steps: seq<Step>, n: nat, rows: Rows)
    requires 0 < n <= |steps| && Mirrors(s, steps, n - 1, rows) && Back(steps, n).Some?
    ensures Take(steps[n - 1], s).rows == Replay(rows, Survivors(steps, Back(steps, n).value))
  {
    var task := steps[n - 1].task;
    assert HeldRight(s, steps, n - 1, rows, task) && BlocksRight(s, steps, n - 1, rows, task);
  }

  lemma ReplayNext(rows: Rows, writes: seq<Write>, write: Write)
    ensures Replay(rows, writes + [write]) == Written(Replay(rows, writes), write)
  {
    assert (writes + [write])[..|writes|] == writes;
  }

  lemma SurvivorsStep(steps: seq<Step>, n: nat)
    requires 0 < n <= |steps|
    ensures Survivors(steps, n) ==
      if Back(steps, n).Some? then Survivors(steps, Back(steps, n).value)
      else if steps[n - 1].Does? then Survivors(steps, n - 1) + [steps[n - 1].write]
      else Survivors(steps, n - 1)
  {
  }

  // ------------------------------------------------------ what going back erases

  lemma {:induction false} InForceBefore(steps: seq<Step>, n: nat)
    requires n <= |steps|
    ensures forall m :: m in InForce(steps, n) ==> m.at < n && steps[m.at] == Does(m.task, m.write)
    decreases n
  {
    if n > 0 {
      if Back(steps, n).Some? {
        InForceBefore(steps, Back(steps, n).value);
      } else {
        InForceBefore(steps, n - 1);
      }
    }
  }

  /** Every write in force stands on exactly what was in force when it was made. */
  lemma {:induction false} WriteKeepsItsPast(steps: seq<Step>, n: nat, i: nat)
    requires n <= |steps| && i < |InForce(steps, n)|
    ensures InForce(steps, n)[i].at < n && InForce(steps, n)[..i] == InForce(steps, InForce(steps, n)[i].at)
    decreases n
  {
    if Back(steps, n).Some? {
      WriteKeepsItsPast(steps, Back(steps, n).value, i);
    } else if i < |InForce(steps, n - 1)| {
      WriteKeepsItsPast(steps, n - 1, i);
    }
  }

  /** Step n - 1 takes away no write of another task. */
  ghost predicate SparesOthers(steps: seq<Step>, n: nat)
    requires 0 < n <= |steps|
  {
    forall m :: m in InForce(steps, n - 1) && m !in InForce(steps, n) ==> m.task == steps[n - 1].task
  }

  /** No step after the moment f and before n goes back beyond f. */
  ghost predicate NoneBeyond(steps: seq<Step>, f: nat, n: nat)
    requires n <= |steps|
  {
    forall m :: f < m <= n && Back(steps, m).Some? ==> f <= Back(steps, m).value
  }

  /** As long as nothing goes back beyond f, what was in force at f stays and
      everything else in force was written since. */
  lemma {:induction false} GrowsFrom(steps: seq<Step>, f: nat, n: nat)
    requires f <= n <= |steps| && NoneBeyond(steps, f, n)
    ensures var k := |InForce(steps, f)|;
      |InForce(steps, n)| >= k && InForce(steps, n)[..k] == InForce(steps, f)
      && forall i :: k <= i < |InForce(steps, n)| ==> f <= InForce(steps, n)[i].at
    decreases n
  {
    if n > f {
      GrowsFrom(steps, f, n - 1);
      if Back(steps, n).Some? {
        GrowsFrom(steps, f, Back(steps, n).value);
      }
    }
  }

  /** Going back to the moment f erases no write of another task exactly when
      every write in force since f is the task's own: those made since, and those
      made before that came back into force since. */
  lemma BackSparesOthersIff(steps: seq<Step>, n: nat)
    requires 0 < n <= |steps| && Back(steps, n).Some?
    ensures var f, task := Back(steps, n).value, steps[n - 1].task;
      SparesOthers(steps, n) <==>
        && (forall m :: m in InForce(steps, n - 1) && f <= m.at ==> m.task == task)
        && (forall m :: m in InForce(steps, n - 1) && m.at < f && m !in InForce(steps, f) ==> m.task == task)
  {
    InForceBefore(steps, Back(steps, n).value);
  }

  /** If nothing in between went back beyond f, nothing came back since, and going
      back just cuts off what was written since. */
  lemma BackCutsOff(steps: seq<Step>, n: nat)
    requires 0 < n <= |steps| && Back(steps, n).Some? && NoneBeyond(steps, Back(steps, n).value, n - 1)
    ensures var f := Back(steps, n).value;
      && |InForce(steps, n)| <= |InForce(steps, n - 1)|
      && InForce(steps, n - 1)[..|InForce(steps, n)|] == InForce(steps, n)
      && (forall m :: m in InForce(steps, n - 1) ==> (m in InForce(steps, n) <==> m.at < f))
      && (SparesOthers(steps, n)
        <==> forall m :: m in InForce(steps, n - 1) && f <= m.at ==> m.task == steps[n - 1].task)
  {
    GrowsFrom(steps, Back(steps, n).value, n - 1);
    InForceBefore(steps, Back(steps, n).value);
  }

  // ---------------------------------------------------------------- the lock

  /** The outermost blocks queue: a task opens one only while no other task has
      any open. */
  ghost predicate Locked(steps: seq<Step>, n: nat)
    requires n <= |steps|
  {
    forall i, t :: 0 <= i < n && steps[i].Opens? && t != steps[i].task ==> OpenedAt(steps, i, t) == []
  }

  lemma {:induction false} OneTaskInBlocks(steps: seq<Step>, n: nat, a: nat, b: nat)
    requires n <= |steps| && Locked(steps, n) && OpenedAt(steps, n, a) != [] && OpenedAt(steps, n, b) != []
    ensures a == b
  {
    if n > 0 && OpenedAt(steps, n - 1, a) != [] && OpenedAt(steps, n - 1, b) != [] {
      OneTaskInBlocks(steps, n - 1, a, b);
    }
  }

  /** The moments are openings by the task, before n and in order. */
  ghost predicate Openings(steps: seq<Step>, at: seq<nat>, n: nat, task: nat) {
    && n <= |steps|
    && (forall i :: 0 <= i < |at| ==> at[i] < n && steps[at[i]] == Opens(task))
    && forall i, j :: 0 <= i < j < |at| ==> at[i] < at[j]
  }

  lemma {:induction false} OpenedInOrder(steps: seq<Step>, n: nat, task: nat)
    requires n <= |steps|
    ensures Openings(steps, OpenedAt(steps, n, task), n, task)
  {
    if n > 0 {
      OpenedInOrder(steps, n - 1, task);
      OpeningsNext(steps, OpenedAt(steps, n - 1, task), n, task);
    }
  }

  lemma OpeningsNext(steps: seq<Step>, at: seq<nat>, n: nat, task: nat)
    requires 0 < n && Openings(steps, at, n - 1, task) && n <= |steps|
    ensures Openings(steps, at, n, task) && (at != [] ==> Openings(steps, Front(at), n, task))
    ensures steps[n - 1] == Opens(task) ==> Openings(steps, at + [n - 1], n, task)
  {
  }

  lemma {:induction false} OpenSince(steps: seq<Step>, m: nat, n: nat, task: nat, f: nat)
    requires f < m <= n <= |steps| && f in OpenedAt(steps, n, task)
    ensures f in OpenedAt(steps, m, task)
    decreases n
  {
    if m < n { OpenSince(steps, m, n - 1, task, f); }
  }

  /** Every write after f is made in a block and no request fails. */
  ghost predicate InBlocks(steps: seq<Step>, f: nat, n: nat)
    requires n <= |steps|
  {
    && (forall p :: f < p < n && steps[p].Does? ==> OpenedAt(steps, p, steps[p].task) != [])
    && (forall p :: f < p < n && steps[p].Ends? ==> !steps[p].failed)
  }

  /** While a block is open, no other task has one. */
  lemma AloneSince(steps: seq<Step>, m: nat, n: nat, task: nat, f: nat, other: nat)
    requires f < m <= n <= |steps| && Locked(steps, n) && f in OpenedAt(steps, n, task)
    requires OpenedAt(steps, m, other) != []
    ensures other == task
  {
    OpenSince(steps, m, n, task, f);
    OneTaskInBlocks(steps, m, task, other);
  }

  /** Neither does anything go back beyond its opening. */
  lemma NoneBeyondOpening(steps: seq<Step>, n: nat, task: nat, f: nat, m: nat)
    requires f < m <= n <= |steps| && Locked(steps, n) && f in OpenedAt(steps, n, task) && InBlocks(steps, f, n)
    requires Back(steps, m).Some?
    ensures f <= Back(steps, m).value
  {
    OpenedInOrder(steps, n, task);
    OpenedInOrder(steps, m - 1, task);
    if f < m - 1 {
      AloneSince(steps, m - 1, n, task, f, steps[m - 1].task);
      OpenSince(steps, m, n, task, f);
    }
  }

  lemma OwnSinceOpening(steps: seq<Step>, n: nat, task: nat, f: nat)
    requires f < n <= |steps| && Locked(steps, n) && f in OpenedAt(steps, n, task) && InBlocks(steps, f, n)
    ensures forall m :: m in InForce(steps, n) && f <= m.at ==> m.task == task
  {
    InForceBefore(steps, n);
    OpenedInOrder(steps, n, task);
    forall m | m in InForce(steps, n) && f <= m.at ensures m.task == task {
      assert steps[f] == Opens(task);
      AloneSince(steps, m.at, n, task, f, m.task);
    }
  }

  /** What the lock is for: if every write is made in a block and no request fails
      meanwhile, a block that does not finish erases no write of another task. */
  lemma LockSparesOthers(steps: seq<Step>, n: nat)
    requires 0 < n <= |steps| && Locked(steps, n) && steps[n - 1].Closes? && Back(steps, n).Some?
    requires InBlocks(steps, Back(steps, n).value, n)
    ensures SparesOthers(steps, n)
  {
    var f, task := Back(steps, n).value, steps[n - 1].task;
    assert f in OpenedAt(steps, n - 1, task);
    forall m | f < m <= n - 1 && Back(steps, m).Some? ensures f <= Back(steps, m).value {
      NoneBeyondOpening(steps, n - 1, task, f, m);
    }
    OwnSinceOpening(steps, n - 1, task, f);
    BackCutsOff(steps, n);
  }

  lemma {:induction false} BlocksStay(steps: seq<Step>, s: Shared, task: nat)
    requires forall i :: 0 <= i < |steps| ==> steps[i].task != task
    ensures BlocksOf(After(steps, s), task) == BlocksOf(s, task)
  {
    if steps != [] { BlocksStay(Front(steps), s, task); }
  }

  /** But whatever other tasks do outside of blocks meanwhile, and however well
      their requests end, a block that does not finish erases it. */
  lemma AbortErasesOthers(s: Shared, task: nat, between: seq<Step>)
    requires forall i :: 0 <= i < |between| ==> between[i].task != task
    ensures After([Opens(task)] + between + [Closes(task, true)], s).rows == s.rows
  {
    BlocksStay(between, Take(Opens(task), s), task);
    Enclosed(between, task, true, s);
  }

  lemma {:induction false} HeldStays(steps: seq<Step>, s: Shared, task: nat)
    requires task in s.held && forall i :: 0 <= i < |steps| && steps[i].Ends? ==> steps[i].task != task
    ensures task in After(steps, s).held && After(steps, s).held[task] == s.held[task]
  {
    if steps != [] { HeldStays(Front(steps), s, task); }
  }

  /** And whatever other requests wrote and committed in between, a failing request
      puts the tables back to where they were at its own first attempt to write. */
  lemma FailureErasesOthers(s: Shared, task: nat, between: seq<Step>)
    requires task !in s.held
    requires forall i :: 0 <= i < |between| && between[i].Ends? ==> between[i].task != task
    ensures After([Joins(task)] + between + [Ends(task, true)], s).rows == s.rows
  {
    var begun := [Joins(task)];
    assert Front(begun) == [];
    HeldStays(between, After(begun, s), task);
    AfterConcat(begun, between, s);
    assert Front(begun + between + [Ends(task, true)]) == begun + between;
  }

  /** Of two requests that interleave and both fail, the second puts back a write
      of the first. */
  lemma FailureRevives(a: nat, b: nat, write: Write, s: Shared)
    requires a != b && a !in s.held && b !in s.held
    ensures var steps := [Joins(a), Does(a, write), Joins(b), Ends(a, true), Ends(b, true)];
      After(steps, s).rows == Written(s.rows, write)
  {
    var begun := [Joins(a), Does(a, write)];
    assert Front(begun) == [Joins(a)] && Front([Joins(a)]) == [];
    assert After([Joins(a)], s) == Take(Joins(a), s);
    assert After(begun, s) == Take(Does(a, write), Take(Joins(a), s));
    var rest := [Joins(b), Ends(a, true), Ends(b, true)];
    assert rest == [Joins(b)] + [Ends(a, true)] + [Ends(b, true)];
    FailureErasesOthers(After(begun, s), b, [Ends(a, true)]);
    AfterConcat(begun, rest, s);
    assert begun + rest == [Joins(a), Does(a, write), Joins(b), Ends(a, true), Ends(b, true)];
  }

  // ------------------------------------------------------ when nothing is lost

  /** All writes among the first n steps. */
  function AllMade(steps: seq<Step>, n: nat): seq<Made>
    requires n <= |steps|
  {
    if n == 0 then [] else AllMade(steps, n - 1) + MadeBy(steps[n - 1], n - 1)
  }

  /** Step m - 1 does not go back over a write. */
  ghost predicate PassesNoWrite(steps: seq<Step>, m: nat)
    requires 0 < m <= |steps|
  {
    Back(steps, m).Some? ==> forall p :: Back(steps, m).value <= p < m ==> !steps[p].Does?
  }

  /** At every moment so far, all writes made are in force. */
  ghost predicate KeepsAll(steps: seq<Step>, n: nat)
    requires n <= |steps|
  {
    forall m :: 0 <= m <= n ==> InForce(steps, m) == AllMade(steps, m)
  }

  ghost predicate PassesNone(steps: seq<Step>, n: nat)
    requires n <= |steps|
  {
    forall m :: 0 < m <= n ==> PassesNoWrite(steps, m)
  }

  lemma KeepsAllNext(steps: seq<Step>, n: nat)
    requires 0 < n <= |steps|
    ensures KeepsAll(steps, n) <==> KeepsAll(steps, n - 1) && InForce(steps, n) == AllMade(steps, n)
    ensures PassesNone(steps, n) <==> PassesNone(steps, n - 1) && PassesNoWrite(steps, n)
  {
  }

  /** Nothing is ever lost exactly if no step goes back over a write. */
  lemma {:induction false} NothingLostIff(steps: seq<Step>, n: nat)
    requires n <= |steps|
    ensures KeepsAll(steps, n) <==> PassesNone(steps, n)
  {
    if n > 0 {
      NothingLostIff(steps, n - 1);
      KeepsAllNext(steps, n);
      if KeepsAll(steps, n - 1) {
        BackOverNothing(steps, n);
      }
    }
  }

  lemma BackOverNothing(steps: seq<Step>, n: nat)
    requires 0 < n <= |steps| && KeepsAll(steps, n - 1)
    ensures PassesNoWrite(steps, n) <==> InForce(steps, n) == AllMade(steps, n)
  {
    if Back(steps, n).Some? {
      var f := Back(steps, n).value;
      MadeSince(steps, f, n);
      assert InForce(steps, n) == InForce(steps, f) == AllMade(steps, f);
    } else {
      assert InForce(steps, n - 1) == AllMade(steps, n - 1);
    }
  }

  lemma {:induction false} MadeSince(steps: seq<Step>, f: nat, n: nat)
    requires f <= n <= |steps|
    ensures |AllMade(steps, f)| <= |AllMade(steps, n)|
    ensures AllMade(steps, f) == AllMade(steps, n) <==> forall p :: f <= p < n ==> !steps[p].Does?
  {
    if f < n { MadeSince(steps, f, n - 1); }
  }

  /** So if no request fails and no block is aborted every write survives, however
      they interleave. */
  lemma SuccessKeepsAll(steps: seq<Step>, n: nat)
    requires n <= |steps|
    requires forall i :: 0 <= i < n ==>
      (steps[i].Ends? ==> !steps[i].failed) && (steps[i].Closes? ==> !steps[i].aborted)
    ensures InForce(steps, n) == AllMade(steps, n)
  {
    forall m | 0 < m <= n ensures PassesNoWrite(steps, m) {
      assert Back(steps, m).None?;
    }
    NothingLostIff(steps, n);
  }
}
