/** One partition read by `KafkaRunner` of
    fastapi_modular/infrastructure/kafka/consumers.py: `_read_loop`, `_handle`
    and `_move_to_dlt`, with a crash possible at every await. */
module Kafka {
  import opened Wrappers

  /** `broken` holds the offsets whose value is not JSON. */
  datatype Spec = Spec(maxRetries: int, deadLetter: bool, earliest: bool, broken: set<nat>)

  datatype Attempt = Succeeds | IsPermanent | Fails

  /** What becomes of a message before its offset may be committed. */
  datatype Fate = Handled | DeadLettered | Dropped | Lost | Skipped

  datatype Event =
    | Began(position: nat)
    | Tried(offset: nat, number: nat, attempt: Attempt)
    | Offered(offset: nat, accepted: bool)
    | Completed(offset: nat, fate: Fate)
    | Stored(offset: nat)

  // ------------------------------------------------------------ the protocol

  /** Where a run stands: what the broker has stored, the offset at which the
      session that stored first began, and the message in hand. */
  datatype Reader = Reader(
    committed: Option<nat>, origin: Option<nat>, began: nat,
    at: Option<nat>, tried: nat, last: Option<Attempt>, offered: Option<bool>, completed: bool)

  const FRESH := Reader(None, None, 0, None, 0, None, None, false)

  /** No attempt is left for the message in hand. */
  predicate Exhausted(spec: Spec, r: Reader) {
    r.last == Some(IsPermanent) || (r.last == Some(Fails) && r.tried == spec.maxRetries + 1)
  }

  predicate Justified(spec: Spec, r: Reader, offset: nat, fate: Fate) {
    match fate
    case Handled => r.last == Some(Succeeds) && offset !in spec.broken
    case DeadLettered => Exhausted(spec, r) && spec.deadLetter && r.offered == Some(true)
    case Lost => Exhausted(spec, r) && spec.deadLetter && (offset in spec.broken || r.offered == Some(false))
    case Dropped => Exhausted(spec, r) && !spec.deadLetter
    case Skipped => spec.maxRetries < 0 && r.tried == 0
  }

  /** A session may begin at any time, since the one before may have died at
      any time. */
  predicate Allowed(spec: Spec, r: Reader, e: Event) {
    match e
    case Began(p) => if r.committed.Some? then p == r.committed.value else spec.earliest ==> p == 0
    case Tried(o, n, a) =>
      r.at == Some(o) && !r.completed && r.offered.None? && n == r.tried + 1 && n <= spec.maxRetries + 1
      && (r.tried > 0 ==> r.last == Some(Fails)) && (o in spec.broken ==> a == Fails)
    case Offered(o, accepted) =>
      r.at == Some(o) && !r.completed && r.offered.None? && Exhausted(spec, r) && spec.deadLetter && o !in spec.broken
    case Completed(o, f) => r.at == Some(o) && !r.completed && Justified(spec, r, o, f)
    case Stored(o) => r.at == Some(o) && r.completed
  }

  function Step(r: Reader, e: Event): Reader {
    match e
    case Began(p) => r.(began := p, at := Some(p), tried := 0, last := None, offered := None, completed := false)
    case Tried(o, n, a) => r.(tried := n, last := Some(a))
    case Offered(o, accepted) => r.(offered := Some(accepted))
    case Completed(o, f) => r.(completed := true)
    case Stored(o) =>
      r.(committed := Some(o + 1), origin := if r.committed.None? then Some(r.began) else r.origin,
         at := Some(o + 1), tried := 0, last := None, offered := None, completed := false)
  }

  /** The state after a trace, if the protocol allows every event of it. */
  function After(spec: Spec, trace: seq<Event>): Option<Reader> {
    if trace == [] then Some(FRESH)
    else
      match After(spec, trace[..|trace| - 1])
      case None => None
      case Some(r) => if Allowed(spec, r, trace[|trace| - 1]) then Some(Step(r, trace[|trace| - 1])) else None
  }

  lemma AfterNext(spec: Spec, trace: seq<Event>, e: Event)
    requires After(spec, trace).Some? && Allowed(spec, After(spec, trace).value, e)
    ensures After(spec, trace + [e]) == Some(Step(After(spec, trace).value, e))
  {
  }

  // -------------------------------------------------------------- the program

  datatype HandlerAnswer = Ok | Permanent | Error | DiesTrying

  /** `Refused` when the publish raises, or reports failure without raising as
      it does when told to fire and forget; the caller cannot tell and goes on. */
  datatype PublishAnswer = Published | Refused | DiesPublishing

  /** A commit can fail with or without having been stored. */
  datatype CommitAnswer = Commits | StoredThenFails | FailsUnstored

  /** What the world answers to the next thing the runner waits for; `end` is
      the end of the log, where a session without a committed offset may start. */
  datatype Answer = Answer(handler: HandlerAnswer, publish: PublishAnswer, commit: CommitAnswer, end: nat)

  /** An answer that ends the session it is given to. */
  predicate Interrupts(a: Answer) {
    a.handler == DiesTrying || a.publish == DiesPublishing || a.commit != Commits
  }

  /** The event is what this answer brings about. A message that is not JSON fails
      before the handler is asked. */
  predicate BroughtBy(spec: Spec, e: Event, a: Answer) {
    match e
    case Tried(o, _, attempt) =>
      && a.handler != DiesTrying
      && (attempt == Succeeds <==> o !in spec.broken && a.handler == Ok)
      && (attempt == IsPermanent <==> o !in spec.broken && a.handler == Permanent)
    case Offered(_, accepted) => a.publish != DiesPublishing && (accepted <==> a.publish == Published)
    case Stored(_) => a.commit != FailsUnstored
    case Began(_) => true
    case Completed(_, _) => false
  }

  predicate AllInterrupt(script: seq<Answer>, i: nat, n: nat)
    requires n <= |script|
  {
    forall k :: i <= k < n ==> Interrupts(script[k])
  }

  /** The first n answers, in order, brought about the events: each event that is
      no completion takes an answer, `took` says which, and all answers that none
      takes ended a session. */
  ghost predicate Answered(spec: Spec, script: seq<Answer>, trace: seq<Event>, took: seq<nat>, n: nat)
    decreases |trace|
  {
    n <= |script| && |took| == |trace| &&
    if trace == [] then AllInterrupt(script, 0, n)
    else
      var last := |trace| - 1;
      if trace[last].Completed? then Answered(spec, script, trace[..last], took[..last], n)
      else
        && took[last] < n && BroughtBy(spec, trace[last], script[took[last]])
        && AllInterrupt(script, took[last] + 1, n)
        && Answered(spec, script, trace[..last], took[..last], took[last])
  }

  lemma AnsweredNext(spec: Spec, script: seq<Answer>, trace: seq<Event>, took: seq<nat>, n: nat, e: Event)
    requires Answered(spec, script, trace, took, n) && n < |script| && BroughtBy(spec, e, script[n])
    ensures Answered(spec, script, trace + [e], took + [n], n + 1)
  {
    assert (trace + [e])[..|trace|] == trace && (took + [n])[..|took|] == took;
  }

  lemma AnsweredCompletion(spec: Spec, script: seq<Answer>, trace: seq<Event>, took: seq<nat>, n: nat, e: Event)
    requires Answered(spec, script, trace, took, n) && e.Completed?
    ensures Answered(spec, script, trace + [e], took + [0], n)
  {
    assert (trace + [e])[..|trace|] == trace && (took + [0])[..|took|] == took;
  }

  lemma {:induction false} AnsweredByDeath(spec: Spec, script: seq<Answer>, trace: seq<Event>, took: seq<nat>, n: nat)
    requires Answered(spec, script, trace, took, n) && n < |script| && Interrupts(script[n])
    ensures Answered(spec, script, trace, took, n + 1)
    decreases |trace|
  {
    if trace != [] && trace[|trace| - 1].Completed? {
      AnsweredByDeath(spec, script, trace[..|trace| - 1], took[..|trace| - 1], n);
    }
  }

  /** Each event was brought about by its answer, in the order of the events. */
  lemma {:induction false} EventAnswered(spec: Spec, script: seq<Answer>, trace: seq<Event>, took: seq<nat>,
      n: nat, i: nat)
    requires Answered(spec, script, trace, took, n) && i < |trace| && !trace[i].Completed?
    ensures took[i] < n <= |script| && BroughtBy(spec, trace[i], script[took[i]])
    ensures forall j :: 0 <= j < i && !trace[j].Completed? ==> took[j] < took[i]
    decreases |trace|
  {
    var last := |trace| - 1;
    var m := if trace[last].Completed? then n else took[last];
    if i < last {
      EventAnswered(spec, script, trace[..last], took[..last], m, i);
    } else {
      forall j | 0 <= j < i && !trace[j].Completed? ensures took[j] < took[i] {
        EventAnswered(spec, script, trace[..last], took[..last], m, j);
      }
    }
  }

  /** Event i takes answer k. */
  ghost predicate Takes(trace: seq<Event>, took: seq<nat>, i: int, k: nat) {
    0 <= i < |trace| == |took| && !trace[i].Completed? && took[i] == k
  }

  /** And every answer that did not end a session brought about an event. */
  lemma {:induction false} AnswerTaken(spec: Spec, script: seq<Answer>, trace: seq<Event>, took: seq<nat>,
      n: nat, k: nat)
    requires Answered(spec, script, trace, took, n) && k < n && !Interrupts(script[k])
    ensures exists i :: Takes(trace, took, i, k)
    decreases |trace|
  {
    if trace != [] {
      var last := |trace| - 1;
      if !trace[last].Completed? && took[last] == k {
        assert Takes(trace, took, last, k);
      } else {
        AnswerTaken(spec, script, trace[..last], took[..last], if trace[last].Completed? then n else took[last], k);
        var i :| Takes(trace[..last], took[..last], i, k);
        assert Takes(trace, took, i, k);
      }
    }
  }

  /** One of the answers from `i` up to `k` ended a session, or they ran out. */
  ghost predicate CutShort(script: seq<Answer>, i: nat, k: nat) {
    k == |script| || exists j :: i <= j < k < |script| && Interrupts(script[j])
  }

  /** What happens from one point of the program on: the events, the answer that
      comes next afterwards, and whether the session goes on. */
  datatype Leg = Leg(events: seq<Event>, next: nat, alive: bool)

  function Following(e: Event, leg: Leg): Leg {
    leg.(events := [e] + leg.events)
  }

  /** What the dead-letter step makes of a message, given the answers from k on. */
  function DeadEnd(spec: Spec, offset: nat, script: seq<Answer>, k: nat): (leg: Leg)
    requires k <= |script|
    ensures k <= leg.next <= |script|
  {
    if !spec.deadLetter then Leg([Completed(offset, Dropped)], k, true)
    else if offset in spec.broken then Leg([Completed(offset, Lost)], k, true)
    else if k == |script| then Leg([], k, false)
    else
      match script[k].publish
      case Published => Leg([Offered(offset, true), Completed(offset, DeadLettered)], k + 1, true)
      case Refused => Leg([Offered(offset, false), Completed(offset, Lost)], k + 1, true)
      case DiesPublishing => Leg([], k + 1, false)
  }

  /** What happens to a delivered message from attempt `number` on. */
  function Story(spec: Spec, offset: nat, number: nat, script: seq<Answer>, k: nat): (leg: Leg)
    requires k <= |script|
    ensures k <= leg.next <= |script|
    ensures k < |script| && leg.next == k ==> leg.alive
    decreases |script| - k
  {
    if number >= spec.maxRetries + 2 then Leg([Completed(offset, Skipped)], k, true)
    else if k == |script| then Leg([], k, false)
    else if script[k].handler == DiesTrying then Leg([], k + 1, false)
    else if offset in spec.broken || script[k].handler == Error then
      Following(Tried(offset, number, Fails),
        if number > spec.maxRetries then DeadEnd(spec, offset, script, k + 1)
        else Story(spec, offset, number + 1, script, k + 1))
    else if script[k].handler == Permanent then
      Following(Tried(offset, number, IsPermanent), DeadEnd(spec, offset, script, k + 1))
    else Leg([Tried(offset, number, Succeeds), Completed(offset, Handled)], k + 1, true)
  }

  /** One message and the commit after it. */
  function Turn(spec: Spec, offset: nat, script: seq<Answer>, k: nat): (leg: Leg)
    requires k < |script|
    ensures k < leg.next <= |script|
  {
    var told := Story(spec, offset, 1, script, k);
    if !told.alive || told.next == |script| then told.(alive := false)
    else
      var commit := script[told.next].commit;
      Leg(told.events + if commit == FailsUnstored then [] else [Stored(offset)], told.next + 1, commit == Commits)
  }

  /** The offset the broker holds after that turn. */
  function CommittedAfter(spec: Spec, offset: nat, script: seq<Answer>, k: nat, committed: Option<nat>): Option<nat>
    requires k < |script|
  {
    var told := Story(spec, offset, 1, script, k);
    if told.alive && told.next < |script| && script[told.next].commit != FailsUnstored then Some(offset + 1)
    else committed
  }

  /** Where a session without a message in hand begins. */
  function StartOf(spec: Spec, committed: Option<nat>, end: nat): nat {
    if committed.Some? then committed.value else if spec.earliest then 0 else end
  }

  /** All that happens from answer k on, session after session; `hand` is the
      message at which a live session stands. */
  function Life(spec: Spec, script: seq<Answer>, k: nat, committed: Option<nat>, hand: Option<nat>): seq<Event>
    requires k <= |script|
    decreases |script| - k
  {
    if k == |script| then []
    else
      match hand
      case None =>
        var start := StartOf(spec, committed, script[k].end);
        [Began(start)] + Life(spec, script, k + 1, committed, Some(start))
      case Some(offset) =>
        var leg := Turn(spec, offset, script, k);
        leg.events + Life(spec, script, leg.next, CommittedAfter(spec, offset, script, k, committed),
          if leg.alive then Some(offset + 1) else None)
  }

  /** One turn further in a life. */
  lemma TurnOfLife(spec: Spec, script: seq<Answer>, k: nat, committed: Option<nat>, offset: nat, before: seq<Event>)
    requires k < |script|
    ensures var leg := Turn(spec, offset, script, k);
      before + Life(spec, script, k, committed, Some(offset)) == before + leg.events
        + Life(spec, script, leg.next, CommittedAfter(spec, offset, script, k, committed),
          if leg.alive then Some(offset + 1) else None)
  {
  }

  lemma StartOfLife(spec: Spec, script: seq<Answer>, k: nat, committed: Option<nat>, before: seq<Event>)
    requires k < |script|
    ensures var start := StartOf(spec, committed, script[k].end);
      before + Life(spec, script, k, committed, None)
        == before + [Began(start)] + Life(spec, script, k + 1, committed, Some(start))
  {
  }

  /** From `before`, where `whole` lay ahead, the trace has come to `now`, with
      `rest` still ahead. */
  ghost predicate Reached(before: seq<Event>, whole: Leg, now: seq<Event>, rest: Leg) {
    before + whole.events == now + rest.events && whole.next == rest.next && whole.alive == rest.alive
  }

  lemma ReachedNext(before: seq<Event>, e: Event, whole: Leg, now: seq<Event>, rest: Leg)
    requires Reached(before + [e], whole, now, rest)
    ensures Reached(before, Following(e, whole), now, rest)
  {
  }

  lemma ReachedOn(before: seq<Event>, whole: Leg, mid: seq<Event>, part: Leg, now: seq<Event>, rest: Leg)
    requires Reached(before, whole, mid, part) && Reached(mid, part, now, rest)
    ensures Reached(before, whole, now, rest)
  {
  }

  class KafkaRunner {
    const spec: Spec

    /** The world's answers in the order they are given; the process stops for
        good after the last. */
    const script: seq<Answer>

    var next: nat

    /** The offset stored by the broker for this group. */
    var committed: Option<nat>

    var position: nat

    ghost var trace: seq<Event>

    /** The answer that each event takes. */
    ghost var took: seq<nat>

    constructor (spec: Spec, script: seq<Answer>)
      ensures this.spec == spec && this.script == script && next == 0 && trace == [] && committed == None
      ensures Valid()
    {
      this.spec := spec;
      this.script := script;
      next := 0;
      committed := None;
      position := 0;
      trace, took := [], [];
    }

    ghost predicate Valid()
      reads this
    {
      && next <= |script| && After(spec, trace).Some? && After(spec, trace).value.committed == committed
      && Answered(spec, script, trace, took, next)
    }

    ghost function Reader(): Reader
      requires After(spec, trace).Some?
      reads this
    {
      After(spec, trace).value
    }

    /** The message at `offset` is in hand and the next attempt on it has this
        number. */
    ghost predicate MayTry(offset: nat, attempt: nat)
      requires Valid()
      reads this
    {
      && attempt >= 1 && Reader().at == Some(offset) && !Reader().completed && Reader().offered.None?
      && Reader().tried == attempt - 1
      && (if attempt == 1 then Reader().last == None
          else attempt <= spec.maxRetries + 1 && Reader().last == Some(Fails))
    }

    ghost predicate IsDone(offset: nat)
      requires Valid()
      reads this
    {
      Reader().at == Some(offset) && Reader().completed
    }

    ghost method NoteCompleted(e: Event)
      requires Valid() && Allowed(spec, Reader(), e) && e.Completed?
      modifies this`trace, this`took
      ensures Valid() && trace == old(trace) + [e] && Reader() == Step(old(Reader()), e)
    {
      AfterNext(spec, trace, e);
      AnsweredCompletion(spec, script, trace, took, next, e);
      trace, took := trace + [e], took + [0];
    }

    /** The next answer is used up, and brings about the event. */
    method Use(ghost e: Event)
      requires Valid() && next < |script| && BroughtBy(spec, e, script[next])
      requires Allowed(spec, Reader(), e) && !e.Stored?
      modifies this`trace, this`took, this`next
      ensures Valid() && next == old(next) + 1 && trace == old(trace) + [e] && Reader() == Step(old(Reader()), e)
    {
      AfterNext(spec, trace, e);
      AnsweredNext(spec, script, trace, took, next, e);
      trace, took := trace + [e], took + [next];
      next := next + 1;
    }

    /** The next answer ends the session and brings about no event. */
    method Die()
      requires Valid() && next < |script| && Interrupts(script[next])
      modifies this`next
      ensures Valid() && next == old(next) + 1 && Interrupts(script[next - 1])
    {
      AnsweredByDeath(spec, script, trace, took, next);
      next := next + 1;
    }

    /** `_handle`: true when the message is done with, false when the process
        died on the way. */
    method Handle(offset: nat) returns (alive: bool)
      requires Valid() && MayTry(offset, 1)
      modifies this`trace, this`took, this`next
      ensures Valid() && old(next) <= next
      ensures Leg(trace, next, alive) == Story(spec, offset, 1, script, old(next)).(events :=
          old(trace) + Story(spec, offset, 1, script, old(next)).events)
      ensures if alive then IsDone(offset) else CutShort(script, old(next), next)
    {
      ghost var begun, whole := trace, Story(spec, offset, 1, script, next);
      var attempt, ended := 1, false;
      while attempt < spec.maxRetries + 2
        invariant Valid() && old(next) <= next && MayTry(offset, attempt)
        invariant Reached(begun, whole, trace, Story(spec, offset, attempt, script, next))
        decreases spec.maxRetries + 2 - attempt
      {
        ghost var now, part := trace, Story(spec, offset, attempt, script, next);
        ended, alive := Attempt(offset, attempt);
        ReachedOn(begun, whole, now, part, trace,
          if ended then Leg([], next, alive) else Story(spec, offset, attempt + 1, script, next));
        if ended {
          return;
        }
        attempt := attempt + 1;
      }
      NoteCompleted(Completed(offset, Skipped));
      alive := true;
    }

    /** One turn of the retry loop. */
    method Attempt(offset: nat, attempt: nat) returns (ended: bool, alive: bool)
      requires Valid() && MayTry(offset, attempt) && attempt < spec.maxRetries + 2
      modifies this`trace, this`took, this`next
      ensures Valid() && old(next) <= next
      ensures Reached(old(trace), Story(spec, offset, attempt, script, old(next)), trace,
          if ended then Leg([], next, alive) else Story(spec, offset, attempt + 1, script, next))
      ensures
        if !ended then MayTry(offset, attempt + 1)
        else if alive then IsDone(offset)
        else CutShort(script, old(next), next)
    {
      ended, alive := true, false;
      if next == |script| {
        return;
      }
      var answer := script[next];
      if answer.handler == DiesTrying {
        Die();
        return;
      }
      if offset in spec.broken || answer.handler == Error {
        Use(Tried(offset, attempt, Fails));
        if attempt > spec.maxRetries {
          alive := GiveUp(offset, old(trace), Tried(offset, attempt, Fails));
        } else {
          ended := false;
          ghost var rest := Story(spec, offset, attempt + 1, script, next);
          ReachedNext(old(trace), Tried(offset, attempt, Fails), rest, trace, rest);
        }
      } else if answer.handler == Permanent {
        Use(Tried(offset, attempt, IsPermanent));
        alive := GiveUp(offset, old(trace), Tried(offset, attempt, IsPermanent));
      } else {
        Use(Tried(offset, attempt, Succeeds));
        NoteCompleted(Completed(offset, Handled));
        alive := true;
      }
    }

    /** The dead-letter step after the last attempt. */
    method GiveUp(offset: nat, ghost before: seq<Event>, ghost tried: Event) returns (alive: bool)
      requires Valid() && Reader().at == Some(offset) && !Reader().completed && Reader().offered.None?
        && Exhausted(spec, Reader())
      requires trace == before + [tried]
      modifies this`trace, this`took, this`next
      ensures Valid() && old(next) <= next
      ensures Reached(before, Following(tried, DeadEnd(spec, offset, script, old(next))), trace, Leg([], next, alive))
      ensures if alive then IsDone(offset) else CutShort(script, old(next), next)
    {
      ghost var k := next;
      alive := MoveToDlt(offset);
      ReachedNext(before, tried, DeadEnd(spec, offset, script, k), trace, Leg([], next, alive));
    }

    /** `_move_to_dlt`: the value is decoded again before it is published, so a
        message that is not JSON is lost. */
    method MoveToDlt(offset: nat) returns (alive: bool)
      requires Valid() && Reader().at == Some(offset) && !Reader().completed && Reader().offered.None?
        && Exhausted(spec, Reader())
      modifies this`trace, this`took, this`next
      ensures Valid() && old(next) <= next
      ensures Leg(trace, next, alive) == DeadEnd(spec, offset, script, old(next)).(events :=
          old(trace) + DeadEnd(spec, offset, script, old(next)).events)
      ensures if alive then IsDone(offset) else CutShort(script, old(next), next)
    {
      if !spec.deadLetter {
        NoteCompleted(Completed(offset, Dropped));
        return true;
      }
      if offset in spec.broken {
        NoteCompleted(Completed(offset, Lost));
        return true;
      }
      if next == |script| {
        return false;
      }
      var answer := script[next];
      match answer.publish {
        case Published =>
          Use(Offered(offset, true));
          NoteCompleted(Completed(offset, DeadLettered));
        case Refused =>
          Use(Offered(offset, false));
          NoteCompleted(Completed(offset, Lost));
        case DiesPublishing =>
          Die();
          return false;
      }
      alive := true;
    }

    /** `consumer.commit()`: false when it raised. */
    method Commit() returns (alive: bool)
      requires Valid() && IsDone(position) && next < |script|
      modifies this`trace, this`took, this`next, this`committed, this`position
      ensures Valid() && next == old(next) + 1
      ensures trace == old(trace) + if script[old(next)].commit == FailsUnstored then [] else [Stored(old(position))]
      ensures alive <==> script[old(next)].commit == Commits
      ensures alive ==> position == old(position) + 1 && MayTry(position, 1)
      ensures committed == if script[old(next)].commit == FailsUnstored then old(committed) else Some(old(position) + 1)
    {
      var answer := script[next];
      if answer.commit == FailsUnstored {
        Die();
        return false;
      }
      AfterNext(spec, trace, Stored(position));
      AnsweredNext(spec, script, trace, took, next, Stored(position));
      trace, took := trace + [Stored(position)], took + [next];
      next := next + 1;
      committed := Some(position + 1);
      position := position + 1;
      alive := answer.commit == Commits;
    }

    /** One consumer, from its start until it is lost; only a crash, a failed
        commit or the end of the process ends it. */
    method Session()
      requires Valid() && next < |script|
      modifies this`trace, this`took, this`next, this`committed, this`position
      ensures Valid() && old(next) < next && CutShort(script, old(next), next)
      ensures old(trace) + Life(spec, script, old(next), old(committed), None)
        == trace + Life(spec, script, next, committed, None)
    {
      ghost var begun, whole := trace, Life(spec, script, next, committed, None);
      StartOfLife(spec, script, next, committed, trace);
      position := StartOf(spec, committed, script[next].end);
      Use(Began(position));
      var alive := true;
      while alive && next < |script|
        invariant Valid() && old(next) < next
        invariant if alive then MayTry(position, 1) else CutShort(script, old(next), next)
        invariant begun + whole == trace + Life(spec, script, next, committed, if alive then Some(position) else None)
        decreases alive, |script| - next
      {
        alive := NextTurn();
      }
    }

    /** One turn takes the life from the message in hand to what comes after. */
    method NextTurn() returns (alive: bool)
      requires Valid() && MayTry(position, 1) && next < |script|
      modifies this`trace, this`took, this`next, this`committed, this`position
      ensures Valid() && old(next) < next
      ensures if alive then MayTry(position, 1) else CutShort(script, old(next), next)
      ensures old(trace) + Life(spec, script, old(next), old(committed), Some(old(position)))
        == trace + Life(spec, script, next, committed, if alive then Some(position) else None)
    {
      TurnOfLife(spec, script, next, committed, position, trace);
      alive := HandleAndCommit();
    }

    /** The body of the loop over the messages. */
    method HandleAndCommit() returns (alive: bool)
      requires Valid() && MayTry(position, 1) && next < |script|
      modifies this`trace, this`took, this`next, this`committed, this`position
      ensures Valid() && old(next) < next
      ensures if alive then MayTry(position, 1) && position == old(position) + 1 else CutShort(script, old(next), next)
      ensures var leg := Turn(spec, old(position), script, old(next));
        && trace == old(trace) + leg.events && next == leg.next && alive == leg.alive
        && committed == CommittedAfter(spec, old(position), script, old(next), old(committed))
    {
      alive := Handle(position);
      if alive && next < |script| {
        alive := Commit();
      } else {
        alive := false;
      }
    }

    /** `_read_loop`: build a new consumer whenever the last one was lost. Every
        run, whatever the handler, the broker and the crashes do, follows the
        protocol, and its trace is a function of their answers. */
    method ReadLoop()
      requires Valid()
      modifies this`trace, this`took, this`next, this`committed, this`position
      ensures Valid() && next == |script| && Answered(spec, script, trace, took, |script|)
      ensures trace == old(trace) + Life(spec, script, old(next), old(committed), None)
    {
      while next < |script|
        invariant Valid()
        invariant old(trace) + Life(spec, script, old(next), old(committed), None)
          == trace + Life(spec, script, next, committed, None)
        decreases |script| - next
      {
        Session();
      }
    }
  }

  // ------------------------------------------------------------- main results

  ghost predicate IsCompleted(trace: seq<Event>, offset: nat) {
    exists i :: 0 <= i < |trace| && trace[i].Completed? && trace[i].offset == offset
  }

  lemma {:induction false} CompletedStays(trace: seq<Event>, e: Event, offset: nat)
    ensures IsCompleted(trace + [e], offset) <==> IsCompleted(trace, offset) || (e.Completed? && e.offset == offset)
  {
    if IsCompleted(trace, offset) {
      var i :| 0 <= i < |trace| && trace[i].Completed? && trace[i].offset == offset;
      assert (trace + [e])[i] == trace[i];
    }
    if e.Completed? && e.offset == offset {
      assert (trace + [e])[|trace|] == e;
    }
  }

  /** The message in hand is marked done only after it was completed, and a
      session that has not stored anything yet stands where it began. */
  ghost predicate Tidy(trace: seq<Event>, r: Reader) {
    && (r.completed ==> r.at.Some? && IsCompleted(trace, r.at.value))
    && (r.committed.None? ==> r.origin.None? && (r.at.Some? ==> r.at.value == r.began))
    && (r.committed.Some? ==> r.origin.Some? && r.origin.value < r.committed.value)
    && (r.committed.Some? && r.at.Some? ==> r.at == r.committed)
  }

  /** At least once: in every run, with crashes anywhere, each offset from the
      first one stored up to the committed one has been handled, dead-lettered,
      dropped, lost or skipped. */
  lemma {:induction false} AtLeastOnce(spec: Spec, trace: seq<Event>)
    requires After(spec, trace).Some?
    ensures var r := After(spec, trace).value;
      Tidy(trace, r)
      && (r.committed.Some? ==> forall o: nat :: r.origin.value <= o < r.committed.value ==> IsCompleted(trace, o))
  {
    if trace != [] {
      var before, e := trace[..|trace| - 1], trace[|trace| - 1];
      assert trace == before + [e];
      AtLeastOnce(spec, before);
      var r := After(spec, before).value;
      if r.at.Some? { CompletedStays(before, e, r.at.value); }
      if r.committed.Some? {
        forall o: nat | r.origin.value <= o < r.committed.value ensures IsCompleted(trace, o) {
          CompletedStays(before, e, o);
        }
      }
    }
  }

  /** A group that reads from the earliest offset misses nothing at all. */
  lemma {:induction false} EarliestMissesNothing(spec: Spec, trace: seq<Event>, o: nat)
    requires spec.earliest && After(spec, trace).Some?
    ensures var r := After(spec, trace).value;
      r.committed.Some? && o < r.committed.value ==> IsCompleted(trace, o)
  {
    AtLeastOnce(spec, trace);
    OriginIsZero(spec, trace);
  }

  lemma {:induction false} OriginIsZero(spec: Spec, trace: seq<Event>)
    requires spec.earliest && After(spec, trace).Some?
    ensures var r := After(spec, trace).value;
      (r.committed.Some? ==> r.origin == Some(0)) && (r.committed.None? && r.at.Some? ==> r.began == 0)
  {
    if trace != [] {
      OriginIsZero(spec, trace[..|trace| - 1]);
    }
  }

  function Begins(trace: seq<Event>): nat {
    if trace == [] then 0 else Begins(trace[..|trace| - 1]) + if trace[|trace| - 1].Began? then 1 else 0
  }

  /** Every offset from the one first delivered up to the committed one has been
      completed. */
  ghost predicate PassesOverNothing(spec: Spec, trace: seq<Event>)
    requires After(spec, trace).Some?
  {
    trace != [] && After(spec, trace).value.committed.Some? ==>
      && trace[0].Began?
      && forall o: nat :: trace[0].position <= o < After(spec, trace).value.committed.value ==> IsCompleted(trace, o)
  }

  lemma {:induction false} RunsBeginFirst(spec: Spec, trace: seq<Event>)
    requires After(spec, trace).Some? && trace != []
    ensures trace[0].Began?
  {
    if |trace| > 1 {
      RunsBeginFirst(spec, trace[..|trace| - 1]);
    } else {
      assert trace[..0] == [] && After(spec, trace[..0]) == Some(FRESH);
    }
  }

  /** Whatever a group was delivered is completed before it is passed, in every
      possible run, exactly when it reads from the earliest offset. */
  lemma PassesOverNothingIff(spec: Spec)
    ensures spec.earliest <==> forall trace :: After(spec, trace).Some? ==> PassesOverNothing(spec, trace)
  {
    if spec.earliest {
      forall trace | After(spec, trace).Some? ensures PassesOverNothing(spec, trace) {
        if trace != [] {
          RunsBeginFirst(spec, trace);
          AtLeastOnce(spec, trace);
          OriginIsZero(spec, trace);
        }
      }
    } else {
      var m := HealthyOffset(spec.broken);
      LatestPassesOver(spec, m);
      var trace := FatalTrace(spec, m);
      assert !PassesOverNothing(spec, trace) by {
        assert trace[0].position <= (if spec.maxRetries < 0 then 1 else 0) < m + 1;
      }
    }
  }

  /** Some offset after 1 holds JSON. */
  lemma {:induction false} HealthyOffset(broken: set<nat>) returns (m: nat)
    ensures m > 1 && m !in broken && forall b: nat :: b in broken ==> b < m
  {
    if broken == {} {
      m := 2;
    } else {
      var b: nat :| b in broken;
      var n := HealthyOffset(broken - {b});
      m := if b < n then n else b + 1;
      forall x: nat | x in broken ensures x < m {
        if x != b { assert x in broken - {b}; }
      }
    }
  }

  const OK := Answer(Ok, Published, Commits, 0)

  /** The first session begins at 0 and dies with the message in hand: in its
      second attempt if it may have two, in its first if it may have one. The
      second session begins at m and handles that message. */
  function FatalScript(spec: Spec, m: nat): seq<Answer> {
    if spec.maxRetries < 0 then [OK, OK.(commit := FailsUnstored), OK.(end := m), OK]
    else if spec.maxRetries == 0 then [OK, OK.(handler := DiesTrying), OK.(end := m), OK, OK]
    else [OK, OK.(handler := Error), OK.(handler := DiesTrying), OK.(end := m), OK, OK]
  }

  function FatalTrace(spec: Spec, m: nat): seq<Event> {
    (if spec.maxRetries < 0 then [Began(0), Completed(0, Skipped)]
     else if spec.maxRetries == 0 then [Began(0)]
     else [Began(0), Tried(0, 1, Fails)]) + LaterTrace(spec, m)
  }

  /** A group that reads from the latest offset can pass over a message it was
      delivered, even one it tried: the process dies with it in hand before the
      first commit, and the next session starts at the new end of the log. With a
      negative max_retries, which tries nothing, it passes over the next one. */
  lemma LatestPassesOver(spec: Spec, m: nat)
    requires !spec.earliest && m > 1 && m !in spec.broken
    ensures var trace := Life(spec, FatalScript(spec, m), 0, None, None);
      && trace == FatalTrace(spec, m)
      && After(spec, trace).Some? && After(spec, trace).value.committed == Some(m + 1)
      && !IsCompleted(trace, if spec.maxRetries < 0 then 1 else 0)
  {
    FatalIsAllowed(spec, m);
    FatalLife(spec, m);
  }

  lemma FatalLife(spec: Spec, m: nat)
    requires !spec.earliest && m > 1 && m !in spec.broken
    ensures Life(spec, FatalScript(spec, m), 0, None, None) == FatalTrace(spec, m)
  {
    var script, k := FatalScript(spec, m), if spec.maxRetries <= 0 then 2 else 3;
    var lost, kept := Turn(spec, 0, script, 1).events, Turn(spec, m, script, k + 1).events;
    FatalTurns(spec, m);
    assert LaterTrace(spec, m) == [Began(m)] + kept;
    assert FatalTrace(spec, m) == [Began(0)] + (lost + LaterTrace(spec, m));
    assert Life(spec, script, |script|, Some(m + 1), Some(m + 1)) == [];
    assert Life(spec, script, k + 1, None, Some(m)) == kept + [];
    assert Life(spec, script, k, None, None) == LaterTrace(spec, m);
    assert Life(spec, script, 1, None, Some(0)) == lost + LaterTrace(spec, m);
  }

  /** The two turns of that run. */
  lemma FatalTurns(spec: Spec, m: nat)
    requires !spec.earliest && m > 1 && m !in spec.broken
    ensures var script, k := FatalScript(spec, m), if spec.maxRetries <= 0 then 2 else 3;
      && Turn(spec, 0, script, 1) ==
        Leg(if spec.maxRetries < 0 then [Completed(0, Skipped)] else if spec.maxRetries == 0 then []
          else [Tried(0, 1, Fails)], k, false)
      && CommittedAfter(spec, 0, script, 1, None) == None
      && Turn(spec, m, script, k + 1) ==
        Leg(if spec.maxRetries < 0 then [Completed(m, Skipped), Stored(m)]
          else [Tried(m, 1, Succeeds), Completed(m, Handled), Stored(m)], |script|, true)
  {
    var script := FatalScript(spec, m);
    if spec.maxRetries > 0 {
      assert Story(spec, 0, 2, script, 2) == Leg([], 3, false);
      assert Story(spec, 0, 1, script, 1) == Following(Tried(0, 1, Fails), Leg([], 3, false));
    }
  }

  lemma FatalIsAllowed(spec: Spec, m: nat)
    requires !spec.earliest && m > 1 && m !in spec.broken
    ensures After(spec, FatalTrace(spec, m)).Some?
    ensures After(spec, FatalTrace(spec, m)).value.committed == Some(m + 1)
  {
    var trace := FatalTrace(spec, m);
    var lost := [Began(0)];
    AfterNext(spec, [], Began(0));
    if spec.maxRetries != 0 {
      AfterNext(spec, lost, trace[1]);
      lost := lost + [trace[1]];
    }
    LaterSession(spec, lost, m);
    assert trace == lost + LaterTrace(spec, m);
  }

  /** A session that begins at m and stores it, after whatever stored nothing. */
  lemma LaterSession(spec: Spec, lost: seq<Event>, m: nat)
    requires !spec.earliest && m !in spec.broken
    requires After(spec, lost).Some? && After(spec, lost).value.committed.None?
    ensures var r := After(spec, lost + LaterTrace(spec, m)); r.Some? && r.value.committed == Some(m + 1)
  {
    var done := lost + [Began(m)];
    AfterNext(spec, lost, Began(m));
    if spec.maxRetries >= 0 {
      AfterNext(spec, done, Tried(m, 1, Succeeds));
      done := done + [Tried(m, 1, Succeeds)];
    }
    StoresNext(spec, done, m, if spec.maxRetries < 0 then Skipped else Handled);
    assert lost + LaterTrace(spec, m) == done + LaterTrace(spec, m)[|done| - |lost|..];
  }

  function LaterTrace(spec: Spec, m: nat): seq<Event> {
    if spec.maxRetries < 0 then [Began(m), Completed(m, Skipped), Stored(m)]
    else [Began(m), Tried(m, 1, Succeeds), Completed(m, Handled), Stored(m)]
  }

  lemma StoresNext(spec: Spec, trace: seq<Event>, m: nat, fate: Fate)
    requires After(spec, trace).Some? && Allowed(spec, After(spec, trace).value, Completed(m, fate))
    ensures var r := After(spec, trace + [Completed(m, fate), Stored(m)]); r.Some? && r.value.committed == Some(m + 1)
  {
    var done := trace + [Completed(m, fate)];
    AfterNext(spec, trace, Completed(m, fate));
    AfterNext(spec, done, Stored(m));
    assert trace + [Completed(m, fate), Stored(m)] == done + [Stored(m)];
  }

  /** Nor does it when no restart comes before its first commit. */
  lemma {:induction false} LatestMissesNothingAfterOneStart(spec: Spec, trace: seq<Event>)
    requires After(spec, trace).Some?
    requires forall i :: 0 < i < |trace| && trace[i].Began? ==> exists j :: 0 <= j < i && trace[j].Stored?
    ensures PassesOverNothing(spec, trace)
  {
    if trace != [] {
      RunsBeginFirst(spec, trace);
      OriginIsFirst(spec, trace, trace[0].position);
      AtLeastOnce(spec, trace);
    }
  }

  lemma {:induction false} OriginIsFirst(spec: Spec, trace: seq<Event>, first: nat)
    requires After(spec, trace).Some? && trace != [] && trace[0] == Began(first)
    requires forall i :: 0 < i < |trace| && trace[i].Began? ==> exists j :: 0 <= j < i && trace[j].Stored?
    ensures var r := After(spec, trace).value;
      (r.committed.None? ==> r.began == first) && (r.committed.Some? ==> r.origin == Some(first))
  {
    var before, e := trace[..|trace| - 1], trace[|trace| - 1];
    if before == [] {
      assert trace == [e];
    } else {
      forall i | 0 < i < |before| && before[i].Began? ensures exists j :: 0 <= j < i && before[j].Stored? {
        var j :| 0 <= j < i && trace[j].Stored?;
        assert before[j].Stored?;
      }
      OriginIsFirst(spec, before, first);
      if e.Began? {
        var j :| 0 <= j < |trace| - 1 && trace[j].Stored?;
        StoredMeansCommitted(spec, before, j);
      }
    }
  }

  lemma {:induction false} StoredMeansCommitted(spec: Spec, trace: seq<Event>, j: nat)
    requires After(spec, trace).Some? && j < |trace| && trace[j].Stored?
    ensures After(spec, trace).value.committed.Some?
  {
    if j < |trace| - 1 {
      StoredMeansCommitted(spec, trace[..|trace| - 1], j);
    }
  }

  /** Attempts on one delivery are numbered 1, 2, ... without gaps, each after a
      failure of the one before, and there are at most maxRetries + 1. */
  lemma {:induction false} AttemptsAreBounded(spec: Spec, trace: seq<Event>, i: nat)
    requires After(spec, trace).Some? && i < |trace| && trace[i].Tried?
    ensures 1 <= trace[i].number <= spec.maxRetries + 1
    ensures trace[i].number > 1 ==> i > 0 && trace[i - 1] == Tried(trace[i].offset, trace[i].number - 1, Fails)
  {
    var before := trace[..|trace| - 1];
    if i < |before| {
      AttemptsAreBounded(spec, before, i);
    } else if trace[i].number > 1 {
      LastWasTried(spec, before);
    }
  }

  lemma {:induction false} LastWasTried(spec: Spec, trace: seq<Event>)
    requires After(spec, trace).Some?
    ensures var r := After(spec, trace).value;
      r.tried > 0 && !r.completed && r.offered.None? ==>
        r.at.Some? && r.last.Some? && trace != [] && trace[|trace| - 1] == Tried(r.at.value, r.tried, r.last.value)
  {
  }

  /** An offset is stored only right after its message was completed. */
  lemma {:induction false} StoredRightAfterCompleted(spec: Spec, trace: seq<Event>, i: nat)
    requires After(spec, trace).Some? && i < |trace| && trace[i].Stored?
    ensures i > 0 && trace[i - 1].Completed? && trace[i - 1].offset == trace[i].offset
  {
    var before := trace[..|trace| - 1];
    if i < |before| {
      StoredRightAfterCompleted(spec, before, i);
    } else {
      LastWasCompleted(spec, before);
    }
  }

  lemma {:induction false} LastWasCompleted(spec: Spec, trace: seq<Event>)
    requires After(spec, trace).Some?
    ensures var r := After(spec, trace).value;
      r.completed ==>
        r.at.Some? && trace != [] && trace[|trace| - 1].Completed? && trace[|trace| - 1].offset == r.at.value
  {
  }

  lemma {:induction false} LastWasOffered(spec: Spec, trace: seq<Event>)
    requires After(spec, trace).Some?
    ensures var r := After(spec, trace).value;
      r.offered.Some? && !r.completed ==>
        r.at.Some? && trace != [] && trace[|trace| - 1] == Offered(r.at.value, r.offered.value)
  {
  }

  /** The event at i offered this message to the dead-letter topic, which took it. */
  predicate WasTaken(trace: seq<Event>, i: int, offset: nat) {
    0 <= i < |trace| && trace[i] == Offered(offset, true)
  }

  /** Each fate says what became of the message, and each is the only one
      possible. A message is skipped exactly when nothing is ever tried, and
      handled exactly when its last attempt succeeded. One whose attempts are
      used up is dropped exactly when the setting is off; with the setting on it
      is dead-lettered exactly when it is JSON and the topic took it, and lost
      otherwise. */
  lemma {:induction false} FateIsDeserved(spec: Spec, trace: seq<Event>, i: nat)
    requires After(spec, trace).Some? && i < |trace| && trace[i].Completed?
    ensures var (o, fate) := (trace[i].offset, trace[i].fate);
      && (fate == Skipped <==> spec.maxRetries < 0)
      && (fate == Handled <==> i > 0 && trace[i - 1].Tried? && trace[i - 1].attempt == Succeeds)
      && (fate == Handled ==> trace[i - 1].offset == o && o !in spec.broken)
    ensures var (o, fate) := (trace[i].offset, trace[i].fate);
      fate != Skipped && fate != Handled ==>
        && (fate == Dropped <==> !spec.deadLetter)
        && (fate == DeadLettered <==> spec.deadLetter && o !in spec.broken && WasTaken(trace, i - 1, o))
        && (fate == Lost <==> spec.deadLetter && !(o !in spec.broken && WasTaken(trace, i - 1, o)))
  {
    var before := trace[..|trace| - 1];
    if i < |before| {
      FateIsDeserved(spec, before, i);
    } else {
      LastWasTried(spec, before);
      LastWasOffered(spec, before);
      LastIsTruthful(spec, before);
    }
  }

  lemma {:induction false} LastIsTruthful(spec: Spec, trace: seq<Event>)
    requires After(spec, trace).Some?
    ensures var r := After(spec, trace).value;
      && (r.last.Some? <==> r.tried > 0)
      && (r.tried > 0 ==> spec.maxRetries >= 0 && r.at.Some? && (r.at.value in spec.broken ==> r.last == Some(Fails)))
  {
    if trace != [] { LastIsTruthful(spec, trace[..|trace| - 1]); }
  }

  function Completions(trace: seq<Event>): nat {
    if trace == [] then 0 else Completions(trace[..|trace| - 1]) + if trace[|trace| - 1].Completed? then 1 else 0
  }

  /** Restarts that found a message completed but not stored. */
  function Redone(spec: Spec, trace: seq<Event>): nat {
    if trace == [] then 0
    else
      var before := trace[..|trace| - 1];
      Redone(spec, before)
      + if trace[|trace| - 1].Began? && After(spec, before).Some? && After(spec, before).value.completed then 1 else 0
  }

  /** How far the group has come. */
  function Progress(r: Reader): int {
    if r.committed.Some? && r.origin.Some? then r.committed.value - r.origin.value else 0
  }

  /** Work done over a whole run: one completion per offset committed, one more
      for each restart that found one unstored, and perhaps the one in hand.
      So a restart repeats at most one completed message. */
  lemma {:induction false} WorkIsCounted(spec: Spec, trace: seq<Event>)
    requires After(spec, trace).Some?
    ensures var r := After(spec, trace).value;
      Completions(trace) == Progress(r) + Redone(spec, trace) + (if r.completed then 1 else 0)
    ensures Redone(spec, trace) <= if Begins(trace) == 0 then 0 else Begins(trace) - 1
    ensures Begins(trace) == 0 ==> After(spec, trace).value.at.None? && !After(spec, trace).value.completed
  {
    if trace != [] {
      var before := trace[..|trace| - 1];
      WorkIsCounted(spec, before);
      AtLeastOnce(spec, before);
    }
  }

  // ------------------------------------------- what the handler's answers bring

  /** Every event of a run was allowed when it came. */
  lemma {:induction false} WasAllowed(spec: Spec, trace: seq<Event>, i: nat)
    requires After(spec, trace).Some? && i < |trace|
    ensures After(spec, trace[..i]).Some? && Allowed(spec, After(spec, trace[..i]).value, trace[i])
    ensures After(spec, trace[..i + 1]) == Some(Step(After(spec, trace[..i]).value, trace[i]))
  {
    var before := trace[..|trace| - 1];
    if i < |before| {
      WasAllowed(spec, before, i);
      assert before[..i] == trace[..i] && before[..i + 1] == trace[..i + 1];
    } else {
      assert trace[..i + 1] == trace;
    }
  }

  /** What may come right after the attempts are used up. */
  predicate GivesUp(e: Event, offset: nat) {
    || (e.Offered? && e.offset == offset)
    || (e.Completed? && e.offset == offset && e.fate != Handled && e.fate != Skipped)
  }

  /** The answer to an attempt decides how its delivery goes on, unless a new
      session begins. A message that is JSON is handled if the handler said so; a
      permanent error ends the attempts at once; anything else is tried again
      while attempts are left. */
  lemma AnswerDecides(spec: Spec, script: seq<Answer>, trace: seq<Event>, took: seq<nat>, n: nat, i: nat)
    requires After(spec, trace).Some? && Answered(spec, script, trace, took, n)
    requires i + 1 < |trace| && trace[i].Tried? && !trace[i + 1].Began?
    ensures var (o, number, next) := (trace[i].offset, trace[i].number, trace[i + 1]);
      took[i] < n <= |script| &&
      var handler := script[took[i]].handler;
      && (o !in spec.broken && handler == Ok ==> next == Completed(o, Handled))
      && (o !in spec.broken && handler == Permanent ==> GivesUp(next, o))
      && (o in spec.broken || handler == Error ==>
            if number <= spec.maxRetries then next.Tried? && next.offset == o && next.number == number + 1
            else GivesUp(next, o))
  {
    EventAnswered(spec, script, trace, took, n, i);
    WasAllowed(spec, trace, i);
    WasAllowed(spec, trace, i + 1);
    LastIsTruthful(spec, trace[..i + 1]);
  }

  /** A message is handled only by an attempt whose answer was Ok. */
  lemma HandledMeansOk(spec: Spec, script: seq<Answer>, trace: seq<Event>, took: seq<nat>, n: nat, i: nat)
    requires After(spec, trace).Some? && Answered(spec, script, trace, took, n)
    requires i < |trace| && trace[i].Completed? && trace[i].fate == Handled
    ensures i > 0 && trace[i - 1].Tried? && trace[i - 1].offset == trace[i].offset && trace[i].offset !in spec.broken
    ensures took[i - 1] < n <= |script| && script[took[i - 1]].handler == Ok
  {
    FateIsDeserved(spec, trace, i);
    EventAnswered(spec, script, trace, took, n, i - 1);
  }
}
