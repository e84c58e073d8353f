/** Nested snapshot transactions of the memory backend: `save`, `_next_id`,
    `_check_unique`, `_check_references`, `_apply`, `transaction` and
    `MemoryUnitOfWork` of fastapi_modular/infrastructure/database/memory.py.
    Records are objects updated in place; a snapshot holds copies of them. */
module Transactions {
  import opened Wrappers

  /** The columns of a record other than its id. */
  type Row = map<string, Option<int>>

  /** A table and an id in it. */
  datatype Key = Key(table: string, id: int)

  datatype Reference = Reference(column: string, target: string)

  /** Unique column groups and foreign keys, per table; every foreign key here
      is declared RESTRICT. */
  datatype Schema = Schema(unique: map<string, seq<seq<string>>>, references: map<string, seq<Reference>>)

  /** What a handler does. `Rollback` is `tx.rollback()` of any open block and
      `Try` is `try: ... except Exception: ...`. */
  datatype Prog =
    | Skip
    | Save(table: string, own: Option<int>, row: Row)
    | Update(table: string, id: int, changes: Row)
    | Delete(table: string, id: int)
    | Raise
    | Rollback
    | Seq(first: Prog, rest: Prog)
    | Block(body: Prog)
    | Try(body: Prog, handler: Prog)

  datatype Outcome = Done | Raised | RollbackAsked

  // ------------------------------------------------------------- the checks

  function Get(row: Row, column: string): Option<int> {
    if column in row then row[column] else None
  }

  predicate SameTuple(columns: seq<string>, a: Row, b: Row) {
    forall i :: 0 <= i < |columns| ==> Get(a, columns[i]) == Get(b, columns[i])
  }

  function UniqueOf(schema: Schema, table: string): seq<seq<string>> {
    if table in schema.unique then schema.unique[table] else []
  }

  function ReferencesOf(schema: Schema, table: string): seq<Reference> {
    if table in schema.references then schema.references[table] else []
  }

  /** `_check_unique`: no other row of the table holds the same values, NULL
      counting as a value. */
  predicate UniqueOk(schema: Schema, rows: map<Key, Row>, table: string, own: Option<int>, row: Row) {
    forall k :: k in rows && k.table == table && own != Some(k.id) ==> Clashes(schema, table, rows[k], row) == false
  }

  predicate Clashes(schema: Schema, table: string, a: Row, b: Row) {
    exists u :: 0 <= u < |UniqueOf(schema, table)| && SameTuple(UniqueOf(schema, table)[u], a, b)
  }

  /** `_check_references`: a reference is NULL or the parent is there. */
  predicate ReferencesOk(schema: Schema, rows: map<Key, Row>, table: string, row: Row) {
    var refs := ReferencesOf(schema, table);
    forall i :: 0 <= i < |refs| ==>
      Get(row, refs[i].column).None? || Key(refs[i].target, Get(row, refs[i].column).value) in rows
  }

  /** Some row refers to the key through a foreign key. */
  predicate IsReferred(schema: Schema, rows: map<Key, Row>, key: Key) {
    exists k :: k in rows && RefersTo(schema, k.table, rows[k], key)
  }

  predicate RefersTo(schema: Schema, table: string, row: Row, key: Key) {
    var refs := ReferencesOf(schema, table);
    exists i :: 0 <= i < |refs| && refs[i].target == key.table && Get(row, refs[i].column) == Some(key.id)
  }

  // ----------------------------------------------------- the pure meaning

  /** What the request's unit of work holds: nothing outside a request, and the
      state before the first attempt to write once there was one. */
  datatype Held = NoRequest | NotYet | Taken(rows: map<Key, Row>)

  datatype State = State(rows: map<Key, Row>, counters: map<string, nat>, held: Held)

  function CounterOf(counters: map<string, nat>, table: string): nat {
    if table in counters then counters[table] else 0
  }

  /** m is the largest of the counter and the live ids. */
  ghost predicate IsTop(keys: set<Key>, current: nat, table: string, m: int) {
    && current <= m
    && (m == current || Key(table, m) in keys)
    && forall k :: k in keys && k.table == table ==> k.id <= m
  }

  lemma {:induction false} TopExists(keys: set<Key>, current: nat, table: string) returns (m: int)
    ensures IsTop(keys, current, table, m)
  {
    if keys == {} {
      m := current;
    } else {
      var k :| k in keys;
      var n := TopExists(keys - {k}, current, table);
      m := if k.table == table && k.id > n then k.id else n;
    }
  }

  ghost function NextId(rows: map<Key, Row>, counters: map<string, nat>, table: string): int {
    var current := CounterOf(counters, table);
    assert exists m :: IsTop(rows.Keys, current, table, m) by {
      var m := TopExists(rows.Keys, current, table);
    }
    var m :| IsTop(rows.Keys, current, table, m);
    m + 1
  }

  /** `_join_request` */
  ghost function Joined(s: State): State {
    if s.held == NotYet then s.(held := Taken(s.rows)) else s
  }

  predicate NeedsId(id: Option<int>) { id.None? || id.value == 0 }

  ghost function SaveMeaning(schema: Schema, table: string, id: Option<int>, row: Row, s0: State): (State, Outcome) {
    var s := Joined(s0);
    if !UniqueOk(schema, s.rows, table, id, row) || !ReferencesOk(schema, s.rows, table, row) then (s, Raised)
    else if NeedsId(id) then
      var next := NextId(s.rows, s.counters, table);
      assert next >= 0;
      (s.(rows := s.rows[Key(table, next) := row], counters := s.counters[table := next]), Done)
    else (s.(rows := s.rows[Key(table, id.value) := row]), Done)
  }

  /** The record is changed first and checked afterwards. */
  ghost function UpdateMeaning(schema: Schema, table: string, id: int, changes: Row, s0: State): (State, Outcome) {
    var key := Key(table, id);
    if key !in s0.rows then (s0, Done)
    else
      var s := Joined(s0);
      var row := s.rows[key] + changes;
      var after := s.(rows := s.rows[key := row]);
      if UniqueOk(schema, after.rows, table, Some(id), row) && ReferencesOk(schema, after.rows, table, row)
      then (after, Done) else (after, Raised)
  }

  ghost function DeleteMeaning(schema: Schema, table: string, id: int, s0: State): (State, Outcome) {
    var key := Key(table, id);
    if key !in s0.rows then (s0, Done)
    else
      var s := Joined(s0);
      if IsReferred(schema, s.rows, key) then (s, Raised)
      else (s.(rows := s.rows - {key}), Done)
  }

  /** A block that does not finish keeps its counters and nothing else. */
  ghost function AfterBlock(before: State, after: State, ended: Outcome): (State, Outcome) {
    if ended == Done then (after, Done)
    else (after.(rows := before.rows), if ended == RollbackAsked then Done else Raised)
  }

  ghost function Meaning(schema: Schema, p: Prog, s: State): (State, Outcome)
    decreases p
  {
    match p
    case Skip => (s, Done)
    case Save(table, id, row) => SaveMeaning(schema, table, id, row, s)
    case Update(table, id, changes) => UpdateMeaning(schema, table, id, changes, s)
    case Delete(table, id) => DeleteMeaning(schema, table, id, s)
    case Raise => (s, Raised)
    case Rollback => (s, RollbackAsked)
    case Seq(first, rest) =>
      var (t, outcome) := Meaning(schema, first, s);
      if outcome == Done then Meaning(schema, rest, t) else (t, outcome)
    case Block(body) =>
      var (t, outcome) := Meaning(schema, body, s);
      AfterBlock(s, t, outcome)
    case Try(body, handler) =>
      var (t, outcome) := Meaning(schema, body, s);
      if outcome == Done then (t, Done) else Meaning(schema, handler, t)
  }

  // ------------------------------------------------------------- the objects

  /** A record; the table owns it and changes it in place. */
  class Record {
    var row: Row
    constructor (row: Row)
      ensures this.row == row
    {
      this.row := row;
    }
  }

  /** Every record stands under one key only. */
  ghost predicate OneEach(tables: map<Key, Record>) {
    forall j, k :: j in tables && k in tables && tables[j] == tables[k] ==> j == k
  }

  lemma PutOne(tables: map<Key, Record>, k: Key, record: Record)
    requires OneEach(tables) && record !in tables.Values
    ensures OneEach(tables[k := record])
    ensures tables[k := record].Values <= tables.Values + {record}
  {
  }

  function RowsOf(tables: map<Key, Record>): map<Key, Row>
    reads tables.Values
  {
    map k | k in tables :: tables[k].row
  }

  class UnitOfWork {
    var inRequest: bool
    var snapshot: Option<map<Key, Record>>

    constructor (inRequest: bool)
      ensures this.inRequest == inRequest && snapshot == None
    {
      this.inRequest := inRequest;
      snapshot := None;
    }

    ghost function Records(): set<Record>
      reads this
    {
      if snapshot.Some? then snapshot.value.Values else {}
    }

    ghost function Held(): Held
      reads this, Records()
    {
      if !inRequest then NoRequest else if snapshot.None? then NotYet else Taken(RowsOf(snapshot.value))
    }
  }

  class Backend {
    const schema: Schema
    var tables: map<Key, Record>
    var counters: map<string, nat>

    constructor (schema: Schema)
      ensures this.schema == schema && tables == map[] && counters == map[]
    {
      this.schema := schema;
      tables := map[];
      counters := map[];
    }

    ghost function Live(): set<Record>
      reads this
    {
      tables.Values
    }

    /** The tables and the unit of work share no record. */
    ghost predicate Valid(uow: UnitOfWork)
      reads this, uow
    {
      && OneEach(tables)
      && Live() !! uow.Records()
      && (uow.snapshot.Some? ==> uow.inRequest && OneEach(uow.snapshot.value))
    }

    ghost function Now(uow: UnitOfWork): State
      reads this, uow, Live(), uow.Records()
    {
      State(RowsOf(tables), counters, uow.Held())
    }

    /** `_copy_tables` */
    method CopyTables() returns (copy: map<Key, Record>)
      requires OneEach(tables)
      ensures fresh(copy.Values) && OneEach(copy)
      ensures RowsOf(copy) == RowsOf(tables)
    {
      copy := map[];
      var todo := tables.Keys;
      while todo != {}
        invariant todo <= tables.Keys && copy.Keys == tables.Keys - todo
        invariant fresh(copy.Values) && OneEach(copy)
        invariant forall k :: k in copy ==> copy[k].row == tables[k].row
        decreases |todo|
      {
        var k :| k in todo;
        var twin := new Record(tables[k].row);
        PutOne(copy, k, twin);
        copy := copy[k := twin];
        todo := todo - {k};
      }
    }

    /** `_join_request` */
    method Join(uow: UnitOfWork)
      requires Valid(uow)
      modifies uow
      ensures Valid(uow)
      ensures fresh(uow.Records() - old(uow.Records()))
      ensures Now(uow) == old(Joined(Now(uow)))
    {
      ghost var rows := RowsOf(tables);
      if uow.inRequest && uow.snapshot.None? {
        var copy := CopyTables();
        uow.snapshot := Some(copy);
        assert RowsOf(tables) == rows && uow.Held() == Taken(rows);
      }
    }

    /** `_next_id` of an entity with an integer id. */
    method IssueId(table: string) returns (following: int)
      modifies this`counters
      ensures following == old(NextId(RowsOf(tables), counters, table)) && following > 0
      ensures counters == old(counters)[table := following]
    {
      var top: int := CounterOf(counters, table);
      ghost var current := CounterOf(counters, table);
      var todo := tables.Keys;
      while todo != {}
        invariant todo <= tables.Keys && IsTop(tables.Keys - todo, current, table, top)
        decreases |todo|
      {
        var k :| k in todo;
        if k.table == table && k.id > top {
          top := k.id;
        }
        todo := todo - {k};
      }
      assert tables.Keys - todo == RowsOf(tables).Keys;
      following := top + 1;
      counters := counters[table := following];
    }

    method Save(uow: UnitOfWork, table: string, own: Option<int>, row: Row) returns (outcome: Outcome)
      requires Valid(uow)
      modifies this`tables, this`counters, uow
      ensures Valid(uow)
      ensures fresh(Live() - old(Live())) && fresh(uow.Records() - old(uow.Records()))
      ensures (Now(uow), outcome) == old(SaveMeaning(schema, table, own, row, Now(uow)))
    {
      Join(uow);
      if !UniqueOk(schema, RowsOf(tables), table, own, row) || !ReferencesOk(schema, RowsOf(tables), table, row) {
        return Raised;
      }
      var id: int;
      if NeedsId(own) {
        id := IssueId(table);
      } else {
        id := own.value;
      }
      Store(uow, Key(table, id), row);
      outcome := Done;
    }

    /** A copy of the caller's object goes into the table. */
    method Store(uow: UnitOfWork, key: Key, row: Row)
      requires Valid(uow)
      modifies this`tables
      ensures Valid(uow)
      ensures fresh(Live() - old(Live()))
      ensures Now(uow) == old(Now(uow).(rows := RowsOf(tables)[key := row]))
    {
      var stored := new Record(row);
      PutOne(tables, key, stored);
      tables := tables[key := stored];
      assert RowsOf(tables) == old(RowsOf(tables))[key := row];
      assert uow.Held() == old(uow.Held());
    }

    /** `_apply`: the record itself is changed, then checked. */
    method Apply(uow: UnitOfWork, key: Key, changes: Row) returns (outcome: Outcome)
      requires Valid(uow) && key in tables
      modifies tables[key], uow
      ensures Valid(uow)
      ensures fresh(uow.Records() - old(uow.Records()))
      ensures (Now(uow), outcome) == old(UpdateMeaning(schema, key.table, key.id, changes, Now(uow)))
    {
      Join(uow);
      SetFields(uow, key, changes);
      var unique := UniqueOk(schema, RowsOf(tables), key.table, Some(key.id), tables[key].row);
      var sound := ReferencesOk(schema, RowsOf(tables), key.table, tables[key].row);
      outcome := if unique && sound then Done else Raised;
    }

    /** `setattr` of every change, on the record itself: no other record and no
        snapshot is touched. */
    method SetFields(uow: UnitOfWork, key: Key, changes: Row)
      requires Valid(uow) && key in tables
      modifies tables[key]
      ensures Valid(uow)
      ensures Now(uow) == old(Now(uow).(rows := RowsOf(tables)[key := tables[key].row + changes]))
    {
      var obj := tables[key];
      assert obj in Live();
      obj.row := obj.row + changes;
      forall k | k in tables && k != key ensures tables[k].row == old(tables[k].row) {
        assert tables[k] != obj;
      }
      assert RowsOf(tables) == old(RowsOf(tables)[key := tables[key].row + changes]);
      assert uow.Held() == old(uow.Held());
    }

    method Update(uow: UnitOfWork, table: string, id: int, changes: Row) returns (outcome: Outcome)
      requires Valid(uow)
      modifies Live(), uow
      ensures Valid(uow) && tables == old(tables)
      ensures fresh(uow.Records() - old(uow.Records()))
      ensures (Now(uow), outcome) == old(UpdateMeaning(schema, table, id, changes, Now(uow)))
    {
      if Key(table, id) !in tables {
        return Done;
      }
      assert tables[Key(table, id)] in Live();
      outcome := Apply(uow, Key(table, id), changes);
    }

    method Delete(uow: UnitOfWork, table: string, id: int) returns (outcome: Outcome)
      requires Valid(uow)
      modifies this`tables, uow
      ensures Valid(uow) && Live() <= old(Live())
      ensures fresh(uow.Records() - old(uow.Records()))
      ensures (Now(uow), outcome) == old(DeleteMeaning(schema, table, id, Now(uow)))
    {
      var key := Key(table, id);
      if key !in tables {
        return Done;
      }
      Join(uow);
      if IsReferred(schema, RowsOf(tables), key) {
        return Raised;
      }
      label checked:
      tables := tables - {key};
      assert RowsOf(tables) == old@checked(RowsOf(tables)) - {key};
      outcome := Done;
    }

    /** `transaction`: a snapshot on entry, put back when the block does not
        finish; `RollbackRequested` stops here, any other exception goes on. */
    method Transaction(uow: UnitOfWork, body: Prog) returns (outcome: Outcome)
      requires Valid(uow)
      modifies this`tables, this`counters, uow, Live()
      ensures Valid(uow)
      ensures fresh(Live() - old(Live())) && fresh(uow.Records() - old(uow.Records()))
      ensures (Now(uow), outcome) == old(
        var (after, ended) := Meaning(schema, body, Now(uow));
        AfterBlock(Now(uow), after, ended))
      decreases body, 2
    {
      var snapshot, ended := RunWithSnapshot(uow, body);
      outcome := Leave(uow, snapshot, ended);
    }

    /** The body runs with a copy of the tables put aside, which it cannot
        reach. */
    method RunWithSnapshot(uow: UnitOfWork, body: Prog) returns (snapshot: map<Key, Record>, ended: Outcome)
      requires Valid(uow)
      modifies this`tables, this`counters, uow, Live()
      ensures Valid(uow)
      ensures fresh(Live() - old(Live())) && fresh(uow.Records() - old(uow.Records()))
      ensures (Now(uow), ended) == old(Meaning(schema, body, Now(uow)))
      ensures fresh(snapshot.Values) && OneEach(snapshot) && snapshot.Values !! uow.Records()
      ensures RowsOf(snapshot) == old(RowsOf(tables))
      decreases body, 1
    {
      snapshot := CopyTables();
      ghost var taken := snapshot.Values;
      assert taken !! Live() && taken !! uow.Records();
      ended := Run(uow, body);
      assert taken !! uow.Records();
    }

    /** The `except` clauses: put the tables back unless the body finished. */
    method Leave(uow: UnitOfWork, snapshot: map<Key, Record>, ended: Outcome) returns (outcome: Outcome)
      requires Valid(uow) && OneEach(snapshot) && snapshot.Values !! uow.Records()
      modifies this`tables
      ensures Valid(uow)
      ensures Live() <= old(Live()) + snapshot.Values
      ensures ended == Done ==> outcome == Done && Now(uow) == old(Now(uow))
      ensures ended != Done ==> Now(uow) == old(Now(uow).(rows := RowsOf(snapshot)))
      ensures ended != Done ==> outcome == if ended == RollbackAsked then Done else Raised
    {
      outcome := ended;
      if ended != Done {
        tables := snapshot;
        outcome := if ended == RollbackAsked then Done else Raised;
      }
    }

    /** Running a program on the objects is its meaning on values. */
    method Run(uow: UnitOfWork, p: Prog) returns (outcome: Outcome)
      requires Valid(uow)
      modifies this`tables, this`counters, uow, Live()
      ensures Valid(uow)
      ensures fresh(Live() - old(Live())) && fresh(uow.Records() - old(uow.Records()))
      ensures (Now(uow), outcome) == old(Meaning(schema, p, Now(uow)))
      decreases p, 0
    {
      match p
      case Skip => outcome := Done;
      case Save(table, own, row) => outcome := Save(uow, table, own, row);
      case Update(table, id, changes) => outcome := Update(uow, table, id, changes);
      case Delete(table, id) => outcome := Delete(uow, table, id);
      case Raise => outcome := Raised;
      case Rollback => outcome := RollbackAsked;
      case Seq(first, rest) =>
        outcome := Run(uow, first);
        if outcome == Done {
          outcome := Run(uow, rest);
        }
      case Block(body) => outcome := Transaction(uow, body);
      case Try(body, handler) =>
        outcome := Run(uow, body);
        if outcome != Done {
          outcome := Run(uow, handler);
        }
    }

    /** `on_request_end` */
    method EndRequest(uow: UnitOfWork, failed: bool)
      requires Valid(uow)
      modifies this`tables, uow
      ensures Valid(uow) && fresh(Live() - old(Live()) - old(uow.Records()))
      ensures counters == old(counters) && uow.snapshot == None
      ensures RowsOf(tables) == old(if failed && uow.Held().Taken? then uow.Held().rows else RowsOf(tables))
    {
      var held := uow.snapshot;
      uow.snapshot := None;
      if failed && held.Some? {
        tables := held.value;
      }
    }

    /** A whole request: a handler that fails leaves every table as it found it,
        whatever it wrote, committed or rolled back on the way. */
    method Request(handler: Prog) returns (outcome: Outcome)
      requires OneEach(tables)
      modifies this`tables, this`counters, Live()
      ensures OneEach(tables)
      ensures outcome == old(Meaning(schema, handler, State(RowsOf(tables), counters, NotYet))).1
      ensures outcome == Done ==>
        RowsOf(tables) == old(Meaning(schema, handler, State(RowsOf(tables), counters, NotYet))).0.rows
      ensures outcome != Done ==> RowsOf(tables) == old(RowsOf(tables))
      ensures counters == old(Meaning(schema, handler, State(RowsOf(tables), counters, NotYet))).0.counters
    {
      var uow := new UnitOfWork(true);
      ghost var start := Now(uow);
      outcome := Run(uow, handler);
      HeldIsStart(schema, handler, start);
      EndRequest(uow, outcome != Done);
    }
  }

  /** The unit of work takes its snapshot before the first change. */
  lemma {:induction false} HeldIsStart(schema: Schema, p: Prog, s: State)
    requires s.held != NoRequest
    ensures var t := Meaning(schema, p, s).0;
      if s.held.Taken? then t.held == s.held else (t.held == NotYet && t.rows == s.rows) || t.held == Taken(s.rows)
    decreases p
  {
    match p
    case Seq(first, rest) =>
      HeldIsStart(schema, first, s);
      var (t, outcome) := Meaning(schema, first, s);
      if outcome == Done { HeldIsStart(schema, rest, t); }
    case Block(body) => HeldIsStart(schema, body, s);
    case Try(body, handler) =>
      HeldIsStart(schema, body, s);
      var (t, outcome) := Meaning(schema, body, s);
      if outcome != Done { HeldIsStart(schema, handler, t); }
    case _ =>
  }

  // ------------------------------------------------- what survives, what is issued

  datatype Write = Put(key: Key, row: Row) | Drop(key: Key)

  function Replay(rows: map<Key, Row>, writes: seq<Write>): map<Key, Row> {
    if writes == [] then rows
    else Written(Replay(rows, writes[..|writes| - 1]), writes[|writes| - 1])
  }

  function Written(rows: map<Key, Row>, write: Write): map<Key, Row> {
    match write
    case Put(key, row) => rows[key := row]
    case Drop(key) => rows - {key}
  }

  lemma {:induction false} ReplayConcat(rows: map<Key, Row>, a: seq<Write>, b: seq<Write>)
    ensures Replay(rows, a + b) == Replay(Replay(rows, a), b)
  {
    if b == [] {
      assert a + b == a;
    } else {
      assert (a + b)[..|a + b| - 1] == a + b[..|b| - 1];
      ReplayConcat(rows, a, b[..|b| - 1]);
    }
  }

  /** The writes that count: those of every aborted block are left out. */
  ghost function Effects(schema: Schema, p: Prog, s: State): seq<Write>
    decreases p
  {
    match p
    case Save(table, own, row) =>
      if SaveMeaning(schema, table, own, row, s).1 != Done then []
      else [Put(Key(table, if NeedsId(own) then NextId(s.rows, s.counters, table) else own.value), row)]
    case Update(table, id, changes) =>
      if Key(table, id) in s.rows then [Put(Key(table, id), s.rows[Key(table, id)] + changes)] else []
    case Delete(table, id) =>
      if Key(table, id) in s.rows && !IsReferred(schema, s.rows, Key(table, id)) then [Drop(Key(table, id))] else []
    case Seq(first, rest) =>
      var (t, outcome) := Meaning(schema, first, s);
      if outcome == Done then Effects(schema, first, s) + Effects(schema, rest, t) else Effects(schema, first, s)
    case Block(body) => if Meaning(schema, body, s).1 == Done then Effects(schema, body, s) else []
    case Try(body, handler) =>
      var (t, outcome) := Meaning(schema, body, s);
      if outcome == Done then Effects(schema, body, s) else Effects(schema, body, s) + Effects(schema, handler, t)
    case _ => []
  }

  /** The tables after any program are the tables before it with the surviving
      writes replayed. */
  lemma {:induction false} TablesAreSurvivingWrites(schema: Schema, p: Prog, s: State)
    ensures Meaning(schema, p, s).0.rows == Replay(s.rows, Effects(schema, p, s))
    decreases p
  {
    match p
    case Seq(first, rest) =>
      TablesAreSurvivingWrites(schema, first, s);
      var (t, outcome) := Meaning(schema, first, s);
      if outcome == Done {
        TablesAreSurvivingWrites(schema, rest, t);
        ReplayConcat(s.rows, Effects(schema, first, s), Effects(schema, rest, t));
      }
    case Block(body) => TablesAreSurvivingWrites(schema, body, s);
    case Try(body, handler) =>
      TablesAreSurvivingWrites(schema, body, s);
      var (t, outcome) := Meaning(schema, body, s);
      if outcome != Done {
        TablesAreSurvivingWrites(schema, handler, t);
        ReplayConcat(s.rows, Effects(schema, body, s), Effects(schema, handler, t));
      }
    case _ => OneWrite(schema, p, s);
  }

  lemma OneWrite(schema: Schema, p: Prog, s: State)
    requires !p.Seq? && !p.Block? && !p.Try?
    ensures Meaning(schema, p, s).0.rows == Replay(s.rows, Effects(schema, p, s))
  {
    match p
    case Save(table, own, row) =>
      var id := if NeedsId(own) then NextId(s.rows, s.counters, table) else own.value;
      ReplayOne(s.rows, Put(Key(table, id), row));
    case Update(table, id, changes) =>
      if Key(table, id) in s.rows { ReplayOne(s.rows, Put(Key(table, id), s.rows[Key(table, id)] + changes)); }
    case Delete(table, id) => ReplayOne(s.rows, Drop(Key(table, id)));
    case _ =>
  }

  lemma ReplayOne(rows: map<Key, Row>, write: Write)
    ensures Replay(rows, [write]) == Written(rows, write)
  {
  }

  /** The ids issued on the way, those of aborted blocks included. */
  ghost function Issued(schema: Schema, p: Prog, s: State): seq<Key>
    decreases p
  {
    match p
    case Save(table, own, row) =>
      if SaveMeaning(schema, table, own, row, s).1 == Done && NeedsId(own)
      then [Key(table, NextId(s.rows, s.counters, table))] else []
    case Seq(first, rest) =>
      var (t, outcome) := Meaning(schema, first, s);
      if outcome == Done then Issued(schema, first, s) + Issued(schema, rest, t) else Issued(schema, first, s)
    case Block(body) => Issued(schema, body, s)
    case Try(body, handler) =>
      var (t, outcome) := Meaning(schema, body, s);
      if outcome == Done then Issued(schema, body, s) else Issued(schema, body, s) + Issued(schema, handler, t)
    case _ => []
  }

  /** Per table, ids only go up. */
  ghost predicate Rising(ids: seq<Key>) {
    forall i, j :: 0 <= i < j < |ids| && ids[i].table == ids[j].table ==> ids[i].id < ids[j].id
  }

  ghost predicate Between(ids: seq<Key>, from: map<string, nat>, to: map<string, nat>) {
    && (forall i :: 0 <= i < |ids| ==> CounterOf(from, ids[i].table) < ids[i].id <= CounterOf(to, ids[i].table))
    && forall table :: CounterOf(from, table) <= CounterOf(to, table)
  }

  lemma RisingConcat(a: seq<Key>, b: seq<Key>, from: map<string, nat>, mid: map<string, nat>, to: map<string, nat>)
    requires Rising(a) && Rising(b) && Between(a, from, mid) && Between(b, mid, to)
    ensures Rising(a + b) && Between(a + b, from, to)
  {
  }

  lemma SaveIssues(schema: Schema, table: string, own: Option<int>, row: Row, s: State)
    ensures Rising(Issued(schema, Save(table, own, row), s))
    ensures Between(Issued(schema, Save(table, own, row), s), s.counters,
      SaveMeaning(schema, table, own, row, s).0.counters)
  {
  }

  ghost predicate IdsFine(schema: Schema, p: Prog, s: State) {
    Rising(Issued(schema, p, s)) && Between(Issued(schema, p, s), s.counters, Meaning(schema, p, s).0.counters)
  }

  lemma SeqIssues(schema: Schema, first: Prog, rest: Prog, s: State)
    requires IdsFine(schema, first, s)
    requires var (t, outcome) := Meaning(schema, first, s); outcome == Done ==> IdsFine(schema, rest, t)
    ensures IdsFine(schema, Seq(first, rest), s)
  {
    var (t, outcome) := Meaning(schema, first, s);
    if outcome == Done {
      var u := Meaning(schema, rest, t).0;
      RisingConcat(Issued(schema, first, s), Issued(schema, rest, t), s.counters, t.counters, u.counters);
    }
  }

  lemma BlockIssues(schema: Schema, body: Prog, s: State)
    requires IdsFine(schema, body, s)
    ensures IdsFine(schema, Block(body), s)
  {
    assert Meaning(schema, Block(body), s).0.counters == Meaning(schema, body, s).0.counters;
  }

  lemma TryIssues(schema: Schema, body: Prog, handler: Prog, s: State)
    requires IdsFine(schema, body, s)
    requires var (t, outcome) := Meaning(schema, body, s); outcome != Done ==> IdsFine(schema, handler, t)
    ensures IdsFine(schema, Try(body, handler), s)
  {
    var (t, outcome) := Meaning(schema, body, s);
    if outcome != Done {
      var u := Meaning(schema, handler, t).0;
      RisingConcat(Issued(schema, body, s), Issued(schema, handler, t), s.counters, t.counters, u.counters);
    }
  }

  /** Over any program, with commits, rollbacks and exceptions, the ids issued
      per table strictly increase and the counters never go back. */
  lemma {:induction false} IdsIncrease(schema: Schema, p: Prog, s: State)
    ensures IdsFine(schema, p, s)
    decreases p
  {
    match p
    case Save(table, own, row) => SaveIssues(schema, table, own, row, s);
    case Seq(first, rest) =>
      IdsIncrease(schema, first, s);
      var (t, outcome) := Meaning(schema, first, s);
      if outcome == Done { IdsIncrease(schema, rest, t); }
      SeqIssues(schema, first, rest, s);
    case Block(body) =>
      IdsIncrease(schema, body, s);
      BlockIssues(schema, body, s);
    case Try(body, handler) =>
      IdsIncrease(schema, body, s);
      var (t, outcome) := Meaning(schema, body, s);
      if outcome != Done { IdsIncrease(schema, handler, t); }
      TryIssues(schema, body, handler, s);
    case _ =>
  }

  /** An issued id is above the counter and above every live id of its table. */
  lemma IssuedIsNew(rows: map<Key, Row>, counters: map<string, nat>, table: string)
    ensures NextId(rows, counters, table) > CounterOf(counters, table)
    ensures forall k :: k in rows && k.table == table ==> k.id < NextId(rows, counters, table)
  {
  }

  // --------------------------------------------------------- what rows promise

  /** Unique columns are unique and every reference is NULL or leads to a row. */
  ghost predicate Consistent(schema: Schema, rows: map<Key, Row>) {
    forall k :: k in rows ==> RowOk(schema, rows, k)
  }

  ghost predicate RowOk(schema: Schema, rows: map<Key, Row>, k: Key)
    requires k in rows
  {
    k.id != 0 && UniqueOk(schema, rows, k.table, Some(k.id), rows[k]) && ReferencesOk(schema, rows, k.table, rows[k])
  }

  /** Exceptions are only caught around a transaction block. */
  predicate Fenced(p: Prog) {
    match p
    case Seq(first, rest) => Fenced(first) && Fenced(rest)
    case Block(body) => Fenced(body)
    case Try(body, handler) => body.Block? && Fenced(body) && Fenced(handler)
    case _ => true
  }

  lemma PutKeepsConsistent(schema: Schema, rows: map<Key, Row>, key: Key, row: Row)
    requires Consistent(schema, rows) && key.id != 0
    requires UniqueOk(schema, rows[key := row], key.table, Some(key.id), row)
    requires ReferencesOk(schema, rows[key := row], key.table, row)
    ensures Consistent(schema, rows[key := row])
  {
  }

  lemma SaveKeepsConsistent(schema: Schema, table: string, own: Option<int>, row: Row, s: State)
    requires Consistent(schema, s.rows)
    ensures Consistent(schema, SaveMeaning(schema, table, own, row, s).0.rows)
  {
    if SaveMeaning(schema, table, own, row, s).1 == Done {
      IssuedIsNew(s.rows, s.counters, table);
      var key := Key(table, if NeedsId(own) then NextId(s.rows, s.counters, table) else own.value);
      forall k | k in s.rows ensures k.id != 0 {
        assert RowOk(schema, s.rows, k);
      }
      PutKeepsConsistent(schema, s.rows, key, row);
    }
  }

  /** A handler that catches exceptions only around blocks ends in a consistent
      state whenever it ends without an exception, although updates change
      records before they are checked. */
  lemma {:induction false} ConsistencyKept(schema: Schema, p: Prog, s: State)
    requires Fenced(p) && Consistent(schema, s.rows)
    ensures var (t, outcome) := Meaning(schema, p, s);
      outcome == Done || p.Block? ==> Consistent(schema, t.rows)
    decreases p
  {
    match p
    case Save(table, own, row) => SaveKeepsConsistent(schema, table, own, row, s);
    case Update(table, id, changes) =>
      var key := Key(table, id);
      if key in s.rows && Meaning(schema, p, s).1 == Done {
        assert RowOk(schema, s.rows, key);
        PutKeepsConsistent(schema, s.rows, key, s.rows[key] + changes);
      }
    case Delete(table, id) =>
    case Seq(first, rest) =>
      ConsistencyKept(schema, first, s);
      var (t, outcome) := Meaning(schema, first, s);
      if outcome == Done { ConsistencyKept(schema, rest, t); }
    case Block(body) => ConsistencyKept(schema, body, s);
    case Try(body, handler) =>
      ConsistencyKept(schema, body, s);
      var (t, outcome) := Meaning(schema, body, s);
      if outcome != Done { ConsistencyKept(schema, handler, t); }
    case _ =>
  }

  /** A failed update leaves the table as it was only if it changed nothing. */
  lemma FailedUpdateShows(schema: Schema, table: string, id: int, changes: Row, s: State)
    requires Meaning(schema, Update(table, id, changes), s).1 == Raised
    ensures Key(table, id) in s.rows
    ensures var row := s.rows[Key(table, id)];
      Meaning(schema, Update(table, id, changes), s).0.rows == s.rows <==> row + changes == row
  {
  }

  /** Without the fence the promise is broken, every time: swallow the
      exception of a refused update and the tables are inconsistent. */
  lemma SwallowedUpdateBreaks(schema: Schema, table: string, id: int, changes: Row, s: State)
    requires Meaning(schema, Update(table, id, changes), s).1 == Raised
    ensures Meaning(schema, Try(Update(table, id, changes), Skip), s).1 == Done
    ensures !Consistent(schema, Meaning(schema, Try(Update(table, id, changes), Skip), s).0.rows)
  {
    var update, key := Update(table, id, changes), Key(table, id);
    assert Meaning(schema, update, s) == UpdateMeaning(schema, table, id, changes, s);
    var after := Meaning(schema, update, s).0;
    assert key in after.rows && !RowOk(schema, after.rows, key);
    assert Meaning(schema, Skip, after) == (after, Done);
  }
}
