/** Which writes the memory backend refuses
    (fastapi_modular/infrastructure/database/memory.py), and what its tables
    promise, in terms of the declared columns and the rows alone. */
module Promises {
  import opened Wrappers
  import opened Transactions

  type Rows = map<Key, Row>

  /** A column that is not there is NULL. */
  predicate IsNull(row: Row, column: string) {
    column !in row || row[column].None?
  }

  /** NULL counts as a value of its own. */
  predicate SameValue(a: Row, b: Row, column: string) {
    if IsNull(a, column) then IsNull(b, column) else !IsNull(b, column) && a[column] == b[column]
  }

  /** The rows agree in every column of one of the table's unique groups. */
  ghost predicate Twins(schema: Schema, table: string, a: Row, b: Row) {
    table in schema.unique
    && exists group :: group in schema.unique[table] && forall c :: c in group ==> SameValue(a, b, c)
  }

  /** Another live row of the table agrees with this one in a unique group. */
  ghost predicate HasTwin(schema: Schema, rows: Rows, table: string, own: Option<int>, row: Row) {
    exists id: int :: Key(table, id) in rows && own != Some(id) && Twins(schema, table, rows[Key(table, id)], row)
  }

  predicate NamesNoRow(rows: Rows, row: Row, ref: Reference) {
    !IsNull(row, ref.column) && Key(ref.target, row[ref.column].value) !in rows
  }

  /** Some reference of the row is not NULL and names no live row. */
  ghost predicate HasOrphan(schema: Schema, rows: Rows, table: string, row: Row) {
    table in schema.references
    && exists ref :: ref in schema.references[table] && NamesNoRow(rows, row, ref)
  }

  /** Some live row holds the id in a column that refers to its table. */
  ghost predicate IsHeld(schema: Schema, rows: Rows, key: Key) {
    exists k :: k in rows && Holds(schema, k.table, rows[k], key)
  }

  predicate Names(row: Row, ref: Reference, key: Key) {
    ref.target == key.table && !IsNull(row, ref.column) && row[ref.column].value == key.id
  }

  ghost predicate Holds(schema: Schema, table: string, row: Row, key: Key) {
    table in schema.references
    && exists ref :: ref in schema.references[table] && Names(row, ref, key)
  }

  // ------------------------------------------------------- what the checks say

  lemma ClashesAreTwins(schema: Schema, table: string, a: Row, b: Row)
    ensures Clashes(schema, table, a, b) <==> Twins(schema, table, a, b)
  {
    var groups := UniqueOf(schema, table);
    forall u | 0 <= u < |groups|
      ensures SameTuple(groups[u], a, b) <==> forall c :: c in groups[u] ==> SameValue(a, b, c)
    {
      forall i | 0 <= i < |groups[u]| ensures Get(a, groups[u][i]) == Get(b, groups[u][i]) <==>
        SameValue(a, b, groups[u][i])
      {
      }
    }
    if Clashes(schema, table, a, b) {
      var u :| 0 <= u < |groups| && SameTuple(groups[u], a, b);
      assert groups[u] in schema.unique[table];
    }
    if Twins(schema, table, a, b) {
      var group :| group in schema.unique[table] && forall c :: c in group ==> SameValue(a, b, c);
      var u :| 0 <= u < |groups| && groups[u] == group;
      assert SameTuple(groups[u], a, b);
    }
  }

  lemma UniqueOkIff(schema: Schema, rows: Rows, table: string, own: Option<int>, row: Row)
    ensures UniqueOk(schema, rows, table, own, row) <==> !HasTwin(schema, rows, table, own, row)
  {
    forall k | k in rows ensures Clashes(schema, table, rows[k], row) <==> Twins(schema, table, rows[k], row) {
      ClashesAreTwins(schema, table, rows[k], row);
    }
    if !UniqueOk(schema, rows, table, own, row) {
      var k :| k in rows && k.table == table && own != Some(k.id) && Clashes(schema, table, rows[k], row);
      assert Key(table, k.id) == k;
    }
  }

  lemma ReferencesOkIff(schema: Schema, rows: Rows, table: string, row: Row)
    ensures ReferencesOk(schema, rows, table, row) <==> !HasOrphan(schema, rows, table, row)
  {
    var refs := ReferencesOf(schema, table);
    if !ReferencesOk(schema, rows, table, row) {
      var i :| 0 <= i < |refs| && Get(row, refs[i].column).Some?
        && Key(refs[i].target, Get(row, refs[i].column).value) !in rows;
      assert refs[i] in schema.references[table];
    }
  }

  lemma IsReferredIff(schema: Schema, rows: Rows, key: Key)
    ensures IsReferred(schema, rows, key) <==> IsHeld(schema, rows, key)
  {
    forall k | k in rows ensures RefersTo(schema, k.table, rows[k], key) <==> Holds(schema, k.table, rows[k], key) {
      var refs := ReferencesOf(schema, k.table);
      if RefersTo(schema, k.table, rows[k], key) {
        var i :| 0 <= i < |refs| && refs[i].target == key.table && Get(rows[k], refs[i].column) == Some(key.id);
        assert refs[i] in schema.references[k.table];
      }
    }
  }

  // ------------------------------------------------------- which writes are refused

  /** A save is refused exactly if another live row of the table agrees with it in
      a unique group, or a reference that is not NULL names no live row. */
  lemma SaveRefusedIff(schema: Schema, table: string, own: Option<int>, row: Row, s: State)
    ensures var outcome := SaveMeaning(schema, table, own, row, s).1;
      && (outcome == Raised <==> HasTwin(schema, s.rows, table, own, row) || HasOrphan(schema, s.rows, table, row))
      && (outcome == Done || outcome == Raised)
  {
    UniqueOkIff(schema, s.rows, table, own, row);
    ReferencesOkIff(schema, s.rows, table, row);
  }

  /** So is an update, for the row it makes. */
  lemma UpdateRefusedIff(schema: Schema, table: string, id: int, changes: Row, s: State)
    ensures var key := Key(table, id);
      var outcome := UpdateMeaning(schema, table, id, changes, s).1;
      && (outcome == Done || outcome == Raised)
      && (key !in s.rows ==> outcome == Done)
      && (key in s.rows ==>
        var row := s.rows[key] + changes;
        var rows := s.rows[key := row];
        outcome == Raised <==> HasTwin(schema, rows, table, Some(id), row) || HasOrphan(schema, rows, table, row))
  {
    var key := Key(table, id);
    if key in s.rows {
      var row := s.rows[key] + changes;
      UniqueOkIff(schema, s.rows[key := row], table, Some(id), row);
      ReferencesOkIff(schema, s.rows[key := row], table, row);
    }
  }

  /** A live row cannot be deleted exactly if some live row holds its id. */
  lemma DeleteRefusedIff(schema: Schema, table: string, id: int, s: State)
    ensures var outcome := DeleteMeaning(schema, table, id, s).1;
      && (outcome == Raised <==> Key(table, id) in s.rows && IsHeld(schema, s.rows, Key(table, id)))
      && (outcome == Done || outcome == Raised)
  {
    IsReferredIff(schema, s.rows, Key(table, id));
  }

  /** A save that is not refused stores the row, under its own id or under one
      above all of the table, and touches nothing else; a refused one stores
      nothing. */
  lemma SaveStores(schema: Schema, table: string, own: Option<int>, row: Row, s: State) returns (id: int)
    ensures var (t, outcome) := SaveMeaning(schema, table, own, row, s);
      t.rows == if outcome == Done then s.rows[Key(table, id) := row] else s.rows
    ensures own.Some? && own.value != 0 ==> id == own.value
    ensures own == None || own == Some(0) ==> id > 0 && forall k :: k in s.rows && k.table == table ==> k.id < id
  {
    IssuedIsNew(s.rows, s.counters, table);
    id := if own.Some? && own.value != 0 then own.value else NextId(s.rows, s.counters, table);
  }

  /** An update changes the columns it names in the row it names, even if it is
      refused; a delete takes its row away unless it is refused. */
  lemma UpdateAndDeleteChange(schema: Schema, table: string, id: int, changes: Row, s: State)
    ensures var (key, after) := (Key(table, id), UpdateMeaning(schema, table, id, changes, s).0.rows);
      && after.Keys == s.rows.Keys
      && (forall k :: k in s.rows && k != key ==> after[k] == s.rows[k])
      && (key in s.rows ==> forall c :: c in after[key] <==> c in changes || c in s.rows[key])
      && (key in s.rows ==> forall c :: c in after[key] ==>
            after[key][c] == if c in changes then changes[c] else s.rows[key][c])
    ensures var (t, outcome) := DeleteMeaning(schema, table, id, s);
      && (outcome == Raised ==> t.rows == s.rows)
      && (outcome == Done ==> t.rows.Keys == s.rows.Keys - {Key(table, id)})
      && forall k :: k in t.rows ==> t.rows[k] == s.rows[k]
  {
  }

  /** The id issued is one above the largest of the counter and the live ids. */
  lemma IdIsNext(rows: Rows, counters: map<string, nat>, table: string)
    ensures var last := NextId(rows, counters, table) - 1;
      && (forall k :: k in rows && k.table == table ==> k.id <= last)
      && (table in counters ==> counters[table] <= last) && last >= 0
      && (Key(table, last) in rows || (table in counters && counters[table] == last) || last == 0)
  {
  }

  /** A block that does not finish leaves the rows as it found them. A rollback
      that its body asks for ends there; any other exception goes on. */
  lemma BlockEnds(schema: Schema, body: Prog, s: State)
    ensures var ended := Meaning(schema, body, s).1;
      var (t, outcome) := Meaning(schema, Block(body), s);
      && (ended == Done ==> t.rows == Meaning(schema, body, s).0.rows && outcome == Done)
      && (ended == RollbackAsked ==> t.rows == s.rows && outcome == Done)
      && (ended == Raised ==> t.rows == s.rows && outcome == Raised)
      && t.counters == Meaning(schema, body, s).0.counters
  {
  }

  // ------------------------------------------------------- what the tables promise

  /** No two live rows of a table agree in a unique group. */
  ghost predicate NoTwins(schema: Schema, rows: Rows) {
    forall j, k :: j in rows && k in rows && j.table == k.table && j.id != k.id ==>
      !Twins(schema, j.table, rows[j], rows[k])
  }

  /** Every reference that is not NULL names a live row. */
  ghost predicate NoOrphans(schema: Schema, rows: Rows) {
    forall k :: k in rows ==> !HasOrphan(schema, rows, k.table, rows[k])
  }

  lemma ConsistentIff(schema: Schema, rows: Rows)
    ensures Consistent(schema, rows) <==>
      NoTwins(schema, rows) && NoOrphans(schema, rows) && forall k :: k in rows ==> k.id != 0
  {
    forall k | k in rows ensures RowOk(schema, rows, k) <==>
      k.id != 0 && !HasTwin(schema, rows, k.table, Some(k.id), rows[k]) && !HasOrphan(schema, rows, k.table, rows[k])
    {
      UniqueOkIff(schema, rows, k.table, Some(k.id), rows[k]);
      ReferencesOkIff(schema, rows, k.table, rows[k]);
    }
    NoTwinsIff(schema, rows);
  }

  lemma NoTwinsIff(schema: Schema, rows: Rows)
    ensures NoTwins(schema, rows) <==> forall k :: k in rows ==> !HasTwin(schema, rows, k.table, Some(k.id), rows[k])
  {
    forall j, k | j in rows && k in rows && j.table == k.table && j.id != k.id
      && Twins(schema, j.table, rows[j], rows[k])
      ensures HasTwin(schema, rows, k.table, Some(k.id), rows[k])
    {
      assert Key(k.table, j.id) == j;
    }
  }

  /** A handler that catches exceptions only around blocks, and ends without one,
      leaves the tables with no duplicate and no dangling reference. */
  lemma PromisesKept(schema: Schema, p: Prog, s: State)
    requires Fenced(p) && NoTwins(schema, s.rows) && NoOrphans(schema, s.rows)
    requires forall k :: k in s.rows ==> k.id != 0
    ensures var (t, outcome) := Meaning(schema, p, s);
      outcome == Done ==> NoTwins(schema, t.rows) && NoOrphans(schema, t.rows)
  {
    ConsistentIff(schema, s.rows);
    ConsistencyKept(schema, p, s);
    ConsistentIff(schema, Meaning(schema, p, s).0.rows);
  }

  /** Swallowing the exception of a refused update breaks one of the two, if the
      tables kept them so far. */
  lemma SwallowedUpdateShows(schema: Schema, table: string, id: int, changes: Row, s: State)
    requires Meaning(schema, Update(table, id, changes), s).1 == Raised
    requires forall k :: k in s.rows ==> k.id != 0
    ensures var after := Meaning(schema, Try(Update(table, id, changes), Skip), s).0.rows;
      !NoTwins(schema, after) || !NoOrphans(schema, after)
  {
    SwallowedUpdateBreaks(schema, table, id, changes, s);
    var after := Meaning(schema, Try(Update(table, id, changes), Skip), s).0.rows;
    ConsistentIff(schema, after);
    assert Meaning(schema, Update(table, id, changes), s).0.rows.Keys == s.rows.Keys;
  }
}
