/** The nested-loop joins of the memory backend (`_rows_for` of
    fastapi_modular/infrastructure/database/memory.py) against the FROM clause
    that `_compile` of fastapi_modular/infrastructure/database/sql.py builds,
    where `A RIGHT JOIN B` is written as `B LEFT JOIN A`. */
module Joins {
  import opened Wrappers
  import C = Conditions

  type Record = int

  /** A joined row: a record, or nothing, per alias. */
  type Row = map<string, Option<Record>>

  datatype Kind = INNER | LEFT | RIGHT | OUTER

  datatype Join = Join(alias: string, kind: Kind, on: Row -> bool, table: seq<Record>)

  predicate KeepsLeft(k: Kind) { k == LEFT || k == OUTER }

  predicate KeepsRight(k: Kind) { k == RIGHT || k == OUTER }

  // ----------------------------------------------------- pieces of a join

  /** The matches of one row, in table order. */
  function Matched(j: Join, row: Row, others: seq<Record>): seq<Row> {
    if others == [] then []
    else
      var r := row[j.alias := Some(others[0])];
      (if j.on(r) then [r] else []) + Matched(j, row, others[1..])
  }

  /** The rows of the left loop; with `keep`, an unmatched row stays, padded. */
  function LeftLoop(j: Join, keep: bool, rows: seq<Row>): seq<Row> {
    if rows == [] then []
    else
      var m := Matched(j, rows[0], j.table);
      (if m == [] && keep then [rows[0][j.alias := None]] else m) + LeftLoop(j, keep, rows[1..])
  }

  predicate HasPartner(j: Join, rows: seq<Row>, record: Record) {
    exists row :: row in rows && j.on(row[j.alias := Some(record)])
  }

  function EmptyRow(aliases: seq<string>): Row {
    map a | a in aliases :: None
  }

  /** The records on the right that no row matches, padded on the left. */
  function RightOnly(j: Join, aliases: seq<string>, rows: seq<Row>, others: seq<Record>): seq<Row> {
    if others == [] then []
    else (if HasPartner(j, rows, others[0]) then [] else [EmptyRow(aliases)[j.alias := Some(others[0])]])
         + RightOnly(j, aliases, rows, others[1..])
  }

  // -------------------------------------------------------- the memory side

  function MemoryJoin(j: Join, aliases: seq<string>, rows: seq<Row>): seq<Row> {
    LeftLoop(j, KeepsLeft(j.kind), rows) + if KeepsRight(j.kind) then RightOnly(j, aliases, rows, j.table) else []
  }

  lemma {:induction false} MatchedAppend(j: Join, row: Row, others: seq<Record>, x: Record)
    ensures var r := row[j.alias := Some(x)];
      Matched(j, row, others + [x]) == Matched(j, row, others) + if j.on(r) then [r] else []
  {
    if others != [] {
      assert (others + [x])[1..] == others[1..] + [x];
      MatchedAppend(j, row, others[1..], x);
    }
  }

  lemma {:induction false} LeftLoopAppend(j: Join, keep: bool, rows: seq<Row>, row: Row)
    ensures var m := Matched(j, row, j.table);
      LeftLoop(j, keep, rows + [row]) == LeftLoop(j, keep, rows) + if m == [] && keep then [row[j.alias := None]] else m
  {
    if rows != [] {
      assert (rows + [row])[1..] == rows[1..] + [row];
      LeftLoopAppend(j, keep, rows[1..], row);
    }
  }

  lemma PartnerAppend(j: Join, rows: seq<Row>, row: Row, record: Record)
    ensures HasPartner(j, rows + [row], record) <==> HasPartner(j, rows, record) || j.on(row[j.alias := Some(record)])
  {
    assert forall r :: r in rows + [row] <==> r in rows || r == row;
    assert row in rows + [row];
    if HasPartner(j, rows, record) {
      var r :| r in rows && j.on(r[j.alias := Some(record)]);
      assert r in rows + [row];
    }
  }

  /** `[(i, obj) for i, obj in enumerate(others) if evaluate(...)]` */
  method FindMatches(j: Join, row: Row) returns (matched: seq<Row>, hits: set<nat>)
    ensures matched == Matched(j, row, j.table)
    ensures hits == set i | 0 <= i < |j.table| && j.on(row[j.alias := Some(j.table[i])])
  {
    matched, hits := [], {};
    for i := 0 to |j.table|
      invariant matched == Matched(j, row, j.table[..i])
      invariant hits == set k | 0 <= k < i && j.on(row[j.alias := Some(j.table[k])])
    {
      assert j.table[..i + 1] == j.table[..i] + [j.table[i]];
      MatchedAppend(j, row, j.table[..i], j.table[i]);
      var r := row[j.alias := Some(j.table[i])];
      if j.on(r) {
        matched := matched + [r];
        hits := hits + {i};
      }
    }
    assert j.table[..|j.table|] == j.table;
  }

  /** The body of the loop over `spec.joins`. */
  method JoinRows(j: Join, aliases: seq<string>, rows: seq<Row>) returns (merged: seq<Row>)
    ensures merged == MemoryJoin(j, aliases, rows)
  {
    merged := [];
    var wasMatched: set<nat> := {};
    for i := 0 to |rows|
      invariant merged == LeftLoop(j, KeepsLeft(j.kind), rows[..i])
      invariant forall k :: 0 <= k < |j.table| ==> (k in wasMatched <==> HasPartner(j, rows[..i], j.table[k]))
    {
      var row := rows[i];
      assert rows[..i + 1] == rows[..i] + [row];
      LeftLoopAppend(j, KeepsLeft(j.kind), rows[..i], row);
      var matched, hits := FindMatches(j, row);
      if matched != [] {
        merged := merged + matched;
      } else if KeepsLeft(j.kind) {
        merged := merged + [row[j.alias := None]];
      }
      wasMatched := wasMatched + hits;
      forall k | 0 <= k < |j.table|
        ensures k in wasMatched <==> HasPartner(j, rows[..i + 1], j.table[k])
      {
        PartnerAppend(j, rows[..i], row, j.table[k]);
      }
    }
    assert rows[..|rows|] == rows;
    if KeepsRight(j.kind) {
      var extra := AddUnmatched(j, aliases, rows, wasMatched);
      merged := merged + extra;
    }
  }

  method AddUnmatched(j: Join, aliases: seq<string>, ghost rows: seq<Row>, wasMatched: set<nat>)
    returns (extra: seq<Row>)
    requires forall k :: 0 <= k < |j.table| ==> (k in wasMatched <==> HasPartner(j, rows, j.table[k]))
    ensures extra == RightOnly(j, aliases, rows, j.table)
  {
    extra := [];
    var i := |j.table|;
    while i > 0
      invariant 0 <= i <= |j.table| && extra == RightOnly(j, aliases, rows, j.table[i..])
    {
      i := i - 1;
      assert j.table[i..][1..] == j.table[i + 1..];
      if i !in wasMatched {
        extra := [EmptyRow(aliases)[j.alias := Some(j.table[i])]] + extra;
      }
    }
    assert j.table[0..] == j.table;
  }

  /** All joins of a query, starting from the rows of the root table. */
  function MemoryRows(joins: seq<Join>, aliases: seq<string>, rows: seq<Row>): seq<Row>
    decreases |joins|
  {
    if joins == [] then rows
    else MemoryRows(joins[1..], aliases + [joins[0].alias], MemoryJoin(joins[0], aliases, rows))
  }

  method RowsFor(rootAlias: string, root: seq<Row>, joins: seq<Join>) returns (rows: seq<Row>)
    ensures rows == MemoryRows(joins, [rootAlias], root)
  {
    var aliases := [rootAlias];
    rows := root;
    for i := 0 to |joins|
      invariant MemoryRows(joins, [rootAlias], root) == MemoryRows(joins[i..], aliases, rows)
    {
      assert joins[i..][1..] == joins[i + 1..];
      rows := JoinRows(joins[i], aliases, rows);
      aliases := aliases + [joins[i].alias];
    }
  }

  // ------------------------------------------------------------ the SQL side

  /** The rows that one record matches. */
  function MatchedBy(j: Join, record: Record, rows: seq<Row>): seq<Row> {
    if rows == [] then []
    else
      var r := rows[0][j.alias := Some(record)];
      (if j.on(r) then [r] else []) + MatchedBy(j, record, rows[1..])
  }

  /** `other LEFT JOIN target`: the loop runs over the joined table. */
  function SwappedLeft(j: Join, aliases: seq<string>, rows: seq<Row>, others: seq<Record>): seq<Row> {
    if others == [] then []
    else
      var m := MatchedBy(j, others[0], rows);
      (if m == [] then [EmptyRow(aliases)[j.alias := Some(others[0])]] else m)
        + SwappedLeft(j, aliases, rows, others[1..])
  }

  /** A right join is compiled to the swapped left join; the others are the
      standard ones, a full join adding the unmatched right records. */
  function SqlJoin(j: Join, aliases: seq<string>, rows: seq<Row>): seq<Row> {
    match j.kind
    case INNER => LeftLoop(j, false, rows)
    case LEFT => LeftLoop(j, true, rows)
    case RIGHT => SwappedLeft(j, aliases, rows, j.table)
    case OUTER => LeftLoop(j, true, rows) + RightOnly(j, aliases, rows, j.table)
  }

  function SqlRows(joins: seq<Join>, aliases: seq<string>, rows: seq<Row>): seq<Row>
    decreases |joins|
  {
    if joins == [] then rows
    else SqlRows(joins[1..], aliases + [joins[0].alias], SqlJoin(joins[0], aliases, rows))
  }

  // ------------------------------------------------------------ main results

  /** The inner part of the swapped loop. */
  function InnerSwapped(j: Join, rows: seq<Row>, others: seq<Record>): seq<Row> {
    if others == [] then [] else MatchedBy(j, others[0], rows) + InnerSwapped(j, rows, others[1..])
  }

  lemma {:induction false} SwapOneRow(j: Join, row: Row, rows: seq<Row>, others: seq<Record>)
    ensures multiset(InnerSwapped(j, [row] + rows, others))
      == multiset(Matched(j, row, others)) + multiset(InnerSwapped(j, rows, others))
  {
    if others != [] {
      SwapOneRow(j, row, rows, others[1..]);
      assert ([row] + rows)[1..] == rows;
    }
  }

  /** Exchanging the two loops of an inner join keeps the rows. */
  lemma {:induction false} LoopsExchange(j: Join, rows: seq<Row>)
    ensures multiset(LeftLoop(j, false, rows)) == multiset(InnerSwapped(j, rows, j.table))
  {
    if rows == [] {
      NothingMatches(j, j.table);
    } else {
      assert rows == [rows[0]] + rows[1..];
      LoopsExchange(j, rows[1..]);
      SwapOneRow(j, rows[0], rows[1..], j.table);
    }
  }

  lemma {:induction false} NothingMatches(j: Join, others: seq<Record>)
    ensures InnerSwapped(j, [], others) == []
  {
    if others != [] { NothingMatches(j, others[1..]); }
  }

  lemma {:induction false} PartnerMeansMatch(j: Join, record: Record, rows: seq<Row>)
    ensures MatchedBy(j, record, rows) == [] <==> !HasPartner(j, rows, record)
  {
    if rows != [] {
      PartnerMeansMatch(j, record, rows[1..]);
      assert forall row :: row in rows <==> row == rows[0] || row in rows[1..];
      if j.on(rows[0][j.alias := Some(record)]) {
        assert rows[0] in rows;
      } else {
        assert HasPartner(j, rows, record) <==> HasPartner(j, rows[1..], record);
      }
    }
  }

  lemma {:induction false} SwappedLeftSplits(j: Join, aliases: seq<string>, rows: seq<Row>, others: seq<Record>)
    ensures multiset(SwappedLeft(j, aliases, rows, others))
      == multiset(InnerSwapped(j, rows, others)) + multiset(RightOnly(j, aliases, rows, others))
  {
    if others != [] {
      SwappedLeftSplits(j, aliases, rows, others[1..]);
      PartnerMeansMatch(j, others[0], rows);
    }
  }

  /** The right join of the memory loops and the swapped left join of the SQL
      compiler hold the same rows, each as often. */
  lemma RightJoinIsSwappedLeft(j: Join, aliases: seq<string>, rows: seq<Row>)
    requires j.kind == RIGHT
    ensures multiset(MemoryJoin(j, aliases, rows)) == multiset(SwappedLeft(j, aliases, rows, j.table))
  {
    LoopsExchange(j, rows);
    SwappedLeftSplits(j, aliases, rows, j.table);
  }

  /** The unmatched left rows, padded. */
  function LeftOnly(j: Join, rows: seq<Row>): seq<Row> {
    if rows == [] then []
    else (if Matched(j, rows[0], j.table) == [] then [rows[0][j.alias := None]] else []) + LeftOnly(j, rows[1..])
  }

  lemma {:induction false} LeftLoopSplits(j: Join, rows: seq<Row>)
    ensures multiset(LeftLoop(j, true, rows)) == multiset(LeftLoop(j, false, rows)) + multiset(LeftOnly(j, rows))
  {
    if rows != [] { LeftLoopSplits(j, rows[1..]); }
  }

  /** A full join is the inner join, the unmatched left rows and the unmatched
      right records, each part counted once; and those unmatched on the right
      are exactly the ones a right join adds. */
  lemma FullJoinIsThreeParts(j: Join, aliases: seq<string>, rows: seq<Row>)
    requires j.kind == OUTER
    ensures multiset(MemoryJoin(j, aliases, rows)) ==
      multiset(LeftLoop(j, false, rows)) + multiset(LeftOnly(j, rows)) + multiset(RightOnly(j, aliases, rows, j.table))
    ensures multiset(MemoryJoin(j.(kind := RIGHT), aliases, rows)) ==
      multiset(LeftLoop(j, false, rows)) + multiset(RightOnly(j, aliases, rows, j.table))
  {
    LeftLoopSplits(j, rows);
    KindIsIrrelevant(j, RIGHT, aliases, rows, j.table);
  }

  lemma {:induction false} KindIsIrrelevant(j: Join, kind: Kind, aliases: seq<string>, rows: seq<Row>,
      others: seq<Record>)
    ensures LeftLoop(j.(kind := kind), false, rows) == LeftLoop(j, false, rows)
    ensures RightOnly(j.(kind := kind), aliases, rows, others) == RightOnly(j, aliases, rows, others)
    decreases |rows| + |others|
  {
    if rows != [] {
      KindIsIrrelevantToMatch(j, kind, rows[0], j.table);
      KindIsIrrelevant(j, kind, aliases, rows[1..], []);
    }
    if others != [] {
      KindIsIrrelevant(j, kind, aliases, rows, others[1..]);
    }
  }

  lemma {:induction false} KindIsIrrelevantToMatch(j: Join, kind: Kind, row: Row, others: seq<Record>)
    ensures Matched(j.(kind := kind), row, others) == Matched(j, row, others)
  {
    if others != [] { KindIsIrrelevantToMatch(j, kind, row, others[1..]); }
  }

  lemma {:induction false} LeftLoopConcat(j: Join, keep: bool, a: seq<Row>, b: seq<Row>)
    ensures LeftLoop(j, keep, a + b) == LeftLoop(j, keep, a) + LeftLoop(j, keep, b)
  {
    if a == [] {
      assert a + b == b;
    } else {
      assert (a + b)[1..] == a[1..] + b;
      LeftLoopConcat(j, keep, a[1..], b);
    }
  }

  function Without(rows: seq<Row>, i: nat): (less: seq<Row>)
    requires i < |rows|
    ensures |less| == |rows| - 1
  {
    rows[..i] + rows[i + 1..]
  }

  lemma LeftLoopTakeOut(j: Join, keep: bool, rows: seq<Row>, i: nat)
    requires i < |rows|
    ensures multiset(LeftLoop(j, keep, rows)) ==
      multiset(LeftLoop(j, keep, [rows[i]])) + multiset(LeftLoop(j, keep, Without(rows, i)))
  {
    assert rows == rows[..i] + ([rows[i]] + rows[i + 1..]);
    LeftLoopConcat(j, keep, rows[..i], [rows[i]] + rows[i + 1..]);
    LeftLoopConcat(j, keep, [rows[i]], rows[i + 1..]);
    LeftLoopConcat(j, keep, rows[..i], rows[i + 1..]);
  }

  lemma TakenOut(rows: seq<Row>, i: nat)
    requires i < |rows|
    ensures multiset(Without(rows, i)) == multiset(rows) - multiset{rows[i]}
  {
    assert rows == rows[..i] + [rows[i]] + rows[i + 1..];
  }

  lemma FindEqual(a: seq<Row>, b: seq<Row>) returns (i: nat)
    requires a != [] && multiset(a) == multiset(b)
    ensures i < |b| && b[i] == a[0]
    ensures multiset(Without(a, 0)) == multiset(Without(b, i))
  {
    assert a[0] in multiset(b);
    i :| i < |b| && b[i] == a[0];
    TakenOut(a, 0);
    TakenOut(b, i);
  }

  /** A join depends on its input only up to order. */
  lemma {:induction false} LeftLoopPermutes(j: Join, keep: bool, a: seq<Row>, b: seq<Row>)
    requires multiset(a) == multiset(b)
    ensures multiset(LeftLoop(j, keep, a)) == multiset(LeftLoop(j, keep, b))
    decreases |a|
  {
    if a == [] {
      assert |multiset(b)| == 0;
    } else {
      var i := FindEqual(a, b);
      LeftLoopPermutes(j, keep, Without(a, 0), Without(b, i));
      LeftLoopTakeOut(j, keep, a, 0);
      LeftLoopTakeOut(j, keep, b, i);
    }
  }

  lemma {:induction false} RightOnlyPermutes(j: Join, aliases: seq<string>, a: seq<Row>, b: seq<Row>,
      others: seq<Record>)
    requires multiset(a) == multiset(b)
    ensures RightOnly(j, aliases, a, others) == RightOnly(j, aliases, b, others)
  {
    if others != [] {
      RightOnlyPermutes(j, aliases, a, b, others[1..]);
      assert forall row :: row in a <==> row in multiset(a);
      assert forall row :: row in b <==> row in multiset(b);
    }
  }

  lemma SameStep(j: Join, aliases: seq<string>, a: seq<Row>, b: seq<Row>)
    requires multiset(a) == multiset(b)
    ensures multiset(MemoryJoin(j, aliases, a)) == multiset(SqlJoin(j, aliases, b))
  {
    LeftLoopPermutes(j, KeepsLeft(j.kind), a, b);
    RightOnlyPermutes(j, aliases, a, b, j.table);
    if j.kind == RIGHT {
      RightJoinIsSwappedLeft(j, aliases, b);
    }
  }

  /** Any chain of joins of any kinds gives the same rows, each as often, in the
      memory backend and in the compiled SQL. */
  lemma {:induction false} MemoryJoinsLikeSql(joins: seq<Join>, aliases: seq<string>, a: seq<Row>, b: seq<Row>)
    requires multiset(a) == multiset(b)
    ensures multiset(MemoryRows(joins, aliases, a)) == multiset(SqlRows(joins, aliases, b))
    decreases |joins|
  {
    if joins != [] {
      SameStep(joins[0], aliases, a, b);
      MemoryJoinsLikeSql(joins[1..], aliases + [joins[0].alias],
        MemoryJoin(joins[0], aliases, a), SqlJoin(joins[0], aliases, b));
    }
  }

  /** The rows that come from r: they are r once the joined alias is dropped. */
  function ComingFrom(out: seq<Row>, alias: string, r: Row): seq<Row> {
    if out == [] then []
    else (if out[0] - {alias} == r then [out[0]] else []) + ComingFrom(out[1..], alias, r)
  }

  /** What one row becomes: its matches in table order, or, if it is kept without
      any, the row padded. */
  function Becomes(j: Join, keep: bool, r: Row): seq<Row> {
    var m := Matched(j, r, j.table);
    if m == [] && keep then [r[j.alias := None]] else m
  }

  function Repeat(n: nat, s: seq<Row>): seq<Row> {
    if n == 0 then [] else s + Repeat(n - 1, s)
  }

  lemma {:induction false} ComingFromConcat(a: seq<Row>, b: seq<Row>, alias: string, r: Row)
    ensures ComingFrom(a + b, alias, r) == ComingFrom(a, alias, r) + ComingFrom(b, alias, r)
  {
    if a == [] {
      assert a + b == b;
    } else {
      assert (a + b)[0] == a[0] && (a + b)[1..] == a[1..] + b;
      ComingFromConcat(a[1..], b, alias, r);
    }
  }

  lemma {:induction false} MatchesComeFrom(j: Join, row: Row, others: seq<Record>, r: Row)
    requires j.alias !in row
    ensures ComingFrom(Matched(j, row, others), j.alias, r) == if row == r then Matched(j, row, others) else []
  {
    if others != [] {
      MatchesComeFrom(j, row, others[1..], r);
      var joined := row[j.alias := Some(others[0])];
      assert joined - {j.alias} == row;
      assert [joined][1..] == [];
      ComingFromConcat(if j.on(joined) then [joined] else [], Matched(j, row, others[1..]), j.alias, r);
    }
  }

  lemma BecomesComesFrom(j: Join, keep: bool, row: Row, r: Row)
    requires j.alias !in row
    ensures ComingFrom(Becomes(j, keep, row), j.alias, r) == if row == r then Becomes(j, keep, row) else []
  {
    MatchesComeFrom(j, row, j.table, r);
    var padded := row[j.alias := None];
    assert padded - {j.alias} == row;
    assert [padded][1..] == [];
  }

  /** The loop over the left rows loses none and repeats none wrongly: as often as
      r occurs on the left, the result holds what r becomes and nothing else
      comes from r. With `keep` it is a left join, without it an inner one. */
  lemma {:induction false} LeftJoinRepeats(j: Join, keep: bool, rows: seq<Row>, r: Row)
    requires forall i :: 0 <= i < |rows| ==> j.alias !in rows[i]
    ensures ComingFrom(LeftLoop(j, keep, rows), j.alias, r) == Repeat(multiset(rows)[r], Becomes(j, keep, r))
  {
    if rows != [] {
      LeftJoinRepeats(j, keep, rows[1..], r);
      BecomesComesFrom(j, keep, rows[0], r);
      ComingFromConcat(Becomes(j, keep, rows[0]), LeftLoop(j, keep, rows[1..]), j.alias, r);
      CountOf(rows, r);
    }
  }

  /** The row with some record of the others. */
  ghost predicate JoinsSome(j: Join, row: Row, others: seq<Record>, r: Row) {
    j.alias in r && r[j.alias].Some? && r[j.alias].value in others && r == row[j.alias := r[j.alias]]
  }

  lemma OtherRecord(row: Row, alias: string, x: Record, y: Record)
    ensures row[alias := Some(x)] == row[alias := Some(y)] <==> x == y
  {
    assert row[alias := Some(x)][alias] == Some(x) && row[alias := Some(y)][alias] == Some(y);
  }

  /** The matches of a row: with each record of the table on which the condition
      holds, as often as the table holds it, and with nothing else. */
  lemma {:induction false} MatchedHolds(j: Join, row: Row, others: seq<Record>, x: Record)
    ensures multiset(Matched(j, row, others))[row[j.alias := Some(x)]] ==
      if j.on(row[j.alias := Some(x)]) then multiset(others)[x] else 0
  {
    if others != [] {
      MatchedHolds(j, row, others[1..], x);
      OtherRecord(row, j.alias, others[0], x);
      CountOf(others, x);
      if j.on(row[j.alias := Some(others[0])]) {
        var all := Matched(j, row, others);
        assert all[1..] == Matched(j, row, others[1..]);
        CountOf(all, row[j.alias := Some(x)]);
      }
    }
  }

  lemma CountOf<T>(s: seq<T>, x: T)
    requires s != []
    ensures multiset(s)[x] == (if s[0] == x then 1 else 0) + multiset(s[1..])[x]
  {
    assert s == [s[0]] + s[1..];
  }

  lemma {:induction false} MatchedAreJoined(j: Join, row: Row, others: seq<Record>, k: nat)
    requires k < |Matched(j, row, others)|
    ensures JoinsSome(j, row, others, Matched(j, row, others)[k])
  {
    var first := row[j.alias := Some(others[0])];
    if !j.on(first) {
      MatchedAreJoined(j, row, others[1..], k);
    } else if k > 0 {
      MatchedAreJoined(j, row, others[1..], k - 1);
    }
  }

  lemma {:induction false} RepeatLength(n: nat, s: seq<Row>)
    ensures |Repeat(n, s)| == n * |s|
  {
    if n > 0 { RepeatLength(n - 1, s); }
  }

  /** So r is repeated max(1, matches) times. */
  lemma LeftJoinCounts(j: Join, rows: seq<Row>, r: Row)
    requires forall i :: 0 <= i < |rows| ==> j.alias !in rows[i]
    ensures var matches := |Matched(j, r, j.table)|;
      |ComingFrom(LeftLoop(j, true, rows), j.alias, r)| == multiset(rows)[r] * (if matches == 0 then 1 else matches)
  {
    LeftJoinRepeats(j, true, rows, r);
    RepeatLength(multiset(rows)[r], Becomes(j, true, r));
  }

  // ------------------------------------------------- ON conditions

  /** A join as the builder describes it: the ON condition is a tree that each
      backend gives its own meaning. */
  datatype OnJoin = OnJoin(alias: string, kind: Kind, on: C.Condition, table: seq<Record>)

  /** How a condition reads the columns of a joined row. */
  type View = Row -> C.Row

  function InMemory(j: OnJoin, view: View, like: C.Like): Join {
    Join(j.alias, j.kind, row => C.Evaluate(j.on, view(row), like) == C.Known(true), j.table)
  }

  function InSql(j: OnJoin, view: View, like: C.Like): Join {
    Join(j.alias, j.kind, row => C.Sql(j.on, view(row), like) == C.True, j.table)
  }

  function AllInMemory(joins: seq<OnJoin>, view: View, like: C.Like): seq<Join> {
    if joins == [] then [] else [InMemory(joins[0], view, like)] + AllInMemory(joins[1..], view, like)
  }

  function AllInSql(joins: seq<OnJoin>, view: View, like: C.Like): seq<Join> {
    if joins == [] then [] else [InSql(joins[0], view, like)] + AllInSql(joins[1..], view, like)
  }

  /** Two joins give the same verdict when this row meets one of these records. */
  ghost predicate SameVerdicts(j: Join, k: Join, row: Row, others: seq<Record>) {
    forall i :: 0 <= i < |others| ==>
      (j.on(row[j.alias := Some(others[i])]) <==> k.on(row[j.alias := Some(others[i])]))
  }

  ghost predicate Alike(j: Join, k: Join, rows: seq<Row>, others: seq<Record>) {
    && j.alias == k.alias && j.kind == k.kind && j.table == k.table
    && forall n :: 0 <= n < |rows| ==> SameVerdicts(j, k, rows[n], others)
  }

  lemma {:induction false} AlikeMatched(j: Join, k: Join, row: Row, others: seq<Record>)
    requires j.alias == k.alias && SameVerdicts(j, k, row, others)
    ensures Matched(j, row, others) == Matched(k, row, others)
  {
    if others != [] {
      assert j.on(row[j.alias := Some(others[0])]) <==> k.on(row[j.alias := Some(others[0])]);
      AlikeMatched(j, k, row, others[1..]);
    }
  }

  lemma {:induction false} AlikeLeftLoop(j: Join, k: Join, keep: bool, rows: seq<Row>)
    requires Alike(j, k, rows, j.table)
    ensures LeftLoop(j, keep, rows) == LeftLoop(k, keep, rows)
  {
    if rows != [] {
      AlikeMatched(j, k, rows[0], j.table);
      AlikeLeftLoop(j, k, keep, rows[1..]);
    }
  }

  lemma {:induction false} AlikeRightOnly(j: Join, k: Join, aliases: seq<string>, rows: seq<Row>, others: seq<Record>)
    requires Alike(j, k, rows, others)
    ensures RightOnly(j, aliases, rows, others) == RightOnly(k, aliases, rows, others)
  {
    if others != [] {
      forall n | 0 <= n < |rows|
        ensures SameVerdicts(j, k, rows[n], others[1..]) && SameVerdicts(j, k, rows[n], [others[0]])
      {
        assert SameVerdicts(j, k, rows[n], others);
      }
      AlikeRightOnly(j, k, aliases, rows, others[1..]);
      PartnerMeansMatch(j, others[0], rows);
      PartnerMeansMatch(k, others[0], rows);
    }
  }

  lemma AlikeStep(j: Join, k: Join, aliases: seq<string>, a: seq<Row>, b: seq<Row>)
    requires Alike(j, k, a, j.table) && multiset(a) == multiset(b)
    ensures multiset(MemoryJoin(j, aliases, a)) == multiset(SqlJoin(k, aliases, b))
  {
    AlikeLeftLoop(j, k, KeepsLeft(j.kind), a);
    AlikeRightOnly(j, k, aliases, a, j.table);
    SameStep(k, aliases, a, b);
  }

  ghost predicate PortableAt(j: OnJoin, view: View, row: Row, others: seq<Record>) {
    forall i :: 0 <= i < |others| ==> C.Guarded(j.on, view(row[j.alias := Some(others[i])]))
  }

  /** On every row that the joins reach, each ON condition means the same to both
      backends: no NOT stands over a NULL and comparisons of columns are safe. */
  ghost predicate Portable(joins: seq<OnJoin>, view: View, like: C.Like, aliases: seq<string>, rows: seq<Row>)
    decreases |joins|
  {
    joins != [] ==>
      var j := joins[0];
      && C.Plain(j.on)
      && (forall n :: 0 <= n < |rows| ==> PortableAt(j, view, rows[n], j.table))
      && Portable(joins[1..], view, like, aliases + [j.alias], MemoryJoin(InMemory(j, view, like), aliases, rows))
  }

  lemma PortableIsAlike(joins: seq<OnJoin>, view: View, like: C.Like, aliases: seq<string>, rows: seq<Row>)
    requires joins != [] && Portable(joins, view, like, aliases, rows)
    ensures Alike(InMemory(joins[0], view, like), InSql(joins[0], view, like), rows, joins[0].table)
  {
    var j := joins[0];
    var a, b := InMemory(j, view, like), InSql(j, view, like);
    forall n | 0 <= n < |rows| ensures SameVerdicts(a, b, rows[n], j.table) {
      forall i | 0 <= i < |j.table|
        ensures a.on(rows[n][j.alias := Some(j.table[i])]) <==> b.on(rows[n][j.alias := Some(j.table[i])])
      {
        assert PortableAt(j, view, rows[n], j.table);
        C.GuardedSelectsAlike(j.on, view(rows[n][j.alias := Some(j.table[i])]), like);
      }
    }
  }

  /** End to end: any chain of joins of any kinds, the two-valued evaluator on
      one side and three-valued SQL on the other, gives the same rows, each as
      often, if the conditions are portable on the rows they are evaluated on. */
  lemma {:induction false} JoinsOnConditionsAgree(joins: seq<OnJoin>, view: View, like: C.Like,
      aliases: seq<string>, a: seq<Row>, b: seq<Row>)
    requires Portable(joins, view, like, aliases, a) && multiset(a) == multiset(b)
    ensures multiset(MemoryRows(AllInMemory(joins, view, like), aliases, a))
      == multiset(SqlRows(AllInSql(joins, view, like), aliases, b))
    decreases |joins|
  {
    if joins != [] {
      var j, k := InMemory(joins[0], view, like), InSql(joins[0], view, like);
      PortableIsAlike(joins, view, like, aliases, a);
      AlikeStep(j, k, aliases, a, b);
      assert AllInMemory(joins, view, like)[1..] == AllInMemory(joins[1..], view, like);
      assert AllInSql(joins, view, like)[1..] == AllInSql(joins[1..], view, like);
      JoinsOnConditionsAgree(joins[1..], view, like, aliases + [j.alias], MemoryJoin(j, aliases, a),
        SqlJoin(k, aliases, b));
    }
  }

  /** A row of the right part holds a record that no row of the left matches, and
      nothing at every earlier alias. */
  lemma {:induction false} RightRowsAreEmptyLeft(j: Join, aliases: seq<string>, rows: seq<Row>, others: seq<Record>,
      k: nat)
    requires j.alias !in aliases && k < |RightOnly(j, aliases, rows, others)|
    ensures var row := RightOnly(j, aliases, rows, others)[k];
      && (forall a :: a in row <==> a in aliases || a == j.alias)
      && (forall a :: a in aliases ==> row[a] == None)
      && row[j.alias].Some? && row[j.alias].value in others
      && forall left :: left in rows ==> !j.on(left[j.alias := row[j.alias]])
  {
    if HasPartner(j, rows, others[0]) {
      RightRowsAreEmptyLeft(j, aliases, rows, others[1..], k);
    } else if k > 0 {
      RightRowsAreEmptyLeft(j, aliases, rows, others[1..], k - 1);
    }
  }
}
