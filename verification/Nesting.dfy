/** Building a tree of rows from several tables: `_nest`, `_fetch_in` and
    `_keys_in_order` of fastapi_modular/infrastructure/database/query.py, for a
    chain whose root table is innermost and whose outer keys are unique. */
module Nesting {
  import opened Wrappers
  import Includes
  import opened Text

  type Value = Option<int>

  /** A row of one level: the column the level inside it refers to, the column
      that refers to the level outside it, and everything else. */
  datatype Rec = Rec(key: Value, parent: Value, data: int)

  type Table = seq<Rec>

  datatype Node = Node(rec: Rec, inside: seq<Node>)

  ghost predicate UniqueKeys(table: Table) {
    forall i, j :: 0 <= i < j < |table| ==> table[i].key.None? || table[i].key != table[j].key
  }

  ghost predicate AllUnique(tables: seq<Table>) {
    forall i :: 0 <= i < |tables| ==> UniqueKeys(tables[i])
  }

  /** The row of a table with this key. */
  function Find(table: Table, key: int): Option<Rec> {
    if table == [] then None
    else if table[0].key == Some(key) then Some(table[0])
    else Find(table[1..], key)
  }

  function ParentOf(table: Table, rec: Rec): Option<Rec> {
    if rec.parent.None? then None else Find(table, rec.parent.value)
  }

  lemma {:induction false} FindWorks(table: Table, key: int)
    ensures Find(table, key).Some? ==> Find(table, key).value in table && Find(table, key).value.key == Some(key)
    ensures Find(table, key).None? ==> forall r :: r in table ==> r.key != Some(key)
  {
    if table != [] { FindWorks(table[1..], key); }
  }

  lemma {:induction false} FindUnique(table: Table, rec: Rec)
    requires UniqueKeys(table) && rec in table && rec.key.Some?
    ensures Find(table, rec.key.value) == Some(rec)
  {
    if table[0].key == rec.key {
      var i :| 0 <= i < |table| && table[i] == rec;
    } else {
      FindUnique(table[1..], rec);
    }
  }

  /** The parent is the row of the outer table whose key the row refers to. */
  lemma ParentIs(table: Table, rec: Rec, p: Rec)
    requires UniqueKeys(table)
    ensures ParentOf(table, rec) == Some(p) <==> p in table && rec.parent.Some? && p.key == rec.parent
    ensures ParentOf(table, rec) == None <==> rec.parent.None? || forall r :: r in table ==> r.key != rec.parent
  {
    if rec.parent.Some? {
      FindWorks(table, rec.parent.value);
      if p in table && p.key == rec.parent {
        FindUnique(table, p);
      }
    }
  }

  // ------------------------------------------------- what a level consists of

  function Last<T>(s: seq<T>): T
    requires s != []
  {
    s[|s| - 1]
  }

  function Front<T>(s: seq<T>): seq<T>
    requires s != []
  {
    s[..|s| - 1]
  }

  /** The non-null parent values in order of first appearance. */
  function FirstKeys(level: seq<Rec>): seq<int> {
    if level == [] then []
    else
      var before := FirstKeys(Front(level));
      var p := Last(level).parent;
      if p.None? || p.value in before then before else before + [p.value]
  }

  /** The parents of a level, in order of first appearance. */
  function Climb(table: Table, level: seq<Rec>): seq<Rec> {
    if level == [] then []
    else
      var before := Climb(table, Front(level));
      var p := ParentOf(table, Last(level));
      if p.None? || p.value in before then before else before + [p.value]
  }

  /** The rows with these keys, in the order of the keys. */
  function PickInOrder(table: Table, keys: seq<int>): seq<Rec> {
    if keys == [] then []
    else PickInOrder(table, Front(keys)) + match Find(table, Last(keys)) case None => [] case Some(r) => [r]
  }

  lemma {:induction false} PickIsClimb(table: Table, level: seq<Rec>)
    ensures PickInOrder(table, FirstKeys(level)) == Climb(table, level)
    ensures forall k: int :: k in FirstKeys(level) && Find(table, k).Some? ==>
      Find(table, k).value in Climb(table, level)
    ensures forall r :: r in Climb(table, level) ==> r.key.Some? && r.key.value in FirstKeys(level)
  {
    if level != [] {
      PickIsClimb(table, Front(level));
      var p := Last(level).parent;
      if p.Some? {
        FindWorks(table, p.value);
        assert Front(FirstKeys(Front(level)) + [p.value]) == FirstKeys(Front(level));
      }
    }
  }

  // ---------------------------------------------------------- the fetch loops

  method KeysInOrder(level: seq<Rec>) returns (keys: seq<int>)
    ensures keys == FirstKeys(level) && Distinct(keys)
  {
    keys := [];
    for i := 0 to |level|
      invariant keys == FirstKeys(level[..i]) && Distinct(keys)
    {
      assert Front(level[..i + 1]) == level[..i];
      var value := level[i].parent;
      if value.Some? && value.value !in keys {
        keys := keys + [value.value];
      }
    }
    assert level[..|level|] == level;
  }

  /** WHERE key IN keys, in storage order. */
  function SelectIn(table: Table, keys: seq<int>): seq<Rec> {
    if table == [] then []
    else (if table[0].key.Some? && table[0].key.value in keys then [table[0]] else []) + SelectIn(table[1..], keys)
  }

  lemma {:induction false} SelectInMember(table: Table, keys: seq<int>, r: Rec)
    ensures r in SelectIn(table, keys) <==> r in table && r.key.Some? && r.key.value in keys
  {
    if table != [] {
      SelectInMember(table[1..], keys, r);
      assert table == [table[0]] + table[1..];
    }
  }

  lemma {:induction false} SelectInUnique(table: Table, keys: seq<int>)
    requires UniqueKeys(table)
    ensures UniqueKeys(SelectIn(table, keys))
  {
    if table != [] {
      SelectInUnique(table[1..], keys);
      var rest := SelectIn(table[1..], keys);
      forall i | 0 <= i < |rest| ensures table[0].key.None? || table[0].key != rest[i].key {
        SelectInMember(table[1..], keys, rest[i]);
        var j :| 0 <= j < |table[1..]| && table[1..][j] == rest[i];
        assert table[j + 1] == rest[i];
      }
    }
  }

  /** The rows found so far are those of the keys asked for so far. */
  ghost predicate Fetched(table: Table, keys: seq<int>, found: seq<Rec>) {
    && UniqueKeys(found)
    && forall r :: r in found <==> r in table && r.key.Some? && r.key.value in keys
  }

  lemma ChunkStep(table: Table, done: seq<int>, chunk: seq<int>, found: seq<Rec>)
    requires UniqueKeys(table) && Distinct(done + chunk) && Fetched(table, done, found)
    ensures Fetched(table, done + chunk, found + SelectIn(table, chunk))
  {
    SelectInUnique(table, chunk);
    var part := SelectIn(table, chunk);
    forall r ensures r in part <==> r in table && r.key.Some? && r.key.value in chunk {
      SelectInMember(table, chunk, r);
    }
    forall i, j | 0 <= i < |found| && 0 <= j < |part| ensures found[i].key != part[j].key {
      assert found[i] in found && part[j] in part;
      var a :| 0 <= a < |done| && done[a] == found[i].key.value;
      var b :| 0 <= b < |chunk| && chunk[b] == part[j].key.value;
      assert (done + chunk)[a] != (done + chunk)[|done| + b];
    }
  }

  function InsertByText(key: int, s: seq<int>): seq<int> {
    if s == [] || !TextLess(Decimal(s[0]), Decimal(key)) then [key] + s
    else [s[0]] + InsertByText(key, s[1..])
  }

  lemma {:induction false} InsertByTextKeeps(key: int, s: seq<int>)
    requires Distinct(s) && key !in s
    ensures Distinct(InsertByText(key, s))
    ensures forall k :: k in InsertByText(key, s) <==> k == key || k in s
  {
    if s != [] && TextLess(Decimal(s[0]), Decimal(key)) {
      assert Distinct(s[1..]) by {
        forall i, j | 0 <= i < j < |s[1..]| ensures s[1..][i] != s[1..][j] {
          assert s[i + 1] != s[j + 1];
        }
      }
      InsertByTextKeeps(key, s[1..]);
      var r := InsertByText(key, s[1..]);
      forall k | 0 <= k < |r| ensures r[k] != s[0] {
        assert r[k] in r;
      }
      assert forall k :: k in s <==> k == s[0] || k in s[1..];
    }
  }

  /** `sorted(keys, key=str)` */
  method SortByText(keys: seq<int>) returns (sorted: seq<int>)
    requires Distinct(keys)
    ensures Distinct(sorted) && forall k :: k in sorted <==> k in keys
  {
    sorted := [];
    for i := 0 to |keys|
      invariant Distinct(sorted) && forall k :: k in sorted <==> k in keys[..i]
    {
      InsertByTextKeeps(keys[i], sorted);
      sorted := InsertByText(keys[i], sorted);
    }
  }

  lemma SameKeysFetched(table: Table, a: seq<int>, b: seq<int>, found: seq<Rec>)
    requires Fetched(table, a, found) && forall k :: k in a <==> k in b
    ensures Fetched(table, b, found)
  {
    forall r ensures r in found <==> r in table && r.key.Some? && r.key.value in b {
      if r.key.Some? {
        var k: int := r.key.value;
        assert k in a <==> k in b;
      }
    }
  }

  /** `_fetch_in`: one query per chunk of keys. */
  method FetchIn(table: Table, wanted: seq<int>) returns (found: seq<Rec>)
    requires UniqueKeys(table) && Distinct(wanted)
    ensures Fetched(table, wanted, found)
  {
    var keys := SortByText(wanted);
    found := [];
    var i := 0;
    while i < |keys|
      invariant 0 <= i <= |keys|
      invariant Fetched(table, keys[..i], found)
    {
      var next := if i + Includes.IN_CHUNK < |keys| then i + Includes.IN_CHUNK else |keys|;
      assert keys[..next] == keys[..i] + keys[i..next];
      ChunkStep(table, keys[..i], keys[i..next], found);
      found := found + SelectIn(table, keys[i..next]);
      i := next;
    }
    assert keys[..|keys|] == keys;
    SameKeysFetched(table, keys, wanted, found);
  }

  // ------------------------------------------------- ordering an outer level

  /** `position.get(key, 0)` */
  function PositionOf(position: map<int, nat>, rec: Rec): nat {
    if rec.key.Some? && rec.key.value in position then position[rec.key.value] else 0
  }

  /** Python's stable sort by position, as insertion. */
  function Insert(position: map<int, nat>, x: Rec, s: seq<Rec>): seq<Rec> {
    if s == [] || PositionOf(position, x) <= PositionOf(position, s[0]) then [x] + s
    else [s[0]] + Insert(position, x, s[1..])
  }

  function SortByPosition(position: map<int, nat>, s: seq<Rec>): seq<Rec> {
    if s == [] then [] else Insert(position, s[0], SortByPosition(position, s[1..]))
  }

  ghost predicate Increasing(position: map<int, nat>, s: seq<Rec>) {
    forall i, j :: 0 <= i < j < |s| ==> PositionOf(position, s[i]) < PositionOf(position, s[j])
  }

  lemma {:induction false} InsertSorts(position: map<int, nat>, x: Rec, s: seq<Rec>)
    requires Increasing(position, s)
    requires forall y :: y in s ==> PositionOf(position, y) != PositionOf(position, x)
    ensures Increasing(position, Insert(position, x, s))
    ensures forall y :: y in Insert(position, x, s) <==> y == x || y in s
  {
    if s != [] && PositionOf(position, x) > PositionOf(position, s[0]) {
      assert Increasing(position, s[1..]) by {
        forall i, j | 0 <= i < j < |s[1..]| ensures PositionOf(position, s[1..][i]) < PositionOf(position, s[1..][j]) {
          assert PositionOf(position, s[i + 1]) < PositionOf(position, s[j + 1]);
        }
      }
      InsertSorts(position, x, s[1..]);
      var r := Insert(position, x, s[1..]);
      forall k | 0 <= k < |r| ensures PositionOf(position, s[0]) < PositionOf(position, r[k]) {
        assert r[k] in r;
        if r[k] != x {
          var i :| 0 <= i < |s[1..]| && s[1..][i] == r[k];
          assert PositionOf(position, s[0]) < PositionOf(position, s[i + 1]);
        }
      }
      assert forall y :: y in s <==> y == s[0] || y in s[1..];
    }
  }

  ghost predicate Apart(position: map<int, nat>, s: seq<Rec>) {
    forall i, j :: 0 <= i < j < |s| ==> PositionOf(position, s[i]) != PositionOf(position, s[j])
  }

  lemma {:induction false} SortSorts(position: map<int, nat>, s: seq<Rec>)
    requires Apart(position, s)
    ensures Increasing(position, SortByPosition(position, s))
    ensures forall y :: y in SortByPosition(position, s) <==> y in s
  {
    if s != [] {
      forall i, j | 0 <= i < j < |s[1..]| ensures PositionOf(position, s[1..][i]) != PositionOf(position, s[1..][j]) {
        assert PositionOf(position, s[i + 1]) != PositionOf(position, s[j + 1]);
      }
      SortSorts(position, s[1..]);
      var sorted := SortByPosition(position, s[1..]);
      forall y | y in sorted ensures PositionOf(position, y) != PositionOf(position, s[0]) {
        var i :| 0 <= i < |s[1..]| && s[1..][i] == y;
        assert PositionOf(position, s[0]) != PositionOf(position, s[i + 1]);
      }
      InsertSorts(position, s[0], sorted);
      assert forall y :: y in s <==> y == s[0] || y in s[1..];
    }
  }

  lemma HasMember(s: seq<Rec>)
    ensures s == [] || exists y :: y in s
  {
    if s != [] {
      assert s[0] in s;
    }
  }

  /** A strictly increasing sequence is determined by its elements. */
  lemma {:induction false} IncreasingIsUnique(position: map<int, nat>, a: seq<Rec>, b: seq<Rec>)
    requires Increasing(position, a) && Increasing(position, b)
    requires forall y :: y in a <==> y in b
    ensures a == b
  {
    if a == [] {
      HasMember(b);
    } else {
      assert a[0] in b;
      assert b[0] in a;
      var i :| 0 <= i < |b| && b[i] == a[0];
      var j :| 0 <= j < |a| && a[j] == b[0];
      assert a[0] == b[0];
      forall y ensures y in a[1..] <==> y in b[1..] {
        assert y in a <==> y == a[0] || y in a[1..];
        assert y in b <==> y == b[0] || y in b[1..];
      }
      IncreasingIsUnique(position, a[1..], b[1..]);
    }
  }

  ghost predicate Positions(position: map<int, nat>, keys: seq<int>) {
    && (forall i :: 0 <= i < |keys| ==> keys[i] in position && position[keys[i]] == i)
    && forall k :: k in position ==> k in keys
  }

  lemma {:induction false} PickedMember(table: Table, keys: seq<int>, r: Rec)
    requires UniqueKeys(table)
    ensures r in PickInOrder(table, keys) <==> r in table && r.key.Some? && r.key.value in keys
  {
    if keys != [] {
      var k := Last(keys);
      assert keys == Front(keys) + [k];
      PickedMember(table, Front(keys), r);
      FindWorks(table, k);
      if r in table && r.key == Some(k) { FindUnique(table, r); }
    }
  }

  lemma {:induction false} PickedIncrease(position: map<int, nat>, table: Table, keys: seq<int>, n: nat)
    requires Positions(position, keys) && n <= |keys| && UniqueKeys(table)
    ensures Increasing(position, PickInOrder(table, keys[..n]))
    ensures forall r :: r in PickInOrder(table, keys[..n]) ==> PositionOf(position, r) < n
  {
    if n > 0 {
      var k := keys[n - 1];
      assert Front(keys[..n]) == keys[..n - 1] && Last(keys[..n]) == k;
      PickedIncrease(position, table, keys, n - 1);
      FindWorks(table, k);
      var before := PickInOrder(table, keys[..n - 1]);
      assert forall i :: 0 <= i < |before| ==> before[i] in before;
    }
  }

  /** The position map puts the fetched rows back into the order of the keys. */
  method OrderByKeys(table: Table, keys: seq<int>, found: seq<Rec>) returns (level: seq<Rec>)
    requires UniqueKeys(table) && Distinct(keys) && Fetched(table, keys, found)
    ensures level == PickInOrder(table, keys)
  {
    var position: map<int, nat> := map[];
    for n := 0 to |keys|
      invariant Positions(position, keys[..n])
    {
      position := position[keys[n] := n];
    }
    assert keys[..|keys|] == keys;
    level := SortByPosition(position, found);
    SortingRestoresKeyOrder(position, table, keys, found);
  }

  lemma SortingRestoresKeyOrder(position: map<int, nat>, table: Table, keys: seq<int>, found: seq<Rec>)
    requires UniqueKeys(table) && Fetched(table, keys, found) && Positions(position, keys)
    ensures SortByPosition(position, found) == PickInOrder(table, keys)
  {
    forall i, j | 0 <= i < j < |found| ensures PositionOf(position, found[i]) != PositionOf(position, found[j]) {
      assert found[i] in found && found[j] in found;
      var a :| 0 <= a < |keys| && keys[a] == found[i].key.value;
      var b :| 0 <= b < |keys| && keys[b] == found[j].key.value;
    }
    SortSorts(position, found);
    PickedIncrease(position, table, keys, |keys|);
    assert keys[..|keys|] == keys;
    forall r ensures r in SortByPosition(position, found) <==> r in PickInOrder(table, keys) {
      PickedMember(table, keys, r);
    }
    IncreasingIsUnique(position, SortByPosition(position, found), PickInOrder(table, keys));
  }

  // ---------------------------------------------------------- building the tree

  /** The nodes of a level that refer to this key, in their order. */
  function Inside(forest: seq<Node>, key: Value): seq<Node> {
    if forest == [] then []
    else
      var before := Inside(Front(forest), key);
      if Last(forest).rec.parent == key then before + [Last(forest)] else before
  }

  function Wrap(level: seq<Rec>, forest: seq<Node>): (nodes: seq<Node>)
    ensures |nodes| == |level|
  {
    if level == [] then [] else Wrap(Front(level), forest) + [Node(Last(level), Inside(forest, Last(level).key))]
  }

  function Leaves(rows: seq<Rec>): seq<Node> {
    if rows == [] then [] else Leaves(Front(rows)) + [Node(Last(rows), [])]
  }

  function Recs(forest: seq<Node>): seq<Rec> {
    if forest == [] then [] else Recs(Front(forest)) + [Last(forest).rec]
  }

  /** The tree over `tables`, given from the inside out. */
  function Tree(tables: seq<Table>, rows: seq<Rec>): seq<Node> {
    if tables == [] then Leaves(rows)
    else
      var forest := Tree(Front(tables), rows);
      Wrap(Climb(Last(tables), Recs(forest)), forest)
  }

  lemma {:induction false} RecsOfWrap(level: seq<Rec>, forest: seq<Node>)
    ensures Recs(Wrap(level, forest)) == level
  {
    if level != [] {
      RecsOfWrap(Front(level), forest);
      var w := Wrap(level, forest);
      assert Front(w) == Wrap(Front(level), forest);
    }
  }

  lemma {:induction false} RecsOfLeaves(rows: seq<Rec>)
    ensures Recs(Leaves(rows)) == rows
  {
    if rows != [] {
      RecsOfLeaves(Front(rows));
      assert Front(Leaves(rows)) == Leaves(Front(rows));
    }
  }

  function Lookup(grouped: map<Value, seq<Node>>, key: Value): seq<Node> {
    if key in grouped then grouped[key] else []
  }

  /** `grouped.setdefault(key, []).append(out)` over one level, then
      `grouped.get(key, [])` for every row of the level outside it. */
  method WrapLevel(level: seq<Rec>, forest: seq<Node>) returns (nodes: seq<Node>)
    ensures nodes == Wrap(level, forest)
  {
    var grouped: map<Value, seq<Node>> := map[];
    for i := 0 to |forest|
      invariant forall key :: Lookup(grouped, key) == Inside(forest[..i], key)
    {
      assert Front(forest[..i + 1]) == forest[..i];
      var key := forest[i].rec.parent;
      grouped := grouped[key := Lookup(grouped, key) + [forest[i]]];
    }
    assert forest[..|forest|] == forest;
    nodes := [];
    for i := 0 to |level|
      invariant nodes == Wrap(level[..i], forest)
    {
      assert Front(level[..i + 1]) == level[..i];
      nodes := nodes + [Node(level[i], Lookup(grouped, level[i].key))];
    }
    assert level[..|level|] == level;
  }

  method BuildLeaves(rows: seq<Rec>) returns (nodes: seq<Node>)
    ensures nodes == Leaves(rows)
  {
    nodes := [];
    for i := 0 to |rows|
      invariant nodes == Leaves(rows[..i])
    {
      assert Front(rows[..i + 1]) == rows[..i];
      nodes := nodes + [Node(rows[i], [])];
    }
    assert rows[..|rows|] == rows;
  }

  /** The rows of level n. */
  function Level(tables: seq<Table>, rows: seq<Rec>): seq<Rec> {
    Recs(Tree(tables, rows))
  }

  lemma LevelStep(tables: seq<Table>, rows: seq<Rec>)
    requires tables != []
    ensures Level(tables, rows) == Climb(Last(tables), Level(Front(tables), rows))
  {
    RecsOfWrap(Climb(Last(tables), Level(Front(tables), rows)), Tree(Front(tables), rows));
  }

  ghost predicate AreLevels(levels: seq<seq<Rec>>, tables: seq<Table>, rows: seq<Rec>, n: nat)
    requires n <= |tables|
  {
    |levels| == n + 1 && forall k :: 0 <= k <= n ==> levels[k] == Level(tables[..k], rows)
  }

  method FetchLevel(table: Table, level: seq<Rec>) returns (next: seq<Rec>)
    requires UniqueKeys(table)
    ensures next == Climb(table, level)
  {
    var keys := KeysInOrder(level);
    var found := FetchIn(table, keys);
    next := OrderByKeys(table, keys, found);
    PickIsClimb(table, level);
  }

  /** From the root outwards, one level after the other. */
  method FetchLevels(tables: seq<Table>, rows: seq<Rec>) returns (levels: seq<seq<Rec>>)
    requires AllUnique(tables)
    ensures AreLevels(levels, tables, rows, |tables|)
  {
    levels := [rows];
    RecsOfLeaves(rows);
    for i := 0 to |tables|
      invariant AreLevels(levels, tables, rows, i)
    {
      var next := FetchLevel(tables[i], levels[i]);
      assert Front(tables[..i + 1]) == tables[..i];
      LevelStep(tables[..i + 1], rows);
      levels := levels + [next];
    }
  }

  /** Fetch every level, then join from the inside out. */
  method Nest(tables: seq<Table>, rows: seq<Rec>) returns (tree: seq<Node>)
    requires AllUnique(tables)
    ensures tree == Tree(tables, rows)
  {
    var levels := FetchLevels(tables, rows);
    tree := BuildLeaves(rows);
    for i := 0 to |tables|
      invariant tree == Tree(tables[..i], rows)
    {
      assert Front(tables[..i + 1]) == tables[..i];
      LevelStep(tables[..i + 1], rows);
      tree := WrapLevel(levels[i + 1], tree);
    }
    assert tables[..|tables|] == tables;
  }

  // --------------------------------------------------- the meaning of the tree

  /** The row's ancestor above all of `up`, if the chain resolves that far. */
  function Ancestor(up: seq<Table>, rec: Rec): Option<Rec> {
    if up == [] then Some(rec)
    else
      match ParentOf(up[0], rec)
      case None => None
      case Some(p) => Ancestor(up[1..], p)
  }

  /** The rows below one ancestor, in their order. */
  function Below(up: seq<Table>, top: Rec, rows: seq<Rec>): seq<Rec> {
    if rows == [] then []
    else
      var before := Below(up, top, Front(rows));
      if Ancestor(up, Last(rows)) == Some(top) then before + [Last(rows)] else before
  }

  /** The ancestors of the rows, in order of first appearance. */
  function Tops(up: seq<Table>, rows: seq<Rec>): seq<Rec> {
    if rows == [] then []
    else
      var before := Tops(up, Front(rows));
      var a := Ancestor(up, Last(rows));
      if a.None? || a.value in before then before else before + [a.value]
  }

  /** The reference: group the rows by outermost ancestor, groups in order of
      first appearance and rows in their own order, then each group again by
      the next ancestor. */
  function Grouping(tables: seq<Table>, rows: seq<Rec>): seq<Node>
    decreases |tables|, |rows| + 1
  {
    if tables == [] then Leaves(rows) else Groups(tables, rows, Tops(tables, rows))
  }

  function Groups(tables: seq<Table>, rows: seq<Rec>, tops: seq<Rec>): seq<Node>
    requires tables != []
    decreases |tables|, 0, |tops|
  {
    if tops == [] then []
    else
      Groups(tables, rows, Front(tops))
      + [Node(Last(tops), Grouping(Front(tables), Below(tables, Last(tops), rows)))]
  }

  // -------------------------------------------------------------- main results

  lemma AncestorOver(table: Table, up: seq<Table>, rec: Rec)
    ensures Ancestor([table] + up, rec) ==
      match ParentOf(table, rec) case None => None case Some(p) => Ancestor(up, p)
  {
  }

  function NodesBelow(up: seq<Table>, top: Rec, forest: seq<Node>): seq<Node> {
    if forest == [] then []
    else
      var before := NodesBelow(up, top, Front(forest));
      if Ancestor(up, Last(forest).rec) == Some(top) then before + [Last(forest)] else before
  }

  lemma {:induction false} RecsBelow(up: seq<Table>, top: Rec, forest: seq<Node>)
    ensures Recs(NodesBelow(up, top, forest)) == Below(up, top, Recs(forest))
  {
    if forest != [] {
      RecsBelow(up, top, Front(forest));
      assert Front(Recs(forest)) == Recs(Front(forest));
      var before := NodesBelow(up, top, Front(forest));
      assert Front(before + [Last(forest)]) == before;
    }
  }

  lemma {:induction false} BelowMember(up: seq<Table>, top: Rec, rows: seq<Rec>)
    ensures forall r :: r in Below(up, top, rows) <==> r in rows && Ancestor(up, r) == Some(top)
  {
    if rows != [] {
      BelowMember(up, top, Front(rows));
      assert rows == Front(rows) + [Last(rows)];
    }
  }

  /** Selecting the rows below one ancestor commutes with climbing a level. */
  lemma {:induction false} BelowClimbs(table: Table, up: seq<Table>, top: Rec, level: seq<Rec>)
    ensures Climb(table, Below([table] + up, top, level)) == Below(up, top, Climb(table, level))
  {
    if level != [] {
      var before, last := Climb(table, Front(level)), Last(level);
      BelowClimbs(table, up, top, Front(level));
      BelowMember(up, top, before);
      AncestorOver(table, up, last);
    }
  }

  /** Children of a row below `top` are themselves below `top`. */
  lemma {:induction false} InsideBelow(table: Table, up: seq<Table>, top: Rec, forest: seq<Node>, rec: Rec)
    requires UniqueKeys(table) && rec in table && rec.key.Some? && Ancestor(up, rec) == Some(top)
    ensures Inside(NodesBelow([table] + up, top, forest), rec.key) == Inside(forest, rec.key)
  {
    if forest != [] {
      InsideBelow(table, up, top, Front(forest), rec);
      AncestorOver(table, up, Last(forest).rec);
      FindUnique(table, rec);
    }
  }

  lemma {:induction false} ClimbMember(table: Table, level: seq<Rec>)
    ensures forall p :: p in Climb(table, level) ==> p in table && p.key.Some?
    ensures forall r :: r in level && ParentOf(table, r).Some? ==> ParentOf(table, r).value in Climb(table, level)
  {
    if level != [] {
      ClimbMember(table, Front(level));
      assert level == Front(level) + [Last(level)];
      if Last(level).parent.Some? { FindWorks(table, Last(level).parent.value); }
    }
  }

  lemma {:induction false} WrapBelow(table: Table, up: seq<Table>, top: Rec, level: seq<Rec>, forest: seq<Node>)
    requires UniqueKeys(table)
    requires forall p :: p in level ==> p in table && p.key.Some?
    ensures NodesBelow(up, top, Wrap(level, forest))
      == Wrap(Below(up, top, level), NodesBelow([table] + up, top, forest))
  {
    if level != [] {
      assert level == Front(level) + [Last(level)];
      WrapBelow(table, up, top, Front(level), forest);
      if Ancestor(up, Last(level)) == Some(top) {
        InsideBelow(table, up, top, forest, Last(level));
      }
    }
  }

  lemma {:induction false} LeavesBelow(up: seq<Table>, top: Rec, rows: seq<Rec>)
    ensures NodesBelow(up, top, Leaves(rows)) == Leaves(Below(up, top, rows))
  {
    if rows != [] {
      LeavesBelow(up, top, Front(rows));
    }
  }

  /** The part of a tree below one ancestor is the tree of the rows below it. */
  lemma {:induction false} TreeBelow(low: seq<Table>, up: seq<Table>, top: Rec, rows: seq<Rec>)
    requires AllUnique(low)
    ensures NodesBelow(up, top, Tree(low, rows)) == Tree(low, Below(low + up, top, rows))
    decreases |low|
  {
    if low == [] {
      assert low + up == up;
      LeavesBelow(up, top, rows);
    } else {
      var table, forest := Last(low), Tree(Front(low), rows);
      assert Front(low) + ([table] + up) == low + up;
      TreeBelow(Front(low), [table] + up, top, rows);
      var level := Climb(table, Recs(forest));
      ClimbMember(table, Recs(forest));
      WrapBelow(table, up, top, level, forest);
      BelowClimbs(table, up, top, Recs(forest));
      RecsBelow([table] + up, top, forest);
    }
  }

  lemma {:induction false} AncestorStep(low: seq<Table>, table: Table, rec: Rec)
    ensures Ancestor(low + [table], rec)
      == match Ancestor(low, rec) case None => None case Some(a) => ParentOf(table, a)
  {
    if low == [] {
      assert low + [table] == [table];
      assert [table][1..] == [];
    } else {
      assert (low + [table])[1..] == low[1..] + [table];
      var p := ParentOf(low[0], rec);
      if p.Some? { AncestorStep(low[1..], table, p.value); }
    }
  }

  lemma {:induction false} TopsClimb(low: seq<Table>, table: Table, rows: seq<Rec>)
    ensures Tops(low + [table], rows) == Climb(table, Tops(low, rows))
  {
    if rows != [] {
      TopsClimb(low, table, Front(rows));
      AncestorStep(low, table, Last(rows));
      var before := Tops(low, Front(rows));
      ClimbMember(table, before);
      var a := Ancestor(low, Last(rows));
      if a.Some? { assert Front(before + [a.value]) == before; }
    }
  }

  lemma {:induction false} TopsOfOne(table: Table, rows: seq<Rec>)
    ensures Tops([table], rows) == Climb(table, rows)
  {
    if rows != [] {
      TopsOfOne(table, Front(rows));
      assert [table] == [table] + [];
      AncestorOver(table, [], Last(rows));
    }
  }

  /** The outermost level is the ancestors in order of first appearance. */
  lemma {:induction false} OuterRowsInOrder(tables: seq<Table>, rows: seq<Rec>)
    requires tables != []
    ensures Level(tables, rows) == Tops(tables, rows)
    decreases |tables|
  {
    LevelStep(tables, rows);
    assert tables == Front(tables) + [Last(tables)];
    if |tables| == 1 {
      RecsOfLeaves(rows);
      TopsOfOne(Last(tables), rows);
    } else {
      OuterRowsInOrder(Front(tables), rows);
      TopsClimb(Front(tables), Last(tables), rows);
    }
  }

  /** Nesting, level by level from the inside out, is the stable multi-level
      grouping of the rows. */
  lemma {:induction false} NestIsGrouping(tables: seq<Table>, rows: seq<Rec>)
    requires AllUnique(tables)
    ensures Tree(tables, rows) == Grouping(tables, rows)
    decreases |tables|, 1, 0
  {
    if tables != [] {
      var forest := Tree(Front(tables), rows);
      OuterRowsInOrder(tables, rows);
      LevelStep(tables, rows);
      var tops := Climb(Last(tables), Recs(forest));
      ClimbMember(Last(tables), Recs(forest));
      GroupsAreWraps(tables, rows, tops);
    }
  }

  lemma {:induction false} GroupsAreWraps(tables: seq<Table>, rows: seq<Rec>, tops: seq<Rec>)
    requires tables != [] && AllUnique(tables)
    requires forall p :: p in tops ==> p in Last(tables) && p.key.Some?
    ensures Wrap(tops, Tree(Front(tables), rows)) == Groups(tables, rows, tops)
    decreases |tables|, 0, |tops|
  {
    if tops != [] {
      assert tops == Front(tops) + [Last(tops)];
      GroupsAreWraps(tables, rows, Front(tops));
      var low, table, top := Front(tables), Last(tables), Last(tops);
      assert tables == low + [table];
      TreeBelow(low, [table], top, rows);
      InsideIsBelow(table, top, Tree(low, rows));
      NestIsGrouping(low, Below(tables, top, rows));
    }
  }

  lemma {:induction false} InsideIsBelow(table: Table, top: Rec, forest: seq<Node>)
    requires UniqueKeys(table) && top in table && top.key.Some?
    ensures Inside(forest, top.key) == NodesBelow([table], top, forest)
  {
    if forest != [] {
      InsideIsBelow(table, top, Front(forest));
      FindUnique(table, top);
      assert [table] == [table] + [];
      AncestorOver(table, [], Last(forest).rec);
      var p := Last(forest).rec.parent;
      if p.Some? { FindWorks(table, p.value); }
    }
  }

  // ------------------------------------------------------------ exactly once

  /** How often this path, outermost row first, leads to a leaf of the forest. */
  function Occurs(forest: seq<Node>, path: seq<Rec>): nat
    requires path != []
    decreases |path|, |forest|
  {
    if forest == [] then 0
    else
      var here := Last(forest);
      (if here.rec != path[0] then 0 else if |path| == 1 then 1 else Occurs(here.inside, path[1..]))
      + Occurs(Front(forest), path)
  }

  /** The path from the outermost ancestor down to the row itself. */
  function Chain(tables: seq<Table>, rec: Rec): Option<seq<Rec>> {
    if tables == [] then Some([rec])
    else
      match ParentOf(tables[0], rec)
      case None => None
      case Some(p) =>
        match Chain(tables[1..], p)
        case None => None
        case Some(c) => Some(c + [rec])
  }

  /** How many rows have this path as their chain. */
  function Times(tables: seq<Table>, rows: seq<Rec>, path: seq<Rec>): nat {
    if rows == [] then 0
    else (if Chain(tables, Last(rows)) == Some(path) then 1 else 0) + Times(tables, Front(rows), path)
  }

  lemma {:induction false} ChainStep(low: seq<Table>, table: Table, rec: Rec)
    ensures Chain(low, rec).Some? ==> Chain(low, rec).value != []
    ensures Chain(low + [table], rec) ==
      match Chain(low, rec) case None => None case Some(c) =>
        match ParentOf(table, c[0]) case None => None case Some(p) => Some([p] + c)
  {
    var all := low + [table];
    if low == [] {
      assert all == [table] && all[1..] == [];
    } else {
      assert all[0] == low[0] && all[1..] == low[1..] + [table];
      var p := ParentOf(low[0], rec);
      if p.Some? {
        ChainStep(low[1..], table, p.value);
        var c := Chain(low[1..], p.value);
        if c.Some? {
          var g := ParentOf(table, c.value[0]);
          if g.Some? { assert [g.value] + c.value + [rec] == [g.value] + (c.value + [rec]); }
        }
      }
    }
  }

  lemma {:induction false} TimesStep(low: seq<Table>, table: Table, rows: seq<Rec>, top: Rec, path: seq<Rec>)
    requires path != []
    ensures Times(low + [table], rows, [top] + path) ==
      if ParentOf(table, path[0]) == Some(top) then Times(low, rows, path) else 0
  {
    if rows != [] {
      TimesStep(low, table, Front(rows), top, path);
      ChainStep(low, table, Last(rows));
      var c := Chain(low, Last(rows));
      if c.Some? && ParentOf(table, c.value[0]).Some? {
        var p := ParentOf(table, c.value[0]).value;
        assert ([p] + c.value)[0] == p && ([p] + c.value)[1..] == c.value;
        assert ([top] + path)[0] == top && ([top] + path)[1..] == path;
      }
    }
  }

  lemma {:induction false} OccursInside(forest: seq<Node>, key: Value, path: seq<Rec>)
    requires path != []
    ensures Occurs(Inside(forest, key), path) == if path[0].parent == key then Occurs(forest, path) else 0
  {
    if forest != [] {
      OccursInside(Front(forest), key, path);
    }
  }

  ghost predicate NoRepeat(s: seq<Rec>) {
    forall i, j :: 0 <= i < j < |s| ==> s[i] != s[j]
  }

  lemma {:induction false} ClimbNoRepeat(table: Table, level: seq<Rec>)
    ensures NoRepeat(Climb(table, level))
  {
    if level != [] { ClimbNoRepeat(table, Front(level)); }
  }

  lemma {:induction false} OccursWrap(level: seq<Rec>, forest: seq<Node>, top: Rec, path: seq<Rec>)
    requires NoRepeat(level) && path != []
    ensures Occurs(Wrap(level, forest), [top] + path)
      == if top in level then Occurs(Inside(forest, top.key), path) else 0
  {
    if level != [] {
      assert level == Front(level) + [Last(level)];
      OccursWrap(Front(level), forest, top, path);
      assert ([top] + path)[0] == top && ([top] + path)[1..] == path;
    }
  }

  lemma {:induction false} OccursIsThere(forest: seq<Node>, path: seq<Rec>)
    requires path != [] && Occurs(forest, path) > 0
    ensures path[0] in Recs(forest)
  {
    if Last(forest).rec != path[0] {
      OccursIsThere(Front(forest), path);
    }
  }

  lemma {:induction false} OccursInLeaves(rows: seq<Rec>, rec: Rec)
    ensures Occurs(Leaves(rows), [rec]) == Times([], rows, [rec])
  {
    if rows != [] {
      OccursInLeaves(Front(rows), rec);
      assert [Last(rows)][0] == Last(rows);
    }
  }

  /** Every root row whose chain of references resolves at each level stands
      in the tree exactly once, under its own ancestors, and nothing else does. */
  lemma {:induction false} EachRowOnce(tables: seq<Table>, rows: seq<Rec>, path: seq<Rec>)
    requires AllUnique(tables) && |path| == |tables| + 1
    ensures Occurs(Tree(tables, rows), path) == Times(tables, rows, path)
    decreases |tables|
  {
    if tables == [] {
      assert path == [path[0]];
      OccursInLeaves(rows, path[0]);
    } else {
      var low, table, top, rest := Front(tables), Last(tables), path[0], path[1..];
      var forest := Tree(low, rows);
      var level := Climb(table, Recs(forest));
      assert tables == low + [table] && path == [top] + rest;
      EachRowOnce(low, rows, rest);
      TimesStep(low, table, rows, top, rest);
      ClimbNoRepeat(table, Recs(forest));
      OccursWrap(level, forest, top, rest);
      OccursInside(forest, top.key, rest);
      ClimbMember(table, Recs(forest));
      if top in level { FindUnique(table, top); }
      if Occurs(forest, rest) > 0 { OccursIsThere(forest, rest); }
      if rest[0].parent.Some? { FindWorks(table, rest[0].parent.value); }
    }
  }
}
