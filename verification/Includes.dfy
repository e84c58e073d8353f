/** Batched loading of related rows: `_attach` of
    fastapi_modular/infrastructure/database/query.py, one chunked IN query for
    all rows instead of one query per row. */
module Includes {
  import opened Wrappers
  import opened Conditions
  import opened Sorting

  /** How many keys go into one IN list. */
  const IN_CHUNK := 500

  /** The included table in storage order, and how it is selected and sorted. */
  datatype Source = Source(table: seq<Item>, column: string, keep: Item -> bool, orders: seq<Order>)

  function HasKey(column: string, key: int): Item -> bool {
    (x: Item) => Read(x.row, column) == Some(key)
  }

  function Wanted(src: Source, keys: seq<int>): Item -> bool {
    (x: Item) => Read(x.row, src.column).Some? && Read(x.row, src.column).value in keys && src.keep(x)
  }

  /** One query: WHERE column IN keys AND the extra conditions, ORDER BY. */
  function RunQuery(src: Source, keys: seq<int>): seq<Item> {
    Arrange(src.orders, Where(Wanted(src, keys), src.table))
  }

  /** The query a single row would have run for itself; nothing equals NULL. */
  function OwnQuery(src: Source, key: Value): seq<Item> {
    if key.None? then [] else RunQuery(src, [key.value])
  }

  // -------------------------------------------------------------- lemmas

  lemma {:induction false} WhereConcat(p: Item -> bool, a: seq<Item>, b: seq<Item>)
    ensures Where(p, a + b) == Where(p, a) + Where(p, b)
  {
    if a == [] {
      assert a + b == b;
    } else {
      assert (a + b)[0] == a[0] && (a + b)[1..] == a[1..] + b;
      WhereConcat(p, a[1..], b);
    }
  }

  lemma {:induction false} WhereTwice(p: Item -> bool, q: Item -> bool, r: Item -> bool, s: seq<Item>)
    requires forall x :: r(x) <==> p(x) && q(x)
    ensures Where(p, Where(q, s)) == Where(r, s)
  {
    if s != [] {
      WhereTwice(p, q, r, s[1..]);
      WhereConcat(p, if q(s[0]) then [s[0]] else [], Where(q, s[1..]));
    }
  }

  lemma {:induction false} WhereNothing(p: Item -> bool, s: seq<Item>)
    requires forall x :: x in s ==> !p(x)
    ensures Where(p, s) == []
  {
    if s != [] {
      WhereNothing(p, s[1..]);
    }
  }

  /** The rows of s with this key. */
  function KeyRows(column: string, key: int, s: seq<Item>): seq<Item> {
    if s == [] then []
    else (if Read(s[0].row, column) == Some(key) then [s[0]] else []) + KeyRows(column, key, s[1..])
  }

  lemma {:induction false} KeyRowsIsWhere(column: string, key: int, s: seq<Item>)
    ensures KeyRows(column, key, s) == Where(HasKey(column, key), s)
  {
    if s != [] { KeyRowsIsWhere(column, key, s[1..]); }
  }

  lemma KeyRowsConcat(column: string, key: int, a: seq<Item>, b: seq<Item>)
    ensures KeyRows(column, key, a + b) == KeyRows(column, key, a) + KeyRows(column, key, b)
  {
    WhereConcat(HasKey(column, key), a, b);
    KeyRowsIsWhere(column, key, a);
    KeyRowsIsWhere(column, key, b);
    KeyRowsIsWhere(column, key, a + b);
  }

  /** A chunk answers for each of its keys as that key's own query would, and
      holds nothing for any other key. */
  lemma ChunkAnswers(src: Source, chunk: seq<int>, key: int)
    requires Ordered([], src.table)
    ensures KeyRows(src.column, key, RunQuery(src, chunk)) == if key in chunk then RunQuery(src, [key]) else []
  {
    var p := HasKey(src.column, key);
    var chosen := Where(Wanted(src, chunk), src.table);
    WhereKeepsOrdered([], Wanted(src, chunk), src.table);
    WhereCommutesWithSort(src.orders, p, chosen);
    KeyRowsIsWhere(src.column, key, RunQuery(src, chunk));
    if key in chunk {
      WhereTwice(p, Wanted(src, chunk), Wanted(src, [key]), src.table);
    } else {
      WhereNothing(p, chosen);
    }
  }

  ghost predicate AllKeyed(column: string, s: seq<Item>) {
    forall x :: x in s ==> Read(x.row, column).Some?
  }

  lemma RunQueryIsKeyed(src: Source, keys: seq<int>)
    ensures AllKeyed(src.column, RunQuery(src, keys))
  {
    var chosen := Where(Wanted(src, keys), src.table);
    SameMembers(RunQuery(src, keys), chosen);
  }

  lemma SameMembers(a: seq<Item>, b: seq<Item>)
    requires multiset(a) == multiset(b)
    ensures forall x :: x in a <==> x in b
  {
    forall x ensures x in a <==> x in b {
      assert x in a <==> x in multiset(a);
    }
  }

  /** The loaded rows hold, for each key, what its own query finds. */
  ghost predicate Answers(src: Source, found: seq<Item>, keys: seq<int>) {
    && AllKeyed(src.column, found)
    && forall key :: KeyRows(src.column, key, found) == if key in keys then RunQuery(src, [key]) else []
  }

  /** Every key lies in exactly one chunk. */
  lemma ChunkStep(src: Source, found: seq<Item>, done: seq<int>, chunk: seq<int>)
    requires Ordered([], src.table) && Answers(src, found, done) && Distinct(done + chunk)
    ensures Answers(src, found + RunQuery(src, chunk), done + chunk)
  {
    var part, keys := RunQuery(src, chunk), done + chunk;
    RunQueryIsKeyed(src, chunk);
    DistinctParts(done, chunk);
    forall key ensures KeyRows(src.column, key, found + part) == if key in keys then RunQuery(src, [key]) else [] {
      KeyRowsConcat(src.column, key, found, part);
      ChunkAnswers(src, chunk, key);
      assert key in keys <==> key in done || key in chunk;
    }
  }

  lemma DistinctParts(done: seq<int>, chunk: seq<int>)
    requires Distinct(done + chunk)
    ensures forall a, b :: 0 <= a < |done| && 0 <= b < |chunk| ==> done[a] != chunk[b]
  {
    forall a, b | 0 <= a < |done| && 0 <= b < |chunk| ensures done[a] != chunk[b] {
      assert (done + chunk)[a] != (done + chunk)[|done| + b];
    }
  }

  // -------------------------------------------------------------- methods

  /** The chunk loop. */
  method FetchChunks(src: Source, keys: seq<int>) returns (found: seq<Item>)
    requires Ordered([], src.table) && Distinct(keys)
    ensures Answers(src, found, keys)
  {
    found := [];
    var i := 0;
    while i < |keys|
      invariant 0 <= i <= |keys|
      invariant Answers(src, found, keys[..i])
    {
      var next := if i + IN_CHUNK < |keys| then i + IN_CHUNK else |keys|;
      assert keys[..next] == keys[..i] + keys[i..next];
      ChunkStep(src, found, keys[..i], keys[i..next]);
      found := found + RunQuery(src, keys[i..next]);
      i := next;
    }
    assert keys[..|keys|] == keys;
  }

  function Head(s: seq<Item>, toList: bool): seq<Item> {
    if toList || s == [] then s else [s[0]]
  }

  function Bucket(byKey: map<int, seq<Item>>, key: int): seq<Item> {
    if key in byKey then byKey[key] else []
  }

  /** Each bucket holds all rows of its key in order, or only the first. */
  ghost predicate Grouped(byKey: map<int, seq<Item>>, column: string, s: seq<Item>, toList: bool) {
    && (forall key :: key in byKey ==> byKey[key] != [])
    && forall key :: Bucket(byKey, key) == Head(KeyRows(column, key, s), toList)
  }

  function Put(byKey: map<int, seq<Item>>, key: int, x: Item, toList: bool): map<int, seq<Item>> {
    if toList then byKey[key := Bucket(byKey, key) + [x]]
    else if key !in byKey then byKey[key := [x]]
    else byKey
  }

  lemma PutGroups(byKey: map<int, seq<Item>>, column: string, s: seq<Item>, x: Item, toList: bool)
    requires Grouped(byKey, column, s, toList) && Read(x.row, column).Some?
    ensures Grouped(Put(byKey, Read(x.row, column).value, x, toList), column, s + [x], toList)
  {
    var own := Read(x.row, column).value;
    var after := Put(byKey, own, x, toList);
    forall key ensures Bucket(after, key) == Head(KeyRows(column, key, s + [x]), toList) {
      KeyRowsConcat(column, key, s, [x]);
      assert [x][1..] == [];
      assert KeyRows(column, key, [x]) == if key == own then [x] else [];
      assert Bucket(byKey, key) == Head(KeyRows(column, key, s), toList);
    }
  }

  method GroupByKey(found: seq<Item>, column: string, toList: bool) returns (byKey: map<int, seq<Item>>)
    requires AllKeyed(column, found)
    ensures Grouped(byKey, column, found, toList)
  {
    byKey := map[];
    for i := 0 to |found|
      invariant Grouped(byKey, column, found[..i], toList)
    {
      assert found[..i + 1] == found[..i] + [found[i]];
      PutGroups(byKey, column, found[..i], found[i], toList);
      byKey := Put(byKey, Read(found[i].row, column).value, found[i], toList);
    }
    assert found[..|found|] == found;
  }

  datatype Attached = Many(items: seq<Item>) | One(item: Option<Item>)

  function Shape(s: seq<Item>, toList: bool): Attached {
    if toList then Many(s) else One(if s == [] then None else Some(s[0]))
  }

  /** A list link takes all rows in their order, an object link the first or none. */
  lemma ShapeMeans(s: seq<Item>)
    ensures Shape(s, true).Many? && Shape(s, true).items == s
    ensures Shape(s, false).One? && (Shape(s, false).item.None? <==> |s| == 0)
    ensures s != [] ==> Shape(s, false).item == Some(s[0])
  {
  }

  /** Batched loading gives every row exactly what a query of its own would
      have given: the same list in the same order, or the same single object. */
  method Attach(src: Source, rootKeys: seq<Value>, toList: bool) returns (out: seq<Attached>)
    requires Ordered([], src.table)
    ensures |out| == |rootKeys|
    ensures forall r :: 0 <= r < |out| ==> out[r] == Shape(OwnQuery(src, rootKeys[r]), toList)
  {
    var keys := DistinctKeys(rootKeys);
    var found := FetchChunks(src, keys);
    var byKey := GroupByKey(found, src.column, toList);
    out := ReadBuckets(byKey, rootKeys, toList);
    forall r | 0 <= r < |out| ensures out[r] == Shape(OwnQuery(src, rootKeys[r]), toList) {
      assert rootKeys[r] in rootKeys;
    }
  }

  function BucketOf(byKey: map<int, seq<Item>>, key: Value): seq<Item> {
    if key.Some? then Bucket(byKey, key.value) else []
  }

  /** `row[field_name] = by_key.get(key, ...)` */
  method ReadBuckets(byKey: map<int, seq<Item>>, rootKeys: seq<Value>, toList: bool) returns (out: seq<Attached>)
    ensures |out| == |rootKeys|
    ensures forall r :: 0 <= r < |out| ==> out[r] == Shape(BucketOf(byKey, rootKeys[r]), toList)
  {
    out := [];
    for r := 0 to |rootKeys|
      invariant |out| == r
      invariant forall k :: 0 <= k < r ==> out[k] == Shape(BucketOf(byKey, rootKeys[k]), toList)
    {
      out := out + [Shape(BucketOf(byKey, rootKeys[r]), toList)];
    }
  }

  /** The keys without NULL and without repetition. */
  method DistinctKeys(rootKeys: seq<Value>) returns (keys: seq<int>)
    ensures Distinct(keys)
    ensures forall k :: k in keys <==> Some(k) in rootKeys
    ensures forall v :: v in rootKeys && v.Some? ==> v.value in keys
  {
    keys := [];
    for i := 0 to |rootKeys|
      invariant Distinct(keys)
      invariant forall k :: k in keys <==> Some(k) in rootKeys[..i]
    {
      if rootKeys[i].Some? && rootKeys[i].value !in keys {
        keys := keys + [rootKeys[i].value];
      }
    }
    assert rootKeys[..|rootKeys|] == rootKeys;
  }

  // --------------------------------------- the own query, in terms of the rows

  /** A row's own query finds the rows of the table that hold its key and pass the
      extra conditions, each as often as the table holds it, in the order asked
      for; without a key it finds none. */
  lemma OwnQueryFinds(src: Source, key: Value, x: Item)
    requires Ordered([], src.table)
    ensures multiset(OwnQuery(src, key))[x] ==
      if key.Some? && src.column in x.row && x.row[src.column] == key && src.keep(x) then multiset(src.table)[x] else 0
    ensures forall i, j :: 0 <= i < j < |OwnQuery(src, key)| ==>
      var (a, b) := (OwnQuery(src, key)[i], OwnQuery(src, key)[j]);
      || Decides(src.orders, a.row, b.row)
      || ((forall k :: 0 <= k < |src.orders| ==> Level(src.orders[k].column, a.row, b.row)) && a.pos < b.pos)
  {
    if key.Some? {
      var p := Wanted(src, [key.value]);
      var chosen := Where(p, src.table);
      WhereCount(p, src.table, x);
      WhereKeepsOrdered([], p, src.table);
      var found := OwnQuery(src, key);
      assert |multiset(found)| == |multiset(chosen)|;
      forall i, j | 0 <= i < j < |found|
        ensures Decides(src.orders, found[i].row, found[j].row)
          || ((forall k :: 0 <= k < |src.orders| ==> Level(src.orders[k].column, found[i].row, found[j].row))
            && found[i].pos < found[j].pos)
      {
        SortedByValues(src.orders, chosen, i, j);
      }
    }
  }
}
