/** Ordering rows by several keys with repeated stable sorts: the last step of
    `_rows_for` in fastapi_modular/infrastructure/database/memory.py with
    `sort_key` of fastapi_modular/infrastructure/database/query.py, and where that
    puts NULL. */
module Sorting {
  import opened Wrappers
  import opened Conditions

  datatype Order = Order(column: string, descending: bool)

  /** A row and its place in the list before any sorting. */
  datatype Item = Item(pos: nat, row: Row)

  /** NULL sorts below every value. */
  predicate ValueLess(a: Value, b: Value) {
    b.Some? && (a.None? || a.value < b.value)
  }

  /** x comes strictly before y under the keys alone. */
  predicate KeysLess(orders: seq<Order>, x: Item, y: Item) {
    if orders == [] then false
    else
      var a, b := Read(x.row, orders[0].column), Read(y.row, orders[0].column);
      var (lo, hi) := if orders[0].descending then (b, a) else (a, b);
      ValueLess(lo, hi) || (a == b && KeysLess(orders[1..], x, y))
  }

  /** The intended order: by the keys, each in its direction, then by place. */
  predicate Before(orders: seq<Order>, x: Item, y: Item) {
    KeysLess(orders, x, y) || (!KeysLess(orders, y, x) && x.pos < y.pos)
  }

  ghost predicate Ordered(orders: seq<Order>, s: seq<Item>) {
    forall i, j :: 0 <= i < j < |s| ==> Before(orders, s[i], s[j])
  }

  // ----------------------------------------------------- one stable sort

  /** Python's stable sort, as insertion: x goes before the first item that is
      not strictly before it. */
  function Insert(orders: seq<Order>, x: Item, s: seq<Item>): (r: seq<Item>)
    ensures multiset(r) == multiset{x} + multiset(s)
  {
    if s == [] || !KeysLess(orders, s[0], x) then [x] + s
    else
      assert s == [s[0]] + s[1..];
      [s[0]] + Insert(orders, x, s[1..])
  }

  function StableSort(orders: seq<Order>, s: seq<Item>): (r: seq<Item>)
    ensures multiset(r) == multiset(s)
  {
    if s == [] then []
    else
      assert s == [s[0]] + s[1..];
      Insert(orders, s[0], StableSort(orders, s[1..]))
  }

  lemma {:induction false} KeysLessTransitive(orders: seq<Order>, x: Item, y: Item, z: Item)
    ensures KeysLess(orders, x, y) && KeysLess(orders, y, z) ==> KeysLess(orders, x, z)
    ensures KeysLess(orders, x, y) ==> KeysLess(orders, x, z) || KeysLess(orders, z, y)
    ensures !(KeysLess(orders, x, y) && KeysLess(orders, y, x))
  {
    if orders != [] {
      KeysLessTransitive(orders[1..], x, y, z);
    }
  }

  lemma {:induction false} KeysLessAppend(a: seq<Order>, b: seq<Order>, x: Item, y: Item)
    ensures KeysLess(a + b, x, y) <==> KeysLess(a, x, y) || (!KeysLess(a, y, x) && KeysLess(b, x, y))
  {
    if a == [] {
      assert a + b == b;
    } else {
      assert (a + b)[0] == a[0] && (a + b)[1..] == a[1..] + b;
      KeysLessAppend(a[1..], b, x, y);
    }
  }

  /** A stable sort puts its own keys in front of the order already there. */
  lemma {:induction false} InsertOrdered(orders: seq<Order>, rest: seq<Order>, x: Item, s: seq<Item>)
    requires Ordered(orders + rest, s)
    requires forall y :: y in s ==> Before(rest, x, y)
    ensures Ordered(orders + rest, Insert(orders, x, s))
  {
    var all := orders + rest;
    if s == [] {
    } else if !KeysLess(orders, s[0], x) {
      forall k | 0 <= k < |s| ensures Before(all, x, s[k]) {
        if k > 0 {
          assert Before(all, s[0], s[k]);
        }
        KeysLessAppend(orders, rest, s[k], s[0]);
        KeysLessAppend(orders, rest, s[0], s[k]);
        KeysLessAppend(orders, rest, x, s[k]);
        KeysLessAppend(orders, rest, s[k], x);
        KeysLessTransitive(orders, s[k], x, s[0]);
        KeysLessTransitive(orders, s[k], s[0], s[k]);
        KeysLessTransitive(orders, s[k], s[k], s[k]);
        assert s[k] in s;
      }
    } else {
      assert Ordered(all, s[1..]) by {
        forall i, j | 0 <= i < j < |s[1..]| ensures Before(all, s[1..][i], s[1..][j]) {
          assert Before(all, s[i + 1], s[j + 1]);
        }
      }
      InsertOrdered(orders, rest, x, s[1..]);
      var tail := Insert(orders, x, s[1..]);
      forall k | 0 <= k < |tail| ensures Before(all, s[0], tail[k]) {
        assert tail[k] in multiset(tail);
        if tail[k] == x {
          KeysLessAppend(orders, rest, s[0], x);
        } else {
          assert tail[k] in s[1..];
          var m :| 0 <= m < |s[1..]| && s[1..][m] == tail[k];
          assert Before(all, s[0], s[m + 1]);
        }
      }
    }
  }

  lemma {:induction false} StableSortOrdered(orders: seq<Order>, rest: seq<Order>, s: seq<Item>)
    requires Ordered(rest, s)
    ensures Ordered(orders + rest, StableSort(orders, s))
  {
    if s != [] {
      var tail := s[1..];
      assert Ordered(rest, tail) by {
        forall i, j | 0 <= i < j < |tail| ensures Before(rest, tail[i], tail[j]) {
          assert Before(rest, s[i + 1], s[j + 1]);
        }
      }
      StableSortOrdered(orders, rest, tail);
      var sorted := StableSort(orders, tail);
      forall y | y in sorted ensures Before(rest, s[0], y) {
        assert y in multiset(sorted) && y in tail;
        var m :| 0 <= m < |tail| && tail[m] == y;
        assert Before(rest, s[0], s[m + 1]);
      }
      InsertOrdered(orders, rest, s[0], sorted);
    }
  }

  // -------------------------------------------------------- all the passes

  /** The first pass sorts by the whole key, always ascending. */
  function Upward(orders: seq<Order>): (r: seq<Order>)
    ensures |r| == |orders| && forall i :: 0 <= i < |r| ==> r[i] == Order(orders[i].column, false)
  {
    if orders == [] then [] else [Order(orders[0].column, false)] + Upward(orders[1..])
  }

  function Passes(orders: seq<Order>, s: seq<Item>): (r: seq<Item>)
    ensures multiset(r) == multiset(s)
  {
    if orders == [] then s else StableSort([orders[0]], Passes(orders[1..], s))
  }

  function Arrange(orders: seq<Order>, s: seq<Item>): (r: seq<Item>)
    ensures multiset(r) == multiset(s)
  {
    if orders == [] then s else Passes(orders, StableSort(Upward(orders), s))
  }

  /** `rows.sort(...)`, once by all keys and then key by key from the last. */
  method SortRows(orders: seq<Order>, rows: seq<Item>) returns (sorted: seq<Item>)
    ensures sorted == Arrange(orders, rows)
  {
    sorted := rows;
    if orders != [] {
      sorted := StableSort(Upward(orders), sorted);
      ghost var first := sorted;
      var k := |orders|;
      while k > 0
        invariant 0 <= k <= |orders|
        invariant sorted == Passes(orders[k..], first)
      {
        k := k - 1;
        assert orders[k..][1..] == orders[k + 1..];
        sorted := StableSort([orders[k]], sorted);
      }
      assert orders[0..] == orders;
    }
  }

  lemma {:induction false} PassesOrdered(orders: seq<Order>, rest: seq<Order>, s: seq<Item>)
    requires Ordered(rest, s)
    ensures Ordered(orders + rest, Passes(orders, s))
  {
    if orders == [] {
      assert orders + rest == rest;
    } else {
      var last := Passes(orders[1..], s);
      assert Ordered(orders[1..] + rest, last) by { PassesOrdered(orders[1..], rest, s); }
      assert [orders[0]] + (orders[1..] + rest) == orders + rest;
      StableSortOrdered([orders[0]], orders[1..] + rest, last);
    }
  }

  lemma {:induction false} EqualKeysStayEqual(orders: seq<Order>, x: Item, y: Item)
    requires !KeysLess(orders, x, y) && !KeysLess(orders, y, x)
    ensures !KeysLess(Upward(orders), x, y)
  {
    if orders != [] {
      EqualKeysStayEqual(orders[1..], x, y);
      assert Upward(orders)[1..] == Upward(orders[1..]);
    }
  }

  /** The ascending first pass leaves no trace behind the directed passes. */
  lemma UpwardIsRedundant(orders: seq<Order>, x: Item, y: Item)
    requires Before(orders + Upward(orders), x, y)
    ensures Before(orders, x, y)
  {
    KeysLessAppend(orders, Upward(orders), x, y);
    KeysLessAppend(orders, Upward(orders), y, x);
    KeysLessTransitive(orders, x, y, x);
    if !KeysLess(orders, x, y) && !KeysLess(orders, y, x) {
      EqualKeysStayEqual(orders, x, y);
    }
  }

  /** Repeated stable sorting yields the lexicographic order of all keys, each in
      its own direction, with ties in their original order. */
  lemma ArrangeIsOrdered(orders: seq<Order>, s: seq<Item>)
    requires Ordered([], s)
    ensures Ordered(orders, Arrange(orders, s))
  {
    if orders != [] {
      var up := Upward(orders);
      StableSortOrdered(up, [], s);
      assert up + [] == up;
      PassesOrdered(orders, up, StableSort(up, s));
      var r := Arrange(orders, s);
      forall i, j | 0 <= i < j < |r| ensures Before(orders, r[i], r[j]) {
        UpwardIsRedundant(orders, r[i], r[j]);
      }
    }
  }

  lemma BeforeIsAsymmetric(orders: seq<Order>, x: Item, y: Item)
    ensures !(Before(orders, x, y) && Before(orders, y, x))
  {
    KeysLessTransitive(orders, x, y, x);
  }

  /** Ordered sequences of the same rows begin with the same row. */
  lemma SameFirst(orders: seq<Order>, s: seq<Item>, t: seq<Item>)
    requires Ordered(orders, s) && Ordered(orders, t) && s != [] && multiset(s) == multiset(t)
    ensures t != [] && s[0] == t[0]
  {
    assert s[0] in multiset(s) && s[0] in t;
    assert t[0] in multiset(t) && t[0] in s;
    if s[0] != t[0] {
      var i :| 0 <= i < |s| && s[i] == t[0];
      var j :| 0 <= j < |t| && t[j] == s[0];
      assert Before(orders, s[0], s[i]) && Before(orders, t[0], t[j]);
      BeforeIsAsymmetric(orders, s[0], t[0]);
    }
  }

  lemma TailOfMultiset(s: seq<Item>)
    requires s != []
    ensures multiset(s[1..]) == multiset(s) - multiset{s[0]}
  {
    assert s == [s[0]] + s[1..];
  }

  /** And that order is unique: the same rows cannot be ordered in two ways. */
  lemma {:induction false} OrderedIsUnique(orders: seq<Order>, s: seq<Item>, t: seq<Item>)
    requires Ordered(orders, s) && Ordered(orders, t) && multiset(s) == multiset(t)
    ensures s == t
  {
    if s == [] {
      assert |multiset(t)| == 0;
    } else {
      SameFirst(orders, s, t);
      TailOfMultiset(s);
      TailOfMultiset(t);
      OrderedTail(orders, s);
      OrderedTail(orders, t);
      OrderedIsUnique(orders, s[1..], t[1..]);
      assert s == [s[0]] + s[1..] && t == [t[0]] + t[1..];
    }
  }

  lemma OrderedTail(orders: seq<Order>, s: seq<Item>)
    requires s != [] && Ordered(orders, s)
    ensures Ordered(orders, s[1..])
  {
  }

  // --------------------------------------- the order, in terms of the values

  predicate NoValue(row: Row, column: string) {
    column !in row || row[column] == None
  }

  /** The column of x has the lower value, or none while that of y has one. */
  predicate Lower(column: string, x: Row, y: Row) {
    !NoValue(y, column) && (NoValue(x, column) || x[column].value < y[column].value)
  }

  predicate Level(column: string, x: Row, y: Row) {
    if NoValue(x, column) then NoValue(y, column) else !NoValue(y, column) && x[column].value == y[column].value
  }

  /** Key k decides for x: the keys before it are level, and its column is lower,
      or higher if it is descending. */
  ghost predicate DecidesAt(orders: seq<Order>, x: Row, y: Row, k: nat) {
    && k < |orders| && (forall i :: 0 <= i < k ==> Level(orders[i].column, x, y))
    && if orders[k].descending then Lower(orders[k].column, y, x) else Lower(orders[k].column, x, y)
  }

  ghost predicate Decides(orders: seq<Order>, x: Row, y: Row) {
    exists k: nat :: DecidesAt(orders, x, y, k)
  }

  lemma {:induction false} KeysLessIff(orders: seq<Order>, x: Item, y: Item)
    ensures KeysLess(orders, x, y) <==> Decides(orders, x.row, y.row)
    ensures !KeysLess(orders, x, y) && !KeysLess(orders, y, x) <==>
      forall i :: 0 <= i < |orders| ==> Level(orders[i].column, x.row, y.row)
  {
    if orders != [] {
      KeysLessIff(orders[1..], x, y);
      DecidesStep(orders, x.row, y.row);
      DecidesStep(orders, y.row, x.row);
      var level := forall i :: 0 <= i < |orders[1..]| ==> Level(orders[1..][i].column, x.row, y.row);
      assert (forall i :: 0 <= i < |orders| ==> Level(orders[i].column, x.row, y.row)) <==>
        Level(orders[0].column, x.row, y.row) && level
      by {
        forall i | 0 < i < |orders| ensures orders[i] == orders[1..][i - 1] {
        }
      }
    }
  }

  lemma DecidesStep(orders: seq<Order>, x: Row, y: Row)
    requires orders != []
    ensures Decides(orders, x, y) <==>
      DecidesAt(orders, x, y, 0) || (Level(orders[0].column, x, y) && Decides(orders[1..], x, y))
  {
    if Decides(orders, x, y) && !DecidesAt(orders, x, y, 0) {
      var k: nat :| DecidesAt(orders, x, y, k);
      assert Level(orders[0].column, x, y);
      assert forall i :: 0 <= i < k - 1 ==> orders[1..][i] == orders[i + 1];
      assert DecidesAt(orders[1..], x, y, k - 1);
    }
    if Level(orders[0].column, x, y) && Decides(orders[1..], x, y) {
      var k: nat :| DecidesAt(orders[1..], x, y, k);
      assert forall i :: 0 < i <= k ==> orders[i] == orders[1..][i - 1];
      assert DecidesAt(orders, x, y, k + 1);
    }
  }

  /** Of two rows of the result, the first key whose values are not level decides,
      in its direction and with NULL lowest; if all are level the earlier one
      stays first. */
  lemma SortedByValues(orders: seq<Order>, s: seq<Item>, i: nat, j: nat)
    requires Ordered([], s) && i < j < |s|
    ensures |Arrange(orders, s)| == |s|
    ensures var (x, y) := (Arrange(orders, s)[i], Arrange(orders, s)[j]);
      || Decides(orders, x.row, y.row)
      || ((forall k :: 0 <= k < |orders| ==> Level(orders[k].column, x.row, y.row)) && x.pos < y.pos)
  {
    ArrangeIsOrdered(orders, s);
    var r := Arrange(orders, s);
    assert |multiset(r)| == |multiset(s)|;
    assert Before(orders, r[i], r[j]);
    KeysLessIff(orders, r[i], r[j]);
    KeysLessIff(orders, r[j], r[i]);
  }

  /** So by one column the values do not fall, or do not rise when descending. */
  lemma ValuesInOrder(column: string, descending: bool, s: seq<Item>, i: nat, j: nat)
    requires Ordered([], s) && i < j < |s|
    ensures var r := Arrange([Order(column, descending)], s);
      |r| == |s| && (!NoValue(r[i].row, column) && !NoValue(r[j].row, column) ==>
        var (a, b) := (r[i].row[column].value, r[j].row[column].value); if descending then a >= b else a <= b)
  {
    SortedByValues([Order(column, descending)], s, i, j);
    assert [Order(column, descending)][0].column == column;
  }

  /** NULL comes first in ascending order and last in descending order. */
  lemma NullsFirstThenLast(column: string, descending: bool, s: seq<Item>, i: nat, j: nat)
    requires Ordered([], s)
    requires var r := Arrange([Order(column, descending)], s);
      i < |r| && j < |r| && Read(r[i].row, column).None? && Read(r[j].row, column).Some?
    ensures i < j <==> !descending
  {
    var orders := [Order(column, descending)];
    ArrangeIsOrdered(orders, s);
    var r := Arrange(orders, s);
    if i < j {
      assert Before(orders, r[i], r[j]);
    } else {
      assert Before(orders, r[j], r[i]);
    }
  }

  // ------------------------------------------------- sorting and filtering

  function Where(p: Item -> bool, s: seq<Item>): (r: seq<Item>)
    ensures forall x :: x in r <==> x in s && p(x)
  {
    if s == [] then [] else (if p(s[0]) then [s[0]] else []) + Where(p, s[1..])
  }

  lemma {:induction false} WhereKeepsOrdered(orders: seq<Order>, p: Item -> bool, s: seq<Item>)
    requires Ordered(orders, s)
    ensures Ordered(orders, Where(p, s))
  {
    if s != [] {
      OrderedTail(orders, s);
      WhereKeepsOrdered(orders, p, s[1..]);
      var tail := Where(p, s[1..]);
      forall k | 0 <= k < |tail| ensures Before(orders, s[0], tail[k]) {
        assert tail[k] in tail && tail[k] in s[1..];
        var m :| 0 <= m < |s[1..]| && s[1..][m] == tail[k];
        assert Before(orders, s[0], s[m + 1]);
      }
    }
  }

  lemma {:induction false} WhereCount(p: Item -> bool, s: seq<Item>, x: Item)
    ensures multiset(Where(p, s))[x] == if p(x) then multiset(s)[x] else 0
  {
    if s != [] {
      assert s == [s[0]] + s[1..];
      WhereCount(p, s[1..], x);
    }
  }

  /** Selecting commutes with sorting. */
  lemma WhereCommutesWithSort(orders: seq<Order>, p: Item -> bool, s: seq<Item>)
    requires Ordered([], s)
    ensures Where(p, Arrange(orders, s)) == Arrange(orders, Where(p, s))
  {
    var a, b := Where(p, Arrange(orders, s)), Arrange(orders, Where(p, s));
    ArrangeIsOrdered(orders, s);
    WhereKeepsOrdered(orders, p, Arrange(orders, s));
    WhereKeepsOrdered([], p, s);
    ArrangeIsOrdered(orders, Where(p, s));
    forall x ensures multiset(a)[x] == multiset(b)[x] {
      WhereCount(p, Arrange(orders, s), x);
      WhereCount(p, s, x);
    }
    assert multiset(a) == multiset(b);
    OrderedIsUnique(orders, a, b);
  }
}
