/** Deleting with foreign keys in the memory backend: `_cascade` and
    `delete_where_ids` of fastapi_modular/infrastructure/database/memory.py. A
    success removes exactly the closure of the given records under CASCADE, taken
    on the starting state, and settles the dead references of the survivors; a
    failure is explained by a chain of records. */
module Cascade {
  import opened Wrappers

  type Id = int

  /** A record's place: its table and its id. */
  datatype Node = Node(entity: string, id: Id)

  type Row = map<string, Option<Id>>

  type Rows = map<Node, Row>

  datatype OnDelete = CASCADE | SET_NULL | SET_DEFAULT | RESTRICT

  /** `child.column` refers to `parent`; `fallback` is the column's default, if
      it has one. */
  datatype Ref = Ref(child: string, column: string, parent: string, onDelete: OnDelete, fallback: Option<Option<Id>>)

  /** All foreign keys in the order in which `_children_of` lists them. */
  type Schema = seq<Ref>

  datatype Error = Conflict | NoDefault | RecursionLimit

  /** A column carries at most one reference. */
  ghost predicate WellFormed(schema: Schema) {
    forall i, k :: 0 <= i < k < |schema| ==> schema[i].child != schema[k].child || schema[i].column != schema[k].column
  }

  function Value(rows: Rows, n: Node, column: string): Option<Id>
    requires n in rows
  {
    if column in rows[n] then rows[n][column] else None
  }

  // --------------------------------------------------- the row graph

  /** The record that would take n along through this CASCADE reference. */
  function Owner(ref: Ref, rows: Rows, n: Node): Option<Node>
    requires n in rows
  {
    if ref.onDelete == CASCADE && ref.child == n.entity && Value(rows, n, ref.column).Some?
    then Some(Node(ref.parent, Value(rows, n, ref.column).value)) else None
  }

  /** Deleting a deletes b directly. */
  ghost predicate Edge(schema: Schema, rows: Rows, a: Node, b: Node) {
    b in rows && exists i :: 0 <= i < |schema| && Owner(schema[i], rows, b) == Some(a)
  }

  ghost predicate Closed(schema: Schema, rows: Rows, d: set<Node>) {
    forall a, b :: a in d && Edge(schema, rows, a, b) ==> b in d
  }

  /** c is the least set that holds the start and is closed under CASCADE. */
  ghost predicate IsClosure(schema: Schema, rows: Rows, start: set<Node>, c: set<Node>) {
    && start <= c
    && Closed(schema, rows, c)
    && forall d: set<Node> :: start <= d && Closed(schema, rows, d) ==> c <= d
  }

  /** What the references before index j cascade to from the start. */
  ghost function Kids(schema: Schema, rows: Rows, start: set<Node>, j: nat): set<Node>
    requires j <= |schema|
  {
    set n | n in rows
      && exists i :: 0 <= i < j && Owner(schema[i], rows, n).Some? && Owner(schema[i], rows, n).value in start
  }

  /** Ranks below `bound` that fall along every CASCADE edge leaving c. */
  ghost predicate IsRank(schema: Schema, rows: Rows, c: set<Node>, rank: map<Node, nat>, bound: nat) {
    && c <= rank.Keys
    && (forall n :: n in rank ==> rank[n] < bound)
    && forall a, b :: a in c && Edge(schema, rows, a, b) ==> b in rank && rank[b] < rank[a]
  }

  ghost predicate IsChain(schema: Schema, rows: Rows, chain: seq<Node>) {
    forall k :: 0 <= k < |chain| - 1 ==> Edge(schema, rows, chain[k], chain[k + 1])
  }

  // ------------------------------------------- what happens to a survivor

  function RefIndex(schema: Schema, entity: string, column: string): (r: Option<nat>)
    ensures r.Some? ==> r.value < |schema| && schema[r.value].child == entity && schema[r.value].column == column
    ensures r.None? ==> forall i :: 0 <= i < |schema| ==> schema[i].child != entity || schema[i].column != column
  {
    if schema == [] then None
    else
      var n := |schema| - 1;
      if schema[n].child == entity && schema[n].column == column then Some(n)
      else RefIndex(schema[..n], entity, column)
  }

  /** Reference i to id v points into c, or into the start if i is before j. */
  ghost predicate Dead(schema: Schema, i: nat, v: Id, c: set<Node>, start: set<Node>, j: nat)
    requires i < |schema|
  {
    Node(schema[i].parent, v) in c || (Node(schema[i].parent, v) in start && i < j)
  }

  /** A value after its dead reference was nulled or defaulted. */
  ghost function Settled(schema: Schema, entity: string, column: string, v: Option<Id>, c: set<Node>,
      start: set<Node>, j: nat): Option<Id> {
    var i := RefIndex(schema, entity, column);
    if i.Some? && v.Some? && Dead(schema, i.value, v.value, c, start, j) then
      match schema[i.value].onDelete
      case SET_NULL => None
      case SET_DEFAULT => if schema[i.value].fallback.Some? then schema[i.value].fallback.value else v
      case _ => v
    else v
  }

  ghost function SettledRow(schema: Schema, entity: string, row: Row, c: set<Node>, start: set<Node>, j: nat): Row {
    map column | column in row :: Settled(schema, entity, column, row[column], c, start, j)
  }

  /** `rows` is `was` without c, dead references settled. */
  ghost predicate Remaining(schema: Schema, was: Rows, rows: Rows, c: set<Node>, start: set<Node>, j: nat) {
    && rows.Keys == was.Keys - c
    && forall n :: n in rows ==> rows[n] == SettledRow(schema, n.entity, was[n], c, start, j)
  }

  /** No listed record holds a dead RESTRICT reference, or a dead SET DEFAULT
      reference without a default. */
  ghost predicate Unblocked(schema: Schema, was: Rows, live: set<Node>, c: set<Node>, start: set<Node>, j: nat) {
    forall n, i :: n in live && n in was && 0 <= i < |schema| && schema[i].child == n.entity
      && (schema[i].onDelete == RESTRICT || (schema[i].onDelete == SET_DEFAULT && schema[i].fallback.None?))
      && Value(was, n, schema[i].column).Some?
      ==> !Dead(schema, i, Value(was, n, schema[i].column).value, c, start, j)
  }

  /** The state after the references before j were followed from `start`; c is
      gone and the ranks witness that the rows of c had no CASCADE cycle. */
  ghost predicate Progress(schema: Schema, was: Rows, rows: Rows, start: set<Node>, c: set<Node>, j: nat,
      rank: map<Node, nat>, bound: nat)
    requires j <= |schema|
  {
    && IsClosure(schema, was, Kids(schema, was, start, j), c)
    && Remaining(schema, was, rows, c, start, j)
    && Unblocked(schema, was, rows.Keys, c, start, j)
    && IsRank(schema, was, c, rank, bound)
  }

  ghost predicate Deleted(schema: Schema, was: Rows, rows: Rows, start: set<Node>, c: set<Node>) {
    && IsClosure(schema, was, start, c)
    && Remaining(schema, was, rows, c, {}, 0)
    && Unblocked(schema, was, rows.Keys, c, {}, 0)
  }

  // ------------------------------------------------------------- lemmas

  lemma {:induction false} RefIndexUnique(schema: Schema, i: nat)
    requires WellFormed(schema) && i < |schema|
    ensures RefIndex(schema, schema[i].child, schema[i].column) == Some(i)
  {
  }

  lemma SettledValue(schema: Schema, rows: Rows, was: Rows, n: Node, column: string, c: set<Node>,
      start: set<Node>, j: nat)
    requires Remaining(schema, was, rows, c, start, j) && n in rows
    ensures Value(rows, n, column) == Settled(schema, n.entity, column, Value(was, n, column), c, start, j)
  {
  }

  /** CASCADE columns are never settled, so the row graph only shrinks. */
  lemma OwnerKept(schema: Schema, rows: Rows, was: Rows, n: Node, i: nat, c: set<Node>, start: set<Node>, j: nat)
    requires WellFormed(schema) && i < |schema|
    requires Remaining(schema, was, rows, c, start, j) && n in rows
    ensures Owner(schema[i], rows, n) == Owner(schema[i], was, n)
  {
  }

  lemma EdgesKept(schema: Schema, rows: Rows, was: Rows, c: set<Node>, start: set<Node>, j: nat)
    requires WellFormed(schema) && Remaining(schema, was, rows, c, start, j)
    ensures forall a, b :: Edge(schema, rows, a, b) <==> b in rows && Edge(schema, was, a, b)
  {
  }

  /** Following one more batch of children: closures add up. */
  lemma ClosureGrows(schema: Schema, was: Rows, rows: Rows, k0: set<Node>, c: set<Node>, more: set<Node>,
      batch: set<Node>, c1: set<Node>, start: set<Node>, j: nat)
    requires WellFormed(schema) && Remaining(schema, was, rows, c, start, j)
    requires IsClosure(schema, was, k0, c)
    requires batch == more - c && more <= was.Keys
    requires IsClosure(schema, rows, batch, c1)
    ensures IsClosure(schema, was, k0 + more, c + c1)
  {
    EdgesKept(schema, rows, was, c, start, j);
    forall a, b | a in c + c1 && Edge(schema, was, a, b) ensures b in c + c1 {
      if a !in c && b !in c {
        assert Edge(schema, rows, a, b);
      }
    }
    forall d: set<Node> | k0 + more <= d && Closed(schema, was, d) ensures c + c1 <= d {
      assert Closed(schema, rows, d);
    }
  }

  lemma RankGrows(schema: Schema, was: Rows, rows: Rows, c: set<Node>, c1: set<Node>, rank: map<Node, nat>,
      bound: nat, rank1: map<Node, nat>, bound1: nat, start: set<Node>, j: nat)
    returns (joint: map<Node, nat>)
    requires WellFormed(schema) && Remaining(schema, was, rows, c, start, j)
    requires Closed(schema, was, c) && IsRank(schema, was, c, rank, bound)
    requires Closed(schema, rows, c1) && IsRank(schema, rows, c1, rank1, bound1)
    ensures IsRank(schema, was, c + c1, joint, bound + bound1)
  {
    EdgesKept(schema, rows, was, c, start, j);
    joint := map n | n in c + c1 :: if n in c then rank[n] else bound + rank1[n];
    forall a, b | a in c + c1 && Edge(schema, was, a, b) ensures b in joint && joint[b] < joint[a] {
      if a in c {
        assert b in c;
      } else if b !in c {
        assert Edge(schema, rows, a, b);
      }
    }
  }

  ghost predicate RefersInto(ref: Ref, rows: Rows, n: Node, start: set<Node>)
    requires n in rows
  {
    ref.child == n.entity && Value(rows, n, ref.column).Some?
      && Node(ref.parent, Value(rows, n, ref.column).value) in start
  }

  ghost function Referrers(ref: Ref, rows: Rows, start: set<Node>): set<Node> {
    set n | n in rows && RefersInto(ref, rows, n, start)
  }

  lemma StartProgress(schema: Schema, was: Rows, start: set<Node>, j: nat)
    requires j <= |schema| && (j == 0 || start == {})
    ensures Progress(schema, was, was, start, {}, j, map[], 0)
  {
  }

  lemma KidsGrow(schema: Schema, was: Rows, start: set<Node>, j: nat)
    requires j < |schema|
    ensures Kids(schema, was, start, j + 1) ==
      Kids(schema, was, start, j) + if schema[j].onDelete == CASCADE then Referrers(schema[j], was, start) else {}
  {
  }

  /** Raising j by one settles nothing but reference j. */
  lemma SettledNext(schema: Schema, entity: string, column: string, v: Option<Id>, c: set<Node>,
      start: set<Node>, j: nat)
    requires WellFormed(schema) && j < |schema|
    ensures Settled(schema, entity, column, v, c, start, j + 1) == Settled(schema, entity, column, v, c, start, j)
      || (schema[j].child == entity && schema[j].column == column && v.Some? && Node(schema[j].parent, v.value) in start
          && Settled(schema, entity, column, v, c, start, j) == v)
  {
  }

  /** Reference j has no referrer left: there is nothing to do. */
  lemma SkipStep(schema: Schema, was: Rows, rows: Rows, start: set<Node>, c: set<Node>, j: nat,
      rank: map<Node, nat>, bound: nat)
    requires WellFormed(schema) && j < |schema|
    requires Progress(schema, was, rows, start, c, j, rank, bound)
    requires Referrers(schema[j], rows, start) == {}
    ensures Progress(schema, was, rows, start, c, j + 1, rank, bound)
  {
    KidsGrow(schema, was, start, j);
    forall n | n in rows
      ensures !RefersInto(schema[j], rows, n, start)
      ensures SettledRow(schema, n.entity, was[n], c, start, j + 1) == SettledRow(schema, n.entity, was[n], c, start, j)
    {
      assert n !in Referrers(schema[j], rows, start);
      forall column | column in was[n]
        ensures Settled(schema, n.entity, column, was[n][column], c, start, j + 1)
          == Settled(schema, n.entity, column, was[n][column], c, start, j)
      {
        SettledNext(schema, n.entity, column, was[n][column], c, start, j);
        SettledValue(schema, rows, was, n, column, c, start, j);
      }
    }
    if schema[j].onDelete == CASCADE {
      forall n | n in Referrers(schema[j], was, start) ensures n in c {
        if n in rows {
          OwnerKept(schema, rows, was, n, j, c, start, j);
        }
      }
    }
    UnblockedNext(schema, was, rows, c, start, j);
  }

  lemma UnblockedNext(schema: Schema, was: Rows, rows: Rows, c: set<Node>, start: set<Node>, j: nat)
    requires WellFormed(schema) && j < |schema|
    requires Remaining(schema, was, rows, c, start, j) && Unblocked(schema, was, rows.Keys, c, start, j)
    requires schema[j].onDelete == RESTRICT || (schema[j].onDelete == SET_DEFAULT && schema[j].fallback.None?)
      ==> forall n :: n in rows ==> !RefersInto(schema[j], rows, n, start)
    ensures Unblocked(schema, was, rows.Keys, c, start, j + 1)
  {
  }

  function Assigned(rows: Rows, nodes: set<Node>, column: string, v: Option<Id>): Rows {
    map n | n in rows :: if n in nodes then rows[n][column := v] else rows[n]
  }

  /** Reference j sets the column to v. */
  predicate Assigns(ref: Ref, v: Option<Id>) {
    (ref.onDelete == SET_NULL && v == None) || (ref.onDelete == SET_DEFAULT && ref.fallback == Some(v))
  }

  lemma AssignedRow(schema: Schema, was: Rows, rows: Rows, start: set<Node>, c: set<Node>, j: nat, v: Option<Id>,
      n: Node)
    requires WellFormed(schema) && j < |schema| && Assigns(schema[j], v)
    requires Remaining(schema, was, rows, c, start, j) && n in rows
    ensures Assigned(rows, Referrers(schema[j], rows, start), schema[j].column, v)[n]
      == SettledRow(schema, n.entity, was[n], c, start, j + 1)
  {
    var column := schema[j].column;
    var now := Assigned(rows, Referrers(schema[j], rows, start), column, v)[n];
    var row := SettledRow(schema, n.entity, was[n], c, start, j + 1);
    RefIndexUnique(schema, j);
    SettledValue(schema, rows, was, n, column, c, start, j);
    assert n in Referrers(schema[j], rows, start) <==> RefersInto(schema[j], rows, n, start);
    forall k | k in was[n] ensures now[k] == row[k] {
      SettledNext(schema, n.entity, k, was[n][k], c, start, j);
    }
    assert now.Keys == row.Keys;
  }

  /** SET NULL, or SET DEFAULT with a default: reference j is settled in place. */
  lemma AssignStep(schema: Schema, was: Rows, rows: Rows, start: set<Node>, c: set<Node>, j: nat,
      rank: map<Node, nat>, bound: nat, v: Option<Id>)
    requires WellFormed(schema) && j < |schema| && Assigns(schema[j], v)
    requires Progress(schema, was, rows, start, c, j, rank, bound)
    ensures Progress(schema, was, Assigned(rows, Referrers(schema[j], rows, start), schema[j].column, v),
      start, c, j + 1, rank, bound)
  {
    var after := Assigned(rows, Referrers(schema[j], rows, start), schema[j].column, v);
    KidsGrow(schema, was, start, j);
    forall n | n in after ensures after[n] == SettledRow(schema, n.entity, was[n], c, start, j + 1) {
      AssignedRow(schema, was, rows, start, c, j, v, n);
    }
    UnblockedNext(schema, was, rows, c, start, j);
  }

  /** CASCADE: the referrers and all they take along are gone. */
  lemma CascadeStep(schema: Schema, was: Rows, rows: Rows, after: Rows, start: set<Node>, c: set<Node>,
      c1: set<Node>, j: nat, rank: map<Node, nat>, bound: nat, rank1: map<Node, nat>, bound1: nat)
    returns (joint: map<Node, nat>)
    requires WellFormed(schema) && j < |schema| && schema[j].onDelete == CASCADE
    requires Progress(schema, was, rows, start, c, j, rank, bound)
    requires Deleted(schema, rows, after, Referrers(schema[j], rows, start), c1)
      && IsRank(schema, rows, c1, rank1, bound1)
    ensures Progress(schema, was, after, start, c + c1, j + 1, joint, bound + bound1)
  {
    var batch, more := Referrers(schema[j], rows, start), Referrers(schema[j], was, start);
    KidsGrow(schema, was, start, j);
    forall n | n in rows ensures n in batch <==> n in more {
      OwnerKept(schema, rows, was, n, j, c, start, j);
    }
    assert batch == more - c;
    ClosureGrows(schema, was, rows, Kids(schema, was, start, j), c, more, batch, c1, start, j);
    joint := RankGrows(schema, was, rows, c, c1, rank, bound, rank1, bound1, start, j);
    CascadeRemaining(schema, was, rows, after, start, c, c1, j);
    CascadeUnblocked(schema, was, rows, after, start, c, c1, j);
  }

  /** Settling twice is settling once against both sets. */
  lemma SettledTwice(schema: Schema, entity: string, column: string, v: Option<Id>, c: set<Node>,
      c1: set<Node>, start: set<Node>, j: nat)
    requires WellFormed(schema) && j < |schema| && schema[j].onDelete == CASCADE
    ensures var once := Settled(schema, entity, column, v, c, start, j);
      Settled(schema, entity, column, once, c1, {}, 0) == Settled(schema, entity, column, v, c + c1, start, j + 1)
  {
  }

  lemma CascadeRemaining(schema: Schema, was: Rows, rows: Rows, after: Rows, start: set<Node>, c: set<Node>,
      c1: set<Node>, j: nat)
    requires WellFormed(schema) && j < |schema| && schema[j].onDelete == CASCADE
    requires Remaining(schema, was, rows, c, start, j) && Remaining(schema, rows, after, c1, {}, 0)
    ensures Remaining(schema, was, after, c + c1, start, j + 1)
  {
    forall n | n in after ensures after[n] == SettledRow(schema, n.entity, was[n], c + c1, start, j + 1) {
      forall column | column in was[n]
        ensures after[n][column] == Settled(schema, n.entity, column, was[n][column], c + c1, start, j + 1)
      {
        SettledTwice(schema, n.entity, column, was[n][column], c, c1, start, j);
      }
    }
  }

  lemma CascadeUnblocked(schema: Schema, was: Rows, rows: Rows, after: Rows, start: set<Node>, c: set<Node>,
      c1: set<Node>, j: nat)
    requires WellFormed(schema) && j < |schema| && schema[j].onDelete == CASCADE
    requires Remaining(schema, was, rows, c, start, j) && after.Keys <= rows.Keys
    requires Unblocked(schema, was, rows.Keys, c, start, j) && Unblocked(schema, rows, after.Keys, c1, {}, 0)
    ensures Unblocked(schema, was, after.Keys, c + c1, start, j + 1)
  {
  }

  /** At last the start itself is popped. */
  lemma PopStep(schema: Schema, was: Rows, rows: Rows, start: set<Node>, c: set<Node>, rank: map<Node, nat>,
      bound: nat)
    returns (full: map<Node, nat>)
    requires Progress(schema, was, rows, start, c, |schema|, rank, bound)
    ensures Deleted(schema, was, rows - start, start, c + start)
    ensures IsRank(schema, was, c + start, full, bound + 1)
  {
    var all := c + start;
    full := map n | n in all :: if n in c then rank[n] else bound;
    var after := rows - start;
    assert forall a, b :: a in start && Edge(schema, was, a, b) ==> b in Kids(schema, was, start, |schema|);
    forall d: set<Node> | start <= d && Closed(schema, was, d) ensures all <= d {
      forall n | n in Kids(schema, was, start, |schema|) ensures n in d {
        var i :| 0 <= i < |schema| && Owner(schema[i], was, n).Some? && Owner(schema[i], was, n).value in start;
        assert Edge(schema, was, Owner(schema[i], was, n).value, n);
      }
    }
    forall n | n in after ensures after[n] == SettledRow(schema, n.entity, was[n], all, {}, 0) {
      var row := SettledRow(schema, n.entity, was[n], all, {}, 0);
      assert after[n].Keys == row.Keys;
    }
  }

  // ------------------------------------------------------- when it fails

  /** A reference of this kind points at the target: RESTRICT, or SET DEFAULT
      on a column without a default. */
  ghost predicate Blocks(schema: Schema, rows: Rows, target: Node, e: Error) {
    exists n, i :: n in rows && 0 <= i < |schema| && RefersInto(schema[i], rows, n, {target})
      && (if e == Conflict then schema[i].onDelete == RESTRICT
          else schema[i].onDelete == SET_DEFAULT && schema[i].fallback.None?)
  }

  /** Why a delete failed: a CASCADE chain from the start that is too deep for
      the interpreter, or one that ends at a blocked record. */
  ghost predicate Explains(schema: Schema, rows: Rows, start: set<Node>, e: Error, fuel: nat, chain: seq<Node>) {
    && |chain| >= 1 && chain[0] in start && IsChain(schema, rows, chain)
    && (if e == RecursionLimit then |chain| == fuel + 2 else Blocks(schema, rows, chain[|chain| - 1], e))
  }

  lemma BlockedHere(schema: Schema, was: Rows, rows: Rows, start: set<Node>, c: set<Node>, j: nat, e: Error,
      fuel: nat)
    returns (chain: seq<Node>)
    requires WellFormed(schema) && j < |schema| && Remaining(schema, was, rows, c, start, j)
    requires Referrers(schema[j], rows, start) != {}
    requires (e == Conflict && schema[j].onDelete == RESTRICT)
      || (e == NoDefault && schema[j].onDelete == SET_DEFAULT && schema[j].fallback.None?)
    ensures Explains(schema, was, start, e, fuel, chain)
  {
    var n :| n in Referrers(schema[j], rows, start);
    RefIndexUnique(schema, j);
    SettledValue(schema, rows, was, n, schema[j].column, c, start, j);
    var target := Node(schema[j].parent, Value(rows, n, schema[j].column).value);
    assert RefersInto(schema[j], was, n, {target});
    chain := [target];
  }

  lemma TooDeepHere(schema: Schema, was: Rows, rows: Rows, start: set<Node>, c: set<Node>, j: nat)
    returns (chain: seq<Node>)
    requires WellFormed(schema) && j < |schema| && schema[j].onDelete == CASCADE
      && Remaining(schema, was, rows, c, start, j)
    requires Referrers(schema[j], rows, start) != {}
    ensures Explains(schema, was, start, RecursionLimit, 0, chain)
  {
    var n :| n in Referrers(schema[j], rows, start);
    OwnerKept(schema, rows, was, n, j, c, start, j);
    chain := [Owner(schema[j], was, n).value, n];
    assert Edge(schema, was, chain[0], n);
  }

  /** Blocking columns are never settled while their target lives. */
  lemma BlocksKept(schema: Schema, was: Rows, rows: Rows, start: set<Node>, c: set<Node>, j: nat, target: Node,
      e: Error)
    requires WellFormed(schema) && Remaining(schema, was, rows, c, start, j)
    requires Blocks(schema, rows, target, e)
    ensures Blocks(schema, was, target, e)
  {
  }

  lemma ChainKept(schema: Schema, was: Rows, rows: Rows, start: set<Node>, c: set<Node>, j: nat, owner: Node,
      chain: seq<Node>)
    requires WellFormed(schema) && Remaining(schema, was, rows, c, start, j)
    requires |chain| >= 1 && IsChain(schema, rows, chain) && Edge(schema, was, owner, chain[0])
    ensures IsChain(schema, was, [owner] + chain)
  {
  }

  lemma ExplainDeeper(schema: Schema, was: Rows, rows: Rows, start: set<Node>, c: set<Node>, j: nat, e: Error,
      fuel: nat, chain: seq<Node>)
    returns (longer: seq<Node>)
    requires WellFormed(schema) && j < |schema| && schema[j].onDelete == CASCADE
      && Remaining(schema, was, rows, c, start, j)
    requires Explains(schema, rows, Referrers(schema[j], rows, start), e, fuel, chain)
    ensures Explains(schema, was, start, e, fuel + 1, longer)
  {
    var n := chain[0];
    OwnerKept(schema, rows, was, n, j, c, start, j);
    var owner := Owner(schema[j], was, n).value;
    assert Edge(schema, was, owner, n);
    ChainKept(schema, was, rows, start, c, j, owner, chain);
    longer := [owner] + chain;
    if e != RecursionLimit {
      BlocksKept(schema, was, rows, start, c, j, chain[|chain| - 1], e);
    }
  }

  /** Acyclic rows: nothing is taken along by its own deletion. */
  lemma NotBelowItself(schema: Schema, rows: Rows, n: Node, c: set<Node>, below: set<Node>,
      rank: map<Node, nat>, bound: nat)
    requires IsClosure(schema, rows, {n}, c) && IsRank(schema, rows, c, rank, bound)
    requires IsClosure(schema, rows, Kids(schema, rows, {n}, |schema|), below)
    ensures n !in below
  {
    var lower := set m | m in c && rank[m] < rank[n];
    forall m | m in Kids(schema, rows, {n}, |schema|) ensures m in lower {
      assert Edge(schema, rows, n, m);
    }
    assert Closed(schema, rows, lower);
  }

  // ----------------------------------------------------------- the backend

  /** What a run leaves for the proof: the records gone, those taken along by
      the children, ranks of the acyclic row graph, and a chain on failure. */
  datatype Trace = Trace(gone: set<Node>, below: set<Node>, rank: map<Node, nat>, bound: nat, chain: seq<Node>)

  function Nodes(entity: string, ids: set<Id>): set<Node> {
    set id | id in ids :: Node(entity, id)
  }

  class MemoryBackend {
    const schema: Schema
    var rows: Rows

    constructor (schema: Schema)
      ensures this.schema == schema && rows == map[]
    {
      this.schema := schema;
      rows := map[];
    }

    /** `_cascade`; `fuel` is how many nested deletes the interpreter's stack
        still has room for. */
    method CascadeFrom(parent: string, ids: set<Id>, fuel: nat) returns (error: Option<Error>, ghost t: Trace)
      requires WellFormed(schema)
      modifies this`rows
      ensures error.None? ==> Progress(schema, old(rows), rows, Nodes(parent, ids), t.gone, |schema|, t.rank, t.bound)
      ensures error.Some? ==> Explains(schema, old(rows), Nodes(parent, ids), error.value, fuel, t.chain)
      decreases fuel, 2
    {
      ghost var was, start := rows, Nodes(parent, ids);
      t := Trace({}, {}, map[], 0, []);
      var first := if ids == {} then |schema| else 0;
      StartProgress(schema, was, start, first) by {
        assert ids == {} ==> start == {};
      }
      for j := first to |schema|
        invariant Progress(schema, was, rows, start, t.gone, j, t.rank, t.bound)
      {
        error, t := ApplyRef(parent, ids, j, fuel, was, t);
        if error.Some? {
          return;
        }
      }
      return None, t;
    }

    /** One turn of the loop over `_children_of(parent)`. */
    method ApplyRef(parent: string, ids: set<Id>, j: nat, fuel: nat, ghost was: Rows, ghost t0: Trace)
      returns (error: Option<Error>, ghost t: Trace)
      requires WellFormed(schema) && j < |schema|
      requires Progress(schema, was, rows, Nodes(parent, ids), t0.gone, j, t0.rank, t0.bound)
      modifies this`rows
      ensures error.None? ==> Progress(schema, was, rows, Nodes(parent, ids), t.gone, j + 1, t.rank, t.bound)
      ensures error.Some? ==> Explains(schema, was, Nodes(parent, ids), error.value, fuel, t.chain)
      decreases fuel, 1
    {
      ghost var start := Nodes(parent, ids);
      t := t0;
      var ref := schema[j];
      var kids := set n | n in rows && ref.parent == parent && ref.child == n.entity
        && Value(rows, n, ref.column).Some? && Value(rows, n, ref.column).value in ids;
      assert kids == Referrers(ref, rows, start);
      if kids == {} {
        SkipStep(schema, was, rows, start, t.gone, j, t.rank, t.bound);
        return None, t;
      }
      match ref.onDelete {
        case CASCADE =>
          error, t := CascadeBatch(j, kids, fuel, was, start, t0);
        case SET_NULL =>
          AssignStep(schema, was, rows, start, t.gone, j, t.rank, t.bound, None);
          SetColumn(kids, ref.column, None);
          error := None;
        case SET_DEFAULT =>
          if ref.fallback.None? {
            ghost var chain := BlockedHere(schema, was, rows, start, t.gone, j, NoDefault, fuel);
            return Some(NoDefault), t.(chain := chain);
          }
          AssignStep(schema, was, rows, start, t.gone, j, t.rank, t.bound, ref.fallback.value);
          SetColumn(kids, ref.column, ref.fallback.value);
          error := None;
        case RESTRICT =>
          ghost var chain := BlockedHere(schema, was, rows, start, t.gone, j, Conflict, fuel);
          return Some(Conflict), t.(chain := chain);
      }
    }

    method CascadeBatch(j: nat, kids: set<Node>, fuel: nat, ghost was: Rows, ghost start: set<Node>, ghost t0: Trace)
      returns (error: Option<Error>, ghost t: Trace)
      requires WellFormed(schema) && j < |schema| && schema[j].onDelete == CASCADE
      requires Progress(schema, was, rows, start, t0.gone, j, t0.rank, t0.bound)
      requires kids == Referrers(schema[j], rows, start) && kids != {}
      modifies this`rows
      ensures error.None? ==> Progress(schema, was, rows, start, t.gone, j + 1, t.rank, t.bound)
      ensures error.Some? ==> Explains(schema, was, start, error.value, fuel, t.chain)
      decreases fuel, 0
    {
      t := t0;
      ghost var before := rows;
      if fuel == 0 {
        ghost var chain := TooDeepHere(schema, was, rows, start, t.gone, j);
        return Some(RecursionLimit), t.(chain := chain);
      }
      var kidIds := set n | n in kids :: n.id;
      assert Nodes(schema[j].child, kidIds) == kids;
      var removed;
      ghost var inner;
      removed, inner := DeleteWhereIds(schema[j].child, kidIds, fuel - 1);
      if removed.Failure? {
        ghost var chain := ExplainDeeper(schema, was, before, start, t.gone, j, removed.error, fuel - 1, inner.chain);
        return Some(removed.error), t.(chain := chain);
      }
      ghost var rank := CascadeStep(schema, was, before, rows, start, t.gone, inner.gone, j, t.rank, t.bound,
        inner.rank, inner.bound);
      return None, Trace(t.gone + inner.gone, {}, rank, t.bound + inner.bound, []);
    }

    method SetColumn(nodes: set<Node>, column: string, v: Option<Id>)
      modifies this`rows
      ensures rows == Assigned(old(rows), nodes, column, v)
    {
      var left := nodes;
      while left != {}
        invariant left <= nodes && rows == Assigned(old(rows), nodes - left, column, v)
        decreases left
      {
        var n :| n in left;
        left := left - {n};
        if n in rows {
          rows := rows[n := rows[n][column := v]];
        }
      }
      assert nodes - left == nodes;
    }

    /** `delete_where_ids`. On success exactly the CASCADE closure of the ids,
        taken on the starting state, is gone, every survivor's dead reference is
        settled, and none is blocked. The count is that of the given ids
        which no other victim had taken along before they were popped. */
    method DeleteWhereIds(entity: string, ids: set<Id>, fuel: nat)
      returns (removed: Result<nat, Error>, ghost t: Trace)
      requires WellFormed(schema)
      modifies this`rows
      ensures removed.Success? ==>
        && Deleted(schema, old(rows), rows, Nodes(entity, ids), t.gone)
        && IsRank(schema, old(rows), t.gone, t.rank, t.bound)
        && IsClosure(schema, old(rows), Kids(schema, old(rows), Nodes(entity, ids), |schema|), t.below)
        && removed.value == |Nodes(entity, ids) * (old(rows).Keys - t.below)|
      ensures removed.Failure? ==> Explains(schema, old(rows), Nodes(entity, ids), removed.error, fuel, t.chain)
      decreases fuel, 3
    {
      ghost var start, was := Nodes(entity, ids), rows;
      var error;
      error, t := CascadeFrom(entity, ids, fuel);
      if error.Some? {
        return Failure(error.value), t;
      }
      ghost var after := rows;
      var count := PopAll(Nodes(entity, ids));
      ghost var full := PopStep(schema, was, after, start, t.gone, t.rank, t.bound);
      t := Trace(t.gone + start, t.gone, full, t.bound + 1, []);
      return Success(count), t;
    }

    method PopAll(victims: set<Node>) returns (count: nat)
      modifies this`rows
      ensures rows == old(rows) - victims
      ensures count == |victims * old(rows).Keys|
    {
      count := 0;
      ghost var was, done: set<Node> := rows, {};
      var left := victims;
      while left != {}
        invariant done + left == victims && done !! left
        invariant Popped(was, done, rows, count)
        decreases left
      {
        var n :| n in left;
        OneMorePopped(was, done, rows, count, n);
        left, done := left - {n}, done + {n};
        if n in rows {
          rows := rows - {n};
          count := count + 1;
        }
      }
      assert done == victims;
    }

    /** `delete`: whether a record with this id was there and is gone. */
    method Delete(entity: string, id: Id, fuel: nat) returns (found: Result<bool, Error>, ghost t: Trace)
      requires WellFormed(schema)
      modifies this`rows
      ensures found.Success? ==> found.value == (Node(entity, id) in old(rows))
      ensures found == Success(true) ==> Deleted(schema, old(rows), rows, {Node(entity, id)}, t.gone)
      ensures found == Success(false) ==> rows == old(rows)
      ensures found.Failure? ==> Explains(schema, old(rows), {Node(entity, id)}, found.error, fuel, t.chain)
    {
      if Node(entity, id) !in rows {
        return Success(false), Trace({}, {}, map[], 0, []);
      }
      assert Nodes(entity, {id}) == {Node(entity, id)};
      var removed;
      ghost var was := rows;
      removed, t := DeleteWhereIds(entity, {id}, fuel);
      if removed.Failure? {
        return Failure(removed.error), t;
      }
      NotBelowItself(schema, was, Node(entity, id), t.gone, t.below, t.rank, t.bound);
      return Success(removed.value > 0), t;
    }
  }

  ghost predicate Popped(was: Rows, done: set<Node>, rows: Rows, count: nat) {
    rows == was - done && count == |done * was.Keys|
  }

  lemma OneMorePopped(was: Rows, done: set<Node>, rows: Rows, count: nat, n: Node)
    requires Popped(was, done, rows, count) && n !in done
    ensures if n in rows then Popped(was, done + {n}, rows - {n}, count + 1) else Popped(was, done + {n}, rows, count)
  {
    OneMoreGone(was, done, n);
    OneMoreCounted(was.Keys, done, n);
  }

  lemma OneMoreGone(was: Rows, done: set<Node>, n: Node)
    ensures was - (done + {n}) == (was - done) - {n}
    ensures n !in was ==> was - (done + {n}) == was - done
  {
  }

  lemma OneMoreCounted(live: set<Node>, done: set<Node>, n: Node)
    requires n !in done
    ensures |(done + {n}) * live| == |done * live| + if n in live then 1 else 0
  {
    if n in live {
      assert (done + {n}) * live == done * live + {n};
    } else {
      assert (done + {n}) * live == done * live;
    }
  }

  // --------------------------------------------------------- main results

  lemma {:induction false} ChainFallsInRank(schema: Schema, rows: Rows, c: set<Node>, rank: map<Node, nat>,
      bound: nat, chain: seq<Node>)
    requires Closed(schema, rows, c) && IsRank(schema, rows, c, rank, bound)
    requires |chain| >= 1 && chain[0] in c && IsChain(schema, rows, chain)
    ensures chain[|chain| - 1] in c && rank[chain[|chain| - 1]] + |chain| - 1 <= rank[chain[0]]
  {
    if |chain| > 1 {
      assert Edge(schema, rows, chain[0], chain[1]);
      forall k | 0 <= k < |chain[1..]| - 1 ensures Edge(schema, rows, chain[1..][k], chain[1..][k + 1]) {
        assert Edge(schema, rows, chain[k + 1], chain[k + 2]);
      }
      ChainFallsInRank(schema, rows, c, rank, bound, chain[1..]);
    }
  }

  /** A delete can only succeed when no record of the closure lies on a CASCADE
      cycle: a success leaves ranks, and ranks forbid cycles. */
  lemma RanksForbidCycles(schema: Schema, rows: Rows, c: set<Node>, rank: map<Node, nat>, bound: nat,
      cycle: seq<Node>)
    requires Closed(schema, rows, c) && IsRank(schema, rows, c, rank, bound)
    requires |cycle| >= 2 && cycle[0] in c && IsChain(schema, rows, cycle)
    ensures cycle[0] != cycle[|cycle| - 1]
  {
    ChainFallsInRank(schema, rows, c, rank, bound, cycle);
  }

  /** No CASCADE chain that starts in c comes back to its first record. */
  ghost predicate Acyclic(schema: Schema, rows: Rows, c: set<Node>) {
    forall chain: seq<Node> :: |chain| >= 2 && chain[0] in c && IsChain(schema, rows, chain) ==>
      chain[0] != chain[|chain| - 1]
  }

  lemma {:induction false} DistinctFits(s: seq<Node>, c: set<Node>)
    requires Distinct(s) && forall i :: 0 <= i < |s| ==> s[i] in c
    ensures |s| <= |c|
  {
    if s != [] {
      var n := |s| - 1;
      DistinctFits(s[..n], c - {s[n]});
    }
  }

  /** An edge from a stays inside d. */
  ghost predicate GoesOn(schema: Schema, rows: Rows, d: set<Node>, a: Node) {
    exists b :: b in d && Edge(schema, rows, a, b)
  }

  lemma StepInside(schema: Schema, rows: Rows, d: set<Node>, a: Node) returns (b: Node)
    requires GoesOn(schema, rows, d, a)
    ensures b in d && Edge(schema, rows, a, b)
  {
    b :| b in d && Edge(schema, rows, a, b);
  }

  /** Following edges inside d for as long as one likes. */
  lemma {:induction false} WalkOn(schema: Schema, rows: Rows, d: set<Node>, first: Node, n: nat)
    returns (walk: seq<Node>)
    requires first in d && forall a {:trigger GoesOn(schema, rows, d, a)} :: a in d ==> GoesOn(schema, rows, d, a)
    ensures |walk| == n + 1 && IsChain(schema, rows, walk) && forall i :: 0 <= i <= n ==> walk[i] in d
  {
    if n == 0 {
      walk := [first];
    } else {
      var before := WalkOn(schema, rows, d, first, n - 1);
      assert GoesOn(schema, rows, d, before[n - 1]);
      var next := StepInside(schema, rows, d, before[n - 1]);
      walk := before + [next];
    }
  }

  /** A piece of a chain between two equal records is a cycle. */
  lemma CycleInWalk(schema: Schema, rows: Rows, c: set<Node>, walk: seq<Node>, i: nat, k: nat)
    requires IsChain(schema, rows, walk) && i < k < |walk| && walk[i] == walk[k] && walk[i] in c
    ensures !Acyclic(schema, rows, c)
  {
    var cycle := walk[i..k + 1];
    forall m | 0 <= m < |cycle| - 1 ensures Edge(schema, rows, cycle[m], cycle[m + 1]) {
      assert Edge(schema, rows, walk[i + m], walk[i + m + 1]);
    }
    assert |cycle| >= 2 && cycle[0] in c && IsChain(schema, rows, cycle) && cycle[0] == cycle[|cycle| - 1];
  }

  /** Pigeonhole: a walk longer than a finite set repeats a record, so a finite
      acyclic set has a record from which no edge stays inside. */
  lemma NoEndlessWalk(schema: Schema, rows: Rows, c: set<Node>, d: set<Node>)
    requires Acyclic(schema, rows, c) && d <= c && d != {}
    ensures exists a :: a in d && !GoesOn(schema, rows, d, a)
  {
    if forall a {:trigger GoesOn(schema, rows, d, a)} :: a in d ==> GoesOn(schema, rows, d, a) {
      var first :| first in d;
      var walk := WalkOn(schema, rows, d, first, |d|);
      if Distinct(walk) {
        DistinctFits(walk, d);
      }
      var i, k :| 0 <= i < k < |walk| && walk[i] == walk[k];
      CycleInWalk(schema, rows, c, walk, i, k);
    }
  }

  /** Ranks below |d| that fall along every edge inside d. */
  ghost predicate RanksInside(schema: Schema, rows: Rows, d: set<Node>, rank: map<Node, nat>) {
    && rank.Keys == d
    && (forall n :: n in d ==> rank[n] < |d|)
    && forall a, b :: a in d && b in d && Edge(schema, rows, a, b) ==> rank[b] < rank[a]
  }

  lemma {:induction false} RankWithin(schema: Schema, rows: Rows, c: set<Node>, d: set<Node>)
    returns (rank: map<Node, nat>)
    requires Acyclic(schema, rows, c) && d <= c
    ensures RanksInside(schema, rows, d, rank)
    decreases |d|
  {
    if d == {} {
      rank := map[];
    } else {
      NoEndlessWalk(schema, rows, c, d);
      var sink :| sink in d && !GoesOn(schema, rows, d, sink);
      var rest := d - {sink};
      var lower := RankWithin(schema, rows, c, rest);
      rank := map n | n in d :: if n == sink then 0 else lower[n] + 1;
      assert |rest| == |d| - 1;
    }
  }

  /** The records of a closure can be ranked exactly when no CASCADE chain in it
      is a cycle, and then by ranks below their number. */
  lemma AcyclicExactlyRanked(schema: Schema, rows: Rows, c: set<Node>)
    requires Closed(schema, rows, c)
    ensures Acyclic(schema, rows, c) <==> exists rank :: IsRank(schema, rows, c, rank, |c|)
    ensures forall rank, bound :: IsRank(schema, rows, c, rank, bound) ==> Acyclic(schema, rows, c)
  {
    if Acyclic(schema, rows, c) {
      var rank := RankWithin(schema, rows, c, c);
      assert IsRank(schema, rows, c, rank, |c|);
    }
    forall rank, bound | IsRank(schema, rows, c, rank, bound) ensures Acyclic(schema, rows, c) {
      forall chain: seq<Node> | |chain| >= 2 && chain[0] in c && IsChain(schema, rows, chain)
        ensures chain[0] != chain[|chain| - 1]
      {
        RanksForbidCycles(schema, rows, c, rank, bound, chain);
      }
    }
  }

  lemma {:induction false} ChainStaysInside(schema: Schema, rows: Rows, c: set<Node>, chain: seq<Node>)
    requires Closed(schema, rows, c) && |chain| >= 1 && chain[0] in c && IsChain(schema, rows, chain)
    ensures chain[|chain| - 1] in c
  {
    if |chain| > 1 {
      assert Edge(schema, rows, chain[0], chain[1]);
      forall k | 0 <= k < |chain[1..]| - 1 ensures Edge(schema, rows, chain[1..][k], chain[1..][k + 1]) {
        assert Edge(schema, rows, chain[k + 1], chain[k + 2]);
      }
      ChainStaysInside(schema, rows, c, chain[1..]);
    }
  }

  /** And it does succeed when no CASCADE chain from the start is as long as the
      stack is deep, and no RESTRICT reference or SET DEFAULT without a default
      points into the closure: then nothing could explain a failure. */
  lemma ShallowUnblockedSucceeds(schema: Schema, rows: Rows, start: set<Node>, c: set<Node>, e: Error,
      fuel: nat, chain: seq<Node>)
    requires IsClosure(schema, rows, start, c)
    requires forall deep :: IsChainFrom(schema, rows, start, deep) ==> |deep| < fuel + 2
    requires forall n :: n in c ==> !Blocks(schema, rows, n, Conflict) && !Blocks(schema, rows, n, NoDefault)
    ensures !Explains(schema, rows, start, e, fuel, chain)
  {
    if Explains(schema, rows, start, e, fuel, chain) {
      ChainStaysInside(schema, rows, c, chain);
      assert e == RecursionLimit ==> IsChainFrom(schema, rows, start, chain);
    }
  }

  /** If no CASCADE chain in the closure is a cycle, none is longer than the
      closure is large, so a stack of that depth is enough. */
  lemma AcyclicUnblockedSucceeds(schema: Schema, rows: Rows, start: set<Node>, c: set<Node>, e: Error,
      fuel: nat, chain: seq<Node>)
    requires IsClosure(schema, rows, start, c) && Acyclic(schema, rows, c) && |c| <= fuel + 1
    requires forall n :: n in c ==> !Blocks(schema, rows, n, Conflict) && !Blocks(schema, rows, n, NoDefault)
    ensures !Explains(schema, rows, start, e, fuel, chain)
  {
    var rank := RankWithin(schema, rows, c, c);
    forall deep | IsChainFrom(schema, rows, start, deep) ensures |deep| <= |c| {
      ChainFallsInRank(schema, rows, c, rank, |c|, deep);
    }
    ShallowUnblockedSucceeds(schema, rows, start, c, e, fuel, chain);
  }

  /** Every foreign key is NULL or points at a live record. */
  ghost predicate Intact(schema: Schema, rows: Rows) {
    forall n, i :: n in rows && 0 <= i < |schema| && schema[i].child == n.entity
      && Value(rows, n, schema[i].column).Some?
      ==> Node(schema[i].parent, Value(rows, n, schema[i].column).value) in rows
  }

  /** The defaults written by this delete are NULL or point at survivors. */
  ghost predicate DefaultsSurvive(schema: Schema, was: Rows, rows: Rows, c: set<Node>)
    requires rows.Keys <= was.Keys
  {
    forall n, i :: n in rows && 0 <= i < |schema| && schema[i].child == n.entity && schema[i].onDelete == SET_DEFAULT
      && Value(was, n, schema[i].column).Some? && Dead(schema, i, Value(was, n, schema[i].column).value, c, {}, 0)
      && schema[i].fallback.Some? && schema[i].fallback.value.Some?
      ==> Node(schema[i].parent, schema[i].fallback.value.value) in rows
  }

  /** After a successful delete no foreign key dangles, exactly when the defaults
      it wrote are themselves NULL or alive. */
  lemma DeleteKeepsIntegrity(schema: Schema, was: Rows, rows: Rows, start: set<Node>, c: set<Node>)
    requires WellFormed(schema) && Intact(schema, was) && Deleted(schema, was, rows, start, c)
    ensures Intact(schema, rows) <==> DefaultsSurvive(schema, was, rows, c)
  {
  }

  /** b is taken along when a goes: a CASCADE chain leads from a to b. */
  ghost predicate Leads(schema: Schema, rows: Rows, start: set<Node>, b: Node) {
    exists chain: seq<Node> :: IsChainFrom(schema, rows, start, chain) && chain[|chain| - 1] == b
  }

  ghost predicate IsChainFrom(schema: Schema, rows: Rows, start: set<Node>, chain: seq<Node>) {
    |chain| >= 2 && chain[0] in start && IsChain(schema, rows, chain)
  }

  lemma LeadsOn(schema: Schema, rows: Rows, start: set<Node>, a: Node, b: Node)
    requires Leads(schema, rows, start, a) && Edge(schema, rows, a, b)
    ensures Leads(schema, rows, start, b)
  {
    var chain: seq<Node> :| IsChainFrom(schema, rows, start, chain) && chain[|chain| - 1] == a;
    var longer := chain + [b];
    assert IsChainFrom(schema, rows, start, longer) && longer[|longer| - 1] == b;
  }

  lemma {:induction false} ChainStaysBelow(schema: Schema, rows: Rows, start: set<Node>, below: set<Node>,
      chain: seq<Node>)
    requires IsClosure(schema, rows, Kids(schema, rows, start, |schema|), below)
    requires IsChainFrom(schema, rows, start, chain)
    ensures chain[|chain| - 1] in below
    decreases |chain|
  {
    var n := |chain| - 1;
    assert Edge(schema, rows, chain[n - 1], chain[n]);
    if n == 1 {
      assert chain[1] in Kids(schema, rows, start, |schema|);
    } else {
      forall k | 0 <= k < n - 1 ensures Edge(schema, rows, chain[..n][k], chain[..n][k + 1]) {
        assert Edge(schema, rows, chain[k], chain[k + 1]);
      }
      ChainStaysBelow(schema, rows, start, below, chain[..n]);
    }
  }

  /** What lies below the start is exactly what CASCADE chains lead to. */
  lemma BelowIsLedTo(schema: Schema, rows: Rows, start: set<Node>, below: set<Node>)
    requires IsClosure(schema, rows, Kids(schema, rows, start, |schema|), below)
    ensures forall b :: b in below <==> Leads(schema, rows, start, b)
  {
    var led := set b | b in below && Leads(schema, rows, start, b);
    forall b | b in Kids(schema, rows, start, |schema|) ensures b in led {
      var i :| 0 <= i < |schema| && Owner(schema[i], rows, b).Some? && Owner(schema[i], rows, b).value in start;
      var chain := [Owner(schema[i], rows, b).value, b];
      assert Edge(schema, rows, chain[0], b);
      assert IsChainFrom(schema, rows, start, chain) && chain[|chain| - 1] == b;
    }
    forall a, b | a in led && Edge(schema, rows, a, b) ensures b in led {
      LeadsOn(schema, rows, start, a, b);
    }
    assert below <= led;
    forall b | Leads(schema, rows, start, b) ensures b in below {
      var chain: seq<Node> :| IsChainFrom(schema, rows, start, chain) && chain[|chain| - 1] == b;
      ChainStaysBelow(schema, rows, start, below, chain);
    }
  }

  /** The count of a delete is that of the live ids given, exactly when no CASCADE
      chain leads from one of them to another. */
  lemma CountIsExactIff(schema: Schema, was: Rows, start: set<Node>, below: set<Node>)
    requires IsClosure(schema, was, Kids(schema, was, start, |schema|), below)
    ensures |start * (was.Keys - below)| == |start * was.Keys|
      <==> forall b :: b in start ==> !Leads(schema, was, start, b)
  {
    BelowIsLedTo(schema, was, start, below);
    CountSplits(start, was.Keys, below);
    forall b | b in start && Leads(schema, was, start, b) ensures b in start * was.Keys && b in below {
      LedIsLive(schema, was, start, b);
    }
  }

  lemma LedIsLive(schema: Schema, rows: Rows, start: set<Node>, b: Node)
    requires Leads(schema, rows, start, b)
    ensures b in rows
  {
    var chain: seq<Node> :| IsChainFrom(schema, rows, start, chain) && chain[|chain| - 1] == b;
    assert Edge(schema, rows, chain[|chain| - 2], chain[|chain| - 1]);
  }

  lemma CountSplits(start: set<Node>, live: set<Node>, below: set<Node>)
    ensures |start * (live - below)| == |start * live| <==> start * live !! below
  {
    var all, counted := start * live, start * (live - below);
    assert counted == all - below && all == counted + all * below && counted !! all * below;
    assert |all| == |counted| + |all * below|;
  }

  /** Deleting a record and its child in one call removes two and reports one. */
  lemma CountFallsShort(schema: Schema, rows: Rows, top: Node, kid: Node)
    requires schema == [Ref("t", "up", "t", CASCADE, None)]
    requires top == Node("t", 1) && kid == Node("t", 2)
    requires rows == map[top := map["up" := None], kid := map["up" := Some(1)]]
    ensures IsClosure(schema, rows, Kids(schema, rows, {top, kid}, 1), {kid})
    ensures |{top, kid} * (rows.Keys - {kid})| == 1
  {
    assert Owner(schema[0], rows, kid) == Some(top) && Owner(schema[0], rows, top) == None;
    assert Kids(schema, rows, {top, kid}, 1) == {kid};
    assert {top, kid} * (rows.Keys - {kid}) == {top};
  }

  // --------------------------------------- a delete, in terms of the columns

  /** The record holds in this reference's column the id of a record of c. */
  predicate PointsInto(ref: Ref, rows: Rows, n: Node, c: set<Node>) {
    && n in rows && n.entity == ref.child && ref.column in rows[n] && rows[n][ref.column].Some?
    && Node(ref.parent, rows[n][ref.column].value) in c
  }

  /** Deleting a takes b along if b refers to a through a CASCADE column. */
  lemma EdgeIs(schema: Schema, rows: Rows, a: Node, b: Node)
    ensures Edge(schema, rows, a, b) <==>
      exists i :: 0 <= i < |schema| && schema[i].onDelete == CASCADE && PointsInto(schema[i], rows, b, {a})
  {
    forall i | 0 <= i < |schema| && b in rows
      ensures Owner(schema[i], rows, b) == Some(a) <==>
        schema[i].onDelete == CASCADE && PointsInto(schema[i], rows, b, {a})
    {
    }
  }

  /** What blocks a delete: a RESTRICT column, or one that is set to its default
      and has none. */
  lemma BlocksIs(schema: Schema, rows: Rows, target: Node)
    ensures Blocks(schema, rows, target, Conflict) <==>
      exists n, i :: 0 <= i < |schema| && schema[i].onDelete == RESTRICT && PointsInto(schema[i], rows, n, {target})
    ensures Blocks(schema, rows, target, NoDefault) <==>
      exists n, i :: 0 <= i < |schema| && schema[i].onDelete == SET_DEFAULT && schema[i].fallback == None
        && PointsInto(schema[i], rows, n, {target})
  {
    forall n, i | 0 <= i < |schema| && n in rows
      ensures RefersInto(schema[i], rows, n, {target}) <==> PointsInto(schema[i], rows, n, {target})
    {
    }
  }

  /** A success removes the given records and, with each record it removes, those
      that refer to it through a CASCADE column. */
  lemma GoneIs(schema: Schema, was: Rows, rows: Rows, start: set<Node>, c: set<Node>, n: Node, i: nat)
    requires Deleted(schema, was, rows, start, c) && i < |schema|
    ensures rows.Keys == was.Keys - c && start <= c
    ensures schema[i].onDelete == CASCADE && PointsInto(schema[i], was, n, c) ==> n in c
  {
    if schema[i].onDelete == CASCADE && PointsInto(schema[i], was, n, c) {
      var a := Node(schema[i].parent, was[n][schema[i].column].value);
      assert Owner(schema[i], was, n) == Some(a);
      assert Edge(schema, was, a, n);
    }
  }

  /** A survivor keeps its columns. One that referred to a removed record is NULL
      now or the default, as declared; none of them was RESTRICT or lacked the
      default. All others are as before. */
  lemma SurvivorIs(schema: Schema, was: Rows, rows: Rows, start: set<Node>, c: set<Node>, n: Node, column: string)
    requires WellFormed(schema) && Deleted(schema, was, rows, start, c) && n in rows && column in was[n]
    ensures n in was && rows[n].Keys == was[n].Keys
    ensures forall i :: 0 <= i < |schema| && schema[i].column == column && PointsInto(schema[i], was, n, c) ==>
      match schema[i].onDelete
      case SET_NULL => rows[n][column] == None
      case SET_DEFAULT => Some(rows[n][column]) == schema[i].fallback
      case _ => false
    ensures (forall i :: 0 <= i < |schema| && schema[i].column == column ==> !PointsInto(schema[i], was, n, c)) ==>
      rows[n][column] == was[n][column]
  {
    assert rows[n] == SettledRow(schema, n.entity, was[n], c, {}, 0);
    forall i | 0 <= i < |schema| && schema[i].column == column && schema[i].child == n.entity
      ensures RefIndex(schema, n.entity, column) == Some(i)
    {
      RefIndexUnique(schema, i);
    }
    forall i | 0 <= i < |schema| && schema[i].onDelete == CASCADE ensures !PointsInto(schema[i], was, n, c) {
      GoneIs(schema, was, rows, start, c, n, i);
    }
  }
}
