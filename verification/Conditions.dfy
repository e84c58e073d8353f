/** One condition tree of the query builder (query.py in
    fastapi_modular/infrastructure/database): its evaluator in memory, and its
    meaning in SQL-92 (ISO/IEC 9075:1992, subclause 8.12) behind sql.py. */
module Conditions {
  import opened Wrappers

  /** A column value; None is NULL. */
  type Value = Option<int>

  /** A row, or a document, by column; a missing entry reads as NULL. */
  type Row = map<string, Value>

  /** LIKE on a value, shared by all backends: value, pattern, ignore case. */
  type Like = (int, string, bool) -> bool

  datatype Op = Eq | Ne | Gt | Gte | Lt | Lte

  datatype Operand = Const(value: Value) | Column(name: string)

  datatype Condition =
    | Compare(column: string, op: Op, right: Operand)
    | IsNull(column: string, yes: bool)
    | In(column: string, values: seq<Value>)
    | NotIn(column: string, values: seq<Value>)
    | Between(column: string, low: Value, high: Value)
    | Matching(column: string, pattern: string, fold: bool)
    | And(parts: seq<Condition>)
    | Or(parts: seq<Condition>)
    | Not(part: Condition)

  function Read(row: Row, column: string): Value {
    if column in row then row[column] else None
  }

  predicate Holds(op: Op, a: int, b: int) {
    match op
    case Eq => a == b
    case Ne => a != b
    case Gt => a > b
    case Gte => a >= b
    case Lt => a < b
    case Lte => a <= b
  }

  // ------------------------------------------------- the memory evaluator

  /** Comparing a number with None raises TypeError for the order operators. */
  datatype Verdict = Known(holds: bool) | Raises

  function Evaluate(c: Condition, row: Row, like: Like): Verdict
    decreases c, 1
  {
    match c
    case And(parts) => EvaluateAll(parts, row, like)
    case Or(parts) => EvaluateAny(parts, row, like)
    case Not(part) =>
      var v := Evaluate(part, row, like);
      if v.Known? then Known(!v.holds) else Raises
    case IsNull(column, yes) => Known(Read(row, column).None? == yes)
    case Compare(column, op, right) =>
      var l := Read(row, column);
      var r := if right.Const? then right.value else Read(row, right.name);
      if l.None? then Known(false)
      else if r.Some? then Known(Holds(op, l.value, r.value))
      else if op == Eq then Known(false)
      else if op == Ne then Known(true)
      else Raises
    case In(column, values) => Known(Read(row, column).Some? && Read(row, column) in values)
    case NotIn(column, values) => Known(Read(row, column).Some? && Read(row, column) !in values)
    case Between(column, low, high) =>
      var l := Read(row, column);
      if l.None? then Known(false)
      else if low.None? then Raises
      else if l.value < low.value then Known(false)
      else if high.None? then Raises
      else Known(l.value <= high.value)
    case Matching(column, pattern, fold) =>
      var l := Read(row, column);
      Known(l.Some? && like(l.value, pattern, fold))
  }

  /** all(...): stops at the first false part. */
  function EvaluateAll(parts: seq<Condition>, row: Row, like: Like): Verdict
    decreases parts, 0
  {
    if parts == [] then Known(true)
    else
      var v := Evaluate(parts[0], row, like);
      if v == Known(true) then EvaluateAll(parts[1..], row, like) else v
  }

  /** any(...): stops at the first true part. */
  function EvaluateAny(parts: seq<Condition>, row: Row, like: Like): Verdict
    decreases parts, 0
  {
    if parts == [] then Known(false)
    else
      var v := Evaluate(parts[0], row, like);
      if v == Known(false) then EvaluateAny(parts[1..], row, like) else v
  }

  /** A comparison of a value v with a number. */
  lemma CompareMeans(column: string, v: int, n: int, row: Row, like: Like)
    requires column in row && row[column] == Some(v)
    ensures Evaluate(Compare(column, Eq, Const(Some(n))), row, like) == Known(v == n)
    ensures Evaluate(Compare(column, Ne, Const(Some(n))), row, like) == Known(v < n || v > n)
    ensures Evaluate(Compare(column, Gt, Const(Some(n))), row, like) == Known(v > n)
    ensures Evaluate(Compare(column, Gte, Const(Some(n))), row, like) == Known(v > n || v == n)
    ensures Evaluate(Compare(column, Lt, Const(Some(n))), row, like) == Known(v < n)
    ensures Evaluate(Compare(column, Lte, Const(Some(n))), row, like) == Known(v < n || v == n)
  {
  }

  /** The same between two columns that have values. */
  lemma CompareColumnsMeans(a: string, b: string, row: Row, like: Like)
    requires a in row && b in row && row[a].Some? && row[b].Some?
    ensures var (x, y) := (row[a].value, row[b].value);
      && Evaluate(Compare(a, Eq, Column(b)), row, like) == Known(x == y)
      && Evaluate(Compare(a, Ne, Column(b)), row, like) == Known(x < y || x > y)
      && Evaluate(Compare(a, Gt, Column(b)), row, like) == Known(x > y)
      && Evaluate(Compare(a, Gte, Column(b)), row, like) == Known(x > y || x == y)
      && Evaluate(Compare(a, Lt, Column(b)), row, like) == Known(x < y)
      && Evaluate(Compare(a, Lte, Column(b)), row, like) == Known(x < y || x == y)
  {
  }

  /** Lists, ranges and the NULL test, for a value v. */
  lemma ListsAndRangesMean(column: string, v: int, values: seq<int>, low: int, high: int, row: Row, like: Like)
    requires column in row && row[column] == Some(v)
    ensures Evaluate(In(column, Given(values)), row, like) == Known(v in values)
    ensures Evaluate(NotIn(column, Given(values)), row, like) == Known(v !in values)
    ensures Evaluate(Between(column, Some(low), Some(high)), row, like) == Known(low <= v <= high)
    ensures Evaluate(IsNull(column, true), row, like) == Known(false)
    ensures Evaluate(IsNull(column, false), row, like) == Known(true)
  {
    if v in values {
      var i :| 0 <= i < |values| && values[i] == v;
      assert Given(values)[i] == Some(v);
    }
  }

  function Given(values: seq<int>): seq<Value> {
    seq(|values|, i requires 0 <= i < |values| => Some(values[i]))
  }

  /** A column that is NULL, or not there, passes no test but that for NULL. */
  lemma NullMeans(column: string, op: Op, n: int, values: seq<Value>, low: int, high: int, row: Row, like: Like)
    requires column !in row || row[column] == None
    ensures Evaluate(Compare(column, op, Const(Some(n))), row, like) == Known(false)
    ensures Evaluate(In(column, values), row, like) == Known(false)
    ensures Evaluate(NotIn(column, values), row, like) == Known(false)
    ensures Evaluate(Between(column, Some(low), Some(high)), row, like) == Known(false)
    ensures Evaluate(IsNull(column, true), row, like) == Known(true)
    ensures Evaluate(IsNull(column, false), row, like) == Known(false)
  {
  }

  // ------------------------------------------------- SQL three-valued logic

  datatype Truth = True | False | Unknown

  function And3(a: Truth, b: Truth): Truth {
    if a == False || b == False then False
    else if a == True && b == True then True
    else Unknown
  }

  function Not3(a: Truth): Truth {
    match a
    case True => False
    case False => True
    case Unknown => Unknown
  }

  function Or3(a: Truth, b: Truth): Truth {
    Not3(And3(Not3(a), Not3(b)))
  }

  function Compare3(op: Op, l: Value, r: Value): Truth {
    if l.None? || r.None? then Unknown
    else if Holds(op, l.value, r.value) then True
    else False
  }

  /** The compiled WHERE clause. `= NULL` and `!= NULL` are what SQLAlchemy
      turns into IS NULL and IS NOT NULL. */
  function Sql(c: Condition, row: Row, like: Like): Truth
    decreases c, 1
  {
    match c
    case And(parts) => SqlAll(parts, row, like)
    case Or(parts) => SqlAny(parts, row, like)
    case Not(part) => Not3(Sql(part, row, like))
    case IsNull(column, yes) => if Read(row, column).None? == yes then True else False
    case Compare(column, op, right) =>
      var l := Read(row, column);
      if right == Const(None) && op == Eq then (if l.None? then True else False)
      else if right == Const(None) && op == Ne then (if l.None? then False else True)
      else Compare3(op, l, if right.Const? then right.value else Read(row, right.name))
    case In(column, values) => SqlIn(Read(row, column), values)
    case NotIn(column, values) => Not3(SqlIn(Read(row, column), values))
    case Between(column, low, high) =>
      And3(Compare3(Gte, Read(row, column), low), Compare3(Lte, Read(row, column), high))
    case Matching(column, pattern, fold) =>
      var l := Read(row, column);
      if l.None? then Unknown else if like(l.value, pattern, fold) then True else False
  }

  function SqlAll(parts: seq<Condition>, row: Row, like: Like): Truth
    decreases parts, 0
  {
    if parts == [] then True
    else And3(Sql(parts[0], row, like), SqlAll(parts[1..], row, like))
  }

  function SqlAny(parts: seq<Condition>, row: Row, like: Like): Truth
    decreases parts, 0
  {
    if parts == [] then False
    else Or3(Sql(parts[0], row, like), SqlAny(parts[1..], row, like))
  }

  /** Subclause 8.4: IN is the disjunction of the equalities. */
  function SqlIn(l: Value, values: seq<Value>): Truth {
    if values == [] then False
    else Or3(Compare3(Eq, l, values[0]), SqlIn(l, values[1..]))
  }

  // -------------------------------------------- memory refines SQL

  /** The constants a query may compare with: no NULL where a value is meant,
      and no empty NOT IN list. */
  predicate Plain(c: Condition) {
    match c
    case Compare(_, _, right) => right != Const(None)
    case NotIn(_, values) => values != [] && None !in values
    case Between(_, low, high) => low.Some? && high.Some?
    case And(parts) => forall p :: p in parts ==> Plain(p)
    case Or(parts) => forall p :: p in parts ==> Plain(p)
    case Not(part) => Plain(part)
    case _ => true
  }

  lemma {:induction false} SqlInMeaning(l: Value, values: seq<Value>)
    ensures SqlIn(l, values) == True <==> l.Some? && l in values
    ensures SqlIn(l, values) == False <==> values == [] || (l.Some? && l !in values && None !in values)
  {
    if values != [] {
      SqlInMeaning(l, values[1..]);
    }
  }

  /** No comparison of the tree makes Python compare a number with None: where
      two columns are compared by order, the right one has a value or the left
      one has none. */
  predicate Calm(c: Condition, row: Row) {
    match c
    case Compare(column, op, right) =>
      right.Const? || Read(row, column).None? || Read(row, right.name).Some? || op == Eq || op == Ne
    case And(parts) => forall p :: p in parts ==> Calm(p, row)
    case Or(parts) => forall p :: p in parts ==> Calm(p, row)
    case Not(part) => Calm(part, row)
    case _ => true
  }

  /** The memory verdict exists and follows SQL wherever SQL decides. */
  ghost predicate Agrees(v: Verdict, t: Truth) {
    v.Known? && (t == True ==> v.holds) && (t == False ==> !v.holds)
  }

  /** Whatever SQL decides, the memory evaluator decides alike under any nesting
      of AND, OR and NOT, unless it raises; and it does not raise on rows where
      every comparison is calm. */
  lemma {:induction false} MemoryRefinesSql(c: Condition, row: Row, like: Like)
    requires Plain(c)
    ensures Evaluate(c, row, like) == Raises || Agrees(Evaluate(c, row, like), Sql(c, row, like))
    ensures Calm(c, row) ==> Evaluate(c, row, like) != Raises
    decreases c, 1
  {
    match c
    case And(parts) => MemoryRefinesSqlParts(parts, row, like);
    case Or(parts) => MemoryRefinesSqlParts(parts, row, like);
    case Not(part) => MemoryRefinesSql(part, row, like);
    case In(column, values) => SqlInMeaning(Read(row, column), values);
    case NotIn(column, values) => SqlInMeaning(Read(row, column), values);
    case _ =>
  }

  lemma {:induction false} MemoryRefinesSqlParts(parts: seq<Condition>, row: Row, like: Like)
    requires forall p :: p in parts ==> Plain(p)
    ensures var v := EvaluateAll(parts, row, like); v == Raises || Agrees(v, SqlAll(parts, row, like))
    ensures var v := EvaluateAny(parts, row, like); v == Raises || Agrees(v, SqlAny(parts, row, like))
    ensures (forall p :: p in parts ==> Calm(p, row)) ==>
      EvaluateAll(parts, row, like) != Raises && EvaluateAny(parts, row, like) != Raises
    decreases parts, 0
  {
    if parts != [] {
      MemoryRefinesSql(parts[0], row, like);
      MemoryRefinesSqlParts(parts[1..], row, like);
    }
  }

  predicate Positive(c: Condition) {
    match c
    case And(parts) => forall p :: p in parts ==> Positive(p)
    case Or(parts) => forall p :: p in parts ==> Positive(p)
    case Not(_) => false
    case _ => true
  }

  /** Both backends select the row, or both pass it over; in particular the
      evaluator does not raise. */
  ghost predicate Selects(v: Verdict, t: Truth) {
    v == Known(t == True)
  }

  /** If the parts select alike, so do their conjunction and their disjunction. */
  lemma {:induction false} PartsSelectAlike(parts: seq<Condition>, row: Row, like: Like)
    requires forall p :: p in parts ==> Selects(Evaluate(p, row, like), Sql(p, row, like))
    ensures Selects(EvaluateAll(parts, row, like), SqlAll(parts, row, like))
    ensures Selects(EvaluateAny(parts, row, like), SqlAny(parts, row, like))
  {
    if parts != [] {
      PartsSelectAlike(parts[1..], row, like);
    }
  }

  /** A comparison of two columns on which the backends agree. */
  predicate SafeColumns(column: string, op: Op, other: string, row: Row) {
    Read(row, column).None? || Read(row, other).Some? || op == Eq
  }

  /** Between two columns the backends select alike exactly on those rows. Else
      the left column has a value and the right one is NULL: by order the
      evaluator raises, and `!=` holds in memory while SQL does not know. */
  lemma ColumnsAgreeExactly(column: string, op: Op, other: string, row: Row, like: Like)
    ensures var c := Compare(column, op, Column(other));
      Selects(Evaluate(c, row, like), Sql(c, row, like)) <==> SafeColumns(column, op, other, row)
    ensures var c := Compare(column, op, Column(other)); Evaluate(c, row, like) == Raises <==> !Calm(c, row)
  {
  }

  /** So a tree without NOT can raise on a row that SQL selects, and can select a
      row that SQL passes over. */
  lemma ColumnsCanDiffer(row: Row, like: Like)
    requires Read(row, "a").Some? && Read(row, "b").None?
    ensures var c := Or([Compare("a", Gt, Column("b")), IsNull("b", true)]);
      Plain(c) && Positive(c) && Evaluate(c, row, like) == Raises && Sql(c, row, like) == True
    ensures var c := Compare("a", Ne, Column("b"));
      Plain(c) && Positive(c) && Evaluate(c, row, like) == Known(true) && Sql(c, row, like) == Unknown
  {
    var isNull := IsNull("b", true);
    assert [Compare("a", Gt, Column("b")), isNull][1..] == [isNull] && [isNull][1..] == [];
    assert SqlAny([isNull], row, like) == True;
  }

  /** Every comparison of two columns in the tree is safe on this row. */
  predicate Safe(c: Condition, row: Row) {
    match c
    case Compare(column, op, right) => right.Const? || SafeColumns(column, op, right.name, row)
    case And(parts) => forall p :: p in parts ==> Safe(p, row)
    case Or(parts) => forall p :: p in parts ==> Safe(p, row)
    case Not(part) => Safe(part, row)
    case _ => true
  }

  /** On trees without NOT both backends select the same rows, wherever the
      comparisons of two columns are safe. */
  lemma {:induction false} PositiveSelectsAlike(c: Condition, row: Row, like: Like)
    requires Plain(c) && Positive(c) && Safe(c, row)
    ensures Selects(Evaluate(c, row, like), Sql(c, row, like))
  {
    if c.And? || c.Or? {
      forall p | p in c.parts
        ensures Selects(Evaluate(p, row, like), Sql(p, row, like))
      {
        PositiveSelectsAlike(p, row, like);
      }
      PartsSelectAlike(c.parts, row, like);
    } else if c.In? || c.NotIn? {
      SqlInMeaning(Read(row, c.column), c.values);
    }
  }

  /** Every column the condition reads has a value in this row. */
  predicate Present(c: Condition, row: Row) {
    match c
    case Compare(column, _, right) => Read(row, column).Some? && (right.Column? ==> Read(row, right.name).Some?)
    case IsNull(_, _) => true
    case In(column, values) => Read(row, column).Some? && None !in values
    case NotIn(column, _) => Read(row, column).Some?
    case Between(column, _, _) => Read(row, column).Some?
    case Matching(column, _, _) => Read(row, column).Some?
    case And(parts) => forall p :: p in parts ==> Present(p, row)
    case Or(parts) => forall p :: p in parts ==> Present(p, row)
    case Not(part) => Present(part, row)
  }

  /** Every NOT stands over columns that have a value in this row, and elsewhere
      comparisons of two columns are safe. */
  predicate Guarded(c: Condition, row: Row) {
    match c
    case And(parts) => forall p :: p in parts ==> Guarded(p, row)
    case Or(parts) => forall p :: p in parts ==> Guarded(p, row)
    case Not(part) => Present(part, row)
    case Compare(column, op, right) => right.Const? || SafeColumns(column, op, right.name, row)
    case _ => true
  }

  /** SQL decides a conjunction and a disjunction of decided parts. */
  lemma {:induction false} PartsAreDecided(parts: seq<Condition>, row: Row, like: Like)
    requires forall p :: p in parts ==> Sql(p, row, like) != Unknown
    ensures SqlAll(parts, row, like) != Unknown && SqlAny(parts, row, like) != Unknown
  {
    if parts != [] {
      PartsAreDecided(parts[1..], row, like);
    }
  }

  lemma {:induction false} PresentIsDecided(c: Condition, row: Row, like: Like)
    requires Plain(c) && Present(c, row)
    ensures Sql(c, row, like) != Unknown && Selects(Evaluate(c, row, like), Sql(c, row, like))
  {
    if c.And? || c.Or? {
      forall p | p in c.parts
        ensures Sql(p, row, like) != Unknown && Selects(Evaluate(p, row, like), Sql(p, row, like))
      {
        PresentIsDecided(p, row, like);
      }
      PartsSelectAlike(c.parts, row, like);
      PartsAreDecided(c.parts, row, like);
    } else if c.Not? {
      PresentIsDecided(c.part, row, like);
    } else if c.In? || c.NotIn? {
      SqlInMeaning(Read(row, c.column), c.values);
    }
  }

  /** With NOT, both backends still select the same rows when no NOT stands
      over a NULL. */
  lemma {:induction false} GuardedSelectsAlike(c: Condition, row: Row, like: Like)
    requires Plain(c) && Guarded(c, row)
    ensures Selects(Evaluate(c, row, like), Sql(c, row, like))
  {
    if c.And? || c.Or? {
      forall p | p in c.parts
        ensures Selects(Evaluate(p, row, like), Sql(p, row, like))
      {
        GuardedSelectsAlike(p, row, like);
      }
      PartsSelectAlike(c.parts, row, like);
    } else if c.Not? {
      PresentIsDecided(c.part, row, like);
    } else {
      PositiveSelectsAlike(c, row, like);
    }
  }

  /** Over a NOT-free tree a NOT selects the same rows exactly when SQL's verdict
      on the tree is not UNKNOWN. */
  lemma NotAgreesExactly(part: Condition, row: Row, like: Like)
    requires Plain(part) && Positive(part) && Safe(part, row)
    ensures Selects(Evaluate(Not(part), row, like), Sql(Not(part), row, like)) <==> Sql(part, row, like) != Unknown
  {
    PositiveSelectsAlike(part, row, like);
  }

  /** NOT over a comparison, an empty NOT IN list and `where(x=None)` agree
      exactly on the rows where the column has a value. */
  lemma NullDecidesAgreement(column: string, op: Op, n: int, row: Row, like: Like)
    ensures var c := Not(Compare(column, op, Const(Some(n))));
      Selects(Evaluate(c, row, like), Sql(c, row, like)) <==> Read(row, column).Some?
    ensures var c := NotIn(column, []);
      Selects(Evaluate(c, row, like), Sql(c, row, like)) <==> Read(row, column).Some?
    ensures var c := Compare(column, Eq, Const(None));
      Selects(Evaluate(c, row, like), Sql(c, row, like)) <==> Read(row, column).Some?
  {
    var part := Compare(column, op, Const(Some(n)));
    NotAgreesExactly(part, row, like);
    assert Sql(part, row, like) == Compare3(op, Read(row, column), Some(n));
  }
}
