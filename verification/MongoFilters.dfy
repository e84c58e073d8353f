/** The filter documents that fastapi_modular/infrastructure/database/mongo.py
    compiles a condition tree to, and the documents they match. */
module MongoFilters {
  import opened Wrappers
  import opened Conditions

  datatype Filter =
    | Everything
    | FieldIs(field: string, value: Value)
    | FieldIsNot(field: string, value: Value)
    | FieldCompare(field: string, op: Op, value: Value)
    | FieldIn(field: string, values: seq<Value>)
    | FieldNotIn(field: string, values: seq<Value>)
    | FieldRange(field: string, low: Value, high: Value)
    | FieldRegex(field: string, pattern: string, fold: bool)
    | AllOf(filters: seq<Filter>)
    | AnyOf(filters: seq<Filter>)
    | NoneOf(filters: seq<Filter>)
    | Expr(op: Op, left: string, right: string)

  function FieldOf(column: string): string {
    if column == "id" then "_id" else column
  }

  /** `_and`: no list, one filter, or `$and`. */
  function Conjoin(filters: seq<Filter>): Filter {
    if filters == [] then Everything
    else if |filters| == 1 then filters[0]
    else AllOf(filters)
  }

  /** `_condition_to_filter`. */
  function Compile(c: Condition): Filter
    decreases c, 1
  {
    match c
    case And(parts) => Conjoin(CompileParts(parts))
    case Or(parts) => AnyOf(CompileParts(parts))
    case Not(part) => NoneOf([Compile(part)])
    case IsNull(column, yes) => if yes then FieldIs(FieldOf(column), None) else FieldIsNot(FieldOf(column), None)
    case Compare(column, op, right) =>
      var f := FieldOf(column);
      if right.Column? then Expr(op, f, FieldOf(right.name))
      else if op == Eq then FieldIs(f, right.value)
      else if op == Ne then AllOf([FieldIsNot(f, right.value), FieldIsNot(f, None)])
      else FieldCompare(f, op, right.value)
    case In(column, values) => FieldIn(FieldOf(column), values)
    case NotIn(column, values) => AllOf([FieldNotIn(FieldOf(column), values), FieldIsNot(FieldOf(column), None)])
    case Between(column, low, high) => FieldRange(FieldOf(column), low, high)
    case Matching(column, pattern, fold) => FieldRegex(FieldOf(column), pattern, fold)
  }

  function CompileParts(parts: seq<Condition>): (filters: seq<Filter>)
    ensures |filters| == |parts|
    decreases parts, 0
  {
    if parts == [] then [] else [Compile(parts[0])] + CompileParts(parts[1..])
  }

  /** The server's side: null and missing are one value to `$eq`, `$ne`, `$in`
      and `$nin`, and never satisfy an order operator with a number. */
  predicate DocMatches(filter: Filter, doc: Row, like: Like)
    decreases filter, 1
  {
    match filter
    case Everything => true
    case FieldIs(f, v) => Read(doc, f) == v
    case FieldIsNot(f, v) => Read(doc, f) != v
    case FieldCompare(f, op, v) => Read(doc, f).Some? && v.Some? && Holds(op, Read(doc, f).value, v.value)
    case FieldIn(f, vs) => Read(doc, f) in vs
    case FieldNotIn(f, vs) => Read(doc, f) !in vs
    case FieldRange(f, low, high) =>
      Read(doc, f).Some? && low.Some? && high.Some? && low.value <= Read(doc, f).value <= high.value
    case FieldRegex(f, pattern, fold) => Read(doc, f).Some? && like(Read(doc, f).value, pattern, fold)
    case AllOf(filters) => DocMatchesAll(filters, doc, like)
    case AnyOf(filters) => DocMatchesAny(filters, doc, like)
    case NoneOf(filters) => !DocMatchesAny(filters, doc, like)
    case Expr(op, l, r) => ExprHolds(op, doc, l, r)
  }

  predicate DocMatchesAll(filters: seq<Filter>, doc: Row, like: Like)
    decreases filters, 0
  {
    filters == [] || (DocMatches(filters[0], doc, like) && DocMatchesAll(filters[1..], doc, like))
  }

  predicate DocMatchesAny(filters: seq<Filter>, doc: Row, like: Like)
    decreases filters, 0
  {
    filters != [] && (DocMatches(filters[0], doc, like) || DocMatchesAny(filters[1..], doc, like))
  }

  /** `$expr` orders missing before null before numbers. */
  predicate ExprHolds(op: Op, doc: Row, l: string, r: string) {
    if Read(doc, l).Some? && Read(doc, r).Some? then Holds(op, Read(doc, l).value, Read(doc, r).value)
    else Holds(op, Rank(doc, l), Rank(doc, r))
  }

  function Rank(doc: Row, f: string): int {
    if f !in doc then 0 else if doc[f].None? then 1 else 2
  }

  /** `$and`, `$or` and `$nor` need a non-empty array. */
  predicate Accepted(filter: Filter) {
    match filter
    case AllOf(filters) => filters != [] && forall f :: f in filters ==> Accepted(f)
    case AnyOf(filters) => filters != [] && forall f :: f in filters ==> Accepted(f)
    case NoneOf(filters) => filters != [] && forall f :: f in filters ==> Accepted(f)
    case _ => true
  }

  /** Conditions on one entity that compare columns with non-null constants;
      `or_()` refuses an empty list. */
  predicate Simple(c: Condition) {
    match c
    case Compare(column, _, right) => column != "_id" && right.Const? && right.value.Some?
    case IsNull(column, _) => column != "_id"
    case In(column, values) => column != "_id" && None !in values
    case NotIn(column, values) => column != "_id" && None !in values
    case Between(column, low, high) => column != "_id" && low.Some? && high.Some?
    case Matching(column, _, _) => column != "_id"
    case And(parts) => forall p :: p in parts ==> Simple(p)
    case Or(parts) => parts != [] && forall p :: p in parts ==> Simple(p)
    case Not(part) => Simple(part)
  }

  /** The document that stores a record: `id` lives in `_id`, and a NULL may be
      stored as null or left out. */
  ghost predicate Stores(doc: Row, row: Row) {
    && Read(doc, "_id") == Read(row, "id")
    && forall column :: column != "id" && column != "_id" ==> Read(doc, column) == Read(row, column)
  }

  lemma FieldHolds(column: string, row: Row, doc: Row)
    requires Stores(doc, row) && column != "_id"
    ensures Read(doc, FieldOf(column)) == Read(row, column)
  {
  }

  /** The compiled filter is accepted by the server and matches exactly the
      documents whose record the memory evaluator accepts, NOT included. */
  lemma {:induction false} CompiledFilterMeans(c: Condition, row: Row, doc: Row, like: Like)
    requires Simple(c) && Stores(doc, row)
    ensures Accepted(Compile(c))
    ensures Evaluate(c, row, like) == Known(DocMatches(Compile(c), doc, like))
    decreases c, 1
  {
    match c
    case And(parts) =>
      CompiledPartsMean(parts, row, doc, like);
      if |parts| == 1 {
        assert CompileParts(parts)[1..] == [];
      }
    case Or(parts) => CompiledPartsMean(parts, row, doc, like);
    case Not(part) =>
      CompiledFilterMeans(part, row, doc, like);
      SingleMatches(Compile(part), doc, like);
    case _ => CompiledTestMeans(c, row, doc, like);
  }

  lemma CompiledTestMeans(c: Condition, row: Row, doc: Row, like: Like)
    requires Simple(c) && Stores(doc, row) && !c.And? && !c.Or? && !c.Not?
    ensures Accepted(Compile(c))
    ensures Evaluate(c, row, like) == Known(DocMatches(Compile(c), doc, like))
  {
    FieldHolds(c.column, row, doc);
    var f := FieldOf(c.column);
    match c
    case Compare(_, _, right) => PairMatches(FieldIsNot(f, right.value), FieldIsNot(f, None), doc, like);
    case NotIn(_, values) => PairMatches(FieldNotIn(f, values), FieldIsNot(f, None), doc, like);
    case _ =>
  }

  /** One condition, three backends, the same rows: SQL, Mongo and memory agree
      whenever no NOT stands over a NULL. */
  lemma ThreeBackendsAgree(c: Condition, row: Row, doc: Row, like: Like)
    requires Simple(c) && Plain(c) && Guarded(c, row) && Stores(doc, row)
    ensures var selected := DocMatches(Compile(c), doc, like);
      Evaluate(c, row, like) == Known(selected) && (selected <==> Sql(c, row, like) == True)
  {
    CompiledFilterMeans(c, row, doc, like);
    GuardedSelectsAlike(c, row, like);
  }

  lemma SingleMatches(f: Filter, doc: Row, like: Like)
    ensures DocMatchesAll([f], doc, like) <==> DocMatches(f, doc, like)
    ensures DocMatchesAny([f], doc, like) <==> DocMatches(f, doc, like)
  {
  }

  lemma PairMatches(f: Filter, g: Filter, doc: Row, like: Like)
    ensures DocMatchesAll([f, g], doc, like) <==> DocMatches(f, doc, like) && DocMatches(g, doc, like)
  {
    assert [f, g][0] == f && [f, g][1..] == [g];
    SingleMatches(g, doc, like);
  }

  lemma {:induction false} CompiledPartsMean(parts: seq<Condition>, row: Row, doc: Row, like: Like)
    requires Stores(doc, row) && forall p :: p in parts ==> Simple(p)
    ensures forall f :: f in CompileParts(parts) ==> Accepted(f)
    ensures EvaluateAll(parts, row, like) == Known(DocMatchesAll(CompileParts(parts), doc, like))
    ensures EvaluateAny(parts, row, like) == Known(DocMatchesAny(CompileParts(parts), doc, like))
    decreases parts, 0
  {
    if parts != [] {
      CompiledFilterMeans(parts[0], row, doc, like);
      CompiledPartsMean(parts[1..], row, doc, like);
      assert CompileParts(parts)[1..] == CompileParts(parts[1..]);
    }
  }

  /** Where `$expr` and the memory evaluator agree on two columns. Of two NULLs
      the evaluator never accepts; `$expr` takes two nulls or two missing fields
      for equal, and a missing field for less than null. */
  predicate ExprIsFaithful(op: Op, row: Row, doc: Row, column: string, other: string) {
    var leftMissing, rightMissing := FieldOf(column) !in doc, FieldOf(other) !in doc;
    if Read(row, column).Some? then Read(row, other).Some? || op == Eq || op == Ne
    else if Read(row, other).Some? then op == Eq || op == Gt || op == Gte
    else if leftMissing == rightMissing then op == Ne || op == Gt || op == Lt
    else if leftMissing then op == Eq || op == Gt || op == Gte
    else op == Eq || op == Lt || op == Lte
  }

  /** Between two columns the compiled filter means what the memory evaluator
      says exactly in those cases. */
  lemma ColumnComparison(column: string, op: Op, other: string, row: Row, doc: Row, like: Like)
    requires Stores(doc, row) && column != "_id" && other != "_id"
    ensures var c := Compare(column, op, Column(other));
      (Evaluate(c, row, like) == Known(DocMatches(Compile(c), doc, like)))
      <==> ExprIsFaithful(op, row, doc, column, other)
  {
  }
}
