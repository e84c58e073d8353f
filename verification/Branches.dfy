/** `where` and `or_where` of the query builder
    (fastapi_modular/infrastructure/database/query.py): branches of conditions,
    the condition list composed of them, and what that list selects. */
module Branches {
  import opened Conditions
  import opened MongoFilters

  /** `_compose`: no branch, the conditions of the only branch, or one OR of ANDs. */
  function Compose(branches: seq<seq<Condition>>): seq<Condition> {
    var kept := NonEmpty(branches);
    if kept == [] then []
    else if |kept| == 1 then kept[0]
    else [Or(Bundles(kept))]
  }

  function NonEmpty(branches: seq<seq<Condition>>): (kept: seq<seq<Condition>>)
    ensures forall b :: b in kept <==> b in branches && b != []
  {
    if branches == [] then []
    else (if branches[0] == [] then [] else [branches[0]]) + NonEmpty(branches[1..])
  }

  function Bundle(branch: seq<Condition>): Condition {
    if |branch| == 1 then branch[0] else And(branch)
  }

  function Bundles(branches: seq<seq<Condition>>): (parts: seq<Condition>)
    ensures |parts| == |branches|
  {
    if branches == [] then [] else [Bundle(branches[0])] + Bundles(branches[1..])
  }

  class Query {
    var branches: seq<seq<Condition>>
    var conditions: seq<Condition>

    ghost predicate Valid()
      reads this
    {
      branches != [] && conditions == Compose(branches)
    }

    constructor ()
      ensures Valid() && branches == [[]]
    {
      branches, conditions := [[]], [];
    }

    /** Adds to the branch that is open. */
    method Where(more: seq<Condition>)
      requires Valid()
      modifies this
      ensures Valid()
      ensures var n := |old(branches)| - 1;
        branches == old(branches)[..n] + [old(branches)[n] + more]
    {
      var n := |branches| - 1;
      branches := branches[n := branches[n] + more];
      conditions := Compose(branches);
    }

    /** Opens a new branch. */
    method OrWhere(more: seq<Condition>)
      requires Valid()
      modifies this
      ensures Valid() && branches == old(branches) + [more]
    {
      branches := branches + [more];
      conditions := Compose(branches);
    }
  }

  /** The rows of the memory backend pass the conditions one after the other. */
  predicate MemorySelects(conditions: seq<Condition>, row: Row, like: Like) {
    EvaluateAll(conditions, row, like) == Known(true)
  }

  /** What a chain of where and or_where asks for: some branch that says
      anything holds entirely, or no branch says anything. */
  ghost predicate SomeBranchHolds(branches: seq<seq<Condition>>, row: Row, like: Like) {
    || (forall b :: b in branches ==> b == [])
    || exists b :: b in branches && b != [] && AllHold(b, row, like)
  }

  ghost predicate AllHold(parts: seq<Condition>, row: Row, like: Like) {
    forall c :: c in parts ==> Evaluate(c, row, like) == Known(true)
  }

  ghost predicate AllDecided(parts: seq<Condition>, row: Row, like: Like) {
    forall c :: c in parts ==> Evaluate(c, row, like).Known?
  }

  lemma {:induction false} AllMeaning(parts: seq<Condition>, row: Row, like: Like)
    ensures EvaluateAll(parts, row, like) == Known(true) <==> AllHold(parts, row, like)
    ensures AllDecided(parts, row, like) ==> EvaluateAll(parts, row, like).Known?
  {
    if parts != [] {
      AllMeaning(parts[1..], row, like);
      assert forall c :: c in parts <==> c == parts[0] || c in parts[1..];
    }
  }

  lemma {:induction false} BundlesMeaning(kept: seq<seq<Condition>>, row: Row, like: Like)
    requires forall b :: b in kept ==> b != [] && AllDecided(b, row, like)
    ensures EvaluateAny(Bundles(kept), row, like) == Known(exists b :: b in kept && AllHold(b, row, like))
  {
    if kept != [] {
      var b := kept[0];
      assert b in kept;
      assert forall x :: x in kept <==> x == b || x in kept[1..];
      BundlesMeaning(kept[1..], row, like);
      AllMeaning(b, row, like);
      assert Bundles(kept)[1..] == Bundles(kept[1..]);
    }
  }

  /** The composed condition list selects by branches. */
  lemma ComposeMeans(branches: seq<seq<Condition>>, row: Row, like: Like)
    requires forall b :: b in branches ==> AllDecided(b, row, like)
    ensures MemorySelects(Compose(branches), row, like) <==> SomeBranchHolds(branches, row, like)
  {
    var kept := NonEmpty(branches);
    if kept == [] {
      assert EvaluateAll([], row, like) == Known(true);
    } else if |kept| == 1 {
      assert forall b :: b in kept ==> b == kept[0];
      AllMeaning(kept[0], row, like);
      assert kept[0] in branches;
    } else {
      assert kept[0] in branches;
      BundlesMeaning(kept, row, like);
      var all := Compose(branches);
      assert all[1..] == [] && EvaluateAll([], row, like) == Known(true);
      assert Evaluate(all[0], row, like) == EvaluateAny(Bundles(kept), row, like);
    }
  }

  /** End to end on Mongo: the filter of a whole where/or_where chain is accepted
      and matches exactly the documents some branch asks for. */
  lemma FindMatchesBranches(branches: seq<seq<Condition>>, row: Row, doc: Row, like: Like)
    requires Stores(doc, row)
    requires forall b, c :: b in branches && c in b ==> Simple(c)
    ensures var filter := Conjoin(CompileParts(Compose(branches)));
      && Accepted(filter)
      && (DocMatches(filter, doc, like) <==> SomeBranchHolds(branches, row, like))
  {
    forall b | b in branches ensures AllDecided(b, row, like) {
      forall c | c in b ensures Evaluate(c, row, like).Known? {
        CompiledFilterMeans(c, row, doc, like);
      }
    }
    ComposeMeans(branches, row, like);
    var all := Compose(branches);
    ComposeIsSimple(branches);
    CompiledPartsMean(all, row, doc, like);
    if |all| == 1 {
      assert CompileParts(all)[1..] == [];
    }
  }

  lemma ComposeIsSimple(branches: seq<seq<Condition>>)
    requires forall b, c :: b in branches && c in b ==> Simple(c)
    ensures forall c :: c in Compose(branches) ==> Simple(c)
  {
    var kept := NonEmpty(branches);
    if |kept| == 1 {
      assert kept[0] in branches;
    } else if kept != [] {
      BundlesAreSimple(kept);
    }
  }

  lemma {:induction false} BundlesAreSimple(kept: seq<seq<Condition>>)
    requires forall b, c :: b in kept && c in b ==> Simple(c)
    requires forall b :: b in kept ==> b != []
    ensures forall p :: p in Bundles(kept) ==> Simple(p)
  {
    if kept != [] {
      forall b | b in kept[1..] ensures b in kept { }
      BundlesAreSimple(kept[1..]);
      assert kept[0] in kept;
    }
  }
}
