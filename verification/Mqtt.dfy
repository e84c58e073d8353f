/** MQTT topic filters: matching, inclusion between filters, and the pruning of
    a subscription table (fastapi_modular/infrastructure/mqtt/patterns.py).
    The reference meaning is section 4.7 of OASIS MQTT 3.1.1. */
module Mqtt {
  import opened Wrappers
  import opened Text

  // ------------------------------------------------------------ validation

  datatype FilterFault = EmptyFilter | HashInsideLevel | HashNotLast | PlusInsideLevel

  function Levels(s: string): (levels: seq<string>)
    ensures |levels| >= 1
  {
    Split(s, '/')
  }

  /** What is wrong with level i of a filter, judged alone. */
  function LevelFault(levels: seq<string>, i: nat): Option<FilterFault>
    requires i < |levels|
  {
    if '#' in levels[i] then
      if levels[i] != "#" then Some(HashInsideLevel)
      else if i != |levels| - 1 then Some(HashNotLast)
      else None
    else if '+' in levels[i] && levels[i] != "+" then Some(PlusInsideLevel)
    else None
  }

  ghost predicate WellFormed(levels: seq<string>) {
    forall i :: 0 <= i < |levels| ==>
      && ('#' in levels[i] ==> levels[i] == "#" && i == |levels| - 1)
      && ('+' in levels[i] ==> levels[i] == "+")
  }

  ghost predicate ValidFilter(filter: string) {
    filter != "" && WellFormed(Levels(filter))
  }

  predicate ValidTopic(topic: string) {
    topic != "" && '+' !in topic && '#' !in topic
  }

  /** Accepts exactly the valid filters and otherwise names the fault of the
      first bad level. */
  method ValidateTopicFilter(filter: string) returns (fault: Option<FilterFault>)
    ensures fault.None? <==> ValidFilter(filter)
    ensures fault == Some(EmptyFilter) <==> filter == ""
    ensures fault.Some? && filter != "" ==>
      exists i :: 0 <= i < |Levels(filter)| && fault == LevelFault(Levels(filter), i)
        && forall j :: 0 <= j < i ==> LevelFault(Levels(filter), j).None?
  {
    if filter == "" {
      return Some(EmptyFilter);
    }
    var levels := Levels(filter);
    for i := 0 to |levels|
      invariant forall j :: 0 <= j < i ==> LevelFault(levels, j).None?
    {
      fault := LevelFault(levels, i);
      if fault.Some? {
        return;
      }
    }
    forall j | 0 <= j < |levels|
      ensures '#' in levels[j] ==> levels[j] == "#" && j == |levels| - 1
      ensures '+' in levels[j] ==> levels[j] == "+"
    {
      assert LevelFault(levels, j).None?;
    }
    return None;
  }

  // -------------------------------------------------------------- matching

  predicate LevelsMatch(wanted: seq<string>, actual: seq<string>) {
    if wanted == [] then actual == []
    else if wanted[0] == "#" then true
    else
      && actual != []
      && (wanted[0] == "+" || wanted[0] == actual[0])
      && LevelsMatch(wanted[1..], actual[1..])
  }

  predicate IsSystem(level: string) {
    level != "" && level[0] == '$'
  }

  predicate IsWild(level: string) {
    level == "+" || level == "#"
  }

  predicate Matches(filter: string, topic: string) {
    && !(IsSystem(Levels(topic)[0]) && IsWild(Levels(filter)[0]))
    && LevelsMatch(Levels(filter), Levels(topic))
  }

  method TopicMatches(filter: string, topic: string) returns (ok: bool)
    ensures ok == Matches(filter, topic)
  {
    var wanted, actual := Levels(filter), Levels(topic);
    if IsSystem(actual[0]) && IsWild(wanted[0]) {
      return false;
    }
    for i := 0 to |wanted|
      invariant i <= |actual|
      invariant LevelsMatch(wanted, actual) == LevelsMatch(wanted[i..], actual[i..])
    {
      if wanted[i] == "#" {
        return true;
      }
      if i >= |actual| {
        return false;
      }
      if wanted[i] != "+" && wanted[i] != actual[i] {
        return false;
      }
      assert wanted[i..][1..] == wanted[i + 1..] && actual[i..][1..] == actual[i + 1..];
    }
    return |wanted| == |actual|;
  }

  ghost predicate LevelAgrees(wanted: string, actual: string) {
    wanted == "+" || wanted == actual
  }

  /** Section 4.7: '#' stands for the parent level and everything below it, '+'
      for one level, and a leading wildcard never reaches a '$' topic. */
  ghost predicate Section47(filter: string, topic: string) {
    var w, a := Levels(filter), Levels(topic);
    var fixed := if w[|w| - 1] == "#" then |w| - 1 else |w|;
    && (if w[|w| - 1] == "#" then fixed <= |a| else fixed == |a|)
    && (forall i :: 0 <= i < fixed ==> LevelAgrees(w[i], a[i]))
    && (a[0] != "" && a[0][0] == '$' ==> w[0] != "+" && w[0] != "#")
  }

  lemma {:induction false} LevelsMatchMeaning(w: seq<string>, a: seq<string>)
    requires w != [] && WellFormed(w)
    ensures LevelsMatch(w, a) <==>
      var fixed := if w[|w| - 1] == "#" then |w| - 1 else |w|;
      && (if w[|w| - 1] == "#" then fixed <= |a| else fixed == |a|)
      && (forall i :: 0 <= i < fixed ==> LevelAgrees(w[i], a[i]))
  {
    if |w| > 1 {
      assert '#' in "#";
      assert w[0] != "#";
      if a != [] {
        assert WellFormed(w[1..]) by {
          forall i | 0 <= i < |w[1..]| ensures w[1..][i] == w[i + 1] { }
        }
        LevelsMatchMeaning(w[1..], a[1..]);
        var fixed := if w[|w| - 1] == "#" then |w| - 1 else |w|;
        if fixed <= |a| {
          assert forall i :: 0 < i < fixed ==> w[i] == w[1..][i - 1] && a[i] == a[1..][i - 1];
        }
      }
    }
  }

  /** On valid filters the matcher decides exactly the relation of section 4.7. */
  lemma MatchesIsSection47(filter: string, topic: string)
    requires ValidFilter(filter)
    ensures Matches(filter, topic) <==> Section47(filter, topic)
  {
    LevelsMatchMeaning(Levels(filter), Levels(topic));
  }

  // ------------------------------------------------------------- inclusion

  predicate LevelsCover(a: seq<string>, b: seq<string>) {
    if a == [] then b == []
    else if a[0] == "#" then true
    else
      && b != []
      && b[0] != "#"
      && (a[0] == "+" || a[0] == b[0])
      && LevelsCover(a[1..], b[1..])
  }

  predicate Covers(wider: string, narrower: string) {
    LevelsCover(Levels(wider), Levels(narrower))
  }

  method FilterCovers(wider: string, narrower: string) returns (ok: bool)
    ensures ok == Covers(wider, narrower)
  {
    var a, b := Levels(wider), Levels(narrower);
    for i := 0 to |a|
      invariant i <= |b|
      invariant LevelsCover(a, b) == LevelsCover(a[i..], b[i..])
    {
      if a[i] == "#" {
        return true;
      }
      if i >= |b| {
        return false;
      }
      if b[i] == "#" {
        return false;
      }
      assert a[i..][1..] == a[i + 1..] && b[i..][1..] == b[i + 1..];
      if a[i] == "+" {
        continue;
      }
      if a[i] != b[i] {
        return false;
      }
    }
    return |a| == |b|;
  }

  /** Every publishable topic that reaches `narrower` also reaches `wider`. */
  ghost predicate Includes(wider: string, narrower: string) {
    forall topic :: ValidTopic(topic) && Matches(narrower, topic) ==> Matches(wider, topic)
  }

  /** First exception: a leading wildcard never reaches the `$` topics that the
      narrower filter, or topic, names. */
  predicate SystemGap(wider: string, narrower: string) {
    var w, n := Levels(wider)[0], Levels(narrower)[0];
    (w == "+" || w == "#") && n != "" && n[0] == '$'
  }

  /** Second exception: `+/#` asks for one level and `#` for none, but every
      topic has a level; likewise below an empty first level, because the
      empty topic cannot be published. */
  predicate EmptyTopicGap(wider: string, narrower: string) {
    || (narrower == "#" && wider == "+/#")
    || (narrower == "/#" && (wider == "/+/#" || wider == "+/+/#"))
  }

  function LongestLevel(levels: seq<string>): (n: nat)
    ensures forall l :: l in levels ==> |l| <= n
  {
    if levels == [] then 0
    else
      var n := LongestLevel(levels[1..]);
      if |levels[0]| > n then |levels[0]| else n
  }

  /** A level name that occurs in none of the given levels. */
  function FreshLevel(levels: seq<string>): (name: string)
    ensures name !in levels && name != "" && name[0] == 'x'
    ensures forall c :: c in name ==> c == 'x'
  {
    seq(LongestLevel(levels) + 1, _ => 'x')
  }

  /** A topic that a filter matches: `+` becomes `name`, a final `#` becomes `rest`. */
  function Instance(b: seq<string>, name: string, rest: seq<string>): seq<string> {
    if b == [] then []
    else if b[0] == "#" then rest
    else [if b[0] == "+" then name else b[0]] + Instance(b[1..], name, rest)
  }

  lemma {:induction false} InstanceMatches(b: seq<string>, name: string, rest: seq<string>)
    requires WellFormed(b)
    ensures LevelsMatch(b, Instance(b, name, rest))
  {
    if b != [] {
      InstanceMatches(b[1..], name, rest);
    }
  }

  lemma {:induction false} InstanceLevels(b: seq<string>, name: string, rest: seq<string>)
    requires WellFormed(b)
    requires forall l :: l in b ==> '/' !in l
    requires forall c :: c in name ==> c == 'x'
    requires forall l, c :: l in rest && c in l ==> c == 'x'
    ensures forall l, c :: l in Instance(b, name, rest) && c in l ==> c != '/' && c != '+' && c != '#'
  {
    if b != [] {
      InstanceLevels(b[1..], name, rest);
      assert b[0] in b;
    }
  }

  lemma {:induction false} PlainLevelsJoin(levels: seq<string>)
    requires |levels| >= 1 && levels != [""]
    requires forall l, c :: l in levels && c in l ==> c != '/' && c != '+' && c != '#'
    ensures ValidTopic(Join(levels, '/')) && Levels(Join(levels, '/')) == levels
  {
    SplitJoin(levels, '/');
    NoWildcardJoin(levels);
    if Join(levels, '/') == "" {
      SplitAlone("", '/');
    }
  }

  lemma {:induction false} NoWildcardJoin(levels: seq<string>)
    requires |levels| >= 1
    requires forall l, c :: l in levels && c in l ==> c != '+' && c != '#'
    ensures '+' !in Join(levels, '/') && '#' !in Join(levels, '/')
  {
    assert levels[0] in levels;
    if |levels| > 1 {
      NoWildcardJoin(levels[1..]);
    }
  }

  /** Without cover, one of two instances of `b` escapes `a`. */
  lemma {:induction false} InstanceEscapes(a: seq<string>, b: seq<string>, name: string)
    requires WellFormed(a) && WellFormed(b) && name !in a
    requires !LevelsCover(a, b)
    ensures !LevelsMatch(a, Instance(b, name, [name])) || !LevelsMatch(a, Instance(b, name, []))
  {
    if a != [] && b != [] && a[0] != "#" && b[0] != "#" && (a[0] == "+" || a[0] == b[0]) {
      InstanceEscapes(a[1..], b[1..], name);
    }
  }

  lemma {:induction false} CoverMatches(a: seq<string>, b: seq<string>, t: seq<string>)
    requires LevelsCover(a, b) && LevelsMatch(b, t)
    ensures LevelsMatch(a, t)
  {
    if a != [] && a[0] != "#" {
      CoverMatches(a[1..], b[1..], t[1..]);
    }
  }

  /** A topic given by its levels is matched by n and not by w. */
  ghost predicate Escapes(w: string, n: string, t: seq<string>) {
    && |t| >= 1
    && ValidTopic(Join(t, '/'))
    && Matches(n, Join(t, '/'))
    && !Matches(w, Join(t, '/'))
  }

  lemma EscapeWitness(w: string, n: string, name: string, rest: seq<string>)
    requires ValidFilter(n) && name == FreshLevel(Levels(w))
    requires rest in {[], [name], [name, name]}
    requires var t := Instance(Levels(n), name, rest);
      |t| >= 1 && t != [""] && (!LevelsMatch(Levels(w), t) || SystemGap(w, n))
    ensures Escapes(w, n, Instance(Levels(n), name, rest))
  {
    var b := Levels(n);
    var t := Instance(b, name, rest);
    InstanceLevels(b, name, rest);
    InstanceMatches(b, name, rest);
    PlainLevelsJoin(t);
    if IsWild(b[0]) {
      assert !IsSystem(t[0]);
    }
  }

  lemma ShapeOfGap(w: string, n: string)
    ensures EmptyTopicGap(w, n) <==>
      || (Levels(n) == ["#"] && Levels(w) == ["+", "#"])
      || (Levels(n) == ["", "#"] && (Levels(w) == ["", "+", "#"] || Levels(w) == ["+", "+", "#"]))
  {
    JoinSplit(w, '/');
    JoinSplit(n, '/');
    SplitJoin(["#"], '/');
    SplitJoin(["+", "#"], '/');
    SplitJoin(["", "#"], '/');
    SplitJoin(["", "+", "#"], '/');
    SplitJoin(["+", "+", "#"], '/');
    assert Join(["+", "#"], '/') == "+/#";
    assert Join(["", "#"], '/') == "/#";
    assert Join(["+", "#"], '/') == "+" + ['/'] + Join(["#"], '/');
    assert Join(["", "+", "#"], '/') == "" + ['/'] + Join(["+", "#"], '/') == "/+/#";
    assert Join(["+", "+", "#"], '/') == "+" + ['/'] + Join(["+", "#"], '/') == "+/+/#";
  }

  lemma OnlyPlusHash(a: seq<string>, name: string)
    requires a != [] && a[0] != "#" && WellFormed(a) && name !in a
    requires LevelsMatch(a, [name]) && LevelsMatch(a, [name, name])
    ensures a == ["+", "#"]
  {
  }

  lemma OnlySlashPlusHash(a: seq<string>, name: string)
    requires a != [] && WellFormed(a) && name !in a && !LevelsCover(a, ["", "#"])
    requires LevelsMatch(a, ["", name]) && LevelsMatch(a, ["", name, name])
    ensures a == ["", "+", "#"] || a == ["+", "+", "#"]
  {
    assert ["", name][1..] == [name] && ["", name, name][1..] == [name, name];
    assert ["", "#"][1..] == ["#"];
    assert a == [a[0]] + a[1..];
    OnlyPlusHash(a[1..], name);
  }

  lemma SlashHashInstance(name: string, rest: seq<string>)
    ensures Instance(["", "#"], name, rest) == [""] + rest
  {
  }

  lemma EscapeShortTopics(w: string, n: string)
    requires ValidFilter(w) && ValidFilter(n)
    requires !Covers(w, n) && !EmptyTopicGap(w, n)
    requires Levels(n) == ["#"] || Levels(n) == ["", "#"]
    ensures exists t :: Escapes(w, n, t)
  {
    ShapeOfGap(w, n);
    var a, b := Levels(w), Levels(n);
    var name := FreshLevel(a);
    var one, two := Instance(b, name, [name]), Instance(b, name, [name, name]);
    if !LevelsMatch(a, one) {
      EscapeWitness(w, n, name, [name]);
    } else if !LevelsMatch(a, two) {
      EscapeWitness(w, n, name, [name, name]);
    } else if |b| == 1 {
      OnlyPlusHash(a, name);
      assert false;
    } else {
      SlashHashInstance(name, [name]);
      SlashHashInstance(name, [name, name]);
      OnlySlashPlusHash(a, name);
      assert false;
    }
  }

  /** `covers` decides inclusion between valid filters exactly, apart from the
      two exceptions: it says yes on a system gap and no on an empty-topic gap. */
  lemma CoversExactly(w: string, n: string)
    requires ValidFilter(w) && ValidFilter(n)
    ensures Includes(w, n) <==> (Covers(w, n) && !SystemGap(w, n)) || EmptyTopicGap(w, n)
  {
    if Covers(w, n) && !SystemGap(w, n) {
      forall t | ValidTopic(t) && Matches(n, t) ensures Matches(w, t) {
        CoverMatches(Levels(w), Levels(n), Levels(t));
      }
    } else if EmptyTopicGap(w, n) {
      forall t | ValidTopic(t) && Matches(n, t) ensures Matches(w, t) {
        EmptyTopicGapIncludes(w, n, t);
      }
    } else {
      NotIncluded(w, n);
      var t :| Escapes(w, n, t);
      assert !Includes(w, n);
    }
  }

  lemma EmptyTopicGapIncludes(w: string, n: string, t: string)
    requires EmptyTopicGap(w, n) && ValidTopic(t) && Matches(n, t)
    ensures Matches(w, t)
  {
    ShapeOfGap(w, n);
    var b, c := Levels(n), Levels(t);
    if |b| == 2 {
      JoinSplit(t, '/');
      assert c[0] == "";
      assert Join([""], '/') == "";
      assert |c| >= 2;
      assert LevelsMatch(["+", "#"], c[1..]);
    }
  }

  lemma NotIncluded(w: string, n: string)
    requires ValidFilter(w) && ValidFilter(n)
    requires !((Covers(w, n) && !SystemGap(w, n)) || EmptyTopicGap(w, n))
    ensures exists t :: Escapes(w, n, t)
  {
    var a, b := Levels(w), Levels(n);
    var name := FreshLevel(a);
    assert Join([""], '/') == "";
    if SystemGap(w, n) {
      assert Instance(b, name, [name])[0] == b[0];
      EscapeWitness(w, n, name, [name]);
    } else if b == ["#"] || b == ["", "#"] {
      EscapeShortTopics(w, n);
    } else {
      InstanceEscapes(a, b, name);
      if !LevelsMatch(a, Instance(b, name, [name])) {
        EscapeWitness(w, n, name, [name]);
      } else {
        EscapeWitness(w, n, name, []);
      }
    }
  }

  lemma {:induction false} LevelsCoverReflexive(a: seq<string>)
    ensures LevelsCover(a, a)
  {
    if a != [] { LevelsCoverReflexive(a[1..]); }
  }

  lemma {:induction false} LevelsCoverTransitive(a: seq<string>, b: seq<string>, c: seq<string>)
    requires LevelsCover(a, b) && LevelsCover(b, c)
    ensures LevelsCover(a, c)
  {
    if a != [] && a[0] != "#" { LevelsCoverTransitive(a[1..], b[1..], c[1..]); }
  }

  lemma {:induction false} LevelsCoverAntisymmetric(a: seq<string>, b: seq<string>)
    requires WellFormed(a) && WellFormed(b)
    requires LevelsCover(a, b) && LevelsCover(b, a)
    ensures a == b
  {
    if a != [] && b != [] {
      if a[0] != "#" {
        LevelsCoverAntisymmetric(a[1..], b[1..]);
      }
      assert a == [a[0]] + a[1..] && b == [b[0]] + b[1..];
    }
  }

  /** Inclusion as `covers` decides it is a partial order on valid filters. */
  lemma CoversIsPartialOrder(f: string, g: string, h: string)
    requires ValidFilter(f) && ValidFilter(g)
    ensures Covers(f, f)
    ensures Covers(f, g) && Covers(g, h) ==> Covers(f, h)
    ensures Covers(f, g) && Covers(g, f) ==> f == g
  {
    LevelsCoverReflexive(Levels(f));
    if Covers(f, g) && Covers(g, h) {
      LevelsCoverTransitive(Levels(f), Levels(g), Levels(h));
    }
    if Covers(f, g) && Covers(g, f) {
      JoinSplit(f, '/');
      JoinSplit(g, '/');
      LevelsCoverAntisymmetric(Levels(f), Levels(g));
    }
  }

  // --------------------------------------------- pruning the subscriptions

  function InsertFilter(f: string, sorted: seq<string>): (r: seq<string>)
    ensures multiset(r) == multiset{f} + multiset(sorted)
  {
    if sorted == [] || !TextLess(sorted[0], f) then [f] + sorted
    else
      assert sorted == [sorted[0]] + sorted[1..];
      [sorted[0]] + InsertFilter(f, sorted[1..])
  }

  function SortFilters(filters: seq<string>): (r: seq<string>)
    ensures multiset(r) == multiset(filters)
  {
    if filters == [] then []
    else
      assert filters == [filters[0]] + filters[1..];
      InsertFilter(filters[0], SortFilters(filters[1..]))
  }

  /** The first other filter, in subscription order, that covers n. */
  function FirstCover(order: seq<string>, n: string): (r: Option<string>)
    ensures r.Some? ==> r.value in order && r.value != n && Covers(r.value, n)
    ensures r.None? ==> forall f :: f in order && f != n ==> !Covers(f, n)
  {
    if order == [] then None
    else if order[0] != n && Covers(order[0], n) then Some(order[0])
    else FirstCover(order[1..], n)
  }

  /** It is the first one, and the keeper is it or, without any, n itself. */
  lemma {:induction false} FirstCoverIsFirst(order: seq<string>, n: string, i: nat)
    requires i < |order| && order[i] != n && Covers(order[i], n)
    requires forall k :: 0 <= k < i ==> order[k] == n || !Covers(order[k], n)
    ensures FirstCover(order, n) == Some(order[i]) && Keeper(order, n) == order[i]
  {
    if i > 0 {
      FirstCoverIsFirst(order[1..], n, i - 1);
    }
  }

  /** The subscription that stands for n after pruning. */
  function Keeper(order: seq<string>, n: string): string {
    if FirstCover(order, n).None? then n else FirstCover(order, n).value
  }

  /** pruned[k] is accounted for by k itself or by a filter that k stands for. */
  ghost predicate Justified(order: seq<string>, qos: map<string, nat>, done: seq<string>, k: string, level: nat)
    requires forall f :: f in order ==> f in qos
  {
    k in order && qos[k] <= level
    && exists n :: n in done && n in order && Keeper(order, n) == k && (level == qos[n] || level == qos[k])
  }

  /** Every filter is replaced by its keeper, and a keeper's quality of service
      is the highest among itself and the filters it stands for. */
  ghost predicate IsPruning(order: seq<string>, qos: map<string, nat>, done: seq<string>, pruned: map<string, nat>)
    requires forall f :: f in order ==> f in qos
  {
    && (forall n :: n in done && n in order ==>
         Keeper(order, n) in pruned && qos[n] <= pruned[Keeper(order, n)])
    && (forall k :: k in pruned ==> Justified(order, qos, done, k, pruned[k]))
  }

  lemma PruneStep(order: seq<string>, qos: map<string, nat>, done: seq<string>, pruned: map<string, nat>,
      n: string, k: string, level: nat)
    requires forall f :: f in order ==> f in qos
    requires IsPruning(order, qos, done, pruned)
    requires n in order && k in order && Keeper(order, n) == k
    requires level == Max(Max(if k in pruned then pruned[k] else 0, qos[n]), qos[k])
    ensures IsPruning(order, qos, done + [n], pruned[k := level])
  {
    var after := pruned[k := level];
    forall j | j in after ensures Justified(order, qos, done + [n], j, after[j]) {
      if j != k || (k in pruned && level == pruned[k]) {
        assert Justified(order, qos, done, j, pruned[j]);
      } else {
        assert n in done + [n];
      }
    }
  }

  method NarrowFilters(order: seq<string>, qos: map<string, nat>) returns (narrowed: map<string, nat>)
    requires forall f :: f in order <==> f in qos
    ensures IsPruning(order, qos, order, narrowed)
  {
    narrowed := map[];
    var sorted := SortFilters(order);
    for i := 0 to |sorted|
      invariant IsPruning(order, qos, sorted[..i], narrowed)
    {
      var n := sorted[i];
      SortedMember(order, sorted, i);
      assert sorted[..i + 1] == sorted[..i] + [n];
      ghost var was := narrowed;
      var covering := FirstCover(order, n);
      if covering.None? {
        narrowed := narrowed[n := Max(if n in narrowed then narrowed[n] else 0, qos[n])];
        PruneStep(order, qos, sorted[..i], was, n, n, narrowed[n]);
      } else {
        var c := covering.value;
        narrowed := narrowed[c := Max(Max(if c in narrowed then narrowed[c] else 0, qos[n]), qos[c])];
        PruneStep(order, qos, sorted[..i], was, n, c, narrowed[c]);
      }
    }
    PruningOfPermutation(order, qos, sorted, narrowed);
  }

  lemma SortedMember(order: seq<string>, sorted: seq<string>, i: nat)
    requires multiset(sorted) == multiset(order) && i < |sorted|
    ensures sorted[i] in order
  {
    assert sorted[i] in multiset(sorted) && sorted[i] in multiset(order);
  }

  lemma PruningOfPermutation(order: seq<string>, qos: map<string, nat>, sorted: seq<string>, pruned: map<string, nat>)
    requires forall f :: f in order ==> f in qos
    requires multiset(sorted) == multiset(order)
    requires IsPruning(order, qos, sorted[..|sorted|], pruned)
    ensures IsPruning(order, qos, order, pruned)
  {
    assert sorted[..|sorted|] == sorted;
    forall n | n in order ensures n in sorted {
      assert n in multiset(order) && n in multiset(sorted);
    }
    forall k | k in pruned ensures Justified(order, qos, order, k, pruned[k]) {
      assert Justified(order, qos, sorted, k, pruned[k]);
    }
  }

  function Max(a: nat, b: nat): nat {
    if a < b then b else a
  }

  /** No subscriber is forgotten: each one has a keeper that covers it at its
      quality of service. A topic it matched still arrives through the keeper,
      except a `$` topic whose keeper starts with a wildcard. */
  lemma NarrowingServes(order: seq<string>, qos: map<string, nat>, narrowed: map<string, nat>, n: string,
      topic: string)
    requires forall f :: f in order <==> f in qos
    requires IsPruning(order, qos, order, narrowed)
    requires n in order
    ensures var k := Keeper(order, n);
      && k in narrowed && k in order && qos[n] <= narrowed[k] && Covers(k, n)
      && (Matches(n, topic) ==> (Matches(k, topic) <==> !SystemGap(k, topic)))
  {
    var k := Keeper(order, n);
    LevelsCoverReflexive(Levels(n));
    if Matches(n, topic) {
      CoverMatches(Levels(k), Levels(n), Levels(topic));
    }
  }

  lemma SystemTopicLevels()
    ensures Levels("#") == ["#"] && Levels("$SYS/x") == ["$SYS", "x"]
  {
    SplitJoin(["#"], '/');
    SplitJoin(["$SYS", "x"], '/');
    assert Join(["$SYS", "x"], '/') == "$SYS" + ['/'] + Join(["x"], '/') == "$SYS/x";
  }

  /** The exception is real: subscribing to `#` silences a `$SYS/x` handler. */
  lemma NarrowingLosesSystemTopics()
    ensures ValidFilter("#") && ValidFilter("$SYS/x")
    ensures Keeper(["#", "$SYS/x"], "$SYS/x") == "#"
    ensures Matches("$SYS/x", "$SYS/x") && !Matches("#", "$SYS/x")
  {
    SystemTopicLevels();
    var sys := ["$SYS", "x"];
    assert WellFormed(sys) && WellFormed(["#"]);
    assert LevelsMatch(sys, sys) by {
      assert sys[1..] == ["x"] && ["x"][1..] == [];
    }
  }

  ghost predicate IsAntichain(filters: set<string>) {
    forall f, g :: f in filters && g in filters && f != g ==> !Covers(f, g)
  }

  ghost function StrictlyAbove(order: seq<string>, n: string): set<string> {
    set f | f in order && f != n && Covers(f, n)
  }

  /** Above every covered filter there is an uncovered one. */
  lemma {:induction false} UncoveredAbove(order: seq<string>, n: string) returns (top: string)
    requires forall f :: f in order ==> ValidFilter(f)
    requires n in order && FirstCover(order, n).Some?
    ensures top in order && top != n && Covers(top, n) && FirstCover(order, top).None?
    decreases StrictlyAbove(order, n)
  {
    var c := FirstCover(order, n).value;
    if FirstCover(order, c).None? {
      top := c;
    } else {
      forall f | f in StrictlyAbove(order, c) ensures f in StrictlyAbove(order, n) {
        CoversIsPartialOrder(f, c, n);
        CoversIsPartialOrder(c, n, c);
      }
      assert c in StrictlyAbove(order, n) && c !in StrictlyAbove(order, c);
      top := UncoveredAbove(order, c);
      CoversIsPartialOrder(top, c, n);
      CoversIsPartialOrder(c, n, c);
    }
  }

  /** The table that remains holds no overlapping pair exactly when every
      filter's first cover is itself uncovered. */
  lemma NarrowedIsAntichainIff(order: seq<string>, qos: map<string, nat>, narrowed: map<string, nat>)
    requires forall f :: f in order <==> f in qos
    requires forall f :: f in order ==> ValidFilter(f)
    requires IsPruning(order, qos, order, narrowed)
    ensures IsAntichain(narrowed.Keys) <==>
      forall n :: n in order && FirstCover(order, n).Some? ==> FirstCover(order, FirstCover(order, n).value).None?
  {
    if n :| n in order && FirstCover(order, n).Some? && FirstCover(order, FirstCover(order, n).value).Some? {
      var c := FirstCover(order, n).value;
      var top := UncoveredAbove(order, c);
      assert Keeper(order, n) == c && Keeper(order, top) == top;
      assert !IsAntichain(narrowed.Keys) by {
        assert c in narrowed && top in narrowed;
      }
    } else {
      forall k | k in narrowed ensures FirstCover(order, k).None? {
        assert Justified(order, qos, order, k, narrowed[k]);
        var n :| n in order && Keeper(order, n) == k;
      }
      forall f, g | f in narrowed && g in narrowed && f != g ensures !Covers(f, g) {
        assert Justified(order, qos, order, f, narrowed[f]);
      }
    }
  }

  lemma OverlapLevels()
    ensures Levels("a/b/#") == ["a", "b", "#"] && Levels("a/#") == ["a", "#"] && Levels("a/b/c") == ["a", "b", "c"]
  {
    var ab, a, abc := ["a", "b", "#"], ["a", "#"], ["a", "b", "c"];
    SplitJoin(ab, '/');
    SplitJoin(a, '/');
    SplitJoin(abc, '/');
    assert ab[1..] == ["b", "#"] && abc[1..] == ["b", "c"] && a[1..] == ["#"];
    assert ab[1..][1..] == ["#"] && abc[1..][1..] == ["c"];
    assert Join(a, '/') == "a" + ['/'] + Join(["#"], '/') == "a/#";
    assert Join(ab, '/') == "a" + ['/'] + ("b" + ['/'] + Join(["#"], '/')) == "a/b/#";
    assert Join(abc, '/') == "a" + ['/'] + ("b" + ['/'] + Join(["c"], '/')) == "a/b/c";
  }

  lemma OverlapCovers()
    ensures Covers("a/b/#", "a/b/c") && Covers("a/#", "a/b/#") && !Covers("a/b/#", "a/#") && !Covers("a/b/c", "a/#")
  {
    OverlapLevels();
    var ab, a, abc := ["a", "b", "#"], ["a", "#"], ["a", "b", "c"];
    assert ab[1..] == ["b", "#"] && abc[1..] == ["b", "c"] && a[1..] == ["#"];
    assert ab[1..][1..] == ["#"] && abc[1..][1..] == ["c"];
    assert LevelsCover(ab, abc) && LevelsCover(a, ab) && !LevelsCover(ab, a) && !LevelsCover(abc, a);
  }

  /** With this subscription order `a/b/#` survives beside `a/#`. */
  lemma NarrowingKeepsOverlap()
    ensures var order := ["a/b/#", "a/#", "a/b/c"];
      && Keeper(order, "a/b/c") == "a/b/#"
      && Keeper(order, "a/#") == "a/#"
      && Covers("a/#", "a/b/#")
  {
    OverlapCovers();
    var order := ["a/b/#", "a/#", "a/b/c"];
    assert order[1..] == ["a/#", "a/b/c"] && order[1..][1..] == ["a/b/c"] && order[1..][1..][1..] == [];
  }
}
