/** The canonical text of a message pattern: `normalize_pattern`, `_to_route`,
    `_escape` and `_collate` of fastapi_modular/core/rpc.py, for patterns made
    of strings, integers, booleans and dicts with string keys. */
module Rpc {
  import opened Text

  const MAX_DEPTH := 5
  const MAX_KEYS := 20

  datatype Entry = Entry(key: string, value: Pattern)

  /** A dict lists its entries in insertion order. */
  datatype Pattern = Str(text: string) | Bool(flag: bool) | Int(number: int) | Dict(entries: seq<Entry>)

  ghost predicate DistinctKeys(entries: seq<Entry>) {
    forall i, j :: 0 <= i < j < |entries| ==> entries[i].key != entries[j].key
  }

  /** Dict keys are distinct at every depth. */
  ghost predicate WellFormed(p: Pattern) {
    p.Dict? ==> DistinctKeys(p.entries) && forall i :: 0 <= i < |p.entries| ==> WellFormed(p.entries[i].value)
  }

  // ------------------------------------------------------------- collation

  const MARKS := " _-,;:!?.'\"()[]{}@*/\\&#%`^+<=>|~$"

  const LETTERS := "aAbBcCdDeEfFgGhHiIjJkKlLmM" + "nNoOpPqQrRsStTuUvVwWxXyYzZ"

  /** The printable ASCII characters in the order of `localeCompare`. */
  const ICU_ASCII := MARKS + "0123456789" + LETTERS

  function IndexIn(table: string, ch: char): (i: nat)
    ensures i <= |table|
    ensures i < |table| ==> table[i] == ch
  {
    if table == "" || table[0] == ch then 0 else 1 + IndexIn(table[1..], ch)
  }

  predicate IsUpper(ch: char) { 'A' <= ch <= 'Z' }

  predicate IsLower(ch: char) { 'a' <= ch <= 'z' }

  /** The letter weight: both cases of a letter share one. */
  function LetterWeightIn(table: string, ch: char): nat {
    var i := IndexIn(table, ch);
    if i == |table| then 4 * |table| + ch as int
    else if IsLower(ch) then |table| + (ch as int - 'a' as int)
    else if IsUpper(ch) then |table| + (ch as int - 'A' as int)
    else i
  }

  function CaseWeightIn(table: string, ch: char): nat {
    if IndexIn(table, ch) < |table| && IsUpper(ch) then 1 else 0
  }

  function LetterWeight(ch: char): nat { LetterWeightIn(ICU_ASCII, ch) }

  function CaseWeight(ch: char): nat { CaseWeightIn(ICU_ASCII, ch) }

  function Letters(s: string): (w: seq<nat>)
    ensures |w| == |s|
  {
    if s == "" then [] else Letters(s[..|s| - 1]) + [LetterWeight(s[|s| - 1])]
  }

  function Cases(s: string): (w: seq<nat>)
    ensures |w| == |s|
  {
    if s == "" then [] else Cases(s[..|s| - 1]) + [CaseWeight(s[|s| - 1])]
  }

  method Collate(s: string) returns (letters: seq<nat>, cases: seq<nat>)
    ensures letters == Letters(s) && cases == Cases(s)
  {
    letters, cases := [], [];
    for i := 0 to |s|
      invariant letters == Letters(s[..i]) && cases == Cases(s[..i])
    {
      assert s[..i + 1][..i] == s[..i];
      letters := letters + [LetterWeight(s[i])];
      cases := cases + [CaseWeight(s[i])];
    }
    assert s[..|s|] == s;
  }

  /** Python's comparison of tuples of integers. */
  predicate TupleLess(a: seq<nat>, b: seq<nat>) {
    if b == [] then false
    else if a == [] then true
    else a[0] < b[0] || (a[0] == b[0] && TupleLess(a[1..], b[1..]))
  }

  /** The whole letter tier first, the case tier only on a tie. */
  predicate KeyLess(a: string, b: string) {
    TupleLess(Letters(a), Letters(b)) || (Letters(a) == Letters(b) && TupleLess(Cases(a), Cases(b)))
  }

  lemma {:induction false} TupleLessTotal(a: seq<nat>, b: seq<nat>, c: seq<nat>)
    ensures !(TupleLess(a, b) && TupleLess(b, a))
    ensures a == b || TupleLess(a, b) || TupleLess(b, a)
    ensures TupleLess(a, b) && TupleLess(b, c) ==> TupleLess(a, c)
    ensures !TupleLess(a, a)
  {
    if a != [] {
      TupleLessTotal(a[1..], if b == [] then [] else b[1..], if c == [] then [] else c[1..]);
      if b != [] {
        assert a == [a[0]] + a[1..] && b == [b[0]] + b[1..];
      }
    }
  }

  /** A table of at least nine characters leaves room for the letters below
      the characters outside it. */
  lemma WeightsIdentify(table: string, x: char, y: char)
    requires |table| >= 9
    requires LetterWeightIn(table, x) == LetterWeightIn(table, y) && CaseWeightIn(table, x) == CaseWeightIn(table, y)
    ensures x == y
  {
  }

  lemma SameWeights(x: char, y: char)
    requires LetterWeight(x) == LetterWeight(y) && CaseWeight(x) == CaseWeight(y)
    ensures x == y
  {
    assert |ICU_ASCII| == |MARKS| + 10 + |LETTERS| >= 9;
    WeightsIdentify(ICU_ASCII, x, y);
  }

  lemma {:induction false} WeightsOf(s: string, i: nat)
    requires i < |s|
    ensures Letters(s)[i] == LetterWeight(s[i]) && Cases(s)[i] == CaseWeight(s[i])
  {
    var n := |s| - 1;
    assert Letters(s) == Letters(s[..n]) + [LetterWeight(s[n])];
    assert Cases(s) == Cases(s[..n]) + [CaseWeight(s[n])];
    if i < n {
      WeightsOf(s[..n], i);
    }
  }

  /** The two tiers together lose nothing. */
  lemma CollateInjective(a: string, b: string)
    requires Letters(a) == Letters(b) && Cases(a) == Cases(b)
    ensures a == b
  {
    forall i | 0 <= i < |a| ensures a[i] == b[i] {
      WeightsOf(a, i);
      WeightsOf(b, i);
      SameWeights(a[i], b[i]);
    }
  }

  /** Collation is a strict total order on all strings. */
  lemma CollationIsTotal(a: string, b: string, c: string)
    ensures !KeyLess(a, a)
    ensures a != b ==> KeyLess(a, b) || KeyLess(b, a)
    ensures !(KeyLess(a, b) && KeyLess(b, a))
    ensures KeyLess(a, b) && KeyLess(b, c) ==> KeyLess(a, c)
  {
    TupleLessTotal(Letters(a), Letters(b), Letters(c));
    TupleLessTotal(Cases(a), Cases(b), Cases(c));
    if Letters(a) == Letters(b) && Cases(a) == Cases(b) {
      CollateInjective(a, b);
    }
  }

  // ------------------------------------------------------------- rendering

  function Replace(s: string, ch: char, other: string): string {
    if s == "" then "" else (if s[0] == ch then other else [s[0]]) + Replace(s[1..], ch, other)
  }

  function Escape(s: string): string {
    Replace(Replace(s, '\\', "\\\\"), '"', "\\\"")
  }

  /** `sorted`, as insertion. */
  function Insert(e: Entry, s: seq<Entry>): seq<Entry> {
    if s == [] || !KeyLess(s[0].key, e.key) then [e] + s else [s[0]] + Insert(e, s[1..])
  }

  function Sort(s: seq<Entry>): seq<Entry> {
    if s == [] then [] else Insert(s[0], Sort(s[1..]))
  }

  function Left(depth: nat): nat {
    if depth > MAX_DEPTH then 0 else MAX_DEPTH + 1 - depth
  }

  function Route(p: Pattern, depth: nat): string
    decreases Left(depth), 1, 0
  {
    match p
    case Str(text) => text
    case Bool(flag) => if flag then "true" else "false"
    case Int(number) => Decimal(number)
    case Dict(entries) =>
      if depth > MAX_DEPTH then "[MAX_DEPTH_REACHED]"
      else if |entries| > MAX_KEYS then "[TOO_MANY_KEYS]"
      else DictText(Sort(entries), depth + 1)
  }

  function DictText(sorted: seq<Entry>, depth: nat): (text: string)
    ensures text != "" && text[0] == '{'
    decreases Left(depth), 3, 0
  {
    "{" + Body(sorted, depth) + "}"
  }

  function Rendered(p: Pattern, depth: nat): string
    decreases Left(depth), 1, 1
  {
    if p.Str? then "\"" + Escape(Route(p, depth)) + "\"" else Route(p, depth)
  }

  function Part(e: Entry, depth: nat): string
    decreases Left(depth), 1, 2
  {
    "\"" + Escape(e.key) + "\":" + Rendered(e.value, depth)
  }

  function Body(s: seq<Entry>, depth: nat): string
    decreases Left(depth), 2, |s|
  {
    if s == [] then ""
    else Part(s[0], depth) + if |s| == 1 then "" else "," + Body(s[1..], depth)
  }

  function NormalizePattern(p: Pattern): string { Route(p, 0) }

  // ------------------------------------------------------------- the methods

  /** The pieces between the commas. */
  function Parts(s: seq<Entry>, depth: nat): (parts: seq<string>)
    ensures |parts| == |s|
  {
    if s == [] then [] else [Part(s[0], depth)] + Parts(s[1..], depth)
  }

  lemma {:induction false} JoinIsBody(s: seq<Entry>, depth: nat)
    ensures Body(s, depth) == if s == [] then "" else Join(Parts(s, depth), ',')
  {
    if |s| > 1 {
      JoinIsBody(s[1..], depth);
      assert Parts(s, depth)[1..] == Parts(s[1..], depth);
    } else if |s| == 1 {
      assert Parts(s, depth) == [Part(s[0], depth)];
    }
  }

  lemma {:induction false} PartsAppend(s: seq<Entry>, e: Entry, depth: nat)
    ensures Parts(s + [e], depth) == Parts(s, depth) + [Part(e, depth)]
  {
    if s != [] {
      assert (s + [e])[1..] == s[1..] + [e];
      PartsAppend(s[1..], e, depth);
    }
  }

  /** `_to_route` */
  method ToRoute(p: Pattern, depth: nat) returns (text: string)
    ensures text == Route(p, depth)
    decreases Left(depth), 1
  {
    match p
    case Str(s) => text := s;
    case Bool(flag) => text := if flag then "true" else "false";
    case Int(number) => text := Decimal(number);
    case Dict(entries) =>
      if depth > MAX_DEPTH { return "[MAX_DEPTH_REACHED]"; }
      if |entries| > MAX_KEYS { return "[TOO_MANY_KEYS]"; }
      var sorted := Sort(entries);
      text := ToDict(sorted, depth + 1);
  }

  /** One part per key, in the order of the keys. */
  method ToDict(sorted: seq<Entry>, depth: nat) returns (text: string)
    ensures text == DictText(sorted, depth)
    decreases Left(depth), 3
  {
    var parts: seq<string> := [];
    for i := 0 to |sorted|
      invariant parts == Parts(sorted[..i], depth)
    {
      var part := ToPart(sorted[i], depth);
      assert sorted[..i + 1] == sorted[..i] + [sorted[i]];
      PartsAppend(sorted[..i], sorted[i], depth);
      parts := parts + [part];
    }
    assert sorted[..|sorted|] == sorted;
    JoinIsBody(sorted, depth);
    text := "{" + (if parts == [] then "" else Join(parts, ',')) + "}";
  }

  method ToPart(e: Entry, depth: nat) returns (part: string)
    ensures part == Part(e, depth)
    decreases Left(depth), 2
  {
    var value := ToRoute(e.value, depth);
    var rendered := if e.value.Str? then "\"" + Escape(value) + "\"" else value;
    part := "\"" + Escape(e.key) + "\":" + rendered;
  }

  // ------------------------------------------------------- what a pattern means

  /** What the receiver can tell apart: a dict is a map from keys to values, and
      a dict beyond a limit is only known to be beyond it. */
  datatype View = VStr(text: string) | VBool(flag: bool) | VInt(number: int)
    | VDict(fields: map<string, View>) | VDeep | VMany

  ghost function ViewOf(p: Pattern, depth: nat): View
    decreases Left(depth), 1
  {
    match p
    case Str(text) => VStr(text)
    case Bool(flag) => VBool(flag)
    case Int(number) => VInt(number)
    case Dict(entries) =>
      if depth > MAX_DEPTH then VDeep
      else if |entries| > MAX_KEYS then VMany
      else VDict(Fields(entries, depth + 1))
  }

  ghost function Fields(s: seq<Entry>, depth: nat): map<string, View>
    decreases Left(depth), 2, |s|
  {
    if s == [] then map[] else Fields(s[1..], depth)[s[0].key := ViewOf(s[0].value, depth)]
  }

  // ------------------------------------------------------------ sorting the keys

  ghost predicate Sorted(s: seq<Entry>) {
    forall i, j :: 0 <= i < j < |s| ==> KeyLess(s[i].key, s[j].key)
  }

  lemma {:induction false} InsertSorts(e: Entry, s: seq<Entry>)
    requires Sorted(s) && forall i :: 0 <= i < |s| ==> s[i].key != e.key
    ensures Sorted(Insert(e, s))
    ensures forall x :: x in Insert(e, s) <==> x == e || x in s
  {
    if s != [] {
      assert s == [s[0]] + s[1..];
      if KeyLess(s[0].key, e.key) {
        InsertSorts(e, s[1..]);
        var r := Insert(e, s[1..]);
        forall k | 0 <= k < |r| ensures KeyLess(s[0].key, r[k].key) {
          assert r[k] in r;
          if r[k] != e {
            var i :| 0 <= i < |s[1..]| && s[1..][i] == r[k];
            assert KeyLess(s[0].key, s[i + 1].key);
          }
        }
      } else {
        forall k | 0 <= k < |s| ensures KeyLess(e.key, s[k].key) {
          CollationIsTotal(e.key, s[0].key, s[k].key);
        }
      }
    }
  }

  lemma {:induction false} SortSorts(s: seq<Entry>)
    requires DistinctKeys(s)
    ensures Sorted(Sort(s))
    ensures forall x :: x in Sort(s) <==> x in s
  {
    if s != [] {
      assert s == [s[0]] + s[1..];
      SortSorts(s[1..]);
      var r := Sort(s[1..]);
      forall k | 0 <= k < |r| ensures r[k].key != s[0].key {
        assert r[k] in r;
      }
      InsertSorts(s[0], r);
    }
  }

  lemma {:induction false} FieldsOfInsert(e: Entry, s: seq<Entry>, depth: nat)
    requires forall i :: 0 <= i < |s| ==> s[i].key != e.key
    ensures Fields(Insert(e, s), depth) == Fields(s, depth)[e.key := ViewOf(e.value, depth)]
  {
    if s != [] && KeyLess(s[0].key, e.key) {
      FieldsOfInsert(e, s[1..], depth);
      var r := Insert(e, s);
      assert r[0] == s[0] && r[1..] == Insert(e, s[1..]);
    } else {
      assert ([e] + s)[1..] == s;
    }
  }

  /** Sorting the entries keeps what the dict means. */
  lemma {:induction false} FieldsOfSorted(s: seq<Entry>, depth: nat)
    requires DistinctKeys(s)
    ensures Fields(Sort(s), depth) == Fields(s, depth)
  {
    if s != [] {
      FieldsOfSorted(s[1..], depth);
      SortSorts(s[1..]);
      var r := Sort(s[1..]);
      forall k | 0 <= k < |r| ensures r[k].key != s[0].key {
        assert r[k] in r;
      }
      FieldsOfInsert(s[0], r, depth);
    }
  }

  lemma {:induction false} FieldsKeys(s: seq<Entry>, depth: nat, key: string)
    ensures key in Fields(s, depth) <==> exists i :: 0 <= i < |s| && s[i].key == key
  {
    if s != [] {
      FieldsKeys(s[1..], depth, key);
      if exists i :: 0 <= i < |s| && s[i].key == key {
        var i :| 0 <= i < |s| && s[i].key == key;
        assert i > 0 ==> s[1..][i - 1].key == key;
      }
      if exists i :: 0 <= i < |s[1..]| && s[1..][i].key == key {
        var i :| 0 <= i < |s[1..]| && s[1..][i].key == key;
        assert s[i + 1].key == key;
      }
    }
  }

  /** The same keys in the same order, with the same meaning. */
  ghost predicate SameEntries(a: seq<Entry>, b: seq<Entry>, depth: nat) {
    && |a| == |b|
    && forall i :: 0 <= i < |a| ==> a[i].key == b[i].key && ViewOf(a[i].value, depth) == ViewOf(b[i].value, depth)
  }

  /** Sorted entries are determined by the map they stand for. */
  lemma {:induction false} SortedIsDetermined(a: seq<Entry>, b: seq<Entry>, depth: nat)
    requires Sorted(a) && Sorted(b) && Fields(a, depth) == Fields(b, depth)
    ensures SameEntries(a, b, depth)
  {
    if a == [] {
      if b != [] { FieldsKeys(b, depth, b[0].key); }
    } else {
      FieldsKeys(a, depth, a[0].key);
      FieldsKeys(b, depth, a[0].key);
      var j :| 0 <= j < |b| && b[j].key == a[0].key;
      FieldsKeys(b, depth, b[0].key);
      FieldsKeys(a, depth, b[0].key);
      var i :| 0 <= i < |a| && a[i].key == b[0].key;
      CollationIsTotal(a[0].key, b[0].key, a[0].key);
      assert a[0].key == b[0].key;
      FirstIsGone(a, depth);
      FirstIsGone(b, depth);
      SortedIsDetermined(a[1..], b[1..], depth);
    }
  }

  lemma FirstIsGone(s: seq<Entry>, depth: nat)
    requires Sorted(s) && s != []
    ensures Sorted(s[1..])
    ensures Fields(s[1..], depth) == Fields(s, depth) - {s[0].key}
  {
    forall i, j | 0 <= i < j < |s[1..]| ensures KeyLess(s[1..][i].key, s[1..][j].key) {
      assert KeyLess(s[i + 1].key, s[j + 1].key);
    }
    FieldsKeys(s[1..], depth, s[0].key);
    if s[0].key in Fields(s[1..], depth) {
      var i :| 0 <= i < |s[1..]| && s[1..][i].key == s[0].key;
      assert KeyLess(s[0].key, s[i + 1].key);
      CollationIsTotal(s[0].key, s[0].key, s[0].key);
    }
  }

  // --------------------------------------------------- same meaning, same text

  /** Insertion order does not show: patterns that mean the same are rendered
      the same, at every depth. */
  lemma {:induction false} SameViewSameRoute(p: Pattern, q: Pattern, depth: nat)
    requires WellFormed(p) && WellFormed(q) && ViewOf(p, depth) == ViewOf(q, depth)
    ensures Route(p, depth) == Route(q, depth)
    decreases Left(depth), 1
  {
    match p
    case Str(_) =>
    case Bool(_) =>
    case Int(_) =>
    case Dict(a) =>
      assert q.Dict?;
      if depth <= MAX_DEPTH && |a| <= MAX_KEYS {
        assert |q.entries| <= MAX_KEYS;
        SameFieldsSameText(p, q, depth + 1);
      }
  }

  lemma {:induction false} SameFieldsSameText(p: Pattern, q: Pattern, depth: nat)
    requires WellFormed(p) && WellFormed(q) && p.Dict? && q.Dict?
    requires Fields(p.entries, depth) == Fields(q.entries, depth)
    ensures DictText(Sort(p.entries), depth) == DictText(Sort(q.entries), depth)
    decreases Left(depth), 3
  {
    FieldsOfSorted(p.entries, depth);
    FieldsOfSorted(q.entries, depth);
    SortSorts(p.entries);
    SortSorts(q.entries);
    var a, b := Sort(p.entries), Sort(q.entries);
    SortedIsDetermined(a, b, depth);
    SortKeepsWellFormed(p);
    SortKeepsWellFormed(q);
    SameEntriesSameBody(a, b, depth);
  }

  ghost predicate WellFormedValues(s: seq<Entry>) {
    forall i :: 0 <= i < |s| ==> WellFormed(s[i].value)
  }

  lemma SortKeepsWellFormed(p: Pattern)
    requires WellFormed(p) && p.Dict?
    ensures WellFormedValues(Sort(p.entries))
  {
    SortSorts(p.entries);
    forall i | 0 <= i < |Sort(p.entries)| ensures WellFormed(Sort(p.entries)[i].value) {
      assert Sort(p.entries)[i] in Sort(p.entries);
    }
  }

  lemma {:induction false} SameEntriesSameBody(a: seq<Entry>, b: seq<Entry>, depth: nat)
    requires WellFormedValues(a) && WellFormedValues(b) && SameEntries(a, b, depth)
    ensures Body(a, depth) == Body(b, depth)
    decreases Left(depth), 2, |a|
  {
    if a != [] {
      SameViewSameRoute(a[0].value, b[0].value, depth);
      assert Part(a[0], depth) == Part(b[0], depth);
      SameEntriesSameBody(a[1..], b[1..], depth);
    }
  }

  // --------------------------------------------------- same text, same meaning

  function EscapeOne(c: char): string {
    if c == '\\' then "\\\\" else if c == '"' then "\\\"" else [c]
  }

  function EscapeEach(s: string): string {
    if s == "" then "" else EscapeOne(s[0]) + EscapeEach(s[1..])
  }

  lemma {:induction false} ReplaceConcat(a: string, b: string, ch: char, other: string)
    ensures Replace(a + b, ch, other) == Replace(a, ch, other) + Replace(b, ch, other)
  {
    if a == "" {
      assert a + b == b;
    } else {
      assert (a + b)[0] == a[0] && (a + b)[1..] == a[1..] + b;
      ReplaceConcat(a[1..], b, ch, other);
    }
  }

  /** The two passes of `_escape` act on each character alone: a backslash put
      in by the second pass is never escaped again. */
  lemma {:induction false} EscapeIsEach(s: string)
    ensures Escape(s) == EscapeEach(s)
  {
    if s != "" {
      EscapeIsEach(s[1..]);
      var one := if s[0] == '\\' then "\\\\" else [s[0]];
      ReplaceConcat(one, Replace(s[1..], '\\', "\\\\"), '"', "\\\"");
      assert one[1..] == if s[0] == '\\' then "\\" else "";
      assert "\\"[1..] == "";
    }
  }

  lemma OneReads(c: char, d: char, s: string, t: string)
    requires EscapeOne(c) + s == EscapeOne(d) + t
    ensures c == d && s == t
  {
    var x, y := EscapeOne(c), EscapeOne(d);
    assert (x + s)[0] == x[0] && (y + t)[0] == y[0];
    assert |x| == |y|;
    assert |x| == 2 ==> (x + s)[1] == x[1] && (y + t)[1] == y[1];
    assert (x + s)[|x|..] == s && (y + t)[|y|..] == t;
  }

  lemma EscapedStart(a: string, s: string)
    ensures EscapeEach(a) + "\"" + s == if a == "" then "\"" + s else EscapeOne(a[0]) + (EscapeEach(a[1..]) + "\"" + s)
    ensures a != "" ==> EscapeOne(a[0])[0] != '"'
  {
    if a != "" {
      Associates(EscapeOne(a[0]), EscapeEach(a[1..]), "\"");
      Associates(EscapeOne(a[0]), EscapeEach(a[1..]) + "\"", s);
    }
  }

  lemma Associates(x: string, y: string, z: string)
    ensures x + y + z == x + (y + z)
  {
  }

  /** A quoted string can be read back from the front of a text. */
  lemma {:induction false} QuotedReads(a: string, b: string, s: string, t: string)
    requires EscapeEach(a) + "\"" + s == EscapeEach(b) + "\"" + t
    ensures a == b && s == t
  {
    EscapedStart(a, s);
    EscapedStart(b, t);
    if a == "" && b == "" {
      Peel("\"", s);
      Peel("\"", t);
    } else if a == "" {
      Peel("\"", s);
      Peel(EscapeOne(b[0]), EscapeEach(b[1..]) + "\"" + t);
    } else if b == "" {
      Peel("\"", t);
      Peel(EscapeOne(a[0]), EscapeEach(a[1..]) + "\"" + s);
    } else {
      OneReads(a[0], b[0], EscapeEach(a[1..]) + "\"" + s, EscapeEach(b[1..]) + "\"" + t);
      QuotedReads(a[1..], b[1..], s, t);
      Peel(a, "");
      Peel(b, "");
    }
  }

  /** What may follow a value: a comma or a closing brace. */
  predicate Stops(s: string) {
    s != "" && (s[0] == ',' || s[0] == '}')
  }

  /** The first character tells what kind of value follows. */
  lemma FirstCharacter(p: Pattern, depth: nat)
    ensures Rendered(p, depth) != ""
    ensures p.Str? <==> Rendered(p, depth)[0] == '"'
    ensures p.Int? <==> Rendered(p, depth)[0] == '-' || IsDigit(Rendered(p, depth)[0])
    ensures p.Bool? && p.flag <==> Rendered(p, depth)[0] == 't'
    ensures p.Bool? && !p.flag <==> Rendered(p, depth)[0] == 'f'
    ensures ViewOf(p, depth).VDict? <==> Rendered(p, depth)[0] == '{'
    ensures ViewOf(p, depth).VDeep? || ViewOf(p, depth).VMany? <==> Rendered(p, depth)[0] == '['
  {
    if p.Int? {
      DigitsRead(if p.number < 0 then -p.number else p.number);
    }
  }

  /** A value can be read back from the front of a text, up to what a dict
      means. */
  lemma {:induction false} ValueReads(p: Pattern, q: Pattern, depth: nat, s: string, t: string)
    requires WellFormed(p) && WellFormed(q) && Stops(s) && Stops(t)
    requires Rendered(p, depth) + s == Rendered(q, depth) + t
    ensures ViewOf(p, depth) == ViewOf(q, depth) && s == t
    decreases Left(depth), 1
  {
    SameKind(p, q, depth, s, t);
    if p.Dict? {
      if ViewOf(p, depth).VDict? {
        DictReads(p, q, depth + 1, s, t);
        assert ViewOf(p, depth) == VDict(Fields(p.entries, depth + 1));
        assert ViewOf(q, depth) == VDict(Fields(q.entries, depth + 1));
      } else {
        SamePrefix(Rendered(p, depth), s, t);
      }
    } else {
      ScalarReads(p, q, depth, s, t);
    }
  }

  lemma ScalarReads(p: Pattern, q: Pattern, depth: nat, s: string, t: string)
    requires Stops(s) && Stops(t)
    requires !p.Dict? && (p.Str? <==> q.Str?) && (p.Int? <==> q.Int?) && (p.Bool? ==> q == p)
    requires Rendered(p, depth) + s == Rendered(q, depth) + t
    ensures p == q && s == t
  {
    match p
    case Str(text) => StringReads(text, q.text, s, t);
    case Int(number) => DecimalReads(number, q.number, s, t);
    case Bool(_) => SamePrefix(Rendered(p, depth), s, t);
  }

  lemma SameKind(p: Pattern, q: Pattern, depth: nat, s: string, t: string)
    requires Rendered(p, depth) + s == Rendered(q, depth) + t
    ensures p.Str? <==> q.Str?
    ensures p.Int? <==> q.Int?
    ensures p.Bool? ==> q == p
    ensures p.Dict? <==> q.Dict?
    ensures ViewOf(p, depth).VDict? <==> ViewOf(q, depth).VDict?
    ensures p.Dict? && !ViewOf(p, depth).VDict? ==>
      ViewOf(q, depth) == ViewOf(p, depth) && Rendered(q, depth) == Rendered(p, depth)
  {
    FirstCharacter(p, depth);
    FirstCharacter(q, depth);
    Peel(Rendered(p, depth), s);
    Peel(Rendered(q, depth), t);
    if p.Dict? && !ViewOf(p, depth).VDict? {
      assert (Rendered(p, depth) + s)[1] == Rendered(p, depth)[1];
      assert (Rendered(q, depth) + t)[1] == Rendered(q, depth)[1];
    }
  }

  lemma StringReads(a: string, b: string, s: string, t: string)
    requires "\"" + Escape(a) + "\"" + s == "\"" + Escape(b) + "\"" + t
    ensures a == b && s == t
  {
    EscapeIsEach(a);
    EscapeIsEach(b);
    assert "\"" + Escape(a) + "\"" + s == "\"" + (EscapeEach(a) + "\"" + s);
    assert "\"" + Escape(b) + "\"" + t == "\"" + (EscapeEach(b) + "\"" + t);
    SamePrefix("\"", EscapeEach(a) + "\"" + s, EscapeEach(b) + "\"" + t);
    QuotedReads(a, b, s, t);
  }

  lemma SamePrefix(x: string, s: string, t: string)
    requires x + s == x + t
    ensures s == t
  {
    assert s == (x + s)[|x|..] == (x + t)[|x|..] == t;
  }

  lemma {:induction false} DictReads(p: Pattern, q: Pattern, depth: nat, s: string, t: string)
    requires WellFormed(p) && WellFormed(q) && p.Dict? && q.Dict?
    requires DictText(Sort(p.entries), depth) + s == DictText(Sort(q.entries), depth) + t
    ensures Fields(p.entries, depth) == Fields(q.entries, depth) && s == t
    decreases Left(depth), 4
  {
    var a, b := Sort(p.entries), Sort(q.entries);
    SortKeepsWellFormed(p);
    SortKeepsWellFormed(q);
    FieldsOfSorted(p.entries, depth);
    FieldsOfSorted(q.entries, depth);
    DictTextReads(a, b, depth, s, t);
  }

  lemma {:induction false} DictTextReads(a: seq<Entry>, b: seq<Entry>, depth: nat, s: string, t: string)
    requires WellFormedValues(a) && WellFormedValues(b)
    requires DictText(a, depth) + s == DictText(b, depth) + t
    ensures Fields(a, depth) == Fields(b, depth) && s == t
    decreases Left(depth), 3
  {
    var x, y := Body(a, depth), Body(b, depth);
    assert "{" + x + "}" + s == "{" + (x + ("}" + s));
    assert "{" + y + "}" + t == "{" + (y + ("}" + t));
    SamePrefix("{", x + ("}" + s), y + ("}" + t));
    BodyReads(a, b, depth, s, t);
    SameEntriesSameFields(a, b, depth);
  }

  lemma {:induction false} SameEntriesSameFields(a: seq<Entry>, b: seq<Entry>, depth: nat)
    requires SameEntries(a, b, depth)
    ensures Fields(a, depth) == Fields(b, depth)
  {
    if a != [] { SameEntriesSameFields(a[1..], b[1..], depth); }
  }

  /** What follows the first part of a dict. */
  function AfterFirst(a: seq<Entry>, depth: nat, s: string): string
    requires a != []
  {
    if |a| == 1 then "}" + s else "," + (Body(a[1..], depth) + ("}" + s))
  }

  lemma BodyStart(a: seq<Entry>, depth: nat, s: string)
    requires a != []
    ensures Body(a, depth) + ("}" + s)
      == "\"" + (EscapeEach(a[0].key) + "\"" + (":" + (Rendered(a[0].value, depth) + AfterFirst(a, depth, s))))
    ensures Stops(AfterFirst(a, depth, s))
  {
    EscapeIsEach(a[0].key);
    var key, value := EscapeEach(a[0].key), Rendered(a[0].value, depth);
    if |a| == 1 {
      Regroup(key, value, "", "}" + s);
      Peel("", "}" + s);
    } else {
      Associates(",", Body(a[1..], depth), "}" + s);
      Regroup(key, value, "," + Body(a[1..], depth), "}" + s);
    }
  }

  lemma Regroup(key: string, value: string, more: string, tail: string)
    ensures "\"" + key + "\":" + value + more + tail == "\"" + (key + "\"" + (":" + (value + (more + tail))))
  {
  }

  lemma {:induction false} BodyReads(a: seq<Entry>, b: seq<Entry>, depth: nat, s: string, t: string)
    requires WellFormedValues(a) && WellFormedValues(b)
    requires Body(a, depth) + ("}" + s) == Body(b, depth) + ("}" + t)
    ensures SameEntries(a, b, depth) && s == t
    decreases Left(depth), 2, |a|
  {
    Peel("}", s);
    Peel("}", t);
    if a != [] { OpensWithQuote(a, depth, s); }
    if b != [] { OpensWithQuote(b, depth, t); }
    if a == [] && b == [] {
      assert Body(a, depth) + ("}" + s) == "}" + s;
      assert Body(b, depth) + ("}" + t) == "}" + t;
      SamePrefix("}", s, t);
    } else if a != [] && b != [] {
      FirstPartReads(a, b, depth, s, t);
      RestReads(a, b, depth, s, t);
      if |a| > 1 {
        BodyReads(a[1..], b[1..], depth, s, t);
      }
    }
  }

  /** A comma or a brace tells whether another part follows. */
  lemma RestReads(a: seq<Entry>, b: seq<Entry>, depth: nat, s: string, t: string)
    requires a != [] && b != [] && AfterFirst(a, depth, s) == AfterFirst(b, depth, t)
    ensures |a| == 1 <==> |b| == 1
    ensures |a| == 1 ==> s == t
    ensures |a| > 1 ==> Body(a[1..], depth) + ("}" + s) == Body(b[1..], depth) + ("}" + t)
  {
    Peel("}", s);
    Peel("}", t);
    if |a| > 1 { Peel(",", Body(a[1..], depth) + ("}" + s)); }
    if |b| > 1 { Peel(",", Body(b[1..], depth) + ("}" + t)); }
  }

  lemma OpensWithQuote(a: seq<Entry>, depth: nat, s: string)
    requires a != []
    ensures (Body(a, depth) + ("}" + s))[0] == '"'
  {
  }

  lemma {:induction false} FirstPartReads(a: seq<Entry>, b: seq<Entry>, depth: nat, s: string, t: string)
    requires WellFormedValues(a) && WellFormedValues(b) && a != [] && b != []
    requires Body(a, depth) + ("}" + s) == Body(b, depth) + ("}" + t)
    ensures a[0].key == b[0].key && ViewOf(a[0].value, depth) == ViewOf(b[0].value, depth)
    ensures AfterFirst(a, depth, s) == AfterFirst(b, depth, t)
    decreases Left(depth), 2, |a|, 0
  {
    BodyStart(a, depth, s);
    BodyStart(b, depth, t);
    var x, y := AfterFirst(a, depth, s), AfterFirst(b, depth, t);
    var v, w := Rendered(a[0].value, depth) + x, Rendered(b[0].value, depth) + y;
    SamePrefix("\"", EscapeEach(a[0].key) + "\"" + (":" + v), EscapeEach(b[0].key) + "\"" + (":" + w));
    QuotedReads(a[0].key, b[0].key, ":" + v, ":" + w);
    SamePrefix(":", v, w);
    ValueReads(a[0].value, b[0].value, depth, x, y);
  }

  // -------------------------------------------------------------- main results

  /** The canonical text does not depend on insertion order and loses nothing
      but what lies beyond the limits: two patterns, both raw strings or both
      not, have the same text exactly when they mean the same. */
  lemma CanonicalExactly(p: Pattern, q: Pattern)
    requires WellFormed(p) && WellFormed(q) && (p.Str? <==> q.Str?)
    ensures NormalizePattern(p) == NormalizePattern(q) <==> ViewOf(p, 0) == ViewOf(q, 0)
  {
    if ViewOf(p, 0) == ViewOf(q, 0) {
      SameViewSameRoute(p, q, 0);
    }
    if NormalizePattern(p) == NormalizePattern(q) && !p.Str? {
      ValueReads(p, q, 0, "}", "}");
    }
  }

  /** Some pattern other than a string is written as s. */
  ghost predicate IsTaken(s: string) {
    exists p: Pattern :: !p.Str? && WellFormed(p) && NormalizePattern(p) == s
  }

  /** The fixed texts and the numerals. */
  predicate IsScalarText(s: string) {
    s == "true" || s == "false" || s == "[TOO_MANY_KEYS]" || IsDecimal(s)
  }

  /** A raw string stands for itself. If it does not begin with a brace, another
      pattern has the same text exactly if it is a word for a boolean, the mark
      for a large dict or a numeral; with a brace it may too. */
  lemma RawStringMeets(s: string)
    ensures NormalizePattern(Str(s)) == s
    ensures s == "" || s[0] != '{' ==> (IsTaken(s) <==> IsScalarText(s))
    ensures IsTaken("{}")
  {
    WrittenIsDecimal(s);
    assert NormalizePattern(Dict([])) == "{}";
    if IsScalarText(s) {
      ScalarTextIsTaken(s);
    }
    if s == "" || s[0] != '{' {
      forall p: Pattern | !p.Str? && NormalizePattern(p) == s ensures IsScalarText(s) {
        assert p.Int? ==> Decimal(p.number) == s;
      }
    }
  }

  lemma ScalarTextIsTaken(s: string)
    requires IsScalarText(s)
    ensures IsTaken(s)
  {
    if s == "true" || s == "false" {
      assert NormalizePattern(Bool(s == "true")) == s && WellFormed(Bool(s == "true"));
    } else if s == "[TOO_MANY_KEYS]" {
      var p := LargeDict();
      assert NormalizePattern(p) == s;
    } else {
      WrittenIsDecimal(s);
      var n: int :| Decimal(n) == s;
      assert NormalizePattern(Int(n)) == s && WellFormed(Int(n));
    }
  }

  /** A dict with one key more than the limit. */
  lemma LargeDict() returns (p: Pattern)
    ensures p.Dict? && |p.entries| > MAX_KEYS && WellFormed(p)
  {
    var entries := seq(MAX_KEYS + 1, i requires 0 <= i => Entry(seq(i, _ => 'k'), Bool(true)));
    forall i, j | 0 <= i < j < |entries| ensures entries[i].key != entries[j].key {
      assert |entries[i].key| == i && |entries[j].key| == j;
    }
    p := Dict(entries);
  }

  /** A pattern within the limits, all the way down. */
  ghost predicate Within(p: Pattern, depth: nat) {
    p.Dict? ==>
      && depth <= MAX_DEPTH && |p.entries| <= MAX_KEYS
      && forall i :: 0 <= i < |p.entries| ==> Within(p.entries[i].value, depth + 1)
  }

  ghost predicate HasKey(s: seq<Entry>, key: string) {
    exists i :: 0 <= i < |s| && s[i].key == key
  }

  /** The same pattern but for the order of its keys, at every depth. */
  ghost predicate Same(p: Pattern, q: Pattern)
    decreases p
  {
    match p
    case Dict(a) =>
      && q.Dict?
      && (forall key :: HasKey(a, key) <==> HasKey(q.entries, key))
      && forall i, j :: 0 <= i < |a| && 0 <= j < |q.entries| && a[i].key == q.entries[j].key ==>
        Same(a[i].value, q.entries[j].value)
    case _ => p == q
  }

  lemma {:induction false} FieldsLookup(s: seq<Entry>, depth: nat, i: nat)
    requires DistinctKeys(s) && i < |s|
    ensures s[i].key in Fields(s, depth) && Fields(s, depth)[s[i].key] == ViewOf(s[i].value, depth)
  {
    if i > 0 { FieldsLookup(s[1..], depth, i - 1); }
  }

  /** Within the limits nothing is lost. */
  lemma {:induction false} ViewLosesNothing(p: Pattern, q: Pattern, depth: nat)
    requires WellFormed(p) && WellFormed(q) && Within(p, depth) && Within(q, depth)
    ensures ViewOf(p, depth) == ViewOf(q, depth) <==> Same(p, q)
    decreases p
  {
    if p.Dict? && q.Dict? {
      var a, b, f, g := p.entries, q.entries, Fields(p.entries, depth + 1), Fields(q.entries, depth + 1);
      forall key ensures (key in f <==> HasKey(a, key)) && (key in g <==> HasKey(b, key)) {
        FieldsKeys(a, depth + 1, key);
        FieldsKeys(b, depth + 1, key);
      }
      forall i, j | 0 <= i < |a| && 0 <= j < |b| && a[i].key == b[j].key
        ensures f[a[i].key] == g[a[i].key] <==> Same(a[i].value, b[j].value)
      {
        FieldsLookup(a, depth + 1, i);
        FieldsLookup(b, depth + 1, j);
        ViewLosesNothing(a[i].value, b[j].value, depth + 1);
      }
      if f == g {
        assert Same(p, q);
      } else if Same(p, q) {
        forall key ensures (key in f <==> key in g) && (key in f ==> f[key] == g[key]) {
          if key in f {
            assert HasKey(a, key) && HasKey(b, key);
          }
        }
      }
    }
  }

  /** The canonical text is injective on patterns within the limits, and
      independent of the order in which keys were inserted. */
  lemma CanonicalWithinLimits(p: Pattern, q: Pattern)
    requires WellFormed(p) && WellFormed(q) && Within(p, 0) && Within(q, 0) && (p.Str? <==> q.Str?)
    ensures NormalizePattern(p) == NormalizePattern(q) <==> Same(p, q)
  {
    CanonicalExactly(p, q);
    ViewLosesNothing(p, q, 0);
  }
}
