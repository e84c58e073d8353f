/** The order in which the keys of a message pattern are written
    (fastapi_modular/core/rpc.py), in terms of the characters themselves. */
module KeyOrder {
  import opened Wrappers
  import opened Text
  import opened Rpc

  // ------------------------------------------------------------- characters

  predicate Small(c: char) { 'a' <= c <= 'z' }

  predicate Capital(c: char) { 'A' <= c <= 'Z' }

  /** Marks and blanks, digits, letters, and everything outside printable ASCII. */
  function Class(c: char): nat {
    if Small(c) || Capital(c) then 2 else if '0' <= c <= '9' then 1 else if ' ' <= c <= '~' then 0 else 3
  }

  /** The place in the alphabet. */
  function Place(c: char): int {
    c as int - if Small(c) then 'a' as int else 'A' as int
  }

  predicate SameLetter(c: char, d: char) {
    c == d || (Class(c) == Class(d) == 2 && Place(c) == Place(d))
  }

  /** c stands before d in the row of marks. */
  ghost predicate MarkFirst(c: char, d: char) {
    exists k :: 0 <= k <= |MARKS| && c in MARKS[..k] && d !in MARKS[..k]
  }

  /** Marks first, then digits, then letters in the order of the alphabet whatever
      their case, then all other characters by their code. */
  ghost predicate CharFirst(c: char, d: char) {
    || Class(c) < Class(d)
    || (Class(c) == Class(d) == 0 && MarkFirst(c, d))
    || (Class(c) == Class(d) == 2 && Place(c) < Place(d))
    || ((Class(c) == Class(d) == 1 || Class(c) == Class(d) == 3) && c < d)
  }

  lemma {:induction false} FirstIndex(table: string, c: char)
    ensures c in table <==> IndexIn(table, c) < |table|
    ensures c !in table[..IndexIn(table, c)]
  {
    if table != "" && table[0] != c {
      FirstIndex(table[1..], c);
      var i := IndexIn(table[1..], c);
      assert table[..1 + i] == [table[0]] + table[1..][..i];
    }
  }

  lemma {:induction false} IndexInParts(a: string, b: string, c: char)
    ensures IndexIn(a + b, c) == if c in a then IndexIn(a, c) else |a| + IndexIn(b, c)
  {
    if a == "" {
      assert a + b == b;
    } else {
      assert (a + b)[0] == a[0] && (a + b)[1..] == a[1..] + b;
      if a[0] != c {
        IndexInParts(a[1..], b, c);
      }
    }
  }

  lemma MarksAreMarks(c: char)
    ensures c in MARKS <==> Class(c) == 0
  {
  }

  lemma OnlyLetters(c: char)
    requires c in LETTERS
    ensures Class(c) == 2
  {
  }

  lemma SmallLetters(c: char)
    requires Small(c)
    ensures c in LETTERS
  {
  }

  lemma CapitalLetters(c: char)
    requires Capital(c)
    ensures c in LETTERS
  {
  }

  lemma LettersAreLetters(c: char)
    ensures c in LETTERS <==> Class(c) == 2
  {
    if c in LETTERS { OnlyLetters(c); }
    if Small(c) { SmallLetters(c); }
    if Capital(c) { CapitalLetters(c); }
  }

  lemma DigitAt(i: nat)
    requires i < 10
    ensures Digit(i) as int == '0' as int + i
  {
  }

  lemma DigitsInOrder(c: char)
    ensures c in "0123456789" <==> Class(c) == 1
    ensures Class(c) == 1 ==> IndexIn("0123456789", c) == c as int - '0' as int
  {
    if Class(c) == 1 {
      var d := c as int - '0' as int;
      DigitAt(d);
      assert Digit(d) in "0123456789";
    }
    FirstIndex("0123456789", c);
    var i := IndexIn("0123456789", c);
    if i < 10 {
      DigitAt(i);
    }
  }

  /** Where a character stands in the whole table. */
  lemma IndexIs(c: char)
    ensures |ICU_ASCII| == |MARKS| + 62
    ensures Class(c) == 0 ==> IndexIn(ICU_ASCII, c) == IndexIn(MARKS, c) < |MARKS|
    ensures Class(c) == 1 ==> IndexIn(ICU_ASCII, c) == |MARKS| + (c as int - '0' as int)
    ensures Class(c) == 2 ==> IndexIn(ICU_ASCII, c) < |ICU_ASCII|
    ensures Class(c) == 3 ==> IndexIn(ICU_ASCII, c) == |ICU_ASCII|
  {
    IndexInParts(MARKS + "0123456789", LETTERS, c);
    IndexInParts(MARKS, "0123456789", c);
    MarksAreMarks(c);
    DigitsInOrder(c);
    LettersAreLetters(c);
    FirstIndex(MARKS, c);
    FirstIndex(LETTERS, c);
  }

  /** Where a character falls among the letter weights. */
  lemma WeightIs(c: char)
    ensures Class(c) == 0 ==> LetterWeight(c) == IndexIn(MARKS, c) < |MARKS|
    ensures Class(c) == 1 ==> LetterWeight(c) == |MARKS| + (c as int - '0' as int)
    ensures Class(c) == 2 ==> LetterWeight(c) == |MARKS| + 62 + Place(c) && 0 <= Place(c) < 26
    ensures Class(c) == 3 ==> LetterWeight(c) == 4 * (|MARKS| + 62) + c as int
    ensures CaseWeight(c) == if Capital(c) then 1 else 0
  {
    IndexIs(c);
  }

  lemma {:induction false} PrefixHas(table: string, c: char, k: nat)
    requires k <= |table|
    ensures c in table[..k] <==> IndexIn(table, c) < k
  {
    if k > 0 {
      assert table[..k] == [table[0]] + table[1..][..k - 1];
      PrefixHas(table[1..], c, k - 1);
    }
  }

  lemma MarksByIndex(c: char, d: char)
    requires Class(c) == Class(d) == 0
    ensures MarkFirst(c, d) <==> IndexIn(MARKS, c) < IndexIn(MARKS, d)
    ensures IndexIn(MARKS, c) == IndexIn(MARKS, d) ==> c == d
  {
    MarksAreMarks(c);
    MarksAreMarks(d);
    FirstIndex(MARKS, c);
    FirstIndex(MARKS, d);
    forall k | 0 <= k <= |MARKS|
      ensures c in MARKS[..k] && d !in MARKS[..k] <==> IndexIn(MARKS, c) < k <= IndexIn(MARKS, d)
    {
      PrefixHas(MARKS, c, k);
      PrefixHas(MARKS, d, k);
    }
    if IndexIn(MARKS, c) < IndexIn(MARKS, d) {
      var k := IndexIn(MARKS, c) + 1;
      assert c in MARKS[..k] && d !in MARKS[..k];
    }
  }

  /** The letter weights order characters as said, and take the two cases of a
      letter for one. */
  lemma WeightsOrder(c: char, d: char)
    ensures LetterWeight(c) < LetterWeight(d) <==> CharFirst(c, d)
    ensures LetterWeight(c) == LetterWeight(d) <==> SameLetter(c, d)
  {
    WeightIs(c);
    WeightIs(d);
    if Class(c) == Class(d) == 0 {
      MarksByIndex(c, d);
    }
  }

  // ------------------------------------------------------------------ texts

  /** Up to place k the texts have the same letters; there a ends, or has a letter
      that comes first. */
  ghost predicate LettersFirstAt(a: string, b: string, k: nat) {
    && k <= |a| && k <= |b| && (forall i :: 0 <= i < k ==> SameLetter(a[i], b[i]))
    && ((k == |a| && k < |b|) || (k < |a| && k < |b| && CharFirst(a[k], b[k])))
  }

  ghost predicate LettersFirst(a: string, b: string) {
    exists k: nat :: LettersFirstAt(a, b, k)
  }

  ghost predicate SameLetters(a: string, b: string) {
    |a| == |b| && forall i :: 0 <= i < |a| ==> SameLetter(a[i], b[i])
  }

  /** At the first place where only one of them has a capital, it is b. */
  ghost predicate CapitalLaterAt(a: string, b: string, k: nat) {
    k < |a| && k < |b| && !Capital(a[k]) && Capital(b[k])
      && forall i :: 0 <= i < k ==> (Capital(a[i]) <==> Capital(b[i]))
  }

  ghost predicate CapitalLater(a: string, b: string) {
    exists k: nat :: CapitalLaterAt(a, b, k)
  }

  /** The key that comes first: by its letters, and for the same letters the one
      without the capital. */
  ghost predicate KeyFirst(a: string, b: string) {
    LettersFirst(a, b) || (SameLetters(a, b) && CapitalLater(a, b))
  }

  /** Tuples compare at the first place where they differ. */
  ghost predicate TupleFirst(a: seq<nat>, b: seq<nat>, k: nat) {
    && k <= |a| && k <= |b| && a[..k] == b[..k]
    && ((k == |a| && k < |b|) || (k < |a| && k < |b| && a[k] < b[k]))
  }

  lemma SameHead(a: seq<nat>, b: seq<nat>, k: nat)
    requires TupleFirst(a, b, k)
    ensures k > 0 ==> a != [] && b != [] && a[0] == b[0]
  {
    if k > 0 {
      assert a[..k][0] == b[..k][0];
    }
  }

  lemma {:induction false} TupleLessIs(a: seq<nat>, b: seq<nat>)
    ensures TupleLess(a, b) <==> exists k: nat :: TupleFirst(a, b, k)
  {
    if b != [] && a != [] && a[0] == b[0] {
      TupleLessIs(a[1..], b[1..]);
      forall k: nat | TupleFirst(a[1..], b[1..], k) ensures TupleFirst(a, b, k + 1) {
        assert a[..k + 1] == [a[0]] + a[1..][..k] && b[..k + 1] == [b[0]] + b[1..][..k];
      }
      forall k: nat | TupleFirst(a, b, k) ensures k > 0 && TupleFirst(a[1..], b[1..], k - 1) {
        assert a[1..][..k - 1] == a[..k][1..] && b[1..][..k - 1] == b[..k][1..];
      }
    } else {
      assert TupleLess(a, b) ==> TupleFirst(a, b, 0);
      forall k: nat | TupleFirst(a, b, k) ensures TupleLess(a, b) {
        SameHead(a, b, k);
      }
    }
  }

  lemma SamePrefix(x: seq<nat>, y: seq<nat>, k: nat)
    requires k <= |x| && k <= |y|
    ensures x[..k] == y[..k] <==> forall i :: 0 <= i < k ==> x[i] == y[i]
  {
    if x[..k] == y[..k] {
      forall i | 0 <= i < k ensures x[i] == y[i] {
        assert x[..k][i] == y[..k][i];
      }
    }
  }

  lemma LetterAt(a: string, b: string, i: nat)
    requires i < |a| && i < |b|
    ensures Letters(a)[i] == Letters(b)[i] <==> SameLetter(a[i], b[i])
    ensures Letters(a)[i] < Letters(b)[i] <==> CharFirst(a[i], b[i])
  {
    WeightsOf(a, i);
    WeightsOf(b, i);
    WeightsOrder(a[i], b[i]);
  }

  lemma LettersDecideAt(a: string, b: string, k: nat)
    ensures TupleFirst(Letters(a), Letters(b), k) <==> LettersFirstAt(a, b, k)
  {
    if k <= |a| && k <= |b| {
      SamePrefix(Letters(a), Letters(b), k);
      forall i | 0 <= i < k ensures Letters(a)[i] == Letters(b)[i] <==> SameLetter(a[i], b[i]) {
        LetterAt(a, b, i);
      }
      if k < |a| && k < |b| {
        LetterAt(a, b, k);
      }
    }
  }

  lemma LettersDecide(a: string, b: string)
    ensures TupleLess(Letters(a), Letters(b)) <==> LettersFirst(a, b)
    ensures Letters(a) == Letters(b) <==> SameLetters(a, b)
  {
    TupleLessIs(Letters(a), Letters(b));
    forall k: nat ensures TupleFirst(Letters(a), Letters(b), k) <==> LettersFirstAt(a, b, k) {
      LettersDecideAt(a, b, k);
    }
    if |a| == |b| {
      forall i | 0 <= i < |a| ensures Letters(a)[i] == Letters(b)[i] <==> SameLetter(a[i], b[i]) {
        LetterAt(a, b, i);
      }
    }
  }

  lemma CaseAt(s: string, i: nat)
    requires i < |s|
    ensures Cases(s)[i] == if Capital(s[i]) then 1 else 0
  {
    WeightsOf(s, i);
    WeightIs(s[i]);
  }

  lemma CapitalsDecideAt(a: string, b: string, k: nat)
    requires |a| == |b|
    ensures TupleFirst(Cases(a), Cases(b), k) <==> CapitalLaterAt(a, b, k)
  {
    if k < |a| {
      SamePrefix(Cases(a), Cases(b), k);
      forall i | 0 <= i <= k ensures Cases(a)[i] == (if Capital(a[i]) then 1 else 0)
        && Cases(b)[i] == if Capital(b[i]) then 1 else 0
      {
        CaseAt(a, i);
        CaseAt(b, i);
      }
    }
  }

  lemma CapitalsDecide(a: string, b: string)
    requires |a| == |b|
    ensures TupleLess(Cases(a), Cases(b)) <==> CapitalLater(a, b)
  {
    TupleLessIs(Cases(a), Cases(b));
    forall k: nat ensures TupleFirst(Cases(a), Cases(b), k) <==> CapitalLaterAt(a, b, k) {
      CapitalsDecideAt(a, b, k);
    }
  }

  /** The keys are compared exactly in that order. */
  lemma KeyLessIs(a: string, b: string)
    ensures KeyLess(a, b) <==> KeyFirst(a, b)
  {
    LettersDecide(a, b);
    if |a| == |b| {
      CapitalsDecide(a, b);
    }
  }

  // ------------------------------------------------------------------- words

  predicate IsWord(s: string) {
    forall i :: 0 <= i < |s| ==> Small(s[i]) || Capital(s[i])
  }

  function InSmall(s: string): (r: string)
    requires IsWord(s)
    ensures |r| == |s|
  {
    seq(|s|, i requires 0 <= i < |s| => ('a' as int + Place(s[i])) as char)
  }

  lemma LettersFirstStep(a: string, b: string)
    requires a != "" && b != ""
    ensures LettersFirst(a, b) <==> CharFirst(a[0], b[0]) || (SameLetter(a[0], b[0]) && LettersFirst(a[1..], b[1..]))
  {
    if LettersFirst(a, b) {
      var k: nat :| LettersFirstAt(a, b, k);
      if k > 0 {
        assert SameLetter(a[0], b[0]) && LettersFirstAt(a[1..], b[1..], k - 1);
      }
    }
    if CharFirst(a[0], b[0]) {
      assert LettersFirstAt(a, b, 0);
    } else if SameLetter(a[0], b[0]) && LettersFirst(a[1..], b[1..]) {
      var k: nat :| LettersFirstAt(a[1..], b[1..], k);
      assert LettersFirstAt(a, b, k + 1);
    }
  }

  /** Words of letters come in the alphabetical order of their small letters. */
  lemma {:induction false} WordsAlphabetical(a: string, b: string)
    requires IsWord(a) && IsWord(b)
    ensures LettersFirst(a, b) <==> TextLess(InSmall(a), InSmall(b))
  {
    if a != "" && b != "" {
      LettersFirstStep(a, b);
      WordsAlphabetical(a[1..], b[1..]);
      assert InSmall(a)[1..] == InSmall(a[1..]) && InSmall(b)[1..] == InSmall(b[1..]);
    } else if b != "" {
      assert LettersFirstAt(a, b, 0);
    }
  }

  // -------------------------------------------------------------- the text

  ghost predicate StandsAt(text: string, before: string, part: string, after: string) {
    text == before + part + after
  }

  ghost predicate Contains(text: string, part: string) {
    exists before, after :: StandsAt(text, before, part, after)
  }

  lemma InFront(p: string, x: string, m: string, y: string)
    ensures p + (x + m + y) == p + x + m + y
  {
  }

  lemma {:induction false} PartStands(s: seq<Entry>, j: nat, depth: nat) returns (x: string, z: string)
    requires j < |s|
    ensures Body(s, depth) == x + Part(s[j], depth) + z
  {
    var part := Part(s[0], depth);
    if j > 0 {
      var x1;
      x1, z := PartStands(s[1..], j - 1, depth);
      x := part + "," + x1;
      InFront(part + ",", x1, Part(s[j], depth), z);
      BodyStep(s, depth);
    } else {
      x, z := "", if |s| == 1 then "" else "," + Body(s[1..], depth);
      assert "" + part == part;
    }
  }

  lemma BodyStep(s: seq<Entry>, depth: nat)
    requires |s| > 1
    ensures Body(s, depth) == Part(s[0], depth) + "," + Body(s[1..], depth)
  {
    assert Part(s[0], depth) + ("," + Body(s[1..], depth)) == Part(s[0], depth) + "," + Body(s[1..], depth);
  }

  /** What stands before a part, the part and what is behind it. */
  lemma {:induction false} PartsStand(s: seq<Entry>, i: nat, j: nat, depth: nat) returns (x: string, rest: string)
    requires i < j < |s|
    ensures Body(s, depth) == x + Part(s[i], depth) + rest
    ensures Contains(rest, Part(s[j], depth))
  {
    BodyStep(s, depth);
    var part := Part(s[0], depth);
    if i > 0 {
      var x1;
      x1, rest := PartsStand(s[1..], i - 1, j - 1, depth);
      x := part + "," + x1;
      InFront(part + ",", x1, Part(s[i], depth), rest);
    } else {
      var x1, z := PartStands(s[1..], j - 1, depth);
      x, rest := "", "," + Body(s[1..], depth);
      InFront(",", x1, Part(s[j], depth), z);
      assert StandsAt(rest, "," + x1, Part(s[j], depth), z);
      InFront(part, "", ",", Body(s[1..], depth));
      assert "" + part == part;
    }
  }

  lemma InOrder(s: seq<Entry>, i: nat, j: nat)
    requires Sorted(s) && i < |s| && j < |s| && KeyFirst(s[i].key, s[j].key)
    ensures i < j
  {
    KeyLessIs(s[i].key, s[j].key);
    CollationIsTotal(s[i].key, s[j].key, s[j].key);
  }

  lemma {:induction false} SortedPlaces(p: Pattern, e: Entry, f: Entry) returns (i: nat, j: nat)
    requires WellFormed(p) && p.Dict? && e in p.entries && f in p.entries && KeyFirst(e.key, f.key)
    ensures i < j < |Sort(p.entries)| && Sort(p.entries)[i] == e && Sort(p.entries)[j] == f
  {
    var s := Sort(p.entries);
    SortSorts(p.entries);
    i :| 0 <= i < |s| && s[i] == e;
    j :| 0 <= j < |s| && s[j] == f;
    InOrder(s, i, j);
  }

  /** In the text of a dict the part of the key that comes first stands to the
      left of the other. */
  lemma FirstKeyStandsLeft(p: Pattern, depth: nat, e: Entry, f: Entry) returns (x: string, rest: string)
    requires WellFormed(p) && p.Dict? && depth <= MAX_DEPTH && |p.entries| <= MAX_KEYS
    requires e in p.entries && f in p.entries && KeyFirst(e.key, f.key)
    ensures Route(p, depth) == x + Part(e, depth + 1) + rest
    ensures Contains(rest, Part(f, depth + 1))
  {
    var s := Sort(p.entries);
    var i, j := SortedPlaces(p, e, f);
    var x1, rest1 := PartsStand(s, i, j, depth + 1);
    x, rest := "{" + x1, rest1 + "}";
    InFront("{", x1, Part(e, depth + 1), rest1);
    var y, z :| StandsAt(rest1, y, Part(f, depth + 1), z);
    assert StandsAt(rest, y, Part(f, depth + 1), z + "}");
  }

  lemma OneLetterKeys(c: char, d: char)
    requires Class(c) == Class(d) == 2
    ensures Place(c) < Place(d) ==> KeyLess([c], [d])
    ensures Place(c) > Place(d) ==> !KeyLess([c], [d])
  {
    KeyLessIs([c], [d]);
    assert Place(c) < Place(d) ==> LettersFirstAt([c], [d], 0);
  }

  lemma ThreeKeys(z: Entry, a: Entry, m: Entry)
    requires z.key == "z" && a.key == "a" && m.key == "M"
    ensures Sort([z, a, m]) == [a, m, z]
  {
    OneLetterKeys('M', 'a');
    OneLetterKeys('a', 'z');
    OneLetterKeys('M', 'z');
    assert [z, a, m][1..] == [a, m] && [a, m][1..] == [m];
    assert Sort([m]) == [m] && Sort([a, m]) == [a, m];
    assert [a, m][1..] == [m] && Insert(z, [m]) == [m, z];
  }

  lemma ShortPart(c: char, n: nat, depth: nat)
    requires c != '\\' && c != '"' && n < 10
    ensures Part(Entry([c], Int(n)), depth) == ['"', c, '"', ':', Digit(n)]
  {
    EscapeIsEach([c]);
    assert EscapeEach([c]) == [c] + EscapeEach("") == [c];
    assert Rendered(Int(n), depth) == Decimal(n) == [Digit(n)];
    assert "\"" + [c] + "\":" + [Digit(n)] == ['"', c, '"', ':', Digit(n)];
  }

  lemma ThreeParts(a: Entry, m: Entry, z: Entry)
    ensures Body([a, m, z], 1) == Part(a, 1) + "," + (Part(m, 1) + "," + Part(z, 1))
  {
    BodyStep([a, m, z], 1);
    BodyStep([m, z], 1);
    assert [a, m, z][1..] == [m, z] && [m, z][1..] == [z];
    assert Body([z], 1) == Part(z, 1) + "" == Part(z, 1);
  }

  lemma Spelling()
    ensures "{" + (['"', 'a', '"', ':', '2'] + "," + (['"', 'M', '"', ':', '3'] + ","
      + ['"', 'z', '"', ':', '1'])) + "}"
      == "{\"a\":2,\"M\":3,\"z\":1}"
  {
  }

  /** Capitals do not come before small letters: a, then M, then z. */
  lemma SmallAndCapital()
    ensures NormalizePattern(Dict([Entry("z", Int(1)), Entry("a", Int(2)), Entry("M", Int(3))]))
      == "{\"a\":2,\"M\":3,\"z\":1}"
  {
    var z, a, m := Entry("z", Int(1)), Entry("a", Int(2)), Entry("M", Int(3));
    ThreeKeys(z, a, m);
    ThreeParts(a, m, z);
    ShortPart('z', 1, 1);
    ShortPart('a', 2, 1);
    ShortPart('M', 3, 1);
    DigitAt(1);
    DigitAt(2);
    DigitAt(3);
    Spelling();
  }

  /** Beyond twenty keys, and below five dicts in one another, only a mark is
      written. */
  lemma LimitsAreMarked(p: Pattern, depth: nat)
    requires p.Dict?
    ensures depth > 5 ==> Route(p, depth) == "[MAX_DEPTH_REACHED]"
    ensures depth <= 5 && |p.entries| > 20 ==> Route(p, depth) == "[TOO_MANY_KEYS]"
    ensures depth <= 5 && |p.entries| <= 20 ==> Route(p, depth)[..1] == "{"
  {
  }
}
