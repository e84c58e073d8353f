/** Reading the five fields of a cron expression: `parse_cron`, `_parse_field`,
    `_parse_part` and `_number` of fastapi_modular/core/cron.py. */
module CronText {
  import opened Wrappers
  import opened Text
  import Cron

  // ------------------------------------------------------------- characters

  /** What `str.isspace` accepts. */
  predicate IsSpace(c: char) {
    var n := c as int;
    || 9 <= n <= 13 || 28 <= n <= 32 || n == 0x85 || n == 0xA0 || n == 0x1680 || 0x2000 <= n <= 0x200A
    || n == 0x2028 || n == 0x2029 || n == 0x202F || n == 0x205F || n == 0x3000
  }

  function LowerChar(c: char): char {
    if 'A' <= c <= 'Z' then (c as int + 32) as char else c
  }

  function Lower(s: string): (r: string)
    ensures |r| == |s|
  {
    if s == "" then "" else [LowerChar(s[0])] + Lower(s[1..])
  }

  function Strip(s: string): string {
    if s == "" then ""
    else if IsSpace(s[0]) then Strip(s[1..])
    else if IsSpace(s[|s| - 1]) then Strip(s[..|s| - 1])
    else s
  }

  /** The position of the first c, or the length. */
  function FirstAt(s: string, c: char): (i: nat)
    ensures i <= |s|
    ensures i < |s| ==> s[i] == c
    ensures c !in s[..i]
  {
    if s == "" || s[0] == c then 0 else
      var i := 1 + FirstAt(s[1..], c);
      assert s[..i] == [s[0]] + s[1..][..i - 1];
      i
  }

  function WordEnd(s: string): (n: nat)
    ensures n <= |s|
  {
    if s == "" || IsSpace(s[0]) then 0 else 1 + WordEnd(s[1..])
  }

  /** `s.split()` */
  function Words(s: string): seq<string> {
    if s == "" then []
    else if IsSpace(s[0]) then Words(s[1..])
    else [s[..WordEnd(s)]] + Words(s[WordEnd(s)..])
  }

  // ----------------------------------------------------------------- reading

  predicate IsNumeral(s: string) {
    s != "" && AllDigits(s)
  }

  function ReadNumber(s: string, low: int, high: int): Option<int> {
    if IsNumeral(s) && low <= Number(s) <= high then Some(Number(s)) else None
  }

  /** `range(start, stop + 1, step)` as a set. */
  function Range(start: int, stop: int, step: int): set<int>
    requires step >= 1
  {
    set x | start <= x <= stop && OnStep(x, start, step)
  }

  predicate OnStep(x: int, start: int, step: int)
    requires step >= 1
  {
    (x - start) % step == 0
  }

  predicate DashInside(s: string) {
    s != "" && if s[0] == '-' then DashInside(s[1..]) else '-' in s
  }

  /** The first and last value of the body of a part. */
  function ReadBody(body: string, low: int, high: int): Option<(int, int)> {
    if body == "*" then Some((low, high))
    else if DashInside(body) then
      var i := FirstAt(body, '-');
      if i == |body| then None
      else
        var a, b := ReadNumber(body[..i], low, high), ReadNumber(body[i + 1..], low, high);
        if a.None? || b.None? || a.value > b.value then None else Some((a.value, b.value))
    else
      var a := ReadNumber(body, low, high);
      if a.None? then None else Some((a.value, a.value))
  }

  function ReadPart(part: string, low: int, high: int): Option<set<int>> {
    var i := FirstAt(part, '/');
    if i == |part| then
      match ReadBody(part, low, high)
      case None => None
      case Some(ends) => Some(Range(ends.0, ends.1, 1))
    else
      var step := part[i + 1..];
      if !IsNumeral(step) || Number(step) < 1 then None
      else
        match ReadBody(part[..i], low, high)
        case None => None
        case Some(ends) => Some(Range(ends.0, ends.1, Number(step)))
  }

  /** The union of what the parts accept, unless one of them is refused. */
  function ReadParts(parts: seq<string>, low: int, high: int): Option<set<int>> {
    if parts == [] then Some({})
    else
      match (ReadParts(parts[..|parts| - 1], low, high), ReadPart(parts[|parts| - 1], low, high))
      case (Some(a), Some(b)) => Some(a + b)
      case _ => None
  }

  /** `_parse_field` */
  method ParseField(text: string, low: int, high: int) returns (found: Option<set<int>>)
    ensures found == ReadParts(Split(text, ','), low, high)
  {
    var parts := Split(text, ',');
    var values: set<int> := {};
    for k := 0 to |parts|
      invariant ReadParts(parts[..k], low, high) == Some(values)
    {
      assert parts[..k + 1][..k] == parts[..k];
      var one := ReadPart(parts[k], low, high);
      if one.None? {
        RefusedForGood(parts, k + 1, low, high);
        return None;
      }
      values := values + one.value;
    }
    assert parts[..|parts|] == parts;
    found := Some(values);
  }

  lemma {:induction false} RefusedForGood(parts: seq<string>, k: nat, low: int, high: int)
    requires k <= |parts| && ReadParts(parts[..k], low, high).None?
    ensures ReadParts(parts, low, high).None?
    decreases |parts| - k
  {
    if k == |parts| {
      assert parts[..k] == parts;
    } else {
      assert parts[..k + 1][..k] == parts[..k];
      RefusedForGood(parts, k + 1, low, high);
    }
  }

  const LOWS: seq<int> := [0, 0, 1, 1, 0]
  const HIGHS: seq<int> := [59, 23, 31, 12, 7]

  /** The shortcuts, by lower-case name. */
  function Shortcut(name: string): Option<string> {
    if name == "@yearly" || name == "@annually" then Some("0 0 1 1 *")
    else if name == "@monthly" then Some("0 0 1 * *")
    else if name == "@weekly" then Some("0 0 * * 0")
    else if name == "@daily" || name == "@midnight" then Some("0 0 * * *")
    else if name == "@hourly" then Some("0 * * * *")
    else None
  }

  /** The five fields of an expression, if it has five. */
  function Fields(expression: string): Option<seq<string>> {
    var raw := Strip(expression);
    var words := Words(if Shortcut(Lower(raw)).Some? then Shortcut(Lower(raw)).value else raw);
    if |words| == 5 then Some(words) else None
  }

  predicate StartsWithStar(s: string) { s != "" && s[0] == '*' }

  /** 7 and 0 are both Sunday. */
  function FoldSunday(values: set<int>): set<int> {
    set v | v in values :: if v == 7 then 0 else v
  }

  function ReadField(fields: seq<string>, i: nat): Option<set<int>>
    requires i < |fields| == 5
  {
    ReadParts(Split(fields[i], ','), LOWS[i], HIGHS[i])
  }

  ghost predicate Readable(fields: seq<string>) {
    |fields| == 5 && forall i :: 0 <= i < 5 ==> ReadField(fields, i).Some?
  }

  ghost function Meaning(fields: seq<string>): Cron.Expression
    requires Readable(fields)
  {
    Cron.Expression(
      ReadField(fields, 0).value, ReadField(fields, 1).value, ReadField(fields, 2).value, ReadField(fields, 3).value,
      FoldSunday(ReadField(fields, 4).value), StartsWithStar(fields[2]), StartsWithStar(fields[4]))
  }

  /** `parse_cron` */
  method ParseCron(expression: string) returns (r: Option<Cron.Expression>)
    ensures r.Some? <==> Fields(expression).Some? && Readable(Fields(expression).value)
    ensures r.Some? ==> r.value == Meaning(Fields(expression).value)
  {
    var fields := Fields(expression);
    if fields.None? {
      return None;
    }
    var f := fields.value;
    var values: seq<set<int>> := [];
    for i := 0 to 5
      invariant |values| == i
      invariant forall k :: 0 <= k < i ==> ReadField(f, k) == Some(values[k])
    {
      var found := ParseField(f[i], LOWS[i], HIGHS[i]);
      assert found == ReadField(f, i);
      if found.None? {
        return None;
      }
      values := values + [found.value];
    }
    r := Some(Cron.Expression(values[0], values[1], values[2], values[3], FoldSunday(values[4]),
      StartsWithStar(f[2]), StartsWithStar(f[4])));
  }

  // ------------------------------------------------ what an expression denotes

  datatype Base = All | One(n: nat) | Span(from: nat, to: nat)

  /** One element of a comma-separated field. */
  datatype Part = Part(base: Base, step: Option<nat>)

  predicate ValidPart(p: Part, low: int, high: int) {
    && (p.step.Some? ==> p.step.value >= 1)
    && match p.base
       case All => true
       case One(n) => low <= n <= high
       case Span(a, b) => low <= a <= b <= high
  }

  /** The values a part stands for. */
  function Denotes(p: Part, low: int, high: int): set<int>
    requires ValidPart(p, low, high)
  {
    var step := if p.step.Some? then p.step.value else 1;
    match p.base
    case All => Range(low, high, step)
    case One(n) => {n}
    case Span(a, b) => Range(a, b, step)
  }

  predicate ValidField(parts: seq<Part>, low: int, high: int) {
    parts != [] && forall i :: 0 <= i < |parts| ==> ValidPart(parts[i], low, high)
  }

  function FieldDenotes(parts: seq<Part>, low: int, high: int): set<int>
    requires forall i :: 0 <= i < |parts| ==> ValidPart(parts[i], low, high)
  {
    if parts == [] then {} else FieldDenotes(parts[..|parts| - 1], low, high) + Denotes(parts[|parts| - 1], low, high)
  }

  function WriteBase(b: Base): string {
    match b
    case All => "*"
    case One(n) => Decimal(n)
    case Span(a, b) => Decimal(a) + "-" + Decimal(b)
  }

  function WritePart(p: Part): string {
    WriteBase(p.base) + if p.step.None? then "" else "/" + Decimal(p.step.value)
  }

  function WriteParts(parts: seq<Part>): (texts: seq<string>)
    ensures |texts| == |parts|
  {
    if parts == [] then [] else WriteParts(parts[..|parts| - 1]) + [WritePart(parts[|parts| - 1])]
  }

  function WriteField(parts: seq<Part>): string
    requires parts != []
  {
    Join(WriteParts(parts), ',')
  }

  // ------------------------------------------------------------ reading back

  lemma NumeralReads(n: nat)
    ensures IsNumeral(Decimal(n)) && Number(Decimal(n)) == n
  {
    DigitsRead(n);
  }

  lemma FirstAtNowhere(s: string, c: char)
    requires c !in s
    ensures FirstAt(s, c) == |s|
  {
  }

  lemma {:induction false} FirstAtAfter(p: string, c: char, s: string)
    requires c !in p
    ensures FirstAt(p + [c] + s, c) == |p|
  {
    var t := p + [c] + s;
    if p == "" {
      assert t[0] == c;
    } else {
      assert t[0] == p[0] && t[1..] == p[1..] + [c] + s;
      FirstAtAfter(p[1..], c, s);
    }
  }

  function Ends(b: Base, low: int, high: int): (int, int) {
    match b
    case All => (low, high)
    case One(n) => (n, n)
    case Span(a, b) => (a, b)
  }

  lemma BaseReads(b: Base, low: int, high: int)
    requires ValidPart(Part(b, None), low, high)
    ensures ReadBody(WriteBase(b), low, high) == Some(Ends(b, low, high))
  {
    match b
    case All =>
    case One(n) =>
      NumeralReads(n);
      assert Decimal(n)[0] != '*' && Decimal(n)[0] != '-';
    case Span(m, n) =>
      NumeralReads(m);
      NumeralReads(n);
      SpanReads(Decimal(m), Decimal(n), low, high);
  }

  lemma SpanReads(a: string, b: string, low: int, high: int)
    requires IsNumeral(a) && IsNumeral(b) && low <= Number(a) <= Number(b) <= high
    ensures ReadBody(a + "-" + b, low, high) == Some((Number(a), Number(b)))
  {
    var text := a + "-" + b;
    assert text[0] == a[0] && text[|a|] == '-';
    assert '-' !in a;
    assert text == a + ['-'] + b;
    FirstAtAfter(a, '-', b);
    assert text[..|a|] == a && text[|a| + 1..] == b;
  }

  /** What the text of a part is made of. */
  predicate Plain(c: char) { IsDigit(c) || c == '*' || c == '-' || c == '/' }

  lemma BaseIsPlain(b: Base)
    ensures WriteBase(b) != "" && forall c :: c in WriteBase(b) ==> Plain(c) && c != '/'
  {
    match b {
      case All =>
      case One(n) => NumeralReads(n);
      case Span(x, y) =>
        NumeralReads(x);
        NumeralReads(y);
    }
  }

  lemma PartIsPlain(p: Part)
    ensures WritePart(p) != "" && forall c :: c in WritePart(p) ==> Plain(c)
    ensures '/' !in WriteBase(p.base)
  {
    BaseIsPlain(p.base);
    if p.step.Some? { NumeralReads(p.step.value); }
  }

  /** Where a written part is cut: its base, and its step if it has one. */
  lemma StepReads(p: Part)
    ensures var text, base := WritePart(p), WriteBase(p.base);
      var i := FirstAt(text, '/');
      && i == |base| <= |text| && text[..i] == base
      && (p.step.None? ==> i == |text|)
      && (p.step.Some? ==>
        i < |text| && text[i + 1..] == Decimal(p.step.value)
        && IsNumeral(text[i + 1..]) && Number(text[i + 1..]) == p.step.value)
  {
    PartIsPlain(p);
    var text, base := WritePart(p), WriteBase(p.base);
    if p.step.None? {
      assert text == base;
      FirstAtNowhere(text, '/');
    } else {
      NumeralReads(p.step.value);
      assert text == base + ['/'] + Decimal(p.step.value);
      FirstAtAfter(base, '/', Decimal(p.step.value));
    }
  }

  lemma PartReads(p: Part, low: int, high: int)
    requires ValidPart(p, low, high)
    ensures ReadPart(WritePart(p), low, high) == Some(Denotes(p, low, high))
  {
    BaseReads(p.base, low, high);
    StepReads(p);
    var text, ends := WritePart(p), Ends(p.base, low, high);
    assert text[..|text|] == text;
    assert ReadPart(text, low, high) == Some(Range(ends.0, ends.1, if p.step.Some? then p.step.value else 1));
    if p.base.One? {
      assert Range(p.base.n, p.base.n, if p.step.Some? then p.step.value else 1) == {p.base.n};
    }
  }

  lemma {:induction false} PartsRead(parts: seq<Part>, low: int, high: int)
    requires forall i :: 0 <= i < |parts| ==> ValidPart(parts[i], low, high)
    ensures ReadParts(WriteParts(parts), low, high) == Some(FieldDenotes(parts, low, high))
  {
    if parts != [] {
      var n := |parts| - 1;
      PartsRead(parts[..n], low, high);
      PartReads(parts[n], low, high);
      assert WriteParts(parts)[..n] == WriteParts(parts[..n]);
    }
  }

  lemma NoCommas(parts: seq<Part>)
    ensures forall t :: t in WriteParts(parts) ==> ',' !in t
  {
    forall i | 0 <= i < |parts| ensures ',' !in WritePart(parts[i]) {
      PartIsPlain(parts[i]);
    }
  }

  /** Reading a written field gives what the field denotes. */
  lemma FieldReads(parts: seq<Part>, low: int, high: int)
    requires ValidField(parts, low, high)
    ensures ReadParts(Split(WriteField(parts), ','), low, high) == Some(FieldDenotes(parts, low, high))
  {
    PartsRead(parts, low, high);
    NoCommas(parts);
    SplitJoin(WriteParts(parts), ',');
  }

  predicate Solid(word: string) {
    word != "" && forall i :: 0 <= i < |word| ==> !IsSpace(word[i])
  }

  lemma {:induction false} WordEndsAt(word: string, rest: string)
    requires forall i :: 0 <= i < |word| ==> !IsSpace(word[i])
    requires rest == "" || IsSpace(rest[0])
    ensures WordEnd(word + rest) == |word|
  {
    if word == "" {
      assert word + rest == rest;
    } else {
      assert (word + rest)[0] == word[0] && (word + rest)[1..] == word[1..] + rest;
      WordEndsAt(word[1..], rest);
    }
  }

  lemma OneWord(word: string, rest: string)
    requires Solid(word) && (rest == "" || IsSpace(rest[0]))
    ensures Words(word + rest) == [word] + Words(rest)
  {
    WordEndsAt(word, rest);
    assert (word + rest)[0] == word[0];
    assert (word + rest)[..|word|] == word && (word + rest)[|word|..] == rest;
  }

  /** Words separated by single spaces. */
  function Spaced(words: seq<string>): string
    requires words != []
  {
    if |words| == 1 then words[0] else words[0] + (" " + Spaced(words[1..]))
  }

  lemma {:induction false} SpacedReads(words: seq<string>)
    requires words != [] && forall i :: 0 <= i < |words| ==> Solid(words[i])
    ensures Words(Spaced(words)) == words
    ensures Spaced(words) != "" && words[0] != "" && Spaced(words)[0] == words[0][0]
      && !IsSpace(Spaced(words)[|Spaced(words)| - 1])
  {
    if |words| == 1 {
      OneWord(words[0], "");
      assert words[0] + "" == words[0];
      assert words == [words[0]];
    } else {
      var rest := Spaced(words[1..]);
      SpacedReads(words[1..]);
      OneWord(words[0], " " + rest);
      assert (" " + rest)[1..] == rest;
      assert words == [words[0]] + words[1..];
    }
  }

  // -------------------------------------------------------------- main results

  /** The five fields, in order. */
  type Schedule = seq<seq<Part>>

  predicate ValidSchedule(s: Schedule) {
    |s| == 5 && forall i :: 0 <= i < 5 ==> ValidField(s[i], LOWS[i], HIGHS[i])
  }

  function WriteFields(s: Schedule): (texts: seq<string>)
    requires forall i :: 0 <= i < |s| ==> s[i] != []
    ensures |texts| == |s| && forall i :: 0 <= i < |s| ==> texts[i] == WriteField(s[i])
  {
    if s == [] then [] else [WriteField(s[0])] + WriteFields(s[1..])
  }

  function WriteCron(s: Schedule): string
    requires ValidSchedule(s)
  {
    Spaced(WriteFields(s))
  }

  /** The values of the i-th field. */
  function Denoted(s: Schedule, i: nat): set<int>
    requires ValidSchedule(s) && i < 5
  {
    assert ValidField(s[i], LOWS[i], HIGHS[i]);
    FieldDenotes(s[i], LOWS[i], HIGHS[i])
  }

  predicate LeadsWithStar(s: Schedule, i: nat)
    requires ValidSchedule(s) && i < 5
  {
    assert ValidField(s[i], LOWS[i], HIGHS[i]);
    s[i][0].base.All?
  }

  ghost function ScheduleDenotes(s: Schedule): Cron.Expression
    requires ValidSchedule(s)
  {
    Cron.Expression(Denoted(s, 0), Denoted(s, 1), Denoted(s, 2), Denoted(s, 3), FoldSunday(Denoted(s, 4)),
      LeadsWithStar(s, 2), LeadsWithStar(s, 4))
  }

  ghost predicate PlainText(t: string) {
    t != "" && forall c :: c in t ==> Plain(c)
  }

  lemma {:induction false} JoinIsSolid(texts: seq<string>)
    requires texts != [] && forall i :: 0 <= i < |texts| ==> PlainText(texts[i])
    ensures Join(texts, ',') != "" && PlainText(texts[0]) && Join(texts, ',')[0] == texts[0][0]
    ensures forall c :: c in Join(texts, ',') ==> Plain(c) || c == ','
  {
    if |texts| > 1 { JoinIsSolid(texts[1..]); }
  }

  lemma {:induction false} TextsArePlain(parts: seq<Part>)
    ensures parts != [] ==> WriteParts(parts)[0] == WritePart(parts[0])
    ensures forall i :: 0 <= i < |parts| ==> PlainText(WriteParts(parts)[i])
  {
    if parts != [] {
      TextsArePlain(parts[..|parts| - 1]);
      PartIsPlain(parts[|parts| - 1]);
    }
  }

  lemma FieldIsSolid(parts: seq<Part>)
    requires parts != []
    ensures Solid(WriteField(parts)) && (StartsWithStar(WriteField(parts)) <==> parts[0].base.All?)
      && WriteField(parts)[0] != '@'
  {
    TextsArePlain(parts);
    JoinIsSolid(WriteParts(parts));
    var text := WriteField(parts);
    forall i | 0 <= i < |text| ensures !IsSpace(text[i]) {
      assert text[i] in text;
    }
    match parts[0].base {
      case All => assert WritePart(parts[0])[0] == '*';
      case One(n) => NumeralReads(n);
      case Span(a, b) => NumeralReads(a);
    }
  }

  lemma OneFieldReadsBack(s: Schedule, texts: seq<string>, i: nat)
    requires ValidSchedule(s) && texts == WriteFields(s) && i < 5
    ensures Solid(texts[i]) && texts[i][0] != '@' && (StartsWithStar(texts[i]) <==> LeadsWithStar(s, i))
    ensures ReadField(texts, i) == Some(Denoted(s, i))
  {
    assert ValidField(s[i], LOWS[i], HIGHS[i]);
    FieldIsSolid(s[i]);
    FieldReads(s[i], LOWS[i], HIGHS[i]);
  }

  lemma StripKeeps(text: string)
    requires text != "" && !IsSpace(text[0]) && !IsSpace(text[|text| - 1]) && text[0] != '@'
    ensures Strip(text) == text && Shortcut(Lower(text)).None?
  {
    assert Lower(text)[0] == LowerChar(text[0]) != '@';
    ShortcutsBeginWithAt(Lower(text));
  }

  lemma ShortcutsBeginWithAt(name: string)
    requires name != "" && name[0] != '@'
    ensures Shortcut(name).None?
  {
  }

  lemma FieldsReadBack(s: Schedule)
    requires ValidSchedule(s)
    ensures Fields(WriteCron(s)) == Some(WriteFields(s))
  {
    var texts := WriteFields(s);
    forall i | 0 <= i < |texts| ensures Solid(texts[i]) {
      OneFieldReadsBack(s, texts, i);
    }
    OneFieldReadsBack(s, texts, 0);
    SpacedReads(texts);
    StripKeeps(WriteCron(s));
  }

  /** Any schedule written in the five-field form is read back as exactly the
      sets it denotes, and whether a day field starts with a star is read from
      its first part alone. */
  lemma ReadsBack(s: Schedule)
    requires ValidSchedule(s)
    ensures Fields(WriteCron(s)) == Some(WriteFields(s)) && Readable(WriteFields(s))
    ensures Meaning(WriteFields(s)) == ScheduleDenotes(s)
  {
    FieldsReadBack(s);
    AllReadable(s, WriteFields(s));
    Assembled(s, WriteFields(s));
  }

  lemma AllReadable(s: Schedule, texts: seq<string>)
    requires ValidSchedule(s) && texts == WriteFields(s)
    ensures Readable(texts)
  {
    forall i | 0 <= i < 5 ensures ReadField(texts, i).Some? {
      OneFieldReadsBack(s, texts, i);
    }
  }

  lemma Assembled(s: Schedule, texts: seq<string>)
    requires ValidSchedule(s) && texts == WriteFields(s) && Readable(texts)
    ensures Meaning(texts) == ScheduleDenotes(s)
  {
    OneFieldReadsBack(s, texts, 0);
    OneFieldReadsBack(s, texts, 1);
    OneFieldReadsBack(s, texts, 2);
    OneFieldReadsBack(s, texts, 3);
    OneFieldReadsBack(s, texts, 4);
  }

  /** Whatever is accepted stands for some part with its numbers in range. */
  lemma AcceptedIsDenoted(text: string, low: int, high: int) returns (p: Part)
    requires 0 <= low && ReadPart(text, low, high).Some?
    ensures ValidPart(p, low, high) && ReadPart(text, low, high) == Some(Denotes(p, low, high))
  {
    var i := FirstAt(text, '/');
    var body := if i == |text| then text else text[..i];
    var ends := ReadBody(body, low, high).value;
    var step := if i == |text| then None else Some(Number(text[i + 1..]));
    if body == "*" {
      p := Part(All, step);
    } else {
      p := Part(Span(ends.0, ends.1), step);
    }
  }

  lemma PartInRange(text: string, low: int, high: int)
    requires 0 <= low <= high && ReadPart(text, low, high).Some?
    ensures forall v :: v in ReadPart(text, low, high).value ==> low <= v <= high
    ensures ReadPart(text, low, high).value != {}
  {
    var p := AcceptedIsDenoted(text, low, high);
    var first := Ends(p.base, low, high).0;
    assert first in Denotes(p, low, high);
  }

  /** An accepted field is a non-empty set of values in its range. */
  lemma {:induction false} AcceptedInRange(parts: seq<string>, low: int, high: int)
    requires 0 <= low <= high && ReadParts(parts, low, high).Some?
    ensures forall v :: v in ReadParts(parts, low, high).value ==> low <= v <= high
    ensures parts != [] ==> ReadParts(parts, low, high).value != {}
  {
    if parts != [] {
      var n := |parts| - 1;
      AcceptedInRange(parts[..n], low, high);
      PartInRange(parts[n], low, high);
    }
  }

  /** A schedule whose weekday field is `*` always has a next run, if some day
      up to the 28th is allowed in some allowed month. */
  lemma StarWeekdayRuns(s: Schedule, moment: Cron.Moment, month: int, day: int)
    requires ValidSchedule(s) && Cron.Valid(moment) && s[4] == [Part(All, None)]
    requires month in Denoted(s, 3) && day in Denoted(s, 2) && day <= 28
    ensures Readable(WriteFields(s)) && Cron.HasRun(Meaning(WriteFields(s)), moment)
  {
    ReadsBack(s);
    var c := ScheduleDenotes(s);
    forall w | 0 <= w < 7 ensures w in c.weekdays {
      EveryWeekday(w);
    }
    var hour := SomeValue(s[1], 0, 23);
    var minute := SomeValue(s[0], 0, 59);
    DenotesInRange(s[3], 1, 12, month);
    DenotesInRange(s[2], 1, 31, day);
    Cron.DayOfMonthAlwaysRuns(c, moment, month, day, hour, minute);
  }

  lemma EveryWeekday(w: int)
    requires 0 <= w < 7
    ensures w in FoldSunday(FieldDenotes([Part(All, None)], 0, 7))
  {
    var star := Part(All, None);
    assert [star][..0] == [];
    assert OnStep(w, 0, 1);
    assert w in Denotes(star, 0, 7) && w in FieldDenotes([star], 0, 7);
  }

  lemma SomeValue(parts: seq<Part>, low: int, high: int) returns (v: int)
    requires ValidField(parts, low, high) && 0 <= low <= high
    ensures v in FieldDenotes(parts, low, high) && low <= v <= high
  {
    var last := parts[|parts| - 1];
    v := Ends(last.base, low, high).0;
    assert v in Denotes(last, low, high);
    DenotesInRange(parts, low, high, v);
  }

  lemma {:induction false} DenotesInRange(parts: seq<Part>, low: int, high: int, v: int)
    requires forall i :: 0 <= i < |parts| ==> ValidPart(parts[i], low, high)
    requires v in FieldDenotes(parts, low, high)
    ensures low <= v <= high
  {
    if v !in Denotes(parts[|parts| - 1], low, high) {
      DenotesInRange(parts[..|parts| - 1], low, high, v);
    }
  }

  // --------------------------------------------- what texts mean, in plain terms

  /** The values of a part: its only number, or from the first on, step by step,
      up to the last. */
  lemma PartValues(p: Part, low: int, high: int, v: int)
    requires ValidPart(p, low, high)
    ensures var step := if p.step.Some? then p.step.value else 1;
      match p.base
      case All => v in Denotes(p, low, high) <==> v <= high && exists k: nat :: v == low + k * step
      case One(n) => v in Denotes(p, low, high) <==> v == n
      case Span(a, b) => v in Denotes(p, low, high) <==> v <= b && exists k: nat :: v == a + k * step
  {
    var step := if p.step.Some? then p.step.value else 1;
    if !p.base.One? {
      StepsFrom(if p.base.All? then low else p.base.from, step, v);
    }
  }

  lemma StepsFrom(start: int, step: int, v: int)
    requires step >= 1
    ensures start <= v && OnStep(v, start, step) <==> exists k: nat :: v == start + k * step
  {
    if start <= v && OnStep(v, start, step) {
      var k := (v - start) / step;
      assert v == start + k * step && k >= 0;
    }
    forall k: nat | v == start + k * step ensures start <= v && OnStep(v, start, step) {
      Multiple(k, step);
    }
  }

  lemma Multiple(k: nat, step: int)
    requires step >= 1
    ensures k * step >= 0 && (k * step) % step == 0
  {
    var q, r := (k * step) / step, (k * step) % step;
    assert k * step == q * step + r;
    NoSmallMultiple(k - q, step, r);
  }

  lemma NoSmallMultiple(n: int, step: int, r: int)
    requires step >= 1 && n * step == r && 0 <= r < step
    ensures r == 0
  {
    AtLeastStep(n, step);
  }

  lemma AtLeastStep(n: int, step: int)
    requires step >= 1
    ensures n > 0 ==> n * step >= step
    ensures n < 0 ==> n * step <= -step
  {
  }

  /** Of the weekdays only 7 changes, to 0, which is Sunday. */
  lemma SundayIsZero(values: set<int>, v: int)
    ensures v in FoldSunday(values) <==> (v in values && v != 7) || (v == 0 && 7 in values)
  {
    if 7 in values {
      assert 0 in FoldSunday(values);
    }
  }

  lemma {:induction false} LowerKeepsRest(s: string, i: nat)
    requires i < |s|
    ensures 'A' <= s[i] <= 'Z' ==> Lower(s)[i] as int == s[i] as int + ('a' as int - 'A' as int)
    ensures !('A' <= s[i] <= 'Z') ==> Lower(s)[i] == s[i]
  {
    if i > 0 { LowerKeepsRest(s[1..], i - 1); }
  }

  ghost predicate Blank(s: string) {
    forall c :: c in s ==> IsSpace(c)
  }

  /** Stripping takes white space off both ends and nothing else. */
  lemma {:induction false} StripsEnds(s: string) returns (before: string, after: string)
    ensures s == before + Strip(s) + after && Blank(before) && Blank(after)
    ensures Strip(s) != "" ==> !IsSpace(Strip(s)[0]) && !IsSpace(Strip(s)[|Strip(s)| - 1])
    decreases |s|
  {
    before, after := "", "";
    if s != "" && IsSpace(s[0]) {
      before, after := StripsEnds(s[1..]);
      OneMoreBefore(s, before, Strip(s[1..]), after);
      before := [s[0]] + before;
    } else if s != "" && IsSpace(s[|s| - 1]) {
      before, after := StripsEnds(s[..|s| - 1]);
      OneMoreAfter(s, before, Strip(s[..|s| - 1]), after);
      after := after + [s[|s| - 1]];
    }
  }

  /** The characters Unicode counts as white space. */
  const WHITE := "\t\n\U{B}\U{C}\r\U{1C}\U{1D}\U{1E}\U{1F} \U{85}\U{A0}\U{1680}"
    + "\U{2000}\U{2001}\U{2002}\U{2003}\U{2004}\U{2005}\U{2006}\U{2007}\U{2008}\U{2009}\U{200A}"
    + "\U{2028}\U{2029}\U{202F}\U{205F}\U{3000}"

  /** One character is no word exactly when it is white space. */
  lemma {:induction false} NoWordIff(c: char)
    ensures Words([c]) == [] <==> c in WHITE
  {
    assert IsSpace(c) <==> c in WHITE;
    assert WordEnd([c][1..]) == 0;
  }

  lemma OneMoreBefore(s: string, before: string, m: string, after: string)
    requires s != "" && IsSpace(s[0]) && s[1..] == before + m + after && Blank(before)
    ensures s == [s[0]] + before + m + after && Blank([s[0]] + before)
  {
    assert s == [s[0]] + s[1..];
  }

  lemma OneMoreAfter(s: string, before: string, m: string, after: string)
    requires s != "" && IsSpace(s[|s| - 1]) && s[..|s| - 1] == before + m + after && Blank(after)
    ensures s == before + m + (after + [s[|s| - 1]]) && Blank(after + [s[|s| - 1]])
  {
    assert s == s[..|s| - 1] + [s[|s| - 1]];
  }

  predicate AllWithin(values: set<int>, low: int, high: int) {
    forall v :: v in values ==> low <= v <= high
  }

  lemma FieldInRange(fields: seq<string>, i: nat)
    requires Readable(fields) && i < 5
    ensures AllWithin(ReadField(fields, i).value, LOWS[i], HIGHS[i])
  {
    assert ReadField(fields, i).Some?;
    AcceptedInRange(Split(fields[i], ','), LOWS[i], HIGHS[i]);
  }

  lemma FoldedInRange(values: set<int>)
    requires AllWithin(values, 0, 7)
    ensures AllWithin(FoldSunday(values), 0, 6)
  {
  }

  /** Whatever is accepted stays within the ranges of the five fields. */
  lemma MeaningInRange(fields: seq<string>)
    requires Readable(fields)
    ensures var e := Meaning(fields);
      && AllWithin(e.minutes, 0, 59) && AllWithin(e.hours, 0, 23) && AllWithin(e.days, 1, 31)
      && AllWithin(e.months, 1, 12) && AllWithin(e.weekdays, 0, 6)
  {
    FieldInRange(fields, 0);
    FieldInRange(fields, 1);
    FieldInRange(fields, 2);
    FieldInRange(fields, 3);
    FieldInRange(fields, 4);
    FoldedInRange(ReadField(fields, 4).value);
  }

  /** The text is accepted and means this expression. */
  ghost predicate Reads(text: string, e: Cron.Expression) {
    Fields(text).Some? && Readable(Fields(text).value) && Meaning(Fields(text).value) == e
  }

  function From(low: int, high: int): (values: set<int>)
    ensures forall v :: v in values <==> low <= v <= high
    decreases high - low
  {
    if low > high then {} else {low} + From(low + 1, high)
  }

  function Simple(b: seq<Base>): Schedule {
    seq(|b|, i requires 0 <= i < |b| => [Part(b[i], None)])
  }

  /** What a field of one value or of a star allows. */
  function SimpleValues(b: Base, low: int, high: int): set<int>
    requires !b.Span?
  {
    if b.All? then From(low, high) else {b.n as int}
  }

  predicate SimpleBases(b: seq<Base>) {
    |b| == 5 && forall i :: 0 <= i < 5 ==> b[i].All? || (b[i].One? && LOWS[i] <= b[i].n <= HIGHS[i])
  }

  lemma OnePart(b: Base, low: int, high: int)
    requires b.All? || (b.One? && low <= b.n <= high)
    ensures WriteField([Part(b, None)]) == WriteBase(b)
    ensures ValidField([Part(b, None)], low, high)
    ensures FieldDenotes([Part(b, None)], low, high) == SimpleValues(b, low, high)
  {
    var parts := [Part(b, None)];
    assert parts[..0] == [] && WriteParts(parts) == [WritePart(parts[0])];
    assert FieldDenotes(parts, low, high) == Denotes(parts[0], low, high);
    forall v | low <= v <= high ensures OnStep(v, low, 1) {
    }
  }

  lemma SimpleText(b: seq<Base>)
    requires SimpleBases(b)
    ensures ValidSchedule(Simple(b))
    ensures WriteCron(Simple(b)) ==
      WriteBase(b[0]) + " "
        + (WriteBase(b[1]) + " " + (WriteBase(b[2]) + " " + (WriteBase(b[3]) + " " + WriteBase(b[4]))))
  {
    var s := Simple(b);
    forall i | 0 <= i < 5 ensures ValidField(s[i], LOWS[i], HIGHS[i]) && WriteField(s[i]) == WriteBase(b[i]) {
      OnePart(b[i], LOWS[i], HIGHS[i]);
    }
    FiveSpaced(WriteFields(s));
  }

  lemma FiveSpaced(w: seq<string>)
    requires |w| == 5
    ensures Spaced(w) == w[0] + " " + (w[1] + " " + (w[2] + " " + (w[3] + " " + w[4])))
  {
    assert w[1..][1..] == w[2..] && w[2..][1..] == w[3..] && w[3..][1..] == w[4..];
    assert Spaced(w[3..]) == w[3] + (" " + w[4]);
    assert Spaced(w[1..]) == w[1] + (" " + (w[2] + (" " + Spaced(w[3..]))));
    assert Spaced(w) == w[0] + (" " + Spaced(w[1..]));
  }

  function SundayFirst(b: Base): set<int>
    requires !b.Span?
  {
    if b.All? then From(0, 6) else if b.n == 7 then {0} else {b.n as int}
  }

  /** What five stars or single numbers mean. */
  function SimpleMeaning(b: seq<Base>): Cron.Expression
    requires SimpleBases(b)
  {
    Cron.Expression(
      SimpleValues(b[0], 0, 59), SimpleValues(b[1], 0, 23), SimpleValues(b[2], 1, 31), SimpleValues(b[3], 1, 12),
      SundayFirst(b[4]), b[2].All?, b[4].All?)
  }

  lemma SimpleDenoted(b: seq<Base>)
    requires SimpleBases(b) && ValidSchedule(Simple(b))
    ensures forall i :: 0 <= i < 5 ==> Denoted(Simple(b), i) == SimpleValues(b[i], LOWS[i], HIGHS[i])
  {
    forall i | 0 <= i < 5 ensures Denoted(Simple(b), i) == SimpleValues(b[i], LOWS[i], HIGHS[i]) {
      OnePart(b[i], LOWS[i], HIGHS[i]);
    }
  }

  lemma FoldedSimple(b: Base)
    requires b.All? || (b.One? && 0 <= b.n <= 7)
    ensures FoldSunday(SimpleValues(b, 0, 7)) == SundayFirst(b)
  {
    forall v ensures v in FoldSunday(SimpleValues(b, 0, 7)) <==> v in SundayFirst(b) {
      SundayIsZero(SimpleValues(b, 0, 7), v);
    }
  }

  /** A schedule of stars and single numbers. */
  lemma SimpleReads(b: seq<Base>)
    requires SimpleBases(b)
    ensures ValidSchedule(Simple(b)) && Reads(WriteCron(Simple(b)), SimpleMeaning(b))
  {
    SimpleText(b);
    ReadsBack(Simple(b));
    SimpleDenoted(b);
    FoldedSimple(b[4]);
  }

  /** A shortcut stands for its five fields, whatever its case and the white space
      around it. */
  lemma ShortcutReads(text: string, s: Schedule, e: Cron.Expression)
    requires ValidSchedule(s) && Shortcut(Lower(Strip(text))) == Some(WriteCron(s)) && Reads(WriteCron(s), e)
    ensures Reads(text, e)
  {
    FieldsReadBack(s);
    var texts := WriteFields(s);
    forall i | 0 <= i < |texts| ensures Solid(texts[i]) {
      OneFieldReadsBack(s, texts, i);
    }
    SpacedReads(texts);
  }

  /** A base written with this one character. */
  predicate Marked(b: Base, c: char) {
    !b.Span? && WriteBase(b) == [c]
  }

  lemma StarMark()
    ensures Marked(All, '*')
  {
  }

  lemma DigitMark(n: nat)
    requires n < 10
    ensures Marked(One(n), ('0' as int + n) as char)
  {
  }

  /** Five stars or digits with blanks in between. */
  function Spelled(c: char, d: char, e: char, f: char, g: char): string {
    [c, ' ', d, ' ', e, ' ', f, ' ', g]
  }

  lemma SimpleSpelled(b: seq<Base>, c: char, d: char, e: char, f: char, g: char)
    requires SimpleBases(b)
    requires Marked(b[0], c) && Marked(b[1], d) && Marked(b[2], e) && Marked(b[3], f) && Marked(b[4], g)
    ensures ValidSchedule(Simple(b)) && WriteCron(Simple(b)) == Spelled(c, d, e, f, g)
  {
    SimpleText(b);
    assert [c] + " " + ([d] + " " + ([e] + " " + ([f] + " " + [g]))) == Spelled(c, d, e, f, g);
  }

  /** Such a text is read, and so is a shortcut for it. */
  lemma SpelledReads(text: string, b: seq<Base>, c: char, d: char, e: char, f: char, g: char)
    requires SimpleBases(b)
    requires Marked(b[0], c) && Marked(b[1], d) && Marked(b[2], e) && Marked(b[3], f) && Marked(b[4], g)
    requires text == Spelled(c, d, e, f, g) || Shortcut(Lower(Strip(text))) == Some(Spelled(c, d, e, f, g))
    ensures Reads(text, SimpleMeaning(b))
  {
    SimpleSpelled(b, c, d, e, f, g);
    SimpleReads(b);
    if text != WriteCron(Simple(b)) {
      ShortcutReads(text, Simple(b), SimpleMeaning(b));
    }
  }

  predicate FitsField(b: Base, low: int, high: int) {
    b.All? || (b.One? && low <= b.n <= high)
  }

  lemma FiveRead(text: string, b0: Base, b1: Base, b2: Base, b3: Base, b4: Base,
      c: char, d: char, e: char, f: char, g: char)
    requires FitsField(b0, 0, 59) && FitsField(b1, 0, 23) && FitsField(b2, 1, 31) && FitsField(b3, 1, 12)
    requires FitsField(b4, 0, 7)
    requires Marked(b0, c) && Marked(b1, d) && Marked(b2, e) && Marked(b3, f) && Marked(b4, g)
    requires text == Spelled(c, d, e, f, g) || Shortcut(Lower(Strip(text))) == Some(Spelled(c, d, e, f, g))
    ensures Reads(text, Cron.Expression(
      SimpleValues(b0, 0, 59), SimpleValues(b1, 0, 23), SimpleValues(b2, 1, 31), SimpleValues(b3, 1, 12),
      SundayFirst(b4), b2.All?, b4.All?))
  {
    var b := [b0, b1, b2, b3, b4];
    assert SimpleBases(b);
    SpelledReads(text, b, c, d, e, f, g);
  }

  lemma Marks()
    ensures Marked(All, '*') && Marked(One(0), '0') && Marked(One(1), '1') && Marked(One(7), '7')
  {
    StarMark();
    DigitMark(0);
    DigitMark(1);
    DigitMark(7);
  }

  /** The schedule of each shortcut: minutes, hours, days, months, weekdays, and
      which day field is a star. */
  lemma YearlyMeans(text: string)
    requires Lower(Strip(text)) == "@yearly" || Lower(Strip(text)) == "@annually"
    ensures Reads(text, Cron.Expression({0}, {0}, {1}, {1}, From(0, 6), false, true))
  {
    Marks();
    FiveRead(text, One(0), One(0), One(1), One(1), All, '0', '0', '1', '1', '*');
  }

  lemma MonthlyMeans(text: string)
    requires Lower(Strip(text)) == "@monthly"
    ensures Reads(text, Cron.Expression({0}, {0}, {1}, From(1, 12), From(0, 6), false, true))
  {
    Marks();
    FiveRead(text, One(0), One(0), One(1), All, All, '0', '0', '1', '*', '*');
  }

  lemma WeeklyMeans(text: string)
    requires Lower(Strip(text)) == "@weekly"
    ensures Reads(text, Cron.Expression({0}, {0}, From(1, 31), From(1, 12), {0}, true, false))
  {
    Marks();
    FiveRead(text, One(0), One(0), All, All, One(0), '0', '0', '*', '*', '0');
  }

  lemma DailyMeans(text: string)
    requires Lower(Strip(text)) == "@daily" || Lower(Strip(text)) == "@midnight"
    ensures Reads(text, Cron.Expression({0}, {0}, From(1, 31), From(1, 12), From(0, 6), true, true))
  {
    Marks();
    FiveRead(text, One(0), One(0), All, All, All, '0', '0', '*', '*', '*');
  }

  lemma HourlySpelled()
    ensures Shortcut("@hourly") == Some(Spelled('0', '*', '*', '*', '*'))
  {
    assert "0 * * * *" == Spelled('0', '*', '*', '*', '*');
  }

  lemma HourlyMeans(text: string)
    requires Lower(Strip(text)) == "@hourly"
    ensures Reads(text, Cron.Expression({0}, From(0, 23), From(1, 31), From(1, 12), From(0, 6), true, true))
  {
    Marks();
    HourlySpelled();
    FiveRead(text, One(0), All, All, All, All, '0', '*', '*', '*', '*');
  }

  /** Every minute, and every minute on Sundays. */
  lemma StarsMean()
    ensures Reads("* * * * *",
      Cron.Expression(From(0, 59), From(0, 23), From(1, 31), From(1, 12), From(0, 6), true, true))
    ensures Reads("* * * * 7", Cron.Expression(From(0, 59), From(0, 23), From(1, 31), From(1, 12), {0}, true, false))
  {
    Marks();
    FiveRead("* * * * *", All, All, All, All, All, '*', '*', '*', '*', '*');
    FiveRead("* * * * 7", All, All, All, All, One(7), '*', '*', '*', '*', '7');
  }
}
