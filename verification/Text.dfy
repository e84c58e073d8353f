/** Splitting a string at a separator and joining it back, and integers as
    text. */
module Text {

  function Split(s: string, sep: char): (parts: seq<string>)
    ensures |parts| >= 1
    ensures forall p :: p in parts ==> sep !in p
  {
    if s == "" then [""]
    else
      var rest := Split(s[1..], sep);
      if s[0] == sep then [""] + rest
      else [[s[0]] + rest[0]] + rest[1..]
  }

  function Join(parts: seq<string>, sep: char): string
    requires |parts| >= 1
  {
    if |parts| == 1 then parts[0]
    else parts[0] + [sep] + Join(parts[1..], sep)
  }

  /** Joining undoes splitting. */
  lemma {:induction false} JoinSplit(s: string, sep: char)
    ensures Join(Split(s, sep), sep) == s
  {
    if s != "" {
      JoinSplit(s[1..], sep);
      assert s == [s[0]] + s[1..];
    }
  }

  lemma {:induction false} SplitAlone(p: string, sep: char)
    requires sep !in p
    ensures Split(p, sep) == [p]
  {
    if p != "" {
      SplitAlone(p[1..], sep);
      assert p == [p[0]] + p[1..];
    }
  }

  lemma {:induction false} SplitPrefix(p: string, s: string, sep: char)
    requires sep !in p
    ensures Split(p + [sep] + s, sep) == [p] + Split(s, sep)
  {
    var t := p + [sep] + s;
    if p == "" {
      assert t[0] == sep && t[1..] == s;
    } else {
      SplitPrefix(p[1..], s, sep);
      assert t[0] == p[0] && t[1..] == p[1..] + [sep] + s;
      assert p == [p[0]] + p[1..];
    }
  }

  /** Splitting undoes joining when no part holds the separator. */
  lemma {:induction false} SplitJoin(parts: seq<string>, sep: char)
    requires |parts| >= 1
    requires forall p :: p in parts ==> sep !in p
    ensures Split(Join(parts, sep), sep) == parts
  {
    if |parts| == 1 {
      SplitAlone(parts[0], sep);
    } else {
      SplitJoin(parts[1..], sep);
      SplitPrefix(parts[0], Join(parts[1..], sep), sep);
    }
  }

  // ------------------------------------------------------------- integers

  function Digit(d: nat): char
    requires d < 10
  {
    "0123456789"[d]
  }

  function Digits(n: nat): (s: string)
    ensures s != ""
  {
    if n < 10 then [Digit(n)] else Digits(n / 10) + [Digit(n % 10)]
  }

  /** `str(n)` of an int. */
  function Decimal(n: int): string {
    if n < 0 then "-" + Digits(-n) else Digits(n)
  }

  /** Comparison of strings by character code, a prefix first. */
  predicate TextLess(a: string, b: string) {
    if b == "" then false
    else if a == "" then true
    else a[0] < b[0] || (a[0] == b[0] && TextLess(a[1..], b[1..]))
  }

  predicate IsDigit(c: char) { '0' <= c <= '9' }

  function DigitValue(c: char): nat
    requires IsDigit(c)
  {
    c as int - '0' as int
  }

  /** The number a string of digits stands for. */
  function Number(s: string): nat
    requires forall i :: 0 <= i < |s| ==> IsDigit(s[i])
  {
    if s == "" then 0 else 10 * Number(s[..|s| - 1]) + DigitValue(s[|s| - 1])
  }

  lemma {:induction false} DigitsRead(n: nat)
    ensures forall i :: 0 <= i < |Digits(n)| ==> IsDigit(Digits(n)[i])
    ensures Number(Digits(n)) == n
  {
    if n >= 10 {
      DigitsRead(n / 10);
      assert Digits(n)[..|Digits(n)| - 1] == Digits(n / 10);
    }
  }

  lemma {:induction false} DigitRunIsUnique(a: string, b: string, s: string, t: string)
    requires forall i :: 0 <= i < |a| ==> IsDigit(a[i])
    requires forall i :: 0 <= i < |b| ==> IsDigit(b[i])
    requires s != "" && !IsDigit(s[0]) && t != "" && !IsDigit(t[0])
    requires a + s == b + t
    ensures a == b && s == t
  {
    Peel(a, s);
    Peel(b, t);
    if a != "" && b != "" {
      DigitRunIsUnique(a[1..], b[1..], s, t);
    }
  }

  lemma Peel(a: string, s: string)
    ensures a == "" ==> a + s == s
    ensures a != "" ==> (a + s)[0] == a[0] && (a + s)[1..] == a[1..] + s && a == [a[0]] + a[1..]
  {
  }

  /** A decimal followed by anything but a digit can be read back. */
  lemma DecimalReads(m: int, n: int, s: string, t: string)
    requires s != "" && !IsDigit(s[0]) && t != "" && !IsDigit(t[0])
    requires Decimal(m) + s == Decimal(n) + t
    ensures m == n && s == t
  {
    var a, b := Decimal(m), Decimal(n);
    var x, y := if m < 0 then -m else m, if n < 0 then -n else n;
    DigitsRead(x);
    DigitsRead(y);
    assert (a + s)[0] == a[0] && (b + t)[0] == b[0];
    assert m < 0 <==> n < 0;
    if m < 0 {
      assert (a + s)[1..] == Digits(x) + s && (b + t)[1..] == Digits(y) + t;
    }
    DigitRunIsUnique(Digits(x), Digits(y), s, t);
  }

  predicate AllDigits(s: string) {
    forall i :: 0 <= i < |s| ==> IsDigit(s[i])
  }

  /** A text that `str` of some int writes. */
  predicate IsDecimal(s: string) {
    var digits := if s != "" && s[0] == '-' then s[1..] else s;
    digits != "" && AllDigits(digits) && (digits[0] == '0' ==> |s| == 1)
  }

  lemma DigitOfValue(c: char)
    requires IsDigit(c)
    ensures DigitValue(c) < 10 && Digit(DigitValue(c)) == c
  {
  }

  lemma OneMoreDigit(n: nat, d: nat)
    requires 0 < n && d < 10
    ensures Digits(10 * n + d) == Digits(n) + [Digit(d)]
  {
    assert (10 * n + d) / 10 == n && (10 * n + d) % 10 == d;
  }

  lemma NumberNext(s: string, c: char)
    requires AllDigits(s) && IsDigit(c)
    ensures AllDigits(s + [c]) && Number(s + [c]) == 10 * Number(s) + DigitValue(c)
  {
    assert (s + [c])[..|s|] == s;
  }

  /** Digits without a leading zero are those of their number. */
  lemma {:induction false} DigitsOfNumber(s: string)
    requires s != "" && AllDigits(s) && (|s| > 1 ==> s[0] != '0')
    ensures Digits(Number(s)) == s && (s[0] != '0' ==> Number(s) > 0)
  {
    var front, c := s[..|s| - 1], s[|s| - 1];
    DigitOfValue(c);
    assert front + [c] == s;
    NumberNext(front, c);
    if front != "" {
      DigitsOfNumber(front);
      OneMoreDigit(Number(front), DigitValue(c));
    }
  }

  lemma {:induction false} NoLeadingZero(n: nat)
    ensures Digits(n)[0] == '0' <==> n == 0
  {
    if n >= 10 { NoLeadingZero(n / 10); }
  }

  /** The numerals are exactly what `str` writes. */
  lemma WrittenIsDecimal(s: string)
    ensures IsDecimal(s) <==> exists n: int :: Decimal(n) == s
  {
    if IsDecimal(s) {
      var n := DecimalOf(s);
    }
    forall n: int | Decimal(n) == s ensures IsDecimal(s) {
      DecimalIsDecimal(n);
    }
  }

  lemma DecimalOf(s: string) returns (n: int)
    requires IsDecimal(s)
    ensures Decimal(n) == s
  {
    if s[0] == '-' {
      DigitsOfNumber(s[1..]);
      n := 0 - Number(s[1..]);
      assert s == "-" + s[1..];
    } else {
      DigitsOfNumber(s);
      n := Number(s);
    }
  }

  lemma DecimalIsDecimal(n: int)
    ensures IsDecimal(Decimal(n))
  {
    var x := if n < 0 then -n else n;
    DigitsRead(x);
    NoLeadingZero(x);
    assert n < 0 ==> Decimal(n)[1..] == Digits(x);
    assert n == 0 ==> Decimal(n) == "0";
  }
}
