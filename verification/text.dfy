/** Splitting, joining and decimal numerals, with the inverses the codecs rely on. */
module Text {

  /** `parts.join(sep)`. */
  function Join(parts: seq<string>, sep: char): string {
    if |parts| == 0 then ""
    else if |parts| == 1 then parts[0]
    else parts[0] + [sep] + Join(parts[1..], sep)
  }

  /** The index of the first `c`, or the length. */
  function Find(s: string, c: char): (i: nat)
    ensures i <= |s|
    ensures c !in s[..i]
    ensures i < |s| ==> s[i] == c
  {
    if s == [] || s[0] == c then 0 else 1 + Find(s[1..], c)
  }

  /** `s.split(sep)` for a one-character separator. */
  function Split(s: string, sep: char): (parts: seq<string>)
    ensures |parts| > 0
    decreases |s|
  {
    var i := Find(s, sep);
    if i == |s| then [s] else [s[..i]] + Split(s[i + 1..], sep)
  }

  lemma FindAfter(a: string, b: string, c: char)
    requires c !in a
    ensures Find(a + b, c) == |a| + Find(b, c)
  {
    if a == [] {
      assert a + b == b;
    } else {
      assert (a + b)[1..] == a[1..] + b;
      FindAfter(a[1..], b, c);
    }
  }

  lemma SplitWhole(a: string, sep: char)
    requires sep !in a
    ensures Split(a, sep) == [a]
  {
    FindAfter(a, [], sep);
    assert a + [] == a;
  }

  /** The first part is what stands before the first separator. */
  lemma SplitFirst(a: string, rest: string, sep: char)
    requires sep !in a
    ensures Split(a + [sep] + rest, sep) == [a] + Split(rest, sep)
  {
    var s := a + [sep] + rest;
    assert s == a + ([sep] + rest);
    FindAfter(a, [sep] + rest, sep);
    assert s[..|a|] == a && s[|a| + 1..] == rest;
  }

  /** Splitting undoes joining when no part contains the separator; so joining is injective. */
  lemma {:induction false} SplitJoin(parts: seq<string>, sep: char)
    requires |parts| > 0 && forall i :: 0 <= i < |parts| ==> sep !in parts[i]
    ensures Split(Join(parts, sep), sep) == parts
  {
    if |parts| == 1 {
      SplitWhole(parts[0], sep);
    } else {
      SplitJoin(parts[1..], sep);
      SplitFirst(parts[0], Join(parts[1..], sep), sep);
      assert [parts[0]] + parts[1..] == parts;
    }
  }

  /** A text is its first part, or that part, the separator and the rest. */
  lemma AtFirst(s: string, sep: char)
    ensures Find(s, sep) < |s| ==> s == s[..Find(s, sep)] + [sep] + s[Find(s, sep) + 1..]
    ensures Find(s, sep) == |s| ==> s[..Find(s, sep)] == s && sep !in s
  {
    var i := Find(s, sep);
    if i < |s| { assert s == s[..i] + [s[i]] + s[i + 1..]; } else { assert s[..i] == s; }
  }

  /** Joining undoes splitting, and no part of a split contains the separator. */
  lemma {:induction false} JoinSplit(s: string, sep: char)
    ensures Join(Split(s, sep), sep) == s
    ensures forall i :: 0 <= i < |Split(s, sep)| ==> sep !in Split(s, sep)[i]
    decreases |s|
  {
    var i := Find(s, sep);
    AtFirst(s, sep);
    if i < |s| {
      JoinSplit(s[i + 1..], sep);
      JoinFirst(s[..i], Split(s[i + 1..], sep), sep);
    }
  }

  lemma JoinFirst(a: string, parts: seq<string>, sep: char)
    requires parts != []
    ensures Join([a] + parts, sep) == a + [sep] + Join(parts, sep)
  {
    assert ([a] + parts)[1..] == parts;
  }

  lemma Reassociate(x: string, rest: string, b: string, sep: char)
    ensures x + [sep] + rest + [sep] + b == x + [sep] + (rest + [sep] + b)
  {}

  lemma SplitLater(x: string, rest: string, b: string, sep: char, before: seq<string>, after: seq<string>)
    requires sep !in x && Split(rest, sep) == before && Split(rest + [sep] + b, sep) == before + after
    ensures Split(x + [sep] + rest, sep) == [x] + before
    ensures Split(x + [sep] + rest + [sep] + b, sep) == [x] + before + after
  {
    SplitFirst(x, rest, sep);
    SplitFirst(x, rest + [sep] + b, sep);
    Reassociate(x, rest, b, sep);
    assert [x] + (before + after) == [x] + before + after;
  }

  /** Splitting at a separator and splitting both sides is splitting the whole. */
  lemma {:induction false} SplitAppend(a: string, b: string, sep: char)
    ensures Split(a + [sep] + b, sep) == Split(a, sep) + Split(b, sep)
    decreases |a|
  {
    var i := Find(a, sep);
    AtFirst(a, sep);
    if i == |a| {
      SplitWhole(a, sep);
      SplitFirst(a, b, sep);
    } else {
      SplitAppend(a[i + 1..], b, sep);
      SplitLater(a[..i], a[i + 1..], b, sep, Split(a[i + 1..], sep), Split(b, sep));
    }
  }

  lemma {:induction false} JoinAppend(a: seq<string>, b: seq<string>, sep: char)
    requires a != [] && b != []
    ensures Join(a + b, sep) == Join(a, sep) + [sep] + Join(b, sep)
  {
    if |a| == 1 {
      assert (a + b)[1..] == b;
    } else {
      assert (a + b)[1..] == a[1..] + b;
      JoinAppend(a[1..], b, sep);
    }
  }

  /** `s.lastIndexOf(c)`. */
  function LastIndexOf(s: string, c: char): (i: int)
    ensures -1 <= i < |s|
    ensures i >= 0 ==> s[i] == c && c !in s[i + 1..]
    ensures i < 0 ==> c !in s
  {
    if s == [] then -1
    else if s[|s| - 1] == c then |s| - 1
    else LastIndexOf(s[..|s| - 1], c)
  }

  // ----- decimal numerals ---------------------------------------------------

  predicate IsDigit(c: char) { '0' <= c <= '9' }

  predicate AllDigits(s: string) { forall i :: 0 <= i < |s| ==> IsDigit(s[i]) }

  function Digit(n: nat): (c: char)
    requires n < 10
    ensures IsDigit(c)
  {
    '0' + n as char
  }

  /** `String(n)`. */
  function Decimal(n: nat): (s: string)
    ensures |s| > 0 && AllDigits(s)
  {
    if n < 10 then [Digit(n)] else Decimal(n / 10) + [Digit(n % 10)]
  }

  /** `Number(s)` for a string of digits. */
  function ParseDecimal(s: string): nat
    requires AllDigits(s)
  {
    if s == [] then 0 else ParseDecimal(s[..|s| - 1]) * 10 + (s[|s| - 1] as int - '0' as int)
  }

  lemma {:induction false} ParseDecimalOfDecimal(n: nat)
    ensures ParseDecimal(Decimal(n)) == n
  {
    if n < 10 {
      assert Decimal(n)[..0] == [];
    } else {
      ParseDecimalOfDecimal(n / 10);
      assert Decimal(n)[..|Decimal(n)| - 1] == Decimal(n / 10);
    }
  }

  /** A numeral without a leading zero is the one that printing its value gives. */
  lemma {:induction false} DecimalOfParse(s: string)
    requires AllDigits(s) && s != [] && s[0] != '0'
    ensures ParseDecimal(s) > 0 && Decimal(ParseDecimal(s)) == s
  {
    var most, last := s[..|s| - 1], s[|s| - 1] as int - '0' as int;
    if most == [] {
      assert ParseDecimal(most) == 0;
    } else {
      DecimalOfParse(most);
      var n := ParseDecimal(s);
      assert n == 10 * ParseDecimal(most) + last;
      assert n / 10 == ParseDecimal(most) && n % 10 == last;
    }
    assert s == most + [Digit(last)];
  }

  /** A zero in front does not change the number. */
  lemma {:induction false} ZeroInFront(digits: string)
    requires AllDigits(digits)
    ensures AllDigits(['0'] + digits) && ParseDecimal(['0'] + digits) == ParseDecimal(digits)
    decreases |digits|
  {
    var z := ['0'] + digits;
    if digits == "" {
      assert z[..0] == "" && ParseDecimal(z[..0]) == 0;
    } else {
      ZeroInFront(digits[..|digits| - 1]);
      assert z[..|digits|] == ['0'] + digits[..|digits| - 1];
    }
  }

  lemma {:induction false} DecimalStarts(n: nat)
    requires n > 0
    ensures Decimal(n)[0] != '0'
  {
    if n >= 10 { DecimalStarts(n / 10); }
  }

  function Pow10(k: nat): nat { if k == 0 then 1 else 10 * Pow10(k - 1) }

  lemma {:induction false} DecimalLength(n: nat, k: nat)
    requires k > 0 && n < Pow10(k)
    ensures |Decimal(n)| <= k
  {
    if n >= 10 {
      assert k > 1;
      DecimalLength(n / 10, k - 1);
    }
  }
}
