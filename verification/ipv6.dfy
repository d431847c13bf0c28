/** Reading IPv6 text: the parser finds the eight groups that the text spells. */
module Ipv6 {
  import opened Wrappers
  import opened Text
  import opened IpAddress

  // ----- the parser ------------------------------------------------------------------

  predicate HexDigit(c: char) { IsDigit(c) || 'a' <= c <= 'f' || 'A' <= c <= 'F' }

  function HexDigitValue(c: char): (v: nat)
    requires HexDigit(c)
    ensures v < 16
  {
    if IsDigit(c) then c as int - '0' as int
    else if c >= 'a' then c as int - 'a' as int + 10
    else c as int - 'A' as int + 10
  }

  predicate AllHex(s: string) { forall i :: 0 <= i < |s| ==> HexDigit(s[i]) }

  /** `parseInt(s, 16)`. */
  function HexValue(s: string): nat
    requires AllHex(s)
  {
    if s == [] then 0 else HexValue(s[..|s| - 1]) * 16 + HexDigitValue(s[|s| - 1])
  }

  predicate GroupText(t: string) { 1 <= |t| <= 4 && AllHex(t) }

  /** The two groups of a dotted quad. */
  function QuadGroups(part: string): Option<seq<nat>> {
    var texts := OctetTexts(part);
    if texts.None? then None else
    var t := texts.value;
    var a, b, c, d := Octet(t[0]), Octet(t[1]), Octet(t[2]), Octet(t[3]);
    if a > 255 || b > 255 || c > 255 || d > 255 then None else Some([a * 256 + b, c * 256 + d])
  }

  /** The groups of the parts between colons; a dotted quad may only come last. */
  function Groups(parts: seq<string>): Option<seq<nat>> {
    if parts == [] then Some([])
    else if '.' in parts[0] then (if |parts| == 1 then QuadGroups(parts[0]) else None)
    else if !GroupText(parts[0]) then None
    else Prepend([HexValue(parts[0])], Groups(parts[1..]))
  }

  function Prepend(first: seq<nat>, rest: Option<seq<nat>>): Option<seq<nat>> {
    if rest.None? then None else Some(first + rest.value)
  }

  lemma PrependTwice(a: seq<nat>, b: seq<nat>, rest: Option<seq<nat>>)
    ensures Prepend(a, Prepend(b, rest)) == Prepend(a + b, rest) && Prepend([], rest) == rest
  {
    if rest.Some? {
      assert a + (b + rest.value) == a + b + rest.value;
      assert [] + rest.value == rest.value;
    }
  }

  function SegmentGroups(segment: string): Option<seq<nat>> {
    if segment == "" then Some([]) else Groups(Split(segment, ':'))
  }

  method ParseGroups(segment: string) returns (result: Option<seq<nat>>)
    ensures result == SegmentGroups(segment)
  {
    if segment == "" { return Some([]); }
    var parts := Split(segment, ':');
    var groups: seq<nat> := [];
    assert parts[0..] == parts;
    PrependTwice([], [], Groups(parts));
    for i := 0 to |parts|
      invariant Groups(parts) == Prepend(groups, Groups(parts[i..]))
    {
      var part := parts[i];
      assert parts[i..][1..] == parts[i + 1..];
      if '.' in part {
        if i != |parts| - 1 { return None; }
        var quad := QuadGroups(part);
        if quad.None? { return None; }
        assert parts[i + 1..] == [];
        assert Groups(parts[i..]) == Prepend(quad.value, Groups(parts[i + 1..])) by { assert quad.value + [] == quad.value; }
        PrependTwice(groups, quad.value, Groups(parts[i + 1..]));
        groups := groups + quad.value;
        continue;
      }
      if !GroupText(part) { return None; }
      PrependTwice(groups, [HexValue(part)], Groups(parts[i + 1..]));
      groups := groups + [HexValue(part)];
    }
    assert parts[|parts|..] == [];
    assert groups + [] == groups;
    return Some(groups);
  }

  predicate RunAt(s: string, i: nat) { i + 1 < |s| && s[i] == ':' && s[i + 1] == ':' }

  /** The index of the first `::`, or the length. */
  function FindRun(s: string): (i: nat)
    ensures i <= |s|
    ensures forall k :: 0 <= k < i ==> !RunAt(s, k)
    ensures i < |s| ==> RunAt(s, i)
  {
    if |s| < 2 then |s|
    else if RunAt(s, 0) then 0
    else
      var i := FindRun(s[1..]);
      assert forall k :: 1 <= k < 1 + i ==> RunAt(s, k) == RunAt(s[1..], k - 1);
      1 + i
  }

  function Zeros(n: nat): seq<nat> { seq(n, i => 0) }

  function BeforeZone(host: string): string { host[..Find(host, '%')] }

  datatype Halves = Whole | Two(head: string, tail: string) | TooMany

  /** `text.split("::")` up to the third part. */
  function SplitRun(text: string): Halves {
    var i := FindRun(text);
    if i == |text| then Whole
    else if FindRun(text[i + 2..]) < |text[i + 2..]| then TooMany
    else Two(text[..i], text[i + 2..])
  }

  /** The groups of both halves with zeros between them. */
  function Fill(head: Option<seq<nat>>, tail: Option<seq<nat>>): Option<seq<nat>> {
    if head.None? || tail.None? || |head.value| + |tail.value| > 8 then None
    else Some(Padded(head.value, tail.value))
  }

  function Padded(head: seq<nat>, tail: seq<nat>): seq<nat>
    requires |head| + |tail| <= 8
  {
    head + Zeros(8 - |head| - |tail|) + tail
  }

  /** The eight groups of an IPv6 literal; None when it is not one. */
  function Expand(text: string): (groups: Option<seq<nat>>)
    ensures groups.Some? ==> |groups.value| == 8
  {
    match SplitRun(text)
    case TooMany => None
    case Two(head, tail) => Fill(SegmentGroups(head), SegmentGroups(tail))
    case Whole =>
      var groups := SegmentGroups(text);
      if groups.Some? && |groups.value| == 8 then groups else None
  }

  method ExpandIpv6(host: string) returns (groups: Option<seq<nat>>)
    ensures groups == Expand(BeforeZone(host))
  {
    var withoutZone := BeforeZone(host);
    var halves := SplitRun(withoutZone);
    if halves.TooMany? { return None; }
    var head := ParseGroups(if halves.Two? then halves.head else withoutZone);
    if head.None? { return None; }
    if halves.Whole? {
      return if |head.value| == 8 then head else None;
    }
    var tail := ParseGroups(halves.tail);
    if tail.None? { return None; }
    var zeros := 8 - |head.value| - |tail.value|;
    if zeros < 0 { return None; }
    return Some(head.value + Zeros(zeros) + tail.value);
  }

  // ----- the grammar --------------------------------------------------------------------

  /** One to four hexadecimal digits, leading zeros and either case allowed. */
  predicate IsGroup(t: string, g: nat) { GroupText(t) && HexValue(t) == g }

  /** Each part spells one group, except that the last may be a dotted quad for two. */
  predicate SpellsGroups(parts: seq<string>, groups: seq<nat>) {
    var n := |parts| - 1;
    if parts == [] then groups == [] else
    && |groups| > n
    && (forall i :: 0 <= i < n ==> IsGroup(parts[i], groups[i]))
    && ((|groups| == n + 1 && IsGroup(parts[n], groups[n])) || QuadGroups(parts[n]) == Some(groups[n..]))
  }

  /** A text with all groups, or with one run of zeros left out between `head` and `tail`. */
  datatype Spelling = Full(parts: seq<string>) | Compressed(head: seq<string>, from: nat, tail: seq<string>, upTo: nat)

  predicate SpelledBy(text: string, groups: seq<nat>, spelling: Spelling) {
    match spelling
    case Full(parts) => text == Join(parts, ':') && SpellsGroups(parts, groups)
    case Compressed(head, from, tail, upTo) =>
      && text == Join(head, ':') + "::" + Join(tail, ':')
      && from <= upTo <= |groups|
      && SpellsGroups(head, groups[..from])
      && groups[from..upTo] == Zeros(upTo - from)
      && SpellsGroups(tail, groups[upTo..])
  }

  ghost predicate Spells(text: string, groups: seq<nat>) {
    |groups| == 8 && exists spelling :: SpelledBy(text, groups, spelling)
  }

  // ----- the parser meets the grammar ------------------------------------------------------

  lemma {:induction false} JoinChars(parts: seq<string>, sep: char, c: char)
    requires c != sep && forall i :: 0 <= i < |parts| ==> c !in parts[i]
    ensures c !in Join(parts, sep)
  {
    if |parts| > 1 { JoinChars(parts[1..], sep, c); }
  }

  /** A quad is told apart from a group by its dots, and holds no colon. */
  lemma QuadPart(part: string)
    requires OctetTexts(part).Some?
    ensures '.' in part && ':' !in part && part != ""
  {
    var parts := Split(part, '.');
    JoinSplit(part, '.');
    JoinChars(parts, '.', ':');
    assert part == parts[0] + ['.'] + Join(parts[1..], '.');
    assert part[|parts[0]|] == '.';
  }

  lemma {:induction false} GroupsExactly(parts: seq<string>, groups: seq<nat>)
    ensures Groups(parts) == Some(groups) <==> SpellsGroups(parts, groups)
  {
    if |parts| == 1 {
      var part := parts[0];
      assert parts[1..] == [] && groups[0..] == groups;
      if OctetTexts(part).Some? { QuadPart(part); }
      if GroupText(part) {
        assert '.' !in part;
        assert parts == [part];
        OneGroup(part, groups);
      }
    } else if |parts| > 1 {
      if IsGroup(parts[0], HexValueOf(parts[0])) { assert '.' !in parts[0]; }
      if groups != [] {
        GroupsExactly(parts[1..], groups[1..]);
        SpellsTail(parts, groups);
        assert groups == [groups[0]] + groups[1..];
      }
      if Groups(parts) == Some(groups) {
        var rest := Groups(parts[1..]).value;
        assert groups[1..] == rest;
      }
    }
  }

  lemma OneGroup(part: string, groups: seq<nat>)
    requires GroupText(part) && '.' !in part
    ensures Groups([part]) == Some(groups) <==> |groups| == 1 && IsGroup(part, groups[0])
  {
    assert [part][1..] == [];
    assert Groups([part]) == Some([HexValue(part)] + []);
    assert [HexValue(part)] + [] == [HexValue(part)];
    if |groups| == 1 && IsGroup(part, groups[0]) { assert groups == [HexValue(part)]; }
  }

  function HexValueOf(t: string): nat { if AllHex(t) then HexValue(t) else 0 }

  lemma SpellsTail(parts: seq<string>, groups: seq<nat>)
    requires |parts| > 1 && groups != []
    ensures SpellsGroups(parts, groups) <==> IsGroup(parts[0], groups[0]) && SpellsGroups(parts[1..], groups[1..])
  {
    var n := |parts| - 1;
    if |groups| > n { assert groups[1..][n - 1..] == groups[n..]; }
    if SpellsGroups(parts[1..], groups[1..]) && IsGroup(parts[0], groups[0]) {
      forall i | 0 <= i < n ensures IsGroup(parts[i], groups[i]) {
        if i > 0 { assert IsGroup(parts[1..][i - 1], groups[1..][i - 1]); }
      }
    }
  }

  /** Parts that spell groups are not empty and hold no colon. */
  predicate PlainParts(parts: seq<string>) {
    forall i :: 0 <= i < |parts| ==> parts[i] != "" && ':' !in parts[i]
  }

  lemma SpellingPartsArePlain(parts: seq<string>, groups: seq<nat>)
    requires SpellsGroups(parts, groups)
    ensures PlainParts(parts)
  {
    forall i | 0 <= i < |parts| ensures parts[i] != "" && ':' !in parts[i] {
      if OctetTexts(parts[i]).Some? { QuadPart(parts[i]); }
    }
  }

  lemma {:induction false} PlainJoin(parts: seq<string>)
    requires PlainParts(parts)
    ensures var text := Join(parts, ':');
      && (forall i :: 0 <= i ==> !RunAt(text, i))
      && (parts != [] ==> text != "" && text[0] != ':' && text[|text| - 1] != ':')
  {
    var text := Join(parts, ':');
    if |parts| == 1 {
      assert text == parts[0];
    } else if |parts| > 1 {
      var rest := Join(parts[1..], ':');
      PlainJoin(parts[1..]);
      var n := |parts[0]|;
      assert text == parts[0] + [':'] + rest;
      assert text[|text| - 1] == rest[|rest| - 1];
      forall i | 0 <= i ensures !RunAt(text, i) {
        if i < n { assert text[i] == parts[0][i]; }
        else if i == n && i + 1 < |text| { assert text[i + 1] == rest[0]; }
        else if i + 1 < |text| { assert text[i] == rest[i - n - 1] && text[i + 1] == rest[i - n]; assert !RunAt(rest, i - n - 1); }
      }
    }
  }

  lemma SegmentExactly(parts: seq<string>, groups: seq<nat>)
    requires SpellsGroups(parts, groups)
    ensures SegmentGroups(Join(parts, ':')) == Some(groups)
  {
    SpellingPartsArePlain(parts, groups);
    PlainJoin(parts);
    if parts != [] {
      SplitJoin(parts, ':');
      GroupsExactly(parts, groups);
    }
  }

  lemma SegmentSpells(segment: string) returns (parts: seq<string>)
    requires SegmentGroups(segment).Some?
    ensures Join(parts, ':') == segment && SpellsGroups(parts, SegmentGroups(segment).value)
  {
    if segment == "" {
      parts := [];
    } else {
      parts := Split(segment, ':');
      JoinSplit(segment, ':');
      GroupsExactly(parts, SegmentGroups(segment).value);
    }
  }

  lemma RunBetween(a: string, b: string)
    requires forall i :: 0 <= i ==> !RunAt(a, i) && !RunAt(b, i)
    requires a != "" ==> a[|a| - 1] != ':'
    ensures SplitRun(a + "::" + b) == Two(a, b)
  {
    var text := a + "::" + b;
    assert RunAt(text, |a|);
    forall i | 0 <= i < |a| ensures !RunAt(text, i) {
      assert text[i] == a[i];
      if i + 1 < |a| { assert text[i + 1] == a[i + 1]; assert !RunAt(a, i); }
    }
    assert FindRun(text) == |a|;
    assert text[..|a|] == a && text[|a| + 2..] == b;
    assert !RunAt(b, FindRun(b));
  }

  lemma ExpandTwo(text: string, a: string, b: string, h: seq<nat>, t: seq<nat>)
    requires SplitRun(text) == Two(a, b) && SegmentGroups(a) == Some(h) && SegmentGroups(b) == Some(t)
    requires |h| + |t| <= 8
    ensures Expand(text) == Some(Padded(h, t))
  {
  }

  lemma HalvesAreSplit(head: seq<string>, h: seq<nat>, tail: seq<string>, t: seq<nat>)
    requires SpellsGroups(head, h) && SpellsGroups(tail, t)
    ensures SplitRun(Join(head, ':') + "::" + Join(tail, ':')) == Two(Join(head, ':'), Join(tail, ':'))
  {
    SpellingPartsArePlain(head, h);
    SpellingPartsArePlain(tail, t);
    PlainJoin(head);
    PlainJoin(tail);
    RunBetween(Join(head, ':'), Join(tail, ':'));
  }

  lemma CompressedExpands(head: seq<string>, h: seq<nat>, tail: seq<string>, t: seq<nat>)
    requires SpellsGroups(head, h) && SpellsGroups(tail, t) && |h| + |t| <= 8
    ensures Expand(Join(head, ':') + "::" + Join(tail, ':')) == Some(Padded(h, t))
  {
    SegmentExactly(head, h);
    SegmentExactly(tail, t);
    HalvesAreSplit(head, h, tail, t);
    ExpandTwo(Join(head, ':') + "::" + Join(tail, ':'), Join(head, ':'), Join(tail, ':'), h, t);
  }

  lemma FullExpands(parts: seq<string>, groups: seq<nat>)
    requires SpellsGroups(parts, groups) && |groups| == 8
    ensures Expand(Join(parts, ':')) == Some(groups)
  {
    SpellingPartsArePlain(parts, groups);
    PlainJoin(parts);
    SegmentExactly(parts, groups);
    assert !RunAt(Join(parts, ':'), FindRun(Join(parts, ':')));
    assert SplitRun(Join(parts, ':')) == Whole;
  }

  lemma PaddedWhole(groups: seq<nat>, from: nat, upTo: nat)
    requires |groups| == 8 && from <= upTo <= 8 && groups[from..upTo] == Zeros(upTo - from)
    ensures Padded(groups[..from], groups[upTo..]) == groups
  {
    assert groups == groups[..from] + groups[from..upTo] + groups[upTo..];
  }

  lemma SpellingExpands(text: string, groups: seq<nat>, spelling: Spelling)
    requires |groups| == 8 && SpelledBy(text, groups, spelling)
    ensures Expand(text) == Some(groups)
  {
    match spelling
    case Full(parts) => FullExpands(parts, groups);
    case Compressed(head, from, tail, upTo) =>
      CompressedExpands(head, groups[..from], tail, groups[upTo..]);
      PaddedWhole(groups, from, upTo);
  }

  lemma ZerosBetween(h: seq<nat>, t: seq<nat>)
    requires |h| + |t| <= 8
    ensures
      var groups := h + Zeros(8 - |h| - |t|) + t;
      && |groups| == 8 && groups[..|h|] == h && groups[8 - |t|..] == t
      && groups[|h|..8 - |t|] == Zeros(8 - |h| - |t|)
  {
  }

  lemma TwoHalves(text: string)
    requires SplitRun(text).Two?
    ensures text == SplitRun(text).head + "::" + SplitRun(text).tail
  {
    var i := FindRun(text);
    assert text == text[..i] + [text[i], text[i + 1]] + text[i + 2..];
  }

  lemma HalvesSpell(text: string) returns (spelling: Spelling)
    requires SplitRun(text).Two? && Expand(text).Some?
    ensures |Expand(text).value| == 8 && SpelledBy(text, Expand(text).value, spelling)
  {
    TwoHalves(text);
    var a, b := SplitRun(text).head, SplitRun(text).tail;
    var head := SegmentSpells(a);
    var tail := SegmentSpells(b);
    var h, t := SegmentGroups(a).value, SegmentGroups(b).value;
    ZerosBetween(h, t);
    spelling := Compressed(head, |h|, tail, 8 - |t|);
  }

  lemma ExpandedSpells(text: string) returns (spelling: Spelling)
    requires Expand(text).Some?
    ensures |Expand(text).value| == 8 && SpelledBy(text, Expand(text).value, spelling)
  {
    if SplitRun(text).Whole? {
      var parts := SegmentSpells(text);
      spelling := Full(parts);
    } else {
      spelling := HalvesSpell(text);
    }
  }

  /** The parser returns exactly the groups that the text spells; so a text spells at most one address. */
  lemma ExpandExactly(text: string, groups: seq<nat>)
    ensures Expand(text) == Some(groups) <==> Spells(text, groups)
  {
    if Expand(text) == Some(groups) { var spelling := ExpandedSpells(text); }
    if Spells(text, groups) {
      var spelling :| SpelledBy(text, groups, spelling);
      SpellingExpands(text, groups, spelling);
    }
  }

  // ----- printing an address, and reading it in any case and width ----------------------

  function HexChar(v: nat): (c: char)
    requires v < 16
    ensures HexDigit(c) && HexDigitValue(c) == v
  {
    if v < 10 then '0' + v as char else 'a' + (v - 10) as char
  }

  function HexText(n: nat): (t: string)
    ensures t != "" && AllHex(t)
  {
    if n < 16 then [HexChar(n)] else HexText(n / 16) + [HexChar(n % 16)]
  }

  function Pow16(k: nat): nat { if k == 0 then 1 else 16 * Pow16(k - 1) }

  lemma {:induction false} HexTextReads(n: nat, k: nat)
    requires k > 0 && n < Pow16(k)
    ensures |HexText(n)| <= k && HexValue(HexText(n)) == n
  {
    var t := HexText(n);
    if n < 16 {
      assert t[..0] == "" && HexValue(t[..0]) == 0;
    } else {
      assert k > 1;
      HexTextReads(n / 16, k - 1);
      assert t[..|t| - 1] == HexText(n / 16);
    }
  }

  function HexTexts(groups: seq<nat>): seq<string> {
    seq(|groups|, i requires 0 <= i < |groups| => HexText(groups[i]))
  }

  /** Writing eight groups and reading them back gives the groups. */
  lemma ExpandUndoesPrint(groups: seq<nat>)
    requires |groups| == 8 && forall i :: 0 <= i < 8 ==> groups[i] < 0x1_0000
    ensures Expand(Join(HexTexts(groups), ':')) == Some(groups)
  {
    var parts := HexTexts(groups);
    forall i | 0 <= i < 8 ensures IsGroup(parts[i], groups[i]) {
      assert Pow16(4) == 0x1_0000;
      HexTextReads(groups[i], 4);
    }
    assert SpelledBy(Join(parts, ':'), groups, Full(parts));
    ExpandExactly(Join(parts, ':'), groups);
  }

  /** A digit's case and a leading zero do not change the group that is read. */
  lemma {:induction false} CaseAndZerosDoNotCount(t: string, u: string)
    requires AllHex(t) && AllHex(u) && |t| == |u|
    requires forall i :: 0 <= i < |t| ==> HexDigitValue(t[i]) == HexDigitValue(u[i])
    ensures HexValue(t) == HexValue(u)
    ensures AllHex(['0'] + t) && HexValue(['0'] + t) == HexValue(t)
  {
    var z := ['0'] + t;
    if t == [] {
      assert u == [] && z[..0] == [] && HexValue(z[..0]) == 0;
    } else {
      var n := |t| - 1;
      CaseAndZerosDoNotCount(t[..n], u[..n]);
      assert z[..n + 1] == ['0'] + t[..n];
    }
  }

  lemma {:induction false} HexValueBound(t: string)
    requires AllHex(t)
    ensures HexValue(t) < Pow16(|t|)
  {
    if t != [] { HexValueBound(t[..|t| - 1]); }
  }

  lemma GroupBound(t: string, g: nat)
    requires IsGroup(t, g)
    ensures g < 0x1_0000
  {
    HexValueBound(t);
    assert Pow16(1) == 16 && Pow16(2) == 256 && Pow16(3) == 4096 && Pow16(4) == 0x1_0000;
  }

  predicate Groups16(groups: seq<nat>) { forall i :: 0 <= i < |groups| ==> groups[i] < 0x1_0000 }

  lemma SpelledGroupsFit(parts: seq<string>, groups: seq<nat>)
    requires SpellsGroups(parts, groups)
    ensures Groups16(groups)
  {
    var n := |parts| - 1;
    forall i | 0 <= i < |groups| ensures groups[i] < 0x1_0000 {
      if i < n || IsGroup(parts[n], groups[i]) { GroupBound(parts[i], groups[i]); }
      else { assert groups[i] == groups[n..][i - n]; }
    }
  }

  lemma PiecesFit(groups: seq<nat>, from: nat, upTo: nat)
    requires from <= upTo <= |groups| && groups[from..upTo] == Zeros(upTo - from)
    requires Groups16(groups[..from]) && Groups16(groups[upTo..])
    ensures Groups16(groups)
  {
    forall i | 0 <= i < |groups| ensures groups[i] < 0x1_0000 {
      if i < from { assert groups[i] == groups[..from][i]; }
      else if i < upTo { assert groups[i] == groups[from..upTo][i - from]; }
      else { assert groups[i] == groups[upTo..][i - upTo]; }
    }
  }

  /** Every group that a text spells fits 16 bits. */
  lemma SpelledFits(text: string, groups: seq<nat>)
    requires Spells(text, groups)
    ensures Groups16(groups)
  {
    var spelling :| SpelledBy(text, groups, spelling);
    match spelling
    case Full(parts) => SpelledGroupsFit(parts, groups);
    case Compressed(head, from, tail, upTo) =>
      SpelledGroupsFit(head, groups[..from]);
      SpelledGroupsFit(tail, groups[upTo..]);
      PiecesFit(groups, from, upTo);
  }

  lemma QuadOfTexts(part: string, t: seq<string>, a: nat, b: nat, c: nat, d: nat)
    requires OctetTexts(part) == Some(t) && a <= 255 && b <= 255 && c <= 255 && d <= 255
    requires Octet(t[0]) == a && Octet(t[1]) == b && Octet(t[2]) == c && Octet(t[3]) == d
    ensures QuadGroups(part) == Some([a * 256 + b, c * 256 + d])
  {}

  lemma DottedIsQuad(a: nat, b: nat, c: nat, d: nat)
    requires a <= 255 && b <= 255 && c <= 255 && d <= 255
    ensures QuadGroups(Dotted(a, b, c, d)) == Some([a * 256 + b, c * 256 + d])
  {
    OctetTextExactly(Decimal(a), a);
    OctetTextExactly(Decimal(b), b);
    OctetTextExactly(Decimal(c), c);
    OctetTextExactly(Decimal(d), d);
    assert OctetTexts(Dotted(a, b, c, d)) == Some([Decimal(a), Decimal(b), Decimal(c), Decimal(d)]) by { DottedParts(a, b, c, d); }
    QuadOfTexts(Dotted(a, b, c, d), [Decimal(a), Decimal(b), Decimal(c), Decimal(d)], a, b, c, d);
  }
}
