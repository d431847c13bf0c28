/**
 The parser against the grammar of section 2.2 of RFC 4291, which is narrower:
 a zero run stands for one group or more, and a dotted quad is canonical and last.
 */
module Ipv6Grammar {
  import opened Wrappers
  import opened Text
  import opened IpAddress
  import opened Ipv6

  // ----- the grammar of the standard ------------------------------------------------

  /** One hexadecimal group for each part. */
  predicate HexParts(parts: seq<string>, groups: seq<nat>) {
    |parts| == |groups| && forall i :: 0 <= i < |parts| ==> IsGroup(parts[i], groups[i])
  }

  /** The standard IPv4 text of the address in two groups. */
  ghost predicate Ipv4Text(t: string, high: nat, low: nat) {
    exists a: nat, b: nat, c: nat, d: nat :: WritesQuad(t, high, low, a, b, c, d)
  }

  predicate WritesQuad(t: string, high: nat, low: nat, a: nat, b: nat, c: nat, d: nat) {
    && a <= 255 && b <= 255 && c <= 255 && d <= 255
    && t == Dotted(a, b, c, d) && high == a * 256 + b && low == c * 256 + d
  }

  /** Groups, with the last two perhaps as an IPv4 text. */
  ghost predicate EndParts(parts: seq<string>, groups: seq<nat>) {
    || HexParts(parts, groups)
    || (&& parts != [] && |groups| == |parts| + 1
        && var n := |parts| - 1; HexParts(parts[..n], groups[..n]) && Ipv4Text(parts[n], groups[n], groups[n + 1]))
  }

  ghost predicate RfcSpelledBy(text: string, groups: seq<nat>, spelling: Spelling) {
    match spelling
    case Full(parts) => text == Join(parts, ':') && EndParts(parts, groups)
    case Compressed(head, from, tail, upTo) =>
      && text == Join(head, ':') + "::" + Join(tail, ':')
      && from < upTo <= |groups|
      && HexParts(head, groups[..from])
      && groups[from..upTo] == Zeros(upTo - from)
      && EndParts(tail, groups[upTo..])
  }

  ghost predicate RfcSpells(text: string, groups: seq<nat>) {
    |groups| == 8 && exists spelling :: RfcSpelledBy(text, groups, spelling)
  }

  // ----- where the parser takes more ----------------------------------------------------

  /** The groups that the parts of a segment stand for. */
  function GroupCount(segment: string): nat {
    if segment == "" then 0 else |Split(segment, ':')| + if '.' in segment then 1 else 0
  }

  /** All eight groups are written, and `::` besides. */
  predicate EmptyRun(text: string) {
    match SplitRun(text)
    case Two(head, tail) => GroupCount(head) + GroupCount(tail) == 8
    case _ => false
  }

  predicate QuadBeforeRun(text: string) {
    match SplitRun(text)
    case Two(head, _) => '.' in head
    case _ => false
  }

  /** A dotted part with an octet such as 01. */
  predicate PaddedPart(part: string) {
    '.' in part && exists j :: 0 <= j < |Split(part, '.')| && LeadingZero(Split(part, '.')[j])
  }

  predicate PaddedEnd(segment: string) {
    segment != "" && var parts := Split(segment, ':'); PaddedPart(parts[|parts| - 1])
  }

  predicate PaddedQuad(text: string) {
    match SplitRun(text)
    case Whole => PaddedEnd(text)
    case Two(_, tail) => PaddedEnd(tail)
    case TooMany => false
  }

  // ----- parts -----------------------------------------------------------------------------

  lemma DottedIsNotPadded(a: nat, b: nat, c: nat, d: nat)
    requires a <= 255 && b <= 255 && c <= 255 && d <= 255
    ensures !PaddedPart(Dotted(a, b, c, d))
  {
    DottedParts(a, b, c, d);
    var t := [Decimal(a), Decimal(b), Decimal(c), Decimal(d)];
    var octets := [a, b, c, d];
    assert Split(Dotted(a, b, c, d), '.') == t;
    forall j | 0 <= j < 4 ensures !LeadingZero(t[j]) {
      assert t[j] == Decimal(octets[j]);
      OctetTextExactly(t[j], octets[j]);
    }
  }

  /** Four octet texts without padding are the decimal numerals of their values. */
  lemma CanonicalQuad(part: string, t: seq<string>)
    requires OctetTexts(part) == Some(t) && forall j :: 0 <= j < 4 ==> !LeadingZero(t[j]) && Octet(t[j]) <= 255
    ensures part == Dotted(Octet(t[0]), Octet(t[1]), Octet(t[2]), Octet(t[3]))
  {
    OctetTextExactly(t[0], Octet(t[0]));
    OctetTextExactly(t[1], Octet(t[1]));
    OctetTextExactly(t[2], Octet(t[2]));
    OctetTextExactly(t[3], Octet(t[3]));
    JoinSplit(part, '.');
    assert t == [t[0], t[1], t[2], t[3]];
  }

  lemma QuadValues(part: string, t: seq<string>, high: nat, low: nat)
    requires OctetTexts(part) == Some(t) && QuadGroups(part) == Some([high, low])
    ensures Octet(t[0]) <= 255 && Octet(t[1]) <= 255 && Octet(t[2]) <= 255 && Octet(t[3]) <= 255
    ensures high == Octet(t[0]) * 256 + Octet(t[1]) && low == Octet(t[2]) * 256 + Octet(t[3])
  {
    var g := QuadGroups(part).value;
    assert g[0] == high && g[1] == low;
  }

  lemma UnpaddedIsIpv4Text(part: string, high: nat, low: nat)
    requires QuadGroups(part) == Some([high, low]) && !PaddedPart(part)
    ensures Ipv4Text(part, high, low)
  {
    QuadPart(part);
    var t := Split(part, '.');
    QuadValues(part, t, high, low);
    forall j | 0 <= j < 4 ensures !LeadingZero(t[j]) {}
    CanonicalQuad(part, t);
    QuadWritten(part, high, low, Octet(t[0]), Octet(t[1]), Octet(t[2]), Octet(t[3]));
  }

  lemma QuadWritten(part: string, high: nat, low: nat, a: nat, b: nat, c: nat, d: nat)
    requires WritesQuad(part, high, low, a, b, c, d)
    ensures Ipv4Text(part, high, low)
  {}

  lemma Ipv4TextIsQuad(part: string, high: nat, low: nat)
    requires Ipv4Text(part, high, low)
    ensures QuadGroups(part) == Some([high, low]) && !PaddedPart(part)
  {
    var a: nat, b: nat, c: nat, d: nat :| WritesQuad(part, high, low, a, b, c, d);
    assert QuadGroups(part) == Some([high, low]) by { DottedIsQuad(a, b, c, d); }
    DottedIsNotPadded(a, b, c, d);
  }

  /** A quad without padded octets is the standard text of its four octets. */
  lemma QuadIsIpv4Text(part: string, high: nat, low: nat)
    ensures Ipv4Text(part, high, low) <==> QuadGroups(part) == Some([high, low]) && !PaddedPart(part)
  {
    if Ipv4Text(part, high, low) { Ipv4TextIsQuad(part, high, low); }
    if QuadGroups(part) == Some([high, low]) && !PaddedPart(part) { UnpaddedIsIpv4Text(part, high, low); }
  }

  lemma HexHasNoDot(part: string, g: nat)
    requires IsGroup(part, g)
    ensures '.' !in part && OctetTexts(part).None? && QuadGroups(part).None?
  {
    if OctetTexts(part).Some? { QuadPart(part); }
  }

  /** The end of a text is as the standard has it exactly when its last part is not padded. */
  lemma EndExactly(parts: seq<string>, groups: seq<nat>)
    ensures EndParts(parts, groups) <==>
      SpellsGroups(parts, groups) && (parts != [] ==> !PaddedPart(parts[|parts| - 1]))
  {
    if parts != [] {
      var n := |parts| - 1;
      if |groups| == n + 1 && IsGroup(parts[n], groups[n]) { HexHasNoDot(parts[n], groups[n]); }
      if |groups| == n + 2 {
        QuadIsIpv4Text(parts[n], groups[n], groups[n + 1]);
        assert groups[n..] == [groups[n], groups[n + 1]];
      }
    }
  }

  /** Parts are hexadecimal groups only exactly when the last one has no dot. */
  lemma HexExactly(parts: seq<string>, groups: seq<nat>)
    ensures HexParts(parts, groups) <==> SpellsGroups(parts, groups) && (parts != [] ==> '.' !in parts[|parts| - 1])
  {
    if parts != [] {
      var n := |parts| - 1;
      if |groups| == n + 1 && IsGroup(parts[n], groups[n]) { HexHasNoDot(parts[n], groups[n]); }
      if OctetTexts(parts[n]).Some? { QuadPart(parts[n]); }
    }
  }

  // ----- segments ------------------------------------------------------------------------------

  lemma {:induction false} JoinHas(parts: seq<string>, sep: char, c: char, i: nat)
    requires i < |parts| && c in parts[i]
    ensures c in Join(parts, sep)
  {
    if |parts| > 1 && i > 0 { JoinHas(parts[1..], sep, c, i - 1); }
  }

  /** A segment has a dot exactly when its last part does. */
  lemma DotIsLast(parts: seq<string>, groups: seq<nat>)
    requires SpellsGroups(parts, groups) && parts != []
    ensures '.' in Join(parts, ':') <==> '.' in parts[|parts| - 1]
  {
    var n := |parts| - 1;
    forall i | 0 <= i < n ensures '.' !in parts[i] { HexHasNoDot(parts[i], groups[i]); }
    if '.' in parts[n] { JoinHas(parts, ':', '.', n); } else { JoinChars(parts, ':', '.'); }
  }

  lemma SegmentSplits(parts: seq<string>, groups: seq<nat>)
    requires SpellsGroups(parts, groups) && parts != []
    ensures Join(parts, ':') != "" && Split(Join(parts, ':'), ':') == parts
  {
    SpellingPartsArePlain(parts, groups);
    PlainJoin(parts);
    SplitJoin(parts, ':');
  }

  lemma LastCounts(parts: seq<string>, groups: seq<nat>)
    requires SpellsGroups(parts, groups) && parts != []
    ensures |groups| == |parts| + if '.' in parts[|parts| - 1] then 1 else 0
  {
    var n := |parts| - 1;
    if |groups| == n + 1 && IsGroup(parts[n], groups[n]) {
      HexHasNoDot(parts[n], groups[n]);
    } else {
      QuadPart(parts[n]);
      assert |groups[n..]| == 2;
    }
  }

  lemma CountIs(parts: seq<string>, groups: seq<nat>)
    requires SpellsGroups(parts, groups)
    ensures GroupCount(Join(parts, ':')) == |groups|
  {
    if parts != [] {
      SegmentSplits(parts, groups);
      DotIsLast(parts, groups);
      LastCounts(parts, groups);
    }
  }

  /** What the deviations say of a segment whose parts are known. */
  lemma SegmentEnd(parts: seq<string>, groups: seq<nat>)
    requires SpellsGroups(parts, groups)
    ensures PaddedEnd(Join(parts, ':')) <==> parts != [] && PaddedPart(parts[|parts| - 1])
    ensures '.' in Join(parts, ':') <==> parts != [] && '.' in parts[|parts| - 1]
  {
    if parts != [] {
      SegmentSplits(parts, groups);
      DotIsLast(parts, groups);
    }
  }

  // ----- texts -----------------------------------------------------------------------------------

  lemma FullExactly(parts: seq<string>, groups: seq<nat>)
    requires SpellsGroups(parts, groups)
    ensures var text := Join(parts, ':');
      EndParts(parts, groups) <==> !EmptyRun(text) && !QuadBeforeRun(text) && !PaddedQuad(text)
  {
    SpellingPartsArePlain(parts, groups);
    PlainJoin(parts);
    var text := Join(parts, ':');
    assert !RunAt(text, FindRun(text));
    assert SplitRun(text) == Whole;
    SegmentEnd(parts, groups);
    EndExactly(parts, groups);
  }

  lemma CompressedExactly(head: seq<string>, h: seq<nat>, tail: seq<string>, t: seq<nat>)
    requires SpellsGroups(head, h) && SpellsGroups(tail, t)
    ensures var text := Join(head, ':') + "::" + Join(tail, ':');
      && (EmptyRun(text) <==> |h| + |t| == 8)
      && (HexParts(head, h) <==> !QuadBeforeRun(text))
      && (EndParts(tail, t) <==> !PaddedQuad(text))
  {
    HalvesAreSplit(head, h, tail, t);
    CountIs(head, h);
    CountIs(tail, t);
    SegmentEnd(head, h);
    SegmentEnd(tail, t);
    HexExactly(head, h);
    EndExactly(tail, t);
  }

  lemma RfcIsLenient(text: string, groups: seq<nat>, spelling: Spelling)
    requires |groups| == 8 && RfcSpelledBy(text, groups, spelling)
    ensures SpelledBy(text, groups, spelling)
  {
    match spelling
    case Full(parts) => EndExactly(parts, groups);
    case Compressed(head, from, tail, upTo) =>
      HexExactly(head, groups[..from]);
      EndExactly(tail, groups[upTo..]);
  }

  /** A spelling that the parser reads is one of the standard exactly when its text has none of the three deviations. */
  lemma SpellingExactly(text: string, groups: seq<nat>, spelling: Spelling)
    requires |groups| == 8 && SpelledBy(text, groups, spelling)
    ensures RfcSpelledBy(text, groups, spelling) <==> !EmptyRun(text) && !QuadBeforeRun(text) && !PaddedQuad(text)
  {
    match spelling
    case Full(parts) => FullExactly(parts, groups);
    case Compressed(head, from, tail, upTo) => CompressedExactly(head, groups[..from], tail, groups[upTo..]);
  }

  /**
   The parser meets the standard exactly: it returns the groups of every text that
   the grammar of RFC 4291 spells, and any other text it reads has an empty zero
   run, a dotted quad before the run, or an octet with a leading zero.
   */
  lemma ExpandMeetsRfc(text: string, groups: seq<nat>)
    ensures RfcSpells(text, groups) <==>
      Expand(text) == Some(groups) && !EmptyRun(text) && !QuadBeforeRun(text) && !PaddedQuad(text)
  {
    if RfcSpells(text, groups) {
      var spelling :| RfcSpelledBy(text, groups, spelling);
      RfcIsLenient(text, groups, spelling);
      SpellingExpands(text, groups, spelling);
      SpellingExactly(text, groups, spelling);
    }
    if Expand(text) == Some(groups) {
      var spelling := ExpandedSpells(text);
      SpellingExactly(text, groups, spelling);
    }
  }

  // ----- the parser does take more -----------------------------------------------------------------

  lemma NoZeros(h: seq<nat>, t: seq<nat>)
    requires |h| + |t| == 8
    ensures Padded(h, t) == h + t
  {}

  /** A text with all eight groups and `::` at any place is read, although the standard has no such text. */
  lemma EmptyRunIsRead(head: seq<string>, h: seq<nat>, tail: seq<string>, t: seq<nat>)
    requires HexParts(head, h) && HexParts(tail, t) && |h| + |t| == 8
    ensures var text := Join(head, ':') + "::" + Join(tail, ':');
      Expand(text) == Some(h + t) && EmptyRun(text) && !RfcSpells(text, h + t)
  {
    HexExactly(head, h);
    HexExactly(tail, t);
    CompressedExpands(head, h, tail, t);
    NoZeros(h, t);
    CompressedExactly(head, h, tail, t);
    ExpandMeetsRfc(Join(head, ':') + "::" + Join(tail, ':'), h + t);
  }

  /** A dotted quad before the zero run is read as the high 32 bits. */
  lemma QuadBeforeRunIsRead(quad: string, h: seq<nat>)
    requires QuadGroups(quad) == Some(h) && |h| == 2
    ensures var text := quad + "::" + "";
      Expand(text) == Some(h + Zeros(6)) && QuadBeforeRun(text) && !RfcSpells(text, h + Zeros(6))
  {
    QuadPart(quad);
    assert SpellsGroups([quad], h) by { assert h[0..] == h; }
    CompressedExpands([quad], h, [], []);
    assert Padded(h, []) == h + Zeros(6);
    CompressedExactly([quad], h, [], []);
    HexExactly([quad], h);
    ExpandMeetsRfc(quad + "::" + "", h + Zeros(6));
  }

  /** A quad with a padded octet is read as the decimal number. */
  lemma PaddedQuadIsRead(quad: string, t: seq<nat>)
    requires QuadGroups(quad) == Some(t) && |t| == 2 && PaddedPart(quad)
    ensures var text := "" + "::" + quad;
      Expand(text) == Some(Zeros(6) + t) && PaddedQuad(text) && !RfcSpells(text, Zeros(6) + t)
  {
    assert SpellsGroups([quad], t) by { assert t[0..] == t; }
    CompressedExpands([], [], [quad], t);
    assert Padded([], t) == Zeros(6) + t;
    CompressedExactly([], [], [quad], t);
    EndExactly([quad], t);
    ExpandMeetsRfc("" + "::" + quad, Zeros(6) + t);
  }

  lemma OctetTextsOfJoin(t: seq<string>)
    requires |t| == 4 && forall i :: 0 <= i < 4 ==> OctetText(t[i])
    ensures OctetTexts(Join(t, '.')) == Some(t)
  {
    forall i | 0 <= i < 4 ensures '.' !in t[i] { assert OctetText(t[i]); }
    SplitJoin(t, '.');
  }

  lemma QuadOfJoin(t: seq<string>, a: nat, b: nat, c: nat, d: nat)
    requires |t| == 4 && (forall i :: 0 <= i < 4 ==> OctetText(t[i])) && a <= 255 && b <= 255 && c <= 255 && d <= 255
    requires Octet(t[0]) == a && Octet(t[1]) == b && Octet(t[2]) == c && Octet(t[3]) == d
    ensures QuadGroups(Join(t, '.')) == Some([a * 256 + b, c * 256 + d])
    ensures LeadingZero(t[0]) ==> PaddedPart(Join(t, '.'))
  {
    OctetTextsOfJoin(t);
    QuadOfTexts(Join(t, '.'), t, a, b, c, d);
    QuadPart(Join(t, '.'));
    assert Split(Join(t, '.'), '.') == t;
  }

  lemma PaddedOctet(a: nat)
    requires a <= 99
    ensures OctetText(['0'] + Decimal(a)) && LeadingZero(['0'] + Decimal(a)) && Octet(['0'] + Decimal(a)) == a
  {
    assert Pow10(2) == 100;
    DecimalLength(a, 2);
    ZeroInFront(Decimal(a));
    ParseDecimalOfDecimal(a);
  }

  /** Such quads exist: a zero before an octet below 100 keeps its value. */
  lemma PaddedIsQuad(a: nat, t: seq<string>, b: nat, c: nat, d: nat)
    requires a <= 99 && b <= 255 && c <= 255 && d <= 255
    requires t == [['0'] + Decimal(a), Decimal(b), Decimal(c), Decimal(d)]
    ensures QuadGroups(Join(t, '.')) == Some([a * 256 + b, c * 256 + d]) && PaddedPart(Join(t, '.'))
  {
    PaddedOctet(a);
    OctetTextExactly(t[1], b);
    OctetTextExactly(t[2], c);
    OctetTextExactly(t[3], d);
    QuadOfJoin(t, a, b, c, d);
  }
}
