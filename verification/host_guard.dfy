/** Whether a host name is a private or reserved address, for every text of the address. */
module HostGuard {
  import opened Wrappers
  import opened Text
  import opened IpAddress
  import opened Ipv6

  // ----- the classifier -------------------------------------------------------------

  predicate AllZero(groups: seq<nat>) { forall i :: 0 <= i < |groups| ==> groups[i] == 0 }

  /** Classifies the quad held in two groups by its text. */
  predicate EmbeddedVerdict(high: nat, low: nat) {
    IsPrivateOrReservedIpv4(Dotted(high / 256 % 256, high % 256, low / 256 % 256, low % 256))
  }

  /** The tests on the groups, in the order they are made. */
  predicate GroupsVerdict(g: seq<nat>)
    requires |g| == 8
  {
    if AllZero(g) then true
    else if AllZero(g[..7]) && g[7] == 1 then true
    else if AllZero(g[..5]) && (g[5] == 0xffff || g[5] == 0) then EmbeddedVerdict(g[6], g[7])
    else if AllZero(g[..4]) && g[4] == 0xffff && g[5] == 0 then EmbeddedVerdict(g[6], g[7])
    else if g[0] == 0x64 && g[1] == 0xff9b && AllZero(g[2..6]) then true
    else if g[0] == 0x64 && g[1] == 0xff9b && g[2] == 1 then true
    else if g[0] == 0x2002 then EmbeddedVerdict(g[1], g[2])
    else if g[0] == 0x2001 && g[1] == 0 then EmbeddedVerdict(g[2], g[3])
    else if g[0] == 0x2001 && g[1] == 0xdb8 then true
    else if g[0] - g[0] % 0x200 == 0xfc00 then true      // the mask 0xfe00
    else if g[0] - g[0] % 0x40 == 0xfe80 then true       // the mask 0xffc0
    else if g[5] == 0x5efe && (g[4] == 0 || g[4] == 0x200) then EmbeddedVerdict(g[6], g[7])
    else false
  }

  function WithoutBrackets(hostname: string): string {
    if |hostname| >= 2 && hostname[0] == '[' && hostname[|hostname| - 1] == ']' then hostname[1..|hostname| - 1] else hostname
  }

  /** Digits, dots and x only. */
  predicate NumericShaped(host: string) {
    host != "" && forall i :: 0 <= i < |host| ==> IsDigit(host[i]) || host[i] in ".xX"
  }

  predicate HexPrefixed(t: string) { |t| >= 2 && t[0] == '0' && (t[1] == 'x' || t[1] == 'X') && AllHex(t[2..]) }

  predicate HexPart(part: string) { AllHex(part) || HexPrefixed(part) }

  /** A first part like 0x7f, and more parts that may each have the prefix. */
  predicate HexIpShaped(host: string) {
    var parts := Split(host, '.');
    HexPrefixed(parts[0]) && forall i :: 1 <= i < |parts| ==> HexPart(parts[i])
  }

  /** `isIp` is the platform's test: 4, 6, or 0 for neither. */
  predicate IsPrivateOrReservedHost(hostname: string, isIp: string -> nat) {
    var host := WithoutBrackets(hostname);
    if isIp(host) == 4 then IsPrivateOrReservedIpv4(host)
    else if NumericShaped(host) || HexIpShaped(host) then true
    else if isIp(host) == 6 then
      var groups := Expand(BeforeZone(host));
      groups.None? || GroupsVerdict(groups.value)
    else false
  }

  // ----- the address alone decides -----------------------------------------------------

  lemma HexHasNoColon(t: string)
    requires AllHex(t) || HexPrefixed(t)
    ensures ':' !in t
  {
    assert |t| >= 2 ==> t == t[..2] + t[2..];
  }

  lemma ColonIsNotNumeric(host: string)
    requires ':' in host
    ensures !NumericShaped(host) && !HexIpShaped(host)
  {
    var k :| 0 <= k < |host| && host[k] == ':';
    if HexIpShaped(host) {
      var parts := Split(host, '.');
      JoinSplit(host, '.');
      forall i | 0 <= i < |parts| ensures ':' !in parts[i] { HexHasNoColon(parts[i]); }
      JoinChars(parts, '.', ':');
    }
  }

  /** Every text of eight groups has a colon. */
  lemma SpellingHasColon(text: string, g: seq<nat>)
    requires Spells(text, g)
    ensures ':' in text
  {
    var spelling :| SpelledBy(text, g, spelling);
    match spelling
    case Compressed(head, _, tail, _) =>
      assert text[|Join(head, ':')|] == ':';
    case Full(parts) =>
      assert |parts| >= 2;
      assert text == parts[0] + [':'] + Join(parts[1..], ':');
      assert text[|parts[0]|] == ':';
  }

  /** Any text of an IPv6 address, in brackets or with a zone, gets the verdict of its groups. */
  lemma VerdictIsOfTheAddress(hostname: string, isIp: string -> nat, g: seq<nat>)
    requires isIp(WithoutBrackets(hostname)) == 6
    requires Spells(BeforeZone(WithoutBrackets(hostname)), g)
    ensures IsPrivateOrReservedHost(hostname, isIp) <==> GroupsVerdict(g)
  {
    var host := WithoutBrackets(hostname);
    var text := BeforeZone(host);
    ExpandExactly(text, g);
    SpellingHasColon(text, g);
    var k :| 0 <= k < |text| && text[k] == ':';
    assert host[k] == ':';
    ColonIsNotNumeric(host);
  }

  /** So two texts of one address get one verdict. */
  lemma SameAddressSameVerdict(one: string, two: string, isIp: string -> nat, g: seq<nat>)
    requires isIp(WithoutBrackets(one)) == 6 && isIp(WithoutBrackets(two)) == 6
    requires Spells(BeforeZone(WithoutBrackets(one)), g) && Spells(BeforeZone(WithoutBrackets(two)), g)
    ensures IsPrivateOrReservedHost(one, isIp) <==> IsPrivateOrReservedHost(two, isIp)
  {
    VerdictIsOfTheAddress(one, isIp, g);
    VerdictIsOfTheAddress(two, isIp, g);
  }

  /** What the platform calls IPv6 but the parser cannot read is blocked. */
  lemma UnreadableIsBlocked(hostname: string, isIp: string -> nat)
    requires isIp(WithoutBrackets(hostname)) == 6
    requires forall g :: !Spells(BeforeZone(WithoutBrackets(hostname)), g)
    ensures IsPrivateOrReservedHost(hostname, isIp)
  {
    var text := BeforeZone(WithoutBrackets(hostname));
    if Expand(text).Some? { ExpandExactly(text, Expand(text).value); }
  }

  // ----- the verdict as a list of prefixes ------------------------------------------------

  /** The address begins with the first `bits` bits of the prefix. */
  predicate Under(g: seq<nat>, prefix: seq<nat>, bits: nat)
    requires |g| == 8 && |prefix| * 16 >= bits && bits <= 128
  {
    var whole, rest := bits / 16, bits % 16;
    && g[..whole] == prefix[..whole]
    && (rest > 0 ==> g[whole] / Step(rest) == prefix[whole] / Step(rest))
  }

  /** The size of a block of 16-bit groups that share their first bits. */
  function Step(bits: nat): (s: nat)
    ensures s > 0
    decreases 16 - bits
  {
    if bits >= 16 then 1 else 2 * Step(bits + 1)
  }

  predicate InFixedBlock(g: seq<nat>)
    requires |g| == 8
  {
    || Under(g, [0x64, 0xff9b, 0, 0, 0, 0], 96)
    || Under(g, [0x64, 0xff9b, 1], 48)
    || Under(g, [0x2001, 0xdb8], 32)
    || Under(g, [0xfc00], 7)
    || Under(g, [0xfe80], 10)
  }

  predicate HoldsQuadLow(g: seq<nat>)
    requires |g| == 8
  {
    || Under(g, [0, 0, 0, 0, 0, 0xffff], 96)
    || Under(g, [0, 0, 0, 0, 0, 0], 96)
    || Under(g, [0, 0, 0, 0, 0xffff, 0], 96)
    || (g[4] in {0, 0x200} && g[5] == 0x5efe && !Under(g, [0x2002], 16) && !Under(g, [0x2001, 0], 32))
  }

  /** The 32-bit address in two groups. */
  function QuadAddress(high: nat, low: nat): nat { high * 0x1_0000 + low }

  lemma TwoBytes(g: nat)
    requires g < 0x1_0000
    ensures g / 256 % 256 <= 255 && g % 256 <= 255 && g == g / 256 % 256 * 256 + g % 256
  {
  }

  lemma EmbeddedExactly(high: nat, low: nat)
    requires high < 0x1_0000 && low < 0x1_0000
    ensures EmbeddedVerdict(high, low) <==> ReservedAddress(QuadAddress(high, low))
  {
    var a, b, c, d := high / 256 % 256, high % 256, low / 256 % 256, low % 256;
    TwoBytes(high);
    TwoBytes(low);
    assert Address(a, b, c, d) == QuadAddress(high, low);
    DottedVerdict(a, b, c, d);
  }

  lemma UnderWhole(g: seq<nat>, prefix: seq<nat>)
    requires |g| == 8 && |prefix| <= 8
    ensures Under(g, prefix, 16 * |prefix|) <==> forall i :: 0 <= i < |prefix| ==> g[i] == prefix[i]
  {
    var k := |prefix|;
    assert 16 * k / 16 == k && 16 * k % 16 == 0;
    assert prefix[..k] == prefix;
    assert g[..k] == prefix <==> forall i :: 0 <= i < k ==> g[..k][i] == prefix[i];
  }

  /** The prefixes shorter than a group are the two masks. */
  lemma UnderMask(g: seq<nat>)
    requires |g| == 8 && g[0] < 0x1_0000
    ensures Under(g, [0xfc00], 7) <==> g[0] - g[0] % 0x200 == 0xfc00
    ensures Under(g, [0xfe80], 10) <==> g[0] - g[0] % 0x40 == 0xfe80
  {
    assert Step(7) == 0x200 && Step(10) == 0x40;
    assert g[..0] == [] && [0xfc00][..0] == [] && [0xfe80][..0] == [];
  }

  /** The fixed blocks as tests on groups. */
  lemma FixedBlocks(g: seq<nat>)
    requires |g| == 8 && g[0] < 0x1_0000
    ensures InFixedBlock(g) <==>
      || (g[0] == 0x64 && g[1] == 0xff9b && g[2] == g[3] == g[4] == g[5] == 0)
      || (g[0] == 0x64 && g[1] == 0xff9b && g[2] == 1)
      || (g[0] == 0x2001 && g[1] == 0xdb8)
      || g[0] - g[0] % 0x200 == 0xfc00
      || g[0] - g[0] % 0x40 == 0xfe80
  {
    UnderWhole(g, [0x64, 0xff9b, 0, 0, 0, 0]);
    UnderWhole(g, [0x64, 0xff9b, 1]);
    UnderWhole(g, [0x2001, 0xdb8]);
    UnderMask(g);
  }

  lemma TunnelPrefixes(g: seq<nat>)
    requires |g| == 8
    ensures Under(g, [0x2002], 16) <==> g[0] == 0x2002
    ensures Under(g, [0x2001, 0], 32) <==> g[0] == 0x2001 && g[1] == 0
  {
    UnderWhole(g, [0x2002]);
    UnderWhole(g, [0x2001, 0]);
  }

  lemma LowQuads(g: seq<nat>)
    requires |g| == 8
    ensures HoldsQuadLow(g) <==>
      || (g[0] == g[1] == g[2] == g[3] == g[4] == 0 && (g[5] == 0xffff || g[5] == 0))
      || (g[0] == g[1] == g[2] == g[3] == 0 && g[4] == 0xffff && g[5] == 0)
      || ((g[4] == 0 || g[4] == 0x200) && g[5] == 0x5efe && g[0] != 0x2002 && !(g[0] == 0x2001 && g[1] == 0))
  {
    UnderWhole(g, [0, 0, 0, 0, 0, 0xffff]);
    UnderWhole(g, [0, 0, 0, 0, 0, 0]);
    UnderWhole(g, [0, 0, 0, 0, 0xffff, 0]);
    TunnelPrefixes(g);
  }

  lemma ZeroSlices(g: seq<nat>)
    requires |g| == 8
    ensures AllZero(g[..4]) <==> g[0] == g[1] == g[2] == g[3] == 0
    ensures AllZero(g[..5]) <==> AllZero(g[..4]) && g[4] == 0
    ensures AllZero(g[..7]) <==> AllZero(g[..5]) && g[5] == g[6] == 0
    ensures AllZero(g) <==> AllZero(g[..7]) && g[7] == 0
    ensures AllZero(g[2..6]) <==> g[2] == g[3] == g[4] == g[5] == 0
  {
    assert forall i :: 0 <= i < 4 ==> g[2..6][i] == g[i + 2];
  }

  lemma ZeroAddressesReserved()
    ensures ReservedAddress(QuadAddress(0, 0)) && ReservedAddress(QuadAddress(0, 1))
  {
  }

  /**
   An IPv6 address is blocked exactly when it lies in a fixed block, or the IPv4
   address that its form holds lies in an IPv4 block. The order of the tests
   matters for one form only: 6to4 and Teredo come before ISATAP.
   */
  lemma BlockedExactly(g: seq<nat>)
    requires |g| == 8 && forall i :: 0 <= i < 8 ==> g[i] < 0x1_0000
    ensures GroupsVerdict(g) <==>
      || InFixedBlock(g)
      || (HoldsQuadLow(g) && ReservedAddress(QuadAddress(g[6], g[7])))
      || (Under(g, [0x2002], 16) && ReservedAddress(QuadAddress(g[1], g[2])))
      || (Under(g, [0x2001, 0], 32) && ReservedAddress(QuadAddress(g[2], g[3])))
  {
    EmbeddedExactly(g[6], g[7]);
    EmbeddedExactly(g[1], g[2]);
    EmbeddedExactly(g[2], g[3]);
    ZeroAddressesReserved();
    BlockedCases(g, ReservedAddress(QuadAddress(g[6], g[7])), ReservedAddress(QuadAddress(g[1], g[2])), ReservedAddress(QuadAddress(g[2], g[3])));
  }

  lemma BlockedCases(g: seq<nat>, low: bool, sixToFour: bool, teredo: bool)
    requires |g| == 8 && g[0] < 0x1_0000
    requires EmbeddedVerdict(g[6], g[7]) == low && EmbeddedVerdict(g[1], g[2]) == sixToFour && EmbeddedVerdict(g[2], g[3]) == teredo
    requires g[6] == 0 && g[7] <= 1 ==> low
    ensures GroupsVerdict(g) <==>
      || InFixedBlock(g)
      || (HoldsQuadLow(g) && low)
      || (Under(g, [0x2002], 16) && sixToFour)
      || (Under(g, [0x2001, 0], 32) && teredo)
  {
    FixedBlocks(g);
    LowQuads(g);
    TunnelPrefixes(g);
    ZeroSlices(g);
  }

  /** The whole guard on an IPv6 host, from its text to the blocks. */
  lemma Ipv6HostBlockedExactly(hostname: string, isIp: string -> nat, g: seq<nat>)
    requires isIp(WithoutBrackets(hostname)) == 6
    requires Spells(BeforeZone(WithoutBrackets(hostname)), g)
    ensures IsPrivateOrReservedHost(hostname, isIp) <==>
      || InFixedBlock(g)
      || (HoldsQuadLow(g) && ReservedAddress(QuadAddress(g[6], g[7])))
      || (Under(g, [0x2002], 16) && ReservedAddress(QuadAddress(g[1], g[2])))
      || (Under(g, [0x2001, 0], 32) && ReservedAddress(QuadAddress(g[2], g[3])))
  {
    VerdictIsOfTheAddress(hostname, isIp, g);
    SpelledFits(BeforeZone(WithoutBrackets(hostname)), g);
    BlockedExactly(g);
  }

  /** The eight groups of `::ffff:a.b.c.d`. */
  predicate IsMapped(g: seq<nat>, a: nat, b: nat, c: nat, d: nat) {
    |g| == 8 && AllZero(g[..5]) && g[5] == 0xffff && g[6] == a * 256 + b && g[7] == c * 256 + d
  }

  lemma MappedVerdict(g: seq<nat>, a: nat, b: nat, c: nat, d: nat)
    requires a <= 255 && b <= 255 && c <= 255 && d <= 255 && IsMapped(g, a, b, c, d)
    ensures GroupsVerdict(g) <==> ReservedAddress(Address(a, b, c, d))
  {
    EmbeddedExactly(g[6], g[7]);
    assert QuadAddress(g[6], g[7]) == Address(a, b, c, d);
    ZeroSlices(g);
  }

  /** An IPv4-mapped address is judged like the bare IPv4 address. */
  lemma MappedLikeBare(hostname: string, isIp: string -> nat, g: seq<nat>, a: nat, b: nat, c: nat, d: nat)
    requires a <= 255 && b <= 255 && c <= 255 && d <= 255 && IsMapped(g, a, b, c, d)
    requires isIp(WithoutBrackets(hostname)) == 6 && isIp(Dotted(a, b, c, d)) == 4
    requires Spells(BeforeZone(WithoutBrackets(hostname)), g)
    ensures IsPrivateOrReservedHost(hostname, isIp) <==> IsPrivateOrReservedHost(Dotted(a, b, c, d), isIp)
  {
    VerdictIsOfTheAddress(hostname, isIp, g);
    MappedVerdict(g, a, b, c, d);
    DottedVerdict(a, b, c, d);
    assert Dotted(a, b, c, d)[0] == Decimal(a)[0];
  }

  lemma FfffIsGroup()
    ensures IsGroup("ffff", 0xffff)
  {
    assert "ffff"[..3] == "fff" && "fff"[..2] == "ff" && "ff"[..1] == "f" && "f"[..0] == "";
    assert HexValue("f") == 15;
    assert HexValue("fff") == 0xfff;
  }

  lemma MappedParts(quad: string, high: nat, low: nat)
    requires QuadGroups(quad) == Some([high, low])
    ensures SpellsGroups(["ffff", quad], [0xffff, high, low])
  {
    FfffIsGroup();
    assert [0xffff, high, low][1..] == [high, low];
  }

  lemma MappedSpelling(quad: string, g: seq<nat>, tail: seq<nat>)
    requires SpellsGroups(["ffff", quad], tail) && |tail| == 3 && g == Zeros(5) + tail
    ensures Spells("::ffff:" + quad, g)
  {
    var parts := ["ffff", quad];
    assert parts[1..] == [quad] && Join(parts, ':') == "ffff:" + quad;
    assert "::ffff:" + quad == "" + "::" + ("ffff:" + quad);
    assert g[..0] == [] && g[0..5] == Zeros(5) && g[5..] == tail;
    assert SpelledBy("::ffff:" + quad, g, Compressed([], 0, parts, 5));
  }

  /** The usual text of an IPv4-mapped address spells its groups. */
  lemma MappedTextSpells(a: nat, b: nat, c: nat, d: nat) returns (g: seq<nat>)
    requires a <= 255 && b <= 255 && c <= 255 && d <= 255
    ensures Spells("::ffff:" + Dotted(a, b, c, d), g) && IsMapped(g, a, b, c, d)
  {
    var tail := [0xffff, a * 256 + b, c * 256 + d];
    g := Zeros(5) + tail;
    DottedIsQuad(a, b, c, d);
    MappedParts(Dotted(a, b, c, d), a * 256 + b, c * 256 + d);
    MappedSpelling(Dotted(a, b, c, d), g, tail);
  }

  /** So the instance-metadata address is refused in this disguise as well. */
  lemma MappedMetadataIsBlocked(isIp: string -> nat)
    requires isIp("::ffff:" + Dotted(169, 254, 169, 254)) == 6
    ensures IsPrivateOrReservedHost("::ffff:" + Dotted(169, 254, 169, 254), isIp)
  {
    var host := "::ffff:" + Dotted(169, 254, 169, 254);
    var g := MappedTextSpells(169, 254, 169, 254);
    ExpandExactly(host, g);
    NoZoneInMapped(169, 254, 169, 254);
    VerdictIsOfTheAddress(host, isIp, g);
    MappedVerdict(g, 169, 254, 169, 254);
    OctetsMeetBlocks(169, 254, 169, 254);
  }

  lemma NoZoneInMapped(a: nat, b: nat, c: nat, d: nat)
    ensures BeforeZone("::ffff:" + Dotted(a, b, c, d)) == "::ffff:" + Dotted(a, b, c, d)
  {
    JoinChars([Decimal(a), Decimal(b), Decimal(c), Decimal(d)], '.', '%');
    var host := "::ffff:" + Dotted(a, b, c, d);
    assert '%' !in host;
    assert host[..|host|] == host;
  }

  // ----- hosts that are no IP literal ------------------------------------------------------

  /** Texts made of digits, dots and x. */
  ghost predicate NumericText(host: string) {
    host != "" && forall c :: c in host ==> c in {'0', '1', '2', '3', '4', '5', '6', '7', '8', '9', '.', 'x', 'X'}
  }

  predicate HexLetterOrDigit(c: char) { '0' <= c <= '9' || 'a' <= c <= 'f' || 'A' <= c <= 'F' }

  predicate HexDigits(t: string) { forall c :: c in t ==> HexLetterOrDigit(c) }

  /** `part` is 0x or 0X before hexadecimal digits. */
  ghost predicate HexNumber(part: string) {
    exists digits :: HexDigits(digits) && (part == "0x" + digits || part == "0X" + digits)
  }

  /** Dotted parts of hexadecimal digits; the first part has the prefix, the others may have it. */
  ghost predicate HexText(host: string) {
    exists parts :: parts != [] && host == Join(parts, '.') && HexNumber(parts[0]) &&
                    forall i :: 1 <= i < |parts| ==> HexDigits(parts[i]) || HexNumber(parts[i])
  }

  lemma HexDigitsExactly(t: string)
    ensures HexDigits(t) <==> AllHex(t)
  {
    if HexDigits(t) {
      forall i | 0 <= i < |t| ensures HexDigit(t[i]) { assert t[i] in t; }
    }
  }

  lemma PrefixedText(part: string, digits: string)
    requires HexDigits(digits) && (part == "0x" + digits || part == "0X" + digits)
    ensures HexPrefixed(part)
  {
    assert part[2..] == digits;
    HexDigitsExactly(digits);
  }

  lemma HexNumberExactly(part: string)
    ensures HexPrefixed(part) <==> HexNumber(part)
  {
    if HexPrefixed(part) {
      assert part == part[..2] + part[2..];
      assert part[..2] == "0x" || part[..2] == "0X";
      HexDigitsExactly(part[2..]);
    }
    if HexNumber(part) {
      var digits :| HexDigits(digits) && (part == "0x" + digits || part == "0X" + digits);
      PrefixedText(part, digits);
    }
  }

  lemma HexPartExactly(part: string)
    ensures HexPart(part) <==> HexDigits(part) || HexNumber(part)
    ensures HexPart(part) ==> '.' !in part
  {
    HexDigitsExactly(part);
    HexNumberExactly(part);
    if HexPrefixed(part) { assert part == part[..2] + part[2..]; }
  }

  lemma HexPartsHaveNoDot(parts: seq<string>)
    requires parts != [] && HexPrefixed(parts[0]) && forall i :: 1 <= i < |parts| ==> HexPart(parts[i])
    ensures forall i :: 0 <= i < |parts| ==> '.' !in parts[i]
  {
    forall i | 0 <= i < |parts| ensures '.' !in parts[i] {
      assert HexPart(parts[i]);
      HexPartExactly(parts[i]);
    }
  }

  lemma ShapeOfSplit(host: string, parts: seq<string>)
    requires Split(host, '.') == parts && HexPrefixed(parts[0]) && forall i :: 1 <= i < |parts| ==> HexPart(parts[i])
    ensures HexIpShaped(host)
  {}

  lemma HexTextShape(parts: seq<string>)
    requires parts != [] && HexPrefixed(parts[0]) && forall i :: 1 <= i < |parts| ==> HexPart(parts[i])
    ensures HexIpShaped(Join(parts, '.')) && Split(Join(parts, '.'), '.') == parts
  {
    HexPartsHaveNoDot(parts);
    SplitJoin(parts, '.');
    ShapeOfSplit(Join(parts, '.'), parts);
  }

  lemma HexShapedExactly(host: string)
    ensures HexIpShaped(host) <==> HexText(host)
  {
    if HexIpShaped(host) {
      var parts := Split(host, '.');
      JoinSplit(host, '.');
      HexNumberExactly(parts[0]);
      forall i | 1 <= i < |parts| ensures HexDigits(parts[i]) || HexNumber(parts[i]) { HexPartExactly(parts[i]); }
    }
    if HexText(host) {
      var parts :| parts != [] && host == Join(parts, '.') && HexNumber(parts[0]) &&
                   forall i :: 1 <= i < |parts| ==> HexDigits(parts[i]) || HexNumber(parts[i]);
      HexNumberExactly(parts[0]);
      forall i | 1 <= i < |parts| ensures HexPart(parts[i]) { HexPartExactly(parts[i]); }
      HexTextShape(parts);
    }
  }

  /** A host that the platform calls neither IPv4 nor IPv6 is refused if and only if its text is numeric or hexadecimal. */
  lemma OtherHostRefusedExactly(hostname: string, isIp: string -> nat)
    requires isIp(WithoutBrackets(hostname)) !in {4, 6}
    ensures IsPrivateOrReservedHost(hostname, isIp) <==>
      NumericText(WithoutBrackets(hostname)) || HexText(WithoutBrackets(hostname))
  {
    var host := WithoutBrackets(hostname);
    HexShapedExactly(host);
    assert NumericShaped(host) <==> NumericText(host) by { NumericShapedExactly(host); }
  }

  lemma NumericShapedExactly(host: string)
    ensures NumericShaped(host) <==> NumericText(host)
  {
    if NumericText(host) {
      forall i | 0 <= i < |host| ensures IsDigit(host[i]) || host[i] in ".xX" { assert host[i] in host; }
    }
    if NumericShaped(host) {
      forall c | c in host ensures c in {'0', '1', '2', '3', '4', '5', '6', '7', '8', '9', '.', 'x', 'X'} { DigitsListed(c); }
    }
  }

  lemma DigitsListed(c: char)
    ensures IsDigit(c) ==> c in {'0', '1', '2', '3', '4', '5', '6', '7', '8', '9'}
  {}

  /** A whole number is refused, whatever its value: resolvers read it as an address. */
  lemma WholeNumberRefused(n: nat, isIp: string -> nat)
    requires isIp(Decimal(n)) !in {4, 6}
    ensures IsPrivateOrReservedHost(Decimal(n), isIp)
  {
    assert WithoutBrackets(Decimal(n)) == Decimal(n) by { assert IsDigit(Decimal(n)[0]); }
    NumericShapedExactly(Decimal(n));
    OtherHostRefusedExactly(Decimal(n), isIp);
  }

  /** A number as a resolver may read it: decimal or octal digits, or a hexadecimal number. */
  predicate NumberPart(part: string) {
    (part != "" && AllDigits(part)) || HexPrefixed(part)
  }

  predicate HexLetter(c: char) { HexDigit(c) && !IsDigit(c) }

  predicate PlainNumber(part: string) { forall i :: 0 <= i < |part| ==> !HexLetter(part[i]) }

  lemma {:induction false} JoinChar(parts: seq<string>, c: char)
    requires c in Join(parts, '.')
    ensures c == '.' || exists i :: 0 <= i < |parts| && c in parts[i]
  {
    if forall i :: 0 <= i < |parts| ==> c !in parts[i] {
      if c != '.' { JoinChars(parts, '.', c); }
    }
  }

  lemma NumberChar(part: string, c: char)
    requires NumberPart(part) && c in part
    ensures HexLetter(c) || IsDigit(c) || c == 'x' || c == 'X'
  {
    if HexPrefixed(part) {
      var k :| 0 <= k < |part| && part[k] == c;
      assert k >= 2 ==> part[2..][k - 2] == c;
    }
  }

  lemma NumbersHaveNoDot(parts: seq<string>)
    requires forall i :: 0 <= i < |parts| ==> NumberPart(parts[i])
    ensures forall i :: 0 <= i < |parts| ==> '.' !in parts[i]
  {
    forall i | 0 <= i < |parts| && '.' in parts[i] ensures false { NumberChar(parts[i], '.'); }
  }

  lemma PlainNumbersAreNumeric(parts: seq<string>)
    requires parts != [] && forall i :: 0 <= i < |parts| ==> NumberPart(parts[i]) && PlainNumber(parts[i])
    ensures NumericShaped(Join(parts, '.'))
  {
    var host := Join(parts, '.');
    forall k | 0 <= k < |host| ensures IsDigit(host[k]) || host[k] in ".xX" {
      JoinChar(parts, host[k]);
      if host[k] != '.' {
        var i :| 0 <= i < |parts| && host[k] in parts[i];
        NumberChar(parts[i], host[k]);
        assert PlainNumber(parts[i]);
      }
    }
    assert |parts[0]| > 0 && |host| >= |parts[0]|;
  }

  lemma LettersAreNotNumeric(parts: seq<string>, k: nat)
    requires k < |parts| && !PlainNumber(parts[k])
    ensures !NumericShaped(Join(parts, '.'))
  {
    var i :| 0 <= i < |parts[k]| && HexLetter(parts[k][i]);
    JoinContains(parts, k, parts[k][i]);
    var host := Join(parts, '.');
    var j :| 0 <= j < |host| && host[j] == parts[k][i];
  }

  lemma {:induction false} JoinContains(parts: seq<string>, k: nat, c: char)
    requires k < |parts| && c in parts[k]
    ensures c in Join(parts, '.')
  {
    if |parts| > 1 && k > 0 { JoinContains(parts[1..], k - 1, c); }
  }

  lemma {:induction false} StartsLikeFirst(parts: seq<string>)
    requires parts != [] && parts[0] != "" && parts[0][0] != '['
    ensures WithoutBrackets(Join(parts, '.')) == Join(parts, '.')
  {}

  /**
   Numbers between dots, in any mix of decimal, octal and hexadecimal and of any
   count, which the platform does not call an address: refused if and only if the
   first one is hexadecimal or no part has one of the letters a to f.
   */
  lemma DottedNumbersRefusedExactly(parts: seq<string>, isIp: string -> nat)
    requires parts != [] && forall i :: 0 <= i < |parts| ==> NumberPart(parts[i])
    requires isIp(Join(parts, '.')) !in {4, 6}
    ensures IsPrivateOrReservedHost(Join(parts, '.'), isIp) <==>
      HexPrefixed(parts[0]) || forall i :: 0 <= i < |parts| ==> PlainNumber(parts[i])
  {
    assert NumberPart(parts[0]);
    StartsLikeFirst(parts);
    NumbersHaveNoDot(parts);
    SplitJoin(parts, '.');
    if HexPrefixed(parts[0]) {
      forall i | 1 <= i < |parts| ensures HexPart(parts[i]) { assert NumberPart(parts[i]); }
      HexTextShape(parts);
    } else if forall i :: 0 <= i < |parts| ==> PlainNumber(parts[i]) {
      PlainNumbersAreNumeric(parts);
    } else {
      var k :| 0 <= k < |parts| && !PlainNumber(parts[k]);
      LettersAreNotNumeric(parts, k);
    }
  }

  /** So every quad in decimal or octal digits is refused, when the platform does not read it. */
  lemma OctalQuadRefused(a: string, b: string, c: string, d: string, isIp: string -> nat)
    requires forall t :: t in [a, b, c, d] ==> t != "" && AllDigits(t)
    requires isIp(Join([a, b, c, d], '.')) !in {4, 6}
    ensures IsPrivateOrReservedHost(Join([a, b, c, d], '.'), isIp)
  {
    var parts := [a, b, c, d];
    forall i | 0 <= i < 4 ensures NumberPart(parts[i]) && PlainNumber(parts[i]) { assert parts[i] in parts; }
    DottedNumbersRefusedExactly(parts, isIp);
  }

  /** A hexadecimal letter after a first decimal part escapes both tests. */
  lemma LaterHexPartPasses(isIp: string -> nat)
    requires isIp(Join(["1", "2", "3", "0xfe"], '.')) !in {4, 6}
    ensures !IsPrivateOrReservedHost(Join(["1", "2", "3", "0xfe"], '.'), isIp)
  {
    var parts := ["1", "2", "3", "0xfe"];
    assert "0xfe"[2..] == "fe";
    assert NumberPart(parts[0]) && NumberPart(parts[1]) && NumberPart(parts[2]) && NumberPart(parts[3]);
    assert HexLetter(parts[3][2]) && !HexPrefixed(parts[0]);
    DottedNumbersRefusedExactly(parts, isIp);
  }

  /** A name with any other character, such as a letter after f that is not x, passes. */
  lemma OrdinaryNamePasses(host: string, k: nat, isIp: string -> nat)
    requires k < |host| && !HexDigit(host[k]) && host[k] !in {'.', 'x', 'X'}
    requires WithoutBrackets(host) == host && isIp(host) !in {4, 6}
    ensures !IsPrivateOrReservedHost(host, isIp)
  {
    if HexIpShaped(host) {
      var parts := Split(host, '.');
      JoinSplit(host, '.');
      JoinChar(parts, host[k]);
      var i :| 0 <= i < |parts| && host[k] in parts[i];
      HexPartChar(parts[i], host[k]);
    }
  }

  lemma HexPartChar(part: string, c: char)
    requires HexPart(part) && c in part
    ensures HexDigit(c) || c == 'x' || c == 'X'
  {
    if HexPrefixed(part) {
      var k :| 0 <= k < |part| && part[k] == c;
      assert k >= 2 ==> part[2..][k - 2] == c;
    }
  }

  lemma ExampleComPasses(isIp: string -> nat)
    requires isIp("example.com") !in {4, 6}
    ensures !IsPrivateOrReservedHost("example.com", isIp)
  {
    OrdinaryNamePasses("example.com", 3, isIp);
  }

  // ----- the forms of a host ---------------------------------------------------------------

  lemma BracketsGo(text: string)
    ensures WithoutBrackets("[" + text + "]") == text
    ensures text == "" || text[0] != '[' ==> WithoutBrackets(text) == text
  {
    var host := "[" + text + "]";
    assert host[1..|host| - 1] == text;
  }

  lemma ZoneGoes(text: string, zone: string)
    requires '%' !in text
    ensures BeforeZone(text) == text && BeforeZone(text + "%" + zone) == text
  {
    FindAfter(text, [], '%');
    assert text + [] == text;
    var host := text + "%" + zone;
    assert host == text + (['%'] + zone);
    FindAfter(text, ['%'] + zone, '%');
    assert host[..|text|] == text;
  }

  /** An address is judged alike as it is, in brackets, with a zone, and with both. */
  lemma FormsOfAnAddress(text: string, zone: string, isIp: string -> nat, g: seq<nat>)
    requires Spells(text, g) && '%' !in text && text != "" && text[0] != '['
    requires isIp(text) == 6 && isIp(text + "%" + zone) == 6
    ensures IsPrivateOrReservedHost(text, isIp) <==> GroupsVerdict(g)
    ensures IsPrivateOrReservedHost("[" + text + "]", isIp) <==> GroupsVerdict(g)
    ensures IsPrivateOrReservedHost(text + "%" + zone, isIp) <==> GroupsVerdict(g)
    ensures IsPrivateOrReservedHost("[" + (text + "%" + zone) + "]", isIp) <==> GroupsVerdict(g)
  {
    var zoned := text + "%" + zone;
    assert zoned[0] == text[0];
    BracketsGo(text);
    BracketsGo(zoned);
    ZoneGoes(text, zone);
    VerdictIsOfTheAddress(text, isIp, g);
    VerdictIsOfTheAddress("[" + text + "]", isIp, g);
    VerdictIsOfTheAddress(zoned, isIp, g);
    VerdictIsOfTheAddress("[" + zoned + "]", isIp, g);
  }

  /** A host that the platform calls IPv4 passes exactly when it is the canonical text of a public address. */
  lemma Ipv4HostExactly(hostname: string, isIp: string -> nat)
    requires isIp(WithoutBrackets(hostname)) == 4
    ensures !IsPrivateOrReservedHost(hostname, isIp) <==>
      exists a: nat, b: nat, c: nat, d: nat :: IsPublicText(WithoutBrackets(hostname), a, b, c, d)
  {
    PublicIpv4Exactly(WithoutBrackets(hostname));
  }
}
