/** Parsing one source of a widget's content security policy, against its grammar. */
module CspSources {
  import opened Wrappers
  import opened Text

  datatype Scheme = Https | Wss

  datatype Directive = ResourceDomains | ConnectDomains | FrameDomains | BaseUriDomains

  /** A value of a declaration; only text can be a source. */
  datatype Value = NotText | Str(text: string)

  datatype Error =
    | NotAString | Empty | TooLong | ForbiddenCharacters | SchemeNotAllowed | UserInfo | PathGiven
    | IpAddress | BadPort | BadWildcard | BadHost | SpecialUseHost | PublicSuffixWildcard

  /** A source; `port` is None for the default port of the scheme. */
  datatype Source = Source(scheme: Scheme, wildcard: bool, host: string, port: Option<nat>)

  datatype Parsed = Parsed(source: Source, normalized: string)

  /** The top labels that never name a public host, and the names that one party registers. */
  datatype Names = Names(specialUse: set<string>, registrable: string -> bool)

  const MAX_LENGTH := 300
  const MAX_HOST := 253
  const DEFAULT_PORT := 443

  const SPECIAL_USE_LABELS: set<string> := {
    "localhost", "local", "internal", "localdomain", "test", "invalid", "example",
    "onion", "alt", "arpa", "lan", "home", "corp", "intranet", "private"}

  /** The names in use; whether a parent is registrable comes from the public suffix list. */
  function Deployed(registrable: string -> bool): Names { Names(SPECIAL_USE_LABELS, registrable) }

  // ----- characters and labels ------------------------------------------------

  predicate Forbidden(c: char) {
    || c < '!' || c > '~' || c == ';' || c == ',' || c == '\'' || c == '"' || c == '<' || c == '>'
    || c == '\\' || c == '`' || c == '^' || c == '|' || c == '{' || c == '}' || c == '%'
  }

  predicate Clean(v: string) { forall i :: 0 <= i < |v| ==> !Forbidden(v[i]) }

  predicate AlphaNum(c: char) { 'a' <= c <= 'z' || IsDigit(c) }

  /** One to 63 lower-case letters, digits and hyphens, no hyphen at either end. */
  predicate HostLabel(l: string) {
    && 0 < |l| <= 63
    && AlphaNum(l[0]) && AlphaNum(l[|l| - 1])
    && forall i :: 0 <= i < |l| ==> AlphaNum(l[i]) || l[i] == '-'
  }

  predicate HostLabels(labels: seq<string>) {
    forall i :: 0 <= i < |labels| ==> HostLabel(labels[i])
  }

  predicate NumericLabel(l: string) {
    || (l != [] && AllDigits(l))
    || (|l| >= 2 && l[..2] == "0x" && forall i :: 2 <= i < |l| ==> IsDigit(l[i]) || 'a' <= l[i] <= 'f')
  }

  function LowerChar(c: char): char {
    if 'A' <= c <= 'Z' then (c as int + 32) as char else c
  }

  function Lower(s: string): (r: string)
    ensures |r| == |s| && forall i :: 0 <= i < |s| ==> r[i] == LowerChar(s[i])
  {
    seq(|s|, i requires 0 <= i < |s| => LowerChar(s[i]))
  }

  // ----- the parser -------------------------------------------------------------

  function SchemeName(s: Scheme): string { if s.Https? then "https" else "wss" }

  function Star(wildcard: bool): string { if wildcard then "*." else "" }

  function PortText(port: Option<nat>): string {
    if port.None? then "" else ":" + Decimal(port.value)
  }

  /** The text that goes into a policy. */
  function Normalized(s: Source): string {
    SchemeName(s.scheme) + "://" + Star(s.wildcard) + s.host + PortText(s.port)
  }

  predicate StartsWithStar(s: string) { |s| >= 2 && s[0] == '*' && s[1] == '.' }

  function ParsePort(text: string): Option<nat> {
    if 0 < |text| <= 5 && AllDigits(text) && text[0] != '0' && ParseDecimal(text) <= 65535 then Some(ParseDecimal(text)) else None
  }

  /** What is wrong with a host, in the order of the checks. */
  function HostError(host: string, wildcard: bool, names: Names): Option<Error> {
    if '*' in host then Some(BadWildcard) else
    var labels := Split(host, '.');
    if |host| > MAX_HOST || !HostLabels(labels) then Some(BadHost) else
    var top := labels[|labels| - 1];
    if NumericLabel(top) then Some(IpAddress)
    else if top in names.specialUse then Some(SpecialUseHost)
    else if |labels| < 2 then Some(if wildcard then PublicSuffixWildcard else BadHost)
    else if wildcard && !names.registrable(host) then Some(PublicSuffixWildcard)
    else None
  }

  function ParseHost(hostText: string, scheme: Scheme, port: Option<nat>, names: Names): Result<Parsed, Error> {
    var lower := Lower(hostText);
    var wildcard := StartsWithStar(lower);
    var host := if wildcard then lower[2..] else lower;
    match HostError(host, wildcard, names)
    case Some(error) => Err(error)
    case None => var source := Source(scheme, wildcard, host, port); Ok(Parsed(source, Normalized(source)))
  }

  /** The host text and the port of what follows the scheme. */
  function SplitAuthority(authority: string): Result<(string, Option<nat>), Error> {
    if '@' in authority then Err(UserInfo)
    else if '/' in authority || '?' in authority || '#' in authority then Err(PathGiven)
    else if authority != "" && authority[0] == '[' then Err(IpAddress) else
    var colon := LastIndexOf(authority, ':');
    if colon < 0 then Ok((authority, None))
    else if ':' in authority[..colon] then Err(IpAddress) else
    match ParsePort(authority[colon + 1..])
    case None => Err(BadPort)
    case Some(port) => Ok((authority[..colon], if port == DEFAULT_PORT then None else Some(port)))
  }

  /** The scheme and what follows it, when the scheme is one of the two. */
  function SplitScheme(v: string): Option<(Scheme, string)> {
    var colon := Find(v, ':');
    if colon + 3 > |v| || v[colon..colon + 3] != "://" then None else
    var scheme := Lower(v[..colon]);
    if scheme == "https" then Some((Https, v[colon + 3..]))
    else if scheme == "wss" then Some((Wss, v[colon + 3..]))
    else None
  }

  function ParseAfterScheme(scheme: Scheme, authority: string, names: Names): Result<Parsed, Error> {
    match SplitAuthority(authority)
    case Err(error) => Err(error)
    case Ok((hostText, port)) => ParseHost(hostText, scheme, port, names)
  }

  function Parse(value: Value, directive: Directive, names: Names): Result<Parsed, Error> {
    match value
    case NotText => Err(NotAString)
    case Str(v) =>
      if |v| == 0 then Err(Empty)
      else if |v| > MAX_LENGTH then Err(TooLong)
      else if !Clean(v) then Err(ForbiddenCharacters) else
      match SplitScheme(v)
      case None => Err(SchemeNotAllowed)
      case Some((scheme, authority)) =>
        if scheme.Wss? && !directive.ConnectDomains? then Err(SchemeNotAllowed) else ParseAfterScheme(scheme, authority, names)
  }

  // ----- the grammar ---------------------------------------------------------------

  /** A host that may be a source: two labels or more, the last one a public name. */
  predicate HostOk(host: string, names: Names) {
    var labels := Split(host, '.');
    && |host| <= MAX_HOST && HostLabels(labels) && |labels| >= 2
    && !NumericLabel(labels[|labels| - 1]) && labels[|labels| - 1] !in names.specialUse
  }

  predicate PortOk(port: Option<nat>) {
    port.Some? ==> 1 <= port.value <= 65535 && port.value != DEFAULT_PORT
  }

  predicate SourceOk(s: Source, names: Names) {
    HostOk(s.host, names) && PortOk(s.port) && (s.wildcard ==> names.registrable(s.host))
  }

  /** The port that a source names. */
  function EffectivePort(port: Option<nat>): nat { if port.None? then DEFAULT_PORT else port.value }

  /** The texts for a port: the default one may be left out or written. */
  predicate SpellsPort(text: string, port: Option<nat>) {
    (port.None? && text == "") || text == ":" + Decimal(EffectivePort(port))
  }

  predicate SpelledAuthority(authority: string, s: Source, hostText: string, portText: string) {
    authority == hostText + portText && Lower(hostText) == Star(s.wildcard) + s.host && SpellsPort(portText, s.port)
  }

  predicate SpelledBy(v: string, s: Source, schemeText: string, authority: string, hostText: string, portText: string) {
    && v == schemeText + "://" + authority && Lower(schemeText) == SchemeName(s.scheme)
    && SpelledAuthority(authority, s, hostText, portText)
  }

  /** `v` is a spelling of the source: scheme and host in any case. */
  ghost predicate Spells(v: string, s: Source) {
    exists schemeText, authority, hostText, portText :: SpelledBy(v, s, schemeText, authority, hostText, portText)
  }

  ghost predicate Accepts(v: string, s: Source, directive: Directive, names: Names) {
    && Spells(v, s) && |v| <= MAX_LENGTH && SourceOk(s, names)
    && (s.scheme.Wss? ==> directive.ConnectDomains?)
  }

  // ----- the parser meets the grammar --------------------------------------------------

  predicate HostChar(c: char) { AlphaNum(c) || c == '.' || c == '-' }

  lemma {:induction false} LabelsGiveChars(host: string)
    requires HostLabels(Split(host, '.'))
    ensures forall i :: 0 <= i < |host| ==> HostChar(host[i])
    decreases |host|
  {
    var i := Find(host, '.');
    var labels := Split(host, '.');
    assert HostLabel(labels[0]) && labels[0] == host[..i];
    if i < |host| {
      assert labels[1..] == Split(host[i + 1..], '.');
      LabelsGiveChars(host[i + 1..]);
      forall k | 0 <= k < |host| ensures HostChar(host[k]) {
        if k < i { assert host[k] == labels[0][k]; }
        else if k > i { assert host[k] == host[i + 1..][k - i - 1]; }
      }
    } else {
      assert forall k :: 0 <= k < |host| ==> host[k] == labels[0][k];
    }
  }

  lemma HostErrorExactly(host: string, wildcard: bool, names: Names)
    ensures HostError(host, wildcard, names).None? <==> HostOk(host, names) && (wildcard ==> names.registrable(host))
  {
    if HostLabels(Split(host, '.')) { LabelsGiveChars(host); }
  }

  /** The host parser accepts exactly the spellings of a valid host. */
  lemma ParseHostExactly(hostText: string, scheme: Scheme, port: Option<nat>, names: Names, s: Source)
    ensures
      ParseHost(hostText, scheme, port, names) == Ok(Parsed(s, Normalized(s))) <==>
        && s.scheme == scheme && s.port == port
        && Lower(hostText) == Star(s.wildcard) + s.host && HostOk(s.host, names) && (s.wildcard ==> names.registrable(s.host))
  {
    var lower := Lower(hostText);
    var wildcard := StartsWithStar(lower);
    var host := if wildcard then lower[2..] else lower;
    HostErrorExactly(host, wildcard, names);
    assert lower == Star(wildcard) + host;
    if lower == Star(s.wildcard) + s.host && HostOk(s.host, names) {
      LabelsGiveChars(s.host);
      assert wildcard == s.wildcard && host == s.host;
    }
  }

  lemma ParsePortExactly(text: string, n: nat)
    ensures ParsePort(text) == Some(n) <==> 1 <= n <= 65535 && text == Decimal(n)
  {
    if ParsePort(text).Some? { DecimalOfParse(text); }
    if 1 <= n <= 65535 && text == Decimal(n) {
      assert Pow10(5) == 100000;
      DecimalLength(n, 5);
      DecimalStarts(n);
      ParseDecimalOfDecimal(n);
    }
  }

  predicate PlainChar(c: char) { c != '@' && c != '/' && c != '?' && c != '#' && c != '[' }

  lemma SpelledAuthorityChars(authority: string, names: Names, s: Source, hostText: string, portText: string)
    requires SpelledAuthority(authority, s, hostText, portText) && HostOk(s.host, names)
    ensures forall i :: 0 <= i < |hostText| ==> HostChar(LowerChar(hostText[i])) || hostText[i] == '*'
    ensures forall i :: 0 < i < |portText| ==> IsDigit(portText[i])
    ensures portText != "" ==> portText[0] == ':'
  {
    LabelsGiveChars(s.host);
    forall i | 0 <= i < |hostText| ensures HostChar(LowerChar(hostText[i])) || hostText[i] == '*' {
      var lower := Lower(hostText);
      assert lower[i] == (Star(s.wildcard) + s.host)[i];
      if s.wildcard && i >= 2 { assert lower[i] == s.host[i - 2]; }
      else if !s.wildcard { assert lower[i] == s.host[i]; }
    }
    if portText != "" {
      var n := EffectivePort(s.port);
      forall i | 0 < i < |portText| ensures IsDigit(portText[i]) { assert portText[i] == Decimal(n)[i - 1]; }
    }
  }

  predicate NameText(s: string) { forall i :: 0 <= i < |s| ==> PlainChar(s[i]) && s[i] != ':' }

  lemma SplitAtPort(hostText: string, digits: string, port: nat)
    requires NameText(hostText) && NameText(digits) && ParsePort(digits) == Some(port)
    ensures SplitAuthority(hostText + ":" + digits) == Ok((hostText, if port == DEFAULT_PORT then None else Some(port)))
  {
    var authority := hostText + ":" + digits;
    var colon := |hostText|;
    forall i | 0 <= i < |authority| ensures PlainChar(authority[i]) && (authority[i] == ':' <==> i == colon) {
      if i < colon { assert authority[i] == hostText[i]; }
      else if i > colon { assert authority[i] == digits[i - colon - 1]; }
    }
    assert authority[colon] == ':';
    assert LastIndexOf(authority, ':') == colon;
    assert authority[..colon] == hostText && authority[colon + 1..] == digits;
    assert ':' !in hostText;
  }

  lemma SplitAuthorityComplete(hostText: string, portText: string, port: Option<nat>)
    requires NameText(hostText) && SpellsPort(portText, port) && PortOk(port)
    ensures SplitAuthority(hostText + portText) == Ok((hostText, port))
  {
    if portText == "" {
      assert hostText + portText == hostText;
    } else {
      var n := EffectivePort(port);
      var digits := Decimal(n);
      ParsePortExactly(digits, n);
      assert hostText + portText == hostText + ":" + digits;
      SplitAtPort(hostText, digits, n);
    }
  }

  lemma SplitAuthoritySound(authority: string, hostText: string, port: Option<nat>) returns (portText: string)
    requires SplitAuthority(authority) == Ok((hostText, port))
    ensures authority == hostText + portText && SpellsPort(portText, port) && PortOk(port)
  {
    var colon := LastIndexOf(authority, ':');
    if colon < 0 {
      portText := "";
    } else {
      portText := authority[colon..];
      var text := authority[colon + 1..];
      ParsePortExactly(text, ParsePort(text).value);
      assert portText == ":" + text;
    }
    assert authority == hostText + portText;
  }

  lemma SplitSchemeComplete(schemeText: string, rest: string, scheme: Scheme)
    requires Lower(schemeText) == SchemeName(scheme)
    ensures SplitScheme(schemeText + "://" + rest) == Some((scheme, rest))
  {
    SchemeLetters(schemeText, scheme);
    var v := schemeText + "://" + rest;
    assert v == schemeText + ("://" + rest);
    FindAfter(schemeText, "://" + rest, ':');
    var colon := |schemeText|;
    assert v[..colon] == schemeText && v[colon..colon + 3] == "://" && v[colon + 3..] == rest;
  }

  lemma SplitSchemeSound(v: string, scheme: Scheme, rest: string) returns (schemeText: string)
    requires SplitScheme(v) == Some((scheme, rest))
    ensures v == schemeText + "://" + rest && Lower(schemeText) == SchemeName(scheme)
  {
    var colon := Find(v, ':');
    schemeText := v[..colon];
    assert v == v[..colon] + v[colon..colon + 3] + v[colon + 3..];
  }

  lemma PiecesSpell(v: string, s: Source, authority: string, hostText: string)
    requires SplitScheme(v) == Some((s.scheme, authority)) && SplitAuthority(authority) == Ok((hostText, s.port))
    requires Lower(hostText) == Star(s.wildcard) + s.host
    ensures Spells(v, s) && PortOk(s.port)
  {
    var schemeText := SplitSchemeSound(v, s.scheme, authority);
    var portText := SplitAuthoritySound(authority, hostText, s.port);
    assert SpelledBy(v, s, schemeText, authority, hostText, portText);
  }

  lemma ReadPiecesSpell(
    v: string, scheme: Scheme, authority: string, hostText: string, port: Option<nat>, names: Names, p: Parsed)
    requires SplitScheme(v) == Some((scheme, authority)) && SplitAuthority(authority) == Ok((hostText, port))
    requires ParseHost(hostText, scheme, port, names) == Ok(p)
    ensures p.normalized == Normalized(p.source) && p.source.scheme == scheme
    ensures Spells(v, p.source) && SourceOk(p.source, names)
  {
    ParseHostExactly(hostText, scheme, port, names, p.source);
    PiecesSpell(v, p.source, authority, hostText);
  }

  /** The parser accepts nothing but spellings of valid sources, and reads the source that is spelled. */
  lemma ParseSound(v: string, directive: Directive, names: Names)
    requires Parse(Str(v), directive, names).Ok?
    ensures
      var p := Parse(Str(v), directive, names).value;
      p.normalized == Normalized(p.source) && Accepts(v, p.source, directive, names)
  {
    var (scheme, authority) := SplitScheme(v).value;
    var (hostText, port) := SplitAuthority(authority).value;
    ReadPiecesSpell(v, scheme, authority, hostText, port, names, ParseHost(hostText, scheme, port, names).value);
  }

  lemma SchemeLetters(schemeText: string, s: Scheme)
    requires Lower(schemeText) == SchemeName(s)
    ensures forall i :: 0 <= i < |schemeText| ==> 'a' <= LowerChar(schemeText[i]) <= 'z'
    ensures ':' !in schemeText
  {
    forall i | 0 <= i < |schemeText| ensures 'a' <= LowerChar(schemeText[i]) <= 'z' {
      assert LowerChar(schemeText[i]) == SchemeName(s)[i];
    }
  }

  lemma SpelledAuthorityClean(authority: string, names: Names, s: Source, hostText: string, portText: string)
    requires SpelledAuthority(authority, s, hostText, portText) && HostOk(s.host, names)
    ensures Clean(authority)
  {
    SpelledAuthorityChars(authority, names, s, hostText, portText);
    forall i | 0 <= i < |authority| ensures !Forbidden(authority[i]) {
      if i < |hostText| { assert authority[i] == hostText[i]; } else { assert authority[i] == portText[i - |hostText|]; }
    }
  }

  lemma CleanText(schemeText: string, scheme: Scheme, authority: string)
    requires Lower(schemeText) == SchemeName(scheme) && Clean(authority)
    ensures Clean(schemeText + "://" + authority)
  {
    SchemeLetters(schemeText, scheme);
    var v, n := schemeText + "://" + authority, |schemeText|;
    forall i | 0 <= i < |v| ensures !Forbidden(v[i]) {
      if i < n { assert v[i] == schemeText[i]; }
      else if i >= n + 3 { assert v[i] == authority[i - n - 3]; }
    }
  }

  lemma AuthorityPieces(authority: string, s: Source, hostText: string, portText: string, names: Names)
    requires SpelledAuthority(authority, s, hostText, portText) && SourceOk(s, names)
    ensures SplitAuthority(authority) == Ok((hostText, s.port))
  {
    SpelledAuthorityChars(authority, names, s, hostText, portText);
    assert NameText(hostText);
    SplitAuthorityComplete(hostText, portText, s.port);
  }

  lemma ParseByPieces(v: string, scheme: Scheme, authority: string, hostText: string, port: Option<nat>,
    directive: Directive, names: Names, r: Result<Parsed, Error>)
    requires 0 < |v| <= MAX_LENGTH && Clean(v) && (scheme.Wss? ==> directive.ConnectDomains?)
    requires SplitScheme(v) == Some((scheme, authority)) && SplitAuthority(authority) == Ok((hostText, port))
    requires ParseHost(hostText, scheme, port, names) == r
    ensures Parse(Str(v), directive, names) == r
  {
  }

  /** Every spelling of a valid source is accepted and read as that source. */
  lemma ParseComplete(v: string, s: Source, directive: Directive, names: Names)
    requires Accepts(v, s, directive, names)
    ensures Parse(Str(v), directive, names) == Ok(Parsed(s, Normalized(s)))
  {
    var schemeText, authority, hostText, portText :| SpelledBy(v, s, schemeText, authority, hostText, portText);
    SpelledAuthorityClean(authority, names, s, hostText, portText);
    CleanText(schemeText, s.scheme, authority);
    SplitSchemeComplete(schemeText, authority, s.scheme);
    AuthorityPieces(authority, s, hostText, portText, names);
    assert ParseHost(hostText, s.scheme, s.port, names) == Ok(Parsed(s, Normalized(s))) by {
      ParseHostExactly(hostText, s.scheme, s.port, names, s);
    }
    ParseByPieces(v, s.scheme, authority, hostText, s.port, directive, names, Ok(Parsed(s, Normalized(s))));
  }

  lemma NormalizedSpells(s: Source, names: Names)
    requires HostOk(s.host, names)
    ensures Spells(Normalized(s), s)
  {
    var hostText := Star(s.wildcard) + s.host;
    LabelsGiveChars(s.host);
    assert Lower(hostText) == hostText;
    assert Lower(SchemeName(s.scheme)) == SchemeName(s.scheme);
    var authority := hostText + PortText(s.port);
    assert Normalized(s) == SchemeName(s.scheme) + "://" + authority;
    assert SpelledBy(Normalized(s), s, SchemeName(s.scheme), authority, hostText, PortText(s.port));
  }

  /** The normal form of an accepted text is accepted and is its own normal form. */
  lemma NormalFormIsFixed(v: string, directive: Directive, names: Names)
    requires Parse(Str(v), directive, names).Ok?
    ensures
      var p := Parse(Str(v), directive, names).value;
      Parse(Str(p.normalized), directive, names) == Ok(p)
  {
    ParseSound(v, directive, names);
    var s := Parse(Str(v), directive, names).value.source;
    NormalizedSpells(s, names);
    var schemeText, authority, hostText, portText :| SpelledBy(v, s, schemeText, authority, hostText, portText);
    assert |v| == |SchemeName(s.scheme)| + 3 + |Star(s.wildcard) + s.host| + |portText|;
    assert |Normalized(s)| <= |v|;
    ParseComplete(Normalized(s), s, directive, names);
  }

  /** Two accepted texts with one normal form are the same source, whatever lists they came from. */
  lemma NormalFormDecides(v: string, d: Directive, w: string, e: Directive, names: Names)
    requires Parse(Str(v), d, names).Ok? && Parse(Str(w), e, names).Ok?
    requires Parse(Str(v), d, names).value.normalized == Parse(Str(w), e, names).value.normalized
    ensures Parse(Str(v), d, names).value == Parse(Str(w), e, names).value
  {
    var p, q := Parse(Str(v), d, names).value, Parse(Str(w), e, names).value;
    NormalFormIsFixed(v, d, names);
    NormalFormIsFixed(w, e, names);
    assert Parse(Str(p.normalized), d, names) == Ok(p) && Parse(Str(p.normalized), e, names) == Ok(q);
  }

  /** The parser and the grammar agree on every text and every source. */
  lemma ParseExactly(v: string, s: Source, directive: Directive, names: Names)
    ensures Parse(Str(v), directive, names) == Ok(Parsed(s, Normalized(s))) <==> Accepts(v, s, directive, names)
  {
    if Parse(Str(v), directive, names) == Ok(Parsed(s, Normalized(s))) { ParseSound(v, directive, names); }
    if Accepts(v, s, directive, names) { ParseComplete(v, s, directive, names); }
  }

  /** Two good labels make a host. */
  lemma TwoLabelHost(name: string, top: string, names: Names)
    requires HostLabel(name) && HostLabel(top) && !NumericLabel(top) && top !in names.specialUse
    ensures HostOk(name + ['.'] + top, names)
  {
    assert '.' !in name && '.' !in top;
    SplitFirst(name, top, '.');
    SplitWhole(top, '.');
    assert [name] + [top] == [name, top];
  }

  lemma PortTextLength(port: Option<nat>)
    requires PortOk(port)
    ensures |PortText(port)| <= 6
  {
    assert Pow10(5) == 100000;
    if port.Some? { DecimalLength(port.value, 5); }
  }

  /** With the names in use, an accepted source never has a number or a reserved name as its top label. */
  lemma ReservedNamesNeverPass(v: string, directive: Directive, registrable: string -> bool)
    requires Parse(Str(v), directive, Deployed(registrable)).Ok?
    ensures var labels := Split(Parse(Str(v), directive, Deployed(registrable)).value.source.host, '.');
      labels[|labels| - 1] !in SPECIAL_USE_LABELS && !NumericLabel(labels[|labels| - 1])
  {
    ReservedIn(v, directive, Deployed(registrable));
  }

  lemma ReservedIn(v: string, directive: Directive, names: Names)
    requires Parse(Str(v), directive, names).Ok?
    ensures var labels := Split(Parse(Str(v), directive, names).value.source.host, '.');
      labels[|labels| - 1] !in names.specialUse && !NumericLabel(labels[|labels| - 1])
  {
    ParseSound(v, directive, names);
    PublicTop(Parse(Str(v), directive, names).value.source, names);
  }

  lemma PublicTop(s: Source, names: Names)
    requires SourceOk(s, names)
    ensures var labels := Split(s.host, '.');
      labels[|labels| - 1] !in names.specialUse && !NumericLabel(labels[|labels| - 1])
  {}

  /** The length limit shuts out no valid source: each one is read back from its normal form. */
  lemma NormalFormIsRead(s: Source, directive: Directive, names: Names)
    requires SourceOk(s, names) && (s.scheme.Wss? ==> directive.ConnectDomains?)
    ensures Parse(Str(Normalized(s)), directive, names) == Ok(Parsed(s, Normalized(s)))
  {
    PortTextLength(s.port);
    NormalizedSpells(s, names);
    ParseComplete(Normalized(s), s, directive, names);
  }

  // ----- refusals ---------------------------------------------------------------------------

  /** The text is a scheme name in any case, the separator and this. */
  ghost predicate After(v: string, scheme: Scheme, authority: string) {
    exists schemeText :: v == schemeText + "://" + authority && Lower(schemeText) == SchemeName(scheme)
  }

  /** The host of an authority, without a star and in lower case. */
  ghost predicate HostOf(authority: string, host: string, wildcard: bool) {
    exists hostText, portText :: authority == hostText + portText && (portText == "" || portText[0] == ':')
      && Lower(hostText) == Star(wildcard) + host
  }

  predicate TopLabel(host: string, top: string) {
    var labels := Split(host, '.');
    labels[|labels| - 1] == top
  }

  /** What is wrong with a host that is refused for this reason. */
  ghost predicate HostRefused(error: Error, host: string, wildcard: bool, names: Names) {
    match error
    case BadWildcard => '*' in host
    case IpAddress => exists top :: TopLabel(host, top) && NumericLabel(top)
    case SpecialUseHost => exists top :: TopLabel(host, top) && top in names.specialUse
    case PublicSuffixWildcard => wildcard && ('.' !in host || !names.registrable(host))
    case BadHost => |host| > 253 || !HostLabels(Split(host, '.')) || '.' !in host
    case _ => false
  }

  ghost predicate AuthorityRefused(error: Error, authority: string, names: Names) {
    match error
    case UserInfo => '@' in authority
    case PathGiven => '/' in authority || '?' in authority || '#' in authority
    case BadPort => exists hostText, text :: authority == hostText + ":" + text && forall n :: ParsePort(text) != Some(n)
    case IpAddress =>
      || (authority != "" && authority[0] == '[')
      || (exists a, b, c :: authority == a + ":" + b + ":" + c)
      || (exists host, wildcard :: HostOf(authority, host, wildcard) && HostRefused(error, host, wildcard, names))
    case _ => exists host, wildcard :: HostOf(authority, host, wildcard) && HostRefused(error, host, wildcard, names)
  }

  /** Every refusal names something that is wrong with the value. */
  ghost predicate RefusalIsTrue(error: Error, value: Value, directive: Directive, names: Names) {
    match error
    case NotAString => value == NotText
    case Empty => value == Str("")
    case TooLong => value.Str? && |value.text| > 300
    case ForbiddenCharacters => value.Str? && exists i :: 0 <= i < |value.text| && Forbidden(value.text[i])
    case SchemeNotAllowed => value.Str? &&
      forall scheme, authority :: After(value.text, scheme, authority) ==> scheme == Wss && directive != ConnectDomains
    case _ => value.Str? && exists scheme, authority :: After(value.text, scheme, authority) && AuthorityRefused(error, authority, names)
  }

  lemma OneLabel(host: string)
    ensures |Split(host, '.')| < 2 ==> '.' !in host
  {
    if '.' in host { AtFirst(host, '.'); }
  }

  lemma HostErrorIsTrue(host: string, wildcard: bool, names: Names)
    requires HostError(host, wildcard, names).Some?
    ensures HostRefused(HostError(host, wildcard, names).value, host, wildcard, names)
  {
    var labels := Split(host, '.');
    var top := labels[|labels| - 1];
    assert TopLabel(host, top);
    OneLabel(host);
  }

  lemma ParseHostErrorIsTrue(authority: string, hostText: string, portText: string, scheme: Scheme, port: Option<nat>, names: Names)
    requires authority == hostText + portText && (portText == "" || portText[0] == ':')
    requires ParseHost(hostText, scheme, port, names).Err?
    ensures AuthorityRefused(ParseHost(hostText, scheme, port, names).error, authority, names)
  {
    var lower := Lower(hostText);
    var wildcard := StartsWithStar(lower);
    var host := if wildcard then lower[2..] else lower;
    HostErrorIsTrue(host, wildcard, names);
    assert Lower(hostText) == Star(wildcard) + host;
    assert HostOf(authority, host, wildcard);
  }

  lemma AuthorityErrorIsTrue(authority: string, names: Names)
    requires SplitAuthority(authority).Err?
    ensures AuthorityRefused(SplitAuthority(authority).error, authority, names)
  {
    var colon := LastIndexOf(authority, ':');
    if colon >= 0 {
      var left, text := authority[..colon], authority[colon + 1..];
      assert authority == left + ":" + text;
      if ':' in left {
        var i :| 0 <= i < |left| && left[i] == ':';
        assert left == left[..i] + ":" + left[i + 1..];
        assert authority == left[..i] + ":" + left[i + 1..] + ":" + text;
      }
    }
  }

  lemma RefusalHasReason(value: Value, directive: Directive, names: Names)
    requires Parse(value, directive, names).Err?
    ensures RefusalIsTrue(Parse(value, directive, names).error, value, directive, names)
  {
    if value.Str? && 0 < |value.text| <= MAX_LENGTH && Clean(value.text) {
      var v := value.text;
      forall scheme, authority | After(v, scheme, authority) ensures SplitScheme(v) == Some((scheme, authority)) {
        var schemeText :| v == schemeText + "://" + authority && Lower(schemeText) == SchemeName(scheme);
        SplitSchemeComplete(schemeText, authority, scheme);
      }
      if SplitScheme(v).Some? {
        var (scheme, authority) := SplitScheme(v).value;
        var schemeText := SplitSchemeSound(v, scheme, authority);
        assert After(v, scheme, authority);
        if SplitAuthority(authority).Err? {
          AuthorityErrorIsTrue(authority, names);
        } else {
          var (hostText, port) := SplitAuthority(authority).value;
          var portText := SplitAuthoritySound(authority, hostText, port);
          if ParseHost(hostText, scheme, port, names).Err? {
            ParseHostErrorIsTrue(authority, hostText, portText, scheme, port, names);
          }
        }
      }
    }
  }
}
