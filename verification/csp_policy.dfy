/** What an approved source allows, and limiting a widget's declaration to the approvals. */
module CspPolicy {
  import opened Wrappers
  import opened Text
  import opened CspSources

  const MAX_SOURCES := 25

  // ----- covering ----------------------------------------------------------------

  predicate EndsWith(s: string, t: string) { |t| <= |s| && s[|s| - |t|..] == t }

  /** Same scheme and port, and every host of `declared` is a host of `approved`. */
  predicate Covers(approved: Source, declared: Source) {
    if approved.scheme != declared.scheme || approved.port != declared.port then false
    else if !approved.wildcard then !declared.wildcard && declared.host == approved.host
    else if declared.host == approved.host then declared.wildcard
    else EndsWith(declared.host, ['.'] + approved.host)
  }

  /** What a browser asks for: a scheme, the labels of a host, and a port. */
  datatype Url = Url(scheme: Scheme, labels: seq<string>, port: nat)

  predicate LabelSuffix(labels: seq<string>, base: seq<string>) {
    |base| <= |labels| && labels[|labels| - |base|..] == base
  }

  /** The addresses of a source: the host itself, or one or more labels before it. */
  predicate Matches(s: Source, u: Url) {
    var base := Split(s.host, '.');
    && u.scheme == s.scheme && u.port == EffectivePort(s.port)
    && (if s.wildcard then |u.labels| > |base| && LabelSuffix(u.labels, base) else u.labels == base)
  }

  ghost predicate Includes(a: Source, d: Source) {
    forall u: Url :: HostLabels(u.labels) && Matches(d, u) ==> Matches(a, u)
  }

  lemma BelowByText(x: string, h: string)
    ensures
      var below, base := Split(x + ['.'] + h, '.'), Split(h, '.');
      |base| < |below| && LabelSuffix(below, base)
  {
    SplitAppend(x, h, '.');
    assert (Split(x, '.') + Split(h, '.'))[|Split(x, '.')|..] == Split(h, '.');
  }

  lemma TextEndsWith(x: string, h: string)
    ensures EndsWith(x + ['.'] + h, ['.'] + h)
  {
    assert (x + ['.'] + h)[|x|..] == ['.'] + h;
  }

  lemma BelowByLabels(g: string, h: string, before: seq<string>)
    requires Split(g, '.') == before + Split(h, '.') && before != []
    ensures EndsWith(g, ['.'] + h)
  {
    JoinAppend(before, Split(h, '.'), '.');
    JoinSplit(g, '.');
    JoinSplit(h, '.');
    TextEndsWith(Join(before, '.'), h);
  }

  /** The string test for a name below another one is the test on labels. */
  lemma EndsWithIsProperLabelSuffix(g: string, h: string)
    ensures EndsWith(g, ['.'] + h) <==>
      |Split(h, '.')| < |Split(g, '.')| && LabelSuffix(Split(g, '.'), Split(h, '.'))
  {
    if EndsWith(g, ['.'] + h) {
      var x := g[..|g| - |h| - 1];
      assert g == x + ['.'] + h;
      BelowByText(x, h);
    }
    var below, base := Split(g, '.'), Split(h, '.');
    if |base| < |below| && LabelSuffix(below, base) {
      assert below == below[..|below| - |base|] + base;
      BelowByLabels(g, h, below[..|below| - |base|]);
    }
  }

  lemma SplitInjective(g: string, h: string)
    requires Split(g, '.') == Split(h, '.')
    ensures g == h
  {
    JoinSplit(g, '.');
    JoinSplit(h, '.');
  }

  /** Covering seen on labels alone. */
  predicate CoversLabels(a: Source, d: Source) {
    var below, base := Split(d.host, '.'), Split(a.host, '.');
    && a.scheme == d.scheme && EffectivePort(a.port) == EffectivePort(d.port)
    && (if a.wildcard then LabelSuffix(below, base) && (d.wildcard || |below| > |base|) else !d.wildcard && below == base)
  }

  lemma CoversOnLabels(a: Source, d: Source)
    requires PortOk(a.port) && PortOk(d.port)
    ensures Covers(a, d) <==> CoversLabels(a, d)
  {
    EndsWithIsProperLabelSuffix(d.host, a.host);
    var below, base := Split(d.host, '.'), Split(a.host, '.');
    if below == base { SplitInjective(d.host, a.host); }
    if |below| == |base| && LabelSuffix(below, base) { assert below[0..] == below; }
  }

  lemma LabelSuffixTrans(labels: seq<string>, below: seq<string>, base: seq<string>)
    requires LabelSuffix(labels, below) && LabelSuffix(below, base)
    ensures LabelSuffix(labels, base)
  {
    assert labels[|labels| - |base|..] == labels[|labels| - |below|..][|below| - |base|..];
  }

  lemma OneMoreLabel(below: seq<string>, base: seq<string>, name: string)
    ensures LabelSuffix([name] + below, below)
    ensures |base| <= |below| && LabelSuffix([name] + below, base) ==> LabelSuffix(below, base)
  {
    var more := [name] + below;
    assert more[1..] == below;
    if |base| <= |below| { assert more[|more| - |base|..] == below[|below| - |base|..]; }
  }

  lemma LabelsInclude(a: Source, d: Source)
    requires CoversLabels(a, d)
    ensures Includes(a, d)
  {
    var below, base := Split(d.host, '.'), Split(a.host, '.');
    forall u: Url | Matches(d, u) ensures Matches(a, u) {
      if a.wildcard && d.wildcard { LabelSuffixTrans(u.labels, below, base); }
    }
  }

  lemma IncludesLabels(a: Source, d: Source)
    requires Includes(a, d) && HostLabels(Split(d.host, '.'))
    ensures CoversLabels(a, d)
  {
    var below, base, port := Split(d.host, '.'), Split(a.host, '.'), EffectivePort(d.port);
    if d.wildcard {
      var one, two := Url(d.scheme, ["a"] + below, port), Url(d.scheme, ["b"] + below, port);
      OneMoreLabel(below, base, "a");
      OneMoreLabel(below, base, "b");
      assert HostLabel("a") && HostLabel("b");
      assert Matches(d, one) && Matches(d, two);
      assert Matches(a, one) && Matches(a, two);
      assert one.labels[0] != two.labels[0];
    } else {
      assert Matches(d, Url(d.scheme, below, port));
    }
  }

  /** One source covers another exactly when it matches every address that the other matches. */
  lemma CoversExactly(a: Source, d: Source)
    requires PortOk(a.port) && PortOk(d.port) && HostLabels(Split(d.host, '.'))
    ensures Covers(a, d) <==> Includes(a, d)
  {
    CoversOnLabels(a, d);
    if CoversLabels(a, d) { LabelsInclude(a, d); }
    if Includes(a, d) { IncludesLabels(a, d); }
  }

  // ----- declarations -----------------------------------------------------------------

  /** One property of a declaration object. */
  datatype Property = NotAList | List(values: seq<Value>)

  datatype Declaration = NotAnObject | Object(properties: map<Directive, Property>)

  datatype Entry = Entry(directive: Directive, source: string)

  const DIRECTIVES: seq<Directive> := [ResourceDomains, ConnectDomains, FrameDomains, BaseUriDomains]

  /** The first values of one list; None when the widget did not declare it. */
  function ListOf(declared: Declaration, directive: Directive): (values: Option<seq<Value>>)
    ensures values.Some? ==> |values.value| <= MAX_SOURCES
  {
    if declared.NotAnObject? || directive !in declared.properties || declared.properties[directive].NotAList? then None
    else
      var values := declared.properties[directive].values;
      Some(if |values| <= MAX_SOURCES then values else values[..MAX_SOURCES])
  }

  /** The texts that the values offer, without duplicates, in order of first appearance. */
  function Collect(values: seq<Value>, offer: Value -> Option<string>): seq<string> {
    if values == [] then [] else
    var n := |values| - 1;
    var before := Collect(values[..n], offer);
    var s := offer(values[n]);
    if s.Some? && s.value !in before then before + [s.value] else before
  }

  /** What the entries pick, in order. */
  function PickAll(entries: seq<Entry>, pick: Entry -> Option<Source>): seq<Source> {
    if entries == [] then [] else
    var n := |entries| - 1;
    var s := pick(entries[n]);
    PickAll(entries[..n], pick) + (if s.Some? then [s.value] else [])
  }

  /** The source of an approval of this list; None for another list or a bad text. */
  function ReadEntry(e: Entry, directive: Directive, names: Names): Option<Source> {
    if e.directive != directive then None else
    match Parse(Str(e.source), directive, names)
    case Err(_) => None
    case Ok(p) => Some(p.source)
  }

  function Approved(approved: seq<Entry>, directive: Directive, names: Names): seq<Source> {
    PickAll(approved, e => ReadEntry(e, directive, names))
  }

  predicate Covered(sources: seq<Source>, d: Source) {
    exists i :: 0 <= i < |sources| && Covers(sources[i], d)
  }

  /** The normal form of a good value. */
  function Good(value: Value, directive: Directive, names: Names): Option<string> {
    match Parse(value, directive, names)
    case Err(_) => None
    case Ok(p) => Some(p.normalized)
  }

  /** The normal form of a good value that some source covers. */
  function GoodAndCovered(value: Value, directive: Directive, names: Names, sources: seq<Source>): Option<string> {
    match Parse(value, directive, names)
    case Err(_) => None
    case Ok(p) => if Covered(sources, p.source) then Some(p.normalized) else None
  }

  function Allowed(values: seq<Value>, directive: Directive, names: Names, sources: seq<Source>): seq<string> {
    Collect(values, v => GoodAndCovered(v, directive, names, sources))
  }

  /** What a widget may use. A list it did not declare stays absent. */
  function Intersection(declared: Declaration, approved: seq<Entry>, names: Names): map<Directive, seq<string>> {
    map d | d in DIRECTIVES && ListOf(declared, d).Some? ::
      Allowed(ListOf(declared, d).value, d, names, Approved(approved, d, names))
  }

  method ApprovedSources(approved: seq<Entry>, directive: Directive, names: Names) returns (sources: seq<Source>)
    ensures sources == Approved(approved, directive, names)
  {
    sources := [];
    for i := 0 to |approved|
      invariant sources == Approved(approved[..i], directive, names)
    {
      assert approved[..i + 1][..i] == approved[..i];
      if approved[i].directive != directive { continue; }
      var result := Parse(Str(approved[i].source), directive, names);
      if result.Ok? { sources := sources + [result.value.source]; }
    }
    assert approved[..|approved|] == approved;
  }

  method AllowedSources(values: seq<Value>, sources: seq<Source>, directive: Directive, names: Names)
    returns (allowed: seq<string>)
    ensures allowed == Allowed(values, directive, names, sources)
  {
    allowed := [];
    for i := 0 to |values|
      invariant allowed == Allowed(values[..i], directive, names, sources)
    {
      assert values[..i + 1][..i] == values[..i];
      var result := Parse(values[i], directive, names);
      if result.Ok? && result.value.normalized !in allowed && Covered(sources, result.value.source) {
        allowed := allowed + [result.value.normalized];
      }
    }
    assert values[..|values|] == values;
  }

  method IntersectCspDeclarations(declared: Declaration, approved: seq<Entry>, names: Names)
    returns (csp: map<Directive, seq<string>>)
    ensures csp == Intersection(declared, approved, names)
  {
    csp := map[];
    for k := 0 to |DIRECTIVES|
      invariant csp == map d | d in DIRECTIVES[..k] && ListOf(declared, d).Some? ::
                         Allowed(ListOf(declared, d).value, d, names, Approved(approved, d, names))
    {
      var directive := DIRECTIVES[k];
      assert DIRECTIVES[..k + 1] == DIRECTIVES[..k] + [directive];
      var values := ListOf(declared, directive);
      if values.Some? {
        var sources := ApprovedSources(approved, directive, names);
        var allowed := AllowedSources(values.value, sources, directive, names);
        csp := csp[directive := allowed];
      }
    }
    assert DIRECTIVES[..|DIRECTIVES|] == DIRECTIVES;
  }

  function EntriesOf(sources: seq<string>, directive: Directive): seq<Entry> {
    seq(|sources|, i requires 0 <= i < |sources| => Entry(directive, sources[i]))
  }

  /** The good sources of one list. */
  function Declared(declared: Declaration, directive: Directive, names: Names): seq<string> {
    var values := ListOf(declared, directive);
    Collect(if values.Some? then values.value else [], v => Good(v, directive, names))
  }

  /** One entry for each source of each list, list after list. */
  function Grouped(directives: seq<Directive>, sources: Directive -> seq<string>): seq<Entry> {
    if directives == [] then [] else
    var n := |directives| - 1;
    Grouped(directives[..n], sources) + EntriesOf(sources(directives[n]), directives[n])
  }

  /** Every good source: what an administrator can approve. */
  function Approvable(declared: Declaration, names: Names): seq<Entry> {
    Grouped(DIRECTIVES, d => Declared(declared, d, names))
  }

  lemma CollectStep(values: seq<Value>, i: nat, offer: Value -> Option<string>)
    requires i < |values|
    ensures
      var before, s := Collect(values[..i], offer), offer(values[i]);
      Collect(values[..i + 1], offer) == if s.Some? && s.value !in before then before + [s.value] else before
  {
    assert values[..i + 1][..i] == values[..i];
  }

  lemma EntriesOfMore(sources: seq<string>, s: string, directive: Directive)
    ensures EntriesOf(sources + [s], directive) == EntriesOf(sources, directive) + [Entry(directive, s)]
  {}

  method DeclaredEntries(values: seq<Value>, directive: Directive, names: Names) returns (entries: seq<Entry>)
    ensures entries == EntriesOf(Collect(values, v => Good(v, directive, names)), directive)
  {
    entries := [];
    var seen: set<string> := {};
    for i := 0 to |values|
      invariant
        var done := Collect(values[..i], v => Good(v, directive, names));
        entries == EntriesOf(done, directive) && forall s :: s in seen <==> s in done
    {
      CollectStep(values, i, v => Good(v, directive, names));
      ghost var done := Collect(values[..i], v => Good(v, directive, names));
      var result := Parse(values[i], directive, names);
      if result.Ok? && result.value.normalized !in seen {
        EntriesOfMore(done, result.value.normalized, directive);
        seen := seen + {result.value.normalized};
        entries := entries + [Entry(directive, result.value.normalized)];
      }
    }
    assert values[..|values|] == values;
  }

  method ParseCspDeclarations(declared: Declaration, names: Names) returns (entries: seq<Entry>)
    ensures entries == Approvable(declared, names)
  {
    entries := [];
    for k := 0 to |DIRECTIVES|
      invariant entries == Grouped(DIRECTIVES[..k], d => Declared(declared, d, names))
    {
      assert DIRECTIVES[..k + 1][..k] == DIRECTIVES[..k];
      var values := ListOf(declared, DIRECTIVES[k]);
      var more := DeclaredEntries(if values.Some? then values.value else [], DIRECTIVES[k], names);
      entries := entries + more;
    }
    assert DIRECTIVES[..|DIRECTIVES|] == DIRECTIVES;
  }

  // ----- collecting -----------------------------------------------------------------------

  ghost predicate Offered(values: seq<Value>, offer: Value -> Option<string>, s: string) {
    exists i :: 0 <= i < |values| && offer(values[i]) == Some(s)
  }

  lemma {:induction false} CollectExactly(values: seq<Value>, offer: Value -> Option<string>, s: string)
    ensures s in Collect(values, offer) <==> Offered(values, offer, s)
    ensures |Collect(values, offer)| <= |values|
  {
    if values != [] {
      var n := |values| - 1;
      CollectExactly(values[..n], offer, s);
      assert Offered(values[..n], offer, s) ==> Offered(values, offer, s) by {
        if Offered(values[..n], offer, s) {
          var i :| 0 <= i < n && offer(values[..n][i]) == Some(s);
          assert offer(values[i]) == Some(s);
        }
      }
      if Offered(values, offer, s) {
        var i :| 0 <= i < |values| && offer(values[i]) == Some(s);
        assert i < n ==> offer(values[..n][i]) == Some(s);
      }
    }
  }

  ghost predicate Distinct(sources: seq<string>) {
    forall i, j :: 0 <= i < j < |sources| ==> sources[i] != sources[j]
  }

  lemma {:induction false} CollectDistinct(values: seq<Value>, offer: Value -> Option<string>)
    ensures Distinct(Collect(values, offer))
  {
    if values != [] { CollectDistinct(values[..|values| - 1], offer); }
  }

  function AsValues(sources: seq<string>): seq<Value> {
    seq(|sources|, i requires 0 <= i < |sources| => Str(sources[i]))
  }

  lemma {:induction false} CollectAll(sources: seq<string>, offer: Value -> Option<string>)
    requires Distinct(sources)
    requires forall i :: 0 <= i < |sources| ==> offer(Str(sources[i])) == Some(sources[i])
    ensures Collect(AsValues(sources), offer) == sources
  {
    if sources != [] {
      var n := |sources| - 1;
      assert AsValues(sources)[..n] == AsValues(sources[..n]);
      CollectAll(sources[..n], offer);
      assert sources == sources[..n] + [sources[n]];
    }
  }

  lemma {:induction false} PickedExactly(entries: seq<Entry>, pick: Entry -> Option<Source>, s: Source)
    ensures s in PickAll(entries, pick) <==> exists i :: 0 <= i < |entries| && pick(entries[i]) == Some(s)
  {
    if entries != [] {
      var n := |entries| - 1;
      PickedExactly(entries[..n], pick, s);
      if s in PickAll(entries[..n], pick) {
        var i :| 0 <= i < n && pick(entries[..n][i]) == Some(s);
        assert pick(entries[i]) == Some(s);
      }
      if i :| 0 <= i < n && pick(entries[i]) == Some(s) {
        assert pick(entries[..n][i]) == Some(s);
      }
    }
  }

  // ----- the intersection, end to end --------------------------------------------------

  /** Some approval of the list allows every address of the source. */
  ghost predicate AllowedBy(approved: seq<Entry>, directive: Directive, names: Names, d: Source) {
    exists i :: 0 <= i < |approved| && EntryAllows(approved[i], directive, names, d)
  }

  ghost predicate EntryAllows(e: Entry, directive: Directive, names: Names, d: Source) {
    var a := ReadEntry(e, directive, names);
    a.Some? && Includes(a.value, d)
  }

  lemma EntryCovers(e: Entry, directive: Directive, names: Names, a: Source, d: Source)
    requires ReadEntry(e, directive, names) == Some(a) && SourceOk(d, names)
    ensures Covers(a, d) <==> EntryAllows(e, directive, names, d)
  {
    ParseSound(e.source, directive, names);
    CoversExactly(a, d);
  }

  lemma CoveredExactly(approved: seq<Entry>, directive: Directive, names: Names, d: Source)
    requires SourceOk(d, names)
    ensures Covered(Approved(approved, directive, names), d) <==> AllowedBy(approved, directive, names, d)
  {
    var sources := Approved(approved, directive, names);
    if Covered(sources, d) {
      var k :| 0 <= k < |sources| && Covers(sources[k], d);
      PickedExactly(approved, e => ReadEntry(e, directive, names), sources[k]);
      var i :| 0 <= i < |approved| && ReadEntry(approved[i], directive, names) == Some(sources[k]);
      EntryCovers(approved[i], directive, names, sources[k], d);
    }
    if AllowedBy(approved, directive, names, d) {
      var i :| 0 <= i < |approved| && EntryAllows(approved[i], directive, names, d);
      var a := ReadEntry(approved[i], directive, names).value;
      EntryCovers(approved[i], directive, names, a, d);
      PickedExactly(approved, e => ReadEntry(e, directive, names), a);
      var k :| 0 <= k < |sources| && sources[k] == a;
      assert Covers(sources[k], d);
    }
  }

  /** A good value for the source with normal form `s`, which the approvals of the list allow. */
  ghost predicate Allows(value: Value, approved: seq<Entry>, directive: Directive, names: Names, s: string) {
    var p := Parse(value, directive, names);
    p.Ok? && p.value.normalized == s && AllowedBy(approved, directive, names, p.value.source)
  }

  lemma KeptExactly(value: Value, approved: seq<Entry>, directive: Directive, names: Names, s: string)
    ensures GoodAndCovered(value, directive, names, Approved(approved, directive, names)) == Some(s)
            <==> Allows(value, approved, directive, names, s)
  {
    var p := Parse(value, directive, names);
    if p.Ok? {
      ParseSound(value.text, directive, names);
      CoveredExactly(approved, directive, names, p.value.source);
    }
  }

  /** The widget gets a source exactly when it declared it and one approval of that list includes all of it. */
  lemma AllowedExactly(values: seq<Value>, approved: seq<Entry>, directive: Directive, names: Names, s: string)
    ensures s in Allowed(values, directive, names, Approved(approved, directive, names)) <==>
            exists i :: 0 <= i < |values| && Allows(values[i], approved, directive, names, s)
  {
    var sources := Approved(approved, directive, names);
    CollectExactly(values, v => GoodAndCovered(v, directive, names, sources), s);
    forall i | 0 <= i < |values|
      ensures GoodAndCovered(values[i], directive, names, sources) == Some(s) <==> Allows(values[i], approved, directive, names, s)
    {
      KeptExactly(values[i], approved, directive, names, s);
    }
  }

  /** No address reaches the policy without an approval that matches it. */
  lemma NeverMoreThanApproved(declared: Declaration, approved: seq<Entry>, names: Names, d: Directive, s: string, u: Url)
    requires d in Intersection(declared, approved, names) && s in Intersection(declared, approved, names)[d]
    ensures Parse(Str(s), d, names).Ok? && Parse(Str(s), d, names).value.normalized == s
    ensures Matches(Parse(Str(s), d, names).value.source, u) && HostLabels(u.labels) ==>
      exists i :: 0 <= i < |approved| && ReadEntry(approved[i], d, names).Some? && Matches(ReadEntry(approved[i], d, names).value, u)
  {
    var values := ListOf(declared, d).value;
    AllowedExactly(values, approved, d, names, s);
    var k :| 0 <= k < |values| && Allows(values[k], approved, d, names, s);
    NormalFormIsFixed(values[k].text, d, names);
    var source := Parse(Str(s), d, names).value.source;
    var i :| 0 <= i < |approved| && EntryAllows(approved[i], d, names, source);
    assert Includes(ReadEntry(approved[i], d, names).value, source);
  }

  lemma AllowedTwice(values: seq<Value>, directive: Directive, names: Names, sources: seq<Source>)
    ensures
      var once := Allowed(values, directive, names, sources);
      |once| <= |values| && Allowed(AsValues(once), directive, names, sources) == once
  {
    var offer := (v: Value) => GoodAndCovered(v, directive, names, sources);
    var once := Collect(values, offer);
    CollectDistinct(values, offer);
    CollectExactly(values, offer, "");
    forall i | 0 <= i < |once| ensures offer(Str(once[i])) == Some(once[i]) {
      CollectExactly(values, offer, once[i]);
      var k :| 0 <= k < |values| && offer(values[k]) == Some(once[i]);
      NormalFormIsFixed(values[k].text, directive, names);
    }
    CollectAll(once, offer);
  }

  function AsDeclaration(csp: map<Directive, seq<string>>): Declaration {
    Object(map d | d in csp :: List(AsValues(csp[d])))
  }

  /** Limiting the result again by the same approvals changes nothing. */
  lemma IntersectionIsIdempotent(declared: Declaration, approved: seq<Entry>, names: Names)
    ensures
      var csp := Intersection(declared, approved, names);
      Intersection(AsDeclaration(csp), approved, names) == csp
  {
    var csp := Intersection(declared, approved, names);
    forall d | d in csp
      ensures ListOf(AsDeclaration(csp), d) == Some(AsValues(csp[d]))
      ensures Allowed(AsValues(csp[d]), d, names, Approved(approved, d, names)) == csp[d]
    {
      AllowedTwice(ListOf(declared, d).value, d, names, Approved(approved, d, names));
    }
    SameLists(AsDeclaration(csp), csp, approved, names);
  }

  lemma SameLists(declared: Declaration, csp: map<Directive, seq<string>>, approved: seq<Entry>, names: Names)
    requires forall d :: d in csp <==> ListOf(declared, d).Some?
    requires forall d :: d in csp ==> csp[d] == Allowed(ListOf(declared, d).value, d, names, Approved(approved, d, names))
    ensures Intersection(declared, approved, names) == csp
  {
    forall d: Directive ensures d in DIRECTIVES { EveryDirectiveListed(d); }
  }

  lemma EveryDirectiveListed(d: Directive)
    ensures d in DIRECTIVES
  {
    match d
    case ResourceDomains => assert DIRECTIVES[0] == d;
    case ConnectDomains => assert DIRECTIVES[1] == d;
    case FrameDomains => assert DIRECTIVES[2] == d;
    case BaseUriDomains => assert DIRECTIVES[3] == d;
  }

  lemma AllowedByMore(few: seq<Entry>, many: seq<Entry>, directive: Directive, names: Names, d: Source)
    requires forall e :: e in few ==> e in many
    requires AllowedBy(few, directive, names, d)
    ensures AllowedBy(many, directive, names, d)
  {
    var i :| 0 <= i < |few| && EntryAllows(few[i], directive, names, d);
    assert few[i] in many;
    var j :| 0 <= j < |many| && many[j] == few[i];
    assert EntryAllows(many[j], directive, names, d);
  }

  lemma AllowedMore(values: seq<Value>, few: seq<Entry>, many: seq<Entry>, d: Directive, names: Names, s: string)
    requires forall e :: e in few ==> e in many
    requires s in Allowed(values, d, names, Approved(few, d, names))
    ensures s in Allowed(values, d, names, Approved(many, d, names))
  {
    AllowedExactly(values, few, d, names, s);
    AllowedExactly(values, many, d, names, s);
    var k :| 0 <= k < |values| && Allows(values[k], few, d, names, s);
    AllowedByMore(few, many, d, names, Parse(values[k], d, names).value.source);
    assert Allows(values[k], many, d, names, s);
  }

  /** More approvals allow no less, and the lists that appear do not depend on them. */
  lemma IntersectionIsMonotone(declared: Declaration, few: seq<Entry>, many: seq<Entry>, names: Names)
    requires forall e :: e in few ==> e in many
    ensures
      var a, b := Intersection(declared, few, names), Intersection(declared, many, names);
      a.Keys == b.Keys && forall d, s :: d in a && s in a[d] ==> s in b[d]
  {
    var a, b := Intersection(declared, few, names), Intersection(declared, many, names);
    forall d, s | d in a && s in a[d] ensures s in b[d] {
      AllowedMore(ListOf(declared, d).value, few, many, d, names, s);
    }
  }

  lemma EntriesHave(sources: seq<string>, directive: Directive, s: string)
    requires s in sources
    ensures Entry(directive, s) in EntriesOf(sources, directive)
  {
    var k :| 0 <= k < |sources| && sources[k] == s;
    assert EntriesOf(sources, directive)[k] == Entry(directive, s);
  }

  lemma {:induction false} GroupedHas(directives: seq<Directive>, sources: Directive -> seq<string>, d: Directive, s: string)
    requires d in directives && s in sources(d)
    ensures Entry(d, s) in Grouped(directives, sources)
  {
    var n := |directives| - 1;
    if directives[n] == d {
      EntriesHave(sources(d), d, s);
    } else {
      assert d in directives[..n];
      GroupedHas(directives[..n], sources, d, s);
    }
  }

  /** Approving everything that can be approved gives the widget every good source it declared. */
  lemma ApprovableSuffices(declared: Declaration, names: Names, d: Directive, s: string)
    requires ListOf(declared, d).Some?
    ensures s in Intersection(declared, Approvable(declared, names), names)[d] <==> s in Declared(declared, d, names)
  {
    var approved, values := Approvable(declared, names), ListOf(declared, d).value;
    CollectExactly(values, v => Good(v, d, names), s);
    AllowedExactly(values, approved, d, names, s);
    if s in Declared(declared, d, names) {
      var k :| 0 <= k < |values| && Good(values[k], d, names) == Some(s);
      var p := Parse(values[k], d, names).value;
      EveryDirectiveListed(d);
      GroupedHas(DIRECTIVES, e => Declared(declared, e, names), d, s);
      var i :| 0 <= i < |approved| && approved[i] == Entry(d, s);
      NormalFormIsFixed(values[k].text, d, names);
      assert EntryAllows(approved[i], d, names, p.source);
      assert Allows(values[k], approved, d, names, s);
    }
  }

  // ----- order, cut and what can be approved ---------------------------------------------------

  /** Later values only add at the end: the order is that of first appearance. */
  lemma {:induction false} CollectGrows(values: seq<Value>, i: nat, offer: Value -> Option<string>)
    requires i <= |values|
    ensures Collect(values[..i], offer) <= Collect(values, offer)
    decreases |values| - i
  {
    if i < |values| {
      CollectStep(values, i, offer);
      CollectGrows(values, i + 1, offer);
    } else {
      assert values[..i] == values;
    }
  }

  /** Only the first 25 values of a declared list count, and an absent list stays absent. */
  lemma FirstValuesCount(properties: map<Directive, Property>, d: Directive, values: seq<Value>)
    requires d in properties && properties[d] == List(values)
    ensures ListOf(Object(properties), d).Some? && ListOf(Object(properties), d).value <= values
    ensures |values| <= 25 ==> ListOf(Object(properties), d).value == values
    ensures |values| > 25 ==> |ListOf(Object(properties), d).value| == 25
    ensures ListOf(Object(properties - {d}), d) == None == ListOf(Object(properties[d := NotAList]), d)
  {}

  lemma {:induction false} GroupedExactly(directives: seq<Directive>, sources: Directive -> seq<string>, e: Entry)
    ensures e in Grouped(directives, sources) <==> e.directive in directives && e.source in sources(e.directive)
  {
    if directives != [] {
      var n := |directives| - 1;
      GroupedExactly(directives[..n], sources, e);
      assert directives == directives[..n] + [directives[n]];
      var here := EntriesOf(sources(directives[n]), directives[n]);
      if e in here {
        var k :| 0 <= k < |here| && here[k] == e;
        assert sources(directives[n])[k] == e.source;
      }
      if e.directive == directives[n] && e.source in sources(e.directive) {
        EntriesHave(sources(e.directive), e.directive, e.source);
      }
    }
  }

  /** An administrator is offered exactly the normal forms of the good values that count, each under its list. */
  lemma ApprovableExactly(declared: Declaration, names: Names, e: Entry)
    ensures e in Approvable(declared, names) <==>
      && ListOf(declared, e.directive).Some?
      && exists i :: 0 <= i < |ListOf(declared, e.directive).value| &&
           Good(ListOf(declared, e.directive).value[i], e.directive, names) == Some(e.source)
  {
    EveryDirectiveListed(e.directive);
    GroupedExactly(DIRECTIVES, d => Declared(declared, d, names), e);
    if ListOf(declared, e.directive).Some? {
      CollectExactly(ListOf(declared, e.directive).value, v => Good(v, e.directive, names), e.source);
    }
  }

  ghost predicate DistinctEntries(entries: seq<Entry>) {
    forall i, j :: 0 <= i < j < |entries| ==> entries[i] != entries[j]
  }

  lemma {:induction false} GroupedDistinct(directives: seq<Directive>, sources: Directive -> seq<string>)
    requires forall i, j :: 0 <= i < j < |directives| ==> directives[i] != directives[j]
    requires forall d :: Distinct(sources(d))
    ensures DistinctEntries(Grouped(directives, sources))
  {
    if directives != [] {
      var n := |directives| - 1;
      GroupedDistinct(directives[..n], sources);
      var before, here := Grouped(directives[..n], sources), EntriesOf(sources(directives[n]), directives[n]);
      forall i, j | 0 <= i < |before| && 0 <= j < |here| ensures before[i] != here[j] {
        GroupedExactly(directives[..n], sources, before[i]);
      }
      assert Distinct(sources(directives[n]));
    }
  }

  /** Nothing is offered twice. */
  lemma ApprovableDistinct(declared: Declaration, names: Names)
    ensures DistinctEntries(Approvable(declared, names))
  {
    forall d ensures Distinct(Declared(declared, d, names)) {
      var values := ListOf(declared, d);
      CollectDistinct(if values.Some? then values.value else [], v => Good(v, d, names));
    }
    GroupedDistinct(DIRECTIVES, d => Declared(declared, d, names));
  }
}
