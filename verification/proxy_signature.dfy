/**
 Signed identity headers for proxy upstreams, scheme v2. The hash, the HMAC and
 the key derivation are arbitrary functions, fields of `Crypto`.
 */
module ProxySignature {
  import opened Wrappers
  import opened Text
  import NonceStore

  type Bytes = seq<bv8>

  datatype Crypto = Crypto(
    hmac: (string, string) -> string,     // canonical string, key
    sha256: Bytes -> string,              // body
    hkdf: (string, string) -> string)     // upstream secret, info

  const VERSION := "v2"
  const KEY_INFO_PREFIX := "cogniplane/v2/proxy-upstream-server-key"
  const MAX_SAFE_INTEGER := 0x1F_FFFF_FFFF_FFFF
  const DEFAULT_MAX_FUTURE_SKEW_MS := 30_000

  datatype Parts = Parts(
    tenantId: string, serverId: string, userId: string, sessionId: string, runtimeId: string,
    timestamp: string, nonce: string, bodySha256: string)
  {
    function Fields(): seq<string> {
      [tenantId, serverId, userId, sessionId, runtimeId, timestamp, nonce, bodySha256]
    }
  }

  predicate NoNewline(s: string) { '\n' !in s }

  function CanonicalString(p: Parts): string {
    Join([VERSION] + p.Fields(), '\n')
  }

  function KeyInfo(tenantId: string, serverId: string): string {
    Join([KEY_INFO_PREFIX, tenantId, serverId], '\n')
  }

  datatype SignError = NewlineInField

  function ServerKey(c: Crypto, secret: string, tenantId: string, serverId: string): Result<string, SignError> {
    if NoNewline(tenantId) && NoNewline(serverId) then Ok(c.hkdf(secret, KeyInfo(tenantId, serverId)))
    else Err(NewlineInField)
  }

  datatype Identity = Identity(tenantId: string, serverId: string, userId: string, sessionId: string, runtimeId: string)

  /** The ten headers. */
  datatype Headers = Headers(version: string, parts: Parts, signature: string)

  /** `String(now)` for a clock in Unix milliseconds. */
  function ClockText(now: int): string {
    if now < 0 then "-" + Decimal(-now) else Decimal(now)
  }

  function Sign(c: Crypto, who: Identity, body: Bytes, secret: string, now: int, nonce: string): Result<Headers, SignError> {
    var parts := SignedParts(c, who, body, now, nonce);
    if exists f :: f in parts.Fields() && !NoNewline(f) then Err(NewlineInField)
    else
      match ServerKey(c, secret, who.tenantId, who.serverId)
      case Err(e) => Err(e)
      case Ok(key) => Ok(Headers(VERSION, parts, c.hmac(CanonicalString(parts), key)))
  }

  // ----- the wire ---------------------------------------------------------------

  datatype HeaderValue = One(text: string) | Many(texts: seq<string>)

  type WireHeaders = map<string, HeaderValue>

  /** Each header's name, as the signer writes it and as HTTP frameworks deliver it. */
  const NAMES: seq<(string, string)> := [
    ("X-Framework-Signature-Version", "x-framework-signature-version"),
    ("X-Framework-Tenant-Id", "x-framework-tenant-id"),
    ("X-Framework-Server-Id", "x-framework-server-id"),
    ("X-Framework-User-Id", "x-framework-user-id"),
    ("X-Framework-Session-Id", "x-framework-session-id"),
    ("X-Framework-Runtime-Id", "x-framework-runtime-id"),
    ("X-Framework-Timestamp", "x-framework-timestamp"),
    ("X-Framework-Nonce", "x-framework-nonce"),
    ("X-Framework-Body-Sha256", "x-framework-body-sha256"),
    ("X-Framework-Signature", "x-framework-signature")]

  /** The exact name wins over the lower-case one; a repeated header counts by its first value. */
  function ReadHeader(w: WireHeaders, exact: string, lower: string): Option<string> {
    var key := if exact in w then exact else lower;
    if key !in w then None
    else
      match w[key]
      case One(text) => Some(text)
      case Many(texts) => if texts == [] then None else Some(texts[0])
  }

  /** What was read for each of the ten names, in order. */
  type Received = r: seq<Option<string>> | |r| == 10 witness seq(10, _ => None)

  function Receive(w: WireHeaders): Received {
    seq(10, i requires 0 <= i < 10 => ReadHeader(w, NAMES[i].0, NAMES[i].1))
  }

  function Values(h: Headers): seq<string> {
    [h.version] + h.parts.Fields() + [h.signature]
  }

  /** The ten headers `h` were read, and nothing else. */
  ghost predicate Carries(r: Received, h: Headers) {
    forall i: nat :: i < 10 ==> r[i] == Some(Values(h)[i])
  }

  /** The header is this text, alone or as the first of several. */
  ghost predicate Says(v: HeaderValue, text: string) {
    v == One(text) || exists rest :: v == Many([text] + rest)
  }

  /** Headers under their exact names, whatever the lower-case ones say, or all under their lower-case names, are read back in full. */
  lemma EitherSpellingIsRead(w: WireHeaders, h: Headers)
    requires || (forall i: nat :: i < 10 ==> NAMES[i].0 in w && Says(w[NAMES[i].0], Values(h)[i]))
             || (forall i: nat :: i < 10 ==> NAMES[i].0 !in w && NAMES[i].1 in w && Says(w[NAMES[i].1], Values(h)[i]))
    ensures Carries(Receive(w), h)
  {
    forall i: nat | i < 10 ensures Receive(w)[i] == Some(Values(h)[i]) {
      assert Receive(w)[i] == ReadHeader(w, NAMES[i].0, NAMES[i].1);
    }
  }

  // ----- verification -----------------------------------------------------------

  /** `maxFutureSkewMs` may be left out. */
  datatype Options = Options(serverId: string, maxAgeMs: int, maxFutureSkewMs: Option<int>)

  /** How far a timestamp may be ahead of the verifier's clock. */
  function FutureSkew(o: Options): int {
    if o.maxFutureSkewMs.Some? then o.maxFutureSkewMs.value else DEFAULT_MAX_FUTURE_SKEW_MS
  }

  datatype Reason =
    | MissingHeader | UnsupportedVersion | WrongServer | StaleTimestamp | FutureTimestamp | BodyMismatch | BadSignature

  datatype Verified =
    | Accepted(who: Identity, nonce: string, timestamp: int, keepNonceUntil: int)
    | Rejected(reason: Reason)
    | BadOptions

  predicate SafeInteger(n: int) { -MAX_SAFE_INTEGER <= n <= MAX_SAFE_INTEGER }

  /** One to sixteen ASCII digits with a safe value. */
  function ParseTimestamp(s: string): Option<nat> {
    if 1 <= |s| <= 16 && AllDigits(s) && SafeInteger(ParseDecimal(s)) then Some(ParseDecimal(s)) else None
  }

  predicate Usable(v: Option<string>) { v.Some? && v.value != "" && NoNewline(v.value) }

  /** The eight signed fields, if each is present, non-empty and free of newlines. */
  function ReadParts(r: Received): Option<Parts> {
    if exists i: nat :: 1 <= i <= 8 && !Usable(r[i]) then None
    else
      Some(Parts(r[1].value, r[2].value, r[3].value, r[4].value,
                 r[5].value, r[6].value, r[7].value, r[8].value))
  }

  function VerifyParts(c: Crypto, p: Parts, signature: string, body: Bytes, key: string, o: Options, now: int): Verified {
    if p.serverId != o.serverId then Rejected(WrongServer)
    else
      match ParseTimestamp(p.timestamp)
      case None => Rejected(MissingHeader)
      case Some(ts) =>
        if !SafeInteger(ts + o.maxAgeMs) then Rejected(MissingHeader)
        else if ts < now - o.maxAgeMs then Rejected(StaleTimestamp)
        else if ts > now + FutureSkew(o) then Rejected(FutureTimestamp)
        else if c.sha256(body) != p.bodySha256 then Rejected(BodyMismatch)
        else if c.hmac(CanonicalString(p), key) != signature then Rejected(BadSignature)
        else Accepted(Identity(p.tenantId, p.serverId, p.userId, p.sessionId, p.runtimeId), p.nonce, ts, ts + o.maxAgeMs)
  }

  predicate ValidOptions(o: Options) {
    SafeInteger(o.maxAgeMs) && o.maxAgeMs > 0 && SafeInteger(FutureSkew(o)) && FutureSkew(o) >= 0
  }

  predicate Absent(v: Option<string>) { v.None? || v.value == "" }

  /** Verification of the headers that `Receive` read from the wire. */
  function Verify(c: Crypto, r: Received, body: Bytes, key: string, o: Options, now: int): Verified {
    if !ValidOptions(o) then BadOptions
    else
      var version, signature := r[0], r[9];
      if Absent(version) || Absent(signature) then Rejected(MissingHeader)
      else if version.value != VERSION then Rejected(UnsupportedVersion)
      else
        match ReadParts(r)
        case None => Rejected(MissingHeader)
        case Some(p) => VerifyParts(c, p, signature.value, body, key, o, now)
  }

  // ----- injectivity --------------------------------------------------------------

  lemma CanonicalInjective(p: Parts, q: Parts)
    requires forall f :: f in p.Fields() || f in q.Fields() ==> NoNewline(f)
    requires CanonicalString(p) == CanonicalString(q)
    ensures p == q
  {
    var a, b := [VERSION] + p.Fields(), [VERSION] + q.Fields();
    forall i | 0 <= i < |a| ensures '\n' !in a[i] && '\n' !in b[i] {
      if i > 0 { assert a[i] in p.Fields() && b[i] in q.Fields(); }
    }
    SplitJoin(a, '\n');
    SplitJoin(b, '\n');
    assert a[1] == b[1] && a[2] == b[2] && a[3] == b[3] && a[4] == b[4];
    assert a[5] == b[5] && a[6] == b[6] && a[7] == b[7] && a[8] == b[8];
  }

  /** Two (tenant, server) scopes never share the info their key is derived from. */
  lemma KeyInfoInjective(t: string, s: string, t': string, s': string)
    requires NoNewline(t) && NoNewline(s) && NoNewline(t') && NoNewline(s')
    requires KeyInfo(t, s) == KeyInfo(t', s')
    ensures t == t' && s == s'
  {
    var a, b := [KEY_INFO_PREFIX, t, s], [KEY_INFO_PREFIX, t', s'];
    SplitJoin(a, '\n');
    SplitJoin(b, '\n');
    assert a[1] == b[1] && a[2] == b[2];
  }

  // ----- sign, then verify ----------------------------------------------------------

  lemma ClockTextParses(now: nat)
    requires now <= MAX_SAFE_INTEGER
    ensures ParseTimestamp(ClockText(now)) == Some(now)
    ensures NoNewline(ClockText(now))
  {
    ParseDecimalOfDecimal(now);
    assert Pow10(16) == 10_000_000_000_000_000 by {
      assert Pow10(4) == 10000;
      assert Pow10(8) == 10000_0000;
      assert Pow10(12) == 1_0000_0000_0000;
    }
    DecimalLength(now, 16);
    assert forall i :: 0 <= i < |Decimal(now)| ==> IsDigit(Decimal(now)[i]);
  }

  /** What the signer is given, and the base64url outputs: nothing empty, nothing with a newline. */
  ghost predicate Signable(c: Crypto, who: Identity, body: Bytes, nonce: string) {
    && (forall f :: f in [who.tenantId, who.serverId, who.userId, who.sessionId, who.runtimeId, nonce, c.sha256(body)] ==>
          f != "" && NoNewline(f))
    && (forall d, k :: c.hmac(d, k) != "")
  }

  function SignedParts(c: Crypto, who: Identity, body: Bytes, signedAt: int, nonce: string): Parts {
    Parts(who.tenantId, who.serverId, who.userId, who.sessionId, who.runtimeId, ClockText(signedAt), nonce, c.sha256(body))
  }

  lemma SignableParts(c: Crypto, who: Identity, body: Bytes, nonce: string, signedAt: nat)
    requires Signable(c, who, body, nonce) && signedAt <= MAX_SAFE_INTEGER
    ensures forall f :: f in SignedParts(c, who, body, signedAt, nonce).Fields() ==> f != "" && NoNewline(f)
  {
    ClockTextParses(signedAt);
    var all := [who.tenantId, who.serverId, who.userId, who.sessionId, who.runtimeId, nonce, c.sha256(body)];
    assert all[0] in all && all[1] in all && all[2] in all && all[3] in all && all[4] in all && all[5] in all && all[6] in all;
  }

  lemma CarriedParts(r: Received, h: Headers)
    requires Carries(r, h)
    requires forall f :: f in h.parts.Fields() ==> f != "" && NoNewline(f)
    ensures r[0] == Some(h.version) && r[9] == Some(h.signature)
    ensures ReadParts(r) == Some(h.parts)
  {
    var f := h.parts.Fields();
    forall i: nat | 1 <= i <= 8 ensures r[i] == Some(f[i - 1]) && Usable(r[i]) {
      assert Values(h)[i] == f[i - 1] && f[i - 1] in f;
    }
    assert r[1] == Some(f[0]) && r[2] == Some(f[1]) && r[3] == Some(f[2]);
    assert r[4] == Some(f[3]) && r[5] == Some(f[4]) && r[6] == Some(f[5]);
    assert r[7] == Some(f[6]) && r[8] == Some(f[7]);
  }

  /** The verifier accepts what the signer produced, for any clock in the window, and returns the signed fields. */
  lemma VerifyAcceptsSigned(c: Crypto, who: Identity, body: Bytes, secret: string, signedAt: nat, nonce: string,
                            r: Received, o: Options, now: int)
    requires Signable(c, who, body, nonce)
    requires ValidOptions(o) && o.serverId == who.serverId && SafeInteger(signedAt + o.maxAgeMs)
    requires now - o.maxAgeMs <= signedAt <= now + FutureSkew(o)
    ensures ServerKey(c, secret, who.tenantId, who.serverId).Ok? && Sign(c, who, body, secret, signedAt, nonce).Ok?
    ensures Carries(r, Sign(c, who, body, secret, signedAt, nonce).value) ==>
      Verify(c, r, body, ServerKey(c, secret, who.tenantId, who.serverId).value, o, now)
        == Accepted(who, nonce, signedAt, signedAt + o.maxAgeMs)
  {
    ClockTextParses(signedAt);
    SignableParts(c, who, body, nonce, signedAt);
    var p := SignedParts(c, who, body, signedAt, nonce);
    assert who.tenantId == p.Fields()[0] && who.serverId == p.Fields()[1];
    var h := Sign(c, who, body, secret, signedAt, nonce).value;
    assert h.parts == p;
    if Carries(r, h) {
      CarriedParts(r, h);
    }
  }

  // ----- what acceptance forces --------------------------------------------------------

  ghost predicate InjectiveHmac(c: Crypto) {
    forall d, d', k, k' :: c.hmac(d, k) == c.hmac(d', k') ==> d == d' && k == k'
  }

  ghost predicate InjectiveHash(c: Crypto) {
    forall b, b' :: c.sha256(b) == c.sha256(b') ==> b == b'
  }

  /** What a verifier read from the wire when it accepted. */
  lemma AcceptedParts(c: Crypto, r: Received, body: Bytes, key: string, o: Options, now: int) returns (p: Parts)
    requires Verify(c, r, body, key, o, now).Accepted?
    ensures forall f :: f in p.Fields() ==> f != "" && NoNewline(f)
    ensures var v := Verify(c, r, body, key, o, now);
      && v.who == Identity(p.tenantId, p.serverId, p.userId, p.sessionId, p.runtimeId)
      && v.who.serverId == o.serverId && v.nonce == p.nonce && ParseTimestamp(p.timestamp) == Some(v.timestamp)
      && v.keepNonceUntil == v.timestamp + o.maxAgeMs
      && now - o.maxAgeMs <= v.timestamp <= now + FutureSkew(o)
      && p.bodySha256 == c.sha256(body) && r[9] == Some(c.hmac(CanonicalString(p), key))
  {
    p := ReadParts(r).value;
    forall i: nat | 1 <= i <= 8 ensures Usable(r[i]) {}
  }

  /**
   With an injective HMAC and hash, a request that is accepted with a signature
   that `Sign` made is that request: every field, the body, and the key's scope.
   */
  lemma AcceptanceForcesSigned(c: Crypto, who: Identity, body: Bytes, secret: string, signedAt: nat, nonce: string,
                               r: Received, received: Bytes, key: string, o: Options, now: int)
    requires InjectiveHmac(c) && InjectiveHash(c) && signedAt <= MAX_SAFE_INTEGER
    requires Sign(c, who, body, secret, signedAt, nonce).Ok?
    requires r[9] == Some(Sign(c, who, body, secret, signedAt, nonce).value.signature)
    requires Verify(c, r, received, key, o, now).Accepted?
    ensures Verify(c, r, received, key, o, now) == Accepted(who, nonce, signedAt, signedAt + o.maxAgeMs)
    ensures received == body && Ok(key) == ServerKey(c, secret, who.tenantId, who.serverId)
  {
    var p := AcceptedParts(c, r, received, key, o, now);
    var q := Sign(c, who, body, secret, signedAt, nonce).value.parts;
    CanonicalInjective(p, q);
    ClockTextParses(signedAt);
  }

  /** With an injective key derivation as well, only the server that the request was signed for can accept it. */
  lemma OtherServersReject(c: Crypto, who: Identity, body: Bytes, secret: string, signedAt: nat, nonce: string,
                           r: Received, received: Bytes, tenantId: string, serverId: string, o: Options, now: int)
    requires InjectiveHmac(c) && InjectiveHash(c) && signedAt <= MAX_SAFE_INTEGER
    requires forall a, b :: c.hkdf(secret, a) == c.hkdf(secret, b) ==> a == b
    requires Sign(c, who, body, secret, signedAt, nonce).Ok?
    requires r[9] == Some(Sign(c, who, body, secret, signedAt, nonce).value.signature)
    requires ServerKey(c, secret, tenantId, serverId).Ok? && (tenantId, serverId) != (who.tenantId, who.serverId)
    ensures !Verify(c, r, received, ServerKey(c, secret, tenantId, serverId).value, o, now).Accepted?
  {
    var key := ServerKey(c, secret, tenantId, serverId).value;
    if Verify(c, r, received, key, o, now).Accepted? {
      AcceptanceForcesSigned(c, who, body, secret, signedAt, nonce, r, received, key, o, now);
      KeyInfoInjective(tenantId, serverId, who.tenantId, who.serverId);
    }
  }

  // ----- verification and the nonce store together ----------------------------------------

  /** One delivery to one of the upstream's verifiers, with that verifier's options and clock. */
  datatype Delivery = Delivery(r: Received, body: Bytes, o: Options, now: int, storeClock: int)

  /** The store operations of a series of deliveries that all verified. */
  ghost function Requests(c: Crypto, key: string, ds: seq<Delivery>): seq<NonceStore.Request>
    requires forall d :: d in ds ==> Verify(c, d.r, d.body, key, d.o, d.now).Accepted?
  {
    seq(|ds|, i requires 0 <= i < |ds| =>
      assert ds[i] in ds;
      var v := Verify(c, ds[i].r, ds[i].body, key, ds[i].o, ds[i].now);
      NonceStore.Request(ds[i].storeClock, v.nonce, v.timestamp))
  }

  /** A signed request is admitted at most once, whatever the verifiers' options, clocks and delays. */
  lemma SignedRequestAdmittedOnce(c: Crypto, who: Identity, body: Bytes, secret: string, signedAt: nat, nonce: string,
                                  key: string, ds: seq<Delivery>, start: int, retention: nat, i: nat, j: nat)
    requires InjectiveHmac(c) && InjectiveHash(c) && signedAt <= MAX_SAFE_INTEGER
    requires Sign(c, who, body, secret, signedAt, nonce).Ok?
    requires forall d :: d in ds ==> Verify(c, d.r, d.body, key, d.o, d.now).Accepted?
    requires i < j < |ds|
    requires forall k :: k in {i, j} ==> ds[k].r[9] == Some(Sign(c, who, body, secret, signedAt, nonce).value.signature)
    ensures var run := Requests(c, key, ds);
      !(NonceStore.VerdictAt(start, run, retention, i) == NonceStore.Accepted && NonceStore.VerdictAt(start, run, retention, j) == NonceStore.Accepted)
  {
    assert ds[i] in ds && ds[j] in ds;
    AcceptanceForcesSigned(c, who, body, secret, signedAt, nonce, ds[i].r, ds[i].body, key, ds[i].o, ds[i].now);
    AcceptanceForcesSigned(c, who, body, secret, signedAt, nonce, ds[j].r, ds[j].body, key, ds[j].o, ds[j].now);
    NonceStore.NeverAcceptedTwice(start, Requests(c, key, ds), retention, i, j);
  }

  // ----- the other verdicts --------------------------------------------------------------------

  /** The timestamp header is a number that the verifier can use. */
  ghost predicate ReadableTime(r: Received, o: Options, ts: int) {
    r[6].Some? && ParseTimestamp(r[6].value) == Some(ts) && ts + o.maxAgeMs <= MAX_SAFE_INTEGER
  }

  /** All ten headers are there, the fields without newlines, the version and the server are right. */
  ghost predicate WellFormed(r: Received, o: Options) {
    && (forall i: nat :: i < 10 ==> r[i].Some? && r[i].value != "")
    && (forall i: nat :: 1 <= i <= 8 ==> '\n' !in r[i].value)
    && r[0].value == "v2" && r[2].value == o.serverId
  }

  ghost predicate Genuine(c: Crypto, r: Received, body: Bytes, key: string)
    requires forall i: nat :: i < 10 ==> r[i].Some?
  {
    r[9].value == c.hmac(Join(["v2", r[1].value, r[2].value, r[3].value, r[4].value,
                               r[5].value, r[6].value, r[7].value, r[8].value], '\n'), key)
  }

  /** What is wrong with a request that is refused for this reason. */
  ghost predicate ReasonIsTrue(reason: Reason, c: Crypto, r: Received, body: Bytes, key: string, o: Options, now: int) {
    match reason
    case MissingHeader =>
      || (exists i: nat :: i < 10 && (r[i].None? || r[i].value == ""))
      || (exists i: nat :: 1 <= i <= 8 && r[i].Some? && '\n' in r[i].value)
      || !exists ts :: ReadableTime(r, o, ts)
    case UnsupportedVersion => r[0].Some? && r[0].value != "v2"
    case WrongServer => r[2].Some? && r[2].value != o.serverId
    case StaleTimestamp => exists ts :: ReadableTime(r, o, ts) && ts + o.maxAgeMs < now
    case FutureTimestamp => exists ts :: ReadableTime(r, o, ts) && ts > now + FutureSkew(o)
    case BodyMismatch => r[8].Some? && r[8].value != c.sha256(body)
    case BadSignature => (forall i: nat :: i < 10 ==> r[i].Some?) && !Genuine(c, r, body, key)
  }

  lemma FieldsOfParts(r: Received)
    requires ReadParts(r).Some? && r[0] == Some("v2") && r[9].Some?
    ensures forall i: nat :: i < 10 ==> r[i].Some?
    ensures CanonicalString(ReadParts(r).value) ==
      Join(["v2", r[1].value, r[2].value, r[3].value, r[4].value, r[5].value, r[6].value, r[7].value, r[8].value], '\n')
  {
    var p := ReadParts(r).value;
    forall i: nat | i < 10 ensures r[i].Some? { assert 1 <= i <= 8 ==> Usable(r[i]); }
    assert [VERSION] + p.Fields() ==
      ["v2", r[1].value, r[2].value, r[3].value, r[4].value, r[5].value, r[6].value, r[7].value, r[8].value];
  }

  /** A rejection names something that is wrong with the request, so a request with one fault is refused for that one. */
  lemma RejectionIsTrue(c: Crypto, r: Received, body: Bytes, key: string, o: Options, now: int)
    requires Verify(c, r, body, key, o, now).Rejected?
    ensures ReasonIsTrue(Verify(c, r, body, key, o, now).reason, c, r, body, key, o, now)
  {
    var reason := Verify(c, r, body, key, o, now).reason;
    if ReadParts(r).Some? && r[9].Some? && r[0] == Some(VERSION) {
      FieldsOfParts(r);
      var p := ReadParts(r).value;
      assert Usable(r[2]) && Usable(r[6]) && Usable(r[8]);
      if ParseTimestamp(p.timestamp).Some? {
        var ts := ParseTimestamp(p.timestamp).value;
        assert SafeInteger(ts + o.maxAgeMs) ==> ReadableTime(r, o, ts);
      }
    } else if reason == MissingHeader && !Absent(r[0]) && !Absent(r[9]) {
      var i: nat :| 1 <= i <= 8 && !Usable(r[i]);
      assert r[i].None? || r[i].value == "" || '\n' in r[i].value;
    }
  }

  /** The whole rule of acceptance. Unusable options are refused with an error instead. */
  lemma AcceptsExactly(c: Crypto, r: Received, body: Bytes, key: string, o: Options, now: int)
    ensures Verify(c, r, body, key, o, now).BadOptions? <==>
      !(0 < o.maxAgeMs <= MAX_SAFE_INTEGER && (o.maxFutureSkewMs.Some? ==> 0 <= o.maxFutureSkewMs.value <= MAX_SAFE_INTEGER))
    ensures Verify(c, r, body, key, o, now).Accepted? <==>
      && !Verify(c, r, body, key, o, now).BadOptions?
      && WellFormed(r, o)
      && (exists ts :: ReadableTime(r, o, ts) && now - o.maxAgeMs <= ts <= now + FutureSkew(o))
      && r[8].value == c.sha256(body) && Genuine(c, r, body, key)
  {
    var v := Verify(c, r, body, key, o, now);
    if v.Accepted? {
      FieldsOfParts(r);
      assert forall i: nat :: 1 <= i <= 8 ==> Usable(r[i]);
      assert ReadableTime(r, o, v.timestamp);
    } else if v.Rejected? && WellFormed(r, o) {
      RejectionIsTrue(c, r, body, key, o, now);
    }
  }

  /** Signing fails exactly when a field holds a newline. */
  lemma SignFailsExactly(c: Crypto, who: Identity, body: Bytes, secret: string, now: int, nonce: string)
    ensures Sign(c, who, body, secret, now, nonce).Err? <==>
      exists f :: f in SignedParts(c, who, body, now, nonce).Fields() && '\n' in f
  {
    var p := SignedParts(c, who, body, now, nonce);
    assert p.Fields()[0] == who.tenantId && p.Fields()[1] == who.serverId;
    if f :| f in p.Fields() && '\n' in f { assert !NoNewline(f); }
  }

  /** A clock before 1970 is written with a sign, which no verifier reads; leading zeros are read, up to sixteen digits. */
  lemma TimestampForms(now: int, digits: string)
    ensures now < 0 ==> ParseTimestamp(ClockText(now)) == None
    ensures |digits| > 16 ==> ParseTimestamp(digits) == None
    ensures AllDigits(digits) && 1 <= |digits| < 16 ==> ParseTimestamp(['0'] + digits) == ParseTimestamp(digits)
  {
    assert now < 0 ==> ClockText(now)[0] == '-';
    if AllDigits(digits) { ZeroInFront(digits); }
  }

  /** The info that a server's key is derived from, and the text that is signed. */
  lemma SignedTexts(tenantId: string, serverId: string, p: Parts)
    ensures KeyInfo(tenantId, serverId) == "cogniplane/v2/proxy-upstream-server-key" + "\n" + tenantId + "\n" + serverId
    ensures CanonicalString(p) ==
      Join(["v2", p.tenantId, p.serverId, p.userId, p.sessionId, p.runtimeId, p.timestamp, p.nonce, p.bodySha256], '\n')
  {
    var prefix := KEY_INFO_PREFIX;
    ThreeLines(prefix, tenantId, serverId);
    assert [VERSION] + p.Fields() ==
      ["v2", p.tenantId, p.serverId, p.userId, p.sessionId, p.runtimeId, p.timestamp, p.nonce, p.bodySha256];
  }

  lemma ThreeLines(a: string, b: string, c: string)
    ensures Join([a, b, c], '\n') == a + "\n" + b + "\n" + c
  {
    assert [a, b, c][1..] == [b, c] && [b, c][1..] == [c];
    assert Join([b, c], '\n') == b + ['\n'] + c;
    assert a + ['\n'] + (b + ['\n'] + c) == a + "\n" + b + "\n" + c;
  }
}
