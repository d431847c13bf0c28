/**
 Any number of `/auth/refresh` handlers interleaving over one refresh-token store.

 Each Redis script is one atomic step; time advances by any amount between
 steps; a handler may fail and compensate, or vanish, between any two steps.
 Three hypotheses are written into the machine:

  - a Redis call that throws had no effect (a failed call is no step at all);
  - a handler issues before one family TTL has passed since its claim
    (what `Enabled` adds to `Possible`);
  - for the absolute lifetime only, the login-at key does not expire between a
    claim and its issue (`NoStraddle`).
 */
module RefreshProtocol {
  import opened Wrappers
  import opened RefreshStore

  /** The sign-in facts that a token carries. */
  datatype Claims = Claims(sub: string, tid: string, amr: seq<string>, authTime: int, sv: Option<int>)

  /**
   A signed refresh token. `issuedFrom`, `index` and `expiresAt` record how it
   was issued: the jti it replaced, its place in the family, its key's expiry.
   */
  datatype Token = Token(fid: Id, claims: Claims, issuedFrom: Option<Id>, index: nat, expiresAt: int)

  /** A login: its facts, its time on both clocks, and the jtis issued to it, in order. */
  datatype Family = Family(claims: Claims, loginClock: int, loginTime: int, chain: seq<Id>)

  datatype Phase =
    | PreClaim
    | Holding(at: int)        // the jti is consumed, nothing is issued yet
    | Issued(next: Id)        // the successor is live
    | Polling                 // another caller holds the jti; wait for its result
    | ReuseFound(fid: Id)     // replay detected, family not revoked yet
    | Succeeded(next: Id)     // answered 200 with this successor
    | Refused                 // answered 401 or 503

  datatype Handler = Handler(jti: Id, phase: Phase)

  /** What has been issued so far. */
  datatype Ledger = Ledger(tokens: map<Id, Token>, families: map<Id, Family>)

  datatype State = State(now: int, store: Store, handlers: map<nat, Handler>, ledger: Ledger)

  datatype Action =
    | Tick(elapsed: nat)
    | Login(jti: Id, fid: Id, claims: Claims, clock: int)
    | Arrive(h: nat, jti: Id)
    | RevokeFamily(fid: Id)           // logout, or a refused membership
    | ClaimStep(h: nat, clock: int)
    | PollStep(h: nat)                // a waiting handler reads the marker once
    | GiveUp(h: nat)                  // its deadline passed
    | IssueStep(h: nat, jti: Id, clock: int)
    | CompleteStep(h: nat)
    | AnswerStep(h: nat)              // the completion write failed, or is done
    | RestoreStep(h: nat)
    | RevokeReuse(h: nat)
    | Vanish(h: nat)                  // a crash, or a failed compensation

  ghost predicate Known(s: State, h: nat) {
    h in s.handlers && s.handlers[h].jti in s.ledger.tokens
  }

  /** The family in the token that handler `h` presents. */
  ghost function Fid(s: State, h: nat): Id
    requires Known(s, h)
  {
    s.ledger.tokens[s.handlers[h].jti].fid
  }

  /** What the code alone permits. */
  ghost predicate Possible(s: State, a: Action) {
    match a
    case Tick(_) => true
    case Login(jti, fid, _, _) => jti !in s.ledger.tokens && fid !in s.ledger.families
    case Arrive(h, jti) => h !in s.handlers && jti in s.ledger.tokens
    case RevokeFamily(fid) => fid in s.ledger.families
    case ClaimStep(h, _) => Known(s, h) && s.handlers[h].phase.PreClaim?
    case PollStep(h) => Known(s, h) && s.handlers[h].phase.Polling?
    case GiveUp(h) => Known(s, h) && s.handlers[h].phase.Polling?
    case IssueStep(h, jti, _) =>
      && Known(s, h)
      && s.handlers[h].phase.Holding?
      && jti !in s.ledger.tokens
      && Fid(s, h) in s.ledger.families
    case CompleteStep(h) => Known(s, h) && s.handlers[h].phase.Issued?
    case AnswerStep(h) => Known(s, h) && s.handlers[h].phase.Issued?
    case RestoreStep(h) => Known(s, h) && s.handlers[h].phase.Holding?
    case RevokeReuse(h) => Known(s, h) && s.handlers[h].phase.ReuseFound? && s.handlers[h].phase.fid in s.ledger.families
    case Vanish(h) => h in s.handlers
  }

  /** The deadline hypothesis: an issue comes less than one family TTL after its claim. */
  ghost predicate Enabled(cfg: Config, s: State, a: Action) {
    Possible(s, a) && (a.IssueStep? ==> s.now < s.handlers[a.h].phase.at + cfg.ttlMs)
  }

  ghost function WithLogin(l: Ledger, cfg: Config, now: int, jti: Id, fid: Id, claims: Claims, clock: int): Ledger {
    Ledger(l.tokens[jti := Token(fid, claims, None, 0, now + cfg.ttlMs)],
           l.families[fid := Family(claims, clock, now, [jti])])
  }

  /** The new token copies the sign-in facts of the token it replaces. */
  ghost function WithRotation(l: Ledger, cfg: Config, now: int, from: Id, jti: Id): Ledger
    requires from in l.tokens && l.tokens[from].fid in l.families
  {
    var fid := l.tokens[from].fid;
    var fam := l.families[fid];
    Ledger(l.tokens[jti := Token(fid, l.tokens[from].claims, Some(from), |fam.chain|, now + cfg.ttlMs)],
           l.families[fid := fam.(chain := fam.chain + [jti])])
  }

  ghost function At(s: State, h: nat, phase: Phase): State
    requires h in s.handlers
  {
    s.(handlers := s.handlers[h := s.handlers[h].(phase := phase)])
  }

  /** What the handler does with the claim's reply. A cached result is answered as it is. */
  ghost function AfterClaim(reply: ClaimReply, now: int): Phase {
    match reply
    case Claimed(_) => Holding(now)
    case Reuse(fid) => ReuseFound(fid)
    case Concurrent(Complete(next)) => Succeeded(next)
    case Concurrent(Pending(_)) => Polling
    case _ => Refused
  }

  /** What a waiting handler does with the marker it reads. */
  ghost function AfterPoll(marker: Option<Marker>): Phase {
    match marker
    case Some(Complete(next)) => Succeeded(next)
    case Some(Pending(_)) => Polling
    case None => Refused
  }

  ghost function Step(cfg: Config, s: State, a: Action): State
    requires Possible(s, a)
  {
    match a
    case Tick(elapsed) => s.(now := s.now + elapsed)
    case Login(jti, fid, claims, clock) =>
      var (store, issued) := IssueScript(s.store, cfg, s.now, jti, fid, clock);
      if !issued then s
      else s.(store := store, ledger := WithLogin(s.ledger, cfg, s.now, jti, fid, claims, clock))
    case Arrive(h, jti) => s.(handlers := s.handlers[h := Handler(jti, PreClaim)])
    case RevokeFamily(fid) => s.(store := RevokeCommand(s.store, cfg, s.now, fid))
    case ClaimStep(h, clock) =>
      var (store, reply) := ClaimScript(s.store, cfg, s.now, s.handlers[h].jti, Fid(s, h), clock);
      At(s.(store := store), h, AfterClaim(reply, s.now))
    case PollStep(h) => At(s, h, AfterPoll(Get(s.store.rotation, s.handlers[h].jti, s.now)))
    case GiveUp(h) => At(s, h, Refused)
    case IssueStep(h, jti, clock) =>
      var (store, issued) := IssueScript(s.store, cfg, s.now, jti, Fid(s, h), clock);
      // A refused issue throws: the phase stays `claimed` and the handler compensates.
      if !issued then s
      else At(s.(store := store, ledger := WithRotation(s.ledger, cfg, s.now, s.handlers[h].jti, jti)), h, Issued(jti))
    case CompleteStep(h) =>
      var next := s.handlers[h].phase.next;
      At(s.(store := CompleteCommand(s.store, cfg, s.now, s.handlers[h].jti, next)), h, Succeeded(next))
    case AnswerStep(h) => At(s, h, Succeeded(s.handlers[h].phase.next))
    case RestoreStep(h) =>
      var (store, _) := RestoreScript(s.store, s.now, s.handlers[h].jti, Fid(s, h));
      At(s.(store := store), h, Refused)
    case RevokeReuse(h) =>
      At(s.(store := RevokeCommand(s.store, cfg, s.now, s.handlers[h].phase.fid)), h, Refused)
    case Vanish(h) => s.(handlers := s.handlers - {h})
  }

  ghost function Start(now: int): State { State(now, EMPTY, map[], Ledger(map[], map[])) }

  ghost predicate ValidRun(cfg: Config, s: State, run: seq<Action>)
    decreases |run|
  {
    run == [] || (Enabled(cfg, s, run[0]) && ValidRun(cfg, Step(cfg, s, run[0]), run[1..]))
  }

  ghost function After(cfg: Config, s: State, run: seq<Action>): State
    requires ValidRun(cfg, s, run)
    decreases |run|
  {
    if run == [] then s else After(cfg, Step(cfg, s, run[0]), run[1..])
  }

  // ----- the invariant ----------------------------------------------------

  ghost predicate Successor(l: Ledger, next: Id, jti: Id) {
    next in l.tokens && l.tokens[next].issuedFrom == Some(jti)
  }

  /** A token sits at its index of its family's chain, and carries the login's facts. */
  ghost predicate TokenOk(l: Ledger, j: Id)
    requires j in l.tokens
  {
    var t := l.tokens[j];
    && t.fid in l.families
    && t.claims == l.families[t.fid].claims
    && t.index < |l.families[t.fid].chain|
    && l.families[t.fid].chain[t.index] == j
  }

  /** Each jti of a chain was issued by the rotation of the jti before it. */
  ghost predicate ChainOk(l: Ledger, fid: Id, i: nat)
    requires fid in l.families && i < |l.families[fid].chain|
  {
    var chain := l.families[fid].chain;
    && chain[i] in l.tokens
    && l.tokens[chain[i]].fid == fid
    && l.tokens[chain[i]].index == i
    && l.tokens[chain[i]].issuedFrom == if i == 0 then None else Some(chain[i - 1])
  }

  ghost predicate LedgerOk(l: Ledger) {
    && (forall j :: j in l.tokens ==> TokenOk(l, j))
    && (forall fid :: fid in l.families ==> |l.families[fid].chain| > 0)
    && (forall fid, i: nat :: fid in l.families && i < |l.families[fid].chain| ==> ChainOk(l, fid, i))
  }

  /** `jti` is the newest token of its family. */
  ghost predicate Newest(l: Ledger, jti: Id) {
    jti in l.tokens && l.tokens[jti].fid in l.families &&
    l.tokens[jti].index + 1 == |l.families[l.tokens[jti].fid].chain|
  }

  /** A stored jti is its family's newest, expires as issued, and not after its family key. */
  ghost predicate JtiOk(l: Ledger, st: Store, j: Id)
    requires j in st.jti
  {
    && Newest(l, j)
    && st.jti[j] == Entry(l.tokens[j].fid, l.tokens[j].expiresAt)
    && l.tokens[j].fid in st.family
    && st.jti[j].expiresAt <= st.family[l.tokens[j].fid].expiresAt
    && j !in st.rotation
  }

  /** An active family key expires exactly when the newest token of the family was issued to. */
  ghost predicate FamilyOk(cfg: Config, l: Ledger, st: Store, now: int, fid: Id)
    requires fid in st.family
  {
    && fid in l.families
    && st.family[fid].expiresAt <= now + cfg.ttlMs
    && (st.family[fid].value.Active? ==>
          forall j :: Newest(l, j) && l.tokens[j].fid == fid ==> l.tokens[j].expiresAt == st.family[fid].expiresAt)
  }

  ghost predicate RotationOk(l: Ledger, st: Store, j: Id)
    requires j in st.rotation
  {
    && j in l.tokens
    && (st.rotation[j].value.Complete? ==> Successor(l, st.rotation[j].value.nextJti, j))
  }

  ghost predicate StoreOk(cfg: Config, l: Ledger, st: Store, now: int) {
    && (forall j :: j in st.jti ==> JtiOk(l, st, j))
    && (forall fid :: fid in st.family ==> FamilyOk(cfg, l, st, now, fid))
    && (forall fid :: fid in l.families ==> fid in st.family)
    && (forall j :: j in st.rotation ==> RotationOk(l, st, j))
  }

  /** A handler between claim and issue: nobody else can use its jti, and the family key is dated. */
  ghost predicate HolderOk(cfg: Config, l: Ledger, st: Store, now: int, jti: Id, at: int) {
    && Newest(l, jti)
    && jti !in st.jti
    && at <= now
    && l.tokens[jti].fid in st.family
    && var family := st.family[l.tokens[jti].fid];
       if family.value.Active? then family.expiresAt <= at + cfg.ttlMs else at + cfg.ttlMs <= family.expiresAt
  }

  ghost predicate HandlerOk(cfg: Config, l: Ledger, st: Store, now: int, handler: Handler) {
    && handler.jti in l.tokens
    && match handler.phase
       case Holding(at) => HolderOk(cfg, l, st, now, handler.jti, at)
       case Issued(next) => Successor(l, next, handler.jti)
       case Succeeded(next) => Successor(l, next, handler.jti)
       case _ => true
  }

  ghost predicate OneHolder(handlers: map<nat, Handler>) {
    forall h, k :: h in handlers && k in handlers && h != k && handlers[h].phase.Holding? && handlers[k].phase.Holding?
      ==> handlers[h].jti != handlers[k].jti
  }

  ghost predicate HandlersOk(cfg: Config, s: State) {
    && (forall h :: h in s.handlers ==> HandlerOk(cfg, s.ledger, s.store, s.now, s.handlers[h]))
    && OneHolder(s.handlers)
  }

  ghost predicate Inv(cfg: Config, s: State) {
    LedgerOk(s.ledger) && StoreOk(cfg, s.ledger, s.store, s.now) && HandlersOk(cfg, s)
  }

  lemma InvStart(cfg: Config, now: int)
    ensures Inv(cfg, Start(now))
  {}

  /** The newest token of a family is unique. */
  lemma NewestUnique(l: Ledger, i: Id, j: Id)
    requires LedgerOk(l) && Newest(l, i) && Newest(l, j) && l.tokens[i].fid == l.tokens[j].fid
    ensures i == j
  {
    assert TokenOk(l, i) && TokenOk(l, j);
  }

  /** A token with a successor is never the newest again. */
  lemma HasSuccessorNotNewest(l: Ledger, next: Id, jti: Id)
    requires LedgerOk(l) && Successor(l, next, jti)
    ensures jti in l.tokens && l.tokens[jti].fid == l.tokens[next].fid
    ensures l.tokens[next].index == l.tokens[jti].index + 1
    ensures !Newest(l, jti)
  {
    assert TokenOk(l, next);
    var fid, i := l.tokens[next].fid, l.tokens[next].index;
    assert ChainOk(l, fid, i);
    assert ChainOk(l, fid, i - 1);
  }

  // ----- each script keeps the store's part ---------------------------------

  lemma ClaimKeepsJti(cfg: Config, l: Ledger, st: Store, now: int, jti: Id, clock: int, j: Id)
    requires cfg.Valid() && StoreOk(cfg, l, st, now) && jti in l.tokens
    requires j in ClaimScript(st, cfg, now, jti, l.tokens[jti].fid, clock).0.jti
    ensures JtiOk(l, ClaimScript(st, cfg, now, jti, l.tokens[jti].fid, clock).0, j)
  {
    assert JtiOk(l, st, j);
    assert l.tokens[jti].fid in st.family ==> FamilyOk(cfg, l, st, now, l.tokens[jti].fid);
  }

  lemma ClaimKeepsFamily(cfg: Config, l: Ledger, st: Store, now: int, jti: Id, clock: int, f: Id)
    requires cfg.Valid() && LedgerOk(l) && StoreOk(cfg, l, st, now) && jti in l.tokens
    requires f in ClaimScript(st, cfg, now, jti, l.tokens[jti].fid, clock).0.family
    ensures FamilyOk(cfg, l, ClaimScript(st, cfg, now, jti, l.tokens[jti].fid, clock).0, now, f)
  {
    assert TokenOk(l, jti);
    assert f in st.family ==> FamilyOk(cfg, l, st, now, f);
  }

  lemma ClaimKeepsStore(cfg: Config, l: Ledger, st: Store, now: int, jti: Id, clock: int)
    requires cfg.Valid() && LedgerOk(l) && StoreOk(cfg, l, st, now) && jti in l.tokens
    ensures StoreOk(cfg, l, ClaimScript(st, cfg, now, jti, l.tokens[jti].fid, clock).0, now)
  {
    var st' := ClaimScript(st, cfg, now, jti, l.tokens[jti].fid, clock).0;
    forall j | j in st'.jti ensures JtiOk(l, st', j) { ClaimKeepsJti(cfg, l, st, now, jti, clock, j); }
    forall f | f in st'.family ensures FamilyOk(cfg, l, st', now, f) { ClaimKeepsFamily(cfg, l, st, now, jti, clock, f); }
    forall j | j in st'.rotation ensures RotationOk(l, st', j) { assert j != jti ==> RotationOk(l, st, j); }
  }

  lemma RestoreKeepsStore(cfg: Config, l: Ledger, st: Store, now: int, jti: Id)
    requires cfg.Valid() && LedgerOk(l) && StoreOk(cfg, l, st, now) && Newest(l, jti)
    ensures StoreOk(cfg, l, RestoreScript(st, now, jti, l.tokens[jti].fid).0, now)
  {
    var fid := l.tokens[jti].fid;
    var st' := RestoreScript(st, now, jti, fid).0;
    forall j | j in st'.jti ensures JtiOk(l, st', j) {
      if j != jti { assert JtiOk(l, st, j); } else if st' != st { assert FamilyOk(cfg, l, st, now, fid); }
    }
    forall f | f in st'.family ensures FamilyOk(cfg, l, st', now, f) { assert FamilyOk(cfg, l, st, now, f); }
    forall j | j in st'.rotation ensures RotationOk(l, st', j) { assert RotationOk(l, st, j); }
  }

  lemma RevokeKeepsStore(cfg: Config, l: Ledger, st: Store, now: int, fid: Id)
    requires cfg.Valid() && LedgerOk(l) && StoreOk(cfg, l, st, now) && fid in l.families
    ensures StoreOk(cfg, l, RevokeCommand(st, cfg, now, fid), now)
  {
    var st' := RevokeCommand(st, cfg, now, fid);
    forall j | j in st'.jti ensures JtiOk(l, st', j) { assert JtiOk(l, st, j); }
    forall f | f in st'.family ensures FamilyOk(cfg, l, st', now, f) { assert f in st.family ==> FamilyOk(cfg, l, st, now, f); }
    forall j | j in st'.rotation ensures RotationOk(l, st', j) { assert RotationOk(l, st, j); }
  }

  // ----- an issue extends the ledger and the store together ------------------

  lemma LoginKeepsLedger(cfg: Config, l: Ledger, now: int, jti: Id, fid: Id, claims: Claims, clock: int)
    requires LedgerOk(l) && jti !in l.tokens && fid !in l.families
    ensures var l' := WithLogin(l, cfg, now, jti, fid, claims, clock);
      && LedgerOk(l')
      && (forall j :: Newest(l', j) <==> j == jti || Newest(l, j))
  {
    var l' := WithLogin(l, cfg, now, jti, fid, claims, clock);
    forall j | j in l'.tokens ensures TokenOk(l', j) { assert j != jti ==> TokenOk(l, j); }
    forall f, i: nat | f in l'.families && i < |l'.families[f].chain| ensures ChainOk(l', f, i) {
      assert f != fid ==> ChainOk(l, f, i);
    }
    forall j ensures Newest(l', j) <==> j == jti || Newest(l, j) {
      assert j in l.tokens ==> TokenOk(l, j);
    }
  }

  lemma RotationKeepsLedger(cfg: Config, l: Ledger, now: int, from: Id, jti: Id)
    requires LedgerOk(l) && Newest(l, from) && jti !in l.tokens
    ensures var l' := WithRotation(l, cfg, now, from, jti);
      && LedgerOk(l')
      && (forall j :: Newest(l', j) <==> j == jti || (Newest(l, j) && l.tokens[j].fid != l.tokens[from].fid))
  {
    var l', fid := WithRotation(l, cfg, now, from, jti), l.tokens[from].fid;
    var chain := l.families[fid].chain;
    assert TokenOk(l, from);
    forall j | j in l'.tokens ensures TokenOk(l', j) { assert j != jti ==> TokenOk(l, j); }
    forall f, i: nat | f in l'.families && i < |l'.families[f].chain| ensures ChainOk(l', f, i) {
      if f != fid || i < |chain| { assert ChainOk(l, f, i); }
    }
    forall j ensures Newest(l', j) <==> j == jti || (Newest(l, j) && l.tokens[j].fid != fid) {
      assert j in l.tokens ==> TokenOk(l, j);
    }
  }

  /** The ledger `l'` differs from `l` by one new jti, alone the newest of its family. */
  ghost predicate Extends(l: Ledger, l': Ledger, jti: Id, fid: Id, expiresAt: int) {
    && jti !in l.tokens && jti in l'.tokens && l'.tokens[jti].fid == fid && l'.tokens[jti].expiresAt == expiresAt
    && (forall j :: j in l.tokens ==> j in l'.tokens && l'.tokens[j] == l.tokens[j])
    && l'.families.Keys == l.families.Keys + {fid}
    && (forall j :: Newest(l', j) <==> j == jti || (Newest(l, j) && l.tokens[j].fid != fid))
  }

  lemma IssueKeepsFamily(cfg: Config, l: Ledger, l': Ledger, st: Store, now: int, jti: Id, fid: Id, clock: int, f: Id)
    requires cfg.Valid() && StoreOk(cfg, l, st, now) && Extends(l, l', jti, fid, now + cfg.ttlMs)
    requires IssueScript(st, cfg, now, jti, fid, clock).1 && f in IssueScript(st, cfg, now, jti, fid, clock).0.family
    ensures FamilyOk(cfg, l', IssueScript(st, cfg, now, jti, fid, clock).0, now, f)
  {
    if f != fid {
      assert FamilyOk(cfg, l, st, now, f);
    }
  }

  lemma IssueKeepsJti(cfg: Config, l: Ledger, l': Ledger, st: Store, now: int, jti: Id, fid: Id, clock: int, j: Id)
    requires cfg.Valid() && StoreOk(cfg, l, st, now) && Extends(l, l', jti, fid, now + cfg.ttlMs)
    requires forall j :: j in st.jti ==> l.tokens[j].fid != fid
    requires IssueScript(st, cfg, now, jti, fid, clock).1 && j in IssueScript(st, cfg, now, jti, fid, clock).0.jti
    ensures JtiOk(l', IssueScript(st, cfg, now, jti, fid, clock).0, j)
  {
    assert j != jti ==> JtiOk(l, st, j);
    assert jti in st.rotation ==> RotationOk(l, st, jti);
  }

  /** The store after an issue agrees with any ledger in which the new jti alone is the family's newest. */
  lemma IssueKeepsStore(cfg: Config, l: Ledger, l': Ledger, st: Store, now: int, jti: Id, fid: Id, clock: int)
    requires cfg.Valid() && StoreOk(cfg, l, st, now) && Extends(l, l', jti, fid, now + cfg.ttlMs)
    requires forall j :: j in st.jti ==> l.tokens[j].fid != fid
    requires IssueScript(st, cfg, now, jti, fid, clock).1
    ensures StoreOk(cfg, l', IssueScript(st, cfg, now, jti, fid, clock).0, now)
  {
    var st' := IssueScript(st, cfg, now, jti, fid, clock).0;
    forall j | j in st'.jti ensures JtiOk(l', st', j) { IssueKeepsJti(cfg, l, l', st, now, jti, fid, clock, j); }
    forall f | f in st'.family ensures FamilyOk(cfg, l', st', now, f) { IssueKeepsFamily(cfg, l, l', st, now, jti, fid, clock, f); }
    forall j | j in st'.rotation ensures RotationOk(l', st', j) { assert RotationOk(l, st, j); }
  }

  // ----- what each script does to the other handlers --------------------------

  lemma ClaimKeepsHandler(cfg: Config, l: Ledger, st: Store, now: int, jti: Id, fid: Id, clock: int, other: Handler)
    requires cfg.Valid() && HandlerOk(cfg, l, st, now, other)
    ensures HandlerOk(cfg, l, ClaimScript(st, cfg, now, jti, fid, clock).0, now, other)
  {}

  /** A successful claim found the jti stored, and makes its handler the one holder. */
  lemma ClaimMakesHolder(cfg: Config, l: Ledger, st: Store, now: int, jti: Id, clock: int)
    requires cfg.Valid() && LedgerOk(l) && StoreOk(cfg, l, st, now) && jti in l.tokens
    ensures var (st', reply) := ClaimScript(st, cfg, now, jti, l.tokens[jti].fid, clock);
      match reply
      case Claimed(_) => jti in st.jti && HolderOk(cfg, l, st', now, jti, now)
      case Concurrent(Complete(next)) => Successor(l, next, jti)
      case _ => true
  {
    assert jti in st.jti ==> JtiOk(l, st, jti);
    assert l.tokens[jti].fid in st.family ==> FamilyOk(cfg, l, st, now, l.tokens[jti].fid);
    assert jti in st.rotation ==> RotationOk(l, st, jti);
  }

  lemma IssueKeepsHandler(cfg: Config, l: Ledger, st: Store, now: int, from: Id, jti: Id, clock: int, other: Handler)
    requires cfg.Valid() && LedgerOk(l) && Newest(l, from) && jti !in l.tokens
    requires HandlerOk(cfg, l, st, now, other)
    requires other.phase.Holding? ==> other.jti != from
    ensures HandlerOk(cfg, WithRotation(l, cfg, now, from, jti),
                      IssueScript(st, cfg, now, jti, l.tokens[from].fid, clock).0, now, other)
  {
    RotationKeepsLedger(cfg, l, now, from, jti);
    if other.phase.Holding? && l.tokens[other.jti].fid == l.tokens[from].fid {
      NewestUnique(l, other.jti, from);
    }
  }

  // ----- each step keeps the invariant ---------------------------------------

  /** A step of handler `h` keeps the invariant if its parts do. */
  lemma InvAssemble(cfg: Config, s: State, st: Store, l: Ledger, h: nat, phase: Phase)
    requires OneHolder(s.handlers) && h in s.handlers
    requires LedgerOk(l) && StoreOk(cfg, l, st, s.now)
    requires forall k :: k in s.handlers && k != h ==> HandlerOk(cfg, l, st, s.now, s.handlers[k])
    requires HandlerOk(cfg, l, st, s.now, Handler(s.handlers[h].jti, phase))
    requires phase.Holding? ==>
      forall k :: k in s.handlers && k != h && s.handlers[k].phase.Holding? ==> s.handlers[k].jti != s.handlers[h].jti
    ensures Inv(cfg, At(s.(store := st, ledger := l), h, phase))
  {}

  lemma InvClaim(cfg: Config, s: State, h: nat, clock: int)
    requires cfg.Valid() && Inv(cfg, s) && Enabled(cfg, s, ClaimStep(h, clock))
    ensures Inv(cfg, Step(cfg, s, ClaimStep(h, clock)))
  {
    var jti, fid := s.handlers[h].jti, Fid(s, h);
    var (st, reply) := ClaimScript(s.store, cfg, s.now, jti, fid, clock);
    assert StoreOk(cfg, s.ledger, st, s.now) by { ClaimKeepsStore(cfg, s.ledger, s.store, s.now, jti, clock); }
    forall k | k in s.handlers ensures HandlerOk(cfg, s.ledger, st, s.now, s.handlers[k]) {
      ClaimKeepsHandler(cfg, s.ledger, s.store, s.now, jti, fid, clock, s.handlers[k]);
    }
    ClaimMakesHolder(cfg, s.ledger, s.store, s.now, jti, clock);
    InvAssemble(cfg, s, st, s.ledger, h, AfterClaim(reply, s.now));
  }

  lemma InvRestore(cfg: Config, s: State, h: nat)
    requires cfg.Valid() && Inv(cfg, s) && Enabled(cfg, s, RestoreStep(h))
    ensures Inv(cfg, Step(cfg, s, RestoreStep(h)))
  {
    var t := Step(cfg, s, RestoreStep(h));
    assert HandlerOk(cfg, s.ledger, s.store, s.now, s.handlers[h]);
    RestoreKeepsStore(cfg, s.ledger, s.store, s.now, s.handlers[h].jti);
    forall k | k in t.handlers ensures HandlerOk(cfg, t.ledger, t.store, t.now, t.handlers[k]) {
      assert HandlerOk(cfg, s.ledger, s.store, s.now, s.handlers[k]);
    }
  }

  lemma InvRevoke(cfg: Config, s: State, fid: Id)
    requires cfg.Valid() && Inv(cfg, s) && fid in s.ledger.families
    ensures Inv(cfg, s.(store := RevokeCommand(s.store, cfg, s.now, fid)))
  {
    var t := s.(store := RevokeCommand(s.store, cfg, s.now, fid));
    RevokeKeepsStore(cfg, s.ledger, s.store, s.now, fid);
    forall k | k in t.handlers ensures HandlerOk(cfg, t.ledger, t.store, t.now, t.handlers[k]) {
      assert HandlerOk(cfg, s.ledger, s.store, s.now, s.handlers[k]);
    }
  }

  lemma LoginKeepsHandler(cfg: Config, l: Ledger, st: Store, now: int, jti: Id, fid: Id, claims: Claims, clock: int, other: Handler)
    requires cfg.Valid() && LedgerOk(l) && jti !in l.tokens && fid !in l.families
    requires HandlerOk(cfg, l, st, now, other)
    ensures HandlerOk(cfg, WithLogin(l, cfg, now, jti, fid, claims, clock), IssueScript(st, cfg, now, jti, fid, clock).0, now, other)
  {
    LoginKeepsLedger(cfg, l, now, jti, fid, claims, clock);
    assert TokenOk(l, other.jti);
  }

  lemma LoginKeepsStore(cfg: Config, l: Ledger, st: Store, now: int, jti: Id, fid: Id, claims: Claims, clock: int)
    requires cfg.Valid() && LedgerOk(l) && StoreOk(cfg, l, st, now) && jti !in l.tokens && fid !in l.families
    ensures IssueScript(st, cfg, now, jti, fid, clock).1
    ensures StoreOk(cfg, WithLogin(l, cfg, now, jti, fid, claims, clock), IssueScript(st, cfg, now, jti, fid, clock).0, now)
  {
    assert fid in st.family ==> FamilyOk(cfg, l, st, now, fid);
    LoginKeepsLedger(cfg, l, now, jti, fid, claims, clock);
    forall j | j in l.tokens ensures l.tokens[j].fid != fid { assert TokenOk(l, j); }
    forall j | j in st.jti ensures l.tokens[j].fid != fid { assert JtiOk(l, st, j); }
    IssueKeepsStore(cfg, l, WithLogin(l, cfg, now, jti, fid, claims, clock), st, now, jti, fid, clock);
  }

  lemma InvLogin(cfg: Config, s: State, jti: Id, fid: Id, claims: Claims, clock: int)
    requires cfg.Valid() && Inv(cfg, s) && Enabled(cfg, s, Login(jti, fid, claims, clock))
    ensures Inv(cfg, Step(cfg, s, Login(jti, fid, claims, clock)))
  {
    LoginKeepsLedger(cfg, s.ledger, s.now, jti, fid, claims, clock);
    LoginKeepsStore(cfg, s.ledger, s.store, s.now, jti, fid, claims, clock);
    var l, st := WithLogin(s.ledger, cfg, s.now, jti, fid, claims, clock), IssueScript(s.store, cfg, s.now, jti, fid, clock).0;
    forall k | k in s.handlers ensures HandlerOk(cfg, l, st, s.now, s.handlers[k]) {
      LoginKeepsHandler(cfg, s.ledger, s.store, s.now, jti, fid, claims, clock, s.handlers[k]);
    }
  }

  lemma RotationKeepsStore(cfg: Config, l: Ledger, st: Store, now: int, held: Id, jti: Id, clock: int)
    requires cfg.Valid() && LedgerOk(l) && StoreOk(cfg, l, st, now)
    requires Newest(l, held) && held !in st.jti && jti !in l.tokens
    requires IssueScript(st, cfg, now, jti, l.tokens[held].fid, clock).1
    ensures StoreOk(cfg, WithRotation(l, cfg, now, held, jti), IssueScript(st, cfg, now, jti, l.tokens[held].fid, clock).0, now)
  {
    RotationKeepsLedger(cfg, l, now, held, jti);
    NoOtherJtiOfFamily(cfg, l, st, now, held);
    IssueKeepsStore(cfg, l, WithRotation(l, cfg, now, held, jti), st, now, jti, l.tokens[held].fid, clock);
  }

  lemma InvIssue(cfg: Config, s: State, h: nat, jti: Id, clock: int)
    requires cfg.Valid() && Inv(cfg, s) && Enabled(cfg, s, IssueStep(h, jti, clock))
    ensures Inv(cfg, Step(cfg, s, IssueStep(h, jti, clock)))
  {
    var fid, held := Fid(s, h), s.handlers[h].jti;
    var (st, issued) := IssueScript(s.store, cfg, s.now, jti, fid, clock);
    if issued {
      assert HandlerOk(cfg, s.ledger, s.store, s.now, s.handlers[h]);
      var l := WithRotation(s.ledger, cfg, s.now, held, jti);
      RotationKeepsLedger(cfg, s.ledger, s.now, held, jti);
      RotationKeepsStore(cfg, s.ledger, s.store, s.now, held, jti, clock);
      forall k | k in s.handlers && k != h ensures HandlerOk(cfg, l, st, s.now, s.handlers[k]) {
        IssueKeepsHandler(cfg, s.ledger, s.store, s.now, held, jti, clock, s.handlers[k]);
      }
      InvAssemble(cfg, s, st, l, h, Issued(jti));
    }
  }

  /** While the newest jti of a family is consumed, no jti of that family is stored. */
  lemma NoOtherJtiOfFamily(cfg: Config, l: Ledger, st: Store, now: int, held: Id)
    requires LedgerOk(l) && StoreOk(cfg, l, st, now) && Newest(l, held) && held !in st.jti
    ensures forall j :: j in st.jti ==> j in l.tokens && l.tokens[j].fid != l.tokens[held].fid && st.jti[j].value != l.tokens[held].fid
  {
    forall j | j in st.jti ensures j in l.tokens && l.tokens[j].fid != l.tokens[held].fid && st.jti[j].value == l.tokens[j].fid {
      assert JtiOk(l, st, j);
      if l.tokens[j].fid == l.tokens[held].fid { NewestUnique(l, j, held); }
    }
  }

  lemma InvComplete(cfg: Config, s: State, h: nat)
    requires cfg.Valid() && Inv(cfg, s) && Enabled(cfg, s, CompleteStep(h))
    ensures Inv(cfg, Step(cfg, s, CompleteStep(h)))
  {
    var t := Step(cfg, s, CompleteStep(h));
    var jti := s.handlers[h].jti;
    assert HandlerOk(cfg, s.ledger, s.store, s.now, s.handlers[h]);
    HasSuccessorNotNewest(s.ledger, s.handlers[h].phase.next, jti);
    forall j | j in t.store.jti ensures JtiOk(t.ledger, t.store, j) { assert JtiOk(s.ledger, s.store, j); }
    forall f | f in t.store.family ensures FamilyOk(cfg, t.ledger, t.store, t.now, f) { assert FamilyOk(cfg, s.ledger, s.store, s.now, f); }
    forall j | j in t.store.rotation ensures RotationOk(t.ledger, t.store, j) { assert j != jti ==> RotationOk(s.ledger, s.store, j); }
    forall k | k in t.handlers ensures HandlerOk(cfg, t.ledger, t.store, t.now, t.handlers[k]) {
      assert HandlerOk(cfg, s.ledger, s.store, s.now, s.handlers[k]);
    }
  }

  lemma InvTick(cfg: Config, s: State, elapsed: nat)
    requires cfg.Valid() && Inv(cfg, s)
    ensures Inv(cfg, s.(now := s.now + elapsed))
  {
    var t := s.(now := s.now + elapsed);
    forall f | f in t.store.family ensures FamilyOk(cfg, t.ledger, t.store, t.now, f) { assert FamilyOk(cfg, s.ledger, s.store, s.now, f); }
    forall k | k in t.handlers ensures HandlerOk(cfg, t.ledger, t.store, t.now, t.handlers[k]) {
      assert HandlerOk(cfg, s.ledger, s.store, s.now, s.handlers[k]);
    }
  }

  /** Handlers may come, go and change phase, as long as nobody new holds a jti. */
  lemma InvHandlers(cfg: Config, s: State, handlers: map<nat, Handler>)
    requires cfg.Valid() && Inv(cfg, s)
    requires forall h :: h in handlers ==>
      || (h in s.handlers && handlers[h] == s.handlers[h])
      || (!handlers[h].phase.Holding? && HandlerOk(cfg, s.ledger, s.store, s.now, handlers[h]))
    ensures Inv(cfg, s.(handlers := handlers))
  {}

  lemma InvAnswer(cfg: Config, s: State, h: nat)
    requires cfg.Valid() && Inv(cfg, s) && Enabled(cfg, s, AnswerStep(h))
    ensures Inv(cfg, Step(cfg, s, AnswerStep(h)))
  {
    assert HandlerOk(cfg, s.ledger, s.store, s.now, s.handlers[h]);
    InvHandlers(cfg, s, At(s, h, Succeeded(s.handlers[h].phase.next)).handlers);
  }

  lemma InvReuse(cfg: Config, s: State, h: nat)
    requires cfg.Valid() && Inv(cfg, s) && Enabled(cfg, s, RevokeReuse(h))
    ensures Inv(cfg, Step(cfg, s, RevokeReuse(h)))
  {
    var t := s.(store := RevokeCommand(s.store, cfg, s.now, s.handlers[h].phase.fid));
    InvRevoke(cfg, s, s.handlers[h].phase.fid);
    InvHandlers(cfg, t, At(t, h, Refused).handlers);
  }

  /** A finished marker names the real successor, so that is what a waiting handler answers. */
  lemma PolledHandlerOk(cfg: Config, l: Ledger, st: Store, now: int, jti: Id)
    requires StoreOk(cfg, l, st, now) && jti in l.tokens
    ensures HandlerOk(cfg, l, st, now, Handler(jti, AfterPoll(Get(st.rotation, jti, now))))
  {
    assert jti in st.rotation ==> RotationOk(l, st, jti);
  }

  lemma InvPoll(cfg: Config, s: State, h: nat)
    requires cfg.Valid() && Inv(cfg, s) && Enabled(cfg, s, PollStep(h))
    ensures Inv(cfg, Step(cfg, s, PollStep(h)))
  {
    var phase := AfterPoll(Get(s.store.rotation, s.handlers[h].jti, s.now));
    PolledHandlerOk(cfg, s.ledger, s.store, s.now, s.handlers[h].jti);
    InvHandlers(cfg, s, At(s, h, phase).handlers);
  }

  /** The steps of a handler that run a script. */
  predicate RunsScript(a: Action) { a.ClaimStep? || a.IssueStep? || a.CompleteStep? || a.RestoreStep? || a.RevokeReuse? }

  lemma InvScriptStep(cfg: Config, s: State, a: Action)
    requires cfg.Valid() && Inv(cfg, s) && Enabled(cfg, s, a) && RunsScript(a)
    ensures Inv(cfg, Step(cfg, s, a))
  {
    match a
    case ClaimStep(h, clock) => InvClaim(cfg, s, h, clock);
    case IssueStep(h, jti, clock) => InvIssue(cfg, s, h, jti, clock);
    case CompleteStep(h) => InvComplete(cfg, s, h);
    case RestoreStep(h) => InvRestore(cfg, s, h);
    case RevokeReuse(h) => InvReuse(cfg, s, h);
  }

  lemma InvOtherStep(cfg: Config, s: State, a: Action)
    requires cfg.Valid() && Inv(cfg, s) && Enabled(cfg, s, a) && !RunsScript(a)
    ensures Inv(cfg, Step(cfg, s, a))
  {
    match a
    case Tick(elapsed) => InvTick(cfg, s, elapsed);
    case Login(jti, fid, claims, clock) => InvLogin(cfg, s, jti, fid, claims, clock);
    case Arrive(h, jti) => InvHandlers(cfg, s, s.handlers[h := Handler(jti, PreClaim)]);
    case RevokeFamily(fid) => InvRevoke(cfg, s, fid);
    case PollStep(h) => InvPoll(cfg, s, h);
    case GiveUp(h) => InvHandlers(cfg, s, At(s, h, Refused).handlers);
    case AnswerStep(h) => InvAnswer(cfg, s, h);
    case Vanish(h) => InvHandlers(cfg, s, s.handlers - {h});
  }

  lemma InvStep(cfg: Config, s: State, a: Action)
    requires cfg.Valid() && Inv(cfg, s) && Enabled(cfg, s, a)
    ensures Inv(cfg, Step(cfg, s, a))
  {
    if RunsScript(a) { InvScriptStep(cfg, s, a); } else { InvOtherStep(cfg, s, a); }
  }

  lemma {:induction false} InvRun(cfg: Config, s: State, run: seq<Action>)
    requires cfg.Valid() && Inv(cfg, s) && ValidRun(cfg, s, run)
    ensures Inv(cfg, After(cfg, s, run))
    decreases |run|
  {
    if run != [] {
      InvStep(cfg, s, run[0]);
      InvRun(cfg, Step(cfg, s, run[0]), run[1..]);
    }
  }
}
