/**
 What every run of the refresh machine guarantees, and where each of its three
 hypotheses is needed.
 */
module RefreshTheorems {
  import opened Wrappers
  import opened RefreshStore
  import opened RefreshProtocol

  // ----- one credential, one chain --------------------------------------------

  ghost function LiveJtis(s: State, fid: Id): set<Id> {
    set j | j in s.store.jti && s.now < s.store.jti[j].expiresAt && s.store.jti[j].value == fid
  }

  ghost function Holders(s: State, fid: Id): set<nat> {
    set h | h in s.handlers && s.handlers[h].phase.Holding? && Known(s, h) && Fid(s, h) == fid
  }

  lemma SmallSet<T>(a: set<T>)
    requires forall x, y :: x in a && y in a ==> x == y
    ensures |a| <= 1
  {
    if x :| x in a {
      assert a == {x};
    }
  }

  /** In every reachable state a family has one live jti, or one handler that holds its jti, or neither. */
  lemma AtMostOneCredential(cfg: Config, now: int, run: seq<Action>, fid: Id)
    requires cfg.Valid() && ValidRun(cfg, Start(now), run)
    ensures var s := After(cfg, Start(now), run);
      |LiveJtis(s, fid)| + |Holders(s, fid)| <= 1
  {
    InvStart(cfg, now);
    InvRun(cfg, Start(now), run);
    var s := After(cfg, Start(now), run);
    forall i, j | i in LiveJtis(s, fid) && j in LiveJtis(s, fid) ensures i == j {
      assert JtiOk(s.ledger, s.store, i) && JtiOk(s.ledger, s.store, j);
      NewestUnique(s.ledger, i, j);
    }
    forall h, k | h in Holders(s, fid) && k in Holders(s, fid) ensures h == k {
      assert HandlerOk(cfg, s.ledger, s.store, s.now, s.handlers[h]);
      assert HandlerOk(cfg, s.ledger, s.store, s.now, s.handlers[k]);
      NewestUnique(s.ledger, s.handlers[h].jti, s.handlers[k].jti);
    }
    SmallSet(LiveJtis(s, fid));
    SmallSet(Holders(s, fid));
    if h :| h in Holders(s, fid) {
      assert HandlerOk(cfg, s.ledger, s.store, s.now, s.handlers[h]);
      NoOtherJtiOfFamily(cfg, s.ledger, s.store, s.now, s.handlers[h].jti);
      assert LiveJtis(s, fid) == {};
    }
  }

  /** Each jti has at most one successor, next to it in its family's chain, with the login's facts. */
  lemma TokensFormOneChain(cfg: Config, now: int, run: seq<Action>, jti: Id, a: Id, b: Id)
    requires cfg.Valid() && ValidRun(cfg, Start(now), run)
    requires var l := After(cfg, Start(now), run).ledger; Successor(l, a, jti) && Successor(l, b, jti)
    ensures a == b
    ensures var l := After(cfg, Start(now), run).ledger;
      && jti in l.tokens && l.tokens[jti].fid == l.tokens[a].fid && l.tokens[a].fid in l.families
      && l.tokens[jti].claims == l.tokens[a].claims == l.families[l.tokens[a].fid].claims
      && l.tokens[a].index == l.tokens[jti].index + 1
      && l.tokens[a].index < |l.families[l.tokens[a].fid].chain|
      && l.families[l.tokens[a].fid].chain[l.tokens[jti].index..l.tokens[a].index + 1] == [jti, a]
  {
    InvStart(cfg, now);
    InvRun(cfg, Start(now), run);
    var l := After(cfg, Start(now), run).ledger;
    HasSuccessorNotNewest(l, a, jti);
    HasSuccessorNotNewest(l, b, jti);
    assert TokenOk(l, jti) && TokenOk(l, a) && TokenOk(l, b);
  }

  /** A finished marker, whenever it is read, names the successor that the rotation of that jti issued. */
  lemma MarkerNamesSuccessor(cfg: Config, now: int, run: seq<Action>, jti: Id, next: Id)
    requires cfg.Valid() && ValidRun(cfg, Start(now), run)
    requires var s := After(cfg, Start(now), run); Get(s.store.rotation, jti, s.now) == Some(Complete(next))
    ensures Successor(After(cfg, Start(now), run).ledger, next, jti)
  {
    InvStart(cfg, now);
    InvRun(cfg, Start(now), run);
    var s := After(cfg, Start(now), run);
    assert RotationOk(s.ledger, s.store, jti);
  }

  /**
   All callers that present one jti and are answered 200 get the same successor:
   the winner, a caller that finds the result, and one that waited for it.
   */
  lemma AnswersAgree(cfg: Config, now: int, run: seq<Action>, h: nat, k: nat)
    requires cfg.Valid() && ValidRun(cfg, Start(now), run)
    requires var s := After(cfg, Start(now), run);
      && h in s.handlers && k in s.handlers && s.handlers[h].jti == s.handlers[k].jti
      && s.handlers[h].phase.Succeeded? && s.handlers[k].phase.Succeeded?
    ensures var s := After(cfg, Start(now), run);
      s.handlers[h].phase == s.handlers[k].phase
  {
    InvStart(cfg, now);
    InvRun(cfg, Start(now), run);
    var s := After(cfg, Start(now), run);
    assert HandlerOk(cfg, s.ledger, s.store, s.now, s.handlers[h]);
    assert HandlerOk(cfg, s.ledger, s.store, s.now, s.handlers[k]);
    TokensFormOneChain(cfg, now, run, s.handlers[h].jti, s.handlers[h].phase.next, s.handlers[k].phase.next);
  }

  /** Presenting a replaced jti once its marker is gone is always seen as a replay of its own family. */
  lemma ReplayDetected(cfg: Config, now: int, run: seq<Action>, jti: Id, next: Id, clock: int)
    requires cfg.Valid() && ValidRun(cfg, Start(now), run)
    requires var s := After(cfg, Start(now), run);
      && Successor(s.ledger, next, jti) && jti in s.ledger.tokens
      && Get(s.store.rotation, jti, s.now).None?
      && Get(s.store.family, s.ledger.tokens[jti].fid, s.now) == Some(Active)
      && !PastLifetime(s.store, cfg, s.now, s.ledger.tokens[jti].fid, clock)
    ensures var s := After(cfg, Start(now), run); var fid := s.ledger.tokens[jti].fid;
      ClaimScript(s.store, cfg, s.now, jti, fid, clock) == (s.store, Reuse(fid))
  {
    InvStart(cfg, now);
    InvRun(cfg, Start(now), run);
    var s := After(cfg, Start(now), run);
    HasSuccessorNotNewest(s.ledger, next, jti);
    assert jti in s.store.jti ==> JtiOk(s.ledger, s.store, jti);
  }

  /** No marker outlives the grace period by more than the time since it was written. */
  ghost predicate MarkersAreShort(cfg: Config, s: State) {
    forall j :: j in s.store.rotation ==> s.store.rotation[j].expiresAt <= s.now + cfg.graceMs
  }

  lemma {:induction false} MarkersStayShort(cfg: Config, s: State, run: seq<Action>)
    requires MarkersAreShort(cfg, s) && ValidRun(cfg, s, run)
    ensures MarkersAreShort(cfg, After(cfg, s, run))
    decreases |run|
  {
    if run != [] { MarkersStayShort(cfg, Step(cfg, s, run[0]), run[1..]); }
  }

  /** So a replaced jti is seen as a replay from one grace period on, however its rotation ended. */
  lemma ReplayDetectedAfterGrace(cfg: Config, now: int, run: seq<Action>, jti: Id, next: Id, quiet: nat, clock: int)
    requires cfg.Valid() && ValidRun(cfg, Start(now), run) && quiet >= cfg.graceMs
    requires Successor(After(cfg, Start(now), run).ledger, next, jti)
    requires var t := After(cfg, Start(now), run).(now := After(cfg, Start(now), run).now + quiet);
      jti in t.ledger.tokens && ActiveAndYoung(cfg, t, t.ledger.tokens[jti].fid, clock)
    ensures var t := After(cfg, Start(now), run).(now := After(cfg, Start(now), run).now + quiet);
      var fid := t.ledger.tokens[jti].fid;
      ClaimScript(t.store, cfg, t.now, jti, fid, clock) == (t.store, Reuse(fid))
  {
    InvStart(cfg, now);
    InvRun(cfg, Start(now), run);
    MarkersStayShort(cfg, Start(now), run);
    var s := After(cfg, Start(now), run);
    HasSuccessorNotNewest(s.ledger, next, jti);
    assert jti in s.store.jti ==> JtiOk(s.ledger, s.store, jti);
  }

  // ----- what a claim answers, and what its handler does --------------------------

  /** The family of the token is active and younger than the absolute lifetime. */
  ghost predicate ActiveAndYoung(cfg: Config, s: State, fid: Id, clock: int) {
    && fid in s.store.family && s.now < s.store.family[fid].expiresAt && s.store.family[fid].value == Active
    && fid in s.store.loginAt && s.now < s.store.loginAt[fid].expiresAt
    && clock < s.store.loginAt[fid].value + cfg.lifetime
  }

  ghost predicate Stored<T>(m: map<Id, Entry<T>>, key: Id, now: int) { key in m && now < m[key].expiresAt }

  /**
   In every reachable state the reply to a claim follows from the keys alone: a
   stored jti of an active young family is claimed; a replay is reported only
   without a stored jti and without a marker, and always of the token's own family;
   a marker is reported as it is; `not found` means that family, jti and marker are gone.
   */
  lemma ClaimAnswersExactly(cfg: Config, now: int, run: seq<Action>, jti: Id, clock: int)
    requires cfg.Valid() && ValidRun(cfg, Start(now), run) && jti in After(cfg, Start(now), run).ledger.tokens
    ensures
      var s := After(cfg, Start(now), run); var fid := s.ledger.tokens[jti].fid;
      var (after, reply) := ClaimScript(s.store, cfg, s.now, jti, fid, clock);
      var gone := !Stored(s.store.family, fid, s.now);
      var open := gone || ActiveAndYoung(cfg, s, fid, clock);
      && (reply == Claimed(fid) <==> ActiveAndYoung(cfg, s, fid, clock) && Stored(s.store.jti, jti, s.now))
      && (reply.Claimed? ==> reply.familyId == fid)
      && (reply == Reuse(fid) <==>
            ActiveAndYoung(cfg, s, fid, clock) && !Stored(s.store.jti, jti, s.now) && !Stored(s.store.rotation, jti, s.now))
      && (reply.Reuse? ==> reply.familyId == fid)
      && (reply.Concurrent? <==> open && !Stored(s.store.jti, jti, s.now) && Stored(s.store.rotation, jti, s.now))
      && (reply.Concurrent? ==> reply.marker == s.store.rotation[jti].value)
      && (reply.NotFound? <==> gone && !Stored(s.store.rotation, jti, s.now))
      && (reply.NotFound? ==> !Stored(s.store.jti, jti, s.now))
      && (reply.FamilyRevoked? <==> !gone && s.store.family[fid].value == Revoked)
      && (reply.AbsoluteExpired? <==> !gone && s.store.family[fid].value == Active && !ActiveAndYoung(cfg, s, fid, clock))
      && (reply.Reuse? || reply.Concurrent? || reply.NotFound? || reply.FamilyRevoked? ==> after == s.store)
      && (reply.AbsoluteExpired? ==> after == RevokeCommand(s.store, cfg, s.now, fid))
  {
    InvStart(cfg, now);
    InvRun(cfg, Start(now), run);
    var s := After(cfg, Start(now), run);
    ClaimAnswersByKeys(cfg, s, jti, clock);
  }

  lemma ClaimAnswersByKeys(cfg: Config, s: State, jti: Id, clock: int)
    requires Inv(cfg, s) && jti in s.ledger.tokens
    ensures
      var fid := s.ledger.tokens[jti].fid;
      var (after, reply) := ClaimScript(s.store, cfg, s.now, jti, fid, clock);
      var gone := !Stored(s.store.family, fid, s.now);
      var open := gone || ActiveAndYoung(cfg, s, fid, clock);
      && (reply == Claimed(fid) <==> ActiveAndYoung(cfg, s, fid, clock) && Stored(s.store.jti, jti, s.now))
      && (reply.Claimed? ==> reply.familyId == fid)
      && (reply == Reuse(fid) <==>
            ActiveAndYoung(cfg, s, fid, clock) && !Stored(s.store.jti, jti, s.now) && !Stored(s.store.rotation, jti, s.now))
      && (reply.Reuse? ==> reply.familyId == fid)
      && (reply.Concurrent? <==> open && !Stored(s.store.jti, jti, s.now) && Stored(s.store.rotation, jti, s.now))
      && (reply.Concurrent? ==> reply.marker == s.store.rotation[jti].value)
      && (reply.NotFound? <==> gone && !Stored(s.store.rotation, jti, s.now))
      && (reply.NotFound? ==> !Stored(s.store.jti, jti, s.now))
      && (reply.FamilyRevoked? <==> !gone && s.store.family[fid].value == Revoked)
      && (reply.AbsoluteExpired? <==> !gone && s.store.family[fid].value == Active && !ActiveAndYoung(cfg, s, fid, clock))
      && (reply.Reuse? || reply.Concurrent? || reply.NotFound? || reply.FamilyRevoked? ==> after == s.store)
      && (reply.AbsoluteExpired? ==> after == RevokeCommand(s.store, cfg, s.now, fid))
  {
    assert jti in s.store.jti ==> JtiOk(s.ledger, s.store, jti);
  }

  /**
   After a claim, and until the grace period ends, a second claim of the same jti
   changes nothing and its handler waits, unless the rotation finished first: then
   it answers with the successor. It is never taken for a replay.
   */
  lemma SecondClaimWaits(cfg: Config, s: State, h: nat, k: nat, clock: int, elapsed: nat, later: int)
    requires cfg.Valid() && Enabled(cfg, s, ClaimStep(h, clock)) && h != k && k in s.handlers
    requires s.handlers[k] == Handler(s.handlers[h].jti, PreClaim)
    requires Step(cfg, s, ClaimStep(h, clock)).handlers[h].phase.Holding? && elapsed < cfg.graceMs
    requires ActiveAndYoung(cfg, Step(cfg, s, ClaimStep(h, clock)).(now := s.now + elapsed), Fid(s, h), later)
    ensures
      var t := Step(cfg, s, ClaimStep(h, clock)).(now := s.now + elapsed);
      && Enabled(cfg, t, ClaimStep(k, later))
      && Step(cfg, t, ClaimStep(k, later)) == t.(handlers := t.handlers[k := Handler(s.handlers[h].jti, Polling)])
  {
    var jti, fid := s.handlers[h].jti, Fid(s, h);
    var t := Step(cfg, s, ClaimStep(h, clock)).(now := s.now + elapsed);
    assert t.store == ClaimScript(s.store, cfg, s.now, jti, fid, clock).0;
    assert Get(t.store.jti, jti, t.now) == None;
    assert Get(t.store.rotation, jti, t.now) == Some(Pending(fid));
    assert ClaimScript(t.store, cfg, t.now, jti, fid, later) == (t.store, Concurrent(Pending(fid)));
  }

  /** A handler that waits answers with the successor as soon as it reads the finished marker, and goes on waiting before. */
  lemma WaiterIsServed(cfg: Config, s: State, k: nat)
    requires Enabled(cfg, s, PollStep(k))
    ensures
      var jti, t := s.handlers[k].jti, Step(cfg, s, PollStep(k));
      && t == s.(handlers := t.handlers) && t.handlers.Keys == s.handlers.Keys && t.handlers[k].jti == jti
      && (t.handlers[k].phase == Polling <==> Stored(s.store.rotation, jti, s.now) && s.store.rotation[jti].value.Pending?)
      && (t.handlers[k].phase.Succeeded? <==> Stored(s.store.rotation, jti, s.now) && s.store.rotation[jti].value.Complete?)
      && (t.handlers[k].phase.Succeeded? ==> t.handlers[k].phase.next == s.store.rotation[jti].value.nextJti)
    ensures Enabled(cfg, s, GiveUp(k)) && Step(cfg, s, GiveUp(k)) == s.(handlers := s.handlers[k := Handler(s.handlers[k].jti, Refused)])
  {}

  /** A handler that claims after the rotation finished answers with the same successor at once. */
  lemma LateCallerIsServed(cfg: Config, s: State, k: nat, clock: int)
    requires Inv(cfg, s) && Enabled(cfg, s, ClaimStep(k, clock)) && ActiveAndYoung(cfg, s, Fid(s, k), clock)
    requires Stored(s.store.rotation, s.handlers[k].jti, s.now) && s.store.rotation[s.handlers[k].jti].value.Complete?
    ensures Step(cfg, s, ClaimStep(k, clock)) ==
      s.(handlers := s.handlers[k := Handler(s.handlers[k].jti, Succeeded(s.store.rotation[s.handlers[k].jti].value.nextJti))])
  {
    var jti := s.handlers[k].jti;
    assert jti in s.store.jti ==> JtiOk(s.ledger, s.store, jti);
    assert ClaimScript(s.store, cfg, s.now, jti, Fid(s, k), clock) == (s.store, Concurrent(s.store.rotation[jti].value));
  }

  /** A handler whose claim found a replay revokes the family it names, and then refuses. */
  lemma ReplayIsActedOn(cfg: Config, s: State, k: nat, clock: int)
    requires Inv(cfg, s) && Enabled(cfg, s, ClaimStep(k, clock)) && ActiveAndYoung(cfg, s, Fid(s, k), clock)
    requires !Stored(s.store.jti, s.handlers[k].jti, s.now) && !Stored(s.store.rotation, s.handlers[k].jti, s.now)
    ensures
      var t := Step(cfg, s, ClaimStep(k, clock));
      && t.store == s.store && t.handlers[k].phase == ReuseFound(Fid(s, k)) && Enabled(cfg, t, RevokeReuse(k))
      && Step(cfg, t, RevokeReuse(k)).store == RevokeCommand(s.store, cfg, s.now, Fid(s, k))
      && Step(cfg, t, RevokeReuse(k)).handlers[k].phase == Refused
  {
    ClaimAnswersByKeys(cfg, s, s.handlers[k].jti, clock);
    assert TokenOk(s.ledger, s.handlers[k].jti);
  }

  /** A finished rotation serves whoever waits for it, until the grace period ends. */
  lemma FinishedRotationServesWaiters(cfg: Config, s: State, h: nat, k: nat, elapsed: nat)
    requires Enabled(cfg, s, CompleteStep(h)) && elapsed < cfg.graceMs
    requires h != k && k in s.handlers && s.handlers[k] == Handler(s.handlers[h].jti, Polling)
    ensures
      var next := s.handlers[h].phase.next;
      var t := Step(cfg, s, CompleteStep(h)).(now := s.now + elapsed);
      && t.handlers[h].phase == Succeeded(next)
      && Enabled(cfg, t, PollStep(k)) && Step(cfg, t, PollStep(k)).handlers[k].phase == Succeeded(next)
  {
    var t := Step(cfg, s, CompleteStep(h)).(now := s.now + elapsed);
    assert Get(t.store.rotation, s.handlers[h].jti, t.now) == Some(Complete(s.handlers[h].phase.next));
  }

  /** A handler that fails between claim and issue leaves the store as its claim found it, while the family is active. */
  lemma FailedRotationIsUndone(cfg: Config, s: State, h: nat, clock: int, elapsed: nat)
    requires cfg.Valid() && Inv(cfg, s) && Enabled(cfg, s, ClaimStep(h, clock))
    requires Step(cfg, s, ClaimStep(h, clock)).handlers[h].phase.Holding?
    requires Get(s.store.family, Fid(s, h), s.now + elapsed) == Some(Active)
    ensures
      var t := Step(cfg, s, ClaimStep(h, clock)).(now := s.now + elapsed);
      && Enabled(cfg, t, RestoreStep(h))
      && Step(cfg, t, RestoreStep(h)).store == s.store && Step(cfg, t, RestoreStep(h)).handlers[h].phase == Refused
  {
    var jti, fid := s.handlers[h].jti, Fid(s, h);
    ClaimMakesHolder(cfg, s.ledger, s.store, s.now, jti, clock);
    assert JtiOk(s.ledger, s.store, jti) && FamilyOk(cfg, s.ledger, s.store, s.now, fid);
    RestoreUndoesClaim(s.store, cfg, s.now, s.now + elapsed, jti, fid, clock);
  }

  /**
   An issue extends the chain of its family by the new jti and stores it, unless
   the family is revoked: then nothing happens and the handler can still restore.
   */
  lemma IssueExactly(cfg: Config, s: State, h: nat, jti: Id, clock: int)
    requires cfg.Valid() && Inv(cfg, s) && Enabled(cfg, s, IssueStep(h, jti, clock))
    ensures
      var (fid, t) := (Fid(s, h), Step(cfg, s, IssueStep(h, jti, clock)));
      if Stored(s.store.family, fid, s.now) && s.store.family[fid].value == Revoked then t == s
      else
        && t.handlers[h].phase == Issued(jti)
        && Successor(t.ledger, jti, s.handlers[h].jti) && t.ledger.tokens[jti].fid == fid
        && t.ledger.families[fid].chain == s.ledger.families[fid].chain + [jti]
        && t.store.jti[jti] == Entry(fid, s.now + cfg.ttlMs) && t.store.family[fid] == Entry(Active, s.now + cfg.ttlMs)
  {}

  // ----- revocation is final ----------------------------------------------------

  /** The last value written to the family key is `revoked`, whether or not it has expired. */
  ghost predicate WasRevoked(s: State, fid: Id) {
    fid in s.ledger.families && fid in s.store.family && s.store.family[fid].value == Revoked
  }

  lemma RevokedStep(cfg: Config, s: State, a: Action, fid: Id)
    requires cfg.Valid() && Inv(cfg, s) && Enabled(cfg, s, a) && WasRevoked(s, fid)
    ensures WasRevoked(Step(cfg, s, a), fid)
    ensures Step(cfg, s, a).ledger.families[fid] == s.ledger.families[fid]
  {
    match a
    case IssueStep(h, jti, clock) => RevokedIssue(cfg, s, h, jti, clock, fid);
    case ClaimStep(h, clock) => RevokedClaim(s.store, cfg, s.now, s.handlers[h].jti, Fid(s, h), clock, fid);
    case _ =>
  }

  /** A holder's deadline lies before the expiry of a revoked family key, so the issue is refused. */
  lemma RevokedIssue(cfg: Config, s: State, h: nat, jti: Id, clock: int, fid: Id)
    requires cfg.Valid() && Inv(cfg, s) && Enabled(cfg, s, IssueStep(h, jti, clock)) && WasRevoked(s, fid)
    ensures WasRevoked(Step(cfg, s, IssueStep(h, jti, clock)), fid)
    ensures Step(cfg, s, IssueStep(h, jti, clock)).ledger.families[fid] == s.ledger.families[fid]
  {
    assert HandlerOk(cfg, s.ledger, s.store, s.now, s.handlers[h]);
  }

  lemma RevokedClaim(st: Store, cfg: Config, now: int, jti: Id, claimed: Id, clock: int, fid: Id)
    requires fid in st.family && st.family[fid].value == Revoked
    ensures var after := ClaimScript(st, cfg, now, jti, claimed, clock).0;
      fid in after.family && after.family[fid].value == Revoked
  {}

  lemma {:induction false} RevokedRun(cfg: Config, s: State, run: seq<Action>, fid: Id)
    requires cfg.Valid() && Inv(cfg, s) && ValidRun(cfg, s, run) && WasRevoked(s, fid)
    ensures WasRevoked(After(cfg, s, run), fid)
    ensures After(cfg, s, run).ledger.families[fid] == s.ledger.families[fid]
    decreases |run|
  {
    if run != [] {
      RevokedStep(cfg, s, run[0], fid);
      InvStep(cfg, s, run[0]);
      RevokedRun(cfg, Step(cfg, s, run[0]), run[1..], fid);
    }
  }

  /**
   Once a family is revoked, no later claim of any of its tokens succeeds and
   no token is ever added to it, even after the revoked marker has expired.
   */
  lemma RevocationIsFinal(cfg: Config, now: int, before: seq<Action>, later: seq<Action>, jti: Id, clock: int)
    requires cfg.Valid() && ValidRun(cfg, Start(now), before)
    requires ValidRun(cfg, After(cfg, Start(now), before), later)
    requires var s := After(cfg, After(cfg, Start(now), before), later);
      jti in s.ledger.tokens && WasRevoked(After(cfg, Start(now), before), s.ledger.tokens[jti].fid)
    ensures var s := After(cfg, After(cfg, Start(now), before), later); var fid := s.ledger.tokens[jti].fid;
      && !ClaimScript(s.store, cfg, s.now, jti, fid, clock).1.Claimed?
      && fid in s.ledger.families
      && s.ledger.families[fid] == After(cfg, Start(now), before).ledger.families[fid]
      && (LiveJtis(s, fid) != {} ==> Get(s.store.family, fid, s.now) == Some(Revoked))
  {
    var s0 := After(cfg, Start(now), before);
    var s := After(cfg, s0, later);
    var fid := s.ledger.tokens[jti].fid;
    InvStart(cfg, now);
    InvRun(cfg, Start(now), before);
    InvRun(cfg, s0, later);
    RevokedRun(cfg, s0, later, fid);
    assert jti in s.store.jti ==> JtiOk(s.ledger, s.store, jti);
    forall j | j in LiveJtis(s, fid) ensures s.now < s.store.family[fid].expiresAt {
      assert JtiOk(s.ledger, s.store, j);
    }
  }

  /** One TTL after a revocation an issue makes the family active again; one millisecond earlier it is refused. */
  lemma LateIssueReopens(cfg: Config, s: Store, now: int, jti: Id, next: Id, fid: Id, clock: int)
    requires cfg.Valid()
    ensures var revoked := RevokeCommand(s, cfg, now, fid);
      && !IssueScript(revoked, cfg, now + cfg.ttlMs - 1, next, fid, clock).1
      && IssueScript(revoked, cfg, now + cfg.ttlMs, next, fid, clock).1
      && Get(IssueScript(revoked, cfg, now + cfg.ttlMs, next, fid, clock).0.family, fid, now + cfg.ttlMs) == Some(Active)
  {}

  // ----- claim and restore --------------------------------------------------------

  /**
   A claim and a restore before the family expires cancel out: the store is
   exactly the one before the claim, so the caller is where it started.
   */
  lemma ClaimRestoreIdentity(cfg: Config, now: int, run: seq<Action>, jti: Id, clock: int, elapsed: nat)
    requires cfg.Valid() && ValidRun(cfg, Start(now), run)
    requires var s := After(cfg, Start(now), run);
      && jti in s.ledger.tokens
      && ClaimScript(s.store, cfg, s.now, jti, s.ledger.tokens[jti].fid, clock).1.Claimed?
      && Get(s.store.family, s.ledger.tokens[jti].fid, s.now + elapsed).Some?
    ensures var s := After(cfg, Start(now), run); var fid := s.ledger.tokens[jti].fid;
      RestoreScript(ClaimScript(s.store, cfg, s.now, jti, fid, clock).0, s.now + elapsed, jti, fid) == (s.store, true)
  {
    InvStart(cfg, now);
    InvRun(cfg, Start(now), run);
    var s := After(cfg, Start(now), run);
    var fid := s.ledger.tokens[jti].fid;
    assert JtiOk(s.ledger, s.store, jti) && FamilyOk(cfg, s.ledger, s.store, s.now, fid);
    ClaimedFamilyActive(s.store, cfg, s.now, jti, fid, clock);
    RestoreUndoesClaim(s.store, cfg, s.now, s.now + elapsed, jti, fid, clock);
  }

  /** For a handler between claim and issue, restore declines exactly when its family is revoked or gone. */
  lemma RestoreDeclinesExactly(cfg: Config, now: int, run: seq<Action>, h: nat)
    requires cfg.Valid() && ValidRun(cfg, Start(now), run)
    requires var s := After(cfg, Start(now), run); Known(s, h) && s.handlers[h].phase.Holding?
    ensures var s := After(cfg, Start(now), run);
      RestoreScript(s.store, s.now, s.handlers[h].jti, Fid(s, h)).1 <==>
      Get(s.store.family, Fid(s, h), s.now) == Some(Active)
  {
    InvStart(cfg, now);
    InvRun(cfg, Start(now), run);
    var s := After(cfg, Start(now), run);
    var jti := s.handlers[h].jti;
    assert HandlerOk(cfg, s.ledger, s.store, s.now, s.handlers[h]);
    if jti in s.store.rotation && s.store.rotation[jti].value.Complete? {
      assert RotationOk(s.ledger, s.store, jti);
      HasSuccessorNotNewest(s.ledger, s.store.rotation[jti].value.nextJti, jti);
      assert false;
    }
  }

  lemma {:induction false} TokensImmutable(cfg: Config, s: State, run: seq<Action>, jti: Id)
    requires ValidRun(cfg, s, run) && jti in s.ledger.tokens
    ensures jti in After(cfg, s, run).ledger.tokens
    ensures After(cfg, s, run).ledger.tokens[jti] == s.ledger.tokens[jti]
    decreases |run|
  {
    if run != [] {
      TokensImmutable(cfg, Step(cfg, s, run[0]), run[1..], jti);
    }
  }

  /** However often a jti is claimed and restored, its key expires when it was issued to expire. */
  lemma RestoresNeverExtend(cfg: Config, now: int, before: seq<Action>, later: seq<Action>, jti: Id)
    requires cfg.Valid() && ValidRun(cfg, Start(now), before)
    requires ValidRun(cfg, After(cfg, Start(now), before), later)
    requires jti in After(cfg, Start(now), before).store.jti
    requires jti in After(cfg, After(cfg, Start(now), before), later).store.jti
    ensures After(cfg, After(cfg, Start(now), before), later).store.jti[jti]
         == After(cfg, Start(now), before).store.jti[jti]
  {
    var s0 := After(cfg, Start(now), before);
    var s := After(cfg, s0, later);
    InvStart(cfg, now);
    InvRun(cfg, Start(now), before);
    InvRun(cfg, s0, later);
    assert JtiOk(s0.ledger, s0.store, jti) && JtiOk(s.ledger, s.store, jti);
    TokensImmutable(cfg, s0, later, jti);
  }

  /** The failed-call hypothesis is needed: restoring after an issue that ran leaves two live jtis. */
  lemma RestoreAfterIssueDoublesTheFamily(cfg: Config, s: Store, now: int, jti: Id, next: Id, fid: Id, clock: int)
    requires cfg.Valid() && jti != next
    requires ClaimScript(s, cfg, now, jti, fid, clock).1.Claimed?
    requires Get(s.family, fid, now) == Some(Active)
    ensures var claimed := ClaimScript(s, cfg, now, jti, fid, clock).0;
      var issued := IssueScript(claimed, cfg, now, next, fid, clock).0;
      var (restored, ok) := RestoreScript(issued, now, jti, fid);
      ok && Get(restored.jti, jti, now) == Some(fid) && Get(restored.jti, next, now) == Some(fid)
  {}

  // ----- the absolute lifetime ------------------------------------------------------

  /** No issue of the run finds the login-at key of its family expired. */
  ghost predicate NoStraddle(cfg: Config, s: State, run: seq<Action>)
    requires ValidRun(cfg, s, run)
    decreases |run|
  {
    run != [] ==>
      && (run[0].IssueStep? ==> Get(s.store.loginAt, Fid(s, run[0].h), s.now).Some?)
      && NoStraddle(cfg, Step(cfg, s, run[0]), run[1..])
  }

  /** The login-at key still holds what the login wrote. */
  ghost predicate LoginAtOk(cfg: Config, s: State) {
    && (forall f :: f in s.ledger.families ==>
          f in s.store.loginAt &&
          s.store.loginAt[f] == Entry(s.ledger.families[f].loginClock, s.ledger.families[f].loginTime + cfg.lifetime * 1000))
    && (forall f :: f in s.store.loginAt ==> f in s.ledger.families)
  }

  lemma LoginAtUntouched(cfg: Config, s: State, a: Action)
    requires Possible(s, a) && !a.Login? && !a.IssueStep?
    ensures Step(cfg, s, a).store.loginAt == s.store.loginAt && Step(cfg, s, a).ledger == s.ledger
  {}

  lemma LoginAtLogin(cfg: Config, s: State, jti: Id, fid: Id, claims: Claims, clock: int)
    requires cfg.Valid() && LoginAtOk(cfg, s) && Enabled(cfg, s, Login(jti, fid, claims, clock))
    requires fid !in s.store.family
    ensures LoginAtOk(cfg, Step(cfg, s, Login(jti, fid, claims, clock)))
  {
    var t := Step(cfg, s, Login(jti, fid, claims, clock));
    assert t.ledger.families == s.ledger.families[fid := Family(claims, clock, s.now, [jti])];
    assert t.store.loginAt == s.store.loginAt[fid := Entry(clock, s.now + cfg.lifetime * 1000)];
  }

  lemma LoginAtIssue(cfg: Config, s: State, h: nat, jti: Id, clock: int)
    requires LoginAtOk(cfg, s) && Enabled(cfg, s, IssueStep(h, jti, clock))
    requires Get(s.store.loginAt, Fid(s, h), s.now).Some?
    ensures LoginAtOk(cfg, Step(cfg, s, IssueStep(h, jti, clock)))
  {
    var t, fid := Step(cfg, s, IssueStep(h, jti, clock)), Fid(s, h);
    assert t.store.loginAt == s.store.loginAt;
    assert t.ledger.families == s.ledger.families[fid := s.ledger.families[fid].(chain := t.ledger.families[fid].chain)];
  }

  lemma LoginAtStep(cfg: Config, s: State, a: Action)
    requires cfg.Valid() && Inv(cfg, s) && LoginAtOk(cfg, s) && Enabled(cfg, s, a)
    requires a.IssueStep? ==> Get(s.store.loginAt, Fid(s, a.h), s.now).Some?
    ensures LoginAtOk(cfg, Step(cfg, s, a))
  {
    if a.Login? {
      assert a.fid in s.store.family ==> FamilyOk(cfg, s.ledger, s.store, s.now, a.fid);
      LoginAtLogin(cfg, s, a.jti, a.fid, a.claims, a.clock);
    } else if a.IssueStep? {
      LoginAtIssue(cfg, s, a.h, a.jti, a.clock);
    } else {
      LoginAtUntouched(cfg, s, a);
    }
  }

  lemma {:induction false} LoginAtRun(cfg: Config, s: State, run: seq<Action>)
    requires cfg.Valid() && Inv(cfg, s) && LoginAtOk(cfg, s) && ValidRun(cfg, s, run) && NoStraddle(cfg, s, run)
    ensures LoginAtOk(cfg, After(cfg, s, run))
    decreases |run|
  {
    if run != [] {
      LoginAtStep(cfg, s, run[0]);
      InvStep(cfg, s, run[0]);
      LoginAtRun(cfg, Step(cfg, s, run[0]), run[1..]);
    }
  }

  /**
   However many rotations happen, no claim succeeds once the absolute lifetime
   has passed since the login, by the callers' clock and by the server's.
   */
  lemma AbsoluteLifetime(cfg: Config, now: int, run: seq<Action>, jti: Id, clock: int)
    requires cfg.Valid() && ValidRun(cfg, Start(now), run) && NoStraddle(cfg, Start(now), run)
    requires var s := After(cfg, Start(now), run);
      jti in s.ledger.tokens && ClaimScript(s.store, cfg, s.now, jti, s.ledger.tokens[jti].fid, clock).1.Claimed?
    ensures var s := After(cfg, Start(now), run);
      && s.ledger.tokens[jti].fid in s.ledger.families
      && var login := s.ledger.families[s.ledger.tokens[jti].fid];
         clock < login.loginClock + cfg.lifetime && s.now < login.loginTime + cfg.lifetime * 1000
  {
    InvStart(cfg, now);
    InvRun(cfg, Start(now), run);
    LoginAtRun(cfg, Start(now), run);
    var s := After(cfg, Start(now), run);
    var fid := s.ledger.tokens[jti].fid;
    assert JtiOk(s.ledger, s.store, jti);
    assert TokenOk(s.ledger, jti);
    ClaimedFamilyActive(s.store, cfg, s.now, jti, fid, clock);
    assert Get(s.store.family, fid, s.now) == Some(Active);
    assert Get(s.store.loginAt, fid, s.now) == Some(s.ledger.families[fid].loginClock);
  }

  /**
   An issue that finds the login-at key of its family expired is past the absolute
   lifetime, and renews it: the new token can be claimed for one more lifetime,
   as long as its own TTL lasts.
   */
  lemma StraddlingIssueRenews(cfg: Config, now: int, run: seq<Action>, h: nat, next: Id, clock: int, elapsed: nat, later: int)
    requires cfg.Valid() && ValidRun(cfg, Start(now), run) && NoStraddle(cfg, Start(now), run)
    requires var s := After(cfg, Start(now), run);
      && Enabled(cfg, s, IssueStep(h, next, clock))
      && Get(s.store.loginAt, Fid(s, h), s.now).None? && Get(s.store.family, Fid(s, h), s.now) != Some(Revoked)
    requires elapsed < cfg.ttlMs && elapsed < cfg.lifetime * 1000 && later - clock < cfg.lifetime
    ensures var s := After(cfg, Start(now), run); var fid := Fid(s, h);
      var t := Step(cfg, s, IssueStep(h, next, clock));
      && s.now >= s.ledger.families[fid].loginTime + cfg.lifetime * 1000
      && next in t.ledger.tokens && t.ledger.tokens[next].fid == fid
      && ClaimScript(t.store, cfg, t.now + elapsed, next, fid, later).1 == Claimed(fid)
  {
    InvStart(cfg, now);
    InvRun(cfg, Start(now), run);
    LoginAtRun(cfg, Start(now), run);
    IssueRenews(cfg, After(cfg, Start(now), run), h, next, clock, elapsed, later);
  }

  lemma IssueRenews(cfg: Config, s: State, h: nat, next: Id, clock: int, elapsed: nat, later: int)
    requires cfg.Valid() && Possible(s, IssueStep(h, next, clock))
    requires Get(s.store.loginAt, Fid(s, h), s.now).None? && Get(s.store.family, Fid(s, h), s.now) != Some(Revoked)
    requires elapsed < cfg.ttlMs && elapsed < cfg.lifetime * 1000 && later - clock < cfg.lifetime
    ensures var fid, t := Fid(s, h), Step(cfg, s, IssueStep(h, next, clock));
      && t.now == s.now && next in t.ledger.tokens && t.ledger.tokens[next].fid == fid
      && ClaimScript(t.store, cfg, t.now + elapsed, next, fid, later).1 == Claimed(fid)
  {
    var t := Step(cfg, s, IssueStep(h, next, clock));
    assert Get(t.store.loginAt, Fid(s, h), t.now + elapsed) == Some(clock);
  }

  // ----- the straddle witness ---------------------------------------------------------

  /** Family `fid` was just issued `jti`; its login-at key holds `login`. */
  ghost predicate JustIssued(cfg: Config, s: State, fid: Id, jti: Id, login: Entry<int>) {
    && jti in s.ledger.tokens && s.ledger.tokens[jti].fid == fid && fid in s.ledger.families
    && jti in s.store.jti && s.store.jti[jti] == Entry(fid, s.now + cfg.ttlMs)
    && fid in s.store.family && s.store.family[fid] == Entry(Active, s.now + cfg.ttlMs)
    && fid in s.store.loginAt && s.store.loginAt[fid] == login
  }

  function Seconds(ms: int): int { ms / 1000 }

  ghost predicate Leads(cfg: Config, s: State, run: seq<Action>, t: State) {
    ValidRun(cfg, s, run) && After(cfg, s, run) == t
  }

  lemma {:induction false} RunConcat(cfg: Config, s: State, a: seq<Action>, t: State, b: seq<Action>, u: State)
    requires Leads(cfg, s, a, t) && Leads(cfg, t, b, u)
    ensures Leads(cfg, s, a + b, u)
    decreases |a|
  {
    if a == [] {
      assert a + b == b;
    } else {
      assert (a + b)[1..] == a[1..] + b;
      RunConcat(cfg, Step(cfg, s, a[0]), a[1..], t, b, u);
    }
  }

  lemma OneStep(cfg: Config, s: State, a: Action) returns (run: seq<Action>)
    requires Enabled(cfg, s, a)
    ensures Leads(cfg, s, run, Step(cfg, s, a))
  {
    run := [a];
    assert run[1..] == [];
  }

  /** Time passes and a new handler arrives with the jti. */
  lemma WaitAndArrive(cfg: Config, s: State, h: nat, jti: Id, wait: nat) returns (run: seq<Action>, t: State)
    requires h !in s.handlers && jti in s.ledger.tokens
    ensures Leads(cfg, s, run, t) && t == s.(now := s.now + wait, handlers := s.handlers[h := Handler(jti, PreClaim)])
  {
    var first := OneStep(cfg, s, Tick(wait));
    var s1 := s.(now := s.now + wait);
    var second := OneStep(cfg, s1, Arrive(h, jti));
    t := s.(now := s.now + wait, handlers := s.handlers[h := Handler(jti, PreClaim)]);
    RunConcat(cfg, s, first, s1, second, t);
    run := first + second;
  }

  /** Handler `h` has claimed `jti` just now, and the family is as it was. */
  ghost predicate JustClaimed(s: State, t: State, fid: Id, jti: Id, h: nat, login: Entry<int>) {
    && t.now == s.now && t.handlers == s.handlers[h := Handler(jti, Holding(s.now))] && t.ledger == s.ledger
    && fid in t.store.family && t.store.family[fid].value == Active
    && fid in t.store.loginAt && t.store.loginAt[fid] == login
  }

  lemma RotationClaims(cfg: Config, s: State, fid: Id, jti: Id, h: nat, login: Entry<int>) returns (run: seq<Action>, t: State)
    requires h in s.handlers && s.handlers[h] == Handler(jti, PreClaim)
    requires fid in s.ledger.families && jti in s.ledger.tokens && s.ledger.tokens[jti].fid == fid
    requires jti in s.store.jti && s.store.jti[jti].value == fid && s.now < s.store.jti[jti].expiresAt
    requires fid in s.store.family && s.store.family[fid].value == Active && s.now < s.store.family[fid].expiresAt
    requires fid in s.store.loginAt && s.store.loginAt[fid] == login && s.now < login.expiresAt
    requires Seconds(s.now) - login.value < cfg.lifetime
    ensures Leads(cfg, s, run, t) && JustClaimed(s, t, fid, jti, h, login)
  {
    var claim := ClaimStep(h, Seconds(s.now));
    assert ClaimScript(s.store, cfg, s.now, jti, fid, Seconds(s.now)).1 == Claimed(fid);
    t := Step(cfg, s, claim);
    run := OneStep(cfg, s, claim);
  }

  /** The family got the new jti, and its login time is unchanged in the ledger. */
  ghost predicate JustRotated(cfg: Config, s: State, t: State, fid: Id, next: Id, login: Entry<int>) {
    && t.ledger.tokens.Keys == s.ledger.tokens.Keys + {next}
    && JustIssued(cfg, t, fid, next,
         if t.now < login.expiresAt then login else Entry(Seconds(t.now), t.now + cfg.lifetime * 1000))
    && fid in s.ledger.families
    && t.ledger.families[fid].loginTime == s.ledger.families[fid].loginTime
    && t.ledger.families[fid].loginClock == s.ledger.families[fid].loginClock
  }

  lemma RotationIssues(cfg: Config, s: State, fid: Id, jti: Id, next: Id, h: nat, login: Entry<int>) returns (run: seq<Action>, t: State)
    requires h in s.handlers && s.handlers[h].jti == jti && s.handlers[h].phase.Holding?
    requires s.now < s.handlers[h].phase.at + cfg.ttlMs && next !in s.ledger.tokens
    requires jti in s.ledger.tokens && s.ledger.tokens[jti].fid == fid && fid in s.ledger.families
    requires fid in s.store.family && s.store.family[fid].value == Active
    requires fid in s.store.loginAt && s.store.loginAt[fid] == login
    ensures Leads(cfg, s, run, t) && JustRotated(cfg, s, t, fid, next, login)
    ensures t.now == s.now && t.handlers.Keys == s.handlers.Keys
  {
    var issue := IssueStep(h, next, Seconds(s.now));
    t := Step(cfg, s, issue);
    run := OneStep(cfg, s, issue);
  }

  /** One rotation: wait, claim, hold the jti for a while, issue. Clocks show the server's time. */
  lemma RotateOnce(cfg: Config, s: State, fid: Id, jti: Id, next: Id, h: nat, wait: nat, hold: nat, login: Entry<int>)
    returns (run: seq<Action>, t: State)
    requires cfg.Valid() && JustIssued(cfg, s, fid, jti, login)
    requires h !in s.handlers && next !in s.ledger.tokens
    requires wait < cfg.ttlMs && hold < cfg.ttlMs
    requires s.now + wait < login.expiresAt && Seconds(s.now + wait) - login.value < cfg.lifetime
    ensures Leads(cfg, s, run, t) && JustRotated(cfg, s, t, fid, next, login)
    ensures t.now == s.now + wait + hold && t.handlers.Keys == s.handlers.Keys + {h}
  {
    var r0, s0 := WaitAndArrive(cfg, s, h, jti, wait);
    var r1, s1 := RotationClaims(cfg, s0, fid, jti, h, login);
    var s2 := s1.(now := s1.now + hold);
    var r2 := OneStep(cfg, s1, Tick(hold));
    var r3, s3 := RotationIssues(cfg, s2, fid, jti, next, h, login);
    RunConcat(cfg, s1, r2, s2, r3, s3);
    RunConcat(cfg, s0, r1, s1, r2 + r3, s3);
    RunConcat(cfg, s, r0, s0, r1 + (r2 + r3), s3);
    run, t := r0 + (r1 + (r2 + r3)), s3;
  }

  const DAY := 24 * 60 * 60 * 1000

  /** Login at time 0, then a rotation every six days up to day 24. */
  lemma FourRotations() returns (run: seq<Action>, s: State)
    ensures ValidRun(DEPLOYED, Start(0), run) && s == After(DEPLOYED, Start(0), run)
    ensures s.now == 24 * DAY && s.ledger.tokens.Keys == {"a", "b", "c", "d", "e"} && s.handlers.Keys == {1, 2, 3, 4}
    ensures JustIssued(DEPLOYED, s, "f", "e", Entry(0, 30 * DAY))
    ensures s.ledger.families["f"].loginTime == 0 && s.ledger.families["f"].loginClock == 0
  {
    run, s := FirstLogin();
    run, s := Rotated(run, s, "a", "b", 1);
    run, s := Rotated(run, s, "b", "c", 2);
    run, s := Rotated(run, s, "c", "d", 3);
    run, s := Rotated(run, s, "d", "e", 4);
  }

  lemma FirstLogin() returns (run: seq<Action>, s: State)
    ensures ValidRun(DEPLOYED, Start(0), run) && s == After(DEPLOYED, Start(0), run)
    ensures s.now == 0 && s.ledger.tokens.Keys == {"a"} && s.handlers == map[]
    ensures JustIssued(DEPLOYED, s, "f", "a", Entry(0, 30 * DAY))
    ensures s.ledger.families["f"].loginTime == 0 && s.ledger.families["f"].loginClock == 0
  {
    var login := Login("a", "f", Claims("user", "tenant", ["pwd"], 0, None), 0);
    run := [login];
    s := Step(DEPLOYED, Start(0), login);
    assert run[1..] == [];
    assert ValidRun(DEPLOYED, s, run[1..]) && After(DEPLOYED, s, run[1..]) == s;
  }

  lemma Rotated(run: seq<Action>, s: State, jti: Id, next: Id, h: nat) returns (run': seq<Action>, t: State)
    requires ValidRun(DEPLOYED, Start(0), run) && s == After(DEPLOYED, Start(0), run)
    requires JustIssued(DEPLOYED, s, "f", jti, Entry(0, 30 * DAY))
    requires h !in s.handlers && next !in s.ledger.tokens && 0 <= s.now <= 18 * DAY
    ensures ValidRun(DEPLOYED, Start(0), run') && t == After(DEPLOYED, Start(0), run')
    ensures t.now == s.now + 6 * DAY && t.ledger.tokens.Keys == s.ledger.tokens.Keys + {next} && t.handlers.Keys == s.handlers.Keys + {h}
    ensures JustIssued(DEPLOYED, t, "f", next, Entry(0, 30 * DAY))
    ensures t.ledger.families["f"].loginTime == s.ledger.families["f"].loginTime
    ensures t.ledger.families["f"].loginClock == s.ledger.families["f"].loginClock
  {
    var more, after := RotateOnce(DEPLOYED, s, "f", jti, next, h, 6 * DAY, 0, Entry(0, 30 * DAY));
    RunConcat(DEPLOYED, Start(0), run, s, more, after);
    run', t := run + more, after;
  }

  /**
   The no-straddle hypothesis is needed: with the deployed constants, a claim
   one second before day 30 whose issue comes one second after it renews the
   login time, and a claim past day 30 succeeds.
   */
  lemma StraddleWitness() returns (run: seq<Action>, clock: int)
    ensures ValidRun(DEPLOYED, Start(0), run) && !NoStraddle(DEPLOYED, Start(0), run)
    ensures var s := After(DEPLOYED, Start(0), run);
      && "g" in s.ledger.tokens
      && ClaimScript(s.store, DEPLOYED, s.now, "g", s.ledger.tokens["g"].fid, clock).1.Claimed?
      && s.ledger.tokens["g"].fid in s.ledger.families
      && var login := s.ledger.families[s.ledger.tokens["g"].fid];
         clock >= login.loginClock + DEPLOYED.lifetime && s.now >= login.loginTime + DEPLOYED.lifetime * 1000
  {
    var first, s := FourRotations();
    var more, t := RotateOnce(DEPLOYED, s, "f", "e", "g", 5, 6 * DAY - 1000, 2000, Entry(0, 30 * DAY));
    RunConcat(DEPLOYED, Start(0), first, s, more, t);
    run, clock := first + more, Seconds(30 * DAY + 1000);
    if NoStraddle(DEPLOYED, Start(0), run) {
      AbsoluteLifetime(DEPLOYED, 0, run, "g", clock);
    }
  }

  // ----- a late issue, from a login on ------------------------------------------------

  /** A run of what the code alone permits, without the deadline hypothesis. */
  ghost predicate LaxRun(cfg: Config, s: State, run: seq<Action>, t: State)
    decreases |run|
  {
    if run == [] then s == t
    else Possible(s, run[0]) && LaxRun(cfg, Step(cfg, s, run[0]), run[1..], t)
  }

  lemma {:induction false} ValidIsLax(cfg: Config, s: State, run: seq<Action>, t: State)
    requires Leads(cfg, s, run, t)
    ensures LaxRun(cfg, s, run, t)
    decreases |run|
  {
    if run != [] { ValidIsLax(cfg, Step(cfg, s, run[0]), run[1..], t); }
  }

  lemma {:induction false} LaxSnoc(cfg: Config, s: State, run: seq<Action>, t: State, a: Action)
    requires LaxRun(cfg, s, run, t) && Possible(t, a)
    ensures LaxRun(cfg, s, run + [a], Step(cfg, t, a))
    decreases |run|
  {
    if run == [] {
      assert [] + [a] == [a] && [a][1..] == [];
    } else {
      assert (run + [a])[1..] == run[1..] + [a];
      LaxSnoc(cfg, Step(cfg, s, run[0]), run[1..], t, a);
    }
  }

  /** A handler has claimed the first token of family `f` when the family is revoked. */
  lemma RevokedWhileHolding() returns (run: seq<Action>, s: State)
    ensures Leads(DEPLOYED, Start(0), run, s) && WasRevoked(s, "f") && s.now == 0
    ensures s.ledger.tokens.Keys == {"a"} && s.ledger.tokens["a"].fid == "f" && s.handlers.Keys == {1}
    ensures s.handlers[1] == Handler("a", Holding(0))
    ensures s.store.family["f"].expiresAt == DEPLOYED.ttlMs
    ensures "f" in s.store.loginAt && s.store.loginAt["f"] == Entry(0, 30 * DAY)
  {
    var r0, s0 := FirstLogin();
    var r1, s1 := WaitAndArrive(DEPLOYED, s0, 1, "a", 0);
    var r2, s2 := RotationClaims(DEPLOYED, s1, "f", "a", 1, Entry(0, 30 * DAY));
    s := Step(DEPLOYED, s2, RevokeFamily("f"));
    var r3 := OneStep(DEPLOYED, s2, RevokeFamily("f"));
    RunConcat(DEPLOYED, s1, r2, s2, r3, s);
    RunConcat(DEPLOYED, s0, r1, s1, r2 + r3, s);
    RunConcat(DEPLOYED, Start(0), r0, s0, r1 + (r2 + r3), s);
    run := r0 + (r1 + (r2 + r3));
  }

  /** An issue one TTL after the revocation: the family is active and the new token can be claimed. */
  lemma IssueAfterRevokedExpired(s: State, h: nat)
    requires h in s.handlers && s.handlers[h] == Handler("a", Holding(0)) && s.now == DEPLOYED.ttlMs
    requires WasRevoked(s, "f") && s.ledger.tokens.Keys == {"a"} && s.ledger.tokens["a"].fid == "f"
    requires s.store.family["f"].expiresAt == DEPLOYED.ttlMs
    requires "f" in s.store.loginAt && s.store.loginAt["f"] == Entry(0, 30 * DAY)
    ensures Possible(s, IssueStep(h, "b", Seconds(s.now))) && !Enabled(DEPLOYED, s, IssueStep(h, "b", Seconds(s.now)))
    ensures var t := Step(DEPLOYED, s, IssueStep(h, "b", Seconds(s.now)));
      && "b" in t.ledger.tokens && t.ledger.tokens["b"].fid == "f"
      && ClaimScript(t.store, DEPLOYED, t.now, "b", "f", Seconds(t.now)).1 == Claimed("f")
  {
  }

  /**
   The deadline hypothesis is needed: from a login on, a run in which the family is
   revoked, one TTL passes, and the handler then issues; a token of the revoked
   family can be claimed.
   */
  lemma LateIssueRun() returns (before: seq<Action>, revoked: State, later: seq<Action>, s: State)
    ensures Leads(DEPLOYED, Start(0), before, revoked) && WasRevoked(revoked, "f")
    ensures LaxRun(DEPLOYED, revoked, later, s) && !ValidRun(DEPLOYED, revoked, later)
    ensures "b" in s.ledger.tokens && s.ledger.tokens["b"].fid == "f"
    ensures ClaimScript(s.store, DEPLOYED, s.now, "b", "f", Seconds(s.now)).1 == Claimed("f")
  {
    before, revoked := RevokedWhileHolding();
    var wait := Tick(DEPLOYED.ttlMs);
    var expired := revoked.(now := revoked.now + DEPLOYED.ttlMs);
    var issue := IssueStep(1, "b", Seconds(expired.now));
    var first := OneStep(DEPLOYED, revoked, wait);
    ValidIsLax(DEPLOYED, revoked, first, expired);
    IssueAfterRevokedExpired(expired, 1);
    LaxSnoc(DEPLOYED, revoked, first, expired, issue);
    later, s := first + [issue], Step(DEPLOYED, expired, issue);
    LateIsNotValid(DEPLOYED, revoked, first, expired, issue);
  }

  lemma {:induction false} LateIsNotValid(cfg: Config, s: State, run: seq<Action>, t: State, a: Action)
    requires Leads(cfg, s, run, t) && !Enabled(cfg, t, a)
    ensures !ValidRun(cfg, s, run + [a])
    decreases |run|
  {
    if run == [] {
      assert run + [a] == [a];
    } else {
      assert (run + [a])[1..] == run[1..] + [a];
      LateIsNotValid(cfg, Step(cfg, s, run[0]), run[1..], t, a);
    }
  }
}
