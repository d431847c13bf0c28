/**
 The `/auth/refresh` and `/auth/logout` handlers, one call at a time, over the
 refresh store. A fault flag makes the call of that name throw without effect.
 */
module AuthSession {
  import opened Wrappers
  import opened RefreshStore
  import Protocol = RefreshProtocol

  /** The answer classes: 200 with a refresh token, 401, 403, 503. */
  datatype Answer = Tokens(jti: Id) | Unauthorized | Forbidden | Unavailable

  datatype Faults = Faults(
    membership: bool, admissionRevoke: bool, claim: bool, reuseRevoke: bool,
    tokens: bool, issue: bool, complete: bool, restore: bool)

  /** A refresh token whose signature verified. */
  datatype Presented = Presented(jti: Id, fid: Id)

  /** What every reachable store says about a signed token. */
  ghost predicate Consistent(s: Store, token: Presented) {
    token.jti in s.jti ==>
      && s.jti[token.jti].value == token.fid
      && token.fid in s.family
      && s.jti[token.jti].expiresAt <= s.family[token.fid].expiresAt
      && (s.family[token.fid].value.Active? ==> s.jti[token.jti].expiresAt == s.family[token.fid].expiresAt)
      && token.jti !in s.rotation
  }

  lemma ReachableIsConsistent(cfg: Config, s: Protocol.State, jti: Id)
    requires Protocol.Inv(cfg, s) && jti in s.ledger.tokens
    ensures Consistent(s.store, Presented(jti, s.ledger.tokens[jti].fid))
  {
    if jti in s.store.jti {
      assert Protocol.JtiOk(s.ledger, s.store, jti);
      assert Protocol.FamilyOk(cfg, s.ledger, s.store, s.now, s.ledger.tokens[jti].fid);
    }
  }

  predicate NoFault(f: Faults) {
    && !f.membership && !f.admissionRevoke && !f.claim && !f.reuseRevoke
    && !f.tokens && !f.issue && !f.complete && !f.restore
  }

  /** The family key is active, and the login is known and younger than the absolute lifetime. */
  predicate ActiveAndYoung(st: Store, cfg: Config, now: int, fid: Id, clock: int) {
    && Get(st.family, fid, now) == Some(Active)
    && Get(st.loginAt, fid, now).Some? && clock - Get(st.loginAt, fid, now).value < cfg.lifetime
  }

  /** The jti is not stored any more, in a family that is active and young or has expired. */
  predicate OpenAndConsumed(st: Store, cfg: Config, now: int, token: Presented, clock: int) {
    && Get(st.jti, token.jti, now).None?
    && (Get(st.family, token.fid, now).None? || ActiveAndYoung(st, cfg, now, token.fid, clock))
  }

  /** The first poll that is not pending, if it shows a finished rotation. */
  function FirstFinished(polls: seq<Option<Marker>>): Option<Id> {
    if polls == [] || polls[0].None? then None
    else if polls[0].value.Complete? then Some(polls[0].value.nextJti)
    else FirstFinished(polls[1..])
  }

  function AnswerToMarker(marker: Marker, polls: seq<Option<Marker>>): Answer {
    match marker
    case Complete(next) => Tokens(next)
    case Pending(_) => if FirstFinished(polls).Some? then Tokens(FirstFinished(polls).value) else Unavailable
  }

  /**
   Polls the rotation marker. `polls` are the values seen before the deadline;
   the poll stops at the first finished result, or when the marker is gone.
   */
  method WaitForRotation(polls: seq<Option<Marker>>) returns (result: Option<Id>)
    ensures result.Some? ==> exists i :: 0 <= i < |polls| && polls[i] == Some(Complete(result.value)) &&
                                         forall k :: 0 <= k < i ==> polls[k].Some? && polls[k].value.Pending?
    ensures result.None? ==> forall i :: 0 <= i < |polls| && polls[i].Some? && polls[i].value.Complete? ==>
                                         exists k :: 0 <= k < i && polls[k].None?
    ensures result == FirstFinished(polls)
  {
    assert polls[0..] == polls;
    for i := 0 to |polls|
      invariant FirstFinished(polls) == FirstFinished(polls[i..])
      invariant forall k :: 0 <= k < i ==> polls[k].Some? && polls[k].value.Pending?
    {
      assert polls[i..][1..] == polls[i + 1..];
      match polls[i]
      case None => return None;
      case Some(Complete(next)) => return Some(next);
      case Some(Pending(_)) =>
    }
    return None;
  }

  /** `token` is None for a missing or invalid cookie; `admitted` is the membership check. */
  method Refresh(redis: RefreshRedis, token: Option<Presented>, admitted: bool, newJti: Id, clock: int,
                 polls: seq<Option<Marker>>, faults: Faults)
    returns (answer: Answer)
    requires redis.cfg.Valid()
    requires token.Some? ==> Consistent(redis.store, token.value) && newJti != token.value.jti
    modifies redis`store
    // A retryable answer leaves the caller where it started, unless the compensation itself failed.
    ensures answer.Unavailable? && !faults.restore ==> redis.store == old(redis.store)
    // A refused token is useless from now on: its family is not active, and its jti cannot be claimed.
    ensures (answer.Unauthorized? || answer.Forbidden?) && token.Some? ==>
      && Get(redis.store.family, token.value.fid, redis.now) != Some(Active)
      && !ClaimScript(redis.store, redis.cfg, redis.now, token.value.jti, token.value.fid, clock).1.Claimed?
    // A refused membership ends the family.
    ensures answer.Forbidden? ==> token.Some? && !admitted && redis.store == RevokeCommand(old(redis.store), redis.cfg, redis.now, token.value.fid)
    // Tokens come from a rotation of this jti, or from the cached result of one; a refused membership gets none.
    ensures answer.Tokens? ==> token.Some? && admitted && !faults.membership
    ensures answer.Tokens? && old(Get(redis.store.jti, token.value.jti, redis.now)).Some? ==>
      && answer.jti == newJti
      && token.value.jti !in redis.store.jti
      && Get(redis.store.jti, newJti, redis.now) == Some(token.value.fid)
      && Get(redis.store.family, token.value.fid, redis.now) == Some(Active)
      && (if faults.complete then Get(redis.store.rotation, token.value.jti, redis.now) == Some(Pending(token.value.fid))
          else Get(redis.store.rotation, token.value.jti, redis.now) == Some(Complete(newJti)))
    ensures answer.Tokens? && old(Get(redis.store.jti, token.value.jti, redis.now)).None? ==>
      && redis.store == old(redis.store)
      && (Get(redis.store.rotation, token.value.jti, redis.now) == Some(Complete(answer.jti)) || Some(Complete(answer.jti)) in polls)
    // A missing or invalid cookie is refused and touches nothing.
    ensures token.None? ==> answer.Unauthorized? && redis.store == old(redis.store)
    // The membership decides before the claim.
    ensures token.Some? && !faults.membership && !admitted ==> answer == if faults.admissionRevoke then Unavailable else Forbidden
    // A jti that is neither stored nor marked, in an active young family, is a replay: the family is revoked.
    ensures token.Some? && admitted && !faults.membership && !faults.claim && !faults.reuseRevoke
      && old(ActiveAndYoung(redis.store, redis.cfg, redis.now, token.value.fid, clock))
      && old(Get(redis.store.jti, token.value.jti, redis.now)).None? && old(Get(redis.store.rotation, token.value.jti, redis.now)).None?
      ==> answer.Unauthorized? && redis.store == RevokeCommand(old(redis.store), redis.cfg, redis.now, token.value.fid)
    // A family that is revoked, gone with its marker, or too old is refused; one that is too old is revoked.
    ensures token.Some? && admitted && !faults.membership && !faults.claim
      && old(Get(redis.store.family, token.value.fid, redis.now)) == Some(Revoked)
      ==> answer.Unauthorized? && redis.store == old(redis.store)
    ensures token.Some? && admitted && !faults.membership && !faults.claim
      && old(Get(redis.store.family, token.value.fid, redis.now)) == Some(Active)
      && !old(ActiveAndYoung(redis.store, redis.cfg, redis.now, token.value.fid, clock))
      ==> answer.Unauthorized? && redis.store == RevokeCommand(old(redis.store), redis.cfg, redis.now, token.value.fid)
    ensures token.Some? && admitted && !faults.membership && !faults.claim
      && old(Get(redis.store.family, token.value.fid, redis.now)).None? && old(Get(redis.store.rotation, token.value.jti, redis.now)).None?
      ==> answer.Unauthorized? && redis.store == old(redis.store)
    // A finished marker is answered with its successor; a pending one with the first result that a poll finds.
    ensures token.Some? && admitted && !faults.membership && !faults.claim
      && old(OpenAndConsumed(redis.store, redis.cfg, redis.now, token.value, clock))
      && old(Get(redis.store.rotation, token.value.jti, redis.now)).Some?
      ==> answer == AnswerToMarker(old(Get(redis.store.rotation, token.value.jti, redis.now)).value, polls)
    // Without a fault, 503 means that another caller holds the jti and no poll found its result.
    ensures answer.Unavailable? && NoFault(faults) ==>
      && token.Some? && FirstFinished(polls).None?
      && old(Get(redis.store.rotation, token.value.jti, redis.now)).Some? && old(Get(redis.store.rotation, token.value.jti, redis.now)).value.Pending?
    // A failed lookup or claim is retryable and touches nothing; after a claim a failure is retryable too.
    ensures token.Some? && (faults.membership || (admitted && faults.claim)) ==> answer.Unavailable? && redis.store == old(redis.store)
    ensures token.Some? && admitted && !faults.membership && !faults.claim && (faults.tokens || faults.issue)
      && old(ClaimScript(redis.store, redis.cfg, redis.now, token.value.jti, token.value.fid, clock)).1.Claimed?
      ==> answer.Unavailable? && redis.store ==
            if faults.restore then old(ClaimScript(redis.store, redis.cfg, redis.now, token.value.jti, token.value.fid, clock)).0 else old(redis.store)
    // A rotation changes the store by its claim, its issue and its marker, and by nothing else.
    ensures answer.Tokens? && old(Get(redis.store.jti, token.value.jti, redis.now)).Some? ==>
      var (jti, fid) := (token.value.jti, token.value.fid);
      var claimed := ClaimScript(old(redis.store), redis.cfg, redis.now, jti, fid, clock).0;
      var issued := IssueScript(claimed, redis.cfg, redis.now, newJti, fid, clock).0;
      redis.store == if faults.complete then issued else CompleteCommand(issued, redis.cfg, redis.now, jti, newJti)
    // With no fault, a live jti of an admitted member within its lifetime always rotates.
    ensures token.Some? && admitted && !faults.membership && !faults.claim && !faults.tokens && !faults.issue
      && old(ClaimScript(redis.store, redis.cfg, redis.now, token.value.jti, token.value.fid, clock)).1.Claimed?
      ==> answer == Tokens(newJti)
  {
    if token.None? {
      return Unauthorized;
    }
    var jti, fid := token.value.jti, token.value.fid;
    if faults.membership {
      return Unavailable;
    }
    if !admitted {
      if faults.admissionRevoke {
        return Unavailable;
      }
      redis.Revoke(fid);
      return Forbidden;
    }
    if faults.claim {
      return Unavailable;
    }
    ghost var before := redis.store;
    var reply := redis.Claim(jti, fid, clock);
    match reply
    case Concurrent(marker) =>
      if marker.Complete? {
        return Tokens(marker.nextJti);
      }
      var polled := WaitForRotation(polls);
      if polled.Some? {
        return Tokens(polled.value);
      }
      return Unavailable;
    case Reuse(familyId) =>
      if faults.reuseRevoke {
        return Unavailable;
      }
      redis.Revoke(familyId);
      return Unauthorized;
    case AbsoluteExpired =>
      return Unauthorized;
    case FamilyRevoked =>
      return Unauthorized;
    case NotFound =>
      return Unauthorized;
    case Claimed(familyId) =>
      // Phase `claimed`: a throw from here to the issue restores the jti.
      ClaimedFamilyActive(before, redis.cfg, redis.now, jti, fid, clock);
      var thrown := faults.tokens || faults.issue;
      if !thrown {
        var issued := redis.Issue(newJti, fid, clock);
        thrown := !issued;
      }
      if thrown {
        if !faults.restore {
          var restored := redis.Restore(jti, familyId);
          RestoreUndoesClaim(before, redis.cfg, redis.now, redis.now, jti, fid, clock);
        }
        return Unavailable;
      }
      // Phase `issued`: the old jti is never restored again.
      if !faults.complete {
        redis.Complete(jti, newJti);
      }
      return Tokens(newJti);
  }

  /** Sign-out clears the cookie only when the family, if the token names one, is revoked. */
  method Logout(redis: RefreshRedis, token: Option<Presented>, revokeFails: bool) returns (cleared: bool)
    modifies redis`store
    ensures redis.store == if token.Some? && !revokeFails then RevokeCommand(old(redis.store), redis.cfg, redis.now, token.value.fid) else old(redis.store)
    ensures redis.cfg.Valid() && cleared && token.Some? ==> Get(redis.store.family, token.value.fid, redis.now) == Some(Revoked)
    ensures !cleared <==> token.Some? && revokeFails
  {
    if token.Some? {
      if revokeFails {
        return false;
      }
      redis.Revoke(token.value.fid);
    }
    return true;
  }
}
