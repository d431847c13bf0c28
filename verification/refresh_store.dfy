/**
 The refresh-token store: three atomic Lua scripts, and three single commands,
 over four families of expiring Redis keys.

 Redis is a value `Store` of entries with absolute expiry times in server
 milliseconds. A script is a function from the store and the server time to the
 new store and the reply; `RefreshRedis` runs the same script command by
 command and is proved to compute that function.
 */
module RefreshStore {
  import opened Wrappers

  type Id = string

  datatype FamilyState = Active | Revoked

  /** `refresh_rotation:<jti>`: a claim in progress, or the finished rotation and its successor. */
  datatype Marker = Pending(familyId: Id) | Complete(nextJti: Id)

  datatype Entry<T> = Entry(value: T, expiresAt: int)

  datatype Store = Store(
    jti: map<Id, Entry<Id>>,
    family: map<Id, Entry<FamilyState>>,
    loginAt: map<Id, Entry<int>>,
    rotation: map<Id, Entry<Marker>>)

  const EMPTY := Store(map[], map[], map[], map[])

  /** Times to live. `lifetime` is in seconds, as the claim compares it with epoch seconds. */
  datatype Config = Config(ttlMs: int, graceMs: int, lifetime: int) {
    ghost predicate Valid() { 0 < ttlMs && 0 < graceMs && 0 < lifetime }
  }

  /** The deployed values: a 7-day cookie, a 60-second grace marker, a 30-day session. */
  const DEPLOYED := Config(7 * 24 * 60 * 60 * 1000, 60 * 1000, 30 * 24 * 60 * 60)

  /** Redis GET: an entry exists strictly before its expiry. */
  function Get<T>(m: map<Id, Entry<T>>, key: Id, now: int): Option<T> {
    if key in m && now < m[key].expiresAt then Some(m[key].value) else None
  }

  // ----- key names ------------------------------------------------------

  function JtiKey(jti: Id): string { "refresh_jti:" + jti }
  function FamilyKey(fid: Id): string { "refresh_family:" + fid }
  function LoginAtKey(fid: Id): string { "refresh_family_login_at:" + fid }
  function RotationKey(jti: Id): string { "refresh_rotation:" + jti }

  /** Why four maps are one Redis key space: the key names are injective and never meet. */
  lemma KeysDisjoint(a: Id, b: Id)
    ensures JtiKey(a) == JtiKey(b) ==> a == b
    ensures FamilyKey(a) == FamilyKey(b) ==> a == b
    ensures LoginAtKey(a) == LoginAtKey(b) ==> a == b
    ensures RotationKey(a) == RotationKey(b) ==> a == b
    ensures JtiKey(a) != FamilyKey(b) && JtiKey(a) != LoginAtKey(b) && JtiKey(a) != RotationKey(b)
    ensures FamilyKey(a) != LoginAtKey(b) && FamilyKey(a) != RotationKey(b) && LoginAtKey(a) != RotationKey(b)
  {
    assert JtiKey(a)[12..] == a && JtiKey(b)[12..] == b;
    assert FamilyKey(a)[15..] == a && FamilyKey(b)[15..] == b;
    assert LoginAtKey(a)[24..] == a && LoginAtKey(b)[24..] == b;
    assert RotationKey(a)[17..] == a && RotationKey(b)[17..] == b;
    assert JtiKey(a)[8] == 'j' && FamilyKey(a)[8] == 'f' && FamilyKey(b)[8] == 'f';
    assert LoginAtKey(b)[8] == 'f' && RotationKey(b)[8] == 'r';
    assert FamilyKey(a)[14] == ':' && LoginAtKey(b)[14] == '_' && LoginAtKey(a)[8] == 'f';
  }

  // ----- the scripts as functions ----------------------------------------

  /** `refresh-token-issue-v1`. False: the family is revoked and nothing changed. */
  function IssueScript(s: Store, cfg: Config, now: int, jti: Id, fid: Id, clock: int): (Store, bool) {
    if Get(s.family, fid, now) == Some(Revoked) then (s, false)
    else
      (Store(
         s.jti[jti := Entry(fid, now + cfg.ttlMs)],
         s.family[fid := Entry(Active, now + cfg.ttlMs)],
         if Get(s.loginAt, fid, now).None? then s.loginAt[fid := Entry(clock, now + cfg.lifetime * 1000)] else s.loginAt,
         s.rotation),
       true)
  }

  datatype ClaimReply =
    | Claimed(familyId: Id)
    | Reuse(familyId: Id)
    | FamilyRevoked
    | Concurrent(marker: Marker)
    | NotFound
    | AbsoluteExpired

  /** The family is active but its login time is unknown or too old. */
  predicate PastLifetime(s: Store, cfg: Config, now: int, fid: Id, clock: int) {
    Get(s.family, fid, now) == Some(Active) &&
    match Get(s.loginAt, fid, now)
    case None => true
    case Some(loginAt) => clock - loginAt >= cfg.lifetime
  }

  /** `refresh-token-rotation-claim-v1`. */
  function ClaimScript(s: Store, cfg: Config, now: int, jti: Id, fid: Id, clock: int): (Store, ClaimReply) {
    var family := Get(s.family, fid, now);
    if family == Some(Revoked) then (s, FamilyRevoked)
    else if PastLifetime(s, cfg, now, fid, clock) then
      (s.(family := s.family[fid := Entry(Revoked, now + cfg.ttlMs)]), AbsoluteExpired)
    else
      match Get(s.jti, jti, now)
      case Some(consumed) =>
        var s1 := s.(jti := s.jti - {jti});
        if consumed != fid then (s1, Reuse(consumed))
        else (s1.(rotation := s.rotation[jti := Entry(Pending(consumed), now + cfg.graceMs)]), Claimed(consumed))
      case None =>
        match Get(s.rotation, jti, now)
        case Some(marker) => (s, Concurrent(marker))
        case None => if family == Some(Active) then (s, Reuse(fid)) else (s, NotFound)
  }

  /** `refresh-token-restore-v1`. */
  function RestoreScript(s: Store, now: int, jti: Id, fid: Id): (Store, bool) {
    var marker := Get(s.rotation, jti, now);
    if marker.Some? && marker.value.Complete? then (s, false)
    else if Get(s.family, fid, now) != Some(Active) then (s, false)
    else
      var ttl := s.family[fid].expiresAt - now;
      if ttl <= 0 then (s, false)
      else (s.(rotation := s.rotation - {jti}, jti := s.jti[jti := Entry(fid, now + ttl)]), true)
  }

  function RevokeCommand(s: Store, cfg: Config, now: int, fid: Id): Store {
    s.(family := s.family[fid := Entry(Revoked, now + cfg.ttlMs)])
  }

  function CompleteCommand(s: Store, cfg: Config, now: int, jti: Id, next: Id): Store {
    s.(rotation := s.rotation[jti := Entry(Marker.Complete(next), now + cfg.graceMs)])
  }

  /** A claim succeeds only in an active family, when the family key outlives the jti. */
  lemma ClaimedFamilyActive(st: Store, cfg: Config, now: int, jti: Id, fid: Id, clock: int)
    requires ClaimScript(st, cfg, now, jti, fid, clock).1.Claimed? && fid in st.family && now < st.family[fid].expiresAt
    ensures st.family[fid].value == Active
  {
    match st.family[fid].value case Active => case Revoked =>
  }

  /** A restore puts back exactly what a claim took, at any later time while the family is active. */
  lemma RestoreUndoesClaim(st: Store, cfg: Config, now: int, later: int, jti: Id, fid: Id, clock: int)
    requires ClaimScript(st, cfg, now, jti, fid, clock).1.Claimed?
    requires jti !in st.rotation && fid in st.family && st.jti[jti].expiresAt == st.family[fid].expiresAt
    requires Get(st.family, fid, later) == Some(Active)
    ensures RestoreScript(ClaimScript(st, cfg, now, jti, fid, clock).0, later, jti, fid) == (st, true)
  {
    var claimed := ClaimScript(st, cfg, now, jti, fid, clock).0;
    assert claimed.family == st.family && claimed.rotation.Keys == st.rotation.Keys + {jti};
    var restored := RestoreScript(claimed, later, jti, fid).0;
    assert restored.jti == st.jti;
    assert restored.rotation == st.rotation;
  }

  /** A jti stored for another family than the token says is consumed and reported as a replay of the stored family. */
  lemma ForeignJtiIsReplay(st: Store, cfg: Config, now: int, jti: Id, fid: Id, clock: int)
    requires Get(st.jti, jti, now).Some? && Get(st.jti, jti, now).value != fid
    requires Get(st.family, fid, now) != Some(Revoked) && !PastLifetime(st, cfg, now, fid, clock)
    ensures ClaimScript(st, cfg, now, jti, fid, clock) == (st.(jti := st.jti - {jti}), Reuse(st.jti[jti].value))
  {}

  /**
   Until its TTL ends, or a later write to the family, a revoked family answers
   every claim with `revoked` and refuses every issue and restore; nothing changes.
   */
  lemma RevokedFamilyAnswers(st: Store, cfg: Config, now: int, later: int, fid: Id, jti: Id, clock: int)
    requires now <= later < now + cfg.ttlMs
    ensures var revoked := RevokeCommand(st, cfg, now, fid);
      && ClaimScript(revoked, cfg, later, jti, fid, clock) == (revoked, FamilyRevoked)
      && IssueScript(revoked, cfg, later, jti, fid, clock) == (revoked, false)
      && RestoreScript(revoked, later, jti, fid) == (revoked, false)
      && RevokeCommand(revoked, cfg, now, fid) == revoked
  {
    var revoked := RevokeCommand(st, cfg, now, fid);
    assert revoked.family[fid := Entry(Revoked, now + cfg.ttlMs)] == revoked.family;
  }

  /**
   While the grace period lasts, a completed rotation answers a claim of the
   consumed jti with the successor instead of a replay, and cannot be restored.
   */
  lemma CompletedRotationAnswers(st: Store, cfg: Config, now: int, later: int, jti: Id, next: Id, fid: Id, clock: int)
    requires now <= later < now + cfg.graceMs
    ensures var completed := CompleteCommand(st, cfg, now, jti, next);
      && RestoreScript(completed, later, jti, fid) == (completed, false)
      && (Get(st.jti, jti, later).None? && Get(st.family, fid, later) != Some(Revoked) && !PastLifetime(st, cfg, later, fid, clock) ==>
            ClaimScript(completed, cfg, later, jti, fid, clock) == (completed, Concurrent(Marker.Complete(next))))
  {
    var completed := CompleteCommand(st, cfg, now, jti, next);
    assert Get(completed.rotation, jti, later) == Some(Marker.Complete(next));
    assert PastLifetime(completed, cfg, later, fid, clock) == PastLifetime(st, cfg, later, fid, clock);
  }

  // ----- the scripts, command by command ---------------------------------

  class RefreshRedis {
    var store: Store
    var now: int
    const cfg: Config

    constructor (cfg: Config, store: Store, now: int)
      ensures this.cfg == cfg && this.store == store && this.now == now
    {
      this.cfg, this.store, this.now := cfg, store, now;
    }

    method Issue(jti: Id, fid: Id, clock: int) returns (issued: bool)
      modifies `store
      ensures (store, issued) == IssueScript(old(store), cfg, now, jti, fid, clock)
    {
      if Get(store.family, fid, now) == Some(Revoked) {
        return false;
      }
      if Get(store.loginAt, fid, now).None? {
        store := store.(loginAt := store.loginAt[fid := Entry(clock, now + cfg.lifetime * 1000)]);
      }
      store := store.(jti := store.jti[jti := Entry(fid, now + cfg.ttlMs)]);
      store := store.(family := store.family[fid := Entry(Active, now + cfg.ttlMs)]);
      return true;
    }

    method Claim(jti: Id, fid: Id, clock: int) returns (reply: ClaimReply)
      modifies `store
      ensures (store, reply) == ClaimScript(old(store), cfg, now, jti, fid, clock)
    {
      var familyState := Get(store.family, fid, now);
      if familyState == Some(Revoked) {
        return FamilyRevoked;
      }
      var loginAt := Get(store.loginAt, fid, now);
      if familyState == Some(Active) {
        if loginAt.None? || clock - loginAt.value >= cfg.lifetime {
          store := store.(family := store.family[fid := Entry(Revoked, now + cfg.ttlMs)]);
          return AbsoluteExpired;
        }
      }
      var consumed := Get(store.jti, jti, now);
      if consumed.Some? {
        store := store.(jti := store.jti - {jti});
        if consumed.value != fid {
          return Reuse(consumed.value);
        }
        store := store.(rotation := store.rotation[jti := Entry(Pending(consumed.value), now + cfg.graceMs)]);
        return Claimed(consumed.value);
      }
      var rotation := Get(store.rotation, jti, now);
      if rotation.Some? {
        return Concurrent(rotation.value);
      }
      if familyState == Some(Active) {
        return Reuse(fid);
      }
      return NotFound;
    }

    method Restore(jti: Id, fid: Id) returns (restored: bool)
      modifies `store
      ensures (store, restored) == RestoreScript(old(store), now, jti, fid)
    {
      var marker := Get(store.rotation, jti, now);
      if marker.Some? && !marker.value.Pending? {
        return false;
      }
      if Get(store.family, fid, now) != Some(Active) {
        return false;
      }
      var ttl := store.family[fid].expiresAt - now;
      if ttl <= 0 {
        return false;
      }
      store := store.(rotation := store.rotation - {jti});
      store := store.(jti := store.jti[jti := Entry(fid, now + ttl)]);
      return true;
    }

    method Revoke(fid: Id)
      modifies `store
      ensures store == RevokeCommand(old(store), cfg, now, fid)
    {
      store := store.(family := store.family[fid := Entry(Revoked, now + cfg.ttlMs)]);
    }

    method Complete(jti: Id, next: Id)
      modifies `store
      ensures store == CompleteCommand(old(store), cfg, now, jti, next)
    {
      store := store.(rotation := store.rotation[jti := Entry(Marker.Complete(next), now + cfg.graceMs)]);
    }
  }
}
