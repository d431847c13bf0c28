/**
 The nonce store that the contract of `verifyProxyHeaders` prescribes: five
 steps, run as one atomic operation, over a shared high-water mark and the
 recorded nonces with the time until which each must be kept.
 */
module NonceStore {

  datatype Request = Request(callerNow: int, nonce: string, timestamp: int)

  datatype Verdict = Accepted | Stale | Replay

  datatype State = State(highWater: int, entries: map<string, int>)

  function Max(a: int, b: int): int { if a < b then b else a }

  function Until(r: Request, retention: nat): int { r.timestamp + retention }

  /** Steps 1 to 5 for one request, with retention `R`. */
  function Record(s: State, r: Request, retention: nat): (State, Verdict) {
    var now := Max(r.callerNow, s.highWater);
    var until := Until(r, retention);
    if until < now then (State(now, s.entries), Stale)
    else
      var kept := map n | n in s.entries && s.entries[n] >= now :: s.entries[n];
      if r.nonce in kept then (State(now, kept), Replay)
      else (State(now, kept[r.nonce := until]), Accepted)
  }

  class Store {
    const retention: nat
    var highWater: int
    var entries: map<string, int>

    constructor (retention: nat, highWater: int)
      ensures this.retention == retention && Abs() == State(highWater, map[])
    {
      this.retention, this.highWater, this.entries := retention, highWater, map[];
    }

    function Abs(): State
      reads this
    {
      State(highWater, entries)
    }

    method Admit(r: Request) returns (verdict: Verdict)
      modifies this
      ensures (Abs(), verdict) == Record(old(Abs()), r, retention)
    {
      var now := Max(r.callerNow, highWater);
      highWater := now;
      var until := Until(r, retention);
      if until < now {
        return Stale;
      }
      entries := map n | n in entries && entries[n] >= now :: entries[n];
      if r.nonce in entries {
        return Replay;
      }
      entries := entries[r.nonce := until];
      return Accepted;
    }
  }

  // ----- runs -----------------------------------------------------------------

  /** The state after a run that started with no nonce recorded. */
  ghost function After(start: int, run: seq<Request>, retention: nat): State {
    if run == [] then State(start, map[])
    else Record(After(start, run[..|run| - 1], retention), run[|run| - 1], retention).0
  }

  ghost function VerdictAt(start: int, run: seq<Request>, retention: nat, i: nat): Verdict
    requires i < |run|
  {
    Record(After(start, run[..i], retention), run[i], retention).1
  }

  /** The latest clock that any caller up to and including request `i` has shown. */
  ghost function Clock(start: int, run: seq<Request>, i: nat): int
    requires i <= |run|
  {
    if i == 0 then start else Max(run[i - 1].callerNow, Clock(start, run, i - 1))
  }

  lemma ClockMonotone(start: int, run: seq<Request>, i: nat, j: nat)
    requires i <= j <= |run|
    ensures Clock(start, run, i) <= Clock(start, run, j)
  {}

  /** Request `k` of the run was accepted, with this nonce and this time to keep it until. */
  ghost predicate AcceptedAs(start: int, run: seq<Request>, retention: nat, k: nat, nonce: string, until: int) {
    && k < |run| && run[k].nonce == nonce && Until(run[k], retention) == until
    && VerdictAt(start, run, retention, k) == Accepted
  }

  /** Every entry was accepted before request `n`. */
  ghost predicate Sound(start: int, run: seq<Request>, retention: nat, n: nat, s: State) {
    forall nonce :: nonce in s.entries ==>
      exists k: nat :: k < n && AcceptedAs(start, run, retention, k, nonce, s.entries[nonce])
  }

  /** Every nonce accepted before request `n`, and not passed by the mark, is recorded. */
  ghost predicate Complete(start: int, run: seq<Request>, retention: nat, n: nat, s: State) {
    forall k: nat, nonce, until :: k < n && AcceptedAs(start, run, retention, k, nonce, until) && until >= s.highWater ==>
      nonce in s.entries && s.entries[nonce] == until
  }

  lemma {:induction false} AlwaysFaithful(start: int, run: seq<Request>, retention: nat, n: nat)
    requires n <= |run|
    ensures var s := After(start, run[..n], retention);
      s.highWater == Clock(start, run, n) && Sound(start, run, retention, n, s) && Complete(start, run, retention, n, s)
  {
    if n > 0 {
      AlwaysFaithful(start, run, retention, n - 1);
      assert run[..n][..n - 1] == run[..n - 1];
      var s, t := After(start, run[..n - 1], retention), After(start, run[..n], retention);
      assert t == Record(s, run[n - 1], retention).0;
      StepSound(start, run, retention, n - 1, s);
      StepComplete(start, run, retention, n - 1, s);
    }
  }

  lemma StepSound(start: int, run: seq<Request>, retention: nat, n: nat, s: State)
    requires n < |run| && s == After(start, run[..n], retention) && Sound(start, run, retention, n, s)
    ensures Sound(start, run, retention, n + 1, Record(s, run[n], retention).0)
  {
    var t := Record(s, run[n], retention).0;
    forall nonce | nonce in t.entries
      ensures exists k: nat :: k < n + 1 && AcceptedAs(start, run, retention, k, nonce, t.entries[nonce])
    {
      if nonce in s.entries && s.entries[nonce] == t.entries[nonce] {
        var k: nat :| k < n && AcceptedAs(start, run, retention, k, nonce, s.entries[nonce]);
        assert AcceptedAs(start, run, retention, k, nonce, t.entries[nonce]);
      } else {
        assert AcceptedAs(start, run, retention, n, nonce, t.entries[nonce]);
      }
    }
  }

  lemma StepComplete(start: int, run: seq<Request>, retention: nat, n: nat, s: State)
    requires n < |run| && s == After(start, run[..n], retention) && Complete(start, run, retention, n, s)
    ensures Complete(start, run, retention, n + 1, Record(s, run[n], retention).0)
  {
    var t := Record(s, run[n], retention).0;
    forall k: nat, nonce, until | k < n + 1 && AcceptedAs(start, run, retention, k, nonce, until) && until >= t.highWater
      ensures nonce in t.entries && t.entries[nonce] == until
    {
      if k < n {
        assert nonce in s.entries && s.entries[nonce] == until;
      }
    }
  }

  /**
   The exact verdict, for any clocks: a request is accepted if and only if its
   `until` is at or above the latest clock seen, and no accepted request with
   the same nonce has an `until` at or above it.
   */
  lemma AcceptedExactly(start: int, run: seq<Request>, retention: nat, i: nat)
    requires i < |run|
    ensures VerdictAt(start, run, retention, i) == Accepted <==>
      && Until(run[i], retention) >= Clock(start, run, i + 1)
      && forall k: nat :: k < i && VerdictAt(start, run, retention, k) == Accepted && run[k].nonce == run[i].nonce ==>
           Until(run[k], retention) < Clock(start, run, i + 1)
  {
    AlwaysFaithful(start, run, retention, i);
    var s := After(start, run[..i], retention);
    var now := Clock(start, run, i + 1);
    assert now == Max(run[i].callerNow, s.highWater);
    forall k: nat | k < i && VerdictAt(start, run, retention, k) == Accepted && run[k].nonce == run[i].nonce
      ensures Until(run[k], retention) >= now ==> run[i].nonce in s.entries && s.entries[run[i].nonce] >= now
    {
      ClockMonotone(start, run, i, i + 1);
      assert AcceptedAs(start, run, retention, k, run[k].nonce, Until(run[k], retention));
    }
    if run[i].nonce in s.entries && s.entries[run[i].nonce] >= now {
      var k: nat :| k < i && AcceptedAs(start, run, retention, k, run[i].nonce, s.entries[run[i].nonce]);
    }
  }

  /** A request is stale exactly when the latest clock passed its `until`; what is neither accepted nor stale is a replay. */
  lemma StaleExactly(start: int, run: seq<Request>, retention: nat, i: nat)
    requires i < |run|
    ensures VerdictAt(start, run, retention, i) == Stale <==> run[i].timestamp + retention < Clock(start, run, i + 1)
    ensures VerdictAt(start, run, retention, i) == Replay <==>
      && run[i].timestamp + retention >= Clock(start, run, i + 1)
      && exists k: nat :: k < i && VerdictAt(start, run, retention, k) == Accepted && run[k].nonce == run[i].nonce
                          && run[k].timestamp + retention >= Clock(start, run, i + 1)
  {
    AlwaysFaithful(start, run, retention, i);
    AcceptedExactly(start, run, retention, i);
  }

  /** For any clocks, forward or backward, no (nonce, timestamp) is accepted twice. */
  lemma NeverAcceptedTwice(start: int, run: seq<Request>, retention: nat, i: nat, j: nat)
    requires i < j < |run|
    requires run[i].nonce == run[j].nonce && run[i].timestamp == run[j].timestamp
    ensures !(VerdictAt(start, run, retention, i) == Accepted && VerdictAt(start, run, retention, j) == Accepted)
  {
    AcceptedExactly(start, run, retention, j);
  }

  /**
   A request that a verifier with `maxAge <= R` let through is never refused as
   stale while its caller's clock is not behind the high-water mark; with a
   nonce that was never accepted it is accepted.
   */
  lemma FreshRequestAccepted(start: int, run: seq<Request>, retention: nat, maxAge: nat, i: nat)
    requires i < |run| && maxAge <= retention
    requires run[i].timestamp >= run[i].callerNow - maxAge
    requires run[i].callerNow >= Clock(start, run, i)
    requires forall k: nat :: k < i && VerdictAt(start, run, retention, k) == Accepted ==> run[k].nonce != run[i].nonce
    ensures VerdictAt(start, run, retention, i) == Accepted
  {
    AcceptedExactly(start, run, retention, i);
  }

  /** After an accepting operation every kept entry lies between the mark and the mark plus skew plus R. */
  lemma KeptEntriesBounded(start: int, run: seq<Request>, retention: nat, skew: nat, i: nat)
    requires i < |run| && VerdictAt(start, run, retention, i) == Accepted
    requires forall k: nat :: k <= i ==> run[k].timestamp <= run[k].callerNow + skew
    ensures var s := After(start, run[..i + 1], retention);
      forall n :: n in s.entries ==> s.highWater <= s.entries[n] <= s.highWater + skew + retention
  {
    AlwaysFaithful(start, run, retention, i + 1);
    assert run[..i + 1][..i] == run[..i];
    var s := After(start, run[..i + 1], retention);
    forall n | n in s.entries ensures s.highWater <= s.entries[n] <= s.highWater + skew + retention {
      var k: nat :| k < i + 1 && AcceptedAs(start, run, retention, k, n, s.entries[n]);
      ClockMonotone(start, run, k + 1, i + 1);
    }
  }

  /** Why `R` must not grow: with a larger retention a deleted nonce is accepted again. */
  lemma RaisedRetentionReplays(nonce: string, timestamp: int, small: nat, large: nat)
    requires small < large
    ensures exists s0: State, other: Request, late: int ::
      var first := Record(s0, Request(timestamp, nonce, timestamp), small);
      var second := Record(first.0, other, small);
      var third := Record(second.0, Request(late, nonce, timestamp), large);
      first.1 == Accepted && second.1 == Accepted && third.1 == Accepted
  {
    var late := timestamp + small + 1;
    var s0, other := State(timestamp, map[]), Request(late, nonce + "x", late);
    var first := Record(s0, Request(timestamp, nonce, timestamp), small);
    assert first.0.entries == map[nonce := timestamp + small];
    var second := Record(first.0, other, small);
    assert second.0.entries == map[nonce + "x" := late + small];
    assert nonce != nonce + "x";
    var third := Record(second.0, Request(late, nonce, timestamp), large);
    assert first.1 == Accepted && second.1 == Accepted && third.1 == Accepted;
  }
}
