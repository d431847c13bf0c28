/**
 Many calls of `withTenantScope` and `withTransaction` interleaving over one
 shared pool, with any statement failing in any of the ways of `PgClient`.
 */
module TenantPool {
  import opened Wrappers
  import opened PgClient

  datatype Pc =
    | AtBegin
    | AtSetTenant
    | InCallback
    | AtCommit
    | AtRollback
    | AtRelease(rollbackFailed: bool)
    | Done

  /**
   One call. `scope` is its tenant, None for `withTransaction`; `sent` are the
   writes of its callback that the server ran, `refused` says that the server
   refused a statement of the callback, and `returned` that it did not throw.
   */
  datatype Borrower = Borrower(conn: nat, scope: Option<Tenant>, pc: Pc, sent: seq<Write>, refused: bool, returned: bool)

  /** A callback statement that the server ran: whose call it was, and its tenant there. */
  datatype Ran = Ran(owner: nat, tenant: Option<Tenant>)

  datatype State = State(
    conns: map<nat, Conn>,        // every connection the pool has open
    idle: set<nat>,               // those that the next borrower can get
    calls: map<nat, Borrower>,
    ran: seq<Ran>,
    durable: map<nat, seq<Write>>)  // per call, what its transaction committed

  datatype Action =
    | OpenConn(c: nat)
    | Connect(b: nat, c: nat, scope: Option<Tenant>)
    | Advance(b: nat, fault: Fault)               // BEGIN, set_config, COMMIT or ROLLBACK
    | CallbackQuery(b: nat, payload: string, fault: Fault)
    | CallbackReturns(b: nat)
    | CallbackThrows(b: nat)
    | Release(b: nat)

  const START := State(map[], {}, map[], [], map[])

  ghost predicate Enabled(s: State, a: Action) {
    match a
    case OpenConn(c) => c !in s.conns
    case Connect(b, c, _) => b !in s.calls && c in s.idle
    case Advance(b, _) => b in s.calls && s.calls[b].conn in s.conns &&
      s.calls[b].pc in {AtBegin, AtSetTenant, AtCommit, AtRollback}
    case CallbackQuery(b, _, _) => b in s.calls && s.calls[b].conn in s.conns && s.calls[b].pc == InCallback
    case CallbackReturns(b) => b in s.calls && s.calls[b].pc == InCallback
    case CallbackThrows(b) => b in s.calls && s.calls[b].pc == InCallback
    case Release(b) => b in s.calls && s.calls[b].conn in s.conns && s.calls[b].pc.AtRelease?
  }

  /** The statement that a call sends at `pc`. */
  function StatementAt(pc: Pc, scope: Option<Tenant>): Statement {
    match pc
    case AtBegin => Begin
    case AtSetTenant => if scope.Some? then SetTenant(scope.value) else Begin
    case AtCommit => Commit
    case _ => Rollback
  }

  /** Where the call goes when that statement succeeded or failed. */
  function NextPc(pc: Pc, scope: Option<Tenant>, ok: bool): Pc {
    match pc
    case AtBegin => if !ok then AtRollback else if scope.Some? then AtSetTenant else InCallback
    case AtSetTenant => if ok then InCallback else AtRollback
    case AtCommit => if ok then AtRelease(false) else AtRollback
    case _ => AtRelease(!ok)
  }

  /** `strict` is what the code does: a client whose ROLLBACK failed is destroyed on release. */
  ghost function Step(s: State, a: Action, strict: bool): State
    requires Enabled(s, a)
  {
    match a
    case OpenConn(c) => s.(conns := s.conns[c := FRESH], idle := s.idle + {c})
    case Connect(b, c, scope) =>
      s.(idle := s.idle - {c}, calls := s.calls[b := Borrower(c, scope, AtBegin, [], false, false)])
    case Advance(b, fault) =>
      var call := s.calls[b];
      var (conn, ok, durable) := Send(s.conns[call.conn], StatementAt(call.pc, call.scope), fault);
      s.(conns := s.conns[call.conn := conn],
         calls := s.calls[b := call.(pc := NextPc(call.pc, call.scope, ok), returned := call.pc == AtCommit && ok)],
         durable := if durable == [] then s.durable else s.durable[b := durable])
    case CallbackQuery(b, payload, fault) =>
      var call := s.calls[b];
      var w := Write(b, payload);
      var (conn, ok, durable) := Send(s.conns[call.conn], Query(w), fault);
      var under := RunsUnder(s.conns[call.conn], fault);
      s.(conns := s.conns[call.conn := conn],
         calls := s.calls[b := call.(sent := if under.Some? then call.sent + [w] else call.sent, refused := call.refused || fault.ServerError?)],
         ran := if under.Some? then s.ran + [Ran(b, under.value)] else s.ran,
         durable := if durable == [] then s.durable else s.durable[b := durable])
    case CallbackReturns(b) => s.(calls := s.calls[b := s.calls[b].(pc := AtCommit)])
    case CallbackThrows(b) => s.(calls := s.calls[b := s.calls[b].(pc := AtRollback)])
    case Release(b) =>
      var call := s.calls[b];
      var calls := s.calls[b := call.(pc := Done)];
      if strict && call.pc.rollbackFailed then s.(conns := s.conns - {call.conn}, calls := calls)
      else s.(idle := s.idle + {call.conn}, calls := calls)
  }

  ghost predicate ValidRun(s: State, run: seq<Action>, strict: bool)
    decreases |run|
  {
    run == [] || (Enabled(s, run[0]) && ValidRun(Step(s, run[0], strict), run[1..], strict))
  }

  ghost function After(s: State, run: seq<Action>, strict: bool): State
    requires ValidRun(s, run, strict)
    decreases |run|
  {
    if run == [] then s else After(Step(s, run[0], strict), run[1..], strict)
  }

  // ----- the invariant -------------------------------------------------------------

  /** What a connection looks like while call `call` is at its program point. */
  ghost predicate ConnAt(conn: Conn, call: Borrower) {
    match call.pc
    case AtBegin => Clean(conn)
    case AtSetTenant => conn.alive ==> conn.tx == Tx.Open && conn.tenant == None && conn.writes == [] && call.sent == []
    case InCallback => InTransaction(conn, call)
    case AtCommit => InTransaction(conn, call)
    case AtRollback => true
    case AtRelease(failed) => failed || Clean(conn)
    case Done => true
  }

  /** Inside the transaction: every write so far is pending under the call's tenant, or it is aborted by a refusal. */
  ghost predicate InTransaction(conn: Conn, call: Borrower) {
    conn.alive ==>
      && conn.tx != NoTx
      && (conn.tx == Tx.Open ==> conn.tenant == call.scope && conn.writes == call.sent)
      && (call.refused <==> conn.tx == Aborted)
  }

  ghost predicate CallOk(s: State, b: nat)
    requires b in s.calls
  {
    var call := s.calls[b];
    && (call.pc != Done ==> call.conn in s.conns && call.conn !in s.idle && ConnAt(s.conns[call.conn], call))
    && (call.pc in {AtBegin, AtSetTenant} ==> call.sent == [] && !call.refused)
    && (call.pc == AtSetTenant ==> call.scope.Some?)
    && (b in s.durable ==> s.durable[b] == call.sent && call.pc !in {AtBegin, AtSetTenant, InCallback, AtCommit})
    && (call.pc in {AtBegin, AtSetTenant, InCallback, AtCommit} ==> !call.returned)
    && (call.returned && call.sent != [] ==> (b in s.durable <==> !call.refused))
  }

  ghost predicate Inv(s: State) {
    && (forall c :: c in s.idle ==> c in s.conns && Clean(s.conns[c]))
    && (forall b :: b in s.calls ==> CallOk(s, b))
    && (forall b, d :: b in s.calls && d in s.calls && b != d && s.calls[b].pc != Done && s.calls[d].pc != Done ==>
          s.calls[b].conn != s.calls[d].conn)
    && (forall b :: b in s.durable ==> b in s.calls)
    && (forall i :: 0 <= i < |s.ran| ==> s.ran[i].owner in s.calls && s.ran[i].tenant == s.calls[s.ran[i].owner].scope)
  }

  lemma AdvanceConn(conn: Conn, call: Borrower, fault: Fault)
    requires call.pc in {AtBegin, AtSetTenant, AtCommit, AtRollback} && ConnAt(conn, call)
    requires call.pc in {AtBegin, AtSetTenant} ==> call.sent == [] && !call.refused
    requires call.pc == AtSetTenant ==> call.scope.Some?
    ensures var (conn', ok, durable) := Send(conn, StatementAt(call.pc, call.scope), fault);
      && ConnAt(conn', call.(pc := NextPc(call.pc, call.scope, ok), returned := call.pc == AtCommit && ok))
      && (durable != [] ==> call.pc == AtCommit && durable == call.sent)
      && (call.pc == AtCommit && ok ==> durable == if call.refused then [] else call.sent)
  {}

  lemma QueryConn(conn: Conn, call: Borrower, w: Write, fault: Fault)
    requires InTransaction(conn, call)
    ensures var (conn', ok, durable) := Send(conn, Query(w), fault); var under := RunsUnder(conn, fault);
      && InTransaction(conn', call.(sent := if under.Some? then call.sent + [w] else call.sent, refused := call.refused || fault.ServerError?))
      && durable == [] && (under.Some? ==> under.value == call.scope)
  {}

  ghost predicate RanOk(s: State) {
    forall i :: 0 <= i < |s.ran| ==> s.ran[i].owner in s.calls && s.ran[i].tenant == s.calls[s.ran[i].owner].scope
  }

  /** A step that touches only call `b` and its own connection leaves the other calls and the pool alone. */
  lemma OnlyOneCall(s: State, t: State, b: nat)
    requires Inv(s) && b in s.calls && s.calls[b].pc != Done
    requires t.calls.Keys == s.calls.Keys && (forall d :: d in s.calls && d != b ==> t.calls[d] == s.calls[d])
    requires t.calls[b].conn == s.calls[b].conn && t.calls[b].pc != Done
    requires t.idle == s.idle && t.conns.Keys == s.conns.Keys
    requires forall c :: c in s.conns && c != s.calls[b].conn ==> t.conns[c] == s.conns[c]
    requires t.durable == s.durable || (t.durable.Keys == s.durable.Keys + {b} && forall d :: d in s.durable && d != b ==> t.durable[d] == s.durable[d])
    requires CallOk(t, b) && RanOk(t)
    ensures Inv(t)
  {
    assert CallOk(s, b);
    forall d | d in t.calls ensures CallOk(t, d) {
      if d != b { assert CallOk(s, d); }
    }
  }

  lemma InvAdvance(s: State, b: nat, fault: Fault)
    requires Inv(s) && Enabled(s, Advance(b, fault))
    ensures Inv(Step(s, Advance(b, fault), true))
  {
    var t := Step(s, Advance(b, fault), true);
    assert CallOk(s, b);
    AdvanceConn(s.conns[s.calls[b].conn], s.calls[b], fault);
    assert CallOk(t, b);
    OnlyOneCall(s, t, b);
  }

  lemma InvQuery(s: State, b: nat, payload: string, fault: Fault)
    requires Inv(s) && Enabled(s, CallbackQuery(b, payload, fault))
    ensures Inv(Step(s, CallbackQuery(b, payload, fault), true))
  {
    var t := Step(s, CallbackQuery(b, payload, fault), true);
    assert CallOk(s, b);
    QueryConn(s.conns[s.calls[b].conn], s.calls[b], Write(b, payload), fault);
    assert CallOk(t, b);
    OnlyOneCall(s, t, b);
  }

  lemma InvRelease(s: State, b: nat)
    requires Inv(s) && Enabled(s, Release(b))
    ensures Inv(Step(s, Release(b), true))
  {
    var t := Step(s, Release(b), true);
    assert CallOk(s, b);
    forall d | d in t.calls ensures CallOk(t, d) {
      assert CallOk(s, d);
    }
  }

  lemma InvConnect(s: State, b: nat, c: nat, scope: Option<Tenant>)
    requires Inv(s) && Enabled(s, Connect(b, c, scope))
    ensures Inv(Step(s, Connect(b, c, scope), true))
  {
    var t := Step(s, Connect(b, c, scope), true);
    forall d | d in t.calls ensures CallOk(t, d) {
      if d != b { assert CallOk(s, d); }
    }
  }

  lemma InvStep(s: State, a: Action)
    requires Inv(s) && Enabled(s, a)
    ensures Inv(Step(s, a, true))
  {
    match a
    case OpenConn(c) =>
      var t := Step(s, a, true);
      forall d | d in t.calls ensures CallOk(t, d) { assert CallOk(s, d); }
    case Connect(b, c, scope) => InvConnect(s, b, c, scope);
    case Advance(b, fault) => InvAdvance(s, b, fault);
    case CallbackQuery(b, payload, fault) => InvQuery(s, b, payload, fault);
    case CallbackReturns(b) =>
      assert CallOk(s, b);
      OnlyOneCall(s, Step(s, a, true), b);
    case CallbackThrows(b) =>
      assert CallOk(s, b);
      OnlyOneCall(s, Step(s, a, true), b);
    case Release(b) => InvRelease(s, b);
  }

  lemma {:induction false} InvRun(s: State, run: seq<Action>)
    requires Inv(s) && ValidRun(s, run, true)
    ensures Inv(After(s, run, true))
    decreases |run|
  {
    if run != [] {
      InvStep(s, run[0]);
      InvRun(Step(s, run[0], true), run[1..]);
    }
  }

  // ----- what every run guarantees -------------------------------------------------

  /** No idle connection carries a transaction, a tenant or another call's writes, and none is borrowed twice. */
  lemma PoolIsClean(run: seq<Action>)
    requires ValidRun(START, run, true)
    ensures var s := After(START, run, true);
      && (forall c :: c in s.idle ==> c in s.conns && Clean(s.conns[c]))
      && (forall b, d :: b in s.calls && d in s.calls && b != d && s.calls[b].pc != Done && s.calls[d].pc != Done ==>
            s.calls[b].conn != s.calls[d].conn)
      && (forall b :: b in s.calls && s.calls[b].pc != Done ==> s.calls[b].conn !in s.idle)
  {
    InvRun(START, run);
    var s := After(START, run, true);
    forall b | b in s.calls && s.calls[b].pc != Done ensures s.calls[b].conn !in s.idle { assert CallOk(s, b); }
  }

  /** Every statement that ran for a callback ran under exactly its own call's tenant. */
  lemma StatementsRunUnderTheirTenant(run: seq<Action>, i: nat)
    requires ValidRun(START, run, true) && i < |After(START, run, true).ran|
    ensures var s := After(START, run, true);
      s.ran[i].owner in s.calls && s.ran[i].tenant == s.calls[s.ran[i].owner].scope
  {
    InvRun(START, run);
  }

  /**
   A call commits all of its writes or none, and none before it sent COMMIT. A
   call that returned committed them if and only if the server refused no
   statement of its callback: a statement that was lost on the way, or whose
   answer was lost, does not matter.
   */
  lemma AllOrNothing(run: seq<Action>, b: nat)
    requires ValidRun(START, run, true) && b in After(START, run, true).calls
    ensures var s := After(START, run, true); var call := s.calls[b];
      && (b in s.durable ==> s.durable[b] == call.sent && call.pc !in {AtBegin, AtSetTenant, InCallback, AtCommit})
      && (call.returned && call.sent != [] ==> (b in s.durable <==> !call.refused))
  {
    InvRun(START, run);
    assert CallOk(After(START, run, true), b);
  }

  // ----- what a lax release leaves intact ---------------------------------------------

  /** The part of the invariant that does not need clean connections: what a tenant-scoped call can run under. */
  ghost predicate ScopedConn(conn: Conn, call: Borrower) {
    && (call.pc == AtSetTenant ==> call.scope.Some? && (conn.alive ==> conn.tx == Tx.Open))
    && (call.pc in {InCallback, AtCommit} && call.scope.Some? && conn.alive ==>
          conn.tx != NoTx && (conn.tx == Tx.Open ==> conn.tenant == call.scope))
  }

  ghost predicate LaxCallOk(s: State, b: nat)
    requires b in s.calls
  {
    s.calls[b].pc != Done ==>
      s.calls[b].conn in s.conns && s.calls[b].conn !in s.idle && ScopedConn(s.conns[s.calls[b].conn], s.calls[b])
  }

  ghost predicate ScopeKept(s: State, r: Ran) {
    r.owner in s.calls && (s.calls[r.owner].scope.Some? ==> r.tenant == s.calls[r.owner].scope)
  }

  ghost predicate LaxInv(s: State) {
    && s.idle <= s.conns.Keys
    && (forall b :: b in s.calls ==> LaxCallOk(s, b))
    && (forall b, d :: b in s.calls && d in s.calls && b != d && s.calls[b].pc != Done && s.calls[d].pc != Done ==>
          s.calls[b].conn != s.calls[d].conn)
    && (forall i :: 0 <= i < |s.ran| ==> ScopeKept(s, s.ran[i]))
  }

  /** A tenant-scoped call sets its own tenant again, whatever transaction and tenant it found. */
  lemma ScopedAdvance(conn: Conn, call: Borrower, fault: Fault)
    requires ScopedConn(conn, call) && call.pc in {AtBegin, AtSetTenant, AtCommit, AtRollback}
    ensures var (conn', ok, _) := Send(conn, StatementAt(call.pc, call.scope), fault);
      ScopedConn(conn', call.(pc := NextPc(call.pc, call.scope, ok), returned := call.pc == AtCommit && ok))
  {}

  lemma ScopedQuery(conn: Conn, call: Borrower, w: Write, fault: Fault)
    requires ScopedConn(conn, call) && call.pc == InCallback
    ensures ScopedConn(Send(conn, Query(w), fault).0, call)
    ensures call.scope.Some? && RunsUnder(conn, fault).Some? ==> RunsUnder(conn, fault).value == call.scope
  {}

  lemma LaxStep(s: State, a: Action, strict: bool)
    requires LaxInv(s) && Enabled(s, a)
    ensures LaxInv(Step(s, a, strict))
  {
    var t := Step(s, a, strict);
    match a {
      case Advance(b, fault) => ScopedAdvance(s.conns[s.calls[b].conn], s.calls[b], fault);
      case CallbackQuery(b, payload, fault) => ScopedQuery(s.conns[s.calls[b].conn], s.calls[b], Write(b, payload), fault);
      case _ =>
    }
    forall b | b in t.calls ensures LaxCallOk(t, b) { assert b in s.calls ==> LaxCallOk(s, b); }
    forall i | 0 <= i < |t.ran| ensures ScopeKept(t, t.ran[i]) { assert i < |s.ran| ==> ScopeKept(s, s.ran[i]); }
  }

  lemma {:induction false} LaxInvRun(s: State, run: seq<Action>, strict: bool)
    requires LaxInv(s) && ValidRun(s, run, strict)
    ensures LaxInv(After(s, run, strict))
    decreases |run|
  {
    if run != [] {
      LaxStep(s, run[0], strict);
      LaxInvRun(Step(s, run[0], strict), run[1..], strict);
    }
  }

  /** Even when failed rollbacks are released, every statement of a tenant-scoped call runs under its own tenant. */
  lemma ScopedCallsKeepTheirTenant(run: seq<Action>, strict: bool, i: nat)
    requires ValidRun(START, run, strict) && i < |After(START, run, strict).ran|
    ensures ScopeKept(After(START, run, strict), After(START, run, strict).ran[i])
  {
    LaxInvRun(START, run, strict);
  }

  // ----- why the rollback error must reach `release` ---------------------------------

  /** Steps that follow each other through `states` make a run. */
  lemma {:induction false} RunThrough(states: seq<State>, run: seq<Action>, strict: bool)
    requires |states| == |run| + 1
    requires forall i :: 0 <= i < |run| ==> Enabled(states[i], run[i]) && Step(states[i], run[i], strict) == states[i + 1]
    ensures ValidRun(states[0], run, strict) && After(states[0], run, strict) == states[|run|]
    decreases |run|
  {
    if run != [] {
      RunThrough(states[1..], run[1..], strict);
    }
  }

  const W := Write(1, "w")
  const X := Write(2, "x")
  const HELD := Conn(true, Tx.Open, Some("a"), [W])

  function Call1(pc: Pc, sent: seq<Write>, refused: bool, returned: bool): Borrower { Borrower(0, Some("a"), pc, sent, refused, returned) }

  function Call2(pc: Pc, sent: seq<Write>, returned: bool): Borrower { Borrower(0, None, pc, sent, false, returned) }

  lemma Same(s: State, t: State)
    requires s.conns == t.conns && s.idle == t.idle && s.calls == t.calls && s.ran == t.ran && s.durable == t.durable
    ensures s == t
  {}

  /** Call 1 of tenant `a` writes `w` in its transaction. */
  const PREFIX: seq<Action> := [OpenConn(0), Connect(1, 0, Some("a")), Advance(1, NoFault), Advance(1, NoFault), CallbackQuery(1, "w", NoFault)]

  const PREFIX_STATES: seq<State> := [
    START,
    State(map[0 := FRESH], {0}, map[], [], map[]),
    State(map[0 := FRESH], {}, map[1 := Call1(AtBegin, [], false, false)], [], map[]),
    State(map[0 := Conn(true, Tx.Open, None, [])], {}, map[1 := Call1(AtSetTenant, [], false, false)], [], map[]),
    State(map[0 := Conn(true, Tx.Open, Some("a"), [])], {}, map[1 := Call1(InCallback, [], false, false)], [], map[]),
    State(map[0 := HELD], {}, map[1 := Call1(InCallback, [W], false, false)], [Ran(1, Some("a"))], map[])]

  ghost predicate Leads(states: seq<State>, run: seq<Action>, strict: bool, i: nat)
    requires i < |run| && |states| == |run| + 1
  {
    Enabled(states[i], run[i]) && Step(states[i], run[i], strict) == states[i + 1]
  }

  lemma PrefixSteps(strict: bool, i: nat)
    requires i < 5
    ensures Leads(PREFIX_STATES, PREFIX, strict, i)
  {
    if i == 0 { Same(Step(PREFIX_STATES[0], PREFIX[0], strict), PREFIX_STATES[1]); }
    else if i == 1 { Same(Step(PREFIX_STATES[1], PREFIX[1], strict), PREFIX_STATES[2]); }
    else if i == 2 { Same(Step(PREFIX_STATES[2], PREFIX[2], strict), PREFIX_STATES[3]); }
    else if i == 3 { Same(Step(PREFIX_STATES[3], PREFIX[3], strict), PREFIX_STATES[4]); }
    else {
      assert [] + [W] == [W];
      Same(Step(PREFIX_STATES[4], PREFIX[4], strict), PREFIX_STATES[5]);
    }
  }

  /** Call 1 throws, its ROLLBACK never reaches the server, and call 2 borrows the connection. */
  const LEAK: seq<Action> := [
    CallbackThrows(1), Advance(1, NotSent), Release(1), Connect(2, 0, None), Advance(2, NoFault), CallbackQuery(2, "x", NoFault),
    CallbackReturns(2), Advance(2, NoFault)]

  const LEAK_STATES: seq<State> := [
    PREFIX_STATES[5],
    State(map[0 := HELD], {}, map[1 := Call1(AtRollback, [W], false, false)], [Ran(1, Some("a"))], map[]),
    State(map[0 := HELD], {}, map[1 := Call1(AtRelease(true), [W], false, false)], [Ran(1, Some("a"))], map[]),
    State(map[0 := HELD], {0}, map[1 := Call1(Done, [W], false, false)], [Ran(1, Some("a"))], map[]),
    State(map[0 := HELD], {}, map[1 := Call1(Done, [W], false, false), 2 := Call2(AtBegin, [], false)], [Ran(1, Some("a"))], map[]),
    State(map[0 := HELD], {}, map[1 := Call1(Done, [W], false, false), 2 := Call2(InCallback, [], false)], [Ran(1, Some("a"))], map[]),
    State(map[0 := HELD.(writes := [W, X])], {}, map[1 := Call1(Done, [W], false, false), 2 := Call2(InCallback, [X], false)],
          [Ran(1, Some("a")), Ran(2, Some("a"))], map[]),
    State(map[0 := HELD.(writes := [W, X])], {}, map[1 := Call1(Done, [W], false, false), 2 := Call2(AtCommit, [X], false)],
          [Ran(1, Some("a")), Ran(2, Some("a"))], map[]),
    State(map[0 := FRESH], {}, map[1 := Call1(Done, [W], false, false), 2 := Call2(AtRelease(false), [X], true)],
          [Ran(1, Some("a")), Ran(2, Some("a"))], map[2 := [W, X]])]

  lemma LeakSteps(i: nat)
    requires i < 8
    ensures Leads(LEAK_STATES, LEAK, false, i)
  {
    if i < 3 { Call1Leaks(i); } else if i < 6 { Call2Borrows(i); } else { Call2Commits(i); }
  }

  lemma Call1Leaks(i: nat)
    requires i < 3
    ensures Leads(LEAK_STATES, LEAK, false, i)
  {
    if i == 0 { Same(Step(LEAK_STATES[0], LEAK[0], false), LEAK_STATES[1]); }
    else if i == 1 { Same(Step(LEAK_STATES[1], LEAK[1], false), LEAK_STATES[2]); }
    else { Same(Step(LEAK_STATES[2], LEAK[2], false), LEAK_STATES[3]); }
  }

  lemma Call2Borrows(i: nat)
    requires 3 <= i < 6
    ensures Leads(LEAK_STATES, LEAK, false, i)
  {
    if i == 3 { Same(Step(LEAK_STATES[3], LEAK[3], false), LEAK_STATES[4]); }
    else if i == 4 { Same(Step(LEAK_STATES[4], LEAK[4], false), LEAK_STATES[5]); }
    else { Call2Queries(); }
  }

  lemma Call2Queries()
    ensures Leads(LEAK_STATES, LEAK, false, 5)
  {
    assert [W] + [X] == [W, X] && [] + [X] == [X];
    Same(Step(LEAK_STATES[5], LEAK[5], false), LEAK_STATES[6]);
  }

  lemma Call2Commits(i: nat)
    requires 6 <= i < 8
    ensures Leads(LEAK_STATES, LEAK, false, i)
  {
    if i == 6 { Same(Step(LEAK_STATES[6], LEAK[6], false), LEAK_STATES[7]); }
    else { Same(Step(LEAK_STATES[7], LEAK[7], false), LEAK_STATES[8]); }
  }

  lemma Joined(s1: seq<State>, r1: seq<Action>, s2: seq<State>, r2: seq<Action>, strict: bool)
    requires |s1| == |r1| + 1 && |s2| == |r2| + 1 && s1[|r1|] == s2[0]
    requires forall i: nat :: i < |r1| ==> Leads(s1, r1, strict, i)
    requires forall i: nat :: i < |r2| ==> Leads(s2, r2, strict, i)
    ensures ValidRun(s1[0], r1 + r2, strict) && After(s1[0], r1 + r2, strict) == s2[|r2|]
  {
    var states := s1 + s2[1..];
    forall i | 0 <= i < |r1 + r2| ensures Enabled(states[i], (r1 + r2)[i]) && Step(states[i], (r1 + r2)[i], strict) == states[i + 1] {
      if i < |r1| { assert Leads(s1, r1, strict, i); } else { assert Leads(s2, r2, strict, i - |r1|); }
    }
    RunThrough(states, r1 + r2, strict);
  }

  /**
   Call 1 fails, and so does its ROLLBACK. Released without that error, its
   connection serves a `withTransaction` call, which runs under call 1's tenant
   and commits what call 1 had to roll back.
   */
  lemma LaxReleaseCrossesTenants() returns (run: seq<Action>)
    ensures ValidRun(START, run, false)
    ensures var s := After(START, run, false);
      && 2 in s.calls && s.calls[2].scope == None && Ran(2, Some("a")) in s.ran
      && 2 in s.durable && W in s.durable[2] && W.owner == 1
  {
    run := PREFIX + LEAK;
    forall i: nat | i < 5 ensures Leads(PREFIX_STATES, PREFIX, false, i) { PrefixSteps(false, i); }
    forall i: nat | i < 8 ensures Leads(LEAK_STATES, LEAK, false, i) { LeakSteps(i); }
    Joined(PREFIX_STATES, PREFIX, LEAK_STATES, LEAK, false);
    assert LEAK_STATES[8].ran[1] == Ran(2, Some("a")) && LEAK_STATES[8].durable[2][0] == W;
  }

  /** Call 1 swallows a refused statement and returns. */
  const SWALLOW: seq<Action> := [CallbackQuery(1, "v", ServerError), CallbackReturns(1), Advance(1, NoFault)]

  const SWALLOW_STATES: seq<State> := [
    PREFIX_STATES[5],
    State(map[0 := HELD.(tx := Aborted)], {}, map[1 := Call1(InCallback, [W], true, false)], [Ran(1, Some("a"))], map[]),
    State(map[0 := HELD.(tx := Aborted)], {}, map[1 := Call1(AtCommit, [W], true, false)], [Ran(1, Some("a"))], map[]),
    State(map[0 := FRESH], {}, map[1 := Call1(AtRelease(false), [W], true, true)], [Ran(1, Some("a"))], map[])]

  lemma SwallowSteps(i: nat)
    requires i < 3
    ensures Leads(SWALLOW_STATES, SWALLOW, true, i)
  {
    if i == 0 { Same(Step(SWALLOW_STATES[0], SWALLOW[0], true), SWALLOW_STATES[1]); }
    else if i == 1 { Same(Step(SWALLOW_STATES[1], SWALLOW[1], true), SWALLOW_STATES[2]); }
    else { Same(Step(SWALLOW_STATES[2], SWALLOW[2], true), SWALLOW_STATES[3]); }
  }

  /** Returning normally does not mean committed: COMMIT of an aborted transaction succeeds as a rollback. */
  lemma ReturnedIsNotCommitted() returns (run: seq<Action>)
    ensures ValidRun(START, run, true)
    ensures var s := After(START, run, true);
      1 in s.calls && s.calls[1].returned && s.calls[1].refused && s.calls[1].sent != [] && 1 !in s.durable
  {
    run := PREFIX + SWALLOW;
    forall i: nat | i < 5 ensures Leads(PREFIX_STATES, PREFIX, true, i) { PrefixSteps(true, i); }
    forall i: nat | i < 3 ensures Leads(SWALLOW_STATES, SWALLOW, true, i) { SwallowSteps(i); }
    Joined(PREFIX_STATES, PREFIX, SWALLOW_STATES, SWALLOW, true);
  }

  /** A released connection goes back to the pool unless its ROLLBACK failed; then it is gone. */
  lemma ReleaseExactly(s: State, b: nat)
    requires Inv(s) && Enabled(s, Release(b))
    ensures
      var (t, c) := (Step(s, Release(b), true), s.calls[b].conn);
      && t.calls[b].pc == Done && t.ran == s.ran && t.durable == s.durable
      && (if s.calls[b].pc.rollbackFailed then c !in t.conns && c !in t.idle
          else c in t.idle && c in t.conns && Clean(t.conns[c]))
      && forall d :: d != c ==> (d in t.idle <==> d in s.idle) && (d in t.conns <==> d in s.conns)
  {
    assert CallOk(s, b);
  }

  /** Only a ROLLBACK that failed destroys a connection; every other failure leads to a ROLLBACK first. */
  lemma OnlyFailedRollbackDestroys(s: State, b: nat, fault: Fault)
    requires Inv(s) && Enabled(s, Advance(b, fault))
    ensures
      var (call, after) := (s.calls[b], Step(s, Advance(b, fault), true).calls[b]);
      && (after.pc == AtRelease(true) ==> call.pc == AtRollback && (fault != NoFault || !s.conns[call.conn].alive))
      && (call.pc != AtRollback && !after.pc.AtRelease? ==> after.pc in {AtSetTenant, InCallback, AtRollback})
      && (after.pc == AtRelease(false) && call.pc == AtCommit ==> after.returned)
      && (after.pc == InCallback && call.scope.Some? ==> call.pc == AtSetTenant)
  {
    assert CallOk(s, b);
  }
}
