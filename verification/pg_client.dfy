/**
 One pooled PostgreSQL connection, statement by statement, and the two
 transaction wrappers that borrow it. Statements can fail in five ways.
 */
module PgClient {
  import opened Wrappers

  type Tenant = string

  /** A row change that a callback asks for. `owner` names the call it belongs to. */
  datatype Write = Write(owner: nat, payload: string)

  datatype Tx = NoTx | Open | Aborted

  /** The server session: its transaction, the transaction-local tenant, the uncommitted writes. */
  datatype Conn = Conn(alive: bool, tx: Tx, tenant: Option<Tenant>, writes: seq<Write>)

  const FRESH := Conn(true, NoTx, None, [])

  /** Nothing of an earlier borrower is left. */
  predicate Clean(c: Conn) { c.tx == NoTx && c.tenant == None && c.writes == [] }

  datatype Statement = Begin | SetTenant(tenant: Tenant) | Query(write: Write) | Commit | Rollback

  datatype Fault =
    | NoFault
    | ServerError     // the server refuses the statement
    | NotSent         // the client gives up before the statement reaches the server
    | NoAnswer        // the server runs the statement, the client sees an error
    | Disconnect      // the session ends; the server rolls it back

  /** What the server does with a statement; the flag is its verdict. A commit yields the writes it makes durable. */
  function Execute(c: Conn, s: Statement): (Conn, bool, seq<Write>) {
    match s
    case Begin => (match c.tx case NoTx => (c.(tx := Open), true, []) case Open => (c, true, []) case Aborted => (c, false, []))
    case SetTenant(t) =>
      (match c.tx case NoTx => (c, true, []) case Open => (c.(tenant := Some(t)), true, []) case Aborted => (c, false, []))
    case Query(w) =>
      (match c.tx case NoTx => (c, true, [w]) case Open => (c.(writes := c.writes + [w]), true, []) case Aborted => (c, false, []))
    case Commit => (Conn(c.alive, NoTx, None, []), true, if c.tx == Open then c.writes else [])
    case Rollback => (Conn(c.alive, NoTx, None, []), true, [])
  }

  /** A refused statement aborts an open transaction; a refused COMMIT has rolled it back. */
  function Refuse(c: Conn, s: Statement): Conn {
    if s == Commit then Conn(c.alive, NoTx, None, [])
    else if c.tx == Open then c.(tx := Aborted)
    else c
  }

  /** A statement as the client sees it: the session afterwards, whether it succeeded, what became durable. */
  function Send(c: Conn, s: Statement, fault: Fault): (Conn, bool, seq<Write>) {
    if !c.alive then (c, false, [])
    else
      match fault
      case NoFault => var (c', ok, durable) := Execute(c, s); if ok then (c', true, durable) else (Refuse(c, s), false, [])
      case ServerError => (Refuse(c, s), false, [])
      case NotSent => (c, false, [])
      case NoAnswer => var (c', ok, durable) := Execute(c, s); (if ok then c' else Refuse(c, s), false, if ok then durable else [])
      case Disconnect => (Conn(false, NoTx, None, []), false, [])
  }

  /** The tenant a statement runs under, if the server runs it at all. */
  function RunsUnder(c: Conn, fault: Fault): Option<Option<Tenant>> {
    if c.alive && c.tx != Aborted && fault in {NoFault, NoAnswer} then Some(c.tenant) else None
  }

  // ----- the wrappers, on one client --------------------------------------------

  /** One statement of a callback; `rethrow` says whether the callback lets its failure through. */
  datatype Call = Call(write: Write, fault: Fault, rethrow: bool)

  function WritesOf(calls: seq<Call>): (ws: seq<Write>)
    ensures |ws| == |calls|
  {
    if calls == [] then [] else WritesOf(calls[..|calls| - 1]) + [calls[|calls| - 1].write]
  }

  /** The writes that a live server runs: a lost answer does not undo its statement. */
  function WritesRun(calls: seq<Call>): seq<Write> {
    if calls == [] then [] else
    var last := calls[|calls| - 1];
    WritesRun(calls[..|calls| - 1]) + (if last.fault in {NoFault, NoAnswer} then [last.write] else [])
  }

  predicate SomeRefused(calls: seq<Call>) { exists i :: 0 <= i < |calls| && calls[i].fault == ServerError }

  /** What a callback that ran to its end leaves on a session that is still there. */
  ghost predicate CallbackEnd(conn: Conn, calls: seq<Call>) {
    conn.alive ==>
      if SomeRefused(calls) then conn.tx == Aborted
      else conn.tx == Open && conn.writes == WritesRun(calls)
  }

  ghost predicate Faultless(calls: seq<Call>) { forall i :: 0 <= i < |calls| ==> calls[i].fault == NoFault }

  class Client {
    var conn: Conn
    var durable: seq<Write>
    ghost var ranUnder: seq<Option<Tenant>>

    constructor ()
      ensures conn == FRESH && durable == [] && ranUnder == []
    {
      conn, durable, ranUnder := FRESH, [], [];
    }

    method Run(s: Statement, fault: Fault) returns (ok: bool)
      modifies this
      ensures (conn, ok, durable) == (Send(old(conn), s, fault).0, Send(old(conn), s, fault).1, old(durable) + Send(old(conn), s, fault).2)
      ensures ranUnder == if s.Query? && RunsUnder(old(conn), fault).Some? then old(ranUnder) + [RunsUnder(old(conn), fault).value] else old(ranUnder)
    {
      ghost var under := RunsUnder(conn, fault);
      if s.Query? && under.Some? {
        ranUnder := ranUnder + [under.value];
      }
      var (c', verdict, more) := Send(conn, s, fault);
      conn, ok, durable := c', verdict, durable + more;
    }

    /** Reports a failed ROLLBACK instead of throwing it. */
    method RollbackQuietly(fault: Fault) returns (failed: bool)
      modifies this
      ensures !failed ==> Clean(conn)
      ensures failed ==> !conn.alive || fault != NoFault
      ensures durable == old(durable) && ranUnder == old(ranUnder)
    {
      var ok := Run(Rollback, fault);
      failed := !ok;
    }

    /** The callback's statements, inside an open transaction. */
    method RunCallback(calls: seq<Call>) returns (thrown: bool, ghost ran: seq<Option<Tenant>>)
      requires conn.alive ==> conn.tx == Open && conn.writes == []
      modifies this
      ensures durable == old(durable)
      ensures ranUnder == old(ranUnder) + ran && forall t :: t in ran ==> t == old(conn.tenant)
      ensures conn.alive ==> conn.tx != NoTx
      ensures old(conn.alive) && Faultless(calls) ==>
        !thrown && conn.alive && conn.tx == Open && conn.writes == WritesOf(calls)
      ensures !thrown ==> CallbackEnd(conn, calls)
    {
      ran := [];
      for i := 0 to |calls|
        invariant durable == old(durable)
        invariant ranUnder == old(ranUnder) + ran && forall t :: t in ran ==> t == old(conn.tenant)
        invariant conn.alive ==> conn.tx != NoTx && conn.tenant == old(conn.tenant)
        invariant CallbackEnd(conn, calls[..i])
        invariant old(conn.alive) && Faultless(calls[..i]) ==> conn.alive && conn.tx == Open && conn.writes == WritesOf(calls[..i])
      {
        assert calls[..i + 1][..i] == calls[..i] && calls[..i + 1][i] == calls[i];
        if RunsUnder(conn, calls[i].fault).Some? {
          ran := ran + [conn.tenant];
        }
        OneMoreCall(conn, calls, i);
        var ok := Run(Query(calls[i].write), calls[i].fault);
        if !ok && calls[i].rethrow {
          assert calls[i].fault != NoFault || !old(conn.alive) || !Faultless(calls[..i]);
          FaultlessPrefix(calls, i);
          return true, ran;
        }
      }
      assert calls[..|calls|] == calls;
      return false, ran;
    }

    static lemma OneMoreCall(conn: Conn, calls: seq<Call>, i: nat)
      requires i < |calls| && (conn.alive ==> conn.tx != NoTx) && CallbackEnd(conn, calls[..i])
      ensures CallbackEnd(Send(conn, Query(calls[i].write), calls[i].fault).0, calls[..i + 1])
    {
      assert calls[..i + 1][..i] == calls[..i] && calls[..i + 1][i] == calls[i];
      if SomeRefused(calls[..i]) {
        var k :| 0 <= k < i && calls[..i][k].fault == ServerError;
        assert calls[..i + 1][k].fault == ServerError;
      } else if SomeRefused(calls[..i + 1]) {
        var k :| 0 <= k < i + 1 && calls[..i + 1][k].fault == ServerError;
        assert k < i ==> calls[..i][k].fault == ServerError;
      }
    }

    static lemma FaultlessPrefix(calls: seq<Call>, i: nat)
      requires i < |calls|
      ensures Faultless(calls) ==> Faultless(calls[..i]) && calls[i].fault == NoFault
    {}

    /**
     `withTenantScope`. `throws` is how the callback ends. The client goes back
     to the pool unless `destroy` is set.
     */
    method WithTenantScope(tenantId: Tenant, calls: seq<Call>, throws: bool,
                           begin: Fault, setTenant: Fault, commit: Fault, rollback: Fault)
      returns (returned: bool, destroy: bool, ghost ran: seq<Option<Tenant>>)
      requires Clean(conn)
      modifies this
      // A client that goes back to the pool carries no transaction and no tenant.
      ensures !destroy ==> Clean(conn)
      // A client is destroyed only when its session ended or its ROLLBACK failed.
      ensures destroy ==> !conn.alive || rollback != NoFault
      // Every statement of the callback ran under this call's tenant.
      ensures ranUnder == old(ranUnder) + ran && forall t :: t in ran ==> t == Some(tenantId)
      // Nothing becomes durable when the callback throws.
      ensures throws ==> durable == old(durable) && !returned
      // A call that returns made all writes that ran durable, or none because the server refused one of them.
      ensures returned ==> durable == old(durable) + if SomeRefused(calls) then [] else WritesRun(calls)
      // With no fault, all of the callback's writes become durable.
      ensures old(conn.alive) && Faultless(calls) && !throws && begin == setTenant == commit == NoFault ==>
        returned && !destroy && durable == old(durable) + WritesOf(calls)
    {
      ran := [];
      var ok := Run(Begin, begin);
      if ok {
        ok := Run(SetTenant(tenantId), setTenant);
        if ok {
          var thrown;
          thrown, ran := RunCallback(calls);
          ok := !thrown && !throws;
          if ok {
            ok := Run(Commit, commit);
            if ok {
              return true, false, ran;
            }
          }
        }
      }
      destroy := RollbackQuietly(rollback);
      return false, destroy, ran;
    }

    /** `withTransaction`: the same without a tenant. */
    method WithTransaction(calls: seq<Call>, throws: bool, begin: Fault, commit: Fault, rollback: Fault)
      returns (returned: bool, destroy: bool, ghost ran: seq<Option<Tenant>>)
      requires Clean(conn)
      modifies this
      ensures !destroy ==> Clean(conn)
      ensures destroy ==> !conn.alive || rollback != NoFault
      ensures ranUnder == old(ranUnder) + ran && forall t :: t in ran ==> t == None
      ensures throws ==> durable == old(durable) && !returned
      ensures returned ==> durable == old(durable) + if SomeRefused(calls) then [] else WritesRun(calls)
      ensures old(conn.alive) && Faultless(calls) && !throws && begin == commit == NoFault ==>
        returned && !destroy && durable == old(durable) + WritesOf(calls)
    {
      ran := [];
      var ok := Run(Begin, begin);
      if ok {
        var thrown;
        thrown, ran := RunCallback(calls);
        ok := !thrown && !throws;
        if ok {
          ok := Run(Commit, commit);
          if ok {
            return true, false, ran;
          }
        }
      }
      destroy := RollbackQuietly(rollback);
      return false, destroy, ran;
    }
  }
}
