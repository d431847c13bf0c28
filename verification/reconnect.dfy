/**
 `GET /sessions/:id/connect`: the saved history spliced with the captured turn,
 while the turn keeps logging events, writing its row and mirroring to the bus.

 One turn fills one row while a client connects. The rule of the environment is
 that a turn logs its `turn_started` event before it writes anything to its row.
 */
module Reconnect {
  import opened Wrappers
  import opened TurnStream

  /** A saved message. An empty content adds nothing to the converted history. */
  datatype Row = Row(id: string, fromUser: bool, content: string)

  /**
   The running turn: every event it logged, how many of the oldest its bounded
   log has dropped, its row, and which of its events the bus holds.
   */
  datatype Turn = Turn(
    events: seq<Entry>, dropped: nat, closed: bool,
    rowId: string, row: Option<string>,
    busFrom: nat, busTo: nat)

  datatype Source =
    | NoTurn
    | Unavailable
    | Local(held: seq<Entry>, overflowed: bool)
    | Remote(replay: seq<Entry>)

  datatype Pc = AtStart | Captured | HistoryRead | Sent

  datatype Connection = Connection(pc: Pc, source: Source, history: seq<Row>, messages: seq<Row>)

  /** `earlier` are the rows saved before the turn's own, up to and with its prompt. */
  datatype State = State(earlier: seq<Row>, turn: Turn, conn: Connection)

  // ----- pieces of the handler --------------------------------------------------

  /** The row that the first turn_started event names. */
  function StartedRow(events: seq<Entry>): Option<string> {
    if events == [] then None
    else if events[0].event.TurnStarted? then Some(events[0].event.messageId)
    else StartedRow(events[1..])
  }

  method TurnStartedRowId(events: seq<Entry>) returns (id: Option<string>)
    ensures id == StartedRow(events)
    ensures id.None? <==> forall e :: e in events ==> !e.event.TurnStarted?
  {
    for i := 0 to |events|
      invariant StartedRow(events) == StartedRow(events[i..])
      invariant forall k :: 0 <= k < i ==> !events[k].event.TurnStarted?
    {
      assert events[i..][1..] == events[i + 1..];
      if events[i].event.TurnStarted? {
        assert events[i] in events;
        return Some(events[i].event.messageId);
      }
    }
    return None;
  }

  /** Some row after the newest prompt adds to the history. */
  function HasReplyAfterLastPrompt(rows: seq<Row>): bool {
    if rows == [] || rows[|rows| - 1].fromUser then false
    else rows[|rows| - 1].content != "" || HasReplyAfterLastPrompt(rows[..|rows| - 1])
  }

  function Without(rows: seq<Row>, id: string): seq<Row> {
    if rows == [] then [] else (if rows[0].id == id then [] else [rows[0]]) + Without(rows[1..], id)
  }

  function CapturedEvents(source: Source): seq<Entry> {
    match source
    case Local(held, _) => held
    case Remote(replay) => replay
    case _ => []
  }

  predicate Attached(source: Source) { source.Local? || source.Remote? }

  /** The source that the connection keeps, and the rows that it sends. */
  function Decide(captured: Source, history: seq<Row>): (Source, seq<Row>) {
    var source := if captured.Local? && captured.overflowed then Unavailable else captured;
    var rowId := StartedRow(CapturedEvents(source));
    var kept := if source.Remote? && rowId.None? && HasReplyAfterLastPrompt(history) then Unavailable else source;
    (kept, if Attached(kept) && rowId.Some? then Without(history, rowId.value) else history)
  }

  // ----- the machine ---------------------------------------------------------------

  datatype Found = FoundNothing | FoundLocal | FoundRemote(busWorks: bool)

  datatype Action =
    | LogEvent(event: Event, frameBytes: nat)
    | DropOldest
    | EndTurn
    | CreateRow
    | WriteRow(content: string)
    | Mirror
    | BusDrops
    | Capture(found: Found)
    | ReadHistory
    | CatchUp(busWorks: bool)
    | Send

  ghost predicate Started(t: Turn) {
    exists i :: 0 <= i < |t.events| && t.events[i].event == TurnStarted(t.rowId)
  }

  /** What the code alone permits. */
  ghost predicate Possible(s: State, a: Action) {
    match a
    case LogEvent(event, _) => !s.turn.closed && (event.TurnStarted? ==> event.messageId == s.turn.rowId)
    case DropOldest => s.turn.dropped < |s.turn.events|
    case EndTurn => true
    case CreateRow => s.turn.row.None?
    case WriteRow(_) => s.turn.row.Some?
    case Mirror => s.turn.busTo < |s.turn.events|
    case BusDrops => s.turn.busFrom < s.turn.busTo
    case Capture(_) => s.conn.pc == AtStart
    case ReadHistory => s.conn.pc == Captured
    case CatchUp(_) => s.conn.pc == HistoryRead && s.conn.source.Remote?
    case Send => s.conn.pc == HistoryRead
  }

  /** The rule of the environment: turn_started is logged before the row is written. */
  ghost predicate Enabled(s: State, a: Action) {
    Possible(s, a) && (a.WriteRow? ==> Started(s.turn))
  }

  /** The rows that a history read returns now. */
  function Rows(s: State): seq<Row> {
    if s.turn.row.None? then s.earlier else s.earlier + [Row(s.turn.rowId, false, s.turn.row.value)]
  }

  /** What the queue holds after one more event. */
  function Queue(held: seq<Entry>, overflowed: bool, e: Entry): Source {
    if overflowed || FrameTotal(held) + e.frameBytes > MAX_PENDING_BYTES then Local([], true) else Local(held + [e], false)
  }

  /** The bus answers with everything after `n`, or with None when it has dropped some of that. */
  function BusReplay(t: Turn, n: nat): Option<seq<Entry>>
    requires t.busFrom <= t.busTo <= |t.events|
  {
    if t.busFrom == t.busTo then (if n == 0 then Some([]) else None)
    else if n < t.busFrom || n > t.busTo then None
    else Some(t.events[n..t.busTo])
  }

  function Open(t: Turn, found: Found): Source
    requires t.busFrom <= t.busTo <= |t.events|
  {
    match found
    case FoundNothing => NoTurn
    case FoundLocal =>
      if t.closed || t.dropped > 0 || FrameTotal(t.events) > MAX_PENDING_BYTES then Unavailable else Local(t.events, false)
    case FoundRemote(busWorks) =>
      if busWorks && BusReplay(t, 0).Some? then Remote(BusReplay(t, 0).value) else Unavailable
  }

  ghost function Step(s: State, a: Action): State
    requires Possible(s, a) && s.turn.busFrom <= s.turn.busTo <= |s.turn.events|
  {
    var t, c := s.turn, s.conn;
    match a
    case LogEvent(event, frameBytes) =>
      var e := Entry(|t.events| + 1, event, frameBytes);
      s.(turn := t.(events := t.events + [e]),
         conn := if c.source.Local? then c.(source := Queue(c.source.held, c.source.overflowed, e)) else c)
    case DropOldest => s.(turn := t.(dropped := t.dropped + 1))
    case EndTurn => s.(turn := t.(closed := true))
    case CreateRow => s.(turn := t.(row := Some("")))
    case WriteRow(content) => s.(turn := t.(row := Some(content)))
    case Mirror => s.(turn := t.(busTo := t.busTo + 1))
    case BusDrops => s.(turn := t.(busFrom := t.busFrom + 1))
    case Capture(found) => s.(conn := c.(pc := Captured, source := Open(t, found)))
    case ReadHistory => s.(conn := c.(pc := HistoryRead, history := Rows(s)))
    case CatchUp(busWorks) =>
      var more := BusReplay(t, |c.source.replay|);
      if busWorks && more.Some? then s.(conn := c.(source := Remote(c.source.replay + more.value))) else s
    case Send =>
      var (source, messages) := Decide(c.source, c.history);
      s.(conn := c.(pc := Sent, source := source, messages := messages))
  }

  // ----- the invariant -----------------------------------------------------------------

  /** What a history read at some earlier moment can have returned. */
  ghost predicate HistoryOk(s: State) {
    s.conn.history == s.earlier ||
    exists content :: s.conn.history == s.earlier + [Row(s.turn.rowId, false, content)] && (content != "" ==> Started(s.turn))
  }

  ghost predicate SourceOk(s: State) {
    match s.conn.source
    case Local(held, overflowed) => if overflowed then held == [] else held == s.turn.events && FrameTotal(held) <= MAX_PENDING_BYTES
    case Remote(replay) => replay <= s.turn.events
    case _ => true
  }

  ghost predicate TurnOk(s: State) {
    && s.turn.busFrom <= s.turn.busTo <= |s.turn.events|
    && Consecutive(s.turn.events, 1)
    && (forall i :: 0 <= i < |s.turn.events| && s.turn.events[i].event.TurnStarted? ==> s.turn.events[i].event.messageId == s.turn.rowId)
    && (s.turn.row.Some? && s.turn.row.value != "" ==> Started(s.turn))
  }

  ghost predicate EarlierOk(s: State) {
    forall i :: 0 <= i < |s.earlier| ==> s.earlier[i].id != s.turn.rowId
  }

  /** What the client was sent, once it was. */
  ghost predicate SentOk(s: State) {
    && (!Attached(s.conn.source) ==> s.conn.messages == s.conn.history)
    && (Attached(s.conn.source) ==> s.conn.messages == s.earlier || s.conn.messages == s.earlier + [Row(s.turn.rowId, false, "")])
  }

  ghost predicate Inv(s: State) {
    && TurnOk(s) && EarlierOk(s) && SourceOk(s)
    && (s.conn.pc in {AtStart, Captured} || HistoryOk(s))
    && (s.conn.pc == Sent ==> SentOk(s))
  }

  ghost predicate Initial(s: State) {
    && s.conn == Connection(AtStart, NoTurn, [], [])
    && EarlierOk(s)
    && s.turn.events == [] && s.turn.row == None && s.turn.busFrom == s.turn.busTo == s.turn.dropped == 0
  }

  lemma {:induction false} StartedRowOfPrefix(t: Turn, events: seq<Entry>)
    requires events <= t.events
    requires forall i :: 0 <= i < |t.events| && t.events[i].event.TurnStarted? ==> t.events[i].event.messageId == t.rowId
    ensures StartedRow(events).Some? ==> StartedRow(events).value == t.rowId && Started(t)
    ensures StartedRow(events).None? ==> forall i :: 0 <= i < |events| ==> !events[i].event.TurnStarted?
  {
    StartedRowFinds(events);
    if StartedRow(events).Some? {
      var i :| FirstStarted(events, i, StartedRow(events).value);
      assert t.events[i] == events[i];
    }
  }

  ghost predicate FirstStarted(events: seq<Entry>, i: int, id: string) {
    0 <= i < |events| && events[i].event == TurnStarted(id) && forall k :: 0 <= k < i ==> !events[k].event.TurnStarted?
  }

  lemma StartedLater(events: seq<Entry>, i: int, id: string)
    requires events != [] && !events[0].event.TurnStarted? && FirstStarted(events[1..], i, id)
    ensures FirstStarted(events, i + 1, id)
  {
    forall k | 0 <= k < i + 1 ensures !events[k].event.TurnStarted? {
      if k > 0 { assert events[k] == events[1..][k - 1]; }
    }
  }

  lemma {:induction false} StartedRowFinds(events: seq<Entry>)
    ensures StartedRow(events).Some? ==> exists i :: FirstStarted(events, i, StartedRow(events).value)
    ensures StartedRow(events).None? ==> forall i :: 0 <= i < |events| ==> !events[i].event.TurnStarted?
  {
    if events != [] && !events[0].event.TurnStarted? {
      var rest := events[1..];
      StartedRowFinds(rest);
      if StartedRow(rest).Some? {
        var i :| FirstStarted(rest, i, StartedRow(rest).value);
        StartedLater(events, i, StartedRow(rest).value);
        assert FirstStarted(events, i + 1, StartedRow(events).value);
      } else {
        forall i | 0 <= i < |events| ensures !events[i].event.TurnStarted? {
          if i > 0 { assert events[i] == rest[i - 1]; }
        }
      }
    } else if events != [] {
      assert FirstStarted(events, 0, StartedRow(events).value);
    }
  }

  lemma {:induction false} WithoutKeeps(rows: seq<Row>, id: string)
    requires forall i :: 0 <= i < |rows| ==> rows[i].id != id
    ensures Without(rows, id) == rows
    ensures forall r: Row :: r.id == id ==> Without(rows + [r], id) == rows
  {
    if rows != [] {
      WithoutKeeps(rows[1..], id);
      forall r: Row | r.id == id ensures Without(rows + [r], id) == rows {
        assert (rows + [r])[1..] == rows[1..] + [r];
      }
    } else {
      forall r: Row | r.id == id ensures Without(rows + [r], id) == rows {
        assert rows + [r] == [r] && [r][1..] == [];
      }
    }
  }

  /** The decision: a named row is left out; one without a name was empty, or the turn is not attached. */
  lemma DecideIsSafe(s: State)
    requires Inv(s) && s.conn.pc == HistoryRead
    ensures SentOk(Step(s, Send))
    ensures
      var (source, messages) := Decide(s.conn.source, s.conn.history);
      Attached(source) && StartedRow(CapturedEvents(source)).Some? ==> messages == s.earlier
  {
    var c, t := s.conn, s.turn;
    var events := CapturedEvents(c.source);
    var (source, messages) := Decide(c.source, c.history);
    if Attached(source) {
      StartedRowOfPrefix(t, events);
      WithoutKeeps(s.earlier, t.rowId);
      if c.history != s.earlier && StartedRow(events).None? {
        var content :| c.history == s.earlier + [Row(t.rowId, false, content)] && (content != "" ==> Started(t));
        assert c.source.Remote? ==> c.history[|c.history| - 1].content == content;
      }
    }
  }

  lemma StartedStays(s: State, a: Action)
    requires Inv(s) && Enabled(s, a) && Started(s.turn)
    ensures Started(Step(s, a).turn)
  {
    var i :| 0 <= i < |s.turn.events| && s.turn.events[i].event == TurnStarted(s.turn.rowId);
    assert Step(s, a).turn.events[i] == s.turn.events[i];
  }

  lemma TurnStep(s: State, a: Action)
    requires Inv(s) && Enabled(s, a)
    ensures TurnOk(Step(s, a))
  {
    if Started(s.turn) { StartedStays(s, a); }
  }

  lemma HistoryStep(s: State, a: Action)
    requires Inv(s) && Enabled(s, a)
    requires s.conn.pc in {HistoryRead, Sent} || a.ReadHistory?
    ensures HistoryOk(Step(s, a))
  {
    if Started(s.turn) { StartedStays(s, a); }
    if a.ReadHistory? {
      if s.turn.row.Some? { assert Step(s, a).conn.history == s.earlier + [Row(s.turn.rowId, false, s.turn.row.value)]; }
    } else if s.conn.history != s.earlier {
      var content :| s.conn.history == s.earlier + [Row(s.turn.rowId, false, content)] && (content != "" ==> Started(s.turn));
      assert Step(s, a).conn.history == Step(s, a).earlier + [Row(Step(s, a).turn.rowId, false, content)];
    }
  }

  lemma SourceStep(s: State, a: Action)
    requires Inv(s) && Enabled(s, a)
    ensures SourceOk(Step(s, a)) && EarlierOk(Step(s, a))
  {
    if a.LogEvent? { FrameTotalSnoc(s.turn.events, Entry(|s.turn.events| + 1, a.event, a.frameBytes)); }
  }

  lemma InvStep(s: State, a: Action)
    requires Inv(s) && Enabled(s, a)
    ensures Inv(Step(s, a))
  {
    TurnStep(s, a);
    SourceStep(s, a);
    if Step(s, a).conn.pc !in {AtStart, Captured} { HistoryStep(s, a); }
    if a.Send? { DecideIsSafe(s); }
  }

  // ----- whole runs -------------------------------------------------------------------

  ghost predicate ValidRun(s: State, run: seq<Action>)
    requires Inv(s)
    decreases |run|
  {
    run == [] || (Enabled(s, run[0]) && (InvStep(s, run[0]); ValidRun(Step(s, run[0]), run[1..])))
  }

  ghost function After(s: State, run: seq<Action>): State
    requires Inv(s) && ValidRun(s, run)
    decreases |run|
  {
    if run == [] then s else (InvStep(s, run[0]); After(Step(s, run[0]), run[1..]))
  }

  lemma {:induction false} InvRun(s: State, run: seq<Action>)
    requires Inv(s) && ValidRun(s, run)
    ensures Inv(After(s, run))
    ensures After(s, run).earlier == s.earlier && After(s, run).turn.rowId == s.turn.rowId
    decreases |run|
  {
    if run != [] {
      InvStep(s, run[0]);
      InvRun(Step(s, run[0]), run[1..]);
    }
  }

  /** The saved rows of the reply that the client was sent and that show something. */
  ghost predicate ShowsSavedReply(s: State) {
    exists i :: 0 <= i < |s.conn.messages| && s.conn.messages[i].id == s.turn.rowId && s.conn.messages[i].content != ""
  }

  /**
   Whatever the interleaving: an attached client gets every earlier row, never
   the text of the saved reply, and a replay that misses no event from the first
   one on; a client that is not attached gets the history just as it was read,
   reply included.
   */
  lemma ReplyShownOnce(s: State, run: seq<Action>)
    requires Initial(s) && ValidRun(s, run) && After(s, run).conn.pc == Sent
    ensures
      var t := After(s, run);
      if Attached(t.conn.source) then
        && s.earlier <= t.conn.messages
        && (forall i :: |s.earlier| <= i < |t.conn.messages| ==> t.conn.messages[i] == Row(s.turn.rowId, false, ""))
        && !ShowsSavedReply(t)
        && (t.conn.source.Local? && !t.conn.source.overflowed ==> t.conn.source.held == t.turn.events)
        && (t.conn.source.Remote? ==> t.conn.source.replay <= t.turn.events)
      else
        && t.conn.messages == t.conn.history
        && (t.conn.history == s.earlier || exists content :: t.conn.history == s.earlier + [Row(s.turn.rowId, false, content)])
  {
    InvRun(s, run);
  }

  /**
   A captured turn is given up only when its queue overflowed, or when its name
   has not reached the bus and the history already shows text after the prompt.
   */
  lemma GivenUpOnlyWhenNeeded(s: State)
    requires Inv(s) && s.conn.pc == HistoryRead
    requires s.earlier != [] && s.earlier[|s.earlier| - 1].fromUser
    requires Attached(s.conn.source)
    ensures Attached(Step(s, Send).conn.source) <==>
      match s.conn.source
      case Local(_, overflowed) => !overflowed
      case Remote(replay) =>
        (|| (exists i :: 0 <= i < |replay| && replay[i].event.TurnStarted?)
         || s.conn.history == s.earlier
         || s.conn.history == s.earlier + [Row(s.turn.rowId, false, "")])
  {
    var events, h := CapturedEvents(s.conn.source), s.conn.history;
    StartedRowFinds(events);
    if s.conn.source.Remote? && h != s.earlier {
      var content :| h == s.earlier + [Row(s.turn.rowId, false, content)];
      assert h[|h| - 1] == Row(s.turn.rowId, false, content) && h[..|h| - 1] == s.earlier;
      assert h == s.earlier + [Row(s.turn.rowId, false, "")] <==> content == "";
      assert !HasReplyAfterLastPrompt(s.earlier);
      assert HasReplyAfterLastPrompt(h) <==> content != "";
      assert StartedRow(events).Some? <==> exists i :: 0 <= i < |events| && events[i].event.TurnStarted?;
    }
  }

  /** The rule is needed: a turn that writes its row first is shown twice. */
  lemma WriteBeforeStartedShowsTwice(s: State, text: string)
    requires Initial(s) && text != "" && !s.turn.closed
    ensures
      var s1 := Step(s, Capture(FoundLocal));
      var s2 := Step(s1, CreateRow);
      var s3 := Step(s2, WriteRow(text));
      var s4 := Step(s3, ReadHistory);
      var s5 := Step(s4, Send);
      && !Enabled(s2, WriteRow(text))
      && Attached(s5.conn.source) && ShowsSavedReply(s5)
  {
    var s4 := Step(Step(Step(Step(s, Capture(FoundLocal)), CreateRow), WriteRow(text)), ReadHistory);
    var m := Step(s4, Send).conn.messages;
    assert m == s.earlier + [Row(s.turn.rowId, false, text)];
    assert m[|s.earlier|].content == text;
  }

  // ----- a running turn is captured ---------------------------------------------------------

  /** Capturing: a local turn with its whole log, if that is kept and fits; a remote one with all that the bus still has from the first event on. */
  lemma CaptureExactly(s: State, found: Found)
    requires Inv(s) && s.conn.pc == AtStart
    ensures
      var (t, source) := (s.turn, Step(s, Capture(found)).conn.source);
      && (Attached(source) <==>
            || (found.FoundLocal? && !t.closed && t.dropped == 0 && FrameTotal(t.events) <= MAX_PENDING_BYTES)
            || (found.FoundRemote? && found.busWorks && (t.busFrom == 0 || t.busFrom == t.busTo)))
      && (Attached(source) ==>
            && source.Local? == found.FoundLocal?
            && CapturedEvents(source) == (if found.FoundLocal? then t.events else if t.busFrom == 0 then t.events[..t.busTo] else []))
      && (source == NoTurn <==> found == FoundNothing)
  {}

  /** Catching up reads on to the end of the bus, or nothing when the bus has dropped some of what is missing. */
  lemma CatchUpExactly(s: State, busWorks: bool)
    requires Inv(s) && Enabled(s, CatchUp(busWorks))
    ensures
      var (t, n, source) := (s.turn, |s.conn.source.replay|, Step(s, CatchUp(busWorks)).conn.source);
      && source.Remote?
      && source.replay == if busWorks && t.busFrom < t.busTo && t.busFrom <= n <= t.busTo then t.events[..t.busTo] else t.events[..n]
  {
    var n := |s.conn.source.replay|;
    assert s.conn.source.replay == s.turn.events[..n];
  }

  lemma {:induction false} TotalOfPrefix(events: seq<Entry>, k: nat)
    requires k <= |events|
    ensures FrameTotal(events[..k]) <= FrameTotal(events)
    decreases |events| - k
  {
    if k < |events| {
      TotalOfPrefix(events, k + 1);
      assert events[..k + 1] == events[..k] + [events[k]];
      FrameTotalSnoc(events[..k], events[k]);
    } else {
      assert events[..k] == events;
    }
  }

  lemma {:induction false} EventsOnlyGrow(s: State, run: seq<Action>)
    requires Inv(s) && ValidRun(s, run)
    ensures s.turn.events <= After(s, run).turn.events
    decreases |run|
  {
    if run != [] {
      InvStep(s, run[0]);
      EventsOnlyGrow(Step(s, run[0]), run[1..]);
    }
  }

  /** A captured local turn stays attached, with every event that it logs from then on, as long as the log fits. */
  lemma {:induction false} LocalTurnIsReplayed(s: State, run: seq<Action>)
    requires Inv(s) && ValidRun(s, run) && s.conn.pc != AtStart && s.conn.source == Local(s.turn.events, false)
    requires FrameTotal(After(s, run).turn.events) <= MAX_PENDING_BYTES
    ensures After(s, run).conn.source == Local(After(s, run).turn.events, false)
    decreases |run|
  {
    if run != [] {
      InvStep(s, run[0]);
      var t := Step(s, run[0]);
      EventsOnlyGrow(t, run[1..]);
      TotalOfPrefix(After(s, run).turn.events, |t.turn.events|);
      assert After(s, run).turn.events[..|t.turn.events|] == t.turn.events;
      if run[0].LogEvent? {
        var e := Entry(|s.turn.events| + 1, run[0].event, run[0].frameBytes);
        assert t.turn.events == s.turn.events + [e];
        FrameTotalSnoc(s.turn.events, e);
      }
      LocalTurnIsReplayed(t, run[1..]);
    }
  }

  /** This row adds to the history and no prompt stands behind it. */
  ghost predicate ReplyAt(rows: seq<Row>, i: int) {
    0 <= i < |rows| && rows[i].content != "" && forall j :: i <= j < |rows| ==> !rows[j].fromUser
  }

  lemma {:induction false} HasReplyExactly(rows: seq<Row>)
    ensures HasReplyAfterLastPrompt(rows) <==> exists i :: ReplyAt(rows, i)
    decreases |rows|
  {
    if rows != [] {
      var last := |rows| - 1;
      HasReplyExactly(rows[..last]);
      if i :| ReplyAt(rows, i) {
        assert i < last ==> ReplyAt(rows[..last], i);
      }
      if i :| ReplyAt(rows[..last], i) {
        assert !rows[last].fromUser ==> ReplyAt(rows, i);
      }
      assert !rows[last].fromUser && rows[last].content != "" ==> ReplyAt(rows, last);
    }
  }

  lemma {:induction false} WithoutConcat(a: seq<Row>, b: seq<Row>, id: string)
    ensures Without(a + b, id) == Without(a, id) + Without(b, id)
  {
    if a == [] {
      assert a + b == b;
    } else {
      assert (a + b)[1..] == a[1..] + b;
      WithoutConcat(a[1..], b, id);
    }
  }
}
