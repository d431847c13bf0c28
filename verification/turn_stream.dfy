/**
 The events of a running turn on their way to a reconnected client: the bounded
 queue of a turn in this process, its pump, and the stream of a turn on another
 replica.
 */
module TurnStream {
  import opened Wrappers

  datatype Event =
    | TurnStarted(messageId: string)   // names the saved row that the turn fills
    | Content(text: string)
    | Terminal                         // RUN_FINISHED or RUN_ERROR

  /** `frameBytes` is the size of the entry's SSE frame. */
  datatype Entry = Entry(sequence: nat, event: Event, frameBytes: nat)

  const MAX_PENDING_BYTES := 1_000_000

  function FrameTotal(es: seq<Entry>): nat {
    if es == [] then 0 else es[0].frameBytes + FrameTotal(es[1..])
  }

  lemma {:induction false} FrameTotalSnoc(es: seq<Entry>, e: Entry)
    ensures FrameTotal(es + [e]) == FrameTotal(es) + e.frameBytes
  {
    if es == [] {
      assert [e][1..] == [];
    } else {
      assert (es + [e])[1..] == es[1..] + [e];
      FrameTotalSnoc(es[1..], e);
    }
  }

  /** Numbered from `first` without a gap. */
  ghost predicate Consecutive(es: seq<Entry>, first: nat) {
    forall i :: 0 <= i < |es| ==> es[i].sequence == first + i
  }

  // ----- the local queue ------------------------------------------------------------

  /** What the log hands over: an entry, or None when the turn ended. */
  class LocalTurnQueue {
    var pending: seq<Entry>
    var closed: bool
    var overflowed: bool
    var bytes: nat
    var subscribed: bool

    /** Every entry the log delivered, and every entry the stream took, so far. */
    ghost var received: seq<Entry>
    ghost var taken: seq<Entry>

    /** The counter is the size of what is held, under the cap; nothing is lost or reordered until an overflow. */
    ghost predicate Valid()
      reads this
    {
      && bytes == FrameTotal(pending) <= MAX_PENDING_BYTES
      && (overflowed ==> pending == [] && !subscribed)
      && (!overflowed ==> taken + pending == received)
      && taken <= received
    }

    /** Subscribing from the start of the turn: the log's replay goes in first. */
    constructor Open(replay: seq<Entry>)
      ensures Valid() && !closed && taken == []
      ensures overflowed <==> FrameTotal(replay) > MAX_PENDING_BYTES
      ensures !overflowed ==> pending == replay == received && subscribed
    {
      pending, closed, overflowed, bytes, subscribed := [], false, false, 0, true;
      received, taken := [], [];
      new;
      for i := 0 to |replay|
        invariant Valid() && !closed && taken == []
        invariant overflowed <==> FrameTotal(replay[..i]) > MAX_PENDING_BYTES
        invariant !overflowed ==> pending == replay[..i] == received && subscribed
      {
        assert replay[..i + 1] == replay[..i] + [replay[i]];
        FrameTotalSnoc(replay[..i], replay[i]);
        Push(replay[i]);
      }
      assert replay[..|replay|] == replay;
    }

    /** An entry that would pass the cap drops everything and ends the subscription. */
    method Push(entry: Entry)
      requires Valid()
      modifies this
      ensures Valid() && taken == old(taken) && closed == old(closed)
      ensures overflowed <==> old(overflowed) || FrameTotal(old(pending)) + entry.frameBytes > MAX_PENDING_BYTES
      ensures !overflowed ==> pending == old(pending) + [entry] && received == old(received) + [entry] && subscribed == old(subscribed)
    {
      if overflowed {
        return;
      }
      received := received + [entry];
      if bytes + entry.frameBytes > MAX_PENDING_BYTES {
        overflowed := true;
        pending := [];
        bytes := 0;
        subscribed := false;
        return;
      }
      FrameTotalSnoc(pending, entry);
      pending := pending + [entry];
      bytes := bytes + entry.frameBytes;
    }

    /** The listener that the log calls. */
    method Deliver(entry: Option<Entry>)
      requires Valid()
      modifies this
      ensures Valid() && taken == old(taken)
      ensures old(overflowed) ==> overflowed && closed == old(closed)
      ensures !old(overflowed) && entry.None? ==> closed && !overflowed && pending == old(pending) && received == old(received)
      ensures !old(overflowed) && entry.Some? ==>
        && closed == old(closed)
        && (overflowed <==> FrameTotal(old(pending)) + entry.value.frameBytes > MAX_PENDING_BYTES)
        && (!overflowed ==> pending == old(pending) + [entry.value] && received == old(received) + [entry.value])
    {
      if overflowed {
        return;
      }
      match entry
      case Some(e) => Push(e);
      case None => closed := true;
    }

    method Shift() returns (entry: Option<Entry>)
      requires Valid()
      modifies this
      ensures Valid() && received == old(received) && closed == old(closed) && overflowed == old(overflowed)
      ensures old(pending) == [] ==> entry == None && pending == [] && taken == old(taken)
      ensures old(pending) != [] ==> entry == Some(old(pending)[0]) && pending == old(pending)[1..] && taken == old(taken) + [old(pending)[0]]
    {
      if pending == [] {
        return None;
      }
      entry := Some(pending[0]);
      bytes := bytes - pending[0].frameBytes;
      assert taken + pending == taken + [pending[0]] + pending[1..];
      taken := taken + [pending[0]];
      pending := pending[1..];
    }
  }

  /** What a log delivered in several waits, flattened; the end of the turn is not an entry. */
  ghost function Entries(deliveries: seq<Option<Entry>>): seq<Entry> {
    if deliveries == [] then []
    else Entries(deliveries[..|deliveries| - 1]) +
         (if deliveries[|deliveries| - 1].Some? then [deliveries[|deliveries| - 1].value] else [])
  }

  lemma {:induction false} EntriesConcat(a: seq<Option<Entry>>, b: seq<Option<Entry>>)
    ensures Entries(a + b) == Entries(a) + Entries(b)
    decreases |b|
  {
    if b == [] {
      assert a + b == a;
    } else {
      var init := b[..|b| - 1];
      assert (a + b)[..|a + b| - 1] == a + init;
      EntriesConcat(a, init);
    }
  }

  ghost function Flat(arrivals: seq<seq<Option<Entry>>>): seq<Option<Entry>> {
    if arrivals == [] then [] else Flat(arrivals[..|arrivals| - 1]) + arrivals[|arrivals| - 1]
  }

  lemma FlatSnoc(arrivals: seq<seq<Option<Entry>>>, k: nat)
    requires k < |arrivals|
    ensures Entries(Flat(arrivals[..k + 1])) == Entries(Flat(arrivals[..k])) + Entries(arrivals[k])
  {
    assert arrivals[..k + 1][..k] == arrivals[..k];
    EntriesConcat(Flat(arrivals[..k]), arrivals[k]);
  }

  method DeliverAll(queue: LocalTurnQueue, deliveries: seq<Option<Entry>>)
    requires queue.Valid()
    modifies queue
    ensures queue.Valid() && queue.taken == old(queue.taken)
    ensures !queue.overflowed ==>
      && !old(queue.overflowed)
      && queue.received == old(queue.received) + Entries(deliveries)
      && (queue.closed <==> old(queue.closed) || None in deliveries)
  {
    for i := 0 to |deliveries|
      invariant queue.Valid() && queue.taken == old(queue.taken)
      invariant !queue.overflowed ==>
        && !old(queue.overflowed)
        && queue.received == old(queue.received) + Entries(deliveries[..i])
        && (queue.closed <==> old(queue.closed) || None in deliveries[..i])
    {
      assert deliveries[..i + 1][..i] == deliveries[..i];
      assert deliveries[..i + 1] == deliveries[..i] + [deliveries[i]];
      queue.Deliver(deliveries[i]);
    }
    assert deliveries[..|deliveries|] == deliveries;
  }

  /**
   The pump of the local stream. `arrivals[k]` is what the log delivers while
   the stream waits for its `k`th write; after the last of them no more arrive.
   `finished` says that the stream ends, because the turn ended or the queue
   overflowed.
   */
  method Pump(queue: LocalTurnQueue, arrivals: seq<seq<Option<Entry>>>) returns (written: seq<Entry>, finished: bool)
    requires queue.Valid()
    modifies queue
    ensures queue.Valid()
    // Whatever happens, the client gets entries the log delivered, in its order and without a gap.
    ensures queue.taken == old(queue.taken) + written <= queue.received
    // Without an overflow it gets every one.
    ensures !queue.overflowed ==>
      && queue.pending == []
      && queue.taken == queue.received
      && exists waits :: 0 <= waits <= |arrivals| && queue.received == old(queue.received) + Entries(Flat(arrivals[..waits]))
    ensures finished <==> queue.closed || queue.overflowed
  {
    written := [];
    var waits := 0;
    while queue.pending != []
      invariant queue.Valid() && 0 <= waits <= |arrivals|
      invariant queue.taken == old(queue.taken) + written
      invariant !queue.overflowed ==>
        && !old(queue.overflowed)
        && queue.received == old(queue.received) + Entries(Flat(arrivals[..waits]))
      decreases |arrivals| - waits, |queue.pending|
    {
      var entry := queue.Shift();
      written := written + [entry.value];
      if waits < |arrivals| {
        DeliverAll(queue, arrivals[waits]);
        FlatSnoc(arrivals, waits);
        waits := waits + 1;
      }
    }
    finished := queue.closed || queue.overflowed;
  }

  // ----- the remote stream ---------------------------------------------------------------

  ghost predicate Increasing(es: seq<Entry>, above: nat) {
    && (forall i :: 0 <= i < |es| ==> es[i].sequence > above)
    && (forall i, j :: 0 <= i < j < |es| ==> es[i].sequence < es[j].sequence)
  }

  /** Only the last entry may be terminal. */
  ghost predicate NothingAfterTerminal(es: seq<Entry>) {
    forall i :: 0 <= i < |es| - 1 ==> !es[i].event.Terminal?
  }

  predicate Ended(es: seq<Entry>) { es != [] && es[|es| - 1].event.Terminal? }

  function Last(es: seq<Entry>, otherwise: nat): nat { if es == [] then otherwise else es[|es| - 1].sequence }

  /** What one batch adds to the stream: the entries above every earlier number, up to a terminal event. */
  function Fresh(batch: seq<Entry>, after: nat): seq<Entry> {
    if batch == [] then []
    else if batch[0].sequence <= after then Fresh(batch[1..], after)
    else if batch[0].event.Terminal? then [batch[0]]
    else [batch[0]] + Fresh(batch[1..], batch[0].sequence)
  }

  /** For any batch at all, what it adds goes up and stops at the terminal event. */
  lemma {:induction false} FreshIncreases(batch: seq<Entry>, after: nat)
    ensures Increasing(Fresh(batch, after), after) && NothingAfterTerminal(Fresh(batch, after))
    ensures forall e :: e in Fresh(batch, after) ==> e in batch
  {
    if batch != [] {
      var e, rest := batch[0], batch[1..];
      assert batch == [e] + rest;
      if e.sequence <= after {
        FreshIncreases(rest, after);
      } else if !e.event.Terminal? {
        FreshIncreases(rest, e.sequence);
        OneInFront(e, Fresh(rest, e.sequence), after);
      }
    }
  }

  lemma OneInFront(e: Entry, rest: seq<Entry>, after: nat)
    requires e.sequence > after && !e.event.Terminal? && Increasing(rest, e.sequence) && NothingAfterTerminal(rest)
    ensures Increasing([e] + rest, after) && NothingAfterTerminal([e] + rest)
  {}

  /** A batch that continues the stream without a gap is added whole, up to the terminal event. */
  lemma {:induction false} FreshOfNext(batch: seq<Entry>, after: nat)
    requires Consecutive(batch, after + 1)
    ensures Fresh(batch, after) <= batch
    ensures !Ended(Fresh(batch, after)) ==> Fresh(batch, after) == batch
  {
    if batch != [] {
      assert batch[0].sequence == after + 1;
      if !batch[0].event.Terminal? {
        assert Consecutive(batch[1..], after + 2) by {
          forall i | 0 <= i < |batch[1..]| ensures batch[1..][i].sequence == after + 2 + i { assert batch[1..][i] == batch[i + 1]; }
        }
        FreshOfNext(batch[1..], after + 1);
        assert batch == [batch[0]] + batch[1..];
      }
    }
  }

  /** Writes the entries of one batch that are new; `closed` is set at the terminal event. */
  method WriteBatch(batch: seq<Entry>, after: nat) returns (written: seq<Entry>, at: nat, closed: bool)
    ensures written == Fresh(batch, after) && at == Last(written, after) && closed == Ended(written)
  {
    written, at, closed := [], after, false;
    for i := 0 to |batch|
      invariant !closed && !Ended(written) && at == Last(written, after)
      invariant Fresh(batch, after) == written + Fresh(batch[i..], at)
    {
      assert batch[i..][1..] == batch[i + 1..];
      if batch[i].sequence <= at {
        continue;
      }
      assert written + ([batch[i]] + Fresh(batch[i + 1..], batch[i].sequence)) == written + [batch[i]] + Fresh(batch[i + 1..], batch[i].sequence);
      written := written + [batch[i]];
      at := batch[i].sequence;
      if batch[i].event.Terminal? {
        closed := true;
        return;
      }
    }
  }

  /**
   One wait of the stream: `wait` is what the bus answers to a wait after a
   sequence number, None for a gap; then the access check and the owner check.
   */
  datatype Round = Round(wait: nat -> Option<seq<Entry>>, clientOpen: bool, ownerLive: bool, canRead: bool)

  /** The contract of the bus: a wait after `n` answers with the turn's events right after `n`, without a gap. */
  ghost predicate Serves(rounds: seq<Round>, log: seq<Entry>) {
    forall k, after: nat :: 0 <= k < |rounds| && rounds[k].wait(after).Some? ==> Slice(rounds[k].wait(after).value, after, log)
  }

  ghost predicate Slice(es: seq<Entry>, after: nat, log: seq<Entry>) {
    es == [] || (after + |es| <= |log| && es == log[after..after + |es|])
  }

  /** The round answers with the turn's events up to number `m`, when asked from below it. */
  ghost predicate ServesUpTo(round: Round, m: nat, log: seq<Entry>) {
    m <= |log| && forall after: nat :: after <= m ==> round.wait(after) == Some(log[after..m])
  }

  /** Neither the client, the requester's access, the owner nor a gap ends the stream. */
  ghost predicate NothingStops(rounds: seq<Round>) {
    forall k :: 0 <= k < |rounds| ==> rounds[k].clientOpen && rounds[k].canRead && rounds[k].ownerLive && Answers(rounds[k])
  }

  ghost predicate Answers(round: Round) { forall after: nat :: round.wait(after).Some? }

  /** The first `k` rounds served nothing beyond `n`. */
  ghost predicate ServedWithin(rounds: seq<Round>, k: nat, n: nat, log: seq<Entry>)
    requires k <= |rounds|
  {
    forall j, m: nat :: 0 <= j < k && ServesUpTo(rounds[j], m, log) ==> m <= n
  }

  /** After `after`, this round brings the stream a next batch. */
  predicate Goes(round: Round, after: nat) {
    && round.clientOpen && round.wait(after).Some?
    && (round.wait(after).value == [] ==> round.ownerLive) && round.canRead
  }

  /** What the stream writes from a batch on. */
  function Streamed(batch: seq<Entry>, after: nat, rounds: seq<Round>): seq<Entry>
    decreases |rounds|
  {
    var first := Fresh(batch, after);
    var at := Last(first, after);
    if Ended(first) || rounds == [] || !Goes(rounds[0], at) then first
    else first + Streamed(rounds[0].wait(at).value, at, rounds[1..])
  }

  /** From the first round on that withdraws access, loses the client or the owner, or has a gap, nothing is written. */
  ghost predicate EndsTheStream(round: Round) {
    || !round.canRead
    || !round.clientOpen
    || (forall after: nat :: round.wait(after) == None)
    || (!round.ownerLive && forall after: nat :: round.wait(after) == Some([]))
  }

  lemma {:induction false} NothingAfterTheEnd(batch: seq<Entry>, after: nat, rounds: seq<Round>, k: nat)
    requires k < |rounds| && EndsTheStream(rounds[k])
    ensures Streamed(batch, after, rounds) == Streamed(batch, after, rounds[..k])
    decreases |rounds|
  {
    var first := Fresh(batch, after);
    var at := Last(first, after);
    if k == 0 {
      assert !Goes(rounds[0], at);
    } else if !Ended(first) && Goes(rounds[0], at) {
      NothingAfterTheEnd(rounds[0].wait(at).value, at, rounds[1..], k - 1);
      assert rounds[..k][1..] == rounds[1..][..k - 1];
    }
  }

  /** Every entry that is written came in the first batch or in a wait before which nothing ended the stream. */
  lemma {:induction false} EveryEntryWasServed(batch: seq<Entry>, after: nat, rounds: seq<Round>, e: Entry)
    requires e in Streamed(batch, after, rounds)
    ensures e in batch || exists k, at: nat :: ServedIn(rounds, k, at, e)
    decreases |rounds|
  {
    var first := Fresh(batch, after);
    var at := Last(first, after);
    FreshIncreases(batch, after);
    if e !in first {
      var rest := rounds[0].wait(at).value;
      EveryEntryWasServed(rest, at, rounds[1..], e);
      if e in rest {
        assert ServedIn(rounds, 0, at, e);
      } else {
        var k, n: nat :| ServedIn(rounds[1..], k, n, e);
        forall j | 0 <= j <= k + 1 ensures Unhindered(rounds[j]) {
          if j > 0 { assert Unhindered(rounds[1..][j - 1]); }
        }
        assert ServedIn(rounds, k + 1, n, e);
      }
    }
  }

  /**
   One round more: it is streamed on exactly when nothing terminal was written,
   the client is there and may read, the bus answers without a gap, and the
   answer brings something or the owner lives.
   */
  lemma RoundExactly(batch: seq<Entry>, after: nat, round: Round, rest: seq<Round>)
    ensures
      var first := Fresh(batch, after);
      var at := Last(first, after);
      Streamed(batch, after, [round] + rest) ==
        if first != [] && first[|first| - 1].event.Terminal? then first
        else if !round.clientOpen || !round.canRead || round.wait(at).None? then first
        else if round.wait(at).value == [] && !round.ownerLive then first
        else first + Streamed(round.wait(at).value, at, rest)
  {
    assert ([round] + rest)[1..] == rest;
  }

  predicate Unhindered(round: Round) { round.clientOpen && round.canRead }

  /** Round `k` brought the entry, and up to it the client was there and could read. */
  ghost predicate ServedIn(rounds: seq<Round>, k: int, at: nat, e: Entry) {
    && 0 <= k < |rounds| && rounds[k].wait(at).Some? && e in rounds[k].wait(at).value
    && forall j :: 0 <= j <= k ==> Unhindered(rounds[j])
  }

  /** One wait, unless the client left; None when the stream ends here. */
  method NextBatch(rounds: seq<Round>, k: nat, after: nat) returns (next: Option<seq<Entry>>)
    requires k <= |rounds|
    ensures next.Some? <==> k < |rounds| && Goes(rounds[k], after)
    ensures next.Some? ==> rounds[k].wait(after) == next
    ensures next.None? && NothingStops(rounds) ==> k == |rounds|
  {
    if k == |rounds| || !rounds[k].clientOpen {
      return None;
    }
    next := rounds[k].wait(after);
    assert NothingStops(rounds) ==> Answers(rounds[k]);
    if next.None? || (next.value == [] && !rounds[k].ownerLive) || !rounds[k].canRead {
      return None;
    }
  }

  /** What is written is a prefix of the log, and the batch goes on from there. */
  ghost predicate OnTheLog(written: seq<Entry>, batch: seq<Entry>, after: nat, log: seq<Entry>) {
    written <= log && |written| == after && Slice(batch, after, log)
  }

  /** A gap-free batch extends a prefix of the log to a longer prefix. */
  lemma Continues(batch: seq<Entry>, after: nat, written: seq<Entry>, log: seq<Entry>)
    requires Consecutive(log, 1) && OnTheLog(written, batch, after, log)
    ensures OnTheLog(written + Fresh(batch, after), [], after + |Fresh(batch, after)|, log)
    ensures Last(Fresh(batch, after), after) == after + |Fresh(batch, after)|
    ensures !Ended(Fresh(batch, after)) ==> |Fresh(batch, after)| == |batch|
  {
    var f := Fresh(batch, after);
    assert Consecutive(batch, after + 1);
    FreshOfNext(batch, after);
    if f != [] {
      assert f == batch[..|f|] == log[after..after + |f|];
      assert written + f == log[..after + |f|];
    }
  }

  lemma {:induction false} StreamedIncreases(batch: seq<Entry>, after: nat, rounds: seq<Round>)
    ensures Increasing(Streamed(batch, after, rounds), after) && NothingAfterTerminal(Streamed(batch, after, rounds))
    ensures Fresh(batch, after) <= Streamed(batch, after, rounds)
    decreases |rounds|
  {
    var first := Fresh(batch, after);
    var at := Last(first, after);
    FreshIncreases(batch, after);
    if !Ended(first) && rounds != [] && Goes(rounds[0], at) {
      StreamedIncreases(rounds[0].wait(at).value, at, rounds[1..]);
      IncreasingConcat(first, Streamed(rounds[0].wait(at).value, at, rounds[1..]), after);
    }
  }

  lemma IncreasingConcat(a: seq<Entry>, b: seq<Entry>, after: nat)
    requires Increasing(a, after) && NothingAfterTerminal(a) && !Ended(a)
    requires Increasing(b, Last(a, after)) && NothingAfterTerminal(b)
    ensures Increasing(a + b, after) && NothingAfterTerminal(a + b)
  {
    assert a != [] ==> Last(a, after) == a[|a| - 1].sequence;
  }

  /** With a bus that serves the log, what was written and what is streamed on is a prefix of the log. */
  lemma {:induction false} StreamedOnTheLog(batch: seq<Entry>, written: seq<Entry>, rounds: seq<Round>, log: seq<Entry>)
    requires Consecutive(log, 1) && Serves(rounds, log) && OnTheLog(written, batch, |written|, log)
    ensures written + Streamed(batch, |written|, rounds) <= log
    decreases |rounds|
  {
    var after := |written|;
    var first := Fresh(batch, after);
    var at := Last(first, after);
    Continues(batch, after, written, log);
    if !Ended(first) && rounds != [] && Goes(rounds[0], at) {
      var next := rounds[0].wait(at).value;
      ServesLater(rounds, log);
      StreamedOnTheLog(next, written + first, rounds[1..], log);
      Regroup(written, first, Streamed(next, at, rounds[1..]));
    }
  }

  lemma ServesLater(rounds: seq<Round>, log: seq<Entry>)
    requires Serves(rounds, log) && rounds != []
    ensures Serves(rounds[1..], log)
  {
    forall k, after: nat | 0 <= k < |rounds[1..]| && rounds[1..][k].wait(after).Some?
      ensures Slice(rounds[1..][k].wait(after).value, after, log)
    {
      assert rounds[1..][k] == rounds[k + 1];
    }
  }

  /** A round that serves the log and does not stop the stream. */
  ghost predicate Steady(round: Round, log: seq<Entry>) {
    && round.clientOpen && round.canRead && round.ownerLive
    && forall after: nat :: round.wait(after).Some? && Slice(round.wait(after).value, after, log)
  }

  ghost predicate AllSteady(rounds: seq<Round>, log: seq<Entry>) {
    rounds == [] || (Steady(rounds[0], log) && AllSteady(rounds[1..], log))
  }

  ghost predicate RoundWithin(round: Round, n: nat, log: seq<Entry>) {
    forall m: nat :: ServesUpTo(round, m, log) ==> m <= n
  }

  ghost predicate AllWithin(rounds: seq<Round>, n: nat, log: seq<Entry>) {
    rounds == [] || (RoundWithin(rounds[0], n, log) && AllWithin(rounds[1..], n, log))
  }

  lemma {:induction false} AllSteadyRounds(rounds: seq<Round>, log: seq<Entry>)
    requires Serves(rounds, log) && NothingStops(rounds)
    ensures AllSteady(rounds, log)
  {
    if rounds != [] {
      assert Answers(rounds[0]);
      ServesLater(rounds, log);
      assert forall k :: 0 <= k < |rounds[1..]| ==> rounds[1..][k] == rounds[k + 1];
      AllSteadyRounds(rounds[1..], log);
    }
  }

  lemma {:induction false} WithinRound(rounds: seq<Round>, n: nat, log: seq<Entry>, j: nat)
    requires AllWithin(rounds, n, log) && j < |rounds|
    ensures RoundWithin(rounds[j], n, log)
  {
    if j > 0 { WithinRound(rounds[1..], n, log, j - 1); }
  }

  lemma WithinRounds(rounds: seq<Round>, n: nat, log: seq<Entry>)
    requires AllWithin(rounds, n, log)
    ensures ServedWithin(rounds, |rounds|, n, log)
  {
    forall j, m: nat | 0 <= j < |rounds| && ServesUpTo(rounds[j], m, log) ensures m <= n { WithinRound(rounds, n, log, j); }
  }

  /** While nothing stops the stream it reaches the terminal event or the last event that any wait served. */
  lemma {:induction false} StreamedReaches(batch: seq<Entry>, written: seq<Entry>, rounds: seq<Round>, log: seq<Entry>)
    requires Consecutive(log, 1) && AllSteady(rounds, log) && OnTheLog(written, batch, |written|, log)
    ensures
      var on := Streamed(batch, |written|, rounds);
      Ended(on) || (|batch| <= |on| && AllWithin(rounds, |written| + |on|, log))
    decreases |rounds|
  {
    var first := Fresh(batch, |written|);
    Continues(batch, |written|, written, log);
    if !Ended(first) && rounds != [] {
      var next := GoesOn(batch, written, rounds, log);
      StreamedReaches(next, written + first, rounds[1..], log);
      var on := Streamed(next, |written + first|, rounds[1..]);
      EndOfBoth(first, on);
      if !Ended(on) { WithinAfter(rounds[0], |written + first|, |written + first| + |on|, log); }
    }
  }

  /** A steady round after a batch brings the next events of the log. */
  lemma GoesOn(batch: seq<Entry>, written: seq<Entry>, rounds: seq<Round>, log: seq<Entry>) returns (next: seq<Entry>)
    requires Consecutive(log, 1) && OnTheLog(written, batch, |written|, log)
    requires rounds != [] && Steady(rounds[0], log) && !Ended(Fresh(batch, |written|))
    ensures var first := Fresh(batch, |written|);
      && |first| == |batch| && rounds[0].wait(|written + first|) == Some(next)
      && OnTheLog(written + first, next, |written + first|, log)
      && Streamed(batch, |written|, rounds) == first + Streamed(next, |written + first|, rounds[1..])
  {
    Continues(batch, |written|, written, log);
    next := rounds[0].wait(|written + Fresh(batch, |written|)|).value;
    assert Goes(rounds[0], |written + Fresh(batch, |written|)|);
  }

  lemma WithinAfter(round: Round, at: nat, n: nat, log: seq<Entry>)
    requires round.wait(at).Some? && at + |round.wait(at).value| <= n
    ensures RoundWithin(round, n, log)
  {
    forall m: nat | ServesUpTo(round, m, log) ensures m <= n {
      if at <= m { assert round.wait(at).value == log[at..m]; }
    }
  }

  lemma EndOfBoth(a: seq<Entry>, b: seq<Entry>)
    requires !Ended(a)
    ensures Ended(a + b) <==> Ended(b)
  {}

  /**
   With a bus that keeps its contract, the client gets the turn's events from the
   first, none missing; and while nothing stops the stream, up to the terminal
   event or the last event that any wait served.
   */
  ghost predicate FollowsTheLog(written: seq<Entry>, replay: seq<Entry>, rounds: seq<Round>, log: seq<Entry>) {
    Consecutive(log, 1) && Slice(replay, 0, log) && Serves(rounds, log) ==>
      && written <= log
      && (NothingStops(rounds) ==> Ended(written) || (|replay| <= |written| && ServedWithin(rounds, |rounds|, |written|, log)))
  }

  /** Batch by batch: writes what is new, and waits for more, until a terminal event or a round that does not go on. */
  method StreamBatches(replay: seq<Entry>, rounds: seq<Round>) returns (written: seq<Entry>)
    ensures written == Streamed(replay, 0, rounds)
  {
    written := [];
    ghost var all := Streamed(replay, 0, rounds);
    var batch, after, k := replay, 0, 0;
    assert rounds[0..] == rounds && [] + all == all;
    while true
      invariant 0 <= k <= |rounds|
      invariant all == written + Streamed(batch, after, rounds[k..])
      decreases |rounds| - k
    {
      OneBatch(written, batch, after, rounds, k);
      var more, at, closed := WriteBatch(batch, after);
      written, after := written + more, at;
      if closed { break; }
      var next := NextBatch(rounds, k, after);
      if next.None? { break; }
      batch := next.value;
      k := k + 1;
    }
  }

  /** What is streamed from round `k` on: the first batch, and then what that round brings, if it goes on. */
  lemma OneBatch(written: seq<Entry>, batch: seq<Entry>, after: nat, rounds: seq<Round>, k: nat)
    requires k <= |rounds|
    ensures
      var (first, all) := (Fresh(batch, after), written + Streamed(batch, after, rounds[k..]));
      var at := Last(first, after);
      all == if Ended(first) || k == |rounds| || !Goes(rounds[k], at) then written + first
             else written + first + Streamed(rounds[k].wait(at).value, at, rounds[k + 1..])
  {
    var first := Fresh(batch, after);
    var at := Last(first, after);
    if k < |rounds| && Goes(rounds[k], at) && !Ended(first) {
      assert rounds[k..][0] == rounds[k] && rounds[k..][1..] == rounds[k + 1..];
      Regroup(written, first, Streamed(rounds[k].wait(at).value, at, rounds[k + 1..]));
    }
  }

  lemma Regroup(a: seq<Entry>, b: seq<Entry>, c: seq<Entry>)
    ensures a + (b + c) == a + b + c
  {}

  /** The stream of a turn on another replica, from the replay that the connection captured. */
  method StreamRemote(replay: seq<Entry>, firstCheck: bool, rounds: seq<Round>, ghost log: seq<Entry>) returns (written: seq<Entry>)
    // For any answers of the bus: numbers only go up, and nothing follows the terminal event.
    ensures Increasing(written, 0) && NothingAfterTerminal(written)
    // Batch by batch, as long as each round goes on.
    ensures written == if firstCheck then Streamed(replay, 0, rounds) else []
    // Without access nothing is written; with it, all that the captured replay adds.
    ensures if firstCheck then Fresh(replay, 0) <= written else written == []
    ensures firstCheck ==> FollowsTheLog(written, replay, rounds, log)
  {
    if !firstCheck {
      return [];
    }
    written := StreamBatches(replay, rounds);
    StreamedIncreases(replay, 0, rounds);
    FollowsFromTheStart(replay, rounds, log);
  }

  lemma FollowsFromTheStart(replay: seq<Entry>, rounds: seq<Round>, log: seq<Entry>)
    ensures FollowsTheLog(Streamed(replay, 0, rounds), replay, rounds, log)
  {
    if Consecutive(log, 1) && Slice(replay, 0, log) && Serves(rounds, log) {
      PrefixFromTheStart(replay, rounds, log);
      if NothingStops(rounds) { ReachesFromTheStart(replay, rounds, log); }
    }
  }

  lemma ReachesFromTheStart(replay: seq<Entry>, rounds: seq<Round>, log: seq<Entry>)
    requires Consecutive(log, 1) && Slice(replay, 0, log) && Serves(rounds, log) && NothingStops(rounds)
    ensures var all := Streamed(replay, 0, rounds);
      Ended(all) || (|replay| <= |all| && ServedWithin(rounds, |rounds|, |all|, log))
  {
    var all := Streamed(replay, 0, rounds);
    AllSteadyRounds(rounds, log);
    StreamedReaches(replay, [], rounds, log);
    if !Ended(all) { WithinRounds(rounds, |all|, log); }
  }

  lemma PrefixFromTheStart(replay: seq<Entry>, rounds: seq<Round>, log: seq<Entry>)
    requires Consecutive(log, 1) && Slice(replay, 0, log) && Serves(rounds, log)
    ensures Streamed(replay, 0, rounds) <= log
  {
    var all := Streamed(replay, 0, rounds);
    StreamedOnTheLog(replay, [], rounds, log);
    assert [] + all == all;
  }
}
