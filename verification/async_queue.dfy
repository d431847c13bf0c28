/**
 The queue between a producer and its consumers: values wait in a buffer, or
 consumers wait for values, and calls to `next` are answered in call order.
 */
module AsyncQueue {
  import opened Wrappers

  /** What the promise of one call to `next` holds. */
  datatype Answer<T, E> = Pending | Value(value: T) | Done | Threw(error: E)

  /** Consecutive call numbers. */
  function Range(from: nat, upTo: nat): (r: seq<nat>)
    requires from <= upTo
  {
    seq(upTo - from, i requires 0 <= i => from + i)
  }

  class Queue<T(0), E> {
    var values: seq<T>
    var waiters: seq<nat>
    var error: Option<E>
    var closed: bool
    const maxSize: Option<nat>

    /** The promises of all calls to `next`, in call order. */
    var answers: seq<Answer<T, E>>
    /** Every value that a push accepted, in order. */
    ghost var accepted: seq<T>

    /** How many values were handed out. */
    ghost function Delivered(): int
      reads this
    {
      |accepted| - |values|
    }

    /** The k-th call that got a value got the k-th accepted one; no other call got a value. */
    ghost predicate AnswersInOrder()
      reads this
    {
      var n := Delivered();
      && 0 <= n <= |answers|
      && values == accepted[n..]
      && (forall k :: 0 <= k < n ==> answers[k] == Value(accepted[k]))
      && (forall k :: n <= k < |answers| ==> !answers[k].Value?)
    }

    ghost predicate Valid()
      reads this
    {
      && AnswersInOrder()
      && (error.Some? ==> closed)
      && (maxSize.Some? ==> |values| <= maxSize.value)
      // buffer and waiters are never both in use
      && (values != [] && error.None? ==> Delivered() == |answers|)
      // the calls that wait are the ones after the last value, in order
      && (closed ==> waiters == [])
      && (!closed ==> waiters == Range(Delivered(), |answers|))
      && (forall k :: Delivered() <= k < |answers| ==> answers[k].Pending? == !closed)
    }

    constructor (maxSize: Option<nat>)
      ensures Valid() && fresh(this) && this.maxSize == maxSize
      ensures values == [] && answers == [] && accepted == [] && error.None? && !closed
    {
      this.maxSize := maxSize;
      values, waiters, answers, accepted := [], [], [], [];
      error, closed := None, false;
    }

    /** Accepts the value unless the queue is closed, or full with nobody waiting. */
    method Push(value: T) returns (ok: bool)
      requires Valid()
      modifies this
      ensures Valid() && closed == old(closed) && error == old(error)
      ensures ok <==> !old(closed) && (old(waiters) != [] || maxSize.None? || |old(values)| < maxSize.value)
      ensures accepted == if ok then old(accepted) + [value] else old(accepted)
      ensures values == if ok && old(waiters) == [] then old(values) + [value] else old(values)
      ensures |answers| == |old(answers)|
    {
      if closed { return false; }
      if waiters != [] {
        var waiter := waiters[0];
        waiters := waiters[1..];
        answers := answers[waiter := Value(value)];
        accepted := accepted + [value];
        return true;
      }
      if maxSize.Some? && |values| >= maxSize.value { return false; }
      values := values + [value];
      accepted := accepted + [value];
      return true;
    }

    /** Settles every waiting call the same way. */
    method SettleAll(answer: Answer<T, E>)
      requires !answer.Pending? && !answer.Value?
      requires AnswersInOrder() && waiters == Range(Delivered(), |answers|)
      requires forall k :: Delivered() <= k < |answers| ==> answers[k].Pending?
      modifies this`waiters, this`answers
      ensures waiters == [] && AnswersInOrder() && |answers| == |old(answers)|
      ensures forall k :: Delivered() <= k < |answers| ==> answers[k] == answer
    {
      var n, done := Delivered(), 0;
      while waiters != []
        invariant 0 <= done <= |answers| - n && |answers| == |old(answers)|
        invariant waiters == Range(n + done, |answers|)
        invariant AnswersInOrder()
        invariant forall k :: n <= k < n + done ==> answers[k] == answer
        decreases |waiters|
      {
        var waiter := waiters[0];
        waiters := waiters[1..];
        answers := answers[waiter := answer];
        done := done + 1;
      }
    }

    /** No more values; whoever waits is told so. */
    method End()
      requires Valid()
      modifies this
      ensures Valid() && closed && values == old(values) && accepted == old(accepted) && error == old(error)
      ensures |answers| == |old(answers)|
      ensures forall k :: 0 <= k < |answers| ==>
                answers[k] == if old(answers)[k].Pending? then Done else old(answers)[k]
    {
      if closed { return; }
      closed := true;
      SettleAll(Done);
    }

    /** The first error closes the queue and rejects whoever waits. */
    method SetError(e: E)
      requires Valid()
      modifies this
      ensures Valid() && closed && accepted == old(accepted) && values == old(values)
      ensures error == if old(closed) then old(error) else Some(e)
      ensures |answers| == |old(answers)|
      ensures forall k :: 0 <= k < |answers| ==>
                answers[k] == if old(answers)[k].Pending? then Threw(e) else old(answers)[k]
    {
      if closed || error.Some? { return; }
      error := Some(e);
      closed := true;
      SettleAll(Threw(e));
    }

    /** One more call: the error, the oldest value, the end, or a place in the line. */
    method Next() returns (answer: Answer<T, E>)
      requires Valid()
      modifies this
      ensures Valid() && closed == old(closed) && error == old(error) && accepted == old(accepted)
      ensures answers == old(answers) + [answer]
      ensures answer ==
        if old(error).Some? then Threw(old(error).value)
        else if old(values) != [] then Value(old(values)[0])
        else if old(closed) then Done
        else Pending
      ensures values == if answer.Value? then old(values)[1..] else old(values)
    {
      if error.Some? {
        answer := Threw(error.value);
        answers := answers + [answer];
        return;
      }
      if values != [] {
        answer := Value(values[0]);
        values := values[1..];
        answers := answers + [answer];
        return;
      }
      if closed {
        answer := Done;
        answers := answers + [answer];
        return;
      }
      answer := Pending;
      waiters := waiters + [|answers|];
      answers := answers + [answer];
    }
  }
}
