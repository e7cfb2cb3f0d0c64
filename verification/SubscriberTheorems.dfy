/** What a subscriber's pump guarantees over every sequence of arrivals and completions. */
module SubscriberTheorems {
  import opened Sequences
  import opened MessageBatches
  import opened SubscriberModel

  /** Sent, being sent and waiting are together exactly what was accepted, in order. */
  ghost predicate Conserved(p: Pump) {
    p.sent + p.current + Flatten(p.pending) == Flatten(p.accepted)
  }

  ghost predicate Shape(p: Pump) {
    && (p.flight.Some? ==> p.event.SendData? && p.flight.value == p.current && p.current != "")
    && (p.event.Ready? ==> p.current == "" && p.pending == [] && p.flight.None?)
    && (!p.event.Ready? ==> p.current != "")
    && (p.event.Disconnected? <== p.closed)
    && (forall b :: b in p.pending ==> b != "")
  }

  lemma FlattenFirst(ss: seq<string>)
    requires ss != []
    ensures Flatten(ss) == ss[0] + Flatten(ss[1..])
  {
    FlattenCons(ss[0], ss[1..]);
    assert [ss[0]] + ss[1..] == ss;
  }

  lemma ArriveConserves(p: Pump, bytes: string)
    requires Conserved(p) && Shape(p) && bytes != ""
    ensures Conserved(PushBatch(p, bytes)) && Shape(PushBatch(p, bytes))
  {
    FlattenAppend(p.accepted, bytes);
    FlattenAppend(p.pending, bytes);
    var p' := PushBatch(p, bytes);
    if p.current == "" {
      assert Flatten(p.pending) == "";
      assert p.sent + "" + "" == p.sent;
      assert p.sent + bytes + "" == p.sent + bytes;
    } else {
      assert p.sent + p.current + (Flatten(p.pending) + bytes) == p.sent + p.current + Flatten(p.pending) + bytes;
    }
  }

  lemma SendNextConserves(p: Pump)
    requires p.current == "" && p.pending != [] && Conserved(p)
    ensures Conserved(SendNext(p))
  {
    FlattenFirst(p.pending);
    assert p.sent + "" + Flatten(p.pending) == p.sent + p.pending[0] + Flatten(p.pending[1..]);
  }

  lemma CompleteConserves(p: Pump, res: int)
    requires Conserved(p) && Shape(p) && p.flight.Some? && res <= |p.flight.value|
    ensures Conserved(Completed(p, res)) && Shape(Completed(p, res))
  {
    if res > 0 {
      var c := p.current;
      var p2 := p.(flight := None, current := c[res..], sent := p.sent + c[..res]);
      assert c[..res] + c[res..] == c;
      assert p2.sent + p2.current == p.sent + c;
      if p2.current == "" && p2.pending != [] {
        SendNextConserves(p2);
        assert p2.pending[0] in p2.pending;
        assert forall b :: b in p2.pending[1..] ==> b in p2.pending;
      }
    }
  }

  lemma StepKeeps(p: Pump, i: Input)
    requires Conserved(p) && Shape(p) && Possible(p, i)
    ensures Conserved(Step(p, i)) && Shape(Step(p, i))
  {
    match i
    case Arrive(bytes) => ArriveConserves(p, bytes);
    case Complete(res) => CompleteConserves(p, res);
    case Close =>
  }

  lemma {:induction false} ReachableKeeps(p: Pump, inputs: seq<Input>)
    requires Reachable(p, inputs)
    ensures Conserved(p) && Shape(p)
    decreases |inputs|
  {
    if inputs != [] {
      var last := inputs[|inputs| - 1];
      var q := RunFrom(Idle, inputs[..|inputs| - 1]).value;
      ReachableKeeps(q, inputs[..|inputs| - 1]);
      StepKeeps(q, last);
    }
  }

  /** Conservation over every run: the bytes sent, the rest of the current item and the waiting items
      are the accepted batches, byte for byte in order; so what was sent is always a prefix of what
      was accepted, and a ready subscriber has been sent all of it. */
  lemma PumpConserves(p: Pump, inputs: seq<Input>)
    requires Reachable(p, inputs)
    ensures p.sent + p.current + Flatten(p.pending) == Flatten(p.accepted)
    ensures p.sent <= Flatten(p.accepted)
    ensures p.event.Ready? ==> p.sent == Flatten(p.accepted)
  {
    ReachableKeeps(p, inputs);
    assert p.sent + p.current + Flatten(p.pending) == p.sent + (p.current + Flatten(p.pending));
    if p.event.Ready? { assert p.sent + "" + "" == p.sent; }
  }

  /** The pump as a state machine: an outstanding send covers exactly the unsent rest of the current
      item, so there is never a second one; ready means nothing is left to send. */
  lemma PumpShape(p: Pump, inputs: seq<Input>)
    requires Reachable(p, inputs)
    ensures p.flight.Some? ==> p.event.SendData? && p.flight == Some(p.current) && p.current != ""
    ensures p.event.Ready? <==> p.current == ""
    ensures p.current == "" ==> p.pending == [] && p.flight.None?
  {
    ReachableKeeps(p, inputs);
  }

  /** What each step does to the outstanding send: only its own answer ends it, and a new one starts
      only when none is outstanding. */
  lemma OneSendAtATime(p: Pump, inputs: seq<Input>, i: Input)
    requires Reachable(p, inputs) && Possible(p, i)
    ensures p.flight.Some? && !i.Complete? ==> Step(p, i).flight == p.flight && Step(p, i).current == p.current
    ensures p.flight.None? && Step(p, i).flight.Some? ==> p.event.Ready? && i.Arrive?
  {
    ReachableKeeps(p, inputs);
  }

  // ---------------------------------------------------------------- which batches a subscriber gets

  /** A subscriber gets the batches whose type is the beginning of one of its subscriptions. */
  lemma SubscribedExactly(subscriptions: set<string>, t: string)
    ensures IsSubscribed(subscriptions, t) <==> exists s :: s in subscriptions && |t| <= |s| && s[..|t|] == t
  {
    forall s | s in subscriptions ensures t <= s <==> |t| <= |s| && s[..|t|] == t {
    }
  }

  lemma OfferedAccepts(p: Pump, subscriptions: set<string>, b: Batch)
    ensures var t := b.msgType;
            Offered(p, subscriptions, b).accepted ==
            if !p.closed && exists s :: s in subscriptions && |t| <= |s| && s[..|t|] == t
            then p.accepted + [b.bytes] else p.accepted
  {
    SubscribedExactly(subscriptions, b.msgType);
  }

  /** What becomes of a batch that is offered: an open connection with such a subscription accepts it, and sends
      it at once if nothing is being sent; for any other nothing changes. */
  lemma OfferedExactly(p: Pump, inputs: seq<Input>, subscriptions: set<string>, b: Batch)
    requires Reachable(p, inputs) && b.bytes != ""
    ensures var p' := Offered(p, subscriptions, b);
            if !p.closed && exists s :: s in subscriptions && |b.msgType| <= |s| && s[..|b.msgType|] == b.msgType
            then && Backlog(p') == Backlog(p) + b.bytes && p'.accepted == p.accepted + [b.bytes] && p'.sent == p.sent
                 && (p.event.Ready? ==> p'.flight == Some(b.bytes) && p'.event.SendData?)
                 && (!p.event.Ready? ==> p'.flight == p.flight && p'.event == p.event)
            else p' == p
  {
    OfferedAccepts(p, subscriptions, b);
    ReachableKeeps(p, inputs);
    FlattenAppend(p.pending, b.bytes);
    ConcatAssoc(p.current, Flatten(p.pending), b.bytes);
    assert "" + "" + b.bytes == b.bytes && b.bytes + "" == b.bytes;
  }

  // ---------------------------------------------------------------- failures

  predicate Failed(inputs: seq<Input>) {
    exists i :: 0 <= i < |inputs| && inputs[i].Complete? && inputs[i].res < 0
  }

  lemma FailedAppend(inputs: seq<Input>)
    requires inputs != []
    ensures var last := inputs[|inputs| - 1];
            Failed(inputs) <==> Failed(inputs[..|inputs| - 1]) || (last.Complete? && last.res < 0)
  {
    var init := inputs[..|inputs| - 1];
    if Failed(init) {
      var i :| 0 <= i < |init| && init[i].Complete? && init[i].res < 0;
      assert inputs[i] == init[i];
    }
    if Failed(inputs) {
      var i :| 0 <= i < |inputs| && inputs[i].Complete? && inputs[i].res < 0;
      assert i < |init| ==> init[i] == inputs[i];
    }
  }

  /** Over every run: a connection is disconnecting exactly if a send of it was answered with an error. */
  lemma {:induction false} DisconnectsExactly(p: Pump, inputs: seq<Input>)
    requires Reachable(p, inputs)
    ensures p.event.Disconnected? <==> exists i :: 0 <= i < |inputs| && inputs[i].Complete? && inputs[i].res < 0
    decreases |inputs|
  {
    if inputs != [] {
      var last := inputs[|inputs| - 1];
      var q := RunFrom(Idle, inputs[..|inputs| - 1]).value;
      ReachableKeeps(q, inputs[..|inputs| - 1]);
      DisconnectsExactly(q, inputs[..|inputs| - 1]);
      FailedAppend(inputs);
      assert Failed(inputs[..|inputs| - 1]) <==> q.event.Disconnected?;
      assert Failed(inputs) <==> p.event.Disconnected?;
    }
  }

  /** An error answers any outstanding send, and then the socket can be closed; from then on nothing that is
      offered changes the connection. */
  lemma FailureCloses(p: Pump, inputs: seq<Input>, res: int)
    requires Reachable(p, inputs) && p.flight.Some? && res < 0
    ensures Possible(p, Complete(res)) && !Possible(p, Close)
    ensures var q := Step(p, Complete(res));
            && q.event.Disconnected? && q.flight.None? && q.sent == p.sent && Possible(q, Close) && Step(q, Close).closed
            && forall subscriptions, b :: Offered(Step(q, Close), subscriptions, b) == Step(q, Close)
  {
    ReachableKeeps(p, inputs);
  }

  /** After a failed send, or one that sent nothing, no send is ever started again and nothing more
      is sent, whatever arrives. */
  lemma {:induction false} StoppedForGood(p: Pump, before: seq<Input>, after: seq<Input>, p': Pump)
    requires Reachable(p, before) && p.flight.None? && !p.event.Ready?
    requires RunFrom(p, after) == Some(p')
    ensures p'.flight.None? && p'.sent == p.sent && p'.current == p.current && p'.current != "" && !p'.event.Ready?
    decreases |after|
  {
    ReachableKeeps(p, before);
    if after != [] {
      var last := after[|after| - 1];
      var q := RunFrom(p, after[..|after| - 1]).value;
      StoppedForGood(p, before, after[..|after| - 1], q);
    }
  }

  /** Everything still to be sent. */
  function Backlog(p: Pump): string {
    p.current + Flatten(p.pending)
  }

  lemma PartialCompletionProgress(p: Pump, res: int)
    requires Conserved(p) && Shape(p) && p.flight.Some? && 0 < res <= |p.flight.value|
    ensures var p' := Completed(p, res);
            p'.sent == p.sent + Backlog(p)[..res] && Backlog(p') == Backlog(p)[res..]
            && (p'.flight.Some? || p'.event.Ready?)
  {
    var p' := Completed(p, res);
    var c := p.current;
    assert Backlog(p)[..res] == c[..res];
    assert Backlog(p)[res..] == c[res..] + Flatten(p.pending);
    if c[res..] == "" {
      if p.pending != [] {
        FlattenFirst(p.pending);
        assert p.pending[0] in p.pending;
        assert "" + Flatten(p.pending) == Flatten(p.pending);
      }
    }
  }

  /** Where the pump stands after the first k bytes of its backlog were sent. */
  ghost predicate SentUpTo(p: Pump, q: Pump, k: nat) {
    && k <= |Backlog(p)|
    && q.sent == p.sent + Backlog(p)[..k] && Backlog(q) == Backlog(p)[k..] && q.accepted == p.accepted
    && Conserved(q) && Shape(q) && !q.closed && (q.flight.Some? || q.event.Ready?)
  }

  lemma SliceTwice(b: string, k: nat, res: nat)
    requires k + res <= |b|
    ensures b[k..][..res] == b[k..k + res] && b[k..][res..] == b[k + res..]
    ensures b[..k] + b[k..k + res] == b[..k + res]
  {
  }

  lemma AnswerStep(p: Pump, q: Pump, k: nat, res: nat)
    requires SentUpTo(p, q, k) && q.flight.Some? && 0 < res <= |q.flight.value|
    ensures SentUpTo(p, Completed(q, res), k + res)
  {
    PartialCompletionProgress(q, res);
    CompleteConserves(q, res);
    var b := Backlog(p);
    assert k + res <= |b|;
    SliceTwice(b, k, res);
    ConcatAssoc(p.sent, b[..k], b[k..k + res]);
  }

  function Sum(answers: seq<nat>): nat {
    if answers == [] then 0 else Sum(answers[..|answers| - 1]) + answers[|answers| - 1]
  }

  function Answers(answers: seq<nat>): seq<Input> {
    seq(|answers|, i requires 0 <= i < |answers| => Complete(answers[i]))
  }

  lemma ReadyMeansSent(p: Pump, q: Pump, k: nat)
    requires SentUpTo(p, q, k)
    ensures q.event.Ready? <==> k == |Backlog(p)|
    ensures q.flight.Some? <==> k < |Backlog(p)|
  {
    if q.event.Ready? {
      assert Backlog(q) == "";
    }
  }

  lemma {:induction false} AnswersSend(p: Pump, answers: seq<nat>, q: Pump)
    requires SentUpTo(p, p, 0) && (forall i :: 0 <= i < |answers| ==> answers[i] > 0) && RunFrom(p, Answers(answers)) == Some(q)
    ensures SentUpTo(p, q, Sum(answers))
    decreases |answers|
  {
    if answers != [] {
      var init, res := answers[..|answers| - 1], answers[|answers| - 1];
      assert Answers(answers)[..|init|] == Answers(init);
      var q' := RunFrom(p, Answers(init)).value;
      AnswersSend(p, init, q');
      AnswerStep(p, q', Sum(init), res);
    }
  }

  /** Whatever positive answers the kernel gives: the bytes sent are the backlog up to their sum, in order, and
      the pump is ready exactly when the sum is the backlog; until then it is sending. */
  lemma PositiveAnswers(p: Pump, inputs: seq<Input>, answers: seq<nat>, q: Pump)
    requires Reachable(p, inputs) && p.flight.Some?
    requires (forall i :: 0 <= i < |answers| ==> answers[i] > 0) && RunFrom(p, Answers(answers)) == Some(q)
    ensures Sum(answers) <= |Backlog(p)|
    ensures q.sent == p.sent + Backlog(p)[..Sum(answers)] && Backlog(q) == Backlog(p)[Sum(answers)..]
    ensures q.event.Ready? <==> Sum(answers) == |Backlog(p)|
    ensures q.flight.Some? <==> Sum(answers) < |Backlog(p)|
  {
    ReachableKeeps(p, inputs);
    assert p.sent + "" == p.sent;
    AnswersSend(p, answers, q);
    ReadyMeansSent(p, q, Sum(answers));
  }

  /** k answers of one byte each. */
  function OneByteAnswers(k: nat): seq<nat> {
    seq(k, _ => 1)
  }

  ghost predicate Drained(p: Pump, q: Pump, k: nat) {
    RunFrom(p, Answers(OneByteAnswers(k))) == Some(q) && SentUpTo(p, q, k)
  }

  lemma DrainOne(p: Pump, q: Pump, k: nat)
    requires Drained(p, q, k) && k < |Backlog(p)|
    ensures q.flight.Some? && Drained(p, Completed(q, 1), k + 1)
  {
    ReadyMeansSent(p, q, k);
    AnswerStep(p, q, k, 1);
    assert Answers(OneByteAnswers(k + 1))[..k] == Answers(OneByteAnswers(k));
  }

  lemma {:induction false} DrainSome(p: Pump, k: nat)
    requires SentUpTo(p, p, 0) && k <= |Backlog(p)|
    ensures exists q :: Drained(p, q, k)
    decreases k
  {
    if k == 0 {
      assert Drained(p, p, 0);
    } else {
      DrainSome(p, k - 1);
      var q :| Drained(p, q, k - 1);
      DrainOne(p, q, k - 1);
    }
  }

  /** Such answers exist for every backlog, however small they are: with one byte each it takes exactly one
      answer a byte, and then all that was accepted has been sent. */
  lemma DrainsByteByByte(p: Pump, inputs: seq<Input>)
    requires Reachable(p, inputs) && p.flight.Some?
    ensures var p' := RunFrom(p, Answers(OneByteAnswers(|Backlog(p)|)));
            p'.Some? && p'.value.event.Ready? && p'.value.sent == Flatten(p.accepted) == Flatten(p'.value.accepted)
  {
    ReachableKeeps(p, inputs);
    assert p.sent + "" == p.sent;
    DrainSome(p, |Backlog(p)|);
    var q :| Drained(p, q, |Backlog(p)|);
    ReadyMeansSent(p, q, |Backlog(p)|);
    ReadyHasSentAll(q);
  }

  lemma ReadyHasSentAll(p: Pump)
    requires Conserved(p) && Shape(p) && p.event.Ready?
    ensures p.sent == Flatten(p.accepted) && !p.closed
  {
    assert p.sent + "" + "" == p.sent;
  }
}
