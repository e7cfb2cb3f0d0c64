/** End to end: what a subscriber has been sent, in terms of what the publishers sent. */
module BrokerTheorems {
  import opened Sequences
  import opened Frames
  import opened MpmcModel
  import opened MpmcInvariant
  import opened MessageBatches
  import opened BrokerModel
  import PublisherModel
  import PublisherTheorems
  import PublisherConservation
  import PublisherLoss
  import PublisherLossExact
  import SubscriberModel
  import SubscriberTheorems

  // ---------------------------------------------------------------- who pushed what

  /** The values whose tickets belong to thread i, in ticket order. */
  function OwnedBy<T>(vals: seq<T>, owners: seq<Tid>, i: Tid): seq<T>
    requires |vals| == |owners|
  {
    if vals == [] then []
    else
      var n := |vals| - 1;
      OwnedBy(vals[..n], owners[..n], i) + if owners[n] == i then [vals[n]] else []
  }

  lemma OwnedAppend<T>(vals: seq<T>, owners: seq<Tid>, v: T, o: Tid, i: Tid)
    requires |vals| == |owners|
    ensures OwnedBy(vals + [v], owners + [o], i) == OwnedBy(vals, owners, i) + if o == i then [v] else []
  {
    assert (vals + [v])[..|vals|] == vals && (owners + [o])[..|vals|] == owners;
  }

  lemma {:induction false} OwnedPrefix<T>(vals: seq<T>, owners: seq<Tid>, m: nat, i: Tid)
    requires |vals| == |owners| && m <= |vals|
    ensures OwnedBy(vals[..m], owners[..m], i) <= OwnedBy(vals, owners, i)
    decreases |vals|
  {
    if m < |vals| {
      var n := |vals| - 1;
      OwnedPrefix(vals[..n], owners[..n], m, i);
      assert vals[..n][..m] == vals[..m] && owners[..n][..m] == owners[..m];
    } else {
      assert vals[..m] == vals && owners[..m] == owners;
    }
  }

  // ---------------------------------------------------------------- threads keep to their role

  predicate PublisherPc<T>(pc: Pc<T>) {
    pc.Idle? || pc.EmplaceCalled? || pc.EmplaceSpin? || pc.Constructing? || pc.Publishing?
  }

  predicate DrainerPc<T>(pc: Pc<T>) {
    pc.Idle? || pc.TryPopCalled? || pc.TryPopLoad? || pc.TryPopCas? || pc.TryPopReload?
    || pc.Moving? || pc.Destroying? || pc.Releasing?
  }

  /** The batch a thread was called with and has not drawn a ticket for. */
  function Undrawn<T>(pc: Pc<T>): seq<T> {
    if pc.EmplaceCalled? then [pc.v] else []
  }

  lemma PublisherStepRole<T>(q: State<T>, t: Tid)
    requires WellFormed(q) && t < |q.pcs| && PublisherPc(q.pcs[t])
    ensures var q' := StepThread(q, t);
            && PublisherPc(q'.pcs[t]) && Undrawn(q'.pcs[t]) == []
            && q'.tail == q.tail && q'.popOwner == q.popOwner
            && q'.vals == q.vals + Undrawn(q.pcs[t])
            && q'.pushOwner == q.pushOwner + if q.pcs[t].EmplaceCalled? then [t] else []
  {
  }

  lemma DrainerStepRole<T>(q: State<T>, t: Tid)
    requires Inv(q) && t < |q.pcs| && DrainerPc(q.pcs[t])
    ensures var q' := StepThread(q, t);
            && DrainerPc(q'.pcs[t])
            && q'.head == q.head && q'.vals == q.vals && q'.pushOwner == q.pushOwner
            && q'.tail == q.tail + (if q.pcs[t].TryPopCas? && q'.pcs[t].Moving? then 1 else 0)
            && (q'.pcs[t].Moving? || q'.pcs[t].Destroying? || q'.pcs[t].Releasing? ==>
                  if q.pcs[t].TryPopCas? then q'.pcs[t].k == q.tail
                  else (q.pcs[t].Moving? || q.pcs[t].Destroying? || q.pcs[t].Releasing?) && q'.pcs[t].k == q.pcs[t].k)
  {
  }

  // ---------------------------------------------------------------- the invariant of the pipeline

  ghost predicate Roles(s: System)
    requires Sane(s)
  {
    && (forall i: nat :: i < |s.pubs| ==> PublisherPc(s.queue.pcs[i]))
    && DrainerPc(s.queue.pcs[|s.pubs|])
    && (forall k: nat :: k < |s.queue.pushOwner| ==> s.queue.pushOwner[k] < |s.pubs|)
  }

  /** What a publisher pushed so far is in the queue's history under its own tickets, in order. */
  ghost predicate HandedOk(s: System, i: nat)
    requires Sane(s) && WellFormed(s.queue) && i < |s.pubs|
  {
    var pushed := s.pubs[i].batcher.pushed;
    && s.handed[i] <= |pushed|
    && OwnedBy(s.queue.vals, s.queue.pushOwner, i) + Undrawn(s.queue.pcs[i]) == pushed[..s.handed[i]]
  }

  ghost predicate PublisherOk(s: System, i: nat)
    requires Sane(s) && i < |s.pubs|
  {
    s.pubs[i] == PublisherModel.FeedAll(PublisherModel.Start, s.received[i])
  }

  /** What was delivered is what the first tickets carry. */
  ghost predicate DrainedOk(s: System)
    requires Sane(s)
  {
    var m, pc := |s.delivered|, s.queue.pcs[|s.pubs|];
    && m <= s.queue.head && s.delivered == s.queue.vals[..m]
    && (if pc.Moving? || pc.Destroying? || pc.Releasing? then pc.k == m && s.queue.tail == m + 1
        else s.queue.tail == m)
  }

  /** The bytes of the batches that a subscriber's subscriptions match. */
  function Matching(subscriptions: set<string>, bs: seq<Batch>): seq<string> {
    if bs == [] then []
    else
      var n := |bs| - 1;
      Matching(subscriptions, bs[..n]) +
      if SubscriberModel.IsSubscribed(subscriptions, bs[n].msgType) then [bs[n].bytes] else []
  }

  ghost predicate PumpOk(s: System, j: nat)
    requires Sane(s) && j < |s.pumps|
  {
    var p := s.pumps[j];
    && SubscriberTheorems.Conserved(p) && SubscriberTheorems.Shape(p)
    && p.accepted <= Matching(s.subs[j], s.delivered)
    && (!p.closed ==> p.accepted == Matching(s.subs[j], s.delivered))
  }

  ghost predicate SystemInv(s: System) {
    && Sane(s) && Inv(s.queue) && Roles(s) && DrainedOk(s)
    && (forall i: nat :: i < |s.pubs| ==> HandedOk(s, i) && PublisherOk(s, i))
    && (forall j: nat :: j < |s.pumps| ==> PumpOk(s, j))
  }

  lemma InitSystemInv(capacity: nat, pubs: nat, subs: seq<set<string>>)
    requires capacity >= 1
    ensures SystemInv(BrokerModel.Init(capacity, pubs, subs))
  {
    InitInv<Batch>(capacity, pubs + 1);
  }

  // ---------------------------------------------------------------- publishers

  lemma ReceiveKeeps(s: System, i: nat, fragment: string)
    requires SystemInv(s) && i < |s.pubs| && MayReceive(s, i)
    ensures SystemInv(Advance(s, Receive(i, fragment)))
  {
    var s' := Advance(s, Receive(i, fragment));
    var r := s.received[i];
    assert (r + [fragment])[..|r|] == r;
    assert PublisherOk(s, i) && PublisherOk(s', i);
    PushedOnlyGrows(s.pubs[i], fragment);
    forall x: nat | x < |s'.pubs| ensures HandedOk(s', x) && PublisherOk(s', x) {
      assert HandedOk(s, x) && PublisherOk(s, x);
    }
    forall j: nat | j < |s'.pumps| ensures PumpOk(s', j) {
      assert PumpOk(s, j);
    }
  }

  lemma {:induction false} DeliverAllGrows(b: PublisherModel.Batcher, ds: seq<PublisherModel.Delivery>)
    ensures b.pushed <= PublisherModel.DeliverAll(b, ds).pushed
    decreases |ds|
  {
    if ds != [] {
      DeliverAllGrows(b, ds[..|ds| - 1]);
    }
  }

  lemma PushedOnlyGrows(p: PublisherModel.Publisher, fragment: string)
    ensures p.batcher.pushed <= PublisherModel.Feed(p, fragment).batcher.pushed
  {
    DeliverAllGrows(p.batcher, PublisherModel.WalkTo(p.parse, fragment, |fragment|).out);
  }

  lemma PublisherCallKeeps(s: System, i: nat)
    requires SystemInv(s) && i < |s.pubs| && s.queue.pcs[i].Idle? && s.handed[i] < |s.pubs[i].batcher.pushed|
    ensures SystemInv(PublisherStep(s, i))
  {
    var s' := PublisherStep(s, i);
    var pushed := s.pubs[i].batcher.pushed;
    PreserveNext(s.queue, Call(i, Emplace(pushed[s.handed[i]])));
    forall x: nat | x < |s'.pubs| ensures HandedOk(s', x) && PublisherOk(s', x) {
      assert HandedOk(s, x) && PublisherOk(s, x);
      if x == i {
        assert pushed[..s.handed[i] + 1] == pushed[..s.handed[i]] + [pushed[s.handed[i]]];
      }
    }
    forall j: nat | j < |s'.pumps| ensures PumpOk(s', j) {
      assert PumpOk(s, j);
    }
  }

  lemma HandedAfterMove(s: System, i: nat, x: nat)
    requires SystemInv(s) && i < |s.pubs| && !s.queue.pcs[i].Idle? && x < |s.pubs|
    ensures HandedOk(PublisherStep(s, i), x) && PublisherOk(PublisherStep(s, i), x)
  {
    var q := s.queue;
    PublisherStepRole(q, i);
    assert HandedOk(s, x) && PublisherOk(s, x);
    if q.pcs[i].EmplaceCalled? {
      OwnedAppend(q.vals, q.pushOwner, q.pcs[i].v, i, x);
    }
  }

  lemma PublisherMoveKeeps(s: System, i: nat)
    requires SystemInv(s) && i < |s.pubs| && !s.queue.pcs[i].Idle?
    ensures SystemInv(PublisherStep(s, i))
  {
    var s' := PublisherStep(s, i);
    var q, q' := s.queue, s'.queue;
    PreserveStep(q, i);
    PublisherStepRole(q, i);
    forall x: nat | x < |s'.pubs| ensures HandedOk(s', x) && PublisherOk(s', x) {
      HandedAfterMove(s, i, x);
    }
    forall j: nat | j < |s'.pumps| ensures PumpOk(s', j) {
      assert PumpOk(s, j);
    }
  }

  // ---------------------------------------------------------------- the drainer

  lemma {:induction false} OwnedContains<T>(vals: seq<T>, owners: seq<Tid>, k: nat)
    requires |vals| == |owners| && k < |vals|
    ensures vals[k] in OwnedBy(vals, owners, owners[k])
    decreases |vals|
  {
    var n := |vals| - 1;
    if k < n {
      OwnedContains(vals[..n], owners[..n], k);
    }
  }

  /** Every batch in the queue was cut by a publisher, and has content. */
  lemma QueuedHasContent(s: System, k: nat)
    requires SystemInv(s) && k < |s.queue.vals|
    ensures s.queue.vals[k].bytes != ""
  {
    var i := s.queue.pushOwner[k];
    var b := s.pubs[i].batcher;
    assert HandedOk(s, i) && PublisherOk(s, i);
    OwnedContains(s.queue.vals, s.queue.pushOwner, k);
    assert s.queue.vals[k] in b.pushed[..s.handed[i]];
    var x: nat :| x < |b.pushed| && b.pushed[x] == s.queue.vals[k];
    PublisherTheorems.BatchesAccounted(s.received[i]);
    assert PublisherTheorems.GroupOk(b.pushed[x], b.groups[x]);
  }

  lemma OfferKeeps(p: SubscriberModel.Pump, subscriptions: set<string>, bs: seq<Batch>, b: Batch)
    requires SubscriberTheorems.Conserved(p) && SubscriberTheorems.Shape(p) && b.bytes != ""
    requires p.accepted <= Matching(subscriptions, bs) && (!p.closed ==> p.accepted == Matching(subscriptions, bs))
    ensures var p' := SubscriberModel.Offered(p, subscriptions, b);
            && SubscriberTheorems.Conserved(p') && SubscriberTheorems.Shape(p')
            && p'.accepted <= Matching(subscriptions, bs + [b])
            && (!p'.closed ==> p'.accepted == Matching(subscriptions, bs + [b]))
  {
    assert (bs + [b])[..|bs|] == bs;
    if !p.closed && SubscriberModel.IsSubscribed(subscriptions, b.msgType) {
      SubscriberTheorems.ArriveConserves(p, b.bytes);
    }
  }

  lemma DrainerCallKeeps(s: System)
    requires SystemInv(s) && s.queue.pcs[|s.pubs|].Idle?
    ensures SystemInv(DrainerStep(s))
  {
    var s' := DrainerStep(s);
    PreserveNext(s.queue, Call(|s.pubs|, TryPop));
    forall x: nat | x < |s'.pubs| ensures HandedOk(s', x) && PublisherOk(s', x) {
      assert HandedOk(s, x) && PublisherOk(s, x);
    }
    forall j: nat | j < |s'.pumps| ensures PumpOk(s', j) {
      assert PumpOk(s, j);
    }
  }

  lemma DrainerPublishersKeep(s: System)
    requires SystemInv(s) && !s.queue.pcs[|s.pubs|].Idle?
    ensures var s' := DrainerStep(s);
            Inv(s'.queue) && Roles(s') && forall x: nat :: x < |s'.pubs| ==> HandedOk(s', x) && PublisherOk(s', x)
  {
    var s' := DrainerStep(s);
    PreserveStep(s.queue, |s.pubs|);
    DrainerStepRole(s.queue, |s.pubs|);
    forall x: nat | x < |s'.pubs| ensures HandedOk(s', x) && PublisherOk(s', x) {
      assert HandedOk(s, x) && PublisherOk(s, x);
    }
  }

  lemma DrainerMoveKeeps(s: System)
    requires SystemInv(s) && !s.queue.pcs[|s.pubs|].Idle? && !s.queue.pcs[|s.pubs|].Releasing?
    ensures SystemInv(DrainerStep(s))
  {
    var s' := DrainerStep(s);
    DrainerPublishersKeep(s);
    DrainerStepRole(s.queue, |s.pubs|);
    forall j: nat | j < |s'.pumps| ensures PumpOk(s', j) {
      assert PumpOk(s, j);
    }
  }

  lemma DrainerDeliverKeeps(s: System)
    requires SystemInv(s) && s.queue.pcs[|s.pubs|].Releasing?
    ensures SystemInv(DrainerStep(s))
  {
    var s' := DrainerStep(s);
    var t, q := |s.pubs|, s.queue;
    var k, v := q.pcs[t].k, q.pcs[t].v;
    DrainerPublishersKeep(s);
    assert ThreadOk(q, t);
    QueuedHasContent(s, k);
    assert q.vals[..k + 1] == q.vals[..k] + [v];
    forall j: nat | j < |s'.pumps| ensures PumpOk(s', j) {
      assert PumpOk(s, j);
      OfferKeeps(s.pumps[j], s.subs[j], s.delivered, v);
    }
  }

  // ---------------------------------------------------------------- the subscribers' sockets

  lemma PumpStepKeeps(s: System, j: nat, i: SubscriberModel.Input)
    requires SystemInv(s)
    ensures SystemInv(PumpStep(s, j, i))
  {
    var s' := PumpStep(s, j, i);
    if j < |s.pumps| && !i.Arrive? && SubscriberModel.Possible(s.pumps[j], i) {
      assert PumpOk(s, j);
      SubscriberTheorems.StepKeeps(s.pumps[j], i);
      forall x: nat | x < |s'.pumps| ensures PumpOk(s', x) {
        assert PumpOk(s, x);
      }
      forall x: nat | x < |s'.pubs| ensures HandedOk(s', x) && PublisherOk(s', x) {
        assert HandedOk(s, x) && PublisherOk(s, x);
      }
    }
  }

  lemma AdvanceKeeps(s: System, m: Move)
    requires SystemInv(s)
    ensures SystemInv(Advance(s, m))
  {
    match m
    case Receive(i, fragment) =>
      if i < |s.pubs| && MayReceive(s, i) { ReceiveKeeps(s, i, fragment); }
    case PublisherMoves(i) =>
      if i < |s.pubs| {
        if !s.queue.pcs[i].Idle? {
          PublisherMoveKeeps(s, i);
        } else if s.handed[i] < |s.pubs[i].batcher.pushed| {
          PublisherCallKeeps(s, i);
        }
      }
    case DrainerMoves =>
      if s.queue.pcs[|s.pubs|].Idle? {
        DrainerCallKeeps(s);
      } else if s.queue.pcs[|s.pubs|].Releasing? {
        DrainerDeliverKeeps(s);
      } else {
        DrainerMoveKeeps(s);
      }
    case KernelAnswers(j, res) => PumpStepKeeps(s, j, SubscriberModel.Complete(res));
    case SocketCloses(j) => PumpStepKeeps(s, j, SubscriberModel.Close);
  }

  lemma {:induction false} RunKeeps(s: System, moves: seq<Move>)
    requires SystemInv(s)
    ensures SystemInv(BrokerModel.Run(s, moves))
    decreases |moves|
  {
    if moves != [] {
      RunKeeps(s, moves[..|moves| - 1]);
      AdvanceKeeps(BrokerModel.Run(s, moves[..|moves| - 1]), moves[|moves| - 1]);
    }
  }

  // ---------------------------------------------------------------- end to end

  /** The state of a fresh broker after a run. */
  function After(capacity: nat, pubs: nat, subs: seq<set<string>>, moves: seq<Move>): (s: System)
    requires capacity >= 1
    ensures Sane(s)
  {
    BrokerModel.Run(BrokerModel.Init(capacity, pubs, subs), moves)
  }

  /** The tickets behind the delivered batches. */
  function DeliveredOwners(s: System): seq<Tid> {
    if |s.delivered| <= |s.queue.pushOwner| then s.queue.pushOwner[..|s.delivered|] else []
  }

  lemma SentIsPrefix(p: SubscriberModel.Pump, matching: seq<string>)
    requires SubscriberTheorems.Conserved(p) && p.accepted <= matching
    ensures p.sent <= Flatten(matching)
  {
    FlattenPrefix(p.accepted, matching);
    assert p.sent + p.current + Flatten(p.pending) == p.sent + (p.current + Flatten(p.pending));
    assert p.sent <= Flatten(p.accepted);
  }

  lemma DeliveredInOrder(s: System, i: nat)
    requires Sane(s) && DrainedOk(s) && i < |s.pubs| && HandedOk(s, i)
    ensures |DeliveredOwners(s)| == |s.delivered|
    ensures OwnedBy(s.delivered, DeliveredOwners(s), i) <= s.pubs[i].batcher.pushed
  {
    OwnedPrefix(s.queue.vals, s.queue.pushOwner, |s.delivered|, i);
  }

  lemma AfterInv(capacity: nat, pubs: nat, subs: seq<set<string>>, moves: seq<Move>)
    requires capacity >= 1
    ensures SystemInv(After(capacity, pubs, subs, moves))
  {
    InitSystemInv(capacity, pubs, subs);
    RunKeeps(BrokerModel.Init(capacity, pubs, subs), moves);
  }

  /** Many publishers, many subscribers: what a subscriber has been sent is at every moment a prefix of
      the bytes of the delivered batches its subscriptions match. */
  lemma SentMatchesDelivered(capacity: nat, pubs: nat, subs: seq<set<string>>, moves: seq<Move>, j: nat)
    requires capacity >= 1 && j < |After(capacity, pubs, subs, moves).pumps|
    ensures var s := After(capacity, pubs, subs, moves);
            s.pumps[j].sent <= Flatten(Matching(s.subs[j], s.delivered))
  {
    AfterInv(capacity, pubs, subs, moves);
    var s := After(capacity, pubs, subs, moves);
    assert PumpOk(s, j);
    SentIsPrefix(s.pumps[j], Matching(s.subs[j], s.delivered));
  }

  /** The delivered batches of each publisher are a prefix of the batches it cut: none is lost, doubled
      or overtaken by a later one; and every delivered batch belongs to a publisher. */
  lemma DeliveredKeepsPublicationOrder(capacity: nat, pubs: nat, subs: seq<set<string>>, moves: seq<Move>, i: nat)
    requires capacity >= 1 && i < |After(capacity, pubs, subs, moves).pubs|
    ensures var s := After(capacity, pubs, subs, moves);
            && |DeliveredOwners(s)| == |s.delivered|
            && OwnedBy(s.delivered, DeliveredOwners(s), i) <= s.pubs[i].batcher.pushed
            && (forall k: nat :: k < |s.delivered| ==> DeliveredOwners(s)[k] < |s.pubs|)
  {
    AfterInv(capacity, pubs, subs, moves);
    var s := After(capacity, pubs, subs, moves);
    assert HandedOk(s, i);
    DeliveredInOrder(s, i);
  }

  // ---------------------------------------------------------------- subscribers that fail

  /** An error on a subscriber's socket: it disconnects, its socket can be closed, and no other subscriber notices. */
  lemma FailureCutsOff(s: System, j: nat, res: int)
    requires SystemInv(s) && j < |s.pumps| && s.pumps[j].flight.Some? && res < 0
    ensures var s1 := Advance(s, KernelAnswers(j, res)); var s2 := Advance(s1, SocketCloses(j));
            && |s2.pumps| == |s1.pumps| == |s.pumps| && s1.pumps[j].event.Disconnected? && s2.pumps[j].closed
            && s2.pumps[j].sent == s.pumps[j].sent && s2.queue == s.queue && s2.delivered == s.delivered
            && forall x :: 0 <= x < |s.pumps| && x != j ==> s2.pumps[x] == s.pumps[x]
  {
    assert PumpOk(s, j);
  }

  /** A closed connection is out of the broadcast: no run changes it any more. */
  lemma {:induction false} ClosedForGood(s: System, moves: seq<Move>, j: nat)
    requires Sane(s) && j < |s.pumps| && s.pumps[j].closed
    ensures j < |BrokerModel.Run(s, moves).pumps| && BrokerModel.Run(s, moves).pumps[j] == s.pumps[j]
    decreases |moves|
  {
    if moves != [] {
      ClosedForGood(s, moves[..|moves| - 1], j);
    }
  }

  // ---------------------------------------------------------------- one publisher, message by message

  /** The messages a subscriber's subscriptions match. */
  function MatchingMessages(subscriptions: set<string>, ms: seq<Message>): seq<Message> {
    if ms == [] then []
    else
      var n := |ms| - 1;
      MatchingMessages(subscriptions, ms[..n]) +
      if SubscriberModel.IsSubscribed(subscriptions, ms[n].msgType) then [ms[n]] else []
  }

  /** What a subscriber's share is: the batches, or messages, whose type is the beginning of one of its
      subscriptions, in order. */
  lemma MatchesExactly(subscriptions: set<string>, bs: seq<Batch>, b: Batch, ms: seq<Message>, m: Message)
    ensures Matching(subscriptions, []) == [] && MatchingMessages(subscriptions, []) == []
    ensures Matching(subscriptions, bs + [b]) == Matching(subscriptions, bs) +
              if exists s :: s in subscriptions && |b.msgType| <= |s| && s[..|b.msgType|] == b.msgType then [b.bytes] else []
    ensures MatchingMessages(subscriptions, ms + [m]) == MatchingMessages(subscriptions, ms) +
              if exists s :: s in subscriptions && |m.msgType| <= |s| && s[..|m.msgType|] == m.msgType then [m] else []
  {
    assert (bs + [b])[..|bs|] == bs && (ms + [m])[..|ms|] == ms;
    SubscriberTheorems.SubscribedExactly(subscriptions, b.msgType);
    SubscriberTheorems.SubscribedExactly(subscriptions, m.msgType);
  }

  lemma {:induction false} MatchingMessagesConcat(subscriptions: set<string>, a: seq<Message>, b: seq<Message>)
    ensures MatchingMessages(subscriptions, a + b) == MatchingMessages(subscriptions, a) + MatchingMessages(subscriptions, b)
    decreases |b|
  {
    if b == [] {
      assert a + b == a;
    } else {
      MatchingMessagesConcat(subscriptions, a, b[..|b| - 1]);
      assert (a + b)[..|a + b| - 1] == a + b[..|b| - 1];
    }
  }

  lemma {:induction false} MatchingGroup(subscriptions: set<string>, t: string, g: seq<Message>)
    requires forall m :: m in g ==> m.msgType == t
    ensures MatchingMessages(subscriptions, g) == if SubscriberModel.IsSubscribed(subscriptions, t) then g else []
    decreases |g|
  {
    if g != [] {
      assert g[|g| - 1] in g;
      MatchingGroup(subscriptions, t, g[..|g| - 1]);
    }
  }

  /** Filtering by the type of the batch is filtering message by message. */
  lemma {:induction false} FilterByBatchIsByMessage(subscriptions: set<string>, bs: seq<Batch>, groups: seq<seq<Message>>)
    requires |bs| == |groups|
    requires forall x :: 0 <= x < |bs| ==> bs[x].bytes == AllBytes(groups[x]) && PublisherTheorems.Homogeneous(bs[x], groups[x])
    ensures Flatten(Matching(subscriptions, bs)) == AllBytes(MatchingMessages(subscriptions, Flatten(groups)))
    decreases |bs|
  {
    if bs != [] {
      var n := |bs| - 1;
      var before, matched := Matching(subscriptions, bs[..n]), MatchingMessages(subscriptions, groups[n]);
      FilterByBatchIsByMessage(subscriptions, bs[..n], groups[..n]);
      MatchingMessagesConcat(subscriptions, Flatten(groups[..n]), groups[n]);
      MatchingGroup(subscriptions, bs[n].msgType, groups[n]);
      AllBytesConcat(MatchingMessages(subscriptions, Flatten(groups[..n])), matched);
      FlattenAppend(before, bs[n].bytes);
      assert Flatten(before) + "" == Flatten(before) && before + [] == before;
    }
  }

  lemma MatchingPrefix(subscriptions: set<string>, a: seq<Message>, b: seq<Message>)
    requires a <= b
    ensures AllBytes(MatchingMessages(subscriptions, a)) <= AllBytes(MatchingMessages(subscriptions, b))
  {
    assert b == a + b[|a|..];
    MatchingMessagesConcat(subscriptions, a, b[|a|..]);
    AllBytesConcat(MatchingMessages(subscriptions, a), MatchingMessages(subscriptions, b[|a|..]));
  }

  lemma {:induction false} OwnedAll<T>(vals: seq<T>, owners: seq<Tid>)
    requires |vals| == |owners| && forall k :: 0 <= k < |owners| ==> owners[k] == 0
    ensures OwnedBy(vals, owners, 0) == vals
    decreases |vals|
  {
    if vals != [] {
      OwnedAll(vals[..|vals| - 1], owners[..|vals| - 1]);
    }
  }

  /** The first m batches of a publisher with typed messages are groups of one type each. */
  lemma PushedGroups(p: PublisherModel.Publisher, fragments: seq<string>, m: nat)
    requires p == PublisherModel.FeedAll(PublisherModel.Start, fragments)
    requires PublisherConservation.NoUntyped(p.batcher) && m <= |p.batcher.pushed|
    ensures var b := p.batcher;
            && |b.groups| == |b.pushed|
            && Flatten(b.groups[..m]) <= PublisherTheorems.Kept(b.log)
            && forall x :: 0 <= x < m ==> b.pushed[x].bytes == AllBytes(b.groups[x])
                                          && PublisherTheorems.Homogeneous(b.pushed[x], b.groups[x])
  {
    var b := p.batcher;
    PublisherTheorems.BatchesAccounted(fragments);
    PublisherConservation.KeptAreMessages(b.log);
    FlattenPrefix(b.groups[..m], b.groups);
    var kept := PublisherTheorems.Kept(b.log);
    assert kept == Flatten(b.groups) + b.open;
    forall x | 0 <= x < m
      ensures b.pushed[x].bytes == AllBytes(b.groups[x]) && PublisherTheorems.Homogeneous(b.pushed[x], b.groups[x])
    {
      assert PublisherTheorems.GroupOk(b.pushed[x], b.groups[x]);
      GroupsAreFlattened(b.groups, x);
      forall y | y in b.groups[x] ensures y.msgType != "" {
        assert y in Flatten(b.groups);
        assert y in kept;
      }
    }
  }

  lemma {:induction false} GroupsAreFlattened(groups: seq<seq<Message>>, x: nat)
    requires x < |groups|
    ensures forall y :: y in groups[x] ==> y in Flatten(groups)
    decreases |groups|
  {
    if x < |groups| - 1 {
      GroupsAreFlattened(groups[..|groups| - 1], x);
    }
  }

  lemma OnlyPublisher(s: System)
    requires SystemInv(s) && |s.pubs| == 1
    ensures |DeliveredOwners(s)| == |s.delivered| && OwnedBy(s.delivered, DeliveredOwners(s), 0) == s.delivered
  {
    assert HandedOk(s, 0);
    DeliveredInOrder(s, 0);
    OwnedAll(s.delivered, DeliveredOwners(s));
  }

  lemma OwnedMatchingMessages(s: System, i: nat, subscriptions: set<string>)
    requires SystemInv(s) && i < |s.pubs| && PublisherConservation.NoUntyped(s.pubs[i].batcher)
    ensures |DeliveredOwners(s)| == |s.delivered|
    ensures Flatten(Matching(subscriptions, OwnedBy(s.delivered, DeliveredOwners(s), i)))
         <= AllBytes(MatchingMessages(subscriptions, PublisherTheorems.Kept(s.pubs[i].batcher.log)))
  {
    var b := s.pubs[i].batcher;
    assert HandedOk(s, i) && PublisherOk(s, i);
    DeliveredInOrder(s, i);
    var bs := OwnedBy(s.delivered, DeliveredOwners(s), i);
    PushedGroups(s.pubs[i], s.received[i], |bs|);
    FilterByBatchIsByMessage(subscriptions, bs, b.groups[..|bs|]);
    MatchingPrefix(subscriptions, Flatten(b.groups[..|bs|]), PublisherTheorems.Kept(b.log));
  }

  /** Any number of publishers: of those whose messages all have a type, what a subscriber's subscriptions
      match among the delivered batches of each is a prefix of the frames of its matching messages, in
      publication order. */
  lemma ShareIsMatchingMessages(capacity: nat, pubs: nat, subs: seq<set<string>>, moves: seq<Move>, i: nat, j: nat)
    requires capacity >= 1 && i < |After(capacity, pubs, subs, moves).pubs| && j < |After(capacity, pubs, subs, moves).subs|
    requires PublisherConservation.NoUntyped(After(capacity, pubs, subs, moves).pubs[i].batcher)
    ensures var s := After(capacity, pubs, subs, moves);
            && |DeliveredOwners(s)| == |s.delivered|
            && Flatten(Matching(s.subs[j], OwnedBy(s.delivered, DeliveredOwners(s), i)))
            <= AllBytes(MatchingMessages(s.subs[j], PublisherTheorems.Kept(s.pubs[i].batcher.log)))
  {
    AfterInv(capacity, pubs, subs, moves);
    OwnedMatchingMessages(After(capacity, pubs, subs, moves), i, After(capacity, pubs, subs, moves).subs[j]);
  }

  /** One publisher whose messages all have a type: what a subscriber has been sent is at every moment a
      prefix of the frames of the matching messages, in publication order. */
  lemma SentIsMatchingMessages(capacity: nat, subs: seq<set<string>>, moves: seq<Move>, j: nat)
    requires capacity >= 1 && j < |After(capacity, 1, subs, moves).pumps|
    requires |After(capacity, 1, subs, moves).pubs| == 1
    requires PublisherConservation.NoUntyped(After(capacity, 1, subs, moves).pubs[0].batcher)
    ensures var s := After(capacity, 1, subs, moves);
            s.pumps[j].sent <= AllBytes(MatchingMessages(s.subs[j], PublisherTheorems.Kept(s.pubs[0].batcher.log)))
  {
    AfterInv(capacity, 1, subs, moves);
    SentMatchesDelivered(capacity, 1, subs, moves, j);
    ShareIsMatchingMessages(capacity, 1, subs, moves, 0, j);
    OnlyPublisher(After(capacity, 1, subs, moves));
  }

  // ---------------------------------------------------------------- from client to client

  /** What a publisher's connection has read and kept of the frames of its client. */
  lemma KeptIsPrefixOfSent(s: System, i: nat, ms: seq<Message>, rest: string)
    requires SystemInv(s) && i < |s.pubs|
    requires (forall m :: m in ms ==> PublisherTheorems.Sendable(m)) && PublisherLoss.AllTyped(ms)
    requires Flatten(s.received[i]) + rest == AllBytes(ms)
    requires !PublisherLoss.FillsExactly(PublisherTheorems.Arrived(ms))
    ensures PublisherTheorems.Kept(s.pubs[i].batcher.log) <= ms && PublisherConservation.NoUntyped(s.pubs[i].batcher)
  {
    assert PublisherOk(s, i);
    var log := s.pubs[i].batcher.log;
    PublisherTheorems.ReadIsPrefixOfSent(s.received[i], ms, rest);
    PublisherLoss.NeverLost(s.received[i], ms, rest);
    PublisherConservation.AllKeptIsAll(log);
    forall m | m in PublisherTheorems.Messages(log) ensures m.msgType != "" {
      assert m in ms;
    }
  }

  /** From any publishing client to a subscriber: the client frames typed messages that do not fill a batch
      exactly, and any part of the frames has arrived cut anyhow. Then the matching part of what was delivered
      of them is a prefix of the frames of the messages subscribed to, in the order they were published. */
  lemma ClientToBroadcast(capacity: nat, pubs: nat, subs: seq<set<string>>, moves: seq<Move>, i: nat, j: nat,
                          ms: seq<Message>, rest: string)
    requires capacity >= 1 && i < |After(capacity, pubs, subs, moves).pubs| && j < |After(capacity, pubs, subs, moves).subs|
    requires (forall m :: m in ms ==> PublisherTheorems.Sendable(m)) && PublisherLoss.AllTyped(ms)
    requires Flatten(After(capacity, pubs, subs, moves).received[i]) + rest == AllBytes(ms)
    requires !PublisherLoss.FillsExactly(PublisherTheorems.Arrived(ms))
    ensures var s := After(capacity, pubs, subs, moves);
            && |DeliveredOwners(s)| == |s.delivered|
            && Flatten(Matching(s.subs[j], OwnedBy(s.delivered, DeliveredOwners(s), i)))
            <= AllBytes(MatchingMessages(s.subs[j], ms))
  {
    AfterInv(capacity, pubs, subs, moves);
    var s := After(capacity, pubs, subs, moves);
    KeptIsPrefixOfSent(s, i, ms, rest);
    OwnedMatchingMessages(s, i, s.subs[j]);
    MatchingPrefix(s.subs[j], PublisherTheorems.Kept(s.pubs[i].batcher.log), ms);
  }

  /** With one publisher that is what the subscriber has been sent. */
  lemma ClientToClient(capacity: nat, subs: seq<set<string>>, moves: seq<Move>, j: nat, ms: seq<Message>, rest: string)
    requires capacity >= 1 && j < |After(capacity, 1, subs, moves).pumps|
    requires |After(capacity, 1, subs, moves).pubs| == 1
    requires (forall m :: m in ms ==> PublisherTheorems.Sendable(m)) && PublisherLoss.AllTyped(ms)
    requires Flatten(After(capacity, 1, subs, moves).received[0]) + rest == AllBytes(ms)
    requires !PublisherLoss.FillsExactly(PublisherTheorems.Arrived(ms))
    ensures var s := After(capacity, 1, subs, moves);
            s.pumps[j].sent <= AllBytes(MatchingMessages(s.subs[j], ms))
  {
    AfterInv(capacity, 1, subs, moves);
    SentMatchesDelivered(capacity, 1, subs, moves, j);
    ClientToBroadcast(capacity, 1, subs, moves, 0, j, ms, rest);
    OnlyPublisher(After(capacity, 1, subs, moves));
  }

  /** All threads are outside the queue, it is empty, and each publisher has handed over its batches. */
  ghost predicate AtRest(s: System)
    requires Sane(s)
  {
    && s.queue.head == s.queue.tail
    && (forall t: Tid :: t < |s.queue.pcs| ==> s.queue.pcs[t].Idle?)
    && (forall i: nat :: i < |s.pubs| ==> s.handed[i] == |s.pubs[i].batcher.pushed|)
  }

  lemma AllDeliveredAtRest(s: System)
    requires SystemInv(s) && AtRest(s)
    ensures |DeliveredOwners(s)| == |s.delivered|
    ensures forall i: nat :: i < |s.pubs| ==>
              OwnedBy(s.delivered, DeliveredOwners(s), i) == s.pubs[i].batcher.pushed
  {
    assert s.delivered == s.queue.vals && DeliveredOwners(s) == s.queue.pushOwner;
    forall i: nat | i < |s.pubs| ensures OwnedBy(s.delivered, DeliveredOwners(s), i) == s.pubs[i].batcher.pushed {
      assert HandedOk(s, i);
      var pushed := s.pubs[i].batcher.pushed;
      assert pushed[..|pushed|] == pushed;
    }
  }

  /** When the broker is at rest everything that publishers cut has been delivered, and a subscriber that is
      ready has been sent all of its share. What publishers have not cut is below. */
  lemma AtRestNothingIsMissing(capacity: nat, pubs: nat, subs: seq<set<string>>, moves: seq<Move>, j: nat)
    requires capacity >= 1 && j < |After(capacity, pubs, subs, moves).pumps|
    requires AtRest(After(capacity, pubs, subs, moves)) && After(capacity, pubs, subs, moves).pumps[j].event.Ready?
    ensures var s := After(capacity, pubs, subs, moves);
            && |DeliveredOwners(s)| == |s.delivered|
            && (forall i: nat :: i < |s.pubs| ==>
                  OwnedBy(s.delivered, DeliveredOwners(s), i) == s.pubs[i].batcher.pushed)
            && s.pumps[j].sent == Flatten(Matching(s.subs[j], s.delivered))
  {
    AfterInv(capacity, pubs, subs, moves);
    var s := After(capacity, pubs, subs, moves);
    assert PumpOk(s, j);
    SubscriberTheorems.ReadyHasSentAll(s.pumps[j]);
    AllDeliveredAtRest(s);
  }

  /** What is missing of a publisher whose messages all have a type is exactly its open batch. */
  lemma OpenIsMissing(s: System, i: nat, subscriptions: set<string>)
    requires SystemInv(s) && i < |s.pubs| && PublisherConservation.NoUntyped(s.pubs[i].batcher)
    ensures var b := s.pubs[i].batcher;
            Flatten(Matching(subscriptions, b.pushed)) + AllBytes(MatchingMessages(subscriptions, b.open)) ==
              AllBytes(MatchingMessages(subscriptions, PublisherTheorems.Kept(b.log)))
  {
    assert PublisherOk(s, i);
    var b := s.pubs[i].batcher;
    PublisherTheorems.BatchesAccounted(s.received[i]);
    PushedGroups(s.pubs[i], s.received[i], |b.pushed|);
    FilterByBatchIsByMessage(subscriptions, b.pushed, b.groups);
    MatchingMessagesConcat(subscriptions, Flatten(b.groups), b.open);
    AllBytesConcat(MatchingMessages(subscriptions, Flatten(b.groups)), MatchingMessages(subscriptions, b.open));
  }

  /** A publisher whose frames arrived in full, the last with content, has cut all of them. */
  lemma ArrivedIsCut(s: System, i: nat, ms: seq<Message>)
    requires SystemInv(s) && i < |s.pubs|
    requires (forall m :: m in ms ==> PublisherTheorems.Sendable(m)) && PublisherLoss.AllTyped(ms)
    requires ms != [] && ms[|ms| - 1].content != "" && Flatten(s.received[i]) == AllBytes(ms)
    requires !PublisherLoss.FillsExactly(ms)
    ensures var b := s.pubs[i].batcher;
            PublisherTheorems.Kept(b.log) == ms && b.open == [] && PublisherConservation.NoUntyped(b)
  {
    assert PublisherOk(s, i);
    assert AllBytes(ms) + "" == AllBytes(ms);
    KeptIsPrefixOfSent(s, i, ms, "");
    PublisherLoss.NeverLost(s.received[i], ms, "");
    PublisherConservation.AllKeptIsAll(s.pubs[i].batcher.log);
    PublisherTheorems.ReadExactly(s.received[i], ms);
    PublisherLossExact.FullFlushes(s.received[i], ms);
    PublisherConservation.FeedIsDeliveries(s.received[i]);
  }

  /** Any number of publishers, the broker at rest: of a client whose typed messages have arrived in full, the
      last with content, and do not fill a batch exactly, everything subscribed to has been broadcast. */
  lemma AllBroadcastAtRest(capacity: nat, pubs: nat, subs: seq<set<string>>, moves: seq<Move>, i: nat, j: nat,
                           ms: seq<Message>)
    requires capacity >= 1 && i < |After(capacity, pubs, subs, moves).pubs| && j < |After(capacity, pubs, subs, moves).subs|
    requires AtRest(After(capacity, pubs, subs, moves))
    requires (forall m :: m in ms ==> PublisherTheorems.Sendable(m)) && PublisherLoss.AllTyped(ms)
    requires ms != [] && ms[|ms| - 1].content != "" && !PublisherLoss.FillsExactly(ms)
    requires Flatten(After(capacity, pubs, subs, moves).received[i]) == AllBytes(ms)
    ensures var s := After(capacity, pubs, subs, moves);
            && |DeliveredOwners(s)| == |s.delivered|
            && Flatten(Matching(s.subs[j], OwnedBy(s.delivered, DeliveredOwners(s), i)))
            == AllBytes(MatchingMessages(s.subs[j], ms))
  {
    AfterInv(capacity, pubs, subs, moves);
    var s := After(capacity, pubs, subs, moves);
    ArrivedIsCut(s, i, ms);
    OpenIsMissing(s, i, s.subs[j]);
    AllDeliveredAtRest(s);
    var share := Flatten(Matching(s.subs[j], s.pubs[i].batcher.pushed));
    assert share + "" == share;
  }

  /** With one publisher a ready subscriber has then been sent all messages it subscribed to, and nothing else. */
  lemma AllSentAtRest(capacity: nat, subs: seq<set<string>>, moves: seq<Move>, j: nat, ms: seq<Message>)
    requires capacity >= 1 && j < |After(capacity, 1, subs, moves).pumps|
    requires |After(capacity, 1, subs, moves).pubs| == 1
    requires AtRest(After(capacity, 1, subs, moves)) && After(capacity, 1, subs, moves).pumps[j].event.Ready?
    requires (forall m :: m in ms ==> PublisherTheorems.Sendable(m)) && PublisherLoss.AllTyped(ms)
    requires ms != [] && ms[|ms| - 1].content != "" && !PublisherLoss.FillsExactly(ms)
    requires Flatten(After(capacity, 1, subs, moves).received[0]) == AllBytes(ms)
    ensures var s := After(capacity, 1, subs, moves);
            s.pumps[j].sent == AllBytes(MatchingMessages(s.subs[j], ms))
  {
    AfterInv(capacity, 1, subs, moves);
    AtRestNothingIsMissing(capacity, 1, subs, moves, j);
    AllBroadcastAtRest(capacity, 1, subs, moves, 0, j, ms);
    OnlyPublisher(After(capacity, 1, subs, moves));
  }
}
