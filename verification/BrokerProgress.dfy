/** Progress of the whole pipeline: wherever it stands, what has been received can still reach its subscribers. */
module BrokerProgress {
  import opened Sequences
  import opened Frames
  import opened MpmcModel
  import opened MpmcInvariant
  import opened MessageBatches
  import opened BrokerModel
  import opened BrokerTheorems
  import MpmcTheorems
  import PublisherLoss
  import PublisherTheorems
  import SubscriberModel
  import SubscriberTheorems

  // ---------------------------------------------------------------- how much is left to do

  /** Steps of the draining thread until it is outside the queue, or has taken a waiting batch. */
  function DrainRank(pc: Pc<Batch>, tail: nat, waiting: bool): (n: nat)
    ensures n <= 8
  {
    match pc
    case Idle => if waiting then 7 else 0
    case TryPopCalled => 6
    case TryPopLoad(k) => if k != tail then 7 else 5
    case TryPopCas(k) => if k != tail then 6 else 4
    case TryPopReload(k) => if k != tail then 6 else if waiting then 8 else 4
    case Moving(_) => 3
    case Destroying(_, _) => 2
    case Releasing(_, _) => 1
    case _ => 0
  }

  function DrainWork(s: System): nat
    requires Sane(s) && |s.delivered| <= s.queue.head
  {
    10 * (s.queue.head - |s.delivered|)
    + DrainRank(s.queue.pcs[|s.pubs|], s.queue.tail, s.queue.head > |s.delivered|)
  }

  function PushRank(pc: Pc<Batch>): nat {
    match pc
    case EmplaceCalled(_) => 22
    case EmplaceSpin(_, _) => 3
    case Constructing(_, _) => 2
    case Publishing(_) => 1
    case _ => 0
  }

  function Unhanded(s: System, i: nat): nat
    requires Sane(s) && i < |s.pubs|
  {
    var n := |s.pubs[i].batcher.pushed|;
    if s.handed[i] <= n then n - s.handed[i] else 0
  }

  function PubWork(s: System, i: nat): nat
    requires Sane(s) && i < |s.pubs|
  {
    23 * Unhanded(s, i) + PushRank(s.queue.pcs[i])
  }

  function PubsWork(s: System, n: nat): nat
    requires Sane(s) && n <= |s.pubs|
  {
    if n == 0 then 0 else PubsWork(s, n - 1) + PubWork(s, n - 1)
  }

  function Work(s: System): nat
    requires Sane(s) && |s.delivered| <= s.queue.head
  {
    PubsWork(s, |s.pubs|) + DrainWork(s)
  }

  /** Only the work of publisher i changed, if any. */
  lemma {:induction false} WorkOfOne(s: System, s': System, i: nat, n: nat)
    requires Sane(s) && Sane(s') && |s'.pubs| == |s.pubs| && n <= |s.pubs|
    requires forall x: nat :: x < n && x != i ==> PubWork(s', x) == PubWork(s, x)
    ensures PubsWork(s', n) == PubsWork(s, n) + if i < n then PubWork(s', i) - PubWork(s, i) else 0
    decreases n
  {
    if n > 0 {
      WorkOfOne(s, s', i, n - 1);
    }
  }

  // ---------------------------------------------------------------- a publisher moves

  /** A publisher has a step that is not a spin. */
  predicate CanMove(s: System, i: nat)
    requires Sane(s) && i < |s.pubs|
  {
    var pc := s.queue.pcs[i];
    if pc.Idle? then s.handed[i] < |s.pubs[i].batcher.pushed|
    else pc.EmplaceSpin? ==> TurnIs(s.queue, pc.k, PushTurn(pc.k, s.queue.capacity))
  }

  lemma OwnWorkFalls(s: System, i: nat)
    requires SystemInv(s) && i < |s.pubs| && CanMove(s, i)
    ensures PubWork(PublisherStep(s, i), i) < PubWork(s, i)
    ensures s.queue.pcs[i].EmplaceCalled? ==> PubWork(PublisherStep(s, i), i) == PubWork(s, i) - 19
  {
  }

  lemma DrainWorkMayRise(s: System, i: nat)
    requires SystemInv(s) && i < |s.pubs|
    ensures var s' := PublisherStep(s, i);
            && |s'.delivered| <= s'.queue.head
            && DrainWork(s') <= DrainWork(s) + if s.queue.pcs[i].EmplaceCalled? then 18 else 0
  {
    if !s.queue.pcs[i].Idle? { PublisherStepRole(s.queue, i); }
  }

  lemma PublisherWorkFalls(s: System, i: nat)
    requires SystemInv(s) && i < |s.pubs| && CanMove(s, i)
    ensures SystemInv(Advance(s, PublisherMoves(i)))
    ensures Work(Advance(s, PublisherMoves(i))) < Work(s)
  {
    AdvanceKeeps(s, PublisherMoves(i));
    OwnWorkFalls(s, i);
    DrainWorkMayRise(s, i);
    WorkOfOne(s, PublisherStep(s, i), i, |s.pubs|);
  }

  // ---------------------------------------------------------------- the draining thread moves

  /** Every ticket before the next one to be delivered is released. */
  lemma DeliveredAreReleased(s: System)
    requires SystemInv(s)
    ensures forall k: nat :: k < |s.delivered| ==> k in s.queue.released && k in s.queue.published
  {
    var q := s.queue;
    forall k: nat | k < |s.delivered| ensures k in q.released && k in q.published {
      var t := q.popOwner[k];
      assert k in q.released || (t < |q.pcs| && q.pcs[t].HoldsPop(k));
      assert t < |s.pubs| ==> PublisherPc(q.pcs[t]);
    }
  }

  lemma SlotIsFree(q: State<Batch>, k: nat)
    requires Inv(q) && k !in q.published && forall i: nat :: i < k ==> i in q.released
    ensures TurnIs(q, k, PushTurn(k, q.capacity))
  {
    if k >= q.capacity {
      MpmcTheorems.NeighbourTicket(k - q.capacity, q.capacity);
    } else {
      MpmcTheorems.DivModUnique(k, q.capacity, 0, k);
    }
  }

  /** When no publisher can move, the next ticket to be delivered is published if it has been drawn. */
  lemma NextIsPublished(s: System)
    requires SystemInv(s) && (forall i: nat :: i < |s.pubs| ==> !CanMove(s, i)) && |s.delivered| < s.queue.head
    ensures |s.delivered| in s.queue.published
  {
    var q, m := s.queue, |s.delivered|;
    DeliveredAreReleased(s);
    var i := q.pushOwner[m];
    assert !CanMove(s, i) && (m in q.published || q.pcs[i].HoldsPush(m));
    if m !in q.published {
      SlotIsFree(q, m);
    }
  }

  /** When nothing is queued and no publisher can move, none is inside the queue. */
  lemma NoneInside(s: System, i: nat)
    requires SystemInv(s) && i < |s.pubs| && !CanMove(s, i) && |s.delivered| == s.queue.head
    ensures s.queue.pcs[i].Idle? && s.handed[i] == |s.pubs[i].batcher.pushed|
  {
    DeliveredAreReleased(s);
    assert ThreadOk(s.queue, i) && HandedOk(s, i);
  }

  lemma TailIsFull(s: System)
    requires SystemInv(s) && s.queue.tail == |s.delivered| && s.queue.tail in s.queue.published
    ensures TurnIs(s.queue, s.queue.tail, PopTurn(s.queue.tail, s.queue.capacity))
  {
    assert s.queue.tail !in s.queue.released;
  }

  predicate Taking(pc: Pc<Batch>) {
    pc.Moving? || pc.Destroying? || pc.Releasing?
  }

  lemma TakingFalls(s: System)
    requires SystemInv(s) && Taking(s.queue.pcs[|s.pubs|])
    ensures var s' := DrainerStep(s); |s'.delivered| <= s'.queue.head && DrainWork(s') < DrainWork(s)
  {
    var q, t := s.queue, |s.pubs|;
    assert ThreadOk(q, t);
    if q.pcs[t].Moving? { MovingFindsValue(q, t); }
  }

  lemma TryingFalls(s: System)
    requires SystemInv(s) && |s.delivered| < s.queue.head && |s.delivered| in s.queue.published
    requires !Taking(s.queue.pcs[|s.pubs|])
    ensures var s' := DrainerStep(s); |s'.delivered| <= s'.queue.head && DrainWork(s') < DrainWork(s)
  {
    TailIsFull(s);
    if !s.queue.pcs[|s.pubs|].Idle? { DrainerStepRole(s.queue, |s.pubs|); }
  }

  lemma EmptyRankFalls(s: System)
    requires SystemInv(s) && |s.delivered| == s.queue.head && !s.queue.pcs[|s.pubs|].Idle?
    ensures var s' := DrainerStep(s); |s'.delivered| <= s'.queue.head && DrainWork(s') < DrainWork(s)
  {
    var q, t := s.queue, |s.pubs|;
    assert ThreadOk(q, t) && q.head !in q.published;
    DrainerStepRole(q, t);
  }

  lemma DrainerWorkFalls(s: System)
    requires SystemInv(s)
    requires var s' := DrainerStep(s); |s'.delivered| <= s'.queue.head && DrainWork(s') < DrainWork(s)
    ensures SystemInv(Advance(s, DrainerMoves)) && Work(Advance(s, DrainerMoves)) < Work(s)
  {
    var s' := DrainerStep(s);
    AdvanceKeeps(s, DrainerMoves);
    forall x: nat | x < |s.pubs| ensures PubWork(s', x) == PubWork(s, x) {
    }
    WorkOfOne(s, s', |s.pubs|, |s.pubs|);
  }

  /** No deadlock of the pipeline: while it is not at rest some thread has a move that leaves less to do. */
  lemma SomeoneMoves(s: System) returns (m: Move)
    requires SystemInv(s) && !AtRest(s)
    ensures m.PublisherMoves? || m.DrainerMoves?
    ensures SystemInv(Advance(s, m)) && Work(Advance(s, m)) < Work(s)
  {
    if i: nat :| i < |s.pubs| && CanMove(s, i) {
      m := PublisherMoves(i);
      PublisherWorkFalls(s, i);
    } else {
      m := DrainerMoves;
      if |s.delivered| < s.queue.head {
        NextIsPublished(s);
        if Taking(s.queue.pcs[|s.pubs|]) { TakingFalls(s); } else { TryingFalls(s); }
      } else {
        forall i: nat | i < |s.pubs|
          ensures s.queue.pcs[i].Idle? && s.handed[i] == |s.pubs[i].batcher.pushed|
        {
          NoneInside(s, i);
        }
        EmptyRankFalls(s);
      }
      DrainerWorkFalls(s);
    }
  }

  // ---------------------------------------------------------------- moves that need no new input

  /** The threads step, and the kernel takes some bytes of a send: nothing is received, closed or refused. */
  predicate Helpful(m: Move) {
    m.PublisherMoves? || m.DrainerMoves? || (m.KernelAnswers? && m.res > 0)
  }

  predicate AllHelpful(moves: seq<Move>) {
    forall k :: 0 <= k < |moves| ==> Helpful(moves[k])
  }

  /** The connection is open, and no send of it was answered with zero or an error. */
  predicate Live(p: SubscriberModel.Pump) {
    !p.closed && (p.event.Ready? || p.flight.Some?)
  }

  /** The publishers are the same, and so are the subscribers; none of them has failed meanwhile. */
  ghost predicate Goes(s: System, s': System)
    requires Sane(s) && Sane(s')
  {
    && s'.pubs == s.pubs && s'.received == s.received && s'.subs == s.subs && |s'.pumps| == |s.pumps|
    && forall j: nat :: j < |s.pumps| && Live(s.pumps[j]) ==> Live(s'.pumps[j])
  }

  lemma OfferStaysLive(p: SubscriberModel.Pump, subscriptions: set<string>, b: Batch)
    requires SubscriberTheorems.Shape(p) && Live(p)
    ensures Live(SubscriberModel.Offered(p, subscriptions, b))
  {
  }

  lemma AnswerStaysLive(p: SubscriberModel.Pump, res: int)
    requires SubscriberTheorems.Shape(p) && Live(p) && SubscriberModel.Possible(p, SubscriberModel.Complete(res)) && res > 0
    ensures Live(SubscriberModel.Completed(p, res))
  {
    if p.pending != [] { assert p.pending[0] in p.pending; }
  }

  lemma HelpfulGoes(s: System, m: Move)
    requires SystemInv(s) && Helpful(m)
    ensures Goes(s, Advance(s, m))
  {
    var s' := Advance(s, m);
    forall j: nat | j < |s.pumps| && Live(s.pumps[j]) ensures |s'.pumps| == |s.pumps| && Live(s'.pumps[j]) {
      assert PumpOk(s, j);
      var t := |s.pubs|;
      if m.DrainerMoves? && s.queue.pcs[t].Releasing? {
        OfferStaysLive(s.pumps[j], s.subs[j], s.queue.pcs[t].v);
      }
      if m.KernelAnswers? && m.sub == j && SubscriberModel.Possible(s.pumps[j], SubscriberModel.Complete(m.res)) {
        AnswerStaysLive(s.pumps[j], m.res);
      }
    }
  }

  lemma {:induction false} RunAfterRun(s: System, a: seq<Move>, b: seq<Move>)
    requires Sane(s)
    ensures BrokerModel.Run(s, a + b) == BrokerModel.Run(BrokerModel.Run(s, a), b)
    decreases |b|
  {
    if b == [] {
      assert a + b == a;
    } else {
      RunAfterRun(s, a, b[..|b| - 1]);
      assert (a + b)[..|a + b| - 1] == a + b[..|b| - 1];
    }
  }

  lemma RunFirst(s: System, m: Move, rest: seq<Move>)
    requires Sane(s)
    ensures BrokerModel.Run(s, [m] + rest) == BrokerModel.Run(Advance(s, m), rest)
  {
    RunAfterRun(s, [m], rest);
    assert [m][..0] == [];
  }

  /** The state a helpful continuation leads to. */
  ghost predicate LeadsTo(s: System, moves: seq<Move>, s': System)
    requires Sane(s)
  {
    AllHelpful(moves) && s' == BrokerModel.Run(s, moves) && SystemInv(s') && Goes(s, s')
  }

  lemma LeadsNowhere(s: System)
    requires SystemInv(s)
    ensures LeadsTo(s, [], s)
  {
  }

  lemma LeadsFurther(s: System, m: Move, rest: seq<Move>, s': System)
    requires SystemInv(s) && Helpful(m) && LeadsTo(Advance(s, m), rest, s')
    ensures LeadsTo(s, [m] + rest, s')
  {
    HelpfulGoes(s, m);
    RunFirst(s, m, rest);
  }

  lemma LeadsOn(s: System, a: seq<Move>, s1: System, b: seq<Move>, s2: System)
    requires Sane(s) && LeadsTo(s, a, s1) && LeadsTo(s1, b, s2)
    ensures LeadsTo(s, a + b, s2)
  {
    RunAfterRun(s, a, b);
  }

  lemma {:induction false} ToRest(s: System) returns (moves: seq<Move>, s': System)
    requires SystemInv(s)
    ensures LeadsTo(s, moves, s') && AtRest(s')
    decreases Work(s)
  {
    if AtRest(s) {
      LeadsNowhere(s);
      moves, s' := [], s;
    } else {
      var m := SomeoneMoves(s);
      var rest;
      rest, s' := ToRest(Advance(s, m));
      LeadsFurther(s, m, rest, s');
      moves := [m] + rest;
    }
  }

  // ---------------------------------------------------------------- the sockets

  /** Sends of this subscriber to come. */
  function Sends(p: SubscriberModel.Pump): nat {
    |p.pending| + if p.flight.Some? then 1 else 0
  }

  predicate NoneInFlight(s: System, n: nat)
    requires n <= |s.pumps|
  {
    forall j: nat :: j < n ==> s.pumps[j].flight.None?
  }

  /** The kernel takes all of an outstanding send. */
  lemma FullAnswer(s: System, n: nat) returns (m: Move)
    requires SystemInv(s) && AtRest(s) && n < |s.pumps| && s.pumps[n].flight.Some? && NoneInFlight(s, n)
    ensures Helpful(m)
    ensures var s' := Advance(s, m);
            && SystemInv(s') && AtRest(s') && |s'.pumps| == |s.pumps| && NoneInFlight(s', n)
            && Sends(s'.pumps[n]) < Sends(s.pumps[n])
  {
    assert PumpOk(s, n);
    var p := s.pumps[n];
    m := KernelAnswers(n, |p.current|);
    AdvanceKeeps(s, m);
    assert SubscriberModel.Possible(p, SubscriberModel.Complete(|p.current|));
    if p.pending != [] { assert p.pending[0] in p.pending; }
  }

  lemma {:induction false} ToIdle(s: System, n: nat) returns (moves: seq<Move>, s': System)
    requires SystemInv(s) && AtRest(s) && n <= |s.pumps| && NoneInFlight(s, n)
    ensures LeadsTo(s, moves, s') && AtRest(s') && NoneInFlight(s', |s'.pumps|)
    decreases |s.pumps| - n, if n < |s.pumps| then Sends(s.pumps[n]) else 0
  {
    if n == |s.pumps| {
      LeadsNowhere(s);
      moves, s' := [], s;
    } else if s.pumps[n].flight.None? {
      moves, s' := ToIdle(s, n + 1);
    } else {
      var m := FullAnswer(s, n);
      var rest;
      rest, s' := ToIdle(Advance(s, m), n);
      LeadsFurther(s, m, rest, s');
      moves := [m] + rest;
    }
  }

  // ---------------------------------------------------------------- everything can arrive

  /** All that was cut has been delivered, in order, and every subscriber that was live was sent its share. */
  ghost predicate AllArrives(s: System, moves: seq<Move>)
    requires Sane(s)
  {
    var s' := BrokerModel.Run(s, moves);
    && AllHelpful(moves) && Goes(s, s') && AtRest(s')
    && |DeliveredOwners(s')| == |s'.delivered|
    && (forall i: nat :: i < |s'.pubs| ==>
          OwnedBy(s'.delivered, DeliveredOwners(s'), i) == s'.pubs[i].batcher.pushed)
    && (forall j: nat :: j < |s.pumps| && Live(s.pumps[j]) ==>
          s'.pumps[j].event.Ready? && s'.pumps[j].sent == Flatten(Matching(s'.subs[j], s'.delivered)))
  }

  /** From every reachable state there is a continuation in which threads only step and the kernel only takes
      bytes, after which everything publishers have cut is delivered, and every subscriber whose connection
      has not failed has been sent all of its share. */
  lemma EverythingCanArrive(capacity: nat, pubs: nat, subs: seq<set<string>>, moves: seq<Move>)
    requires capacity >= 1
    ensures exists more :: AllArrives(After(capacity, pubs, subs, moves), more)
  {
    AfterInv(capacity, pubs, subs, moves);
    var s := After(capacity, pubs, subs, moves);
    var a, s1 := ToRest(s);
    var b, s2 := ToIdle(s1, 0);
    LeadsOn(s, a, s1, b, s2);
    AllDeliveredAtRest(s2);
    forall j: nat | j < |s.pumps| && Live(s.pumps[j])
      ensures s2.pumps[j].event.Ready? && s2.pumps[j].sent == Flatten(Matching(s2.subs[j], s2.delivered))
    {
      assert PumpOk(s2, j) && Live(s2.pumps[j]);
      SubscriberTheorems.ReadyHasSentAll(s2.pumps[j]);
    }
    assert AllArrives(s, a + b);
  }

  ghost predicate Reaches(s: System, more: seq<Move>, j: nat, ms: seq<Message>)
    requires Sane(s) && j < |s.subs|
  {
    var s' := BrokerModel.Run(s, more);
    && AllHelpful(more) && Goes(s, s')
    && s'.pumps[j].sent == AllBytes(MatchingMessages(s.subs[j], ms))
  }

  /** From client to client: once the typed messages of the only publisher have arrived in full, the last with
      content, and do not fill a batch exactly, a live subscriber can still be sent exactly those it subscribed
      to, wherever the broker stands. */
  lemma ClientCanReachClient(capacity: nat, subs: seq<set<string>>, moves: seq<Move>, j: nat, ms: seq<Message>)
    requires capacity >= 1 && j < |After(capacity, 1, subs, moves).pumps|
    requires |After(capacity, 1, subs, moves).pubs| == 1 && Live(After(capacity, 1, subs, moves).pumps[j])
    requires (forall m :: m in ms ==> PublisherTheorems.Sendable(m)) && PublisherLoss.AllTyped(ms)
    requires ms != [] && ms[|ms| - 1].content != "" && !PublisherLoss.FillsExactly(ms)
    requires Flatten(After(capacity, 1, subs, moves).received[0]) == AllBytes(ms)
    ensures exists more :: Reaches(After(capacity, 1, subs, moves), more, j, ms)
  {
    EverythingCanArrive(capacity, 1, subs, moves);
    AfterInv(capacity, 1, subs, moves);
    var s := After(capacity, 1, subs, moves);
    var more :| AllArrives(s, more);
    RunAfterRun(BrokerModel.Init(capacity, 1, subs), moves, more);
    AllSentAtRest(capacity, subs, moves + more, j, ms);
    assert Reaches(s, more, j, ms);
  }

  // ---------------------------------------------------------------- every stream can be received

  /** Moves after which publisher i has received these fragments as well, the broker is at rest again, and every
      subscriber that was live still is. */
  ghost predicate Takes(s: System, moves: seq<Move>, s': System, i: nat, fragments: seq<string>)
    requires Sane(s) && i < |s.pubs|
  {
    && s' == BrokerModel.Run(s, moves) && SystemInv(s') && AtRest(s')
    && s'.received == s.received[i := s.received[i] + fragments]
    && s'.subs == s.subs && |s'.pumps| == |s.pumps|
    && forall j: nat :: j < |s.pumps| && Live(s.pumps[j]) ==> Live(s'.pumps[j])
  }

  lemma TakesNothing(s: System, i: nat)
    requires SystemInv(s) && AtRest(s) && i < |s.pubs|
    ensures Takes(s, [], s, i, [])
  {
    assert s.received[i] + [] == s.received[i] && s.received[i := s.received[i]] == s.received;
  }

  /** At rest any fragment can be received, and rest be reached again. */
  lemma TakesOne(s: System, i: nat, fragment: string) returns (moves: seq<Move>, s': System)
    requires SystemInv(s) && AtRest(s) && i < |s.pubs|
    ensures Takes(s, moves, s', i, [fragment])
  {
    var m := Receive(i, fragment);
    AdvanceKeeps(s, m);
    var rest;
    rest, s' := ToRest(Advance(s, m));
    RunFirst(s, m, rest);
    moves := [m] + rest;
  }

  lemma TakesMore(s: System, a: seq<Move>, s1: System, b: seq<Move>, s2: System, i: nat, fragments: seq<string>, last: string)
    requires Sane(s) && i < |s.pubs| && Takes(s, a, s1, i, fragments)
    requires i < |s1.pubs| && Takes(s1, b, s2, i, [last])
    ensures Takes(s, a + b, s2, i, fragments + [last])
  {
    RunAfterRun(s, a, b);
    assert s.received[i] + fragments + [last] == s.received[i] + (fragments + [last]);
  }

  lemma {:induction false} TakesAll(s: System, i: nat, fragments: seq<string>) returns (moves: seq<Move>, s': System)
    requires SystemInv(s) && AtRest(s) && i < |s.pubs|
    ensures Takes(s, moves, s', i, fragments)
    decreases |fragments|
  {
    if fragments == [] {
      TakesNothing(s, i);
      moves, s' := [], s;
    } else {
      var init, last := fragments[..|fragments| - 1], fragments[|fragments| - 1];
      var a, s1 := TakesAll(s, i, init);
      var b;
      b, s' := TakesOne(s1, i, last);
      TakesMore(s, a, s1, b, s', i, init, last);
      moves := a + b;
      assert fragments == init + [last];
    }
  }

  ghost predicate AllSent(s: System, fragments: seq<string>, subs: seq<set<string>>, ms: seq<Message>) {
    && s.received == [fragments] && s.subs == subs && |s.pumps| == |subs|
    && forall j: nat :: j < |subs| ==> s.pumps[j].sent == AllBytes(MatchingMessages(subs[j], ms))
  }

  /** Every list of typed messages that does not fill a batch exactly, the last with content, framed and cut in
      any way: there is a run of the broker that receives exactly these fragments and sends every subscriber
      exactly the messages it subscribed to. */
  lemma EveryStreamCanArrive(capacity: nat, subs: seq<set<string>>, fragments: seq<string>, ms: seq<Message>)
    requires capacity >= 1 && Flatten(fragments) == AllBytes(ms)
    requires (forall m :: m in ms ==> PublisherTheorems.Sendable(m)) && PublisherLoss.AllTyped(ms)
    requires ms != [] && ms[|ms| - 1].content != "" && !PublisherLoss.FillsExactly(ms)
    ensures exists moves :: AllSent(After(capacity, 1, subs, moves), fragments, subs, ms)
  {
    var s := BrokerModel.Init(capacity, 1, subs);
    InitSystemInv(capacity, 1, subs);
    var a, s1 := TakesAll(s, 0, fragments);
    var b, s2 := ToIdle(s1, 0);
    RunAfterRun(s, a, b);
    assert [] + fragments == fragments;
    forall j: nat | j < |subs| ensures s2.pumps[j].sent == AllBytes(MatchingMessages(subs[j], ms)) {
      assert Live(s.pumps[j]) && Live(s1.pumps[j]) && Live(s2.pumps[j]);
      AllSentAtRest(capacity, subs, a + b, j, ms);
    }
    assert AllSent(After(capacity, 1, subs, a + b), fragments, subs, ms);
  }
}
