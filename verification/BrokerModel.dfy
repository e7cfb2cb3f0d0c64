/** The whole pipeline: any number of publishers, each with its own thread, push their batches through
    the queue; one thread drains it and offers each batch to every subscriber; the kernel answers the
    subscribers' sends. All of it interleaves, one atomic step at a time. */
module BrokerModel {
  import opened MpmcModel
  import opened MessageBatches
  import PublisherModel
  import SubscriberModel

  /** `handed` counts the batches of each publisher for which emplace has been called. History: the
      fragments each publisher has received, and what the draining thread, thread number |pubs|, has
      taken from the queue. */
  datatype System = System(
    queue: State<Batch>,
    pubs: seq<PublisherModel.Publisher>,
    received: seq<seq<string>>,
    handed: seq<nat>,
    pumps: seq<SubscriberModel.Pump>,
    subs: seq<set<string>>,
    delivered: seq<Batch>
  )

  datatype Move =
    | Receive(pub: nat, fragment: string)
    | PublisherMoves(pub: nat)
    | DrainerMoves
    | KernelAnswers(sub: nat, res: int)
    | SocketCloses(sub: nat)

  predicate Sane(s: System) {
    && WellFormed(s.queue)
    && |s.handed| == |s.received| == |s.pubs| && |s.queue.pcs| == |s.pubs| + 1
    && |s.subs| == |s.pumps|
  }

  function Init(capacity: nat, pubs: nat, subs: seq<set<string>>): (s: System)
    requires capacity >= 1
    ensures Sane(s)
  {
    System(MpmcModel.Init(capacity, pubs + 1), seq(pubs, _ => PublisherModel.Start), seq(pubs, _ => []), seq(pubs, _ => 0),
           seq(|subs|, _ => SubscriberModel.Idle), subs, [])
  }

  function OfferToAll(pumps: seq<SubscriberModel.Pump>, subs: seq<set<string>>, b: Batch): (r: seq<SubscriberModel.Pump>)
    requires |subs| == |pumps|
    ensures |r| == |pumps| && forall j :: 0 <= j < |r| ==> r[j] == SubscriberModel.Offered(pumps[j], subs[j], b)
  {
    seq(|pumps|, j requires 0 <= j < |pumps| => SubscriberModel.Offered(pumps[j], subs[j], b))
  }

  /** A publisher's thread is free to receive again when forwardMessage has pushed all its batches. */
  predicate MayReceive(s: System, i: nat)
    requires Sane(s) && i < |s.pubs|
  {
    s.queue.pcs[i].Idle? && s.handed[i] == |s.pubs[i].batcher.pushed|
  }

  function PublisherStep(s: System, i: nat): (s': System)
    requires Sane(s) && i < |s.pubs|
    ensures Sane(s')
  {
    if s.queue.pcs[i].Idle? then
      var pushed := s.pubs[i].batcher.pushed;
      if s.handed[i] < |pushed|
      then s.(queue := Next(s.queue, Call(i, Emplace(pushed[s.handed[i]]))),
              handed := s.handed[i := s.handed[i] + 1])
      else s
    else s.(queue := Next(s.queue, MpmcModel.Step(i)))
  }

  /** drainQueue: try_pop over and over; what it returns is broadcast before the next call. */
  function DrainerStep(s: System): (s': System)
    requires Sane(s)
    ensures Sane(s')
  {
    var t := |s.pubs|;
    var pc := s.queue.pcs[t];
    if pc.Idle? then s.(queue := Next(s.queue, Call(t, TryPop)))
    else
      var s1 := s.(queue := Next(s.queue, MpmcModel.Step(t)));
      if pc.Releasing?
      then s1.(pumps := OfferToAll(s.pumps, s.subs, pc.v), delivered := s.delivered + [pc.v])
      else s1
  }

  function PumpStep(s: System, j: nat, i: SubscriberModel.Input): (s': System)
    requires Sane(s)
    ensures Sane(s')
  {
    if j < |s.pumps| && !i.Arrive? && SubscriberModel.Possible(s.pumps[j], i)
    then s.(pumps := s.pumps[j := SubscriberModel.Step(s.pumps[j], i)])
    else s
  }

  /** A move that is not possible where the system stands changes nothing. */
  function Advance(s: System, m: Move): (s': System)
    requires Sane(s)
    ensures Sane(s')
  {
    match m
    case Receive(i, fragment) =>
      if i < |s.pubs| && MayReceive(s, i)
      then s.(pubs := s.pubs[i := PublisherModel.Feed(s.pubs[i], fragment)],
              received := s.received[i := s.received[i] + [fragment]])
      else s
    case PublisherMoves(i) => if i < |s.pubs| then PublisherStep(s, i) else s
    case DrainerMoves => DrainerStep(s)
    case KernelAnswers(j, res) => PumpStep(s, j, SubscriberModel.Complete(res))
    case SocketCloses(j) => PumpStep(s, j, SubscriberModel.Close)
  }

  function Run(s: System, moves: seq<Move>): (s': System)
    requires Sane(s)
    ensures Sane(s')
    decreases |moves|
  {
    if moves == [] then s else Advance(Run(s, moves[..|moves| - 1]), moves[|moves| - 1])
  }
}
