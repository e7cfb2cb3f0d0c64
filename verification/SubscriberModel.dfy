/** The send pump of a subscriber connection (server/subscriber/TCPSubscriberHandler.hpp) after its
    handshake: one item being sent, a list of items waiting, and sends that may be partial. */
module SubscriberModel {
  import opened Sequences
  import opened MessageBatches

  datatype Event = Ready | SendData | Disconnected

  /** `current` is what is left of the item being sent, `flight` the bytes of the send the kernel is
      working on, `closed` that the connection is gone. History: the bytes the kernel reported as
      sent and the batches accepted for this subscriber. */
  datatype Pump = Pump(
    event: Event,
    current: string,
    pending: seq<string>,
    flight: Option<string>,
    closed: bool,
    sent: string,
    accepted: seq<string>
  )

  const Idle: Pump := Pump(Ready, "", [], None, false, "", [])

  /** A subscription matches a message type that is a prefix of it. */
  predicate IsSubscribed(subscriptions: set<string>, messageType: string) {
    exists s :: s in subscriptions && messageType <= s
  }

  /** sendCurrentMessage */
  function Send(p: Pump): Pump {
    p.(event := SendData, flight := Some(p.current))
  }

  /** pushMessageBatch */
  function PushBatch(p: Pump, bytes: string): Pump {
    var p1 := p.(accepted := p.accepted + [bytes]);
    if p.current == "" then Send(p1.(current := bytes))
    else p1.(pending := p.pending + [bytes])
  }

  /** What offering a batch does to a client (drainQueue in server/subscriber/SubscriberServer.hpp). */
  function Offered(p: Pump, subscriptions: set<string>, b: Batch): Pump {
    if !p.closed && IsSubscribed(subscriptions, b.msgType) then PushBatch(p, b.bytes) else p
  }

  /** sendNextPendingMessageBatch */
  function SendNext(p: Pump): Pump
    requires p.pending != []
  {
    var p1 := p.(current := p.pending[0], pending := p.pending[1..]);
    if p1.current != "" then Send(p1) else p1
  }

  /** onSendCurrentMessageComplete: the kernel answers the send with a byte count or an error. */
  function Completed(p: Pump, res: int): Pump
    requires p.flight.Some? && res <= |p.flight.value| && |p.flight.value| <= |p.current|
  {
    var p1 := p.(flight := None);
    if res == 0 then p1
    else if res < 0 then p1.(event := Disconnected)
    else
      var p2 := p1.(current := p.current[res..], sent := p.sent + p.flight.value[..res]);
      if p2.current != "" then Send(p2)
      else if p2.pending != [] then SendNext(p2)
      else p2.(event := Ready)
  }

  /** onDisconnected, once the socket is closed. */
  function Closed(p: Pump): Pump {
    p.(closed := true)
  }

  datatype Input = Arrive(bytes: string) | Complete(res: int) | Close

  /** What can happen to a pump: batches arrive while the connection is not closed, an outstanding
      send is answered with at most what was asked for, and a disconnecting socket gets closed. */
  predicate Possible(p: Pump, i: Input) {
    match i
    case Arrive(bytes) => !p.closed && bytes != ""
    case Complete(res) => !p.closed && p.flight.Some? && res <= |p.flight.value| <= |p.current|
    case Close => !p.closed && p.event.Disconnected?
  }

  function Step(p: Pump, i: Input): Pump
    requires Possible(p, i)
  {
    match i
    case Arrive(bytes) => PushBatch(p, bytes)
    case Complete(res) => Completed(p, res)
    case Close => Closed(p)
  }

  /** A run of inputs; None if one of them cannot happen where it stands. */
  function RunFrom(p: Pump, inputs: seq<Input>): Option<Pump>
    decreases |inputs|
  {
    if inputs == [] then Some(p)
    else
      var q := RunFrom(p, inputs[..|inputs| - 1]);
      var last := inputs[|inputs| - 1];
      if q.Some? && Possible(q.value, last) then Some(Step(q.value, last)) else None
  }

  /** The pumps a connection can reach. */
  predicate Reachable(p: Pump, inputs: seq<Input>) {
    RunFrom(Idle, inputs) == Some(p)
  }
}
