/** From the bytes of a command connection to the subscriptions of the subscribers: splitting
    (server/StringUtils.hpp), commands (server/command/CommandHandler.hpp), subscriptions that wait for
    their subscriber (server/ServerContext.hpp), and the subscriber's table of them
    (server/subscriber/TCPSubscriberHandler.hpp). */
module CommandModel {
  import opened Sequences
  import opened Frames

  // ---------------------------------------------------------------- split

  /** The fields closed by a delimiter, and what follows the last delimiter. */
  datatype Cut = Cut(fields: seq<string>, rest: string)

  function CutAt(s: string, delimiter: char): Cut {
    if s == "" then Cut([], "")
    else
      var c, last := CutAt(s[..|s| - 1], delimiter), s[|s| - 1];
      if last == delimiter then Cut(c.fields + [c.rest], "") else c.(rest := c.rest + [last])
  }

  /** utils::split: a last field that is empty is dropped. */
  function Split(s: string, delimiter: char): seq<string> {
    var c := CutAt(s, delimiter);
    if c.rest == "" then c.fields else c.fields + [c.rest]
  }

  // ---------------------------------------------------------------- commands

  /** One call of addSubscription; also an entry of the list of waiting subscriptions. */
  datatype Subscribe = Subscribe(timeoutMs: nat, name: string, subscriptions: string)

  /** std::stoull, with 0 for a text it refuses. */
  function Timeout(text: string): nat {
    match Stoul(text) case None => 0 case Some(n) => n
  }

  /** `name|subscribe|values|timeout`; anything else has no effect. */
  function Parse(command: string): Option<Subscribe> {
    var v := Split(command, '|');
    if |v| == 4 && v[1] == "subscribe" then Some(Subscribe(Timeout(v[3]), v[0], v[2])) else None
  }

  /** The calls that a list of commands makes. */
  function Calls(commands: seq<string>): seq<Subscribe> {
    if commands == [] then []
    else
      var calls := Calls(commands[..|commands| - 1]);
      match Parse(commands[|commands| - 1])
      case None => calls
      case Some(s) => calls + [s]
  }

  /** A command connection: bytes not yet processed, and all calls so far. */
  datatype Commander = Commander(command: string, calls: seq<Subscribe>)

  const NewCommander: Commander := Commander("", [])

  predicate EndsCommand(s: string) {
    s != "" && s[|s| - 1] == '\r'
  }

  /** onReceiveDataComplete: commands are processed only when the bytes so far end with '\r'. */
  function Receive(c: Commander, bytes: string): Commander {
    var all := c.command + bytes;
    if EndsCommand(all) then Commander("", c.calls + Calls(Split(all[..|all| - 1], '\r')))
    else Commander(all, c.calls)
  }

  function ReceiveAll(c: Commander, fragments: seq<string>): Commander {
    if fragments == [] then c else Receive(ReceiveAll(c, fragments[..|fragments| - 1]), fragments[|fragments| - 1])
  }

  // ---------------------------------------------------------------- the table of a subscriber

  /** addSubscriptions: a value that is already there keeps its timeout. */
  function AddValues(table: map<string, nat>, timeoutMs: nat, values: seq<string>): map<string, nat> {
    if values == [] then table
    else
      var t, last := AddValues(table, timeoutMs, values[..|values| - 1]), values[|values| - 1];
      if last in t then t else t[last := timeoutMs]
  }

  function Add(table: map<string, nat>, s: Subscribe): map<string, nat> {
    AddValues(table, s.timeoutMs, Split(s.subscriptions, ','))
  }

  function AddAll(table: map<string, nat>, ss: seq<Subscribe>): map<string, nat> {
    if ss == [] then table else Add(AddAll(table, ss[..|ss| - 1]), ss[|ss| - 1])
  }

  // ---------------------------------------------------------------- waiting subscriptions

  /** The entries for one name, in order. */
  function For(ss: seq<Subscribe>, name: string): seq<Subscribe> {
    if ss == [] then []
    else For(ss[..|ss| - 1], name) + (if ss[|ss| - 1].name == name then [ss[|ss| - 1]] else [])
  }

  /** An entry whose strings were moved out. */
  function Shell(s: Subscribe): Subscribe {
    Subscribe(s.timeoutMs, "", "")
  }

  /** takePendingSubscriptions: what the list keeps. The entries taken are moved out of first, and only
      then are entries with that name erased, so their shells stay unless the name is empty. */
  function Left(ss: seq<Subscribe>, name: string): seq<Subscribe> {
    if ss == [] then []
    else
      var last := ss[|ss| - 1];
      var moved := if last.name == name then Shell(last) else last;
      Left(ss[..|ss| - 1], name) + (if moved.name == name then [] else [moved])
  }

  // ---------------------------------------------------------------- the broker

  /** A subscriber whose name is known. `isReady`: its acknowledgement was sent and it has taken the
      subscriptions waiting for it. History: the commands for its name that came before its name was
      known, before it was ready, and later. */
  datatype Client = Client(
    name: string,
    isConnected: bool,
    isReady: bool,
    table: map<string, nat>,
    before: seq<Subscribe>,
    during: seq<Subscribe>,
    after: seq<Subscribe>
  )

  /** History: `seen` are all calls of addSubscription so far. */
  datatype Registry = Registry(pending: seq<Subscribe>, clients: seq<Client>, seen: seq<Subscribe>)

  const NewRegistry: Registry := Registry([], [], [])

  predicate Hears(c: Client, name: string) {
    c.isConnected && c.name == name
  }

  predicate Heard(cs: seq<Client>, name: string) {
    exists k :: 0 <= k < |cs| && Hears(cs[k], name)
  }

  function Give(c: Client, s: Subscribe): Client {
    if !Hears(c, s.name) then c
    else if c.isReady then c.(table := Add(c.table, s), after := c.after + [s])
    else c.(table := Add(c.table, s), during := c.during + [s])
  }

  function GiveAll(cs: seq<Client>, s: Subscribe): (r: seq<Client>)
    ensures |r| == |cs| && forall k :: 0 <= k < |cs| ==> r[k] == Give(cs[k], s)
  {
    seq(|cs|, k requires 0 <= k < |cs| => Give(cs[k], s))
  }

  /** addSubscription */
  function Subscribed(r: Registry, s: Subscribe): Registry {
    Registry(if Heard(r.clients, s.name) then r.pending else r.pending + [s], GiveAll(r.clients, s), r.seen + [s])
  }

  function SubscribedAll(r: Registry, ss: seq<Subscribe>): Registry {
    if ss == [] then r else Subscribed(SubscribedAll(r, ss[..|ss| - 1]), ss[|ss| - 1])
  }

  /** onReceiveNameComplete: from now on commands find this client. */
  function Named(r: Registry, name: string): Registry {
    r.(clients := r.clients + [Client(name, true, false, map[], For(r.pending, name), [], [])])
  }

  /** afterSendAckComplete: the client takes what waits for it. */
  function Acknowledged(r: Registry, k: nat): Registry
    requires k < |r.clients|
  {
    var c := r.clients[k];
    r.(pending := Left(r.pending, c.name),
       clients := r.clients[k := c.(isReady := true, table := AddAll(c.table, For(r.pending, c.name)))])
  }

  function Closed(r: Registry, k: nat): Registry
    requires k < |r.clients|
  {
    r.(clients := r.clients[k := r.clients[k].(isConnected := false)])
  }

  datatype Event = Command(s: Subscribe) | NameReceived(name: string) | AckSent(k: nat) | Disconnect(k: nat)

  /** What the handlers are used with: names are not empty, connected subscribers have different names,
      and a subscriber is acknowledged once, while connected. */
  predicate Possible(r: Registry, e: Event) {
    match e
    case Command(s) => s.name != ""
    case NameReceived(name) => name != "" && !Heard(r.clients, name)
    case AckSent(k) => k < |r.clients| && r.clients[k].isConnected && !r.clients[k].isReady
    case Disconnect(k) => k < |r.clients|
  }

  function Step(r: Registry, e: Event): Registry
    requires Possible(r, e)
  {
    match e
    case Command(s) => Subscribed(r, s)
    case NameReceived(name) => Named(r, name)
    case AckSent(k) => Acknowledged(r, k)
    case Disconnect(k) => Closed(r, k)
  }

  /** A run of events; None if one of them cannot happen where it stands. */
  function RunFrom(r: Registry, es: seq<Event>): Option<Registry>
    decreases |es|
  {
    if es == [] then Some(r)
    else
      var q, last := RunFrom(r, es[..|es| - 1]), es[|es| - 1];
      if q.Some? && Possible(q.value, last) then Some(Step(q.value, last)) else None
  }

  predicate Reachable(r: Registry, es: seq<Event>) {
    RunFrom(NewRegistry, es) == Some(r)
  }
}
