/** The command connection, the list of waiting subscriptions and the subscriber's table in place
    (server/command/CommandHandler.hpp, server/ServerContext.hpp, server/subscriber/TCPSubscriberHandler.hpp,
    server/StringUtils.hpp). */
module CommandHandlers {
  import opened Frames
  import opened CommandModel
  import SubscriptionTheorems

  /** utils::split: appends the fields of the input to a list. */
  method SplitInto(input: string, before: seq<string>, delimiter: char) returns (strings: seq<string>)
    ensures strings == before + Split(input, delimiter)
  {
    strings := before;
    var buf := "";
    for i := 0 to |input|
      invariant Cut(strings, buf) == Cut(before + CutAt(input[..i], delimiter).fields, CutAt(input[..i], delimiter).rest)
    {
      assert input[..i + 1][..i] == input[..i];
      if input[i] != delimiter {
        buf := buf + [input[i]];
      } else {
        strings := strings + [buf];
        buf := "";
      }
    }
    assert input[..|input|] == input;
    if buf != "" {
      strings := strings + [buf];
    }
  }

  /** The calls a receive makes when the buffer holds these bytes. */
  function Made(buffer: string): seq<Subscribe> {
    if EndsCommand(buffer) then Calls(Split(buffer[..|buffer| - 1], '\r')) else []
  }

  lemma ReceiveIs(c: Commander, bytes: string)
    ensures Receive(c, bytes) ==
            Commander(if EndsCommand(c.command + bytes) then "" else c.command + bytes, c.calls + Made(c.command + bytes))
    ensures Made(c.command + bytes) != [] ==> EndsCommand(c.command + bytes)
  {
  }

  class ServerContext {
    var pendingSubscriptions: seq<Subscribe>

    constructor ()
      ensures pendingSubscriptions == []
    {
      pendingSubscriptions := [];
    }

    method AddPendingSubscriptions(timeoutMs: nat, name: string, subscriptions: string)
      modifies this
      ensures pendingSubscriptions == old(pendingSubscriptions) + [Subscribe(timeoutMs, name, subscriptions)]
    {
      pendingSubscriptions := pendingSubscriptions + [Subscribe(timeoutMs, name, subscriptions)];
    }

    /** takePendingSubscriptions: moves the entries of one name out, then erases by name. */
    method TakePendingSubscriptions(clientName: string) returns (dest: seq<Subscribe>)
      modifies this
      ensures dest == For(old(pendingSubscriptions), clientName)
      ensures pendingSubscriptions == Left(old(pendingSubscriptions), clientName)
    {
      ghost var ss := pendingSubscriptions;
      dest := [];
      for i := 0 to |pendingSubscriptions|
        invariant |pendingSubscriptions| == |ss| && dest == For(ss[..i], clientName)
        invariant forall j :: 0 <= j < |ss| ==>
                    pendingSubscriptions[j] == if j < i && ss[j].name == clientName then Shell(ss[j]) else ss[j]
      {
        assert ss[..i + 1][..i] == ss[..i];
        if pendingSubscriptions[i].name == clientName {
          dest := dest + [pendingSubscriptions[i]];
          pendingSubscriptions := pendingSubscriptions[i := Shell(pendingSubscriptions[i])];
        }
      }
      assert ss[..|ss|] == ss;
      EraseNamed(clientName, ss);
    }

    /** std::erase_if on the name. */
    method EraseNamed(clientName: string, ghost ss: seq<Subscribe>)
      requires |pendingSubscriptions| == |ss|
      requires forall j :: 0 <= j < |ss| ==>
                 pendingSubscriptions[j] == if ss[j].name == clientName then Shell(ss[j]) else ss[j]
      modifies this
      ensures pendingSubscriptions == Left(ss, clientName)
    {
      var kept := [];
      for i := 0 to |pendingSubscriptions|
        invariant kept == Left(ss[..i], clientName)
      {
        assert ss[..i + 1][..i] == ss[..i];
        if pendingSubscriptions[i].name != clientName {
          kept := kept + [pendingSubscriptions[i]];
        }
      }
      assert ss[..|ss|] == ss;
      pendingSubscriptions := kept;
    }
  }

  class SubscriberClient {
    const clientName: string
    var isDisconnected: bool
    var isReady: bool
    var subscriptions: map<string, nat>
    ghost const before: seq<Subscribe>
    ghost var during: seq<Subscribe>
    ghost var after: seq<Subscribe>

    ghost function Abstract(): Client
      reads this
    {
      Client(clientName, !isDisconnected, isReady, subscriptions, before, during, after)
    }

    /** A client whose name has just been received. */
    constructor (clientName: string, context: ServerContext)
      ensures Abstract() == Client(clientName, true, false, map[], For(context.pendingSubscriptions, clientName), [], [])
    {
      this.clientName, isDisconnected, isReady, subscriptions := clientName, false, false, map[];
      before, during, after := For(context.pendingSubscriptions, clientName), [], [];
    }

    /** addSubscriptions: only values that are not there yet. */
    method AddSubscriptions(timeoutMs: nat, subscriptionsCsv: string)
      modifies this`subscriptions
      ensures subscriptions == AddValues(old(subscriptions), timeoutMs, Split(subscriptionsCsv, ','))
      ensures subscriptions.Keys == old(subscriptions).Keys + set v | v in Split(subscriptionsCsv, ',')
      ensures forall v :: v in subscriptions ==>
                subscriptions[v] == if v in old(subscriptions) then old(subscriptions)[v] else timeoutMs
    {
      var values := SplitInto(subscriptionsCsv, [], ',');
      for i := 0 to |values|
        invariant subscriptions == AddValues(old(subscriptions), timeoutMs, values[..i])
      {
        assert values[..i + 1][..i] == values[..i];
        if values[i] !in subscriptions {
          subscriptions := subscriptions[values[i] := timeoutMs];
        }
      }
      assert values[..|values|] == values;
      SubscriptionTheorems.AddValuesExactly(old(subscriptions), timeoutMs, values);
    }

    /** What addSubscription does for one client. */
    method Take(s: Subscribe) returns (found: bool)
      modifies this`subscriptions, this`during, this`after
      ensures found == Hears(old(Abstract()), s.name)
      ensures Abstract() == Give(old(Abstract()), s)
    {
      found := clientName == s.name && !isDisconnected;
      if found {
        AddSubscriptions(s.timeoutMs, s.subscriptions);
        if isReady {
          after := after + [s];
        } else {
          during := during + [s];
        }
      }
    }

    /** afterSendAckComplete: takes the subscriptions that wait for this name. */
    method AfterSendAckComplete(context: ServerContext)
      modifies this`isReady, this`subscriptions, context
      ensures context.pendingSubscriptions == Left(old(context.pendingSubscriptions), clientName)
      ensures Abstract() == old(Abstract()).(isReady := true,
                              table := AddAll(old(subscriptions), For(old(context.pendingSubscriptions), clientName)))
    {
      isReady := true;
      var taken := context.TakePendingSubscriptions(clientName);
      AddTaken(taken);
    }

    method AddTaken(taken: seq<Subscribe>)
      modifies this`subscriptions
      ensures subscriptions == AddAll(old(subscriptions), taken)
    {
      for i := 0 to |taken|
        invariant subscriptions == AddAll(old(subscriptions), taken[..i])
      {
        assert taken[..i + 1][..i] == taken[..i];
        AddSubscriptions(taken[i].timeoutMs, taken[i].subscriptions);
      }
      assert taken[..|taken|] == taken;
    }
  }

  lemma ProcessedNext(r: Registry, commands: seq<string>, i: nat)
    requires i < |commands|
    ensures Calls(commands[..i + 1]) ==
            match Parse(commands[i]) case None => Calls(commands[..i]) case Some(s) => Calls(commands[..i]) + [s]
    ensures SubscribedAll(r, Calls(commands[..i + 1])) ==
            match Parse(commands[i])
            case None => SubscribedAll(r, Calls(commands[..i]))
            case Some(s) => Subscribed(SubscribedAll(r, Calls(commands[..i])), s)
  {
    assert commands[..i + 1][..i] == commands[..i];
    var calls := Calls(commands[..i]);
    match Parse(commands[i])
    case None =>
    case Some(s) => assert (calls + [s])[..|calls|] == calls;
  }

  class CommandHandler {
    var command: string
    const context: ServerContext
    const clients: seq<SubscriberClient>
    ghost var calls: seq<Subscribe>

    ghost predicate Valid() {
      forall i, j :: 0 <= i < j < |clients| ==> clients[i] != clients[j]
    }

    ghost function Abstract(): Commander
      reads this
    {
      Commander(command, calls)
    }

    ghost function Clients(n: nat): (cs: seq<Client>)
      reads clients
      requires n <= |clients|
      ensures |cs| == n && forall i :: 0 <= i < n ==> cs[i] == clients[i].Abstract()
    {
      seq(n, i requires 0 <= i < n reads clients => clients[i].Abstract())
    }

    /** The broker as this connection finds it; it has made the calls so far. */
    ghost function Broker(): Registry
      reads this`calls, context, clients
    {
      Registry(context.pendingSubscriptions, Clients(|clients|), calls)
    }

    constructor (context: ServerContext, clients: seq<SubscriberClient>)
      ensures this.context == context && this.clients == clients && Abstract() == NewCommander
    {
      this.context, this.clients := context, clients;
      command, calls := "", [];
    }

    /** The loop of addSubscription over the connected clients. */
    method GiveToClients(s: Subscribe) returns (wasFound: bool)
      requires Valid()
      modifies clients
      ensures wasFound == Heard(old(Clients(|clients|)), s.name)
      ensures Clients(|clients|) == GiveAll(old(Clients(|clients|)), s)
    {
      wasFound := false;
      ghost var cs := Clients(|clients|);
      for i := 0 to |clients|
        invariant wasFound == exists k :: 0 <= k < i && Hears(cs[k], s.name)
        invariant forall k :: 0 <= k < |clients| ==> clients[k].Abstract() == if k < i then Give(cs[k], s) else cs[k]
      {
        var found := clients[i].Take(s);
        wasFound := wasFound || found;
      }
    }

    /** addSubscription: to every connected client of that name, or to the list of waiting ones. */
    method AddSubscription(s: Subscribe)
      requires Valid()
      modifies this`calls, context, clients
      ensures Broker() == Subscribed(old(Broker()), s) && calls == old(calls) + [s]
    {
      var wasFound := GiveToClients(s);
      if !wasFound {
        context.AddPendingSubscriptions(s.timeoutMs, s.name, s.subscriptions);
      }
      calls := calls + [s];
    }

    /** One command of processCommand. */
    method ProcessOne(command: string)
      requires Valid()
      modifies this`calls, context, clients
      ensures match Parse(command)
              case None => Broker() == old(Broker()) && calls == old(calls)
              case Some(s) => Broker() == Subscribed(old(Broker()), s) && calls == old(calls) + [s]
    {
      var values := SplitInto(command, [], '|');
      if |values| == 4 {
        var timeoutMs := 0;
        match Stoul(values[3]) {
          case Some(n) => timeoutMs := n;
          case None =>
        }
        if values[1] == "subscribe" {
          AddSubscription(Subscribe(timeoutMs, values[0], values[2]));
        }
      }
    }

    /** processCommand */
    method ProcessCommand(commands: string)
      requires Valid()
      modifies this`calls, context, clients
      ensures calls == old(calls) + Calls(Split(commands, '\r'))
      ensures Broker() == SubscribedAll(old(Broker()), Calls(Split(commands, '\r')))
    {
      var commandValues := SplitInto(commands, [], '\r');
      for i := 0 to |commandValues|
        invariant calls == old(calls) + Calls(commandValues[..i])
        invariant Broker() == SubscribedAll(old(Broker()), Calls(commandValues[..i]))
      {
        ProcessOne(commandValues[i]);
        ProcessedNext(old(Broker()), commandValues, i);
      }
      assert commandValues[..|commandValues|] == commandValues;
    }

    /** A buffer that ends a command is processed without its last byte, and emptied. */
    method ProcessBuffer()
      requires Valid() && EndsCommand(command)
      modifies this`command, this`calls, context, clients
      ensures command == "" && calls == old(calls) + Made(old(command))
      ensures Broker() == SubscribedAll(old(Broker()), Made(old(command)))
    {
      var commands := command[..|command| - 1];
      ProcessCommand(commands);
      command := "";
    }

    /** command.append */
    method Buffer(bytes: string)
      modifies this`command
      ensures command == old(command) + bytes && Broker() == old(Broker()) && calls == old(calls)
    {
      command := command + bytes;
    }

    /** onReceiveDataComplete with the bytes of one receive. Returns whether an acknowledgement follows. */
    method OnReceiveDataComplete(bytes: string) returns (acknowledges: bool)
      requires Valid() && bytes != ""
      modifies this`command, this`calls, context, clients
      ensures Abstract() == Receive(old(Abstract()), bytes)
      ensures acknowledges == EndsCommand(old(command) + bytes)
      ensures Broker() == SubscribedAll(old(Broker()), Made(old(command) + bytes))
    {
      ReceiveIs(Abstract(), bytes);
      Buffer(bytes);
      acknowledges := command[|command| - 1] == '\r';
      if acknowledges {
        ProcessBuffer();
      }
    }
  }
}
