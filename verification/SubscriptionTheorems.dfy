/** What subscribing guarantees over every run of commands, connections, acknowledgements and
    disconnections: every command reaches one subscriber once, and when the order of subscribing and
    connecting makes no difference. */
module SubscriptionTheorems {
  import opened Sequences
  import opened CommandModel

  // ---------------------------------------------------------------- tables

  /** The table that subscriptions build from nothing. */
  function Table(ss: seq<Subscribe>): map<string, nat> {
    AddAll(map[], ss)
  }

  /** Adding values to a table: it has all of them then, those that were there keep their timeout, and the others
      get the new one. */
  lemma {:induction false} AddValuesExactly(table: map<string, nat>, timeoutMs: nat, values: seq<string>)
    ensures AddValues(table, timeoutMs, values).Keys == table.Keys + (set v | v in values)
    ensures forall v :: v in AddValues(table, timeoutMs, values) ==>
              AddValues(table, timeoutMs, values)[v] == if v in table then table[v] else timeoutMs
  {
    if values != [] {
      var init, last := values[..|values| - 1], values[|values| - 1];
      AddValuesExactly(table, timeoutMs, init);
      assert values == init + [last];
    }
  }

  /** Subscription k is the first of the list for this value. */
  predicate FirstFor(ss: seq<Subscribe>, k: nat, v: string) {
    && k < |ss| && v in Split(ss[k].subscriptions, ',')
    && forall j :: 0 <= j < k ==> v !in Split(ss[j].subscriptions, ',')
  }

  /** A table has exactly the values some subscription names, each with the timeout of the first that does. */
  lemma {:induction false} TableExactly(ss: seq<Subscribe>, v: string)
    ensures v in Table(ss) <==> exists k :: 0 <= k < |ss| && v in Split(ss[k].subscriptions, ',')
    ensures forall k: nat :: FirstFor(ss, k, v) ==> v in Table(ss) && Table(ss)[v] == ss[k].timeoutMs
  {
    if ss != [] {
      var init, last := ss[..|ss| - 1], ss[|ss| - 1];
      TableExactly(init, v);
      AddValuesExactly(Table(init), last.timeoutMs, Split(last.subscriptions, ','));
      assert forall k :: 0 <= k < |init| ==> init[k] == ss[k];
      forall k: nat | FirstFor(ss, k, v) ensures v in Table(ss) && Table(ss)[v] == ss[k].timeoutMs {
        assert k < |init| ==> FirstFor(init, k, v);
      }
    }
  }

  lemma {:induction false} AddValuesOver(table: map<string, nat>, timeoutMs: nat, values: seq<string>)
    ensures AddValues(table, timeoutMs, values) == AddValues(map[], timeoutMs, values) + table
  {
    if values != [] {
      AddValuesOver(table, timeoutMs, values[..|values| - 1]);
    }
  }

  lemma {:induction false} AddAllOver(table: map<string, nat>, ss: seq<Subscribe>)
    ensures AddAll(table, ss) == Table(ss) + table
  {
    if ss != [] {
      var init, last := ss[..|ss| - 1], ss[|ss| - 1];
      var values := Split(last.subscriptions, ',');
      AddAllOver(table, init);
      AddValuesOver(AddAll(table, init), last.timeoutMs, values);
      AddValuesOver(Table(init), last.timeoutMs, values);
    }
  }

  lemma {:induction false} AddAllConcat(table: map<string, nat>, a: seq<Subscribe>, b: seq<Subscribe>)
    ensures AddAll(table, a + b) == AddAll(AddAll(table, a), b)
    decreases |b|
  {
    if b == [] {
      assert a + b == a;
    } else {
      AddAllConcat(table, a, b[..|b| - 1]);
      assert (a + b)[..|a + b| - 1] == a + b[..|b| - 1];
    }
  }

  lemma AddAllAppend(table: map<string, nat>, ss: seq<Subscribe>, s: Subscribe)
    ensures AddAll(table, ss + [s]) == Add(AddAll(table, ss), s)
  {
    assert (ss + [s])[..|ss|] == ss;
  }

  /** Of two groups of subscriptions the first decides. */
  lemma FirstWins(a: seq<Subscribe>, b: seq<Subscribe>)
    ensures Table(a + b) == Table(b) + Table(a)
  {
    AddAllConcat(map[], a, b);
    AddAllOver(Table(a), b);
  }

  /** Whether two groups of subscriptions give a value different timeouts. */
  ghost predicate Agree(a: seq<Subscribe>, b: seq<Subscribe>) {
    forall v :: v in Table(a) && v in Table(b) ==> Table(a)[v] == Table(b)[v]
  }

  /** The table of three groups: earlier groups decide. */
  lemma ThreeGroups(a: seq<Subscribe>, b: seq<Subscribe>, c: seq<Subscribe>)
    ensures Table(a + b + c) == Table(c) + (Table(b) + Table(a))
  {
    FirstWins(a, b);
    FirstWins(a + b, c);
  }

  /** Two groups can change places exactly if they agree. The values are the same in any case. */
  lemma SwapExactly(a: seq<Subscribe>, b: seq<Subscribe>, c: seq<Subscribe>)
    ensures Table(b + a + c).Keys == Table(a + b + c).Keys
    ensures Table(b + a + c) == Table(a + b + c) <==> Agree(a, b)
  {
    ThreeGroups(a, b, c);
    ThreeGroups(b, a, c);
    var x, y := Table(a + b + c), Table(b + a + c);
    if x == y {
      forall v | v in Table(a) && v in Table(b) ensures Table(a)[v] == Table(b)[v] {
        assert x[v] == Table(a)[v] && y[v] == Table(b)[v];
      }
    }
  }

  // ---------------------------------------------------------------- waiting subscriptions

  lemma ForAppend(ss: seq<Subscribe>, s: Subscribe, name: string)
    ensures For(ss + [s], name) == For(ss, name) + (if s.name == name then [s] else [])
  {
    assert (ss + [s])[..|ss|] == ss;
  }

  lemma {:induction false} ForConcat(a: seq<Subscribe>, b: seq<Subscribe>, name: string)
    ensures For(a + b, name) == For(a, name) + For(b, name)
    decreases |b|
  {
    if b == [] {
      assert a + b == a;
    } else {
      ForConcat(a, b[..|b| - 1], name);
      assert (a + b)[..|a + b| - 1] == a + b[..|b| - 1];
    }
  }

  function Moved(s: Subscribe, name: string): Subscribe {
    if s.name == name then Shell(s) else s
  }

  lemma LeftAppend(ss: seq<Subscribe>, s: Subscribe, name: string)
    ensures Left(ss + [s], name) == if Moved(s, name).name == name then Left(ss, name) else Left(ss, name) + [Moved(s, name)]
  {
    assert (ss + [s])[..|ss|] == ss;
  }

  /** What was taken is not there a second time, and nobody else's entries are touched. */
  lemma {:induction false} TakenOnce(ss: seq<Subscribe>, name: string, other: string)
    ensures For(Left(ss, name), name) == []
    ensures other != name && other != "" ==> For(Left(ss, name), other) == For(ss, other)
  {
    if ss != [] {
      var init, last := ss[..|ss| - 1], ss[|ss| - 1];
      assert ss == init + [last];
      TakenOnce(init, name, other);
      LeftAppend(init, last, name);
      ForAppend(init, last, other);
      ForAppend(Left(init, name), Moved(last, name), name);
      ForAppend(Left(init, name), Moved(last, name), other);
    }
  }

  /** What the list is after a taking: every entry of that name is still there without its strings, and the others are
      as they were. */
  lemma {:induction false} LeavesShells(ss: seq<Subscribe>, name: string)
    requires name != ""
    ensures |Left(ss, name)| == |ss|
    ensures forall i :: 0 <= i < |ss| ==>
              Left(ss, name)[i] == if ss[i].name == name then Subscribe(ss[i].timeoutMs, "", "") else ss[i]
  {
    if ss != [] {
      LeavesShells(ss[..|ss| - 1], name);
    }
  }

  lemma ShellIsInert(table: map<string, nat>, s: Subscribe)
    ensures Add(table, Shell(s)) == table
  {
    assert CutAt("", ',') == Cut([], "");
  }

  lemma AddIfNamed(table: map<string, nat>, ss: seq<Subscribe>, s: Subscribe)
    ensures AddAll(table, For(ss + [s], "")) ==
            if s.name == "" then Add(AddAll(table, For(ss, "")), s) else AddAll(table, For(ss, ""))
  {
    ForAppend(ss, s, "");
    if s.name == "" {
      AddAllAppend(table, For(ss, ""), s);
    } else {
      assert For(ss, "") + [] == For(ss, "");
    }
  }

  lemma ShellNext(left: seq<Subscribe>, s: Subscribe, name: string, table: map<string, nat>)
    requires name != ""
    ensures var left' := if Moved(s, name).name == name then left else left + [Moved(s, name)];
            var before := AddAll(table, For(left, ""));
            AddAll(table, For(left', "")) == if s.name == "" then Add(before, s) else before
  {
    AddIfNamed(table, left, Moved(s, name));
    ShellIsInert(AddAll(table, For(left, "")), s);
  }

  /** The shells left behind are inert: they add nothing to any table. */
  lemma {:induction false} ShellsAreInert(ss: seq<Subscribe>, name: string, table: map<string, nat>)
    requires name != ""
    ensures AddAll(table, For(Left(ss, name), "")) == AddAll(table, For(ss, ""))
  {
    if ss != [] {
      var init, last := ss[..|ss| - 1], ss[|ss| - 1];
      assert ss == init + [last];
      ShellsAreInert(init, name, table);
      LeftAppend(init, last, name);
      AddIfNamed(table, init, last);
      ShellNext(Left(init, name), last, name, table);
    }
  }

  // ---------------------------------------------------------------- what every step keeps

  predicate DistinctNames(cs: seq<Client>) {
    forall j, k :: 0 <= j < k < |cs| && cs[j].isConnected && cs[k].isConnected ==> cs[j].name != cs[k].name
  }

  /** The commands a client has been given, in the order they were applied. */
  function Applied(c: Client): seq<Subscribe> {
    if c.isReady then c.during + c.before + c.after else c.during
  }

  predicate ClientOk(pending: seq<Subscribe>, c: Client) {
    && c.name != "" && c.table == Table(Applied(c))
    && (!c.isReady ==> c.after == [])
    && (c.isConnected ==> For(pending, c.name) == if c.isReady then [] else c.before)
  }

  predicate RegistryInv(r: Registry) {
    DistinctNames(r.clients) && forall k :: 0 <= k < |r.clients| ==> ClientOk(r.pending, r.clients[k])
  }

  lemma GiveOk(pending: seq<Subscribe>, c: Client, s: Subscribe, pending': seq<Subscribe>)
    requires ClientOk(pending, c)
    requires c.isConnected ==> For(pending', c.name) == For(pending, c.name)
    ensures ClientOk(pending', Give(c, s))
    ensures Applied(Give(c, s)) == if Hears(c, s.name) then Applied(c) + [s] else Applied(c)
  {
    if Hears(c, s.name) {
      AddAllAppend(map[], Applied(c), s);
      assert c.during + c.before + (c.after + [s]) == c.during + c.before + c.after + [s];
    }
  }

  lemma SubscribedKeeps(r: Registry, s: Subscribe)
    requires RegistryInv(r)
    ensures RegistryInv(Subscribed(r, s))
  {
    var r' := Subscribed(r, s);
    forall k | 0 <= k < |r.clients| ensures ClientOk(r'.pending, r'.clients[k]) {
      ForAppend(r.pending, s, r.clients[k].name);
      GiveOk(r.pending, r.clients[k], s, r'.pending);
    }
  }

  lemma AckKeeps(r: Registry, k: nat)
    requires RegistryInv(r) && Possible(r, AckSent(k))
    ensures RegistryInv(Acknowledged(r, k))
    ensures Applied(Acknowledged(r, k).clients[k]) == Applied(r.clients[k]) + For(r.pending, r.clients[k].name)
  {
    var c, r' := r.clients[k], Acknowledged(r, k);
    AddAllConcat(map[], c.during, c.before);
    assert c.during + c.before + [] == c.during + c.before;
    forall j | 0 <= j < |r.clients| ensures ClientOk(r'.pending, r'.clients[j]) {
      TakenOnce(r.pending, c.name, r.clients[j].name);
    }
  }

  lemma StepKeeps(r: Registry, e: Event)
    requires RegistryInv(r) && Possible(r, e)
    ensures RegistryInv(Step(r, e))
  {
    match e
    case Command(s) => SubscribedKeeps(r, s);
    case AckSent(k) => AckKeeps(r, k);
    case NameReceived(name) =>
      forall k | 0 <= k < |r.clients| && r.clients[k].isConnected ensures r.clients[k].name != name {
        assert !Hears(r.clients[k], name);
      }
    case Disconnect(_) =>
  }

  /** Whom a command reaches: the connected subscribers of its name, whose tables take its values; if there are
      none it waits. Nobody else changes. */
  lemma CommandReaches(r: Registry, s: Subscribe)
    ensures var r' := Subscribed(r, s);
            && |r'.clients| == |r.clients|
            && (forall k :: 0 <= k < |r.clients| ==>
                  if r.clients[k].isConnected && r.clients[k].name == s.name
                  then r'.clients[k].table == AddValues(r.clients[k].table, s.timeoutMs, Split(s.subscriptions, ','))
                       && r'.clients[k].isConnected && r'.clients[k].name == s.name
                  else r'.clients[k] == r.clients[k])
            && r'.pending == r.pending +
                 if exists k :: 0 <= k < |r.clients| && r.clients[k].isConnected && r.clients[k].name == s.name then [] else [s]
  {
    if Heard(r.clients, s.name) {
      var k :| 0 <= k < |r.clients| && Hears(r.clients[k], s.name);
      assert r.pending + [] == r.pending;
    } else {
      assert forall k :: 0 <= k < |r.clients| ==> !Hears(r.clients[k], s.name);
    }
  }

  /** A subscriber that has disconnected is never changed again. */
  lemma {:induction false} GoneForGood(r: Registry, es: seq<Event>, r': Registry, k: nat)
    requires RunFrom(r, es) == Some(r') && k < |r.clients| && !r.clients[k].isConnected
    ensures k < |r'.clients| && r'.clients[k] == r.clients[k]
    decreases |es|
  {
    if es != [] {
      GoneForGood(r, es[..|es| - 1], RunFrom(r, es[..|es| - 1]).value, k);
    }
  }

  lemma {:induction false} RunKeeps(r: Registry, es: seq<Event>)
    requires Reachable(r, es)
    ensures RegistryInv(r)
    decreases |es|
  {
    if es != [] {
      var q := RunFrom(NewRegistry, es[..|es| - 1]).value;
      RunKeeps(q, es[..|es| - 1]);
      StepKeeps(q, es[|es| - 1]);
    }
  }

  // ---------------------------------------------------------------- each command reaches one subscriber once

  /** How often a command is in a list. */
  function Count(ss: seq<Subscribe>, s: Subscribe): nat {
    if ss == [] then 0 else Count(ss[..|ss| - 1], s) + (if ss[|ss| - 1] == s then 1 else 0)
  }

  lemma CountAppend(ss: seq<Subscribe>, x: Subscribe, s: Subscribe)
    ensures Count(ss + [x], s) == Count(ss, s) + (if x == s then 1 else 0)
  {
    assert (ss + [x])[..|ss|] == ss;
  }

  lemma {:induction false} CountConcat(a: seq<Subscribe>, b: seq<Subscribe>, s: Subscribe)
    ensures Count(a + b, s) == Count(a, s) + Count(b, s)
    decreases |b|
  {
    if b == [] {
      assert a + b == a;
    } else {
      CountConcat(a, b[..|b| - 1], s);
      assert (a + b)[..|a + b| - 1] == a + b[..|b| - 1];
    }
  }

  function GivenTo(c: Client, s: Subscribe): nat {
    if c.name == s.name then Count(Applied(c), s) else 0
  }

  /** How often a command was applied to clients of its name. */
  function Given(cs: seq<Client>, s: Subscribe): nat {
    if cs == [] then 0 else Given(cs[..|cs| - 1], s) + GivenTo(cs[|cs| - 1], s)
  }

  lemma {:induction false} GivenUpdate(cs: seq<Client>, k: nat, c: Client, s: Subscribe)
    requires k < |cs|
    ensures Given(cs[k := c], s) + GivenTo(cs[k], s) == Given(cs, s) + GivenTo(c, s)
  {
    var init := cs[..|cs| - 1];
    if k == |init| {
      assert cs[k := c][..k] == init;
    } else {
      GivenUpdate(init, k, c, s);
      assert cs[k := c][..|cs| - 1] == init[k := c];
    }
  }

  lemma NobodyGains(cs: seq<Client>, s: Subscribe)
    requires !Heard(cs, s.name)
    ensures GiveAll(cs, s) == cs
  {
    forall k | 0 <= k < |cs| ensures GiveAll(cs, s)[k] == cs[k] {
      assert !Hears(cs[k], s.name);
    }
  }

  /** After a subscriber disconnects, commands for its name wait, and a subscriber of that name can connect again. */
  lemma LateCommandsWait(r: Registry, es: seq<Event>, k: nat, s: Subscribe)
    requires Reachable(r, es) && k < |r.clients| && r.clients[k].isConnected && s.name == r.clients[k].name
    ensures Possible(r, Disconnect(k))
    ensures var r' := Step(r, Disconnect(k));
            && Possible(r', NameReceived(s.name)) && Possible(r', Command(s))
            && Step(r', Command(s)).pending == r'.pending + [s] && Step(r', Command(s)).clients == r'.clients
  {
    RunKeeps(r, es);
    assert ClientOk(r.pending, r.clients[k]);
    var r' := Step(r, Disconnect(k));
    forall j | 0 <= j < |r'.clients| ensures !Hears(r'.clients[j], s.name) {
      assert j < k || j == k || k < j;
    }
    NobodyGains(r'.clients, s);
  }

  /** With different names, a command changes one client. */
  lemma OneGains(cs: seq<Client>, s: Subscribe) returns (k: nat)
    requires DistinctNames(cs) && Heard(cs, s.name)
    ensures k < |cs| && Hears(cs[k], s.name) && GiveAll(cs, s) == cs[k := Give(cs[k], s)]
  {
    k :| 0 <= k < |cs| && Hears(cs[k], s.name);
  }

  /** Every command is waiting, or was applied to a client of its name: as often as it was seen. */
  predicate Balanced(r: Registry, s: Subscribe) {
    Count(For(r.seen, s.name), s) == Count(For(r.pending, s.name), s) + Given(r.clients, s)
  }

  lemma CountForAppend(ss: seq<Subscribe>, x: Subscribe, s: Subscribe)
    ensures Count(For(ss + [x], s.name), s) == Count(For(ss, s.name), s) + (if x == s then 1 else 0)
  {
    ForAppend(ss, x, s.name);
    CountAppend(For(ss, s.name), x, s);
    assert For(ss, s.name) + [] == For(ss, s.name);
  }

  lemma SubscribedBalances(r: Registry, x: Subscribe, s: Subscribe)
    requires RegistryInv(r) && Balanced(r, s)
    ensures Balanced(Subscribed(r, x), s)
  {
    CountForAppend(r.seen, x, s);
    if Heard(r.clients, x.name) {
      var k := OneGains(r.clients, x);
      var c := r.clients[k];
      GivenUpdate(r.clients, k, Give(c, x), s);
      GiveOk(r.pending, c, x, r.pending);
      CountAppend(Applied(c), x, s);
    } else {
      CountForAppend(r.pending, x, s);
      NobodyGains(r.clients, x);
    }
  }

  lemma AckBalances(r: Registry, k: nat, s: Subscribe)
    requires RegistryInv(r) && Possible(r, AckSent(k)) && Balanced(r, s) && s.name != ""
    ensures Balanced(Acknowledged(r, k), s)
  {
    var c := r.clients[k];
    AckKeeps(r, k);
    TakenOnce(r.pending, c.name, s.name);
    GivenUpdate(r.clients, k, Acknowledged(r, k).clients[k], s);
    CountConcat(Applied(c), For(r.pending, c.name), s);
  }

  lemma NamedBalances(r: Registry, n: string, s: Subscribe)
    requires Balanced(r, s)
    ensures Balanced(Named(r, n), s)
  {
    assert Named(r, n).clients[..|r.clients|] == r.clients;
  }

  lemma ClosedBalances(r: Registry, k: nat, s: Subscribe)
    requires k < |r.clients| && Balanced(r, s)
    ensures Balanced(Closed(r, k), s)
  {
    GivenUpdate(r.clients, k, Closed(r, k).clients[k], s);
  }

  lemma StepBalances(r: Registry, e: Event, s: Subscribe)
    requires RegistryInv(r) && Possible(r, e) && Balanced(r, s) && s.name != ""
    ensures Balanced(Step(r, e), s)
  {
    match e
    case Command(x) => SubscribedBalances(r, x, s);
    case AckSent(k) => AckBalances(r, k, s);
    case NameReceived(n) => NamedBalances(r, n, s);
    case Disconnect(k) => ClosedBalances(r, k, s);
  }

  /** No command is lost, and none is applied twice, in any run. */
  lemma {:induction false} AppliedOnce(r: Registry, es: seq<Event>, s: Subscribe)
    requires Reachable(r, es) && s.name != ""
    ensures Balanced(r, s)
    decreases |es|
  {
    if es != [] {
      var q := RunFrom(NewRegistry, es[..|es| - 1]).value;
      AppliedOnce(q, es[..|es| - 1], s);
      RunKeeps(q, es[..|es| - 1]);
      StepBalances(q, es[|es| - 1], s);
    }
  }

  // ---------------------------------------------------------------- the order of subscribing and connecting

  predicate Nobody(cs: seq<Client>, name: string) {
    forall j :: 0 <= j < |cs| ==> cs[j].name != name
  }

  /** The only client its name ever had. */
  predicate Alone(cs: seq<Client>, k: nat)
    requires k < |cs|
  {
    forall j :: 0 <= j < |cs| && j != k ==> cs[j].name != cs[k].name
  }

  function History(c: Client): seq<Subscribe> {
    c.before + c.during + c.after
  }

  predicate TellsHistory(r: Registry, k: nat)
    requires k < |r.clients|
  {
    var c := r.clients[k];
    c.isConnected && Alone(r.clients, k) ==> History(c) == For(r.seen, c.name)
  }

  predicate InOrder(r: Registry, name: string) {
    && (Nobody(r.clients, name) ==> For(r.pending, name) == For(r.seen, name))
    && forall k :: 0 <= k < |r.clients| && r.clients[k].name == name ==> TellsHistory(r, k)
  }

  lemma GiveHistory(c: Client, s: Subscribe)
    requires !c.isReady ==> c.after == []
    ensures History(Give(c, s)) == if Hears(c, s.name) then History(c) + [s] else History(c)
  {
    assert c.before + c.during + (c.after + [s]) == History(c) + [s];
    if !c.isReady {
      assert c.before + (c.during + [s]) + [] == c.before + c.during + [] + [s];
    }
  }

  lemma AloneStays(cs: seq<Client>, s: Subscribe, k: nat)
    requires k < |cs|
    ensures Alone(GiveAll(cs, s), k) ==> Alone(cs, k)
  {
    forall j | 0 <= j < |cs| ensures GiveAll(cs, s)[j].name == cs[j].name {
    }
  }

  lemma SubscribedTells(r: Registry, s: Subscribe, k: nat)
    requires RegistryInv(r) && k < |r.clients| && TellsHistory(r, k)
    ensures TellsHistory(Subscribed(r, s), k)
  {
    var c := r.clients[k];
    assert ClientOk(r.pending, c);
    GiveHistory(c, s);
    ForAppend(r.seen, s, c.name);
    AloneStays(r.clients, s, k);
  }

  lemma SubscribedInOrder(r: Registry, s: Subscribe, name: string)
    requires RegistryInv(r) && InOrder(r, name)
    ensures InOrder(Subscribed(r, s), name)
  {
    var r' := Subscribed(r, s);
    forall k | 0 <= k < |r'.clients| && r'.clients[k].name == name ensures TellsHistory(r', k) {
      assert r.clients[k].name == name;
      SubscribedTells(r, s, k);
    }
    if Nobody(r'.clients, name) {
      forall j | 0 <= j < |r.clients| ensures r.clients[j].name != name {
        assert r'.clients[j].name == r.clients[j].name;
      }
      ForAppend(r.seen, s, name);
      ForAppend(r.pending, s, name);
    }
  }

  lemma NamedInOrder(r: Registry, n: string, name: string)
    requires InOrder(r, name) && Possible(r, NameReceived(n))
    ensures InOrder(Named(r, n), name)
  {
    var r' := Named(r, n);
    assert Nobody(r'.clients, name) ==> Nobody(r.clients, name) by {
      assert forall j :: 0 <= j < |r.clients| ==> r'.clients[j] == r.clients[j];
    }
    forall k | 0 <= k < |r'.clients| && r'.clients[k].name == name ensures TellsHistory(r', k) {
      if k < |r.clients| {
        assert TellsHistory(r, k);
        assert !Hears(r.clients[k], n);
        assert Alone(r'.clients, k) ==> Alone(r.clients, k) by {
          assert forall j :: 0 <= j < |r.clients| ==> r'.clients[j] == r.clients[j];
        }
      } else if Alone(r'.clients, k) {
        assert forall j :: 0 <= j < |r.clients| ==> r'.clients[j] == r.clients[j];
        assert Nobody(r.clients, name);
        assert For(r.pending, n) + [] + [] == For(r.pending, n);
      }
    }
  }

  lemma ClientsInOrder(r: Registry, r': Registry, name: string)
    requires InOrder(r, name) && r'.seen == r.seen && |r'.clients| == |r.clients|
    requires For(r'.pending, name) == For(r.pending, name) || !Nobody(r.clients, name)
    requires forall k :: 0 <= k < |r.clients| ==>
               var c, c' := r.clients[k], r'.clients[k];
               c'.name == c.name && History(c') == History(c) && (c'.isConnected ==> c.isConnected)
    ensures InOrder(r', name)
  {
    forall k | 0 <= k < |r'.clients| && r'.clients[k].name == name ensures TellsHistory(r', k) {
      assert r.clients[k].name == name && TellsHistory(r, k);
    }
  }

  lemma {:induction false} RunInOrder(r: Registry, es: seq<Event>, name: string)
    requires Reachable(r, es) && name != ""
    ensures InOrder(r, name)
    decreases |es|
  {
    if es != [] {
      var q, last := RunFrom(NewRegistry, es[..|es| - 1]).value, es[|es| - 1];
      RunInOrder(q, es[..|es| - 1], name);
      RunKeeps(q, es[..|es| - 1]);
      match last
      case Command(s) => SubscribedInOrder(q, s, name);
      case NameReceived(n) => NamedInOrder(q, n, name);
      case AckSent(k) =>
        TakenOnce(q.pending, q.clients[k].name, name);
        ClientsInOrder(q, r, name);
      case Disconnect(k) => ClientsInOrder(q, r, name);
    }
  }

  /** A ready subscriber that had its name for itself: its values are those of all commands for its name,
      wherever its connection fell among them. Its timeouts are those of the commands in their order
      exactly if the commands from before its name was known and those from during its handshake do not
      give the same value different timeouts. */
  lemma SubscribedAsSeen(r: Registry, es: seq<Event>, k: nat)
    requires Reachable(r, es) && k < |r.clients|
    requires r.clients[k].isConnected && r.clients[k].isReady && Alone(r.clients, k)
    ensures var c := r.clients[k];
            && c.table.Keys == Table(For(r.seen, c.name)).Keys
            && (c.table == Table(For(r.seen, c.name)) <==> Agree(c.before, c.during))
  {
    var c := r.clients[k];
    RunKeeps(r, es);
    assert ClientOk(r.pending, c);
    RunInOrder(r, es, c.name);
    assert TellsHistory(r, k);
    SwapExactly(c.before, c.during, c.after);
  }

  /** Subscribing and connecting are confluent: two runs with the same commands for a name leave the same
      values, and the same timeouts if in both the commands from before and from during the handshake agree,
      as they do when no command fell into it. */
  lemma Confluent(r1: Registry, es1: seq<Event>, k1: nat, r2: Registry, es2: seq<Event>, k2: nat)
    requires Reachable(r1, es1) && k1 < |r1.clients| && Reachable(r2, es2) && k2 < |r2.clients|
    requires var c1, c2 := r1.clients[k1], r2.clients[k2];
             && c1.isConnected && c1.isReady && Alone(r1.clients, k1)
             && c2.isConnected && c2.isReady && Alone(r2.clients, k2)
             && c1.name == c2.name && For(r1.seen, c1.name) == For(r2.seen, c2.name)
    ensures r1.clients[k1].table.Keys == r2.clients[k2].table.Keys
    ensures var c1, c2 := r1.clients[k1], r2.clients[k2];
            && (Agree(c1.before, c1.during) && Agree(c2.before, c2.during) ==> c1.table == c2.table)
            && (c1.during == [] ==> Agree(c1.before, c1.during))
  {
    SubscribedAsSeen(r1, es1, k1);
    SubscribedAsSeen(r2, es2, k2);
  }

  lemma ReachableStep(r: Registry, es: seq<Event>, e: Event)
    requires Reachable(r, es) && Possible(r, e)
    ensures Reachable(Step(r, e), es + [e])
  {
    assert (es + [e])[..|es|] == es;
  }

  function Connecting(s: Subscribe): Registry {
    Registry([s], [Client(s.name, true, false, map[], [s], [], [])], [s])
  }

  function Handshaking(s: Subscribe, t: Subscribe): Registry {
    Registry([s], [Client(s.name, true, false, Add(map[], t), [s], [t], [])], [s, t])
  }

  lemma SubscribeThenConnect(s: Subscribe)
    ensures !Heard([], s.name) && Named(Subscribed(NewRegistry, s), s.name) == Connecting(s)
  {
    ForAppend([], s, s.name);
    assert Subscribed(NewRegistry, s) == Registry([] + [s], [], [] + [s]);
    assert [] + [s] == [s];
  }

  lemma SubscribeInHandshake(s: Subscribe, t: Subscribe)
    requires s.name == t.name
    ensures Subscribed(Connecting(s), t) == Handshaking(s, t)
  {
    assert Hears(Connecting(s).clients[0], t.name);
    assert [] + [t] == [t];
    assert Give(Connecting(s).clients[0], t) == Handshaking(s, t).clients[0];
    assert GiveAll(Connecting(s).clients, t) == Handshaking(s, t).clients;
    assert [s] + [t] == [s, t];
  }

  /** One command before the name is known, one during the handshake. */
  lemma HandshakeRun(s: Subscribe, t: Subscribe) returns (r: Registry, es: seq<Event>)
    requires s.name == t.name != ""
    ensures Reachable(r, es) && r == Acknowledged(Handshaking(s, t), 0)
  {
    es := [] + [Command(s)];
    ReachableStep(NewRegistry, [], Command(s));
    SubscribeThenConnect(s);
    ReachableStep(Subscribed(NewRegistry, s), es, NameReceived(s.name));
    es := es + [NameReceived(s.name)];
    SubscribeInHandshake(s, t);
    ReachableStep(Connecting(s), es, Command(t));
    es := es + [Command(t)];
    ReachableStep(Handshaking(s, t), es, AckSent(0));
    r, es := Acknowledged(Handshaking(s, t), 0), es + [AckSent(0)];
  }

  lemma OneValue(s: Subscribe)
    requires s.subscriptions == "x"
    ensures Table([s]) == map["x" := s.timeoutMs]
  {
    var text := s.subscriptions;
    assert text[..|text| - 1] == "" && text == "" + [text[0]];
    assert CutAt("", ',') == Cut([], "");
    assert CutAt(text, ',') == Cut([], text);
    assert Split(text, ',') == ["x"];
    assert ["x"][..0] == [];
    assert AddValues(map[], s.timeoutMs, ["x"]) == map["x" := s.timeoutMs];
    assert [s][..0] == [];
    assert Table([s]) == Add(AddAll(map[], []), s);
  }

  /** A command that falls into the handshake can overtake an earlier one: asked for with a timeout of 5
      and then of 9, the value "x" does not end up as asked for first. */
  lemma HandshakeReorders() returns (r: Registry, es: seq<Event>)
    ensures Reachable(r, es) && |r.clients| == 1 && r.clients[0].isReady
    ensures For(r.seen, r.clients[0].name) == [Subscribe(5, "a", "x"), Subscribe(9, "a", "x")]
    ensures r.clients[0].table != Table(For(r.seen, r.clients[0].name))
  {
    var s, t := Subscribe(5, "a", "x"), Subscribe(9, "a", "x");
    r, es := HandshakeRun(s, t);
    ForAppend([], s, "a");
    ForAppend([s], t, "a");
    assert [] + [s] == [s] && [s] + [t] == [s, t];
    OneValue(s);
    OneValue(t);
    SubscribedAsSeen(r, es, 0);
    assert !Agree([s], [t]) by {
      assert "x" in Table([s]) && "x" in Table([t]);
    }
  }
}
