/** What command connections guarantee: which calls they make does not depend on how the bytes were cut
    as long as the stream ends a command. */
module CommandTheorems {
  import opened Sequences
  import opened Frames
  import opened CommandModel
  import TextTheorems

  // ---------------------------------------------------------------- split

  /** The text that has these fields, each closed by the delimiter. */
  function Joined(fields: seq<string>, delimiter: char): string {
    if fields == [] then "" else Joined(fields[..|fields| - 1], delimiter) + (fields[|fields| - 1] + [delimiter])
  }

  lemma JoinedAppend(fields: seq<string>, field: string, delimiter: char)
    ensures Joined(fields + [field], delimiter) == Joined(fields, delimiter) + field + [delimiter]
  {
    assert (fields + [field])[..|fields|] == fields;
  }

  /** Cutting loses nothing ... */
  lemma {:induction false} CutIsExact(s: string, delimiter: char)
    ensures s == Joined(CutAt(s, delimiter).fields, delimiter) + CutAt(s, delimiter).rest
  {
    if s != "" {
      CutIsExact(s[..|s| - 1], delimiter);
      var c := CutAt(s[..|s| - 1], delimiter);
      assert s == s[..|s| - 1] + [s[|s| - 1]];
      JoinedAppend(c.fields, c.rest, delimiter);
    }
  }

  /** ... and cuts at every delimiter. */
  lemma {:induction false} CutIsComplete(s: string, delimiter: char)
    ensures delimiter !in CutAt(s, delimiter).rest
    ensures forall f :: f in CutAt(s, delimiter).fields ==> delimiter !in f
  {
    if s != "" {
      CutIsComplete(s[..|s| - 1], delimiter);
    }
  }

  /** Splitting undoes joining: any fields without the delimiter come back. */
  lemma {:induction false} CutOfJoined(fields: seq<string>, rest: string, delimiter: char)
    requires delimiter !in rest && forall f :: f in fields ==> delimiter !in f
    ensures CutAt(Joined(fields, delimiter) + rest, delimiter) == Cut(fields, rest)
    decreases |fields|, |rest|
  {
    var s := Joined(fields, delimiter) + rest;
    if rest != "" {
      var init, last := rest[..|rest| - 1], rest[|rest| - 1];
      assert last in rest;
      CutOfJoined(fields, init, delimiter);
      assert s[..|s| - 1] == Joined(fields, delimiter) + init;
      assert rest == init + [last];
    } else if fields != [] {
      var init, last := fields[..|fields| - 1], fields[|fields| - 1];
      CutOfJoined(init, last, delimiter);
      assert s[..|s| - 1] == Joined(init, delimiter) + last;
      assert fields == init + [last];
    }
  }

  /** Cutting is a homomorphism at a delimiter. */
  lemma {:induction false} CutConcat(a: string, b: string, delimiter: char)
    requires CutAt(a, delimiter).rest == ""
    ensures CutAt(a + b, delimiter) == Cut(CutAt(a, delimiter).fields + CutAt(b, delimiter).fields, CutAt(b, delimiter).rest)
    decreases |b|
  {
    if b == "" {
      assert a + b == a;
    } else {
      CutConcat(a, b[..|b| - 1], delimiter);
      assert (a + b)[..|a + b| - 1] == a + b[..|b| - 1];
    }
  }

  /** What splitting gives for any fields: all of them, without an empty last one. */
  lemma SplitOfJoined(fields: seq<string>, rest: string, delimiter: char)
    requires delimiter !in rest && forall f :: f in fields ==> delimiter !in f
    ensures Split(Joined(fields, delimiter) + rest, delimiter) == if rest == "" then fields else fields + [rest]
  {
    CutOfJoined(fields, rest, delimiter);
  }

  // ---------------------------------------------------------------- what a command means

  function CommandText(name: string, verb: string, values: string, timeout: string): string {
    name + "|" + verb + "|" + values + "|" + timeout
  }

  lemma JoinedFields(a: string, b: string, c: string, d: string)
    ensures Joined([a, b, c], '|') + d == CommandText(a, b, c, d)
    ensures Joined([a, b, c, d], '|') + "" == CommandText(a, b, c, d) + "|"
  {
    JoinedAppend([], a, '|');
    JoinedAppend([a], b, '|');
    JoinedAppend([a, b], c, '|');
    JoinedAppend([a, b, c], d, '|');
    assert [] + [a] == [a] && [a] + [b] == [a, b] && [a, b] + [c] == [a, b, c] && [a, b, c] + [d] == [a, b, c, d];
  }

  /** Four fields, also with a '|' behind them, are a command; it has an effect if its verb is `subscribe`. */
  lemma ParseOfText(name: string, verb: string, values: string, timeout: string)
    requires '|' !in name && '|' !in verb && '|' !in values && '|' !in timeout
    ensures Parse(CommandText(name, verb, values, timeout)) ==
            if verb == "subscribe" && timeout != "" then Some(Subscribe(Timeout(timeout), name, values)) else None
    ensures Parse(CommandText(name, verb, values, timeout) + "|") ==
            if verb == "subscribe" then Some(Subscribe(Timeout(timeout), name, values)) else None
  {
    JoinedFields(name, verb, values, timeout);
    SplitOfJoined([name, verb, values], timeout, '|');
    SplitOfJoined([name, verb, values, timeout], "", '|');
  }

  /** What a well-formed command asks for: these values, for this subscriber, with this timeout; no other verb has
      an effect. */
  lemma CommandMeans(name: string, verb: string, values: string, n: nat)
    requires '|' !in name && '|' !in verb && '|' !in values && n < SIZE
    ensures Parse(CommandText(name, verb, values, Decimal(n))) ==
            if verb == "subscribe" then Some(Subscribe(n, name, values)) else None
  {
    assert '|' !in Decimal(n);
    TextTheorems.StoulOfDecimal(n);
    ParseOfText(name, verb, values, Decimal(n));
  }

  /** The timeout of a command, for every text: 0 if it has no digits or does not fit in 64 bits. */
  lemma TimeoutReads(n: TextTheorems.Numeral)
    requires n.Valid()
    ensures (forall c :: c in n.digits ==> IsDigit(c))
    ensures var v := Value(n.digits);
            Timeout(n.Text()) == if n.digits == "" || v >= SIZE then 0 else if n.sign == "-" && v > 0 then SIZE - v else v
  {
    TextTheorems.StoulReads(n);
  }

  /** A command that asks for s. */
  ghost predicate Asks(command: string, s: Subscribe, timeout: string) {
    && '|' !in s.name && '|' !in s.subscriptions && '|' !in timeout && s.timeoutMs == Timeout(timeout)
    && var text := CommandText(s.name, "subscribe", s.subscriptions, timeout);
       (command == text && timeout != "") || command == text + "|"
  }

  lemma FourFields(command: string)
    requires |Split(command, '|')| == 4
    ensures var v := Split(command, '|');
            && (forall f :: f in v ==> '|' !in f)
            && ((command == CommandText(v[0], v[1], v[2], v[3]) && v[3] != "") || command == CommandText(v[0], v[1], v[2], v[3]) + "|")
  {
    var c, v := CutAt(command, '|'), Split(command, '|');
    CutIsExact(command, '|');
    CutIsComplete(command, '|');
    JoinedFields(v[0], v[1], v[2], v[3]);
    if c.rest == "" {
      assert c.fields == [v[0], v[1], v[2], v[3]];
    } else {
      assert c.fields == [v[0], v[1], v[2]];
    }
  }

  /** Which texts are commands with an effect, and which effect: exactly these. */
  lemma ParseExactly(command: string, s: Subscribe)
    ensures Parse(command) == Some(s) <==> exists timeout :: Asks(command, s, timeout)
  {
    if Parse(command) == Some(s) {
      var v := Split(command, '|');
      FourFields(command);
      assert Asks(command, s, v[3]);
    }
    forall timeout | Asks(command, s, timeout) ensures Parse(command) == Some(s) {
      ParseOfText(s.name, "subscribe", s.subscriptions, timeout);
    }
  }

  // ---------------------------------------------------------------- fragments

  lemma CallsAppend(commands: seq<string>, command: string)
    ensures Calls(commands + [command]) ==
            match Parse(command) case None => Calls(commands) case Some(s) => Calls(commands) + [s]
  {
    assert (commands + [command])[..|commands|] == commands;
  }

  lemma {:induction false} CallsConcat(a: seq<string>, b: seq<string>)
    ensures Calls(a + b) == Calls(a) + Calls(b)
    decreases |b|
  {
    if b == [] {
      assert a + b == a;
    } else {
      CallsConcat(a, b[..|b| - 1]);
      assert (a + b)[..|a + b| - 1] == a + b[..|b| - 1];
    }
  }

  /** The calls of the commands a stream completes. */
  function CallsOf(stream: string): seq<Subscribe> {
    Calls(CutAt(stream, '\r').fields)
  }

  /** Dropping the last '\r' before splitting makes no difference: an empty command has no effect. */
  lemma ProcessedCalls(commands: string)
    requires EndsCommand(commands)
    ensures Calls(Split(commands[..|commands| - 1], '\r')) == CallsOf(commands)
    ensures CutAt(commands, '\r').rest == ""
  {
    var c := CutAt(commands[..|commands| - 1], '\r');
    CallsAppend(c.fields, c.rest);
    assert CutAt("", '|') == Cut([], "");
    assert Parse("").None?;
  }

  /** A commander that has read a stream: it made the calls of all of it but the bytes it holds. */
  predicate HasRead(c: Commander, stream: string, done: string) {
    stream == done + c.command && CutAt(done, '\r').rest == "" && c.calls == CallsOf(done)
  }

  lemma CallsOfConcat(a: string, b: string)
    requires CutAt(a, '\r').rest == ""
    ensures CallsOf(a + b) == CallsOf(a) + CallsOf(b)
    ensures CutAt(b, '\r').rest == "" ==> CutAt(a + b, '\r').rest == ""
  {
    CutConcat(a, b, '\r');
    CallsConcat(CutAt(a, '\r').fields, CutAt(b, '\r').fields);
  }

  lemma ReceiveReads(c: Commander, stream: string, done: string, bytes: string) returns (done': string)
    requires HasRead(c, stream, done)
    ensures HasRead(Receive(c, bytes), stream + bytes, done')
  {
    var all := c.command + bytes;
    ConcatAssoc(done, c.command, bytes);
    done' := done;
    if EndsCommand(all) {
      ProcessedCalls(all);
      CallsOfConcat(done, all);
      done' := done + all;
    }
  }

  lemma {:induction false} ReceiveAllReads(fragments: seq<string>) returns (done: string)
    ensures HasRead(ReceiveAll(NewCommander, fragments), Flatten(fragments), done)
  {
    if fragments == [] {
      done := "";
      assert CutAt("", '\r') == Cut([], "");
    } else {
      var init, last := fragments[..|fragments| - 1], fragments[|fragments| - 1];
      done := ReceiveAllReads(init);
      done := ReceiveReads(ReceiveAll(NewCommander, init), Flatten(init), done, last);
    }
  }

  /** The calls made are always the first of those the stream asks for, and the bytes held back are enough
      to make the others. */
  lemma CallsAreOnTheWay(fragments: seq<string>)
    ensures var c := ReceiveAll(NewCommander, fragments);
            c.calls + CallsOf(c.command) == CallsOf(Flatten(fragments))
  {
    var done := ReceiveAllReads(fragments);
    CallsOfConcat(done, ReceiveAll(NewCommander, fragments).command);
  }

  /** A connection that delivered a stream ending a command: nothing is held back, however it was cut. */
  lemma {:induction false} StreamOfCommands(fragments: seq<string>)
    requires forall i :: 0 <= i < |fragments| ==> fragments[i] != ""
    requires EndsCommand(Flatten(fragments))
    ensures ReceiveAll(NewCommander, fragments) == Commander("", CallsOf(Flatten(fragments)))
  {
    var init, last := fragments[..|fragments| - 1], fragments[|fragments| - 1];
    var c := ReceiveAll(NewCommander, init);
    assert last[|last| - 1] == Flatten(fragments)[|Flatten(fragments)| - 1];
    assert EndsCommand(c.command + last);
    assert CutAt("", '\r') == Cut([], "");
    CallsAreOnTheWay(fragments);
  }

  predicate Cuts(fragments: seq<string>, stream: string) {
    (forall i :: 0 <= i < |fragments| ==> fragments[i] != "") && Flatten(fragments) == stream
  }

  /** A stream received whole that does not end a command makes no call. */
  lemma Whole(stream: string)
    requires stream != "" && !EndsCommand(stream)
    ensures Cuts([stream], stream) && ReceiveAll(NewCommander, [stream]).calls == []
  {
    assert [stream][..0] == [];
    assert Flatten<char>([]) + stream == stream;
    assert ReceiveAll(NewCommander, [stream]) == Receive(NewCommander, stream);
    assert "" + stream == stream;
  }

  lemma FlattenOfTwo(a: string, b: string)
    ensures Flatten([a]) == a && Flatten([a, b]) == a + b
  {
    FlattenAppend([], a);
    assert [] + [a] == [a];
    FlattenAppend([a], b);
    assert [a] + [b] == [a, b];
  }

  /** A stream up to its last '\r', and what follows. */
  lemma LastCommandEnd(stream: string) returns (done: string, rest: string)
    requires CutAt(stream, '\r').fields != [] && !EndsCommand(stream)
    ensures stream == done + rest && EndsCommand(done) && rest != "" && '\r' !in rest
    ensures CallsOf(done) == CallsOf(stream)
  {
    var c := CutAt(stream, '\r');
    done, rest := Joined(c.fields, '\r'), c.rest;
    CutIsExact(stream, '\r');
    CutIsComplete(stream, '\r');
    CutOfJoined(c.fields, "", '\r');
    assert done + "" == done;
    assert EndsCommand(done) by {
      JoinedAppend(c.fields[..|c.fields| - 1], c.fields[|c.fields| - 1], '\r');
      assert c.fields == c.fields[..|c.fields| - 1] + [c.fields[|c.fields| - 1]];
    }
  }

  lemma HoldsBack(c: Commander, bytes: string)
    requires c.command == "" && bytes != "" && '\r' !in bytes
    ensures Receive(c, bytes).calls == c.calls
  {
    assert "" + bytes == bytes;
    assert bytes[|bytes| - 1] in bytes;
  }

  lemma ReceiveAllAppend(fragments: seq<string>, bytes: string)
    ensures ReceiveAll(NewCommander, fragments + [bytes]) == Receive(ReceiveAll(NewCommander, fragments), bytes)
  {
    assert (fragments + [bytes])[..|fragments|] == fragments;
  }

  lemma TwoReceives(done: string, rest: string)
    requires EndsCommand(done) && rest != "" && '\r' !in rest
    ensures Cuts([done, rest], done + rest) && ReceiveAll(NewCommander, [done, rest]).calls == CallsOf(done)
  {
    FlattenOfTwo(done, rest);
    StreamOfCommands([done]);
    HoldsBack(Commander("", CallsOf(done)), rest);
    ReceiveAllAppend([done], rest);
    assert [done] + [rest] == [done, rest];
  }

  /** Every way to cut this stream leads to the same calls. */
  ghost predicate CutMakesNoDifference(stream: string) {
    forall a, b :: Cuts(a, stream) && Cuts(b, stream) ==>
                     ReceiveAll(NewCommander, a).calls == ReceiveAll(NewCommander, b).calls
  }

  /** The calls made do not depend on how a stream was cut exactly if it ends a command, or completes no
      command that has an effect. */
  lemma CallsIndependentExactly(stream: string)
    ensures CutMakesNoDifference(stream) <==> EndsCommand(stream) || CallsOf(stream) == []
  {
    if EndsCommand(stream) {
      forall a | Cuts(a, stream) ensures ReceiveAll(NewCommander, a).calls == CallsOf(stream) {
        StreamOfCommands(a);
      }
    } else if CallsOf(stream) == [] {
      forall a | Cuts(a, stream) ensures ReceiveAll(NewCommander, a).calls == [] {
        CallsAreOnTheWay(a);
      }
    } else {
      Whole(stream);
      var done, rest := LastCommandEnd(stream);
      TwoReceives(done, rest);
      assert ReceiveAll(NewCommander, [done, rest]).calls != ReceiveAll(NewCommander, [stream]).calls;
    }
  }

  /** Such a stream: a command and the first byte of another. */
  const Unfinished: string := "a|subscribe|x|5" + "\r" + "b"

  lemma FirstCommand()
    ensures Parse("a|subscribe|x|5") == Some(Subscribe(5, "a", "x"))
  {
    assert Decimal(5) == "5";
    CommandMeans("a", "subscribe", "x", 5);
    assert CommandText("a", "subscribe", "x", "5") == "a|subscribe|x|5";
  }

  /** Received whole it makes no call; received with a cut behind the command it makes one. */
  lemma CutMatters()
    ensures Cuts([Unfinished], Unfinished) && ReceiveAll(NewCommander, [Unfinished]).calls == []
    ensures var cut := ["a|subscribe|x|5" + "\r", "b"];
            Cuts(cut, Unfinished) && ReceiveAll(NewCommander, cut).calls == [Subscribe(5, "a", "x")]
  {
    var command := "a|subscribe|x|5";
    Whole(Unfinished);
    TwoReceives(command + "\r", "b");
    CutOfJoined([], command, '\r');
    assert "" + command == command;
    assert (command + "\r")[..|command|] == command;
    assert CallsOf(command + "\r") == Calls([command]);
    FirstCommand();
    CallsAppend([], command);
    assert [] + [command] == [command];
  }
}
