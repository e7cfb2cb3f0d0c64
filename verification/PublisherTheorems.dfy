/** What a publisher connection guarantees: which messages it reads from its bytes, that reading does
    not depend on how the bytes were cut, and what reaches the queue. */
module PublisherTheorems {
  import opened Sequences
  import opened Frames
  import opened MessageBatches
  import opened PublisherModel

  // ---------------------------------------------------------------- the parser alone

  /** The parser without the batching: its unfinished frame and the messages completed so far. */
  datatype Parsed = Parsed(parse: Parse, messages: seq<Message>)

  function Messages(log: seq<Entry>): (ms: seq<Message>)
    ensures |ms| == |log|
  {
    if log == [] then [] else Messages(log[..|log| - 1]) + [log[|log| - 1].m]
  }

  function View(p: Publisher): Parsed {
    Parsed(p.parse, Messages(p.batcher.log))
  }

  function SettleParsed(x: Parsed): Parsed {
    if Due(x.parse) then Parsed(Fresh, x.messages + [Complete(x.parse)]) else x
  }

  function ParseByte(x: Parsed, ch: char): Parsed {
    var y := SettleParsed(x);
    var z := y.(parse := TakeParse(y.parse, ch));
    if y.parse.phase.InContent? then SettleParsed(z) else z
  }

  function ParseBytes(x: Parsed, bytes: string): Parsed {
    if bytes == "" then x else ParseByte(ParseBytes(x, bytes[..|bytes| - 1]), bytes[|bytes| - 1])
  }

  function Delivered(ds: seq<Delivery>): seq<Message> {
    if ds == [] then [] else Delivered(ds[..|ds| - 1]) + [ds[|ds| - 1].m]
  }

  /** The walk's parser, with the messages completed before the fragment. */
  function WalkView(before: seq<Message>, w: Walk): Parsed {
    Parsed(w.parse, before + Delivered(w.out))
  }

  lemma FinishView(before: seq<Message>, w: Walk, last: bool)
    ensures WalkView(before, Finish(w, last)) == Parsed(Fresh, before + Delivered(w.out) + [Complete(w.parse)])
  {
    var out := Finish(w, last).out;
    assert out[..|out| - 1] == w.out;
  }

  lemma ByteView(before: seq<Message>, w: Walk, ch: char, last: bool)
    ensures WalkView(before, Byte(w, ch, last)) == ParseByte(WalkView(before, w), ch)
  {
    FinishView(before, w, false);
    var v := Settle(w);
    FinishView(before, v.(parse := TakeParse(v.parse, ch)), last);
  }

  lemma {:induction false} WalkToView(before: seq<Message>, q: Parse, fragment: string, n: nat)
    requires n <= |fragment|
    ensures WalkView(before, WalkTo(q, fragment, n)) == ParseBytes(Parsed(q, before), fragment[..n])
    decreases n
  {
    if n == 0 {
      assert before + [] == before;
    } else {
      WalkToView(before, q, fragment, n - 1);
      ByteView(before, WalkTo(q, fragment, n - 1), fragment[n - 1], n == |fragment|);
      assert fragment[..n][..n - 1] == fragment[..n - 1];
    }
  }

  lemma DeliverLog(b: Batcher, d: Delivery)
    ensures Messages(Deliver(b, d).log) == Messages(b.log) + [d.m]
  {
    var log := Deliver(b, d).log;
    assert log[..|log| - 1] == b.log;
  }

  lemma {:induction false} DeliverAllLog(b: Batcher, ds: seq<Delivery>)
    ensures Messages(DeliverAll(b, ds).log) == Messages(b.log) + Delivered(ds)
    decreases |ds|
  {
    if ds == [] {
      assert Messages(b.log) + [] == Messages(b.log);
    } else {
      var init, last := ds[..|ds| - 1], ds[|ds| - 1];
      DeliverAllLog(b, init);
      DeliverLog(DeliverAll(b, init), last);
      ConcatAssoc(Messages(b.log), Delivered(init), [last.m]);
    }
  }

  lemma FeedView(p: Publisher, fragment: string)
    ensures View(Feed(p, fragment)) == ParseBytes(View(p), fragment)
  {
    WalkToView(Messages(p.batcher.log), p.parse, fragment, |fragment|);
    assert fragment[..|fragment|] == fragment;
    DeliverAllLog(p.batcher, WalkTo(p.parse, fragment, |fragment|).out);
  }

  lemma {:induction false} ParseConcat(x: Parsed, a: string, b: string)
    ensures ParseBytes(x, a + b) == ParseBytes(ParseBytes(x, a), b)
    decreases |b|
  {
    if b == "" {
      assert a + b == a;
    } else {
      ParseConcat(x, a, b[..|b| - 1]);
      assert (a + b)[..|a + b| - 1] == a + b[..|b| - 1];
    }
  }

  lemma {:induction false} FeedAllView(p: Publisher, fragments: seq<string>)
    ensures View(FeedAll(p, fragments)) == ParseBytes(View(p), Flatten(fragments))
    decreases |fragments|
  {
    if fragments != [] {
      var init, f := fragments[..|fragments| - 1], fragments[|fragments| - 1];
      FeedAllView(p, init);
      FeedView(FeedAll(p, init), f);
      ParseConcat(View(p), Flatten(init), f);
    }
  }

  /** However a byte stream is cut into fragments, the same messages are completed and the same
      unfinished frame is left. */
  lemma FragmentationIndependent(p: Publisher, fragments: seq<string>, others: seq<string>)
    requires Flatten(fragments) == Flatten(others)
    ensures var a := FeedAll(p, fragments); var b := FeedAll(p, others);
            a.parse == b.parse && Messages(a.batcher.log) == Messages(b.batcher.log)
  {
    FeedAllView(p, fragments);
    FeedAllView(p, others);
  }

  // ---------------------------------------------------------------- round trip

  /** The frame a client sends for a message. */
  function Encode(msgType: string, content: string): Message {
    Message(msgType, Decimal(|content|), content)
  }

  /** A well-formed frame: its length text, in whatever spelling, reads as the length of its content. */
  ghost predicate Sendable(m: Message) {
    '|' !in m.msgType && '|' !in m.lengthText && ContentLength(m.lengthText) == Some(|m.content|)
  }

  /** Every content of a length the parser can handle has a frame, with the plain decimal length. */
  lemma EncodeIsSendable(msgType: string, content: string)
    ensures Sendable(Encode(msgType, content)) <==> '|' !in msgType && |content| + MAX_READ_BUF < SIZE
  {
    if |content| + MAX_READ_BUF < SIZE {
      DecimalRoundTrip(|content|);
    }
  }

  lemma {:induction false} ParseType(x: Parsed, t: string)
    requires x.parse.phase.InType? && '|' !in t
    ensures ParseBytes(x, t) == x.(parse := x.parse.(msgType := x.parse.msgType + t))
    decreases |t|
  {
    if t == "" {
      assert x.parse.msgType + t == x.parse.msgType;
    } else {
      ParseType(x, t[..|t| - 1]);
      assert x.parse.msgType + t == (x.parse.msgType + t[..|t| - 1]) + [t[|t| - 1]];
    }
  }

  lemma {:induction false} ParseLength(x: Parsed, d: string)
    requires x.parse.phase.InLength? && '|' !in d
    ensures ParseBytes(x, d) == x.(parse := x.parse.(lengthText := x.parse.lengthText + d))
    decreases |d|
  {
    if d == "" {
      assert x.parse.lengthText + d == x.parse.lengthText;
    } else {
      ParseLength(x, d[..|d| - 1]);
      assert x.parse.lengthText + d == (x.parse.lengthText + d[..|d| - 1]) + [d[|d| - 1]];
    }
  }

  lemma {:induction false} ParseContent(x: Parsed, c: string)
    requires x.parse.phase.InContent? && |x.parse.content| + |c| <= x.parse.length
    ensures var y := x.(parse := x.parse.(content := x.parse.content + c));
            ParseBytes(x, c) == if c == "" then x else SettleParsed(y)
    decreases |c|
  {
    if c != "" {
      ParseContent(x, c[..|c| - 1]);
      assert x.parse.content + c == (x.parse.content + c[..|c| - 1]) + [c[|c| - 1]];
      assert |c| == 1 ==> x.parse.content + c == x.parse.content + [c[0]];
    }
  }

  lemma ParseBar(x: Parsed)
    ensures ParseBytes(x, "|") == ParseByte(x, '|')
  {
    assert "|"[..0] == "";
  }

  /** The three stages of a frame, each ending with its terminator. */
  lemma ParseTypeField(x: Parsed, t: string)
    requires x.parse == Fresh && '|' !in t
    ensures ParseBytes(x, t + "|") == x.(parse := Parse(InLength, t, "", 0, ""))
  {
    ParseConcat(x, t, "|");
    ParseType(x, t);
    assert "" + t == t;
    ParseBar(ParseBytes(x, t));
  }

  lemma ParseLengthField(x: Parsed, t: string, d: string, n: nat)
    requires x.parse == Parse(InLength, t, "", 0, "") && '|' !in d && ContentLength(d) == Some(n)
    ensures ParseBytes(x, d + "|") == x.(parse := Parse(InContent, t, d, n, ""))
  {
    ParseConcat(x, d, "|");
    ParseLength(x, d);
    assert "" + d == d;
    ParseBar(ParseBytes(x, d));
  }

  lemma ParseContentField(x: Parsed, t: string, d: string, c: string)
    requires x.parse == Parse(InContent, t, d, |c|, "")
    ensures ParseBytes(x, c) == AfterFrame(x.messages, Message(t, d, c))
  {
    ParseContent(x, c);
    assert "" + c == c;
  }

  /** The parser after the last byte of a frame: a frame without content is read but not delivered. */
  function AfterFrame(before: seq<Message>, m: Message): Parsed {
    if m.content == "" then Parsed(Parse(InContent, m.msgType, m.lengthText, 0, ""), before)
    else Parsed(Fresh, before + [m])
  }

  lemma ParseHead(x: Parsed, t: string, d: string, n: nat)
    requires x.parse == Fresh && '|' !in t && '|' !in d && ContentLength(d) == Some(n)
    ensures ParseBytes(x, t + "|" + (d + "|")) == x.(parse := Parse(InContent, t, d, n, ""))
  {
    ParseConcat(x, t + "|", d + "|");
    ParseTypeField(x, t);
    ParseLengthField(ParseBytes(x, t + "|"), t, d, n);
  }

  lemma SettleAfterFrame(before: seq<Message>, m: Message)
    ensures SettleParsed(AfterFrame(before, m)) == Parsed(Fresh, before + [m])
  {
    assert m == Message(m.msgType, m.lengthText, m.content);
  }

  lemma ParseFields(x: Parsed, t: string, d: string, c: string)
    requires x.parse == Fresh && '|' !in t && '|' !in d && ContentLength(d) == Some(|c|)
    ensures ParseBytes(x, (t + "|" + (d + "|")) + c) == AfterFrame(x.messages, Message(t, d, c))
  {
    var head := t + "|" + (d + "|");
    ParseConcat(x, head, c);
    ParseHead(x, t, d, |c|);
    ParseContentField(ParseBytes(x, head), t, d, c);
  }

  lemma FrameText(m: Message)
    ensures m.Bytes() == (m.msgType + "|" + (m.lengthText + "|")) + m.content
  {
  }

  lemma ParseFrame(x: Parsed, m: Message)
    requires x.parse == Fresh && Sendable(m)
    ensures ParseBytes(x, m.Bytes()) == AfterFrame(x.messages, m)
    ensures SettleParsed(AfterFrame(x.messages, m)) == Parsed(Fresh, x.messages + [m])
  {
    FrameText(m);
    ParseFields(x, m.msgType, m.lengthText, m.content);
    SettleAfterFrame(x.messages, m);
  }

  lemma {:induction false} SettleFirst(x: Parsed, bytes: string)
    requires bytes != ""
    ensures ParseBytes(SettleParsed(x), bytes) == ParseBytes(x, bytes)
    decreases |bytes|
  {
    if |bytes| > 1 {
      SettleFirst(x, bytes[..|bytes| - 1]);
    }
  }

  lemma ParseOneMore(x: Parsed, bytes: string, before: seq<Message>, m: Message)
    requires SettleParsed(ParseBytes(x, bytes)) == Parsed(Fresh, before) && Sendable(m)
    ensures ParseBytes(x, bytes + m.Bytes()) == AfterFrame(before, m)
  {
    var y := ParseBytes(x, bytes);
    ParseConcat(x, bytes, m.Bytes());
    SettleFirst(y, m.Bytes());
    ParseFrame(SettleParsed(y), m);
  }

  function AfterFrames(before: seq<Message>, ms: seq<Message>): Parsed {
    if ms == [] then Parsed(Fresh, before) else AfterFrame(before + ms[..|ms| - 1], ms[|ms| - 1])
  }

  lemma SettleAfterFrames(before: seq<Message>, ms: seq<Message>)
    ensures SettleParsed(AfterFrames(before, ms)) == Parsed(Fresh, before + ms)
    ensures AfterFrames(before, ms).messages <= before + ms
  {
    if ms == [] {
      assert before + ms == before;
    } else {
      assert before + ms == (before + ms[..|ms| - 1]) + [ms[|ms| - 1]];
    }
  }

  /** Round trip: framing any messages and reading the frames back gives exactly those messages. What is
      left is no unfinished frame, or the frame of a last message without content. */
  lemma {:induction false} ParseEncoded(x: Parsed, ms: seq<Message>)
    requires x.parse == Fresh && forall m :: m in ms ==> Sendable(m)
    ensures ParseBytes(x, AllBytes(ms)) == AfterFrames(x.messages, ms)
    ensures SettleParsed(ParseBytes(x, AllBytes(ms))) == Parsed(Fresh, x.messages + ms)
    decreases |ms|
  {
    SettleAfterFrames(x.messages, ms);
    if ms != [] {
      var init, m := ms[..|ms| - 1], ms[|ms| - 1];
      ParseEncoded(x, init);
      ParseOneMore(x, AllBytes(init), x.messages + init, m);
    }
  }

  /** The messages a reader has of frames that arrived in full: all, but for a last one without content. */
  function Arrived(ms: seq<Message>): seq<Message> {
    if ms != [] && ms[|ms| - 1].content == "" then ms[..|ms| - 1] else ms
  }

  lemma ArrivedAfterFrames(ms: seq<Message>)
    ensures AfterFrames([], ms).messages == Arrived(ms)
  {
    if ms != [] {
      assert [] + ms[..|ms| - 1] == ms[..|ms| - 1] && ms == ms[..|ms| - 1] + [ms[|ms| - 1]];
    }
  }

  /** A connection that has delivered framed messages in full, cut anyhow, has read all of them exactly if
      the last one has content. Otherwise precisely the last one is missing until another byte arrives. */
  lemma ReadExactly(fragments: seq<string>, ms: seq<Message>)
    requires Flatten(fragments) == AllBytes(ms) && forall m :: m in ms ==> Sendable(m)
    ensures var read := Messages(FeedAll(Start, fragments).batcher.log);
            && read == Arrived(ms)
            && (read == ms <==> ms == [] || ms[|ms| - 1].content != "")
  {
    FeedAllView(Start, fragments);
    ParseEncoded(Parsed(Fresh, []), ms);
    ArrivedAfterFrames(ms);
  }

  /** Such an input, whole in one receive: nothing is read of it until the next byte. */
  lemma EmptyContentWaits()
    ensures var m := Message("a", "0", ""); var p := Feed(Start, "a|0|");
            && AllBytes([m]) == "a|0|" && Sendable(m)
            && Messages(p.batcher.log) == [] && Messages(Feed(p, "b").batcher.log) == [m]
  {
    var m := Message("a", "0", "");
    var x := Parsed(Fresh, []);
    assert Decimal(0) == "0";
    EncodeIsSendable("a", "");
    assert m.Bytes() == "a|0|";
    assert [m][..0] == [];
    assert AllBytes([m]) == "" + m.Bytes() == "a|0|";
    FeedView(Start, "a|0|");
    ParseFrame(x, m);
    FeedView(Feed(Start, "a|0|"), "b");
    assert "b"[..0] == "" && [] + [m] == [m];
  }

  lemma {:induction false} HaltedStays(x: Parsed, bytes: string)
    requires x.parse.phase.Halted?
    ensures ParseBytes(x, bytes) == x
    decreases |bytes|
  {
    if bytes != "" {
      HaltedStays(x, bytes[..|bytes| - 1]);
    }
  }

  lemma ParseBadField(x: Parsed, d: string)
    requires x.parse.phase.InLength? && x.parse.lengthText == "" && '|' !in d && ContentLength(d).None?
    ensures var y := ParseBytes(x, d + "|"); y.parse.phase.Halted? && y.messages == x.messages
  {
    ParseConcat(x, d, "|");
    ParseLength(x, d);
    assert "" + d == d;
    ParseBar(ParseBytes(x, d));
  }

  lemma ParseBadLength(x: Parsed, t: string, d: string)
    requires x.parse == Fresh && '|' !in t && '|' !in d && ContentLength(d).None?
    ensures var y := ParseBytes(x, t + "|" + (d + "|")); y.parse.phase.Halted? && y.messages == x.messages
  {
    ParseConcat(x, t + "|", d + "|");
    ParseTypeField(x, t);
    ParseBadField(ParseBytes(x, t + "|"), d);
  }

  /** A length that cannot be read ends the connection's reading, however the bytes were cut: the messages before it
      are read, and nothing after it is. */
  lemma UnreadableLengthHalts(fragments: seq<string>, ms: seq<Message>, t: string, d: string, rest: string)
    requires forall m :: m in ms ==> Sendable(m)
    requires '|' !in t && '|' !in d && ContentLength(d).None?
    requires Flatten(fragments) == AllBytes(ms) + (t + "|" + (d + "|")) + rest
    ensures var p := FeedAll(Start, fragments); p.parse.phase.Halted? && Messages(p.batcher.log) == ms
  {
    var x, bad := Parsed(Fresh, []), t + "|" + (d + "|");
    FeedAllView(Start, fragments);
    ParseConcat(x, AllBytes(ms) + bad, rest);
    ParseConcat(x, AllBytes(ms), bad);
    ParseEncoded(x, ms);
    var y := ParseBytes(x, AllBytes(ms));
    SettleFirst(y, bad);
    ParseBadLength(SettleParsed(y), t, d);
    HaltedStays(ParseBytes(y, bad), rest);
  }

  /** Whatever part of the framed messages has arrived, the messages read are the first of those sent. */
  lemma ReadIsPrefixOfSent(fragments: seq<string>, ms: seq<Message>, rest: string)
    requires Flatten(fragments) + rest == AllBytes(ms)
    requires forall m :: m in ms ==> Sendable(m)
    ensures Messages(FeedAll(Start, fragments).batcher.log) <= Arrived(ms) <= ms
  {
    var x := Parsed(Fresh, []);
    FeedAllView(Start, fragments);
    ParseMonotone(x, Flatten(fragments), rest);
    ParseEncoded(x, ms);
    ArrivedAfterFrames(ms);
  }

  lemma {:induction false} ParseMonotone(x: Parsed, a: string, b: string)
    ensures ParseBytes(x, a).messages <= ParseBytes(x, a + b).messages
    decreases |b|
  {
    if b == "" {
      assert a + b == a;
    } else {
      ParseMonotone(x, a, b[..|b| - 1]);
      assert (a + b)[..|a + b| - 1] == a + b[..|b| - 1];
    }
  }

  // ---------------------------------------------------------------- batches

  function Kept(log: seq<Entry>): seq<Message> {
    if log == [] then []
    else
      var e := log[|log| - 1];
      Kept(log[..|log| - 1]) + if e.kept then [e.m] else []
  }

  /** A batch made of these messages: not empty, cut in time, and of one type exactly if none of them
      lacks a type. */
  ghost predicate GroupOk(b: Batch, g: seq<Message>) {
    && g != []
    && b.bytes == AllBytes(g)
    && |AllBytes(g[..|g| - 1])| < GROW_UNTIL_LENGTH
    && ((forall m :: m in g ==> m.msgType != "") ==> Homogeneous(b, g))
  }

  ghost predicate Homogeneous(b: Batch, g: seq<Message>) {
    b.msgType != "" && forall m :: m in g ==> m.msgType == b.msgType
  }

  ghost predicate Accounted(b: Batcher) {
    && |b.groups| == |b.pushed|
    && (forall i :: 0 <= i < |b.groups| ==> GroupOk(b.pushed[i], b.groups[i]))
    && (if b.open == [] then b.current == EmptyBatch else GroupOk(b.current, b.open))
    && Flatten(b.groups) + b.open == Kept(b.log)
  }

  lemma PushAccounted(b: Batcher)
    requires Accounted(b) && b.open != []
    ensures Accounted(Push(b))
  {
    FlattenAppend(b.groups, b.open);
    assert Flatten(b.groups + [b.open]) + [] == Flatten(b.groups) + b.open;
  }

  /** A batch about to take a message of the given type. */
  ghost predicate Prepared(b: Batcher, msgType: string) {
    && |b.groups| == |b.pushed|
    && (forall i :: 0 <= i < |b.groups| ==> GroupOk(b.pushed[i], b.groups[i]))
    && Flatten(b.groups) + b.open == Kept(b.log)
    && b.current.msgType == msgType
    && (if b.open == [] then b.current.bytes == ""
        else
          && b.current.bytes == AllBytes(b.open) && |AllBytes(b.open[..|b.open| - 1])| < GROW_UNTIL_LENGTH
          && ((forall m :: m in b.open ==> m.msgType != "") ==> Homogeneous(b.current, b.open)))
  }

  lemma PrepareAccounted(b: Batcher, msgType: string)
    requires Accounted(b)
    ensures Prepared(Prepare(b, msgType), msgType)
  {
    if b.current.msgType != "" && (b.current.msgType != msgType || |b.current.bytes| > GROW_UNTIL_LENGTH) {
      PushAccounted(b);
    }
  }

  /** One more message in the open batch. */
  lemma OpenGrows(b: Batcher, m: Message)
    requires Prepared(b, m.msgType) && |b.current.bytes| < GROW_UNTIL_LENGTH
    ensures GroupOk(b.current.(bytes := b.current.bytes + m.Bytes()), b.open + [m])
  {
    var open := b.open + [m];
    AllBytesAppend(b.open, m);
    assert open[..|b.open|] == b.open;
    if b.open == [] {
      assert open == [m] && "" + m.Bytes() == m.Bytes();
    } else if forall x :: x in open ==> x.msgType != "" {
      forall x | x in b.open ensures x.msgType != "" {
        assert x in open;
      }
    }
  }

  lemma KeptAppend(log: seq<Entry>, m: Message, kept: bool)
    ensures Kept(log + [Entry(m, kept)]) == if kept then Kept(log) + [m] else Kept(log)
  {
    assert (log + [Entry(m, kept)])[..|log|] == log;
  }

  lemma AppendAccounted(b: Batcher, m: Message)
    requires Prepared(b, m.msgType)
    ensures Accounted(Append(b, m)) && Append(b, m).open != []
  {
    if |b.current.bytes| < GROW_UNTIL_LENGTH {
      OpenGrows(b, m);
      KeptAppend(b.log, m, true);
      ConcatAssoc(Flatten(b.groups), b.open, [m]);
    } else {
      KeptAppend(b.log, m, false);
    }
  }

  lemma DeliverAccounted(b: Batcher, d: Delivery)
    requires Accounted(b)
    ensures Accounted(Deliver(b, d))
  {
    PrepareAccounted(b, d.m.msgType);
    AppendAccounted(Prepare(b, d.m.msgType), d.m);
    if d.last { PushAccounted(Append(Prepare(b, d.m.msgType), d.m)); }
  }

  lemma {:induction false} DeliverAllAccounted(b: Batcher, ds: seq<Delivery>)
    requires Accounted(b)
    ensures Accounted(DeliverAll(b, ds))
    decreases |ds|
  {
    if ds != [] {
      DeliverAllAccounted(b, ds[..|ds| - 1]);
      DeliverAccounted(DeliverAll(b, ds[..|ds| - 1]), ds[|ds| - 1]);
    }
  }

  /** Over every connection: each pushed batch is not empty, holds consecutive whole messages, and was
      below the growth limit before its last one; pushed batches and open batch together hold exactly
      the messages that were kept, in order; and the open batch is unnamed when it is empty. */
  lemma {:induction false} BatchesAccounted(fragments: seq<string>)
    ensures Accounted(FeedAll(Start, fragments).batcher)
    decreases |fragments|
  {
    if fragments != [] {
      var p := FeedAll(Start, fragments[..|fragments| - 1]);
      BatchesAccounted(fragments[..|fragments| - 1]);
      DeliverAllAccounted(p.batcher, WalkTo(p.parse, fragments[|fragments| - 1], |fragments[|fragments| - 1]|).out);
    }
  }

  /** A pushed batch carries one non-empty type, and only messages of that type, exactly when no
      message in it came with an empty type. */
  lemma BatchTypedExactly(fragments: seq<string>, i: nat)
    requires i < |FeedAll(Start, fragments).batcher.pushed|
    ensures var b := FeedAll(Start, fragments).batcher;
            && |b.groups| == |b.pushed|
            && (Homogeneous(b.pushed[i], b.groups[i]) <==> forall m :: m in b.groups[i] ==> m.msgType != "")
  {
    BatchesAccounted(fragments);
    var b := FeedAll(Start, fragments).batcher;
    assert GroupOk(b.pushed[i], b.groups[i]);
  }

  const Mixing: string := "|1|xa|1|y"
  const Untyped: Message := Message("", "1", "x")
  const Typed: Message := Message("a", "1", "y")

  lemma OneMoreByte(n: nat, w: Walk, w': Walk)
    requires n < |Mixing| && WalkTo(Fresh, Mixing, n) == w && Byte(w, Mixing[n], n + 1 == |Mixing|) == w'
    ensures WalkTo(Fresh, Mixing, n + 1) == w'
  {
  }

  lemma MixingFirst()
    ensures WalkTo(Fresh, Mixing, 4) == Walk(Fresh, [Delivery(Untyped, false)])
  {
    DecimalRoundTrip(1);
    assert Decimal(1) == "1" && "" + ['x'] == "x";
    OneMoreByte(0, Walk(Fresh, []), Walk(Parse(InLength, "", "", 0, ""), []));
    OneMoreByte(1, Walk(Parse(InLength, "", "", 0, ""), []), Walk(Parse(InLength, "", "1", 0, ""), []));
    OneMoreByte(2, Walk(Parse(InLength, "", "1", 0, ""), []), Walk(Parse(InContent, "", "1", 1, ""), []));
    OneMoreByte(3, Walk(Parse(InContent, "", "1", 1, ""), []), Walk(Fresh, [Delivery(Untyped, false)]));
  }

  lemma MixingSecond()
    ensures WalkTo(Fresh, Mixing, 8) == Walk(Parse(InContent, "a", "1", 1, ""), [Delivery(Untyped, false)])
  {
    MixingFirst();
    DecimalRoundTrip(1);
    assert Decimal(1) == "1";
    var u := [Delivery(Untyped, false)];
    OneMoreByte(4, Walk(Fresh, u), Walk(Parse(InType, "a", "", 0, ""), u));
    OneMoreByte(5, Walk(Parse(InType, "a", "", 0, ""), u), Walk(Parse(InLength, "a", "", 0, ""), u));
    OneMoreByte(6, Walk(Parse(InLength, "a", "", 0, ""), u), Walk(Parse(InLength, "a", "1", 0, ""), u));
    OneMoreByte(7, Walk(Parse(InLength, "a", "1", 0, ""), u), Walk(Parse(InContent, "a", "1", 1, ""), u));
  }

  lemma MixingWalk()
    ensures WalkTo(Fresh, Mixing, 9) == Walk(Fresh, [Delivery(Untyped, false), Delivery(Typed, true)])
  {
    MixingSecond();
    assert "" + ['y'] == "y";
    var u := [Delivery(Untyped, false)];
    assert u + [Delivery(Typed, true)] == [Delivery(Untyped, false), Delivery(Typed, true)];
    OneMoreByte(8, Walk(Parse(InContent, "a", "1", 1, ""), u), Walk(Fresh, u + [Delivery(Typed, true)]));
  }

  function AfterUntyped(): Batcher {
    Batcher(Batch("", "|1|x"), [], [Entry(Untyped, true)], [], [Untyped])
  }

  function AfterTyped(): Batcher {
    Batcher(EmptyBatch, [Batch("a", "|1|xa|1|y")], [Entry(Untyped, true), Entry(Typed, true)], [[Untyped, Typed]], [])
  }

  lemma MixingDeliveries()
    ensures Deliver(Start.batcher, Delivery(Untyped, false)) == AfterUntyped()
    ensures Deliver(AfterUntyped(), Delivery(Typed, true)) == AfterTyped()
  {
    assert Untyped.Bytes() == "|1|x" && "" + Untyped.Bytes() == "|1|x";
    assert Typed.Bytes() == "a|1|y" && "|1|x" + Typed.Bytes() == "|1|xa|1|y";
    assert [Untyped] + [Typed] == [Untyped, Typed];
    assert [Entry(Untyped, true)] + [Entry(Typed, true)] == [Entry(Untyped, true), Entry(Typed, true)];
  }

  /** An input on which the types get mixed: an untyped message followed by a typed one. */
  lemma EmptyTypeMixes()
    ensures var b := Feed(Start, Mixing).batcher;
            b.pushed == [Batch("a", "|1|xa|1|y")] && b.groups == [[Untyped, Typed]]
            && !Homogeneous(b.pushed[0], b.groups[0])
  {
    MixingWalk();
    MixingDeliveries();
    var b0, d1, d2 := Start.batcher, Delivery(Untyped, false), Delivery(Typed, true);
    var one := [d1];
    assert one[..0] == [] && [d1, d2] == one + [d2];
    DeliverOneMore(b0, one, d2);
    assert DeliverAll(b0, one) == Deliver(b0, d1);
    assert Untyped in [Untyped, Typed];
  }
}
