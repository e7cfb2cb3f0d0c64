/** What a publisher connection does with its bytes, one byte at a time: the frame parser and the
    batching policy of server/publisher/TCPPublisherHandler.hpp. */
module PublisherModel {
  import opened Sequences
  import opened Frames
  import opened MessageBatches

  // ---------------------------------------------------------------- the parser

  /** Halted: std::stoul threw, and no more input is processed. */
  datatype Phase = InType | InLength | InContent | Halted

  datatype Parse = Parse(phase: Phase, msgType: string, lengthText: string, length: nat, content: string)

  const Fresh: Parse := Parse(InType, "", "", 0, "")

  /** A completed message, and whether its last byte ended the fragment it came in. */
  datatype Delivery = Delivery(m: Message, last: bool)

  /** The parser on its way through a fragment, and what it has completed there. */
  datatype Walk = Walk(parse: Parse, out: seq<Delivery>)

  function Complete(q: Parse): Message {
    Message(q.msgType, q.lengthText, q.content)
  }

  /** A frame whose announced content is complete without another byte. */
  predicate Due(q: Parse) {
    q.phase.InContent? && |q.content| == q.length
  }

  function Finish(w: Walk, last: bool): Walk {
    Walk(Fresh, w.out + [Delivery(Complete(w.parse), last)])
  }

  function Settle(w: Walk): Walk {
    if Due(w.parse) then Finish(w, false) else w
  }

  /** One byte to a parser none of whose frames is due. */
  function TakeParse(q: Parse, ch: char): Parse {
    match q.phase
    case Halted => q
    case InType => if ch == '|' then q.(phase := InLength) else q.(msgType := q.msgType + [ch])
    case InLength =>
      if ch == '|' then
        match ContentLength(q.lengthText)
        case None => q.(phase := Halted)
        case Some(n) => q.(phase := InContent, length := n)
      else q.(lengthText := q.lengthText + [ch])
    case InContent => q.(content := q.content + [ch])
  }

  function Take(w: Walk, ch: char, last: bool): Walk {
    var w1 := w.(parse := TakeParse(w.parse, ch));
    if w.parse.phase.InContent? && Due(w1.parse) then Finish(w1, last) else w1
  }

  /** One byte; `last` says that it ends its fragment. A frame with no content completes when the
      byte after it arrives. */
  function Byte(w: Walk, ch: char, last: bool): Walk {
    Take(Settle(w), ch, last)
  }

  /** The first n bytes of a fragment. */
  function WalkTo(q: Parse, fragment: string, n: nat): Walk
    requires n <= |fragment|
  {
    if n == 0 then Walk(q, []) else Byte(WalkTo(q, fragment, n - 1), fragment[n - 1], n == |fragment|)
  }

  // ---------------------------------------------------------------- the batches

  /** A completed message and whether the batch accepted it. */
  datatype Entry = Entry(m: Message, kept: bool)

  /** `current` is the open batch, `pushed` the batches handed to the queue. History: every
      completed message, and the messages inside each pushed batch and inside the open one. */
  datatype Batcher = Batcher(
    current: Batch,
    pushed: seq<Batch>,
    log: seq<Entry>,
    groups: seq<seq<Message>>,
    open: seq<Message>
  )

  const EmptyBatch: Batch := Batch("", "")

  /** Hands the open batch to the queue; moving it away leaves an empty batch without a type. */
  function Push(b: Batcher): Batcher {
    b.(current := EmptyBatch, pushed := b.pushed + [b.current], groups := b.groups + [b.open], open := [])
  }

  /** Cuts the open batch on a change of type or when it is full, and names it. */
  function Prepare(b: Batcher, msgType: string): Batcher {
    if b.current.msgType == "" then b.(current := b.current.(msgType := msgType))
    else if b.current.msgType != msgType || |b.current.bytes| > GROW_UNTIL_LENGTH
    then Push(b).(current := Batch(msgType, ""))
    else b
  }

  /** Appends a message; a batch that has grown to its limit refuses it, and it is gone. */
  function Append(b: Batcher, m: Message): Batcher {
    if |b.current.bytes| >= GROW_UNTIL_LENGTH
    then b.(log := b.log + [Entry(m, false)])
    else b.(current := b.current.(bytes := b.current.bytes + m.Bytes()),
            log := b.log + [Entry(m, true)], open := b.open + [m])
  }

  /** Everything that happens when a frame is complete. */
  function Deliver(b: Batcher, d: Delivery): Batcher {
    var b1 := Append(Prepare(b, d.m.msgType), d.m);
    if d.last then Push(b1) else b1
  }

  function DeliverAll(b: Batcher, ds: seq<Delivery>): Batcher {
    if ds == [] then b else Deliver(DeliverAll(b, ds[..|ds| - 1]), ds[|ds| - 1])
  }

  lemma DeliverOneMore(b: Batcher, ds: seq<Delivery>, d: Delivery)
    ensures DeliverAll(b, ds + [d]) == Deliver(DeliverAll(b, ds), d)
  {
    assert (ds + [d])[..|ds|] == ds;
  }

  // ---------------------------------------------------------------- the connection

  datatype Publisher = Publisher(parse: Parse, batcher: Batcher)

  const Start: Publisher := Publisher(Fresh, Batcher(EmptyBatch, [], [], [], []))

  /** One received fragment. */
  function Feed(p: Publisher, fragment: string): Publisher {
    var w := WalkTo(p.parse, fragment, |fragment|);
    Publisher(w.parse, DeliverAll(p.batcher, w.out))
  }

  /** A whole connection: fragments as they were received. */
  function FeedAll(p: Publisher, fragments: seq<string>): Publisher {
    if fragments == [] then p
    else Feed(FeedAll(p, fragments[..|fragments| - 1]), fragments[|fragments| - 1])
  }

  // ---------------------------------------------------------------- copying in bulk

  /** How many content bytes one bulk copy takes. */
  function BulkSize(q: Parse, available: nat): (n: nat)
    requires |q.content| <= q.length
    ensures n <= available
  {
    if q.length - |q.content| <= available then q.length - |q.content| else available
  }

  function WithContent(w: Walk, content: string): Walk {
    w.(parse := w.parse.(content := content))
  }

  /** A bulk copy at index i, and the delivery it may complete. A copy of no bytes never ends a
      fragment. */
  datatype Copied = Copied(parse: Parse, delivery: Option<Delivery>)

  function Copy(q: Parse, fragment: string, i: nat): Copied
    requires i < |fragment| && |q.content| <= q.length
  {
    var n := BulkSize(q, |fragment| - i);
    var q1 := q.(content := q.content + fragment[i..i + n]);
    if |q1.content| == q.length
    then Copied(Fresh, Some(Delivery(Complete(q1), n > 0 && i + n == |fragment|)))
    else Copied(q1, None)
  }

  function Bulk(w: Walk, fragment: string, i: nat): Walk
    requires i < |fragment| && |w.parse.content| <= w.parse.length
  {
    var c := Copy(w.parse, fragment, i);
    Walk(c.parse, if c.delivery.Some? then w.out + [c.delivery.value] else w.out)
  }

  function DeliverCopied(b: Batcher, c: Copied): Batcher {
    if c.delivery.Some? then Deliver(b, c.delivery.value) else b
  }

  lemma BulkDelivers(b: Batcher, w: Walk, fragment: string, i: nat)
    requires i < |fragment| && |w.parse.content| <= w.parse.length
    ensures DeliverAll(b, Bulk(w, fragment, i).out) == DeliverCopied(DeliverAll(b, w.out), Copy(w.parse, fragment, i))
  {
    var c := Copy(w.parse, fragment, i);
    if c.delivery.Some? { DeliverOneMore(b, w.out, c.delivery.value); }
  }

  /** Where the loop over a fragment stands: byte i comes next, and a frame that is complete without
      it may have been delivered already. */
  ghost predicate At(start: Parse, here: Walk, fragment: string, i: nat)
    requires i <= |fragment|
  {
    here == WalkTo(start, fragment, i) || (i < |fragment| && here == Settle(WalkTo(start, fragment, i)))
  }

  lemma HeaderStep(start: Parse, here: Walk, fragment: string, i: nat)
    requires i < |fragment| && At(start, here, fragment, i) && !here.parse.phase.InContent?
    ensures At(start, here.(parse := TakeParse(here.parse, fragment[i])), fragment, i + 1)
  {
  }

  /** One more content byte that does not complete its frame. */
  lemma ContentStep(start: Parse, here: Walk, fragment: string, i: nat)
    requires i < |fragment| && At(start, here, fragment, i)
    requires here.parse.phase.InContent? && |here.parse.content| + 1 < here.parse.length
    ensures WalkTo(start, fragment, i + 1) == WithContent(here, here.parse.content + [fragment[i]])
  {
  }

  /** Bytes of an unfinished frame taken in one go are those bytes taken one by one. */
  lemma {:induction false} ContentSteps(start: Parse, here: Walk, fragment: string, i: nat, n: nat)
    requires 0 < n && i + n <= |fragment| && At(start, here, fragment, i)
    requires here.parse.phase.InContent? && |here.parse.content| + n < here.parse.length
    ensures WalkTo(start, fragment, i + n) == WithContent(here, here.parse.content + fragment[i..i + n])
    decreases n
  {
    var bytes := here.parse.content;
    if n == 1 {
      ContentStep(start, here, fragment, i);
      assert fragment[i..i + 1] == [fragment[i]];
    } else {
      ContentSteps(start, here, fragment, i, n - 1);
      ContentStep(start, WithContent(here, bytes + fragment[i..i + n - 1]), fragment, i + n - 1);
      assert bytes + fragment[i..i + n] == (bytes + fragment[i..i + n - 1]) + [fragment[i + n - 1]];
    }
  }

  /** The walk just before the last byte of a bulk copy of n bytes. */
  lemma BulkAllButLast(start: Parse, here: Walk, fragment: string, i: nat, n: nat)
    requires 0 < n && i + n <= |fragment| && At(start, here, fragment, i)
    requires here.parse.phase.InContent? && |here.parse.content| + n <= here.parse.length
    ensures At(start, WithContent(here, here.parse.content + fragment[i..i + n - 1]), fragment, i + n - 1)
  {
    if n > 1 {
      ContentSteps(start, here, fragment, i, n - 1);
    } else {
      assert here.parse.content + fragment[i..i] == here.parse.content;
    }
  }

  /** The last byte of a bulk copy, which may complete the frame. */
  lemma BulkLastByte(here: Walk, fragment: string, i: nat, n: nat)
    requires 0 < n && i + n <= |fragment| && here.parse.phase.InContent?
    requires |here.parse.content| <= here.parse.length && n == BulkSize(here.parse, |fragment| - i)
    ensures var f := WithContent(here, here.parse.content + fragment[i..i + n - 1]);
            !Due(f.parse) && Take(f, fragment[i + n - 1], i + n == |fragment|) == Bulk(here, fragment, i)
  {
    assert here.parse.content + fragment[i..i + n]
        == (here.parse.content + fragment[i..i + n - 1]) + [fragment[i + n - 1]];
  }

  lemma ByteStep(start: Parse, f: Walk, fragment: string, j: nat)
    requires j < |fragment| && At(start, f, fragment, j) && !Due(f.parse)
    ensures At(start, Take(f, fragment[j], j + 1 == |fragment|), fragment, j + 1)
  {
  }

  /** The bulk copy refines the bytes; with nothing to copy it only delivers what is due. */
  lemma BulkStep(start: Parse, here: Walk, fragment: string, i: nat)
    requires i < |fragment| && At(start, here, fragment, i)
    requires here.parse.phase.InContent? && |here.parse.content| <= here.parse.length
    ensures At(start, Bulk(here, fragment, i), fragment, i + BulkSize(here.parse, |fragment| - i))
    ensures BulkSize(here.parse, |fragment| - i) == 0 ==> Bulk(here, fragment, i).parse == Fresh
  {
    var n := BulkSize(here.parse, |fragment| - i);
    if n == 0 {
      assert here.parse.content + fragment[i..i] == here.parse.content;
    } else {
      BulkAllButLast(start, here, fragment, i, n);
      BulkLastByte(here, fragment, i, n);
      ByteStep(start, WithContent(here, here.parse.content + fragment[i..i + n - 1]), fragment, i + n - 1);
    }
  }

  /** One turn of the loop of forwardMessage, and the index it leaves: either bytes are consumed, or a
      frame without content is delivered and the same byte comes again. */
  function Turn(w: Walk, fragment: string, i: nat): Walk
    requires i < |fragment| && |w.parse.content| <= w.parse.length
  {
    if w.parse.phase.InContent? then Bulk(w, fragment, i) else w.(parse := TakeParse(w.parse, fragment[i]))
  }

  function TurnTo(q: Parse, fragment: string, i: nat): (next: nat)
    requires i < |fragment| && |q.content| <= q.length
    ensures next <= |fragment|
  {
    if q.phase.InContent? then i + BulkSize(q, |fragment| - i) else i + 1
  }

  lemma TurnStep(start: Parse, here: Walk, fragment: string, i: nat)
    requires i < |fragment| && At(start, here, fragment, i) && |here.parse.content| <= here.parse.length
    ensures At(start, Turn(here, fragment, i), fragment, TurnTo(here.parse, fragment, i))
    ensures TurnTo(here.parse, fragment, i) == i ==>
              here.parse.phase.InContent? && Turn(here, fragment, i).parse == Fresh
  {
    if here.parse.phase.InContent? {
      BulkStep(start, here, fragment, i);
    } else {
      HeaderStep(start, here, fragment, i);
    }
  }

  /** After the parser has halted the rest of a fragment changes nothing. */
  lemma {:induction false} HaltedSteps(start: Parse, fragment: string, i: nat, n: nat)
    requires i <= n <= |fragment| && WalkTo(start, fragment, i).parse.phase.Halted?
    ensures WalkTo(start, fragment, n) == WalkTo(start, fragment, i)
    decreases n
  {
    if i < n {
      HaltedSteps(start, fragment, i, n - 1);
    }
  }

  lemma AtEnd(start: Parse, here: Walk, fragment: string, i: nat)
    requires i <= |fragment| && At(start, here, fragment, i)
    requires i == |fragment| || here.parse.phase.Halted?
    ensures here == WalkTo(start, fragment, |fragment|)
  {
    if i < |fragment| {
      HaltedSteps(start, fragment, i, |fragment|);
    }
  }
}
