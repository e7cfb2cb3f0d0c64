/** No byte of a publisher is lost or reordered on the way to the queue, with one exact exception. */
module PublisherConservation {
  import opened Sequences
  import opened Frames
  import opened MessageBatches
  import opened PublisherModel
  import opened PublisherTheorems

  /** The bytes read of the frame that is not finished yet. */
  function Unfinished(q: Parse): string {
    match q.phase
    case InType => q.msgType
    case InLength => q.msgType + "|" + q.lengthText
    case InContent => q.msgType + "|" + q.lengthText + "|" + q.content
    case Halted => ""
  }

  /** The reader's account: what it has completed and what it is still reading are its input. */
  ghost predicate Reads(x: Parsed, bytes: string) {
    && (x.parse.phase.InType? ==> x.parse == Fresh.(msgType := x.parse.msgType))
    && (x.parse.phase.InLength? ==> x.parse.content == "")
    && (!x.parse.phase.Halted? ==> bytes == AllBytes(x.messages) + Unfinished(x.parse))
  }

  lemma SettleReads(x: Parsed, bytes: string)
    requires Reads(x, bytes)
    ensures Reads(SettleParsed(x), bytes)
  {
    if Due(x.parse) {
      AllBytesAppend(x.messages, Complete(x.parse));
      assert bytes + "" == bytes;
    }
  }

  lemma TakeReads(x: Parsed, bytes: string, ch: char)
    requires Reads(x, bytes)
    ensures Reads(x.(parse := TakeParse(x.parse, ch)), bytes + [ch])
  {
    var q, q' := x.parse, TakeParse(x.parse, ch);
    if !q'.phase.Halted? {
      assert Unfinished(q') == Unfinished(q) + [ch];
    }
  }

  lemma ByteReads(x: Parsed, bytes: string, ch: char)
    requires Reads(x, bytes)
    ensures Reads(ParseByte(x, ch), bytes + [ch])
  {
    SettleReads(x, bytes);
    var y := SettleParsed(x);
    TakeReads(y, bytes, ch);
    SettleReads(y.(parse := TakeParse(y.parse, ch)), bytes + [ch]);
  }

  lemma {:induction false} ParseReads(bytes: string)
    ensures Reads(ParseBytes(Parsed(Fresh, []), bytes), bytes)
    decreases |bytes|
  {
    if bytes != "" {
      var init, ch := bytes[..|bytes| - 1], bytes[|bytes| - 1];
      ParseReads(init);
      ByteReads(ParseBytes(Parsed(Fresh, []), init), init, ch);
      assert init + [ch] == bytes;
    }
  }

  // ---------------------------------------------------------------- what is lost

  /** A completed message is refused exactly in these states of the open batch. With named batches
      (see NoUntyped below) only the second can occur: a message of the batch's own type arriving
      when the batch is precisely at its growth limit. */
  ghost predicate Refuses(open: Batch, msgType: string) {
    || (open.msgType == "" && |open.bytes| >= GROW_UNTIL_LENGTH)
    || (open.msgType == msgType && |open.bytes| == GROW_UNTIL_LENGTH)
  }

  lemma RefusedExactly(b: Batcher, d: Delivery)
    ensures Deliver(b, d).log == b.log + [Entry(d.m, !Refuses(b.current, d.m.msgType))]
  {
  }

  ghost predicate NoUntyped(b: Batcher) {
    forall m :: m in Messages(b.log) ==> m.msgType != ""
  }

  lemma {:induction false} KeptAreMessages(log: seq<Entry>)
    ensures forall m :: m in Kept(log) ==> m in Messages(log)
  {
    if log != [] {
      KeptAreMessages(log[..|log| - 1]);
    }
  }

  lemma OpenAreKept(b: Batcher)
    requires Accounted(b)
    ensures forall m :: m in b.open ==> m in Kept(b.log)
  {
    var flat := Flatten(b.groups);
    forall i | 0 <= i < |b.open| ensures b.open[i] in Kept(b.log) {
      assert (flat + b.open)[|flat| + i] == b.open[i];
    }
  }

  /** At every delivery, inside a fragment or at its start: without untyped messages the open batch has a
      name exactly when it has content, so it refuses a message exactly when that has its own type and it is
      exactly GROW_UNTIL_LENGTH bytes long. */
  lemma LossExactly(fragments: seq<string>, ds: seq<Delivery>, d: Delivery)
    requires NoUntyped(DeliverAll(FeedAll(Start, fragments).batcher, ds))
    ensures var b := DeliverAll(FeedAll(Start, fragments).batcher, ds);
            && (b.current.msgType == "" <==> b.current.bytes == "")
            && (Deliver(b, d).log == b.log + [Entry(d.m, false)] <==>
                  b.current.msgType == d.m.msgType && |b.current.bytes| == GROW_UNTIL_LENGTH)
  {
    var b := DeliverAll(FeedAll(Start, fragments).batcher, ds);
    BatchesAccounted(fragments);
    DeliverAllAccounted(FeedAll(Start, fragments).batcher, ds);
    OpenIsNamed(b);
    RefusedExactly(b, d);
    assert (b.log + [Entry(d.m, false)])[|b.log|] == Entry(d.m, false);
    assert (b.log + [Entry(d.m, true)])[|b.log|] == Entry(d.m, true);
  }

  lemma OpenIsNamed(b: Batcher)
    requires Accounted(b) && NoUntyped(b)
    ensures b.current.msgType == "" <==> b.current.bytes == ""
    ensures b.open == [] <==> b.current.bytes == ""
    ensures forall m :: m in b.open ==> m.msgType == b.current.msgType
  {
    KeptAreMessages(b.log);
    OpenAreKept(b);
    if b.open != [] {
      forall x | x in b.open ensures x.msgType != "" {
        assert x in Messages(b.log);
      }
      assert Homogeneous(b.current, b.open);
      AllBytesNotEmpty(b.open);
    }
  }

  lemma AllBytesNotEmpty(ms: seq<Message>)
    requires ms != []
    ensures |AllBytes(ms)| >= 2
  {
  }

  // ---------------------------------------------------------------- every delivery of a connection

  /** The messages a connection completes, in order, and whether each ended its fragment. */
  function Deliveries(fragments: seq<string>): seq<Delivery> {
    if fragments == [] then []
    else
      var init, last := fragments[..|fragments| - 1], fragments[|fragments| - 1];
      Deliveries(init) + WalkTo(FeedAll(Start, init).parse, last, |last|).out
  }

  lemma {:induction false} DeliverAllConcat(b: Batcher, a: seq<Delivery>, c: seq<Delivery>)
    ensures DeliverAll(b, a + c) == DeliverAll(DeliverAll(b, a), c)
    decreases |c|
  {
    if c == [] {
      assert a + c == a;
    } else {
      DeliverAllConcat(b, a, c[..|c| - 1]);
      assert (a + c)[..|a + c| - 1] == a + c[..|c| - 1];
    }
  }

  lemma {:induction false} FeedIsDeliveries(fragments: seq<string>)
    ensures FeedAll(Start, fragments).batcher == DeliverAll(Start.batcher, Deliveries(fragments))
  {
    if fragments != [] {
      var init, last := fragments[..|fragments| - 1], fragments[|fragments| - 1];
      FeedIsDeliveries(init);
      DeliverAllConcat(Start.batcher, Deliveries(init), WalkTo(FeedAll(Start, init).parse, last, |last|).out);
    }
  }

  /** The batches as delivery n finds them. */
  function Before(ds: seq<Delivery>, n: nat): Batcher
    requires n <= |ds|
  {
    DeliverAll(Start.batcher, ds[..n])
  }

  /** Delivery n finds the open batch in a state in which it refuses. */
  ghost predicate RefusedAt(ds: seq<Delivery>, n: nat)
    requires n < |ds|
  {
    Refuses(Before(ds, n).current, ds[n].m.msgType)
  }

  lemma BeforeNext(ds: seq<Delivery>, n: nat)
    requires n < |ds|
    ensures Before(ds, n + 1) == Deliver(Before(ds, n), ds[n])
  {
    assert ds[..n + 1][..n] == ds[..n];
  }

  lemma LogGrows(ds: seq<Delivery>, n: nat)
    requires n < |ds|
    ensures Before(ds, n + 1).log == Before(ds, n).log + [Entry(ds[n].m, !RefusedAt(ds, n))]
  {
    BeforeNext(ds, n);
    RefusedExactly(Before(ds, n), ds[n]);
  }

  lemma {:induction false} LogLength(ds: seq<Delivery>, n: nat)
    requires n <= |ds|
    ensures |Before(ds, n).log| == n
  {
    if n > 0 {
      LogLength(ds, n - 1);
      LogGrows(ds, n - 1);
    }
  }

  /** Message by message, what became of each delivery. */
  lemma {:induction false} LogTells(ds: seq<Delivery>, n: nat, k: nat)
    requires k < n <= |ds|
    ensures |Before(ds, n).log| == n && Before(ds, n).log[k] == Entry(ds[k].m, !RefusedAt(ds, k))
    decreases n
  {
    LogLength(ds, n - 1);
    LogGrows(ds, n - 1);
    if k < n - 1 {
      LogTells(ds, n - 1, k);
    }
  }

  ghost predicate AllKept(log: seq<Entry>) {
    forall i :: 0 <= i < |log| ==> log[i].kept
  }

  /** No delivery of the connection finds a batch that refuses it. */
  ghost predicate NothingRefused(fragments: seq<string>) {
    forall n :: 0 <= n < |Deliveries(fragments)| ==> !RefusedAt(Deliveries(fragments), n)
  }

  /** A connection loses no message exactly if no delivery meets the guard. */
  lemma KeptExactly(fragments: seq<string>)
    ensures AllKept(FeedAll(Start, fragments).batcher.log) <==> NothingRefused(fragments)
  {
    var ds := Deliveries(fragments);
    FeedIsDeliveries(fragments);
    assert ds[..|ds|] == ds;
    LogLength(ds, |ds|);
    var log := FeedAll(Start, fragments).batcher.log;
    forall n | 0 <= n < |ds| ensures log[n].kept == !RefusedAt(ds, n) {
      LogTells(ds, |ds|, n);
    }
    if AllKept(log) {
      forall n | 0 <= n < |ds| ensures !RefusedAt(ds, n) {
        assert log[n].kept;
      }
    }
  }

  /** Exactly when a connection leaves nothing in its open batch: it has completed no message, or the last
      one ended its fragment. A message completed inside a fragment stays open until another one arrives. */
  lemma OpenEmptyExactly(fragments: seq<string>)
    ensures var ds := Deliveries(fragments);
            FeedAll(Start, fragments).batcher.open == [] <==> ds == [] || ds[|ds| - 1].last
  {
    var ds := Deliveries(fragments);
    FeedIsDeliveries(fragments);
    if ds != [] {
      assert Flatten<Message>([]) + [] == [];
      DeliverAllAccounted(Start.batcher, ds[..|ds| - 1]);
    }
  }

  // ---------------------------------------------------------------- conservation

  function BatchBytes(bs: seq<Batch>): string {
    if bs == [] then "" else BatchBytes(bs[..|bs| - 1]) + bs[|bs| - 1].bytes
  }

  lemma {:induction false} BatchBytesAreKept(pushed: seq<Batch>, groups: seq<seq<Message>>)
    requires |groups| == |pushed|
    requires forall i :: 0 <= i < |groups| ==> pushed[i].bytes == AllBytes(groups[i])
    ensures BatchBytes(pushed) == AllBytes(Flatten(groups))
    decreases |pushed|
  {
    if pushed != [] {
      var n := |pushed| - 1;
      BatchBytesAreKept(pushed[..n], groups[..n]);
      AllBytesConcat(Flatten(groups[..n]), groups[n]);
    }
  }

  lemma AllKeptSplit(log: seq<Entry>)
    requires log != []
    ensures AllKept(log) <==> AllKept(log[..|log| - 1]) && log[|log| - 1].kept
  {
  }

  lemma {:induction false} AllKeptIsAll(log: seq<Entry>)
    requires AllKept(log)
    ensures Kept(log) == Messages(log)
  {
    if log != [] {
      AllKeptIsAll(log[..|log| - 1]);
    }
  }

  /** Each refused message leaves the kept bytes shorter. */
  lemma {:induction false} KeptShorter(log: seq<Entry>)
    ensures var k := |AllBytes(Kept(log))|; var n := |AllBytes(Messages(log))|;
            k <= n && (AllKept(log) || k < n)
    decreases |log|
  {
    if log != [] {
      var init, e := log[..|log| - 1], log[|log| - 1];
      KeptShorter(init);
      AllKeptSplit(log);
      AllBytesAppend(Messages(init), e.m);
      if e.kept {
        AllBytesAppend(Kept(init), e.m);
      } else {
        assert Kept(log) == Kept(init);
      }
    }
  }

  /** Conservation: unless a length could not be read, the completed messages and the unfinished frame
      are the input byte for byte; batches pushed and open hold exactly the kept messages; and nothing
      at all is missing precisely when no delivery met the guard. */
  lemma BytesConserved(fragments: seq<string>)
    requires !FeedAll(Start, fragments).parse.phase.Halted?
    ensures var p := FeedAll(Start, fragments); var b := p.batcher;
            && Flatten(fragments) == AllBytes(Messages(b.log)) + Unfinished(p.parse)
            && BatchBytes(b.pushed) + b.current.bytes == AllBytes(Kept(b.log))
            && (BatchBytes(b.pushed) + b.current.bytes + Unfinished(p.parse) == Flatten(fragments) <==>
                  NothingRefused(fragments))
  {
    var p := FeedAll(Start, fragments);
    var b := p.batcher;
    FeedAllView(Start, fragments);
    ParseReads(Flatten(fragments));
    BatchesAccounted(fragments);
    BatchBytesAreKept(b.pushed, b.groups);
    AllBytesConcat(Flatten(b.groups), b.open);
    KeptExactly(fragments);
    KeptShorter(b.log);
    if AllKept(b.log) { AllKeptIsAll(b.log); }
  }
}
