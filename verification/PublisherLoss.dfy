/** Which lists of messages a publisher can lose one of: a condition on the messages alone, and why nothing
    is lost without it, however their frames are received. */
module PublisherLoss {
  import opened Sequences
  import opened Frames
  import opened MessageBatches
  import opened PublisherModel
  import opened PublisherTheorems
  import opened PublisherConservation

  // ---------------------------------------------------------------- the condition

  /** The bytes of messages i to j-1. */
  function Span(ms: seq<Message>, i: nat, j: nat): nat
    requires i <= j <= |ms|
  {
    |AllBytes(ms[i..j])|
  }

  predicate OneType(ms: seq<Message>, i: nat, j: nat)
    requires i <= j < |ms|
  {
    forall k :: i <= k <= j ==> ms[k].msgType == ms[j].msgType
  }

  /** A batch that begins with message h goes past the growth limit just before message i. */
  predicate Overflows(ms: seq<Message>, h: nat, i: nat)
    requires h < i < |ms|
  {
    OneType(ms, h, i) && Span(ms, h, i - 1) < GROW_UNTIL_LENGTH < Span(ms, h, i)
  }

  /** Some way of receiving the frames makes message i the first of a batch: after a fragment that ends with
      the message before it, on a change of type, or when the batch before it is full. */
  predicate CanOpen(ms: seq<Message>, i: nat)
    requires i < |ms|
  {
    || i == 0 || ms[i - 1].content != "" || ms[i - 1].msgType != ms[i].msgType
    || exists h :: 0 <= h < i && CanOpen(ms, h) && Overflows(ms, h, i)
  }

  predicate FillsAt(ms: seq<Message>, i: nat, j: nat)
    requires i < j < |ms|
  {
    CanOpen(ms, i) && OneType(ms, i, j) && Span(ms, i, j) == GROW_UNTIL_LENGTH
  }

  /** Messages of one type fill a batch to exactly the growth limit, and one more of that type follows. */
  predicate FillsExactly(ms: seq<Message>) {
    exists i, j :: 0 <= i < j < |ms| && FillsAt(ms, i, j)
  }

  lemma SpanAppend(ms: seq<Message>, i: nat, j: nat)
    requires i <= j < |ms|
    ensures AllBytes(ms[i..j + 1]) == AllBytes(ms[i..j]) + ms[j].Bytes()
    ensures Span(ms, i, j) + 2 <= Span(ms, i, j + 1)
  {
    AllBytesAppend(ms[i..j], ms[j]);
    assert ms[i..j + 1] == ms[i..j] + [ms[j]];
  }

  lemma {:induction false} SpanGrows(ms: seq<Message>, i: nat, j: nat, k: nat)
    requires i <= j <= k <= |ms|
    ensures Span(ms, i, j) + 2 * (k - j) <= Span(ms, i, k)
    decreases k
  {
    if j < k {
      SpanGrows(ms, i, j, k - 1);
      SpanAppend(ms, i, k - 1);
    }
  }

  // ---------------------------------------------------------------- deliveries and fragments

  lemma {:induction false} DeliveredAt(ds: seq<Delivery>, n: nat)
    requires n < |ds|
    ensures |Delivered(ds)| == |ds| && Delivered(ds)[n] == ds[n].m
  {
    if |ds| > 1 {
      DeliveredAt(ds[..|ds| - 1], if n < |ds| - 1 then n else 0);
    }
  }

  lemma DeliveredIsRead(fragments: seq<string>)
    ensures Delivered(Deliveries(fragments)) == Messages(FeedAll(Start, fragments).batcher.log)
  {
    FeedIsDeliveries(fragments);
    DeliverAllLog(Start.batcher, Deliveries(fragments));
  }

  /** Only the last delivery of a fragment can end it; it has content and leaves no unfinished frame. */
  ghost predicate EndsOk(w: Walk, atEnd: bool) {
    forall k :: 0 <= k < |w.out| && w.out[k].last ==>
      atEnd && k == |w.out| - 1 && w.parse == Fresh && w.out[k].m.content != ""
  }

  lemma {:induction false} WalkEnds(q: Parse, fragment: string, n: nat)
    requires n <= |fragment|
    ensures EndsOk(WalkTo(q, fragment, n), n == |fragment|)
    decreases n
  {
    if n > 0 {
      WalkEnds(q, fragment, n - 1);
      ByteEnds(WalkTo(q, fragment, n - 1), fragment[n - 1], n == |fragment|);
    }
  }

  lemma ByteEnds(w: Walk, ch: char, last: bool)
    requires EndsOk(w, false)
    ensures EndsOk(Byte(w, ch, last), last)
    ensures last && Byte(w, ch, last).parse == Fresh ==>
              var out := Byte(w, ch, last).out; out != [] && out[|out| - 1].last
  {
    var v := Settle(w);
    assert forall k :: 0 <= k < |v.out| ==> !v.out[k].last;
  }

  /** A fragment after which no frame is unfinished was ended by a delivery. */
  lemma FreshMeansEnded(q: Parse, fragment: string)
    requires fragment != "" && WalkTo(q, fragment, |fragment|).parse == Fresh
    ensures var out := WalkTo(q, fragment, |fragment|).out; out != [] && out[|out| - 1].last
  {
    var n := |fragment| - 1;
    WalkEnds(q, fragment, n);
    ByteEnds(WalkTo(q, fragment, n), fragment[n], true);
  }

  lemma {:induction false} DeliveriesPrefix(fragments: seq<string>, m: nat)
    requires m <= |fragments|
    ensures Deliveries(fragments[..m]) <= Deliveries(fragments)
    decreases |fragments|
  {
    if m < |fragments| {
      var init := fragments[..|fragments| - 1];
      DeliveriesPrefix(init, m);
      assert init[..m] == fragments[..m];
    } else {
      assert fragments[..m] == fragments;
    }
  }

  /** After m fragments there is a cut right behind the first k messages. */
  ghost predicate CutBehind(fragments: seq<string>, m: nat, ms: seq<Message>, k: nat)
    requires m <= |fragments| && k <= |ms|
  {
    Flatten(fragments[..m]) == AllBytes(ms[..k])
  }

  /** The last fragment's share of the deliveries. */
  function LastOut(fragments: seq<string>): seq<Delivery>
    requires fragments != []
  {
    var init, f := fragments[..|fragments| - 1], fragments[|fragments| - 1];
    WalkTo(FeedAll(Start, init).parse, f, |f|).out
  }

  lemma LastOutEnds(fragments: seq<string>, k: nat)
    requires fragments != [] && k < |LastOut(fragments)| && LastOut(fragments)[k].last
    ensures k == |LastOut(fragments)| - 1 && LastOut(fragments)[k].m.content != ""
    ensures FeedAll(Start, fragments).parse == Fresh
  {
    var init, f := fragments[..|fragments| - 1], fragments[|fragments| - 1];
    WalkEnds(FeedAll(Start, init).parse, f, |f|);
  }

  lemma FreshMeansCut(fragments: seq<string>)
    requires FeedAll(Start, fragments).parse == Fresh
    ensures var ms := Delivered(Deliveries(fragments)); CutBehind(fragments, |fragments|, ms, |ms|)
  {
    var ms := Delivered(Deliveries(fragments));
    assert fragments[..|fragments|] == fragments && ms[..|ms|] == ms;
    BytesConserved(fragments);
    DeliveredIsRead(fragments);
    assert AllBytes(ms) + "" == AllBytes(ms);
  }

  lemma CutStays(fragments: seq<string>, m: nat, n: nat)
    requires fragments != [] && m < |fragments| && n < |Deliveries(fragments[..|fragments| - 1])|
    requires var before := Delivered(Deliveries(fragments[..|fragments| - 1]));
             n < |before| && CutBehind(fragments[..|fragments| - 1], m, before, n + 1)
    ensures n < |Delivered(Deliveries(fragments))|
    ensures CutBehind(fragments, m, Delivered(Deliveries(fragments)), n + 1)
  {
    var init := fragments[..|fragments| - 1];
    DeliveredConcat(Deliveries(init), LastOut(fragments));
    assert init[..m] == fragments[..m];
    assert Delivered(Deliveries(init))[..n + 1] == Delivered(Deliveries(fragments))[..n + 1];
  }

  /** A delivery that ended its fragment has content, and there is a cut behind its message. */
  lemma {:induction false} LastMeansCut(fragments: seq<string>, n: nat) returns (m: nat)
    requires n < |Deliveries(fragments)| && Deliveries(fragments)[n].last
    ensures m <= |fragments| && Deliveries(fragments)[n].m.content != ""
    ensures |Delivered(Deliveries(fragments))| > n
    ensures CutBehind(fragments, m, Delivered(Deliveries(fragments)), n + 1)
    decreases |fragments|
  {
    var init := fragments[..|fragments| - 1];
    var before := Deliveries(init);
    DeliveredAt(Deliveries(fragments), n);
    assert Deliveries(fragments) == before + LastOut(fragments);
    if n < |before| {
      m := LastMeansCut(init, n);
      CutStays(fragments, m, n);
    } else {
      LastOutEnds(fragments, n - |before|);
      FreshMeansCut(fragments);
      m := |fragments|;
    }
  }

  lemma {:induction false} DeliveredConcat(a: seq<Delivery>, c: seq<Delivery>)
    ensures Delivered(a + c) == Delivered(a) + Delivered(c)
    decreases |c|
  {
    if c == [] {
      assert a + c == a;
    } else {
      DeliveredConcat(a, c[..|c| - 1]);
      assert (a + c)[..|a + c| - 1] == a + c[..|c| - 1];
    }
  }

  // ---------------------------------------------------------------- the open batch

  ghost predicate AllTyped(ms: seq<Message>) {
    forall k :: 0 <= k < |ms| ==> ms[k].msgType != ""
  }

  /** The open batch holds these messages, all of its type, and was below the limit before the last. */
  ghost predicate Holds(b: Batcher, open: seq<Message>) {
    && b.open == open && b.current.bytes == AllBytes(open)
    && (open == [] <==> b.current.msgType == "")
    && (open != [] ==> |AllBytes(open[..|open| - 1])| < GROW_UNTIL_LENGTH)
    && forall k :: 0 <= k < |open| ==> open[k].msgType == b.current.msgType
  }

  lemma AccountedHolds(b: Batcher, ms: seq<Message>, n: nat)
    requires AllTyped(ms) && n <= |ms| && Accounted(b) && Messages(b.log) == ms[..n]
    ensures Holds(b, b.open)
  {
    assert NoUntyped(b) by {
      forall m | m in Messages(b.log) ensures m.msgType != "" {
        assert m in ms[..n];
      }
    }
    OpenIsNamed(b);
  }

  lemma StaysOpen(b: Batcher, open: seq<Message>, msgType: string)
    requires Holds(b, open) && open != [] && open[0].msgType == msgType && |AllBytes(open)| <= GROW_UNTIL_LENGTH
    ensures Prepare(b, msgType).open == open
  {
  }

  lemma ChangePushes(b: Batcher, open: seq<Message>, msgType: string)
    requires Holds(b, open) && (open != [] ==> open[|open| - 1].msgType != msgType || |AllBytes(open)| > GROW_UNTIL_LENGTH)
    ensures Prepare(b, msgType).open == []
  {
  }

  lemma NotRefusedFits(b: Batcher, msgType: string)
    requires !Refuses(b.current, msgType)
    ensures |Prepare(b, msgType).current.bytes| < GROW_UNTIL_LENGTH
  {
  }

  lemma BeforeAccounted(ds: seq<Delivery>, n: nat)
    requires n <= |ds|
    ensures Accounted(Before(ds, n))
  {
    assert Flatten<Message>([]) + [] == [];
    DeliverAllAccounted(Start.batcher, ds[..n]);
  }

  // ---------------------------------------------------------------- without the condition nothing is lost

  /** The deliveries of a connection that reads the first of `ms`. */
  ghost predicate Carries(ds: seq<Delivery>, ms: seq<Message>) {
    |ds| <= |ms| && forall k :: 0 <= k < |ds| ==> ds[k].m == ms[k] && (ds[k].last ==> ds[k].m.content != "")
  }

  /** The open batch holds the latest messages before n, from one that can open a batch. */
  ghost predicate Opens(open: seq<Message>, ms: seq<Message>, n: nat)
    requires n < |ms|
  {
    |open| <= n && open == ms[n - |open|..n] && CanOpen(ms, n - |open|)
  }

  /** After the first n messages nothing was lost. */
  ghost predicate Good(b: Batcher, ms: seq<Message>, n: nat)
    requires n <= |ms|
  {
    AllKept(b.log) && Messages(b.log) == ms[..n] && (n < |ms| ==> Opens(b.open, ms, n))
  }

  /** What a batch of the type of the next message means for it: if full, the next can open a batch; if
      exactly at the limit, it is lost. */
  lemma SameTypeNext(open: seq<Message>, ms: seq<Message>, n: nat)
    requires n < |ms| && open != [] && Opens(open, ms, n)
    requires forall k :: 0 <= k < |open| ==> open[k].msgType == ms[n].msgType
    ensures |AllBytes(open[..|open| - 1])| < GROW_UNTIL_LENGTH < |AllBytes(open)| ==> Overflows(ms, n - |open|, n)
    ensures |AllBytes(open)| == GROW_UNTIL_LENGTH ==> FillsAt(ms, n - |open|, n)
  {
    var h := n - |open|;
    assert open[..|open| - 1] == ms[h..n - 1];
    forall k | h <= k <= n ensures ms[k].msgType == ms[n].msgType {
      if k < n { assert ms[k] == open[k - h]; }
    }
  }

  lemma PrepareOpens(b: Batcher, open: seq<Message>, ms: seq<Message>, n: nat)
    requires AllTyped(ms) && !FillsExactly(ms) && n < |ms| && Holds(b, open) && Opens(open, ms, n)
    ensures !Refuses(b.current, ms[n].msgType)
    ensures Opens(Prepare(b, ms[n].msgType).open, ms, n)
  {
    assert ms[n..n] == [];
    if open == [] {
      ChangePushes(b, open, ms[n].msgType);
    } else if b.current.msgType != ms[n].msgType {
      assert ms[n - 1] == open[|open| - 1];
      ChangePushes(b, open, ms[n].msgType);
    } else {
      SameTypeNext(open, ms, n);
      if |AllBytes(open)| > GROW_UNTIL_LENGTH {
        ChangePushes(b, open, ms[n].msgType);
      } else {
        StaysOpen(b, open, ms[n].msgType);
      }
    }
  }

  /** What a delivery that is not refused does to the open batch and the log. */
  lemma DeliverKept(b: Batcher, d: Delivery)
    requires |Prepare(b, d.m.msgType).current.bytes| < GROW_UNTIL_LENGTH
    ensures Deliver(b, d).open == if d.last then [] else Prepare(b, d.m.msgType).open + [d.m]
    ensures Deliver(b, d).log == b.log + [Entry(d.m, true)]
  {
  }

  lemma OpensNext(open: seq<Message>, ms: seq<Message>, n: nat)
    requires n + 1 < |ms| && Opens(open, ms, n)
    ensures Opens(open + [ms[n]], ms, n + 1)
    ensures ms[n].content != "" ==> Opens([], ms, n + 1)
  {
    assert open + [ms[n]] == ms[n - |open|..n + 1];
    assert ms[n + 1..n + 1] == [];
  }

  lemma AllKeptAppend(log: seq<Entry>, m: Message)
    requires AllKept(log)
    ensures AllKept(log + [Entry(m, true)])
  {
  }

  /** One more message, given what its delivery did. */
  lemma GoodNext(b: Batcher, b': Batcher, open: seq<Message>, ms: seq<Message>, n: nat, last: bool)
    requires n < |ms| && Good(b, ms, n) && Opens(open, ms, n) && (last ==> ms[n].content != "")
    requires b'.open == if last then [] else open + [ms[n]]
    requires b'.log == b.log + [Entry(ms[n], true)] && Messages(b'.log) == Messages(b.log) + [ms[n]]
    ensures Good(b', ms, n + 1)
  {
    AllKeptAppend(b.log, ms[n]);
    assert ms[..n + 1] == ms[..n] + [ms[n]];
    if n + 1 < |ms| {
      OpensNext(open, ms, n);
    }
  }

  lemma DeliverGood(b: Batcher, ms: seq<Message>, n: nat, d: Delivery)
    requires AllTyped(ms) && !FillsExactly(ms) && n < |ms| && Accounted(b) && Good(b, ms, n)
    requires d.m == ms[n] && (d.last ==> d.m.content != "")
    ensures Good(Deliver(b, d), ms, n + 1)
  {
    AccountedHolds(b, ms, n);
    PrepareOpens(b, b.open, ms, n);
    NotRefusedFits(b, ms[n].msgType);
    DeliverLog(b, d);
    DeliverKept(b, d);
    GoodNext(b, Deliver(b, d), Prepare(b, ms[n].msgType).open, ms, n, d.last);
  }

  lemma GoodAtStart(ds: seq<Delivery>, ms: seq<Message>)
    ensures Good(Before(ds, 0), ms, 0)
  {
    assert ds[..0] == [];
  }

  lemma BeforeGood(ds: seq<Delivery>, ms: seq<Message>, n: nat)
    requires AllTyped(ms) && !FillsExactly(ms) && Carries(ds, ms) && n < |ds|
    requires Good(Before(ds, n), ms, n)
    ensures Good(Before(ds, n + 1), ms, n + 1)
  {
    BeforeAccounted(ds, n);
    BeforeNext(ds, n);
    DeliverGood(Before(ds, n), ms, n, ds[n]);
  }

  lemma {:induction false} DeliverAllGood(ds: seq<Delivery>, ms: seq<Message>, n: nat)
    requires AllTyped(ms) && !FillsExactly(ms) && Carries(ds, ms) && n <= |ds|
    ensures Good(Before(ds, n), ms, n)
    decreases n
  {
    if n == 0 {
      GoodAtStart(ds, ms);
    } else {
      DeliverAllGood(ds, ms, n - 1);
      BeforeGood(ds, ms, n - 1);
    }
  }

  lemma ReadsCarry(fragments: seq<string>, ms: seq<Message>)
    requires Messages(FeedAll(Start, fragments).batcher.log) <= ms
    ensures Carries(Deliveries(fragments), ms)
  {
    var ds := Deliveries(fragments);
    DeliveredIsRead(fragments);
    forall k | 0 <= k < |ds| ensures |ds| <= |ms| && ds[k].m == ms[k] && (ds[k].last ==> ds[k].m.content != "") {
      DeliveredAt(ds, k);
      if ds[k].last {
        var m := LastMeansCut(fragments, k);
      }
    }
  }

  /** However much of the frames has arrived, and however it was cut: if the messages do not fill a batch
      exactly, none of them is lost. */
  lemma NeverLost(fragments: seq<string>, ms: seq<Message>, rest: string)
    requires Flatten(fragments) + rest == AllBytes(ms)
    requires (forall m :: m in ms ==> Sendable(m)) && AllTyped(ms) && !FillsExactly(Arrived(ms))
    ensures AllKept(FeedAll(Start, fragments).batcher.log)
  {
    var ds := Deliveries(fragments);
    ReadIsPrefixOfSent(fragments, ms, rest);
    ReadsCarry(fragments, Arrived(ms));
    DeliverAllGood(ds, Arrived(ms), |ds|);
    FeedIsDeliveries(fragments);
    assert ds[..|ds|] == ds;
  }
}
