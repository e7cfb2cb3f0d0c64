/** Why the condition of PublisherLoss is exact: how to receive the frames of messages that meet it so that one
    of them is lost; and a concrete input. */
module PublisherLossExact {
  import opened Sequences
  import opened Frames
  import opened MessageBatches
  import opened PublisherModel
  import opened PublisherTheorems
  import opened PublisherConservation
  import opened PublisherLoss

  // ---------------------------------------------------------------- with the condition something can be lost

  ghost predicate Brings(ds: seq<Delivery>, ms: seq<Message>) {
    |ds| == |ms| && forall k :: 0 <= k < |ds| ==> ds[k].m == ms[k]
  }

  /** Message n is the first of its batch. */
  ghost predicate OpensAt(ds: seq<Delivery>, n: nat)
    requires n < |ds|
  {
    Prepare(Before(ds, n), ds[n].m.msgType).open == []
  }

  /** No fragment ends right behind one of the messages c to |ms|-2. */
  ghost predicate NoCutFrom(fragments: seq<string>, ms: seq<Message>, c: nat) {
    forall m, k :: 0 <= m <= |fragments| && c < k < |ms| ==> !CutBehind(fragments, m, ms, k)
  }

  /** Every delivery was kept. */
  ghost predicate Lossless(ds: seq<Delivery>) {
    AllKept(DeliverAll(Start.batcher, ds).log)
  }

  lemma NotRefused(ds: seq<Delivery>, n: nat)
    requires n < |ds| && Lossless(ds)
    ensures !RefusedAt(ds, n)
  {
    LogTells(ds, |ds|, n);
    assert ds[..|ds|] == ds;
  }

  lemma LogKept(ds: seq<Delivery>, n: nat)
    requires n < |ds| && Lossless(ds)
    ensures Before(ds, n + 1).log == Before(ds, n).log + [Entry(ds[n].m, true)]
  {
    NotRefused(ds, n);
    LogGrows(ds, n);
  }

  ghost predicate KeptAre(log: seq<Entry>, ms: seq<Message>) {
    Messages(log) == Kept(log) == ms
  }

  lemma {:induction false} BeforeKeptAll(ds: seq<Delivery>, ms: seq<Message>, n: nat)
    requires Brings(ds, ms) && n <= |ms| && Lossless(ds)
    ensures KeptAre(Before(ds, n).log, ms[..n])
    decreases n
  {
    if n == 0 {
      LogLength(ds, 0);
    } else {
      BeforeKeptAll(ds, ms, n - 1);
      LogKept(ds, n - 1);
      KeptNext(Before(ds, n - 1).log, ms, n - 1);
    }
  }

  lemma KeptNext(log: seq<Entry>, ms: seq<Message>, n: nat)
    requires n < |ms| && KeptAre(log, ms[..n])
    ensures KeptAre(log + [Entry(ms[n], true)], ms[..n + 1])
  {
    assert (log + [Entry(ms[n], true)])[..|log|] == log;
    assert ms[..n + 1] == ms[..n] + [ms[n]];
  }

  /** The batcher before message n when nothing is refused. */
  lemma BeforeHolds(ds: seq<Delivery>, ms: seq<Message>, n: nat)
    requires AllTyped(ms) && Brings(ds, ms) && n <= |ms| && Lossless(ds)
    ensures Holds(Before(ds, n), Before(ds, n).open)
    ensures Flatten(Before(ds, n).groups) + Before(ds, n).open == ms[..n]
  {
    BeforeAccounted(ds, n);
    BeforeKeptAll(ds, ms, n);
    AccountedHolds(Before(ds, n), ms, n);
  }

  lemma DeliveredOpen(ds: seq<Delivery>, n: nat)
    requires n < |ds| && !ds[n].last && Lossless(ds)
    ensures Before(ds, n + 1).open == Prepare(Before(ds, n), ds[n].m.msgType).open + [ds[n].m]
  {
    NotRefused(ds, n);
    BeforeNext(ds, n);
    NotRefusedFits(Before(ds, n), ds[n].m.msgType);
    DeliverKept(Before(ds, n), ds[n]);
  }

  lemma SliceNext(ms: seq<Message>, h: nat, k: nat)
    requires h <= k < |ms|
    ensures ms[h..k] + [ms[k]] == ms[h..k + 1]
  {
  }

  lemma GrowsNext(ds: seq<Delivery>, ms: seq<Message>, h: nat, k: nat)
    requires AllTyped(ms) && Brings(ds, ms) && h < k < |ms| && Lossless(ds)
    requires Before(ds, k).open == ms[h..k] && !ds[k].last
    requires ms[h].msgType == ms[k].msgType && Span(ms, h, k) <= GROW_UNTIL_LENGTH
    ensures Before(ds, k + 1).open == ms[h..k + 1]
  {
    var b := Before(ds, k);
    BeforeHolds(ds, ms, k);
    assert ms[h..k][0] == ms[h];
    StaysOpen(b, ms[h..k], ms[k].msgType);
    DeliveredOpen(ds, k);
    SliceNext(ms, h, k);
  }

  lemma GrowsFirst(ds: seq<Delivery>, ms: seq<Message>, h: nat)
    requires Brings(ds, ms) && h < |ms| && Lossless(ds) && OpensAt(ds, h) && !ds[h].last
    ensures Before(ds, h + 1).open == ms[h..h + 1]
  {
    DeliveredOpen(ds, h);
    SliceNext(ms, h, h);
    assert ms[h..h] == [];
  }

  /** A batch that message h began holds the messages since, while they have one type and there is room. */
  lemma {:induction false} Grows(ds: seq<Delivery>, ms: seq<Message>, h: nat, k: nat)
    requires AllTyped(ms) && Brings(ds, ms) && h < k <= |ms| && Lossless(ds) && OpensAt(ds, h)
    requires Span(ms, h, k - 1) <= GROW_UNTIL_LENGTH
    requires forall n :: h <= n < k ==> !ds[n].last && ms[n].msgType == ms[h].msgType
    ensures Before(ds, k).open == ms[h..k]
    decreases k
  {
    if k == h + 1 {
      GrowsFirst(ds, ms, h);
    } else {
      var j := k - 1;
      SpanGrows(ms, h, j - 1, j);
      Grows(ds, ms, h, j);
      GrowsNext(ds, ms, h, j);
    }
  }

  /** Where a cut is needed for message i to begin a batch; 0 if none is. */
  ghost function Base(ms: seq<Message>, i: nat): (c: nat)
    requires i < |ms| && CanOpen(ms, i)
    ensures c <= i && (c > 0 ==> ms[c - 1].content != "")
    decreases i
  {
    if i == 0 || ms[i - 1].msgType != ms[i].msgType then 0
    else if ms[i - 1].content != "" then i
    else
      var h :| 0 <= h < i && CanOpen(ms, h) && Overflows(ms, h, i);
      Base(ms, h)
  }

  lemma LastOfOpen(groups: seq<seq<Message>>, open: seq<Message>, ms: seq<Message>, i: nat)
    requires 0 < i <= |ms| && open != [] && Flatten(groups) + open == ms[..i]
    ensures open[|open| - 1] == ms[i - 1]
  {
    assert (Flatten(groups) + open)[i - 1] == ms[i - 1];
  }

  lemma OpensOnChange(ds: seq<Delivery>, ms: seq<Message>, i: nat)
    requires AllTyped(ms) && Brings(ds, ms) && 0 < i < |ms| && ms[i - 1].msgType != ms[i].msgType
    requires Lossless(ds)
    ensures OpensAt(ds, i)
  {
    BeforeHolds(ds, ms, i);
    if Before(ds, i).open != [] {
      LastOfOpen(Before(ds, i).groups, Before(ds, i).open, ms, i);
    }
    ChangePushes(Before(ds, i), Before(ds, i).open, ms[i].msgType);
  }

  lemma OpensOnOverflow(ds: seq<Delivery>, ms: seq<Message>, h: nat, i: nat)
    requires AllTyped(ms) && Brings(ds, ms) && h < i < |ms|
    requires OpensAt(ds, h) && Overflows(ms, h, i)
    requires forall n :: h <= n < i ==> !ds[n].last
    requires Lossless(ds)
    ensures OpensAt(ds, i)
  {
    Grows(ds, ms, h, i);
    BeforeHolds(ds, ms, i);
    ChangePushes(Before(ds, i), ms[h..i], ms[i].msgType);
  }

  /** With a cut behind the base and none after it, message i begins a batch, unless one was lost before. */
  lemma {:induction false} ReachesOpen(ds: seq<Delivery>, ms: seq<Message>, i: nat)
    requires AllTyped(ms) && Brings(ds, ms) && i < |ms| && CanOpen(ms, i)
    requires Before(ds, Base(ms, i)).open == []
    requires forall n :: Base(ms, i) <= n < i ==> !ds[n].last
    requires Lossless(ds)
    ensures OpensAt(ds, i)
    decreases i
  {
    if i == 0 || ms[i - 1].msgType != ms[i].msgType {
      if i > 0 { OpensOnChange(ds, ms, i); }
    } else if ms[i - 1].content == "" {
      var h :| 0 <= h < i && CanOpen(ms, h) && Overflows(ms, h, i) && Base(ms, i) == Base(ms, h);
      ReachesOpen(ds, ms, h);
      OpensOnOverflow(ds, ms, h, i);
    }
  }

  lemma ReadInFull(fragments: seq<string>, ms: seq<Message>)
    requires forall x :: x in ms ==> Sendable(x)
    requires ms != [] && ms[|ms| - 1].content != "" && Flatten(fragments) == AllBytes(ms)
    ensures |Deliveries(fragments)| == |ms| && FeedAll(Start, fragments).parse == Fresh
  {
    ReadExactly(fragments, ms);
    DeliveredIsRead(fragments);
    if Deliveries(fragments) != [] { DeliveredAt(Deliveries(fragments), 0); }
    FeedAllView(Start, fragments);
    ParseEncoded(Parsed(Fresh, []), ms);
  }

  /** A connection that delivered frames in full, the last one with content, was ended by a delivery. */
  lemma EndedByDelivery(fragments: seq<string>)
    requires fragments != [] && fragments[|fragments| - 1] != "" && FeedAll(Start, fragments).parse == Fresh
    ensures var ds := Deliveries(fragments); ds != [] && ds[|ds| - 1].last
  {
    FreshMeansEnded(FeedAll(Start, fragments[..|fragments| - 1]).parse, fragments[|fragments| - 1]);
  }

  lemma LastFlushes(ds: seq<Delivery>)
    requires ds != [] && ds[|ds| - 1].last
    ensures DeliverAll(Start.batcher, ds).open == []
  {
  }

  lemma {:induction false} FullFlushes(fragments: seq<string>, ms: seq<Message>)
    requires forall x :: x in ms ==> Sendable(x)
    requires ms != [] && ms[|ms| - 1].content != "" && Flatten(fragments) == AllBytes(ms)
    ensures |Deliveries(fragments)| == |ms| && DeliverAll(Start.batcher, Deliveries(fragments)).open == []
    decreases |fragments|
  {
    AllBytesNotEmpty(ms);
    ReadInFull(fragments, ms);
    var init, last := fragments[..|fragments| - 1], fragments[|fragments| - 1];
    if last == "" {
      assert Flatten(init) + "" == Flatten(init);
      FullFlushes(init, ms);
      assert Deliveries(init) + [] == Deliveries(init);
    } else {
      EndedByDelivery(fragments);
      LastFlushes(Deliveries(fragments));
    }
  }

  /** Behind a cut at a message with content the open batch is empty. */
  lemma CutFlushes(fragments: seq<string>, ms: seq<Message>, m: nat, c: nat)
    requires forall x :: x in ms ==> Sendable(x)
    requires m <= |fragments| && 0 < c <= |ms| && ms[c - 1].content != "" && CutBehind(fragments, m, ms, c)
    ensures c <= |Deliveries(fragments)| && Before(Deliveries(fragments), c).open == []
  {
    assert forall x :: x in ms[..c] ==> x in ms;
    FullFlushes(fragments[..m], ms[..c]);
    DeliveriesPrefix(fragments, m);
    assert Deliveries(fragments)[..c] == Deliveries(fragments[..m]);
  }

  // ---------------------------------------------------------------- how to receive the frames

  /** A way to receive bytes: no receive is empty, and none delivers more than the read buffer holds. */
  ghost predicate Receives(fragments: seq<string>, bytes: string) {
    Flatten(fragments) == bytes && forall k :: 0 <= k < |fragments| ==> 0 < |fragments[k]| <= MAX_READ_BUF
  }

  predicate NoNeighbours(avoid: set<nat>) {
    forall p :: p in avoid ==> p + 1 !in avoid
  }

  function NextCut(avoid: set<nat>, at: nat): (to: nat)
    ensures at < to <= at + MAX_READ_BUF
    ensures NoNeighbours(avoid) ==> to !in avoid
  {
    if at + MAX_READ_BUF in avoid then at + MAX_READ_BUF - 1 else at + MAX_READ_BUF
  }

  /** Receives of the bytes from `at` on, as large as possible without ending at a position to avoid. */
  function Chop(bytes: string, avoid: set<nat>, at: nat): seq<string>
    requires at <= |bytes|
    decreases |bytes| - at
  {
    if at == |bytes| then []
    else if |bytes| - at <= MAX_READ_BUF then [bytes[at..]]
    else
      var to := NextCut(avoid, at);
      [bytes[at..to]] + Chop(bytes, avoid, to)
  }

  lemma OneMoreReceive(first: string, rest: seq<string>, bytes: string)
    requires 0 < |first| <= MAX_READ_BUF && Receives(rest, bytes)
    ensures Receives([first] + rest, first + bytes)
  {
    FlattenCons(first, rest);
  }

  lemma SliceRest(bytes: string, at: nat, to: nat)
    requires at <= to <= |bytes|
    ensures bytes[at..to] + bytes[to..] == bytes[at..]
  {
  }

  lemma ChopStep(bytes: string, avoid: set<nat>, at: nat, to: nat)
    requires at + MAX_READ_BUF < |bytes| && to == NextCut(avoid, at)
    ensures Chop(bytes, avoid, at) == [bytes[at..to]] + Chop(bytes, avoid, to)
  {
  }

  lemma ChopEnds(bytes: string, avoid: set<nat>, at: nat)
    requires at < |bytes| <= at + MAX_READ_BUF
    ensures Receives(Chop(bytes, avoid, at), bytes[at..])
  {
    OneMoreReceive(bytes[at..], [], "");
    assert [bytes[at..]] + [] == [bytes[at..]] && bytes[at..] + "" == bytes[at..];
  }

  lemma {:induction false} ChopReceives(bytes: string, avoid: set<nat>, at: nat)
    requires at <= |bytes|
    ensures Receives(Chop(bytes, avoid, at), bytes[at..])
    decreases |bytes| - at
  {
    if at + MAX_READ_BUF < |bytes| {
      var to := NextCut(avoid, at);
      ChopReceives(bytes, avoid, to);
      OneMoreReceive(bytes[at..to], Chop(bytes, avoid, to), bytes[to..]);
      SliceRest(bytes, at, to);
      ChopStep(bytes, avoid, at, to);
    } else if at < |bytes| {
      ChopEnds(bytes, avoid, at);
    }
  }

  /** Where the first m of some receives end. */
  lemma {:induction false} ChopAvoids(bytes: string, avoid: set<nat>, at: nat, m: nat)
    requires at <= |bytes| && NoNeighbours(avoid) && 0 < m <= |Chop(bytes, avoid, at)|
    ensures var end := at + |Flatten(Chop(bytes, avoid, at)[..m])|; end == |bytes| || end !in avoid
    decreases |bytes| - at
  {
    var all := Chop(bytes, avoid, at);
    if |bytes| - at <= MAX_READ_BUF {
      FlattenCons<char>(bytes[at..], []);
      assert all[..m] == [bytes[at..]] + [];
    } else {
      var to := NextCut(avoid, at);
      var rest := Chop(bytes, avoid, to);
      assert all[..m] == [bytes[at..to]] + rest[..m - 1];
      FlattenCons(bytes[at..to], rest[..m - 1]);
      if m > 1 {
        ChopAvoids(bytes, avoid, to, m - 1);
      } else {
        assert rest[..0] == [];
      }
    }
  }

  /** The ends of the messages after the first c, counted from there. */
  function Ends(ms: seq<Message>, c: nat): set<nat>
    requires c <= |ms|
  {
    set k | c < k < |ms| :: Span(ms, c, k)
  }

  lemma EndsApart(ms: seq<Message>, c: nat)
    requires c <= |ms|
    ensures NoNeighbours(Ends(ms, c))
  {
    forall p | p in Ends(ms, c) ensures p + 1 !in Ends(ms, c) {
      var k :| c < k < |ms| && p == Span(ms, c, k);
      forall j | c < j < |ms| ensures Span(ms, c, j) != p + 1 {
        if j <= k { SpanGrows(ms, c, j, k); } else { SpanGrows(ms, c, k, j); }
      }
    }
  }

  lemma SpanSplit(ms: seq<Message>, c: nat, k: nat)
    requires c <= k <= |ms|
    ensures AllBytes(ms[..k]) == AllBytes(ms[..c]) + AllBytes(ms[c..k])
  {
    AllBytesConcat(ms[..c], ms[c..k]);
    assert ms[..k] == ms[..c] + ms[c..k];
  }

  /** Receives of the frames with one cut behind the first c messages and none behind a later one. */
  function CutAt(ms: seq<Message>, c: nat): seq<string>
    requires c <= |ms|
  {
    Chop(AllBytes(ms[..c]), {}, 0) + Chop(AllBytes(ms[c..]), Ends(ms, c), 0)
  }

  lemma CutAtReceives(ms: seq<Message>, c: nat) returns (m: nat)
    requires c <= |ms|
    ensures Receives(CutAt(ms, c), AllBytes(ms))
    ensures m <= |CutAt(ms, c)| && CutBehind(CutAt(ms, c), m, ms, c)
  {
    var a, b := Chop(AllBytes(ms[..c]), {}, 0), Chop(AllBytes(ms[c..]), Ends(ms, c), 0);
    ChopReceives(AllBytes(ms[..c]), {}, 0);
    ChopReceives(AllBytes(ms[c..]), Ends(ms, c), 0);
    FlattenConcat(a, b);
    SpanSplit(ms, c, |ms|);
    assert ms[c..|ms|] == ms[c..] && ms[..|ms|] == ms;
    m := |a|;
    assert (a + b)[..m] == a;
  }

  lemma NoCutBefore(a: seq<string>, b: seq<string>, ms: seq<Message>, c: nat, m: nat, k: nat)
    requires c < k <= |ms| && m <= |a| && Flatten(a) == AllBytes(ms[..c])
    ensures Flatten((a + b)[..m]) != AllBytes(ms[..k])
  {
    assert (a + b)[..m] == a[..m];
    FlattenPrefix(a[..m], a);
    SpanSplit(ms, c, k);
    SpanGrows(ms, c, c, k);
  }

  /** No receive of the later messages ends where one of them but the last does. */
  lemma ChopMisses(ms: seq<Message>, c: nat, m: nat, k: nat)
    requires c < k < |ms| && 0 < m <= |Chop(AllBytes(ms[c..]), Ends(ms, c), 0)|
    ensures |Flatten(Chop(AllBytes(ms[c..]), Ends(ms, c), 0)[..m])| != Span(ms, c, k)
  {
    EndsApart(ms, c);
    ChopAvoids(AllBytes(ms[c..]), Ends(ms, c), 0, m);
    assert Span(ms, c, k) in Ends(ms, c);
    SpanGrows(ms, c, k, |ms|);
    assert ms[c..|ms|] == ms[c..];
  }

  lemma JoinedLength(a: seq<string>, b: seq<string>, m: nat)
    requires |a| <= m <= |a| + |b|
    ensures |Flatten((a + b)[..m])| == |Flatten(a)| + |Flatten(b[..m - |a|])|
  {
    assert (a + b)[..m] == a + b[..m - |a|];
    FlattenConcat(a, b[..m - |a|]);
  }

  lemma NoCutBehindBase(a: seq<string>, ms: seq<Message>, c: nat, m: nat, k: nat)
    requires c < k < |ms| && Flatten(a) == AllBytes(ms[..c])
    requires |a| < m <= |a| + |Chop(AllBytes(ms[c..]), Ends(ms, c), 0)|
    ensures Flatten((a + Chop(AllBytes(ms[c..]), Ends(ms, c), 0))[..m]) != AllBytes(ms[..k])
  {
    JoinedLength(a, Chop(AllBytes(ms[c..]), Ends(ms, c), 0), m);
    ChopMisses(ms, c, m - |a|, k);
    SpanSplit(ms, c, k);
  }

  lemma NoLaterCut(ms: seq<Message>, c: nat)
    requires c <= |ms|
    ensures NoCutFrom(CutAt(ms, c), ms, c)
  {
    var a, b := Chop(AllBytes(ms[..c]), {}, 0), Chop(AllBytes(ms[c..]), Ends(ms, c), 0);
    ChopReceives(AllBytes(ms[..c]), {}, 0);
    forall m, k | 0 <= m <= |a + b| && c < k < |ms| ensures !CutBehind(a + b, m, ms, k) {
      if m <= |a| {
        NoCutBefore(a, b, ms, c, m, k);
      } else {
        NoCutBehindBase(a, ms, c, m, k);
      }
    }
  }

  // ---------------------------------------------------------------- the theorem

  lemma ReadsDelivered(ds: seq<Delivery>)
    ensures Brings(ds, Delivered(ds))
  {
    if ds != [] { DeliveredAt(ds, 0); }
    forall k | 0 <= k < |ds| ensures |Delivered(ds)| == |ds| && ds[k].m == Delivered(ds)[k] {
      DeliveredAt(ds, k);
    }
  }

  lemma DeliversArrived(fragments: seq<string>, ms: seq<Message>)
    requires Flatten(fragments) == AllBytes(ms) && forall m :: m in ms ==> Sendable(m)
    ensures Delivered(Deliveries(fragments)) == Arrived(ms)
  {
    ReadExactly(fragments, ms);
    DeliveredIsRead(fragments);
  }

  lemma ArrivedFirst(ms: seq<Message>, k: nat)
    requires k <= |Arrived(ms)|
    ensures k <= |ms| && Arrived(ms)[..k] == ms[..k]
  {
  }

  /** Where a delivery ends its fragment there is a cut behind its message. */
  lemma EndsBehind(fragments: seq<string>, ms: seq<Message>, n: nat) returns (m: nat)
    requires Flatten(fragments) == AllBytes(ms) && forall m :: m in ms ==> Sendable(m)
    requires n < |ms| && n < |Deliveries(fragments)| && Deliveries(fragments)[n].last
    ensures m <= |fragments| && CutBehind(fragments, m, ms, n + 1)
  {
    m := LastMeansCut(fragments, n);
    DeliversArrived(fragments, ms);
    ArrivedFirst(ms, n + 1);
  }

  lemma NotLastBehind(fragments: seq<string>, ms: seq<Message>, c: nat, n: nat)
    requires Flatten(fragments) == AllBytes(ms) && forall m :: m in ms ==> Sendable(m)
    requires NoCutFrom(fragments, ms, c) && c <= n && n + 1 < |ms| && n < |Deliveries(fragments)|
    ensures !Deliveries(fragments)[n].last
  {
    if Deliveries(fragments)[n].last {
      var m := EndsBehind(fragments, ms, n);
    }
  }

  /** The batch that message i begins is exactly full when message j arrives. */
  lemma FullAt(ds: seq<Delivery>, ms: seq<Message>, i: nat, j: nat)
    requires AllTyped(ms) && Brings(ds, ms) && i < j < |ms| && FillsAt(ms, i, j) && OpensAt(ds, i)
    requires forall n :: i <= n < j ==> !ds[n].last
    ensures !Lossless(ds)
  {
    if Lossless(ds) {
      forall n | i <= n < j ensures ms[n].msgType == ms[i].msgType {
        assert ms[n].msgType == ms[j].msgType && ms[i].msgType == ms[j].msgType;
      }
      SpanGrows(ms, i, j - 1, j);
      Grows(ds, ms, i, j);
      BeforeHolds(ds, ms, j);
      assert ms[i..j][0] == ms[i];
      NotRefused(ds, j);
    }
  }

  lemma NoneLast(fragments: seq<string>, ms: seq<Message>, c: nat, j: nat)
    requires Flatten(fragments) == AllBytes(ms) && forall m :: m in ms ==> Sendable(m)
    requires NoCutFrom(fragments, ms, c) && j < |ms| && j < |Deliveries(fragments)|
    ensures forall n :: c <= n < j ==> !Deliveries(fragments)[n].last
  {
    forall n | c <= n < j ensures !Deliveries(fragments)[n].last {
      NotLastBehind(fragments, ms, c, n);
    }
  }

  lemma LosesIfOpen(ds: seq<Delivery>, ms: seq<Message>, i: nat, j: nat)
    requires AllTyped(ms) && Brings(ds, ms) && i < j < |ms| && FillsAt(ms, i, j)
    requires Lossless(ds) ==> Before(ds, Base(ms, i)).open == []
    requires forall n :: Base(ms, i) <= n < j ==> !ds[n].last
    ensures !Lossless(ds)
  {
    if Lossless(ds) {
      ReachesOpen(ds, ms, i);
      FullAt(ds, ms, i, j);
    }
  }

  /** The deliveries of frames received with one cut. */
  lemma CutDelivers(ms: seq<Message>, c: nat, j: nat)
    requires forall m :: m in ms ==> Sendable(m)
    requires c <= j < |Arrived(ms)| && (c > 0 ==> ms[c - 1].content != "")
    ensures var ds := Deliveries(CutAt(ms, c));
            && Brings(ds, Arrived(ms)) && Before(ds, c).open == [] && forall n :: c <= n < j ==> !ds[n].last
  {
    var fragments := CutAt(ms, c);
    var m := CutAtReceives(ms, c);
    NoLaterCut(ms, c);
    DeliversArrived(fragments, ms);
    ReadsDelivered(Deliveries(fragments));
    EmptyAtBase(fragments, ms, m, c);
    NoneLast(fragments, ms, c, j);
  }

  lemma CutLosesAt(ms: seq<Message>, arrived: seq<Message>, i: nat, j: nat, c: nat)
    requires (forall m :: m in ms ==> Sendable(m)) && arrived == Arrived(ms) && AllTyped(arrived)
    requires i < j < |arrived| && FillsAt(arrived, i, j)
    requires c == Base(arrived, i) && (c > 0 ==> ms[c - 1].content != "")
    ensures !Lossless(Deliveries(CutAt(ms, c)))
  {
    CutDelivers(ms, c, j);
    LosesIfOpen(Deliveries(CutAt(ms, c)), arrived, i, j);
  }

  /** Of frames received with one cut, behind where it is needed, a delivery is refused. */
  lemma CutLoses(ms: seq<Message>, i: nat, j: nat)
    requires (forall m :: m in ms ==> Sendable(m)) && AllTyped(ms)
    requires i < j < |Arrived(ms)| && FillsAt(Arrived(ms), i, j)
    ensures !Lossless(Deliveries(CutAt(ms, Base(Arrived(ms), i))))
  {
    CutLosesAt(ms, Arrived(ms), i, j, Base(Arrived(ms), i));
  }

  lemma EmptyAtBase(fragments: seq<string>, ms: seq<Message>, m: nat, c: nat)
    requires (forall x :: x in ms ==> Sendable(x)) && Receives(fragments, AllBytes(ms))
    requires m <= |fragments| && c <= |ms| && CutBehind(fragments, m, ms, c) && (c > 0 ==> ms[c - 1].content != "")
    ensures c <= |Deliveries(fragments)| && Before(Deliveries(fragments), c).open == []
  {
    if c > 0 {
      CutFlushes(fragments, ms, m, c);
    } else {
      assert Deliveries(fragments)[..0] == [];
    }
  }

  /** If the messages fill a batch exactly, receiving their frames in the right pieces loses one. */
  lemma LostWhenFilled(ms: seq<Message>, i: nat, j: nat) returns (fragments: seq<string>)
    requires (forall m :: m in ms ==> Sendable(m)) && AllTyped(ms)
    requires i < j < |Arrived(ms)| && FillsAt(Arrived(ms), i, j)
    ensures Receives(fragments, AllBytes(ms)) && !AllKept(FeedAll(Start, fragments).batcher.log)
  {
    fragments := CutAt(ms, Base(Arrived(ms), i));
    var m := CutAtReceives(ms, Base(Arrived(ms), i));
    FeedIsDeliveries(fragments);
    CutLoses(ms, i, j);
  }

  /** However these frames are received, no message is lost. */
  ghost predicate NeverLoses(ms: seq<Message>) {
    forall fragments :: Receives(fragments, AllBytes(ms)) ==> AllKept(FeedAll(Start, fragments).batcher.log)
  }

  /** Typed messages are safe from the growth limit exactly if they do not fill a batch exactly: a condition
      on the list of messages alone. */
  lemma NeverLosesExactly(ms: seq<Message>)
    requires (forall m :: m in ms ==> Sendable(m)) && AllTyped(ms)
    ensures NeverLoses(ms) <==> !FillsExactly(Arrived(ms))
  {
    var arrived := Arrived(ms);
    if FillsExactly(arrived) {
      var i, j :| 0 <= i < j < |arrived| && FillsAt(arrived, i, j);
      var fragments := LostWhenFilled(ms, i, j);
    } else {
      forall fragments | Receives(fragments, AllBytes(ms)) ensures AllKept(FeedAll(Start, fragments).batcher.log) {
        assert Flatten(fragments) + "" == AllBytes(ms);
        NeverLost(fragments, ms, "");
      }
    }
  }

  // ---------------------------------------------------------------- an input

  function Xs(n: nat): (s: string)
    ensures |s| == n && forall k :: 0 <= k < n ==> s[k] == 'x'
  {
    seq(n, _ => 'x')
  }

  function Big(): Message {
    Message("a", "32760", Xs(32760))
  }

  const Small: Message := Message("a", "1", "y")

  /** The header of a message of 32760 bytes, and n receives of 8000 bytes of it. */
  function BigStart(n: nat): (r: seq<string>)
    ensures |r| == n + 1
  {
    if n == 0 then ["a|32760|"] else BigStart(n - 1) + [Xs(8000)]
  }

  /** Six receives, none larger than the read buffer: the last brings the rest and a second message. */
  function LossyReceives(): seq<string> {
    BigStart(4) + [Xs(760) + "a|1|y"]
  }

  lemma {:induction false} BigStartPrefix(n: nat, m: nat)
    requires 0 < m <= n + 1
    ensures BigStart(n)[..m] == BigStart(m - 1)
  {
    if m <= n {
      BigStartPrefix(n - 1, m);
      assert BigStart(n)[..m] == BigStart(n - 1)[..m];
    }
  }

  lemma {:induction false} BigStartIs(n: nat)
    ensures Receives(BigStart(n), "a|32760|" + Xs(8000 * n))
  {
    var head := "a|32760|";
    if n == 0 {
      FlattenAppend([], head);
      assert [] + [head] == [head];
      assert head + Xs(0) == head;
    } else {
      BigStartIs(n - 1);
      FlattenAppend(BigStart(n - 1), Xs(8000));
      assert Xs(8000 * n) == Xs(8000 * (n - 1)) + Xs(8000);
      assert head + Xs(8000 * n) == head + Xs(8000 * (n - 1)) + Xs(8000);
    }
  }

  lemma BigDecimal()
    ensures Decimal(32760) == "32760" && Decimal(1) == "1"
  {
    assert Decimal(32) == "32";
    assert Decimal(3276) == "3276";
  }

  lemma BigSendable()
    ensures Sendable(Big()) && Sendable(Small) && |Big().Bytes()| == GROW_UNTIL_LENGTH
  {
    BigDecimal();
    EncodeIsSendable("a", Big().content);
    EncodeIsSendable("a", "y");
  }

  lemma LossyBytes()
    ensures Receives(LossyReceives(), AllBytes([Big(), Small]))
  {
    BigStartIs(4);
    FlattenAppend(BigStart(4), Xs(760) + "a|1|y");
    assert Big().Bytes() == "a|32760|" + Xs(32760);
    assert Xs(32760) == Xs(32000) + Xs(760);
    assert Small.Bytes() == "a|1|y";
    AllBytesAppend([], Big());
    AllBytesAppend([Big()], Small);
    assert [] + [Big()] == [Big()] && [Big()] + [Small] == [Big(), Small];
    assert "" + Big().Bytes() == Big().Bytes();
    assert "a|32760|" + Xs(32000) + (Xs(760) + "a|1|y") == "a|32760|" + (Xs(32000) + Xs(760)) + "a|1|y";
  }

  /** None of the receives ends where the first message does. */
  lemma LossyCuts(m: nat)
    requires m <= 6
    ensures !CutBehind(LossyReceives(), m, [Big(), Small], 1)
  {
    BigSendable();
    AllBytesAppend([], Big());
    assert [Big(), Small][..1] == [] + [Big()];
    if m == 6 {
      LossyBytes();
      assert LossyReceives()[..6] == LossyReceives();
      AllBytesAppend([Big()], Small);
      assert [Big()] + [Small] == [Big(), Small] && [] + [Big()] == [Big()];
    } else if m > 0 {
      assert LossyReceives()[..m] == BigStart(4)[..m];
      BigStartPrefix(4, m);
      BigStartIs(m - 1);
      assert 8 + 8000 * (m - 1) != 32768;
    }
  }

  lemma LossyDelivers()
    ensures Delivered(Deliveries(LossyReceives())) == [Big(), Small]
  {
    BigSendable();
    LossyBytes();
    DeliversArrived(LossyReceives(), [Big(), Small]);
  }

  lemma LossyDeliveries()
    ensures var ds := Deliveries(LossyReceives());
            |ds| == 2 && ds[0] == Delivery(Big(), false) && ds[1].m == Small
  {
    var ds := Deliveries(LossyReceives());
    LossyDelivers();
    ReadsDelivered(ds);
    if ds[0].last {
      BigSendable();
      LossyBytes();
      var m := EndsBehind(LossyReceives(), [Big(), Small], 0);
      LossyCuts(m);
    }
  }

  function BigBatch(): Batch {
    Batch("a", Big().Bytes())
  }

  lemma FirstDelivery()
    ensures Deliver(Start.batcher, Delivery(Big(), false)).current == BigBatch()
    ensures !Refuses(Start.batcher.current, "a") && Refuses(BigBatch(), "a")
  {
    BigSendable();
    assert "" + Big().Bytes() == Big().Bytes();
  }

  lemma BeforeSecond(ds: seq<Delivery>)
    requires |ds| == 2 && ds[0] == Delivery(Big(), false)
    ensures Before(ds, 0) == Start.batcher && Before(ds, 1).current == BigBatch()
  {
    assert ds[..0] == [];
    BeforeNext(ds, 0);
    FirstDelivery();
  }

  lemma TwoDeliveries(ds: seq<Delivery>)
    requires |ds| == 2 && ds[0] == Delivery(Big(), false) && ds[1].m == Small
    ensures var log := Before(ds, 2).log;
            |log| == 2 && log[0] == Entry(Big(), true) && log[1] == Entry(Small, false)
  {
    BeforeSecond(ds);
    FirstDelivery();
    LogTells(ds, 2, 0);
    LogTells(ds, 2, 1);
  }

  /** On these receives the second message is lost: it finds the batch with exactly GROW_UNTIL_LENGTH bytes,
      in the middle of the last receive. */
  lemma SecondIsLost()
    ensures Receives(LossyReceives(), AllBytes([Big(), Small]))
    ensures var log := FeedAll(Start, LossyReceives()).batcher.log;
            |log| == 2 && log[0] == Entry(Big(), true) && log[1] == Entry(Small, false)
  {
    LossyBytes();
    LossyDeliveries();
    FeedIsDeliveries(LossyReceives());
    TwoDeliveries(Deliveries(LossyReceives()));
    TakeAll(Deliveries(LossyReceives()));
  }

  lemma TakeAll(ds: seq<Delivery>)
    ensures Before(ds, |ds|) == DeliverAll(Start.batcher, ds)
  {
    assert ds[..|ds|] == ds;
  }
}
