/** What the queue guarantees in every reachable state and over every run. */
module MpmcTheorems {
  import opened MpmcModel
  import opened MpmcInvariant

  /** The state after a run of a fresh queue. */
  function Run<T>(capacity: nat, threads: nat, acts: seq<Action<T>>): (s: State<T>)
    requires capacity >= 1
    ensures WellFormed(s) && s.capacity == capacity && |s.pcs| == threads
  {
    Exec(Init(capacity, threads), acts)
  }

  lemma RunInv<T>(capacity: nat, threads: nat, acts: seq<Action<T>>)
    requires capacity >= 1
    ensures Inv(Run(capacity, threads, acts))
  {
    InitInv<T>(capacity, threads);
    ExecInv(Init<T>(capacity, threads), acts);
  }

  lemma {:induction false} ExecConcat<T>(s: State<T>, a: seq<Action<T>>, b: seq<Action<T>>)
    requires WellFormed(s)
    ensures Exec(s, a + b) == Exec(Exec(s, a), b)
    decreases |b|
  {
    if b == [] {
      assert a + b == a;
    } else {
      ExecConcat(s, a, b[..|b| - 1]);
      assert (a + b)[..|a + b| - 1] == a + b[..|b| - 1];
    }
  }

  // ---------------------------------------------------------------- nothing goes back

  ghost predicate Later<T>(s: State<T>, s': State<T>)
    requires WellFormed(s) && WellFormed(s')
  {
    && s'.capacity == s.capacity && |s'.pcs| == |s.pcs|
    && s.head <= s'.head && s.tail <= s'.tail
    && s.vals <= s'.vals && s.pushOwner <= s'.pushOwner && s.popOwner <= s'.popOwner
    && s.published <= s'.published && s.released <= s'.released
    && s.reports <= s'.reports
    && forall j :: 0 <= j < s.capacity ==> s.turns[j] <= s'.turns[j]
  }

  lemma PushStepLater<T>(s: State<T>, t: Tid)
    requires Inv(s) && t < |s.pcs| && InPush(s.pcs[t])
    ensures Later(s, StepThread(s, t))
  {
    assert ThreadOk(s, t);
  }

  lemma PopStepLater<T>(s: State<T>, t: Tid)
    requires Inv(s) && t < |s.pcs| && InPop(s.pcs[t])
    ensures Later(s, StepThread(s, t))
  {
    assert ThreadOk(s, t);
  }

  lemma NextLater<T>(s: State<T>, a: Action<T>)
    requires Inv(s)
    ensures Later(s, Next(s, a))
  {
    if a.t < |s.pcs| && a.Step? {
      if InPush(s.pcs[a.t]) {
        PushStepLater(s, a.t);
      } else if InPop(s.pcs[a.t]) {
        PopStepLater(s, a.t);
      }
    }
  }

  lemma {:induction false} ExecLater<T>(s: State<T>, acts: seq<Action<T>>)
    requires Inv(s)
    ensures Later(s, Exec(s, acts))
    decreases |acts|
  {
    if acts != [] {
      ExecLater(s, acts[..|acts| - 1]);
      ExecInv(s, acts[..|acts| - 1]);
      NextLater(Exec(s, acts[..|acts| - 1]), acts[|acts| - 1]);
    }
  }

  // ---------------------------------------------------------------- turns and slots

  lemma NeighbourTicket(k: nat, c: nat)
    requires c >= 1
    ensures Slot(k + c, c) == Slot(k, c) && Round(k + c, c) == Round(k, c) + 1
  {
    DivModUnique(k + c, c, k / c + 1, k % c);
  }

  lemma MulMonotone(c: nat, x: int, y: int)
    ensures x <= y ==> c * x <= c * y
  {
  }

  lemma DivModUnique(x: nat, c: nat, q: nat, r: nat)
    requires c >= 1 && r < c && x == c * q + r
    ensures x / c == q && x % c == r
  {
    var d := x / c - q;
    MulMonotone(c, 1, d);
    MulMonotone(c, d, -1);
    assert c * d == c * (x / c) - c * q;
  }

  /** A slot shows turn 2r exactly while ticket r*capacity+j waits to be published and the ticket of
      the round before it has been consumed; it shows 2r+1 exactly while that ticket is published
      and not yet consumed. In the second case the storage holds that ticket's value and no other,
      unless the owner of the pop ticket is just taking it. */
  lemma TurnMeaning<T>(capacity: nat, threads: nat, acts: seq<Action<T>>, k: nat)
    requires capacity >= 1
    ensures var s := Run(capacity, threads, acts); var j := Slot(k, capacity);
            && (s.turns[j] == PushTurn(k, capacity) <==>
                  k !in s.published && (k >= capacity ==> k - capacity in s.released))
            && (s.turns[j] == PopTurn(k, capacity) <==> k in s.published && k !in s.released)
            && (s.turns[j] == PushTurn(k, capacity) ==>
                  (forall i: nat :: Slot(i, capacity) == j && i < k ==> i in s.released && i in s.published)
                  && ((forall t: Tid :: t < threads ==> !s.pcs[t].Critical(k)) ==> s.cells[j] == Raw))
            && (s.turns[j] == PopTurn(k, capacity) ==>
                  k < s.head
                  && (forall i: nat :: Slot(i, capacity) == j && i < k ==> i in s.released && i in s.published)
                  && ((forall t: Tid :: t < threads ==> !s.pcs[t].Critical(k)) ==> s.cells[j] == Live(s.vals[k])))
  {
    RunInv(capacity, threads, acts);
    var s := Run(capacity, threads, acts);
    var j := Slot(k, capacity);
    if k >= capacity {
      NeighbourTicket(k - capacity, capacity);
    } else {
      DivModUnique(k, capacity, 0, k);
    }
    if s.turns[j] == PushTurn(k, capacity) || s.turns[j] == PopTurn(k, capacity) {
      forall i: nat | Slot(i, capacity) == j && i < k ensures i in s.released && i in s.published {
        EarlierRound(i, k, capacity);
      }
    }
    if Current(s, k) {
      assert s.cells[j] == Expected(s, k);
    }
  }

  lemma EarlierRound(i: nat, k: nat, c: nat)
    requires c >= 1 && Slot(i, c) == Slot(k, c) && i < k
    ensures Round(i, c) < Round(k, c)
  {
    MulMonotone(c, k / c, i / c);
    assert i == c * (i / c) + i % c;
    assert k == c * (k / c) + k % c;
  }

  /** In every interleaving at most one thread is constructing, moving from, destroying or handing
      on the storage of a slot. */
  lemma MutualExclusion<T>(capacity: nat, threads: nat, acts: seq<Action<T>>, t: Tid, u: Tid, k: nat, i: nat)
    requires capacity >= 1 && t < threads && u < threads
    requires var s := Run(capacity, threads, acts); s.pcs[t].Critical(k) && s.pcs[u].Critical(i)
    requires Slot(k, capacity) == Slot(i, capacity)
    ensures t == u && k == i
  {
    RunInv(capacity, threads, acts);
    CriticalSlotExclusive(Run(capacity, threads, acts), t, u);
  }

  /** A thread about to construct finds raw storage; a thread about to move finds the live value
      of its own ticket, so no step is ever stuck on the state of the storage. */
  lemma StorageReady<T>(capacity: nat, threads: nat, acts: seq<Action<T>>, t: Tid)
    requires capacity >= 1 && t < threads
    ensures var s := Run(capacity, threads, acts);
            match s.pcs[t]
            case Constructing(v, k) => s.cells[Slot(k, capacity)] == Raw
            case Moving(k) => k < s.head && s.cells[Slot(k, capacity)] == Live(s.vals[k])
            case Destroying(k, _) => s.cells[Slot(k, capacity)] == Husk
            case _ => true
  {
    RunInv(capacity, threads, acts);
    var s := Run(capacity, threads, acts);
    assert ThreadOk(s, t);
    if s.pcs[t].Constructing? || s.pcs[t].Moving? || s.pcs[t].Destroying? {
      assert Current(s, s.pcs[t].k);
    }
  }

  // ---------------------------------------------------------------- exactly once, in ticket order

  ghost predicate PushReportOk<T>(s: State<T>, r: Report<T>) {
    r.Pushed? ==> r.k in s.published && r.k < |s.pushOwner| && s.pushOwner[r.k] == r.t
  }

  ghost predicate PopReportOk<T>(s: State<T>, r: Report<T>) {
    r.Popped? ==> r.k in s.released && r.k < |s.popOwner| && s.popOwner[r.k] == r.t
                  && r.k < |s.vals| && r.v == s.vals[r.k]
  }

  ghost predicate PushedBefore<T>(reports: seq<Report<T>>, n: nat, k: nat) {
    exists i :: 0 <= i < n && i < |reports| && reports[i].Pushed? && reports[i].k == k
  }

  ghost predicate PoppedBefore<T>(reports: seq<Report<T>>, n: nat, k: nat) {
    exists i :: 0 <= i < n && i < |reports| && reports[i].Popped? && reports[i].k == k
  }

  /** No ticket is reported twice, a pop is reported after its push, and nothing else is left out. */
  ghost predicate ReportedOnce<T>(reports: seq<Report<T>>, published: set<nat>, released: set<nat>) {
    && (forall k :: k in published ==> PushedBefore(reports, |reports|, k))
    && (forall k :: k in released ==> PoppedBefore(reports, |reports|, k))
    && (forall i, j :: 0 <= i < j < |reports| && reports[i].Pushed? && reports[j].Pushed? ==> reports[i].k != reports[j].k)
    && (forall i, j :: 0 <= i < j < |reports| && reports[i].Popped? && reports[j].Popped? ==> reports[i].k != reports[j].k)
    && (forall j :: 0 <= j < |reports| && reports[j].Popped? ==> PushedBefore(reports, j, reports[j].k))
  }

  /** The reports speak of each published and each released ticket exactly once, a pop reports the
      value its ticket was pushed with, and only after the push was reported. */
  ghost predicate ReportsOk<T>(s: State<T>) {
    && (forall i :: 0 <= i < |s.reports| ==> PushReportOk(s, s.reports[i]) && PopReportOk(s, s.reports[i]))
    && ReportedOnce(s.reports, s.published, s.released)
  }

  /** What the reports say stays true when histories are extended. */
  lemma ReportStays<T>(s: State<T>, s': State<T>, r: Report<T>)
    requires PushReportOk(s, r) && PopReportOk(s, r)
    requires s.vals <= s'.vals && s.pushOwner <= s'.pushOwner && s.popOwner <= s'.popOwner
    requires s.published <= s'.published && s.released <= s'.released
    ensures PushReportOk(s', r) && PopReportOk(s', r)
  {
  }

  lemma BeforeStays<T>(reports: seq<Report<T>>, r: Report<T>, n: nat, m: nat, k: nat)
    requires n <= m
    ensures PushedBefore(reports, n, k) ==> PushedBefore(reports + [r], m, k)
    ensures PoppedBefore(reports, n, k) ==> PoppedBefore(reports + [r], m, k)
  {
    if PushedBefore(reports, n, k) {
      var i :| 0 <= i < n && i < |reports| && reports[i].Pushed? && reports[i].k == k;
      assert (reports + [r])[i] == reports[i];
    }
    if PoppedBefore(reports, n, k) {
      var i :| 0 <= i < n && i < |reports| && reports[i].Popped? && reports[i].k == k;
      assert (reports + [r])[i] == reports[i];
    }
  }

  lemma AppendReported<T>(reports: seq<Report<T>>, published: set<nat>, released: set<nat>, r: Report<T>)
    requires ReportedOnce(reports, published, released)
    requires forall i :: 0 <= i < |reports| && reports[i].Pushed? ==> reports[i].k in published
    requires forall i :: 0 <= i < |reports| && reports[i].Popped? ==> reports[i].k in released
    requires r.Pushed? ==> r.k !in published
    requires r.Popped? ==> r.k !in released && r.k in published
    ensures ReportedOnce(reports + [r], if r.Pushed? then published + {r.k} else published,
                         if r.Popped? then released + {r.k} else released)
  {
    var n, all := |reports|, reports + [r];
    assert all[n] == r;
    forall k | k in published ensures PushedBefore(all, n + 1, k) {
      BeforeStays(reports, r, n, n + 1, k);
    }
    forall k | k in released ensures PoppedBefore(all, n + 1, k) {
      BeforeStays(reports, r, n, n + 1, k);
    }
    forall j | 0 <= j < n + 1 && all[j].Popped? ensures PushedBefore(all, j, all[j].k) {
      BeforeStays(reports, r, j, j, all[j].k);
    }
  }

  lemma AppendReport<T>(s: State<T>, s': State<T>, r: Report<T>)
    requires ReportsOk(s)
    requires s'.reports == s.reports + [r]
    requires s.vals <= s'.vals && s.pushOwner <= s'.pushOwner && s.popOwner <= s'.popOwner
    requires s'.published == if r.Pushed? then s.published + {r.k} else s.published
    requires s'.released == if r.Popped? then s.released + {r.k} else s.released
    requires PushReportOk(s', r) && PopReportOk(s', r)
    requires r.Pushed? ==> r.k !in s.published
    requires r.Popped? ==> r.k !in s.released && r.k in s.published
    ensures ReportsOk(s')
  {
    var n := |s.reports|;
    forall i | 0 <= i < n ensures PushReportOk(s, s.reports[i]) && PopReportOk(s, s.reports[i]) {
    }
    AppendReported(s.reports, s.published, s.released, r);
    forall i | 0 <= i < n + 1 ensures PushReportOk(s', s'.reports[i]) && PopReportOk(s', s'.reports[i]) {
      if i < n { ReportStays(s, s', s.reports[i]); }
    }
  }

  lemma SameReports<T>(s: State<T>, s': State<T>)
    requires ReportsOk(s) && s'.reports == s.reports
    requires s.vals <= s'.vals && s.pushOwner <= s'.pushOwner && s.popOwner <= s'.popOwner
    requires s'.published == s.published && s'.released == s.released
    ensures ReportsOk(s')
  {
    forall i | 0 <= i < |s.reports| ensures PushReportOk(s', s.reports[i]) && PopReportOk(s', s.reports[i]) {
      assert PushReportOk(s, s.reports[i]) && PopReportOk(s, s.reports[i]);
    }
  }

  lemma PushStepReports<T>(s: State<T>, t: Tid)
    requires Inv(s) && ReportsOk(s) && t < |s.pcs| && InPush(s.pcs[t])
    ensures ReportsOk(StepThread(s, t))
  {
    var s' := StepThread(s, t);
    assert ThreadOk(s, t);
    if s.pcs[t].Publishing? {
      AppendReport(s, s', Pushed(t, s.pcs[t].k));
    } else if s.pcs[t].TryEmplaceReload? && s.pcs[t].k == s.head {
      AppendReport(s, s', PushRefused(t, s.head));
    } else {
      SameReports(s, s');
    }
  }

  lemma PopStepReports<T>(s: State<T>, t: Tid)
    requires Inv(s) && ReportsOk(s) && t < |s.pcs| && InPop(s.pcs[t])
    ensures ReportsOk(StepThread(s, t))
  {
    var s' := StepThread(s, t);
    assert ThreadOk(s, t);
    if s.pcs[t].Releasing? {
      AppendReport(s, s', Popped(t, s.pcs[t].k, s.pcs[t].v));
    } else if s.pcs[t].TryPopReload? && s.pcs[t].k == s.tail {
      AppendReport(s, s', PopRefused(t, s.tail));
    } else {
      SameReports(s, s');
    }
  }

  lemma NextReports<T>(s: State<T>, a: Action<T>)
    requires Inv(s) && ReportsOk(s)
    ensures ReportsOk(Next(s, a))
  {
    if a.t < |s.pcs| && a.Step? {
      if InPush(s.pcs[a.t]) {
        PushStepReports(s, a.t);
      } else if InPop(s.pcs[a.t]) {
        PopStepReports(s, a.t);
      }
    } else {
      SameReports(s, Next(s, a));
    }
  }

  lemma {:induction false} ExecReports<T>(s: State<T>, acts: seq<Action<T>>)
    requires Inv(s) && ReportsOk(s)
    ensures ReportsOk(Exec(s, acts))
    decreases |acts|
  {
    if acts != [] {
      ExecReports(s, acts[..|acts| - 1]);
      ExecInv(s, acts[..|acts| - 1]);
      NextReports(Exec(s, acts[..|acts| - 1]), acts[|acts| - 1]);
    }
  }

  /** Exactly once: over every run, each ticket is pushed by one thread and popped by one thread, a
      pop returns precisely the value pushed under its ticket, no value is returned twice, and
      none is returned before its push has completed. */
  lemma ExactlyOnce<T>(capacity: nat, threads: nat, acts: seq<Action<T>>)
    requires capacity >= 1
    ensures ReportsOk(Run(capacity, threads, acts))
  {
    InitInv<T>(capacity, threads);
    ExecReports(Init<T>(capacity, threads), acts);
  }

  /** Ticket order is real-time order for pushes: a push that completed before another thread even
      began its own has the smaller ticket. */
  lemma PushOrder<T>(capacity: nat, threads: nat, before: seq<Action<T>>, after: seq<Action<T>>,
                     i: nat, j: nat, u: Tid)
    requires capacity >= 1 && u < threads
    requires var s := Run(capacity, threads, before); var s' := Exec(s, after);
             && i < |s.reports| && s.reports[i].Pushed? && s.pcs[u].Idle?
             && |s.reports| <= j < |s'.reports| && s'.reports[j].Pushed? && s'.reports[j].t == u
    ensures var s' := Exec(Run(capacity, threads, before), after);
            s'.reports[i].Pushed? && s'.reports[i].k < s'.reports[j].k
  {
    RunInv(capacity, threads, before);
    ExactlyOnce(capacity, threads, before);
    var s := Run(capacity, threads, before);
    ExecReports(s, after);
    ExecLater(s, after);
    var s' := Exec(s, after);
    var k := s'.reports[j].k;
    assert s'.reports[i] == s.reports[i] && PushReportOk(s, s.reports[i]) && PushReportOk(s', s'.reports[j]);
    forall n | 0 <= n < |s.reports| && s.reports[n].Pushed? ensures s.reports[n].k != k {
      assert s'.reports[n] == s.reports[n];
    }
    assert k !in s.published;
  }

  /** The same for pops. */
  lemma PopOrder<T>(capacity: nat, threads: nat, before: seq<Action<T>>, after: seq<Action<T>>,
                    i: nat, j: nat, u: Tid)
    requires capacity >= 1 && u < threads
    requires var s := Run(capacity, threads, before); var s' := Exec(s, after);
             && i < |s.reports| && s.reports[i].Popped? && s.pcs[u].Idle?
             && |s.reports| <= j < |s'.reports| && s'.reports[j].Popped? && s'.reports[j].t == u
    ensures var s' := Exec(Run(capacity, threads, before), after);
            s'.reports[i].Popped? && s'.reports[i].k < s'.reports[j].k
  {
    RunInv(capacity, threads, before);
    ExactlyOnce(capacity, threads, before);
    var s := Run(capacity, threads, before);
    ExecReports(s, after);
    ExecLater(s, after);
    var s' := Exec(s, after);
    var k := s'.reports[j].k;
    assert s'.reports[i] == s.reports[i] && PopReportOk(s, s.reports[i]) && PopReportOk(s', s'.reports[j]);
    forall n | 0 <= n < |s.reports| && s.reports[n].Popped? ensures s.reports[n].k != k {
      assert s'.reports[n] == s.reports[n];
    }
    assert k !in s.released;
  }

  // ---------------------------------------------------------------- try_emplace and try_pop

  /** Check-then-claim: when try_emplace has seen its slot free, the slot stays free, through any
      steps of any threads, for as long as nobody has claimed the ticket; so the compare-exchange
      succeeds only on a slot that is still free, and then the claim is this thread's alone. */
  lemma CheckedPushSlotStays<T>(capacity: nat, threads: nat, before: seq<Action<T>>, after: seq<Action<T>>,
                                t: Tid, v: T, k: nat)
    requires capacity >= 1 && t < threads
    requires var s := Run(capacity, threads, before);
             s.pcs[t] == TryEmplaceLoad(v, k) && TurnIs(s, k, PushTurn(k, capacity))
    requires Exec(Run(capacity, threads, before), after).head == k
    ensures var s' := Exec(Run(capacity, threads, before), after);
            && TurnIs(s', k, PushTurn(k, capacity))
            && s'.cells[Slot(k, capacity)] == Raw
            && (s'.pcs[t] == TryEmplaceCas(v, k) ==>
                  var c := StepThread(s', t);
                  c.pcs[t] == Constructing(v, k) && c.head == k + 1 && c.pushOwner[k] == t && c.vals[k] == v)
  {
    var s := Run(capacity, threads, before);
    RunInv(capacity, threads, before);
    ExecInv(s, after);
    ExecLater(s, after);
    var s' := Exec(s, after);
    assert ThreadOk(s, t);
    assert k !in s'.published;
    assert Current(s', k);
  }

  lemma CheckedPopSlotStays<T>(capacity: nat, threads: nat, before: seq<Action<T>>, after: seq<Action<T>>,
                               t: Tid, k: nat)
    requires capacity >= 1 && t < threads
    requires var s := Run(capacity, threads, before);
             s.pcs[t] == TryPopLoad(k) && TurnIs(s, k, PopTurn(k, capacity))
    requires Exec(Run(capacity, threads, before), after).tail == k
    ensures var s' := Exec(Run(capacity, threads, before), after);
            && TurnIs(s', k, PopTurn(k, capacity))
            && k < s'.head && s'.cells[Slot(k, capacity)] == Live(s'.vals[k])
            && (s'.pcs[t] == TryPopCas(k) ==>
                  var c := StepThread(s', t);
                  c.pcs[t] == Moving(k) && c.tail == k + 1 && c.popOwner[k] == t)
  {
    var s := Run(capacity, threads, before);
    RunInv(capacity, threads, before);
    ExecInv(s, after);
    ExecLater(s, after);
    var s' := Exec(s, after);
    assert ThreadOk(s, t);
    assert k !in s'.released;
    assert Current(s', k);
    assert k in s'.published;
  }

  /** The run up to its first n actions. */
  function Prefix<T>(capacity: nat, threads: nat, acts: seq<Action<T>>, n: nat): (s: State<T>)
    requires capacity >= 1 && n <= |acts|
    ensures WellFormed(s) && s.capacity == capacity && |s.pcs| == threads
  {
    Run(capacity, threads, acts[..n])
  }

  lemma PrefixStep<T>(capacity: nat, threads: nat, acts: seq<Action<T>>, n: nat)
    requires capacity >= 1 && n < |acts|
    ensures Prefix(capacity, threads, acts, n + 1) == Next(Prefix(capacity, threads, acts, n), acts[n])
  {
    assert acts[..n + 1][..n] == acts[..n];
  }

  /** The moment a thread that is re-reading its counter last read the turn of its slot. */
  ghost predicate LastLoad<T>(capacity: nat, threads: nat, acts: seq<Action<T>>, t: Tid, n: nat)
    requires capacity >= 1 && n < |acts| && t < threads
  {
    var s := Prefix(capacity, threads, acts, n);
    var end := Prefix(capacity, threads, acts, |acts|);
    && acts[n] == Step(t)
    && (match end.pcs[t]
        case TryEmplaceReload(v, k) => s.pcs[t] == TryEmplaceLoad(v, k) && !TurnIs(s, k, PushTurn(k, capacity))
        case TryPopReload(k) => s.pcs[t] == TryPopLoad(k) && !TurnIs(s, k, PopTurn(k, capacity))
        case _ => false)
    && (forall m :: n < m <= |acts| ==> Prefix(capacity, threads, acts, m).pcs[t] == end.pcs[t])
  }

  /** A thread comes to re-read its counter only from a read of the turn that failed. */
  lemma ReloadComesFromLoad<T>(s: State<T>, a: Action<T>, t: Tid)
    requires WellFormed(s) && t < |s.pcs|
    requires var pc := Next(s, a).pcs[t]; (pc.TryEmplaceReload? || pc.TryPopReload?) && s.pcs[t] != pc
    ensures a == Step(t)
    ensures match Next(s, a).pcs[t]
            case TryEmplaceReload(v, k) => s.pcs[t] == TryEmplaceLoad(v, k) && !TurnIs(s, k, PushTurn(k, s.capacity))
            case TryPopReload(k) => s.pcs[t] == TryPopLoad(k) && !TurnIs(s, k, PopTurn(k, s.capacity))
            case _ => false
  {
  }

  lemma PrefixOfPrefix<T>(capacity: nat, threads: nat, acts: seq<Action<T>>, n: nat)
    requires capacity >= 1 && n <= |acts|
    ensures forall m: nat :: m <= n ==> Prefix(capacity, threads, acts[..n], m) == Prefix(capacity, threads, acts, m)
  {
    forall m: nat | m <= n ensures Prefix(capacity, threads, acts[..n], m) == Prefix(capacity, threads, acts, m) {
      assert acts[..n][..m] == acts[..m];
    }
  }

  lemma LastLoadStays<T>(capacity: nat, threads: nat, acts: seq<Action<T>>, t: Tid, n: nat)
    requires capacity >= 1 && t < threads && n + 1 < |acts|
    requires LastLoad(capacity, threads, acts[..|acts| - 1], t, n)
    requires Prefix(capacity, threads, acts, |acts| - 1).pcs[t] == Prefix(capacity, threads, acts, |acts|).pcs[t]
    ensures LastLoad(capacity, threads, acts, t, n)
  {
    PrefixOfPrefix(capacity, threads, acts, |acts| - 1);
  }

  lemma {:induction false} FindLastLoad<T>(capacity: nat, threads: nat, acts: seq<Action<T>>, t: Tid)
    requires capacity >= 1 && t < threads
    requires var pc := Run(capacity, threads, acts).pcs[t]; pc.TryEmplaceReload? || pc.TryPopReload?
    ensures exists n: nat :: n < |acts| && LastLoad(capacity, threads, acts, t, n)
    decreases |acts|
  {
    assert acts != [];
    assert acts[..|acts|] == acts;
    var last := |acts| - 1;
    PrefixStep(capacity, threads, acts, last);
    var s := Prefix(capacity, threads, acts, last);
    if s.pcs[t] != Next(s, acts[last]).pcs[t] {
      ReloadComesFromLoad(s, acts[last], t);
      assert LastLoad(capacity, threads, acts, t, last);
    } else {
      FindLastLoad(capacity, threads, acts[..last], t);
      var n: nat :| n < last && LastLoad(capacity, threads, acts[..last], t, n);
      LastLoadStays(capacity, threads, acts, t, n);
    }
  }

  /** A false result of try_pop is justified: when it is about to be returned, the call's last read
      of the turn happened at an instant when `k` was the ticket at the tail and nothing had been
      published under it. */
  lemma TryPopFalseJustified<T>(capacity: nat, threads: nat, acts: seq<Action<T>>, t: Tid, k: nat)
    requires capacity >= 1 && t < threads
    requires var s := Run(capacity, threads, acts); s.pcs[t] == TryPopReload(k) && s.tail == k
    ensures exists n: nat :: n < |acts| && LastLoad(capacity, threads, acts, t, n)
              && Prefix(capacity, threads, acts, n).tail == k
              && k !in Prefix(capacity, threads, acts, n).published
  {
    FindLastLoad(capacity, threads, acts, t);
    var n: nat :| n < |acts| && LastLoad(capacity, threads, acts, t, n);
    JustifyAt(capacity, threads, acts, t, k, n);
  }

  /** A false result of try_emplace is justified: at the call's last read of the turn `k` was the
      ticket at the head and the pop ticket one round before it had not released the slot. */
  lemma TryEmplaceFalseJustified<T>(capacity: nat, threads: nat, acts: seq<Action<T>>, t: Tid, k: nat)
    requires capacity >= 1 && t < threads
    requires var s := Run(capacity, threads, acts); s.pcs[t].TryEmplaceReload? && s.pcs[t].k == k && s.head == k
    ensures k >= capacity
    ensures exists n: nat :: n < |acts| && LastLoad(capacity, threads, acts, t, n)
              && Prefix(capacity, threads, acts, n).head == k
              && k - capacity !in Prefix(capacity, threads, acts, n).released
  {
    FindLastLoad(capacity, threads, acts, t);
    var n: nat :| n < |acts| && LastLoad(capacity, threads, acts, t, n);
    JustifyAt(capacity, threads, acts, t, k, n);
  }

  /** The turn that made a try fail, read when the counter already was what it is at the return. */
  lemma FailedLoadMeans<T>(s: State<T>, t: Tid, k: nat)
    requires Inv(s) && t < |s.pcs|
    requires || (s.pcs[t] == TryPopLoad(k) && s.tail <= k && !TurnIs(s, k, PopTurn(k, s.capacity)))
             || (s.pcs[t].TryEmplaceLoad? && s.pcs[t].k == k && s.head <= k && !TurnIs(s, k, PushTurn(k, s.capacity)))
    ensures s.pcs[t].TryPopLoad? ==> s.tail == k && k !in s.published
    ensures s.pcs[t].TryEmplaceLoad? ==> s.head == k && k >= s.capacity && k - s.capacity !in s.released
  {
    assert ThreadOk(s, t);
    if k >= s.capacity {
      NeighbourTicket(k - s.capacity, s.capacity);
    } else {
      DivModUnique(k, s.capacity, 0, k);
    }
  }

  lemma JustifyAt<T>(capacity: nat, threads: nat, acts: seq<Action<T>>, t: Tid, k: nat, n: nat)
    requires capacity >= 1 && t < threads && n < |acts| && LastLoad(capacity, threads, acts, t, n)
    requires var s := Run(capacity, threads, acts);
             || (s.pcs[t] == TryPopReload(k) && s.tail == k)
             || (s.pcs[t].TryEmplaceReload? && s.pcs[t].k == k && s.head == k)
    ensures var s := Prefix(capacity, threads, acts, n);
            if Run(capacity, threads, acts).pcs[t].TryPopReload?
            then s.tail == k && k !in s.published
            else s.head == k && k >= capacity && k - capacity !in s.released
  {
    assert acts[..|acts|] == acts;
    var s := Prefix(capacity, threads, acts, n);
    RunInv(capacity, threads, acts[..n]);
    PrefixLater(capacity, threads, acts, n);
    FailedLoadMeans(s, t, k);
  }

  lemma PrefixLater<T>(capacity: nat, threads: nat, acts: seq<Action<T>>, n: nat)
    requires capacity >= 1 && n <= |acts|
    ensures Later(Prefix(capacity, threads, acts, n), Run(capacity, threads, acts))
  {
    RunInv(capacity, threads, acts[..n]);
    assert acts == acts[..n] + acts[n..];
    ExecConcat(Init<T>(capacity, threads), acts[..n], acts[n..]);
    ExecLater(Prefix(capacity, threads, acts, n), acts[n..]);
  }

  // ---------------------------------------------------------------- refusals as they are reported

  lemma OneReport<T>(s: State<T>, a: Action<T>)
    requires WellFormed(s)
    ensures var before, after := s.reports, Next(s, a).reports;
            after == before || (|after| == |before| + 1 && after == before + [after[|before|]])
  {
  }

  /** try_pop refuses in one step only, re-reading the tail, and exactly if that has not moved. */
  lemma PopRefusesExactly<T>(s: State<T>, a: Action<T>, t: Tid, k: nat)
    requires WellFormed(s)
    ensures Next(s, a).reports == s.reports + [PopRefused(t, k)] <==>
              a == Step(t) && t < |s.pcs| && s.pcs[t] == TryPopReload(k) && s.tail == k
  {
    OneReport(s, a);
    assert (s.reports + [PopRefused(t, k)])[|s.reports|] == PopRefused(t, k);
  }

  /** The same for try_emplace and the head. */
  lemma PushRefusesExactly<T>(s: State<T>, a: Action<T>, t: Tid, k: nat)
    requires WellFormed(s)
    ensures Next(s, a).reports == s.reports + [PushRefused(t, k)] <==>
              a == Step(t) && t < |s.pcs| && s.pcs[t].TryEmplaceReload? && s.pcs[t].k == k && s.head == k
  {
    OneReport(s, a);
    assert (s.reports + [PushRefused(t, k)])[|s.reports|] == PushRefused(t, k);
  }

  /** Whatever is reported was reported by some action. */
  lemma {:induction false} ReportedBy<T>(capacity: nat, threads: nat, acts: seq<Action<T>>, r: Report<T>) returns (m: nat)
    requires capacity >= 1 && r in Run(capacity, threads, acts).reports
    ensures m < |acts|
    ensures var s := Prefix(capacity, threads, acts, m); Next(s, acts[m]).reports == s.reports + [r]
    decreases |acts|
  {
    assert acts != [];
    var init := acts[..|acts| - 1];
    var s := Run(capacity, threads, init);
    OneReport(s, acts[|init|]);
    if r in s.reports {
      m := ReportedBy(capacity, threads, init, r);
      PrefixOfPrefix(capacity, threads, acts, |init|);
      assert Prefix(capacity, threads, init, m) == Prefix(capacity, threads, acts, m);
    } else {
      m := |init|;
      assert Prefix(capacity, threads, acts, m) == s;
    }
  }

  /** After n actions a load of the turn failed, and action m refused without the counter having moved between. */
  ghost predicate Justified<T>(capacity: nat, threads: nat, acts: seq<Action<T>>, t: Tid, m: nat, n: nat)
    requires capacity >= 1 && t < threads && n < m < |acts|
  {
    acts[m] == Step(t) && LastLoad(capacity, threads, acts[..m], t, n)
  }

  /** Every refusal of try_pop that a run reports: when it was reported the tail was the ticket it names, and when
      the call last read the turn it was too, and nothing had been published under that ticket. */
  lemma PopRefusedJustified<T>(capacity: nat, threads: nat, acts: seq<Action<T>>, t: Tid, k: nat)
    requires capacity >= 1 && PopRefused(t, k) in Run(capacity, threads, acts).reports
    ensures t < threads
    ensures exists m: nat, n: nat :: n < m < |acts| && Justified(capacity, threads, acts, t, m, n)
              && Prefix(capacity, threads, acts, m).tail == Prefix(capacity, threads, acts, n).tail == k
              && k !in Prefix(capacity, threads, acts, n).published
  {
    var m := ReportedBy(capacity, threads, acts, PopRefused(t, k));
    PopRefusesExactly(Prefix(capacity, threads, acts, m), acts[m], t, k);
    TryPopFalseJustified(capacity, threads, acts[..m], t, k);
    var n: nat :| n < m && LastLoad(capacity, threads, acts[..m], t, n)
                  && Prefix(capacity, threads, acts[..m], n).tail == k
                  && k !in Prefix(capacity, threads, acts[..m], n).published;
    PrefixOfPrefix(capacity, threads, acts, m);
    assert Justified(capacity, threads, acts, t, m, n);
  }

  /** Every refusal of try_emplace: the head was the ticket it names at both moments, and at the load the pop
      ticket one round before had not released the slot. */
  lemma PushRefusedJustified<T>(capacity: nat, threads: nat, acts: seq<Action<T>>, t: Tid, k: nat)
    requires capacity >= 1 && PushRefused(t, k) in Run(capacity, threads, acts).reports
    ensures t < threads && k >= capacity
    ensures exists m: nat, n: nat :: n < m < |acts| && Justified(capacity, threads, acts, t, m, n)
              && Prefix(capacity, threads, acts, m).head == Prefix(capacity, threads, acts, n).head == k
              && k - capacity !in Prefix(capacity, threads, acts, n).released
  {
    var m := ReportedBy(capacity, threads, acts, PushRefused(t, k));
    PushRefusesExactly(Prefix(capacity, threads, acts, m), acts[m], t, k);
    TryEmplaceFalseJustified(capacity, threads, acts[..m], t, k);
    var n: nat :| n < m && LastLoad(capacity, threads, acts[..m], t, n)
                  && Prefix(capacity, threads, acts[..m], n).head == k
                  && k - capacity !in Prefix(capacity, threads, acts[..m], n).released;
    PrefixOfPrefix(capacity, threads, acts, m);
    assert Justified(capacity, threads, acts, t, m, n);
  }

  // ---------------------------------------------------------------- progress

  /** The tickets both sides have claimed. */
  function Matched<T>(s: State<T>): nat {
    if s.head < s.tail then s.head else s.tail
  }

  /** The smallest matched ticket that is not finished. */
  ghost predicate Oldest<T>(s: State<T>, k: nat) {
    k < Matched(s) && k !in s.released && forall i: nat :: i < k ==> i in s.released
  }

  /** Who must act for ticket k to advance. */
  ghost function Responsible<T>(s: State<T>, k: nat): Tid
    requires WellFormed(s) && k < Matched(s)
  {
    if k in s.published then s.popOwner[k] else s.pushOwner[k]
  }

  /** How many steps a ticket is away from being released. */
  ghost function StepsLeft<T>(s: State<T>, k: nat): nat
    requires WellFormed(s) && k < Matched(s)
  {
    var t := Responsible(s, k);
    if k in s.released || t >= |s.pcs| then 0
    else if k !in s.published then
      4 + (if s.pcs[t].EmplaceSpin? then 3 else if s.pcs[t].Constructing? then 2 else 1)
    else if s.pcs[t].PopSpin? then 4 else if s.pcs[t].Moving? then 3 else if s.pcs[t].Destroying? then 2 else 1
  }

  /** The slot of the oldest matched ticket is at that ticket. */
  lemma OldestIsCurrent<T>(s: State<T>, k: nat)
    requires Inv(s) && Oldest(s, k)
    ensures TurnIs(s, k, if k in s.published then PopTurn(k, s.capacity) else PushTurn(k, s.capacity))
  {
    if k >= s.capacity {
      NeighbourTicket(k - s.capacity, s.capacity);
      assert k - s.capacity in s.released;
    } else {
      DivModUnique(k, s.capacity, 0, k);
    }
  }

  lemma OldestPushAdvances<T>(s: State<T>, k: nat)
    requires Inv(s) && Oldest(s, k) && k !in s.published
    ensures var t := Responsible(s, k);
            && t < |s.pcs| && s.pcs[t].HoldsPush(k)
            && StepThread(s, t).pcs[t] != s.pcs[t]
            && StepThread(s, t).head == s.head && StepThread(s, t).tail == s.tail
            && StepsLeft(StepThread(s, t), k) < StepsLeft(s, k)
  {
    var t := Responsible(s, k);
    OldestIsCurrent(s, k);
    assert s.pcs[t].HoldsPush(k) && ThreadOk(s, t);
  }

  lemma OldestPopAdvances<T>(s: State<T>, k: nat)
    requires Inv(s) && Oldest(s, k) && k in s.published
    ensures var t := Responsible(s, k);
            && t < |s.pcs| && s.pcs[t].HoldsPop(k)
            && StepThread(s, t).pcs[t] != s.pcs[t]
            && StepThread(s, t).head == s.head && StepThread(s, t).tail == s.tail
            && StepsLeft(StepThread(s, t), k) < StepsLeft(s, k)
  {
    var t := Responsible(s, k);
    OldestIsCurrent(s, k);
    assert s.pcs[t].HoldsPop(k) && ThreadOk(s, t);
    if s.pcs[t].Moving? { MovingFindsValue(s, t); }
  }

  /** No deadlock: the owner of the oldest matched ticket never spins; its next step advances that
      ticket, whatever all other threads are doing. */
  lemma AdvanceOldest<T>(s: State<T>, k: nat) returns (t: Tid, s': State<T>)
    requires Inv(s) && Oldest(s, k)
    ensures t < |s.pcs| && s' == StepThread(s, t) && Inv(s')
    ensures (s.pcs[t].HoldsPush(k) || s.pcs[t].HoldsPop(k)) && s'.pcs[t] != s.pcs[t]
    ensures s'.head == s.head && s'.tail == s.tail && s.released <= s'.released
    ensures StepsLeft(s', k) < StepsLeft(s, k)
  {
    if k in s.published { OldestPopAdvances(s, k); } else { OldestPushAdvances(s, k); }
    t := Responsible(s, k);
    s' := StepThread(s, t);
    PreserveStep(s, t);
    NextLater(s, Step(t));
  }

  ghost predicate FinishesMatched<T>(s: State<T>, acts: seq<Action<T>>)
    requires WellFormed(s)
  {
    && (forall i :: 0 <= i < |acts| ==> acts[i].Step?)
    && var s' := Exec(s, acts);
       s'.head == s.head && s'.tail == s.tail && forall i: nat :: i < Matched(s) ==> i in s'.released
  }

  lemma FinishAfter<T>(s: State<T>, t: Tid, rest: seq<Action<T>>)
    requires WellFormed(s) && t < |s.pcs|
    requires var s1 := StepThread(s, t); WellFormed(s1) && s1.head == s.head && s1.tail == s.tail && FinishesMatched(s1, rest)
    ensures FinishesMatched(s, [Step(t)] + rest)
  {
    var one: seq<Action<T>> := [Step(t)];
    ExecConcat(s, one, rest);
    assert one[..0] == [];
    assert Exec(s, one) == Next(Exec(s, []), Step(t));
  }

  lemma NothingToFinish<T>(s: State<T>)
    requires WellFormed(s) && forall i: nat :: i < Matched(s) ==> i in s.released
    ensures FinishesMatched(s, [])
  {
  }

  lemma {:induction false} FinishFrom<T>(s: State<T>, k: nat)
    requires Inv(s) && k <= Matched(s) && forall i: nat :: i < k ==> i in s.released
    ensures exists acts :: FinishesMatched(s, acts)
    decreases Matched(s) - k, if k < Matched(s) then StepsLeft(s, k) else 0
  {
    if k == Matched(s) {
      NothingToFinish(s);
    } else if k in s.released {
      FinishFrom(s, k + 1);
    } else {
      var t, s1 := AdvanceOldest(s, k);
      FinishFrom(s1, k);
      var rest :| FinishesMatched(s1, rest);
      FinishAfter(s, t, rest);
    }
  }

  /** From every reachable state the claimed work can be finished: some schedule of steps, with no
      new call and no new claim, releases every ticket both sides have claimed. */
  lemma ClaimedWorkFinishes<T>(capacity: nat, threads: nat, acts: seq<Action<T>>)
    requires capacity >= 1
    ensures exists more :: FinishesMatched(Run(capacity, threads, acts), more)
  {
    RunInv(capacity, threads, acts);
    FinishFrom(Run(capacity, threads, acts), 0);
  }

  /** No deadlock, stated for runs: while a ticket claimed by both sides is unfinished, some thread
      that holds the oldest one has a step that is not a spin. */
  lemma NoDeadlock<T>(capacity: nat, threads: nat, acts: seq<Action<T>>, k: nat)
    requires capacity >= 1 && Oldest(Run(capacity, threads, acts), k)
    ensures var s := Run(capacity, threads, acts);
            exists t: Tid :: t < threads && (s.pcs[t].HoldsPush(k) || s.pcs[t].HoldsPop(k))
              && StepThread(s, t).pcs[t] != s.pcs[t]
  {
    RunInv(capacity, threads, acts);
    var s := Run(capacity, threads, acts);
    var t, s' := AdvanceOldest(s, k);
  }

  // ---------------------------------------------------------------- at rest

  lemma QuiescentTickets<T>(s: State<T>)
    requires Inv(s) && forall t: Tid :: t < |s.pcs| ==> s.pcs[t].Idle?
    ensures s.tail <= s.head <= s.tail + s.capacity
    ensures forall k: nat :: k in s.published <==> k < s.head
    ensures forall k: nat :: k in s.released <==> k < s.tail
  {
    assert forall k: nat :: k < s.head ==> k in s.published;
    assert forall k: nat :: k < s.tail ==> k in s.released;
    assert s.head !in s.released;
    NeighbourTicket(s.tail, s.capacity);
    assert s.tail + s.capacity !in s.published;
  }

  /** When no thread is inside an operation the queue is a plain ring buffer: the tickets from tail
      to head are stored, each in its own slot, nothing else is, and there are at most `capacity`. */
  lemma QuiescentIsRingBuffer<T>(capacity: nat, threads: nat, acts: seq<Action<T>>)
    requires capacity >= 1
    requires var s := Run(capacity, threads, acts); forall t: Tid :: t < threads ==> s.pcs[t].Idle?
    ensures var s := Run(capacity, threads, acts);
            && s.tail <= s.head <= s.tail + capacity
            && (forall k: nat :: k in s.published <==> k < s.head)
            && (forall k: nat :: k in s.released <==> k < s.tail)
            && (forall k: nat :: s.tail <= k < s.head ==> s.cells[Slot(k, capacity)] == Live(s.vals[k]))
            && (forall k: nat :: s.head <= k < s.tail + capacity ==> s.cells[Slot(k, capacity)] == Raw)
  {
    RunInv(capacity, threads, acts);
    var s := Run(capacity, threads, acts);
    QuiescentTickets(s);
    forall k: nat | s.tail <= k < s.tail + capacity ensures s.cells[Slot(k, capacity)] == Expected(s, k) {
      if k >= capacity {
        NeighbourTicket(k - capacity, capacity);
        assert k - capacity in s.released;
      } else {
        DivModUnique(k, capacity, 0, k);
      }
      assert Current(s, k);
    }
  }
}
