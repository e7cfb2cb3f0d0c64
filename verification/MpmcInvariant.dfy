/** The inductive invariant of the queue and its preservation, one lemma per kind of step. */
module MpmcInvariant {
  import opened MpmcModel

  /** Published and released tickets are exactly those the turn of their slot has passed. */
  ghost predicate TurnsTell<T>(s: State<T>)
    requires WellFormed(s)
  {
    var c := s.capacity;
    && (forall k: nat :: k in s.published <==> s.turns[Slot(k, c)] > PushTurn(k, c))
    && (forall k: nat :: k in s.released <==> s.turns[Slot(k, c)] > PopTurn(k, c))
  }

  ghost predicate Claimed<T>(s: State<T>)
    requires WellFormed(s)
  {
    && (forall k :: k in s.published ==> k < s.head)
    && (forall k :: k in s.released ==> k < s.tail)
  }

  /** A claimed ticket that is not finished is held by its owner, and threads hold nothing else. */
  ghost predicate Owned<T>(s: State<T>)
    requires WellFormed(s)
  {
    && (forall k: nat :: k < s.head && k !in s.published ==>
          s.pushOwner[k] < |s.pcs| && s.pcs[s.pushOwner[k]].HoldsPush(k))
    && (forall k: nat :: k < s.tail && k !in s.released ==>
          s.popOwner[k] < |s.pcs| && s.pcs[s.popOwner[k]].HoldsPop(k))
  }

  /** What each thread may rely on where it stands. */
  ghost predicate ThreadOk<T>(s: State<T>, t: Tid)
    requires WellFormed(s) && t < |s.pcs|
  {
    var c := s.capacity;
    match s.pcs[t]
    case EmplaceSpin(v, k) =>
      k < s.head && k !in s.published && s.pushOwner[k] == t && s.vals[k] == v
    case TryEmplaceLoad(_, k) => k <= s.head
    case TryEmplaceCas(_, k) => k <= s.head && s.turns[Slot(k, c)] >= PushTurn(k, c)
    case TryEmplaceReload(_, k) => k <= s.head
    case Constructing(v, k) =>
      k < s.head && s.pushOwner[k] == t && s.vals[k] == v && TurnIs(s, k, PushTurn(k, c))
    case Publishing(k) =>
      k < s.head && s.pushOwner[k] == t && TurnIs(s, k, PushTurn(k, c))
    case PopSpin(k) =>
      k < s.tail && k !in s.released && s.popOwner[k] == t
    case TryPopLoad(k) => k <= s.tail
    case TryPopCas(k) => k <= s.tail && s.turns[Slot(k, c)] >= PopTurn(k, c)
    case TryPopReload(k) => k <= s.tail
    case Moving(k) =>
      k < s.tail && s.popOwner[k] == t && TurnIs(s, k, PopTurn(k, c))
    case Destroying(k, v) =>
      k < s.tail && s.popOwner[k] == t && TurnIs(s, k, PopTurn(k, c)) && k < s.head && s.vals[k] == v
    case Releasing(k, v) =>
      k < s.tail && s.popOwner[k] == t && TurnIs(s, k, PopTurn(k, c)) && k < s.head && s.vals[k] == v
    case _ => true
  }

  ghost predicate Threads<T>(s: State<T>)
    requires WellFormed(s)
  {
    forall t: Tid :: t < |s.pcs| ==> ThreadOk(s, t)
  }

  /** What the storage of the slot holds while `k` is the ticket its turn is at. */
  ghost function Expected<T>(s: State<T>, k: nat): Cell<T>
    requires WellFormed(s)
  {
    if k !in s.published then
      if k < s.head && s.pushOwner[k] < |s.pcs| && s.pcs[s.pushOwner[k]] == Publishing(k)
      then Live(s.vals[k]) else Raw
    else if k < s.tail && s.popOwner[k] < |s.pcs| && s.pcs[s.popOwner[k]].Destroying? && s.pcs[s.popOwner[k]].k == k
    then Husk
    else if k < s.tail && s.popOwner[k] < |s.pcs| && s.pcs[s.popOwner[k]].Releasing? && s.pcs[s.popOwner[k]].k == k
    then Raw
    else if k < s.head then Live(s.vals[k])
    else Raw
  }

  ghost predicate Current<T>(s: State<T>, k: nat)
    requires WellFormed(s)
  {
    TurnIs(s, k, PushTurn(k, s.capacity)) || TurnIs(s, k, PopTurn(k, s.capacity))
  }

  ghost predicate Storage<T>(s: State<T>)
    requires WellFormed(s)
  {
    forall k: nat :: Current(s, k) ==> s.cells[Slot(k, s.capacity)] == Expected(s, k)
  }

  ghost predicate Inv<T>(s: State<T>) {
    && WellFormed(s)
    && TurnsTell(s)
    && Claimed(s)
    && Owned(s)
    && Threads(s)
    && Storage(s)
  }

  /** Slot and round determine the ticket. */
  lemma TicketUnique(c: nat)
    requires c >= 1
    ensures forall x: nat, y: nat {:trigger Slot(x, c), Slot(y, c)} ::
              Slot(x, c) == Slot(y, c) && Round(x, c) == Round(y, c) ==> x == y
  {
    forall x: nat, y: nat | Slot(x, c) == Slot(y, c) && Round(x, c) == Round(y, c)
      ensures x == y
    {
      assert x == c * (x / c) + x % c;
      assert y == c * (y / c) + y % c;
    }
  }

  lemma InitInv<T>(capacity: nat, threads: nat)
    requires capacity >= 1
    ensures Inv(Init<T>(capacity, threads))
  {
  }

  /** A thread that does not move keeps what it relies on when the counters grow, histories are
      extended, and the turns only change at tickets it does not hold. */
  lemma ThreadFrame<T>(s: State<T>, s': State<T>, t: Tid)
    requires WellFormed(s) && WellFormed(s') && s'.capacity == s.capacity
    requires t < |s.pcs| == |s'.pcs| && s'.pcs[t] == s.pcs[t] && ThreadOk(s, t)
    requires s.vals <= s'.vals && s.pushOwner <= s'.pushOwner && s.popOwner <= s'.popOwner
    requires forall j :: 0 <= j < s.capacity ==> s.turns[j] <= s'.turns[j]
    requires forall k: nat :: s.pcs[t].Critical(k) ==> s'.turns[Slot(k, s.capacity)] == s.turns[Slot(k, s.capacity)]
    requires forall k: nat :: s.pcs[t].HoldsPush(k) && k in s'.published ==> k in s.published
    requires forall k: nat :: s.pcs[t].HoldsPop(k) && k in s'.released ==> k in s.released
    ensures ThreadOk(s', t)
  {
    var pc := s.pcs[t];
    if pc.Constructing? || pc.Publishing? || pc.Moving? || pc.Destroying? || pc.Releasing? {
      assert pc.Critical(pc.k);
    }
    if pc.EmplaceSpin? {
      assert pc.HoldsPush(pc.k);
    }
    if pc.PopSpin? {
      assert pc.HoldsPop(pc.k);
    }
  }

  /** The places in which the storage of the held slot is not what the queue shows to others. */
  ghost predicate Quiet<T>(pc: Pc<T>) {
    !pc.Publishing? && !pc.Destroying? && !pc.Releasing?
  }

  /** A step that moves only the program counter and neither claims nor finishes a ticket. */
  lemma PreserveGoto<T>(s: State<T>, t: Tid, pc: Pc<T>)
    requires Inv(s) && t < |s.pcs|
    requires Quiet(s.pcs[t]) && Quiet(pc)
    requires forall k: nat :: s.pcs[t].HoldsPush(k) == pc.HoldsPush(k)
    requires forall k: nat :: s.pcs[t].HoldsPop(k) == pc.HoldsPop(k)
    requires ThreadOk(Goto(s, t, pc), t)
    ensures Inv(Goto(s, t, pc))
  {
    var s' := Goto(s, t, pc);
    forall u: Tid | u < |s.pcs| && u != t ensures ThreadOk(s', u) {
      ThreadFrame(s, s', u);
    }
    forall k: nat | Current(s', k) ensures s'.cells[Slot(k, s.capacity)] == Expected(s', k) {
      assert Current(s, k);
    }
  }

  lemma PreserveReport<T>(s: State<T>, reports: seq<Report<T>>)
    requires Inv(s)
    ensures Inv(s.(reports := reports))
  {
    var s' := s.(reports := reports);
    forall u: Tid | u < |s.pcs| ensures ThreadOk(s', u) {
      ThreadFrame(s, s', u);
    }
    forall k: nat | Current(s', k) ensures s'.cells[Slot(k, s.capacity)] == Expected(s', k) {
      assert Current(s, k);
    }
  }

  lemma PreserveClaimPush<T>(s: State<T>, t: Tid, v: T, pc: Pc<T>)
    requires Inv(s) && t < |s.pcs|
    requires s.pcs[t] == EmplaceCalled(v) || s.pcs[t] == TryEmplaceCas(v, s.head)
    requires pc == if s.pcs[t].EmplaceCalled? then EmplaceSpin(v, s.head) else Constructing(v, s.head)
    ensures Inv(ClaimPush(s, t, v, pc))
  {
    var s' := ClaimPush(s, t, v, pc);
    assert ThreadOk(s, t);
    forall u: Tid | u < |s.pcs| ensures ThreadOk(s', u) {
      if u != t { ThreadFrame(s, s', u); }
    }
    forall k: nat | k < s'.head && k !in s'.published
      ensures s'.pushOwner[k] < |s'.pcs| && s'.pcs[s'.pushOwner[k]].HoldsPush(k)
    {
      if k < s.head { assert s.pcs[s.pushOwner[k]].HoldsPush(k); }
    }
    forall k: nat | Current(s', k) ensures s'.cells[Slot(k, s.capacity)] == Expected(s', k) {
      assert Current(s, k);
    }
  }

  lemma PreserveClaimPop<T>(s: State<T>, t: Tid, pc: Pc<T>)
    requires Inv(s) && t < |s.pcs|
    requires s.pcs[t] == PopCalled || s.pcs[t] == TryPopCas(s.tail)
    requires pc == if s.pcs[t].PopCalled? then PopSpin(s.tail) else Moving(s.tail)
    ensures Inv(ClaimPop(s, t, pc))
  {
    var s' := ClaimPop(s, t, pc);
    assert ThreadOk(s, t);
    forall u: Tid | u < |s.pcs| ensures ThreadOk(s', u) {
      if u != t { ThreadFrame(s, s', u); }
    }
    forall k: nat | k < s'.tail && k !in s'.released
      ensures s'.popOwner[k] < |s'.pcs| && s'.pcs[s'.popOwner[k]].HoldsPop(k)
    {
      if k < s.tail { assert s.pcs[s.popOwner[k]].HoldsPop(k); }
    }
    forall k: nat | Current(s', k) ensures s'.cells[Slot(k, s.capacity)] == Expected(s', k) {
      assert Current(s, k);
    }
  }

  lemma PreserveConstruct<T>(s: State<T>, t: Tid)
    requires Inv(s) && t < |s.pcs| && s.pcs[t].Constructing?
    ensures Inv(StepThread(s, t))
  {
    var s' := StepThread(s, t);
    TicketUnique(s.capacity);
    assert ThreadOk(s, t);
    forall u: Tid | u < |s.pcs| ensures ThreadOk(s', u) {
      if u != t { ThreadFrame(s, s', u); }
    }
    forall k: nat | Current(s', k) ensures s'.cells[Slot(k, s.capacity)] == Expected(s', k) {
      assert Current(s, k);
    }
  }

  /** A thread about to move finds the live value of its own ticket. */
  lemma MovingFindsValue<T>(s: State<T>, t: Tid)
    requires Inv(s) && t < |s.pcs| && s.pcs[t].Moving?
    ensures s.pcs[t].k < s.head && s.cells[Slot(s.pcs[t].k, s.capacity)] == Live(s.vals[s.pcs[t].k])
  {
    assert ThreadOk(s, t) && Current(s, s.pcs[t].k);
  }

  lemma PreserveMove<T>(s: State<T>, t: Tid)
    requires Inv(s) && t < |s.pcs| && s.pcs[t].Moving?
    ensures Inv(StepThread(s, t))
  {
    var s' := StepThread(s, t);
    MovingFindsValue(s, t);
    assert ThreadOk(s, t);
    TicketUnique(s.capacity);
    forall u: Tid | u < |s.pcs| ensures ThreadOk(s', u) {
      if u != t { ThreadFrame(s, s', u); }
    }
    forall k: nat | Current(s', k) ensures s'.cells[Slot(k, s.capacity)] == Expected(s', k) {
      assert Current(s, k);
    }
  }

  lemma PreserveDestroy<T>(s: State<T>, t: Tid)
    requires Inv(s) && t < |s.pcs| && s.pcs[t].Destroying?
    ensures Inv(StepThread(s, t))
  {
    var s' := StepThread(s, t);
    assert ThreadOk(s, t) && Current(s, s.pcs[t].k);
    TicketUnique(s.capacity);
    forall u: Tid | u < |s.pcs| ensures ThreadOk(s', u) {
      if u != t { ThreadFrame(s, s', u); }
    }
    forall k: nat | Current(s', k) ensures s'.cells[Slot(k, s.capacity)] == Expected(s', k) {
      assert Current(s, k);
    }
  }

  /** At most one thread is between winning a slot and handing it on. */
  lemma CriticalSlotExclusive<T>(s: State<T>, t: Tid, u: Tid)
    requires Inv(s) && t < |s.pcs| && u < |s.pcs|
    requires exists k: nat, j: nat ::
               s.pcs[t].Critical(k) && s.pcs[u].Critical(j) && Slot(k, s.capacity) == Slot(j, s.capacity)
    ensures t == u
  {
    TicketUnique(s.capacity);
    assert ThreadOk(s, t) && ThreadOk(s, u);
  }

  /** Storing the next turn of a slot moves the line between unfinished and finished tickets past
      exactly one ticket. */
  lemma StoreTurnTells<T>(s: State<T>, s': State<T>, k: nat, released: bool)
    requires WellFormed(s) && WellFormed(s') && s'.capacity == s.capacity && TurnsTell(s)
    requires s.turns[Slot(k, s.capacity)] == PushTurn(k, s.capacity) + (if released then 1 else 0)
    requires s'.turns == s.turns[Slot(k, s.capacity) := s.turns[Slot(k, s.capacity)] + 1]
    requires s'.published == if released then s.published else s.published + {k}
    requires s'.released == if released then s.released + {k} else s.released
    ensures TurnsTell(s')
  {
    TicketUnique(s.capacity);
  }

  lemma PreservePublish<T>(s: State<T>, t: Tid)
    requires Inv(s) && t < |s.pcs| && s.pcs[t].Publishing?
    ensures Inv(StepThread(s, t))
  {
    var s' := StepThread(s, t);
    var k := s.pcs[t].k;
    assert ThreadOk(s, t) && s.pcs[t].Critical(k);
    assert Current(s, k);
    StoreTurnTells(s, s', k, false);
    forall u: Tid | u < |s.pcs| ensures ThreadOk(s', u) {
      if u != t { StoreTurnFrame(s, s', t, u, k); }
    }
    forall x: nat | Current(s', x) ensures s'.cells[Slot(x, s.capacity)] == Expected(s', x) {
      TicketUnique(s.capacity);
      if Slot(x, s.capacity) == Slot(k, s.capacity) {
        assert x == k;
        forall u: Tid | u < |s.pcs| ensures !(s.pcs[u].Critical(k) && s.pcs[u].HoldsPop(k)) {
          assert ThreadOk(s, u);
        }
      } else {
        assert Current(s, x);
      }
    }
  }

  lemma StoreTurnFrame<T>(s: State<T>, s': State<T>, t: Tid, u: Tid, k: nat)
    requires Inv(s) && WellFormed(s') && s'.capacity == s.capacity
    requires t < |s.pcs| == |s'.pcs| && u < |s.pcs| && u != t && s'.pcs[u] == s.pcs[u]
    requires s.pcs[t].Critical(k) && !s'.pcs[t].Critical(k)
    requires s.vals == s'.vals && s.pushOwner == s'.pushOwner && s.popOwner == s'.popOwner
    requires s'.turns == s.turns[Slot(k, s.capacity) := s.turns[Slot(k, s.capacity)] + 1]
    requires s'.published <= s.published + if s.pcs[t].Publishing? then {k} else {}
    requires s'.released <= s.released + if s.pcs[t].Releasing? then {k} else {}
    ensures ThreadOk(s', u)
  {
    assert ThreadOk(s, t) && ThreadOk(s, u);
    forall j: nat | s.pcs[u].Critical(j) ensures s'.turns[Slot(j, s.capacity)] == s.turns[Slot(j, s.capacity)] {
      if Slot(j, s.capacity) == Slot(k, s.capacity) {
        CriticalSlotExclusive(s, t, u);
      }
    }
    ThreadFrame(s, s', u);
  }

  lemma PreserveRelease<T>(s: State<T>, t: Tid)
    requires Inv(s) && t < |s.pcs| && s.pcs[t].Releasing?
    ensures Inv(StepThread(s, t))
  {
    var s' := StepThread(s, t);
    var k := s.pcs[t].k;
    assert ThreadOk(s, t) && s.pcs[t].Critical(k);
    assert Current(s, k);
    StoreTurnTells(s, s', k, true);
    forall u: Tid | u < |s.pcs| ensures ThreadOk(s', u) {
      if u != t { StoreTurnFrame(s, s', t, u, k); }
    }
    forall x: nat | Current(s', x) ensures s'.cells[Slot(x, s.capacity)] == Expected(s', x) {
      if Slot(x, s.capacity) == Slot(k, s.capacity) {
        ReleasedSlotIsRaw(s, s', t, x);
      } else {
        assert Current(s, x);
      }
    }
  }

  /** The next ticket of a slot that is being released has not been constructed yet. */
  lemma ReleasedSlotIsRaw<T>(s: State<T>, s': State<T>, t: Tid, x: nat)
    requires Inv(s) && t < |s.pcs| && s.pcs[t].Releasing? && s' == StepThread(s, t)
    requires TurnsTell(s') && Current(s', x) && Slot(x, s.capacity) == Slot(s.pcs[t].k, s.capacity)
    ensures s'.cells[Slot(x, s.capacity)] == Expected(s', x)
  {
    var k := s.pcs[t].k;
    assert ThreadOk(s, t) && Current(s, k);
    assert x !in s'.published;
    forall u: Tid | u < |s.pcs| ensures s.pcs[u] != Publishing(x) {
      assert ThreadOk(s, u);
    }
  }

  ghost predicate InPush<T>(pc: Pc<T>) {
    pc.EmplaceCalled? || pc.EmplaceSpin? || pc.TryEmplaceCalled? || pc.TryEmplaceLoad? || pc.TryEmplaceCas?
    || pc.TryEmplaceReload? || pc.Constructing? || pc.Publishing?
  }

  ghost predicate InPop<T>(pc: Pc<T>) {
    pc.PopCalled? || pc.PopSpin? || pc.TryPopCalled? || pc.TryPopLoad? || pc.TryPopCas?
    || pc.TryPopReload? || pc.Moving? || pc.Destroying? || pc.Releasing?
  }

  lemma PreservePushStep<T>(s: State<T>, t: Tid)
    requires Inv(s) && t < |s.pcs| && InPush(s.pcs[t])
    ensures Inv(StepThread(s, t))
  {
    var c := s.capacity;
    assert ThreadOk(s, t);
    match s.pcs[t]
    case EmplaceCalled(v) => PreserveClaimPush(s, t, v, EmplaceSpin(v, s.head));
    case EmplaceSpin(v, k) =>
      if TurnIs(s, k, PushTurn(k, c)) { PreserveGoto(s, t, Constructing(v, k)); }
    case TryEmplaceCalled(v) => PreserveGoto(s, t, TryEmplaceLoad(v, s.head));
    case TryEmplaceLoad(v, k) =>
      PreserveGoto(s, t, if TurnIs(s, k, PushTurn(k, c)) then TryEmplaceCas(v, k) else TryEmplaceReload(v, k));
    case TryEmplaceCas(v, k) =>
      if s.head == k {
        PreserveClaimPush(s, t, v, Constructing(v, k));
      } else {
        PreserveGoto(s, t, TryEmplaceLoad(v, s.head));
      }
    case TryEmplaceReload(v, k) =>
      if s.head == k {
        PreserveGoto(s, t, Idle);
        PreserveReport(Goto(s, t, Idle), s.reports + [PushRefused(t, k)]);
      } else {
        PreserveGoto(s, t, TryEmplaceLoad(v, s.head));
      }
    case Constructing(v, k) => PreserveConstruct(s, t);
    case Publishing(k) => PreservePublish(s, t);
  }

  lemma PreservePopStep<T>(s: State<T>, t: Tid)
    requires Inv(s) && t < |s.pcs| && InPop(s.pcs[t])
    ensures Inv(StepThread(s, t))
  {
    var c := s.capacity;
    assert ThreadOk(s, t);
    match s.pcs[t]
    case PopCalled => PreserveClaimPop(s, t, PopSpin(s.tail));
    case PopSpin(k) =>
      if TurnIs(s, k, PopTurn(k, c)) { PreserveGoto(s, t, Moving(k)); }
    case TryPopCalled => PreserveGoto(s, t, TryPopLoad(s.tail));
    case TryPopLoad(k) =>
      PreserveGoto(s, t, if TurnIs(s, k, PopTurn(k, c)) then TryPopCas(k) else TryPopReload(k));
    case TryPopCas(k) =>
      if s.tail == k {
        PreserveClaimPop(s, t, Moving(k));
      } else {
        PreserveGoto(s, t, TryPopLoad(s.tail));
      }
    case TryPopReload(k) =>
      if s.tail == k {
        PreserveGoto(s, t, Idle);
        PreserveReport(Goto(s, t, Idle), s.reports + [PopRefused(t, k)]);
      } else {
        PreserveGoto(s, t, TryPopLoad(s.tail));
      }
    case Moving(k) => PreserveMove(s, t);
    case Destroying(k, v) => PreserveDestroy(s, t);
    case Releasing(k, v) => PreserveRelease(s, t);
  }

  /** Every step of every thread keeps the invariant. */
  lemma PreserveStep<T>(s: State<T>, t: Tid)
    requires Inv(s) && t < |s.pcs|
    ensures Inv(StepThread(s, t))
  {
    if InPush(s.pcs[t]) {
      PreservePushStep(s, t);
    } else if InPop(s.pcs[t]) {
      PreservePopStep(s, t);
    }
  }

  lemma PreserveNext<T>(s: State<T>, a: Action<T>)
    requires Inv(s)
    ensures Inv(Next(s, a))
  {
    if a.t < |s.pcs| {
      if a.Step? {
        PreserveStep(s, a.t);
      } else if s.pcs[a.t].Idle? {
        PreserveGoto(s, a.t, BeginOp(a.op));
      }
    }
  }

  /** The invariant holds in every reachable state. */
  lemma {:induction false} ExecInv<T>(s: State<T>, acts: seq<Action<T>>)
    requires Inv(s)
    ensures Inv(Exec(s, acts))
    decreases |acts|
  {
    if acts != [] {
      ExecInv(s, acts[..|acts| - 1]);
      PreserveNext(Exec(s, acts[..|acts| - 1]), acts[|acts| - 1]);
    }
  }
}
