/** The operations of the queue as straight-line code and loops (lib/MPMCQueue/MPMCQueue.hpp), with other
    threads acting between any two of their atomic actions: what a call does is a schedule of the
    transition system, in program order. */
module MpmcCalls {
  import opened Sequences
  import opened MpmcModel
  import opened MpmcInvariant
  import MpmcTheorems
  import opened MpmcQueue

  // ---------------------------------------------------------------- what the others do

  /** What the other threads do after the n-th action of a call. */
  function Meantime<T>(others: seq<seq<Action<T>>>, n: nat): seq<Action<T>> {
    if n < |others| then others[n] else []
  }

  function Firsts<T>(others: seq<seq<Action<T>>>, n: nat): seq<seq<Action<T>>> {
    if n < |others| then others[..n] else others
  }

  ghost predicate NotOf<T>(acts: seq<Action<T>>, t: Tid) {
    forall i :: 0 <= i < |acts| ==> acts[i].t != t
  }

  ghost predicate AllNotOf<T>(others: seq<seq<Action<T>>>, t: Tid) {
    forall i :: 0 <= i < |others| ==> NotOf(others[i], t)
  }

  /** The actions of a schedule that are not the thread's own. */
  function Theirs<T>(acts: seq<Action<T>>, t: Tid): seq<Action<T>> {
    if acts == [] then []
    else Theirs(acts[..|acts| - 1], t) + if acts[|acts| - 1].t != t then [acts[|acts| - 1]] else []
  }

  lemma TheirsNext<T>(a: seq<Action<T>>, act: Action<T>, t: Tid)
    ensures Theirs(a + [act], t) == Theirs(a, t) + if act.t != t then [act] else []
  {
    assert (a + [act])[..|a|] == a;
  }

  lemma {:induction false} TheirsAfter<T>(a: seq<Action<T>>, b: seq<Action<T>>, t: Tid)
    requires NotOf(b, t)
    ensures Theirs(a + b, t) == Theirs(a, t) + b
    decreases |b|
  {
    if b == [] {
      assert a + b == a;
    } else {
      var init, last := b[..|b| - 1], b[|b| - 1];
      TheirsAfter(a, init, t);
      TheirsNext(a + init, last, t);
      assert b == init + [last];
      ConcatAssoc(a, init, [last]);
      ConcatAssoc(Theirs(a, t), init, [last]);
    }
  }

  lemma FirstsNext<T>(others: seq<seq<Action<T>>>, n: nat)
    ensures Flatten(Firsts(others, n + 1)) == Flatten(Firsts(others, n)) + Meantime(others, n)
  {
    if n < |others| {
      FlattenAppend(others[..n], others[n]);
      assert others[..n + 1] == others[..n] + [others[n]];
      assert n + 1 == |others| ==> others[..n + 1] == others;
    }
  }

  lemma {:induction false} OthersKeepPc<T>(s: State<T>, acts: seq<Action<T>>, t: Tid)
    requires WellFormed(s) && t < |s.pcs| && NotOf(acts, t)
    ensures Exec(s, acts).pcs[t] == s.pcs[t]
    decreases |acts|
  {
    if acts != [] {
      OthersKeepPc(s, acts[..|acts| - 1], t);
    }
  }

  // ---------------------------------------------------------------- a call in progress

  /** From s0, thread t began this call and took steps of its own, and the others did what is listed. */
  ghost predicate During<T>(s0: State<T>, s: State<T>, t: Tid, op: Op<T>, schedule: seq<Action<T>>,
                            others: seq<seq<Action<T>>>, n: nat)
  {
    && Inv(s0) && t < |s0.pcs| && s == Exec(s0, schedule)
    && schedule != [] && schedule[0] == Call(t, op)
    && (forall i :: 0 < i < |schedule| && schedule[i].t == t ==> schedule[i].Step?)
    && Theirs(schedule, t) == Flatten(Firsts(others, n))
  }

  lemma Begins<T>(s0: State<T>, t: Tid, op: Op<T>, others: seq<seq<Action<T>>>)
    requires Inv(s0) && t < |s0.pcs|
    ensures During(s0, Next(s0, Call(t, op)), t, op, [Call(t, op)], others, 0)
  {
    var call: seq<Action<T>> := [Call(t, op)];
    assert call[..0] == [];
    assert Firsts(others, 0) == [];
  }

  lemma OwnStep<T>(s0: State<T>, s: State<T>, t: Tid, op: Op<T>, schedule: seq<Action<T>>,
                   others: seq<seq<Action<T>>>, n: nat)
    requires During(s0, s, t, op, schedule, others, n)
    ensures During(s0, StepThread(s, t), t, op, schedule + [Step(t)], others, n)
  {
    var one: Action<T> := Step(t);
    assert (schedule + [one])[..|schedule|] == schedule;
    TheirsNext(schedule, one, t);
  }

  lemma TheirTurn<T>(s0: State<T>, s: State<T>, t: Tid, op: Op<T>, schedule: seq<Action<T>>,
                     others: seq<seq<Action<T>>>, n: nat)
    requires During(s0, s, t, op, schedule, others, n) && AllNotOf(others, t)
    ensures WellFormed(s) && t < |s.pcs|
    ensures During(s0, Exec(s, Meantime(others, n)), t, op, schedule + Meantime(others, n), others, n + 1)
    ensures Exec(s, Meantime(others, n)).pcs[t] == s.pcs[t]
  {
    var acts := Meantime(others, n);
    MpmcTheorems.ExecConcat(s0, schedule, acts);
    TheirsAfter(schedule, acts, t);
    FirstsNext(others, n);
    OthersKeepPc(s, acts, t);
    forall i | |schedule| <= i < |schedule + acts| ensures (schedule + acts)[i].t != t {
      assert (schedule + acts)[i] == acts[i - |schedule|];
    }
  }

  lemma MoveFindsValue<T>(s0: State<T>, s: State<T>, t: Tid, op: Op<T>, schedule: seq<Action<T>>,
                          others: seq<seq<Action<T>>>, n: nat)
    requires During(s0, s, t, op, schedule, others, n) && WellFormed(s) && t < |s.pcs| && s.pcs[t].Moving?
    ensures s.pcs[t].k < s.head && s.cells[Slot(s.pcs[t].k, s.capacity)] == Live(s.vals[s.pcs[t].k])
  {
    ExecInv(s0, schedule);
    MovingFindsValue(s, t);
  }

  /** Between claim and report the value at hand is the one of the ticket. */
  ghost predicate HoldsValue<T>(s: State<T>, t: Tid)
    requires t < |s.pcs|
  {
    var pc := s.pcs[t];
    pc.Constructing? || pc.Releasing? ==> pc.k < |s.vals| && s.vals[pc.k] == pc.v
  }

  lemma InvHoldsValue<T>(s: State<T>, t: Tid)
    requires Inv(s) && t < |s.pcs|
    ensures HoldsValue(s, t)
  {
    assert ThreadOk(s, t);
  }

  lemma ValuesStay<T>(s0: State<T>, s: State<T>, t: Tid, op: Op<T>, schedule: seq<Action<T>>,
                      others: seq<seq<Action<T>>>, n: nat)
    requires During(s0, s, t, op, schedule, others, n) && WellFormed(s) && t < |s.pcs|
    ensures s.vals <= Exec(s, Meantime(others, n)).vals && HoldsValue(Exec(s, Meantime(others, n)), t)
  {
    ExecInv(s0, schedule);
    MpmcTheorems.ExecLater(s, Meantime(others, n));
    ExecInv(s, Meantime(others, n));
    InvHoldsValue(Exec(s, Meantime(others, n)), t);
  }

  /** What the call that returned last reported. */
  ghost function LastReport<T>(q: Queue<T>): Option<Report<T>>
    reads q
  {
    if q.reports == [] then None else Some(q.reports[|q.reports| - 1])
  }

  predicate PushRefusal<T>(r: Report<T>, t: Tid) {
    r.PushRefused? && r.t == t
  }

  predicate PopRefusal<T>(r: Report<T>, t: Tid) {
    r.PopRefused? && r.t == t
  }

  method Start<T>(q: Queue<T>, t: Tid, op: Op<T>, ghost others: seq<seq<Action<T>>>)
    requires q.Valid() && Inv(q.Abstract()) && t < q.pcs.Length && q.pcs[t].Idle?
    modifies q.pcs
    ensures q.Valid() && During(old(q.Abstract()), q.Abstract(), t, op, [Call(t, op)], others, 0)
    ensures q.pcs[t] == BeginOp(op)
  {
    Begins(q.Abstract(), t, op, others);
    q.Begin(t, op);
  }

  /** The others take their turn; the call stays where it is, ready for its next action. */
  method Yield<T>(q: Queue<T>, t: Tid, others: seq<seq<Action<T>>>, n: nat,
                  ghost s0: State<T>, ghost op: Op<T>, ghost schedule: seq<Action<T>>)
    requires q.Valid() && During(s0, q.Abstract(), t, op, schedule, others, n) && AllNotOf(others, t)
    modifies q, q.turn, q.storage, q.pcs
    ensures q.Valid() && t < q.pcs.Length && q.pcs[t] == old(q.Abstract()).pcs[t]
    ensures During(s0, StepThread(q.Abstract(), t), t, op, schedule + Meantime(others, n) + [Step(t)], others, n + 1)
    ensures q.pcs[t].Moving? ==> q.Abstract().cells[Slot(q.pcs[t].k, q.capacity)].Live?
    ensures old(q.vals) <= q.vals && HoldsValue(q.Abstract(), t)
  {
    TheirTurn(s0, q.Abstract(), t, op, schedule, others, n);
    ValuesStay(s0, q.Abstract(), t, op, schedule, others, n);
    q.Interleave(Meantime(others, n));
    OwnStep(s0, q.Abstract(), t, op, schedule + Meantime(others, n), others, n + 1);
    if q.pcs[t].Moving? {
      MoveFindsValue(s0, q.Abstract(), t, op, schedule + Meantime(others, n), others, n + 1);
    }
  }

  // ---------------------------------------------------------------- the shared ends

  /** construct and the turn store, from the moment the slot was seen free. */
  method FinishPush<T>(q: Queue<T>, t: Tid, others: seq<seq<Action<T>>>, n0: nat,
                       ghost s0: State<T>, ghost op: Op<T>, ghost schedule0: seq<Action<T>>)
    returns (ghost schedule: seq<Action<T>>, n: nat)
    requires q.Valid() && During(s0, q.Abstract(), t, op, schedule0, others, n0) && AllNotOf(others, t)
    requires t < q.pcs.Length && q.pcs[t].Constructing?
    modifies q, q.turn, q.storage, q.pcs
    ensures q.Valid() && During(s0, q.Abstract(), t, op, schedule, others, n)
    ensures q.pcs[t].Idle? && LastReport(q) == Some(Pushed(t, old(q.pcs[t]).k))
    ensures old(q.pcs[t]).k < |q.vals| && q.vals[old(q.pcs[t]).k] == old(q.pcs[t]).v
  {
    schedule, n := schedule0, n0;
    Yield(q, t, others, n, s0, op, schedule);
    q.Construct(t);
    schedule, n := schedule + Meantime(others, n) + [Step(t)], n + 1;
    Yield(q, t, others, n, s0, op, schedule);
    q.Publish(t);
    schedule, n := schedule + Meantime(others, n) + [Step(t)], n + 1;
  }

  /** move and destroy. */
  method TakeValue<T>(q: Queue<T>, t: Tid, others: seq<seq<Action<T>>>, n0: nat,
                      ghost s0: State<T>, ghost op: Op<T>, ghost schedule0: seq<Action<T>>)
    returns (ghost schedule: seq<Action<T>>, n: nat)
    requires q.Valid() && During(s0, q.Abstract(), t, op, schedule0, others, n0) && AllNotOf(others, t)
    requires t < q.pcs.Length && q.pcs[t].Moving?
    modifies q, q.turn, q.storage, q.pcs
    ensures q.Valid() && During(s0, q.Abstract(), t, op, schedule, others, n)
    ensures q.pcs[t].Releasing? && q.pcs[t].k == old(q.pcs[t]).k
  {
    schedule, n := schedule0, n0;
    Yield(q, t, others, n, s0, op, schedule);
    q.MoveOut(t);
    schedule, n := schedule + Meantime(others, n) + [Step(t)], n + 1;
    Yield(q, t, others, n, s0, op, schedule);
    q.Destroy(t);
    schedule, n := schedule + Meantime(others, n) + [Step(t)], n + 1;
  }

  /** move, destroy and the turn store, from the moment the slot was seen full: the value taken is the one
      that was pushed under the ticket. */
  method FinishPop<T>(q: Queue<T>, t: Tid, others: seq<seq<Action<T>>>, n0: nat,
                      ghost s0: State<T>, ghost op: Op<T>, ghost schedule0: seq<Action<T>>)
    returns (v: T, ghost schedule: seq<Action<T>>, n: nat)
    requires q.Valid() && During(s0, q.Abstract(), t, op, schedule0, others, n0) && AllNotOf(others, t)
    requires t < q.pcs.Length && q.pcs[t].Moving?
    modifies q, q.turn, q.storage, q.pcs
    ensures q.Valid() && During(s0, q.Abstract(), t, op, schedule, others, n)
    ensures q.pcs[t].Idle? && LastReport(q) == Some(Popped(t, old(q.pcs[t]).k, v))
    ensures old(q.pcs[t]).k < |q.vals| && q.vals[old(q.pcs[t]).k] == v
  {
    schedule, n := TakeValue(q, t, others, n0, s0, op, schedule0);
    Yield(q, t, others, n, s0, op, schedule);
    v := q.Release(t);
    schedule, n := schedule + Meantime(others, n) + [Step(t)], n + 1;
  }

  // ---------------------------------------------------------------- emplace and pop

  /** The spin loop of emplace. */
  method SpinPush<T>(q: Queue<T>, t: Tid, others: seq<seq<Action<T>>>, n0: nat,
                       ghost s0: State<T>, ghost op: Op<T>, ghost schedule0: seq<Action<T>>)
    returns (done: bool, ghost schedule: seq<Action<T>>, n: nat)
    requires q.Valid() && During(s0, q.Abstract(), t, op, schedule0, others, n0) && AllNotOf(others, t)
    requires t < q.pcs.Length && q.pcs[t].EmplaceSpin?
    modifies q, q.turn, q.storage, q.pcs
    ensures q.Valid() && During(s0, q.Abstract(), t, op, schedule, others, n)
    ensures if done then q.pcs[t] == Constructing(old(q.pcs[t]).v, old(q.pcs[t]).k)
            else q.pcs[t] == old(q.pcs[t]) && n >= |others|
  {
    schedule, n := schedule0, n0;
    done := false;
    var first := true;
    while !done && (first || n < |others|)
      invariant q.Valid() && During(s0, q.Abstract(), t, op, schedule, others, n)
      invariant q.pcs[t] == if done then Constructing(old(q.pcs[t]).v, old(q.pcs[t]).k) else old(q.pcs[t])
      decreases first, |others| - n
    {
      first := false;
      Yield(q, t, others, n, s0, op, schedule);
      done := q.AwaitPush(t);
      schedule, n := schedule + Meantime(others, n) + [Step(t)], n + 1;
    }
  }

  /** The spin loop of pop. */
  method SpinPop<T>(q: Queue<T>, t: Tid, others: seq<seq<Action<T>>>, n0: nat,
                       ghost s0: State<T>, ghost op: Op<T>, ghost schedule0: seq<Action<T>>)
    returns (done: bool, ghost schedule: seq<Action<T>>, n: nat)
    requires q.Valid() && During(s0, q.Abstract(), t, op, schedule0, others, n0) && AllNotOf(others, t)
    requires t < q.pcs.Length && q.pcs[t].PopSpin?
    modifies q, q.turn, q.storage, q.pcs
    ensures q.Valid() && During(s0, q.Abstract(), t, op, schedule, others, n)
    ensures if done then q.pcs[t] == Moving(old(q.pcs[t]).k) else q.pcs[t] == old(q.pcs[t]) && n >= |others|
  {
    schedule, n := schedule0, n0;
    done := false;
    var first := true;
    while !done && (first || n < |others|)
      invariant q.Valid() && During(s0, q.Abstract(), t, op, schedule, others, n)
      invariant q.pcs[t] == if done then Moving(old(q.pcs[t]).k) else old(q.pcs[t])
      decreases first, |others| - n
    {
      first := false;
      Yield(q, t, others, n, s0, op, schedule);
      done := q.AwaitPop(t);
      schedule, n := schedule + Meantime(others, n) + [Step(t)], n + 1;
    }
  }

  /** emplace. `done` is false if the others, as far as listed, never freed the slot: the call still spins. */
  method Emplace<T>(q: Queue<T>, t: Tid, v: T, others: seq<seq<Action<T>>>)
    returns (k: nat, done: bool, ghost schedule: seq<Action<T>>, n: nat)
    requires q.Valid() && Inv(q.Abstract()) && t < q.pcs.Length && q.pcs[t].Idle? && AllNotOf(others, t)
    modifies q, q.turn, q.storage, q.pcs
    ensures q.Valid() && During(old(q.Abstract()), q.Abstract(), t, Op.Emplace(v), schedule, others, n)
    ensures !done ==> q.pcs[t] == EmplaceSpin(v, k) && n >= |others|
    ensures done ==> q.pcs[t].Idle? && LastReport(q) == Some(Pushed(t, k)) && k < |q.vals| && q.vals[k] == v
  {
    ghost var s0, op := q.Abstract(), Op.Emplace(v);
    Start(q, t, Op.Emplace(v), others);
    schedule, n := [Call(t, op)], 0;
    Yield(q, t, others, n, s0, op, schedule);
    k := q.ClaimPush(t);
    schedule, n := schedule + Meantime(others, n) + [Step(t)], n + 1;
    done, schedule, n := SpinPush(q, t, others, n, s0, op, schedule);
    if done {
      schedule, n := FinishPush(q, t, others, n, s0, op, schedule);
    }
  }

  /** pop. `done` is false if the others, as far as listed, never filled the slot. */
  method Pop<T>(q: Queue<T>, t: Tid, others: seq<seq<Action<T>>>)
    returns (k: nat, v: Option<T>, done: bool, ghost schedule: seq<Action<T>>, n: nat)
    requires q.Valid() && Inv(q.Abstract()) && t < q.pcs.Length && q.pcs[t].Idle? && AllNotOf(others, t)
    modifies q, q.turn, q.storage, q.pcs
    ensures q.Valid() && During(old(q.Abstract()), q.Abstract(), t, Op.Pop, schedule, others, n)
    ensures !done ==> q.pcs[t] == PopSpin(k) && n >= |others|
    ensures done ==> q.pcs[t].Idle? && v.Some? && LastReport(q) == Some(Popped(t, k, v.value))
                     && k < |q.vals| && q.vals[k] == v.value
  {
    v := None;
    ghost var s0, op := q.Abstract(), Op.Pop;
    Start(q, t, Op.Pop, others);
    schedule, n := [Call(t, op)], 0;
    Yield(q, t, others, n, s0, op, schedule);
    k := q.ClaimPop(t);
    schedule, n := schedule + Meantime(others, n) + [Step(t)], n + 1;
    done, schedule, n := SpinPop(q, t, others, n, s0, op, schedule);
    if done {
      var value;
      value, schedule, n := FinishPop(q, t, others, n, s0, op, schedule);
      v := Some(value);
    }
  }

  // ---------------------------------------------------------------- try_emplace and try_pop

  /** Unfinished: the attempt has to be made again. */
  datatype Attempt = Succeeded | Refused | Unfinished

  /** One round of the loop of try_emplace, up to the claim. */
  method AttemptPush<T>(q: Queue<T>, t: Tid, others: seq<seq<Action<T>>>, n0: nat,
                       ghost s0: State<T>, ghost op: Op<T>, ghost schedule0: seq<Action<T>>)
    returns (r: Attempt, ghost schedule: seq<Action<T>>, n: nat)
    requires q.Valid() && During(s0, q.Abstract(), t, op, schedule0, others, n0) && AllNotOf(others, t)
    requires t < q.pcs.Length && q.pcs[t].TryEmplaceLoad?
    modifies q, q.turn, q.storage, q.pcs
    ensures q.Valid() && During(s0, q.Abstract(), t, op, schedule, others, n)
    ensures n > n0
    ensures r.Unfinished? ==> q.pcs[t].TryEmplaceLoad? && q.pcs[t].v == old(q.pcs[t]).v
    ensures r.Succeeded? ==> q.pcs[t].Constructing? && q.pcs[t].v == old(q.pcs[t]).v
    ensures r.Refused? ==> q.pcs[t].Idle? && LastReport(q).Some? && PushRefusal(LastReport(q).value, t)
  {
    schedule, n := schedule0, n0;
    r := Unfinished;
    Yield(q, t, others, n, s0, op, schedule);
    var free := q.CheckPush(t);
    schedule, n := schedule + Meantime(others, n) + [Step(t)], n + 1;
    if free {
      Yield(q, t, others, n, s0, op, schedule);
      var ok := q.CasPush(t);
      schedule, n := schedule + Meantime(others, n) + [Step(t)], n + 1;
      if ok {
        r := Succeeded;
      }
    } else {
      Yield(q, t, others, n, s0, op, schedule);
      var same := q.ReloadHead(t);
      schedule, n := schedule + Meantime(others, n) + [Step(t)], n + 1;
      if same {
        r := Refused;
      }
    }
  }

  /** One round of the loop of try_pop, up to the claim. */
  method AttemptPop<T>(q: Queue<T>, t: Tid, others: seq<seq<Action<T>>>, n0: nat,
                       ghost s0: State<T>, ghost op: Op<T>, ghost schedule0: seq<Action<T>>)
    returns (r: Attempt, ghost schedule: seq<Action<T>>, n: nat)
    requires q.Valid() && During(s0, q.Abstract(), t, op, schedule0, others, n0) && AllNotOf(others, t)
    requires t < q.pcs.Length && q.pcs[t].TryPopLoad?
    modifies q, q.turn, q.storage, q.pcs
    ensures q.Valid() && During(s0, q.Abstract(), t, op, schedule, others, n)
    ensures n > n0
    ensures r.Unfinished? ==> q.pcs[t].TryPopLoad?
    ensures r.Succeeded? ==> q.pcs[t].Moving?
    ensures r.Refused? ==> q.pcs[t].Idle? && LastReport(q).Some? && PopRefusal(LastReport(q).value, t)
  {
    schedule, n := schedule0, n0;
    r := Unfinished;
    Yield(q, t, others, n, s0, op, schedule);
    var full := q.CheckPop(t);
    schedule, n := schedule + Meantime(others, n) + [Step(t)], n + 1;
    if full {
      Yield(q, t, others, n, s0, op, schedule);
      var ok := q.CasPop(t);
      schedule, n := schedule + Meantime(others, n) + [Step(t)], n + 1;
      if ok {
        r := Succeeded;
      }
    } else {
      Yield(q, t, others, n, s0, op, schedule);
      var same := q.ReloadTail(t);
      schedule, n := schedule + Meantime(others, n) + [Step(t)], n + 1;
      if same {
        r := Refused;
      }
    }
  }

  /** The loop of try_emplace. */
  method AttemptPushes<T>(q: Queue<T>, t: Tid, others: seq<seq<Action<T>>>, n0: nat,
                       ghost s0: State<T>, ghost op: Op<T>, ghost schedule0: seq<Action<T>>)
    returns (r: Attempt, ghost schedule: seq<Action<T>>, n: nat)
    requires q.Valid() && During(s0, q.Abstract(), t, op, schedule0, others, n0) && AllNotOf(others, t)
    requires t < q.pcs.Length && q.pcs[t].TryEmplaceLoad?
    modifies q, q.turn, q.storage, q.pcs
    ensures q.Valid() && During(s0, q.Abstract(), t, op, schedule, others, n)
    ensures r.Unfinished? ==> q.pcs[t].TryEmplaceLoad? && n >= |others|
    ensures r.Succeeded? ==> q.pcs[t].Constructing? && q.pcs[t].v == old(q.pcs[t]).v
    ensures r.Refused? ==> q.pcs[t].Idle? && LastReport(q).Some? && PushRefusal(LastReport(q).value, t)
  {
    r, schedule, n := AttemptPush(q, t, others, n0, s0, op, schedule0);
    while r.Unfinished? && n < |others|
      invariant q.Valid() && During(s0, q.Abstract(), t, op, schedule, others, n)
      invariant r.Unfinished? ==> q.pcs[t].TryEmplaceLoad? && q.pcs[t].v == old(q.pcs[t]).v
      invariant r.Succeeded? ==> q.pcs[t].Constructing? && q.pcs[t].v == old(q.pcs[t]).v
      invariant r.Refused? ==> q.pcs[t].Idle? && LastReport(q).Some? && PushRefusal(LastReport(q).value, t)
      decreases |others| - n
    {
      r, schedule, n := AttemptPush(q, t, others, n, s0, op, schedule);
    }
  }

  /** The loop of try_pop. */
  method AttemptPops<T>(q: Queue<T>, t: Tid, others: seq<seq<Action<T>>>, n0: nat,
                       ghost s0: State<T>, ghost op: Op<T>, ghost schedule0: seq<Action<T>>)
    returns (r: Attempt, ghost schedule: seq<Action<T>>, n: nat)
    requires q.Valid() && During(s0, q.Abstract(), t, op, schedule0, others, n0) && AllNotOf(others, t)
    requires t < q.pcs.Length && q.pcs[t].TryPopLoad?
    modifies q, q.turn, q.storage, q.pcs
    ensures q.Valid() && During(s0, q.Abstract(), t, op, schedule, others, n)
    ensures r.Unfinished? ==> q.pcs[t].TryPopLoad? && n >= |others|
    ensures r.Succeeded? ==> q.pcs[t].Moving?
    ensures r.Refused? ==> q.pcs[t].Idle? && LastReport(q).Some? && PopRefusal(LastReport(q).value, t)
  {
    r, schedule, n := AttemptPop(q, t, others, n0, s0, op, schedule0);
    while r.Unfinished? && n < |others|
      invariant q.Valid() && During(s0, q.Abstract(), t, op, schedule, others, n)
      invariant r.Unfinished? ==> q.pcs[t].TryPopLoad?
      invariant r.Succeeded? ==> q.pcs[t].Moving?
      invariant r.Refused? ==> q.pcs[t].Idle? && LastReport(q).Some? && PopRefusal(LastReport(q).value, t)
      decreases |others| - n
    {
      r, schedule, n := AttemptPop(q, t, others, n, s0, op, schedule);
    }
  }

  /** The load that try_emplace begins with. */
  method LoadHeadFirst<T>(q: Queue<T>, t: Tid, v: T, others: seq<seq<Action<T>>>)
    returns (ghost schedule: seq<Action<T>>, n: nat)
    requires q.Valid() && Inv(q.Abstract()) && t < q.pcs.Length && q.pcs[t].Idle? && AllNotOf(others, t)
    modifies q, q.turn, q.storage, q.pcs
    ensures q.Valid() && During(old(q.Abstract()), q.Abstract(), t, Op.TryEmplace(v), schedule, others, n)
    ensures q.pcs[t].TryEmplaceLoad? && q.pcs[t].v == v
  {
    ghost var s0, op := q.Abstract(), Op.TryEmplace(v);
    Start(q, t, Op.TryEmplace(v), others);
    schedule, n := [Call(t, op)], 0;
    Yield(q, t, others, n, s0, op, schedule);
    q.LoadHead(t);
    schedule, n := schedule + Meantime(others, n) + [Step(t)], n + 1;
  }

  /** The load that try_pop begins with. */
  method LoadTailFirst<T>(q: Queue<T>, t: Tid, others: seq<seq<Action<T>>>)
    returns (ghost schedule: seq<Action<T>>, n: nat)
    requires q.Valid() && Inv(q.Abstract()) && t < q.pcs.Length && q.pcs[t].Idle? && AllNotOf(others, t)
    modifies q, q.turn, q.storage, q.pcs
    ensures q.Valid() && During(old(q.Abstract()), q.Abstract(), t, Op.TryPop, schedule, others, n)
    ensures q.pcs[t].TryPopLoad?
  {
    ghost var s0, op := q.Abstract(), Op.TryPop;
    Start(q, t, Op.TryPop, others);
    schedule, n := [Call(t, op)], 0;
    Yield(q, t, others, n, s0, op, schedule);
    q.LoadTail(t);
    schedule, n := schedule + Meantime(others, n) + [Step(t)], n + 1;
  }

  /** try_emplace. Unfinished: the others, as far as listed, made every attempt fail. */
  method TryEmplace<T>(q: Queue<T>, t: Tid, v: T, others: seq<seq<Action<T>>>)
    returns (r: Attempt, ghost schedule: seq<Action<T>>, n: nat)
    requires q.Valid() && Inv(q.Abstract()) && t < q.pcs.Length && q.pcs[t].Idle? && AllNotOf(others, t)
    modifies q, q.turn, q.storage, q.pcs
    ensures q.Valid() && During(old(q.Abstract()), q.Abstract(), t, Op.TryEmplace(v), schedule, others, n)
    ensures r.Unfinished? ==> q.pcs[t].TryEmplaceLoad? && n >= |others|
    ensures !r.Unfinished? ==> q.pcs[t].Idle? && LastReport(q).Some? && LastReport(q).value.t == t
    ensures r.Succeeded? ==> LastReport(q).value.Pushed? && LastReport(q).value.k < |q.vals|
                             && q.vals[LastReport(q).value.k] == v
    ensures r.Refused? ==> LastReport(q).value.PushRefused?
  {
    ghost var s0, op := q.Abstract(), Op.TryEmplace(v);
    schedule, n := LoadHeadFirst(q, t, v, others);
    r, schedule, n := AttemptPushes(q, t, others, n, s0, op, schedule);
    if r.Succeeded? {
      schedule, n := FinishPush(q, t, others, n, s0, op, schedule);
    }
  }

  /** try_pop. Unfinished: the others, as far as listed, made every attempt fail. */
  method TryPop<T>(q: Queue<T>, t: Tid, others: seq<seq<Action<T>>>)
    returns (r: Attempt, v: Option<T>, ghost schedule: seq<Action<T>>, n: nat)
    requires q.Valid() && Inv(q.Abstract()) && t < q.pcs.Length && q.pcs[t].Idle? && AllNotOf(others, t)
    modifies q, q.turn, q.storage, q.pcs
    ensures q.Valid() && During(old(q.Abstract()), q.Abstract(), t, Op.TryPop, schedule, others, n)
    ensures r.Unfinished? ==> q.pcs[t].TryPopLoad? && n >= |others|
    ensures !r.Unfinished? ==> q.pcs[t].Idle? && LastReport(q).Some? && LastReport(q).value.t == t
    ensures r.Succeeded? ==> LastReport(q).value.Popped? && v == Some(LastReport(q).value.v)
                             && LastReport(q).value.k < |q.vals| && q.vals[LastReport(q).value.k] == LastReport(q).value.v
    ensures r.Refused? ==> LastReport(q).value.PopRefused?
  {
    v := None;
    ghost var s0, op := q.Abstract(), Op.TryPop;
    schedule, n := LoadTailFirst(q, t, others);
    r, schedule, n := AttemptPops(q, t, others, n, s0, op, schedule);
    if r.Succeeded? {
      var value;
      value, schedule, n := FinishPop(q, t, others, n, s0, op, schedule);
      v := Some(value);
    }
  }
}
