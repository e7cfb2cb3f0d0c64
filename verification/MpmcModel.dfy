/** The bounded multi-producer multi-consumer queue of lib/MPMCQueue/MPMCQueue.hpp as a
    transition system. Every atomic access, every construction, move and destruction of a
    stored value is a step of its own, and any number of threads interleave freely. */
module MpmcModel {

  type Tid = nat

  /** The storage of one slot: no object, a live object, or an object that was moved from. */
  datatype Cell<T> = Raw | Live(value: T) | Husk

  datatype Op<T> = Emplace(v: T) | TryEmplace(v: T) | Pop | TryPop

  /** Where a thread stands inside an operation. A ticket `k` is a value of head_ or tail_. */
  datatype Pc<T> =
    | Idle
      // emplace
    | EmplaceCalled(v: T)
    | EmplaceSpin(v: T, k: nat)
      // try_emplace
    | TryEmplaceCalled(v: T)
    | TryEmplaceLoad(v: T, k: nat)
    | TryEmplaceCas(v: T, k: nat)
    | TryEmplaceReload(v: T, k: nat)
      // shared end of both
    | Constructing(v: T, k: nat)
    | Publishing(k: nat)
      // pop
    | PopCalled
    | PopSpin(k: nat)
      // try_pop
    | TryPopCalled
    | TryPopLoad(k: nat)
    | TryPopCas(k: nat)
    | TryPopReload(k: nat)
      // shared end of both
    | Moving(k: nat)
    | Destroying(k: nat, v: T)
    | Releasing(k: nat, v: T)
  {
    /** The thread claimed push ticket `k` and has not published it. */
    predicate HoldsPush(k': nat) {
      (EmplaceSpin? || Constructing? || Publishing?) && k == k'
    }

    /** The thread claimed pop ticket `k` and has not released its slot. */
    predicate HoldsPop(k': nat) {
      (PopSpin? || Moving? || Destroying? || Releasing?) && k == k'
    }

    /** The thread may touch the storage of the slot of ticket `k`. */
    predicate Critical(k': nat) {
      (Constructing? || Publishing? || Moving? || Destroying? || Releasing?) && k == k'
    }
  }

  /** What a completed operation reported. */
  datatype Report<T> =
    | Pushed(t: Tid, k: nat)
    | PushRefused(t: Tid, k: nat)
    | Popped(t: Tid, k: nat, v: T)
    | PopRefused(t: Tid, k: nat)

  /** `turns` and `cells` are the slots, `pcs` the threads. The rest is history: the value and
      the owner of every claimed ticket, the tickets published and released, and all reports. */
  datatype State<T> = State(
    capacity: nat,
    head: nat,
    tail: nat,
    turns: seq<nat>,
    cells: seq<Cell<T>>,
    pcs: seq<Pc<T>>,
    vals: seq<T>,
    pushOwner: seq<Tid>,
    popOwner: seq<Tid>,
    published: set<nat>,
    released: set<nat>,
    reports: seq<Report<T>>
  )

  datatype Action<T> = Call(t: Tid, op: Op<T>) | Step(t: Tid)

  function Slot(k: nat, c: nat): (j: nat)
    requires c >= 1
    ensures j < c
  {
    k % c
  }

  function Round(k: nat, c: nat): nat
    requires c >= 1
  {
    k / c
  }

  predicate WellFormed<T>(s: State<T>) {
    && s.capacity >= 1
    && |s.turns| == |s.cells| == s.capacity
    && |s.vals| == |s.pushOwner| == s.head
    && |s.popOwner| == s.tail
  }

  function Init<T>(capacity: nat, threads: nat): (s: State<T>)
    requires capacity >= 1
    ensures WellFormed(s)
  {
    State(capacity, 0, 0, seq(capacity, _ => 0), seq(capacity, _ => Raw), seq(threads, _ => Idle),
          [], [], [], {}, {}, [])
  }

  function Goto<T>(s: State<T>, t: Tid, pc: Pc<T>): State<T>
    requires t < |s.pcs|
  {
    s.(pcs := s.pcs[t := pc])
  }

  /** head_.fetch_add(1), or a successful compare-exchange of head_. */
  function ClaimPush<T>(s: State<T>, t: Tid, v: T, pc: Pc<T>): State<T>
    requires t < |s.pcs|
  {
    Goto(s, t, pc).(head := s.head + 1, vals := s.vals + [v], pushOwner := s.pushOwner + [t])
  }

  /** tail_.fetch_add(1), or a successful compare-exchange of tail_. */
  function ClaimPop<T>(s: State<T>, t: Tid, pc: Pc<T>): State<T>
    requires t < |s.pcs|
  {
    Goto(s, t, pc).(tail := s.tail + 1, popOwner := s.popOwner + [t])
  }

  /** slot.turn.load() == wanted */
  predicate TurnIs<T>(s: State<T>, k: nat, wanted: nat)
    requires WellFormed(s)
  {
    s.turns[Slot(k, s.capacity)] == wanted
  }

  function PushTurn(k: nat, c: nat): nat
    requires c >= 1
  {
    Round(k, c) * 2
  }

  function PopTurn(k: nat, c: nat): nat
    requires c >= 1
  {
    Round(k, c) * 2 + 1
  }

  function BeginOp<T>(op: Op<T>): Pc<T> {
    match op
    case Emplace(v) => EmplaceCalled(v)
    case TryEmplace(v) => TryEmplaceCalled(v)
    case Pop => PopCalled
    case TryPop => TryPopCalled
  }

  /** One atomic step of thread `t`. */
  function StepThread<T>(s: State<T>, t: Tid): (s': State<T>)
    requires WellFormed(s) && t < |s.pcs|
    ensures WellFormed(s') && s'.capacity == s.capacity && |s'.pcs| == |s.pcs|
    ensures forall u: Tid :: u < |s.pcs| && u != t ==> s'.pcs[u] == s.pcs[u]
  {
    var c := s.capacity;
    match s.pcs[t]
    case Idle => s
    case EmplaceCalled(v) =>
      ClaimPush(s, t, v, EmplaceSpin(v, s.head))
    case EmplaceSpin(v, k) =>
      if TurnIs(s, k, PushTurn(k, c)) then Goto(s, t, Constructing(v, k)) else s
    case TryEmplaceCalled(v) =>
      Goto(s, t, TryEmplaceLoad(v, s.head))
    case TryEmplaceLoad(v, k) =>
      Goto(s, t, if TurnIs(s, k, PushTurn(k, c)) then TryEmplaceCas(v, k) else TryEmplaceReload(v, k))
    case TryEmplaceCas(v, k) =>
      if s.head == k
      then ClaimPush(s, t, v, Constructing(v, k))
      else Goto(s, t, TryEmplaceLoad(v, s.head))
    case TryEmplaceReload(v, k) =>
      if s.head == k
      then Goto(s, t, Idle).(reports := s.reports + [PushRefused(t, k)])
      else Goto(s, t, TryEmplaceLoad(v, s.head))
    case Constructing(v, k) =>
      Goto(s, t, Publishing(k)).(cells := s.cells[Slot(k, c) := Live(v)])
    case Publishing(k) =>
      Goto(s, t, Idle).(
        turns := s.turns[Slot(k, c) := PushTurn(k, c) + 1],
        published := s.published + {k},
        reports := s.reports + [Pushed(t, k)])
    case PopCalled =>
      ClaimPop(s, t, PopSpin(s.tail))
    case PopSpin(k) =>
      if TurnIs(s, k, PopTurn(k, c)) then Goto(s, t, Moving(k)) else s
    case TryPopCalled =>
      Goto(s, t, TryPopLoad(s.tail))
    case TryPopLoad(k) =>
      Goto(s, t, if TurnIs(s, k, PopTurn(k, c)) then TryPopCas(k) else TryPopReload(k))
    case TryPopCas(k) =>
      if s.tail == k
      then ClaimPop(s, t, Moving(k))
      else Goto(s, t, TryPopLoad(s.tail))
    case TryPopReload(k) =>
      if s.tail == k
      then Goto(s, t, Idle).(reports := s.reports + [PopRefused(t, k)])
      else Goto(s, t, TryPopLoad(s.tail))
    case Moving(k) =>
      // Moving out of storage that holds no live object would be undefined; the thread would be stuck.
      if s.cells[Slot(k, c)].Live?
      then Goto(s, t, Destroying(k, s.cells[Slot(k, c)].value)).(cells := s.cells[Slot(k, c) := Husk])
      else s
    case Destroying(k, v) =>
      Goto(s, t, Releasing(k, v)).(cells := s.cells[Slot(k, c) := Raw])
    case Releasing(k, v) =>
      Goto(s, t, Idle).(
        turns := s.turns[Slot(k, c) := PopTurn(k, c) + 1],
        released := s.released + {k},
        reports := s.reports + [Popped(t, k, v)])
  }

  /** A call is accepted only from a thread that is not inside another operation. */
  function Next<T>(s: State<T>, a: Action<T>): (s': State<T>)
    requires WellFormed(s)
    ensures WellFormed(s') && s'.capacity == s.capacity && |s'.pcs| == |s.pcs|
  {
    if a.t >= |s.pcs| then s
    else if a.Step? then StepThread(s, a.t)
    else if s.pcs[a.t].Idle? then Goto(s, a.t, BeginOp(a.op))
    else s
  }

  function Exec<T>(s: State<T>, acts: seq<Action<T>>): (s': State<T>)
    requires WellFormed(s)
    ensures WellFormed(s') && s'.capacity == s.capacity && |s'.pcs| == |s.pcs|
    decreases |acts|
  {
    if acts == [] then s
    else Next(Exec(s, acts[..|acts| - 1]), acts[|acts| - 1])
  }
}
