/** The queue in place: two counters and an array of slots shared by all threads, and the program
    counter of every thread. One call of `Step` is one atomic action of one thread. */
module MpmcQueue {
  import opened MpmcModel

  class Queue<T> {
    const capacity: nat
    const turn: array<nat>
    const storage: array<Cell<T>>
    const pcs: array<Pc<T>>
    var head: nat
    var tail: nat
    ghost var vals: seq<T>
    ghost var pushOwner: seq<Tid>
    ghost var popOwner: seq<Tid>
    ghost var published: set<nat>
    ghost var released: set<nat>
    ghost var reports: seq<Report<T>>

    ghost predicate Valid()
      reads this
    {
      && capacity >= 1
      && turn.Length == storage.Length == capacity
      && |vals| == |pushOwner| == head
      && |popOwner| == tail
    }

    ghost function Abstract(): (s: State<T>)
      reads this, turn, storage, pcs
      requires Valid()
      ensures WellFormed(s)
    {
      State(capacity, head, tail, turn[..], storage[..], pcs[..],
            vals, pushOwner, popOwner, published, released, reports)
    }

    constructor (capacity: nat, threads: nat)
      requires capacity >= 1
      ensures Valid() && fresh(turn) && fresh(storage) && fresh(pcs)
      ensures Abstract() == Init(capacity, threads)
    {
      this.capacity := capacity;
      turn := new nat[capacity](_ => 0);
      storage := new Cell<T>[capacity](_ => Raw);
      pcs := new Pc<T>[threads](_ => Idle);
      head, tail := 0, 0;
      vals, pushOwner, popOwner, published, released, reports := [], [], [], {}, {}, [];
    }

    /** head_.fetch_add(1) on behalf of a push of `v` by `t`. */
    method FetchAddHead(t: Tid, ghost v: T) returns (k: nat)
      requires Valid()
      modifies this`head, this`vals, this`pushOwner
      ensures Valid() && k == old(head) && head == old(head) + 1
      ensures vals == old(vals) + [v] && pushOwner == old(pushOwner) + [t]
    {
      k := head;
      head := head + 1;
      vals, pushOwner := vals + [v], pushOwner + [t];
    }

    /** head_.compare_exchange_strong(expected, expected + 1): on failure `seen` is the value found. */
    method CompareExchangeHead(expected: nat, t: Tid, ghost v: T) returns (ok: bool, seen: nat)
      requires Valid()
      modifies this`head, this`vals, this`pushOwner
      ensures Valid() && ok == (old(head) == expected) && seen == old(head)
      ensures ok ==> head == expected + 1 && vals == old(vals) + [v] && pushOwner == old(pushOwner) + [t]
      ensures !ok ==> head == old(head) && vals == old(vals) && pushOwner == old(pushOwner)
    {
      ok, seen := head == expected, head;
      if ok {
        head := expected + 1;
        vals, pushOwner := vals + [v], pushOwner + [t];
      }
    }

    method FetchAddTail(t: Tid) returns (k: nat)
      requires Valid()
      modifies this`tail, this`popOwner
      ensures Valid() && k == old(tail) && tail == old(tail) + 1 && popOwner == old(popOwner) + [t]
    {
      k := tail;
      tail := tail + 1;
      popOwner := popOwner + [t];
    }

    method CompareExchangeTail(expected: nat, t: Tid) returns (ok: bool, seen: nat)
      requires Valid()
      modifies this`tail, this`popOwner
      ensures Valid() && ok == (old(tail) == expected) && seen == old(tail)
      ensures ok ==> tail == expected + 1 && popOwner == old(popOwner) + [t]
      ensures !ok ==> tail == old(tail) && popOwner == old(popOwner)
    {
      ok, seen := tail == expected, tail;
      if ok {
        tail := expected + 1;
        popOwner := popOwner + [t];
      }
    }

    /** A thread that is not inside an operation begins one. */
    method Begin(t: Tid, op: Op<T>)
      requires Valid() && t < pcs.Length && pcs[t].Idle?
      modifies pcs
      ensures Valid() && Abstract() == Next(old(Abstract()), Call(t, op))
    {
      pcs[t] := BeginOp(op);
    }

    /** head_.fetch_add(1) of emplace. */
    method ClaimPush(t: Tid) returns (k: nat)
      requires Valid() && t < pcs.Length && pcs[t].EmplaceCalled?
      modifies this`head, this`vals, this`pushOwner, pcs
      ensures Valid() && Abstract() == StepThread(old(Abstract()), t)
      ensures pcs[t] == EmplaceSpin(old(pcs[t]).v, k)
    {
      var v := pcs[t].v;
      k := FetchAddHead(t, v);
      pcs[t] := EmplaceSpin(v, k);
    }

    /** One look at the turn in the spin loop of emplace. */
    method AwaitPush(t: Tid) returns (free: bool)
      requires Valid() && t < pcs.Length && pcs[t].EmplaceSpin?
      modifies pcs
      ensures Valid() && Abstract() == StepThread(old(Abstract()), t)
      ensures pcs[t] == if free then Constructing(old(pcs[t]).v, old(pcs[t]).k) else old(pcs[t])
    {
      var v, k := pcs[t].v, pcs[t].k;
      free := PushTurn(k, capacity) == turn[Slot(k, capacity)];
      if free {
        pcs[t] := Constructing(v, k);
      }
    }

    /** head_.load() at the start of try_emplace. */
    method LoadHead(t: Tid)
      requires Valid() && t < pcs.Length && pcs[t].TryEmplaceCalled?
      modifies pcs
      ensures Valid() && Abstract() == StepThread(old(Abstract()), t)
      ensures pcs[t].TryEmplaceLoad? && pcs[t].v == old(pcs[t]).v
    {
      pcs[t] := TryEmplaceLoad(pcs[t].v, head);
    }

    /** The turn load of try_emplace. */
    method CheckPush(t: Tid) returns (free: bool)
      requires Valid() && t < pcs.Length && pcs[t].TryEmplaceLoad?
      modifies pcs
      ensures Valid() && Abstract() == StepThread(old(Abstract()), t)
      ensures pcs[t] == if free then TryEmplaceCas(old(pcs[t]).v, old(pcs[t]).k)
                        else TryEmplaceReload(old(pcs[t]).v, old(pcs[t]).k)
    {
      var v, k := pcs[t].v, pcs[t].k;
      free := PushTurn(k, capacity) == turn[Slot(k, capacity)];
      pcs[t] := if free then TryEmplaceCas(v, k) else TryEmplaceReload(v, k);
    }

    /** The compare-exchange of try_emplace. */
    method CasPush(t: Tid) returns (ok: bool)
      requires Valid() && t < pcs.Length && pcs[t].TryEmplaceCas?
      modifies this`head, this`vals, this`pushOwner, pcs
      ensures Valid() && Abstract() == StepThread(old(Abstract()), t)
      ensures pcs[t].v == old(pcs[t]).v
      ensures if ok then pcs[t] == Constructing(old(pcs[t]).v, old(pcs[t]).k) else pcs[t].TryEmplaceLoad?
    {
      var v, k := pcs[t].v, pcs[t].k;
      var seen;
      ok, seen := CompareExchangeHead(k, t, v);
      pcs[t] := if ok then Constructing(v, k) else TryEmplaceLoad(v, seen);
    }

    /** The second head_.load() of try_emplace, and what it decides. */
    method ReloadHead(t: Tid) returns (same: bool)
      requires Valid() && t < pcs.Length && pcs[t].TryEmplaceReload?
      modifies this`reports, pcs
      ensures Valid() && Abstract() == StepThread(old(Abstract()), t)
      ensures if same then pcs[t].Idle? && reports == old(reports) + [PushRefused(t, old(pcs[t]).k)]
              else pcs[t].TryEmplaceLoad? && pcs[t].v == old(pcs[t]).v
    {
      var v, prevHead := pcs[t].v, pcs[t].k;
      same := head == prevHead;
      if same {
        reports := reports + [PushRefused(t, prevHead)];
        pcs[t] := Idle;
      } else {
        pcs[t] := TryEmplaceLoad(v, head);
      }
    }

    /** slot.construct(v). */
    method Construct(t: Tid)
      requires Valid() && t < pcs.Length && pcs[t].Constructing?
      modifies storage, pcs
      ensures Valid() && Abstract() == StepThread(old(Abstract()), t)
      ensures pcs[t] == Publishing(old(pcs[t]).k)
    {
      var v, k := pcs[t].v, pcs[t].k;
      storage[Slot(k, capacity)] := Live(v);
      pcs[t] := Publishing(k);
    }

    /** The turn store that ends a push. */
    method Publish(t: Tid)
      requires Valid() && t < pcs.Length && pcs[t].Publishing?
      modifies this`published, this`reports, turn, pcs
      ensures Valid() && Abstract() == StepThread(old(Abstract()), t)
      ensures pcs[t].Idle? && reports == old(reports) + [Pushed(t, old(pcs[t]).k)]
    {
      var k := pcs[t].k;
      turn[Slot(k, capacity)] := PushTurn(k, capacity) + 1;
      published, reports := published + {k}, reports + [Pushed(t, k)];
      pcs[t] := Idle;
    }

    /** tail_.fetch_add(1) of pop. */
    method ClaimPop(t: Tid) returns (k: nat)
      requires Valid() && t < pcs.Length && pcs[t].PopCalled?
      modifies this`tail, this`popOwner, pcs
      ensures Valid() && Abstract() == StepThread(old(Abstract()), t)
      ensures pcs[t] == PopSpin(k)
    {
      k := FetchAddTail(t);
      pcs[t] := PopSpin(k);
    }

    /** One look at the turn in the spin loop of pop. */
    method AwaitPop(t: Tid) returns (full: bool)
      requires Valid() && t < pcs.Length && pcs[t].PopSpin?
      modifies pcs
      ensures Valid() && Abstract() == StepThread(old(Abstract()), t)
      ensures pcs[t] == if full then Moving(old(pcs[t]).k) else old(pcs[t])
    {
      var k := pcs[t].k;
      full := PopTurn(k, capacity) == turn[Slot(k, capacity)];
      if full {
        pcs[t] := Moving(k);
      }
    }

    /** tail_.load() at the start of try_pop. */
    method LoadTail(t: Tid)
      requires Valid() && t < pcs.Length && pcs[t].TryPopCalled?
      modifies pcs
      ensures Valid() && Abstract() == StepThread(old(Abstract()), t)
      ensures pcs[t].TryPopLoad?
    {
      pcs[t] := TryPopLoad(tail);
    }

    /** The turn load of try_pop. */
    method CheckPop(t: Tid) returns (full: bool)
      requires Valid() && t < pcs.Length && pcs[t].TryPopLoad?
      modifies pcs
      ensures Valid() && Abstract() == StepThread(old(Abstract()), t)
      ensures pcs[t] == if full then TryPopCas(old(pcs[t]).k) else TryPopReload(old(pcs[t]).k)
    {
      var k := pcs[t].k;
      full := PopTurn(k, capacity) == turn[Slot(k, capacity)];
      pcs[t] := if full then TryPopCas(k) else TryPopReload(k);
    }

    /** The compare-exchange of try_pop. */
    method CasPop(t: Tid) returns (ok: bool)
      requires Valid() && t < pcs.Length && pcs[t].TryPopCas?
      modifies this`tail, this`popOwner, pcs
      ensures Valid() && Abstract() == StepThread(old(Abstract()), t)
      ensures if ok then pcs[t] == Moving(old(pcs[t]).k) else pcs[t].TryPopLoad?
    {
      var k := pcs[t].k;
      var seen;
      ok, seen := CompareExchangeTail(k, t);
      pcs[t] := if ok then Moving(k) else TryPopLoad(seen);
    }

    /** The second tail_.load() of try_pop, and what it decides. */
    method ReloadTail(t: Tid) returns (same: bool)
      requires Valid() && t < pcs.Length && pcs[t].TryPopReload?
      modifies this`reports, pcs
      ensures Valid() && Abstract() == StepThread(old(Abstract()), t)
      ensures if same then pcs[t].Idle? && reports == old(reports) + [PopRefused(t, old(pcs[t]).k)]
              else pcs[t].TryPopLoad?
    {
      var prevTail := pcs[t].k;
      same := tail == prevTail;
      if same {
        reports := reports + [PopRefused(t, prevTail)];
        pcs[t] := Idle;
      } else {
        pcs[t] := TryPopLoad(tail);
      }
    }

    /** v = slot.move(). */
    method MoveOut(t: Tid)
      requires Valid() && t < pcs.Length && pcs[t].Moving?
      modifies storage, pcs
      ensures Valid() && Abstract() == StepThread(old(Abstract()), t)
      ensures old(Abstract().cells[Slot(pcs[t].k, capacity)]).Live? ==>
                pcs[t].Destroying? && pcs[t].k == old(pcs[t]).k
                && pcs[t].v == old(Abstract().cells[Slot(pcs[t].k, capacity)]).value
    {
      var k := pcs[t].k;
      var cell := storage[Slot(k, capacity)];
      if cell.Live? {
        storage[Slot(k, capacity)] := Husk;
        pcs[t] := Destroying(k, cell.value);
      }
    }

    /** slot.destroy(). */
    method Destroy(t: Tid)
      requires Valid() && t < pcs.Length && pcs[t].Destroying?
      modifies storage, pcs
      ensures Valid() && Abstract() == StepThread(old(Abstract()), t)
      ensures pcs[t] == Releasing(old(pcs[t]).k, old(pcs[t]).v)
    {
      var k, v := pcs[t].k, pcs[t].v;
      storage[Slot(k, capacity)] := Raw;
      pcs[t] := Releasing(k, v);
    }

    /** The turn store that ends a pop. */
    method Release(t: Tid) returns (v: T)
      requires Valid() && t < pcs.Length && pcs[t].Releasing?
      modifies this`released, this`reports, turn, pcs
      ensures Valid() && Abstract() == StepThread(old(Abstract()), t)
      ensures pcs[t].Idle? && v == old(pcs[t]).v && reports == old(reports) + [Popped(t, old(pcs[t]).k, v)]
    {
      var k := pcs[t].k;
      v := pcs[t].v;
      turn[Slot(k, capacity)] := PopTurn(k, capacity) + 1;
      released, reports := released + {k}, reports + [Popped(t, k, v)];
      pcs[t] := Idle;
    }

    /** The next atomic action of a thread inside emplace or try_emplace. */
    method StepPush(t: Tid)
      requires Valid() && t < pcs.Length
      requires pcs[t].EmplaceCalled? || pcs[t].EmplaceSpin? || pcs[t].TryEmplaceCalled? || pcs[t].TryEmplaceLoad?
               || pcs[t].TryEmplaceCas? || pcs[t].TryEmplaceReload? || pcs[t].Constructing? || pcs[t].Publishing?
      modifies this, turn, storage, pcs
      ensures Valid() && Abstract() == StepThread(old(Abstract()), t)
    {
      match pcs[t]
      case EmplaceCalled(_) => var _ := ClaimPush(t);
      case EmplaceSpin(_, _) => var _ := AwaitPush(t);
      case TryEmplaceCalled(_) => LoadHead(t);
      case TryEmplaceLoad(_, _) => var _ := CheckPush(t);
      case TryEmplaceCas(_, _) => var _ := CasPush(t);
      case TryEmplaceReload(_, _) => var _ := ReloadHead(t);
      case Constructing(_, _) => Construct(t);
      case Publishing(_) => Publish(t);
    }

    /** The next atomic action of a thread inside pop or try_pop. */
    method StepPop(t: Tid)
      requires Valid() && t < pcs.Length
      requires pcs[t].PopCalled? || pcs[t].PopSpin? || pcs[t].TryPopCalled? || pcs[t].TryPopLoad?
               || pcs[t].TryPopCas? || pcs[t].TryPopReload? || pcs[t].Moving? || pcs[t].Destroying? || pcs[t].Releasing?
      modifies this, turn, storage, pcs
      ensures Valid() && Abstract() == StepThread(old(Abstract()), t)
    {
      match pcs[t]
      case PopCalled => var _ := ClaimPop(t);
      case PopSpin(_) => var _ := AwaitPop(t);
      case TryPopCalled => LoadTail(t);
      case TryPopLoad(_) => var _ := CheckPop(t);
      case TryPopCas(_) => var _ := CasPop(t);
      case TryPopReload(_) => var _ := ReloadTail(t);
      case Moving(_) => MoveOut(t);
      case Destroying(_, _) => Destroy(t);
      case Releasing(_, _) => var _ := Release(t);
    }

    /** The next atomic action of any thread. */
    method StepAny(t: Tid)
      requires Valid() && t < pcs.Length
      modifies this, turn, storage, pcs
      ensures Valid() && Abstract() == StepThread(old(Abstract()), t)
    {
      var pc := pcs[t];
      if pc.PopCalled? || pc.PopSpin? || pc.TryPopCalled? || pc.TryPopLoad? || pc.TryPopCas? || pc.TryPopReload?
         || pc.Moving? || pc.Destroying? || pc.Releasing? {
        StepPop(t);
      } else if !pc.Idle? {
        StepPush(t);
      }
    }

    /** Any schedule: threads calling operations and taking steps in whatever order. */
    method Interleave(schedule: seq<Action<T>>)
      requires Valid()
      modifies this, turn, storage, pcs
      ensures Valid() && Abstract() == Exec(old(Abstract()), schedule)
    {
      for i := 0 to |schedule|
        invariant Valid() && Abstract() == Exec(old(Abstract()), schedule[..i])
      {
        assert schedule[..i + 1][..i] == schedule[..i];
        match schedule[i]
        case Call(t, op) =>
          if t < pcs.Length && pcs[t].Idle? {
            Begin(t, op);
          }
        case Step(t) =>
          if t < pcs.Length {
            StepAny(t);
          }
      }
      assert schedule[..|schedule|] == schedule;
    }
  }
}
