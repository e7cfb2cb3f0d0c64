/** Progress of the queue under every fair schedule: what both sides have claimed gets finished, whatever
    else the threads begin meanwhile and however unevenly they run. */
module MpmcProgress {
  import opened Sequences
  import opened MpmcModel
  import opened MpmcInvariant
  import opened MpmcTheorems

  predicate Stepped<T>(acts: seq<Action<T>>, t: Tid) {
    exists i :: 0 <= i < |acts| && acts[i].t == t && acts[i].Step?
  }

  /** Actions in which every thread takes a step at least once; calls, and further steps, are not limited. */
  ghost predicate EveryoneSteps<T>(acts: seq<Action<T>>, threads: nat) {
    forall t: Tid :: t < threads ==> Stepped(acts, t)
  }

  // ---------------------------------------------------------------- one action

  /** The oldest matched ticket is where it was, in the same hands. */
  ghost predicate Untouched<T>(s: State<T>, s': State<T>, k: nat)
    requires WellFormed(s) && WellFormed(s') && k < Matched(s)
  {
    Oldest(s', k) && Responsible(s', k) == Responsible(s, k) && StepsLeft(s', k) == StepsLeft(s, k)
  }

  /** The oldest matched ticket is finished, or closer to it. */
  ghost predicate Progressed<T>(s: State<T>, s': State<T>, k: nat)
    requires WellFormed(s) && WellFormed(s') && k < Matched(s)
  {
    k in s'.released || (Oldest(s', k) && StepsLeft(s', k) < StepsLeft(s, k))
  }

  lemma StaysOldest<T>(s: State<T>, a: Action<T>, k: nat)
    requires Inv(s) && Oldest(s, k)
    ensures Oldest(Next(s, a), k) || k in Next(s, a).released
  {
    NextLater(s, a);
  }

  /** Whoever else acts leaves the ticket alone. */
  lemma OthersLeave<T>(s: State<T>, a: Action<T>, k: nat)
    requires Inv(s) && Oldest(s, k) && !(a.Step? && a.t == Responsible(s, k))
    ensures Untouched(s, Next(s, a), k)
  {
    NextLater(s, a);
    if a.t < |s.pcs| && a.Step? {
      assert ThreadOk(s, a.t);
      OldestIsCurrent(s, k);
      OwnerStays(s, a.t, k);
    } else {
      StaysOldest(s, a, k);
    }
  }

  /** A step of another thread neither publishes nor releases ticket k. */
  lemma OwnerStays<T>(s: State<T>, t: Tid, k: nat)
    requires Inv(s) && Oldest(s, k) && t < |s.pcs| && t != Responsible(s, k)
    ensures var s' := StepThread(s, t);
            (k in s'.published <==> k in s.published) && k !in s'.released
  {
    assert ThreadOk(s, t);
  }

  lemma OwnerAdvances<T>(s: State<T>, k: nat)
    requires Inv(s) && Oldest(s, k)
    ensures Responsible(s, k) < |s.pcs| && Progressed(s, Next(s, Step(Responsible(s, k))), k)
  {
    if k in s.published { OldestPopAdvances(s, k); } else { OldestPushAdvances(s, k); }
    StaysOldest(s, Step(Responsible(s, k)), k);
  }

  // ---------------------------------------------------------------- any actions

  /** One more action: a ticket that progressed does not fall back, and its owner's step makes it progress. */
  lemma OneMore<T>(s: State<T>, s1: State<T>, a: Action<T>, k: nat)
    requires WellFormed(s) && k < Matched(s) && Inv(s1) && (Progressed(s, s1, k) || Untouched(s, s1, k))
    ensures Progressed(s, Next(s1, a), k)
            || (Untouched(s, s1, k) && Untouched(s, Next(s1, a), k) && !(a.Step? && a.t == Responsible(s, k)))
  {
    NextLater(s1, a);
    if k !in s1.released {
      if a.Step? && a.t == Responsible(s1, k) {
        OwnerAdvances(s1, k);
      } else {
        OthersLeave(s1, a, k);
      }
    }
  }

  /** After any actions the oldest matched ticket progressed, unless its owner took no step. */
  lemma {:induction false} AfterActions<T>(s: State<T>, acts: seq<Action<T>>, k: nat)
    requires Inv(s) && Oldest(s, k)
    ensures Progressed(s, Exec(s, acts), k)
            || (Untouched(s, Exec(s, acts), k) && !Stepped(acts, Responsible(s, k)))
    decreases |acts|
  {
    if acts != [] {
      var init, last := acts[..|acts| - 1], acts[|acts| - 1];
      AfterActions(s, init, k);
      ExecInv(s, init);
      OneMore(s, Exec(s, init), last, k);
      if !Progressed(s, Exec(s, acts), k) {
        NotBothProgressed(s, Exec(s, init), k);
        NotStepped(acts, Responsible(s, k));
      }
    }
  }

  lemma NotBothProgressed<T>(s: State<T>, s1: State<T>, k: nat)
    requires WellFormed(s) && WellFormed(s1) && k < Matched(s) && Untouched(s, s1, k)
    ensures !Progressed(s, s1, k)
  {
  }

  lemma NotStepped<T>(acts: seq<Action<T>>, t: Tid)
    requires acts != [] && !Stepped(acts[..|acts| - 1], t)
    requires !(acts[|acts| - 1].Step? && acts[|acts| - 1].t == t)
    ensures !Stepped(acts, t)
  {
    var init := acts[..|acts| - 1];
    forall i | 0 <= i < |acts| ensures !(acts[i].t == t && acts[i].Step?) {
      assert i < |init| ==> init[i] == acts[i];
    }
  }

  lemma RoundProgresses<T>(s: State<T>, acts: seq<Action<T>>, k: nat)
    requires Inv(s) && Oldest(s, k) && EveryoneSteps(acts, |s.pcs|)
    ensures Progressed(s, Exec(s, acts), k)
  {
    AfterActions(s, acts, k);
    OwnerAdvances(s, k);
    assert Stepped(acts, Responsible(s, k));
  }

  // ---------------------------------------------------------------- fair schedules

  /** Enough rounds to finish the tickets k to m-1. */
  ghost function Need<T>(s: State<T>, k: nat, m: nat): nat
    requires WellFormed(s) && k <= m <= Matched(s)
  {
    if k == m then 0 else StepsLeft(s, k) + 7 * (m - k - 1)
  }

  ghost predicate FinishedTo<T>(s: State<T>, m: nat) {
    forall i: nat :: i < m ==> i in s.released
  }

  lemma StaysFinished<T>(s: State<T>, acts: seq<Action<T>>, m: nat)
    requires Inv(s) && FinishedTo(s, m)
    ensures FinishedTo(Exec(s, acts), m)
  {
    ExecLater(s, acts);
  }

  lemma FirstRound<T>(s: State<T>, rounds: seq<seq<Action<T>>>)
    requires WellFormed(s) && rounds != []
    ensures Exec(s, Flatten(rounds)) == Exec(Exec(s, rounds[0]), Flatten(rounds[1..]))
  {
    FlattenCons(rounds[0], rounds[1..]);
    assert rounds == [rounds[0]] + rounds[1..];
    ExecConcat(s, rounds[0], Flatten(rounds[1..]));
  }

  /** How far a round gets. */
  function NextOpen<T>(s1: State<T>, k: nat): nat {
    if k in s1.released then k + 1 else k
  }

  /** A round that leaves ticket k unfinished leaves less need for it; one that finishes it, for the rest. */
  lemma NeedFalls<T>(s: State<T>, s1: State<T>, k: nat, m: nat)
    requires WellFormed(s) && WellFormed(s1) && k < m <= Matched(s) && m <= Matched(s1)
    requires Progressed(s, s1, k) && StepsLeft(s, k) > 0
    ensures Need(s1, NextOpen(s1, k), m) < Need(s, k, m)
  {
  }

  lemma NeedSkips<T>(s: State<T>, k: nat, m: nat)
    requires WellFormed(s) && k < m <= Matched(s) && k in s.released
    ensures Need(s, k + 1, m) <= Need(s, k, m)
  {
  }

  lemma OldestHasSteps<T>(s: State<T>, k: nat)
    requires Inv(s) && Oldest(s, k)
    ensures StepsLeft(s, k) > 0
  {
    OwnerAdvances(s, k);
  }

  lemma OneRound<T>(s: State<T>, k: nat, m: nat, acts: seq<Action<T>>)
    requires Inv(s) && k < m <= Matched(s) && FinishedTo(s, k) && k !in s.released && EveryoneSteps(acts, |s.pcs|)
    ensures var s1 := Exec(s, acts);
            && Inv(s1) && m <= Matched(s1) && FinishedTo(s1, k)
            && Need(s1, NextOpen(s1, k), m) < Need(s, k, m)
  {
    OldestHasSteps(s, k);
    RoundProgresses(s, acts, k);
    ExecInv(s, acts);
    ExecLater(s, acts);
    NeedFalls(s, Exec(s, acts), k, m);
  }

  ghost predicate Fair<T>(rounds: seq<seq<Action<T>>>, threads: nat) {
    forall i :: 0 <= i < |rounds| ==> EveryoneSteps(rounds[i], threads)
  }

  lemma FinishedToNext<T>(s1: State<T>, k: nat)
    requires FinishedTo(s1, k)
    ensures FinishedTo(s1, NextOpen(s1, k))
  {
  }

  lemma FairRest<T>(rounds: seq<seq<Action<T>>>, threads: nat)
    requires rounds != [] && Fair(rounds, threads)
    ensures EveryoneSteps(rounds[0], threads) && Fair(rounds[1..], threads)
  {
  }

  lemma {:induction false} RoundsFinish<T>(s: State<T>, k: nat, m: nat, rounds: seq<seq<Action<T>>>)
    requires Inv(s) && k <= m <= Matched(s) && FinishedTo(s, k) && |rounds| >= Need(s, k, m)
    requires Fair(rounds, |s.pcs|)
    ensures FinishedTo(Exec(s, Flatten(rounds)), m)
    decreases m - k, |rounds|
  {
    if k == m {
      StaysFinished(s, Flatten(rounds), m);
    } else if k in s.released {
      NeedSkips(s, k, m);
      RoundsFinish(s, k + 1, m, rounds);
    } else {
      OldestHasSteps(s, k);
      FairRest(rounds, |s.pcs|);
      OneRound(s, k, m, rounds[0]);
      FirstRound(s, rounds);
      var s1 := Exec(s, rounds[0]);
      FinishedToNext(s1, k);
      RoundsFinish(s1, NextOpen(s1, k), m, rounds[1..]);
    }
  }

  lemma FairFrom<T>(s: State<T>, rounds: seq<seq<Action<T>>>)
    requires Inv(s) && |rounds| >= 7 * Matched(s) && Fair(rounds, |s.pcs|)
    ensures FinishedTo(Exec(s, Flatten(rounds)), Matched(s))
  {
    RoundsFinish(s, 0, Matched(s), rounds);
  }

  /** Every schedule in which each thread keeps stepping finishes the claimed work: after seven rounds for each
      ticket both sides have claimed, all of them are released. Rounds may be of any length and contain any
      further calls, claims and steps. */
  lemma FairSchedulesFinish<T>(capacity: nat, threads: nat, acts: seq<Action<T>>, rounds: seq<seq<Action<T>>>)
    requires capacity >= 1 && |rounds| >= 7 * Matched(Run(capacity, threads, acts))
    requires forall i :: 0 <= i < |rounds| ==> EveryoneSteps(rounds[i], threads)
    ensures FinishedTo(Exec(Run(capacity, threads, acts), Flatten(rounds)), Matched(Run(capacity, threads, acts)))
  {
    RunInv(capacity, threads, acts);
    FairFrom(Run(capacity, threads, acts), rounds);
  }
}
