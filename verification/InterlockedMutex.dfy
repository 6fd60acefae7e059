/**
 * The mutex of lock.h: one shared counter, incremented and decremented atomically. A thread
 * holds the mutex when its increment yields 1; otherwise it takes its increment back, and then
 * sleeps and tries again, or gives up, as the macro it runs says.
 */
module InterlockedMutex {

  /** The three macros that acquire. */
  datatype Macro = Blocking | Nonblocking | Adaptive

  /** Where a thread stands. */
  datatype Phase =
    | Outside
    | Trying(m: Macro)   // before the increment
    | Backing(m: Macro)  // the increment did not yield 1, and has not been taken back
    | Holding
    | Refused            // result is FALSE

  datatype State = State(count: int, threads: map<nat, Phase>)

  /** Each step does at most one atomic operation on the counter. */
  datatype Step =
    | Start(t: nat, m: Macro)
    | Increment(t: nat)
    | Decrement(t: nat, lowIrql: bool)  // takes back a failed increment
    | Release(t: nat)

  const LONG_MAX := 0x7fff_ffff
  const LONG_SIZE := 0x1_0000_0000

  /** NdisInterlockedIncrement on a 32-bit counter. */
  function Incremented(count: int): int {
    if count == LONG_MAX then LONG_MAX + 1 - LONG_SIZE else count + 1
  }

  /** NdisInterlockedDecrement on a 32-bit counter. */
  function Decremented(count: int): int {
    if count == LONG_MAX + 1 - LONG_SIZE then LONG_MAX else count - 1
  }

  predicate Enabled(s: State, a: Step) {
    && a.t in s.threads
    && match a
       case Start(t, _) => s.threads[t] == Outside || s.threads[t] == Refused
       case Increment(t) => s.threads[t].Trying?
       case Decrement(t, _) => s.threads[t].Backing?
       case Release(t) => s.threads[t] == Holding
  }

  /** A step that is not enabled does not happen. */
  function Apply(s: State, a: Step): State {
    if !Enabled(s, a) then s
    else
      match a
      case Start(t, m) => s.(threads := s.threads[t := Trying(m)])
      case Increment(t) =>
        var count := Incremented(s.count);
        State(count, s.threads[t := if count == 1 then Holding else Backing(s.threads[t].m)])
      case Decrement(t, lowIrql) =>
        var retry := s.threads[t].m == Blocking || (s.threads[t].m == Adaptive && lowIrql);
        State(Decremented(s.count), s.threads[t := if retry then Trying(s.threads[t].m) else Refused])
      case Release(t) => State(Decremented(s.count), s.threads[t := Outside])
  }

  /** INIT_MUTEX, with every thread outside. */
  function Initial(ids: set<nat>): State {
    State(0, map t | t in ids :: Outside)
  }

  function After(ids: set<nat>, run: seq<Step>): State {
    if run == [] then Initial(ids) else Apply(After(ids, run[..|run| - 1]), run[|run| - 1])
  }

  /** The threads whose increment is in the counter: holders, and those about to take it back. */
  function Counted(threads: map<nat, Phase>): set<nat> {
    set t | t in threads && (threads[t] == Holding || threads[t].Backing?)
  }

  ghost predicate Inv(s: State, ids: set<nat>) {
    && s.threads.Keys == ids
    && s.count == |Counted(s.threads)|
    && (forall t, u :: t in s.threads && u in s.threads && s.threads[t] == Holding == s.threads[u] ==> t == u)
  }

  lemma CountedUpdate(threads: map<nat, Phase>, t: nat, p: Phase)
    requires t in threads
    ensures Counted(threads[t := p]) ==
      if p == Holding || p.Backing? then Counted(threads) + {t} else Counted(threads) - {t}
  {
  }

  /** No more increments are in the counter than there are threads, so it cannot overflow. */
  lemma CountedBound(s: State, ids: set<nat>)
    requires Inv(s, ids)
    ensures s.count <= |ids|
    ensures s.count < |ids| || forall t :: t in ids ==> t in Counted(s.threads)
  {
    var counted := Counted(s.threads);
    SubsetSize(counted, ids);
    if exists t :: t in ids && t !in counted {
      var t :| t in ids && t !in counted;
      SubsetSize(counted + {t}, ids);
    }
  }

  lemma {:induction false} SubsetSize(a: set<nat>, b: set<nat>)
    requires a <= b
    ensures |a| <= |b|
  {
    if a == {} {
    } else {
      var x :| x in a;
      SubsetSize(a - {x}, b - {x});
    }
  }

  lemma IncrementKeepsInv(s: State, t: nat, ids: set<nat>)
    requires Inv(s, ids) && |ids| <= LONG_MAX && Enabled(s, Increment(t))
    ensures Inv(Apply(s, Increment(t)), ids)
  {
    var s' := Apply(s, Increment(t));
    CountedBound(s, ids);
    CountedUpdate(s.threads, t, s'.threads[t]);
    assert t !in Counted(s.threads);
    if s.count == 0 {
      assert forall u :: u in s.threads && s.threads[u] == Holding ==> u in Counted(s.threads);
    }
  }

  lemma ApplyKeepsInv(s: State, a: Step, ids: set<nat>)
    requires Inv(s, ids) && |ids| <= LONG_MAX
    ensures Inv(Apply(s, a), ids)
  {
    if Enabled(s, a) {
      match a
      case Increment(t) => IncrementKeepsInv(s, t, ids);
      case Start(t, _) =>
        CountedUpdate(s.threads, t, Apply(s, a).threads[t]);
        assert t !in Counted(s.threads);
      case _ => OneLessKeepsInv(s, a, ids);
    }
  }

  lemma OneLessKeepsInv(s: State, a: Step, ids: set<nat>)
    requires Inv(s, ids) && Enabled(s, a) && (a.Decrement? || a.Release?)
    ensures Inv(Apply(s, a), ids)
  {
    CountedUpdate(s.threads, a.t, Apply(s, a).threads[a.t]);
    assert a.t in Counted(s.threads);
  }

  lemma {:induction false} RunKeepsInv(ids: set<nat>, run: seq<Step>)
    requires |ids| <= LONG_MAX
    ensures Inv(After(ids, run), ids)
  {
    if run == [] {
      assert Counted(Initial(ids).threads) == {};
    } else {
      RunKeepsInv(ids, run[..|run| - 1]);
      ApplyKeepsInv(After(ids, run[..|run| - 1]), run[|run| - 1], ids);
    }
  }

  /**
   * Mutual exclusion: whatever the interleaving, at most one thread holds the mutex; the
   * counter is the number of holders plus the number of increments not yet taken back.
   */
  lemma MutualExclusion(ids: set<nat>, run: seq<Step>)
    requires |ids| <= LONG_MAX
    ensures var s := After(ids, run);
      && (forall t, u :: t in s.threads && u in s.threads && s.threads[t] == Holding == s.threads[u] ==> t == u)
      && s.count == |set t | t in s.threads && s.threads[t] == Holding|
                  + |set t | t in s.threads && s.threads[t].Backing?|
      && 0 <= s.count <= |ids|
  {
    hide After;
    var s := After(ids, run);
    RunKeepsInv(ids, run);
    CountedBound(s, ids);
    HoldersAndBacking(s.threads);
  }

  lemma HoldersAndBacking(threads: map<nat, Phase>)
    ensures |Counted(threads)| == |set t | t in threads && threads[t] == Holding|
                                + |set t | t in threads && threads[t].Backing?|
  {
    var holders := set t | t in threads && threads[t] == Holding;
    var backing := set t | t in threads && threads[t].Backing?;
    assert Counted(threads) == holders + backing && holders !! backing;
  }

  /**
   * An attempt succeeds exactly when no increment is in the counter: no thread holds the mutex
   * and none is on its way back from a failed attempt.
   */
  lemma AttemptSucceedsExactlyWhen(ids: set<nat>, run: seq<Step>, t: nat)
    requires |ids| <= LONG_MAX && t in ids
    requires t in After(ids, run).threads && After(ids, run).threads[t].Trying?
    ensures var s := After(ids, run);
      Apply(s, Increment(t)).threads[t] == Holding <==>
        forall u :: u in s.threads ==> s.threads[u] != Holding && !s.threads[u].Backing?
  {
    var s := After(ids, run);
    RunKeepsInv(ids, run);
    CountedBound(s, ids);
    if s.count == 0 {
      forall u | u in s.threads
        ensures u !in Counted(s.threads)
      {
      }
    } else {
      var u :| u in Counted(s.threads);
    }
  }

  /**
   * A thread that takes back a failed increment gives up exactly when it runs the nonblocking
   * macro, or the adaptive one at an IRQL that does not let it sleep; otherwise it tries again.
   */
  lemma GivesUpExactlyWhen(ids: set<nat>, run: seq<Step>, t: nat, lowIrql: bool)
    requires t in After(ids, run).threads && After(ids, run).threads[t].Backing?
    ensures var s := After(ids, run); var m := s.threads[t].m;
      var s' := After(ids, run + [Decrement(t, lowIrql)]);
      && (s'.threads[t] == Refused <==> m == Nonblocking || (m == Adaptive && !lowIrql))
      && (s'.threads[t] != Refused ==> s'.threads[t] == Trying(m))
  {
    hide After;
    var longer := AfterAlso(ids, run, Decrement(t, lowIrql));
  }

  /** A step starts a thread with the macro it names, or leaves the thread's macro as it is. */
  lemma MacroStays(s: State, a: Step, t: nat)
    requires t in Apply(s, a).threads && (Apply(s, a).threads[t].Trying? || Apply(s, a).threads[t].Backing?)
    ensures t in s.threads
    ensures var m := Apply(s, a).threads[t].m;
      a == Start(t, m) || ((s.threads[t].Trying? || s.threads[t].Backing?) && s.threads[t].m == m)
  {
  }

  /** What a thread runs goes back to a step of its own that started it. */
  lemma {:induction false} MacroWasStarted(ids: set<nat>, run: seq<Step>, t: nat)
    requires t in After(ids, run).threads
    requires After(ids, run).threads[t].Trying? || After(ids, run).threads[t].Backing?
    ensures Start(t, After(ids, run).threads[t].m) in run
  {
    if run == [] {
      assert false;
    } else {
      var front, a := run[..|run| - 1], run[|run| - 1];
      assert run == front + [a];
      assert After(ids, run) == Apply(After(ids, front), a);
      hide After, Apply;
      MacroStays(After(ids, front), a, t);
      if a != Start(t, After(ids, run).threads[t].m) {
        MacroWasStarted(ids, front, t);
      }
    }
  }

  /** A step makes a thread give up only when that takes back a failed increment, as the macro says. */
  lemma OnlyThenRefused(s: State, a: Step, t: nat)
    requires t in Apply(s, a).threads
    ensures t in s.threads
    ensures Apply(s, a).threads[t] == Refused && s.threads[t] != Refused ==>
      && s.threads[t].Backing?
      && (s.threads[t].m == Nonblocking || (s.threads[t].m == Adaptive && a == Decrement(t, false)))
  {
  }

  /**
   * Over every run: a thread that runs the blocking macro only is never refused; nor is one that
   * runs the adaptive macro as well, but at a low IRQL.
   */
  lemma {:induction false} NeverRefused(ids: set<nat>, run: seq<Step>, t: nat)
    requires t in After(ids, run).threads && Start(t, Nonblocking) !in run
    requires Start(t, Adaptive) !in run || Decrement(t, false) !in run
    ensures After(ids, run).threads[t] != Refused
  {
    if run == [] {
    } else {
      var front, a := run[..|run| - 1], run[|run| - 1];
      assert run == front + [a];
      assert After(ids, run) == Apply(After(ids, front), a);
      hide After, Apply;
      OnlyThenRefused(After(ids, front), a, t);
      NeverRefused(ids, front, t);
      if After(ids, front).threads[t].Backing? {
        MacroWasStarted(ids, front, t);
      }
    }
  }

  /** Where the three threads of the run below stand. */
  ghost predicate Stand(s: State, first: Phase, second: Phase, third: Phase) {
    && s.threads.Keys == {0, 1, 2}
    && s.threads[0] == first && s.threads[1] == second && s.threads[2] == third
  }

  lemma AllThreeTry(m: Macro) returns (run: seq<Step>)
    ensures After({0, 1, 2}, run).count == 0
    ensures Stand(After({0, 1, 2}, run), Trying(m), Trying(m), Trying(m))
  {
    hide After;
    AfterNothing({0, 1, 2});
    assert Stand(Initial({0, 1, 2}), Outside, Outside, Outside);
    run := AfterAlso({0, 1, 2}, [], Start(0, m));
    assert Stand(After({0, 1, 2}, run), Trying(m), Outside, Outside);
    run := AfterAlso({0, 1, 2}, run, Start(1, m));
    assert Stand(After({0, 1, 2}, run), Trying(m), Trying(m), Outside);
    run := AfterAlso({0, 1, 2}, run, Start(2, m));
  }

  lemma SecondBacksThoughFree(m: Macro) returns (run: seq<Step>)
    ensures After({0, 1, 2}, run).count == 1
    ensures Stand(After({0, 1, 2}, run), Outside, Backing(m), Trying(m))
  {
    hide After;
    run := AllThreeTry(m);
    run := AfterAlso({0, 1, 2}, run, Increment(0));
    assert Stand(After({0, 1, 2}, run), Holding, Trying(m), Trying(m));
    run := AfterAlso({0, 1, 2}, run, Increment(1));
    assert Stand(After({0, 1, 2}, run), Holding, Backing(m), Trying(m));
    run := AfterAlso({0, 1, 2}, run, Release(0));
  }

  /** So a thread can be refused although nobody holds the mutex at that moment. */
  lemma RefusedThoughFree() returns (run: seq<Step>)
    ensures Stand(After({0, 1, 2}, run), Outside, Backing(Nonblocking), Refused)
  {
    hide After;
    run := SecondBacksThoughFree(Nonblocking);
    run := AfterAlso({0, 1, 2}, run, Increment(2));
    assert Stand(After({0, 1, 2}, run), Outside, Backing(Nonblocking), Backing(Nonblocking));
    run := AfterAlso({0, 1, 2}, run, Decrement(2, true));
  }

  lemma AfterNothing(ids: set<nat>)
    ensures After(ids, []) == Initial(ids)
  {
  }

  lemma AfterAlso(ids: set<nat>, run: seq<Step>, a: Step) returns (longer: seq<Step>)
    ensures longer == run + [a] && After(ids, longer) == Apply(After(ids, run), a)
  {
    longer := run + [a];
    assert longer[..|longer| - 1] == run;
  }
}
