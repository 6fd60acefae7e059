/**
 * Where the objects of a concurrent system are. An object is held by one thread, or lies in
 * the queue, or is finished; the ledger says which, and `Accounted` says that the ledger and
 * the system agree. The lemmas are the moves an object can make.
 */
module Accounting {
  import opened Collections

  datatype Place = AtThread(t: nat) | Queued | Finished

  ghost predicate Accounted<X>(place: map<X, Place>, held: map<nat, X>, queue: seq<X>, finished: seq<X>)
  {
    && (forall t :: t in held ==> held[t] in place && place[held[t]] == AtThread(t))
    && (forall x :: x in queue ==> x in place && place[x] == Queued)
    && (forall x :: x in finished ==> x in place && place[x] == Finished)
    && (forall x :: x in place && place[x].AtThread? ==> place[x].t in held && held[place[x].t] == x)
    && (forall x :: x in place && place[x].Queued? ==> x in queue)
    && (forall x :: x in place && place[x].Finished? ==> x in finished)
    && NoDuplicates(queue)
    && NoDuplicates(finished)
  }

  lemma Arrive<X>(place: map<X, Place>, held: map<nat, X>, queue: seq<X>, finished: seq<X>, t: nat, x: X)
    requires Accounted(place, held, queue, finished)
    requires x !in place && t !in held
    ensures Accounted(place[x := AtThread(t)], held[t := x], queue, finished)
  {
  }

  lemma Enqueue<X>(place: map<X, Place>, held: map<nat, X>, queue: seq<X>, finished: seq<X>, t: nat)
    requires Accounted(place, held, queue, finished)
    requires t in held
    ensures Accounted(place[held[t] := Queued], held - {t}, queue + [held[t]], finished)
  {
    assert held[t] !in queue;
  }

  lemma Dequeue<X>(place: map<X, Place>, held: map<nat, X>, queue: seq<X>, finished: seq<X>, t: nat)
    requires Accounted(place, held, queue, finished)
    requires t !in held && queue != []
    ensures Accounted(place[queue[0] := AtThread(t)], held[t := queue[0]], queue[1..], finished)
    ensures queue[1..] == Without(queue, {queue[0]})
  {
    WithoutHead(queue);
    Extract(place, held, queue, finished, t, queue[0]);
  }

  lemma Extract<X>(place: map<X, Place>, held: map<nat, X>, queue: seq<X>, finished: seq<X>, t: nat, x: X)
    requires Accounted(place, held, queue, finished)
    requires t !in held && x in queue
    ensures Accounted(place[x := AtThread(t)], held[t := x], Without(queue, {x}), finished)
  {
    var rest := Without(queue, {x});
    WithoutMembers(queue, {x});
    WithoutNoDuplicates(queue, {x});
    forall y | y in rest
      ensures y in queue && y != x
    {
      assert y !in {x};
    }
    forall y | y in queue && y != x
      ensures y in rest
    {
      assert y !in {x};
    }
  }

  lemma Finish<X>(place: map<X, Place>, held: map<nat, X>, queue: seq<X>, finished: seq<X>, t: nat)
    requires Accounted(place, held, queue, finished)
    requires t in held
    ensures Accounted(place[held[t] := Finished], held - {t}, queue, finished + [held[t]])
  {
    assert held[t] !in finished;
  }

  lemma AccountedNoDuplicates<X>(place: map<X, Place>, held: map<nat, X>, queue: seq<X>, finished: seq<X>)
    requires Accounted(place, held, queue, finished)
    ensures NoDuplicates(queue) && NoDuplicates(finished)
  {
  }

  lemma HolderPlace<X>(place: map<X, Place>, held: map<nat, X>, queue: seq<X>, finished: seq<X>, t: nat)
    requires Accounted(place, held, queue, finished) && t in held
    ensures held[t] in place && place[held[t]] == AtThread(t)
  {
  }

  /** A thread that goes on holding its object changes nothing. */
  lemma Stay<X>(place: map<X, Place>, held: map<nat, X>, queue: seq<X>, finished: seq<X>, t: nat)
    requires Accounted(place, held, queue, finished)
    ensures t in held ==> held[t := held[t]] == held && held[t] in place
    ensures t in held ==> place[held[t] := AtThread(t)] == place
    ensures t !in held ==> held - {t} == held
  {
  }

  /** An accounted object is in exactly one place, and there exactly once. */
  lemma ExactlyOnePlace<X>(place: map<X, Place>, held: map<nat, X>, queue: seq<X>, finished: seq<X>, x: X)
    requires Accounted(place, held, queue, finished)
    requires x in place
    ensures multiset(queue)[x] + multiset(finished)[x] <= 1
    ensures multiset(queue)[x] + multiset(finished)[x] == 0 <==> exists t :: t in held && held[t] == x
    ensures forall t, u :: t in held && u in held && held[t] == x && held[u] == x ==> t == u
  {
    CountNoDuplicates(queue, x);
    CountNoDuplicates(finished, x);
  }

  lemma {:induction false} CountNoDuplicates<X>(s: seq<X>, x: X)
    requires NoDuplicates(s)
    ensures multiset(s)[x] == if x in s then 1 else 0
  {
    if s == [] {
    } else {
      assert s == s[..|s| - 1] + [s[|s| - 1]];
      CountNoDuplicates(s[..|s| - 1], x);
    }
  }
}
