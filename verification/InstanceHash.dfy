/**
 * The adapters by device object (instance.c): 256 buckets, each a linked list that a successful
 * lookup reorders. The buckets must agree with a plain map from device to adapter.
 */
module InstanceHash {
  import opened Collections

  const N_INSTANCE_BUCKETS := 256

  /** A pointer, as the bytes that store it. */
  type Pointer = p: seq<bv8> | |p| == 4 || |p| == 8 witness [0, 0, 0, 0]

  function Xor(bytes: seq<bv8>): bv8 {
    if bytes == [] then 0 else Xor(bytes[..|bytes| - 1]) ^ bytes[|bytes| - 1]
  }

  function InstanceHashValue(addr: Pointer): (hash: nat)
    ensures hash < N_INSTANCE_BUCKETS
  {
    Xor(addr) as int
  }

  /** All bytes of the pointer count. */
  lemma HashOfBytes(p: Pointer)
    ensures |p| == 4 ==> InstanceHashValue(p) == (p[0] ^ p[1] ^ p[2] ^ p[3]) as int
    ensures |p| == 8 ==> InstanceHashValue(p) == (p[0] ^ p[1] ^ p[2] ^ p[3] ^ p[4] ^ p[5] ^ p[6] ^ p[7]) as int
  {
    hide Xor;
    XorOfFour(p);
    assert p[..|p|] == p;
    if |p| == 8 {
      XorNext(p, 4);
      XorNext(p, 5);
      XorNext(p, 6);
      XorNext(p, 7);
    }
  }

  lemma XorOfFour(p: seq<bv8>)
    requires |p| >= 4
    ensures Xor(p[..4]) == p[0] ^ p[1] ^ p[2] ^ p[3]
  {
    hide Xor;
    XorNext(p, 0);
    XorNext(p, 1);
    XorNext(p, 2);
    XorNext(p, 3);
  }

  lemma XorNext(p: seq<bv8>, k: nat)
    requires k < |p|
    ensures Xor(p[..k + 1]) == if k == 0 then p[0] else Xor(p[..k]) ^ p[k]
  {
    assert p[..k + 1][..k] == p[..k];
    assert 0 ^ p[0] == p[0];
  }

  class Adapter {
    const device: Pointer  // INSTANCE_KEY

    constructor (device: Pointer)
      ensures this.device == device
    {
      this.device := device;
    }
  }

  class Instance {
    var next: Instance?
    const adapter: Adapter

    constructor (adapter: Adapter, next: Instance?)
      ensures this.adapter == adapter && this.next == next
    {
      this.adapter, this.next := adapter, next;
    }
  }

  type Table = map<Pointer, Adapter>

  datatype Op =
    | Add(adapter: Adapter, gotLock: bool, memory: bool)
    | Remove(adapter: Adapter, gotLock: bool)
    | Lookup(device: Pointer, gotLock: bool)

  datatype Answer = Done(ok: bool) | Found(adapter: Adapter?)

  /** What each operation does to the plain map, and what it answers. */
  function Updated(table: Table, op: Op): Table {
    match op
    case Add(a, gotLock, memory) => if gotLock && memory then table[a.device := a] else table
    case Remove(a, gotLock) => if gotLock && Registered(table, a) then table - {a.device} else table
    case Lookup(_, _) => table
  }

  predicate Registered(table: Table, a: Adapter) {
    a.device in table && table[a.device] == a
  }

  function TableAfter(table: Table, script: seq<Op>): Table {
    if script == [] then table else Updated(TableAfter(table, script[..|script| - 1]), script[|script| - 1])
  }

  /** No adapter is added while another one, or it itself, is registered for its device. */
  ghost predicate AddsAreNew(table: Table, script: seq<Op>) {
    forall k :: 0 <= k < |script| && script[k].Add? ==> script[k].adapter.device !in TableAfter(table, script[..k])
  }

  //
  // What is registered, in terms of the operations and their answers alone
  //

  /** A successful add or remove of an adapter for the device. */
  predicate Changes(op: Op, answer: Answer, d: Pointer) {
    !op.Lookup? && op.adapter.device == d && answer == Done(true)
  }

  /** The j-th operation added an adapter for the device, and nothing changed that before the k-th. */
  ghost predicate LastAdd(script: seq<Op>, answers: seq<Answer>, d: Pointer, k: nat, j: nat)
    requires k <= |script| && k <= |answers|
  {
    && j < k && script[j].Add? && Changes(script[j], answers[j], d)
    && forall i :: j < i < k ==> !Changes(script[i], answers[i], d)
  }

  /** Nothing changed what is registered for the device before the k-th operation. */
  ghost predicate Unchanged(script: seq<Op>, answers: seq<Answer>, d: Pointer, k: nat)
    requires k <= |script| && k <= |answers|
  {
    forall i :: 0 <= i < k ==> !Changes(script[i], answers[i], d)
  }

  /**
   * By the k-th operation this is the adapter for the device, if any: the one added last, or
   * the one that was there from the beginning, if nothing has changed that since.
   */
  ghost predicate IsRegistered(first: Table, script: seq<Op>, answers: seq<Answer>, d: Pointer, k: nat, a: Adapter?)
    requires k <= |script| && k <= |answers|
  {
    && (forall j: nat :: LastAdd(script, answers, d, k, j) ==> script[j].adapter == a)
    && (Unchanged(script, answers, d, k) ==> a == if d in first then first[d] else null)
    && (a != null ==> Unchanged(script, answers, d, k) || exists j: nat :: LastAdd(script, answers, d, k, j))
  }

  /** The table has exactly what is registered. */
  ghost predicate Agrees(first: Table, script: seq<Op>, answers: seq<Answer>, k: nat, table: Table)
    requires k <= |script| && k <= |answers|
  {
    forall d :: IsRegistered(first, script, answers, d, k, Entry(table, d))
  }

  function Entry(table: Table, d: Pointer): Adapter? {
    if d in table then table[d] else null
  }

  function EntryAfter(before: Table, op: Op, answer: Answer, d: Pointer): Adapter? {
    if !Changes(op, answer, d) then Entry(before, d) else if op.Add? then op.adapter else null
  }

  lemma AgreesNext(first: Table, script: seq<Op>, answers: seq<Answer>, k: nat, answer: Answer, before: Table, after: Table)
    requires k == |answers| < |script| && Agrees(first, script, answers, k, before)
    requires forall d :: Entry(after, d) == EntryAfter(before, script[k], answer, d)
    ensures Agrees(first, script, answers + [answer], k + 1, after)
  {
    forall d
      ensures IsRegistered(first, script, answers + [answer], d, k + 1, Entry(after, d))
    {
      assert IsRegistered(first, script, answers, d, k, Entry(before, d));
      if Changes(script[k], answer, d) {
        ChangedJustNow(first, script, answers + [answer], d, k);
      } else {
        NotChangedNow(first, script, answers, answer, d, k, Entry(before, d));
      }
    }
  }

  lemma ChangedJustNow(first: Table, script: seq<Op>, answers: seq<Answer>, d: Pointer, k: nat)
    requires k < |script| && k < |answers| && Changes(script[k], answers[k], d)
    ensures IsRegistered(first, script, answers, d, k + 1, if script[k].Add? then script[k].adapter else null)
  {
    var next := k + 1;
    if script[k].Add? {
      assert LastAdd(script, answers, d, next, k);
    }
    forall j: nat | LastAdd(script, answers, d, next, j)
      ensures j == k
    {
    }
  }

  lemma NotChangedNow(first: Table, script: seq<Op>, answers: seq<Answer>, answer: Answer, d: Pointer, k: nat, a: Adapter?)
    requires k == |answers| < |script| && !Changes(script[k], answer, d)
    requires IsRegistered(first, script, answers, d, k, a)
    ensures IsRegistered(first, script, answers + [answer], d, k + 1, a)
  {
    var now := answers + [answer];
    assert forall i :: 0 <= i < k ==> now[i] == answers[i];
    forall j: nat
      ensures LastAdd(script, now, d, k + 1, j) <==> LastAdd(script, answers, d, k, j)
    {
    }
    assert Unchanged(script, now, d, k + 1) <==> Unchanged(script, answers, d, k);
  }

  /**
   * Every answer is what the history says: an add succeeds with lock and memory; a remove with
   * the lock, if the adapter is the one registered for its device; a lookup yields the one
   * registered, if it gets the lock and there is one.
   */
  ghost predicate AnswerIsHistory(first: Table, script: seq<Op>, answers: seq<Answer>, k: nat)
    requires k < |answers| <= |script|
  {
    match script[k]
    case Add(_, gotLock, memory) => answers[k] == Done(gotLock && memory)
    case Remove(a, gotLock) => answers[k] == Done(gotLock && IsRegistered(first, script, answers, a.device, k, a))
    case Lookup(d, gotLock) =>
      && answers[k].Found?
      && if gotLock then IsRegistered(first, script, answers, d, k, answers[k].adapter) else answers[k].adapter == null
  }

  ghost function At(s: seq<Instance>, i: nat): Instance? {
    if i < |s| then s[i] else null
  }

  /** `first` and the next fields thread exactly `chain`, without a cycle. */
  ghost predicate Chained(first: Instance?, chain: seq<Instance>)
    reads set e | e in chain
  {
    && NoDuplicates(chain)
    && first == At(chain, 0)
    && forall i {:trigger chain[i].next} :: 0 <= i < |chain| ==> chain[i].next == At(chain, i + 1)
  }

  ghost function Total(chains: seq<seq<Instance>>): nat {
    if chains == [] then 0 else Total(chains[..|chains| - 1]) + |chains[|chains| - 1]|
  }

  lemma {:induction false} TotalUpdate(chains: seq<seq<Instance>>, b: nat, chain: seq<Instance>)
    requires b < |chains|
    ensures Total(chains[b := chain]) == Total(chains) - |chains[b]| + |chain|
  {
    var last := |chains| - 1;
    if b == last {
      assert chains[b := chain][..last] == chains[..last];
    } else {
      assert chains[b := chain][..last] == chains[..last][b := chain];
      TotalUpdate(chains[..last], b, chain);
    }
  }

  /** Every entry is in the bucket of its hash, and is the one the table has for its device. */
  ghost predicate BucketOk(table: Table, chain: seq<Instance>, b: nat) {
    && NoDuplicates(chain)
    && (forall e :: e in chain ==> InstanceHashValue(e.adapter.device) == b && Registered(table, e.adapter))
    && (forall d, e :: d in chain && e in chain && d.adapter.device == e.adapter.device ==> d == e)
  }

  /** The table has nothing else. */
  ghost predicate Covered(table: Table, chains: seq<seq<Instance>>)
    requires |chains| == N_INSTANCE_BUCKETS
  {
    forall d {:trigger d in table} :: d in table ==>
      exists e :: e in chains[InstanceHashValue(d)] && e.adapter == table[d] && e.adapter.device == d
  }

  /** The buckets represent exactly the table. */
  ghost predicate Represents(table: Table, chains: seq<seq<Instance>>) {
    && |chains| == N_INSTANCE_BUCKETS
    && (forall b {:trigger chains[b]} :: 0 <= b < N_INSTANCE_BUCKETS ==> BucketOk(table, chains[b], b))
    && Covered(table, chains)
    && Total(chains) == |table|
  }

  lemma BucketsApart(table: Table, chains: seq<seq<Instance>>, h: nat)
    requires Represents(table, chains) && h < N_INSTANCE_BUCKETS
    ensures forall b, e :: 0 <= b < N_INSTANCE_BUCKETS && b != h && e in chains[b] ==> e !in chains[h]
  {
  }

  lemma AddBuckets(table: Table, chains: seq<seq<Instance>>, e: Instance, h: nat, b: nat)
    requires Represents(table, chains) && b < N_INSTANCE_BUCKETS
    requires e.adapter.device !in table && h == InstanceHashValue(e.adapter.device)
    ensures BucketOk(table[e.adapter.device := e.adapter], chains[h := [e] + chains[h]][b], b)
  {
    hide InstanceHashValue, Total, Covered;
    assert BucketOk(table, chains[b], b);
    assert forall x :: x in [e] + chains[h] <==> x == e || x in chains[h];
  }

  lemma AddCovers(table: Table, chains: seq<seq<Instance>>, e: Instance, h: nat)
    requires |chains| == N_INSTANCE_BUCKETS && Covered(table, chains)
    requires h == InstanceHashValue(e.adapter.device)
    ensures Covered(table[e.adapter.device := e.adapter], chains[h := [e] + chains[h]])
  {
    hide InstanceHashValue;
    assert forall x :: x in [e] + chains[h] <==> x == e || x in chains[h];
  }

  lemma AddRepresents(table: Table, chains: seq<seq<Instance>>, e: Instance, h: nat)
    requires Represents(table, chains)
    requires e.adapter.device !in table && h == InstanceHashValue(e.adapter.device)
    ensures Represents(table[e.adapter.device := e.adapter], chains[h := [e] + chains[h]])
  {
    hide InstanceHashValue, BucketOk, Covered, Total;
    var chains' := chains[h := [e] + chains[h]];
    TotalUpdate(chains, h, chains'[h]);
    AddCovers(table, chains, e, h);
    forall b | 0 <= b < N_INSTANCE_BUCKETS
      ensures BucketOk(table[e.adapter.device := e.adapter], chains'[b], b)
    {
      AddBuckets(table, chains, e, h, b);
    }
  }

  /**
   * Nothing keeps a second adapter for the same device out of its bucket. The buckets go on
   * representing a map exactly when the device is new.
   */
  lemma AddRepresentsExactlyWhen(table: Table, chains: seq<seq<Instance>>, e: Instance, h: nat,
                                 chains': seq<seq<Instance>>)
    requires Represents(table, chains) && h == InstanceHashValue(e.adapter.device) && e !in chains[h]
    requires chains' == chains[h := [e] + chains[h]]
    ensures (exists t: Table :: Represents(t, chains')) <==> e.adapter.device !in table
  {
    hide InstanceHashValue, Total;
    if e.adapter.device in table {
      var x :| x in chains[h] && x.adapter == table[e.adapter.device];
      forall t: Table
        ensures !Represents(t, chains')
      {
        assert x in chains'[h] && e in chains'[h];
        assert BucketOk(t, chains'[h], h) ==> e == x;
      }
    } else {
      AddRepresents(table, chains, e, h);
    }
  }

  lemma CutMembers(chain: seq<Instance>, k: nat)
    requires k < |chain| && NoDuplicates(chain)
    ensures NoDuplicates(CutOut(chain, k)) && |CutOut(chain, k)| == |chain| - 1
    ensures forall i :: 0 <= i < |chain| - 1 ==> CutOut(chain, k)[i] == chain[if i < k then i else i + 1]
    ensures forall e :: e in CutOut(chain, k) ==> e in chain && e != chain[k]
    ensures forall e :: e in chain && e != chain[k] ==> e in CutOut(chain, k)
  {
    WithoutOne(chain, k);
    WithoutMembers(chain, {chain[k]});
  }

  lemma RemoveBuckets(table: Table, chains: seq<seq<Instance>>, h: nat, k: nat, b: nat)
    requires Represents(table, chains) && b < N_INSTANCE_BUCKETS
    requires h < N_INSTANCE_BUCKETS && k < |chains[h]|
    ensures BucketOk(table - {chains[h][k].adapter.device}, chains[h := CutOut(chains[h], k)][b], b)
  {
    hide InstanceHashValue, CutOut, Total, Covered;
    assert BucketOk(table, chains[h], h);
    assert BucketOk(table, chains[b], b);
    CutMembers(chains[h], k);
  }

  lemma RemoveCovers(table: Table, chains: seq<seq<Instance>>, h: nat, k: nat)
    requires Represents(table, chains)
    requires h < N_INSTANCE_BUCKETS && k < |chains[h]|
    ensures Covered(table - {chains[h][k].adapter.device}, chains[h := CutOut(chains[h], k)])
  {
    hide InstanceHashValue, CutOut, Total;
    assert BucketOk(table, chains[h], h);
    CutMembers(chains[h], k);
  }

  lemma RemoveRepresents(table: Table, chains: seq<seq<Instance>>, h: nat, k: nat)
    requires Represents(table, chains)
    requires h < N_INSTANCE_BUCKETS && k < |chains[h]|
    ensures Represents(table - {chains[h][k].adapter.device}, chains[h := CutOut(chains[h], k)])
  {
    hide InstanceHashValue, CutOut, Covered, Total, NoDuplicates;
    var e := chains[h][k];
    var table' := table - {e.adapter.device};
    var chains' := chains[h := CutOut(chains[h], k)];
    assert BucketOk(table, chains[h], h);
    CutMembers(chains[h], k);
    hide BucketOk;
    TotalUpdate(chains, h, chains'[h]);
    assert table'.Keys == table.Keys - {e.adapter.device};
    RemoveCovers(table, chains, h, k);
    forall b | 0 <= b < N_INSTANCE_BUCKETS
      ensures BucketOk(table', chains'[b], b)
    {
      RemoveBuckets(table, chains, h, k, b);
    }
  }

  lemma MoveRepresents(table: Table, chains: seq<seq<Instance>>, h: nat, k: nat)
    requires Represents(table, chains)
    requires h < N_INSTANCE_BUCKETS && k < |chains[h]|
    ensures Represents(table, chains[h := [chains[h][k]] + CutOut(chains[h], k)])
  {
    hide InstanceHashValue, CutOut, Total;
    var e := chains[h][k];
    var chains' := chains[h := [e] + CutOut(chains[h], k)];
    assert BucketOk(table, chains[h], h);
    CutMembers(chains[h], k);
    TotalUpdate(chains, h, chains'[h]);
    assert forall x :: x in chains'[h] <==> x in chains[h];
    assert NoDuplicates(chains'[h]) by {
      var rest := CutOut(chains[h], k);
      assert e !in rest;
      assert forall i :: 0 < i <= |rest| ==> chains'[h][i] == rest[i - 1];
    }
    assert BucketOk(table, chains'[h], h);
    forall b | 0 <= b < N_INSTANCE_BUCKETS
      ensures BucketOk(table, chains'[b], b)
    {
      assert BucketOk(table, chains[b], b);
    }
  }

  class Instances {
    const list: array<Instance?>
    ghost var chains: seq<seq<Instance>>  // the list of each bucket
    ghost var table: Table
    ghost var entries: set<Instance>

    ghost predicate Valid()
      reads this, list, entries
    {
      && list.Length == |chains| == N_INSTANCE_BUCKETS
      && Represents(table, chains)
      && (forall b, e :: 0 <= b < N_INSTANCE_BUCKETS && e in chains[b] ==> e in entries)
      && forall b {:trigger chains[b]} :: 0 <= b < N_INSTANCE_BUCKETS ==>
           Chained(list[b], chains[b])
    }

    /** InitInstanceList, when the memory is there. */
    constructor ()
      ensures Valid() && fresh(list) && table == map[]
    {
      list := new Instance?[N_INSTANCE_BUCKETS](_ => null);
      chains := seq(N_INSTANCE_BUCKETS, _ => []);
      table, entries := map[], {};
      new;
      TotalOfEmpty(chains);
    }

    method NInstances(gotLock: seq<bool>) returns (n: int)
      requires Valid() && |gotLock| == N_INSTANCE_BUCKETS
      ensures n == if false in gotLock then -1 else |table|
    {
      n := 0;
      for i := 0 to N_INSTANCE_BUCKETS
        invariant forall b :: 0 <= b < i ==> gotLock[b]
        invariant n == Total(chains[..i])
      {
        if !gotLock[i] {
          return -1;
        }
        assert Chained(list[i], chains[i]);
        var current := list[i];
        ghost var k := 0;
        while current != null
          invariant k <= |chains[i]| && current == At(chains[i], k)
          invariant n == Total(chains[..i]) + k
          decreases |chains[i]| - k
        {
          n := n + 1;
          current := current.next;
          k := k + 1;
        }
        assert chains[..i + 1][..i] == chains[..i];
      }
      assert chains[..N_INSTANCE_BUCKETS] == chains;
    }

    /** AddAdapterToInstanceList. Nobody asks whether the device has an adapter already. */
    method AddAdapter(adapter: Adapter, gotLock: bool, memory: bool) returns (ret: bool)
      requires Valid()
      modifies this, list
      ensures ret <==> gotLock && memory
      ensures !ret ==> Valid() && table == old(table) && chains == old(chains)
      ensures ret && adapter.device !in old(table) ==> Valid() && table == old(table)[adapter.device := adapter]
      ensures ret ==> ((exists t: Table :: Represents(t, chains)) <==> adapter.device !in old(table))
      ensures fresh(entries - old(entries))
    {
      hide Represents, InstanceHashValue;
      var hash := InstanceHashValue(adapter.device);
      ret := false;
      if gotLock {
        if memory {
          var i := new Instance(adapter, list[hash]);
          list[hash] := i;
          ret := true;
          ghost var was := chains;
          chains := chains[hash := [i] + chains[hash]];
          entries := entries + {i};
          AddRepresentsExactlyWhen(table, was, i, hash, chains);
          if adapter.device !in table {
            AddRepresents(table, was, i, hash);
            table := table[adapter.device := adapter];
          }
        }
      }
    }

    /** RemoveAdapterFromInstanceList */
    method RemoveAdapter(adapter: Adapter, gotLock: bool) returns (ret: bool)
      requires Valid()
      modifies this`chains, this`table, list, entries`next
      ensures Valid()
      ensures ret <==> gotLock && adapter.device in old(table) && old(table)[adapter.device] == adapter
      ensures table == if ret then old(table) - {adapter.device} else old(table)
      // one entry leaves its bucket, and the order of all others is kept
      ensures ret ==> exists k: nat :: var h := InstanceHashValue(adapter.device);
        k < |old(chains)[h]| && old(chains)[h][k].adapter == adapter &&
        chains == old(chains)[h := CutOut(old(chains)[h], k)]
    {
      hide Covered, Total, InstanceHashValue;
      var hash := InstanceHashValue(adapter.device);
      ret := false;
      if gotLock {
        ghost var chain := chains[hash];
        assert Chained(list[hash], chain);
        ghost var k := 0;
        var current := list[hash];
        var prev: Instance? := null;
        while current != null
          invariant k <= |chain| && current == At(chain, k) && prev == if k == 0 then null else chain[k - 1]
          invariant forall i :: 0 <= i < k ==> chain[i].adapter != adapter
          decreases |chain| - k
        {
          if current.adapter == adapter {
            Unlink(hash, prev, current, k);
            ret := true;
            return;
          }
          prev := current;
          current := current.next;
          k := k + 1;
        }
        NotThere(table, chains, hash, adapter);
      }
    }

    lemma NotThere(table: Table, chains: seq<seq<Instance>>, hash: nat, adapter: Adapter)
      requires Represents(table, chains) && hash == InstanceHashValue(adapter.device)
      requires forall e :: e in chains[hash] ==> e.adapter != adapter
      ensures !Registered(table, adapter)
    {
    }

    /** Takes the entry at place `k` off its bucket. */
    method Unlink(hash: nat, prev: Instance?, current: Instance, ghost k: nat)
      requires Valid() && hash < N_INSTANCE_BUCKETS
      requires k < |chains[hash]| && current == chains[hash][k]
      requires prev == if k == 0 then null else chains[hash][k - 1]
      modifies this`chains, this`table, list, entries`next
      ensures Valid()
      ensures table == old(table) - {current.adapter.device}
      ensures chains == old(chains)[hash := CutOut(old(chains)[hash], k)]
    {
      hide BucketOk, Covered, Total, InstanceHashValue, CutOut, Represents;
      ghost var chain := chains[hash];
      assert Chained(list[hash], chain);
      assert current.next == At(chain, k + 1);
      BucketsApart(table, chains, hash);
      ghost var was := chains;
      assert prev != null ==> prev in chain;
      RemoveRepresents(table, chains, hash, k);
      CutMembers(chain, k);
      if prev != null {
        prev.next := current.next;
      } else {
        list[hash] := current.next;
      }
      table := table - {current.adapter.device};
      chains := chains[hash := CutOut(chain, k)];
      ChainedCut(list[hash], chain, k);
      forall b | 0 <= b < N_INSTANCE_BUCKETS
        ensures Chained(list[b], chains[b])
      {
        if b != hash {
          assert old(Chained(list[b], chains[b]));
          assert chains[b] == was[b] && prev !in was[b];
        }
      }
    }

    lemma ChainedCut(first: Instance?, chain: seq<Instance>, k: nat)
      requires k < |chain| && NoDuplicates(chain)
      requires first == if k == 0 then At(chain, 1) else chain[0]
      requires forall i :: 0 <= i < |chain| && i != k ==>
        chain[i].next == At(chain, if i + 1 == k then k + 1 else i + 1)
      ensures Chained(first, CutOut(chain, k))
    {
      hide CutOut;
      CutMembers(chain, k);
      var rest := CutOut(chain, k);
      forall i | 0 <= i < |rest|
        ensures rest[i].next == At(rest, i + 1)
      {
        assert rest[i] == chain[if i < k then i else i + 1];
      }
    }

    /** LookupAdapterInInstanceList */
    method LookupAdapter(device: Pointer, gotLock: bool) returns (ret: Adapter?)
      requires Valid()
      modifies this`chains, list, entries`next
      ensures Valid()
      ensures ret == if gotLock && device in table then table[device] else null
      // an entry that is found moves to the front of its bucket; nothing else changes
      ensures ret == null ==> chains == old(chains)
      ensures ret != null ==> exists k: nat :: var h := InstanceHashValue(device);
        k < |old(chains)[h]| && old(chains)[h][k].adapter == ret &&
        chains == old(chains)[h := [old(chains)[h][k]] + CutOut(old(chains)[h], k)]
    {
      hide Covered, Total, InstanceHashValue;
      var hash := InstanceHashValue(device);
      ret := null;
      if gotLock {
        ghost var chain := chains[hash];
        assert Chained(list[hash], chain);
        ghost var k := 0;
        var current := list[hash];
        var prev: Instance? := null;
        while current != null
          invariant k <= |chain| && current == At(chain, k) && prev == if k == 0 then null else chain[k - 1]
          invariant forall i :: 0 <= i < k ==> chain[i].adapter.device != device
          decreases |chain| - k
        {
          if device == current.adapter.device {
            if prev != null {
              MoveToFront(hash, prev, current, k);
            } else {
              assert [chain[0]] + CutOut(chain, 0) == chain;
              assert chains == chains[hash := chain];
            }
            ret := list[hash].adapter;
            return;
          }
          prev := current;
          current := current.next;
          k := k + 1;
        }
        NoneThere(table, chains, hash, device);
      }
    }

    lemma NoneThere(table: Table, chains: seq<seq<Instance>>, hash: nat, device: Pointer)
      requires Represents(table, chains) && hash == InstanceHashValue(device)
      requires forall e :: e in chains[hash] ==> e.adapter.device != device
      ensures device !in table
    {
    }

    /** Moves the entry at place `k` to the front of its bucket. */
    method MoveToFront(hash: nat, prev: Instance, current: Instance, ghost k: nat)
      requires Valid() && hash < N_INSTANCE_BUCKETS
      requires 0 < k < |chains[hash]| && current == chains[hash][k] && prev == chains[hash][k - 1]
      modifies this`chains, list, entries`next
      ensures Valid() && list[hash] == current
      ensures chains == old(chains)[hash := [current] + CutOut(old(chains)[hash], k)]
    {
      hide BucketOk, Covered, Total, InstanceHashValue, CutOut, Represents;
      ghost var chain := chains[hash];
      assert Chained(list[hash], chain);
      assert current.next == At(chain, k + 1);
      BucketsApart(table, chains, hash);
      ghost var was := chains;
      assert prev in chain && current in chain;
      MoveRepresents(table, chains, hash, k);
      CutMembers(chain, k);
      prev.next := current.next;
      current.next := list[hash];
      list[hash] := current;
      chains := chains[hash := [current] + CutOut(chain, k)];
      forall b | 0 <= b < N_INSTANCE_BUCKETS
        ensures Chained(list[b], chains[b])
      {
        if b == hash {
          Fronted(chain, k);
          assert forall i :: 0 <= i < |chains[b]| ==> chains[b][i].next == At(chains[b], i + 1);
        } else {
          assert old(Chained(list[b], chains[b]));
          assert chains[b] == was[b] && prev !in was[b] && current !in was[b];
        }
      }
    }

    lemma Fronted(chain: seq<Instance>, k: nat)
      requires k < |chain| && NoDuplicates(chain)
      ensures var moved := [chain[k]] + CutOut(chain, k);
        && |moved| == |chain| && NoDuplicates(moved)
        && (forall i :: 0 < i < |chain| ==> moved[i] == chain[if i <= k then i - 1 else i])
        && forall e :: e in moved ==> e in chain
    {
      hide CutOut;
      CutMembers(chain, k);
      var rest := CutOut(chain, k);
      assert chain[k] !in rest;
      assert forall i :: 0 < i < |chain| ==> ([chain[k]] + rest)[i] == rest[i - 1];
    }

    /**
     * Any sequence of operations that adds adapters for new devices only, with locks and memory
     * obtained or not: the buckets go on representing a plain map, which has exactly what is
     * registered, and every answer is what the history says.
     */
    method Serve(script: seq<Op>) returns (answers: seq<Answer>)
      requires Valid() && AddsAreNew(table, script)
      modifies this, list, entries`next
      ensures Valid() && |answers| == |script|
      ensures forall k :: 0 <= k < |script| ==> AnswerIsHistory(old(table), script, answers, k)
      ensures Agrees(old(table), script, answers, |script|, table)
    {
      hide Represents, Chained, Agrees, AnswerIsHistory, IsRegistered;
      answers := [];
      AgreesAtFirst(table, script);
      assert script[..0] == [];
      for n := 0 to |script|
        invariant Valid() && fresh(entries - old(entries)) && |answers| == n
        invariant table == TableAfter(old(table), script[..n])
        invariant forall k :: 0 <= k < n ==> AnswerIsHistory(old(table), script, answers, k)
        invariant Agrees(old(table), script, answers, n, table)
      {
        ghost var before := table;
        var answer := ServeOne(script[n]);
        Answered(old(table), script, answers, n, answer, before, table);
        forall k | 0 <= k < n
          ensures AnswerIsHistory(old(table), script, answers + [answer], k)
        {
          HistorySoFar(old(table), script, answers, answer, k);
        }
        assert script[..n + 1][..n] == script[..n];
        answers := answers + [answer];
      }
      assert script[..|script|] == script;
    }

    /** One operation. */
    method ServeOne(op: Op) returns (answer: Answer)
      requires Valid() && (op.Add? ==> op.adapter.device !in table)
      modifies this, list, entries`next
      ensures Valid() && fresh(entries - old(entries))
      ensures table == Updated(old(table), op) && AnswersTo(op, answer, old(table))
    {
      hide Represents, Chained;
      match op {
        case Add(a, gotLock, memory) =>
          var ok := AddAdapter(a, gotLock, memory);
          answer := Done(ok);
        case Remove(a, gotLock) =>
          var ok := RemoveAdapter(a, gotLock);
          answer := Done(ok);
        case Lookup(device, gotLock) =>
          var found := LookupAdapter(device, gotLock);
          answer := Found(found);
      }
    }
  }

  /** The answer that a map gives. */
  ghost predicate AnswersTo(op: Op, answer: Answer, table: Table) {
    match op
    case Add(_, gotLock, memory) => answer == Done(gotLock && memory)
    case Remove(a, gotLock) => answer == Done(gotLock && Registered(table, a))
    case Lookup(device, gotLock) => answer == Found(if gotLock && device in table then table[device] else null)
  }

  lemma AgreesAtFirst(first: Table, script: seq<Op>)
    ensures Agrees(first, script, [], 0, first)
  {
  }

  /** A map that has exactly what is registered answers by the history, and goes on having it. */
  lemma Answered(first: Table, script: seq<Op>, answers: seq<Answer>, k: nat, answer: Answer, before: Table, after: Table)
    requires k == |answers| < |script| && Agrees(first, script, answers, k, before)
    requires AnswersTo(script[k], answer, before) && after == Updated(before, script[k])
    ensures AnswerIsHistory(first, script, answers + [answer], k)
    ensures Agrees(first, script, answers + [answer], k + 1, after)
  {
    hide IsRegistered;
    AgreesNext(first, script, answers, k, answer, before, after);
    if !script[k].Add? {
      var d := if script[k].Remove? then script[k].adapter.device else script[k].device;
      assert IsRegistered(first, script, answers, d, k, Entry(before, d));
      SameSoFar(first, script, answers, answer, d, k, Entry(before, d));
      if script[k].Remove? {
        SameSoFar(first, script, answers, answer, d, k, script[k].adapter);
        OneRegistered(first, script, answers, d, k, Entry(before, d), script[k].adapter);
      }
    }
  }

  lemma OneRegistered(first: Table, script: seq<Op>, answers: seq<Answer>, d: Pointer, k: nat, a: Adapter?, b: Adapter?)
    requires k <= |answers| && k <= |script|
    requires IsRegistered(first, script, answers, d, k, a)
    ensures IsRegistered(first, script, answers, d, k, b) <==> a == b
  {
  }

  lemma SameSoFar(first: Table, script: seq<Op>, answers: seq<Answer>, answer: Answer, d: Pointer, k: nat, a: Adapter?)
    requires k <= |answers| && k <= |script|
    ensures IsRegistered(first, script, answers + [answer], d, k, a) <==> IsRegistered(first, script, answers, d, k, a)
  {
    var now := answers + [answer];
    assert forall i :: 0 <= i < k ==> now[i] == answers[i];
    forall j: nat
      ensures LastAdd(script, now, d, k, j) <==> LastAdd(script, answers, d, k, j)
    {
    }
  }

  lemma HistorySoFar(first: Table, script: seq<Op>, answers: seq<Answer>, answer: Answer, k: nat)
    requires k < |answers| < |script| && AnswerIsHistory(first, script, answers, k)
    ensures AnswerIsHistory(first, script, answers + [answer], k)
  {
    hide IsRegistered;
    assert (answers + [answer])[k] == answers[k];
    match script[k]
    case Add(_, _, _) =>
    case Remove(a, _) => SameSoFar(first, script, answers, answer, a.device, k, a);
    case Lookup(d, _) => SameSoFar(first, script, answers, answer, d, k, answers[k].adapter);
  }

  lemma {:induction false} TotalOfEmpty(chains: seq<seq<Instance>>)
    requires forall b :: 0 <= b < |chains| ==> chains[b] == []
    ensures Total(chains) == 0
  {
    if chains == [] {
    } else {
      TotalOfEmpty(chains[..|chains| - 1]);
    }
  }
}
