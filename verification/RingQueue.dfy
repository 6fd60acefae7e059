/** The circular queue of mem.c: a fixed array, the slot of the oldest item, and a count. */
module RingQueue {
  import opened Collections

  /** The slot that lies `i` places after `base` on a ring of `n` slots (QUEUE_ADD_INDEX). */
  function Slot(n: nat, base: nat, i: nat): (k: nat)
    requires base < n && i <= n
    ensures k < n
  {
    if base + i >= n then base + i - n else base + i
  }

  /** The `size` items of the ring that start at `base`, oldest first. */
  ghost function Window<T>(ring: seq<T>, base: nat, size: nat): (w: seq<T>)
    requires base < |ring| && size <= |ring|
    ensures |w| == size
  {
    seq(size, i requires 0 <= i < size => ring[Slot(|ring|, base, i)])
  }

  function Max(a: nat, b: nat): nat {
    if a > b then a else b
  }

  ghost function Largest(s: seq<nat>): (m: nat)
  {
    if s == [] then 0
    else Max(Largest(s[..|s| - 1]), s[|s| - 1])
  }

  /** `Largest` is an upper bound of a sequence, and one of its members. */
  lemma {:induction false} LargestIsMaximum(s: seq<nat>)
    ensures forall x :: x in s ==> x <= Largest(s)
    ensures s != [] ==> Largest(s) in s
  {
    if s == [] {
    } else {
      var last := |s| - 1;
      LargestIsMaximum(s[..last]);
      forall i | 0 <= i < |s|
        ensures s[i] <= Largest(s)
      {
        assert i < last ==> s[..last][i] in s[..last];
      }
      if last > 0 && Largest(s[..last]) > s[last] {
        var i :| 0 <= i < last && s[..last][i] == Largest(s[..last]);
        assert s[i] in s;
      } else {
        assert last == 0 ==> s[..last] == [];
        assert s[last] in s;
      }
    }
  }

  /**
   * The first `k` of the items `was` have been scanned and the `d` survivors moved down to
   * the start of the window; the items still to be scanned lie untouched from their slot on.
   */
  ghost predicate Compacting<T>(ring: seq<T>, base: nat, was: seq<T>, k: nat, d: nat, item: T)
  {
    && base < |ring|
    && d <= k <= |was| <= |ring|
    && Window(ring, base, d) == Without(was[..k], {item})
    && (k < |was| ==> Window(ring, Slot(|ring|, base, k), |was| - k) == was[k..])
  }

  /** One turn of the loop keeps `Compacting`, whether the scanned item goes or stays. */
  lemma CompactStep<T>(ring: seq<T>, base: nat, was: seq<T>, k: nat, d: nat, item: T)
    requires Compacting(ring, base, was, k, d, item) && k < |was|
    ensures was[k] == item ==> Compacting(ring, base, was, k + 1, d, item)
    ensures was[k] != item ==>
      Compacting(ring[Slot(|ring|, base, d) := was[k]], base, was, k + 1, d + 1, item)
    ensures ring[Slot(|ring|, base, k)] == was[k]
  {
    var src := Slot(|ring|, base, k);
    assert Window(ring, src, |was| - k)[0] == was[k..][0];
    assert was[..k + 1][..k] == was[..k];
    forall i | 0 < i < |was| - k
      ensures ring[Slot(|ring|, src, i)] == was[k + i]
    {
      assert Window(ring, src, |was| - k)[i] == was[k..][i];
    }
    var next := ring[Slot(|ring|, base, d) := was[k]];
    assert Window(next, base, d + 1) == Window(ring, base, d) + [was[k]];
    if k + 1 < |was| {
      var after := Slot(|ring|, base, k + 1);
      forall i | 0 <= i < |was| - k - 1
        ensures Slot(|ring|, after, i) == Slot(|ring|, src, i + 1)
      {
      }
      assert Window(ring, after, |was| - k - 1) == was[k + 1..];
      assert Window(next, after, |was| - k - 1) == was[k + 1..];
    }
  }

  lemma CompactStart<T>(ring: seq<T>, base: nat, size: nat, item: T)
    requires base < |ring| && size <= |ring|
    ensures Compacting(ring, base, Window(ring, base, size), 0, 0, item)
  {
  }

  lemma CompactDone<T>(ring: seq<T>, base: nat, was: seq<T>, d: nat, item: T)
    requires Compacting(ring, base, was, |was|, d, item)
    ensures base < |ring| && d <= |was| <= |ring| && Window(ring, base, d) == Without(was, {item})
  {
    assert was[..|was|] == was;
  }

  class Queue<T(0, ==)> {
    var base: nat
    var size: nat
    var maxSize: nat
    const capacity: nat
    const data: array<T>
    ghost var sizes: seq<nat>  // the size after QueueInit and after every later operation

    ghost predicate Valid()
      reads this
    {
      && 0 < capacity == data.Length
      && base < capacity
      && size <= capacity
      && sizes != []
      && sizes[|sizes| - 1] == size
      && maxSize == Largest(sizes)
    }

    ghost function Contents(): (s: seq<T>)
      requires Valid()
      reads this, data
      ensures |s| == size
    {
      Window(data[..], base, size)
    }

    /** QueueInit */
    constructor (capacity: nat)
      requires 0 < capacity
      ensures Valid() && fresh(data) && this.capacity == capacity
      ensures Contents() == [] && sizes == [0]
    {
      this.capacity := capacity;
      data := new T[capacity];
      base, size, maxSize := 0, 0, 0;
      sizes := [0];
      new;
      assert sizes[..0] == [];
    }

    method Push(item: T) returns (r: Option<T>)
      requires Valid()
      modifies this, data
      ensures Valid()
      ensures r == if |old(Contents())| < capacity then Some(item) else None
      ensures Contents() == if r.Some? then old(Contents()) + [item] else old(Contents())
      ensures sizes == old(sizes) + [size]
    {
      if size == capacity {
        sizes := sizes + [size];
        SizeSeen(old(sizes), size);
        return None;
      }
      var dest := Slot(capacity, base, size);
      data[dest] := item;
      size := size + 1;
      maxSize := Max(maxSize, size);
      sizes := sizes + [size];
      assert sizes[..|sizes| - 1] == old(sizes);
      return Some(item);
    }

    method Pop() returns (r: Option<T>)
      requires Valid()
      modifies this
      ensures Valid()
      ensures r == if old(Contents()) == [] then None else Some(old(Contents())[0])
      ensures Contents() == if r.Some? then old(Contents())[1..] else []
      ensures sizes == old(sizes) + [size]
    {
      if size == 0 {
        sizes := sizes + [size];
        SizeSeen(old(sizes), size);
        return None;
      }
      var oldbase := base;
      base := Slot(capacity, base, 1);
      size := size - 1;
      maxSize := Max(maxSize, size);
      sizes := sizes + [size];
      assert sizes[..|sizes| - 1] == old(sizes);
      return Some(data[oldbase]);
    }

    /** QueueExtract: the array is compacted in place, through two indices that wrap around. */
    method Extract(item: T) returns (r: Option<T>)
      requires Valid()
      modifies this, data
      ensures Valid() && base == old(base)
      ensures r == if item in old(Contents()) then Some(item) else None
      ensures Contents() == Without(old(Contents()), {item})
      ensures sizes == old(sizes) + [size]
    {
      hide Window, Largest, Without, Compacting;
      ghost var was := Contents();
      CompactStart(data[..], base, size, item);
      var src, dest, count, n := base, base, size, 0;
      ghost var k := 0;
      while count > 0
        invariant 0 <= n <= k && 0 <= count && k + count == |was| && size == |was| - n
        invariant base == old(base) && maxSize == old(maxSize) && sizes == old(sizes)
        invariant src == Slot(capacity, base, k) && dest == Slot(capacity, base, k - n)
        invariant Compacting(data[..], base, was, k, k - n, item)
      {
        count := count - 1;
        ghost var ring := data[..];
        CompactStep(ring, base, was, k, k - n, item);
        if item == data[src] {
          n := n + 1;
          size := size - 1;
        } else {
          data[dest] := data[src];
          assert data[..] == ring[dest := was[k]];
          dest := Slot(capacity, dest, 1);
        }
        src := Slot(capacity, src, 1);
        k := k + 1;
      }
      CompactDone(data[..], base, was, k - n, item);
      WithoutShortens(was, item);
      sizes := sizes + [size];
      SizeSeen(old(sizes), size);
      r := if n > 0 then Some(item) else None;
    }
  }

  /** A size that is not above the last one seen leaves the high-water mark where it was. */
  lemma SizeSeen(sizes: seq<nat>, size: nat)
    requires sizes != [] && size <= sizes[|sizes| - 1]
    ensures Largest(sizes + [size]) == Largest(sizes)
  {
    assert (sizes + [size])[..|sizes|] == sizes;
  }
}
