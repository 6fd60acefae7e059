/**
 * Packets in chains of buffers (tuntap.cc): a written packet is cut into mbufs, a read one is
 * put together from them.
 */
module MbufChain {
  import opened Bytes
  import opened Collections

  datatype Errno = ENOMEM | EFAULT

  /** A buffer of maxlen bytes, of which the first `len` are in use. */
  class Mbuf {
    const data: array<byte>
    var len: nat
    var next: Mbuf?

    constructor (maxlen: nat)
      ensures data.Length == maxlen && len == 0 && next == null && fresh(data)
    {
      data := new byte[maxlen];
      len, next := 0, null;
    }
  }

  /**
   * `first` and the next fields thread exactly `chain`, whose buffers share no storage and hold
   * `parts`.
   */
  ghost predicate Holds(first: Mbuf?, chain: seq<Mbuf>, parts: seq<seq<byte>>)
    reads chain, set m | m in chain :: m.data
  {
    && |chain| == |parts|
    && first == (if chain == [] then null else chain[0])
    && (forall i {:trigger chain[i].next} :: 0 <= i < |chain| ==>
          chain[i].next == if i + 1 < |chain| then chain[i + 1] else null)
    && (forall i :: 0 <= i < |chain| ==>
          chain[i].len == |parts[i]| <= chain[i].data.Length && chain[i].data[..chain[i].len] == parts[i])
    && (forall i, j :: 0 <= i < j < |chain| ==> chain[i] != chain[j] && chain[i].data != chain[j].data)
  }

  ghost predicate IsLast(mb: Mbuf, chain: seq<Mbuf>) {
    chain != [] && mb == chain[|chain| - 1]
  }

  function Sum(s: seq<nat>): nat {
    if s == [] then 0 else Sum(s[..|s| - 1]) + s[|s| - 1]
  }

  /**
   * How a packet of `size` bytes is cut into buffers of the given capacities: every buffer but
   * the last is full and leaves data and room below the MTU; the last takes what there is, at
   * most the MTU; and the cutting stops only at the end of the data or at the MTU.
   */
  ghost predicate Cut(parts: seq<seq<byte>>, caps: seq<nat>, size: nat, mtu: nat) {
    && 0 < |parts| <= |caps|
    && |Concat(parts)| <= size
    && (|Concat(parts)| == size || |Concat(parts)| >= mtu)
    && (forall i :: 0 <= i < |parts| - 1 ==> |parts[i]| == caps[i])
    && var last := |parts| - 1; var before := |Concat(parts[..last])|;
      && (last > 0 ==> before < mtu && before < size)
      && before <= size && |parts[last]| == Min(mtu, Min(size - before, caps[last]))
  }

  /** uiomove: the next `n` bytes of the user's data, to the start of the buffer. */
  method Uiomove(mb: Mbuf, n: nat, user: seq<byte>, pos: nat)
    requires n <= mb.data.Length && pos + n <= |user|
    modifies mb.data
    ensures mb.data[..n] == user[pos..pos + n]
    ensures mb.data[n..] == old(mb.data[n..])
  {
    forall i | 0 <= i < n {
      mb.data[i] := user[pos + i];
    }
  }

  lemma ConcatLast(parts: seq<seq<byte>>, part: seq<byte>)
    ensures Concat(parts + [part]) == Concat(parts) + part
  {
    assert (parts + [part])[..|parts|] == parts;
  }

  /** Full buffers that hold the data so far, with data left and room below the MTU. */
  ghost predicate Going(parts: seq<seq<byte>>, user: seq<byte>, copied: nat, mtu: nat, caps: seq<nat>) {
    && |parts| < |caps| && copied <= |user|
    && (forall i :: 0 <= i < |parts| ==> |parts[i]| == caps[i])
    && Concat(parts) == user[..copied]
    && copied == Sum(caps[..|parts|])
    && (parts != [] ==> copied < mtu && copied < |user|)
  }

  lemma Starts(user: seq<byte>, mtu: nat, caps: seq<nat>)
    requires caps != []
    ensures Going([], user, 0, mtu, caps)
  {
  }

  /**
   * The error of a write: EFAULT when uiomove stops working before the data is there or the MTU
   * is reached; ENOMEM when there is no buffer at all, or they run out first.
   */
  ghost predicate ErrorIs(err: Option<Errno>, size: nat, mtu: nat, caps: seq<nat>, moves: nat) {
    && (err == Some(EFAULT) <==>
          moves < |caps| && size > 0 && (moves == 0 || Sum(caps[..moves]) < Min(size, mtu)))
    && (err == Some(ENOMEM) <==> caps == [] || (moves >= |caps| && Sum(caps) < Min(size, mtu)))
  }

  lemma ErrorMeans(err: Option<Errno>, user: seq<byte>, mtu: nat, caps: seq<nat>, moves: nat)
    requires ErrorIs(err, |user|, mtu, caps, moves)
    ensures err == Some(EFAULT) <==>
      moves < |caps| && user != [] && (moves == 0 || Sum(caps[..moves]) < Min(|user|, mtu))
    ensures err == Some(ENOMEM) <==> caps == [] || (moves >= |caps| && Sum(caps) < Min(|user|, mtu))
  {
  }

  lemma NoBuffers(size: nat, mtu: nat, moves: nat)
    ensures ErrorIs(Some(ENOMEM), size, mtu, [], moves)
  {
  }

  /** A move that fails while data is left. */
  lemma MoveFails(parts: seq<seq<byte>>, user: seq<byte>, copied: nat, mtu: nat, caps: seq<nat>)
    requires Going(parts, user, copied, mtu, caps) && copied < |user|
    ensures ErrorIs(Some(EFAULT), |user|, mtu, caps, |parts|)
  {
  }

  /** The chunk that the next buffer takes. */
  function Chunk(user: seq<byte>, copied: nat, mtu: nat, cap: nat): (part: seq<byte>)
    requires copied <= |user|
    ensures |part| == Min(mtu, Min(|user| - copied, cap))
  {
    user[copied..copied + Min(mtu, Min(|user| - copied, cap))]
  }

  lemma ChunkIs(user: seq<byte>, copied: nat, mtu: nat, cap: nat)
    requires copied <= |user|
    ensures var n := Min(mtu, Min(|user| - copied, cap));
      && n <= |user| - copied && n <= cap
      && |Chunk(user, copied, mtu, cap)| == n && Chunk(user, copied, mtu, cap) == user[copied..copied + n]
  {
  }

  /** The copying ends after a chunk that reaches the end of the data or the MTU... */
  lemma Ends(parts: seq<seq<byte>>, user: seq<byte>, copied: nat, mtu: nat, caps: seq<nat>, moves: nat)
    requires Going(parts, user, copied, mtu, caps)
    requires moves > |parts| || (parts == [] && user == [])
    requires var copied' := copied + |Chunk(user, copied, mtu, caps[|parts|])|; copied' >= |user| || copied' >= mtu
    ensures var part := Chunk(user, copied, mtu, caps[|parts|]);
      && copied + |part| <= |user| && Concat(parts + [part]) == user[..copied + |part|]
      && Cut(parts + [part], caps, |user|, mtu)
      && ErrorIs(None, |user|, mtu, caps, moves)
  {
    hide Sum;
    var part := Chunk(user, copied, mtu, caps[|parts|]);
    assert user[..copied] + part == user[..copied + |part|];
    ConcatLast(parts, part);
    assert Cut(parts + [part], caps, |user|, mtu) by {
      assert (parts + [part])[..|parts|] == parts;
    }
    forall m | |parts| < m <= |caps|
      ensures Sum(caps[..m]) >= Min(|user|, mtu)
    {
      CutNeeds(parts + [part], caps, |user|, mtu, m);
    }
    assert caps[..|caps|] == caps;
  }

  /** ...and goes on after any other, which fills its buffer, if there is another buffer. */
  lemma GoesOn(parts: seq<seq<byte>>, user: seq<byte>, copied: nat, mtu: nat, caps: seq<nat>, moves: nat)
    requires Going(parts, user, copied, mtu, caps) && moves > |parts|
    requires var copied' := copied + |Chunk(user, copied, mtu, caps[|parts|])|; copied' < |user| && copied' < mtu
    ensures var part := Chunk(user, copied, mtu, caps[|parts|]);
      && |part| == caps[|parts|]
      && if |parts| + 1 < |caps| then Going(parts + [part], user, copied + |part|, mtu, caps)
         else ErrorIs(Some(ENOMEM), |user|, mtu, caps, moves)
  {
    var part := Chunk(user, copied, mtu, caps[|parts|]);
    ConcatLast(parts, part);
    var k := |parts| + 1;
    assert caps[..k][..k - 1] == caps[..k - 1];
    assert k == |caps| ==> caps[..k] == caps;
  }

  /** mbuf_gethdr, and mbuf_setlen(first, 0) */
  method FirstMbuf(cap: nat) returns (first: Mbuf)
    ensures fresh(first) && fresh(first.data) && first.data.Length == cap
    ensures Holds(first, [first], [] + [[]]) && IsLast(first, [first])
  {
    first := new Mbuf(cap);
  }

  /** The next `n` bytes go into the last buffer, so far empty. */
  method Fill(first: Mbuf, ghost chain: seq<Mbuf>, ghost parts: seq<seq<byte>>, mb: Mbuf,
              n: nat, user: seq<byte>, copied: nat)
    requires Holds(first, chain, parts + [[]]) && IsLast(mb, chain)
    requires n <= mb.data.Length && copied + n <= |user|
    modifies mb`len, mb.data
    ensures Holds(first, chain, parts + [user[copied..copied + n]])
  {
    Uiomove(mb, n, user, copied);
    mb.len := mb.len + n;
    assert mb.data[..n] == user[copied..copied + n];
  }

  /** A new empty buffer at the end of the chain. */
  method Extend(first: Mbuf, ghost chain: seq<Mbuf>, ghost parts: seq<seq<byte>>, mb: Mbuf, cap: nat)
      returns (next: Mbuf)
    requires Holds(first, chain, parts) && IsLast(mb, chain)
    modifies mb`next
    ensures fresh(next) && fresh(next.data) && next.data.Length == cap
    ensures Holds(first, chain + [next], parts + [[]]) && IsLast(next, chain + [next])
  {
    next := new Mbuf(cap);
    mb.next := next;
  }

  /**
   * cdev_write up to the packet's hand-over, on an interface that is up. `caps` are the sizes of
   * the buffers that the allocator has left, and uiomove fails once it has worked `moves` times.
   */
  method CdevWrite(user: seq<byte>, mtu: nat, caps: seq<nat>, moves: nat)
      returns (err: Option<Errno>, first: Mbuf?, copied: nat, ghost chain: seq<Mbuf>, ghost parts: seq<seq<byte>>)
    ensures err == None ==>
      && first != null && Holds(first, chain, parts)
      && copied <= |user| && Concat(parts) == user[..copied]
      && Cut(parts, caps, |user|, mtu)
    ensures err == Some(EFAULT) <==>
      moves < |caps| && user != [] && (moves == 0 || Sum(caps[..moves]) < Min(|user|, mtu))
    ensures err == Some(ENOMEM) <==> caps == [] || (moves >= |caps| && Sum(caps) < Min(|user|, mtu))
  {
    hide Holds, Cut, Sum, Concat, Going, Chunk, ErrorIs, Min, IsLast;
    chain, parts, copied := [], [], 0;
    if |caps| == 0 {
      NoBuffers(|user|, mtu, moves);
      ErrorMeans(Some(ENOMEM), user, mtu, caps, moves);
      return Some(ENOMEM), null, 0, [], [];
    }
    first := FirstMbuf(caps[0]);
    var mlen := first.data.Length;
    var mb: Mbuf, got, moved := first, 1, 0;
    chain := [first];
    Starts(user, mtu, caps);
    while copied < |user|
      invariant got == |parts| + 1 == moved + 1 <= |caps|
      invariant Holds(first, chain, parts + [[]]) && IsLast(mb, chain) && fresh(mb) && fresh(mb.data)
      invariant mlen == mb.data.Length == caps[got - 1]
      invariant copied <= |user| && Going(parts, user, copied, mtu, caps) && moved <= moves
      invariant copied == |user| ==> parts == [] && user == []
      decreases |caps| - got
    {
      var chunkLen := Min(mtu, Min(|user| - copied, mlen));
      if moved == moves {
        MoveFails(parts, user, copied, mtu, caps);
        ErrorMeans(Some(EFAULT), user, mtu, caps, moves);
        return Some(EFAULT), null, copied, [], [];
      }
      ChunkIs(user, copied, mtu, mlen);
      ghost var before := parts;
      parts := parts + [Chunk(user, copied, mtu, mlen)];
      Fill(first, chain, before, mb, chunkLen, user, copied);
      assert Holds(first, chain, parts);
      moved := moved + 1;
      mlen := mlen - chunkLen;
      if copied + chunkLen >= |user| || copied + chunkLen >= mtu {
        Ends(before, user, copied, mtu, caps, moves);
        ErrorMeans(None, user, mtu, caps, moves);
        return None, first, copied + chunkLen, chain, parts;
      }
      GoesOn(before, user, copied, mtu, caps, moves);
      copied := copied + chunkLen;
      if mlen == 0 {
        if got == |caps| {
          ErrorMeans(Some(ENOMEM), user, mtu, caps, moves);
          return Some(ENOMEM), null, copied, [], [];
        }
        mb := Extend(first, chain, parts, mb, caps[got]);
        mlen := mb.data.Length;
        chain := chain + [mb];
        got := got + 1;
      }
    }
    ChunkIs(user, copied, mtu, mlen);
    Ends(parts, user, copied, mtu, caps, moves);
    assert Chunk(user, copied, mtu, caps[|parts|]) == [];
    ErrorMeans(None, user, mtu, caps, moves);
    parts := parts + [[]];
    err := None;
  }

  /**
   * cdev_read from the packet's first buffer on: the reader gets the start of the packet, as
   * much as there is room for, and the rest is dropped. uiomove fails once it has worked `moves`
   * times, and that is an error exactly when it happens before the packet or the room ends.
   */
  method CdevRead(first: Mbuf, ghost chain: seq<Mbuf>, ghost parts: seq<seq<byte>>, room: nat, moves: nat)
      returns (err: Option<Errno>, out: seq<byte>)
    requires Holds(first, chain, parts) && chain != []
    ensures err == None || err == Some(EFAULT)
    ensures err == Some(EFAULT) <==> moves < |chain| && (moves == 0 || |Concat(parts[..moves])| < room)
    ensures err == None ==> out == Concat(parts)[..Min(room, |Concat(parts)|)]
    ensures err != None ==> out == Concat(parts[..moves])
  {
    hide Concat, Holds;
    out := [];
    var cur: Mbuf? := first;
    var moved := 0;
    NoneYet(parts);
    InChain(first, chain, parts, 0);
    while true
      invariant moved < |chain| && cur == chain[moved] && moved <= moves
      invariant out == Concat(parts[..moved]) && |out| <= room && (moved > 0 ==> |out| < room)
      decreases |chain| - moved
    {
      if moved == moves {
        return Some(EFAULT), out;
      }
      OneMore(parts, moved, out, room, moves);
      InChain(first, chain, parts, moved);
      var chunkLen := Min(cur.len, room - |out|);
      out := out + cur.data[..chunkLen];
      cur := cur.next;
      moved := moved + 1;
      if !(room - |out| > 0 && cur != null) {
        return None, out;
      }
    }
  }

  lemma NoneYet(parts: seq<seq<byte>>)
    ensures Concat(parts[..0]) == []
  {
  }

  /** What the k-th buffer of a chain holds, and what follows it. */
  lemma InChain(first: Mbuf?, chain: seq<Mbuf>, parts: seq<seq<byte>>, k: nat)
    requires Holds(first, chain, parts) && k < |chain|
    ensures |chain| == |parts| && first == chain[0] && chain[k].len == |parts[k]| <= chain[k].data.Length
    ensures chain[k].data[..chain[k].len] == parts[k]
    ensures forall n :: 0 <= n <= |parts[k]| ==> chain[k].data[..n] == parts[k][..n]
    ensures chain[k].next == if k + 1 < |chain| then chain[k + 1] else null
  {
    forall n | 0 <= n <= |parts[k]|
      ensures chain[k].data[..n] == parts[k][..n]
    {
      assert chain[k].data[..n] == chain[k].data[..chain[k].len][..n];
    }
  }

  /** The reader with one more buffer: part of it fills the room, and no further move is made. */
  lemma OneMore(parts: seq<seq<byte>>, k: nat, out: seq<byte>, room: nat, moves: nat)
    requires k < |parts| && out == Concat(parts[..k]) && |out| <= room && k < moves
    ensures var n := Min(|parts[k]|, room - |out|); var now := out + parts[k][..n];
      && (|now| < room ==> now == Concat(parts[..k + 1]))
      && (|now| < room && k + 1 == |parts| ==> now == Concat(parts))
      && (|now| == room ==> room <= |Concat(parts)| && now == Concat(parts)[..room])
      && (|now| == room && moves < |parts| ==> |Concat(parts[..moves])| >= room)
  {
    assert parts[..k + 1][..k] == parts[..k];
    assert k + 1 == |parts| ==> parts[..k + 1] == parts;
    ConcatPrefix(parts, k + 1);
    if moves < |parts| {
      assert parts[..moves][..k + 1] == parts[..k + 1];
      ConcatPrefix(parts[..moves], k + 1);
    }
  }

  lemma {:induction false} ConcatPrefix(parts: seq<seq<byte>>, k: nat)
    requires k <= |parts|
    ensures Concat(parts[..k]) <= Concat(parts)
  {
    var last := |parts| - 1;
    if k == |parts| {
      assert parts[..k] == parts;
    } else {
      assert parts[..last][..k] == parts[..k];
      ConcatPrefix(parts[..last], k);
    }
  }

  lemma {:induction false} SumOfFull(parts: seq<seq<byte>>, caps: seq<nat>, k: nat)
    requires k <= |parts| && k <= |caps| && forall i :: 0 <= i < k ==> |parts[i]| == caps[i]
    ensures |Concat(parts[..k])| == Sum(caps[..k])
  {
    if k == 0 {
    } else {
      assert parts[..k][..k - 1] == parts[..k - 1] && caps[..k][..k - 1] == caps[..k - 1];
      SumOfFull(parts, caps, k - 1);
    }
  }

  lemma {:induction false} SumMonotone(caps: seq<nat>, j: nat, k: nat)
    requires j <= k <= |caps|
    ensures Sum(caps[..j]) <= Sum(caps[..k])
    ensures j < k ==> Sum(caps[..j]) + caps[k - 1] <= Sum(caps[..k])
  {
    if j == k {
    } else {
      assert caps[..k][..k - 1] == caps[..k - 1];
      SumMonotone(caps, j, k - 1);
    }
  }

  /** The lengths of a cut: full buffers, then the last one. */
  lemma CutLengths(parts: seq<seq<byte>>, caps: seq<nat>, size: nat, mtu: nat)
    requires Cut(parts, caps, size, mtu)
    ensures var last := |parts| - 1;
      && |Concat(parts)| == Sum(caps[..last]) + |parts[last]|
      && |Concat(parts[..last])| == Sum(caps[..last])
      && Sum(caps[..last]) + caps[last] == Sum(caps[..|parts|]) <= Sum(caps)
  {
    var last := |parts| - 1;
    SumOfFull(parts, caps, last);
    assert caps[..|parts|][..last] == caps[..last];
    assert caps[..|caps|] == caps;
    SumMonotone(caps, |parts|, |caps|);
  }

  lemma CutNeeds(parts: seq<seq<byte>>, caps: seq<nat>, size: nat, mtu: nat, m: nat)
    requires Cut(parts, caps, size, mtu) && |parts| <= m <= |caps|
    ensures Sum(caps[..m]) >= Min(size, mtu)
  {
    CutLengths(parts, caps, size, mtu);
    SumMonotone(caps, |parts|, m);
  }

  /** A packet exceeds the MTU by less than its last buffer takes. */
  lemma CopiedBound(parts: seq<seq<byte>>, caps: seq<nat>, size: nat, mtu: nat)
    requires Cut(parts, caps, size, mtu) && mtu >= 1
    ensures |Concat(parts)| < mtu + Min(mtu, caps[|parts| - 1])
  {
    assert |parts| == 1 ==> parts[..0] == [];
  }

  /**
   * The MTU is kept exactly when the data is that short, or the first buffer holds a whole
   * MTU, or some of the first buffers hold exactly an MTU together.
   */
  lemma WithinMtuExactlyWhen(parts: seq<seq<byte>>, caps: seq<nat>, size: nat, mtu: nat)
    requires Cut(parts, caps, size, mtu) && forall i :: 0 <= i < |caps| ==> caps[i] > 0
    ensures |Concat(parts)| <= mtu <==>
      size <= mtu || caps[0] >= mtu || exists k :: 0 < k <= |caps| && Sum(caps[..k]) == mtu
  {
    CutLengths(parts, caps, size, mtu);
    var last := |parts| - 1;
    assert caps[..1][..0] == [];
    if last > 0 {
      SumMonotone(caps, 1, last);
    }
    forall k | 0 < k <= |caps| && Sum(caps[..k]) == mtu
      ensures |Concat(parts)| <= mtu
    {
      if k <= last {
        SumMonotone(caps, k, last);
      } else {
        SumMonotone(caps, last + 1, k);
      }
    }
  }

  /** So a packet can be longer than the MTU: two buffers of 2 bytes, and an MTU of 3. */
  lemma MtuExceeded()
    ensures Cut([[1, 2], [3, 4]], [2, 2], 4, 3) && |Concat([[1, 2], [3, 4]])| == 4
  {
    var parts: seq<seq<byte>> := [[1, 2], [3, 4]];
    assert parts[..1] == [[1, 2]] && parts[..1][..0] == [];
    assert Concat(parts[..1]) == [1, 2];
    assert Concat(parts) == [1, 2, 3, 4];
  }
}
