/**
 * The streams of the Solaris TUN/TAP driver (tun.c). Every open stream is on the driver's list
 * through s_next; a stream attached to an interface (PPA) is on that PPA's list as well,
 * through p_next. The stream that created a PPA controls it and is on no PPA's list.
 */
module TunStreams {
  import opened Collections
  import opened MinorNumbers
  import opened StreamProtocol

  /** struct tunstr */
  class Str {
    var sNext: Str?
    var pNext: Str?
    var ppa: Ppa?
    var control: bool  // TUN_CONTROL
    var state: DlState
    var sap: nat
    const rq: nat
    const minor: nat
    ghost const name: nat  // the opens before its own

    constructor (rq: nat, minor: nat, ghost name: nat)
      ensures sNext == null && pNext == null && ppa == null && !control && state == Unattached && sap == 0
      ensures this.rq == rq && this.minor == minor && this.name == name
    {
      sNext, pNext, ppa, control, state, sap := null, null, null, false, Unattached, 0;
      this.rq, this.minor, this.name := rq, minor, name;
    }
  }

  /** struct tunppa */
  class Ppa {
    const id: nat
    var rq: nat
    var pStr: Str?
    ghost var members: seq<Str>  // the list that starts at pStr
    ghost var owner: Str?        // the control stream

    constructor (id: nat)
      ensures this.id == id && pStr == null && members == [] && owner == null
    {
      this.id := id;
      rq, pStr, members, owner := 0, null, [], null;
    }
  }

  /** The stream at place `i` of a list, null at its end. */
  ghost function At(s: seq<Str>, i: nat): Str? {
    if i < |s| then s[i] else null
  }

  /** The minor numbers along a list of streams. */
  ghost function Minors(s: seq<Str>): (ms: seq<nat>)
    ensures |ms| == |s| && forall i :: 0 <= i < |s| ==> ms[i] == s[i].minor
  {
    seq(|s|, i requires 0 <= i < |s| => s[i].minor)
  }

  class Driver {
    var tunStr: Str?
    const tunPpa: array<Ppa?>
    ghost var streams: seq<Str>  // the list that starts at tunStr
    ghost var births: nat        // the opens so far

    ghost function Ppas(): set<Ppa>
      reads tunPpa
    {
      set p: Ppa | p in tunPpa[..]
    }

    /** tun_str and the s_next fields thread exactly the list `streams`, without a cycle. */
    ghost predicate Threaded()
      reads this`tunStr, this`streams, streams`sNext
    {
      && NoDuplicates(streams)
      && tunStr == At(streams, 0)
      && forall i {:trigger streams[i].sNext} :: 0 <= i < |streams| ==> streams[i].sNext == At(streams, i + 1)
    }

    /**
     * What holds of an open stream: its PPA is in the table; it is on that PPA's list, or
     * controls it; and it is past UNATTACHED only if it is on the list.
     */
    ghost predicate StreamOk(s: Str)
      reads s`ppa, s`control, s`state, tunPpa, Ppas()`owner, Ppas()`members
    {
      && (s.ppa != null ==>
            && s.ppa.id < tunPpa.Length && tunPpa[s.ppa.id] == s.ppa
            && (if s.control then s.ppa.owner == s else s in s.ppa.members))
      && (s.ppa == null ==> !s.control)
      && (s.state != Unattached ==> s.ppa != null && !s.control)
    }

    /** `first` and the p_next fields thread exactly the list `s`, without a cycle. */
    ghost predicate PList(first: Str?, s: seq<Str>, open: set<Str>)
      reads open`pNext
    {
      && NoDuplicates(s)
      && first == At(s, 0)
      && (forall m :: m in s ==> m in open)
      && forall i {:trigger s[i].pNext} :: 0 <= i < |s| ==> s[i].pNext == At(s, i + 1)
    }

    /**
     * What holds of a PPA: its control stream is open; p_str and the p_next fields thread
     * exactly its members, which are open streams that point to it and control nothing.
     */
    ghost predicate PpaOk(p: Ppa, open: set<Str>)
      reads p, open`ppa, open`control, open`pNext
    {
      && (forall m :: m in p.members ==> m in open && m.ppa == p && !m.control)
      && PList(p.pStr, p.members, open)
      && p.owner != null && p.owner in open && p.owner.control && p.owner.ppa == p && p.rq == p.owner.rq
    }

    /** The open streams and the PPAs in the table agree. */
    ghost predicate Attached(open: set<Str>)
      reads tunPpa, Ppas(), open`ppa, open`control, open`state, open`pNext
    {
      && tunPpa.Length == TUNMAXPPA
      && (forall s :: s in open ==> StreamOk(s))
      && (forall i :: 0 <= i < TUNMAXPPA && tunPpa[i] != null ==> tunPpa[i].id == i && PpaOk(tunPpa[i], open))
    }

    ghost function Roster(): set<Str>
      reads this`streams
    {
      set s | s in streams
    }

    ghost predicate Valid()
      reads this`tunStr, this`streams, tunPpa, Ppas(), streams
    {
      Threaded() && Attached(Roster())
    }

    constructor ()
      ensures Valid() && fresh(tunPpa) && streams == [] && Ppas() == {} && births == 0
    {
      tunStr, streams, births := null, [], 0;
      tunPpa := new Ppa?[TUNMAXPPA](_ => null);
    }

    /** The free position of the list, and the minor number that goes with it. */
    method FindMinor() returns (prev: Str?, minordev: nat)
      requires Threaded()
      ensures minordev == Gap(Minors(streams), 0)
      ensures prev == if minordev == 0 then null else streams[minordev - 1]
    {
      prev, minordev := null, 0;
      while true
        invariant minordev <= |streams|
        invariant prev == if minordev == 0 then null else streams[minordev - 1]
        invariant Gap(Minors(streams), minordev) == Gap(Minors(streams), 0)
        decreases |streams| - minordev
      {
        var str := if prev == null then tunStr else prev.sNext;
        if str == null || minordev < str.minor {
          return;
        }
        minordev := minordev + 1;
        prev := str;
      }
    }

    /** *prev = str, where prev is the link that leads to place `k` of the list. */
    method Link(prev: Str?, str: Str, ghost k: nat)
      requires Threaded() && str !in streams
      requires k <= |streams| && prev == if k == 0 then null else streams[k - 1]
      modifies this`tunStr, this`streams, streams`sNext, str`sNext
      ensures Threaded()
      ensures streams == old(streams[..k]) + [str] + old(streams[k..])
    {
      if prev == null {
        str.sNext := tunStr;
        tunStr := str;
      } else {
        str.sNext := prev.sNext;
        prev.sNext := str;
      }
      ghost var was := streams;
      streams := was[..k] + [str] + was[k..];
      forall i | 0 <= i < |streams|
        ensures streams[i].sNext == At(streams, i + 1)
      {
        if i < k {
          assert streams[i] == was[i];
        } else if i > k {
          assert streams[i] == was[i - 1];
        }
      }
    }

    /** A new stream at place `k` of the list, attached to nothing. */
    method AddStream(prev: Str?, rq: nat, minor: nat, ghost k: nat) returns (str: Str)
      requires Valid()
      requires k <= |streams| && prev == if k == 0 then null else streams[k - 1]
      modifies this`tunStr, this`streams, this`births, streams`sNext
      ensures Valid()
      ensures fresh(str) && str.rq == rq && str.minor == minor && str.name == old(births) && births == old(births) + 1
      ensures str.ppa == null && !str.control && str.state == Unattached && str.sap == 0
      ensures streams == old(streams)[..k] + [str] + old(streams)[k..]
    {
      hide Threaded, PpaOk;
      str := new Str(rq, minor, births);
      births := births + 1;
      Link(prev, str, k);
      assert Roster() == old(Roster()) + {str};
      RosterGrows(old(Roster()), str);
    }

    lemma RosterGrows(open: set<Str>, str: Str)
      requires Attached(open) && str.ppa == null && !str.control && str.state == Unattached
      ensures Attached(open + {str})
    {
    }

    /**
     * tunopen. A clone open numbers the stream itself; any other open takes the number of the
     * device node and goes to the front of the list. A queue that has a stream keeps it.
     */
    method Open(rq: nat, qPtr: Str?, clone: bool, devMinor: nat) returns (str: Str, minordev: nat)
      requires Valid()
      modifies this`tunStr, this`streams, this`births, streams`sNext
      ensures Valid()
      ensures !clone ==> minordev == devMinor
      ensures qPtr != null ==> str == qPtr && streams == old(streams) && births == old(births)
      ensures qPtr == null ==>
        && fresh(str) && str.rq == rq && str.minor == minordev && str.name == old(births) && births == old(births) + 1
        && str.ppa == null && !str.control && str.state == Unattached && str.sap == 0
        && var k := if clone then minordev else 0;
           k <= |old(streams)| && streams == old(streams)[..k] + [str] + old(streams)[k..]
      ensures clone ==> minordev == Gap(Minors(old(streams)), 0)
      ensures qPtr == null ==>
        Minors(streams) == Changed(Minors(old(streams)), if clone then Clone else Device(devMinor))
    {
      hide Threaded, PpaOk, Gap, Minors;
      var prev: Str? := null;
      minordev := devMinor;
      ghost var k := 0;
      if clone {
        prev, minordev := FindMinor();
        k := minordev;
      }
      if qPtr != null {
        return qPtr, minordev;
      }
      ghost var was := streams;
      str := AddStream(prev, rq, minordev, k);
      assert Minors(streams) == Inserted(Minors(was), k, minordev);
    }

    //
    // Joining a PPA
    //

    /** The end of TUNSETPPA and of DL_ATTACH_REQ: the stream goes to the front of the list. */
    method PushOnPpa(str: Str, ppa: Ppa)
      modifies str`pNext, str`ppa, ppa`pStr
      ensures str.pNext == old(ppa.pStr) && ppa.pStr == str && str.ppa == ppa
    {
      str.pNext := ppa.pStr;
      ppa.pStr := str;
      str.ppa := ppa;
    }

    /** A stream without a PPA joins one. */
    method JoinPpa(str: Str, ppa: Ppa)
      requires Valid() && str in streams && str.ppa == null && ppa in Ppas()
      modifies str`pNext, str`ppa, ppa`pStr, ppa`members
      ensures Valid() && str.ppa == ppa && ppa.members == [str] + old(ppa.members)
    {
      hide Threaded;
      assert PpaOk(ppa, Roster()) && StreamOk(str);
      assert str !in ppa.members;
      ghost var was := ppa.members;
      PushOnPpa(str, ppa);
      ppa.members := [str] + was;
      Prepended(ppa.pStr, str, was, Roster());
      hide NoDuplicates, At;
      forall i | 0 <= i < TUNMAXPPA && tunPpa[i] != null
        ensures tunPpa[i].id == i && PpaOk(tunPpa[i], Roster())
      {
        assert old(PpaOk(tunPpa[i], Roster()));
      }
    }

    lemma Prepended(first: Str?, str: Str, s: seq<Str>, open: set<Str>)
      requires PList(str.pNext, s, open) && str !in s && str in open && first == str
      ensures PList(first, [str] + s, open)
    {
      var t := [str] + s;
      assert At(t, 1) == At(s, 0);
      forall i | 0 < i < |t|
        ensures t[i].pNext == At(t, i + 1)
      {
        assert t[i] == s[i - 1];
      }
    }

    /**
     * Walking along p_next from `first`, at most `n` steps, one passes open streams only that
     * point to the PPA and control nothing, and comes to the end.
     */
    ghost predicate Ends(p: Ppa, first: Str?, n: nat)
      reads this`streams, streams`ppa, streams`control, streams`pNext
    {
      first == null || (n > 0 && first in streams && first.ppa == p && !first.control && Ends(p, first.pNext, n - 1))
    }

    /** Every PPA's list ends so, and every PPA has an open stream that controls it. */
    ghost predicate Sound()
      reads this`streams, tunPpa, Ppas()`pStr, streams`ppa, streams`control, streams`pNext
    {
      && (forall p :: p in Ppas() ==> exists n :: Ends(p, p.pStr, n))
      && (forall p :: p in Ppas() ==> exists s :: s in streams && s.control && s.ppa == p)
    }

    lemma ValidIsSound()
      requires Valid()
      ensures Sound()
    {
      forall p | p in Ppas()
        ensures Ends(p, p.pStr, |p.members|)
        ensures p.owner in streams && p.owner.control && p.owner.ppa == p
      {
        assert PpaOk(p, Roster());
        MembersEnd(p, 0);
      }
    }

    lemma {:induction false} MembersEnd(p: Ppa, i: nat)
      requires PpaOk(p, Roster()) && i <= |p.members|
      ensures Ends(p, At(p.members, i), |p.members| - i)
      decreases |p.members| - i
    {
      if i < |p.members| {
        assert p.members[i] in p.members;
        MembersEnd(p, i + 1);
      }
    }

    /** A walk through `was` that gets back to its start, or to a stream of another PPA, does not end. */
    lemma {:induction false} NeverEnds(p: Ppa, was: seq<Str>, i: nat, n: nat)
      requires i < |was| && forall j {:trigger was[j].pNext} :: 0 <= j < |was| - 1 ==> was[j].pNext == was[j + 1]
      requires was[|was| - 1].ppa != p || was[|was| - 1].pNext == was[0]
      ensures !Ends(p, was[i], n)
      decreases n
    {
      if n == 0 {
      } else {
        assert i < |was| - 1 ==> was[i].pNext == was[i + 1];
        NeverEnds(p, was, if i < |was| - 1 then i + 1 else 0, n - 1);
      }
    }

    /**
     * The end of TUNSETPPA and of DL_ATTACH_REQ for any stream. Nobody asks whether the stream
     * has a PPA already. The PPAs' lists stay sound exactly when it has none.
     */
    method Push(str: Str, ppa: Ppa)
      requires Valid() && str in streams && ppa in Ppas()
      modifies str`pNext, str`ppa, ppa`pStr, ppa`members
      ensures str.ppa == ppa && ppa.pStr == str && str.pNext == old(ppa.pStr)
      ensures old(str.ppa) == null ==> Valid() && ppa.members == [str] + old(ppa.members)
      ensures Sound() <==> old(str.ppa) == null
    {
      hide Threaded;
      assert StreamOk(str) && PpaOk(ppa, Roster());
      if str.ppa == null {
        JoinPpa(str, ppa);
        ValidIsSound();
      } else {
        ghost var q := str.ppa;
        assert PpaOk(q, Roster());
        ghost var was := q.members;
        PushOnPpa(str, ppa);
        if str.control {
          assert forall n :: !Ends(ppa, str, n);
        } else {
          ghost var k :| 0 <= k < |was| && was[k] == str;
          forall n
            ensures !Ends(q, q.pStr, n)
          {
            NeverEnds(q, was[..k + 1], if q == ppa then k else 0, n);
          }
        }
      }
    }

    /**
     * TUNSETPPA. The stream's DLPI state stays as it is. An id that passes the range check must
     * not lie past the table.
     */
    method SetPpa(str: Str, p: int) returns (r: Result<int, Errno>)
      requires Valid() && str in streams && (InRange(p) ==> p < tunPpa.Length)
      modifies str`pNext, str`ppa, Ppas()`pStr, Ppas()`members
      ensures r == if !InRange(p) then Err(EINVAL) else if tunPpa[p] == null then Err(ENODEV) else Ok(p)
      ensures r.Err? ==> Valid() && str.ppa == old(str.ppa) && forall q :: q in Ppas() ==> q.members == old(q.members)
      ensures r.Ok? ==>
        && str.ppa == tunPpa[p] && tunPpa[p].pStr == str && str.pNext == old(tunPpa[p].pStr)
        && (Sound() <==> old(str.ppa) == null)
      ensures r.Ok? && old(str.ppa) == null ==>
        && Valid() && tunPpa[p].members == [str] + old(tunPpa[p].members)
        && forall q :: q in Ppas() && q != tunPpa[p] ==> q.members == old(q.members)
    {
      hide Threaded, Attached;
      if p < 0 || p > TUNMAXPPA {
        return Err(EINVAL);
      }
      if tunPpa[p] == null {
        return Err(ENODEV);
      }
      Push(str, tunPpa[p]);
      return Ok(p);
    }

    /** DL_ATTACH_REQ; `short` says that the message is shorter than the primitive. */
    method AttachReq(str: Str, short: bool, p: int) returns (ack: Ack)
      requires Valid() && str in streams && (InRange(p) ==> p < tunPpa.Length)
      modifies str`pNext, str`ppa, str`state, Ppas()`pStr, Ppas()`members
      ensures ack ==
        if short then ErrorAck(DL_BADPRIM)
        else if old(str.state) != Unattached then ErrorAck(DL_OUTSTATE)
        else if !InRange(p) || tunPpa[p] == null then ErrorAck(DL_BADPPA)
        else OkAck
      ensures ack != OkAck ==>
        && Valid() && str.ppa == old(str.ppa) && str.state == old(str.state)
        && forall q :: q in Ppas() ==> q.members == old(q.members)
      ensures ack == OkAck ==>
        && str.ppa == tunPpa[p] && str.state == Unbound && tunPpa[p].pStr == str && str.pNext == old(tunPpa[p].pStr)
        && (Sound() <==> old(str.ppa) == null)
      ensures ack == OkAck && old(str.ppa) == null ==>
        && Valid() && tunPpa[p].members == [str] + old(tunPpa[p].members)
        && forall q :: q in Ppas() && q != tunPpa[p] ==> q.members == old(q.members)
    {
      hide Threaded, PpaOk;
      assert StreamOk(str);
      if short {
        return ErrorAck(DL_BADPRIM);
      }
      if str.state != Unattached {
        return ErrorAck(DL_OUTSTATE);
      }
      if p < 0 || p > TUNMAXPPA || tunPpa[p] == null {
        return ErrorAck(DL_BADPPA);
      }
      Push(str, tunPpa[p]);
      str.state := Unbound;
      return OkAck;
    }

    /**
     * The two requests in a row: after TUNSETPPA the state is still UNATTACHED, so DL_ATTACH_REQ
     * is granted, and the PPA's list runs in a circle.
     */
    method AttachAfterSetPpa(str: Str, p: int)
      requires Valid() && str in streams && str.ppa == null
      requires 0 <= p < tunPpa.Length && tunPpa[p] != null
      modifies str`pNext, str`ppa, str`state, Ppas()`pStr, Ppas()`members
      ensures tunPpa[p].pStr == str && str.pNext == str && !Sound()
    {
      assert str.state == Unattached by {
        assert StreamOk(str);
      }
      var r := SetPpa(str, p);
      var ack := AttachReq(str, false, p);
      assert r == Ok(p) && ack == OkAck;
    }

    //
    // Leaving a PPA
    //

    /** The scan for the link that leads to a member. */
    method FindMember(ppa: Ppa, str: Str, ghost open: set<Str>) returns (prev: Str?, ghost k: nat)
      requires PList(ppa.pStr, ppa.members, open) && str in ppa.members
      ensures k < |ppa.members| && ppa.members[k] == str
      ensures prev == if k == 0 then null else ppa.members[k - 1]
    {
      prev, k := null, 0;
      ghost var j :| 0 <= j < |ppa.members| && ppa.members[j] == str;
      var tmp := ppa.pStr;
      while tmp != null && tmp != str
        invariant k <= j && tmp == At(ppa.members, k)
        invariant prev == if k == 0 then null else ppa.members[k - 1]
        decreases |ppa.members| - k
      {
        prev := tmp;
        tmp := tmp.pNext;
        k := k + 1;
      }
    }

    /** *prev = str->p_next, where prev is the link that leads to the member `str`. */
    method CutMember(ppa: Ppa, prev: Str?, str: Str, ghost k: nat, ghost open: set<Str>)
      requires PList(ppa.pStr, ppa.members, open)
      requires k < |ppa.members| && ppa.members[k] == str
      requires prev == if k == 0 then null else ppa.members[k - 1]
      modifies ppa`pStr, ppa`members, (if prev == null then {} else {prev})`pNext
      ensures PList(ppa.pStr, ppa.members, open - {str})
      ensures ppa.members == Without(old(ppa.members), {str})
    {
      if prev == null {
        ppa.pStr := str.pNext;
      } else {
        prev.pNext := str.pNext;
      }
      ghost var was := ppa.members;
      ppa.members := CutOut(was, k);
      WithoutOne(was, k);
      hide CutOut, Without;
      forall i | 0 <= i < |ppa.members|
        ensures ppa.members[i] in open - {str} && ppa.members[i].pNext == At(ppa.members, i + 1)
      {
      }
    }

    /** The unlink loop of tunclose and of DL_DETACH_REQ. */
    method CutFromList(ppa: Ppa, str: Str, ghost open: set<Str>)
      requires PList(ppa.pStr, ppa.members, open) && str in ppa.members
      modifies ppa`pStr, ppa`members, open`pNext
      ensures PList(ppa.pStr, ppa.members, open - {str})
      ensures ppa.members == Without(old(ppa.members), {str})
      ensures forall m :: m in open && m !in old(ppa.members) ==> m.pNext == old(m.pNext)
      ensures forall m :: m in ppa.members ==> m in old(ppa.members) && m != str
      ensures forall m :: m in old(ppa.members) && m != str ==> m in ppa.members
    {
      hide Without;
      ghost var was := ppa.members;
      var prev, k := FindMember(ppa, str, open);
      assert prev != null ==> prev in was;
      CutMember(ppa, prev, str, k, open);
      WithoutMembers(was, {str});
    }

    /**
     * A stream leaves its PPA's list. Its own fields still name the PPA afterwards, so the
     * agreement is one among the other streams.
     */
    method LeavePpa(str: Str)
      requires Valid() && str in streams && str.ppa != null && !str.control
      modifies str.ppa`pStr, str.ppa`members, streams`pNext
      ensures Attached(Roster() - {str}) && Threaded()
      ensures str.ppa.members == Without(old(str.ppa.members), {str})
      ensures forall q :: q in Ppas() && q != str.ppa ==> q.members == old(q.members)
    {
      hide Threaded, Without, At, NoDuplicates;
      var ppa := str.ppa;
      assert StreamOk(str) && PpaOk(ppa, Roster());
      ghost var was, rest := ppa.members, Roster() - {str};
      assert forall m :: m in was ==> m in Roster() && m in streams;
      CutFromList(ppa, str, Roster());
      forall s | s in rest
        ensures StreamOk(s)
      {
        hide PList;
        assert old(StreamOk(s));
      }
      assert PpaOk(ppa, rest);
      forall i | 0 <= i < TUNMAXPPA && tunPpa[i] != null && tunPpa[i] != ppa
        ensures tunPpa[i].id == i && PpaOk(tunPpa[i], rest)
      {
        hide StreamOk;
        var q := tunPpa[i];
        assert old(PpaOk(q, Roster()));
        assert forall m :: m in q.members ==> m !in was && m != str && m in rest && m.pNext == old(m.pNext);
      }
    }

    /** DL_DETACH_REQ */
    method DetachReq(str: Str, short: bool) returns (ack: Ack)
      requires Valid() && str in streams
      modifies str`ppa, str`state, Ppas()`pStr, Ppas()`members, streams`pNext
      ensures Valid()
      ensures ack ==
        if short then ErrorAck(DL_BADPRIM) else if old(str.state) != Unbound then ErrorAck(DL_OUTSTATE) else OkAck
      ensures ack == OkAck ==>
        && str.ppa == null && str.state == Unattached
        && old(str.ppa) != null && old(str.ppa).members == Without(old(str.ppa.members), {str})
      ensures forall q :: q in Ppas() && (ack != OkAck || q != old(str.ppa)) ==> q.members == old(q.members)
      ensures ack != OkAck ==> str.ppa == old(str.ppa) && str.state == old(str.state)
    {
      hide Threaded, Without, PpaOk;
      if short {
        return ErrorAck(DL_BADPRIM);
      }
      if str.state != Unbound {
        return ErrorAck(DL_OUTSTATE);
      }
      assert StreamOk(str);
      ghost var open := Roster();
      LeavePpa(str);
      str.ppa := null;
      str.state := Unattached;
      RosterGrows(open - {str}, str);
      assert open - {str} + {str} == open;
      return OkAck;
    }

    /** DL_BIND_REQ */
    method BindReq(str: Str, short: bool, sap: nat, xidtest: bool) returns (ack: Ack)
      requires Valid() && str in streams
      modifies str`state, str`sap
      ensures Valid()
      ensures ack ==
        if short then ErrorAck(DL_BADPRIM)
        else if old(str.state) != Unbound then ErrorAck(DL_OUTSTATE)
        else if xidtest then ErrorAck(DL_NOAUTO)
        else if sap > ETHERTYPE_MAX then ErrorAck(DL_BADSAP)
        else OkAck
      ensures ack == OkAck ==> str.state == Idle && str.sap == sap
      ensures ack != OkAck ==> str.state == old(str.state) && str.sap == old(str.sap)
    {
      hide Threaded, PpaOk;
      assert StreamOk(str);
      if short {
        return ErrorAck(DL_BADPRIM);
      }
      if str.state != Unbound {
        return ErrorAck(DL_OUTSTATE);
      }
      // the driver refuses with DL_SYSERR when str.ppa is null: an UNBOUND stream has a PPA
      assert str.ppa != null;
      if xidtest {
        return ErrorAck(DL_NOAUTO);
      }
      if sap > ETHERTYPE_MAX {
        return ErrorAck(DL_BADSAP);
      }
      str.sap := sap;
      str.state := Idle;
      return OkAck;
    }

    /** DL_UNBIND_REQ */
    method UnbindReq(str: Str, short: bool) returns (ack: Ack)
      requires Valid() && str in streams
      modifies str`state, str`sap
      ensures Valid()
      ensures ack ==
        if short then ErrorAck(DL_BADPRIM) else if old(str.state) != Idle then ErrorAck(DL_OUTSTATE) else OkAck
      ensures ack == OkAck ==> str.state == Unbound && str.sap == 0
      ensures ack != OkAck ==> str.state == old(str.state) && str.sap == old(str.sap)
    {
      hide Threaded, PpaOk;
      assert StreamOk(str);
      if short {
        return ErrorAck(DL_BADPRIM);
      }
      if str.state != Idle {
        return ErrorAck(DL_OUTSTATE);
      }
      str.state := Unbound;
      str.sap := 0;
      return OkAck;
    }

    //
    // Making a PPA
    //

    /** tun_alloc_ppa: -1 asks for the least free id. */
    method AllocPpa(p: int) returns (ppa: Ppa?)
      requires tunPpa.Length == TUNMAXPPA
      requires p == -1 || (0 <= p < TUNMAXPPA && tunPpa[p] == null)
      modifies tunPpa
      ensures ppa == null <==> p == -1 && forall i :: 0 <= i < TUNMAXPPA ==> old(tunPpa[i]) != null
      ensures ppa == null ==> tunPpa[..] == old(tunPpa[..])
      ensures ppa != null ==>
        && fresh(ppa) && ppa.id < TUNMAXPPA && old(tunPpa[..])[ppa.id] == null
        && ppa.pStr == null && ppa.members == []
        && tunPpa[..] == old(tunPpa[..])[ppa.id := ppa]
        && (p != -1 ==> ppa.id == p)
        && (p == -1 ==> forall i :: 0 <= i < ppa.id ==> old(tunPpa[i]) != null)
    {
      var id := p;
      if id == -1 {
        var i := 0;
        while i < TUNMAXPPA
          invariant 0 <= i <= TUNMAXPPA && id == -1
          invariant forall j :: 0 <= j < i ==> tunPpa[j] != null
        {
          if tunPpa[i] == null {
            id := i;
            break;
          }
          i := i + 1;
        }
        if id == -1 {
          return null;
        }
      }
      ppa := new Ppa(id);
      tunPpa[id] := ppa;
    }

    /** A stream takes control of a new PPA. */
    method Claim(str: Str, p: int) returns (ppa: Ppa?)
      requires tunPpa.Length == TUNMAXPPA
      requires p == -1 || (0 <= p < TUNMAXPPA && tunPpa[p] == null)
      modifies tunPpa, str`ppa, str`control
      ensures ppa == null <==> p == -1 && forall i :: 0 <= i < TUNMAXPPA ==> old(tunPpa[i]) != null
      ensures ppa == null ==> tunPpa[..] == old(tunPpa[..]) && str.ppa == old(str.ppa) && str.control == old(str.control)
      ensures ppa != null ==>
        && fresh(ppa) && ppa.id < TUNMAXPPA && old(tunPpa[..])[ppa.id] == null
        && ppa.pStr == null && ppa.members == [] && ppa.owner == str && ppa.rq == str.rq
        && tunPpa[..] == old(tunPpa[..])[ppa.id := ppa]
        && str.ppa == ppa && str.control
        && (p != -1 ==> ppa.id == p)
        && (p == -1 ==> forall i :: 0 <= i < ppa.id ==> old(tunPpa[i]) != null)
    {
      ppa := AllocPpa(p);
      if ppa != null {
        ppa.rq := str.rq;
        str.ppa := ppa;
        str.control := true;
        ppa.owner := str;
      }
    }

    /**
     * The second half of TUNNEWPPA, once the id is known to be good. Nobody asks here either
     * whether the stream has a PPA already.
     */
    method MakePpa(str: Str, p: int) returns (ppa: Ppa?)
      requires Valid() && str in streams
      requires p == -1 || (0 <= p < TUNMAXPPA && tunPpa[p] == null)
      modifies tunPpa, str`ppa, str`control
      ensures ppa == null <==> p == -1 && forall i :: 0 <= i < TUNMAXPPA ==> old(tunPpa[i]) != null
      ensures ppa == null ==>
        Valid() && tunPpa[..] == old(tunPpa[..]) && str.ppa == old(str.ppa) && str.control == old(str.control)
      ensures ppa != null ==>
        && fresh(ppa) && ppa.id < TUNMAXPPA && old(tunPpa[..])[ppa.id] == null
        && tunPpa[..] == old(tunPpa[..])[ppa.id := ppa]
        && str.ppa == ppa && str.control && ppa.members == []
        && (p != -1 ==> ppa.id == p)
        && (p == -1 ==> forall i :: 0 <= i < ppa.id ==> old(tunPpa[i]) != null)
        && (Sound() <==> old(str.ppa) == null)
      ensures ppa != null && old(str.ppa) == null ==> Valid()
    {
      hide Threaded, PList, Sound, Ends;
      ghost var q := str.ppa;
      ghost var walk := WalkThrough(str);
      ghost var controlled := str.control;
      ppa := Claim(str, p);
      if ppa != null {
        assert forall i :: 0 <= i < TUNMAXPPA && i != ppa.id ==> tunPpa[i] == old(tunPpa[..])[i];
        if q == null {
          assert old(StreamOk(str));
          EmptyPList(Roster());
          forall i | 0 <= i < TUNMAXPPA && tunPpa[i] != null && i != ppa.id
            ensures tunPpa[i].id == i && PpaOk(tunPpa[i], Roster())
          {
            assert old(PpaOk(tunPpa[i], Roster()));
          }
          ValidIsSound();
        } else {
          hide Attached, PpaOk, StreamOk;
          assert tunPpa[q.id] == q;
          if controlled {
            Uncontrolled(q);
          } else {
            NotListed(q, walk);
          }
        }
      }
    }

    /** The part of its PPA's list that leads to a member. */
    lemma WalkThrough(str: Str) returns (walk: seq<Str>)
      requires Valid() && str in streams
      ensures var q := str.ppa;
        q != null ==>
          && q in Ppas() && q.id < TUNMAXPPA && tunPpa[q.id] == q
          && (str.control ==> forall s :: s in streams && s.control && s.ppa == q ==> s == str)
          && (!str.control ==> Walk(q, walk) && walk[|walk| - 1] == str)
    {
      walk := [];
      var q := str.ppa;
      assert StreamOk(str);
      if q != null {
        assert PpaOk(q, Roster());
        if str.control {
          forall s | s in streams && s.control && s.ppa == q
            ensures s == str
          {
            assert StreamOk(s);
          }
        } else {
          var k :| 0 <= k < |q.members| && q.members[k] == str;
          walk := q.members[..k + 1];
        }
      }
    }

    ghost predicate Walk(p: Ppa, walk: seq<Str>)
      reads p`pStr, walk`pNext
    {
      && walk != [] && p.pStr == walk[0]
      && forall j {:trigger walk[j].pNext} :: 0 <= j < |walk| - 1 ==> walk[j].pNext == walk[j + 1]
    }

    /** A PPA that no open stream controls is not sound. */
    lemma Uncontrolled(p: Ppa)
      requires p in Ppas() && forall s :: s in streams && s.control ==> s.ppa != p
      ensures !Sound()
    {
    }

    /** Nor is one whose list leads to a stream of another PPA. */
    lemma NotListed(p: Ppa, walk: seq<Str>)
      requires p in Ppas() && Walk(p, walk)
      requires walk[|walk| - 1].ppa != p || walk[|walk| - 1].pNext == walk[0]
      ensures !Sound()
    {
      forall n
        ensures !Ends(p, p.pStr, n)
      {
        NeverEnds(p, walk, 0, n);
      }
    }

    /** TUNNEWPPA: the stream becomes the control stream of a new PPA. */
    method NewPpa(str: Str, p: int) returns (r: Result<int, Errno>)
      requires Valid() && str in streams && (InRange(p) ==> p < tunPpa.Length)
      modifies tunPpa, str`ppa, str`control
      ensures r.Err? ==>
        Valid() && tunPpa[..] == old(tunPpa[..]) && str.ppa == old(str.ppa) && str.control == old(str.control)
      ensures r == Err(EINVAL) <==> p != -1 && !InRange(p)
      ensures r == Err(EEXIST) <==> 0 <= p < TUNMAXPPA && old(tunPpa[p]) != null
      ensures r.Err? ==> r.error in {EINVAL, EEXIST, ENOMEM}
      ensures r == Err(ENOMEM) <==> p == -1 && forall i :: 0 <= i < TUNMAXPPA ==> old(tunPpa[i]) != null
      ensures r.Ok? ==>
        && 0 <= r.value < TUNMAXPPA && old(tunPpa[r.value]) == null && str.ppa != null && fresh(str.ppa)
        && tunPpa[..] == old(tunPpa[..])[r.value := str.ppa] && str.control && str.ppa.members == []
        && (p != -1 ==> r.value == p)
        && (p == -1 ==> forall i :: 0 <= i < r.value ==> old(tunPpa[i]) != null)
        && (Sound() <==> old(str.ppa) == null)
      ensures r.Ok? && old(str.ppa) == null ==> Valid()
    {
      hide Threaded, PpaOk, Sound;
      assert StreamOk(str);
      if p < -1 || p > TUNMAXPPA {
        return Err(EINVAL);
      }
      if p != -1 && tunPpa[p] != null {
        return Err(EEXIST);
      }
      var ppa := MakePpa(str, p);
      if ppa == null {
        return Err(ENOMEM);
      }
      return Ok(ppa.id);
    }

    lemma EmptyPList(open: set<Str>)
      ensures PList(null, [], open)
    {
    }

    //
    // Closing
    //

    /** Every protocol stream of the PPA becomes UNATTACHED. */
    method DetachAll(ppa: Ppa)
      requires PList(ppa.pStr, ppa.members, Roster())
      modifies ppa.members`ppa, ppa.members`state
      ensures forall m :: m in ppa.members ==> m.ppa == null && m.state == Unattached
    {
      var tmp := ppa.pStr;
      ghost var k := 0;
      while tmp != null
        invariant k <= |ppa.members| && tmp == At(ppa.members, k)
        invariant forall i :: 0 <= i < k ==> ppa.members[i].ppa == null && ppa.members[i].state == Unattached
        decreases |ppa.members| - k
      {
        tmp.state := Unattached;
        tmp.ppa := null;
        tmp := tmp.pNext;
        k := k + 1;
      }
    }

    /** The unlink loop of tunclose over the driver's list. */
    method Unlink(str: Str)
      requires Threaded() && str in streams
      modifies this`tunStr, this`streams, streams`sNext
      ensures Threaded() && streams == Without(old(streams), {str})
    {
      var prev: Str? := null;
      ghost var k := 0;
      ghost var j :| 0 <= j < |streams| && streams[j] == str;
      var tmp := tunStr;
      while tmp != null && tmp != str
        invariant k <= j && tmp == At(streams, k)
        invariant prev == if k == 0 then null else streams[k - 1]
        decreases |streams| - k
      {
        prev := tmp;
        tmp := tmp.sNext;
        k := k + 1;
      }
      ghost var was := streams;
      if prev == null {
        tunStr := str.sNext;
      } else {
        prev.sNext := str.sNext;
      }
      streams := CutOut(was, k);
      WithoutOne(was, k);
      hide CutOut, Without, NoDuplicates;
      forall i | 0 <= i < |streams|
        ensures streams[i].sNext == At(streams, i + 1)
      {
      }
    }

    /** Closing a control stream, up to the unlinking from the driver's list. */
    method DropPpa(str: Str)
      requires Valid() && str in streams && str.control && str.ppa != null
      modifies tunPpa, streams`ppa, streams`state
      ensures Threaded() && Attached(Roster() - {str})
      ensures old(str.ppa) in old(Ppas()) && old(str.ppa).id < TUNMAXPPA
      ensures tunPpa[..] == old(tunPpa[..])[old(str.ppa).id := null]
      ensures forall s :: s in streams && s in old(str.ppa.members) ==> s.ppa == null && s.state == Unattached
      ensures forall s :: s in streams && s !in old(str.ppa.members) ==> s.ppa == old(s.ppa) && s.state == old(s.state)
    {
      hide Threaded, PList;
      var ppa := str.ppa;
      assert StreamOk(str) && PpaOk(ppa, Roster());
      forall i | 0 <= i < |ppa.members|
        ensures ppa.members[i] in streams
      {
        assert ppa.members[i] in ppa.members;
        assert ppa.members[i] in Roster();
      }
      DetachAll(ppa);
      tunPpa[ppa.id] := null;
      forall i | 0 <= i < TUNMAXPPA && tunPpa[i] != null
        ensures PpaOk(tunPpa[i], Roster() - {str})
      {
        OthersOnList(tunPpa[i].pStr, tunPpa[i].members, Roster(), str);
      }
    }

    lemma OthersOnList(first: Str?, s: seq<Str>, open: set<Str>, str: Str)
      requires PList(first, s, open) && str !in s
      ensures PList(first, s, open - {str})
    {
    }

    /** A stream without a PPA concerns no other stream. */
    lemma LeaveOpen(str: Str)
      requires Attached(Roster()) && str in streams && str.ppa == null
      ensures Attached(Roster() - {str})
    {
      forall i | 0 <= i < TUNMAXPPA && tunPpa[i] != null
        ensures PpaOk(tunPpa[i], Roster() - {str})
      {
        assert PpaOk(tunPpa[i], Roster());
      }
    }

    /** The first half of tunclose: the stream and its PPA part. */
    method Part(str: Str)
      requires Valid() && str in streams
      modifies tunPpa, Ppas()`pStr, Ppas()`members, streams`pNext, streams`ppa, streams`state
      ensures Threaded() && Attached(Roster() - {str})
      ensures str.control ==>
        && old(str.ppa) in old(Ppas()) && old(str.ppa).id < TUNMAXPPA
        && tunPpa[..] == old(tunPpa[..])[old(str.ppa).id := null]
        && (forall s :: s in streams && s in old(str.ppa.members) ==> s.ppa == null && s.state == Unattached)
        && (forall s :: s in streams && s !in old(str.ppa.members) ==> s.ppa == old(s.ppa) && s.state == old(s.state))
        && (forall q :: q in Ppas() ==> q.members == old(q.members))
      ensures !str.control ==>
        && tunPpa[..] == old(tunPpa[..])
        && (forall s :: s in streams ==> s.ppa == old(s.ppa) && s.state == old(s.state))
        && (old(str.ppa) != null ==> old(str.ppa).members == Without(old(str.ppa.members), {str}))
        && (forall q :: q in Ppas() && q != old(str.ppa) ==> q.members == old(q.members))
    {
      hide Threaded, PpaOk, Without;
      assert StreamOk(str);
      if str.ppa != null {
        if str.control {
          DropPpa(str);
        } else {
          LeavePpa(str);
        }
      } else {
        LeaveOpen(str);
      }
    }

    /**
     * tunclose. A control stream takes its PPA with it: the members become UNATTACHED, and no
     * open stream refers to the PPA. Any other attached stream leaves its PPA's list.
     */
    method Close(str: Str)
      requires Valid() && str in streams
      modifies this`tunStr, this`streams, tunPpa, Ppas()`pStr, Ppas()`members,
        streams`sNext, streams`pNext, streams`ppa, streams`state
      ensures Valid() && streams == Without(old(streams), {str}) && Ppas() <= old(Ppas())
      // a control stream
      ensures str.control ==>
        && old(str.ppa) in old(Ppas()) && old(str.ppa).id < TUNMAXPPA
        && tunPpa[..] == old(tunPpa[..])[old(str.ppa).id := null]
        && (forall s :: s in old(streams) && s in old(str.ppa.members) ==> s.ppa == null && s.state == Unattached)
        && (forall s :: s in old(streams) && s !in old(str.ppa.members) ==> s.ppa == old(s.ppa) && s.state == old(s.state))
        && (forall q :: q in Ppas() ==> q.members == old(q.members))
      ensures str.control ==> forall s :: s in old(streams) && s != str ==> s.ppa != old(str.ppa)
      // any other stream
      ensures !str.control ==>
        && tunPpa[..] == old(tunPpa[..])
        && (forall s :: s in old(streams) ==> s.ppa == old(s.ppa) && s.state == old(s.state))
        && (old(str.ppa) != null ==> old(str.ppa).members == Without(old(str.ppa.members), {str}))
        && (forall q :: q in Ppas() && q != old(str.ppa) ==> q.members == old(q.members))
    {
      hide Threaded, PpaOk, Without;
      ghost var rest, was := Roster() - {str}, streams;
      Part(str);
      Unlink(str);
      WithoutMembers(was, {str});
      assert Roster() == rest;
      forall s | s in rest && s.ppa != null
        ensures tunPpa[s.ppa.id] == s.ppa
      {
        assert StreamOk(s);
      }
    }

    /** Some open stream: the one `i` places down the list, as far as the list goes. */
    method Pick(i: nat) returns (str: Str)
      requires Threaded() && tunStr != null
      ensures streams != [] && str == streams[Min(i, |streams| - 1)]
    {
      str := tunStr;
      ghost var k := 0;
      for n := 0 to i
        invariant k == n < |streams| && str == streams[k]
      {
        if str.sNext == null {
          return;
        }
        str := str.sNext;
        k := k + 1;
      }
    }
  }
}
