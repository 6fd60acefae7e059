/**
 * Runs of requests on the streams of the Solaris driver: the linked lists agree with the
 * picture that StreamProtocol gives of them, from open to open and close to close, and every
 * answer is the picture's.
 */
module StreamRuns {
  import opened Collections
  import opened MinorNumbers
  import opened StreamProtocol
  import opened TunStreams

  //
  // The picture of a driver
  //

  ghost function NodeOf(s: Str): Node
    reads s`ppa, s`control, s`state, s`sap
  {
    Node(s.name, s.rq, s.minor, if s.ppa == null then None else Some(s.ppa.id), s.control, s.state, s.sap)
  }

  ghost function Nodes(s: seq<Str>): (r: seq<Node>)
    reads s
    ensures |r| == |s| && forall i :: 0 <= i < |s| ==> r[i] == NodeOf(s[i])
  {
    seq(|s|, i requires 0 <= i < |s| reads s => NodeOf(s[i]))
  }

  ghost function Names(s: seq<Str>): (r: seq<nat>)
    ensures |r| == |s| && forall i :: 0 <= i < |s| ==> r[i] == s[i].name
  {
    seq(|s|, i requires 0 <= i < |s| => s[i].name)
  }

  ghost function Lists(d: Driver): (m: map<nat, seq<nat>>)
    reads d.tunPpa, d.Ppas()`members
    ensures forall i: nat :: i in m <==> i < d.tunPpa.Length && d.tunPpa[i] != null
    ensures forall i :: i in m ==> m[i] == Names(d.tunPpa[i].members)
  {
    map i: nat | i < d.tunPpa.Length && d.tunPpa[i] != null :: Names(d.tunPpa[i].members)
  }

  ghost function Now(d: Driver): World
    reads d, d.tunPpa, d.Ppas(), d.streams
  {
    World(Nodes(d.streams), Lists(d), d.births)
  }

  /** Every stream has its own name, below the number of opens. */
  ghost predicate Named(streams: seq<Str>, births: nat) {
    && (forall i :: 0 <= i < |streams| ==> streams[i].name < births)
    && (forall i, j :: 0 <= i < j < |streams| ==> streams[i].name != streams[j].name)
  }

  /** The driver is in order, and the stream is at place `k` of its list. */
  ghost predicate Stands(d: Driver, str: Str, k: nat)
    reads d, d.tunPpa, d.Ppas(), d.streams
  {
    d.Valid() && Named(d.streams, d.births) && k < |d.streams| && d.streams[k] == str
  }

  lemma NumbersAre(d: Driver)
    ensures Numbers(Nodes(d.streams)) == Minors(d.streams)
  {
  }

  /** No other stream is at another place. */
  lemma OtherStreams(d: Driver, str: Str, k: nat)
    requires Stands(d, str, k)
    ensures forall i :: 0 <= i < |d.streams| && i != k ==> d.streams[i] != str
  {
  }

  /** Nothing has changed. */
  lemma Same(was: World, d: Driver)
    requires |was.streams| == |d.streams| && was.births == d.births
    requires forall i :: 0 <= i < |d.streams| ==> was.streams[i] == NodeOf(d.streams[i])
    requires forall i: nat :: i in was.members <==> i < d.tunPpa.Length && d.tunPpa[i] != null
    requires forall i :: i in was.members ==> was.members[i] == Names(d.tunPpa[i].members)
    ensures Now(d) == was
  {
  }

  /** Only the stream at place `k` has changed. */
  lemma OneStream(was: World, d: Driver, k: nat)
    requires k < |was.streams| == |d.streams| && was.births == d.births
    requires forall i :: 0 <= i < |d.streams| && i != k ==> was.streams[i] == NodeOf(d.streams[i])
    requires forall i: nat :: i in was.members <==> i < d.tunPpa.Length && d.tunPpa[i] != null
    requires forall i :: i in was.members ==> was.members[i] == Names(d.tunPpa[i].members)
    ensures Now(d) == was.(streams := was.streams[k := NodeOf(d.streams[k])])
  {
    assert Lists(d) == was.members;
  }

  /** Only that stream and the PPA with this id have. */
  lemma OneStreamAndList(was: World, d: Driver, k: nat, id: nat)
    requires k < |was.streams| == |d.streams| && was.births == d.births
    requires id < d.tunPpa.Length && d.tunPpa[id] != null
    requires forall i :: 0 <= i < |d.streams| && i != k ==> was.streams[i] == NodeOf(d.streams[i])
    requires forall i: nat :: i in was.members || i == id <==> i < d.tunPpa.Length && d.tunPpa[i] != null
    requires forall i :: i in was.members && i != id ==> was.members[i] == Names(d.tunPpa[i].members)
    ensures Now(d) == was.(streams := was.streams[k := NodeOf(d.streams[k])],
                           members := was.members[id := Names(d.tunPpa[id].members)])
  {
    assert Lists(d) == was.members[id := Names(d.tunPpa[id].members)];
  }

  lemma Apart(d: Driver, id: nat)
    requires d.Valid() && id < TUNMAXPPA
    ensures d.tunPpa.Length == TUNMAXPPA
    ensures forall i :: 0 <= i < TUNMAXPPA && d.tunPpa[i] != null ==>
      d.tunPpa[i].id == i && d.tunPpa[i] in d.Ppas() && (i != id ==> d.tunPpa[i] != d.tunPpa[id])
  {
  }

  /** No PPA has come or gone, and none has other members. */
  lemma SameLists(was: map<nat, seq<nat>>, d: Driver)
    requires forall i: nat :: i in was <==> i < d.tunPpa.Length && d.tunPpa[i] != null
    requires forall i :: i in was ==> was[i] == Names(d.tunPpa[i].members)
    ensures Lists(d) == was
  {
  }

  /** One PPA has gone, and no other has other members. */
  lemma OneListLess(was: map<nat, seq<nat>>, d: Driver, id: nat)
    requires forall i: nat :: i in was && i != id <==> i < d.tunPpa.Length && d.tunPpa[i] != null
    requires forall i :: i in was && i != id ==> was[i] == Names(d.tunPpa[i].members)
    ensures Lists(d) == was - {id}
  {
  }

  lemma FirstName(str: Str, s: seq<Str>)
    ensures Names([str] + s) == [str.name] + Names(s)
  {
  }

  lemma ListsHas(d: Driver, p: int)
    requires d.Valid() && p != TUNMAXPPA
    ensures d.tunPpa.Length == TUNMAXPPA
    ensures InRange(p) ==> 0 <= p < d.tunPpa.Length
    ensures p in Lists(d) <==> InRange(p) && d.tunPpa[p] != null
    ensures p in Lists(d) ==> Lists(d)[p] == Names(d.tunPpa[p].members)
  {
  }

  /** One name less, when one stream leaves a list of open streams. */
  lemma {:induction false} NamesWithout(d: Driver, s: seq<Str>, str: Str)
    requires Named(d.streams, d.births) && str in d.streams && forall m :: m in s ==> m in d.streams
    ensures Names(Without(s, {str})) == Without(Names(s), {str.name})
  {
    if s == [] {
    } else {
      var last := |s| - 1;
      assert s[last] in s && forall m :: m in s[..last] ==> m in s;
      NamesWithout(d, s[..last], str);
      assert Names(s)[..last] == Names(s[..last]);
      assert s[last].name == str.name ==> s[last] == str;
    }
  }

  //
  // The requests of one stream
  //

  method OnSetPpa(d: Driver, str: Str, ghost k: nat, p: int) returns (answer: Answer)
    requires Stands(d, str, k) && p != TUNMAXPPA
    modifies str`pNext, str`ppa, d.Ppas()`pStr, d.Ppas()`members
    ensures answer == Ioctl(
      if !(0 <= p < d.tunPpa.Length) then Err(EINVAL) else if d.tunPpa[p] == null then Err(ENODEV) else Ok(p))
    ensures answer.result.Ok? ==> str.ppa == d.tunPpa[p]
    ensures answer.result.Err? ==> str.ppa == old(str.ppa)
    ensures answer == SetPpaServed(old(Now(d)), k, p).1
    ensures old(str.ppa) == null || answer.result.Err? ==> d.Valid() && Now(d) == SetPpaServed(old(Now(d)), k, p).0
    ensures old(str.ppa) != null && answer.result.Ok? ==> !d.Sound()
  {
    hide Driver.Valid, Driver.Sound, Lists, Nodes, Names;
    ListsHas(d, p);
    OtherStreams(d, str, k);
    if InRange(p) {
      Apart(d, p);
    }
    ghost var was := Now(d);
    var result := d.SetPpa(str, p);
    answer := Ioctl(result);
    if result.Err? {
      Same(was, d);
    } else if old(str.ppa) == null {
      OneStreamAndList(was, d, k, p);
      FirstName(str, old(d.tunPpa[p].members));
    }
  }

  method OnAttach(d: Driver, str: Str, ghost k: nat, short: bool, p: int) returns (answer: Answer)
    requires Stands(d, str, k) && p != TUNMAXPPA
    modifies str`pNext, str`ppa, str`state, d.Ppas()`pStr, d.Ppas()`members
    ensures answer == Dlpi(
      if short then ErrorAck(DL_BADPRIM)
      else if old(str.state) != Unattached then ErrorAck(DL_OUTSTATE)
      else if !(0 <= p < d.tunPpa.Length) || d.tunPpa[p] == null then ErrorAck(DL_BADPPA)
      else OkAck)
    ensures answer == Dlpi(OkAck) ==> str.ppa == d.tunPpa[p] && str.state == Unbound
    ensures answer != Dlpi(OkAck) ==> str.ppa == old(str.ppa) && str.state == old(str.state)
    ensures answer == AttachServed(old(Now(d)), k, short, p).1
    ensures old(str.ppa) == null || answer != Dlpi(OkAck) ==>
      d.Valid() && Now(d) == AttachServed(old(Now(d)), k, short, p).0
    ensures old(str.ppa) != null && answer == Dlpi(OkAck) ==> !d.Sound()
  {
    hide Driver.Valid, Driver.Sound, Lists, Nodes, Names;
    ListsHas(d, p);
    OtherStreams(d, str, k);
    if InRange(p) {
      Apart(d, p);
    }
    ghost var was := Now(d);
    var ack := d.AttachReq(str, short, p);
    answer := Dlpi(ack);
    if ack != OkAck {
      Same(was, d);
    } else if old(str.ppa) == null {
      OneStreamAndList(was, d, k, p);
      FirstName(str, old(d.tunPpa[p].members));
    }
  }

  lemma FreeIdIs(members: map<nat, seq<nat>>, id: nat)
    requires id <= TUNMAXPPA && forall j :: 0 <= j < id ==> j in members
    requires id < TUNMAXPPA ==> id !in members
    ensures FreeId(members, 0) == id
  {
    var f := FreeId(members, 0);
    assert f < id ==> f in members;
  }

  method OnNewPpa(d: Driver, str: Str, ghost k: nat, p: int) returns (answer: Answer)
    requires Stands(d, str, k) && p != TUNMAXPPA
    modifies d.tunPpa, str`ppa, str`control
    ensures answer.Ioctl?
    ensures answer == Ioctl(Err(EINVAL)) <==> p < -1 || p >= d.tunPpa.Length
    ensures answer == Ioctl(Err(EEXIST)) <==> 0 <= p < d.tunPpa.Length && old(d.tunPpa[p]) != null
    ensures answer.result.Ok? ==>
      && str.control && 0 <= answer.result.value < d.tunPpa.Length
      && (p == -1 || p == answer.result.value) && old(d.tunPpa[answer.result.value]) == null
      && str.ppa != null && str.ppa == d.tunPpa[answer.result.value]
    ensures answer.result.Err? ==> str.ppa == old(str.ppa) && str.control == old(str.control)
    ensures answer == NewPpaServed(old(Now(d)), k, p).1
    ensures old(str.ppa) == null || answer.result.Err? ==> d.Valid() && Now(d) == NewPpaServed(old(Now(d)), k, p).0
    ensures old(str.ppa) != null && answer.result.Ok? ==> !d.Sound()
    ensures forall q :: q in d.Ppas() ==> fresh(q) || q in old(d.Ppas())
  {
    hide Driver.Valid, Driver.Sound, Lists, Nodes, Names, FreeId;
    ListsHas(d, p);
    OtherStreams(d, str, k);
    Apart(d, 0);
    ghost var was := Now(d);
    ghost var table := d.tunPpa[..];
    var result := d.NewPpa(str, p);
    answer := Ioctl(result);
    assert forall i :: 0 <= i < TUNMAXPPA ==> table[i] == old(d.tunPpa[i]);
    if result.Ok? {
      if p == -1 {
        FreeIdIs(was.members, result.value);
      }
      if old(str.ppa) == null {
        OneStreamAndList(was, d, k, result.value);
        Apart(d, 0);
      }
    } else {
      if p == -1 {
        forall j | 0 <= j < TUNMAXPPA
          ensures j in was.members
        {
          assert table[j] != null;
        }
        FreeIdIs(was.members, TUNMAXPPA);
      }
      Same(was, d);
    }
  }

  lemma MemberOf(d: Driver, str: Str)
    requires d.Valid() && str in d.streams && str.ppa != null
    ensures d.tunPpa.Length == TUNMAXPPA && str.ppa.id < TUNMAXPPA && d.tunPpa[str.ppa.id] == str.ppa
    ensures forall m :: m in str.ppa.members ==> m in d.streams
  {
    assert d.StreamOk(str) && d.PpaOk(str.ppa, d.Roster());
  }

  method OnDetach(d: Driver, str: Str, ghost k: nat, short: bool) returns (answer: Answer)
    requires Stands(d, str, k)
    modifies str`ppa, str`state, d.Ppas()`pStr, d.Ppas()`members, d.streams`pNext
    ensures answer == Dlpi(
      if short then ErrorAck(DL_BADPRIM) else if old(str.state) != Unbound then ErrorAck(DL_OUTSTATE) else OkAck)
    ensures answer == Dlpi(OkAck) ==> str.ppa == null && str.state == Unattached
    ensures answer != Dlpi(OkAck) ==> str.ppa == old(str.ppa) && str.state == old(str.state)
    ensures d.Valid() && (Now(d), answer) == DetachServed(old(Now(d)), k, short)
  {
    hide Driver.Valid, Named, Lists, Nodes, Names, Without;
    OtherStreams(d, str, k);
    if str.ppa != null {
      MemberOf(d, str);
      Apart(d, str.ppa.id);
      NamesWithout(d, str.ppa.members, str);
    }
    ghost var was := Now(d);
    var ack := d.DetachReq(str, short);
    answer := Dlpi(ack);
    Apart(d, 0);
    assert d.tunPpa[..] == old(d.tunPpa[..]);
    forall i | i in was.members && (ack != OkAck || d.tunPpa[i] != old(str.ppa))
      ensures was.members[i] == Names(d.tunPpa[i].members)
    {
      assert d.tunPpa[i] in d.Ppas();
      assert d.tunPpa[i].members == old(d.tunPpa[i].members);
    }
    if ack == OkAck {
      OneStreamAndList(was, d, k, old(str.ppa).id);
    } else {
      Same(was, d);
    }
  }

  method OnBind(d: Driver, str: Str, ghost k: nat, short: bool, sap: nat, xidtest: bool) returns (answer: Answer)
    requires Stands(d, str, k)
    modifies str`state, str`sap
    ensures answer == Dlpi(
      if short then ErrorAck(DL_BADPRIM)
      else if old(str.state) != Unbound then ErrorAck(DL_OUTSTATE)
      else if xidtest then ErrorAck(DL_NOAUTO)
      else if sap > 0xffff then ErrorAck(DL_BADSAP)
      else OkAck)
    ensures answer == Dlpi(OkAck) ==> str.state == Idle && str.sap == sap
    ensures answer != Dlpi(OkAck) ==> str.state == old(str.state) && str.sap == old(str.sap)
    ensures d.Valid() && (Now(d), answer) == BindServed(old(Now(d)), k, short, sap, xidtest)
  {
    hide Driver.Valid, Lists, Nodes, Names;
    OtherStreams(d, str, k);
    ghost var was := Now(d);
    var ack := d.BindReq(str, short, sap, xidtest);
    answer := Dlpi(ack);
    OneStream(was, d, k);
  }

  method OnUnbind(d: Driver, str: Str, ghost k: nat, short: bool) returns (answer: Answer)
    requires Stands(d, str, k)
    modifies str`state, str`sap
    ensures answer == Dlpi(
      if short then ErrorAck(DL_BADPRIM) else if old(str.state) != Idle then ErrorAck(DL_OUTSTATE) else OkAck)
    ensures answer == Dlpi(OkAck) ==> str.state == Unbound && str.sap == 0
    ensures answer != Dlpi(OkAck) ==> str.state == old(str.state) && str.sap == old(str.sap)
    ensures d.Valid() && (Now(d), answer) == UnbindServed(old(Now(d)), k, short)
  {
    hide Driver.Valid, Lists, Nodes, Names;
    OtherStreams(d, str, k);
    ghost var was := Now(d);
    var ack := d.UnbindReq(str, short);
    answer := Dlpi(ack);
    OneStream(was, d, k);
  }

  //
  // Opens and closes
  //

  lemma NamedAfterOpen(d: Driver, was: seq<Str>, births: nat, str: Str, k: nat)
    requires k <= |was| && d.streams == was[..k] + [str] + was[k..] && d.births == births + 1 && str.name == births
    requires Named(was, births)
    ensures Named(d.streams, d.births)
  {
    forall i | 0 <= i < |d.streams|
      ensures d.streams[i] == if i < k then was[i] else if i == k then str else was[i - 1]
    {
    }
  }

  /** An open of a queue that has no stream. */
  method OnOpen(d: Driver, rq: nat, clone: bool, devMinor: nat) returns (answer: Answer)
    requires d.Valid() && Named(d.streams, d.births)
    modifies d`tunStr, d`streams, d`births, d.streams`sNext
    ensures d.Valid() && Named(d.streams, d.births)
    ensures var w := old(Now(d)); var minor := if clone then Gap(Numbers(w.streams), 0) else devMinor;
      answer == Opened(minor) && Now(d) == Added(w, if clone then minor else 0, rq, minor)
    ensures forall i :: 0 <= i < |d.streams| ==> fresh(d.streams[i]) || d.streams[i] in old(d.streams)
  {
    hide Driver.Valid, Named, Names, Gap, Changed, Nodes, Lists, Numbers, Minors, Driver.Ppas;
    NumbersAre(d);
    ghost var was, streams := Now(d), d.streams;
    var str, minor := d.Open(rq, null, clone, devMinor);
    answer := Opened(minor);
    ghost var k := if clone then minor else 0;
    NamedAfterOpen(d, streams, was.births, str, k);
    MoreNodes(d, was.streams, streams, str, k);
    SameLists(was.members, d);
  }

  /** One more stream, and the others as they were. */
  lemma MoreNodes(d: Driver, was: seq<Node>, streams: seq<Str>, str: Str, k: nat)
    requires k <= |streams| == |was| && d.streams == streams[..k] + [str] + streams[k..]
    requires forall i :: 0 <= i < |streams| ==> was[i] == NodeOf(streams[i])
    ensures Nodes(d.streams) == was[..k] + [NodeOf(str)] + was[k..]
    ensures forall i :: 0 <= i < |d.streams| ==> d.streams[i] == str || d.streams[i] in streams
  {
    forall i | 0 <= i < |d.streams|
      ensures d.streams[i] == if i < k then streams[i] else if i == k then str else streams[i - 1]
    {
    }
  }

  /** The streams of a PPA are its members and its control stream. */
  lemma StreamsOf(d: Driver, str: Str)
    requires d.Valid() && str in d.streams && str.ppa != null
    ensures str.control ==> forall s :: s in d.streams ==>
      (s.ppa != null && s.ppa.id == str.ppa.id <==> s == str || s in str.ppa.members)
    ensures !str.control ==> forall s :: s in d.streams && s != str && s.ppa == null ==> s !in str.ppa.members
  {
    assert d.StreamOk(str) && d.PpaOk(str.ppa, d.Roster());
    forall s | s in d.streams
      ensures s.ppa != null && s.ppa.id == str.ppa.id ==> s.ppa == str.ppa
      ensures s.ppa == str.ppa && s.control && str.control ==> s == str
      ensures s.ppa == str.ppa && !s.control ==> s in str.ppa.members
    {
      assert d.StreamOk(s);
    }
  }

  lemma NamedAfterClose(d: Driver, was: seq<Str>, k: nat)
    requires k < |was| && d.streams == CutOut(was, k)
    requires Named(was, d.births)
    ensures Named(d.streams, d.births)
  {
    forall i | 0 <= i < |d.streams|
      ensures d.streams[i] == was[if i < k then i else i + 1]
    {
    }
  }

  /** The close of a stream that has no PPA. */
  method OnCloseAlone(d: Driver, str: Str, ghost k: nat)
    requires Stands(d, str, k) && str.ppa == null
    modifies d`tunStr, d`streams, d.tunPpa, d.Ppas()`pStr, d.Ppas()`members,
      d.streams`sNext, d.streams`pNext, d.streams`ppa, d.streams`state
    ensures d.Valid() && d.streams == CutOut(old(d.streams), k) && Now(d) == Gone(old(Now(d)), k)
    ensures d.Ppas() <= old(d.Ppas())
  {
    hide Driver.Valid, Nodes, Names, Without, NoDuplicates, CutOut;
    ghost var was, streams := Now(d), d.streams;
    NotControlling(d, str);
    OneOpen(d, k);
    d.Close(str);
    Apart(d, 0);
    WithoutOne(streams, k);
    CutNodes(d, was.streams, streams, k);
    forall i | i in was.members
      ensures was.members[i] == Names(d.tunPpa[i].members)
    {
      assert d.tunPpa[i] in d.Ppas();
    }
    assert Lists(d) == was.members;
  }

  lemma NotControlling(d: Driver, str: Str)
    requires d.Valid() && str in d.streams && str.ppa == null
    ensures !str.control
  {
    assert d.StreamOk(str);
  }

  lemma OneOpen(d: Driver, k: nat)
    requires d.Valid() && k < |d.streams|
    ensures NoDuplicates(d.streams)
  {
  }

  /** All streams but one are left. */
  lemma CutNodes(d: Driver, was: seq<Node>, streams: seq<Str>, k: nat)
    requires k < |streams| == |was| && d.streams == CutOut(streams, k)
    requires forall i :: 0 <= i < |streams| && i != k ==> was[i] == NodeOf(streams[i])
    ensures Nodes(d.streams) == CutOut(was, k)
  {
    forall i | 0 <= i < |was| - 1
      ensures Nodes(d.streams)[i] == CutOut(was, k)[i]
    {
      assert d.streams[i] == streams[if i < k then i else i + 1];
    }
  }

  /** The close of a member of a PPA. */
  method OnCloseMember(d: Driver, str: Str, ghost k: nat)
    requires Stands(d, str, k) && str.ppa != null && !str.control
    modifies d`tunStr, d`streams, d.tunPpa, d.Ppas()`pStr, d.Ppas()`members,
      d.streams`sNext, d.streams`pNext, d.streams`ppa, d.streams`state
    ensures d.Valid() && d.streams == CutOut(old(d.streams), k) && Now(d) == Gone(old(Now(d)), k)
    ensures d.Ppas() <= old(d.Ppas())
  {
    hide Driver.Valid, Nodes, Names, Without, NoDuplicates, CutOut;
    ghost var was, streams, ppa := Now(d), d.streams, str.ppa;
    OneOpen(d, k);
    MemberOf(d, str);
    Apart(d, ppa.id);
    NamesWithout(d, ppa.members, str);
    d.Close(str);
    WithoutOne(streams, k);
    CutNodes(d, was.streams, streams, k);
    Apart(d, 0);
    forall i | i in was.members && i != ppa.id
      ensures was.members[i] == Names(d.tunPpa[i].members)
    {
      assert d.tunPpa[i] in d.Ppas();
    }
    assert Lists(d) == Left(was.members, ppa.id, str.name);
  }

  /** The close of a control stream, field by field. */
  method DropControl(d: Driver, str: Str, ghost k: nat)
    requires Stands(d, str, k) && str.ppa != null && str.control
    modifies d`tunStr, d`streams, d.tunPpa, d.Ppas()`pStr, d.Ppas()`members,
      d.streams`sNext, d.streams`pNext, d.streams`ppa, d.streams`state
    ensures d.Valid() && d.streams == CutOut(old(d.streams), k) && d.Ppas() <= old(d.Ppas())
    ensures old(str.ppa).id < d.tunPpa.Length && d.tunPpa[..] == old(d.tunPpa[..])[old(str.ppa).id := null]
    ensures forall q :: q in d.Ppas() ==> q.members == old(q.members)
    ensures forall i :: 0 <= i < |old(d.streams)| && i != k ==>
      NodeOf(old(d.streams)[i]) == LetGo(old(Nodes(d.streams)), old(str.ppa).id)[i]
  {
    hide Driver.Valid, Nodes, Names, Without, NoDuplicates, CutOut;
    ghost var was, streams, id, members := Nodes(d.streams), d.streams, str.ppa.id, str.ppa.members;
    OneOpen(d, k);
    OtherStreams(d, str, k);
    MemberOf(d, str);
    StreamsOf(d, str);
    forall i | 0 <= i < |streams| && i != k
      ensures was[i].ppa == Some(id) <==> streams[i] in members
    {
      assert streams[i] in streams;
    }
    d.Close(str);
    WithoutOne(streams, k);
    forall i | 0 <= i < |streams| && i != k
      ensures NodeOf(streams[i]) == LetGo(was, id)[i]
    {
      assert streams[i] in streams;
    }
  }

  /** The close of a control stream. */
  method OnCloseControl(d: Driver, str: Str, ghost k: nat)
    requires Stands(d, str, k) && str.ppa != null && str.control
    modifies d`tunStr, d`streams, d.tunPpa, d.Ppas()`pStr, d.Ppas()`members,
      d.streams`sNext, d.streams`pNext, d.streams`ppa, d.streams`state
    ensures d.Valid() && d.streams == CutOut(old(d.streams), k) && Now(d) == Gone(old(Now(d)), k)
    ensures d.Ppas() <= old(d.Ppas())
  {
    hide Driver.Valid, Nodes, Names, CutOut, LetGo, Lists;
    ghost var was, streams, id := Now(d), d.streams, str.ppa.id;
    MemberOf(d, str);
    ghost var table := d.tunPpa[..];
    DropControl(d, str, k);
    CutNodes(d, LetGo(was.streams, id), streams, k);
    forall i | i in was.members && i != id
      ensures d.tunPpa[i] != null && was.members[i] == Names(d.tunPpa[i].members)
    {
      assert d.tunPpa[i] == table[i] && d.tunPpa[i] in d.Ppas();
    }
    OneListLess(was.members, d, id);
  }

  /** The close of any stream. */
  method OnClose(d: Driver, str: Str, ghost k: nat)
    requires Stands(d, str, k)
    modifies d`tunStr, d`streams, d.tunPpa, d.Ppas()`pStr, d.Ppas()`members,
      d.streams`sNext, d.streams`pNext, d.streams`ppa, d.streams`state
    ensures d.Valid() && Named(d.streams, d.births)
    ensures d.streams == CutOut(old(d.streams), k) && Now(d) == Gone(old(Now(d)), k)
    ensures d.Ppas() <= old(d.Ppas())
  {
    hide Driver.Valid, Named, Nodes, Names, Gone, CutOut;
    ghost var streams := d.streams;
    if str.ppa == null {
      OnCloseAlone(d, str, k);
    } else if str.control {
      OnCloseControl(d, str, k);
    } else {
      OnCloseMember(d, str, k);
    }
    NamedAfterClose(d, streams, k);
  }

  //
  // Runs
  //

  /**
   * A request of an open stream that leaves the list of streams as it is. `sound` says that the
   * stream was not given a PPA while it had one.
   */
  method HandleAt(d: Driver, str: Str, ghost k: nat, r: Request) returns (answer: Answer, sound: bool)
    requires Stands(d, str, k) && InTable(r)
    requires !r.CloneOpen? && !r.DeviceOpen? && !r.CloseStream?
    modifies d`tunStr, d`streams, d`births, d.streams`sNext, d.tunPpa, d.Ppas()`pStr, d.Ppas()`members, d.streams`pNext,
      str`ppa, str`control, str`state, str`sap
    ensures d.streams == old(d.streams) && d.births == old(d.births)
    // what is answered
    ensures r.Reopen? ==> answer == Opened(if r.clone then Gap(Minors(d.streams), 0) else r.devMinor)
    ensures r.NewPpaRequest? ==>
      && answer.Ioctl?
      && (answer == Ioctl(Err(EINVAL)) <==> r.p < -1 || r.p >= 20)
      && (answer == Ioctl(Err(EEXIST)) <==> 0 <= r.p < 20 && old(d.tunPpa[r.p]) != null)
    ensures r.SetPpaRequest? ==> answer == Ioctl(
      if !(0 <= r.p < 20) then Err(EINVAL) else if d.tunPpa[r.p] == null then Err(ENODEV) else Ok(r.p))
    ensures r.AttachRequest? ==> answer == Dlpi(
      if r.short then ErrorAck(DL_BADPRIM)
      else if old(str.state) != Unattached then ErrorAck(DL_OUTSTATE)
      else if !(0 <= r.p < 20) || d.tunPpa[r.p] == null then ErrorAck(DL_BADPPA)
      else OkAck)
    ensures r.DetachRequest? ==> answer == Dlpi(
      if r.short then ErrorAck(DL_BADPRIM) else if old(str.state) != Unbound then ErrorAck(DL_OUTSTATE) else OkAck)
    ensures r.BindRequest? ==> answer == Dlpi(
      if r.short then ErrorAck(DL_BADPRIM)
      else if old(str.state) != Unbound then ErrorAck(DL_OUTSTATE)
      else if r.xidtest then ErrorAck(DL_NOAUTO)
      else if r.sap > 0xffff then ErrorAck(DL_BADSAP)
      else OkAck)
    ensures r.UnbindRequest? ==> answer == Dlpi(
      if r.short then ErrorAck(DL_BADPRIM) else if old(str.state) != Idle then ErrorAck(DL_OUTSTATE) else OkAck)
    // what becomes of the stream
    ensures r.NewPpaRequest? && answer.result.Ok? ==>
      && 0 <= answer.result.value < 20 && (r.p == -1 || r.p == answer.result.value)
      && old(d.tunPpa[answer.result.value]) == null && d.tunPpa[answer.result.value] != null
      && str.ppa == d.tunPpa[answer.result.value] && str.control
    ensures r.SetPpaRequest? && answer.result.Ok? ==> str.ppa == d.tunPpa[r.p]
    ensures r.AttachRequest? && answer == Dlpi(OkAck) ==> str.ppa == d.tunPpa[r.p] && str.state == Unbound
    ensures r.DetachRequest? && answer == Dlpi(OkAck) ==> str.ppa == null && str.state == Unattached
    ensures r.BindRequest? && answer == Dlpi(OkAck) ==> str.state == Idle && str.sap == r.sap
    ensures r.UnbindRequest? && answer == Dlpi(OkAck) ==> str.state == Unbound && str.sap == 0
    // and of the whole
    ensures answer == ServedAt(old(Now(d)), k, r).1
    ensures sound <==> !(old(str.ppa) != null && GivesPpa(r, answer))
    ensures sound ==> d.Valid() && Now(d) == ServedAt(old(Now(d)), k, r).0
    ensures !sound ==> !d.Sound()
    ensures forall p :: p in d.Ppas() ==> fresh(p) || p in old(d.Ppas())
  {
    hide Driver.Valid, Driver.Sound, Nodes, Lists, NewPpaServed, SetPpaServed, AttachServed, DetachServed, BindServed,
      UnbindServed, Gone, Gap, Minors, Named;
    Apart(d, 0);
    var had := str.ppa != null;
    sound := true;
    match r
    case Reopen(_, clone, devMinor) =>
      NumbersAre(d);
      ghost var was := Now(d);
      var kept, minor := d.Open(str.rq, str, clone, devMinor);
      answer := Opened(minor);
      Same(was, d);
    case NewPpaRequest(_, p) =>
      answer := OnNewPpa(d, str, k, p);
      sound := !(had && answer.result.Ok?);
    case SetPpaRequest(_, p) =>
      answer := OnSetPpa(d, str, k, p);
      sound := !(had && answer.result.Ok?);
    case AttachRequest(_, short, p) =>
      answer := OnAttach(d, str, k, short, p);
      sound := !(had && answer == Dlpi(OkAck));
    case DetachRequest(_, short) =>
      answer := OnDetach(d, str, k, short);
    case BindRequest(_, short, sap, xidtest) =>
      answer := OnBind(d, str, k, short, sap, xidtest);
    case UnbindRequest(_, short) =>
      answer := OnUnbind(d, str, k, short);
  }

  lemma SomeOpen(d: Driver)
    requires d.Valid()
    ensures d.Threaded() && (d.tunStr == null <==> d.streams == [])
  {
  }

  lemma InPicture(d: Driver, str: Str, k: nat)
    requires Stands(d, str, k)
    ensures |Now(d).streams| == |d.streams| && (Now(d).streams[k].ppa.Some? <==> str.ppa != null)
  {
  }

  lemma CloseServed(w: World, k: nat, r: Request)
    requires k < |w.streams| && r.CloseStream?
    ensures ServedAt(w, k, r) == (Gone(w, k), Closed) && !GivesPpa(r, Closed)
  {
  }

  /** A request of an open stream. */
  method HandleOne(d: Driver, r: Request) returns (answer: Answer, sound: bool)
    requires d.Valid() && Named(d.streams, d.births) && d.streams != [] && InTable(r) && !r.CloneOpen? && !r.DeviceOpen?
    modifies d, d.tunPpa, d.streams, d.Ppas()
    ensures var w := old(Now(d)); var k := Min(r.i, |w.streams| - 1);
      && answer == ServedAt(w, k, r).1
      && (sound <==> !(w.streams[k].ppa.Some? && GivesPpa(r, answer)))
      && (sound ==> d.Valid() && Named(d.streams, d.births) && Now(d) == ServedAt(w, k, r).0)
    ensures d.streams ==
      if r.CloseStream? then CutOut(old(d.streams), Min(r.i, |old(d.streams)| - 1)) else old(d.streams)
    ensures !sound ==> !d.Sound()
    ensures forall p :: p in d.Ppas() ==> fresh(p) || p in old(d.Ppas())
  {
    hide Driver.Valid, Driver.Sound, Driver.Threaded, Nodes, Lists, CutOut, Gone, ServedAt, Gap, GivesPpa, Named, Now;
    SomeOpen(d);
    ghost var k := Min(r.i, |d.streams| - 1);
    var str := d.Pick(r.i);
    InPicture(d, str, k);
    sound := true;
    if r.CloseStream? {
      CloseServed(Now(d), k, r);
      OnClose(d, str, k);
      answer := Closed;
    } else {
      answer, sound := HandleAt(d, str, k, r);
    }
  }

  /**
   * Serves one request, as Served says. When the request gave a PPA to a stream that had one
   * already, the lists are ruined.
   */
  method Handle(d: Driver, r: Request) returns (answer: Answer, sound: bool)
    requires d.Valid() && Named(d.streams, d.births) && InTable(r)
    modifies d, d.tunPpa, d.streams, d.Ppas()
    ensures !r.CloneOpen? && !r.DeviceOpen? && old(d.streams) != [] ==>
      var w := old(Now(d)); var k := Min(r.i, |w.streams| - 1);
      answer == ServedAt(w, k, r).1 && (sound ==> Now(d) == ServedAt(w, k, r).0)
    ensures answer == Served(old(Now(d)), r).1
    ensures sound <==> !Ruins(old(Now(d)), r)
    ensures sound ==> d.Valid() && Named(d.streams, d.births) && Now(d) == Served(old(Now(d)), r).0
    ensures !sound ==> !d.Sound()
    ensures forall i :: 0 <= i < |d.streams| ==> fresh(d.streams[i]) || d.streams[i] in old(d.streams)
    ensures forall p :: p in d.Ppas() ==> fresh(p) || p in old(d.Ppas())
  {
    hide Driver.Valid, Driver.Sound, Driver.Threaded, Nodes, Lists, ServedAt, Gap, Minors, CutOut, Named;
    sound := true;
    if r.CloneOpen? || r.DeviceOpen? {
      answer := OnOpen(d, r.rq, r.CloneOpen?, if r.DeviceOpen? then r.devMinor else 0);
      return;
    }
    SomeOpen(d);
    if d.tunStr == null {
      return NoStream, true;
    }
    ghost var streams, k := d.streams, Min(r.i, |d.streams| - 1);
    CutMembers(streams, k);
    answer, sound := HandleOne(d, r);
  }

  lemma CutMembers(s: seq<Str>, k: nat)
    requires k < |s|
    ensures forall i :: 0 <= i < |CutOut(s, k)| ==> CutOut(s, k)[i] in s
  {
  }

  lemma NothingYet(d: Driver)
    requires d.Valid() && d.streams == [] && d.Ppas() == {} && d.births == 0
    ensures Now(d) == WorldAfter([]) && Named(d.streams, d.births)
  {
    Apart(d, 0);
    assert Lists(d) == map[];
  }

  lemma ValidIsSound(d: Driver)
    requires d.Valid()
    ensures d.Sound()
  {
    d.ValidIsSound();
  }

  lemma NextServed(script: seq<Request>, n: nat)
    requires n < |script|
    ensures (WorldAfter(script[..n + 1]), AnswerAt(script, n)) == Served(WorldAfter(script[..n]), script[n])
  {
    assert script[..n + 1][..n] == script[..n];
  }

  lemma NotProper(script: seq<Request>, n: nat)
    requires n < |script| && Ruins(WorldAfter(script[..n]), script[n])
    ensures !Proper(script)
  {
  }

  lemma IsProper(script: seq<Request>)
    requires forall k :: 0 <= k < |script| ==> !Ruins(WorldAfter(script[..k]), script[k])
    ensures Proper(script)
  {
  }

  /**
   * Any run of requests on a fresh driver. As long as no stream that has a PPA is given one
   * again, the lists agree with the run's picture, and every answer is the picture's; the PPAs
   * stay sound exactly so long.
   */
  method Serve(script: seq<Request>) returns (d: Driver, answers: seq<Answer>)
    requires forall k :: 0 <= k < |script| ==> InTable(script[k])
    ensures |answers| <= |script| && forall k :: 0 <= k < |answers| ==> answers[k] == AnswerAt(script, k)
    ensures Proper(script) ==> |answers| == |script| && d.Valid() && Now(d) == WorldAfter(script)
    ensures d.Sound() <==> Proper(script)
  {
    hide Driver.Valid, Driver.Sound, Named, Ruins, Served, Now, WorldAfter, AnswerAt, Proper;
    d := new Driver();
    answers := [];
    NothingYet(d);
    assert script[..0] == [];
    for n := 0 to |script|
      invariant d.Valid() && Named(d.streams, d.births) && |answers| == n && Now(d) == WorldAfter(script[..n])
      invariant forall k :: 0 <= k < n ==> answers[k] == AnswerAt(script, k)
      invariant forall k :: 0 <= k < n ==> !Ruins(WorldAfter(script[..k]), script[k])
      invariant fresh(d) && fresh(d.tunPpa)
      invariant forall i :: 0 <= i < |d.streams| ==> fresh(d.streams[i])
      invariant forall p :: p in d.Ppas() ==> fresh(p)
    {
      NextServed(script, n);
      var answer, sound := Handle(d, script[n]);
      answers := answers + [answer];
      if !sound {
        NotProper(script, n);
        return;
      }
    }
    assert script[..|script|] == script;
    IsProper(script);
    ValidIsSound(d);
  }
}
