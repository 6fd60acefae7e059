/**
 * What the Solaris driver (tun.c) does with a request, apart from its lists: a stream is known
 * by the number of its open, and of a PPA only the order of its members is kept. A run of
 * requests is served on this picture, and answered; the lists must agree with it.
 */
module StreamProtocol {
  import opened Collections
  import opened MinorNumbers

  const TUNMAXPPA := 20
  const ETHERTYPE_MAX := 0xffff

  datatype DlState = Unattached | Unbound | Idle

  datatype Errno = EINVAL | EEXIST | ENOMEM | ENODEV

  datatype DlError = DL_BADPRIM | DL_OUTSTATE | DL_BADPPA | DL_SYSERR | DL_NOAUTO | DL_BADSAP

  datatype Ack = OkAck | ErrorAck(error: DlError)

  /** A request; `i` names the stream at that place of the list, or the last one. */
  datatype Request =
    | CloneOpen(rq: nat)
    | DeviceOpen(rq: nat, devMinor: nat)
    | Reopen(i: nat, clone: bool, devMinor: nat)  // on a queue that has a stream
    | CloseStream(i: nat)
    | NewPpaRequest(i: nat, p: int)
    | SetPpaRequest(i: nat, p: int)
    | AttachRequest(i: nat, short: bool, p: int)
    | DetachRequest(i: nat, short: bool)
    | BindRequest(i: nat, short: bool, sap: nat, xidtest: bool)
    | UnbindRequest(i: nat, short: bool)

  datatype Answer =
    | Opened(minor: nat)
    | Closed
    | Ioctl(result: Result<int, Errno>)
    | Dlpi(ack: Ack)
    | NoStream  // nothing is open that could make the request

  /** A stream; `name` counts the opens before its own. */
  datatype Node = Node(name: nat, rq: nat, minor: nat, ppa: Option<nat>, control: bool, state: DlState, sap: nat)

  /** The streams along the driver's list, and the names of each PPA's members, in order. */
  datatype World = World(streams: seq<Node>, members: map<nat, seq<nat>>, births: nat)

  /** The range check on the id of a PPA, in TUNSETPPA, DL_ATTACH_REQ and, -1 aside, TUNNEWPPA. */
  predicate InRange(p: int) {
    0 <= p <= TUNMAXPPA
  }

  /** The check lets through exactly one id that is not in the table. */
  lemma PastTheTableExactlyWhen(p: int)
    ensures InRange(p) && !(0 <= p < TUNMAXPPA) <==> p == TUNMAXPPA
  {
  }

  /** The request does not name that id. */
  predicate InTable(r: Request) {
    r.NewPpaRequest? || r.SetPpaRequest? || r.AttachRequest? ==> r.p != TUNMAXPPA
  }

  function Numbers(streams: seq<Node>): (ms: seq<nat>)
    ensures |ms| == |streams| && forall i :: 0 <= i < |ms| ==> ms[i] == streams[i].minor
  {
    seq(|streams|, i requires 0 <= i < |streams| => streams[i].minor)
  }

  /** A new stream at place `k` of the list. */
  function Added(w: World, k: nat, rq: nat, minor: nat): World
    requires k <= |w.streams|
  {
    w.(streams := w.streams[..k] + [Node(w.births, rq, minor, None, false, Unattached, 0)] + w.streams[k..],
       births := w.births + 1)
  }

  /** The least id from `i` on that no PPA has, if there is one. */
  function FreeId(members: map<nat, seq<nat>>, i: nat): (id: nat)
    requires i <= TUNMAXPPA
    ensures i <= id <= TUNMAXPPA
    ensures forall j :: i <= j < id ==> j in members
    ensures id < TUNMAXPPA ==> id !in members
    decreases TUNMAXPPA - i
  {
    if i == TUNMAXPPA || i !in members then i else FreeId(members, i + 1)
  }

  /** The stream at place `k` goes; with a control stream goes its PPA, which its members then have no more. */
  ghost function Gone(w: World, k: nat): World
    requires k < |w.streams|
  {
    var s := w.streams[k];
    if s.ppa == None then w.(streams := CutOut(w.streams, k))
    else if s.control then
      w.(streams := CutOut(LetGo(w.streams, s.ppa.value), k), members := w.members - {s.ppa.value})
    else w.(streams := CutOut(w.streams, k), members := Left(w.members, s.ppa.value, s.name))
  }

  /** Every stream of the PPA is UNATTACHED and without it. */
  function LetGo(streams: seq<Node>, id: nat): (r: seq<Node>)
    ensures |r| == |streams|
  {
    seq(|streams|, i requires 0 <= i < |streams| =>
      if streams[i].ppa == Some(id) then streams[i].(ppa := None, state := Unattached) else streams[i])
  }

  /** One member less. */
  ghost function Left(members: map<nat, seq<nat>>, id: nat, name: nat): map<nat, seq<nat>> {
    if id in members then members[id := Without(members[id], {name})] else members
  }

  /** TUNNEWPPA by the stream at place `k`: it controls a new PPA, with the id asked for or the least free one. */
  function NewPpaServed(w: World, k: nat, p: int): (World, Answer)
    requires k < |w.streams|
  {
    if p < -1 || p > TUNMAXPPA then (w, Ioctl(Err(EINVAL)))
    else if p != -1 && p in w.members then (w, Ioctl(Err(EEXIST)))
    else
      var id := if p == -1 then FreeId(w.members, 0) else p;
      if p == -1 && id == TUNMAXPPA then (w, Ioctl(Err(ENOMEM)))
      else
        (w.(streams := w.streams[k := w.streams[k].(ppa := Some(id), control := true)], members := w.members[id := []]),
         Ioctl(Ok(id)))
  }

  /** The stream at place `k` becomes the first member of a PPA. */
  function Joined(w: World, k: nat, p: nat, state: DlState): World
    requires k < |w.streams| && p in w.members
  {
    var s := w.streams[k];
    w.(streams := w.streams[k := s.(ppa := Some(p), state := state)], members := w.members[p := [s.name] + w.members[p]])
  }

  /** TUNSETPPA */
  function SetPpaServed(w: World, k: nat, p: int): (World, Answer)
    requires k < |w.streams|
  {
    if !InRange(p) then (w, Ioctl(Err(EINVAL)))
    else if p !in w.members then (w, Ioctl(Err(ENODEV)))
    else (Joined(w, k, p, w.streams[k].state), Ioctl(Ok(p)))
  }

  /** DL_ATTACH_REQ */
  function AttachServed(w: World, k: nat, short: bool, p: int): (World, Answer)
    requires k < |w.streams|
  {
    if short then (w, Dlpi(ErrorAck(DL_BADPRIM)))
    else if w.streams[k].state != Unattached then (w, Dlpi(ErrorAck(DL_OUTSTATE)))
    else if p < 0 || p !in w.members then (w, Dlpi(ErrorAck(DL_BADPPA)))
    else (Joined(w, k, p, Unbound), Dlpi(OkAck))
  }

  /** DL_DETACH_REQ */
  ghost function DetachServed(w: World, k: nat, short: bool): (World, Answer)
    requires k < |w.streams|
  {
    var s := w.streams[k];
    if short then (w, Dlpi(ErrorAck(DL_BADPRIM)))
    else if s.state != Unbound then (w, Dlpi(ErrorAck(DL_OUTSTATE)))
    else
      (w.(streams := w.streams[k := s.(ppa := None, state := Unattached)],
          members := if s.ppa.Some? then Left(w.members, s.ppa.value, s.name) else w.members),
       Dlpi(OkAck))
  }

  /** DL_BIND_REQ */
  function BindServed(w: World, k: nat, short: bool, sap: nat, xidtest: bool): (World, Answer)
    requires k < |w.streams|
  {
    if short then (w, Dlpi(ErrorAck(DL_BADPRIM)))
    else if w.streams[k].state != Unbound then (w, Dlpi(ErrorAck(DL_OUTSTATE)))
    else if xidtest then (w, Dlpi(ErrorAck(DL_NOAUTO)))
    else if sap > ETHERTYPE_MAX then (w, Dlpi(ErrorAck(DL_BADSAP)))
    else (w.(streams := w.streams[k := w.streams[k].(state := Idle, sap := sap)]), Dlpi(OkAck))
  }

  /** DL_UNBIND_REQ */
  function UnbindServed(w: World, k: nat, short: bool): (World, Answer)
    requires k < |w.streams|
  {
    if short then (w, Dlpi(ErrorAck(DL_BADPRIM)))
    else if w.streams[k].state != Idle then (w, Dlpi(ErrorAck(DL_OUTSTATE)))
    else (w.(streams := w.streams[k := w.streams[k].(state := Unbound, sap := 0)]), Dlpi(OkAck))
  }

  /** A request of the stream at place `k`. */
  ghost function ServedAt(w: World, k: nat, r: Request): (World, Answer)
    requires k < |w.streams| && !r.CloneOpen? && !r.DeviceOpen?
  {
    match r
    case Reopen(_, clone, devMinor) => (w, Opened(if clone then Gap(Numbers(w.streams), 0) else devMinor))
    case CloseStream(_) => (Gone(w, k), Closed)
    case NewPpaRequest(_, p) => NewPpaServed(w, k, p)
    case SetPpaRequest(_, p) => SetPpaServed(w, k, p)
    case AttachRequest(_, short, p) => AttachServed(w, k, short, p)
    case DetachRequest(_, short) => DetachServed(w, k, short)
    case BindRequest(_, short, sap, xidtest) => BindServed(w, k, short, sap, xidtest)
    case UnbindRequest(_, short) => UnbindServed(w, k, short)
  }

  /** What a request does, and its answer. */
  ghost function Served(w: World, r: Request): (World, Answer) {
    match r
    case CloneOpen(rq) =>
      var minor := Gap(Numbers(w.streams), 0);
      (Added(w, minor, rq, minor), Opened(minor))
    case DeviceOpen(rq, devMinor) => (Added(w, 0, rq, devMinor), Opened(devMinor))
    case _ => if w.streams == [] then (w, NoStream) else ServedAt(w, Min(r.i, |w.streams| - 1), r)
  }

  /** The request was one for a PPA, and was granted. */
  predicate GivesPpa(r: Request, answer: Answer) {
    && (r.NewPpaRequest? || r.SetPpaRequest? || r.AttachRequest?)
    && (answer == Dlpi(OkAck) || (answer.Ioctl? && answer.result.Ok?))
  }

  /** The request gives a stream that has a PPA another one, or the same once more. */
  ghost predicate Ruins(w: World, r: Request) {
    && GivesPpa(r, Served(w, r).1)
    && w.streams[Min(r.i, |w.streams| - 1)].ppa.Some?
  }

  //
  // Runs
  //

  ghost function WorldAfter(script: seq<Request>): World {
    if script == [] then World([], map[], 0)
    else Served(WorldAfter(script[..|script| - 1]), script[|script| - 1]).0
  }

  /** No stream that has a PPA is given one again. */
  ghost predicate Proper(script: seq<Request>) {
    forall k :: 0 <= k < |script| ==> !Ruins(WorldAfter(script[..k]), script[k])
  }

  ghost function AnswerAt(script: seq<Request>, k: nat): Answer
    requires k < |script|
  {
    Served(WorldAfter(script[..k]), script[k]).1
  }

  lemma OneMore(script: seq<Request>, r: Request)
    ensures WorldAfter(script + [r]) == Served(WorldAfter(script), r).0
  {
    assert (script + [r])[..|script|] == script;
  }

  /** An interface with one protocol stream, as the tools set it up: it is IDLE, and the only member. */
  lemma SetUp(sap: nat) returns (script: seq<Request>)
    requires sap <= 0xffff
    ensures script == [CloneOpen(0), NewPpaRequest(0, -1), CloneOpen(1), AttachRequest(1, false, 0),
                       BindRequest(1, false, sap, false)]
    ensures WorldAfter(script) == World(
      [Node(0, 0, 0, Some(0), true, Unattached, 0), Node(1, 1, 1, Some(0), false, Idle, sap)], map[0 := [1]], 2)
  {
    hide WorldAfter;
    script := [];
    assert WorldAfter([]) == World([], map[], 0) by {
      NothingServed();
    }
    OneMore(script, CloneOpen(0));
    script := script + [CloneOpen(0)];
    assert WorldAfter(script) == World([Node(0, 0, 0, None, false, Unattached, 0)], map[], 1);
    OneMore(script, NewPpaRequest(0, -1));
    script := script + [NewPpaRequest(0, -1)];
    assert WorldAfter(script) == World([Node(0, 0, 0, Some(0), true, Unattached, 0)], map[0 := []], 1);
    var first, second := Node(0, 0, 0, Some(0), true, Unattached, 0), Node(1, 1, 1, None, false, Unattached, 0);
    var w := WorldAfter(script);
    assert Gap([0], 1) == 1 && Gap([0], 0) == 1;
    assert Numbers(w.streams) == [0];
    assert Added(w, 1, 1, 1).streams == [first, second];
    assert Served(w, CloneOpen(1)).0 == Added(w, 1, 1, 1);
    OneMore(script, CloneOpen(1));
    script := script + [CloneOpen(1)];
    assert WorldAfter(script).streams == [first, second];
    assert WorldAfter(script) == World([first, second], map[0 := []], 2);
    w := WorldAfter(script);
    assert Joined(w, 1, 0, Unbound).members[0] == [1];
    OneMore(script, AttachRequest(1, false, 0));
    script := script + [AttachRequest(1, false, 0)];
    second := Node(1, 1, 1, Some(0), false, Unbound, 0);
    assert WorldAfter(script).streams == [first, second] && WorldAfter(script).members == map[0 := [1]];
    assert WorldAfter(script) == World([first, second], map[0 := [1]], 2);
    OneMore(script, BindRequest(1, false, sap, false));
    script := script + [BindRequest(1, false, sap, false)];
    assert WorldAfter(script).streams == [first, Node(1, 1, 1, Some(0), false, Idle, sap)];
  }

  lemma NothingServed()
    ensures WorldAfter([]) == World([], map[], 0)
  {
  }

  //
  // What is undone
  //

  /** A detach takes an attach back: the stream is where it was, and so is every list of members. */
  lemma DetachUndoesAttach(w: World, k: nat, p: nat)
    requires k < |w.streams| && w.streams[k].state == Unattached && w.streams[k].ppa == None
    requires p in w.members && w.streams[k].name !in w.members[p]
    ensures AttachServed(w, k, false, p).1 == Dlpi(OkAck)
    ensures DetachServed(AttachServed(w, k, false, p).0, k, false) == (w, Dlpi(OkAck))
  {
    var s := w.streams[k];
    var longer := [s.name] + w.members[p];
    WithoutAppend([s.name], w.members[p], {s.name});
    WithoutAbsent(w.members[p], {s.name});
    assert Without([s.name], {s.name}) == [] by {
      assert [s.name][..0] == [];
    }
    assert Without(longer, {s.name}) == w.members[p];
    var attached := AttachServed(w, k, false, p).0;
    assert attached.members == w.members[p := longer];
    assert attached.streams[k].ppa == Some(p) && attached.streams[k].name == s.name;
    assert Left(attached.members, p, s.name) == w.members;
    assert attached.streams[k := s] == w.streams;
  }

  lemma UnbindUndoesBind(w: World, k: nat, sap: nat)
    requires k < |w.streams| && w.streams[k].state == Unbound && w.streams[k].sap == 0 && sap <= 0xffff
    ensures BindServed(w, k, false, sap, false).1 == Dlpi(OkAck)
    ensures UnbindServed(BindServed(w, k, false, sap, false).0, k, false) == (w, Dlpi(OkAck))
  {
    var bound := BindServed(w, k, false, sap, false).0;
    assert bound.streams[k].(state := Unbound, sap := 0) == w.streams[k];
    assert bound.streams[k := w.streams[k]] == w.streams;
  }

  lemma CloseUndoesOpen(w: World, k: nat, rq: nat, minor: nat)
    requires k <= |w.streams|
    ensures Gone(Added(w, k, rq, minor), k) == w.(births := w.births + 1)
  {
    assert CutOut(Added(w, k, rq, minor).streams, k) == w.streams;
  }

  //
  // The minor numbers
  //

  /** What a request does to them. */
  function ChangeBy(r: Request): Change {
    match r
    case CloneOpen(_) => Clone
    case DeviceOpen(_, devMinor) => Device(devMinor)
    case CloseStream(i) => Drop(i)
    case _ => Keep
  }

  function ChangesBy(script: seq<Request>): (cs: seq<Change>)
    ensures |cs| == |script|
  {
    seq(|script|, k requires 0 <= k < |script| => ChangeBy(script[k]))
  }

  lemma NumbersChange(w: World, r: Request)
    ensures Numbers(Served(w, r).0.streams) == Changed(Numbers(w.streams), ChangeBy(r))
  {
    hide Gap, FreeId, Gone, Added, ServedAt;
    match r
    case CloneOpen(rq) => NumbersAdded(w, Gap(Numbers(w.streams), 0), rq, Gap(Numbers(w.streams), 0));
    case DeviceOpen(rq, devMinor) => NumbersAdded(w, 0, rq, devMinor);
    case _ =>
      if w.streams != [] {
        var k := Min(r.i, |w.streams| - 1);
        if r.CloseStream? {
          NumbersGone(w, k, r);
        } else {
          NumbersKept(w, k, r);
        }
      }
  }

  lemma NumbersAdded(w: World, k: nat, rq: nat, minor: nat)
    requires k <= |w.streams|
    ensures Numbers(Added(w, k, rq, minor).streams) == Inserted(Numbers(w.streams), k, minor)
    ensures k == 0 ==> Inserted(Numbers(w.streams), k, minor) == [minor] + Numbers(w.streams)
  {
    var streams := Added(w, k, rq, minor).streams;
    assert forall i :: 0 <= i < |streams| ==>
      streams[i].minor == if i < k then w.streams[i].minor else if i == k then minor else w.streams[i - 1].minor;
  }

  lemma NumbersGone(w: World, k: nat, r: Request)
    requires k < |w.streams| && r.CloseStream?
    ensures Numbers(ServedAt(w, k, r).0.streams) == CutOut(Numbers(w.streams), k)
  {
    hide Left;
    var streams := Gone(w, k).streams;
    assert forall i :: 0 <= i < |streams| ==> streams[i].minor == w.streams[if i < k then i else i + 1].minor;
  }

  lemma NumbersKept(w: World, k: nat, r: Request)
    requires k < |w.streams| && !r.CloneOpen? && !r.DeviceOpen? && !r.CloseStream?
    ensures Numbers(ServedAt(w, k, r).0.streams) == Numbers(w.streams)
  {
    hide Left, FreeId, Gap, Numbers;
    var streams := ServedAt(w, k, r).0.streams;
    assert streams == w.streams[k := streams[k]] && streams[k].minor == w.streams[k].minor;
    assert forall i :: 0 <= i < |streams| ==> streams[i].minor == w.streams[i].minor;
    assert Numbers(streams) == Numbers(w.streams);
  }

  lemma {:induction false} NumbersAfter(script: seq<Request>)
    ensures Numbers(WorldAfter(script).streams) == ChangedAll(ChangesBy(script))
  {
    if script == [] {
    } else {
      var last := |script| - 1;
      NumbersAfter(script[..last]);
      NumbersChange(WorldAfter(script[..last]), script[last]);
      assert ChangesBy(script)[..last] == ChangesBy(script[..last]);
    }
  }

  /** Along the list they increase throughout a run exactly when it opens device nodes only below the least in use. */
  lemma NumbersIncreaseExactlyWhen(script: seq<Request>)
    ensures (forall k :: 0 <= k <= |script| ==> Increasing(Numbers(WorldAfter(script[..k]).streams))) <==>
      BelowLeast(ChangesBy(script))
  {
    hide Increasing, BelowLeast, Numbers, WorldAfter;
    var cs := ChangesBy(script);
    forall k | 0 <= k <= |script|
      ensures Numbers(WorldAfter(script[..k]).streams) == ChangedAll(cs[..k])
    {
      NumbersAfter(script[..k]);
      assert ChangesBy(script[..k]) == cs[..k];
    }
    IncreasingExactlyWhen(cs);
  }
}
