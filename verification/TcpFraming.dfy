/**
 * Frames on a TCP connection (tapserver.c): two bytes of length, then the frame. The kernel
 * moves any part of what it is asked to move, at least one byte, or reports an error.
 */
module TcpFraming {
  import opened Bytes

  const BUFFER_SIZE := 4096

  /**
   * One direction of a connection: the bytes that have arrived and not been received, and those
   * the other end still sends.
   */
  class Stream {
    var pending: seq<byte>
    var coming: seq<byte>
    const reliable: bool  // the kernel reports no error

    ghost function Ahead(): seq<byte>
      reads this
    {
      pending + coming
    }

    constructor (reliable: bool)
      ensures pending == coming == [] && this.reliable == reliable
    {
      pending, coming, this.reliable := [], [], reliable;
    }

    /** send: some of the bytes asked for, or an error. */
    method Send(data: seq<byte>) returns (ret: int)
      requires data != [] && coming == []
      modifies this`pending
      ensures (ret == -1 && !reliable) || 1 <= ret <= |data|
      ensures pending == old(pending) + data[..if ret == -1 then 0 else ret]
    {
      var fails, left: nat :| (fails ==> !reliable) && left < |data|;
      ret := if fails then -1 else |data| - left;
      if ret != -1 {
        pending := pending + data[..ret];
      } else {
        assert data[..0] == [];
      }
    }

    /** Waits until something has arrived. */
    method Wait()
      requires Ahead() != []
      modifies this`pending, this`coming
      ensures pending != [] && Ahead() == old(Ahead())
      ensures old(coming) == [] ==> coming == []
    {
      var more: nat :| more <= |coming| && (pending == [] ==> more > 0);
      assert coming == coming[..more] + coming[more..];
      pending, coming := pending + coming[..more], coming[more..];
    }

    /** recv into buf[from..to]: some of what has arrived, or an error. */
    method Recv(buf: array<byte>, from: nat, to: nat) returns (ret: int)
      requires from < to <= buf.Length && Ahead() != []
      modifies this`pending, this`coming, buf
      ensures (ret == -1 && !reliable) || (1 <= ret <= to - from && ret <= |old(Ahead())|)
      ensures var n := if ret == -1 then 0 else ret;
        && Ahead() == old(Ahead())[n..]
        && from + n <= buf.Length && buf[..from + n] == old(buf[..from]) + old(Ahead())[..n]
        && buf[from + n..] == old(buf[from + n..])
      ensures old(coming) == [] ==> coming == []
    {
      Wait();
      var fails, n: nat :| (fails ==> !reliable) && n < to - from && n < |pending|;
      ret := if fails then -1 else n + 1;
      if ret != -1 {
        ghost var ahead := Ahead();
        forall i | 0 <= i < ret {
          buf[from + i] := pending[i];
        }
        pending := pending[ret..];
        assert Ahead() == ahead[ret..];
      }
    }
  }

  method SendData(s: Stream, buf: seq<byte>) returns (r: int)
    requires s.coming == []
    modifies s`pending
    ensures (r == -1 && !s.reliable) || r == |buf|
    ensures r == |buf| ==> s.pending == old(s.pending) + buf
    ensures r == -1 ==> exists k :: 0 <= k < |buf| && s.pending == old(s.pending) + buf[..k]
  {
    var sent := 0;
    assert buf[..0] == [];
    while |buf| > sent
      invariant 0 <= sent <= |buf| && s.pending == old(s.pending) + buf[..sent]
    {
      var ret := s.Send(buf[sent..]);
      if ret == -1 {
        return -1;
      }
      assert buf[..sent] + buf[sent..][..ret] == buf[..sent + ret];
      sent := sent + ret;
    }
    assert buf[..sent] == buf;
    return sent;
  }

  /** The other end must send that many bytes at some time: recv waits for them. */
  method RecvData(s: Stream, buf: array<byte>, len: nat) returns (r: int)
    requires len <= buf.Length && len <= |s.Ahead()|
    modifies s`pending, s`coming, buf
    ensures (r == -1 && !s.reliable) || r == len
    ensures r == len ==> s.Ahead() == old(s.Ahead())[len..] && buf[..len] == old(s.Ahead())[..len]
    ensures r == -1 ==> len > 0
  {
    var recvd := 0;
    while len > recvd
      invariant 0 <= recvd <= len && s.Ahead() == old(s.Ahead())[recvd..]
      invariant buf[..recvd] == old(s.Ahead())[..recvd]
    {
      var ret := s.Recv(buf, recvd, len);
      if ret == -1 {
        return -1;
      }
      assert buf[..recvd + ret] == old(s.Ahead())[..recvd + ret];
      recvd := recvd + ret;
    }
    return recvd;
  }

  /** (len >> 8) & 0xff, and len & 0xff */
  function Header(len: nat): (h: seq<byte>)
    ensures |h| == 2
    ensures len < 0x1_0000 ==> h[0] as int * 256 + h[1] as int == len
  {
    [(len / 256 % 256) as byte, (len % 256) as byte]
  }

  function LengthIn(h: seq<byte>): nat
    requires |h| >= 2
  {
    h[0] as nat * 256 + h[1] as nat
  }

  function Framed(frames: seq<seq<byte>>): seq<byte> {
    if frames == [] then [] else Header(|frames[0]|) + frames[0] + Framed(frames[1..])
  }

  /**
   * What a receiver makes of the bytes so far: the frames, the bytes left over, and whether the
   * client is still there. A length of 0 or beyond the buffer ends the connection.
   */
  datatype Received = Received(frames: seq<seq<byte>>, rest: seq<byte>, connected: bool)

  function Deframed(bytes: seq<byte>): Received {
    if |bytes| < 2 then Received([], bytes, true)
    else
      var len := LengthIn(bytes);
      if len == 0 || len > BUFFER_SIZE then Received([], bytes[2..], false)
      else if |bytes| < 2 + len then Received([], bytes, true)
      else
        var later := Deframed(bytes[2 + len..]);
        later.(frames := [bytes[2..2 + len]] + later.frames)
  }

  /** One frame on its way in reader_thread. */
  method SendFrame(s: Stream, frame: seq<byte>) returns (ok: bool)
    requires s.coming == []
    modifies s`pending
    ensures ok ==> s.pending == old(s.pending) + Header(|frame|) + frame
    ensures s.reliable ==> (ok <==> frame != [])
    ensures frame == [] ==> !ok
    ensures exists k :: 0 <= k <= 2 + |frame| && s.pending == old(s.pending) + (Header(|frame|) + frame)[..k]
  {
    var sizebuf := Header(|frame|);
    var tmp := SendData(s, sizebuf);
    if tmp > 0 {
      assert s.pending == old(s.pending) + sizebuf;
      tmp := SendData(s, frame);
      if tmp == -1 {
        ghost var k :| 0 <= k < |frame| && s.pending == old(s.pending) + sizebuf + frame[..k];
        assert sizebuf + frame[..k] == (sizebuf + frame)[..2 + k];
      } else {
        assert sizebuf + frame == (sizebuf + frame)[..2 + |frame|];
      }
    } else {
      ghost var k :| 0 <= k < 2 && s.pending == old(s.pending) + sizebuf[..k];
      assert sizebuf[..k] == (sizebuf + frame)[..k];
    }
    ok := tmp > 0;
  }

  /** One frame in writer_thread; without one the client is removed. */
  method ReceiveFrame(s: Stream, buf: array<byte>) returns (tmp: int)
    requires buf.Length == BUFFER_SIZE
    requires |s.Ahead()| >= 2 && (LengthIn(s.Ahead()) <= BUFFER_SIZE ==> |s.Ahead()| >= 2 + LengthIn(s.Ahead()))
    modifies s`pending, s`coming, buf
    ensures tmp > 0 ==>
      && tmp == LengthIn(old(s.Ahead())) <= BUFFER_SIZE
      && buf[..tmp] == old(s.Ahead())[2..2 + tmp] && s.Ahead() == old(s.Ahead())[2 + tmp..]
    ensures LengthIn(old(s.Ahead())) == 0 || LengthIn(old(s.Ahead())) > BUFFER_SIZE ==> tmp <= 0
    ensures s.reliable && 0 < LengthIn(old(s.Ahead())) <= BUFFER_SIZE ==> tmp > 0
  {
    var sizebuf := new byte[2];
    tmp := RecvData(s, sizebuf, 2);
    if tmp > 0 {
      assert sizebuf[0] == sizebuf[..2][0] && sizebuf[1] == sizebuf[..2][1];
      var len := sizebuf[0] as nat * 256 + sizebuf[1] as nat;
      if len <= BUFFER_SIZE {
        tmp := RecvData(s, buf, len);
      } else {
        tmp := -1;
      }
    }
  }

  lemma LengthOfHeader(len: nat)
    ensures LengthIn(Header(len)) == len % 0x1_0000
  {
  }

  /** The bytes begin with a whole frame that the receiver takes. */
  predicate StartsWhole(bytes: seq<byte>) {
    |bytes| >= 2 && 0 < LengthIn(bytes) <= BUFFER_SIZE && |bytes| >= 2 + LengthIn(bytes)
  }

  lemma DeframedWhole(bytes: seq<byte>)
    requires StartsWhole(bytes)
    ensures var len := LengthIn(bytes); var later := Deframed(bytes[2 + len..]);
      Deframed(bytes) == later.(frames := [bytes[2..2 + len]] + later.frames)
  {
  }

  /** Less than a frame is left over, and a bad length ends the connection. */
  lemma DeframedLess(bytes: seq<byte>)
    requires !StartsWhole(bytes)
    ensures Deframed(bytes) ==
      if |bytes| >= 2 && (LengthIn(bytes) == 0 || LengthIn(bytes) > BUFFER_SIZE) then Received([], bytes[2..], false)
      else Received([], bytes, true)
  {
  }

  /** A frame of 1 to 4096 bytes at the front of the stream is what the receiver takes off it. */
  lemma DeframedFirst(frame: seq<byte>, rest: seq<byte>)
    requires 1 <= |frame| <= BUFFER_SIZE
    ensures var bytes := Header(|frame|) + frame + rest;
      Deframed(bytes) == Deframed(rest).(frames := [frame] + Deframed(rest).frames)
  {
    hide Deframed, LengthIn, Header;
    var bytes := Header(|frame|) + frame + rest;
    LengthOfHeader(|frame|);
    LengthInFront(Header(|frame|), frame + rest);
    assert bytes == Header(|frame|) + (frame + rest);
    assert bytes[2..2 + |frame|] == frame && bytes[2 + |frame|..] == rest;
    DeframedWhole(bytes);
  }

  lemma LengthInFront(h: seq<byte>, after: seq<byte>)
    requires |h| == 2
    ensures LengthIn(h + after) == LengthIn(h)
  {
  }

  /**
   * The receiver gets exactly the frames that were sent, in order, exactly when every one of
   * them has 1 to 4096 bytes.
   */
  lemma {:induction false} DeframedFramed(frames: seq<seq<byte>>)
    ensures (forall f :: f in frames ==> 1 <= |f| <= BUFFER_SIZE) <==>
      Deframed(Framed(frames)) == Received(frames, [], true)
  {
    if frames == [] {
    } else {
      var f := frames[0];
      DeframedFramed(frames[1..]);
      assert frames == [f] + frames[1..];
      if 1 <= |f| <= BUFFER_SIZE {
        DeframedFirst(f, Framed(frames[1..]));
        assert Header(|f|) + f + Framed(frames[1..]) == Framed(frames);
        assert ([f] + Deframed(Framed(frames[1..])).frames)[1..] == Deframed(Framed(frames[1..])).frames;
      } else {
        DeframedBounds(Framed(frames));
      }
    }
  }

  lemma {:induction false} DeframedBounds(bytes: seq<byte>)
    ensures forall f :: f in Deframed(bytes).frames ==> 1 <= |f| <= BUFFER_SIZE
    decreases |bytes|
  {
    if |bytes| >= 2 {
      var len := LengthIn(bytes);
      if 0 < len <= BUFFER_SIZE && |bytes| >= 2 + len {
        DeframedBounds(bytes[2 + len..]);
      }
    }
  }

  /** However far the stream has got, the receiver has the first of the frames, and no more. */
  lemma {:induction false} DeframedPart(bytes: seq<byte>, k: nat)
    requires k <= |bytes|
    ensures Deframed(bytes[..k]).frames <= Deframed(bytes).frames
    ensures !Deframed(bytes[..k]).connected ==> !Deframed(bytes).connected
    decreases |bytes|
  {
    if k >= 2 {
      assert LengthIn(bytes[..k]) == LengthIn(bytes);
      var len := LengthIn(bytes);
      if 0 < len <= BUFFER_SIZE && k >= 2 + len {
        assert bytes[..k][2..2 + len] == bytes[2..2 + len];
        assert bytes[..k][2 + len..] == bytes[2 + len..][..k - 2 - len];
        DeframedPart(bytes[2 + len..], k - 2 - len);
      }
    }
  }

  /** So on a stream of good frames, every start of it gives a start of the frames. */
  lemma FramesArriveInOrder(frames: seq<seq<byte>>, k: nat)
    requires (forall f :: f in frames ==> 1 <= |f| <= BUFFER_SIZE) && k <= |Framed(frames)|
    ensures Deframed(Framed(frames)[..k]).frames <= frames && Deframed(Framed(frames)[..k]).connected
  {
    DeframedFramed(frames);
    DeframedPart(Framed(frames), k);
  }

  /** What comes later is decoded on top of what was left over. */
  lemma {:induction false} DeframedMore(bytes: seq<byte>, more: seq<byte>)
    requires Deframed(bytes).connected
    ensures var d := Deframed(bytes); var later := Deframed(d.rest + more);
      Deframed(bytes + more) == later.(frames := d.frames + later.frames)
    decreases |bytes|
  {
    hide Deframed, LengthIn;
    if !StartsWhole(bytes) {
      DeframedLess(bytes);
    } else {
      StartStays(bytes, more);
      var len := LengthIn(bytes);
      var first := bytes[2..2 + len];
      DeframedWhole(bytes);
      DeframedWhole(bytes + more);
      DeframedMore(bytes[2 + len..], more);
      var d := Deframed(bytes[2 + len..]);
      var later := Deframed(d.rest + more);
      assert ([first] + d.frames) + later.frames == [first] + (d.frames + later.frames);
    }
  }

  lemma StartStays(bytes: seq<byte>, more: seq<byte>)
    requires StartsWhole(bytes)
    ensures var len := LengthIn(bytes);
      && StartsWhole(bytes + more) && LengthIn(bytes + more) == len
      && (bytes + more)[2..2 + len] == bytes[2..2 + len]
      && (bytes + more)[2 + len..] == bytes[2 + len..] + more
  {
  }

  /** The sending end, between two calls of send. */
  class Sender {
    const frames: seq<seq<byte>>
    var next: nat       // the frame under way
    var header: bool    // its header goes first
    var out: seq<byte>  // what is left of the buffer under way

    ghost predicate Valid()
      reads this
    {
      && next <= |frames| && (next < |frames| ==> out != [])
      && forall f :: f in frames ==> f != []
    }

    /** What goes after the buffer under way. */
    ghost function After(): seq<byte>
      reads this
      requires next < |frames|
    {
      (if header then frames[next] else []) + Framed(frames[next + 1..])
    }

    ghost function ToSend(): seq<byte>
      reads this
    {
      if next >= |frames| then [] else out + After()
    }

    constructor (frames: seq<seq<byte>>)
      requires forall f :: f in frames ==> f != []
      ensures Valid() && this.frames == frames && ToSend() == Framed(frames)
    {
      this.frames := frames;
      next, header := 0, true;
      out := if |frames| > 0 then Header(|frames[0]|) else [];
    }

    /** One call of send, and the move to the next buffer when one is through. */
    method Step(s: Stream) returns (ghost part: seq<byte>)
      requires Valid() && next < |frames| && s.reliable && s.coming == []
      modifies this, s`pending
      ensures Valid() && part != []
      ensures s.pending == old(s.pending) + part && old(ToSend()) == part + ToSend()
    {
      hide Header, Framed;
      var ret := s.Send(out);
      ghost var was, after := out, After();
      part := was[..ret];
      out := out[ret..];
      assert was + after == part + (out + after) by {
        assert was == part + out;
      }
      if out == [] {
        assert [] + after == after;
        NextBuffer();
      }
    }

    /** Header after frame after header. */
    method NextBuffer()
      requires next < |frames| && out == [] && forall f :: f in frames ==> f != []
      modifies this
      ensures Valid() && ToSend() == old(After())
    {
      hide Framed, Header;
      if header {
        header, out := false, frames[next];
        assert frames[next] in frames;
        assert [] + Framed(frames[next + 1..]) == Framed(frames[next + 1..]);
      } else {
        next := next + 1;
        FramedFrom(frames, next);
        if next < |frames| {
          header, out := true, Header(|frames[next]|);
        }
      }
    }
  }

  /** The frames from one on, taken apart. */
  lemma FramedFrom(frames: seq<seq<byte>>, k: nat)
    requires k <= |frames|
    ensures [] + Framed(frames[k..]) ==
      if k == |frames| then []
      else Header(|frames[k]|) + (frames[k] + Framed(frames[k + 1..]))
  {
    if k < |frames| {
      assert frames[k..][1..] == frames[k + 1..];
      var h, f, rest := Header(|frames[k]|), frames[k], Framed(frames[k + 1..]);
      assert h + f + rest == h + (f + rest);
    }
  }

  /** The receiving end, between two calls of recv. */
  class Receiver {
    const sizebuf: array<byte>
    const buf: array<byte>
    var header: bool    // the header is being received
    var len: nat        // the length of the frame under way
    var recvd: nat
    var connected: bool
    var got: seq<seq<byte>>
    ghost var seen: seq<byte>  // everything received

    /** What the buffers hold of the frame under way. */
    ghost function Part(): seq<byte>
      requires Shape()
      reads this, sizebuf, buf
    {
      if !connected then [] else if header then sizebuf[..recvd] else sizebuf[..] + buf[..recvd]
    }

    ghost predicate Shape()
      reads this
    {
      && sizebuf.Length == 2 && buf.Length == BUFFER_SIZE && sizebuf != buf
      && (if header then recvd < 2 else recvd < len <= BUFFER_SIZE)
    }

    /** The receiver knows exactly what the decoder makes of the bytes so far. */
    ghost predicate Valid()
      reads this, sizebuf, buf
    {
      && Shape()
      && (connected && !header ==> len == LengthIn(sizebuf[..]))
      && Deframed(seen) == Received(got, Part(), connected)
    }

    constructor ()
      ensures Valid() && connected && got == [] && seen == [] && fresh(sizebuf) && fresh(buf)
    {
      sizebuf := new byte[2];
      buf := new byte[BUFFER_SIZE];
      header, len, recvd, connected, got, seen := true, 0, 0, true, [], [];
    }

    /** One call of recv, and what follows when a header or a frame is complete. */
    method Step(s: Stream)
      requires Valid() && connected && s.reliable && s.Ahead() != []
      modifies this, s`pending, s`coming, sizebuf, buf
      ensures Valid()
      ensures |s.Ahead()| < |old(s.Ahead())|
      ensures seen + s.Ahead() == old(seen) + old(s.Ahead())
      ensures old(s.coming) == [] ==> s.coming == []
    {
      if header {
        StepHeader(s);
      } else {
        StepBody(s);
      }
    }

    method StepHeader(s: Stream)
      requires Valid() && connected && header && s.reliable && s.Ahead() != []
      modifies this, s`pending, s`coming, sizebuf
      ensures Valid()
      ensures |s.Ahead()| < |old(s.Ahead())|
      ensures seen + s.Ahead() == old(seen) + old(s.Ahead())
      ensures old(s.coming) == [] ==> s.coming == []
    {
      hide Deframed, LengthIn;
      ghost var was := sizebuf[..recvd];
      var ret := s.Recv(sizebuf, recvd, 2);
      ghost var part := old(s.Ahead())[..ret];
      assert part + s.Ahead() == old(s.Ahead());
      HeaderGrows(seen, got, was, part);
      seen := seen + part;
      recvd := recvd + ret;
      assert sizebuf[..recvd] == was + part;
      if recvd == 2 {
        assert sizebuf[..] == was + part;
        HeaderThrough();
      }
    }

    /** The header is complete. */
    method HeaderThrough()
      requires sizebuf.Length == 2 && buf.Length == BUFFER_SIZE && sizebuf != buf && connected && header
      requires Deframed(seen) ==
        if LengthIn(sizebuf[..]) == 0 || LengthIn(sizebuf[..]) > BUFFER_SIZE then Received(got, [], false)
        else Received(got, sizebuf[..], true)
      modifies this`len, this`header, this`recvd, this`connected
      ensures Valid()
    {
      hide Deframed, LengthIn;
      len := LengthIn(sizebuf[..]);
      recvd := 0;
      if len == 0 || len > BUFFER_SIZE {
        connected := false;
      } else {
        header := false;
        assert sizebuf[..] + buf[..recvd] == sizebuf[..];
      }
    }

    method StepBody(s: Stream)
      requires Valid() && connected && !header && s.reliable && s.Ahead() != []
      modifies this, s`pending, s`coming, buf
      ensures Valid()
      ensures |s.Ahead()| < |old(s.Ahead())|
      ensures seen + s.Ahead() == old(seen) + old(s.Ahead())
      ensures old(s.coming) == [] ==> s.coming == []
    {
      hide Deframed, LengthIn;
      ghost var was := buf[..recvd];
      var ret := s.Recv(buf, recvd, len);
      ghost var part := old(s.Ahead())[..ret];
      assert part + s.Ahead() == old(s.Ahead());
      BodyGrows(seen, got, sizebuf[..], was, part);
      seen := seen + part;
      recvd := recvd + ret;
      assert buf[..recvd] == was + part;
      if recvd == len {
        got := got + [buf[..len]];
        header, recvd := true, 0;
      }
    }
  }

  /** A header under way, with more of it. */
  lemma HeaderGrows(seen: seq<byte>, got: seq<seq<byte>>, was: seq<byte>, part: seq<byte>)
    requires Deframed(seen) == Received(got, was, true) && |was + part| <= 2
    ensures var h := was + part;
      Deframed(seen + part) ==
        if |h| == 2 && (LengthIn(h) == 0 || LengthIn(h) > BUFFER_SIZE) then Received(got, [], false)
        else Received(got, h, true)
  {
    hide Deframed, LengthIn;
    DeframedMore(seen, part);
    DeframedLess(was + part);
    assert got + [] == got;
  }

  /** A frame under way behind its header, with more of it. */
  lemma BodyGrows(seen: seq<byte>, got: seq<seq<byte>>, h: seq<byte>, was: seq<byte>, part: seq<byte>)
    requires Deframed(seen) == Received(got, h + was, true)
    requires |h| == 2 && 0 < LengthIn(h) <= BUFFER_SIZE && |was + part| <= LengthIn(h)
    ensures var f := was + part;
      Deframed(seen + part) ==
        if |f| == LengthIn(h) then Received(got + [f], [], true) else Received(got, h + f, true)
  {
    hide Deframed, LengthIn;
    DeframedMore(seen, part);
    var f := was + part;
    assert h + was + part == h + f;
    LengthInFront(h, f);
    if |f| == LengthIn(h) {
      DeframedWhole(h + f);
      DeframedLess([]);
      assert (h + f)[2..2 + |f|] == f && (h + f)[2 + |f|..] == [];
    } else {
      DeframedLess(h + f);
      assert got + [] == got;
    }
  }

  /**
   * A sender and a receiver at the two ends of a connection. Their calls of send and recv come
   * in any order and move any number of bytes: the receiver always has the first of the frames,
   * and no others; in the end it has all, and both ends are through.
   */
  method Transfer(frames: seq<seq<byte>>) returns (got: seq<seq<byte>>)
    requires forall f :: f in frames ==> 1 <= |f| <= BUFFER_SIZE
    ensures got == frames
  {
    hide Framed, Deframed, Sender.Valid, Sender.ToSend, Receiver.Valid;
    var s := new Stream(true);
    var sender := new Sender(frames);
    var receiver := new Receiver();
    DeframedFramed(frames);
    while sender.next < |frames| || s.pending != []
      invariant sender.Valid() && receiver.Valid() && sender.frames == frames && s.reliable && s.coming == []
      invariant fresh(s) && fresh(sender) && fresh(receiver) && fresh(receiver.sizebuf) && fresh(receiver.buf)
      invariant receiver.seen + s.pending + sender.ToSend() == Framed(frames)
      invariant receiver.got <= frames && receiver.connected
      decreases |sender.ToSend()|, |s.pending|
    {
      ghost var seen, pending, toSend := receiver.seen, s.pending, sender.ToSend();
      var send :| (send ==> sender.next < |frames|) && (!send ==> s.pending != []);
      if send {
        ghost var part := sender.Step(s);
        assert seen + (pending + part) + sender.ToSend() == seen + pending + (part + sender.ToSend());
      } else {
        assert s.Ahead() == s.pending;
        receiver.Step(s);
        assert s.Ahead() == s.pending;
        assert receiver.seen + s.pending == seen + pending;
        assert receiver.seen + (s.pending + sender.ToSend()) == receiver.seen + s.pending + sender.ToSend();
        Arrived(frames, receiver.seen, s.pending + sender.ToSend());
        SeenIsKnown(receiver);
      }
    }
    assert sender.ToSend() == [] by {
      NothingLeft(sender);
    }
    assert receiver.seen == Framed(frames);
    assert Deframed(receiver.seen).frames == receiver.got by {
      SeenIsKnown(receiver);
    }
    got := receiver.got;
  }

  lemma NothingLeft(sender: Sender)
    requires sender.next >= |sender.frames|
    ensures sender.ToSend() == []
  {
  }

  lemma SeenIsKnown(receiver: Receiver)
    requires receiver.Valid()
    ensures Deframed(receiver.seen).frames == receiver.got && Deframed(receiver.seen).connected == receiver.connected
  {
  }

  lemma Arrived(frames: seq<seq<byte>>, seen: seq<byte>, rest: seq<byte>)
    requires (forall f :: f in frames ==> 1 <= |f| <= BUFFER_SIZE) && seen + rest == Framed(frames)
    ensures Deframed(seen).frames <= frames && Deframed(seen).connected
  {
    assert Framed(frames)[..|seen|] == seen;
    FramesArriveInOrder(frames, |seen|);
  }
}
