/** A FLAP connection's read buffer and send queue (timps/oscar/flap.c). */
module FlapConn {
  import opened Basics
  import opened Wire
  import opened Flap
  import Sbuf
  import Snac

  const MAXFLAPLEN := HDRLEN + MAXSNACLEN

  /** A buffer handed to the send queue: it belongs to the queue from then on. */
  datatype Queued = Queued(buf: array<byte>, len: nat)

  /** A frame with its header filled in: magic, sequence number and true payload length. */
  function Stamp(b: Bytes, seqnum: u16): Bytes
    requires HDRLEN <= |b| < 0x1_0000
  {
    [MAGIC, b[1]] + Be16(seqnum) + Be16(|b| - HDRLEN) + b[HDRLEN..]
  }

  /** The frame is the `k`-th of its connection. */
  predicate Stamped(b: Bytes, k: nat) {
    HDRLEN <= |b| < 0x1_0000 && b == Stamp(b, k % 0x1_0000)
  }

  class Conn {
    var alive: bool
    var rx: array<byte>  // the one outstanding read buffer
    var filled: nat
    var want: nat
    var nextseqnum: u16
    var queue: seq<Queued>
    var handed: seq<Frame>  // what the handlers have seen, and may base their verdicts on
    ghost var forwarded: seq<Frame>

    ghost predicate Valid()
      reads this, rx, set q <- queue :: q.buf
    {
      && rx.Length == MAXFLAPLEN
      && filled <= want <= MAXFLAPLEN
      && QueueOk()
      && forall q <- queue :: q.buf != rx
    }

    /** The k-th frame queued carries sequence number k mod 65536. */
    ghost predicate QueueOk()
      reads this`nextseqnum, this`queue, set q <- queue :: q.buf
    {
      && nextseqnum == |queue| % 0x1_0000
      && (forall k | 0 <= k < |queue| :: queue[k].len <= queue[k].buf.Length)
      && (forall k | 0 <= k < |queue| :: Stamped(queue[k].buf[..queue[k].len], k))
    }

    /** The connection as a reader of the stream sees it. */
    ghost function View(): Link
      requires filled <= rx.Length
      reads this, rx
    {
      Link(alive, rx[..filled], want, handed, forwarded)
    }

    constructor ()
      ensures Valid() && View() == START && queue == [] && fresh(rx)
    {
      rx := new byte[MAXFLAPLEN];
      alive, filled, want, nextseqnum, queue := true, 0, HDRLEN, 0, [];
      handed, forwarded := [], [];
    }

    /** toscar_flap__sendraw; `accepted` is the outcome of naf_conn_reqwrite */
    method SendRaw(buf: array<byte>, len: nat, accepted: bool)
      requires QueueOk() && HDRLEN <= len <= buf.Length && len < 0x1_0000
      requires forall q <- queue :: q.buf != buf
      modifies this`nextseqnum, this`queue, buf
      ensures QueueOk()
      ensures queue == if accepted then old(queue) + [Queued(buf, len)] else old(queue)
      ensures buf[..len] == Stamp(old(buf[..len]), old(nextseqnum))
    {
      hide Stamped, Stamp;
      StampHeader(buf, len, nextseqnum);
      StampIdempotent(old(buf[..len]), nextseqnum);
      if accepted {
        RestampedIs(buf[..len], |queue|);
        queue := queue + [Queued(buf, len)];
        nextseqnum := (nextseqnum + 1) % 0x1_0000;
      }
    }

    /** toscar_flap_sendsbuf_consume: what precedes the cursor is sent as a frame of our own */
    method SendSbuf(sb: Sbuf.Sbuf, accepted: bool)
      requires QueueOk() && sb.Valid() && HDRLEN <= sb.pos
      requires forall q <- queue :: q.buf != sb.buf
      modifies this`nextseqnum, this`queue, sb.buf
      ensures QueueOk()
      ensures queue == if accepted then old(queue) + [Queued(sb.buf, sb.pos)] else old(queue)
      ensures sb.buf[..sb.pos] == Stamp(old(sb.View().written), old(nextseqnum))
    {
      hide Stamped, Stamp;
      SendRaw(sb.buf, sb.pos, accepted);
    }

    /** toscar_flap__sendflapversion */
    method SendVersion(accepted: bool)
      requires QueueOk()
      modifies this`nextseqnum, this`queue
      ensures QueueOk() && |queue| == |old(queue)| + if accepted then 1 else 0
      ensures accepted ==>
        queue[..|old(queue)|] == old(queue) &&
        var q := queue[|old(queue)|];
        q.len <= q.buf.Length && q.buf[..q.len] == FrameBytes(Frame(1, old(nextseqnum), Be32(1)))
    {
      hide Stamped, Stamp, Be32, Put;
      var sb := new Sbuf.Sbuf.New(HDRLEN + 4);
      PutPair(sb.View(), Snac.FlapStub(1), Be32(1));
      var n := sb.PutRaw(Snac.FlapStub(1));
      n := sb.Put32(1);
      ghost var written := sb.View().written;
      assert written == Snac.FlapStub(1) + Be32(1);
      VersionFrame(nextseqnum);
      SendSbuf(sb, accepted);
    }

    /** The frame in the read buffer goes to `endpoint`, buffer and all. */
    method PassOn(endpoint: Conn, accepted: bool)
      requires Valid() && HDRLEN <= filled && Apart(this, endpoint)
      modifies this`rx, this`filled, this`want, this`alive, rx, endpoint`nextseqnum, endpoint`queue
      ensures Valid() && Apart(this, endpoint) && (rx == old(rx) || fresh(rx))
      ensures alive == (accepted && old(alive)) && filled == 0 && want == if accepted then HDRLEN else 0
      ensures endpoint.queue == old(endpoint.queue) + if accepted then [Queued(old(rx), old(filled))] else []
      ensures old(rx)[..old(filled)] == Stamp(old(rx[..filled]), old(endpoint.nextseqnum))
    {
      hide Stamped, Stamp;
      endpoint.SendRaw(rx, filled, accepted);
      if accepted {
        rx, filled, want := new byte[MAXFLAPLEN], 0, HDRLEN;  // the old buffer was consumed
      } else {
        alive, filled, want := false, 0, 0;
      }
    }

    /** The second half of toscar_flap_handleread: a complete frame meets its fate. */
    method Dispatch(endpoint: Conn?, fate: Fate)
      requires Valid() && alive && HDRLEN <= filled
      requires endpoint != null ==> Apart(this, endpoint)
      requires fate.Forward? ==> fate.linked == (endpoint != null)
      modifies this`rx, this`filled, this`want, this`alive, this`handed, this`forwarded, rx
      modifies if endpoint == null then {} else {endpoint}
      ensures Valid() && View() == AfterFrame(old(View()), FrameOf(old(View().got)), _ => fate)
      ensures rx == old(rx) || fresh(rx)
      ensures endpoint != null ==> Apart(this, endpoint)
      ensures endpoint != null && !Delivered(fate) ==> endpoint.queue == old(endpoint.queue)
      ensures Delivered(fate) ==> endpoint.queue == old(endpoint.queue) + [Queued(old(rx), old(filled))]
      ensures Delivered(fate) ==> old(rx)[..old(filled)] == Stamp(old(rx[..filled]), old(endpoint.nextseqnum))
    {
      hide QueueOk, Stamp, FrameOf;
      var f := FrameOf(rx[..filled]);
      handed := handed + [f];
      if fate.Error? {
        alive, filled, want := false, 0, 0;
      } else if fate.Forward? && endpoint != null {
        if fate.accepted {
          forwarded := forwarded + [f];
        }
        PassOn(endpoint, fate.accepted);
      } else {
        filled, want := 0, HDRLEN;
      }
    }

    /**
     toscar_flap_handleread, once the read buffer is full; `fate` is the handlers' verdict
     on the frame, if it is complete, and the outcome of writing it to `endpoint`.
     */
    method HandleRead(endpoint: Conn?, fate: Fate)
      requires Valid() && alive && HDRLEN <= filled == want
      requires filled == HDRLEN || (HeaderOk(View().got) && filled == HDRLEN + Num16(View().got[4..]))
      requires endpoint != null ==> Apart(this, endpoint)
      requires fate.Forward? ==> fate.linked == (endpoint != null)
      modifies this`rx, this`filled, this`want, this`alive, this`handed, this`forwarded, rx
      modifies if endpoint == null then {} else {endpoint}
      ensures Valid() && View() == OnRead(old(View()), _ => fate)
      ensures rx == old(rx) || fresh(rx)
      ensures endpoint != null ==> Apart(this, endpoint)
      ensures ReadAs(old(View()), View(), fate)
      ensures forwarded == old(forwarded) && endpoint != null ==> endpoint.queue == old(endpoint.queue)
      ensures forwarded != old(forwarded) ==>
        && endpoint != null && endpoint.queue == old(endpoint.queue) + [Queued(old(rx), old(filled))]
        && old(rx)[..old(filled)] == Stamp(old(rx[..filled]), old(endpoint.nextseqnum))
    {
      hide QueueOk, Stamp, FrameOf, ReadAs;
      ghost var got := rx[..filled];
      OnReadAs(View(), fate);
      var len := rx[4] as int * 0x100 + rx[5];
      assert len == Num16(got[4..]);
      if rx[0] != MAGIC || !ChanOk(rx[1]) || len > MAXSNACLEN {
        alive, filled, want := false, 0, 0;
      } else if filled != len + HDRLEN {
        want := filled + len;
      } else {
        Dispatch(endpoint, fate);
      }
    }

    /**
     One byte arrives from the peer; `fate` concerns the frame it completes, if it does.  A frame
     that is passed on is queued in the buffer it was read into, re-stamped and otherwise as read.
     */
    method Receive(b: byte, endpoint: Conn?, fate: Fate)
      requires Valid() && alive && Consistent(View())
      requires endpoint != null ==> Apart(this, endpoint)
      requires fate.Forward? ==> fate.linked == (endpoint != null)
      modifies this`rx, this`filled, this`want, this`alive, this`handed, this`forwarded, rx
      modifies if endpoint == null then {} else {endpoint}
      ensures Valid() && Consistent(View()) && (rx == old(rx) || fresh(rx))
      ensures View() == Feed(old(View()), b, _ => fate)
      ensures endpoint != null ==> Apart(this, endpoint)
      ensures forwarded == old(forwarded) && endpoint != null ==> endpoint.queue == old(endpoint.queue)
      ensures forwarded != old(forwarded) ==>
        && endpoint != null && |old(View().got) + [b]| >= HDRLEN
        && var f := FrameOf(old(View().got) + [b]);
        && FrameOk(f) && forwarded == old(forwarded) + [f]
        && endpoint.queue == old(endpoint.queue) + [Queued(old(rx), HDRLEN + |f.payload|)]
        && old(rx)[..HDRLEN + |f.payload|] == FrameBytes(f.(seqnum := old(endpoint.nextseqnum)))
    {
      hide QueueOk, HeaderOk, Num16, OnRead, Stream, FrameOf, Stamp, FrameBytes;
      ghost var l := View();
      FeedConserves(l, b, Stream(l.handed) + l.got, _ => fate);
      if filled >= HDRLEN {
        HeaderStays(l.got, b);
      }
      rx[filled] := b;
      filled := filled + 1;
      ghost var l1 := l.(got := l.got + [b]);
      assert rx[..filled] == l1.got;
      if filled == want {
        ForwardedFrame(l1, fate, if endpoint == null then 0 else endpoint.nextseqnum);
        HandleRead(endpoint, fate);
      }
    }

    /** One byte, behind frames already passed on: `judge` gives the verdict. */
    method ReceiveNext(b: byte, endpoint: Conn?, judge: Judge, ghost base: nat, ghost sofar: seq<Frame>)
      requires Valid() && alive && Consistent(View())
      requires endpoint != null ==> Apart(this, endpoint) && Carry(endpoint.queue, base, sofar)
      requires forall fs :: judge(fs).Forward? ==> judge(fs).linked == (endpoint != null)
      modifies this`rx, this`filled, this`want, this`alive, this`handed, this`forwarded, rx
      modifies if endpoint == null then {} else {endpoint}
      ensures Valid() && Consistent(View()) && (rx == old(rx) || fresh(rx))
      ensures View() == Feed(old(View()), b, judge)
      ensures old(forwarded) <= forwarded && (endpoint == null ==> forwarded == old(forwarded))
      ensures endpoint != null ==>
        && Apart(this, endpoint) && old(endpoint.queue) <= endpoint.queue
        && Carry(endpoint.queue, base, sofar + forwarded[|old(forwarded)|..])
    {
      hide Feed, QueueOk, FrameOf, FrameBytes, Consistent, HeaderOk;
      ghost var l := View();
      var fate := if filled + 1 >= HDRLEN then judge(handed + [FrameOf(rx[..filled] + [b])]) else Digested;
      OneVerdict(l, b, judge, fate);
      if endpoint != null {
        NextNumber(endpoint);
      }
      Receive(b, endpoint, fate);
      assert forwarded == old(forwarded) ==> sofar + forwarded[|old(forwarded)|..] == sofar;
    }

    /** A whole stretch of the stream, with the handlers' verdicts given by `judge`. */
    method ReceiveAll(s: Bytes, endpoint: Conn?, judge: Judge)
      requires Valid() && Consistent(View())
      requires endpoint != null ==> Apart(this, endpoint)
      requires forall fs :: judge(fs).Forward? ==> judge(fs).linked == (endpoint != null)
      modifies this`rx, this`filled, this`want, this`alive, this`handed, this`forwarded, rx
      modifies if endpoint == null then {} else {endpoint}
      ensures Valid() && Consistent(View()) && View() == FeedAll(old(View()), s, judge)
      ensures old(View()) == START ==> forwarded == Forwards(handed, judge)
      ensures old(forwarded) <= forwarded && (endpoint == null ==> forwarded == old(forwarded))
      ensures endpoint != null ==>
        && Apart(this, endpoint) && old(endpoint.queue) <= endpoint.queue
        && Carry(endpoint.queue, |old(endpoint.queue)|, forwarded[|old(forwarded)|..])
    {
      hide FeedAll, Feed, QueueOk, Forwards, Consistent, Holds;
      FeedNothing(View(), judge);
      var i := 0;
      while i < |s|
        invariant 0 <= i <= |s| && Valid() && Consistent(View()) && (rx == old(rx) || fresh(rx))
        invariant View() == FeedAll(old(View()), s[..i], judge)
        invariant old(forwarded) <= forwarded && (endpoint == null ==> forwarded == old(forwarded))
        invariant endpoint != null ==>
          && Apart(this, endpoint) && old(endpoint.queue) <= endpoint.queue
          && Carry(endpoint.queue, |old(endpoint.queue)|, forwarded[|old(forwarded)|..])
      {
        FeedOneMore(old(View()), s, i, judge);
        if alive {
          ghost var f0, base := forwarded, if endpoint == null then 0 else |old(endpoint.queue)|;
          ReceiveNext(s[i], endpoint, judge, base, f0[|old(forwarded)|..]);
          AddedSplit(old(forwarded), f0, forwarded);
        }
        i := i + 1;
      }
      assert s[..|s|] == s;
      ForwardsInOrder(s, judge);
    }

    /** One byte, behind frames passed on among others at places `at`. */
    method ReceiveAmong(b: byte, endpoint: Conn, judge: Judge, ghost base: nat, ghost sofar: seq<Frame>,
        ghost at: seq<nat>)
      returns (ghost at': seq<nat>)
      requires Valid() && alive && Consistent(View())
      requires Apart(this, endpoint) && Scattered(endpoint.queue, base, sofar, at) && base <= |endpoint.queue|
      requires forall fs :: judge(fs).Forward? ==> judge(fs).linked
      modifies this`rx, this`filled, this`want, this`alive, this`handed, this`forwarded, rx, endpoint
      ensures Valid() && Consistent(View()) && (rx == old(rx) || fresh(rx))
      ensures View() == Feed(old(View()), b, judge)
      ensures old(forwarded) <= forwarded && Apart(this, endpoint) && old(endpoint.queue) <= endpoint.queue
      ensures Scattered(endpoint.queue, base, sofar + forwarded[|old(forwarded)|..], at')
    {
      hide Feed, QueueOk, FrameOf, FrameBytes, Consistent, HeaderOk, Holds;
      ghost var l := View();
      var fate := if filled + 1 >= HDRLEN then judge(handed + [FrameOf(rx[..filled] + [b])]) else Digested;
      OneVerdict(l, b, judge, fate);
      NextNumber(endpoint);
      Receive(b, endpoint, fate);
      at' := at;
      assert forwarded == old(forwarded) ==> sofar + forwarded[|old(forwarded)|..] == sofar;
      if forwarded != old(forwarded) {
        ghost var k := |old(endpoint.queue)|;
        ghost var fr := forwarded[|old(forwarded)|];
        assert forwarded[|old(forwarded)|..] == [fr];
        IsHeld(endpoint.queue[k], k, fr);
        at' := at + [k];
      }
    }

    /** Another module sends a frame of our own on `endpoint`. */
    method QueueOwn(endpoint: Conn, frame: Bytes, accepted: bool)
      requires Valid() && Apart(this, endpoint) && HDRLEN <= |frame| < 0x1_0000
      modifies endpoint`nextseqnum, endpoint`queue
      ensures Valid() && Apart(this, endpoint) && old(endpoint.queue) <= endpoint.queue
    {
      hide Stamped, Stamp;
      var buf := new byte[|frame|](i requires 0 <= i < |frame| => frame[i]);
      endpoint.SendRaw(buf, |frame|, accepted);
    }

    /**
     Bytes from the peer arrive while frames of our own are queued on the endpoint, in any order: the
     forwarded frames lie in the queue in their order, at increasing places `at`.
     */
    method Interleave(acts: seq<Act>, endpoint: Conn, judge: Judge) returns (ghost at: seq<nat>)
      requires Valid() && Consistent(View()) && Apart(this, endpoint)
      requires forall fs :: judge(fs).Forward? ==> judge(fs).linked
      requires forall a <- acts :: a.Own? ==> HDRLEN <= |a.frame| < 0x1_0000
      modifies this`rx, this`filled, this`want, this`alive, this`handed, this`forwarded, rx, endpoint
      ensures Valid() && Consistent(View()) && View() == FeedAll(old(View()), Arrived(acts), judge)
      ensures old(View()) == START ==> forwarded == Forwards(handed, judge)
      ensures old(forwarded) <= forwarded && Apart(this, endpoint) && old(endpoint.queue) <= endpoint.queue
      ensures Scattered(endpoint.queue, |old(endpoint.queue)|, forwarded[|old(forwarded)|..], at)
    {
      hide FeedAll, Feed, QueueOk, Forwards, Consistent, Holds, Arrived;
      FeedNothing(View(), judge);
      NothingArrived();
      at := [];
      var i := 0;
      while i < |acts|
        invariant 0 <= i <= |acts| && Valid() && Consistent(View()) && (rx == old(rx) || fresh(rx))
        invariant View() == FeedAll(old(View()), Arrived(acts[..i]), judge)
        invariant old(forwarded) <= forwarded && Apart(this, endpoint) && old(endpoint.queue) <= endpoint.queue
        invariant Scattered(endpoint.queue, |old(endpoint.queue)|, forwarded[|old(forwarded)|..], at)
      {
        ArrivedOneMore(old(View()), acts, i, judge);
        if acts[i].Own? {
          QueueOwn(endpoint, acts[i].frame, acts[i].accepted);
        } else if alive {
          ghost var f0 := forwarded;
          at := ReceiveAmong(acts[i].b, endpoint, judge, |old(endpoint.queue)|, f0[|old(forwarded)|..], at);
          AddedSplit(old(forwarded), f0, forwarded);
        }
        i := i + 1;
      }
      assert acts[..|acts|] == acts;
      ForwardsInOrder(Arrived(acts), judge);
    }
  }

  /**
   A full buffer with a bad header kills the connection, one with a good header only waits for the payload,
   and a complete frame is handed over; its verdict may kill the connection or forward it.
   */
  predicate ReadAs(l: Link, m: Link, fate: Fate)
    requires |l.got| >= 6
  {
    var (len, good) := (l.got[4] as nat * 256 + l.got[5], l.got[0] == 42 && l.got[1] in {1, 2, 4, 5});
    if !good || len > 8192 then m == Link(false, [], 0, l.handed, l.forwarded)
    else if |l.got| != 6 + len then m == Link(l.alive, l.got, |l.got| + len, l.handed, l.forwarded)
    else
      var f := Frame(l.got[1], l.got[2] as nat * 256 + l.got[3], l.got[6..]);
      var dead := fate == Error || fate == Forward(true, false);
      m == Link(!dead, [], if dead then 0 else 6, l.handed + [f],
                if fate == Forward(true, true) then l.forwarded + [f] else l.forwarded)
  }

  lemma OnReadAs(l: Link, fate: Fate)
    requires |l.got| >= 6
    ensures ReadAs(l, OnRead(l, _ => fate), fate)
  {
  }

  lemma AddedSplit(a: seq<Frame>, b: seq<Frame>, c: seq<Frame>)
    requires a <= b <= c
    ensures b[|a|..] + c[|b|..] == c[|a|..]
  {
    assert b == c[..|b|];
  }

  lemma IsHeld(q: Queued, k: nat, f: Frame)
    requires FrameOk(f) && q.len <= q.buf.Length && q.buf[..q.len] == FrameBytes(f.(seqnum := k % W16))
    ensures Holds(q, k, f)
  {
  }

  lemma NextNumber(c: Conn)
    requires c.Valid()
    ensures c.nextseqnum == |c.queue| % W16
  {
  }

  /** From the `base`-th on, the queue holds exactly these frames, re-stamped with consecutive numbers. */
  ghost predicate Carry(queue: seq<Queued>, base: nat, fs: seq<Frame>)
    reads set q <- queue :: q.buf
  {
    && |queue| == base + |fs|
    && forall i | 0 <= i < |fs| :: Holds(queue[base + i], base + i, fs[i])
  }

  /** The frames lie in the queue, from the `base`-th place on, at increasing places. */
  ghost predicate Scattered(queue: seq<Queued>, base: nat, fs: seq<Frame>, at: seq<nat>)
    reads set q <- queue :: q.buf
  {
    && |at| == |fs|
    && (forall i | 0 <= i < |at| :: base <= at[i] < |queue|)
    && (forall i, j | 0 <= i < j < |at| :: at[i] < at[j])
    && (forall i | 0 <= i < |at| :: Holds(queue[at[i]], at[i], fs[i]))
  }

  /** A byte comes from the peer, or a frame of our own is sent. */
  datatype Act = Arrive(b: byte) | Own(frame: Bytes, accepted: bool)

  /** The bytes that came. */
  function Arrived(acts: seq<Act>): Bytes {
    if acts == [] then []
    else Arrived(acts[..|acts| - 1]) + if acts[|acts| - 1].Arrive? then [acts[|acts| - 1].b] else []
  }

  lemma NothingArrived()
    ensures Arrived([]) == []
  {
  }

  lemma ArrivedOneMore(l: Link, acts: seq<Act>, i: nat, judge: Judge)
    requires i < |acts|
    ensures var before := FeedAll(l, Arrived(acts[..i]), judge);
            FeedAll(l, Arrived(acts[..i + 1]), judge) ==
            if acts[i].Arrive? && before.alive then Feed(before, acts[i].b, judge) else before
  {
    assert acts[..i + 1][..i] == acts[..i];
    var s := Arrived(acts[..i]);
    if acts[i].Arrive? {
      assert (s + [acts[i].b])[..|s|] == s;
    } else {
      assert s + [] == s;
    }
  }

  ghost predicate Holds(q: Queued, k: nat, f: Frame)
    reads q.buf
  {
    FrameOk(f) && q.len <= q.buf.Length && q.buf[..q.len] == FrameBytes(f.(seqnum := k % W16))
  }

  /** If reading a full buffer forwards a frame, the buffer holds that frame and stamping it changes its number only. */
  lemma ForwardedFrame(l: Link, fate: Fate, seqnum: u16)
    requires |l.got| >= HDRLEN
    ensures OnRead(l, _ => fate).forwarded != l.forwarded ==>
      && HeaderOk(l.got) && |l.got| == HDRLEN + |FrameOf(l.got).payload| < W16
      && FrameOk(FrameOf(l.got)) && OnRead(l, _ => fate).forwarded == l.forwarded + [FrameOf(l.got)]
      && Stamp(l.got, seqnum) == FrameBytes(FrameOf(l.got).(seqnum := seqnum))
  {
    hide FrameBytes, Stamp, Num16, HeaderOk;
    if HeaderOk(l.got) && |l.got| == Num16(l.got[4..]) + HDRLEN {
      FrameOfBytes(l.got);
      StampKeepsFrame(FrameOf(l.got), seqnum);
    }
  }

  lemma FeedOneMore(l: Link, s: Bytes, i: nat, judge: Judge)
    requires i < |s|
    ensures FeedAll(l, s[..i + 1], judge) == Feed(FeedAll(l, s[..i], judge), s[i], judge)
    ensures !FeedAll(l, s[..i], judge).alive ==> FeedAll(l, s[..i + 1], judge) == FeedAll(l, s[..i], judge)
  {
    assert s[..i + 1][..i] == s[..i];
  }

  lemma VersionFrame(seqnum: u16)
    ensures Stamp(Snac.FlapStub(1) + Be32(1), seqnum) == FrameBytes(Frame(1, seqnum, Be32(1)))
  {
    assert (Snac.FlapStub(1) + Be32(1))[HDRLEN..] == Be32(1);
  }

  /** Re-stamping changes nothing of a frame but its sequence number. */
  lemma StampKeepsFrame(f: Frame, seqnum: u16)
    requires FrameOk(f)
    ensures |FrameBytes(f)| == HDRLEN + |f.payload| && Stamp(FrameBytes(f), seqnum) == FrameBytes(f.(seqnum := seqnum))
  {
  }

  /** A step of the stream depends on one verdict only: the one on the frame it completes. */
  lemma OneVerdict(l: Link, b: byte, judge: Judge, fate: Fate)
    requires |l.got| + 1 >= HDRLEN ==> fate == judge(l.handed + [FrameOf(l.got + [b])])
    ensures Feed(l, b, judge) == Feed(l, b, _ => fate)
  {
  }

  /** Two connections that share no buffer. */
  ghost predicate Apart(a: Conn, b: Conn)
    reads a, b, b.rx, set q <- a.queue :: q.buf, set q <- b.queue :: q.buf
  {
    && a != b && a.rx != b.rx
    && b.Valid()
    && (forall q <- b.queue :: q.buf != a.rx)
    && (forall q <- a.queue :: q.buf != b.rx)
  }

  /** The header bytes toscar_flap__sendraw writes in place */
  method StampHeader(buf: array<byte>, len: nat, seqnum: u16)
    requires HDRLEN <= len <= buf.Length && len < 0x1_0000
    modifies buf
    ensures buf[..len] == Stamp(old(buf[..len]), seqnum)
  {
    buf[0] := MAGIC;
    buf[2], buf[3] := seqnum / 0x100, seqnum % 0x100;
    buf[4], buf[5] := (len - HDRLEN) / 0x100, (len - HDRLEN) % 0x100;
  }

  lemma StampIdempotent(b: Bytes, seqnum: u16)
    requires HDRLEN <= |b| < 0x1_0000
    ensures Stamp(Stamp(b, seqnum), seqnum) == Stamp(b, seqnum)
  {
  }

  lemma RestampedIs(b: Bytes, k: nat)
    requires HDRLEN <= |b| < 0x1_0000 && b == Stamp(b, k % 0x1_0000)
    ensures Stamped(b, k)
  {
  }
}
