/** FLAP framing: reassembly of the byte stream and forwarding (timps/oscar/flap.c). */
module Flap {
  import opened Basics
  import opened Wire

  const MAGIC: byte := 42  // '*'
  const HDRLEN := 6
  const MAXSNACLEN := 8192

  datatype Frame = Frame(chan: byte, seqnum: u16, payload: Bytes)

  predicate ChanOk(chan: byte) {
    chan == 1 || chan == 2 || chan == 4 || chan == 5
  }

  predicate FrameOk(f: Frame) {
    ChanOk(f.chan) && |f.payload| <= MAXSNACLEN
  }

  function Header(f: Frame): (h: Bytes)
    requires FrameOk(f)
    ensures |h| == HDRLEN
  {
    [MAGIC, f.chan] + Be16(f.seqnum) + Be16(|f.payload|)
  }

  function FrameBytes(f: Frame): Bytes
    requires FrameOk(f)
  {
    Header(f) + f.payload
  }

  /** Magic, channel, sequence number and payload length in network order, then the payload. */
  lemma FrameLayout(f: Frame)
    ensures FrameOk(f) <==> f.chan in {1, 2, 4, 5} && |f.payload| <= 8192
    ensures FrameOk(f) ==>
      var b := FrameBytes(f);
      && |b| == 6 + |f.payload| && b[0] == 42 && b[1] == f.chan
      && BigEndian(b[2..4]) == f.seqnum && BigEndian(b[4..6]) == |f.payload| && b[6..] == f.payload
  {
    if FrameOk(f) {
      var b := FrameBytes(f);
      assert b[2..4] == Be16(f.seqnum) && b[4..6] == Be16(|f.payload|);
      NetworkOrder(f.seqnum, 0);
      NetworkOrder(|f.payload|, 0);
    }
  }

  function Stream(fs: seq<Frame>): Bytes
    requires forall f <- fs :: FrameOk(f)
  {
    if fs == [] then [] else Stream(fs[..|fs| - 1]) + FrameBytes(fs[|fs| - 1])
  }

  /**
   What becomes of a frame that was read: the handlers' verdict and, for FORWARD,
   whether there is an endpoint and whether it accepted the write.
   */
  datatype Fate = Forward(linked: bool, accepted: bool) | Digested | Error

  /** Handlers may take into account everything handed to them so far. */
  type Judge = seq<Frame> -> Fate

  predicate Fatal(fate: Fate) {
    fate.Error? || (fate.Forward? && fate.linked && !fate.accepted)
  }

  predicate Delivered(fate: Fate) {
    fate.Forward? && fate.linked && fate.accepted
  }

  /** A connection: the bytes in its read buffer, how many it waits for, and what has happened. */
  datatype Link = Link(alive: bool, got: Bytes, want: nat, handed: seq<Frame>, forwarded: seq<Frame>)

  const START := Link(true, [], HDRLEN, [], [])

  function FrameOf(b: Bytes): Frame
    requires |b| >= HDRLEN
  {
    Frame(b[1], Num16(b[2..]), b[HDRLEN..])
  }

  /** The header of a filled buffer is acceptable. */
  predicate HeaderOk(b: Bytes)
    requires |b| >= HDRLEN
  {
    b[0] == MAGIC && ChanOk(b[1]) && Num16(b[4..]) <= MAXSNACLEN
  }

  /** The connection is killed and its read buffer freed. */
  function Died(l: Link): Link {
    l.(alive := false, got := [], want := 0)
  }

  /** A complete frame goes to the handlers; the next header is awaited. */
  function AfterFrame(l: Link, f: Frame, judge: Judge): Link {
    var fate := judge(l.handed + [f]);
    if Fatal(fate) then Died(l).(handed := l.handed + [f])
    else Link(true, [], HDRLEN, l.handed + [f], if Delivered(fate) then l.forwarded + [f] else l.forwarded)
  }

  /** toscar_flap_handleread: the read buffer is full */
  function OnRead(l: Link, judge: Judge): Link
    requires |l.got| >= HDRLEN
  {
    if !HeaderOk(l.got) then Died(l)
    else if |l.got| != Num16(l.got[4..]) + HDRLEN then l.(want := |l.got| + Num16(l.got[4..]))
    else AfterFrame(l, FrameOf(l.got), judge)
  }

  /** One byte arrives. */
  function Feed(l: Link, b: byte, judge: Judge): Link {
    if !l.alive then l else
    var l1 := l.(got := l.got + [b]);
    if |l1.got| == l.want && l.want >= HDRLEN then OnRead(l1, judge) else l1
  }

  /** However the stream is cut into chunks, its bytes arrive one after the other. */
  function FeedAll(l: Link, s: Bytes, judge: Judge): Link
    decreases |s|
  {
    if s == [] then l else Feed(FeedAll(l, s[..|s| - 1], judge), s[|s| - 1], judge)
  }

  lemma {:induction false} FeedChunks(l: Link, s: Bytes, t: Bytes, judge: Judge)
    ensures FeedAll(l, s + t, judge) == FeedAll(FeedAll(l, s, judge), t, judge)
    decreases |t|
  {
    if t == [] {
      assert s + t == s;
    } else {
      var t0 := t[..|t| - 1];
      FeedChunks(l, s, t0, judge);
      assert (s + t)[..|s + t| - 1] == s + t0;
    }
  }

  // ---- Frames come out as they went in

  lemma {:induction false} Fill(l: Link, s: Bytes, judge: Judge)
    requires l.alive && l.want >= HDRLEN && |l.got| + |s| < l.want
    ensures FeedAll(l, s, judge) == l.(got := l.got + s)
    decreases |s|
  {
    if s == [] {
      assert l.got + s == l.got;
    } else {
      var s0 := s[..|s| - 1];
      Fill(l, s0, judge);
      assert l.got + s == l.got + s0 + [s[|s| - 1]];
    }
  }

  lemma FeedLast(l: Link, s: Bytes, judge: Judge)
    requires s != []
    ensures FeedAll(l, s, judge) == Feed(FeedAll(l, s[..|s| - 1], judge), s[|s| - 1], judge)
  {
    hide Feed;
  }

  lemma FeedFull(l: Link, b: byte, judge: Judge)
    requires l.alive && l.want >= HDRLEN && |l.got| + 1 == l.want
    ensures Feed(l, b, judge) == OnRead(l.(got := l.got + [b]), judge)
  {
    hide OnRead;
  }

  lemma FillUp(l: Link, s: Bytes, judge: Judge)
    requires l.alive && l.want >= HDRLEN && s != [] && |l.got| + |s| == l.want
    ensures FeedAll(l, s, judge) == OnRead(l.(got := l.got + s), judge)
  {
    hide OnRead, FeedAll, Feed;
    var (s0, b) := (s[..|s| - 1], s[|s| - 1]);
    FeedLast(l, s, judge);
    Fill(l, s0, judge);
    FeedFull(l.(got := l.got + s0), b, judge);
    assert l.got + s0 + [b] == l.got + s;
  }

  lemma HeaderFields(f: Frame, tail: Bytes)
    requires FrameOk(f)
    ensures var b := Header(f) + tail;
            HeaderOk(b) && Num16(b[4..]) == |f.payload| && FrameOf(b) == f.(payload := tail)
  {
    var b := Header(f) + tail;
    assert b[2..][..2] == Be16(f.seqnum) && b[4..][..2] == Be16(|f.payload|) && b[HDRLEN..] == tail;
  }

  /** Between frames, the bytes of one frame make exactly that frame come out. */
  lemma FeedFrame(l: Link, f: Frame, judge: Judge)
    requires l.alive && l.got == [] && l.want == HDRLEN && FrameOk(f)
    ensures FeedAll(l, FrameBytes(f), judge) == AfterFrame(l, f, judge)
  {
    hide FrameOf, HeaderOk, Header, FeedAll, Num16, Fatal, Delivered;
    HeaderFields(f, []);
    HeaderFields(f, f.payload);
    FillUp(l, Header(f), judge);
    assert [] + Header(f) == Header(f) == Header(f) + [];
    if f.payload == [] {
      assert FrameBytes(f) == Header(f);
    } else {
      FeedChunks(l, Header(f), f.payload, judge);
      var l1 := l.(got := Header(f), want := HDRLEN + |f.payload|);
      assert FeedAll(l, Header(f), judge) == l1;
      FillUp(l1, f.payload, judge);
    }
  }

  /** No prefix of the frames makes a handler, or the endpoint, kill the connection. */
  predicate Accepted(fs: seq<Frame>, judge: Judge) {
    forall i | 0 < i <= |fs| :: judge(fs[..i]) != Error && judge(fs[..i]) != Forward(true, false)
  }

  /** The frames that reach the endpoint. */
  function Forwards(fs: seq<Frame>, judge: Judge): seq<Frame> {
    if fs == [] then []
    else Forwards(fs[..|fs| - 1], judge) + if judge(fs) == Forward(true, true) then [fs[|fs| - 1]] else []
  }

  /** `out` are exactly the frames judged so, in order: `at` are their places. */
  predicate Places(fs: seq<Frame>, out: seq<Frame>, judge: Judge, at: seq<nat>) {
    && |at| == |out|
    && (forall i, j | 0 <= i < j < |at| :: at[i] < at[j])
    && (forall k | 0 <= k < |at| :: at[k] < |fs| && out[k] == fs[at[k]])
    && (forall k | 0 <= k < |at| && at[k] < |fs| :: judge(fs[..at[k] + 1]) == Forward(true, true))
    && (forall i | 0 <= i < |fs| && judge(fs[..i + 1]) == Forward(true, true) :: i in at)
  }

  lemma {:induction false} ForwardsMeans(fs: seq<Frame>, judge: Judge) returns (at: seq<nat>)
    ensures Places(fs, Forwards(fs, judge), judge, at)
    decreases |fs|
  {
    at := [];
    if fs != [] {
      var init := fs[..|fs| - 1];
      at := ForwardsMeans(init, judge);
      hide Places;
      if judge(fs) == Forward(true, true) {
        PlacesMore(fs, Forwards(init, judge), judge, at);
        at := at + [|fs| - 1];
      } else {
        PlacesSame(fs, Forwards(init, judge), judge, at);
        assert Forwards(init, judge) + [] == Forwards(init, judge);
      }
    }
  }

  lemma PlacesMore(fs: seq<Frame>, out: seq<Frame>, judge: Judge, at: seq<nat>)
    requires fs != [] && Places(fs[..|fs| - 1], out, judge, at) && judge(fs) == Forward(true, true)
    ensures Places(fs, out + [fs[|fs| - 1]], judge, at + [|fs| - 1])
  {
    var (init, n, at') := (fs[..|fs| - 1], |fs| - 1, at + [|fs| - 1]);
    assert fs[..n + 1] == fs && at'[|at|] == n;
    forall k | 0 <= k < |at| ensures judge(fs[..at[k] + 1]) == Forward(true, true) {
      assert init[..at[k] + 1] == fs[..at[k] + 1];
    }
    forall i | 0 <= i < |fs| && judge(fs[..i + 1]) == Forward(true, true) ensures i in at' {
      assert i < n ==> init[..i + 1] == fs[..i + 1];
    }
  }

  lemma PlacesSame(fs: seq<Frame>, out: seq<Frame>, judge: Judge, at: seq<nat>)
    requires fs != [] && Places(fs[..|fs| - 1], out, judge, at) && judge(fs) != Forward(true, true)
    ensures Places(fs, out, judge, at)
  {
    var (init, n) := (fs[..|fs| - 1], |fs| - 1);
    forall k | 0 <= k < |at| ensures judge(fs[..at[k] + 1]) == Forward(true, true) {
      assert init[..at[k] + 1] == fs[..at[k] + 1];
    }
    forall i | 0 <= i < |fs| && judge(fs[..i + 1]) == Forward(true, true) ensures i in at {
      assert fs[..n + 1] == fs;
      assert init[..i + 1] == fs[..i + 1];
    }
  }

  /** A frame judged an error, or refused by the endpoint, is the last: the connection dies with it. */
  lemma KilledBy(fs: seq<Frame>, f: Frame, judge: Judge)
    requires (forall g <- fs :: FrameOk(g)) && FrameOk(f) && Accepted(fs, judge)
    requires judge(fs + [f]) == Error || judge(fs + [f]) == Forward(true, false)
    ensures FeedAll(START, Stream(fs + [f]), judge) == Link(false, [], 0, fs + [f], Forwards(fs, judge))
  {
    hide FeedAll, FrameBytes, FrameOk, Forwards;
    assert (fs + [f])[..|fs|] == fs;
    Reassembly(fs, judge);
    FeedChunks(START, Stream(fs), FrameBytes(f), judge);
    FeedFrame(FeedAll(START, Stream(fs), judge), f, judge);
  }

  /** So does it with a header that cannot be one. */
  lemma KilledByHeader(fs: seq<Frame>, h: Bytes, judge: Judge)
    requires (forall g <- fs :: FrameOk(g)) && Accepted(fs, judge) && |h| == 6
    requires h[0] != 42 || h[1] !in {1, 2, 4, 5} || BigEndian(h[4..]) > 8192
    ensures FeedAll(START, Stream(fs) + h, judge) == Link(false, [], 0, fs, Forwards(fs, judge))
  {
    hide FeedAll, FrameBytes, FrameOk, Forwards;
    Reassembly(fs, judge);
    FeedChunks(START, Stream(fs), h, judge);
    BigEndian2(h[4..]);
    FillUp(FeedAll(START, Stream(fs), judge), h, judge);
    assert [] + h == h;
  }

  lemma FeedNothing(l: Link, judge: Judge)
    ensures FeedAll(l, [], judge) == l
  {
  }

  /** Every accepted stream of frames is handed over frame by frame, and the forwarded ones are passed on in order. */
  lemma {:induction false} Reassembly(fs: seq<Frame>, judge: Judge)
    requires (forall f <- fs :: FrameOk(f)) && Accepted(fs, judge)
    ensures FeedAll(START, Stream(fs), judge) == Link(true, [], HDRLEN, fs, Forwards(fs, judge))
    decreases |fs|
  {
    hide FeedAll, FrameBytes, FrameOk, Accepted, Stream, Forwards;
    StreamTurn(fs, judge);
    if fs == [] {
      FeedNothing(START, judge);
    } else {
      var init, f := fs[..|fs| - 1], fs[|fs| - 1];
      AcceptedInit(fs, judge);
      Reassembly(init, judge);
      FeedChunks(START, Stream(init), FrameBytes(f), judge);
      FeedFrame(FeedAll(START, Stream(init), judge), f, judge);
      assert init + [f] == fs;
    }
  }

  lemma StreamTurn(fs: seq<Frame>, judge: Judge)
    requires forall f <- fs :: FrameOk(f)
    ensures fs == [] ==> Stream(fs) == [] && Forwards(fs, judge) == []
    ensures fs != [] ==>
      var (init, f) := (fs[..|fs| - 1], fs[|fs| - 1]);
      && Stream(fs) == Stream(init) + FrameBytes(f)
      && Forwards(fs, judge) == Forwards(init, judge) + if judge(fs) == Forward(true, true) then [f] else []
  {
    hide FrameBytes, FrameOk;
  }

  lemma AcceptedInit(fs: seq<Frame>, judge: Judge)
    requires Accepted(fs, judge) && fs != []
    ensures Accepted(fs[..|fs| - 1], judge) && judge(fs) != Error && judge(fs) != Forward(true, false)
  {
    var init := fs[..|fs| - 1];
    forall i | 0 < i <= |init| ensures judge(init[..i]) != Error && judge(init[..i]) != Forward(true, false) {
      assert init[..i] == fs[..i];
    }
    assert fs[..|fs|] == fs;
  }

  // ---- Nothing else comes out

  /** The read buffer holds a proper prefix of what it waits for, its header already checked. */
  predicate Consistent(l: Link) {
    && (l.alive ==> |l.got| < l.want)
    && (l.alive && |l.got| < HDRLEN ==> l.want == HDRLEN)
    && (l.alive && |l.got| >= HDRLEN ==> HeaderOk(l.got) && l.want == HDRLEN + Num16(l.got[4..]))
    && forall f <- l.handed :: FrameOk(f)
  }

  lemma FrameOfBytes(b: Bytes)
    requires |b| >= HDRLEN && HeaderOk(b) && |b| == Num16(b[4..]) + HDRLEN
    ensures FrameOk(FrameOf(b)) && FrameBytes(FrameOf(b)) == b
  {
    var f := FrameOf(b);
    assert b[2..4] == Be16(f.seqnum) && b[4..6] == Be16(|f.payload|);
    assert b == b[..2] + b[2..4] + b[4..6] + b[6..];
  }

  lemma HeaderStays(got: Bytes, b: byte)
    requires |got| >= HDRLEN
    ensures HeaderOk(got + [b]) == HeaderOk(got) && Num16((got + [b])[4..]) == Num16(got[4..])
  {
    assert (got + [b])[4..][..2] == got[4..][..2];
  }

  lemma OnReadConserves(l: Link, s: Bytes, judge: Judge)
    requires l.alive && (forall f <- l.handed :: FrameOk(f)) && Stream(l.handed) + l.got == s
    requires |l.got| >= HDRLEN
    requires |l.got| == HDRLEN || (HeaderOk(l.got) && |l.got| == HDRLEN + Num16(l.got[4..]))
    ensures var l1 := OnRead(l, judge);
            && Consistent(l1)
            && (l1.alive ==> Stream(l1.handed) + l1.got == s)
            && Stream(l1.handed) <= s
  {
    hide Header, FrameOf, HeaderOk, Num16, Stream;
    if HeaderOk(l.got) && |l.got| == Num16(l.got[4..]) + HDRLEN {
      var f := FrameOf(l.got);
      FrameOfBytes(l.got);
      StreamSnoc(l.handed, f);
      assert s + [] == s;
    }
  }

  lemma StreamSnoc(fs: seq<Frame>, f: Frame)
    requires (forall g <- fs :: FrameOk(g)) && FrameOk(f)
    ensures Stream(fs + [f]) == Stream(fs) + FrameBytes(f)
  {
    hide FrameOk, FrameBytes;
    assert (fs + [f])[..|fs|] == fs;
  }

  lemma FeedConserves(l: Link, b: byte, s: Bytes, judge: Judge)
    requires Consistent(l) && l.alive && Stream(l.handed) + l.got == s
    ensures var l1 := Feed(l, b, judge);
            && Consistent(l1)
            && (l1.alive ==> Stream(l1.handed) + l1.got == s + [b])
            && Stream(l1.handed) <= s + [b]
  {
    hide Header, FrameOf, HeaderOk, Num16, OnRead, Stream;
    var l1 := l.(got := l.got + [b]);
    assert Stream(l.handed) + l1.got == s + [b];
    if |l.got| >= HDRLEN {
      HeaderStays(l.got, b);
    }
    if |l1.got| == l.want {
      OnReadConserves(l1, s + [b], judge);
    }
  }

  /** For every byte stream: the frames handed over and the bytes in the buffer are the stream. */
  lemma {:induction false} StreamConserved(s: Bytes, judge: Judge)
    ensures var l := FeedAll(START, s, judge);
            && Consistent(l)
            && (l.alive ==> Stream(l.handed) + l.got == s)
            && Stream(l.handed) <= s
    decreases |s|
  {
    if s != [] {
      var s0 := s[..|s| - 1];
      StreamConserved(s0, judge);
      var l := FeedAll(START, s0, judge);
      assert s == s0 + [s[|s| - 1]];
      if l.alive {
        FeedConserves(l, s[|s| - 1], s0, judge);
      }
    }
  }

  /** In every run, the endpoint gets exactly the frames judged FORWARD, in order. */
  lemma {:induction false} ForwardsInOrder(s: Bytes, judge: Judge)
    ensures var l := FeedAll(START, s, judge); l.forwarded == Forwards(l.handed, judge)
    decreases |s|
  {
    if s != [] {
      var l := FeedAll(START, s[..|s| - 1], judge);
      ForwardsInOrder(s[..|s| - 1], judge);
      assert forall f :: (l.handed + [f])[..|l.handed|] == l.handed;
    }
  }
}
