/**
 The login handoff: a cookie issued on the authorizer connection is cached, the reply is
 rewritten to point at the proxy, and the cookie is redeemed once on a new connection
 (timps/oscar/snac.c, timps/oscar/ckcache.c, timps/oscar/flap.c).
 */
module Handoff {
  import opened Basics
  import opened Wire
  import opened Tlv
  import opened CookieCache
  import Sbuf
  import Snac

  // ---- The authorizer's reply, 0017/0003

  /** An error URL or an error code: the login failed, and the reply is forwarded as it is. */
  predicate LoginFailed(ts: seq<Tlv>) {
    FirstOf(ts, 4).Some? || FirstOf(ts, 8).Some?
  }

  /** Cookie, server address and screen name of a reply that carries them all. */
  function TicketOf(ts: seq<Tlv>): Option<Ticket> {
    if LoginFailed(ts) || FirstOf(ts, 6).None? || FirstOf(ts, 5).None? || FirstOf(ts, 1).None? then None
    else Some(Ticket(FirstOf(ts, 6).value.value, CStr(FirstOf(ts, 5).value.value), CStr(FirstOf(ts, 1).value.value)))
  }

  /** The value naf_tlv_addstring gives a string: its terminator included, its length cut to 16 bits. */
  function StringValue(s: Bytes): Bytes {
    (s + [0])[..(|s| + 1) % W16]
  }

  /** The reply sent on: our own address in place of the server's. */
  function Rewritten(ts: seq<Tlv>, local: Bytes): seq<Tlv> {
    WithoutFirst(ts, 5) + [Tlv(5, StringValue(local))]
  }

  /** Exactly the first address TLV is gone, every other TLV is kept in order, and ours is last. */
  lemma RewrittenKeepsOthers(ts: seq<Tlv>, local: Bytes) returns (i: nat)
    requires TicketOf(ts).Some?
    ensures i < |ts| && ts[i].typ == 5 && (forall t <- ts[..i] :: t.typ != 5)
    ensures Rewritten(ts, local) == ts[..i] + ts[i + 1..] + [Tlv(5, StringValue(local))]
    ensures |local| < 0xffff ==> StringValue(local) == local + [0]
    ensures FirstOf(Rewritten(ts, local), 6) == FirstOf(ts, 6) && FirstOf(Rewritten(ts, local), 1) == FirstOf(ts, 1)
  {
    i := RemoveSplits(ts, 5);
    FirstElsewhere(ts, 5, 6, [Tlv(5, StringValue(local))]);
    FirstElsewhere(ts, 5, 1, [Tlv(5, StringValue(local))]);
  }

  lemma {:induction false} FirstElsewhere(ts: seq<Tlv>, typ: u16, other: u16, tail: seq<Tlv>)
    requires typ != other && FirstOf(ts, other).Some?
    ensures FirstOf(WithoutFirst(ts, typ) + tail, other) == FirstOf(ts, other)
  {
    if ts[0].typ == typ {
      FirstInFront(ts[1..], other, tail);
    } else {
      var rest := WithoutFirst(ts[1..], typ);
      assert WithoutFirst(ts, typ) + tail == [ts[0]] + (rest + tail);
      if ts[0].typ != other {
        FirstElsewhere(ts[1..], typ, other, tail);
      }
    }
  }

  lemma {:induction false} FirstInFront(ts: seq<Tlv>, typ: u16, tail: seq<Tlv>)
    requires FirstOf(ts, typ).Some?
    ensures FirstOf(ts + tail, typ) == FirstOf(ts, typ)
  {
    if ts[0].typ != typ {
      FirstInFront(ts[1..], typ, tail);
      assert (ts + tail)[1..] == ts[1..] + tail;
    }
  }

  /** The headers of the reply, in a fresh buffer. */
  function ReplyStart(id: u32): Out {
    Out(Snac.FlapStub(2) + Snac.SnacHeader(0x17, 3, 0, id), 512, true, false)
  }

  /** The reply as a SNAC, our address behind the other TLVs, ready for its FLAP header to be stamped. */
  method ComposeReply(others: seq<Tlv>, local: Bytes, id: u32) returns (sb: Sbuf.Sbuf)
    requires AllFit(others)
    ensures fresh(sb) && sb.Valid()
    ensures sb.View() == Render(ReplyStart(id), others + [Tlv(5, StringValue(local))])
  {
    hide Render;
    sb := Snac.NewSnac(0x17, 3, 0, id);
    var n := RenderTo(others + [Tlv(5, StringValue(local))], sb);
  }

  lemma ReplyBytes(id: u32)
    ensures var w := ReplyStart(id).written;
            && |w| == 16 && w[..12] == [42, 2, 0, 0, 0, 4, 0, 23, 0, 3, 0, 0] && BigEndian(w[12..]) == id
  {
    NetworkOrder(0, id);
    var w := ReplyStart(id).written;
    assert w[12..] == Be32(id);
  }

  lemma RewrittenFits(ts: seq<Tlv>, local: Bytes)
    requires AllFit(ts)
    ensures AllFit(Rewritten(ts, local))
  {
  }

  lemma {:induction false} ReplySize(ts: seq<Tlv>, last: Tlv)
    requires AllFit(ts) && Fits(last)
    ensures |Encode(WithoutFirst(ts, 5) + [last])| <= |Encode(ts)| + 4 + |last.value|
    decreases |ts|
  {
    hide EncodeOne;
    var rest := WithoutFirst(ts, 5);
    if ts == [] {
      EncodeTurn([last]);
    } else if ts[0].typ == 5 {
      EncodeTurn(ts);
      EncodeSnoc(rest, last);
    } else {
      ReplySize(ts[1..], last);
      EncodeTurn(ts);
      EncodeTurn(rest + [last]);
      assert (rest + [last])[1..] == WithoutFirst(ts[1..], 5) + [last];
    }
  }

  lemma {:induction false} EncodeSnoc(ts: seq<Tlv>, last: Tlv)
    requires AllFit(ts) && Fits(last)
    ensures |Encode(ts + [last])| == |Encode(ts)| + 4 + |last.value|
    decreases |ts|
  {
    hide EncodeOne;
    EncodeTurn(ts + [last]);
    if ts != [] {
      EncodeSnoc(ts[1..], last);
      EncodeTurn(ts);
      assert (ts + [last])[1..] == ts[1..] + [last];
    }
  }

  /**
   For every reply that fits a FLAP frame, and any address of ours: behind the 16 bytes of headers
   the client finds exactly the rewritten list if its lengths complete, and otherwise it does not.
   */
  lemma ReplyArrivesIff(r: Bytes, ts: seq<Tlv>, local: Bytes, id: u32)
    requires Snac.FromFrame(r, ts)
    ensures var out := Rewritten(ts, local);
            AllFit(out) && var sent := Render(ReplyStart(id), out);
            && (|local| < CHUNK ==> !sent.overrun)
            && |sent.written| >= 16 && sent.written[..12] == [42, 2, 0, 0, 0, 4, 0, 23, 0, 3, 0, 0]
            && BigEndian(sent.written[12..16]) == id
            && (!sent.overrun && Ends(sent.written[16..]) && Parse(sent.written[16..]).0 == out
                <==> Completes(16, 512, true, Lens(out)))
  {
    hide Render, Completes, Arrives, Ends, Parse, WithoutFirst, Encode, Lens, BigEndian;
    ReplyBytes(id);
    Snac.FrameBounds(r, ts);
    RewrittenFits(ts, local);
    var out := Rewritten(ts, local);
    var i := RemoveSplits(ts, 5);
    RenderAppends(ReplyStart(id), out);
    ghost var w := Render(ReplyStart(id), out).written;
    assert w[..16] == ReplyStart(id).written && w[..12] == w[..16][..12] && w[12..16] == w[..16][12..];
    if |StringValue(local)| <= CHUNK {
      RenderSound(ReplyStart(id), out);
    }
    if StringValue(local) != [] {
      ArrivesIff(ReplyStart(id), out);
      CompletesArrives(16, 512, true, out);
      assert Render(ReplyStart(id), out).written[16..] == Added(ReplyStart(id), out);
    } else {
      ReplySize(ts, Tlv(5, []));
      PrefixArrives(ReplyStart(id), out);
    }
  }

  /** TLVs that fill the 496 bytes behind the headers exactly are all the client gets: our address is lost. */
  lemma AddressLost(ts: seq<Tlv>, local: Bytes, id: u32)
    requires AllFit(ts) && |Encode(WithoutFirst(ts, 5))| == 496
    ensures AllFit(Rewritten(ts, local))
    ensures var sent := Render(ReplyStart(id), Rewritten(ts, local)).written;
            && |sent| == 512 && Ends(sent[16..])
            && Parse(sent[16..]).0 == WithoutFirst(ts, 5) != Rewritten(ts, local)
  {
    hide Render, Encode, Ends, Parse, WithoutFirst;
    RewrittenFits(ts, local);
    var rest := WithoutFirst(ts, 5);
    FullBufferDrops(ReplyStart(id), rest, [Tlv(5, StringValue(local))]);
    assert Render(ReplyStart(id), Rewritten(ts, local)).written[16..] == Encode(rest);
    ParseInvertsEncode(rest);
  }

  /** Such a reply: name, address, a cookie of 256 bytes and an unknown TLV of 227. */
  function Unlucky(name: byte, address: byte, ck: Bytes, unknown: Bytes): seq<Tlv> {
    [Tlv(1, [name]), Tlv(5, [address]), Tlv(6, ck), Tlv(9, unknown)]
  }

  lemma UnluckyReply(name: byte, address: byte, ck: Bytes, unknown: Bytes, local: Bytes, id: u32)
    requires |ck| == 256 && |unknown| == 227
    ensures var ts := Unlucky(name, address, ck, unknown);
            && AllFit(ts) && Snac.FromFrame(Encode(ts), ts) && TicketOf(ts).Some? && AllFit(Rewritten(ts, local))
            && var sent := Render(ReplyStart(id), Rewritten(ts, local)).written;
               |sent| == 512 && Ends(sent[16..]) && FirstOf(Parse(sent[16..]).0, 5).None?
  {
    hide Render, Ends, Parse, Encode, FirstOf, WithoutFirst;
    var ts := Unlucky(name, address, ck, unknown);
    var rest := [ts[0], ts[2], ts[3]];
    var i := RemoveSplits(ts, 5);
    assert WithoutFirst(ts, 5) == rest;
    i := RemoveSplits(ts, 1);
    i := RemoveSplits(ts, 4);
    i := RemoveSplits(ts, 6);
    i := RemoveSplits(ts, 8);
    i := RemoveSplits(rest, 5);
    EncodedSize(ts);
    EncodedSize(rest);
    ParseInvertsEncode(ts);
    AddressLost(ts, local, id);
  }

  lemma EncodedSize(ts: seq<Tlv>)
    requires AllFit(ts)
    ensures |ts| == 3 ==> |Encode(ts)| == 12 + |ts[0].value| + |ts[1].value| + |ts[2].value|
    ensures |ts| == 4 ==> |Encode(ts)| == 16 + |ts[0].value| + |ts[1].value| + |ts[2].value| + |ts[3].value|
  {
    hide EncodeOne;
    if |ts| == 3 || |ts| == 4 {
      EncodeTurn(ts);
      EncodeTurn(ts[1..]);
      EncodeTurn(ts[1..][1..]);
      if |ts| == 4 {
        EncodeTurn(ts[1..][1..][1..]);
      }
    }
  }

  /** The FLAP header and version of the frame that presents a cookie. */
  const COOKIE_START := Out(Snac.FlapStub(1) + Be32(1), 512, true, false)

  /** toscar_flap_sendcookie: the client's TLVs are presented to the server as they came */
  method ComposeCookie(ts: seq<Tlv>) returns (sb: Sbuf.Sbuf)
    requires AllFit(ts)
    ensures fresh(sb) && sb.Valid()
    ensures sb.View() == Render(COOKIE_START, ts)
  {
    hide Render, Put;
    sb := new Sbuf.Sbuf.New(0);
    PutPair(sb.View(), Snac.FlapStub(1), Be32(1));
    var n := sb.PutRaw(Snac.FlapStub(1));
    n := sb.Put32(1);
    assert sb.View() == COOKIE_START;
    n := RenderTo(ts, sb);
  }

  /**
   The TLVs a client sent in one FLAP frame are presented to the server: all of them exactly
   when their lengths complete, and a shorter list otherwise.
   */
  lemma CookieArrivesIff(r: Bytes, ts: seq<Tlv>)
    requires Snac.FromFrame(r, ts)
    ensures AllFit(ts)
    ensures var sent := Render(COOKIE_START, ts).written;
            && |sent| >= 10 && sent[..10] == [42, 1, 0, 0, 0, 4, 0, 0, 0, 1] && Ends(sent[10..])
            && Parse(sent[10..]).0 <= ts
            && (Parse(sent[10..]).0 == ts <==> Completes(10, 512, true, Lens(ts)))
  {
    hide Render, Completes, Ends, Parse;
    Snac.FrameBounds(r, ts);
    RenderAppends(COOKIE_START, ts);
    PrefixArrives(COOKIE_START, ts);
  }

  // ---- Runs

  /** A server connection opened for a cookie; its place in the list stands for the connection. */
  datatype Opening = Opening(ticket: Ticket)

  /** A cookie frame sent on a server connection. */
  datatype Presentation = Presentation(conn: nat, tlvs: seq<Tlv>)

  /**
   The cache, the TLVs that wait on server connections to be sent, and, as history, the tickets that
   were cached, taken out by a client, and dropped by the timer, the connections opened, and the
   cookie frames sent on them.
   */
  datatype State = State(
    cache: Entries, pending: map<nat, seq<Tlv>>,
    issued: seq<Ticket>, redeemed: seq<Ticket>, expired: multiset<Ticket>,
    openings: seq<Opening>, presented: seq<Presentation>)

  const INIT := State([], map[], [], [], multiset{}, [], [])

  /**
   A reply from the authorizer, a client's first frame with a cookie, a server connection that is
   complete, one that is gone, or the timer.
   */
  datatype Event =
    | Reply(tlvs: seq<Tlv>, now: int)
    | Hello(hello: seq<Tlv>, connected: bool)
    | Ready(conn: nat)
    | Gone(conn: nat)
    | Tick(time: int)

  /** toscar_snachandler_0017_0003 */
  function OnReply(s: State, ts: seq<Tlv>, now: int): State {
    var t := TicketOf(ts);
    if t.None? || t.value.ck == [] || Find(s.cache, t.value.ck).Some? then s
    else s.(cache := [Entry(t.value, now)] + s.cache, issued := s.issued + [t.value])
  }

  /** toscar_flap_handlechan1 for a client: with a screen name it is the obsolete login, refused */
  function OnHello(s: State, ts: seq<Tlv>, connected: bool): State {
    if FirstOf(ts, 1).Some? || FirstOf(ts, 6).None? then s
    else
      var e := Find(s.cache, FirstOf(ts, 6).value.value);
      if e.None? then s
      else
        var s1 := s.(cache := Without(s.cache, FirstOf(ts, 6).value.value), redeemed := s.redeemed + [e.value.ticket]);
        if connected then Opened(s1, e.value.ticket, ts) else s1
  }

  /** The new connection gets the client's TLVs as the tag conn.cookietlvs. */
  function Opened(s: State, t: Ticket, ts: seq<Tlv>): State {
    s.(openings := s.openings + [Opening(t)], pending := s.pending[|s.openings| := ts])
  }

  /** toscar_flap_handlechan1__conncomplete: the server's version frame came in */
  function OnReady(s: State, conn: nat): State {
    if conn !in s.pending then s
    else s.(pending := s.pending - {conn}, presented := s.presented + [Presentation(conn, s.pending[conn])])
  }

  function Step(s: State, ev: Event): State {
    match ev
    case Reply(ts, now) => OnReply(s, ts, now)
    case Hello(ts, connected) => OnHello(s, ts, connected)
    case Ready(conn) => OnReady(s, conn)
    case Gone(conn) => s.(pending := s.pending - {conn})
    case Tick(now) => s.(cache := Fresh(s.cache, now), expired := s.expired + Bag(Stale(s.cache, now)))
  }

  function Run(evs: seq<Event>): State {
    if evs == [] then INIT else Step(Run(evs[..|evs| - 1]), evs[|evs| - 1])
  }

  /** The most recent ticket issued for a cookie. */
  function LastIssue(ts: seq<Ticket>, ck: Bytes): Option<Ticket> {
    if ts == [] then None
    else if ts[|ts| - 1].ck == ck then Some(ts[|ts| - 1])
    else LastIssue(ts[..|ts| - 1], ck)
  }

  /** These TLVs present the cookie that the connection was opened for. */
  predicate Presents(openings: seq<Opening>, conn: nat, ts: seq<Tlv>) {
    conn < |openings| && FirstOf(ts, 6) == Some(Tlv(6, openings[conn].ticket.ck))
  }

  /** What is sent on a connection, or waits to be, is its own cookie, and is sent at most once. */
  predicate Tagged(s: State) {
    && (forall k <- s.pending :: Presents(s.openings, k, s.pending[k]))
    && (forall p <- s.presented :: Presents(s.openings, p.conn, p.tlvs) && p.conn !in s.pending)
    && (forall i, j | 0 <= i < j < |s.presented| :: s.presented[i].conn != s.presented[j].conn)
  }

  /** What every run keeps. */
  predicate Safe(s: State) {
    && Distinct(s.cache)
    && multiset(s.issued) == Bag(s.cache) + multiset(s.redeemed) + s.expired
    && (forall e <- s.cache :: LastIssue(s.issued, e.ticket.ck) == Some(e.ticket))
    && (forall o <- s.openings :: o.ticket in s.redeemed)
    && Tagged(s)
  }

  lemma LastIssueAppend(ts: seq<Ticket>, t: Ticket, ck: Bytes)
    ensures LastIssue(ts + [t], ck) == if t.ck == ck then Some(t) else LastIssue(ts, ck)
  {
    assert (ts + [t])[..|ts|] == ts;
  }

  lemma BagCons(e: Entry, es: Entries)
    ensures Bag([e] + es) == multiset{e.ticket} + Bag(es)
  {
    assert ([e] + es)[1..] == es;
  }

  lemma ReplySafe(s: State, ts: seq<Tlv>, now: int)
    requires Safe(s)
    ensures Safe(OnReply(s, ts, now))
  {
    hide TicketOf, Find, Bag, LastIssue, Tagged;
    var s' := OnReply(s, ts, now);
    if s' != s {
      TaggedSame(s, s');
      var t := TicketOf(ts).value;
      var i := FindWhere(s.cache, t.ck);
      BagCons(Entry(t, now), s.cache);
      forall e <- s'.cache ensures LastIssue(s'.issued, e.ticket.ck) == Some(e.ticket) {
        LastIssueAppend(s.issued, t, e.ticket.ck);
      }
    }
  }

  lemma FirstHasType(ts: seq<Tlv>, typ: u16)
    ensures FirstOf(ts, typ).Some? ==> FirstOf(ts, typ).value.typ == typ
  {
  }

  lemma HelloSafe(s: State, ts: seq<Tlv>, connected: bool)
    requires Safe(s)
    ensures Safe(OnHello(s, ts, connected))
  {
    hide Distinct, Bag, LastIssue, Find, Without, FirstOf, Tagged, Opened;
    FirstHasType(ts, 6);
    if FirstOf(ts, 1).None? && FirstOf(ts, 6).Some? {
      var ck := FirstOf(ts, 6).value.value;
      if Find(s.cache, ck).Some? {
        var i := FindWhere(s.cache, ck);
        WithoutConserves(s.cache, ck);
        RemovedIsGone(s.cache, ck);
        var s1 := s.(cache := Without(s.cache, ck), redeemed := s.redeemed + [s.cache[i].ticket]);
        TaggedSame(s, s1);
        var s' := OnHello(s, ts, connected);
        if connected {
          OpenedTagged(s1, s.cache[i].ticket, ts);
        }
        assert forall e <- s'.cache :: e in s.cache;
        assert multiset(s'.redeemed) == multiset(s.redeemed) + multiset{s.cache[i].ticket};
      }
    }
  }

  lemma TaggedSame(s: State, s1: State)
    requires Tagged(s) && s1.openings == s.openings && s1.pending == s.pending && s1.presented == s.presented
    ensures Tagged(s1)
  {
  }

  lemma OpenedTagged(s: State, t: Ticket, ts: seq<Tlv>)
    requires Tagged(s) && FirstOf(ts, 6) == Some(Tlv(6, t.ck))
    ensures var s' := Opened(s, t, ts);
            && Tagged(s') && s'.openings == s.openings + [Opening(t)]
            && s' == s.(openings := s'.openings, pending := s'.pending)
  {
    hide FirstOf;
    var s' := Opened(s, t, ts);
    forall k <- s'.pending ensures Presents(s'.openings, k, s'.pending[k]) {
      assert k in s.pending ==> Presents(s.openings, k, s.pending[k]);
    }
    forall p <- s'.presented ensures Presents(s'.openings, p.conn, p.tlvs) && p.conn !in s'.pending {
      assert Presents(s.openings, p.conn, p.tlvs);
    }
  }

  lemma ReadySafe(s: State, conn: nat)
    requires Safe(s)
    ensures Safe(OnReady(s, conn)) && Safe(Step(s, Gone(conn)))
  {
    hide Distinct, Bag, LastIssue, FirstOf;
    assert Tagged(Step(s, Gone(conn)));
    if conn in s.pending {
      var s' := OnReady(s, conn);
      forall p <- s'.presented ensures Presents(s'.openings, p.conn, p.tlvs) && p.conn !in s'.pending {
        assert p in s.presented || p == Presentation(conn, s.pending[conn]);
      }
      forall i, j | 0 <= i < j < |s'.presented| ensures s'.presented[i].conn != s'.presented[j].conn {
        assert s.presented[i] in s.presented;
      }
    }
  }

  lemma TickSafe(s: State, now: int)
    requires Safe(s)
    ensures Safe(Step(s, Tick(now)))
  {
    hide Tagged, Bag, FirstOf, LastIssue;
    TimerConserves(s.cache, now);
    FreshDistinct(s.cache, now);
    TaggedSame(s, Step(s, Tick(now)));
    forall e <- Fresh(s.cache, now) ensures e in s.cache {
      FreshMeans(s.cache, now, e);
    }
  }

  lemma {:induction false} RunSafe(evs: seq<Event>)
    ensures Safe(Run(evs))
    decreases |evs|
  {
    if evs != [] {
      var s := Run(evs[..|evs| - 1]);
      RunSafe(evs[..|evs| - 1]);
      match evs[|evs| - 1]
      case Reply(ts, now) => ReplySafe(s, ts, now);
      case Hello(ts, connected) => HelloSafe(s, ts, connected);
      case Ready(conn) => ReadySafe(s, conn);
      case Gone(conn) => ReadySafe(s, conn);
      case Tick(now) => TickSafe(s, now);
    }
  }

  /** Every ticket was carried by a reply of the run. */
  lemma {:induction false} IssuedByReply(evs: seq<Event>, t: Ticket)
    requires t in Run(evs).issued
    ensures exists k | 0 <= k < |evs| :: evs[k].Reply? && TicketOf(evs[k].tlvs) == Some(t)
    decreases |evs|
  {
    var init, ev := evs[..|evs| - 1], evs[|evs| - 1];
    if t in Run(init).issued {
      IssuedByReply(init, t);
      var k :| 0 <= k < |init| && init[k].Reply? && TicketOf(init[k].tlvs) == Some(t);
      assert evs[k] == init[k];
    } else {
      assert ev.Reply? && TicketOf(ev.tlvs) == Some(t);
    }
  }

  /** The reply carries this cookie, this server address and this screen name. */
  predicate Carries(ev: Event, t: Ticket) {
    && ev.Reply?
    && FirstOf(ev.tlvs, 6).Some? && FirstOf(ev.tlvs, 6).value.value == t.ck
    && FirstOf(ev.tlvs, 5).Some? && CStr(FirstOf(ev.tlvs, 5).value.value) == t.ip
    && FirstOf(ev.tlvs, 1).Some? && CStr(FirstOf(ev.tlvs, 1).value.value) == t.sn
    && FirstOf(ev.tlvs, 4).None? && FirstOf(ev.tlvs, 8).None?
  }

  /** Whatever is sent as a cookie frame, or waits to be, came in as a client's first frame. */
  lemma {:induction false} PresentedByHello(evs: seq<Event>, ts: seq<Tlv>)
    requires ts in Run(evs).pending.Values || exists p <- Run(evs).presented :: p.tlvs == ts
    ensures exists h | 0 <= h < |evs| :: evs[h] == Hello(ts, true)
    decreases |evs|
  {
    hide FirstOf, Find, Without, TicketOf;
    var init, ev := evs[..|evs| - 1], evs[|evs| - 1];
    var s := Run(init);
    if ts in s.pending.Values || exists p <- s.presented :: p.tlvs == ts {
      PresentedByHello(init, ts);
      var h :| 0 <= h < |init| && init[h] == Hello(ts, true);
      assert evs[h] == init[h];
    } else {
      NewlyPending(s, ev, ts);
    }
  }

  lemma NewlyPending(s: State, ev: Event, ts: seq<Tlv>)
    requires ts !in s.pending.Values && forall p <- s.presented :: p.tlvs != ts
    requires var s' := Step(s, ev); ts in s'.pending.Values || exists p <- s'.presented :: p.tlvs == ts
    ensures ev == Hello(ts, true)
  {
    hide FirstOf, Find, Without, TicketOf;
  }

  /** Connections are opened for redeemed tickets only, and those for replies that carried them. */
  lemma OpenedSound(evs: seq<Event>, conn: nat)
    requires conn < |Run(evs).openings|
    ensures exists k | 0 <= k < |evs| :: Carries(evs[k], Run(evs).openings[conn].ticket)
  {
    hide Run, FirstOf, Tagged;
    RunSafe(evs);
    var s := Run(evs);
    var t := s.openings[conn].ticket;
    assert s.openings[conn] in s.openings && t in multiset(s.redeemed);
    assert t in multiset(s.issued);
    IssuedByReply(evs, t);
    var k :| 0 <= k < |evs| && evs[k].Reply? && TicketOf(evs[k].tlvs) == Some(t);
    assert Carries(evs[k], t);
  }

  /**
   In every run, a cookie frame is sent only on the one connection opened for its cookie, to the
   server address and for the screen name of a reply that carried that cookie; it holds the TLVs of a
   client's first frame, and is sent at most once.  No ticket is redeemed more often than it was issued.
   */
  lemma HandoffSound(evs: seq<Event>, i: nat, t: Ticket)
    requires i < |Run(evs).presented|
    ensures var s := Run(evs);
            var p := s.presented[i];
            && Presents(s.openings, p.conn, p.tlvs)
            && (exists k | 0 <= k < |evs| :: Carries(evs[k], s.openings[p.conn].ticket))
            && (exists h | 0 <= h < |evs| :: evs[h] == Hello(p.tlvs, true))
            && (forall j | 0 <= j < |s.presented| && s.presented[j].conn == p.conn :: j == i)
            && multiset(s.redeemed)[t] <= multiset(s.issued)[t]
  {
    hide Run, FirstOf;
    RunSafe(evs);
    var s := Run(evs);
    var p := s.presented[i];
    assert p in s.presented && Presents(s.openings, p.conn, p.tlvs);
    OpenedSound(evs, p.conn);
    PresentedByHello(evs, p.tlvs);
  }

  /** A redemption yields the latest ticket issued for the cookie, and the cookie is spent. */
  lemma RedeemOnce(evs: seq<Event>, ts: seq<Tlv>, connected: bool)
    requires FirstOf(ts, 1).None? && FirstOf(ts, 6).Some?
    ensures var (s, s') := (Run(evs), OnHello(Run(evs), ts, connected));
            var ck := FirstOf(ts, 6).value.value;
            && (s' != s ==>
                LastIssue(s.issued, ck).Some? && s'.redeemed == s.redeemed + [LastIssue(s.issued, ck).value])
            && Find(s'.cache, ck).None?
            && OnHello(s', ts, connected) == s'
  {
    hide Run;
    RunSafe(evs);
    var s := Run(evs);
    var ck := FirstOf(ts, 6).value.value;
    var i := FindWhere(s.cache, ck);
    RemovedIsGone(s.cache, ck);
  }

  // ---- Valid cookies are honoured

  /** The client's frame presents this cookie, and is not the obsolete login. */
  predicate Presenting(ts: seq<Tlv>, ck: Bytes) {
    FirstOf(ts, 1).None? && FirstOf(ts, 6).Some? && FirstOf(ts, 6).value.value == ck
  }

  /** Nothing in the event takes a ticket of this cookie, added at `t0`, out of the cache. */
  predicate Harmless(ev: Event, ck: Bytes, t0: int) {
    && (ev.Hello? ==> !Presenting(ev.hello, ck))
    && (ev.Tick? ==> ev.time <= t0 + 60)
  }

  lemma {:induction false} FindIn(es: Entries, ck: Bytes)
    ensures Find(es, ck).Some? <==> exists e <- es :: e.ticket.ck == ck
    ensures forall e <- es | Distinct(es) && e.ticket.ck == ck :: Find(es, ck) == Some(e)
  {
    var i := FindWhere(es, ck);
  }

  /** A reply's ticket is cached, unless its cookie is empty or already there. */
  ghost predicate Cached(ts: seq<Tlv>, now: int, before: Entries, after: Entries) {
    && (forall t | Carries(Reply(ts, now), t) ::
          after == (if t.ck != [] && forall e <- before :: e.ticket.ck != t.ck then [Entry(t, now)] else []) + before)
    && ((forall t :: !Carries(Reply(ts, now), t)) ==> after == before)
  }

  lemma ReplyMeans(s: State, ts: seq<Tlv>, now: int)
    ensures Cached(ts, now, s.cache, OnReply(s, ts, now).cache)
    ensures forall t | Carries(Reply(ts, now), t) :: OnReply(s, ts, now).cache != s.cache ==>
      OnReply(s, ts, now).issued == s.issued + [t]
  {
    hide Find, FirstOf;
    forall t | Carries(Reply(ts, now), t) ensures TicketOf(ts) == Some(t) {
    }
    if TicketOf(ts).Some? {
      FindIn(s.cache, TicketOf(ts).value.ck);
      assert Carries(Reply(ts, now), TicketOf(ts).value);
    }
    assert [] + s.cache == s.cache;
  }

  /** A connection is opened exactly for a cookie that is cached, and the cookie is spent. */
  ghost predicate Redeemed(
      ts: seq<Tlv>, connected: bool, before: Entries, after: Entries, opening: Option<Ticket>) {
    var valid := FirstOf(ts, 1).None? && FirstOf(ts, 6).Some?;
    && (opening.Some? <==>
        connected && valid && exists e <- before :: Presenting(ts, e.ticket.ck))
    && (opening.Some? ==> exists e <- before :: e.ticket == opening.value && Presenting(ts, e.ticket.ck))
    && (forall e: Entry :: e in after <==> e in before && !Presenting(ts, e.ticket.ck))
  }

  lemma WithoutMeans(es: Entries, ck: Bytes, e: Entry)
    requires Distinct(es)
    ensures e in Without(es, ck) <==> e in es && e.ticket.ck != ck
  {
    hide Find, Without;
    var i := FindWhere(es, ck);
    if Find(es, ck).Some? && e in es && e.ticket.ck != ck {
      var j :| 0 <= j < |es| && es[j] == e;
      assert j < i ==> es[..i][j] == e;
      assert j > i ==> es[i + 1..][j - i - 1] == e;
    }
  }

  lemma HelloMeans(s: State, ts: seq<Tlv>, connected: bool)
    requires Safe(s)
    ensures var s' := OnHello(s, ts, connected);
            Redeemed(ts, connected, s.cache, s'.cache,
                     if |s'.openings| > |s.openings| then Some(s'.openings[|s.openings|].ticket) else None)
  {
    hide Find, FirstOf, Without, Bag, LastIssue, Tagged;
    if FirstOf(ts, 1).None? && FirstOf(ts, 6).Some? {
      var ck := FirstOf(ts, 6).value.value;
      FindIn(s.cache, ck);
      forall e: Entry ensures e in Without(s.cache, ck) <==> e in s.cache && e.ticket.ck != ck {
        WithoutMeans(s.cache, ck, e);
      }
    }
  }

  lemma WithoutKeeps(es: Entries, ck: Bytes, e: Entry)
    requires e in es && e.ticket.ck != ck
    ensures e in Without(es, ck)
  {
    hide Find, Without;
    var i := FindWhere(es, ck);
  }

  lemma StaysCached(s: State, ev: Event, e: Entry)
    requires e in s.cache && Harmless(ev, e.ticket.ck, e.addtime)
    ensures e in Step(s, ev).cache
  {
    hide FirstOf, Find, Without, Fresh, TicketOf;
    match ev
    case Reply(_, _) =>
    case Hello(ts, _) =>
      if FirstOf(ts, 1).None? && FirstOf(ts, 6).Some? {
        WithoutKeeps(s.cache, FirstOf(ts, 6).value.value, e);
      }
    case Ready(_) =>
    case Gone(_) =>
    case Tick(now) => FreshMeans(s.cache, now, e);
  }

  lemma {:induction false} CachedSince(evs: seq<Event>, k: nat, t: Ticket)
    requires k < |evs| && evs[k].Reply? && Carries(evs[k], t) && t.ck != []
    requires forall e <- Run(evs[..k]).cache :: e.ticket.ck != t.ck
    requires forall j | k < j < |evs| :: Harmless(evs[j], t.ck, evs[k].now)
    ensures Entry(t, evs[k].now) in Run(evs).cache
    decreases |evs|
  {
    hide Carries, Harmless;
    var init := evs[..|evs| - 1];
    if k == |evs| - 1 {
      ReplyMeans(Run(init), evs[k].tlvs, evs[k].now);
    } else {
      assert init[..k] == evs[..k];
      CachedSince(init, k, t);
      StaysCached(Run(init), evs[|evs| - 1], Entry(t, evs[k].now));
    }
  }

  /**
   A ticket that a reply carried, under a cookie that was not cached, is good for 60 seconds and one
   use: presenting the cookie opens a connection for it, and what was presented waits there to be sent.
   */
  lemma CookieHonoured(evs: seq<Event>, k: nat, t: Ticket, ts: seq<Tlv>)
    requires k < |evs| && evs[k].Reply? && Carries(evs[k], t) && t.ck != []
    requires forall e <- Run(evs[..k]).cache :: e.ticket.ck != t.ck
    requires forall j | k < j < |evs| :: Harmless(evs[j], t.ck, evs[k].now)
    requires Presenting(ts, t.ck)
    ensures var (s, s') := (Run(evs), Run(evs + [Hello(ts, true)]));
            && s'.openings == s.openings + [Opening(t)]
            && |s.openings| in s'.pending && s'.pending[|s.openings|] == ts
            && forall e <- s'.cache :: e.ticket.ck != t.ck
  {
    hide *;
    CachedSince(evs, k, t);
    DistinctRun(evs);
    RunSnoc(evs, Hello(ts, true));
    HelloHonoured(Run(evs), Entry(t, evs[k].now), ts);
  }

  lemma HelloHonoured(s: State, e: Entry, ts: seq<Tlv>)
    requires Distinct(s.cache) && e in s.cache && Presenting(ts, e.ticket.ck)
    ensures var s' := Step(s, Hello(ts, true));
            && s'.openings == s.openings + [Opening(e.ticket)]
            && |s.openings| in s'.pending && s'.pending[|s.openings|] == ts
            && forall x <- s'.cache :: x.ticket.ck != e.ticket.ck
  {
    hide FirstOf, Find, Without;
    FindIn(s.cache, e.ticket.ck);
    RemovedIsGone(s.cache, e.ticket.ck);
    FindIn(Without(s.cache, e.ticket.ck), e.ticket.ck);
  }

  lemma DistinctRun(evs: seq<Event>)
    ensures Distinct(Run(evs).cache)
  {
    RunSafe(evs);
  }

  lemma RunSnoc(evs: seq<Event>, ev: Event)
    ensures Run(evs + [ev]) == Step(Run(evs), ev)
  {
    hide Step;
    assert (evs + [ev])[..|evs|] == evs;
  }

  /** And what waits on a connection is sent when the connection is complete. */
  lemma PresentedWhenReady(evs: seq<Event>, conn: nat)
    requires conn in Run(evs).pending
    ensures var (s, s') := (Run(evs), Run(evs + [Ready(conn)]));
            s'.presented == s.presented + [Presentation(conn, s.pending[conn])] && conn !in s'.pending
  {
    assert (evs + [Ready(conn)])[..|evs|] == evs;
  }

  /** What waits on a connection that is gone is never sent: neither at once, nor when a late completion comes in. */
  lemma GoneIsSilent(evs: seq<Event>, conn: nat)
    ensures var (s, s1, s2) := (Run(evs), Run(evs + [Gone(conn)]), Run(evs + [Gone(conn)] + [Ready(conn)]));
            && conn !in s1.pending && s1.presented == s.presented
            && (forall k <- s.pending :: k != conn ==> k in s1.pending && s1.pending[k] == s.pending[k])
            && s2 == s1
  {
    RunSnoc(evs, Gone(conn));
    RunSnoc(evs + [Gone(conn)], Ready(conn));
  }

  // ---- The handlers themselves

  datatype Verdict = Forward | Digested | Error

  class Login {
    const cache: Cache
    var cookietlvs: map<nat, seq<Tlv>>  // the tags conn.cookietlvs of server connections
    var count: nat                      // server connections opened so far
    ghost var st: State

    ghost predicate Valid()
      reads this, cache
    {
      && st.cache == cache.entries && st.pending == cookietlvs && |st.openings| == count && Safe(st)
      && forall k <- cookietlvs :: AllFit(cookietlvs[k])
    }

    constructor ()
      ensures Valid() && st == INIT && fresh(cache)
    {
      cache := new Cache();
      cookietlvs, count, st := map[], 0, INIT;
    }

    /**
     toscar_snachandler_0017_0003; `local` is our address as the client sees it, and `sent`
     whether the new reply could be queued
     */
    method HandleReply(ts: seq<Tlv>, id: u32, now: int, local: Option<Bytes>, sent: bool)
      returns (v: Verdict, reply: Option<Bytes>)
      requires Valid() && AllFit(ts)
      modifies this, cache
      ensures Valid() && st == OnReply(old(st), ts, now)
      ensures Cached(ts, now, old(cache.entries), cache.entries)
      ensures v.Digested? <==> cache.entries != old(cache.entries) && local.Some? && sent
      ensures v.Forward? <==> FirstOf(ts, 4).Some? || FirstOf(ts, 8).Some?
      ensures v.Digested? <==> reply.Some?
      ensures v.Digested? ==>
        AllFit(Rewritten(ts, local.value)) && reply.value == Render(ReplyStart(id), Rewritten(ts, local.value)).written
    {
      hide Safe, FirstOf, WithoutFirst, Find, Render, ReplyStart, Cached;
      ReplyMeans(st, ts, now);
      if FirstOf(ts, 4).Some? || FirstOf(ts, 8).Some? {
        return Forward, None;
      }
      var sn := FirstOf(ts, 1);
      var ck := FirstOf(ts, 6);
      var ip, others := Remove(ts, 5);
      if ck.None? || ip.None? || sn.None? {
        return Error, None;
      }
      ReplySafe(st, ts, now);
      var ok := cache.Add(Ticket(ck.value.value, CStr(ip.value.value), CStr(sn.value.value)), now);
      ghost var before := st;
      st := OnReply(st, ts, now);
      if !ok {
        return Error, None;
      }
      assert |st.cache| == |before.cache| + 1;
      if local.None? {
        return Error, None;
      }
      var sb := ComposeReply(others, local.value, id);
      if !sent {
        return Error, None;
      }
      return Digested, Some(sb.buf[..sb.pos]);
    }

    /** The client half of toscar_flap_handlechan1: a first frame that carries more than a version */
    method HandleHello(ts: seq<Tlv>, connected: bool) returns (v: Verdict, opening: Option<Ticket>)
      requires Valid() && AllFit(ts)
      modifies this, cache
      ensures Valid() && st == OnHello(old(st), ts, connected)
      ensures v == if opening.Some? then Digested else Error
      ensures opening.Some? <==> |st.openings| > |old(st.openings)|
      ensures Redeemed(ts, connected, old(cache.entries), cache.entries, opening)
      ensures opening.Some? ==>
        st.openings == old(st.openings) + [Opening(opening.value)] && st.pending == old(st.pending)[old(count) := ts]
    {
      hide Safe, FirstOf, Find, Without, Redeemed;
      HelloMeans(st, ts, connected);
      if FirstOf(ts, 1).Some? || FirstOf(ts, 6).None? {
        return Error, None;
      }
      HelloSafe(st, ts, connected);
      var t := cache.Rem(FirstOf(ts, 6).value.value);
      if t.None? {
        NotFound(st.cache, FirstOf(ts, 6).value.value);
      }
      st := OnHello(st, ts, connected);
      if t.None? || !connected {
        return Error, None;
      }
      cookietlvs, count := cookietlvs[count := ts], count + 1;
      return Digested, t;
    }

    /** toscar_flap_handlechan1__conncomplete, on a server connection opened for a cookie */
    method HandleReady(conn: nat) returns (frame: Option<Bytes>)
      requires Valid()
      modifies this
      ensures Valid() && st == OnReady(old(st), conn)
      ensures frame.Some? <==> conn in old(st.pending)
      ensures frame.Some? ==>
        var ts := old(st.pending)[conn];
        && st.presented == old(st.presented) + [Presentation(conn, ts)]
        && AllFit(ts) && frame.value == Render(COOKIE_START, ts).written
    {
      hide Safe, FirstOf, Render;
      ReadySafe(st, conn);
      st := OnReady(st, conn);
      if conn !in cookietlvs {
        return None;
      }
      var sb := ComposeCookie(cookietlvs[conn]);
      cookietlvs := cookietlvs - {conn};
      return Some(sb.buf[..sb.pos]);
    }

    /** A server connection is freed, and its tags with it. */
    method HandleGone(conn: nat)
      requires Valid()
      modifies this
      ensures Valid() && st == Step(old(st), Gone(conn))
      ensures cookietlvs == old(cookietlvs) - {conn} && cache.entries == old(cache.entries)
    {
      hide Safe;
      ReadySafe(st, conn);
      st := Step(st, Gone(conn));
      cookietlvs := cookietlvs - {conn};
    }

    /** toscar_ckcache_timer */
    method HandleTick(now: int)
      requires Valid()
      modifies this, cache
      ensures Valid() && st == Step(old(st), Tick(now))
      ensures forall e: Entry :: e in cache.entries <==> e in old(cache.entries) && now - e.addtime <= 60
    {
      hide Safe, Fresh;
      TickSafe(st, now);
      forall e: Entry ensures e in Fresh(cache.entries, now) <==> e in cache.entries && now - e.addtime <= 60 {
        FreshMeans(cache.entries, now, e);
      }
      cache.Timer(now);
      st := Step(st, Tick(now));
    }
  }

  lemma NotFound(es: Entries, ck: Bytes)
    requires Find(es, ck).None?
    ensures Without(es, ck) == es
  {
    var i := FindWhere(es, ck);
  }
}
