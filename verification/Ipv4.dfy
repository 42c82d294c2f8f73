/** Building and accepting IPv4 packets (naf/ipv4/ipv4.c). */
module Ipv4 {
  import opened Basics
  import opened Wire
  import opened Checksum
  import Sbuf

  const MINHDRLEN := 20
  const DONTFRAG := 0x4000
  const MOREFRAG := 0x2000

  /** The fields a caller sets for output, defaults filled in. */
  datatype Packet = Packet(
    tos: byte, id: u16, dontfrag: bool, ttl: byte, proto: byte, saddr: u32, daddr: u32, payload: Bytes)

  /** Header layout of section 3.1 of RFC 791, without options. */
  function HeaderWith(p: Packet, sum: u16): (h: Bytes)
    ensures |h| == MINHDRLEN
  {
    HeaderFront(p) + Be16(sum) + Be32(p.saddr) + Be32(p.daddr)
  }

  /** The total length is cut to 16 bits. */
  function HeaderFront(p: Packet): (h: Bytes)
    ensures |h| == 10
  {
    [0x45] + [p.tos] + Be16((MINHDRLEN + |p.payload|) % M) + Be16(p.id) +
    Be16(if p.dontfrag then DONTFRAG else 0) + [p.ttl] + [p.proto]
  }

  /** Where each field lies, in network order. */
  lemma HeaderLayout(p: Packet, sum: u16)
    ensures var h := HeaderWith(p, sum);
            && h[0] == 0x45 && h[1] == p.tos && BigEndian(h[2..4]) == (20 + |p.payload|) % 0x1_0000
            && BigEndian(h[4..6]) == p.id && BigEndian(h[6..8]) == (if p.dontfrag then 0x4000 else 0)
            && h[8] == p.ttl && h[9] == p.proto && BigEndian(h[10..12]) == sum
            && BigEndian(h[12..16]) == p.saddr && BigEndian(h[16..20]) == p.daddr
  {
    var h := HeaderWith(p, sum);
    var len: u16 := (MINHDRLEN + |p.payload|) % M;
    assert h[2..4] == Be16(len) && h[4..6] == Be16(p.id) && h[10..12] == Be16(sum);
    assert h[6..8] == Be16(if p.dontfrag then DONTFRAG else 0);
    AddressBytes(p, sum);
    hide BigEndian;
    NetworkOrder(len, p.saddr);
    NetworkOrder(p.id, p.daddr);
    NetworkOrder(sum, 0);
    NetworkOrder(if p.dontfrag then DONTFRAG else 0, 0);
  }

  lemma AddressBytes(p: Packet, sum: u16)
    ensures HeaderWith(p, sum)[12..16] == Be32(p.saddr) && HeaderWith(p, sum)[16..20] == Be32(p.daddr)
  {
    hide HeaderFront, Be16, Be32;
    var (h, a, s, d) := (HeaderWith(p, sum), HeaderFront(p) + Be16(sum), Be32(p.saddr), Be32(p.daddr));
    assert h == a + s + d;
    assert (a + s)[12..] == s;
    assert h[12..16] == (a + s)[12..];
    assert h[16..] == d && h[16..] == h[16..20];
  }

  /** The packet naf_ipv4_output hands to the interface. */
  function PacketBytes(p: Packet, order: Order): Bytes {
    HeaderWith(p, HostChecksum(HeaderWith(p, 0), order)) + p.payload
  }

  /** The fields in the order they are put, the checksum still zero */
  function HeaderChunks(p: Packet): seq<Bytes> {
    [[0x45], [p.tos], Be16((MINHDRLEN + |p.payload|) % M), Be16(p.id), Be16(if p.dontfrag then DONTFRAG else 0),
     [p.ttl], [p.proto], Be16(0), Be32(p.saddr), Be32(p.daddr)]
  }

  lemma HeaderConcat(p: Packet)
    ensures Concat(HeaderChunks(p)) == HeaderWith(p, 0)
  {
    hide Concat, Be16, Be32;
    var cs := HeaderChunks(p);
    NothingConcat();
    ConcatTo(cs, 0);
    ConcatTo(cs, 1);
    ConcatTo(cs, 2);
    ConcatTo(cs, 3);
    ConcatTo(cs, 4);
    ConcatTo(cs, 5);
    ConcatTo(cs, 6);
    assert Concat(cs[..7]) == HeaderFront(p) by { assert cs[..0] == [] && [] + cs[0] == [0x45]; }
    ConcatTo(cs, 7);
    ConcatTo(cs, 8);
    ConcatTo(cs, 9);
    assert cs[..10] == cs;
  }

  lemma NothingConcat()
    ensures Concat([]) == []
  {
  }

  /** The puts of the header */
  method PutChunks(sb: Sbuf.Sbuf, chunks: seq<Bytes>)
    requires sb.Valid()
    modifies sb, sb.buf
    ensures sb.Valid() && sb.View() == PutAll(old(sb.View()), chunks) && (sb.buf == old(sb.buf) || fresh(sb.buf))
  {
    hide Put, CanPut;
    for i := 0 to |chunks|
      invariant sb.Valid() && (sb.buf == old(sb.buf) || fresh(sb.buf))
      invariant PutAll(sb.View(), chunks[i..]) == PutAll(old(sb.View()), chunks)
    {
      assert chunks[i..][1..] == chunks[i + 1..];
      var _ := sb.PutRaw(chunks[i]);
    }
  }

  /** A payload that makes the total length wrap does not fit, and growing for it wraps around as well. */
  lemma WrappedOverruns(o: Out, payload: Bytes)
    requires o.Valid() && !o.overrun && o.grow && o.cap <= MAXLEN && M - MINHDRLEN <= |payload| < M
    ensures Put(o, payload).overrun
  {
    hide RoundUp;
    RoundsToAll(|payload|);
    GrownCases(o.cap, |payload|);
  }

  lemma RoundsToAll(n: nat)
    requires M - MINHDRLEN <= n < M
    ensures RoundUp(n) == M
  {
  }

  /**
   naf_ipv4_output, once a route is known: the packet, unless its total length wraps around 16 bits,
   when the payload is written past the end of the buffer.
   */
  method Output(p: Packet, order: Order) returns (sb: Sbuf.Sbuf)
    requires |p.payload| < M
    ensures fresh(sb) && fresh(sb.buf)
    ensures sb.overrun <==> MINHDRLEN + |p.payload| >= M
    ensures !sb.overrun ==> sb.buf[..] == PacketBytes(p, order)
  {
    hide HostChecksum, HeaderWith, Put, PutAll, Concat;
    var totlen := (MINHDRLEN + |p.payload|) % M;
    sb := new Sbuf.Sbuf.New(totlen);
    ghost var o := sb.View();
    HeaderConcat(p);
    if MINHDRLEN + |p.payload| >= M {
      PutAllSmall(o, HeaderChunks(p));
      WrappedOverruns(PutAll(o, HeaderChunks(p)), p.payload);
    } else {
      PutAllWithRoom(o, HeaderChunks(p));
      PutWithRoom(PutAll(o, HeaderChunks(p)), p.payload);
    }
    PutChunks(sb, HeaderChunks(p));
    var n := sb.PutRaw(p.payload);
    if sb.overrun {
      return;
    }
    ghost var before := HeaderWith(p, 0) + p.payload;
    assert sb.buf[..] == sb.View().written == before;
    assert sb.buf[..MINHDRLEN] == before[..MINHDRLEN] == HeaderWith(p, 0);
    var sum := HdrCsum(sb.buf[..MINHDRLEN], order);
    PatchSum(sb, sum);
    PatchedHeader(p, sum);
  }

  lemma PatchedHeader(p: Packet, sum: u16)
    ensures var b := HeaderWith(p, 0) + p.payload; b[..10] + Be16(sum) + b[12..] == HeaderWith(p, sum) + p.payload
  {
    hide HeaderFront, Be16, Be32;
    var b := HeaderWith(p, 0) + p.payload;
    assert b[..10] == HeaderFront(p) && b[12..] == Be32(p.saddr) + Be32(p.daddr) + p.payload;
  }

  /** The checksum is filled in at its place. */
  method PatchSum(sb: Sbuf.Sbuf, sum: u16)
    requires sb.Valid() && !sb.overrun && sb.buf.Length >= MINHDRLEN
    modifies sb, sb.buf
    ensures sb.buf == old(sb.buf) && sb.buf[..] == old(sb.buf[..10]) + Be16(sum) + old(sb.buf[12..])
    ensures !sb.overrun
  {
    hide Put;
    ghost var b := sb.buf[..];
    sb.pos := 10;
    PutWithRoom(sb.View(), Be16(sum));
    var n := sb.Put16(sum);
    assert sb.buf[..] == sb.View().written + b[12..];
    sb.pos := 0;
  }

  // ---- Input

  /** A packet as a protocol handler gets it; the payload lies at `start`, `length` bytes. */
  datatype Received = Received(
    tos: byte, id: u16, dontfrag: bool, morefrag: bool, fragoff: nat,
    ttl: byte, proto: byte, saddr: u32, daddr: u32, options: set<byte>, start: nat, length: u16)

  /** The bytes with the checksum field zeroed, as getiphdr leaves them. */
  function Zeroed(b: Bytes): (z: Bytes)
    requires |b| >= MINHDRLEN
    ensures |z| == |b|
  {
    b[..10] + [0, 0] + b[12..]
  }

  /** naf_sbuf_advance within the header: all the way, or not at all */
  function Skip(r: Bytes, n: u16): (s: Bytes)
    ensures |s| <= |r|
  {
    if n <= |r| then r[n..] else r
  }

  /** Source routes, record route and timestamp carry their length. */
  predicate Sized(typ: byte) {
    typ == 7 || typ == 68 || typ == 131 || typ == 137
  }

  /** The types of the options flagged, up to an end of options or an unknown one. */
  function Options(r: Bytes): set<byte>
    decreases |r|
  {
    if r == [] || r[0] == 0 then {}
    else if r[0] == 1 then Options(r[1..])
    else if r[0] == 130 then {130} + Options(Skip(r[1..], 11))
    else if r[0] == 136 then {136} + Options(Skip(r[1..], 4))
    else if Sized(r[0]) then
      var (len, r2) := Take8(r[1..]);
      {r[0]} + Options(Skip(r2, (len - 2) % M))
    else {}
  }

  /** How far an option reaches behind its type, and whether it is flagged. */
  lemma OptionsTurn(r: Bytes)
    ensures r == [] || r[0] == 0 ==> Options(r) == {}
    ensures r != [] && r[0] == 1 ==> Options(r) == Options(r[1..])
    ensures r != [] && (r[0] == 130 || r[0] == 136) ==>
      Options(r) == {r[0]} + Options(Skip(r[1..], if r[0] == 130 then 11 else 4))
    ensures r != [] && (r[0] == 7 || r[0] == 68 || r[0] == 131 || r[0] == 137) ==>
      Options(r) == {r[0]} + Options(Skip(Take8(r[1..]).1, (Take8(r[1..]).0 - 2) % M))
    ensures r != [] && r[0] !in {0, 1, 7, 68, 130, 131, 136, 137} ==> Options(r) == {}
  {
  }

  /** An option that carries its length, or padding. */
  datatype Opt = Pad | Opt(typ: byte, data: Bytes)

  /** Section 3.1 of RFC 791: type, length of the whole option, data. */
  function OneOpt(o: Opt): Bytes
    requires o.Opt? ==> |o.data| <= 37
  {
    match o case Pad => [1] case Opt(typ, data) => [typ, |data| + 2] + data
  }

  function OptBytes(os: seq<Opt>): Bytes
    requires forall o <- os :: o.Opt? ==> |o.data| <= 37
  {
    if os == [] then [] else OneOpt(os[0]) + OptBytes(os[1..])
  }

  function OptTypes(os: seq<Opt>): set<byte> {
    if os == [] then {} else (if os[0].Opt? then {os[0].typ} else {}) + OptTypes(os[1..])
  }

  lemma SizedTurn(typ: byte, data: Bytes, rest: Bytes)
    requires |data| <= 37 && typ in {7, 68, 131, 137}
    ensures Options([typ, |data| + 2] + data + rest) == {typ} + Options(rest)
  {
    hide Options, Take8, Skip;
    var r := [typ, |data| + 2] + data + rest;
    var tail := [|data| + 2] + (data + rest);
    assert r == [typ] + tail;
    assert r[1..] == tail && r[0] == typ;
    OptionsTurn(r);
    SkipData(data, rest);
  }

  lemma SkipData(data: Bytes, rest: Bytes)
    requires |data| <= 37
    ensures var (len, r) := Take8([|data| + 2] + (data + rest)); Skip(r, (len - 2) % M) == rest
  {
    var tail := [|data| + 2] + (data + rest);
    assert tail[1..] == data + rest && (data + rest)[|data|..] == rest;
  }

  /** Such options are flagged, exactly those, up to the end of options. */
  lemma {:induction false} OptionsRead(os: seq<Opt>, tail: Bytes)
    requires forall o <- os :: o.Opt? ==> |o.data| <= 37 && o.typ in {7, 68, 131, 137}
    requires tail == [] || tail[0] == 0
    ensures Options(OptBytes(os) + tail) == OptTypes(os)
  {
    hide Options, Skip, Take8;
    if os == [] {
      assert OptBytes(os) + tail == tail;
      OptionsTurn(tail);
    } else {
      var more := OptBytes(os[1..]);
      assert OptBytes(os) + tail == OneOpt(os[0]) + (more + tail);
      OptionsRead(os[1..], tail);
      OptTurn(os[0], more + tail);
    }
  }

  lemma OptTurn(o: Opt, rest: Bytes)
    requires o.Opt? ==> |o.data| <= 37 && o.typ in {7, 68, 131, 137}
    ensures Options(OneOpt(o) + rest) == (if o.Opt? then {o.typ} else {}) + Options(rest)
  {
    hide Options, Skip, Take8;
    match o
    case Pad =>
      assert ([1] + rest)[1..] == rest;
      OptionsTurn([1] + rest);
    case Opt(typ, data) =>
      SizedTurn(typ, data, rest);
  }

  /** naf_ipv4__parseoptions */
  method ParseOptions(r: Bytes) returns (options: set<byte>)
    ensures options == Options(r)
  {
    hide Options;
    options := {};
    var rest := r;
    while rest != []
      invariant options + Options(rest) == Options(r)
      decreases |rest|
    {
      OptionsTurn(rest);
      var typ, tail := rest[0], rest[1..];
      if typ == 0 {
        return;
      } else if typ == 1 {
        rest := tail;
      } else if typ == 130 || typ == 136 {
        options, rest := options + {typ}, Skip(tail, if typ == 130 then 11 else 4);
      } else if Sized(typ) {
        var (len, r2) := Take8(tail);
        options, rest := options + {typ}, Skip(r2, (len - 2) % M);
      } else {
        return;
      }
    }
    OptionsTurn([]);
  }

  /** What naf_ipv4_input passes on, if anything. */
  function Accept(b: Bytes, order: Order): Option<Received> {
    if |b| < MINHDRLEN then None else
    var hdrlen := b[0] % 16 * 4;
    var len := Num16(b[2..]);
    var off := Num16(b[6..]);
    if hdrlen > |b| || len > |b| || b[0] / 16 != 4 || b[8] == 0
       || HostChecksum(Zeroed(b)[..hdrlen], order) != Num16(b[10..])
    then None
    else Some(Received(b[1], Num16(b[4..]), off / DONTFRAG % 2 == 1, off / MOREFRAG % 2 == 1, off % MOREFRAG,
                       b[8], b[9], Num32(b[12..]), Num32(b[16..]),
                       if hdrlen <= MINHDRLEN then {} else Options(b[MINHDRLEN..hdrlen]), hdrlen, (len - hdrlen) % M))
  }

  /** The fields of an accepted packet, and the payload, are where section 3.1 of RFC 791 puts them. */
  lemma AcceptedFields(b: Bytes, order: Order)
    requires Accept(b, order).Some?
    ensures var r := Accept(b, order).value;
            && 20 <= |b| && b[0] / 16 == 4 && b[8] != 0 && r.start == b[0] % 16 * 4 <= |b|
            && BigEndian(b[2..4]) <= |b| && r.length == (BigEndian(b[2..4]) - r.start) % 0x1_0000
            && r.tos == b[1] && r.id == BigEndian(b[4..6])
            && BigEndian(b[6..8]) % 0x8000 ==
               (if r.dontfrag then 0x4000 else 0) + (if r.morefrag then 0x2000 else 0) + r.fragoff
            && r.fragoff < 0x2000 && r.ttl == b[8] && r.proto == b[9]
            && r.saddr == BigEndian(b[12..16]) && r.daddr == BigEndian(b[16..20])
  {
    hide HostChecksum, Options, BigEndian;
    BigEndian2(b[2..4]);
    BigEndian2(b[4..6]);
    BigEndian2(b[6..8]);
    BigEndian4(b[12..16]);
    BigEndian4(b[16..20]);
  }

  /** naf_ipv4_input up to the protocol handler */
  method Input(buf: array<byte>, order: Order) returns (r: Option<Received>)
    requires buf.Length < M
    modifies buf
    ensures r == Accept(old(buf[..]), order)
    ensures buf.Length >= MINHDRLEN ==> buf[..] == Zeroed(old(buf[..]))
  {
    if buf.Length < MINHDRLEN {
      return None;
    }
    hide HostChecksum, Num32, Options;
    ghost var b := buf[..];
    var hdrlen := buf[0] % 16 * 4;
    var len := Load16(buf, 2);
    var id := Load16(buf, 4);
    var off := Load16(buf, 6);
    var sum := Load16(buf, 10);
    var saddr := Load32(buf, 12);
    var daddr := Load32(buf, 16);
    buf[10], buf[11] := 0, 0;
    assert buf[..] == Zeroed(b);
    if hdrlen > buf.Length || len > buf.Length || buf[0] / 16 != 4 || buf[8] == 0 {
      return None;
    }
    var c := HdrCsum(buf[..hdrlen], order);
    assert buf[..hdrlen] == Zeroed(b)[..hdrlen];
    if c != sum {
      return None;
    }
    var options := {};
    if hdrlen > MINHDRLEN {
      assert buf[MINHDRLEN..hdrlen] == b[MINHDRLEN..hdrlen];
      options := ParseOptions(buf[MINHDRLEN..hdrlen]);
    }
    return Some(Received(buf[1], id, off / DONTFRAG % 2 == 1, off / MOREFRAG % 2 == 1, off % MOREFRAG,
                         buf[8], buf[9], saddr, daddr, options, hdrlen, (len - hdrlen) % M));
  }

  method Load16(buf: array<byte>, at: nat) returns (v: u16)
    requires at + 2 <= buf.Length
    ensures v == Num16(buf[..][at..])
  {
    v := buf[at] as int * 0x100 + buf[at + 1];
  }

  method Load32(buf: array<byte>, at: nat) returns (v: u32)
    requires at + 4 <= buf.Length
    ensures v == Num32(buf[..][at..])
  {
    var hi := Load16(buf, at);
    var lo := Load16(buf, at + 2);
    assert buf[..][at..][2..] == buf[..][at + 2..];
    v := hi as int * 0x1_0000 + lo;
  }

  // ---- What is sent is accepted

  /** The sixteen-bit fields of a header, at their offsets. */
  lemma Fields16(p: Packet, sum: u16, tail: Bytes)
    requires |p.payload| + MINHDRLEN < M
    ensures var b := HeaderWith(p, sum) + tail;
            && Num16(b[2..]) == MINHDRLEN + |p.payload| && Num16(b[4..]) == p.id
            && Num16(b[6..]) == (if p.dontfrag then DONTFRAG else 0) && Num16(b[10..]) == sum
  {
    hide Be16, Be32, Num16;
    var h := HeaderWith(p, sum);
    NumAt(h, tail, 2, MINHDRLEN + |p.payload|);
    NumAt(h, tail, 4, p.id);
    NumAt(h, tail, 6, if p.dontfrag then DONTFRAG else 0);
    NumAt(h, tail, 10, sum);
  }

  lemma NumAt(h: Bytes, tail: Bytes, at: nat, v: u16)
    requires at + 2 <= |h| && h[at..at + 2] == Be16(v)
    ensures Num16((h + tail)[at..]) == v
  {
    assert (h + tail)[at..][..2] == Be16(v);
  }

  lemma Fields32(p: Packet, sum: u16, tail: Bytes)
    requires |p.payload| + MINHDRLEN < M
    ensures var b := HeaderWith(p, sum) + tail;
            Num32(b[12..]) == p.saddr && Num32(b[16..]) == p.daddr
  {
    hide Num32, Be32, HeaderFront;
    var b := HeaderWith(p, sum) + tail;
    assert b[12..] == Be32(p.saddr) + (Be32(p.daddr) + tail);
    assert b[16..] == Be32(p.daddr) + tail;
    Take32Be(p.saddr, Be32(p.daddr) + tail);
    Take32Be(p.daddr, tail);
  }

  /**
   Every packet built by output with a TTL other than zero is accepted by input on a host of
   the same byte order, with all its fields and its payload unchanged.  This holds also for
   headers whose checksum needs two folds, since both sides compute it alike.
   */
  lemma InputAcceptsOutput(p: Packet, order: Order)
    requires |p.payload| + MINHDRLEN < M && p.ttl != 0
    ensures var b := PacketBytes(p, order);
            Accept(b, order) == Some(Received(
              p.tos, p.id, p.dontfrag, false, 0, p.ttl, p.proto, p.saddr, p.daddr, {}, MINHDRLEN, |p.payload|))
            && b[MINHDRLEN..] == p.payload
  {
    hide HostChecksum, Num16, Num32;
    var sum := HostChecksum(HeaderWith(p, 0), order);
    var b := PacketBytes(p, order);
    Fields16(p, sum, p.payload);
    Fields32(p, sum, p.payload);
    assert Zeroed(b)[..MINHDRLEN] == HeaderWith(p, 0);
  }

  /** Version, lengths and time to live are acceptable. */
  predicate Plausible(b: Bytes) {
    && MINHDRLEN <= |b| < M
    && b[0] / 16 == 4 && b[0] % 16 * 4 <= |b| && Num16(b[2..]) <= |b| && b[8] != 0
  }

  /** The header as checksummed, with options. */
  function Summed(b: Bytes): Bytes
    requires Plausible(b)
  {
    Zeroed(b)[..b[0] % 16 * 4]
  }

  /**
   Any packet, with or without options, that carries the correct Internet checksum is accepted
   exactly when one carry fold is enough for its header.
   */
  lemma InputAcceptsCorrectIff(b: Bytes, order: Order)
    requires Plausible(b) && Num16(b[10..]) == InternetChecksum(Summed(b))
    ensures Accept(b, order).Some? <==> FoldsOnce(WordSum(Summed(b), order))
  {
    hide HostChecksum, Num16, InternetChecksum, FoldsOnce, WordSum, Options;
    ChecksumCorrectIff(Summed(b), order);
  }

  /** A packet with a correct checksum that is refused. */
  lemma CorrectRefused(order: Order)
    ensures var z := TwoFolds(order);
            var b := z[..10] + Be16(InternetChecksum(z)) + z[12..];
            Plausible(b) && Num16(b[10..]) == InternetChecksum(Summed(b)) && Accept(b, order).None?
  {
    hide WordSum, HostChecksum, InternetChecksum;
    var z := TwoFolds(order);
    var b := z[..10] + Be16(InternetChecksum(z)) + z[12..];
    assert z[0] == 0x45 && z[2] == 0 && z[3] == 20 && z[8] == 1;
    assert b[2..][..2] == [z[2], z[3]];
    assert b[10..][..2] == Be16(InternetChecksum(z));
    assert Zeroed(b)[..20] == z;
    ChecksumOffByOne(order);
    InputAcceptsCorrectIff(b, order);
  }

  /** The payload of an accepted packet lies inside the buffer exactly when its total length covers the header. */
  lemma PayloadInsideIff(b: Bytes, order: Order)
    requires |b| < M && Accept(b, order).Some?
    ensures var r := Accept(b, order).value;
            && |b| >= MINHDRLEN && r.start == b[0] % 16 * 4
            && (r.start + r.length <= |b| <==> r.start <= Num16(b[2..]))
            && (r.start <= Num16(b[2..]) ==> r.start + r.length == Num16(b[2..]))
  {
    hide HostChecksum, Options, Num32;
  }

  /** A header of 20 bytes that claims a total length of none, with the checksum the host computes. */
  function ShortTotal(order: Order): Bytes {
    var z: Bytes := [0x45, 0, 0, 0, 0, 0, 0, 0, 1, 0, 0, 0, 0, 0, 0, 0, 0, 0, 0, 0];
    z[..10] + Be16(HostChecksum(z, order)) + z[12..]
  }

  /** It is accepted, with a payload of 65516 bytes. */
  lemma ShortTotalAccepted(order: Order)
    ensures |ShortTotal(order)| == 20 && Accept(ShortTotal(order), order).Some?
    ensures var r := Accept(ShortTotal(order), order).value; r.start == 20 && r.length == 65516
  {
    hide HostChecksum, Options, Num32;
    var z: Bytes := [0x45, 0, 0, 0, 0, 0, 0, 0, 1, 0, 0, 0, 0, 0, 0, 0, 0, 0, 0, 0];
    var b := ShortTotal(order);
    assert b[10..][..2] == Be16(HostChecksum(z, order));
    assert Zeroed(b) == z && z[..20] == z;
  }
}
