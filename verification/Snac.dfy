/** SNAC headers and user-info blocks (timps/oscar/snac.c). */
module Snac {
  import opened Basics
  import opened Wire
  import opened Tlv
  import opened Flap
  import Sbuf

  // ---- User info

  datatype UserInfo = UserInfo(sn: Bytes, evil: u16, tlvs: seq<Tlv>)

  /** touserinfo_extract, on what is left to read */
  function Extract(r: Bytes): (Option<UserInfo>, Bytes) {
    var (n, r1) := Take8(r);
    if |r1| < n then (None, r1) else
    var (evil, r3) := Take16(r1[n..]);
    var (count, r4) := Take16(r3);
    var (tlvs, end) := ParseUpTo(r4, count);
    (Some(UserInfo(CStr(r1[..n]), evil, tlvs)), end)
  }

  /** touserinfo_extract */
  method ExtractFrom(sb: Sbuf.Sbuf) returns (u: Option<UserInfo>)
    requires sb.Valid()
    modifies sb`pos
    ensures sb.Valid() && u == Extract(old(sb.Rest())).0 && sb.Rest() == Extract(old(sb.Rest())).1
  {
    hide ParseUpTo, ParseLoop, Num16, CStr;
    var n := sb.Get8();
    var sn := sb.GetRaw(n);
    if sn.None? {
      return None;
    }
    var evil := sb.Get16();
    var count := sb.Get16();
    ParseLimited(sb.Rest(), count, count);
    var tlvs := ParseFrom(sb, count, count);
    return Some(UserInfo(CStr(sn.value), evil, tlvs));
  }

  /** What touserinfo_render leaves behind; name length and count are truncated to their fields. */
  function RenderUser(o: Out, u: UserInfo): (o': Out)
    requires o.Valid() && AllFit(u.tlvs)
  {
    var o1 := Put(Put(o, [|u.sn| % 0x100]), u.sn);
    Render(Put(Put(o1, Be16(u.evil)), Be16(|u.tlvs| % 0x1_0000)), u.tlvs)
  }

  /** touserinfo_render */
  method RenderUserTo(u: UserInfo, sb: Sbuf.Sbuf)
    requires sb.Valid() && AllFit(u.tlvs)
    modifies sb, sb.buf
    ensures sb.Valid() && sb.View() == RenderUser(old(sb.View()), u)
  {
    hide CanPut, Grow, Render, Put;
    var n := sb.Put8(|u.sn| % 0x100);
    n := sb.PutRaw(u.sn);
    n := sb.Put16(u.evil);
    n := sb.Put16(|u.tlvs| % 0x1_0000);
    n := RenderTo(u.tlvs, sb);
  }

  /** The name, the count and each TLV fit their fields. */
  predicate UserFits(u: UserInfo) {
    NulFree(u.sn) && |u.sn| < 0x100 && |u.tlvs| < 0x1_0000 && AllFit(u.tlvs)
  }

  function UserBytes(u: UserInfo): Bytes
    requires UserFits(u)
  {
    [|u.sn|] + u.sn + Be16(u.evil) + Be16(|u.tlvs|) + Encode(u.tlvs)
  }

  /** Length and bytes of the name, warning level, number of TLVs, and the TLVs. */
  lemma UserLayout(u: UserInfo)
    requires UserFits(u)
    ensures var (b, n) := (UserBytes(u), 1 + |u.sn|);
            && |b| >= n + 4 && b[0] == |u.sn| && b[1..n] == u.sn
            && BigEndian(b[n..n + 2]) == u.evil && BigEndian(b[n + 2..n + 4]) == |u.tlvs|
            && b[n + 4..] == Encode(u.tlvs)
  {
    var (b, n) := (UserBytes(u), 1 + |u.sn|);
    assert b[n..n + 2] == Be16(u.evil) && b[n + 2..n + 4] == Be16(|u.tlvs|);
    NetworkOrder(u.evil, 0);
    NetworkOrder(|u.tlvs|, 0);
  }

  /** With room up front, exactly the block is written. */
  lemma RenderUserComplete(o: Out, u: UserInfo)
    requires o.Valid() && !o.overrun && UserFits(u) && |UserBytes(u)| <= o.Room()
    ensures RenderUser(o, u) == o.(written := o.written + UserBytes(u))
  {
    hide Put, Encode, Render, Be16;
    var (name, counts) := ([|u.sn|] + u.sn, Be16(u.evil) + Be16(|u.tlvs|));
    assert UserBytes(u) == name + counts + Encode(u.tlvs);
    PutPair(o, [|u.sn|], u.sn);
    var o2 := Put(Put(o, [|u.sn|]), u.sn);
    assert o2 == o.(written := o.written + name);
    PutPair(o2, Be16(u.evil), Be16(|u.tlvs|));
    var o4 := o2.(written := o2.written + counts);
    RenderComplete(o4, u.tlvs);
    assert o.written + name + counts + Encode(u.tlvs) == o.written + (name + counts + Encode(u.tlvs));
  }

  /** The block is extracted to what was rendered, whatever bytes follow it. */
  lemma ExtractInvertsRender(u: UserInfo, rest: Bytes)
    requires UserFits(u)
    ensures Extract(UserBytes(u) + rest) == (Some(u), rest)
  {
    hide ParseUpTo, Encode, Take16, CStr;
    var r4 := Encode(u.tlvs) + rest;
    var r3 := Be16(|u.tlvs|) + r4;
    var r2 := Be16(u.evil) + r3;
    var r1 := u.sn + r2;
    assert UserBytes(u) + rest == [|u.sn|] + r1;
    assert ([|u.sn|] + r1)[1..] == r1 && r1[..|u.sn|] == u.sn && r1[|u.sn|..] == r2;
    Take16Be(u.evil, r3);
    Take16Be(|u.tlvs|, r4);
    ParseEncoded(u.tlvs, rest);
    CStrPrefix(u.sn);
  }

  // ---- Lists that came in a FLAP frame

  /** The TLVs found in part of the payload of a FLAP frame. */
  predicate FromFrame(r: Bytes, ts: seq<Tlv>) {
    |r| <= MAXSNACLEN && Ends(r) && Parse(r).0 == ts
  }

  lemma {:induction false} ValuesInside(ts: seq<Tlv>, t: Tlv)
    requires AllFit(ts) && t in ts
    ensures |t.value| + 4 <= |Encode(ts)|
  {
    EncodeTurn(ts);
    if t != ts[0] {
      ValuesInside(ts[1..], t);
    }
  }

  lemma FrameBounds(r: Bytes, ts: seq<Tlv>)
    requires FromFrame(r, ts)
    ensures AllFit(ts) && |Encode(ts)| <= MAXSNACLEN + 2
    ensures forall t <- ts :: |t.value| <= MAXSNACLEN
  {
    hide Encode, ParseUpTo, EndsWithin, Ends;
    EndsBound(r);
    ParsedSize(r, |r|);
    forall t <- ts ensures |t.value| <= MAXSNACLEN {
      ValuesInside(ts, t);
    }
  }

  // ---- SNAC headers

  /** The FLAP header as first put, with sequence number and length still to be stamped. */
  function FlapStub(chan: byte): Bytes {
    [MAGIC, chan] + Be16(0) + Be16(4)
  }

  function SnacHeader(group: u16, subtype: u16, flags: u16, id: u32): (s: Bytes)
    ensures |s| == 10
  {
    Be16(group) + Be16(subtype) + Be16(flags) + Be32(id)
  }

  /** Which bytes hold family, subtype, flags and id. */
  lemma HeaderBytes(group: u16, subtype: u16, flags: u16, id: u32)
    ensures var w := FlapStub(2) + SnacHeader(group, subtype, flags, id);
            && |w| == 16 && w[..6] == [42, 2, 0, 0, 0, 4]
            && BigEndian(w[6..8]) == group && BigEndian(w[8..10]) == subtype && BigEndian(w[10..12]) == flags
            && BigEndian(w[12..16]) == id
  {
    var w := FlapStub(2) + SnacHeader(group, subtype, flags, id);
    assert w[6..8] == Be16(group) && w[8..10] == Be16(subtype) && w[10..12] == Be16(flags) && w[12..16] == Be32(id);
    NetworkOrder(group, id);
    NetworkOrder(subtype, id);
    NetworkOrder(flags, id);
  }

  /** toscar_newsnacsb */
  method NewSnac(group: u16, subtype: u16, flags: u16, id: u32) returns (sb: Sbuf.Sbuf)
    ensures fresh(sb) && sb.Valid() && fresh(sb.buf)
    ensures sb.View() == Out(FlapStub(2) + SnacHeader(group, subtype, flags, id), 512, true, false)
    ensures var w := sb.View().written;
            && |w| == 16 && w[..6] == [42, 2, 0, 0, 0, 4]
            && BigEndian(w[6..8]) == group && BigEndian(w[8..10]) == subtype && BigEndian(w[10..12]) == flags
            && BigEndian(w[12..16]) == id
  {
    HeaderBytes(group, subtype, flags, id);
    hide Put, BigEndian;
    sb := new Sbuf.Sbuf.New(0);
    PutWithRoom(sb.View(), FlapStub(2));
    var n := sb.PutRaw(FlapStub(2));
    PutWithRoom(sb.View(), SnacHeader(group, subtype, flags, id));
    n := sb.PutRaw(SnacHeader(group, subtype, flags, id));
    assert [] + FlapStub(2) == FlapStub(2);
  }
}
