/** The routines of timps/oscar/im.c that build and take apart message blocks. */
module IcbmText {
  import opened Basics
  import opened Wire
  import opened Tlv
  import opened Icbm
  import opened IcbmRead
  import opened Relay
  import Sbuf

  /** A growing C string with a pointer to its terminator. */
  class Str {
    var s: array?<byte>
    var e: nat

    ghost predicate Valid()
      reads this, s
    {
      s != null ==> e < s.Length && s[e] == 0
    }

    ghost function Text(): Option<Bytes>
      requires Valid()
      reads this, s
    {
      if s == null then None else Some(s[..e])
    }

    constructor ()
      ensures Valid() && s == null
    {
      s, e := null, 0;
    }

    /** extendstr: room for `n` more characters and the terminator, uninitialised */
    method Extend(n: nat, left: nat, junk: Junk)
      requires Valid()
      modifies this
      ensures Valid() && s != null && fresh(s) && s.Length == e + n + 1
      ensures e == |Sofar(old(Text()))| && s[..e] == Sofar(old(Text()))
      ensures forall i | e < i < s.Length :: s[i] == junk(left, i)
    {
      if s == null {
        s := new byte[n + 1]((i: nat) => junk(left, i));
        s[0], e := 0, 0;
        return;
      }
      var ns := new byte[e + n + 1]((i: nat) => junk(left, i));
      forall i | 0 <= i <= e {
        ns[i] := s[i];
      }
      assert ns[..e] == s[..e];
      s := ns;
    }

    /** An ASCII or ISO-8859-1 section of `n` bytes */
    method Copy(sb: Sbuf.Sbuf, n: u16, junk: Junk)
      requires Valid() && sb.Valid()
      modifies this, sb`pos
      ensures Valid() && sb.Valid() && (s == old(s) || fresh(s))
      ensures var b := Body(old(sb.Rest()), 0, n, |Sofar(old(Text()))|, junk);
              Text() == Some(Sofar(old(Text())) + b.text) && sb.Rest() == b.rest
    {
      hide Translate, Body, Uncopied;
      ghost var base := Sofar(Text());
      ghost var r := sb.Rest();
      BodyCopied(r, n, |base|, junk);
      Extend(n, sb.buf.Length - sb.pos, junk);
      var raw := sb.GetRaw(n);
      if raw.Some? {
        Place(raw.value);
      } else {
        UncopiedIs(s[..], base, junk, |r|, n);
        assert s[..e + n] == s[..][..e + n];
      }
      Finish(n);
    }

    /** memcpy behind the text */
    method Place(raw: Bytes)
      requires s != null && e + |raw| < s.Length
      modifies s
      ensures s[..e + |raw|] == old(s[..e]) + raw
    {
      forall i | 0 <= i < |raw| {
        s[e + i] := raw[i];
      }
    }

    /** `n` more characters are part of the text. */
    method Finish(n: nat)
      requires s != null && e + n < s.Length
      modifies this`e, s
      ensures Valid() && s != null && e == old(e) + n && s[..e] == old(s[..e + n])
    {
      e := e + n;
      s[e] := 0;
    }

    /** The second pass over `n` bytes of 16-bit characters: fills exactly the room made for them. */
    method Write(sb: Sbuf.Sbuf, n: u16)
      requires sb.Valid() && n % 2 == 0 && n <= |sb.Rest()|
      requires s != null && s != sb.buf && s.Length == e + |Translate(sb.Rest()[..n])| + 1
      modifies this`e, s, sb`pos
      ensures Valid() && sb.Valid() && s != null
      ensures s[..e] == old(s[..e]) + Translate(old(sb.Rest())[..n])
      ensures sb.Rest() == old(sb.Rest())[n..]
    {
      hide Glyph, Num16, Translate;
      ghost var base := s[..e];
      ghost var all := sb.Rest()[..n];
      assert all[0..] == all;
      var i := 0;
      while i < n
        invariant 0 <= i <= n && i % 2 == 0 && sb.Valid() && sb.pos == old(sb.pos) + i
        invariant e + |Translate(all[i..])| + 1 == s.Length
        invariant s[..e] + Translate(all[i..]) == base + Translate(all)
      {
        TranslateFrom(all, i, sb.Rest());
        assert |sb.Rest()| >= 2;
        var c := sb.Get16();
        ghost var done := s[..e];
        var g := Glyph(c);
        forall k | 0 <= k < |g| {
          s[e + k] := g[k];
        }
        e := e + |g|;
        assert s[..e] == done + g;
        assert done + g + Translate(all[i + 2..]) == done + (g + Translate(all[i + 2..]));
        i := i + 2;
      }
      NothingTranslated(all[n..]);
      s[e] := 0;
    }

    /** A section of `n` bytes of 16-bit characters: counted first, then written */
    method Convert(sb: Sbuf.Sbuf, n: u16, junk: Junk)
      requires Valid() && sb.Valid() && n % 2 == 0 && n <= |sb.Rest()|
      modifies this, sb`pos
      ensures Valid() && sb.Valid() && (s == old(s) || fresh(s))
      ensures Text() == Some(Sofar(old(Text())) + Translate(old(sb.Rest())[..n]))
      ensures sb.Rest() == old(sb.Rest())[n..]
    {
      hide Translate;
      var count := CountChars(sb, n);
      Extend(count, sb.buf.Length - sb.pos, junk);
      Write(sb, n);
    }
  }

  /** The first pass over `n` bytes of 16-bit characters */
  method CountChars(sb: Sbuf.Sbuf, n: u16) returns (count: nat)
    requires sb.Valid() && n % 2 == 0 && n <= |sb.Rest()|
    modifies sb`pos
    ensures sb.pos == old(sb.pos) && count == |Translate(sb.Rest()[..n])|
  {
    hide Glyph, Num16, Translate;
    ghost var all := sb.Rest()[..n];
    assert all[0..] == all;
    var start, i := sb.pos, 0;
    count := 0;
    while i < n
      invariant 0 <= i <= n && i % 2 == 0 && sb.Valid() && sb.pos == start + i
      invariant count + |Translate(all[i..])| == |Translate(all)|
    {
      TranslateFrom(all, i, sb.Rest());
      var c := sb.Get16();
      GlyphLength(c);
      count := count + if c < 128 then 1 else 7;
      i := i + 2;
    }
    NothingTranslated(all[n..]);
    sb.pos := start;
  }

  lemma BodyCopied(r: Bytes, n: nat, offset: nat, junk: Junk)
    ensures Body(r, 0, n, offset, junk) ==
            if n <= |r| then Shown(r[..n], r[n..]) else Shown(Uncopied(junk, |r|, offset, n), r)
  {
  }

  lemma UncopiedIs(s: Bytes, base: Bytes, junk: Junk, left: nat, n: nat)
    requires |s| == |base| + n + 1 && s[..|base|] == base && s[|base|] == 0
    requires forall i | |base| < i < |s| :: s[i] == junk(left, i)
    ensures s[..|base| + n] == base + Uncopied(junk, left, |base|, n)
  {
    var u := Uncopied(junk, left, |base|, n);
    forall i | 0 <= i < n ensures s[|base| + i] == u[i] {
    }
    assert s[..|base| + n] == s[..|base|] + s[|base|..|base| + n];
  }

  lemma TranslateFrom(all: Bytes, i: nat, r: Bytes)
    requires |all| % 2 == 0 && i % 2 == 0 && i + 2 <= |all| && all[i..] <= r
    ensures |all[i..]| % 2 == 0 && |all[i + 2..]| % 2 == 0
    ensures Translate(all[i..]) == Glyph(Num16(r)) + Translate(all[i + 2..])
  {
    hide Glyph;
    assert all[i..][2..] == all[i + 2..];
    assert all[i..][0] == r[0] && all[i..][1] == r[1];
  }

  lemma NothingTranslated(s: Bytes)
    requires s == []
    ensures Translate(s) == []
  {
  }

  lemma GlyphLength(c: u16)
    ensures |Glyph(c)| == if c < 128 then 1 else 7
  {
  }

  /** A section body of `n` bytes in encoding `f1`; `u` counts sections that cannot be shown. */
  method ReadBody(sb: Sbuf.Sbuf, str: Str, u: nat, f1: u16, n: u16, junk: Junk) returns (ok: bool, u': nat)
    requires sb.Valid() && !sb.grow && str.Valid() && str.s != sb.buf
    modifies sb`pos, str
    ensures sb.Valid() && str.Valid() && (str.s == old(str.s) || fresh(str.s))
    ensures var b := Body(old(sb.Rest()), f1, n, |Sofar(old(str.Text()))|, junk);
            && ok == !b.Bad?
            && (ok ==> sb.Rest() == b.rest)
            && (b.Unshown? ==> u' == u + 1 && str.Text() == old(str.Text()))
            && (b.Shown? ==> u' == u && str.Text() == Some(Sofar(old(str.Text())) + b.text))
  {
    hide Body, Translate;
    u', ok := u, true;
    BodyCases(sb.Rest(), f1, n, |Sofar(str.Text())|, junk);
    if f1 == 0 || f1 == 3 {
      str.Copy(sb, n, junk);
    } else if f1 == 2 && n % 2 == 0 {
      if sb.Remaining() < n {
        return false, u;
      }
      str.Convert(sb, n, junk);
    } else {
      u' := u + 1;
      var _ := sb.Skip(n);
    }
  }

  /** One turn of the loop of toscar_icbm__extractmsgtext */
  method ReadSection(sb: Sbuf.Sbuf, str: Str, u: nat, junk: Junk) returns (ok: bool, u': nat)
    requires sb.Valid() && !sb.grow && sb.Rest() != [] && str.Valid() && str.s != sb.buf
    modifies sb`pos, str
    ensures sb.Valid() && str.Valid() && (str.s == old(str.s) || fresh(str.s))
    ensures !ok ==> Sections(old(sb.Rest()), old(str.Text()), u, junk) == Failed
    ensures ok ==>
      && Sections(old(sb.Rest()), old(str.Text()), u, junk) == Sections(sb.Rest(), str.Text(), u', junk)
      && |sb.Rest()| < |old(sb.Rest())|
  {
    hide Num16, Body, Sections;
    SectionsTurn(sb.Rest(), str.Text(), u, junk);
    u' := u;
    var b := sb.Get8();
    if b != 1 {
      return false, u;
    }
    b := sb.Get8();
    if b != 1 {
      return false, u;
    }
    var plen := sb.Get16();
    if plen < 4 {
      return true, u;
    }
    var f1 := sb.Get16();
    var f2 := sb.Get16();
    ok, u' := ReadBody(sb, str, u, f1, plen - 4, junk);
  }

  /** The routine on a value that is there; the text reads as the characters of the sections, where all can be shown. */
  method ExtractValue(value: Bytes, junk: Junk) returns (x: Extracted)
    requires |value| < 0x1_0000
    ensures x == Extract(value, junk)
    ensures forall features: Bytes, ps: seq<Part> | MadeOf(value, features, ps) :: Legible(features, ps, x)
  {
    x := ExtractSections(value, junk);
    forall features: Bytes, ps: seq<Part> | MadeOf(value, features, ps) ensures Legible(features, ps, x) {
      MessageRead(features, ps, junk);
    }
  }

  /** The value is made of these features and sections, all of which can be shown. */
  ghost predicate MadeOf(value: Bytes, features: Bytes, ps: seq<Part>) {
    |features| < 0x1_0000 && (forall p <- ps :: PartFits(p) && Shows(p)) && value == ValueOf(features, ps)
  }

  method ExtractSections(value: Bytes, junk: Junk) returns (x: Extracted)
    requires |value| < 0x1_0000
    ensures x == Extract(value, junk)
  {
    hide Num16, Sections;
    var buf := new byte[|value|](i requires 0 <= i < |value| => value[i]);
    var sb := new Sbuf.Sbuf.Wrap(buf);
    assert sb.Rest() == value;
    var b := sb.Get8();
    if b != 5 {
      return Failed;
    }
    b := sb.Get8();
    if b != 1 {
      return Failed;
    }
    var featlen := sb.Get16();
    var _ := sb.Skip(featlen);
    var str := new Str();
    var u := 0;
    while sb.Remaining() > 0
      invariant sb.Valid() && !sb.grow && sb.buf == buf && str.Valid() && str.s != buf
      invariant Sections(sb.Rest(), str.Text(), u, junk) == Extract(value, junk)
      decreases |sb.Rest()|
    {
      var ok, u' := ReadSection(sb, str, u, junk);
      if !ok {
        return Failed;
      }
      u := u';
    }
    SectionsTurn(sb.Rest(), str.Text(), u, junk);
    x := Got(if str.s == null then None else Some(str.s[..str.e]), u);
  }

  /**
   toscar_icbm__extractmsgtext; without a value the loop reads a buffer of uninitialised memory,
   and is followed for at most `turns` turns
   */
  method ExtractMsgText(value: Bytes, heap: Heap, junk: Junk, turns: nat) returns (r: Outcome)
    requires |value| < 0x1_0000
    ensures r == Result(value, heap, junk, turns)
  {
    hide Turned, Extract, Advance;
    if value != [] {
      var x := ExtractValue(value, junk);
      return Ended(x);
    }
    if heap(0) != 5 || heap(1) != 1 {
      return Ended(Failed);
    }
    r := Advance(Cell(4, Sbuf.DEFAULT_LEN, None, 0), heap(2) as int * 0x100 + heap(3));
    var left := turns;
    while r.Running? && left > 0
      invariant Result(value, heap, junk, turns) == if r.Running? then Turns(heap, junk, r.cell, left) else r
    {
      r, left := Turned(heap, junk, r.cell), left - 1;
    }
  }

  lemma SectionsTurn(r: Bytes, text: Option<Bytes>, u: nat, junk: Junk)
    ensures r == [] ==> Sections(r, text, u, junk) == Got(text, u)
    ensures r != [] && (|r| < 2 || r[0] != 1 || r[1] != 1) ==> Sections(r, text, u, junk) == Failed
    ensures |r| >= 2 && r[0] == 1 && r[1] == 1 ==>
      var (plen, r1) := Take16(r[2..]);
      var (f1, r2) := Take16(r1);
      var (_, r3) := Take16(r2);
      Sections(r, text, u, junk) ==
        if plen < 4 then Sections(r1, text, u, junk) else
        match Body(r3, f1, plen - 4, |Sofar(text)|, junk)
        case Bad => Failed
        case Unshown(rest) => Sections(rest, text, u + 1, junk)
        case Shown(s, rest) => Sections(rest, Some(Sofar(text) + s), u, junk)
  {
  }

  lemma BodyCases(r: Bytes, f1: u16, n: nat, offset: nat, junk: Junk)
    ensures f1 == 0 || f1 == 3 ==>
      Body(r, f1, n, offset, junk) == Body(r, 0, n, offset, junk) && Body(r, 0, n, offset, junk).Shown?
    ensures f1 == 2 && n % 2 == 0 ==>
      Body(r, f1, n, offset, junk) == if |r| < n then Bad else Shown(Translate(r[..n]), r[n..])
    ensures f1 != 0 && f1 != 3 && !(f1 == 2 && n % 2 == 0) ==>
      Body(r, f1, n, offset, junk) == Unshown(if n <= |r| then r[n..] else r)
  {
  }

  /** A run of naf_sbuf_put8 */
  method PutBytes(sb: Sbuf.Sbuf, s: Bytes)
    requires sb.Valid() && !sb.grow
    modifies sb, sb.buf
    ensures sb.Valid() && sb.buf == old(sb.buf) && sb.View() == PutEach(old(sb.View()), s)
  {
    hide Put;
    var i := 0;
    while i < |s|
      invariant 0 <= i <= |s| && sb.Valid() && sb.buf == old(sb.buf)
      invariant PutEach(sb.View(), s[i..]) == PutEach(old(sb.View()), s)
    {
      assert s[i..][..1] == [s[i]] && s[i..][1..] == s[i + 1..];
      var _ := sb.Put8(s[i]);
      i := i + 1;
    }
  }

  /** _naf_tlv_addoscarmsgblock: on a text too long for a block, the headers that fit the cut length */
  method AddMsgBlock(ts: seq<Tlv>, typ: u16, text: Bytes) returns (r: seq<Tlv>)
    ensures r == ts + [Tlv(typ, BlockValue(text))]
    ensures |text| <= MAXTEXT ==> r == ts + [Tlv(typ, Block(text))]
    ensures |text| > MAXTEXT ==> |r[|ts|].value| <= 16
  {
    hide Put, PutEach, Block;
    BlockValueIs(text);
    var buf := new byte[(16 + |text|) % W16];
    var sb := new Sbuf.Sbuf.Wrap(buf);
    assert sb.View() == Out([], (16 + |text|) % W16, false, false);
    PutBytes(sb, HEADER[..2]);
    var n := sb.Put16(4);
    PutBytes(sb, [1, 1, 1, 2, 1, 1]);
    n := sb.Put16((|text| + 4) % W16);
    n := sb.Put16(0);
    n := sb.Put16(0);
    n := sb.PutRaw(text);
    r := ts + [Tlv(typ, sb.buf[..sb.pos])];
  }

  /** toscar_icbm__renderchan1 */
  method RenderChan1To(m: Msg, sb: Sbuf.Sbuf)
    requires sb.Valid() && AllFit(m.extra) && (m.original.Some? ==> Fits(m.original.value))
    modifies sb, sb.buf
    ensures sb.Valid() && sb.View() == Render(old(sb.View()), RenderChan1(m))
    ensures RenderChan1(m) == Head(m) +
      ((if m.ack then [Tlv(3, [])] else []) + ((if m.auto then [Tlv(4, [])] else []) + m.extra))
  {
    hide Render, BlockValue;
    ghost var o := sb.View();
    var head := [];
    if m.original.Some? {
      head := [m.original.value];
    } else if m.text.Some? {
      head := AddMsgBlock([], 2, m.text.value);
    }
    var flags := Flag(3, m.ack) + Flag(4, m.auto);
    assert RenderChan1(m) == head + (flags + m.extra);
    assert AllFit(flags + m.extra);
    RenderConcat(o, head, flags + m.extra);
    var n := RenderTo(head, sb);
    RenderConcat(sb.View(), flags, m.extra);
    n := RenderTo(flags, sb);
    n := RenderTo(m.extra, sb);
  }
}
