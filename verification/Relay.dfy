/** Relaying channel-1 messages: parsed by the router, and rendered again (timps/oscar/im.c). */
module Relay {
  import opened Basics
  import opened Wire
  import opened Tlv
  import opened Icbm
  import Flap
  import Snac

  /** What a message carries through the router; `original` is the tag gnrmsg.oscarmsgtlv. */
  datatype Msg = Msg(text: Option<Bytes>, original: Option<Tlv>, ack: bool, auto: bool, extra: seq<Tlv>)

  function AsStr(text: Option<Bytes>): Option<Bytes> {
    if text.Some? then Some(CStr(text.value)) else None
  }

  /** The message TLV's text, and the TLV itself when the text does not say it all; `x` was extracted from it. */
  function ParseText(t: Option<Tlv>, x: Extracted): (Option<Bytes>, Option<Tlv>) {
    if t.None? then (None, None) else
    match x
    case Failed => (None, t)
    case Got(text, u) => (AsStr(text), if u > 0 then t else None)
  }

  /** toscar_icbm__parsechan1; what it leaves of the list travels along */
  function ParseChan1(ts: seq<Tlv>, x: Extracted): Msg {
    var (text, original) := ParseText(FirstOf(ts, 2), x);
    var ts1 := WithoutFirst(ts, 2);
    var ts2 := WithoutFirst(ts1, 3);
    Msg(text, original, FirstOf(ts1, 3).Some?, FirstOf(ts2, 4).Some?, WithoutFirst(ts2, 4))
  }

  function Flag(typ: u16, on: bool): seq<Tlv> {
    if on then [Tlv(typ, [])] else []
  }

  /** The message TLV that is sent, if one is. */
  function Head(m: Msg): (h: seq<Tlv>)
    ensures |h| <= 1
  {
    if m.original.Some? then [m.original.value]
    else if m.text.Some? then [Tlv(2, BlockValue(m.text.value))]
    else []
  }

  /** The TLVs toscar_icbm__renderchan1 sends. */
  function RenderChan1(m: Msg): (ts: seq<Tlv>)
    ensures (m.original.Some? ==> Fits(m.original.value)) && AllFit(m.extra) ==> AllFit(ts)
  {
    Head(m) + (Flag(3, m.ack) + (Flag(4, m.auto) + m.extra))
  }

  /** toscar_icbm_sendincoming does not pass requests for acknowledgement to clients. */
  function Outbound(m: Msg, incoming: bool): Msg {
    if incoming then m.(ack := false) else m
  }

  function Relayed(ts: seq<Tlv>, x: Extracted, incoming: bool): seq<Tlv> {
    RenderChan1(Outbound(ParseChan1(ts, x), incoming))
  }

  // ---- What a list says to whoever reads it

  /** All of the extracted text, and not only the C string it begins with. */
  datatype Message = Nothing | Text(text: Bytes) | Verbatim(tlv: Tlv)

  datatype Reading = Reading(message: Message, ack: bool, auto: bool, extra: seq<Tlv>)

  function MessageOf(t: Option<Tlv>, x: Extracted): Message {
    if t.None? then Nothing
    else if x.Failed? || x.unrepresentable > 0 then Verbatim(t.value)
    else if x.text.None? then Nothing
    else Text(x.text.value)
  }

  function Read(ts: seq<Tlv>, x: Extracted): Reading {
    var m := ParseChan1(ts, x);
    Reading(MessageOf(FirstOf(ts, 2), x), m.ack, m.auto, m.extra)
  }

  /** What a receiver should read. */
  function Wanted(ts: seq<Tlv>, x: Extracted, incoming: bool): Reading {
    var r := Read(ts, x);
    if incoming then r.(ack := false) else r
  }

  /** The extraction of the message TLV of a list, where that has a value. */
  predicate Extracts(ts: seq<Tlv>, x: Extracted, junk: Junk) {
    FirstOf(ts, 2).Some? && FirstOf(ts, 2).value.value != [] ==> x == Extract(FirstOf(ts, 2).value.value, junk)
  }

  // ---- Flags and other TLVs

  lemma {:induction false} FirstAppend(a: seq<Tlv>, b: seq<Tlv>, typ: u16)
    ensures FirstOf(a + b, typ) == if FirstOf(a, typ).Some? then FirstOf(a, typ) else FirstOf(b, typ)
    ensures WithoutFirst(a + b, typ) ==
            if FirstOf(a, typ).Some? then WithoutFirst(a, typ) + b else a + WithoutFirst(b, typ)
  {
    hide FirstOf, WithoutFirst;
    RemoveTurn(a, typ);
    RemoveTurn(a + b, typ);
    if a == [] {
      assert a + b == b;
    } else {
      FirstAppend(a[1..], b, typ);
      assert (a + b)[1..] == a[1..] + b && (a + b)[0] == a[0];
      assert a == [a[0]] + a[1..];
    }
  }

  lemma FlagFacts(typ: u16, on: bool, other: u16)
    ensures FirstOf(Flag(typ, on), other).Some? <==> on && other == typ
    ensures WithoutFirst(Flag(typ, on), other) == if other == typ then [] else Flag(typ, on)
  {
    assert Flag(typ, true)[1..] == [];
  }

  /** A type that is not taken out stays. */
  lemma {:induction false} TypeStays(ts: seq<Tlv>, typ: u16, other: u16)
    requires typ != other
    ensures FirstOf(WithoutFirst(ts, typ), other) == FirstOf(ts, other)
  {
    if ts != [] && ts[0].typ != typ && ts[0].typ != other {
      TypeStays(ts[1..], typ, other);
    }
  }

  /** Flags in front of other TLVs, as they are read. */
  lemma FlagsRead(ack: bool, auto: bool, e: seq<Tlv>)
    ensures var all := Flag(3, ack) + (Flag(4, auto) + e);
            && (FirstOf(all, 3).Some? <==> ack || FirstOf(e, 3).Some?)
            && (ack || FirstOf(e, 3).None? ==>
                var one := WithoutFirst(all, 3);
                && (FirstOf(one, 4).Some? <==> auto || FirstOf(e, 4).Some?)
                && (auto || FirstOf(e, 4).None? ==> WithoutFirst(one, 4) == e))
  {
    hide FirstOf, WithoutFirst, Flag;
    var tail := Flag(4, auto) + e;
    FlagFacts(3, ack, 3);
    FlagFacts(4, auto, 3);
    FlagFacts(4, auto, 4);
    FirstAppend(Flag(3, ack), tail, 3);
    FirstAppend(Flag(4, auto), e, 3);
    FirstAppend(Flag(4, auto), e, 4);
    assert [] + tail == tail && [] + e == e;
    Absent(tail, 3);
    Absent(e, 4);
    FlagOff(3);
    FlagOff(4);
    if ack {
      assert WithoutFirst(Flag(3, ack) + tail, 3) == tail;
    } else {
      assert Flag(3, ack) + tail == tail;
    }
    if !auto {
      assert tail == e;
    }
  }

  lemma FlagOff(typ: u16)
    ensures Flag(typ, false) == []
  {
  }

  lemma Absent(ts: seq<Tlv>, typ: u16)
    ensures FirstOf(ts, typ).None? ==> WithoutFirst(ts, typ) == ts
    ensures FirstOf(ts, typ).Some? ==> |WithoutFirst(ts, typ)| == |ts| - 1
  {
    var i := RemoveSplits(ts, typ);
  }

  /** Flags and other TLVs are read back as sent exactly when none is taken for one that is not there. */
  lemma RestBack(head: seq<Tlv>, ack: bool, auto: bool, extra: seq<Tlv>)
    requires |head| <= 1 && (head != [] ==> head[0].typ == 2)
    ensures var out := head + (Flag(3, ack) + (Flag(4, auto) + extra));
            var out1 := WithoutFirst(out, 2);
            var out2 := WithoutFirst(out1, 3);
            && (FirstOf(out1, 3).Some? == ack && FirstOf(out2, 4).Some? == auto && WithoutFirst(out2, 4) == extra
                <==> (head != [] || FirstOf(extra, 2).None?)
                     && (ack || FirstOf(extra, 3).None?) && (auto || FirstOf(extra, 4).None?))
            && (head != [] ==> FirstOf(out, 2) == Some(head[0]))
            && (head == [] ==> FirstOf(out, 2) == FirstOf(extra, 2))
  {
    hide FirstOf, WithoutFirst, Flag;
    var tail := Flag(3, ack) + (Flag(4, auto) + extra);
    FirstAppend(head, tail, 2);
    RemoveTurn(head, 2);
    FlagFacts(3, ack, 2);
    FlagFacts(4, auto, 2);
    FirstAppend(Flag(3, ack), Flag(4, auto) + extra, 2);
    FirstAppend(Flag(4, auto), extra, 2);
    if head != [] {
      assert WithoutFirst(head, 2) == [] && [] + tail == tail;
      FlagsRead(ack, auto, extra);
    } else {
      assert [] + WithoutFirst(tail, 2) == WithoutFirst(tail, 2);
      Absent(extra, 2);
      FlagsRead(ack, auto, WithoutFirst(extra, 2));
      TypeStays(extra, 2, 3);
      TypeStays(extra, 2, 4);
    }
  }

  /** What is left of a parsed list: no flag that was not set, and a second TLV of a type if there was one. */
  lemma ParsedRest(ts: seq<Tlv>, x: Extracted)
    ensures var m := ParseChan1(ts, x);
            && FirstOf(m.extra, 2) == FirstOf(WithoutFirst(ts, 2), 2)
            && FirstOf(m.extra, 3) == FirstOf(WithoutFirst(WithoutFirst(ts, 2), 3), 3)
            && (m.ack || FirstOf(m.extra, 3).None?) && (m.auto || FirstOf(m.extra, 4).None?)
  {
    hide FirstOf, WithoutFirst;
    var ts1 := WithoutFirst(ts, 2);
    var ts2 := WithoutFirst(ts1, 3);
    TypeStays(ts1, 3, 2);
    TypeStays(ts2, 4, 2);
    TypeStays(ts2, 4, 3);
    Absent(ts1, 3);
    Absent(ts2, 4);
  }

  lemma {:induction false} FirstThere(ts: seq<Tlv>, typ: u16)
    ensures FirstOf(ts, typ).Some? <==> exists t <- ts :: t.typ == typ
  {
    if ts != [] {
      FirstThere(ts[1..], typ);
      assert (exists t <- ts[1..] :: t.typ == typ) ==> exists t <- ts :: t.typ == typ;
      assert ts[0] in ts && forall t <- ts :: t == ts[0] || t in ts[1..];
    }
  }

  /** 0x0003 asks for an acknowledgement, 0x0004 marks an automatic response, and 0x0002 is the message. */
  lemma FlagsMean(ts: seq<Tlv>, x: Extracted)
    ensures Read(ts, x).ack <==> exists t <- ts :: t.typ == 3
    ensures Read(ts, x).auto <==> exists t <- ts :: t.typ == 4
    ensures Read(ts, x).message.Verbatim? ==> Read(ts, x).message.tlv.typ == 2
  {
    hide FirstOf, WithoutFirst;
    FirstThere(ts, 3);
    FirstThere(ts, 4);
    TypeStays(ts, 2, 3);
    TypeStays(WithoutFirst(ts, 2), 3, 4);
    TypeStays(ts, 2, 4);
    var i := RemoveSplits(ts, 2);
  }

  // ---- The message itself

  lemma SameTextSameStr(s: Option<Bytes>, t: Option<Bytes>)
    requires SameText(s, t)
    ensures AsStr(s) == AsStr(t)
  {
  }

  /** What a message TLV yields does not depend on uninitialised memory, up to the end of the C string. */
  lemma ParseTextAgain(t: Tlv, junk: Junk, junk2: Junk)
    ensures ParseText(Some(t), Extract(t.value, junk)) == ParseText(Some(t), Extract(t.value, junk2))
    ensures var (a, b) := (MessageOf(Some(t), Extract(t.value, junk)), MessageOf(Some(t), Extract(t.value, junk2)));
            (a.Verbatim? || b.Verbatim? ==> a == b) && (a.Text? <==> b.Text?)
  {
    hide Extract, SameStr, CStr;
    ExtractIgnoresJunk(t.value, junk, junk2);
    var (e, e2) := (Extract(t.value, junk), Extract(t.value, junk2));
    if e.Got? {
      SameTextSameStr(e.text, e2.text);
    }
  }

  /** A message TLV that cannot be expressed as text is sent again as it was, and read as it was. */
  lemma OriginalSent(ts: seq<Tlv>, x: Extracted, y: Extracted, incoming: bool, junk: Junk, junk2: Junk)
    requires FirstOf(ts, 2).Some? && FirstOf(ts, 2).value.value != [] && ParseChan1(ts, x).original.Some?
    requires Extracts(ts, x, junk) && Extracts(Relayed(ts, x, incoming), y, junk2)
    ensures var (t, out) := (FirstOf(ts, 2).value, Relayed(ts, x, incoming));
            && t.typ == 2 && Head(ParseChan1(ts, x)) == [t] <= out
            && MessageOf(Some(t), y) == MessageOf(Some(t), x) == Verbatim(t)
            && ParseText(Some(t), y) == ParseText(Some(t), x)
  {
    hide WithoutFirst, Extract, BlockValue, Flag;
    var t := FirstOf(ts, 2).value;
    var i := RemoveSplits(ts, 2);
    RemoveTurn(Relayed(ts, x, incoming), 2);
    ParseTextAgain(t, junk, junk2);
  }

  lemma BlockLength(text: Bytes)
    requires |text| <= MAXTEXT
    ensures |Block(text)| == 16 + |text|
  {
  }

  /** Any other text is sent up to its first NUL, so all of it exactly when it has none. */
  lemma TextSent(ts: seq<Tlv>, x: Extracted, y: Extracted, incoming: bool, junk2: Junk)
    requires FirstOf(ts, 2).Some? && x.Got? && x.unrepresentable == 0 && x.text.Some?
    requires |CStr(x.text.value)| <= MAXTEXT && Extracts(Relayed(ts, x, incoming), y, junk2)
    ensures var (s, out) := (x.text.value, Relayed(ts, x, incoming));
            && Head(ParseChan1(ts, x)) == [Tlv(2, Block(CStr(s)))] <= out
            && y == Got(Some(CStr(s)), 0) && CStr(CStr(s)) == CStr(s)
            && (y.text == x.text <==> NulFree(s))
  {
    hide Extract, Block, BlockValue, FirstOf, WithoutFirst, Flag;
    var s := CStr(x.text.value);
    CStrPrefix(x.text.value);
    CStrPrefix(s);
    BlockValueIs(s);
    BlockLength(s);
    RemoveTurn(Relayed(ts, x, incoming), 2);
    ExtractBlock(s, junk2);
  }

  // ---- The theorem

  /** No other TLV is taken for one that is not sent. */
  predicate Unmistaken(ts: seq<Tlv>, incoming: bool) {
    && (FirstOf(ts, 2).None? || !Blank(FirstOf(ts, 2).value.value) || FirstOf(WithoutFirst(ts, 2), 2).None?)
    && (incoming ==> FirstOf(WithoutFirst(WithoutFirst(ts, 2), 3), 3).None?)
  }

  /** The message TLV has no text that is cut. */
  predicate Uncut(ts: seq<Tlv>) {
    FirstOf(ts, 2).None? || !Cut(FirstOf(ts, 2).value.value)
  }

  lemma HeadType(ts: seq<Tlv>, x: Extracted)
    ensures var h := Head(ParseChan1(ts, x)); h != [] ==> h[0].typ == 2
    ensures Head(ParseChan1(ts, x)) == [] <==> MessageOf(FirstOf(ts, 2), x).Nothing?
  {
    hide WithoutFirst, BlockValue;
    var i := RemoveSplits(ts, 2);
  }

  lemma HeadBlank(ts: seq<Tlv>, x: Extracted, junk: Junk)
    requires Extracts(ts, x, junk) && (FirstOf(ts, 2).Some? ==> FirstOf(ts, 2).value.value != [])
    ensures Head(ParseChan1(ts, x)) == [] <==> FirstOf(ts, 2).None? || Blank(FirstOf(ts, 2).value.value)
  {
    hide WithoutFirst, BlockValue, Extract, Blank, FirstOf;
    if FirstOf(ts, 2).Some? {
      BlankIff(FirstOf(ts, 2).value.value, junk);
    }
  }

  /**
   Relaying a message carried by a FLAP frame, whose message TLV is not empty.  The receiver reads the
   same flags and other TLVs, and the same C string or message TLV, exactly when no TLV is mistaken for
   another; and the whole text exactly when moreover it is not cut.
   */
  lemma ConveysIff(ts: seq<Tlv>, x: Extracted, y: Extracted, incoming: bool, junk: Junk, junk2: Junk)
    requires FirstOf(ts, 2).Some? ==> 0 < |FirstOf(ts, 2).value.value| <= Flap.MAXSNACLEN
    requires Extracts(ts, x, junk) && Extracts(Relayed(ts, x, incoming), y, junk2)
    ensures ParseChan1(Relayed(ts, x, incoming), y) == Outbound(ParseChan1(ts, x), incoming) <==>
            Unmistaken(ts, incoming)
    ensures Read(Relayed(ts, x, incoming), y) == Wanted(ts, x, incoming) <==> Unmistaken(ts, incoming) && Uncut(ts)
  {
    hide Extract, Blank, Cut, FirstOf, WithoutFirst, BlockValue, Block, Flag;
    var m := Outbound(ParseChan1(ts, x), incoming);
    var out := Relayed(ts, x, incoming);
    HeadType(ts, x);
    HeadBlank(ts, x, junk);
    ParsedRest(ts, x);
    RestBack(Head(m), m.ack, m.auto, m.extra);
    if FirstOf(ts, 2).None? {
      Absent(ts, 2);
    } else {
      var v := FirstOf(ts, 2).value.value;
      CutIff(v, junk);
      ExtractLength(v, _ => 0, junk, 0);
      if m.original.Some? {
        OriginalSent(ts, x, y, incoming, junk, junk2);
      } else if m.text.Some? {
        TextSent(ts, x, y, incoming, junk2);
      }
    }
  }

  // ---- On bytes

  lemma {:induction false} EncodeRemove(ts: seq<Tlv>, typ: u16)
    requires AllFit(ts)
    ensures FirstOf(ts, typ).Some? ==>
            |Encode(ts)| == 4 + |FirstOf(ts, typ).value.value| + |Encode(WithoutFirst(ts, typ))|
    ensures FirstOf(ts, typ).None? ==> WithoutFirst(ts, typ) == ts
  {
    hide Encode, FirstOf, WithoutFirst;
    EncodeTurn(ts);
    RemoveTurn(ts, typ);
    if ts != [] && ts[0].typ != typ {
      EncodeRemove(ts[1..], typ);
      var rest := WithoutFirst(ts[1..], typ);
      assert ([ts[0]] + rest)[1..] == rest && ts == [ts[0]] + ts[1..];
      EncodeTurn([ts[0]] + rest);
    }
  }

  /** The size of a list, by what is read of it. */
  lemma ReadSize(ts: seq<Tlv>, x: Extracted)
    requires AllFit(ts)
    ensures var m := ParseChan1(ts, x);
            && AllFit(m.extra)
            && |Encode(ts)| >= (if FirstOf(ts, 2).Some? then 4 + |FirstOf(ts, 2).value.value| else 0)
                               + (if m.ack then 4 else 0) + (if m.auto then 4 else 0) + |Encode(m.extra)|
  {
    hide Encode, FirstOf, WithoutFirst;
    var ts1 := WithoutFirst(ts, 2);
    EncodeRemove(ts, 2);
    EncodeRemove(ts1, 3);
    EncodeRemove(WithoutFirst(ts1, 3), 4);
  }

  lemma RelayedSize(head: seq<Tlv>, ack: bool, auto: bool, extra: seq<Tlv>)
    requires |head| <= 1 && AllFit(head) && AllFit(extra)
    ensures var tail := Flag(3, ack) + (Flag(4, auto) + extra);
            && AllFit(tail) && AllFit(head + tail)
            && |Encode(tail)| == (if ack then 4 else 0) + (if auto then 4 else 0) + |Encode(extra)|
            && |Encode(head + tail)| == (if head == [] then 0 else 4 + |head[0].value|) + |Encode(tail)|
  {
    hide Encode;
    var one := Flag(4, auto) + extra;
    var tail := Flag(3, ack) + one;
    EncodeTurn(one);
    EncodeTurn(tail);
    EncodeTurn(head + tail);
    if auto {
      assert one[1..] == extra;
    } else {
      assert one == extra;
    }
    if ack {
      assert tail[1..] == one;
    } else {
      assert tail == one;
    }
    if head == [] {
      assert head + tail == tail;
    } else {
      assert (head + tail)[1..] == tail;
    }
  }

  /** A buffer with the headers of a message in it: however large they are, there is room to grow for a text. */
  const MAXSTART := 20000

  /** The message TLV is parsed first, or nothing is: if its text is refused, too little follows to fill its length. */
  lemma HeadFirst(o: Out, h: Tlv, tail: seq<Tlv>)
    requires o.Valid() && !o.overrun && o.grow && o.cap <= MAXSTART
    requires Fits(h) && AllFit(tail) && |Encode(tail)| <= 8300
    requires AllFit([h] + tail) && Ends(Added(o, [h] + tail))
    ensures var p := Parse(Added(o, [h] + tail)).0; p == [] || p[0] == h
  {
    hide Render, Ends, Parse, Encode, EncodeOne, RenderOne, Grown;
    var ts := [h] + tail;
    assert ts[1..] == tail;
    if o.Room() == 0 {
      RenderStops(o, ts);
    } else if Grown(|o.written|, o.cap, o.grow, |h.value|).Some? {
      AddedCons(o, ts);
    } else {
      TextRefused(o, h);
      ValueLost(o, ts);
      EncodeTurn(ts);
      var s := Added(o, ts);
      assert s[..4] == Be16(h.typ) + Be16(|h.value|);
      HeaderOnly(s, h);
    }
  }

  lemma TextRefused(o: Out, h: Tlv)
    requires o.Valid() && !o.overrun && o.grow && o.cap <= MAXSTART && Fits(h)
    requires Grown(|o.written|, o.cap, o.grow, |h.value|).None?
    ensures var a := Grow(|o.written|, o.cap, o.grow, 2);
            a.Fitted? && var b := Grow(|o.written| + 2, a.cap, o.grow, 2);
            b.Fitted? && !Grow(|o.written| + 4, b.cap, o.grow, |h.value|).Fitted?
    ensures |h.value| > 8400
  {
    hide GrownLen, RoundUp;
    GrownCases(o.cap, 2);
    RoundUpLast(2);
    var a := Grow(|o.written|, o.cap, o.grow, 2);
    GrownCases(a.cap, 2);
    var b := Grow(|o.written| + 2, a.cap, o.grow, 2);
    GrownCases(b.cap, |h.value|);
    assert b.cap <= MAXSTART + 512;
  }

  lemma RelayedBounds(r: Bytes, ts: seq<Tlv>, x: Extracted, incoming: bool, junk: Junk)
    requires Snac.FromFrame(r, ts) && Extracts(ts, x, junk)
    requires FirstOf(ts, 2).Some? ==> FirstOf(ts, 2).value.value != []
    ensures var m := Outbound(ParseChan1(ts, x), incoming);
            && AllFit(ts) && AllFit(Head(m)) && AllFit(m.extra) && AllFit(Relayed(ts, x, incoming))
            && |Encode(m.extra)| <= Flap.MAXSNACLEN + 2
            && (forall t <- Relayed(ts, x, incoming) :: |t.value| <= CHUNK)
            && (FirstOf(ts, 2).Some? ==> |FirstOf(ts, 2).value.value| <= Flap.MAXSNACLEN)
  {
    hide Encode, FirstOf, WithoutFirst, Extract, BlockValue, Block;
    Snac.FrameBounds(r, ts);
    ReadSize(ts, x);
    var m := Outbound(ParseChan1(ts, x), incoming);
    var i := RemoveSplits(ts, 2);
    ExtraInside(ts, x);
    if FirstOf(ts, 2).Some? {
      ExtractLength(FirstOf(ts, 2).value.value, _ => 0, junk, 0);
      if m.original.None? && m.text.Some? {
        BlockValueIs(m.text.value);
        BlockLength(m.text.value);
      }
    }
    RelayedSize(Head(m), m.ack, m.auto, m.extra);
  }

  lemma ExtraInside(ts: seq<Tlv>, x: Extracted)
    ensures forall t <- ParseChan1(ts, x).extra :: t in ts
  {
    hide FirstOf, WithoutFirst;
    var ts1 := WithoutFirst(ts, 2);
    var ts2 := WithoutFirst(ts1, 3);
    var i := RemoveSplits(ts, 2);
    var j := RemoveSplits(ts1, 3);
    var k := RemoveSplits(ts2, 4);
    assert forall t <- ts1 :: t in ts;
    assert forall t <- ts2 :: t in ts1;
  }

  /** A list that reads like the message sent is no shorter than what was to be sent. */
  lemma NotShorter(ts: seq<Tlv>, x: Extracted, incoming: bool, p: seq<Tlv>, y: Extracted)
    requires AllFit(p) && Read(p, y) == Wanted(ts, x, incoming)
    requires var m := Outbound(ParseChan1(ts, x), incoming);
             AllFit(Head(m)) && AllFit(m.extra) && (Head(m) != [] ==> p == [] || p[0] == Head(m)[0])
    ensures AllFit(Relayed(ts, x, incoming)) && |Encode(p)| >= |Encode(Relayed(ts, x, incoming))|
  {
    hide Encode, WithoutFirst, BlockValue, FirstOf, Flag, Head, Read, Wanted, ParseChan1, Outbound, Relayed;
    var m := Outbound(ParseChan1(ts, x), incoming);
    WantedIs(ts, x, incoming);
    ReadIs(p, y);
    ReadSize(p, y);
    RelayedSize(Head(m), m.ack, m.auto, m.extra);
    RemoveTurn(p, 2);
  }

  lemma WantedIs(ts: seq<Tlv>, x: Extracted, incoming: bool)
    ensures var (w, m) := (Wanted(ts, x, incoming), Outbound(ParseChan1(ts, x), incoming));
            && w.ack == m.ack && w.auto == m.auto && w.extra == m.extra
            && (w.message.Nothing? <==> Head(m) == [])
            && (Head(m) != [] ==> Head(m)[0].typ == 2)
            && Relayed(ts, x, incoming) == Head(m) + (Flag(3, m.ack) + (Flag(4, m.auto) + m.extra))
  {
    hide WithoutFirst, BlockValue, FirstOf, Flag;
    HeadType(ts, x);
  }

  lemma ReadIs(p: seq<Tlv>, y: Extracted)
    ensures var (r, m) := (Read(p, y), ParseChan1(p, y));
            && r.ack == m.ack && r.auto == m.auto && r.extra == m.extra
            && (!r.message.Nothing? ==> p != [] && FirstOf(p, 2).Some?)
  {
  }

  /**
   For every message of a FLAP frame whose message TLV is not empty, put behind any headers: whoever
   parses the bytes sent reads the message exactly when the list arrives, no TLV is mistaken for
   another and the text is not cut.
   */
  lemma MessageArrivesIff(o: Out, r: Bytes, ts: seq<Tlv>, x: Extracted, y: Extracted, incoming: bool,
      junk: Junk, junk2: Junk)
    requires o.Valid() && !o.overrun && o.grow && o.cap <= MAXSTART
    requires Snac.FromFrame(r, ts) && (FirstOf(ts, 2).Some? ==> FirstOf(ts, 2).value.value != [])
    requires Extracts(ts, x, junk) && AllFit(Relayed(ts, x, incoming))
    requires var s := Added(o, Relayed(ts, x, incoming)); Ends(s) ==> Extracts(Parse(s).0, y, junk2)
    ensures var out := Relayed(ts, x, incoming);
            var s := Added(o, out);
            && !Render(o, out).overrun
            && (Ends(s) && Read(Parse(s).0, y) == Wanted(ts, x, incoming) <==>
                Arrives(|o.written|, o.cap, true, Lens(out)) && Unmistaken(ts, incoming) && Uncut(ts))
  {
    hide Extract, Blank, Cut, FirstOf, WithoutFirst, BlockValue, Block, Flag;
    hide Render, Arrives, Ends, Parse, Encode, Lens;
    RelayedBounds(r, ts, x, incoming, junk);
    var m := Outbound(ParseChan1(ts, x), incoming);
    var out := Relayed(ts, x, incoming);
    RenderSound(o, out);
    ArrivesIff(o, out);
    if Arrives(|o.written|, o.cap, true, Lens(out)) {
      ConveysIff(ts, x, y, incoming, junk, junk2);
    } else if Ends(Added(o, out)) && Read(Parse(Added(o, out)).0, y) == Wanted(ts, x, incoming) {
      LostIsShorter(o, out);
      RelayedSize(Head(m), m.ack, m.auto, m.extra);
      if Head(m) != [] {
        var tail := Flag(3, m.ack) + (Flag(4, m.auto) + m.extra);
        assert out == [Head(m)[0]] + tail;
        HeadFirst(o, Head(m)[0], tail);
      }
      NotShorter(ts, x, incoming, Parse(Added(o, out)).0, y);
      assert false;
    }
  }

  // ---- What is lost

  /** A NUL in a section cuts off all the sections behind it. */
  const NULCUT: seq<Part> := [Part(0, 0, [97, 0]), Part(0, 0, [104, 105])]

  lemma NulCut(junk: Junk)
    ensures var v := ValueOf([], NULCUT);
            var x := Extract(v, junk);
            && x == Got(Some([97, 0, 104, 105]), 0)
            && Relayed([Tlv(2, v)], x, false) == [Tlv(2, Block([97]))]
            && Extract(Block([97]), junk) == Got(Some([97]), 0)
            && Cut(v) && Unmistaken([Tlv(2, v)], false)
  {
    hide Block, BlockValue, Extract, Cut, ValueOf, Blank;
    var v := ValueOf([], NULCUT);
    ExtractParts([], NULCUT, junk);
    var (p, q) := (NULCUT[0], NULCUT[1]);
    assert NULCUT == [p, q] && [p, q][1..] == [q] && [q][1..] == [];
    assert [] + [97, 0] == [97, 0] && [97, 0] + [104, 105] == [97, 0, 104, 105];
    assert Joined(None, [p, q]) == Joined(Some([97, 0]), [q]) == Joined(Some([97, 0, 104, 105]), []);
    assert Unshowable([p, q]) == 0;
    var s := [97, 0, 104, 105];
    assert s[1] == 0 && s[1..] == [0, 104, 105];
    assert CStr(s) == [97];
    CutIff(v, junk);
    BlankIff(v, junk);
    BlockValueIs([97]);
    ExtractBlock([97], junk);
    assert [Tlv(2, v)][1..] == [];
  }

  /** Sections that can all be shown are read as they were exactly when none of them has a NUL in it. */
  lemma SectionsSentIff(features: Bytes, ps: seq<Part>, y: Extracted, incoming: bool, junk: Junk, junk2: Junk)
    requires |features| < W16 && (forall p <- ps :: PartFits(p)) && Unshowable(ps) == 0 && ps != []
    requires |ValueOf(features, ps)| <= Flap.MAXSNACLEN
    requires var ts := [Tlv(2, ValueOf(features, ps))];
             Extracts(Relayed(ts, Extract(ts[0].value, junk), incoming), y, junk2)
    ensures forall p <- ps :: PartText(p).Some?
    ensures y == Got(Joined(None, ps), 0) <==> forall p <- ps :: NulFree(PartText(p).value)
  {
    hide Extract, Block, BlockValue, Joined, PartText, Flag;
    var v := ValueOf(features, ps);
    var ts := [Tlv(2, v)];
    ExtractParts(features, ps, junk);
    JoinedNulFree(None, ps);
    ExtractLength(v, _ => 0, junk, 0);
    TextSent(ts, Extract(v, junk), y, incoming, junk2);
  }

  /** A blank message TLV is not sent, and a second one is taken for it. */
  lemma BlankLost(second: Bytes, x: Extracted, y: Extracted, junk: Junk, junk2: Junk)
    requires var ts := [Tlv(2, [5, 1]), Tlv(2, second)];
             Extracts(ts, x, junk) && Extracts(Relayed(ts, x, false), y, junk2)
    ensures var ts := [Tlv(2, [5, 1]), Tlv(2, second)];
            && Relayed(ts, x, false) == [Tlv(2, second)]
            && Read(Relayed(ts, x, false), y) != Read(ts, x)
            && ParseChan1(Relayed(ts, x, false), y) != ParseChan1(ts, x)
  {
    var ts := [Tlv(2, [5, 1]), Tlv(2, second)];
    assert ts[1..] == [Tlv(2, second)] && [5, 1][2..] == [];
    assert Blank([5, 1]);
    hide Extract, Blank, BlockValue;
    BlankIff([5, 1], junk);
    var rest := [Tlv(2, second)];
    assert rest[1..] == [];
    assert WithoutFirst(ts, 2) == rest && WithoutFirst(rest, 3) == rest && WithoutFirst(rest, 4) == rest;
    assert FirstOf(rest, 3).None? && FirstOf(rest, 4).None? && FirstOf(rest, 2).Some?;
    ConveysIff(ts, x, y, false, junk, junk2);
  }

  /** A second request for acknowledgement gets through to the client. */
  lemma AckGetsThrough(x: Extracted, y: Extracted)
    ensures var ts := [Tlv(3, []), Tlv(3, [])];
            Relayed(ts, x, true) == [Tlv(3, [])] && Read(Relayed(ts, x, true), y).ack
  {
    var ts := [Tlv(3, []), Tlv(3, [])];
    var one := [Tlv(3, [])];
    assert ts[1..] == one && one[1..] == [];
    assert FirstOf(ts, 2).None? && FirstOf(one, 2).None? && FirstOf(one, 4).None?;
    Absent(ts, 2);
    Absent(one, 2);
    Absent(one, 4);
    assert WithoutFirst(ts, 3) == one && FirstOf(one, 3).Some?;
  }

  /** An empty message TLV can be sent on as a message that shows what memory held. */
  lemma EmptyRelayed(x: byte, junk: Junk)
    requires x != 0
    ensures var e := Result([], Showing(x), junk, 2);
            e.Ended? && Relayed([Tlv(2, [])], e.x, false) == [Tlv(2, Block([x]))]
  {
    hide Block, BlockValue;
    EmptyShowsMemory(x, junk, 2);
    BlockValueIs([x]);
    CStrPrefix([x]);
    assert [Tlv(2, [])][1..] == [];
  }
}
