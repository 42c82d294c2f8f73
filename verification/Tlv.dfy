/** Type-length-value lists (naf/tlv.c). */
module Tlv {
  import opened Basics
  import opened Wire
  import Sbuf

  datatype Tlv = Tlv(typ: u16, value: Bytes)

  /** The length field has 16 bits. */
  predicate Fits(t: Tlv) {
    |t.value| < 0x1_0000
  }

  predicate AllFit(ts: seq<Tlv>) {
    forall t <- ts :: Fits(t)
  }

  // ---- Rendering

  function EncodeOne(t: Tlv): Bytes
    requires Fits(t)
  {
    Be16(t.typ) + Be16(|t.value|) + t.value
  }

  /** Type and length in network order, then the value. */
  lemma TlvLayout(t: Tlv)
    requires Fits(t)
    ensures var e := EncodeOne(t);
            && |e| == 4 + |t.value| && BigEndian(e[..2]) == t.typ && BigEndian(e[2..4]) == |t.value|
            && e[4..] == t.value
  {
    var e := EncodeOne(t);
    assert e[..2] == Be16(t.typ) && e[2..4] == Be16(|t.value|);
    NetworkOrder(t.typ, 0);
    NetworkOrder(|t.value|, 0);
  }

  function Encode(ts: seq<Tlv>): Bytes
    requires AllFit(ts)
  {
    if ts == [] then [] else EncodeOne(ts[0]) + Encode(ts[1..])
  }

  /** naf_tlv_getrenderedsize */
  method RenderedSize(ts: seq<Tlv>) returns (n: nat)
    requires AllFit(ts)
    ensures n == |Encode(ts)|
  {
    n := 0;
    for i := 0 to |ts|
      invariant n + |Encode(ts[i..])| == |Encode(ts)|
    {
      n := n + 2 + 2 + |ts[i].value|;
      assert ts[i..][1..] == ts[i + 1..];
    }
  }

  function RenderOne(o: Out, t: Tlv): (o': Out)
    requires o.Valid() && Fits(t)
    ensures o'.Valid() && o'.grow == o.grow
  {
    Put(Put(Put(o, Be16(t.typ)), Be16(|t.value|)), t.value)
  }

  /** What naf_tlv_render leaves behind: it stops at a full buffer, even one that could grow. */
  function Render(o: Out, ts: seq<Tlv>): (o': Out)
    requires o.Valid() && AllFit(ts)
    ensures o'.Valid() && o'.grow == o.grow
    decreases |ts|
  {
    if ts == [] || o.Room() == 0 then o else Render(RenderOne(o, ts[0]), ts[1..])
  }

  /** One turn of the loop of naf_tlv_render */
  method RenderOneTo(t: Tlv, sb: Sbuf.Sbuf) returns (n: int)
    requires sb.Valid() && Fits(t)
    modifies sb, sb.buf
    ensures sb.Valid() && sb.View() == RenderOne(old(sb.View()), t)
    ensures n == sb.pos - old(sb.pos)
    ensures (sb.buf == old(sb.buf) || fresh(sb.buf)) && (!sb.grow ==> sb.buf == old(sb.buf))
    ensures sb.pos >= old(sb.pos)
    ensures sb.buf == old(sb.buf) ==> forall j | sb.pos <= j < sb.buf.Length :: sb.buf[j] == old(sb.buf[j])
  {
    hide CanPut, Grow;
    n := sb.Put16(t.typ);
    var k := sb.Put16(|t.value|);
    n := n + k;
    k := sb.PutRaw(t.value);
    n := n + k;
  }

  /** naf_tlv_render */
  method RenderTo(ts: seq<Tlv>, sb: Sbuf.Sbuf) returns (n: int)
    requires sb.Valid() && AllFit(ts)
    modifies sb, sb.buf
    ensures sb.Valid() && sb.View() == Render(old(sb.View()), ts)
    ensures n == sb.pos - old(sb.pos)
    ensures (sb.buf == old(sb.buf) || fresh(sb.buf)) && (!sb.grow ==> sb.buf == old(sb.buf))
    ensures sb.pos >= old(sb.pos)
    ensures sb.buf == old(sb.buf) ==> forall j | sb.pos <= j < sb.buf.Length :: sb.buf[j] == old(sb.buf[j])
  {
    hide RenderOne;
    n := 0;
    var i := 0;
    while i < |ts| && sb.Remaining() > 0
      invariant i <= |ts| && sb.Valid()
      invariant Render(sb.View(), ts[i..]) == Render(old(sb.View()), ts)
      invariant (sb.buf == old(sb.buf) || fresh(sb.buf)) && (!sb.grow ==> sb.buf == old(sb.buf))
      invariant n == sb.pos - old(sb.pos) >= 0
      invariant sb.buf == old(sb.buf) ==> forall j | sb.pos <= j < sb.buf.Length :: sb.buf[j] == old(sb.buf[j])
    {
      assert ts[i] in ts && ts[i..][1..] == ts[i + 1..];
      var k := RenderOneTo(ts[i], sb);
      n, i := n + k, i + 1;
    }
  }

  lemma RenderedNonempty(ts: seq<Tlv>)
    requires AllFit(ts) && ts != []
    ensures |Encode(ts)| >= |EncodeOne(ts[0])| >= 4
  {
  }

  lemma RenderOneComplete(o: Out, t: Tlv)
    requires o.Valid() && Fits(t) && !o.overrun && |EncodeOne(t)| <= o.Room()
    ensures RenderOne(o, t) == o.(written := o.written + EncodeOne(t))
  {
    hide Put;
    PutPair(o, Be16(t.typ), Be16(|t.value|));
    PutWithRoom(Put(Put(o, Be16(t.typ)), Be16(|t.value|)), t.value);
    assert o.written + (Be16(t.typ) + Be16(|t.value|)) + t.value == o.written + EncodeOne(t);
  }

  /** With room for all of it up front, the whole list is rendered. */
  lemma {:induction false} RenderComplete(o: Out, ts: seq<Tlv>)
    requires o.Valid() && AllFit(ts) && !o.overrun && |Encode(ts)| <= o.Room()
    ensures Render(o, ts) == o.(written := o.written + Encode(ts))
    decreases |ts|
  {
    hide RenderOne, EncodeOne;
    if ts != [] {
      RenderOneComplete(o, ts[0]);
      RenderComplete(RenderOne(o, ts[0]), ts[1..]);
      assert o.written + EncodeOne(ts[0]) + Encode(ts[1..]) == o.written + Encode(ts);
      RenderedNonempty(ts);
    }
  }

  lemma RenderOneAppends(o: Out, t: Tlv)
    requires o.Valid() && Fits(t)
    ensures o.written <= RenderOne(o, t).written && |RenderOne(o, t).written| <= |o.written| + |EncodeOne(t)|
    ensures !o.grow ==> RenderOne(o, t).cap == o.cap
  {
    hide CanPut, Grow;
  }

  /** Rendering appends, and never more than the encoding. */
  lemma {:induction false} RenderAppends(o: Out, ts: seq<Tlv>)
    requires o.Valid() && AllFit(ts)
    ensures o.written <= Render(o, ts).written && |Render(o, ts).written| <= |o.written| + |Encode(ts)|
    ensures !o.grow ==> Render(o, ts).cap == o.cap
    decreases |ts|
  {
    hide RenderOne, EncodeOne;
    if ts != [] && o.Room() != 0 {
      RenderOneAppends(o, ts[0]);
      RenderAppends(RenderOne(o, ts[0]), ts[1..]);
    }
  }

  /** On a buffer that cannot grow, room up front is also necessary. */
  lemma RenderFixedIff(o: Out, ts: seq<Tlv>)
    requires o.Valid() && AllFit(ts) && !o.overrun && !o.grow
    ensures Render(o, ts).written == o.written + Encode(ts) <==> |Encode(ts)| <= o.Room()
  {
    RenderAppends(o, ts);
    if |Encode(ts)| <= o.Room() {
      RenderComplete(o, ts);
    }
  }

  function Lens(ts: seq<Tlv>): seq<nat> {
    if ts == [] then [] else [|ts[0].value|] + Lens(ts[1..])
  }

  /** The buffer length after type, length field and a value of `len` bytes are put at `pos`; None if one is refused. */
  function Grown(pos: nat, cap: nat, grow: bool, len: nat): Option<nat> {
    var a := Grow(pos, cap, grow, 2);
    if !a.Fitted? then None else
    var b := Grow(pos + 2, a.cap, grow, 2);
    if !b.Fitted? then None else
    var c := Grow(pos + 4, b.cap, grow, len);
    if !c.Fitted? then None else Some(c.cap)
  }

  /** From the lengths alone: no TLV meets a full buffer, and no growth is refused or wraps around. */
  predicate Completes(pos: nat, cap: nat, grow: bool, lens: seq<nat>)
    decreases |lens|
  {
    lens == [] || (
      && pos < cap
      && Grown(pos, cap, grow, lens[0]).Some?
      && Completes(pos + 4 + lens[0], Grown(pos, cap, grow, lens[0]).value, grow, lens[1..]))
  }

  lemma PutExact(o: Out, s: Bytes)
    requires o.Valid() && !o.overrun
    ensures var g := Grow(|o.written|, o.cap, o.grow, |s|);
            if g.Fitted? then Put(o, s) == Out(o.written + s, g.cap, o.grow, false)
            else |Put(o, s).written| < |o.written| + |s|
  {
  }

  lemma PutNoMore(o: Out, s: Bytes)
    requires o.Valid()
    ensures |Put(o, s).written| <= |o.written| + |s|
  {
  }

  lemma RenderOneExact(o: Out, t: Tlv)
    requires o.Valid() && Fits(t) && !o.overrun
    ensures var g := Grown(|o.written|, o.cap, o.grow, |t.value|);
            if g.Some? then RenderOne(o, t) == Out(o.written + EncodeOne(t), g.value, o.grow, false)
            else |RenderOne(o, t).written| < |o.written| + |EncodeOne(t)|
  {
    hide Put, CanPut, Grow;
    PutExact(o, Be16(t.typ));
    var o1 := Put(o, Be16(t.typ));
    PutNoMore(o1, Be16(|t.value|));
    var o2 := Put(o1, Be16(|t.value|));
    PutNoMore(o2, t.value);
    if Grow(|o.written|, o.cap, o.grow, 2).Fitted? {
      PutExact(o1, Be16(|t.value|));
      if Grow(|o1.written|, o1.cap, o.grow, 2).Fitted? {
        PutExact(o2, t.value);
        assert o.written + Be16(t.typ) + Be16(|t.value|) + t.value == o.written + EncodeOne(t);
      }
    }
  }

  lemma CompletesTurn(pos: nat, cap: nat, grow: bool, ts: seq<Tlv>)
    ensures ts == [] ==> Completes(pos, cap, grow, Lens(ts))
    ensures ts != [] ==>
      (Completes(pos, cap, grow, Lens(ts)) <==>
       var g := Grown(pos, cap, grow, |ts[0].value|);
       pos < cap && g.Some? && Completes(pos + 4 + |ts[0].value|, g.value, grow, Lens(ts[1..])))
  {
    hide Grown;
    if ts != [] {
      assert Lens(ts)[1..] == Lens(ts[1..]);
    }
  }

  lemma RenderTurn(o: Out, ts: seq<Tlv>)
    requires o.Valid() && AllFit(ts)
    ensures ts == [] || o.Room() == 0 ==> Render(o, ts) == o
    ensures ts == [] ==> Encode(ts) == []
    ensures ts != [] && o.Room() != 0 ==> Render(o, ts) == Render(RenderOne(o, ts[0]), ts[1..])
    ensures ts != [] ==> Encode(ts) == EncodeOne(ts[0]) + Encode(ts[1..]) && |EncodeOne(ts[0])| == 4 + |ts[0].value|
  {
    hide RenderOne;
  }

  /**
   A list is rendered completely exactly when its lengths complete, on any buffer and for any
   sizes; otherwise fewer bytes are written.
   */
  lemma {:induction false} RenderIff(o: Out, ts: seq<Tlv>)
    requires o.Valid() && AllFit(ts) && !o.overrun
    ensures Completes(|o.written|, o.cap, o.grow, Lens(ts)) ==> Render(o, ts).written == o.written + Encode(ts)
    ensures !Completes(|o.written|, o.cap, o.grow, Lens(ts)) ==> |Render(o, ts).written| < |o.written| + |Encode(ts)|
    decreases |ts|
  {
    hide RenderOne, EncodeOne, Grown, Completes, Lens, Render, Encode;
    CompletesTurn(|o.written|, o.cap, o.grow, ts);
    RenderTurn(o, ts);
    if ts != [] && o.Room() != 0 {
      RenderOneExact(o, ts[0]);
      var o1 := RenderOne(o, ts[0]);
      if Grown(|o.written|, o.cap, o.grow, |ts[0].value|).Some? {
        RenderIff(o1, ts[1..]);
        assert o1.written + Encode(ts[1..]) == o.written + Encode(ts);
      } else {
        RenderAppends(o1, ts[1..]);
      }
    }
  }

  lemma EncodeOneLength(t: Tlv)
    requires Fits(t)
    ensures |EncodeOne(t)| == 4 + |t.value|
  {
  }

  /** Rendering one list after another is rendering their concatenation. */
  lemma {:induction false} RenderConcat(o: Out, a: seq<Tlv>, b: seq<Tlv>)
    requires o.Valid() && AllFit(a) && AllFit(b)
    ensures AllFit(a + b) && Render(Render(o, a), b) == Render(o, a + b)
    decreases |a|
  {
    hide RenderOne;
    if a == [] {
      assert a + b == b;
    } else {
      assert (a + b)[1..] == a[1..] + b;
      if o.Room() != 0 {
        RenderConcat(RenderOne(o, a[0]), a[1..], b);
      }
    }
  }

  /** What follows TLVs that fill the buffer exactly is dropped silently, also when the buffer could grow. */
  lemma FullBufferDrops(o: Out, ts: seq<Tlv>, rest: seq<Tlv>)
    requires o.Valid() && AllFit(ts) && AllFit(rest) && !o.overrun && |Encode(ts)| == o.Room()
    ensures AllFit(ts + rest) && Render(o, ts + rest) == o.(written := o.written + Encode(ts))
  {
    hide RenderOne, EncodeOne;
    RenderConcat(o, ts, rest);
    RenderComplete(o, ts);
  }

  /** Half the growth limit: below it no put of a growing buffer is refused. */
  const SAFE := 16256

  lemma GrowSafe(pos: nat, cap: nat, n: nat)
    requires pos <= cap < W16 && pos + n <= SAFE
    ensures Grow(pos, cap, true, n).Fitted?
  {
    hide RoundUp, GrownLen;
    GrownCases(cap, n);
  }

  lemma GrownSafe(pos: nat, cap: nat, len: nat)
    requires pos <= cap < W16 && pos + 4 + len <= SAFE
    ensures Grown(pos, cap, true, len).Some?
  {
    hide Grow;
    GrowSafe(pos, cap, 2);
    FittedHolds(pos, cap, true, 2);
    var b := Grow(pos, cap, true, 2).cap;
    GrowSafe(pos + 2, b, 2);
    FittedHolds(pos + 2, b, true, 2);
    GrowSafe(pos + 4, Grow(pos + 2, b, true, 2).cap, len);
  }

  lemma FittedHolds(pos: nat, cap: nat, grow: bool, n: nat)
    requires pos <= cap < W16
    ensures Grow(pos, cap, grow, n).Fitted? ==> pos + n <= Grow(pos, cap, grow, n).cap < W16
  {
  }

  /** Values of up to 32512 bytes never make the source write past its buffer. */
  lemma {:induction false} RenderSound(o: Out, ts: seq<Tlv>)
    requires o.Valid() && AllFit(ts) && !o.overrun && o.cap <= MAXLEN
    requires forall t <- ts :: |t.value| <= CHUNK
    ensures !Render(o, ts).overrun
    decreases |ts|
  {
    hide Put;
    if ts != [] && o.Room() != 0 {
      var t := ts[0];
      SmallPut(o, Be16(t.typ));
      var o1 := Put(o, Be16(t.typ));
      SmallPut(o1, Be16(|t.value|));
      SmallPut(Put(o1, Be16(|t.value|)), t.value);
      RenderSound(RenderOne(o, t), ts[1..]);
    }
  }

  /** Below SAFE all that can happen is a full buffer: what is rendered is a prefix of the list. */
  lemma {:induction false} RenderPrefix(o: Out, ts: seq<Tlv>) returns (k: nat)
    requires o.Valid() && AllFit(ts) && !o.overrun && o.grow && |o.written| + |Encode(ts)| <= SAFE
    ensures k <= |ts| && Render(o, ts).written == o.written + Encode(ts[..k])
    ensures k == |ts| <==> Completes(|o.written|, o.cap, true, Lens(ts))
    decreases |ts|
  {
    hide RenderOne, EncodeOne, Grown, Completes, Lens, Render;
    k := 0;
    CompletesTurn(|o.written|, o.cap, true, ts);
    RenderTurn(o, ts);
    if ts != [] && o.Room() != 0 {
      GrownSafe(|o.written|, o.cap, |ts[0].value|);
      RenderOneExact(o, ts[0]);
      var o1 := RenderOne(o, ts[0]);
      k := RenderPrefix(o1, ts[1..]);
      assert ts[..k + 1][1..] == ts[1..][..k] && ts[..k + 1][0] == ts[0];
      assert o1.written + Encode(ts[1..][..k]) == o.written + Encode(ts[..k + 1]);
      k := k + 1;
    }
  }

  // ---- Parsing

  /** One turn of the parsing loop: the value is missing, or one more TLV. */
  datatype Turn = Broken(rest: Bytes) | More(tlv: Tlv, rest: Bytes)

  function ParseOne(r: Bytes): Turn {
    var (t, r1) := Take16(r);
    var (l, r2) := Take16(r1);
    if l > |r2| then Broken(r2) else More(Tlv(t, r2[..l]), r2[l..])
  }

  /** At most `n` turns. */
  function ParseUpTo(r: Bytes, n: nat): (seq<Tlv>, Bytes)
    decreases n
  {
    if n == 0 || r == [] then ([], r) else
    match ParseOne(r)
    case Broken(rest) => ([], rest)
    case More(t, rest) =>
      var (ts, end) := ParseUpTo(rest, n - 1);
      ([t] + ts, end)
  }

  /** The loop without a limit is over after at most `n` turns. */
  predicate EndsWithin(r: Bytes, n: nat)
    decreases n
  {
    r == [] || (n > 0 && match ParseOne(r) case Broken(_) => true case More(_, rest) => EndsWithin(rest, n - 1))
  }

  /** A lone byte where a TLV should start is never consumed. */
  predicate Ends(r: Bytes)
    decreases |r|
  {
    r == [] || (|r| != 1 && match ParseOne(r) case Broken(_) => true case More(_, rest) => Ends(rest))
  }

  lemma {:induction false} EndsBound(r: Bytes)
    requires Ends(r)
    ensures EndsWithin(r, |r|)
    decreases |r|
  {
    if r != [] && ParseOne(r).More? {
      var rest := ParseOne(r).rest;
      EndsBound(rest);
      EndsWithinMore(rest, |rest|, |r| - 1);
    }
  }

  lemma {:induction false} EndsWithinMore(r: Bytes, m: nat, n: nat)
    requires EndsWithin(r, m) && m <= n
    ensures EndsWithin(r, n)
    decreases m
  {
    if r != [] && ParseOne(r).More? {
      EndsWithinMore(ParseOne(r).rest, m - 1, n - 1);
    }
  }

  lemma {:induction false} EndsWithinEnds(r: Bytes, n: nat)
    requires EndsWithin(r, n)
    ensures Ends(r)
    decreases n
  {
    if r != [] {
      if |r| == 1 {
        assert ParseOne(r) == More(Tlv(0, []), r);
        EndsWithinEnds(r, n - 1);
      } else if ParseOne(r).More? {
        EndsWithinEnds(ParseOne(r).rest, n - 1);
      }
    }
  }

  ghost predicate Terminates(r: Bytes) {
    exists n: nat :: EndsWithin(r, n)
  }

  /** naf_tlv_parse terminates on exactly these inputs. */
  lemma ParseTerminatesIff(r: Bytes)
    ensures Terminates(r) <==> Ends(r)
  {
    if Ends(r) {
      EndsBound(r);
    }
    if Terminates(r) {
      var n: nat :| EndsWithin(r, n);
      EndsWithinEnds(r, n);
    }
  }

  /** naf_tlv_parse */
  function Parse(r: Bytes): (seq<Tlv>, Bytes)
    requires Ends(r)
  {
    ParseUpTo(r, |r|)
  }

  lemma {:induction false} EnoughTurns(r: Bytes, m: nat, n: nat)
    requires EndsWithin(r, m) && m <= n
    ensures ParseUpTo(r, m) == ParseUpTo(r, n)
    decreases m
  {
    if r != [] && ParseOne(r).More? {
      EnoughTurns(ParseOne(r).rest, m - 1, n - 1);
    }
  }

  // ---- The loop itself, with the limit of naf_tlv_parse_limit (-1 stands for none) and memory
  // for so many TLVs: running out of memory is the one other way out of it.

  function ParseLoop(r: Bytes, limit: int, memory: nat): (seq<Tlv>, Bytes)
    decreases memory
  {
    if limit == 0 || r == [] then ([], r) else
    match ParseOne(r)
    case Broken(rest) => ([], rest)
    case More(t, rest) =>
      if memory == 0 then ([], rest)
      else if limit != -1 && limit <= 1 then ([t], rest)
      else
        var (ts, end) := ParseLoop(rest, if limit == -1 then -1 else limit - 1, memory - 1);
        ([t] + ts, end)
  }

  /** With a limit, memory for that many TLVs is enough. */
  lemma {:induction false} ParseLimited(r: Bytes, limit: nat, memory: nat)
    requires limit <= memory
    ensures ParseLoop(r, limit, memory) == ParseUpTo(r, limit)
    decreases limit
  {
    if limit > 0 && r != [] && ParseOne(r).More? {
      ParseLimited(ParseOne(r).rest, limit - 1, memory - 1);
      assert [ParseOne(r).tlv] + [] == [ParseOne(r).tlv];
    }
  }

  lemma {:induction false} ParseEnding(r: Bytes, n: nat, memory: nat)
    requires EndsWithin(r, n) && n <= memory
    ensures ParseLoop(r, -1, memory) == ParseUpTo(r, n)
    decreases n
  {
    if r != [] && ParseOne(r).More? {
      ParseEnding(ParseOne(r).rest, n - 1, memory - 1);
    }
  }

  /** Without one the loop computes Parse where that ends, and everywhere else it uses up all memory there is. */
  lemma {:induction false} ParseUnlimited(r: Bytes, memory: nat)
    ensures Ends(r) && |r| <= memory ==> ParseLoop(r, -1, memory) == Parse(r)
    ensures !Ends(r) ==> |ParseLoop(r, -1, memory).0| == memory
    decreases memory
  {
    hide Num16;
    if Ends(r) {
      EndsBound(r);
      if |r| <= memory {
        ParseEnding(r, |r|, memory);
      }
    } else if memory > 0 {
      if |r| == 1 {
        assert ParseOne(r) == More(Tlv(0, []), r);
      }
      ParseUnlimited(ParseOne(r).rest, memory - 1);
    }
  }

  /** One stray byte is enough. */
  lemma StrayByte(x: byte)
    ensures !Terminates([x])
  {
    ParseTerminatesIff([x]);
  }

  lemma LoopTurn(r: Bytes, limit: int, memory: nat)
    requires r != [] && limit != 0
    ensures ParseOne(r).Broken? || memory == 0 ==> ParseLoop(r, limit, memory) == ([], ParseOne(r).rest)
    ensures ParseOne(r).More? && memory > 0 ==>
      var more := ParseLoop(ParseOne(r).rest, if limit == -1 then -1 else limit - 1, memory - 1);
      if limit != -1 && limit <= 1 then ParseLoop(r, limit, memory) == ([ParseOne(r).tlv], ParseOne(r).rest)
      else ParseLoop(r, limit, memory).0 == [ParseOne(r).tlv] + more.0 && ParseLoop(r, limit, memory).1 == more.1
  {
  }

  lemma LoopOver(r: Bytes, limit: int, memory: nat)
    requires r == [] || limit == 0
    ensures ParseLoop(r, limit, memory) == ([], r)
  {
  }

  /** One turn of the loop of naf_tlv_parse_limit */
  method ReadOne(sb: Sbuf.Sbuf) returns (turn: Turn)
    requires sb.Valid()
    modifies sb`pos
    ensures sb.Valid() && turn == ParseOne(old(sb.Rest())) && sb.Rest() == turn.rest
  {
    hide Num16;
    var t := sb.Get16();
    var l := sb.Get16();
    var v := [];
    if l != 0 {
      var raw := sb.GetRaw(l);
      if raw.None? {
        return Broken(sb.buf[sb.pos..]);
      }
      v := raw.value;
    }
    return More(Tlv(t, v), sb.buf[sb.pos..]);
  }

  /** naf_tlv_parse_limit */
  method ParseFrom(sb: Sbuf.Sbuf, limit: int, memory: nat) returns (ts: seq<Tlv>)
    requires sb.Valid()
    modifies sb`pos
    ensures sb.Valid()
    ensures ts == ParseLoop(old(sb.Rest()), limit, memory).0 && sb.Rest() == ParseLoop(old(sb.Rest()), limit, memory).1
  {
    hide ParseOne, ParseLoop;
    ghost var r0 := sb.Rest();
    ts := [];
    if limit == 0 {
      LoopOver(r0, 0, memory);
      return;
    }
    var left, free := limit, memory;
    while sb.Remaining() > 0
      invariant sb.Valid() && left != 0 && (left == -1 <==> limit == -1)
      invariant ParseLoop(r0, limit, memory).0 == ts + ParseLoop(sb.Rest(), left, free).0
      invariant ParseLoop(r0, limit, memory).1 == ParseLoop(sb.Rest(), left, free).1
      decreases free
    {
      LoopTurn(sb.Rest(), left, free);
      var turn := ReadOne(sb);
      if turn.Broken? || free == 0 {
        return;
      }
      ts, free := ts + [turn.tlv], free - 1;
      if limit != -1 {
        left := left - 1;
        if left <= 0 {
          return;
        }
      }
    }
    LoopOver(sb.Rest(), left, free);
  }

  lemma ParseOneEncoded(t: Tlv, rest: Bytes)
    requires Fits(t)
    ensures ParseOne(EncodeOne(t) + rest) == More(t, rest)
  {
    var r1 := Be16(|t.value|) + t.value + rest;
    assert EncodeOne(t) + rest == Be16(t.typ) + r1;
    Take16Be(t.typ, r1);
    assert r1 == Be16(|t.value|) + (t.value + rest);
    Take16Be(|t.value|, t.value + rest);
    assert (t.value + rest)[..|t.value|] == t.value && (t.value + rest)[|t.value|..] == rest;
  }

  /** Parsing as many TLVs as were rendered gives them back and stops right behind them. */
  lemma {:induction false} ParseEncoded(ts: seq<Tlv>, rest: Bytes)
    requires AllFit(ts)
    ensures ParseUpTo(Encode(ts) + rest, |ts|) == (ts, rest)
    decreases |ts|
  {
    if ts == [] {
      assert Encode(ts) + rest == rest;
    } else {
      hide ParseOne, EncodeOne;
      var tail := Encode(ts[1..]) + rest;
      assert Encode(ts) + rest == EncodeOne(ts[0]) + tail;
      ParseOneEncoded(ts[0], tail);
      ParseEncoded(ts[1..], rest);
      assert [ts[0]] + ts[1..] == ts;
    }
  }

  /** The whole rendered list parses, without a limit, to itself. */
  lemma {:induction false} ParseInvertsEncode(ts: seq<Tlv>)
    requires AllFit(ts)
    ensures Ends(Encode(ts)) && Parse(Encode(ts)) == (ts, [])
    decreases |ts|
  {
    hide ParseOne;
    if ts != [] {
      var tail := Encode(ts[1..]);
      ParseInvertsEncode(ts[1..]);
      ParseOneEncoded(ts[0], tail);
      EndsBound(tail);
      EnoughTurns(tail, |tail|, |Encode(ts)| - 1);
      assert [ts[0]] + ts[1..] == ts;
    }
  }

  /** A list that completes arrives: whoever parses what was added gets the list. */
  lemma RenderedArrives(o: Out, ts: seq<Tlv>)
    requires o.Valid() && AllFit(ts) && !o.overrun && Completes(|o.written|, o.cap, o.grow, Lens(ts))
    ensures var sent := Render(o, ts).written;
            |o.written| <= |sent| && Ends(sent[|o.written|..]) && Parse(sent[|o.written|..]) == (ts, [])
  {
    hide Render, Encode, Completes, Parse, Ends;
    RenderIff(o, ts);
    assert Render(o, ts).written[|o.written|..] == Encode(ts);
    ParseInvertsEncode(ts);
  }

  /** Below SAFE whoever parses what was added gets the list if it completes, and a shorter one if not. */
  lemma PrefixArrives(o: Out, ts: seq<Tlv>)
    requires o.Valid() && AllFit(ts) && !o.overrun && o.grow && |o.written| + |Encode(ts)| <= SAFE
    ensures var sent := Render(o, ts).written;
            && |o.written| <= |sent| && Ends(sent[|o.written|..])
            && Parse(sent[|o.written|..]).0 <= ts
            && (Parse(sent[|o.written|..]).0 == ts <==> Completes(|o.written|, o.cap, true, Lens(ts)))
  {
    hide Render, Encode, Completes, Parse, Ends;
    var k := RenderPrefix(o, ts);
    assert AllFit(ts[..k]);
    assert Render(o, ts).written[|o.written|..] == Encode(ts[..k]);
    ParseInvertsEncode(ts[..k]);
  }

  /** Whatever was parsed can be rendered again. */
  lemma {:induction false} ParseFits(r: Bytes, n: nat)
    ensures AllFit(ParseUpTo(r, n).0)
    decreases n
  {
    if n > 0 && r != [] && ParseOne(r).More? {
      ParseFits(ParseOne(r).rest, n - 1);
    }
  }

  /** A parse never makes more of its input than it is, up to one length field that it may make up at the end. */
  lemma {:induction false} ParsedSize(r: Bytes, n: nat)
    requires EndsWithin(r, n)
    ensures var ts := ParseUpTo(r, n).0;
            AllFit(ts) && |Encode(ts)| <= |r| + 2 && (ts != [] && ts[|ts| - 1].value != [] ==> |Encode(ts)| <= |r|)
    decreases n
  {
    hide Num16, Encode, EncodeOne;
    ParseFits(r, n);
    EncodeTurn(ParseUpTo(r, n).0);
    if r != [] && ParseOne(r).More? {
      EndsWithinEnds(r, n);
      var rest := ParseOne(r).rest;
      ParsedSize(rest, n - 1);
      var ts := ParseUpTo(rest, n - 1).0;
      assert ([ParseOne(r).tlv] + ts)[1..] == ts;
      EncodeTurn(ts);
      if |r| == 2 {
        assert ParseUpTo([], n - 1).0 == [];
      }
    }
  }

  // ---- What arrives of a list that is not rendered completely

  /** The bytes that rendering adds. */
  function Added(o: Out, ts: seq<Tlv>): (s: Bytes)
    requires o.Valid() && AllFit(ts)
    ensures Render(o, ts).written == o.written + s
  {
    RenderAppends(o, ts);
    Render(o, ts).written[|o.written|..]
  }

  /**
   From the lengths alone: the list completes, or all that is missing is the length field of an
   empty value at its end, which the parser makes up.
   */
  predicate Arrives(pos: nat, cap: nat, grow: bool, lens: seq<nat>)
    decreases |lens|
  {
    lens == [] || (
      && pos < cap
      && var g := Grown(pos, cap, grow, lens[0]);
         if g.Some? then Arrives(pos + 4 + lens[0], g.value, grow, lens[1..])
         else
           && lens == [0] && Grow(pos, cap, grow, 2).Fitted?
           && Grow(pos + 2, Grow(pos, cap, grow, 2).cap, grow, 2).Refused?)
  }

  lemma ArrivesTurn(pos: nat, cap: nat, grow: bool, ts: seq<Tlv>)
    ensures ts == [] ==> Arrives(pos, cap, grow, Lens(ts))
    ensures ts != [] ==>
      var g := Grown(pos, cap, grow, |ts[0].value|);
      Arrives(pos, cap, grow, Lens(ts)) <==>
        && pos < cap
        && if g.Some? then Arrives(pos + 4 + |ts[0].value|, g.value, grow, Lens(ts[1..]))
           else
             && |ts| == 1 && ts[0].value == [] && Grow(pos, cap, grow, 2).Fitted?
             && Grow(pos + 2, Grow(pos, cap, grow, 2).cap, grow, 2).Refused?
  {
    hide Grown, Grow;
    if ts != [] {
      assert Lens(ts)[1..] == Lens(ts[1..]);
      if |ts| > 1 {
        assert |Lens(ts[1..])| > 0;
      }
    }
  }

  /** Nothing but a missing length field at the end tells arriving from completing. */
  lemma {:induction false} CompletesArrives(pos: nat, cap: nat, grow: bool, ts: seq<Tlv>)
    ensures Completes(pos, cap, grow, Lens(ts)) ==> Arrives(pos, cap, grow, Lens(ts))
    ensures ts != [] && ts[|ts| - 1].value != [] && Arrives(pos, cap, grow, Lens(ts)) ==>
            Completes(pos, cap, grow, Lens(ts))
    decreases |ts|
  {
    hide Completes, Arrives, Lens, Grown;
    CompletesTurn(pos, cap, grow, ts);
    ArrivesTurn(pos, cap, grow, ts);
    if ts != [] {
      var g := Grown(pos, cap, grow, |ts[0].value|);
      if g.Some? {
        CompletesArrives(pos + 4 + |ts[0].value|, g.value, grow, ts[1..]);
        CompletesTurn(pos + 4 + |ts[0].value|, g.value, grow, ts[1..]);
      }
    }
  }

  lemma ParseCons(t: Tlv, rest: Bytes)
    requires Fits(t)
    ensures Ends(EncodeOne(t) + rest) <==> Ends(rest)
    ensures Ends(rest) ==> Parse(EncodeOne(t) + rest).0 == [t] + Parse(rest).0
  {
    hide ParseOne, EncodeOne;
    ParseOneEncoded(t, rest);
    EncodeOneLength(t);
    if Ends(rest) {
      var r := EncodeOne(t) + rest;
      EndsBound(rest);
      EnoughTurns(rest, |rest|, |r| - 1);
    }
  }

  /** Once two bytes find no room, only a single byte still may. */
  predicate Stuck(o: Out) {
    o.overrun || !Grow(|o.written|, o.cap, o.grow, 2).Fitted?
  }

  lemma TwoRefused(pos: nat, cap: nat, grow: bool, n: nat)
    requires pos <= cap < W16 && !Grow(pos, cap, grow, 2).Fitted?
    ensures cap <= pos + 1
    ensures Grow(pos, cap, grow, n).Fitted? <==> pos + n <= cap
  {
    if grow {
      GrowthExact(pos, cap, n);
      GrownCases(cap, 2);
    }
  }

  lemma StuckPut(o: Out, s: Bytes, bound: nat)
    requires o.Valid() && Stuck(o) && |o.written| <= bound && (o.overrun || o.cap == bound)
    ensures var o1 := Put(o, s); Stuck(o1) && |o1.written| <= bound && (o1.overrun || o1.cap == bound)
  {
    if !o.overrun {
      TwoRefused(|o.written|, o.cap, o.grow, |s|);
      hide GrownLen;
    }
  }

  lemma {:induction false} StuckRender(o: Out, ts: seq<Tlv>, bound: nat)
    requires o.Valid() && AllFit(ts) && Stuck(o) && |o.written| <= bound && (o.overrun || o.cap == bound)
    ensures |Render(o, ts).written| <= bound
    decreases |ts|
  {
    hide Put, Stuck;
    if ts != [] && o.Room() != 0 {
      var t := ts[0];
      assert Fits(t);
      StuckPut(o, Be16(t.typ), bound);
      StuckPut(Put(o, Be16(t.typ)), Be16(|t.value|), bound);
      StuckPut(Put(Put(o, Be16(t.typ)), Be16(|t.value|)), t.value, bound);
      StuckRender(RenderOne(o, t), ts[1..], bound);
    }
  }

  lemma {:induction false} OverrunStays(o: Out, ts: seq<Tlv>)
    requires o.Valid() && AllFit(ts) && o.overrun
    ensures Render(o, ts) == o
    decreases |ts|
  {
    if ts != [] && o.Room() != 0 {
      assert RenderOne(o, ts[0]) == o;
      OverrunStays(o, ts[1..]);
    }
  }

  /** The first TLV's type finds no room: not even that byte makes a TLV. */
  lemma TypeLost(o: Out, ts: seq<Tlv>)
    requires o.Valid() && AllFit(ts) && !o.overrun && !Grow(|o.written|, o.cap, o.grow, 2).Fitted?
    requires Ends(Added(o, ts))
    ensures Added(o, ts) == []
  {
    hide Render, Ends, Grow;
    TwoRefused(|o.written|, o.cap, o.grow, 2);
    StuckRender(o, ts, o.cap);
    var s := Added(o, ts);
    if |s| == 1 {
      LoneByte(s);
    }
  }

  lemma LoneByte(s: Bytes)
    requires |s| == 1
    ensures !Ends(s)
  {
  }

  /** Its length field finds no room: an empty TLV of its type is all that arrives. */
  lemma LengthLost(o: Out, ts: seq<Tlv>)
    requires o.Valid() && AllFit(ts) && !o.overrun && ts != [] && o.Room() != 0
    requires var a := Grow(|o.written|, o.cap, o.grow, 2);
             a.Fitted? && !Grow(|o.written| + 2, a.cap, o.grow, 2).Fitted?
    requires Ends(Added(o, ts))
    ensures Parse(Added(o, ts)).0 == [Tlv(ts[0].typ, [])]
  {
    hide Render, Ends, Grow, Put, Stuck, Parse;
    var t := ts[0];
    assert Fits(t);
    PutExact(o, Be16(t.typ));
    var o1 := Put(o, Be16(t.typ));
    IsStuck(o1);
    TwoRefused(|o1.written|, o1.cap, o1.grow, 2);
    StuckPut(o1, Be16(|t.value|), o1.cap);
    var o2 := Put(o1, Be16(|t.value|));
    StuckPut(o2, t.value, o1.cap);
    RenderTurn(o, ts);
    var o3 := RenderOne(o, t);
    StuckRender(o3, ts[1..], o1.cap);
    RenderAppends(o3, ts[1..]);
    PutAppends(o1, Be16(|t.value|));
    PutAppends(o2, t.value);
    var s := Added(o, ts);
    assert o1.written <= Render(o, ts).written;
    assert s[..2] == Be16(t.typ) && |s| <= 3;
    TypeOnly(s, t.typ);
  }

  lemma IsStuck(o: Out)
    requires !Grow(|o.written|, o.cap, o.grow, 2).Fitted?
    ensures Stuck(o)
  {
  }

  lemma PutAppends(o: Out, s: Bytes)
    requires o.Valid()
    ensures o.written <= Put(o, s).written
  {
    hide CanPut;
  }

  lemma TypeOnly(s: Bytes, typ: u16)
    requires 2 <= |s| <= 3 && s[..2] == Be16(typ) && Ends(s)
    ensures Parse(s).0 == [Tlv(typ, [])]
  {
    var r := s[2..];
    assert s == Be16(typ) + r;
    Take16Be(typ, r);
    assert ParseOne(s) == More(Tlv(typ, []), r);
    if |s| == 3 {
      LoneByte(r);
    }
    assert ParseUpTo(r, |s| - 1) == ([], []);
    assert [Tlv(typ, [])] + [] == [Tlv(typ, [])];
  }

  /** Its value finds no room: what arrives, if anything, is too short to make up for it. */
  lemma ValueLost(o: Out, ts: seq<Tlv>)
    requires o.Valid() && AllFit(ts) && !o.overrun && ts != [] && o.Room() != 0
    requires var a := Grow(|o.written|, o.cap, o.grow, 2);
             a.Fitted? && var b := Grow(|o.written| + 2, a.cap, o.grow, 2);
             b.Fitted? && !Grow(|o.written| + 4, b.cap, o.grow, |ts[0].value|).Fitted?
    requires Ends(Added(o, ts))
    ensures Fits(ts[0]) && Be16(ts[0].typ) + Be16(|ts[0].value|) <= Added(o, ts)
    ensures |Added(o, ts)| <= |Encode(ts)| - |ts[0].value|
    ensures |ts[0].value| <= 2 ==> Parse(Added(o, ts)).0 == []
  {
    hide Render, Ends, Grow, Put, Stuck, Parse, Encode, EncodeOne;
    var t := ts[0];
    assert Fits(t);
    PutExact(o, Be16(t.typ));
    var o1 := Put(o, Be16(t.typ));
    PutExact(o1, Be16(|t.value|));
    var o2 := Put(o1, Be16(|t.value|));
    PutExact(o2, t.value);
    assert CanPut(o2, |t.value|) == false;
    RenderTurn(o, ts);
    var o3 := RenderOne(o, t);
    assert o3.written == o2.written;
    RenderAppends(o3, ts[1..]);
    var s := Added(o, ts);
    assert o2.written == o.written + (Be16(t.typ) + Be16(|t.value|));
    assert o2.written <= Render(o, ts).written;
    assert s[..4] == Be16(t.typ) + Be16(|t.value|);
    if |t.value| <= 2 {
      SmallRefused(|o2.written|, o2.cap, o2.grow, |t.value|);
      IsStuck(o2);
      StuckPut(o2, t.value, o2.cap);
      StuckRender(o3, ts[1..], o2.cap);
      HeaderOnly(s, t);
    }
  }

  lemma SmallRefused(pos: nat, cap: nat, grow: bool, n: nat)
    requires pos <= cap < W16 && n <= 2 && !Grow(pos, cap, grow, n).Fitted?
    ensures !Grow(pos, cap, grow, 2).Fitted? && pos + n > cap
  {
  }

  lemma HeaderOnly(s: Bytes, t: Tlv)
    requires Fits(t) && 4 <= |s| < 4 + |t.value| && s[..4] == Be16(t.typ) + Be16(|t.value|)
    ensures Ends(s) && Parse(s).0 == []
  {
    var r := s[4..];
    assert s == Be16(t.typ) + (Be16(|t.value|) + r);
    Take16Be(t.typ, Be16(|t.value|) + r);
    Take16Be(|t.value|, r);
    assert ParseOne(s) == Broken(r);
  }

  lemma RenderStops(o: Out, ts: seq<Tlv>)
    requires o.Valid() && AllFit(ts) && (ts == [] || o.Room() == 0)
    ensures Added(o, ts) == [] && Ends([]) && Parse([]).0 == []
  {
  }

  /** A first TLV that is rendered is parsed, in front of what is added behind it. */
  lemma AddedCons(o: Out, ts: seq<Tlv>)
    requires o.Valid() && AllFit(ts) && !o.overrun && ts != [] && o.Room() != 0
    requires Grown(|o.written|, o.cap, o.grow, |ts[0].value|).Some?
    ensures var o1 := Out(o.written + EncodeOne(ts[0]),
                          Grown(|o.written|, o.cap, o.grow, |ts[0].value|).value, o.grow, false);
            && o1 == RenderOne(o, ts[0]) && Render(o, ts) == Render(o1, ts[1..])
            && Added(o, ts) == EncodeOne(ts[0]) + Added(o1, ts[1..])
            && (Ends(Added(o, ts)) <==> Ends(Added(o1, ts[1..])))
            && (Ends(Added(o, ts)) ==> Parse(Added(o, ts)).0 == [ts[0]] + Parse(Added(o1, ts[1..])).0)
  {
    hide Render, Ends, Parse, Grown, EncodeOne, RenderOne;
    RenderOneExact(o, ts[0]);
    RenderTurn(o, ts);
    var o1 := RenderOne(o, ts[0]);
    var rest := Added(o1, ts[1..]);
    assert o.written + Added(o, ts) == o.written + (EncodeOne(ts[0]) + rest);
    assert (o.written + Added(o, ts))[|o.written|..] == Added(o, ts);
    assert (o.written + (EncodeOne(ts[0]) + rest))[|o.written|..] == EncodeOne(ts[0]) + rest;
    ParseCons(ts[0], rest);
  }

  /** What is not rendered completely is parsed to something shorter, unless it arrives all the same. */
  lemma {:induction false} LostIsShorter(o: Out, ts: seq<Tlv>)
    requires o.Valid() && AllFit(ts) && !o.overrun && !Render(o, ts).overrun && Ends(Added(o, ts))
    ensures var p := Parse(Added(o, ts)).0;
            && AllFit(p)
            && (Arrives(|o.written|, o.cap, o.grow, Lens(ts)) ==> p == ts)
            && (!Arrives(|o.written|, o.cap, o.grow, Lens(ts)) ==> |Encode(p)| < |Encode(ts)|)
    decreases |ts|
  {
    hide Render, Ends, Parse, Grown, EncodeOne, RenderOne, Encode, Arrives, Lens, Grow;
    ArrivesTurn(|o.written|, o.cap, o.grow, ts);
    EncodeTurn(ts);
    EncodeTurn([]);
    if ts == [] || o.Room() == 0 {
      RenderStops(o, ts);
    } else if Grown(|o.written|, o.cap, o.grow, |ts[0].value|).Some? {
      AddedCons(o, ts);
      EncodeOneLength(ts[0]);
      var o1 := RenderOne(o, ts[0]);
      LostIsShorter(o1, ts[1..]);
      var p := Parse(Added(o1, ts[1..])).0;
      assert ([ts[0]] + p)[1..] == p;
      EncodeTurn([ts[0]] + p);
    } else {
      HeadLost(o, ts);
    }
  }

  lemma EncodeTurn(ts: seq<Tlv>)
    requires AllFit(ts)
    ensures ts == [] ==> Encode(ts) == []
    ensures ts != [] ==> |Encode(ts)| == 4 + |ts[0].value| + |Encode(ts[1..])|
  {
  }

  /** The list is one empty TLV, whose type is put and whose length field is refused. */
  predicate LastIsEmpty(o: Out, ts: seq<Tlv>) {
    && |ts| == 1 && ts[0].value == [] && Grow(|o.written|, o.cap, o.grow, 2).Fitted?
    && Grow(|o.written| + 2, Grow(|o.written|, o.cap, o.grow, 2).cap, o.grow, 2).Refused?
  }

  lemma HeadLost(o: Out, ts: seq<Tlv>)
    requires o.Valid() && AllFit(ts) && !o.overrun && !Render(o, ts).overrun && Ends(Added(o, ts))
    requires ts != [] && o.Room() != 0 && Grown(|o.written|, o.cap, o.grow, |ts[0].value|).None?
    ensures var p := Parse(Added(o, ts)).0;
            && AllFit(p)
            && (LastIsEmpty(o, ts) ==> p == ts)
            && (!LastIsEmpty(o, ts) ==> |Encode(p)| < |Encode(ts)|)
  {
    hide Render, Ends, ParseUpTo, EndsWithin, EncodeOne, RenderOne, Encode, Grow;
    var s := Added(o, ts);
    EncodeTurn(ts);
    EncodeTurn([]);
    EndsBound(s);
    ParsedSize(s, |s|);
    var a := Grow(|o.written|, o.cap, o.grow, 2);
    if !a.Fitted? {
      TypeLost(o, ts);
      RenderStops(o, []);
    } else if !Grow(|o.written| + 2, a.cap, o.grow, 2).Fitted? {
      LengthLost(o, ts);
      EncodeTurn([Tlv(ts[0].typ, [])]);
      assert [Tlv(ts[0].typ, [])][1..] == [];
      if |ts| > 1 {
        EncodeTurn(ts[1..]);
      } else {
        assert ts == [ts[0]];
        LengthNotOverrun(o, ts);
      }
    } else {
      ValueLost(o, ts);
      FittedHolds(|o.written|, o.cap, o.grow, 2);
      FittedHolds(|o.written| + 2, a.cap, o.grow, 2);
      EmptyFits(|o.written| + 4, Grow(|o.written| + 2, a.cap, o.grow, 2).cap, o.grow);
    }
  }

  lemma EmptyFits(pos: nat, cap: nat, grow: bool)
    ensures pos <= cap ==> Grow(pos, cap, grow, 0).Fitted?
  {
  }

  /** If writing the length field had overrun the buffer, rendering would have. */
  lemma LengthNotOverrun(o: Out, ts: seq<Tlv>)
    requires o.Valid() && AllFit(ts) && !o.overrun && !Render(o, ts).overrun && ts != [] && o.Room() != 0
    requires Grow(|o.written|, o.cap, o.grow, 2).Fitted?
    ensures !Grow(|o.written| + 2, Grow(|o.written|, o.cap, o.grow, 2).cap, o.grow, 2).Overrun?
  {
    hide Render, Grow;
    var t := ts[0];
    assert Fits(t);
    RenderTurn(o, ts);
    PutExact(o, Be16(t.typ));
    var o1 := Put(o, Be16(t.typ));
    if Put(o1, Be16(|t.value|)).overrun {
      OverrunStays(RenderOne(o, t), ts[1..]);
    }
  }

  lemma {:induction false} ArrivesParses(o: Out, ts: seq<Tlv>)
    requires o.Valid() && AllFit(ts) && !o.overrun && Arrives(|o.written|, o.cap, o.grow, Lens(ts))
    ensures !Render(o, ts).overrun && Ends(Added(o, ts)) && Parse(Added(o, ts)).0 == ts
    decreases |ts|
  {
    hide Render, Ends, Parse, Grown, EncodeOne, RenderOne, Arrives, Lens, Grow;
    ArrivesTurn(|o.written|, o.cap, o.grow, ts);
    RenderTurn(o, ts);
    if ts == [] {
      RenderStops(o, ts);
    } else if Grown(|o.written|, o.cap, o.grow, |ts[0].value|).Some? {
      AddedCons(o, ts);
      EncodeOneLength(ts[0]);
      ArrivesParses(RenderOne(o, ts[0]), ts[1..]);
    } else {
      LastArrives(o, ts[0]);
      assert ts == [ts[0]];
    }
  }

  lemma LastArrives(o: Out, t: Tlv)
    requires o.Valid() && !o.overrun && t.value == [] && o.Room() != 0
    requires var a := Grow(|o.written|, o.cap, o.grow, 2);
             a.Fitted? && Grow(|o.written| + 2, a.cap, o.grow, 2).Refused?
    ensures var o1 := Render(o, [t]); !o1.overrun && Ends(Added(o, [t])) && Parse(Added(o, [t])).0 == [t]
  {
    hide Ends, Parse, GrownLen;
    PutExact(o, Be16(t.typ));
    var o1 := Put(o, Be16(t.typ));
    assert Put(o1, Be16(0)) == o1 && Put(o1, []) == o1;
    RenderTurn(o, [t]);
    assert [t][1..] == [];
    RenderTurn(o1, []);
    assert Added(o, [t]) == Be16(t.typ);
    TypeEnds(Be16(t.typ));
    TypeOnly(Be16(t.typ), t.typ);
  }

  lemma TypeEnds(s: Bytes)
    requires |s| == 2
    ensures Ends(s)
  {
    assert ParseOne(s).More? ==> ParseOne(s).rest == [];
  }

  /** On any buffer and for any sizes, whoever parses what was added gets the list exactly when it arrives. */
  lemma ArrivesIff(o: Out, ts: seq<Tlv>)
    requires o.Valid() && AllFit(ts) && !o.overrun
    ensures !Render(o, ts).overrun && Ends(Added(o, ts)) && Parse(Added(o, ts)).0 == ts
            <==> Arrives(|o.written|, o.cap, o.grow, Lens(ts))
  {
    hide Render, Ends, Parse, Arrives, Encode, Lens;
    if Arrives(|o.written|, o.cap, o.grow, Lens(ts)) {
      ArrivesParses(o, ts);
    } else if !Render(o, ts).overrun && Ends(Added(o, ts)) {
      LostIsShorter(o, ts);
    }
  }

  // ---- List operations

  function FirstOf(ts: seq<Tlv>, typ: u16): Option<Tlv> {
    if ts == [] then None
    else if ts[0].typ == typ then Some(ts[0])
    else FirstOf(ts[1..], typ)
  }

  function WithoutFirst(ts: seq<Tlv>, typ: u16): (r: seq<Tlv>)
    ensures AllFit(ts) ==> AllFit(r)
  {
    if ts == [] then []
    else if ts[0].typ == typ then ts[1..]
    else [ts[0]] + WithoutFirst(ts[1..], typ)
  }

  /** The first TLV of a type is taken out; the others stay, in order. */
  lemma {:induction false} RemoveSplits(ts: seq<Tlv>, typ: u16) returns (i: nat)
    ensures FirstOf(ts, typ).None? ==> WithoutFirst(ts, typ) == ts && forall t <- ts :: t.typ != typ
    ensures FirstOf(ts, typ).Some? ==>
      && i < |ts| && ts[i] == FirstOf(ts, typ).value && ts[i].typ == typ
      && WithoutFirst(ts, typ) == ts[..i] + ts[i + 1..]
      && forall t <- ts[..i] :: t.typ != typ
  {
    i := 0;
    if ts != [] && ts[0].typ != typ {
      var j := RemoveSplits(ts[1..], typ);
      i := j + 1;
      if FirstOf(ts, typ).Some? {
        assert [ts[0]] + ts[1..][..j] == ts[..i] && ts[1..][j + 1..] == ts[i + 1..];
      }
    }
  }

  lemma RemoveTurn(ts: seq<Tlv>, typ: u16)
    ensures ts == [] ==> FirstOf(ts, typ) == None && WithoutFirst(ts, typ) == []
    ensures ts != [] && ts[0].typ == typ ==> FirstOf(ts, typ) == Some(ts[0]) && WithoutFirst(ts, typ) == ts[1..]
    ensures ts != [] && ts[0].typ != typ ==>
      FirstOf(ts, typ) == FirstOf(ts[1..], typ) && WithoutFirst(ts, typ) == [ts[0]] + WithoutFirst(ts[1..], typ)
  {
  }

  /** naf_tlv_remove */
  method Remove(ts: seq<Tlv>, typ: u16) returns (removed: Option<Tlv>, rest: seq<Tlv>)
    ensures removed == FirstOf(ts, typ) && rest == WithoutFirst(ts, typ)
  {
    hide FirstOf, WithoutFirst;
    RemoveTurn([], typ);
    for i := 0 to |ts|
      invariant FirstOf(ts[i..], typ) == FirstOf(ts, typ)
      invariant ts[..i] + WithoutFirst(ts[i..], typ) == WithoutFirst(ts, typ)
    {
      RemoveTurn(ts[i..], typ);
      assert ts[i..][1..] == ts[i + 1..];
      if ts[i].typ == typ {
        return Some(ts[i]), ts[..i] + ts[i + 1..];
      }
      assert ts[..i + 1] == ts[..i] + [ts[i]];
    }
    assert ts[|ts|..] == [] && ts[..|ts|] + [] == ts;
    return None, ts;
  }

  /**
   naf_tlv_addtlv: a list rendered into the value of one more TLV.  The size is cut to 16 bits;
   the nested list is recovered exactly when it was not too long for that.
   */
  method AddTlv(head: seq<Tlv>, typ: u16, inner: seq<Tlv>) returns (ts: seq<Tlv>)
    requires AllFit(inner)
    ensures |ts| == |head| + 1 && ts[..|head|] == head && ts[|head|].typ == typ
    ensures |ts[|head|].value| == |Encode(inner)| % W16
    ensures Render(Out([], |Encode(inner)| % W16, false, false), inner).written <= ts[|head|].value
    ensures |Encode(inner)| < W16 ==> ts[|head|].value == Encode(inner)
    ensures Ends(ts[|head|].value) && Parse(ts[|head|].value).0 == inner <==> |Encode(inner)| < W16
  {
    hide Render, Encode, Ends, EndsWithin, ParseUpTo;
    var n := RenderedSize(inner);
    var buf := new byte[n % W16];
    var sb := new Sbuf.Sbuf.Wrap(buf);
    ghost var o := sb.View();
    assert o == Out([], n % W16, false, false);
    var _ := RenderTo(inner, sb);
    ghost var v := buf[..];
    assert Render(o, inner).written == v[..sb.pos];
    if n < W16 {
      RenderComplete(o, inner);
      ParseInvertsEncode(inner);
      assert v == Encode(inner);
    } else if Ends(v) {
      EndsBound(v);
      ParsedSize(v, |v|);
    }
    ts := head + [Tlv(typ, buf[..])];
  }
}
