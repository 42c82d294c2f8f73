/** Instant-message text: extraction, re-rendering and relaying (timps/oscar/im.c). */
module Icbm {
  import opened Basics
  import opened Wire
  import opened Tlv
  import Flap
  import Sbuf

  /** Uninitialised memory: what malloc returned when this much was left to read, at this offset. */
  type Junk = (nat, nat) -> byte

  // ---- 16-bit sections become HTML

  function HexDigit(d: nat): byte
    requires d < 16
  {
    if d < 10 then 48 + d else 87 + d
  }

  /** A character outside ASCII is written as `&#nnnn;`. */
  function Entity(c: u16): (s: Bytes)
    ensures |s| == 7
  {
    [38, 35, HexDigit(c / 0x1000), HexDigit(c / 0x100 % 16), HexDigit(c / 16 % 16), HexDigit(c % 16), 59]
  }

  function Glyph(c: u16): Bytes {
    if c < 128 then [c] else Entity(c)
  }

  function Translate(s: Bytes): Bytes
    requires |s| % 2 == 0
  {
    if s == [] then [] else Glyph(Num16(s)) + Translate(s[2..])
  }

  // ---- Sections

  /** The text so far, absent while no section has started it, and the sections that cannot be shown. */
  datatype Extracted = Failed | Got(text: Option<Bytes>, unrepresentable: nat)

  function Sofar(text: Option<Bytes>): Bytes {
    if text.Some? then text.value else []
  }

  /** A section longer than the input is not copied: the terminator stays, the rest is whatever was there. */
  function Uncopied(junk: Junk, left: nat, offset: nat, n: nat): (s: Bytes)
    ensures |s| == n
  {
    seq(n, (i: nat) => if i == 0 then 0 else junk(left, offset + i))
  }

  /** The text one section adds, or None when it has a size or encoding that cannot be shown. */
  datatype Section = Bad | Unshown(rest: Bytes) | Shown(text: Bytes, rest: Bytes)

  /** A section body of `n` bytes in encoding `f1`, at `r`, behind `offset` bytes of text. */
  function Body(r: Bytes, f1: u16, n: nat, offset: nat, junk: Junk): (b: Section)
    ensures b.Bad? || |b.rest| <= |r|
  {
    if f1 == 0 || f1 == 3 then
      if n <= |r| then Shown(r[..n], r[n..]) else Shown(Uncopied(junk, |r|, offset, n), r)
    else if f1 == 2 && n % 2 == 0 then
      if |r| < n then Bad else Shown(Translate(r[..n]), r[n..])
    else
      Unshown(if n <= |r| then r[n..] else r)
  }

  /** The sections at `r`, continuing a text. */
  function Sections(r: Bytes, text: Option<Bytes>, u: nat, junk: Junk): Extracted
    decreases |r|
  {
    if r == [] then Got(text, u)
    else if |r| < 2 || r[0] != 1 || r[1] != 1 then Failed
    else
      var (plen, r1) := Take16(r[2..]);
      if plen < 4 then Sections(r1, text, u, junk)
      else
        var (f1, r2) := Take16(r1);
        var (_, r3) := Take16(r2);
        match Body(r3, f1, plen - 4, |Sofar(text)|, junk)
        case Bad => Failed
        case Unshown(rest) => Sections(rest, text, u + 1, junk)
        case Shown(s, rest) => Sections(rest, Some(Sofar(text) + s), u, junk)
  }

  /** toscar_icbm__extractmsgtext on the value of a message TLV that has one */
  function Extract(v: Bytes, junk: Junk): Extracted {
    if |v| < 2 || v[0] != 5 || v[1] != 1 then Failed
    else
      var (featlen, r) := Take16(v[2..]);
      Sections(if featlen <= |r| then r[featlen..] else r, None, 0, junk)
  }

  // ---- Uninitialised memory never shows

  /** The same C string, and the same string outright while it has no NUL. */
  predicate SameStr(s: Bytes, t: Bytes) {
    |s| == |t| && (s == t || (!NulFree(s) && !NulFree(t) && CStr(s) == CStr(t)))
  }

  predicate SameText(s: Option<Bytes>, t: Option<Bytes>) {
    s.Some? == t.Some? && SameStr(Sofar(s), Sofar(t))
  }

  lemma SameStrAppend(s: Bytes, t: Bytes, x: Bytes)
    requires SameStr(s, t)
    ensures SameStr(s + x, t + x)
  {
    CStrAppend(s, x);
    CStrAppend(t, x);
  }

  lemma SameStrUncopied(s: Bytes, t: Bytes, x: Bytes, y: Bytes)
    requires SameStr(s, t) && |x| == |y| > 0 && x[0] == y[0] == 0
    ensures SameStr(s + x, t + y)
  {
    CStrAppend(s, x);
    CStrAppend(t, y);
    assert (s + x)[|s|] == 0 && (t + y)[|t|] == 0;
  }

  lemma BodySame(r: Bytes, f1: u16, n: nat, s: Bytes, t: Bytes, j: Junk, k: Junk)
    requires SameStr(s, t)
    ensures var (b, c) := (Body(r, f1, n, |s|, j), Body(r, f1, n, |t|, k));
            && (b.Bad? <==> c.Bad?) && (b.Unshown? ==> c == b)
            && (b.Shown? ==> c.Shown? && c.rest == b.rest && SameStr(s + b.text, t + c.text))
  {
    hide Translate;
    var (b, c) := (Body(r, f1, n, |s|, j), Body(r, f1, n, |t|, k));
    if b.Shown? {
      if b == c {
        SameStrAppend(s, t, b.text);
      } else {
        SameStrUncopied(s, t, b.text, c.text);
      }
    }
  }

  lemma {:induction false} SectionsSame(r: Bytes, s: Option<Bytes>, t: Option<Bytes>, u: nat, j: Junk, k: Junk)
    requires SameText(s, t)
    ensures Same(Sections(r, s, u, j), Sections(r, t, u, k))
    decreases |r|
  {
    hide SameStr, Body, Num16;
    if |r| >= 2 && r[0] == 1 && r[1] == 1 {
      var (plen, r1) := Take16(r[2..]);
      if plen < 4 {
        SectionsSame(r1, s, t, u, j, k);
      } else {
        var (f1, r2) := Take16(r1);
        var (_, r3) := Take16(r2);
        var n := plen - 4;
        var b := Body(r3, f1, n, |Sofar(s)|, j);
        var c := Body(r3, f1, n, |Sofar(t)|, k);
        BodySame(r3, f1, n, Sofar(s), Sofar(t), j, k);
        if b.Unshown? {
          SectionsSame(b.rest, s, t, u + 1, j, k);
        } else if b.Shown? {
          SectionsSame(b.rest, Some(Sofar(s) + b.text), Some(Sofar(t) + c.text), u, j, k);
        }
      }
    }
  }

  /** The same failure, or the same C string and count. */
  predicate Same(a: Extracted, b: Extracted) {
    (a.Failed? && b.Failed?)
    || (a.Got? && b.Got? && a.unrepresentable == b.unrepresentable && SameText(a.text, b.text))
  }

  /** The C string extracted from a value does not depend on uninitialised memory. */
  lemma ExtractIgnoresJunk(v: Bytes, j: Junk, k: Junk)
    ensures Same(Extract(v, j), Extract(v, k))
  {
    if |v| >= 2 && v[0] == 5 && v[1] == 1 {
      var (featlen, r) := Take16(v[2..]);
      SectionsSame(if featlen <= |r| then r[featlen..] else r, None, None, 0, j, k);
    }
  }

  // ---- A message TLV without a value.  Its value pointer is NULL, for which naf_sbuf_init
  // allocates a buffer of 512 bytes that can grow; the loop then reads that buffer.

  /** What malloc returned for it, and what it returns behind that when the buffer grows. */
  type Heap = nat -> byte

  function Window(heap: Heap, pos: nat, len: nat): (r: Bytes)
    ensures |r| == if pos <= len then len - pos else 0
  {
    seq(if pos <= len then len - pos else 0, i requires 0 <= i => heap(pos + i))
  }

  datatype Cell = Cell(pos: nat, len: nat, text: Option<Bytes>, u: nat)

  /** The loop is over, has copied past a buffer whose length had wrapped around, or goes on. */
  datatype Outcome = Ended(x: Extracted) | Overran | Running(cell: Cell)

  /** naf_sbuf_advance on a growing buffer: cursor and length have 16 bits, and a refused growth moves nothing */
  function Advance(c: Cell, n: u16): Outcome {
    if c.pos + n <= c.len then Running(c.(pos := c.pos + n))
    else if GrownLen(c.len, n) > MAXLEN then Running(c)
    else if GrownLen(c.len, n) < c.len then Overran
    else Running(c.(pos := (c.pos + n) % W16, len := GrownLen(c.len, n)))
  }

  /** One turn of the loop, with `r` left to read */
  function Turned(heap: Heap, junk: Junk, c: Cell): Outcome {
    var r := Window(heap, c.pos, c.len);
    if r == [] then Ended(Got(c.text, c.u))
    else if |r| < 2 || r[0] != 1 || r[1] != 1 then Ended(Failed)
    else
      var (plen, r1) := Take16(r[2..]);
      if plen < 4 then Running(c.(pos := c.len - |r1|))
      else
        var (f1, r2) := Take16(r1);
        var (_, r3) := Take16(r2);
        match Body(r3, f1, plen - 4, |Sofar(c.text)|, junk)
        case Bad => Ended(Failed)
        case Shown(s, rest) => Running(Cell(c.len - |rest|, c.len, Some(Sofar(c.text) + s), c.u))
        case Unshown(_) => Advance(c.(pos := c.len - |r3|, u := c.u + 1), plen - 4)
  }

  /** At most `turns` turns */
  function Turns(heap: Heap, junk: Junk, c: Cell, turns: nat): Outcome
    decreases turns
  {
    if turns == 0 then Running(c) else
    match Turned(heap, junk, c)
    case Running(c1) => Turns(heap, junk, c1, turns - 1)
    case other => other
  }

  /** toscar_icbm__extractmsgtext, followed for `turns` turns of its loop where it reads uninitialised memory */
  function Result(v: Bytes, heap: Heap, junk: Junk, turns: nat): Outcome {
    if v != [] then Ended(Extract(v, junk))
    else if heap(0) != 5 || heap(1) != 1 then Ended(Failed)
    else
      match Advance(Cell(4, Sbuf.DEFAULT_LEN, None, 0), heap(2) as int * 0x100 + heap(3))
      case Running(c) => Turns(heap, junk, c, turns)
      case other => other
  }

  /** A heap that holds `s` at `at` behind the given start. */
  function HeapWith(start: Bytes, at: nat, s: Bytes): Heap {
    (i: nat) => if i < |start| then start[i] else if at <= i < at + |s| then s[i - at] else 0
  }

  /** Memory from which an empty message TLV gets the text `x`. */
  function Showing(x: byte): Heap {
    HeapWith([5, 1, 1, 0xf3], 503, [1, 1, 0, 5, 0, 0, 0, 0, x])
  }

  lemma EmptyShowsMemory(x: byte, junk: Junk, turns: nat)
    requires turns >= 2
    ensures Result([], Showing(x), junk, turns) == Ended(Got(Some([x]), 0))
  {
    var h := Showing(x);
    var c := Cell(503, 512, None, 0);
    var c1 := Cell(512, 512, Some([x]), 0);
    assert Advance(Cell(4, 512, None, 0), 499) == Running(c);
    ShowingTurn(x, junk);
    assert Turned(h, junk, c1) == Ended(Got(Some([x]), 0));
    hide Turned, Window, Advance;
    assert Turns(h, junk, c, turns) == Turns(h, junk, c1, turns - 1) == Ended(Got(Some([x]), 0));
  }

  lemma ShowingTurn(x: byte, junk: Junk)
    ensures Turned(Showing(x), junk, Cell(503, 512, None, 0)) == Running(Cell(512, 512, Some([x]), 0))
  {
    hide Advance, GrownLen;
    var r := Window(Showing(x), 503, 512);
    assert r == [1, 1, 0, 5, 0, 0, 0, 0, x];
    assert Take16(r[2..]) == (5, [0, 0, 0, 0, x]) by { assert r[2..] == [0, 5, 0, 0, 0, 0, x]; }
    assert Take16([0, 0, 0, 0, x]) == (0, [0, 0, x]) by { assert [0, 0, 0, 0, x][2..] == [0, 0, x]; }
    assert Take16([0, 0, x]) == (0, [x]) by { assert [0, 0, x][2..] == [x]; }
    assert Body([x], 0, 1, 0, junk) == Shown([x], []) by { assert [x][..1] == [x] && [x][1..] == []; }
    assert [] + [x] == [x];
  }

  /** Memory on which the loop never ends: a section whose length takes the cursor all the way around. */
  const CIRCLING: Heap := HeapWith([5, 1, 0, 0, 1, 1, 0xff, 0xfc, 0, 5, 0, 0], 12, [])

  lemma CircleAdvances(u: nat)
    ensures Advance(Cell(12, 512, None, u), 0xfff8) == Running(Cell(4, 512, None, u))
  {
    assert GrownLen(512, 0xfff8) == 512;
  }

  lemma CircleTurn(junk: Junk, u: nat)
    ensures Turned(CIRCLING, junk, Cell(4, 512, None, u)) == Running(Cell(4, 512, None, u + 1))
  {
    hide Advance, GrownLen;
    var r := Window(CIRCLING, 4, 512);
    assert r[0] == 1 && r[1] == 1 && r[2] == 0xff && r[3] == 0xfc;
    assert r[4] == 0 && r[5] == 5 && r[6] == 0 && r[7] == 0;
    assert Take16(r[2..]) == (0xfffc, r[4..]) by { assert r[2..][2..] == r[4..]; }
    assert Take16(r[4..]) == (5, r[6..]) by { assert r[4..][2..] == r[6..]; }
    assert Take16(r[6..]) == (0, r[8..]) by { assert r[6..][2..] == r[8..]; }
    CircleAdvances(u + 1);
  }

  lemma {:induction false} Circles(junk: Junk, u: nat, turns: nat)
    ensures Turns(CIRCLING, junk, Cell(4, 512, None, u), turns).Running?
    decreases turns
  {
    hide Turned;
    if turns > 0 {
      CircleTurn(junk, u);
      Circles(junk, u + 1, turns - 1);
    }
  }

  lemma EmptyNeverEnds(junk: Junk, turns: nat)
    ensures Result([], CIRCLING, junk, turns).Running?
  {
    Circles(junk, 0, turns);
  }

  /** Whatever memory held: an extraction that ends ends with the same C string and count. */
  ghost predicate Determined(v: Bytes) {
    forall h: Heap, j: Junk, n: nat, h2: Heap, j2: Junk, n2: nat ::
      Result(v, h, j, n).Ended? && Result(v, h2, j2, n2).Ended? ==> Same(Result(v, h, j, n).x, Result(v, h2, j2, n2).x)
  }

  ghost predicate Ending(v: Bytes, heap: Heap, junk: Junk) {
    exists n: nat :: Result(v, heap, junk, n).Ended?
  }

  /** The extraction ends, and independently of uninitialised memory, exactly when the message TLV has a value. */
  lemma DeterminedIff(v: Bytes)
    ensures Determined(v) <==> v != []
    ensures (forall h: Heap, j: Junk :: Ending(v, h, j)) <==> v != []
  {
    hide Extract, Turns;
    if v == [] {
      var j: Junk := (_, _) => 0;
      EmptyShowsMemory(1, j, 2);
      EmptyShowsMemory(2, j, 2);
      assert !Same(Got(Some([1]), 0), Got(Some([2]), 0)) by { assert [1][0] != [2][0]; assert NulFree([1]); }
      assert Result(v, Showing(1), j, 2) == Ended(Got(Some([1]), 0));
      assert Result(v, Showing(2), j, 2) == Ended(Got(Some([2]), 0));
      forall n: nat ensures !Result(v, CIRCLING, j, n).Ended? {
        EmptyNeverEnds(j, n);
      }
      assert !Ending(v, CIRCLING, j);
    } else {
      forall h: Heap, j: Junk ensures Ending(v, h, j) {
        assert Result(v, h, j, 0).Ended?;
      }
      forall h: Heap, j: Junk, n: nat, h2: Heap, j2: Junk, n2: nat
        ensures Same(Result(v, h, j, n).x, Result(v, h2, j2, n2).x)
      {
        ExtractIgnoresJunk(v, j, j2);
      }
    }
  }

  // ---- Well-formed messages

  /** A section as clients send it. */
  datatype Part = Part(f1: u16, f2: u16, body: Bytes)

  predicate PartFits(p: Part) {
    |p.body| + 4 < 0x1_0000
  }

  function PartBytes(p: Part): Bytes
    requires PartFits(p)
  {
    [1, 1] + Be16(|p.body| + 4) + Be16(p.f1) + Be16(p.f2) + p.body
  }

  function PartsBytes(ps: seq<Part>): Bytes
    requires forall p <- ps :: PartFits(p)
  {
    if ps == [] then [] else PartBytes(ps[0]) + PartsBytes(ps[1..])
  }

  /** ASCII and ISO-8859-1 are copied, 16-bit characters are translated, the rest cannot be shown. */
  function PartText(p: Part): Option<Bytes> {
    if p.f1 == 0 || p.f1 == 3 then Some(p.body)
    else if p.f1 == 2 && |p.body| % 2 == 0 then Some(Translate(p.body))
    else None
  }

  /** The texts of the sections one after the other, behind the text so far. */
  function Joined(text: Option<Bytes>, ps: seq<Part>): Option<Bytes>
    decreases ps
  {
    if ps == [] then text
    else if PartText(ps[0]).None? then Joined(text, ps[1..])
    else Joined(Some(Sofar(text) + PartText(ps[0]).value), ps[1..])
  }

  function Unshowable(ps: seq<Part>): nat {
    if ps == [] then 0 else (if PartText(ps[0]).None? then 1 else 0) + Unshowable(ps[1..])
  }

  lemma ReadPart(p: Part, rest: Bytes)
    requires PartFits(p)
    ensures var r := PartBytes(p) + rest;
            |r| >= 2 && r[0] == 1 && r[1] == 1 && Take16(r[2..]) == (|p.body| + 4, r[4..])
            && Take16(r[4..]) == (p.f1, r[6..]) && Take16(r[6..]) == (p.f2, p.body + rest)
  {
    hide Take16;
    var r := PartBytes(p) + rest;
    Take16Be(|p.body| + 4, r[4..]);
    Take16Be(p.f1, r[6..]);
    Take16Be(p.f2, p.body + rest);
    assert r[2..] == Be16(|p.body| + 4) + r[4..];
    assert r[4..] == Be16(p.f1) + r[6..];
    assert r[6..] == Be16(p.f2) + (p.body + rest);
  }

  lemma ReadBody(p: Part, rest: Bytes, offset: nat, junk: Junk)
    requires PartFits(p)
    ensures Body(p.body + rest, p.f1, |p.body|, offset, junk) ==
            if PartText(p).Some? then Shown(PartText(p).value, rest) else Unshown(rest)
  {
    assert (p.body + rest)[..|p.body|] == p.body && (p.body + rest)[|p.body|..] == rest;
  }

  /** On well-formed sections the text is the concatenation of the section texts. */
  lemma {:induction false} SectionsJoin(ps: seq<Part>, text: Option<Bytes>, u: nat, junk: Junk)
    requires forall p <- ps :: PartFits(p)
    ensures Sections(PartsBytes(ps), text, u, junk) == Got(Joined(text, ps), u + Unshowable(ps))
    decreases |ps|
  {
    hide Body, Take16, PartText, PartBytes;
    if ps != [] {
      var rest := PartsBytes(ps[1..]);
      ReadPart(ps[0], rest);
      ReadBody(ps[0], rest, |Sofar(text)|, junk);
      if PartText(ps[0]).Some? {
        SectionsJoin(ps[1..], Some(Sofar(text) + PartText(ps[0]).value), u, junk);
      } else {
        SectionsJoin(ps[1..], text, u + 1, junk);
      }
    }
  }

  // ---- The block built for a text

  const HEADER: Bytes := [5, 1, 0, 4, 1, 1, 1, 2]

  /** The longest text whose block fits a TLV. */
  const MAXTEXT := 65519

  function Block(text: Bytes): Bytes
    requires |text| <= MAXTEXT
  {
    HEADER + PartBytes(Part(0, 0, text))
  }

  /** Bytes put one by one */
  function PutEach(o: Out, s: Bytes): (o': Out)
    requires o.Valid()
    ensures o'.Valid() && o'.grow == o.grow && (!o.grow ==> o'.cap == o.cap)
    ensures |o'.written| <= |o.written| + |s|
    decreases |s|
  {
    if s == [] then o else PutEach(Put(o, s[..1]), s[1..])
  }

  lemma {:induction false} PutEachWithRoom(o: Out, s: Bytes)
    requires o.Valid() && !o.overrun && |s| <= o.Room()
    ensures PutEach(o, s) == o.(written := o.written + s)
    decreases |s|
  {
    hide Put;
    if s == [] {
      assert o.written + s == o.written;
    } else {
      PutWithRoom(o, s[..1]);
      PutEachWithRoom(Put(o, s[..1]), s[1..]);
      assert o.written + s[..1] + s[1..] == o.written + s;
    }
  }

  /** The headers in front of a text, in a buffer whose length is cut to 16 bits */
  function BlockHead(text: Bytes): (o: Out)
    ensures o.Valid() && !o.grow && o.cap == (16 + |text|) % W16 && |o.written| <= 16
  {
    var o1 := Put(PutEach(Out([], (16 + |text|) % W16, false, false), HEADER[..2]), Be16(4));
    var o2 := Put(PutEach(o1, [1, 1, 1, 2, 1, 1]), Be16((|text| + 4) % W16));
    Put(Put(o2, Be16(0)), Be16(0))
  }

  /** The value _naf_tlv_addoscarmsgblock makes of a text */
  function BlockValue(text: Bytes): Bytes {
    Put(BlockHead(text), text).written
  }

  lemma BlockBytes(text: Bytes)
    requires |text| <= MAXTEXT
    ensures Block(text) ==
            [] + HEADER[..2] + Be16(4) + [1, 1, 1, 2, 1, 1] + Be16(|text| + 4) + (Be16(0) + Be16(0)) + text
  {
  }

  lemma BlockHeadIs(text: Bytes)
    requires |text| <= MAXTEXT
    ensures var w := [] + HEADER[..2] + Be16(4) + [1, 1, 1, 2, 1, 1] + Be16(|text| + 4) + (Be16(0) + Be16(0));
            BlockHead(text) == Out(w, 16 + |text|, false, false)
  {
    hide Put, PutEach, Be16;
    var o := Out([], 16 + |text|, false, false);
    PutEachWithRoom(o, HEADER[..2]);
    var o1 := PutEach(o, HEADER[..2]);
    PutWithRoom(o1, Be16(4));
    var o2 := Put(o1, Be16(4));
    PutEachWithRoom(o2, [1, 1, 1, 2, 1, 1]);
    var o3 := PutEach(o2, [1, 1, 1, 2, 1, 1]);
    PutWithRoom(o3, Be16(|text| + 4));
    PutPair(Put(o3, Be16(|text| + 4)), Be16(0), Be16(0));
  }

  /** It is the block, or, when the text is too long for one, there is no text in it. */
  lemma BlockValueIs(text: Bytes)
    ensures |text| <= MAXTEXT ==> BlockValue(text) == Block(text)
    ensures |text| > MAXTEXT ==> |BlockValue(text)| <= 16
  {
    hide BlockHead, Block, Be16;
    if |text| <= MAXTEXT {
      BlockHeadIs(text);
      BlockBytes(text);
      PutWithRoom(BlockHead(text), text);
    }
  }

  /** Version, four features, and one section in ASCII that holds the text. */
  lemma BlockLayout(text: Bytes)
    requires |text| <= MAXTEXT
    ensures var b := Block(text);
            && |b| == 16 + |text| && b[..10] == [5, 1, 0, 4, 1, 1, 1, 2, 1, 1]
            && BigEndian(b[10..12]) == 4 + |text| && b[12..16] == [0, 0, 0, 0] && b[16..] == text
  {
    var b := Block(text);
    assert b[10..12] == Be16(|text| + 4);
    NetworkOrder(|text| + 4, 0);
  }

  /** Version, type and length of every section in network order, then its body. */
  lemma PartLayout(p: Part)
    requires PartFits(p)
    ensures var b := PartBytes(p);
            && |b| == 8 + |p.body| && b[..2] == [1, 1] && BigEndian(b[2..4]) == 4 + |p.body|
            && BigEndian(b[4..6]) == p.f1 && BigEndian(b[6..8]) == p.f2 && b[8..] == p.body
  {
    var b := PartBytes(p);
    assert b[2..4] == Be16(|p.body| + 4) && b[4..6] == Be16(p.f1) && b[6..8] == Be16(p.f2);
    NetworkOrder(|p.body| + 4, 0);
    NetworkOrder(p.f1, 0);
    NetworkOrder(p.f2, 0);
  }

  /** Extracting a block gives its text back. */
  lemma ExtractBlock(text: Bytes, junk: Junk)
    requires |text| <= MAXTEXT
    ensures Extract(Block(text), junk) == Got(Some(text), 0)
  {
    hide Sections;
    var p := Part(0, 0, text);
    var v := Block(text);
    assert v[2..] == Be16(4) + ([1, 1, 1, 2] + PartBytes(p));
    Take16Be(4, [1, 1, 1, 2] + PartBytes(p));
    assert ([1, 1, 1, 2] + PartBytes(p))[4..] == PartBytes(p);
    assert PartsBytes([p]) == PartBytes(p) + PartsBytes([]) == PartBytes(p);
    SectionsJoin([p], None, 0, junk);
    assert [p][1..] == [] && [] + text == text;
    assert Joined(None, [p]) == Joined(Some(text), []) == Some(text);
  }

  // ---- How long a text can get

  lemma {:induction false} TranslateLength(s: Bytes)
    requires |s| % 2 == 0
    ensures 2 * |Translate(s)| <= 7 * |s|
  {
    if s != [] {
      TranslateLength(s[2..]);
    }
  }

  lemma BodyLength(r: Bytes, f1: u16, n: nat, text: Bytes, junk: Junk)
    ensures var b := Body(r, f1, n, |text|, junk);
            b.Shown? ==> 2 * |CStr(text + b.text)| + 7 * |b.rest| <= 2 * |CStr(text)| + 7 * |r|
  {
    var b := Body(r, f1, n, |text|, junk);
    if b.Shown? {
      CStrAppend(text, b.text);
      CStrPrefix(text);
      CStrPrefix(b.text);
      if f1 == 2 {
        TranslateLength(r[..n]);
      }
    }
  }

  lemma {:induction false} SectionsLength(r: Bytes, text: Option<Bytes>, u: nat, junk: Junk)
    ensures var e := Sections(r, text, u, junk);
            e.Got? ==> 2 * |CStr(Sofar(e.text))| <= 2 * |CStr(Sofar(text))| + 7 * |r|
    decreases |r|
  {
    hide Body, Num16, CStr;
    if |r| >= 2 && r[0] == 1 && r[1] == 1 {
      var (plen, r1) := Take16(r[2..]);
      if plen < 4 {
        SectionsLength(r1, text, u, junk);
      } else {
        var (f1, r2) := Take16(r1);
        var (_, r3) := Take16(r2);
        var b := Body(r3, f1, plen - 4, |Sofar(text)|, junk);
        if b.Unshown? {
          SectionsLength(b.rest, text, u + 1, junk);
        } else if b.Shown? {
          BodyLength(r3, f1, plen - 4, Sofar(text), junk);
          SectionsLength(b.rest, Some(Sofar(text) + b.text), u, junk);
        }
      }
    }
  }

  /** The extracted C string is at most three and a half times as long as a value that is not empty. */
  lemma ExtractLength(v: Bytes, heap: Heap, junk: Junk, turns: nat)
    requires v != []
    ensures var e := Result(v, heap, junk, turns);
            e.Ended? && (e.x.Got? ==> 2 * |CStr(Sofar(e.x.text))| <= 7 * |v|)
  {
    hide Sections;
    if |v| >= 2 && v[0] == 5 && v[1] == 1 {
      var (featlen, r) := Take16(v[2..]);
      SectionsLength(if featlen <= |r| then r[featlen..] else r, None, 0, junk);
    }
  }

  // ---- Messages without text

  /** Nothing but sections too short to have a text. */
  predicate Empties(r: Bytes)
    decreases |r|
  {
    r == [] || (|r| >= 2 && r[0] == 1 && r[1] == 1 && Take16(r[2..]).0 < 4 && Empties(Take16(r[2..]).1))
  }

  predicate Blank(v: Bytes) {
    |v| >= 2 && v[0] == 5 && v[1] == 1 &&
    var (featlen, r) := Take16(v[2..]);
    Empties(if featlen <= |r| then r[featlen..] else r)
  }

  lemma {:induction false} SectionsGrow(r: Bytes, text: Option<Bytes>, u: nat, junk: Junk)
    ensures var e := Sections(r, text, u, junk); e.Got? ==> e.unrepresentable >= u && (text.Some? ==> e.text.Some?)
    decreases |r|
  {
    hide Body, Num16;
    if |r| >= 2 && r[0] == 1 && r[1] == 1 {
      var (plen, r1) := Take16(r[2..]);
      if plen < 4 {
        SectionsGrow(r1, text, u, junk);
      } else {
        var (f1, r2) := Take16(r1);
        var (_, r3) := Take16(r2);
        var b := Body(r3, f1, plen - 4, |Sofar(text)|, junk);
        if b.Unshown? {
          SectionsGrow(b.rest, text, u + 1, junk);
        } else if b.Shown? {
          SectionsGrow(b.rest, Some(Sofar(text) + b.text), u, junk);
        }
      }
    }
  }

  lemma {:induction false} SectionsEmpty(r: Bytes, junk: Junk)
    ensures Sections(r, None, 0, junk) == Got(None, 0) <==> Empties(r)
    decreases |r|
  {
    hide Body, Num16;
    if |r| >= 2 && r[0] == 1 && r[1] == 1 {
      var (plen, r1) := Take16(r[2..]);
      if plen < 4 {
        SectionsEmpty(r1, junk);
      } else {
        var (f1, r2) := Take16(r1);
        var (_, r3) := Take16(r2);
        var b := Body(r3, f1, plen - 4, 0, junk);
        if b.Unshown? {
          SectionsGrow(b.rest, None, 1, junk);
        } else if b.Shown? {
          SectionsGrow(b.rest, Some([] + b.text), 0, junk);
        }
      }
    }
  }

  /** No text and nothing unrepresentable comes of exactly the blank values. */
  lemma BlankIff(v: Bytes, junk: Junk)
    ensures Extract(v, junk) == Got(None, 0) <==> Blank(v)
  {
    hide Sections, Empties;
    if |v| >= 2 && v[0] == 5 && v[1] == 1 {
      var (featlen, r) := Take16(v[2..]);
      SectionsEmpty(if featlen <= |r| then r[featlen..] else r, junk);
    }
  }

  // ---- Texts with a NUL in them

  /** What the loop finds at `r`: nothing, no section, one too short for a text, or one of `n` bytes at `rest`. */
  datatype Found = End | Malformed | Short(rest: Bytes) | Full(f1: u16, n: nat, rest: Bytes)

  function Next(r: Bytes): (f: Found)
    ensures f.Short? || f.Full? ==> |f.rest| < |r|
  {
    if r == [] then End
    else if |r| < 2 || r[0] != 1 || r[1] != 1 then Malformed
    else
      var (plen, r1) := Take16(r[2..]);
      if plen < 4 then Short(r1) else
      var (f1, r2) := Take16(r1);
      var (_, r3) := Take16(r2);
      Full(f1, plen - 4, r3)
  }

  lemma SectionsNext(r: Bytes, text: Option<Bytes>, u: nat, junk: Junk)
    ensures Sections(r, text, u, junk) ==
            match Next(r)
            case End => Got(text, u)
            case Malformed => Failed
            case Short(rest) => Sections(rest, text, u, junk)
            case Full(f1, n, rest) =>
              match Body(rest, f1, n, |Sofar(text)|, junk)
              case Bad => Failed
              case Unshown(end) => Sections(end, text, u + 1, junk)
              case Shown(s, end) => Sections(end, Some(Sofar(text) + s), u, junk)
  {
    hide Body, Num16;
  }

  /** A section of `n` bytes that can be shown, with `left` bytes left to read. */
  predicate Showable(f1: u16, n: nat, left: nat) {
    f1 == 0 || f1 == 3 || (f1 == 2 && n % 2 == 0 && n <= left)
  }

  /** All sections can be shown. */
  predicate AllText(r: Bytes)
    decreases |r|
  {
    match Next(r)
    case End => true
    case Malformed => false
    case Short(rest) => AllText(rest)
    case Full(f1, n, rest) => Showable(f1, n, |rest|) && AllText(if n <= |rest| then rest[n..] else rest)
  }

  predicate NoZeroChar(s: Bytes)
    requires |s| % 2 == 0
  {
    s == [] || (Num16(s) != 0 && NoZeroChar(s[2..]))
  }

  /** No zero byte, or no 16-bit character zero. */
  predicate NoNul(f1: u16, s: Bytes)
    requires f1 == 2 ==> |s| % 2 == 0
  {
    if f1 == 2 then NoZeroChar(s) else NulFree(s)
  }

  /** Moreover, no section is longer than what is left, and none has a NUL in it. */
  predicate Whole(r: Bytes)
    decreases |r|
  {
    match Next(r)
    case End => true
    case Malformed => false
    case Short(rest) => Whole(rest)
    case Full(f1, n, rest) =>
      Showable(f1, n, |rest|) && n <= |rest| && NoNul(f1, rest[..n]) && Whole(rest[n..])
  }

  function Behind(v: Bytes): Bytes
    requires |v| >= 2
  {
    var (featlen, r) := Take16(v[2..]);
    if featlen <= |r| then r[featlen..] else r
  }

  /** All of the message can be shown, but its text has a NUL in it, behind which a C string ends. */
  predicate Cut(v: Bytes) {
    |v| >= 2 && v[0] == 5 && v[1] == 1 && AllText(Behind(v)) && !Whole(Behind(v))
  }

  lemma NulFreeAppend(s: Bytes, t: Bytes)
    ensures NulFree(s + t) <==> NulFree(s) && NulFree(t)
  {
  }

  lemma {:induction false} TranslateNulFree(s: Bytes)
    requires |s| % 2 == 0
    ensures NulFree(Translate(s)) <==> NoZeroChar(s)
  {
    if s != [] {
      TranslateNulFree(s[2..]);
      NulFreeAppend(Glyph(Num16(s)), Translate(s[2..]));
      GlyphNulFree(Num16(s));
    }
  }

  lemma GlyphNulFree(c: u16)
    ensures NulFree(Glyph(c)) <==> c != 0
  {
    if c == 0 {
      assert Glyph(c)[0] == 0;
    }
  }

  lemma BodyWhole(r: Bytes, f1: u16, n: nat, offset: nat, junk: Junk)
    ensures var b := Body(r, f1, n, offset, junk);
            && (b.Shown? <==> Showable(f1, n, |r|))
            && (b.Shown? ==> b.rest == (if n <= |r| then r[n..] else r))
            && (b.Shown? ==> (NulFree(b.text) <==> n <= |r| && NoNul(f1, r[..n])))
  {
    hide Translate, NoZeroChar;
    var b := Body(r, f1, n, offset, junk);
    if b.Shown? {
      if n > |r| {
        assert b.text[0] == 0;
      } else if f1 == 2 {
        TranslateNulFree(r[..n]);
      }
    }
  }

  /** Everything is shown exactly of AllText, and then the text has no NUL exactly if all is Whole. */
  lemma {:induction false} SectionsWhole(r: Bytes, text: Option<Bytes>, u: nat, junk: Junk)
    ensures var e := Sections(r, text, u, junk);
            && (e.Got? && e.unrepresentable == u <==> AllText(r))
            && (AllText(r) ==> (NulFree(Sofar(e.text)) <==> NulFree(Sofar(text)) && Whole(r)))
    decreases |r|
  {
    hide Body, Sections, Next, NulFree, Showable, NoNul;
    SectionsNext(r, text, u, junk);
    match Next(r)
    case End =>
    case Malformed =>
    case Short(rest) => SectionsWhole(rest, text, u, junk);
    case Full(f1, n, rest) =>
      BodyWhole(rest, f1, n, |Sofar(text)|, junk);
      match Body(rest, f1, n, |Sofar(text)|, junk)
      case Bad =>
      case Unshown(end) => SectionsGrow(end, text, u + 1, junk);
      case Shown(s, end) =>
        NulFreeAppend(Sofar(text), s);
        SectionsWhole(end, Some(Sofar(text) + s), u, junk);
  }

  /** A text with a NUL in it comes, with nothing unrepresentable, of exactly these values. */
  lemma CutIff(v: Bytes, junk: Junk)
    ensures var x := Extract(v, junk); x.Got? && x.unrepresentable == 0 && !NulFree(Sofar(x.text)) <==> Cut(v)
  {
    hide Sections, AllText, Whole;
    if |v| >= 2 && v[0] == 5 && v[1] == 1 {
      SectionsWhole(Behind(v), None, 0, junk);
    }
  }

  // ---- Well-formed messages as a whole

  /** A message value: features and sections. */
  function ValueOf(features: Bytes, ps: seq<Part>): Bytes
    requires |features| < W16 && forall p <- ps :: PartFits(p)
  {
    [5, 1] + Be16(|features|) + features + PartsBytes(ps)
  }

  /** Extracting one gives the section texts one after the other. */
  lemma ExtractParts(features: Bytes, ps: seq<Part>, junk: Junk)
    requires |features| < W16 && forall p <- ps :: PartFits(p)
    ensures Extract(ValueOf(features, ps), junk) == Got(Joined(None, ps), Unshowable(ps))
  {
    hide Sections, PartsBytes;
    var v := ValueOf(features, ps);
    assert v[2..] == Be16(|features|) + (features + PartsBytes(ps));
    Take16Be(|features|, features + PartsBytes(ps));
    assert (features + PartsBytes(ps))[|features|..] == PartsBytes(ps);
    SectionsJoin(ps, None, 0, junk);
  }

  /** The texts joined have no NUL exactly when none of the sections' has one. */
  lemma {:induction false} JoinedNulFree(text: Option<Bytes>, ps: seq<Part>)
    requires Unshowable(ps) == 0
    ensures forall p <- ps :: PartText(p).Some?
    ensures NulFree(Sofar(Joined(text, ps))) <==>
            NulFree(Sofar(text)) && forall p <- ps :: NulFree(PartText(p).value)
    ensures text.Some? || ps != [] ==> Joined(text, ps).Some?
    decreases |ps|
  {
    hide NulFree, PartText;
    if ps != [] {
      NulFreeAppend(Sofar(text), PartText(ps[0]).value);
      JoinedNulFree(Some(Sofar(text) + PartText(ps[0]).value), ps[1..]);
    }
  }
}
