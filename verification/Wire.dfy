/** Bytes, big-endian numbers, and the two views of a cursor buffer (naf/sbuf.c). */
module Wire {

  type byte = b: int | 0 <= b < 0x100
  type u16 = w: int | 0 <= w < 0x1_0000
  type u32 = w: int | 0 <= w < 0x1_0000_0000

  type Bytes = seq<byte>

  // ---- include/naf/nafbufutils.h

  function Be16(v: u16): (s: Bytes)
    ensures |s| == 2
  {
    [v / 0x100, v % 0x100]
  }

  function Be32(v: u32): (s: Bytes)
    ensures |s| == 4
  {
    Be16(v / 0x1_0000) + Be16(v % 0x1_0000)
  }

  function Num16(s: Bytes): u16
    requires |s| >= 2
  {
    s[0] as int * 0x100 + s[1]
  }

  function Num32(s: Bytes): u32
    requires |s| >= 4
  {
    Num16(s) as int * 0x1_0000 + Num16(s[2..])
  }

  /** The number that bytes stand for in network order. */
  function BigEndian(s: Bytes): nat {
    if s == [] then 0 else BigEndian(s[..|s| - 1]) * 256 + s[|s| - 1]
  }

  lemma BigEndian2(s: Bytes)
    requires |s| == 2
    ensures BigEndian(s) == s[0] as nat * 256 + s[1]
  {
    assert s[..1][..0] == [] && BigEndian(s[..1]) == s[0];
  }

  lemma BigEndian4(s: Bytes)
    requires |s| == 4
    ensures BigEndian(s) == ((s[0] as nat * 256 + s[1]) * 256 + s[2]) * 256 + s[3]
  {
    assert s[..3][..2] == s[..2];
    BigEndian2(s[..2]);
  }

  /** The most significant byte goes first. */
  lemma NetworkOrder(v: u16, w: u32)
    ensures BigEndian(Be16(v)) == v && BigEndian(Be32(w)) == w
  {
    BigEndian2(Be16(v));
    BigEndian4(Be32(w));
  }

  // ---- Reading.  What is left to read determines every get; a get that does not
  // find enough bytes yields 0 and leaves the cursor where it is.

  function Take8(r: Bytes): (byte, Bytes) {
    if |r| < 1 then (0, r) else (r[0], r[1..])
  }

  function Take16(r: Bytes): (u16, Bytes) {
    if |r| < 2 then (0, r) else (Num16(r), r[2..])
  }

  function Take32(r: Bytes): (u32, Bytes) {
    if |r| < 4 then (0, r) else (Num32(r), r[4..])
  }

  lemma Take16Be(v: u16, rest: Bytes)
    ensures Take16(Be16(v) + rest) == (v, rest)
  {
    assert (Be16(v) + rest)[2..] == rest;
  }

  lemma Take32Be(v: u32, rest: Bytes)
    ensures Take32(Be32(v) + rest) == (v, rest)
  {
    var s := Be32(v) + rest;
    assert s[..2] == Be16(v / 0x1_0000) && s[2..][..2] == Be16(v % 0x1_0000) && s[4..] == rest;
  }

  // ---- C strings

  /** The bytes a `char *` stands for: up to the first NUL. */
  function CStr(s: Bytes): Bytes {
    if s == [] || s[0] == 0 then [] else [s[0]] + CStr(s[1..])
  }

  predicate NulFree(s: Bytes) {
    0 !in s
  }

  lemma {:induction false} CStrPrefix(s: Bytes)
    ensures NulFree(CStr(s)) && CStr(s) <= s
    ensures NulFree(s) ==> CStr(s) == s
  {
    if s != [] && s[0] != 0 {
      CStrPrefix(s[1..]);
      assert s == [s[0]] + s[1..];
    } else if s != [] {
      assert 0 in s;
    }
  }

  lemma {:induction false} CStrAppend(s: Bytes, t: Bytes)
    ensures CStr(s + t) == if NulFree(s) then s + CStr(t) else CStr(s)
  {
    if s == [] {
      assert s + t == t;
    } else if s[0] != 0 {
      CStrAppend(s[1..], t);
      assert (s + t)[1..] == s[1..] + t;
      assert s == [s[0]] + s[1..];
    } else {
      assert 0 in s;
    }
  }

  // ---- Writing.  A buffer under construction is what precedes the cursor, its
  // length, and whether it may grow.  Lengths have 16 bits; `overrun` says that a length
  // has wrapped around and the source has written past the end of its buffer, after
  // which nothing more is known.

  const BLOCK := 256
  const MAXLEN := 32768
  const W16 := 0x1_0000

  datatype Out = Out(written: Bytes, cap: nat, grow: bool, overrun: bool) {
    predicate Valid() {
      |written| <= cap < W16
    }

    function Room(): int {
      cap - |written|
    }
  }

  function RoundUp(n: nat): (r: nat)
    ensures n <= r < n + BLOCK && r % BLOCK == 0
  {
    (n + BLOCK - 1) / BLOCK * BLOCK
  }

  /** The length computed for growing by `n`, in 16 bits. */
  function GrownLen(cap: nat, n: nat): nat {
    (cap + RoundUp(n % W16)) % W16
  }

  /** What becomes of a buffer of length `cap` when `n` bytes are to be put at `pos`. */
  datatype Growth = Fitted(cap: nat) | Refused | Overrun(cap: nat)

  function Grow(pos: nat, cap: nat, grow: bool, n: nat): Growth {
    if pos + n <= cap then Fitted(cap)
    else if !grow || GrownLen(cap, n) > MAXLEN then Refused
    else if GrownLen(cap, n) < cap then Overrun(cap)
    else if GrownLen(cap, n) < pos + n then Overrun(GrownLen(cap, n))
    else Fitted(GrownLen(cap, n))
  }

  predicate CanPut(o: Out, n: nat) {
    !o.overrun && Grow(|o.written|, o.cap, o.grow, n).Fitted?
  }

  /** All or nothing: the bytes are appended, growing first if need be, or nothing changes. */
  function Put(o: Out, s: Bytes): (o': Out)
    requires o.Valid()
    ensures o'.Valid()
    ensures o'.grow == o.grow && o'.cap >= o.cap && (!o.grow ==> o'.cap == o.cap)
    ensures o'.written == o.written + if CanPut(o, |s|) then s else []
  {
    if o.overrun then o else
    match Grow(|o.written|, o.cap, o.grow, |s|)
    case Fitted(cap) => o.(written := o.written + s, cap := cap)
    case Refused => o
    case Overrun(cap) => o.(overrun := true, cap := cap)
  }

  lemma GrownCases(cap: nat, n: nat)
    requires cap < W16 && n < W16
    ensures RoundUp(n) <= W16
    ensures GrownLen(cap, n) == if cap + RoundUp(n) < W16 then cap + RoundUp(n) else cap + RoundUp(n) - W16
  {
    assert n % W16 == n;
  }

  /** The request is passed on in 16 bits. */
  lemma GrownMod(cap: nat, n: nat)
    ensures GrownLen(cap, n % W16) == GrownLen(cap, n)
  {
  }

  lemma RoundUpStep(n: nat)
    requires n > BLOCK
    ensures RoundUp(n) == BLOCK + RoundUp(n - BLOCK)
  {
  }

  lemma RoundUpLast(n: nat)
    requires n <= BLOCK
    ensures RoundUp(n) == if n > 0 then BLOCK else 0
  {
  }

  /** A growth that succeeds adds the request rounded up to 256, within 32768; it never wrapped. */
  lemma GrowthExact(pos: nat, cap: nat, n: nat)
    requires pos <= cap < W16
    ensures var g := Grow(pos, cap, true, n);
            g.Fitted? && pos + n > cap ==> n < 0x1_0000 && g.cap == cap + (n + 255) / 256 * 256 <= 32768
  {
    Rounded(n);
    hide GrownLen, RoundUp;
    GrownMod(cap, n);
    GrownCases(cap, n % W16);
  }

  lemma Rounded(n: nat)
    ensures RoundUp(n) == (n + 255) / 256 * 256
  {
  }

  /** A put is refused for want of room in a fixed buffer, or when the length it asks for is above the limit. */
  lemma RefusedIff(pos: nat, cap: nat, grow: bool, n: nat)
    requires pos <= cap < W16
    ensures Grow(pos, cap, grow, n).Refused? <==>
      pos + n > cap && (grow ==> (cap + (n % 0x1_0000 + 255) / 256 * 256) % 0x1_0000 > 32768)
  {
    Rounded(n % W16);
  }

  /**
   A put, of any number of bytes, runs past its buffer exactly when the length it asks for wraps
   around to an acceptable one: the sum of the lengths, or already the request itself.
   */
  lemma OverrunIff(pos: nat, cap: nat, grow: bool, n: nat)
    requires pos <= cap < W16
    ensures var s := cap + (n % 0x1_0000 + 255) / 256 * 256;
            Grow(pos, cap, grow, n).Overrun? <==>
            grow && pos + n > cap && (0x1_0000 <= s <= 0x1_0000 + 32768 || (n >= 0x1_0000 && s <= 32768))
  {
    Rounded(n % W16);
    hide GrownLen, RoundUp;
    GrownMod(cap, n);
    GrownCases(cap, n % W16);
  }

  /** Below these sizes the length cannot wrap. */
  const CHUNK := 32512

  lemma SmallNeverOverruns(pos: nat, cap: nat, grow: bool, n: nat)
    requires pos <= cap <= MAXLEN && n <= CHUNK
    ensures !Grow(pos, cap, grow, n).Overrun?
  {
    OverrunIff(pos, cap, grow, n);
  }

  lemma PutWithRoom(o: Out, s: Bytes)
    requires o.Valid() && !o.overrun && |s| <= o.Room()
    ensures Put(o, s) == o.(written := o.written + s)
  {
  }

  lemma PutPair(o: Out, s: Bytes, t: Bytes)
    requires o.Valid() && !o.overrun && |s| + |t| <= o.Room()
    ensures Put(Put(o, s), t) == o.(written := o.written + (s + t))
  {
    hide Put;
    PutWithRoom(o, s);
    PutWithRoom(Put(o, s), t);
    assert o.written + s + t == o.written + (s + t);
  }

  function PutAll(o: Out, chunks: seq<Bytes>): (o': Out)
    requires o.Valid()
    ensures o'.Valid() && o'.grow == o.grow
    decreases |chunks|
  {
    if chunks == [] then o else PutAll(Put(o, chunks[0]), chunks[1..])
  }

  /** The chunks that found room, one after the other. */
  function Accepted(o: Out, chunks: seq<Bytes>): Bytes
    requires o.Valid()
    decreases |chunks|
  {
    if chunks == [] then []
    else (if CanPut(o, |chunks[0]|) then chunks[0] else []) + Accepted(Put(o, chunks[0]), chunks[1..])
  }

  lemma PutBlocks(o: Out, s: Bytes)
    requires o.Valid()
    ensures (Put(o, s).cap - o.cap) % BLOCK == 0
    ensures Put(o, s).cap > o.cap ==> o.grow && Put(o, s).cap <= MAXLEN
  {
    GrownBlocks(o.cap, |s|);
    hide GrownLen;
  }

  lemma GrownBlocks(cap: nat, n: nat)
    requires cap < W16
    ensures (GrownLen(cap, n) - cap) % BLOCK == 0
  {
    hide RoundUp;
    GrownMod(cap, n);
    GrownCases(cap, n % W16);
    hide GrownLen;
    var r := RoundUp(n % W16);
    assert (r - W16) % BLOCK == 0;
  }

  lemma SmallPut(o: Out, s: Bytes)
    requires o.Valid() && !o.overrun && o.cap <= MAXLEN && |s| <= CHUNK
    ensures !Put(o, s).overrun && Put(o, s).cap <= MAXLEN
  {
    hide Grow;
    SmallNeverOverruns(|o.written|, o.cap, o.grow, |s|);
    PutBlocks(o, s);
  }

  /** Any run of puts appends exactly the accepted ones, and grows by whole blocks within the limit. */
  lemma {:induction false} PutsAppend(o: Out, chunks: seq<Bytes>)
    requires o.Valid()
    ensures PutAll(o, chunks).written == o.written + Accepted(o, chunks)
    ensures o.cap <= PutAll(o, chunks).cap
    ensures (PutAll(o, chunks).cap - o.cap) % BLOCK == 0
    ensures PutAll(o, chunks).cap > o.cap ==> o.grow && PutAll(o, chunks).cap <= MAXLEN
    decreases |chunks|
  {
    hide Put, CanPut;
    if chunks != [] {
      PutBlocks(o, chunks[0]);
      var o1 := Put(o, chunks[0]);
      PutsAppend(o1, chunks[1..]);
      WholeBlocks(o1.cap - o.cap, PutAll(o1, chunks[1..]).cap - o1.cap);
    }
  }

  lemma WholeBlocks(a: int, b: int)
    requires a % BLOCK == 0 && b % BLOCK == 0
    ensures (a + b) % BLOCK == 0
  {
  }

  function Concat(chunks: seq<Bytes>): Bytes {
    if chunks == [] then [] else chunks[0] + Concat(chunks[1..])
  }

  lemma {:induction false} ConcatTo(chunks: seq<Bytes>, i: nat)
    requires i < |chunks|
    ensures Concat(chunks[..i + 1]) == Concat(chunks[..i]) + chunks[i]
    decreases i
  {
    if i == 0 {
      assert chunks[..1][1..] == [] && chunks[0] + [] == chunks[0];
    } else {
      ConcatTo(chunks[1..], i - 1);
      assert chunks[..i + 1][1..] == chunks[1..][..i] && chunks[..i][1..] == chunks[1..][..i - 1];
    }
  }

  lemma {:induction false} PutAllWithRoom(o: Out, chunks: seq<Bytes>)
    requires o.Valid() && !o.overrun && |Concat(chunks)| <= o.Room()
    ensures PutAll(o, chunks) == o.(written := o.written + Concat(chunks))
    decreases |chunks|
  {
    hide Put;
    if chunks == [] {
      assert o.written + [] == o.written;
    } else {
      PutWithRoom(o, chunks[0]);
      PutAllWithRoom(Put(o, chunks[0]), chunks[1..]);
      assert o.written + chunks[0] + Concat(chunks[1..]) == o.written + Concat(chunks);
    }
  }

  lemma {:induction false} PutAllSmall(o: Out, chunks: seq<Bytes>)
    requires o.Valid() && !o.overrun && o.cap <= MAXLEN && forall c <- chunks :: |c| <= CHUNK
    ensures !PutAll(o, chunks).overrun && PutAll(o, chunks).cap <= MAXLEN
    decreases |chunks|
  {
    hide Put;
    if chunks != [] {
      SmallPut(o, chunks[0]);
      PutAllSmall(Put(o, chunks[0]), chunks[1..]);
    }
  }
}
