/** XML character data: escaping and unescaping (libmx/src/lmx.c). */
module Xml {
  import opened Basics

  // ---- Escaping

  /** The conversion table, in order. */
  const CONVS: seq<(char, string)> :=
    [('&', "&amp;"), ('\'', "&apos;"), ('"', "&quot;"), ('<', "&lt;"), ('>', "&gt;")]

  function Escape(c: char): (e: string)
    ensures |e| >= 1
  {
    if c == '&' then "&amp;"
    else if c == '\'' then "&apos;"
    else if c == '"' then "&quot;"
    else if c == '<' then "&lt;"
    else if c == '>' then "&gt;"
    else [c]
  }

  function Encode(s: string): string {
    if s == [] then [] else Escape(s[0]) + Encode(s[1..])
  }

  lemma TableEscapes(c: char)
    ensures forall i | 0 <= i < |CONVS| :: Escape(CONVS[i].0) == CONVS[i].1 && |CONVS[i].1| >= 4 && CONVS[i].1[0] == '&'
    ensures (forall i | 0 <= i < |CONVS| :: CONVS[i].0 != c) ==> Escape(c) == [c]
  {
    assert CONVS[0].0 == '&' && CONVS[1].0 == '\'' && CONVS[2].0 == '"' && CONVS[3].0 == '<' && CONVS[4].0 == '>';
  }

  /** The entry of the table for a character. */
  method Lookup(c: char) returns (enc: string)
    ensures enc == Escape(c)
  {
    TableEscapes(c);
    for i := 0 to |CONVS|
      invariant forall k | 0 <= k < i :: CONVS[k].0 != c
    {
      if CONVS[i].0 == c {
        return CONVS[i].1;
      }
    }
    return [c];
  }

  /** cdatastr__strlen */
  method EncodedLen(s: string) returns (n: nat)
    ensures n == |Encode(s)|
  {
    n := 0;
    for i := 0 to |s|
      invariant n + |Encode(s[i..])| == |Encode(s)|
    {
      var enc := Lookup(s[i]);
      n := n + |enc|;
      assert s[i..][1..] == s[i + 1..];
    }
  }

  // ---- Decoding.  `m` is the C string in memory, of which the first `len` characters are meant.

  function Min(a: nat, b: nat): nat {
    if a < b then a else b
  }

  /** The first table entry, from `i` on, whose escape `m` starts with. */
  function Hit(m: string, i: nat): Option<nat>
    requires i <= |CONVS|
    decreases |CONVS| - i
  {
    if i == |CONVS| then None
    else if CONVS[i].1 <= m then Some(i)
    else Hit(m, i + 1)
  }

  /** The same, but compared only as far as the bound reaches */
  function BoundHit(m: string, len: nat, i: nat): Option<nat>
    requires i <= |CONVS|
    decreases |CONVS| - i
  {
    if i == |CONVS| then None
    else if CONVS[i].1[..Min(|CONVS[i].1|, len)] <= m then Some(i)
    else BoundHit(m, len, i + 1)
  }

  lemma {:induction false} HitInTable(m: string, i: nat)
    requires i <= |CONVS|
    ensures Hit(m, i).Some? ==>
      var k := Hit(m, i).value;
      i <= k < |CONVS| && 4 <= |CONVS[k].1| <= |m| && CONVS[k].1 <= m
    ensures Hit(m, i).None? ==> forall k | i <= k < |CONVS| :: !(CONVS[k].1 <= m)
    decreases |CONVS| - i
  {
    TableEscapes('a');
    if i < |CONVS| {
      HitInTable(m, i + 1);
    }
  }

  lemma {:induction false} BoundHitInTable(m: string, len: nat, i: nat)
    requires i <= |CONVS|
    ensures var h := BoundHit(m, len, i);
            && (h.Some? ==> i <= h.value < |CONVS| && |CONVS[h.value].1| >= 4
                            && CONVS[h.value].1[..Min(|CONVS[h.value].1|, len)] <= m)
            && (h.None? ==> forall k | i <= k < |CONVS| :: !(CONVS[k].1[..Min(|CONVS[k].1|, len)] <= m))
    decreases |CONVS| - i
  {
    TableEscapes('a');
    if i < |CONVS| {
      BoundHitInTable(m, len, i + 1);
    }
  }

  /** The decoded text. */
  function Decode(t: string): string
    decreases |t|
  {
    if t == [] then [] else
    match Hit(t, 0)
    case None => [t[0]] + Decode(t[1..])
    case Some(i) =>
      HitInTable(t, 0);
      [CONVS[i].0] + Decode(t[|CONVS[i].1|..])
  }

  /** cdatastr__decodedstrlen */
  function DecodedLen(m: string, len: nat): nat
    decreases |m|
  {
    if m == [] || len == 0 then 0 else
    match BoundHit(m, len, 0)
    case None => 1 + DecodedLen(m[1..], len - 1)
    case Some(i) =>
      BoundHitInTable(m, len, 0);
      if len <= |CONVS[i].1| then 1 else 1 + DecodedLen(m[|CONVS[i].1|..], len - |CONVS[i].1|)
  }

  /** cdatastr__decode with room for everything: plain characters are not counted down. */
  function DecodeRun(m: string, left: int): string
    decreases |m|
  {
    if m == [] || left <= 0 then [] else
    match Hit(m, 0)
    case None => [m[0]] + DecodeRun(m[1..], left)
    case Some(i) =>
      HitInTable(m, 0);
      [CONVS[i].0] + DecodeRun(m[|CONVS[i].1|..], left - |CONVS[i].1|)
  }

  // ---- What is stored

  /** A proper, nonempty part of an escape, from its start. */
  predicate Partial(t: string) {
    t != [] && exists k | 0 <= k < |CONVS| :: t <= CONVS[k].1 && |t| < |CONVS[k].1|
  }

  /** The partial escape a text ends in, if it does. */
  function Tail(t: string): string
    decreases |t|
  {
    if t == [] || Partial(t) then t else
    match Hit(t, 0)
    case None => Tail(t[1..])
    case Some(i) =>
      HitInTable(t, 0);
      Tail(t[|CONVS[i].1|..])
  }

  /** A partial escape at the bound counts as one character, decoded from what memory holds there. */
  function Stored(m: string, len: nat): string
    requires len <= |m|
    decreases len
  {
    if len == 0 then [] else
    var c := match Hit(m, 0) case None => m[0] case Some(i) => (HitInTable(m, 0); CONVS[i].0);
    if Partial(m[..len]) then [c] else
    match Hit(m, 0)
    case None => [c] + Stored(m[1..], len - 1)
    case Some(i) =>
      HitInTable(m, 0);
      assert |CONVS[i].1| <= len by { WholeOrPartial(m, len, i); }
      [c] + Stored(m[|CONVS[i].1|..], len - |CONVS[i].1|)
  }

  lemma WholeOrPartial(m: string, len: nat, i: nat)
    requires 0 < len <= |m| && i < |CONVS| && CONVS[i].1 <= m
    ensures |CONVS[i].1| <= len || Partial(m[..len])
  {
    if len < |CONVS[i].1| {
      assert m[..len] == CONVS[i].1[..len];
    }
  }

  /** No escape is the start of another one. */
  lemma PrefixFree(i: nat, j: nat)
    requires i < |CONVS| && j < |CONVS| && CONVS[i].1 <= CONVS[j].1
    ensures i == j
  {
    assert CONVS[i].1[1] == CONVS[j].1[1] && CONVS[i].1[2] == CONVS[j].1[2];
  }

  lemma PartialHit(m: string, len: nat)
    requires 0 < len <= |m| && Partial(m[..len])
    ensures BoundHit(m, len, 0).Some? && len <= |CONVS[BoundHit(m, len, 0).value].1|
  {
    hide Hit, BoundHit;
    BoundHitInTable(m, len, 0);
    var k :| 0 <= k < |CONVS| && m[..len] <= CONVS[k].1 && len < |CONVS[k].1|;
    assert CONVS[k].1[..len] == m[..len] <= m;
    var h := BoundHit(m, len, 0).value;
    if |CONVS[h].1| < len {
      assert CONVS[h].1 <= m[..len] <= CONVS[k].1;
      PrefixFree(h, k);
    }
  }

  /** Where the bound is not in the middle of an escape, both comparisons find the same. */
  lemma BoundHitIs(m: string, len: nat)
    requires 0 < len <= |m|
    ensures Partial(m[..len]) ==> BoundHit(m, len, 0).Some? && len <= |CONVS[BoundHit(m, len, 0).value].1|
    ensures !Partial(m[..len]) ==> BoundHit(m, len, 0) == Hit(m, 0)
  {
    hide Hit, BoundHit;
    if Partial(m[..len]) {
      PartialHit(m, len);
    } else {
      forall k | 0 <= k < |CONVS| ensures CONVS[k].1[..Min(|CONVS[k].1|, len)] <= m <==> CONVS[k].1 <= m {
        var e := CONVS[k].1;
        if len < |e| {
          assert e[..len] <= m <==> e[..len] == m[..len];
        }
      }
      BothHits(m, len, 0);
    }
  }

  lemma {:induction false} BothHits(m: string, len: nat, i: nat)
    requires i <= |CONVS|
    requires forall k | 0 <= k < |CONVS| :: CONVS[k].1[..Min(|CONVS[k].1|, len)] <= m <==> CONVS[k].1 <= m
    ensures BoundHit(m, len, i) == Hit(m, i)
    decreases |CONVS| - i
  {
    if i < |CONVS| {
      BothHits(m, len, i + 1);
    }
  }

  /** The length computed is the length of what is stored. */
  lemma {:induction false} StoredLength(m: string, len: nat)
    requires len <= |m|
    ensures |Stored(m, len)| == DecodedLen(m, len)
    decreases len
  {
    hide Hit, BoundHit, Partial;
    if len > 0 {
      BoundHitIs(m, len);
      HitInTable(m, 0);
      BoundHitInTable(m, len, 0);
      if !Partial(m[..len]) {
        match Hit(m, 0)
        case None => StoredLength(m[1..], len - 1);
        case Some(i) =>
          WholeOrPartial(m, len, i);
          StoredLength(m[|CONVS[i].1|..], len - |CONVS[i].1|);
          StoredNothing(m[|CONVS[i].1|..]);
      }
    }
  }

  lemma StoredNothing(m: string)
    ensures Stored(m, 0) == []
  {
  }

  /** One character, decoded from `n`, in front of the rest. */
  lemma StoredTurn(m: string, len: nat) returns (c: char, n: nat)
    requires 0 < len <= |m|
    ensures 1 <= n <= |m| && (Hit(m, 0).None? ==> n == 1)
    ensures forall left: int | left > 0 ::
      DecodeRun(m, left) == [c] + DecodeRun(m[n..], if Hit(m, 0).None? then left else left - n)
    ensures Partial(m[..len]) ==> Stored(m, len) == [c]
    ensures !Partial(m[..len]) ==> n <= len && Stored(m, len) == [c] + Stored(m[n..], len - n)
    ensures !Partial(m[..len]) ==> Decode(m[..len]) == [c] + Decode(m[n..][..len - n])
    ensures !Partial(m[..len]) ==> Tail(m[..len]) == Tail(m[n..][..len - n])
  {
    hide Hit, Partial;
    HitInTable(m, 0);
    c, n := m[0], 1;
    if Hit(m, 0).Some? {
      var i := Hit(m, 0).value;
      c, n := CONVS[i].0, |CONVS[i].1|;
      WholeOrPartial(m, len, i);
    }
    if !Partial(m[..len]) {
      HitWithin(m, len);
      assert m[..len][n..] == m[n..][..len - n];
    }
  }

  /** And the decoder, which may read past the bound, writes it first. */
  lemma {:induction false} StoredPrefix(m: string, len: nat, left: int)
    requires len <= |m| && len <= left
    ensures Stored(m, len) <= DecodeRun(m, left)
    decreases len
  {
    hide Hit, Partial, Stored, DecodeRun, Decode, Tail;
    if len == 0 {
      StoredNothing(m);
    } else {
      var c, n := StoredTurn(m, len);
      if !Partial(m[..len]) {
        StoredPrefix(m[n..], len - n, if Hit(m, 0).None? then left else left - n);
      }
    }
  }

  lemma {:induction false} PartialDecodes(t: string)
    requires Partial(t)
    ensures Decode(t) == t
  {
    var k :| 0 <= k < |CONVS| && t <= CONVS[k].1 && |t| < |CONVS[k].1|;
    HitInTable(t, 0);
    if Hit(t, 0).Some? {
      PrefixFree(Hit(t, 0).value, k);
    }
    PlainDecodes(t[1..], k);
  }

  /** Behind its first character an escape has no other. */
  lemma {:induction false} PlainDecodes(t: string, k: nat)
    requires k < |CONVS| && '&' !in t
    ensures Decode(t) == t
  {
    TableEscapes('a');
    if t != [] {
      HitInTable(t, 0);
      assert t[0] != '&';
      PlainDecodes(t[1..], k);
    }
  }

  lemma HitWithin(m: string, len: nat)
    requires 0 < len <= |m| && !Partial(m[..len])
    ensures Hit(m[..len], 0) == Hit(m, 0)
  {
    hide Hit, Partial;
    HitInTable(m, 0);
    HitInTable(m[..len], 0);
    forall k | 0 <= k < |CONVS| ensures CONVS[k].1 <= m <==> CONVS[k].1 <= m[..len] {
      if CONVS[k].1 <= m {
        WholeOrPartial(m, len, k);
      }
    }
    SameHits(m, m[..len], 0);
  }

  lemma {:induction false} SameHits(m: string, t: string, i: nat)
    requires i <= |CONVS|
    requires forall k | 0 <= k < |CONVS| :: CONVS[k].1 <= m <==> CONVS[k].1 <= t
    ensures Hit(m, i) == Hit(t, i)
    decreases |CONVS| - i
  {
    if i < |CONVS| {
      SameHits(m, t, i + 1);
    }
  }

  /** The last character before the bound does not begin an escape in memory other than that of the ampersand. */
  predicate AmpersandStays(m: string, len: nat)
    requires 0 < len <= |m|
  {
    forall k | 1 <= k < |CONVS| :: !(CONVS[k].1 <= m[len - 1..])
  }

  /**
   What is stored is the decoded text exactly when the text does not end in part of an escape, or
   ends in a lone ampersand that does not begin some other escape in the memory behind it.
   */
  lemma {:induction false} StoredIff(m: string, len: nat)
    requires len <= |m|
    ensures Stored(m, len) == Decode(m[..len]) <==>
            var tail := Tail(m[..len]); tail == [] || (tail == "&" && AmpersandStays(m, len))
    decreases len
  {
    hide Hit, Partial, Stored, DecodeRun, Decode, Tail, AmpersandStays;
    if len == 0 {
      NothingStored(m);
    } else {
      var c, n := StoredTurn(m, len);
      if Partial(m[..len]) {
        PartialDecodes(m[..len]);
        PartialStored(m, len);
      } else {
        StoredIff(m[n..], len - n);
        TailNonempty(m, len, n);
        var (a, b) := (Stored(m[n..], len - n), Decode(m[n..][..len - n]));
        assert ([c] + a)[1..] == a && ([c] + b)[1..] == b;
      }
    }
  }

  lemma NothingStored(m: string)
    ensures m[..0] == [] && Stored(m, 0) == [] && Decode([]) == [] && Tail([]) == []
  {
  }

  lemma TailNonempty(m: string, len: nat, n: nat)
    requires 0 < n <= len <= |m|
    ensures Tail(m[n..][..len - n]) != [] ==> n < len && AmpersandStays(m, len) == AmpersandStays(m[n..], len - n)
  {
    hide Hit;
    if n < len {
      assert m[n..][len - n - 1..] == m[len - 1..];
    }
  }

  lemma PartialStored(m: string, len: nat)
    requires 0 < len <= |m| && Partial(m[..len])
    ensures Stored(m, len) == m[..len] <==> m[..len] == "&" && AmpersandStays(m, len)
    ensures Tail(m[..len]) == m[..len] != []
  {
    var k :| 0 <= k < |CONVS| && m[..len] <= CONVS[k].1 && len < |CONVS[k].1|;
    TableEscapes('a');
    assert m[0] == m[..len][0] == '&';
    HitInTable(m, 0);
    assert CONVS[0].0 == '&' && CONVS[1].0 != '&' && CONVS[2].0 != '&' && CONVS[3].0 != '&' && CONVS[4].0 != '&';
    assert m[0..] == m;
    if len == 1 {
      assert m[..1] == "&";
      if Hit(m, 0).Some? {
        forall j | 0 <= j < |CONVS| && CONVS[j].1 <= m ensures j == Hit(m, 0).value {
          SameEscape(j, Hit(m, 0).value);
        }
      }
    }
  }

  lemma TailTurn(t: string) returns (n: nat)
    requires t != [] && !Partial(t)
    ensures 1 <= n <= |t| && Tail(t) == Tail(t[n..]) && forall j | 0 < j < n :: !Partial(t[j..])
  {
    HitInTable(t, 0);
    n := 1;
    if Hit(t, 0).Some? {
      var i := Hit(t, 0).value;
      n := |CONVS[i].1|;
      hide Hit, Tail, Partial;
      forall j | 0 < j < n ensures !Partial(t[j..]) {
        AmpersandInside(t, i, j);
      }
    }
  }

  /** The tail is the one suffix that is part of an escape. */
  lemma {:induction false} TailMeans(t: string, j: nat)
    requires j < |t|
    ensures Partial(t[j..]) ==> Tail(t) == t[j..]
    ensures Tail(t) == [] || (Partial(Tail(t)) && |Tail(t)| <= |t| && Tail(t) == t[|t| - |Tail(t)|..])
    decreases |t|
  {
    hide Partial, Tail;
    assert t[0..] == t;
    if Partial(t) {
      TailWhole(t);
      if j > 0 {
        OneAmpersand(t, j);
      }
    } else {
      var n := TailTurn(t);
      if n == |t| {
        TailNothing(t[n..]);
      } else {
        var i := if j < n then 0 else j - n;
        TailMeans(t[n..], i);
        assert t[n..][i..] == t[n + i..];
        var w := |Tail(t[n..])|;
        assert w <= |t| - n && t[n..][|t| - n - w..] == t[|t| - w..];
      }
    }
  }

  lemma TailWhole(t: string)
    requires Partial(t)
    ensures Tail(t) == t
  {
  }

  lemma TailNothing(t: string)
    requires t == []
    ensures Tail(t) == []
  {
  }

  /** A part of an escape has an ampersand at its start and nowhere else. */
  lemma OneAmpersand(t: string, j: nat)
    requires Partial(t) && 0 < j < |t|
    ensures !Partial(t[j..])
  {
    var k :| 0 <= k < |CONVS| && t <= CONVS[k].1 && |t| < |CONVS[k].1|;
    AmpersandFirst(k, j);
    TableEscapes('a');
    assert t[j..][0] == t[j] == CONVS[k].1[j];
  }

  lemma AmpersandInside(t: string, i: nat, j: nat)
    requires i < |CONVS| && CONVS[i].1 <= t && 0 < j < |CONVS[i].1|
    ensures !Partial(t[j..])
  {
    AmpersandFirst(i, j);
    TableEscapes('a');
    assert t[j..][0] == t[j] == CONVS[i].1[j];
  }

  lemma AmpersandFirst(k: nat, j: nat)
    requires k < |CONVS| && 0 < j < |CONVS[k].1|
    ensures CONVS[k].1[j] != '&'
  {
  }

  /** A text that ends in the middle of what could be an escape is cut short. */
  lemma CutShort()
    ensures Stored("a&a", 3) == "a&" && Decode("a&a") == "a&a"
  {
    TableEscapes('a');
    assert "a&a"[..3] == "a&a" && "a&a"[1..] == "&a" && "&a"[..2] == "&a" && "&a"[1..] == "a" && "a"[1..] == "";
    assert Partial("&a") by { assert "&a" <= CONVS[0].1; }
    HitInTable("a&a", 0);
    HitInTable("&a", 0);
    HitInTable("a", 0);
    assert !Partial("a&a") by { assert "a&a"[0] != '&'; }
    assert Stored("&a", 2) == "&";
    PartialDecodes("&a");
  }

  lemma PastEnd(m: string, len: nat)
    requires |m| < len
    ensures BoundHit(m, len, 0) == Hit(m, 0)
  {
    hide Hit, BoundHit;
    forall k | 0 <= k < |CONVS| ensures CONVS[k].1[..Min(|CONVS[k].1|, len)] <= m <==> CONVS[k].1 <= m {
    }
    BothHits(m, len, 0);
  }

  /** A bound past the end of the string is no bound, for the length and for the text. */
  lemma {:induction false} NoBoundLength(m: string, len: nat)
    requires |m| < len
    ensures DecodedLen(m, len) == |Decode(m)|
    decreases |m|
  {
    hide Hit, BoundHit;
    if m != [] {
      HitInTable(m, 0);
      PastEnd(m, len);
      match Hit(m, 0)
      case None => NoBoundLength(m[1..], len - 1);
      case Some(i) => NoBoundLength(m[|CONVS[i].1|..], len - |CONVS[i].1|);
    }
  }

  lemma {:induction false} NoBoundText(m: string, left: int)
    requires |m| <= left
    ensures DecodeRun(m, left) == Decode(m)
    decreases |m|
  {
    hide Hit;
    if m != [] {
      HitInTable(m, 0);
      match Hit(m, 0)
      case None => NoBoundText(m[1..], left);
      case Some(i) => NoBoundText(m[|CONVS[i].1|..], left - |CONVS[i].1|);
    }
  }

  // ---- Escaped texts

  /** An escaped character is recognised as itself. */
  lemma HitEscape(c: char, rest: string)
    ensures var m := Escape(c) + rest;
            match Hit(m, 0)
            case None => Escape(c) == [c]
            case Some(i) => i < |CONVS| && CONVS[i] == (c, Escape(c))
  {
    var m := Escape(c) + rest;
    TableEscapes(c);
    HitInTable(m, 0);
    if k :| 0 <= k < |CONVS| && CONVS[k].0 == c {
      assert CONVS[k].1 <= m;
      var i := Hit(m, 0).value;
      assert CONVS[i].1[1] == m[1] == CONVS[k].1[1] && CONVS[i].1[2] == m[2] == CONVS[k].1[2];
      SameEscape(i, k);
    }
  }

  lemma SameEscape(i: nat, j: nat)
    requires i < |CONVS| && j < |CONVS| && CONVS[i].1[1] == CONVS[j].1[1] && CONVS[i].1[2] == CONVS[j].1[2]
    ensures i == j
  {
  }

  /** Decoding an escaped text gives it back, and it never ends in part of an escape. */
  lemma {:induction false} DecodeInvertsEncode(s: string)
    ensures Decode(Encode(s)) == s && Tail(Encode(s)) == []
  {
    if s != [] {
      var rest := Encode(s[1..]);
      DecodeInvertsEncode(s[1..]);
      HitEscape(s[0], rest);
      var e := Escape(s[0]) + rest;
      NotPartial(s[0], rest);
      assert e[|Escape(s[0])|..] == rest;
      assert s == [s[0]] + s[1..];
    }
  }

  lemma NotPartial(c: char, rest: string)
    ensures !Partial(Escape(c) + rest)
  {
    var e := Escape(c) + rest;
    TableEscapes(c);
    if Partial(e) {
      var k :| 0 <= k < |CONVS| && e <= CONVS[k].1 && |e| < |CONVS[k].1|;
      assert e[0] == '&';
      if i :| 0 <= i < |CONVS| && CONVS[i].0 == c {
        assert CONVS[i].1 <= CONVS[k].1;
        PrefixFree(i, k);
      }
    }
  }

  /** The inner loop of cdatastr__decode */
  method FindEntity(s: string) returns (r: Option<nat>)
    ensures r == Hit(s, 0)
  {
    for i := 0 to |CONVS|
      invariant Hit(s, i) == Hit(s, 0)
    {
      if CONVS[i].1 <= s {
        return Some(i);
      }
    }
    return None;
  }

  /** cdatastr__decode into `buflen` characters and a terminator */
  method DecodeInto(buf: array<char>, buflen: nat, m: string, instrlen: int) returns (n: nat)
    requires buflen < buf.Length
    modifies buf
    ensures var d := DecodeRun(m, instrlen); n == Min(buflen, |d|) && buf[..n] == d[..n] && buf[n] == '\0'
  {
    hide Hit, DecodeRun;
    var p, left := 0, instrlen;
    n := 0;
    while p < |m| && n < buflen && left > 0
      invariant p <= |m| && n <= buflen
      invariant buf[..n] + DecodeRun(m[p..], left) == DecodeRun(m, instrlen)
      decreases |m| - p
    {
      var hit := FindEntity(m[p..]);
      DecodeTurn(m[p..], left);
      if hit.Some? {
        buf[n] := CONVS[hit.value].0;
        assert m[p..][|CONVS[hit.value].1|..] == m[p + |CONVS[hit.value].1|..];
        p := p + |CONVS[hit.value].1|;
        left := left - |CONVS[hit.value].1|;
      } else {
        buf[n] := m[p];
        assert m[p..][1..] == m[p + 1..];
        p := p + 1;  // the source does not count this character down
      }
      n := n + 1;
    }
    DecodeTurn(m[p..], left);
    ghost var done := buf[..n];
    WrittenPart(done, DecodeRun(m[p..], left), buflen);
    buf[n] := '\0';
    assert buf[..n] == done;
  }

  lemma WrittenPart(done: string, rest: string, buflen: nat)
    requires |done| == buflen || (|done| < buflen && rest == [])
    ensures |done| == Min(buflen, |done + rest|) && (done + rest)[..|done|] == done
  {
  }

  lemma DecodeTurn(m: string, left: int)
    ensures m == [] || left <= 0 ==> DecodeRun(m, left) == []
    ensures m != [] && left > 0 ==>
            match Hit(m, 0)
            case None => DecodeRun(m, left) == [m[0]] + DecodeRun(m[1..], left)
            case Some(i) =>
              i < |CONVS| && 1 <= |CONVS[i].1| <= |m| &&
              DecodeRun(m, left) == [CONVS[i].0] + DecodeRun(m[|CONVS[i].1|..], left - |CONVS[i].1|)
  {
    HitInTable(m, 0);
  }

  lemma LenTurn(m: string, len: nat)
    ensures m == [] || len == 0 ==> DecodedLen(m, len) == 0
    ensures m != [] && len > 0 ==>
            match BoundHit(m, len, 0)
            case None => DecodedLen(m, len) == 1 + DecodedLen(m[1..], len - 1)
            case Some(i) =>
              && i < |CONVS| && |CONVS[i].1| >= 1
              && (len <= |CONVS[i].1| ==> DecodedLen(m, len) == 1)
              && (len > |CONVS[i].1| ==>
                  |CONVS[i].1| <= |m| && DecodedLen(m, len) == 1 + DecodedLen(m[|CONVS[i].1|..], len - |CONVS[i].1|))
  {
    BoundHitInTable(m, len, 0);
  }

  /** cdatastr__decodedstrlen */
  method CountDecoded(m: string, instrlen: nat) returns (n: nat)
    ensures n == DecodedLen(m, instrlen)
  {
    hide DecodedLen;
    var p, left := 0, instrlen;
    n := 0;
    while p < |m| && left > 0
      invariant 0 <= p <= |m| && left >= 0
      invariant n + DecodedLen(m[p..], left) == DecodedLen(m, instrlen)
      decreases left
    {
      LenTurn(m[p..], left);
      var i := 0;
      while i < |CONVS| && !(CONVS[i].1[..Min(|CONVS[i].1|, left)] <= m[p..])
        invariant i <= |CONVS| && BoundHit(m[p..], left, i) == BoundHit(m[p..], left, 0)
      {
        i := i + 1;
      }
      n := n + 1;
      var step := if i < |CONVS| then |CONVS[i].1| else 1;
      if left <= step {
        LenTurn(m[p + 1..], 0);
        return;
      }
      assert m[p..][step..] == m[p + step..];
      p, left := p + step, left - step;
    }
    LenTurn(m[p..], left);
  }

  /** lmx_add_cdata_bound_encoded: the text stored for character data of `len` characters at `m` */
  method AddEncoded(m: string, len: nat) returns (stored: Option<string>)
    ensures var d := if len <= |m| then Stored(m, len) else Decode(m);
            stored == if d == [] then None else Some(d)
    ensures forall t | t != "" && m[..Min(len, |m|)] == Encode(t) :: stored == Some(t)
  {
    hide DecodeRun, DecodedLen, Stored, Encode, Decode, Tail;
    var buflen := CountDecoded(m, len);
    if len <= |m| {
      StoredLength(m, len);
      StoredPrefix(m, len, len);
    } else {
      NoBoundLength(m, len);
      NoBoundText(m, len);
    }
    var buf := new char[buflen + 1](_ => '\0');
    var n := DecodeInto(buf, buflen, m, len);
    assert buf[..n] == if len <= |m| then Stored(m, len) else Decode(m);
    stored := if buflen == 0 then None else Some(buf[..buflen]);
    forall t | t != "" && m[..Min(len, |m|)] == Encode(t) ensures stored == Some(t) {
      DecodeInvertsEncode(t);
      if len <= |m| {
        StoredIff(m, len);
      } else {
        assert m[..|m|] == m;
      }
    }
  }
}
