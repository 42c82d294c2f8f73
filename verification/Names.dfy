/** Screen-name equality and hashing, as in gnr/node.c. */
module Names {

  /** A character of a C string in the C locale: not NUL, seven bits. */
  type Ascii = c: char | 0 < c as int < 128 witness 'a'

  type Text = seq<Ascii>

  function ToLower(c: Ascii): Ascii {
    if 'A' <= c <= 'Z' then c + ' ' else c
  }

  function ToUpper(c: Ascii): Ascii {
    if 'a' <= c <= 'z' then c - ' ' else c
  }

  /** The text without spaces and case. */
  function Folded(s: Text): Text {
    if s == [] then []
    else if s[0] == ' ' then Folded(s[1..])
    else [ToLower(s[0])] + Folded(s[1..])
  }

  /** The number of spaces that end the text. */
  function Trailing(s: Text): (n: nat)
    ensures n <= |s|
    ensures forall i | |s| - n <= i < |s| :: s[i] == ' '
    ensures n < |s| ==> s[|s| - n - 1] != ' '
  {
    if s == [] then 0 else
    var n := Trailing(s[1..]);
    assert forall i | 1 <= i < |s| :: s[i] == s[1..][i - 1];
    if s[0] == ' ' && n == |s| - 1 then n + 1 else n
  }

  /** What gnr_node_namecmp decides: spaces and case are ignored, except for spaces at the end. */
  predicate NameEq(a: Text, b: Text) {
    Folded(a) == Folded(b) && Trailing(a) == Trailing(b)
  }

  predicate AllSpaces(s: Text) {
    Trailing(s) == |s|
  }

  lemma {:induction false} NothingFolded(s: Text)
    ensures Folded(s) == [] <==> AllSpaces(s)
  {
    if s != [] {
      NothingFolded(s[1..]);
    }
  }

  lemma SkipLeft(a: Text, b: Text)
    requires a != [] && b != [] && a[0] == ' ' && b[0] != ' '
    ensures NameEq(a, b) <==> NameEq(a[1..], b)
    ensures NameEq(b, a) <==> NameEq(b, a[1..])
  {
    NothingFolded(a[1..]);
  }

  lemma SkipBoth(a: Text, b: Text)
    requires a != [] && b != [] && a[0] == ' ' && b[0] == ' '
    ensures NameEq(a, b) <==> NameEq(a[1..], b[1..])
  {
    NothingFolded(a[1..]);
    NothingFolded(b[1..]);
  }

  lemma CompareHeads(a: Text, b: Text)
    requires a != [] && b != [] && a[0] != ' ' && b[0] != ' '
    ensures NameEq(a, b) <==> ToUpper(a[0]) == ToUpper(b[0]) && NameEq(a[1..], b[1..])
  {
    assert Folded(a)[0] == ToLower(a[0]) && Folded(a)[1..] == Folded(a[1..]);
    assert Folded(b)[0] == ToLower(b[0]) && Folded(b)[1..] == Folded(b[1..]);
    assert ToUpper(a[0]) == ToUpper(b[0]) <==> ToLower(a[0]) == ToLower(b[0]);
  }

  lemma OneEmpty(a: Text, b: Text)
    requires a == [] || b == []
    ensures NameEq(a, b) <==> a == b
  {
    NothingFolded(a);
    NothingFolded(b);
  }

  lemma NameEqMeans(a: Text, b: Text)
    ensures NameEq(a, b) <==> Folded(a) == Folded(b) && Trailing(a) == Trailing(b)
  {
  }

  /**
   gnr_node_namecmp: 0 for equal names, 1 for different ones.  Its comment promises that space and
   case are ignored; of names that differ only in space and case it finds equal exactly those that
   end in equally many spaces.
   */
  method NameCmp(a: Text, b: Text) returns (r: int)
    ensures r == if NameEq(a, b) then 0 else 1
    ensures Folded(a) != Folded(b) ==> r == 1
    ensures Folded(a) == Folded(b) ==> (r == 0 <==> Trailing(a) == Trailing(b))
  {
    hide NameEq;
    NameEqMeans(a, b);
    var i, j := 0, 0;
    while i < |a| && j < |b|
      invariant i <= |a| && j <= |b|
      invariant NameEq(a[i..], b[j..]) <==> NameEq(a, b)
      decreases |a| - i + |b| - j
    {
      if a[i] == ' ' || b[j] == ' ' {
        if a[i] == ' ' && b[j] == ' ' {
          SkipBoth(a[i..], b[j..]);
        } else if a[i] == ' ' {
          SkipLeft(a[i..], b[j..]);
        } else {
          SkipLeft(b[j..], a[i..]);
        }
        var skipA := a[i] == ' ';
        if b[j] == ' ' {
          j := j + 1;
        }
        if skipA {
          i := i + 1;
        }
      } else {
        CompareHeads(a[i..], b[j..]);
        if ToUpper(a[i]) != ToUpper(b[j]) {
          return 1;
        }
        i, j := i + 1, j + 1;
      }
    }
    OneEmpty(a[i..], b[j..]);
    // one of the cursors is at its NUL: they agree only if both are
    r := if i == |a| && j == |b| then 0 else 1;
  }

  /** The same letter in either case, or the same character. */
  predicate SameLetter(c: Ascii, d: Ascii) {
    var (low, high) := if c < d then (c as int, d as int) else (d as int, c as int);
    c == d || (65 <= low <= 90 && high == low + 32)
  }

  /** Names without spaces are equal character by character, up to case. */
  lemma {:induction false} SolidNames(a: Text, b: Text)
    requires ' ' !in a && ' ' !in b
    ensures NameEq(a, b) <==> |a| == |b| && forall i | 0 <= i < |a| :: SameLetter(a[i], b[i])
  {
    if a == [] || b == [] {
      OneEmpty(a, b);
    } else {
      UpperSame(a[0], b[0]);
      hide NameEq, SameLetter, ToUpper;
      SolidNames(a[1..], b[1..]);
      CompareHeads(a, b);
      if |a| == |b| {
        AllFrom(a, b);
      }
    }
  }

  lemma UpperSame(c: Ascii, d: Ascii)
    ensures ToUpper(c) == ToUpper(d) <==> SameLetter(c, d)
  {
  }

  lemma AllFrom(a: Text, b: Text)
    requires |a| == |b| > 0
    ensures (forall i | 0 <= i < |a| :: SameLetter(a[i], b[i])) <==>
            SameLetter(a[0], b[0]) && forall i | 0 <= i < |a[1..]| :: SameLetter(a[1..][i], b[1..][i])
  {
    hide SameLetter;
    assert forall i | 1 <= i < |a| :: a[i] == a[1..][i - 1] && b[i] == b[1..][i - 1];
  }

  /** A space in front of a character that is none makes no difference, wherever it is. */
  lemma {:induction false} SpaceInside(s: Text, c: Ascii, t: Text)
    requires c != ' '
    ensures NameEq(s + [' ', c] + t, s + [c] + t)
  {
    var (a, b) := (s + [' ', c] + t, s + [c] + t);
    if s == [] {
      assert a[1..] == b;
      SkipLeft(a, b);
    } else {
      SpaceInside(s[1..], c, t);
      assert a[1..] == s[1..] + [' ', c] + t && b[1..] == s[1..] + [c] + t;
      if s[0] == ' ' {
        SkipBoth(a, b);
      } else {
        CompareHeads(a, b);
      }
    }
  }

  /** A space at the end makes one: the other name must end in one as well. */
  lemma SpaceAtEnd(s: Text, t: Text)
    ensures NameEq(s + [' '], t) <==> t != [] && t[|t| - 1] == ' ' && NameEq(s, t[..|t| - 1])
  {
    FoldedSpace(s);
    if t != [] && t[|t| - 1] == ' ' {
      FoldedSpace(t[..|t| - 1]);
      assert t == t[..|t| - 1] + [' '];
    } else if t != [] {
      assert Trailing(t) == 0;
    }
  }

  lemma {:induction false} FoldedSpace(s: Text)
    ensures Folded(s + [' ']) == Folded(s) && Trailing(s + [' ']) == Trailing(s) + 1
  {
    if s == [] {
      assert [' '][1..] == [];
    } else {
      FoldedSpace(s[1..]);
      assert (s + [' '])[1..] == s[1..] + [' '];
    }
  }

  lemma NameEqEquivalence(a: Text, b: Text, c: Text)
    ensures NameEq(a, a)
    ensures NameEq(a, b) ==> NameEq(b, a)
    ensures NameEq(a, b) && NameEq(b, c) ==> NameEq(a, c)
  {
  }

  lemma TrailingSpaceDistinguishes()
    ensures Folded("mid") == Folded("mid ") && !NameEq("mid", "mid ")
  {
    assert "mid"[1..] == "id" && "id"[1..] == "d" && "d"[1..] == "";
    assert "mid "[1..] == "id " && "id "[1..] == "d " && "d "[1..] == " " && " "[1..] == "";
  }

  // ---- Hashing

  const BUCKETS := 64

  /** One character that is not a space goes into the 16-bit key. */
  function Mix(key: bv16, c: Ascii): bv16 {
    (key ^ (ToLower(c) as int as bv16)) << 1
  }

  function MixAll(key: bv16, s: Text): bv16
    decreases s
  {
    if s == [] then key
    else if s[0] == ' ' then MixAll(key, s[1..])
    else MixAll(Mix(key, s[0]), s[1..])
  }

  function Index(name: Text): (i: nat)
    ensures i < BUCKETS
  {
    MixAll(0, name) as nat % BUCKETS
  }

  /** gnr_node__hash_getkey */
  method HashKey(name: Text) returns (key: bv16)
    ensures key == MixAll(0, name)
  {
    hide Mix;
    key := 0;
    for i := 0 to |name|
      invariant MixAll(key, name[i..]) == MixAll(0, name)
    {
      if name[i] != ' ' {
        key := Mix(key, name[i]);
      }
      assert name[i..][1..] == name[i + 1..];
    }
  }

  lemma {:induction false} KeySeesFoldedText(key: bv16, s: Text)
    ensures MixAll(key, s) == MixAll(key, Folded(s))
    decreases s
  {
    hide Mix;
    if s != [] {
      if s[0] == ' ' {
        KeySeesFoldedText(key, s[1..]);
      } else {
        KeySeesFoldedText(Mix(key, s[0]), s[1..]);
        assert Folded(s)[1..] == Folded(s[1..]);
        MixFolded(key, s[0]);
      }
    }
  }

  /** Shifted left `n` places, bit by bit. */
  function Shifted(k: bv16, n: nat): bv16 {
    if n == 0 then k else Shifted(k, n - 1) << 1
  }

  /** The code of a character in lower case. */
  function Code(c: Ascii): bv16 {
    (if 65 <= c as int <= 90 then c as int + 32 else c as int) as bv16
  }

  /** Every character, in lower case, shifted by how far it is from the end. */
  function Spread(s: Text): bv16 {
    if s == [] then 0
    else Shifted(Code(s[0]), |s|) ^ Spread(s[1..])
  }

  lemma {:induction false} ShiftedXor(k: bv16, l: bv16, m: bv16, n: nat)
    requires m == k ^ l
    ensures Shifted(m, n) == Shifted(k, n) ^ Shifted(l, n)
  {
    if n > 0 {
      ShiftedXor(k, l, m, n - 1);
      XorShift(Shifted(k, n - 1), Shifted(l, n - 1), Shifted(m, n - 1));
    }
  }

  lemma XorShift(k: bv16, l: bv16, m: bv16)
    requires m == k ^ l
    ensures m << 1 == (k << 1) ^ (l << 1)
  {
  }

  lemma {:induction false} ShiftedMore(k: bv16, n: nat)
    ensures Shifted(k << 1, n) == Shifted(k, n + 1)
  {
    if n > 0 {
      ShiftedMore(k, n - 1);
    }
  }

  lemma {:induction false} MixSpreads(key: bv16, s: Text)
    requires ' ' !in s
    ensures MixAll(key, s) == Shifted(key, |s|) ^ Spread(s)
    decreases s
  {
    hide *;
    SpreadTurn(key, s);
    if s == [] {
      NotShifted(key);
    } else {
      MixSpreads(Mix(key, s[0]), s[1..]);
      MixIs(key, s[0]);
      DoubledShifted(key, Code(s[0]), Mix(key, s[0]), |s|);
      XorAssoc(Shifted(key, |s|), Shifted(Code(s[0]), |s|), Spread(s[1..]));
    }
  }

  lemma DoubledShifted(k: bv16, l: bv16, m: bv16, n: nat)
    requires n > 0 && m == (k ^ l) << 1
    ensures Shifted(m, n - 1) == Shifted(k, n) ^ Shifted(l, n)
  {
    ShiftedMore(k ^ l, n - 1);
    ShiftedXor(k, l, k ^ l, n);
  }

  lemma NotShifted(k: bv16)
    ensures Shifted(k, 0) == k == k ^ 0
  {
  }

  lemma MixIs(key: bv16, c: Ascii)
    ensures Mix(key, c) == (key ^ Code(c)) << 1
  {
  }

  lemma SpreadTurn(key: bv16, s: Text)
    ensures s == [] ==> MixAll(key, s) == key && Spread(s) == 0
    ensures s != [] ==> Spread(s) == Shifted(Code(s[0]), |s|) ^ Spread(s[1..])
    ensures s != [] && s[0] != ' ' ==> MixAll(key, s) == MixAll(Mix(key, s[0]), s[1..])
  {
    hide Mix, Code, Shifted;
  }

  lemma XorAssoc(a: bv16, b: bv16, c: bv16)
    ensures (a ^ b) ^ c == a ^ (b ^ c)
  {
  }

  lemma {:induction false} NothingShifted(n: nat)
    ensures Shifted(0, n) == 0
  {
    if n > 0 {
      NothingShifted(n - 1);
    }
  }

  lemma {:induction false} FoldedSolid(s: Text)
    ensures ' ' !in Folded(s)
  {
    if s != [] {
      FoldedSolid(s[1..]);
    }
  }

  /**
   The key is the exclusive-or of the characters, without space and case, each shifted by its
   distance from the end, and the bucket is the key modulo 64.
   */
  lemma KeyIs(name: Text)
    ensures MixAll(0, name) == Spread(Folded(name)) && Index(name) == MixAll(0, name) as nat % 64
  {
    KeySeesFoldedText(0, name);
    FoldedSolid(name);
    MixSpreads(0, Folded(name));
    NothingShifted(|Folded(name)|);
  }

  /** Every key is even, so that half of the buckets stay empty. */
  lemma {:induction false} EvenKeys(key: bv16, s: Text)
    requires key & 1 == 0
    ensures MixAll(key, s) & 1 == 0
    decreases s
  {
    if s != [] {
      if s[0] == ' ' {
        EvenKeys(key, s[1..]);
      } else {
        MixEven(key, s[0]);
        EvenKeys(Mix(key, s[0]), s[1..]);
      }
    }
  }

  lemma MixEven(key: bv16, c: Ascii)
    ensures Mix(key, c) & 1 == 0
  {
    ShiftEven(key ^ (ToLower(c) as int as bv16));
  }

  lemma ShiftEven(k: bv16)
    ensures (k << 1) & 1 == 0
  {
  }

  lemma MixFolded(key: bv16, c: Ascii)
    ensures Mix(key, ToLower(c)) == Mix(key, c)
    ensures c != ' ' ==> ToLower(c) != ' '
  {
  }

  /** Names that compare equal hash to the same bucket. */
  lemma EqualNamesShareBucket(a: Text, b: Text)
    requires NameEq(a, b)
    ensures MixAll(0, a) == MixAll(0, b) && Index(a) == Index(b)
  {
    KeySeesFoldedText(0, a);
    KeySeesFoldedText(0, b);
  }
}
