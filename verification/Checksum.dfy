/** The IPv4 header checksum of naf/ipv4/ipv4.c against the Internet checksum of RFC 1071. */
module Checksum {
  import opened Wire

  const M := 0x1_0000

  /** Byte order of the host. */
  datatype Order = Big | Little

  /** The 16-bit word a host loads from two bytes. */
  function Word(first: byte, second: byte, order: Order): u16 {
    if order.Big? then first as int * 0x100 + second else second as int * 0x100 + first
  }

  /** The sum of all words, an odd last byte being padded with zero. */
  function WordSum(s: Bytes, order: Order): nat {
    if s == [] then 0
    else if |s| == 1 then Word(s[0], 0, order)
    else Word(s[0], s[1], order) + WordSum(s[2..], order)
  }

  /** End-around carry, once. */
  function FoldOnce(n: nat): nat {
    n / M + n % M
  }

  function Swap(w: u16): u16 {
    w % 0x100 * 0x100 + w / 0x100
  }

  /** htons */
  function ToNet(w: u16, order: Order): u16 {
    if order.Big? then w else Swap(w)
  }

  /** What naf_ipv4__hdrcsum computes: host-order sum, one fold, byte swap, complement. */
  function HostChecksum(s: Bytes, order: Order): u16 {
    M - 1 - ToNet(FoldOnce(WordSum(s, order)) % M, order)
  }

  /** naf_ipv4__hdrcsum */
  method HdrCsum(s: Bytes, order: Order) returns (c: u16)
    requires |s| < M
    ensures c == HostChecksum(s, order)
  {
    hide Word, Swap;
    SumBound(s, order);
    var sum: u32, i := 0, 0;
    while |s| - i > 1
      invariant 0 <= i <= |s|
      invariant sum + WordSum(s[i..], order) == WordSum(s, order)
    {
      assert s[i..][2..] == s[i + 2..];
      sum := sum as int + Word(s[i], s[i + 1], order);
      i := i + 2;
    }
    if i < |s| {
      sum := sum as int + Word(s[i], 0, order);
    }
    sum := sum / M + sum % M;
    sum := ToNet(sum % M, order);
    return M - 1 - sum;
  }

  // ---- The reference, section 1 of RFC 1071

  /** The one's-complement sum: carries are added back until none is left. */
  function OnesSum(n: nat): (r: u16)
    ensures n > 0 ==> r > 0
  {
    if n < M then n else OnesSum(FoldOnce(n))
  }

  function InternetChecksum(s: Bytes): u16 {
    M - 1 - OnesSum(WordSum(s, Big))
  }

  /** Words are in network order on a big host, and an odd byte is padded. */
  lemma WordsMean(first: byte, second: byte, s: Bytes, order: Order)
    ensures Word(first, second, Big) == BigEndian([first, second])
    ensures Word(first, second, Little) == BigEndian([second, first])
    ensures |s| % 2 == 1 ==> WordSum(s + [0], order) == WordSum(s, order)
  {
    BigEndian2([first, second]);
    BigEndian2([second, first]);
    if |s| % 2 == 1 {
      SumAppend(s[..|s| - 1], [s[|s| - 1]], order);
      SumAppend(s[..|s| - 1], [s[|s| - 1], 0], order);
      assert s[..|s| - 1] + [s[|s| - 1]] == s && s[..|s| - 1] + [s[|s| - 1], 0] == s + [0];
      assert [s[|s| - 1], 0][2..] == [];
    }
  }

  lemma {:induction false} SumAppend(s: Bytes, t: Bytes, order: Order)
    requires |s| % 2 == 0
    ensures WordSum(s + t, order) == WordSum(s, order) + WordSum(t, order)
    decreases |s|
  {
    if s == [] {
      assert s + t == t;
    } else {
      SumAppend(s[2..], t, order);
      assert (s + t)[2..] == s[2..] + t;
    }
  }

  /** Section 1 of RFC 1071: with the checksum in its place, the one's-complement sum is all ones. */
  lemma SumsToOnes(s: Bytes, t: Bytes)
    requires |s| % 2 == 0
    ensures var c := InternetChecksum(s + [0, 0] + t);
            OnesSum(WordSum(s + Be16(c) + t, Big)) == 0xffff
  {
    hide OnesSum;
    var z := s + [0, 0] + t;
    var c := InternetChecksum(z);
    var n := WordSum(z, Big);
    SumAppend(s + [0, 0], t, Big);
    SumAppend(s + Be16(c), t, Big);
    SumAppend(s, [0, 0], Big);
    SumAppend(s, Be16(c), Big);
    assert WordSum(s + Be16(c) + t, Big) == n + c by {
      assert [0 as byte, 0 as byte][2..] == [] && Be16(c)[2..] == [];
    }
    var i := OnesSumCong(n);
    var j := OnesSumCong(n + c);
    OnesSumZero(n);
    OnesSumZero(n + c);
    assert OnesSum(n + c) == (M - 1) * (i - j + 1);
  }

  // ---- Arithmetic modulo 65535

  lemma {:induction false} OnesSumCong(n: nat) returns (k: int)
    ensures n == OnesSum(n) + (M - 1) * k
  {
    if n < M {
      k := 0;
    } else {
      var j := OnesSumCong(FoldOnce(n));
      k := j + n / M;
    }
  }

  /** Loading the words in the other order multiplies the sum by 256 modulo 65535. */
  lemma {:induction false} SumSwap(s: Bytes) returns (k: int)
    ensures WordSum(s, Little) == 0x100 * WordSum(s, Big) - (M - 1) * k
    ensures WordSum(s, Little) == 0 <==> WordSum(s, Big) == 0
  {
    if s == [] {
      k := 0;
    } else if |s| == 1 {
      k := s[0];
    } else {
      var j := SumSwap(s[2..]);
      k := j + s[0];
    }
  }

  lemma SwapTimes(w: u16)
    ensures Swap(w) == 0x100 * w - (M - 1) * (w / 0x100)
    ensures Swap(w) == 0 <==> w == 0
  {
  }

  /** Section 2(B) of RFC 1071: the sum can be formed in either byte order. */
  lemma ByteOrderIndependent(s: Bytes)
    ensures Swap(OnesSum(WordSum(s, Little))) == OnesSum(WordSum(s, Big))
  {
    hide WordSum, OnesSum, Swap;
    var (l, b) := (WordSum(s, Little), WordSum(s, Big));
    var (x, y) := (OnesSum(l), OnesSum(b));
    var i := OnesSumCong(l);
    var j := OnesSumCong(b);
    var k := SumSwap(s);
    SwapTimes(x);
    // Swap(x) == 256 x == 256 l == 65536 b == b == y, all modulo 65535
    var d := 0x100 * (0 - i) - x / 0x100 - 0x100 * k + b + j;
    assert Swap(x) == y + (M - 1) * d by {
      assert 0x100 * x as int == 0x100 * l - (M - 1) * (0x100 * i);
      assert 0x100 * l == 0x100 * 0x100 * b - (M - 1) * (0x100 * k);
    }
    OnesSumZero(l);
    OnesSumZero(b);
    SameResidue(Swap(x), y, d);
  }

  lemma SameResidue(x: u16, y: u16, d: int)
    requires x == y + (M - 1) * d && (x == 0 <==> y == 0)
    ensures x == y
  {
  }

  lemma OnesSumZero(n: nat)
    ensures OnesSum(n) == 0 <==> n == 0
  {
  }

  /** One fold is enough for the sum. */
  predicate FoldsOnce(n: nat) {
    FoldOnce(n) < M
  }

  lemma FoldOnceExact(n: nat)
    requires n < 0x1_0000_0000
    ensures FoldOnce(n) % M == OnesSum(n) <==> FoldsOnce(n)
  {
    if !FoldsOnce(n) {
      assert OnesSum(n) == OnesSum(FoldOnce(n));
      assert FoldOnce(FoldOnce(n)) == FoldOnce(n) % M + 1;
    }
  }

  lemma {:induction false} SumBound(s: Bytes, order: Order)
    ensures WordSum(s, order) <= (|s| + 1) / 2 * (M - 1)
  {
    if |s| >= 2 {
      SumBound(s[2..], order);
    }
  }

  lemma SwapInjective(v: u16, w: u16)
    requires Swap(v) == Swap(w)
    ensures v == w
  {
  }

  /**
   For every buffer of 16-bit length, on a host of either byte order, the code computes the
   Internet checksum exactly when one carry fold is enough.
   */
  lemma ChecksumCorrectIff(s: Bytes, order: Order)
    requires |s| < M
    ensures HostChecksum(s, order) == InternetChecksum(s) <==> FoldsOnce(WordSum(s, order))
  {
    hide WordSum, OnesSum, Swap, FoldOnce;
    var n := WordSum(s, order);
    SumBound(s, order);
    FoldOnceExact(n);
    ByteOrderIndependent(s);
    if order.Little? && HostChecksum(s, order) == InternetChecksum(s) {
      SwapInjective(FoldOnce(n) % M, OnesSum(n));
    }
  }

  lemma WordsFrom(s: Bytes, i: nat, order: Order)
    requires i + 2 <= |s|
    ensures WordSum(s[i..], order) == Word(s[i], s[i + 1], order) + WordSum(s[i + 2..], order)
  {
    assert s[i..][2..] == s[i + 2..];
  }

  lemma Words20(s: Bytes, order: Order)
    requires |s| == 20
    ensures WordSum(s, order) == Words8(s, order) + Words8(s[8..], order) + Words4(s[16..], order)
  {
    hide Word;
    assert s[0..] == s;
    Words8From(s, 0, order);
    Words8From(s, 8, order);
    hide WordSum;
    WordsFrom(s, 16, order);
    WordsFrom(s, 18, order);
    NoWords(s[20..], order);
  }

  lemma NoWords(s: Bytes, order: Order)
    requires s == []
    ensures WordSum(s, order) == 0
  {
  }

  lemma Words8From(s: Bytes, i: nat, order: Order)
    requires i + 8 <= |s|
    ensures WordSum(s[i..], order) == Words8(s[i..], order) + WordSum(s[i + 8..], order)
  {
    hide Word, WordSum;
    WordsFrom(s, i, order);
    WordsFrom(s, i + 2, order);
    WordsFrom(s, i + 4, order);
    WordsFrom(s, i + 6, order);
  }

  function Words4(t: Bytes, order: Order): nat
    requires |t| >= 4
  {
    Word(t[0], t[1], order) + Word(t[2], t[3], order)
  }

  function Words8(t: Bytes, order: Order): nat
    requires |t| >= 8
  {
    Word(t[0], t[1], order) + Word(t[2], t[3], order) + Word(t[4], t[5], order) + Word(t[6], t[7], order)
  }

  /** A packet header, with its checksum field zero, whose sum needs two folds on a host of this order. */
  function TwoFolds(order: Order): (h: Bytes)
    ensures |h| == 20
  {
    [0x45, 0, 0, 20, 0, 0, 0, 0, 1, 0, 0, 0, 0xff, 0xff]
    + (if order.Big? then [0xb9, 0xec] else [0xba, 0xeb]) + [0, 0, 0, 0]
  }

  /** Its checksum is computed wrongly. */
  lemma ChecksumOffByOne(order: Order)
    ensures WordSum(TwoFolds(order), order) == 0x1ffff
    ensures HostChecksum(TwoFolds(order), order) != InternetChecksum(TwoFolds(order))
  {
    hide WordSum;
    Words20(TwoFolds(order), order);
    ChecksumCorrectIff(TwoFolds(order), order);
  }
}
