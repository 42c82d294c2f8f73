/** The fixed-length memory pool of naf/memory.c: one bit per block, most significant first. */
module Pool {
  import opened Basics

  /** Bit `j` of a map byte, 7 being the most significant. */
  predicate Bit(b: bv8, j: nat)
    requires j < 8
  {
    (b >> j) & 1 == 1
  }

  function WithBit(b: bv8, j: nat): bv8
    requires j < 8
  {
    b | (1 << j)
  }

  function FlippedBit(b: bv8, j: nat): bv8
    requires j < 8
  {
    b ^ (1 << j)
  }

  lemma SetBit(b: bv8, j: nat, k: nat)
    requires j < 8 && k < 8
    ensures Bit(WithBit(b, j), k) <==> k == j || Bit(b, k)
  {
    ShiftCases(j);
    ShiftCases(k);
  }

  lemma ShiftCases(j: nat)
    requires j < 8
    ensures j == 0 || j == 1 || j == 2 || j == 3 || j == 4 || j == 5 || j == 6 || j == 7
  {
  }

  lemma FlipOwn(b: bv8, j: nat)
    requires j < 8 && Bit(b, j)
    ensures !Bit(FlippedBit(b, j), j)
  {
    ShiftCases(j);
  }

  lemma FlipOther(b: bv8, j: nat, k: nat)
    requires j < 8 && k < 8 && j != k
    ensures Bit(FlippedBit(b, j), k) <==> Bit(b, k)
  {
    ShiftCases(j);
    ShiftCases(k);
  }

  lemma FlipBit(b: bv8, j: nat, k: nat)
    requires j < 8 && k < 8 && Bit(b, j)
    ensures Bit(FlippedBit(b, j), k) <==> k != j && Bit(b, k)
  {
    hide Bit, FlippedBit;
    if j == k {
      FlipOwn(b, j);
    } else {
      FlipOther(b, j, k);
    }
  }

  lemma FullByte(b: bv8)
    ensures b == 255 <==> forall j: nat | j < 8 :: Bit(b, j)
  {
    if forall j: nat | j < 8 :: Bit(b, j) {
      assert Bit(b, 0) && Bit(b, 1) && Bit(b, 2) && Bit(b, 3) && Bit(b, 4) && Bit(b, 5) && Bit(b, 6) && Bit(b, 7);
    }
    forall j: nat | j < 8 && b == 255 ensures Bit(b, j) {
      ShiftCases(j);
    }
  }

  /** Block `n` is marked as taken. */
  predicate Used(m: seq<bv8>, n: nat)
    requires n < 8 * |m|
  {
    Bit(m[n / 8], 7 - n % 8)
  }

  /** The first block of a map byte has its most significant bit. */
  lemma FirstBits(m: seq<bv8>, i: nat)
    requires i < |m|
    ensures Used(m, 8 * i) <==> m[i] & 0x80 != 0
    ensures Used(m, 8 * i + 1) <==> m[i] & 0x40 != 0
    ensures Used(m, 8 * i + 2) <==> m[i] & 0x20 != 0
    ensures Used(m, 8 * i + 7) <==> m[i] & 0x01 != 0
  {
  }

  ghost function Taken(m: seq<bv8>): set<nat> {
    set n | 0 <= n < 8 * |m| && Used(m, n)
  }

  lemma MarkTaken(m: seq<bv8>, i: nat, j: nat)
    requires i < |m| && j < 8
    ensures Taken(m[i := WithBit(m[i], j)]) == Taken(m) + {i * 8 + (7 - j)}
  {
    hide Bit, WithBit;
    var m' := m[i := WithBit(m[i], j)];
    forall n: nat | n < 8 * |m| ensures Used(m', n) <==> n == i * 8 + (7 - j) || Used(m, n) {
      SetBit(m[i], j, 7 - n % 8);
    }
  }

  lemma MarkFree(m: seq<bv8>, i: nat, j: nat)
    requires i < |m| && j < 8 && Bit(m[i], j)
    ensures Taken(m[i := FlippedBit(m[i], j)]) == Taken(m) - {i * 8 + (7 - j)}
  {
    hide Bit, FlippedBit;
    var m' := m[i := FlippedBit(m[i], j)];
    forall n: nat | n < 8 * |m| ensures Used(m', n) <==> n != i * 8 + (7 - j) && Used(m, n) {
      FlipBit(m[i], j, 7 - n % 8);
    }
  }

  /** Every block of a full map byte is taken. */
  lemma FullTaken(m: seq<bv8>, i: nat, n: nat)
    requires i < |m| && m[i] == 255 && 8 * i <= n < 8 * i + 8
    ensures n in Taken(m)
  {
    FullByte(m[i]);
    assert n / 8 == i;
  }

  lemma MulMono(a: nat, b: nat, c: nat)
    requires a <= b
    ensures a * c <= b * c
  {
  }

  lemma DivExact(n: nat, blklen: nat)
    requires blklen > 0
    ensures n * blklen / blklen == n
  {
    var q, r := n * blklen / blklen, n * blklen % blklen;
    assert (n - q) * blklen == r;
    if n - q >= 1 {
      MulMono(1, n - q, blklen);
    } else if q - n >= 1 {
      MulMono(1, q - n, blklen);
    }
  }

  /** Offsets and block numbers are computed in 32 bits. */
  const W32 := 0x1_0000_0000

  function Offset(n: nat, blklen: nat): nat {
    n * blklen % W32
  }

  function Number(offset: int, blklen: nat): nat
    requires blklen > 0
  {
    offset % W32 / blklen
  }

  /** The number computed for freeing is the block's, unless its offset wrapped around: then it is lower. */
  lemma BlockNumber(n: nat, blklen: nat)
    requires 0 < blklen < W32
    ensures n * blklen < 0x1_0000_0000 ==> Number(Offset(n, blklen), blklen) == n
    ensures n * blklen >= 0x1_0000_0000 ==> Number(Offset(n, blklen), blklen) < n
  {
    var x := n * blklen;
    DivExact(n, blklen);
    assert Offset(n, blklen) % W32 == x % W32;
    if x >= W32 {
      LowerNumber(x % W32, n, blklen);
    }
  }

  lemma LowerNumber(r: nat, n: nat, blklen: nat)
    requires 0 < blklen && r < n * blklen
    ensures r / blklen < n
  {
    var y := r / blklen;
    DivBounds(r, blklen);
    if y >= n {
      MulMono(n, y, blklen);
    }
  }

  /** naf_flmp_alloc accepts block lengths that are powers of two. */
  predicate PowerOfTwo(n: int) {
    n == 1 || (n > 1 && n % 2 == 0 && PowerOfTwo(n / 2))
  }

  function Pow2(k: nat): nat {
    if k == 0 then 1 else 2 * Pow2(k - 1)
  }

  lemma {:induction false} PowIsPower(k: nat)
    ensures Pow2(k) > 0 && PowerOfTwo(Pow2(k))
  {
    if k > 0 {
      PowIsPower(k - 1);
      assert Pow2(k) / 2 == Pow2(k - 1);
    }
  }

  lemma {:induction false} PowSum(a: nat, b: nat)
    ensures Pow2(a + b) == Pow2(a) * Pow2(b)
  {
    if a > 0 {
      PowSum(a - 1, b);
    }
  }

  lemma Powers()
    ensures PowerOfTwo(0x10_0000) && PowerOfTwo(W32)
  {
    PowSum(4, 4);
    PowSum(8, 8);
    PowSum(16, 16);
    PowSum(16, 4);
    PowIsPower(20);
    PowIsPower(32);
    assert Pow2(4) == 16;
    hide Pow2, PowerOfTwo;
    assert Pow2(8) == 0x100;
    assert Pow2(16) == 0x1_0000;
    assert Pow2(32) == W32;
    assert Pow2(20) == 0x10_0000;
  }

  /** The length of the region, in 32 bits as well. */
  function RegionLen(blklen: nat, blkcount: nat): nat {
    blklen * blkcount % W32
  }

  lemma {:induction false} PowersDivide(n: nat, m: nat)
    requires PowerOfTwo(n) && PowerOfTwo(m) && n <= m
    ensures m % n == 0
    decreases n
  {
    if n > 1 {
      PowersDivide(n / 2, m / 2);
      var q := m / 2 / (n / 2);
      assert m == q * n;
      DivExact(q, n);
    }
  }

  predicate Inside(blklen: nat, blkcount: nat) {
    forall n: nat | n < blkcount :: Offset(n, blklen) + blklen <= RegionLen(blklen, blkcount)
  }

  predicate Disjoint(blklen: nat, blkcount: nat) {
    forall n: nat, k: nat | n < k < blkcount ::
      Offset(n, blklen) + blklen <= Offset(k, blklen) || Offset(k, blklen) + blklen <= Offset(n, blklen)
  }

  lemma Unwrapped(n: nat, blklen: nat, blkcount: nat)
    requires n < blkcount && blklen > 0 && blklen * blkcount <= W32
    ensures Offset(n, blklen) == n * blklen && n * blklen + blklen <= blklen * blkcount
  {
    MulMono(n + 1, blkcount, blklen);
    assert (n + 1) * blklen == n * blklen + blklen;
  }

  /** All blocks lie inside the region exactly when the region's length does not wrap around. */
  lemma InsideIff(blklen: nat, blkcount: nat)
    requires 0 < blklen < W32 && blkcount > 0
    ensures Inside(blklen, blkcount) <==> blklen * blkcount < 0x1_0000_0000
  {
    hide Offset;
    if blklen * blkcount < W32 {
      forall n: nat | n < blkcount ensures Offset(n, blklen) + blklen <= RegionLen(blklen, blkcount) {
        Unwrapped(n, blklen, blkcount);
      }
    } else {
      var n := PastRegion(blklen, blkcount);
    }
  }

  /** In a region whose length wrapped around there is a block that lies outside of it. */
  lemma PastRegion(blklen: nat, blkcount: nat) returns (n: nat)
    requires 0 < blklen < W32 && blkcount > 0 && blklen * blkcount >= W32
    ensures n < blkcount && Offset(n, blklen) + blklen > RegionLen(blklen, blkcount)
  {
    hide RegionLen, Offset;
    // the block that holds the first byte behind the region
    RegionShort(blklen, blkcount);
    n := RegionLen(blklen, blkcount) / blklen;
    DivBounds(RegionLen(blklen, blkcount), blklen);
    BelowLimit(RegionLen(blklen, blkcount), n, blklen, blkcount);
    SmallOffset(n, blklen);
  }

  lemma RegionShort(blklen: nat, blkcount: nat)
    ensures RegionLen(blklen, blkcount) < W32
  {
  }

  lemma BelowLimit(r: nat, n: nat, blklen: nat, blkcount: nat)
    requires n * blklen <= r < W32 <= blklen * blkcount
    ensures n < blkcount
  {
    if n >= blkcount {
      MulMono(blkcount, n, blklen);
    }
  }

  lemma DivBounds(r: nat, b: nat)
    requires b > 0
    ensures r / b * b <= r < r / b * b + b
  {
  }

  lemma SmallOffset(n: nat, blklen: nat)
    ensures n * blklen < W32 ==> Offset(n, blklen) == n * blklen
  {
  }

  /** No two blocks share a byte exactly when the offset of none wraps around. */
  lemma DisjointIff(blklen: nat, blkcount: nat)
    requires PowerOfTwo(blklen) && blklen < W32
    ensures Disjoint(blklen, blkcount) <==> blklen * blkcount <= 0x1_0000_0000
  {
    hide Offset;
    if blklen * blkcount <= W32 {
      forall n: nat, k: nat | n < k < blkcount ensures Offset(n, blklen) + blklen <= Offset(k, blklen) {
        Unwrapped(n, blklen, blkcount);
        Unwrapped(k, blklen, blkcount);
        MulMono(n + 1, k, blklen);
      }
    } else {
      var q := WrapsToFirst(blklen);
      if blkcount <= q {
        MulMono(blkcount, q, blklen);
      }
    }
  }

  /** The block at 4 GB has the address of the first one. */
  lemma WrapsToFirst(blklen: nat) returns (q: nat)
    requires PowerOfTwo(blklen) && blklen < W32
    ensures q > 0 && q * blklen == W32 && Offset(q, blklen) == Offset(0, blklen) == 0
  {
    Powers();
    PowersDivide(blklen, W32);
    q := W32 / blklen;
    DivBounds(W32, blklen);
    WrapsToZero(q, blklen);
  }

  lemma WrapsToZero(q: nat, blklen: nat)
    requires q * blklen == W32
    ensures Offset(q, blklen) == 0 == Offset(0, blklen)
  {
  }

  /** Parameters that are accepted: 4104 blocks of 1 MB, in a region of 8 MB. */
  lemma WrappedPool()
    ensures var (len, count) := (0x10_0000, 4104);
            && PowerOfTwo(len) && count % 8 == 0 && RegionLen(len, count) == 0x80_0000
            && Offset(8, len) == RegionLen(len, count) && Offset(4096, len) == Offset(0, len)
            && !Inside(len, count) && !Disjoint(len, count)
  {
    assert RegionLen(0x10_0000, 4104) == 0x80_0000 == Offset(8, 0x10_0000);
    assert Offset(4096, 0x10_0000) == 0 == Offset(0, 0x10_0000);
    hide Offset, RegionLen, PowerOfTwo, Inside, Disjoint;
    Powers();
    InsideIff(0x10_0000, 4104);
    DisjointIff(0x10_0000, 4104);
  }

  /** What freeing does: it may also read and flip a bit behind the map. */
  datatype Freeing = Freed | Aborted | OutOfMap

  class Pool {
    const allocmap: array<bv8>
    const blklen: nat
    const region: int     // address of the first block
    const regionlen: nat

    ghost predicate Valid() {
      && PowerOfTwo(blklen) && 0 < blklen < W32 && allocmap.Length > 0
      && regionlen == RegionLen(blklen, 8 * allocmap.Length)
    }

    ghost function Blocks(): set<nat>
      reads allocmap
    {
      Taken(allocmap[..])
    }

    /** naf_flmp_alloc, for acceptable parameters */
    constructor (region: int, blklen: nat, blkcount: nat)
      requires PowerOfTwo(blklen) && blklen < W32 && blkcount > 0 && blkcount % 8 == 0
      ensures Valid() && this.blklen == blklen && this.region == region && 8 * allocmap.Length == blkcount
      ensures Blocks() == {} && fresh(allocmap)
    {
      this.blklen, this.region, this.regionlen := blklen, region, RegionLen(blklen, blkcount);
      allocmap := new bv8[blkcount / 8](_ => 0);
      new;
      forall n: nat | n < 8 * allocmap.Length ensures !Used(allocmap[..], n) {
        ShiftCases(7 - n % 8);
      }
    }

    /** naf_flmp_blkalloc: the lowest free block, or none when all are taken */
    method BlkAlloc() returns (block: Option<int>)
      requires Valid()
      modifies allocmap
      ensures block.None? ==> Blocks() == old(Blocks()) && forall n: nat | n < 8 * allocmap.Length :: n in Blocks()
      ensures block.Some? ==>
        exists n: nat | n < 8 * allocmap.Length ::
          && block == Some(region + Offset(n, blklen))
          && n !in old(Blocks()) && (forall k: nat | k < n :: k in old(Blocks()))
          && Blocks() == old(Blocks()) + {n}
      ensures block.Some? && blklen * (8 * allocmap.Length) < 0x1_0000_0000 ==>
        region <= block.value && block.value + blklen <= region + regionlen
    {
      hide Bit, WithBit, FlippedBit, Offset, RegionLen, PowerOfTwo;
      ghost var m := allocmap[..];
      var i := 0;
      while i < allocmap.Length && allocmap[i] == 255
        invariant i <= allocmap.Length
        invariant forall n: nat | n < 8 * i :: n in Taken(m)
      {
        forall n: nat | n < 8 * (i + 1) ensures n in Taken(m) {
          if n >= 8 * i {
            FullTaken(m, i, n);
          }
        }
        i := i + 1;
      }
      if i == allocmap.Length {
        return None;
      }
      var j := 7;
      while j >= 0 && Bit(allocmap[i], j)
        invariant -1 <= j <= 7
        invariant forall k: nat | j < k < 8 :: Bit(allocmap[i], k)
      {
        j := j - 1;
      }
      FullByte(allocmap[i]);  // so some bit of this byte is clear
      ghost var num := i * 8 + (7 - j);
      forall k: nat | k < num ensures k in Taken(m) {
        if k >= 8 * i {
          assert k / 8 == i && Bit(m[i], 7 - k % 8);
        }
      }
      MarkTaken(m, i, j);
      allocmap[i] := WithBit(allocmap[i], j);
      assert allocmap[..] == m[i := WithBit(m[i], j)];
      assert num / 8 == i && 7 - num % 8 == j;
      InsideIff(blklen, 8 * allocmap.Length);
      return Some(region + Offset(i * 8 + (7 - j), blklen));
    }

    /** naf_flmp_blkfree.  The bound of the source admits one number too many. */
    method BlkFree(block: int) returns (r: Freeing)
      requires Valid()
      modifies allocmap
      ensures var num := Number(block - region, blklen);
              && (r.OutOfMap? <==> block >= region && num == 8 * allocmap.Length)
              && (r.Freed? <==> block >= region && num in old(Blocks()))
              && Blocks() == if r.Freed? then old(Blocks()) - {num} else old(Blocks())
    {
      hide Bit, WithBit, FlippedBit, Number;
      if block < region {
        return Aborted;
      }
      var num := Number(block - region, blklen);
      if num > 8 * allocmap.Length {
        return Aborted;
      }
      var i, j := num / 8, 7 - num % 8;
      if i == allocmap.Length {
        return OutOfMap;
      }
      if !Bit(allocmap[i], j) {
        return Aborted;
      }
      ghost var m := allocmap[..];
      MarkFree(m, i, j);
      allocmap[i] := FlippedBit(allocmap[i], j);
      assert allocmap[..] == m[i := FlippedBit(m[i], j)];
      return Freed;
    }

    /**
     Freeing what was just allocated: the pool is as before exactly when the block's offset does not
     wrap around 32 bits.  In a region of at most 4 GB none does.
     */
    method AllocThenFree() returns (block: Option<int>, r: Freeing, ghost n: nat)
      requires Valid()
      modifies allocmap
      ensures block.None? ==> Blocks() == old(Blocks())
      ensures block.Some? ==> n < 8 * allocmap.Length && n !in old(Blocks()) && r.Freed?
      ensures block.Some? ==> (Blocks() == old(Blocks()) <==> n * blklen < 0x1_0000_0000)
      ensures 8 * allocmap.Length * blklen <= 0x1_0000_0000 ==> Blocks() == old(Blocks())
    {
      hide Offset, Number, Taken, Used;
      n, r := 0, Aborted;
      block := BlkAlloc();
      if block.Some? {
        n :| n < 8 * allocmap.Length && block == Some(region + Offset(n, blklen)) && n !in old(Blocks())
          && (forall k: nat | k < n :: k in old(Blocks())) && Blocks() == old(Blocks()) + {n};
        BlockNumber(n, blklen);
        if 8 * allocmap.Length * blklen <= W32 {
          BelowRegion(n, 8 * allocmap.Length, blklen);
        }
        r := BlkFree(block.value);
      }
    }
  }

  lemma BelowRegion(n: nat, count: nat, blklen: nat)
    requires n < count && blklen > 0
    ensures n * blklen < count * blklen
  {
    MulMono(n + 1, count, blklen);
  }
}
