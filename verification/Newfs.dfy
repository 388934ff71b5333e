/** The sizes a new HFS Plus volume gets by default (newfs_hfs.c). */
module Newfs {
  import opened Bytes
  import opened Arith

  const MAX_BLOCKS := 0xFFFF_FFFF

  /** The number of blocks of size Pow2(k) on a medium of `sectors` sectors of size Pow2(s). */
  function BlockCount(sectors: nat, s: nat, k: nat): nat
    requires s <= k
  {
    Quotient(sectors, Pow2(k - s))
  }

  lemma {:induction false} Pow2Sum(a: nat, b: nat)
    ensures Pow2(a + b) == Pow2(a) * Pow2(b)
  {
    if a > 0 {
      Pow2Sum(a - 1, b);
      MulAssociates(2, Pow2(a - 1), Pow2(b));
    }
  }

  lemma {:induction false} Pow2Grows(j: nat, k: nat)
    requires j <= k
    ensures Pow2(j) <= Pow2(k)
  {
    if j < k {
      Pow2Grows(j, k - 1);
    }
  }

  lemma Pow2Values()
    ensures Pow2(11) == 2048 && Pow2(12) == 4096 && Pow2(13) == 8192
    ensures Pow2(31) == 0x8000_0000 && Pow2(32) == 0x1_0000_0000
  {
    assert Pow2(8) == 256;
    assert Pow2(12) == 4096;
    assert Pow2(16) == 0x1_0000;
    assert Pow2(20) == 0x10_0000;
    assert Pow2(24) == 0x100_0000;
    assert Pow2(28) == 0x1000_0000;
  }

  /** A 2 GB block is large enough for every medium of less than 2^63 bytes. */
  lemma LargestSuffices(sectors: nat, s: nat)
    requires s <= 12 && sectors * Pow2(s) < Pow2(63)
    ensures BlockCount(sectors, s, 31) <= MAX_BLOCKS
  {
    var d, q := Pow2(31 - s), Quotient(sectors, Pow2(31 - s));
    Pow2Values();
    QuotientAndExcess(sectors, d);
    Pow2Sum(31 - s, s);
    Pow2Sum(32, 31);
    if q >= Pow2(32) {
      MulMonotone(Pow2(32), q, d);
      MulMonotone(Pow2(32) * d, sectors, Pow2(s));
      MulAssociates(Pow2(32), d, Pow2(s));
    }
  }

  lemma BlocksPerSector(s: nat, k: nat)
    requires s <= k
    ensures Pow2(k) / Pow2(s) == Pow2(k - s)
  {
    Pow2Sum(k - s, s);
    DivModUnique(Pow2(k), Pow2(s), Pow2(k - s), 0);
  }

  /** The number of blocks as the source computes it. */
  function Blocks(sectors: nat, sectorSize: nat, blockSize: nat): nat
    requires 0 < sectorSize && 0 < blockSize / sectorSize
  {
    sectors / (blockSize / sectorSize)
  }

  lemma BlocksAreCount(sectors: nat, s: nat, k: nat)
    requires s <= k
    ensures 0 < Pow2(k) / Pow2(s) && Blocks(sectors, Pow2(s), Pow2(k)) == BlockCount(sectors, s, k)
  {
    BlocksPerSector(s, k);
    QuotientIsDiv(sectors, Pow2(k - s));
  }

  /** The test of the loop. */
  method TooMany(sectors: nat, sectorSize: nat, blockSize: nat, ghost s: nat, ghost k: nat) returns (b: bool)
    requires s <= k && sectorSize == Pow2(s) && blockSize == Pow2(k)
    ensures b == (BlockCount(sectors, s, k) > MAX_BLOCKS)
  {
    BlocksAreCount(sectors, s, k);
    b := sectors / (blockSize / sectorSize) > MAX_BLOCKS;
  }

  /** Too many blocks of size `b`, which fits the sectors. */
  ghost predicate Overflows(sectors: nat, sectorSize: nat, b: nat) {
    0 < sectorSize && 0 < b / sectorSize && Blocks(sectors, sectorSize, b) > MAX_BLOCKS
  }

  lemma SmallSectors(sectorSize: nat) returns (s: nat)
    requires PowerOfTwo(sectorSize) && sectorSize <= 4096
    ensures s <= 12 && sectorSize == Pow2(s)
  {
    s :| sectorSize == Pow2(s);
    if s > 12 {
      Pow2Values();
      Pow2Grows(13, s);
    }
  }

  /** The search went through all smaller powers of two from 4096 up. */
  lemma SmallerOverflow(sectors: nat, s: nat, k: nat, b: nat)
    requires s <= 12 <= k && forall j | 12 <= j < k :: BlockCount(sectors, s, j) > MAX_BLOCKS
    requires PowerOfTwo(b) && 4096 <= b < Pow2(k)
    ensures Overflows(sectors, Pow2(s), b)
  {
    var j: nat :| b == Pow2(j);
    Pow2Values();
    if j < 12 {
      Pow2Grows(j, 11);
    } else if k <= j {
      Pow2Grows(k, j);
    } else {
      BlocksAreCount(sectors, s, j);
    }
  }

  /** The loop: `k` is the exponent of the block size. */
  method Double(sectors: nat, sectorSize: nat, ghost s: nat) returns (blockSize: nat, ghost k: nat)
    requires s <= 12 && sectorSize == Pow2(s) && sectors * sectorSize < Pow2(63)
    ensures 12 <= k <= 31 && blockSize == Pow2(k) && BlockCount(sectors, s, k) <= MAX_BLOCKS
    ensures forall j | 12 <= j < k :: BlockCount(sectors, s, j) > MAX_BLOCKS
  {
    Pow2Values();
    LargestSuffices(sectors, s);
    blockSize, k := 4096, 12;
    var more := TooMany(sectors, sectorSize, blockSize, s, k);
    while more
      invariant 12 <= k <= 31 && blockSize == Pow2(k)
      invariant more == (BlockCount(sectors, s, k) > MAX_BLOCKS)
      invariant forall j | 12 <= j < k :: BlockCount(sectors, s, j) > MAX_BLOCKS
      decreases 31 - k
    {
      blockSize, k := blockSize * 2, k + 1;
      more := TooMany(sectors, sectorSize, blockSize, s, k);
    }
  }

  /**
   * validate_hfsplus_block_size without a block size from the user: the least power of two from 4096
   * up for which the block count fits 32 bits, and it fits 32 bits itself.
   */
  method DefaultBlockSize(sectors: nat, sectorSize: nat) returns (blockSize: nat)
    requires PowerOfTwo(sectorSize) && sectorSize <= 4096 && sectors * sectorSize < Pow2(63)
    ensures PowerOfTwo(blockSize) && 4096 <= blockSize < 0x1_0000_0000
    ensures 0 < sectorSize && 0 < blockSize / sectorSize && Blocks(sectors, sectorSize, blockSize) <= MAX_BLOCKS
    ensures forall b: nat | PowerOfTwo(b) && 4096 <= b < blockSize :: Overflows(sectors, sectorSize, b)
  {
    ghost var s := SmallSectors(sectorSize);
    ghost var k;
    blockSize, k := Double(sectors, sectorSize, s);
    Pow2Values();
    Pow2Grows(12, k);
    Pow2Grows(k, 31);
    BlocksAreCount(sectors, s, k);
    forall b: nat | PowerOfTwo(b) && 4096 <= b < blockSize ensures Overflows(sectors, sectorSize, b) {
      SmallerOverflow(sectors, s, k, b);
    }
  }

  // Clump sizes.

  /** clumptbl, in megabytes: catalog and extents, by the power of two of the volume size. */
  function ClumpEntry(i: nat, catalog: bool): (mb: nat)
    requires i < 15
    ensures 4 <= mb <= 256
  {
    match i
    case 0 => 4
    case 1 => if catalog then 6 else 4
    case 2 => if catalog then 8 else 4
    case 3 => if catalog then 11 else 5
    case 4 => if catalog then 14 else 5
    case 5 => if catalog then 19 else 6
    case 6 => if catalog then 25 else 7
    case 7 => if catalog then 34 else 8
    case 8 => if catalog then 45 else 9
    case 9 => if catalog then 60 else 11
    case 10 => if catalog then 80 else 14
    case 11 => if catalog then 107 else 16
    case 12 => if catalog then 144 else 20
    case 13 => if catalog then 192 else 25
    case _ => if catalog then 256 else 32
  }

  /** How often a size can be halved before nothing is left, but no more than 14 times. */
  function Halvings(x: nat, i: nat): (n: nat)
    requires i <= 14
    ensures i <= n <= 14
    decreases 14 - i
  {
    if x == 0 || i == 14 then i else Halvings(x / 2, i + 1)
  }

  /** The size before it is rounded: 0.8 % of a small volume, else a table entry. */
  function RawClump(sectors: nat, catalog: bool): (c: nat)
    ensures c < 0x1_0000_0000
  {
    if sectors < 0x200000 then sectors * 4
    else ClumpEntry(Halvings(sectors / 0x400000, 0), catalog) * 0x100000
  }

  /** Halved `n` times, `lo` is the number of sectors of 1 GB. */
  predicate Rung(lo: nat, n: nat) {
    if n == 0 then lo == 0x20_0000 else lo % 2 == 0 && Rung(lo / 2, n - 1)
  }

  lemma {:induction false} HalvingsBy(sectors: nat, i: nat, n: nat, lo: nat)
    requires Rung(lo, n) && lo <= sectors && i + n <= 14 && (i + n < 14 ==> sectors < 2 * lo)
    ensures lo >= 0x20_0000 && Halvings(sectors / 0x40_0000, i) == i + n
    decreases n
  {
    if n > 0 {
      HalvingsBy(sectors / 2, i + 1, n - 1, lo / 2);
      assert sectors / 0x40_0000 / 2 == sectors / 2 / 0x40_0000;
    }
  }

  lemma RawAt(sectors: nat, catalog: bool, n: nat, lo: nat)
    requires n <= 14 && Rung(lo, n) && lo <= sectors && (n < 14 ==> sectors < 2 * lo)
    ensures RawClump(sectors, catalog) == ClumpEntry(n, catalog) * 0x10_0000
  {
    HalvingsBy(sectors, 0, n, lo);
  }

  /** The raw size by the size of the volume: up to 32 GB. */
  lemma RawSmall(sectors: nat, catalog: bool, raw: nat)
    requires raw == RawClump(sectors, catalog)
    ensures sectors < 0x20_0000 ==> raw == sectors * 4
    ensures 0x20_0000 <= sectors < 0x40_0000 ==> raw == 4 * 0x10_0000
    ensures 0x40_0000 <= sectors < 0x80_0000 ==> raw == (if catalog then 6 else 4) * 0x10_0000
    ensures 0x80_0000 <= sectors < 0x100_0000 ==> raw == (if catalog then 8 else 4) * 0x10_0000
    ensures 0x100_0000 <= sectors < 0x200_0000 ==> raw == (if catalog then 11 else 5) * 0x10_0000
    ensures 0x200_0000 <= sectors < 0x400_0000 ==> raw == (if catalog then 14 else 5) * 0x10_0000
  {
    if 0x20_0000 <= sectors < 0x40_0000 {
      RawAt(sectors, catalog, 0, 0x20_0000);
    } else if 0x40_0000 <= sectors < 0x80_0000 {
      RawAt(sectors, catalog, 1, 0x40_0000);
    } else if 0x80_0000 <= sectors < 0x100_0000 {
      RawAt(sectors, catalog, 2, 0x80_0000);
    } else if 0x100_0000 <= sectors < 0x200_0000 {
      RawAt(sectors, catalog, 3, 0x100_0000);
    } else if 0x200_0000 <= sectors < 0x400_0000 {
      RawAt(sectors, catalog, 4, 0x200_0000);
    }
  }

  /** Up to 1 TB. */
  lemma RawMedium(sectors: nat, catalog: bool, raw: nat)
    requires raw == RawClump(sectors, catalog)
    ensures 0x400_0000 <= sectors < 0x800_0000 ==> raw == (if catalog then 19 else 6) * 0x10_0000
    ensures 0x800_0000 <= sectors < 0x1000_0000 ==> raw == (if catalog then 25 else 7) * 0x10_0000
    ensures 0x1000_0000 <= sectors < 0x2000_0000 ==> raw == (if catalog then 34 else 8) * 0x10_0000
    ensures 0x2000_0000 <= sectors < 0x4000_0000 ==> raw == (if catalog then 45 else 9) * 0x10_0000
    ensures 0x4000_0000 <= sectors < 0x8000_0000 ==> raw == (if catalog then 60 else 11) * 0x10_0000
  {
    if 0x400_0000 <= sectors < 0x800_0000 {
      RawAt(sectors, catalog, 5, 0x400_0000);
    } else if 0x800_0000 <= sectors < 0x1000_0000 {
      RawAt(sectors, catalog, 6, 0x800_0000);
    } else if 0x1000_0000 <= sectors < 0x2000_0000 {
      RawAt(sectors, catalog, 7, 0x1000_0000);
    } else if 0x2000_0000 <= sectors < 0x4000_0000 {
      RawAt(sectors, catalog, 8, 0x2000_0000);
    } else if 0x4000_0000 <= sectors < 0x8000_0000 {
      RawAt(sectors, catalog, 9, 0x4000_0000);
    }
  }

  /** From there on. */
  lemma RawLarge(sectors: nat, catalog: bool, raw: nat)
    requires raw == RawClump(sectors, catalog)
    ensures 0x8000_0000 <= sectors < 0x10000_0000 ==> raw == (if catalog then 80 else 14) * 0x10_0000
    ensures 0x10000_0000 <= sectors < 0x20000_0000 ==> raw == (if catalog then 107 else 16) * 0x10_0000
    ensures 0x20000_0000 <= sectors < 0x40000_0000 ==> raw == (if catalog then 144 else 20) * 0x10_0000
    ensures 0x40000_0000 <= sectors < 0x80000_0000 ==> raw == (if catalog then 192 else 25) * 0x10_0000
    ensures 0x80000_0000 <= sectors ==> raw == (if catalog then 256 else 32) * 0x10_0000
  {
    if 0x8000_0000 <= sectors < 0x10000_0000 {
      RawAt(sectors, catalog, 10, 0x8000_0000);
    } else if 0x10000_0000 <= sectors < 0x20000_0000 {
      RawAt(sectors, catalog, 11, 0x10000_0000);
    } else if 0x20000_0000 <= sectors < 0x40000_0000 {
      RawAt(sectors, catalog, 12, 0x20000_0000);
    } else if 0x40000_0000 <= sectors < 0x80000_0000 {
      RawAt(sectors, catalog, 13, 0x40000_0000);
    } else if 0x80000_0000 <= sectors {
      RawAt(sectors, catalog, 14, 0x80000_0000);
    }
  }

  /**
   * CalcHFSPlusBTreeClumpSize: a positive multiple of node and block size, the largest that does not
   * exceed the raw size unless there is none.
   */
  method ClumpSize(blockSize: nat, nodeSize: nat, sectors: nat, catalog: bool) returns (clump: nat)
    requires PowerOfTwo(blockSize) && PowerOfTwo(nodeSize)
    ensures 0 < clump && Divides(blockSize, clump) && Divides(nodeSize, clump)
    ensures clump <= RawClump(sectors, catalog) || clump == Max(nodeSize, blockSize)
    ensures RawClump(sectors, catalog) < clump + Max(nodeSize, blockSize)
  {
    PowersDivide(nodeSize, blockSize);
    var mod := Max(nodeSize, blockSize);
    if sectors < 0x200000 {
      clump := sectors * 4;
    } else {
      var i, left := 0, sectors / 0x400000;
      while left != 0 && i < 14
        invariant i <= 14 && 0 <= left && Halvings(left, i) == Halvings(sectors / 0x400000, 0)
        decreases 14 - i
      {
        i, left := i + 1, left / 2;
      }
      clump := ClumpEntry(i, catalog) * 1024 * 1024;
    }
    ghost var raw := clump;
    clump := RoundedDown(clump, mod);
    ExcessDivides(raw, mod);
    if clump == 0 {
      clump := mod;
    }
    LargerIsMultiple(blockSize, nodeSize, mod, clump);
  }

  lemma LargerIsMultiple(block: nat, node: nat, mod: nat, clump: nat)
    requires 0 < block && 0 < node && (Divides(node, block) || Divides(block, node))
    requires mod == Max(node, block) && (Divides(mod, clump) || clump == mod)
    ensures Divides(block, clump) && Divides(node, clump)
  {
    assert block == Times(1, block) && node == Times(1, node);
    if Divides(node, block) {
      DivisorAtMost(node, block);
      if clump != mod {
        DividesTransitive(node, block, clump);
      }
    } else {
      DivisorAtMost(block, node);
      if clump != mod {
        DividesTransitive(block, node, clump);
      }
    }
  }

  /** The allocation bitmap: the least whole number of blocks with a bit for every block. */
  method BitmapSize(totalBlocks: nat, blockSize: nat) returns (size: nat)
    requires 0 < blockSize
    ensures Divides(blockSize, size) && totalBlocks <= 8 * size
    ensures forall other: nat | Divides(blockSize, other) && totalBlocks <= 8 * other :: size <= other
  {
    var bytes := totalBlocks / 8;
    if totalBlocks % 8 != 0 {
      bytes := bytes + 1;
    }
    size := bytes;
    var odd := Remainder(bytes, blockSize);
    if odd != 0 {
      size := bytes - odd + blockSize;
    }
    RoundUpDivides(bytes, blockSize);
    forall other: nat | Divides(blockSize, other) && totalBlocks <= 8 * other ensures size <= other {
      RoundUpBelow(bytes, other, blockSize);
    }
  }
}
