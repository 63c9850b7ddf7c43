/**
 * The signature of an old file: its SHA-1, a table with one entry per
 * block (rolling checksum, SHA-1 of the block, offset of the block), sorted,
 * and a 2^24-entry bitmap indexed by the low 24 bits of the checksums that
 * rules checksums out before the table is searched.
 *
 * Reading the file is an input: the blocks the reader yields, in order.
 * SHA-1 is a function parameter.
 */
module RsyncableFiles {
  import opened Types
  import opened Arith
  import opened Sorting
  import opened BasicTypes
  import RollingChecksum

  /** `sizeof(rsync_table_item)`: 4 + 20 bytes, then an 8-byte-aligned offset. */
  const ITEM_SIZE: nat := 32

  /** `64 << 20`: the largest table the scaler accepts, in bytes. */
  const LIMIT: nat := 0x400_0000

  /**
   * `blocks_per_file(file_size, block_size)`: the rounded-up quotient,
   * computed with a 64-bit addition.
   */
  function BlocksPerFile(fileSize: u64, blockSize: u64): (n: u64)
    requires blockSize > 0
    ensures fileSize + blockSize - 1 < TWO_64 ==> n * blockSize >= fileSize && (n - 1) * blockSize < fileSize
  {
    var num := (fileSize + (blockSize - 1)) % TWO_64;
    var n := num / blockSize;
    if fileSize + blockSize - 1 < TWO_64 then
      ModBelow(fileSize + blockSize - 1, TWO_64);
      CeilingQuotient(fileSize, blockSize);
      n
    else
      n
  }

  /** `(s + b - 1) / b` is the ceiling of `s / b`. */
  lemma CeilingQuotient(s: nat, b: nat)
    requires b > 0
    ensures (s + b - 1) / b * b >= s && ((s + b - 1) / b - 1) * b < s
  {
    var q := (s + b - 1) / b;
    var r := (s + b - 1) % b;
    assert s + b - 1 == q * b + r;
    assert (q - 1) * b == q * b - b;
  }

  /** The table for `x` bytes in blocks of `r` bytes fits within the limit. */
  predicate Fits(x: u64, r: u64)
    requires r > 0
  {
    BlocksPerFile(x, r) * ITEM_SIZE <= LIMIT
  }

  /** `r = 2^k` is the least power of two from 512 whose table for `x` bytes fits. */
  ghost predicate ScaleAt(x: u64, r: u64, k: nat)
  {
    9 <= k <= 43 && r == Pow2(k) && r > 0 && Fits(x, r) && NoneFitBelow(x, k)
  }

  /** No block size from `2^9` up to, not including, `2^k` fits. */
  ghost predicate NoneFitBelow(x: u64, k: nat)
  {
    forall j | 9 <= j < k :: Pow2(j) < TWO_64 && Pow2(j) > 0 && !Fits(x, Pow2(j))
  }

  ghost predicate IsScale(x: u64, r: u64)
  {
    exists k :: ScaleAt(x, r, k)
  }

  lemma Pow2Facts()
    ensures Pow2(9) == 512
    ensures Pow2(21) * Pow2(43) == TWO_64
    ensures Pow2(21) * 32 == LIMIT
    ensures 0 < Pow2(43) < TWO_64
  {
    assert Pow2(9) == 512 by {
      assert Pow2(4) == 16 by {
        assert Pow2(1) == 2 && Pow2(2) == 4 && Pow2(3) == 8;
      }
      assert Pow2(8) == 256 by { Pow2Add(4, 4); }
    }
    assert Pow2(21) == 0x20_0000 by {
      Pow2Add(9, 9);
      assert Pow2(3) == 8 by { assert Pow2(1) == 2 && Pow2(2) == 4; }
      Pow2Add(18, 3);
    }
    Pow2Add(21, 43);
    Pow2Of64();
    Pow2Monotone(44, 64);
    Pow2Monotone(0, 43);
  }

  /** A block of `2^43` bytes always fits: no more than `2^21` blocks of a 64-bit size. */
  lemma FitsAt43(x: u64)
    ensures Pow2(43) > 0 && Pow2(43) < TWO_64 && Fits(x, Pow2(43))
  {
    Pow2Facts();
    FitsBelowLimit(x, Pow2(43), Pow2(21));
  }

  /** Any size fits with blocks of `r` bytes when `2^64 / r` entries fit in the limit. */
  lemma FitsBelowLimit(x: u64, r: u64, q: nat)
    requires r > 0 && q * r == TWO_64 && q * 32 == LIMIT
    ensures Fits(x, r)
  {
    var num := (x + (r - 1)) % TWO_64;
    TableBelowLimit(num, r, q);
  }

  /** Fewer than `q` blocks of `r` bytes cover a 64-bit size when `q * r` is `2^64`. */
  lemma TableBelowLimit(num: nat, r: nat, q: nat)
    requires r > 0 && num < TWO_64 && q * r == TWO_64 && q * 32 == LIMIT
    ensures num / r * ITEM_SIZE <= LIMIT
  {
    DivBelow(num, q, r);
    MulMonotone(num / r, q, 32);
  }

  /**
   * `RsyncableFile::scaler_function(x)`: doubles the block size from 512
   * until the table fits in 64 MiB.  The shift is a 64-bit one, but the loop
   * stops by `2^43`, long before it could shift out.
   */
  method ScalerFunction(x: u64) returns (r: u64)
    ensures r >= 512 && IsScale(x, r)
  {
    assert Pow2(9) == 512 by { Pow2Facts(); }
    var ret: u64 := 512;
    ghost var k: nat := 9;
    while !Fits(x, ret)
      invariant 9 <= k <= 43 && ret == Pow2(k) && ret > 0 && NoneFitBelow(x, k)
      decreases 43 - k
    {
      DoubleScale(x, k);
      ret := (ret * 2) % TWO_64;
      k := k + 1;
    }
    ScaleReached(x, ret, k);
    return ret;
  }

  /** A block size that does not fit yet is below `2^43` and doubles without wrapping. */
  lemma DoubleScale(x: u64, k: nat)
    requires 9 <= k <= 43 && Pow2(k) < TWO_64 && Pow2(k) > 0 && !Fits(x, Pow2(k)) && NoneFitBelow(x, k)
    ensures k < 43 && (Pow2(k) * 2) % TWO_64 == Pow2(k + 1) && Pow2(k + 1) < TWO_64
    ensures Pow2(k + 1) > 0 && NoneFitBelow(x, k + 1)
  {
    FitsAt43(x);
    DoublingStep(k);
    Pow2Monotone(k + 1, 43);
  }

  lemma ScaleReached(x: u64, r: u64, k: nat)
    requires 9 <= k <= 43 && r == Pow2(k) && r > 0 && Fits(x, r) && NoneFitBelow(x, k)
    ensures r >= 512 && IsScale(x, r)
  {
    Pow2Facts();
    Pow2Monotone(9, k);
    assert ScaleAt(x, r, k);
  }

  /** The scale of a file size is unique. */
  lemma ScaleUnique(x: u64, r1: u64, r2: u64)
    requires IsScale(x, r1) && IsScale(x, r2)
    ensures r1 == r2
  {
    var k1: nat :| ScaleAt(x, r1, k1);
    var k2: nat :| ScaleAt(x, r2, k2);
    if k1 < k2 {
      assert false;
    } else if k2 < k1 {
      assert false;
    }
  }

  /** More bytes never need fewer blocks, while the rounding addition does not wrap. */
  lemma FitsMonotone(x: u64, y: u64, r: u64)
    requires r > 0 && x <= y && y + r - 1 < TWO_64 && Fits(y, r)
    ensures Fits(x, r)
  {
    ModBelow(x + r - 1, TWO_64);
    ModBelow(y + r - 1, TWO_64);
    DivMonotone(x + r - 1, y + r - 1, r);
    MulMonotone(BlocksPerFile(x, r), BlocksPerFile(y, r), ITEM_SIZE);
  }

  /**
   * `scaler_function` is non-decreasing in the file size, for sizes below
   * `2^64 - 2^43`, where the rounding addition cannot wrap.
   */
  lemma ScalerMonotone(x: u64, y: u64, rx: u64, ry: u64)
    requires x <= y && y + Pow2(43) <= TWO_64
    requires IsScale(x, rx) && IsScale(y, ry)
    ensures rx <= ry
  {
    var kx: nat :| ScaleAt(x, rx, kx);
    var ky: nat :| ScaleAt(y, ry, ky);
    if ky < kx {
      Pow2Monotone(ky, 43);
      FitsMonotone(x, y, ry);
      assert false;
    } else {
      Pow2Monotone(kx, ky);
    }
  }

  /** Some table item has a checksum with these low 24 bits. */
  ghost predicate InTable(table: seq<TableItem>, slot: int)
  {
    exists i | 0 <= i < |table| :: table[i].rollingChecksum % TWO_24 == slot
  }

  /** The entry the reading constructor makes for block `j`: its offset is the running sum of the earlier block sizes. */
  function ItemOf(blocks: seq<seq<u8>>, sha1: seq<u8> -> Digest, j: nat): TableItem
    requires j < |blocks|
  {
    TableItem(RollingChecksum.Checksum(blocks[j]), sha1(blocks[j]), |Flatten(blocks[..j])| % TWO_64)
  }

  ghost predicate TableOfBlocks(items: seq<TableItem>, blocks: seq<seq<u8>>, sha1: seq<u8> -> Digest)
  {
    |items| == |blocks| && forall j | 0 <= j < |items| :: items[j] == ItemOf(blocks, sha1, j)
  }

  lemma FlattenSnoc(blocks: seq<seq<u8>>, i: nat)
    requires i < |blocks|
    ensures Flatten(blocks[..i + 1]) == Flatten(blocks[..i]) + blocks[i]
  {
    assert blocks[..i + 1][..i] == blocks[..i];
  }

  /**
   * The loop of the reading constructor: one entry per block, at the 64-bit
   * running offset.
   */
  method BuildTable(blocks: seq<seq<u8>>, sha1: seq<u8> -> Digest) returns (items: seq<TableItem>)
    ensures TableOfBlocks(items, blocks, sha1)
  {
    items := [];
    var offset: u64 := 0;
    var i := 0;
    while i < |blocks|
      invariant i <= |blocks| && |items| == i
      invariant forall j | 0 <= j < i :: items[j] == ItemOf(blocks, sha1, j)
      invariant offset == |Flatten(blocks[..i])| % TWO_64
    {
      var block := blocks[i];
      var checksum := RollingChecksum.ComputeChecksum(block, |block|);
      assert block[..|block|] == block;
      items := items + [TableItem(checksum, sha1(block), offset)];
      FlattenSnoc(blocks, i);
      ModSum(|Flatten(blocks[..i])|, |block|, TWO_64);
      offset := (offset + |block|) % TWO_64;
      i := i + 1;
    }
  }

  class RsyncableFile {
    var sha1: Digest
    var table: seq<TableItem>
    var bitmap: seq<bool>
    var blockSize: u64

    /** The table is sorted and the bitmap marks exactly the low 24 bits of its checksums. */
    ghost predicate Valid()
      reads this
    {
      SortedBy(table, Less) &&
      |bitmap| == TWO_24 && forall j | 0 <= j < TWO_24 :: bitmap[j] == InTable(table, j)
    }

    /**
     * `RsyncableFile(path)`: the block size from the file size, one entry
     * per block read, the table sorted, then the bitmap.
     */
    constructor FromFile(fileSize: u64, blocks: seq<seq<u8>>, hash: seq<u8> -> Digest)
      ensures Valid()
      ensures IsScale(fileSize, blockSize)
      ensures sha1 == hash(Flatten(blocks))
      ensures SortedBy(table, Less)
      ensures exists items :: TableOfBlocks(items, blocks, hash) && multiset(table) == multiset(items)
    {
      var size := ScalerFunction(fileSize);
      var items := BuildTable(blocks, hash);
      blockSize := size;
      sha1 := hash(Flatten(blocks));
      table := SortBy(items, Less);
      bitmap := [];
      new;
      LessIsStrictOrder();
      SortBySorted(items, Less);
      InitBitmap();
    }

    /** `RsyncableFile(comparer)`: the comparer's new table, digest and block size. */
    constructor FromComparer(newTable: seq<TableItem>, newDigest: Digest, newBlockSize: u64)
      requires SortedBy(newTable, Less)
      ensures Valid()
      ensures table == newTable && sha1 == newDigest && blockSize == newBlockSize
    {
      table := newTable;
      bitmap := [];
      sha1 := newDigest;
      blockSize := newBlockSize;
      new;
      InitBitmap();
    }

    /**
     * `init_bitmap`: grows the (empty) bitmap to 2^24 clear entries and sets
     * the slot of each table entry's low 24 bits.
     */
    method InitBitmap()
      requires bitmap == [] && SortedBy(table, Less)
      modifies this
      ensures Valid()
      ensures table == old(table) && sha1 == old(sha1) && blockSize == old(blockSize)
    {
      var bits := seq(TWO_24, _ => false);
      var i := 0;
      while i < |table|
        invariant i <= |table| && |bits| == TWO_24
        invariant forall j | 0 <= j < TWO_24 :: bits[j] == InTable(table[..i], j)
      {
        var slot := table[i].rollingChecksum % TWO_24;
        bits := bits[slot := true];
        forall j | 0 <= j < TWO_24
          ensures bits[j] == InTable(table[..i + 1], j)
        {
          if InTable(table[..i], j) {
            var w :| 0 <= w < i && table[..i][w].rollingChecksum % TWO_24 == j;
            assert table[..i + 1][w] == table[w];
          }
          if j == slot {
            assert table[..i + 1][i] == table[i];
          }
          if InTable(table[..i + 1], j) && j != slot {
            var w :| 0 <= w < i + 1 && table[..i + 1][w].rollingChecksum % TWO_24 == j;
            assert w < i && table[..i][w] == table[w];
          }
        }
        i := i + 1;
      }
      assert table[..i] == table;
      bitmap := bits;
    }

    /** `does_not_contain(x)`: the bitmap slot of `x`'s low 24 bits is clear. */
    function DoesNotContain(x: u32): (r: bool)
      reads this
      requires |bitmap| == TWO_24
      ensures Valid() ==> (r <==> !InTable(table, x % TWO_24))
    {
      !bitmap[x % TWO_24]
    }

    /** The bitmap has no false negatives: a checksum in the table is never ruled out. */
    lemma NoFalseNegatives(x: u32)
      requires Valid()
      requires exists i | 0 <= i < |table| :: table[i].rollingChecksum == x
      ensures !DoesNotContain(x)
    {
      var i :| 0 <= i < |table| && table[i].rollingChecksum == x;
      assert table[i].rollingChecksum % TWO_24 == x % TWO_24;
    }

    /**
     * `get_table`: a null range for an empty table, otherwise the range of
     * exactly the table's entries.
     */
    function GetTable(): (range: (Option<nat>, Option<nat>))
      reads this
      ensures |table| == 0 <==> range.0.None?
      ensures range.0.None? <==> range.1.None?
      ensures range.0.Some? ==> range.0.value == 0 && range.1.value - range.0.value == |table|
    {
      if |table| == 0 then (None, None) else (Some(0), Some(|table|))
    }
  }
}
