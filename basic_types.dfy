/**
 * The two records of the delta format: an entry of the signature table
 * (`rsync_table_item`) and an edit command (`rsync_command`), whose 64-bit
 * length word carries the "copy from old file" flag in bit 63.
 */
module BasicTypes {
  import opened Types
  import opened Sorting

  /** A SHA-1 digest: exactly 20 bytes. */
  type Digest = s: seq<u8> | |s| == 20 witness seq(20, _ => 0)

  datatype TableItem = TableItem(rollingChecksum: u32, complexHash: Digest, fileOffset: u64)

  /**
   * `memcmp` over two byte strings of the same length: the sign of the
   * first differing byte, compared as unsigned, or 0 when they are equal.
   */
  function Memcmp(a: seq<u8>, b: seq<u8>): (r: int)
    requires |a| == |b|
    ensures -1 <= r <= 1
    ensures r == 0 <==> a == b
  {
    if a == [] then 0
    else if a[0] < b[0] then -1
    else if a[0] > b[0] then 1
    else
      var r := Memcmp(a[1..], b[1..]);
      assert r == 0 ==> a == [a[0]] + a[1..] == [b[0]] + b[1..] == b;
      assert a == b ==> a[1..] == b[1..];
      r
  }

  lemma {:induction false} MemcmpAntisymmetric(a: seq<u8>, b: seq<u8>)
    requires |a| == |b|
    ensures Memcmp(a, b) == -Memcmp(b, a)
  {
    if a != [] && a[0] == b[0] {
      MemcmpAntisymmetric(a[1..], b[1..]);
    }
  }

  lemma {:induction false} MemcmpTransitive(a: seq<u8>, b: seq<u8>, c: seq<u8>)
    requires |a| == |b| == |c|
    requires Memcmp(a, b) < 0 && Memcmp(b, c) < 0
    ensures Memcmp(a, c) < 0
  {
    if a[0] == b[0] && b[0] == c[0] {
      MemcmpTransitive(a[1..], b[1..], c[1..]);
    }
  }

  /**
   * `rsync_table_item::operator<`: by rolling checksum, then by digest
   * bytewise, then by file offset.
   */
  predicate Less(x: TableItem, y: TableItem)
    ensures x.rollingChecksum < y.rollingChecksum ==> Less(x, y)
    ensures Less(x, y) ==> x.rollingChecksum <= y.rollingChecksum
    ensures Less(x, y) ==> x != y
  {
    if x.rollingChecksum < y.rollingChecksum then true
    else if x.rollingChecksum > y.rollingChecksum then false
    else
      var cmp := Memcmp(x.complexHash, y.complexHash);
      if cmp < 0 then true
      else if cmp > 0 then false
      else x.fileOffset < y.fileOffset
  }

  /** The order is lexicographic on (checksum, digest, offset). */
  lemma LessIsLexicographic(x: TableItem, y: TableItem)
    ensures Less(x, y) <==>
      x.rollingChecksum < y.rollingChecksum ||
      (x.rollingChecksum == y.rollingChecksum && Memcmp(x.complexHash, y.complexHash) < 0) ||
      (x.rollingChecksum == y.rollingChecksum && x.complexHash == y.complexHash && x.fileOffset < y.fileOffset)
  {
  }

  lemma LessIrreflexive(x: TableItem)
    ensures !Less(x, x)
  {
  }

  lemma LessTransitive(x: TableItem, y: TableItem, z: TableItem)
    requires Less(x, y) && Less(y, z)
    ensures Less(x, z)
  {
    if x.rollingChecksum == y.rollingChecksum == z.rollingChecksum {
      var c1 := Memcmp(x.complexHash, y.complexHash);
      var c2 := Memcmp(y.complexHash, z.complexHash);
      if c1 < 0 && c2 < 0 {
        MemcmpTransitive(x.complexHash, y.complexHash, z.complexHash);
      }
    }
  }

  /** Distinct items are always ordered one way or the other. */
  lemma LessTotal(x: TableItem, y: TableItem)
    requires x != y
    ensures Less(x, y) || Less(y, x)
  {
    MemcmpAntisymmetric(x.complexHash, y.complexHash);
  }

  lemma LessIsStrictOrder()
    ensures StrictOrder(Less)
  {
    forall x: TableItem ensures !Less(x, x) {
      LessIrreflexive(x);
    }
    forall x: TableItem, y: TableItem, z: TableItem | Less(x, y) && Less(y, z)
      ensures Less(x, z)
    {
      LessTransitive(x, y, z);
    }
  }

  /** In a table sorted by `Less`, rolling checksums never decrease. */
  lemma SortedChecksums(t: seq<TableItem>, i: nat, j: nat)
    requires SortedBy(t, Less) && i <= j < |t|
    ensures t[i].rollingChecksum <= t[j].rollingChecksum
  {
    if i < j {
      assert !Less(t[j], t[i]);
    }
  }

  /** Among items with equal checksums, digests never decrease. */
  lemma SortedDigests(t: seq<TableItem>, i: nat, j: nat)
    requires SortedBy(t, Less) && i < j < |t|
    requires t[i].rollingChecksum == t[j].rollingChecksum
    ensures Memcmp(t[i].complexHash, t[j].complexHash) <= 0
  {
    assert !Less(t[j], t[i]);
    MemcmpAntisymmetric(t[i].complexHash, t[j].complexHash);
  }

  /** Among items with equal checksums and digests, offsets never decrease. */
  lemma SortedOffsets(t: seq<TableItem>, i: nat, j: nat)
    requires SortedBy(t, Less) && i < j < |t|
    requires t[i].rollingChecksum == t[j].rollingChecksum && t[i].complexHash == t[j].complexHash
    ensures t[i].fileOffset <= t[j].fileOffset
  {
    assert !Less(t[j], t[i]);
  }

  /** An edit command; `length` holds the copy flag in bit 63 and the length below it. */
  datatype Command = Command(fileOffset: u64, length: u64)

  /** The mask `1 << 63`. */
  const MASK: u64 := TWO_63

  /** `copy_from_old`: bit 63 of the length word. */
  predicate CopyFromOld(c: Command)
    ensures CopyFromOld(c) <==> c.length >= TWO_63
  {
    c.length / TWO_63 != 0
  }

  /** `get_length`: the length word with bit 63 cleared. */
  function GetLength(c: Command): (n: u64)
    ensures n < TWO_63
    ensures n == c.length || n + TWO_63 == c.length
  {
    c.length % TWO_63
  }

  /**
   * `set_copy_from_old(x)`: sets bit 63 with `|= mask` or clears it with
   * `&= ~mask`.  The command is a value here, so the updated command is
   * returned.
   */
  function SetCopyFromOld(c: Command, x: bool): (r: Command)
    ensures CopyFromOld(r) == x
    ensures GetLength(r) == GetLength(c)
    ensures r.fileOffset == c.fileOffset
  {
    if x then
      Command(c.fileOffset, if c.length >= MASK then c.length else c.length + MASK)
    else
      Command(c.fileOffset, c.length % MASK)
  }

  /** Setting the flag to its current value changes nothing. */
  lemma SetCopyFromOldIdempotent(c: Command, x: bool)
    ensures SetCopyFromOld(SetCopyFromOld(c, x), x) == SetCopyFromOld(c, x)
    ensures SetCopyFromOld(c, CopyFromOld(c)) == c
  {
  }

  /** A command is determined by its offset, its flag and its length. */
  lemma CommandFields(c: Command, d: Command)
    requires c.fileOffset == d.fileOffset && CopyFromOld(c) == CopyFromOld(d)
    requires GetLength(c) == GetLength(d)
    ensures c == d
  {
  }
}
