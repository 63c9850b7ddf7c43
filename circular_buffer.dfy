/**
 * The byte ring used by the rsync-style comparer (`CircularBuffer`): a
 * fixed array of `capacity` slots holding `size` bytes, the first of them in
 * slot `start`.  The logical contents are the bytes in slots
 * `start, start + 1, ...` taken modulo the capacity.
 */
module CircularBuffers {
  import opened Types
  import opened Arith

  /** A span of the backing array handed to a `process_whole` callback. */
  datatype Piece = Piece(offset: nat, length: nat)

  /** How many bytes the one or two pieces of `process_whole` cover together. */
  function PieceTotal(ps: seq<Piece>): nat
    requires 1 <= |ps| <= 2
  {
    ps[0].length + if |ps| == 2 then ps[1].length else 0
  }

  /**
   * The bytes `push_buffer` stores, in logical order, when it accepts `k`
   * bytes of `buf` starting at slot `st` of a ring of `cap` slots.  The part
   * that wraps round to slot 0 is copied from the front of `buf` again rather
   * than from where the first copy stopped.
   */
  function PushedBytes(buf: seq<u8>, st: nat, k: nat, cap: nat): (r: seq<u8>)
    requires st < cap && k <= cap && k <= |buf|
    ensures |r| == k
    ensures st + k <= cap ==> r == buf[..k]
  {
    if st + k <= cap then buf[..k]
    else
      ModWrap(st + k, cap);
      buf[..cap - st] + buf[..(st + k) % cap]
  }

  /** The `size` bytes of ring `a` that start at slot `start`, in order. */
  function RingView(a: seq<u8>, start: nat, size: nat): (c: seq<u8>)
    requires size <= |a|
    ensures |c| == size
  {
    seq(size, i requires 0 <= i < size <= |a| => a[(start + i) % |a|])
  }

  /** Array `a` after the one or two copies of `push_buffer` put `k` bytes of `buf` at slot `st`. */
  function Written(a: seq<u8>, st: nat, buf: seq<u8>, k: nat): (r: seq<u8>)
    requires st < |a| && k <= |a| && k <= |buf|
    ensures |r| == |a|
  {
    seq(|a|, p requires 0 <= p < |a| && st < |a| && k <= |buf| =>
      if st <= p < st + k then buf[p - st] else if p + |a| < st + k then buf[p] else a[p])
  }

  /** The ring after `push_buffer` holds its old contents followed by the pushed bytes. */
  lemma RingAfterPush(a: seq<u8>, start: nat, s: nat, buf: seq<u8>, k: nat)
    requires 0 < |a| && s + k <= |a| && k <= |buf|
    ensures var st := (start + s) % |a|;
            RingView(Written(a, st, buf, k), start, s + k) ==
            RingView(a, start, s) + PushedBytes(buf, st, k, |a|)
  {
    var c := |a|;
    var st := (start + s) % c;
    var lhs := RingView(Written(a, st, buf, k), start, s + k);
    var rhs := RingView(a, start, s) + PushedBytes(buf, st, k, c);
    forall i | 0 <= i < s + k
      ensures lhs[i] == rhs[i]
    {
      SlotOf(start + s, i - s, c);
    }
  }

  /** The one or two spans of `process_whole`, laid end to end, are the ring's contents. */
  lemma SpansSpellRing(a: seq<u8>, start: nat, size: nat)
    requires size <= |a| && start <= |a| && (start < |a| || size < |a|)
    ensures start + size <= |a| ==> a[start .. start + size] == RingView(a, start, size)
    ensures start + size > |a| ==>
      a[start..] + a[..(start + size) % |a|] == RingView(a, start, size)
  {
    var c := |a|;
    var view := RingView(a, start, size);
    if start + size <= c {
      forall i | 0 <= i < size
        ensures a[start + i] == view[i]
      {
        ModBelow(start + i, c);
      }
    } else {
      ModWrap(start + size, c);
      var joined := a[start..] + a[..(start + size) % c];
      forall i | 0 <= i < size
        ensures joined[i] == view[i]
      {
        if start + i < c {
          ModBelow(start + i, c);
        } else {
          ModWrap(start + i, c);
        }
      }
    }
  }

  /**
   * Two consecutive pushes that do not run past the destination's last slot
   * store a prefix of the two buffers laid end to end.
   */
  lemma PushedTwiceNoWrap(p0: seq<u8>, p1: seq<u8>, st: nat, k1: nat, k2: nat, c: nat)
    requires st < c && k1 <= |p0| && k2 <= |p1| && st + k1 + k2 <= c
    requires k2 > 0 ==> k1 == |p0|
    ensures (st + k1) % c < c
    ensures PushedBytes(p0, st, k1, c) + PushedBytes(p1, (st + k1) % c, k2, c) == (p0 + p1)[..k1 + k2]
  {
    if k2 > 0 {
      ModBelow(st + k1, c);
    }
  }

  /** Where slot arithmetic lands: `base + off` reduced, given `base` reduced. */
  lemma SlotOf(base: int, off: int, c: int)
    requires c > 0 && -c <= base % c + off < 2 * c
    ensures var v := base % c + off;
            (base + off) % c == (if v < 0 then v + c else if v < c then v else v - c)
  {
    var v := base % c + off;
    ModSum(base, off, c);
    if v < 0 {
      DivModUnique(v, -1, v + c, c);
    } else if v < c {
      ModBelow(v, c);
    } else {
      ModWrap(v, c);
    }
  }

  /**
   * The callback `pop_buffer` hands to `process_whole`: `push_buffer` into
   * `dst`, applied to the first piece and then, if there is one, the second.
   */
  method PushPieces(dst: CircularBuffer, first: seq<u8>, second: seq<u8>)
    requires dst.Valid() && dst.capacity > 0
    modifies dst`size, dst.buffer
    ensures dst.Valid() && dst.start == old(dst.start)
    ensures dst.size == old(dst.size) + Min(|first| + |second|, old(dst.capacity - dst.size))
    ensures dst.Contents()[..old(dst.size)] == old(dst.Contents())
    ensures old((dst.start + dst.size) % dst.capacity) + (dst.size - old(dst.size)) <= dst.capacity ==>
            dst.Contents() == old(dst.Contents()) + (first + second)[..dst.size - old(dst.size)]
  {
    ghost var c0, c1, s1 := PushBoth(dst, first, second);
    TwoPushes(c0, c1, dst.Contents(), dst.start, old(dst.size), s1, dst.size, dst.capacity, first, second);
  }

  /**
   * The two `push_buffer` calls, the second only when there is a second
   * piece; `c0` and `c1` are the contents before and between them, `s1` the
   * size between them.
   */
  method PushBoth(dst: CircularBuffer, first: seq<u8>, second: seq<u8>)
    returns (ghost c0: seq<u8>, ghost c1: seq<u8>, ghost s1: nat)
    requires dst.Valid() && dst.capacity > 0
    modifies dst`size, dst.buffer
    ensures dst.Valid() && dst.start == old(dst.start) && dst.capacity == old(dst.capacity)
    ensures c0 == old(dst.Contents()) && |c0| == old(dst.size)
    ensures s1 == old(dst.size) + Min(|first|, dst.capacity - old(dst.size))
    ensures c1 == c0 + PushedBytes(first, (dst.start + old(dst.size)) % dst.capacity, Min(|first|, dst.capacity - old(dst.size)), dst.capacity)
    ensures second == [] ==> dst.size == s1 && dst.Contents() == c1
    ensures second != [] ==>
      dst.size == s1 + Min(|second|, dst.capacity - s1) &&
      dst.Contents() == c1 + PushedBytes(second, (dst.start + s1) % dst.capacity, Min(|second|, dst.capacity - s1), dst.capacity)
  {
    c0 := dst.Contents();
    dst.PushBuffer(first);
    c1 := dst.Contents();
    s1 := dst.size;
    if second != [] {
      dst.PushBuffer(second);
    }
  }

  /** What two consecutive `push_buffer` calls, the second only for a non-empty piece, leave in the ring. */
  lemma TwoPushes(c0: seq<u8>, c1: seq<u8>, c2: seq<u8>, start: nat, s0: nat, s1: nat, s2: nat, cap: nat,
                  first: seq<u8>, second: seq<u8>)
    requires cap > 0 && s0 <= cap && |c0| == s0
    requires s1 == s0 + Min(|first|, cap - s0)
    requires c1 == c0 + PushedBytes(first, (start + s0) % cap, Min(|first|, cap - s0), cap)
    requires second == [] ==> s2 == s1 && c2 == c1
    requires second != [] ==>
      s2 == s1 + Min(|second|, cap - s1) && c2 == c1 + PushedBytes(second, (start + s1) % cap, Min(|second|, cap - s1), cap)
    ensures s2 == s0 + Min(|first| + |second|, cap - s0)
    ensures c2[..s0] == c0
    ensures (start + s0) % cap + (s2 - s0) <= cap ==> c2 == c0 + (first + second)[..s2 - s0]
  {
    var st := (start + s0) % cap;
    var k1 := s1 - s0;
    var k2 := s2 - s1;
    ModSum(start + s0, k1, cap);
    assert (st + k1) % cap == (start + s1) % cap;
    var p1 := PushedBytes(first, st, k1, cap);
    var p2 := PushedBytes(second, (st + k1) % cap, k2, cap);
    if second == [] {
      assert p2 == [];
      assert c2 == c0 + p1 + p2;
    } else {
      assert c2 == c0 + p1 + p2;
    }
    FinishPushPieces(c0, p1, p2, first, second, st, k1, k2, cap);
  }

  lemma FinishPushPieces(c0: seq<u8>, p1: seq<u8>, p2: seq<u8>, first: seq<u8>, second: seq<u8>,
                         st: nat, k1: nat, k2: nat, cap: nat)
    requires st < cap && k1 <= |first| && k2 <= |second| && k1 + k2 <= cap
    requires k2 > 0 ==> k1 == |first|
    requires p1 == PushedBytes(first, st, k1, cap) && p2 == PushedBytes(second, (st + k1) % cap, k2, cap)
    ensures (c0 + p1 + p2)[..|c0|] == c0
    ensures st + k1 + k2 <= cap ==> c0 + p1 + p2 == c0 + (first + second)[..k1 + k2]
  {
    if st + k1 + k2 <= cap {
      PushedTwiceNoWrap(first, second, st, k1, k2, cap);
    }
  }

  class CircularBuffer {
    var buffer: array<u8>
    var capacity: nat
    var size: nat
    var start: nat

    ghost predicate Valid()
      reads this
    {
      buffer.Length == capacity && size <= capacity
    }

    /** `start` names a slot; every operation except `PopBuffer` keeps it so. */
    ghost predicate StartInRange()
      reads this
    {
      capacity == 0 || start < capacity
    }

    /** The logical contents, oldest byte first. */
    ghost function Contents(): (c: seq<u8>)
      reads this, buffer
      requires Valid()
      ensures |c| == size
    {
      RingView(buffer[..], start, size)
    }

    ghost function PieceBytes(p: Piece): seq<u8>
      reads this, buffer
      requires p.offset + p.length <= buffer.Length
    {
      buffer[p.offset .. p.offset + p.length]
    }

    constructor (initialSize: nat)
      ensures Valid() && StartInRange()
      ensures capacity == initialSize && size == initialSize && start == 0
      ensures Contents() == buffer[..]
    {
      buffer := new u8[0];
      capacity := 0;
      size := 0;
      start := 0;
      new;
      Realloc(initialSize);
    }

    /** Gives the ring `n` slots (a new array only when the capacity changes) and marks it full. */
    method Realloc(n: nat)
      requires Valid()
      modifies this
      ensures Valid() && StartInRange()
      ensures capacity == n && size == n && start == 0
      ensures old(capacity) == n ==> buffer == old(buffer)
      ensures old(capacity) != n ==> fresh(buffer)
      ensures Contents() == buffer[..]
    {
      if capacity != n {
        buffer := new u8[n];
      }
      capacity := n;
      Reset();
    }

    /** Marks every slot as holding a byte, oldest in slot 0. */
    method Reset()
      requires buffer.Length == capacity
      modifies this`size, this`start
      ensures Valid() && StartInRange()
      ensures size == capacity && start == 0
      ensures Contents() == buffer[..]
    {
      size := capacity;
      start := 0;
      forall i | 0 <= i < size
        ensures Contents()[i] == buffer[i]
      {
        ModBelow(i, capacity);
      }
    }

    method Pop() returns (r: u8)
      requires Valid() && (size > 0 ==> start < capacity)
      modifies this`start, this`size
      ensures Valid()
      ensures old(StartInRange()) ==> StartInRange()
      ensures old(size) == 0 ==> r == 0 && size == 0 && start == old(start)
      ensures old(size) > 0 ==> r == old(Contents())[0] && size == old(size) - 1
      ensures old(size) > 0 ==> start == (old(start) + 1) % capacity
      ensures old(size) > 0 ==> Contents() == old(Contents())[1..]
    {
      if size == 0 {
        return 0;
      }
      ghost var before := Contents();
      ModBelow(start, capacity);
      r := buffer[start];
      start := (start + 1) % capacity;
      size := size - 1;
      forall i | 0 <= i < size
        ensures Contents()[i] == before[i + 1]
      {
        ModSum(old(start) + 1, i, capacity);
      }
    }

    method Push(x: u8) returns (r: u8)
      requires Valid()
      modifies this`size, buffer
      ensures Valid() && start == old(start)
      ensures old(StartInRange()) ==> StartInRange()
      ensures old(size) == capacity ==> r == 0 && size == old(size) && buffer[..] == old(buffer[..])
      ensures old(size) < capacity ==> r == x && size == old(size) + 1
      ensures old(size) < capacity ==> Contents() == old(Contents()) + [x]
    {
      if size == capacity {
        return 0;
      }
      ghost var before := Contents();
      var slot := (start + size) % capacity;
      buffer[slot] := x;
      size := size + 1;
      forall i | 0 <= i < size - 1
        ensures Contents()[i] == before[i]
      {
        ModInjective(start + i, start + size - 1, capacity);
      }
      r := x;
      assert Contents() == before + [x];
    }

    /**
     * The spans `process_whole` hands to its callback: the contents in one
     * piece when they do not run past the last slot, else the tail of the
     * array and then its head.
     */
    function ProcessWhole(): (pieces: seq<Piece>)
      reads this
      requires Valid() && start <= capacity
      ensures |pieces| == 1 <==> SinglePiece()
      ensures 1 <= |pieces| <= 2 && pieces[0].offset == start
      ensures forall p | p in pieces :: p.offset + p.length <= capacity
      ensures PieceTotal(pieces) <= size
      ensures start < capacity || size < capacity ==> PieceTotal(pieces) == size
    {
      if start + size <= capacity then
        [Piece(start, size)]
      else if start + size < 2 * capacity then
        ModWrap(start + size, capacity);
        [Piece(start, capacity - start), Piece(0, (start + size) % capacity)]
      else
        [Piece(start, capacity - start), Piece(0, (start + size) % capacity)]
    }

    /** Laid end to end, the pieces spell the contents in logical order. */
    lemma PiecesSpellContents()
      requires Valid() && start <= capacity && (start < capacity || size < capacity)
      ensures var ps := ProcessWhole();
              |ps| == 1 ==> PieceBytes(ps[0]) == Contents()
      ensures var ps := ProcessWhole();
              |ps| == 2 ==> PieceBytes(ps[0]) + PieceBytes(ps[1]) == Contents()
    {
      SpansSpellRing(buffer[..], start, size);
    }

    /** Copies the contents, oldest first, into `dst` as far as it has room, and drops what was copied. */
    method PopBuffer(dst: CircularBuffer)
      requires Valid() && dst.Valid() && dst != this && dst.buffer != buffer
      requires start <= capacity && dst.capacity > 0
      modifies this`start, this`size, dst`size, dst.buffer
      ensures Valid() && dst.Valid() && dst.start == old(dst.start)
      ensures dst.size == old(dst.size) + Min(old(PieceTotal(ProcessWhole())), old(dst.capacity - dst.size))
      ensures size + dst.size == old(size) + old(dst.size)
      ensures start + size == old(start) + old(size)
      ensures dst.Contents()[..old(dst.size)] == old(dst.Contents())
      ensures old(start < capacity || size < capacity) &&
              old((dst.start + dst.size) % dst.capacity) + (dst.size - old(dst.size)) <= dst.capacity ==>
              dst.Contents() == old(dst.Contents()) + old(Contents())[..dst.size - old(dst.size)]
    {
      var initialSize := dst.size;
      var first, second := CopyPieces();
      PushPieces(dst, first, second);
      var n := dst.size - initialSize;
      start := start + n;
      size := size - n;
    }

    /**
     * The bytes of the one or two spans `process_whole` hands over; when the
     * spans are well formed they spell the contents.
     */
    method CopyPieces() returns (first: seq<u8>, second: seq<u8>)
      requires Valid() && start <= capacity
      ensures |first| + |second| == PieceTotal(ProcessWhole())
      ensures start < capacity || size < capacity ==> first + second == Contents()
    {
      var pieces := ProcessWhole();
      first := buffer[pieces[0].offset .. pieces[0].offset + pieces[0].length];
      second := [];
      if |pieces| == 2 {
        second := buffer[pieces[1].offset .. pieces[1].offset + pieces[1].length];
      }
      if start < capacity || size < capacity {
        PiecesSpellContents();
      }
    }

    /** Appends as much of `buf` as fits, wrapping round the end of the array. */
    method PushBuffer(buf: seq<u8>)
      requires Valid() && capacity > 0
      modifies this`size, buffer
      ensures Valid() && start == old(start)
      ensures old(StartInRange()) ==> StartInRange()
      ensures size == old(size) + Min(|buf|, capacity - old(size))
      ensures Contents() == old(Contents()) +
        PushedBytes(buf, (old(start) + old(size)) % capacity, Min(|buf|, capacity - old(size)), capacity)
    {
      ghost var a := buffer[..];
      var k := Min(|buf|, capacity - size);
      var st := (start + size) % capacity;
      if st + k <= capacity {
        forall j | 0 <= j < k {
          buffer[st + j] := buf[j];
        }
      } else {
        ModWrap(st + k, capacity);
        forall j | 0 <= j < capacity - st {
          buffer[st + j] := buf[j];
        }
        forall j | 0 <= j < (st + k) % capacity {
          buffer[j] := buf[j];
        }
      }
      assert buffer[..] == Written(a, st, buf, k);
      RingAfterPush(a, start, size, buf, k);
      size := size + k;
    }

    /** Shortens the contents to their first `n` bytes; a longer `n` is ignored. */
    method Trim(n: nat)
      requires Valid()
      modifies this`size
      ensures Valid()
      ensures n <= old(size) ==> size == n
      ensures n > old(size) ==> size == old(size)
      ensures Contents() == old(Contents())[..size]
    {
      if n > size {
        return;
      }
      size := n;
    }

    /** Empties the ring without moving `start`. */
    method ResetSize()
      requires Valid()
      modifies this`size
      ensures Valid() && size == 0 && Contents() == []
    {
      size := 0;
    }

    /** The byte `i` places after the oldest one, counting round the contents. */
    function At(i: nat): (b: u8)
      reads this, buffer
      requires Valid() && size > 0
      ensures b == Contents()[i % size]
      ensures i < size ==> b == Contents()[i]
    {
      var k := i % size;
      if i < size then
        ModBelow(i, size);
        buffer[(k + start) % capacity]
      else
        buffer[(k + start) % capacity]
    }

    predicate SinglePiece()
      reads this
    {
      start + size <= capacity
    }

    /** The array offset where the contents begin. */
    function Data(): nat
      reads this
    {
      start
    }

    /** When the contents are in one piece they sit contiguously from `Data()`. */
    lemma ContiguousWhenSingle()
      requires Valid() && SinglePiece()
      ensures Data() + size <= buffer.Length
      ensures buffer[Data() .. Data() + size] == Contents()
    {
      forall i | 0 <= i < size
        ensures buffer[start + i] == Contents()[i]
      {
        ModBelow(start + i, capacity);
      }
    }
  }
}
