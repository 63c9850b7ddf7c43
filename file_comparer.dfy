/**
 * The comparer that turns a new file and the signature of an old one into a
 * list of edit commands.  `Comparer` is the state machine of
 * `AbstractFileComparer`: Initial, then alternating runs of Matching (copy
 * blocks from the old file) and NonMatching (take bytes from the new file)
 * until Final.  The outcomes of its reads and searches are inputs, given
 * as the sequences of results the successive calls return.  `FileComparer`
 * holds the members of the concrete comparer: the rolling window, the
 * buffer that collects the new file's blocks, and the table search.
 */
module FileComparers {
  import opened Types
  import opened Arith
  import opened Sorting
  import opened BasicTypes
  import opened CircularBuffers
  import opened BinarySearch
  import opened RsyncableFiles
  import RollingChecksum

  /** A byte buffer of fixed capacity with a fill level; no storage at capacity 0. */
  class SimpleBuffer {
    var buffer: array?<u8>
    var capacity: nat
    var size: nat

    ghost predicate Valid()
      reads this
    {
      (buffer == null <==> capacity == 0) &&
      (buffer != null ==> buffer.Length == capacity) &&
      size <= capacity
    }

    /** The bytes held, in order. */
    ghost function Bytes(): (b: seq<u8>)
      reads this, buffer
      requires Valid()
      ensures |b| == size
    {
      if buffer == null then [] else buffer[..size]
    }

    /** `simple_buffer(capacity)`: starts empty. */
    constructor (cap: nat)
      ensures Valid() && capacity == cap && size == 0
      ensures cap > 0 ==> fresh(buffer)
    {
      buffer := null;
      capacity := 0;
      size := 0;
      new;
      Realloc(cap);
    }

    /** `realloc(capacity)`: new storage only when the capacity changes; always emptied. */
    method Realloc(cap: nat)
      requires Valid()
      modifies this
      ensures Valid() && capacity == cap && size == 0
      ensures cap == old(capacity) ==> buffer == old(buffer)
      ensures cap != old(capacity) && cap > 0 ==> fresh(buffer)
    {
      if cap != capacity {
        if cap > 0 {
          buffer := new u8[cap];
        } else {
          buffer := null;
        }
        capacity := cap;
      }
      size := 0;
    }

    /** The copy `fill` makes: as many bytes of `bytes[pos..]` as there is room for, after those held. */
    method Append(bytes: seq<u8>, pos: nat) returns (consumed: nat)
      requires Valid() && pos <= |bytes|
      modifies this`size, buffer
      ensures Valid() && buffer == old(buffer) && capacity == old(capacity)
      ensures consumed == Min(old(capacity - size), |bytes| - pos)
      ensures Bytes() == old(Bytes()) + bytes[pos .. pos + consumed]
    {
      var begin := size;
      consumed := Min(capacity - begin, |bytes| - pos);
      size := begin + consumed;
      forall k | 0 <= k < consumed {
        buffer[begin + k] := bytes[pos + k];
      }
    }

    /** `operator bool`: storage is allocated, which is so exactly when the capacity is not 0. */
    function IsAllocated(): (r: bool)
      reads this
      requires Valid()
      ensures r <==> capacity > 0
    {
      buffer != null
    }

    /** `full()`: no room is left. */
    function Full(): (r: bool)
      reads this
      requires Valid()
      ensures r <==> capacity - size == 0
    {
      size == capacity
    }

    /** The `memcpy` of one piece of a ring onto the end of the held bytes. */
    method CopyPiece(cb: CircularBuffer, p: Piece)
      requires Valid() && cb.Valid() && buffer != null && buffer != cb.buffer
      requires p.offset + p.length <= cb.capacity && size + p.length <= capacity
      modifies this`size, buffer
      ensures Valid() && size == old(size) + p.length
      ensures Bytes() == old(Bytes()) + cb.PieceBytes(p)
    {
      forall k | 0 <= k < p.length {
        buffer[size + k] := cb.buffer[p.offset + k];
      }
      size := size + p.length;
    }

    /** `operator=(circular_buffer)`: the ring's contents, oldest byte first. */
    method AssignFrom(cb: CircularBuffer)
      requires Valid() && cb.Valid() && cb.start <= cb.capacity && (cb.start < cb.capacity || cb.size < cb.capacity)
      requires buffer != cb.buffer
      modifies this, buffer
      ensures Valid() && capacity == cb.size && size == cb.size
      ensures Bytes() == cb.Contents()
    {
      Realloc(cb.size);
      size := 0;
      if capacity == 0 {
        return;
      }
      CopyRing(cb);
    }

    /** The `process_whole` callback of `operator=`: each piece in turn. */
    method CopyRing(cb: CircularBuffer)
      requires Valid() && cb.Valid() && cb.start <= cb.capacity && (cb.start < cb.capacity || cb.size < cb.capacity)
      requires buffer != null && buffer != cb.buffer && size == 0 && capacity == cb.size
      modifies this`size, buffer
      ensures Valid() && size == cb.size
      ensures Bytes() == cb.Contents()
    {
      var pieces := cb.ProcessWhole();
      cb.PiecesSpellContents();
      CopyPiece(cb, pieces[0]);
      if |pieces| == 2 {
        CopyPiece(cb, pieces[1]);
      }
    }
  }

  /** `unsignedcmp(a, b)`: the sign of `a - b`. */
  function UnsignedCmp(a: int, b: int): (r: int)
    ensures r < 0 <==> a < b
    ensures r == 0 <==> a == b
    ensures r > 0 <==> a > b
  {
    if a < b then -1 else if a > b then 1 else 0
  }

  datatype State = Initial | Matching | NonMatching | Final

  /** Sum of the commands' lengths, the flag bit left out. */
  function SumLengths(cmds: seq<Command>): nat
  {
    if cmds == [] then 0 else SumLengths(cmds[..|cmds| - 1]) + GetLength(cmds[|cmds| - 1])
  }

  /** `last->length += increment` on a 64-bit length word. */
  function IncreaseLast(cmds: seq<Command>, inc: u64): (r: seq<Command>)
    requires |cmds| > 0
    ensures |r| == |cmds| && r[..|r| - 1] == cmds[..|cmds| - 1]
    ensures r[|r| - 1].fileOffset == cmds[|cmds| - 1].fileOffset
    ensures SumLengths(r) % TWO_63 == (SumLengths(cmds) + inc) % TWO_63
  {
    var last := cmds[|cmds| - 1];
    var longer := Command(last.fileOffset, (last.length + inc) % TWO_64);
    var r := cmds[..|cmds| - 1] + [longer];
    assert r[..|r| - 1] == cmds[..|cmds| - 1];
    assert SumLengths(r) == SumLengths(cmds[..|cmds| - 1]) + GetLength(longer);
    LengthAfterIncrease(last.length, inc);
    SumAfterIncrease(SumLengths(cmds[..|cmds| - 1]), last.length, inc);
    r
  }

  /** The length bits after a 64-bit addition are the old ones plus the increment, modulo 2^63. */
  lemma LengthAfterIncrease(length: u64, inc: u64)
    ensures ((length + inc) % TWO_64) % TWO_63 == (length + inc) % TWO_63
    ensures (length % TWO_63 + inc) % TWO_63 == (length + inc) % TWO_63
  {
    assert TWO_64 == 2 * TWO_63;
    ModOfMod(length + inc, 2, TWO_63);
    ModSum(length, inc, TWO_63);
  }

  lemma SumAfterIncrease(rest: nat, length: nat, inc: nat)
    ensures (rest + (length + inc) % TWO_63) % TWO_63 == (rest + length % TWO_63 + inc) % TWO_63
  {
    ModSum(length + inc, rest, TWO_63);
    ModSum(length, rest + inc, TWO_63);
  }

  /** A 64-bit offset advanced by `inc`, read modulo 2^63. */
  lemma OffsetAfterIncrease(offset: u64, sum: nat, inc: u64)
    requires offset % TWO_63 == sum % TWO_63
    ensures ((offset + inc) % TWO_64) % TWO_63 == (sum + inc) % TWO_63
  {
    LengthAfterIncrease(offset, inc);
    ModSum(offset, inc, TWO_63);
    ModSum(sum, inc, TWO_63);
  }

  /** Command `c` after `j` steps of `inc` each, added to its whole 64-bit length word. */
  function Grown(c: Command, inc: u64, j: nat): Command
  {
    Command(c.fileOffset, (c.length + j * inc) % TWO_64)
  }

  /** `last->file_offset + last->get_length()` once `c` has grown by `j` blocks of `inc`. */
  function RunTarget(c: Command, inc: u64, j: nat): u64
  {
    (c.fileOffset + GetLength(Grown(c, inc, j))) % TWO_64
  }

  lemma GrowStep(c: Command, inc: u64, j: nat)
    ensures (Grown(c, inc, j).length + inc) % TWO_64 == Grown(c, inc, j + 1).length
  {
    ModSum(c.length + j * inc, inc, TWO_64);
    assert (j + 1) * inc == j * inc + inc;
  }

  /**
   * A copy command as `state_Matching` leaves it: pushed with the flag set
   * and length 0, then grown by between 1 and `bound` old blocks.
   */
  ghost predicate CopyRun(c: Command, blockSize: u64, bound: nat)
  {
    exists m: nat | 1 <= m <= bound :: c == Grown(Command(c.fileOffset, TWO_63), blockSize, m)
  }

  /** While the blocks fit in the 63 length bits, a copy run keeps its flag and holds whole blocks. */
  lemma CopyRunFlag(c: Command, blockSize: u64, bound: nat)
    requires CopyRun(c, blockSize, bound) && bound * blockSize < TWO_63
    ensures CopyFromOld(c) && GetLength(c) >= blockSize
  {
    var m: nat :| 1 <= m <= bound && c == Grown(Command(c.fileOffset, TWO_63), blockSize, m);
    MulMonotone(m, bound, blockSize);
    MulMonotone(1, m, blockSize);
    ModBelow(TWO_63 + m * blockSize, TWO_64);
    ModAddMultiple(m * blockSize, 1, TWO_63);
    ModBelow(m * blockSize, TWO_63);
  }

  /** A literal command grown `m` single bytes from length 0 has its flag clear and length `m`. */
  lemma LiteralRunFlag(offset: u64, m: nat)
    requires m < TWO_63
    ensures !CopyFromOld(Grown(Command(offset, 0), 1, m)) && GetLength(Grown(Command(offset, 0), 1, m)) == m
  {
    ModBelow(m, TWO_64);
    ModBelow(m, TWO_63);
  }

  /**
   * `AbstractFileComparer` with the increments of the concrete comparer: a
   * matched block advances by the old file's block size, a byte that matched
   * nothing by one.
   */
  class Comparer {
    var state: State
    var result: Option<seq<Command>>
    var newOffset: u64
    var oldOffset: u64
    /** Outcomes of the successive `read_more_data` and `non_matching_read_more_data` calls. */
    var readsLeft: seq<bool>
    /** Outcomes of the successive `search` calls: the offset found, or `None` for no match. */
    var searchesLeft: seq<Option<u64>>
    const blockSize: u64

    /** The commands account for every byte of the new file passed, modulo the 63 length bits. */
    ghost predicate Accounted()
      reads this
    {
      result.Some? && newOffset % TWO_63 == SumLengths(result.value) % TWO_63
    }

    /** The number of calls left before the machine must stop. */
    ghost function Fuel(): nat
      reads this
    {
      |readsLeft| + (if state == Final then 0 else 1)
    }

    constructor (oldBlockSize: u64, readOutcomes: seq<bool>, searchOutcomes: seq<Option<u64>>)
      ensures result == Some([]) && state == Initial
      ensures blockSize == oldBlockSize && readsLeft == readOutcomes && searchesLeft == searchOutcomes
    {
      state := Initial;
      result := Some([]);
      newOffset := 0;
      oldOffset := 0;
      readsLeft := readOutcomes;
      searchesLeft := searchOutcomes;
      blockSize := oldBlockSize;
    }

    /** `read_more_data` / `non_matching_read_more_data`: the next outcome; false once they run out. */
    method ReadMoreData() returns (ok: bool)
      modifies this`readsLeft
      ensures old(readsLeft) == [] ==> !ok && readsLeft == []
      ensures old(readsLeft) != [] ==> ok == old(readsLeft)[0] && readsLeft == old(readsLeft)[1..]
    {
      if readsLeft == [] {
        return false;
      }
      ok := readsLeft[0];
      readsLeft := readsLeft[1..];
    }

    /** `search(offset_valid, target)`: the next outcome; a match sets `old_offset`. */
    method Search(offsetValid: bool, target: u64) returns (found: bool)
      modifies this`searchesLeft, this`oldOffset
      ensures old(searchesLeft) == [] ==> !found && searchesLeft == [] && oldOffset == old(oldOffset)
      ensures old(searchesLeft) != [] ==> searchesLeft == old(searchesLeft)[1..] && found == old(searchesLeft)[0].Some?
      ensures old(searchesLeft) != [] && found ==> oldOffset == old(searchesLeft)[0].value
      ensures !found ==> oldOffset == old(oldOffset)
    {
      if searchesLeft == [] {
        return false;
      }
      var outcome := searchesLeft[0];
      searchesLeft := searchesLeft[1..];
      found := outcome.Some?;
      if found {
        oldOffset := outcome.value;
      }
    }

    /** `process`: runs the state functions from Initial until Final. */
    method Process()
      requires result == Some([])
      modifies this
      ensures state == Final && Accounted()
    {
      state := Initial;
      while state != Final
        invariant result.Some?
        invariant state == Initial ==> result == Some([])
        invariant state != Initial ==> Accounted()
        decreases Fuel()
      {
        match state {
          case Initial => StateInitial();
          case Matching => StateMatching();
          case NonMatching =>
            ghost var steps: nat;
            steps := StateNonMatching();
        }
      }
    }

    /**
     * `state_Initial`: both offsets restart at 0; no data means Final,
     * otherwise Matching exactly when the search finds the first block.
     */
    method StateInitial()
      requires result == Some([]) && state == Initial
      modifies this
      ensures Accounted() && result == old(result) && newOffset == 0
      ensures Fuel() < old(Fuel())
      ensures state == Final <==> old(readsLeft) == [] || !old(readsLeft)[0]
      ensures state == Matching <==> old(readsLeft) != [] && old(readsLeft)[0] && old(searchesLeft) != [] && old(searchesLeft)[0].Some?
      ensures state != Initial
      ensures state == Matching ==> oldOffset == old(searchesLeft)[0].value
      ensures state != Matching ==> oldOffset == 0
    {
      newOffset := 0;
      oldOffset := 0;
      var ok := ReadMoreData();
      if !ok {
        state := Final;
        return;
      }
      var found := Search(false, 0);
      state := if found then Matching else NonMatching;
    }

    /**
     * `state_Matching`: pushes a copy command at `old_offset` and grows it
     * by one old block per match that continues it; a match elsewhere
     * starts a new command, no match moves to NonMatching, no data to Final.
     * Every command pushed is a copy run; its flag survives unless the
     * blocks overflow the 63 length bits.
     */
    method StateMatching()
      requires Accounted() && state == Matching
      modifies this
      ensures Accounted() && Fuel() < old(Fuel())
      ensures state == Final || state == NonMatching
      ensures |result.value| > |old(result.value)| && result.value[..|old(result.value)|] == old(result.value)
      ensures result.value[|old(result.value)|].fileOffset == old(oldOffset)
      ensures forall k | |old(result.value)| <= k < |result.value| :: CopyRun(result.value[k], blockSize, |old(readsLeft)| + 1)
      ensures (|old(readsLeft)| + 1) * blockSize < TWO_63 ==>
        forall k | |old(result.value)| <= k < |result.value| :: CopyFromOld(result.value[k]) && GetLength(result.value[k]) >= blockSize
    {
      ghost var before := result.value;
      ghost var bound := |readsLeft| + 1;
      while true
        invariant Accounted() && state == Matching && |readsLeft| <= |old(readsLeft)|
        invariant |result.value| >= |before| && result.value[..|before|] == before
        invariant |result.value| > |before| ==> result.value[|before|].fileOffset == old(oldOffset)
        invariant |result.value| == |before| ==> oldOffset == old(oldOffset)
        invariant |result.value| > |before| ==> |readsLeft| < |old(readsLeft)|
        invariant forall k | |before| <= k < |result.value| :: CopyRun(result.value[k], blockSize, bound)
        decreases |readsLeft|
      {
        var command := SetCopyFromOld(Command(oldOffset, 0), true);
        assert command == Command(oldOffset, TWO_63);
        ghost var cmds := result.value;
        PushCommand(command);
        var again;
        ghost var m: nat;
        again, m := ExtendCopy(cmds);
        assert result.value[|cmds|] == Grown(Command(result.value[|cmds|].fileOffset, TWO_63), blockSize, m);
        assert forall k | |before| <= k < |cmds| :: result.value[k] == cmds[k];
        if !again {
          break;
        }
      }
      forall k | |before| <= k < |result.value| && bound * blockSize < TWO_63
        ensures CopyFromOld(result.value[k]) && GetLength(result.value[k]) >= blockSize
      {
        CopyRunFlag(result.value[k], blockSize, bound);
      }
    }

    /**
     * The inner loop of `state_Matching`: the last command grows by one old
     * block per step, `m` steps in all.  Every step but the last read data
     * and found the block exactly where the command ends; the last step ran
     * out of data (Final), found nothing (NonMatching) or found the block
     * elsewhere (`again`, a new command follows).
     */
    method ExtendCopy(ghost cmds: seq<Command>) returns (again: bool, ghost m: nat)
      requires Accounted() && state == Matching
      requires |result.value| == |cmds| + 1 && result.value[..|cmds|] == cmds
      modifies this
      ensures Accounted() && |readsLeft| <= |old(readsLeft)|
      ensures |result.value| == |cmds| + 1 && result.value[..|cmds|] == cmds
      ensures result.value[|cmds|].fileOffset == old(result.value[|cmds|].fileOffset)
      ensures 1 <= m <= |old(readsLeft)| + 1
      ensures result.value[|cmds|] == Grown(old(result.value[|cmds|]), blockSize, m)
      ensures forall i | 0 <= i < m - 1 ::
        i < |old(readsLeft)| && old(readsLeft)[i] &&
        i < |old(searchesLeft)| && old(searchesLeft)[i] == Some(RunTarget(old(result.value[|cmds|]), blockSize, i + 1))
      ensures state == Final <==> m > |old(readsLeft)| || !old(readsLeft)[m - 1]
      ensures again <==> state == Matching
      ensures again ==>
        m <= |old(searchesLeft)| && old(searchesLeft)[m - 1] == Some(oldOffset) &&
        oldOffset != RunTarget(old(result.value[|cmds|]), blockSize, m)
      ensures state == NonMatching ==> m > |old(searchesLeft)| || old(searchesLeft)[m - 1].None?
      ensures again ==> |readsLeft| < |old(readsLeft)|
      ensures !again ==> state == Final || (state == NonMatching && |readsLeft| < |old(readsLeft)|)
    {
      ghost var c0 := result.value[|cmds|];
      ghost var reads0 := readsLeft;
      ghost var searches0 := searchesLeft;
      m, again := 0, false;
      while true
        invariant Accounted() && state == Matching
        invariant |result.value| == |cmds| + 1 && result.value[..|cmds|] == cmds
        invariant m <= |reads0| && m <= |searches0|
        invariant readsLeft == reads0[m..] && searchesLeft == searches0[m..]
        invariant result.value[|cmds|] == Grown(c0, blockSize, m)
        invariant forall i | 0 <= i < m :: reads0[i] && searches0[i] == Some(RunTarget(c0, blockSize, i + 1))
        decreases |readsLeft|
      {
        GrowLast(|cmds|, c0, blockSize, m);
        m := m + 1;
        var ok := ReadMoreData();
        if !ok {
          state := Final;
          break;
        }
        var last := result.value[|result.value| - 1];
        var target := (last.fileOffset + GetLength(last)) % TWO_64;
        assert target == RunTarget(c0, blockSize, m);
        var found := Search(true, target);
        if !found {
          state := NonMatching;
          break;
        }
        if oldOffset != target {
          again := true;
          break;
        }
        assert reads0[m - 1] && searches0[m - 1] == Some(RunTarget(c0, blockSize, m));
      }
    }

    /**
     * `state_NonMatching`: pushes a literal command at `new_offset` and grows
     * it, with `new_offset`, by one byte per step, `m` steps in all.  Every
     * step but the last read data and found no match; the last one ran out
     * of data (Final) or matched (Matching).
     */
    method StateNonMatching() returns (ghost m: nat)
      requires Accounted() && state == NonMatching
      modifies this
      ensures Accounted() && Fuel() < old(Fuel())
      ensures state == Final || state == Matching
      ensures |result.value| == |old(result.value)| + 1 && result.value[..|old(result.value)|] == old(result.value)
      ensures result.value[|old(result.value)|].fileOffset == old(newOffset)
      ensures 1 <= m <= |old(readsLeft)| + 1
      ensures newOffset == (old(newOffset) + m) % TWO_64
      ensures result.value[|old(result.value)|] == Grown(Command(old(newOffset), 0), 1, m)
      ensures m < TWO_63 ==>
        !CopyFromOld(result.value[|old(result.value)|]) && GetLength(result.value[|old(result.value)|]) == m
      ensures forall i | 0 <= i < m - 1 ::
        i < |old(readsLeft)| && old(readsLeft)[i] && (i >= |old(searchesLeft)| || old(searchesLeft)[i].None?)
      ensures state == Final <==> m > |old(readsLeft)| || !old(readsLeft)[m - 1]
      ensures state == Matching ==> m <= |old(searchesLeft)| && old(searchesLeft)[m - 1].Some?
    {
      ghost var cmds := result.value;
      var command := SetCopyFromOld(Command(newOffset, 0), false);
      assert command == Command(newOffset, 0);
      PushCommand(command);
      m := ExtendLiteral(cmds);
      if m < TWO_63 {
        LiteralRunFlag(old(newOffset), m);
      }
    }

    /**
     * The loop of `state_NonMatching`: `new_offset` and the last command
     * grow by one byte per step, `m` steps in all, until the data runs out
     * or a search matches.
     */
    method ExtendLiteral(ghost cmds: seq<Command>) returns (ghost m: nat)
      requires Accounted() && state == NonMatching
      requires |result.value| == |cmds| + 1 && result.value[..|cmds|] == cmds
      modifies this
      ensures Accounted() && (state == Final || state == Matching)
      ensures |readsLeft| < |old(readsLeft)| || (state == Final && readsLeft == [])
      ensures |result.value| == |cmds| + 1 && result.value[..|cmds|] == cmds
      ensures 1 <= m <= |old(readsLeft)| + 1
      ensures newOffset == (old(newOffset) + m) % TWO_64
      ensures result.value[|cmds|] == Grown(old(result.value[|cmds|]), 1, m)
      ensures forall i | 0 <= i < m - 1 ::
        i < |old(readsLeft)| && old(readsLeft)[i] && (i >= |old(searchesLeft)| || old(searchesLeft)[i].None?)
      ensures state == Final <==> m > |old(readsLeft)| || !old(readsLeft)[m - 1]
      ensures state == Matching ==> m <= |old(searchesLeft)| && old(searchesLeft)[m - 1].Some?
    {
      ghost var c0 := result.value[|cmds|];
      ghost var reads0 := readsLeft;
      ghost var searches0 := searchesLeft;
      m := 0;
      while true
        invariant Accounted() && state == NonMatching
        invariant |result.value| == |cmds| + 1 && result.value[..|cmds|] == cmds
        invariant m <= |reads0|
        invariant readsLeft == reads0[m..]
        invariant m <= |searches0| ==> searchesLeft == searches0[m..]
        invariant m > |searches0| ==> searchesLeft == []
        invariant newOffset == (old(newOffset) + m) % TWO_64
        invariant result.value[|cmds|] == Grown(c0, 1, m)
        invariant forall i | 0 <= i < m :: reads0[i] && (i >= |searches0| || searches0[i].None?)
        decreases |readsLeft|
      {
        GrowStep(c0, 1, m);
        ModSum(old(newOffset) + m, 1, TWO_64);
        Advance(1);
        m := m + 1;
        assert result.value[|cmds|] == Grown(c0, 1, m);
        var ok := ReadMoreData();
        if !ok {
          state := Final;
          break;
        }
        var found := Search(false, 0);
        if found {
          state := Matching;
          break;
        }
      }
    }

    /** `Advance(inc)` on a last command that has grown `j` steps: it has then grown `j + 1`. */
    method GrowLast(ghost n: nat, ghost c0: Command, inc: u64, ghost j: nat)
      requires Accounted() && |result.value| == n + 1 && result.value[n] == Grown(c0, inc, j)
      modifies this`newOffset, this`result
      ensures Accounted() && |result.value| == n + 1 && result.value[..n] == old(result.value[..n])
      ensures result.value[n] == Grown(c0, inc, j + 1)
      ensures newOffset == (old(newOffset) + inc) % TWO_64
    {
      GrowStep(c0, inc, j);
      Advance(inc);
    }

    /** `result->push_back(command)` for a command of length 0. */
    method PushCommand(c: Command)
      requires Accounted() && GetLength(c) == 0
      modifies this`result
      ensures Accounted() && result.Some? && result.value == old(result.value) + [c]
      ensures result.value[..|old(result.value)|] == old(result.value)
    {
      result := Some(result.value + [c]);
      assert result.value[..|result.value| - 1] == old(result.value);
    }

    /** One step of a run: `new_offset` and the last command's length both grow by `inc`. */
    method Advance(inc: u64)
      requires Accounted() && |result.value| > 0
      modifies this`newOffset, this`result
      ensures Accounted() && |result.value| == |old(result.value)|
      ensures newOffset == (old(newOffset) + inc) % TWO_64
      ensures result.value[|result.value| - 1].length == (old(result.value)[|result.value| - 1].length + inc) % TWO_64
      ensures result.value[..|result.value| - 1] == old(result.value)[..|result.value| - 1]
      ensures result.value[|result.value| - 1].fileOffset == old(result.value)[|result.value| - 1].fileOffset
    {
      OffsetAfterIncrease(newOffset, SumLengths(result.value), inc);
      newOffset := (newOffset + inc) % TWO_64;
      ghost var before := result.value;
      result := Some(IncreaseLast(result.value, inc));
    }

    /** `get_result`: hands the command list over and leaves none behind. */
    method GetResult() returns (r: Option<seq<Command>>)
      modifies this`result
      ensures r == old(result) && result == None
    {
      r := result;
      result := None;
    }
  }

  /** Entry `i` of `t` has rolling checksum `c` and digest `h`. */
  ghost predicate Matches(t: seq<TableItem>, i: int, c: u32, h: Digest)
  {
    0 <= i < |t| && t[i].rollingChecksum == c && t[i].complexHash == h
  }

  /** The comparison of the first `triple_search`: an entry's checksum against `c`. */
  function ByChecksum(c: u32): TableItem -> int
  {
    (a: TableItem) => UnsignedCmp(a.rollingChecksum, c)
  }

  /** The comparison of the second `triple_search`: an entry's digest against `h`. */
  function ByDigest(h: Digest): TableItem -> int
  {
    (a: TableItem) => Memcmp(a.complexHash, h)
  }

  /** The comparison of the third `triple_search`: an entry's offset against `target`. */
  function ByOffset(target: u64): TableItem -> int
  {
    (a: TableItem) => UnsignedCmp(a.fileOffset, target)
  }

  /** Over a sorted table the checksum comparison never falls. */
  lemma ChecksumSignsSorted(t: seq<TableItem>, c: u32)
    requires SortedBy(t, Less)
    ensures SignsSorted(t, ByChecksum(c), 0, |t|)
  {
    forall i, j | 0 <= i <= j < |t|
      ensures Sign(ByChecksum(c)(t[i])) <= Sign(ByChecksum(c)(t[j]))
    {
      SortedChecksums(t, i, j);
    }
  }

  /** Comparing against a fixed `h` keeps the order of `memcmp`. */
  lemma MemcmpSignMonotone(a: seq<u8>, b: seq<u8>, h: seq<u8>)
    requires |a| == |b| == |h| && Memcmp(a, b) <= 0
    ensures Sign(Memcmp(a, h)) <= Sign(Memcmp(b, h))
  {
    if Memcmp(a, b) < 0 && Memcmp(b, h) < 0 {
      MemcmpTransitive(a, b, h);
    }
  }

  /** Inside a run of one checksum the digest comparison never falls. */
  lemma DigestSignsSorted(t: seq<TableItem>, c: u32, h: Digest, lo: nat, hi: nat)
    requires SortedBy(t, Less) && lo <= hi <= |t|
    requires forall i | lo <= i < hi :: t[i].rollingChecksum == c
    ensures SignsSorted(t, ByDigest(h), lo, hi)
  {
    forall i, j | lo <= i <= j < hi
      ensures Sign(ByDigest(h)(t[i])) <= Sign(ByDigest(h)(t[j]))
    {
      if i < j {
        SortedDigests(t, i, j);
        MemcmpSignMonotone(t[i].complexHash, t[j].complexHash, h);
      }
    }
  }

  /** Inside a run of one checksum and one digest the offset comparison never falls. */
  lemma OffsetSignsSorted(t: seq<TableItem>, c: u32, h: Digest, target: u64, lo: nat, hi: nat)
    requires SortedBy(t, Less) && lo <= hi <= |t|
    requires forall i | lo <= i < hi :: Matches(t, i, c, h)
    ensures SignsSorted(t, ByOffset(target), lo, hi)
  {
    forall i, j | lo <= i <= j < hi
      ensures Sign(ByOffset(target)(t[i])) <= Sign(ByOffset(target)(t[j]))
    {
      if i < j {
        assert Matches(t, i, c, h) && Matches(t, j, c, h);
        SortedOffsets(t, i, j);
      }
    }
  }

  /** The two nested zero runs are exactly the entries matching both checksum and digest. */
  lemma MatchRun(t: seq<TableItem>, c: u32, h: Digest, p1: nat, q1: nat, p2: nat, q2: nat)
    requires Partitioned(t, ByChecksum(c), 0, |t|, p1, q1)
    requires Partitioned(t, ByDigest(h), p1, q1, p2, q2)
    ensures forall i :: Matches(t, i, c, h) <==> p2 <= i < q2
  {
    forall i | 0 <= i < |t|
      ensures Matches(t, i, c, h) <==> p2 <= i < q2
    {
      if i < p1 {
        assert ByChecksum(c)(t[i]) < 0;
      } else if i >= q1 {
        assert ByChecksum(c)(t[i]) > 0;
      } else {
        assert ByChecksum(c)(t[i]) == 0;
        if i < p2 {
          assert ByDigest(h)(t[i]) < 0;
        } else if i >= q2 {
          assert ByDigest(h)(t[i]) > 0;
        } else {
          assert ByDigest(h)(t[i]) == 0;
        }
      }
    }
  }

  /** The first entry of a run of equal checksums and digests has the least offset. */
  lemma FirstOffsetLeast(t: seq<TableItem>, c: u32, h: Digest, p: nat, q: nat)
    requires SortedBy(t, Less) && p < q <= |t|
    requires forall i :: Matches(t, i, c, h) <==> p <= i < q
    ensures forall i :: Matches(t, i, c, h) ==> t[p].fileOffset <= t[i].fileOffset
  {
    forall i | Matches(t, i, c, h)
      ensures t[p].fileOffset <= t[i].fileOffset
    {
      if p < i {
        assert Matches(t, p, c, h);
        SortedOffsets(t, p, i);
      }
    }
  }

  /**
   * The loop at the end of `search`, over the run `[begin, end)` of entries
   * matching checksum and digest: the first entry's offset, unless
   * `offset_valid` and some entry of the run lies at `target`.
   */
  method PickOffset(t: seq<TableItem>, c: u32, h: Digest, begin: nat, end: nat, offsetValid: bool, target: u64)
    returns (offset: u64)
    requires SortedBy(t, Less) && begin < end <= |t|
    requires forall i :: Matches(t, i, c, h) <==> begin <= i < end
    ensures exists i :: Matches(t, i, c, h) && t[i].fileOffset == offset
    ensures offsetValid && (exists i :: Matches(t, i, c, h) && t[i].fileOffset == target) ==> offset == target
    ensures !offsetValid || !(exists i :: Matches(t, i, c, h) && t[i].fileOffset == target) ==>
      forall i :: Matches(t, i, c, h) ==> offset <= t[i].fileOffset
  {
    FirstOffsetLeast(t, c, h, begin, end);
    var first := begin;
    var valid := offsetValid;
    ghost var hit := false;
    while true
      invariant begin <= first < end && Matches(t, first, c, h)
      invariant !hit ==> first == begin
      invariant hit ==> offsetValid && t[first].fileOffset == target
      invariant valid ==> first == begin && offsetValid
      invariant offsetValid && !valid && !hit ==> forall i | begin <= i < end :: t[i].fileOffset != target
      decreases valid
    {
      if !valid {
        offset := t[first].fileOffset;
        assert hit ==> Matches(t, first, c, h) && t[first].fileOffset == target;
        return;
      }
      var byOffset := ByOffset(target);
      OffsetSignsSorted(t, c, h, target, begin, end);
      ghost var p, q := PartitionOf(t, byOffset, begin, end);
      var begin2, end2 := TripleSearch(t, byOffset, first, end, p, q);
      if begin2 != end2 {
        first := begin2.value;
        hit := true;
      }
      valid := false;
    }
  }

  /**
   * The members of `FileComparer` that work on bytes: the window rolling
   * over the new file and its checksum, the bytes the stream has not yet
   * yielded, the buffer that collects the new file in blocks of the new
   * block size, the blocks handed over for hashing, and the old file's
   * signature that the search consults.
   */
  /** Taking `c` more bytes after the first `pos` extends the prefix taken. */
  lemma PrefixGrows(base: seq<u8>, bytes: seq<u8>, pos: nat, c: nat)
    requires pos + c <= |bytes|
    ensures base + bytes[..pos] + bytes[pos .. pos + c] == base + bytes[..pos + c]
  {
    assert bytes[..pos + c] == bytes[..pos] + bytes[pos .. pos + c];
  }

  class FileComparer {
    const oldFile: RsyncableFile
    var window: CircularBuffer
    var checksum: u32
    /** The bytes of the new file the stream has not yet yielded. */
    var input: seq<u8>
    var newBuffer: SimpleBuffer
    /** `processing_queue`: the filled blocks handed over, oldest first. */
    var queue: seq<seq<u8>>
    var oldOffset: u64

    ghost predicate Valid()
      reads this, window, newBuffer
    {
      window.Valid() && window.StartInRange() &&
      newBuffer.Valid() && newBuffer.buffer != null && newBuffer.size < newBuffer.capacity &&
      newBuffer.buffer != window.buffer
    }

    /** Every byte collected so far: the queued blocks, then the partial block. */
    ghost function Collected(): seq<u8>
      reads this, newBuffer, newBuffer.buffer
      requires newBuffer.Valid()
    {
      Flatten(queue) + newBuffer.Bytes()
    }

    /**
     * `FileComparer(new_path, old_file)`: a one-byte window, and a collecting
     * buffer of the block size `scaler_function` picks for the new file.
     */
    constructor (fileSize: u64, contents: seq<u8>, signature: RsyncableFile)
      ensures Valid() && fresh(window) && fresh(newBuffer)
      ensures oldFile == signature && input == contents && queue == [] && Collected() == []
      ensures window.capacity == 1 && newBuffer.capacity < TWO_64 && IsScale(fileSize, newBuffer.capacity)
    {
      oldFile := signature;
      window := new CircularBuffer(1);
      checksum := 0;
      input := contents;
      var blockSize := ScalerFunction(fileSize);
      newBuffer := new SimpleBuffer(blockSize);
      queue := [];
      oldOffset := 0;
    }

    /**
     * `process_new_buffer(force)`: a full (or forced) buffer joins the queue
     * and a fresh one of the same capacity takes its place.
     */
    method ProcessNewBuffer(force: bool)
      requires newBuffer.Valid() && newBuffer.buffer != null
      modifies this`queue, this`newBuffer
      ensures newBuffer.Valid() && newBuffer.buffer != null && newBuffer.capacity == old(newBuffer.capacity)
      ensures Collected() == old(Collected())
      ensures force || old(newBuffer.Full()) ==>
        queue == old(queue) + [old(newBuffer.Bytes())] && newBuffer.size == 0 && fresh(newBuffer) && fresh(newBuffer.buffer)
      ensures !(force || old(newBuffer.Full())) ==> queue == old(queue) && newBuffer == old(newBuffer)
    {
      if !force && !newBuffer.Full() {
        return;
      }
      var capacity := newBuffer.capacity;
      var block := newBuffer.buffer[..newBuffer.size];
      assert (queue + [block])[..|queue|] == queue;
      queue := queue + [block];
      newBuffer := new SimpleBuffer(capacity);
    }

    /** `add_byte`: the byte goes into the collecting buffer, which is handed over once full. */
    method AddByte(b: u8)
      requires Valid()
      modifies this`queue, this`newBuffer, newBuffer`size, newBuffer.buffer
      ensures Valid() && newBuffer.capacity == old(newBuffer.capacity)
      ensures Collected() == old(Collected()) + [b]
      ensures newBuffer == old(newBuffer) || (fresh(newBuffer) && fresh(newBuffer.buffer))
    {
      newBuffer.buffer[newBuffer.size] := b;
      newBuffer.size := newBuffer.size + 1;
      ProcessNewBuffer(false);
    }

    /**
     * `add_block(buffer, size)`: copies as much as fits, hands a full buffer
     * over, and repeats until every byte is taken.
     */
    method AddBytes(bytes: seq<u8>)
      requires Valid()
      modifies this`queue, this`newBuffer, newBuffer`size, newBuffer.buffer
      ensures Valid() && newBuffer.capacity == old(newBuffer.capacity)
      ensures Collected() == old(Collected()) + bytes
      ensures newBuffer == old(newBuffer) || (fresh(newBuffer) && fresh(newBuffer.buffer))
    {
      var pos := 0;
      while pos < |bytes|
        invariant Valid() && pos <= |bytes| && newBuffer.capacity == old(newBuffer.capacity)
        invariant Collected() == old(Collected()) + bytes[..pos]
        invariant newBuffer == old(newBuffer) || (fresh(newBuffer) && fresh(newBuffer.buffer))
        decreases |bytes| - pos
      {
        var consumed := Fill(bytes, pos);
        PrefixGrows(old(Collected()), bytes, pos, consumed);
        pos := pos + consumed;
      }
      assert bytes[..pos] == bytes;
    }

    /** One round of `add_block`: the bytes from `pos` that fit, then the hand-over check. */
    method Fill(bytes: seq<u8>, pos: nat) returns (consumed: nat)
      requires Valid() && pos < |bytes|
      modifies this`queue, this`newBuffer, newBuffer`size, newBuffer.buffer
      ensures Valid() && newBuffer.capacity == old(newBuffer.capacity)
      ensures 0 < consumed <= |bytes| - pos
      ensures consumed == Min(old(newBuffer.capacity - newBuffer.size), |bytes| - pos)
      ensures Collected() == old(Collected()) + bytes[pos .. pos + consumed]
      ensures newBuffer == old(newBuffer) || (fresh(newBuffer) && fresh(newBuffer.buffer))
    {
      consumed := newBuffer.Append(bytes, pos);
      ProcessNewBuffer(false);
    }

    /** `add_block(circular_buffer)`: the window's bytes, piece by piece, oldest first. */
    method AddWindow()
      requires Valid()
      modifies this`queue, this`newBuffer, newBuffer`size, newBuffer.buffer
      ensures Valid() && newBuffer.capacity == old(newBuffer.capacity)
      ensures Collected() == old(Collected()) + window.Contents()
    {
      if window.size == 0 {
        return;
      }
      var first, second := window.CopyPieces();
      AddBytes(first);
      AddBytes(second);
    }

    /**
     * `read_another_byte`: the stream's next byte, which is also collected;
     * at the end of the stream the byte is `(byte_t)EOF`, that is 0xFF.
     */
    method ReadAnotherByte() returns (ok: bool, b: u8)
      requires Valid()
      modifies this`input, this`queue, this`newBuffer, newBuffer`size, newBuffer.buffer
      ensures Valid() && newBuffer.capacity == old(newBuffer.capacity)
      ensures ok <==> old(input) != []
      ensures ok ==> b == old(input)[0] && input == old(input)[1..] && Collected() == old(Collected()) + [b]
      ensures !ok ==> b == 0xFF && input == [] && Collected() == old(Collected())
      ensures newBuffer == old(newBuffer) || (fresh(newBuffer) && fresh(newBuffer.buffer))
    {
      if input == [] {
        return false, 0xFF;
      }
      b := input[0];
      input := input[1..];
      AddByte(b);
      ok := true;
    }

    /**
     * `non_matching_read_more_data`: the window slides one byte, dropping its
     * oldest byte and taking the stream's next, and the checksum rolls with
     * it.  At the end of the stream the window only shrinks, and the data is
     * over once it is empty.
     */
    method NonMatchingReadMoreData() returns (ok: bool)
      requires Valid() && window.size > 0
      requires checksum == RollingChecksum.Checksum(window.Contents())
      modifies this`checksum, this`input, this`queue, this`newBuffer, newBuffer`size, newBuffer.buffer
      modifies window`start, window`size, window.buffer
      ensures Valid() && checksum == RollingChecksum.Checksum(window.Contents())
      ensures old(input) != [] ==>
        ok && input == old(input)[1..] &&
        window.Contents() == old(window.Contents())[1..] + [old(input)[0]] &&
        Collected() == old(Collected()) + [old(input)[0]]
      ensures old(input) == [] ==>
        input == [] && window.Contents() == old(window.Contents())[1..] &&
        Collected() == old(Collected()) && (ok <==> window.size > 0)
    {
      var size := window.size;
      ghost var w := window.Contents();
      var dropped := window.Pop();
      RollingChecksum.SubtractRolls(w);
      checksum := RollingChecksum.Subtract(checksum, dropped, size);
      var read, b := ReadAnotherByte();
      if read {
        var _ := window.Push(b);
        var n := window.size;
        RollingChecksum.AddRolls(w[1..], b, n);
        checksum := RollingChecksum.Add(checksum, b, n);
      } else if window.size == 0 {
        return false;
      }
      ok := true;
    }

    /**
     * `search(offset_valid, target)`: whether some entry of the old table has
     * the window's checksum and digest, and if so the old offset to copy from:
     * the first such entry's, except that an entry at `target` wins when
     * `offset_valid`.  The bitmap answers first; the digest is taken only
     * once the checksum has matched.
     */
    method Search(offsetValid: bool, target: u64, sha1: seq<u8> -> Digest) returns (found: bool)
      requires window.Valid() && oldFile.Valid()
      modifies this`oldOffset
      ensures var t, h := oldFile.table, sha1(window.Contents());
        found <==> exists i :: Matches(t, i, checksum, h)
      ensures var t, h := oldFile.table, sha1(window.Contents());
        found ==> exists i :: Matches(t, i, checksum, h) && t[i].fileOffset == oldOffset
      ensures var t, h := oldFile.table, sha1(window.Contents());
        found && offsetValid && (exists i :: Matches(t, i, checksum, h) && t[i].fileOffset == target) ==>
        oldOffset == target
      ensures var t, h := oldFile.table, sha1(window.Contents());
        found && (!offsetValid || !exists i :: Matches(t, i, checksum, h) && t[i].fileOffset == target) ==>
        forall i :: Matches(t, i, checksum, h) ==> oldOffset <= t[i].fileOffset
      ensures !found ==> oldOffset == old(oldOffset)
    {
      var t := oldFile.table;
      var c := checksum;
      if oldFile.DoesNotContain(c) {
        assert forall i | 0 <= i < |t| :: t[i].rollingChecksum % TWO_24 != c % TWO_24;
        return false;
      }
      var byChecksum := ByChecksum(c);
      ChecksumSignsSorted(t, c);
      ghost var p1, q1 := PartitionOf(t, byChecksum, 0, |t|);
      var begin0, end0 := TripleSearch(t, byChecksum, 0, |t|, p1, q1);
      var bytes := RollingChecksum.Indexed(window);
      var hash := sha1(bytes);
      DigestSignsSorted(t, c, hash, p1, q1);
      ghost var p2, q2 := PartitionOf(t, ByDigest(hash), p1, q1);
      MatchRun(t, c, hash, p1, q1, p2, q2);
      if begin0 == end0 {
        return false;
      }
      var byDigest := ByDigest(hash);
      var begin1, end1 := TripleSearch(t, byDigest, begin0.value, end0.value, p2, q2);
      if begin1 == end1 {
        return false;
      }
      var offset := PickOffset(t, c, hash, begin1.value, end1.value, offsetValid, target);
      oldOffset := offset;
      found := true;
      assert t == oldFile.table && c == checksum && hash == sha1(window.Contents());
    }
  }
}
