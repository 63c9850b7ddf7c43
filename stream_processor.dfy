/**
 * The segments that carry data between the stages of a stream pipeline,
 * the pipeline's pool of buffers, and the rule by which a processor reads
 * its next segment.  A subsegment is a window into its segment's buffer,
 * written as a start index and a size instead of a pointer and a size.
 */
module Streams {
  import opened Types

  /** `default_buffer_size`: 1 << 16. */
  const DEFAULT_BUFFER_SIZE: nat := 65536

  datatype SegmentType = Undefined | Eof | Data | Flush | FullFlush

  /** A window into a buffer: `data` as an index from the buffer's start, and `size`. */
  datatype SubSegment = SubSegment(start: nat, size: nat)

  /** A buffer owned by a segment or waiting in the pool. */
  class Buffer {
    var bytes: seq<u8>

    constructor (n: nat)
      ensures bytes == seq(n, _ => 0)
    {
      bytes := seq(n, _ => 0);
    }
  }

  /** The pipeline's buffer pool: released buffers are handed out again, last first. */
  class Pipeline {
    var pool: seq<Buffer>

    constructor ()
      ensures pool == []
    {
      pool := [];
    }

    /** The buffers waiting in the pool. */
    ghost function Pooled(): set<Buffer>
      reads this
    {
      set i | 0 <= i < |pool| :: pool[i]
    }

    /** Every pooled buffer has the default size. */
    ghost predicate Valid()
      reads this, set i | 0 <= i < |pool| :: pool[i]
    {
      forall i | 0 <= i < |pool| :: |pool[i].bytes| == DEFAULT_BUFFER_SIZE
    }

    /** `allocate_buffer`: the most recently released buffer, else a fresh one of the default size. */
    method AllocateBuffer() returns (b: Buffer)
      requires Valid()
      modifies this`pool
      ensures Valid()
      ensures |b.bytes| == DEFAULT_BUFFER_SIZE
      ensures old(pool) != [] ==> b == old(pool)[|old(pool)| - 1] && pool == old(pool)[..|old(pool)| - 1]
      ensures old(pool) == [] ==> fresh(b) && pool == []
    {
      if |pool| > 0 {
        b := pool[|pool| - 1];
        pool := pool[..|pool| - 1];
        return;
      }
      b := new Buffer(DEFAULT_BUFFER_SIZE);
    }

    /** `release_buffer`: the buffer goes on top of the pool. */
    method ReleaseBuffer(b: Buffer)
      requires Valid() && |b.bytes| == DEFAULT_BUFFER_SIZE
      modifies this`pool
      ensures Valid()
      ensures pool == old(pool) + [b]
    {
      pool := pool + [b];
    }
  }

  /** A buffer released and allocated again is the same buffer, and the pool is as before. */
  method ReleaseThenAllocate(p: Pipeline, b: Buffer) returns (c: Buffer)
    requires p.Valid() && |b.bytes| == DEFAULT_BUFFER_SIZE
    modifies p`pool
    ensures c == b && p.pool == old(p.pool) && p.Valid()
  {
    p.ReleaseBuffer(b);
    c := p.AllocateBuffer();
    assert (old(p.pool) + [b])[..|old(p.pool)|] == old(p.pool);
  }

  /**
   * A segment: the pool it came from, its type, its buffer, the window
   * covering the whole buffer and the visible window, and whether it
   * carries a flush callback.
   */
  class Segment {
    var allocator: Pipeline?
    var kind: SegmentType
    var data: Buffer?
    var defaultSubsegment: SubSegment
    var subsegmentOverride: SubSegment
    var hasFlushCallback: bool

    /**
     * A segment has a buffer exactly when it has a pool; the buffer has the
     * default size and the visible window lies inside it.
     */
    ghost predicate Valid()
      reads this, data
    {
      (data != null <==> allocator != null) &&
      (data != null ==>
        |data.bytes| == DEFAULT_BUFFER_SIZE &&
        defaultSubsegment == SubSegment(0, DEFAULT_BUFFER_SIZE) &&
        subsegmentOverride.start + subsegmentOverride.size <= DEFAULT_BUFFER_SIZE) &&
      (data == null ==> defaultSubsegment == SubSegment(0, 0))
    }

    /** `Segment(type)`: no pool, no buffer, empty windows. */
    constructor OfType(t: SegmentType)
      ensures Valid() && kind == t && allocator == null && data == null && !hasFlushCallback
      ensures defaultSubsegment == SubSegment(0, 0) && subsegmentOverride == SubSegment(0, 0)
    {
      allocator := null;
      kind := t;
      data := null;
      defaultSubsegment := SubSegment(0, 0);
      subsegmentOverride := SubSegment(0, 0);
      hasFlushCallback := false;
    }

    /**
     * `Segment(pipeline)`: a buffer from the pipeline's pool, both windows
     * covering all of it.  The type's default comes from a header that is
     * not part of this model; it is taken to be Data, as the file source
     * uses these segments.
     */
    constructor FromPipeline(p: Pipeline)
      requires p.Valid()
      modifies p`pool
      ensures Valid() && p.Valid() && allocator == p && kind == Data && !hasFlushCallback
      ensures defaultSubsegment == subsegmentOverride == SubSegment(0, DEFAULT_BUFFER_SIZE)
      ensures old(p.pool) != [] ==> data == old(p.pool)[|old(p.pool)| - 1] && p.pool == old(p.pool)[..|old(p.pool)| - 1]
      ensures old(p.pool) == [] ==> fresh(data) && p.pool == []
    {
      var b := p.AllocateBuffer();
      allocator := p;
      kind := Data;
      data := b;
      defaultSubsegment := SubSegment(0, |b.bytes|);
      subsegmentOverride := SubSegment(0, |b.bytes|);
      hasFlushCallback := false;
    }

    /** `construct_flush(callback)`: a Flush segment that carries the callback. */
    constructor Flush()
      ensures Valid() && kind == SegmentType.Flush && hasFlushCallback && allocator == null && data == null
    {
      allocator := null;
      kind := SegmentType.Flush;
      data := null;
      defaultSubsegment := SubSegment(0, 0);
      subsegmentOverride := SubSegment(0, 0);
      hasFlushCallback := true;
    }

    /** `get_offset`: where the visible window starts within the buffer. */
    function Offset(): (r: int)
      reads this
      ensures r == subsegmentOverride.start - defaultSubsegment.start
    {
      subsegmentOverride.start - defaultSubsegment.start
    }

    /** The bytes the visible window shows. */
    ghost function Visible(): seq<u8>
      reads this, data
      requires Valid() && data != null
    {
      data.bytes[subsegmentOverride.start..subsegmentOverride.start + subsegmentOverride.size]
    }

    /** `skip_bytes(n)`: the window's start moves by `min(n, size)` and its size shrinks by as much. */
    method SkipBytes(n: nat)
      requires Valid()
      modifies this`subsegmentOverride
      ensures Valid()
      ensures var addend := Min(old(subsegmentOverride.size), n);
              subsegmentOverride == SubSegment(old(subsegmentOverride.start) + addend, old(subsegmentOverride.size) - addend)
      ensures data != null ==> Visible() == old(Visible())[Min(old(subsegmentOverride.size), n)..]
    {
      var addend := Min(subsegmentOverride.size, n);
      subsegmentOverride := SubSegment(subsegmentOverride.start + addend, subsegmentOverride.size - addend);
    }

    /** `trim_to_size(n)`: the window keeps its start and shrinks to at most `n` bytes. */
    method TrimToSize(n: nat)
      requires Valid()
      modifies this`subsegmentOverride
      ensures Valid()
      ensures subsegmentOverride == SubSegment(old(subsegmentOverride.start), Min(old(subsegmentOverride.size), n))
      ensures data != null ==> Visible() == old(Visible())[..Min(old(subsegmentOverride.size), n)]
    {
      if n < subsegmentOverride.size {
        subsegmentOverride := SubSegment(subsegmentOverride.start, n);
      }
    }

    /** `release`: a segment with a buffer returns it to its pool. */
    method Release()
      requires Valid() && (allocator != null ==> allocator.Valid())
      modifies if allocator != null then {allocator} else {}
      ensures allocator != null ==> allocator.Valid()
      ensures data != null ==> allocator.pool == old(allocator.pool) + [data]
      ensures data == null && allocator != null ==> allocator.pool == old(allocator.pool)
    {
      if data != null {
        allocator.ReleaseBuffer(data);
      }
    }

    /**
     * `clone`: flush signals cannot be cloned.  Otherwise the copy has the
     * same pool and type; with a pool it gets a buffer from it holding the
     * same bytes and a window at the same offset and of the same size.
     */
    method Clone() returns (r: Result<Segment, string>)
      requires Valid() && (allocator != null ==> allocator.Valid() && data !in allocator.pool)
      modifies if allocator != null then {allocator} + allocator.Pooled() else {}
      ensures (kind == SegmentType.Flush || kind == FullFlush) <==> r.Err?
      ensures r.Ok? ==>
        var c := r.value;
        c != this && c.Valid() && c.allocator == allocator && c.kind == kind && !c.hasFlushCallback &&
        (allocator == null ==> c.data == null) &&
        (allocator != null ==>
          c.data != null && c.data != data && c.data.bytes == data.bytes && allocator.Valid() &&
          c.subsegmentOverride == SubSegment(Offset(), subsegmentOverride.size) && c.Visible() == Visible())
    {
      if kind == SegmentType.Flush || kind == FullFlush {
        return Err("Attempt to clone a flush signal.");
      }
      var c := new Segment.OfType(kind);
      c.allocator := allocator;
      if allocator != null {
        var b := ReceiveCopy(allocator, data);
        c.data := b;
        c.defaultSubsegment := SubSegment(0, |b.bytes|);
        c.subsegmentOverride := SubSegment(c.defaultSubsegment.start + Offset(), subsegmentOverride.size);
      }
      r := Ok(c);
    }

    /**
     * Move assignment: this segment releases its buffer and takes every
     * field of `other`, which is left with no pool, type Undefined, no
     * buffer, empty windows and no callback.
     */
    method MoveFrom(other: Segment)
      requires other != this && Valid() && other.Valid() && (allocator != null ==> allocator.Valid())
      modifies this, other, if allocator != null then {allocator} else {}
      ensures Valid()
      ensures allocator == old(other.allocator) && kind == old(other.kind) && data == old(other.data)
      ensures defaultSubsegment == old(other.defaultSubsegment) && subsegmentOverride == old(other.subsegmentOverride)
      ensures hasFlushCallback == old(other.hasFlushCallback)
      ensures other.allocator == null && other.kind == Undefined && other.data == null && !other.hasFlushCallback
      ensures other.defaultSubsegment == SubSegment(0, 0) && other.subsegmentOverride == SubSegment(0, 0)
      ensures old(data) != null ==> old(allocator).pool == old(allocator.pool) + [old(data)]
    {
      Release();
      allocator := other.allocator;
      other.allocator := null;
      kind := other.kind;
      other.kind := Undefined;
      data := other.data;
      other.data := null;
      defaultSubsegment := other.defaultSubsegment;
      other.defaultSubsegment := SubSegment(0, 0);
      subsegmentOverride := other.subsegmentOverride;
      other.subsegmentOverride := SubSegment(0, 0);
      hasFlushCallback := other.hasFlushCallback;
      other.hasFlushCallback := false;
    }
  }

  /** A buffer from the pool with the bytes of `source` copied into it. */
  method ReceiveCopy(p: Pipeline, source: Buffer) returns (b: Buffer)
    requires p.Valid() && |source.bytes| == DEFAULT_BUFFER_SIZE && source !in p.pool
    modifies p`pool, p.Pooled()
    ensures p.Valid() && b != source && b.bytes == source.bytes
    ensures old(p.pool) != [] ==> b == old(p.pool)[|old(p.pool)| - 1] && p.pool == old(p.pool)[..|old(p.pool)| - 1]
    ensures old(p.pool) == [] ==> fresh(b) && p.pool == []
  {
    b := p.AllocateBuffer();
    b.bytes := source.bytes;
  }

  /** How many segments at the front of `incoming` are flush signals. */
  function FlushRun(incoming: seq<SegmentType>): (k: nat)
    ensures k <= |incoming|
    ensures forall j | 0 <= j < k :: incoming[j] == Flush || incoming[j] == FullFlush
    ensures k < |incoming| ==> incoming[k] != Flush && incoming[k] != FullFlush
  {
    if incoming == [] || (incoming[0] != Flush && incoming[0] != FullFlush) then 0
    else 1 + FlushRun(incoming[1..])
  }

  /** The FullFlush signals among `s`, in order. */
  function FullFlushes(s: seq<SegmentType>): (r: seq<SegmentType>)
    ensures |r| <= |s| && forall j | 0 <= j < |r| :: r[j] == FullFlush
  {
    if s == [] then [] else FullFlushes(s[..|s| - 1]) + (if s[|s| - 1] == FullFlush then [FullFlush] else [])
  }

  /**
   * `Processor::read` over the segments its source queue delivers: every
   * flush signal runs `flush_impl`, a FullFlush is passed to the sink when
   * `passFlush`, and the first other segment is returned.  Waiting on an
   * empty queue is not modelled: `None` means the queue ran dry.
   */
  method Read(incoming: seq<SegmentType>, passFlush: bool)
    returns (ret: Option<SegmentType>, flushes: nat, forwarded: seq<SegmentType>)
    ensures ret.Some? ==> ret.value != Flush && ret.value != FullFlush
    ensures var k := FlushRun(incoming);
            flushes == k &&
            ret == (if k < |incoming| then Some(incoming[k]) else None) &&
            forwarded == (if passFlush then FullFlushes(incoming[..k]) else [])
  {
    var i := 0;
    flushes := 0;
    forwarded := [];
    while i < |incoming|
      invariant i <= FlushRun(incoming) && flushes == i
      invariant forwarded == if passFlush then FullFlushes(incoming[..i]) else []
    {
      var segment := incoming[i];
      assert incoming[..i + 1][..i] == incoming[..i];
      if segment == Flush {
        flushes := flushes + 1;
        i := i + 1;
        continue;
      }
      if segment == FullFlush {
        flushes := flushes + 1;
        if passFlush {
          forwarded := forwarded + [segment];
        }
        i := i + 1;
        continue;
      }
      return Some(segment), flushes, forwarded;
    }
    return None, flushes, forwarded;
  }
}
