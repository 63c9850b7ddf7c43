/**
 * A byte vector read as a source and appended to as a sink.  The vector is
 * an object both ends can share.
 */
module MemoryStreams {
  import opened Types

  class ByteVector {
    var bytes: seq<u8>

    constructor (b: seq<u8>)
      ensures bytes == b
    {
      bytes := b;
    }
  }

  /** `MemorySource`: reads the vector from `offset` on. */
  class MemorySource {
    const mem: ByteVector
    var offset: nat

    constructor (m: ByteVector)
      ensures mem == m && offset == 0
    {
      mem := m;
      offset := 0;
    }

    /**
     * `read(s, n)`: -1 once the offset has reached the end; otherwise the
     * next `min(n, size - offset)` bytes, the offset moving past them.
     */
    method Read(n: nat) returns (count: int, out: seq<u8>)
      modifies this`offset
      ensures old(offset) >= |mem.bytes| ==> count == -1 && out == [] && offset == old(offset)
      ensures old(offset) < |mem.bytes| ==>
        count == Min(n, |mem.bytes| - old(offset)) && out == mem.bytes[old(offset)..old(offset) + count] &&
        offset == old(offset) + count
      ensures old(offset) <= |mem.bytes| ==> offset <= |mem.bytes|
    {
      if offset >= |mem.bytes| {
        return -1, [];
      }
      count := Min(n, |mem.bytes| - offset);
      out := mem.bytes[offset..offset + count];
      offset := offset + count;
    }
  }

  /** `MemorySink`: appends to the vector. */
  class MemorySink {
    const mem: ByteVector

    constructor (m: ByteVector)
      ensures mem == m
    {
      mem := m;
    }

    /** `write(s, n)`: the vector grows by exactly the `n` bytes given, and `n` is returned. */
    method Write(s: seq<u8>) returns (count: nat)
      modifies mem
      ensures mem.bytes == old(mem.bytes) + s && count == |s|
    {
      mem.bytes := mem.bytes + s;
      count := |s|;
    }
  }

  /** Reads of `chunk` bytes until the source reports the end: everything from the offset on. */
  method ReadToEnd(source: MemorySource, chunk: nat) returns (all: seq<u8>)
    requires chunk > 0 && source.offset <= |source.mem.bytes|
    modifies source`offset
    ensures all == source.mem.bytes[old(source.offset)..] && source.offset == |source.mem.bytes|
  {
    all := [];
    while true
      invariant old(source.offset) <= source.offset <= |source.mem.bytes|
      invariant all == source.mem.bytes[old(source.offset)..source.offset]
      decreases |source.mem.bytes| - source.offset
    {
      var count, out := source.Read(chunk);
      if count == -1 {
        break;
      }
      all := all + out;
    }
  }

  /**
   * Whatever a sink writes into an empty vector, in whatever pieces, a
   * source over that vector reads back in order.
   */
  method WriteThenRead(pieces: seq<seq<u8>>, chunk: nat) returns (written: seq<u8>, read: seq<u8>)
    requires chunk > 0
    ensures written == Flatten(pieces) && read == written
  {
    var mem := new ByteVector([]);
    var sink := new MemorySink(mem);
    var i := 0;
    while i < |pieces|
      invariant i <= |pieces| && mem.bytes == Flatten(pieces[..i])
    {
      var n := sink.Write(pieces[i]);
      assert pieces[..i + 1][..i] == pieces[..i];
      i := i + 1;
    }
    assert pieces[..i] == pieces;
    written := mem.bytes;
    var source := new MemorySource(mem);
    read := ReadToEnd(source, chunk);
  }
}
