/**
 * `DumbPipe`: the two ends of a pipe over a list of written chunks.  Reading
 * an empty pipe first calls `on_empty_read`, which may write more; its
 * effect is given as the chunks each call writes.
 *
 * As written, `read` copies from the start of the front chunk rather than
 * from the offset, and the offset is not reset when a chunk is dropped; the
 * model keeps both.  A size that goes below zero in the source's unsigned
 * arithmetic (a chunk shorter than the offset) makes `read` take all the
 * bytes still wanted, past the chunk's end; bytes past the end read as 0.
 */
module Pipes {
  import opened Types

  /** `n` bytes from the start of `chunk`, zeros past its end. */
  function TakePadded(chunk: seq<u8>, n: nat): (r: seq<u8>)
    ensures |r| == n && forall i | 0 <= i < n && i < |chunk| :: r[i] == chunk[i]
  {
    if n <= |chunk| then chunk[..n] else chunk + seq(n - |chunk|, _ => 0)
  }

  class DumbPipe {
    var buffers: seq<seq<u8>>
    var offset: nat

    constructor ()
      ensures buffers == [] && offset == 0
    {
      buffers := [];
      offset := 0;
    }

    /** `write(s, n)`: one more chunk holding exactly the `n` bytes; `n` is returned. */
    method Write(s: seq<u8>) returns (count: nat)
      modifies this`buffers
      ensures buffers == old(buffers) + [s] && count == |s|
    {
      buffers := buffers + [s];
      count := |s|;
    }

    /** The bytes one step takes from the front chunk, with the unsigned wrap of the source. */
    function StepSize(n: nat): (r: nat)
      reads this
      requires buffers != [] && n > 0
      ensures r <= n
      ensures |buffers[0]| >= offset ==> r == Min(|buffers[0]| - offset, n)
      ensures |buffers[0]| < offset ==> r == n
    {
      if |buffers[0]| >= offset then Min(|buffers[0]| - offset, n) else n
    }

    /**
     * `read(s, n)`.  `refills[k]` are the chunks the k-th call of
     * `on_empty_read` writes (none once the list runs out).  The result is
     * -1 exactly when nothing was read and the pipe was still empty after
     * the callback; otherwise it is the number of bytes read, at most `n`.
     */
    method Read(n: nat, refills: seq<seq<seq<u8>>>) returns (ret: int, out: seq<u8>, calls: nat)
      modifies this`buffers, this`offset
      ensures ret <= n && calls <= |refills| + 1
      ensures ret == -1 ==> out == [] && buffers == []
      ensures ret != -1 ==> ret == |out| && (ret < n ==> buffers == [])
      ensures ret == n ==> ret == |out|
      ensures 0 < n && old(buffers) != [] && old(offset) <= |old(buffers)[0]| && n <= |old(buffers)[0]| - old(offset) ==>
        ret == n && out == old(buffers)[0][..n] && calls == 0 && offset == old(offset) + n &&
        buffers == if offset == |old(buffers)[0]| then old(buffers)[1..] else old(buffers)
      ensures n > 0 && (old(buffers) == [] || (|old(buffers)| == 1 && old(offset) == |old(buffers)[0]|)) &&
              (refills == [] || refills[0] == []) ==>
        ret == -1 && buffers == []
    {
      ret := 0;
      out := [];
      calls := 0;
      var wanted: nat := n;
      var bad := false;
      ghost var fits := 0 < n && old(buffers) != [] && old(offset) <= |old(buffers)[0]| && n <= |old(buffers)[0]| - old(offset);
      ghost var drained := n > 0 && (old(buffers) == [] || (|old(buffers)| == 1 && old(offset) == |old(buffers)[0]|)) &&
        (refills == [] || refills[0] == []);
      while wanted > 0
        invariant wanted <= n && ret == n - wanted && |out| == ret && calls <= |refills|
        invariant bad ==> buffers == [] && wanted > 0
        invariant fits ==> calls == 0 && !bad
        invariant fits && wanted == n ==> buffers == old(buffers) && offset == old(offset)
        invariant fits && wanted < n ==>
          wanted == 0 && out == old(buffers)[0][..n] && offset == old(offset) + n &&
          buffers == if offset == |old(buffers)[0]| then old(buffers)[1..] else old(buffers)
        invariant drained ==> ret == 0 && calls == 0 && (buffers == [] || (buffers == old(buffers) && offset == old(offset)))
        decreases wanted, |refills| + 1 - calls, |buffers|
      {
        if buffers == [] {
          if calls < |refills| {
            buffers := buffers + refills[calls];
          }
          calls := calls + 1;
          if buffers == [] {
            bad := true;
            break;
          }
        }
        var readSize := StepSize(wanted);
        out := out + TakePadded(buffers[0], readSize);
        offset := offset + readSize;
        if offset == |buffers[0]| {
          buffers := buffers[1..];
        }
        ret := ret + readSize;
        wanted := wanted - readSize;
      }
      if ret == 0 && bad {
        ret := -1;
        out := [];
      }
    }
  }

  /** Reading an empty pipe whose callback writes nothing gives -1. */
  method EmptyReadFails(p: DumbPipe, n: nat) returns (ret: int)
    requires p.buffers == [] && n > 0
    modifies p
    ensures ret == -1
  {
    var out, calls;
    ret, out, calls := p.Read(n, []);
  }

  /**
   * A chunk written to a fresh pipe reads back whole; a second chunk of the
   * same length is then skipped, because the offset still equals its size.
   */
  method SameLengthChunkSkipped(a: seq<u8>, b: seq<u8>) returns (first: seq<u8>, second: int)
    requires |a| == |b| > 0
    ensures first == a && second == -1
  {
    var p := new DumbPipe();
    var w := p.Write(a);
    w := p.Write(b);
    var r, calls;
    r, first, calls := p.Read(|a|, []);
    assert p.buffers == [b] && p.offset == |a|;
    var out;
    second, out, calls := p.Read(|b|, []);
  }

  /** Two partial reads of one chunk both return its first bytes: the copy ignores the offset. */
  method PartialReadsRepeat() returns (first: seq<u8>, second: seq<u8>)
    ensures first == [1, 2] && second == [1, 2]
  {
    var p := new DumbPipe();
    var w := p.Write([1, 2, 3, 4]);
    var r, calls;
    r, first, calls := p.Read(2, []);
    r, second, calls := p.Read(2, []);
  }
}
