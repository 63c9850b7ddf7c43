/**
 * The input stage that reads a sequence of streams as one: a coroutine
 * yields the streams one after another and then a null stream.  A stream
 * is its unread bytes; the streams the coroutine will still yield are
 * `producer`, after which it yields null.
 */
module Composing {
  import opened Types

  lemma {:induction false} FlattenCons<T>(x: seq<T>, s: seq<seq<T>>)
    ensures Flatten([x] + s) == x + Flatten(s)
    decreases |s|
  {
    if s == [] {
      assert [x] + s == [x];
      assert [x][..0] == [];
    } else {
      assert ([x] + s)[..|[x] + s| - 1] == [x] + s[..|s| - 1];
      FlattenCons(x, s[..|s| - 1]);
    }
  }

  class ComposingInputFilter {
    /** The unread bytes of `current_stream`, or `None` for a null pointer. */
    var current: Option<seq<u8>>
    var producer: seq<seq<u8>>

    /** The constructor: no stream yet. */
    constructor (streams: seq<seq<u8>>)
      ensures current == None && producer == streams
    {
      current := None;
      producer := streams;
    }

    /** Every byte still to come, in order. */
    function Pending(): seq<u8>
      reads this
    {
      (if current.Some? then current.value else []) + Flatten(producer)
    }

    /**
     * `co->get()` followed by `(*co)()`: the next stream becomes the current
     * one, unless the coroutine yields null.
     */
    method NextStream() returns (ok: bool)
      requires current.None?
      modifies this`current, this`producer
      ensures ok <==> old(producer) != []
      ensures ok ==> current.Some? && |producer| == |old(producer)| - 1
      ensures !ok ==> current == None && producer == []
      ensures Pending() == old(Pending())
    {
      if producer == [] {
        return false;
      }
      FlattenCons(producer[0], producer[1..]);
      assert [producer[0]] + producer[1..] == producer;
      current := Some(producer[0]);
      producer := producer[1..];
      return true;
    }

    /**
     * `current_stream->read(s, n)` with `gcount()` and `good()`: up to
     * `wanted` bytes from the current stream, which is dropped when it had
     * fewer.
     */
    method ReadCurrent(wanted: nat) returns (bytes: seq<u8>)
      requires current.Some?
      modifies this`current
      ensures |bytes| == Min(wanted, |old(current).value|)
      ensures old(Pending()) == bytes + Pending()
      ensures current.Some? <==> |old(current).value| >= wanted
    {
      var stream := current.value;
      var got := Min(wanted, |stream|);
      bytes := stream[..got];
      assert stream == bytes + stream[got..];
      if |stream| >= wanted {
        current := Some(stream[got..]);
      } else {
        current := None;
      }
    }

    /**
     * `read(s, n)`: the next `n` bytes of the composed stream, or all that
     * remain when there are fewer; a stream is dropped once a read leaves
     * it not good, that is once it could not deliver all that was asked.
     * The result is -1 exactly when `n` bytes were asked for, none remained
     * and the coroutine yielded null; once it has, nothing more is read.
     */
    method Read(n: nat) returns (ret: int, out: seq<u8>)
      modifies this`current, this`producer
      ensures |out| == Min(n, |old(Pending())|)
      ensures out == old(Pending())[..|out|] && Pending() == old(Pending())[|out|..]
      ensures ret == -1 <==> n > 0 && old(Pending()) == []
      ensures ret != -1 ==> ret == |out|
      ensures n > |old(Pending())| ==> current == None && producer == []
    {
      ghost var all := Pending();
      ret := 0;
      out := [];
      var wanted: nat := n;
      var bad := false;
      while wanted > 0
        invariant ret == |out| && ret + wanted == n
        invariant all == out + Pending()
        invariant !bad
        decreases |producer| + (if current.Some? then 1 else 0), wanted
      {
        if current.None? {
          var ok := NextStream();
          if !ok {
            bad := true;
            break;
          }
        }
        var bytes := ReadCurrent(wanted);
        assert all == (out + bytes) + Pending() by {
          assert out + (bytes + Pending()) == (out + bytes) + Pending();
        }
        out := out + bytes;
        ret := ret + |bytes|;
        wanted := wanted - |bytes|;
      }
      SplitAt(all, out, Pending());
      if bad {
        assert Pending() == [] && ret == |all|;
        if ret == 0 {
          ret := -1;
        }
      }
    }
  }

  /** A sequence made of a prefix and a rest splits back into them. */
  lemma SplitAt<T>(all: seq<T>, prefix: seq<T>, rest: seq<T>)
    requires all == prefix + rest
    ensures all[..|prefix|] == prefix && all[|prefix|..] == rest
  {
  }

  /** Reading in two steps yields what one read of the combined size yields. */
  method ReadSplit(f: ComposingInputFilter, a: nat, b: nat) returns (first: seq<u8>, second: seq<u8>)
    modifies f`current, f`producer
    ensures first + second == old(f.Pending())[..Min(a + b, |old(f.Pending())|)]
  {
    ghost var all := f.Pending();
    var r;
    r, first := f.Read(a);
    ghost var rest := f.Pending();
    r, second := f.Read(b);
    TwoReads(all, a, b, first, rest, second);
  }

  /** A prefix of the input followed by a prefix of what remains is a prefix of the input. */
  lemma TwoReads<T>(all: seq<T>, a: nat, b: nat, first: seq<T>, rest: seq<T>, second: seq<T>)
    requires |first| == Min(a, |all|) && first == all[..|first|] && rest == all[|first|..]
    requires |second| == Min(b, |rest|) && second == rest[..|second|]
    ensures first + second == all[..Min(a + b, |all|)]
  {
    assert |first| + |second| == Min(a + b, |all|);
    assert all[..|first| + |second|] == first + second;
  }
}
