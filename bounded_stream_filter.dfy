/**
 * Two pipeline stages: a counter that adds up the data passing through it,
 * and an input stage that lets through at most a given number of bytes and
 * then ends the stream.  A segment is seen as its type and the size of its
 * data; the segments a stage reads are given in order, and those it writes
 * are collected in `written`.
 */
module BoundedFilters {
  import opened Types
  import Streams

  datatype Piece = Piece(kind: Streams.SegmentType, size: nat)

  /** The `Segment eof(SegmentType::Eof)` a stage creates itself: no data. */
  const EOF_PIECE: Piece := Piece(Streams.Eof, 0)

  predicate IsEof(p: Piece)
  {
    p.kind == Streams.Eof
  }

  /** The position of the first Eof, or the length when there is none. */
  function FirstEof(s: seq<Piece>): (k: nat)
    ensures k <= |s|
    ensures forall j | 0 <= j < k :: !IsEof(s[j])
    ensures k < |s| ==> IsEof(s[k])
  {
    if s == [] then 0
    else if IsEof(s[0]) then 0
    else 1 + FirstEof(s[1..])
  }

  /** The segments up to and including the first Eof. */
  function ThroughEof(s: seq<Piece>): (r: seq<Piece>)
    ensures FirstEof(s) < |s| ==> r == s[..FirstEof(s) + 1] && IsEof(r[|r| - 1])
    ensures FirstEof(s) == |s| ==> r == s
  {
    if FirstEof(s) < |s| then s[..FirstEof(s) + 1] else s
  }

  /** The total data size of `s`. */
  function DataSize(s: seq<Piece>): nat
  {
    if s == [] then 0 else DataSize(s[..|s| - 1]) + s[|s| - 1].size
  }

  lemma {:induction false} DataSizeAppend(s: seq<Piece>, t: seq<Piece>)
    ensures DataSize(s + t) == DataSize(s) + DataSize(t)
    decreases |t|
  {
    if t == [] {
      assert s + t == s;
    } else {
      assert (s + t)[..|s + t| - 1] == s + t[..|t| - 1];
      DataSizeAppend(s, t[..|t| - 1]);
    }
  }

  /**
   * The zstreams `ByteCounterOutputFilter`: `bytesProcessed` stands for the
   * caller's counter it refers to.
   */
  class ByteCounterOutputFilter {
    var bytesProcessed: nat
    var written: seq<Piece>

    /** The constructor zeroes the caller's counter. */
    constructor ()
      ensures bytesProcessed == 0 && written == []
    {
      bytesProcessed := 0;
      written := [];
    }

    /**
     * `work`: every segment is passed on unchanged, the sizes of those
     * before the first Eof are added to the counter, and the loop ends
     * right after passing on the Eof.  `consumed` is how many segments
     * were read.
     */
    method Work(incoming: seq<Piece>) returns (consumed: nat)
      modifies this`bytesProcessed, this`written
      ensures consumed == |ThroughEof(incoming)|
      ensures written == old(written) + ThroughEof(incoming)
      ensures bytesProcessed == old(bytesProcessed) + DataSize(incoming[..FirstEof(incoming)])
    {
      consumed := 0;
      while consumed < |incoming|
        invariant consumed <= FirstEof(incoming)
        invariant written == old(written) + incoming[..consumed]
        invariant bytesProcessed == old(bytesProcessed) + DataSize(incoming[..consumed])
      {
        var segment := incoming[consumed];
        if IsEof(segment) {
          written := written + [segment];
          consumed := consumed + 1;
          return;
        }
        assert incoming[..consumed + 1] == incoming[..consumed] + [segment];
        bytesProcessed := bytesProcessed + segment.size;
        written := written + [segment];
        consumed := consumed + 1;
      }
      assert incoming[..consumed] == incoming;
    }
  }

  /**
   * The classic `ByteCounterOutputFilter`: `write` adds the byte count to
   * the caller's counter and passes the same bytes on; `downstream` is what
   * the next stage's write returns.
   */
  class ClassicByteCounter {
    var bytesProcessed: int
    var forwarded: seq<u8>

    constructor (counter: int)
      ensures bytesProcessed == counter && forwarded == []
    {
      bytesProcessed := counter;
      forwarded := [];
    }

    method Write(s: seq<u8>, downstream: int) returns (r: int)
      modifies this`bytesProcessed, this`forwarded
      ensures bytesProcessed == old(bytesProcessed) + |s|
      ensures forwarded == old(forwarded) + s
      ensures r == downstream
    {
      bytesProcessed := bytesProcessed + |s|;
      forwarded := forwarded + s;
      r := downstream;
    }
  }

  /**
   * What the bounded stage writes for `incoming` with `budget` bytes left:
   * segments that fit are passed whole; an Eof is passed on and ends the
   * stream; the first segment that does not fit is dropped and replaced by
   * a fresh Eof.
   */
  function Bounded(incoming: seq<Piece>, budget: int): (r: seq<Piece>)
    ensures |r| <= |incoming|
  {
    if incoming == [] then []
    else if IsEof(incoming[0]) then [incoming[0]]
    else if incoming[0].size <= budget then [incoming[0]] + Bounded(incoming[1..], budget - incoming[0].size)
    else [EOF_PIECE]
  }

  /** The data the bounded stage lets through, Eof aside, never exceeds its budget. */
  lemma {:induction false} BoundedWithinBudget(incoming: seq<Piece>, budget: int)
    requires budget >= 0
    ensures var r := Bounded(incoming, budget);
            DataSize(if r != [] && IsEof(r[|r| - 1]) then r[..|r| - 1] else r) <= budget
    decreases |incoming|
  {
    var r := Bounded(incoming, budget);
    if incoming != [] && !IsEof(incoming[0]) && incoming[0].size <= budget {
      var rest := Bounded(incoming[1..], budget - incoming[0].size);
      BoundedWithinBudget(incoming[1..], budget - incoming[0].size);
      var body := if rest != [] && IsEof(rest[|rest| - 1]) then rest[..|rest| - 1] else rest;
      assert r == [incoming[0]] + rest;
      if rest != [] && IsEof(rest[|rest| - 1]) {
        assert r[..|r| - 1] == [incoming[0]] + body;
      }
      DataSizeAppend([incoming[0]], body);
      assert DataSize([incoming[0]]) == incoming[0].size by {
        assert [incoming[0]][..0] == [];
      }
    } else if incoming != [] {
      assert r[..|r| - 1] == [];
    }
  }

  /**
   * The bounded stage's output is a run of the segments read, each passed
   * whole and none an Eof, closed by an Eof: the one read, or one of its own
   * in place of the segment that did not fit.  Without an Eof it only stops
   * when the input ends.
   */
  lemma {:induction false} BoundedShape(incoming: seq<Piece>, budget: int)
    ensures var r := Bounded(incoming, budget);
            r == [] || IsEof(r[|r| - 1]) || r == incoming
    ensures var r := Bounded(incoming, budget);
            forall j | 0 <= j < |r| - 1 :: r[j] == incoming[j] && !IsEof(r[j])
    decreases |incoming|
  {
    if incoming != [] && !IsEof(incoming[0]) && incoming[0].size <= budget {
      var rest := Bounded(incoming[1..], budget - incoming[0].size);
      BoundedShape(incoming[1..], budget - incoming[0].size);
      var r := [incoming[0]] + rest;
      assert Bounded(incoming, budget) == r;
      if rest == incoming[1..] {
        assert r == incoming;
      }
      forall j | 0 <= j < |r| - 1
        ensures r[j] == incoming[j] && !IsEof(r[j])
      {
        if j > 0 {
          assert r[j] == rest[j - 1];
        }
      }
    }
  }

  /** The stage passes a data segment on whole exactly when it fits what is left of the budget. */
  lemma PassedWholeIffFits(p: Piece, rest: seq<Piece>, budget: int)
    requires !IsEof(p)
    ensures Bounded([p] + rest, budget)[0] == p <==> p.size <= budget
  {
    assert ([p] + rest)[0] == p && ([p] + rest)[1..] == rest;
    if p.size > budget {
      assert Bounded([p] + rest, budget) == [EOF_PIECE];
    }
  }

  /**
   * One step of `Bounded` at position `i`: what it yields for the segment
   * there, and the data size of the input taken so far.
   */
  lemma BoundedUnfold(incoming: seq<Piece>, i: nat, budget: int)
    requires i < |incoming|
    ensures incoming[..i + 1] == incoming[..i] + [incoming[i]]
    ensures DataSize(incoming[..i + 1]) == DataSize(incoming[..i]) + incoming[i].size
    ensures IsEof(incoming[i]) ==> Bounded(incoming[i..], budget) == [incoming[i]]
    ensures !IsEof(incoming[i]) && incoming[i].size <= budget ==>
      Bounded(incoming[i..], budget) == [incoming[i]] + Bounded(incoming[i + 1..], budget - incoming[i].size)
    ensures !IsEof(incoming[i]) && incoming[i].size > budget ==> Bounded(incoming[i..], budget) == [EOF_PIECE]
  {
    assert incoming[i..][0] == incoming[i] && incoming[i..][1..] == incoming[i + 1..];
    assert incoming[..i + 1] == incoming[..i] + [incoming[i]];
    DataSizeAppend(incoming[..i], [incoming[i]]);
    assert [incoming[i]][..0] == [];
  }

  /** One more segment of the input accounted for in its bounded output. */
  lemma BoundedAdvance(incoming: seq<Piece>, i: nat, budget: int, left: int)
    requires i < |incoming| && Bounded(incoming, budget) == incoming[..i] + Bounded(incoming[i..], left)
    ensures IsEof(incoming[i]) ==> Bounded(incoming, budget) == incoming[..i] + [incoming[i]]
    ensures !IsEof(incoming[i]) && incoming[i].size <= left ==>
      Bounded(incoming, budget) == incoming[..i + 1] + Bounded(incoming[i + 1..], left - incoming[i].size)
    ensures !IsEof(incoming[i]) && incoming[i].size > left ==> Bounded(incoming, budget) == incoming[..i] + [EOF_PIECE]
  {
    BoundedUnfold(incoming, i, left);
    if !IsEof(incoming[i]) && incoming[i].size <= left {
      var rest := Bounded(incoming[i + 1..], left - incoming[i].size);
      assert incoming[..i] + ([incoming[i]] + rest) == incoming[..i + 1] + rest;
    }
  }

  /** The zstreams `BoundedInputFilter`. */
  class BoundedInputFilter {
    var bytesRead: int
    const simulatedLength: int
    var written: seq<Piece>

    /** Both constructors: nothing read yet. */
    constructor (length: int)
      ensures bytesRead == 0 && simulatedLength == length && written == []
    {
      bytesRead := 0;
      simulatedLength := length;
      written := [];
    }

    /**
     * `work`: the output is `Bounded` of the input with the budget left;
     * the bytes counted grow by exactly the data passed whole, or reach
     * the simulated length when a segment does not fit.  The branch that
     * would split such a segment is unreachable: once a segment does not
     * fit, the count has reached the simulated length.
     */
    method Work(incoming: seq<Piece>) returns (consumed: nat)
      modifies this`bytesRead, this`written
      ensures consumed <= |incoming|
      ensures written == old(written) + Bounded(incoming, simulatedLength - old(bytesRead))
      ensures var r := Bounded(incoming, simulatedLength - old(bytesRead));
              r != [] && r[|r| - 1] == EOF_PIECE && !IsEof(incoming[|r| - 1]) ==>
                bytesRead == simulatedLength
    {
      var read, out;
      consumed, read, out := BoundedWork(incoming, simulatedLength, bytesRead);
      bytesRead, written := read, written + out;
    }
  }

  /**
   * The loop of `BoundedInputFilter::work` on the count read so far: `out`
   * is what it writes and `read` the new count.
   */
  method BoundedWork(incoming: seq<Piece>, simulatedLength: int, read0: int) returns (consumed: nat, read: int, out: seq<Piece>)
    ensures consumed <= |incoming|
    ensures out == Bounded(incoming, simulatedLength - read0)
    ensures out != [] && out[|out| - 1] == EOF_PIECE && !IsEof(incoming[|out| - 1]) ==> read == simulatedLength
  {
    consumed := 0;
    read := read0;
    out := [];
    ghost var budget := simulatedLength - read;
    while consumed < |incoming|
      invariant consumed <= |incoming|
      invariant simulatedLength - read == budget - DataSize(incoming[..consumed])
      invariant Bounded(incoming, budget) == incoming[..consumed] + Bounded(incoming[consumed..], simulatedLength - read)
      invariant forall j | 0 <= j < consumed :: !IsEof(incoming[j])
      invariant out == incoming[..consumed]
    {
      var segment := incoming[consumed];
      BoundedUnfold(incoming, consumed, simulatedLength - read);
      BoundedAdvance(incoming, consumed, budget, simulatedLength - read);
      if IsEof(segment) {
        out := out + [segment];
        consumed := consumed + 1;
        return;
      }
      var taken := Min(simulatedLength - read, segment.size);
      read := read + taken;
      if taken == segment.size {
        out := out + [segment];
        consumed := consumed + 1;
        continue;
      }
      if read == simulatedLength {
        out := out + [EOF_PIECE];
        consumed := consumed + 1;
        return;
      }
      assert false;
    }
    assert incoming[consumed..] == [];
  }
}
