/**
 * The stream filters that report progress: every byte that passes is added
 * to a running total, and the report callback is called each time the
 * total crosses into a new step of `size / steps` bytes.  The callback's
 * calls are collected in `reported`; the byte counts returned by the
 * wrapped stream's callback are given to each read or write in order.
 */
module Progress {
  import opened Types
  import Arith

  /**
   * Callback results that accept all `length` bytes, each no more than was
   * still to be written: the loop in `write` ends exactly when they run out.
   */
  predicate Accepts(counts: seq<nat>, length: nat)
    decreases |counts|
  {
    if length == 0 then counts == []
    else |counts| > 0 && counts[0] <= length && Accepts(counts[1..], length - counts[0])
  }

  /**
   * Callback results for a read of `length` bytes: `Some(bytes)` for a
   * read that delivered those bytes, no more than were still wanted, and
   * `None` for one that reported the end of the source; the loop in `read`
   * ends exactly when they run out.
   */
  predicate Supplies(results: seq<Option<seq<u8>>>, length: nat)
    decreases |results|
  {
    if length == 0 then results == []
    else if results == [] then false
    else if results[0].None? then |results| == 1
    else |results[0].value| <= length && Supplies(results[1..], length - |results[0].value|)
  }

  /** Whether one of the reads reported the end of the source. */
  predicate HitEnd(results: seq<Option<seq<u8>>>)
  {
    results != [] && (results[0].None? || HitEnd(results[1..]))
  }

  /**
   * The bytes the reads delivered, in order: never more than `length`, and
   * all of it unless the source ended.
   */
  function Gathered(results: seq<Option<seq<u8>>>, length: nat): (r: seq<u8>)
    requires Supplies(results, length)
    ensures |r| <= length
    ensures !HitEnd(results) ==> |r| == length
    decreases |results|
  {
    if length == 0 then []
    else if results[0].None? then []
    else results[0].value + Gathered(results[1..], length - |results[0].value|)
  }

  /** `ProgressFilter` with the read of `ProgressInputFilter` and the write of `ProgressOutputFilter`. */
  class ProgressFilter {
    const steps: nat
    const size: nat
    var progress: nat
    var last: nat
    var div: nat
    var reported: seq<nat>

    /**
     * The step size is positive, and the last step reached is the one of
     * the last report (0 before any): each report was at a larger total in
     * a later step than the one before.
     */
    ghost predicate Valid()
      reads this
    {
      div > 0 && last <= progress / div && |reported| <= last &&
      (reported == [] ==> last == 0) &&
      (reported != [] ==> reported[|reported| - 1] <= progress && reported[|reported| - 1] / div == last) &&
      (forall i, j | 0 <= i < j < |reported| :: reported[i] < reported[j])
    }

    /**
     * `ProgressFilter(report, steps, size)`: the step size is `size / steps`
     * and no step has been reached.  The total is left uninitialised by the
     * source; `initial` is whatever it holds.  With fewer bytes than steps
     * the step size is 0, and the first `update` divides by zero.
     */
    constructor (steps: nat, size: nat, initial: nat)
      requires steps > 0
      ensures this.steps == steps && this.size == size
      ensures div == size / steps && last == 0 && progress == initial && reported == []
      ensures Valid() <==> size >= steps
    {
      this.steps := steps;
      this.size := size;
      progress := initial;
      last := 0;
      div := size / steps;
      reported := [];
      DivPositive(size, steps);
    }

    /**
     * `update(length)`: the total grows by `length`; when it has reached a
     * step beyond the last one reported, the callback is called once with
     * the total and that step becomes the last.
     */
    method Update(length: nat)
      requires Valid()
      modifies this`progress, this`last, this`reported
      ensures Valid() && div == old(div) && last >= old(last)
      ensures progress == old(progress) + length
      ensures progress / div > old(last) ==> reported == old(reported) + [progress] && last == progress / div
      ensures progress / div <= old(last) ==> reported == old(reported) && last == old(last)
    {
      progress := progress + length;
      var next := progress / div;
      if next > last {
        if reported != [] {
          assert reported[|reported| - 1] < progress by {
            if reported[|reported| - 1] >= progress {
              Arith.DivMonotone(progress, reported[|reported| - 1], div);
            }
          }
        }
        reported := reported + [progress];
        last := next;
      } else {
        Arith.DivMonotone(old(progress), progress, div);
      }
    }

    /**
     * `ProgressOutputFilter::write`: the bytes are handed to the callback
     * until it has accepted all of them, in order; their number is added
     * to the progress and returned.
     */
    method Write(input: seq<u8>, counts: seq<nat>) returns (ret: int, delivered: seq<u8>)
      requires Valid() && Accepts(counts, |input|)
      modifies this`progress, this`last, this`reported
      ensures ret == |input| && delivered == input
      ensures Valid() && progress == old(progress) + |input|
      ensures progress / div > old(last) ==> reported == old(reported) + [progress] && last == progress / div
      ensures progress / div <= old(last) ==> reported == old(reported) && last == old(last)
    {
      ret := 0;
      delivered := [];
      var length: nat := |input|;
      var i := 0;
      while length > 0
        invariant i <= |counts| && ret + length == |input|
        invariant delivered == input[..ret]
        invariant Accepts(counts[i..], length)
        decreases length, |counts| - i
      {
        assert counts[i..][1..] == counts[i + 1..];
        var temp := counts[i];
        delivered := delivered + input[ret..ret + temp];
        assert input[..ret + temp] == input[..ret] + input[ret..ret + temp];
        ret := ret + temp;
        length := length - temp;
        i := i + 1;
      }
      assert delivered == input;
      Update(ret);
    }

    /**
     * `ProgressInputFilter::read`: reads are repeated until `length` bytes
     * have arrived or the source reports its end; the bytes that arrived
     * are added to the progress.  The result is -1 exactly when nothing
     * arrived and the source ended, else the number of bytes.
     */
    method Read(length: nat, results: seq<Option<seq<u8>>>) returns (ret: int, out: seq<u8>)
      requires Valid() && Supplies(results, length)
      modifies this`progress, this`last, this`reported
      ensures out == Gathered(results, length) && |out| <= length
      ensures ret == -1 <==> out == [] && HitEnd(results)
      ensures ret != -1 ==> ret == |out|
      ensures Valid() && progress == old(progress) + |out|
      ensures progress / div > old(last) ==> reported == old(reported) + [progress] && last == progress / div
      ensures progress / div <= old(last) ==> reported == old(reported) && last == old(last)
    {
      var eof;
      out, eof := ReadAll(length, results);
      Update(|out|);
      ret := if |out| == 0 && eof then -1 else |out|;
    }
  }

  /**
   * The read loop of `ProgressInputFilter::read`: the bytes of each read
   * are appended until `length` have arrived or the source ends.
   */
  method ReadAll(length: nat, results: seq<Option<seq<u8>>>) returns (out: seq<u8>, eof: bool)
    requires Supplies(results, length)
    ensures out == Gathered(results, length)
    ensures eof <==> HitEnd(results)
  {
    var got := 0;
    out := [];
    eof := false;
    var wanted: nat := length;
    var i := 0;
    while wanted > 0
      invariant i <= |results| && got + wanted == length && |out| == got
      invariant Supplies(results[i..], wanted)
      invariant out + Gathered(results[i..], wanted) == Gathered(results, length)
      invariant HitEnd(results) <==> HitEnd(results[i..])
      invariant !eof
      decreases |results| - i
    {
      if results[i].None? {
        eof := true;
        return;
      }
      var bytes := results[i].value;
      GatheredStep(results, i, wanted, out, Gathered(results, length));
      out := out + bytes;
      got := got + |bytes|;
      wanted := wanted - |bytes|;
      i := i + 1;
    }
    assert Gathered(results[i..], wanted) == [] && !HitEnd(results[i..]);
  }

  /**
   * One read that delivered bytes, taken off the front of the reads from
   * `i`: appended to what arrived before, the rest still adds up to `total`.
   */
  lemma GatheredStep(results: seq<Option<seq<u8>>>, i: nat, wanted: nat, out: seq<u8>, total: seq<u8>)
    requires i < |results| && wanted > 0 && Supplies(results[i..], wanted) && results[i].Some?
    requires out + Gathered(results[i..], wanted) == total
    ensures |results[i].value| <= wanted && Supplies(results[i + 1..], wanted - |results[i].value|)
    ensures (out + results[i].value) + Gathered(results[i + 1..], wanted - |results[i].value|) == total
    ensures HitEnd(results[i..]) == HitEnd(results[i + 1..])
  {
    assert results[i..][1..] == results[i + 1..];
    var later := Gathered(results[i + 1..], wanted - |results[i].value|);
    assert Gathered(results[i..], wanted) == results[i].value + later;
    assert (out + results[i].value) + later == out + (results[i].value + later);
  }

  /** Some whole step fits exactly when the number is at least one step. */
  lemma DivPositive(n: nat, d: nat)
    requires d > 0
    ensures n / d > 0 <==> n >= d
  {
    if n < d {
      Arith.DivModUnique(n, 0, n, d);
    } else {
      Arith.DivModUnique(d, 1, 0, d);
      Arith.DivMonotone(d, n, d);
    }
  }

  /**
   * Reports are rare but may outnumber the steps: while the total stays
   * within `size`, the callback has been called fewer than twice `steps`
   * times, since the step size is rounded down.
   */
  lemma ReportsBounded(f: ProgressFilter)
    requires f.Valid() && f.steps > 0 && f.div == f.size / f.steps && f.progress <= f.size
    ensures |f.reported| < 2 * f.steps
  {
    StepsBelowTwice(f.size, f.steps, f.div, f.progress);
  }

  /** A total within `size` lies in a step below twice `steps` when a step is `size / steps` bytes. */
  lemma StepsBelowTwice(size: nat, steps: nat, div: nat, progress: nat)
    requires steps > 0 && div > 0 && div == size / steps && progress <= size
    ensures progress / div < 2 * steps
  {
    assert size == div * steps + size % steps;
    assert size % steps < steps;
    assert steps <= steps * div;
    assert size < 2 * steps * div;
    Arith.DivBelow(progress, 2 * steps, div);
  }
}
