/**
 * The two searches of the delta engine.  `TripleSearch` finds the run of
 * elements on which a three-valued comparison is zero; iterators are indices
 * into a sequence and a null iterator is `None`.  `UnboundedBinarySearch`
 * probes `initial + 1, initial + 2, initial + 4, ...` over 64-bit indices
 * that wrap, then bisects.
 */
module BinarySearch {
  import opened Types
  import opened Arith

  /**
   * `f` splits `[lo, hi)` into a negative run `[lo, p)`, a zero run `[p, q)`
   * and a positive run `[q, hi)`.
   */
  ghost predicate Partitioned<T>(s: seq<T>, f: T -> int, lo: nat, hi: nat, p: nat, q: nat)
  {
    lo <= p <= q <= hi <= |s| &&
    (forall i | lo <= i < p :: f(s[i]) < 0) &&
    (forall i | p <= i < q :: f(s[i]) == 0) &&
    (forall i | q <= i < hi :: f(s[i]) > 0)
  }

  function Sign(x: int): int
  {
    if x < 0 then -1 else if x == 0 then 0 else 1
  }

  /** Along `[lo, hi)` the sign of `f` never decreases. */
  ghost predicate SignsSorted<T>(s: seq<T>, f: T -> int, lo: nat, hi: nat)
  {
    lo <= hi <= |s| &&
    forall i, j | lo <= i <= j < hi :: Sign(f(s[i])) <= Sign(f(s[j]))
  }

  /** The first index of `[lo, hi)` whose sign is at least `t`, or `hi`. */
  ghost function FirstSignAtLeast<T>(s: seq<T>, f: T -> int, lo: nat, hi: nat, t: int): (r: nat)
    requires lo <= hi <= |s|
    ensures lo <= r <= hi
    ensures forall i | lo <= i < r :: Sign(f(s[i])) < t
    ensures r < hi ==> Sign(f(s[r])) >= t
    decreases hi - lo
  {
    if lo == hi || Sign(f(s[lo])) >= t then lo else FirstSignAtLeast(s, f, lo + 1, hi, t)
  }

  /** A range whose signs are sorted splits into a negative, a zero and a positive run. */
  lemma PartitionOf<T>(s: seq<T>, f: T -> int, lo: nat, hi: nat) returns (p: nat, q: nat)
    requires SignsSorted(s, f, lo, hi)
    ensures Partitioned(s, f, lo, hi, p, q)
  {
    p := FirstSignAtLeast(s, f, lo, hi, 0);
    q := FirstSignAtLeast(s, f, lo, hi, 1);
    forall i | p <= i < hi
      ensures Sign(f(s[i])) >= 0
    {
      assert Sign(f(s[p])) <= Sign(f(s[i]));
    }
    forall i | q <= i < hi
      ensures Sign(f(s[i])) >= 1
    {
      assert Sign(f(s[q])) <= Sign(f(s[i]));
    }
  }

  /**
   * `triple_search(dst_begin, dst_end, begin, end, f)`: `[dstBegin, dstEnd)`
   * is the zero run.  When there is no zero both outputs are equal, and in
   * one case both are still null.
   */
  method TripleSearch<T>(s: seq<T>, f: T -> int, lo: nat, hi: nat, ghost p: nat, ghost q: nat)
    returns (dstBegin: Option<nat>, dstEnd: Option<nat>)
    requires Partitioned(s, f, lo, hi, p, q)
    ensures p < q ==> dstBegin == Some(p) && dstEnd == Some(q)
    ensures p == q ==> dstBegin == dstEnd
    ensures dstBegin.Some? ==> dstBegin.value == p
    ensures dstEnd.Some? ==> dstEnd.value == q
    ensures q == lo ==> dstBegin == dstEnd == Some(lo)
    ensures p == hi ==> dstBegin == dstEnd == Some(hi)
  {
    dstBegin, dstEnd := None, None;
    if lo == hi || f(s[lo]) > 0 {
      dstBegin, dstEnd := Some(lo), Some(lo);
      return;
    }
    var fBegin := f(s[lo]);
    var fEnd := f(s[hi - 1]);
    if fEnd < 0 {
      dstBegin, dstEnd := Some(hi), Some(hi);
      return;
    }
    var count := 0;
    if fBegin == 0 {
      dstBegin := Some(lo);
      count := count + 1;
    }
    if fEnd == 0 {
      dstEnd := Some(hi);
      count := count + 1;
    }
    if count == 2 {
      return;
    }
    var begin, end, found := FindZero(s, f, lo, hi, p, q);
    if found.None? {
      if f(s[begin]) == 0 {
        dstBegin, dstEnd := Some(begin), Some(end);
      }
      return;
    }
    var inside := found.value;
    if dstBegin.None? {
      var first := LowerEdge(s, f, lo, hi, p, q, begin, inside);
      dstBegin := Some(first);
    }
    if dstEnd.None? {
      var last := UpperEdge(s, f, lo, hi, p, q, inside, end);
      dstEnd := Some(last);
    }
  }

  /**
   * The first loop of `triple_search`: bisects `[lo, hi)` until it meets a
   * zero or the range is two neighbours.
   */
  method FindZero<T>(s: seq<T>, f: T -> int, lo: nat, hi: nat, ghost p: nat, ghost q: nat)
    returns (begin: nat, end: nat, found: Option<nat>)
    requires Partitioned(s, f, lo, hi, p, q) && lo < hi
    ensures lo <= begin < end <= hi
    ensures begin == lo || f(s[begin]) < 0
    ensures end == hi || f(s[end]) > 0
    ensures found.None? ==> begin == end - 1
    ensures found.Some? ==> begin < found.value < end && f(s[found.value]) == 0
  {
    begin, end := lo, hi;
    found := None;
    while begin < end - 1
      invariant lo <= begin < end <= hi
      invariant begin == lo || f(s[begin]) < 0
      invariant end == hi || f(s[end]) > 0
      decreases end - begin
    {
      var pivot := begin + (end - begin) / 2;
      var i := f(s[pivot]);
      if i < 0 {
        begin := pivot;
      } else if i > 0 {
        end := pivot;
      } else {
        found := Some(pivot);
        return;
      }
    }
  }

  /** The second loop: between a negative element and a zero, the first zero is found. */
  method LowerEdge<T>(s: seq<T>, f: T -> int, lo: nat, hi: nat, ghost p: nat, ghost q: nat, begin: nat, inside: nat)
    returns (first: nat)
    requires Partitioned(s, f, lo, hi, p, q)
    requires lo <= begin < inside < hi && f(s[begin]) < 0 && f(s[inside]) == 0
    ensures first == p
  {
    var b, e := begin, inside;
    while b < e - 1
      invariant begin <= b < e <= inside
      invariant f(s[b]) < 0 && f(s[e]) == 0
      decreases e - b
    {
      var pivot := b + (e - b) / 2;
      if f(s[pivot]) < 0 {
        b := pivot;
      } else {
        e := pivot;
      }
    }
    first := e;
  }

  /** The third loop: from a zero up to a positive element or the end, the end of the zero run is found. */
  method UpperEdge<T>(s: seq<T>, f: T -> int, lo: nat, hi: nat, ghost p: nat, ghost q: nat, inside: nat, end: nat)
    returns (last: nat)
    requires Partitioned(s, f, lo, hi, p, q)
    requires lo <= inside < end <= hi && f(s[inside]) == 0 && (end == hi || f(s[end]) > 0)
    ensures last == q
  {
    var b, e := inside, end;
    while b < e - 1
      invariant inside <= b < e <= end
      invariant f(s[b]) == 0
      invariant e == hi || f(s[e]) > 0
      decreases e - b
    {
      var pivot := b + (e - b) / 2;
      if f(s[pivot]) <= 0 {
        b := pivot;
      } else {
        e := pivot;
      }
    }
    last := e;
  }

  ghost predicate MonotoneFrom(f: u64 -> bool, initial: u64)
  {
    forall i: u64, j: u64 | initial <= i <= j :: f(i) ==> f(j)
  }

  /**
   * The galloping phase's `k`-th probe `initial + 2^k` lies inside the
   * 64-bit range and satisfies `f`.
   */
  ghost predicate ProbeHits(f: u64 -> bool, initial: u64, k: nat)
  {
    initial as int + Pow2(k) < TWO_64 && f((initial as int + Pow2(k)) as u64)
  }

  /** A probe below bit 64 either stays in range above `initial` or wraps to below it. */
  lemma ProbeWraps(initial: u64, k: nat)
    requires k < 64
    ensures 1 <= Pow2(k) < TWO_64
    ensures initial as int + Pow2(k) < TWO_64 ==> (initial as int + Pow2(k)) % TWO_64 == initial as int + Pow2(k) > initial as int
    ensures initial as int + Pow2(k) >= TWO_64 ==> (initial as int + Pow2(k)) % TWO_64 < initial as int
  {
    Pow2Of64();
    Pow2Monotone(0, k);
    Pow2Monotone(k + 1, 64);
    assert Pow2(k + 1) == 2 * Pow2(k);
    var s := initial as int + Pow2(k);
    if s < TWO_64 {
      ModBelow(s, TWO_64);
    } else {
      ModBelow(s - TWO_64, TWO_64);
      ModAddMultiple(s - TWO_64, 1, TWO_64);
    }
  }

  /** Once a probe wraps, every later probe wraps too. */
  lemma WrapPersists(initial: u64, k: nat, j: nat)
    requires k <= j
    requires initial as int + Pow2(k) >= TWO_64
    ensures initial as int + Pow2(j) >= TWO_64
  {
    Pow2Monotone(k, j);
  }

  /**
   * For a monotone `f`, any in-range probe at or above a true index hits,
   * so the search finds the boundary whenever it lies at or below the
   * last probe that stays below 2^64.
   */
  lemma MonotoneProbeHits(f: u64 -> bool, initial: u64, j: u64, k: nat)
    requires MonotoneFrom(f, initial) && initial <= j && f(j)
    requires j as int <= initial as int + Pow2(k) < TWO_64
    ensures ProbeHits(f, initial, k)
  {
    var p: u64 := (initial as int + Pow2(k)) as u64;
    assert f(j) ==> f(p);
  }

  /**
   * `unbounded_binary_search(initial, f)`.  The search finds something
   * exactly when `f(initial)` fails and one of the probes `initial + 2^k`
   * that stay below 2^64 satisfies `f`; once a probe wraps it gives up and
   * returns `initial`.  A result other than `initial` is a boundary above
   * it: `f` holds there and not one below.  For a monotone `f` that
   * boundary is the least true index.
   */
  method UnboundedBinarySearch(initial: u64, f: u64 -> bool) returns (r: u64)
    ensures f(initial) ==> r == initial
    ensures r != initial <==> !f(initial) && exists k: nat :: ProbeHits(f, initial, k)
    ensures r != initial ==> initial < r && f(r) && !f(r - 1)
    ensures r != initial && MonotoneFrom(f, initial) ==> forall j: u64 | initial <= j < r :: !f(j)
    ensures (forall j: u64 | initial < j :: !f(j)) ==> r == initial
  {
    if f(initial) {
      return initial;
    }
    var diff: u64 := 1;
    ghost var k: nat := 0;
    var borderTest: u64 := (initial + diff) % TWO_64;
    while !f(borderTest) && borderTest > initial
      invariant k <= 64
      invariant k < 64 ==> diff == Pow2(k)
      invariant k == 64 ==> diff == 0
      invariant borderTest == (initial + diff) % TWO_64
      invariant forall j: nat | j < k :: !ProbeHits(f, initial, j)
      decreases 64 - k
    {
      ProbeWraps(initial, k);
      DoublingStep(k);
      diff := (diff * 2) % TWO_64;
      k := k + 1;
      borderTest := (initial + diff) % TWO_64;
    }
    if borderTest > initial {
      ProbeWraps(initial, k);
      assert ProbeHits(f, initial, k);
    } else {
      forall j: nat
        ensures !ProbeHits(f, initial, j)
      {
        if j >= k {
          if k < 64 {
            ProbeWraps(initial, k);
            WrapPersists(initial, k, j);
          } else {
            Pow2Of64();
            WrapPersists(initial, 64, j);
          }
        }
      }
    }
    if borderTest < initial {
      return initial;
    }
    var low: u64, high: u64 := initial, borderTest;
    while low + 1 < high
      invariant initial <= low <= high
      invariant !f(low)
      invariant high > initial ==> f(high)
      invariant borderTest > initial <==> low < high
      decreases high - low
    {
      var pivot: u64 := low + (high - low) / 2;
      if f(pivot) {
        high := pivot;
      } else {
        low := pivot;
      }
    }
    if high == low + 1 {
      return high;
    }
    return initial;
  }
}
