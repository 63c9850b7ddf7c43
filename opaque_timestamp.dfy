/**
 * The serialised timestamp of a backup version: an opaque 64-bit count
 * taken from the system clock, compared only for equality.  The clock
 * reading is a parameter.
 */
module Timestamps {
  import opened Types
  import Arith

  /** A `FILETIME`: the high and low 32-bit halves of the clock's count. */
  datatype FileTime = FileTime(high: u32, low: u32)

  class OpaqueTimestamp {
    var timestamp: u64

    /** The default timestamp is zero. */
    constructor ()
      ensures timestamp == 0
    {
      timestamp := 0;
    }

    /**
     * `utc_now`: the high half is stored, shifted left by 32 bits within
     * 64 bits, and the low half is or-ed in; the two halves come back
     * unchanged from the result.
     */
    static method UtcNow(clock: FileTime) returns (ret: OpaqueTimestamp)
      ensures fresh(ret)
      ensures ret.timestamp == Arith.HighLow(clock.high, clock.low)
      ensures ret.timestamp / TWO_32 == clock.high && ret.timestamp % TWO_32 == clock.low
    {
      ret := new OpaqueTimestamp();
      ret.timestamp := clock.high;
      Arith.ModBelow(ret.timestamp * TWO_32, TWO_64);
      ret.timestamp := (ret.timestamp * TWO_32) % TWO_64;
      // The shifted value has no bits below bit 32, so or-ing in the low half adds it.
      ret.timestamp := ret.timestamp + clock.low;
    }

    /** `operator=(t)`: the timestamp becomes `t`. */
    method Assign(t: u64)
      modifies this
      ensures timestamp == t
    {
      timestamp := t;
    }

    /** `operator==`: the same count, so every timestamp equals itself. */
    predicate Equals(b: OpaqueTimestamp)
      reads this, b
      ensures b == this ==> Equals(b)
    {
      timestamp == b.timestamp
    }

    /** `operator==` is symmetric and transitive. */
    lemma EqualsIsEquivalence(b: OpaqueTimestamp, c: OpaqueTimestamp)
      ensures Equals(b) ==> b.Equals(this)
      ensures Equals(b) && b.Equals(c) ==> Equals(c)
    {
    }

    /** `operator!=`, the negation of `operator==`. */
    function NotEquals(b: OpaqueTimestamp): (r: bool)
      reads this, b
      ensures r <==> !Equals(b)
    {
      timestamp != b.timestamp
    }
  }

  /**
   * Two timestamps taken by `utc_now` are equal exactly when the clock
   * readings were: the 64-bit combination loses neither half.
   */
  method NowEqualIffSameReading(a: FileTime, b: FileTime) returns (same: bool)
    ensures same <==> a == b
  {
    var x := OpaqueTimestamp.UtcNow(a);
    var y := OpaqueTimestamp.UtcNow(b);
    same := x.Equals(y);
  }

  /** An assigned timestamp equals another exactly when that one holds the assigned count. */
  method AssignThenCompare(x: OpaqueTimestamp, y: OpaqueTimestamp, t: u64) returns (equal: bool, different: bool)
    requires x != y
    modifies x
    ensures equal <==> y.timestamp == t
    ensures different <==> !equal
  {
    x.Assign(t);
    equal := x.Equals(y);
    different := x.NotEquals(y);
  }
}
