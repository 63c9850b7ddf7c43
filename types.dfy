/**
 * Shared vocabulary: optional values, results with an error, and the
 * fixed-width unsigned integer types the C++ sources use.  Wrap-around is
 * never implicit: every operation that wraps in the source reduces modulo
 * the width explicitly where it is modelled.
 */
module Types {
  datatype Option<T> = None | Some(value: T)

  datatype Result<T, E> = Ok(value: T) | Err(error: E)

  const TWO_8: int := 0x100
  const TWO_16: int := 0x1_0000
  const TWO_24: int := 0x100_0000
  const TWO_32: int := 0x1_0000_0000
  const TWO_63: int := 0x8000_0000_0000_0000
  const TWO_64: int := 0x1_0000_0000_0000_0000

  type u8 = x: int | 0 <= x < 0x100
  type u16 = x: int | 0 <= x < 0x1_0000
  type u32 = x: int | 0 <= x < 0x1_0000_0000
  type u64 = x: int | 0 <= x < 0x1_0000_0000_0000_0000

  function Min(a: int, b: int): int { if a <= b then a else b }

  /** Concatenation of a sequence of byte strings. */
  function Flatten<T>(chunks: seq<seq<T>>): seq<T>
  {
    if chunks == [] then [] else Flatten(chunks[..|chunks| - 1]) + chunks[|chunks| - 1]
  }
}

/**
 * Sorting as the sources use it (Python's `sorted` with a key, C++
 * `std::sort` with `operator<`): an insertion sort that places each element
 * after every earlier element it is not less than.  It is stable, as
 * `sorted` is; `std::sort` is not, so where the sources call it
 * (`RsyncableFile.FromFile`, `RestoreOrder`, the `BackupSystem`
 * constructor) only sortedness and permutation are promised, never the
 * order of equivalent elements.
 */
module Sorting {
  ghost predicate StrictOrder<T(!new)>(lt: (T, T) -> bool)
  {
    (forall a :: !lt(a, a)) &&
    (forall a, b, c :: lt(a, b) && lt(b, c) ==> lt(a, c))
  }

  predicate SortedBy<T>(s: seq<T>, lt: (T, T) -> bool)
  {
    forall i, j :: 0 <= i < j < |s| ==> !lt(s[j], s[i])
  }

  function InsertBy<T>(x: T, s: seq<T>, lt: (T, T) -> bool): (r: seq<T>)
    ensures multiset(r) == multiset(s) + multiset{x}
  {
    if s == [] then [x]
    else if lt(x, s[0]) then [x] + s
    else
      assert s == [s[0]] + s[1..];
      [s[0]] + InsertBy(x, s[1..], lt)
  }

  function SortBy<T>(s: seq<T>, lt: (T, T) -> bool): (r: seq<T>)
    ensures multiset(r) == multiset(s)
  {
    if s == [] then []
    else
      assert s == s[..|s| - 1] + [s[|s| - 1]];
      InsertBy(s[|s| - 1], SortBy(s[..|s| - 1], lt), lt)
  }

  lemma {:induction false} InsertKeepsSorted<T(!new)>(x: T, s: seq<T>, lt: (T, T) -> bool)
    requires StrictOrder(lt)
    requires SortedBy(s, lt)
    ensures SortedBy(InsertBy(x, s, lt), lt)
  {
    if s == [] {
    } else if lt(x, s[0]) {
      var r := [x] + s;
      forall i, j | 0 <= i < j < |r| ensures !lt(r[j], r[i]) {
        if i == 0 && j > 1 {
          assert !lt(s[j - 1], s[0]);
        }
      }
    } else {
      InsertKeepsSorted(x, s[1..], lt);
      var t := InsertBy(x, s[1..], lt);
      var r := [s[0]] + t;
      forall i, j | 0 <= i < j < |r| ensures !lt(r[j], r[i]) {
        if i == 0 {
          assert r[j] in multiset(t);
          assert r[j] in multiset(s[1..]) + multiset{x};
          if r[j] != x {
            assert r[j] in s[1..];
            var k :| 0 <= k < |s[1..]| && s[1..][k] == r[j];
            assert s[k + 1] == r[j];
          }
        }
      }
    }
  }

  lemma {:induction false} SortBySorted<T(!new)>(s: seq<T>, lt: (T, T) -> bool)
    requires StrictOrder(lt)
    ensures SortedBy(SortBy(s, lt), lt)
  {
    if s != [] {
      SortBySorted(s[..|s| - 1], lt);
      InsertKeepsSorted(s[|s| - 1], SortBy(s[..|s| - 1], lt), lt);
    }
  }
}

/** Facts about Euclidean `%` used by the ring buffers and the checksums. */
module Arith {
  import opened Types

  lemma DivModUnique(n: int, q: int, r: int, m: int)
    requires m > 0 && 0 <= r < m && n == q * m + r
    ensures n % m == r && n / m == q
  {
    var q' := n / m;
    var r' := n % m;
    assert n == q' * m + r';
    if q' > q {
      MulAtLeast(q' - q, m);
    } else if q' < q {
      MulAtLeast(q - q', m);
    }
  }

  lemma MulAtLeast(k: int, m: int)
    requires k >= 1 && m > 0
    ensures k * m >= m
  {
  }

  lemma ModAddMultiple(x: int, k: int, m: int)
    requires m > 0
    ensures (x + k * m) % m == x % m
  {
    var q := x / m;
    assert x == q * m + x % m;
    assert x + k * m == (q + k) * m + x % m;
    DivModUnique(x + k * m, q + k, x % m, m);
  }

  /** Adding before or after reducing gives the same residue. */
  lemma ModSum(a: int, b: int, m: int)
    requires m > 0
    ensures (a % m + b) % m == (a + b) % m
  {
    var q := a / m;
    assert a == q * m + a % m;
    ModAddMultiple(a % m + b, q, m);
    assert a % m + b + q * m == a + b;
  }

  lemma ModBelow(x: int, m: int)
    requires 0 <= x < m
    ensures x % m == x
  {
    DivModUnique(x, 0, x, m);
  }

  lemma ModWrap(x: int, m: int)
    requires m <= x < 2 * m
    ensures x % m == x - m
  {
    DivModUnique(x, 1, x - m, m);
  }

  lemma MulMonotone(x: int, y: int, m: nat)
    requires x <= y
    ensures x * m <= y * m
  {
  }

  lemma PositiveFactor(m: int, d: int)
    requires d > 0 && m * d > 0
    ensures m > 0
  {
  }

  /** The quotient brackets the dividend: `(x / d) * d <= x < (x / d + 1) * d`. */
  lemma DivBracket(x: nat, d: nat)
    requires d > 0
    ensures (x / d) * d <= x < (x / d + 1) * d
  {
    assert x == (x / d) * d + x % d;
    assert (x / d + 1) * d == (x / d) * d + d;
  }

  /** A number below `k * d` has fewer than `k` whole steps of `d`. */
  lemma DivBelow(x: nat, k: int, d: nat)
    requires d > 0 && x < k * d
    ensures x / d < k
  {
    var q := x / d;
    DivBracket(x, d);
    assert (k - q) * d == k * d - q * d;
    PositiveFactor(k - q, d);
  }

  lemma DivMonotone(a: nat, b: nat, d: nat)
    requires a <= b && d > 0
    ensures a / d <= b / d
  {
    DivBracket(b, d);
    DivBelow(a, b / d + 1, d);
  }

  /**
   * A 64-bit value built from two 32-bit halves as `(high << 32) | low`:
   * the shifted high half has no bits below bit 32, so the `|` adds.
   * The halves are recovered by division and remainder.
   */
  function HighLow(high: u32, low: u32): (r: u64)
    ensures r / TWO_32 == high && r % TWO_32 == low
  {
    DivModUnique(high * TWO_32 + low, high, low, TWO_32);
    high * TWO_32 + low
  }

  /** Residues of a window of fewer than m consecutive integers are distinct. */
  lemma ModInjective(x: int, y: int, m: int)
    requires m > 0 && x < y < x + m
    ensures x % m != y % m
  {
    var qx, qy := x / m, y / m;
    assert x == qx * m + x % m;
    assert y == qy * m + y % m;
    if x % m == y % m {
      assert y - x == (qy - qx) * m;
      if qy - qx >= 1 {
        MulAtLeast(qy - qx, m);
      } else if qx - qy >= 1 {
        MulAtLeast(qx - qy, m);
      }
    }
  }

  /** Reducing modulo a multiple of m first does not change the residue modulo m. */
  lemma ModOfMod(x: int, c: int, m: int)
    requires m > 0 && c > 0
    ensures (x % (c * m)) % m == x % m
  {
    assert c * m > 0 by { MulAtLeast(c, m); }
    var q := x / (c * m);
    assert x == q * (c * m) + x % (c * m);
    assert q * (c * m) == (q * c) * m;
    ModAddMultiple(x % (c * m), q * c, m);
  }

  /** Multiplying a residue: k * (x mod c*m) agrees with k * x modulo m. */
  lemma MulModOfMod(k: int, x: int, c: int, m: int)
    requires m > 0 && c > 0
    ensures (k * (x % (c * m))) % m == (k * x) % m
  {
    assert c * m > 0 by { MulAtLeast(c, m); }
    var q := x / (c * m);
    assert x == q * (c * m) + x % (c * m);
    assert k * x == k * (x % (c * m)) + (k * q * c) * m;
    ModAddMultiple(k * (x % (c * m)), k * q * c, m);
  }

  /** Reducing one summand modulo a multiple of m first does not change the sum's residue modulo m. */
  lemma ModCancelMultiple(x: int, y: int, c: int, m: int)
    requires m > 0 && c > 0
    ensures (x % (c * m) + y) % m == (x + y) % m
  {
    assert c * m > 0 by { MulAtLeast(c, m); }
    var q := x / (c * m);
    assert x == q * (c * m) + x % (c * m);
    assert x % (c * m) + y == (x + y) + (-q * c) * m;
    ModAddMultiple(x + y, -q * c, m);
  }

  /** Likewise for a summand that is a multiple of a reduced factor. */
  lemma MulCancelMultiple(y: int, k: int, x: int, c: int, m: int)
    requires m > 0 && c > 0
    ensures (y + k * (x % (c * m))) % m == (y + k * x) % m
  {
    assert c * m > 0 by { MulAtLeast(c, m); }
    var q := x / (c * m);
    assert x == q * (c * m) + x % (c * m);
    assert k * x == k * (x % (c * m)) + (k * q * c) * m;
    ModAddMultiple(y + k * (x % (c * m)), k * q * c, m);
  }

  /** `2^k`. */
  function Pow2(k: nat): nat
  {
    if k == 0 then 1 else 2 * Pow2(k - 1)
  }

  lemma {:induction false} Pow2Monotone(i: nat, j: nat)
    requires i <= j
    ensures Pow2(i) <= Pow2(j)
    decreases j
  {
    if i < j {
      Pow2Monotone(i, j - 1);
    }
  }

  lemma {:induction false} Pow2Add(a: nat, b: nat)
    ensures Pow2(a + b) == Pow2(a) * Pow2(b)
    decreases a
  {
    if a > 0 {
      Pow2Add(a - 1, b);
      assert Pow2(a + b) == 2 * Pow2(a - 1 + b);
      assert 2 * (Pow2(a - 1) * Pow2(b)) == (2 * Pow2(a - 1)) * Pow2(b);
    }
  }

  lemma Pow2Of64()
    ensures Pow2(64) == TWO_64
  {
    assert Pow2(4) == 16 by {
      assert Pow2(1) == 2 && Pow2(2) == 4 && Pow2(3) == 8;
    }
    assert Pow2(8) == 0x100 by { Pow2Add(4, 4); }
    assert Pow2(16) == 0x1_0000 by { Pow2Add(8, 8); }
    assert Pow2(32) == TWO_32 by { Pow2Add(16, 16); }
    Pow2Add(32, 32);
  }

  /** A 64-bit left shift of `2^k` stays exact below bit 64 and clears the value at `k = 63`. */
  lemma DoublingStep(k: nat)
    requires k < 64
    ensures k < 63 ==> (Pow2(k) * 2) % TWO_64 == Pow2(k + 1)
    ensures k == 63 ==> (Pow2(k) * 2) % TWO_64 == 0
  {
    Pow2Of64();
    assert Pow2(k) * 2 == Pow2(k + 1);
    if k < 63 {
      Pow2Monotone(k + 2, 64);
      assert Pow2(k + 2) == 2 * Pow2(k + 1);
      ModBelow(Pow2(k + 1), TWO_64);
    } else {
      ModBelow(0, TWO_64);
      ModAddMultiple(0, 1, TWO_64);
    }
  }
}
