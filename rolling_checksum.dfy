/**
 * The weak rolling checksum of the delta engine.  Over a block `w` of `n`
 * bytes, `a` is the sum of the bytes and `b` weighs byte `i` by `n - i + 1`;
 * each half is kept to 16 bits and the checksum is `a | (b << 16)`.  The
 * running sums wrap at 32 bits as the C++ `uint32_t` does, and the weight is
 * computed in `size_t` (64 bits) before being cast to 32 bits.
 */
module RollingChecksum {
  import opened Types
  import opened Arith
  import opened CircularBuffers

  /** Sum of the bytes. */
  function SumA(w: seq<u8>): nat
  {
    if w == [] then 0 else SumA(w[..|w| - 1]) + w[|w| - 1]
  }

  /** Weighted sum in which byte `i` counts `first - i` times. */
  function Weighted(w: seq<u8>, first: int): int
  {
    if w == [] then 0 else Weighted(w[..|w| - 1], first) + w[|w| - 1] * (first - (|w| - 1))
  }

  /** `a | (b << 16)` for two 16-bit halves. */
  function Pack(a: int, b: int): u32
    requires 0 <= a < TWO_16 && 0 <= b < TWO_16
  {
    a + b * TWO_16
  }

  /** `x & 0xFFFF` */
  function Low(x: u32): int
  {
    x % TWO_16
  }

  /** `(x >> 16) & 0xFFFF` */
  function High(x: u32): int
  {
    (x / TWO_16) % TWO_16
  }

  /** The checksum of a whole block. */
  function Checksum(w: seq<u8>): u32
  {
    Pack(SumA(w) % TWO_16, Weighted(w, |w| + 1) % TWO_16)
  }

  /**
   * The checksum of one piece of a logical block of `logical` bytes, the
   * piece starting `offset` bytes into it, accumulated onto `previous`.
   */
  function PieceChecksum(w: seq<u8>, offset: nat, logical: nat, previous: u32): u32
  {
    Accumulated(previous, SumA(w), Weighted(w, logical - offset + 1))
  }

  /** The sums `sumA` and `weighted` added onto the halves of `previous`, each modulo 2^16. */
  function Accumulated(previous: u32, sumA: int, weighted: int): u32
  {
    Pack((Low(previous) + sumA) % TWO_16, (High(previous) + weighted) % TWO_16)
  }

  lemma PackHalves(a: int, b: int)
    requires 0 <= a < TWO_16 && 0 <= b < TWO_16
    ensures Low(Pack(a, b)) == a && High(Pack(a, b)) == b
  {
    DivModUnique(a + b * TWO_16, b, a, TWO_16);
    ModBelow(b, TWO_16);
  }

  /** The packed halves are exactly the 16-bit residues of the two sums. */
  lemma {:induction false} ChecksumHalves(w: seq<u8>)
    ensures Low(Checksum(w)) == SumA(w) % TWO_16
    ensures High(Checksum(w)) == Weighted(w, |w| + 1) % TWO_16
  {
    PackHalves(SumA(w) % TWO_16, Weighted(w, |w| + 1) % TWO_16);
  }

  lemma {:induction false} SumAConcat(u: seq<u8>, v: seq<u8>)
    ensures SumA(u + v) == SumA(u) + SumA(v)
    decreases |v|
  {
    if v != [] {
      assert (u + v)[..|u + v| - 1] == u + v[..|v| - 1];
      SumAConcat(u, v[..|v| - 1]);
    } else {
      assert u + v == u;
    }
  }

  lemma {:induction false} WeightedConcat(u: seq<u8>, v: seq<u8>, first: int)
    ensures Weighted(u + v, first) == Weighted(u, first) + Weighted(v, first - |u|)
    decreases |v|
  {
    if v != [] {
      assert (u + v)[..|u + v| - 1] == u + v[..|v| - 1];
      WeightedConcat(u, v[..|v| - 1], first);
    } else {
      assert u + v == u;
    }
  }

  /** Raising every weight by one adds the plain sum once more. */
  lemma {:induction false} WeightedShift(w: seq<u8>, first: int)
    ensures Weighted(w, first + 1) == Weighted(w, first) + SumA(w)
    decreases |w|
  {
    if w != [] {
      WeightedShift(w[..|w| - 1], first);
    }
  }

  /** One step of the accumulation loops: the 32-bit wrap and the casts of the weight do not disturb the residue. */
  lemma AccumulateStep(sumA: int, sumB: int, k: int, weight: int)
    ensures (sumA % TWO_32 + k) % TWO_32 == (sumA + k) % TWO_32
    ensures (sumB % TWO_32 + (k * (weight % TWO_64 % TWO_32)) % TWO_32) % TWO_32 == (sumB + k * weight) % TWO_32
  {
    ModSum(sumA, k, TWO_32);
    ModOfMod(weight, TWO_32, TWO_32);
    var t := k * (weight % TWO_32);
    ModSum(sumB, t % TWO_32, TWO_32);
    assert (sumB % TWO_32 + t % TWO_32) % TWO_32 == (sumB + t % TWO_32) % TWO_32;
    assert (t % TWO_32 + sumB) % TWO_32 == (t + sumB) % TWO_32 by { ModSum(t, sumB, TWO_32); }
    MulCancelMultiple(sumB, k, weight, 1, TWO_32);
  }

  /** The accumulation loops keep the 32-bit residues of the sums over the bytes seen so far. */
  lemma {:induction false} AccumulateInvariant(buffer: seq<u8>, i: nat, a: int, b: int, baseA: int, baseB: int, first: int, weight: int)
    requires i < |buffer| && weight == first - i
    requires a == (baseA + SumA(buffer[..i])) % TWO_32
    requires b == (baseB + Weighted(buffer[..i], first)) % TWO_32
    ensures (a + buffer[i]) % TWO_32 == (baseA + SumA(buffer[..i + 1])) % TWO_32
    ensures (b + (buffer[i] * (weight % TWO_64 % TWO_32)) % TWO_32) % TWO_32 ==
            (baseB + Weighted(buffer[..i + 1], first)) % TWO_32
  {
    assert buffer[..i + 1][..i] == buffer[..i];
    AccumulateStep(baseA + SumA(buffer[..i]), baseB + Weighted(buffer[..i], first), buffer[i], weight);
  }

  /** Keeping the low 16 bits of a 32-bit residue keeps the low 16 bits of the number. */
  lemma Low16Of32(x: int)
    ensures x % TWO_32 % TWO_16 == x % TWO_16
  {
    ModOfMod(x, TWO_16, TWO_16);
  }

  /**
   * The accumulation loop of both overloads: each byte is added to `a`, and
   * to `b` times its weight, which starts at `first` and drops by one per
   * byte; the weight is a 64-bit `size_t` cast to 32 bits, the sums wrap at
   * 32 bits.
   */
  method Accumulate(buffer: seq<u8>, count: nat, a0: u32, b0: u32, first: int) returns (a: u32, b: u32)
    requires count <= |buffer|
    ensures a == (a0 + SumA(buffer[..count])) % TWO_32
    ensures b == (b0 + Weighted(buffer[..count], first)) % TWO_32
  {
    a, b := a0, b0;
    ModBelow(a0, TWO_32);
    ModBelow(b0, TWO_32);
    var i := 0;
    while i < count
      invariant i <= count
      invariant a == (a0 + SumA(buffer[..i])) % TWO_32
      invariant b == (b0 + Weighted(buffer[..i], first)) % TWO_32
    {
      var k := buffer[i];
      AccumulateInvariant(buffer, i, a, b, a0, b0, first, first - i);
      a := (a + k) % TWO_32;
      b := (b + (k * ((first - i) % TWO_64 % TWO_32)) % TWO_32) % TWO_32;
      i := i + 1;
    }
  }

  /** The low 16 bits of the two 32-bit sums, packed, are the packed 16-bit residues of the sums. */
  lemma PackResidues(a: int, b: int, sumA: int, sumB: int)
    requires a == sumA % TWO_32 && b == sumB % TWO_32
    ensures a % TWO_16 + (b % TWO_16) * TWO_16 == Pack(sumA % TWO_16, sumB % TWO_16)
  {
    Low16Of32(sumA);
    Low16Of32(sumB);
  }

  /**
   * `compute_rsync_rolling_checksum(buffer, size)` over anything indexable:
   * byte `i` weighs `size - i + 1`.
   */
  method ComputeChecksum(buffer: seq<u8>, size: nat) returns (r: u32)
    requires size <= |buffer|
    ensures r == Checksum(buffer[..size])
  {
    var a, b := Accumulate(buffer, size, 0, 0, size + 1);
    PackResidues(a, b, SumA(buffer[..size]), Weighted(buffer[..size], size + 1));
    a := a % TWO_16;
    b := b % TWO_16;
    r := a + b * TWO_16;
  }

  /** `PackResidues` for sums accumulated onto the halves of `previous`. */
  lemma PackAccumulated(previous: u32, a: int, b: int, sumA: int, weighted: int)
    requires a == (Low(previous) + sumA) % TWO_32 && b == (High(previous) + weighted) % TWO_32
    ensures a % TWO_16 + (b % TWO_16) * TWO_16 == Accumulated(previous, sumA, weighted)
  {
    PackResidues(a, b, Low(previous) + sumA, High(previous) + weighted);
  }

  /**
   * `compute_rsync_rolling_checksum(buffer, piece_size, offset, logical_size, previous)`
   * over anything indexable: the sums start from the halves of `previous`
   * and byte `i` weighs `logical_size - (i + offset) + 1`.
   */
  method ComputePieceChecksum(buffer: seq<u8>, pieceSize: nat, offset: nat, logicalSize: nat, previous: u32)
    returns (r: u32)
    requires pieceSize <= |buffer|
    ensures r == PieceChecksum(buffer[..pieceSize], offset, logicalSize, previous)
  {
    var a: u32 := Low(previous);
    var b: u32 := High(previous);
    a, b := Accumulate(buffer, pieceSize, a, b, logicalSize - offset + 1);
    PackAccumulated(previous, a, b, SumA(buffer[..pieceSize]), Weighted(buffer[..pieceSize], logicalSize - offset + 1));
    a := a % TWO_16;
    b := b % TWO_16;
    r := a + b * TWO_16;
  }

  /** The bytes `operator[]` yields for indices `0 .. size - 1` of a ring. */
  method Indexed(buffer: CircularBuffer) returns (view: seq<u8>)
    requires buffer.Valid()
    ensures view == buffer.Contents()
  {
    view := seq(buffer.size, i requires 0 <= i < buffer.size && buffer.Valid() reads buffer, buffer.buffer =>
      buffer.At(i));
  }

  /** `compute_rsync_rolling_checksum(const CircularBuffer &)`: the checksum of the logical contents. */
  method RingChecksum(buffer: CircularBuffer) returns (r: u32)
    requires buffer.Valid()
    ensures r == Checksum(buffer.Contents())
  {
    if buffer.SinglePiece() {
      buffer.ContiguousWhenSingle();
      var d := buffer.Data();
      r := ComputeChecksum(buffer.buffer[d .. d + buffer.size], buffer.size);
      assert buffer.buffer[d .. d + buffer.size][..buffer.size] == buffer.Contents();
    } else {
      var view := Indexed(buffer);
      r := ComputeChecksum(view, buffer.size);
      assert view[..buffer.size] == view;
    }
  }

  /** The piecewise overload on a ring: the piece is the ring's logical contents. */
  method RingPieceChecksum(buffer: CircularBuffer, offset: nat, logicalSize: nat, previous: u32) returns (r: u32)
    requires buffer.Valid()
    ensures r == PieceChecksum(buffer.Contents(), offset, logicalSize, previous)
  {
    if buffer.SinglePiece() {
      buffer.ContiguousWhenSingle();
      var d := buffer.Data();
      r := ComputePieceChecksum(buffer.buffer[d .. d + buffer.size], buffer.size, offset, logicalSize, previous);
      assert buffer.buffer[d .. d + buffer.size][..buffer.size] == buffer.Contents();
    } else {
      var view := Indexed(buffer);
      r := ComputePieceChecksum(view, buffer.size, offset, logicalSize, previous);
      assert view[..buffer.size] == view;
    }
  }

  /**
   * `subtract_rsync_rolling_checksum`: drops `byteToSubtract`, which weighed
   * `size + 1`, from both halves modulo 2^16.
   */
  function Subtract(previous: u32, byteToSubtract: u8, size: nat): (r: u32)
    ensures Low(r) == (Low(previous) - byteToSubtract) % TWO_16
    ensures High(r) == (High(previous) - byteToSubtract * (size + 1)) % TWO_16
  {
    var a := previous % TWO_16;
    var b := (previous / TWO_16) % TWO_16;
    var a1 := ((a + 0x1_0000) % TWO_32 - byteToSubtract) % TWO_32;
    var b1 := ((b + 0xFFFF_0000) % TWO_32 - byteToSubtract * ((size + 1) % TWO_64) % TWO_64 % TWO_32) % TWO_32;
    SubtractLowHalf(a, byteToSubtract);
    SubtractHighHalf(b, byteToSubtract, size);
    ModBelow(a, TWO_16);
    ModBelow(b, TWO_16);
    PackHalves(a1 % TWO_16, b1 % TWO_16);
    Pack(a1 % TWO_16, b1 % TWO_16)
  }

  /**
   * `add_rsync_rolling_checksum`: appends `byteToAdd` to the low half and the
   * new low half plus the byte to the high half, modulo 2^16; the size
   * argument is not used.
   */
  function Add(previous: u32, byteToAdd: u8, size: nat): (r: u32)
    ensures Low(r) == (Low(previous) + byteToAdd) % TWO_16
    ensures High(r) == (High(previous) + Low(r) + byteToAdd) % TWO_16
  {
    var a := previous % TWO_16;
    var b := (previous / TWO_16) % TWO_16;
    ModBelow(a + byteToAdd, TWO_32);
    var a1 := (a + byteToAdd) % TWO_32 % TWO_16;
    ModBelow(b + a1, TWO_32);
    ModBelow(b + a1 + byteToAdd, TWO_32);
    var b1 := ((b + a1) % TWO_32 + byteToAdd) % TWO_32 % TWO_16;
    PackHalves(a1, b1);
    Pack(a1, b1)
  }

  /** The low half of `Subtract`: the 32-bit detour through `+ 0x10000` leaves `a - x` modulo 2^16. */
  lemma SubtractLowHalf(sum: int, x: int)
    ensures ((sum % TWO_16 + 0x1_0000) % TWO_32 - x) % TWO_32 % TWO_16 == (sum - x) % TWO_16
  {
    var a := sum % TWO_16;
    var t := a + 0x1_0000;
    ModCancelMultiple(t % TWO_32 - x, 0, TWO_16, TWO_16);
    ModCancelMultiple(t, -x, TWO_16, TWO_16);
    ModAddMultiple(a - x, 1, TWO_16);
    ModSum(sum, -x, TWO_16);
  }

  /** The high half of `Subtract`: the 64- and 32-bit casts leave `b - x * (n + 1)` modulo 2^16. */
  lemma SubtractHighHalf(weighted: int, x: int, n: nat)
    ensures var b := weighted % TWO_16;
            ((b + 0xFFFF_0000) % TWO_32 - x * ((n + 1) % TWO_64) % TWO_64 % TWO_32) % TWO_32 % TWO_16 ==
            (weighted - x * (n + 1)) % TWO_16
  {
    var b := weighted % TWO_16;
    var u := b + 0xFFFF_0000;
    var m := x * ((n + 1) % TWO_64) % TWO_64 % TWO_32;
    assert m % TWO_16 == x * (n + 1) % TWO_16 by {
      ModOfMod(x * ((n + 1) % TWO_64) % TWO_64, TWO_16, TWO_16);
      ModOfMod(x * ((n + 1) % TWO_64), 0x1_0000_0000_0000, TWO_16);
      MulCancelMultiple(0, x, n + 1, 0x1_0000_0000_0000, TWO_16);
    }
    ModCancelMultiple(u % TWO_32 - m, 0, TWO_16, TWO_16);
    ModCancelMultiple(u, -m, TWO_16, TWO_16);
    ModAddMultiple(b - m, 0xFFFF, TWO_16);
    ModCancelMultiple(m, -b, TWO_16, TWO_16);
    assert (b - m) % TWO_16 == (b - x * (n + 1)) % TWO_16 by {
      MulCancelMultiple(b, -1, m, 1, TWO_16);
      MulCancelMultiple(b, -1, x * (n + 1), 1, TWO_16);
    }
    ModSum(weighted, -(x * (n + 1)), TWO_16);
  }

  /** Rolling out the first byte of a block gives the checksum of the rest. */
  lemma {:induction false} SubtractRolls(w: seq<u8>)
    requires |w| >= 1
    ensures Subtract(Checksum(w), w[0], |w|) == Checksum(w[1..])
  {
    var n := |w|;
    var x := w[0];
    var rest := w[1..];
    assert w == [x] + rest;
    SumAConcat([x], rest);
    WeightedConcat([x], rest, n + 1);
    assert SumA([x]) == x by { assert [x][..0] == []; }
    assert Weighted([x], n + 1) == x * (n + 1) by { assert [x][..0] == []; }
    ChecksumHalves(w);
    SubtractLowHalf(SumA(w), x);
    SubtractHighHalf(Weighted(w, n + 1), x, n);
  }

  /** Rolling in a byte at the end gives the checksum of the longer block, whatever size is passed. */
  lemma {:induction false} AddRolls(w: seq<u8>, c: u8, size: nat)
    ensures Add(Checksum(w), c, size) == Checksum(w + [c])
  {
    var n := |w|;
    assert (w + [c])[..n] == w;
    assert SumA(w + [c]) == SumA(w) + c;
    assert Weighted(w + [c], n + 2) == Weighted(w, n + 2) + c * 2;
    WeightedShift(w, n + 1);
    AddOnSums(SumA(w), Weighted(w, n + 1), c, size, SumA(w + [c]), Weighted(w + [c], n + 2));
  }

  /**
   * `AddRolls` on the sums alone: from the halves of sums `sumA` and
   * `weighted`, adding `x` gives the halves of `sumA + x` and of
   * `weighted + sumA + 2x`.
   */
  lemma AddOnSums(sumA: int, weighted: int, x: u8, size: nat, sumA': int, weighted': int)
    requires sumA' == sumA + x && weighted' == weighted + sumA + x * 2
    ensures Add(Pack(sumA % TWO_16, weighted % TWO_16), x, size) == Pack(sumA' % TWO_16, weighted' % TWO_16)
  {
    var prev := Pack(sumA % TWO_16, weighted % TWO_16);
    PackHalves(sumA % TWO_16, weighted % TWO_16);
    var a := prev % TWO_16;
    var b := (prev / TWO_16) % TWO_16;
    ModBelow(a + x, TWO_32);
    ModSum(sumA, x, TWO_16);
    var a1 := (a + x) % TWO_32 % TWO_16;
    assert a1 == sumA' % TWO_16;
    ModBelow(b + a1, TWO_32);
    ModBelow(b + a1 + x, TWO_32);
    ModSum(weighted, a1 + x, TWO_16);
    ModSum(sumA + x, weighted + x, TWO_16);
    assert (b + a1 + x) % TWO_16 == weighted' % TWO_16;
  }

  /** Accumulating two adjacent pieces through `previous` equals accumulating their concatenation. */
  lemma {:induction false} PiecesChain(u: seq<u8>, v: seq<u8>, offset: nat, logical: nat, previous: u32)
    ensures PieceChecksum(v, offset + |u|, logical, PieceChecksum(u, offset, logical, previous)) ==
            PieceChecksum(u + v, offset, logical, previous)
  {
    var first := logical - offset + 1;
    SumAConcat(u, v);
    WeightedConcat(u, v, first);
    assert logical - (offset + |u|) + 1 == first - |u|;
    AccumulateTwice(previous, SumA(u), Weighted(u, first), SumA(v), Weighted(v, first - |u|));
  }

  /** Accumulating two pairs of sums one after the other is accumulating their totals. */
  lemma AccumulateTwice(previous: u32, sumA: int, weighted: int, sumA': int, weighted': int)
    ensures Accumulated(Accumulated(previous, sumA, weighted), sumA', weighted') ==
            Accumulated(previous, sumA + sumA', weighted + weighted')
  {
    var lo := (Low(previous) + sumA) % TWO_16;
    var hi := (High(previous) + weighted) % TWO_16;
    PackHalves(lo, hi);
    ChainHalf(lo, Low(previous), sumA, sumA', sumA + sumA');
    ChainHalf(hi, High(previous), weighted, weighted', weighted + weighted');
  }

  /** A half accumulated in two steps, reduced in between, is the half accumulated at once. */
  lemma ChainHalf(half: int, p: int, x: int, y: int, xy: int)
    requires half == (p + x) % TWO_16 && xy == x + y
    ensures (half + y) % TWO_16 == (p + xy) % TWO_16
  {
    ModSum(p + x, y, TWO_16);
  }

  /** A single piece that is the whole block, started from zero, is the whole-block checksum. */
  lemma {:induction false} WholeAsPiece(w: seq<u8>)
    ensures PieceChecksum(w, 0, |w|, 0) == Checksum(w)
  {
    assert Low(0) == 0 && High(0) == 0;
  }
}
