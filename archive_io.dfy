/**
 * The archive file: the block of per-part keys and IVs, where the manifest
 * and the base objects are found, and the order in which the writer lays
 * the parts out.  Encryption, compression and hashing are functions given
 * as parameters; what each part's stage emits is given as bytes.
 *
 * An archive is, in order: the RSA-encrypted key block (only with a key
 * pair), the file data, the base objects, the manifest, the manifest's
 * length as 8 little-endian bytes, and the SHA-256 of everything before it.
 */
module ArchiveIO {
  import opened Types
  import Backup
  import Arith

  /** The size of a 4096-bit RSA block. */
  const RSA_BLOCK: nat := 4096 / 8
  /** The largest key block an RSA-OAEP-SHA1 block of that size carries. */
  const KEY_BLOCK_LIMIT: nat := 4096 / 8 - 42
  const SHA256_DIGEST_LENGTH: nat := 32
  const UINT64_LENGTH: nat := 8
  /** Crypto++'s `Twofish::MAX_KEYLENGTH` and `Twofish::BLOCKSIZE`. */
  const TWOFISH_KEY_LENGTH: nat := 32
  const TWOFISH_BLOCK_SIZE: nat := 16
  /** One key and IV for each part the writer encrypts: file data, base objects, manifest. */
  const KEY_COUNT: nat := 3

  function Pow256(n: nat): (r: nat)
    ensures r > 0
  {
    if n == 0 then 1 else 256 * Pow256(n - 1)
  }

  lemma Pow256Of8()
    ensures Pow256(8) == TWO_64
  {
    assert Pow256(2) == 0x1_0000;
    assert Pow256(4) == 0x1_0000_0000 by {
      assert Pow256(3) == 0x100_0000;
    }
    assert Pow256(6) == 0x1_0000_0000_0000 by {
      assert Pow256(5) == 0x100_0000_0000;
    }
    assert Pow256(7) == 0x100_0000_0000_0000;
  }

  /** `serialize_fixed_le_int`: the low `n` bytes of `x`, least significant first. */
  function EncodeLE(x: nat, n: nat): (r: seq<u8>)
    ensures |r| == n
  {
    if n == 0 then [] else [x % 256] + EncodeLE(x / 256, n - 1)
  }

  /** `deserialize_fixed_le_int`. */
  function DecodeLE(s: seq<u8>): (r: nat)
    ensures r < Pow256(|s|)
  {
    if s == [] then 0 else s[0] + 256 * DecodeLE(s[1..])
  }

  /** Decoding inverts encoding for every value the width holds. */
  lemma {:induction false} DecodeEncode(x: nat, n: nat)
    requires x < Pow256(n)
    ensures DecodeLE(EncodeLE(x, n)) == x
    decreases n
  {
    if n > 0 {
      var e := EncodeLE(x, n);
      assert e[1..] == EncodeLE(x / 256, n - 1);
      assert x / 256 < Pow256(n - 1);
      DecodeEncode(x / 256, n - 1);
    }
  }

  /** Resizing a `SecByteBlock`: the first bytes are kept, new bytes taken as zero. */
  function Resize(b: seq<u8>, n: nat): (r: seq<u8>)
    ensures |r| == n
    ensures forall i | 0 <= i < n :: r[i] == if i < |b| then b[i] else 0
  {
    if |b| >= n then b[..n] else b + seq(n - |b|, _ => 0)
  }

  /** `i` strides of `w` bytes: the offset of slot `i`. */
  function Stride(i: nat, w: nat): nat
  {
    if i == 0 then 0 else Stride(i - 1, w) + w
  }

  lemma {:induction false} StrideIsProduct(i: nat, w: nat)
    ensures Stride(i, w) == i * w
  {
    if i > 0 {
      StrideIsProduct(i - 1, w);
      assert i * w == (i - 1) * w + w;
    }
  }

  lemma {:induction false} StrideSplit(i: nat, a: nat, b: nat)
    ensures Stride(i, a) + Stride(i, b) == Stride(i, a + b)
  {
    if i > 0 {
      StrideSplit(i - 1, a, b);
    }
  }

  lemma {:induction false} StrideMonotone(i: nat, j: nat, w: nat)
    requires i <= j
    ensures Stride(i, w) <= Stride(j, w)
    decreases j
  {
    if i < j {
      StrideMonotone(i, j - 1, w);
    }
  }

  /** key_0, iv_0, key_1, iv_1, … one after another. */
  function Interleave(keys: seq<seq<u8>>, ivs: seq<seq<u8>>): seq<u8>
    requires |keys| == |ivs|
  {
    if keys == [] then []
    else Interleave(keys[..|keys| - 1], ivs[..|ivs| - 1]) + keys[|keys| - 1] + ivs[|ivs| - 1]
  }

  /** Every key has `ks` bytes and every IV `vs`. */
  predicate Uniform(keys: seq<seq<u8>>, ivs: seq<seq<u8>>, ks: nat, vs: nat)
  {
    |keys| == |ivs| && forall i | 0 <= i < |keys| :: |keys[i]| == ks && |ivs[i]| == vs
  }

  lemma {:induction false} InterleaveLength(keys: seq<seq<u8>>, ivs: seq<seq<u8>>, ks: nat, vs: nat)
    requires Uniform(keys, ivs, ks, vs)
    ensures |Interleave(keys, ivs)| == Stride(|keys|, ks + vs)
    decreases |keys|
  {
    if keys != [] {
      InterleaveLength(keys[..|keys| - 1], ivs[..|ivs| - 1], ks, vs);
    }
  }

  /**
   * Slot `j` of the interleaved block sits at `j * (ks + vs)`: its key
   * first, then its IV, which is where the reading constructor looks.
   */
  lemma {:induction false} InterleaveSlot(keys: seq<seq<u8>>, ivs: seq<seq<u8>>, ks: nat, vs: nat, j: nat)
    requires Uniform(keys, ivs, ks, vs) && j < |keys|
    ensures Stride(j + 1, ks + vs) <= |Interleave(keys, ivs)|
    ensures Interleave(keys, ivs)[Stride(j, ks + vs)..Stride(j, ks + vs) + ks] == keys[j]
    ensures Interleave(keys, ivs)[Stride(j, ks + vs) + ks..Stride(j + 1, ks + vs)] == ivs[j]
    decreases |keys|
  {
    var n := |keys|;
    var front := Interleave(keys[..n - 1], ivs[..n - 1]);
    InterleaveLength(keys, ivs, ks, vs);
    InterleaveLength(keys[..n - 1], ivs[..n - 1], ks, vs);
    var whole := Interleave(keys, ivs);
    var o := Stride(j, ks + vs);
    if j < n - 1 {
      InterleaveSlot(keys[..n - 1], ivs[..n - 1], ks, vs, j);
      assert keys[..n - 1][j] == keys[j] && ivs[..n - 1][j] == ivs[j];
      SliceOfFront(whole, front, keys[n - 1], ivs[n - 1], o, o + ks);
      SliceOfFront(whole, front, keys[n - 1], ivs[n - 1], o + ks, Stride(j + 1, ks + vs));
    } else {
      assert |front| == o;
      SliceOfBack(whole, front, keys[n - 1], ivs[n - 1]);
    }
  }

  /** A slice inside the front of a concatenation is a slice of the front. */
  lemma SliceOfFront<T>(whole: seq<T>, front: seq<T>, a: seq<T>, b: seq<T>, lo: nat, hi: nat)
    requires whole == front + a + b && lo <= hi <= |front|
    ensures whole[lo..hi] == front[lo..hi]
  {
  }

  /** The two pieces after `front` are found right after it. */
  lemma SliceOfBack<T>(whole: seq<T>, front: seq<T>, a: seq<T>, b: seq<T>)
    requires whole == front + a + b
    ensures whole[|front|..|front| + |a|] == a
    ensures whole[|front| + |a|..|front| + |a| + |b|] == b
  {
    assert whole[|front|..] == a + b;
  }

  /** The keys of the first `n` slots of a packed block: each the `ks` bytes at its slot's offset. */
  function KeysOf(b: seq<u8>, n: nat, ks: nat, vs: nat): (r: seq<seq<u8>>)
    requires Stride(n, ks + vs) <= |b|
    ensures |r| == n && forall i | 0 <= i < n :: |r[i]| == ks
  {
    if n == 0 then []
    else KeysOf(b, n - 1, ks, vs) + [b[Stride(n - 1, ks + vs)..Stride(n - 1, ks + vs) + ks]]
  }

  /** The IVs of the first `n` slots: each the `vs` bytes after its slot's key. */
  function IvsOf(b: seq<u8>, n: nat, ks: nat, vs: nat): (r: seq<seq<u8>>)
    requires Stride(n, ks + vs) <= |b|
    ensures |r| == n && forall i | 0 <= i < n :: |r[i]| == vs
  {
    if n == 0 then []
    else IvsOf(b, n - 1, ks, vs) + [b[Stride(n - 1, ks + vs) + ks..Stride(n, ks + vs)]]
  }

  /** Slot `i` of the unpacked keys and IVs, at its slot's offset `Stride(i, ks + vs)`, which is `i * (ks + vs)`. */
  lemma {:induction false} UnpackedSlot(b: seq<u8>, n: nat, ks: nat, vs: nat, i: nat)
    requires Stride(n, ks + vs) <= |b| && i < n
    ensures Stride(i + 1, ks + vs) <= |b|
    ensures KeysOf(b, n, ks, vs)[i] == b[Stride(i, ks + vs)..Stride(i, ks + vs) + ks]
    ensures IvsOf(b, n, ks, vs)[i] == b[Stride(i, ks + vs) + ks..Stride(i + 1, ks + vs)]
    decreases n
  {
    StrideMonotone(i + 1, n, ks + vs);
    StrideMonotone(n - 1, n, ks + vs);
    var o := Stride(n - 1, ks + vs);
    IndexOfSnoc(KeysOf(b, n - 1, ks, vs), b[o..o + ks], i);
    IndexOfSnoc(IvsOf(b, n - 1, ks, vs), b[o + ks..Stride(n, ks + vs)], i);
    if i < n - 1 {
      UnpackedSlot(b, n - 1, ks, vs, i);
    }
  }

  /** An element of a sequence with one more element appended. */
  lemma IndexOfSnoc<T>(s: seq<T>, x: T, i: nat)
    requires i <= |s|
    ensures (s + [x])[i] == if i < |s| then s[i] else x
  {
  }

  /** Unpacking reads nothing past the slots it unpacks. */
  lemma {:induction false} UnpackPrefix(b: seq<u8>, c: seq<u8>, n: nat, ks: nat, vs: nat)
    requires Stride(n, ks + vs) <= |b|
    ensures KeysOf(b + c, n, ks, vs) == KeysOf(b, n, ks, vs)
    ensures IvsOf(b + c, n, ks, vs) == IvsOf(b, n, ks, vs)
    decreases n
  {
    if n > 0 {
      UnpackPrefix(b, c, n - 1, ks, vs);
      var o := Stride(n - 1, ks + vs);
      assert (b + c)[o..o + ks] == b[o..o + ks];
      assert (b + c)[o + ks..Stride(n, ks + vs)] == b[o + ks..Stride(n, ks + vs)];
    }
  }

  /** Unpacking the last slot of a block whose front holds `n - 1` slots reads that slot's key and IV. */
  lemma LastSlot(whole: seq<u8>, front: seq<u8>, key: seq<u8>, iv: seq<u8>, n: nat, ks: nat, vs: nat)
    requires whole == front + key + iv
    requires n > 0 && |front| == Stride(n - 1, ks + vs) && |key| == ks && |iv| == vs
    ensures KeysOf(whole, n, ks, vs) == KeysOf(front, n - 1, ks, vs) + [key]
    ensures IvsOf(whole, n, ks, vs) == IvsOf(front, n - 1, ks, vs) + [iv]
  {
    assert whole == front + (key + iv);
    UnpackPrefix(front, key + iv, n - 1, ks, vs);
    SliceOfBack(whole, front, key, iv);
  }

  /** The last step of `Interleave`. */
  lemma InterleaveLast(keys: seq<seq<u8>>, ivs: seq<seq<u8>>)
    requires |keys| == |ivs| > 0
    ensures Interleave(keys, ivs) ==
      Interleave(keys[..|keys| - 1], ivs[..|ivs| - 1]) + keys[|keys| - 1] + ivs[|ivs| - 1]
  {
  }

  /** A non-empty sequence is its front and its last element. */
  lemma FrontAndLast<T>(s: seq<T>)
    requires |s| > 0
    ensures s == s[..|s| - 1] + [s[|s| - 1]]
  {
  }

  /** Unpacking inverts packing. */
  lemma {:induction false} UnpackPack(keys: seq<seq<u8>>, ivs: seq<seq<u8>>, ks: nat, vs: nat)
    requires Uniform(keys, ivs, ks, vs)
    ensures |Interleave(keys, ivs)| == Stride(|keys|, ks + vs)
    ensures KeysOf(Interleave(keys, ivs), |keys|, ks, vs) == keys
    ensures IvsOf(Interleave(keys, ivs), |keys|, ks, vs) == ivs
    decreases |keys|
  {
    InterleaveLength(keys, ivs, ks, vs);
    if keys != [] {
      var n := |keys|;
      var keys', ivs' := keys[..n - 1], ivs[..n - 1];
      assert Uniform(keys', ivs', ks, vs);
      UnpackPack(keys', ivs', ks, vs);
      InterleaveLast(keys, ivs);
      LastSlot(Interleave(keys, ivs), Interleave(keys', ivs'), keys[n - 1], ivs[n - 1], n, ks, vs);
      FrontAndLast(keys);
      FrontAndLast(ivs);
    }
  }

  /**
   * One of `init`'s two loops: each block is resized to `width`, or with
   * `randomize` replaced by the generator's block `from` places further
   * on; `added` is the sum of the widths, which `init` adds to the size.
   */
  method Refill(blocks: seq<seq<u8>>, width: nat, randomize: bool, random: seq<seq<u8>>, from: nat)
    returns (out: seq<seq<u8>>, added: nat)
    requires randomize ==> from + |blocks| <= |random|
    ensures |out| == |blocks| && added == Stride(|blocks|, width)
    ensures forall j | 0 <= j < |blocks| :: out[j] == if randomize then random[from + j] else Resize(blocks[j], width)
  {
    out := blocks;
    added := 0;
    var i := 0;
    while i < |blocks|
      invariant i <= |blocks| && |out| == |blocks| && added == Stride(i, width)
      invariant forall j | 0 <= j < i :: out[j] == if randomize then random[from + j] else Resize(blocks[j], width)
      invariant forall j | i <= j < |blocks| :: out[j] == blocks[j]
    {
      var block := Resize(out[i], width);
      added := added + width;
      if randomize {
        block := random[from + i];
      }
      out := out[i := block];
      i := i + 1;
    }
  }

  /** What `get_key` and `get_iv` do with an index. */
  datatype KeyLookup = Found(bytes: seq<u8>) | Thrown | PastTheEnd

  /** `ArchiveKeys`: one key and one IV per slot, and their total size. */
  class ArchiveKeys {
    const slots: nat
    var keys: seq<seq<u8>>
    var ivs: seq<seq<u8>>
    var keySize: nat
    var ivSize: nat
    var size: nat

    ghost predicate Valid()
      reads this
    {
      |keys| == slots && Uniform(keys, ivs, keySize, ivSize) && size == Stride(slots, keySize + ivSize)
    }

    /** The arrays of empty blocks, before `init`. */
    constructor (slots: nat)
      ensures this.slots == slots && keys == seq(slots, _ => []) && ivs == seq(slots, _ => [])
      ensures keySize == 0 && ivSize == 0 && size == 0 && Valid()
    {
      this.slots := slots;
      keys := seq(slots, _ => []);
      ivs := seq(slots, _ => []);
      keySize, ivSize, size := 0, 0, 0;
      StrideIsProduct(slots, 0);
    }

    /**
     * `init(key_size, iv_size, randomize)`: every key is resized to
     * `key_size` and every IV to `iv_size`, the size is their total, and
     * `ok` is whether the assertion that the block fits one RSA block
     * holds.  With `randomize`, the generator's blocks `random` fill the
     * keys and then the IVs.
     */
    method Init(keySize: nat, ivSize: nat, randomize: bool, random: seq<seq<u8>>) returns (ok: bool)
      requires |keys| == slots && |ivs| == slots
      requires randomize ==> (|random| == 2 * slots &&
        forall j | 0 <= j < 2 * slots :: |random[j]| == if j < slots then keySize else ivSize)
      modifies this`keys, this`ivs, this`keySize, this`ivSize, this`size
      ensures Valid() && this.keySize == keySize && this.ivSize == ivSize
      ensures size == slots * (keySize + ivSize)
      ensures ok <==> size <= KEY_BLOCK_LIMIT
      ensures randomize ==> keys == random[..slots] && ivs == random[slots..]
      ensures !randomize ==> (forall i | 0 <= i < slots ::
        keys[i] == Resize(old(keys)[i], keySize) && ivs[i] == Resize(old(ivs)[i], ivSize))
    {
      var newKeys, keyTotal := Refill(keys, keySize, randomize, random, 0);
      var newIvs, ivTotal := Refill(ivs, ivSize, randomize, random, slots);
      if randomize {
        assert newKeys == random[..slots];
        assert newIvs == random[slots..];
      }
      var total := keyTotal + ivTotal;
      StrideSplit(slots, keySize, ivSize);
      StrideIsProduct(slots, keySize + ivSize);
      keys, ivs, size := newKeys, newIvs, total;
      this.keySize, this.ivSize := keySize, ivSize;
      ok := size <= KEY_BLOCK_LIMIT;
    }

    /**
     * `get_key(i)`: the bound check throws only for an index past the slot
     * count, so the index equal to it passes and reads past the end.
     */
    function GetKey(i: nat): (r: KeyLookup)
      reads this
      requires Valid()
      ensures r.Thrown? <==> i > slots
      ensures r.PastTheEnd? <==> i == slots
      ensures r.Found? ==> i < slots && r.bytes == keys[i] && |r.bytes| == keySize
    {
      if i > slots then Thrown else if i < slots then Found(keys[i]) else PastTheEnd
    }

    /** `get_iv(i)`, with the same bound check as `get_key`. */
    function GetIv(i: nat): (r: KeyLookup)
      reads this
      requires Valid()
      ensures r.Thrown? <==> i > slots
      ensures r.PastTheEnd? <==> i == slots
      ensures r.Found? ==> i < slots && r.bytes == ivs[i] && |r.bytes| == ivSize
    {
      if i > slots then Thrown else if i < slots then Found(ivs[i]) else PastTheEnd
    }

    /** The packing loop of `create_and_save`: each slot's key, then its IV, from offset 0 on. */
    method Pack() returns (buffer: seq<u8>)
      requires Valid()
      ensures buffer == Interleave(keys, ivs) && |buffer| == size
    {
      buffer := [];
      var i := 0;
      while i < slots
        invariant i <= slots
        invariant buffer == Interleave(keys[..i], ivs[..i])
      {
        assert keys[..i + 1][..i] == keys[..i] && ivs[..i + 1][..i] == ivs[..i];
        buffer := buffer + keys[i] + ivs[i];
        i := i + 1;
      }
      assert keys[..i] == keys && ivs[..i] == ivs;
      InterleaveLength(keys, ivs, keySize, ivSize);
    }

    /**
     * The unpacking loop of the reading constructor: slot `i`'s key is the
     * `key_size` bytes at `i * (key_size + iv_size)` and its IV the
     * `iv_size` bytes after them.
     */
    method Unpack(buffer: seq<u8>)
      requires Valid() && |buffer| == size
      modifies this`keys, this`ivs
      ensures Valid()
      ensures keys == KeysOf(buffer, slots, keySize, ivSize) && ivs == IvsOf(buffer, slots, keySize, ivSize)
    {
      var w := keySize + ivSize;
      var offset := 0;
      var i := 0;
      var newKeys: seq<seq<u8>> := [];
      var newIvs: seq<seq<u8>> := [];
      while i < slots
        invariant i <= slots && offset == Stride(i, w) && Stride(i, w) <= |buffer|
        invariant newKeys == KeysOf(buffer, i, keySize, ivSize) && newIvs == IvsOf(buffer, i, keySize, ivSize)
      {
        StrideMonotone(i + 1, slots, w);
        newKeys := newKeys + [buffer[offset..offset + keySize]];
        offset := offset + keySize;
        newIvs := newIvs + [buffer[offset..offset + ivSize]];
        offset := offset + ivSize;
        i := i + 1;
      }
      keys, ivs := newKeys, newIvs;
    }
  }

  /** The `ArchiveKeys(key_size, iv_size)` constructor: `init` with random keys. */
  method NewKeys(slots: nat, keySize: nat, ivSize: nat, random: seq<seq<u8>>) returns (r: Result<ArchiveKeys, string>)
    requires |random| == 2 * slots
    requires forall j | 0 <= j < 2 * slots :: |random[j]| == if j < slots then keySize else ivSize
    ensures r.Ok? <==> slots * (keySize + ivSize) <= KEY_BLOCK_LIMIT
    ensures r.Ok? ==> (fresh(r.value) && r.value.Valid() && r.value.slots == slots &&
      r.value.keys == random[..slots] && r.value.ivs == random[slots..] &&
      r.value.keySize == keySize && r.value.ivSize == ivSize)
  {
    var keys := new ArchiveKeys(slots);
    var ok := keys.Init(keySize, ivSize, true, random);
    if !ok {
      return Err("assertion failed");
    }
    return Ok(keys);
  }

  /**
   * `create_and_save(stream, keypair)`: without a key pair nothing is
   * created or written; with one, fresh random keys for the three parts,
   * packed and encrypted with the public key, are written.
   */
  method CreateAndSave(hasKeypair: bool, random: seq<seq<u8>>, encrypt: seq<u8> -> seq<u8>)
    returns (ret: Option<ArchiveKeys>, written: seq<u8>)
    requires hasKeypair ==> (|random| == 2 * KEY_COUNT &&
      forall j | 0 <= j < 2 * KEY_COUNT :: |random[j]| == if j < KEY_COUNT then TWOFISH_KEY_LENGTH else TWOFISH_BLOCK_SIZE)
    ensures !hasKeypair ==> ret == None && written == []
    ensures hasKeypair ==> (ret.Some? && fresh(ret.value) && ret.value.Valid() &&
      ret.value.slots == KEY_COUNT && ret.value.keySize == TWOFISH_KEY_LENGTH && ret.value.ivSize == TWOFISH_BLOCK_SIZE &&
      ret.value.keys == random[..KEY_COUNT] && ret.value.ivs == random[KEY_COUNT..] &&
      written == encrypt(Interleave(ret.value.keys, ret.value.ivs)))
  {
    if !hasKeypair {
      return None, [];
    }
    var r := NewKeys(KEY_COUNT, TWOFISH_KEY_LENGTH, TWOFISH_BLOCK_SIZE, random);
    var keys := r.value;
    var buffer := keys.Pack();
    return Some(keys), encrypt(buffer);
  }

  /**
   * The reading constructor `ArchiveKeys(stream, keypair)`: the first RSA
   * block of the stream, decrypted with the private key, is unpacked into
   * keys and IVs of Twofish's sizes; a stream shorter than one block is an
   * error.  Bytes the decryption leaves unfilled are taken as zero.
   */
  method LoadKeys(stream: seq<u8>, decrypt: seq<u8> -> seq<u8>) returns (r: Result<ArchiveKeys, string>)
    ensures r.Err? <==> |stream| < RSA_BLOCK
    ensures r.Ok? ==> (fresh(r.value) && r.value.Valid() && r.value.slots == KEY_COUNT &&
      r.value.keySize == TWOFISH_KEY_LENGTH && r.value.ivSize == TWOFISH_BLOCK_SIZE &&
      var buffer := Resize(decrypt(stream[..RSA_BLOCK]), r.value.size);
      r.value.keys == KeysOf(buffer, KEY_COUNT, TWOFISH_KEY_LENGTH, TWOFISH_BLOCK_SIZE) &&
      r.value.ivs == IvsOf(buffer, KEY_COUNT, TWOFISH_KEY_LENGTH, TWOFISH_BLOCK_SIZE))
  {
    var keys := new ArchiveKeys(KEY_COUNT);
    var ok := keys.Init(TWOFISH_KEY_LENGTH, TWOFISH_BLOCK_SIZE, false, []);
    var read := Min(RSA_BLOCK, |stream|);
    if read != RSA_BLOCK {
      return Err("!!!");
    }
    var buffer := Resize(decrypt(stream[..RSA_BLOCK]), keys.size);
    keys.Unpack(buffer);
    return Ok(keys);
  }

  /**
   * Keys saved and loaded again are the keys: unpacking inverts packing,
   * for a decryption that inverts the encryption of the packed block.
   */
  method SaveThenLoad(random: seq<seq<u8>>, encrypt: seq<u8> -> seq<u8>, decrypt: seq<u8> -> seq<u8>, rest: seq<u8>)
    returns (saved: Option<ArchiveKeys>, loaded: Result<ArchiveKeys, string>)
    requires |random| == 2 * KEY_COUNT &&
      forall j | 0 <= j < 2 * KEY_COUNT :: |random[j]| == if j < KEY_COUNT then TWOFISH_KEY_LENGTH else TWOFISH_BLOCK_SIZE
    requires forall b | |b| == KEY_COUNT * 48 :: |encrypt(b)| == RSA_BLOCK && decrypt(encrypt(b)) == b
    ensures saved.Some? && loaded.Ok?
    ensures loaded.value.keys == saved.value.keys && loaded.value.ivs == saved.value.ivs
  {
    var written;
    saved, written := CreateAndSave(true, random, encrypt);
    var keys := saved.value;
    InterleaveLength(keys.keys, keys.ivs, TWOFISH_KEY_LENGTH, TWOFISH_BLOCK_SIZE);
    var packed := Interleave(keys.keys, keys.ivs);
    assert (written + rest)[..RSA_BLOCK] == written;
    loaded := LoadKeys(written + rest, decrypt);
    var buffer := Resize(decrypt(written), loaded.value.size);
    assert buffer == packed;
    UnpackPack(keys.keys, keys.ivs, TWOFISH_KEY_LENGTH, TWOFISH_BLOCK_SIZE);
  }

  /** The trailer: the manifest's length, then the digest. */
  const TRAILER: nat := UINT64_LENGTH + SHA256_DIGEST_LENGTH

  /** What the deserialized manifest records about the archive. */
  datatype ArchiveMetadata = ArchiveMetadata(
    entriesSizeInArchive: u64, streamIds: seq<u64>, streamSizes: seq<u64>, entrySizes: seq<u64>)

  /** Subtraction of 64-bit unsigned values, wrapping below zero; exact when the difference fits. */
  function Sub64(a: int, b: int): (r: u64)
    ensures 0 <= a - b < TWO_64 ==> r == a - b
    ensures -TWO_64 <= a - b < 0 ==> r == a - b + TWO_64
  {
    Sub64Cases(a - b);
    (a - b) % TWO_64
  }

  lemma Sub64Cases(d: int)
    ensures 0 <= d < TWO_64 ==> d % TWO_64 == d
    ensures -TWO_64 <= d < 0 ==> d % TWO_64 == d + TWO_64
  {
    if 0 <= d < TWO_64 {
      Arith.ModBelow(d, TWO_64);
    } else if -TWO_64 <= d < 0 {
      Arith.DivModUnique(d, -1, d + TWO_64, TWO_64);
    }
  }

  /** A 64-bit word read as a two's-complement `int64`: the same value modulo 2^64, in the signed range. */
  function AsInt64(x: u64): (r: int)
    ensures -TWO_63 <= r < TWO_63
    ensures x < TWO_63 ==> r == x
    ensures x >= TWO_63 ==> r < 0 && x - r == TWO_64
  {
    if x < TWO_63 then x else x - TWO_64
  }

  /**
   * `start` in `read_manifest` after `start -= manifest_size`: the int64
   * `-TRAILER` minus a uint64 size is computed in uint64 and stored back
   * in the int64.  Up to 2^63 it is the plain negative offset; past that
   * it wraps to a value above `-TRAILER`, so the seek from the end of the
   * file succeeds.
   */
  function ManifestStart(size: u64): (s: int)
    ensures size + TRAILER <= TWO_63 ==> s == -(TRAILER as int) - size
    ensures size + TRAILER > TWO_63 ==> 0 < s + TRAILER && s < TWO_63
  {
    AsInt64(Sub64(TWO_64 - TRAILER, size))
  }

  /** The largest size field makes the start wrap to `-39`, a byte after where the size is stored. */
  lemma LargestSizeWraps()
    ensures ManifestStart(TWO_64 - 1) == 1 - TRAILER as int
  {
  }

  /**
   * Where `read_manifest` finds the manifest: its size is the 8 bytes
   * before the digest, and the seek goes `ManifestStart(size)` bytes from
   * the end of the file.  A file shorter than the trailer has no size to
   * read, and a start before the beginning of the file makes the seek
   * fail.  While the size and trailer fit in 2^63 the manifest ends where
   * the trailer begins; a larger size wraps and the seek lands in the last
   * `TRAILER` bytes or past the end.  The result is the manifest's size and
   * offset.
   */
  function LocateManifest(file: seq<u8>): (r: Result<(nat, nat), string>)
    ensures |file| < TRAILER ==> r == Err("Invalid data")
    ensures |file| >= TRAILER ==> var size := DecodeLE(file[|file| - TRAILER..|file| - SHA256_DIGEST_LENGTH]);
      (r.Ok? ==> r.value.0 == size) &&
      (size + TRAILER <= TWO_63 ==>
        (r.Ok? <==> size + TRAILER <= |file|) &&
        (r.Ok? ==> r.value.1 == |file| - TRAILER - size)) &&
      (size + TRAILER > TWO_63 ==>
        r.Ok? && |file| - TRAILER < r.value.1 < |file| + TWO_63)
  {
    if |file| < TRAILER then Err("Invalid data")
    else
      var size := DecodeLE(file[|file| - TRAILER..|file| - SHA256_DIGEST_LENGTH]);
      Pow256Of8();
      var start := ManifestStart(size);
      if |file| + start < 0 then Err("seek failed") else Ok((size, |file| + start))
  }

  /** The data region `read_everything` reads: where it starts, how long it is, and the streams in it. */
  datatype FileData = FileData(start: nat, length: int, streams: seq<(u64, u64)>)

  /** `ArchiveReader`, with the archive's bytes given to each operation. */
  class ArchiveReader {
    const hasKeypair: bool
    var manifestOffset: int
    var manifestSize: u64
    var baseObjectsOffset: u64
    var streamIds: seq<u64>
    var streamSizes: seq<u64>
    var versionManifest: Option<ArchiveMetadata>

    /** The manifest offset starts unknown (-1). */
    constructor (hasKeypair: bool)
      ensures this.hasKeypair == hasKeypair && manifestOffset == -1 && versionManifest == None
      ensures streamIds == [] && streamSizes == []
    {
      this.hasKeypair := hasKeypair;
      manifestOffset := -1;
      manifestSize := 0;
      baseObjectsOffset := 0;
      streamIds, streamSizes := [], [];
      versionManifest := None;
    }

    /**
     * `read_manifest`: the first successful search stores the manifest's
     * offset and size and later calls seek straight to it.  `deserialized`
     * is what the deserializer makes of the bytes found there (`None` when
     * it fails, as it does after a failed seek).  The base objects start
     * `entries_size_in_archive` bytes before the manifest, in 64-bit
     * unsigned arithmetic; the stream ids and sizes are copied from it.
     */
    method ReadManifest(file: seq<u8>, deserialized: Option<ArchiveMetadata>) returns (r: Result<ArchiveMetadata, string>)
      modifies this`manifestOffset, this`manifestSize, this`baseObjectsOffset, this`streamIds, this`streamSizes,
        this`versionManifest
      ensures old(manifestOffset) >= 0 ==> manifestOffset == old(manifestOffset) && manifestSize == old(manifestSize)
      ensures old(manifestOffset) < 0 && LocateManifest(file).Ok? ==>
        (manifestSize as int == LocateManifest(file).value.0 && manifestOffset == LocateManifest(file).value.1)
      ensures old(manifestOffset) < 0 && LocateManifest(file).Err? ==> manifestOffset < 0
      ensures r.Ok? <==> manifestOffset >= 0 && deserialized.Some?
      ensures r.Ok? ==>
        (r.value == deserialized.value && versionManifest == deserialized &&
         baseObjectsOffset == Sub64(manifestOffset, deserialized.value.entriesSizeInArchive as int) &&
         streamIds == deserialized.value.streamIds && streamSizes == deserialized.value.streamSizes)
      ensures r.Err? ==>
        (baseObjectsOffset == old(baseObjectsOffset) &&
         streamIds == old(streamIds) && streamSizes == old(streamSizes))
      ensures r.Err? && (old(manifestOffset) >= 0 || |file| >= TRAILER) ==> versionManifest == None
      ensures r.Err? ==> versionManifest == None || versionManifest == old(versionManifest)
    {
      if manifestOffset < 0 {
        if |file| < TRAILER {
          return Err("Invalid data");
        }
        var size := DecodeLE(file[|file| - TRAILER..|file| - SHA256_DIGEST_LENGTH]);
        Pow256Of8();
        manifestSize := size;
        var start := ManifestStart(size);
        if |file| + start < 0 {
          manifestOffset := -1;
        } else {
          manifestOffset := |file| + start;
        }
      }
      if manifestOffset < 0 || deserialized.None? {
        versionManifest := None;
        return Err("Error during deserialization");
      }
      var m := deserialized.value;
      versionManifest := deserialized;
      baseObjectsOffset := Sub64(manifestOffset, m.entriesSizeInArchive as int);
      streamIds := m.streamIds;
      streamSizes := m.streamSizes;
      return Ok(m);
    }

    /**
     * `read_everything`: the manifest is read first if it is missing; file
     * data starts after the RSA block with a key pair and at 0 without,
     * and runs up to the base objects: its length is their uint64
     * difference, handed on as a signed `streamsize`.  The streams are yielded as (id,
     * size) pairs in stored order; ids and sizes of different lengths fail
     * the assertion.
     */
    method ReadEverything(file: seq<u8>, deserialized: Option<ArchiveMetadata>) returns (r: Result<FileData, string>)
      modifies this`manifestOffset, this`manifestSize, this`baseObjectsOffset, this`streamIds, this`streamSizes,
        this`versionManifest
      ensures old(versionManifest).Some? ==>
        (manifestOffset == old(manifestOffset) && baseObjectsOffset == old(baseObjectsOffset) &&
         streamIds == old(streamIds) && streamSizes == old(streamSizes))
      ensures r.Ok? ==>
        (versionManifest.Some? &&
         r.value.start == (if hasKeypair then RSA_BLOCK else 0) &&
         r.value.length == AsInt64(Sub64(baseObjectsOffset as int, r.value.start)) &&
         (baseObjectsOffset as int - r.value.start < TWO_63 ==> r.value.length == baseObjectsOffset as int - r.value.start) &&
         (baseObjectsOffset as int - r.value.start >= TWO_63 ==> r.value.length == baseObjectsOffset as int - r.value.start - TWO_64) &&
         |streamIds| == |streamSizes| == |r.value.streams| &&
         forall i | 0 <= i < |streamIds| :: r.value.streams[i] == (streamIds[i], streamSizes[i]))
      ensures old(versionManifest).Some? ==> (r.Ok? <==> |streamIds| == |streamSizes|)
      ensures r.Err? && versionManifest.Some? ==> |streamIds| != |streamSizes|
    {
      if versionManifest.None? {
        var m := ReadManifest(file, deserialized);
        if m.Err? {
          return Err(m.error);
        }
      }
      var start := if hasKeypair then RSA_BLOCK else 0;
      var length := AsInt64(Sub64(baseObjectsOffset as int, start));
      if |streamIds| != |streamSizes| {
        return Err("assertion failed");
      }
      var streams: seq<(u64, u64)> := [];
      var i := 0;
      while i < |streamIds|
        invariant i <= |streamIds| && |streams| == i
        invariant forall j | 0 <= j < i :: streams[j] == (streamIds[j], streamSizes[j])
      {
        streams := streams + [(streamIds[i], streamSizes[i])];
        i := i + 1;
      }
      return Ok(FileData(start, length, streams));
    }
  }

  /** `ArchiveWriter`: what it has written, and the sizes it counted on the way. */
  class ArchiveWriter {
    const hasKeypair: bool
    var written: seq<u8>
    var initialFsoOffset: nat
    var entriesSizeInArchive: nat

    constructor (hasKeypair: bool)
      ensures this.hasKeypair == hasKeypair && written == []
    {
      this.hasKeypair := hasKeypair;
      written := [];
      initialFsoOffset, entriesSizeInArchive := 0, 0;
    }

    /**
     * `process(begin, end)`: anything but exactly three helpers is an
     * error.  Otherwise the key block (with a key pair), the file data, the
     * base objects and the manifest are written in that order, each part's
     * size counted as it passes, then the manifest's length as 8
     * little-endian bytes, then the SHA-256 of all of those bytes.
     * `files`, `baseObjects` and `manifest` are the bytes each part's
     * stage emits.
     */
    method Process(helpers: nat, random: seq<seq<u8>>, encrypt: seq<u8> -> seq<u8>,
                   files: seq<u8>, baseObjects: seq<u8>, manifest: seq<u8>, sha256: seq<u8> -> Backup.Sha256)
      returns (ok: bool)
      requires hasKeypair ==> (|random| == 2 * KEY_COUNT &&
        forall j | 0 <= j < 2 * KEY_COUNT :: |random[j]| == if j < KEY_COUNT then TWOFISH_KEY_LENGTH else TWOFISH_BLOCK_SIZE)
      requires |manifest| < TWO_64
      modifies this`written, this`initialFsoOffset, this`entriesSizeInArchive
      ensures ok <==> helpers == 3
      ensures !ok ==>
        (written == old(written) && initialFsoOffset == old(initialFsoOffset) &&
         entriesSizeInArchive == old(entriesSizeInArchive))
      ensures ok ==>
        (initialFsoOffset == |files| && entriesSizeInArchive == |baseObjects| &&
         var keyBlock := if hasKeypair then encrypt(Interleave(random[..KEY_COUNT], random[KEY_COUNT..])) else [];
         var body := keyBlock + files + baseObjects + manifest + EncodeLE(|manifest|, UINT64_LENGTH);
         written == old(written) + body + sha256(body))
    {
      if helpers != 3 {
        return false;
      }
      var keys, keyBlock := CreateAndSave(hasKeypair, random, encrypt);
      var hashed := keyBlock;
      initialFsoOffset := |files|;
      hashed := hashed + files;
      entriesSizeInArchive := |baseObjects|;
      hashed := hashed + baseObjects;
      hashed := hashed + manifest;
      hashed := hashed + EncodeLE(|manifest|, UINT64_LENGTH);
      written := written + hashed + sha256(hashed);
      return true;
    }
  }

  /**
   * The reader finds what the writer wrote: in an archive laid out as
   * key block, file data, base objects, manifest, length and digest, the
   * manifest is located with its size, the base objects start right after
   * the file data, and the file data is the region between the key block
   * and the base objects.
   */
  lemma ArchiveLayout(keyBlock: seq<u8>, files: seq<u8>, baseObjects: seq<u8>, manifest: seq<u8>, digest: Backup.Sha256)
    requires |manifest| + TRAILER <= TWO_63
    ensures var file := keyBlock + files + baseObjects + manifest + EncodeLE(|manifest|, UINT64_LENGTH) + digest;
      LocateManifest(file) == Ok((|manifest|, |keyBlock| + |files| + |baseObjects|))
  {
    var prefix := keyBlock + files + baseObjects + manifest;
    LocateTrailer(prefix, |manifest|, digest, |keyBlock| + |files| + |baseObjects|);
    assert keyBlock + files + baseObjects + manifest + EncodeLE(|manifest|, UINT64_LENGTH) + digest ==
      prefix + EncodeLE(|manifest|, UINT64_LENGTH) + digest;
  }

  /** `ArchiveLayout`, for a file known to be laid out that way. */
  lemma LayoutOf(file: seq<u8>, keyBlock: seq<u8>, files: seq<u8>, baseObjects: seq<u8>, manifest: seq<u8>, digest: Backup.Sha256)
    requires |manifest| + TRAILER <= TWO_63
    requires file == keyBlock + files + baseObjects + manifest + EncodeLE(|manifest|, UINT64_LENGTH) + digest
    ensures LocateManifest(file) == Ok((|manifest|, |keyBlock| + |files| + |baseObjects|))
  {
    ArchiveLayout(keyBlock, files, baseObjects, manifest, digest);
  }

  /** The trailer after `prefix` records `size`: the manifest is the last `size` bytes of `prefix`. */
  lemma LocateTrailer(prefix: seq<u8>, size: nat, digest: Backup.Sha256, offset: nat)
    requires size + TRAILER <= TWO_63 && offset + size == |prefix|
    ensures LocateManifest(prefix + EncodeLE(size, UINT64_LENGTH) + digest) == Ok((size, offset))
  {
    var length := EncodeLE(size, UINT64_LENGTH);
    var file := prefix + length + digest;
    assert |file| - TRAILER == |prefix|;
    assert file[|prefix|..|prefix| + UINT64_LENGTH] == length;
    assert DecodeLE(length) == size by {
      Pow256Of8();
      DecodeEncode(size, UINT64_LENGTH);
    }
  }

  /**
   * Reading an archive whose manifest, of `size` bytes at `offset`, follows
   * the base objects the metadata counts, which follow `before` bytes of key
   * block and file data: the file data's region ends where the base objects
   * start.
   */
  method ReadBack(hasKeypair: bool, file: seq<u8>, metadata: ArchiveMetadata, size: nat, offset: nat, before: nat)
    returns (region: Result<FileData, string>)
    requires LocateManifest(file) == Ok((size, offset)) && offset == before + metadata.entriesSizeInArchive as int
    requires before < TWO_64
    requires |metadata.streamIds| == |metadata.streamSizes|
    ensures region.Ok?
    ensures region.value.start == (if hasKeypair then RSA_BLOCK else 0) &&
      region.value.length == AsInt64(Sub64(before, region.value.start))
    ensures before - region.value.start < TWO_63 ==> region.value.length == before - region.value.start
    ensures |region.value.streams| == |metadata.streamIds|
  {
    var reader := new ArchiveReader(hasKeypair);
    var m := reader.ReadManifest(file, Some(metadata));
    assert m.Ok?;
    assert reader.baseObjectsOffset == before;
    ghost var streamIds := reader.streamIds;
    region := reader.ReadEverything(file, Some(metadata));
    assert region.Ok?;
    assert reader.baseObjectsOffset == before && reader.streamIds == streamIds;
  }

  /** The key block the writer emits is one RSA block with a key pair and empty without. */
  lemma KeyBlockLength(hasKeypair: bool, random: seq<seq<u8>>, encrypt: seq<u8> -> seq<u8>)
    requires hasKeypair ==> (|random| == 2 * KEY_COUNT &&
      forall j | 0 <= j < 2 * KEY_COUNT :: |random[j]| == if j < KEY_COUNT then TWOFISH_KEY_LENGTH else TWOFISH_BLOCK_SIZE)
    requires hasKeypair ==> forall b | |b| == KEY_COUNT * 48 :: |encrypt(b)| == RSA_BLOCK
    ensures hasKeypair ==> (|Interleave(random[..KEY_COUNT], random[KEY_COUNT..])| == KEY_COUNT * 48 &&
      |encrypt(Interleave(random[..KEY_COUNT], random[KEY_COUNT..]))| == RSA_BLOCK)
  {
    if hasKeypair {
      UnpackPack(random[..KEY_COUNT], random[KEY_COUNT..], TWOFISH_KEY_LENGTH, TWOFISH_BLOCK_SIZE);
      StrideIsProduct(KEY_COUNT, 48);
    }
  }

  /** The bytes a fresh archive writer with three helpers writes: the hashed body and its digest. */
  method WriteBytes(hasKeypair: bool, random: seq<seq<u8>>, encrypt: seq<u8> -> seq<u8>,
                    files: seq<u8>, baseObjects: seq<u8>, manifest: seq<u8>, sha256: seq<u8> -> Backup.Sha256)
    returns (file: seq<u8>)
    requires hasKeypair ==> (|random| == 2 * KEY_COUNT &&
      forall j | 0 <= j < 2 * KEY_COUNT :: |random[j]| == if j < KEY_COUNT then TWOFISH_KEY_LENGTH else TWOFISH_BLOCK_SIZE)
    requires |manifest| < TWO_64
    ensures var keyBlock := if hasKeypair then encrypt(Interleave(random[..KEY_COUNT], random[KEY_COUNT..])) else [];
      var body := keyBlock + files + baseObjects + manifest + EncodeLE(|manifest|, UINT64_LENGTH);
      file == body + sha256(body)
  {
    var writer := new ArchiveWriter(hasKeypair);
    var ok := writer.Process(3, random, encrypt, files, baseObjects, manifest, sha256);
    file := writer.written;
  }

  /**
   * What an archive writer with three helpers writes: the manifest is found
   * with its size, just after the base objects, which follow the file data,
   * which follows the key block (one RSA block with a key pair, nothing
   * without).
   */
  method WriteArchive(hasKeypair: bool, random: seq<seq<u8>>, encrypt: seq<u8> -> seq<u8>,
                      files: seq<u8>, baseObjects: seq<u8>, manifest: seq<u8>, sha256: seq<u8> -> Backup.Sha256)
    returns (file: seq<u8>, keyBlock: seq<u8>)
    requires hasKeypair ==> (|random| == 2 * KEY_COUNT &&
      forall j | 0 <= j < 2 * KEY_COUNT :: |random[j]| == if j < KEY_COUNT then TWOFISH_KEY_LENGTH else TWOFISH_BLOCK_SIZE)
    requires hasKeypair ==> forall b | |b| == KEY_COUNT * 48 :: |encrypt(b)| == RSA_BLOCK
    requires |manifest| + TRAILER <= TWO_63
    ensures |keyBlock| == if hasKeypair then RSA_BLOCK else 0
    ensures LocateManifest(file) == Ok((|manifest|, |keyBlock| + |files| + |baseObjects|))
  {
    file := WriteBytes(hasKeypair, random, encrypt, files, baseObjects, manifest, sha256);
    KeyBlockLength(hasKeypair, random, encrypt);
    keyBlock := if hasKeypair then encrypt(Interleave(random[..KEY_COUNT], random[KEY_COUNT..])) else [];
    var body := keyBlock + files + baseObjects + manifest + EncodeLE(|manifest|, UINT64_LENGTH);
    LayoutOf(file, keyBlock, files, baseObjects, manifest, sha256(body));
  }

  /**
   * Writing an archive and reading it back: the manifest is found just
   * after the base objects, the base objects just after the file data, and
   * `read_everything` reads exactly the file data's region, after the key
   * block (one RSA block) with a key pair and from the start without.
   */
  method WriteThenRead(hasKeypair: bool, random: seq<seq<u8>>, encrypt: seq<u8> -> seq<u8>,
                       files: seq<u8>, baseObjects: seq<u8>, manifest: seq<u8>, sha256: seq<u8> -> Backup.Sha256,
                       metadata: ArchiveMetadata)
    returns (region: Result<FileData, string>)
    requires hasKeypair ==> (|random| == 2 * KEY_COUNT &&
      forall j | 0 <= j < 2 * KEY_COUNT :: |random[j]| == if j < KEY_COUNT then TWOFISH_KEY_LENGTH else TWOFISH_BLOCK_SIZE)
    requires hasKeypair ==> forall b | |b| == KEY_COUNT * 48 :: |encrypt(b)| == RSA_BLOCK
    requires |manifest| + TRAILER <= TWO_63 && RSA_BLOCK + |files| < TWO_64
    requires metadata.entriesSizeInArchive as int == |baseObjects|
    requires |metadata.streamIds| == |metadata.streamSizes|
    ensures region.Ok?
    ensures region.value.start == (if hasKeypair then RSA_BLOCK else 0) && region.value.length == AsInt64(|files|)
    ensures |files| < TWO_63 ==> region.value.length == |files|
    ensures |region.value.streams| == |metadata.streamIds|
  {
    var file, keyBlock := WriteArchive(hasKeypair, random, encrypt, files, baseObjects, manifest, sha256);
    region := ReadBack(hasKeypair, file, metadata, |manifest|, |keyBlock| + |files| + |baseObjects|, |keyBlock| + |files|);
  }
}
