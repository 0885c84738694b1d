/**
 The machine the allocator assumes: an LP64 little-endian target whose
 addresses are plain 64-bit unsigned integers, and a byte-addressed memory.
 C integer widths, wrap-around and two's-complement casts are written out
 explicitly here so that the rest of the model can use unbounded integers.
 */
module Machine {

  const TWO_32: int := 0x1_0000_0000
  const TWO_63: int := 0x8000_0000_0000_0000
  const TWO_64: int := 0x1_0000_0000_0000_0000
  const INT64_MAX: int := TWO_63 - 1
  const INT32_MIN: int := -0x8000_0000
  const INT32_MAX: int := 0x7fff_ffff

  /** sizeof(void *) under LP64. */
  const POINTER_SIZE: nat := 8

  /** uint64_t, size_t and uintptr_t values. */
  type u64 = x: int | 0 <= x < TWO_64

  /** int32_t values. */
  type i64 = x: int | -TWO_63 <= x <= INT64_MAX

  type i32 = x: int | INT32_MIN <= x <= INT32_MAX

  /** One byte of memory, as an unsigned value. */
  type byte = x: int | 0 <= x < 256

  /** Errors the allocator reports through errno, plus `Undefined` for a step
      whose behaviour the C language leaves undefined (an out-of-bounds access,
      a signed shift that overflows). */
  datatype Errno = EFAULT | ENOMEM | ERANGE | OsFailure | Undefined

  datatype Option<+T> = None | Some(value: T)

  datatype Result<+T> = Success(value: T) | Failure(error: Errno)

  /** Unsigned 64-bit arithmetic: the result modulo 2^64. */
  function Wrap64(x: int): (r: u64)
    ensures r == x % TWO_64
    ensures 0 <= x < TWO_64 ==> r == x
  {
    x % TWO_64
  }

  /** The (int64_t) cast of an unsigned 64-bit value. */
  function Signed64(x: u64): (r: int)
    ensures -TWO_63 <= r <= INT64_MAX
    ensures r == x || r == x - TWO_64
  {
    if x < TWO_63 then x else x - TWO_64
  }

  /** Unsigned 64-bit subtraction, with the borrow written out: the
      difference, plus 2^64 when `y` exceeds `x`. */
  function Sub64(x: u64, y: u64): (r: u64)
    ensures r + y == x || r + y == x + TWO_64
  {
    if y <= x then x - y else x - y + TWO_64
  }

  /** The written-out borrow is the difference modulo 2^64. */
  lemma Sub64Wraps(x: u64, y: u64)
    ensures Sub64(x, y) == Wrap64(x - y)
  {
  }

  /** A value that fits in int64_t survives the round trip through uint64_t. */
  lemma SignedWrap(x: int)
    ensures -TWO_63 <= x <= INT64_MAX ==> Signed64(Wrap64(x)) == x
  {
    if -TWO_63 <= x < 0 {
      assert Wrap64(x) == x + TWO_64;
    }
  }

  /** Two's-complement int32_t arithmetic: the value in int32 range that is
      congruent to `x` modulo 2^32. */
  function Wrap32(x: int): (r: i32)
    ensures (r - x) % TWO_32 == 0
    ensures INT32_MIN <= x <= INT32_MAX ==> r == x
  {
    (x - INT32_MIN) % TWO_32 + INT32_MIN
  }

  function Pow256(k: nat): (r: nat)
    ensures r >= 1
  {
    if k == 0 then 1 else 256 * Pow256(k - 1)
  }

  /** The `k` low-order bytes of `v`, least significant first. */
  function LittleEndian(v: nat, k: nat): (bs: seq<byte>)
    ensures |bs| == k
  {
    if k == 0 then [] else [v % 256] + LittleEndian(v / 256, k - 1)
  }

  /** The unsigned value of a little-endian byte string. */
  function ValueOf(bs: seq<byte>): nat
  {
    if bs == [] then 0 else bs[0] + 256 * ValueOf(bs[1..])
  }

  /** `k` bytes hold values below 256^k. */
  lemma {:induction false} ValueOfBound(bs: seq<byte>)
    ensures ValueOf(bs) < Pow256(|bs|)
  {
    if bs != [] {
      ValueOfBound(bs[1..]);
    }
  }

  lemma {:induction false} ValueOfLittleEndian(v: nat, k: nat)
    requires v < Pow256(k)
    ensures ValueOf(LittleEndian(v, k)) == v
  {
    if k > 0 {
      var bs := LittleEndian(v, k);
      assert bs[1..] == LittleEndian(v / 256, k - 1);
      ValueOfLittleEndian(v / 256, k - 1);
    }
  }

  /** Memory as a store of bytes indexed by address. Addresses nobody wrote
      read as zero, as freshly mapped or truncated-up pages do. */
  type Mem = map<int, byte>

  function ByteAt(m: Mem, a: int): byte
  {
    if a in m then m[a] else 0
  }

  function Store(m: Mem, a: int, bs: seq<byte>): (m': Mem)
    ensures forall x {:trigger ByteAt(m', x)} :: ByteAt(m', x) == if a <= x < a + |bs| then bs[x - a] else ByteAt(m, x)
    decreases |bs|
  {
    if bs == [] then m else Store(m[a := bs[0]], a + 1, bs[1..])
  }

  /** The unsigned value of the little-endian bytes at addresses `lo` up to
      `hi`. */
  function MemValue(m: Mem, lo: int, hi: int): nat
    requires lo <= hi
    decreases hi - lo
  {
    if lo == hi then 0 else ByteAt(m, lo) + 256 * MemValue(m, lo + 1, hi)
  }

  lemma {:induction false} MemValueBound(m: Mem, lo: int, hi: int)
    requires lo <= hi
    ensures MemValue(m, lo, hi) < Pow256(hi - lo)
    decreases hi - lo
  {
    if lo < hi {
      MemValueBound(m, lo + 1, hi);
    }
  }

  /** The bytes at `a` are read as the byte string they spell. */
  lemma {:induction false} MemValueSpelled(m: Mem, a: int, bs: seq<byte>)
    requires forall i | 0 <= i < |bs| :: ByteAt(m, a + i) == bs[i]
    ensures MemValue(m, a, a + |bs|) == ValueOf(bs)
    decreases |bs|
  {
    if bs != [] {
      forall i | 0 <= i < |bs| - 1 ensures ByteAt(m, a + 1 + i) == bs[1..][i] {
        assert ByteAt(m, a + (i + 1)) == bs[i + 1];
      }
      MemValueSpelled(m, a + 1, bs[1..]);
    }
  }

  /** Only the bytes in range matter. */
  lemma {:induction false} MemValueFrame(m: Mem, m': Mem, lo: int, hi: int)
    requires lo <= hi
    requires forall x | lo <= x < hi :: ByteAt(m', x) == ByteAt(m, x)
    ensures MemValue(m', lo, hi) == MemValue(m, lo, hi)
    decreases hi - lo
  {
    if lo < hi {
      MemValueFrame(m, m', lo + 1, hi);
    }
  }

  /** The pointer-sized word stored at `a`. */
  function LoadWord(m: Mem, a: int): u64
  {
    MemValueBound(m, a, a + POINTER_SIZE);
    MemValue(m, a, a + POINTER_SIZE)
  }

  function StoreWord(m: Mem, a: int, v: u64): (m': Mem)
    ensures LoadWord(m', a) == v
    ensures forall x {:trigger ByteAt(m', x)} :: (x < a || a + POINTER_SIZE <= x) ==> ByteAt(m', x) == ByteAt(m, x)
  {
    var m' := Store(m, a, LittleEndian(v, POINTER_SIZE));
    MemValueSpelled(m', a, LittleEndian(v, POINTER_SIZE));
    ValueOfLittleEndian(v, POINTER_SIZE);
    m'
  }

  lemma LoadWordFrame(m: Mem, m': Mem, a: int)
    requires forall x :: a <= x < a + POINTER_SIZE ==> ByteAt(m', x) == ByteAt(m, x)
    ensures LoadWord(m', a) == LoadWord(m, a)
  {
    MemValueFrame(m, m', a, a + POINTER_SIZE);
  }

  /** The pointer-sized words at `x` and `y` do not overlap. */
  predicate Apart(x: int, y: int)
  {
    x + POINTER_SIZE <= y || y + POINTER_SIZE <= x
  }

  /** No two of the pointer-sized words at `ps` overlap. */
  predicate AllApart(ps: seq<int>)
  {
    forall j, k | 0 <= j < k < |ps| :: Apart(ps[j], ps[k])
  }

  /** Byte `x` lies in none of the pointer-sized words at `ps`. */
  predicate Outside(x: int, ps: seq<int>)
  {
    forall k | 0 <= k < |ps| :: x < ps[k] || ps[k] + POINTER_SIZE <= x
  }

  /** The unsigned value of the little-endian bytes from offset `lo` up to
      `hi`. */
  function ValueAt(blob: seq<byte>, lo: int, hi: int): nat
    requires 0 <= lo <= hi <= |blob|
    decreases hi - lo
  {
    if lo == hi then 0 else blob[lo] + 256 * ValueAt(blob, lo + 1, hi)
  }

  /** `k` bytes hold values below 256^k. */
  lemma {:induction false} ValueAtBound(blob: seq<byte>, lo: int, hi: int)
    requires 0 <= lo <= hi <= |blob|
    ensures ValueAt(blob, lo, hi) < Pow256(hi - lo)
    decreases hi - lo
  {
    if lo < hi {
      ValueAtBound(blob, lo + 1, hi);
    }
  }

  /** The bytes at `o` are read as the byte string they spell. */
  lemma {:induction false} ValueAtSpelled(blob: seq<byte>, o: int, bs: seq<byte>)
    requires 0 <= o && o + |bs| <= |blob|
    requires forall i | 0 <= i < |bs| :: blob[o + i] == bs[i]
    ensures ValueAt(blob, o, o + |bs|) == ValueOf(bs)
    decreases |bs|
  {
    if bs != [] {
      forall i | 0 <= i < |bs| - 1 ensures blob[o + 1 + i] == bs[1..][i] {
        assert blob[o + (i + 1)] == bs[i + 1];
      }
      ValueAtSpelled(blob, o + 1, bs[1..]);
    }
  }

  /** The pointer-sized word at offset `o` of a byte string. */
  function WordAt(blob: seq<byte>, o: int): u64
    requires 0 <= o && o + POINTER_SIZE <= |blob|
  {
    ValueAtBound(blob, o, o + POINTER_SIZE);
    ValueAt(blob, o, o + POINTER_SIZE)
  }

  /** The `n` bytes of memory from `base` on as a byte string: what a
      file mapped at `base` holds once the mapping is synced to it. */
  function Blob(m: Mem, base: int, n: nat): (b: seq<byte>)
    ensures |b| == n
    ensures forall i | 0 <= i < n :: b[i] == ByteAt(m, base + i)
  {
    seq<byte>(n, i requires 0 <= i < n => ByteAt(m, base + i))
  }

  /** The two views agree: a value read from the byte string is the value
      read from memory at the same offset from `base`. */
  lemma {:induction false} BlobValue(m: Mem, base: int, n: nat, lo: int, hi: int)
    requires 0 <= lo <= hi <= n
    ensures ValueAt(Blob(m, base, n), lo, hi) == MemValue(m, base + lo, base + hi)
    decreases hi - lo
  {
    if lo < hi {
      BlobValue(m, base, n, lo + 1, hi);
    }
  }

  /** A word of the byte string is the word in memory it was taken from. */
  lemma BlobWord(m: Mem, base: int, n: nat, o: int)
    requires 0 <= o && o + POINTER_SIZE <= n
    ensures WordAt(Blob(m, base, n), o) == LoadWord(m, base + o)
  {
    BlobValue(m, base, n, o, o + POINTER_SIZE);
  }

  /** `blob` with the word at offset `o` replaced by `v`. */
  function PutWord(blob: seq<byte>, o: int, v: u64): (r: seq<byte>)
    requires 0 <= o && o + POINTER_SIZE <= |blob|
    ensures |r| == |blob|
  {
    Overwrite(blob, o, LittleEndian(v, POINTER_SIZE))
  }

  /** `blob` with the bytes from offset `o` on replaced by `bs`, one at a
      time; OverwriteEffect states the result. */
  function Overwrite(blob: seq<byte>, o: int, bs: seq<byte>): (r: seq<byte>)
    requires 0 <= o && o + |bs| <= |blob|
    ensures |r| == |blob|
    decreases |bs|
  {
    if bs == [] then blob else Overwrite(blob[o := bs[0]], o + 1, bs[1..])
  }

  lemma {:induction false} OverwriteEffect(blob: seq<byte>, o: int, bs: seq<byte>)
    requires 0 <= o && o + |bs| <= |blob|
    ensures forall i | 0 <= i < |blob| ::
      Overwrite(blob, o, bs)[i] == if o <= i < o + |bs| then bs[i - o] else blob[i]
    decreases |bs|
  {
    if bs != [] {
      OverwriteEffect(blob[o := bs[0]], o + 1, bs[1..]);
    }
  }

  /** Writing a word makes it read back and leaves every other byte. */
  lemma PutWordEffect(blob: seq<byte>, o: int, v: u64)
    requires 0 <= o && o + POINTER_SIZE <= |blob|
    ensures WordAt(PutWord(blob, o, v), o) == v
    ensures forall i | 0 <= i < |blob| && (i < o || o + POINTER_SIZE <= i) :: PutWord(blob, o, v)[i] == blob[i]
  {
    var r := PutWord(blob, o, v);
    var bs := LittleEndian(v, POINTER_SIZE);
    OverwriteEffect(blob, o, bs);
    ValueAtSpelled(r, o, bs);
    ValueOfLittleEndian(v, POINTER_SIZE);
  }
}
