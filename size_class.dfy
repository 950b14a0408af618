/** Size classes of the pool: bucket b holds blocks of at least 2^b bytes.
    Memory is taken from the CEILING bucket of the requested byte count and
    returned to the FLOOR bucket of the released byte count. */
module SizeClass {
  import opened BitIndex

  /** `max_block_count`: 8 * sizeof(int) buckets, for a 32-bit int. */
  const BucketCount: nat := 32

  /** `sizeof(array_ptr_header)`: one uintptr_t word, on a 64-bit target. */
  const HeaderSize: nat := 8

  /** Bytes asked for an array of `count` elements of `elemSize` bytes:
      the elements plus the header word in front of them. */
  function ArrayBytes(elemSize: nat, count: nat): (r: nat)
    ensures r >= HeaderSize >= 1
    ensures elemSize >= 1 ==> r >= count + HeaderSize
  {
    count * elemSize + HeaderSize
  }

  /** The bucket memory is taken from: `index = hightest_bit_index(bytes) - 1`,
      then `index` if `bytes == 1 << index`, else `index + 1`. It is the least
      b with 2^b >= bytes. */
  function CeilBucket(bytes: nat): (b: nat)
    requires bytes >= 1
    ensures bytes <= Pow2(b)
    ensures b == 0 || Pow2(b - 1) < bytes
  {
    BitLengthBounds(bytes);
    var index: nat := HighestBitIndex(bytes) - 1;
    if bytes == Pow2(index) then index else index + 1
  }

  /** The bucket memory is returned to: `hightest_bit_index(bytes) - 1`.
      It is the greatest b with 2^b <= bytes. */
  function FloorBucket(bytes: nat): (b: nat)
    requires bytes >= 1
    ensures Pow2(b) <= bytes < Pow2(b + 1)
  {
    BitLengthBounds(bytes);
    HighestBitIndex(bytes) - 1
  }

  /** No bucket below the ceiling bucket is big enough. */
  lemma CeilBucketIsLeast(bytes: nat, k: nat)
    requires bytes >= 1 && bytes <= Pow2(k)
    ensures CeilBucket(bytes) <= k
  {
    var b := CeilBucket(bytes);
    if b > 0 {
      Pow2Monotone(b - 1, k);
    }
  }

  /** No bucket above the floor bucket is small enough. */
  lemma FloorBucketIsGreatest(bytes: nat, k: nat)
    requires bytes >= 1 && Pow2(k) <= bytes
    ensures k <= FloorBucket(bytes)
  {
    Pow2Monotone(k, FloorBucket(bytes) + 1);
  }

  ghost predicate IsPowerOfTwo(n: nat)
  {
    exists k: nat :: Pow2(k) == n
  }

  /** The two rules pick the same bucket exactly for powers of two; otherwise
      the ceiling bucket is the floor bucket plus one. */
  lemma CeilAndFloor(bytes: nat)
    requires bytes >= 1
    ensures CeilBucket(bytes) == FloorBucket(bytes) <==> IsPowerOfTwo(bytes)
    ensures !IsPowerOfTwo(bytes) ==> CeilBucket(bytes) == FloorBucket(bytes) + 1
  {
    var c, f := CeilBucket(bytes), FloorBucket(bytes);
    Pow2Monotone(c, f);
    CeilBucketIsLeast(bytes, f + 1);
    if c == f {
      assert Pow2(c) == bytes;
    }
    if IsPowerOfTwo(bytes) {
      var k: nat :| Pow2(k) == bytes;
      CeilBucketIsLeast(bytes, k);
      FloorBucketIsGreatest(bytes, k);
    }
  }

  /** A block released for `released` bytes can be handed out again only to a
      request of at most that many bytes. */
  lemma ReuseFits(released: nat, requested: nat)
    requires released >= 1 && requested >= 1
    requires FloorBucket(released) == CeilBucket(requested)
    ensures requested <= released
  {
  }

  /** A 24-byte object is taken from bucket 5 but returned to bucket 4. */
  lemma TwentyFourBytes()
    ensures CeilBucket(24) == 5 && FloorBucket(24) == 4
  {
    BitLengthUnique(24, 4);
  }

  /** An array of 3 elements of 8 bytes asks for 32 bytes: bucket 5 both ways. */
  lemma ThreeWordArray()
    ensures ArrayBytes(8, 3) == 32
    ensures CeilBucket(ArrayBytes(8, 3)) == 5 && FloorBucket(ArrayBytes(8, 3)) == 5
  {
    BitLengthUnique(32, 5);
  }
}
