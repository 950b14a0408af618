/** The smart-pointer side of the pool: the deleters `garbage_collector<T>` and
    `garbage_collector<T[]>`, and the factories `make_gc_unique` and
    `make_gc_shared`. The global pool `GC` is passed in explicitly. A type T
    is represented only by its size `sizeof(T)`; constructors and
    destructors are represented by what they are run on. */
module Collector {
  import opened SizeClass
  import opened PoolModel
  import opened GcManager

  /** `gc_unique_ptr` or `gc_shared_ptr`: both bind the same deleter. */
  datatype Ownership = Unique | Shared

  /** What a smart pointer built by the factories holds. An `ArrayHandle`'s
      block is the header address, one word before the first element. */
  datatype Handle =
    | ObjectHandle(kind: Ownership, block: Block, typeSize: nat)
    | ArrayHandle(kind: Ownership, block: Block, elemSize: nat)

  /** The block behind a handle is big enough for what it holds: the object,
      or the header word and the number of elements it records. */
  ghost predicate Fits(h: Handle)
  {
    match h
    case ObjectHandle(_, blk, typeSize) => blk.size >= typeSize
    case ArrayHandle(_, blk, elemSize) =>
      blk.header.Some? && blk.size >= ArrayBytes(elemSize, blk.header.value)
  }

  /** `garbage_collector<T>::operator()`: runs the destructor of the one
      object, then returns the block to the floor bucket of `sizeof(T)`.
      Returns the number of destructor calls. */
  method DeleteObject(pool: Pool, h: Handle) returns (destroyed: nat)
    requires h.ObjectHandle? && pool.Valid()
    requires h.typeSize >= 1 && FloorBucket(h.typeSize) < BucketCount
    modifies pool, pool.buckets[FloorBucket(h.typeSize)]
    ensures destroyed == 1
    ensures pool.Valid()
    ensures var f := FloorBucket(h.typeSize);
      pool.Contents == old(pool.Contents)[f := old(pool.Contents[f]) + [h.block]]
    ensures old(pool.WellSized()) && Fits(h) ==> pool.WellSized()
    ensures old(pool.Unaliased()) && !old(pool.Holds(h.block.id)) ==> pool.Unaliased()
  {
    destroyed := 1;
    pool.PushUnusedMem(h.block, h.typeSize);
  }

  /** `garbage_collector<T[]>::operator()`: reads the element count from the
      header word, runs that many element destructors in index order, then
      returns the header address with that count to the floor bucket of
      `count * sizeof(T) + sizeof(array_ptr_header)`. Returns the indices of
      the destroyed elements, in the order they are destroyed. */
  method DeleteArray(pool: Pool, h: Handle) returns (destroyed: seq<nat>)
    requires h.ArrayHandle? && h.block.header.Some? && pool.Valid()
    requires FloorBucket(ArrayBytes(h.elemSize, h.block.header.value)) < BucketCount
    modifies pool, pool.buckets[FloorBucket(ArrayBytes(h.elemSize, h.block.header.value))]
    ensures |destroyed| == h.block.header.value
    ensures forall k :: 0 <= k < |destroyed| ==> destroyed[k] == k
    ensures pool.Valid()
    ensures var f := FloorBucket(ArrayBytes(h.elemSize, h.block.header.value));
      pool.Contents == old(pool.Contents)[f := old(pool.Contents[f]) + [h.block]]
    ensures old(pool.WellSized()) && Fits(h) ==> pool.WellSized()
    ensures old(pool.Unaliased()) && !old(pool.Holds(h.block.id)) ==> pool.Unaliased()
  {
    var objCount := h.block.header.value;
    destroyed := [];
    var i := 0;
    while i < objCount
      invariant 0 <= i <= objCount
      invariant |destroyed| == i
      invariant forall k :: 0 <= k < i ==> destroyed[k] == k
    {
      destroyed := destroyed + [i];
      i := i + 1;
    }
    pool.PushUnusedMemArray(h.block, h.elemSize, objCount);
  }

  /** `make_gc_unique<T>(args...)` / `make_gc_shared<T>(args...)`: constructs
      the object in the block popped from the ceiling bucket of `sizeof(T)`,
      or, when that bucket is empty, in a fresh `sizeof(T)`-byte allocation
      whose address the system allocator gives as `freshId`. */
  method MakeGc(pool: Pool, kind: Ownership, typeSize: nat, freshId: nat) returns (h: Handle)
    requires pool.Valid() && typeSize >= 1 && CeilBucket(typeSize) < BucketCount
    modifies pool, pool.buckets[CeilBucket(typeSize)]
    ensures pool.Valid()
    ensures h.ObjectHandle? && h.kind == kind && h.typeSize == typeSize
    ensures var c := CeilBucket(typeSize);
      if old(pool.Contents[c]) == [] then
        h.block == Block(freshId, typeSize, None) && pool.Contents == old(pool.Contents)
      else
        h.block == Last(old(pool.Contents[c]))
        && pool.Contents == old(pool.Contents)[c := WithoutLast(old(pool.Contents[c]))]
    ensures old(pool.WellSized()) ==> pool.WellSized() && Fits(h)
    ensures old(pool.Unaliased()) && !old(pool.Holds(freshId)) ==> pool.Unaliased() && !pool.Holds(h.block.id)
    ensures old(pool.Unaliased()) && old(pool.Contents[CeilBucket(typeSize)]) != [] ==>
      pool.Unaliased() && !pool.Holds(h.block.id)
  {
    var ptr := pool.TakeMemOut(typeSize);
    if ptr.Some? {
      h := ObjectHandle(kind, ptr.value, typeSize);
    } else {
      h := ObjectHandle(kind, Block(freshId, typeSize, None), typeSize);
    }
  }

  /** `make_gc_unique<T[]>(elementCount)` / `make_gc_shared<T[]>(elementCount)`:
      array `new` of `elementCount` default-constructed elements, either in
      the block popped from the ceiling bucket of the array's bytes plus
      header, or in a fresh allocation of exactly those bytes. Either way the
      header word now records `elementCount`. */
  method MakeGcArray(pool: Pool, kind: Ownership, elemSize: nat, elementCount: nat, freshId: nat)
    returns (h: Handle)
    requires pool.Valid() && CeilBucket(ArrayBytes(elemSize, elementCount)) < BucketCount
    modifies pool, pool.buckets[CeilBucket(ArrayBytes(elemSize, elementCount))]
    ensures pool.Valid()
    ensures h.ArrayHandle? && h.kind == kind && h.elemSize == elemSize
    ensures h.block.header == Some(elementCount)
    ensures var c := CeilBucket(ArrayBytes(elemSize, elementCount));
      if old(pool.Contents[c]) == [] then
        h.block == Block(freshId, ArrayBytes(elemSize, elementCount), Some(elementCount))
        && pool.Contents == old(pool.Contents)
      else
        h.block == Last(old(pool.Contents[c])).(header := Some(elementCount))
        && pool.Contents == old(pool.Contents)[c := WithoutLast(old(pool.Contents[c]))]
    ensures old(pool.WellSized()) ==> pool.WellSized() && Fits(h)
    ensures old(pool.Unaliased()) && !old(pool.Holds(freshId)) ==> pool.Unaliased() && !pool.Holds(h.block.id)
    ensures old(pool.Unaliased()) && old(pool.Contents[CeilBucket(ArrayBytes(elemSize, elementCount))]) != [] ==>
      pool.Unaliased() && !pool.Holds(h.block.id)
  {
    var ptr := pool.TakeMemOutArray(elemSize, elementCount);
    if ptr.Some? {
      h := ArrayHandle(kind, ptr.value.(header := Some(elementCount)), elemSize);
    } else {
      h := ArrayHandle(kind, Block(freshId, ArrayBytes(elemSize, elementCount), Some(elementCount)), elemSize);
    }
  }

  /** A scalar handed out and released comes back on top of its floor
      bucket; for a size that is not a power of two that is one bucket below
      where the next request of the same size looks, so that request misses
      whatever the bucket below holds. */
  method ObjectRoundTrip(pool: Pool, typeSize: nat, freshId: nat) returns (h: Handle, again: Option<Block>)
    requires pool.Valid() && typeSize >= 1 && CeilBucket(typeSize) < BucketCount
    requires pool.Contents[CeilBucket(typeSize)] == []
    modifies pool, pool.Lists
    ensures pool.Valid()
    ensures h.block == Block(freshId, typeSize, None)
    ensures IsPowerOfTwo(typeSize) ==> again == Some(h.block)
    ensures !IsPowerOfTwo(typeSize) ==> again == None
  {
    CeilAndFloor(typeSize);
    h := MakeGc(pool, Unique, typeSize, freshId);
    var _ := DeleteObject(pool, h);
    again := pool.TakeMemOut(typeSize);
  }

  /** An array of 3 elements of 8 bytes lives in bucket 5: releasing it runs
      3 destructors and puts its header address back on top of bucket 5. */
  method ThreeElementArray(pool: Pool, freshId: nat) returns (destroyed: seq<nat>)
    requires pool.Valid()
    modifies pool, pool.Lists
    ensures pool.Valid()
    ensures destroyed == [0, 1, 2]
    ensures |pool.Contents[5]| >= 1 && Last(pool.Contents[5]).header == Some(3)
  {
    ThreeWordArray();
    var h := MakeGcArray(pool, Shared, 8, 3, freshId);
    destroyed := DeleteArray(pool, h);
  }

  /** After `collect` every request misses. */
  method CollectThenTake(pool: Pool, typeSize: nat) returns (freed: seq<Block>, p: Option<Block>)
    requires pool.Valid() && typeSize >= 1 && CeilBucket(typeSize) < BucketCount
    modifies pool, pool.Lists
    ensures multiset(freed) == Pooled(old(pool.Contents), 0, BucketCount)
    ensures p == None
  {
    freed := pool.Collect();
    p := pool.TakeMemOut(typeSize);
  }
}
