/** The pool object `gc_manager`: a fixed array of 32 per-bucket stacks of
    free blocks. The per-bucket mutexes are not modelled: every operation
    runs as one sequential step. */
module GcManager {
  import opened BitIndex
  import opened SizeClass
  import opened PoolModel

  /** `thread_save_vector`: one bucket's stack of free blocks. */
  class FreeList {
    var container: seq<Block>

    constructor ()
      ensures container == []
    {
      container := [];
    }

    /** `push_back`: the block goes on top. */
    method PushBack(blk: Block)
      modifies this
      ensures container == old(container) + [blk]
    {
      container := container + [blk];
    }

    /** `take_last_out`: nothing (a null pointer) from an empty stack, which is
        left as it is; otherwise the top block, which alone is removed. */
    method TakeLastOut() returns (p: Option<Block>)
      modifies this
      ensures old(container) == [] ==> p == None && container == []
      ensures old(container) != [] ==>
        p == Some(Last(old(container))) && container == WithoutLast(old(container))
    {
      p := None;
      if |container| > 0 {
        p := Some(container[|container| - 1]);
        container := container[..|container| - 1];
      }
    }

    /** One bucket's share of `collect`: frees the blocks from the top of the
        stack down, then clears it. Returns the freed blocks in order. */
    method FreeAll() returns (freed: seq<Block>)
      modifies this
      ensures freed == Reversed(old(container)) && container == []
    {
      freed := [];
      var j := |container|;
      while j > 0
        invariant 0 <= j <= |container|
        invariant freed == Reversed(container[j..])
      {
        j := j - 1;
        assert container[j..][1..] == container[j + 1..];
        freed := freed + [container[j]];
      }
      assert container[0..] == container;
      container := [];
    }
  }

  /** LIFO round trip: a push followed by a take returns the pushed block and
      restores the previous contents. */
  method PushThenTake(list: FreeList, blk: Block) returns (p: Option<Block>)
    modifies list
    ensures p == Some(blk) && list.container == old(list.container)
  {
    list.PushBack(blk);
    p := list.TakeLastOut();
    assert WithoutLast(old(list.container) + [blk]) == old(list.container);
  }

  class Pool {
    /** `memory_block_available`: one stack per bucket. */
    const buckets: array<FreeList>
    /** The stacks, as values: `Contents[b]` is bucket b, top last. */
    ghost var Contents: seq<seq<Block>>
    ghost const Lists: set<FreeList>

    ghost predicate Valid()
      reads this, buckets, Lists
    {
      buckets.Length == BucketCount && |Contents| == BucketCount &&
      (forall i :: 0 <= i < BucketCount ==> buckets[i] in Lists) &&
      (forall i, j :: 0 <= i < BucketCount && 0 <= j < BucketCount && i != j ==> buckets[i] != buckets[j]) &&
      (forall i :: 0 <= i < BucketCount ==> buckets[i].container == Contents[i])
    }

    /** Every block in bucket b has at least 2^b bytes. */
    ghost predicate WellSized()
      reads this
    {
      AllFit(Contents)
    }

    /** No address is pooled twice. */
    ghost predicate Unaliased()
      reads this
    {
      NoAlias(Contents)
    }

    /** The block at address `id` is sitting in some bucket. */
    ghost predicate Holds(id: nat)
      reads this
    {
      InPool(Contents, id)
    }

    ghost predicate AllEmpty()
      reads this
    {
      forall i :: 0 <= i < |Contents| ==> Contents[i] == []
    }

    constructor ()
      ensures Valid() && fresh(buckets) && fresh(Lists)
      ensures |Contents| == BucketCount && AllEmpty() && WellSized() && Unaliased()
    {
      var first := new FreeList();
      var a := new FreeList[BucketCount](_ => first);
      var i := 1;
      while i < BucketCount
        invariant 1 <= i <= BucketCount
        invariant forall k :: 0 <= k < i ==> fresh(a[k]) && a[k].container == []
        invariant forall k, l :: 0 <= k < i && 0 <= l < i && k != l ==> a[k] != a[l]
      {
        a[i] := new FreeList();
        i := i + 1;
      }
      buckets := a;
      Lists := set k | 0 <= k < BucketCount :: a[k];
      Contents := seq(BucketCount, _ => []);
    }

    /** `take_mem_out<T>()`: pops the ceiling bucket of `sizeof(T)`. The
        bucket must exist (a static assertion in the source). */
    method TakeMemOut(typeSize: nat) returns (p: Option<Block>)
      requires Valid() && typeSize >= 1 && CeilBucket(typeSize) < BucketCount
      modifies this, buckets[CeilBucket(typeSize)]
      ensures Valid()
      ensures var c := CeilBucket(typeSize);
        if old(Contents[c]) == [] then p == None && Contents == old(Contents)
        else p == Some(Last(old(Contents[c]))) && Contents == old(Contents)[c := WithoutLast(old(Contents[c]))]
      ensures old(WellSized()) ==> WellSized() && (p.Some? ==> p.value.size >= typeSize)
      ensures old(Unaliased()) ==> Unaliased() && (p.Some? ==> !Holds(p.value.id))
    {
      var c := CeilBucket(typeSize);
      p := buckets[c].TakeLastOut();
      Contents := Contents[c := buckets[c].container];
      if p.Some? {
        if old(WellSized()) {
          TakeKeepsFit(old(Contents), typeSize);
        }
        if old(Unaliased()) {
          TakeKeepsNoAlias(old(Contents), c);
        }
      }
    }

    /** `take_mem_out<T>(elementCount)`: pops the ceiling bucket of the array's
        bytes plus header. The source does not check the bucket index, so
        it is required here. */
    method TakeMemOutArray(elemSize: nat, count: nat) returns (p: Option<Block>)
      requires Valid() && CeilBucket(ArrayBytes(elemSize, count)) < BucketCount
      modifies this, buckets[CeilBucket(ArrayBytes(elemSize, count))]
      ensures Valid()
      ensures var c := CeilBucket(ArrayBytes(elemSize, count));
        if old(Contents[c]) == [] then p == None && Contents == old(Contents)
        else p == Some(Last(old(Contents[c]))) && Contents == old(Contents)[c := WithoutLast(old(Contents[c]))]
      ensures old(WellSized()) ==> WellSized() && (p.Some? ==> p.value.size >= ArrayBytes(elemSize, count))
      ensures old(Unaliased()) ==> Unaliased() && (p.Some? ==> !Holds(p.value.id))
    {
      var requireBytes := ArrayBytes(elemSize, count);
      var c := CeilBucket(requireBytes);
      p := buckets[c].TakeLastOut();
      Contents := Contents[c := buckets[c].container];
      if p.Some? {
        if old(WellSized()) {
          TakeKeepsFit(old(Contents), requireBytes);
        }
        if old(Unaliased()) {
          TakeKeepsNoAlias(old(Contents), c);
        }
      }
    }

    /** `push_unused_mem<T>(ptr)`: pushes onto the floor bucket of `sizeof(T)`
        (a static assertion keeps it below 32). The source trusts the caller
        that the block holds `sizeof(T)` bytes; only then is the size
        invariant kept. */
    method PushUnusedMem(blk: Block, typeSize: nat)
      requires Valid() && typeSize >= 1 && FloorBucket(typeSize) < BucketCount
      modifies this, buckets[FloorBucket(typeSize)]
      ensures Valid()
      ensures var f := FloorBucket(typeSize);
        Contents == old(Contents)[f := old(Contents[f]) + [blk]]
      ensures old(WellSized()) && blk.size >= typeSize ==> WellSized()
      ensures old(Unaliased()) && !old(Holds(blk.id)) ==> Unaliased()
    {
      var f := FloorBucket(typeSize);
      buckets[f].PushBack(blk);
      Contents := Contents[f := buckets[f].container];
      if old(WellSized()) && blk.size >= typeSize {
        PushKeepsFit(old(Contents), blk, typeSize);
      }
      if old(Unaliased()) && !old(Holds(blk.id)) {
        PushKeepsNoAlias(old(Contents), f, blk);
      }
    }

    /** `push_unused_mem<T>(ptr, elementCount)`: pushes onto the floor bucket of
        the array's bytes plus header (asserted below 32). */
    method PushUnusedMemArray(blk: Block, elemSize: nat, count: nat)
      requires Valid() && FloorBucket(ArrayBytes(elemSize, count)) < BucketCount
      modifies this, buckets[FloorBucket(ArrayBytes(elemSize, count))]
      ensures Valid()
      ensures var f := FloorBucket(ArrayBytes(elemSize, count));
        Contents == old(Contents)[f := old(Contents[f]) + [blk]]
      ensures old(WellSized()) && blk.size >= ArrayBytes(elemSize, count) ==> WellSized()
      ensures old(Unaliased()) && !old(Holds(blk.id)) ==> Unaliased()
    {
      var totalByte := ArrayBytes(elemSize, count);
      var f := FloorBucket(totalByte);
      buckets[f].PushBack(blk);
      Contents := Contents[f := buckets[f].container];
      if old(WellSized()) && blk.size >= totalByte {
        PushKeepsFit(old(Contents), blk, totalByte);
      }
      if old(Unaliased()) && !old(Holds(blk.id)) {
        PushKeepsNoAlias(old(Contents), f, blk);
      }
    }

    /** `collect`: for buckets 0..31 in turn, frees the bucket's blocks from the
        top of its stack down, then empties it. Returns the freed blocks in
        the order they are freed. */
    method Collect() returns (freed: seq<Block>)
      requires Valid()
      modifies this, Lists
      ensures Valid() && |Contents| == BucketCount && AllEmpty() && WellSized() && Unaliased()
      ensures freed == DrainOrder(old(Contents), 0, BucketCount)
    {
      freed := [];
      var i := 0;
      while i < BucketCount
        invariant 0 <= i <= BucketCount
        invariant Valid()
        invariant forall k :: 0 <= k < i ==> Contents[k] == []
        invariant forall k :: i <= k < BucketCount ==> Contents[k] == old(Contents)[k]
        invariant freed == DrainOrder(old(Contents), 0, i)
      {
        var drained := buckets[i].FreeAll();
        freed := freed + drained;
        Contents := Contents[i := []];
        i := i + 1;
      }
      EmptyKeepsInvariants(Contents);
    }

    /** `~gc_manager`: the pool's destructor runs `collect`. */
    method Destroy() returns (freed: seq<Block>)
      requires Valid()
      modifies this, Lists
      ensures Valid() && |Contents| == BucketCount && AllEmpty() && WellSized() && Unaliased()
      ensures freed == DrainOrder(old(Contents), 0, BucketCount)
    {
      freed := Collect();
    }
  }
}
