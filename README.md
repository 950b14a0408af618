# tiny_gc pool, modelled in Dafny

`tiny_gc` is a memory-reuse pool for C++ smart pointers. It is not a tracing
collector. Memory is sorted into 32 size classes ("buckets"); bucket `b`
stands for blocks of `2^b` bytes. Every bucket is a LIFO stack of free raw
blocks.

- The factories `make_gc_unique` and `make_gc_shared` compute the bucket for
  the bytes a value needs and pop a block from it. When that bucket is
  empty, they allocate fresh memory with `new` instead.
- The custom deleters `garbage_collector<T>` and `garbage_collector<T[]>`
  run the destructors. They then push the block back into a bucket instead
  of freeing it.
- `collect` (also run by the pool's destructor) frees every pooled block.

The model has five modules:

- `BitIndex`: both forms of `hightest_bit_index`. The template form stops
  once its argument is no longer positive. The runtime form recurses while
  its argument is non-zero and halves it with C++ truncating division. The
  model proves the runtime form computes the bit length and that the two
  forms agree exactly on non-negative arguments.
- `SizeClass`: the two bucket rules.
  - Taking memory uses the ceiling bucket, the least `b` with `2^b >= bytes`.
  - Returning memory uses the floor bucket, the greatest `b` with `2^b <= bytes`.
  - The two rules agree exactly on powers of two. Otherwise the ceiling is
    the floor plus one.
  - For arrays, the bytes are `count * sizeof(T)` plus one header word.
- `PoolModel`: the pool as values.
  - A `Block` has an address, the byte size allocated for it, and the
    element-count word that array `new` wrote at its start.
  - Two invariants over the buckets: every block in bucket `b` has at least
    `2^b` bytes (`AllFit`), and no address is pooled twice (`NoAlias`).
  - The order in which `collect` frees blocks (`DrainOrder`).
- `GcManager`: the state-changing classes.
  - `FreeList` is the per-bucket `thread_save_vector`, with
    `push_back`/`take_last_out`.
  - `Pool` is `gc_manager`, with its fixed array of 32 stacks and a ghost
    view `Contents` of their contents. Every take and push changes only the
    bucket it indexes.
  - `Collect` returns the freed blocks in the order they are freed.
- `Collector`: the deleters and the factories. They take the pool
  explicitly; the source uses the global `GC`. A type is represented by
  its `sizeof`. A smart pointer is a `Handle` value.

A consequence of the bucket rules: a block taken for a size that is not
a power of two (24 bytes: bucket 5) goes back to the bucket below (bucket 4).
So the next request of the same size does not find it (`ObjectRoundTrip`).
The same holds across sizes that share a ceiling bucket. A request for 20
bytes and one for 24 bytes both look in bucket 5, but a released 24-byte
block goes to bucket 4, so it serves neither of them. Nor does a miss allocate a block of the
bucket's full capacity: the code allocates `new T` (exactly `sizeof(T)`
bytes) or `new T[n]` (the elements plus the header). So the size invariant
reads "at least `2^b` bytes", not "exactly `2^b` bytes".

## Model

| member | source | states |
|---|---|---|
| BitIndex.HighestBitIndexConst | tiny_gc.hpp:28-36 | the template `hightest_bit_index<N, Index>()` recurses on `N / 2` only while `0 < N`, so it never returns less than `Index` and returns exactly `Index` if and only if `N <= 0` |
| BitIndex.HighestBitIndex | tiny_gc.hpp:38-45 | the runtime overload recurses while `n` is non-zero and halves with C++ truncating division (`TruncDiv2`, toward zero, also for negative `n`), so it never returns less than `index` and returns exactly `index` if and only if `n == 0`, negative arguments included |
| BitIndex.TruncDiv2 | tiny_gc.hpp:42 | C++ `n / 2` for `int`, rounding toward zero: for `n >= 0` the result `r` has `2r <= n <= 2r + 1`, and for `n < 0` it has `2r - 1 <= n <= 2r`, which pins `r` exactly |
| BitIndex.HighestBitIndexShift | tiny_gc.hpp:38-45 | the `index` accumulator only adds to the result: `hightest_bit_index(n, index) == index + hightest_bit_index(n)` |
| BitIndex.BitLengthBounds | tiny_gc.hpp:38-45 | the result is the bit length: 0 for 0, and `r >= 1` with `2^(r-1) <= n < 2^r` for `n >= 1` |
| BitIndex.BitLengthUnique | tiny_gc.hpp:38-45 | those bounds determine the result: if `2^k <= n < 2^(k+1)` then the result is `k + 1` |
| BitIndex.ConstMatchesRuntime | tiny_gc.hpp:28-45 | the template and the runtime overload compute the same value exactly when the argument is non-negative |
| SizeClass.CeilBucket | tiny_gc.hpp:107-108 | the bucket computed for taking memory has `bytes <= 2^b`, and `2^(b-1) < bytes` unless `b` is 0 |
| SizeClass.FloorBucket | tiny_gc.hpp:129 | the bucket computed for returning memory has `2^b <= bytes < 2^(b+1)` |
| SizeClass.ArrayBytes | tiny_gc.hpp:118-138 | the bytes an array needs (computed at line 118 for taking and at line 138 for returning), `count * sizeof(T) + sizeof(array_ptr_header)`: at least the 8-byte header, and at least one byte per element on top of it |
| SizeClass.CeilBucketIsLeast | tiny_gc.hpp:118-120 | no bucket below the ceiling bucket holds `bytes`: `bytes <= 2^k` implies ceiling `<= k` |
| SizeClass.FloorBucketIsGreatest | tiny_gc.hpp:138-139 | no bucket above the floor bucket fits in `bytes`: `2^k <= bytes` implies `k <=` floor |
| SizeClass.CeilAndFloor | tiny_gc.hpp:105-144 | the take bucket equals the return bucket exactly for powers of two; otherwise it is one above it |
| SizeClass.ReuseFits | tiny_gc.hpp:105-134 | a block returned for `released` bytes lands where requests for `requested` bytes look only if `requested <= released` |
| SizeClass.TwentyFourBytes | tiny_gc.hpp:105-134 | a 24-byte object is taken from bucket 5 but returned to bucket 4 |
| SizeClass.ThreeWordArray | tiny_gc.hpp:116-144 | 3 elements of 8 bytes plus the header need 32 bytes: bucket 5 for both take and return |
| PoolModel.TakeKeepsFit | tiny_gc.hpp:105-125 | with every block in bucket `b` at least `2^b` bytes, the top of the ceiling bucket of `bytes` has at least `bytes` bytes, and popping it keeps the invariant |
| PoolModel.PushKeepsFit | tiny_gc.hpp:126-144 | pushing a block of at least `bytes` bytes onto the floor bucket of `bytes` keeps the size invariant |
| PoolModel.TakeKeepsNoAlias | tiny_gc.hpp:85-95 | popping keeps pooled addresses unique, and the popped address is no longer in any bucket |
| PoolModel.PushKeepsNoAlias | tiny_gc.hpp:80-84 | pushing an address that is not pooled keeps pooled addresses unique, and the address is then pooled |
| PoolModel.ReversedAt | tiny_gc.hpp:152-160 | a stack read from its top yields element `k` as the `k`-th most recently pushed |
| PoolModel.ReversedMultiset | tiny_gc.hpp:153-160 | reading a stack from the top visits each of its blocks exactly once |
| PoolModel.DrainOrder | tiny_gc.hpp:148-162 | the blocks `collect` frees from buckets `lo` to `hi - 1` (ascending buckets, each read from its top) are exactly the blocks pooled there, each as often as it is pooled |
| PoolModel.DrainOrderSplit | tiny_gc.hpp:148-162 | every block of a bucket below `mid` is freed before any block of bucket `mid` or above |
| GcManager.FreeList.constructor | tiny_gc.hpp:75-77 | a new stack is empty |
| GcManager.FreeList.PushBack | tiny_gc.hpp:80-84 | the block is appended on top and nothing else changes |
| GcManager.FreeList.TakeLastOut | tiny_gc.hpp:85-95 | an empty stack yields null and stays empty; otherwise the top block is returned and only it is removed |
| GcManager.FreeList.FreeAll | tiny_gc.hpp:150-161 | one bucket's turn in `collect`: frees the stack's blocks from the most recently pushed down, then leaves the stack empty |
| GcManager.PushThenTake | tiny_gc.hpp:80-95 | `push_back(p)` then `take_last_out()` returns `p` and restores the previous contents |
| GcManager.Pool.constructor | tiny_gc.hpp:98 | a new pool has 32 distinct empty stacks, so both invariants hold |
| GcManager.Pool.TakeMemOut | tiny_gc.hpp:105-114 | pops the ceiling bucket of `sizeof(T)` (null if it is empty); only that bucket changes; under the invariants the block has at least `sizeof(T)` bytes and is no longer pooled |
| GcManager.Pool.TakeMemOutArray | tiny_gc.hpp:116-125 | the same for the ceiling bucket of `count * sizeof(T) + 8`; the block then has at least that many bytes |
| GcManager.Pool.PushUnusedMem | tiny_gc.hpp:127-134 | pushes onto the floor bucket of `sizeof(T)` and changes no other bucket; keeps the size invariant when the block has `sizeof(T)` bytes, and address uniqueness when it was not pooled |
| GcManager.Pool.PushUnusedMemArray | tiny_gc.hpp:136-144 | the same for the floor bucket of `count * sizeof(T) + 8` |
| GcManager.Pool.Collect | tiny_gc.hpp:146-163 | frees buckets 0..31 in order, each from its top down (`DrainOrder` of the old contents over buckets 0 to 31), and leaves every bucket empty |
| GcManager.Pool.Destroy | tiny_gc.hpp:100-103 | the pool's destructor has the effect of `collect` |
| Collector.DeleteObject | tiny_gc.hpp:172-178 | one destructor call, then the block goes on top of the floor bucket of `sizeof(T)`; keeps both invariants for a block that fits and is not pooled |
| Collector.DeleteArray | tiny_gc.hpp:187-195 | destroys elements `0..count-1` in order, with the count read from the header, then pushes the header address onto the floor bucket of `count * sizeof(T) + 8` |
| Collector.MakeGc | tiny_gc.hpp:199-203 | on a hit, the object goes into the top block of the ceiling bucket of `sizeof(T)`; on a miss, into a fresh `sizeof(T)`-byte block; the block fits the object and is owned by the handle alone, on a hit whatever `freshId` is, and on a miss when `freshId` was not pooled |
| Collector.MakeGcArray | tiny_gc.hpp:204-209 | the same for arrays of an element type with a non-trivial destructor, whose header word array `new` sets to `elementCount`, placement array `new` on a hit included (see Left out for trivially destructible elements and for compilers that write no count on placement array `new`) |
| Collector.ObjectRoundTrip | tiny_gc.hpp:105-134 | with the ceiling bucket empty, a freshly made and released object is found again by the next request of the same size exactly when the size is a power of two |
| Collector.ThreeElementArray | tiny_gc.hpp:187-209 | making and releasing a 3-element array of 8-byte elements destroys elements 0, 1, 2 and leaves the block, header 3, on top of bucket 5 |
| Collector.CollectThenTake | tiny_gc.hpp:146-163 | after `collect` frees exactly the pooled blocks, the next take for any size returns null |

## Left out

- The per-bucket mutexes and `gc_lock`: every operation is one sequential, atomic step.
- `malloc`, `free`, `new`, placement `new` and the debug `operator new`/`delete` hooks.
  - A block is an abstract address with a size.
  - A fresh allocation's address is a parameter (`freshId`).
  - Freeing is the block's place in the sequence `Collect` returns.
  - The values built by constructors and the constructor arguments are not modelled.
- The factories never model allocation failure. In the source, `new` throws and the pool does not handle it.
- `GC_LOG` output and the commented-out allocator code.
- The reference counting inside `shared_ptr` and `unique_ptr`, and the converting constructors of the deleters. Only what each deleter's `operator()` does is modelled. `make_gc_unique` and `make_gc_shared` have the same body, so one method models both, with an `Ownership` parameter.
- Reuse-rate counters: the header does not define them.
- The demo program and the benchmark program.
- Integer width.
  - Sizes and counts are unbounded naturals; the `int` overflow of `count * sizeof(T) + 8` is not modelled.
  - `1 << index` is `2^index` without the `int` overflow at index 31.
  - `BucketCount` is 32 for a 32-bit `int`. `HeaderSize` is 8, for a 64-bit `uintptr_t`.
  - Bucket indices at or above 32 are excluded by `requires`. The scalar paths reject them with a static assertion, and `push_unused_mem` for arrays with a runtime assertion. `take_mem_out` for arrays does not check them at all; the model requires the index to be in range.
- Collector.DeleteArray: requires the block to carry a header word. The source reads the word before the data pointer. That word is the compiler's array cookie, which array `new` writes only for element types with a non-trivial destructor. For trivially destructible elements the deleter reads a word that is not a header; the model does not capture that case.
- Collector.MakeGcArray: assumes an element type with a non-trivial destructor. Only for such a type does array `new` write the element count into the word before the elements, so only then does `header == Some(elementCount)` hold. For a trivially destructible element type no count is written and the block's first word is left as it was. The arrays this repository's own programs make through the factories, or place in blocks from the array `take_mem_out`, fall in that left-out case. The demo makes `uintptr_t` arrays that way (`example.cpp`, lines 34-39 and 47-49). The benchmark builds `char` arrays with placement `new` in such blocks and gives them to `gc_unique_ptr<char[]>` (`test.reuse_rate.cpp`, lines 113, 130 and 134). The arrays the demo allocates directly with `new A[3]` and gives to `gc_shared_ptr<A[]>`, `gc_unique_ptr<A[]>` and a `unique_ptr` with the array deleter (`example.cpp`, lines 22, 25 and 30) are the modelled case: `A` has a user-provided destructor (`example.cpp`, lines 9-12), so the count is written, and 3 elements of 8 bytes plus the header make 32 bytes, bucket 5 (`ThreeWordArray`).
- Collector.MakeGcArray: on a hit, assumes that placement array `new` (tiny_gc.hpp:208) also writes the element count in front of the elements, as Microsoft's compiler does (the header relies on that toolchain anyway through `_NODISCARD`). Under the Itanium C++ ABI (GCC, Clang) the non-allocating placement `operator new[]` gets no count word, so the elements start at the block's first byte. The array deleter (tiny_gc.hpp:192-194) then reads the word just before the block as the count, runs that many destructors, and pushes the address 8 bytes before the block; `collect` later frees that address, which the allocator never returned. The model does not capture this mismatch between the header offset and the block's start.
- Collector.MakeGc: does not model a constructor that throws. When the pool had a block (tiny_gc.hpp:202), the block is already popped from its bucket (tiny_gc.hpp:111) when placement `new` runs. If the constructor then throws, no smart pointer owns the block and it is not pushed back, so it is lost to the pool and `collect` never frees it. The same holds for `Collector.MakeGcArray` when an element constructor throws (tiny_gc.hpp:208, popped at line 122). On a miss, `new` releases its own allocation and nothing is lost.
- A scalar constructed in a reused block leaves that block's `header` field as it was. Only the array deleter reads it, and only after an array `new` has rewritten it.
