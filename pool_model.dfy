/** Values the pool works with: raw blocks, the per-bucket stacks seen as
    sequences (last element = most recently pushed), the order in which
    `collect` frees them, and the size invariant of the buckets. */
module PoolModel {
  import opened BitIndex
  import opened SizeClass

  datatype Option<T> = None | Some(value: T)

  /** A raw memory block: its address `id`, the number of bytes allocated for
      it, and the word at its start when an array was last constructed in it
      (the element count that array `new` writes in front of the elements). */
  datatype Block = Block(id: nat, size: nat, header: Option<nat>)

  function Last(s: seq<Block>): (r: Block)
    requires s != []
  {
    s[|s| - 1]
  }

  function WithoutLast(s: seq<Block>): (r: seq<Block>)
    requires s != []
  {
    s[..|s| - 1]
  }

  /** The size invariant: every block sitting in bucket b has at least 2^b bytes. */
  ghost predicate AllFit(buckets: seq<seq<Block>>)
  {
    forall b, i :: 0 <= b < |buckets| && 0 <= i < |buckets[b]| ==> Pow2(b) <= buckets[b][i].size
  }

  /** Taking from the ceiling bucket of `bytes` yields a block of at least
      `bytes` bytes and leaves the invariant in place. */
  lemma TakeKeepsFit(buckets: seq<seq<Block>>, bytes: nat)
    requires AllFit(buckets) && bytes >= 1 && CeilBucket(bytes) < |buckets|
    requires buckets[CeilBucket(bytes)] != []
    ensures Last(buckets[CeilBucket(bytes)]).size >= bytes
    ensures AllFit(buckets[CeilBucket(bytes) := WithoutLast(buckets[CeilBucket(bytes)])])
  {
    var c := CeilBucket(bytes);
    assert Pow2(c) <= buckets[c][|buckets[c]| - 1].size;
  }

  /** Returning a block of at least `bytes` bytes to the floor bucket of
      `bytes` keeps the invariant. */
  lemma PushKeepsFit(buckets: seq<seq<Block>>, blk: Block, bytes: nat)
    requires AllFit(buckets) && bytes >= 1 && FloorBucket(bytes) < |buckets|
    requires bytes <= blk.size
    ensures AllFit(buckets[FloorBucket(bytes) := buckets[FloorBucket(bytes)] + [blk]])
  {
  }

  /** Some bucket holds a block at address `id`. */
  ghost predicate InPool(buckets: seq<seq<Block>>, id: nat)
  {
    exists b, i :: 0 <= b < |buckets| && 0 <= i < |buckets[b]| && buckets[b][i].id == id
  }

  /** No address sits in the pool twice (no block was released twice). */
  ghost predicate NoAlias(buckets: seq<seq<Block>>)
  {
    forall b, i, b', i' ::
      0 <= b < |buckets| && 0 <= i < |buckets[b]| && 0 <= b' < |buckets| && 0 <= i' < |buckets[b']|
      && buckets[b][i].id == buckets[b'][i'].id
      ==> b == b' && i == i'
  }

  /** A pool with every bucket empty meets both invariants. */
  lemma EmptyKeepsInvariants(buckets: seq<seq<Block>>)
    requires forall b :: 0 <= b < |buckets| ==> buckets[b] == []
    ensures AllFit(buckets) && NoAlias(buckets)
  {
  }

  /** A popped block is no longer in the pool, so it is owned by the caller alone. */
  lemma TakeKeepsNoAlias(buckets: seq<seq<Block>>, c: nat)
    requires NoAlias(buckets) && c < |buckets| && buckets[c] != []
    ensures NoAlias(buckets[c := WithoutLast(buckets[c])])
    ensures !InPool(buckets[c := WithoutLast(buckets[c])], Last(buckets[c]).id)
  {
    var after := buckets[c := WithoutLast(buckets[c])];
    forall b, i | 0 <= b < |after| && 0 <= i < |after[b]|
      ensures after[b][i] == buckets[b][i] && after[b][i].id != Last(buckets[c]).id
    {
      assert i < |buckets[b]|;
    }
  }

  /** Pushing a block that is not already pooled keeps every address unique. */
  lemma PushKeepsNoAlias(buckets: seq<seq<Block>>, f: nat, blk: Block)
    requires NoAlias(buckets) && f < |buckets| && !InPool(buckets, blk.id)
    ensures NoAlias(buckets[f := buckets[f] + [blk]])
    ensures InPool(buckets[f := buckets[f] + [blk]], blk.id)
  {
    var after := buckets[f := buckets[f] + [blk]];
    assert after[f][|buckets[f]|] == blk;
    forall b, i | 0 <= b < |after| && 0 <= i < |after[b]|
      ensures if b == f && i == |buckets[f]| then after[b][i] == blk
              else i < |buckets[b]| && after[b][i] == buckets[b][i]
    {
    }
  }

  /** The stack read from its top: most recently pushed first. */
  function Reversed(s: seq<Block>): (r: seq<Block>)
    ensures |r| == |s|
  {
    if s == [] then [] else Reversed(s[1..]) + [s[0]]
  }

  lemma {:induction false} ReversedAt(s: seq<Block>, k: nat)
    requires k < |s|
    ensures Reversed(s)[k] == s[|s| - 1 - k]
  {
    if k < |s| - 1 {
      ReversedAt(s[1..], k);
    }
  }

  lemma {:induction false} ReversedMultiset(s: seq<Block>)
    ensures multiset(Reversed(s)) == multiset(s)
  {
    if s != [] {
      ReversedMultiset(s[1..]);
      assert s == [s[0]] + s[1..];
    }
  }

  /** The blocks sitting in buckets `lo` up to (excluding) `hi`, counted
      with multiplicity. */
  function Pooled(buckets: seq<seq<Block>>, lo: nat, hi: nat): (r: multiset<Block>)
    requires lo <= hi <= |buckets|
    decreases hi
  {
    if hi == lo then multiset{}
    else Pooled(buckets, lo, hi - 1) + multiset(buckets[hi - 1])
  }

  /** Order in which `collect` frees the blocks of buckets `lo` up to
      (excluding) `hi`: buckets in ascending index order, each one from its
      most recently pushed block down. Every block of those buckets is freed,
      each exactly as often as it is pooled. */
  function DrainOrder(buckets: seq<seq<Block>>, lo: nat, hi: nat): (r: seq<Block>)
    requires lo <= hi <= |buckets|
    ensures multiset(r) == Pooled(buckets, lo, hi)
    decreases hi
  {
    if hi == lo then []
    else
      ReversedMultiset(buckets[hi - 1]);
      DrainOrder(buckets, lo, hi - 1) + Reversed(buckets[hi - 1])
  }

  /** Everything from the buckets below `mid` is freed before anything from
      bucket `mid` or above. */
  lemma {:induction false} DrainOrderSplit(buckets: seq<seq<Block>>, lo: nat, mid: nat, hi: nat)
    requires lo <= mid <= hi <= |buckets|
    ensures DrainOrder(buckets, lo, hi) == DrainOrder(buckets, lo, mid) + DrainOrder(buckets, mid, hi)
    decreases hi
  {
    if hi == mid {
      assert DrainOrder(buckets, lo, mid) + [] == DrainOrder(buckets, lo, mid);
    } else {
      DrainOrderSplit(buckets, lo, mid, hi - 1);
      ConcatAssoc(DrainOrder(buckets, lo, mid), DrainOrder(buckets, mid, hi - 1), Reversed(buckets[hi - 1]));
    }
  }

  lemma ConcatAssoc(a: seq<Block>, b: seq<Block>, c: seq<Block>)
    ensures (a + b) + c == a + (b + c)
  {
  }
}
