/** The bit-length helper of the `private_space` namespace, in its two forms:
    the compile-time template `hightest_bit_index<N, Index>()` and the runtime
    overload `hightest_bit_index(n, index)`. Both count how many times the
    argument can be halved before it reaches zero, starting from `index`. */
module BitIndex {

  /** 2^k, the capacity of bucket k. */
  function Pow2(k: nat): (r: nat)
    ensures r >= 1
  {
    if k == 0 then 1 else 2 * Pow2(k - 1)
  }

  /** C++ integer division by two, which truncates toward zero (Dafny's `/`
      rounds toward negative infinity for a negative dividend and a positive
      divisor). */
  function TruncDiv2(n: int): (r: int)
    ensures n >= 0 ==> 2 * r <= n <= 2 * r + 1
    ensures n < 0 ==> 2 * r - 1 <= n <= 2 * r
  {
    if n >= 0 then n / 2 else -((-n) / 2)
  }

  /** The template form `hightest_bit_index<N, Index>()`: recurses on `N / 2`
      while `0 < N`, so it returns `Index` at once for any `N <= 0`. */
  function HighestBitIndexConst(n: int, index: int := 0): (r: int)
    ensures r >= index
    ensures r == index <==> n <= 0
    decreases if n > 0 then n else 0
  {
    if 0 < n then HighestBitIndexConst(n / 2, index + 1) else index
  }

  /** The runtime overload `hightest_bit_index(n, index)`: recurses while `n`
      is non-zero, halving with C++ truncation, so it returns `index` for 0
      and more than `index` for any other argument, negative ones included. */
  function HighestBitIndex(n: int, index: int := 0): (r: int)
    ensures r >= index
    ensures r == index <==> n == 0
    decreases if n >= 0 then n else -n
  {
    if n != 0 then HighestBitIndex(TruncDiv2(n), index + 1) else index
  }

  /** Powers of two are strictly increasing, so they order exponents. */
  lemma {:induction false} Pow2Monotone(a: nat, b: nat)
    ensures a < b <==> Pow2(a) < Pow2(b)
  {
    if a > 0 && b > 0 {
      Pow2Monotone(a - 1, b - 1);
    }
  }

  /** The accumulator only shifts the result. */
  lemma {:induction false} HighestBitIndexShift(n: int, index: int)
    ensures HighestBitIndex(n, index) == index + HighestBitIndex(n)
    decreases if n >= 0 then n else -n
  {
    if n != 0 {
      HighestBitIndexShift(TruncDiv2(n), index + 1);
      HighestBitIndexShift(TruncDiv2(n), 1);
    }
  }

  /** hightest_bit_index(n) is the bit length of n: 0 for 0, and for n >= 1
      the r with 2^(r-1) <= n < 2^r. */
  lemma {:induction false} BitLengthBounds(n: nat)
    ensures n == 0 ==> HighestBitIndex(n) == 0
    ensures n >= 1 ==>
      HighestBitIndex(n) >= 1 && Pow2(HighestBitIndex(n) - 1) <= n < Pow2(HighestBitIndex(n))
  {
    if n >= 1 {
      HighestBitIndexShift(n / 2, 1);
      if n / 2 >= 1 {
        BitLengthBounds(n / 2);
      }
    }
  }

  /** The bounds determine the bit length: no other r fits them. */
  lemma BitLengthUnique(n: nat, k: nat)
    requires Pow2(k) <= n < Pow2(k + 1)
    ensures HighestBitIndex(n) == k + 1
  {
    BitLengthBounds(n);
    var r: nat := HighestBitIndex(n);
    Pow2Monotone(k, r);
    Pow2Monotone(r - 1, k + 1);
  }

  /** The template and the runtime overload agree exactly on the non-negative
      arguments; on a negative one the template stops at once while the
      runtime form keeps halving toward zero. */
  lemma {:induction false} ConstMatchesRuntime(n: int, index: int)
    ensures HighestBitIndexConst(n, index) == HighestBitIndex(n, index) <==> n >= 0
    decreases if n > 0 then n else 0
  {
    if n > 0 {
      ConstMatchesRuntime(n / 2, index + 1);
    }
  }
}
