/** Which bucket serves a request (`memory/kmalloc.c:301-323`), and how a page is cut into blocks. */
module Buckets {
  import opened Arith

  const BUCKETS: nat := 7
  const LARGE: nat := 255           // served in whole pages
  const DESCRIPTOR: nat := 32       // sizeof(kmalloc_page_descriptor_t)
  const PAGE_SIZE: nat := 4096

  function Pow2(k: nat): (r: nat)
    ensures r > 0
  {
    if k == 0 then 1 else 2 * Pow2(k - 1)
  }

  /** `64 - __builtin_clzll(n)`: the number of bits of `n`. */
  function BitLength(n: nat): nat {
    if n == 0 then 0 else 1 + BitLength(n / 2)
  }

  /** `__builtin_ctzll(n)`. */
  function TrailingZeros(n: nat): nat
    requires n > 0
  {
    if n % 2 == 1 then 0 else 1 + TrailingZeros(n / 2)
  }

  /** `get_bucket_from_size`. */
  function BucketOf(size: nat): int
    requires 0 < size
  {
    if size > 1024 then LARGE
    else if size < 16 then 0
    else
      var leading, trailing := 64 - BitLength(size), TrailingZeros(size);
      if leading + trailing + 1 == 64 then trailing - 4 else BitLength(size) - 4
  }

  /** The block size of a bucket (kmalloc_init). */
  function BlockSize(b: nat): nat { 16 * Pow2(b) }

  lemma {:induction false} BitLengthBounds(n: nat)
    requires n > 0
    ensures BitLength(n) > 0 && Pow2(BitLength(n) - 1) <= n < Pow2(BitLength(n))
  {
    if n > 1 { BitLengthBounds(n / 2); }
  }

  lemma {:induction false} TrailingDivides(n: nat)
    requires n > 0
    ensures TrailingZeros(n) < BitLength(n)
    ensures TrailingZeros(n) + 1 == BitLength(n) <==> n == Pow2(BitLength(n) - 1)
  {
    if n % 2 == 0 { TrailingDivides(n / 2); }
    else if n > 1 { BitLengthBounds(n / 2); }
  }

  lemma {:induction false} Pow2Mono(a: nat, b: nat)
    requires a <= b
    ensures Pow2(a) <= Pow2(b)
    decreases b
  {
    if a < b { Pow2Mono(a, b - 1); }
  }

  lemma {:induction false} Pow2Shift(k: nat)
    requires k >= 4
    ensures Pow2(k) == BlockSize(k - 4)
  {
    if k > 4 { Pow2Shift(k - 1); }
  }

  /** The bucket picked is the smallest one whose blocks hold the request; none does above 1024 bytes. */
  lemma {:induction false} BucketFits(size: nat)
    requires size > 0
    ensures var b := BucketOf(size);
      if size > 1024 then b == LARGE
      else 0 <= b < BUCKETS && size <= BlockSize(b) && (b > 0 ==> BlockSize(b - 1) < size)
  {
    if 16 <= size <= 1024 {
      var len := BitLength(size);
      LengthRange(size);
      BitLengthBounds(size);
      TrailingDivides(size);
      Pow2Shift(len - 1);
      Pow2Shift(len);
      if TrailingZeros(size) + 1 == len {
        assert BucketOf(size) == len - 5;
        if len > 5 { assert BlockSize(len - 5) == 2 * BlockSize(len - 6); }
      } else {
        assert BucketOf(size) == len - 4;
      }
    }
  }

  lemma {:induction false} LengthRange(size: nat)
    requires 16 <= size <= 1024
    ensures 5 <= BitLength(size) <= 11 && (BitLength(size) == 11 ==> size == 1024 == Pow2(10))
  {
    var len := BitLength(size);
    BitLengthBounds(size);
    Powers();
    if len < 5 { Pow2Mono(len, 4); }
    if len > 11 { Pow2Mono(11, len - 1); }
  }

  lemma {:induction false} Powers()
    ensures Pow2(4) == 16 && Pow2(10) == 1024
  {
    assert Pow2(2) == 4;
    assert Pow2(4) == 16;
    assert Pow2(6) == 64;
    assert Pow2(8) == 256;
  }
}
