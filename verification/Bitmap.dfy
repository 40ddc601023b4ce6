/** The frame bitmap's bit operations (pmm.c:128-138) and its 64-frames-at-a-time view. */
module Bitmap {
  /** `get_bitmap_bit` on one byte. */
  predicate BitOf(b: bv8, k: nat)
    requires k < 8
  {
    (b >> k) & 1 == 1
  }

  /** `set_bitmap_bit` on one byte. */
  function SetIn(b: bv8, k: nat): (r: bv8)
    requires k < 8
    ensures forall j: nat :: j < 8 ==> (BitOf(r, j) <==> j == k || BitOf(b, j))
  {
    SetInBits(b, k);
    b | (1 << k)
  }

  /** `unset_bitmap_bit` on one byte. */
  function ClearIn(b: bv8, k: nat): (r: bv8)
    requires k < 8
    ensures forall j: nat :: j < 8 ==> (BitOf(r, j) <==> j != k && BitOf(b, j))
  {
    ClearInBits(b, k);
    b & ((254 << k) | ((1 << k) - 1))
  }

  lemma SetInBits(b: bv8, k: nat)
    requires k < 8
    ensures forall j: nat :: j < 8 ==> (BitOf(b | (1 << k), j) <==> j == k || BitOf(b, j))
  {
    forall j: nat | j < 8 ensures BitOf(b | (1 << k), j) <==> j == k || BitOf(b, j) {
      SetInBit(b, k, j);
    }
  }

  lemma ClearInBits(b: bv8, k: nat)
    requires k < 8
    ensures forall j: nat :: j < 8 ==> (BitOf(b & ((254 << k) | ((1 << k) - 1)), j) <==> j != k && BitOf(b, j))
  {
    forall j: nat | j < 8 ensures BitOf(b & ((254 << k) | ((1 << k) - 1)), j) <==> j != k && BitOf(b, j) {
      ClearInBit(b, k, j);
    }
  }

  lemma SetInBit(b: bv8, k: nat, j: nat)
    requires k < 8 && j < 8
    ensures BitOf(b | (1 << k), j) <==> j == k || BitOf(b, j)
  {
    assert k == 0 || k == 1 || k == 2 || k == 3 || k == 4 || k == 5 || k == 6 || k == 7;
    assert j == 0 || j == 1 || j == 2 || j == 3 || j == 4 || j == 5 || j == 6 || j == 7;
  }

  /** The mask the code builds is everything but bit `k`. */
  lemma ClearMask(k: nat)
    requires k < 8
    ensures ((254 as bv8) << k) | (((1 as bv8) << k) - 1) == !((1 as bv8) << k)
  {
    assert k == 0 || k == 1 || k == 2 || k == 3 || k == 4 || k == 5 || k == 6 || k == 7;
  }

  lemma ClearInBit(b: bv8, k: nat, j: nat)
    requires k < 8 && j < 8
    ensures BitOf(b & ((254 << k) | ((1 << k) - 1)), j) <==> j != k && BitOf(b, j)
  {
    ClearMask(k);
    AndBit(b, !((1 as bv8) << k), j);
    NotBit(k, j);
  }

  lemma AndBit(b: bv8, m: bv8, j: nat)
    requires j < 8
    ensures BitOf(b & m, j) <==> BitOf(b, j) && BitOf(m, j)
  {
    if j < 2 { AndBits01(b, m, j); } else if j < 4 { AndBits23(b, m, j); }
    else if j < 6 { AndBits45(b, m, j); } else { AndBits67(b, m, j); }
  }

  lemma AndBits01(b: bv8, m: bv8, j: nat)
    requires 0 <= j <= 1
    ensures BitOf(b & m, j) <==> BitOf(b, j) && BitOf(m, j)
  {
    assert j == 0 || j == 1;
  }

  lemma AndBits23(b: bv8, m: bv8, j: nat)
    requires 2 <= j <= 3
    ensures BitOf(b & m, j) <==> BitOf(b, j) && BitOf(m, j)
  {
    assert j == 2 || j == 3;
  }

  lemma AndBits45(b: bv8, m: bv8, j: nat)
    requires 4 <= j <= 5
    ensures BitOf(b & m, j) <==> BitOf(b, j) && BitOf(m, j)
  {
    assert j == 4 || j == 5;
  }

  lemma AndBits67(b: bv8, m: bv8, j: nat)
    requires 6 <= j <= 7
    ensures BitOf(b & m, j) <==> BitOf(b, j) && BitOf(m, j)
  {
    assert j == 6 || j == 7;
  }

  lemma NotBit(k: nat, j: nat)
    requires k < 8 && j < 8
    ensures BitOf(!((1 as bv8) << k), j) <==> j != k
  {
    assert k == 0 || k == 1 || k == 2 || k == 3 || k == 4 || k == 5 || k == 6 || k == 7;
    assert j == 0 || j == 1 || j == 2 || j == 3 || j == 4 || j == 5 || j == 6 || j == 7;
  }

  lemma FullByte(b: bv8)
    ensures b == 0xFF <==> forall j: nat :: j < 8 ==> BitOf(b, j)
  {
    if forall j: nat :: j < 8 ==> BitOf(b, j) {
      assert BitOf(b, 0) && BitOf(b, 1) && BitOf(b, 2) && BitOf(b, 3);
      assert BitOf(b, 4) && BitOf(b, 5) && BitOf(b, 6) && BitOf(b, 7);
    }
  }

  /** `bitmap64[w]`: eight bytes read as one little-endian word. */
  function Word64(b: seq<bv8>): bv64
    requires |b| == 8
  {
    (b[0] as bv64) | ((b[1] as bv64) << 8) | ((b[2] as bv64) << 16) | ((b[3] as bv64) << 24) |
    ((b[4] as bv64) << 32) | ((b[5] as bv64) << 40) | ((b[6] as bv64) << 48) | ((b[7] as bv64) << 56)
  }

  lemma FullWord(b: seq<bv8>)
    requires |b| == 8
    ensures Word64(b) == 0xFFFF_FFFF_FFFF_FFFF <==> forall i :: 0 <= i < 8 ==> b[i] == 0xFF
  {
    FullWordBytes(b[0], b[1], b[2], b[3], b[4], b[5], b[6], b[7]);
  }

  lemma FullWordBytes(b0: bv8, b1: bv8, b2: bv8, b3: bv8, b4: bv8, b5: bv8, b6: bv8, b7: bv8)
    ensures (b0 as bv64) | ((b1 as bv64) << 8) | ((b2 as bv64) << 16) | ((b3 as bv64) << 24) |
            ((b4 as bv64) << 32) | ((b5 as bv64) << 40) | ((b6 as bv64) << 48) | ((b7 as bv64) << 56)
            == 0xFFFF_FFFF_FFFF_FFFF
            <==> b0 == 0xFF && b1 == 0xFF && b2 == 0xFF && b3 == 0xFF &&
                 b4 == 0xFF && b5 == 0xFF && b6 == 0xFF && b7 == 0xFF
  {
  }
}
