/** `memset` (`common/stdstr.c`): byte writes up to an 8-byte boundary, then words, then bytes. */
module MemSet {
  import opened Seqs

  /** The word the middle loop writes (lines 209-212). */
  function Pattern64(p: bv8): bv64 {
    var a := p as bv64;
    var b := a | (a << 8);
    var c := b | (b << 16);
    c | (c << 32)
  }

  /** Byte `k` of a word, the least significant first. */
  function ByteOf(w: bv64, k: nat): bv8
    requires k < 8
  {
    Low(if k == 0 then w else if k == 1 then w >> 8 else if k == 2 then w >> 16 else if k == 3 then w >> 24
        else if k == 4 then w >> 32 else if k == 5 then w >> 40 else if k == 6 then w >> 48 else w >> 56)
  }

  function Low(w: bv64): bv8 { (w & 0xFF) as bv8 }

  /** Every byte of that word is the pattern. */
  lemma {:induction false} PatternBytes(p: bv8, k: nat)
    requires k < 8
    ensures ByteOf(Pattern64(p), k) == p
  {
    var w := Pattern64(p);
    assert Low(w) == p && Low(w >> 8) == p && Low(w >> 16) == p && Low(w >> 24) == p;
    assert Low(w >> 32) == p && Low(w >> 40) == p && Low(w >> 48) == p && Low(w >> 56) == p;
  }

  /** A 64-bit store. */
  method Store64(mem: array<bv8>, at: nat, w: bv64)
    requires at + 8 <= mem.Length
    modifies mem
    ensures forall i :: 0 <= i < mem.Length ==> mem[i] == if at <= i < at + 8 then ByteOf(w, i - at) else old(mem[i])
  {
    for k := 0 to 8
      invariant forall i ::
        0 <= i < mem.Length ==> mem[i] == if at <= i < at + k then ByteOf(w, i - at) else old(mem[i])
    {
      mem[at + k] := ByteOf(w, k);
    }
  }

  /** `memset`: whatever the alignment and size, exactly the bytes asked for are set. */
  method Memset(mem: array<bv8>, start: nat, pattern: bv8, size: nat)
    requires start + size <= mem.Length
    modifies mem
    ensures mem[..] == Filled(old(mem[..]), start, size, pattern)
  {
    var ptr: nat, left: nat := start, size;
    while ptr % 8 != 0 && 0 < left
      invariant start <= ptr && ptr + left == start + size
      invariant mem[..] == Filled(old(mem[..]), start, ptr - start, pattern)
      decreases left
    {
      mem[ptr] := pattern;
      ptr, left := ptr + 1, left - 1;
    }
    while left >= 8
      invariant start <= ptr && ptr + left == start + size
      invariant mem[..] == Filled(old(mem[..]), start, ptr - start, pattern)
    {
      ghost var before := mem[..];
      Store64(mem, ptr, Pattern64(pattern));
      forall i | ptr <= i < ptr + 8 ensures mem[i] == pattern { PatternBytes(pattern, i - ptr); }
      assert mem[..] == Filled(before, ptr, 8, pattern);
      ptr, left := ptr + 8, left - 8;
    }
    while left > 0
      invariant start <= ptr && ptr + left == start + size
      invariant mem[..] == Filled(old(mem[..]), start, ptr - start, pattern)
    {
      mem[ptr] := pattern;
      ptr, left := ptr + 1, left - 1;
    }
  }
}
