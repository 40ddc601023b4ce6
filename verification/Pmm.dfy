/** The physical frame allocator (`memory/pmm.c`): an aligned first-fit scan over a bitmap. */
module Pmm {
  import opened Arith
  import opened Bitmap
  import opened PageEntry
  import opened Seqs

  const FRAME_SIZE: nat := 4096

  datatype Option<T> = None | Some(value: T)

  // ----- what the scan looks for -----

  /** Frames `base` to `base + count` are in range and free. `u` tells which frames are used. */
  ghost predicate RunFree(u: seq<bool>, base: nat, count: nat) {
    base + count <= |u| && forall i :: base <= i < base + count ==> !u[i]
  }

  /** The plain scan: try every multiple of `step` from `base` on. */
  ghost function FirstFit(u: seq<bool>, base: nat, count: nat, step: nat): (r: Option<nat>)
    requires step > 0
    decreases |u| - base
  {
    if base >= |u| then None
    else if RunFree(u, base, count) then Some(base)
    else FirstFit(u, base + step, count, step)
  }

  /** The scan finds the lowest aligned base of a free run, and nothing exactly when there is none. */
  lemma {:induction false} FirstFitIsLowest(u: seq<bool>, base: nat, count: nat, step: nat)
    requires step > 0 && count > 0 && base % step == 0
    ensures match FirstFit(u, base, count, step)
      case Some(b) =>
        && base <= b && b % step == 0 && RunFree(u, b, count)
        && (forall a: nat :: base <= a < b && a % step == 0 ==> !RunFree(u, a, count))
      case None => forall a: nat :: base <= a && a % step == 0 ==> !RunFree(u, a, count)
    decreases |u| - base
  {
    if base < |u| && !RunFree(u, base, count) {
      NextMultiple(base, step);
      FirstFitIsLowest(u, base + step, count, step);
      forall a: nat | base <= a && a % step == 0 && RunFree(u, a, count) ensures base + step <= a {
        MultipleGap(base, a, step);
      }
    }
  }

  /** Bases that cannot work may be skipped. */
  lemma {:induction false} FirstFitSkip(u: seq<bool>, base: nat, next: nat, count: nat, step: nat)
    requires step > 0 && base % step == 0 && next % step == 0 && base <= next
    requires forall a: nat :: base <= a < next && a % step == 0 ==> !RunFree(u, a, count)
    ensures FirstFit(u, base, count, step) == FirstFit(u, next, count, step)
    decreases next - base
  {
    if base < next {
      NextMultiple(base, step);
      MultipleGap(base, next, step);
      FirstFitSkip(u, base + step, next, count, step);
      if base >= |u| { FirstFitPast(u, base + step, count, step); }
    }
  }

  lemma {:induction false} FirstFitPast(u: seq<bool>, base: nat, count: nat, step: nat)
    requires step > 0 && base >= |u|
    ensures FirstFit(u, base, count, step) == None
  {
  }

  /** Once a run would leave the range, so would every later one. */
  lemma {:induction false} FirstFitPastEnd(u: seq<bool>, base: nat, count: nat, step: nat)
    requires step > 0 && base + count > |u|
    ensures FirstFit(u, base, count, step) == None
    decreases |u| - base
  {
    if base < |u| { FirstFitPastEnd(u, base + step, count, step); }
  }

  datatype FreeResult =
    | Freed
    | OutOfRange          // panic: the run ends past the last frame
    | DoubleFree(at: nat) // panic: this frame was free already

  lemma {:induction false} ByteInWord(base: nat, i: nat) returns (k: nat)
    requires base % 64 == 0 && base <= i < base + 64
    ensures k < 8 && i / 8 == base / 8 + k
  {
    var q, d := base / 64, i - base;
    DivModUnique(base, 8, 8 * q, 0);
    DivModUnique(i, 8, 8 * q + d / 8, d % 8);
    k := d / 8;
  }

  lemma {:induction false} WordFits(base: nat, frames: nat)
    requires base % 64 == 0 && base < frames
    ensures base / 8 + 8 <= (frames + 63) / 64 * 8
  {
    var q := base / 64;
    DivModUnique(base, 8, 8 * q, 0);
    assert (frames + 63) / 64 >= q + 1;
  }

  class FrameAllocator {
    const bitmap: array<bv8>
    const frames: nat         // bitmap_size_frames
    const ram: array2<Entry>  // physical memory: 512 words per frame
    var used: nat             // memory_used_frame_count

    constructor (bitmap: array<bv8>, frames: nat, ram: array2<Entry>, used: nat)
      requires (frames + 63) / 64 * 8 <= bitmap.Length && ram.Length0 == frames && ram.Length1 == WORDS
      ensures Valid() && this.bitmap == bitmap && this.frames == frames && this.ram == ram && this.used == used
    {
      this.bitmap, this.frames, this.ram, this.used := bitmap, frames, ram, used;
    }

    /** The bitmap is readable in 64-bit words as far as its last frame. */
    ghost predicate Valid() {
      (frames + 63) / 64 * 8 <= bitmap.Length && ram.Length0 == frames && ram.Length1 == WORDS
    }

    /** `get_bitmap_bit`. */
    predicate GetBit(i: nat)
      requires Valid() && i < frames
      reads bitmap
    {
      BitOf(bitmap[i / 8], i % 8)
    }

    /** Which frames are in use. */
    ghost function Used(): (u: seq<bool>)
      requires Valid()
      reads bitmap
      ensures |u| == frames && forall i :: 0 <= i < frames ==> u[i] == GetBit(i)
    {
      seq(frames, i requires 0 <= i < frames reads bitmap => GetBit(i))
    }

    /** What physical memory holds. */
    ghost function Mem(): (m: Memory)
      requires Valid()
      reads ram
      ensures |m| == frames
      ensures forall f :: 0 <= f < frames ==> |m[f]| == WORDS
      ensures forall f, i :: 0 <= f < frames && 0 <= i < WORDS ==> m[f][i] == ram[f, i]
    {
      seq(frames, f requires 0 <= f < frames reads ram =>
        seq(WORDS, i requires 0 <= i < WORDS reads ram => ram[f, i]))
    }

    /** A store of one word through the direct map. */
    method Poke(f: nat, i: nat, e: Entry)
      requires Valid() && f < frames && i < WORDS
      modifies ram
      ensures Mem() == old(Stored(Mem(), f, i, e))
    {
      ghost var m := Stored(Mem(), f, i, e);
      ram[f, i] := e;
      assert forall g :: 0 <= g < frames ==> Mem()[g] == m[g];
    }

    /** `set_bitmap_bit`. */
    method SetBit(i: nat)
      requires Valid() && i < frames
      modifies bitmap
      ensures Used() == old(Used())[i := true]
    {
      bitmap[i / 8] := SetIn(bitmap[i / 8], i % 8);
    }

    /** `unset_bitmap_bit`. */
    method ClearBit(i: nat)
      requires Valid() && i < frames
      modifies bitmap
      ensures Used() == old(Used())[i := false]
    {
      bitmap[i / 8] := ClearIn(bitmap[i / 8], i % 8);
    }

    /** `pmm_zero_page`. */
    method ZeroPage(f: nat)
      requires Valid() && f < frames
      modifies ram
      ensures Mem() == old(Mem())[f := ZeroFrame()]
    {
      for k := 0 to WORDS
        invariant forall i :: 0 <= i < k ==> ram[f, i] == ZERO
        invariant forall g, i :: 0 <= g < frames && g != f && 0 <= i < WORDS ==> ram[g, i] == old(ram[g, i])
      {
        ram[f, k] := ZERO;
      }
      assert Mem()[f] == ZeroFrame();
      assert forall g :: 0 <= g < frames && g != f ==> Mem()[g] == old(Mem())[g];
    }

    /** Lines 75-89: how far a run of `count` free frames reaches from `base`. */
    method ProbeRun(base: nat, count: nat) returns (found: nat, past: bool)
      requires Valid() && base < frames
      ensures !past ==> (found == count <==> RunFree(Used(), base, count))
      ensures past ==> base + count > frames
    {
      found, past := 0, false;
      while found < count
        invariant found <= count && base + found <= frames
        invariant forall i :: base <= i < base + found ==> !Used()[i]
      {
        if base + found >= frames { return found, true; }
        if GetBit(base + found) { return; }
        found := found + 1;
      }
    }

    /** The bytes of the bitmap word for the frames from `base` on. */
    function WordAt(base: nat): (b: seq<bv8>)
      requires Valid() && base < frames && base % 64 == 0
      reads bitmap
      ensures |b| == 8 && base / 8 + 8 <= bitmap.Length && forall k :: 0 <= k < 8 ==> b[k] == bitmap[base / 8 + k]
    {
      WordFits(base, frames);
      bitmap[base / 8..base / 8 + 8]
    }

    /** Line 59: all 64 frames of the word at `base` are in use. */
    predicate WordFull(base: nat)
      requires Valid() && base < frames && base % 64 == 0
      reads bitmap
      ensures WordFull(base) ==> forall i :: base <= i < base + 64 && i < frames ==> Used()[i]
    {
      WordBits(base);
      Word64(WordAt(base)) == 0xFFFF_FFFF_FFFF_FFFF
    }

    lemma WordBits(base: nat)
      requires Valid() && base < frames && base % 64 == 0
      ensures Word64(WordAt(base)) == 0xFFFF_FFFF_FFFF_FFFF ==>
              forall i :: base <= i < base + 64 && i < frames ==> Used()[i]
    {
      var bytes := WordAt(base);
      FullWord(bytes);
      if Word64(bytes) == 0xFFFF_FFFF_FFFF_FFFF {
        forall i | base <= i < base + 64 && i < frames ensures Used()[i] {
          FullFrame(base, i);
        }
      }
    }

    lemma FullFrame(base: nat, i: nat)
      requires Valid() && base < frames && base % 64 == 0 && base <= i < base + 64 && i < frames
      requires forall k :: 0 <= k < 8 ==> WordAt(base)[k] == 0xFF
      ensures Used()[i]
    {
      var k := ByteInWord(base, i);
      assert WordAt(base)[k] == bitmap[i / 8];
      FullByte(bitmap[i / 8]);
    }

    /** The base the plain scan would pick. */
    ghost function Fit(count: nat, alignment: nat): (r: Option<nat>)
      requires Valid()
      reads bitmap
      ensures r.Some? ==> count > 0 && RunFree(Used(), r.value, count)
    {
      if count == 0 then None
      else
        FirstFitIsLowest(Used(), 0, count, StepOf(alignment));
        FirstFit(Used(), 0, count, StepOf(alignment))
    }

    /** Lines 92-97: the run is marked, zeroed and counted. */
    method TakeRun(base: nat, count: nat)
      requires Valid() && base + count <= frames
      modifies this`used, bitmap, ram
      ensures Used() == old(Filled(Used(), base, count, true)) && used == old(used) + count
      ensures Mem() == old(Filled(Mem(), base, count, ZeroFrame()))
    {
      for k := 0 to count
        invariant Used() == old(Filled(Used(), base, k, true)) && used == old(used) + k
        invariant Mem() == old(Filled(Mem(), base, k, ZeroFrame()))
      {
        SetBit(base + k);
        ZeroPage(base + k);
        used := used + 1;
      }
    }

    /** Lines 54-102: the scan, which passes over a full word of the bitmap at once. */
    method FindRun(count: nat, alignment: nat) returns (r: Option<nat>)
      requires Valid() && count > 0
      ensures r == Fit(count, alignment)
    {
      var step := StepOf(alignment);
      ghost var u := Used();
      var base := 0;
      while base < frames
        invariant base % step == 0
        invariant FirstFit(u, 0, count, step) == FirstFit(u, base, count, step)
        decreases frames - base
      {
        NextMultiple(base, step);
        if base % 64 == 0 && WordFull(base) {
          var next := base + 64;
          var remainder := next % step;
          if remainder != 0 { next := next + (step - remainder); }
          RoundUp(base + 64, step);
          FullWordSkip(u, base, next, count, step);
          base := next - step;
        } else {
          var found, past := ProbeRun(base, count);
          if past {
            FirstFitPastEnd(u, base, count, step);
            return None;
          }
          if found == count { return Some(base); }
        }
        base := base + step;
      }
      r := None;
    }

    /** `pmm_allocate_frames`: the address of the lowest aligned run of free frames. 0 stands for NULL,
    and is also what a run at frame 0 would be reported as. */
    method AllocateFrames(count: nat, alignment: nat) returns (addr: nat)
      requires Valid()
      modifies this`used, bitmap, ram
      ensures var fit := old(Fit(count, alignment));
        && (fit.None? ==> addr == 0 && Used() == old(Used()) && Mem() == old(Mem()) && used == old(used))
        && (fit.Some? ==>
              && addr == fit.value * FRAME_SIZE
              && Used() == old(Filled(Used(), fit.value, count, true)) && used == old(used) + count
              && Mem() == old(Filled(Mem(), fit.value, count, ZeroFrame())))
      ensures alignment > 0 && alignment % FRAME_SIZE == 0 ==> addr % alignment == 0
    {
      if count == 0 { return 0; }
      if alignment > 0 && alignment % FRAME_SIZE == 0 { FitAligned(Used(), count, alignment); }
      var base := FindRun(count, alignment);
      if base.None? { return 0; }
      TakeRun(base.value, count);
      addr := base.value * FRAME_SIZE;
    }

    /** What freeing frames `first` to `final` came to. */
    twostate predicate Cleared(first: nat, final: nat, r: FreeResult)
      requires Valid() && final <= frames
      reads bitmap
    {
      match r
      case Freed =>
        && (forall i :: first <= i < final ==> old(Used())[i])
        && Used() == if first < final then old(Filled(Used(), first, final - first, false)) else old(Used())
      case OutOfRange => false
      case DoubleFree(at) =>
        && first <= at < final && !old(Used())[at] && (forall i :: first <= i < at ==> old(Used())[i])
        && Used() == old(Filled(Used(), first, at - first, false))
    }

    /** Lines 117-125. */
    method ClearRun(first: nat, final: nat) returns (r: FreeResult)
      requires Valid() && final <= frames
      modifies bitmap
      ensures Cleared(first, final, r)
    {
      var i := first;
      while i < final
        invariant i >= first && (i == first || i <= final)
        invariant Used() == if first < final then old(Filled(Used(), first, i - first, false)) else old(Used())
        invariant forall k :: first <= k < i ==> old(Used())[k]
      {
        if !GetBit(i) { return DoubleFree(i); }
        ClearBit(i);
        i := i + 1;
      }
      r := Freed;
    }

    /** `pmm_free_frames`. The used-frame counter is not lowered. A panic ends the run where it is. The end of
    the run is a 64-bit sum: a count large enough to wrap it to a frame in range frees nothing. */
    method FreeFrames(addr: nat, count: nat) returns (r: FreeResult)
      requires Valid() && addr < U64 && count < U64
      modifies bitmap
      ensures var first := addr / FRAME_SIZE;
        if count == 0 then r == Freed && Used() == old(Used())
        else if (first + count) % U64 > frames then r == OutOfRange && Used() == old(Used())
        else if first + count >= U64 then r == Freed && Used() == old(Used())
        else first + count <= frames && Cleared(first, first + count, r)
    {
      if count == 0 { return Freed; }
      var first := addr / FRAME_SIZE;
      var final := (first + count) % U64;
      SumWraps(first, count);
      if final > frames { return OutOfRange; }
      r := ClearRun(first, final);
    }
  }

  /** Lines 42-44: the alignment in frames, at least one. */
  function StepOf(alignment: nat): (r: nat)
    ensures r > 0 && (alignment < 2 * FRAME_SIZE ==> r == 1)
    ensures alignment >= FRAME_SIZE ==> r * FRAME_SIZE <= alignment < r * FRAME_SIZE + FRAME_SIZE
  {
    (if alignment < FRAME_SIZE then FRAME_SIZE else alignment) / FRAME_SIZE
  }

  /** For an alignment of whole frames: the run found starts at the lowest address with that alignment at which a
  free run starts, and none is found exactly when there is no such address. */
  lemma {:induction false} FitAligned(u: seq<bool>, count: nat, alignment: nat)
    requires count > 0 && alignment > 0 && alignment % FRAME_SIZE == 0
    ensures match FirstFit(u, 0, count, StepOf(alignment))
      case Some(b) =>
        && b * FRAME_SIZE % alignment == 0 && RunFree(u, b, count)
        && forall addr: nat :: addr % alignment == 0 && addr < b * FRAME_SIZE ==> !RunFree(u, addr / FRAME_SIZE, count)
      case None => forall addr: nat :: addr % alignment == 0 ==> !RunFree(u, addr / FRAME_SIZE, count)
  {
    var step := StepOf(alignment);
    FirstFitIsLowest(u, 0, count, step);
    forall addr: nat | addr % alignment == 0 ensures addr / FRAME_SIZE % step == 0 && addr % FRAME_SIZE == 0 {
      AlignedFrame(addr, alignment, step);
    }
    match FirstFit(u, 0, count, step)
    case Some(b) => FrameAligned(b, alignment, step);
    case None =>
  }

  /** An aligned address is a frame with the alignment in frames, and back. */
  lemma {:induction false} AlignedFrame(addr: nat, alignment: nat, step: nat)
    requires step > 0 && alignment == FRAME_SIZE * step && addr % alignment == 0
    ensures addr / FRAME_SIZE % step == 0 && addr % FRAME_SIZE == 0
  {
    var k := addr / alignment;
    DivMod(addr, alignment);
    Regroup(FRAME_SIZE, step, k, 0, 0);
    DivModUnique(addr, FRAME_SIZE, step * k, 0);
    DivModUnique(step * k, step, k, 0);
  }

  lemma {:induction false} FrameAligned(b: nat, alignment: nat, step: nat)
    requires step > 0 && alignment == FRAME_SIZE * step && b % step == 0
    ensures b * FRAME_SIZE % alignment == 0
  {
    var k := b / step;
    DivMod(b, step);
    Regroup(FRAME_SIZE, step, k, 0, 0);
    DivModUnique(b * FRAME_SIZE, alignment, k, 0);
  }

  /** The 64-frame skip loses no candidate: every aligned base it passes over starts on a used frame. */
  lemma {:induction false} FullWordSkip(u: seq<bool>, base: nat, next: nat, count: nat, step: nat)
    requires step > 0 && count > 0 && base % step == 0 && next % step == 0 && base + 64 <= next < base + 64 + step
    requires forall i :: base <= i < base + 64 && i < |u| ==> u[i]
    ensures FirstFit(u, base, count, step) == FirstFit(u, next, count, step)
  {
    forall a: nat | base <= a < next && a % step == 0 ensures !RunFree(u, a, count) {
      MultipleGap(a, next, step);
      assert a < |u| ==> u[a];
    }
    FirstFitSkip(u, base, next, count, step);
  }
}
