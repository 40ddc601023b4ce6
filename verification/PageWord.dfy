/** The 64-bit word behind a page-table entry: the bit fields of `page_table_entry_bits` laid out
from bit 0 upwards, read through `raw` (vmm.h:30-61). */
module PageWord {
  import opened Arith
  import opened PageEntry
  import T = PageTree
  import V = Vmm

  /** The fields' sizes, lowest first: two to the power of each width. */
  const SIZES: seq<nat> := [2, 2, 2, 2, 2, 2, 2, 2, 2, 8, FRAME_LIMIT, 0x800, 2]

  ghost predicate Fit(sizes: seq<nat>, values: seq<nat>) {
    |values| == |sizes| && forall k :: 0 <= k < |sizes| ==> values[k] < sizes[k]
  }

  /** The number whose fields, from the lowest, are `values`. */
  ghost function Pack(sizes: seq<nat>, values: seq<nat>): nat
    requires |values| == |sizes|
  {
    if sizes == [] then 0 else values[0] + sizes[0] * Pack(sizes[1..], values[1..])
  }

  /** The weight of the place above all of `sizes`. */
  ghost function Weight(sizes: seq<nat>): nat {
    if sizes == [] then 1 else sizes[0] * Weight(sizes[1..])
  }

  lemma {:induction false} PackBelow(sizes: seq<nat>, values: seq<nat>)
    requires Fit(sizes, values)
    ensures Pack(sizes, values) < Weight(sizes)
  {
    if sizes != [] {
      PackBelow(sizes[1..], values[1..]);
      var high, top := Pack(sizes[1..], values[1..]), Weight(sizes[1..]);
      MulMono(sizes[0], high + 1, top);
      assert sizes[0] * (high + 1) == sizes[0] * high + sizes[0];
    }
  }

  /** Shifting and masking at field `k`'s position reads field `k`, whatever the other fields are. */
  lemma {:induction false} FieldAt(sizes: seq<nat>, values: seq<nat>, k: nat)
    requires Fit(sizes, values) && k < |sizes|
    ensures Weight(sizes[..k]) > 0 && Pack(sizes, values) / Weight(sizes[..k]) % sizes[k] == values[k]
  {
    var high := Pack(sizes[1..], values[1..]);
    DivModUnique(Pack(sizes, values), sizes[0], high, values[0]);
    if k > 0 {
      FieldAt(sizes[1..], values[1..], k - 1);
      assert sizes[..k][1..] == sizes[1..][..k - 1];
      DivDiv(Pack(sizes, values), sizes[0], Weight(sizes[1..][..k - 1]));
    }
  }

  lemma {:induction false} PackInjective(sizes: seq<nat>, v: seq<nat>, w: seq<nat>)
    requires Fit(sizes, v) && Fit(sizes, w) && Pack(sizes, v) == Pack(sizes, w)
    ensures v == w
  {
    forall k: nat | k < |sizes| ensures v[k] == w[k] {
      FieldAt(sizes, v, k);
      FieldAt(sizes, w, k);
    }
  }

  function Bit(b: bool): nat { if b then 1 else 0 }

  function Fields(e: Entry): (r: seq<nat>)
    ensures |r| == |SIZES|
  {
    [Bit(e.present), Bit(e.writeable), Bit(e.user), Bit(e.writeThrough), Bit(e.noCache), Bit(e.accessed),
     Bit(e.dirty), Bit(e.huge), Bit(e.global), e.availLow, e.frame, e.availHigh, Bit(e.nx)]
  }

  ghost predicate Fits(e: Entry) { Fit(SIZES, Fields(e)) }

  /** `raw`. */
  ghost function Raw(e: Entry): nat { Pack(SIZES, Fields(e)) }

  /** The value of each field's lowest bit, and of the bit above the last. */
  const PLACES: seq<nat> := [
    0x1, 0x2, 0x4, 0x8, 0x10, 0x20, 0x40, 0x80, 0x100, 0x200, 0x1000,
    0x10_0000_0000_0000, 0x8000_0000_0000_0000, 0x1_0000_0000_0000_0000]

  lemma {:induction false} WeightSnoc(sizes: seq<nat>, n: nat)
    ensures Weight(sizes + [n]) == Weight(sizes) * n
  {
    if sizes == [] {
      assert [n][1..] == [];
    } else {
      WeightSnoc(sizes[1..], n);
      assert (sizes + [n])[1..] == sizes[1..] + [n];
      assert sizes[0] * (Weight(sizes[1..]) * n) == sizes[0] * Weight(sizes[1..]) * n;
    }
  }

  lemma {:induction false} PlaceOf(k: nat)
    requires k <= |SIZES|
    ensures Weight(SIZES[..k]) == PLACES[k]
  {
    if k > 0 {
      PlaceOf(k - 1);
      assert SIZES[..k] == SIZES[..k - 1] + [SIZES[k - 1]];
      WeightSnoc(SIZES[..k - 1], SIZES[k - 1]);
    }
  }

  /** An entry whose fields fit is one 64-bit word, and each field is read back at its own bits. */
  lemma {:induction false} RawFields(e: Entry, k: nat)
    requires Fits(e) && k < |SIZES|
    ensures Raw(e) < 0x1_0000_0000_0000_0000 && Raw(e) / PLACES[k] % SIZES[k] == Fields(e)[k]
  {
    PackBelow(SIZES, Fields(e));
    PlaceOf(|SIZES|);
    assert SIZES[..|SIZES|] == SIZES;
    PlaceOf(k);
    FieldAt(SIZES, Fields(e), k);
  }

  /** The word determines the entry; in particular only the entry with every field clear is zero. */
  lemma {:induction false} RawInjective(e: Entry, f: Entry)
    requires Fits(e) && Fits(f) && Raw(e) == Raw(f)
    ensures e == f
  {
    PackInjective(SIZES, Fields(e), Fields(f));
    SameFields(e, f);
  }

  lemma {:induction false} SameFields(e: Entry, f: Entry)
    requires Fields(e) == Fields(f)
    ensures e == f
  {
    var v, w := Fields(e), Fields(f);
    assert v[0] == w[0] && v[1] == w[1] && v[2] == w[2] && v[3] == w[3] && v[4] == w[4] && v[5] == w[5] && v[6] == w[6];
    assert v[7] == w[7] && v[8] == w[8] && v[9] == w[9] && v[10] == w[10] && v[11] == w[11] && v[12] == w[12];
  }

  lemma {:induction false} PackSnoc(sizes: seq<nat>, values: seq<nat>, n: nat, v: nat)
    requires |values| == |sizes|
    ensures Pack(sizes + [n], values + [v]) == Pack(sizes, values) + Weight(sizes) * v
  {
    if sizes == [] {
      assert Pack([n][1..], [v][1..]) == 0;
    } else {
      PackSnoc(sizes[1..], values[1..], n, v);
      assert (sizes + [n])[1..] == sizes[1..] + [n] && (values + [v])[1..] == values[1..] + [v];
      var high, top := Pack(sizes[1..], values[1..]), Weight(sizes[1..]);
      assert sizes[0] * (high + top * v) == sizes[0] * high + sizes[0] * top * v;
    }
  }

  /** The word's lowest `k` fields. */
  ghost function UpTo(values: seq<nat>, k: nat): nat
    requires k <= |values| == |SIZES|
  {
    Pack(SIZES[..k], values[..k])
  }

  lemma {:induction false} UpToNext(values: seq<nat>, k: nat)
    requires k < |values| == |SIZES|
    ensures UpTo(values, k + 1) == UpTo(values, k) + PLACES[k] * values[k]
  {
    assert SIZES[..k + 1] == SIZES[..k] + [SIZES[k]] && values[..k + 1] == values[..k] + [values[k]];
    PackSnoc(SIZES[..k], values[..k], SIZES[k], values[k]);
    PlaceOf(k);
  }

  ghost function LowSum(v: seq<nat>): nat
    requires |v| == |SIZES|
  {
    v[0] + 0x2 * v[1] + 0x4 * v[2] + 0x8 * v[3] + 0x10 * v[4] + 0x20 * v[5] + 0x40 * v[6] + 0x80 * v[7]
  }

  lemma {:induction false} UpToEight(v: seq<nat>)
    requires |v| == |SIZES|
    ensures UpTo(v, 8) == LowSum(v)
  {
    assert UpTo(v, 0) == 0;
    UpToNext(v, 0); UpToNext(v, 1); UpToNext(v, 2); UpToNext(v, 3);
    UpToNext(v, 4); UpToNext(v, 5); UpToNext(v, 6); UpToNext(v, 7);
  }

  /** The word is the sum of its fields, each at its place. */
  lemma {:induction false} RawSum(e: Entry)
    ensures var v := Fields(e);
      Raw(e) == LowSum(v) + 0x100 * v[8] + 0x200 * v[9] + 0x1000 * v[10] + 0x10_0000_0000_0000 * v[11]
                + 0x8000_0000_0000_0000 * v[12]
  {
    var v := Fields(e);
    UpToEight(v);
    UpToNext(v, 8); UpToNext(v, 9); UpToNext(v, 10); UpToNext(v, 11); UpToNext(v, 12);
    assert SIZES[..13] == SIZES && v[..13] == v;
  }

  /** The word `vmm_map` stores for a 4 KiB page: its four low flags go to bits 1 to 4 as they are, bit 5
  to bit 8 and bit 6 to bit 63. Bit 4 asks for a huge page and never reaches that path. */
  lemma {:induction false} LeafWord(frame: nat, flags: nat)
    ensures Raw(V.LeafEntry(frame, flags))
         == 1 + 2 * (flags % 0x10) + 0x100 * (flags / 0x20 % 2) + 0x1000 * frame +
           0x8000_0000_0000_0000 * (flags / 0x40 % 2)
  {
    RawSum(V.LeafEntry(frame, flags));
    LowFlags(flags);
  }

  /** The word that links an empty place to a table: present, writeable and for the user, and the frame. */
  lemma {:induction false} TableWord(frame: nat)
    requires frame < FRAME_LIMIT
    ensures Raw(T.TableEntry(ZERO, frame)) == 7 + 0x1000 * frame
  {
    RawSum(T.TableEntry(ZERO, frame));
  }

  lemma {:induction false} BitOf(flags: nat, bit: nat)
    requires bit > 0
    ensures Bit(V.Flag(flags, bit)) == flags / bit % 2
  {
  }

  lemma {:induction false} LowFlags(flags: nat)
    ensures Bit(V.Flag(flags, 0x1)) + 2 * Bit(V.Flag(flags, 0x2)) + 4 * Bit(V.Flag(flags, 0x4))
            + 8 * Bit(V.Flag(flags, 0x8)) == flags % 0x10
  {
    BitOf(flags, 0x1); BitOf(flags, 0x2); BitOf(flags, 0x4); BitOf(flags, 0x8);
    DivDiv(flags, 2, 2); DivDiv(flags, 4, 2); DivDiv(flags, 8, 2);
    FourBits(flags, flags / 2, flags / 4, flags / 8);
  }

  lemma {:induction false} FourBits(x: nat, y: nat, z: nat, w: nat)
    requires y == x / 2 && z == y / 2 && w == z / 2
    ensures x % 2 + 2 * (y % 2) + 4 * (z % 2) + 8 * (w % 2) == x % 0x10
  {
    DivModUnique(x, 0x10, w / 2, x % 2 + 2 * (y % 2) + 4 * (z % 2) + 8 * (w % 2));
  }
}
