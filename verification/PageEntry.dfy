/** One 64-bit word of physical memory seen as a page-table entry (`page_table_entry`, vmm.h:30-61;
bit positions as in the Intel SDM, volume 3A, section 4.5). */
module PageEntry {
  const FRAME_LIMIT: nat := 0x100_0000_0000  // physical_address is a 40-bit field

  datatype Entry = Entry(
    present: bool, writeable: bool, user: bool, writeThrough: bool, noCache: bool,
    accessed: bool, dirty: bool, huge: bool, global: bool, availLow: nat,
    frame: nat, availHigh: nat, nx: bool)

  /** `raw == 0`. */
  const ZERO := Entry(false, false, false, false, false, false, false, false, false, 0, 0, 0, false)

  const WORDS: nat := 512  // 64-bit words per frame

  /** Physical memory: the words of every frame. */
  type Memory = seq<seq<Entry>>

  ghost function ZeroFrame(): (r: seq<Entry>)
    ensures |r| == WORDS && forall i :: 0 <= i < WORDS ==> r[i] == ZERO
  {
    seq(WORDS, i => ZERO)
  }

  /** Memory after a store of one word. */
  ghost function Stored(m: Memory, f: nat, i: nat, e: Entry): (r: Memory)
    requires f < |m| && i < |m[f]|
  {
    m[f := m[f][i := e]]
  }
}
