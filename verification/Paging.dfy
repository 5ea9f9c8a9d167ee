// Page-table entries and pages, shared by the memory modules.
module Paging {
  import opened Common

  const PAGE_SIZE: nat := 4096

  type Frame = nat   // physical frame number: physical address / PAGE_SIZE
  type VPage = nat   // virtual page number: virtual address / PAGE_SIZE
  const KSTACK: VPage := 0xff7ff     // page of TASK_K_STACK_ADDRESS
  const USTACK: VPage := 0xff7fe     // page of TASK_U_STACK_ADDRESS
  const FIRST_USER: VPage := 0x400   // page of USER_MEMORY_START

  type Page = p: seq<bv8> | |p| == PAGE_SIZE witness seq(PAGE_SIZE, _ => 0)

  /** A page-table entry, one field for each attribute bit the kernel uses:
      P (bit 0), RW (bit 1), US (bit 2), SHARED (bit 9) and COR (bit 10).
      `PAGE_REQUESTED` is bit 1 of an entry whose P bit is clear, so it is
      the field `rw` of an entry that is not present. */
  datatype Entry = Entry(base: Frame, p: bool, rw: bool, us: bool, shared: bool, cor: bool)

  const ZERO := Entry(0, false, false, false, false, false)
  const REQUESTED := Entry(0, false, true, false, false, false)

  // The entry mm_map_frame writes.
  function Mapped(frame: Frame, us: bool): Entry {
    Entry(frame, true, true, us, false, false)
  }

  predicate IsRequested(e: Entry) {
    !e.p && e.rw
  }

  predicate IsToBeCopiedOnWrite(e: Entry) {
    !e.rw && (e.p || e.cor)
  }

  // What fork leaves in the child for a present entry of the parent.
  function ForkedChild(e: Entry): Entry {
    if !e.p then e
    else if e.shared then Mapped(e.base, e.us).(shared := true)
    else Mapped(e.base, e.us).(cor := true, rw := false)
  }

  // What fork leaves in the parent.
  function ForkedParent(e: Entry): Entry {
    if e.p && !e.shared then e.(cor := true, rw := false) else e
  }

  // Attribute bits as kernel/mm.c and include/mm.h define them.
  const ATTR_P: bv32 := 0x001
  const ATTR_RW: bv32 := 0x002
  const ATTR_US: bv32 := 0x004
  const ATTR_SHARED: bv32 := 0x200
  const ATTR_COR: bv32 := 0x400

  // The attribute half of the 32-bit word that an Entry stands for.
  function AttrWord(e: Entry): bv32 {
    (if e.p then ATTR_P else 0) | (if e.rw then ATTR_RW else 0) | (if e.us then ATTR_US else 0)
    | (if e.shared then ATTR_SHARED else 0) | (if e.cor then ATTR_COR else 0)
  }

  // The kernel's mask tests, on the word, are the field tests used by the model.
  // The last conjunct of the test for other processes, `attr & ~RW`, is redundant.
  lemma MaskTestsAreFieldTests(e: Entry)
    ensures AttrWord(e) & ATTR_P != 0 <==> e.p
    ensures (AttrWord(e) & ATTR_P == 0 && AttrWord(e) & 2 != 0) <==> IsRequested(e)
    ensures (AttrWord(e) & ATTR_RW == 0 && AttrWord(e) & (ATTR_P | ATTR_COR) != 0) <==> IsToBeCopiedOnWrite(e)
    ensures (AttrWord(e) & (ATTR_P | ATTR_COR) != 0 && AttrWord(e) & !ATTR_RW != 0) <==> (e.p || e.cor)
    ensures AttrWord(e) & ATTR_SHARED != 0 <==> e.shared
  {
  }
}
