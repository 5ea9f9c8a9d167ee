// The bitmap of physical frames above 1 MB, one bit a frame, first bit of a
// byte in its most significant position.
module FrameBitmap {
  import opened Paging

  const HIMEM_BEGIN: nat := 0x100000
  const FIRST_FRAME: Frame := 256        // HIMEM_BEGIN / PAGE_SIZE
  const USER_FRAME: Frame := 1024        // MM_KERNEL_LIMIT / PAGE_SIZE
  const KERNEL_BYTES: nat := 96          // (MM_KERNEL_LIMIT - HIMEM_BEGIN) / PAGE_SIZE / 8

  datatype Zone = Kernel | User

  function BitOf(b: bv8, k: nat): bool
    requires k < 8
  {
    (b >> (7 - k)) & 1 == 1
  }

  function Mask(k: nat): bv8
    requires k < 8
  {
    (1 as bv8) << (7 - k)
  }

  lemma MaskValues(k: nat)
    requires k < 8
    ensures Mask(k) == [128 as bv8, 64, 32, 16, 8, 4, 2, 1][k]
  {
    assert k == 0 || k == 1 || k == 2 || k == 3 || k == 4 || k == 5 || k == 6 || k == 7;
  }

  lemma BitByMask(b: bv8, k: nat)
    requires k < 8
    ensures BitOf(b, k) <==> b & Mask(k) != 0
  {
    assert k == 0 || k == 1 || k == 2 || k == 3 || k == 4 || k == 5 || k == 6 || k == 7;
  }

  lemma SetBitOf(b: bv8, k: nat, j: nat)
    requires k < 8 && j < 8
    ensures BitOf(b | Mask(k), j) <==> j == k || BitOf(b, j)
  {
    BitByMask(b, j);
    BitByMask(b | Mask(k), j);
    MaskValues(k);
    MaskValues(j);
  }

  lemma ClearBitOf(b: bv8, k: nat, j: nat)
    requires k < 8 && j < 8
    ensures BitOf(b & (Mask(k) ^ 0xFF), j) <==> j != k && BitOf(b, j)
  {
    BitByMask(b, j);
    BitByMask(b & (Mask(k) ^ 0xFF), j);
    MaskValues(k);
    MaskValues(j);
  }

  lemma BitsDetermineByte(b: bv8, c: bv8)
    requires forall k: nat :: k < 8 ==> (BitOf(b, k) <==> BitOf(c, k))
    ensures b == c
  {
    assert BitOf(b, 0) <==> BitOf(c, 0);
    assert BitOf(b, 1) <==> BitOf(c, 1);
    assert BitOf(b, 2) <==> BitOf(c, 2);
    assert BitOf(b, 3) <==> BitOf(c, 3);
    assert BitOf(b, 4) <==> BitOf(c, 4);
    assert BitOf(b, 5) <==> BitOf(c, 5);
    assert BitOf(b, 6) <==> BitOf(c, 6);
    assert BitOf(b, 7) <==> BitOf(c, 7);
  }

  lemma FullByte(b: bv8)
    requires forall k: nat :: k < 8 ==> BitOf(b, k)
    ensures b == 0xFF
  {
    forall k: nat | k < 8 ensures BitOf(b, k) <==> BitOf(0xFF, k) {
      BitByMask(0xFF, k);
      MaskValues(k);
    }
    BitsDetermineByte(b, 0xFF);
  }

  // The number of zero bits at positions from k on.
  ghost function Zeros(b: bv8, k: nat): nat
    requires k <= 8
    decreases 8 - k
  {
    if k == 8 then 0 else (if BitOf(b, k) then 0 else 1) + Zeros(b, k + 1)
  }

  // What is left of the complemented byte once the bits from k on are shifted out.
  ghost function Rest(b: bv8, k: nat): bv8
    requires k <= 8
  {
    (!b) >> (8 - k)
  }

  lemma FewLeft(b: bv8, k: nat)
    requires k <= 4 && Rest(b, k) != 0
    ensures k > 0 && (Rest(b, k) & 1 == 1 <==> !BitOf(b, k - 1))
    ensures Rest(b, k) >> 1 == Rest(b, k - 1)
  {
    assert k == 0 || k == 1 || k == 2 || k == 3 || k == 4;
  }

  lemma RestStep(b: bv8, k: nat)
    requires k <= 8 && Rest(b, k) != 0
    ensures k > 0 && (Rest(b, k) & 1 == 1 <==> !BitOf(b, k - 1))
    ensures Rest(b, k) >> 1 == Rest(b, k - 1)
  {
    if k <= 4 {
      FewLeft(b, k);
    } else {
      assert k == 5 || k == 6 || k == 7 || k == 8;
    }
  }

  lemma NothingLeft(b: bv8, k: nat)
    requires k <= 8 && Rest(b, k) == 0
    ensures Zeros(b, 0) == Zeros(b, k)
    decreases k
  {
    if k > 0 {
      assert BitOf(b, k - 1) && Rest(b, k - 1) == 0 by {
        assert k == 1 || k == 2 || k == 3 || k == 4 || k == 5 || k == 6 || k == 7 || k == 8;
      }
      NothingLeft(b, k - 1);
    }
  }

  // The inner loop of mm_free_page_count, on one byte.
  method CountByte(b: bv8) returns (count: nat)
    ensures count == Zeros(b, 0)
  {
    count := 0;
    var bitfld := !b;
    ghost var k: nat := 8;
    while bitfld != 0
      invariant k <= 8 && bitfld == Rest(b, k)
      invariant count == Zeros(b, k)
      decreases k
    {
      RestStep(b, k);
      if bitfld & 1 == 1 {
        count := count + 1;
      }
      bitfld := bitfld >> 1;
      k := k - 1;
    }
    NothingLeft(b, k);
  }

  ghost function Unused(used: set<Frame>, lo: Frame, hi: Frame): set<Frame> {
    set f: Frame | lo <= f < hi && f !in used
  }

  lemma UnusedAfterAlloc(used: set<Frame>, lo: Frame, hi: Frame, f: Frame)
    ensures Unused(used + {f}, lo, hi) == Unused(used, lo, hi) - {f}
  {
  }

  // --- the frames set aside at boot ------------------------------------------------------

  // An entry of the memory map.
  datatype Region = Region(addr: nat, len: nat, available: bool)

  predicate IsSetAside(r: Region) {
    r.addr >= HIMEM_BEGIN && !r.available
  }

  // How many pages `len` bytes are.
  function PagesOf(len: nat): nat {
    len / PAGE_SIZE + if len % PAGE_SIZE > 0 then 1 else 0
  }

  // The first n frames from a position on.
  ghost function Frames(position: nat, n: nat): set<Frame> {
    Unused({}, FIRST_FRAME + position, FIRST_FRAME + position + n)
  }

  // What mm_mark_used sets for a region.
  ghost function Marked(r: Region): set<Frame>
    requires IsSetAside(r)
  {
    Frames((r.addr - HIMEM_BEGIN) / PAGE_SIZE, PagesOf(r.len))
  }

  ghost function MarkedBy(regions: seq<Region>): set<Frame> {
    if regions == [] then {}
    else
      var last := regions[|regions| - 1];
      MarkedBy(regions[..|regions| - 1]) + if IsSetAside(last) then Marked(last) else {}
  }

  predicate Touches(r: Region, f: Frame) {
    f * PAGE_SIZE < r.addr + r.len && r.addr < (f + 1) * PAGE_SIZE
  }

  /** Every frame with a byte of the region is set aside exactly when the region,
      moved to the start of its first page, does not take fewer pages. */
  lemma RegionIsSetAsideIff(r: Region)
    requires IsSetAside(r) && r.len > 0
    ensures (forall f :: Touches(r, f) ==> f in Marked(r)) <==> r.addr % PAGE_SIZE + (r.len - 1) % PAGE_SIZE < PAGE_SIZE
  {
    var last := (r.addr + r.len - 1) / PAGE_SIZE;
    assert Touches(r, last);
  }

  // A page that starts in the middle of a frame: the second frame that it touches is left out.
  lemma HalfRegion()
    ensures var r := Region(HIMEM_BEGIN + 2048, PAGE_SIZE, false); Touches(r, FIRST_FRAME + 1) && FIRST_FRAME + 1 !in Marked(r)
  {}

  predicate IsHighMemory(r: Region) {
    r.addr >= HIMEM_BEGIN && r.available
  }

  // The entries that the source looks at: up to the last one with memory above 1 MB, or the first one alone.
  function Counted(entries: seq<Region>): (regions: seq<Region>)
    requires entries != []
    ensures regions != [] && regions <= entries
    ensures forall r :: r in entries[|regions|..] ==> !IsHighMemory(r)
    ensures |regions| > 1 ==> IsHighMemory(regions[|regions| - 1])
  {
    var n := |entries| - 1;
    if n == 0 || IsHighMemory(entries[n]) then entries else Counted(entries[..n])
  }

  // mm_mmap_last_valid_entry
  method LastValidEntry(entries: seq<Region>) returns (last: nat)
    requires entries != []
    ensures last < |entries| && entries[..last + 1] == Counted(entries)
  {
    last := 0;
    for i := 0 to |entries|
      invariant last < |entries| && (last == 0 || (last < i && IsHighMemory(entries[last])))
      invariant forall k :: last < k < i ==> !IsHighMemory(entries[k])
    {
      if IsHighMemory(entries[i]) {
        last := i;
      }
    }
    CountedAre(entries, last);
  }

  lemma {:induction false} CountedAre(entries: seq<Region>, last: nat)
    requires last < |entries| && (last == 0 || IsHighMemory(entries[last]))
    requires forall k :: last < k < |entries| ==> !IsHighMemory(entries[k])
    ensures entries[..last + 1] == Counted(entries)
  {
    var n := |entries| - 1;
    if last < n {
      CountedAre(entries[..n], last);
      assert entries[..n][..last + 1] == entries[..last + 1];
    }
  }

  // mm_mem_length: the bytes that the bitmap is made for.
  function LengthOf(regions: seq<Region>): nat {
    if regions == [] then 0
    else
      var last := regions[|regions| - 1];
      LengthOf(regions[..|regions| - 1]) + if last.addr >= HIMEM_BEGIN then last.len else 0
  }

  method MemLength(regions: seq<Region>) returns (length: nat)
    ensures length == LengthOf(regions)
  {
    length := 0;
    for i := 0 to |regions|
      invariant length == LengthOf(regions[..i])
    {
      assert regions[..i + 1][..i] == regions[..i];
      if regions[i].addr >= HIMEM_BEGIN {
        length := length + regions[i].len;
      }
    }
    assert regions[..|regions|] == regions;
  }

  // What is allocated when the bitmap is set up.
  ghost function UsedAtBoot(regions: seq<Region>, bytes: nat): set<Frame> {
    Frames(0, PagesOf(bytes)) + MarkedBy(regions)
  }

  predicate Aligned(r: Region) {
    r.addr % PAGE_SIZE == 0 && r.len % PAGE_SIZE == 0
  }

  // The region is above 1 MB and the frame is part of it.
  predicate Contains(r: Region, f: Frame) {
    HIMEM_BEGIN <= r.addr <= f * PAGE_SIZE && (f + 1) * PAGE_SIZE <= r.addr + r.len
  }

  ghost predicate IsListed(regions: seq<Region>, f: Frame) {
    exists r :: r in regions && Contains(r, f)
  }

  ghost predicate IsMemory(regions: seq<Region>, f: Frame) {
    exists r :: r in regions && Contains(r, f) && r.available
  }

  lemma MarkedIsContained(r: Region, f: Frame)
    requires Aligned(r) && IsSetAside(r)
    ensures f in Marked(r) <==> Contains(r, f)
  {
  }

  lemma {:induction false} MarkedBySome(regions: seq<Region>, f: Frame)
    requires forall r :: r in regions ==> Aligned(r)
    ensures f in MarkedBy(regions) <==> exists r :: r in regions && Contains(r, f) && !r.available
  {
    if regions != [] {
      var n := |regions| - 1;
      var last := regions[n];
      assert regions == regions[..n] + [last];
      MarkedBySome(regions[..n], f);
      if IsSetAside(last) {
        MarkedIsContained(last, f);
      }
    }
  }

  predicate Covered(f: Frame, bytes: nat) {
    FIRST_FRAME <= f < FIRST_FRAME + 8 * bytes
  }

  /** What is free then is available memory exactly when every frame of the
      bitmap, but for its own ones, is in some region of the map. */
  lemma FreeIsMemoryIff(regions: seq<Region>, bytes: nat)
    requires forall r :: r in regions ==> Aligned(r)
    ensures (forall f :: Covered(f, bytes) && f !in UsedAtBoot(regions, bytes) ==> IsMemory(regions, f))
            <==> forall f :: Covered(f, bytes) && f !in Frames(0, PagesOf(bytes)) ==> IsListed(regions, f)
  {
    forall f ensures f in MarkedBy(regions) <==> exists r :: r in regions && Contains(r, f) && !r.available {
      MarkedBySome(regions, f);
    }
  }

  // Each region starts where those before it end, from 1 MB on.
  ghost predicate Contiguous(regions: seq<Region>) {
    forall i :: 0 <= i < |regions| && regions[i].addr >= HIMEM_BEGIN ==> regions[i].addr == HIMEM_BEGIN + LengthOf(regions[..i])
  }

  lemma {:induction false} ContiguousIsListed(regions: seq<Region>, f: Frame)
    requires Contiguous(regions) && (forall r :: r in regions ==> Aligned(r))
    requires FIRST_FRAME <= f && f * PAGE_SIZE < HIMEM_BEGIN + LengthOf(regions)
    ensures LengthOf(regions) % PAGE_SIZE == 0 && IsListed(regions, f)
  {
    var n := |regions| - 1;
    var before, last := regions[..n], regions[n];
    LengthIsAligned(regions);
    LengthIsAligned(before);
    if f * PAGE_SIZE < HIMEM_BEGIN + LengthOf(before) {
      forall i | 0 <= i < n && before[i].addr >= HIMEM_BEGIN ensures before[i].addr == HIMEM_BEGIN + LengthOf(before[..i]) {
        assert before[..i] == regions[..i] && before[i] == regions[i];
      }
      ContiguousIsListed(before, f);
      var r :| r in before && Contains(r, f);
      assert r in regions;
    } else {
      assert last in regions && Contains(last, f);
    }
  }

  lemma {:induction false} LengthIsAligned(regions: seq<Region>)
    requires forall r :: r in regions ==> Aligned(r)
    ensures LengthOf(regions) % PAGE_SIZE == 0
  {
    if regions != [] {
      LengthIsAligned(regions[..|regions| - 1]);
      assert regions[|regions| - 1] in regions;
    }
  }

  /** With contiguous regions, what is free is available memory. */
  lemma ContiguousFreeIsMemory(regions: seq<Region>)
    requires Contiguous(regions) && forall r :: r in regions ==> Aligned(r)
    ensures forall f :: Covered(f, LengthOf(regions) / PAGE_SIZE / 8) && f !in UsedAtBoot(regions, LengthOf(regions) / PAGE_SIZE / 8)
              ==> IsMemory(regions, f)
  {
    var bytes := LengthOf(regions) / PAGE_SIZE / 8;
    forall f | Covered(f, bytes) ensures IsListed(regions, f) {
      ContiguousIsListed(regions, f);
    }
    FreeIsMemoryIff(regions, bytes);
  }

  lemma {:induction false} ContiguousEnds(regions: seq<Region>, r: Region)
    requires Contiguous(regions) && r in regions && r.addr >= HIMEM_BEGIN
    ensures r.addr + r.len <= HIMEM_BEGIN + LengthOf(regions)
  {
    var n := |regions| - 1;
    var before := regions[..n];
    assert regions == before + [regions[n]];
    if r in before {
      forall i | 0 <= i < n && before[i].addr >= HIMEM_BEGIN ensures before[i].addr == HIMEM_BEGIN + LengthOf(before[..i]) {
        assert before[..i] == regions[..i] && before[i] == regions[i];
      }
      ContiguousEnds(before, r);
    }
  }

  /** But the first frame of a gap is free, if the bitmap reaches that far and is
      not itself there, although no region has it. */
  lemma GapFrameIsFree(regions: seq<Region>, i: nat)
    requires i <= |regions| && Contiguous(regions[..i]) && forall r :: r in regions ==> Aligned(r)
    requires forall r :: r in regions[i..] && r.addr >= HIMEM_BEGIN ==> r.addr > HIMEM_BEGIN + LengthOf(regions[..i])
    ensures var gap, bytes := LengthOf(regions[..i]) / PAGE_SIZE, LengthOf(regions) / PAGE_SIZE / 8;
            PagesOf(bytes) <= gap < 8 * bytes ==>
              && Covered(FIRST_FRAME + gap, bytes) && FIRST_FRAME + gap !in UsedAtBoot(regions, bytes)
              && !IsListed(regions, FIRST_FRAME + gap)
  {
    var f := FIRST_FRAME + LengthOf(regions[..i]) / PAGE_SIZE;
    assert regions == regions[..i] + regions[i..];
    LengthIsAligned(regions[..i]);
    forall r | r in regions ensures !Contains(r, f) {
      if r in regions[..i] && r.addr >= HIMEM_BEGIN {
        ContiguousEnds(regions[..i], r);
      }
    }
    MarkedBySome(regions, f);
  }

  // Memory from 1 to 4 MB and from 16 to 20 MB: the frame at 4 MB is free, and nothing is there.
  lemma GapIsFree()
    ensures var regions := [Region(HIMEM_BEGIN, 0x30_0000, true), Region(0x100_0000, 0x40_0000, true)];
            var bytes := LengthOf(regions) / PAGE_SIZE / 8;
            Covered(USER_FRAME, bytes) && USER_FRAME !in UsedAtBoot(regions, bytes) && !IsListed(regions, USER_FRAME)
  {
    var a, b := Region(HIMEM_BEGIN, 0x30_0000, true), Region(0x100_0000, 0x40_0000, true);
    var regions := [a, b];
    assert regions[..1] == [a] && [a][..0] == [];
    assert LengthOf([a]) == 0x30_0000 && LengthOf(regions) == 0x70_0000;
    assert MarkedBy([a]) == {} && MarkedBy(regions) == {};
  }

  class Bitmap {
    const bytes: array<bv8>

    // The machine has at least 4 MB, and frame addresses are non-negative as C ints.
    predicate Valid() {
      KERNEL_BYTES <= bytes.Length && Limit() * PAGE_SIZE <= 0x8000_0000
    }

    // The first frame past the end of memory.
    function Limit(): Frame {
      At(bytes.Length)
    }

    // The frame of the first bit of a byte.
    function At(offset: nat): Frame {
      FIRST_FRAME + 8 * offset
    }

    function Lo(zone: Zone): nat {
      if zone.Kernel? then 0 else KERNEL_BYTES
    }

    function Hi(zone: Zone): nat {
      if zone.Kernel? then KERNEL_BYTES else bytes.Length
    }

    function Bit(f: Frame): bool
      requires FIRST_FRAME <= f < Limit()
      reads bytes
    {
      BitOf(bytes[(f - FIRST_FRAME) / 8], (f - FIRST_FRAME) % 8)
    }

    // The allocated frames.
    ghost function Used(): set<Frame>
      reads bytes
    {
      set f: Frame | FIRST_FRAME <= f < Limit() && Bit(f)
    }

    ghost function Free(zone: Zone): set<Frame>
      reads bytes
    {
      Unused(Used(), At(Lo(zone)), At(Hi(zone)))
    }

    // Every frame is allocated, or free in exactly one zone.
    lemma ZonesPartition()
      requires Valid()
      ensures Free(Kernel) !! Free(User) && Used() !! Free(Kernel) + Free(User)
      ensures forall f: Frame :: FIRST_FRAME <= f < Limit() && f !in Used() ==> f in Free(Kernel) + Free(User)
      ensures forall f :: f in Free(Kernel) ==> FIRST_FRAME <= f < USER_FRAME
      ensures forall f :: f in Free(User) ==> USER_FRAME <= f < Limit()
    {
    }

    constructor (len: nat)
      requires KERNEL_BYTES <= len && (FIRST_FRAME + 8 * len) * PAGE_SIZE <= 0x8000_0000
      ensures Valid() && fresh(bytes) && bytes.Length == len && Used() == {}
    {
      bytes := new bv8[len](_ => 0);
      new;
      forall f: Frame | FIRST_FRAME <= f < Limit() ensures !Bit(f) {
        BitByMask(0, (f - FIRST_FRAME) % 8);
      }
    }

    method SetBit(position: nat)
      requires position < 8 * bytes.Length
      modifies bytes
      ensures Used() == old(Used()) + {FIRST_FRAME + position}
    {
      var offset := position / 8;
      var bit := position - offset * 8;
      bytes[offset] := bytes[offset] | ((1 as bv8) << (7 - bit));
      forall f: Frame | FIRST_FRAME <= f < Limit() ensures Bit(f) <==> f == FIRST_FRAME + position || old(Bit(f)) {
        SetBitOf(old(bytes[offset]), bit, (f - FIRST_FRAME) % 8);
      }
      ghost var g: Frame := FIRST_FRAME + position;
      assert Bit(g) && g in Used();
      assert forall f: Frame :: f in Used() <==> f in old(Used()) || f == g;
    }

    method ClearBit(position: nat)
      requires position < 8 * bytes.Length
      modifies bytes
      ensures Used() == old(Used()) - {FIRST_FRAME + position}
    {
      var offset := position / 8;
      var bit := position - offset * 8;
      bytes[offset] := bytes[offset] & (((1 as bv8) << (7 - bit)) ^ 0xFF);
      forall f: Frame | FIRST_FRAME <= f < Limit() ensures Bit(f) <==> f != FIRST_FRAME + position && old(Bit(f)) {
        ClearBitOf(old(bytes[offset]), bit, (f - FIRST_FRAME) % 8);
      }
    }

    // The rounds of a loop that sets n bits from a position on.
    method SetBits(position: nat, n: nat)
      requires position + n <= 8 * bytes.Length
      modifies bytes
      ensures Used() == old(Used()) + Frames(position, n)
    {
      ghost var was := Used();
      var j := 0;
      while j < n
        invariant j <= n && Used() == was + Frames(position, j)
      {
        SetBit(position + j);
        assert Frames(position, j + 1) == Frames(position, j) + {FIRST_FRAME + (position + j)};
        j := j + 1;
      }
    }

    // mm_reserve_bitmap_pages: the bitmap is in the first frames.
    method ReserveBitmapPages()
      requires Valid()
      modifies bytes
      ensures Used() == old(Used()) + Frames(0, PagesOf(bytes.Length))
    {
      var i := bytes.Length / PAGE_SIZE;
      SetBits(0, i);
      if bytes.Length - i * PAGE_SIZE > 0 {
        SetBit(i);
      }
      assert Frames(0, i + 1) == Frames(0, i) + {FIRST_FRAME + i};
    }

    // mm_mark_used, of the regions up to the last available one, which lie within the bitmap
    method MarkUsed(regions: seq<Region>)
      requires forall r :: r in regions && IsSetAside(r) ==>
                 (r.addr - HIMEM_BEGIN) / PAGE_SIZE + PagesOf(r.len) <= 8 * bytes.Length
      modifies bytes
      ensures Used() == old(Used()) + MarkedBy(regions)
    {
      ghost var was := Used();
      for i := 0 to |regions|
        invariant Used() == was + MarkedBy(regions[..i])
      {
        var r := regions[i];
        assert regions[..i + 1][..i] == regions[..i];
        if IsSetAside(r) {
          SetBits((r.addr - HIMEM_BEGIN) / PAGE_SIZE, PagesOf(r.len));
        }
      }
      assert regions[..|regions|] == regions;
    }

    /** Frame by frame from 1 MB on, eight to a byte, the first of them in the most
        significant bit. */
    lemma FrameIsBit(c: nat, k: nat)
      requires c < bytes.Length && k < 8
      ensures 256 + 8 * c + k in Used() <==> bytes[c] & [128 as bv8, 64, 32, 16, 8, 4, 2, 1][k] != 0
    {
      var f := FIRST_FRAME + 8 * c + k;
      assert (f - FIRST_FRAME) / 8 == c && (f - FIRST_FRAME) % 8 == k;
      assert f in Used() <==> Bit(f);
      BitByMask(bytes[c], k);
      MaskValues(k);
    }

    // --- mm_mem_seek ------------------------------------------------------------------

    lemma FullByteIsUsed(c: nat, f: Frame)
      requires c < bytes.Length && bytes[c] == 0xFF && At(c) <= f < At(c) + 8
      ensures f in Used()
    {
      BitByMask(0xFF, (f - FIRST_FRAME) % 8);
      MaskValues((f - FIRST_FRAME) % 8);
      assert Bit(f);
    }

    lemma OnesFillByte(c: nat)
      requires c < bytes.Length && forall f: Frame :: At(c) <= f < At(c) + 8 ==> f in Used()
      ensures bytes[c] == 0xFF
    {
      forall k: nat | k < 8 ensures BitOf(bytes[c], k) {
        assert At(c) + k in Used() && Bit(At(c) + k);
      }
      FullByte(bytes[c]);
    }

    // The byte loop: the frames of the bytes passed over are all allocated.
    method FirstNotFull(zone: Zone) returns (cursor: nat)
      requires Valid()
      ensures Lo(zone) <= cursor <= Hi(zone)
      ensures cursor < Hi(zone) ==> bytes[cursor] != 0xFF
      ensures forall f: Frame :: At(Lo(zone)) <= f < At(cursor) ==> f in Used()
    {
      cursor := Lo(zone);
      while cursor < Hi(zone)
        invariant Lo(zone) <= cursor <= Hi(zone)
        invariant forall f: Frame :: At(Lo(zone)) <= f < At(cursor) ==> f in Used()
      {
        if bytes[cursor] != 0xFF {
          break;
        }
        forall f: Frame | At(cursor) <= f < At(cursor) + 8 ensures f in Used() {
          FullByteIsUsed(cursor, f);
        }
        cursor := cursor + 1;
      }
    }

    method Take(zone: Zone, i: nat)
      requires Valid() && FIRST_FRAME + i in Free(zone)
      modifies bytes
      ensures Used() == old(Used()) + {FIRST_FRAME + i}
      ensures Free(zone) == old(Free(zone)) - {FIRST_FRAME + i}
      ensures forall z :: z != zone ==> Free(z) == old(Free(z))
    {
      ZonesPartition();
      UnusedAfterAlloc(Used(), At(Lo(Kernel)), At(Hi(Kernel)), FIRST_FRAME + i);
      UnusedAfterAlloc(Used(), At(Lo(User)), At(Hi(User)), FIRST_FRAME + i);
      SetBit(i);
    }

    /** mm_mem_seek: the address of the lowest free frame of the zone, whose
        bit is then set, or 0 when the zone is full. */
    method Seek(zone: Zone) returns (dir: nat)
      requires Valid()
      modifies bytes
      ensures dir == 0 <==> old(Free(zone)) == {}
      ensures dir == 0 ==> bytes[..] == old(bytes[..])
      ensures dir != 0 ==> dir % PAGE_SIZE == 0 && dir / PAGE_SIZE in old(Free(zone))
      ensures dir != 0 ==> forall f :: f in old(Free(zone)) ==> dir / PAGE_SIZE <= f
      ensures Used() == old(Used()) + if dir == 0 then {} else {dir / PAGE_SIZE}
      ensures Free(zone) == old(Free(zone)) - if dir == 0 then {} else {dir / PAGE_SIZE}
      ensures forall z :: z != zone ==> Free(z) == old(Free(z))
    {
      var cursor := FirstNotFull(zone);
      if cursor == Hi(zone) {
        assert Free(zone) == {};
        return 0;
      }

      dir := 0;
      var i := cursor * 8;
      while i < cursor * 8 + 8
        invariant cursor * 8 <= i <= cursor * 8 + 8
        invariant forall f: Frame :: At(cursor) <= f < FIRST_FRAME + i ==> f in Used()
      {
        if !Bit(FIRST_FRAME + i) {
          dir := HIMEM_BEGIN + i * PAGE_SIZE;
          Take(zone, i);
          return;
        }
        i := i + 1;
      }
      OnesFillByte(cursor);
    }

    // mm_mem_free
    method MemFree(frame: nat)
      requires Valid() && HIMEM_BEGIN <= frame < Limit() * PAGE_SIZE && frame % PAGE_SIZE == 0
      modifies bytes
      ensures Used() == old(Used()) - {frame / PAGE_SIZE}
    {
      ClearBit((frame - HIMEM_BEGIN) / PAGE_SIZE);
    }

    // Freeing what was just allocated restores the bitmap, bit for bit.
    method AllocThenFree(zone: Zone)
      requires Valid()
      modifies bytes
      ensures bytes[..] == old(bytes[..])
    {
      var dir := Seek(zone);
      if dir != 0 {
        MemFree(dir);
        assert Used() == old(Used());
        forall c | 0 <= c < bytes.Length ensures bytes[c] == old(bytes[c]) {
          forall k: nat | k < 8 ensures BitOf(bytes[c], k) <==> old(BitOf(bytes[c], k)) {
            assert At(c) + k in Used() <==> Bit(At(c) + k);
            assert At(c) + k in old(Used()) <==> old(Bit(At(c) + k));
          }
          BitsDetermineByte(bytes[c], old(bytes[c]));
        }
      }
    }

    // --- mm_free_page_count ----------------------------------------------------------------

    // The free frames of byte c at positions from k on, one by one.
    lemma {:induction false} ZerosAreCounted(c: nat, k: nat)
      requires c < bytes.Length && k <= 8
      ensures |Unused(Used(), At(c) + k, At(c) + 8)| == Zeros(bytes[c], k)
      decreases 8 - k
    {
      var f := At(c) + k;
      if k < 8 {
        assert Bit(f) == BitOf(bytes[c], k);
        UnusedSplits(Used(), f, f + 1, At(c) + 8);
        assert Unused(Used(), f, f + 1) == if f in Used() then {} else {f};
        ZerosAreCounted(c, k + 1);
      }
    }

    // The number of free frames of the zone.
    method FreePageCount(zone: Zone) returns (count: nat)
      requires Valid()
      ensures count == |Free(zone)|
    {
      count := 0;
      var cursor, limit := Lo(zone), Hi(zone);
      while cursor < limit
        invariant Lo(zone) <= cursor <= limit
        invariant count == |Unused(Used(), At(Lo(zone)), At(cursor))|
      {
        UnusedSplits(Used(), At(Lo(zone)), At(cursor), At(cursor) + 8);
        if bytes[cursor] != 0xFF {
          var n := CountByte(bytes[cursor]);
          ZerosAreCounted(cursor, 0);
          count := count + n;
        } else {
          forall f: Frame | At(cursor) <= f < At(cursor) + 8 ensures f in Used() {
            FullByteIsUsed(cursor, f);
          }
          assert Unused(Used(), At(cursor), At(cursor) + 8) == {};
        }
        cursor := cursor + 1;
      }
    }

    // Each allocation lowers the count of its zone by one.
    method AllocLowersCount(zone: Zone) returns (before: nat, dir: nat, after: nat)
      requires Valid()
      modifies bytes
      ensures after == if dir == 0 then before else before - 1
      ensures dir == 0 <==> before == 0
    {
      before := FreePageCount(zone);
      dir := Seek(zone);
      after := FreePageCount(zone);
    }
  }

  lemma UnusedSplits(used: set<Frame>, lo: Frame, mid: Frame, hi: Frame)
    requires lo <= mid <= hi
    ensures |Unused(used, lo, hi)| == |Unused(used, lo, mid)| + |Unused(used, mid, hi)|
  {
    assert Unused(used, lo, hi) == Unused(used, lo, mid) + Unused(used, mid, hi);
  }

  // mm_setup_bitmap, of a map whose unavailable regions lie within the bitmap
  method SetUpBitmap(entries: seq<Region>) returns (bitmap: Bitmap)
    requires entries != []
    requires var regions := Counted(entries);
             var bytes := LengthOf(regions) / PAGE_SIZE / 8;
             && KERNEL_BYTES <= bytes && (FIRST_FRAME + 8 * bytes) * PAGE_SIZE <= 0x8000_0000
             && forall r :: r in regions && IsSetAside(r) ==> (r.addr - HIMEM_BEGIN) / PAGE_SIZE + PagesOf(r.len) <= 8 * bytes
    ensures fresh(bitmap) && fresh(bitmap.bytes) && bitmap.Valid()
    ensures bitmap.bytes.Length == LengthOf(Counted(entries)) / PAGE_SIZE / 8
    ensures bitmap.Used() == UsedAtBoot(Counted(entries), bitmap.bytes.Length)
  {
    var last := LastValidEntry(entries);
    var regions := entries[..last + 1];
    var length := MemLength(regions);
    bitmap := new Bitmap(length / PAGE_SIZE / 8);
    bitmap.ReserveBitmapPages();
    bitmap.MarkUsed(regions);
  }
}
