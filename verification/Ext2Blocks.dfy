// Which blocks of the device a file has (kernel/ext2.c), for blocks of 1024 bytes.
module Ext2Blocks {
  import opened Common
  import opened Memory
  import opened BlockDevice

  const BLOCK: nat := 1024
  const DIRECT: nat := 12
  const WORDS: nat := 256          // block numbers in one block
  const MAX_BLOCKS: nat := 1036    // direct, singly indirect and three doubly indirect blocks
  const LIST_SIZE: nat := 4096     // block_list is one page
  const INDIRECT: nat := 12
  const DOUBLY_INDIRECT: nat := 13

  // Numbers on the device are little-endian.
  function Number(s: seq<Byte>, i: nat, bytes: nat): nat
    requires i + bytes <= |s|
    decreases |s| - i
  {
    if bytes == 0 then 0 else s[i] as nat + 0x100 * Number(s, i + 1, bytes - 1)
  }

  function WordAt(s: seq<Byte>, i: nat): nat
    requires i + 4 <= |s|
  {
    Number(s, i, 4)
  }

  lemma {:induction false} SameNumber(s: seq<Byte>, i: nat, t: seq<Byte>, j: nat, bytes: nat)
    requires i + bytes <= |s| && j + bytes <= |t| && s[i..i + bytes] == t[j..j + bytes]
    ensures Number(s, i, bytes) == Number(t, j, bytes)
    decreases |s| - i
  {
    if bytes > 0 {
      assert s[i] == s[i..i + bytes][0] == t[j..j + bytes][0] == t[j];
      assert s[i + 1..i + bytes] == s[i..i + bytes][1..] == t[j..j + bytes][1..] == t[j + 1..j + bytes];
      SameNumber(s, i + 1, t, j + 1, bytes - 1);
    }
  }

  // i_size and i_block of an inode.
  datatype Inode = Inode(size: nat, blocks: seq<nat>)

  predicate InDisk(disk: seq<Byte>, block: nat) {
    (block + 1) * BLOCK <= |disk|
  }

  // The number that the w-th word of a block holds.
  function Pointer(disk: seq<Byte>, block: nat, w: nat): nat
    requires w < WORDS && block * BLOCK + BLOCK <= |disk|
  {
    WordAt(disk, block * BLOCK + 4 * w)
  }

  function BlockCount(size: nat): nat {
    size / BLOCK + if size % BLOCK != 0 then 1 else 0
  }

  // The indirect blocks that a file with n blocks needs are on the device.
  predicate HasLists(disk: seq<Byte>, inode: Inode, n: nat) {
    && |inode.blocks| == 15
    && (n > 12 ==> InDisk(disk, inode.blocks[INDIRECT]))
    && (n > 268 ==> InDisk(disk, inode.blocks[DOUBLY_INDIRECT]))
    && (n > 268 ==> InDisk(disk, Pointer(disk, inode.blocks[DOUBLY_INDIRECT], 0)))
    && (n > 524 ==> InDisk(disk, Pointer(disk, inode.blocks[DOUBLY_INDIRECT], 1)))
    && (n > 780 ==> InDisk(disk, Pointer(disk, inode.blocks[DOUBLY_INDIRECT], 2)))
  }

  // The block that the lookups of the code end in for index i: direct, then
  // through one block of pointers, then through two. They follow a pointer
  // of 0 like any other, to block 0 of the device.
  function FoundBlock(disk: seq<Byte>, inode: Inode, n: nat, i: nat): nat
    requires HasLists(disk, inode, n) && i < Reach(n) <= MAX_BLOCKS
  {
    if i < DIRECT then inode.blocks[i]
    else if i < DIRECT + WORDS then Pointer(disk, inode.blocks[INDIRECT], i - DIRECT)
    else
      var j := i - DIRECT - WORDS;
      Pointer(disk, Pointer(disk, inode.blocks[DOUBLY_INDIRECT], j / WORDS), j % WORDS)
  }

  // In ext2 a pointer of 0 is to no block.
  function Target(pointer: nat): Option<nat> {
    if pointer == 0 then None else Some(pointer)
  }

  // The w-th pointer of a block of pointers, if there is one.
  function Through(disk: seq<Byte>, list: Option<nat>, w: nat): Option<nat>
    requires w < WORDS && (list.Some? ==> InDisk(disk, list.value))
  {
    if list.None? then None else Target(Pointer(disk, list.value, w))
  }

  /** The block of a file at index i, as ext2 defines it; a pointer of 0 at any
      level makes a hole. */
  function FileBlock(disk: seq<Byte>, inode: Inode, n: nat, i: nat): Option<nat>
    requires HasLists(disk, inode, n) && i < Reach(n) <= MAX_BLOCKS
  {
    if i < DIRECT then Target(inode.blocks[i])
    else if i < DIRECT + WORDS then Through(disk, Target(inode.blocks[INDIRECT]), i - DIRECT)
    else
      var j := i - DIRECT - WORDS;
      Through(disk, Through(disk, Target(inode.blocks[DOUBLY_INDIRECT]), j / WORDS), j % WORDS)
  }

  // A pointer on the way to index i is 0.
  predicate HoleAt(disk: seq<Byte>, inode: Inode, n: nat, i: nat)
    requires HasLists(disk, inode, n) && i < Reach(n) <= MAX_BLOCKS
  {
    if i < DIRECT then inode.blocks[i] == 0
    else if i < DIRECT + WORDS then inode.blocks[INDIRECT] == 0 || Pointer(disk, inode.blocks[INDIRECT], i - DIRECT) == 0
    else
      var j := i - DIRECT - WORDS;
      var list := Pointer(disk, inode.blocks[DOUBLY_INDIRECT], j / WORDS);
      inode.blocks[DOUBLY_INDIRECT] == 0 || list == 0 || Pointer(disk, list, j % WORDS) == 0
  }

  // The code finds the block of the file unless a pointer on the way is 0.
  lemma FoundOrHole(disk: seq<Byte>, inode: Inode, n: nat, i: nat)
    requires HasLists(disk, inode, n) && i < Reach(n) <= MAX_BLOCKS
    ensures FileBlock(disk, inode, n, i) == if HoleAt(disk, inode, n, i) then None else Some(FoundBlock(disk, inode, n, i))
  {
  }

  // The indices below this one have an entry once the lists for n blocks are read.
  function Reach(n: nat): nat {
    if n <= 12 then 12 else if n <= 268 then 268 else if n <= 524 then 524 else if n <= 780 then 780 else 1036
  }

  // e2f_load_buffer's lookup
  function Lookup(inode: Inode, list: seq<Byte>, i: nat): nat
    requires |inode.blocks| == 15 && (i >= DIRECT ==> 4 * (i - DIRECT) + 4 <= |list|)
  {
    if i < DIRECT then inode.blocks[i] else WordAt(list, 4 * (i - DIRECT))
  }

  // Words from 256 * k on of the list are those of the block.
  ghost predicate Holds(disk: seq<Byte>, list: seq<Byte>, k: nat, block: nat) {
    InDisk(disk, block) && BLOCK * k + BLOCK <= |list|
    && list[BLOCK * k..BLOCK * k + BLOCK] == disk[block * BLOCK..block * BLOCK + BLOCK]
  }

  lemma WordOfList(disk: seq<Byte>, list: seq<Byte>, k: nat, block: nat, w: nat)
    requires Holds(disk, list, k, block) && w < WORDS
    ensures WordAt(list, BLOCK * k + 4 * w) == Pointer(disk, block, w)
  {
    var a, b := BLOCK * k, block * BLOCK;
    SliceOfSlice(list, a, BLOCK, 4 * w, 4);
    SliceOfSlice(disk, b, BLOCK, 4 * w, 4);
    SameNumber(list, a + 4 * w, disk, b + 4 * w, 4);
  }

  // What the page must hold for a file of n blocks.
  ghost predicate ListFor(disk: seq<Byte>, inode: Inode, list: seq<Byte>, n: nat)
    requires HasLists(disk, inode, n)
  {
    && |list| == LIST_SIZE
    && (n > 12 ==> Holds(disk, list, 0, inode.blocks[INDIRECT]))
    && (n > 268 ==> Holds(disk, list, 1, Pointer(disk, inode.blocks[DOUBLY_INDIRECT], 0)))
    && (n > 524 ==> Holds(disk, list, 2, Pointer(disk, inode.blocks[DOUBLY_INDIRECT], 1)))
    && (n > 780 ==> Holds(disk, list, 3, Pointer(disk, inode.blocks[DOUBLY_INDIRECT], 2)))
  }

  lemma DoublyIndirect(disk: seq<Byte>, inode: Inode, list: seq<Byte>, n: nat, k: nat, w: nat)
    requires HasLists(disk, inode, n) && n <= MAX_BLOCKS && ListFor(disk, inode, list, n)
    requires w < WORDS && DIRECT + WORDS * (1 + k) < Reach(n)
    ensures InDisk(disk, Pointer(disk, inode.blocks[DOUBLY_INDIRECT], k))
    ensures WordAt(list, BLOCK * (1 + k) + 4 * w) == Pointer(disk, Pointer(disk, inode.blocks[DOUBLY_INDIRECT], k), w)
  {
    if k == 0 {
      WordOfList(disk, list, 1, Pointer(disk, inode.blocks[DOUBLY_INDIRECT], 0), w);
    } else if k == 1 {
      WordOfList(disk, list, 2, Pointer(disk, inode.blocks[DOUBLY_INDIRECT], 1), w);
    } else {
      WordOfList(disk, list, 3, Pointer(disk, inode.blocks[DOUBLY_INDIRECT], 2), w);
    }
  }

  /** With such a page, the lookup of the loader ends where the pointers lead: in
      the block of the file, if it has one there. */
  lemma LookupIsFileBlock(disk: seq<Byte>, inode: Inode, list: seq<Byte>, n: nat, i: nat)
    requires HasLists(disk, inode, n) && n <= MAX_BLOCKS && ListFor(disk, inode, list, n) && i < Reach(n)
    ensures Lookup(inode, list, i) == FoundBlock(disk, inode, n, i)
    ensures FileBlock(disk, inode, n, i) == if HoleAt(disk, inode, n, i) then None else Some(Lookup(inode, list, i))
  {
    FoundOrHole(disk, inode, n, i);
    if i >= DIRECT + WORDS {
      LookupThroughTwo(disk, inode, list, n, i);
    } else if i >= DIRECT {
      WordOfList(disk, list, 0, inode.blocks[INDIRECT], i - DIRECT);
    }
  }

  lemma LookupThroughTwo(disk: seq<Byte>, inode: Inode, list: seq<Byte>, n: nat, i: nat)
    requires HasLists(disk, inode, n) && n <= MAX_BLOCKS && ListFor(disk, inode, list, n)
    requires DIRECT + WORDS <= i < Reach(n)
    ensures Lookup(inode, list, i) == FoundBlock(disk, inode, n, i)
  {
    var j := i - DIRECT - WORDS;
    var k, w := j / WORDS, j % WORDS;
    WordOfIndex(i, k, w);
    DoublyIndirect(disk, inode, list, n, k, w);
  }

  lemma WordOfIndex(i: nat, k: nat, w: nat)
    requires i >= DIRECT + WORDS && k == (i - DIRECT - WORDS) / WORDS && w == (i - DIRECT - WORDS) % WORDS
    ensures 4 * (i - DIRECT) == BLOCK * (1 + k) + 4 * w
  {}

  // Reading block `block` to words 256 * k on of the list.
  method ReadList(disk: seq<Byte>, size: nat, block: nat, list: array<Byte>, k: nat)
    requires IsDevice(disk, size) && InDisk(disk, block) && list.Length == LIST_SIZE && k < 4
    modifies list
    ensures Holds(disk, list[..], k, block)
    ensures forall m: nat, b: nat {:trigger Holds(disk, list[..], m, b)} :: m != k && m < 4 && Holds(disk, old(list[..]), m, b) ==> Holds(disk, list[..], m, b)
  {
    ghost var was, bytes := list[..], disk[block * BLOCK..block * BLOCK + BLOCK];
    EnhancedRead(disk, size, block * BLOCK, list, BLOCK * k, BLOCK);
    SpliceSlice(was, BLOCK * k, bytes, BLOCK * k, BLOCK * k + BLOCK);
    forall m: nat, b: nat {:trigger Holds(disk, list[..], m, b)} | m != k && m < 4 && Holds(disk, old(list[..]), m, b) ensures Holds(disk, list[..], m, b) {
      SpliceSlice(was, BLOCK * k, bytes, BLOCK * m, BLOCK * m + BLOCK);
    }
  }

  // ext2_open's block list. The doubly indirect block is read to words 256 on,
  // its first three pointers are kept aside, and then it is overwritten.
  method BlockList(disk: seq<Byte>, size: nat, inode: Inode, list: array<Byte>)
    requires IsDevice(disk, size) && list.Length == LIST_SIZE
    requires BlockCount(inode.size) <= MAX_BLOCKS && HasLists(disk, inode, BlockCount(inode.size))
    modifies list
    ensures ListFor(disk, inode, list[..], BlockCount(inode.size))
    ensures forall i: nat :: i < Reach(BlockCount(inode.size)) ==>
              Lookup(inode, list[..], i) == FoundBlock(disk, inode, BlockCount(inode.size), i)
  {
    var count := inode.size / BLOCK;
    if inode.size % BLOCK != 0 {
      count := count + 1;
    }
    if count > 12 {
      ReadList(disk, size, inode.blocks[INDIRECT], list, 0);
    }
    var d0, d1, d2 := 0, 0, 0;
    if count > 268 {
      d0, d1, d2 := DoublyIndirectPointers(disk, size, inode.blocks[DOUBLY_INDIRECT], list);
      ReadList(disk, size, d0, list, 1);
    }
    if count > 524 {
      ReadList(disk, size, d1, list, 2);
    }
    if count > 780 {
      ReadList(disk, size, d2, list, 3);
    }
    forall i: nat | i < Reach(count) ensures Lookup(inode, list[..], i) == FoundBlock(disk, inode, count, i) {
      LookupIsFileBlock(disk, inode, list[..], count, i);
    }
  }

  // The doubly indirect block goes to words 256 on, and its first three words are kept.
  method DoublyIndirectPointers(disk: seq<Byte>, size: nat, block: nat, list: array<Byte>) returns (d0: nat, d1: nat, d2: nat)
    requires IsDevice(disk, size) && InDisk(disk, block) && list.Length == LIST_SIZE
    modifies list
    ensures d0 == Pointer(disk, block, 0) && d1 == Pointer(disk, block, 1) && d2 == Pointer(disk, block, 2)
    ensures forall b: nat {:trigger Holds(disk, list[..], 0, b)} :: Holds(disk, old(list[..]), 0, b) ==> Holds(disk, list[..], 0, b)
  {
    ReadList(disk, size, block, list, 1);
    d0, d1, d2 := WordIn(list, 256), WordIn(list, 257), WordIn(list, 258);
    WordOfList(disk, list[..], 1, block, 0);
    WordOfList(disk, list[..], 1, block, 1);
    WordOfList(disk, list[..], 1, block, 2);
  }

  function WordIn(list: array<Byte>, w: nat): nat
    requires 4 * w + 4 <= list.Length
    reads list
  {
    WordAt(list[..], 4 * w)
  }
}
