// How ext2 lays numbers, inodes and directories out in bytes: what is written
// that way is what kernel/ext2.c reads.
module Ext2Layout {
  import opened Common
  import opened Memory
  import opened BlockDevice
  import opened Ext2Blocks
  import opened Ext2Path
  import F = Ext2File

  // --- numbers ----------------------------------------------------------------------------

  // The number n is written from i on; the least byte comes first.
  predicate IsHalf(s: seq<Byte>, i: nat, n: nat) {
    && i + 2 <= |s| && n < 0x10000
    && s[i] as nat == n % 0x100 && s[i + 1] as nat == n / 0x100
  }

  predicate IsWord(s: seq<Byte>, i: nat, n: nat) {
    && i + 4 <= |s| && n < 0x1_0000_0000
    && s[i] as nat == n % 0x100 && s[i + 1] as nat == n / 0x100 % 0x100
    && s[i + 2] as nat == n / 0x10000 % 0x100 && s[i + 3] as nat == n / 0x1000000
  }

  lemma WordByBytes(s: seq<Byte>, i: nat)
    requires i + 4 <= |s|
    ensures WordAt(s, i) == s[i] as nat + 0x100 * (s[i + 1] as nat) + 0x10000 * (s[i + 2] as nat) + 0x1000000 * (s[i + 3] as nat)
  {
    assert Number(s, i + 4, 0) == 0;
    assert Number(s, i + 3, 1) == s[i + 3] as nat;
    assert Number(s, i + 2, 2) == s[i + 2] as nat + 0x100 * Number(s, i + 3, 1);
    assert Number(s, i + 1, 3) == s[i + 1] as nat + 0x100 * Number(s, i + 2, 2);
  }

  lemma HalfByBytes(s: seq<Byte>, i: nat)
    requires i + 2 <= |s|
    ensures Number(s, i, 2) == s[i] as nat + 0x100 * (s[i + 1] as nat)
  {
    assert Number(s, i + 2, 0) == 0;
    assert Number(s, i + 1, 1) == s[i + 1] as nat;
  }

  // Four digits to the base 256.
  lemma FourDigits(n: nat)
    requires n < 0x1_0000_0000
    ensures n == n % 0x100 + 0x100 * (n / 0x100 % 0x100) + 0x10000 * (n / 0x10000 % 0x100) + 0x1000000 * (n / 0x1000000)
  {
  }

  lemma DigitsOf(a: nat, b: nat, c: nat, d: nat, n: nat)
    requires a < 0x100 && b < 0x100 && c < 0x100 && d < 0x100 && n == a + 0x100 * b + 0x10000 * c + 0x1000000 * d
    ensures n < 0x1_0000_0000 && n % 0x100 == a && n / 0x100 % 0x100 == b && n / 0x10000 % 0x100 == c && n / 0x1000000 == d
  {
    DivUnique(n, b + 0x100 * c + 0x10000 * d, a, 0x100);
    DivUnique(n, c + 0x100 * d, a + 0x100 * b, 0x10000);
    DivUnique(n, d, a + 0x100 * b + 0x10000 * c, 0x1000000);
  }

  lemma ByteBelow(b: Byte)
    ensures b as nat < 0x100
  {
  }

  /** What the code reads as a number of 32 bits is the number that is written
      there, for every number and every four bytes. */
  lemma WordIsRead(s: seq<Byte>, i: nat, n: nat)
    requires i + 4 <= |s|
    ensures IsWord(s, i, n) <==> WordAt(s, i) == n
    ensures WordAt(s, i) < 0x1_0000_0000
  {
    ByteBelow(s[i]);
    ByteBelow(s[i + 1]);
    ByteBelow(s[i + 2]);
    ByteBelow(s[i + 3]);
    WordByBytes(s, i);
    DigitsOf(s[i] as nat, s[i + 1] as nat, s[i + 2] as nat, s[i + 3] as nat, WordAt(s, i));
    if IsWord(s, i, n) {
      FourDigits(n);
    }
  }

  lemma HalfIsRead(s: seq<Byte>, i: nat, n: nat)
    requires i + 2 <= |s|
    ensures IsHalf(s, i, n) <==> Number(s, i, 2) == n
  {
    ByteBelow(s[i]);
    ByteBelow(s[i + 1]);
    HalfByBytes(s, i);
    DivUnique(Number(s, i, 2), s[i + 1] as nat, s[i] as nat, 0x100);
  }

  lemma ByteIsRead(s: seq<Byte>, i: nat)
    requires i < |s|
    ensures Number(s, i, 1) == s[i] as nat
  {
    assert Number(s, i + 1, 0) == 0;
  }

  // --- directories --------------------------------------------------------------------------

  // The bytes of an entry: inode, length of the record, length of the name, kind,
  // the name, and whatever pads it.
  ghost predicate IsRecord(image: seq<Byte>, e: Entry) {
    && 8 + |e.name| <= |image| && IsWord(image, 0, e.inode) && IsHalf(image, 4, |image|)
    && image[6] as nat == |e.name| && image[8..8 + |e.name|] == e.name
  }

  // What the code takes from such bytes.
  predicate ReadAs(image: seq<Byte>, e: Entry) {
    && 8 + |e.name| <= |image| && RecLen(image, 0) == |image| && NameLen(image, 0) == |e.name|
    && WordAt(image, 0) == e.inode && image[8..8 + |e.name|] == e.name
  }

  lemma RecordIsRead(image: seq<Byte>, e: Entry)
    requires IsRecord(image, e)
    ensures ReadAs(image, e)
  {
    WordIsRead(image, 0, e.inode);
    HalfIsRead(image, 4, |image|);
    ByteIsRead(image, 6);
  }

  lemma NumberThere(dir: seq<Byte>, off: nat, image: seq<Byte>, at: nat, bytes: nat)
    requires off + |image| <= |dir| && dir[off..off + |image|] == image && at + bytes <= |image|
    ensures Number(dir, off + at, bytes) == Number(image, at, bytes)
  {
    SliceOfSlice(dir, off, |image|, at, bytes);
    SameNumber(dir, off + at, image, at, bytes);
  }

  lemma FieldsThere(dir: seq<Byte>, off: nat, image: seq<Byte>, e: Entry)
    requires ReadAs(image, e) && off + |image| <= |dir| && dir[off..off + |image|] == image
    ensures RecLen(dir, off) == |image| && NameLen(dir, off) == |e.name|
    ensures WordAt(dir, off) == e.inode && dir[off + 8..off + 8 + |e.name|] == e.name
  {
    NumberThere(dir, off, image, 0, 4);
    NumberThere(dir, off, image, 4, 2);
    NumberThere(dir, off, image, 6, 1);
    SliceOfSlice(dir, off, |image|, 8, |e.name|);
  }

  lemma EntryIsRead(dir: seq<Byte>, off: nat, image: seq<Byte>, e: Entry)
    requires ReadAs(image, e) && off + |image| <= |dir| && dir[off..off + |image|] == image && WellFormed(dir, off + |image|)
    ensures WellFormed(dir, off) && Entries(dir, off) == [e] + Entries(dir, off + |image|)
  {
    FieldsThere(dir, off, image, e);
    assert WellFormed(dir, off) && EntryAt(dir, off) == e;
  }

  // The bytes of a directory, record by record, and what they say.
  datatype Layout = End | Record(image: seq<Byte>, entry: Entry, rest: Layout) {
    function Bytes(): seq<Byte> {
      if End? then [] else image + rest.Bytes()
    }

    function Listed(): seq<Entry> {
      if End? then [] else [entry] + rest.Listed()
    }

    ghost predicate Written() {
      Record? ==> IsRecord(image, entry) && rest.Written()
    }
  }

  lemma FirstAndRest(dir: seq<Byte>, off: nat, first: seq<Byte>, rest: seq<Byte>)
    requires off <= |dir| && dir[off..] == first + rest
    ensures off + |first| <= |dir| && dir[off..off + |first|] == first && dir[off + |first|..] == rest
  {
    var tail := dir[off..];
    assert tail[..|first|] == first && tail[|first|..] == rest;
  }

  lemma {:induction false} LayoutIsRead(dir: seq<Byte>, off: nat, l: Layout)
    requires off <= |dir| && dir[off..] == l.Bytes() && l.Written()
    ensures WellFormed(dir, off) && Entries(dir, off) == l.Listed()
    decreases l
  {
    if l.Record? {
      FirstAndRest(dir, off, l.image, l.rest.Bytes());
      LayoutIsRead(dir, off + |l.image|, l.rest);
      RecordIsRead(l.image, l.entry);
      EntryIsRead(dir, off, l.image, l.entry);
    }
  }

  /** A directory written record by record is well formed, and what the code reads in
      it is the list of its entries, whatever pads them. */
  lemma DirectoryIsRead(l: Layout)
    requires l.Written()
    ensures WellFormed(l.Bytes(), 0) && Entries(l.Bytes(), 0) == l.Listed()
  {
    LayoutIsRead(l.Bytes(), 0, l);
  }

  // --- inodes ----------------------------------------------------------------------------------

  // The size of a file is at 4, and its fifteen pointers are from 40 on.
  ghost predicate LaidOut(bytes: seq<Byte>, inode: Inode) {
    && |bytes| == 128 && |inode.blocks| == 15 && IsWord(bytes, 4, inode.size)
    && forall k {:trigger inode.blocks[k]} :: 0 <= k < 15 ==> IsWord(bytes, 40 + 4 * k, inode.blocks[k])
  }

  lemma InodeIsRead(bytes: seq<Byte>, inode: Inode)
    requires LaidOut(bytes, inode)
    ensures InodeOf(bytes) == inode
  {
    WordIsRead(bytes, 4, inode.size);
    forall k | 0 <= k < 15 ensures InodeOf(bytes).blocks[k] == inode.blocks[k] {
      WordIsRead(bytes, 40 + 4 * k, inode.blocks[k]);
    }
  }

  function Joined(images: seq<seq<Byte>>): (s: seq<Byte>)
    requires forall k :: 0 <= k < |images| ==> |images[k]| == INODE_SIZE
    ensures |s| == INODE_SIZE * |images|
  {
    if images == [] then [] else Joined(images[..|images| - 1]) + images[|images| - 1]
  }

  lemma {:induction false} ImageInTable(images: seq<seq<Byte>>, j: nat)
    requires j < |images| && forall k :: 0 <= k < |images| ==> |images[k]| == INODE_SIZE
    ensures Joined(images)[INODE_SIZE * j..INODE_SIZE * j + INODE_SIZE] == images[j]
  {
    var before := images[..|images| - 1];
    if j < |before| {
      ImageInTable(before, j);
      assert Joined(images)[INODE_SIZE * j..INODE_SIZE * j + INODE_SIZE] == Joined(before)[INODE_SIZE * j..INODE_SIZE * j + INODE_SIZE];
    }
  }

  lemma ImageOnDisk(disk: seq<Byte>, start: nat, images: seq<seq<Byte>>, j: nat)
    requires j < |images| && forall k :: 0 <= k < |images| ==> |images[k]| == INODE_SIZE
    requires start + INODE_SIZE * |images| <= |disk| && disk[start..start + INODE_SIZE * |images|] == Joined(images)
    ensures start + INODE_SIZE * j + INODE_SIZE <= |disk|
    ensures disk[start + INODE_SIZE * j..start + INODE_SIZE * j + INODE_SIZE] == images[j]
  {
    ImageInTable(images, j);
    SliceOfSlice(disk, start, INODE_SIZE * |images|, INODE_SIZE * j, INODE_SIZE);
  }

  /** Inodes are numbered from 1, group by group; those of a group lie one after
      the other in the table of the group, from its start on. */
  lemma TableIsRead(fs: Fs, g: nat, images: seq<seq<Byte>>, j: nat, id: nat, inode: Inode)
    requires IsDevice(fs.disk, fs.sectorSize) && g < |fs.tables| && j < |images| <= fs.perGroup
    requires forall k :: 0 <= k < |images| ==> |images[k]| == INODE_SIZE
    requires fs.tables[g] * BLOCK + INODE_SIZE * |images| <= |fs.disk|
    requires fs.disk[fs.tables[g] * BLOCK..fs.tables[g] * BLOCK + INODE_SIZE * |images|] == Joined(images)
    requires id == g * fs.perGroup + j + 1 && LaidOut(images[j], inode)
    ensures HasInode(fs, id) && InodeAt(fs, id) == inode
  {
    ImageOnDisk(fs.disk, fs.tables[g] * BLOCK, images, j);
    InodeIsRead(images[j], inode);
    InodeIsThere(fs, g, j, id, images[j], inode);
  }

  lemma InodeIsThere(fs: Fs, g: nat, j: nat, id: nat, image: seq<Byte>, inode: Inode)
    requires IsDevice(fs.disk, fs.sectorSize) && g < |fs.tables| && j < fs.perGroup && id == g * fs.perGroup + j + 1
    requires |image| == INODE_SIZE && InodeOf(image) == inode
    requires var at := fs.tables[g] * BLOCK + INODE_SIZE * j;
             at + INODE_SIZE <= |fs.disk| && fs.disk[at..at + INODE_SIZE] == image
    ensures HasInode(fs, id) && InodeAt(fs, id) == inode
  {
    StartInTable(fs, g, j);
  }

  lemma StartInTable(fs: Fs, g: nat, j: nat)
    requires g < |fs.tables| && j < fs.perGroup
    ensures var id := g * fs.perGroup + j + 1;
            (id - 1) / fs.perGroup == g && InodeStart(fs, id) == fs.tables[g] * BLOCK + INODE_SIZE * j
  {
    DivUnique(g * fs.perGroup + j, g, j, fs.perGroup);
  }

  // --- the blocks of a file ----------------------------------------------------------------------

  lemma PointerIsRead(disk: seq<Byte>, block: nat, w: nat, n: nat)
    requires InDisk(disk, block) && w < 256 && IsWord(disk, 1024 * block + 4 * w, n)
    ensures Pointer(disk, block, w) == n
  {
    WordIsRead(disk, 1024 * block + 4 * w, n);
  }

  // Block w of those behind the singly indirect block; block w of those behind list k.
  ghost predicate BehindOne(disk: seq<Byte>, one: nat, bs: seq<nat>, w: nat) {
    w < 256 && 12 + w < |bs| ==> IsWord(disk, 1024 * one + 4 * w, bs[12 + w])
  }

  ghost predicate BehindTwo(disk: seq<Byte>, list: nat, bs: seq<nat>, k: nat, w: nat) {
    w < 256 && 268 + 256 * k + w < |bs| ==> IsWord(disk, 1024 * list + 4 * w, bs[268 + 256 * k + w])
  }

  // List k, which the doubly indirect block has, if the file is that long.
  ghost predicate ListLaidOut(disk: seq<Byte>, two: nat, list: nat, bs: seq<nat>, k: nat) {
    268 + 256 * k < |bs| ==>
      && two != 0 && InDisk(disk, two) && list != 0 && InDisk(disk, list) && IsWord(disk, 1024 * two + 4 * k, list)
      && forall w: nat :: BehindTwo(disk, list, bs, k, w)
  }

  /** The blocks bs of a file as ext2 lays them out: twelve pointers in the inode,
      then 256 in the singly indirect block, then 256 in each list that the
      doubly indirect block names. A pointer of 0 is a hole. */
  ghost predicate BlocksLaidOut(disk: seq<Byte>, inode: Inode, lists: seq<nat>, bs: seq<nat>) {
    && |inode.blocks| == 15 && |lists| == 3 && |bs| <= 1036
    && (forall i :: 0 <= i < 12 && i < |bs| ==> inode.blocks[i] == bs[i])
    && (|bs| > 12 ==> inode.blocks[12] != 0 && InDisk(disk, inode.blocks[12])
                      && forall w: nat :: BehindOne(disk, inode.blocks[12], bs, w))
    && ListLaidOut(disk, inode.blocks[13], lists[0], bs, 0)
    && ListLaidOut(disk, inode.blocks[13], lists[1], bs, 1)
    && ListLaidOut(disk, inode.blocks[13], lists[2], bs, 2)
  }

  lemma ListIsFound(disk: seq<Byte>, two: nat, list: nat, bs: seq<nat>, k: nat, w: nat)
    requires k < 3 && w < 256 && 268 + 256 * k < |bs| && ListLaidOut(disk, two, list, bs, k)
    ensures InDisk(disk, two) && Pointer(disk, two, k) == list && InDisk(disk, list)
    ensures 268 + 256 * k + w < |bs| ==> Pointer(disk, list, w) == bs[268 + 256 * k + w]
  {
    PointerIsRead(disk, two, k, list);
    if 268 + 256 * k + w < |bs| {
      assert BehindTwo(disk, list, bs, k, w);
      PointerIsRead(disk, list, w, bs[268 + 256 * k + w]);
    }
  }

  lemma ListsAreThere(disk: seq<Byte>, inode: Inode, lists: seq<nat>, bs: seq<nat>)
    requires BlocksLaidOut(disk, inode, lists, bs)
    ensures HasLists(disk, inode, |bs|)
  {
    if |bs| > 268 { ListIsFound(disk, inode.blocks[13], lists[0], bs, 0, 0); }
    if |bs| > 524 { ListIsFound(disk, inode.blocks[13], lists[1], bs, 1, 0); }
    if |bs| > 780 { ListIsFound(disk, inode.blocks[13], lists[2], bs, 2, 0); }
  }

  /** What the code finds for an index of such a file is its block there, and so is
      what ext2 defines, unless there is a hole. */
  lemma BlockIsFound(disk: seq<Byte>, inode: Inode, lists: seq<nat>, bs: seq<nat>, i: nat)
    requires BlocksLaidOut(disk, inode, lists, bs) && i < |bs|
    ensures HasLists(disk, inode, |bs|) && FoundBlock(disk, inode, |bs|, i) == bs[i]
    ensures FileBlock(disk, inode, |bs|, i) == if bs[i] == 0 then None else Some(bs[i])
  {
    ListsAreThere(disk, inode, lists, bs);
    if 12 <= i < 268 {
      assert BehindOne(disk, inode.blocks[12], bs, i - 12);
      PointerIsRead(disk, inode.blocks[12], i - 12, bs[i]);
    } else if i >= 268 {
      var k := (i - 268) / 256;
      ListIsFound(disk, inode.blocks[13], lists[k], bs, k, (i - 268) % 256);
    }
  }

  // Byte k of the contents is in its block, or there is a hole.
  ghost predicate ByteLaidOut(disk: seq<Byte>, bs: seq<nat>, content: seq<Byte>, k: nat) {
    k < |content| && k / 1024 < |bs| ==>
      if bs[k / 1024] == 0 then content[k] == 0
      else 1024 * bs[k / 1024] + k % 1024 < |disk| && disk[1024 * bs[k / 1024] + k % 1024] == content[k]
  }

  /** A file laid out block by block: the contents of its inode, as defined for
      reads, are what was written; without holes the code reads just that. */
  lemma FileIsRead(disk: seq<Byte>, inode: Inode, lists: seq<nat>, bs: seq<nat>, content: seq<Byte>)
    requires BlocksLaidOut(disk, inode, lists, bs) && F.Sound(disk, inode)
    requires |content| == inode.size && |bs| == BlockCount(inode.size)
    requires forall k: nat :: ByteLaidOut(disk, bs, content, k)
    ensures F.Content(disk, inode) == content
    ensures (forall i :: 0 <= i < |bs| ==> bs[i] != 0) ==> F.Raw(disk, inode) == content
  {
    forall k: nat | k < |content|
      ensures F.Content(disk, inode)[k] == content[k] && (bs[k / 1024] != 0 ==> F.Raw(disk, inode)[k] == content[k])
    {
      assert ByteLaidOut(disk, bs, content, k) && F.Has(disk, inode, k / BLOCK);
      BlockIsFound(disk, inode, lists, bs, k / 1024);
    }
  }
}
