// Files with holes (kernel/ext2.c): where the code follows a pointer of 0, and
// which files and reads that leaves right.
module Ext2Holes {
  import opened Common
  import opened Memory
  import opened BlockDevice
  import opened Ext2Blocks
  import opened Ext2File
  import opened Ext2Session

  ghost predicate SameAt(disk: seq<Byte>, disk': seq<Byte>, inode: Inode, i: nat)
    requires Listed(disk, inode) && Listed(disk', inode)
  {
    i < Reach(BlockCount(inode.size)) ==>
      FileBlock(disk', inode, BlockCount(inode.size), i) == FileBlock(disk, inode, BlockCount(inode.size), i)
  }

  // On both devices the file has the same blocks and the same holes.
  ghost predicate SameMap(disk: seq<Byte>, disk': seq<Byte>, size: nat, inode: Inode)
    requires Listed(disk, inode)
  {
    && IsDevice(disk', size) && Sound(disk', inode)
    && forall i: nat {:trigger SameAt(disk, disk', inode, i)} :: SameAt(disk, disk', inode, i)
  }

  ghost predicate RightAt(disk: seq<Byte>, inode: Inode, k: nat)
    requires Listed(disk, inode)
  {
    Has(disk, inode, k / BLOCK) ==> RawByte(disk, inode, k) == FileByte(disk, inode, k)
  }

  // The code finds the bytes of the file from one place to another.
  ghost predicate Right(disk: seq<Byte>, inode: Inode, from: nat, to: nat)
    requires Listed(disk, inode)
  {
    forall k: nat {:trigger RightAt(disk, inode, k)} :: from <= k < to ==> RightAt(disk, inode, k)
  }

  ghost predicate BlockAt(disk: seq<Byte>, inode: Inode, i: nat)
    requires Listed(disk, inode)
  {
    i < Reach(BlockCount(inode.size)) ==> !IsHole(disk, inode, i)
  }

  // None of the blocks there is a hole.
  ghost predicate NoHole(disk: seq<Byte>, inode: Inode, from: nat, to: nat)
    requires Listed(disk, inode)
  {
    forall i: nat {:trigger BlockAt(disk, inode, i)} :: from / BLOCK <= i && i * BLOCK < to ==> BlockAt(disk, inode, i)
  }

  lemma RightOutsideHoles(disk: seq<Byte>, inode: Inode, from: nat, to: nat)
    requires Listed(disk, inode) && NoHole(disk, inode, from, to)
    ensures Right(disk, inode, from, to)
  {
    forall k: nat | from <= k < to ensures RightAt(disk, inode, k) {
      assert BlockAt(disk, inode, k / BLOCK);
      if Has(disk, inode, k / BLOCK) {
        FoundOrHole(disk, inode, BlockCount(inode.size), k / BLOCK);
      }
    }
  }

  lemma SameHoles(disk: seq<Byte>, disk': seq<Byte>, size: nat, inode: Inode, from: nat, to: nat)
    requires Listed(disk, inode) && SameMap(disk, disk', size, inode) && NoHole(disk, inode, from, to)
    ensures NoHole(disk', inode, from, to)
  {
    forall i: nat | from / BLOCK <= i && i * BLOCK < to ensures BlockAt(disk', inode, i) {
      assert SameAt(disk, disk', inode, i) && BlockAt(disk, inode, i);
    }
  }

  // --- a device on which no hole reads as zeros --------------------------------------

  // The blocks of pointers that the file has.
  predicate IsList(disk: seq<Byte>, inode: Inode, b: nat)
    requires Listed(disk, inode)
  {
    var n, two := BlockCount(inode.size), inode.blocks[DOUBLY_INDIRECT];
    b != 0 &&
    ((n > 12 && b == inode.blocks[INDIRECT])
     || (n > 268 && b == two)
     || (two != 0 && ((n > 268 && b == Pointer(disk, two, 0)) || (n > 524 && b == Pointer(disk, two, 1)) || (n > 780 && b == Pointer(disk, two, 2)))))
  }

  // The number of which each byte is c.
  function Filler(c: Byte): nat {
    c as nat * 0x0101_0101
  }

  // All that is no list of the file is filled with c; the device is long enough for any pointer.
  ghost function FilledWith(disk: seq<Byte>, inode: Inode, c: Byte, length: nat): (s: seq<Byte>)
    requires Listed(disk, inode) && length >= |disk|
    ensures |s| == length
  {
    seq(length, k requires 0 <= k < length => if IsList(disk, inode, k / BLOCK) && k < |disk| then disk[k] else c)
  }

  lemma WordBound(s: seq<Byte>, i: nat)
    requires i + 4 <= |s|
    ensures WordAt(s, i) < 0x1_0000_0000
  {
    assert Number(s, i + 3, 1) == s[i + 3] as nat + 0x100 * Number(s, i + 4, 0);
    assert Number(s, i + 2, 2) == s[i + 2] as nat + 0x100 * Number(s, i + 3, 1);
    assert Number(s, i + 1, 3) == s[i + 1] as nat + 0x100 * Number(s, i + 2, 2);
  }

  lemma FillerWord(s: seq<Byte>, i: nat, c: Byte)
    requires i + 4 <= |s| && s[i] == s[i + 1] == s[i + 2] == s[i + 3] == c
    ensures WordAt(s, i) == Filler(c)
  {
    assert Number(s, i + 3, 1) == c as nat + 0x100 * Number(s, i + 4, 0);
    assert Number(s, i + 2, 2) == c as nat + 0x100 * Number(s, i + 3, 1);
    assert Number(s, i + 1, 3) == c as nat + 0x100 * Number(s, i + 2, 2);
  }

  lemma ByteThere(disk: seq<Byte>, inode: Inode, c: Byte, length: nat, b: nat, x: nat)
    requires Listed(disk, inode) && length >= |disk| && (b + 1) * BLOCK <= length && x < BLOCK
    ensures FilledWith(disk, inode, c, length)[b * BLOCK + x] ==
            if IsList(disk, inode, b) && b * BLOCK + x < |disk| then disk[b * BLOCK + x] else c
  {
    assert (b * BLOCK + x) / BLOCK == b;
  }

  // The words of a list of the file are what they were, all others are the filler.
  lemma PointerThere(disk: seq<Byte>, inode: Inode, c: Byte, length: nat, b: nat, w: nat)
    requires Listed(disk, inode) && length >= |disk| && (b + 1) * BLOCK <= length && w < WORDS
    ensures !IsList(disk, inode, b) ==> Pointer(FilledWith(disk, inode, c, length), b, w) == Filler(c)
    ensures IsList(disk, inode, b) && InDisk(disk, b) ==> Pointer(FilledWith(disk, inode, c, length), b, w) == Pointer(disk, b, w)
  {
    var there, i := FilledWith(disk, inode, c, length), b * BLOCK + 4 * w;
    ByteThere(disk, inode, c, length, b, 4 * w);
    ByteThere(disk, inode, c, length, b, 4 * w + 1);
    ByteThere(disk, inode, c, length, b, 4 * w + 2);
    ByteThere(disk, inode, c, length, b, 4 * w + 3);
    if !IsList(disk, inode, b) {
      FillerWord(there, i, c);
    } else if InDisk(disk, b) {
      SameWord(there, disk, i);
    }
  }

  lemma SameWord(s: seq<Byte>, t: seq<Byte>, i: nat)
    requires i + 4 <= |s| && i + 4 <= |t| && s[i] == t[i] && s[i + 1] == t[i + 1] && s[i + 2] == t[i + 2] && s[i + 3] == t[i + 3]
    ensures WordAt(s, i) == WordAt(t, i)
  {
    assert s[i..i + 4] == t[i..i + 4];
    SameNumber(s, i, t, i, 4);
  }

  // One of six fillers is no list of the file, which has five.
  lemma SomeFiller(disk: seq<Byte>, inode: Inode) returns (c: Byte)
    requires Listed(disk, inode)
    ensures c != 0 && !IsList(disk, inode, Filler(c))
  {
    c := if !IsList(disk, inode, Filler(1)) then 1 else if !IsList(disk, inode, Filler(2)) then 2
         else if !IsList(disk, inode, Filler(3)) then 3 else if !IsList(disk, inode, Filler(4)) then 4
         else if !IsList(disk, inode, Filler(5)) then 5 else 6;
  }

  // A length for which every pointer is to a block of the device.
  const FAR: nat := 0x1_0000_0000 * BLOCK

  lemma {:induction false} LongDevice(n: nat, size: nat, more: nat) returns (length: nat)
    requires Whole(n, size)
    ensures Whole(length, size) && length >= n + more
  {
    length := n;
    if more > 0 {
      length := LongDevice(n, size, more - 1);
      length := length + size;
    }
  }

  // What the filled device is for the file.
  ghost predicate IsFilled(disk: seq<Byte>, inode: Inode, c: Byte, there: seq<Byte>)
    requires Listed(disk, inode)
  {
    var filled :=
      && |there| >= |disk| + FAR && there == FilledWith(disk, inode, c, |there|)
      && c != 0 && !IsList(disk, inode, Filler(c));
    filled
  }

  // The doubly indirect list k, as the code finds it there.
  lemma ListThere(disk: seq<Byte>, inode: Inode, c: Byte, there: seq<Byte>, k: nat)
    requires Listed(disk, inode) && IsFilled(disk, inode, c, there) && k < 3 && DIRECT + WORDS * (1 + k) < Reach(BlockCount(inode.size))
    ensures InDisk(there, inode.blocks[DOUBLY_INDIRECT])
    ensures InDisk(disk, Pointer(disk, inode.blocks[DOUBLY_INDIRECT], k))
    ensures var two := inode.blocks[DOUBLY_INDIRECT];
            Pointer(there, two, k) == if two == 0 then Filler(c) else Pointer(disk, two, k)
    ensures InDisk(there, Pointer(there, inode.blocks[DOUBLY_INDIRECT], k))
  {
    var two := inode.blocks[DOUBLY_INDIRECT];
    PointerThere(disk, inode, c, |there|, two, k);
    WordBound(there, two * BLOCK + 4 * k);
  }

  lemma ListedThere(disk: seq<Byte>, inode: Inode, c: Byte, there: seq<Byte>)
    requires Listed(disk, inode) && IsFilled(disk, inode, c, there)
    ensures Listed(there, inode)
  {
    var n := BlockCount(inode.size);
    if n > 268 { ListThere(disk, inode, c, there, 0); }
    if n > 524 { ListThere(disk, inode, c, there, 1); }
    if n > 780 { ListThere(disk, inode, c, there, 2); }
  }

  // What the code finds there for index i.
  ghost predicate FoundThere(disk: seq<Byte>, inode: Inode, there: seq<Byte>, i: nat)
    requires Listed(disk, inode) && Listed(there, inode) && i < Reach(BlockCount(inode.size))
  {
    var found :=
      && FileBlock(there, inode, BlockCount(inode.size), i) == FileBlock(disk, inode, BlockCount(inode.size), i)
      && (i >= DIRECT ==> InDisk(there, Found(there, inode, i)))
      && (IsHole(disk, inode, i) ==> InDisk(there, Found(there, inode, i)) && !IsList(disk, inode, Found(there, inode, i)));
    found
  }

  lemma FoundThroughOne(disk: seq<Byte>, inode: Inode, c: Byte, there: seq<Byte>, i: nat)
    requires Listed(disk, inode) && IsFilled(disk, inode, c, there) && Listed(there, inode)
    requires DIRECT <= i < DIRECT + WORDS && i < Reach(BlockCount(inode.size))
    ensures FoundThere(disk, inode, there, i)
  {
    var one := inode.blocks[INDIRECT];
    PointerThere(disk, inode, c, |there|, one, i - DIRECT);
    WordBound(there, one * BLOCK + 4 * (i - DIRECT));
  }

  lemma FoundThroughTwo(disk: seq<Byte>, inode: Inode, c: Byte, there: seq<Byte>, i: nat, k: nat, w: nat)
    requires Listed(disk, inode) && IsFilled(disk, inode, c, there) && Listed(there, inode)
    requires DIRECT + WORDS <= i < Reach(BlockCount(inode.size))
    requires k == (i - DIRECT - WORDS) / WORDS && w == (i - DIRECT - WORDS) % WORDS
    ensures FoundThere(disk, inode, there, i)
  {
    var two := inode.blocks[DOUBLY_INDIRECT];
    ListThere(disk, inode, c, there, k);
    var list := Pointer(there, two, k);
    if two != 0 && list != 0 {
      IsListOf(disk, inode, k);
    }
    PointerThere(disk, inode, c, |there|, list, w);
    WordBound(there, list * BLOCK + 4 * w);
  }

  lemma IsListOf(disk: seq<Byte>, inode: Inode, k: nat)
    requires Listed(disk, inode) && k < 3 && DIRECT + WORDS * (1 + k) < Reach(BlockCount(inode.size))
    requires inode.blocks[DOUBLY_INDIRECT] != 0 && Pointer(disk, inode.blocks[DOUBLY_INDIRECT], k) != 0
    ensures IsList(disk, inode, Pointer(disk, inode.blocks[DOUBLY_INDIRECT], k))
  {
  }

  /** The file has the same blocks there, and where it has a hole, the code finds
      a block that is all filler. */
  lemma BlockThere(disk: seq<Byte>, inode: Inode, c: Byte, there: seq<Byte>, i: nat)
    requires Listed(disk, inode) && IsFilled(disk, inode, c, there) && Listed(there, inode) && i < Reach(BlockCount(inode.size))
    ensures FoundThere(disk, inode, there, i)
  {
    if i >= DIRECT + WORDS {
      FoundThroughTwo(disk, inode, c, there, i, (i - DIRECT - WORDS) / WORDS, (i - DIRECT - WORDS) % WORDS);
    } else if i >= DIRECT {
      FoundThroughOne(disk, inode, c, there, i);
    }
  }

  // So it is one of the devices with the same map of the file.
  lemma FilledHasSameMap(disk: seq<Byte>, size: nat, inode: Inode, c: Byte, there: seq<Byte>)
    requires Sound(disk, inode) && IsFilled(disk, inode, c, there) && IsDevice(there, size)
    ensures SameMap(disk, there, size, inode)
  {
    ListedThere(disk, inode, c, there);
    forall i: nat ensures SameAt(disk, there, inode, i) {
      if i < Reach(BlockCount(inode.size)) { BlockThere(disk, inode, c, there, i); }
    }
    forall i: nat | i < Touched(BlockCount(inode.size)) ensures Has(there, inode, i) {
      assert Has(disk, inode, i);
      BlockThere(disk, inode, c, there, i);
    }
  }

  // And a byte of a hole is not read as 0 there.
  lemma HoleIsNotZero(disk: seq<Byte>, size: nat, inode: Inode, c: Byte, there: seq<Byte>, k: nat)
    requires Sound(disk, inode) && IsFilled(disk, inode, c, there) && SameMap(disk, there, size, inode)
    requires k / BLOCK < Reach(BlockCount(inode.size)) && IsHole(disk, inode, k / BLOCK)
    ensures !RightAt(there, inode, k)
  {
    var i := k / BLOCK;
    BlockThere(disk, inode, c, there, i);
    assert SameAt(disk, there, inode, i);
    ByteThere(disk, inode, c, |there|, Found(there, inode, i), k % BLOCK);
  }

  // --- which loads and reads are right ------------------------------------------------

  /** What the code finds from one place to another is the file, on every device
      with this map of it, exactly when there is no hole: no pointer on the way
      to the blocks there is 0. */
  lemma FoundIsFileIff(disk: seq<Byte>, size: nat, inode: Inode, from: nat, to: nat)
    requires IsDevice(disk, size) && Sound(disk, inode) && to <= Touched(BlockCount(inode.size)) * BLOCK
    ensures (forall disk' :: SameMap(disk, disk', size, inode) ==> Right(disk', inode, from, to))
            <==> from >= to || NoHole(disk, inode, from, to)
  {
    if from < to && !NoHole(disk, inode, from, to) {
      var i: nat :| from / BLOCK <= i && i * BLOCK < to && !BlockAt(disk, inode, i);
      var k := if i * BLOCK < from then from else i * BLOCK;
      var c := SomeFiller(disk, inode);
      var length := LongDevice(|disk|, size, FAR);
      var there := FilledWith(disk, inode, c, length);
      FilledHasSameMap(disk, size, inode, c, there);
      HoleIsNotZero(disk, size, inode, c, there, k);
      assert !Right(there, inode, from, to);
    } else if from < to {
      forall disk' | SameMap(disk, disk', size, inode) ensures Right(disk', inode, from, to) {
        SameHoles(disk, disk', size, inode, from, to);
        RightOutsideHoles(disk', inode, from, to);
      }
    }
  }

  /** So for the page that a load leaves in the buffer. */
  lemma LoadIsFileIff(disk: seq<Byte>, size: nat, inode: Inode, pos: nat)
    requires IsDevice(disk, size) && Sound(disk, inode) && pos < inode.size
    ensures var base := pos / PAGE * PAGE;
            (forall disk' :: SameMap(disk, disk', size, inode) ==> Right(disk', inode, base, base + PAGE))
            <==> NoHole(disk, inode, base, base + PAGE)
  {
    FoundIsFileIff(disk, size, inode, pos / PAGE * PAGE, pos / PAGE * PAGE + PAGE);
  }

  lemma RightIsContent(disk: seq<Byte>, inode: Inode, from: nat, to: nat)
    requires Sound(disk, inode) && from <= to <= inode.size
    ensures Right(disk, inode, from, to) <==> Raw(disk, inode)[from..to] == Content(disk, inode)[from..to]
  {
    var raw, content := Raw(disk, inode), Content(disk, inode);
    if Right(disk, inode, from, to) {
      forall k | from <= k < to ensures raw[k] == content[k] {
        assert RightAt(disk, inode, k) && Has(disk, inode, k / BLOCK);
      }
    }
    if raw[from..to] == content[from..to] {
      forall k: nat | from <= k < to ensures RightAt(disk, inode, k) {
        assert raw[from..to][k - from] == content[from..to][k - from] && Has(disk, inode, k / BLOCK);
      }
    }
  }

  /** A read through a right cache, or through a used up one, returns the bytes of
      the file, on every device with this map of it, exactly when there is no
      hole among them. */
  lemma ReadIsFileIff(disk: seq<Byte>, size: nat, inode: Inode, c: Cursor, n: nat)
    requires IsDevice(disk, size) && Sound(disk, inode) && Behind(c) && c.pos + n <= inode.size
    requires n == 0 || Synced(c) || c.bufPos == PAGE
    ensures (forall disk' :: SameMap(disk, disk', size, inode) ==>
               ReadBytes(Raw(disk', inode), c, n) == Content(disk', inode)[c.pos..c.pos + n])
            <==> n == 0 || NoHole(disk, inode, c.pos, c.pos + n)
  {
    FoundIsFileIff(disk, size, inode, c.pos, c.pos + n);
    forall disk' | SameMap(disk, disk', size, inode)
      ensures ReadBytes(Raw(disk', inode), c, n) == Content(disk', inode)[c.pos..c.pos + n] <==> Right(disk', inode, c.pos, c.pos + n)
    {
      RightBytes(Raw(disk', inode), c, n);
      RightIsContent(disk', inode, c.pos, c.pos + n);
    }
  }

  /** In a run of reads and seeks: a read before the first stale seek. */
  lemma AnswerIsFileIff(disk: seq<Byte>, size: nat, inode: Inode, cs: seq<Cursor>, ops: seq<Op>, n: nat)
    requires IsDevice(disk, size) && Sound(disk, inode) && Run(cs, ops, disk, inode) && n < |ops| && ops[n].ReadOp?
    requires forall i: nat {:trigger TurnsStale(ops, inode.size, i)} :: i < n ==> !TurnsStale(ops, inode.size, i)
    ensures Inside(cs[n], inode.size) && Position(ops[..n], inode.size) <= inode.size
    ensures var from := Position(ops[..n], inode.size);
            var to := Min(from + ops[n].size, inode.size);
            (forall disk' :: SameMap(disk, disk', size, inode) ==>
               Answered(Raw(disk', inode), cs[n], ops[n]) == Bytes(Content(disk', inode)[from..to]))
            <==> from == to || NoHole(disk, inode, from, to)
  {
    RunInside(cs, ops, disk, inode, n);
    SyncedUntilStale(cs, ops, disk, inode, n);
    PositionIsKnown(cs, ops, disk, inode, n);
    ReadIsFileIff(disk, size, inode, cs[n], Got(cs[n], ops[n].size, inode.size));
  }

  /** And for the whole file, which is what reads alone return. */
  lemma RawIsFileIff(disk: seq<Byte>, size: nat, inode: Inode)
    requires IsDevice(disk, size) && Sound(disk, inode)
    ensures (forall disk' :: SameMap(disk, disk', size, inode) ==> Raw(disk', inode) == Content(disk', inode))
            <==> inode.size == 0 || NoHole(disk, inode, 0, inode.size)
  {
    FoundIsFileIff(disk, size, inode, 0, inode.size);
    forall disk' | SameMap(disk, disk', size, inode)
      ensures Raw(disk', inode) == Content(disk', inode) <==> Right(disk', inode, 0, inode.size)
    {
      RightIsContent(disk', inode, 0, inode.size);
      assert Raw(disk', inode)[0..inode.size] == Raw(disk', inode) && Content(disk', inode)[0..inode.size] == Content(disk', inode);
    }
  }

  /** A sparse file of two blocks, whose first one is a hole: the code reads the
      boot block in its place. */
  lemma SparseFile(disk: seq<Byte>, inode: Inode)
    requires |disk| >= 4 * BLOCK && inode == Inode(2 * BLOCK, [0, 3, 0, 0, 0, 0, 0, 0, 0, 0, 0, 0, 0, 0, 0])
    ensures Sound(disk, inode) && IsHole(disk, inode, 0) && !IsHole(disk, inode, 1)
    ensures Raw(disk, inode)[..BLOCK] == disk[..BLOCK]
    ensures Content(disk, inode)[..BLOCK] == seq(BLOCK, _ => 0)
  {
  }
}
