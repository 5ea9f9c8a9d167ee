// An open file of kernel/ext2.c: a position and a cache of one page.
module Ext2File {
  import opened Common
  import opened Memory
  import opened BlockDevice
  import opened Ext2Blocks

  const PAGE: nat := 4096          // buf_len
  const WRAP: nat := 0x1_0000_0000

  // --- the position and the cache, as a value -----------------------------------------

  // `chunk` is the page of the file in the buffer; none is buffer_empty.
  datatype Cursor = Cursor(pos: nat, bufPos: nat, chunk: Option<nat>)

  // The next byte of the buffer is the next byte of the file.
  predicate Synced(c: Cursor) {
    c.chunk.Some? ==> c.chunk.value * PAGE + c.bufPos == c.pos
  }

  function Loaded(pos: nat): Cursor {
    Cursor(pos, pos % PAGE, Some(pos / PAGE))
  }

  // ext2_file_seek
  function AfterSeek(c: Cursor, position: nat): Cursor {
    if c.pos / PAGE != position / PAGE || c.chunk.None? then Loaded(position)
    else Cursor(position, position % PAGE, c.chunk)
  }

  // The cursor that a read starts from: an empty buffer is loaded first.
  function Ready(c: Cursor): Cursor {
    if c.chunk.None? then Loaded(c.pos) else c
  }

  // ext2_file_read of `size`, of which n bytes are there: what the buffer holds
  // may do, or pages are loaded and the last one stays.
  function AfterRead(c: Cursor, size: nat, n: nat): Cursor {
    var d := Ready(c);
    if size == 0 then c
    else if n == 0 || d.bufPos + n <= PAGE then Cursor(d.pos + n, d.bufPos + n, d.chunk)
    else
      var last := d.pos + n - 1;
      Cursor(d.pos + n, last % PAGE + 1, Some(last / PAGE))
  }

  // Where the next byte of the buffer is in the file.
  function Here(c: Cursor): nat {
    if c.chunk.Some? then c.chunk.value * PAGE + c.bufPos else c.pos
  }

  // The buffer never gets ahead of the position.
  predicate Behind(c: Cursor) {
    c.bufPos <= PAGE && Here(c) <= c.pos
  }

  // The seek goes to the chunk after the one in the buffer, and is taken to stay in it.
  predicate Stale(c: Cursor, position: nat) {
    c.chunk.Some? && c.bufPos == PAGE && position / PAGE == c.pos / PAGE
  }

  /** A seek leaves the cache right unless it follows a read that ended on a page
      boundary and goes to the page after it; that a caller can tell before. */
  lemma SeekKeepsSyncedIff(c: Cursor, position: nat)
    requires Synced(c) && c.bufPos <= PAGE
    ensures Synced(AfterSeek(c, position)) <==> !Stale(c, position)
  {}

  /** A seek goes where it was asked to, and the cache has the page of that place
      unless the seek is stale. */
  lemma SeekGoesThere(c: Cursor, position: nat)
    requires Synced(c) && c.bufPos <= PAGE
    ensures AfterSeek(c, position).pos == position
    ensures !Stale(c, position) ==> AfterSeek(c, position) == Cursor(position, position % PAGE, Some(position / PAGE))
  {}

  // Reads leave it right if they find it so, and when they load a page.
  lemma ReadSyncs(c: Cursor, size: nat, n: nat)
    requires Behind(c) && n <= size
    ensures Behind(AfterRead(c, size, n))
    ensures Synced(c) || Ready(c).bufPos + n > PAGE ==> Synced(AfterRead(c, size, n))
  {}

  lemma SeekStaysBehind(c: Cursor, position: nat)
    requires Behind(c)
    ensures Behind(AfterSeek(c, position))
  {
    if c.pos / PAGE == position / PAGE && c.chunk.Some? {
      ChunkBehind(c.chunk.value, c.bufPos, c.pos);
    }
  }

  lemma ChunkBehind(chunk: nat, bufPos: nat, pos: nat)
    requires chunk * PAGE + bufPos <= pos
    ensures chunk <= pos / PAGE
  {}

  // Read one page, then seek to 5000: the buffer still holds the first page.
  lemma StaleSeek()
    ensures var c := AfterSeek(AfterRead(Cursor(0, 0, None), PAGE, PAGE), 5000);
            c == Cursor(5000, 904, Some(0)) && !Synced(c)
  {}

  // --- what reads return ----------------------------------------------------------------------

  // The size that ext2_file_read goes on with; the sum is of 32 bits.
  function Clipped(pos: nat, size: nat, fileSize: nat): nat
    requires pos <= fileSize
  {
    if (pos + size) % WRAP > fileSize then fileSize - pos else size
  }

  /** It is what is left of the file, at most, exactly when the sum does not wrap. */
  lemma ClippedIff(pos: nat, size: nat, fileSize: nat)
    requires pos <= fileSize < WRAP && size < WRAP
    ensures Clipped(pos, size, fileSize) == (if size <= fileSize - pos then size else fileSize - pos)
            <==> pos + size < WRAP
  {}

  // Read one byte of ten, then ask for 2^32 - 1 more: nine are left, and nothing is clipped.
  lemma WrappedSize()
    ensures AfterRead(Cursor(0, 0, None), 1, 1).pos == 1 && Clipped(1, 0xFFFF_FFFF, 10) == 0xFFFF_FFFF
  {}

  // How many bytes a read gets.
  function Taken(content: seq<Byte>, pos: nat, size: nat): (n: nat)
    requires pos <= |content|
    ensures pos + n <= |content|
  {
    if size <= |content| - pos then size else |content| - pos
  }

  // The bytes of a read of n bytes: first those in the buffer, from wherever it
  // was loaded, then those of the pages loaded meanwhile.
  function ReadBytes(content: seq<Byte>, c: Cursor, n: nat): (s: seq<Byte>)
    requires Behind(c) && c.pos + n <= |content|
    ensures |s| == n
  {
    var here, k := Here(c), Min(n, PAGE - Ready(c).bufPos);
    content[here..here + k] + content[c.pos + k..c.pos + n]
  }

  lemma ReadyFirst(content: seq<Byte>, c: Cursor, size: nat, n: nat)
    requires Behind(c) && c.pos + n <= |content| && 0 < size && n <= size
    ensures Behind(Ready(c)) && ReadBytes(content, Ready(c), n) == ReadBytes(content, c, n)
    ensures AfterRead(Ready(c), n, n) == AfterRead(c, size, n)
  {}

  lemma NothingRead(content: seq<Byte>, c: Cursor, dest: seq<Byte>)
    requires Behind(c) && c.pos <= |content|
    ensures Splice(dest, 0, ReadBytes(content, c, 0)) == dest
  {}

  /** They are the bytes of the file at the position, whatever the file, exactly
      when the cache is right or not used. */
  lemma ReadIsRightIff(c: Cursor, n: nat, size: nat)
    requires Behind(c) && c.pos + n <= size
    ensures (forall content: seq<Byte> :: |content| == size ==> ReadBytes(content, c, n) == content[c.pos..c.pos + n])
            <==> n == 0 || Synced(c) || c.bufPos == PAGE
  {
    if n == 0 || Synced(c) || c.bufPos == PAGE {
      forall content: seq<Byte> | |content| == size ensures ReadBytes(content, c, n) == content[c.pos..c.pos + n] {
        RightBytes(content, c, n);
      }
    } else {
      var content: seq<Byte> := seq(size, i => if i == Here(c) then 1 else 0);
      assert ReadBytes(content, c, n)[0] == 1 && content[c.pos..c.pos + n][0] == 0;
    }
  }

  lemma RightBytes(content: seq<Byte>, c: Cursor, n: nat)
    requires Behind(c) && c.pos + n <= |content| && (n == 0 || Synced(c) || c.bufPos == PAGE)
    ensures ReadBytes(content, c, n) == content[c.pos..c.pos + n]
  {
    Adjacent(content, c.pos, c.pos + Min(n, PAGE - Ready(c).bufPos), c.pos + n);
  }

  lemma Adjacent(s: seq<Byte>, i: nat, j: nat, k: nat)
    requires i <= j <= k <= |s|
    ensures s[i..j] + s[j..k] == s[i..k]
  {}

  // A read of n bytes, begun at c0 with a page in the buffer, has copied `done`.
  predicate Midway(c0: Cursor, c: Cursor, n: nat, done: nat) {
    var midway :=
      && c0.chunk.Some? && c.chunk.Some? && c.pos == c0.pos + done && done <= n
      && if done == n && c0.bufPos + n <= PAGE then c == Cursor(c0.pos + n, c0.bufPos + n, c0.chunk)
         else (c == c0 && done == 0) || (Synced(c) && c0.bufPos + done >= PAGE && (done == n ==> 0 < c.bufPos <= PAGE));
    midway
  }

  lemma Begun(c: Cursor, n: nat, was: seq<Byte>, bytes: seq<Byte>)
    requires c.chunk.Some? && |bytes| == n <= |was|
    ensures Midway(c, c, n, 0) && Copied(was, was, bytes, 0)
  {}

  // A round of k bytes, of `left` wanted: the next page is loaded if that was not all.
  function AfterRound(c: Cursor, k: nat, left: nat): Cursor {
    if left > k then Loaded(c.pos + k) else Cursor(c.pos + k, c.bufPos + k, c.chunk)
  }

  lemma MidwayNext(c0: Cursor, c: Cursor, n: nat, done: nat, k: nat)
    requires Midway(c0, c, n, done) && Behind(c0) && Behind(c) && done < n && k == Min(n - done, PAGE - c.bufPos)
    ensures var t := AfterRound(c, k, n - done); Midway(c0, t, n, done + k) && (k == 0 ==> t.bufPos < c.bufPos)
  {}

  lemma Finished(c0: Cursor, c: Cursor, n: nat, done: nat, left: nat, bytes: seq<Byte>)
    requires Midway(c0, c, n, done) && Behind(c0) && done + left == n == |bytes| && !(left > 0)
    ensures done == n && c == AfterRead(c0, n, n)
  {}

  lemma ReadByteAt(content: seq<Byte>, c: Cursor, n: nat, i: nat)
    requires Behind(c) && c.pos + n <= |content| && i < n
    ensures ReadBytes(content, c, n)[i] == content[if i < PAGE - Ready(c).bufPos then Here(c) + i else c.pos + i]
  {}

  predicate CopiedAt(was: seq<Byte>, now: seq<Byte>, bytes: seq<Byte>, done: nat, i: nat) {
    i < |now| == |was| && done <= |bytes| ==> now[i] == if i < done then bytes[i] else was[i]
  }

  // The first `done` of the bytes are in the user's buffer.
  ghost predicate Copied(was: seq<Byte>, now: seq<Byte>, bytes: seq<Byte>, done: nat) {
    |now| == |was| && forall i: nat {:trigger CopiedAt(was, now, bytes, done, i)} :: CopiedAt(was, now, bytes, done, i)
  }

  // What the buffer has is what comes next.
  lemma CopiedNext(content: seq<Byte>, c0: Cursor, c: Cursor, n: nat, was: seq<Byte>, now: seq<Byte>, next: seq<Byte>, done: nat, k: nat)
    requires Behind(c0) && Behind(c) && c0.pos + n <= |content| && Midway(c0, c, n, done) && done < n <= |was|
    requires k == Min(n - done, PAGE - c.bufPos)
    requires Copied(was, now, ReadBytes(content, c0, n), done) && Overlaid(content, Here(c), now, next, done, k)
    ensures Copied(was, next, ReadBytes(content, c0, n), done + k)
  {
    var bytes, end := ReadBytes(content, c0, n), done + k;
    forall i: nat {:trigger CopiedAt(was, next, bytes, end, i)} ensures CopiedAt(was, next, bytes, end, i) {
      assert CopiedAt(was, now, bytes, done, i) && OverlaidAt(content, Here(c), now, next, done, k, i);
      if done <= i < end {
        ReadByteAt(content, c0, n, i);
      }
    }
  }

  /** The address o bytes into the buffer is not the user's: the bytes before it have
      been copied, and the position is after them. */
  ghost predicate Failed(was: seq<Byte>, now: seq<Byte>, bytes: seq<Byte>, c0: Cursor, c: Cursor, user: nat -> bool, o: nat) {
    o < |bytes| && !user(o) && c.pos == c0.pos + o && Copied(was, now, bytes, o)
  }

  lemma FailedFrom(was: seq<Byte>, now: seq<Byte>, bytes: seq<Byte>, c0: Cursor, c1: Cursor, c: Cursor, user: nat -> bool)
    requires c0.pos == c1.pos
    ensures (exists o: nat :: Failed(was, now, bytes, c0, c, user, o)) ==> exists o: nat :: Failed(was, now, bytes, c1, c, user, o)
  {
    if o: nat :| Failed(was, now, bytes, c0, c, user, o) {
      assert Failed(was, now, bytes, c1, c, user, o);
    }
  }

  lemma AllCopied(was: seq<Byte>, now: seq<Byte>, bytes: seq<Byte>, done: nat)
    requires Copied(was, now, bytes, done) && done == |bytes| <= |was|
    ensures now == Splice(was, 0, bytes)
  {
    forall i | 0 <= i < |was| ensures now[i] == Splice(was, 0, bytes)[i] {
      assert CopiedAt(was, now, bytes, done, i);
    }
  }

  // --- the contents of a file ----------------------------------------------------------------------

  // The block indices that a load of a chunk of the file may touch.
  function Touched(n: nat): nat {
    if n <= 12 then 12 else (n + 3) / 4 * 4
  }

  // The code can open the file: its block lists are on the device.
  predicate Listed(disk: seq<Byte>, inode: Inode) {
    inode.size < WRAP && BlockCount(inode.size) <= MAX_BLOCKS && HasLists(disk, inode, BlockCount(inode.size))
  }

  // Where the pointers lead for index i, by the code and by ext2.
  function Found(disk: seq<Byte>, inode: Inode, i: nat): nat
    requires Listed(disk, inode) && i < Reach(BlockCount(inode.size))
  {
    FoundBlock(disk, inode, BlockCount(inode.size), i)
  }

  predicate IsHole(disk: seq<Byte>, inode: Inode, i: nat)
    requires Listed(disk, inode) && i < Reach(BlockCount(inode.size))
  {
    FileBlock(disk, inode, BlockCount(inode.size), i).None?
  }

  // Index i has an entry in the lists, and its block is on the device.
  predicate Has(disk: seq<Byte>, inode: Inode, i: nat)
    requires Listed(disk, inode)
  {
    i < Reach(BlockCount(inode.size)) && InDisk(disk, Found(disk, inode, i))
  }

  // So it is for all that a load of a page of the file touches; pointers past its end are 0.
  ghost predicate Sound(disk: seq<Byte>, inode: Inode) {
    && Listed(disk, inode)
    && forall i: nat {:trigger Has(disk, inode, i)} :: i < Touched(BlockCount(inode.size)) ==> Has(disk, inode, i)
  }

  // Byte k of the blocks that the code finds, which may be past the end of the file.
  function RawByte(disk: seq<Byte>, inode: Inode, k: nat): Byte
    requires Listed(disk, inode) && Has(disk, inode, k / BLOCK)
  {
    disk[Found(disk, inode, k / BLOCK) * BLOCK + k % BLOCK]
  }

  /** Byte k of the file, as ext2 defines it: holes read as zeros. */
  function FileByte(disk: seq<Byte>, inode: Inode, k: nat): Byte
    requires Listed(disk, inode) && Has(disk, inode, k / BLOCK)
  {
    FoundOrHole(disk, inode, BlockCount(inode.size), k / BLOCK);
    match FileBlock(disk, inode, BlockCount(inode.size), k / BLOCK)
    case None => 0
    case Some(block) => disk[block * BLOCK + k % BLOCK]
  }

  // The bytes of the blocks that the code finds, up to the size of the file.
  function Raw(disk: seq<Byte>, inode: Inode): (s: seq<Byte>)
    requires Sound(disk, inode)
    ensures |s| == inode.size
  {
    seq(inode.size, k requires 0 <= k < inode.size => assert Has(disk, inode, k / BLOCK); RawByte(disk, inode, k))
  }

  // The contents of the file.
  function Content(disk: seq<Byte>, inode: Inode): (s: seq<Byte>)
    requires Sound(disk, inode)
    ensures |s| == inode.size
  {
    seq(inode.size, k requires 0 <= k < inode.size => assert Has(disk, inode, k / BLOCK); FileByte(disk, inode, k))
  }

  // A load of the chunk at `pos` stays within the block list and the device.
  ghost predicate Loadable(disk: seq<Byte>, inode: Inode, pos: nat)
    requires Listed(disk, inode)
  {
    forall t: nat {:trigger Has(disk, inode, pos / PAGE * 4 + t)} :: t < 4 ==> Has(disk, inode, pos / PAGE * 4 + t)
  }

  // Index i is past the page of the block list, or there is no list.
  predicate PastList(size: nat, i: nat) {
    i >= DIRECT && (BlockCount(size) <= DIRECT || 4 * (i - DIRECT) + 4 > LIST_SIZE)
  }

  // Index i has no word that ext2_open has read.
  predicate Unread(size: nat, i: nat) {
    i >= Reach(BlockCount(size))
  }

  // A load at `pos` looks up index i.
  predicate LooksUp(pos: nat, i: nat) {
    pos / PAGE * 4 <= i < pos / PAGE * 4 + 4
  }

  /** A load at the end of the file indexes past the list for two sizes only:
      twelve blocks, for which there is none, and 1036, for which it is full. For
      three more it takes words that were never read. */
  lemma EndIsPastListIff(size: nat)
    requires BlockCount(size) <= MAX_BLOCKS
    ensures (exists i: nat {:trigger PastList(size, i)} :: LooksUp(size, i) && PastList(size, i)) <==> size == 12288 || size == 1060864
    ensures (exists i: nat {:trigger Unread(size, i)} :: LooksUp(size, i) && Unread(size, i))
            <==> size == 12288 || size == 274432 || size == 536576 || size == 798720 || size == 1060864
  {
    var first := size / PAGE * 4;
    assert LooksUp(size, first);
    assert PastList(size, first) <==> size == 12288 || size == 1060864;
    assert Unread(size, first) <==> size == 12288 || size == 274432 || size == 536576 || size == 798720 || size == 1060864;
    forall i: nat | LooksUp(size, i) ensures (PastList(size, i) ==> PastList(size, first)) && (Unread(size, i) ==> Unread(size, first)) {
      NoneInside(size, i);
    }
  }

  lemma NoneInside(size: nat, i: nat)
    requires BlockCount(size) <= MAX_BLOCKS && LooksUp(size, i)
    ensures PastList(size, i) || Unread(size, i) ==> size % PAGE == 0 && BlockCount(size) == size / PAGE * 4
    ensures PastList(size, i) ==> PastList(size, size / PAGE * 4)
    ensures Unread(size, i) ==> Unread(size, size / PAGE * 4)
  {
  }

  lemma InsideIsLoadable(disk: seq<Byte>, inode: Inode, pos: nat)
    requires Sound(disk, inode) && (pos < inode.size || pos < 3 * PAGE)
    ensures Loadable(disk, inode, pos)
  {}

  ghost predicate ByteAt(disk: seq<Byte>, inode: Inode, buf: seq<Byte>, base: nat, x: nat)
    requires Listed(disk, inode)
  {
    x < |buf| && Has(disk, inode, (base + x) / BLOCK) ==> buf[x] == RawByte(disk, inode, base + x)
  }

  // The first `done` bytes of the buffer are those of the blocks found from `base` on.
  ghost predicate Filled(disk: seq<Byte>, inode: Inode, buf: seq<Byte>, base: nat, done: nat)
    requires Listed(disk, inode)
  {
    forall x: nat {:trigger ByteAt(disk, inode, buf, base, x)} :: x < done ==> ByteAt(disk, inode, buf, base, x)
  }

  lemma FilledIsRaw(disk: seq<Byte>, inode: Inode, buf: seq<Byte>, base: nat, from: nat, was: seq<Byte>, now: seq<Byte>, at: nat, k: nat)
    requires Sound(disk, inode) && Filled(disk, inode, buf, base, PAGE) && |buf| == PAGE
    requires base + from + k <= inode.size && Overlaid(buf, from, was, now, at, k)
    ensures Overlaid(Raw(disk, inode), base + from, was, now, at, k)
  {
    var raw, start := Raw(disk, inode), base + from;
    forall i: nat {:trigger OverlaidAt(raw, start, was, now, at, k, i)} ensures OverlaidAt(raw, start, was, now, at, k, i) {
      assert OverlaidAt(buf, from, was, now, at, k, i);
      if at <= i < at + k {
        assert ByteAt(disk, inode, buf, base, from + (i - at)) && Has(disk, inode, (start + (i - at)) / BLOCK);
      }
    }
  }

  lemma BlockIsFound(disk: seq<Byte>, inode: Inode, list: seq<Byte>, i: nat)
    requires Listed(disk, inode) && ListFor(disk, inode, list, BlockCount(inode.size)) && Has(disk, inode, i)
    ensures Lookup(inode, list, i) == Found(disk, inode, i) && InDisk(disk, Lookup(inode, list, i))
  {
    LookupIsFileBlock(disk, inode, list, BlockCount(inode.size), i);
  }

  lemma FillBlock(disk: seq<Byte>, inode: Inode, was: seq<Byte>, now: seq<Byte>, base: nat, t: nat, to: nat, start: nat, k: nat)
    requires Listed(disk, inode) && |was| == PAGE && t < 4 && base % BLOCK == 0 && to == BLOCK * t && k == BLOCK
    requires Filled(disk, inode, was, base, BLOCK * t) && Has(disk, inode, base / BLOCK + t)
    requires start == Found(disk, inode, base / BLOCK + t) * BLOCK && Overlaid(disk, start, was, now, to, k)
    ensures Filled(disk, inode, now, base, BLOCK * (t + 1))
  {
    forall x: nat | x < BLOCK * (t + 1) ensures ByteAt(disk, inode, now, base, x) {
      assert OverlaidAt(disk, start, was, now, to, k, x);
      if x < BLOCK * t {
        assert ByteAt(disk, inode, was, base, x);
      } else {
        assert (base + x) / BLOCK == base / BLOCK + t && (base + x) % BLOCK == x - BLOCK * t;
      }
    }
  }

  class File {
    const disk: seq<Byte>
    const sectorSize: nat
    const inode: Inode
    const list: array<Byte>      // block_list
    const buffer: array<Byte>
    var streamPos: nat
    var bufPos: nat
    var bufferEmpty: bool
    ghost var chunk: nat

    ghost predicate OnDevice()
      reads this, list
    {
      && IsDevice(disk, sectorSize) && Sound(disk, inode)
      && list != buffer && buffer.Length == PAGE
      && ListFor(disk, inode, list[..], BlockCount(inode.size))
    }

    ghost predicate Valid()
      reads this, list, buffer
    {
      var valid :=
        && OnDevice()
        && streamPos <= inode.size && Behind(V())
        && (bufferEmpty ==> streamPos == 0)
        && (!bufferEmpty ==> Filled(disk, inode, buffer[..], chunk * PAGE, PAGE));
      valid
    }

    ghost function V(): Cursor
      reads this
    {
      Cursor(streamPos, bufPos, if bufferEmpty then None else Some(chunk))
    }

    // ext2_open, once it has the inode of a regular file
    constructor (disk: seq<Byte>, sectorSize: nat, inode: Inode)
      requires IsDevice(disk, sectorSize) && Sound(disk, inode)
      ensures Valid() && V() == Cursor(0, 0, None)
      ensures this.disk == disk && this.inode == inode && fresh(list) && fresh(buffer)
    {
      this.disk, this.sectorSize, this.inode := disk, sectorSize, inode;
      list := new Byte[LIST_SIZE](_ => 0);
      buffer := new Byte[PAGE](_ => 0);
      streamPos, bufPos, bufferEmpty, chunk := 0, 0, true, 0;
      new;
      BlockList(disk, sectorSize, inode, list);
    }

    // e2f_load_buffer
    method LoadBuffer()
      requires OnDevice() && Loadable(disk, inode, streamPos) && streamPos <= inode.size
      modifies this`bufPos, this`bufferEmpty, this`chunk, buffer
      ensures Valid() && V() == Loaded(streamPos)
    {
      var offset := streamPos / PAGE * PAGE;
      var to, left, block := 0, PAGE, offset / BLOCK;
      ghost var t := 0;
      while left > 0
        invariant t <= 4 && to == BLOCK * t && left == PAGE - to && block == offset / BLOCK + t
        invariant OnDevice()
        invariant Filled(disk, inode, buffer[..], offset, BLOCK * t)
        decreases left
      {
        assert Has(disk, inode, streamPos / PAGE * 4 + t);
        var k := LoadBlock(offset, t, block, to, left);
        block := block + 1;
        left := left - k;
        to := to + k;
        t := t + 1;
      }
      bufPos := streamPos % PAGE;
      bufferEmpty := false;
      chunk := streamPos / PAGE;
    }

    // One round of it: the t-th block of the chunk.
    method LoadBlock(ghost offset: nat, ghost t: nat, block: nat, to: nat, left: nat) returns (k: nat)
      requires OnDevice() && t < 4 && offset % PAGE == 0 && block == offset / BLOCK + t
      requires to == BLOCK * t && left == PAGE - to && Has(disk, inode, block)
      requires Filled(disk, inode, buffer[..], offset, BLOCK * t)
      modifies buffer
      ensures OnDevice() && k == BLOCK && Filled(disk, inode, buffer[..], offset, BLOCK * (t + 1))
    {
      ghost var was := buffer[..];
      var b := BlockAt(block);
      BlockIsFound(disk, inode, list[..], block);
      k := ReadBlock(b, to, left);
      FillBlock(disk, inode, was, buffer[..], offset, t, to, b * BLOCK, k);
    }

    method ReadBlock(b: nat, to: nat, left: nat) returns (k: nat)
      requires IsDevice(disk, sectorSize) && InDisk(disk, b) && to + left <= buffer.Length
      modifies buffer
      ensures k == Min(left, BLOCK) && Overlaid(disk, b * BLOCK, old(buffer[..]), buffer[..], to, k)
    {
      var start := b * BLOCK;
      k := Min(left, BLOCK);
      EnhancedRead(disk, sectorSize, start, buffer, to, k);
      SpliceIsOverlaid(disk, start, old(buffer[..]), buffer[..], to, k);
    }

    function BlockAt(i: nat): nat
      requires |inode.blocks| == 15 && (i >= DIRECT ==> 4 * (i - DIRECT) + 4 <= list.Length)
      reads list
    {
      Lookup(inode, list[..], i)
    }

    // ext2_file_read into the user's buffer; user(o) is whether copy2user takes
    // the address o bytes into it. None is -1.
    method Read(dest: array<Byte>, size: nat, user: nat -> bool) returns (r: Option<nat>)
      requires Valid() && dest != buffer && dest != list
      requires streamPos + size < WRAP && Clipped(streamPos, size, inode.size) <= dest.Length
      modifies this, buffer, dest
      ensures Valid()
      ensures var n := Taken(Raw(disk, inode), old(streamPos), size);
              if r.None? then exists o: nat ::
                Failed(old(dest[..]), dest[..], ReadBytes(Raw(disk, inode), old(V()), n), old(V()), V(), user, o)
              else
                && (n > 0 ==> user(0))
                && r.value == n && V() == AfterRead(old(V()), size, n)
                && dest[..] == Splice(old(dest[..]), 0, ReadBytes(Raw(disk, inode), old(V()), n))
    {
      if size == 0 {
        NothingRead(Raw(disk, inode), V(), dest[..]);
        return Some(0);
      }
      if bufferEmpty {
        InsideIsLoadable(disk, inode, streamPos);
        LoadBuffer();
      }
      var n := size;
      if (streamPos + size) % WRAP > inode.size {
        n := inode.size - streamPos;
      }
      assert n == Taken(Raw(disk, inode), old(streamPos), size);
      ReadyFirst(Raw(disk, inode), old(V()), size, n);
      ghost var c, bytes, was := V(), ReadBytes(Raw(disk, inode), V(), n), dest[..];
      r := CopyPages(dest, n, user);
      if r.None? {
        FailedFrom(was, dest[..], bytes, c, old(V()), V(), user);
        assert bytes == ReadBytes(Raw(disk, inode), old(V()), n);
      }
    }

    // The loop of ext2_file_read.
    method CopyPages(dest: array<Byte>, n: nat, user: nat -> bool) returns (r: Option<nat>)
      requires Valid() && !bufferEmpty && dest != buffer && dest != list
      requires streamPos + n <= inode.size && n <= dest.Length
      modifies this, buffer, dest
      ensures Valid()
      ensures r.None? ==> exists o: nat ::
                Failed(old(dest[..]), dest[..], ReadBytes(Raw(disk, inode), old(V()), n), old(V()), V(), user, o)
      ensures r.Some? && n > 0 ==> user(0)
      ensures r.Some? ==> r.value == n && V() == AfterRead(old(V()), n, n)
      ensures r.Some? ==> dest[..] == Splice(old(dest[..]), 0, ReadBytes(Raw(disk, inode), old(V()), n))
    {
      ghost var start, was, bytes := V(), dest[..], ReadBytes(Raw(disk, inode), V(), n);
      var left, done := n, 0;
      Begun(start, n, was, bytes);
      while left > 0
        invariant done + left == n && Valid() && Midway(start, V(), n, done)
        invariant Copied(was, dest[..], bytes, done) && (done > 0 ==> user(0))
        decreases left, bufPos
      {
        if !user(done) {
          assert Failed(was, dest[..], bytes, start, V(), user, done);
          return None;
        }
        var k := Round(dest, done, left, was, start, n, bytes);
        done := done + k;
        left := left - k;
      }
      Finished(start, V(), n, done, left, bytes);
      AllCopied(was, dest[..], bytes, done);
      r := Some(done);
    }

    // One round of it: what the buffer has, and the next page if more is wanted.
    method Round(dest: array<Byte>, done: nat, left: nat, ghost was: seq<Byte>, ghost start: Cursor, ghost n: nat, ghost bytes: seq<Byte>)
      returns (k: nat)
      requires Valid() && dest != buffer && dest != list && left > 0 && n == done + left
      requires Behind(start) && start.pos + n <= inode.size && bytes == ReadBytes(Raw(disk, inode), start, n)
      requires Midway(start, V(), n, done) && n <= dest.Length
      requires Copied(was, dest[..], bytes, done)
      modifies this, buffer, dest
      ensures Valid() && k <= left && Midway(start, V(), n, done + k) && (k == 0 ==> bufPos < old(bufPos))
      ensures Copied(was, dest[..], bytes, done + k)
    {
      ghost var c, now := V(), dest[..];
      k := Min(left, PAGE - bufPos);
      MidwayNext(start, c, n, done, k);
      CopyOut(dest, done, k);
      CopiedNext(Raw(disk, inode), start, c, n, was, now, dest[..], done, k);
      LoadNext(left - k);
    }

    // The next page, if more is wanted.
    method LoadNext(left: nat)
      requires Valid() && streamPos + left <= inode.size
      modifies this`bufPos, this`bufferEmpty, this`chunk, buffer
      ensures Valid() && V() == if left > 0 then Loaded(streamPos) else old(V())
    {
      if left > 0 {
        InsideIsLoadable(disk, inode, streamPos);
        LoadBuffer();
      }
    }

    // One copy of k bytes from the buffer, and the positions after it.
    method CopyOut(dest: array<Byte>, at: nat, k: nat)
      requires Valid() && !bufferEmpty && dest != buffer && dest != list
      requires bufPos + k <= PAGE && streamPos + k <= inode.size && at + k <= dest.Length
      modifies this`streamPos, this`bufPos, dest
      ensures Valid() && V() == Cursor(old(streamPos) + k, old(bufPos) + k, Some(chunk)) && !bufferEmpty
      ensures Overlaid(Raw(disk, inode), old(Here(V())), old(dest[..]), dest[..], at, k)
    {
      CopyOver(buffer, bufPos, dest, at, k);
      FilledIsRaw(disk, inode, buffer[..], chunk * PAGE, bufPos, old(dest[..]), dest[..], at, k);
      bufPos := bufPos + k;
      streamPos := streamPos + k;
    }

    // ext2_file_seek, when the lists say which blocks to load; EndIsPastListIff says
    // which ends of files are past them.
    method Seek(position: nat) returns (r: Option<nat>)
      requires Valid()
      requires position <= inode.size && (position / PAGE != streamPos / PAGE || bufferEmpty) ==> Loadable(disk, inode, position)
      modifies this, buffer
      ensures Valid()
      ensures if position > inode.size then r == None && V() == old(V()) && buffer[..] == old(buffer[..])
              else r == Some(position) && V().pos == position && V() == AfterSeek(old(V()), position)
    {
      if position > inode.size {
        return None;
      }
      SeekStaysBehind(V(), position);
      if streamPos / PAGE != position / PAGE {
        streamPos := position;
        LoadBuffer();
      } else {
        streamPos := position;
        bufPos := position % PAGE;
        if bufferEmpty {
          LoadBuffer();
        }
      }
      r := Some(position);
    }
  }
}
