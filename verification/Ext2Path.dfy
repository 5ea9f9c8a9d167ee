// Directories and paths of kernel/ext2.c.
module Ext2Path {
  import opened Common
  import opened Memory
  import opened BlockDevice
  import opened Ext2Blocks
  import opened Strings
  import F = Ext2File

  type Name = seq<Byte>

  const SLASH: Byte := 0x2F
  const INODE_SIZE: nat := 128
  const ROOT: nat := 2

  // --- directories ---------------------------------------------------------------------------

  datatype Entry = Entry(inode: nat, name: Name)

  function RecLen(dir: seq<Byte>, off: nat): nat
    requires off + 8 <= |dir|
  {
    Number(dir, off + 4, 2)
  }

  function NameLen(dir: seq<Byte>, off: nat): nat
    requires off + 8 <= |dir|
  {
    Number(dir, off + 6, 1)
  }

  // From `off` on, the directory is made of entries that hold their names.
  predicate WellFormed(dir: seq<Byte>, off: nat)
    decreases |dir| - off
  {
    off == |dir| ||
    (off + 8 <= |dir| && RecLen(dir, off) >= 8 + NameLen(dir, off) && off + RecLen(dir, off) <= |dir|
     && WellFormed(dir, off + RecLen(dir, off)))
  }

  function EntryAt(dir: seq<Byte>, off: nat): Entry
    requires WellFormed(dir, off) && off < |dir|
  {
    Entry(WordAt(dir, off), dir[off + 8..off + 8 + NameLen(dir, off)])
  }

  function Entries(dir: seq<Byte>, off: nat): seq<Entry>
    requires WellFormed(dir, off)
    decreases |dir| - off
  {
    if off == |dir| then [] else [EntryAt(dir, off)] + Entries(dir, off + RecLen(dir, off))
  }

  // The inode field of the first entry of that name, as the code takes it, 0 if there is none.
  function FirstNamed(entries: seq<Entry>, name: Name): nat {
    if entries == [] then 0
    else if entries[0].name == name then entries[0].inode
    else FirstNamed(entries[1..], name)
  }

  // An entry whose inode field is 0 is unused.
  predicate IsFile(e: Entry, name: Name) {
    e.inode != 0 && e.name == name
  }

  // The inode of the first entry in use of that name: the file, 0 if there is none.
  function Find(entries: seq<Entry>, name: Name): nat {
    if entries == [] then 0
    else if IsFile(entries[0], name) then entries[0].inode
    else Find(entries[1..], name)
  }

  ghost predicate FirstFileAt(entries: seq<Entry>, name: Name, j: int) {
    0 <= j < |entries| && IsFile(entries[j], name) && forall k :: 0 <= k < j ==> !IsFile(entries[k], name)
  }

  // An unused entry of that name is before the first one in use.
  ghost predicate Hidden(entries: seq<Entry>, name: Name) {
    exists i, j :: 0 <= i < j && FirstFileAt(entries, name, j) && entries[i] == Entry(0, name)
  }

  /** The code does not skip unused entries. It finds the file, or that there is
      none, exactly when no unused entry of that name hides it. */
  lemma {:induction false} FirstNamedIff(entries: seq<Entry>, name: Name)
    ensures FirstNamed(entries, name) == Find(entries, name) <==> !Hidden(entries, name)
    ensures FirstNamed(entries, name) == 0 || FirstNamed(entries, name) == Find(entries, name)
  {
    if entries != [] {
      FirstNamedIff(entries[1..], name);
      if entries[0].name != name {
        HiddenInTail(entries, name);
      } else if entries[0].inode == 0 {
        FindFirst(entries, name);
      }
    }
  }

  lemma HiddenInTail(entries: seq<Entry>, name: Name)
    requires entries != [] && entries[0].name != name
    ensures Hidden(entries, name) <==> Hidden(entries[1..], name)
  {
    var rest := entries[1..];
    if Hidden(entries, name) {
      var i, j :| 0 <= i < j && FirstFileAt(entries, name, j) && entries[i] == Entry(0, name);
      assert FirstFileAt(rest, name, j - 1) && rest[i - 1] == Entry(0, name);
    }
    if Hidden(rest, name) {
      var i, j :| 0 <= i < j && FirstFileAt(rest, name, j) && rest[i] == Entry(0, name);
      assert FirstFileAt(entries, name, j + 1) && entries[i + 1] == Entry(0, name);
    }
  }

  // There is a file exactly when there is a first one.
  lemma {:induction false} FindFirst(entries: seq<Entry>, name: Name)
    ensures Find(entries, name) != 0 <==> exists j :: FirstFileAt(entries, name, j)
  {
    if entries != [] {
      var rest := entries[1..];
      FindFirst(rest, name);
      if IsFile(entries[0], name) {
        assert FirstFileAt(entries, name, 0);
      } else if Find(rest, name) != 0 {
        var j :| FirstFileAt(rest, name, j);
        assert FirstFileAt(entries, name, j + 1);
      } else if j :| FirstFileAt(entries, name, j) {
        assert FirstFileAt(rest, name, j - 1);
      }
    }
  }

  /** Of several entries of a name the first one counts, in the order of the directory:
      in use or not for the code, in use for ext2. */
  lemma {:induction false} FirstNamedIsFirst(entries: seq<Entry>, name: Name, j: nat)
    requires j < |entries| && entries[j].name == name && forall k :: 0 <= k < j ==> entries[k].name != name
    ensures FirstNamed(entries, name) == entries[j].inode
  {
    if j > 0 {
      FirstNamedIsFirst(entries[1..], name, j - 1);
    }
  }

  lemma {:induction false} FindIsFirst(entries: seq<Entry>, name: Name, j: nat)
    requires FirstFileAt(entries, name, j)
    ensures Find(entries, name) == entries[j].inode
  {
    if j > 0 {
      FindIsFirst(entries[1..], name, j - 1);
    }
  }

  lemma {:induction false} NoneFound(entries: seq<Entry>, name: Name)
    ensures (forall k :: 0 <= k < |entries| ==> entries[k].name != name) ==> FirstNamed(entries, name) == 0
    ensures (forall k :: 0 <= k < |entries| ==> !IsFile(entries[k], name)) ==> Find(entries, name) == 0
  {
    if entries != [] {
      NoneFound(entries[1..], name);
    }
  }

  lemma SmallWord(s: seq<Byte>, i: nat)
    requires i + 4 <= |s| && s[i + 1] == s[i + 2] == s[i + 3] == 0
    ensures WordAt(s, i) == s[i] as nat
  {
    assert Number(s, i + 3, 1) == 0 && Number(s, i + 2, 2) == 0 && Number(s, i + 1, 3) == 0;
  }

  // An entry of twelve bytes, whose name is one character.
  function ShortEntry(inode: Byte, c: Byte): (bytes: seq<Byte>)
    ensures |bytes| == 12
  {
    [inode, 0, 0, 0, 12, 0, 1, 0, c, 0, 0, 0]
  }

  lemma ShortEntryAt(dir: seq<Byte>, off: nat, inode: Byte, c: Byte)
    requires off + 12 <= |dir| && WellFormed(dir, off + 12)
    requires forall k :: 0 <= k < 12 ==> dir[off + k] == ShortEntry(inode, c)[k]
    ensures WellFormed(dir, off) && Entries(dir, off) == [Entry(inode as nat, [c])] + Entries(dir, off + 12)
  {
    ShortFields(dir, off, inode, c);
    assert Entries(dir, off) == [EntryAt(dir, off)] + Entries(dir, off + 12);
  }

  lemma ShortFields(dir: seq<Byte>, off: nat, inode: Byte, c: Byte)
    requires off + 12 <= |dir| && forall k :: 0 <= k < 12 ==> dir[off + k] == ShortEntry(inode, c)[k]
    ensures WordAt(dir, off) == inode as nat && RecLen(dir, off) == 12 && NameLen(dir, off) == 1
    ensures dir[off + 8..off + 9] == [c]
  {
    var e := ShortEntry(inode, c);
    assert dir[off] == e[0] && dir[off + 1] == e[1] && dir[off + 2] == e[2] && dir[off + 3] == e[3];
    SmallWord(dir, off);
    assert dir[off + 4] == e[4] && dir[off + 5] == e[5] && Number(dir, off + 5, 1) == 0;
    assert dir[off + 6] == e[6] && Number(dir, off + 7, 0) == 0;
    assert dir[off + 8] == e[8];
  }

  // A directory of 24 bytes: an unused entry "a", and then the file "a" of inode 12.
  lemma HiddenFile(dir: seq<Byte>)
    requires dir == ShortEntry(0, 0x61) + ShortEntry(12, 0x61)
    ensures WellFormed(dir, 0) && FirstNamed(Entries(dir, 0), [0x61]) == 0 && Find(Entries(dir, 0), [0x61]) == 12
  {
    ShortEntryAt(dir, 12, 12, 0x61);
    ShortEntryAt(dir, 0, 0, 0x61);
    assert Entries(dir, 0)[1..] == Entries(dir, 12);
  }

  // The characters that a pointer into the directory points to.
  method NameBytes(dir: array<Byte>, size: nat, from: nat, len: nat) returns (name: seq<Byte>)
    requires from + len <= size <= dir.Length
    ensures name == dir[..size][from..from + len]
  {
    name := dir[from..from + len];
  }

  // A field of a structure that a pointer into the directory points to.
  method Field(dir: array<Byte>, size: nat, at: nat, bytes: nat) returns (n: nat)
    requires at + bytes <= size <= dir.Length
    ensures n == Number(dir[..size], at, bytes)
  {
    SliceOfSlice(dir[..], 0, size, at, bytes);
    SameNumber(dir[..], at, dir[..size], at, bytes);
    n := NumberIn(dir, at, bytes);
  }

  function NumberIn(dir: array<Byte>, at: nat, bytes: nat): nat
    requires at + bytes <= dir.Length
    reads dir
  {
    Number(dir[..], at, bytes)
  }

  // Whether the entry at `off` has the name that the first len bytes of mem are.
  method Matches(dir: array<Byte>, size: nat, off: nat, mem: seq<Byte>, len: nat) returns (same: bool)
    requires size <= dir.Length && WellFormed(dir[..size], off) && off < size
    requires len <= |mem| && forall k :: 0 <= k < len ==> mem[k] != 0
    ensures same <==> EntryAt(dir[..size], off).name == mem[..len]
  {
    var nameLen := Field(dir, size, off + 6, 1);
    same := false;
    if nameLen == len {
      var name := NameBytes(dir, size, off + 8, len);
      SameTextIff(name, mem, len);
      var differ := Strncmp(name, mem, len);
      same := differ == 0;
    } else {
      assert |EntryAt(dir[..size], off).name| == nameLen;
    }
  }

  // The scan of str_get_inode; the name need not end with a 0.
  method Scan(dir: array<Byte>, size: nat, mem: seq<Byte>, len: nat) returns (result: nat)
    requires size <= dir.Length && WellFormed(dir[..size], 0)
    requires len <= |mem| && forall k :: 0 <= k < len ==> mem[k] != 0
    ensures result == FirstNamed(Entries(dir[..size], 0), mem[..len])
  {
    result := 0;
    var off := 0;
    ghost var bytes, name := dir[..size], mem[..len];
    ghost var goal := FirstNamed(Entries(bytes, 0), name);
    while off < size
      invariant off <= size && WellFormed(bytes, off) && dir[..size] == bytes
      invariant result == 0 && goal == FirstNamed(Entries(bytes, off), name)
      decreases size - off
    {
      var found, inode, recLen := ScanEntry(dir, size, off, mem, len, bytes, name);
      if found {
        result := inode;
        break;
      }
      off := off + recLen;
    }
    if result == 0 {
      EndOfScan(bytes, off, name);
    }
  }

  lemma EndOfScan(dir: seq<Byte>, off: nat, name: Name)
    requires WellFormed(dir, off)
    ensures !(off < |dir|) ==> FirstNamed(Entries(dir, off), name) == 0
  {
  }

  // One entry of it.
  method ScanEntry(dir: array<Byte>, size: nat, off: nat, mem: seq<Byte>, len: nat, ghost bytes: seq<Byte>, ghost name: Name)
    returns (found: bool, inode: nat, recLen: nat)
    requires size <= dir.Length && bytes == dir[..size] && WellFormed(bytes, off) && off < size
    requires len <= |mem| && name == mem[..len] && forall k :: 0 <= k < len ==> mem[k] != 0
    ensures recLen > 0 && off + recLen <= size && WellFormed(bytes, off + recLen)
    ensures FirstNamed(Entries(bytes, off), name) == if found then inode else FirstNamed(Entries(bytes, off + recLen), name)
  {
    ScanStep(bytes, off, name);
    found := Matches(dir, size, off, mem, len);
    inode := Field(dir, size, off, 4);
    recLen := Field(dir, size, off + 4, 2);
  }

  lemma ScanStep(dir: seq<Byte>, off: nat, name: Name)
    requires WellFormed(dir, off) && off < |dir|
    ensures WellFormed(dir, off + RecLen(dir, off))
    ensures FirstNamed(Entries(dir, off), name) ==
              if EntryAt(dir, off).name == name then EntryAt(dir, off).inode
              else FirstNamed(Entries(dir, off + RecLen(dir, off)), name)
  {
    assert Entries(dir, off)[1..] == Entries(dir, off + RecLen(dir, off));
  }

  // --- inodes and directories on the device -------------------------------------------------------

  // What ext2_finally_create found: the bgdt's inode tables and the superblock's counts.
  datatype Fs = Fs(disk: seq<Byte>, sectorSize: nat, perGroup: nat, tables: seq<nat>)

  function InodeStart(fs: Fs, id: nat): nat
    requires fs.perGroup > 0 && id > 0 && (id - 1) / fs.perGroup < |fs.tables|
  {
    fs.tables[(id - 1) / fs.perGroup] * BLOCK + (id - 1) % fs.perGroup * INODE_SIZE
  }

  // i_size and i_block of the 128 bytes of an inode.
  function InodeOf(bytes: seq<Byte>): Inode
    requires |bytes| == INODE_SIZE
  {
    Inode(WordAt(bytes, 4), seq(15, i requires 0 <= i < 15 => WordAt(bytes, 40 + 4 * i)))
  }

  ghost predicate HasInode(fs: Fs, id: nat) {
    && IsDevice(fs.disk, fs.sectorSize) && fs.perGroup > 0
    && id > 0 && (id - 1) / fs.perGroup < |fs.tables| && InodeStart(fs, id) + INODE_SIZE <= |fs.disk|
  }

  function InodeAt(fs: Fs, id: nat): Inode
    requires HasInode(fs, id)
  {
    InodeOf(fs.disk[InodeStart(fs, id)..InodeStart(fs, id) + INODE_SIZE])
  }

  // The inode is that of a well-formed directory of at most one page.
  ghost predicate IsDirectory(fs: Fs, id: nat) {
    && HasInode(fs, id) && F.Sound(fs.disk, InodeAt(fs, id)) && InodeAt(fs, id).size <= F.PAGE
    && WellFormed(F.Raw(fs.disk, InodeAt(fs, id)), 0)
  }

  function Directory(fs: Fs, id: nat): seq<Entry>
    requires IsDirectory(fs, id)
  {
    Entries(F.Raw(fs.disk, InodeAt(fs, id)), 0)
  }

  // The reading of an inode.
  method ReadInode(fs: Fs, id: nat) returns (inode: Inode)
    requires HasInode(fs, id)
    ensures inode == InodeAt(fs, id)
  {
    var start := StartOfInode(fs, id);
    var bytes := ReadBytes(fs, start);
    inode := InodeOf(bytes);
  }

  method StartOfInode(fs: Fs, id: nat) returns (start: nat)
    requires HasInode(fs, id)
    ensures start == InodeStart(fs, id)
  {
    var group := (id - 1) / fs.perGroup;
    var index := (id - 1) % fs.perGroup;
    var table := fs.tables[group];
    start := table * BLOCK + index * INODE_SIZE;
  }

  method ReadBytes(fs: Fs, start: nat) returns (bytes: seq<Byte>)
    requires IsDevice(fs.disk, fs.sectorSize) && start + INODE_SIZE <= |fs.disk|
    ensures bytes == fs.disk[start..start + INODE_SIZE]
  {
    var buffer := new Byte[INODE_SIZE];
    SpliceAll(buffer[..], fs.disk[start..start + INODE_SIZE]);
    EnhancedRead(fs.disk, fs.sectorSize, start, buffer, 0, INODE_SIZE);
    bytes := buffer[..];
  }

  // The first `done` bytes of the page are those of the file.
  ghost predicate Loaded(fs: Fs, inode: Inode, page: seq<Byte>, done: nat)
    requires F.Sound(fs.disk, inode)
  {
    done <= inode.size && done <= |page| && page[..done] == F.Raw(fs.disk, inode)[..done]
  }

  // The reading of a directory into a page, block by block.
  method ReadDirectory(fs: Fs, inode: Inode, page: array<Byte>)
    requires IsDevice(fs.disk, fs.sectorSize) && F.Sound(fs.disk, inode) && inode.size <= F.PAGE == page.Length
    modifies page
    ensures page[..inode.size] == F.Raw(fs.disk, inode)
  {
    var left, block, to := inode.size, 0, 0;
    while left > 0
      invariant to + left == inode.size && Loaded(fs, inode, page[..], to)
      invariant left > 0 ==> to == block * BLOCK
      decreases left
    {
      var k := Min(left, BLOCK);
      ghost var was := page[..];
      assert F.Has(fs.disk, inode, block);
      EnhancedRead(fs.disk, fs.sectorSize, inode.blocks[block] * BLOCK, page, to, k);
      LoadNext(fs, inode, was, page[..], block, k);
      block := block + 1;
      left := left - k;
      to := to + k;
    }
  }

  lemma LoadNext(fs: Fs, inode: Inode, was: seq<Byte>, now: seq<Byte>, block: nat, k: nat)
    requires F.Sound(fs.disk, inode) && block < DIRECT && k <= BLOCK && block * BLOCK + k <= inode.size
    requires Loaded(fs, inode, was, block * BLOCK) && block * BLOCK + k <= |was| && InDisk(fs.disk, inode.blocks[block])
    requires now == Splice(was, block * BLOCK, fs.disk[inode.blocks[block] * BLOCK..inode.blocks[block] * BLOCK + k])
    ensures Loaded(fs, inode, now, block * BLOCK + k)
  {
    var content, base := F.Raw(fs.disk, inode), block * BLOCK;
    forall i | 0 <= i < base + k ensures now[i] == content[i] {
      if i < base {
        assert was[..base][i] == content[..base][i];
      } else {
        assert i / BLOCK == block && i % BLOCK == i - base;
      }
    }
    var a, b := now[..base + k], content[..base + k];
    assert forall i {:trigger a[i]} :: 0 <= i < base + k ==> a[i] == b[i];
  }

  /** str_get_inode answers the inode field of the first entry of that name. That
      is the file of that name, or 0 if there is none, exactly when no unused
      entry of the directory hides it. */
  method StrGetInode(fs: Fs, mem: seq<Byte>, len: nat, dir: nat) returns (result: nat)
    requires IsDirectory(fs, dir) && len <= |mem| && forall k :: 0 <= k < len ==> mem[k] != 0
    ensures result == FirstNamed(Directory(fs, dir), mem[..len])
    ensures result == Find(Directory(fs, dir), mem[..len]) <==> !Hidden(Directory(fs, dir), mem[..len])
  {
    FirstNamedIff(Directory(fs, dir), mem[..len]);
    var inode := ReadInode(fs, dir);
    var page := new Byte[F.PAGE];
    ReadDirectory(fs, inode, page);
    result := Scan(page, inode.size, mem, len);
  }

  // --- paths ----------------------------------------------------------------------------------------

  // The index of the first '/' from i on; the length of the path if there is none.
  function Slash(path: seq<Byte>, i: nat): (r: nat)
    requires i <= |path|
    ensures i <= r <= |path| && (r < |path| ==> path[r] == SLASH) && forall k :: i <= k < r ==> path[k] != SLASH
    decreases |path| - i
  {
    if i == |path| || path[i] == SLASH then i else Slash(path, i + 1)
  }

  // The names between the slashes from i on.
  function Components(path: seq<Byte>, i: nat): (names: seq<Name>)
    requires i <= |path|
    ensures names != []
    decreases |path| - i
  {
    var k := Slash(path, i);
    if k == |path| then [path[i..]] else [path[i..k]] + Components(path, k + 1)
  }

  function Join(names: seq<Name>): seq<Byte>
    requires names != []
  {
    if |names| == 1 then names[0] else names[0] + [SLASH] + Join(names[1..])
  }

  /** The components joined by slashes are the path again, and none holds one. */
  lemma {:induction false} JoinComponents(path: seq<Byte>, i: nat)
    requires i <= |path|
    ensures Join(Components(path, i)) == path[i..]
    ensures forall name :: name in Components(path, i) ==> SLASH !in name
    decreases |path| - i
  {
    var k := Slash(path, i);
    if k < |path| {
      JoinComponents(path, k + 1);
      JoinMore(path[i..k], Components(path, k + 1));
      assert path[i..] == path[i..k] + [SLASH] + path[k + 1..];
    }
  }

  lemma JoinMore(name: Name, names: seq<Name>)
    requires names != [] && SLASH !in name && forall other :: other in names ==> SLASH !in other
    ensures Join([name] + names) == name + [SLASH] + Join(names)
    ensures forall other :: other in [name] + names ==> SLASH !in other
  {
    assert ([name] + names)[1..] == names;
  }

  // The directories that the lookups of the code lead through are directories.
  ghost predicate Walkable(fs: Fs, dir: nat, names: seq<Name>)
    requires names != []
    decreases |names|
  {
    && IsDirectory(fs, dir)
    && (|names| > 1 && FirstNamed(Directory(fs, dir), names[0]) != 0 ==>
          Walkable(fs, FirstNamed(Directory(fs, dir), names[0]), names[1..]))
  }

  // Following the names from a directory; 0 as soon as one is missing.
  function Walk(fs: Fs, dir: nat, names: seq<Name>): nat
    requires names != [] && Walkable(fs, dir, names)
    decreases |names|
  {
    var next := FirstNamed(Directory(fs, dir), names[0]);
    if |names| == 1 || next == 0 then next else Walk(fs, next, names[1..])
  }

  // The same for the files of those names, hidden or not.
  ghost predicate Followable(fs: Fs, dir: nat, names: seq<Name>)
    requires names != []
    decreases |names|
  {
    && IsDirectory(fs, dir)
    && (|names| > 1 && Find(Directory(fs, dir), names[0]) != 0 ==>
          Followable(fs, Find(Directory(fs, dir), names[0]), names[1..]))
  }

  // The file that the path leads to, 0 if there is none.
  function Follow(fs: Fs, dir: nat, names: seq<Name>): nat
    requires names != [] && Followable(fs, dir, names)
    decreases |names|
  {
    var next := Find(Directory(fs, dir), names[0]);
    if |names| == 1 || next == 0 then next else Follow(fs, next, names[1..])
  }

  // Some file on the path is hidden in its directory.
  ghost predicate HiddenOn(fs: Fs, dir: nat, names: seq<Name>)
    requires names != [] && Followable(fs, dir, names)
    decreases |names|
  {
    var next := Find(Directory(fs, dir), names[0]);
    Hidden(Directory(fs, dir), names[0]) || (|names| > 1 && next != 0 && HiddenOn(fs, next, names[1..]))
  }

  /** The lookups of the code lead to the file of that path exactly when there is
      none or no file on the path is hidden. They never lead to another one. */
  lemma {:induction false} WalkIsFollowIff(fs: Fs, dir: nat, names: seq<Name>)
    requires names != [] && Followable(fs, dir, names)
    ensures Walkable(fs, dir, names)
    ensures Walk(fs, dir, names) == Follow(fs, dir, names) <==> Follow(fs, dir, names) == 0 || !HiddenOn(fs, dir, names)
    ensures Walk(fs, dir, names) == 0 || Walk(fs, dir, names) == Follow(fs, dir, names)
    decreases |names|
  {
    FirstNamedIff(Directory(fs, dir), names[0]);
    var next := Find(Directory(fs, dir), names[0]);
    if |names| > 1 && next != 0 {
      WalkIsFollowIff(fs, next, names[1..]);
    }
  }

  // One name is one lookup; with WalkInParts that says what any walk is.
  lemma WalkOne(fs: Fs, dir: nat, name: Name)
    requires IsDirectory(fs, dir)
    ensures Walkable(fs, dir, [name]) && Walk(fs, dir, [name]) == FirstNamed(Directory(fs, dir), name)
    ensures Followable(fs, dir, [name]) && Follow(fs, dir, [name]) == Find(Directory(fs, dir), name)
  {
  }

  /** Walking in two parts is walking at once. */
  lemma {:induction false} WalkInParts(fs: Fs, dir: nat, a: seq<Name>, b: seq<Name>)
    requires a != [] && b != [] && Walkable(fs, dir, a) && Walkable(fs, dir, a + b)
    ensures Walk(fs, dir, a) != 0 ==> Walkable(fs, Walk(fs, dir, a), b)
    ensures Walk(fs, dir, a + b) == if Walk(fs, dir, a) == 0 then 0 else Walk(fs, Walk(fs, dir, a), b)
    decreases |a|
  {
    var next := FirstNamed(Directory(fs, dir), a[0]);
    assert (a + b)[0] == a[0] && (a + b)[1..] == a[1..] + b;
    if |a| == 1 {
      assert (a + b)[1..] == b;
    } else if next != 0 {
      WalkInParts(fs, next, a[1..], b);
    }
  }

  // What char_pos says about the path.
  lemma SlashAt(path: seq<Byte>, i: nat, to: nat)
    requires i <= |path| && 0 !in path
    requires if to == 0 then forall k :: i <= k < |path| ==> path[k] != SLASH
             else i < to <= |path| && path[to - 1] == SLASH && forall k :: i <= k < to - 1 ==> path[k] != SLASH
    ensures Slash(path, i) == if to == 0 then |path| else to - 1
  {}

  /** get_file_inode of a string in memory: the fold of the directory lookups
      over the components from the root, or the root itself for "/". */
  method GetFileInode(fs: Fs, path: seq<Byte>, mem: seq<Byte>, len: nat) returns (inode: nat)
    requires mem == path + [0] && 0 !in path && path != [] && path[0] == SLASH && len == |path|
    requires |path| > 1 ==> Walkable(fs, ROOT, Components(path, 1))
    ensures inode == if |path| == 1 then 2 else Walk(fs, 2, Components(path, 1))
  {
    inode := ROOT;
    assert mem[len] == 0 && Length(mem, 0) == len;
    var from := CharPos(mem, SLASH, 0);
    if from == len {
      return;
    }
    inode := WalkPath(fs, path, mem, len, from);
  }

  // The loop of get_file_inode, and the lookup of the last component.
  method WalkPath(fs: Fs, path: seq<Byte>, mem: seq<Byte>, len: nat, start: nat) returns (inode: nat)
    requires mem == path + [0] && 0 !in path && len == |path| && start <= len
    requires Walkable(fs, ROOT, Components(path, start))
    ensures inode == Walk(fs, ROOT, Components(path, start))
  {
    inode := ROOT;
    var from := start;
    ghost var goal := Walk(fs, ROOT, Components(path, from));
    var to := NextSlash(path, mem, from);
    while to != 0
      invariant from <= len && (to == 0 || from < to <= len)
      invariant Slash(path, from) == if to == 0 then len else to - 1
      invariant Toward(fs, inode, path, from, goal)
      decreases len - from, to
    {
      inode := Descend(fs, path, mem, from, to, inode, goal);
      if inode == 0 {
        return;
      }
      from := to;
      to := NextSlash(path, mem, from);
    }
    inode := Descend(fs, path, mem, from, len + 1, inode, goal);
  }

  // What is left of the path leads from the directory to the goal.
  ghost predicate Toward(fs: Fs, dir: nat, path: seq<Byte>, from: nat, goal: nat) {
    from <= |path| && Walkable(fs, dir, Components(path, from)) && Walk(fs, dir, Components(path, from)) == goal
  }

  // One lookup; the slash after the component is at to - 1, or the path ends there.
  method Descend(fs: Fs, path: seq<Byte>, mem: seq<Byte>, from: nat, to: nat, dir: nat, ghost goal: nat) returns (inode: nat)
    requires mem == path + [0] && 0 !in path && Toward(fs, dir, path, from, goal)
    requires from < to <= |path| + 1 && Slash(path, from) == to - 1
    ensures if to == |path| + 1 then inode == goal
            else if inode == 0 then goal == 0
            else Toward(fs, inode, path, to, goal)
  {
    DescendStep(fs, path, from, to, dir, goal);
    inode := Lookup(fs, path, mem, from, to - 1, dir);
  }

  lemma DescendStep(fs: Fs, path: seq<Byte>, from: nat, to: nat, dir: nat, goal: nat)
    requires Toward(fs, dir, path, from, goal) && from < to <= |path| + 1 && Slash(path, from) == to - 1
    ensures IsDirectory(fs, dir)
    ensures var next := FirstNamed(Directory(fs, dir), path[from..to - 1]);
            if to == |path| + 1 then next == goal
            else if next == 0 then goal == 0
            else Toward(fs, next, path, to, goal)
  {
    var name := path[from..to - 1];
    if to <= |path| {
      assert Components(path, from) == [name] + Components(path, to);
      WalkStep(fs, dir, name, Components(path, to));
    } else {
      assert path[from..] == name;
      assert Components(path, from) == [name];
    }
  }

  lemma WalkStep(fs: Fs, dir: nat, name: Name, rest: seq<Name>)
    requires rest != [] && Walkable(fs, dir, [name] + rest)
    ensures IsDirectory(fs, dir)
    ensures var next := FirstNamed(Directory(fs, dir), name);
            if next == 0 then Walk(fs, dir, [name] + rest) == 0
            else Walkable(fs, next, rest) && Walk(fs, dir, [name] + rest) == Walk(fs, next, rest)
  {
    var names := [name] + rest;
    assert names[0] == name && names[1..] == rest;
  }

  // char_pos from a place in the path
  method NextSlash(path: seq<Byte>, mem: seq<Byte>, from: nat) returns (to: nat)
    requires mem == path + [0] && 0 !in path && from <= |path|
    ensures to == 0 || from < to <= |path|
    ensures Slash(path, from) == if to == 0 then |path| else to - 1
  {
    assert mem[|path|] == 0 && from + Length(mem, from) == |path|;
    to := CharPos(mem, SLASH, from);
    assert forall k :: from <= k < |path| ==> mem[k] == path[k];
    SlashAt(path, from, to);
  }

  // str_get_inode of the characters of the path from one place to another.
  method Lookup(fs: Fs, path: seq<Byte>, mem: seq<Byte>, from: nat, to: nat, dir: nat) returns (inode: nat)
    requires mem == path + [0] && 0 !in path && from <= to <= |path| && IsDirectory(fs, dir)
    ensures inode == FirstNamed(Directory(fs, dir), path[from..to])
  {
    var rest := mem[from..];
    assert rest[..to - from] == path[from..to];
    assert forall k :: 0 <= k < to - from ==> rest[k] == path[from + k];
    inode := StrGetInode(fs, rest, to - from, dir);
  }
}
