// hdd_enhanced_read (kernel/ext2.c): any bytes from a device that reads sectors.
module BlockDevice {
  import opened Common
  import opened Memory

  // A number of whole sectors.
  predicate Whole(n: nat, size: nat) {
    size > 0 && (n == 0 || (n >= size && Whole(n - size, size)))
  }

  ghost predicate IsDevice(disk: seq<Byte>, size: nat) {
    Whole(|disk|, size)
  }

  lemma {:induction false} SectorFits(n: nat, size: nat, pos: nat)
    requires Whole(n, size) && pos * size < n
    ensures pos * size + size <= n
  {
    if pos > 0 {
      NextMultiple(pos - 1, size);
      SectorFits(n - size, size, pos - 1);
    }
  }

  // dev->read: one sector
  method ReadSector(disk: seq<Byte>, size: nat, pos: nat, sector: array<Byte>)
    requires sector.Length == size && pos * size + size <= |disk|
    modifies sector
    ensures sector[..] == disk[pos * size..pos * size + size]
  {
    var i := 0;
    while i < size
      invariant i <= size && sector[..i] == disk[pos * size..pos * size + i]
    {
      sector[i] := disk[pos * size + i];
      i := i + 1;
    }
  }

  // How many sectors hold the first n bytes.
  function SectorCount(n: int, size: nat): nat
    requires size > 0
    decreases if n > 0 then n else 0
  {
    if n <= 0 then 0 else 1 + SectorCount(n - size, size)
  }

  lemma {:induction false} CountSectors(n: nat, size: nat)
    requires size > 0
    ensures SectorCount(n, size) == n / size + if n % size != 0 then 1 else 0
  {
    if n >= size {
      CountSectors(n - size, size);
      assert n - size == ((n - size) / size) * size + (n - size) % size;
      NextMultiple((n - size) / size, size);
      DivUnique(n, (n - size) / size + 1, (n - size) % size, size);
    } else if n > 0 {
      DivUnique(n, 0, n, size);
    }
  }

  // The part of one sector that belongs at `to`, from byte `from` of the device on.
  method CopyFromSector(disk: seq<Byte>, size: nat, pos: nat, span: nat, sector: array<Byte>,
                        buffer: array<Byte>, to: nat, k: nat, ghost from: nat)
    requires IsDevice(disk, size) && sector.Length == size && sector != buffer
    requires pos * size + span == from && span + k <= size && span < size && pos * size < |disk|
    requires to + k <= buffer.Length
    modifies sector, buffer
    ensures from + k <= |disk| && buffer[..] == Splice(old(buffer[..]), to, disk[from..from + k])
  {
    SectorFits(|disk|, size, pos);
    ReadSector(disk, size, pos, sector);
    SliceOfSlice(disk, pos * size, size, span, k);
    Copy(sector, span, buffer, to, k);
  }

  lemma SliceOfSlice(s: seq<Byte>, base: nat, size: nat, span: nat, k: nat)
    requires base + size <= |s| && span + k <= size
    ensures s[base..base + size][span..span + k] == s[base + span..base + span + k]
  {
    var a, b := s[base..base + size][span..span + k], s[base + span..base + span + k];
    assert forall i {:trigger a[i]} :: 0 <= i < k ==> a[i] == s[base + span + i] == b[i];
  }

  lemma DivMod(n: nat, size: nat)
    requires size > 0
    ensures (n / size) * size + n % size == n && n % size < size
  {}

  lemma NextMultiple(pos: int, size: nat)
    ensures (pos + 1) * size == pos * size + size
  {}

  /** Whatever the alignment and the length, the buffer gets exactly the bytes
      disk[start..start + count] at `at`, and nothing else of it changes. */
  method EnhancedRead(disk: seq<Byte>, size: nat, start: nat, buffer: array<Byte>, at: nat, count: nat)
    requires IsDevice(disk, size) && start + count <= |disk| && at + count <= buffer.Length
    modifies buffer
    ensures buffer[..] == Splice(old(buffer[..]), at, disk[start..start + count])
  {
    var pos := start / size;
    var span := start % size;
    var total := start % size + count;
    var blocks := total / size;
    if total % size != 0 {
      blocks := blocks + 1;
    }
    CountSectors(total, size);
    DivMod(start, size);
    ReadSectors(disk, size, pos, span, blocks, buffer, at, count, start);
  }

  // The loop of hdd_enhanced_read.
  method ReadSectors(disk: seq<Byte>, size: nat, pos: nat, span: nat, blocks: nat,
                     buffer: array<Byte>, at: nat, count: nat, ghost start: nat)
    requires IsDevice(disk, size) && start + count <= |disk| && at + count <= buffer.Length
    requires start == pos * size + span && span < size && blocks == SectorCount(span + count, size)
    modifies buffer
    ensures buffer[..] == Splice(old(buffer[..]), at, disk[start..start + count])
  {
    var sector := new Byte[size];
    var pos: nat, span: nat, blocks: nat, left: nat, to: nat := pos, span, blocks, count, at;
    ghost var from: nat, base: nat, was := start, pos * size, buffer[..];
    while blocks > 0
      invariant start <= from && from + left == start + count && to == at + (from - start) && span < size
      invariant buffer[..] == Splice(was, at, disk[start..from])
      invariant base == pos * size && (base + span == from || left == 0)
      invariant blocks == SectorCount(span + left, size)
      invariant left == 0 ==> blocks == 0 || (from == start && span > 0 && base + span == start)
    {
      var copied := Min(size - span, left);
      NextSector(size, span, left, blocks);
      NextMultiple(pos, size);
      ReadPart(disk, size, pos, span, sector, buffer, to, copied, was, at, start, from);
      left := left - copied;
      to := to + copied;
      from, base := from + copied, base + size;
      span := span - span;
      pos := pos + 1;
      blocks := blocks - 1;
    }
  }

  // One round of it, seen from the start of the read.
  method ReadPart(disk: seq<Byte>, size: nat, pos: nat, span: nat, sector: array<Byte>,
                  buffer: array<Byte>, to: nat, k: nat, ghost was: seq<Byte>, ghost at: nat, ghost start: nat, ghost from: nat)
    requires IsDevice(disk, size) && sector.Length == size && sector != buffer && |was| == buffer.Length
    requires pos * size + span == from && span + k <= size && span < size && from + k <= |disk| && (k > 0 || span > 0)
    requires start <= from && to == at + (from - start) && to + k <= buffer.Length
    requires buffer[..] == Splice(was, at, disk[start..from])
    modifies sector, buffer
    ensures buffer[..] == Splice(was, at, disk[start..from + k])
  {
    ghost var now := buffer[..];
    CopyFromSector(disk, size, pos, span, sector, buffer, to, k, from);
    SpliceGrows(was, now, buffer[..], at, to, disk, start, from, from + k);
  }

  lemma NextSector(size: nat, span: nat, left: nat, blocks: nat)
    requires span < size && blocks > 0 && blocks == SectorCount(span + left, size)
    ensures blocks - 1 == SectorCount(left - Min(size - span, left), size)
    ensures left <= size - span ==> blocks == 1
  {
    assert SectorCount(span + left - size, size) == blocks - 1;
  }
}
