// kernel/device.c: the matrix of descriptors and the reference counts. The
// matrix devices[MAX_PID][MAX_FD] is flat, row after row, as it is in memory.
module Descriptors {
  import opened Common

  type Cells = seq<Option<nat>>

  // How many cells point to device d.
  function Count(cells: Cells, d: nat): nat {
    multiset(cells)[Some(d)]
  }

  function Cell(maxFd: nat, p: nat, fd: nat): nat {
    p * maxFd + fd
  }

  lemma CellFits(maxPid: nat, maxFd: nat, p: nat, fd: nat)
    requires p < maxPid && fd <= maxFd
    ensures Cell(maxFd, p, fd) <= maxPid * maxFd
    ensures fd < maxFd || (p + 1 < maxPid && maxFd > 0) ==> Cell(maxFd, p, fd) < maxPid * maxFd
  {
    Rows(p, maxPid, maxFd);
    if p + 1 < maxPid {
      Rows(p + 1, maxPid, maxFd);
      assert (p + 1) * maxFd == p * maxFd + maxFd;
    }
  }

  lemma Rows(p: nat, q: nat, m: nat)
    requires p < q
    ensures p * m + m <= q * m
  {
    assert q * m - p * m == (q - p) * m;
    if m > 0 {
      if q - p - 1 > 0 {
        Scaled(q - p - 1, m);
      }
      assert (q - p) * m == (q - p - 1) * m + m;
    }
  }

  // Different descriptors are different cells.
  lemma CellsDiffer(maxFd: nat, p: nat, fd: nat, q: nat, fe: nat)
    requires fd < maxFd && fe < maxFd && (p != q || fd != fe)
    ensures Cell(maxFd, p, fd) != Cell(maxFd, q, fe)
  {
    assert p * maxFd - q * maxFd == (p - q) * maxFd;
    Scaled(p - q, maxFd);
  }

  datatype Status = EInvalid | Ok | Last(dev: nat)

  // close, by process p: what it clears, and whether that was the last cell.
  function CloseCell(cells: Cells, maxFd: nat, p: nat, fd: int): (r: (Cells, Status))
    requires 0 <= fd <= maxFd ==> Cell(maxFd, p, fd) < |cells|
  {
    if fd < 0 || fd > maxFd then (cells, EInvalid)
    else
      var i := Cell(maxFd, p, fd);
      match cells[i]
      case None => (cells, EInvalid)
      case Some(d) => (cells[i := None], if Count(cells, d) == 1 then Last(d) else Ok)
  }

  ghost predicate Same(cells: Cells, cells': Cells, maxFd: nat, p: nat, fd: nat) {
    Cell(maxFd, p, fd) < |cells| == |cells'| ==> cells'[Cell(maxFd, p, fd)] == cells[Cell(maxFd, p, fd)]
  }

  // Nobody's descriptors but those of p change.
  ghost predicate OnlyRow(cells: Cells, cells': Cells, maxPid: nat, maxFd: nat, p: nat) {
    |cells'| == |cells|
    && forall q: nat, fd: nat {:trigger Same(cells, cells', maxFd, q, fd)} ::
         q < maxPid && q != p && fd < maxFd ==> Same(cells, cells', maxFd, q, fd)
  }

  lemma RowUpdate(before: Cells, now: Cells, maxPid: nat, maxFd: nat, p: nat, fd: nat, x: Option<nat>)
    requires OnlyRow(before, now, maxPid, maxFd, p) && fd < maxFd && Cell(maxFd, p, fd) < |now|
    ensures OnlyRow(before, now[Cell(maxFd, p, fd) := x], maxPid, maxFd, p)
  {
    forall q: nat, fe: nat {:trigger Same(before, now[Cell(maxFd, p, fd) := x], maxFd, q, fe)} | q < maxPid && q != p && fe < maxFd
      ensures Same(before, now[Cell(maxFd, p, fd) := x], maxFd, q, fe)
    {
      assert Same(before, now, maxFd, q, fe);
      CellsDiffer(maxFd, p, fd, q, fe);
    }
  }

  ghost predicate Empty(cells: Cells, maxFd: nat, p: nat, fd: nat) {
    Cell(maxFd, p, fd) < |cells| ==> cells[Cell(maxFd, p, fd)] == None
  }

  ghost predicate Shares(before: Cells, after: Cells, maxFd: nat, source: nat, dest: nat, fd: nat) {
    && Cell(maxFd, source, fd) < |before| && Cell(maxFd, dest, fd) < |after|
    && after[Cell(maxFd, dest, fd)] == before[Cell(maxFd, source, fd)]
  }

  // The first n descriptors are shared, the others still empty.
  ghost predicate SharedUpTo(before: Cells, after: Cells, maxFd: nat, source: nat, dest: nat, n: nat) {
    && (forall f: nat {:trigger Shares(before, after, maxFd, source, dest, f)} :: f < n ==> Shares(before, after, maxFd, source, dest, f))
    && (forall f: nat {:trigger Empty(after, maxFd, dest, f)} :: n <= f < maxFd ==> Empty(after, maxFd, dest, f))
  }

  lemma ShareNext(before: Cells, now: Cells, maxFd: nat, source: nat, dest: nat, fd: nat)
    requires SharedUpTo(before, now, maxFd, source, dest, fd) && fd < maxFd
    requires Cell(maxFd, source, fd) < |before| == |now| && Cell(maxFd, dest, fd) < |now|
    ensures SharedUpTo(before, now[Cell(maxFd, dest, fd) := before[Cell(maxFd, source, fd)]], maxFd, source, dest, fd + 1)
  {
    var after := now[Cell(maxFd, dest, fd) := before[Cell(maxFd, source, fd)]];
    forall f: nat | f < fd + 1 ensures Shares(before, after, maxFd, source, dest, f) {
      if f < fd {
        assert Shares(before, now, maxFd, source, dest, f);
        CellsDiffer(maxFd, dest, f, dest, fd);
      }
    }
    forall f: nat | fd + 1 <= f < maxFd ensures Empty(after, maxFd, dest, f) {
      assert Empty(now, maxFd, dest, f);
      CellsDiffer(maxFd, dest, f, dest, fd);
    }
  }

  /** close fails, and changes nothing, for a number out of range or a descriptor
      that is not open; otherwise that cell, and no other, becomes empty, and
      it is the last one of its device exactly when no cell has the device then. */
  lemma CloseEmptiesOneCell(cells: Cells, maxFd: nat, p: nat, fd: int)
    requires 0 <= fd <= maxFd ==> Cell(maxFd, p, fd) < |cells|
    ensures var r := CloseCell(cells, maxFd, p, fd);
            && (r.1 == EInvalid <==> !(0 <= fd <= maxFd) || cells[Cell(maxFd, p, fd)] == None)
            && (r.1 == EInvalid ==> r.0 == cells)
            && (r.1 != EInvalid ==>
                  var d := cells[Cell(maxFd, p, fd)].value;
                  && r.0 == cells[Cell(maxFd, p, fd) := None]
                  && (Some(d) !in r.0 <==> r.1 == Last(d)) && (Some(d) in r.0 <==> r.1 == Ok))
  {
    var r := CloseCell(cells, maxFd, p, fd);
    if r.1 != EInvalid {
      var i := Cell(maxFd, p, fd);
      OneFewer(cells, i);
      assert Some(cells[i].value) in r.0 <==> multiset(r.0)[cells[i]] > 0;
    }
  }

  lemma OneFewer(cells: Cells, i: nat)
    requires i < |cells| && cells[i].Some?
    ensures multiset(cells[i := None])[cells[i]] == multiset(cells)[cells[i]] - 1
  {
    assert cells == cells[..i] + [cells[i]] + cells[i + 1..];
    assert cells[i := None] == cells[..i] + [None] + cells[i + 1..];
  }

  /** close stays among the descriptors of its caller exactly when the number is
      below MAX_FD; MAX_FD itself is accepted, and is the next process's 0. */
  lemma CloseStaysInRowIff(maxPid: nat, maxFd: nat, p: nat, fd: nat)
    requires p + 1 < maxPid && fd <= maxFd && maxFd > 0
    ensures Cell(maxFd, p, fd) < maxPid * maxFd
    ensures (forall cells: Cells :: |cells| == maxPid * maxFd ==> OnlyRow(cells, CloseCell(cells, maxFd, p, fd).0, maxPid, maxFd, p))
            <==> fd < maxFd
  {
    CellFits(maxPid, maxFd, p, fd);
    if fd < maxFd {
      forall cells: Cells | |cells| == maxPid * maxFd
        ensures OnlyRow(cells, CloseCell(cells, maxFd, p, fd).0, maxPid, maxFd, p)
      {
        RowUpdate(cells, cells, maxPid, maxFd, p, fd, None);
      }
    } else {
      var cells: Cells := seq(maxPid * maxFd, _ => Some(0));
      assert Cell(maxFd, p, maxFd) == Cell(maxFd, p + 1, 0);
      assert CloseCell(cells, maxFd, p, fd).0[Cell(maxFd, p + 1, 0)] == None;
      assert !Same(cells, CloseCell(cells, maxFd, p, fd).0, maxFd, p + 1, 0);
    }
  }

  class Devices {
    const maxPid: nat
    const maxFd: nat
    const flushes: seq<bool>          // which devices have a flush function
    const cells: array<Option<nat>>   // devices[][]
    const refcount: array<nat>
    var flushed: seq<nat>             // the devices flushed so far
    ghost var live: set<nat>          // the processes

    ghost predicate Shape()
      reads this
    {
      cells.Length == maxPid * maxFd && refcount.Length == |flushes|
    }

    // A device is referred to as often as its count says.
    ghost predicate Counted(d: nat)
      reads this, cells, refcount
    {
      d < refcount.Length ==> refcount[d] == Count(cells[..], d)
    }

    ghost predicate Owned(p: nat, fd: nat)
      reads this, cells
    {
      p < maxPid && p !in live && fd < maxFd && Cell(maxFd, p, fd) < cells.Length ==> cells[Cell(maxFd, p, fd)] == None
    }

    ghost predicate Valid()
      reads this, cells, refcount
    {
      && Shape()
      && (forall i :: 0 <= i < cells.Length && cells[i].Some? ==> cells[i].value < refcount.Length)
      && (forall d: nat {:trigger Counted(d)} :: Counted(d))
      && (forall p: nat, fd: nat {:trigger Owned(p, fd)} :: Owned(p, fd))
    }

    // init_fd_association
    constructor (maxPid: nat, maxFd: nat, flushes: seq<bool>)
      ensures Valid() && live == {} && flushed == [] && fresh(cells) && fresh(refcount)
      ensures this.maxPid == maxPid && this.maxFd == maxFd && this.flushes == flushes
      ensures forall i :: 0 <= i < cells.Length ==> cells[i] == None
    {
      this.maxPid, this.maxFd, this.flushes := maxPid, maxFd, flushes;
      cells := new Option<nat>[maxPid * maxFd](_ => None);
      refcount := new nat[|flushes|](_ => 0);
      flushed, live := [], {};
      new;
      forall d: nat ensures Counted(d) {
        assert Some(d) !in cells[..];
      }
      forall p: nat, fd: nat ensures Owned(p, fd) {
        if p < maxPid && fd < maxFd { CellFits(maxPid, maxFd, p, fd); }
      }
    }

    // A process is loaded (loader_load): its row is empty.
    ghost method Start(p: nat)
      requires Valid() && p < maxPid
      modifies this`live
      ensures Valid() && live == old(live) + {p}
      ensures p !in old(live) ==> forall fd: nat :: fd < maxFd ==> Empty(cells[..], maxFd, p, fd)
    {
      forall fd: nat | fd < maxFd && p !in live ensures Empty(cells[..], maxFd, p, fd) {
        assert Owned(p, fd);
      }
      live := live + {p};
      forall e: nat ensures Counted(e) { assert old(Counted(e)); }
      forall q: nat, fe: nat ensures Owned(q, fe) { assert old(Owned(q, fe)); }
    }

    // device_descriptor
    method Descriptor(cur: nat, d: nat) returns (fd: nat)
      requires Valid() && cur in live && cur < maxPid && d < refcount.Length
      modifies cells, refcount
      ensures Valid() && fd <= maxFd
      ensures forall f: nat :: f < fd ==> Cell(maxFd, cur, f) < cells.Length && old(cells[..])[Cell(maxFd, cur, f)].Some?
      ensures if fd == maxFd then cells[..] == old(cells[..])
              else Cell(maxFd, cur, fd) < cells.Length && old(cells[..])[Cell(maxFd, cur, fd)].None?
                   && cells[..] == old(cells[..])[Cell(maxFd, cur, fd) := Some(d)]
    {
      fd := 0;
      while fd < maxFd
        invariant fd <= maxFd && Valid() && cells[..] == old(cells[..])
        invariant forall f: nat :: f < fd ==> Cell(maxFd, cur, f) < cells.Length && cells[..][Cell(maxFd, cur, f)].Some?
        invariant refcount[..] == old(refcount[..])
      {
        CellFits(maxPid, maxFd, cur, fd);
        if cells[Cell(maxFd, cur, fd)].None? {
          Attach(cur, fd, d);
          break;
        }
        fd := fd + 1;
      }
    }

    method Attach(p: nat, fd: nat, d: nat)
      requires Valid() && p in live && p < maxPid && fd < maxFd && d < refcount.Length
      requires Cell(maxFd, p, fd) < cells.Length && cells[Cell(maxFd, p, fd)].None?
      modifies cells, refcount
      ensures Valid() && cells[..] == old(cells[..])[Cell(maxFd, p, fd) := Some(d)]
    {
      var i := Cell(maxFd, p, fd);
      cells[i] := Some(d);
      refcount[d] := refcount[d] + 1;
      assert cells[..] == old(cells[..])[i := Some(d)];
      forall e: nat ensures Counted(e) {
        assert old(Counted(e));
      }
      forall q: nat, fe: nat ensures Owned(q, fe) {
        assert old(Owned(q, fe));
        if q < maxPid && q !in live && fe < maxFd {
          CellFits(maxPid, maxFd, q, fe);
          CellsDiffer(maxFd, p, fd, q, fe);
        }
      }
    }

    // close
    method Close(cur: nat, fd: int) returns (status: Status)
      requires Valid() && cur < maxPid
      requires fd == maxFd ==> cur + 1 < maxPid && maxFd > 0     // else the cell is past the matrix
      modifies this`flushed, cells, refcount
      ensures 0 <= fd <= maxFd ==> Cell(maxFd, cur, fd) < cells.Length
      ensures Valid() && (cells[..], status) == CloseCell(old(cells[..]), maxFd, cur, fd)
      ensures flushed == old(flushed) + if status.Last? && flushes[status.dev] then [status.dev] else []
    {
      if fd < 0 || fd > maxFd {
        return EInvalid;
      }
      CellFits(maxPid, maxFd, cur, fd);
      var i := Cell(maxFd, cur, fd);
      if cells[i].None? {
        return EInvalid;
      }
      status := Detach(i);
    }

    method Detach(i: nat) returns (status: Status)
      requires Valid() && i < cells.Length && cells[i].Some?
      modifies this`flushed, cells, refcount
      ensures Valid() && cells[..] == old(cells[..])[i := None]
      ensures status == if Count(old(cells[..]), old(cells[i]).value) == 1 then Last(old(cells[i]).value) else Ok
      ensures flushed == old(flushed) + if status.Last? && flushes[status.dev] then [status.dev] else []
    {
      var d := cells[i].value;
      assert Counted(d) && Some(d) in cells[..];
      refcount[d] := refcount[d] - 1;
      cells[i] := None;
      assert cells[..] == old(cells[..])[i := None];
      status := Ok;
      if refcount[d] == 0 {
        status := Last(d);
        if flushes[d] {
          flushed := flushed + [d];
        }
      }
      forall e: nat ensures Counted(e) {
        assert old(Counted(e));
      }
      forall q: nat, fe: nat ensures Owned(q, fe) {
        assert old(Owned(q, fe));
      }
    }

    // device_copy_fds: the child, new and so without descriptors, gets them all.
    method CopyFds(source: nat, dest: nat)
      requires Valid() && source in live && dest !in live && source < maxPid && dest < maxPid
      modifies this`live, cells, refcount
      ensures Valid() && live == old(live) + {dest}
      ensures SharedUpTo(old(cells[..]), cells[..], maxFd, source, dest, maxFd)
      ensures OnlyRow(old(cells[..]), cells[..], maxPid, maxFd, dest)
    {
      ghost var before := cells[..];
      live := live + {dest};
      forall q: nat, fe: nat ensures Owned(q, fe) { assert old(Owned(q, fe)); }
      forall e: nat ensures Counted(e) { assert old(Counted(e)); }
      forall f: nat | f < maxFd ensures Empty(before, maxFd, dest, f) { assert old(Owned(dest, f)); }
      var fd := 0;
      while fd < maxFd
        invariant fd <= maxFd && Valid() && live == old(live) + {dest}
        invariant SharedUpTo(before, cells[..], maxFd, source, dest, fd)
        invariant OnlyRow(before, cells[..], maxPid, maxFd, dest)
      {
        ghost var now := cells[..];
        assert Same(before, now, maxFd, source, fd) && Empty(now, maxFd, dest, fd);
        CopyCell(source, dest, fd);
        ShareNext(before, now, maxFd, source, dest, fd);
        RowUpdate(before, now, maxPid, maxFd, dest, fd, now[Cell(maxFd, source, fd)]);
        fd := fd + 1;
      }
    }

    method CopyCell(source: nat, dest: nat, fd: nat)
      requires Valid() && dest in live && source < maxPid && dest < maxPid && fd < maxFd
      requires Cell(maxFd, dest, fd) < cells.Length ==> cells[Cell(maxFd, dest, fd)] == None
      modifies cells, refcount
      ensures Valid() && Cell(maxFd, source, fd) < cells.Length && Cell(maxFd, dest, fd) < cells.Length
      ensures cells[..] == old(cells[..])[Cell(maxFd, dest, fd) := old(cells[Cell(maxFd, source, fd)])]
    {
      CellFits(maxPid, maxFd, source, fd);
      CellFits(maxPid, maxFd, dest, fd);
      var x := cells[Cell(maxFd, source, fd)];
      if x.Some? {
        Attach(dest, fd, x.value);
      } else {
        cells[Cell(maxFd, dest, fd)] := None;
        assert cells[..] == old(cells[..]);
        forall e: nat ensures Counted(e) { assert old(Counted(e)); }
        forall q: nat, fe: nat ensures Owned(q, fe) { assert old(Owned(q, fe)); }
      }
    }

    // device_close_fds_for the running process, which ends then.
    method CloseAll(cur: nat)
      requires Valid() && cur in live && cur < maxPid
      modifies this`flushed, this`live, cells, refcount
      ensures Valid() && live == old(live) - {cur}
      ensures forall f: nat :: f < maxFd ==> Empty(cells[..], maxFd, cur, f)
      ensures OnlyRow(old(cells[..]), cells[..], maxPid, maxFd, cur)
      ensures old(flushed) <= flushed
      ensures forall d: nat {:trigger FlushedOnce(old(cells[..]), cells[..], flushed[|old(flushed)|..], d)} ::
                FlushedOnce(old(cells[..]), cells[..], flushed[|old(flushed)|..], d)
    {
      ghost var before, log := cells[..], flushed;
      var fd := 0;
      while fd < maxFd
        invariant fd <= maxFd && Valid() && live == old(live)
        invariant OnlyRow(before, cells[..], maxPid, maxFd, cur) && log <= flushed
        invariant forall f: nat {:trigger Empty(cells[..], maxFd, cur, f)} :: f < fd ==> Empty(cells[..], maxFd, cur, f)
        invariant forall d: nat {:trigger FlushedOnce(before, cells[..], flushed[|log|..], d)} ::
                    FlushedOnce(before, cells[..], flushed[|log|..], d)
      {
        ghost var now := cells[..];
        CloseIfOpen(cur, fd, before, log);
        RowUpdate(before, now, maxPid, maxFd, cur, fd, None);
        forall f: nat | f < fd + 1 ensures Empty(cells[..], maxFd, cur, f) {
          assert f < fd ==> Empty(now, maxFd, cur, f);
        }
        fd := fd + 1;
      }
      label cleared:
      live := live - {cur};
      forall e: nat ensures Counted(e) {
        assert old@cleared(Counted(e));
      }
      forall q: nat, fe: nat ensures Owned(q, fe) {
        assert old@cleared(Owned(q, fe));
        assert q == cur && fe < maxFd ==> Empty(cells[..], maxFd, cur, fe);
      }
    }

    // One round of it.
    method CloseIfOpen(cur: nat, fd: nat, ghost before: Cells, ghost log: seq<nat>)
      requires Valid() && cur in live && cur < maxPid && fd < maxFd && log <= flushed
      requires forall d: nat {:trigger FlushedOnce(before, cells[..], flushed[|log|..], d)} ::
                 FlushedOnce(before, cells[..], flushed[|log|..], d)
      modifies this`flushed, cells, refcount
      ensures Valid() && log <= flushed && Cell(maxFd, cur, fd) < cells.Length
      ensures cells[..] == old(cells[..])[Cell(maxFd, cur, fd) := None]
      ensures forall d: nat {:trigger FlushedOnce(before, cells[..], flushed[|log|..], d)} ::
                FlushedOnce(before, cells[..], flushed[|log|..], d)
    {
      CellFits(maxPid, maxFd, cur, fd);
      var i := Cell(maxFd, cur, fd);
      ghost var now, gone := cells[..], flushed[|log|..];
      if cells[i].Some? {
        var status := Close(cur, fd);
        forall d: nat ensures FlushedOnce(before, cells[..], flushed[|log|..], d) {
          assert FlushedOnce(before, now, gone, d);
          assert flushed[|log|..] == gone + flushed[|old(flushed)|..];
        }
      }
    }

    // A device was flushed exactly once if its last cell went, and else not.
    ghost predicate FlushedOnce(before: Cells, now: Cells, gone: seq<nat>, d: nat) {
      && Count(now, d) <= Count(before, d)
      && multiset(gone)[d] == if d < |flushes| && flushes[d] && Count(before, d) > 0 && Count(now, d) == 0 then 1 else 0
    }
  }

  // The first free descriptor of a process with one cell.
  method OpenFirst(devices: Devices, p: nat, d: nat)
    requires devices.Valid() && devices.maxFd == 1 && p in devices.live && p < devices.maxPid && d < devices.refcount.Length
    requires p < devices.cells.Length && devices.cells[p].None?
    modifies devices.cells, devices.refcount
    ensures devices.Valid() && devices.cells[..] == old(devices.cells[..])[p := Some(d)]
  {
    var fd := devices.Descriptor(p, d);
    assert Cell(1, p, 0) == p;
  }

  // Two processes with one device each.
  method TwoProcesses() returns (devices: Devices)
    ensures fresh(devices) && devices.Valid() && devices.maxPid == 2 && devices.maxFd == 1 && devices.live == {0, 1}
    ensures devices.cells[..] == [Some(0), Some(1)]
  {
    devices := new Devices(2, 1, [true, true]);
    devices.Start(0);
    devices.Start(1);
    OpenFirst(devices, 0, 0);
    OpenFirst(devices, 1, 1);
    assert devices.cells[..] == [Some(0), Some(1)];
  }

  lemma CountPair(cells: Cells, d: nat)
    requires |cells| == 2 && cells[0] != Some(d) && cells[1] == Some(d)
    ensures Count(cells, d) == 1
  {
    assert cells == [cells[0]] + [cells[1]];
  }

  // With one descriptor each, the first of two processes closes MAX_FD: the other has lost its own, the last of its device.
  lemma CloseReachesNeighbour(cells: Cells)
    requires cells == [Some(0), Some(1)]
    ensures Cell(1, 0, 1) == 1 && CloseCell(cells, 1, 0, 1) == ([Some(0), None], Last(1))
  {
    CountPair(cells, 1);
    assert cells[1 := None] == [Some(0), None];
  }
}
