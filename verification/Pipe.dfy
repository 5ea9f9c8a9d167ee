// kernel/pipe.c: a circular buffer between two endpoints. A call runs until it
// returns or blocks; when it is woken it goes on with the bytes it has done.
module Pipe {
  import opened Common
  import opened Memory
  import opened RunRing

  // --- what a pipe does, as a value -----------------------------------------------------

  // `put` is all that was ever written into the buffer, `got` how much of it was
  // taken out; `ready` are the processes woken so far, in order. The source does
  // not add the bytes done to the user's pointer; `advance` is a pipe that does.
  datatype View = View(advance: bool, cap: nat, put: seq<Byte>, got: nat, readEnd: bool, writeEnd: bool,
                       readers: seq<Pid>, writers: seq<Pid>, ready: seq<Pid>) {
    function Available(): int {
      |put| - got
    }
  }

  datatype Outcome = Blocked(sz: nat) | Returned(sz: nat)

  ghost predicate Inv(v: View) {
    v.cap > 0 && 0 <= v.Available() <= v.cap
  }

  /** No wake-up is lost: readers wait only for bytes that a writer may still
      send, writers only for room that a reader may still make. */
  ghost predicate NoLostWakeUp(v: View) {
    && (v.readers != [] ==> v.Available() == 0 && v.writeEnd)
    && (v.writers != [] ==> v.Available() == v.cap && v.readEnd)
  }

  // What pipe_write copies from the user's buffer in one round of k bytes, to
  // position pos on in the ring.
  function SentAt(advance: bool, cap: nat, pos: nat, data: seq<Byte>, sz: nat, k: nat): (s: seq<Byte>)
    requires sz + k <= |data| && k <= cap && pos < cap
    ensures |s| == k
  {
    var from := if advance then sz else 0;
    if pos + k > cap then
      var tmp := cap - pos;
      var second := if advance then from + tmp else from;
      data[from..from + tmp] + data[second..second + k - tmp]
    else data[from..from + k]
  }

  // What pipe_read leaves in the user's buffer in one round.
  function ReceivedAt(advance: bool, cap: nat, pos: nat, dest: seq<Byte>, sz: nat, bytes: seq<Byte>): (s: seq<Byte>)
    requires sz + |bytes| <= |dest| && |bytes| <= cap && pos < cap
    ensures |s| == |dest|
  {
    var to := if advance then sz else 0;
    if pos + |bytes| > cap then
      var tmp := cap - pos;
      Splice(Splice(dest, to, bytes[..tmp]), if advance then to + tmp else to, bytes[tmp..])
    else Splice(dest, to, bytes)
  }

  function Sent(v: View, data: seq<Byte>, sz: nat, k: nat): (s: seq<Byte>)
    requires sz + k <= |data| && k <= v.cap && v.cap > 0
    ensures |s| == k
  {
    SentAt(v.advance, v.cap, |v.put| % v.cap, data, sz, k)
  }

  function Received(v: View, dest: seq<Byte>, sz: nat, bytes: seq<Byte>): (s: seq<Byte>)
    requires sz + |bytes| <= |dest| && |bytes| <= v.cap && v.cap > 0
    ensures |s| == |dest|
  {
    ReceivedAt(v.advance, v.cap, v.got % v.cap, dest, sz, bytes)
  }

  function PutBytes(v: View, bytes: seq<Byte>): View {
    v.(put := v.put + bytes, readers := [], ready := v.ready + v.readers)
  }

  function TakeBytes(v: View, k: nat): View {
    v.(got := v.got + k, writers := [], ready := v.ready + v.writers)
  }

  // pipe_write by process p, from the loop head with sz bytes done.
  function WriteFrom(v: View, p: Pid, data: seq<Byte>, sz: nat): (r: (View, Outcome))
    requires Inv(v)
    ensures Inv(r.0)
    decreases |data| - sz
  {
    if sz >= |data| then (v, Returned(sz))
    else if !v.readEnd then (v, Returned(0))
    else if v.Available() == v.cap then (v.(writers := v.writers + [p]), Blocked(sz))
    else
      var k := Min(v.cap - v.Available(), |data| - sz);
      WriteFrom(PutBytes(v, Sent(v, data, sz, k)), p, data, sz + k)
  }

  // pipe_read likewise; dest is the user's buffer, which the call fills.
  function ReadFrom(v: View, p: Pid, dest: seq<Byte>, sz: nat): (r: (View, Outcome, seq<Byte>))
    requires Inv(v)
    ensures Inv(r.0)
    decreases |dest| - sz
  {
    if sz >= |dest| then (v, Returned(sz), dest)
    else if !v.writeEnd && v.Available() == 0 then (v, Returned(sz), dest)
    else if v.Available() == 0 then (v.(readers := v.readers + [p]), Blocked(sz), dest)
    else
      var k := Min(v.Available(), |dest| - sz);
      ReadFrom(TakeBytes(v, k), p, Received(v, dest, sz, v.put[v.got..v.got + k]), sz + k)
  }

  // pipe_flush of either endpoint
  function CloseReadEnd(v: View): View {
    v.(readEnd := false, writers := [], ready := v.ready + v.writers)
  }

  function CloseWriteEnd(v: View): View {
    v.(writeEnd := false, readers := [], ready := v.ready + v.readers)
  }

  // --- the ring ------------------------------------------------------------------------------

  // Byte i of the stream is at i modulo the capacity, while it is available.
  ghost predicate At(buf: seq<Byte>, put: seq<Byte>, i: nat) {
    |buf| > 0 && i < |put| ==> buf[i % |buf|] == put[i]
  }

  ghost predicate Holds(buf: seq<Byte>, put: seq<Byte>, got: nat) {
    forall i: nat {:trigger At(buf, put, i)} :: got <= i ==> At(buf, put, i)
  }

  // memcpy to the buffer at pos, around the end if need be.
  function Overlay(buf: seq<Byte>, pos: nat, bytes: seq<Byte>): (r: seq<Byte>)
    requires pos < |buf| && |bytes| <= |buf|
    ensures |r| == |buf|
  {
    var k, tmp := |bytes|, |buf| - pos;
    if pos + k > |buf| then bytes[tmp..] + buf[k - tmp..pos] + bytes[..tmp]
    else buf[..pos] + bytes + buf[pos + k..]
  }

  function Around(buf: seq<Byte>, pos: nat, k: nat): (r: seq<Byte>)
    requires pos < |buf| && k <= |buf|
    ensures |r| == k
  {
    if pos + k > |buf| then buf[pos..] + buf[..k - (|buf| - pos)] else buf[pos..pos + k]
  }

  lemma OverlayHolds(buf: seq<Byte>, put: seq<Byte>, got: nat, bytes: seq<Byte>)
    requires Holds(buf, put, got) && |buf| > 0 && got <= |put| && |put| + |bytes| - got <= |buf|
    ensures Holds(Overlay(buf, |put| % |buf|, bytes), put + bytes, got)
  {
    var pos := |put| % |buf|;
    var buf' := Overlay(buf, pos, bytes);
    forall i: nat | got <= i ensures At(buf', put + bytes, i) {
      if i < |put| {
        assert At(buf, put, i);
        BeforeNew(|put|, i, |bytes|, |buf|);
        OverlayKeeps(buf, pos, bytes, i % |buf|);
      } else if i < |put| + |bytes| {
        ModStep(|put|, i - |put|, |buf|);
        OverlayPuts(buf, pos, bytes, i - |put|);
      }
    }
  }

  // Place x is outside of the k places from pos on, around the ring.
  predicate Outside(x: nat, pos: nat, k: nat, n: nat) {
    if pos + k > n then pos + k - n <= x < pos else x < pos || pos + k <= x < n
  }

  // What is not yet taken out is outside of the places to write.
  lemma BeforeNew(m: nat, i: nat, k: nat, n: nat)
    requires 0 < n && i < m && m + k <= i + n
    ensures Outside(i % n, m % n, k, n)
  {
    if k > 0 {
      ModStep(i, m - i, n);
    }
  }

  lemma OverlayKeeps(buf: seq<Byte>, pos: nat, bytes: seq<Byte>, x: nat)
    requires pos < |buf| && |bytes| <= |buf| && x < |buf| && Outside(x, pos, |bytes|, |buf|)
    ensures Overlay(buf, pos, bytes)[x] == buf[x]
  {}

  lemma OverlayPuts(buf: seq<Byte>, pos: nat, bytes: seq<Byte>, j: nat)
    requires pos < |buf| && |bytes| <= |buf| && j < |bytes|
    ensures Overlay(buf, pos, bytes)[if pos + j < |buf| then pos + j else pos + j - |buf|] == bytes[j]
  {}

  lemma AroundTakes(buf: seq<Byte>, put: seq<Byte>, got: nat, k: nat)
    requires Holds(buf, put, got) && |buf| > 0 && got + k <= |put| && k <= |buf|
    ensures Around(buf, got % |buf|, k) == put[got..got + k]
  {
    var n := |buf|;
    forall j | 0 <= j < k ensures Around(buf, got % n, k)[j] == put[got..got + k][j] {
      assert At(buf, put, got + j);
      ModStep(got, j, n);
    }
  }

  // --- the two endpoints -----------------------------------------------------------------------

  // str_pipe; `open` is klass != CLASS_DEV_NONE.
  datatype Endpoint = Endpoint(open: bool, available: nat, pos: nat, queue: seq<Pid>)

  class Pair {
    const buffer: array<Byte>
    var rd: Endpoint
    var wr: Endpoint
    var ready: seq<Pid>
    ghost var put: seq<Byte>
    ghost var got: nat

    // What pipe_open leaves, once it has two endpoints and a page.
    constructor (page: array<Byte>)
      requires page.Length > 0
      ensures Valid() && buffer == page && rd.open && wr.open
      ensures V() == View(false, page.Length, [], 0, true, true, [], [], [])
    {
      buffer := page;
      rd, wr, ready := Endpoint(true, 0, 0, []), Endpoint(true, 0, 0, []), [];
      put, got := [], 0;
    }

    ghost function V(): View
      reads this
    {
      View(false, buffer.Length, put, got, rd.open, wr.open, rd.queue, wr.queue, ready)
    }

    // Both copies of `available` agree, the positions follow from the bytes that
    // went through, and the ring holds what is not yet read.
    ghost predicate Valid()
      reads this, buffer
    {
      var valid :=
        && Inv(V()) && NoLostWakeUp(V())
        && rd.available == wr.available == |put| - got
        && rd.pos == got % buffer.Length && wr.pos == |put| % buffer.Length
        && Holds(buffer[..], put, got);
      valid
    }

    // wake_all on the readers; every loader_unqueue readies the first of them.
    method WakeReaders()
      modifies this`rd, this`ready
      ensures rd == old(rd).(queue := []) && ready == old(ready) + old(rd.queue)
    {
      while rd.queue != []
        invariant rd == old(rd).(queue := rd.queue) && ready + rd.queue == old(ready) + old(rd.queue)
        decreases |rd.queue|
      {
        ready := ready + [rd.queue[0]];
        rd := rd.(queue := rd.queue[1..]);
      }
    }

    method WakeWriters()
      modifies this`wr, this`ready
      ensures wr == old(wr).(queue := []) && ready == old(ready) + old(wr.queue)
    {
      while wr.queue != []
        invariant wr == old(wr).(queue := wr.queue) && ready + wr.queue == old(ready) + old(wr.queue)
        decreases |wr.queue|
      {
        ready := ready + [wr.queue[0]];
        wr := wr.(queue := wr.queue[1..]);
      }
    }

    // pipe_write, by process p, from the loop head
    method Write(p: Pid, data: array<Byte>, done: nat) returns (out: Outcome)
      requires Valid() && wr.open && data != buffer
      modifies this, buffer
      ensures Valid() && (V(), out) == WriteFrom(old(V()), p, data[..], done)
    {
      var sz := done;
      ghost var bytes, goal := data[..], WriteFrom(V(), p, data[..], done);
      while sz < data.Length
        invariant Valid() && wr.open && data[..] == bytes
        invariant WriteFrom(V(), p, bytes, sz) == goal
        decreases data.Length - sz
      {
        if !rd.open {
          return Returned(0);
        }
        if wr.available == buffer.Length {
          WaitForRoom(p);
          return Blocked(sz);
        }
        var k := Min(buffer.Length - wr.available, data.Length - sz);
        ghost var v := V();
        WriteUnfolds(v, p, bytes, sz, k);
        WriteRound(data, sz, k);
        assert V() == PutBytes(v, Sent(v, bytes, sz, k));
        sz := sz + k;
      }
      return Returned(sz);
    }

    // loader_enqueue
    method WaitForRoom(p: Pid)
      requires Valid() && wr.available == buffer.Length && rd.open
      modifies this`wr
      ensures Valid() && V() == old(V()).(writers := old(V()).writers + [p])
    {
      wr := wr.(queue := wr.queue + [p]);
    }

    method WaitForBytes(p: Pid, ghost dest: seq<Byte>, ghost sz: nat)
      requires Valid() && rd.available == 0 && wr.open && sz < |dest|
      modifies this`rd
      ensures Valid() && V() == old(V()).(readers := old(V()).readers + [p])
      ensures (V(), Blocked(sz), dest) == ReadFrom(old(V()), p, dest, sz)
    {
      rd := rd.(queue := rd.queue + [p]);
    }

    method WriteRound(data: array<Byte>, ghost sz: nat, k: nat)
      requires Valid() && wr.open && rd.open && data != buffer
      requires 0 < k && sz + k <= data.Length && k <= buffer.Length - wr.available
      modifies this, buffer
      ensures Valid() && V() == PutBytes(old(V()), Sent(old(V()), data[..], sz, k)) && data[..] == old(data[..])
    {
      CopyIn(data, sz, k);
      ghost var bytes := Sent(V(), data[..], sz, k);
      OverlayHolds(old(buffer[..]), put, got, bytes);
      ModNext(|put|, k, buffer.Length);
      wr := wr.(pos := (wr.pos + k) % buffer.Length);
      wr := wr.(available := wr.available + k);
      rd := rd.(available := rd.available + k);
      put := put + bytes;
      WakeReaders();
    }

    method CopyIn(data: array<Byte>, ghost sz: nat, k: nat)
      requires data != buffer && sz + k <= data.Length && k <= buffer.Length && wr.pos < buffer.Length
      modifies buffer
      ensures buffer[..] == Overlay(old(buffer[..]), wr.pos, SentAt(false, buffer.Length, wr.pos, old(data[..]), sz, k))
    {
      if wr.pos + k > buffer.Length {
        var tmp := buffer.Length - wr.pos;
        CopyBytes(data, 0, buffer, wr.pos, tmp);
        CopyBytes(data, 0, buffer, 0, k - tmp);
      } else {
        CopyBytes(data, 0, buffer, wr.pos, k);
      }
      ghost var sent := SentAt(false, buffer.Length, wr.pos, old(data[..]), sz, k);
      forall x: nat | x < buffer.Length ensures buffer[..][x] == Overlay(old(buffer[..]), wr.pos, sent)[x] {
        OverlaidByte(old(buffer[..]), wr.pos, old(data[..]), sz, k, x);
      }
    }

    // pipe_read likewise
    method Read(p: Pid, dest: array<Byte>, done: nat) returns (out: Outcome)
      requires Valid() && rd.open && dest != buffer
      modifies this, dest
      ensures Valid() && (V(), out, dest[..]) == ReadFrom(old(V()), p, old(dest[..]), done)
    {
      var sz := done;
      ghost var goal := ReadFrom(V(), p, dest[..], done);
      while sz < dest.Length
        invariant Valid() && rd.open
        invariant ReadFrom(V(), p, dest[..], sz) == goal
        decreases dest.Length - sz
      {
        if !wr.open && rd.available == 0 {
          break;
        }
        if rd.available == 0 {
          WaitForBytes(p, dest[..], sz);
          return Blocked(sz);
        }
        var k := ReadMore(p, dest, sz);
        sz := sz + k;
      }
      return Returned(sz);
    }

    // What one round leaves to do is what was left before.
    method ReadMore(ghost p: Pid, dest: array<Byte>, sz: nat) returns (k: nat)
      requires Valid() && rd.open && dest != buffer && sz < dest.Length && rd.available > 0
      modifies this, dest
      ensures Valid() && rd.open && 0 < k <= dest.Length - sz
      ensures ReadFrom(V(), p, dest[..], sz + k) == old(ReadFrom(V(), p, dest[..], sz))
    {
      k := Min(rd.available, dest.Length - sz);
      ReadUnfolds(V(), p, dest[..], sz, k);
      ReadRound(dest, sz, k);
    }

    method ReadRound(dest: array<Byte>, ghost sz: nat, k: nat)
      requires Valid() && rd.open && dest != buffer
      requires 0 < k && sz + k <= dest.Length && k <= rd.available
      modifies this, dest
      ensures Valid() && V() == TakeBytes(old(V()), k)
      ensures dest[..] == Received(old(V()), old(dest[..]), sz, old(V()).put[old(V()).got..old(V()).got + k])
    {
      AroundTakes(buffer[..], put, got, k);
      CopyOut(dest, sz, k);
      TakeOut(k);
    }

    // The k oldest bytes are gone, and the writers go on.
    method TakeOut(k: nat)
      requires Valid() && 0 < k <= rd.available
      modifies this
      ensures Valid() && V() == TakeBytes(old(V()), k) && rd.open == old(rd.open)
    {
      ModNext(got, k, buffer.Length);
      rd := rd.(pos := (rd.pos + k) % buffer.Length);
      rd := rd.(available := rd.available - k);
      wr := wr.(available := wr.available - k);
      got := got + k;
      WakeWriters();
    }

    method CopyOut(dest: array<Byte>, ghost sz: nat, k: nat)
      requires dest != buffer && sz + k <= dest.Length && k <= buffer.Length && rd.pos < buffer.Length
      modifies dest
      ensures dest[..] == ReceivedAt(false, buffer.Length, rd.pos, old(dest[..]), sz, Around(old(buffer[..]), rd.pos, k))
    {
      if rd.pos + k > buffer.Length {
        var tmp := buffer.Length - rd.pos;
        CopyBytes(buffer, rd.pos, dest, 0, tmp);
        CopyBytes(buffer, 0, dest, 0, k - tmp);
      } else {
        CopyBytes(buffer, rd.pos, dest, 0, k);
      }
      ghost var bytes := Around(old(buffer[..]), rd.pos, k);
      forall x: nat | x < dest.Length
        ensures dest[..][x] == ReceivedAt(false, buffer.Length, rd.pos, old(dest[..]), sz, bytes)[x]
      {
        ReceivedByte(old(buffer[..]), rd.pos, old(dest[..]), sz, k, x);
      }
    }

    // pipe_flush; the buffer goes with the endpoint that is closed last.
    method FlushReadEnd() returns (freed: bool)
      requires Valid() && rd.open
      modifies this
      ensures Valid() && V() == CloseReadEnd(old(V())) && (freed <==> !wr.open)
    {
      rd := rd.(open := false);
      WakeWriters();
      freed := !wr.open;
    }

    method FlushWriteEnd() returns (freed: bool)
      requires Valid() && wr.open
      modifies this
      ensures Valid() && V() == CloseWriteEnd(old(V())) && (freed <==> !rd.open)
    {
      wr := wr.(open := false);
      WakeReaders();
      freed := !rd.open;
    }
  }

  lemma WriteUnfolds(v: View, p: Pid, data: seq<Byte>, sz: nat, k: nat)
    requires Inv(v) && sz < |data| && v.readEnd && v.Available() < v.cap && k == Min(v.cap - v.Available(), |data| - sz)
    ensures WriteFrom(v, p, data, sz) == WriteFrom(PutBytes(v, Sent(v, data, sz, k)), p, data, sz + k)
  {}

  lemma ReadUnfolds(v: View, p: Pid, dest: seq<Byte>, sz: nat, k: nat)
    requires Inv(v) && sz < |dest| && v.Available() > 0 && k == Min(v.Available(), |dest| - sz)
    ensures ReadFrom(v, p, dest, sz) == ReadFrom(TakeBytes(v, k), p, Received(v, dest, sz, v.put[v.got..v.got + k]), sz + k)
  {}

  // A byte of the ring after a round, as the code is.
  lemma OverlaidByte(buf: seq<Byte>, pos: nat, data: seq<Byte>, sz: nat, k: nat, x: nat)
    requires pos < |buf| && sz + k <= |data| && k <= |buf| && x < |buf|
    ensures Overlay(buf, pos, SentAt(false, |buf|, pos, data, sz, k))[x] ==
              if pos <= x < pos + k then data[x - pos]
              else if x < pos + k - |buf| then data[x]
              else buf[x]
  {}

  // A byte of the user's buffer; the second part of a round overwrites the first.
  lemma TwoParts(dest: seq<Byte>, first: seq<Byte>, second: seq<Byte>, x: nat)
    requires |first| <= |dest| && |second| <= |dest| && x < |dest|
    ensures Splice(Splice(dest, 0, first), 0, second)[x] ==
              if x < |second| then second[x] else if x < |first| then first[x] else dest[x]
  {
    SpliceAt(dest, 0, first, x);
    SpliceAt(Splice(dest, 0, first), 0, second, x);
  }

  lemma ReceivedByte(ring: seq<Byte>, pos: nat, dest: seq<Byte>, sz: nat, k: nat, x: nat)
    requires sz + k <= |dest| && k <= |ring| && pos < |ring| && x < |dest|
    ensures ReceivedAt(false, |ring|, pos, dest, sz, Around(ring, pos, k))[x] ==
              if x < pos + k - |ring| then ring[x]
              else if x < Min(k, |ring| - pos) then ring[pos + x]
              else dest[x]
  {
    if pos + k > |ring| {
      var bytes, tmp := Around(ring, pos, k), |ring| - pos;
      assert bytes[..tmp] == ring[pos..] && bytes[tmp..] == ring[..k - tmp];
      TwoParts(dest, ring[pos..], ring[..k - tmp], x);
    } else {
      SpliceAt(dest, 0, ring[pos..pos + k], x);
    }
  }
}
