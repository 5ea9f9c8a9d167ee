// Every run of a pipe: who waits for what, and which bytes come out.
module PipeStreams {
  import opened Common
  import opened Memory
  import opened RunRing
  import opened Pipe

  // --- one call, up to where it returns or blocks -------------------------------------------

  // The bytes that a call moves before it returns or blocks.
  function WriteSize(v: View, data: seq<Byte>, sz: nat): nat
    requires Inv(v) && sz <= |data|
  {
    if v.readEnd then Min(v.cap - v.Available(), |data| - sz) else 0
  }

  function ReadSize(v: View, dest: seq<Byte>, sz: nat): nat
    requires Inv(v) && sz <= |dest|
  {
    Min(v.Available(), |dest| - sz)
  }

  // There is at most one round: after it the call is done or the buffer is full.
  lemma WriteSegment(v: View, p: Pid, data: seq<Byte>, sz: nat)
    requires Inv(v) && sz <= |data|
    ensures var k := WriteSize(v, data, sz);
            var moved := if k == 0 then v else PutBytes(v, Sent(v, data, sz, k));
            WriteFrom(v, p, data, sz) ==
              if sz < |data| && !v.readEnd then (v, Returned(0))
              else if sz + k == |data| then (moved, Returned(|data|))
              else (moved.(writers := v.writers + [p]), Blocked(sz + k))
  {
    var k := WriteSize(v, data, sz);
    if k > 0 {
      var moved := PutBytes(v, Sent(v, data, sz, k));
      WriteUnfolds(v, p, data, sz, k);
      assert moved.Available() == v.Available() + k;
    }
  }

  lemma ReadSegment(v: View, p: Pid, dest: seq<Byte>, sz: nat)
    requires Inv(v) && sz <= |dest|
    ensures var k := ReadSize(v, dest, sz);
            var moved := if k == 0 then v else TakeBytes(v, k);
            var dest' := if k == 0 then dest else Received(v, dest, sz, v.put[v.got..v.got + k]);
            ReadFrom(v, p, dest, sz) ==
              if sz + k == |dest| || !v.writeEnd then (moved, Returned(sz + k), dest')
              else (moved.(readers := v.readers + [p]), Blocked(sz + k), dest')
  {
    var k := ReadSize(v, dest, sz);
    if k > 0 {
      ReadUnfolds(v, p, dest, sz, k);
      assert TakeBytes(v, k).Available() == v.Available() - k;
    }
  }

  // --- what one round moves ------------------------------------------------------------------

  /** The bytes put are the ones asked for, whatever they are, exactly when the
      round is the first of its call and does not wrap, or the offset is added. */
  lemma SentIff(v: View, n: nat, sz: nat, k: nat)
    requires v.cap > 0 && 0 < k <= v.cap && sz + k <= n
    ensures (forall data: seq<Byte> :: |data| == n ==> Sent(v, data, sz, k) == data[sz..sz + k])
            <==> v.advance || (sz == 0 && |v.put| % v.cap + k <= v.cap)
  {
    var pos := |v.put| % v.cap;
    if !v.advance && (sz > 0 || pos + k > v.cap) {
      var data: seq<Byte> := seq(n, i => if i == 0 then 1 else 0);
      var i := if sz > 0 then 0 else v.cap - pos;
      assert Sent(v, data, sz, k)[i] == 1 && data[sz..sz + k][i] == 0;
    }
  }

  /** Without the offset: the round sends the data from its start on, and from its
      start again behind the end of the buffer. */
  lemma SentAre(v: View, data: seq<Byte>, sz: nat, k: nat, i: nat)
    requires !v.advance && v.cap > 0 && k <= v.cap && sz + k <= |data| && i < k
    ensures var pos := |v.put| % v.cap; Sent(v, data, sz, k)[i] == data[if pos + i < v.cap then i else pos + i - v.cap]
  {}

  /** And the reader finds them at the start of its buffer, those from behind the
      end over the others. */
  lemma ReceivedAre(v: View, dest: seq<Byte>, sz: nat, bytes: seq<Byte>, i: nat)
    requires !v.advance && v.cap > 0 && |bytes| <= v.cap && sz + |bytes| <= |dest| && i < |dest|
    ensures var tmp := v.cap - v.got % v.cap;
            Received(v, dest, sz, bytes)[i] ==
              if tmp + i < |bytes| then bytes[tmp + i]
              else if i < tmp && i < |bytes| then bytes[i]
              else dest[i]
  {
    var tmp := v.cap - v.got % v.cap;
    if |bytes| > tmp {
      TwoParts(dest, bytes[..tmp], bytes[tmp..], i);
    } else {
      SpliceAt(dest, 0, bytes, i);
    }
  }

  // Concretely: three bytes written two before the end of an empty buffer of four.
  lemma WrapRepeatsBytes()
    ensures var v := View(false, 4, [9, 9], 2, true, true, [], [], []);
            var r := WriteFrom(v, 1, [10, 20, 30], 0);
            r.1 == Returned(3) && r.0.put[2..] == [10, 20, 10]
  {
    var v := View(false, 4, [9, 9], 2, true, true, [], [], []);
    WriteSegment(v, 1, [10, 20, 30], 0);
  }

  lemma SpliceInTwo(dest: seq<Byte>, at: nat, bytes: seq<Byte>, k: nat)
    requires at + |bytes| <= |dest| && k <= |bytes|
    ensures Splice(Splice(dest, at, bytes[..k]), at + k, bytes[k..]) == Splice(dest, at, bytes)
  {
    var first := Splice(dest, at, bytes[..k]);
    forall i | 0 <= i < |dest| ensures Splice(first, at + k, bytes[k..])[i] == Splice(dest, at, bytes)[i] {
      SpliceAt(dest, at, bytes[..k], i);
      SpliceAt(first, at + k, bytes[k..], i);
      SpliceAt(dest, at, bytes, i);
    }
  }

  // Without the offset, the last byte of a resumed or wrapped round is not where it belongs.
  lemma LastByteLost(v: View, dest: seq<Byte>, sz: nat, bytes: seq<Byte>)
    requires !v.advance && v.cap > 0 && 0 < |bytes| <= v.cap && sz + |bytes| <= |dest|
    requires sz > 0 || v.got % v.cap + |bytes| > v.cap
    ensures Received(v, dest, sz, bytes)[sz + |bytes| - 1] == dest[sz + |bytes| - 1]
    ensures Splice(dest, sz, bytes)[sz + |bytes| - 1] == bytes[|bytes| - 1]
  {
    var pos, i := v.got % v.cap, sz + |bytes| - 1;
    SpliceAt(dest, sz, bytes, i);
    if pos + |bytes| > v.cap {
      var tmp := v.cap - pos;
      SpliceAt(dest, 0, bytes[..tmp], i);
      SpliceAt(Splice(dest, 0, bytes[..tmp]), 0, bytes[tmp..], i);
    } else {
      SpliceAt(dest, 0, bytes, i);
    }
  }

  /** Likewise for the bytes that a reader finds where it asked for them. */
  lemma ReceivedIff(v: View, n: nat, sz: nat, k: nat)
    requires v.cap > 0 && 0 < k <= v.cap && sz + k <= n
    ensures (forall dest: seq<Byte>, bytes: seq<Byte> :: |dest| == n && |bytes| == k ==>
               Received(v, dest, sz, bytes) == Splice(dest, sz, bytes))
            <==> v.advance || (sz == 0 && v.got % v.cap + k <= v.cap)
  {
    var pos := v.got % v.cap;
    if v.advance {
      forall dest: seq<Byte>, bytes: seq<Byte> | |dest| == n && |bytes| == k
        ensures Received(v, dest, sz, bytes) == Splice(dest, sz, bytes)
      {
        if pos + k > v.cap {
          SpliceInTwo(dest, sz, bytes, v.cap - pos);
        }
      }
    } else if sz > 0 || pos + k > v.cap {
      var dest: seq<Byte> := seq(n, _ => 0);
      var bytes: seq<Byte> := seq(k, _ => 1);
      LastByteLost(v, dest, sz, bytes);
    }
  }

  /** The bytes that a write call puts before it returns or blocks are the next
      ones of its data, whatever the data, exactly when the offset is added, or
      the call is not resumed and its bytes end before the buffer does: a
      caller can tell before. */
  lemma WriteIsRightIff(v: View, p: Pid, n: nat, sz: nat, k: nat)
    requires Inv(v) && v.readEnd && sz < n && k == Min(v.cap - v.Available(), n - sz) && k > 0
    ensures (forall data: seq<Byte> :: |data| == n ==> WriteFrom(v, p, data, sz).0.put == v.put + data[sz..sz + k])
            <==> v.advance || (sz == 0 && |v.put| % v.cap + k <= v.cap)
  {
    SentIff(v, n, sz, k);
    forall data: seq<Byte> | |data| == n
      ensures WriteFrom(v, p, data, sz).0.put == v.put + data[sz..sz + k] <==> Sent(v, data, sz, k) == data[sz..sz + k]
    {
      WritePuts(v, p, data, sz, k);
    }
  }

  lemma WritePuts(v: View, p: Pid, data: seq<Byte>, sz: nat, k: nat)
    requires Inv(v) && v.readEnd && sz < |data| && k == Min(v.cap - v.Available(), |data| - sz) && k > 0
    ensures WriteFrom(v, p, data, sz).0.put == v.put + data[sz..sz + k] <==> Sent(v, data, sz, k) == data[sz..sz + k]
  {
    WriteSegment(v, p, data, sz);
    var sent, part := Sent(v, data, sz, k), data[sz..sz + k];
    assert (v.put + sent)[|v.put|..] == sent && (v.put + part)[|v.put|..] == part;
  }

  /** So a write that fits is right as a whole exactly when it ends before the buffer does. */
  lemma FittingWriteIsRightIff(v: View, p: Pid, n: nat)
    requires Inv(v) && v.readEnd && 0 < n <= v.cap - v.Available()
    ensures (forall data: seq<Byte> :: |data| == n ==> WriteFrom(v, p, data, 0).0.put == v.put + data)
            <==> v.advance || |v.put| % v.cap + n <= v.cap
  {
    WriteIsRightIff(v, p, n, 0, n);
    assert forall data: seq<Byte> :: |data| == n ==> data[0..n] == data;
  }

  /** And one that has blocked goes on wrong, whatever the room, unless the offset is added. */
  lemma ResumedWriteIsRightIff(v: View, p: Pid, n: nat, sz: nat)
    requires Inv(v) && v.readEnd && 0 < sz < n && v.cap - v.Available() > 0
    ensures var k := Min(v.cap - v.Available(), n - sz);
            (forall data: seq<Byte> :: |data| == n ==> WriteFrom(v, p, data, sz).0.put == v.put + data[sz..sz + k])
            <==> v.advance
  {
    WriteIsRightIff(v, p, n, sz, Min(v.cap - v.Available(), n - sz));
  }

  // Concretely: six bytes for a buffer of four, of which a reader then takes all.
  lemma ResumedWriteRepeatsBytes()
    ensures var v := View(false, 4, [], 0, true, true, [], [], []);
            var data: seq<Byte> := [1, 2, 3, 4, 5, 6];
            var blocked := WriteFrom(v, 1, data, 0);
            blocked.1 == Blocked(4)
            && var read := ReadFrom(blocked.0, 2, [0, 0, 0, 0], 0);
            read.1 == Returned(4) && read.2 == [1, 2, 3, 4]
            && WriteFrom(read.0, 1, data, 4).0.put == [1, 2, 3, 4, 1, 2]
  {
    var v := View(false, 4, [], 0, true, true, [], [], []);
    var data: seq<Byte> := [1, 2, 3, 4, 5, 6];
    WriteSegment(v, 1, data, 0);
    var blocked := WriteFrom(v, 1, data, 0).0;
    assert blocked.put == [1, 2, 3, 4];
    ReadSegment(blocked, 2, [0, 0, 0, 0], 0);
    var read := ReadFrom(blocked, 2, [0, 0, 0, 0], 0).0;
    WriteSegment(read, 1, data, 4);
  }

  // --- runs ------------------------------------------------------------------------------------

  datatype Event = Write(p: Pid, data: seq<Byte>, sz: nat) | Read(p: Pid, dest: seq<Byte>, sz: nat) | CloseRead | CloseWrite

  // Whoever calls holds the endpoint open.
  ghost predicate Enabled(v: View, e: Event) {
    match e
    case Write(_, data, sz) => v.writeEnd && sz <= |data|
    case Read(_, dest, sz) => v.readEnd && sz <= |dest|
    case CloseRead => v.readEnd
    case CloseWrite => v.writeEnd
  }

  ghost function Next(v: View, e: Event): View
    requires Inv(v)
  {
    match e
    case Write(p, data, sz) => WriteFrom(v, p, data, sz).0
    case Read(p, dest, sz) => ReadFrom(v, p, dest, sz).0
    case CloseRead => CloseReadEnd(v)
    case CloseWrite => CloseWriteEnd(v)
  }

  lemma StepKeeps(v: View, e: Event)
    requires Inv(v) && NoLostWakeUp(v) && Enabled(v, e)
    ensures Inv(Next(v, e)) && NoLostWakeUp(Next(v, e))
    ensures Next(v, e).cap == v.cap && Next(v, e).advance == v.advance
  {
    match e
    case Write(p, data, sz) => WriteSegment(v, p, data, sz);
    case Read(p, dest, sz) => ReadSegment(v, p, dest, sz);
    case _ =>
  }

  ghost predicate StepAt(vs: seq<View>, es: seq<Event>, i: nat)
    requires i < |es| && i + 1 < |vs|
  {
    Inv(vs[i]) && Enabled(vs[i], es[i]) && vs[i + 1] == Next(vs[i], es[i])
  }

  ghost predicate Run(vs: seq<View>, es: seq<Event>) {
    && |vs| == |es| + 1 && vs[0].cap > 0
    && vs[0] == View(vs[0].advance, vs[0].cap, [], 0, true, true, [], [], [])
    && forall i {:trigger StepAt(vs, es, i)} :: 0 <= i < |es| ==> StepAt(vs, es, i)
  }

  /** In every run nobody is left asleep that could go on, so a reader and a
      writer never both wait. */
  lemma {:induction false} NobodySleepsForNothing(vs: seq<View>, es: seq<Event>, n: nat)
    requires Run(vs, es) && n <= |es|
    ensures Inv(vs[n]) && NoLostWakeUp(vs[n]) && vs[n].cap == vs[0].cap && vs[n].advance == vs[0].advance
    ensures vs[n].readers == [] || vs[n].writers == []
  {
    if n > 0 {
      NobodySleepsForNothing(vs, es, n - 1);
      assert StepAt(vs, es, n - 1);
      StepKeeps(vs[n - 1], es[n - 1]);
    }
  }

  // --- who is woken --------------------------------------------------------------------------

  // The process that an event leaves blocked.
  ghost function BlockedBy(v: View, e: Event): seq<Pid>
    requires Inv(v)
  {
    match e
    case Write(p, data, sz) => if WriteFrom(v, p, data, sz).1.Blocked? then [p] else []
    case Read(p, dest, sz) => if ReadFrom(v, p, dest, sz).1.Blocked? then [p] else []
    case _ => []
  }

  // Room has been made, or will not be any more; likewise bytes.
  ghost predicate FreesWriters(v: View, t: View) {
    t.got > v.got || t.readEnd != v.readEnd
  }

  ghost predicate FreesReaders(v: View, t: View) {
    |t.put| > |v.put| || t.writeEnd != v.writeEnd
  }

  /** Whoever moves a byte, or closes an end, makes ready all that wait for it, in
      the order in which they came, and nobody else; whoever blocks comes last. */
  lemma WakesInOrder(v: View, e: Event)
    requires Inv(v) && NoLostWakeUp(v) && Enabled(v, e)
    ensures var t := Next(v, e);
            && t.readEnd == (v.readEnd && !e.CloseRead?) && t.writeEnd == (v.writeEnd && !e.CloseWrite?)
            && t.ready == v.ready + (if FreesWriters(v, t) then v.writers else []) + (if FreesReaders(v, t) then v.readers else [])
            && t.writers == (if FreesWriters(v, t) then [] else v.writers) + (if e.Write? then BlockedBy(v, e) else [])
            && t.readers == (if FreesReaders(v, t) then [] else v.readers) + (if e.Read? then BlockedBy(v, e) else [])
  {
    match e
    case Write(p, data, sz) => WriteSegment(v, p, data, sz);
    case Read(p, dest, sz) => ReadSegment(v, p, dest, sz);
    case _ =>
  }

  lemma BlockedStep(v: View, e: Event)
    requires Inv(v) && NoLostWakeUp(v) && Enabled(v, e)
    ensures var t := Next(v, e);
            v.ready + v.readers + v.writers + BlockedBy(v, e) == t.ready + t.readers + t.writers
  {
    WakesInOrder(v, e);
    StepKeeps(v, e);
  }

  // All that have blocked so far, in that order.
  ghost function AllBlocked(vs: seq<View>, es: seq<Event>, n: nat): seq<Pid>
    requires Run(vs, es) && n <= |es|
  {
    if n == 0 then []
    else
      assert StepAt(vs, es, n - 1);
      AllBlocked(vs, es, n - 1) + BlockedBy(vs[n - 1], es[n - 1])
  }

  /** Nobody is lost, and who blocked first is woken first: the processes that have
      blocked are those made ready, in that order, and then those who wait. */
  lemma {:induction false} NobodyIsLost(vs: seq<View>, es: seq<Event>, n: nat)
    requires Run(vs, es) && n <= |es|
    ensures AllBlocked(vs, es, n) == vs[n].ready + vs[n].readers + vs[n].writers
  {
    if n > 0 {
      NobodyIsLost(vs, es, n - 1);
      NobodySleepsForNothing(vs, es, n - 1);
      assert StepAt(vs, es, n - 1);
      BlockedStep(vs[n - 1], es[n - 1]);
    }
  }

  // --- which bytes come out --------------------------------------------------------------------

  // What a step takes from its writer's buffer, and leaves in its reader's.
  ghost function Input(v: View, e: Event): seq<Byte>
    requires Inv(v) && Enabled(v, e)
  {
    if e.Write? then e.data[e.sz..e.sz + WriteSize(v, e.data, e.sz)] else []
  }

  ghost function Output(v: View, e: Event): seq<Byte>
    requires Inv(v) && Enabled(v, e)
  {
    if e.Read? then
      ReadSegment(v, e.p, e.dest, e.sz);
      ReadFrom(v, e.p, e.dest, e.sz).2[e.sz..e.sz + ReadSize(v, e.dest, e.sz)]
    else []
  }

  // The step moves nothing, or the code moves it rightly (see SentIff, ReceivedIff).
  ghost predicate Straight(v: View, e: Event)
    requires Inv(v) && Enabled(v, e)
  {
    match e
    case Write(_, data, sz) =>
      var k := WriteSize(v, data, sz);
      k == 0 || v.advance || (sz == 0 && |v.put| % v.cap + k <= v.cap)
    case Read(_, dest, sz) =>
      var k := ReadSize(v, dest, sz);
      k == 0 || v.advance || (sz == 0 && v.got % v.cap + k <= v.cap)
    case _ => true
  }

  lemma StraightWrite(v: View, p: Pid, data: seq<Byte>, sz: nat)
    requires Inv(v) && sz <= |data| && v.writeEnd && Straight(v, Write(p, data, sz))
    ensures WriteFrom(v, p, data, sz).0.put == v.put + Input(v, Write(p, data, sz))
    ensures WriteFrom(v, p, data, sz).0.got == v.got
  {
    var k := WriteSize(v, data, sz);
    WriteSegment(v, p, data, sz);
    if k > 0 {
      SentIff(v, |data|, sz, k);
      assert Sent(v, data, sz, k) == data[sz..sz + k];
    }
  }

  lemma StraightRead(v: View, p: Pid, dest: seq<Byte>, sz: nat)
    requires Inv(v) && sz <= |dest| && v.readEnd && Straight(v, Read(p, dest, sz))
    ensures var k := ReadSize(v, dest, sz);
            && ReadFrom(v, p, dest, sz).0.put == v.put && ReadFrom(v, p, dest, sz).0.got == v.got + k
            && v.put[v.got..v.got + k] == Output(v, Read(p, dest, sz))
  {
    ReadMoves(v, p, dest, sz, ReadSize(v, dest, sz), ReadFrom(v, p, dest, sz));
  }

  lemma ReadMoves(v: View, p: Pid, dest: seq<Byte>, sz: nat, k: nat, r: (View, Outcome, seq<Byte>))
    requires Inv(v) && sz <= |dest| && k == ReadSize(v, dest, sz) && r == ReadFrom(v, p, dest, sz)
    requires k == 0 || v.advance || (sz == 0 && v.got % v.cap + k <= v.cap)
    ensures r.0.put == v.put && r.0.got == v.got + k && |r.2| == |dest| && r.2[sz..sz + k] == v.put[v.got..v.got + k]
  {
    ReadSegment(v, p, dest, sz);
    if k > 0 {
      ReceivedSlice(v, dest, sz, v.put[v.got..v.got + k]);
    }
  }

  lemma ReceivedSlice(v: View, dest: seq<Byte>, sz: nat, bytes: seq<Byte>)
    requires v.cap > 0 && 0 < |bytes| <= v.cap && sz + |bytes| <= |dest|
    requires v.advance || (sz == 0 && v.got % v.cap + |bytes| <= v.cap)
    ensures Received(v, dest, sz, bytes)[sz..sz + |bytes|] == bytes
  {
    ReceivedIff(v, |dest|, sz, |bytes|);
    SpliceSlice(dest, sz, bytes, sz, sz + |bytes|);
  }

  lemma StraightStep(v: View, e: Event)
    requires Inv(v) && Enabled(v, e) && Straight(v, e)
    ensures Next(v, e).put == v.put + Input(v, e)
    ensures v.got <= Next(v, e).got <= |v.put| && v.put[v.got..Next(v, e).got] == Output(v, e)
  {
    match e
    case Write(p, data, sz) => StraightWrite(v, p, data, sz);
    case Read(p, dest, sz) => StraightRead(v, p, dest, sz);
    case _ =>
  }

  ghost predicate StraightAt(vs: seq<View>, es: seq<Event>, i: nat)
    requires Run(vs, es) && i < |es|
  {
    assert StepAt(vs, es, i);
    Straight(vs[i], es[i])
  }

  ghost function Inputs(vs: seq<View>, es: seq<Event>, n: nat): seq<Byte>
    requires Run(vs, es) && n <= |es|
  {
    if n == 0 then []
    else
      assert StepAt(vs, es, n - 1);
      Inputs(vs, es, n - 1) + Input(vs[n - 1], es[n - 1])
  }

  ghost function Outputs(vs: seq<View>, es: seq<Event>, n: nat): seq<Byte>
    requires Run(vs, es) && n <= |es|
  {
    if n == 0 then []
    else
      assert StepAt(vs, es, n - 1);
      Outputs(vs, es, n - 1) + Output(vs[n - 1], es[n - 1])
  }

  /** A pipe is a queue of bytes: while all steps are straight, and so always if
      the offset is added, what the readers got is the first part of what the
      writers sent, across wraps, waiting and partial calls; the rest is in the
      buffer. */
  lemma {:induction false} PipeIsFifo(vs: seq<View>, es: seq<Event>, n: nat)
    requires Run(vs, es) && n <= |es|
    requires forall i :: 0 <= i < n ==> StraightAt(vs, es, i)
    ensures vs[n].put == Inputs(vs, es, n) && 0 <= |vs[n].put| - vs[n].got <= vs[0].cap
    ensures Outputs(vs, es, n) == Inputs(vs, es, n)[..vs[n].got]
  {
    NobodySleepsForNothing(vs, es, n);
    if n > 0 {
      PipeIsFifo(vs, es, n - 1);
      assert StepAt(vs, es, n - 1) && StraightAt(vs, es, n - 1);
      StraightStep(vs[n - 1], es[n - 1]);
      PrefixGrows(vs[n - 1].put, Input(vs[n - 1], es[n - 1]), vs[n - 1].got, vs[n].got);
    }
  }

  lemma PrefixGrows(s: seq<Byte>, t: seq<Byte>, i: nat, j: nat)
    requires i <= j <= |s|
    ensures (s + t)[..j] == s[..i] + s[i..j]
  {}

  lemma AdvancingIsStraight(vs: seq<View>, es: seq<Event>, i: nat)
    requires Run(vs, es) && i < |es| && vs[0].advance
    ensures StraightAt(vs, es, i)
  {
    NobodySleepsForNothing(vs, es, i);
    assert StepAt(vs, es, i);
  }

  /** With the offset added, every run is a queue of bytes. */
  lemma AdvancingPipeIsFifo(vs: seq<View>, es: seq<Event>, n: nat)
    requires Run(vs, es) && n <= |es| && vs[0].advance
    ensures vs[n].put == Inputs(vs, es, n) && 0 <= |vs[n].put| - vs[n].got <= vs[0].cap
    ensures Outputs(vs, es, n) == Inputs(vs, es, n)[..vs[n].got]
  {
    forall i | 0 <= i < n ensures StraightAt(vs, es, i) {
      AdvancingIsStraight(vs, es, i);
    }
    PipeIsFifo(vs, es, n);
  }
}
