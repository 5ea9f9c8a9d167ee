// tasks/memkrypt.c: three processes pass pages of a file along. A step is what a
// process does between two points where another one may be seen to have run; the
// semaphores are counters (see SignalAddsTokens) and user code is preemptible.
module Memkrypt {
  import opened Common
  import opened XorStream
  import P = Pipe
  import PS = PipeStreams

  // sem_signal of lib.c: on a pipe with room for n bytes it adds n tokens and
  // wakes all that wait.
  lemma SignalAddsTokens(v: P.View, p: nat, tokens: seq<Byte>)
    requires P.Inv(v) && v.readEnd && |tokens| <= v.cap - v.Available()
    ensures var r := P.WriteFrom(v, p, tokens, 0);
            && r.1 == P.Returned(|tokens|) && r.0.Available() == v.Available() + |tokens|
            && (tokens != [] ==> r.0.readers == [] && r.0.ready == v.ready + v.readers)
  {
    PS.WriteSegment(v, p, tokens, 0);
  }

  // sem_wait takes one token, or blocks while there is none.
  lemma WaitTakesOneToken(v: P.View, p: nat, slot: seq<Byte>)
    requires P.Inv(v) && v.writeEnd && |slot| == 1
    ensures var r := P.ReadFrom(v, p, slot, 0);
            if v.Available() > 0 then r.1 == P.Returned(1) && r.0.Available() == v.Available() - 1
            else r.1 == P.Blocked(0) && r.0 == v.(readers := v.readers + [p])
  {
    PS.ReadSegment(v, p, slot, 0);
  }

  // --- the processes --------------------------------------------------------------------

  // Where memkrypt_read is.
  datatype ReadPc = Opening | RWait | Clear | Fill | RLock | Store | RUnlock | RSignal | RDone

  // Where memkrypt_encrypt and memkrypt_write are; `Work` is the loop over the
  // page, or the write to the serial port.
  datatype Pc = Wait | Lock | Load | Unlock | Work | Signal | Done

  // The file, what stands for PAGE_SIZE and BUFFER_PAGES, and the capacity of a pipe.
  datatype Config = Config(file: seq<Byte>, pageSize: nat, n: nat, cap: nat)

  datatype State = State(
    reader: ReadPc, ri: nat, rsz: nat,
    enc: Pc, ei: nat, esz: nat, j: nat, bytes: nat,
    writer: Pc, wi: nat, wsz: nat,
    semRead: nat, semEncrypt: nat, semWrite: nat, mutex: nat,
    pages: seq<seq<Byte>>, last: seq<nat>,
    pos: nat, out: seq<Byte>,
    // what was read so far, one chunk a page, and the chunks each stage passed on
    chunks: seq<seq<Byte>>, r: nat, e: nat, w: nat)

  ghost predicate Valid(c: Config) {
    c.pageSize > 0 && 0 < c.n <= c.cap
  }

  // main, up to the forks
  ghost predicate Initial(c: Config, s: State) {
    && s.reader == Opening && s.enc == Wait && s.writer == Wait
    && s.ri == s.ei == s.wi == 0 && s.bytes == 0
    && s.semRead == s.semEncrypt == s.semWrite == 0 && s.mutex == 1
    && |s.pages| == c.n && (forall i :: 0 <= i < c.n ==> |s.pages[i]| == c.pageSize)
    && |s.last| == c.n
    && s.pos == 0 && s.out == [] && s.chunks == [] && s.r == s.e == s.w == 0
  }

  function Zeros(n: nat): seq<Byte> {
    seq(n, _ => 0)
  }

  function Overwrite(page: seq<Byte>, bytes: seq<Byte>): seq<Byte>
    requires |bytes| <= |page|
  {
    bytes + page[|bytes|..]
  }

  // memkrypt_read: `size` is what read returns, 0 only at the end of the file. A
  // signal needs room in the pipe of its semaphore (see TokensFit).
  ghost predicate ReadStep(c: Config, s: State, size: nat, t: State)
    requires c.n > 0
  {
    match s.reader
    case Opening => s.semRead + c.n <= c.cap && t == s.(reader := RWait, semRead := s.semRead + c.n)
    case RWait => s.semRead > 0 && t == s.(reader := Clear, semRead := s.semRead - 1)
    case Clear => s.ri < |s.pages| && t == s.(reader := Fill, pages := s.pages[s.ri := Zeros(c.pageSize)])
    case Fill =>
      && s.ri < |s.pages| && size <= |s.pages[s.ri]| && s.pos + size <= |c.file| && (size == 0 <==> s.pos == |c.file|)
      && var chunk := c.file[s.pos..s.pos + size];
         t == s.(reader := RLock, rsz := size, pos := s.pos + size, chunks := s.chunks + [chunk],
                 pages := s.pages[s.ri := Overwrite(s.pages[s.ri], chunk)])
    case RLock => s.mutex > 0 && t == s.(reader := Store, mutex := s.mutex - 1)
    case Store => s.ri < |s.last| && t == s.(reader := RUnlock, last := s.last[s.ri := s.rsz])
    case RUnlock => s.mutex < c.cap && t == s.(reader := RSignal, mutex := s.mutex + 1)
    case RSignal => s.semEncrypt < c.cap &&
      if s.rsz == 0 then t == s.(reader := RDone, semEncrypt := s.semEncrypt + 1, r := s.r + 1)
      else t == s.(reader := RWait, semEncrypt := s.semEncrypt + 1, r := s.r + 1, ri := (s.ri + 1) % c.n)
    case RDone => false
  }

  ghost predicate EncryptStep(c: Config, s: State, t: State)
    requires c.n > 0
  {
    match s.enc
    case Wait => s.semEncrypt > 0 && t == s.(enc := Lock, semEncrypt := s.semEncrypt - 1)
    case Lock => s.mutex > 0 && t == s.(enc := Load, mutex := s.mutex - 1)
    case Load => s.ei < |s.last| && t == s.(enc := Unlock, esz := s.last[s.ei], j := 0)
    case Unlock => s.mutex < c.cap && t == s.(enc := Work, mutex := s.mutex + 1)
    case Work =>
      if s.j < s.esz then
        && s.ei < |s.pages| && s.j < |s.pages[s.ei]|
        && var page := s.pages[s.ei];
           t == s.(pages := s.pages[s.ei := page[s.j := page[s.j] ^ KeyAt(s.bytes)]], j := s.j + 1, bytes := s.bytes + 1)
      else t == s.(enc := Signal)
    case Signal => s.semWrite < c.cap &&
      if s.esz == 0 then t == s.(enc := Done, semWrite := s.semWrite + 1, e := s.e + 1)
      else t == s.(enc := Wait, semWrite := s.semWrite + 1, e := s.e + 1, ei := (s.ei + 1) % c.n)
    case Done => false
  }

  ghost predicate WriteStep(c: Config, s: State, t: State)
    requires c.n > 0
  {
    match s.writer
    case Wait => s.semWrite > 0 && t == s.(writer := Lock, semWrite := s.semWrite - 1)
    case Lock => s.mutex > 0 && t == s.(writer := Load, mutex := s.mutex - 1)
    case Load => s.wi < |s.last| && t == s.(writer := Unlock, wsz := s.last[s.wi])
    case Unlock => s.mutex < c.cap && t == s.(writer := Work, mutex := s.mutex + 1)
    case Work =>
      && s.wi < |s.pages| && s.wsz <= |s.pages[s.wi]|
      && t == s.(writer := Signal, out := s.out + s.pages[s.wi][..s.wsz])
    case Signal => s.semRead < c.cap &&
      if s.wsz == 0 then t == s.(writer := Done, semRead := s.semRead + 1, w := s.w + 1)
      else t == s.(writer := Wait, semRead := s.semRead + 1, w := s.w + 1, wi := (s.wi + 1) % c.n)
    case Done => false
  }

  ghost predicate Step(c: Config, s: State, t: State) {
    c.n > 0 && ((exists size :: ReadStep(c, s, size, t)) || EncryptStep(c, s, t) || WriteStep(c, s, t))
  }

  // --- counters -----------------------------------------------------------------------------

  // 1 while the stage has the page that it works on.
  function RHolds(s: State): nat {
    if s.reader in {Opening, RWait, RDone} then 0 else 1
  }

  function Holds(pc: Pc): nat {
    if pc in {Wait, Done} then 0 else 1
  }

  // 1 while the stage is between sem_wait and sem_signal on the mutex.
  function Locked(s: State): nat {
    (if s.reader in {Store, RUnlock} then 1 else 0) + (if s.enc in {Load, Unlock} then 1 else 0)
    + (if s.writer in {Load, Unlock} then 1 else 0)
  }

  function Filled(s: State): nat {
    if s.reader in {RLock, Store, RUnlock, RSignal} then 1 else 0
  }

  ghost predicate Counters(c: Config, s: State) {
    && s.w + s.semWrite + Holds(s.writer) == s.e
    && s.e + s.semEncrypt + Holds(s.enc) == s.r
    && (if s.reader.Opening? then s.r == 0 && s.semRead == 0 else s.r + s.semRead + RHolds(s) == s.w + c.n)
    && s.mutex + Locked(s) == 1
    && |s.chunks| == s.r + Filled(s)
  }

  ghost predicate EndAt(s: State, k: nat) {
    k < |s.chunks| && s.chunks[k] == []
  }

  // The empty chunk is the last one; a stage is done once it passed that on.
  ghost predicate Ends(s: State) {
    && (forall k: nat {:trigger EndAt(s, k)} :: EndAt(s, k) ==> k == |s.chunks| - 1)
    && (s.reader.RDone? <==> s.r > 0 && EndAt(s, s.r - 1))
    && (s.enc.Done? <==> s.e > 0 && EndAt(s, s.e - 1))
    && (s.writer.Done? <==> s.w > 0 && EndAt(s, s.w - 1))
  }

  ghost predicate Indices(c: Config, s: State) {
    && c.n > 0
    && (!s.reader.RDone? ==> s.ri == s.r % c.n)
    && (!s.enc.Done? ==> s.ei == s.e % c.n)
    && (!s.writer.Done? ==> s.wi == s.w % c.n)
  }

  lemma IndicesKept(c: Config, s: State, t: State)
    requires Indices(c, s) && Step(c, s, t)
    ensures Indices(c, t)
  {
    ModNext(s.r, 1, c.n);
    ModNext(s.e, 1, c.n);
    ModNext(s.w, 1, c.n);
    if !EncryptStep(c, s, t) && !WriteStep(c, s, t) {
      var size :| ReadStep(c, s, size, t);
    }
  }

  // --- what is in the pages ---------------------------------------------------------------------

  function Progress(s: State): nat {
    if s.enc in {Unlock, Work, Signal} then s.j else 0
  }

  // The bytes of chunk k that are encrypted already.
  function Encrypted(s: State, k: nat): nat
    requires k < |s.chunks|
  {
    if k < s.e then |s.chunks[k]| else if k == s.e then Progress(s) else 0
  }

  function Offset(chunks: seq<seq<Byte>>, k: nat): nat
    requires k <= |chunks|
  {
    |Concat(chunks[..k])|
  }

  // From when it is filled until it is written, chunk k is in page k modulo n.
  ghost predicate ItemAt(c: Config, s: State, k: nat)
    requires c.n > 0
  {
    s.w <= k < |s.chunks| ==>
      && |s.pages| == |s.last| == c.n && |s.chunks[k]| <= |s.pages[k % c.n]|
      && s.pages[k % c.n][..|s.chunks[k]|] == Mixed(s.chunks[k], Offset(s.chunks, k), Encrypted(s, k))
      && (k < s.r || s.reader in {RUnlock, RSignal} ==> s.last[k % c.n] == |s.chunks[k]|)
  }

  ghost predicate Items(c: Config, s: State)
    requires c.n > 0
  {
    && |s.pages| == |s.last| == c.n
    && (forall i :: 0 <= i < c.n ==> |s.pages[i]| == c.pageSize)
    && (forall k: nat {:trigger ItemAt(c, s, k)} :: ItemAt(c, s, k))
  }

  // What the local variables of each stage are.
  ghost predicate ReadLocals(s: State) {
    Filled(s) == 1 ==> s.r < |s.chunks| && s.rsz == |s.chunks[s.r]|
  }

  ghost predicate EncryptLocals(s: State) {
    && (s.enc in {Unlock, Work, Signal} ==> s.e < |s.chunks| && s.esz == |s.chunks[s.e]| && s.j <= s.esz)
    && (s.enc == Unlock ==> s.j == 0) && (s.enc == Signal ==> s.j == s.esz)
    && s.e <= |s.chunks| && s.bytes == Offset(s.chunks, s.e) + Progress(s)
  }

  ghost predicate WriteLocals(s: State) {
    s.writer in {Unlock, Work, Signal} ==> s.w < |s.chunks| && s.wsz == |s.chunks[s.w]|
  }

  ghost predicate Streams(c: Config, s: State)
    requires s.w <= |s.chunks|
  {
    && s.pos <= |c.file| && Concat(s.chunks) == c.file[..s.pos]
    && (forall k: nat {:trigger EndAt(s, k)} :: EndAt(s, k) ==> s.pos == |c.file|)
    && (s.writer == Signal ==> s.w < |s.chunks|)
    && s.out == CipherEach(s.chunks[..s.w + if s.writer == Signal then 1 else 0])
  }

  ghost predicate Inv(c: Config, s: State) {
    var inv :=
      && Counters(c, s) && Ends(s) && Indices(c, s) && Items(c, s)
      && ReadLocals(s) && EncryptLocals(s) && WriteLocals(s) && Streams(c, s);
    inv
  }

  // --- every step keeps them -------------------------------------------------------------------

  lemma CountersAfterRead(c: Config, s: State, size: nat, t: State)
    requires c.n > 0 && Counters(c, s) && ReadStep(c, s, size, t)
    ensures Counters(c, t)
  {}

  lemma CountersAfterEncrypt(c: Config, s: State, t: State)
    requires c.n > 0 && Counters(c, s) && EncryptStep(c, s, t)
    ensures Counters(c, t)
  {
    if s.enc == Signal {
      assert Holds(s.enc) == 1 && Holds(t.enc) == 0;
    }
  }

  lemma CountersAfterWrite(c: Config, s: State, t: State)
    requires c.n > 0 && Counters(c, s) && WriteStep(c, s, t)
    ensures Counters(c, t)
  {
    if s.writer == Signal {
      assert Holds(s.writer) == 1 && Holds(t.writer) == 0;
    }
  }

  lemma EndsAfterRead(c: Config, s: State, size: nat, t: State)
    requires c.n > 0 && Counters(c, s) && Ends(s) && ReadLocals(s) && ReadStep(c, s, size, t)
    ensures Ends(t)
  {
    EndsGrow(c, s, size, t);
    if s.e > 0 { assert EndAt(s, s.e - 1) <==> EndAt(t, s.e - 1); }
    if s.w > 0 { assert EndAt(s, s.w - 1) <==> EndAt(t, s.w - 1); }
  }

  lemma EndsGrow(c: Config, s: State, size: nat, t: State)
    requires c.n > 0 && Counters(c, s) && Ends(s) && ReadLocals(s) && ReadStep(c, s, size, t)
    ensures forall k: nat {:trigger EndAt(t, k)} :: EndAt(t, k) ==> k == |t.chunks| - 1
    ensures t.reader.RDone? <==> t.r > 0 && EndAt(t, t.r - 1)
  {
    if s.r > 0 { assert EndAt(s, s.r - 1) <==> EndAt(t, s.r - 1); }
    forall k: nat | EndAt(t, k) ensures k == |t.chunks| - 1 {
      if k < |s.chunks| { assert EndAt(s, k); }
    }
    assert EndAt(t, s.r) <==> s.r < |t.chunks| && t.chunks[s.r] == [];
  }

  // Only the reader adds chunks.
  lemma SameEnds(s: State, t: State)
    requires Ends(s) && t.chunks == s.chunks && t.r == s.r && (t.reader.RDone? <==> s.reader.RDone?)
    requires (t.enc.Done? <==> t.e > 0 && EndAt(s, t.e - 1)) && (t.writer.Done? <==> t.w > 0 && EndAt(s, t.w - 1))
    ensures Ends(t)
  {
    assert forall k: nat :: EndAt(s, k) <==> EndAt(t, k);
  }

  lemma EndsAfterEncrypt(c: Config, s: State, t: State)
    requires c.n > 0 && Counters(c, s) && Ends(s) && EncryptLocals(s) && EncryptStep(c, s, t)
    ensures Ends(t)
  {
    SameEnds(s, t);
  }

  lemma EndsAfterWrite(c: Config, s: State, t: State)
    requires c.n > 0 && Counters(c, s) && Ends(s) && WriteLocals(s) && WriteStep(c, s, t)
    ensures Ends(t)
  {
    SameEnds(s, t);
  }

  lemma LocalsAfterRead(c: Config, s: State, size: nat, t: State)
    requires c.n > 0 && Counters(c, s) && ReadLocals(s) && EncryptLocals(s) && WriteLocals(s) && ReadStep(c, s, size, t)
    ensures ReadLocals(t) && EncryptLocals(t) && WriteLocals(t)
  {
    OnlyMoreChunks(c, s, size, t);
  }

  // To the other stages, all that memkrypt_read does is add chunks.
  lemma OnlyMoreChunks(c: Config, s: State, size: nat, t: State)
    requires c.n > 0 && Counters(c, s) && ReadStep(c, s, size, t)
    ensures s.e <= |s.chunks| <= |t.chunks| && t.chunks[..|s.chunks|] == s.chunks && t.chunks[..s.e] == s.chunks[..s.e]
    ensures (t.enc, t.e, t.esz, t.j, t.bytes) == (s.enc, s.e, s.esz, s.j, s.bytes)
    ensures (t.writer, t.w, t.wsz) == (s.writer, s.w, s.wsz)
    ensures forall k :: 0 <= k < |s.chunks| ==> t.chunks[k] == s.chunks[k]
  {}

  lemma LocalsAfterEncrypt(c: Config, s: State, t: State)
    requires Counters(c, s) && Indices(c, s) && ItemAt(c, s, s.e) && EncryptLocals(s) && EncryptStep(c, s, t)
    ensures EncryptLocals(t)
  {
    if s.enc == Signal {
      assert s.chunks[..s.e + 1][..s.e] == s.chunks[..s.e];
    }
  }

  lemma LocalsAfterWrite(c: Config, s: State, t: State)
    requires Counters(c, s) && Indices(c, s) && ItemAt(c, s, s.w) && WriteLocals(s) && WriteStep(c, s, t)
    ensures WriteLocals(t)
  {}

  lemma OthersAfterEncrypt(c: Config, s: State, t: State)
    requires c.n > 0 && ReadLocals(s) && WriteLocals(s) && EncryptStep(c, s, t)
    ensures ReadLocals(t) && WriteLocals(t)
  {}

  lemma OthersAfterWrite(c: Config, s: State, t: State)
    requires c.n > 0 && ReadLocals(s) && EncryptLocals(s) && WriteStep(c, s, t)
    ensures ReadLocals(t) && EncryptLocals(t)
  {}

  lemma StreamsAfterRead(c: Config, s: State, size: nat, t: State)
    requires c.n > 0 && Counters(c, s) && Ends(s) && Streams(c, s) && ReadStep(c, s, size, t)
    ensures t.w <= |t.chunks| && Streams(c, t)
  {
    if s.reader == Fill {
      StreamsAfterFill(c, s, size, t);
    } else {
      assert forall k: nat :: EndAt(s, k) <==> EndAt(t, k);
    }
  }

  lemma StreamsAfterFill(c: Config, s: State, size: nat, t: State)
    requires c.n > 0 && Counters(c, s) && Ends(s) && Streams(c, s) && s.reader == Fill && ReadStep(c, s, size, t)
    ensures t.w <= |t.chunks| && Streams(c, t)
  {
    var x := s.w + if s.writer == Signal then 1 else 0;
    assert t.chunks[..x] == s.chunks[..x];
    ChunksAreFile(c, s, size, t);
    EndIsEndOfFile(c, s, size, t);
  }

  lemma ChunksAreFile(c: Config, s: State, size: nat, t: State)
    requires c.n > 0 && s.w <= |s.chunks| && Streams(c, s) && s.reader == Fill && ReadStep(c, s, size, t)
    ensures t.pos <= |c.file| && Concat(t.chunks) == c.file[..t.pos]
  {
    assert t.chunks[..|t.chunks| - 1] == s.chunks;
    assert c.file[..t.pos] == c.file[..s.pos] + c.file[s.pos..t.pos];
  }

  // The chunk that is filled is empty at the end of the file only.
  lemma EndIsEndOfFile(c: Config, s: State, size: nat, t: State)
    requires c.n > 0 && Counters(c, s) && s.w <= |s.chunks| && Streams(c, s) && s.reader == Fill && ReadStep(c, s, size, t)
    ensures forall k: nat {:trigger EndAt(t, k)} :: EndAt(t, k) ==> t.pos == |c.file|
  {
    forall k: nat | EndAt(t, k) ensures t.pos == |c.file| {
      if k < |s.chunks| { assert EndAt(s, k); }
    }
  }

  lemma StreamsAfterEncrypt(c: Config, s: State, t: State)
    requires c.n > 0 && Counters(c, s) && Streams(c, s) && EncryptStep(c, s, t)
    ensures t.w <= |t.chunks| && Streams(c, t)
  {
    assert forall k: nat :: EndAt(s, k) <==> EndAt(t, k);
  }

  lemma StreamsAfterWrite(c: Config, s: State, t: State)
    requires c.n > 0 && Counters(c, s) && Indices(c, s) && ItemAt(c, s, s.w) && WriteLocals(s) && Streams(c, s)
    requires WriteStep(c, s, t)
    ensures t.w <= |t.chunks| && Streams(c, t)
  {
    assert forall k: nat :: EndAt(s, k) <==> EndAt(t, k);
    if s.writer == Work {
      WrittenPage(c, s);
    }
  }

  // The page of the writer holds its chunk, encrypted.
  lemma WrittenPage(c: Config, s: State)
    requires c.n > 0 && Counters(c, s) && Indices(c, s) && ItemAt(c, s, s.w) && WriteLocals(s) && s.writer == Work
    ensures s.w < |s.chunks| && s.wi < |s.pages| && s.wsz <= |s.pages[s.wi]|
    ensures CipherEach(s.chunks[..s.w + 1]) == CipherEach(s.chunks[..s.w]) + s.pages[s.wi][..s.wsz]
  {
    assert s.chunks[..s.w + 1][..s.w] == s.chunks[..s.w];
  }

  // Items in the pages at the same time are in different pages.
  lemma PagesDiffer(c: Config, s: State, k: nat, m: nat)
    requires Inv(c, s) && s.w <= k < s.w + c.n && s.w <= m < s.w + c.n && k != m
    ensures k % c.n != m % c.n
  {
    if k % c.n == m % c.n {
      SamePlace(if k < m then k else m, if k < m then m else k, c.n);
    }
  }

  lemma ItemsAfterClear(c: Config, s: State, size: nat, t: State)
    requires Inv(c, s) && s.reader == Clear && ReadStep(c, s, size, t)
    ensures Items(c, t)
  {
    forall k: nat ensures ItemAt(c, t, k) {
      assert ItemAt(c, s, k);
      if s.w <= k < s.r { PagesDiffer(c, s, k, s.r); }
    }
  }

  lemma ItemsAfterFill(c: Config, s: State, size: nat, t: State)
    requires Inv(c, s) && s.reader == Fill && ReadStep(c, s, size, t)
    ensures Items(c, t)
  {
    forall k: nat ensures ItemAt(c, t, k) {
      assert ItemAt(c, s, k);
      if s.w <= k < s.r {
        PagesDiffer(c, s, k, s.r);
        assert t.chunks[..k] == s.chunks[..k];
      }
    }
  }

  lemma ItemsAfterStore(c: Config, s: State, size: nat, t: State)
    requires Inv(c, s) && s.reader == Store && ReadStep(c, s, size, t)
    ensures Items(c, t)
  {
    forall k: nat ensures ItemAt(c, t, k) {
      assert ItemAt(c, s, k);
      if s.w <= k < s.r { PagesDiffer(c, s, k, s.r); }
    }
  }

  lemma ItemsAfterRead(c: Config, s: State, size: nat, t: State)
    requires Inv(c, s) && ReadStep(c, s, size, t)
    ensures Items(c, t)
  {
    if s.reader == Clear {
      ItemsAfterClear(c, s, size, t);
    } else if s.reader == Fill {
      ItemsAfterFill(c, s, size, t);
    } else if s.reader == Store {
      ItemsAfterStore(c, s, size, t);
    } else {
      forall k: nat ensures ItemAt(c, t, k) {
        assert ItemAt(c, s, k);
      }
    }
  }

  // One more byte of chunk e is combined with the key.
  lemma ItemsAfterXor(c: Config, s: State, t: State)
    requires Inv(c, s) && s.enc == Work && s.j < s.esz && EncryptStep(c, s, t)
    ensures Items(c, t)
  {
    forall k: nat ensures ItemAt(c, t, k) {
      assert ItemAt(c, s, k);
      if k == s.e {
        OneMoreByte(c, s, t);
      } else if s.w <= k < |s.chunks| {
        PagesDiffer(c, s, k, s.e);
        assert t.pages[k % c.n] == s.pages[k % c.n];
      }
    }
  }

  lemma OneMoreByte(c: Config, s: State, t: State)
    requires c.n > 0 && Counters(c, s) && Indices(c, s) && EncryptLocals(s) && ItemAt(c, s, s.e)
    requires s.enc == Work && s.j < s.esz && EncryptStep(c, s, t)
    ensures ItemAt(c, t, s.e)
  {
    var chunk, offset, page := s.chunks[s.e], Offset(s.chunks, s.e), s.pages[s.ei];
    MixedStep(page, chunk, offset, s.j);
    assert s.bytes == offset + s.j;
  }

  lemma MixedStep(page: seq<Byte>, chunk: seq<Byte>, offset: nat, j: nat)
    requires j < |chunk| <= |page| && page[..|chunk|] == Mixed(chunk, offset, j)
    ensures page[j := page[j] ^ KeyAt(offset + j)][..|chunk|] == Mixed(chunk, offset, j + 1)
  {
    var next := page[j := page[j] ^ KeyAt(offset + j)][..|chunk|];
    forall x: nat {:trigger next[x]} | x < |chunk| ensures next[x] == Mixed(chunk, offset, j + 1)[x] {
      assert page[x] == page[..|chunk|][x] == Mixed(chunk, offset, j)[x];
    }
  }

  lemma ItemsAfterEncrypt(c: Config, s: State, t: State)
    requires Inv(c, s) && EncryptStep(c, s, t)
    ensures Items(c, t)
  {
    if s.enc == Work && s.j < s.esz {
      ItemsAfterXor(c, s, t);
    } else {
      forall k: nat ensures ItemAt(c, t, k) { assert ItemAt(c, s, k); }
    }
  }

  lemma ItemsAfterWrite(c: Config, s: State, t: State)
    requires Inv(c, s) && WriteStep(c, s, t)
    ensures Items(c, t)
  {
    forall k: nat ensures ItemAt(c, t, k) {
      assert ItemAt(c, s, k);
    }
  }

  lemma InvAfterRead(c: Config, s: State, size: nat, t: State)
    requires Inv(c, s) && ReadStep(c, s, size, t)
    ensures Inv(c, t)
  {
    IndicesKept(c, s, t);
    CountersAfterRead(c, s, size, t);
    EndsAfterRead(c, s, size, t);
    LocalsAfterRead(c, s, size, t);
    StreamsAfterRead(c, s, size, t);
    ItemsAfterRead(c, s, size, t);
  }

  lemma InvAfterEncrypt(c: Config, s: State, t: State)
    requires Inv(c, s) && EncryptStep(c, s, t)
    ensures Inv(c, t)
  {
    IndicesKept(c, s, t);
    CountersAfterEncrypt(c, s, t);
    EndsAfterEncrypt(c, s, t);
    assert ItemAt(c, s, s.e);
    LocalsAfterEncrypt(c, s, t);
    OthersAfterEncrypt(c, s, t);
    StreamsAfterEncrypt(c, s, t);
    ItemsAfterEncrypt(c, s, t);
  }

  lemma InvAfterWrite(c: Config, s: State, t: State)
    requires Inv(c, s) && WriteStep(c, s, t)
    ensures Inv(c, t)
  {
    IndicesKept(c, s, t);
    CountersAfterWrite(c, s, t);
    EndsAfterWrite(c, s, t);
    assert ItemAt(c, s, s.w);
    LocalsAfterWrite(c, s, t);
    OthersAfterWrite(c, s, t);
    StreamsAfterWrite(c, s, t);
    ItemsAfterWrite(c, s, t);
  }

  lemma StepKeepsInv(c: Config, s: State, t: State)
    requires Inv(c, s) && Step(c, s, t)
    ensures Inv(c, t)
  {
    if EncryptStep(c, s, t) {
      InvAfterEncrypt(c, s, t);
    } else if WriteStep(c, s, t) {
      InvAfterWrite(c, s, t);
    } else {
      var size :| ReadStep(c, s, size, t);
      InvAfterRead(c, s, size, t);
    }
  }

  // --- every run ---------------------------------------------------------------------------------

  ghost predicate StepAt(c: Config, ss: seq<State>, i: nat)
    requires i + 1 < |ss|
  {
    Step(c, ss[i], ss[i + 1])
  }

  ghost predicate Run(c: Config, ss: seq<State>) {
    && Valid(c) && ss != [] && Initial(c, ss[0])
    && forall i {:trigger StepAt(c, ss, i)} :: 0 <= i < |ss| - 1 ==> StepAt(c, ss, i)
  }

  lemma InitialInv(c: Config, s: State)
    requires Valid(c) && Initial(c, s)
    ensures Inv(c, s)
  {}

  lemma {:induction false} RunKeepsInv(c: Config, ss: seq<State>, i: nat)
    requires Run(c, ss) && i < |ss|
    ensures Inv(c, ss[i])
  {
    if i == 0 {
      InitialInv(c, ss[0]);
    } else {
      RunKeepsInv(c, ss, i - 1);
      assert StepAt(c, ss, i - 1);
      StepKeepsInv(c, ss[i - 1], ss[i]);
    }
  }

  /** Two stages never work on the same page, and never both hold the mutex. */
  lemma StagesAreApart(c: Config, ss: seq<State>, i: nat)
    requires Run(c, ss) && i < |ss|
    ensures var s := ss[i];
            && (RHolds(s) == 1 && Holds(s.enc) == 1 ==> s.ri != s.ei)
            && (RHolds(s) == 1 && Holds(s.writer) == 1 ==> s.ri != s.wi)
            && (Holds(s.enc) == 1 && Holds(s.writer) == 1 ==> s.ei != s.wi)
            && Locked(s) <= 1
  {
    var s := ss[i];
    RunKeepsInv(c, ss, i);
    if RHolds(s) == 1 && Holds(s.enc) == 1 { PagesDiffer(c, s, s.r, s.e); }
    if RHolds(s) == 1 && Holds(s.writer) == 1 { PagesDiffer(c, s, s.r, s.w); }
    if Holds(s.enc) == 1 && Holds(s.writer) == 1 { PagesDiffer(c, s, s.e, s.w); }
  }

  /** Once the reader has started, each page is a token in one of the semaphores
      or is held by one stage; the stages pass the chunks on in order. */
  lemma TokensAreConserved(c: Config, ss: seq<State>, i: nat)
    requires Run(c, ss) && i < |ss|
    ensures var s := ss[i];
            && (!s.reader.Opening? ==>
                  s.semRead + s.semEncrypt + s.semWrite + RHolds(s) + Holds(s.enc) + Holds(s.writer) == c.n)
            && s.w <= s.e <= s.r <= s.w + c.n
  {
    RunKeepsInv(c, ss, i);
  }

  /** What was written is the encryption of the first part of the file, and of
      all of it when the writer is done. */
  lemma OutputIsEncryptedFile(c: Config, ss: seq<State>, i: nat)
    requires Run(c, ss) && i < |ss|
    ensures var s := ss[i];
            && |s.out| <= |c.file| && s.out == Cipher(c.file[..|s.out|], 0)
            && (s.writer.Done? ==> s.out == Cipher(c.file, 0))
  {
    RunKeepsInv(c, ss, i);
    var s := ss[i];
    var x := s.w + if s.writer == Signal then 1 else 0;
    ChunksDoNotMatter(s.chunks[..x]);
    ConcatPrefix(s.chunks, x);
    assert c.file[..s.pos][..|s.out|] == c.file[..|s.out|];
    if s.writer.Done? {
      assert EndAt(s, s.w - 1) && s.w == |s.chunks|;
      assert s.chunks[..x] == s.chunks && c.file[..s.pos] == c.file;
    }
  }

  /** Byte for byte: the output is the file combined with "SpuriOS", and what is
      combined with a byte depends on nothing but its place. */
  lemma OutputIsNameXored(c: Config, ss: seq<State>, i: nat)
    requires Run(c, ss) && i < |ss|
    ensures |ss[i].out| <= |c.file|
    ensures forall x :: 0 <= x < |ss[i].out| ==> ss[i].out[x] == c.file[x] ^ [0x53, 0x70, 0x75, 0x72, 0x69, 0x4F, 0x53][x % 7]
  {
    OutputIsEncryptedFile(c, ss, i);
    AllNameXored(c.file[..|ss[i].out|]);
  }

  lemma SamePlaceSamePad(c: Config, ss: seq<State>, i: nat, x: nat, y: nat)
    requires Run(c, ss) && i < |ss| && x < |ss[i].out| && y < |ss[i].out| && x % 7 == y % 7
    ensures |ss[i].out| <= |c.file|
    ensures ss[i].out[x] ^ c.file[x] == ss[i].out[y] ^ c.file[y]
  {
    OutputIsEncryptedFile(c, ss, i);
    var file := c.file[..|ss[i].out|];
    SamePad(file, file, x, y);
  }

  // A file of seven zeros comes out as the name.
  lemma ZerosComeOutAsName(c: Config, ss: seq<State>, i: nat)
    requires Run(c, ss) && i < |ss| && ss[i].writer.Done?
    requires |c.file| == 7 && forall x :: 0 <= x < 7 ==> c.file[x] == 0
    ensures ss[i].out == [0x53, 0x70, 0x75, 0x72, 0x69, 0x4F, 0x53]
  {
    OutputIsEncryptedFile(c, ss, i);
    ZerosShowTheName(c.file);
  }

  lemma {:induction false} ConcatPrefix(chunks: seq<seq<Byte>>, x: nat)
    requires x <= |chunks|
    ensures |Concat(chunks[..x])| <= |Concat(chunks)|
    ensures Concat(chunks)[..|Concat(chunks[..x])|] == Concat(chunks[..x])
  {
    if x == |chunks| {
      assert chunks[..x] == chunks;
    } else {
      ConcatPrefix(chunks[..|chunks| - 1], x);
      assert chunks[..|chunks| - 1][..x] == chunks[..x];
    }
  }

  // --- progress ------------------------------------------------------------------------------------

  ghost predicate AllDone(s: State) {
    s.reader.RDone? && s.enc.Done? && s.writer.Done?
  }

  ghost predicate CanStep(c: Config, s: State) {
    exists t :: Step(c, s, t)
  }

  // The tokens fit in the pipes, and a signal always has room.
  ghost predicate Fits(c: Config, s: State) {
    && s.semRead <= c.n && s.semEncrypt <= c.n && s.semWrite <= c.n && s.mutex <= 1
    && (s.reader.Opening? ==> s.semRead + c.n <= c.cap)
    && (s.reader.RSignal? ==> s.semEncrypt < c.cap) && (s.enc.Signal? ==> s.semWrite < c.cap)
    && (s.writer.Signal? ==> s.semRead < c.cap)
    && (s.reader.RUnlock? || s.enc.Unlock? || s.writer.Unlock? ==> s.mutex < c.cap)
  }

  lemma CountersFit(c: Config, s: State)
    requires Counters(c, s) && Valid(c)
    ensures Fits(c, s)
  {}

  /** No semaphore ever holds more tokens than there are pages, which a pipe can
      take: no sem_signal blocks. */
  lemma TokensFit(c: Config, ss: seq<State>, i: nat)
    requires Run(c, ss) && i < |ss|
    ensures Fits(c, ss[i])
  {
    RunKeepsInv(c, ss, i);
    CountersFit(c, ss[i]);
  }

  // Only a wait can hold a stage up.
  lemma ReaderSteps(c: Config, s: State)
    requires Inv(c, s) && Valid(c) && !s.reader.RDone?
    requires (s.reader.RWait? ==> s.semRead > 0) && (s.reader.RLock? ==> s.mutex > 0)
    ensures CanStep(c, s)
  {
    CountersFit(c, s);
    var t, size := s, 0;
    match s.reader {
      case Opening => t := s.(reader := RWait, semRead := s.semRead + c.n);
      case RWait => t := s.(reader := Clear, semRead := s.semRead - 1);
      case Clear => t := s.(reader := Fill, pages := s.pages[s.ri := Zeros(c.pageSize)]);
      case Fill =>
        size := if s.pos == |c.file| then 0 else 1;
        var chunk := c.file[s.pos..s.pos + size];
        t := s.(reader := RLock, rsz := size, pos := s.pos + size, chunks := s.chunks + [chunk],
                pages := s.pages[s.ri := Overwrite(s.pages[s.ri], chunk)]);
      case RLock => t := s.(reader := Store, mutex := s.mutex - 1);
      case Store => t := s.(reader := RUnlock, last := s.last[s.ri := s.rsz]);
      case RUnlock => t := s.(reader := RSignal, mutex := s.mutex + 1);
      case RSignal =>
        if s.rsz == 0 { t := s.(reader := RDone, semEncrypt := s.semEncrypt + 1, r := s.r + 1); }
        else { t := s.(reader := RWait, semEncrypt := s.semEncrypt + 1, r := s.r + 1, ri := (s.ri + 1) % c.n); }
    }
    assert ReadStep(c, s, size, t);
    assert Step(c, s, t);
  }

  lemma EncrypterSteps(c: Config, s: State)
    requires Inv(c, s) && Valid(c) && !s.enc.Done?
    requires (s.enc.Wait? ==> s.semEncrypt > 0) && (s.enc.Lock? ==> s.mutex > 0)
    ensures CanStep(c, s)
  {
    CountersFit(c, s);
    var t := s;
    assert ItemAt(c, s, s.e);
    match s.enc {
      case Wait => t := s.(enc := Lock, semEncrypt := s.semEncrypt - 1);
      case Lock => t := s.(enc := Load, mutex := s.mutex - 1);
      case Load => t := s.(enc := Unlock, esz := s.last[s.ei], j := 0);
      case Unlock => t := s.(enc := Work, mutex := s.mutex + 1);
      case Work =>
        if s.j < s.esz {
          var page := s.pages[s.ei];
          t := s.(pages := s.pages[s.ei := page[s.j := page[s.j] ^ KeyAt(s.bytes)]], j := s.j + 1, bytes := s.bytes + 1);
        } else {
          t := s.(enc := Signal);
        }
      case Signal =>
        if s.esz == 0 { t := s.(enc := Done, semWrite := s.semWrite + 1, e := s.e + 1); }
        else { t := s.(enc := Wait, semWrite := s.semWrite + 1, e := s.e + 1, ei := (s.ei + 1) % c.n); }
    }
    assert EncryptStep(c, s, t);
    assert Step(c, s, t);
  }

  lemma WriterSteps(c: Config, s: State)
    requires Inv(c, s) && Valid(c) && !s.writer.Done?
    requires (s.writer.Wait? ==> s.semWrite > 0) && (s.writer.Lock? ==> s.mutex > 0)
    ensures CanStep(c, s)
  {
    CountersFit(c, s);
    var t := s;
    assert ItemAt(c, s, s.w);
    match s.writer {
      case Wait => t := s.(writer := Lock, semWrite := s.semWrite - 1);
      case Lock => t := s.(writer := Load, mutex := s.mutex - 1);
      case Load => t := s.(writer := Unlock, wsz := s.last[s.wi]);
      case Unlock => t := s.(writer := Work, mutex := s.mutex + 1);
      case Work => t := s.(writer := Signal, out := s.out + s.pages[s.wi][..s.wsz]);
      case Signal =>
        if s.wsz == 0 { t := s.(writer := Done, semRead := s.semRead + 1, w := s.w + 1); }
        else { t := s.(writer := Wait, semRead := s.semRead + 1, w := s.w + 1, wi := (s.wi + 1) % c.n); }
    }
    assert WriteStep(c, s, t);
    assert Step(c, s, t);
  }

  /** Until all three are done, one of them can go on: there is no deadlock. */
  lemma SomeStageSteps(c: Config, s: State)
    requires Inv(c, s) && Valid(c) && !AllDone(s)
    ensures CanStep(c, s)
  {
    if !s.reader.RDone? && (s.reader.RWait? ==> s.semRead > 0) && (s.reader.RLock? ==> s.mutex > 0) {
      ReaderSteps(c, s);
    } else if !s.enc.Done? && (s.enc.Wait? ==> s.semEncrypt > 0) && (s.enc.Lock? ==> s.mutex > 0) {
      EncrypterSteps(c, s);
    } else if !s.writer.Done? && (s.writer.Wait? ==> s.semWrite > 0) && (s.writer.Lock? ==> s.mutex > 0) {
      WriterSteps(c, s);
    } else {
      NobodyStuck(s, c);
    }
  }

  // If all stages that are left wait for a semaphore, the counters do not add up.
  lemma NobodyStuck(s: State, c: Config)
    requires Counters(c, s) && Ends(s) && c.n > 0
    requires s.reader.RDone? || (s.reader.RWait? && s.semRead == 0) || (s.reader.RLock? && s.mutex == 0)
    requires s.enc.Done? || (s.enc.Wait? && s.semEncrypt == 0) || (s.enc.Lock? && s.mutex == 0)
    requires s.writer.Done? || (s.writer.Wait? && s.semWrite == 0) || (s.writer.Lock? && s.mutex == 0)
    ensures AllDone(s)
  {
    assert s.mutex == 1;
    if s.enc.Done? { assert EndAt(s, s.e - 1); }
    if s.writer.Done? { assert EndAt(s, s.w - 1); }
    if s.reader.RDone? { assert EndAt(s, s.r - 1); }
  }

  // --- termination -----------------------------------------------------------------------------------

  function ReadRank(s: State): nat {
    match s.reader
    case Opening => 9 case RWait => 8 case Clear => 7 case Fill => 6
    case RLock => 4 case Store => 3 case RUnlock => 2 case RSignal => 1 case RDone => 0
  }

  function Rank(pc: Pc): nat {
    match pc
    case Wait => 5 case Lock => 4 case Load => 3 case Unlock => 2 case Work => 1 case Signal => 0 case Done => 0
  }

  // The most chunks that are still to be read: one for each byte left and the empty one.
  ghost function ToRead(c: Config, s: State): int {
    if s.chunks != [] && EndAt(s, |s.chunks| - 1) then 0 else |c.file| - s.pos + 1
  }

  // What is left to do, at most.
  ghost function Left(c: Config, s: State): int {
    8 * (ToRead(c, s) - if s.reader in {Opening, RWait, Clear, Fill} then 1 else 0) + ReadRank(s)
    + 6 * (|s.chunks| + ToRead(c, s) - s.e) + Rank(s.enc) + |c.file| - s.bytes
    + 6 * (|s.chunks| + ToRead(c, s) - s.w) + Rank(s.writer)
  }

  lemma FillLowersLeft(c: Config, s: State, size: nat, t: State)
    requires Counters(c, s) && Ends(s) && Streams(c, s) && c.n > 0 && s.reader == Fill && ReadStep(c, s, size, t)
    ensures Left(c, t) < Left(c, s)
  {
    assert s.chunks != [] ==> !EndAt(s, |s.chunks| - 1);
    assert size > 0 ==> !EndAt(t, |t.chunks| - 1);
    assert size == 0 ==> EndAt(t, |t.chunks| - 1);
  }

  lemma SignalLowersLeft(c: Config, s: State, size: nat, t: State)
    requires Counters(c, s) && ReadLocals(s) && c.n > 0 && s.reader == RSignal && ReadStep(c, s, size, t)
    ensures Left(c, t) < Left(c, s)
  {
    assert EndAt(s, s.r) <==> s.rsz == 0;
    assert EndAt(t, s.r) <==> EndAt(s, s.r);
  }

  lemma ReadLowersLeft(c: Config, s: State, size: nat, t: State)
    requires Counters(c, s) && Ends(s) && ReadLocals(s) && Streams(c, s) && c.n > 0 && ReadStep(c, s, size, t)
    ensures Left(c, t) < Left(c, s)
  {
    if s.reader == Fill {
      FillLowersLeft(c, s, size, t);
    } else if s.reader == RSignal {
      SignalLowersLeft(c, s, size, t);
    } else {
      assert t.chunks == s.chunks && ToRead(c, t) == ToRead(c, s);
    }
  }

  lemma EncryptLowersLeft(c: Config, s: State, t: State)
    requires Counters(c, s) && EncryptLocals(s) && c.n > 0 && EncryptStep(c, s, t)
    ensures Left(c, t) < Left(c, s)
  {
    assert t.chunks == s.chunks && t.reader == s.reader && ToRead(c, t) == ToRead(c, s);
  }

  lemma WriteLowersLeft(c: Config, s: State, t: State)
    requires Counters(c, s) && c.n > 0 && WriteStep(c, s, t)
    ensures Left(c, t) < Left(c, s)
  {
    assert t.chunks == s.chunks && t.reader == s.reader && ToRead(c, t) == ToRead(c, s);
  }

  lemma BytesBounded(c: Config, s: State)
    requires Counters(c, s) && EncryptLocals(s) && Streams(c, s)
    ensures s.bytes <= |c.file|
  {
    if s.enc in {Unlock, Work, Signal} {
      ConcatPrefix(s.chunks, s.e + 1);
      assert s.chunks[..s.e + 1][..s.e] == s.chunks[..s.e];
    } else {
      ConcatPrefix(s.chunks, s.e);
    }
  }

  lemma LeftIsNatural(c: Config, s: State)
    requires Counters(c, s) && Ends(s) && EncryptLocals(s) && Streams(c, s)
    ensures Left(c, s) >= 0
  {
    BytesBounded(c, s);
    if s.reader in {Opening, RWait, Clear, Fill} && s.r > 0 {
      assert !EndAt(s, s.r - 1);
    }
  }

  /** Whatever the scheduler does, the program ends: a run has at most so many
      steps. */
  lemma {:induction false} RunsEnd(c: Config, ss: seq<State>, i: nat)
    requires Run(c, ss) && i < |ss|
    ensures i <= Left(c, ss[0]) - Left(c, ss[i])
    ensures i <= 21 * |c.file| + 31
  {
    if i > 0 {
      RunsEnd(c, ss, i - 1);
      EachStepCounts(c, ss, i - 1);
    }
    RunKeepsInv(c, ss, i);
    LeftIsNatural(c, ss[i]);
    StartLeft(c, ss[0]);
  }

  lemma EachStepCounts(c: Config, ss: seq<State>, i: nat)
    requires Run(c, ss) && i + 1 < |ss|
    ensures Left(c, ss[i + 1]) < Left(c, ss[i])
  {
    RunKeepsInv(c, ss, i);
    assert StepAt(c, ss, i);
    StepLowersLeft(c, ss[i], ss[i + 1]);
  }

  lemma StartLeft(c: Config, s: State)
    requires Valid(c) && Initial(c, s)
    ensures Left(c, s) == 21 * |c.file| + 31
  {}

  /** A run that cannot go on has written the whole file, encrypted. */
  lemma FinishedRunsWroteTheFile(c: Config, ss: seq<State>)
    requires Run(c, ss)
    ensures CanStep(c, ss[|ss| - 1]) || (AllDone(ss[|ss| - 1]) && ss[|ss| - 1].out == Cipher(c.file, 0))
    ensures var out := ss[|ss| - 1].out;
            CanStep(c, ss[|ss| - 1]) || (|out| == |c.file|
              && forall x :: 0 <= x < |out| ==> out[x] == c.file[x] ^ [0x53, 0x70, 0x75, 0x72, 0x69, 0x4F, 0x53][x % 7])
  {
    var n := |ss| - 1;
    RunKeepsInv(c, ss, n);
    if AllDone(ss[n]) {
      OutputIsEncryptedFile(c, ss, n);
      AllNameXored(c.file);
    } else {
      SomeStageSteps(c, ss[n]);
    }
  }

  lemma StepLowersLeft(c: Config, s: State, t: State)
    requires Inv(c, s) && Step(c, s, t)
    ensures Left(c, t) < Left(c, s)
  {
    if EncryptStep(c, s, t) {
      EncryptLowersLeft(c, s, t);
    } else if WriteStep(c, s, t) {
      WriteLowersLeft(c, s, t);
    } else {
      var size :| ReadStep(c, s, size, t);
      ReadLowersLeft(c, s, size, t);
    }
  }
}
