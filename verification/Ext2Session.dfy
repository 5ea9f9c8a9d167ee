// A file of kernel/ext2.c from its opening on: reads and seeks in any order.
module Ext2Session {
  import opened Common
  import opened Memory
  import opened Ext2Blocks
  import opened Ext2File

  datatype Op = ReadOp(size: nat) | SeekOp(position: nat)

  // How many bytes a read of `size` gets.
  function Got(c: Cursor, size: nat, fileSize: nat): nat {
    if c.pos + size <= fileSize then size else if c.pos <= fileSize then fileSize - c.pos else 0
  }

  function After(c: Cursor, op: Op, fileSize: nat): Cursor {
    match op
    case ReadOp(size) => AfterRead(c, size, Got(c, size, fileSize))
    case SeekOp(position) => if position > fileSize then c else AfterSeek(c, position)
  }

  /** What the code serves: a size whose sum with the position is of 32 bits, and
      no load of a page past the block list. */
  ghost predicate Served(c: Cursor, op: Op, disk: seq<Byte>, inode: Inode)
    requires Listed(disk, inode)
  {
    match op
    case ReadOp(size) => c.pos + size < WRAP
    case SeekOp(position) =>
      position <= inode.size && (position / PAGE != c.pos / PAGE || c.chunk.None?) ==> Loadable(disk, inode, position)
  }

  // A seek that the code refuses, or bytes.
  datatype Answer = Bytes(bytes: seq<Byte>) | At(position: nat) | Refused

  function Answered(content: seq<Byte>, c: Cursor, op: Op): Answer
    requires Behind(c) && c.pos <= |content|
  {
    match op
    case ReadOp(size) => Bytes(ReadBytes(content, c, Got(c, size, |content|)))
    case SeekOp(position) => if position > |content| then Refused else At(position)
  }

  predicate Inside(c: Cursor, fileSize: nat) {
    Behind(c) && c.pos <= fileSize
  }

  lemma OpStaysInside(c: Cursor, op: Op, fileSize: nat)
    requires Inside(c, fileSize)
    ensures Inside(After(c, op, fileSize), fileSize)
  {
    match op
    case ReadOp(size) => ReadSyncs(c, size, Got(c, size, fileSize));
    case SeekOp(position) => SeekStaysBehind(c, position);
  }

  // The operation is a seek that leaves the cache wrong.
  predicate StaleOp(c: Cursor, op: Op, fileSize: nat) {
    op.SeekOp? && op.position <= fileSize && Stale(c, op.position)
  }

  lemma OpKeepsSyncedIff(c: Cursor, op: Op, fileSize: nat)
    requires Synced(c) && Inside(c, fileSize)
    ensures Synced(After(c, op, fileSize)) <==> !StaleOp(c, op, fileSize)
  {
    match op
    case ReadOp(size) => ReadSyncs(c, size, Got(c, size, fileSize));
    case SeekOp(position) => if position <= fileSize { SeekKeepsSyncedIff(c, position); }
  }

  ghost predicate OpAt(cs: seq<Cursor>, ops: seq<Op>, disk: seq<Byte>, inode: Inode, i: nat)
    requires Listed(disk, inode)
  {
    i < |ops| && i + 1 < |cs| ==> Served(cs[i], ops[i], disk, inode) && cs[i + 1] == After(cs[i], ops[i], inode.size)
  }

  // A file is opened, and then read and sought in some order.
  ghost predicate Run(cs: seq<Cursor>, ops: seq<Op>, disk: seq<Byte>, inode: Inode)
    requires Listed(disk, inode)
  {
    && |cs| == |ops| + 1 && cs[0] == Cursor(0, 0, None)
    && forall i: nat {:trigger OpAt(cs, ops, disk, inode, i)} :: OpAt(cs, ops, disk, inode, i)
  }

  lemma {:induction false} RunInside(cs: seq<Cursor>, ops: seq<Op>, disk: seq<Byte>, inode: Inode, n: nat)
    requires Listed(disk, inode) && Run(cs, ops, disk, inode) && n < |cs|
    ensures Inside(cs[n], inode.size)
  {
    if n > 0 {
      RunInside(cs, ops, disk, inode, n - 1);
      assert OpAt(cs, ops, disk, inode, n - 1);
      OpStaysInside(cs[n - 1], ops[n - 1], inode.size);
    }
  }

  // --- what a caller knows --------------------------------------------------------------

  /** Where a caller is in the file: at the last place sought and not refused, and
      past what was read since, but not past the end. */
  function Position(ops: seq<Op>, fileSize: nat): nat {
    if ops == [] then 0
    else
      var before := Position(ops[..|ops| - 1], fileSize);
      match ops[|ops| - 1]
      case ReadOp(size) => Min(before + size, fileSize)
      case SeekOp(position) => if position > fileSize then before else position
  }

  /** What moved last was a read, and it ended on a page boundary. */
  function AtEdge(ops: seq<Op>, fileSize: nat): bool {
    if ops == [] then false
    else
      var before := ops[..|ops| - 1];
      match ops[|ops| - 1]
      case ReadOp(size) =>
        if Position(ops, fileSize) == Position(before, fileSize) then AtEdge(before, fileSize)
        else Position(ops, fileSize) % PAGE == 0
      case SeekOp(position) => if position > fileSize then AtEdge(before, fileSize) else false
  }

  /** Operation i is a seek from such a place to the page after it. */
  predicate TurnsStale(ops: seq<Op>, fileSize: nat, i: nat) {
    i < |ops| && ops[i].SeekOp? && ops[i].position <= fileSize
    && AtEdge(ops[..i], fileSize) && ops[i].position / PAGE == Position(ops[..i], fileSize) / PAGE
  }

  // The position of the code is where the caller is.
  lemma {:induction false} PositionIsKnown(cs: seq<Cursor>, ops: seq<Op>, disk: seq<Byte>, inode: Inode, n: nat)
    requires Listed(disk, inode) && Run(cs, ops, disk, inode) && n <= |ops|
    ensures cs[n].pos == Position(ops[..n], inode.size) <= inode.size
  {
    RunInside(cs, ops, disk, inode, n);
    if n > 0 {
      PositionIsKnown(cs, ops, disk, inode, n - 1);
      assert ops[..n][..n - 1] == ops[..n - 1];
      assert OpAt(cs, ops, disk, inode, n - 1);
    }
  }

  // The whole page in the buffer has been read.
  predicate UsedUp(c: Cursor) {
    c.chunk.Some? && c.bufPos == PAGE
  }

  lemma EdgeStep(c: Cursor, op: Op, fileSize: nat)
    requires Synced(c) && Inside(c, fileSize) && Synced(After(c, op, fileSize))
    ensures var c' := After(c, op, fileSize);
            UsedUp(c') <==>
              if op.ReadOp? && c'.pos != c.pos then c'.pos % PAGE == 0
              else UsedUp(c) && (op.ReadOp? || op.position > fileSize)
  {}

  lemma {:induction false} EdgeIsKnown(cs: seq<Cursor>, ops: seq<Op>, disk: seq<Byte>, inode: Inode, n: nat)
    requires Listed(disk, inode) && Run(cs, ops, disk, inode) && n <= |ops|
    requires forall i: nat {:trigger TurnsStale(ops, inode.size, i)} :: i < n ==> !TurnsStale(ops, inode.size, i)
    ensures Synced(cs[n]) && (UsedUp(cs[n]) <==> AtEdge(ops[..n], inode.size))
  {
    if n > 0 {
      EdgeIsKnown(cs, ops, disk, inode, n - 1);
      PositionIsKnown(cs, ops, disk, inode, n - 1);
      PositionIsKnown(cs, ops, disk, inode, n);
      RunInside(cs, ops, disk, inode, n - 1);
      assert !TurnsStale(ops, inode.size, n - 1) && OpAt(cs, ops, disk, inode, n - 1);
      assert ops[..n][..n - 1] == ops[..n - 1];
      OpKeepsSyncedIff(cs[n - 1], ops[n - 1], inode.size);
      EdgeStep(cs[n - 1], ops[n - 1], inode.size);
    }
  }

  /** Every operation of a run up to the first stale seek finds the cache right,
      and the cache is wrong right after that seek. */
  lemma SyncedUntilStale(cs: seq<Cursor>, ops: seq<Op>, disk: seq<Byte>, inode: Inode, n: nat)
    requires Listed(disk, inode) && Run(cs, ops, disk, inode) && n < |ops|
    requires forall i: nat {:trigger TurnsStale(ops, inode.size, i)} :: i < n ==> !TurnsStale(ops, inode.size, i)
    ensures Synced(cs[n])
    ensures Synced(cs[n + 1]) <==> !TurnsStale(ops, inode.size, n)
  {
    EdgeIsKnown(cs, ops, disk, inode, n);
    PositionIsKnown(cs, ops, disk, inode, n);
    RunInside(cs, ops, disk, inode, n);
    assert OpAt(cs, ops, disk, inode, n);
    OpKeepsSyncedIff(cs[n], ops[n], inode.size);
  }

  // --- the calls themselves -----------------------------------------------------------------

  ghost predicate AnswerAt(content: seq<Byte>, cs: seq<Cursor>, ops: seq<Op>, answers: seq<Answer>, i: nat) {
    i < |answers| && i < |ops| && i < |cs| && Inside(cs[i], |content|) ==> answers[i] == Answered(content, cs[i], ops[i])
  }

  // The answers to the first operations of a run.
  ghost predicate Answers(content: seq<Byte>, cs: seq<Cursor>, ops: seq<Op>, answers: seq<Answer>) {
    forall i: nat {:trigger AnswerAt(content, cs, ops, answers, i)} :: AnswerAt(content, cs, ops, answers, i)
  }

  lemma NextAnswer(content: seq<Byte>, cs: seq<Cursor>, ops: seq<Op>, answers: seq<Answer>, a: Answer)
    requires Answers(content, cs, ops, answers) && |answers| < |ops| < |cs|
    requires Inside(cs[|answers|], |content|) ==> a == Answered(content, cs[|answers|], ops[|answers|])
    ensures Answers(content, cs, ops, answers + [a])
  {
    forall i: nat {:trigger AnswerAt(content, cs, ops, answers + [a], i)} ensures AnswerAt(content, cs, ops, answers + [a], i) {
      assert AnswerAt(content, cs, ops, answers, i);
    }
  }

  // One call, into a buffer of the size asked for.
  method Call(file: File, op: Op) returns (a: Answer)
    requires file.Valid() && Served(file.V(), op, file.disk, file.inode)
    modifies file, file.buffer
    ensures file.Valid() && a == Answered(Raw(file.disk, file.inode), old(file.V()), op)
    ensures file.V() == After(old(file.V()), op, file.inode.size)
  {
    match op
    case ReadOp(size) => a := CallRead(file, size);
    case SeekOp(position) =>
      var r := file.Seek(position);
      a := if r.None? then Refused else At(r.value);
  }

  method CallRead(file: File, size: nat) returns (a: Answer)
    requires file.Valid() && file.streamPos + size < WRAP
    modifies file, file.buffer
    ensures file.Valid() && a == Answered(Raw(file.disk, file.inode), old(file.V()), ReadOp(size))
    ensures file.V() == After(old(file.V()), ReadOp(size), file.inode.size)
  {
    ghost var content, c := Raw(file.disk, file.inode), file.V();
    var dest := new Byte[size];
    ghost var was := dest[..];
    var r := file.Read(dest, size, _ => true);
    SpliceSlice(was, 0, ReadBytes(content, c, r.value), 0, r.value);
    a := Bytes(dest[..r.value]);
  }

  /** Any reads and seeks that the code serves, one after the other on a file just
      opened: each answer is as specified. */
  method Session(file: File, ops: seq<Op>, ghost cs: seq<Cursor>) returns (answers: seq<Answer>)
    requires file.Valid() && file.V() == Cursor(0, 0, None) && Run(cs, ops, file.disk, file.inode)
    modifies file, file.buffer
    ensures |answers| == |ops| && Answers(Raw(file.disk, file.inode), cs, ops, answers)
    ensures file.Valid() && file.V() == cs[|ops|]
  {
    answers := [];
    while |answers| < |ops|
      invariant |answers| <= |ops| && file.Valid() && file.V() == cs[|answers|]
      invariant Answers(Raw(file.disk, file.inode), cs, ops, answers)
      decreases |ops| - |answers|
    {
      assert OpAt(cs, ops, file.disk, file.inode, |answers|);
      var a := Call(file, ops[|answers|]);
      NextAnswer(Raw(file.disk, file.inode), cs, ops, answers, a);
      answers := answers + [a];
    }
  }

  // --- what the answers are -----------------------------------------------------------------

  /** Every read up to the first stale seek returns the bytes of the file from
      where the caller is, as many as were asked for and there are. */
  lemma ReadsAreRight(content: seq<Byte>, disk: seq<Byte>, inode: Inode, cs: seq<Cursor>, ops: seq<Op>, answers: seq<Answer>, n: nat)
    requires Listed(disk, inode) && Run(cs, ops, disk, inode) && |content| == inode.size && Answers(content, cs, ops, answers)
    requires n < |ops| == |answers| && ops[n].ReadOp?
    requires forall i: nat {:trigger TurnsStale(ops, inode.size, i)} :: i < n ==> !TurnsStale(ops, inode.size, i)
    ensures Position(ops[..n], |content|) <= |content|
    ensures var pos := Position(ops[..n], |content|); answers[n] == Bytes(content[pos..Min(pos + ops[n].size, |content|)])
  {
    RunInside(cs, ops, disk, inode, n);
    SyncedUntilStale(cs, ops, disk, inode, n);
    PositionIsKnown(cs, ops, disk, inode, n);
    assert AnswerAt(content, cs, ops, answers, n);
    RightBytes(content, cs[n], Got(cs[n], ops[n].size, |content|));
  }

  /** Every seek is answered with the place asked for, which is where the caller is
      from then on, or refused when that is past the end. */
  lemma SeeksAreRight(content: seq<Byte>, disk: seq<Byte>, inode: Inode, cs: seq<Cursor>, ops: seq<Op>, answers: seq<Answer>, n: nat)
    requires Listed(disk, inode) && Run(cs, ops, disk, inode) && |content| == inode.size && Answers(content, cs, ops, answers)
    requires n < |ops| == |answers| && ops[n].SeekOp?
    ensures answers[n] == if ops[n].position <= |content| then At(ops[n].position) else Refused
    ensures cs[n + 1].pos == if ops[n].position <= |content| then ops[n].position else cs[n].pos
  {
    RunInside(cs, ops, disk, inode, n);
    assert AnswerAt(content, cs, ops, answers, n) && OpAt(cs, ops, disk, inode, n);
  }

  function Joined(answers: seq<Answer>): seq<Byte> {
    if answers == [] then []
    else
      var last := answers[|answers| - 1];
      Joined(answers[..|answers| - 1]) + if last.Bytes? then last.bytes else []
  }

  function Asked(ops: seq<Op>): nat {
    if ops == [] then 0
    else
      var last := ops[|ops| - 1];
      Asked(ops[..|ops| - 1]) + if last.ReadOp? then last.size else 0
  }

  lemma {:induction false} ReadsGoOn(ops: seq<Op>, fileSize: nat)
    requires forall i :: 0 <= i < |ops| ==> ops[i].ReadOp?
    ensures Position(ops, fileSize) == Min(Asked(ops), fileSize)
  {
    if ops != [] {
      ReadsGoOn(ops[..|ops| - 1], fileSize);
    }
  }

  /** Reads alone return the file from its start, as many bytes as they asked for
      together and there are, however they are divided. */
  lemma {:induction false} ReadsAreTheFile(content: seq<Byte>, disk: seq<Byte>, inode: Inode, cs: seq<Cursor>, ops: seq<Op>, answers: seq<Answer>, n: nat)
    requires Listed(disk, inode) && Run(cs, ops, disk, inode) && |content| == inode.size && Answers(content, cs, ops, answers)
    requires n <= |ops| == |answers| && forall i :: 0 <= i < n ==> ops[i].ReadOp?
    ensures Joined(answers[..n]) == content[..Min(Asked(ops[..n]), |content|)]
  {
    if n > 0 {
      ReadsAreTheFile(content, disk, inode, cs, ops, answers, n - 1);
      ReadsAreRight(content, disk, inode, cs, ops, answers, n - 1);
      ReadsGoOn(ops[..n - 1], |content|);
      assert answers[..n][..n - 1] == answers[..n - 1] && ops[..n][..n - 1] == ops[..n - 1];
      Adjacent(content, 0, Min(Asked(ops[..n - 1]), |content|), Min(Asked(ops[..n]), |content|));
    }
  }

  lemma StaleRead(content: seq<Byte>, c: Cursor, n: nat)
    requires c == Cursor(5000, 904, Some(0)) && 5000 + n <= |content| && n <= PAGE - 904
    ensures Behind(c) && ReadBytes(content, c, n) == content[904..904 + n]
  {
    assert content[5000 + n..5000 + n] == [];
  }

  // Which is what the caller could know.
  lemma StaleIsKnown(fileSize: nat)
    requires fileSize >= 5000
    ensures TurnsStale([ReadOp(PAGE), SeekOp(5000)], fileSize, 1)
  {
    var first := [ReadOp(PAGE)];
    assert [ReadOp(PAGE), SeekOp(5000)][..1] == first && first[..0] == [];
    assert Position(first, fileSize) == PAGE && Position(first[..0], fileSize) == 0;
  }

  /** A stale seek: one page is read, then the file is sought to 5000. The read
      that follows returns the bytes at 904, and not those at 5000. */
  lemma StaleBytes(content: seq<Byte>, c1: Cursor, c2: Cursor, n: nat)
    requires c1 == After(Cursor(0, 0, None), ReadOp(PAGE), |content|) && c2 == After(c1, SeekOp(5000), |content|)
    requires 5000 + n <= |content| && n <= PAGE - 904
    ensures c2.pos == 5000 && Behind(c2) && Answered(content, c2, ReadOp(n)) == Bytes(content[904..904 + n])
  {
    StaleSeek();
    StaleRead(content, c2, n);
  }
}
