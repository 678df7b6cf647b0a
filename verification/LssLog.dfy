/** The append-only volume and its output buffers (packages/lss/lssv3.c: lssi_write_alloc,
    lssi_write_done_z, lssi_flush_obufsv, lssi_write_cr, lssi_read_access_at, lssi_find_last_cr).  */
module LssLog {
  import opened Options
  import opened LssFormat

  const MAX_OUT_BUFS: nat := 6
  const MIN_OBUF: nat := 4096          // 64K
  const FIRST_OBUF: nat := 4095        // leaves room for a segment trailer

  datatype OutBuf = OutBuf(base: nat, cells: seq<Cell>, limit: nat)

  ghost function Flat(bufs: seq<OutBuf>): seq<Cell> {
    if bufs == [] then [] else Flat(bufs[..|bufs| - 1]) + bufs[|bufs| - 1].cells
  }

  /** Each buffer starts where the cells before it end. */
  ghost predicate Contiguous(bufs: seq<OutBuf>, start: nat) {
    bufs == [] ||
    (var n := |bufs| - 1;
     bufs[n].base == start + |Flat(bufs[..n])| && Contiguous(bufs[..n], start))
  }

  /** The buffer that covers an address holds the cell of that address. */
  lemma {:induction false} FlatCell(bufs: seq<OutBuf>, start: nat, i: nat, at: nat)
    requires i < |bufs| && Contiguous(bufs, start)
    requires bufs[i].base <= at < bufs[i].base + |bufs[i].cells|
    ensures start <= at && at - start < |Flat(bufs)| && Flat(bufs)[at - start] == bufs[i].cells[at - bufs[i].base]
    decreases |bufs|
  {
    if i < |bufs| - 1 {
      FlatCell(bufs[..|bufs| - 1], start, i, at);
    }
  }

  lemma {:induction false} ContiguousAt(bufs: seq<OutBuf>, start: nat, i: nat)
    requires Contiguous(bufs, start) && i < |bufs|
    ensures bufs[i].base == start + |Flat(bufs[..i])|
    decreases |bufs|
  {
    if i < |bufs| - 1 {
      ContiguousAt(bufs[..|bufs| - 1], start, i);
      assert bufs[..|bufs| - 1][..i] == bufs[..i];
    }
  }

  lemma Snoc(bufs: seq<OutBuf>, b: OutBuf, start: nat)
    ensures Flat(bufs + [b]) == Flat(bufs) + b.cells
    ensures Contiguous(bufs, start) && b.base == start + |Flat(bufs)| ==> Contiguous(bufs + [b], start)
  {
    assert (bufs + [b])[..|bufs|] == bufs;
  }

  // ------------------------------------------------------------------ segments

  /** What lssi_flush_obufsv writes after n granules of data: a gap record when there is
      room for one, then the trailer, ending on a block boundary. */
  function SegmentTail(n: nat): (t: seq<Cell>)
    ensures (n + |t|) % IO_BLOCK == 0
    ensures 1 <= |t| <= IO_BLOCK && t[|t| - 1] == Head(1, SegmentEnd)
  {
    var ntrailer := IO_BLOCK - n % IO_BLOCK;
    if ntrailer > 1 then
      var ntrailer2 := IO_BLOCK - (n + 1) % IO_BLOCK;
      Record(ntrailer2, Gap) + Record(1, SegmentEnd)
    else
      Record(1, SegmentEnd)
  }

  /** The block lssi_write_cr writes. */
  function CommitBlock(cr: CommitRecord): (b: seq<Cell>)
    ensures |b| == IO_BLOCK && b[0] == Head(CR_SPACE, Commit(cr))
    ensures b[IO_BLOCK - 1] == Head(1, EndOfFile)
    ensures forall i | 1 <= i < IO_BLOCK :: b[i].Head? ==> !b[i].payload.Commit?
  {
    var ntrailer := IO_BLOCK - (CR_SPACE + 1);
    Record(CR_SPACE, Commit(cr)) + Record(ntrailer, Gap) + Record(1, EndOfFile)
  }

  /** Nothing here is a commit record or an end-of-file trailer. */
  ghost predicate Plain(c: seq<Cell>) {
    forall i | 0 <= i < |c| && c[i].Head? :: !c[i].payload.Commit? && !c[i].payload.EndOfFile?
  }

  lemma SegmentTailTiled(n: nat)
    ensures Tiled(SegmentTail(n), 0) && Plain(SegmentTail(n))
  {
    TiledRecord(1, SegmentEnd);
    if IO_BLOCK - n % IO_BLOCK > 1 {
      var g := IO_BLOCK - (n + 1) % IO_BLOCK;
      TiledRecord(g, Gap);
      TiledConcat(Record(g, Gap), Record(1, SegmentEnd), 0);
    }
  }

  lemma CommitBlockTiled(cr: CommitRecord)
    ensures Tiled(CommitBlock(cr), 0)
  {
    var n := IO_BLOCK - (CR_SPACE + 1);
    TiledRecord(CR_SPACE, Commit(cr));
    TiledRecord(n, Gap);
    TiledRecord(1, EndOfFile);
    TiledConcat(Record(CR_SPACE, Commit(cr)), Record(n, Gap), 0);
    TiledConcat(Record(CR_SPACE, Commit(cr)) + Record(n, Gap), Record(1, EndOfFile), 0);
  }

  // ------------------------------------------------------------------ the last commit record

  /** The volume ends with a commit block. */
  predicate EndsInCommit(c: seq<Cell>) {
    |c| >= IO_BLOCK && |c| % IO_BLOCK == 0
    && c[|c| - 1].Head? && c[|c| - 1].payload.EndOfFile?
  }

  /** The trailer at i closes a block that starts with a commit record and holds no other. */
  ghost predicate EofAt(c: seq<Cell>, i: nat) {
    i < |c| && i >= IO_BLOCK - 1 && CommitAt(c, i - (IO_BLOCK - 1))
    && forall j: nat | i - (IO_BLOCK - 1) < j < i :: !CommitAt(c, j)
  }

  ghost predicate EofBlocks(c: seq<Cell>) {
    forall i | 0 <= i < |c| && c[i].Head? && c[i].payload.EndOfFile? :: EofAt(c, i)
  }

  ghost predicate LastCommit(c: seq<Cell>, at: nat) {
    CommitAt(c, at) && forall j: nat | at < j < |c| :: !CommitAt(c, j)
  }

  lemma LastOfBlocks(c: seq<Cell>, at: nat)
    requires EofBlocks(c) && EndsInCommit(c) && LastCommit(c, at)
    ensures at == |c| - IO_BLOCK
  {
    assert EofAt(c, |c| - 1);
  }

  /** lssi_find_last_cr over the volume `c`, guided by the position in the volume header. */
  method FindLastCommit(c: seq<Cell>, guess: nat) returns (r: Option<nat>)
    requires Tiled(c, 0) && EofBlocks(c)
    requires guess != 0 ==> CommitAt(c, guess)
    ensures r.Some? ==> LastCommit(c, r.value)
    // nothing is found exactly when the volume does not end in a commit and there is no guess
    ensures r.None? <==> !EndsInCommit(c) && guess == 0
  {
    if |c| >= IO_BLOCK && |c| % IO_BLOCK == 0 {
      var t := c[|c| - 1];
      if t.Head? && t.payload.EndOfFile? {
        return Some(|c| - IO_BLOCK);
      }
    }
    if guess == 0 {
      return None;
    }
    var at := guess;
    var i := guess;
    HeadIsStart(c, 0, guess);
    while i < |c|
      invariant guess <= i <= |c| && Tiled(c, i)
      invariant guess <= at && CommitAt(c, at) && (at < i || at == i == guess)
      invariant forall j: nat | at < j < i :: !CommitAt(c, j)
      decreases |c| - i
    {
      if c[i].payload.Commit? {
        at := i;
      }
      i := i + c[i].space;
    }
    return Some(at);
  }

  // ------------------------------------------------------------------ the object

  ghost predicate FileOk(file: seq<Cell>) {
    |file| % IO_BLOCK == 0 && Tiled(file, 0) && EofBlocks(file)
  }

  /** A volume grown by data segments only. */
  ghost predicate DataAppended(a: seq<Cell>, b: seq<Cell>) {
    a <= b && forall p: nat | |a| <= p < |b| :: !CommitAt(b, p)
  }

  lemma DataAppendedTrans(a: seq<Cell>, b: seq<Cell>, c: seq<Cell>)
    requires DataAppended(a, b) && DataAppended(b, c)
    ensures DataAppended(a, c)
  {
    forall p: nat | |a| <= p < |c| ensures !CommitAt(c, p) {
      if p < |b| { assert !CommitAt(b, p); }
    }
  }

  lemma SegmentIsData(file: seq<Cell>, data: seq<Cell>)
    requires Plain(data)
    ensures DataAppended(file, file + data + SegmentTail(|data|))
  {
    var tail := SegmentTail(|data|);
    SegmentTailTiled(|data|);
    var f := file + data + tail;
    forall p: nat | |file| <= p < |f| ensures !CommitAt(f, p) {
      assert f[p] == if p < |file| + |data| then data[p - |file|] else tail[p - |file| - |data|];
    }
  }

  ghost predicate LogOk(file: seq<Cell>, bufs: seq<OutBuf>, open: Option<nat>) {
    && FileOk(file)
    && 1 <= |bufs| <= MAX_OUT_BUFS
    && Contiguous(bufs, |file|)
    && Plain(Flat(bufs))
    && Tiled(file + Flat(bufs), 0)
    && (open.Some? ==> var cells := bufs[|bufs| - 1].cells;
          open.value < |cells| && cells[open.value].Head?)
  }

  /** No buffer holds more than it has room for. */
  ghost predicate Fits(bufs: seq<OutBuf>) {
    forall b | b in bufs :: |b.cells| <= b.limit
  }

  lemma FitsLast(bufs: seq<OutBuf>, b: OutBuf)
    requires Fits(bufs) && |b.cells| <= b.limit
    ensures Fits(bufs + [b]) && (bufs != [] ==> Fits(bufs[..|bufs| - 1] + [b]))
  {
  }

  lemma LogIsFile(file: seq<Cell>, bufs: seq<OutBuf>, open: Option<nat>)
    requires LogOk(file, bufs, open)
    ensures FileOk(file)
  {
  }

  lemma BuffersFollow(file: seq<Cell>, bufs: seq<OutBuf>, open: Option<nat>)
    requires LogOk(file, bufs, open)
    ensures |bufs| >= 1 && Contiguous(bufs, |file|)
  {
  }

  lemma NoBuffers(file: seq<Cell>)
    requires FileOk(file)
    ensures var bufs := [OutBuf(|file|, [], FIRST_OBUF)]; Flat(bufs) == [] && LogOk(file, bufs, None)
  {
    Snoc([], OutBuf(|file|, [], FIRST_OBUF), |file|);
    assert [] + [OutBuf(|file|, [], FIRST_OBUF)] == [OutBuf(|file|, [], FIRST_OBUF)];
    assert file + [] == file;
  }

  lemma EofBlocksPlain(file: seq<Cell>, b: seq<Cell>)
    requires EofBlocks(file) && Plain(b)
    ensures EofBlocks(file + b)
  {
    var f := file + b;
    assert forall i | |file| <= i < |f| :: f[i] == b[i - |file|];
    forall i | 0 <= i < |f| && f[i].Head? && f[i].payload.EndOfFile?
      ensures EofAt(f, i)
    {
      assert EofAt(file, i);
      assert forall j: nat | j < |file| :: CommitAt(f, j) == CommitAt(file, j);
    }
  }

  lemma EofBlocksCommit(file: seq<Cell>, cr: CommitRecord)
    requires EofBlocks(file)
    ensures EofBlocks(file + CommitBlock(cr))
  {
    var b := CommitBlock(cr);
    var f := file + b;
    forall i | 0 <= i < |f| && f[i].Head? && f[i].payload.EndOfFile?
      ensures EofAt(f, i)
    {
      if i >= |file| {
        assert f[i] == b[i - |file|];
        assert i == |f| - 1;
        assert f[|file|] == b[0];
        assert forall j: nat | |file| < j < i :: f[j] == b[j - |file|];
      } else {
        assert EofAt(file, i);
        assert forall j: nat | j < |file| :: CommitAt(f, j) == CommitAt(file, j);
      }
    }
  }

  lemma SegmentOk(file: seq<Cell>, data: seq<Cell>)
    requires FileOk(file) && Plain(data) && Tiled(file + data, 0)
    ensures FileOk(file + data + SegmentTail(|data|))
  {
    var tail := SegmentTail(|data|);
    SegmentTailTiled(|data|);
    TiledConcat(file + data, tail, 0);
    EofBlocksPlain(file, data);
    EofBlocksPlain(file + data, tail);
    WholeBlocks(|file|, |data| + |tail|);
    assert |file + data + tail| == |file| + (|data| + |tail|);
  }

  lemma WholeBlocks(a: nat, b: nat)
    requires a % IO_BLOCK == 0 && b % IO_BLOCK == 0
    ensures (a + b) % IO_BLOCK == 0
  {
  }

  lemma CommitBlockOk(file: seq<Cell>, cr: CommitRecord)
    requires FileOk(file)
    ensures FileOk(file + CommitBlock(cr))
  {
    var b := CommitBlock(cr);
    CommitBlockTiled(cr);
    TiledConcat(file, b, 0);
    EofBlocksCommit(file, cr);
    WholeBlocks(|file|, |b|);
  }

  /** What replacing the cells of the last buffer from `keep` on makes of the log. */
  lemma LastBufferLog(file: seq<Cell>, bufs: seq<OutBuf>, keep: nat, r: seq<Cell>)
    requires bufs != [] && Contiguous(bufs, |file|) && keep <= |bufs[|bufs| - 1].cells|
    ensures var n := |bufs| - 1;
      var last, log := bufs[n], file + Flat(bufs);
      var at := last.base + keep;
      var bufs2 := bufs[..n] + [last.(cells := last.cells[..keep] + r)];
      && |file| <= at <= |log| && Contiguous(bufs2, |file|)
      && file + Flat(bufs2) == log[..at] + r && Flat(bufs2) == Flat(bufs[..n]) + (last.cells[..keep] + r)
      && Flat(bufs) == Flat(bufs[..n]) + last.cells
      && (keep < |last.cells| ==> at < |log| && log[at] == last.cells[keep])
      && (keep == |last.cells| ==> log[..at] == log)
  {
    var n := |bufs| - 1;
    var last := bufs[n];
    Snoc(bufs[..n], last.(cells := last.cells[..keep] + r), |file|);
    Cut(file, Flat(bufs[..n]), last.cells, keep, r);
  }

  lemma Cut(file: seq<Cell>, before: seq<Cell>, cells: seq<Cell>, keep: nat, r: seq<Cell>)
    requires keep <= |cells|
    ensures var log, at := file + (before + cells), |file| + |before| + keep;
      && file + (before + (cells[..keep] + r)) == log[..at] + r
      && (keep < |cells| ==> log[at] == cells[keep])
      && (keep == |cells| ==> log[..at] == log)
  {
    var log, at := file + (before + cells), |file| + |before| + keep;
    assert log[..at] == file + before + cells[..keep];
  }

  /** Replacing the cells of the last buffer from `keep` on by one record. */
  lemma LastBufferOk(file: seq<Cell>, bufs: seq<OutBuf>, keep: nat, space: nat, payload: Payload)
    requires LogOk(file, bufs, None) && space >= 1 && !payload.Commit? && !payload.EndOfFile?
    requires var cells := bufs[|bufs| - 1].cells; keep <= |cells| && (keep < |cells| ==> cells[keep].Head?)
    ensures var n := |bufs| - 1;
      var at := bufs[n].base + keep;
      var bufs2 := bufs[..n] + [bufs[n].(cells := bufs[n].cells[..keep] + Record(space, payload))];
      && |file| <= at <= |file + Flat(bufs)|
      && file + Flat(bufs2) == (file + Flat(bufs))[..at] + Record(space, payload)
      && LogOk(file, bufs2, None) && LogOk(file, bufs2, Some(keep))
  {
    hide EofBlocks, Flat, Contiguous, Plain;
    var n := |bufs| - 1;
    var last, log := bufs[n], file + Flat(bufs);
    var at := last.base + keep;
    var r := Record(space, payload);
    LastBufferLog(file, bufs, keep, r);
    if keep < |last.cells| {
      TiledTake(log, 0, at);
    }
    TiledRecord(space, payload);
    TiledConcat(log[..at], r, 0);
    RecordPlain(space, payload);
    PlainParts(Flat(bufs[..n]), last.cells, keep, r);
  }

  lemma RecordPlain(space: nat, payload: Payload)
    requires space >= 1 && !payload.Commit? && !payload.EndOfFile?
    ensures Plain(Record(space, payload))
  {
  }

  /** Appending a record to the last buffer. */
  lemma AppendOk(file: seq<Cell>, bufs: seq<OutBuf>, space: nat, payload: Payload)
    requires LogOk(file, bufs, None) && space >= 1 && !payload.Commit? && !payload.EndOfFile?
    ensures var n := |bufs| - 1;
      var keep := |bufs[n].cells|;
      var bufs2 := bufs[..n] + [bufs[n].(cells := bufs[n].cells + Record(space, payload))];
      && |file| <= bufs[n].base + keep == |file + Flat(bufs)|
      && file + Flat(bufs2) == file + Flat(bufs) + Record(space, payload)
      && LogOk(file, bufs2, Some(keep))
  {
    var n := |bufs| - 1;
    var last := bufs[n];
    LastBufferOk(file, bufs, |last.cells|, space, payload);
    assert last.cells[..|last.cells|] == last.cells;
    var log := file + Flat(bufs);
    assert log[..|log|] == log;
  }

  lemma PlainParts(a: seq<Cell>, b: seq<Cell>, keep: nat, r: seq<Cell>)
    requires Plain(a + b) && Plain(r) && keep <= |b|
    ensures Plain(a + (b[..keep] + r))
  {
    var t := a + (b[..keep] + r);
    forall i | 0 <= i < |t| && t[i].Head? ensures !t[i].payload.Commit? && !t[i].payload.EndOfFile? {
      assert t[i] == if i < |a| + keep then (a + b)[i] else r[i - |a| - keep];
    }
  }

  class LogFile {
    var file: seq<Cell>
    var bufs: seq<OutBuf>
    /** Where in the last buffer a record is still being written. */
    var open: Option<nat>

    /** The log as it will read once everything buffered is on the volume. */
    ghost function Log(): seq<Cell>
      reads this
    {
      file + Flat(bufs)
    }

    ghost predicate Valid()
      reads this
    {
      LogOk(file, bufs, open) && Fits(bufs)
    }

    /** Where the record being written starts. */
    ghost function OpenAt(): nat
      requires Valid() && open.Some?
      reads this
    {
      bufs[|bufs| - 1].base + open.value
    }

    constructor (volume: seq<Cell>)
      requires FileOk(volume)
      ensures Valid() && file == volume && Log() == volume && open.None? && Flat(bufs) == []
      ensures bufs == [OutBuf(|volume|, [], FIRST_OBUF)]
    {
      NoBuffers(volume);
      file := volume;
      bufs := [OutBuf(|volume|, [], FIRST_OBUF)];
      open := None;
    }

    /** lssi_flush_obufs: the buffered records become one data segment. */
    method Flush()
      requires Valid() && open.None?
      modifies this
      ensures Valid() && open.None? && Flat(bufs) == [] && Log() == file
      ensures |bufs| == 1 && DataAppended(old(file), file)
      ensures file == if old(Flat(bufs)) == [] then old(file)
                      else old(Log()) + SegmentTail(|old(Flat(bufs))|)
    {
      var data := Gather(bufs);
      if data != [] {
        SegmentOk(file, data);
        SegmentIsData(file, data);
        file := file + data + SegmentTail(|data|);
      }
      NoBuffers(file);
      bufs := [OutBuf(|file|, [], FIRST_OBUF)];
    }

    /** The branch of lssi_write_alloc that adds a buffer. */
    method AddBuffer(realSpace: nat)
      requires Valid() && open.None? && |bufs| < MAX_OUT_BUFS
      modifies this
      ensures Valid() && open.None?
      ensures file == old(file) && Log() == old(Log()) && |bufs| == old(|bufs|) + 1
      ensures bufs[|bufs| - 1].cells == [] && bufs[|bufs| - 1].limit >= realSpace
    {
      var last := bufs[|bufs| - 1];
      var w := if realSpace < MIN_OBUF then MIN_OBUF else realSpace;
      var b := OutBuf(last.base + |last.cells|, [], w);
      Snoc(bufs, b, |file|);
      FitsLast(bufs, b);
      assert Flat(bufs) + [] == Flat(bufs);
      bufs := bufs + [b];
    }

    /** lssi_write_alloc: reserves room for a record and returns its locator. */
    method WriteAlloc(space: nat, payload: Payload) returns (at: nat)
      requires Valid() && open.None? && !payload.Commit? && !payload.EndOfFile?
      modifies this
      ensures Valid() && open.Some? && OpenAt() == at
      ensures DataAppended(old(file), file) && |file| <= at < |Log()| && old(|Log()|) <= at
      ensures old(Log()) <= Log()[..at]
      ensures Log() == Log()[..at] + Record(Granules(space + HEADER_BYTES), payload)
      decreases if |bufs[|bufs| - 1].cells| + Granules(space + HEADER_BYTES) <= bufs[|bufs| - 1].limit then 0
                else if |bufs| < MAX_OUT_BUFS then 1 else 2
    {
      var realSpace := Granules(space + HEADER_BYTES);
      var last := bufs[|bufs| - 1];
      if |last.cells| + realSpace > last.limit {
        ghost var f0, l0 := file, Log();
        if |bufs| < MAX_OUT_BUFS {
          AddBuffer(realSpace);
        } else {
          Flush();
        }
        ghost var f1, l1 := file, Log();
        assert l0 <= l1;
        at := WriteAlloc(space, payload);
        DataAppendedTrans(f0, f1, file);
      } else {
        at := Reserve(realSpace, payload);
      }
    }

    /** write_alloc_inbuf: the record goes at the end of the last buffer. */
    method Reserve(realSpace: nat, payload: Payload) returns (at: nat)
      requires Valid() && open.None? && realSpace >= 1 && !payload.Commit? && !payload.EndOfFile?
      requires |bufs[|bufs| - 1].cells| + realSpace <= bufs[|bufs| - 1].limit
      modifies this
      ensures Valid() && open.Some? && OpenAt() == at && file == old(file)
      ensures at == old(|Log()|) && |file| <= at
      ensures Log() == old(Log()) + Record(realSpace, payload)
    {
      var n := |bufs| - 1;
      var last := bufs[n];
      AppendOk(file, bufs, realSpace, payload);
      FitsLast(bufs, last.(cells := last.cells + Record(realSpace, payload)));
      at := last.base + |last.cells|;
      open := Some(|last.cells|);
      bufs := bufs[..n] + [last.(cells := last.cells + Record(realSpace, payload))];
    }

    /** lssi_write_done_z: shrinks the open record to what it used and closes it. */
    method WriteDone(length: nat, payload: Payload)
      requires Valid() && open.Some? && !payload.Commit? && !payload.EndOfFile?
      requires OpenAt() + Granules(length + HEADER_BYTES) <= |Log()|
      modifies this
      ensures Valid() && open.None? && file == old(file)
      ensures |file| <= old(OpenAt()) < old(|Log()|)
      ensures Log() == old(Log())[..old(OpenAt())] + Record(Granules(length + HEADER_BYTES), payload)
    {
      var n := |bufs| - 1;
      var last := bufs[n];
      var used := Granules(length + HEADER_BYTES);
      FlatCell(bufs, |file|, n, last.base + open.value);
      LastBufferOk(file, bufs, open.value, used, payload);
      ContiguousAt(bufs, |file|, n);
      FitsLast(bufs, last.(cells := last.cells[..open.value] + Record(used, payload)));
      bufs := bufs[..n] + [last.(cells := last.cells[..open.value] + Record(used, payload))];
      open := None;
    }

    /** The volume header of a new store, the first record in the buffers. */
    method WriteHeader()
      requires Valid() && open.None? && file == [] && Log() == [] && bufs == [OutBuf(0, [], FIRST_OBUF)]
      modifies this
      ensures Valid() && open.None? && file == [] && Log() == Record(Granules(512 + HEADER_BYTES), VolumeHeader)
    {
      hide LogOk;
      var at := Reserve(Granules(512 + HEADER_BYTES), VolumeHeader);
      WriteDone(512, VolumeHeader);
    }

    /** lssi_write_cr: appends a block holding the commit record, bypassing the buffers. */
    method WriteCommit(cr: CommitRecord) returns (at: nat)
      requires Valid() && open.None? && Flat(bufs) == []
      modifies this
      ensures Valid() && open.None? && Flat(bufs) == [] && Log() == file
      ensures at == old(|file|)
      ensures file == old(file) + CommitBlock(cr) && EndsInCommit(file)
    {
      at := |file|;
      CommitBlockOk(file, cr);
      file := file + CommitBlock(cr);
      NoBuffers(file);
      bufs := [OutBuf(at + IO_BLOCK, [], FIRST_OBUF)];
    }

    /** lssi_read_access_at: looks in the buffers first when the locator is past the volume. */
    method ReadAt(at: nat) returns (cell: Cell)
      requires Valid() && at < |Log()|
      ensures cell == Log()[at]
    {
      BuffersFollow(file, bufs, open);
      hide LogOk, Fits, Contiguous;
      ContiguousAt(bufs, |file|, 0);
      assert bufs[..|bufs|] == bufs;
      if at >= bufs[0].base {
        var i := 0;
        while i < |bufs|
          invariant 0 <= i <= |bufs|
          invariant at >= |file| + |Flat(bufs[..i])|
        {
          ContiguousAt(bufs, |file|, i);
          if at < bufs[i].base + |bufs[i].cells| {
            FlatCell(bufs, |file|, i, at);
            return bufs[i].cells[at - bufs[i].base];
          }
          assert bufs[..i + 1][..i] == bufs[..i];
          i := i + 1;
        }
        assert false;
      }
      cell := file[at];
    }
  }

  /** The data of all buffers, in order: the vector handed to writev. */
  method Gather(bufs: seq<OutBuf>) returns (data: seq<Cell>)
    ensures data == Flat(bufs)
  {
    data := [];
    var i := 0;
    while i < |bufs|
      invariant 0 <= i <= |bufs| && data == Flat(bufs[..i])
    {
      assert bufs[..i + 1][..i] == bufs[..i];
      data := data + bufs[i].cells;
      i := i + 1;
    }
    assert bufs[..i] == bufs;
  }

  /** Cutting a tiled log at a record start leaves whole records. */
  lemma {:induction false} TiledTake(c: seq<Cell>, p: nat, h: nat)
    requires Tiled(c, p) && p <= h < |c| && c[h].Head?
    ensures Tiled(c[..h], p)
    decreases |c| - p
  {
    if p < h {
      TiledTake(c, p + c[p].space, h);
    }
  }

  lemma EmptyFileOk()
    ensures FileOk([])
  {
  }

  /** One data record, buffered and flushed: the volume does not end in a commit. */
  method LogOne(l: LogFile, recnum: nat, data: Bytes)
    requires l.Valid() && l.open.None?
    modifies l
    ensures l.Valid() && l.open.None? && Flat(l.bufs) == [] && old(l.file) <= l.file && !EndsInCommit(l.file)
  {
    hide LogOk, Fits, FileOk, Record;
    ghost var f0, c0 := l.file, l.Log();
    var at := l.WriteAlloc(|data|, Data(recnum, []));
    ghost var c := l.Log()[..at];
    l.WriteDone(|data|, Data(recnum, data));
    assert l.Log()[..at] == c;
    ghost var pending, c1 := Flat(l.bufs), l.Log();
    assert |c1| > at >= |l.file|;
    l.Flush();
    assert f0 <= c1;
    SegmentEndsIt(c1, SegmentTail(|pending|));
  }

  lemma SegmentEndsIt(c: seq<Cell>, tail: seq<Cell>)
    requires tail != [] && tail[|tail| - 1] == Head(1, SegmentEnd)
    ensures !EndsInCommit(c + tail)
  {
  }

  /** A volume that ends in a data segment, and whose header was never updated: the commit record
      on it is not found. */
  method CommitOutOfSight(cr: CommitRecord) returns (l: LogFile, at: nat, r: Option<nat>)
    ensures l.Valid() && at != 0 && CommitAt(l.file, at) && CrAt(l.file, at) == cr
    ensures r == None
  {
    hide LogOk, Fits, EofBlocks, Record, EndsInCommit;
    EmptyFileOk();
    l := new LogFile([]);
    l.WriteHeader();
    l.Flush();
    at := l.WriteCommit(cr);
    assert CommitBlock(cr)[0] == l.file[at];
    LogOne(l, 1, []);
    LogIsFile(l.file, l.bufs, l.open);
    r := FindLastCommit(l.file, 0);
  }
}
