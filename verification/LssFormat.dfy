/** The on-disk form of a version 3 log-structured store (packages/lss/lssv3.h).

    The file is counted in granules of 16 bytes.  A record header fills exactly one
    granule, so the file is a sequence of cells, each either a header or a piece of the
    body of the record before it.  A locator on volume 0 is a granule number.  */
module LssFormat {
  import opened Options

  newtype byte = x: int | 0 <= x < 256
  type Bytes = seq<byte>

  const HEADER_BYTES: nat := 16
  const IO_BLOCK: nat := 64            // granules in 1024 bytes
  const LINE_SIZE: nat := 64           // INDEX_LINE_SIZE
  const LINE_BYTES: nat := 4 * LINE_SIZE
  const MASTER_ENTRY_BYTES: nat := 12
  const CR_SPACE: nat := 56            // 896 bytes
  const MAX_DIFFS: nat := 100
  const NUM_BOOKMARKS: nat := 10
  const FIRST_GENERATION: nat := 100

  /** ROUND_UP of a byte count, in granules. */
  function Granules(bytes: nat): (n: nat)
    ensures bytes <= 16 * n < bytes + 16
  {
    (bytes + 15) / 16
  }

  // ------------------------------------------------------------------ locators and space words

  const MAX_VOLUMES: nat := 16
  const VOLUME_STEP: nat := 0x1000_0000     // 1 << (32 - VOLUME_BITS)
  const GRANULE: nat := 16

  /** MAKE_LOCATOR, EXTRACT_VOLUME and EXTRACT_OFFSET */
  function MakeLocator(vol: nat, off: nat): nat { vol * VOLUME_STEP + off / GRANULE }

  function ExtractVolume(at: nat): nat { at / VOLUME_STEP }

  function ExtractOffset(at: nat): nat { at % VOLUME_STEP * GRANULE }

  /** A locator gives back volume and offset, in 32 bits, for aligned offsets in range. */
  lemma LocatorRoundTrip(vol: nat, off: nat)
    requires vol < MAX_VOLUMES && off % GRANULE == 0 && off / GRANULE < VOLUME_STEP
    ensures var at := MakeLocator(vol, off);
      at < 0x1_0000_0000 && ExtractVolume(at) == vol && ExtractOffset(at) == off
  {
  }

  /** MAKE_SPACE_WORD, GET_SPACE_BYTES and GET_WHICH_ZIP */
  function MakeSpaceWord(space: nat, zip: nat): nat { space + zip }

  function SpaceBytes(w: nat): nat { w - w % 16 }

  function WhichZip(w: nat): nat { w % 16 }

  /** The low bits that rounding leaves free hold the number of the compression algorithm. */
  lemma SpaceWordRoundTrip(bytes: nat, zip: nat)
    requires bytes >= 1 && zip < 16
    ensures var w := MakeSpaceWord(RoundUp(bytes), zip);
      SpaceBytes(w) == GRANULE * Granules(bytes) && WhichZip(w) == zip && SpaceBytes(w) >= bytes
  {
  }

  /** ROUND_UP, ((n - 1) | 15) + 1 */
  function RoundUp(n: nat): (r: nat)
    requires n >= 1
    ensures r % GRANULE == 0 && n <= r < n + GRANULE
  {
    (n - 1) / 16 * 16 + 15 + 1
  }

  datatype Diff = Diff(recnum: nat, offset: nat)

  datatype MasterEntry = MasterEntry(lineKey: nat, lineOffset: nat, hasFree: bool)

  datatype CommitRecord = CommitRecord(
    generation: nat,
    prevAt: nat,
    selfAt: nat,
    mixCnt: nat,
    mixOffset: nat,
    diffs: seq<Diff>,
    bookmarks: seq<nat>)

  datatype Payload =
    | VolumeHeader
    | Data(recnum: nat, bytes: Bytes)
    | Line(key: nat, entries: seq<nat>)
    | Master(mix: seq<MasterEntry>)
    | Commit(cr: CommitRecord)
    | Gap
    | SegmentEnd
    | EndOfFile

  /** `space` is the space word of the header without its compression number. */
  datatype Cell = Head(space: nat, payload: Payload) | Body

  function Record(space: nat, payload: Payload): (r: seq<Cell>)
    requires space >= 1
    ensures |r| == space && r[0] == Head(space, payload)
    ensures forall i | 1 <= i < space :: r[i] == Body
  {
    [Head(space, payload)] + seq(space - 1, _ => Body)
  }

  // ------------------------------------------------------------------ tiling

  /** From p on, the cells are whole records up to the very end. */
  ghost predicate Tiled(c: seq<Cell>, p: nat)
    decreases |c| - p
  {
    p == |c| ||
    (p < |c| && c[p].Head? && 1 <= c[p].space && p + c[p].space <= |c|
     && (forall q | p < q < p + c[p].space :: c[q].Body?)
     && Tiled(c, p + c[p].space))
  }

  lemma {:induction false} TiledConcat(a: seq<Cell>, b: seq<Cell>, p: nat)
    requires p <= |a| && Tiled(a, p) && Tiled(b, 0)
    ensures Tiled(a + b, p)
    decreases |a| - p
  {
    if p == |a| {
      TiledShift(a, b, 0);
    } else {
      TiledConcat(a, b, p + a[p].space);
    }
  }

  lemma {:induction false} TiledShift(a: seq<Cell>, b: seq<Cell>, q: nat)
    requires q <= |b| && Tiled(b, q)
    ensures Tiled(a + b, |a| + q)
    decreases |b| - q
  {
    if q < |b| {
      TiledShift(a, b, q + b[q].space);
      assert forall r | |a| + q < r < |a| + q + b[q].space :: (a + b)[r] == b[r - |a|];
    }
  }

  lemma TiledRecord(space: nat, payload: Payload)
    requires space >= 1
    ensures Tiled(Record(space, payload), 0)
  {
    var r := Record(space, payload);
    assert Tiled(r, |r|);
  }

  /** Every header is a record start: walking by space words from a start meets all later headers. */
  lemma {:induction false} HeadIsStart(c: seq<Cell>, p: nat, h: nat)
    requires Tiled(c, p) && p <= h < |c| && c[h].Head?
    ensures Tiled(c, h)
    decreases |c| - p
  {
    if p != h {
      HeadIsStart(c, p + c[p].space, h);
    }
  }

  // ------------------------------------------------------------------ what a locator names

  ghost predicate LineAt(c: seq<Cell>, at: nat, key: nat) {
    at < |c| && c[at].Head? && c[at].payload.Line? && c[at].payload.key == key && |c[at].payload.entries| == LINE_SIZE
  }

  ghost predicate MasterAt(c: seq<Cell>, at: nat) {
    at < |c| && c[at].Head? && c[at].payload.Master?
  }

  predicate CommitAt(c: seq<Cell>, at: nat) {
    at < |c| && c[at].Head? && c[at].payload.Commit?
  }

  ghost predicate DataAt(c: seq<Cell>, at: nat, recnum: nat) {
    at < |c| && c[at].Head? && c[at].payload.Data? && c[at].payload.recnum == recnum
  }

  function CrAt(c: seq<Cell>, at: nat): CommitRecord
    requires CommitAt(c, at)
  {
    c[at].payload.cr
  }

  /** The bytes a locator yields; 0 means no record. */
  ghost function BytesAt(c: seq<Cell>, at: nat): Option<Bytes> {
    if at != 0 && at < |c| && c[at].Head? && c[at].payload.Data? then Some(c[at].payload.bytes) else None
  }

  ghost function EntryOnDisk(c: seq<Cell>, at: nat, i: nat): nat {
    if at < |c| && c[at].Head? && c[at].payload.Line? && i < |c[at].payload.entries| then c[at].payload.entries[i] else 0
  }

  // ------------------------------------------------------------------ what a commit record means

  /** Records by number. */
  type Contents = nat -> Option<Bytes>

  ghost predicate HasDiff(diffs: seq<Diff>, key: nat) {
    exists d :: d in diffs && d.recnum == key
  }

  ghost function DiffValue(diffs: seq<Diff>, key: nat): nat
    requires HasDiff(diffs, key)
  {
    var d :| d in diffs && d.recnum == key;
    d.offset
  }

  ghost predicate HasLine(mix: seq<MasterEntry>, lineKey: nat) {
    exists e :: e in mix && e.lineKey == lineKey
  }

  ghost function LineOffset(mix: seq<MasterEntry>, lineKey: nat): nat
    requires HasLine(mix, lineKey)
  {
    var e :| e in mix && e.lineKey == lineKey;
    e.lineOffset
  }

  ghost function MasterOf(c: seq<Cell>, at: nat): seq<MasterEntry> {
    if at < |c| && c[at].Head? && c[at].payload.Master? then c[at].payload.mix else []
  }

  /** The value of a key in the master index alone. */
  ghost function MixValue(c: seq<Cell>, mix: seq<MasterEntry>, key: nat): nat {
    if HasLine(mix, key / LINE_SIZE) then EntryOnDisk(c, LineOffset(mix, key / LINE_SIZE), key % LINE_SIZE) else 0
  }

  /** The locator a commit record gives a key: its master index overlaid with its diff list. */
  ghost function DiskValue(c: seq<Cell>, cr: CommitRecord, key: nat): nat {
    if HasDiff(cr.diffs, key) then DiffValue(cr.diffs, key) else MixValue(c, MasterOf(c, cr.mixOffset), key)
  }

  ghost function DiskRecord(c: seq<Cell>, cr: CommitRecord, key: nat): Option<Bytes> {
    BytesAt(c, DiskValue(c, cr, key))
  }

  ghost predicate UniqueDiffs(diffs: seq<Diff>) {
    forall i, j | 0 <= i < j < |diffs| :: diffs[i].recnum != diffs[j].recnum
  }

  ghost predicate UniqueLines(mix: seq<MasterEntry>) {
    forall i, j | 0 <= i < j < |mix| :: mix[i].lineKey != mix[j].lineKey
  }

  /** The last line of record numbers is never used, so the top key of the free map stays free. */
  const LINE_KEYS: nat := 0x3FF_FFFF
  const MAX_RECNUM: nat := LINE_KEYS * LINE_SIZE

  /** An index line with a number to give out. */
  predicate HasZero(line: seq<nat>) { exists i | 0 <= i < |line| :: line[i] == 0 }

  /** VOLFLAG_HAS_FREE tells of the line on the log whether it has a number to give out. */
  ghost predicate FlagOk(c: seq<Cell>, at: nat, lineKey: nat, hasFree: bool) {
    LineAt(c, at, lineKey) && (hasFree <==> HasZero(c[at].payload.entries))
  }

  /** Everything the master index of a commit record refers to is in `c`. */
  ghost predicate MixOk(c: seq<Cell>, mix: seq<MasterEntry>) {
    && UniqueLines(mix)
    && (forall e | e in mix :: e.lineOffset != 0 && e.lineKey < LINE_KEYS && LineAt(c, e.lineOffset, e.lineKey))
    && (forall e | e in mix :: FlagOk(c, e.lineOffset, e.lineKey, e.hasFree))
  }

  ghost predicate DiffsOk(diffs: seq<Diff>) {
    && |diffs| <= MAX_DIFFS
    && UniqueDiffs(diffs)
    && forall d | d in diffs :: d.recnum < MAX_RECNUM
  }

  /** A commit record whose index can be read back from `c`. */
  ghost predicate CrOk(c: seq<Cell>, cr: CommitRecord) {
    && cr.mixOffset != 0
    && MasterAt(c, cr.mixOffset)
    && |MasterOf(c, cr.mixOffset)| == cr.mixCnt
    && MixOk(c, MasterOf(c, cr.mixOffset))
    && DiffsOk(cr.diffs)
  }

  /** Every live locator of a commit record names a data record of that number. */
  ghost predicate DataOk(c: seq<Cell>, cr: CommitRecord) {
    forall k: nat | DiskValue(c, cr, k) != 0 :: DataAt(c, DiskValue(c, cr, k), k)
  }

  // ------------------------------------------------------------------ appending preserves meaning

  lemma DiskValueStable(a: seq<Cell>, b: seq<Cell>, cr: CommitRecord, key: nat)
    requires a <= b && CrOk(a, cr)
    ensures DiskValue(b, cr, key) == DiskValue(a, cr, key)
  {
    var mix := MasterOf(a, cr.mixOffset);
    assert MasterOf(b, cr.mixOffset) == mix;
    if HasLine(mix, key / LINE_SIZE) {
      var e :| e in mix && e.lineKey == key / LINE_SIZE && e.lineOffset == LineOffset(mix, key / LINE_SIZE);
      assert LineAt(a, e.lineOffset, e.lineKey);
    }
  }

  lemma CrOkStable(a: seq<Cell>, b: seq<Cell>, cr: CommitRecord)
    requires a <= b && CrOk(a, cr)
    ensures CrOk(b, cr)
  {
    assert MasterOf(b, cr.mixOffset) == MasterOf(a, cr.mixOffset);
  }

  lemma DataOkStable(a: seq<Cell>, b: seq<Cell>, cr: CommitRecord)
    requires a <= b && CrOk(a, cr) && DataOk(a, cr)
    ensures DataOk(b, cr)
  {
    forall k: nat | DiskValue(b, cr, k) != 0 ensures DataAt(b, DiskValue(b, cr, k), k) {
      DiskValueStable(a, b, cr, k);
    }
  }

  /** Whatever is appended to the log, a commit record keeps yielding the same bytes. */
  lemma DiskRecordStable(a: seq<Cell>, b: seq<Cell>, cr: CommitRecord, key: nat)
    requires a <= b && CrOk(a, cr) && DataOk(a, cr)
    ensures DiskRecord(b, cr, key) == DiskRecord(a, cr, key)
  {
    DiskValueStable(a, b, cr, key);
    if DiskValue(a, cr, key) != 0 {
      assert DataAt(a, DiskValue(a, cr, key), key);
    }
  }

  lemma DiffValueIs(diffs: seq<Diff>, i: nat)
    requires UniqueDiffs(diffs) && i < |diffs|
    ensures HasDiff(diffs, diffs[i].recnum) && DiffValue(diffs, diffs[i].recnum) == diffs[i].offset
  {
    assert diffs[i] in diffs;
  }
}
