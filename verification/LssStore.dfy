/** The version 3 log-structured store (packages/lss/lssv3.c) on one volume, with the null
    compressor.  An operation reports where the C code does not get through: BadRead and a commit that
    is not `ok` where an assertion stops it, and `ended` is false where a probe loops for ever.  The
    assertions of the free map, which change nothing here, are reported as `tripped`.  */
module LssStore {
  import opened Options
  import opened LssFormat
  import opened LssLog
  import opened LssIndex
  import opened LssState
  import opened FreeMaps

  datatype Outcome = Done | Lost | BadRead

  const ZERO_CR: CommitRecord := CommitRecord(0, 0, 0, 0, 0, [], NoBookmarks())

  function NoBookmarks(): (b: seq<nat>)
    ensures |b| == NUM_BOOKMARKS && forall x | x in b :: x == 0
  {
    seq(NUM_BOOKMARKS, _ => 0)
  }

  /** What the commit records on a volume yield. */
  ghost function HistoryOf(volume: seq<Cell>): (h: map<nat, Contents>)
    ensures HistOk(volume, h)
  {
    hide DiskRecord;
    map p: nat | p < |volume| && CommitAt(volume, p) :: YieldOf(volume, CrAt(volume, p))
  }

  ghost function YieldOf(volume: seq<Cell>, cr: CommitRecord): Contents {
    (k: nat) => DiskRecord(volume, cr, k)
  }

  /** How a probe ends: at the line, at a free slot, or not at all. */
  datatype ProbeEnd = Found | Empty | Never

  class Lss {
    const hash: nat -> nat
    const log: LogFile
    const fm: FreeMap
    var slots: seq<Slot>
    var cr: CommitRecord
    /** What every commit record on the volume yielded when it was written. */
    ghost var hist: map<nat, Contents>

    /** What every index operation relies on and keeps, for a view `c` of the log: `n` lines. */
    ghost predicate Indexed(n: nat, c: seq<Cell>)
      reads this, log, fm
    {
      && log.file <= c
      && fm.Valid()
      && |slots| > 0
      && IndexOk(hash, slots, n, c, |log.file|)
      && FreeOk(fm.entries, slots, c)
    }

    /** What every operation keeps. */
    ghost predicate Settled()
      reads this, log, fm
    {
      && log.Valid() && log.open.None? && HasHeader(log.Log())
      && GoodCommits(log.file) && HistOk(log.file, hist)
      && Anchored(log.file, cr)
      && Indexed(CountUsed(slots), log.Log())
      && LiveOk(slots, log.Log())
    }

    /** Also, the logged index of the in-memory commit record can be committed and reloaded, though
        after a rewind that failed it need not be the index in memory. */
    ghost predicate Sound()
      reads this, log, fm
    {
      Settled() && (cr.mixOffset != 0 ==> CrOk(log.file, cr) && DataOk(log.Log(), cr))
    }

    /** The commit record counts the lines of the index, which leaves a slot free. */
    ghost predicate Counted()
      reads this
    {
      cr.mixCnt == CountUsed(slots) && HasRoom(slots)
    }

    /** The index and the commit record belong together. */
    ghost predicate Valid()
      reads this, log, fm
    {
      Sound() && Counted() && CrView(log.file, cr, slots, log.Log())
    }

    /** Whether a probe for this line ends: the C loop goes round for ever in a full table that does
        not have the line. */
    ghost predicate Ends(lineKey: nat)
      reads this
    {
      FindLine(slots, lineKey).Some? || HasRoom(slots)
    }

    /** Every number without a record is free, but for the lines still on the volume. */
    ghost predicate Exact()
      reads this, log, fm
    {
      FreeExact(fm.entries, slots, log.Log())
    }

    /** The bytes a client reads for a record number. */
    ghost function Live(k: nat): Option<Bytes>
      reads this, log
    {
      LiveRecord(slots, log.Log(), k)
    }

    /** The bytes a commit made now would record. */
    ghost function Pending(k: nat): Option<Bytes>
      reads this, log
    {
      if cr.mixOffset != 0 then DiskRecord(log.Log(), cr, k) else Live(k)
    }

    lemma ValidIsLive()
      requires Valid()
      ensures forall k: nat :: Pending(k) == Live(k)
    {
      if cr.mixOffset != 0 { ViewIsLive(log.file, cr, slots, log.Log()); }
    }

    lemma VolumeBlocks()
      requires log.Valid()
      ensures EofBlocks(log.file)
    {
      hide EofBlocks;
      assert FileOk(log.file) by { LogIsFile(log.file, log.bufs, log.open); }
    }

    lemma NoRecordNoLocator(k: nat)
      requires Sound() && Live(k) == None
      ensures Locator(k) == 0
    {
      hide LogOk, IndexOk, FreeOk, Value, GoodCommits, HistOk, Anchored, CrOk, DataOk;
      assert Locator(k) != 0 ==> DataAt(log.Log(), Locator(k), k);
    }

    ghost function Locator(k: nat): nat
      reads this, log
    {
      Value(slots, log.Log(), k)
    }

    // ---------------------------------------------------------------- creation

    /** lssv3_create: the volume header waits in the output buffer. */
    constructor Create(hash: nat -> nat)
      ensures Valid() && fresh(log) && fresh(fm)
      ensures forall k: nat :: Live(k) == None
      ensures hist == map[] && cr.generation == FIRST_GENERATION - 1 && cr.selfAt == 0 && cr.mixOffset == 0 && cr.mixCnt == 0
      ensures fm.entries == [Interval(0, MAX_KEY)] && |slots| == CAPS[0] && forall e | e in slots :: !Used(e)
      ensures Exact()
    {
      this.hash := hash;
      var l := new LogFile([]);
      var f := new FreeMap();
      log := l;
      fm := f;
      slots := EmptyTable(CAPS[0]);
      cr := ZERO_CR.(generation := FIRST_GENERATION - 1);
      hist := map[];
      new;
      hide LogOk, IndexOk, FreeOk, CrView, HistOk, LiveOk, GoodCommits, Anchored, LiveRecord, EmptyTable;
      log.WriteHeader();
      EmptyStore(hash, slots, cr, log.Log());
      EmptyExact(slots, log.Log());
    }

    // ---------------------------------------------------------------- the index

    /** lssi_get_line: faults the line of slot h in, releasing its unused numbers.  They were held
        back, so no assertion of the free map trips. */
    method GetLine(h: nat, ghost n: nat, ghost c: seq<Cell>) returns (used: bool, tripped: bool)
      requires Indexed(n, c) && h < |slots|
      modifies this`slots, fm
      ensures Indexed(n, c) && SameIndex(old(slots), slots, c) && !tripped
      ensures h < |slots| && used == Used(slots[h]) && (used ==> slots[h].mem.Some?)
      ensures old(AllLoaded(slots)) ==> slots == old(slots) && fm.entries == old(fm.entries)
      ensures slots == old(slots)[h := slots[h]] && slots[h] == old(slots[h]).(mem := slots[h].mem)
      ensures !used || old(slots[h].mem.Some?) ==> slots == old(slots)
      ensures Released(old(fm.entries), fm.entries, old(slots), slots, c)
    {
      var e := slots[h];
      assert e in slots;
      if e.mem.Some? {
        return true, false;
      } else if e.lineOffset != 0 {
        assert SlotOk(e, c, |log.file|);
        var line := log.file[e.lineOffset].payload.entries;
        ghost var was, free := slots, fm.entries;
        slots := slots[h := e.(mem := Some(line))];
        LoadKeepsIndex(hash, was, slots, n, c, |log.file|, h);
        assert e in was;
        tripped := ReleaseLine(e.lineKey, line);
        LoadKeepsFree(free, fm.entries, was, slots, c, h);
        LoadReleases(free, fm.entries, was, slots, c, h, line);
        return true, tripped;
      } else {
        return false, false;
      }
    }

    /** The scan in lssi_get_line for record numbers to mark free. */
    method ReleaseLine(lineKey: nat, line: seq<nat>) returns (tripped: bool)
      requires fm.Valid() && Free(fm.entries, MAX_KEY) && lineKey < LINE_KEYS && |line| == LINE_SIZE
      requires forall k: nat | k / LINE_SIZE == lineKey :: !Free(fm.entries, k)
      modifies fm
      ensures fm.Valid() && Free(fm.entries, MAX_KEY) && !tripped
      ensures forall k: nat :: Free(fm.entries, k) <==>
        old(Free(fm.entries, k)) || (k / LINE_SIZE == lineKey && line[k % LINE_SIZE] == 0)
    {
      var i := 0;
      tripped := false;
      while i < LINE_SIZE
        invariant 0 <= i <= LINE_SIZE && !tripped
        invariant fm.Valid() && Free(fm.entries, MAX_KEY)
        invariant forall k: nat :: Free(fm.entries, k) <==>
          old(Free(fm.entries, k)) || (k / LINE_SIZE == lineKey && k % LINE_SIZE < i && line[k % LINE_SIZE] == 0)
      {
        if line[i] == 0 {
          var key := lineKey * LINE_SIZE + i;
          TopEntry(fm.entries);
          var rc;
          rc, tripped := fm.Insert(key);
        }
        i := i + 1;
      }
    }

    /** The probe loop shared by lssi_index_store and lssi_index_load.  Where it has gone all the way
        round the C loop never ends; here it gives up. */
    method Probe(lineKey: nat, ghost n: nat, ghost c: seq<Cell>) returns (h: nat, end: ProbeEnd)
      requires Indexed(n, c)
      modifies this`slots, fm
      ensures Indexed(n, c) && h < |slots| && SameIndex(old(slots), slots, c)
      ensures end == Found <==> FindLine(slots, lineKey).Some?
      ensures end == Found ==> Used(slots[h]) && slots[h].lineKey == lineKey && slots[h].mem.Some?
      ensures end == Empty ==> !Used(slots[h]) && n < |slots| && Passed(hash, slots, lineKey, h)
      ensures end == Never ==> n == |slots|
      ensures old(AllLoaded(slots)) ==> slots == old(slots) && fm.entries == old(fm.entries)
      ensures Released(old(fm.entries), fm.entries, old(slots), slots, c)
    {
      hide Released;
      var cap := |slots|;
      h := Home(hash, lineKey, cap);
      SameIndexSelf(slots, c);
      ReleasedSelf(fm.entries, slots, c);
      while true
        invariant |slots| == cap > 0 && h < cap && Indexed(n, c) && SameIndex(old(slots), slots, c)
        invariant Passed(hash, slots, lineKey, h)
        invariant old(AllLoaded(slots)) ==> slots == old(slots) && fm.entries == old(fm.entries)
        invariant Released(old(fm.entries), fm.entries, old(slots), slots, c)
        decreases Steps(h, LastProbed(hash, lineKey, cap), cap)
      {
        ghost var was, free := slots, fm.entries;
        var used, tripped := GetLine(h, n, c);
        ReleasedTrans(old(fm.entries), free, fm.entries, old(slots), was, slots, c);
        SameIndexTrans(old(slots), was, slots, c);
        if !used {
          NotInTable(hash, slots, lineKey, h);
          CountBound(slots);
          return h, Empty;
        }
        if slots[h].lineKey == lineKey {
          FindLineIs(slots, h);
          return h, Found;
        }
        if h == LastProbed(hash, lineKey, cap) {
          ProbedAll(hash, was, slots, lineKey);
          return h, Never;
        }
        ProbeStep(hash, was, slots, lineKey, h);
        h := Next(h, cap);
      }
    }

    /** Loading lines keeps the store as it is. */
    twostate lemma OnlyLoaded()
      requires old(Sound()) && log.Log() == old(log.Log()) && log.file == old(log.file) && hist == old(hist) && cr == old(cr)
      requires log.Valid() && log.open == old(log.open)
      requires Indexed(old(CountUsed(slots)), log.Log()) && SameIndex(old(slots), slots, log.Log())
      ensures Sound() && (old(Valid()) ==> Valid())
      ensures forall k: nat :: Live(k) == old(Live(k))
    {
      hide HistOk, GoodCommits, Anchored, LogOk, FreeOk, CrOk, DataOk, UniqueKeys, ProbeOk, SlotsOk, LiveRecord, Value;
      SameLiveIndex(old(slots), slots, log.Log());
      if old(Valid()) { SameIndexKeeps(log.file, cr, old(slots), slots, log.Log()); }
    }

    /** lssi_index_load; `ended` is false where it loops for ever. */
    method IndexLoad(key: nat) returns (at: nat, ended: bool)
      requires Sound()
      modifies this`slots, fm
      ensures Sound() && (old(Valid()) ==> Valid())
      ensures SameIndex(old(slots), slots, log.Log())
      ensures Released(old(fm.entries), fm.entries, old(slots), slots, log.Log())
      ensures ended <==> Ends(key / LINE_SIZE)
      ensures ended ==> at == Locator(key)
    {
      hide Released, HistOk, GoodCommits, Anchored, LogOk, FreeOk, CrOk, DataOk, LiveOk, CrView, ProbeOk, Home, CountUsed;
      ghost var c := log.Log();
      var h, end := Probe(key / LINE_SIZE, CountUsed(slots), c);
      OnlyLoaded();
      ended := end != Never;
      if end == Found {
        FindLineIs(slots, h);
        at := slots[h].mem.value[key % LINE_SIZE];
      } else {
        at := 0;
      }
    }

    /** lssi_grow_index: a larger table with the same lines; the volume's index is now stale. */
    method GrowIndex(ghost n: nat, ghost c: seq<Cell>)
      requires Indexed(n, c)
      modifies this`slots, this`cr
      ensures Indexed(n, c) && |slots| > old(|slots|) && HasRoom(slots)
      ensures SameValues(old(slots), slots, c) && SameFound(old(slots), slots)
      ensures old(AllLoaded(slots)) ==> AllLoaded(slots)
      ensures cr == old(cr).(mixOffset := 0, diffs := []) && SameUnloaded(old(slots), slots)
    {
      var newCap := NextHigherCapacity(|slots|);
      ghost var was := slots;
      slots := Rehash(hash, slots, n, newCap);
      RehashKeeps(was, slots, c, |log.file|);
      SameLinesFree(fm.entries, was, slots, c);
      SameLinesUnloaded(was, slots);
      cr := cr.(mixOffset := 0, diffs := []);
    }

    /** lssi_index_store.  `free` is the free map once the probe has loaded lines, and `tripped` the
        assertion of fmapInsert. */
    method IndexStore(key: nat, value: nat, ghost n: nat, ghost c: seq<Cell>)
        returns (ended: bool, tripped: bool, ghost free: seq<Interval>)
      requires Indexed(n, c) && key < MAX_RECNUM
      modifies this`slots, this`cr, fm
      ensures ended <==> old(Ends(key / LINE_SIZE))
      ensures !ended ==> Indexed(n, c) && SameIndex(old(slots), slots, c) && cr == old(cr) && !Ends(key / LINE_SIZE)
      // only a new line changes the commit record: it makes the volume's index stale
      ensures ended ==> var added := value != 0 && old(FindLine(slots, key / LINE_SIZE)) == None;
        && Indexed(if added then n + 1 else n, c)
        && LinesAfter(old(slots), slots, key / LINE_SIZE, added)
        && cr == if added then old(cr).(mixOffset := 0, diffs := [], mixCnt := old(cr.mixCnt) + 1) else old(cr)
      ensures ended ==> Stored(old(slots), slots, c, key, value)
      ensures ended && old(Counted()) ==> Counted()
      ensures tripped <==> ended && value == 0 && |free| == 1 && Free(free, key)
      ensures old(AllLoaded(slots)) ==> free == old(fm.entries)
      ensures Released(old(fm.entries), free, old(slots), slots, c)
      ensures if ended then FreeAfter(old(fm.entries), fm.entries, old(slots), slots, c, key, value) else fm.entries == free
      ensures old(cr.mixCnt) < MaxFill(old(|slots|)) ==> |slots| == old(|slots|)
      decreases if 2 * cr.mixCnt + 2 >= |slots| then 2 * cr.mixCnt + 3 - |slots| else 0
    {
      hide SlotsOk, UniqueKeys, ProbeOk, Value, FindLine, Stored, LinesAfter, SameFound, SameValues, FreeOk, AllLoaded, Passed;
      hide Released, FreeAfter, Unloaded, SameUnloaded;
      ghost var was, was0 := slots, fm.entries;
      var h, end := Probe(key / LINE_SIZE, n, c);
      SameShapeFound(was, slots);
      SameFoundAt(was, slots, key / LINE_SIZE);
      ghost var a := slots;
      free := fm.entries;
      if end == Never {
        return false, false, free;
      }
      if end == Empty {
        if value == 0 {
          // a deletion: no need to allocate a line
          NothingStored(was, a, c, key);
          tripped := UpdateFree(key, value, a, c);
          NoLineUnloaded(a, key);
          StoreFree(was0, free, fm.entries, was, a, slots, c, key, value);
          return true, tripped, free;
        }
        if cr.mixCnt >= MaxFill(|slots|) {
          GrowIndex(n, c);
          GrownThrough(was, a, slots, c);
          SameFoundAt(was, slots, key / LINE_SIZE);
          ghost var grown, free1 := slots, fm.entries;
          ended, tripped, free := IndexStore(key, value, n, c);
          StoreThrough(was, grown, slots, c, key, value, true);
          StoreFreeThrough(was0, free1, free, fm.entries, was, a, grown, slots, c, key, value);
          return;
        }
        StoreNew(h, key, value, n, c);
        StoreThrough(was, a, slots, c, key, value, true);
      } else {
        StoreFound(h, key, value, n, c);
        StoreThrough(was, a, slots, c, key, value, false);
      }
      tripped := UpdateFree(key, value, a, c);
      StoreFree(was0, free, fm.entries, was, a, slots, c, key, value);
      ended := true;
    }

    /** A new line at the free slot h, with one record. */
    method StoreNew(h: nat, key: nat, value: nat, ghost n: nat, ghost c: seq<Cell>)
      requires Indexed(n, c) && key < MAX_RECNUM && h < |slots| && !Used(slots[h]) && value != 0
      requires FindLine(slots, key / LINE_SIZE) == None && Passed(hash, slots, key / LINE_SIZE, h)
      modifies this`slots, this`cr
      ensures IndexOk(hash, slots, n + 1, c, |log.file|) && |slots| == old(|slots|)
      ensures Stored(old(slots), slots, c, key, value) && LinesAfter(old(slots), slots, key / LINE_SIZE, true)
      ensures cr == old(cr).(mixOffset := 0, diffs := [], mixCnt := old(cr.mixCnt) + 1)
      ensures forall e | Used(e) && e.mem.None? && e in slots :: e in old(slots) && e.lineKey != key / LINE_SIZE
      ensures SameUnloaded(old(slots), slots) && !Unloaded(slots, key / LINE_SIZE)
    {
      ghost var a := slots;
      var line := seq(LINE_SIZE, i requires 0 <= i < LINE_SIZE => if i == key % LINE_SIZE then value else 0);
      var e := Slot(key / LINE_SIZE, 0, false, Some(line));
      StoreInNewLine(hash, a, n, c, |log.file|, h, key, value, e);
      slots := slots[h := e];
      cr := cr.(mixCnt := cr.mixCnt + 1, mixOffset := 0, diffs := []);
      UnloadedKept(a, h, e);
      UnloadedSame(a, h, e);
      AddedFound(a, h, e);
    }

    /** The record in the line at slot h. */
    method StoreFound(h: nat, key: nat, value: nat, ghost n: nat, ghost c: seq<Cell>)
      requires Indexed(n, c) && h < |slots| && Used(slots[h]) && slots[h].lineKey == key / LINE_SIZE && slots[h].mem.Some?
      modifies this`slots
      ensures IndexOk(hash, slots, n, c, |log.file|) && |slots| == old(|slots|)
      ensures Stored(old(slots), slots, c, key, value) && LinesAfter(old(slots), slots, key / LINE_SIZE, false)
      ensures forall e | Used(e) && e.mem.None? && e in slots :: e in old(slots) && e.lineKey != key / LINE_SIZE
      ensures SameUnloaded(old(slots), slots) && !Unloaded(slots, key / LINE_SIZE)
    {
      ghost var a := slots;
      FindLineIs(a, h);
      assert SlotOk(a[h], c, |log.file|);
      var line := slots[h].mem.value[key % LINE_SIZE := value];
      var e := Slot(slots[h].lineKey, 0, false, Some(line));
      StoreInLine(hash, a, n, c, |log.file|, h, key, value, e);
      slots := slots[h := e];
      UnloadedKept(a, h, e);
      UnloadedSame(a, h, e);
      RewriteFound(a, h, e);
    }

    /** The end of lssi_index_store: the number becomes free or stops being free. */
    method UpdateFree(key: nat, value: nat, ghost a: seq<Slot>, ghost c: seq<Cell>) returns (tripped: bool)
      requires fm.Valid() && FreeOk(fm.entries, a, c) && Stored(a, slots, c, key, value) && key < MAX_RECNUM
      requires forall e | Used(e) && e.mem.None? && e in slots :: e in a && e.lineKey != key / LINE_SIZE
      modifies fm
      ensures fm.Valid() && FreeOk(fm.entries, slots, c)
      ensures tripped <==> value == 0 && old(|fm.entries| == 1 && Free(fm.entries, key))
      ensures forall k: nat :: Free(fm.entries, k) <==> if k == key then value == 0 else old(Free(fm.entries, k))
    {
      ghost var free := fm.entries;
      TopEntry(free);
      var rc;
      if value == 0 {
        rc, tripped := fm.Insert(key);
      } else {
        rc, tripped := fm.Delete(key);
      }
      StoreKeepsFree(free, fm.entries, a, slots, c, key, value);
    }

    /** lssi_diff_store. */
    method DiffStore(key: nat, value: nat)
      modifies this`cr
      ensures DiffStored(old(cr), cr, key, value)
    {
      if cr.mixOffset == 0 {
        return;
      }
      if |cr.diffs| >= MAX_DIFFS {
        cr := cr.(mixOffset := 0, diffs := []);
        return;
      }
      var i := 0;
      while i < |cr.diffs|
        invariant 0 <= i <= |cr.diffs| && cr == old(cr)
        invariant forall j | 0 <= j < i :: cr.diffs[j].recnum != key
      {
        if cr.diffs[i].recnum == key {
          DiffReplaced(cr.diffs, i, key, value);
          cr := cr.(diffs := cr.diffs[i := Diff(key, value)]);
          return;
        }
        i := i + 1;
      }
      DiffAppended(cr.diffs, key, value);
      cr := cr.(diffs := cr.diffs + [Diff(key, value)]);
    }

    /** The two stores of a write or a delete, for a view `c` of the log. */
    method StoreBoth(key: nat, value: nat, ghost n: nat, ghost c: seq<Cell>)
        returns (ended: bool, tripped: bool, ghost free: seq<Interval>)
      requires Indexed(n, c) && key < MAX_RECNUM
      modifies this`slots, this`cr, fm
      ensures ended <==> old(Ends(key / LINE_SIZE))
      ensures !ended ==> Indexed(n, c) && SameIndex(old(slots), slots, c) && cr == old(cr) && !Ends(key / LINE_SIZE)
      ensures ended ==> var added := value != 0 && old(FindLine(slots, key / LINE_SIZE)) == None;
        && Indexed(if added then n + 1 else n, c)
        && LinesAfter(old(slots), slots, key / LINE_SIZE, added)
        && CrStored(old(cr), cr, added, key, value)
      ensures ended ==> Stored(old(slots), slots, c, key, value)
      ensures ended && old(Counted()) ==> Counted()
      ensures ended && old(CrView(log.file, cr, slots, c)) ==> CrView(log.file, cr, slots, c)
      ensures tripped <==> ended && value == 0 && |free| == 1 && Free(free, key)
      ensures old(AllLoaded(slots)) ==> free == old(fm.entries)
      ensures Released(old(fm.entries), free, old(slots), slots, c)
      ensures if ended then FreeAfter(old(fm.entries), fm.entries, old(slots), slots, c, key, value) else fm.entries == free
      ensures old(cr.mixCnt) < MaxFill(old(|slots|)) ==> |slots| == old(|slots|)
    {
      hide IndexOk, FreeOk, CrView, Stored, LinesAfter, DiffUpdated, Released, FreeAfter;
      ghost var was, cr0 := slots, cr;
      ended, tripped, free := IndexStore(key, value, n, c);
      if !ended {
        return;
      }
      DiffStore(key, value);
      ghost var added := value != 0 && FindLine(was, key / LINE_SIZE) == None;
      if CrView(log.file, cr0, was, c) { ViewAfterStore(log.file, cr0, cr, was, slots, c, added, key, value); }
    }

    // ---------------------------------------------------------------- the client operations

    /** The store while a record is being written behind the log `x`. */
    ghost predicate Writing(n: nat, x: seq<Cell>)
      reads this, log, fm
    {
      && log.Valid() && log.open.Some? && log.OpenAt() == |x| && x <= log.Log() && HasHeader(x)
      && GoodCommits(log.file) && HistOk(log.file, hist)
      && Anchored(log.file, cr)
      && Indexed(n, x)
    }

    /** lssi_write_alloc as the store sees it: room for a data record at the end of the log. */
    method BeginWrite(recnum: nat, space: nat) returns (at: nat)
      requires Sound()
      modifies log
      ensures at + Granules(space + HEADER_BYTES) == |log.Log()| && at < |log.Log()| && Writing(CountUsed(slots), log.Log()[..at])
      ensures 0 < old(|log.Log()|) <= at && old(log.Log()) <= log.Log()[..at] && old(log.file) <= log.file
      ensures forall k: nat :: Value(slots, log.Log()[..at], k) == old(Locator(k))
      ensures old(CrView(log.file, cr, slots, log.Log())) ==> CrView(log.file, cr, slots, log.Log()[..at])
    {
      hide GoodCommits, HistOk, Anchored, CrView, IndexOk, FreeOk, LiveOk, CrOk, DataOk;
      ghost var c0, f0, n := log.Log(), log.file, CountUsed(slots);
      at := log.WriteAlloc(space, Data(recnum, []));
      ghost var x := log.Log()[..at];
      IndexExtends(hash, slots, n, c0, x, |f0|, |log.file|);
      FreeExtends(fm.entries, slots, c0, x);
      if CrView(f0, cr, slots, c0) { ViewExtends(f0, log.file, cr, slots, c0, x); }
      HistSurvivesData(f0, log.file, hist);
      AnchoredExtends(f0, log.file, cr, cr);
    }

    /** lssi_write_done_z as the store sees it. */
    method EndWrite(recnum: nat, data: Bytes, ghost n: nat, ghost x: seq<Cell>)
      requires Writing(n, x) && |x| + Granules(|data| + HEADER_BYTES) <= |log.Log()|
      modifies log
      ensures log.Valid() && log.open.None? && log.file == old(log.file) && HasHeader(log.Log())
      ensures Indexed(n, log.Log())
      ensures x <= log.Log() && DataAt(log.Log(), |x|, recnum) && log.Log()[|x|].payload.bytes == data
      ensures forall k: nat :: Locator(k) == Value(slots, x, k)
      ensures CrView(log.file, cr, slots, x) ==> CrView(log.file, cr, slots, log.Log())
    {
      log.WriteDone(|data|, Data(recnum, data));
      IndexExtends(hash, slots, n, x, log.Log(), |log.file|, |log.file|);
      FreeExtends(fm.entries, slots, x, log.Log());
      if CrView(log.file, cr, slots, x) { ViewExtends(log.file, log.file, cr, slots, x, log.Log()); }
    }

    /** lssi_writev: the record reads back as written, and no other record changes.  `ended` is false
        where the probe loops for ever; no assertion of the free map trips. */
    method Write(recnum: nat, data: Bytes) returns (ended: bool, tripped: bool, at: nat)
      requires Sound() && recnum < MAX_RECNUM
      modifies this`slots, this`cr, log, fm
      ensures ended <==> old(Ends(recnum / LINE_SIZE))
      ensures !tripped
      ensures old(log.file) <= log.file && GoodCommits(log.file) && HistOk(log.file, hist)
      ensures !ended ==> cr == old(cr) && forall k: nat :: Live(k) == old(Live(k)) && Pending(k) == old(Pending(k))
      ensures !ended ==> SameFound(old(slots), slots) && !Ends(recnum / LINE_SIZE)
      ensures ended ==> Sound() && (old(Valid()) ==> Valid())
      ensures ended ==> forall k: nat :: Live(k) == if k == recnum then Some(data) else old(Live(k))
      // the index gets the line, and the commit record what the diff list has room for
      ensures ended ==> var added := old(FindLine(slots, recnum / LINE_SIZE)) == None;
        && LinesAfter(old(slots), slots, recnum / LINE_SIZE, added)
        && at != 0 && CrStored(old(cr), cr, added, recnum, at)
      ensures ended && cr.mixOffset != 0 ==> forall k: nat :: Pending(k) == if k == recnum then Some(data) else old(Pending(k))
      ensures ended ==> FreeAfter(old(fm.entries), fm.entries, old(slots), slots, old(log.Log()), recnum, at)
      ensures ended && old(Exact()) ==> Exact()
      ensures old(cr.mixCnt) < MaxFill(old(|slots|)) ==> |slots| == old(|slots|)
    {
      hide HistOk, GoodCommits, IndexOk, FreeOk, LiveOk, CrView, Anchored, LiveRecord, Value, CrOk, DataOk, DiskRecord, FindLine;
      hide LogOk, DiffUpdated, FreeAfter, FreeExact;
      ghost var c0, s0, cr0, f0, n, free0 := log.Log(), slots, cr, log.file, CountUsed(slots), fm.entries;
      at := BeginWrite(recnum, 2 * |data| + 100);
      ghost var x := log.Log()[..at];
      ghost var free;
      ended, tripped, free := StoreBoth(recnum, at, n, x);
      if !ended {
        LiveThrough(hash, s0, slots, n, c0, x, log.Log(), |log.file|);
        SameShapeFound(s0, slots);
        if cr.mixOffset != 0 { DescribedExtends(f0, log.file, c0, log.Log(), cr); }
        return;
      }
      ghost var added := FindLine(s0, recnum / LINE_SIZE) == None;
      ghost var n2 := if added then n + 1 else n;
      AnchoredExtends(log.file, log.file, cr0, cr);
      EndWrite(recnum, data, n2, x);
      LiveAfterWrite(s0, slots, c0, x, log.Log(), recnum, at, data);
      LinesCounted(hash, slots, n2, log.Log(), |log.file|);
      WrittenFree(free0, fm.entries, s0, slots, c0, x, log.Log(), recnum, at);
      if cr.mixOffset != 0 {
        DescribedAfterStore(f0, log.file, c0, log.Log(), cr0, cr, recnum, at);
        DataBytes(log.Log(), at, recnum, data);
      }
    }

    /** lssi_delete.  `tripped` is the assertion of fmapInsert: the number has no record and the free
        map, once the probe has loaded lines, is one interval. */
    method Delete(recnum: nat) returns (ended: bool, tripped: bool, ghost free: seq<Interval>)
      requires Sound() && recnum < MAX_RECNUM
      modifies this`slots, this`cr, fm
      ensures ended <==> old(Ends(recnum / LINE_SIZE))
      ensures !ended ==> cr == old(cr) && SameFound(old(slots), slots) && !Ends(recnum / LINE_SIZE)
      ensures !ended ==> forall k: nat :: Live(k) == old(Live(k)) && Pending(k) == old(Pending(k))
      ensures Sound() && (old(Valid()) ==> Valid())
      ensures ended ==> forall k: nat :: Live(k) == if k == recnum then None else old(Live(k))
      ensures ended ==> LinesAfter(old(slots), slots, recnum / LINE_SIZE, false) && CrStored(old(cr), cr, false, recnum, 0)
      ensures ended && cr.mixOffset != 0 ==> forall k: nat :: Pending(k) == if k == recnum then None else old(Pending(k))
      ensures tripped <==> ended && |free| == 1 && Free(free, recnum)
      ensures old(AllLoaded(slots)) ==> free == old(fm.entries)
      ensures Released(old(fm.entries), free, old(slots), slots, log.Log())
      ensures if ended then FreeAfter(old(fm.entries), fm.entries, old(slots), slots, log.Log(), recnum, 0) else fm.entries == free
      ensures old(Exact()) ==> Exact()
    {
      hide HistOk, GoodCommits, IndexOk, FreeOk, LiveOk, CrView, Anchored, LiveRecord, Value, CrOk, DataOk, DiskRecord, FindLine;
      hide LogOk, DiffUpdated, FreeAfter, FreeExact, Released;
      ghost var s0, cr0, n, c, free0 := slots, cr, CountUsed(slots), log.Log(), fm.entries;
      ended, tripped, free := StoreBoth(recnum, 0, n, c);
      LinesCounted(hash, slots, n, c, |log.file|);
      if !ended {
        OnlyLoaded();
        SameShapeFound(s0, slots);
        if old(Exact()) { ExactReleased(free0, fm.entries, s0, slots, c); }
        return;
      }
      if old(Exact()) { ExactStored(free0, fm.entries, s0, slots, c, recnum, 0); }
      AnchoredExtends(log.file, log.file, cr0, cr);
      LiveAfterDelete(s0, slots, c, recnum);
      if cr.mixOffset != 0 {
        DescribedAfterStore(log.file, log.file, c, c, cr0, cr, recnum, 0);
        NoBytes(c);
      }
    }

    /** lssi_read_access: the locator from the index, then the bytes from buffers or volume. */
    method Read(recnum: nat) returns (r: Option<Bytes>, ended: bool)
      requires Sound()
      modifies this`slots, fm
      ensures Sound() && (old(Valid()) ==> Valid())
      ensures forall k: nat :: Live(k) == old(Live(k))
      ensures ended <==> Ends(recnum / LINE_SIZE)
      ensures ended ==> r == Live(recnum)
      ensures old(Exact()) ==> Exact()
    {
      hide FreeExact, Released, LogOk, GoodCommits, HistOk, Anchored, CrView, IndexOk, FreeOk, CrOk, DataOk, FindLine;
      ghost var s0, c := slots, log.Log();
      var at;
      at, ended := IndexLoad(recnum);
      SameRecords(s0, slots, c);
      if old(Exact()) { ExactReleased(old(fm.entries), fm.entries, s0, slots, c); }
      if !ended || at == 0 {
        return None, ended;
      }
      assert DataAt(log.Log(), Locator(recnum), recnum);
      var cell := log.ReadAt(at);
      r := Some(cell.payload.bytes);
    }

    /** The scan at the start of lssi_alloc_recs: lines that may have free numbers are loaded. */
    method LoadFreeLines(minr: nat)
      requires Sound()
      modifies this`slots, fm
      ensures Sound() && (old(Valid()) ==> Valid())
      ensures SameIndex(old(slots), slots, log.Log())
      // the lines from minr on that have an unused number are loaded, which frees those numbers and no others
      ensures forall lk: nat :: Unloaded(slots, lk) <==>
        old(Unloaded(slots, lk)) && (lk < minr / LINE_SIZE || old(FullLine(slots, log.Log(), lk)))
      ensures SearchMap(old(fm.entries), fm.entries, old(slots), log.Log(), minr)
    {
      hide HistOk, GoodCommits, Anchored, LogOk, FreeOk, CrOk, DataOk, LiveOk, CrView, IndexOk, CountUsed, SameValues, Released, Unloaded, SearchMap, FullLine;
      var i := 0;
      SameIndexSelf(slots, log.Log());
      ReleasedSelf(fm.entries, slots, log.Log());
      ghost var s0, c, n, free0 := slots, log.Log(), CountUsed(slots), fm.entries;
      while i < |slots|
        invariant 0 <= i <= |slots|
        invariant Indexed(n, c) && SameIndex(s0, slots, c) && WantedLoaded(s0, slots, minr, i)
        invariant Released(free0, fm.entries, s0, slots, c)
      {
        if slots[i].hasFree && slots[i].lineKey >= minr / LINE_SIZE && slots[i].lineOffset != 0 && slots[i].mem.None? {
          ghost var s1, free1 := slots, fm.entries;
          var used, tripped := GetLine(i, n, c);
          SameIndexTrans(s0, s1, slots, c);
          ReleasedTrans(free0, free1, fm.entries, s0, s1, slots, c);
        }
        i := i + 1;
      }
      TableParts(hash, s0, n, c, |log.file|);
      LinesLoaded(s0, slots, c, |log.file|, minr);
      SearchMapIs(free0, fm.entries, s0, slots, c, minr);
      OnlyLoaded();
    }

    /** lssi_alloc_recs: the numbers handed out have no record, and stop being free.  `free` is the
        free map once the lines that may have free numbers are loaded. */
    method AllocRecs(minr: nat, cnt: nat) returns (found: bool, rec: nat, ghost free: seq<Interval>)
      requires Sound() && minr < MAX_RECNUM && 1 <= cnt <= MAX_RECNUM - minr
      modifies this`slots, fm
      ensures forall k: nat :: Live(k) == old(Live(k)) && Locator(k) == old(Locator(k))
      ensures SameFound(old(slots), slots)
      ensures FreeOk(free, slots, log.Log())
      // the map searched: what was free, and the unused numbers of the lines from minr on that were not in memory
      ensures forall k: nat :: Free(free, k) <==>
        old(Free(fm.entries, k)) || (old(Unloaded(slots, k / LINE_SIZE)) && k / LINE_SIZE >= minr / LINE_SIZE && Locator(k) == 0)
      ensures old(Exact()) ==> forall k: nat | minr <= k <= MAX_KEY :: Free(free, k) <==> Locator(k) == 0
      ensures found <==> exists k: nat :: minr <= k && RunAt(free, k, cnt)
      ensures found ==> LowestRun(free, minr, cnt, rec) && forall i: nat | rec <= i < rec + cnt :: Locator(i) == 0
      // a run with the top key takes with it what keeps the free map sound
      ensures !found || rec + cnt <= MAX_KEY ==> Sound() && (old(Valid()) ==> Valid())
      ensures found && rec + cnt <= MAX_KEY ==> RangeTaken(free, rec, cnt, fm.entries)
    {
      hide LogOk, GoodCommits, HistOk, Anchored, CrView, IndexOk, LiveOk, Canonical, CrOk, DataOk, FreeExact, Value, Unloaded;
      LoadFreeLines(minr);
      SameShapeFound(old(slots), slots);
      free := fm.entries;
      if old(Exact()) { SearchMapExact(old(fm.entries), free, old(slots), log.Log(), minr); }
      var tripped;
      found, rec, tripped := fm.FindAndDeleteRange(minr, cnt);
      if found {
        TopEntry(free);
        if rec + cnt <= MAX_KEY {
          FreeShrinks(free, fm.entries, slots, log.Log(), rec, cnt);
        }
      }
    }

    // ---------------------------------------------------------------- commit

    /** lssi_write_out: logs a record that is not client data. */
    method Append(length: nat, payload: Payload) returns (at: nat)
      requires Settled() && !payload.Commit? && !payload.EndOfFile?
      modifies log
      ensures Settled() && old(log.Log()) <= log.Log() && old(log.file) <= log.file
      ensures 0 < at < |log.Log()| && log.Log()[at].Head? && log.Log()[at].payload == payload
      ensures SameLive(old(log.Log()))
    {
      hide GoodCommits, HistOk, Anchored, IndexOk, FreeOk, LiveOk;
      ghost var c0, f0 := log.Log(), log.file;
      at := log.WriteAlloc(length, payload);
      ghost var f1 := log.file;
      log.WriteDone(length, payload);
      assert c0 <= log.Log();
      SlotsExtend(hash, slots, fm.entries, c0, log.Log(), |f0|, |f1|);
      HistSurvivesData(f0, f1, hist);
      AnchoredExtends(f0, f1, cr, cr);
    }

    /** Compared with the log `c0`, no record has changed. */
    ghost predicate SameLive(c0: seq<Cell>)
      reads this, log
    {
      forall k: nat :: Value(slots, log.Log(), k) == Value(slots, c0, k) && LiveRecord(slots, log.Log(), k) == LiveRecord(slots, c0, k)
    }

    /** lssi_write_line: a dirty line goes to the log. */
    method WriteLine(h: nat)
      requires Settled() && h < |slots| && slots[h].mem.Some?
      modifies this`slots, log
      ensures Settled() && old(log.file) <= log.file
      ensures |slots| == old(|slots|) && slots[h].lineOffset != 0 && Used(slots[h])
      ensures slots == old(slots)[h := slots[h]]
      ensures CountUsed(slots) == old(CountUsed(slots)) && SameFound(old(slots), slots)
      ensures forall k: nat :: Live(k) == old(Live(k))
      ensures SameUnloaded(old(slots), slots) && forall k: nat :: Locator(k) == old(Locator(k))
    {
      hide HistOk, GoodCommits, FreeOk, LiveOk, Anchored, LiveRecord, Value, UniqueKeys, ProbeOk, FindLine, CountUsed, Unloaded, SameUnloaded;
      ghost var s0, n := slots, CountUsed(slots);
      assert SlotOk(slots[h], log.Log(), |log.file|);
      var line := slots[h].mem.value;
      var at := Append(LINE_BYTES, Line(slots[h].lineKey, line));
      var hasFree := HasZero(line);
      var e := slots[h].(lineOffset := at, hasFree := hasFree);
      LineWritten(hash, s0, n, log.Log(), |log.file|, h, e);
      WrittenKeepsFree(fm.entries, s0, s0[h := e], log.Log());
      SameValuesKeepLive(s0, s0[h := e], log.Log());
      UnloadedSame(s0, h, e);
      slots := slots[h := e];
    }

    /** Ready to be committed: the master index of the commit record is logged. */
    ghost predicate Staged()
      reads this, log, fm
    {
      Settled() && cr.mixOffset != 0 && CrOk(log.Log(), cr) && DataOk(log.Log(), cr)
    }

    /** What was logged is what the index says. */
    ghost predicate InStep()
      reads this, log
    {
      Counted() && CrView(log.Log(), cr, slots, log.Log())
    }

    lemma SoundIsStaged()
      requires Sound() && cr.mixOffset != 0
      ensures Staged() && (Valid() ==> InStep())
    {
      hide GoodCommits, HistOk, Anchored, LogOk, FreeOk, LiveOk;
      CrOkStable(log.file, log.Log(), cr);
      if Valid() { ViewExtends(log.file, log.Log(), cr, slots, log.Log(), log.Log()); }
    }

    /** lssi_flush_obufs as the store sees it. */
    method FlushData()
      requires Staged()
      modifies log
      ensures Staged() && (old(InStep()) ==> InStep()) && old(log.Log()) <= log.Log()
      ensures Flat(log.bufs) == [] && log.Log() == log.file && old(log.file) <= log.file
      ensures forall k: nat :: Live(k) == old(Live(k)) && Pending(k) == old(Pending(k)) && Locator(k) == old(Locator(k))
    {
      hide GoodCommits, HistOk, Anchored, LogOk, IndexOk, FreeOk, LiveOk, CrView, CrOk, DataOk, LiveRecord, Value, DiskRecord;
      ghost var c0, f0 := log.Log(), log.file;
      log.Flush();
      ghost var c := log.Log();
      assert c0 <= c;
      SlotsExtend(hash, slots, fm.entries, c0, c, |f0|, |c|);
      if old(InStep()) { ViewExtends(c0, c, cr, slots, c0, c); }
      HistSurvivesData(f0, log.file, hist);
      AnchoredExtends(f0, log.file, cr, cr);
      CrOkStable(c0, c, cr);
      DataOkStable(c0, c, cr);
      forall k: nat ensures DiskRecord(c, cr, k) == DiskRecord(c0, cr, k) { DiskRecordStable(c0, c, cr, k); }
    }

    /** lssi_write_cr as the store sees it: what the commit record describes becomes a generation. */
    method WriteCr(flag: int)
      requires Staged() && Flat(log.bufs) == [] && log.Log() == log.file
      modifies this`cr, this`hist, log
      ensures Sound() && (old(InStep()) ==> Valid())
      ensures cr == NextCommit(old(cr), |old(log.file)|, flag)
      ensures CommitAt(log.file, cr.selfAt) && CrAt(log.file, cr.selfAt) == cr
      ensures forall k: nat :: Live(k) == old(Live(k)) && Pending(k) == old(Pending(k)) && Locator(k) == old(Locator(k))
      ensures |old(log.file)| !in old(hist) && hist == old(hist)[|old(log.file)| := hist[|old(log.file)|]]
      ensures forall k: nat :: hist[|old(log.file)|](k) == old(Pending(k))
      ensures old(log.file) <= log.file && EndsInCommit(log.file) && |log.file| == |old(log.file)| + IO_BLOCK
    {
      hide Value, LiveRecord, IndexOk, FreeOk, CrView, LiveOk, GoodCommit, LogOk, DiskRecord, CrOk, DataOk;
      ghost var f0, s0, cr0 := log.file, slots, cr;
      ghost var contents := (k: nat) => DiskRecord(f0, cr0, k);
      CommitIsGood(f0, cr0, flag);
      cr := NextCommit(cr, |log.file|, flag);
      HistSurvivesCommit(f0, cr, hist, contents);
      assert !CommitAt(f0, |f0|);
      var at := log.WriteCommit(cr);
      hist := hist[at := contents];
      SlotsExtend(hash, slots, fm.entries, f0, log.file, |f0|, |log.file|);
      if old(InStep()) {
        SameIndexPartView(f0, cr0, cr, s0, f0);
        CommittedState(hash, slots, cr, fm.entries, f0, log.file);
      }
    }

    /** The first part of lssi_commit: the dirty lines and a new master index go to the log.  `ok` is
        its assertion that the commit record counts the lines. */
    method FlushIndex() returns (ok: bool)
      requires Sound() && cr.mixOffset == 0
      modifies this`slots, this`cr, log
      ensures ok <==> old(cr.mixCnt == CountUsed(slots))
      ensures !ok ==> Sound() && cr == old(cr)
      ensures ok ==> Staged() && (old(Counted()) ==> InStep()) && cr.diffs == []
      ensures ok ==> cr == old(cr).(mixOffset := cr.mixOffset, diffs := cr.diffs)
      ensures ok ==> forall k: nat :: Pending(k) == Live(k)
      ensures ok ==> forall lk: nat :: HasLine(MasterOf(log.Log(), cr.mixOffset), lk) <==> FindLine(slots, lk).Some?
      ensures old(log.file) <= log.file && |slots| == old(|slots|) && SameFound(old(slots), slots)
      ensures forall k: nat :: Live(k) == old(Live(k)) && Locator(k) == old(Locator(k))
      ensures SameUnloaded(old(slots), slots)
    {
      hide HistOk, GoodCommits, IndexOk, FreeOk, LiveOk, Anchored, LiveRecord, Value, FindLine, CountUsed, Unloaded;
      var mix := [];
      var i := 0;
      while i < |slots|
        invariant 0 <= i <= |slots| == old(|slots|)
        invariant Settled() && cr == old(cr) && old(log.file) <= log.file
        invariant CountUsed(slots) == old(CountUsed(slots)) && SameFound(old(slots), slots)
        invariant mix == MixOf(slots[..i]) && AllWritten(slots[..i])
        invariant forall k: nat :: Live(k) == old(Live(k)) && Locator(k) == old(Locator(k))
        invariant SameUnloaded(old(slots), slots)
      {
        ghost var done := slots[..i];
        if slots[i].mem.Some? {
          if slots[i].lineOffset == 0 {
            WriteLine(i);
          }
        }
        assert slots[..i] == done;
        assert slots[..i + 1] == done + [slots[i]];
        if slots[i].lineOffset != 0 {
          mix := mix + [EntryOf(slots[i])];
        }
        i := i + 1;
      }
      assert slots[..i] == slots;
      MixCount(slots);
      ok := |mix| == cr.mixCnt;
      if ok {
        WriteMaster(mix);
      }
    }

    /** The end of that part: the collected entries are logged as the new master index. */
    method WriteMaster(mix: seq<MasterEntry>)
      requires Settled() && AllWritten(slots) && mix == MixOf(slots) && cr.mixCnt == CountUsed(slots)
      modifies this`cr, log
      ensures Staged() && CrView(log.Log(), cr, slots, log.Log()) && old(log.file) <= log.file
      ensures cr == old(cr).(mixOffset := cr.mixOffset, diffs := []) && MasterOf(log.Log(), cr.mixOffset) == mix
      ensures forall k: nat :: Live(k) == old(Live(k)) && Pending(k) == Live(k) && Locator(k) == old(Locator(k))
      ensures forall lk: nat :: HasLine(mix, lk) <==> FindLine(slots, lk).Some?
    {
      hide HistOk, GoodCommits, FreeOk, LiveOk, LiveRecord, Value, UniqueKeys, ProbeOk, FindLine;
      MixCount(slots);
      MasterLines(slots);
      var at := Append(MASTER_ENTRY_BYTES * |mix|, Master(mix));
      ghost var cr0 := cr;
      cr := cr.(mixOffset := at, diffs := []);
      MasterWritten(slots, log.Log(), |log.file|, cr);
      ViewIsLive(log.Log(), cr, slots, log.Log());
      AnchoredExtends(log.file, log.file, cr0, cr);
    }

    /** lssi_commit: the log ends in a commit record that holds what the in-memory one describes:
        the live map, unless a rewind has failed before.  `ok` is false where the assertion on the
        number of lines stops it. */
    method Commit(flag: int) returns (gen: nat, ok: bool)
      requires Sound()
      modifies this, log
      ensures Sound() && (old(Valid()) ==> Valid())
      ensures ok <==> old(cr.mixOffset != 0 || cr.mixCnt == CountUsed(slots))
      ensures !ok ==> cr == old(cr) && hist == old(hist)
      ensures old(log.file) <= log.file && |slots| == old(|slots|) && SameFound(old(slots), slots)
      ensures forall k: nat :: Live(k) == old(Live(k)) && Pending(k) == old(Pending(k))
      ensures fm.entries == old(fm.entries) && SameUnloaded(old(slots), slots) && (old(Exact()) ==> Exact())
      ensures ok ==> gen == cr.generation == old(cr.generation) + 1 && cr.prevAt == old(cr.selfAt) && cr.mixOffset != 0
      ensures ok ==>
        cr.bookmarks == if 0 < flag <= NUM_BOOKMARKS then old(cr.bookmarks)[flag - 1 := cr.selfAt] else old(cr.bookmarks)
      ensures ok ==> CommitAt(log.file, cr.selfAt) && CrAt(log.file, cr.selfAt) == cr
      ensures ok ==> cr.selfAt !in old(hist) && hist == old(hist)[cr.selfAt := hist[cr.selfAt]]
      ensures ok ==> forall k: nat :: hist[cr.selfAt](k) == old(Pending(k))
      ensures ok ==> EndsInCommit(log.file) && old(|log.file|) <= cr.selfAt == |log.file| - IO_BLOCK
      // the index part is that of before, or a new master index of all lines
      ensures ok && old(cr.mixOffset) != 0 ==> cr.mixOffset == old(cr.mixOffset) && cr.mixCnt == old(cr.mixCnt) && cr.diffs == old(cr.diffs)
      ensures ok && old(cr.mixOffset) == 0 ==>
        (cr.mixCnt == old(cr.mixCnt) && cr.diffs == []
        && (forall lk: nat :: HasLine(MasterOf(log.file, cr.mixOffset), lk) <==> FindLine(slots, lk).Some?))
    {
      hide HistOk, GoodCommits, IndexOk, FreeOk, LiveOk, CrView, Anchored, LiveRecord, Value, CrOk, DataOk, DiskRecord;
      hide HasLine, FindLine, CountUsed, Unloaded, FreeExact;
      ok := true;
      if cr.mixOffset == 0 {
        ok := FlushIndex();
        if !ok {
          gen := cr.generation;
          if old(Exact()) { SameLocatorsExact(); }
          return;
        }
      } else {
        SoundIsStaged();
      }
      ghost var c, at := log.Log(), cr.mixOffset;
      StagedMaster();
      if log.bufs[0].base == 0 {
        FlushData();
      }
      FlushData();
      WriteCr(flag);
      MasterKept(c, log.file, at);
      gen := cr.generation;
      if old(Exact()) { SameLocatorsExact(); }
    }

    twostate lemma SameLocatorsExact()
      requires old(Exact()) && fm.entries == old(fm.entries) && SameUnloaded(old(slots), slots)
      requires forall k: nat :: Locator(k) == old(Locator(k))
      ensures Exact()
    {
      hide FreeExact;
      forall k: nat ensures Value(slots, log.Log(), k) == Value(old(slots), old(log.Log()), k) {
        assert Locator(k) == old(Locator(k));
      }
      ExactExtends(fm.entries, old(slots), slots, old(log.Log()), log.Log());
    }

    lemma StagedMaster()
      requires Staged()
      ensures cr.mixOffset < |log.Log()|
    {
      hide HistOk, GoodCommits, IndexOk, FreeOk, Anchored, LogOk;
    }

    // ---------------------------------------------------------------- rewinding and opening

    /** The middle of lssi_load_mindex: the master index, with its numbers held back. */
    method LoadMix(ghost c: seq<Cell>)
      requires log.file <= c && CrOk(log.file, cr) && fm.Valid() && Free(fm.entries, MAX_KEY)
      modifies this`slots, fm
      ensures Indexed(cr.mixCnt, c) && Counted()
      ensures Replayed(slots, c, MasterOf(log.file, cr.mixOffset), cr.diffs, 0)
      ensures ReplayedTo(cr, cr, slots, MasterOf(log.file, cr.mixOffset), 0)
      ensures old(AllFree(fm.entries)) ==> FreeExact(fm.entries, slots, c)
      ensures FreeLoaded(old(fm.entries), fm.entries, slots, c, MasterOf(log.file, cr.mixOffset), [])
    {
      var mix := log.file[cr.mixOffset].payload.mix;
      var cap := NextHigherCapacity(cr.mixCnt * 400 / 256);
      slots := ReadMix(hash, mix, cap);
      HoldBack(mix);
      MixLoaded(hash, slots, c, log.file, mix, fm.entries);
      HeldBackLoaded(old(fm.entries), fm.entries, slots, c, mix);
      if old(AllFree(fm.entries)) { HeldBackExact(old(fm.entries), fm.entries, slots, c, mix); }
      assert MasterOf(c, cr.mixOffset) == mix;
    }

    /** The numbers of every line of the master index leave the free map. */
    method HoldBack(mix: seq<MasterEntry>)
      requires fm.Valid() && Free(fm.entries, MAX_KEY) && forall m | m in mix :: m.lineKey < LINE_KEYS
      modifies fm
      ensures fm.Valid() && Free(fm.entries, MAX_KEY)
      ensures forall k: nat :: Free(fm.entries, k) <==> old(Free(fm.entries, k)) && !HasLine(mix, k / LINE_SIZE)
    {
      var i := 0;
      while i < |mix|
        invariant 0 <= i <= |mix|
        invariant fm.Valid() && Free(fm.entries, MAX_KEY)
        invariant forall k: nat :: Free(fm.entries, k) <==> old(Free(fm.entries, k)) && !HasLine(mix[..i], k / LINE_SIZE)
      {
        assert mix[i] in mix;
        HasLineNext(mix, i);
        ghost var f1 := fm.entries;
        var r := mix[i].lineKey * LINE_SIZE;
        assert Free(fm.entries, MAX_KEY);
        var tripped := fm.DeleteRange(r, r + (LINE_SIZE - 1));
        forall k: nat ensures Free(fm.entries, k) <==> Free(f1, k) && k / LINE_SIZE != mix[i].lineKey {
          InLine(k, mix[i].lineKey);
        }
        i := i + 1;
      }
      assert mix[..i] == mix;
    }

    /** lssi_load_mindex: the index comes back as the commit record says.  A line that only the diff
        list has makes the logged index stale. */
    method LoadMindex()
      requires log.Valid() && CrOk(log.file, cr) && fm.Valid() && Free(fm.entries, MAX_KEY)
      requires forall k: nat | DiskValue(log.file, cr, k) != 0 :: DataAt(log.Log(), DiskValue(log.file, cr, k), k)
      modifies this`slots, this`cr, fm
      ensures Loads(log.file, old(cr), cr, slots)
      ensures Indexed(CountUsed(slots), log.Log()) && Counted()
      ensures CrView(log.file, cr, slots, log.Log()) && LiveOk(slots, log.Log())
      ensures cr.mixOffset != 0 ==> CrOk(log.file, cr) && DataOk(log.Log(), cr)
      ensures forall k: nat :: Live(k) == BytesAt(log.Log(), DiskValue(log.file, old(cr), k))
      ensures old(AllFree(fm.entries)) ==> Exact()
      ensures FreeLoaded(old(fm.entries), fm.entries, slots, log.Log(), MasterOf(log.file, old(cr.mixOffset)), old(cr.diffs))
    {
      hide FreeLoaded, FreeExact, FreeAfter, Released, AllFree, IndexOk, FreeOk, Value, LiveRecord, CountUsed, ReplayedTo, Replayed, CrOk, DataOk, LogOk, LiveOk, LinesAfter, Stored;
      ghost var c, cr0 := log.Log(), cr;
      ghost var mix := MasterOf(log.file, cr.mixOffset);
      var diffs := cr.diffs;
      DiffsInRange(log.file, cr);
      LoadMix(c);
      for i := 0 to |diffs|
        invariant Indexed(CountUsed(slots), c) && Counted() && Replayed(slots, c, mix, diffs, i)
        invariant ReplayedTo(cr0, cr, slots, mix, i)
        invariant old(AllFree(fm.entries)) ==> FreeExact(fm.entries, slots, c)
        invariant FreeLoaded(old(fm.entries), fm.entries, slots, c, mix, diffs[..i])
      {
        ghost var a, cr1, free1 := slots, cr, fm.entries;
        var d := diffs[i];
        assert d in diffs;
        var ended, tripped;
        ghost var free;
        ended, tripped, free := IndexStore(d.recnum, d.offset, CountUsed(slots), c);
        LinesCounted(hash, slots, if d.offset != 0 && FindLine(a, d.recnum / LINE_SIZE) == None then CountUsed(a) + 1 else CountUsed(a), c, |log.file|);
        ReplayStep(a, slots, c, mix, diffs, i);
        FreeLoadedNext(old(fm.entries), free1, fm.entries, a, slots, c, mix, diffs, i);
        if old(AllFree(fm.entries)) { ExactStored(free1, fm.entries, a, slots, c, d.recnum, d.offset); }
        ReplayedNext(cr0, cr1, cr, a, slots, mix, i);
      }
      assert diffs[..|diffs|] == diffs;
      ReplayDone(slots, c, log.file, cr0);
      ReplayedAll(log.file, cr0, cr, slots);
      StillCurrent(log.file, cr0, cr, slots, c);
    }

    /** The walk of lssi_rewind_to_gen along prev_cr_at, starting at the record at `p`. */
    method Walk(gen: nat, ghost p: nat) returns (found: bool)
      requires GoodCommits(log.file) && CommitAt(log.file, p)
      requires cr.generation == CrAt(log.file, p).generation && cr.prevAt == CrAt(log.file, p).prevAt
      modifies this`cr
      ensures found <==> FIRST_GENERATION <= gen <= old(cr.generation)
      ensures found && gen != old(cr.generation) ==>
        var a := Ancestor(log.file, p, gen); a.Some? && CommitAt(log.file, a.value) && cr == CrAt(log.file, a.value)
      ensures gen == old(cr.generation) ==> cr == old(cr)
      ensures !found && old(cr.prevAt) != 0 ==> cr == CrAt(log.file, RootAt(log.file, p))
      ensures !found && old(cr.prevAt) == 0 ==> cr == old(cr)
    {
      ghost var q: nat := p;
      AncestorFound(log.file, p, gen);
      while gen != cr.generation
        invariant CommitAt(log.file, q) && q <= p
        invariant cr.generation == CrAt(log.file, q).generation && cr.prevAt == CrAt(log.file, q).prevAt
        invariant q == p ==> cr == old(cr)
        invariant q != p ==> cr == CrAt(log.file, q)
        invariant Ancestor(log.file, q, gen) == Ancestor(log.file, p, gen)
        invariant RootAt(log.file, q) == RootAt(log.file, p)
        invariant q != p ==> gen != old(cr.generation) && old(cr.prevAt) != 0
        decreases q
      {
        var at := cr.prevAt;
        assert GoodCommit(log.file, q);
        if at == 0 {
          return false;
        }
        cr := CrAt(log.file, at);
        q := at;
      }
      return true;
    }

    /** lss_set_generation. */
    method SetGeneration(gen: nat) returns (o: Outcome)
      requires Sound()
      modifies this`slots, this`cr, fm
      ensures Sound() && (o == Done ==> Valid())
      // where an assertion stops the program: there is no commit yet, the logged index is stale,
      // or the bookmark was never set
      ensures o == BadRead <==> old(
        if gen == cr.generation then cr.selfAt == 0
        else if gen == 0 then cr.selfAt != 0 && cr.mixOffset == 0
        else gen <= NUM_BOOKMARKS && cr.bookmarks[gen - 1] == 0)
      // generation 0 reloads what the in-memory commit record describes
      ensures gen == 0 ==> (o == Done <==> old(cr.selfAt != 0 && cr.mixOffset != 0))
      ensures gen == 0 && o == Done ==> Loads(log.file, old(cr), cr, slots) && forall k: nat :: Live(k) == old(Pending(k))
      // a small number is a bookmark
      ensures 1 <= gen <= NUM_BOOKMARKS ==> (o == Done <==> old(cr.bookmarks[gen - 1]) != 0)
      ensures 1 <= gen <= NUM_BOOKMARKS && o == Done ==> cr.selfAt == old(cr.bookmarks[gen - 1])
      // any other number is a generation of the chain
      ensures gen > NUM_BOOKMARKS ==> (o == Done <==> FIRST_GENERATION <= gen <= old(cr.generation))
      ensures gen > NUM_BOOKMARKS && o == Done ==>
        (cr.generation == gen && Ancestor(log.file, old(cr.selfAt), gen) == Some(cr.selfAt))
      // the map is again the one that was committed
      ensures gen != 0 && o == Done ==>
        CommitAt(log.file, cr.selfAt) && Loads(log.file, CrAt(log.file, cr.selfAt), cr, slots)
        && cr.selfAt in hist && forall k: nat :: Live(k) == hist[cr.selfAt](k)
      // what has become of the free map
      ensures o == Done ==> var z := if gen == 0 then old(cr) else CrAt(log.file, cr.selfAt);
        FreeLoaded(old(fm.entries), fm.entries, slots, log.Log(), MasterOf(log.file, z.mixOffset), z.diffs)
      // otherwise the index is untouched, but a lost generation leaves the commit record at the root
      ensures o != Done ==> slots == old(slots) && fm.entries == old(fm.entries)
      ensures o == BadRead || (o == Lost && old(cr.prevAt) == 0) ==> cr == old(cr) && (old(Valid()) ==> Valid())
      ensures o == Lost && old(cr.prevAt) != 0 ==>
        cr == CrAt(log.file, RootAt(log.file, old(cr.selfAt))) && cr.selfAt == RootAt(log.file, old(cr.selfAt))
        && cr.mixOffset != 0 && cr.selfAt in hist && forall k: nat :: Pending(k) == hist[cr.selfAt](k)
    {
      hide FreeLoaded, LogOk, IndexOk, CrView, LiveOk, FreeOk, CrOk, DataOk, HasHeader;
      ghost var cr0 := cr;
      TopStaysFree();
      if gen == cr.generation {
        if cr.selfAt == 0 {
          return BadRead;
        }
        cr := CrAt(log.file, cr.selfAt);
        ghost var p := cr0.selfAt;
        assert GoodCommit(log.file, p);
      } else if gen == 0 {
        if cr.selfAt == 0 {
          return Lost;
        }
        if cr.mixOffset == 0 {
          return BadRead;
        }
        Reload();
        return Done;
      } else if gen <= NUM_BOOKMARKS {
        var at := cr.bookmarks[gen - 1];
        if at == 0 {
          return BadRead;
        }
        cr := CrAt(log.file, at);
        assert GoodCommit(log.file, at);
      } else {
        if cr.selfAt == 0 {
          return Lost;
        }
        var found := WalkBack(gen);
        if !found {
          return Lost;
        }
      }
      LoadCommitted();
      return Done;
    }

    /** The walk from the current generation to another one. */
    method WalkBack(gen: nat) returns (found: bool)
      requires Sound() && cr.selfAt != 0 && gen != cr.generation
      modifies this`cr
      ensures found <==> FIRST_GENERATION <= gen <= old(cr.generation)
      ensures found ==>
        (CommitAt(log.file, cr.selfAt) && cr == CrAt(log.file, cr.selfAt)
         && cr.generation == gen && Ancestor(log.file, old(cr.selfAt), gen) == Some(cr.selfAt))
      ensures !found ==> Sound()
      ensures !found && old(cr.prevAt) == 0 ==> cr == old(cr)
      ensures !found && old(cr.prevAt) != 0 ==>
        cr == CrAt(log.file, RootAt(log.file, old(cr.selfAt))) && cr.selfAt == RootAt(log.file, old(cr.selfAt))
        && cr.mixOffset != 0 && cr.selfAt in hist && forall k: nat :: Pending(k) == hist[cr.selfAt](k)
    {
      hide LogOk, IndexOk, CrView, LiveOk, FreeOk, CrOk, DataOk, HasHeader, GoodCommits, HistOk, DiskRecord;
      ghost var p, prev := cr.selfAt, cr.prevAt;
      found := Walk(gen, p);
      if found {
        AncestorFound(log.file, p, gen);
        CommittedRecord(log.file, log.file, Ancestor(log.file, p, gen).value);
      } else if prev != 0 {
        LeftAtRoot(p);
      }
    }

    lemma TopStaysFree()
      requires Sound()
      ensures fm.Valid() && Free(fm.entries, MAX_KEY)
    {
      hide LogOk, IndexOk, CrView, LiveOk, CrOk, DataOk, GoodCommits, HistOk, Anchored, HasHeader;
    }

    /** The store after a rewind from the commit record at p has failed at the root. */
    lemma LeftAtRoot(p: nat)
      requires GoodCommits(log.file) && CommitAt(log.file, p) && cr == CrAt(log.file, RootAt(log.file, p))
      requires HistOk(log.file, hist)
      ensures cr.selfAt == RootAt(log.file, p) && Anchored(log.file, cr)
      ensures CrOk(log.file, cr) && DataOk(log.Log(), cr)
      ensures cr.mixOffset != 0 && cr.selfAt in hist && forall k: nat :: Pending(k) == hist[cr.selfAt](k)
    {
      var r := RootAt(log.file, p);
      CommittedRecord(log.file, log.Log(), r);
    }

    /** Loading the index of a commit record just read from the volume. */
    method LoadCommitted()
      requires log.Valid() && log.open.None? && HasHeader(log.Log())
      requires GoodCommits(log.file) && HistOk(log.file, hist)
      requires CommitAt(log.file, cr.selfAt) && cr == CrAt(log.file, cr.selfAt)
      requires fm.Valid() && Free(fm.entries, MAX_KEY)
      modifies this`slots, this`cr, fm
      ensures Valid() && Loads(log.file, old(cr), cr, slots) && cr.selfAt in hist
      ensures forall k: nat :: Live(k) == hist[cr.selfAt](k)
      ensures old(AllFree(fm.entries)) ==> Exact()
      ensures FreeLoaded(old(fm.entries), fm.entries, slots, log.Log(), MasterOf(log.file, old(cr.mixOffset)), old(cr.diffs))
    {
      hide FreeLoaded, FreeExact, AllFree, LogOk, IndexOk, FreeOk, LiveOk, CrView, CrOk, DataOk;
      CommittedData(log.file, log.Log(), cr.selfAt);
      ghost var cr0 := cr;
      LoadMindex();
      AnchoredExtends(log.file, log.file, cr0, cr);
    }

    /** Loading the index of the in-memory commit record. */
    method Reload()
      requires Sound() && cr.mixOffset != 0
      modifies this`slots, this`cr, fm
      ensures Valid() && Loads(log.file, old(cr), cr, slots) && forall k: nat :: Live(k) == old(Pending(k))
      ensures FreeLoaded(old(fm.entries), fm.entries, slots, log.Log(), MasterOf(log.file, old(cr.mixOffset)), old(cr.diffs))
    {
      hide FreeLoaded, LogOk, IndexOk, LiveOk, CrView, CrOk, HistOk, GoodCommits, Anchored, HasHeader;
      ghost var c, cr0 := log.Log(), cr;
      TopStaysFree();
      forall k: nat ensures DiskValue(c, cr, k) == DiskValue(log.file, cr, k) {
        DiskValueStable(log.file, c, cr, k);
      }
      LoadMindex();
      AnchoredExtends(log.file, log.file, cr0, cr);
    }

    /** lssi_new and lssi_init_bufs: a store object for an existing volume, nothing read yet. */
    constructor Attach(hash: nat -> nat, volume: seq<Cell>)
      requires GoodVolume(volume) && HasHeader(volume)
      ensures Attached() && log.file == volume && fresh(log) && fresh(fm)
    {
      this.hash := hash;
      var l := new LogFile(volume);
      var f := new FreeMap();
      log := l;
      fm := f;
      slots := [];
      cr := ZERO_CR;
      hist := HistoryOf(volume);
      new;
      hide LogOk, GoodCommits, EofBlocks, DiskRecord, HistoryOf;
      NewMapIsFree(fm.entries);
    }

    ghost predicate Attached()
      reads this, log, fm
    {
      && log.Valid() && log.open.None? && log.Log() == log.file && HasHeader(log.file)
      && GoodCommits(log.file) && HistOk(log.file, hist)
      && fm.Valid() && Free(fm.entries, MAX_KEY) && AllFree(fm.entries)
    }

    /** Whether lssi_find_cr settles on a commit record: the last one on the volume is found, and
        has the bookmark if one is asked for. */
    ghost predicate CanOpen(file: seq<Cell>, guess: nat, last: nat, gen: nat) {
      && (EndsInCommit(file) || guess != 0)
      && LastCommit(file, last)
      && (1 <= gen <= NUM_BOOKMARKS ==>
           |CrAt(file, last).bookmarks| == NUM_BOOKMARKS && CrAt(file, last).bookmarks[gen - 1] != 0)
    }

    /** The commit record lssi_find_cr settles on, given the last one on the volume. */
    ghost predicate Chosen(file: seq<Cell>, last: nat, gen: nat, at: nat) {
      && GoodCommits(file) && LastCommit(file, last) && CommitAt(file, at)
      && (gen == 0 ==> at == last)
      && (1 <= gen <= NUM_BOOKMARKS ==> GoodCommit(file, last) && at == CrAt(file, last).bookmarks[gen - 1])
      // a generation off the chain of the last commit silently opens the first one
      && (gen > NUM_BOOKMARKS ==>
           (at == if FIRST_GENERATION <= gen <= CrAt(file, last).generation then AncestorAt(file, last, gen)
                  else RootAt(file, last)))
    }

    /** lssi_find_cr. */
    method FindCr(guess: nat, gen: nat) returns (found: bool, ghost last: nat)
      requires log.Valid() && GoodCommits(log.file) && (guess != 0 ==> CommitAt(log.file, guess))
      modifies this`cr
      ensures found <==> CanOpen(log.file, guess, last, gen)
      ensures EndsInCommit(log.file) || guess != 0 ==> LastCommit(log.file, last)
      ensures found ==> (CommitAt(log.file, cr.selfAt) && cr == CrAt(log.file, cr.selfAt))
      ensures found ==> Chosen(log.file, last, gen, cr.selfAt)
    {
      hide LogOk, CrOk, DataOk, EofBlocks;
      assert FileOk(log.file) by { LogIsFile(log.file, log.bufs, log.open); }
      assert Tiled(log.file, 0) && EofBlocks(log.file);
      last := 0;
      var r := FindLastCommit(log.file, guess);
      if r.None? {
        return false, last;
      }
      last := r.value;
      cr := CrAt(log.file, r.value);
      assert GoodCommit(log.file, last);
      if gen == 0 {
        return true, last;
      } else if gen <= NUM_BOOKMARKS {
        var at := cr.bookmarks[gen - 1];
        if at == 0 {
          return false, last;
        }
        cr := CrAt(log.file, at);
        assert GoodCommit(log.file, at);
      } else {
        AncestorFound(log.file, last, gen);
        var ok := Walk(gen, last);
        if ok {
          assert GoodCommit(log.file, AncestorAt(log.file, last, gen));
        } else {
          assert GoodCommit(log.file, RootAt(log.file, last));
        }
      }
      return true, last;
    }

    /** lssv3_open after the headers: find a commit record, rewind, load its index.
        `guess` is the position recorded in the volume header, 0 if it was never updated. */
    method Open(guess: nat, gen: nat) returns (o: Outcome, ghost last: nat)
      requires Attached() && (guess != 0 ==> CommitAt(log.file, guess))
      modifies this`slots, this`cr, fm
      ensures o != Lost
      ensures o == Done ==> (Valid() && cr.selfAt in hist && forall k: nat :: Live(k) == hist[cr.selfAt](k))
      // a volume that does not end in a commit needs a position to start from
      ensures o == Done <==> CanOpen(log.file, guess, last, gen)
      ensures EndsInCommit(log.file) || guess != 0 ==> LastCommit(log.file, last)
      ensures o == Done ==> Chosen(log.file, last, gen, cr.selfAt)
      ensures o == Done ==> Exact()
    {
      hide FreeExact, AllFree, CrOk, DataOk, EofBlocks, LogOk, GoodCommits;
      var found;
      found, last := FindCr(guess, gen);
      if !found {
        return BadRead, last;
      }
      LoadCommitted();
      return Done, last;
    }
  }

  /** Losing everything in memory and opening the volume again: the last commit record on the
      volume comes back, with exactly what was live when it was written. */
  method ReopenAfterCrash(s: Lss, guess: nat) returns (r: Lss, o: Outcome)
    requires s.Sound() && s.log.file != [] && (guess != 0 ==> CommitAt(s.log.file, guess))
    ensures o == Done <==> EndsInCommit(s.log.file) || guess != 0
    ensures o == Done ==> r.Valid() && r.cr.selfAt in s.hist && LastCommit(s.log.file, r.cr.selfAt)
    ensures o == Done ==> forall k: nat :: r.Live(k) == s.hist[r.cr.selfAt](k)
    ensures o == Done ==> r.Exact()
    ensures fresh(r) && fresh(r.log) && fresh(r.fm)
  {
    hide FreeExact, CrView, FreeOk, IndexOk, LiveOk, Anchored;
    assert s.log.file[0] == s.log.Log()[0];
    r := new Lss.Attach(s.hash, s.log.file);
    ghost var last;
    o, last := r.Open(guess, 0);
    if o == Done {
      ghost var at := r.cr.selfAt;
      assert CommitAt(s.log.file, at);
      assert forall k: nat :: DiskRecord(s.log.file, CrAt(s.log.file, at), k) == r.hist[at](k);
      assert forall k: nat :: DiskRecord(s.log.file, CrAt(s.log.file, at), k) == s.hist[at](k);
    }
  }

  /** A new store with one record, committed. */
  method OneCommitted(hash: nat -> nat, data: Bytes) returns (s: Lss)
    ensures s.Sound() && s.log.file != [] && EndsInCommit(s.log.file) && s.cr.selfAt == |s.log.file| - IO_BLOCK
    ensures s.cr.selfAt in s.hist && s.hist[s.cr.selfAt](5) == Some(data)
    ensures forall k: nat | k != 5 :: s.hist[s.cr.selfAt](k) == None
  {
    hide CrView, FreeOk, IndexOk, LiveOk, Anchored, LogOk, CrStored, LinesAfter, FindLine, FreeExact, FreeAfter, LiveRecord, DiskRecord, HistOk;
    hide GoodCommits, CrOk, DataOk, SameUnloaded, HasLine;
    s := new Lss.Create(hash);
    var ended, tripped, at := s.Write(5, data);
    s.ValidIsLive();
    var gen, ok := s.Commit(0);
  }

  /** A record is written and committed, the volume is opened again, and a number is asked for: it is the
      lowest without a record, though its line had to be loaded to find it. */
  method AllocAfterReopen(hash: nat -> nat, data: Bytes) returns (r: Lss, rec: nat)
    ensures rec == 0 && r.Valid()
  {
    hide CrView, FreeOk, IndexOk, LiveOk, Anchored, FreeExact, LiveRecord, DiskRecord, HistOk, Value;
    hide GoodCommits, CrOk, DataOk, HasLine, LastCommit, HasHeader;
    var s := OneCommitted(hash, data);
    var o;
    r, o := ReopenAfterCrash(s, 0);
    s.VolumeBlocks();
    LastOfBlocks(s.log.file, r.cr.selfAt);
    r.NoRecordNoLocator(0);
    var found;
    ghost var free;
    found, rec, free := r.AllocRecs(0, 1);
    assert Free(free, 0);
    assert RunAt(free, 0, 1);
  }

  /** Deleting any number from a new store trips the assertion of fmapInsert. */
  method DeleteTrips(hash: nat -> nat, recnum: nat) returns (s: Lss, tripped: bool)
    requires recnum < MAX_RECNUM
    ensures tripped && s.Valid()
  {
    hide CrView, FreeOk, IndexOk, LiveOk, Anchored, LogOk, CrStored, LinesAfter, FindLine;
    s := new Lss.Create(hash);
    SingletonFree(0, MAX_KEY);
    var ended;
    ghost var free;
    ended, tripped, free := s.Delete(recnum);
  }
}
