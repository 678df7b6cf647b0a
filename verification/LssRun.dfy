/** A store (packages/lss/lssv3.c) shows its client a view, and any sequence of operations takes it
    from view to view. */
module LssRuns {
  import opened Options
  import opened FreeMaps
  import opened LssFormat
  import opened LssLog
  import opened LssIndex
  import opened LssState
  import opened LssStore
  import opened LssViews

  // ------------------------------------------------------------------ the store shows a view

  /** The lines and numbers of the index part of a commit record. */
  ghost predicate ShowsIndex(file: seq<Cell>, cr: CommitRecord, z: Snapshot) {
    && (forall lk: nat :: lk in z.lines <==> HasLine(MasterOf(file, cr.mixOffset), lk))
    && (forall k: nat :: k in z.diffs <==> HasDiff(cr.diffs, k))
  }

  ghost predicate ShowsVersion(file: seq<Cell>, p: nat, contents: Contents, v: Version) {
    && CommitAt(file, p)
    && (forall k: nat :: v.image.contents(k) == contents(k))
    && ShowsIndex(file, CrAt(file, p), v.image)
    && v.generation == CrAt(file, p).generation
    && v.prev == CrAt(file, p).prevAt
    && v.bookmarks == CrAt(file, p).bookmarks
  }

  ghost predicate ShowsVersions(file: seq<Cell>, hist: map<nat, Contents>, v: map<nat, Version>) {
    && (forall p: nat :: p in v <==> p in hist)
    && (forall p: nat | p in v :: ShowsVersion(file, p, hist[p], v[p]))
  }

  ghost predicate ShowsLines(slots: seq<Slot>, lines: set<nat>) {
    forall lk: nat :: lk in lines <==> FindLine(slots, lk).Some?
  }

  ghost predicate Shows(s: Lss, x: View)
    reads s, s.log
  {
    && (forall k: nat :: s.Live(k) == x.live(k) && s.Pending(k) == x.Pending()(k))
    && ShowsLines(s.slots, x.lines) && x.counted == s.cr.mixCnt
    && (x.stale <==> s.cr.mixOffset == 0)
    && (!x.stale ==> ShowsIndex(s.log.file, s.cr, x.logged))
    && ShowsVersions(s.log.file, s.hist, x.versions)
    && x.at == s.cr.selfAt && x.generation == s.cr.generation && x.bookmarks == s.cr.bookmarks
  }

  /** Every sound store shows a view. */
  lemma FirstView(s: Lss, adrift: bool) returns (x: View)
    requires s.Sound() && (!adrift ==> s.Valid())
    ensures Shows(s, x) && Sensible(x) && x.adrift == adrift && (!adrift ==> InStep(x))
  {
    hide LogOk, IndexOk, FreeOk, LiveOk, CrView, HasHeader, GoodCommits, HistOk, CrOk, DataOk, DiskRecord, LiveRecord;
    hide Anchored, Linked, ShowsVersions, VersionsOf, HasLine, FindLine, HasDiff;
    if s.Valid() { s.ValidIsLive(); }
    var slots, c, file, hist, cr := s.slots, s.log.Log(), s.log.file, s.hist, s.cr;
    var live := (k: nat) => LiveRecord(slots, c, k);
    var logged := SnapshotOf((k: nat) => DiskRecord(c, cr, k), file, cr);
    var versions := VersionsOf(file, hist);
    x := View(live, LinesOf(slots), cr.mixCnt, cr.mixOffset == 0, logged, versions, cr.selfAt, cr.generation, cr.bookmarks, adrift);
    VersionsLinked(file, hist, versions);
    AnchorShown(s, versions);
    HowManyLines(s, x);
  }

  ghost function LinesOf(slots: seq<Slot>): (lines: set<nat>)
    ensures ShowsLines(slots, lines)
  {
    var lines := set e | e in slots && Used(e) :: e.lineKey;
    assert forall lk: nat :: lk in lines <==> FindLine(slots, lk).Some?;
    lines
  }

  ghost function SnapshotOf(contents: Contents, file: seq<Cell>, cr: CommitRecord): (z: Snapshot)
    ensures ShowsIndex(file, cr, z) && z.contents == contents
  {
    Snapshot(contents, set m | m in MasterOf(file, cr.mixOffset) :: m.lineKey, set d | d in cr.diffs :: d.recnum)
  }

  ghost function VersionsOf(file: seq<Cell>, hist: map<nat, Contents>): (v: map<nat, Version>)
    ensures HistOk(file, hist) ==> ShowsVersions(file, hist, v)
  {
    hide DiskRecord, SnapshotOf;
    map p: nat | p in hist && CommitAt(file, p) ::
      Version(SnapshotOf(hist[p], file, CrAt(file, p)), CrAt(file, p).generation, CrAt(file, p).prevAt, CrAt(file, p).bookmarks)
  }

  // ------------------------------------------------------------------ how many lines and diffs

  /** As many keys as used slots. */
  lemma {:induction false} LineCount(slots: seq<Slot>, lines: set<nat>)
    requires UniqueKeys(slots) && ShowsLines(slots, lines)
    ensures |lines| == CountUsed(slots)
    decreases |slots|
  {
    if slots == [] {
      assert forall lk: nat :: FindLine(slots, lk) == None;
      assert lines == {};
    } else {
      var n := |slots| - 1;
      assert slots == slots[..n] + [slots[n]];
      var rest := if Used(slots[n]) then lines - {slots[n].lineKey} else lines;
      LastLine(slots, lines, rest);
      LineCount(slots[..n], rest);
    }
  }

  lemma LastLine(slots: seq<Slot>, lines: set<nat>, rest: set<nat>)
    requires slots != [] && UniqueKeys(slots) && ShowsLines(slots, lines)
    requires var e := slots[|slots| - 1]; rest == if Used(e) then lines - {e.lineKey} else lines
    ensures ShowsLines(slots[..|slots| - 1], rest)
    ensures Used(slots[|slots| - 1]) ==> slots[|slots| - 1].lineKey in lines
  {
    var n := |slots| - 1;
    assert slots[n] in slots;
    forall lk: nat ensures lk in rest <==> FindLine(slots[..n], lk).Some? {
      if FindLine(slots[..n], lk).Some? {
        var i :| 0 <= i < n && Used(slots[..n][i]) && slots[..n][i].lineKey == lk;
        assert slots[i] in slots;
      }
      if lk in rest {
        var i :| 0 <= i < |slots| && Used(slots[i]) && slots[i].lineKey == lk;
        assert i < n && slots[..n][i] in slots[..n];
      }
    }
  }

  /** As many lines as entries of the master index. */
  lemma {:induction false} MasterCount(mix: seq<MasterEntry>, lines: set<nat>)
    requires UniqueLines(mix) && forall lk: nat :: lk in lines <==> HasLine(mix, lk)
    ensures |lines| == |mix|
    decreases |mix|
  {
    if mix == [] {
      assert forall lk: nat :: !HasLine(mix, lk);
      assert lines == {};
    } else {
      var n := |mix| - 1;
      assert mix == mix[..n] + [mix[n]];
      assert HasLine(mix, mix[n].lineKey);
      forall lk: nat ensures lk in lines - {mix[n].lineKey} <==> HasLine(mix[..n], lk) {
        if HasLine(mix[..n], lk) {
          var i :| 0 <= i < n && mix[..n][i].lineKey == lk;
          assert mix[i] in mix;
        }
        if lk in lines - {mix[n].lineKey} {
          var i :| 0 <= i < |mix| && mix[i].lineKey == lk;
          assert mix[..n][i] in mix[..n];
        }
      }
      MasterCount(mix[..n], lines - {mix[n].lineKey});
    }
  }

  /** As many numbers as diffs. */
  lemma {:induction false} DiffCount(diffs: seq<Diff>, keys: set<nat>)
    requires UniqueDiffs(diffs) && forall k: nat :: k in keys <==> HasDiff(diffs, k)
    ensures |keys| == |diffs|
    decreases |diffs|
  {
    if diffs == [] {
      assert forall k: nat :: !HasDiff(diffs, k);
      assert keys == {};
    } else {
      var n := |diffs| - 1;
      assert diffs == diffs[..n] + [diffs[n]];
      assert HasDiff(diffs, diffs[n].recnum);
      forall k: nat ensures k in keys - {diffs[n].recnum} <==> HasDiff(diffs[..n], k) {
        if HasDiff(diffs[..n], k) {
          var i :| 0 <= i < n && diffs[..n][i].recnum == k;
          assert diffs[i] in diffs;
        }
        if k in keys - {diffs[n].recnum} {
          var i :| 0 <= i < |diffs| && diffs[i].recnum == k;
          assert diffs[..n][i] in diffs[..n];
        }
      }
      DiffCount(diffs[..n], keys - {diffs[n].recnum});
    }
  }

  lemma HowManyLines(s: Lss, x: View)
    requires s.Sound() && ShowsLines(s.slots, x.lines)
    ensures |x.lines| == CountUsed(s.slots)
  {
    hide LogOk, FreeOk, LiveOk, HasHeader, GoodCommits, HistOk, CrOk, DataOk, Anchored, FindLine, CountUsed;
    LineCount(s.slots, x.lines);
  }

  lemma VersionsLinked(file: seq<Cell>, hist: map<nat, Contents>, v: map<nat, Version>)
    requires GoodCommits(file) && HistOk(file, hist) && ShowsVersions(file, hist, v)
    ensures AllLinked(v)
  {
    hide CrOk, DataOk, DiskRecord, ShowsIndex;
    forall p | p in v ensures Linked(v, p) {
      assert ShowsVersion(file, p, hist[p], v[p]) && GoodCommit(file, p);
      var prev := v[p].prev;
      if prev != 0 {
        assert CommitAt(file, prev);
        assert ShowsVersion(file, prev, hist[prev], v[prev]);
      }
    }
  }

  lemma AnchorShown(s: Lss, v: map<nat, Version>)
    requires s.Sound() && ShowsVersions(s.log.file, s.hist, v)
    ensures if s.cr.selfAt == 0 then s.cr.generation + 1 == FIRST_GENERATION
            else s.cr.selfAt in v && v[s.cr.selfAt].generation == s.cr.generation
  {
    hide CrOk, DataOk, DiskRecord, GoodCommits, LogOk, IndexOk, FreeOk, LiveOk, HasHeader, Fits, ShowsIndex;
    if s.cr.selfAt != 0 {
      assert ShowsVersion(s.log.file, s.cr.selfAt, s.hist[s.cr.selfAt], v[s.cr.selfAt]);
    }
  }

  /** The volume growing shows the same generations. */
  lemma VersionsExtend(file: seq<Cell>, file2: seq<Cell>, hist: map<nat, Contents>, v: map<nat, Version>)
    requires GoodCommits(file) && ShowsVersions(file, hist, v) && file <= file2
    ensures ShowsVersions(file2, hist, v)
  {
    hide DataOk;
    forall p: nat | p in v ensures ShowsVersion(file2, p, hist[p], v[p]) {
      assert ShowsVersion(file, p, hist[p], v[p]) && GoodCommit(file, p);
      IndexStill(file, file2, CrAt(file, p), v[p].image);
    }
  }

  lemma IndexStill(file: seq<Cell>, file2: seq<Cell>, cr: CommitRecord, z: Snapshot)
    requires file <= file2 && CrOk(file, cr) && ShowsIndex(file, cr, z)
    ensures ShowsIndex(file2, cr, z)
  {
    assert MasterOf(file2, cr.mixOffset) == MasterOf(file, cr.mixOffset);
  }

  // ------------------------------------------------------------------ writes and deletes

  /** The view after the two stores of a write or a delete. */
  lemma ChangedShown(file: seq<Cell>, file2: seq<Cell>, cr: CommitRecord, cr2: CommitRecord, a: View, added: bool, k: nat,
                     value: Option<Bytes>, at: nat)
    requires file <= file2 && CrStored(cr, cr2, added, k, at) && (added <==> value.Some? && k / LINE_SIZE !in a.lines)
    requires a.counted == cr.mixCnt && (a.stale <==> cr.mixOffset == 0)
    requires !a.stale ==> CrOk(file, cr) && ShowsIndex(file, cr, a.logged)
    ensures var b := Changed(a, k, value);
      && b.counted == cr2.mixCnt && (b.stale <==> cr2.mixOffset == 0)
      && (!b.stale ==> ShowsIndex(file2, cr2, b.logged))
  {
    if !a.stale {
      DiffCount(cr.diffs, a.logged.diffs);
      IndexStill(file, file2, cr, a.logged);
      if cr2.mixOffset != 0 {
        forall j: nat ensures HasDiff(cr2.diffs, j) <==> j == k || HasDiff(cr.diffs, j) {
          DiffUpdatedValue(cr.diffs, cr2.diffs, k, at, j);
        }
      }
    }
  }

  /** The C probe for the line of the record loops for ever: the table is full without it. */
  ghost predicate NeverEnds(s: Lss, op: Op)
    reads s
  {
    (op.Put? || op.Remove?) && !s.Ends(op.recnum / LINE_SIZE)
  }

  method DoPut(s: Lss, k: nat, data: Bytes, ghost a: View) returns (ok: bool, ghost b: View)
    requires s.Sound() && Shows(s, a) && k < MAX_RECNUM
    modifies s, s.log, s.fm
    ensures Shows(s, b) && HistOk(s.log.file, s.hist)
    ensures ok ==> s.Sound() && (old(s.Valid()) ==> s.Valid()) && b == Changed(a, k, Some(data))
    ensures !ok ==> NeverEnds(s, Put(k, data)) && b == a && !old(s.Valid())
  {
    hide LogOk, IndexOk, FreeOk, LiveOk, CrView, HasHeader, GoodCommits, HistOk, CrOk, DataOk, DiskRecord, LiveRecord, Anchored;
    hide ShowsVersions, FindLine, HasLine, HasDiff, ShowsIndex, DiffUpdated, CountUsed;
    ghost var file, cr0, logged := s.log.file, s.cr, a.logged;
    var tripped, at;
    ok, tripped, at := s.Write(k, data);
    VersionsExtend(file, s.log.file, s.hist, a.versions);
    if !ok {
      if !a.stale { IndexStill(file, s.log.file, cr0, a.logged); }
      b := a;
      return;
    }
    ChangedShown(file, s.log.file, cr0, s.cr, a, k / LINE_SIZE !in a.lines, k, Some(data), at);
    b := Changed(a, k, Some(data));
  }

  method DoRemove(s: Lss, k: nat, ghost a: View) returns (ok: bool, ghost b: View)
    requires s.Sound() && Shows(s, a) && k < MAX_RECNUM
    modifies s, s.log, s.fm
    ensures Shows(s, b) && HistOk(s.log.file, s.hist)
    ensures s.Sound() && (old(s.Valid()) ==> s.Valid())
    ensures ok ==> b == Changed(a, k, None)
    ensures !ok ==> NeverEnds(s, Remove(k)) && b == a && !old(s.Valid())
  {
    hide LogOk, IndexOk, FreeOk, LiveOk, CrView, HasHeader, GoodCommits, HistOk, CrOk, DataOk, DiskRecord, LiveRecord, Anchored;
    hide ShowsVersions, FindLine, HasLine, HasDiff, ShowsIndex, DiffUpdated, CountUsed;
    ghost var cr0 := s.cr;
    var tripped;
    ghost var free;
    ok, tripped, free := s.Delete(k);
    b := a;
    if ok {
      ChangedShown(s.log.file, s.log.file, cr0, s.cr, a, false, k, None, 0);
      b := Changed(a, k, None);
    }
  }

  // ------------------------------------------------------------------ commits

  method DoSave(s: Lss, flag: int, ghost a: View) returns (ok: bool, ghost b: View)
    requires s.Sound() && Shows(s, a)
    modifies s, s.log, s.fm
    ensures s.Sound() && (old(s.Valid()) ==> s.Valid()) && Shows(s, b) && b.adrift == a.adrift
    ensures ok <==> !Blocked(a, Save(flag))
    ensures if ok then Step(a, Save(flag), b) else b == a
  {
    hide LogOk, IndexOk, FreeOk, LiveOk, CrView, HasHeader, GoodCommits, HistOk, CrOk, DataOk, DiskRecord, LiveRecord;
    hide FindLine, HasLine, HasDiff, ShowsIndex, CountUsed, ShowsVersions;
    ghost var file, hist, cr0 := s.log.file, s.hist, s.cr;
    assert |s.cr.bookmarks| == NUM_BOOKMARKS;
    HowManyLines(s, a);
    var gen;
    gen, ok := s.Commit(flag);
    VersionsExtend(file, s.log.file, hist, a.versions);
    if !ok {
      b := a;
      return;
    }
    ghost var at := s.cr.selfAt;
    ghost var v := Version(a.Image(), a.generation + 1, a.at, s.cr.bookmarks);
    b := a.(versions := a.versions[at := v], at := at, generation := a.generation + 1, bookmarks := s.cr.bookmarks,
            stale := false, logged := a.Image());
    if !a.stale { IndexStill(file, s.log.file, cr0, a.logged); }
    ImageShown(file, s.log.file, cr0, s.cr, s.slots, a);
    OneMoreVersion(file, s.log.file, hist, s.hist, a.versions, at, v);
  }

  /** What a commit has recorded of the index. */
  lemma ImageShown(file: seq<Cell>, file2: seq<Cell>, cr: CommitRecord, cr2: CommitRecord, slots: seq<Slot>, a: View)
    requires ShowsLines(slots, a.lines) && (a.stale <==> cr.mixOffset == 0)
    requires !a.stale ==> ShowsIndex(file2, cr, a.logged) && cr2.mixOffset == cr.mixOffset && cr2.diffs == cr.diffs
    requires a.stale ==> cr2.diffs == [] && forall lk: nat :: HasLine(MasterOf(file2, cr2.mixOffset), lk) <==> FindLine(slots, lk).Some?
    ensures ShowsIndex(file2, cr2, a.Image())
  {
  }

  /** The volume grown by a commit at `at` shows one version more, further on than all before. */
  lemma OneMoreVersion(file: seq<Cell>, file2: seq<Cell>, hist: map<nat, Contents>, hist2: map<nat, Contents>,
                       v: map<nat, Version>, at: nat, x: Version)
    requires GoodCommits(file) && ShowsVersions(file, hist, v) && file <= file2 && |file| <= at
    requires at in hist2 && at !in hist && hist2 == hist[at := hist2[at]] && ShowsVersion(file2, at, hist2[at], x)
    ensures ShowsVersions(file2, hist2, v[at := x]) && forall p | p in v :: p < at
  {
    hide ShowsIndex, GoodCommits;
    VersionsExtend(file, file2, hist, v);
    ShowsOneMore(file2, hist, hist2, v, v[at := x], at);
    forall p | p in v ensures p < at {
      assert ShowsVersion(file, p, hist[p], v[p]);
    }
  }

  lemma ShowsOneMore(file: seq<Cell>, hist: map<nat, Contents>, hist2: map<nat, Contents>,
                     v: map<nat, Version>, v2: map<nat, Version>, at: nat)
    requires ShowsVersions(file, hist, v) && at in hist2 && at in v2 && at !in hist
    requires hist2 == hist[at := hist2[at]] && v2 == v[at := v2[at]]
    requires ShowsVersion(file, at, hist2[at], v2[at])
    ensures ShowsVersions(file, hist2, v2)
  {
    hide ShowsIndex;
    forall p: nat | p in v2 ensures ShowsVersion(file, p, hist2[p], v2[p]) {
      if p != at { assert ShowsVersion(file, p, hist[p], v[p]); }
    }
  }

  /** Following the links on the volume is following the trail. */
  lemma {:induction false} TrailShown(file: seq<Cell>, hist: map<nat, Contents>, v: map<nat, Version>, p: nat, gen: nat)
    requires GoodCommits(file) && HistOk(file, hist) && ShowsVersions(file, hist, v) && CommitAt(file, p)
    ensures Ancestor(file, p, gen).Some? ==> Trail(v, p, Ancestor(file, p, gen).value)
    ensures var r := RootAt(file, p); r in v && Trail(v, p, r) && v[r].prev == 0
    decreases p
  {
    hide CrOk, DataOk, DiskRecord, ShowsIndex;
    assert GoodCommit(file, p) && p in hist && ShowsVersion(file, p, hist[p], v[p]);
    if CrAt(file, p).prevAt != 0 {
      TrailShown(file, hist, v, CrAt(file, p).prevAt, gen);
    }
  }

  // ------------------------------------------------------------------ changes of generation

  /** Loading the index adds the lines that only the diff list has. */
  lemma ExtraShown(file: seq<Cell>, c: seq<Cell>, cr: CommitRecord, z: Snapshot)
    requires CrOk(file, cr) && file <= c && DataOk(c, cr) && ShowsIndex(file, cr, z)
    requires forall k: nat :: z.contents(k) == DiskRecord(c, cr, k)
    ensures forall lk: nat :: lk in z.lines + Extra(z) <==> HasLine(MasterOf(file, cr.mixOffset), lk) || DiffInLine(cr.diffs, lk)
    ensures Extra(z) != {} <==> SomeExtra(MasterOf(file, cr.mixOffset), cr.diffs)
  {
    hide HasLine;
    forall d | d in cr.diffs ensures d.recnum in z.diffs && (z.contents(d.recnum).Some? <==> d.offset != 0) {
      DiffLookup(cr.diffs, d);
      assert DiskValue(c, cr, d.recnum) == d.offset;
      if d.offset != 0 { assert DataAt(c, d.offset, d.recnum); }
    }
    forall lk: nat ensures lk in Extra(z) <==> ExtraLine(MasterOf(file, cr.mixOffset), cr.diffs, lk) {
      if lk in Extra(z) {
        var k :| k in z.diffs && z.contents(k).Some? && k / LINE_SIZE !in z.lines && lk == k / LINE_SIZE;
        var d :| d in cr.diffs && d.recnum == k;
        assert DiffInLine(cr.diffs, lk);
      }
      if ExtraLine(MasterOf(file, cr.mixOffset), cr.diffs, lk) {
        var d :| d in cr.diffs && d.offset != 0 && d.recnum / LINE_SIZE == lk;
        assert d.recnum in z.diffs;
      }
    }
    if Extra(z) != {} {
      var lk :| lk in Extra(z);
      assert ExtraLine(MasterOf(file, cr.mixOffset), cr.diffs, lk);
    }
  }

  /** The index that has been loaded is the one the view expects. */
  lemma LoadedShown(file: seq<Cell>, c: seq<Cell>, cr: CommitRecord, cr2: CommitRecord, slots: seq<Slot>, z: Snapshot)
    requires CrOk(file, cr) && file <= c && DataOk(c, cr) && ShowsIndex(file, cr, z)
    requires forall k: nat :: z.contents(k) == DiskRecord(c, cr, k)
    requires Loads(file, cr, cr2, slots) && UniqueKeys(slots)
    ensures ShowsLines(slots, z.lines + Extra(z)) && |z.lines + Extra(z)| == cr2.mixCnt && IndexPartOnly(cr, cr2)
    ensures (Extra(z) != {} <==> cr2.mixOffset == 0) && (Extra(z) == {} ==> ShowsIndex(file, cr2, z))
  {
    hide DataOk, ShowsIndex, DiskRecord, HasLine, Extra;
    ExtraShown(file, c, cr, z);
    LineCount(slots, z.lines + Extra(z));
  }

  /** The view after a change of generation, in each of the ways it can end. */
  ghost function Landed(a: View, gen: nat, o: Outcome, at: nat): View {
    if o == BadRead || (o == Lost && at == a.at) then a
    else if o == Done && gen == 0 then Reindexed(a, a.logged)
    else if at !in a.versions then a
    else if o == Done then Reindexed(StandingAt(a, at), a.versions[at].image)
    else
      var z := a.versions[at].image;
      StandingAt(a, at).(counted := |z.lines|, stale := false, logged := z, adrift := true)
  }

  /** What a change of generation promises, in terms of the view. */
  ghost predicate Promised(a: View, gen: nat, o: Outcome, at: nat) {
    && (o == BadRead <==> Blocked(a, GoTo(gen)))
    && (gen == 0 ==> (o == Done <==> a.at != 0 && !a.stale))
    && (1 <= gen <= NUM_BOOKMARKS ==> o != Lost && (o == Done ==> at == a.Mark(gen)))
    && (gen <= NUM_BOOKMARKS && o == Lost ==> a.at == 0)
    && (gen > NUM_BOOKMARKS ==> (o == Done <==> FIRST_GENERATION <= gen <= a.generation))
    && (gen != 0 && o == Done ==> at in a.versions)
    && (gen > NUM_BOOKMARKS && o == Done ==> a.versions[at].generation == gen && Trail(a.versions, a.at, at))
    && (o == Lost ==>
          if a.at == 0 || (a.at in a.versions && a.versions[a.at].prev == 0) then at == a.at
          else at in a.versions && Trail(a.versions, a.at, at) && a.versions[at].prev == 0)
  }

  lemma LandedIsStep(a: View, gen: nat, o: Outcome, at: nat)
    requires Sensible(a) && Promised(a, gen, o, at)
    ensures o != BadRead ==> Step(a, GoTo(gen), Landed(a, gen, o, at))
  {
    if o == Done && gen > NUM_BOOKMARKS { TrailFalls(a.versions, a.at, at); }
    if a.at != 0 { assert Linked(a.versions, a.at); TrailFirst(a.versions, a.at); }
  }

  /** A change of generation, as far as the commit record shows it. */
  method Arrive(s: Lss, gen: nat, ghost a: View) returns (o: Outcome)
    requires s.Sound() && Shows(s, a) && Sensible(a)
    modifies s, s.fm
    ensures s.Sound() && s.log.file == old(s.log.file) && s.hist == old(s.hist)
    ensures o == Done || (s.cr == old(s.cr) && old(s.Valid())) ==> s.Valid()
    ensures Promised(a, gen, o, s.cr.selfAt)
    ensures o == BadRead || (o == Lost && s.cr.selfAt == a.at) ==> s.cr == old(s.cr) && Shows(s, a)
    ensures ShowsVersions(s.log.file, s.hist, a.versions)
    ensures o == Done && gen == 0 ==>
      Loads(s.log.file, old(s.cr), s.cr, s.slots) && old(s.cr.mixOffset) != 0 && forall k: nat :: s.Live(k) == a.Pending()(k)
    ensures o == Done && gen != 0 ==>
      CommitAt(s.log.file, s.cr.selfAt) && Loads(s.log.file, CrAt(s.log.file, s.cr.selfAt), s.cr, s.slots)
    ensures o == Done && gen != 0 ==> s.cr.selfAt in s.hist && forall k: nat :: s.Live(k) == s.hist[s.cr.selfAt](k)
    ensures o == Lost && s.cr.selfAt != a.at ==>
      CommitAt(s.log.file, s.cr.selfAt) && s.cr == CrAt(s.log.file, s.cr.selfAt) && ShowsLines(s.slots, a.lines)
      && (forall k: nat :: s.Live(k) == a.live(k)) && s.cr.mixOffset != 0
      && s.cr.selfAt in s.hist && forall k: nat :: s.Pending(k) == s.hist[s.cr.selfAt](k)
  {
    hide LogOk, IndexOk, FreeOk, LiveOk, CrView, HasHeader, CrOk, DataOk, DiskRecord, LiveRecord, GoodCommits, HistOk, Trail;
    hide Linked, ShowsVersion, CommitAt, ShowsIndex, ShowsLines, Loads;
    ghost var p := s.cr.selfAt;
    assert |s.cr.bookmarks| == NUM_BOOKMARKS;
    ghost var prev, root := s.cr.prevAt, 0;
    if p != 0 {
      AtShown(s.log.file, s.hist, a.versions, p);
      TrailFirst(a.versions, p);
      root := RootAt(s.log.file, p);
      TrailShown(s.log.file, s.hist, a.versions, p, gen);
    }
    o := s.SetGeneration(gen);
    if CommitAt(s.log.file, s.cr.selfAt) { AtShown(s.log.file, s.hist, a.versions, s.cr.selfAt); }
  }

  lemma AtShown(file: seq<Cell>, hist: map<nat, Contents>, v: map<nat, Version>, p: nat)
    requires HistOk(file, hist) && ShowsVersions(file, hist, v) && CommitAt(file, p)
    ensures p in v && v[p].generation == CrAt(file, p).generation
    ensures v[p].prev == CrAt(file, p).prevAt && v[p].bookmarks == CrAt(file, p).bookmarks
    ensures ShowsIndex(file, CrAt(file, p), v[p].image)
    ensures forall k: nat :: v[p].image.contents(k) == hist[p](k) == DiskRecord(file, CrAt(file, p), k)
  {
    hide ShowsIndex, DiskRecord;
    assert ShowsVersion(file, p, hist[p], v[p]);
  }

  /** A commit record on the volume shows its version, and counts its lines. */
  lemma ImageAt(file: seq<Cell>, hist: map<nat, Contents>, v: map<nat, Version>, p: nat)
    requires GoodCommits(file) && HistOk(file, hist) && ShowsVersions(file, hist, v) && CommitAt(file, p)
    ensures var cr := CrAt(file, p); CrOk(file, cr) && DataOk(file, cr) && cr.selfAt == p
    ensures p in v && |v[p].image.lines| == CrAt(file, p).mixCnt
  {
    hide HistOk, ShowsVersions;
    AtShown(file, hist, v, p);
    assert GoodCommit(file, p);
    MasterCount(MasterOf(file, CrAt(file, p).mixOffset), v[p].image.lines);
  }

  method DoGoTo(s: Lss, gen: nat, adrift: bool, ghost a: View) returns (ok: bool, adrift2: bool, ghost b: View)
    requires s.Sound() && Shows(s, a) && Sensible(a) && a.adrift == adrift && (!adrift ==> s.Valid())
    modifies s, s.fm
    ensures s.Sound() && Shows(s, b) && b.adrift == adrift2 && (!adrift2 ==> s.Valid())
    ensures ok <==> !Blocked(a, GoTo(gen))
    ensures if ok then Step(a, GoTo(gen), b) else b == a
  {
    hide LogOk, IndexOk, FreeOk, LiveOk, CrView, HasHeader, CrOk, DataOk, DiskRecord, LiveRecord, GoodCommits, HistOk, Trail;
    hide Linked, ShowsVersion, CommitAt, Step, ShowsIndex, ShowsLines, Loads, Extra;
    hide Shows, Landed, Promised, Blocked, Reindexed, StandingAt, ShowsVersions, InStep;
    var p := s.cr.selfAt;
    ghost var c, cr0 := s.log.Log(), s.cr;
    StoodAt(s, a);
    var o := Arrive(s, gen, a);
    ghost var at := s.cr.selfAt;
    b := Landed(a, gen, o, at);
    PromisedMeans(a, gen, o, at);
    LandedIsStep(a, gen, o, at);
    LandedIs(a, gen, o, at);
    ok := o != BadRead;
    adrift2 := if o == Done then false else if s.cr.selfAt != p then true else adrift;
    if o == Done && gen == 0 {
      ReloadedShows(s, a, cr0);
    } else if o == Done {
      ArrivedShows(s, a, at);
    } else if o == Lost && at != a.at {
      StrayedShows(s, a, at);
    }
  }

  lemma StoodAt(s: Lss, a: View)
    requires s.Sound() && Shows(s, a)
    ensures a.at == s.cr.selfAt && a.generation == s.cr.generation && a.bookmarks == s.cr.bookmarks
    ensures !a.stale ==> ShowsIndex(s.log.file, s.cr, a.logged) && CrOk(s.log.file, s.cr) && DataOk(s.log.Log(), s.cr)
    ensures !a.stale ==> forall k: nat :: a.Pending()(k) == a.logged.contents(k) == DiskRecord(s.log.Log(), s.cr, k)
  {
    hide LogOk, IndexOk, FreeOk, LiveOk, HasHeader, CrOk, DataOk, DiskRecord, LiveRecord, GoodCommits, HistOk, ShowsIndex, ShowsVersions;
  }

  lemma PromisedMeans(a: View, gen: nat, o: Outcome, at: nat)
    requires Promised(a, gen, o, at)
    ensures o == BadRead <==> Blocked(a, GoTo(gen))
    ensures (o == Done && gen != 0) || (o == Lost && at != a.at) ==> at in a.versions
    ensures o == Done && gen == 0 ==> !a.stale
  {
  }

  lemma LandedIs(a: View, gen: nat, o: Outcome, at: nat)
    ensures o == BadRead || (o == Lost && at == a.at) ==> Landed(a, gen, o, at) == a
    ensures o == Done && gen == 0 ==> Landed(a, gen, o, at) == Reindexed(a, a.logged)
    ensures o == Done && gen != 0 && at in a.versions ==>
      Landed(a, gen, o, at) == Reindexed(StandingAt(a, at), a.versions[at].image)
    ensures o == Lost && at != a.at && at in a.versions ==>
      (var z := a.versions[at].image;
       Landed(a, gen, o, at) == StandingAt(a, at).(counted := |z.lines|, stale := false, logged := z, adrift := true))
    ensures Landed(a, gen, o, at).adrift ==
      if o == Done && (gen == 0 || at in a.versions) then false
      else if o == Lost && at != a.at && at in a.versions then true else a.adrift
  {
  }

  lemma ArrivedShows(s: Lss, a: View, at: nat)
    requires s.Valid() && ShowsVersions(s.log.file, s.hist, a.versions) && at in a.versions && CommitAt(s.log.file, at)
    requires Loads(s.log.file, CrAt(s.log.file, at), s.cr, s.slots) && forall k: nat :: s.Live(k) == s.hist[at](k)
    ensures Shows(s, Reindexed(StandingAt(a, at), a.versions[at].image))
  {
    hide LogOk, IndexOk, FreeOk, LiveOk, CrView, HasHeader, CrOk, DataOk, DiskRecord, LiveRecord, GoodCommits, HistOk;
    hide ShowsVersion, CommitAt, ShowsIndex, ShowsLines, Loads, Extra, ShowsVersions;
    var file := s.log.file;
    s.ValidIsLive();
    OneLineEach(s);
    AtShown(file, s.hist, a.versions, at);
    ImageAt(file, s.hist, a.versions, at);
    LoadedShown(file, file, CrAt(file, at), s.cr, s.slots, a.versions[at].image);
  }

  lemma ReloadedShows(s: Lss, a: View, cr0: CommitRecord)
    requires s.Valid() && ShowsVersions(s.log.file, s.hist, a.versions) && !a.stale && ShowsIndex(s.log.file, cr0, a.logged)
    requires a.at == cr0.selfAt && a.generation == cr0.generation && a.bookmarks == cr0.bookmarks
    requires CrOk(s.log.file, cr0) && DataOk(s.log.Log(), cr0) && Loads(s.log.file, cr0, s.cr, s.slots)
    requires forall k: nat :: a.logged.contents(k) == DiskRecord(s.log.Log(), cr0, k) == s.Live(k)
    ensures Shows(s, Reindexed(a, a.logged))
  {
    hide LogOk, IndexOk, FreeOk, LiveOk, CrView, HasHeader, CrOk, DataOk, DiskRecord, LiveRecord, GoodCommits, HistOk;
    hide ShowsVersion, CommitAt, ShowsIndex, ShowsLines, Loads, Extra, ShowsVersions;
    s.ValidIsLive();
    OneLineEach(s);
    LoadedShown(s.log.file, s.log.Log(), cr0, s.cr, s.slots, a.logged);
  }

  lemma StrayedShows(s: Lss, a: View, at: nat)
    requires s.Sound() && ShowsVersions(s.log.file, s.hist, a.versions) && at in a.versions
    requires CommitAt(s.log.file, at) && s.cr == CrAt(s.log.file, at) && s.cr.selfAt == at && s.cr.mixOffset != 0
    requires ShowsLines(s.slots, a.lines) && forall k: nat :: s.Live(k) == a.live(k)
    requires at in s.hist && forall k: nat :: s.Pending(k) == s.hist[at](k)
    ensures var z := a.versions[at].image;
      Shows(s, StandingAt(a, at).(counted := |z.lines|, stale := false, logged := z, adrift := true))
  {
    hide LogOk, IndexOk, FreeOk, LiveOk, CrView, HasHeader, CrOk, DataOk, DiskRecord, LiveRecord, GoodCommits, HistOk;
    hide ShowsVersion, CommitAt, ShowsIndex, ShowsLines, ShowsVersions;
    AtShown(s.log.file, s.hist, a.versions, at);
    ImageAt(s.log.file, s.hist, a.versions, at);
  }

  lemma OneLineEach(s: Lss)
    requires s.Sound()
    ensures UniqueKeys(s.slots)
  {
    hide LogOk, FreeOk, LiveOk, HasHeader, GoodCommits, HistOk, CrOk, DataOk, Anchored, CountUsed;
  }

  /** An allocation whose lowest run of free numbers reaches the top of the key space. */
  ghost predicate MeetsTop(s: Lss, op: Op)
    reads s, s.log
  {
    op.Take? && exists free, rec: nat :: FreeOk(free, s.slots, s.log.Log()) && LowestRun(free, op.minr, op.cnt, rec) && rec + op.cnt > MAX_KEY
  }

  method DoTake(s: Lss, minr: nat, cnt: nat, ghost a: View) returns (ok: bool)
    requires s.Sound() && Shows(s, a) && OpOk(Take(minr, cnt))
    modifies s, s.fm
    ensures Shows(s, a)
    ensures ok ==> s.Sound() && (old(s.Valid()) ==> s.Valid())
    ensures !ok ==> MeetsTop(s, Take(minr, cnt))
    ensures s.log.file == old(s.log.file) && s.hist == old(s.hist)
  {
    hide LogOk, IndexOk, FreeOk, LiveOk, CrView, HasHeader, CrOk, DataOk, DiskRecord, LiveRecord, GoodCommits, HistOk;
    hide ShowsVersions, LowestRun, FindLine, ShowsIndex;
    var found, rec;
    ghost var free;
    found, rec, free := s.AllocRecs(minr, cnt);
    ok := !found || rec + cnt <= MAX_KEY;
  }

  // ------------------------------------------------------------------ whole runs

  /** What the volume yields for commit record p is what the history says. */
  ghost predicate Yields(file: seq<Cell>, p: nat, contents: Contents) {
    CommitAt(file, p) && forall k: nat :: DiskRecord(file, CrAt(file, p), k) == contents(k)
  }

  lemma HistYields(file: seq<Cell>, hist: map<nat, Contents>)
    requires HistOk(file, hist)
    ensures forall p | p in hist :: Yields(file, p, hist[p])
  {
    hide DiskRecord;
  }

  /** Performs the operations, up to one at which the source stops or loops for ever.  The store goes from
      view to view as `Step` says, also after a change of generation that failed, and every commit
      record there was, and every one made on the way, yields exactly what the view says it recorded.
      `adrift0` tells that a change of generation has failed before. */
  method Run(s: Lss, ops: seq<Op>, adrift0: bool) returns (done: nat, ghost trace: seq<View>)
    requires s.Sound() && (!adrift0 ==> s.Valid()) && forall i | 0 <= i < |ops| :: OpOk(ops[i])
    modifies s, s.log, s.fm
    ensures IsRun(trace, ops, done) && Sensible(trace[0])
    ensures old(Shows(s, trace[0])) && trace[0].adrift == adrift0 && (!adrift0 ==> InStep(trace[0]))
    ensures Shows(s, trace[done])
    ensures forall i | 0 <= i < done :: !Blocked(trace[i], ops[i])
    ensures done < |ops| ==>
      Blocked(trace[done], ops[done]) || MeetsTop(s, ops[done]) || (trace[done].adrift && NeverEnds(s, ops[done]))
    ensures done == |ops| || (!MeetsTop(s, ops[done]) && !NeverEnds(s, ops[done])) ==>
      s.Sound() && (!trace[done].adrift ==> s.Valid())
    ensures forall p | p in s.hist :: Yields(s.log.file, p, s.hist[p])
  {
    hide LogOk, IndexOk, FreeOk, LiveOk, CrView, HasHeader, CrOk, DataOk, DiskRecord, LiveRecord, GoodCommits, HistOk;
    hide Shows, Sensible, Step, Yields, MeetsTop, NeverEnds, InStep;
    ghost var x := FirstView(s, adrift0);
    trace := [x];
    done := 0;
    var adrift := adrift0;
    while done < |ops|
      invariant IsRun(trace, ops, done) && Sensible(trace[0]) && Sensible(trace[done])
      invariant old(Shows(s, trace[0])) && trace[0].adrift == adrift0 && (!adrift0 ==> InStep(trace[0]))
      invariant Shows(s, trace[done]) && trace[done].adrift == adrift
      invariant s.Sound() && (!adrift ==> s.Valid())
      invariant forall i | 0 <= i < done :: !Blocked(trace[i], ops[i])
      decreases |ops| - done
    {
      ghost var a := trace[done];
      ghost var b;
      var ok;
      ok, adrift, b := Do(s, ops[done], adrift, a);
      if !ok {
        HistYields(s.log.file, s.hist);
        return;
      }
      StepKeepsVersions(a, ops[done], b);
      trace := trace + [b];
      done := done + 1;
    }
    HistYields(s.log.file, s.hist);
  }

  /** One operation, if the source gets through it. */
  method Do(s: Lss, op: Op, adrift: bool, ghost a: View) returns (ok: bool, adrift2: bool, ghost b: View)
    requires s.Sound() && Shows(s, a) && Sensible(a) && a.adrift == adrift && (!adrift ==> s.Valid()) && OpOk(op)
    modifies s, s.log, s.fm
    ensures Shows(s, b) && b.adrift == adrift2 && HistOk(s.log.file, s.hist)
    ensures if ok then Step(a, op, b) && !Blocked(a, op)
            else b == a && (Blocked(a, op) || MeetsTop(s, op) || (adrift && NeverEnds(s, op)))
    ensures ok || (!MeetsTop(s, op) && !NeverEnds(s, op)) ==> s.Sound() && (!adrift2 ==> s.Valid())
  {
    hide LogOk, IndexOk, FreeOk, LiveOk, CrView, HasHeader, CrOk, DataOk, DiskRecord, LiveRecord, GoodCommits, HistOk;
    hide Shows, Sensible, MeetsTop, Saved, Changed, Moved, Anchored, NeverEnds;
    ok, adrift2, b := true, adrift, a;
    match op {
      case Put(k, data) =>
        ok, b := DoPut(s, k, data, a);
        ChangedKeeps(a, k, Some(data));
      case Remove(k) =>
        ok, b := DoRemove(s, k, a);
        ChangedKeeps(a, k, None);
      case Take(minr, cnt) =>
        ok := DoTake(s, minr, cnt, a);
      case Save(flag) =>
        ok, b := DoSave(s, flag, a);
      case GoTo(gen) =>
        ok, adrift2, b := DoGoTo(s, gen, adrift, a);
    }
  }

  lemma ChangedKeeps(a: View, k: nat, value: Option<Bytes>)
    ensures Changed(a, k, value).adrift == a.adrift
  {
  }

  // ------------------------------------------------------------------ clients

  function Saves(ops: seq<Op>): nat {
    if ops == [] then 0 else Saves(ops[..|ops| - 1]) + (if ops[|ops| - 1].Save? then 1 else 0)
  }

  lemma {:induction false} StraightGeneration(trace: seq<View>, ops: seq<Op>, n: nat, i: nat)
    requires IsRun(trace, ops, n) && i <= n && Straight(ops[..i]) && !trace[0].adrift
    ensures trace[i].generation == trace[0].generation + Saves(ops[..i]) && !trace[i].adrift
    decreases i
  {
    if i > 0 {
      assert ops[..i][..i - 1] == ops[..i - 1];
      assert ops[..i][i - 1] == ops[i - 1];
      StraightGeneration(trace, ops, n, i - 1);
      assert Step(trace[i - 1], ops[i - 1], trace[i]);
    }
  }

  /** The operations of a client that works, commits, works on, and goes back to the commit. */
  function ThereAndBack(before: seq<Op>, flag: int, after: seq<Op>, gen: nat): seq<Op> {
    before + [Save(flag)] + after + [GoTo(gen)]
  }

  /** Only the last operation changes the generation, and operation i is a commit. */
  ghost predicate Plan(ops: seq<Op>, i: nat) {
    i < |ops| - 1 && ops[i].Save? && ops[|ops| - 1].GoTo? && forall m | 0 <= m < |ops| - 1 :: !ops[m].GoTo?
  }

  lemma ThereAndBackIsPlan(before: seq<Op>, flag: int, after: seq<Op>, gen: nat)
    requires Straight(before) && Straight(after)
    ensures var ops := ThereAndBack(before, flag, after, gen);
      && Plan(ops, |before|) && ops[..|before|] == before && ops[|ops| - 1] == GoTo(gen)
    ensures (forall i | 0 <= i < |before| :: OpOk(before[i])) && (forall i | 0 <= i < |after| :: OpOk(after[i])) ==>
      (forall i | 0 <= i < |ThereAndBack(before, flag, after, gen)| :: OpOk(ThereAndBack(before, flag, after, gen)[i]))
  {
    var ops := ThereAndBack(before, flag, after, gen);
    var n := |before|;
    forall m | 0 <= m < |ops| - 1
      ensures ops[m] == if m < n then before[m] else if m == n then Save(flag) else after[m - n - 1]
    {
    }
  }

  /** Before its last operation such a run has not gone back. */
  lemma PlanUnderWay(trace: seq<View>, ops: seq<Op>, n: nat, i: nat, j: nat)
    requires IsRun(trace, ops, n) && Sensible(trace[0]) && !trace[0].adrift && Plan(ops, i) && j <= n && j < |ops|
    ensures !trace[j].adrift && trace[j].generation == trace[0].generation + Saves(ops[..j])
    ensures i < j ==> trace[j].at != 0 && trace[i + 1].generation <= trace[j].generation
  {
    hide Step, Sensible, Linked;
    assert Straight(ops[..j]);
    StraightGeneration(trace, ops, n, j);
    if i < j {
      SavedIsOnTrail(trace, ops, n, i, j);
    }
  }

  lemma SavedIsOnTrail(trace: seq<View>, ops: seq<Op>, n: nat, i: nat, j: nat)
    requires IsRun(trace, ops, n) && Sensible(trace[0]) && Plan(ops, i) && i < j <= n && j < |ops|
    ensures trace[j].at != 0 && trace[i + 1].generation <= trace[j].generation
  {
    hide Step, Linked;
    RunKeepsVersions(trace, ops, n, i, j);
    StillOnTrail(trace, ops, n, i, j);
    SaveRecords(trace, ops, n, i, j);
    SaveStep(trace[i], ops[i].flag, trace[i + 1]);
    HigherOnTrail(trace[j], trace[i + 1].at);
  }

  lemma HigherOnTrail(x: View, p: nat)
    requires Sensible(x) && Trail(x.versions, x.at, p) && p in x.versions
    ensures x.at != 0 && x.versions[p].generation <= x.generation
  {
    assert Linked(x.versions, x.at);
    TrailFalls(x.versions, x.at, p);
  }

  /** Nothing blocks it. */
  lemma PlanNotBlocked(trace: seq<View>, ops: seq<Op>, n: nat, i: nat)
    requires IsRun(trace, ops, n) && Sensible(trace[0]) && !trace[0].adrift && Plan(ops, i) && n < |ops|
    requires ops[|ops| - 1] == GoTo(trace[0].generation + Saves(ops[..i]) + 1)
    requires trace[0].generation > NUM_BOOKMARKS && InStep(trace[0])
    ensures !Blocked(trace[n], ops[n]) && !trace[n].adrift
  {
    hide Step, Sensible, Linked, Trail, IsRun, Saves;
    assert Straight(ops[..n]);
    StraightInStep(trace, ops, n, n);
    PlanUnderWay(trace, ops, n, i, n);
    PlanUnderWay(trace, ops, n, i, if i < n then i else n);
  }

  /** At its end it has gone back to the commit. */
  lemma PlanDone(trace: seq<View>, ops: seq<Op>, n: nat, i: nat)
    requires IsRun(trace, ops, n) && Sensible(trace[0]) && !trace[0].adrift && Plan(ops, i) && n == |ops|
    requires ops[n - 1] == GoTo(trace[0].generation + Saves(ops[..i]) + 1)
    ensures trace[n].live == trace[i].Pending() && !trace[n].adrift
  {
    hide Step, Sensible, Linked, Trail, Saves;
    PlanUnderWay(trace, ops, n, i, i);
    RunKeepsVersions(trace, ops, n, i, n);
    SaveStep(trace[i], ops[i].flag, trace[i + 1]);
    GoBack(trace, ops, n, i, n - 1);
  }

  /** Whatever is written, deleted and committed after a commit, going back to its generation brings back
      the records as the operations before it made them; and that is what its commit record yields. */
  method WorkAndGoBack(s: Lss, before: seq<Op>, flag: int, after: seq<Op>) returns (done: nat, ops: seq<Op>, ghost p: nat)
    requires s.Valid() && Straight(before) && Straight(after)
    requires (forall i | 0 <= i < |before| :: OpOk(before[i])) && (forall i | 0 <= i < |after| :: OpOk(after[i]))
    modifies s, s.log, s.fm
    ensures ops == ThereAndBack(before, flag, after, old(s.cr.generation) + Saves(before) + 1)
    // only an allocation that meets the top key keeps the client from getting through
    ensures done <= |ops| && (done < |ops| ==> MeetsTop(s, ops[done]))
    ensures done > |before| ==> p in s.hist && forall k: nat :: s.hist[p](k) == Net(before, k, old(s.Live(k)))
    ensures done == |ops| ==> s.Valid() && forall k: nat :: s.Live(k) == Net(before, k, old(s.Live(k)))
  {
    hide LogOk, IndexOk, FreeOk, LiveOk, CrView, HasHeader, CrOk, DataOk, DiskRecord, LiveRecord, GoodCommits, HistOk, Anchored;
    hide Step, Plan, Blocked, MeetsTop, NeverEnds, ThereAndBack, Straight, Sensible, Linked, Net, Yields, ShowsIndex, InStep;
    var gen := s.cr.generation + Saves(before) + 1;
    ghost var i := |before|;
    p := 0;
    ops := ThereAndBack(before, flag, after, gen);
    ThereAndBackIsPlan(before, flag, after, gen);
    ghost var trace;
    done, trace := Run(s, ops, false);
    FirstGenerations(trace[0]);
    if done < |ops| { PlanNotBlocked(trace, ops, done, i); }
    if done > i {
      p := SavedLive(trace, ops, done, i);
      if done == |ops| { PlanDone(trace, ops, done, i); }
    }
  }

  lemma FirstGenerations(x: View)
    requires Sensible(x)
    ensures x.generation + 1 >= FIRST_GENERATION
  {
    if x.at != 0 { TrailFirst(x.versions, x.at); }
  }

  /** The commit at i records what the operations before it made of the records. */
  lemma SavedLive(trace: seq<View>, ops: seq<Op>, n: nat, i: nat) returns (p: nat)
    requires IsRun(trace, ops, n) && Sensible(trace[0]) && !trace[0].adrift && Plan(ops, i) && i < n
    requires InStep(trace[0])
    ensures p in trace[n].versions && trace[n].versions[p].image.contents == trace[i].Pending()
    ensures forall k: nat :: trace[i].Pending()(k) == Net(ops[..i], k, trace[0].live(k))
  {
    hide Step, Sensible, Linked, Net;
    SaveRecords(trace, ops, n, i, n);
    p := trace[i + 1].at;
    assert Straight(ops[..i]);
    StraightInStep(trace, ops, n, i);
    forall k: nat ensures trace[i].Pending()(k) == Net(ops[..i], k, trace[0].live(k)) {
      StraightRun(trace, ops, n, i, k);
    }
  }

  /** A rewind to a generation that does not exist, then a commit: what was written and committed before
      is still live but not in the new generation. */
  method LostRewindForgets(hash: nat -> nat, data: Bytes) returns (s: Lss, o: Outcome)
    ensures o == Lost && s.Sound() && s.cr.generation == FIRST_GENERATION + 1
    ensures s.Live(7) == Some(data)
    ensures s.cr.selfAt in s.hist && s.hist[s.cr.selfAt](7) == None
  {
    hide LogOk, IndexOk, FreeOk, LiveOk, CrView, HasHeader, CrOk, DataOk, DiskRecord, LiveRecord, GoodCommits, Anchored;
    hide FindLine, CountUsed, HasLine;
    var g, ok;
    s, o := StrayAtFirst(hash, 1, data);
    g, ok := s.Commit(0);
  }

  /** A first generation without records, n lines of one record each, a second generation, and a change of
      generation that fails: the commit record counts no lines. */
  method StrayAtFirst(hash: nat -> nat, n: nat, data: Bytes) returns (s: Lss, o: Outcome)
    requires 1 <= n <= MaxFill(CAPS[0])
    ensures fresh(s) && fresh(s.log) && fresh(s.fm) && o == Lost && s.Sound()
    ensures s.cr.generation == FIRST_GENERATION && s.cr.mixCnt == 0 && s.cr.mixOffset != 0
    ensures |s.slots| == CAPS[0] && ShowsLines(s.slots, FirstLines(n))
    ensures s.Live(7) == Some(data) && s.Pending(7) == None
  {
    hide LogOk, IndexOk, FreeOk, LiveOk, CrView, HasHeader, CrOk, DataOk, DiskRecord, LiveRecord, GoodCommits, Anchored;
    hide FindLine, CountUsed, HasLine, HistOk, CrStored, HasRoom;
    s := new Lss.Create(hash);
    NoLines(s.slots);
    s.ValidIsLive();
    var g, ok := s.Commit(0);
    ghost var at := s.cr.selfAt;
    NotFirstCell(s.log.file, at);
    FillLines(s, n, data);
    s.ValidIsLive();
    g, ok := s.Commit(0);
    SecondRoot(s.log.file, s.cr.selfAt, at);
    o := s.SetGeneration(500);
  }

  lemma SecondRoot(file: seq<Cell>, p: nat, at: nat)
    requires GoodCommits(file) && CommitAt(file, p) && CrAt(file, p).prevAt == at != 0 && CrAt(file, p).generation == FIRST_GENERATION + 1
    ensures CommitAt(file, at) && RootAt(file, p) == at
  {
    hide CrOk, DataOk;
    assert GoodCommit(file, p) && GoodCommit(file, at);
    var prev := CrAt(file, at).prevAt;
    assert prev != 0 ==> GoodCommit(file, prev);
    assert Root(file, at) == at && Root(file, p) == Root(file, at);
  }

  lemma NotFirstCell(file: seq<Cell>, p: nat)
    requires GoodCommits(file) && CommitAt(file, p)
    ensures p != 0
  {
    assert GoodCommit(file, p);
  }

  // ------------------------------------------------------------------ clients of a store adrift

  function FirstLines(n: nat): set<nat> {
    if n == 0 then {} else FirstLines(n - 1) + {n - 1}
  }

  lemma {:induction false} LinesBelow(n: nat)
    ensures forall i | i in FirstLines(n) :: i < n
  {
    if n > 0 { LinesBelow(n - 1); }
  }

  lemma NextLine(n: nat)
    ensures n !in FirstLines(n) && FirstLines(n + 1) == FirstLines(n) + {n}
  {
    LinesBelow(n);
  }

  lemma {:induction false} HowManyFirst(n: nat)
    ensures |FirstLines(n)| == n
  {
    if n > 0 {
      HowManyFirst(n - 1);
      NextLine(n - 1);
    }
  }

  lemma NoLines(slots: seq<Slot>)
    requires forall e | e in slots :: !Used(e)
    ensures ShowsLines(slots, FirstLines(0))
  {
  }

  /** A record in line i, which the index did not have. */
  method WriteLineOf(s: Lss, i: nat, data: Bytes)
    requires s.Sound() && s.Ends(i) && i < LINE_KEYS && ShowsLines(s.slots, FirstLines(i))
    requires s.cr.mixCnt < MaxFill(|s.slots|)
    modifies s, s.log, s.fm
    ensures s.Sound() && (old(s.Valid()) ==> s.Valid()) && ShowsLines(s.slots, FirstLines(i + 1))
    ensures |s.slots| == old(|s.slots|) && s.hist == old(s.hist) && old(s.log.file) <= s.log.file
    ensures s.cr == old(s.cr).(mixOffset := 0, diffs := [], mixCnt := old(s.cr.mixCnt) + 1)
    ensures forall k: nat :: s.Live(k) == if k == 7 + LINE_SIZE * i then Some(data) else old(s.Live(k))
  {
    hide LogOk, IndexOk, FreeOk, LiveOk, CrView, HasHeader, GoodCommits, HistOk, CrOk, DataOk, DiskRecord, LiveRecord, Anchored;
    hide CountUsed, FindLine, MaxFill, HasRoom;
    NextLine(i);
    var ended, tripped, at := s.Write(7 + LINE_SIZE * i, data);
  }

  /** n lines of one record each, in a store without lines. */
  method FillLines(s: Lss, n: nat, data: Bytes)
    requires s.Valid() && ShowsLines(s.slots, FirstLines(0)) && s.cr.mixCnt == 0 && n <= MaxFill(|s.slots|) && n < LINE_KEYS
    modifies s, s.log, s.fm
    ensures s.Valid() && ShowsLines(s.slots, FirstLines(n))
    ensures |s.slots| == old(|s.slots|) && s.hist == old(s.hist) && old(s.log.file) <= s.log.file
    ensures IndexPartOnly(old(s.cr), s.cr)
    ensures n > 0 ==> s.Live(7) == Some(data)
  {
    hide LogOk, IndexOk, FreeOk, LiveOk, CrView, HasHeader, GoodCommits, HistOk, CrOk, DataOk, DiskRecord, LiveRecord, Anchored;
    hide CountUsed, FindLine, ShowsLines, MaxFill;
    for i := 0 to n
      invariant s.Valid() && ShowsLines(s.slots, FirstLines(i)) && s.cr.mixCnt == i
      invariant |s.slots| == old(|s.slots|) && s.hist == old(s.hist) && old(s.log.file) <= s.log.file
      invariant IndexPartOnly(old(s.cr), s.cr)
      invariant i > 0 ==> s.Live(7) == Some(data)
    {
      WriteLineOf(s, i, data);
    }
  }

  /** A store adrift, a record in a new line, and a commit: its assertion stops the program, because the
      index has two lines and the commit record counts one. */
  method AdriftCommitStops(hash: nat -> nat, data: Bytes) returns (s: Lss, ok: bool)
    ensures !ok && s.Sound() && s.cr.mixCnt == 1 && CountUsed(s.slots) == 2
  {
    hide LogOk, IndexOk, FreeOk, LiveOk, CrView, HasHeader, GoodCommits, HistOk, CrOk, DataOk, DiskRecord, LiveRecord, Anchored;
    hide CountUsed, FindLine;
    var o, gen;
    s, o := StrayAtFirst(hash, 1, data);
    LinesAre(s, 1);
    WriteLineOf(s, 1, data);
    LinesAre(s, 2);
    gen, ok := s.Commit(0);
    LinesAre(s, 2);
  }

  /** A store adrift whose commit record counts no lines fills its table of seven lines, and then a write
      to another line never ends. */
  method FullTableNeverEnds(hash: nat -> nat, data: Bytes) returns (s: Lss, ended: bool)
    ensures !ended && s.cr.mixCnt == 2 && |s.slots| == 7
  {
    hide LogOk, IndexOk, FreeOk, LiveOk, CrView, HasHeader, GoodCommits, HistOk, CrOk, DataOk, DiskRecord, LiveRecord, Anchored;
    hide CountUsed, FindLine;
    var o;
    s, o := StrayAtFirst(hash, 5, data);
    for i := 5 to 7
      invariant s.Sound() && ShowsLines(s.slots, FirstLines(i)) && s.cr.mixCnt == i - 5 && |s.slots| == 7
    {
      LinesAre(s, i);
      WriteLineOf(s, i, data);
    }
    LinesAre(s, 7);
    var tripped, at;
    ended, tripped, at := s.Write(7 + LINE_SIZE * 7, data);
  }

  lemma LinesAre(s: Lss, n: nat)
    requires s.Sound() && ShowsLines(s.slots, FirstLines(n))
    ensures CountUsed(s.slots) == n
  {
    hide LogOk, IndexOk, FreeOk, LiveOk, HasHeader, GoodCommits, HistOk, CrOk, DataOk, Anchored, FindLine, CountUsed;
    OneLineEach(s);
    LineCount(s.slots, FirstLines(n));
    HowManyFirst(n);
  }
}
