/** What the fields of an open store mean together, and why each step keeps it so.
    Everything here is about values: the log `c`, the part of it already on the volume
    (`flushed` cells), the index slots, the commit record and the free map.  */
module LssState {
  import opened Options
  import opened LssFormat
  import opened LssLog
  import opened LssIndex
  import opened FreeMaps

  // ------------------------------------------------------------------ the index against the log

  ghost predicate IndexOk(hash: nat -> nat, slots: seq<Slot>, count: nat, c: seq<Cell>, flushed: nat) {
    TableOk(hash, slots, count) && SlotsOk(slots, c, flushed)
  }

  /** The free map only ever holds numbers that have no locator; the numbers of a line that
      is still on the volume are held back until the line is loaded. */
  ghost predicate FreeOk(free: seq<Interval>, slots: seq<Slot>, c: seq<Cell>) {
    && Canonical(free) && Free(free, MAX_KEY)
    && (forall k: nat | Free(free, k) :: Value(slots, c, k) == 0)
    && (forall k: nat, e | Used(e) && e in slots && e.mem.None? && k / LINE_SIZE == e.lineKey :: !Free(free, k))
  }

  lemma TopEntry(free: seq<Interval>)
    requires Canonical(free) && Free(free, MAX_KEY)
    ensures free != [] && free[|free| - 1].to == MAX_KEY
  {
    var i :| 0 <= i < |free| && free[i].from <= MAX_KEY <= free[i].to;
  }

  /** Nothing the index says changes when more is logged. */
  lemma SlotEntryExtends(e: Slot, c: seq<Cell>, c2: seq<Cell>, flushed: nat, i: nat)
    requires c <= c2 && flushed <= |c| && Used(e) && SlotOk(e, c, flushed)
    ensures SlotEntry(e, c2, i) == SlotEntry(e, c, i)
  {
  }

  lemma ValueExtends(slots: seq<Slot>, c: seq<Cell>, c2: seq<Cell>, flushed: nat, key: nat)
    requires c <= c2 && flushed <= |c| && SlotsOk(slots, c, flushed)
    ensures Value(slots, c2, key) == Value(slots, c, key)
  {
    match FindLine(slots, key / LINE_SIZE)
    case None =>
    case Some(e) =>
      var j :| 0 <= j < |slots| && slots[j] == e;
      SlotEntryExtends(e, c, c2, flushed, key % LINE_SIZE);
  }

  lemma IndexExtends(hash: nat -> nat, slots: seq<Slot>, count: nat, c: seq<Cell>, c2: seq<Cell>, flushed: nat, flushed2: nat)
    requires c <= c2 && flushed <= |c| && flushed <= flushed2 && IndexOk(hash, slots, count, c, flushed)
    ensures IndexOk(hash, slots, count, c2, flushed2)
    ensures forall k: nat :: Value(slots, c2, k) == Value(slots, c, k)
  {
    forall k: nat ensures Value(slots, c2, k) == Value(slots, c, k) {
      ValueExtends(slots, c, c2, flushed, k);
    }
  }

  lemma FreeExtends(free: seq<Interval>, slots: seq<Slot>, c: seq<Cell>, c2: seq<Cell>)
    requires FreeOk(free, slots, c)
    requires forall k: nat :: Value(slots, c2, k) == Value(slots, c, k)
    ensures FreeOk(free, slots, c2)
  {
  }

  // ------------------------------------------------------------------ loading a line

  /** lssi_get_line on slot h, as far as the table is concerned. */
  ghost predicate Loaded(a: seq<Slot>, b: seq<Slot>, c: seq<Cell>, h: nat) {
    h < |a| && |b| == |a| &&
    (b == a || (a[h].mem.None? && a[h].lineOffset != 0 && LineAt(c, a[h].lineOffset, a[h].lineKey)
                && b == a[h := a[h].(mem := Some(c[a[h].lineOffset].payload.entries))]))
  }

  /** Two tables differing only in which lines are in memory. */
  ghost predicate SameShape(a: seq<Slot>, b: seq<Slot>) {
    |a| == |b| && forall i | 0 <= i < |a| ::
      (Used(a[i]) == Used(b[i]) && a[i].lineKey == b[i].lineKey && a[i].lineOffset == b[i].lineOffset)
  }

  ghost predicate SameValues(a: seq<Slot>, b: seq<Slot>, c: seq<Cell>) {
    forall k: nat :: Value(b, c, k) == Value(a, c, k)
  }

  /** The same lines at the same places, the same map. */
  ghost predicate SameIndex(a: seq<Slot>, b: seq<Slot>, c: seq<Cell>) {
    SameShape(a, b) && SameValues(a, b, c)
  }

  lemma SameIndexTrans(a: seq<Slot>, b: seq<Slot>, d: seq<Slot>, c: seq<Cell>)
    requires SameIndex(a, b, c) && SameIndex(b, d, c)
    ensures SameIndex(a, d, c)
  {
  }

  lemma SameIndexSelf(a: seq<Slot>, c: seq<Cell>)
    ensures SameIndex(a, a, c)
  {
  }

  /** Every slot from the home position up to h holds some other line. */
  ghost predicate Passed(hash: nat -> nat, slots: seq<Slot>, lineKey: nat, h: nat) {
    |slots| > 0 && forall i | 0 <= i < |slots| && Cyc(Home(hash, lineKey, |slots|), i, h) ::
      (Used(slots[i]) && slots[i].lineKey != lineKey)
  }

  /** The slot before the home position: where a probe has gone all the way round. */
  function LastProbed(hash: nat -> nat, lineKey: nat, cap: nat): (f: nat)
    requires cap > 0
    ensures f < cap
  {
    var s := Home(hash, lineKey, cap);
    if s == 0 then cap - 1 else s - 1
  }

  /** One more step of a probe loop. */
  lemma ProbeStep(hash: nat -> nat, a: seq<Slot>, b: seq<Slot>, lineKey: nat, h: nat)
    requires Passed(hash, a, lineKey, h) && SameShape(a, b)
    requires h < |a| && Used(b[h]) && b[h].lineKey != lineKey && h != LastProbed(hash, lineKey, |a|)
    ensures var n := Next(h, |a|);
      && Passed(hash, b, lineKey, n)
      && Steps(n, LastProbed(hash, lineKey, |a|), |a|) < Steps(h, LastProbed(hash, lineKey, |a|), |a|)
  {
  }

  /** A probe that has gone all the way round: the table is full and does not have the line. */
  lemma ProbedAll(hash: nat -> nat, a: seq<Slot>, b: seq<Slot>, lineKey: nat)
    requires |a| > 0 && Passed(hash, a, lineKey, LastProbed(hash, lineKey, |a|)) && SameShape(a, b)
    requires var f := LastProbed(hash, lineKey, |a|); Used(b[f]) && b[f].lineKey != lineKey
    ensures FindLine(b, lineKey) == None && CountUsed(b) == |b|
  {
    forall i | 0 <= i < |b| ensures Used(b[i]) && b[i].lineKey != lineKey {
      var f := LastProbed(hash, lineKey, |a|);
      if i != f { assert Cyc(Home(hash, lineKey, |a|), i, f); }
    }
    CountBound(b);
    forall e | e in b && Used(e) ensures e.lineKey != lineKey {
      var i :| 0 <= i < |b| && b[i] == e;
    }
  }

  lemma LoadKeepsIndex(hash: nat -> nat, a: seq<Slot>, b: seq<Slot>, count: nat, c: seq<Cell>, flushed: nat, h: nat)
    requires IndexOk(hash, a, count, c, flushed) && Loaded(a, b, c, h)
    ensures IndexOk(hash, b, count, c, flushed) && SameShape(a, b)
    ensures forall k: nat :: Value(b, c, k) == Value(a, c, k)
  {
    if b != a {
      RewriteLine(hash, a, count, h, b[h]);
      forall k: nat ensures Value(b, c, k) == Value(a, c, k) {
        ValueAfterWrite(a, c, h, b[h], k);
        FindLineIs(a, h);
      }
    }
  }

  lemma LoadKeepsFree(free: seq<Interval>, free2: seq<Interval>, a: seq<Slot>, b: seq<Slot>, c: seq<Cell>, h: nat)
    requires FreeOk(free, a, c) && UniqueKeys(a) && UniqueKeys(b) && Loaded(a, b, c, h) && b != a
    requires forall k: nat :: Value(b, c, k) == Value(a, c, k)
    requires Canonical(free2) && Free(free2, MAX_KEY)
    requires forall k: nat | Free(free2, k) ::
               Free(free, k) || (k / LINE_SIZE == a[h].lineKey && SlotEntry(b[h], c, k % LINE_SIZE) == 0)
    ensures FreeOk(free2, b, c)
  {
    FindLineIs(b, h);
    forall k: nat | Free(free2, k) ensures Value(b, c, k) == 0 {
      if !Free(free, k) {
        assert FindLine(b, k / LINE_SIZE) == Some(b[h]);
      }
    }
    forall k: nat, e | Used(e) && e in b && e.mem.None? && k / LINE_SIZE == e.lineKey ensures !Free(free2, k) {
      var j :| 0 <= j < |b| && b[j] == e;
      assert j != h;
      assert a[j] == e;
      assert e in a;
      assert a[j].lineKey != a[h].lineKey;
    }
  }

  // ------------------------------------------------------------------ exactly which numbers are free

  /** The line is still on the volume. */
  ghost predicate Unloaded(slots: seq<Slot>, lineKey: nat) {
    exists e :: e in slots && Used(e) && e.mem.None? && e.lineKey == lineKey
  }

  ghost predicate SameUnloaded(a: seq<Slot>, b: seq<Slot>) {
    forall lk: nat :: Unloaded(b, lk) <==> Unloaded(a, lk)
  }

  /** A number without a locator whose line has been loaded on the way from a to b. */
  ghost predicate LetGo(a: seq<Slot>, b: seq<Slot>, c: seq<Cell>, k: nat) {
    Unloaded(a, k / LINE_SIZE) && !Unloaded(b, k / LINE_SIZE) && Value(a, c, k) == 0
  }

  /** Between a and b lines were loaded, and that let go of their unused numbers and of nothing else. */
  ghost predicate Released(free: seq<Interval>, free2: seq<Interval>, a: seq<Slot>, b: seq<Slot>, c: seq<Cell>) {
    && (forall lk: nat | Unloaded(b, lk) :: Unloaded(a, lk))
    && (forall k: nat :: Free(free2, k) <==> Free(free, k) || LetGo(a, b, c, k))
  }

  /** After a store the key is free or not; other numbers are as lines were loaded. */
  ghost predicate FreeAfter(free: seq<Interval>, free2: seq<Interval>, a: seq<Slot>, b: seq<Slot>, c: seq<Cell>, key: nat, value: nat) {
    && !Unloaded(b, key / LINE_SIZE) && (forall lk: nat | Unloaded(b, lk) :: Unloaded(a, lk))
    && (forall k: nat :: Free(free2, k) <==> if k == key then value == 0 else Free(free, k) || LetGo(a, b, c, k))
  }

  /** Every number without a record is free, but for the lines still on the volume. */
  ghost predicate FreeExact(free: seq<Interval>, slots: seq<Slot>, c: seq<Cell>) {
    forall k: nat | k <= MAX_KEY :: Free(free, k) <==> Value(slots, c, k) == 0 && !Unloaded(slots, k / LINE_SIZE)
  }

  /** The line has a locator for every number. */
  ghost predicate FullLine(slots: seq<Slot>, c: seq<Cell>, lineKey: nat) {
    forall k: nat | k / LINE_SIZE == lineKey :: Value(slots, c, k) != 0
  }

  /** The lines that the search for free numbers from minr on loads. */
  predicate Wanted(e: Slot, minr: nat) {
    e.hasFree && e.lineKey >= minr / LINE_SIZE && e.lineOffset != 0 && e.mem.None?
  }

  ghost predicate WantedLoaded(a: seq<Slot>, b: seq<Slot>, minr: nat, n: nat) {
    && |a| == |b|
    && forall j: nat | j < |a| ::
         if j < n && Wanted(a[j], minr) then b[j].mem.Some? && b[j] == a[j].(mem := b[j].mem) else b[j] == a[j]
  }

  /** Of the lines from minr on, all that have an unused number are loaded, and no others. */
  lemma LinesLoaded(a: seq<Slot>, b: seq<Slot>, c: seq<Cell>, flushed: nat, minr: nat)
    requires UniqueKeys(a) && SlotsOk(a, c, flushed) && WantedLoaded(a, b, minr, |a|)
    ensures forall lk: nat :: Unloaded(b, lk) <==> Unloaded(a, lk) && (lk < minr / LINE_SIZE || FullLine(a, c, lk))
  {
    forall j: nat | j < |a| && Used(a[j]) && a[j].mem.None? ensures a[j].hasFree <==> !FullLine(a, c, a[j].lineKey) {
      FlagIsFull(a, c, flushed, j);
    }
    forall lk: nat ensures Unloaded(b, lk) <==> Unloaded(a, lk) && (lk < minr / LINE_SIZE || FullLine(a, c, lk)) {
      if Unloaded(b, lk) {
        var j :| 0 <= j < |b| && Used(b[j]) && b[j].mem.None? && b[j].lineKey == lk;
        assert !Wanted(a[j], minr) && a[j] in a;
      }
      if Unloaded(a, lk) && (lk < minr / LINE_SIZE || FullLine(a, c, lk)) {
        var j :| 0 <= j < |a| && Used(a[j]) && a[j].mem.None? && a[j].lineKey == lk;
        assert !Wanted(a[j], minr) && b[j] in b;
      }
    }
  }

  lemma FlagIsFull(a: seq<Slot>, c: seq<Cell>, flushed: nat, j: nat)
    requires UniqueKeys(a) && SlotsOk(a, c, flushed) && j < |a| && Used(a[j]) && a[j].mem.None?
    ensures a[j].hasFree <==> !FullLine(a, c, a[j].lineKey)
  {
    FindLineIs(a, j);
    var e, line := a[j], c[a[j].lineOffset].payload.entries;
    assert SlotOk(e, c, flushed);
    forall k: nat | k / LINE_SIZE == e.lineKey ensures Value(a, c, k) == line[k % LINE_SIZE] {
    }
    if e.hasFree {
      var i :| 0 <= i < |line| && line[i] == 0;
      KeyOf(e.lineKey, i);
      assert Value(a, c, e.lineKey * LINE_SIZE + i) == 0;
    }
  }

  lemma KeyOf(lineKey: nat, i: nat)
    requires i < LINE_SIZE
    ensures (lineKey * LINE_SIZE + i) / LINE_SIZE == lineKey && (lineKey * LINE_SIZE + i) % LINE_SIZE == i
  {
  }

  /** The numbers that are free once these lines are loaded. */
  ghost predicate SearchMap(free: seq<Interval>, free2: seq<Interval>, a: seq<Slot>, c: seq<Cell>, minr: nat) {
    forall k: nat :: Free(free2, k) <==>
      Free(free, k) || (Unloaded(a, k / LINE_SIZE) && k / LINE_SIZE >= minr / LINE_SIZE && Value(a, c, k) == 0)
  }

  lemma SearchMapIs(free: seq<Interval>, free2: seq<Interval>, a: seq<Slot>, b: seq<Slot>, c: seq<Cell>, minr: nat)
    requires Released(free, free2, a, b, c)
    requires forall lk: nat :: Unloaded(b, lk) <==> Unloaded(a, lk) && (lk < minr / LINE_SIZE || FullLine(a, c, lk))
    ensures SearchMap(free, free2, a, c, minr)
  {
    hide Unloaded, Value;
  }

  /** Where the free map is exact, the numbers from minr on that are free then are those without a record. */
  lemma SearchMapExact(free: seq<Interval>, free2: seq<Interval>, a: seq<Slot>, c: seq<Cell>, minr: nat)
    requires FreeExact(free, a, c) && SearchMap(free, free2, a, c, minr)
    ensures forall k: nat | minr <= k <= MAX_KEY :: Free(free2, k) <==> Value(a, c, k) == 0
  {
    hide Unloaded, Value;
    forall k: nat | minr <= k <= MAX_KEY ensures Free(free2, k) <==> Value(a, c, k) == 0 {
      assert k / LINE_SIZE >= minr / LINE_SIZE;
    }
  }

  lemma ReleasedSelf(free: seq<Interval>, a: seq<Slot>, c: seq<Cell>)
    ensures Released(free, free, a, a, c)
  {
  }

  lemma ReleasedTrans(f0: seq<Interval>, f1: seq<Interval>, f2: seq<Interval>, a: seq<Slot>, b: seq<Slot>, d: seq<Slot>, c: seq<Cell>)
    requires Released(f0, f1, a, b, c) && Released(f1, f2, b, d, c) && SameValues(a, b, c)
    ensures Released(f0, f2, a, d, c)
  {
    hide Unloaded, Value;
  }

  lemma ReleasedAcross(f0: seq<Interval>, f1: seq<Interval>, a: seq<Slot>, b: seq<Slot>, d: seq<Slot>, c: seq<Cell>)
    requires SameUnloaded(a, b) && SameValues(a, b, c) && Released(f0, f1, b, d, c)
    ensures Released(f0, f1, a, d, c)
  {
    hide Unloaded, Value;
  }

  lemma ReleasedTo(f0: seq<Interval>, f1: seq<Interval>, a: seq<Slot>, b: seq<Slot>, d: seq<Slot>, c: seq<Cell>)
    requires Released(f0, f1, a, b, c) && SameUnloaded(b, d)
    ensures Released(f0, f1, a, d, c)
  {
    hide Unloaded, Value;
  }

  /** Loading slot h. */
  lemma LoadReleases(free: seq<Interval>, free2: seq<Interval>, a: seq<Slot>, b: seq<Slot>, c: seq<Cell>, h: nat, line: seq<nat>)
    requires UniqueKeys(a) && h < |a| && Used(a[h]) && a[h].mem.None? && b == a[h := a[h].(mem := Some(line))] && |line| == LINE_SIZE
    requires SameValues(a, b, c) && UniqueKeys(b)
    requires forall k: nat :: Free(free2, k) <==> Free(free, k) || (k / LINE_SIZE == a[h].lineKey && line[k % LINE_SIZE] == 0)
    ensures Released(free, free2, a, b, c)
  {
    LoadedLeaves(a, b, h);
    FindLineIs(b, h);
    forall k: nat ensures k / LINE_SIZE == a[h].lineKey ==> Value(a, c, k) == line[k % LINE_SIZE] {
    }
    hide Unloaded, Value;
  }

  lemma LoadedLeaves(a: seq<Slot>, b: seq<Slot>, h: nat)
    requires UniqueKeys(a) && h < |a| == |b| && Used(a[h]) && a[h].mem.None? && b == a[h := b[h]]
    requires b[h].mem.Some? && b[h].lineKey == a[h].lineKey
    ensures Unloaded(a, a[h].lineKey)
    ensures forall lk: nat :: Unloaded(b, lk) <==> Unloaded(a, lk) && lk != a[h].lineKey
  {
    assert a[h] in a;
    forall lk: nat ensures Unloaded(b, lk) <==> Unloaded(a, lk) && lk != a[h].lineKey {
      if Unloaded(b, lk) {
        var j :| 0 <= j < |b| && Used(b[j]) && b[j].mem.None? && b[j].lineKey == lk;
        assert j != h && a[j] == b[j] && a[j] in a;
      }
      if Unloaded(a, lk) && lk != a[h].lineKey {
        var j :| 0 <= j < |a| && Used(a[j]) && a[j].mem.None? && a[j].lineKey == lk;
        assert b[j] in b;
      }
    }
  }

  /** Giving a slot that is free or loaded a line in memory. */
  lemma UnloadedSame(a: seq<Slot>, h: nat, e: Slot)
    requires h < |a| && e.mem.Some? && (Used(a[h]) ==> a[h].mem.Some?)
    ensures SameUnloaded(a, a[h := e])
  {
    var b := a[h := e];
    forall lk: nat ensures Unloaded(b, lk) <==> Unloaded(a, lk) {
      if Unloaded(b, lk) {
        var j :| 0 <= j < |b| && Used(b[j]) && b[j].mem.None? && b[j].lineKey == lk;
        assert a[j] in a;
      }
      if Unloaded(a, lk) {
        var j :| 0 <= j < |a| && Used(a[j]) && a[j].mem.None? && a[j].lineKey == lk;
        assert b[j] in b;
      }
    }
  }

  lemma NoLineUnloaded(a: seq<Slot>, key: nat)
    requires FindLine(a, key / LINE_SIZE) == None
    ensures SameUnloaded(a, a) && !Unloaded(a, key / LINE_SIZE)
  {
  }

  lemma SameLinesUnloaded(a: seq<Slot>, b: seq<Slot>)
    requires SameLines(a, b)
    ensures SameUnloaded(a, b)
  {
  }

  /** The end of a store, once the probe has loaded lines. */
  lemma StoreFree(f0: seq<Interval>, f1: seq<Interval>, f2: seq<Interval>, was: seq<Slot>, a: seq<Slot>, b: seq<Slot>, c: seq<Cell>,
                  key: nat, value: nat)
    requires Released(f0, f1, was, a, c) && SameUnloaded(a, b) && !Unloaded(b, key / LINE_SIZE)
    requires forall k: nat :: Free(f2, k) <==> if k == key then value == 0 else Free(f1, k)
    ensures Released(f0, f1, was, b, c) && FreeAfter(f0, f2, was, b, c, key, value)
  {
    hide Unloaded, Value;
  }

  /** A store in the table that loading or growing has made of another. */
  lemma StoreFreeThrough(f0: seq<Interval>, f1: seq<Interval>, free: seq<Interval>, f2: seq<Interval>,
                         was: seq<Slot>, a: seq<Slot>, grown: seq<Slot>, b: seq<Slot>, c: seq<Cell>, key: nat, value: nat)
    requires Released(f0, f1, was, a, c) && SameValues(was, a, c) && SameUnloaded(a, grown) && SameValues(a, grown, c)
    requires Released(f1, free, grown, b, c) && FreeAfter(f1, f2, grown, b, c, key, value)
    ensures Released(f0, free, was, b, c) && FreeAfter(f0, f2, was, b, c, key, value)
  {
    hide Unloaded, Value;
  }

  lemma ExactReleased(f0: seq<Interval>, f1: seq<Interval>, a: seq<Slot>, b: seq<Slot>, c: seq<Cell>)
    requires FreeExact(f0, a, c) && Released(f0, f1, a, b, c) && SameValues(a, b, c)
    ensures FreeExact(f1, b, c)
  {
    hide Unloaded, Value;
  }

  lemma ExactStored(f0: seq<Interval>, f2: seq<Interval>, a: seq<Slot>, b: seq<Slot>, c: seq<Cell>, key: nat, value: nat)
    requires FreeExact(f0, a, c) && FreeAfter(f0, f2, a, b, c, key, value) && Stored(a, b, c, key, value)
    ensures FreeExact(f2, b, c)
  {
    hide Unloaded, Value;
  }

  /** The same, with the log growing around the store. */
  lemma WrittenFree(f0: seq<Interval>, f2: seq<Interval>, a: seq<Slot>, b: seq<Slot>, c0: seq<Cell>, x: seq<Cell>, c: seq<Cell>,
                    key: nat, value: nat)
    requires FreeAfter(f0, f2, a, b, x, key, value) && Stored(a, b, x, key, value)
    requires forall k: nat :: Value(a, x, k) == Value(a, c0, k) && Value(b, c, k) == Value(b, x, k)
    ensures FreeAfter(f0, f2, a, b, c0, key, value)
    ensures FreeExact(f0, a, c0) ==> FreeExact(f2, b, c)
  {
    hide Unloaded, Value;
  }

  lemma EmptyExact(slots: seq<Slot>, c: seq<Cell>)
    requires slots == EmptyTable(CAPS[0])
    ensures FreeExact([Interval(0, MAX_KEY)], slots, c)
  {
    assert forall lk: nat :: FindLine(slots, lk) == None;
    assert forall e | e in slots :: !Used(e);
    forall k: nat | k <= MAX_KEY ensures Free([Interval(0, MAX_KEY)], k) {
      assert [Interval(0, MAX_KEY)][0].from <= k <= [Interval(0, MAX_KEY)][0].to;
    }
  }

  ghost predicate AllFree(free: seq<Interval>) {
    forall k: nat | k <= MAX_KEY :: Free(free, k)
  }

  lemma NewMapIsFree(free: seq<Interval>)
    requires free == [Interval(0, MAX_KEY)]
    ensures Free(free, MAX_KEY) && AllFree(free)
  {
    forall k: nat | k <= MAX_KEY ensures Free(free, k) {
      assert free[0].from <= k <= free[0].to;
    }
  }

  lemma HasLineNext(mix: seq<MasterEntry>, i: nat)
    requires i < |mix|
    ensures forall lk: nat :: HasLine(mix[..i + 1], lk) <==> HasLine(mix[..i], lk) || mix[i].lineKey == lk
  {
    assert mix[..i + 1] == mix[..i] + [mix[i]];
    assert mix[i] in mix[..i + 1];
  }

  lemma InLine(k: nat, lineKey: nat)
    ensures k / LINE_SIZE == lineKey <==> lineKey * LINE_SIZE <= k <= lineKey * LINE_SIZE + (LINE_SIZE - 1)
  {
  }

  /** The numbers of the lines just read are held back from a map in which every number was free. */
  lemma HeldBackExact(f0: seq<Interval>, free: seq<Interval>, slots: seq<Slot>, c: seq<Cell>, mix: seq<MasterEntry>)
    requires AllFree(f0) && forall k: nat :: Free(free, k) <==> Free(f0, k) && !HasLine(mix, k / LINE_SIZE)
    requires forall e | Used(e) :: e in slots <==> exists m :: m in mix && e == SlotOf(m)
    requires forall m | m in mix :: m.lineOffset != 0
    requires forall k: nat :: Value(slots, c, k) == MixValue(c, mix, k)
    ensures FreeExact(free, slots, c)
  {
    MixUnloaded(slots, mix);
    hide Unloaded, Value, HasLine;
  }

  /** The free map f0 after an index has been read back: the numbers of its lines are free once the line is
      in memory and they have no locator; so are those the diff list deletes; others are as they were. */
  ghost predicate FreeLoaded(f0: seq<Interval>, free: seq<Interval>, slots: seq<Slot>, c: seq<Cell>, mix: seq<MasterEntry>, diffs: seq<Diff>) {
    && (forall lk: nat | Unloaded(slots, lk) :: HasLine(mix, lk))
    && (forall k: nat :: Free(free, k) <==>
          if HasLine(mix, k / LINE_SIZE) then Value(slots, c, k) == 0 && !Unloaded(slots, k / LINE_SIZE)
          else if HasDiff(diffs, k) then Value(slots, c, k) == 0 else Free(f0, k))
  }

  lemma HeldBackLoaded(f0: seq<Interval>, free: seq<Interval>, slots: seq<Slot>, c: seq<Cell>, mix: seq<MasterEntry>)
    requires forall k: nat :: Free(free, k) <==> Free(f0, k) && !HasLine(mix, k / LINE_SIZE)
    requires forall e | Used(e) :: e in slots <==> exists m :: m in mix && e == SlotOf(m)
    requires forall m | m in mix :: m.lineOffset != 0
    ensures FreeLoaded(f0, free, slots, c, mix, [])
  {
    MixUnloaded(slots, mix);
    hide Unloaded, Value, HasLine;
  }

  lemma FreeLoadedNext(f0: seq<Interval>, f1: seq<Interval>, f2: seq<Interval>, a: seq<Slot>, b: seq<Slot>, c: seq<Cell>,
                       mix: seq<MasterEntry>, diffs: seq<Diff>, n: nat)
    requires n < |diffs| && FreeLoaded(f0, f1, a, c, mix, diffs[..n])
    requires FreeAfter(f1, f2, a, b, c, diffs[n].recnum, diffs[n].offset) && Stored(a, b, c, diffs[n].recnum, diffs[n].offset)
    ensures FreeLoaded(f0, f2, b, c, mix, diffs[..n + 1])
  {
    assert diffs[..n + 1] == diffs[..n] + [diffs[n]];
    assert diffs[n] in diffs[..n + 1];
    forall k: nat ensures HasDiff(diffs[..n + 1], k) <==> HasDiff(diffs[..n], k) || k == diffs[n].recnum {
    }
    hide Unloaded, Value, HasLine, HasDiff;
  }

  lemma MixUnloaded(slots: seq<Slot>, mix: seq<MasterEntry>)
    requires forall e | Used(e) :: e in slots <==> exists m :: m in mix && e == SlotOf(m)
    requires forall m | m in mix :: m.lineOffset != 0
    ensures forall lk: nat :: HasLine(mix, lk) <==> Unloaded(slots, lk)
  {
    forall lk: nat ensures HasLine(mix, lk) <==> Unloaded(slots, lk) {
      if HasLine(mix, lk) {
        var m :| m in mix && m.lineKey == lk;
        assert SlotOf(m) in slots && Used(SlotOf(m));
      }
      if Unloaded(slots, lk) {
        var e :| e in slots && Used(e) && e.mem.None? && e.lineKey == lk;
        var m :| m in mix && e == SlotOf(m);
      }
    }
  }

  lemma ExactExtends(free: seq<Interval>, a: seq<Slot>, b: seq<Slot>, c: seq<Cell>, c2: seq<Cell>)
    requires FreeExact(free, a, c) && SameUnloaded(a, b) && forall k: nat :: Value(b, c2, k) == Value(a, c, k)
    ensures FreeExact(free, b, c2)
  {
    hide Unloaded, Value;
  }

  // ------------------------------------------------------------------ storing into a line

  /** What lssi_index_store promises about the map. */
  ghost predicate Stored(a: seq<Slot>, b: seq<Slot>, c: seq<Cell>, key: nat, value: nat) {
    forall k: nat :: Value(b, c, k) == if k == key then value else Value(a, c, k)
  }

  /** Overwriting one entry of a loaded line. */
  lemma StoreInLine(hash: nat -> nat, a: seq<Slot>, count: nat, c: seq<Cell>, flushed: nat, h: nat, key: nat, value: nat, e: Slot)
    requires IndexOk(hash, a, count, c, flushed) && h < |a| && Used(a[h]) && a[h].mem.Some?
    requires a[h].lineKey == key / LINE_SIZE && |a[h].mem.value| == LINE_SIZE
    requires e.lineKey == a[h].lineKey && e.lineOffset == 0 && e.mem == Some(a[h].mem.value[key % LINE_SIZE := value])
    ensures IndexOk(hash, a[h := e], count, c, flushed)
    ensures Stored(a, a[h := e], c, key, value)
  {
    RewriteLine(hash, a, count, h, e);
    forall k: nat ensures Value(a[h := e], c, k) == if k == key then value else Value(a, c, k) {
      ValueAfterWrite(a, c, h, e, k);
      FindLineIs(a, h);
      SameKey(k, key);
    }
  }

  lemma SameKey(k: nat, key: nat)
    ensures k == key <==> k / LINE_SIZE == key / LINE_SIZE && k % LINE_SIZE == key % LINE_SIZE
  {
  }

  /** Adding a line that holds one entry. */
  lemma StoreInNewLine(hash: nat -> nat, a: seq<Slot>, count: nat, c: seq<Cell>, flushed: nat, h: nat, key: nat, value: nat, e: Slot)
    requires IndexOk(hash, a, count, c, flushed) && h < |a| && !Used(a[h])
    requires key < MAX_RECNUM
    requires FindLine(a, key / LINE_SIZE) == None
    requires forall i | 0 <= i < |a| && Cyc(Home(hash, key / LINE_SIZE, |a|), i, h) :: Used(a[i])
    requires e.lineKey == key / LINE_SIZE && e.lineOffset == 0
    requires e.mem == Some(seq(LINE_SIZE, i requires 0 <= i < LINE_SIZE => if i == key % LINE_SIZE then value else 0))
    ensures IndexOk(hash, a[h := e], count + 1, c, flushed)
    ensures Stored(a, a[h := e], c, key, value)
  {
    AddLine(hash, a, count, h, e);
    forall k: nat ensures Value(a[h := e], c, k) == if k == key then value else Value(a, c, k) {
      ValueAfterWrite(a, c, h, e, k);
      SameKey(k, key);
    }
  }

  /** The free map after a store: the key leaves it or joins it. */
  lemma StoreKeepsFree(free: seq<Interval>, free2: seq<Interval>, a: seq<Slot>, b: seq<Slot>, c: seq<Cell>, key: nat, value: nat)
    requires FreeOk(free, a, c) && Stored(a, b, c, key, value)
    requires Canonical(free2) && Free(free2, MAX_KEY)
    requires forall k: nat | Free(free2, k) :: (Free(free, k) && (value != 0 ==> k != key)) || (k == key && value == 0)
    requires forall e | Used(e) && e.mem.None? && e in b :: e in a && e.lineKey != key / LINE_SIZE
    ensures FreeOk(free2, b, c)
  {
    forall k: nat, e | Used(e) && e in b && e.mem.None? && k / LINE_SIZE == e.lineKey ensures !Free(free2, k) {
      assert !Free(free, k);
    }
  }

  /** Both tables know the same lines. */
  ghost predicate SameFound(a: seq<Slot>, b: seq<Slot>) {
    forall lk: nat :: FindLine(a, lk).Some? <==> FindLine(b, lk).Some?
  }

  lemma SameShapeFound(a: seq<Slot>, b: seq<Slot>)
    requires SameShape(a, b)
    ensures SameFound(a, b)
  {
    forall lk: nat ensures FindLine(a, lk).Some? <==> FindLine(b, lk).Some? {
      if FindLine(a, lk).Some? {
        var i :| 0 <= i < |a| && Used(a[i]) && a[i].lineKey == lk;
        assert b[i] in b;
      }
      if FindLine(b, lk).Some? {
        var i :| 0 <= i < |b| && Used(b[i]) && b[i].lineKey == lk;
        assert a[i] in a;
      }
    }
  }

  lemma RewriteFound(a: seq<Slot>, h: nat, e: Slot)
    requires h < |a| && Used(a[h]) && Used(e) && e.lineKey == a[h].lineKey
    ensures SameFound(a, a[h := e])
  {
    var b := a[h := e];
    forall lk: nat ensures FindLine(a, lk).Some? <==> FindLine(b, lk).Some? {
      if FindLine(a, lk).Some? {
        var i :| 0 <= i < |a| && Used(a[i]) && a[i].lineKey == lk;
        assert b[i] in b;
      }
      if FindLine(b, lk).Some? {
        var i :| 0 <= i < |b| && Used(b[i]) && b[i].lineKey == lk;
        assert a[i] in a;
      }
    }
  }

  /** Giving slot h a line in memory leaves the unloaded lines those of other slots. */
  lemma UnloadedKept(a: seq<Slot>, h: nat, e: Slot)
    requires h < |a| && UniqueKeys(a) && e.mem.Some?
    requires (Used(a[h]) && a[h].lineKey == e.lineKey) || FindLine(a, e.lineKey) == None
    ensures forall x | Used(x) && x.mem.None? && x in a[h := e] :: x in a && x.lineKey != e.lineKey
  {
    var b := a[h := e];
    forall x | Used(x) && x.mem.None? && x in b ensures x in a && x.lineKey != e.lineKey {
      var j :| 0 <= j < |b| && b[j] == x;
      assert a[j] == x;
      FindLineIs(a, j);
    }
  }

  lemma RehashKeeps(a: seq<Slot>, b: seq<Slot>, c: seq<Cell>, flushed: nat)
    requires SameLines(a, b) && UniqueKeys(a) && UniqueKeys(b) && SlotsOk(a, c, flushed)
    ensures SlotsOk(b, c, flushed) && SameValues(a, b, c) && SameFound(a, b)
  {
    forall i | 0 <= i < |b| && Used(b[i]) ensures SlotOk(b[i], c, flushed) {
      assert b[i] in a;
    }
    forall k: nat ensures Value(b, c, k) == Value(a, c, k) {
      SameLinesSameValue(a, b, c, k);
    }
    forall lk: nat ensures FindLine(a, lk).Some? <==> FindLine(b, lk).Some? {
      match FindLine(a, lk) { case Some(e) => assert e in b; case None => }
      match FindLine(b, lk) { case Some(e) => assert e in a; case None => }
    }
  }

  lemma SameLinesFree(free: seq<Interval>, a: seq<Slot>, b: seq<Slot>, c: seq<Cell>)
    requires FreeOk(free, a, c) && SameLines(a, b) && SameValues(a, b, c)
    ensures FreeOk(free, b, c)
  {
  }

  // ------------------------------------------------------------------ the commit record against the index

  /** While the master index on the volume is current, it and the diff list say what the
      in-memory index says. */
  ghost predicate CrView(file: seq<Cell>, cr: CommitRecord, slots: seq<Slot>, c: seq<Cell>) {
    cr.mixOffset != 0 ==>
      && CrOk(file, cr)
      && (forall k: nat :: DiskValue(file, cr, k) == Value(slots, c, k))
  }

  /** What lssi_diff_store does to the commit record. */
  ghost predicate DiffStored(cr: CommitRecord, cr2: CommitRecord, key: nat, value: nat) {
    && cr2 == cr.(mixOffset := cr2.mixOffset, diffs := cr2.diffs)
    && (if cr.mixOffset == 0 then cr2 == cr
        else if |cr.diffs| >= MAX_DIFFS then cr2.mixOffset == 0 && cr2.diffs == []
        else cr2.mixOffset == cr.mixOffset && |cr2.diffs| <= MAX_DIFFS && DiffUpdated(cr.diffs, cr2.diffs, key, value))
  }

  ghost predicate DiffUpdated(a: seq<Diff>, b: seq<Diff>, key: nat, value: nat) {
    UniqueDiffs(a) ==>
      UniqueDiffs(b) && forall d :: d in b <==> d == Diff(key, value) || (d in a && d.recnum != key)
  }

  lemma DiffReplaced(a: seq<Diff>, i: nat, key: nat, value: nat)
    requires i < |a| && a[i].recnum == key
    ensures DiffUpdated(a, a[i := Diff(key, value)], key, value)
  {
    var b := a[i := Diff(key, value)];
    if UniqueDiffs(a) {
      forall d ensures d in b <==> d == Diff(key, value) || (d in a && d.recnum != key) {
        if d in b { var j :| 0 <= j < |b| && b[j] == d; }
        if d in a && d.recnum != key { var j :| 0 <= j < |a| && a[j] == d; assert b[j] == d; }
        assert b[i] == Diff(key, value);
      }
    }
  }

  lemma DiffAppended(a: seq<Diff>, key: nat, value: nat)
    requires forall d | d in a :: d.recnum != key
    ensures DiffUpdated(a, a + [Diff(key, value)], key, value)
  {
    var b := a + [Diff(key, value)];
    assert forall i | 0 <= i < |a| :: a[i] in a;
  }

  lemma DiffLookup(diffs: seq<Diff>, d: Diff)
    requires UniqueDiffs(diffs) && d in diffs
    ensures HasDiff(diffs, d.recnum) && DiffValue(diffs, d.recnum) == d.offset
  {
    var i :| 0 <= i < |diffs| && diffs[i] == d;
    DiffValueIs(diffs, i);
  }

  lemma DiffUpdatedValue(a: seq<Diff>, b: seq<Diff>, key: nat, value: nat, k: nat)
    requires UniqueDiffs(a) && DiffUpdated(a, b, key, value)
    ensures HasDiff(b, k) <==> k == key || HasDiff(a, k)
    ensures k == key ==> HasDiff(b, k) && DiffValue(b, k) == value
    ensures k != key && HasDiff(a, k) ==> HasDiff(b, k) && DiffValue(b, k) == DiffValue(a, k)
  {
    assert Diff(key, value) in b;
    DiffLookup(b, Diff(key, value));
    if HasDiff(a, k) && k != key {
      var d :| d in a && d.recnum == k && d.offset == DiffValue(a, k);
      DiffLookup(b, d);
    }
  }

  /** A store into an existing line followed by the diff store keeps the two views equal. */
  lemma StoreKeepsView(file: seq<Cell>, cr: CommitRecord, cr2: CommitRecord, a: seq<Slot>, b: seq<Slot>, c: seq<Cell>,
                       key: nat, value: nat)
    requires CrView(file, cr, a, c) && Stored(a, b, c, key, value) && DiffStored(cr, cr2, key, value) && key < MAX_RECNUM
    ensures CrView(file, cr2, b, c)
  {
    if cr2.mixOffset != 0 {
      forall k: nat ensures DiskValue(file, cr2, k) == Value(b, c, k) {
        DiffUpdatedValue(cr.diffs, cr2.diffs, key, value, k);
        assert DiskValue(file, cr, k) == Value(a, c, k);
      }
    }
  }

  lemma ViewExtends(file: seq<Cell>, file2: seq<Cell>, cr: CommitRecord, slots: seq<Slot>, c: seq<Cell>, c2: seq<Cell>)
    requires CrView(file, cr, slots, c) && file <= file2
    requires forall k: nat :: Value(slots, c2, k) == Value(slots, c, k)
    ensures CrView(file2, cr, slots, c2)
  {
    if cr.mixOffset != 0 {
      CrOkStable(file, file2, cr);
      assert MasterOf(file2, cr.mixOffset) == MasterOf(file, cr.mixOffset);
      forall k: nat ensures DiskValue(file2, cr, k) == Value(slots, c2, k) {
        DiskValueStable(file, file2, cr, k);
      }
    }
  }

  /** What the two stores of a write or a delete do to the commit record; `added` says that the
      index gets a new line. */
  ghost predicate CrStored(cr: CommitRecord, cr2: CommitRecord, added: bool, key: nat, value: nat) {
    if added then cr2 == cr.(mixOffset := 0, diffs := [], mixCnt := cr.mixCnt + 1)
    else DiffStored(cr, cr2, key, value)
  }

  /** A store adds no line to the table but that of a added key. */
  ghost predicate LinesAfter(a: seq<Slot>, b: seq<Slot>, lineKey: nat, added: bool) {
    forall lk: nat :: FindLine(b, lk).Some? <==> FindLine(a, lk).Some? || (added && lk == lineKey)
  }

  /** Every line is in memory. */
  ghost predicate AllLoaded(slots: seq<Slot>) {
    forall e | e in slots && Used(e) :: e.mem.Some?
  }

  /** A current commit record stays current through a store. */
  lemma ViewAfterStore(file: seq<Cell>, cr: CommitRecord, cr2: CommitRecord, a: seq<Slot>, b: seq<Slot>, c: seq<Cell>,
                       added: bool, key: nat, value: nat)
    requires CrView(file, cr, a, c) && Stored(a, b, c, key, value) && CrStored(cr, cr2, added, key, value) && key < MAX_RECNUM
    ensures CrView(file, cr2, b, c)
  {
    if !added { StoreKeepsView(file, cr, cr2, a, b, c, key, value); }
  }

  /** No record changes while the log grows around a store that does not get anywhere. */
  lemma LiveThrough(hash: nat -> nat, a: seq<Slot>, b: seq<Slot>, n: nat, c: seq<Cell>, x: seq<Cell>, c2: seq<Cell>, flushed: nat)
    requires LiveOk(a, c) && c <= x <= c2 && flushed <= |x| && IndexOk(hash, b, n, x, flushed) && SameIndex(a, b, x)
    requires forall k: nat :: Value(a, x, k) == Value(a, c, k)
    ensures forall k: nat :: LiveRecord(b, c2, k) == LiveRecord(a, c, k)
  {
    hide LiveOk, LiveRecord, Value, IndexOk;
    LiveExtends(a, c, x);
    SameLiveIndex(a, b, x);
    IndexExtends(hash, b, n, x, c2, flushed, flushed);
    LiveExtends(b, x, c2);
  }

  /** A store in a table that differs from another only in what is in memory, or where lines sit. */
  lemma StoreThrough(was: seq<Slot>, a: seq<Slot>, b: seq<Slot>, c: seq<Cell>, key: nat, value: nat, added: bool)
    requires SameFound(was, a) && SameValues(was, a, c)
    requires Stored(a, b, c, key, value) && LinesAfter(a, b, key / LINE_SIZE, added)
    ensures Stored(was, b, c, key, value) && LinesAfter(was, b, key / LINE_SIZE, added)
  {
  }

  lemma GrownThrough(was: seq<Slot>, a: seq<Slot>, b: seq<Slot>, c: seq<Cell>)
    requires SameFound(was, a) && SameValues(was, a, c) && SameFound(a, b) && SameValues(a, b, c)
    ensures SameFound(was, b) && SameValues(was, b, c)
  {
  }

  lemma SameFoundAt(a: seq<Slot>, b: seq<Slot>, lineKey: nat)
    requires SameFound(a, b)
    ensures FindLine(a, lineKey).Some? <==> FindLine(b, lineKey).Some?
  {
  }

  /** A deletion of a record in no line. */
  lemma NothingStored(was: seq<Slot>, a: seq<Slot>, c: seq<Cell>, key: nat)
    requires SameFound(was, a) && SameValues(was, a, c) && FindLine(a, key / LINE_SIZE) == None
    ensures Stored(a, a, c, key, 0) && Stored(was, a, c, key, 0) && LinesAfter(was, a, key / LINE_SIZE, false)
    ensures forall e | Used(e) && e in a :: e.lineKey != key / LINE_SIZE
  {
  }

  lemma AddedFound(a: seq<Slot>, h: nat, e: Slot)
    requires h < |a| && !Used(a[h]) && Used(e)
    ensures LinesAfter(a, a[h := e], e.lineKey, true)
  {
    var b := a[h := e];
    forall lk: nat ensures FindLine(b, lk).Some? <==> FindLine(a, lk).Some? || lk == e.lineKey {
      if FindLine(a, lk).Some? {
        var i :| 0 <= i < |a| && Used(a[i]) && a[i].lineKey == lk;
        assert b[i] in b;
      }
      if lk == e.lineKey { assert b[h] in b; }
      if FindLine(b, lk).Some? {
        var i :| 0 <= i < |b| && Used(b[i]) && b[i].lineKey == lk;
        assert i != h ==> a[i] in a;
      }
    }
  }

  /** While the logged index is kept, the commit record describes the store of that key alone,
      whatever else it describes. */
  lemma StoreDescribed(file: seq<Cell>, cr: CommitRecord, cr2: CommitRecord, key: nat, value: nat)
    requires CrOk(file, cr) && DiffStored(cr, cr2, key, value) && cr2.mixOffset != 0 && key < MAX_RECNUM
    ensures CrOk(file, cr2)
    ensures forall k: nat :: DiskValue(file, cr2, k) == if k == key then value else DiskValue(file, cr, k)
  {
    forall k: nat ensures DiskValue(file, cr2, k) == if k == key then value else DiskValue(file, cr, k) {
      DiffUpdatedValue(cr.diffs, cr2.diffs, key, value, k);
    }
  }

  // ------------------------------------------------------------------ live data

  ghost function LiveRecord(slots: seq<Slot>, c: seq<Cell>, k: nat): Option<Bytes> {
    BytesAt(c, Value(slots, c, k))
  }

  ghost predicate LiveOk(slots: seq<Slot>, c: seq<Cell>) {
    forall k: nat | Value(slots, c, k) != 0 :: DataAt(c, Value(slots, c, k), k)
  }

  lemma LiveExtends(slots: seq<Slot>, c: seq<Cell>, c2: seq<Cell>)
    requires LiveOk(slots, c) && c <= c2
    requires forall k: nat :: Value(slots, c2, k) == Value(slots, c, k)
    ensures LiveOk(slots, c2)
    ensures forall k: nat :: LiveRecord(slots, c2, k) == LiveRecord(slots, c, k)
  {
    forall k: nat ensures LiveRecord(slots, c2, k) == LiveRecord(slots, c, k) {
      if Value(slots, c, k) != 0 { assert DataAt(c, Value(slots, c, k), k); }
    }
    forall k: nat | Value(slots, c2, k) != 0 ensures DataAt(c2, Value(slots, c2, k), k) {
      assert DataAt(c, Value(slots, c, k), k);
    }
  }

  // ------------------------------------------------------------------ commit records on the volume

  /** A commit record on the volume: readable, complete, and linked to its predecessor. */
  ghost predicate GoodCommit(file: seq<Cell>, p: nat)
    requires CommitAt(file, p)
  {
    var cr := CrAt(file, p);
    && CrOk(file, cr) && DataOk(file, cr)
    && cr.selfAt == p && p != 0
    && |cr.bookmarks| == NUM_BOOKMARKS
    && (forall b | b in cr.bookmarks && b != 0 :: CommitAt(file, b))
    && cr.generation >= FIRST_GENERATION
    && (if cr.prevAt == 0 then cr.generation == FIRST_GENERATION
        else cr.prevAt < p && CommitAt(file, cr.prevAt) && CrAt(file, cr.prevAt).generation + 1 == cr.generation)
  }

  ghost predicate GoodCommits(file: seq<Cell>) {
    forall p | 0 <= p < |file| && CommitAt(file, p) :: GoodCommit(file, p)
  }

  /** A volume left behind by a store. */
  ghost predicate GoodVolume(file: seq<Cell>) {
    FileOk(file) && GoodCommits(file)
  }

  lemma GoodCommitExtends(file: seq<Cell>, file2: seq<Cell>, p: nat)
    requires file <= file2 && CommitAt(file, p) && GoodCommit(file, p)
    ensures CommitAt(file2, p) && GoodCommit(file2, p)
  {
    var cr := CrAt(file, p);
    CrOkStable(file, file2, cr);
    DataOkStable(file, file2, cr);
  }

  lemma GoodCommitsExtend(file: seq<Cell>, file2: seq<Cell>)
    requires GoodCommits(file) && file <= file2
    requires forall p: nat | |file| <= p < |file2| && CommitAt(file2, p) :: GoodCommit(file2, p)
    ensures GoodCommits(file2)
  {
    forall p | 0 <= p < |file2| && CommitAt(file2, p) ensures GoodCommit(file2, p) {
      if p < |file| { GoodCommitExtends(file, file2, p); }
    }
  }

  ghost predicate HasHeader(c: seq<Cell>) {
    c != [] && c[0].Head? && c[0].payload.VolumeHeader?
  }

  /** Where the in-memory commit record stands: before the first commit, or at one on the volume. */
  ghost predicate Anchored(file: seq<Cell>, cr: CommitRecord) {
    && |cr.bookmarks| == NUM_BOOKMARKS
    && (forall b | b in cr.bookmarks && b != 0 :: CommitAt(file, b))
    && (if cr.selfAt == 0 then cr.generation + 1 == FIRST_GENERATION && cr.prevAt == 0
        else CommitAt(file, cr.selfAt)
             && CrAt(file, cr.selfAt).generation == cr.generation
             && CrAt(file, cr.selfAt).prevAt == cr.prevAt)
  }

  /** The index part of a commit record: all that stores change in it. */
  ghost predicate IndexPartOnly(cr: CommitRecord, cr2: CommitRecord) {
    cr2 == cr.(mixCnt := cr2.mixCnt, mixOffset := cr2.mixOffset, diffs := cr2.diffs)
  }

  lemma AnchoredExtends(file: seq<Cell>, file2: seq<Cell>, cr: CommitRecord, cr2: CommitRecord)
    requires Anchored(file, cr) && file <= file2 && IndexPartOnly(cr, cr2)
    ensures Anchored(file2, cr2)
  {
  }

  // ------------------------------------------------------------------ the chain of generations

  /** The commit record of a generation, following prev_cr_at from position p. */
  ghost function Ancestor(file: seq<Cell>, p: nat, gen: nat): Option<nat>
    requires GoodCommits(file) && CommitAt(file, p)
    decreases p
  {
    var cr := CrAt(file, p);
    assert GoodCommit(file, p);
    if cr.generation == gen then Some(p)
    else if cr.prevAt == 0 then None
    else Ancestor(file, cr.prevAt, gen)
  }

  /** Where following prev_cr_at ends. */
  ghost function Root(file: seq<Cell>, p: nat): nat
    requires GoodCommits(file) && CommitAt(file, p)
    decreases p
  {
    assert GoodCommit(file, p);
    if CrAt(file, p).prevAt == 0 then p else Root(file, CrAt(file, p).prevAt)
  }

  lemma {:induction false} RootIsFirst(file: seq<Cell>, p: nat)
    requires GoodCommits(file) && CommitAt(file, p)
    ensures CommitAt(file, Root(file, p)) && CrAt(file, Root(file, p)).generation == FIRST_GENERATION
    decreases p
  {
    assert GoodCommit(file, p);
    if CrAt(file, p).prevAt != 0 {
      RootIsFirst(file, CrAt(file, p).prevAt);
    }
  }

  /** Generations fall by one per link, so exactly the generations from the first on are found. */
  lemma {:induction false} AncestorFound(file: seq<Cell>, p: nat, gen: nat)
    requires GoodCommits(file) && CommitAt(file, p)
    ensures Ancestor(file, p, gen).Some? <==> FIRST_GENERATION <= gen <= CrAt(file, p).generation
    ensures var r := Ancestor(file, p, gen);
      r.Some? ==> CommitAt(file, r.value) && CrAt(file, r.value).generation == gen && r.value <= p
    decreases p
  {
    assert GoodCommit(file, p);
    var cr := CrAt(file, p);
    if cr.generation != gen && cr.prevAt != 0 {
      AncestorFound(file, cr.prevAt, gen);
    }
  }

  ghost function AncestorAt(file: seq<Cell>, p: nat, gen: nat): (r: nat)
    requires GoodCommits(file) && CommitAt(file, p) && FIRST_GENERATION <= gen <= CrAt(file, p).generation
    ensures CommitAt(file, r) && CrAt(file, r).generation == gen && Ancestor(file, p, gen) == Some(r)
  {
    AncestorFound(file, p, gen);
    Ancestor(file, p, gen).value
  }

  /** Appending to the volume never changes which commit record a generation names. */
  lemma {:induction false} AncestorStable(file: seq<Cell>, file2: seq<Cell>, p: nat, gen: nat)
    requires GoodCommits(file) && GoodCommits(file2) && file <= file2 && CommitAt(file, p)
    ensures CommitAt(file2, p) && Ancestor(file2, p, gen) == Ancestor(file, p, gen)
    decreases p
  {
    assert GoodCommit(file, p);
    var cr := CrAt(file, p);
    if cr.generation != gen && cr.prevAt != 0 {
      AncestorStable(file, file2, cr.prevAt, gen);
    }
  }

  /** The written record is live with the written bytes; all others are as before. */
  lemma LiveAfterWrite(a: seq<Slot>, b: seq<Slot>, c: seq<Cell>, x: seq<Cell>, c2: seq<Cell>, recnum: nat, at: nat, data: Bytes)
    requires LiveOk(a, c) && c <= c2 && 0 < |c| <= at && DataAt(c2, at, recnum) && c2[at].payload.bytes == data
    requires forall k: nat :: Value(a, x, k) == Value(a, c, k)
    requires Stored(a, b, x, recnum, at)
    requires forall k: nat :: Value(b, c2, k) == Value(b, x, k)
    ensures LiveOk(b, c2)
    ensures forall k: nat :: LiveRecord(b, c2, k) == if k == recnum then Some(data) else LiveRecord(a, c, k)
  {
    assert forall k: nat :: Value(b, c2, k) == if k == recnum then at else Value(a, c, k);
    forall k: nat ensures LiveRecord(b, c2, k) == if k == recnum then Some(data) else LiveRecord(a, c, k) {
      if k != recnum && Value(a, c, k) != 0 { assert DataAt(c, Value(a, c, k), k); }
    }
    forall k: nat | Value(b, c2, k) != 0 ensures DataAt(c2, Value(b, c2, k), k) {
      if k != recnum { assert DataAt(c, Value(a, c, k), k); }
    }
  }

  lemma LiveAfterDelete(a: seq<Slot>, b: seq<Slot>, c: seq<Cell>, recnum: nat)
    requires LiveOk(a, c) && Stored(a, b, c, recnum, 0)
    ensures LiveOk(b, c)
    ensures forall k: nat :: LiveRecord(b, c, k) == if k == recnum then None else LiveRecord(a, c, k)
  {
    forall k: nat | Value(b, c, k) != 0 ensures DataAt(c, Value(b, c, k), k) {
      assert Value(b, c, k) == Value(a, c, k);
    }
  }

  lemma SameIndexKeeps(file: seq<Cell>, cr: CommitRecord, a: seq<Slot>, b: seq<Slot>, c: seq<Cell>)
    requires CrView(file, cr, a, c) && LiveOk(a, c) && SameIndex(a, b, c)
    ensures CrView(file, cr, b, c) && LiveOk(b, c)
    ensures forall k: nat :: LiveRecord(b, c, k) == LiveRecord(a, c, k)
  {
    SameShapeFound(a, b);
    forall k: nat | Value(b, c, k) != 0 ensures DataAt(c, Value(b, c, k), k) {
      assert Value(b, c, k) == Value(a, c, k);
    }
  }

  lemma SameLiveIndex(a: seq<Slot>, b: seq<Slot>, c: seq<Cell>)
    requires LiveOk(a, c) && SameIndex(a, b, c)
    ensures LiveOk(b, c) && forall k: nat :: LiveRecord(b, c, k) == LiveRecord(a, c, k)
  {
    SameValuesKeepLive(a, b, c);
  }

  /** Handing a run of free numbers out. */
  lemma FreeShrinks(free: seq<Interval>, free2: seq<Interval>, slots: seq<Slot>, c: seq<Cell>, rec: nat, cnt: nat)
    requires FreeOk(free, slots, c) && RangeTaken(free, rec, cnt, free2) && rec + cnt <= MAX_KEY
    ensures FreeOk(free2, slots, c) && forall i | rec <= i < rec + cnt :: !Free(free2, i)
  {
  }

  // ------------------------------------------------------------------ the committed history

  /** Each commit record on the volume yields what the history says. */
  ghost predicate HistOk(file: seq<Cell>, hist: map<nat, nat -> Option<Bytes>>) {
    && (forall p: nat :: CommitAt(file, p) <==> p in hist)
    && (forall p: nat, k: nat | p in hist && CommitAt(file, p) :: DiskRecord(file, CrAt(file, p), k) == hist[p](k))
  }

  /** Appending data segments leaves every committed generation readable. */
  lemma HistSurvivesData(file: seq<Cell>, file2: seq<Cell>, hist: map<nat, nat -> Option<Bytes>>)
    requires GoodCommits(file) && HistOk(file, hist) && DataAppended(file, file2)
    ensures GoodCommits(file2) && HistOk(file2, hist)
  {
    GoodCommitsExtend(file, file2);
    forall p: nat ensures CommitAt(file2, p) <==> p in hist {
      if p < |file| { assert file2[p] == file[p]; }
    }
    forall p: nat, k: nat | p in hist && CommitAt(file2, p)
      ensures DiskRecord(file2, CrAt(file2, p), k) == hist[p](k)
    {
      assert CommitAt(file, p) && GoodCommit(file, p);
      DiskRecordStable(file, file2, CrAt(file, p), k);
    }
  }

  /** Appending a commit block adds that generation and leaves the others readable. */
  lemma HistSurvivesCommit(file: seq<Cell>, cr: CommitRecord, hist: map<nat, nat -> Option<Bytes>>, contents: nat -> Option<Bytes>)
    requires GoodCommits(file) && HistOk(file, hist)
    requires CommitAt(file + CommitBlock(cr), |file|) && GoodCommit(file + CommitBlock(cr), |file|)
    requires forall k: nat :: DiskRecord(file + CommitBlock(cr), cr, k) == contents(k)
    ensures GoodCommits(file + CommitBlock(cr)) && HistOk(file + CommitBlock(cr), hist[|file| := contents])
  {
    var file2 := file + CommitBlock(cr);
    var hist2 := hist[|file| := contents];
    assert file2[|file|] == CommitBlock(cr)[0];
    forall p: nat | |file| < p < |file2| ensures !CommitAt(file2, p) {
      assert file2[p] == CommitBlock(cr)[p - |file|];
    }
    GoodCommitsExtend(file, file2);
    forall p: nat ensures CommitAt(file2, p) <==> p in hist2 {
      if p < |file| { assert file2[p] == file[p]; }
    }
    forall p: nat, k: nat | p in hist2 && CommitAt(file2, p)
      ensures DiskRecord(file2, CrAt(file2, p), k) == hist2[p](k)
    {
      if p != |file| {
        assert CommitAt(file, p) && GoodCommit(file, p);
        DiskRecordStable(file, file2, CrAt(file, p), k);
      }
    }
  }

  // ------------------------------------------------------------------ rebuilding the map at commit

  ghost predicate InMix(mix: seq<MasterEntry>, lineKey: nat, at: nat) {
    exists m :: m in mix && m.lineKey == lineKey && m.lineOffset == at
  }

  ghost predicate InTable(slots: seq<Slot>, lineKey: nat, at: nat) {
    exists e :: e in slots && Used(e) && e.lineKey == lineKey && e.lineOffset == at
  }

  /** mix lists the lines of a table whose lines are all on the log. */
  ghost predicate Lists(mix: seq<MasterEntry>, slots: seq<Slot>) {
    forall lk: nat, at: nat :: InMix(mix, lk, at) <==> InTable(slots, lk, at)
  }

  function EntryOf(e: Slot): MasterEntry { MasterEntry(e.lineKey, e.lineOffset, e.hasFree) }

  /** The lines of a table in table order: what the loop of lssi_commit collects. */
  function MixOf(slots: seq<Slot>): seq<MasterEntry> {
    if slots == [] then [] else
    var n := |slots| - 1;
    MixOf(slots[..n]) + (if slots[n].lineOffset != 0 then [EntryOf(slots[n])] else [])
  }

  ghost predicate AllWritten(slots: seq<Slot>) {
    forall i | 0 <= i < |slots| && Used(slots[i]) :: slots[i].lineOffset != 0
  }

  lemma {:induction false} MixCount(slots: seq<Slot>)
    requires AllWritten(slots)
    ensures |MixOf(slots)| == CountUsed(slots)
  {
    if slots != [] {
      MixCount(slots[..|slots| - 1]);
    }
  }

  lemma {:induction false} MixMembers(slots: seq<Slot>)
    ensures forall m :: m in MixOf(slots) <==> exists e :: e in slots && e.lineOffset != 0 && m == EntryOf(e)
  {
    if slots != [] {
      var n := |slots| - 1;
      MixMembers(slots[..n]);
      assert slots == slots[..n] + [slots[n]];
      forall m ensures m in MixOf(slots) <==> exists e :: e in slots && e.lineOffset != 0 && m == EntryOf(e) {
        if m in MixOf(slots) && m !in MixOf(slots[..n]) {
          assert slots[n] in slots && m == EntryOf(slots[n]);
        }
      }
    }
  }

  lemma {:induction false} MixUnique(slots: seq<Slot>)
    requires UniqueKeys(slots)
    ensures UniqueLines(MixOf(slots))
  {
    if slots != [] {
      var n := |slots| - 1;
      MixUnique(slots[..n]);
      MixMembers(slots[..n]);
      forall m | m in MixOf(slots[..n]) && slots[n].lineOffset != 0 ensures m.lineKey != slots[n].lineKey {
        var e :| e in slots[..n] && e.lineOffset != 0 && m == EntryOf(e);
        var j :| 0 <= j < n && slots[j] == e;
      }
      assert forall i | 0 <= i < |MixOf(slots[..n])| :: MixOf(slots[..n])[i] in MixOf(slots[..n]);
    }
  }

  lemma MixListsTable(slots: seq<Slot>, c: seq<Cell>, flushed: nat)
    requires UniqueKeys(slots) && SlotsOk(slots, c, flushed) && AllWritten(slots)
    ensures MixOk(c, MixOf(slots)) && Lists(MixOf(slots), slots)
  {
    var mix := MixOf(slots);
    MixMembers(slots);
    MixUnique(slots);
    forall m | m in mix
      ensures m.lineOffset != 0 && m.lineKey < LINE_KEYS && LineAt(c, m.lineOffset, m.lineKey)
      ensures FlagOk(c, m.lineOffset, m.lineKey, m.hasFree)
    {
      var e :| e in slots && e.lineOffset != 0 && m == EntryOf(e);
      var j :| 0 <= j < |slots| && slots[j] == e;
      assert SlotOk(slots[j], c, flushed);
    }
    forall lk: nat, at: nat ensures InMix(mix, lk, at) <==> InTable(slots, lk, at) {
      if InMix(mix, lk, at) {
        var m :| m in mix && m.lineKey == lk && m.lineOffset == at;
        var e :| e in slots && e.lineOffset != 0 && m == EntryOf(e);
        assert Used(e);
      }
      if InTable(slots, lk, at) {
        var e :| e in slots && Used(e) && e.lineKey == lk && e.lineOffset == at;
        assert EntryOf(e) in mix;
      }
    }
  }

  /** Marking a loaded line as written at `at`. */
  lemma LineWritten(hash: nat -> nat, a: seq<Slot>, count: nat, c: seq<Cell>, flushed: nat, h: nat, e: Slot)
    requires IndexOk(hash, a, count, c, flushed) && h < |a| && a[h].mem.Some? && e.lineOffset != 0
    requires e == a[h].(lineOffset := e.lineOffset, hasFree := e.hasFree)
    requires LineAt(c, e.lineOffset, e.lineKey) && c[e.lineOffset].payload.entries == a[h].mem.value
    requires e.hasFree <==> HasZero(a[h].mem.value)
    ensures IndexOk(hash, a[h := e], count, c, flushed)
    ensures SameValues(a, a[h := e], c) && SameFound(a, a[h := e])
    ensures forall x | Used(x) && x in a[h := e] && x.mem.None? :: x in a
  {
    RewriteLine(hash, a, count, h, e);
    assert SlotOk(a[h], c, flushed);
    forall k: nat ensures Value(a[h := e], c, k) == Value(a, c, k) {
      ValueAfterWrite(a, c, h, e, k);
      FindLineIs(a, h);
    }
    RewriteFound(a, h, e);
  }

  lemma WrittenKeepsFree(free: seq<Interval>, a: seq<Slot>, b: seq<Slot>, c: seq<Cell>)
    requires FreeOk(free, a, c) && SameValues(a, b, c)
    requires forall x | Used(x) && x in b && x.mem.None? :: x in a
    ensures FreeOk(free, b, c)
  {
  }

  lemma SameValuesKeepLive(a: seq<Slot>, b: seq<Slot>, c: seq<Cell>)
    requires LiveOk(a, c) && SameValues(a, b, c)
    ensures LiveOk(b, c) && forall k: nat :: LiveRecord(b, c, k) == LiveRecord(a, c, k)
  {
    forall k: nat | Value(b, c, k) != 0 ensures DataAt(c, Value(b, c, k), k) {
      assert Value(b, c, k) == Value(a, c, k);
    }
  }

  /** Once its lines and its master index are logged, the commit record says what the index says. */
  lemma MasterWritten(slots: seq<Slot>, c: seq<Cell>, flushed: nat, cr: CommitRecord)
    requires UniqueKeys(slots) && SlotsOk(slots, c, flushed) && AllWritten(slots)
    requires cr.mixOffset != 0 && MasterAt(c, cr.mixOffset) && MasterOf(c, cr.mixOffset) == MixOf(slots)
    requires cr.mixCnt == CountUsed(slots) && cr.diffs == []
    ensures CrView(c, cr, slots, c)
  {
    var mix := MixOf(slots);
    MixListsTable(slots, c, flushed);
    MixCount(slots);
    assert forall e | e in slots && Used(e) :: e.lineOffset != 0;
    forall k: nat ensures DiskValue(c, cr, k) == Value(slots, c, k) {
      MixOfTable(slots, c, flushed, mix, k);
    }
    forall lk: nat | FindLine(slots, lk).Some? ensures HasLine(mix, lk) {
      var e :| e in slots && Used(e) && e.lineKey == lk;
      assert InTable(slots, lk, e.lineOffset);
      assert InMix(mix, lk, e.lineOffset);
    }
  }

  lemma MasterKept(c: seq<Cell>, c2: seq<Cell>, at: nat)
    requires c <= c2 && at < |c|
    ensures MasterOf(c2, at) == MasterOf(c, at)
  {
  }

  /** The lines of the master index are those of the table. */
  lemma MasterLines(slots: seq<Slot>)
    requires AllWritten(slots)
    ensures forall lk: nat :: HasLine(MixOf(slots), lk) <==> FindLine(slots, lk).Some?
  {
    MixMembers(slots);
    forall lk: nat ensures HasLine(MixOf(slots), lk) <==> FindLine(slots, lk).Some? {
      if HasLine(MixOf(slots), lk) {
        var m :| m in MixOf(slots) && m.lineKey == lk;
        var e :| e in slots && e.lineOffset != 0 && m == EntryOf(e);
      }
      if FindLine(slots, lk).Some? {
        var i :| 0 <= i < |slots| && Used(slots[i]) && slots[i].lineKey == lk;
        assert slots[i] in slots && EntryOf(slots[i]) in MixOf(slots);
      }
    }
  }

  /** The commit record a commit writes. */
  function NextCommit(cr: CommitRecord, at: nat, flag: int): CommitRecord
    requires |cr.bookmarks| == NUM_BOOKMARKS
  {
    cr.(prevAt := cr.selfAt, selfAt := at, generation := cr.generation + 1,
        bookmarks := if 0 < flag <= NUM_BOOKMARKS then cr.bookmarks[flag - 1 := at] else cr.bookmarks)
  }

  /** The block just appended is a good commit record holding the map of the in-memory one. */
  lemma CommitIsGood(file: seq<Cell>, cr: CommitRecord, flag: int)
    requires GoodCommits(file) && file != [] && Anchored(file, cr)
    requires CrOk(file, cr) && DataOk(file, cr)
    ensures var cr2 := NextCommit(cr, |file|, flag);
      var file2 := file + CommitBlock(cr2);
      && CommitAt(file2, |file|) && CrAt(file2, |file|) == cr2
      && GoodCommit(file2, |file|) && Anchored(file2, cr2)
      && CrOk(file2, cr2) && DataOk(file2, cr2)
      && forall k: nat :: DiskRecord(file2, cr2, k) == DiskRecord(file, cr, k)
  {
    var cr2 := NextCommit(cr, |file|, flag);
    var file2 := file + CommitBlock(cr2);
    assert file2[|file|] == CommitBlock(cr2)[0];
    CrOkStable(file, file2, cr);
    DataOkStable(file, file2, cr);
    forall k: nat
      ensures DiskValue(file2, cr2, k) == DiskValue(file, cr, k)
      ensures DiskRecord(file2, cr2, k) == DiskRecord(file, cr, k)
    {
      DiskValueStable(file, file2, cr, k);
      assert DiskValue(file2, cr2, k) == DiskValue(file2, cr, k);
      if DiskValue(file, cr, k) != 0 { assert DataAt(file, DiskValue(file, cr, k), k); }
    }
    forall k: nat | DiskValue(file2, cr2, k) != 0 ensures DataAt(file2, DiskValue(file2, cr2, k), k) {
      assert DataAt(file, DiskValue(file, cr, k), k);
    }
    BookmarksGood(file, file2, cr, flag);
  }

  /** The view of the index does not depend on the linking part of the commit record. */
  lemma SameIndexPartView(file: seq<Cell>, cr: CommitRecord, cr2: CommitRecord, slots: seq<Slot>, c: seq<Cell>)
    requires CrView(file, cr, slots, c)
    requires cr2.mixCnt == cr.mixCnt && cr2.mixOffset == cr.mixOffset && cr2.diffs == cr.diffs
    ensures CrView(file, cr2, slots, c)
  {
    assert forall k: nat :: DiskValue(file, cr2, k) == DiskValue(file, cr, k);
  }

  /** After the commit block is appended the store is as before, now anchored at it. */
  lemma CommittedState(hash: nat -> nat, slots: seq<Slot>, cr2: CommitRecord, free: seq<Interval>, file: seq<Cell>, file2: seq<Cell>)
    requires file <= file2
    requires IndexOk(hash, slots, cr2.mixCnt, file, |file|) && FreeOk(free, slots, file)
    requires CrView(file, cr2, slots, file)
    ensures IndexOk(hash, slots, cr2.mixCnt, file2, |file2|) && FreeOk(free, slots, file2)
    ensures CrView(file2, cr2, slots, file2)
  {
    IndexExtends(hash, slots, cr2.mixCnt, file, file2, |file|, |file2|);
    FreeExtends(free, slots, file, file2);
    ViewExtends(file, file2, cr2, slots, file, file2);
  }

  /** What the slots say, whatever the commit record counts, survives the log growing. */
  lemma SlotsExtend(hash: nat -> nat, slots: seq<Slot>, free: seq<Interval>, c: seq<Cell>, c2: seq<Cell>, flushed: nat, flushed2: nat)
    requires c <= c2 && flushed <= |c| && flushed <= flushed2
    requires IndexOk(hash, slots, CountUsed(slots), c, flushed) && FreeOk(free, slots, c) && LiveOk(slots, c)
    ensures IndexOk(hash, slots, CountUsed(slots), c2, flushed2) && FreeOk(free, slots, c2) && LiveOk(slots, c2)
    ensures forall k: nat :: Value(slots, c2, k) == Value(slots, c, k) && LiveRecord(slots, c2, k) == LiveRecord(slots, c, k)
  {
    IndexExtends(hash, slots, CountUsed(slots), c, c2, flushed, flushed2);
    FreeExtends(free, slots, c, c2);
    LiveExtends(slots, c, c2);
  }

  /** What a commit record says, in a longer log. */
  lemma DescribedExtends(file: seq<Cell>, file2: seq<Cell>, c: seq<Cell>, c2: seq<Cell>, cr: CommitRecord)
    requires file <= file2 && file <= c <= c2 && CrOk(file, cr) && DataOk(c, cr)
    ensures CrOk(file2, cr) && CrOk(c2, cr) && DataOk(c2, cr)
    ensures forall k: nat :: DiskRecord(c2, cr, k) == DiskRecord(c, cr, k)
  {
    CrOkStable(file, file2, cr);
    CrOkStable(file, c, cr);
    CrOkStable(file, c2, cr);
    DataOkStable(c, c2, cr);
    forall k: nat ensures DiskRecord(c2, cr, k) == DiskRecord(c, cr, k) { DiskRecordStable(c, c2, cr, k); }
  }

  lemma TableParts(hash: nat -> nat, slots: seq<Slot>, n: nat, c: seq<Cell>, flushed: nat)
    requires IndexOk(hash, slots, n, c, flushed)
    ensures UniqueKeys(slots) && SlotsOk(slots, c, flushed)
  {
  }

  lemma LinesCounted(hash: nat -> nat, slots: seq<Slot>, n: nat, c: seq<Cell>, flushed: nat)
    requires IndexOk(hash, slots, n, c, flushed)
    ensures CountUsed(slots) == n
  {
  }

  lemma DataBytes(c: seq<Cell>, at: nat, recnum: nat, data: Bytes)
    requires at != 0 && DataAt(c, at, recnum) && c[at].payload.bytes == data
    ensures BytesAt(c, at) == Some(data)
  {
  }

  lemma NoBytes(c: seq<Cell>)
    ensures BytesAt(c, 0) == None
  {
  }

  lemma SameRecords(a: seq<Slot>, b: seq<Slot>, c: seq<Cell>)
    requires SameIndex(a, b, c)
    ensures forall k: nat :: LiveRecord(b, c, k) == LiveRecord(a, c, k)
  {
  }

  /** What it says after a store, in the log in which the stored record has been written. */
  lemma DescribedAfterStore(file: seq<Cell>, file2: seq<Cell>, c: seq<Cell>, c2: seq<Cell>, cr: CommitRecord, cr2: CommitRecord,
                            key: nat, value: nat)
    requires file <= file2 && file <= c <= c2 && file2 <= c2 && CrOk(file, cr) && DataOk(c, cr)
    requires DiffStored(cr, cr2, key, value) && cr2.mixOffset != 0 && key < MAX_RECNUM
    requires value != 0 ==> DataAt(c2, value, key)
    ensures CrOk(file2, cr2) && DataOk(c2, cr2)
    ensures forall k: nat :: DiskRecord(c2, cr2, k) == if k == key then BytesAt(c2, value) else DiskRecord(c, cr, k)
  {
    DescribedExtends(file, file2, c, c2, cr);
    StoreDescribed(file2, cr, cr2, key, value);
    StoreDescribed(c2, cr, cr2, key, value);
    forall k: nat | DiskValue(c2, cr2, k) != 0 ensures DataAt(c2, DiskValue(c2, cr2, k), k) {
      if k != key { assert DiskValue(c2, cr2, k) == DiskValue(c2, cr, k); }
    }
    forall k: nat ensures DiskRecord(c2, cr2, k) == if k == key then BytesAt(c2, value) else DiskRecord(c, cr, k) {
      if k != key { assert DiskValue(c2, cr2, k) == DiskValue(c2, cr, k); }
    }
  }

  /** A current commit record says the live map. */
  lemma ViewIsLive(file: seq<Cell>, cr: CommitRecord, slots: seq<Slot>, c: seq<Cell>)
    requires cr.mixOffset != 0 && CrView(file, cr, slots, c) && file <= c && LiveOk(slots, c)
    ensures CrOk(file, cr) && DataOk(c, cr)
    ensures forall k: nat :: DiskRecord(c, cr, k) == LiveRecord(slots, c, k)
  {
    forall k: nat ensures DiskValue(c, cr, k) == Value(slots, c, k) {
      DiskValueStable(file, c, cr, k);
      assert DiskValue(file, cr, k) == Value(slots, c, k);
    }
    forall k: nat | DiskValue(c, cr, k) != 0 ensures DataAt(c, DiskValue(c, cr, k), k) {
      assert DataAt(c, Value(slots, c, k), k);
    }
  }

  lemma BookmarksGood(file: seq<Cell>, file2: seq<Cell>, cr: CommitRecord, flag: int)
    requires Anchored(file, cr) && file <= file2 && CommitAt(file2, |file|)
    ensures forall b | b in NextCommit(cr, |file|, flag).bookmarks && b != 0 :: CommitAt(file2, b)
  {
    var bs := NextCommit(cr, |file|, flag).bookmarks;
    forall b | b in bs && b != 0 ensures CommitAt(file2, b) {
      var i :| 0 <= i < |bs| && bs[i] == b;
      if b != |file| { assert cr.bookmarks[i] in cr.bookmarks; }
    }
  }

  /** The master index written at commit denotes the map of the index. */
  lemma MixOfTable(slots: seq<Slot>, c: seq<Cell>, flushed: nat, mix: seq<MasterEntry>, key: nat)
    requires UniqueKeys(slots) && SlotsOk(slots, c, flushed) && UniqueLines(mix) && Lists(mix, slots)
    requires forall e | e in slots && Used(e) :: e.lineOffset != 0
    ensures MixValue(c, mix, key) == Value(slots, c, key)
  {
    var lk := key / LINE_SIZE;
    if HasLine(mix, lk) {
      var m :| m in mix && m.lineKey == lk && m.lineOffset == LineOffset(mix, lk);
      assert InMix(mix, lk, m.lineOffset);
      assert InTable(slots, lk, m.lineOffset);
      var e :| e in slots && Used(e) && e.lineKey == lk && e.lineOffset == m.lineOffset;
      var j :| 0 <= j < |slots| && slots[j] == e;
      FindLineIs(slots, j);
    } else {
      forall e | e in slots && Used(e) ensures e.lineKey != lk {
        assert InTable(slots, e.lineKey, e.lineOffset);
        assert InMix(mix, e.lineKey, e.lineOffset);
      }
    }
  }

  // ------------------------------------------------------------------ loading an index back

  /** The index as read from the master index, before the diffs are replayed. */
  lemma MixLoaded(hash: nat -> nat, slots: seq<Slot>, c: seq<Cell>, file: seq<Cell>, mix: seq<MasterEntry>, free: seq<Interval>)
    requires file <= c && MixOk(file, mix) && TableOk(hash, slots, |mix|)
    requires forall e | Used(e) :: e in slots <==> exists m :: m in mix && e == SlotOf(m)
    requires Canonical(free) && Free(free, MAX_KEY)
    requires forall k: nat | HasLine(mix, k / LINE_SIZE) :: !Free(free, k)
    ensures IndexOk(hash, slots, |mix|, c, |file|) && FreeOk(free, slots, c)
    ensures forall k: nat :: Value(slots, c, k) == MixValue(c, mix, k)
    ensures forall lk: nat :: FindLine(slots, lk).Some? <==> HasLine(mix, lk)
  {
    forall i | 0 <= i < |slots| && Used(slots[i]) ensures SlotOk(slots[i], c, |file|) {
      assert slots[i] in slots;
      var m :| m in mix && slots[i] == SlotOf(m);
    }
    forall k: nat ensures Value(slots, c, k) == MixValue(c, mix, k) {
      ReadMixValue(slots, c, mix, k);
    }
    forall lk: nat ensures FindLine(slots, lk).Some? <==> HasLine(mix, lk) {
      if HasLine(mix, lk) {
        var m :| m in mix && m.lineKey == lk;
        assert SlotOf(m) in slots;
      }
      if FindLine(slots, lk).Some? {
        var e :| e in slots && Used(e) && e.lineKey == lk;
        var m :| m in mix && e == SlotOf(m);
      }
    }
    forall k: nat, e | Used(e) && e in slots && e.mem.None? && k / LINE_SIZE == e.lineKey ensures !Free(free, k) {
      var m :| m in mix && e == SlotOf(m);
      assert HasLine(mix, k / LINE_SIZE);
    }
  }

  /** The map after the first n diffs have been replayed. */
  ghost predicate Replayed(slots: seq<Slot>, c: seq<Cell>, mix: seq<MasterEntry>, diffs: seq<Diff>, n: nat)
    requires n <= |diffs|
  {
    forall k: nat :: Value(slots, c, k) ==
      if HasDiff(diffs[..n], k) then DiffValue(diffs[..n], k) else MixValue(c, mix, k)
  }

  lemma ReplayStep(a: seq<Slot>, b: seq<Slot>, c: seq<Cell>, mix: seq<MasterEntry>, diffs: seq<Diff>, n: nat)
    requires n < |diffs| && UniqueDiffs(diffs) && Replayed(a, c, mix, diffs, n)
    requires Stored(a, b, c, diffs[n].recnum, diffs[n].offset)
    ensures Replayed(b, c, mix, diffs, n + 1)
  {
    var d1, d2 := diffs[..n], diffs[..n + 1];
    assert d2 == d1 + [diffs[n]];
    assert UniqueDiffs(d1) && UniqueDiffs(d2);
    forall k: nat ensures Value(b, c, k) == if HasDiff(d2, k) then DiffValue(d2, k) else MixValue(c, mix, k) {
      assert Value(b, c, k) == if k == diffs[n].recnum then diffs[n].offset else Value(a, c, k);
      DiffValueIs(d2, n);
      if HasDiff(d1, k) {
        var d :| d in d1 && d.recnum == k && d.offset == DiffValue(d1, k);
        DiffLookup(d2, d);
      }
    }
  }

  /** Replaying the whole diff list gives the map of the commit record. */
  lemma ReplayDone(slots: seq<Slot>, c: seq<Cell>, file: seq<Cell>, cr: CommitRecord)
    requires CrOk(file, cr) && file <= c
    requires Replayed(slots, c, MasterOf(file, cr.mixOffset), cr.diffs, |cr.diffs|)
    requires forall k: nat | DiskValue(file, cr, k) != 0 :: DataAt(c, DiskValue(file, cr, k), k)
    ensures CrView(file, cr, slots, c) && LiveOk(slots, c)
    ensures forall k: nat :: LiveRecord(slots, c, k) == BytesAt(c, DiskValue(file, cr, k))
  {
    var mix := MasterOf(file, cr.mixOffset);
    assert cr.diffs[..|cr.diffs|] == cr.diffs;
    assert MasterOf(c, cr.mixOffset) == mix;
    forall k: nat ensures DiskValue(file, cr, k) == Value(slots, c, k) {
      DiskValueStable(file, c, cr, k);
    }
    forall k: nat | Value(slots, c, k) != 0 ensures DataAt(c, Value(slots, c, k), k) {
      assert DiskValue(file, cr, k) == Value(slots, c, k);
    }
  }

  /** The diff list has a record in this line. */
  ghost predicate DiffInLine(diffs: seq<Diff>, lineKey: nat) {
    exists d :: d in diffs && d.offset != 0 && d.recnum / LINE_SIZE == lineKey
  }

  /** A line that replaying the diff list adds to those of the master index. */
  ghost predicate ExtraLine(mix: seq<MasterEntry>, diffs: seq<Diff>, lineKey: nat) {
    DiffInLine(diffs, lineKey) && !HasLine(mix, lineKey)
  }

  ghost predicate SomeExtra(mix: seq<MasterEntry>, diffs: seq<Diff>) {
    exists lk: nat :: ExtraLine(mix, diffs, lk)
  }

  /** The commit record after its index has been loaded: adding a line gives up the logged index. */
  ghost predicate Reloaded(file: seq<Cell>, cr: CommitRecord, cr2: CommitRecord) {
    && IndexPartOnly(cr, cr2)
    && if SomeExtra(MasterOf(file, cr.mixOffset), cr.diffs) then cr2.mixOffset == 0 && cr2.diffs == [] else cr2 == cr
  }

  /** The store after loading the index of a commit record: its lines are those of the master index and
      of the diff list, and they are counted. */
  ghost predicate Loads(file: seq<Cell>, cr: CommitRecord, cr2: CommitRecord, slots: seq<Slot>) {
    && Reloaded(file, cr, cr2) && cr2.mixCnt == CountUsed(slots)
    && forall lk: nat :: FindLine(slots, lk).Some? <==> HasLine(MasterOf(file, cr.mixOffset), lk) || DiffInLine(cr.diffs, lk)
  }

  /** The lines after the first n diffs, and what has become of the commit record. */
  ghost predicate ReplayedTo(cr: CommitRecord, cr2: CommitRecord, slots: seq<Slot>, mix: seq<MasterEntry>, n: nat)
    requires n <= |cr.diffs|
  {
    && IndexPartOnly(cr, cr2)
    && (forall lk: nat :: FindLine(slots, lk).Some? <==> HasLine(mix, lk) || DiffInLine(cr.diffs[..n], lk))
    && if SomeExtra(mix, cr.diffs[..n]) then cr2.mixOffset == 0 && cr2.diffs == [] else cr2 == cr
  }

  lemma DiffsInRange(file: seq<Cell>, cr: CommitRecord)
    requires CrOk(file, cr)
    ensures UniqueDiffs(cr.diffs) && forall d | d in cr.diffs :: d.recnum < MAX_RECNUM
  {
  }

  lemma ReplayedAll(file: seq<Cell>, cr: CommitRecord, cr2: CommitRecord, slots: seq<Slot>)
    requires ReplayedTo(cr, cr2, slots, MasterOf(file, cr.mixOffset), |cr.diffs|) && cr2.mixCnt == CountUsed(slots)
    ensures Loads(file, cr, cr2, slots)
  {
    assert cr.diffs[..|cr.diffs|] == cr.diffs;
  }

  lemma StillCurrent(file: seq<Cell>, cr: CommitRecord, cr2: CommitRecord, slots: seq<Slot>, c: seq<Cell>)
    requires Reloaded(file, cr, cr2) && CrView(file, cr, slots, c) && file <= c && LiveOk(slots, c)
    ensures CrView(file, cr2, slots, c) && (cr2.mixOffset != 0 ==> CrOk(file, cr2) && DataOk(c, cr2))
  {
    if cr2.mixOffset != 0 { ViewIsLive(file, cr2, slots, c); }
  }

  lemma DiffInLineNext(diffs: seq<Diff>, n: nat, lineKey: nat)
    requires n < |diffs|
    ensures DiffInLine(diffs[..n + 1], lineKey) <==>
      DiffInLine(diffs[..n], lineKey) || (diffs[n].offset != 0 && diffs[n].recnum / LINE_SIZE == lineKey)
  {
    assert diffs[..n + 1] == diffs[..n] + [diffs[n]];
    assert diffs[n] in diffs[..n + 1];
  }

  lemma ReplayedNext(cr: CommitRecord, cr1: CommitRecord, cr2: CommitRecord, a: seq<Slot>, b: seq<Slot>, mix: seq<MasterEntry>, n: nat)
    requires n < |cr.diffs| && ReplayedTo(cr, cr1, a, mix, n)
    requires var lk, added := cr.diffs[n].recnum / LINE_SIZE, cr.diffs[n].offset != 0 && FindLine(a, cr.diffs[n].recnum / LINE_SIZE) == None;
      && LinesAfter(a, b, lk, added)
      && cr2 == if added then cr1.(mixOffset := 0, diffs := [], mixCnt := cr1.mixCnt + 1) else cr1
    ensures ReplayedTo(cr, cr2, b, mix, n + 1)
  {
    var lk0 := cr.diffs[n].recnum / LINE_SIZE;
    var added := cr.diffs[n].offset != 0 && FindLine(a, lk0) == None;
    forall lk: nat
      ensures FindLine(b, lk).Some? <==> HasLine(mix, lk) || DiffInLine(cr.diffs[..n + 1], lk)
      ensures ExtraLine(mix, cr.diffs[..n + 1], lk) <==> ExtraLine(mix, cr.diffs[..n], lk) || (added && lk == lk0)
    {
      DiffInLineNext(cr.diffs, n, lk);
    }
    hide FindLine, HasLine, DiffInLine, ExtraLine;
    if added { assert ExtraLine(mix, cr.diffs[..n + 1], lk0); }
    if SomeExtra(mix, cr.diffs[..n]) {
      var lk: nat :| ExtraLine(mix, cr.diffs[..n], lk);
      assert ExtraLine(mix, cr.diffs[..n + 1], lk);
    }
    if SomeExtra(mix, cr.diffs[..n + 1]) {
      var lk: nat :| ExtraLine(mix, cr.diffs[..n + 1], lk);
      assert added || ExtraLine(mix, cr.diffs[..n], lk);
    }
  }

  /** A committed record reads the same from the whole log as from the volume. */
  lemma CommittedData(file: seq<Cell>, c: seq<Cell>, p: nat)
    requires GoodCommits(file) && CommitAt(file, p) && file <= c
    ensures CrOk(file, CrAt(file, p))
    ensures forall k: nat | DiskValue(file, CrAt(file, p), k) != 0 :: DataAt(c, DiskValue(file, CrAt(file, p), k), k)
    ensures forall k: nat :: BytesAt(c, DiskValue(file, CrAt(file, p), k)) == DiskRecord(file, CrAt(file, p), k)
    ensures Anchored(file, CrAt(file, p))
  {
    var cr := CrAt(file, p);
    assert GoodCommit(file, p);
    forall k: nat ensures BytesAt(c, DiskValue(file, cr, k)) == DiskRecord(file, cr, k) {
      if DiskValue(file, cr, k) != 0 { assert DataAt(file, DiskValue(file, cr, k), k); }
    }
    forall k: nat | DiskValue(file, cr, k) != 0 ensures DataAt(c, DiskValue(file, cr, k), k) {
      assert DataAt(file, DiskValue(file, cr, k), k);
    }
  }

  /** The same, for the record itself. */
  lemma CommittedRecord(file: seq<Cell>, c: seq<Cell>, p: nat)
    requires GoodCommits(file) && CommitAt(file, p) && file <= c
    ensures var cr := CrAt(file, p);
      && cr.selfAt == p && CrOk(file, cr) && DataOk(c, cr) && Anchored(file, cr) && cr.mixOffset != 0
      && forall k: nat :: DiskRecord(c, cr, k) == DiskRecord(file, cr, k)
  {
    var cr := CrAt(file, p);
    assert GoodCommit(file, p);
    DataOkStable(file, c, cr);
    forall k: nat ensures DiskRecord(c, cr, k) == DiskRecord(file, cr, k) {
      DiskRecordStable(file, c, cr, k);
    }
  }

  /** The commit records met by following prev_cr_at from p. */
  ghost predicate OnChain(file: seq<Cell>, p: nat, q: nat)
    requires GoodCommits(file) && CommitAt(file, p)
    decreases p
  {
    assert GoodCommit(file, p);
    q == p || (CrAt(file, p).prevAt != 0 && OnChain(file, CrAt(file, p).prevAt, q))
  }

  /** A position on the chain is the commit record of its own generation, and the other way round. */
  lemma {:induction false} ChainIsAncestors(file: seq<Cell>, p: nat, q: nat)
    requires GoodCommits(file) && CommitAt(file, p)
    ensures OnChain(file, p, q) <==> CommitAt(file, q) && Ancestor(file, p, CrAt(file, q).generation) == Some(q)
    ensures OnChain(file, p, q) ==> q <= p && CrAt(file, q).generation <= CrAt(file, p).generation
    decreases p
  {
    assert GoodCommit(file, p);
    var cr := CrAt(file, p);
    if cr.prevAt != 0 {
      ChainIsAncestors(file, cr.prevAt, q);
      if CommitAt(file, q) { AncestorFound(file, cr.prevAt, CrAt(file, q).generation); }
    }
  }

  lemma {:induction false} ChainStable(file: seq<Cell>, file2: seq<Cell>, p: nat, q: nat)
    requires GoodCommits(file) && GoodCommits(file2) && file <= file2 && CommitAt(file, p)
    ensures CommitAt(file2, p) && (OnChain(file2, p, q) <==> OnChain(file, p, q))
    decreases p
  {
    assert GoodCommit(file, p) && GoodCommit(file2, p);
    if CrAt(file, p).prevAt != 0 {
      ChainStable(file, file2, CrAt(file, p).prevAt, q);
    }
  }

  /** The root is the only commit record of the chain without a predecessor. */
  lemma {:induction false} ChainRoot(file: seq<Cell>, p: nat)
    requires GoodCommits(file) && CommitAt(file, p)
    ensures OnChain(file, p, RootAt(file, p)) && CrAt(file, RootAt(file, p)).prevAt == 0
    ensures RootAt(file, p) == p <==> CrAt(file, p).prevAt == 0
    decreases p
  {
    assert GoodCommit(file, p);
    if CrAt(file, p).prevAt != 0 {
      ChainRoot(file, CrAt(file, p).prevAt);
      ChainIsAncestors(file, CrAt(file, p).prevAt, RootAt(file, p));
    }
  }

  /** What a commit makes reachable: itself, and what was reachable from where it is anchored. */
  lemma ChainAfterCommit(file: seq<Cell>, cr: CommitRecord, flag: int, q: nat)
    requires GoodCommits(file) && file != [] && Anchored(file, cr) && CrOk(file, cr) && DataOk(file, cr)
    ensures var file2 := file + CommitBlock(NextCommit(cr, |file|, flag));
      && GoodCommits(file2) && CommitAt(file2, |file|)
      && (OnChain(file2, |file|, q) <==> q == |file| || (cr.selfAt != 0 && OnChain(file, cr.selfAt, q)))
  {
    var cr2 := NextCommit(cr, |file|, flag);
    var file2 := file + CommitBlock(cr2);
    CommitIsGood(file, cr, flag);
    CommitAppended(file, cr2);
    if cr.selfAt != 0 {
      ChainStable(file, file2, cr.selfAt, q);
    }
  }

  lemma CommitAppended(file: seq<Cell>, cr: CommitRecord)
    requires GoodCommits(file) && CommitAt(file + CommitBlock(cr), |file|) && GoodCommit(file + CommitBlock(cr), |file|)
    ensures GoodCommits(file + CommitBlock(cr))
  {
    var file2 := file + CommitBlock(cr);
    forall p: nat | |file| < p < |file2| ensures !CommitAt(file2, p) {
      assert file2[p] == CommitBlock(cr)[p - |file|];
    }
    GoodCommitsExtend(file, file2);
  }

  /** When a rewind from p loses its generation the commit record is left at the root of the chain.
      A commit from there is generation FIRST_GENERATION + 1, records the first generation's map
      again whatever the index says, and leads to the root and to nothing else: no commit record
      between the root and the new one is on its chain. */
  lemma CommitAfterLostRewind(file: seq<Cell>, p: nat, flag: int)
    requires GoodCommits(file) && CommitAt(file, p)
    ensures var r := RootAt(file, p);
      var cr2 := NextCommit(CrAt(file, r), |file|, flag);
      var file2 := file + CommitBlock(cr2);
      && cr2.prevAt == r && cr2.generation == FIRST_GENERATION + 1
      && GoodCommits(file2) && CommitAt(file2, |file|) && CrAt(file2, |file|) == cr2
      && (forall k: nat :: DiskRecord(file2, cr2, k) == DiskRecord(file, CrAt(file, r), k))
      && (forall q: nat :: OnChain(file2, |file|, q) <==> q == |file| || q == r)
  {
    var r := RootAt(file, p);
    ChainRoot(file, p);
    RootIsFirst(file, p);
    CommitAtRoot(file, r, flag);
  }

  /** A commit from a record without a predecessor. */
  lemma CommitAtRoot(file: seq<Cell>, r: nat, flag: int)
    requires GoodCommits(file) && CommitAt(file, r) && |CrAt(file, r).bookmarks| == NUM_BOOKMARKS
    requires CrAt(file, r).prevAt == 0
    ensures var cr2 := NextCommit(CrAt(file, r), |file|, flag);
      var file2 := file + CommitBlock(cr2);
      && cr2.prevAt == r
      && GoodCommits(file2) && CommitAt(file2, |file|) && CrAt(file2, |file|) == cr2
      && (forall k: nat :: DiskRecord(file2, cr2, k) == DiskRecord(file, CrAt(file, r), k))
      && (forall q: nat :: OnChain(file2, |file|, q) <==> q == |file| || q == r)
  {
    var cr := CrAt(file, r);
    assert cr.selfAt == r && r != 0 by { assert GoodCommit(file, r); }
    CommittedData(file, file, r);
    CommitIsGood(file, cr, flag);
    CommitAppended(file, NextCommit(cr, |file|, flag));
    hide GoodCommits, GoodCommit, Anchored, CrOk, DataOk, DiskRecord, CommitBlock;
    forall q: nat ensures OnChain(file + CommitBlock(NextCommit(cr, |file|, flag)), |file|, q) <==> q == |file| || q == r {
      ChainAfterCommit(file, cr, flag, q);
    }
  }

  /** Every commit record that p leads to, at leads to in the later volume. */
  ghost predicate StillReached(file: seq<Cell>, p: nat, file2: seq<Cell>, at: nat)
    requires GoodCommits(file) && CommitAt(file, p) && GoodCommits(file2) && CommitAt(file2, at)
  {
    forall q: nat | OnChain(file, p, q) :: OnChain(file2, at, q)
  }

  /** A failed change of generation, and a commit after it, keep every generation reachable exactly
      if the current one is the first. */
  lemma LostKeepsChainExactly(file: seq<Cell>, p: nat, flag: int)
    requires GoodCommits(file) && CommitAt(file, p)
    ensures var file2 := file + CommitBlock(NextCommit(CrAt(file, RootAt(file, p)), |file|, flag));
      && GoodCommits(file2) && CommitAt(file2, |file|)
      && (StillReached(file, p, file2, |file|) <==> CrAt(file, p).prevAt == 0)
  {
    CommitAfterLostRewind(file, p, flag);
    ChainRoot(file, p);
    ChainSelf(file, p);
    hide GoodCommits, GoodCommit, RootAt, NextCommit, CommitBlock, OnChain, DiskRecord, StillReached;
    var file2 := file + CommitBlock(NextCommit(CrAt(file, RootAt(file, p)), |file|, flag));
    OnlyTwoReached(file, p, RootAt(file, p), file2, |file|);
  }

  lemma OnlyTwoReached(file: seq<Cell>, p: nat, r: nat, file2: seq<Cell>, at: nat)
    requires GoodCommits(file) && CommitAt(file, p) && GoodCommits(file2) && CommitAt(file2, at) && p < at
    requires (r == p <==> CrAt(file, p).prevAt == 0) && OnChain(file, p, p)
    requires CrAt(file, p).prevAt == 0 ==> forall q: nat | OnChain(file, p, q) :: q == p
    requires forall q: nat :: OnChain(file2, at, q) <==> q == at || q == r
    ensures StillReached(file, p, file2, at) <==> CrAt(file, p).prevAt == 0
  {
    hide GoodCommits, OnChain;
  }

  lemma ChainSelf(file: seq<Cell>, p: nat)
    requires GoodCommits(file) && CommitAt(file, p)
    ensures OnChain(file, p, p)
    ensures CrAt(file, p).prevAt == 0 ==> forall q: nat | OnChain(file, p, q) :: q == p
  {
  }

  ghost function RootAt(file: seq<Cell>, p: nat): (r: nat)
    requires GoodCommits(file) && CommitAt(file, p)
    ensures CommitAt(file, r) && |CrAt(file, r).bookmarks| == NUM_BOOKMARKS
  {
    RootIsFirst(file, p);
    assert GoodCommit(file, Root(file, p));
    Root(file, p)
  }

  // ------------------------------------------------------------------ the empty store

  lemma EmptyStore(hash: nat -> nat, slots: seq<Slot>, cr: CommitRecord, c: seq<Cell>)
    requires slots == EmptyTable(CAPS[0]) && cr.mixCnt == 0 && cr.mixOffset == 0
    ensures IndexOk(hash, slots, 0, c, 0)
    ensures FreeOk([Interval(0, MAX_KEY)], slots, c)
    ensures LiveOk(slots, c) && (forall k: nat :: LiveRecord(slots, c, k) == None)
    ensures CrView([], cr, slots, c) && HistOk([], map[]) && GoodCommits([])
    ensures (cr.selfAt == 0 && cr.prevAt == 0 && cr.generation + 1 == FIRST_GENERATION && |cr.bookmarks| == NUM_BOOKMARKS
             && (forall b | b in cr.bookmarks :: b == 0)) ==> Anchored([], cr)
  {
    EmptyTableOk(hash, CAPS[0]);
    assert forall lk: nat :: FindLine(slots, lk) == None;
    assert [Interval(0, MAX_KEY)][0].from <= MAX_KEY <= [Interval(0, MAX_KEY)][0].to;
  }
}
