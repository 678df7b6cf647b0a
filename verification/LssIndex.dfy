/** The in-memory master index: an open-addressed table of index lines
    (packages/lss/lssv3.c: lssi_get_line, lssi_grow_index, lssi_index_store, read_mix_with_volflags).  */
module LssIndex {
  import opened Options
  import opened LssFormat

  /** One element of mindex[]: a line on the volume, a line in memory, or both. */
  datatype Slot = Slot(lineKey: nat, lineOffset: nat, hasFree: bool, mem: Option<seq<nat>>)

  const EMPTY: Slot := Slot(0, 0, false, None)

  predicate Used(e: Slot) { e.lineOffset != 0 || e.mem.Some? }

  // ------------------------------------------------------------------ capacities

  const CAPS: seq<nat> := [7, 13, 31, 61, 127, 251, 509, 1021, 2039, 4093, 8191, 16381,
                           32749, 65521, 131071, 262139, 524287, 1048573]

  /** (old * 3 / 2) | 15 */
  function OddCapacity(cap0: nat): (cap: nat)
    ensures cap % 16 == 15 && cap0 * 3 / 2 <= cap < cap0 * 3 / 2 + 16
  {
    var n := cap0 * 3 / 2;
    n - n % 16 + 15
  }

  method NextHigherCapacity(oldCap: nat) returns (cap: nat)
    ensures cap > oldCap && cap >= 7
    // the first capacity of the table above the old one, while there is one
    ensures forall i | 0 <= i < |CAPS| && CAPS[i] > oldCap && (forall j | 0 <= j < i :: CAPS[j] <= oldCap) :: cap == CAPS[i]
    // then half as much again, up to the next number whose low four bits are set
    ensures (forall j | 0 <= j < |CAPS| :: CAPS[j] <= oldCap) ==>
      cap % 16 == 15 && oldCap * 3 / 2 <= cap < oldCap * 3 / 2 + 16
  {
    var i := 0;
    while i < |CAPS|
      invariant 0 <= i <= |CAPS|
      invariant forall j | 0 <= j < i :: CAPS[j] <= oldCap
    {
      if CAPS[i] > oldCap {
        assert i == 0 || CAPS[i] >= 7;
        return CAPS[i];
      }
      i := i + 1;
    }
    return OddCapacity(oldCap);
  }

  /** MAX_FILL: 75% */
  function MaxFill(cap: nat): nat { cap * 192 / 256 }

  // ------------------------------------------------------------------ the abstract map

  ghost function FindLine(slots: seq<Slot>, lineKey: nat): Option<Slot> {
    if exists e :: e in slots && Used(e) && e.lineKey == lineKey
    then var e :| e in slots && Used(e) && e.lineKey == lineKey; Some(e)
    else None
  }

  ghost function SlotEntry(e: Slot, c: seq<Cell>, i: nat): nat {
    match e.mem
    case Some(line) => if i < |line| then line[i] else 0
    case None => EntryOnDisk(c, e.lineOffset, i)
  }

  /** The locator of a record: what lssi_index_load returns. */
  ghost function Value(slots: seq<Slot>, c: seq<Cell>, key: nat): nat {
    match FindLine(slots, key / LINE_SIZE)
    case None => 0
    case Some(e) => SlotEntry(e, c, key % LINE_SIZE)
  }

  ghost predicate UniqueKeys(slots: seq<Slot>) {
    forall i, j | 0 <= i < j < |slots| && Used(slots[i]) && Used(slots[j]) :: slots[i].lineKey != slots[j].lineKey
  }

  lemma FindLineIs(slots: seq<Slot>, j: nat)
    requires UniqueKeys(slots) && j < |slots| && Used(slots[j])
    ensures FindLine(slots, slots[j].lineKey) == Some(slots[j])
  {
    assert slots[j] in slots;
  }

  /** A used slot: its line is readable from the volume, or is in memory; both agree. */
  ghost predicate SlotOk(e: Slot, c: seq<Cell>, flushed: nat) {
    && e.lineKey < LINE_KEYS
    && (e.mem.Some? ==> |e.mem.value| == LINE_SIZE)
    && (e.lineOffset != 0 ==> LineAt(c, e.lineOffset, e.lineKey) && FlagOk(c, e.lineOffset, e.lineKey, e.hasFree))
    && (e.lineOffset != 0 && e.mem.Some? ==> c[e.lineOffset].payload.entries == e.mem.value)
    && (e.mem.None? ==> e.lineOffset < flushed)
  }

  ghost predicate SlotsOk(slots: seq<Slot>, c: seq<Cell>, flushed: nat) {
    forall i | 0 <= i < |slots| && Used(slots[i]) :: SlotOk(slots[i], c, flushed)
  }

  // ------------------------------------------------------------------ probing

  /** i lies in [h, j) going round the table. */
  predicate Cyc(h: int, i: int, j: int) {
    if h <= j then h <= i < j else h <= i || i < j
  }

  function Home(hash: nat -> nat, lineKey: nat, cap: nat): (h: nat)
    requires cap > 0
    ensures h < cap
  {
    hash(lineKey) % cap
  }

  /** From its home position to where it sits, a line only passes used slots. */
  ghost predicate ProbeOk(hash: nat -> nat, slots: seq<Slot>) {
    |slots| > 0 &&
    forall i, j | 0 <= i < |slots| && 0 <= j < |slots| && Used(slots[j]) && Cyc(Home(hash, slots[j].lineKey, |slots|), i, j) ::
      Used(slots[i])
  }

  function CountUsed(slots: seq<Slot>): nat {
    if slots == [] then 0 else CountUsed(slots[..|slots| - 1]) + (if Used(slots[|slots| - 1]) then 1 else 0)
  }

  /** The whole table invariant; `count` is the number of lines. */
  ghost predicate TableOk(hash: nat -> nat, slots: seq<Slot>, count: nat) {
    UniqueKeys(slots) && ProbeOk(hash, slots) && CountUsed(slots) == count
  }

  /** What ends every probe: a slot is free. */
  ghost predicate HasRoom(slots: seq<Slot>) { CountUsed(slots) < |slots| }

  function Next(h: nat, cap: nat): (n: nat)
    requires h < cap
    ensures n < cap && n == if h + 1 == cap then 0 else h + 1
  {
    NextIs(h, cap);
    (h + 1) % cap
  }

  lemma NextIs(h: nat, cap: nat)
    requires h < cap
    ensures (h + 1) % cap == if h + 1 == cap then 0 else h + 1
  {
    if h + 1 < cap {
      SmallMod(h + 1, cap);
    }
  }

  lemma SmallMod(a: nat, b: nat)
    requires a < b
    ensures a % b == a
  {
  }

  lemma {:induction false} CountBound(slots: seq<Slot>)
    ensures CountUsed(slots) <= |slots|
    ensures CountUsed(slots) == |slots| <==> forall i | 0 <= i < |slots| :: Used(slots[i])
  {
    if slots != [] {
      var n := |slots| - 1;
      CountBound(slots[..n]);
      assert forall i | 0 <= i < n :: slots[..n][i] == slots[i];
      assert CountUsed(slots) == |slots| ==> forall i | 0 <= i < n :: Used(slots[..n][i]);
    }
  }

  lemma FreeSlotExists(slots: seq<Slot>)
    requires CountUsed(slots) < |slots|
    ensures exists i :: 0 <= i < |slots| && !Used(slots[i])
  {
    CountBound(slots);
  }

  lemma {:induction false} CountUpdate(slots: seq<Slot>, h: nat, e: Slot)
    requires h < |slots|
    ensures CountUsed(slots[h := e]) == CountUsed(slots) - (if Used(slots[h]) then 1 else 0) + (if Used(e) then 1 else 0)
  {
    var n := |slots| - 1;
    if h < n {
      CountUpdate(slots[..n], h, e);
      assert slots[h := e][..n] == slots[..n][h := e];
    } else {
      assert slots[h := e][..n] == slots[..n];
    }
  }

  /** How far it is from h to slot f: the measure of every probe loop. */
  function Steps(h: nat, f: nat, cap: nat): (d: nat)
    requires h < cap && f < cap
    ensures d == 0 <==> h == f
  {
    if h <= f then f - h else f + cap - h
  }

  /** Reaching a free slot without meeting the line means the line is not in the table. */
  lemma NotInTable(hash: nat -> nat, slots: seq<Slot>, lineKey: nat, h: nat)
    requires ProbeOk(hash, slots) && h < |slots| && !Used(slots[h])
    requires forall i | 0 <= i < |slots| && Cyc(Home(hash, lineKey, |slots|), i, h) ::
               slots[i].lineKey != lineKey
    ensures FindLine(slots, lineKey) == None
  {
    forall e | e in slots && Used(e) ensures e.lineKey != lineKey {
      var j :| 0 <= j < |slots| && slots[j] == e;
      var s := Home(hash, lineKey, |slots|);
      assert Cyc(s, h, j) ==> e.lineKey != lineKey;
      assert Cyc(s, j, h) ==> e.lineKey != lineKey;
    }
  }

  /** Putting a new line into the first free slot of its probe path. */
  lemma AddLine(hash: nat -> nat, slots: seq<Slot>, count: nat, h: nat, e: Slot)
    requires TableOk(hash, slots, count)
    requires h < |slots| && !Used(slots[h]) && Used(e)
    requires forall i | 0 <= i < |slots| && Cyc(Home(hash, e.lineKey, |slots|), i, h) :: Used(slots[i])
    requires FindLine(slots, e.lineKey) == None
    ensures TableOk(hash, slots[h := e], count + 1)
  {
    CountUpdate(slots, h, e);
    var s2 := slots[h := e];
    forall i | 0 <= i < |slots| && Used(slots[i]) ensures slots[i].lineKey != e.lineKey {
      assert slots[i] in slots;
    }
    forall i, j | 0 <= i < |s2| && 0 <= j < |s2| && Used(s2[j]) && Cyc(Home(hash, s2[j].lineKey, |s2|), i, j)
      ensures Used(s2[i])
    {
      if j != h {
        assert slots[j] == s2[j];
      }
    }
  }

  /** Rewriting a slot in place: same line, still used. */
  lemma RewriteLine(hash: nat -> nat, slots: seq<Slot>, count: nat, h: nat, e: Slot)
    requires TableOk(hash, slots, count) && h < |slots| && Used(slots[h]) && Used(e) && e.lineKey == slots[h].lineKey
    ensures TableOk(hash, slots[h := e], count)
  {
    CountUpdate(slots, h, e);
    var s2 := slots[h := e];
    forall i, j | 0 <= i < |s2| && 0 <= j < |s2| && Used(s2[j]) && Cyc(Home(hash, s2[j].lineKey, |s2|), i, j)
      ensures Used(s2[i])
    {
      assert Used(slots[j]) && slots[j].lineKey == s2[j].lineKey;
      assert Used(slots[i]);
    }
  }

  /** The value of a key after slot h has been given to line e: other lines keep theirs. */
  lemma ValueAfterWrite(slots: seq<Slot>, c: seq<Cell>, h: nat, e: Slot, key: nat)
    requires h < |slots| && UniqueKeys(slots) && UniqueKeys(slots[h := e]) && Used(e)
    requires Used(slots[h]) ==> slots[h].lineKey == e.lineKey
    ensures Value(slots[h := e], c, key) ==
            if key / LINE_SIZE == e.lineKey then SlotEntry(e, c, key % LINE_SIZE) else Value(slots, c, key)
  {
    var s2 := slots[h := e];
    var lk := key / LINE_SIZE;
    FindLineIs(s2, h);
    if lk != e.lineKey {
      match FindLine(slots, lk)
      case Some(x) =>
        var j :| 0 <= j < |slots| && slots[j] == x;
        assert s2[j] == x;
        FindLineIs(s2, j);
      case None =>
        forall x | x in s2 && Used(x) ensures x.lineKey != lk {
          var j :| 0 <= j < |s2| && s2[j] == x;
          assert j != h ==> x in slots;
        }
    }
  }

  /** Two tables holding the same lines denote the same map. */
  ghost predicate SameLines(a: seq<Slot>, b: seq<Slot>) {
    forall e | Used(e) :: e in a <==> e in b
  }

  lemma SameLinesSameValue(a: seq<Slot>, b: seq<Slot>, c: seq<Cell>, key: nat)
    requires SameLines(a, b) && UniqueKeys(a) && UniqueKeys(b)
    ensures Value(a, c, key) == Value(b, c, key)
  {
    var lk := key / LINE_SIZE;
    match FindLine(a, lk)
    case Some(x) =>
      assert x in b;
      var j :| 0 <= j < |b| && b[j] == x;
      FindLineIs(b, j);
    case None =>
      forall x | x in b && Used(x) ensures x.lineKey != lk { assert x in a; }
  }

  // ------------------------------------------------------------------ probe loops

  /** The loop `while (slot in use) h = (h+1) % cap`, used while rebuilding a table. */
  method FirstFree(hash: nat -> nat, slots: seq<Slot>, lineKey: nat) returns (h: nat)
    requires |slots| > 0 && CountUsed(slots) < |slots|
    ensures h < |slots| && !Used(slots[h])
    ensures forall i | 0 <= i < |slots| && Cyc(Home(hash, lineKey, |slots|), i, h) :: Used(slots[i])
  {
    var cap := |slots|;
    var start := Home(hash, lineKey, cap);
    h := start;
    FreeSlotExists(slots);
    ghost var f :| 0 <= f < cap && !Used(slots[f]);
    while Used(slots[h])
      invariant h < cap
      invariant forall i | 0 <= i < cap && Cyc(start, i, h) :: Used(slots[i])
      invariant h != start ==> !Cyc(start, f, h)
      decreases Steps(h, f, cap)
    {
      h := Next(h, cap);
    }
  }

  function EmptyTable(cap: nat): (s: seq<Slot>)
    ensures |s| == cap && forall i | 0 <= i < cap :: s[i] == EMPTY
  {
    seq(cap, _ => EMPTY)
  }

  lemma {:induction false} EmptyTableOk(hash: nat -> nat, cap: nat)
    requires cap > 0
    ensures TableOk(hash, EmptyTable(cap), 0)
  {
    AllEmpty(EmptyTable(cap));
  }

  lemma {:induction false} AllEmpty(s: seq<Slot>)
    requires forall i | 0 <= i < |s| :: s[i] == EMPTY
    ensures CountUsed(s) == 0
  {
    if s != [] {
      AllEmpty(s[..|s| - 1]);
    }
  }

  /** The copy loop of lssi_grow_index: the larger table holds exactly the same lines. */
  method Rehash(hash: nat -> nat, before: seq<Slot>, ghost count: nat, newCap: nat) returns (slots: seq<Slot>)
    requires TableOk(hash, before, count) && newCap > |before|
    ensures |slots| == newCap && TableOk(hash, slots, count) && SameLines(before, slots) && HasRoom(slots)
  {
    CountBound(before);
    slots := EmptyTable(newCap);
    EmptyTableOk(hash, newCap);
    var i := 0;
    assert before[..0] == [];
    while i < |before|
      invariant 0 <= i <= |before|
      invariant |slots| == newCap && TableOk(hash, slots, CountUsed(before[..i]))
      invariant forall e | Used(e) :: e in before[..i] <==> e in slots
    {
      assert before[..i + 1][..i] == before[..i];
      assert before[..i + 1] == before[..i] + [before[i]];
      CountBound(before[..i]);
      if Used(before[i]) {
        var h := FirstFree(hash, slots, before[i].lineKey);
        NotYetCopied(before, i, slots);
        AddLine(hash, slots, CountUsed(before[..i]), h, before[i]);
        InsertMember(slots, h, before[i]);
        slots := slots[h := before[i]];
      }
      i := i + 1;
    }
    assert before[..i] == before;
  }

  lemma NotYetCopied(before: seq<Slot>, i: nat, slots: seq<Slot>)
    requires i < |before| && Used(before[i]) && UniqueKeys(before)
    requires forall e | Used(e) :: e in before[..i] <==> e in slots
    ensures FindLine(slots, before[i].lineKey) == None
  {
    forall e | e in slots && Used(e) ensures e.lineKey != before[i].lineKey {
      assert e in before[..i];
    }
  }

  lemma InsertMember(slots: seq<Slot>, h: nat, e: Slot)
    requires h < |slots| && !Used(slots[h]) && Used(e)
    ensures forall x | Used(x) :: x in slots[h := e] <==> x == e || x in slots
  {
    var s2 := slots[h := e];
    forall x | Used(x) ensures x in s2 <==> x == e || x in slots {
      if x in slots {
        var j :| 0 <= j < |slots| && slots[j] == x;
        assert s2[j] == x;
      }
      if x == e { assert s2[h] == x; }
    }
  }

  // ------------------------------------------------------------------ reading a master index back

  function SlotOf(m: MasterEntry): Slot {
    Slot(m.lineKey, m.lineOffset, m.hasFree, None)
  }

  /** read_mix_with_volflags: an index whose lines are all still on the volume. */
  method ReadMix(hash: nat -> nat, mix: seq<MasterEntry>, cap: nat) returns (slots: seq<Slot>)
    requires UniqueLines(mix) && forall m | m in mix :: m.lineOffset != 0
    requires cap > |mix|
    ensures |slots| == cap && TableOk(hash, slots, |mix|) && HasRoom(slots)
    ensures forall e | Used(e) :: e in slots <==> exists m :: m in mix && e == SlotOf(m)
  {
    slots := EmptyTable(cap);
    EmptyTableOk(hash, cap);
    var i := 0;
    while i < |mix|
      invariant 0 <= i <= |mix|
      invariant |slots| == cap && TableOk(hash, slots, i)
      invariant forall e | Used(e) :: e in slots <==> exists m :: m in mix[..i] && e == SlotOf(m)
    {
      var m := mix[i];
      assert m in mix;
      var e := SlotOf(m);
      var h := FirstFree(hash, slots, m.lineKey);
      MixLineNew(mix, i, slots);
      AddLine(hash, slots, i, h, e);
      InsertMember(slots, h, e);
      assert mix[..i + 1] == mix[..i] + [m];
      assert m in mix[..i + 1];
      slots := slots[h := e];
      i := i + 1;
    }
    assert mix[..i] == mix;
  }

  lemma MixLineNew(mix: seq<MasterEntry>, i: nat, slots: seq<Slot>)
    requires i < |mix| && UniqueLines(mix)
    requires forall e | Used(e) :: e in slots <==> exists m :: m in mix[..i] && e == SlotOf(m)
    ensures FindLine(slots, mix[i].lineKey) == None
  {
    forall e | e in slots && Used(e) ensures e.lineKey != mix[i].lineKey {
      var m :| m in mix[..i] && e == SlotOf(m);
    }
  }

  /** The index just read denotes the map of the master index. */
  lemma ReadMixValue(slots: seq<Slot>, c: seq<Cell>, mix: seq<MasterEntry>, key: nat)
    requires UniqueKeys(slots) && UniqueLines(mix) && forall m | m in mix :: m.lineOffset != 0
    requires forall e | Used(e) :: e in slots <==> exists m :: m in mix && e == SlotOf(m)
    ensures Value(slots, c, key) == MixValue(c, mix, key)
  {
    var lk := key / LINE_SIZE;
    if HasLine(mix, lk) {
      var m :| m in mix && m.lineKey == lk && m.lineOffset == LineOffset(mix, lk);
      var e := SlotOf(m);
      assert e in slots;
      var j :| 0 <= j < |slots| && slots[j] == e;
      FindLineIs(slots, j);
    } else {
      forall e | e in slots && Used(e) ensures e.lineKey != lk {
        var m :| m in mix && e == SlotOf(m);
      }
    }
  }
}
