/** The map of free record numbers (packages/lss/freemap.c): a sorted array of closed
    intervals with a cached position, edited in place.

    Unsigned arithmetic is written out modulo 2^32 wherever the source can wrap.  The
    C assertions are modelled as reported outcomes, never as preconditions.  */
module FreeMaps {
  import opened Options

  const MAX_KEY: nat := 0xFFFF_FFFF
  const WORD: nat := 0x1_0000_0000

  datatype Interval = Interval(from: nat, to: nat)

  // ------------------------------------------------------------------ the abstract set

  /** Sorted, disjoint, and with at least one taken key between neighbours. */
  ghost predicate Canonical(m: seq<Interval>) {
    && (forall i | 0 <= i < |m| :: m[i].from <= m[i].to <= MAX_KEY)
    && (forall i, j | 0 <= i < j < |m| :: m[i].to + 1 < m[j].from)
  }

  ghost predicate Free(m: seq<Interval>, k: int) {
    exists i :: 0 <= i < |m| && m[i].from <= k <= m[i].to
  }

  /** `m2` denotes the set of `m` without `k`. */
  ghost predicate Deleted(m: seq<Interval>, k: nat, m2: seq<Interval>) {
    Canonical(m2) && forall x :: Free(m2, x) <==> Free(m, x) && x != k
  }

  /** `m2` denotes the set of `m` with `k`. */
  ghost predicate Inserted(m: seq<Interval>, k: nat, m2: seq<Interval>) {
    Canonical(m2) && forall x :: Free(m2, x) <==> Free(m, x) || x == k
  }

  /** `m2` denotes the set of `m` without [k, k+cnt). */
  ghost predicate RangeTaken(m: seq<Interval>, k: nat, cnt: nat, m2: seq<Interval>) {
    Canonical(m2) && forall x :: Free(m2, x) <==> Free(m, x) && !(k <= x < k + cnt)
  }

  /** A run of `cnt` free keys starting at `k`. */
  ghost predicate RunAt(m: seq<Interval>, k: nat, cnt: nat) {
    forall x :: k <= x < k + cnt ==> Free(m, x)
  }

  ghost predicate LowestRun(m: seq<Interval>, minr: nat, cnt: nat, k: nat) {
    minr <= k && RunAt(m, k, cnt) && forall j: nat | minr <= j < k :: !RunAt(m, j, cnt)
  }

  /** What taking the run of `cnt` keys at `k` makes of the map `m`.  Using up the last interval trips
      an assertion; a run that ends at the top key without using up its interval wraps, and then
      every key is free. */
  ghost predicate RunTaken(m: seq<Interval>, k: nat, cnt: nat, m2: seq<Interval>, tripped: bool) {
    m != [] &&
    var n := |m| - 1;
    if m[n].from == k && m[n].to + 1 == k + cnt then tripped && m2 == m[..n]
    else if k + cnt > MAX_KEY then !tripped && k > 0 && m2 == m[..n] + [Interval(m[n].from, k - 1), Interval(0, MAX_KEY)]
    else !tripped && m2 != [] && RangeTaken(m, k, cnt, m2)
  }

  // ------------------------------------------------------------------ canonical form

  lemma FreeConcat(a: seq<Interval>, b: seq<Interval>, k: int)
    ensures Free(a + b, k) <==> Free(a, k) || Free(b, k)
  {
    var m := a + b;
    if Free(a, k) {
      var i :| 0 <= i < |a| && a[i].from <= k <= a[i].to;
      assert m[i] == a[i];
    }
    if Free(b, k) {
      var i :| 0 <= i < |b| && b[i].from <= k <= b[i].to;
      assert m[|a| + i] == b[i];
    }
    if Free(m, k) {
      var i :| 0 <= i < |m| && m[i].from <= k <= m[i].to;
      assert if i < |a| then m[i] == a[i] else m[i] == b[i - |a|];
    }
  }

  /** Replacing entry i by the entries `mid` replaces exactly its keys by theirs. */
  lemma FreeSplice(m: seq<Interval>, i: nat, mid: seq<Interval>)
    requires i < |m|
    requires Canonical(m)
    ensures var m2 := m[..i] + mid + m[i + 1..];
      forall x :: Free(m2, x) <==> (Free(m, x) && !(m[i].from <= x <= m[i].to)) || Free(mid, x)
  {
    var m2 := m[..i] + mid + m[i + 1..];
    forall x
      ensures Free(m2, x) <==> (Free(m, x) && !(m[i].from <= x <= m[i].to)) || Free(mid, x)
    {
      FreeConcat(m[..i] + mid, m[i + 1..], x);
      FreeConcat(m[..i], mid, x);
      FreeConcat(m[..i], m[i..], x);
      FreeConcat([m[i]], m[i + 1..], x);
      assert m[..i] + m[i..] == m && [m[i]] + m[i + 1..] == m[i..];
      assert Free([m[i]], x) <==> m[i].from <= x <= m[i].to by {
        if m[i].from <= x <= m[i].to { assert [m[i]][0].from <= x; }
      }
      if m[i].from <= x <= m[i].to {
        assert !Free(m[..i], x);
        assert !Free(m[i + 1..], x);
      }
    }
  }

  /** The same replacement keeps the array canonical when `mid` fits between the neighbours. */
  lemma CanonicalSplice(m: seq<Interval>, i: nat, mid: seq<Interval>)
    requires Canonical(m) && i < |m| && Canonical(mid)
    requires mid != [] && i > 0 ==> m[i - 1].to + 1 < mid[0].from
    requires mid != [] && i + 1 < |m| ==> mid[|mid| - 1].to + 1 < m[i + 1].from
    ensures Canonical(m[..i] + mid + m[i + 1..])
  {
    var m2 := m[..i] + mid + m[i + 1..];
    forall a, b | 0 <= a < b < |m2| ensures m2[a].to + 1 < m2[b].from {
      if a < i <= b < i + |mid| {
        assert m[a].to <= m[i - 1].to;
        assert mid[0].from <= mid[b - i].from;
      } else if i <= a < i + |mid| <= b {
        assert mid[a - i].to <= mid[|mid| - 1].to;
        assert m[i + 1].from <= m[b - |mid| + 1].from;
      }
    }
  }

  // the four ways fmapDeleteQuick takes a key out of the entry that holds it

  lemma DropEntry(m: seq<Interval>, i: nat)
    requires Canonical(m) && i < |m| && m[i].from == m[i].to
    ensures Deleted(m, m[i].from, m[..i] + m[i + 1..])
  {
    hide Free;
    NothingFree();
    EntryFree(m, i);
    FreeSplice(m, i, []);
    CanonicalSplice(m, i, []);
    assert m[..i] + [] + m[i + 1..] == m[..i] + m[i + 1..];
  }

  lemma TrimEntry(m: seq<Interval>, i: nat, e: Interval, key: nat)
    requires Canonical(m) && i < |m| && m[i].from < m[i].to
    requires (key == m[i].from && e == Interval(key + 1, m[i].to)) || (key == m[i].to && e == Interval(m[i].from, key - 1))
    ensures Deleted(m, key, m[i := e])
  {
    hide Free;
    EntryFree(m, i);
    FreeSplice(m, i, [e]);
    CanonicalSplice(m, i, [e]);
    SingletonFree(e.from, e.to);
    assert m[i := e] == m[..i] + [e] + m[i + 1..];
  }

  lemma SplitEntry(m: seq<Interval>, i: nat, lo: Interval, hi: Interval, key: nat)
    requires Canonical(m) && i < |m| && m[i].from < key < m[i].to
    requires lo == Interval(m[i].from, key - 1) && hi == Interval(key + 1, m[i].to)
    ensures Deleted(m, key, m[..i] + [lo, hi] + m[i + 1..])
  {
    hide Free;
    EntryFree(m, i);
    FreeSplice(m, i, [lo, hi]);
    CanonicalSplice(m, i, [lo, hi]);
    PairFree(lo, hi);
  }

  // the four ways fmapInsertQuick puts a key into the gap below entry i

  ghost predicate InGap(m: seq<Interval>, i: nat, key: nat) {
    i < |m| && key < m[i].from && (i > 0 ==> m[i - 1].to < key)
  }

  lemma GapNotFree(m: seq<Interval>, i: nat, key: nat)
    requires Canonical(m) && InGap(m, i, key)
    ensures !Free(m, key)
  {
    forall j | 0 <= j < |m| ensures !(m[j].from <= key <= m[j].to) {
      if j < i { assert m[j].to <= m[i - 1].to; } else { assert m[i].from <= m[j].from; }
    }
  }

  lemma GrowDown(m: seq<Interval>, i: nat, key: nat)
    requires Canonical(m) && InGap(m, i, key) && key == m[i].from - 1
    requires i > 0 ==> m[i - 1].to + 1 < key
    ensures Inserted(m, key, m[i := Interval(key, m[i].to)])
  {
    hide Free;
    var e := Interval(key, m[i].to);
    FreeSplice(m, i, [e]);
    CanonicalSplice(m, i, [e]);
    SingletonFree(e.from, e.to);
    assert m[i := e] == m[..i] + [e] + m[i + 1..];
    EntryFree(m, i);
  }

  lemma NothingFree()
    ensures forall x :: !Free([], x)
  {
  }

  lemma EntryFree(m: seq<Interval>, i: nat)
    requires i < |m|
    ensures forall x | m[i].from <= x <= m[i].to :: Free(m, x)
  {
  }

  lemma GrowUp(m: seq<Interval>, i: nat, key: nat)
    requires Canonical(m) && i > 0 && InGap(m, i, key) && key == m[i - 1].to + 1 < m[i].from - 1
    ensures Inserted(m, key, m[i - 1 := Interval(m[i - 1].from, key)])
  {
    hide Free;
    var e := Interval(m[i - 1].from, key);
    FreeSplice(m, i - 1, [e]);
    CanonicalSplice(m, i - 1, [e]);
    SingletonFree(e.from, e.to);
    assert m[i - 1 := e] == m[..i - 1] + [e] + m[i - 1 + 1..];
    EntryFree(m, i - 1);
  }

  lemma Bridge(m: seq<Interval>, i: nat, key: nat)
    requires Canonical(m) && i > 0 && InGap(m, i, key) && key == m[i].from - 1 == m[i - 1].to + 1
    ensures Inserted(m, key, m[i - 1 := Interval(m[i - 1].from, m[i].to)][..i] + m[i + 1..])
  {
    hide Free;
    NothingFree();
    var e := Interval(m[i - 1].from, m[i].to);
    var dropped := m[..i] + m[i + 1..];
    FreeSplice(m, i, []);
    CanonicalSplice(m, i, []);
    assert m[..i] + [] + m[i + 1..] == dropped;
    FreeSplice(dropped, i - 1, [e]);
    CanonicalSplice(dropped, i - 1, [e]);
    SingletonFree(e.from, e.to);
    assert m[i - 1 := e][..i] + m[i + 1..] == dropped[..i - 1] + [e] + dropped[i..];
    EntryFree(m, i);
    EntryFree(m, i - 1);
  }

  lemma NewEntry(m: seq<Interval>, i: nat, key: nat)
    requires Canonical(m) && InGap(m, i, key) && key < m[i].from - 1 && (i > 0 ==> m[i - 1].to + 1 < key)
    ensures Inserted(m, key, m[..i] + [Interval(key, key), m[i]] + m[i + 1..])
  {
    hide Free;
    EntryFree(m, i);
    var e := Interval(key, key);
    FreeSplice(m, i, [e, m[i]]);
    CanonicalSplice(m, i, [e, m[i]]);
    PairFree(e, m[i]);
    EntryFree(m, i);
  }

  // the three ways fmapFindAndDeleteRange takes a run out of the entry that holds it

  lemma TakeFront(m: seq<Interval>, i: nat, cnt: nat)
    requires Canonical(m) && i < |m| && cnt >= 1 && m[i].from + cnt <= m[i].to
    ensures RangeTaken(m, m[i].from, cnt, m[i := Interval(m[i].from + cnt, m[i].to)])
  {
    hide Free;
    EntryFree(m, i);
    var e := Interval(m[i].from + cnt, m[i].to);
    FreeSplice(m, i, [e]);
    CanonicalSplice(m, i, [e]);
    SingletonFree(e.from, e.to);
    assert m[i := e] == m[..i] + [e] + m[i + 1..];
  }

  lemma TakeWhole(m: seq<Interval>, i: nat, cnt: nat)
    requires Canonical(m) && i < |m| && m[i].from + cnt == m[i].to + 1
    ensures RangeTaken(m, m[i].from, cnt, m[..i] + m[i + 1..])
  {
    hide Free;
    NothingFree();
    EntryFree(m, i);
    FreeSplice(m, i, []);
    CanonicalSplice(m, i, []);
    assert m[..i] + [] + m[i + 1..] == m[..i] + m[i + 1..];
  }

  lemma TakeBack(m: seq<Interval>, i: nat, cnt: nat, minr: nat)
    requires Canonical(m) && i < |m| && cnt >= 1 && m[i].from < minr && minr + cnt == m[i].to + 1
    ensures RangeTaken(m, minr, cnt, m[i := Interval(m[i].from, m[i].to - cnt)])
  {
    hide Free;
    EntryFree(m, i);
    var e := Interval(m[i].from, m[i].to - cnt);
    FreeSplice(m, i, [e]);
    CanonicalSplice(m, i, [e]);
    SingletonFree(e.from, e.to);
    assert m[i := e] == m[..i] + [e] + m[i + 1..];
  }

  lemma TakeMiddle(m: seq<Interval>, i: nat, cnt: nat, minr: nat)
    requires Canonical(m) && i < |m| && cnt >= 1 && m[i].from < minr && minr + cnt <= m[i].to
    ensures RangeTaken(m, minr, cnt,
                       m[..i] + [Interval(m[i].from, minr - 1), Interval(minr + cnt, m[i].to)] + m[i + 1..])
  {
    hide Free;
    EntryFree(m, i);
    var lo, hi := Interval(m[i].from, minr - 1), Interval(minr + cnt, m[i].to);
    FreeSplice(m, i, [lo, hi]);
    CanonicalSplice(m, i, [lo, hi]);
    PairFree(lo, hi);
  }

  ghost predicate SameKeys(a: seq<Interval>, b: seq<Interval>) {
    forall x :: Free(a, x) <==> Free(b, x)
  }

  /** Two canonical arrays with the same keys are the same array. */
  lemma {:induction false} CanonicalUnique(a: seq<Interval>, b: seq<Interval>)
    requires Canonical(a) && Canonical(b) && SameKeys(a, b)
    ensures a == b
  {
    hide SameKeys, Free;
    BothEmpty(a, b);
    BothEmpty(b, a);
    if a != [] {
      FirstEntryLow(a, b);
      FirstEntryLow(b, a);
      FirstEntryHigh(a, b);
      FirstEntryHigh(b, a);
      SameTails(a, b);
      CanonicalUnique(a[1..], b[1..]);
      assert a == [a[0]] + a[1..] && b == [b[0]] + b[1..];
    }
  }

  lemma BothEmpty(a: seq<Interval>, b: seq<Interval>)
    requires Canonical(a) && Canonical(b) && SameKeys(a, b)
    ensures a == [] ==> b == []
    ensures SameKeys(b, a)
  {
    assert b != [] ==> Free(b, b[0].from) by {
      if b != [] { assert b[0].from <= b[0].from <= b[0].to; }
    }
    assert a == [] ==> forall x :: !Free(a, x);
  }

  lemma SameTails(a: seq<Interval>, b: seq<Interval>)
    requires Canonical(a) && Canonical(b) && SameKeys(a, b)
    requires a != [] && b != [] && a[0] == b[0]
    ensures Canonical(a[1..]) && Canonical(b[1..]) && SameKeys(a[1..], b[1..])
  {
    forall x ensures Free(a[1..], x) <==> Free(b[1..], x) {
      FreeTail(a, x);
      FreeTail(b, x);
    }
  }

  lemma FreeTail(a: seq<Interval>, x: int)
    requires Canonical(a) && a != []
    ensures Free(a[1..], x) <==> Free(a, x) && x > a[0].to
  {
    if Free(a, x) && x > a[0].to {
      var i :| 0 <= i < |a| && a[i].from <= x <= a[i].to;
      assert a[1..][i - 1] == a[i];
    }
    if Free(a[1..], x) {
      var i :| 0 <= i < |a| - 1 && a[1..][i].from <= x <= a[1..][i].to;
      assert a[1..][i] == a[i + 1];
    }
  }

  lemma FirstEntryLow(a: seq<Interval>, b: seq<Interval>)
    requires Canonical(a) && Canonical(b) && a != [] && b != [] && SameKeys(a, b)
    ensures b[0].from <= a[0].from
  {
    assert Free(a, a[0].from) by { assert a[0].from <= a[0].from <= a[0].to; }
    var j :| 0 <= j < |b| && b[j].from <= a[0].from <= b[j].to;
  }

  lemma FirstEntryHigh(a: seq<Interval>, b: seq<Interval>)
    requires Canonical(a) && Canonical(b) && a != [] && b != [] && SameKeys(a, b)
    requires a[0].from == b[0].from
    ensures b[0].to <= a[0].to
  {
    var x := a[0].to + 1;
    assert !Free(a, x);
    assert !Free(b, x);
    assert !(b[0].from <= x <= b[0].to);
  }

  // ------------------------------------------------------------------ runs of operations

  /** The arrays a run of deletions goes through. */
  ghost predicate DeleteRun(ms: seq<seq<Interval>>, keys: seq<nat>) {
    |ms| == |keys| + 1 && forall i | 0 <= i < |keys| :: Deleted(ms[i], keys[i], ms[i + 1])
  }

  ghost predicate InsertRun(ms: seq<seq<Interval>>, keys: seq<nat>) {
    |ms| == |keys| + 1 && forall i | 0 <= i < |keys| :: Inserted(ms[i], keys[i], ms[i + 1])
  }

  lemma {:induction false} DeleteRunFree(ms: seq<seq<Interval>>, keys: seq<nat>, n: nat)
    requires DeleteRun(ms, keys) && n <= |keys|
    ensures forall x :: Free(ms[n], x) <==> Free(ms[0], x) && x !in keys[..n]
  {
    if n > 0 {
      DeleteRunFree(ms, keys, n - 1);
      assert keys[..n] == keys[..n - 1] + [keys[n - 1]];
      assert Deleted(ms[n - 1], keys[n - 1], ms[n - 1 + 1]);
    }
  }

  lemma {:induction false} InsertRunFree(ms: seq<seq<Interval>>, keys: seq<nat>, n: nat)
    requires InsertRun(ms, keys) && n <= |keys|
    ensures forall x :: Free(ms[n], x) <==> Free(ms[0], x) || x in keys[..n]
  {
    if n > 0 {
      InsertRunFree(ms, keys, n - 1);
      assert keys[..n] == keys[..n - 1] + [keys[n - 1]];
      assert Inserted(ms[n - 1], keys[n - 1], ms[n - 1 + 1]);
    }
  }

  /** Deleting free keys and reinserting them in any order restores the very same array. */
  lemma DeleteThenReinsertIsIdentity(down: seq<seq<Interval>>, gone: seq<nat>,
                                     up: seq<seq<Interval>>, back: seq<nat>)
    requires DeleteRun(down, gone) && InsertRun(up, back)
    requires Canonical(down[0]) && up[0] == down[|gone|]
    requires forall k | k in gone :: Free(down[0], k)
    requires forall k :: k in gone <==> k in back
    ensures up[|back|] == down[0]
  {
    DeleteRunFree(down, gone, |gone|);
    InsertRunFree(up, back, |back|);
    assert gone[..|gone|] == gone && back[..|back|] == back;
    if |back| > 0 {
      assert Inserted(up[|back| - 1], back[|back| - 1], up[|back| - 1 + 1]);
    } else if |gone| > 0 {
      assert Deleted(down[|gone| - 1], gone[|gone| - 1], down[|gone| - 1 + 1]);
    }
    CanonicalUnique(up[|back|], down[0]);
  }

  // ------------------------------------------------------------------ the object

  class FreeMap {
    var entries: seq<Interval>
    var last: nat

    /** What every operation assumes: the cached position names an entry. */
    ghost predicate Valid() reads this {
      Canonical(entries) && last < |entries|
    }

    ghost predicate IsFree(k: int) reads this { Free(entries, k) }

    constructor ()
      ensures Valid() && entries == [Interval(0, MAX_KEY)] && last == 0
    {
      entries := [Interval(0, MAX_KEY)];
      last := 0;
    }

    /** fmapDeleteQuick: works on the cached entry only.  `tripped` says that the
        assertion after a collapse failed: the array became empty. */
    method DeleteQuick(key: nat) returns (hit: bool, tripped: bool)
      requires Valid() && key <= MAX_KEY
      modifies this
      ensures hit == old(entries[last].from <= key <= entries[last].to)
      ensures !hit ==> entries == old(entries) && last == old(last) && !tripped
      ensures hit ==> Deleted(old(entries), key, entries)
      ensures tripped <==> hit && old(entries) == [Interval(key, key)]
      ensures !tripped ==> Valid()
    {
      hide Free;
      var i := last;
      ghost var m := entries;
      if entries[i].from == key {
        if entries[i].to == key {
          DropEntry(m, i);
          entries := entries[..i] + entries[i + 1..];
          if last > 0 {
            last := last - 1;
          }
          return true, last >= |entries|;
        }
        TrimEntry(m, i, Interval(key + 1, m[i].to), key);
        entries := entries[i := Interval(key + 1, entries[i].to)];
        return true, false;
      } else if entries[i].to == key {
        TrimEntry(m, i, Interval(m[i].from, key - 1), key);
        entries := entries[i := Interval(entries[i].from, key - 1)];
        return true, false;
      } else if entries[i].from <= key <= entries[i].to {
        SplitEntry(m, i, Interval(m[i].from, key - 1), Interval(key + 1, m[i].to), key);
        InsertEntry(i);
        entries := entries[i := Interval(entries[i].from, key - 1)];
        entries := entries[i + 1 := Interval(key + 1, entries[i + 1].to)];
        assert entries == m[..i] + [Interval(m[i].from, key - 1), Interval(key + 1, m[i].to)] + m[i + 1..];
        return true, false;
      } else {
        return false, false;
      }
    }

    /** fmapInsertEntry: opens a slot at i holding a copy of what was there. */
    method InsertEntry(i: nat)
      requires i < |entries|
      modifies this`entries
      ensures entries == old(entries[..i] + [entries[i]] + entries[i..])
    {
      entries := entries[..i] + [entries[i]] + entries[i..];
    }

    /** bsearch with cmpkey: the entry holding the key, if any. */
    method FindHolding(key: nat) returns (r: Option<nat>)
      requires Canonical(entries)
      ensures r.Some? ==> r.value < |entries| && entries[r.value].from <= key <= entries[r.value].to
      ensures r.None? ==> !Free(entries, key)
    {
      var lo, hi := 0, |entries|;
      while lo < hi
        invariant 0 <= lo <= hi <= |entries|
        invariant forall j | 0 <= j < lo :: entries[j].to < key
        invariant forall j | hi <= j < |entries| :: key < entries[j].from
      {
        var mid := (lo + hi) / 2;
        if key < entries[mid].from {
          hi := mid;
        } else if key > entries[mid].to {
          lo := mid + 1;
        } else {
          return Some(mid);
        }
      }
      return None;
    }

    /** bsearch with cmpkeyi over map[1..]: an entry whose gap below touches the key. */
    method FindGap(key: nat) returns (r: Option<nat>)
      requires Canonical(entries) && |entries| >= 2
      requires entries[0].from <= key <= entries[|entries| - 1].to
      ensures r.Some? ==> 1 <= r.value < |entries| && entries[r.value - 1].to <= key <= entries[r.value].from
      ensures r.None? ==> Free(entries, key)
    {
      var lo, hi := 1, |entries|;
      while lo < hi
        invariant 1 <= lo <= hi <= |entries|
        invariant entries[lo - 1].from <= key
        invariant hi < |entries| ==> key < entries[hi - 1].to
      {
        var mid := (lo + hi) / 2;
        if key < entries[mid - 1].to {
          hi := mid;
        } else if key > entries[mid].from {
          lo := mid + 1;
        } else {
          return Some(mid);
        }
      }
      assert entries[lo - 1].from <= key <= entries[lo - 1].to;
      return None;
    }

    /** fmapDelete: the cached entry, then its successor, then a search. */
    method Delete(key: nat) returns (rc: int, tripped: bool)
      requires Valid() && key <= MAX_KEY
      modifies this
      ensures rc == (if old(Free(entries, key)) then 1 else 0)
      ensures Deleted(old(entries), key, entries)
      ensures rc == 0 ==> entries == old(entries)
      ensures tripped <==> old(entries) == [Interval(key, key)]
      ensures !tripped ==> Valid()
    {
      hide Free;
      ghost var m := entries;
      var hit;
      EntryFree(entries, last);
      hit, tripped := DeleteQuick(key);
      if hit {
        return 1, tripped;
      }
      if last + 1 < |entries| {
        last := last + 1;
        EntryFree(entries, last);
        hit, tripped := DeleteQuick(key);
        if hit {
          return 1, tripped;
        }
      }
      var p := FindHolding(key);
      match p
      case None =>
        return 0, false;
      case Some(i) =>
        last := i;
        EntryFree(entries, last);
        hit, tripped := DeleteQuick(key);
        assert hit;
        return 1, tripped;
    }

    /** fmapDeleteRange: the keys from key0 to key1, none if they are the wrong way round.
        `tripped` is the assertion of the delete that empties the map. */
    method DeleteRange(key0: nat, key1: nat) returns (tripped: bool)
      requires Valid() && key0 <= MAX_KEY && key1 <= MAX_KEY
      modifies this
      ensures key0 > key1 ==> !tripped && entries == old(entries) && last == old(last)
      ensures !tripped ==> Valid()
      ensures !tripped ==> forall x :: Free(entries, x) <==> old(Free(entries, x)) && !(key0 <= x <= key1)
      ensures tripped <==> forall x | old(Free(entries, x)) :: key0 <= x <= key1
    {
      hide Free;
      ghost var m := entries;
      EntryFree(m, 0);
      assert Free(m, m[0].from);
      if key0 > key1 {
        return false;
      }
      var k, rc := key0, 0;
      while k != key1
        invariant key0 <= k <= key1 && Valid()
        invariant forall x :: Free(entries, x) <==> Free(m, x) && !(key0 <= x < k)
        decreases key1 - k
      {
        rc, tripped := Delete(k);
        if tripped {
          SingletonFree(k, k);
          return true;
        }
        k := k + 1;
      }
      rc, tripped := Delete(key1);
      if tripped {
        SingletonFree(k, k);
      } else {
        EntryFree(entries, 0);
        assert Free(m, entries[0].from);
      }
    }

    /** fmapInsertQuick: the key must lie in the gap just below the cached entry. */
    method InsertQuick(key: nat) returns (hit: bool)
      requires Valid() && key <= MAX_KEY
      modifies this
      ensures hit == old(key < entries[last].from && (last == 0 || entries[last - 1].to < key))
      ensures !hit ==> entries == old(entries) && last == old(last)
      ensures hit ==> !old(Free(entries, key)) && Inserted(old(entries), key, entries)
      ensures Valid()
    {
      hide Free;
      var i := last;
      ghost var m := entries;
      if key < entries[i].from && (i == 0 || key > entries[i - 1].to) {
        GapNotFree(m, i, key);
        if key == entries[i].from - 1 {
          entries := entries[i := Interval(entries[i].from - 1, entries[i].to)];
          if i > 0 && entries[i].from - 1 == entries[i - 1].to {
            Bridge(m, i, key);
            entries := entries[i - 1 := Interval(entries[i - 1].from, entries[i].to)];
            entries := entries[..i] + entries[i + 1..];
            assert entries == m[i - 1 := Interval(m[i - 1].from, m[i].to)][..i] + m[i + 1..];
            if last >= |entries| {
              last := last - 1;
            }
          } else {
            GrowDown(m, i, key);
          }
          return true;
        } else if i > 0 && key == entries[i - 1].to + 1 {
          GrowUp(m, i, key);
          entries := entries[i - 1 := Interval(entries[i - 1].from, entries[i - 1].to + 1)];
          return true;
        } else {
          NewEntry(m, i, key);
          InsertEntry(i);
          entries := entries[i := Interval(key, key)];
          assert entries == m[..i] + [Interval(key, key), m[i]] + m[i + 1..];
          return true;
        }
      }
      return false;
    }

    /** fmapInsert.  `tripped` says that an assertion of the source would have stopped
        the program; with assertions compiled out the call then changes nothing. */
    method Insert(key: nat) returns (rc: int, tripped: bool)
      requires Valid() && key <= MAX_KEY
      modifies this
      ensures Valid()
      ensures tripped <==> old((entries[|entries| - 1].to < key) || (Free(entries, key) && |entries| == 1))
      ensures tripped || old(Free(entries, key)) ==> rc == 0 && entries == old(entries)
      ensures !tripped && !old(Free(entries, key)) ==> rc == 1 && Inserted(old(entries), key, entries)
    {
      hide Free;
      ghost var m := entries;
      var hit := InsertQuick(key);
      if hit {
        return 1, false;
      }
      if key < entries[0].from {
        last := 0;
        hit := InsertQuick(key);
        assert hit;
        return 1, false;
      }
      if entries[|entries| - 1].to < key || |entries| < 2 {
        EntryFree(entries, 0);
        return 0, true;
      }
      var p := FindGap(key);
      match p
      case None =>
        return 0, false;
      case Some(j) =>
        last := j;
        hit := InsertQuick(key);
        if hit {
          return 1, false;
        }
        EntryFree(entries, j);
        EntryFree(entries, j - 1);
        return 0, false;
    }

    /** The branch of fmapFindAndDeleteRange that takes a run from the bottom of entry i. */
    method TakeFromStart(i: nat, cnt: nat) returns (tripped: bool)
      requires Valid() && i < |entries| && 1 <= cnt && entries[i].from + cnt <= entries[i].to + 1
      modifies this
      ensures tripped <==> old(i == |entries| - 1 && entries[i].from + cnt == entries[i].to + 1)
      ensures RangeTaken(old(entries), old(entries[i].from), cnt, entries)
      ensures tripped ==> entries == old(entries[..i])
      ensures !tripped ==> Valid()
    {
      hide Free;
      ghost var m := entries;
      var from2 := (entries[i].from + cnt) % WORD;
      if from2 == (entries[i].to + 1) % WORD {
        TakeWhole(m, i, cnt);
        entries := entries[..i] + entries[i + 1..];
        last := i;
        return last >= |entries|;
      } else {
        TakeFront(m, i, cnt);
        entries := entries[i := Interval(from2, entries[i].to)];
        return false;
      }
    }

    /** The branch that takes a run starting at minr, strictly inside entry i. */
    method TakeFromInside(i: nat, minr: nat, cnt: nat)
      requires Valid() && i < |entries| && 1 <= cnt
      requires entries[i].from < minr && minr + cnt <= entries[i].to + 1
      modifies this
      ensures minr + cnt <= MAX_KEY ==> Valid() && RangeTaken(old(entries), minr, cnt, entries)
      // at the top of the key space the sum wraps, and everything is free afterwards
      ensures minr + cnt > MAX_KEY ==>
        entries == old(entries[..|entries| - 1] + [Interval(entries[i].from, minr - 1), Interval(0, MAX_KEY)])
    {
      ghost var m := entries;
      if (minr + cnt) % WORD > entries[i].to {
        TakeBack(m, i, cnt, minr);
        entries := entries[i := Interval(entries[i].from, entries[i].to - cnt)];
      } else {
        InsertEntry(i);
        entries := entries[i + 1 := Interval(entries[i + 1].from, entries[i].to)];
        entries := entries[i := Interval(entries[i].from, minr - 1)];
        entries := entries[i + 1 := Interval((minr + cnt) % WORD, entries[i + 1].to)];
        if minr + cnt <= MAX_KEY {
          TakeMiddle(m, i, cnt, minr);
          assert entries == m[..i] + [Interval(m[i].from, minr - 1), Interval(minr + cnt, m[i].to)] + m[i + 1..];
        } else {
          BelowTop(m, i);
        }
      }
    }

    /** fmapFindAndDeleteRange.  `tripped` is the assertion after an entry is used up. */
    method FindAndDeleteRange(minr: nat, cnt: nat) returns (found: bool, rec: nat, tripped: bool)
      requires Valid() && minr <= MAX_KEY && 1 <= cnt <= MAX_KEY
      modifies this
      ensures found <==> exists k: nat :: minr <= k && RunAt(old(entries), k, cnt)
      ensures forall k: nat | LowestRun(old(entries), minr, cnt, k) ::
        found && rec == k && RunTaken(old(entries), k, cnt, entries, tripped)
      ensures found ==> LowestRun(old(entries), minr, cnt, rec)
      ensures !found ==> entries == old(entries) && last == old(last) && !tripped
      ensures found && !tripped && rec + cnt <= MAX_KEY ==> Valid()
    {
      hide Free;
      ghost var m := entries;
      var i := 0;
      while i < |entries|
        invariant 0 <= i <= |entries|
        invariant entries == m && last == old(last)
        invariant forall j | 0 <= j < i :: NoRunStartsIn(m[j], minr, cnt)
      {
        if entries[i].to >= minr && entries[i].to - entries[i].from >= cnt - 1 {
          if entries[i].from >= minr {
            rec := entries[i].from;
            LowestRunHere(m, minr, cnt, i, rec);
            tripped := TakeFromStart(i, cnt);
            OnlyLowestRun(m, minr, cnt, rec);
            return true, rec, tripped;
          } else if entries[i].to - minr >= cnt - 1 {
            LowestRunHere(m, minr, cnt, i, minr);
            TakeFromInside(i, minr, cnt);
            OnlyLowestRun(m, minr, cnt, minr);
            return true, minr, false;
          }
        }
        i := i + 1;
      }
      forall k: nat | minr <= k ensures !RunAt(m, k, cnt) {
        NoRunAnywhere(m, minr, cnt, k);
      }
      return false, 0, false;
    }
  }

  // ------------------------------------------------------------------ where the C code goes wrong

  /** Inserting into a map in which every key is free trips the assertion. */
  method InsertIntoFullTrips(key: nat) returns (m: FreeMap, tripped: bool)
    requires key <= MAX_KEY
    ensures tripped && m.entries == [Interval(0, MAX_KEY)]
  {
    m := new FreeMap();
    EntryFree(m.entries, 0);
    var rc;
    rc, tripped := m.Insert(key);
  }

  /** Taking the top key of a new map hands it out and leaves it, and every other key, free. */
  method TopKeyStaysFree() returns (m: FreeMap, rec: nat)
    ensures rec == MAX_KEY && m.entries == [Interval(0, MAX_KEY - 1), Interval(0, MAX_KEY)]
    ensures forall x | 0 <= x <= MAX_KEY :: Free(m.entries, x)
  {
    m := new FreeMap();
    EntryFree(m.entries, 0);
    assert LowestRun(m.entries, MAX_KEY, 1, MAX_KEY);
    var found, tripped;
    found, rec, tripped := m.FindAndDeleteRange(MAX_KEY, 1);
    EntryFree(m.entries, 1);
  }

  /** Taking all that is left trips the assertion, and leaves an empty array. */
  method TakingAllTrips() returns (m: FreeMap, rec: nat, tripped: bool)
    ensures rec == 0 && tripped && m.entries == []
  {
    m := new FreeMap();
    SingletonFree(0, MAX_KEY);
    var rc;
    rc, tripped := m.Delete(MAX_KEY);
    SingletonFree(0, MAX_KEY - 1);
    assert SameKeys(m.entries, [Interval(0, MAX_KEY - 1)]);
    CanonicalUnique(m.entries, [Interval(0, MAX_KEY - 1)]);
    assert LowestRun(m.entries, 0, MAX_KEY, 0);
    var found;
    found, rec, tripped := m.FindAndDeleteRange(0, MAX_KEY);
  }

  // ------------------------------------------------------------------ helper lemmas

  lemma SingletonFree(from: nat, to: nat)
    ensures forall x :: Free([Interval(from, to)], x) <==> from <= x <= to
  {
    forall x | from <= x <= to ensures Free([Interval(from, to)], x) {
      assert [Interval(from, to)][0].from <= x <= [Interval(from, to)][0].to;
    }
  }

  lemma PairFree(lo: Interval, hi: Interval)
    ensures forall x :: Free([lo, hi], x) <==> lo.from <= x <= lo.to || hi.from <= x <= hi.to
  {
    forall x ensures Free([lo, hi], x) <==> lo.from <= x <= lo.to || hi.from <= x <= hi.to {
      if lo.from <= x <= lo.to { assert [lo, hi][0].from <= x <= [lo, hi][0].to; }
      if hi.from <= x <= hi.to { assert [lo, hi][1].from <= x <= [lo, hi][1].to; }
    }
  }

  /** No run of cnt keys that starts at or after minr starts inside this interval. */
  ghost predicate NoRunStartsIn(e: Interval, minr: nat, cnt: nat) {
    e.to < minr || (if e.from < minr then minr else e.from) + cnt - 1 > e.to
  }

  /** A run lies inside a single interval. */
  lemma RunInside(m: seq<Interval>, k: nat, cnt: nat, i: nat)
    requires Canonical(m) && cnt >= 1 && i < |m| && m[i].from <= k <= m[i].to
    requires RunAt(m, k, cnt)
    ensures k + cnt - 1 <= m[i].to
  {
    var x := m[i].to + 1;
    assert !Free(m, x);
    assert !(k <= x < k + cnt);
  }

  lemma NoRunAnywhere(m: seq<Interval>, minr: nat, cnt: nat, k: nat)
    requires Canonical(m) && cnt >= 1 && minr <= k
    requires forall j | 0 <= j < |m| :: NoRunStartsIn(m[j], minr, cnt)
    ensures !RunAt(m, k, cnt)
  {
    if RunAt(m, k, cnt) {
      assert Free(m, k);
      var i :| 0 <= i < |m| && m[i].from <= k <= m[i].to;
      RunInside(m, k, cnt, i);
    }
  }

  lemma BelowTop(m: seq<Interval>, i: nat)
    requires Canonical(m) && i < |m|
    ensures i < |m| - 1 ==> m[i].to < MAX_KEY
  {
    assert i < |m| - 1 ==> m[i].to + 1 < m[|m| - 1].from;
  }

  lemma OnlyLowestRun(m: seq<Interval>, minr: nat, cnt: nat, rec: nat)
    requires LowestRun(m, minr, cnt, rec)
    ensures forall k: nat | LowestRun(m, minr, cnt, k) :: k == rec
  {
  }

  lemma LowestRunHere(m: seq<Interval>, minr: nat, cnt: nat, i: nat, k: nat)
    requires Canonical(m) && cnt >= 1 && i < |m|
    requires forall j | 0 <= j < i :: NoRunStartsIn(m[j], minr, cnt)
    requires k == (if m[i].from >= minr then m[i].from else minr) && k + cnt - 1 <= m[i].to
    ensures LowestRun(m, minr, cnt, k)
  {
    forall x | k <= x < k + cnt ensures Free(m, x) {
      assert m[i].from <= x <= m[i].to;
    }
    forall j: nat | minr <= j < k ensures !RunAt(m, j, cnt) {
      if RunAt(m, j, cnt) {
        assert Free(m, j);
        var h :| 0 <= h < |m| && m[h].from <= j <= m[h].to;
        RunInside(m, j, cnt, h);
      }
    }
  }
}
