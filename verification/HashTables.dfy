/** Extendible hash tables (handc/hasht): a directory of bucket chains, doubled when a bucket
    that already uses every directory bit must be split.

    Buckets live in a heap of records, an address of 0 standing for #f; directory slots that
    share a bucket hold the same address.  */
module HashTables {
  import opened Options
  import opened HashBits

  const CAPACITY: nat := 8      // BUCKET_CAPACITY

  datatype Obj = False | Item(id: int)

  /** The three words of a bucket's slot; a hash of None (#f) marks the slot empty. */
  datatype Slot = Slot(hash: Option<nat>, key: Obj, value: Obj)

  datatype Entry = Entry(hash: nat, key: Obj, value: Obj)

  datatype Bucket = Bucket(bits: nat, overflow: nat, slots: seq<Slot>)

  type Buckets = map<nat, Bucket>

  const EMPTY: Slot := Slot(None, False, False)

  // ------------------------------------------------------------------ what slots and chains hold

  ghost function One(x: Slot): multiset<Entry> {
    if x.hash.Some? then multiset{Entry(x.hash.value, x.key, x.value)} else multiset{}
  }

  ghost function Items(s: seq<Slot>): multiset<Entry> {
    if s == [] then multiset{} else Items(s[..|s| - 1]) + One(s[|s| - 1])
  }

  lemma ItemsNext(s: seq<Slot>, k: nat)
    requires k < |s|
    ensures Items(s[..k + 1]) == Items(s[..k]) + One(s[k])
  {
    assert s[..k + 1] == s[..k] + [s[k]];
    ItemsSnoc(s[..k], s[k]);
  }

  lemma ItemsSnoc(s: seq<Slot>, x: Slot)
    ensures Items(s + [x]) == Items(s) + One(x)
  {
    hide One;
    var t := s + [x];
    assert t[..|t| - 1] == s;
    assert t[|t| - 1] == x;
    assert Items(t) == Items(t[..|t| - 1]) + One(t[|t| - 1]);
  }

  lemma AddToBoth(a: multiset<Entry>, b: multiset<Entry>, c: multiset<Entry>, d: multiset<Entry>, m: multiset<Entry>)
    requires a + b == c + d
    ensures (a + m) + b == (c + m) + d
  {
    forall e: Entry ensures ((a + m) + b)[e] == ((c + m) + d)[e] {
      assert (a + b)[e] == (c + d)[e];
    }
  }

  lemma {:induction false} ItemsUpdate(s: seq<Slot>, k: nat, x: Slot)
    requires k < |s|
    ensures Items(s[k := x]) + One(s[k]) == Items(s) + One(x)
  {
    hide One, Items;
    var n, t := |s| - 1, s[k := x];
    ItemsLast(s);
    ItemsLast(t);
    if k == n {
      assert t[..n] == s[..n];
      AddToBoth(One(x), One(s[k]), One(s[k]), One(x), Items(s[..n]));
    } else {
      ItemsUpdate(s[..n], k, x);
      assert t[..n] == s[..n][k := x];
      AddToBoth(Items(t[..n]), One(s[k]), Items(s[..n]), One(x), One(s[n]));
    }
  }

  lemma ItemsLast(s: seq<Slot>)
    requires s != []
    ensures Items(s) == Items(s[..|s| - 1]) + One(s[|s| - 1]) == One(s[|s| - 1]) + Items(s[..|s| - 1])
  {
  }

  function SlotOf(e: Entry): Slot { Slot(Some(e.hash), e.key, e.value) }

  lemma {:induction false} ItemsFrom(s: seq<Slot>, e: Entry)
    ensures e in Items(s) <==> SlotOf(e) in s
  {
    if s != [] {
      var n := |s| - 1;
      ItemsFrom(s[..n], e);
      assert s == s[..n] + [s[n]];
      assert e in One(s[n]) <==> SlotOf(e) == s[n];
      hide One;
      assert Items(s) == Items(s[..n]) + One(s[n]);
    }
  }

  lemma {:induction false} NoItems(s: seq<Slot>)
    requires forall k: nat | k < |s| :: s[k] == EMPTY
    ensures Items(s) == multiset{}
  {
    if s != [] { NoItems(s[..|s| - 1]); }
  }

  ghost function ChainItems(bk: Buckets, ch: seq<nat>): multiset<Entry> {
    if ch == [] then multiset{}
    else ChainItems(bk, ch[..|ch| - 1]) + if ch[|ch| - 1] in bk then Items(bk[ch[|ch| - 1]].slots) else multiset{}
  }

  lemma ChainNext(bk: Buckets, ch: seq<nat>, i: nat)
    requires i < |ch| && ch[i] in bk
    ensures ChainItems(bk, ch[..i + 1]) == ChainItems(bk, ch[..i]) + Items(bk[ch[i]].slots)
  {
    assert ch[..i + 1][..i] == ch[..i];
  }

  lemma {:induction false} ChainFrame(bk: Buckets, bk2: Buckets, ch: seq<nat>)
    requires forall a | a in ch :: a in bk && a in bk2 && bk2[a].slots == bk[a].slots
    ensures ChainItems(bk2, ch) == ChainItems(bk, ch)
  {
    if ch != [] { ChainFrame(bk, bk2, ch[..|ch| - 1]); }
  }

  lemma {:induction false} ChainHas(bk: Buckets, ch: seq<nat>, i: nat)
    requires i < |ch| && ch[i] in bk
    ensures Items(bk[ch[i]].slots) <= ChainItems(bk, ch)
  {
    var n := |ch| - 1;
    if i < n { ChainHas(bk, ch[..n], i); }
  }

  lemma {:induction false} ChainFrom(bk: Buckets, ch: seq<nat>, e: Entry)
    requires e in ChainItems(bk, ch)
    ensures exists i: nat :: i < |ch| && ch[i] in bk && e in Items(bk[ch[i]].slots)
  {
    var n := |ch| - 1;
    if e in ChainItems(bk, ch[..n]) {
      ChainFrom(bk, ch[..n], e);
      var i: nat :| i < n && ch[..n][i] in bk && e in Items(bk[ch[..n][i]].slots);
      assert ch[i] in bk;
    }
  }

  lemma {:induction false} ChainUpdate(bk: Buckets, ch: seq<nat>, i: nat, s: nat, x: Slot)
    requires i < |ch| && Distinct(ch) && (forall a | a in ch :: a in bk) && s < |bk[ch[i]].slots|
    ensures ChainItems(WriteSlot(bk, ch[i], s, x), ch) + One(bk[ch[i]].slots[s]) == ChainItems(bk, ch) + One(x)
  {
    hide One, Items;
    var n := |ch| - 1;
    var bk2 := WriteSlot(bk, ch[i], s, x);
    if i < n {
      ChainUpdate(bk, ch[..n], i, s, x);
      assert ch[n] != ch[i] && bk2[ch[n]] == bk[ch[n]];
      assert ch[..n][i] == ch[i] && ch[n] in ch && ch[n] in bk2;
      assert ChainItems(bk2, ch) == ChainItems(bk2, ch[..n]) + Items(bk[ch[n]].slots);
      assert ChainItems(bk, ch) == ChainItems(bk, ch[..n]) + Items(bk[ch[n]].slots);
      AddToBoth(ChainItems(bk2, ch[..n]), One(bk[ch[i]].slots[s]), ChainItems(bk, ch[..n]), One(x), Items(bk[ch[n]].slots));
    } else {
      ChainFrame(bk, bk2, ch[..n]);
      ItemsUpdate(bk[ch[i]].slots, s, x);
      assert ChainItems(bk2, ch) == Items(bk2[ch[i]].slots) + ChainItems(bk, ch[..n]);
      assert ChainItems(bk, ch) == Items(bk[ch[i]].slots) + ChainItems(bk, ch[..n]);
      AddToBoth(Items(bk2[ch[i]].slots), One(bk[ch[i]].slots[s]), Items(bk[ch[i]].slots), One(x), ChainItems(bk, ch[..n]));
    }
  }

  function WriteSlot(bk: Buckets, a: nat, s: nat, x: Slot): Buckets
    requires a in bk && s < |bk[a].slots|
  {
    bk[a := bk[a].(slots := bk[a].slots[s := x])]
  }

  // ------------------------------------------------------------------ the invariant

  ghost predicate Distinct(ch: seq<nat>) {
    forall i, j | 0 <= i < j < |ch| :: ch[i] != ch[j]
  }

  function At(ch: seq<nat>, i: nat): nat { if i < |ch| then ch[i] else 0 }

  ghost predicate BucketOk(b: Bucket, bits: nat) {
    && b.bits == bits && |b.slots| == CAPACITY
    && forall s: nat | s < CAPACITY :: b.slots[s].hash.None? ==> b.slots[s].key == False
  }

  /** ch lists the buckets of a chain in overflow order. */
  ghost predicate ChainOk(bk: Buckets, first: nat, bits: nat, ch: seq<nat>) {
    && ch != [] && ch[0] == first && Distinct(ch)
    && (forall i: nat | i < |ch| :: ch[i] != 0 && ch[i] in bk && BucketOk(bk[ch[i]], bits))
    && (forall i: nat | i < |ch| && ch[i] in bk :: bk[ch[i]].overflow == At(ch, i + 1))
  }

  datatype Chain = Chain(bits: nat, at: seq<nat>)

  ghost predicate ChainsOk(bk: Buckets, chains: map<nat, Chain>) {
    && (forall f | f in chains :: f != 0 && ChainOk(bk, f, chains[f].bits, chains[f].at))
    && (forall f, g, a | f in chains && g in chains && f != g && a in chains[f].at :: a !in chains[g].at)
  }

  ghost function ItemsOf(bk: Buckets, chains: map<nat, Chain>, f: nat): multiset<Entry> {
    if f in chains then ChainItems(bk, chains[f].at) else multiset{}
  }

  /** A bucket with b bits is shared by exactly the directory indices congruent mod 2^b, and
      every hash in its chain agrees with them mod 2^b. */
  ghost predicate SharedOk(dir: seq<nat>, dirBits: nat, bk: Buckets, chains: map<nat, Chain>, i: nat)
    requires i < |dir|
  {
    && dir[i] in chains && chains[dir[i]].bits <= dirBits
    && (forall j: nat | j < |dir| :: dir[j] == dir[i] <==> Congruent(j, i, chains[dir[i]].bits))
    && (forall e: Entry | e in ItemsOf(bk, chains, dir[i]) :: Congruent(e.hash, i, chains[dir[i]].bits))
  }

  ghost predicate DirOk(dir: seq<nat>, dirBits: nat, bk: Buckets, chains: map<nat, Chain>) {
    && |dir| == Pow2(dirBits)
    && (forall i: nat | i < |dir| && dir[i] != 0 :: SharedOk(dir, dirBits, bk, chains, i))
    && (forall f | f in chains :: f in dir)
  }

  ghost function Found(dir: seq<nat>, bk: Buckets, chains: map<nat, Chain>, e: Entry): nat
    requires |dir| > 0
  {
    ItemsOf(bk, chains, dir[e.hash % |dir|])[e]
  }

  /** What the directory leads to, hash by hash. */
  ghost predicate Holds(dir: seq<nat>, bk: Buckets, chains: map<nat, Chain>, items: multiset<Entry>) {
    |dir| > 0 && forall e: Entry :: items[e] == Found(dir, bk, chains, e)
  }

  ghost predicate TableOk(dir: seq<nat>, dirBits: nat, bk: Buckets, chains: map<nat, Chain>, items: multiset<Entry>) {
    && ChainsOk(bk, chains) && DirOk(dir, dirBits, bk, chains) && Holds(dir, bk, chains, items)
  }

  // ------------------------------------------------------------------ what a write keeps

  lemma Reaches(dir: seq<nat>, dirBits: nat, bk: Buckets, chains: map<nat, Chain>, f: nat, e: Entry)
    requires ChainsOk(bk, chains) && DirOk(dir, dirBits, bk, chains) && e in ItemsOf(bk, chains, f)
    ensures dir[e.hash % |dir|] == f
  {
    var i: nat :| i < |dir| && dir[i] == f;
    assert SharedOk(dir, dirBits, bk, chains, i);
    IndexCongruent(e.hash, chains[f].bits, dirBits);
  }

  lemma OfTwo(a: multiset<Entry>, b: multiset<Entry>, c: multiset<Entry>, d: multiset<Entry>, e: Entry)
    requires a + b == c + d
    ensures a[e] + b[e] == c[e] + d[e]
  {
    assert (a + b)[e] == (c + d)[e];
  }

  /** Writing one slot of the chain that the new entry's hash leads to. */
  lemma WriteKeeps(dir: seq<nat>, dirBits: nat, bk: Buckets, chains: map<nat, Chain>, items: multiset<Entry>,
                   f: nat, i: nat, s: nat, x: Slot, items2: multiset<Entry>)
    requires TableOk(dir, dirBits, bk, chains, items) && f in chains && i < |chains[f].at| && s < CAPACITY
    requires chains[f].at[i] in bk && s < |bk[chains[f].at[i]].slots|
    requires if x.hash.Some? then dir[x.hash.value % |dir|] == f else x.key == False
    requires items2 + One(bk[chains[f].at[i]].slots[s]) == items + One(x)
    ensures TableOk(dir, dirBits, WriteSlot(bk, chains[f].at[i], s, x), chains, items2)
  {
    var bk2 := WriteSlot(bk, chains[f].at[i], s, x);
    var was := bk[chains[f].at[i]].slots[s];
    WriteItems(bk, chains, f, i, s, x);
    WriteChains(bk, chains, f, i, s, x);
    ChainHas(bk, chains[f].at, i);
    ItemsHas(bk[chains[f].at[i]].slots, s);
    hide ChainsOk, ItemsOf, One;
    forall e: Entry | e in ItemsOf(bk2, chains, f) && e !in ItemsOf(bk, chains, f) ensures One(x) == multiset{e} {
      OfTwo(ItemsOf(bk2, chains, f), One(was), ItemsOf(bk, chains, f), One(x), e);
      OneIs(x, e);
    }
    WriteDir(dir, dirBits, bk, bk2, chains, f, x);
    hide DirOk;
    forall e: Entry ensures items2[e] == Found(dir, bk2, chains, e) {
      WriteHolds(dir, dirBits, bk, bk2, chains, items, f, was, x, items2, e);
    }
  }

  lemma WriteHolds(dir: seq<nat>, dirBits: nat, bk: Buckets, bk2: Buckets, chains: map<nat, Chain>, items: multiset<Entry>,
                   f: nat, was: Slot, x: Slot, items2: multiset<Entry>, e: Entry)
    requires TableOk(dir, dirBits, bk, chains, items)
    requires if x.hash.Some? then dir[x.hash.value % |dir|] == f else x.key == False
    requires items2 + One(was) == items + One(x)
    requires ItemsOf(bk2, chains, f) + One(was) == ItemsOf(bk, chains, f) + One(x)
    requires forall g | g != f :: ItemsOf(bk2, chains, g) == ItemsOf(bk, chains, g)
    requires One(was) <= ItemsOf(bk, chains, f)
    ensures items2[e] == Found(dir, bk2, chains, e)
  {
    hide ChainsOk, ItemsOf, One, DirOk;
    OfTwo(items2, One(was), items, One(x), e);
    OfTwo(ItemsOf(bk2, chains, f), One(was), ItemsOf(bk, chains, f), One(x), e);
    OneIs(x, e);
    if e in One(was) {
      Reaches(dir, dirBits, bk, chains, f, e);
    }
    assert items[e] == Found(dir, bk, chains, e);
  }

  lemma OneIs(x: Slot, e: Entry)
    ensures e in One(x) <==> x == SlotOf(e)
    ensures e in One(x) ==> One(x) == multiset{e}
  {
  }

  lemma ItemsHas(s: seq<Slot>, k: nat)
    requires k < |s|
    ensures One(s[k]) <= Items(s)
  {
    if s[k].hash.Some? {
      var e := Entry(s[k].hash.value, s[k].key, s[k].value);
      ItemsFrom(s, e);
      assert SlotOf(e) == s[k];
    }
  }

  lemma WriteItems(bk: Buckets, chains: map<nat, Chain>, f: nat, i: nat, s: nat, x: Slot)
    requires ChainsOk(bk, chains) && f in chains && i < |chains[f].at| && s < CAPACITY
    requires chains[f].at[i] in bk && s < |bk[chains[f].at[i]].slots|
    ensures var bk2 := WriteSlot(bk, chains[f].at[i], s, x);
      && ItemsOf(bk2, chains, f) + One(bk[chains[f].at[i]].slots[s]) == ItemsOf(bk, chains, f) + One(x)
      && forall g | g != f :: ItemsOf(bk2, chains, g) == ItemsOf(bk, chains, g)
  {
    var a := chains[f].at[i];
    var bk2 := WriteSlot(bk, a, s, x);
    assert ChainOk(bk, f, chains[f].bits, chains[f].at);
    AllIn(bk, f, chains[f].bits, chains[f].at);
    ChainUpdate(bk, chains[f].at, i, s, x);
    forall g | g != f ensures ItemsOf(bk2, chains, g) == ItemsOf(bk, chains, g) {
      if g in chains {
        assert ChainOk(bk, g, chains[g].bits, chains[g].at);
        AllIn(bk, g, chains[g].bits, chains[g].at);
        assert a !in chains[g].at;
        ChainFrame(bk, bk2, chains[g].at);
      }
    }
  }

  lemma AllIn(bk: Buckets, first: nat, bits: nat, ch: seq<nat>)
    requires ChainOk(bk, first, bits, ch)
    ensures forall a | a in ch :: a in bk && a != 0
  {
  }

  lemma WriteChains(bk: Buckets, chains: map<nat, Chain>, f: nat, i: nat, s: nat, x: Slot)
    requires ChainsOk(bk, chains) && f in chains && i < |chains[f].at| && s < CAPACITY
    requires chains[f].at[i] in bk && s < |bk[chains[f].at[i]].slots| && (x.hash.None? ==> x.key == False)
    ensures ChainsOk(WriteSlot(bk, chains[f].at[i], s, x), chains)
  {
    hide ChainOk;
    var bk2 := WriteSlot(bk, chains[f].at[i], s, x);
    forall g | g in chains ensures ChainOk(bk2, g, chains[g].bits, chains[g].at) {
      WriteChain(bk, g, chains[g].bits, chains[g].at, chains[f].at[i], s, x);
    }
  }

  lemma WriteChain(bk: Buckets, first: nat, bits: nat, at: seq<nat>, a: nat, s: nat, x: Slot)
    requires ChainOk(bk, first, bits, at) && a in bk && s < |bk[a].slots| && (x.hash.None? ==> x.key == False)
    ensures ChainOk(WriteSlot(bk, a, s, x), first, bits, at)
  {
    var bk2 := WriteSlot(bk, a, s, x);
    forall i: nat | i < |at| ensures at[i] in bk2 && BucketOk(bk2[at[i]], bits) && bk2[at[i]].overflow == At(at, i + 1) {
      assert BucketOk(bk[at[i]], bits) && bk[at[i]].overflow == At(at, i + 1);
    }
  }

  lemma WriteDir(dir: seq<nat>, dirBits: nat, bk: Buckets, bk2: Buckets, chains: map<nat, Chain>, f: nat, x: Slot)
    requires DirOk(dir, dirBits, bk, chains) && f in chains
    requires x.hash.Some? ==> dir[x.hash.value % |dir|] == f
    requires forall g | g != f :: ItemsOf(bk2, chains, g) == ItemsOf(bk, chains, g)
    requires forall e: Entry | e in ItemsOf(bk2, chains, f) && e !in ItemsOf(bk, chains, f) :: One(x) == multiset{e}
    ensures DirOk(dir, dirBits, bk2, chains)
  {
    hide ItemsOf;
    forall i: nat | i < |dir| && dir[i] != 0 ensures SharedOk(dir, dirBits, bk2, chains, i) {
      assert SharedOk(dir, dirBits, bk, chains, i);
      forall e: Entry | e in ItemsOf(bk2, chains, dir[i]) ensures Congruent(e.hash, i, chains[dir[i]].bits) {
        if e !in ItemsOf(bk, chains, dir[i]) {
          assert dir[i] == f && One(x) == multiset{e};
          assert e in One(x) && x.hash == Some(e.hash);
          IndexCongruent(e.hash, chains[f].bits, dirBits);
        }
      }
    }
  }

  // ------------------------------------------------------------------ tables

  /** Nothing outside these chains was touched. */
  ghost predicate Untouched(bk: Buckets, bk2: Buckets, chains: map<nat, Chain>) {
    forall a | a in bk && !InChains(chains, a) :: a in bk2 && bk2[a] == bk[a]
  }

  ghost predicate InChains(chains: map<nat, Chain>, a: nat) {
    exists f :: f in chains && a in chains[f].at
  }

  /** Every bucket of the second table was in the first or did not exist. */
  ghost predicate OwnOrNew(bk: Buckets, chains: map<nat, Chain>, chains2: map<nat, Chain>) {
    forall a | InChains(chains2, a) && a in bk :: InChains(chains, a)
  }

  /** Some slot of the chain is empty. */
  ghost predicate SomeEmpty(bk: Buckets, chains: map<nat, Chain>, f: nat) {
    f in chains && exists i: nat, s: nat :: EmptyAt(bk, chains[f].at, i, s)
  }

  ghost predicate EmptyAt(bk: Buckets, ch: seq<nat>, i: nat, s: nat) {
    i < |ch| && ch[i] in bk && s < |bk[ch[i]].slots| && bk[ch[i]].slots[s].hash.None?
  }

  /** SPECIAL_CMP: string tables compare hashes as well, object tables the keys alone. */
  predicate Matches(byHash: bool, h: nat, key: Obj, x: Slot) {
    (byHash ==> x.hash == Some(h)) && x.key == key
  }

  /** A table of these entries is the finite map m. */
  ghost predicate Represents(items: multiset<Entry>, m: map<Obj, Entry>) {
    && (forall k | k in m :: m[k].key == k)
    && (forall e: Entry :: items[e] == if e.key in m && m[e.key] == e then 1 else 0)
  }

  function ValueIn(m: map<Obj, Entry>, key: Obj): Obj {
    if key in m then m[key].value else False
  }

  /** The caller's hash is the one its key was stored under. */
  ghost predicate HashedAs(m: map<Obj, Entry>, key: Obj, h: nat) {
    key in m ==> m[key].hash == h
  }

  /** The slot at which a scan of the chain stops: the first in scan order that matches. */
  ghost predicate FirstMatch(byHash: bool, h: nat, key: Obj, bk: Buckets, ch: seq<nat>, i: nat, s: nat) {
    && MatchAt(byHash, h, key, bk, ch, i, s)
    && forall k: nat, t: nat | (k < i || (k == i && t < s)) && t < CAPACITY :: !MatchAt(byHash, h, key, bk, ch, k, t)
  }

  /** The scan stops at an unused slot: its key is #f, which object tables compare alone. */
  ghost predicate HitsUnused(byHash: bool, h: nat, key: Obj, bk: Buckets, chains: map<nat, Chain>, f: nat) {
    f in chains && exists i: nat, s: nat :: UnusedFirst(byHash, h, key, bk, chains[f].at, i, s)
  }

  ghost predicate UnusedFirst(byHash: bool, h: nat, key: Obj, bk: Buckets, ch: seq<nat>, i: nat, s: nat) {
    FirstMatch(byHash, h, key, bk, ch, i, s) && EmptyAt(bk, ch, i, s)
  }

  /** What an earlier confusion has left in that slot. */
  ghost function Leftover(byHash: bool, h: nat, key: Obj, bk: Buckets, chains: map<nat, Chain>, f: nat): Obj {
    if HitsUnused(byHash, h, key, bk, chains, f) then
      var i: nat, s: nat :| UnusedFirst(byHash, h, key, bk, chains[f].at, i, s);
      bk[chains[f].at[i]].slots[s].value
    else False
  }

  lemma FirstIsOnly(byHash: bool, h: nat, key: Obj, bk: Buckets, ch: seq<nat>, i: nat, s: nat, k: nat, t: nat)
    requires FirstMatch(byHash, h, key, bk, ch, i, s) && FirstMatch(byHash, h, key, bk, ch, k, t) && s < CAPACITY && t < CAPACITY
    ensures i == k && s == t
  {
  }

  /** Whether a scan that stopped at slot (i, s) was mistaken. */
  lemma Stopped(byHash: bool, h: nat, key: Obj, bk: Buckets, chains: map<nat, Chain>, f: nat, i: nat, s: nat)
    requires ChainsOk(bk, chains) && f in chains && FirstMatch(byHash, h, key, bk, chains[f].at, i, s) && s < CAPACITY
    ensures chains[f].at[i] in bk && s < |bk[chains[f].at[i]].slots|
    ensures var x := bk[chains[f].at[i]].slots[s];
      && (HitsUnused(byHash, h, key, bk, chains, f) <==> x.hash.None?)
      && (x.hash.None? ==> Leftover(byHash, h, key, bk, chains, f) == x.value)
  {
    hide ChainsOk, FirstMatch;
    assert MatchAt(byHash, h, key, bk, chains[f].at, i, s) by { FirstMatches(byHash, h, key, bk, chains[f].at, i, s); }
    if bk[chains[f].at[i]].slots[s].hash.None? { assert UnusedFirst(byHash, h, key, bk, chains[f].at, i, s); }
    forall k: nat, t: nat | UnusedFirst(byHash, h, key, bk, chains[f].at, k, t) ensures k == i && t == s {
      FirstMatches(byHash, h, key, bk, chains[f].at, k, t);
      SlotCount(bk, chains, f, k);
      FirstIsOnly(byHash, h, key, bk, chains[f].at, i, s, k, t);
    }
  }

  lemma ChainDistinct(bk: Buckets, chains: map<nat, Chain>, f: nat)
    requires ChainsOk(bk, chains) && f in chains
    ensures Distinct(chains[f].at)
  {
    assert ChainOk(bk, f, chains[f].bits, chains[f].at);
  }

  lemma FirstMatches(byHash: bool, h: nat, key: Obj, bk: Buckets, ch: seq<nat>, i: nat, s: nat)
    requires FirstMatch(byHash, h, key, bk, ch, i, s)
    ensures MatchAt(byHash, h, key, bk, ch, i, s)
  {
  }

  /** A scan that meets no match was not mistaken. */
  lemma NotStopped(byHash: bool, h: nat, key: Obj, bk: Buckets, chains: map<nat, Chain>, f: nat)
    requires ChainsOk(bk, chains) && NoMatch(byHash, h, key, bk, chains, f)
    ensures !HitsUnused(byHash, h, key, bk, chains, f)
  {
    hide ChainsOk;
    if f in chains {
      forall i: nat, s: nat ensures !UnusedFirst(byHash, h, key, bk, chains[f].at, i, s) {
        if i < |chains[f].at| { SlotCount(bk, chains, f, i); }
      }
    }
  }

  /** Only object tables, and only for #f. */
  lemma OnlyFalseHitsUnused(byHash: bool, h: nat, key: Obj, bk: Buckets, chains: map<nat, Chain>, f: nat)
    requires ChainsOk(bk, chains) && HitsUnused(byHash, h, key, bk, chains, f)
    ensures !byHash && key == False
  {
    var i: nat, s: nat :| UnusedFirst(byHash, h, key, bk, chains[f].at, i, s);
    assert ChainOk(bk, f, chains[f].bits, chains[f].at);
    assert BucketOk(bk[chains[f].at[i]], chains[f].bits);
  }

  class Heap {
    var buckets: Buckets
    var next: nat

    ghost predicate Ok()
      reads this
    {
      next > 0 && forall a | a in buckets :: 0 < a < next
    }

    constructor ()
      ensures Ok() && buckets == map[]
    {
      buckets, next := map[], 1;
    }

    method New(b: Bucket) returns (a: nat)
      requires Ok()
      modifies this
      ensures Ok() && a != 0 && a !in old(buckets) && a >= old(next) && buckets == old(buckets)[a := b]
      ensures next >= old(next)
    {
      a := next;
      buckets := buckets[a := b];
      next := next + 1;
    }

    /** make_bucket */
    method MakeBucket(bits: nat) returns (a: nat)
      requires Ok()
      modifies this
      ensures Ok() && a != 0 && a !in old(buckets) && a >= old(next) && buckets == old(buckets)[a := FreshBucket(bits)]
      ensures next >= old(next)
    {
      a := New(FreshBucket(bits));
    }

    /** chain_insert: a chain under construction gets one more entry, in a new bucket when its
        last one is full. */
    method ChainInsert(c: BucketChain, ghost at: seq<nat>, bits: nat, e: Entry, ghost bk0: Buckets)
        returns (c2: BucketChain, ghost at2: seq<nat>)
      requires Ok() && Build(buckets, bk0, c, bits, at) && bk0.Keys <= buckets.Keys
      modifies this
      ensures Ok() && Build(buckets, bk0, c2, bits, at2)
      ensures ChainItems(buckets, at2) == ChainItems(old(buckets), at) + multiset{e}
      ensures forall a | a in old(buckets) && a !in at :: a in buckets && buckets[a] == old(buckets[a])
      ensures old(buckets).Keys <= buckets.Keys
      ensures forall a | a in at2 :: a in at || a !in old(buckets)
    {
      hide Build, ChainItems, EmptyAt;
      BuildIn(buckets, bk0, c, bits, at);
      c2, at2 := c, at;
      if c.index >= CAPACITY {
        var last := MakeBucket(bits);
        ghost var bk1 := buckets;
        if c.last == 0 {
          c2 := c2.(first := last);
        } else {
          buckets := buckets[c.last := buckets[c.last].(overflow := last)];
        }
        at2 := at + [last];
        Extended(old(buckets), buckets, bk0, c, bits, at, last);
        c2 := c2.(last := last, index := 0);
      }
      BuildIn(buckets, bk0, c2, bits, at2);
      Filled(buckets, bk0, c2, bits, at2, e);
      buckets := WriteSlot(buckets, c2.last, c2.index, SlotOf(e));
      c2 := c2.(index := c2.index + 1);
    }
  }

  function FreshBucket(bits: nat): Bucket { Bucket(bits, 0, seq(CAPACITY, i => EMPTY)) }

  class HashTable {
    const heap: Heap
    var directory: seq<nat>
    var dirBits: nat
    var count: int
    ghost var chains: map<nat, Chain>
    ghost var items: multiset<Entry>

    ghost predicate Core()
      reads this, heap
    {
      heap.Ok() && |directory| > 0 && TableOk(directory, dirBits, heap.buckets, chains, items)
    }

    ghost predicate Valid()
      reads this, heap
    {
      Core() && count == |items|
    }

    /** How far the count is off: every mistaken removal lowers it by one more. */
    ghost function Drift(): int
      reads this
    {
      count - |items|
    }

    /** A table without buckets. */
    constructor (heap_: Heap, bits: nat)
      requires heap_.Ok()
      ensures Valid() && heap == heap_ && items == multiset{} && dirBits == bits
    {
      heap := heap_;
      directory, dirBits, count := seq(Pow2(bits), i => 0), bits, 0;
      chains, items := map[], multiset{};
    }

    constructor Clone(heap_: Heap, dir: seq<nat>, bits: nat, n: int, ghost ch: map<nat, Chain>, ghost it: multiset<Entry>)
      ensures heap == heap_ && directory == dir && dirBits == bits && count == n && chains == ch && items == it
    {
      heap := heap_;
      directory, dirBits, count, chains, items := dir, bits, n, ch, it;
    }

    /** read_dir */
    function ReadDir(h: nat): nat
      reads this
      requires |directory| > 0
    {
      directory[h % |directory|]
    }

    /** The loop of hashtable_install for an empty slot. */
    method FirstFree(h: nat) returns (a: nat, s: nat, ghost i: nat)
      requires Core()
      ensures a != 0 ==> SlotIs(heap.buckets, chains, ReadDir(h), i, a, s) && heap.buckets[a].slots[s].hash.None?
      ensures a == 0 ==> !SomeEmpty(heap.buckets, chains, ReadDir(h))
    {
      hide TableOk;
      ghost var f := ReadDir(h);
      ghost var ch := ChainAt(directory, dirBits, heap.buckets, chains, items, h % |directory|);
      a, i, s := ReadDir(h), 0, 0;
      while a != 0
        invariant i <= |ch| && a == At(ch, i)
        invariant forall k: nat, t: nat | k < i :: !EmptyAt(heap.buckets, ch, k, t)
        decreases |ch| - i
      {
        InChain(heap.buckets, ch, i);
        s := 0;
        while s < CAPACITY
          invariant s <= CAPACITY
          invariant forall t: nat | t < s :: !EmptyAt(heap.buckets, ch, i, t)
        {
          if heap.buckets[a].slots[s].hash.None? {
            return;
          }
          s := s + 1;
        }
        a := heap.buckets[a].overflow;
        i := i + 1;
      }
    }

    /** The scan of the special-purpose operations: a matching slot, and the first empty one
        before it. */
    method Scan(byHash: bool, h: nat, key: Obj) returns (a: nat, s: nat, nf: nat, nfs: nat, ghost i: nat, ghost ni: nat)
      requires Core()
      ensures a != 0 ==> SlotIs(heap.buckets, chains, ReadDir(h), i, a, s) && Matches(byHash, h, key, heap.buckets[a].slots[s])
      ensures a != 0 ==> FirstMatch(byHash, h, key, heap.buckets, chains[ReadDir(h)].at, i, s)
      ensures a == 0 ==> NoMatch(byHash, h, key, heap.buckets, chains, ReadDir(h))
      ensures a == 0 && nf != 0 ==> SlotIs(heap.buckets, chains, ReadDir(h), ni, nf, nfs) && heap.buckets[nf].slots[nfs].hash.None?
      ensures a == 0 && nf == 0 ==> !SomeEmpty(heap.buckets, chains, ReadDir(h))
    {
      hide TableOk;
      ghost var f := ReadDir(h);
      ghost var ch := ChainAt(directory, dirBits, heap.buckets, chains, items, h % |directory|);
      a, i, s := ReadDir(h), 0, 0;
      nf, nfs, ni := 0, 0, 0;
      while a != 0
        invariant i <= |ch| && a == At(ch, i)
        invariant nf == 0 ==> forall k: nat, t: nat | k < i :: !EmptyAt(heap.buckets, ch, k, t)
        invariant nf != 0 ==> SlotIs(heap.buckets, chains, f, ni, nf, nfs) && heap.buckets[nf].slots[nfs].hash.None?
        invariant forall k: nat, t: nat | k < i && t < CAPACITY :: !MatchAt(byHash, h, key, heap.buckets, ch, k, t)
        decreases |ch| - i
      {
        InChain(heap.buckets, ch, i);
        s := 0;
        while s < CAPACITY
          invariant s <= CAPACITY
          invariant nf == 0 ==> forall k: nat, t: nat | k < i || (k == i && t < s) :: !EmptyAt(heap.buckets, ch, k, t)
          invariant nf != 0 ==> SlotIs(heap.buckets, chains, f, ni, nf, nfs) && heap.buckets[nf].slots[nfs].hash.None?
          invariant forall t: nat | t < s :: !MatchAt(byHash, h, key, heap.buckets, ch, i, t)
        {
          var x := heap.buckets[a].slots[s];
          if Matches(byHash, h, key, x) {
            return;
          } else if x.hash.None? && nf == 0 {
            nf, nfs, ni := a, s, i;
          }
          s := s + 1;
        }
        a := heap.buckets[a].overflow;
        i := i + 1;
      }
    }

    /** Whether a scan for this key stops at an unused slot, and what it finds there. */
    ghost predicate Mistakes(byHash: bool, h: nat, key: Obj)
      reads this, heap
      requires |directory| > 0
    {
      HitsUnused(byHash, h, key, heap.buckets, chains, ReadDir(h))
    }

    ghost function LeftIn(byHash: bool, h: nat, key: Obj): Obj
      reads this, heap
      requires |directory| > 0
    {
      Leftover(byHash, h, key, heap.buckets, chains, ReadDir(h))
    }

    /** The value of the key, unless the scan is mistaken: then what is left in the unused slot. */
    method Lookup(byHash: bool, h: nat, key: Obj) returns (r: Obj)
      requires Core()
      ensures forall m: map<Obj, Entry> | Represents(items, m) && HashedAs(m, key, h) && !Mistakes(byHash, h, key) ::
        r == if key in m then m[key].value else False
      ensures Mistakes(byHash, h, key) ==> r == LeftIn(byHash, h, key)
    {
      hide TableOk, HitsUnused, Leftover, FirstMatch, NoMatch;
      var a, s, nf, nfs;
      ghost var i, ni;
      a, s, nf, nfs, i, ni := Scan(byHash, h, key);
      if a != 0 {
        Matched(byHash, h, key, i, a, s);
        return heap.buckets[a].slots[s].value;
      }
      Unmatched(byHash, h, key);
      r := False;
    }

    /** What the scan's match, or the lack of one, says. */
    lemma Matched(byHash: bool, h: nat, key: Obj, i: nat, a: nat, s: nat)
      requires Core() && SlotIs(heap.buckets, chains, ReadDir(h), i, a, s) && Matches(byHash, h, key, heap.buckets[a].slots[s])
      requires FirstMatch(byHash, h, key, heap.buckets, chains[ReadDir(h)].at, i, s)
      ensures Distinct(chains[ReadDir(h)].at)
      ensures Mistakes(byHash, h, key) <==> heap.buckets[a].slots[s].hash.None?
      ensures Mistakes(byHash, h, key) ==> LeftIn(byHash, h, key) == heap.buckets[a].slots[s].value && !byHash && key == False
      ensures forall m: map<Obj, Entry> | Represents(items, m) && heap.buckets[a].slots[s].hash.Some? ::
        key in m && m[key] == Entry(heap.buckets[a].slots[s].hash.value, key, heap.buckets[a].slots[s].value)
    {
      hide DirOk, Holds, ChainsOk, HitsUnused, Leftover, FirstMatch;
      ChainDistinct(heap.buckets, chains, ReadDir(h));
      Stopped(byHash, h, key, heap.buckets, chains, ReadDir(h), i, s);
      if Mistakes(byHash, h, key) {
        OnlyFalseHitsUnused(byHash, h, key, heap.buckets, chains, ReadDir(h));
      }
      MatchIsEntry(directory, dirBits, heap.buckets, chains, items, byHash, h, key, i, a, s);
    }

    lemma Unmatched(byHash: bool, h: nat, key: Obj)
      requires Core() && NoMatch(byHash, h, key, heap.buckets, chains, ReadDir(h))
      ensures !Mistakes(byHash, h, key)
      ensures forall m: map<Obj, Entry> | Represents(items, m) && HashedAs(m, key, h) :: key !in m
    {
      hide DirOk, Holds, ChainsOk, HitsUnused, NoMatch;
      NotStopped(byHash, h, key, heap.buckets, chains, ReadDir(h));
      NoMatchNoEntry(directory, dirBits, heap.buckets, chains, items, byHash, h, key);
    }

    /** Exactly when a probe answers yes, the confusion of #f with an empty slot included. */
    method Probe(byHash: bool, h: nat, key: Obj) returns (r: bool)
      requires Core()
      ensures forall m: map<Obj, Entry> | Represents(items, m) && HashedAs(m, key, h) ::
        r <==> key in m || Mistakes(byHash, h, key)
    {
      hide TableOk, HitsUnused, Leftover, FirstMatch, NoMatch;
      var a, s, nf, nfs;
      ghost var i, ni;
      a, s, nf, nfs, i, ni := Scan(byHash, h, key);
      if a != 0 {
        Matched(byHash, h, key, i, a, s);
      } else {
        Unmatched(byHash, h, key);
      }
      r := a != 0;
    }

    /** The key leaves the map; or, if the scan is mistaken, nothing leaves the table but one is
        taken off the count, which from then on is wrong. */
    method Remove(byHash: bool, h: nat, key: Obj) returns (r: Obj)
      requires Core()
      modifies this`count, this`items, heap
      ensures Core() && Untouched(old(heap.buckets), heap.buckets, chains)
      ensures Drift() == old(Drift()) - if old(Mistakes(byHash, h, key)) then 1 else 0
      ensures forall m: map<Obj, Entry> | Represents(old(items), m) && HashedAs(m, key, h) && !old(Mistakes(byHash, h, key)) ::
        Represents(items, m - {key}) && r == if key in m then m[key].value else False
      ensures old(Mistakes(byHash, h, key)) ==> items == old(items) && count == old(count) - 1 && r == old(LeftIn(byHash, h, key))
    {
      hide TableOk, HitsUnused, Leftover, FirstMatch, NoMatch;
      var a, s, nf, nfs;
      ghost var i, ni;
      a, s, nf, nfs, i, ni := Scan(byHash, h, key);
      if a != 0 {
        Matched(byHash, h, key, i, a, s);
        var x := heap.buckets[a].slots[s];
        ghost var items2 := items - One(x);
        SlotInTable(directory, dirBits, heap.buckets, chains, items, h, i, a, s);
        WriteKeeps(directory, dirBits, heap.buckets, chains, items, ReadDir(h), i, s, EMPTY, items2);
        RemovedFrom(items, key, x);
        heap.buckets := WriteSlot(heap.buckets, a, s, EMPTY);
        items := items2;
        count := count - 1;
        return x.value;
      }
      Unmatched(byHash, h, key);
      NothingRemoved(items, key);
      r := False;
    }

    /** hashtable_install: the entry is added, whatever else the table holds. */
    method Install(h: nat, key: Obj, value: Obj)
      requires Core()
      modifies this, heap
      ensures Core() && Drift() == old(Drift()) && items == old(items) + multiset{Entry(h, key, value)}
      ensures Untouched(old(heap.buckets), heap.buckets, old(chains)) && OwnOrNew(old(heap.buckets), old(chains), chains)
    {
      hide TableOk, Untouched, OwnOrNew;
      count := count + 1;
      var a, s;
      ghost var i;
      a, s, i := FirstFree(h);
      SameOwn(heap.buckets, chains);
      if a != 0 {
        FillSlot(h, a, s, i, key, value);
        return;
      }
      Split(ReadDir(h), h, key, value);
    }

    /** Writing an entry into an empty slot of the chain its hash leads to. */
    method FillSlot(h: nat, a: nat, s: nat, ghost i: nat, key: Obj, value: Obj)
      requires Core() && SlotIs(heap.buckets, chains, ReadDir(h), i, a, s) && heap.buckets[a].slots[s].hash.None?
      modifies this`items, heap`buckets
      ensures Core() && items == old(items) + multiset{Entry(h, key, value)}
      ensures Untouched(old(heap.buckets), heap.buckets, chains)
    {
      hide TableOk;
      var x := Slot(Some(h), key, value);
      ghost var items2 := items + One(x);
      WriteKeeps(directory, dirBits, heap.buckets, chains, items, ReadDir(h), i, s, x, items2);
      heap.buckets := WriteSlot(heap.buckets, a, s, x);
      items := items2;
    }

    /** The insertion of the special-purpose tables: a finite map is updated at the key, and the
        value that was there is returned.  If the scan is mistaken no entry is added: the value is
        left in the unused slot, where the next scan for the key finds it. */
    method Insert(byHash: bool, h: nat, key: Obj, value: Obj) returns (prev: Obj)
      requires Core()
      modifies this, heap
      ensures Core() && Drift() == old(Drift())
      ensures Untouched(old(heap.buckets), heap.buckets, old(chains)) && OwnOrNew(old(heap.buckets), old(chains), chains)
      ensures forall m: map<Obj, Entry> | Represents(old(items), m) && HashedAs(m, key, h) && !old(Mistakes(byHash, h, key)) ::
        Represents(items, m[key := Entry(h, key, value)]) && prev == if key in m then m[key].value else False
      ensures old(Mistakes(byHash, h, key)) ==>
        (items == old(items) && count == old(count) && prev == old(LeftIn(byHash, h, key))
         && Mistakes(byHash, h, key) && LeftIn(byHash, h, key) == value)
    {
      hide TableOk, OwnOrNew, Untouched, HitsUnused, Leftover, FirstMatch, NoMatch;
      var a, s, nf, nfs;
      ghost var i, ni;
      a, s, nf, nfs, i, ni := Scan(byHash, h, key);
      SameOwn(heap.buckets, chains);
      if a != 0 {
        Matched(byHash, h, key, i, a, s);
        SlotInTable(directory, dirBits, heap.buckets, chains, items, h, i, a, s);
        prev := heap.buckets[a].slots[s].value;
        ghost var bk := heap.buckets;
        Overwrite(h, a, s, i, key, value);
        StillFirst(byHash, h, key, value, bk, chains[ReadDir(h)].at, i, s);
        Matched(byHash, h, key, i, a, s);
        return;
      }
      Unmatched(byHash, h, key);
      AddedTo(items, h, key, value);
      count := count + 1;
      if nf != 0 {
        FillSlot(h, nf, nfs, ni, key, value);
      } else {
        Split(ReadDir(h), h, key, value);
      }
      prev := False;
    }

    /** A matching slot gets the new key and value and keeps its hash. */
    method Overwrite(h: nat, a: nat, s: nat, ghost i: nat, key: Obj, value: Obj)
      requires Core() && SlotIs(heap.buckets, chains, ReadDir(h), i, a, s) && One(heap.buckets[a].slots[s]) <= items
      requires heap.buckets[a].slots[s].key == key
      requires heap.buckets[a].slots[s].hash.None? ==> key == False
      modifies this`items, heap`buckets
      ensures Core() && Drift() == old(Drift()) && Untouched(old(heap.buckets), heap.buckets, chains)
      ensures heap.buckets == WriteSlot(old(heap.buckets), a, s, old(heap.buckets[a].slots[s]).(key := key, value := value))
      ensures old(heap.buckets[a].slots[s].hash).None? ==> items == old(items)
      ensures forall m: map<Obj, Entry> | Represents(old(items), m) && old(heap.buckets[a].slots[s].hash) == Some(h) ::
        Represents(items, m[key := Entry(h, key, value)])
    {
      hide TableOk, Represents;
      var was := heap.buckets[a].slots[s];
      var x := was.(key := key, value := value);
      ghost var items2 := (items - One(was)) + One(x);
      if was.hash.Some? {
        SameHashReaches(directory, dirBits, heap.buckets, chains, items, h, i, a, s);
      }
      WriteKeeps(directory, dirBits, heap.buckets, chains, items, ReadDir(h), i, s, x, items2);
      Replaced(items, was, x);
      heap.buckets := WriteSlot(heap.buckets, a, s, x);
      items := items2;
    }

    /** split_bucket: the entry joins a chain without an empty slot. */
    method Split(bucket: nat, h: nat, key: Obj, value: Obj)
      requires Core() && bucket == ReadDir(h) && !SomeEmpty(heap.buckets, chains, bucket)
      modifies this`directory, this`dirBits, this`chains, this`items, heap
      ensures Core() && items == old(items) + multiset{Entry(h, key, value)}
      ensures Untouched(old(heap.buckets), heap.buckets, old(chains)) && OwnOrNew(old(heap.buckets), old(chains), chains)
    {
      hide TableOk, Untouched, OwnOrNew, AddChain, Part, Same, Apart2, BitIs, ChainItems, Redirected, FullChain, SomeEmpty, Pow2;
      if bucket == 0 {
        AddBucket(h, key, value);
        return;
      }
      ChainHere(directory, dirBits, heap.buckets, chains, items, h % |directory|);
      ghost var at := chains[bucket].at;
      var bits := heap.buckets[bucket].bits;
      if dirBits == bits {
        Grow(h);
      }
      ghost var bk0 := heap.buckets;
      DirLength(directory, dirBits, bk0, chains, items);
      var lo, hi;
      ghost var loAt, hiAt;
      lo, hi, loAt, hiAt := Distribute(bucket, at, bits, h, key, value);
      var n := Pow2(dirBits - (bits + 1));
      DirSize(bits, dirBits);
      var dir2 := Redirect(directory, lo, hi, h % Pow2(bits), Pow2(bits), n);
      RedirectedSize(directory, dir2, lo, hi, h % Pow2(bits), Pow2(bits));
      ghost var chains2 := AddChain(AddChain(chains - {bucket}, lo, bits + 1, loAt), hi, bits + 1, hiAt);
      SplitKeeps(directory, dirBits, bk0, chains, items, bucket, Entry(h, key, value), heap.buckets, lo, hi, loAt, hiAt, dir2);
      SplitOwn(bk0, heap.buckets, chains, bucket, lo, hi, bits + 1, loAt, hiAt);
      items := items + multiset{Entry(h, key, value)};
      chains := chains2;
      directory := dir2;
    }

    /** A directory slot without a chain gets a bucket of its own. */
    method AddBucket(h: nat, key: Obj, value: Obj)
      requires Core() && ReadDir(h) == 0
      modifies this`directory, this`chains, this`items, heap
      ensures Core() && items == old(items) + multiset{Entry(h, key, value)}
      ensures Untouched(old(heap.buckets), heap.buckets, old(chains)) && OwnOrNew(old(heap.buckets), old(chains), chains)
    {
      hide TableOk, Untouched, OwnOrNew;
      ghost var bk0 := heap.buckets;
      var a := heap.MakeBucket(dirBits);
      var j := h % |directory|;
      NewBucketKeeps(directory, dirBits, bk0, chains, items, a, j);
      directory := directory[j := a];
      chains := chains[a := Chain(dirBits, [a])];
      assert heap.buckets[a] == FreshBucket(dirBits);
      FillSlot(h, a, 0, 0, key, value);
      NewBucketOwn(bk0, heap.buckets, old(chains), a, dirBits);
    }

    /** Doubling the directory; every bucket gets twice as many slots. */
    method Grow(h: nat)
      requires Core()
      modifies this`directory, this`dirBits
      ensures Core() && dirBits == old(dirBits) + 1
      ensures ReadDir(h) == old(ReadDir(h))
    {
      hide TableOk;
      ghost var n := |directory|;
      var oldSize := |directory|;
      var dir2: seq<nat> := [];
      for i := 0 to oldSize
        invariant dir2 == directory[..i]
      {
        dir2 := dir2 + [directory[i]];
      }
      for i := 0 to oldSize
        invariant dir2 == directory + directory[..i]
      {
        dir2 := dir2 + [directory[i]];
      }
      assert directory[..oldSize] == directory;
      GrowKeeps(directory, dirBits, heap.buckets, chains, items);
      ModDouble(h, |directory|);
      directory, dirBits := dir2, dirBits + 1;
    }

    /** One entry goes to the half its bit selects. */
    method PutHalf(los: BucketChain, his: BucketChain, ghost loAt: seq<nat>, ghost hiAt: seq<nat>, bits: nat, e: Entry,
                   ghost bk0: Buckets, ghost m: multiset<Entry>)
        returns (los2: BucketChain, his2: BucketChain, ghost loAt2: seq<nat>, ghost hiAt2: seq<nat>)
      requires heap.Ok() && Halves(heap.buckets, bk0, bits, los, his, loAt, hiAt, m)
      modifies heap
      ensures heap.Ok() && Halves(heap.buckets, bk0, bits, los2, his2, loAt2, hiAt2, m + multiset{e})
    {
      hide Build, BitIs, ChainItems;
      BuildIn(heap.buckets, bk0, los, bits + 1, loAt);
      BuildIn(heap.buckets, bk0, his, bits + 1, hiAt);
      PutSum(ChainItems(heap.buckets, loAt), ChainItems(heap.buckets, hiAt), e);
      los2, his2, loAt2, hiAt2 := los, his, loAt, hiAt;
      ghost var bk := heap.buckets;
      if e.hash / Pow2(bits) % 2 != 0 {
        his2, hiAt2 := heap.ChainInsert(his, hiAt, bits + 1, e, bk0);
        OtherHalf(bk, heap.buckets, bk0, los, bits + 1, loAt, hiAt);
        MoreBits(ChainItems(bk, hiAt), ChainItems(heap.buckets, hiAt2), bits, 1, e);
      } else {
        los2, loAt2 := heap.ChainInsert(los, loAt, bits + 1, e, bk0);
        OtherHalf(bk, heap.buckets, bk0, his, bits + 1, hiAt, loAt);
        MoreBits(ChainItems(bk, loAt), ChainItems(heap.buckets, loAt2), bits, 0, e);
      }
    }

    /** The middle of split_bucket: the new entry and those of the old chain go to one of two new
        chains, told apart by the next hash bit. */
    method Distribute(bucket: nat, ghost at: seq<nat>, bits: nat, h: nat, key: Obj, value: Obj)
        returns (lo: nat, hi: nat, ghost loAt: seq<nat>, ghost hiAt: seq<nat>)
      requires heap.Ok() && FullChain(heap.buckets, bucket, bits, at)
      modifies heap
      ensures heap.Ok() && Same(old(heap.buckets), heap.buckets)
      ensures Part(heap.buckets, old(heap.buckets), lo, bits + 1, loAt) && Part(heap.buckets, old(heap.buckets), hi, bits + 1, hiAt)
      ensures Apart2(loAt, hiAt)
      ensures ChainItems(heap.buckets, loAt) + ChainItems(heap.buckets, hiAt) == ChainItems(old(heap.buckets), at) + multiset{Entry(h, key, value)}
      ensures BitIs(ChainItems(heap.buckets, loAt), bits, 0) && BitIs(ChainItems(heap.buckets, hiAt), bits, 1)
    {
      hide ChainOk, Build, Items, BitIs, Halves, FullChain, Part;
      ghost var bk0 := heap.buckets;
      var los, his := BucketChain(CAPACITY, 0, 0), BucketChain(CAPACITY, 0, 0);
      loAt, hiAt := [], [];
      StartHalves(bk0, bits);
      los, his, loAt, hiAt := PutHalf(los, his, loAt, hiAt, bits, Entry(h, key, value), bk0, multiset{});
      var b := bucket;
      ghost var i := 0;
      FromNothing(bk0, at, multiset{Entry(h, key, value)});
      FullAt(bk0, bucket, bits, at, 0);
      while b != 0
        invariant i <= |at| && b == At(at, i)
        invariant heap.Ok() && Halves(heap.buckets, bk0, bits, los, his, loAt, hiAt, ChainItems(bk0, at[..i]) + multiset{Entry(h, key, value)})
        decreases |at| - i
      {
        FullAt(bk0, bucket, bits, at, i);
        ghost var sofar := ChainItems(bk0, at[..i]) + multiset{Entry(h, key, value)};
        var s := 0;
        ItemsStart(bk0[b].slots, sofar);
        while s < CAPACITY
          invariant s <= CAPACITY && heap.Ok()
          invariant Halves(heap.buckets, bk0, bits, los, his, loAt, hiAt, sofar + Items(bk0[b].slots[..s]))
        {
          HalvesFrame(heap.buckets, bk0, bits, los, his, loAt, hiAt, sofar + Items(bk0[b].slots[..s]));
          var x := heap.buckets[b].slots[s];
          ItemsSum(bk0[b].slots, s, sofar);
          los, his, loAt, hiAt := PutHalf(los, his, loAt, hiAt, bits, Entry(x.hash.value, x.key, x.value), bk0, sofar + Items(bk0[b].slots[..s]));
          s := s + 1;
        }
        assert bk0[b].slots[..CAPACITY] == bk0[b].slots;
        ChainSum(bk0, at, i, multiset{Entry(h, key, value)});
        HalvesFrame(heap.buckets, bk0, bits, los, his, loAt, hiAt, sofar + Items(bk0[b].slots));
        b := heap.buckets[b].overflow;
        i := i + 1;
      }
      assert at[..i] == at;
      HalvesDone(heap.buckets, bk0, bits, los, his, loAt, hiAt, ChainItems(bk0, at) + multiset{Entry(h, key, value)});
      lo, hi := los.first, his.first;
    }

    /** hashtable_foreach: what it passes to fn, in order; every entry once, although directory
        slots share buckets. */
    method Foreach() returns (visits: seq<Entry>)
      requires Core()
      ensures multiset(visits) == items
    {
      hide TableOk, VisitedBelow;
      visits := [];
      NoneVisited(directory, chains, items);
      for j := 0 to |directory|
        invariant VisitedBelow(directory, chains, items, multiset(visits), j)
      {
        var bucket := directory[j];
        ghost var before := multiset(visits);
        ghost var ch := ChainAt(directory, dirBits, heap.buckets, chains, items, j);
        if bucket != 0 {
          ChainHere(directory, dirBits, heap.buckets, chains, items, j);
          var n := heap.buckets[bucket].bits;
          if j < Pow2(n) {
            visits := VisitChain(bucket, ch, visits);
          }
        }
        VisitStep(directory, dirBits, heap.buckets, chains, items, before, multiset(visits), j);
      }
      AllVisited(directory, dirBits, heap.buckets, chains, items, multiset(visits));
    }

    /** The inner loops of hashtable_foreach: the used slots of one chain. */
    method VisitChain(bucket: nat, ghost ch: seq<nat>, visits: seq<Entry>) returns (v: seq<Entry>)
      requires At(ch, 0) == bucket && (forall k: nat | k < |ch| :: ch[k] != 0) && forall k: nat | k < |ch| :: InChain2(heap.buckets, ch, k)
      ensures multiset(v) == multiset(visits) + ChainItems(heap.buckets, ch)
    {
      hide Items, ChainItems;
      v := visits;
      ghost var i := 0;
      var b := bucket;
      NoChainItems(heap.buckets, ch);
      while b != 0
        invariant i <= |ch| && b == At(ch, i)
        invariant multiset(v) == multiset(visits) + ChainItems(heap.buckets, ch[..i])
        decreases |ch| - i
      {
        InChain(heap.buckets, ch, i);
        ghost var before := multiset(v);
        ItemsStart(heap.buckets[b].slots, before);
        for s := 0 to CAPACITY
          invariant multiset(v) == before + Items(heap.buckets[b].slots[..s])
        {
          var x := heap.buckets[b].slots[s];
          ItemsNext(heap.buckets[b].slots, s);
          if x.hash.Some? {
            v := v + [Entry(x.hash.value, x.key, x.value)];
          }
        }
        assert heap.buckets[b].slots[..CAPACITY] == heap.buckets[b].slots;
        ChainNext(heap.buckets, ch, i);
        b := heap.buckets[b].overflow;
        i := i + 1;
      }
      assert ch[..i] == ch;
    }

    /** hashtable_clear: all chains are dropped, the directory keeps its size; but a count of 0,
        right or wrong, is taken to mean that there is nothing to drop. */
    method Clear()
      requires Core()
      modifies this
      ensures Core() && dirBits == old(dirBits) && count == 0
      ensures old(count) == 0 ==> items == old(items) && directory == old(directory) && chains == old(chains)
      ensures old(count) != 0 ==> items == multiset{}
      ensures Valid() <==> old(count) != 0 || old(items) == multiset{}
    {
      hide TableOk;
      if count == 0 {
        return;
      }
      DirLength(directory, dirBits, heap.buckets, chains, items);
      for j := 0 to |directory|
        invariant |directory| == old(|directory|) && dirBits == old(dirBits)
        invariant forall i: nat | i < j :: directory[i] == 0
      {
        directory := directory[j := 0];
      }
      chains, items, count := map[], multiset{}, 0;
      EmptyTable(directory, dirBits, heap.buckets);
    }

    /** copy_bucket_chain: a clone of every bucket of the chain, linked in the same order. */
    method CopyChain(bucket: nat, bits: nat, ghost ch: seq<nat>) returns (c: nat, ghost ch2: seq<nat>)
      requires heap.Ok() && ChainOk(heap.buckets, bucket, bits, ch)
      modifies heap
      ensures heap.Ok() && Same(old(heap.buckets), heap.buckets) && c != 0
      ensures CopyOf(old(heap.buckets), heap.buckets, ch, c, bits, ch2)
      decreases |ch|
    {
      hide ChainOk;
      ghost var bk0 := heap.buckets;
      FirstBucket(bk0, bucket, bits, ch);
      var b := heap.buckets[bucket];
      c := heap.New(b);
      ghost var bk1 := heap.buckets;
      ch2 := [c];
      var next := b.overflow;
      if next != 0 {
        RestOfChain(bk0, bk1, bucket, bits, ch);
        var n;
        ghost var rest;
        n, rest := CopyChain(next, bits, ch[1..]);
        ghost var bk2 := heap.buckets;
        AllIn(bk0, bucket, bits, ch);
        heap.buckets := heap.buckets[c := heap.buckets[c].(overflow := n)];
        ch2 := [c] + rest;
        LinkCopy(bk0, bk1, bk2, heap.buckets, ch, c, bits, n, rest);
      } else {
        OneCopied(bk0, bk1, ch, c, bits);
      }
    }

    /** hashtable_copy: the same entries under the same sharing pattern, in buckets of its own. */
    method Copy() returns (t: HashTable)
      requires Core()
      modifies heap
      ensures fresh(t) && t.heap == heap && t.Core() && Core() && t.count == count
      ensures t.items == items && t.dirBits == dirBits && SameSharing(directory, t.directory)
      ensures Same(old(heap.buckets), heap.buckets) && forall a | InChains(t.chains, a) :: a !in old(heap.buckets)
    {
      hide TableOk, Copied, CopyOf, Same, ChainOk, InChains;
      ghost var bk0 := heap.buckets;
      var dst: seq<nat> := [];
      ghost var cp: map<nat, nat>, chains2: map<nat, Chain> := map[], map[];
      NoneCopied(bk0, directory, chains);
      for j := 0 to |directory|
        invariant heap.Ok() && Copied(bk0, heap.buckets, directory, chains, dst, cp, chains2, j)
      {
        CopiedSame(bk0, heap.buckets, directory, chains, dst, cp, chains2, j);
        var bucket := directory[j];
        if bucket == 0 {
          CopyNone(bk0, heap.buckets, directory, chains, dst, cp, chains2, j);
          dst := dst + [0];
        } else {
          ChainHere(directory, dirBits, bk0, chains, items, j);
          OriginalChain(directory, dirBits, bk0, heap.buckets, chains, items, j);
          var n := heap.buckets[bucket].bits;
          if j >= Pow2(n) {
            SharedCopy(directory, dirBits, bk0, heap.buckets, chains, items, dst, cp, chains2, j);
            dst := dst + [dst[j % Pow2(n)]];
          } else {
            ghost var bk1 := heap.buckets;
            ChainBuckets(directory, dirBits, bk0, chains, items, bucket);
            FirstOccurrence(directory, dirBits, bk0, bk1, chains, items, dst, cp, chains2, j);
            var c;
            ghost var at2;
            c, at2 := CopyChain(bucket, n, chains[bucket].at);
            NewCopy(bk0, bk1, heap.buckets, directory, chains, dst, cp, chains2, j, c, n, at2);
            dst, cp := dst + [c], cp[bucket := c];
            chains2 := chains2[c := Chain(n, at2)];
          }
        }
      }
      CopyDone(directory, dirBits, bk0, heap.buckets, chains, items, dst, cp, chains2);
      t := new HashTable.Clone(heap, dst, dirBits, count, chains2, items);
    }
  }

  /** The chain at a directory index, empty when there is none. */
  ghost function ChainAt(dir: seq<nat>, dirBits: nat, bk: Buckets, chains: map<nat, Chain>, items: multiset<Entry>, i: nat): (ch: seq<nat>)
    requires TableOk(dir, dirBits, bk, chains, items) && i < |dir|
    ensures dir[i] != 0 ==> dir[i] in chains && ch == chains[dir[i]].at
    ensures dir[i] == 0 ==> ch == [] && dir[i] !in chains
    ensures At(ch, 0) == dir[i] && (forall k: nat | k < |ch| :: ch[k] != 0) && forall k: nat | k < |ch| :: InChain2(bk, ch, k)
  {
    if dir[i] != 0 then
      assert SharedOk(dir, dirBits, bk, chains, i);
      chains[dir[i]].at
    else []
  }

  /** Position k of a chain holds a bucket and leads to the next position. */
  ghost predicate InChain2(bk: Buckets, ch: seq<nat>, k: nat)
    requires k < |ch|
  {
    && ch[k] != 0 && ch[k] in bk && |bk[ch[k]].slots| == CAPACITY && bk[ch[k]].overflow == At(ch, k + 1)
    && forall s: nat | s < CAPACITY :: bk[ch[k]].slots[s].hash.None? ==> bk[ch[k]].slots[s].key == False
  }

  lemma InChain(bk: Buckets, ch: seq<nat>, k: nat)
    requires At(ch, k) != 0 && (forall i: nat | i < |ch| :: InChain2(bk, ch, i))
    ensures k < |ch| && ch[k] in bk && |bk[ch[k]].slots| == CAPACITY && bk[ch[k]].overflow == At(ch, k + 1)
  {
    assert InChain2(bk, ch, k);
  }

  ghost predicate SlotIs(bk: Buckets, chains: map<nat, Chain>, f: nat, i: nat, a: nat, s: nat) {
    f in chains && i < |chains[f].at| && chains[f].at[i] == a && a in bk && s < |bk[a].slots| == CAPACITY
  }

  ghost predicate MatchAt(byHash: bool, h: nat, key: Obj, bk: Buckets, ch: seq<nat>, i: nat, s: nat) {
    i < |ch| && ch[i] in bk && s < |bk[ch[i]].slots| && Matches(byHash, h, key, bk[ch[i]].slots[s])
  }

  ghost predicate NoMatch(byHash: bool, h: nat, key: Obj, bk: Buckets, chains: map<nat, Chain>, f: nat) {
    f in chains ==> forall i: nat, s: nat :: s < CAPACITY ==> !MatchAt(byHash, h, key, bk, chains[f].at, i, s)
  }

  /** A used slot of a chain is an entry of the table. */
  lemma SlotInTable(dir: seq<nat>, dirBits: nat, bk: Buckets, chains: map<nat, Chain>, items: multiset<Entry>,
                    h: nat, i: nat, a: nat, s: nat)
    requires TableOk(dir, dirBits, bk, chains, items) && |dir| > 0 && SlotIs(bk, chains, dir[h % |dir|], i, a, s)
    ensures One(bk[a].slots[s]) <= items
  {
    hide DirOk, ChainsOk;
    var f := dir[h % |dir|];
    ChainHas(bk, chains[f].at, i);
    ItemsHas(bk[a].slots, s);
    var x := bk[a].slots[s];
    if x.hash.Some? {
      var e := Entry(x.hash.value, x.key, x.value);
      Reaches(dir, dirBits, bk, chains, f, e);
      assert items[e] == Found(dir, bk, chains, e);
    }
  }

  /** What a matching slot says about the map the table stands for. */
  lemma MatchIsEntry(dir: seq<nat>, dirBits: nat, bk: Buckets, chains: map<nat, Chain>, items: multiset<Entry>,
                     byHash: bool, h: nat, key: Obj, i: nat, a: nat, s: nat)
    requires TableOk(dir, dirBits, bk, chains, items) && |dir| > 0 && SlotIs(bk, chains, dir[h % |dir|], i, a, s)
    requires Matches(byHash, h, key, bk[a].slots[s])
    ensures forall m: map<Obj, Entry> | Represents(items, m) && bk[a].slots[s].hash.Some? ::
      key in m && m[key] == Entry(bk[a].slots[s].hash.value, key, bk[a].slots[s].value)
  {
    SlotInTable(dir, dirBits, bk, chains, items, h, i, a, s);
    var f, x := dir[h % |dir|], bk[a].slots[s];
    if x.hash.Some? {
      var e := Entry(x.hash.value, x.key, x.value);
      assert e in One(x) && items[e] > 0;
    }
  }

  lemma NoMatchNoEntry(dir: seq<nat>, dirBits: nat, bk: Buckets, chains: map<nat, Chain>, items: multiset<Entry>,
                       byHash: bool, h: nat, key: Obj)
    requires TableOk(dir, dirBits, bk, chains, items) && |dir| > 0 && NoMatch(byHash, h, key, bk, chains, dir[h % |dir|])
    ensures forall m: map<Obj, Entry> | Represents(items, m) && HashedAs(m, key, h) :: key !in m
  {
    hide TableOk, NoMatch, Represents;
    forall m: map<Obj, Entry> | Represents(items, m) && HashedAs(m, key, h) ensures key !in m {
      if key in m {
        InMapIsItem(items, m, key);
        EntryMatches(dir, dirBits, bk, chains, items, byHash, m[key]);
        assert false;
      }
    }
  }

  lemma InMapIsItem(items: multiset<Entry>, m: map<Obj, Entry>, key: Obj)
    requires Represents(items, m) && key in m
    ensures m[key] in items && m[key].key == key
  {
    assert items[m[key]] == 1;
  }

  lemma EntryMatches(dir: seq<nat>, dirBits: nat, bk: Buckets, chains: map<nat, Chain>, items: multiset<Entry>,
                     byHash: bool, e: Entry)
    requires TableOk(dir, dirBits, bk, chains, items) && |dir| > 0 && e in items
    ensures !NoMatch(byHash, e.hash, e.key, bk, chains, dir[e.hash % |dir|])
  {
    hide DirOk, Items, ChainItems;
    var f := dir[e.hash % |dir|];
    assert items[e] == Found(dir, bk, chains, e);
    var i, s := WhereIs(bk, chains[f].at, e);
    SlotCount(bk, chains, f, i);
    assert MatchAt(byHash, e.hash, e.key, bk, chains[f].at, i, s);
  }

  lemma SlotCount(bk: Buckets, chains: map<nat, Chain>, f: nat, i: nat)
    requires ChainsOk(bk, chains) && f in chains && i < |chains[f].at|
    ensures chains[f].at[i] in bk && |bk[chains[f].at[i]].slots| == CAPACITY
  {
    assert ChainOk(bk, f, chains[f].bits, chains[f].at);
    assert BucketOk(bk[chains[f].at[i]], chains[f].bits);
  }

  /** The position of an entry in its chain. */
  lemma WhereIs(bk: Buckets, ch: seq<nat>, e: Entry) returns (i: nat, s: nat)
    requires e in ChainItems(bk, ch)
    ensures i < |ch| && ch[i] in bk && s < |bk[ch[i]].slots| && bk[ch[i]].slots[s] == SlotOf(e)
  {
    hide ChainItems, Items;
    ChainFrom(bk, ch, e);
    i :| i < |ch| && ch[i] in bk && e in Items(bk[ch[i]].slots);
    ItemsFrom(bk[ch[i]].slots, e);
    s :| 0 <= s < |bk[ch[i]].slots| && bk[ch[i]].slots[s] == SlotOf(e);
  }

  /** A new value does not move the place where a scan stops. */
  lemma StillFirst(byHash: bool, h: nat, key: Obj, value: Obj, bk: Buckets, ch: seq<nat>, i: nat, s: nat)
    requires FirstMatch(byHash, h, key, bk, ch, i, s) && Distinct(ch)
    ensures FirstMatch(byHash, h, key, WriteSlot(bk, ch[i], s, bk[ch[i]].slots[s].(key := key, value := value)), ch, i, s)
  {
    var bk2 := WriteSlot(bk, ch[i], s, bk[ch[i]].slots[s].(key := key, value := value));
    forall k: nat, t: nat | (k < i || (k == i && t < s)) && t < CAPACITY ensures !MatchAt(byHash, h, key, bk2, ch, k, t) {
      assert !MatchAt(byHash, h, key, bk, ch, k, t);
    }
  }

  lemma RemovedFrom(items: multiset<Entry>, key: Obj, x: Slot)
    requires One(x) <= items
    ensures |items - One(x)| == |items| - if x.hash.Some? then 1 else 0
    ensures forall m: map<Obj, Entry> | x.hash.Some? && x.key == key && Represents(items, m) :: Represents(items - One(x), m - {key})
  {
    forall m: map<Obj, Entry> | x.hash.Some? && x.key == key && Represents(items, m) ensures Represents(items - One(x), m - {key}) {
      var e := Entry(x.hash.value, x.key, x.value);
      assert e in One(x) && items[e] > 0;
    }
  }

  lemma NothingRemoved(items: multiset<Entry>, key: Obj)
    ensures forall m: map<Obj, Entry> | Represents(items, m) && key !in m :: Represents(items, m - {key})
  {
    forall m: map<Obj, Entry> | Represents(items, m) && key !in m ensures Represents(items, m - {key}) {
      assert m - {key} == m;
    }
  }

  /** struct bucket_chain: where the next entry goes. */
  datatype BucketChain = BucketChain(index: nat, last: nat, first: nat)

  /** A chain under construction, apart from the buckets there were: used slots, then empty ones. */
  ghost predicate Build(bk: Buckets, bk0: Buckets, c: BucketChain, bits: nat, at: seq<nat>) {
    && (forall a | a in at :: a !in bk0)
    && if at == [] then c == BucketChain(CAPACITY, 0, 0)
       else
         && ChainOk(bk, c.first, bits, at) && c.last == at[|at| - 1] && c.index <= CAPACITY
         && c.last in bk && |bk[c.last].slots| == CAPACITY
         && forall s: nat | c.index <= s < CAPACITY :: bk[c.last].slots[s] == EMPTY
  }

  lemma BuildIn(bk: Buckets, bk0: Buckets, c: BucketChain, bits: nat, at: seq<nat>)
    requires Build(bk, bk0, c, bits, at)
    ensures at != [] <==> c.last != 0
    ensures if at == [] then c.index == CAPACITY else c.index <= CAPACITY && c.last in at
    ensures at != [] ==> c.last in bk && c.last !in bk0 && |bk[c.last].slots| == CAPACITY
    ensures forall a | a in at :: a in bk && a != 0 && a !in bk0
  {
  }

  /** A fresh bucket at the end of a full chain. */
  lemma Extended(bk: Buckets, bk2: Buckets, bk0: Buckets, c: BucketChain, bits: nat, at: seq<nat>, last: nat)
    requires Build(bk, bk0, c, bits, at) && c.index >= CAPACITY && last != 0 && last !in bk && bk0.Keys <= bk.Keys
    requires var bk1 := bk[last := FreshBucket(bits)];
      bk2 == if at == [] then bk1 else bk1[c.last := bk1[c.last].(overflow := last)]
    ensures Build(bk2, bk0, BucketChain(0, last, if at == [] then last else c.first), bits, at + [last])
    ensures ChainItems(bk2, at + [last]) == ChainItems(bk, at)
  {
    BuildIn(bk, bk0, c, bits, at);
    ExtendedItems(bk, bk2, at, last);
    ExtendedChain(bk, bk2, c, bits, at, last);
    hide ChainOk, ChainItems;
  }

  lemma ExtendedItems(bk: Buckets, bk2: Buckets, at: seq<nat>, last: nat)
    requires (forall a | a in at :: a in bk && a in bk2 && bk2[a].slots == bk[a].slots)
    requires last in bk2 && (forall k: nat | k < |bk2[last].slots| :: bk2[last].slots[k] == EMPTY)
    ensures ChainItems(bk2, at + [last]) == ChainItems(bk, at)
  {
    ChainFrame(bk, bk2, at);
    NoItems(bk2[last].slots);
    assert (at + [last])[..|at|] == at;
  }

  lemma ExtendedChain(bk: Buckets, bk2: Buckets, c: BucketChain, bits: nat, at: seq<nat>, last: nat)
    requires if at == [] then true else ChainOk(bk, c.first, bits, at) && c.last == at[|at| - 1]
    requires last != 0 && last !in bk
    requires var bk1 := bk[last := FreshBucket(bits)];
      at != [] ==> bk2 == bk1[c.last := bk1[c.last].(overflow := last)]
    requires at == [] ==> bk2 == bk[last := FreshBucket(bits)]
    ensures ChainOk(bk2, if at == [] then last else c.first, bits, at + [last])
  {
    var at2 := at + [last];
    assert forall a | a in at :: a in bk && a != last;
    forall i: nat | i < |at2| ensures at2[i] != 0 && at2[i] in bk2 && BucketOk(bk2[at2[i]], bits) && bk2[at2[i]].overflow == At(at2, i + 1) {
      if i < |at| {
        assert BucketOk(bk[at[i]], bits) && bk[at[i]].overflow == At(at, i + 1);
        if i + 1 < |at| { assert at[i] != at[|at| - 1]; }
      }
    }
  }

  /** The next empty slot of the last bucket is written. */
  lemma Filled(bk: Buckets, bk0: Buckets, c: BucketChain, bits: nat, at: seq<nat>, e: Entry)
    requires Build(bk, bk0, c, bits, at) && at != [] && c.index < CAPACITY
    ensures c.last in bk && |bk[c.last].slots| == CAPACITY
    ensures var bk2 := WriteSlot(bk, c.last, c.index, SlotOf(e));
      && Build(bk2, bk0, c.(index := c.index + 1), bits, at)
      && ChainItems(bk2, at) == ChainItems(bk, at) + multiset{e}
  {
    AllIn(bk, c.first, bits, at);
    FilledItems(bk, at, c.last, c.index, e);
    WriteChain(bk, c.first, bits, at, c.last, c.index, SlotOf(e));
    hide ChainOk, ChainItems;
  }

  lemma FilledItems(bk: Buckets, at: seq<nat>, a: nat, s: nat, e: Entry)
    requires at != [] && Distinct(at) && (forall x | x in at :: x in bk) && at[|at| - 1] == a && s < |bk[a].slots|
    requires bk[a].slots[s] == EMPTY
    ensures ChainItems(WriteSlot(bk, a, s, SlotOf(e)), at) == ChainItems(bk, at) + multiset{e}
  {
    ChainUpdate(bk, at, |at| - 1, s, SlotOf(e));
    hide ChainItems;
  }

  ghost predicate BitIs(m: multiset<Entry>, bits: nat, bit: nat) {
    forall e: Entry | e in m :: Bit(e.hash, bits) == bit
  }

  ghost predicate Same(bk0: Buckets, bk: Buckets) {
    forall a | a in bk0 :: a in bk && bk[a] == bk0[a]
  }

  ghost predicate Apart2(a: seq<nat>, b: seq<nat>) {
    forall x | x in a :: x !in b
  }

  /** The state between two steps of a split: both halves, holding m together. */
  ghost predicate Halves(bk: Buckets, bk0: Buckets, bits: nat, los: BucketChain, his: BucketChain,
                         loAt: seq<nat>, hiAt: seq<nat>, m: multiset<Entry>) {
    && Same(bk0, bk) && Apart2(loAt, hiAt)
    && Build(bk, bk0, los, bits + 1, loAt) && Build(bk, bk0, his, bits + 1, hiAt)
    && ChainItems(bk, loAt) + ChainItems(bk, hiAt) == m
    && BitIs(ChainItems(bk, loAt), bits, 0) && BitIs(ChainItems(bk, hiAt), bits, 1)
  }

  lemma PutSum(a: multiset<Entry>, b: multiset<Entry>, e: Entry)
    ensures (a + multiset{e}) + b == (a + b) + multiset{e} && a + (b + multiset{e}) == (a + b) + multiset{e}
  {
  }

  lemma FromNothing(bk: Buckets, ch: seq<nat>, m: multiset<Entry>)
    ensures ChainItems(bk, ch[..0]) + m == m == multiset{} + m
  {
  }

  lemma ItemsStart(s: seq<Slot>, m: multiset<Entry>)
    ensures m + Items(s[..0]) == m
  {
  }

  lemma ItemsSum(s: seq<Slot>, k: nat, m: multiset<Entry>)
    requires k < |s| && s[k].hash.Some?
    ensures m + Items(s[..k + 1]) == (m + Items(s[..k])) + multiset{Entry(s[k].hash.value, s[k].key, s[k].value)}
  {
    ItemsNext(s, k);
    assert One(s[k]) == multiset{Entry(s[k].hash.value, s[k].key, s[k].value)};
    hide Items, One;
  }

  lemma ChainSum(bk: Buckets, ch: seq<nat>, i: nat, m: multiset<Entry>)
    requires i < |ch| && ch[i] in bk
    ensures ChainItems(bk, ch[..i + 1]) + m == (ChainItems(bk, ch[..i]) + m) + Items(bk[ch[i]].slots)
  {
    ChainNext(bk, ch, i);
    hide ChainItems, Items;
  }

  lemma StartHalves(bk0: Buckets, bits: nat)
    ensures Halves(bk0, bk0, bits, BucketChain(CAPACITY, 0, 0), BucketChain(CAPACITY, 0, 0), [], [], multiset{})
  {
  }

  lemma OtherHalf(bk: Buckets, bk2: Buckets, bk0: Buckets, c: BucketChain, bits: nat, at: seq<nat>, other: seq<nat>)
    requires Build(bk, bk0, c, bits, at) && (Apart2(at, other) || Apart2(other, at))
    requires forall a | a in bk && a !in other :: a in bk2 && bk2[a] == bk[a]
    ensures Build(bk2, bk0, c, bits, at) && ChainItems(bk2, at) == ChainItems(bk, at)
  {
    BuildIn(bk, bk0, c, bits, at);
    ChainFrame(bk, bk2, at);
    if at != [] {
      SameChain(bk, bk2, c.first, bits, at);
      assert at[|at| - 1] in at;
    }
  }

  lemma SameChain(bk: Buckets, bk2: Buckets, first: nat, bits: nat, at: seq<nat>)
    requires ChainOk(bk, first, bits, at) && forall a | a in at :: a in bk2 && a in bk && bk2[a] == bk[a]
    ensures ChainOk(bk2, first, bits, at)
  {
    forall i: nat | i < |at| ensures at[i] in bk2 && BucketOk(bk2[at[i]], bits) && bk2[at[i]].overflow == At(at, i + 1) {
      assert at[i] in at;
    }
  }

  lemma MoreBits(m: multiset<Entry>, m2: multiset<Entry>, bits: nat, bit: nat, e: Entry)
    requires BitIs(m, bits, bit) && m2 == m + multiset{e} && Bit(e.hash, bits) == bit
    ensures BitIs(m2, bits, bit)
  {
  }

  lemma HalvesFrame(bk: Buckets, bk0: Buckets, bits: nat, los: BucketChain, his: BucketChain,
                    loAt: seq<nat>, hiAt: seq<nat>, m: multiset<Entry>)
    requires Halves(bk, bk0, bits, los, his, loAt, hiAt, m)
    ensures Same(bk0, bk)
  {
  }

  /** One of the two new chains, possibly none. */
  ghost predicate Part(bk: Buckets, bk0: Buckets, first: nat, bits: nat, at: seq<nat>) {
    && (first == 0 <==> at == []) && (at != [] ==> ChainOk(bk, first, bits, at)) && forall a | a in at :: a !in bk0
  }

  lemma HalvesDone(bk: Buckets, bk0: Buckets, bits: nat, los: BucketChain, his: BucketChain,
                   loAt: seq<nat>, hiAt: seq<nat>, m: multiset<Entry>)
    requires Halves(bk, bk0, bits, los, his, loAt, hiAt, m)
    ensures Same(bk0, bk) && Apart2(loAt, hiAt)
    ensures Part(bk, bk0, los.first, bits + 1, loAt) && Part(bk, bk0, his.first, bits + 1, hiAt)
    ensures ChainItems(bk, loAt) + ChainItems(bk, hiAt) == m
    ensures BitIs(ChainItems(bk, loAt), bits, 0) && BitIs(ChainItems(bk, hiAt), bits, 1)
  {
  }

  ghost predicate FullChain(bk: Buckets, first: nat, bits: nat, at: seq<nat>) {
    && ChainOk(bk, first, bits, at)
    && forall i: nat, s: nat :: !EmptyAt(bk, at, i, s)
  }

  lemma FullAt(bk: Buckets, first: nat, bits: nat, at: seq<nat>, i: nat)
    requires FullChain(bk, first, bits, at)
    ensures At(at, 0) == first && first != 0
    ensures forall k: nat | k < |at| :: at[k] != 0
    ensures i < |at| ==> at[i] in bk && |bk[at[i]].slots| == CAPACITY && bk[at[i]].overflow == At(at, i + 1)
    ensures i < |at| ==> forall s: nat | s < CAPACITY :: bk[at[i]].slots[s].hash.Some?
  {
    if i < |at| {
      assert BucketOk(bk[at[i]], bits);
      forall s: nat | s < CAPACITY ensures bk[at[i]].slots[s].hash.Some? {
        assert !EmptyAt(bk, at, i, s);
      }
    }
  }

  ghost function AddChain(chains: map<nat, Chain>, first: nat, bits: nat, at: seq<nat>): map<nat, Chain> {
    if first == 0 then chains else chains[first := Chain(bits, at)]
  }

  // ------------------------------------------------------------------ the steps of an insertion

  lemma SameOwn(bk: Buckets, chains: map<nat, Chain>)
    ensures OwnOrNew(bk, chains, chains)
  {
  }

  lemma AddedTo(items: multiset<Entry>, h: nat, key: Obj, value: Obj)
    ensures forall m: map<Obj, Entry> | Represents(items, m) && key !in m ::
      Represents(items + multiset{Entry(h, key, value)}, m[key := Entry(h, key, value)]) && ValueIn(m, key) == False
  {
  }

  lemma SameHashReaches(dir: seq<nat>, dirBits: nat, bk: Buckets, chains: map<nat, Chain>, items: multiset<Entry>,
                        h: nat, i: nat, a: nat, s: nat)
    requires TableOk(dir, dirBits, bk, chains, items) && |dir| > 0 && SlotIs(bk, chains, dir[h % |dir|], i, a, s)
    requires bk[a].slots[s].hash.Some?
    ensures dir[bk[a].slots[s].hash.value % |dir|] == dir[h % |dir|]
  {
    hide ChainsOk, DirOk, Holds;
    var f, x := dir[h % |dir|], bk[a].slots[s];
    var e := Entry(x.hash.value, x.key, x.value);
    ChainHas(bk, chains[f].at, i);
    ItemsHas(bk[a].slots, s);
    assert e in One(x);
    Reaches(dir, dirBits, bk, chains, f, e);
  }

  lemma Replaced(items: multiset<Entry>, was: Slot, x: Slot)
    requires One(was) <= items && x.hash == was.hash && x.key == was.key
    ensures var items2 := items - One(was) + One(x);
      && |items2| == |items| && items2 + One(was) == items + One(x)
      && (was.hash.None? ==> items2 == items)
      && forall m: map<Obj, Entry> | Represents(items, m) && was.hash.Some? ::
           Represents(items2, m[x.key := Entry(was.hash.value, x.key, x.value)])
  {
    var items2 := items - One(was) + One(x);
    forall m: map<Obj, Entry> | Represents(items, m) && was.hash.Some?
      ensures Represents(items2, m[x.key := Entry(was.hash.value, x.key, x.value)])
    {
      ReplacedIn(items, was, x, m);
    }
  }

  lemma ReplacedIn(items: multiset<Entry>, was: Slot, x: Slot, m: map<Obj, Entry>)
    requires One(was) <= items && x.hash == was.hash && x.key == was.key && Represents(items, m) && was.hash.Some?
    ensures Represents(items - One(was) + One(x), m[x.key := Entry(was.hash.value, x.key, x.value)])
  {
    var e := Entry(was.hash.value, was.key, was.value);
    assert e in One(was) && items[e] > 0;
  }

  lemma ChainHere(dir: seq<nat>, dirBits: nat, bk: Buckets, chains: map<nat, Chain>, items: multiset<Entry>, i: nat)
    requires TableOk(dir, dirBits, bk, chains, items) && i < |dir| && dir[i] != 0
    ensures dir[i] in chains && dir[i] in bk && bk[dir[i]].bits == chains[dir[i]].bits <= dirBits
    ensures !SomeEmpty(bk, chains, dir[i]) ==> FullChain(bk, dir[i], chains[dir[i]].bits, chains[dir[i]].at)
  {
    hide Holds;
    var f := dir[i];
    assert SharedOk(dir, dirBits, bk, chains, i);
    assert ChainOk(bk, f, chains[f].bits, chains[f].at);
    assert BucketOk(bk[chains[f].at[0]], chains[f].bits);
  }

  // ------------------------------------------------------------------ growing the directory

  lemma ModDouble(h: nat, n: nat)
    requires n > 0
    ensures h % (2 * n) == h % n || h % (2 * n) == h % n + n
  {
    LowPart(h, n);
  }

  lemma DoubledAt(dir: seq<nat>, i: nat)
    requires i < 2 * |dir|
    ensures (dir + dir)[i] == dir[i % |dir|]
  {
    ModDouble(i, |dir|);
    ModSmall(i, 2 * |dir|);
    if i < |dir| { ModSmall(i, |dir|); }
  }

  lemma GrowKeeps(dir: seq<nat>, dirBits: nat, bk: Buckets, chains: map<nat, Chain>, items: multiset<Entry>)
    requires TableOk(dir, dirBits, bk, chains, items)
    ensures TableOk(dir + dir, dirBits + 1, bk, chains, items)
  {
    hide ChainsOk, ItemsOf, SharedOk;
    var dir2 := dir + dir;
    forall i: nat | i < |dir2| && dir2[i] != 0 ensures SharedOk(dir2, dirBits + 1, bk, chains, i) {
      GrowShared(dir, dirBits, bk, chains, i);
    }
    forall f | f in chains ensures f in dir2 {
      assert f in dir;
    }
    forall e: Entry ensures items[e] == Found(dir2, bk, chains, e) {
      ModDouble(e.hash, |dir|);
      assert items[e] == Found(dir, bk, chains, e);
    }
  }

  lemma GrowShared(dir: seq<nat>, dirBits: nat, bk: Buckets, chains: map<nat, Chain>, i: nat)
    requires DirOk(dir, dirBits, bk, chains) && i < |dir + dir| && (dir + dir)[i] != 0
    ensures SharedOk(dir + dir, dirBits + 1, bk, chains, i)
  {
    hide ItemsOf;
    var dir2, n := dir + dir, |dir|;
    DoubledAt(dir, i);
    assert SharedOk(dir, dirBits, bk, chains, i % n);
    var b := chains[dir2[i]].bits;
    IndexCongruent(i, b, dirBits);
    forall j: nat | j < |dir2| ensures dir2[j] == dir2[i] <==> Congruent(j, i, b) {
      DoubledAt(dir, j);
      IndexCongruent(j, b, dirBits);
      assert dir[j % n] == dir[i % n] <==> Congruent(j % n, i % n, b);
    }
  }

  // ------------------------------------------------------------------ a first bucket

  lemma NewBucketKeeps(dir: seq<nat>, dirBits: nat, bk: Buckets, chains: map<nat, Chain>, items: multiset<Entry>, a: nat, j: nat)
    requires TableOk(dir, dirBits, bk, chains, items) && j < |dir| && dir[j] == 0 && a != 0 && a !in bk
    ensures TableOk(dir[j := a], dirBits, bk[a := FreshBucket(dirBits)], chains[a := Chain(dirBits, [a])], items)
  {
    var bk2, chains2 := bk[a := FreshBucket(dirBits)], chains[a := Chain(dirBits, [a])];
    NewBucketChains(bk, chains, a, dirBits);
    NotAChain(bk, chains, a);
    assert ItemsOf(bk, chains, 0) == multiset{} && 0 !in chains;
    hide ItemsOf, Holds, ChainsOk;
    NewBucketDir(dir, dirBits, bk, bk2, chains, a, j);
    hide DirOk;
    NewBucketHolds(dir, bk, bk2, chains, chains2, items, a, j);
  }

  lemma NewBucketDir(dir: seq<nat>, dirBits: nat, bk: Buckets, bk2: Buckets, chains: map<nat, Chain>, a: nat, j: nat)
    requires DirOk(dir, dirBits, bk, chains) && j < |dir| && dir[j] == 0 && a != 0 && a !in chains && 0 !in chains
    requires ItemsOf(bk2, chains[a := Chain(dirBits, [a])], a) == multiset{}
    requires forall g | g != a :: ItemsOf(bk2, chains[a := Chain(dirBits, [a])], g) == ItemsOf(bk, chains, g)
    ensures DirOk(dir[j := a], dirBits, bk2, chains[a := Chain(dirBits, [a])]) && a !in dir
  {
    hide ItemsOf, SharedOk;
    var dir2, chains2 := dir[j := a], chains[a := Chain(dirBits, [a])];
    forall i: nat | i < |dir| ensures dir[i] != a {
      if dir[i] != 0 { AtIsChain(dir, dirBits, bk, chains, i); }
    }
    forall i: nat | i < |dir2| && dir2[i] != 0 ensures SharedOk(dir2, dirBits, bk2, chains2, i) {
      if i == j {
        NewBucketShared(dir, dirBits, bk2, chains2, a, j);
      } else {
        OldBucketShared(dir, dirBits, bk, bk2, chains, chains2, a, j, i);
      }
    }
    forall f | f in chains2 ensures f in dir2 {
      if f == a {
        assert dir2[j] == a;
      } else {
        var i: nat :| i < |dir| && dir[i] == f;
        assert dir2[i] == f;
      }
    }
  }

  lemma AtIsChain(dir: seq<nat>, dirBits: nat, bk: Buckets, chains: map<nat, Chain>, i: nat)
    requires i < |dir| && SharedOk(dir, dirBits, bk, chains, i)
    ensures dir[i] in chains
  {
  }

  lemma NewBucketShared(dir: seq<nat>, dirBits: nat, bk2: Buckets, chains2: map<nat, Chain>, a: nat, j: nat)
    requires |dir| == Pow2(dirBits) && j < |dir| && a !in dir && a in chains2 && chains2[a].bits == dirBits
    requires ItemsOf(bk2, chains2, a) == multiset{}
    ensures SharedOk(dir[j := a], dirBits, bk2, chains2, j)
  {
    hide ItemsOf, Pow2;
    var dir2 := dir[j := a];
    forall t: nat | t < |dir2| ensures dir2[t] == a <==> Congruent(t, j, dirBits) {
      ModSmall(t, Pow2(dirBits));
      ModSmall(j, Pow2(dirBits));
    }
  }

  lemma OldBucketShared(dir: seq<nat>, dirBits: nat, bk: Buckets, bk2: Buckets, chains: map<nat, Chain>, chains2: map<nat, Chain>,
                        a: nat, j: nat, i: nat)
    requires i < |dir| && j < |dir| && i != j && dir[j] == 0 && dir[i] != 0 && dir[i] != a && SharedOk(dir, dirBits, bk, chains, i)
    requires a != 0 && chains2 == chains[a := Chain(dirBits, [a])]
    requires ItemsOf(bk2, chains2, dir[i]) == ItemsOf(bk, chains, dir[i])
    ensures SharedOk(dir[j := a], dirBits, bk2, chains2, i)
  {
    hide ItemsOf, Congruent;
    var dir2 := dir[j := a];
    forall t: nat | t < |dir2| ensures dir2[t] == dir2[i] <==> Congruent(t, i, chains[dir[i]].bits) {
      assert dir[t] == dir[i] <==> Congruent(t, i, chains[dir[i]].bits);
    }
  }

  lemma ModSmall(t: nat, n: nat)
    requires t < n
    ensures t % n == t
  {
  }

  lemma NotAChain(bk: Buckets, chains: map<nat, Chain>, a: nat)
    requires ChainsOk(bk, chains) && a !in bk
    ensures a !in chains && !InChains(chains, a)
  {
    forall f | f in chains ensures a !in chains[f].at && a != f {
      assert ChainOk(bk, f, chains[f].bits, chains[f].at);
    }
  }

  lemma NewBucketChains(bk: Buckets, chains: map<nat, Chain>, a: nat, bits: nat)
    requires ChainsOk(bk, chains) && a != 0 && a !in bk
    ensures var bk2, chains2 := bk[a := FreshBucket(bits)], chains[a := Chain(bits, [a])];
      && ChainsOk(bk2, chains2)
      && ItemsOf(bk2, chains2, a) == multiset{}
      && forall g | g != a :: ItemsOf(bk2, chains2, g) == ItemsOf(bk, chains, g)
  {
    var bk2, chains2 := bk[a := FreshBucket(bits)], chains[a := Chain(bits, [a])];
    NotAChain(bk, chains, a);
    FreshChain(bk2, a, bits);
    hide ChainOk, ChainItems;
    forall g | g in chains ensures ChainKept(bk, bk2, chains, g) && a !in chains[g].at {
      AllIn(bk, g, chains[g].bits, chains[g].at);
      SameChain(bk, bk2, g, chains[g].bits, chains[g].at);
      ChainFrame(bk, bk2, chains[g].at);
    }
    OneMoreChain(bk, bk2, chains, a, bits);
    forall g | g != a ensures ItemsOf(bk2, chains2, g) == ItemsOf(bk, chains, g) {
      assert g in chains ==> ChainKept(bk, bk2, chains, g);
    }
  }

  lemma OneMoreChain(bk: Buckets, bk2: Buckets, chains: map<nat, Chain>, a: nat, bits: nat)
    requires ChainsOk(bk, chains) && a != 0 && a !in chains && ChainOk(bk2, a, bits, [a])
    requires forall g | g in chains :: ChainKept(bk, bk2, chains, g) && a !in chains[g].at
    ensures ChainsOk(bk2, chains[a := Chain(bits, [a])])
  {
    hide ChainOk, ChainItems;
    assert forall g | g in chains :: ChainKept(bk, bk2, chains, g);
  }

  lemma FreshChain(bk: Buckets, a: nat, bits: nat)
    requires a in bk && bk[a] == FreshBucket(bits) && a != 0
    ensures ChainOk(bk, a, bits, [a]) && ChainItems(bk, [a]) == multiset{}
  {
    NoItems(bk[a].slots);
    assert [a][..0] == [];
    assert ChainItems(bk, [a][..0]) == multiset{};
  }

  lemma NewBucketHolds(dir: seq<nat>, bk: Buckets, bk2: Buckets, chains: map<nat, Chain>, chains2: map<nat, Chain>,
                       items: multiset<Entry>, a: nat, j: nat)
    requires Holds(dir, bk, chains, items) && j < |dir| && dir[j] == 0 && a !in dir
    requires ItemsOf(bk2, chains2, a) == multiset{} && ItemsOf(bk, chains, 0) == multiset{}
    requires forall g | g != a :: ItemsOf(bk2, chains2, g) == ItemsOf(bk, chains, g)
    ensures Holds(dir[j := a], bk2, chains2, items)
  {
    hide ItemsOf;
    var dir2 := dir[j := a];
    forall e: Entry ensures items[e] == Found(dir2, bk2, chains2, e) {
      assert items[e] == Found(dir, bk, chains, e);
    }
  }

  lemma NewBucketOwn(bk: Buckets, bk2: Buckets, chains: map<nat, Chain>, a: nat, bits: nat)
    requires a !in bk && Untouched(bk[a := FreshBucket(bits)], bk2, chains[a := Chain(bits, [a])])
    ensures Untouched(bk, bk2, chains) && OwnOrNew(bk, chains, chains[a := Chain(bits, [a])])
  {
    var chains2 := chains[a := Chain(bits, [a])];
    forall x | x in bk && !InChains(chains, x) ensures x in bk2 && bk2[x] == bk[x] {
      assert !InChains(chains2, x);
    }
    forall x | InChains(chains2, x) && x in bk ensures InChains(chains, x) {
      var f :| f in chains2 && x in chains2[f].at;
      assert f in chains;
    }
  }

  // ------------------------------------------------------------------ installing the halves

  lemma DirLength(dir: seq<nat>, dirBits: nat, bk: Buckets, chains: map<nat, Chain>, items: multiset<Entry>)
    requires TableOk(dir, dirBits, bk, chains, items)
    ensures |dir| == Pow2(dirBits)
  {
  }

  lemma DirSize(bits: nat, dirBits: nat)
    requires bits < dirBits
    ensures Pow2(dirBits) == 2 * Pow2(bits) * Pow2(dirBits - (bits + 1))
  {
    Pow2Sum(bits + 1, dirBits - (bits + 1));
  }

  /** Every index congruent to i0 mod p leads to one of the new chains, by its next bit. */
  ghost predicate Redirected(dir: seq<nat>, dir2: seq<nat>, lo: nat, hi: nat, i0: nat, p: nat)
    requires p > 0
  {
    && |dir2| == |dir|
    && forall t: nat | t < |dir| :: dir2[t] == if t % p == i0 then (if t / p % 2 == 0 then lo else hi) else dir[t]
  }

  /** The directory after j rounds of the last loop of split_bucket. */
  ghost predicate RedirectedTo(dir: seq<nat>, dir2: seq<nat>, lo: nat, hi: nat, i0: nat, p: nat, j: nat)
    requires p > 0
  {
    && |dir2| == |dir|
    && forall t: nat | t < |dir| ::
         dir2[t] == if t % p == i0 && t / p < 2 * j then (if t / p % 2 == 0 then lo else hi) else dir[t]
  }

  /** The last loop of split_bucket. */
  method Redirect(dir: seq<nat>, lo: nat, hi: nat, i0: nat, p: nat, n: nat) returns (dir2: seq<nat>)
    requires |dir| == 2 * p * n && i0 < p
    ensures Redirected(dir, dir2, lo, hi, i0, p)
  {
    hide RedirectedTo;
    dir2 := dir;
    var i := i0;
    NoneRedirected(dir, lo, hi, i0, p);
    for j := 0 to n
      invariant i == 2 * j * p + i0
      invariant |dir2| == |dir| && RedirectedTo(dir, dir2, lo, hi, i0, p, j)
    {
      InRange(j, n, p, i0);
      RedirectOne(dir, dir2, lo, hi, i0, p, j, i);
      dir2 := dir2[i := lo];
      i := i + p;
      dir2 := dir2[i := hi];
      i := i + p;
    }
    AllRedirected(dir, dir2, lo, hi, i0, p, n);
  }

  lemma RedirectedSize(dir: seq<nat>, dir2: seq<nat>, lo: nat, hi: nat, i0: nat, p: nat)
    requires p > 0 && Redirected(dir, dir2, lo, hi, i0, p)
    ensures |dir2| == |dir|
  {
  }

  lemma NoneRedirected(dir: seq<nat>, lo: nat, hi: nat, i0: nat, p: nat)
    requires p > 0
    ensures RedirectedTo(dir, dir, lo, hi, i0, p, 0)
  {
  }

  lemma AllRedirected(dir: seq<nat>, dir2: seq<nat>, lo: nat, hi: nat, i0: nat, p: nat, n: nat)
    requires p > 0 && |dir| == 2 * p * n && RedirectedTo(dir, dir2, lo, hi, i0, p, n)
    ensures Redirected(dir, dir2, lo, hi, i0, p)
  {
    forall t: nat | t < |dir|
      ensures dir2[t] == if t % p == i0 then (if t / p % 2 == 0 then lo else hi) else dir[t]
    {
      Below(t, p, n);
    }
  }

  lemma RedirectOne(dir: seq<nat>, dir2: seq<nat>, lo: nat, hi: nat, i0: nat, p: nat, j: nat, i: nat)
    requires i0 < p && i == 2 * j * p + i0 && i + p < |dir| && RedirectedTo(dir, dir2, lo, hi, i0, p, j)
    ensures RedirectedTo(dir, dir2[i := lo][i + p := hi], lo, hi, i0, p, j + 1)
  {
    var dir3 := dir2[i := lo][i + p := hi];
    forall t: nat | t < |dir|
      ensures dir3[t] == if t % p == i0 && t / p < 2 * (j + 1) then (if t / p % 2 == 0 then lo else hi) else dir[t]
    {
      WhichRound(t, p, j, i0);
    }
  }

  lemma WhichRound(t: nat, p: nat, j: nat, i0: nat)
    requires i0 < p
    ensures t == 2 * j * p + i0 <==> t % p == i0 && t / p == 2 * j
    ensures t == 2 * j * p + i0 + p <==> t % p == i0 && t / p == 2 * j + 1
  {
    DivMod(2 * j, p, i0);
    DivMod(2 * j + 1, p, i0);
    DivIs(t, p);
    assert (2 * j + 1) * p == 2 * j * p + p;
  }

  lemma InRange(j: nat, n: nat, p: nat, i0: nat)
    requires j < n && i0 < p
    ensures 2 * j * p + i0 + p < 2 * p * n && (2 * j + 1) * p == 2 * j * p + p && 2 * (j + 1) * p == 2 * j * p + p + p
  {
    Apart(2 * j + 1, 2 * n, p);
  }

  lemma TimesMonotone(a: nat, b: nat, p: nat)
    requires a <= b
    ensures a * p <= b * p
  {
  }

  lemma Below(t: nat, p: nat, n: nat)
    requires p > 0 && t < 2 * p * n
    ensures t / p < 2 * n
  {
    DivIs(t, p);
    if t / p >= 2 * n {
      TimesMonotone(2 * n, t / p, p);
    }
  }

  /** What SplitKeeps needs to know about the chains before and after. */
  ghost predicate SplitChains(bk: Buckets, bk2: Buckets, chains: map<nat, Chain>, chains2: map<nat, Chain>, f: nat,
                              lo: nat, hi: nat, bits: nat, m: multiset<Entry>) {
    && (lo == 0 || lo != hi) && lo !in chains && hi !in chains && f !in chains2 && 0 !in chains && 0 !in chains2
    && ItemsOf(bk2, chains2, lo) + ItemsOf(bk2, chains2, hi) == m
    && BitIs(ItemsOf(bk2, chains2, lo), bits, 0) && BitIs(ItemsOf(bk2, chains2, hi), bits, 1)
    && (forall g | g != f && (g == 0 || (g != lo && g != hi)) :: ItemsOf(bk2, chains2, g) == ItemsOf(bk, chains, g))
    && (lo != 0 ==> lo in chains2 && chains2[lo].bits == bits + 1) && (hi != 0 ==> hi in chains2 && chains2[hi].bits == bits + 1)
    && (forall g | g in chains && g != f :: g in chains2 && chains2[g] == chains[g])
    && (forall g | g in chains2 :: g in chains || g == lo || g == hi)
  }

  lemma SplitMakesChains(bk: Buckets, bk2: Buckets, chains: map<nat, Chain>, f: nat, lo: nat, hi: nat, bits: nat,
                         loAt: seq<nat>, hiAt: seq<nat>, m: multiset<Entry>)
    requires ChainsOk(bk, chains) && f in chains && Same(bk, bk2) && Apart2(loAt, hiAt)
    requires Part(bk2, bk, lo, bits + 1, loAt) && Part(bk2, bk, hi, bits + 1, hiAt)
    requires ChainItems(bk2, loAt) + ChainItems(bk2, hiAt) == m
    requires BitIs(ChainItems(bk2, loAt), bits, 0) && BitIs(ChainItems(bk2, hiAt), bits, 1)
    ensures var chains2 := AddChain(AddChain(chains - {f}, lo, bits + 1, loAt), hi, bits + 1, hiAt);
      ChainsOk(bk2, chains2) && SplitChains(bk, bk2, chains, chains2, f, lo, hi, bits, m)
  {
    hide ChainOk, BitIs, AddChain, ItemsOf, ChainItems;
    var chains2 := AddChain(AddChain(chains - {f}, lo, bits + 1, loAt), hi, bits + 1, hiAt);
    PartFresh(bk2, bk, chains, lo, bits + 1, loAt);
    PartFresh(bk2, bk, chains, hi, bits + 1, hiAt);
    
    forall g | g in chains ensures ChainKept(bk, bk2, chains, g) {
      AllIn(bk, g, chains[g].bits, chains[g].at);
      SameChain(bk, bk2, g, chains[g].bits, chains[g].at);
      ChainFrame(bk, bk2, chains[g].at);
    }
    SplitChainsOk(bk, bk2, chains, chains2, f, lo, hi, bits, loAt, hiAt);
    SplitItems(bk, bk2, chains, chains2, f, lo, hi, bits, loAt, hiAt);
  }

  lemma SplitItems(bk: Buckets, bk2: Buckets, chains: map<nat, Chain>, chains2: map<nat, Chain>, f: nat, lo: nat, hi: nat,
                   bits: nat, loAt: seq<nat>, hiAt: seq<nat>)
    requires f in chains && 0 !in chains && lo !in chains && hi !in chains && (lo == 0 || lo != hi)
    requires chains2 == AddChain(AddChain(chains - {f}, lo, bits + 1, loAt), hi, bits + 1, hiAt)
    requires (lo == 0 ==> loAt == []) && (hi == 0 ==> hiAt == [])
    requires forall g | g in chains :: ChainKept(bk, bk2, chains, g)
    ensures ItemsOf(bk2, chains2, lo) == ChainItems(bk2, loAt) && ItemsOf(bk2, chains2, hi) == ChainItems(bk2, hiAt)
    ensures ItemsOf(bk, chains, f) == ChainItems(bk, chains[f].at)
    ensures forall g | g != f && (g == 0 || (g != lo && g != hi)) :: ItemsOf(bk2, chains2, g) == ItemsOf(bk, chains, g)
    ensures SplitKeys(chains, chains2, f, lo, hi, bits + 1)
  {
    SplitKeysOk(chains, chains2, f, lo, hi, bits, loAt, hiAt);
    assert ChainItems(bk2, []) == multiset{};
    hide ChainOk, ChainItems;
    forall g | g != f && (g == 0 || (g != lo && g != hi)) ensures ItemsOf(bk2, chains2, g) == ItemsOf(bk, chains, g) {
      if g in chains {
        assert ChainKept(bk, bk2, chains, g);
      }
    }
  }

  /** Which chains there are after a split. */
  ghost predicate SplitKeys(chains: map<nat, Chain>, chains2: map<nat, Chain>, f: nat, lo: nat, hi: nat, bits: nat) {
    && f !in chains2 && 0 !in chains2
    && (lo != 0 ==> lo in chains2 && chains2[lo].bits == bits) && (hi != 0 ==> hi in chains2 && chains2[hi].bits == bits)
    && (forall g | g in chains && g != f :: g in chains2 && chains2[g] == chains[g])
    && (forall g | g in chains2 :: g in chains || g == lo || g == hi)
  }

  lemma SplitKeysOk(chains: map<nat, Chain>, chains2: map<nat, Chain>, f: nat, lo: nat, hi: nat,
                    bits: nat, loAt: seq<nat>, hiAt: seq<nat>)
    requires f in chains && 0 !in chains && lo !in chains && hi !in chains && (lo == 0 || lo != hi)
    requires chains2 == AddChain(AddChain(chains - {f}, lo, bits + 1, loAt), hi, bits + 1, hiAt)
    ensures SplitKeys(chains, chains2, f, lo, hi, bits + 1)
    ensures (lo != 0 ==> chains2[lo].at == loAt) && (hi != 0 ==> chains2[hi].at == hiAt)
  {
  }

  ghost predicate ChainKept(bk: Buckets, bk2: Buckets, chains: map<nat, Chain>, g: nat)
    requires g in chains
  {
    && ChainOk(bk2, g, chains[g].bits, chains[g].at) && ChainItems(bk2, chains[g].at) == ChainItems(bk, chains[g].at)
    && forall a | a in chains[g].at :: a in bk
  }

  lemma SplitChainsOk(bk: Buckets, bk2: Buckets, chains: map<nat, Chain>, chains2: map<nat, Chain>, f: nat, lo: nat, hi: nat,
                      bits: nat, loAt: seq<nat>, hiAt: seq<nat>)
    requires ChainsOk(bk, chains) && f in chains && Apart2(loAt, hiAt)
    requires Part(bk2, bk, lo, bits + 1, loAt) && Part(bk2, bk, hi, bits + 1, hiAt)
    requires chains2 == AddChain(AddChain(chains - {f}, lo, bits + 1, loAt), hi, bits + 1, hiAt)
    requires lo !in chains && hi !in chains && (lo == 0 || lo != hi)
    requires forall g | g in chains :: ChainKept(bk, bk2, chains, g)
    ensures ChainsOk(bk2, chains2)
  {
    hide ChainOk, ChainItems;
    forall g | g in chains2 ensures g != 0 && ChainOk(bk2, g, chains2[g].bits, chains2[g].at) {
      assert g in chains ==> ChainKept(bk, bk2, chains, g);
    }
    forall g, k, a | g in chains2 && k in chains2 && g != k && a in chains2[g].at ensures a !in chains2[k].at {
      assert g in chains ==> ChainKept(bk, bk2, chains, g);
      assert k in chains ==> ChainKept(bk, bk2, chains, k);
    }
  }

  lemma PartFresh(bk2: Buckets, bk: Buckets, chains: map<nat, Chain>, first: nat, bits: nat, at: seq<nat>)
    requires ChainsOk(bk, chains) && Part(bk2, bk, first, bits, at)
    ensures first !in chains && (first != 0 ==> first in at) && (first == 0 ==> ChainItems(bk2, at) == multiset{})
  {
    if first != 0 {
      assert at[0] in at;
      NotAChain(bk, chains, first);
    }
  }

  lemma SplitKeeps(dir: seq<nat>, dirBits: nat, bk: Buckets, chains: map<nat, Chain>, items: multiset<Entry>, f: nat, e: Entry,
                   bk2: Buckets, lo: nat, hi: nat, loAt: seq<nat>, hiAt: seq<nat>, dir2: seq<nat>)
    requires TableOk(dir, dirBits, bk, chains, items) && |dir| > 0 && f in chains && dir[e.hash % |dir|] == f
    requires chains[f].bits < dirBits && Same(bk, bk2) && Apart2(loAt, hiAt)
    requires Part(bk2, bk, lo, chains[f].bits + 1, loAt) && Part(bk2, bk, hi, chains[f].bits + 1, hiAt)
    requires ChainItems(bk2, loAt) + ChainItems(bk2, hiAt) == ChainItems(bk, chains[f].at) + multiset{e}
    requires BitIs(ChainItems(bk2, loAt), chains[f].bits, 0) && BitIs(ChainItems(bk2, hiAt), chains[f].bits, 1)
    requires Redirected(dir, dir2, lo, hi, e.hash % Pow2(chains[f].bits), Pow2(chains[f].bits))
    ensures TableOk(dir2, dirBits, bk2,
      AddChain(AddChain(chains - {f}, lo, chains[f].bits + 1, loAt), hi, chains[f].bits + 1, hiAt), items + multiset{e})
  {
    hide DirOk, Holds, Redirected, Part, BitIs, Same, Apart2, SplitChains, AddChain, ChainsOk, ChainItems, Pow2;
    var bits := chains[f].bits;
    var m := ItemsOf(bk, chains, f) + multiset{e};
    SplitMakesChains(bk, bk2, chains, f, lo, hi, bits, loAt, hiAt, m);
    var chains2 := AddChain(AddChain(chains - {f}, lo, bits + 1, loAt), hi, bits + 1, hiAt);
    SplitStepKeeps(dir, dirBits, bk, chains, items, f, e, bk2, chains2, lo, hi, dir2);
  }

  lemma SplitStepKeeps(dir: seq<nat>, dirBits: nat, bk: Buckets, chains: map<nat, Chain>, items: multiset<Entry>, f: nat, e: Entry,
                       bk2: Buckets, chains2: map<nat, Chain>, lo: nat, hi: nat, dir2: seq<nat>)
    requires SplitStep(dir, dirBits, bk, chains, f, e, bk2, chains2, lo, hi, dir2)
    requires Holds(dir, bk, chains, items) && ChainsOk(bk2, chains2)
    ensures TableOk(dir2, dirBits, bk2, chains2, items + multiset{e})
  {
    hide DirOk, Holds, ChainsOk, ItemsOf, SplitChains, Redirected, Found;
    SplitDir(dir, dirBits, bk, chains, f, e, bk2, chains2, lo, hi, dir2);
    SplitSize(dir, dirBits, bk, chains, f, e, bk2, chains2, lo, hi, dir2);
    forall x: Entry ensures (items + multiset{e})[x] == Found(dir2, bk2, chains2, x) {
      SplitFound(dir, dirBits, bk, chains, items, f, e, bk2, chains2, lo, hi, dir2, x);
    }
    SplitHolds(dir, dir2, bk2, chains2, items + multiset{e});
  }

  lemma SplitSize(dir: seq<nat>, dirBits: nat, bk: Buckets, chains: map<nat, Chain>, f: nat, e: Entry,
                  bk2: Buckets, chains2: map<nat, Chain>, lo: nat, hi: nat, dir2: seq<nat>)
    requires SplitStep(dir, dirBits, bk, chains, f, e, bk2, chains2, lo, hi, dir2)
    ensures |dir2| == |dir| > 0
  {
  }

  lemma SplitHolds(dir: seq<nat>, dir2: seq<nat>, bk2: Buckets, chains2: map<nat, Chain>, items: multiset<Entry>)
    requires |dir2| > 0 && forall x: Entry :: items[x] == Found(dir2, bk2, chains2, x)
    ensures Holds(dir2, bk2, chains2, items)
  {
  }

  /** Where the indices of the split chain are. */
  lemma SplitIndex(dir: seq<nat>, dirBits: nat, bk: Buckets, chains: map<nat, Chain>, f: nat, h: nat, t: nat)
    requires DirOk(dir, dirBits, bk, chains) && f in chains && |dir| > 0 && dir[h % |dir|] == f && f != 0 && t < |dir|
    ensures chains[f].bits <= dirBits
    ensures t % Pow2(chains[f].bits) == h % Pow2(chains[f].bits) <==> dir[t] == f
  {
    hide ItemsOf;
    assert SharedOk(dir, dirBits, bk, chains, h % |dir|);
    IndexCongruent(h, chains[f].bits, dirBits);
    assert dir[t] == dir[h % |dir|] <==> Congruent(t, h % |dir|, chains[f].bits);
  }

  ghost predicate SplitStep(dir: seq<nat>, dirBits: nat, bk: Buckets, chains: map<nat, Chain>, f: nat, e: Entry,
                            bk2: Buckets, chains2: map<nat, Chain>, lo: nat, hi: nat, dir2: seq<nat>) {
    && DirOk(dir, dirBits, bk, chains) && |dir| > 0 && f in chains && dir[e.hash % |dir|] == f && chains[f].bits < dirBits
    && SplitChains(bk, bk2, chains, chains2, f, lo, hi, chains[f].bits, ItemsOf(bk, chains, f) + multiset{e})
    && Redirected(dir, dir2, lo, hi, e.hash % Pow2(chains[f].bits), Pow2(chains[f].bits))
  }

  lemma SplitDir(dir: seq<nat>, dirBits: nat, bk: Buckets, chains: map<nat, Chain>, f: nat, e: Entry,
                 bk2: Buckets, chains2: map<nat, Chain>, lo: nat, hi: nat, dir2: seq<nat>)
    requires SplitStep(dir, dirBits, bk, chains, f, e, bk2, chains2, lo, hi, dir2)
    ensures DirOk(dir2, dirBits, bk2, chains2)
  {
    hide ItemsOf, SharedOk, SplitChains;
    forall i: nat | i < |dir2| && dir2[i] != 0 ensures SharedOk(dir2, dirBits, bk2, chains2, i) {
      if dir[i] == f {
        SplitSharedNew(dir, dirBits, bk, chains, f, e, bk2, chains2, lo, hi, dir2, i);
      } else {
        SplitSharedOld(dir, dirBits, bk, chains, f, e, bk2, chains2, lo, hi, dir2, i);
      }
    }
    forall g | g in chains2 ensures g in dir2 {
      SplitListed(dir, dirBits, bk, chains, f, e, bk2, chains2, lo, hi, dir2, g);
    }
  }

  /** What the new directory holds at one index. */
  lemma SplitAt(dir: seq<nat>, dirBits: nat, bk: Buckets, chains: map<nat, Chain>, f: nat, e: Entry,
                bk2: Buckets, chains2: map<nat, Chain>, lo: nat, hi: nat, dir2: seq<nat>, t: nat)
    requires SplitStep(dir, dirBits, bk, chains, f, e, bk2, chains2, lo, hi, dir2) && t < |dir|
    ensures |dir2| == |dir|
    ensures Congruent(t, e.hash, chains[f].bits) <==> dir[t] == f
    ensures dir2[t] == if dir[t] == f then (if Bit(t, chains[f].bits) == 0 then lo else hi) else dir[t]
    ensures dir[t] != f && dir[t] != 0 ==> dir[t] != lo && dir[t] != hi && dir[t] in chains
  {
    hide ItemsOf;
    SplitIndex(dir, dirBits, bk, chains, f, e.hash, t);
    if dir[t] != 0 {
      assert SharedOk(dir, dirBits, bk, chains, t);
    }
  }

  lemma SplitSharedNew(dir: seq<nat>, dirBits: nat, bk: Buckets, chains: map<nat, Chain>, f: nat, e: Entry,
                       bk2: Buckets, chains2: map<nat, Chain>, lo: nat, hi: nat, dir2: seq<nat>, i: nat)
    requires SplitStep(dir, dirBits, bk, chains, f, e, bk2, chains2, lo, hi, dir2)
    requires f in chains && i < |dir| == |dir2| && dir[i] == f && dir2[i] != 0
    ensures SharedOk(dir2, dirBits, bk2, chains2, i)
  {
    hide SplitStep, ItemsOf, Bit, Pow2;
    SplitNew(dir, dirBits, bk, chains, f, e, bk2, chains2, lo, hi, dir2);
    var b := chains[f].bits;
    SplitAt(dir, dirBits, bk, chains, f, e, bk2, chains2, lo, hi, dir2, i);
    forall j: nat | j < |dir2| ensures dir2[j] == dir2[i] <==> Congruent(j, i, b + 1) {
      SplitSharedAt(dir, dirBits, bk, chains, f, e, bk2, chains2, lo, hi, dir2, i, j);
    }
    forall x: Entry | x in ItemsOf(bk2, chains2, dir2[i]) ensures Congruent(x.hash, i, b + 1) {
      SplitHash(dir, dirBits, bk, chains, f, e, bk2, chains2, lo, hi, dir2, x);
      BitRange(i, b);
      OneMoreBit(x.hash, i, b);
    }
    assert chains2[dir2[i]].bits == b + 1;
    hide Congruent;
  }

  lemma SplitSharedAt(dir: seq<nat>, dirBits: nat, bk: Buckets, chains: map<nat, Chain>, f: nat, e: Entry,
                      bk2: Buckets, chains2: map<nat, Chain>, lo: nat, hi: nat, dir2: seq<nat>, i: nat, j: nat)
    requires SplitStep(dir, dirBits, bk, chains, f, e, bk2, chains2, lo, hi, dir2)
    requires f in chains && i < |dir| == |dir2| && j < |dir| && dir[i] == f && dir2[i] != 0
    ensures dir2[j] == dir2[i] <==> Congruent(j, i, chains[f].bits + 1)
  {
    hide SplitStep, ItemsOf, Bit, Pow2, Congruent;
    SplitNew(dir, dirBits, bk, chains, f, e, bk2, chains2, lo, hi, dir2);
    var b := chains[f].bits;
    SplitAt(dir, dirBits, bk, chains, f, e, bk2, chains2, lo, hi, dir2, i);
    SplitAt(dir, dirBits, bk, chains, f, e, bk2, chains2, lo, hi, dir2, j);
    OneMoreBit(j, i, b);
    CongruentVia(j, i, e.hash, b);
    BitRange(i, b);
    BitRange(j, b);
  }

  lemma CongruentVia(j: nat, i: nat, h: nat, b: nat)
    requires Congruent(i, h, b)
    ensures Congruent(j, i, b) <==> Congruent(j, h, b)
  {
  }

  lemma SplitNew(dir: seq<nat>, dirBits: nat, bk: Buckets, chains: map<nat, Chain>, f: nat, e: Entry,
                 bk2: Buckets, chains2: map<nat, Chain>, lo: nat, hi: nat, dir2: seq<nat>)
    requires SplitStep(dir, dirBits, bk, chains, f, e, bk2, chains2, lo, hi, dir2)
    ensures f in chains && chains[f].bits < dirBits && (lo == 0 || lo != hi)
    ensures lo != 0 ==> lo in chains2 && chains2[lo].bits == chains[f].bits + 1
    ensures hi != 0 ==> hi in chains2 && chains2[hi].bits == chains[f].bits + 1
    ensures |dir| > 0 && dir[e.hash % |dir|] == f && |dir| == Pow2(dirBits)
    ensures ItemsOf(bk2, chains2, lo) + ItemsOf(bk2, chains2, hi) == ItemsOf(bk, chains, f) + multiset{e}
    ensures forall g | g != f && (g == 0 || (g != lo && g != hi)) :: ItemsOf(bk2, chains2, g) == ItemsOf(bk, chains, g)
  {
    hide ItemsOf;
  }

  lemma BitRange(i: nat, b: nat)
    ensures Bit(i, b) == 0 || Bit(i, b) == 1
  {
  }

  /** Entries of the new chains agree with the new entry, and their bit tells which chain. */
  lemma SplitHash(dir: seq<nat>, dirBits: nat, bk: Buckets, chains: map<nat, Chain>, f: nat, e: Entry,
                  bk2: Buckets, chains2: map<nat, Chain>, lo: nat, hi: nat, dir2: seq<nat>, x: Entry)
    requires SplitStep(dir, dirBits, bk, chains, f, e, bk2, chains2, lo, hi, dir2)
    requires x in ItemsOf(bk2, chains2, lo) || x in ItemsOf(bk2, chains2, hi)
    ensures Congruent(x.hash, e.hash, chains[f].bits)
    ensures x in ItemsOf(bk2, chains2, lo) ==> Bit(x.hash, chains[f].bits) == 0
    ensures x in ItemsOf(bk2, chains2, hi) ==> Bit(x.hash, chains[f].bits) == 1
  {
    hide ItemsOf, Redirected;
    var i := e.hash % |dir|;
    assert x in ItemsOf(bk2, chains2, lo) + ItemsOf(bk2, chains2, hi);
    if x != e {
      assert x in ItemsOf(bk, chains, f);
      assert dir[i] != 0;
      assert SharedOk(dir, dirBits, bk, chains, i);
      IndexCongruent(e.hash, chains[f].bits, dirBits);
    }
  }

  lemma SplitSharedOld(dir: seq<nat>, dirBits: nat, bk: Buckets, chains: map<nat, Chain>, f: nat, e: Entry,
                       bk2: Buckets, chains2: map<nat, Chain>, lo: nat, hi: nat, dir2: seq<nat>, i: nat)
    requires SplitStep(dir, dirBits, bk, chains, f, e, bk2, chains2, lo, hi, dir2)
    requires i < |dir| == |dir2| && dir[i] != f && dir2[i] != 0
    ensures SharedOk(dir2, dirBits, bk2, chains2, i)
  {
    SplitAt(dir, dirBits, bk, chains, f, e, bk2, chains2, lo, hi, dir2, i);
    assert SharedOk(dir, dirBits, bk, chains, i);
    hide DirOk, Redirected, ItemsOf;
    forall j: nat | j < |dir2| ensures dir2[j] == dir2[i] <==> Congruent(j, i, chains[dir[i]].bits) {
      SplitAt(dir, dirBits, bk, chains, f, e, bk2, chains2, lo, hi, dir2, j);
      assert dir[j] == dir[i] <==> Congruent(j, i, chains[dir[i]].bits);
    }
  }

  lemma SplitListed(dir: seq<nat>, dirBits: nat, bk: Buckets, chains: map<nat, Chain>, f: nat, e: Entry,
                    bk2: Buckets, chains2: map<nat, Chain>, lo: nat, hi: nat, dir2: seq<nat>, g: nat)
    requires SplitStep(dir, dirBits, bk, chains, f, e, bk2, chains2, lo, hi, dir2) && g in chains2
    ensures g in dir2
  {
    hide SplitStep, ItemsOf, Bit, Pow2, Congruent;
    SplitNew(dir, dirBits, bk, chains, f, e, bk2, chains2, lo, hi, dir2);
    if g in chains && g != f {
      var i := SplitListedOld(dir, dirBits, bk, chains, f, e, bk2, chains2, lo, hi, dir2, g);
      SplitAt(dir, dirBits, bk, chains, f, e, bk2, chains2, lo, hi, dir2, i);
      assert dir2[i] == g;
    } else {
      var p := Pow2(chains[f].bits);
      var i0 := e.hash % p;
      HalfIndices(e.hash, chains[f].bits, dirBits);
      SplitAt(dir, dirBits, bk, chains, f, e, bk2, chains2, lo, hi, dir2, i0);
      SplitAt(dir, dirBits, bk, chains, f, e, bk2, chains2, lo, hi, dir2, i0 + p);
      assert dir2[i0] == lo && dir2[i0 + p] == hi;
      SplitListedNew(dir, dirBits, bk, chains, f, e, bk2, chains2, lo, hi, dir2, g);
    }
  }

  lemma SplitListedOld(dir: seq<nat>, dirBits: nat, bk: Buckets, chains: map<nat, Chain>, f: nat, e: Entry,
                       bk2: Buckets, chains2: map<nat, Chain>, lo: nat, hi: nat, dir2: seq<nat>, g: nat) returns (i: nat)
    requires SplitStep(dir, dirBits, bk, chains, f, e, bk2, chains2, lo, hi, dir2) && g in chains
    ensures i < |dir| && dir[i] == g
  {
    i :| 0 <= i < |dir| && dir[i] == g;
  }

  lemma SplitListedNew(dir: seq<nat>, dirBits: nat, bk: Buckets, chains: map<nat, Chain>, f: nat, e: Entry,
                       bk2: Buckets, chains2: map<nat, Chain>, lo: nat, hi: nat, dir2: seq<nat>, g: nat)
    requires SplitStep(dir, dirBits, bk, chains, f, e, bk2, chains2, lo, hi, dir2) && g in chains2 && !(g in chains && g != f)
    ensures g == lo || g == hi
  {
    hide ItemsOf, DirOk, Redirected;
  }

  /** The lowest index of either half of a split. */
  lemma HalfIndices(h: nat, b: nat, d: nat)
    requires b < d
    ensures var p, i0 := Pow2(b), h % Pow2(b);
      && i0 + p < Pow2(d) && Congruent(i0, h, b) && Congruent(i0 + p, h, b) && Bit(i0, b) == 0 && Bit(i0 + p, b) == 1
  {
    var p, i0 := Pow2(b), h % Pow2(b);
    DirSize(b, d);
    InRange(0, Pow2(d - (b + 1)), p, i0);
    DivMod(0, p, i0);
    DivMod(1, p, i0);
  }

  lemma SplitFound(dir: seq<nat>, dirBits: nat, bk: Buckets, chains: map<nat, Chain>, items: multiset<Entry>, f: nat, e: Entry,
                   bk2: Buckets, chains2: map<nat, Chain>, lo: nat, hi: nat, dir2: seq<nat>, x: Entry)
    requires SplitStep(dir, dirBits, bk, chains, f, e, bk2, chains2, lo, hi, dir2) && Holds(dir, bk, chains, items) && f in chains && |dir| > 0
    ensures |dir2| > 0 && (items + multiset{e})[x] == Found(dir2, bk2, chains2, x)
  {
    hide SplitStep, ItemsOf, Bit, Pow2, Congruent;
    SplitNew(dir, dirBits, bk, chains, f, e, bk2, chains2, lo, hi, dir2);
    var b, t := chains[f].bits, x.hash % |dir|;
    SplitAt(dir, dirBits, bk, chains, f, e, bk2, chains2, lo, hi, dir2, t);
    assert items[x] == Found(dir, bk, chains, x);
    IndexCongruent(x.hash, b + 1, dirBits);
    OneMoreBit(t, x.hash, b);
    BitRange(t, b);
    if dir[t] == f {
      SplitFoundNew(dir, dirBits, bk, chains, f, e, bk2, chains2, lo, hi, dir2, x);
    }
    hide Congruent;
  }

  /** An entry of the split chain is in the half its bit selects, and not in the other. */
  lemma SplitFoundNew(dir: seq<nat>, dirBits: nat, bk: Buckets, chains: map<nat, Chain>, f: nat, e: Entry,
                      bk2: Buckets, chains2: map<nat, Chain>, lo: nat, hi: nat, dir2: seq<nat>, x: Entry)
    requires SplitStep(dir, dirBits, bk, chains, f, e, bk2, chains2, lo, hi, dir2) && f in chains
    ensures ItemsOf(bk2, chains2, if Bit(x.hash, chains[f].bits) == 0 then lo else hi)[x] == (ItemsOf(bk, chains, f) + multiset{e})[x]
  {
    hide SplitStep, ItemsOf, Bit, Pow2, Congruent;
    SplitNew(dir, dirBits, bk, chains, f, e, bk2, chains2, lo, hi, dir2);
    var a, b := ItemsOf(bk2, chains2, lo), ItemsOf(bk2, chains2, hi);
    assert (a + b)[x] == a[x] + b[x];
    if x in a || x in b {
      SplitHash(dir, dirBits, bk, chains, f, e, bk2, chains2, lo, hi, dir2, x);
    }
  }

  lemma SplitOwn(bk: Buckets, bk2: Buckets, chains: map<nat, Chain>, f: nat, lo: nat, hi: nat, bits: nat,
                 loAt: seq<nat>, hiAt: seq<nat>)
    requires Same(bk, bk2) && Part(bk2, bk, lo, bits, loAt) && Part(bk2, bk, hi, bits, hiAt)
    ensures Untouched(bk, bk2, chains) && OwnOrNew(bk, chains, AddChain(AddChain(chains - {f}, lo, bits, loAt), hi, bits, hiAt))
  {
    var chains2 := AddChain(AddChain(chains - {f}, lo, bits, loAt), hi, bits, hiAt);
    forall x | InChains(chains2, x) && x in bk ensures InChains(chains, x) {
      var g :| g in chains2 && x in chains2[g].at;
      assert g in chains && chains2[g] == chains[g];
    }
  }

  // ------------------------------------------------------------------ visiting every entry

  /** The directory index at which an entry's chain is visited: the one without higher bits. */
  ghost function Home(dir: seq<nat>, chains: map<nat, Chain>, e: Entry): nat
    requires |dir| > 0
  {
    var f := dir[e.hash % |dir|];
    if f in chains then e.hash % Pow2(chains[f].bits) else 0
  }

  ghost predicate VisitedBelow(dir: seq<nat>, chains: map<nat, Chain>, items: multiset<Entry>, v: multiset<Entry>, j: nat) {
    |dir| > 0 && forall e: Entry :: v[e] == if Home(dir, chains, e) < j then items[e] else 0
  }

  lemma NoneVisited(dir: seq<nat>, chains: map<nat, Chain>, items: multiset<Entry>)
    requires |dir| > 0
    ensures VisitedBelow(dir, chains, items, multiset([]), 0)
  {
  }

  lemma NoChainItems(bk: Buckets, ch: seq<nat>)
    ensures ChainItems(bk, ch[..0]) == multiset{}
  {
  }

  ghost function VisitedAt(dir: seq<nat>, bk: Buckets, chains: map<nat, Chain>, j: nat): multiset<Entry>
    requires j < |dir|
  {
    if dir[j] in chains && j < Pow2(chains[dir[j]].bits) then ChainItems(bk, chains[dir[j]].at) else multiset{}
  }

  lemma VisitStep(dir: seq<nat>, dirBits: nat, bk: Buckets, chains: map<nat, Chain>, items: multiset<Entry>,
                  before: multiset<Entry>, after: multiset<Entry>, j: nat)
    requires TableOk(dir, dirBits, bk, chains, items) && j < |dir|
    requires VisitedBelow(dir, chains, items, before, j) && after == before + VisitedAt(dir, bk, chains, j)
    ensures VisitedBelow(dir, chains, items, after, j + 1)
  {
    hide TableOk, Home;
    forall e: Entry ensures after[e] == if Home(dir, chains, e) < j + 1 then items[e] else 0 {
      VisitedAtHome(dir, dirBits, bk, chains, items, j, e);
      assert after[e] == before[e] + VisitedAt(dir, bk, chains, j)[e];
    }
  }

  /** Index j contributes the entries whose home it is, and no others. */
  lemma VisitedAtHome(dir: seq<nat>, dirBits: nat, bk: Buckets, chains: map<nat, Chain>, items: multiset<Entry>, j: nat, e: Entry)
    requires TableOk(dir, dirBits, bk, chains, items) && j < |dir|
    ensures VisitedAt(dir, bk, chains, j)[e] == if Home(dir, chains, e) == j then items[e] else 0
  {
    var f, i := dir[e.hash % |dir|], e.hash % |dir|;
    assert items[e] == Found(dir, bk, chains, e);
    if VisitedAt(dir, bk, chains, j)[e] > 0 {
      assert dir[j] != 0;
      Reaches(dir, dirBits, bk, chains, dir[j], e);
      assert SharedOk(dir, dirBits, bk, chains, j);
      ModSmall(j, Pow2(chains[f].bits));
    }
    if f in chains && Home(dir, chains, e) == j {
      assert f != 0;
      assert SharedOk(dir, dirBits, bk, chains, i);
      IndexCongruent(e.hash, chains[f].bits, dirBits);
      ModSmall(j, Pow2(chains[f].bits));
      assert Congruent(j, i, chains[f].bits);
      assert dir[j] == f;
    }
  }

  lemma AllVisited(dir: seq<nat>, dirBits: nat, bk: Buckets, chains: map<nat, Chain>, items: multiset<Entry>, v: multiset<Entry>)
    requires TableOk(dir, dirBits, bk, chains, items) && VisitedBelow(dir, chains, items, v, |dir|)
    ensures v == items
  {
    hide TableOk, Home;
    forall e: Entry ensures v[e] == items[e] {
      HomeInRange(dir, dirBits, bk, chains, items, e);
    }
  }

  lemma HomeInRange(dir: seq<nat>, dirBits: nat, bk: Buckets, chains: map<nat, Chain>, items: multiset<Entry>, e: Entry)
    requires TableOk(dir, dirBits, bk, chains, items)
    ensures |dir| > 0 && Home(dir, chains, e) < |dir|
  {
    var f := dir[e.hash % |dir|];
    if f in chains {
      assert f != 0;
      assert SharedOk(dir, dirBits, bk, chains, e.hash % |dir|);
      LowBitsSmall(e.hash, chains[f].bits, dirBits);
    }
  }

  lemma LowBitsSmall(h: nat, b: nat, d: nat)
    requires b <= d
    ensures h % Pow2(b) < Pow2(d)
  {
    Pow2Sum(b, d - b);
    DivIs(h, Pow2(b));
    Multiple(Pow2(d - b), Pow2(b));
  }

  lemma EmptyTable(dir: seq<nat>, dirBits: nat, bk: Buckets)
    requires |dir| == Pow2(dirBits) && forall i: nat | i < |dir| :: dir[i] == 0
    ensures TableOk(dir, dirBits, bk, map[], multiset{})
  {
  }

  // ------------------------------------------------------------------ tables in one heap

  /** Whatever is done outside its own buckets, a table keeps its entries. */
  lemma OtherTable(dir: seq<nat>, dirBits: nat, bk: Buckets, bk2: Buckets, chains: map<nat, Chain>, items: multiset<Entry>)
    requires TableOk(dir, dirBits, bk, chains, items)
    requires forall a | InChains(chains, a) && a in bk :: a in bk2 && bk2[a] == bk[a]
    ensures TableOk(dir, dirBits, bk2, chains, items)
  {
    hide ChainOk, DirOk, Holds, ChainItems;
    forall f | f in chains
      ensures ChainOk(bk2, f, chains[f].bits, chains[f].at) && ItemsOf(bk2, chains, f) == ItemsOf(bk, chains, f)
    {
      AllIn(bk, f, chains[f].bits, chains[f].at);
      assert forall a | a in chains[f].at :: InChains(chains, a);
      SameChain(bk, bk2, f, chains[f].bits, chains[f].at);
      ChainFrame(bk, bk2, chains[f].at);
    }
    SameItems(dir, dirBits, bk, bk2, chains, items);
  }

  lemma SameItems(dir: seq<nat>, dirBits: nat, bk: Buckets, bk2: Buckets, chains: map<nat, Chain>, items: multiset<Entry>)
    requires DirOk(dir, dirBits, bk, chains) && Holds(dir, bk, chains, items)
    requires forall f | f in chains :: ItemsOf(bk2, chains, f) == ItemsOf(bk, chains, f)
    ensures DirOk(dir, dirBits, bk2, chains) && Holds(dir, bk2, chains, items)
  {
    hide ChainItems;
    forall i: nat | i < |dir| && dir[i] != 0 ensures SharedOk(dir, dirBits, bk2, chains, i) {
      assert SharedOk(dir, dirBits, bk, chains, i);
    }
    forall e: Entry ensures items[e] == Found(dir, bk2, chains, e) {
      assert items[e] == Found(dir, bk, chains, e);
    }
  }

  /** Two tables without a bucket in common do not see each other's operations. */
  lemma TablesAreIndependent(dir: seq<nat>, dirBits: nat, bk: Buckets, bk2: Buckets, chains: map<nat, Chain>, items: multiset<Entry>,
                             chainsB: map<nat, Chain>, chainsB2: map<nat, Chain>)
    requires TableOk(dir, dirBits, bk, chains, items)
    requires forall a :: !(InChains(chains, a) && InChains(chainsB, a))
    requires Untouched(bk, bk2, chainsB) && OwnOrNew(bk, chainsB, chainsB2)
    ensures TableOk(dir, dirBits, bk2, chains, items)
    ensures forall a :: !(InChains(chains, a) && InChains(chainsB2, a))
  {
    hide InChains;
    OtherTable(dir, dirBits, bk, bk2, chains, items);
    forall a ensures !(InChains(chains, a) && InChains(chainsB2, a)) {
      if InChains(chains, a) && InChains(chainsB2, a) {
        BucketExists(bk, chains, a);
      }
    }
  }

  lemma BucketExists(bk: Buckets, chains: map<nat, Chain>, a: nat)
    requires ChainsOk(bk, chains) && InChains(chains, a)
    ensures a in bk
  {
    var f :| f in chains && a in chains[f].at;
    AllIn(bk, f, chains[f].bits, chains[f].at);
  }

  // ------------------------------------------------------------------ copying

  ghost predicate SameSharing(dir: seq<nat>, dst: seq<nat>) {
    && |dir| == |dst|
    && (forall i: nat | i < |dir| :: dst[i] == 0 <==> dir[i] == 0)
    && (forall i: nat, j: nat | i < |dir| && j < |dir| :: dst[i] == dst[j] <==> dir[i] == dir[j])
  }

  /** ch2 is a chain of new buckets with the contents of ch. */
  ghost predicate CopyOf(bk0: Buckets, bk: Buckets, ch: seq<nat>, c: nat, bits: nat, ch2: seq<nat>) {
    && ChainOk(bk, c, bits, ch2) && |ch2| == |ch| && (forall a | a in ch2 :: a !in bk0)
    && (forall i: nat | i < |ch| :: ch[i] in bk0 && ch2[i] in bk && bk[ch2[i]].slots == bk0[ch[i]].slots)
  }

  lemma CopyItems(bk0: Buckets, bk: Buckets, ch: seq<nat>, c: nat, bits: nat, ch2: seq<nat>)
    requires CopyOf(bk0, bk, ch, c, bits, ch2)
    ensures ChainItems(bk, ch2) == ChainItems(bk0, ch)
  {
    Parallel(bk0, bk, ch, ch2);
  }

  lemma {:induction false} Parallel(bk0: Buckets, bk: Buckets, ch: seq<nat>, ch2: seq<nat>)
    requires |ch2| == |ch|
    requires forall i: nat | i < |ch| :: ch[i] in bk0 && ch2[i] in bk && bk[ch2[i]].slots == bk0[ch[i]].slots
    ensures ChainItems(bk, ch2) == ChainItems(bk0, ch)
  {
    if ch != [] { Parallel(bk0, bk, ch[..|ch| - 1], ch2[..|ch| - 1]); }
  }

  lemma FirstBucket(bk: Buckets, first: nat, bits: nat, ch: seq<nat>)
    requires ChainOk(bk, first, bits, ch)
    ensures ch != [] && first in bk && ch[0] == first && bk[first].overflow == At(ch, 1) && BucketOk(bk[first], bits)
    ensures At(ch, 1) != 0 <==> |ch| > 1
  {
    assert BucketOk(bk[ch[0]], bits) && bk[ch[0]].overflow == At(ch, 0 + 1);
  }

  lemma RestOfChain(bk0: Buckets, bk1: Buckets, first: nat, bits: nat, ch: seq<nat>)
    requires ChainOk(bk0, first, bits, ch) && |ch| > 1 && Same(bk0, bk1)
    ensures ChainOk(bk1, ch[1], bits, ch[1..])
  {
    AllIn(bk0, first, bits, ch);
    SameChain(bk0, bk1, first, bits, ch);
    var r := ch[1..];
    forall i: nat | i < |r| ensures r[i] != 0 && r[i] in bk1 && BucketOk(bk1[r[i]], bits) && bk1[r[i]].overflow == At(r, i + 1) {
      assert r[i] == ch[i + 1] && bk1[ch[i + 1]].overflow == At(ch, i + 1 + 1);
    }
  }

  lemma OneCopied(bk0: Buckets, bk1: Buckets, ch: seq<nat>, c: nat, bits: nat)
    requires |ch| == 1 && ch[0] in bk0 && c !in bk0 && c != 0 && bk1 == bk0[c := bk0[ch[0]]]
    requires BucketOk(bk0[ch[0]], bits) && bk0[ch[0]].overflow == 0
    ensures CopyOf(bk0, bk1, ch, c, bits, [c]) && Same(bk0, bk1)
  {
  }

  lemma LinkCopy(bk0: Buckets, bk1: Buckets, bk2: Buckets, bk3: Buckets, ch: seq<nat>, c: nat, bits: nat, n: nat, rest: seq<nat>)
    requires |ch| > 1 && ch[0] in bk0 && c !in bk0 && c != 0 && bk1 == bk0[c := bk0[ch[0]]] && BucketOk(bk0[ch[0]], bits)
    requires forall a | a in ch :: a in bk0
    requires CopyOf(bk1, bk2, ch[1..], n, bits, rest) && Same(bk1, bk2)
    requires c in bk2 && bk3 == bk2[c := bk2[c].(overflow := n)]
    ensures CopyOf(bk0, bk3, ch, c, bits, [c] + rest) && Same(bk0, bk3)
  {
    var ch2 := [c] + rest;
    RestFacts(bk1, bk2, ch[1..], n, bits, rest);
    hide CopyOf;
    forall i: nat | i < |ch2| ensures LinkedAt(bk0, bk3, ch, ch2, bits, i) {
      if i > 0 {
        LinkCopyAt(bk0, bk1, bk2, bk3, ch, c, bits, n, rest, i - 1);
      }
    }
    LinkedIsCopy(bk0, bk3, ch, ch2, bits, c);
  }

  ghost predicate LinkedAt(bk0: Buckets, bk3: Buckets, ch: seq<nat>, ch2: seq<nat>, bits: nat, i: nat) {
    && i < |ch| && i < |ch2|
    && ch2[i] != 0 && ch2[i] in bk3 && ch2[i] !in bk0 && BucketOk(bk3[ch2[i]], bits) && bk3[ch2[i]].overflow == At(ch2, i + 1)
    && ch[i] in bk0 && bk3[ch2[i]].slots == bk0[ch[i]].slots
  }

  lemma LinkedIsCopy(bk0: Buckets, bk3: Buckets, ch: seq<nat>, ch2: seq<nat>, bits: nat, c: nat)
    requires |ch2| == |ch| > 0 && ch2[0] == c && Distinct(ch2)
    requires forall i: nat | i < |ch2| :: LinkedAt(bk0, bk3, ch, ch2, bits, i)
    ensures CopyOf(bk0, bk3, ch, c, bits, ch2)
  {
    forall i: nat | i < |ch2|
      ensures ch2[i] in bk3 && ch2[i] != 0 && ch2[i] !in bk0 && BucketOk(bk3[ch2[i]], bits) && bk3[ch2[i]].overflow == At(ch2, i + 1)
      ensures ch[i] in bk0 && bk3[ch2[i]].slots == bk0[ch[i]].slots
    {
      assert LinkedAt(bk0, bk3, ch, ch2, bits, i);
    }
    hide BucketOk;
  }

  lemma RestFacts(bk1: Buckets, bk2: Buckets, ch: seq<nat>, n: nat, bits: nat, rest: seq<nat>)
    requires CopyOf(bk1, bk2, ch, n, bits, rest)
    ensures rest != [] && rest[0] == n != 0 && Distinct(rest) && |rest| == |ch| && forall a | a in rest :: a !in bk1
  {
  }

  lemma LinkCopyAt(bk0: Buckets, bk1: Buckets, bk2: Buckets, bk3: Buckets, ch: seq<nat>, c: nat, bits: nat, n: nat, rest: seq<nat>, k: nat)
    requires |ch| > 1 && c !in bk0 && bk1.Keys == bk0.Keys + {c} && (forall a | a in bk0 :: bk1[a] == bk0[a])
    requires forall a | a in ch :: a in bk0
    requires CopyOf(bk1, bk2, ch[1..], n, bits, rest) && k < |rest|
    requires c in bk2 && bk3 == bk2[c := bk2[c].(overflow := n)]
    ensures LinkedAt(bk0, bk3, ch, [c] + rest, bits, k + 1)
  {
    assert rest[k] in rest && ch[1..][k] == ch[k + 1] && ch[k + 1] in ch;
    assert BucketOk(bk2[rest[k]], bits) && bk2[rest[k]].overflow == At(rest, k + 1);
    hide ChainOk, BucketOk;
    assert bk3[rest[k]] == bk2[rest[k]];
  }

  /** The first j directory slots have been copied; cp sends the chains met so far to their copies. */
  ghost predicate Copied(bk0: Buckets, bk: Buckets, dir: seq<nat>, chains: map<nat, Chain>, dst: seq<nat>,
                         cp: map<nat, nat>, chains2: map<nat, Chain>, j: nat) {
    && Same(bk0, bk) && |dst| == j <= |dir| && 0 !in cp
    && (forall t: nat | t < j :: if dir[t] == 0 then dst[t] == 0 else dir[t] in cp && dst[t] == cp[dir[t]])
    && (forall f | f in cp :: CopyEntry(bk0, bk, dir, chains, cp, chains2, f, j))
    && (forall f, g, a | f in cp && g in cp && f != g && cp[f] in chains2 && cp[g] in chains2 && a in chains2[cp[f]].at :: a !in chains2[cp[g]].at)
    && chains2.Keys == cp.Values
  }

  ghost predicate CopyEntry(bk0: Buckets, bk: Buckets, dir: seq<nat>, chains: map<nat, Chain>,
                            cp: map<nat, nat>, chains2: map<nat, Chain>, f: nat, j: nat)
    requires f in cp
  {
    && f in chains && cp[f] in chains2 && chains2[cp[f]].bits == chains[f].bits && cp[f] != 0
    && CopyOf(bk0, bk, chains[f].at, cp[f], chains[f].bits, chains2[cp[f]].at)
    && (exists t: nat :: t < j && t < |dir| && dir[t] == f)
  }

  lemma NoneCopied(bk0: Buckets, dir: seq<nat>, chains: map<nat, Chain>)
    ensures Copied(bk0, bk0, dir, chains, [], map[], map[], 0)
  {
  }

  lemma CopiedSame(bk0: Buckets, bk: Buckets, dir: seq<nat>, chains: map<nat, Chain>, dst: seq<nat>,
                   cp: map<nat, nat>, chains2: map<nat, Chain>, j: nat)
    requires Copied(bk0, bk, dir, chains, dst, cp, chains2, j)
    ensures Same(bk0, bk) && |dst| == j
  {
  }

  lemma LongerCopied(bk0: Buckets, bk: Buckets, dir: seq<nat>, chains: map<nat, Chain>, dst: seq<nat>,
                     cp: map<nat, nat>, chains2: map<nat, Chain>, j: nat, v: nat)
    requires Copied(bk0, bk, dir, chains, dst, cp, chains2, j) && j < |dir|
    requires if dir[j] == 0 then v == 0 else dir[j] in cp && v == cp[dir[j]]
    ensures Copied(bk0, bk, dir, chains, dst + [v], cp, chains2, j + 1)
  {
    hide CopyOf;
    forall f | f in cp ensures CopyEntry(bk0, bk, dir, chains, cp, chains2, f, j + 1) {
      assert CopyEntry(bk0, bk, dir, chains, cp, chains2, f, j);
    }
  }

  lemma CopyNone(bk0: Buckets, bk: Buckets, dir: seq<nat>, chains: map<nat, Chain>, dst: seq<nat>,
                 cp: map<nat, nat>, chains2: map<nat, Chain>, j: nat)
    requires Copied(bk0, bk, dir, chains, dst, cp, chains2, j) && j < |dir| && dir[j] == 0
    ensures Copied(bk0, bk, dir, chains, dst + [0], cp, chains2, j + 1)
  {
    LongerCopied(bk0, bk, dir, chains, dst, cp, chains2, j, 0);
  }

  lemma OriginalChain(dir: seq<nat>, dirBits: nat, bk0: Buckets, bk: Buckets, chains: map<nat, Chain>, items: multiset<Entry>, j: nat)
    requires TableOk(dir, dirBits, bk0, chains, items) && j < |dir| && dir[j] != 0 && Same(bk0, bk)
    ensures dir[j] in chains && dir[j] in bk && bk[dir[j]].bits == chains[dir[j]].bits
    ensures ChainOk(bk, dir[j], chains[dir[j]].bits, chains[dir[j]].at)
  {
    var f := dir[j];
    assert SharedOk(dir, dirBits, bk0, chains, j);
    AllIn(bk0, f, chains[f].bits, chains[f].at);
    SameChain(bk0, bk, f, chains[f].bits, chains[f].at);
    FirstBucket(bk, f, chains[f].bits, chains[f].at);
  }

  lemma ChainBuckets(dir: seq<nat>, dirBits: nat, bk: Buckets, chains: map<nat, Chain>, items: multiset<Entry>, f: nat)
    requires TableOk(dir, dirBits, bk, chains, items) && f in chains
    ensures forall a | a in chains[f].at :: a in bk
  {
    AllIn(bk, f, chains[f].bits, chains[f].at);
  }

  lemma SharedCopy(dir: seq<nat>, dirBits: nat, bk0: Buckets, bk: Buckets, chains: map<nat, Chain>, items: multiset<Entry>,
                   dst: seq<nat>, cp: map<nat, nat>, chains2: map<nat, Chain>, j: nat)
    requires TableOk(dir, dirBits, bk0, chains, items) && Copied(bk0, bk, dir, chains, dst, cp, chains2, j)
    requires j < |dir| && dir[j] in chains && j >= Pow2(chains[dir[j]].bits)
    ensures var t := j % Pow2(chains[dir[j]].bits);
      t < |dst| && Copied(bk0, bk, dir, chains, dst + [dst[t]], cp, chains2, j + 1)
  {
    var p := Pow2(chains[dir[j]].bits);
    var t := j % p;
    assert dir[j] != 0;
    assert SharedOk(dir, dirBits, bk0, chains, j);
    ModSmall(t, p);
    assert Congruent(t, j, chains[dir[j]].bits);
    assert dir[t] == dir[j];
    hide TableOk, CopyEntry, Same;
    LongerCopied(bk0, bk, dir, chains, dst, cp, chains2, j, dst[t]);
  }

  lemma FirstOccurrence(dir: seq<nat>, dirBits: nat, bk0: Buckets, bk: Buckets, chains: map<nat, Chain>, items: multiset<Entry>,
                        dst: seq<nat>, cp: map<nat, nat>, chains2: map<nat, Chain>, j: nat)
    requires TableOk(dir, dirBits, bk0, chains, items) && Copied(bk0, bk, dir, chains, dst, cp, chains2, j)
    requires j < |dir| && dir[j] in chains && j < Pow2(chains[dir[j]].bits)
    ensures dir[j] !in cp
  {
    var f := dir[j];
    assert f != 0;
    assert SharedOk(dir, dirBits, bk0, chains, j);
    forall t: nat | t < j ensures dir[t] != f {
      ModSmall(t, Pow2(chains[f].bits));
      ModSmall(j, Pow2(chains[f].bits));
      assert dir[t] == dir[j] <==> Congruent(t, j, chains[f].bits);
    }
    if f in cp {
      Occurs(bk0, bk, dir, chains, dst, cp, chains2, j, f);
    }
  }

  lemma Occurs(bk0: Buckets, bk: Buckets, dir: seq<nat>, chains: map<nat, Chain>, dst: seq<nat>,
               cp: map<nat, nat>, chains2: map<nat, Chain>, j: nat, f: nat)
    requires Copied(bk0, bk, dir, chains, dst, cp, chains2, j) && f in cp
    ensures exists t: nat :: t < j && t < |dir| && dir[t] == f
  {
    assert CopyEntry(bk0, bk, dir, chains, cp, chains2, f, j);
  }

  lemma NewCopy(bk0: Buckets, bk1: Buckets, bk2: Buckets, dir: seq<nat>, chains: map<nat, Chain>, dst: seq<nat>,
                cp: map<nat, nat>, chains2: map<nat, Chain>, j: nat, c: nat, bits: nat, at2: seq<nat>)
    requires Copied(bk0, bk1, dir, chains, dst, cp, chains2, j) && j < |dir| && dir[j] != 0 && dir[j] !in cp
    requires dir[j] in chains && bits == chains[dir[j]].bits && Same(bk1, bk2) && c != 0
    requires forall a | a in chains[dir[j]].at :: a in bk0
    requires CopyOf(bk1, bk2, chains[dir[j]].at, c, bits, at2)
    ensures Copied(bk0, bk2, dir, chains, dst + [c], cp[dir[j] := c], chains2[c := Chain(bits, at2)], j + 1)
  {
    hide CopyEntry, CopyOf, Same;
    var f0, cp2, chains3 := dir[j], cp[dir[j] := c], chains2[c := Chain(bits, at2)];
    SameTrans(bk0, bk1, bk2);
    Rebase(bk0, bk1, bk2, chains[f0].at, c, bits, at2);
    NewCopyFresh(bk0, bk1, bk2, dir, chains, cp, chains2, j, chains[f0].at, c, bits, at2);
    forall f | f in cp2 ensures CopyEntry(bk0, bk2, dir, chains, cp2, chains3, f, j + 1) {
      if f != f0 {
        KeepCopy(bk0, bk1, bk2, dir, chains, cp, chains2, cp2, chains3, f, j);
      } else {
        OneEntry(bk0, bk2, dir, chains, cp2, chains3, f, j);
      }
    }
    NewValues(cp, f0, c);
  }

  lemma NewValues(cp: map<nat, nat>, f: nat, c: nat)
    requires f !in cp
    ensures cp[f := c].Values == cp.Values + {c}
  {
    var cp2 := cp[f := c];
    assert forall g | g in cp :: cp2[g] == cp[g];
    assert cp2[f] == c;
  }

  lemma OneEntry(bk0: Buckets, bk: Buckets, dir: seq<nat>, chains: map<nat, Chain>,
                 cp: map<nat, nat>, chains2: map<nat, Chain>, f: nat, j: nat)
    requires f in cp && f in chains && cp[f] in chains2 && chains2[cp[f]].bits == chains[f].bits && cp[f] != 0
    requires CopyOf(bk0, bk, chains[f].at, cp[f], chains[f].bits, chains2[cp[f]].at) && j < |dir| && dir[j] == f
    ensures CopyEntry(bk0, bk, dir, chains, cp, chains2, f, j + 1)
  {
  }

  lemma SameTrans(a: Buckets, b: Buckets, c: Buckets)
    requires Same(a, b) && Same(b, c)
    ensures Same(a, c)
  {
  }

  lemma Rebase(bk0: Buckets, bk1: Buckets, bk2: Buckets, ch: seq<nat>, c: nat, bits: nat, at2: seq<nat>)
    requires Same(bk0, bk1) && CopyOf(bk1, bk2, ch, c, bits, at2) && forall a | a in ch :: a in bk0
    ensures CopyOf(bk0, bk2, ch, c, bits, at2)
  {
    forall i: nat | i < |ch| ensures ch[i] in bk0 && bk1[ch[i]] == bk0[ch[i]] {
      assert ch[i] in ch;
    }
  }

  lemma NewCopyFresh(bk0: Buckets, bk1: Buckets, bk2: Buckets, dir: seq<nat>, chains: map<nat, Chain>,
                     cp: map<nat, nat>, chains2: map<nat, Chain>, j: nat, ch: seq<nat>, c: nat, bits: nat, at2: seq<nat>)
    requires CopyOf(bk1, bk2, ch, c, bits, at2)
    requires (forall f | f in cp :: CopyEntry(bk0, bk1, dir, chains, cp, chains2, f, j)) && chains2.Keys == cp.Values
    ensures forall f | f in cp :: cp[f] in chains2 && forall a | a in chains2[cp[f]].at :: a !in at2
    ensures c !in chains2 && c in at2
  {
    assert at2[0] == c && c in at2 && c !in bk1;
    forall f | f in cp ensures cp[f] in chains2 && c != cp[f] && forall a | a in chains2[cp[f]].at :: a in bk1 && a !in at2 {
      assert CopyEntry(bk0, bk1, dir, chains, cp, chains2, f, j);
      var at := chains2[cp[f]].at;
      AllIn(bk1, cp[f], chains[f].bits, at);
      assert at[0] == cp[f] && cp[f] in at;
    }
  }

  lemma KeepCopy(bk0: Buckets, bk1: Buckets, bk2: Buckets, dir: seq<nat>, chains: map<nat, Chain>, cp: map<nat, nat>,
                 chains2: map<nat, Chain>, cp2: map<nat, nat>, chains3: map<nat, Chain>, f: nat, j: nat)
    requires f in cp && CopyEntry(bk0, bk1, dir, chains, cp, chains2, f, j) && Same(bk1, bk2)
    requires f in cp2 && cp2[f] == cp[f] && cp[f] in chains3 && chains3[cp[f]] == chains2[cp[f]]
    ensures CopyEntry(bk0, bk2, dir, chains, cp2, chains3, f, j + 1)
  {
    var at := chains2[cp[f]].at;
    AllIn(bk1, cp[f], chains[f].bits, at);
    SameChain(bk1, bk2, cp[f], chains[f].bits, at);
    forall i: nat | i < |chains[f].at| ensures bk2[at[i]].slots == bk0[chains[f].at[i]].slots {
      assert at[i] in at;
    }
  }

  lemma CopyDone(dir: seq<nat>, dirBits: nat, bk0: Buckets, bk: Buckets, chains: map<nat, Chain>, items: multiset<Entry>,
                 dst: seq<nat>, cp: map<nat, nat>, chains2: map<nat, Chain>)
    requires TableOk(dir, dirBits, bk0, chains, items) && Copied(bk0, bk, dir, chains, dst, cp, chains2, |dir|)
    ensures TableOk(dst, dirBits, bk, chains2, items) && TableOk(dir, dirBits, bk, chains, items)
    ensures SameSharing(dir, dst) && |dst| > 0
    ensures Same(bk0, bk) && forall a | InChains(chains2, a) :: a !in bk0
  {
    assert 0 !in chains && |dir| > 0;
    hide ChainsOk, DirOk, Holds, Copied;
    CopyChainsOk(bk0, bk, dir, chains, dst, cp, chains2);
    CopySharing(bk0, bk, dir, chains, dst, cp, chains2);
    CopyDir(dir, dirBits, bk0, bk, chains, dst, cp, chains2);
    CopyHolds(dir, bk0, bk, chains, items, dst, cp, chains2);
    CopiedSame(bk0, bk, dir, chains, dst, cp, chains2, |dir|);
    OtherTable(dir, dirBits, bk0, bk, chains, items);
  }

  /** What the copied directory leads to at each index. */
  lemma CopyAt(bk0: Buckets, bk: Buckets, dir: seq<nat>, chains: map<nat, Chain>, dst: seq<nat>,
               cp: map<nat, nat>, chains2: map<nat, Chain>, i: nat)
    requires Copied(bk0, bk, dir, chains, dst, cp, chains2, |dir|) && i < |dir| && 0 !in chains
    ensures |dst| == |dir| && (dst[i] == 0 <==> dir[i] == 0)
    ensures ItemsOf(bk, chains2, dst[i]) == ItemsOf(bk0, chains, dir[i])
    ensures dir[i] != 0 ==> dir[i] in chains && dst[i] in chains2 && chains2[dst[i]].bits == chains[dir[i]].bits
  {
    hide ChainItems, CopyOf;
    if dir[i] != 0 {
      var f := dir[i];
      assert CopyEntry(bk0, bk, dir, chains, cp, chains2, f, |dir|);
      CopyItems(bk0, bk, chains[f].at, cp[f], chains[f].bits, chains2[cp[f]].at);
    } else {
      assert 0 !in chains2 by {
        forall f | f in cp ensures cp[f] != 0 {
          assert CopyEntry(bk0, bk, dir, chains, cp, chains2, f, |dir|);
        }
      }
    }
  }

  lemma CopySharing(bk0: Buckets, bk: Buckets, dir: seq<nat>, chains: map<nat, Chain>, dst: seq<nat>,
                    cp: map<nat, nat>, chains2: map<nat, Chain>)
    requires Copied(bk0, bk, dir, chains, dst, cp, chains2, |dir|)
    ensures SameSharing(dir, dst)
  {
    hide CopyOf;
    forall f, g | f in cp && g in cp && f != g ensures cp[f] != cp[g] && cp[f] != 0 {
      Injective(bk0, bk, dir, chains, dst, cp, chains2, f, g);
    }
    forall f | f in cp ensures cp[f] != 0 {
      assert CopyEntry(bk0, bk, dir, chains, cp, chains2, f, |dir|);
    }
  }

  lemma Injective(bk0: Buckets, bk: Buckets, dir: seq<nat>, chains: map<nat, Chain>, dst: seq<nat>,
                  cp: map<nat, nat>, chains2: map<nat, Chain>, f: nat, g: nat)
    requires Copied(bk0, bk, dir, chains, dst, cp, chains2, |dir|) && f in cp && g in cp && f != g
    ensures cp[f] != cp[g] && cp[f] != 0
  {
    assert CopyEntry(bk0, bk, dir, chains, cp, chains2, f, |dir|);
    assert CopyEntry(bk0, bk, dir, chains, cp, chains2, g, |dir|);
    assert chains2[cp[f]].at[0] == cp[f] && cp[f] in chains2[cp[f]].at;
  }

  lemma CopyChainsOk(bk0: Buckets, bk: Buckets, dir: seq<nat>, chains: map<nat, Chain>, dst: seq<nat>,
                     cp: map<nat, nat>, chains2: map<nat, Chain>)
    requires Copied(bk0, bk, dir, chains, dst, cp, chains2, |dir|)
    ensures ChainsOk(bk, chains2) && forall a | InChains(chains2, a) :: a !in bk0
  {
    hide ChainOk;
    forall c | c in chains2
      ensures c != 0 && ChainOk(bk, c, chains2[c].bits, chains2[c].at) && forall a | a in chains2[c].at :: a !in bk0
    {
      var f :| f in cp && cp[f] == c;
      assert CopyEntry(bk0, bk, dir, chains, cp, chains2, f, |dir|);
    }
    forall c, d, a | c in chains2 && d in chains2 && c != d && a in chains2[c].at ensures a !in chains2[d].at {
      var f :| f in cp && cp[f] == c;
      var g :| g in cp && cp[g] == d;
      assert f != g;
    }
  }

  lemma CopyDir(dir: seq<nat>, dirBits: nat, bk0: Buckets, bk: Buckets, chains: map<nat, Chain>,
                dst: seq<nat>, cp: map<nat, nat>, chains2: map<nat, Chain>)
    requires DirOk(dir, dirBits, bk0, chains) && 0 !in chains && Copied(bk0, bk, dir, chains, dst, cp, chains2, |dir|)
    requires SameSharing(dir, dst)
    ensures DirOk(dst, dirBits, bk, chains2)
  {
    hide Copied, ItemsOf;
    forall i: nat | i < |dst| && dst[i] != 0 ensures SharedOk(dst, dirBits, bk, chains2, i) {
      CopyAt(bk0, bk, dir, chains, dst, cp, chains2, i);
      assert SharedOk(dir, dirBits, bk0, chains, i);
    }
    forall c | c in chains2 ensures c in dst {
      CopyListed(bk0, bk, dir, chains, dst, cp, chains2, c);
    }
  }

  lemma CopyListed(bk0: Buckets, bk: Buckets, dir: seq<nat>, chains: map<nat, Chain>, dst: seq<nat>,
                   cp: map<nat, nat>, chains2: map<nat, Chain>, c: nat)
    requires Copied(bk0, bk, dir, chains, dst, cp, chains2, |dir|) && c in chains2
    ensures c in dst
  {
    var f :| f in cp && cp[f] == c;
    assert CopyEntry(bk0, bk, dir, chains, cp, chains2, f, |dir|);
    var t: nat :| t < |dir| && dir[t] == f;
    assert dst[t] == c;
  }

  lemma CopyHolds(dir: seq<nat>, bk0: Buckets, bk: Buckets, chains: map<nat, Chain>, items: multiset<Entry>,
                  dst: seq<nat>, cp: map<nat, nat>, chains2: map<nat, Chain>)
    requires Holds(dir, bk0, chains, items) && 0 !in chains && Copied(bk0, bk, dir, chains, dst, cp, chains2, |dir|)
    ensures Holds(dst, bk, chains2, items)
  {
    hide Copied, ItemsOf;
    CopyAt(bk0, bk, dir, chains, dst, cp, chains2, 0);
    forall e: Entry ensures items[e] == Found(dst, bk, chains2, e) {
      CopyAt(bk0, bk, dir, chains, dst, cp, chains2, e.hash % |dir|);
      assert items[e] == Found(dir, bk0, chains, e);
    }
  }

  // ------------------------------------------------------------------ what goes wrong with #f

  /** In a chain without entries the scan for #f in an object table stops at an unused slot. */
  lemma AllUnused(dir: seq<nat>, dirBits: nat, bk: Buckets, chains: map<nat, Chain>, h: nat)
    requires TableOk(dir, dirBits, bk, chains, multiset{}) && |dir| > 0 && dir[h % |dir|] in chains
    ensures HitsUnused(false, h, False, bk, chains, dir[h % |dir|])
  {
    var f := dir[h % |dir|];
    assert ChainOk(bk, f, chains[f].bits, chains[f].at);
    assert BucketOk(bk[chains[f].at[0]], chains[f].bits);
    SlotInTable(dir, dirBits, bk, chains, multiset{}, h, 0, chains[f].at[0], 0);
    var x := bk[chains[f].at[0]].slots[0];
    HoldsItself(x);
    assert UnusedFirst(false, h, False, bk, chains[f].at, 0, 0);
  }

  lemma HoldsItself(x: Slot)
    ensures x.hash.Some? ==> exists e: Entry :: e in One(x)
  {
    if x.hash.Some? { assert Entry(x.hash.value, x.key, x.value) in One(x); }
  }

  /** The chain of an entry exists. */
  lemma EntryHasChain(dir: seq<nat>, bk: Buckets, chains: map<nat, Chain>, items: multiset<Entry>, e: Entry)
    requires Holds(dir, bk, chains, items) && e in items
    ensures dir[e.hash % |dir|] in chains
  {
    assert items[e] == Found(dir, bk, chains, e);
  }

  /** One entry installed in a new object table and removed again: then the table has no entries,
      but a probe for #f finds one; what is inserted under #f is found and is still no entry; and
      removing it leaves a table with no entries and a count of -1. */
  method FalseKeyIsMistaken() returns (t: HashTable, found: bool, got: Obj, gone: Obj)
    ensures fresh(t) && fresh(t.heap) && found && got == Item(3) && gone == Item(3)
    ensures t.Core() && t.items == multiset{} && t.count == -1
  {
    hide TableOk, HitsUnused, Leftover, Untouched, OwnOrNew;
    var heap := new Heap();
    t := new HashTable(heap, 0);
    t.Install(0, Item(1), Item(2));
    ghost var e := Entry(0, Item(1), Item(2));
    ghost var m := map[Item(1) := e];
    JustOne(e);
    NotMistaken(t, Item(1));
    FirstChain(t, e);
    var r := t.Remove(false, 0, Item(1));
    assert m - {Item(1)} == map[];
    NoEntries(t.items);
    NowMistaken(t);
    found := t.Probe(false, 0, False);
    r := t.Insert(false, 0, False, Item(3));
    got := t.Lookup(false, 0, False);
    gone := t.Remove(false, 0, False);
  }

  /** One more entry makes the count 0, and then clearing the table leaves the entry in it. */
  method ClearKeepsEntry() returns (t: HashTable)
    ensures t.Core() && t.count == 0 && t.items == multiset{Entry(0, Item(1), Item(2))}
  {
    hide TableOk, Untouched, OwnOrNew;
    var found, got, gone;
    t, found, got, gone := FalseKeyIsMistaken();
    t.Install(0, Item(1), Item(2));
    t.Clear();
  }

  lemma JustOne(e: Entry)
    ensures Represents(multiset{} + multiset{e}, map[e.key := e]) && HashedAs(map[e.key := e], e.key, e.hash)
  {
  }

  lemma NoEntries(items: multiset<Entry>)
    requires Represents(items, map[])
    ensures items == multiset{} && HashedAs(map[], False, 0)
  {
    forall e: Entry ensures items[e] == 0 {
    }
    assert forall e: Entry :: e !in items;
  }

  lemma NotMistaken(t: HashTable, key: Obj)
    requires t.Core() && key != False
    ensures !t.Mistakes(false, 0, key)
  {
    hide HitsUnused, ChainsOk;
    if t.Mistakes(false, 0, key) {
      OnlyFalseHitsUnused(false, 0, key, t.heap.buckets, t.chains, t.ReadDir(0));
    }
  }

  lemma FirstChain(t: HashTable, e: Entry)
    requires t.Core() && e in t.items && e.hash == 0
    ensures t.ReadDir(0) in t.chains
  {
    EntryHasChain(t.directory, t.heap.buckets, t.chains, t.items, e);
  }

  lemma NowMistaken(t: HashTable)
    requires t.Core() && t.items == multiset{} && t.ReadDir(0) in t.chains
    ensures t.Mistakes(false, 0, False)
  {
    AllUnused(t.directory, t.dirBits, t.heap.buckets, t.chains, 0);
  }
}
