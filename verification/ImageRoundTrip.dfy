/** Loading what was saved gives back the reachable graph: frame i is the object named i. */
module ImageRoundTrips {
  import opened Options
  import opened HeapImages
  import opened ImageTraversals
  import opened ImageNames
  import opened ImageFiles
  import opened ImageWriters
  import opened ImageSaves
  import Loaders = ImageLoaders

  ghost function IndexOf(order: seq<nat>, a: nat): (k: nat)
    requires a in order
    ensures k < |order| && order[k] == a
  {
    var k: nat :| k < |order| && order[k] == a;
    k
  }

  ghost function Indices(order: seq<nat>, ts: seq<nat>): seq<nat>
    requires forall a | a in ts :: a in order
  {
    seq(|ts|, i requires 0 <= i < |ts| => IndexOf(order, ts[i]))
  }

  /** What a word of the saved heap becomes in the loading heap: the loaded object of what the
      pointer stands for. */
  ghost function Phi(j: Job, order: seq<nat>, table: seq<Word>, w: Word): Word {
    if w.Ptr? && Rep(j, w.at) in order && IndexOf(order, Rep(j, w.at)) < |table| then table[IndexOf(order, Rep(j, w.at))] else w
  }

  /** Object k of the image in the loading heap. */
  ghost predicate SameObject(j: Job, order: seq<nat>, texts: seq<seq<byte>>, table: seq<Word>, heap: map<nat, Loaders.LObj>, base: nat,
                             refs: map<seq<byte>, Word>, intern: seq<byte> -> nat, k: nat)
    requires k < |order| == |table| && order[k] in j.h
  {
    var a := order[k];
    if a in j.refs then
      && k < |texts|
      && (texts[k] in refs ==> table[k] == refs[texts[k]])
      && (texts[k] !in refs ==> table[k] == Imm(2))
    else if Mode(j, a) == 2 then table[k] == Ptr(intern(TextOf(j.h, a)))
    else
      && table[k].Ptr? && table[k].at >= base && table[k].at in heap
      && heap[table[k].at].cls == Phi(j, order, table, Ptr(ClassOf(j, a)))
      && (if j.h[a].body.Bytes? then heap[table[k].at].body == j.h[a].body
          else
            && heap[table[k].at].body.Slots? && |heap[table[k].at].body.s| == |j.h[a].body.s|
            && forall i: nat | i < |j.h[a].body.s| ::
                 heap[table[k].at].body.s[i] == Phi(j, order, table, j.h[a].body.s[i]))
  }

  /** The loaded graph is the reachable graph of the save: references and symbols bound by name,
      every other object a new one of its own with the same contents. */
  ghost predicate Isomorphic(j: Job, root: Word, order: seq<nat>, texts: seq<seq<byte>>, table: seq<Word>, heap: map<nat, Loaders.LObj>,
                             base: nat, refs: map<seq<byte>, Word>, intern: seq<byte> -> nat, result: Word) {
    && |table| == |order| && result == Phi(j, order, table, root)
    && (forall k: nat | k < |order| :: order[k] in j.h && SameObject(j, order, texts, table, heap, base, refs, intern, k))
    && (forall i: nat, k: nat | i < k < |order| && IsNew(j, order[i]) && IsNew(j, order[k]) :: table[i] != table[k])
  }

  ghost predicate IsNew(j: Job, a: nat) { a !in j.refs && Mode(j, a) != 2 }

  /** Reachability closes the order, so that every pointer in it has a name. */
  ghost predicate Closed(j: Job, root: Word, order: seq<nat>) {
    && (root.Ptr? ==> Rep(j, root.at) in order)
    && forall a, t | a in order && Target(j, a, t) :: Rep(j, t) in order
  }

  lemma ReachedClosed(j: Job, root: Word, order: seq<nat>)
    requires forall a :: a in order <==> Reach(j, root, a)
    ensures Closed(j, root, order)
  {
    if root.Ptr? { assert ReachIn(j, root, Rep(j, root.at), 0); }
    forall a, t | a in order && Target(j, a, t) ensures Rep(j, t) in order {
      ReachStep(j, root, a, t);
    }
  }

  // ------------------------------------------------------------------ names in the file

  ghost predicate NotReplaced(j: Job, order: seq<nat>) {
    forall a | a in order :: !Chained(j, a)
  }

  /** A pointer is written as the name of what it stands for. */
  lemma UnswizzleIs(j: Job, hn: Heap, order: seq<nat>, w: Word)
    requires HeapOk(j) && Named(j, hn, order) && |order| < 0x4000_0000 && NotReplaced(j, order) && Distinct(order)
    requires if w.Ptr? then w.at in j.h && Rep(j, w.at) in order else WordOk(w)
    ensures Unswizzle(hn, w) < WORD
    ensures RawWord(Unswizzle(hn, w)) == if w.Ptr? then Ptr(IndexOf(order, Rep(j, w.at))) else w
  {
    if w.Ptr? {
      var t := Rep(j, w.at);
      var k := IndexOf(order, t);
      assert t in j.h;
      NameOf(j, hn, order, k);
      ReplacementSeen(j, hn, order, w.at);
      hide NamedUpTo, HeapOk;
      assert Unswizzle(hn, w) == WordOf(Ptr(k));
      RawWordOf(Ptr(k));
    } else {
      RawWordOf(w);
    }
  }

  lemma ReplacementSeen(j: Job, hn: Heap, order: seq<nat>, a: nat)
    requires HeapOk(j) && Named(j, hn, order) && NotReplaced(j, order) && a in j.h
    ensures a in hn && Rep(j, a) == if hn[a].cls.Replaced? then hn[a].cls.rep else a
  {
    hide HeapOk;
    OrdinaryClass(j, a);
    if a in order {
      NameOf(j, hn, order, IndexOf(order, a));
      hide NamedUpTo;
    }
  }

  // ------------------------------------------------------------------ the frames

  ghost predicate Setting(j: Job, root: Word, hn: Heap, order: seq<nat>, texts: seq<seq<byte>>, hash: seq<byte> -> nat) {
    WriterOk(j, hn, order, texts, hash) && NotReplaced(j, order) && Closed(j, root, order)
  }

  lemma ClassReached(j: Job, root: Word, order: seq<nat>, a: nat)
    requires OrderOk(j, order) && NotReplaced(j, order) && Closed(j, root, order) && a in order && a in j.h && a !in j.refs && ScansClass(Mode(j, a))
    ensures ClassOf(j, a) in j.h && Rep(j, ClassOf(j, a)) in order && j.h[a].cls == Class(ClassOf(j, a))
  {
    assert ObjOk(j, a);
    assert Target(j, a, ClassOf(j, a));
  }

  lemma SlotReached(j: Job, root: Word, order: seq<nat>, a: nat, i: nat)
    requires OrderOk(j, order) && NotReplaced(j, order) && Closed(j, root, order) && a in order && a in j.h && a !in j.refs && ScansSlots(Mode(j, a))
    requires j.h[a].body.Slots? && i < |j.h[a].body.s| && j.h[a].body.s[i].Ptr?
    ensures j.h[a].body.s[i].at in j.h && Rep(j, j.h[a].body.s[i].at) in order
  {
    assert ObjOk(j, a);
    assert Ptr(j.h[a].body.s[i].at) in j.h[a].body.s;
    assert Target(j, a, j.h[a].body.s[i].at);
  }

  /** The shape of a new object, by its mode. */
  lemma NewShape(j: Job, a: nat)
    requires a in j.h && IsNew(j, a) && ObjOk(j, a) && SizeOk(j, a)
    ensures Mode(j, a) == 0 || Mode(j, a) == 1 || Mode(j, a) == 5
    ensures ScansClass(Mode(j, a)) && (j.h[a].body.Bytes? ==> Mode(j, a) == 1) && (Mode(j, a) == 1 <==> j.h[a].body.Bytes?)
    ensures j.h[a].body.Slots? ==> ScansSlots(Mode(j, a))
  {
  }

  /** The raw object of a frame names exactly what the saved object points to. */
  lemma RawIs(j: Job, root: Word, hn: Heap, order: seq<nat>, texts: seq<seq<byte>>, hash: seq<byte> -> nat, a: nat)
    requires Setting(j, root, hn, order, texts, hash) && a in order && a in j.h && IsNew(j, a)
    ensures ClassOf(j, a) in j.h && Rep(j, ClassOf(j, a)) in order
    ensures var f := FrameFor(j, hn, texts, hash, a);
      && Loaders.IsArray(f) && (f.mode == LOAD1_ARRAY8 <==> Mode(j, a) == 1)
      && Loaders.RawObj(f).cls == Ptr(IndexOf(order, Rep(j, ClassOf(j, a))))
      && (if j.h[a].body.Bytes? then Loaders.RawObj(f).body == j.h[a].body
          else SlotsNamed(j, order, j.h[a].body.s, Loaders.RawObj(f).body))
  {
    var f := FrameFor(j, hn, texts, hash, a);
    FrameForOk(j, hn, order, texts, hash, a);
    BodyOf(j, hn, order, a);
    NewShape(j, a);
    ClassReached(j, root, order, a);
    assert f == FrameOf(hn, texts, hash, a, OrigOf(j, a), QueueOf(j, a)) && OrigOf(j, a) == Class(ClassOf(j, a));
    UnswizzleIs(j, hn, order, Ptr(ClassOf(j, a)));
    if j.h[a].body.Slots? {
      RawSlotsAre(j, root, hn, order, texts, hash, a);
    }
    hide Setting, HeapOk, Mode, Unswizzle, SlotWords, EncWords, SlotsNamed;
  }

  /** Names where there were pointers, everything else the same. */
  ghost predicate SlotsNamed(j: Job, order: seq<nat>, s: seq<Word>, body: Body) {
    && body.Slots? && |body.s| == |s|
    && forall i: nat | i < |s| :: SlotNamed(j, order, s[i], body.s[i])
  }

  ghost predicate SlotNamed(j: Job, order: seq<nat>, w: Word, v: Word) {
    if w.Ptr? then Rep(j, w.at) in order && v == Ptr(IndexOf(order, Rep(j, w.at))) else v == w
  }

  lemma RawSlotsAre(j: Job, root: Word, hn: Heap, order: seq<nat>, texts: seq<seq<byte>>, hash: seq<byte> -> nat, a: nat)
    requires Setting(j, root, hn, order, texts, hash) && a in order && a in j.h && IsNew(j, a) && j.h[a].body.Slots?
    ensures Words32(SlotWords(hn, j.h[a].body.s))
    ensures SlotsNamed(j, order, j.h[a].body.s, Slots(Loaders.RawSlots(EncWords(SlotWords(hn, j.h[a].body.s)))))
  {
    NewShape(j, a);
    SlotWordsOk(j, hn, order, a);
    var s := j.h[a].body.s;
    var ws := SlotWords(hn, s);
    assert SizeOk(j, a);
    hide HeapOk, Named, WriterOk, Closed, EncWords, Unswizzle, Mode;
    hide Setting, SlotNamed, Dec32, RawWord;
    var raw := Loaders.RawSlots(EncWords(ws));
    forall i: nat | i < |s| ensures SlotNamed(j, order, s[i], raw[i]) {
      WordAt(ws, i);
      OneSlot(j, root, hn, order, texts, hash, a, i);
    }
  }

  lemma OneSlot(j: Job, root: Word, hn: Heap, order: seq<nat>, texts: seq<seq<byte>>, hash: seq<byte> -> nat, a: nat, i: nat)
    requires Setting(j, root, hn, order, texts, hash) && a in order && a in j.h && IsNew(j, a) && j.h[a].body.Slots?
    requires i < |j.h[a].body.s|
    ensures SlotNamed(j, order, j.h[a].body.s[i], RawWord(Unswizzle(hn, j.h[a].body.s[i])))
  {
    NewShape(j, a);
    assert SizeOk(j, a);
    hide HeapOk, Closed, Named, Mode, Unswizzle, RawWord, SlotNamed;
    if j.h[a].body.s[i].Ptr? { SlotReached(j, root, order, a, i); }
    SlotUnswizzled(j, root, hn, order, texts, hash, j.h[a].body.s[i]);
  }

  lemma SlotUnswizzled(j: Job, root: Word, hn: Heap, order: seq<nat>, texts: seq<seq<byte>>, hash: seq<byte> -> nat, w: Word)
    requires Setting(j, root, hn, order, texts, hash)
    requires if w.Ptr? then w.at in j.h && Rep(j, w.at) in order else WordOk(w)
    ensures SlotNamed(j, order, w, RawWord(Unswizzle(hn, w)))
  {
    hide HeapOk, Closed, Named;
    UnswizzleIs(j, hn, order, w);
  }

  // ------------------------------------------------------------------ from the loaded table to the graph

  /** Swizzling the names of an object gives the loaded objects of what it points to. */
  lemma SwzNamed(j: Job, order: seq<nat>, table: seq<Word>, w: Word, v: Word)
    requires |table| == |order| && SlotNamed(j, order, w, v) && (w.Imm? || Rep(j, w.at) in order)
    ensures Loaders.Swz(table, v) == Phi(j, order, table, w)
  {
  }

  lemma FrameKinds(j: Job, root: Word, hn: Heap, order: seq<nat>, texts: seq<seq<byte>>, hash: seq<byte> -> nat, a: nat)
    requires Setting(j, root, hn, order, texts, hash) && a in order && a in j.h
    ensures var f := FrameFor(j, hn, texts, hash, a);
      && Loaders.KnownMode(f) && (Loaders.IsArray(f) <==> IsNew(j, a))
      && (a in j.refs ==> f.mode == LOAD1_REF && f.payload == RefText(hn, texts, a))
      && (a !in j.refs && Mode(j, a) == 2 ==> f.mode == LOAD1_SYMBOL && f.payload == TextOf(j.h, a))
  {
    if IsNew(j, a) {
      RawIs(j, root, hn, order, texts, hash, a);
    } else {
      FrameForOk(j, hn, order, texts, hash, a);
      TextFits(j, hn, order, a);
      hide Setting, Mode, TextOf, RefText, SlotWords;
    }
  }

  lemma OneObject(j: Job, root: Word, hn: Heap, order: seq<nat>, texts: seq<seq<byte>>, hash: seq<byte> -> nat,
                  names: seq<nat>, table: seq<Word>, heap: map<nat, Loaders.LObj>, base: nat,
                  refs: map<seq<byte>, Word>, intern: seq<byte> -> nat, k: nat)
    requires Setting(j, root, hn, order, texts, hash) && k < |order| && order[k] in j.h
    requires Loaders.Loaded(FramesFor(j, hn, texts, hash, order), names, table, heap, base, refs, intern)
    requires IsNew(j, order[k]) ==> k in names
    ensures |table| == |order| && SameObject(j, order, texts, table, heap, base, refs, intern, k)
  {
    var a, fs := order[k], FramesFor(j, hn, texts, hash, order);
    FrameKinds(j, root, hn, order, texts, hash, a);
    assert fs[k] == FrameFor(j, hn, texts, hash, a);
    assert Loaders.ItemOk(fs[k], table[k], heap, base, refs, intern);
    if IsNew(j, a) {
      NewObject(j, root, hn, order, texts, hash, names, table, heap, base, refs, intern, k);
    } else if a in j.refs {
      RefNamed(j, hn, order, texts, hash, k);
      hide Setting, FrameFor, Loaders.Loaded, Phi, RefText, TextOf;
    } else {
      hide Setting, FrameFor, Loaders.Loaded, Phi, RefText, TextOf;
    }
  }

  lemma RefNamed(j: Job, hn: Heap, order: seq<nat>, texts: seq<seq<byte>>, hash: seq<byte> -> nat, k: nat)
    requires WriterOk(j, hn, order, texts, hash) && k < |order| && order[k] in j.refs && order[k] in j.h
    ensures k < |texts| && RefText(hn, texts, order[k]) == texts[k]
  {
    hide HeapOk;
    NameOf(j, hn, order, k);
  }

  lemma NewObject(j: Job, root: Word, hn: Heap, order: seq<nat>, texts: seq<seq<byte>>, hash: seq<byte> -> nat,
                  names: seq<nat>, table: seq<Word>, heap: map<nat, Loaders.LObj>, base: nat,
                  refs: map<seq<byte>, Word>, intern: seq<byte> -> nat, k: nat)
    requires Setting(j, root, hn, order, texts, hash) && k < |order| && order[k] in j.h && IsNew(j, order[k]) && k in names
    requires Loaders.Loaded(FramesFor(j, hn, texts, hash, order), names, table, heap, base, refs, intern)
    ensures |table| == |order| && SameObject(j, order, texts, table, heap, base, refs, intern, k)
  {
    hide Setting, FrameFor, Loaders.RawObj, Mode, Phi;
    var a, fs := order[k], FramesFor(j, hn, texts, hash, order);
    RawIs(j, root, hn, order, texts, hash, a);
    assert Loaders.ItemOk(fs[k], table[k], heap, base, refs, intern);
    var x := Loaders.RawObj(fs[k]);
    assert heap[table[k].at] == Loaders.SwzObj(table, x);
    SwzNamed(j, order, table, Ptr(ClassOf(j, a)), x.cls);
    if j.h[a].body.Slots? {
      forall i: nat | i < |j.h[a].body.s|
        ensures Loaders.Swz(table, x.body.s[i]) == Phi(j, order, table, j.h[a].body.s[i])
      {
        assert SlotNamed(j, order, j.h[a].body.s[i], x.body.s[i]);
        SwzNamed(j, order, table, j.h[a].body.s[i], x.body.s[i]);
      }
    }
  }

  // ------------------------------------------------------------------ the lists

  ghost function ListsOf(order: seq<nat>, qs: seq<SaveQueue>, n: nat): seq<seq<nat>>
    requires |qs| == QUEUES && forall i: nat, a | i < n && a in Cat(qs, QueuesOfMode(i)) :: a in order
  {
    seq(n, i requires 0 <= i < n => Indices(order, Cat(qs, QueuesOfMode(i))))
  }

  lemma {:induction false} CatIs(j: Job, start: Word, qs: seq<SaveQueue>, ms: seq<nat>)
    requires QueuesOk(j, start, qs) && |qs| == QUEUES && Distinct(ms) && forall m | m in ms :: m < QUEUES
    ensures Distinct(Cat(qs, ms)) && forall a :: a in Cat(qs, ms) <==> QueueOf(j, a) in ms && InQueue(j, qs, a)
  {
    hide Reach, InQueue, QueuesOk, QueueOf, Things;
    if ms != [] {
      var n := |ms| - 1;
      assert ms[n] in ms;
      assert forall m | m in ms[..n] :: m in ms;
      CatIs(j, start, qs, ms[..n]);
      ThingsAre(j, start, qs, ms[n]);
      assert ms == ms[..n] + [ms[n]];
      assert ms[n] !in ms[..n];
      DistinctConcat(Cat(qs, ms[..n]), Things(qs[ms[n]]));
    }
  }

  ghost predicate ModeListed(m: nat, i: nat) { exists k: nat :: k < i && m in QueuesOfMode(k) }

  lemma {:induction false} ListedIs(j: Job, start: Word, qs: seq<SaveQueue>, i: nat)
    requires QueuesOk(j, start, qs) && |qs| == QUEUES && i <= USEFUL
    ensures Distinct(Listed(qs, i)) && forall a :: a in Listed(qs, i) <==> ModeListed(QueueOf(j, a), i) && InQueue(j, qs, a)
  {
    hide Reach, InQueue, QueuesOk, QueueOf, Cat;
    if i > 0 {
      ListedIs(j, start, qs, i - 1);
      CatIs(j, start, qs, QueuesOfMode(i - 1));
      forall a ensures a in Listed(qs, i) <==> ModeListed(QueueOf(j, a), i) && InQueue(j, qs, a) {
        OneMode(QueueOf(j, a), i - 1);
      }
      var l, c := Listed(qs, i - 1), Cat(qs, QueuesOfMode(i - 1));
      forall a | a in l ensures a !in c {
        OneMode(QueueOf(j, a), i - 1);
      }
      DistinctConcat(l, c);
    }
  }

  lemma OneMode(m: nat, i: nat)
    requires i < USEFUL
    ensures ModeListed(m, i + 1) <==> ModeListed(m, i) || m in QueuesOfMode(i)
    ensures m in QueuesOfMode(i) ==> !ModeListed(m, i)
  {
    assert ModeListed(m, i + 1) <== m in QueuesOfMode(i);
  }

  /** Everything that is read back in the second pass: each new object is listed once, in a list
      of its kind. */
  lemma ListsReady(img: Image, j: Job, root: Word, hn: Heap, qs: seq<SaveQueue>, texts: seq<seq<byte>>, hash: seq<byte> -> nat)
      returns (lists: seq<seq<nat>>)
    requires Written(img, j, hn, qs, texts, hash, root) && forall a :: a in Order(qs) <==> Reach(j, root, a)
    ensures Setting(j, root, hn, Order(qs), texts, hash)
    ensures |lists| == |img.counts| && (forall i: nat | i < |lists| :: img.counts[i] == |lists[i]|)
    ensures Words32(Loaders.NameWs(Loaders.Flat(lists))) && img.tables == EncWords(Loaders.NameWs(Loaders.Flat(lists)))
    ensures Loaders.NoTwice(Loaders.Flat(lists)) && Loaders.ListsOk(FramesFor(j, hn, texts, hash, Order(qs)), lists)
    ensures forall k: nat | k < |Order(qs)| && Order(qs)[k] in j.h && IsNew(j, Order(qs)[k]) :: k in Loaders.Flat(lists)
  {
    hide Reach, InQueue, QueuesOk, Order, Cat, Listed, HeapOk, OrderOk, Named, EncWords, EncAll, FrameFor, QueueOf, Mode;
    var order := Order(qs);
    SettingHolds(img, j, root, hn, qs, texts, hash);
    AllInOrder(j, root, qs);
    lists := ListsOf(order, qs, USEFUL);
    FlatLists(order, qs, USEFUL);
    ListedIs(j, root, qs, USEFUL);
    OrderIs(j, root, qs);
    var ts := Listed(qs, USEFUL);
    assert lists[..USEFUL] == lists;
    NameWordsAre(j, root, hn, order, texts, hash, ts);
    IndicesDistinct(order, ts);
    ListsAreOk(j, root, hn, qs, texts, hash, lists);
    forall k: nat | k < |order| && order[k] in j.h && IsNew(j, order[k]) ensures k in Loaders.Flat(lists) {
      TakenOk(j, root, hn, order, texts, hash, order[k]);
      NewListed(j, root, qs, order, order[k]);
      IndexUnique(order, k);
      var i: nat :| i < |ts| && ts[i] == order[k];
      assert Indices(order, ts)[i] == k;
    }
  }

  lemma TakenOk(j: Job, root: Word, hn: Heap, order: seq<nat>, texts: seq<seq<byte>>, hash: seq<byte> -> nat, a: nat)
    requires Setting(j, root, hn, order, texts, hash) && a in order && a !in j.refs
    ensures a in j.h && ObjOk(j, a) && SizeOk(j, a)
  {
    hide ObjOk, SizeOk;
  }

  lemma SettingHolds(img: Image, j: Job, root: Word, hn: Heap, qs: seq<SaveQueue>, texts: seq<seq<byte>>, hash: seq<byte> -> nat)
    requires Written(img, j, hn, qs, texts, hash, root) && forall a :: a in Order(qs) <==> Reach(j, root, a)
    ensures Setting(j, root, hn, Order(qs), texts, hash)
  {
    hide Reach, InQueue, WriterOk, Order;
    ReachedClosed(j, root, Order(qs));
    OrderIs(j, root, qs);
    forall a | a in Order(qs) ensures !Chained(j, a) {
      QueuedIs(j, root, qs, a);
    }
  }

  lemma AllInOrder(j: Job, root: Word, qs: seq<SaveQueue>)
    requires QueuesOk(j, root, qs) && |qs| == QUEUES
    ensures forall i: nat, a | i < USEFUL && a in Cat(qs, QueuesOfMode(i)) :: a in Order(qs)
    ensures forall a | a in Listed(qs, USEFUL) :: a in Order(qs)
  {
    hide Reach, InQueue, QueuesOk, Cat, Listed, Order, QueueOf;
    OrderIs(j, root, qs);
    ListedIs(j, root, qs, USEFUL);
    forall i: nat, a | i < USEFUL && a in Cat(qs, QueuesOfMode(i)) ensures a in Order(qs) {
      CatIs(j, root, qs, QueuesOfMode(i));
    }
  }

  lemma {:induction false} FlatLists(order: seq<nat>, qs: seq<SaveQueue>, n: nat)
    requires |qs| == QUEUES && n <= USEFUL && forall i: nat, a | i < USEFUL && a in Cat(qs, QueuesOfMode(i)) :: a in order
    ensures forall a | a in Listed(qs, n) :: a in order
    ensures Loaders.Flat(ListsOf(order, qs, USEFUL)[..n]) == Indices(order, Listed(qs, n))
  {
    hide Cat, QueuesOfMode;
    var lists := ListsOf(order, qs, USEFUL);
    if n > 0 {
      FlatLists(order, qs, n - 1);
      assert lists[..n][..n - 1] == lists[..n - 1];
      assert Indices(order, Listed(qs, n)) == Indices(order, Listed(qs, n - 1)) + Indices(order, Cat(qs, QueuesOfMode(n - 1)));
    }
  }

  lemma NameWordsAre(j: Job, root: Word, hn: Heap, order: seq<nat>, texts: seq<seq<byte>>, hash: seq<byte> -> nat, ts: seq<nat>)
    requires Setting(j, root, hn, order, texts, hash) && forall a | a in ts :: a in order
    ensures Loaders.NameWs(Indices(order, ts)) == NameWords(hn, ts)
  {
    hide HeapOk, Closed;
    forall i | 0 <= i < |ts| ensures Loaders.NameWs(Indices(order, ts))[i] == NameWords(hn, ts)[i] {
      NameOf(j, hn, order, IndexOf(order, ts[i]));
    }
  }

  lemma IndexUnique(order: seq<nat>, k: nat)
    requires Distinct(order) && k < |order|
    ensures IndexOf(order, order[k]) == k
  {
  }

  lemma IndicesDistinct(order: seq<nat>, ts: seq<nat>)
    requires Distinct(ts) && forall a | a in ts :: a in order
    ensures Loaders.NoTwice(Indices(order, ts))
  {
    forall i, k | 0 <= i < k < |ts| ensures Indices(order, ts)[i] != Indices(order, ts)[k] {
      assert order[IndexOf(order, ts[i])] == ts[i] && order[IndexOf(order, ts[k])] == ts[k];
    }
  }

  lemma NewListed(j: Job, root: Word, qs: seq<SaveQueue>, order: seq<nat>, a: nat)
    requires QueuesOk(j, root, qs) && |qs| == QUEUES && InQueue(j, qs, a) && a in j.h && IsNew(j, a) && ObjOk(j, a) && SizeOk(j, a)
    ensures a in Listed(qs, USEFUL)
  {
    hide Reach, InQueue, QueuesOk, Listed, ObjOk, SizeOk, Mode, ModeListed;
    ListedIs(j, root, qs, USEFUL);
    NewShape(j, a);
    NewModes();
  }

  lemma NewModes()
    ensures ModeListed(0, USEFUL) && ModeListed(1, USEFUL) && ModeListed(5, USEFUL)
  {
    assert 0 in QueuesOfMode(1) && 1 in QueuesOfMode(0) && 5 in QueuesOfMode(3);
  }

  lemma ListsAreOk(j: Job, root: Word, hn: Heap, qs: seq<SaveQueue>, texts: seq<seq<byte>>, hash: seq<byte> -> nat, lists: seq<seq<nat>>)
    requires |qs| == QUEUES && QueuesOk(j, root, qs) && Setting(j, root, hn, Order(qs), texts, hash)
    requires forall i: nat, a | i < USEFUL && a in Cat(qs, QueuesOfMode(i)) :: a in Order(qs)
    requires lists == ListsOf(Order(qs), qs, USEFUL)
    ensures Loaders.ListsOk(FramesFor(j, hn, texts, hash, Order(qs)), lists)
  {
    hide Reach, InQueue, QueuesOk, Order, Cat, Setting, FrameFor, QueueOf, Loaders.ListEntryOk;
    var order, fs := Order(qs), FramesFor(j, hn, texts, hash, Order(qs));
    forall i: nat, k: nat | i < |lists| && k < |lists[i]| ensures Loaders.ListEntryOk(fs, lists[i][k], i) {
      var a := Cat(qs, QueuesOfMode(i))[k];
      assert a in Cat(qs, QueuesOfMode(i)) && lists[i][k] == IndexOf(order, a);
      CatIs(j, root, qs, QueuesOfMode(i));
      EntryListed(j, root, hn, order, texts, hash, a, i);
    }
  }

  lemma EntryListed(j: Job, root: Word, hn: Heap, order: seq<nat>, texts: seq<seq<byte>>, hash: seq<byte> -> nat, a: nat, i: nat)
    requires Setting(j, root, hn, order, texts, hash) && a in order && i < USEFUL && QueueOf(j, a) in QueuesOfMode(i)
    ensures Loaders.ListEntryOk(FramesFor(j, hn, texts, hash, order), IndexOf(order, a), i)
  {
    var k, fs := IndexOf(order, a), FramesFor(j, hn, texts, hash, order);
    assert a in j.h && SizeOk(j, a);
    QueueIsNew(j, a, i);
    hide HeapOk, Closed, Named, FrameFor, Loaders.RawObj, Mode, SlotsNamed;
    RawIs(j, root, hn, order, texts, hash, a);
    assert fs[k] == FrameFor(j, hn, texts, hash, a);
    hide Setting;
    RawNamesIn(j, order, j.h[a].body, Loaders.RawObj(fs[k]));
  }

  lemma QueueIsNew(j: Job, a: nat, i: nat)
    requires a in j.h && SizeOk(j, a) && i < USEFUL && QueueOf(j, a) in QueuesOfMode(i)
    ensures IsNew(j, a) && (i == 0 <==> Mode(j, a) == 1)
  {
  }

  lemma RawNamesIn(j: Job, order: seq<nat>, body: Body, x: Loaders.LObj)
    requires (x.cls.Ptr? ==> x.cls.at < |order|)
    requires if body.Bytes? then x.body == body else SlotsNamed(j, order, body.s, x.body)
    ensures Loaders.NamesIn(x, |order|)
  {
    if body.Slots? {
      forall i | 0 <= i < |x.body.s| && x.body.s[i].Ptr? ensures x.body.s[i].at < |order| {
        assert SlotNamed(j, order, body.s[i], x.body.s[i]);
      }
    }
  }

  // ------------------------------------------------------------------ the round trip

  lemma LoadedIsIsomorphic(j: Job, root: Word, hn: Heap, order: seq<nat>, texts: seq<seq<byte>>, hash: seq<byte> -> nat,
                           names: seq<nat>, table: seq<Word>, heap: map<nat, Loaders.LObj>, base: nat,
                           refs: map<seq<byte>, Word>, intern: seq<byte> -> nat, result: Word)
    requires Setting(j, root, hn, order, texts, hash)
    requires Loaders.Loaded(FramesFor(j, hn, texts, hash, order), names, table, heap, base, refs, intern)
    requires forall k: nat | k < |order| && order[k] in j.h && IsNew(j, order[k]) :: k in names
    requires root.Ptr? ==> root.at in j.h
    requires root.Imm? ==> WordOk(root)
    requires result == Loaders.Swz(table, RawWord(Unswizzle(hn, root)))
    ensures Isomorphic(j, root, order, texts, table, heap, base, refs, intern, result)
  {
    hide Setting, SameObject, Loaders.ItemOk, FrameFor, Mode, Phi, Unswizzle, Loaders.Swz, RawWord, Rep, IsNew, Loaders.Loaded, FramesFor;
    LoadedSize(j, hn, order, texts, hash, names, table, heap, base, refs, intern);
    RootLoaded(j, root, hn, order, texts, hash, table);
    OrderInHeap(j, root, hn, order, texts, hash);
    forall k: nat | k < |order| ensures order[k] in j.h && SameObject(j, order, texts, table, heap, base, refs, intern, k) {
      OneObject(j, root, hn, order, texts, hash, names, table, heap, base, refs, intern, k);
    }
    NewApart(j, root, hn, order, texts, hash, names, table, heap, base, refs, intern);
  }

  lemma LoadedSize(j: Job, hn: Heap, order: seq<nat>, texts: seq<seq<byte>>, hash: seq<byte> -> nat,
                   names: seq<nat>, table: seq<Word>, heap: map<nat, Loaders.LObj>, base: nat,
                   refs: map<seq<byte>, Word>, intern: seq<byte> -> nat)
    requires Loaders.Loaded(FramesFor(j, hn, texts, hash, order), names, table, heap, base, refs, intern)
    ensures |table| == |order|
  {
    hide FrameFor, Loaders.ItemOk;
  }

  lemma OrderInHeap(j: Job, root: Word, hn: Heap, order: seq<nat>, texts: seq<seq<byte>>, hash: seq<byte> -> nat)
    requires Setting(j, root, hn, order, texts, hash)
    ensures forall k: nat | k < |order| :: order[k] in j.h
  {
    assert forall k: nat | k < |order| :: order[k] in order;
  }

  lemma RootLoaded(j: Job, root: Word, hn: Heap, order: seq<nat>, texts: seq<seq<byte>>, hash: seq<byte> -> nat, table: seq<Word>)
    requires Setting(j, root, hn, order, texts, hash) && |table| == |order|
    requires if root.Ptr? then root.at in j.h else WordOk(root)
    ensures Loaders.Swz(table, RawWord(Unswizzle(hn, root))) == Phi(j, order, table, root)
  {
    assert root.Ptr? ==> Rep(j, root.at) in order;
    SlotUnswizzled(j, root, hn, order, texts, hash, root);
    SwzNamed(j, order, table, root, RawWord(Unswizzle(hn, root)));
    hide Setting, Loaders.Swz, RawWord, Unswizzle, Phi, Rep;
  }

  lemma NewApart(j: Job, root: Word, hn: Heap, order: seq<nat>, texts: seq<seq<byte>>, hash: seq<byte> -> nat,
                 names: seq<nat>, table: seq<Word>, heap: map<nat, Loaders.LObj>, base: nat,
                 refs: map<seq<byte>, Word>, intern: seq<byte> -> nat)
    requires Setting(j, root, hn, order, texts, hash) && |table| == |order| && forall k: nat | k < |order| :: order[k] in j.h
    requires Loaders.Loaded(FramesFor(j, hn, texts, hash, order), names, table, heap, base, refs, intern)
    ensures forall i: nat, k: nat | i < k < |order| && IsNew(j, order[i]) && IsNew(j, order[k]) :: table[i] != table[k]
  {
    hide Setting, FrameFor, IsNew, Loaders.ItemOk, Loaders.IsArray;
    var fs := FramesFor(j, hn, texts, hash, order);
    forall i: nat | i < |order| ensures Loaders.IsArray(fs[i]) <==> IsNew(j, order[i]) {
      FrameKinds(j, root, hn, order, texts, hash, order[i]);
      assert fs[i] == FrameFor(j, hn, texts, hash, order[i]);
    }
  }

  /** An object of symbol mode whose name is the string t. */
  ghost predicate IsSymbol(h: Heap, refVec: seq<nat>, rplc: Option<Table>, a: nat, t: nat) {
    && a in h && Mode(JobFor(h, refVec, rplc), a) == 2
    && h[a].body.Slots? && |h[a].body.s| > 0 && h[a].body.s[0] == Ptr(t)
    && t in h && h[t].body.Bytes?
  }

  /** Saving and loading: the loaded graph is isomorphic to what was reachable, and the class
      words of the saved heap are left as LeftAs says. */
  method SaveThenLoad(s: ImageSaver, root: Word, refVec: seq<nat>, names: seq<seq<byte>>, rplc: Option<Table>, hash: seq<byte> -> nat,
                      l: Loaders.ImageLoader, refs: map<seq<byte>, Word>, intern: seq<byte> -> nat)
      returns (result: Word, tripped: bool, ghost order: seq<nat>, ghost texts: seq<seq<byte>>)
    requires SaveOk(s.heap, s.rplcQueue, refVec, names, rplc, root) && (forall t :: hash(t) < WORD) && l.HeapOk()
    requires root.Imm? ==> WordOk(root)
    modifies s, l
    ensures tripped <==> MeetsChain(JobFor(old(s.heap), refVec, rplc), root)
    ensures !tripped ==> var j := JobFor(old(s.heap), refVec, rplc);
      && Distinct(order) && (forall a :: a in order <==> Reach(j, root, a)) && RefsNamed(order, j.refs, refVec, names, texts)
      && Isomorphic(j, root, order, texts, l.table, l.heap, old(l.next), refs, intern, result)
    ensures !tripped ==> forall k: nat | k < |order| && order[k] in refVec ::
      k < |texts| && k < |l.table| &&
      (if texts[k] in refs then l.table[k] == refs[texts[k]] else l.table[k] == Loaders.FALSE_OBJ)
    ensures !tripped ==> forall k: nat, t: nat | k < |order| && order[k] !in refVec && IsSymbol(old(s.heap), refVec, rplc, order[k], t) ::
      k < |l.table| && l.table[k] == Ptr(intern(old(s.heap)[t].body.b))
    ensures forall a | a in old(l.heap) :: a in l.heap && l.heap[a] == old(l.heap)[a]
    ensures !tripped ==>
      s.heap.Keys == old(s.heap).Keys && forall a | a in old(s.heap) :: LeftAs(old(s.heap), s.heap, refVec, s.rplcQueue, a)
  {
    hide Reach, Order, Setting, LeftAs, RplcSaved, RefsNamed, Isomorphic, Loaders.ListsOk, Loaders.NoTwice, EncWords, EncAll, FramesFor, QueuesOk, InQueue, JobOk, HeapOk, SizesOk, WriterOk;
    ghost var j := JobFor(s.heap, refVec, rplc);
    var img;
    ghost var hn, qs;
    img, tripped, hn, qs, texts := SaveImage(s, root, refVec, names, rplc, hash);
    if tripped {
      return Imm(0), true, [], [];
    }
    order := Order(qs);
    OrderIs(j, root, qs);
    ghost var lists := ListsReady(img, j, root, hn, qs, texts, hash);
    AllKnown(j, root, hn, order, texts, hash);
    JobHeapOk(j, root);
    result := l.Load(img.count, img.entry, img.data, img.counts, img.tables, refs, intern, FramesFor(j, hn, texts, hash, order), lists);
    LoadedIsIsomorphic(j, root, hn, order, texts, hash, Loaders.Flat(lists), l.table, l.heap, old(l.next), refs, intern, result);
    BoundByName(old(s.heap), refVec, rplc, root, order, texts, l.table, l.heap, old(l.next), refs, intern, result);
  }

  lemma BoundByName(h: Heap, refVec: seq<nat>, rplc: Option<Table>, root: Word, order: seq<nat>, texts: seq<seq<byte>>, table: seq<Word>,
                    heap: map<nat, Loaders.LObj>, base: nat, refs: map<seq<byte>, Word>, intern: seq<byte> -> nat, result: Word)
    requires Isomorphic(JobFor(h, refVec, rplc), root, order, texts, table, heap, base, refs, intern, result)
    ensures |table| == |order|
    ensures forall k: nat | k < |order| && order[k] in refVec ::
      k < |texts| && if texts[k] in refs then table[k] == refs[texts[k]] else table[k] == Loaders.FALSE_OBJ
    ensures forall k: nat, t: nat | k < |order| && order[k] !in refVec && IsSymbol(h, refVec, rplc, order[k], t) ::
      table[k] == Ptr(intern(h[t].body.b))
  {
    var j := JobFor(h, refVec, rplc);
    SetOfIs(refVec);
    hide Mode, Phi;
    forall k: nat | k < |order| ensures SameObject(j, order, texts, table, heap, base, refs, intern, k) {
    }
  }


  lemma AllKnown(j: Job, root: Word, hn: Heap, order: seq<nat>, texts: seq<seq<byte>>, hash: seq<byte> -> nat)
    requires Setting(j, root, hn, order, texts, hash)
    ensures |FramesFor(j, hn, texts, hash, order)| == |order|
    ensures forall i | 0 <= i < |order| :: Loaders.KnownMode(FramesFor(j, hn, texts, hash, order)[i])
  {
    assert forall a | a in order :: a in j.h;
    hide Setting, FrameFor;
    forall i | 0 <= i < |order| ensures Loaders.KnownMode(FramesFor(j, hn, texts, hash, order)[i]) {
      assert order[i] in order;
      FrameKinds(j, root, hn, order, texts, hash, order[i]);
    }
  }

  /** An object saved as a reference named n loads as what n is bound to, and as #f when it is not bound. */
  method ReferenceByName(n: seq<byte>, w: Word, bound: bool, hash: seq<byte> -> nat, intern: seq<byte> -> nat) returns (result: Word)
    requires |n| < WORD && forall t :: hash(t) < WORD
    ensures result == if bound then w else Imm(2)
  {
    hide RefsNamed, SaveOk, LeftAs, MeetsChain, Reach;
    var h := TwoObjects();
    var s := new ImageSaver(h);
    var l := new Loaders.ImageLoader();
    var refs := if bound then map[n := w] else map[];
    OneReference(n);
    var tripped;
    ghost var order, texts;
    ghost var next := l.next;
    result, tripped, order, texts := SaveThenLoad(s, Ptr(2), [2], [n], None, hash, l, refs, intern);
    RootIs(JobFor(h, [2], None), order, texts, l.table, l.heap, next, refs, intern, result);
    NameIsGiven(order, texts, n);
  }

  lemma {:induction false} RefAlone(a: nat, n: nat)
    requires ReachIn(JobFor(TwoObjects(), [2], None), Ptr(2), a, n)
    ensures a == 2
    decreases n
  {
    if n > 0 {
      var j := JobFor(TwoObjects(), [2], None);
      forall b, t ensures !(ReachIn(j, Ptr(2), b, n - 1) && Target(j, b, t) && a == Rep(j, t)) {
        if ReachIn(j, Ptr(2), b, n - 1) { RefAlone(b, n - 1); }
      }
    }
  }

  lemma OneReference(n: seq<byte>)
    requires |n| < WORD
    ensures SaveOk(TwoObjects(), EMPTY_QUEUE, [2], [n], None, Ptr(2))
    ensures !MeetsChain(JobFor(TwoObjects(), [2], None), Ptr(2))
    ensures forall a :: Reach(JobFor(TwoObjects(), [2], None), Ptr(2), a) <==> a == 2
  {
    var j := JobFor(TwoObjects(), [2], None);
    assert ReachIn(j, Ptr(2), 2, 0);
    forall a | Reach(j, Ptr(2), a) ensures a == 2 {
      var m: nat :| ReachIn(j, Ptr(2), a, m);
      RefAlone(a, m);
    }
  }

  lemma NameIsGiven(order: seq<nat>, texts: seq<seq<byte>>, n: seq<byte>)
    requires 2 in order && RefsNamed(order, SetOf([2]), [2], [n], texts)
    ensures IndexOf(order, 2) < |texts| && texts[IndexOf(order, 2)] == n
  {
    assert [2][0] == 2;
  }

  lemma RootIs(j: Job, order: seq<nat>, texts: seq<seq<byte>>, table: seq<Word>, heap: map<nat, Loaders.LObj>, base: nat,
               refs: map<seq<byte>, Word>, intern: seq<byte> -> nat, result: Word)
    requires 2 in order && j.rplc == map[] && Isomorphic(j, Ptr(2), order, texts, table, heap, base, refs, intern, result)
    ensures |table| == |order| && result == table[IndexOf(order, 2)]
  {
    assert Rep(j, 2) == 2;
  }

  // ------------------------------------------------------------------ an object with a replacement

  /** Object 2 points to 3, for which 4 is to be saved; 1 is the class of all. */
  function ReplaceableHeap(): Heap {
    map[1 := HObj(Class(1), Slots([])), 2 := HObj(Class(1), Slots([Ptr(3), Imm(8)])),
        3 := HObj(Class(1), Slots([])), 4 := HObj(Class(1), Slots([Imm(12)]))]
  }

  /** What was saved of object 2 loads with the replacement in the place of 3. */
  method ReplacementIsSaved(hash: seq<byte> -> nat, intern: seq<byte> -> nat) returns (l: Loaders.ImageLoader, two: nat, four: nat, cls: nat)
    requires forall t :: hash(t) < WORD
    ensures two in l.heap && four in l.heap && cls in l.heap && |{two, four, cls}| == 3
    ensures l.heap[two] == Loaders.LObj(Ptr(cls), Slots([Ptr(four), Imm(8)]))
    ensures l.heap[four] == Loaders.LObj(Ptr(cls), Slots([Imm(12)]))
    ensures l.heap[cls] == Loaders.LObj(Ptr(cls), Slots([]))
  {
    hide RefsNamed, SaveOk, LeftAs, MeetsChain, Reach, Isomorphic;
    var t: Table := [(3, 4)];
    var s := new ImageSaver(ReplaceableHeap());
    l := new Loaders.ImageLoader();
    ghost var next := l.next;
    ReplaceableOk(t);
    var result, tripped;
    ghost var order, texts;
    result, tripped, order, texts := SaveThenLoad(s, Ptr(2), [], [], Some(t), hash, l, map[], intern);
    ReplaceableLoaded(JobFor(ReplaceableHeap(), [], Some(t)), order, texts, l.table, l.heap, next, map[], intern, result);
    two, four, cls := result.at, l.heap[result.at].body.s[0].at, l.heap[result.at].cls.at;
  }

  lemma ReplaceableJob(t: Table)
    requires t == [(3, 4)]
    ensures JobFor(ReplaceableHeap(), [], Some(t)) == Job(ReplaceableHeap(), map[3 := 4], {}) && KeysDistinct(t)
  {
    assert t[..0] == [];
    assert MapOf(t) == map[3 := 4];
  }

  lemma {:induction false} ReplaceableReach(j: Job, a: nat, n: nat)
    requires j == Job(ReplaceableHeap(), map[3 := 4], {}) && ReachIn(j, Ptr(2), a, n)
    ensures a == 1 || a == 2 || a == 4
    decreases n
  {
    hide ObjOk, SizeOk, Target, ReplaceableHeap, Mode;
    if n > 0 {
      var b, t :| ReachIn(j, Ptr(2), b, n - 1) && Target(j, b, t) && a == Rep(j, t);
      ReplaceableReach(j, b, n - 1);
      ReplaceableTargets(j, b, t);
    }
  }

  lemma ReplaceableTargets(j: Job, b: nat, t: nat)
    requires j == Job(ReplaceableHeap(), map[3 := 4], {}) && (b == 1 || b == 2 || b == 4)
    ensures Mode(j, b) == 0 && ClassOf(j, b) == 1 && ObjOk(j, b) && SizeOk(j, b)
    ensures Target(j, b, t) <==> t == 1 || (b == 2 && t == 3)
  {
    assert j.h[2].body.s == [Ptr(3), Imm(8)] && j.h[2].body.s[0] == Ptr(3) && j.h[2].body.s[1] == Imm(8);
    assert j.h[4].body.s == [Imm(12)] && j.h[1].body.s == [];
  }

  lemma ReplaceableReached(j: Job)
    requires j == Job(ReplaceableHeap(), map[3 := 4], {})
    ensures forall a :: Reach(j, Ptr(2), a) <==> a == 1 || a == 2 || a == 4
  {
    hide ObjOk, SizeOk, Target, ReplaceableHeap, Mode;
    forall a | Reach(j, Ptr(2), a) ensures a == 1 || a == 2 || a == 4 {
      var n: nat :| ReachIn(j, Ptr(2), a, n);
      ReplaceableReach(j, a, n);
    }
    assert Reach(j, Ptr(2), 2) by { assert ReachIn(j, Ptr(2), 2, 0); }
    ReplaceableTargets(j, 2, 1);
    ReplaceableTargets(j, 2, 3);
    ReachStep(j, Ptr(2), 2, 1);
    ReachStep(j, Ptr(2), 2, 3);
  }

  lemma ReplaceableOk(t: Table)
    requires t == [(3, 4)]
    ensures var j := Job(ReplaceableHeap(), map[3 := 4], {});
      && JobFor(ReplaceableHeap(), [], Some(t)) == j
      && SaveOk(ReplaceableHeap(), EMPTY_QUEUE, [], [], Some(t), Ptr(2)) && !MeetsChain(j, Ptr(2))
      && forall a :: Reach(j, Ptr(2), a) <==> a == 1 || a == 2 || a == 4
  {
    hide Reach, ObjOk, SizeOk, ReplaceableHeap, Mode;
    var j := Job(ReplaceableHeap(), map[3 := 4], {});
    ReplaceableJob(t);
    ReplaceableReached(j);
    forall a | a == 1 || a == 2 || a == 4 ensures a in j.h && ObjOk(j, a) && SizeOk(j, a) {
      ReplaceableClasses();
      ReplaceableTargets(j, a, 1);
    }
    ReplaceableClasses();
  }

  lemma ReplaceableObject(j: Job, order: seq<nat>, texts: seq<seq<byte>>, table: seq<Word>, heap: map<nat, Loaders.LObj>, base: nat,
                          refs: map<seq<byte>, Word>, intern: seq<byte> -> nat, result: Word, a: nat)
    requires j == Job(ReplaceableHeap(), map[3 := 4], {}) && (forall x :: x in order <==> x == 1 || x == 2 || x == 4) && a in order
    requires Isomorphic(j, Ptr(2), order, texts, table, heap, base, refs, intern, result)
    ensures |table| == |order| && IsNew(j, a) && a in j.h && j.h[a].body.Slots?
    ensures var w := table[IndexOf(order, a)];
      && w.Ptr? && w.at in heap && heap[w.at].cls == table[IndexOf(order, 1)]
      && heap[w.at].body.Slots? && |heap[w.at].body.s| == |j.h[a].body.s|
      && forall i: nat | i < |j.h[a].body.s| :: heap[w.at].body.s[i] == Phi(j, order, table, j.h[a].body.s[i])
  {
    ReplaceableTargets(j, a, 1);
    hide ReplaceableHeap, ObjOk, SizeOk, Mode, Target;
    ReplaceableSlots(a);
    var k := IndexOf(order, a);
    assert order[k] in j.h && SameObject(j, order, texts, table, heap, base, refs, intern, k);
  }

  lemma ReplaceableSlots(a: nat)
    ensures a == 1 || a == 2 || a == 4 ==> a in ReplaceableHeap() && ReplaceableHeap()[a].body.Slots?
  {
  }

  /** The loaded objects of 2, 4 and their class. */
  lemma ReplaceableLoaded(j: Job, order: seq<nat>, texts: seq<seq<byte>>, table: seq<Word>, heap: map<nat, Loaders.LObj>, base: nat,
                          refs: map<seq<byte>, Word>, intern: seq<byte> -> nat, result: Word)
    requires j == Job(ReplaceableHeap(), map[3 := 4], {}) && forall a :: a in order <==> a == 1 || a == 2 || a == 4
    requires Isomorphic(j, Ptr(2), order, texts, table, heap, base, refs, intern, result)
    ensures |table| == |order|
    ensures var one, two, four := table[IndexOf(order, 1)], table[IndexOf(order, 2)], table[IndexOf(order, 4)];
      && one.Ptr? && two.Ptr? && four.Ptr? && result == two && one != two && one != four && two != four
      && one.at in heap && two.at in heap && four.at in heap
      && heap[one.at] == Loaders.LObj(one, Slots([])) && heap[two.at] == Loaders.LObj(one, Slots([four, Imm(8)]))
      && heap[four.at] == Loaders.LObj(one, Slots([Imm(12)]))
  {
    ReplaceableObject(j, order, texts, table, heap, base, refs, intern, result, 1);
    ReplaceableObject(j, order, texts, table, heap, base, refs, intern, result, 2);
    ReplaceableObject(j, order, texts, table, heap, base, refs, intern, result, 4);
    hide SameObject, ObjOk, SizeOk, Mode;
    var i, k, m := IndexOf(order, 1), IndexOf(order, 2), IndexOf(order, 4);
    assert ReplaceableHeap()[2].body.s == [Ptr(3), Imm(8)];
    assert ReplaceableHeap()[4].body.s == [Imm(12)] && ReplaceableHeap()[1].body.s == [];
    assert heap[table[k].at].body.s == [table[m], Imm(8)];
    assert heap[table[m].at].body.s == [Imm(12)];
    assert heap[table[i].at].body.s == [];
  }
  lemma ReplaceableClasses()
    ensures ReplaceableHeap().Keys == {1, 2, 3, 4} && forall a | a in ReplaceableHeap() :: ReplaceableHeap()[a].cls.Class?
  {
  }
}
