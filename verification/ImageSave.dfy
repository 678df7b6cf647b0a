/** rs_save_image_file: setup, traversal, naming, output and cleanup
    (handc/heapi/savetrav.c:485-560). */
module ImageSaves {
  import opened Options
  import opened HeapImages
  import opened ImageTraversals
  import opened ImageNames
  import opened ImageFiles
  import opened ImageWriters

  /** What a save is asked to do. */
  ghost function JobFor(h: Heap, refVec: seq<nat>, rplc: Option<Table>): Job {
    Job(h, if rplc.Some? then MapOf(rplc.value) else map[], SetOf(refVec))
  }

  /** The image holds the objects of order, named by their positions. */
  ghost predicate Written(img: Image, j: Job, hn: Heap, qs: seq<SaveQueue>, texts: seq<seq<byte>>, hash: seq<byte> -> nat, root: Word) {
    && |qs| == QUEUES && WriterOk(j, hn, Order(qs), texts, hash) && QueuesOk(j, root, qs)
    && img.count == |Order(qs)| && img.entry == Unswizzle(hn, root)
    && FramesOk(FramesFor(j, hn, texts, hash, Order(qs))) && img.data == EncAll(FramesFor(j, hn, texts, hash, Order(qs)))
    && Words32(NameWords(hn, Listed(qs, USEFUL))) && img.tables == EncWords(NameWords(hn, Listed(qs, USEFUL)))
    && |img.counts| == USEFUL && (forall i: nat | i < USEFUL :: img.counts[i] == |Cat(qs, QueuesOfMode(i))|)
  }

  /** References have the names they were given, the last when given several. */
  ghost predicate RefsNamed(order: seq<nat>, refs: set<nat>, refVec: seq<nat>, names: seq<seq<byte>>, texts: seq<seq<byte>>) {
    |names| == |refVec| && forall k: nat | k < |order| && order[k] in refs ::
      k < |texts| && order[k] in refVec && texts[k] == names[Last(refVec, order[k])]
  }

  /** An object occurs more than once among the references. */
  ghost predicate Twice(v: seq<nat>, a: nat) {
    exists i, k :: 0 <= i < k < |v| && v[i] == v[k] == a
  }

  /** The class word a save leaves behind. */
  ghost predicate LeftAs(h0: Heap, h: Heap, refVec: seq<nat>, rq: SaveQueue, a: nat)
    requires a in h0 && a in h
  {
    && h[a].body == h0[a].body
    && (forall i: nat | HoldsAt(rq, i, a) :: h[a].cls == rq.items[i].orig)
    && (!Holds(rq, a) ==> h[a].cls == if Twice(refVec, a) then RefMark else h0[a].cls)
  }

  /** What the caller sees to: a heap in which what the save takes is of the modes this model covers,
      and a table and reference vector of objects in it. */
  ghost predicate SaveOk(h: Heap, rq: SaveQueue, refVec: seq<nat>, names: seq<seq<byte>>, rplc: Option<Table>, root: Word) {
    var j := JobFor(h, refVec, rplc);
    && JobOk(j, root) && SizesOk(j, root) && |h| < 0x4000_0000
    && (rplc.Some? ==> KeysDistinct(rplc.value))
    && |names| == |refVec| && (forall k: nat | k < |names| :: |names[k]| < WORD)
    && (root.Imm? ==> root.bits < WORD)
    && QueueDistinct(rq) && forall i: nat | i < |rq.items| :: rq.items[i].thing in h
  }

  /** Phases 1 to 3: afterwards exactly the reachable objects are named, unless the traversal stops at
      a replacement that is itself replaced. */
  method Prepare(s: ImageSaver, root: Word, refVec: seq<nat>, names: seq<seq<byte>>, rplc: Option<Table>)
      returns (saved: seq<ClassWord>, tripped: bool)
    requires SaveOk(s.heap, s.rplcQueue, refVec, names, rplc, root)
    modifies s
    ensures tripped <==> MeetsChain(JobFor(old(s.heap), refVec, rplc), root)
    ensures !tripped ==> var j := JobFor(old(s.heap), refVec, rplc);
      && QueuesOk(j, root, s.queues) && |s.queues| == QUEUES && Named(j, s.heap, Order(s.queues))
      && (forall a :: InQueue(j, s.queues, a) <==> Reach(j, root, a))
    ensures !tripped ==> SavedFor(saved, old(s.heap), refVec, rplc)
    ensures !tripped ==> RplcSaved(old(s.heap), s.rplcQueue, old(s.rplcQueue), rplc)
  {
    hide Reach, QueuesOk, InQueue, Named, JobOk, HeapOk, SizesOk, Ordinary, Chained;
    ghost var h0, rq0 := s.heap, s.rplcQueue;
    ghost var j := JobFor(h0, refVec, rplc);
    s.queues := seq(QUEUES, i => EMPTY_QUEUE);
    JobHeapOk(j, root);
    SaveOrdinary(h0, refVec, rplc);
    KeysInHeap(h0, refVec, rplc);
    if rplc.Some? {
      SetupReplacements(s, rplc.value);
    }
    ghost var h1 := s.heap;
    saved := SetupReferences(s, refVec);
    StartTraversal(h0, h1, s.heap, refVec, rplc, root);
    RplcIs(h0, s.rplcQueue, rq0, rplc);
    SavedIs(h0, h1, saved, refVec, rplc);
    RootReached(j, root);
    tripped := s.SpotObject(root, j, root, {});
    if tripped {
      return;
    }
    GrownDone(seq(QUEUES, i => EMPTY_QUEUE), s.queues, {});
    tripped := s.TraverseAll(j, root);
    if tripped {
      return;
    }
    AssignAllNames(s, j, root);
  }

  // ------------------------------------------------------------------ phases 1 to 3

  /** What setup_reference_objects saves, after the replacements have been marked. */
  ghost predicate SavedFor(saved: seq<ClassWord>, h0: Heap, refVec: seq<nat>, rplc: Option<Table>) {
    var m := JobFor(h0, refVec, rplc).rplc;
    && |saved| == |refVec|
    && forall i: nat | i < |refVec| && refVec[i] in h0 ::
         saved[i] == if Repeated(refVec, i) then RefMark else if refVec[i] in m then Replaced(m[refVec[i]]) else h0[refVec[i]].cls
  }

  /** The static queue is filled from the table, or left as the last save that had one left it. */
  ghost predicate RplcSaved(h0: Heap, rq: SaveQueue, rq0: SaveQueue, rplc: Option<Table>) {
    if rplc.Some? then
      && |rq.items| == |rplc.value|
      && forall i: nat | i < |rq.items| && rplc.value[i].0 in h0 :: rq.items[i] == QEntry(rplc.value[i].0, h0[rplc.value[i].0].cls)
    else rq == rq0
  }

  lemma KeysInHeap(h0: Heap, refVec: seq<nat>, rplc: Option<Table>)
    requires HeapOk(JobFor(h0, refVec, rplc))
    ensures rplc.Some? ==> forall i: nat | i < |rplc.value| :: rplc.value[i].0 in h0
    ensures forall i: nat | i < |refVec| :: refVec[i] in h0
  {
    var j := JobFor(h0, refVec, rplc);
    if rplc.Some? {
      MapOfIs(rplc.value);
      forall i: nat | i < |rplc.value| ensures rplc.value[i].0 in h0 {
        assert rplc.value[i].0 in j.rplc;
      }
    }
    forall i: nat | i < |refVec| ensures refVec[i] in h0 {
      assert refVec[i] in j.refs;
    }
  }

  lemma SaveOrdinary(h0: Heap, refVec: seq<nat>, rplc: Option<Table>)
    requires HeapOk(JobFor(h0, refVec, rplc))
    ensures Ordinary(h0)
  {
  }

  lemma SetOfIs(v: seq<nat>)
    ensures forall a :: a in SetOf(v) <==> a in v
  {
  }

  /** After setup the heap is marked and the traversal can start from empty queues. */
  lemma StartTraversal(h0: Heap, h1: Heap, h2: Heap, refVec: seq<nat>, rplc: Option<Table>, root: Word)
    requires var j := JobFor(h0, refVec, rplc);
      && JobOk(j, root) && h1.Keys == h0.Keys && h2.Keys == h0.Keys
      && (forall a | a in h0 :: h1[a] == HObj(if a in j.rplc then Replaced(j.rplc[a]) else h0[a].cls, h0[a].body))
      && (forall a | a in h0 :: h2[a] == if a in refVec then h1[a].(cls := RefMark) else h1[a])
    ensures TraversalOk(JobFor(h0, refVec, rplc), root, h2, seq(QUEUES, i => EMPTY_QUEUE), {})
    ensures DoneIs(seq(QUEUES, i => EMPTY_QUEUE), {})
  {
    hide JobOk, QueueOf, Reach;
    SetOfIs(refVec);
    var qs := seq(QUEUES, i => EMPTY_QUEUE);
    assert forall m: nat | m < QUEUES :: qs[m] == EMPTY_QUEUE;
    assert forall m: nat, i: nat, a :: !TakenAt(qs, m, i, a);
    assert forall m: nat, i: nat, a | m < QUEUES :: !HoldsAt(qs[m], i, a);
  }

  lemma RplcIs(h0: Heap, rq: SaveQueue, rq0: SaveQueue, rplc: Option<Table>)
    requires rplc.None? ==> rq == rq0
    requires rplc.Some? ==> |rq.items| == |rplc.value| && forall i: nat | i < |rplc.value| ::
      rplc.value[i].0 in h0 && rq.items[i] == QEntry(rplc.value[i].0, h0[rplc.value[i].0].cls)
    ensures RplcSaved(h0, rq, rq0, rplc)
  {
  }

  lemma SavedIs(h0: Heap, h1: Heap, saved: seq<ClassWord>, refVec: seq<nat>, rplc: Option<Table>)
    requires SavedOk(saved, h1, refVec, |refVec|) && h1.Keys == h0.Keys
    requires var m := JobFor(h0, refVec, rplc).rplc;
      forall a | a in h0 :: h1[a] == HObj(if a in m then Replaced(m[a]) else h0[a].cls, h0[a].body)
    ensures SavedFor(saved, h0, refVec, rplc)
  {
    hide Repeated, MapOf;
  }

  lemma RootReached(j: Job, root: Word)
    ensures root.Ptr? ==> Reach(j, root, Rep(j, root.at))
  {
    if root.Ptr? { assert ReachIn(j, root, Rep(j, root.at), 0); }
  }

  // ------------------------------------------------------------------ phase 5

  /** Phase 5, except for the objects that are restored from rplc_queue. */
  method Cleanup(s: ImageSaver, refVec: seq<nat>, saved: seq<ClassWord>, rplc: Option<Table>, root: Word, ghost h0: Heap, ghost rq0: SaveQueue)
    requires var j := JobFor(h0, refVec, rplc);
      && HeapOk(j) && QueuesOk(j, root, s.queues) && |s.queues| == QUEUES && Named(j, s.heap, Order(s.queues))
      && SavedFor(saved, h0, refVec, rplc) && RplcSaved(h0, s.rplcQueue, rq0, rplc)
      && QueueDistinct(s.rplcQueue) && (forall i: nat | i < |s.rplcQueue.items| :: s.rplcQueue.items[i].thing in h0)
    modifies s`heap
    ensures s.heap.Keys == h0.Keys && forall a | a in h0 :: LeftAs(h0, s.heap, refVec, s.rplcQueue, a)
  {
    hide Reach, QueuesOk, Named, HeapOk, RplcSaved, SavedFor, Order, LeftAs, HoldsAt;
    ghost var j := JobFor(h0, refVec, rplc);
    ghost var hn := s.heap;
    NothingRestored(j, root, hn, s.queues);
    for m := 0 to MODES
      invariant RestoredBelow(j, hn, s.heap, s.queues, m) && |s.queues| == QUEUES
    {
      QueueInHeap(j, root, hn, s.heap, s.queues, m);
      ghost var h1 := s.heap;
      CleanupQueue(s, s.queues[m]);
      RestoredOne(j, root, hn, h1, s.heap, s.queues, m);
    }
    ghost var h2 := s.heap;
    SavedLength(saved, h0, refVec, rplc);
    RefsInHeap(j, hn, h2, s.queues, refVec, h0, rplc);
    CleanupReferences(s, refVec, saved);
    ghost var h3 := s.heap;
    AfterReferences(h0, hn, h2, h3, s.queues, refVec, saved, rplc, root);
    CleanupQueue(s, s.rplcQueue);
    forall a | a in h0 ensures LeftAs(h0, s.heap, refVec, s.rplcQueue, a) {
      AfterReplaced(h0, h3, s.heap, refVec, s.rplcQueue, rq0, rplc, a);
    }
  }

  /** The objects in the queues below m have their class words back. */
  ghost predicate RestoredBelow(j: Job, hn: Heap, h: Heap, qs: seq<SaveQueue>, m: nat) {
    && h.Keys == hn.Keys == j.h.Keys
    && forall a | a in j.h :: h[a] == if InQueue(j, qs, a) && QueueOf(j, a) < m then j.h[a] else hn[a]
  }

  lemma NothingRestored(j: Job, root: Word, hn: Heap, qs: seq<SaveQueue>)
    requires QueuesOk(j, root, qs) && |qs| == QUEUES && Named(j, hn, Order(qs))
    ensures RestoredBelow(j, hn, hn, qs, 0)
  {
  }

  lemma QueueInHeap(j: Job, root: Word, hn: Heap, h: Heap, qs: seq<SaveQueue>, m: nat)
    requires QueuesOk(j, root, qs) && m < QUEUES && RestoredBelow(j, hn, h, qs, m)
    ensures QueueDistinct(qs[m]) && forall i: nat | i < |qs[m].items| :: qs[m].items[i].thing in h
  {
    hide Reach, InQueue;
    assert QueueOk(j, root, qs[m], m);
    forall i: nat | i < |qs[m].items| ensures qs[m].items[i].thing in h {
      assert EntryOk(j, root, qs[m], m, i);
    }
  }

  lemma RestoredOne(j: Job, root: Word, hn: Heap, h1: Heap, h2: Heap, qs: seq<SaveQueue>, m: nat)
    requires QueuesOk(j, root, qs) && m < MODES && |qs| == QUEUES && RestoredBelow(j, hn, h1, qs, m)
    requires Named(j, hn, Order(qs)) && h2.Keys == h1.Keys
    requires forall i: nat | i < |qs[m].items| :: qs[m].items[i].thing in h1 && h2[qs[m].items[i].thing] == h1[qs[m].items[i].thing].(cls := qs[m].items[i].orig)
    requires forall a | a in h1 && !Holds(qs[m], a) :: h2[a] == h1[a]
    ensures RestoredBelow(j, hn, h2, qs, m + 1)
  {
    hide Reach, Named, Order, InQueue, QueuesOk, QueueOf;
    forall a | a in j.h ensures h2[a] == if InQueue(j, qs, a) && QueueOf(j, a) < m + 1 then j.h[a] else hn[a] {
      BodyOf(j, hn, Order(qs), a);
      RestoredAt(j, root, qs, m, a);
      if Holds(qs[m], a) {
        var i: nat :| HoldsAt(qs[m], i, a) && qs[m].items[i].orig == j.h[a].cls;
        assert h2[qs[m].items[i].thing] == h1[qs[m].items[i].thing].(cls := qs[m].items[i].orig);
      }
    }
  }

  lemma RestoredAt(j: Job, root: Word, qs: seq<SaveQueue>, m: nat, a: nat)
    requires QueuesOk(j, root, qs) && m < MODES && |qs| == QUEUES
    ensures Holds(qs[m], a) <==> InQueue(j, qs, a) && QueueOf(j, a) == m
    ensures Holds(qs[m], a) ==> a in j.h && exists i: nat :: HoldsAt(qs[m], i, a) && qs[m].items[i].orig == j.h[a].cls
  {
    hide Reach;
    assert QueueOk(j, root, qs[m], m);
    if Holds(qs[m], a) {
      var i: nat :| HoldsAt(qs[m], i, a);
      assert EntryOk(j, root, qs[m], m, i);
      assert HoldsAt(qs[QueueOf(j, a)], i, a);
    }
  }

  lemma SavedLength(saved: seq<ClassWord>, h0: Heap, refVec: seq<nat>, rplc: Option<Table>)
    requires SavedFor(saved, h0, refVec, rplc)
    ensures |saved| == |refVec|
  {
  }

  lemma RefsInHeap(j: Job, hn: Heap, h: Heap, qs: seq<SaveQueue>, refVec: seq<nat>, h0: Heap, rplc: Option<Table>)
    requires j == JobFor(h0, refVec, rplc) && HeapOk(j) && RestoredBelow(j, hn, h, qs, MODES)
    ensures forall i: nat | i < |refVec| :: refVec[i] in h
    ensures h.Keys == h0.Keys
  {
    KeysInHeap(h0, refVec, rplc);
  }

  /** The class word of an object once references are restored: replaced objects still are. */
  ghost predicate RefsLeft(h0: Heap, h: Heap, refVec: seq<nat>, m: map<nat, nat>, a: nat)
    requires a in h0 && a in h
  {
    && h[a].body == h0[a].body
    && h[a].cls == if Twice(refVec, a) then RefMark else if a in m then Replaced(m[a]) else h0[a].cls
  }

  lemma AfterReferences(h0: Heap, hn: Heap, h2: Heap, h3: Heap, qs: seq<SaveQueue>, refVec: seq<nat>, saved: seq<ClassWord>,
                        rplc: Option<Table>, root: Word)
    requires var j := JobFor(h0, refVec, rplc);
      && HeapOk(j) && QueuesOk(j, root, qs) && |qs| == QUEUES && Named(j, hn, Order(qs)) && RestoredBelow(j, hn, h2, qs, MODES)
    requires SavedFor(saved, h0, refVec, rplc) && |saved| == |refVec| && h3.Keys == h2.Keys
    requires forall i: nat, a | LastAt(refVec, i, a) && i < |saved| :: a in h2 && h3[a] == h2[a].(cls := saved[i])
    requires forall a | a in h2 && a !in refVec :: h3[a] == h2[a]
    ensures h3.Keys == h0.Keys
    ensures forall a | a in h0 :: RefsLeft(h0, h3, refVec, JobFor(h0, refVec, rplc).rplc, a)
  {
    var j := JobFor(h0, refVec, rplc);
    SetOfIs(refVec);
    hide HeapOk, QueuesOk, Named, Order, MapOf, Reach, InQueue, SavedFor, LastAt, Repeated;
    forall a | a in h0 ensures RefsLeft(h0, h3, refVec, j.rplc, a) {
      BodyOf(j, hn, Order(qs), a);
      if a in refVec {
        var i := Last(refVec, a);
        LastSaved(saved, h0, refVec, rplc, i, a);
        assert h3[a] == h2[a].(cls := saved[i]);
      } else {
        UnnamedInitial(j, root, hn, qs, a);
        NotTwice(refVec, a);
      }
    }
  }

  lemma LastSaved(saved: seq<ClassWord>, h0: Heap, refVec: seq<nat>, rplc: Option<Table>, i: nat, a: nat)
    requires SavedFor(saved, h0, refVec, rplc) && LastAt(refVec, i, a) && a in h0
    ensures var m := JobFor(h0, refVec, rplc).rplc;
      i < |saved| && saved[i] == if Twice(refVec, a) then RefMark else if a in m then Replaced(m[a]) else h0[a].cls
  {
    hide MapOf;
    RepeatedIs(refVec, i);
    if Repeated(refVec, i) {
      var k: nat :| k < i && refVec[..i][k] == a;
      assert refVec[k] == refVec[i] == a;
    }
    if Twice(refVec, a) {
      var k, l :| 0 <= k < l < |refVec| && refVec[k] == refVec[l] == a;
      assert refVec[..i][k] == a;
    }
  }

  lemma NotTwice(v: seq<nat>, a: nat)
    requires a !in v
    ensures !Twice(v, a)
  {
  }

  lemma UnnamedInitial(j: Job, root: Word, hn: Heap, qs: seq<SaveQueue>, a: nat)
    requires HeapOk(j) && QueuesOk(j, root, qs) && |qs| == QUEUES && Named(j, hn, Order(qs)) && a in j.h && a !in j.refs
    ensures InQueue(j, qs, a) ==> QueueOf(j, a) < MODES && a !in j.rplc
    ensures !InQueue(j, qs, a) ==> a in hn && hn[a].cls == if a in j.rplc then Replaced(j.rplc[a]) else j.h[a].cls
  {
    hide Order, Reach, HeapOk;
    OrderIs(j, root, qs);
    if InQueue(j, qs, a) {
      QueuedIs(j, root, qs, a);
      ModeIsNotRefs(j, a);
    }
    hide QueuesOk, InQueue;
  }

  lemma AfterReplaced(h0: Heap, h3: Heap, h4: Heap, refVec: seq<nat>, rq: SaveQueue, rq0: SaveQueue, rplc: Option<Table>, a: nat)
    requires a in h0 && h3.Keys == h4.Keys == h0.Keys && RefsLeft(h0, h3, refVec, JobFor(h0, refVec, rplc).rplc, a)
    requires forall i: nat | i < |rq.items| :: rq.items[i].thing in h0 && h4[rq.items[i].thing] == h3[rq.items[i].thing].(cls := rq.items[i].orig)
    requires !Holds(rq, a) ==> h4[a] == h3[a]
    requires RplcSaved(h0, rq, rq0, rplc)
    ensures LeftAs(h0, h4, refVec, rq, a)
  {
    hide Twice;
    if Holds(rq, a) {
      var i: nat :| HoldsAt(rq, i, a);
      assert h4[rq.items[i].thing] == h3[rq.items[i].thing].(cls := rq.items[i].orig);
    }
    if rplc.Some? && a in MapOf(rplc.value) {
      ReplacedIsHeld(h0, rq, rq0, rplc.value, a);
    }
  }

  lemma ReplacedIsHeld(h0: Heap, rq: SaveQueue, rq0: SaveQueue, t: Table, a: nat)
    requires RplcSaved(h0, rq, rq0, Some(t)) && a in MapOf(t) && a in h0
    ensures Holds(rq, a)
  {
    MapOfIs(t);
    var i: nat :| i < |t| && t[i].0 == a;
    assert HoldsAt(rq, i, a);
  }

  // ------------------------------------------------------------------ when the heap is restored

  /** After a save the heap is what it was, exactly if no object outside the queue of replaced
      objects is a reference twice, and that queue records the class words of this heap. The
      queue is refilled only by a save with a replacement table: without one it still holds the
      objects and class words of an earlier save. */
  lemma RestoredExactly(h0: Heap, h: Heap, refVec: seq<nat>, rq: SaveQueue)
    requires h.Keys == h0.Keys && Ordinary(h0) && (forall a | a in h0 :: LeftAs(h0, h, refVec, rq, a))
    ensures h == h0 <==> forall a | a in h0 ::
      if Holds(rq, a) then forall i: nat | HoldsAt(rq, i, a) && i < |rq.items| :: rq.items[i].orig == h0[a].cls else !Twice(refVec, a)
  {
    hide Twice;
    forall a | a in h0
      ensures h[a] == h0[a] <==>
        if Holds(rq, a) then forall i: nat | HoldsAt(rq, i, a) && i < |rq.items| :: rq.items[i].orig == h0[a].cls else !Twice(refVec, a)
    {
      assert LeftAs(h0, h, refVec, rq, a);
    }
  }

  /** With a replacement table and no repeated reference, every class word comes back. */
  lemma RestoredWithTable(h0: Heap, h: Heap, refVec: seq<nat>, rq: SaveQueue, rq0: SaveQueue, t: Table)
    requires h.Keys == h0.Keys && Ordinary(h0) && (forall a | a in h0 :: LeftAs(h0, h, refVec, rq, a))
    requires RplcSaved(h0, rq, rq0, Some(t)) && Distinct(refVec) && forall i: nat | i < |t| :: t[i].0 in h0
    ensures h == h0
  {
    RestoredExactly(h0, h, refVec, rq);
    forall a | a in h0 ensures h[a] == h0[a] {
      assert LeftAs(h0, h, refVec, rq, a);
      if Holds(rq, a) {
        var i: nat :| HoldsAt(rq, i, a);
      }
    }
  }

  // ------------------------------------------------------------------ phase 4, and the whole

  lemma RefsFirst(j: Job, root: Word, qs: seq<SaveQueue>)
    requires QueuesOk(j, root, qs) && |qs| == QUEUES
    ensures |qs[REFS].items| <= |Order(qs)|
    ensures forall k: nat | k < |Order(qs)| :: k < |qs[REFS].items| <==> Order(qs)[k] in j.refs
  {
    hide Reach, InQueue;
    ThingsAre(j, root, qs, REFS);
    ThingsFromAre(j, root, qs, 0);
    ThingsLength(qs[REFS]);
    forall k: nat | k < |Order(qs)| ensures k < |qs[REFS].items| <==> Order(qs)[k] in j.refs {
      var a := Order(qs)[k];
      if k < |qs[REFS].items| {
        assert a == Things(qs[REFS])[k] && a in Things(qs[REFS]);
        if a !in j.refs { ModeIsNotRefs(j, a); }
      } else {
        assert a == ThingsFrom(qs, 0)[k - |Things(qs[REFS])|] && a in ThingsFrom(qs, 0);
      }
    }
  }

  lemma OrderFits(j: Job, root: Word, qs: seq<SaveQueue>)
    requires QueuesOk(j, root, qs) && |qs| == QUEUES
    ensures |Order(qs)| <= |j.h|
  {
    hide Reach, InQueue;
    OrderIs(j, root, qs);
    hide Order, QueuesOk;
    NoMoreThan(Order(qs), j.h.Keys);
  }

  lemma {:induction false} NoMoreThan(s: seq<nat>, t: set<nat>)
    requires Distinct(s) && forall a | a in s :: a in t
    ensures |s| <= |t|
  {
    if s != [] {
      var n := |s| - 1;
      assert s[n] in s;
      forall a | a in s[..n] ensures a in t - {s[n]} {
        var i :| 0 <= i < n && s[..n][i] == a;
        assert s[i] == a && a in s;
      }
      NoMoreThan(s[..n], t - {s[n]});
    }
  }

  /** Phase 4: the frames and the lists, through one output buffer. */
  method Output(hn: Heap, qs: seq<SaveQueue>, refVec: seq<nat>, names: seq<seq<byte>>, hash: seq<byte> -> nat, root: Word,
                ghost j: Job) returns (img: Image, ghost texts: seq<seq<byte>>)
    requires JobOk(j, root) && SizesOk(j, root) && |j.h| < 0x4000_0000 && j.refs == SetOf(refVec)
    requires QueuesOk(j, root, qs) && |qs| == QUEUES && Named(j, hn, Order(qs))
    requires |names| == |refVec| && (forall k: nat | k < |names| :: |names[k]| < WORD) && forall s :: hash(s) < WORD
    ensures Written(img, j, hn, qs, texts, hash, root)
    ensures RefsNamed(Order(qs), j.refs, refVec, names, texts)
  {
    hide JobOk, HeapOk, SizesOk, OrderOk, QueuesOk, Named, Order, Listed, NameWords, EncWords, EncAll, FramesFor, Reach, InQueue, FramesOk, Things, Words32;
    OrderIs(j, root, qs);
    OrderFits(j, root, qs);
    ReachedOrderOk(j, root, qs);
    JobHeapOk(j, root);
    RefsFirst(j, root, qs);
    var strings := BuildRefTexts(hn, refVec, names, |qs[REFS].items|, j, Order(qs));
    texts := strings;
    TextsFit(Order(qs), refVec, names, texts);
    var out := new OutputBuffer(1280000);
    var count := WriteFrames(out, hn, qs, strings, hash, j, root);
    var dalen := out.Posn();
    ghost var data := out.Contents();
    forall ts ensures Words32(NameWords(hn, ts)) {
      NameWordsOk(j, hn, Order(qs), ts);
    }
    var counts := WriteTables(out, hn, qs);
    out.Flush(0);
    assert out.file == out.Contents();
    img := Image(count, Unswizzle(hn, root), out.file[..dalen], counts, out.file[dalen..]);
  }

  lemma JobHeapOk(j: Job, root: Word)
    requires JobOk(j, root)
    ensures HeapOk(j) && (root.Ptr? ==> root.at in j.h)
  {
  }

  lemma TextsFit(order: seq<nat>, refVec: seq<nat>, names: seq<seq<byte>>, texts: seq<seq<byte>>)
    requires |names| == |refVec| && (forall k: nat | k < |names| :: |names[k]| < WORD) && |texts| <= |order|
    requires forall k: nat | k < |texts| :: order[k] in refVec && texts[k] == names[Last(refVec, order[k])]
    ensures forall k: nat | k < |texts| :: |texts[k]| < WORD
  {
    forall k: nat | k < |texts| ensures |texts[k]| < WORD {
      assert LastAt(refVec, Last(refVec, order[k]), order[k]);
    }
  }

  /** rs_save_image_file: the image holds exactly the reachable objects, and the class words are
      left as LeftAs says; unless the traversal stops the program. */
  method SaveImage(s: ImageSaver, root: Word, refVec: seq<nat>, names: seq<seq<byte>>, rplc: Option<Table>, hash: seq<byte> -> nat)
      returns (img: Image, tripped: bool, ghost hn: Heap, ghost qs: seq<SaveQueue>, ghost texts: seq<seq<byte>>)
    requires SaveOk(s.heap, s.rplcQueue, refVec, names, rplc, root) && forall t :: hash(t) < WORD
    modifies s
    ensures tripped <==> MeetsChain(JobFor(old(s.heap), refVec, rplc), root)
    ensures !tripped ==> var j := JobFor(old(s.heap), refVec, rplc);
      && Written(img, j, hn, qs, texts, hash, root)
      && (forall a :: a in Order(qs) <==> Reach(j, root, a))
      && RefsNamed(Order(qs), j.refs, refVec, names, texts)
    ensures !tripped ==> s.heap.Keys == old(s.heap).Keys
    ensures !tripped ==> forall a | a in old(s.heap) :: LeftAs(old(s.heap), s.heap, refVec, s.rplcQueue, a)
    ensures !tripped ==> RplcSaved(old(s.heap), s.rplcQueue, old(s.rplcQueue), rplc) && QueueDistinct(s.rplcQueue)
  {
    hide Reach, QueuesOk, InQueue, Named, JobOk, HeapOk, SizesOk, Order, Written, LeftAs, RplcSaved, SavedFor, RefsNamed;
    ghost var h0, rq0 := s.heap, s.rplcQueue;
    ghost var j := JobFor(h0, refVec, rplc);
    JobHeapOk(j, root);
    var saved;
    img, hn, qs, texts := Image(0, 0, [], [], []), h0, [], [];
    saved, tripped := Prepare(s, root, refVec, names, rplc);
    if tripped {
      return;
    }
    qs, hn := s.queues, s.heap;
    OrderIs(j, root, qs);
    img, texts := Output(s.heap, s.queues, refVec, names, hash, root, j);
    RplcDistinct(h0, s.rplcQueue, rq0, refVec, rplc);
    Cleanup(s, refVec, saved, rplc, root, h0, rq0);
  }

  lemma RplcDistinct(h0: Heap, rq: SaveQueue, rq0: SaveQueue, refVec: seq<nat>, rplc: Option<Table>)
    requires RplcSaved(h0, rq, rq0, rplc) && HeapOk(JobFor(h0, refVec, rplc)) && (rplc.Some? ==> KeysDistinct(rplc.value))
    requires rplc.None? ==> QueueDistinct(rq0) && forall i: nat | i < |rq0.items| :: rq0.items[i].thing in h0
    ensures QueueDistinct(rq) && forall i: nat | i < |rq.items| :: rq.items[i].thing in h0
  {
    KeysInHeap(h0, refVec, rplc);
    hide HeapOk;
    if rplc.Some? {
      forall i, k | 0 <= i < k < |rq.items| ensures rq.items[i].thing != rq.items[k].thing {
        assert rplc.value[i].0 != rplc.value[k].0;
      }
    }
  }

  // ------------------------------------------------------------------ saves that do not restore the heap

  /** A class of image mode 0 that is its own class, and an instance of it. */
  function TwoObjects(): Heap {
    map[1 := HObj(Class(1), Slots([Imm(0), Imm(0), Imm(0)])), 2 := HObj(Class(1), Slots([]))]
  }

  lemma {:induction false} NothingReached(j: Job, w: nat, a: nat, n: nat)
    ensures !ReachIn(j, Imm(w), a, n)
    decreases n
  {
    if n > 0 {
      forall b, t ensures !(ReachIn(j, Imm(w), b, n - 1) && Target(j, b, t) && a == Rep(j, t)) {
        NothingReached(j, w, b, n - 1);
      }
    }
  }

  /** What a save needs when its traversal takes nothing. */
  lemma NothingTaken(h: Heap, rq: SaveQueue, refVec: seq<nat>, names: seq<seq<byte>>, rplc: Option<Table>, root: Word)
    requires HeapOk(JobFor(h, refVec, rplc)) && |h| < 0x4000_0000 && (rplc.Some? ==> KeysDistinct(rplc.value))
    requires |names| == |refVec| && (forall k: nat | k < |names| :: |names[k]| < WORD)
    requires QueueDistinct(rq) && forall i: nat | i < |rq.items| :: rq.items[i].thing in h
    requires if root.Ptr? then root.at in h else root.bits < WORD
    requires forall a | Reach(JobFor(h, refVec, rplc), root, a) :: Chained(JobFor(h, refVec, rplc), a)
    ensures SaveOk(h, rq, refVec, names, rplc, root)
  {
    hide HeapOk, Reach, Chained;
  }

  lemma NothingToSave(h: Heap, rq: SaveQueue, refVec: seq<nat>, names: seq<seq<byte>>, rplc: Option<Table>)
    requires HeapOk(JobFor(h, refVec, rplc)) && |h| < 0x4000_0000 && (rplc.Some? ==> KeysDistinct(rplc.value))
    requires |names| == |refVec| && (forall k: nat | k < |names| :: |names[k]| < WORD)
    requires QueueDistinct(rq) && forall i: nat | i < |rq.items| :: rq.items[i].thing in h
    ensures SaveOk(h, rq, refVec, names, rplc, Imm(0)) && !MeetsChain(JobFor(h, refVec, rplc), Imm(0))
  {
    hide HeapOk;
    forall a ensures !Reach(JobFor(h, refVec, rplc), Imm(0), a) {
      forall n: nat ensures !ReachIn(JobFor(h, refVec, rplc), Imm(0), a, n) {
        NothingReached(JobFor(h, refVec, rplc), 0, a, n);
      }
    }
  }

  /** A save whose reference vector names an object twice leaves that object marked. */
  method RepeatedReference(hash: seq<byte> -> nat) returns (s: ImageSaver)
    requires forall t :: hash(t) < WORD
    ensures s.heap.Keys == TwoObjects().Keys && TwoObjects()[2].cls == Class(1) && s.heap[2].cls == RefMark
  {
    hide Written, RefsNamed, Reach;
    s := new ImageSaver(TwoObjects());
    NothingToSave(s.heap, s.rplcQueue, [2, 2], [[], []], None);
    var img, tripped;
    ghost var hn, qs, texts;
    img, tripped, hn, qs, texts := SaveImage(s, Imm(0), [2, 2], [[], []], None, hash);
    assert LeftAs(TwoObjects(), s.heap, [2, 2], s.rplcQueue, 2);
    assert Twice([2, 2], 2) by { assert [2, 2][0] == [2, 2][1] == 2; }
    assert !Holds(s.rplcQueue, 2);
  }

  /** A save with a replacement leaves the heap as it was, and the replaced object in the queue. */
  method SaveReplaced(hash: seq<byte> -> nat) returns (s: ImageSaver)
    requires forall t :: hash(t) < WORD
    ensures fresh(s) && s.heap == TwoObjects() && s.rplcQueue.items == [QEntry(2, Class(1))]
  {
    hide Written, RefsNamed, Reach, SaveOk, LeftAs;
    var h := TwoObjects();
    s := new ImageSaver(h);
    var img, tripped;
    ghost var hn, qs, texts;
    ReplaceTwo(h);
    NothingToSave(h, s.rplcQueue, [], [], Some([(2, 1)]));
    img, tripped, hn, qs, texts := SaveImage(s, Imm(0), [], [], Some([(2, 1)]), hash);
    RestoredWithTable(h, s.heap, [], s.rplcQueue, EMPTY_QUEUE, [(2, 1)]);
  }

  /** Then the object changes its class, and a save without replacements puts the old class back. */
  method StaleQueue(hash: seq<byte> -> nat) returns (s: ImageSaver, before: Heap)
    requires forall t :: hash(t) < WORD
    ensures before.Keys == s.heap.Keys == TwoObjects().Keys
    ensures before[2].cls == Class(2) && s.heap[2].cls == Class(1)
  {
    hide Written, RefsNamed, Reach, SaveOk, LeftAs;
    s := SaveReplaced(hash);
    s.heap := s.heap[2 := HObj(Class(2), Slots([]))];
    before := s.heap;
    NoRefs(before);
    NothingToSave(before, s.rplcQueue, [], [], None);
    var img, tripped;
    ghost var hn, qs, texts;
    img, tripped, hn, qs, texts := SaveImage(s, Imm(0), [], [], None, hash);
    LeftFromQueue(before, s.heap, s.rplcQueue);
  }

  lemma LeftFromQueue(h0: Heap, h: Heap, rq: SaveQueue)
    requires 2 in h0 && 2 in h && LeftAs(h0, h, [], rq, 2) && rq.items == [QEntry(2, Class(1))]
    ensures h[2].cls == Class(1)
  {
    assert HoldsAt(rq, 0, 2);
  }

  lemma ReplaceTwo(h: Heap)
    requires h == TwoObjects()
    ensures HeapOk(JobFor(h, [], Some([(2, 1)])))
  {
    assert MapOf([(2, 1)]) == MapOf([])[2 := 1];
  }

  lemma NoRefs(h: Heap)
    requires Ordinary(h)
    ensures HeapOk(JobFor(h, [], None))
  {
  }

  // ------------------------------------------------------------------ a replacement that is itself replaced

  /** Object 2 is replaced by 3, and 3 by 4. */
  function ChainedHeap(): Heap {
    TwoObjects() + map[3 := HObj(Class(1), Slots([])), 4 := HObj(Class(1), Slots([]))]
  }

  /** Saving object 2 stops the program. */
  method ChainedReplacement(hash: seq<byte> -> nat) returns (tripped: bool)
    requires forall t :: hash(t) < WORD
    ensures tripped
  {
    hide Written, RefsNamed, Reach, SaveOk, LeftAs, MeetsChain;
    var s := new ImageSaver(ChainedHeap());
    var img;
    ghost var hn, qs, texts;
    OnlyChained();
    img, tripped, hn, qs, texts := SaveImage(s, Ptr(2), [], [], Some([(2, 3), (3, 4)]), hash);
  }

  /** From such a replacement the traversal gets no further. */
  lemma {:induction false} NothingElse(j: Job, w: nat, a: nat, n: nat)
    requires Chained(j, Rep(j, w)) && ReachIn(j, Ptr(w), a, n)
    ensures a == Rep(j, w)
    decreases n
  {
    if n > 0 {
      var b, t :| ReachIn(j, Ptr(w), b, n - 1) && Target(j, b, t) && a == Rep(j, t);
      NothingElse(j, w, b, n - 1);
    }
  }

  lemma ChainAtRoot(j: Job, w: nat)
    requires Chained(j, Rep(j, w))
    ensures MeetsChain(j, Ptr(w)) && forall a | Reach(j, Ptr(w), a) :: a == Rep(j, w)
  {
    assert ReachIn(j, Ptr(w), Rep(j, w), 0);
    forall a | Reach(j, Ptr(w), a) ensures a == Rep(j, w) {
      var n: nat :| ReachIn(j, Ptr(w), a, n);
      NothingElse(j, w, a, n);
    }
  }

  lemma OnlyChained()
    ensures MeetsChain(JobFor(ChainedHeap(), [], Some([(2, 3), (3, 4)])), Ptr(2))
    ensures SaveOk(ChainedHeap(), EMPTY_QUEUE, [], [], Some([(2, 3), (3, 4)]), Ptr(2))
  {
    var t: Table := [(2, 3), (3, 4)];
    hide Reach, MeetsChain, SizeOk, ObjOk, ChainedHeap, HeapOk, SaveOk, Chained;
    ChainedJob(t);
    FourObjects();
    ChainAtRoot(JobFor(ChainedHeap(), [], Some(t)), 2);
    NothingTaken(ChainedHeap(), EMPTY_QUEUE, [], [], Some(t), Ptr(2));
  }

  lemma ChainedJob(t: Table)
    requires t == [(2, 3), (3, 4)]
    ensures var j := JobFor(ChainedHeap(), [], Some(t)); HeapOk(j) && Chained(j, Rep(j, 2)) && KeysDistinct(t)
  {
    TwoReplaced(t);
    FourObjects();
    hide ChainedHeap;
  }

  lemma TwoReplaced(t: Table)
    requires t == [(2, 3), (3, 4)]
    ensures MapOf(t) == map[2 := 3, 3 := 4] && KeysDistinct(t)
  {
    assert t[..1] == [(2, 3)] && t[..1][..0] == [];
    assert MapOf(t[..1]) == map[2 := 3];
  }

  lemma FourObjects()
    ensures ChainedHeap().Keys == {1, 2, 3, 4} && forall a | a in ChainedHeap() :: ChainedHeap()[a].cls.Class?
  {
  }
}
