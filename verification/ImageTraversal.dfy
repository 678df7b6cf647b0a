/** The traversal and the naming of an image save (handc/heapi/savetrav.c). */
module ImageTraversals {
  import opened HeapImages

  datatype QEntry = QEntry(thing: nat, orig: ClassWord)

  datatype SaveQueue = SaveQueue(items: seq<QEntry>, ptr: nat)

  const EMPTY_QUEUE: SaveQueue := SaveQueue([], 0)

  ghost predicate InQueue(j: Job, qs: seq<SaveQueue>, a: nat) {
    QueueOf(j, a) < |qs| && exists i: nat :: HoldsAt(qs[QueueOf(j, a)], i, a)
  }

  ghost predicate HoldsAt(q: SaveQueue, i: nat, a: nat) {
    i < |q.items| && q.items[i].thing == a
  }

  /** The class word shows what has been reached. */
  ghost predicate Marked(j: Job, heap: Heap, qs: seq<SaveQueue>) {
    && heap.Keys == j.h.Keys
    && forall a | a in j.h :: heap[a] == HObj(if InQueue(j, qs, a) then Reached else Initial(j, a), j.h[a].body)
  }

  ghost predicate EntryOk(j: Job, start: Word, q: SaveQueue, m: nat, i: nat)
    requires i < |q.items|
  {
    var e := q.items[i];
    && e.thing in j.h && QueueOf(j, e.thing) == m && Reach(j, start, e.thing)
    && !Chained(j, e.thing)
    && e.orig == (if m == REFS then RefMark else j.h[e.thing].cls)
  }

  /** Every reached object is in its own queue once. */
  ghost predicate QueueOk(j: Job, start: Word, q: SaveQueue, m: nat) {
    && q.ptr <= |q.items|
    && (forall i: nat | i < |q.items| :: EntryOk(j, start, q, m, i))
    && (forall i: nat, k: nat | i < k < |q.items| :: q.items[i].thing != q.items[k].thing)
  }

  ghost predicate QueuesOk(j: Job, start: Word, qs: seq<SaveQueue>) {
    |qs| == QUEUES && forall m: nat | m < QUEUES :: QueueOk(j, start, qs[m], m)
  }

  /** Everything the scan of these objects spots is in a queue. */
  ghost predicate Expanded(j: Job, qs: seq<SaveQueue>, done: set<nat>) {
    forall a, t | a in done && Target(j, a, t) :: InQueue(j, qs, Rep(j, t))
  }

  ghost predicate TraversalOk(j: Job, start: Word, heap: Heap, qs: seq<SaveQueue>, done: set<nat>) {
    JobOk(j, start) && Marked(j, heap, qs) && QueuesOk(j, start, qs) && Expanded(j, qs, done)
  }

  function Enqueued(qs: seq<SaveQueue>, m: nat, e: QEntry): seq<SaveQueue>
    requires m < |qs|
  {
    qs[m := qs[m].(items := qs[m].items + [e])]
  }

  lemma EnqueuedIn(j: Job, qs: seq<SaveQueue>, m: nat, e: QEntry, a: nat)
    requires |qs| == QUEUES && m == QueueOf(j, e.thing) && m < QUEUES
    ensures InQueue(j, Enqueued(qs, m, e), a) <==> InQueue(j, qs, a) || a == e.thing
  {
    var qs2 := Enqueued(qs, m, e);
    var k := QueueOf(j, a);
    if InQueue(j, qs, a) {
      var i: nat :| HoldsAt(qs[k], i, a);
      assert HoldsAt(qs2[k], i, a);
    }
    if a == e.thing {
      assert HoldsAt(qs2[m], |qs[m].items|, a);
    }
    if InQueue(j, qs2, a) {
      var i: nat :| HoldsAt(qs2[k], i, a);
      if k != m || i < |qs[m].items| {
        assert HoldsAt(qs[k], i, a);
      }
    }
  }

  /** Queueing an object that had not been reached. */
  lemma SpotKeeps(j: Job, start: Word, heap: Heap, qs: seq<SaveQueue>, done: set<nat>, a: nat, m: nat)
    requires TraversalOk(j, start, heap, qs, done) && a in j.h && Reach(j, start, a) && !InQueue(j, qs, a)
    requires m == QueueOf(j, a) && !Chained(j, a)
    ensures m < QUEUES && TraversalOk(j, start, heap[a := heap[a].(cls := Reached)], Enqueued(qs, m, QEntry(a, heap[a].cls)), done)
    ensures InQueue(j, Enqueued(qs, m, QEntry(a, heap[a].cls)), a)
  {
    var e := QEntry(a, heap[a].cls);
    hide InQueue, QueueOk, JobOk, Reach, Marked, Expanded;
    QueueInRange(j, a);
    SpotMarked(j, heap, qs, a, m, e);
    EnqueueOk(j, start, qs, m, e);
    ExpandedMore(j, qs, m, e, done);
    EnqueuedIn(j, qs, m, e, a);
  }

  lemma SpotMarked(j: Job, heap: Heap, qs: seq<SaveQueue>, a: nat, m: nat, e: QEntry)
    requires Marked(j, heap, qs) && a in j.h && |qs| == QUEUES && m == QueueOf(j, a) && m < QUEUES && e.thing == a
    ensures Marked(j, heap[a := heap[a].(cls := Reached)], Enqueued(qs, m, e))
  {
    hide InQueue, QueueOf, Initial;
    var heap2, qs2 := heap[a := heap[a].(cls := Reached)], Enqueued(qs, m, e);
    forall b | b in j.h ensures heap2[b] == HObj(if InQueue(j, qs2, b) then Reached else Initial(j, b), j.h[b].body) {
      EnqueuedIn(j, qs, m, e, b);
    }
  }

  lemma ExpandedMore(j: Job, qs: seq<SaveQueue>, m: nat, e: QEntry, done: set<nat>)
    requires Expanded(j, qs, done) && |qs| == QUEUES && m == QueueOf(j, e.thing) && m < QUEUES
    ensures Expanded(j, Enqueued(qs, m, e), done)
  {
    hide InQueue, QueueOf, Target, Enqueued;
    forall a, t | a in done && Target(j, a, t) ensures InQueue(j, Enqueued(qs, m, e), Rep(j, t)) {
      EnqueuedIn(j, qs, m, e, Rep(j, t));
    }
  }

  lemma QueueInRange(j: Job, a: nat)
    ensures QueueOf(j, a) < QUEUES
  {
  }

  lemma EnqueueOk(j: Job, start: Word, qs: seq<SaveQueue>, m: nat, e: QEntry)
    requires QueuesOk(j, start, qs) && m == QueueOf(j, e.thing) && e.thing in j.h && Reach(j, start, e.thing)
    requires !InQueue(j, qs, e.thing) && !Chained(j, e.thing) && e.orig == (if m == REFS then RefMark else j.h[e.thing].cls)
    ensures QueuesOk(j, start, Enqueued(qs, m, e))
  {
    hide Reach;
    var q, q2 := qs[m], qs[m].(items := qs[m].items + [e]);
    forall i: nat | i < |q2.items| ensures EntryOk(j, start, q2, m, i) {
      assert i < |q.items| ==> EntryOk(j, start, q, m, i);
    }
    assert forall i: nat | i < |q.items| :: HoldsAt(q, i, q.items[i].thing);
    assert QueueOk(j, start, q2, m);
    hide QueueOk;
  }

  /** The queues only grow. */
  ghost predicate Grown(qs: seq<SaveQueue>, qs2: seq<SaveQueue>) {
    |qs| == |qs2| && forall m: nat | m < |qs| :: qs[m].ptr == qs2[m].ptr && qs[m].items <= qs2[m].items
  }

  lemma GrownIn(j: Job, qs: seq<SaveQueue>, qs2: seq<SaveQueue>, a: nat)
    requires Grown(qs, qs2) && InQueue(j, qs, a)
    ensures InQueue(j, qs2, a)
  {
    var i: nat :| HoldsAt(qs[QueueOf(j, a)], i, a);
    assert HoldsAt(qs2[QueueOf(j, a)], i, a);
  }

  class ImageSaver {
    /** The heap's objects; a save overwrites their class words in place. */
    var heap: Heap
    /** The queues of image_modes, then used_refs. */
    var queues: seq<SaveQueue>
    var rplcQueue: SaveQueue

    /** Before the first save: the static queue of replaced objects is empty. */
    constructor (h: Heap)
      ensures heap == h && rplcQueue == EMPTY_QUEUE && fresh(this)
    {
      heap, queues, rplcQueue := h, [], EMPTY_QUEUE;
    }

    /** spot_object.  `tripped` is the assertion that a class word is a class. */
    method SpotObject(w: Word, ghost j: Job, ghost start: Word, ghost done: set<nat>) returns (tripped: bool)
      requires TraversalOk(j, start, heap, queues, done)
      requires w.Ptr? ==> w.at in j.h && Reach(j, start, Rep(j, w.at))
      modifies this`heap, this`queues
      ensures tripped <==> w.Ptr? && Chained(j, Rep(j, w.at))
      ensures tripped ==> heap == old(heap) && queues == old(queues)
      ensures TraversalOk(j, start, heap, queues, done) && Grown(old(queues), queues)
      ensures w.Ptr? && !tripped ==> InQueue(j, queues, Rep(j, w.at))
    {
      hide QueuesOk, InQueue, Reach, Expanded, Marked, JobOk, QueueOf, ImageMode, Rep, Chained;
      if w.Ptr? {
        PointsTo(j, start, heap, queues, done, w.at);
        PointsToKnown(j, start, heap, queues, done, w.at);
        var thing := if heap[w.at].cls.Replaced? then heap[w.at].cls.rep else w.at;
        if heap[thing].cls != Reached {
          var m: nat := REFS;
          if heap[thing].cls != RefMark {
            if heap[thing].cls.Replaced? {
              return true;
            }
            var c := heap[thing].cls.c;
            PointsTo(j, start, heap, queues, done, c);
            var rplc := if heap[c].cls.Replaced? then heap[c].cls.rep else c;
            m := Legal(ImageMode(heap, rplc));
            SameMode(j, start, heap, queues, done, thing, rplc);
          }
          SpotKeeps(j, start, heap, queues, done, thing, m);
          queues := Enqueued(queues, m, QEntry(thing, heap[thing].cls));
          heap := heap[thing := heap[thing].(cls := Reached)];
        }
      }
      return false;
    }

    /** The scan of one object: its class, then its slots if the mode says so. */
    method ScanObject(x: nat, m: nat, orig: nat, ghost j: Job, ghost start: Word, ghost done: set<nat>) returns (tripped: bool)
      requires TraversalOk(j, start, heap, queues, done) && x in j.h && x !in j.refs && !Chained(j, x) && Reach(j, start, x)
      requires m == Mode(j, x) && ScansClass(m) && orig == ClassOf(j, x)
      modifies this`heap, this`queues
      ensures tripped ==> MeetsChain(j, start)
      ensures !tripped ==> TraversalOk(j, start, heap, queues, done + {x}) && Grown(old(queues), queues)
    {
      hide QueuesOk, InQueue, Reach, Expanded, Marked, JobOk, Rep, ClassOf, Mode, Chained;
      ghost var qs0 := queues;
      ClassTarget(j, start, x);
      tripped := SpotObject(Ptr(orig), j, start, done);
      if tripped {
        return;
      }
      if ScansSlots(m) {
        BodyKept(j, start, heap, queues, x);
        var s := heap[x].body.s;
        ghost var qs1 := queues;
        for i := 0 to |s|
          invariant TraversalOk(j, start, heap, queues, done) && Grown(qs1, queues) && !tripped
          invariant forall k: nat | k < i && s[k].Ptr? :: InQueue(j, queues, Rep(j, s[k].at))
        {
          ghost var qs2 := queues;
          if s[i].Ptr? { SlotTarget(j, start, x, i); }
          tripped := SpotObject(s[i], j, start, done);
          if tripped {
            return;
          }
          forall k: nat | k < i && s[k].Ptr? ensures InQueue(j, queues, Rep(j, s[k].at)) {
            GrownIn(j, qs2, queues, Rep(j, s[k].at));
          }
        }
        GrownIn(j, qs1, queues, Rep(j, ClassOf(j, x)));
      }
      OneExpanded(j, queues, done, x);
    }

    /** QUEUE_SCANNER: a queue is emptied, while the scans may add to it. */
    method ScanQueue(m: nat, ghost j: Job, ghost start: Word, ghost done: set<nat>)
        returns (any: bool, tripped: bool, ghost done2: set<nat>)
      requires TraversalOk(j, start, heap, queues, done) && DoneIs(queues, done) && done <= j.h.Keys && m < MODES
      modifies this`heap, this`queues
      ensures tripped ==> MeetsChain(j, start)
      ensures !tripped ==> TraversalOk(j, start, heap, queues, done2) && DoneIs(queues, done2) && done <= done2 <= j.h.Keys
      ensures !tripped && any ==> done < done2
      ensures !tripped && !any ==> queues == old(queues) && heap == old(heap) && done2 == done && Drained(queues, m)
      ensures !tripped ==> forall a | InQueue(j, old(queues), a) :: InQueue(j, queues, a)
    {
      hide QueuesOk, InQueue, Reach, Expanded, Marked, JobOk, DoneIs, ClassOf, Mode, Chained;
      any, tripped, done2 := false, false, done;
      HowMany(j, start, queues);
      if !ScansClass(m) {
        return;
      }
      while queues[m].ptr < |queues[m].items|
        invariant |queues| == QUEUES && TraversalOk(j, start, heap, queues, done2) && DoneIs(queues, done2) && !tripped
        invariant done <= done2 <= j.h.Keys && (any ==> done < done2)
        invariant !any ==> queues == old(queues) && heap == old(heap) && done2 == done
        invariant forall a | InQueue(j, old(queues), a) :: InQueue(j, queues, a)
        decreases j.h.Keys - done2
      {
        var e := queues[m].items[queues[m].ptr];
        TakeNext(j, start, heap, queues, done2, m);
        TakeKeeps(j, queues, m);
        queues := Take(queues, m);
        ghost var qs0 := queues;
        PtrsOk(j, start, queues);
        tripped := ScanObject(e.thing, m, e.orig.c, j, start, done2);
        if tripped {
          return;
        }
        GrownDone(qs0, queues, done2 + {e.thing});
        GrownKeeps(j, qs0, queues);
        HowMany(j, start, queues);
        any, done2 := true, done2 + {e.thing};
      }
    }

    /** traverse_all, after the root has been spotted: it ends, with exactly the reachable objects
        queued, each once and in the queue of its mode; or an assertion stops it, exactly if a
        replacement that is itself replaced is reachable. */
    method TraverseAll(ghost j: Job, ghost start: Word) returns (tripped: bool)
      requires TraversalOk(j, start, heap, queues, {}) && DoneIs(queues, {})
      requires start.Ptr? ==> InQueue(j, queues, Rep(j, start.at))
      modifies this`heap, this`queues
      ensures tripped <==> MeetsChain(j, start)
      ensures !tripped ==> JobOk(j, start) && Marked(j, heap, queues) && QueuesOk(j, start, queues)
      ensures !tripped ==> forall a :: InQueue(j, queues, a) <==> Reach(j, start, a)
    {
      hide QueuesOk, InQueue, Reach, Expanded, Marked, JobOk, DoneIs, Drained, MeetsChain;
      ghost var done: set<nat> := {};
      var anyNew := true;
      tripped := false;
      while anyNew
        invariant TraversalOk(j, start, heap, queues, done) && DoneIs(queues, done) && done <= j.h.Keys && !tripped
        invariant start.Ptr? ==> InQueue(j, queues, Rep(j, start.at))
        invariant !anyNew ==> forall m: nat | m < MODES :: Drained(queues, m)
        decreases j.h.Keys - done, anyNew
      {
        anyNew := false;
        ghost var done0 := done;
        for i := 0 to MODES
          invariant TraversalOk(j, start, heap, queues, done) && DoneIs(queues, done) && done0 <= done <= j.h.Keys && !tripped
          invariant start.Ptr? ==> InQueue(j, queues, Rep(j, start.at))
          invariant anyNew ==> done0 < done
          invariant !anyNew ==> done == done0 && forall m: nat | m < i :: Drained(queues, m)
        {
          var any;
          any, tripped, done := ScanQueue(i, j, start, done);
          if tripped {
            return;
          }
          if any {
            anyNew := true;
          }
        }
      }
      TraversalComplete(j, start, heap, queues, done);
      NoChainMet(j, start, queues);
    }
  }

  /** When all that is reachable is queued there is no such replacement. */
  lemma NoChainMet(j: Job, start: Word, qs: seq<SaveQueue>)
    requires QueuesOk(j, start, qs) && forall a :: InQueue(j, qs, a) <==> Reach(j, start, a)
    ensures !MeetsChain(j, start)
  {
    hide QueuesOk, InQueue, Reach, Chained;
    forall a | Reach(j, start, a) ensures !Chained(j, a) {
      QueuedIs(j, start, qs, a);
    }
  }

  lemma HowMany(j: Job, start: Word, qs: seq<SaveQueue>)
    requires QueuesOk(j, start, qs)
    ensures |qs| == QUEUES
  {
  }

  lemma PtrsOk(j: Job, start: Word, qs: seq<SaveQueue>)
    requires QueuesOk(j, start, qs)
    ensures forall m: nat | m < |qs| :: qs[m].ptr <= |qs[m].items|
  {
    assert forall m: nat | m < QUEUES :: QueueOk(j, start, qs[m], m);
  }

  lemma TakeKeeps(j: Job, qs: seq<SaveQueue>, m: nat)
    requires m < |qs|
    ensures forall a | InQueue(j, qs, a) :: InQueue(j, Take(qs, m), a)
  {
    forall a | InQueue(j, qs, a) ensures InQueue(j, Take(qs, m), a) {
      TakeSame(j, qs, m, a);
    }
  }

  lemma GrownKeeps(j: Job, qs: seq<SaveQueue>, qs2: seq<SaveQueue>)
    requires Grown(qs, qs2)
    ensures forall a | InQueue(j, qs, a) :: InQueue(j, qs2, a)
  {
    forall a | InQueue(j, qs, a) ensures InQueue(j, qs2, a) {
      GrownIn(j, qs, qs2, a);
    }
  }

  /** done is what has been taken from the queues. */
  ghost predicate DoneIs(qs: seq<SaveQueue>, done: set<nat>) {
    forall a :: a in done <==> exists m: nat, i: nat :: TakenAt(qs, m, i, a)
  }

  ghost predicate TakenAt(qs: seq<SaveQueue>, m: nat, i: nat, a: nat) {
    m < |qs| && i < qs[m].ptr && i < |qs[m].items| && qs[m].items[i].thing == a
  }

  lemma GrownDone(qs: seq<SaveQueue>, qs2: seq<SaveQueue>, done: set<nat>)
    requires DoneIs(qs, done) && Grown(qs, qs2) && forall m: nat | m < |qs| :: qs[m].ptr <= |qs[m].items|
    ensures DoneIs(qs2, done)
  {
    forall a ensures a in done <==> exists m: nat, i: nat :: TakenAt(qs2, m, i, a) {
      if a in done {
        var m: nat, i: nat :| TakenAt(qs, m, i, a);
        assert TakenAt(qs2, m, i, a);
      }
      if m: nat, i: nat :| TakenAt(qs2, m, i, a) {
        assert TakenAt(qs, m, i, a);
      }
    }
  }

  function Take(qs: seq<SaveQueue>, m: nat): seq<SaveQueue>
    requires m < |qs|
  {
    qs[m := qs[m].(ptr := qs[m].ptr + 1)]
  }

  /** hi_dequeue_item: the next object is taken for the first time. */
  lemma TakeNext(j: Job, start: Word, heap: Heap, qs: seq<SaveQueue>, done: set<nat>, m: nat)
    requires TraversalOk(j, start, heap, qs, done) && DoneIs(qs, done) && m < MODES && |qs| == QUEUES && qs[m].ptr < |qs[m].items|
    ensures var e := qs[m].items[qs[m].ptr];
      && e.thing !in done && e.thing in j.h && e.thing !in j.refs && !Chained(j, e.thing) && Reach(j, start, e.thing) && Mode(j, e.thing) == m
      && e.orig == Class(ClassOf(j, e.thing))
      && TraversalOk(j, start, heap, Take(qs, m), done) && DoneIs(Take(qs, m), done + {e.thing})
  {
    var e := qs[m].items[qs[m].ptr];
    assert QueueOk(j, start, qs[m], m) && EntryOk(j, start, qs[m], m, qs[m].ptr);
    ReachedOk(j, start, e.thing);
    if e.thing in done {
      var k: nat, i: nat :| TakenAt(qs, k, i, e.thing);
      TakenBefore(j, start, qs, m, k, i);
    }
    TakeDone(qs, m, done);
    TakeOk(j, start, heap, qs, done, m);
  }

  lemma TakenBefore(j: Job, start: Word, qs: seq<SaveQueue>, m: nat, k: nat, i: nat)
    requires QueuesOk(j, start, qs) && m < |qs| && qs[m].ptr < |qs[m].items| && k < |qs| && i < qs[k].ptr && i < |qs[k].items|
    ensures qs[k].items[i].thing != qs[m].items[qs[m].ptr].thing
  {
    assert QueueOk(j, start, qs[m], m) && QueueOk(j, start, qs[k], k);
    assert EntryOk(j, start, qs[m], m, qs[m].ptr) && EntryOk(j, start, qs[k], k, i);
  }

  lemma TakeDone(qs: seq<SaveQueue>, m: nat, done: set<nat>)
    requires m < |qs| && qs[m].ptr < |qs[m].items| && DoneIs(qs, done)
    ensures DoneIs(Take(qs, m), done + {qs[m].items[qs[m].ptr].thing})
  {
    var qs2, x := Take(qs, m), qs[m].items[qs[m].ptr].thing;
    forall a ensures a in done + {x} <==> exists k: nat, i: nat :: TakenAt(qs2, k, i, a) {
      if a in done {
        var k: nat, i: nat :| TakenAt(qs, k, i, a);
        assert TakenAt(qs2, k, i, a);
      }
      assert TakenAt(qs2, m, qs[m].ptr, x);
      if k: nat, i: nat :| TakenAt(qs2, k, i, a) {
        if k != m || i < qs[m].ptr { assert TakenAt(qs, k, i, a); }
      }
    }
  }

  lemma TakeOk(j: Job, start: Word, heap: Heap, qs: seq<SaveQueue>, done: set<nat>, m: nat)
    requires TraversalOk(j, start, heap, qs, done) && m < |qs| && qs[m].ptr < |qs[m].items|
    ensures TraversalOk(j, start, heap, Take(qs, m), done)
  {
    hide JobOk, Reach, Target, QueueOf;
    var qs2 := Take(qs, m);
    forall a ensures InQueue(j, qs2, a) <==> InQueue(j, qs, a) {
      TakeSame(j, qs, m, a);
    }
    forall k: nat | k < QUEUES ensures QueueOk(j, start, qs2[k], k) {
      assert QueueOk(j, start, qs[k], k);
      forall i: nat | i < |qs2[k].items| ensures EntryOk(j, start, qs2[k], k, i) {
        assert EntryOk(j, start, qs[k], k, i);
      }
    }
    hide InQueue, QueueOk;
  }

  lemma TakeSame(j: Job, qs: seq<SaveQueue>, m: nat, a: nat)
    requires m < |qs|
    ensures InQueue(j, Take(qs, m), a) <==> InQueue(j, qs, a)
  {
    var k := QueueOf(j, a);
    if k < |qs| {
      assert forall i: nat :: HoldsAt(Take(qs, m)[k], i, a) <==> HoldsAt(qs[k], i, a);
    }
  }

  ghost predicate Drained(qs: seq<SaveQueue>, m: nat) {
    m < |qs| && ScansClass(m) ==> qs[m].ptr >= |qs[m].items|
  }

  /** When every queue that is scanned is empty, exactly what is reachable is queued. */
  lemma TraversalComplete(j: Job, start: Word, heap: Heap, qs: seq<SaveQueue>, done: set<nat>)
    requires TraversalOk(j, start, heap, qs, done) && DoneIs(qs, done) && (forall m: nat | m < MODES :: Drained(qs, m))
    requires start.Ptr? ==> InQueue(j, qs, Rep(j, start.at))
    ensures forall a :: InQueue(j, qs, a) <==> Reach(j, start, a)
  {
    hide JobOk, Marked, Expanded, QueuesOk, InQueue, Reach;
    forall a ensures InQueue(j, qs, a) <==> Reach(j, start, a) {
      if InQueue(j, qs, a) {
        QueuedIs(j, start, qs, a);
      }
      if Reach(j, start, a) {
        var n := Depth(j, start, a);
        ReachedQueued(j, start, heap, qs, done, a, n);
      }
    }
  }

  ghost function Depth(j: Job, start: Word, a: nat): (n: nat)
    requires Reach(j, start, a)
    ensures ReachIn(j, start, a, n)
  {
    var n: nat :| ReachIn(j, start, a, n);
    n
  }

  lemma {:induction false} ReachedQueued(j: Job, start: Word, heap: Heap, qs: seq<SaveQueue>, done: set<nat>, a: nat, n: nat)
    requires TraversalOk(j, start, heap, qs, done) && DoneIs(qs, done) && (forall m: nat | m < MODES :: Drained(qs, m))
    requires start.Ptr? ==> InQueue(j, qs, Rep(j, start.at))
    requires ReachIn(j, start, a, n)
    ensures InQueue(j, qs, a)
    decreases n
  {
    hide JobOk, Marked, QueuesOk, InQueue, Target;
    if n > 0 {
      var b, t :| ReachIn(j, start, b, n - 1) && Target(j, b, t) && a == Rep(j, t);
      ReachedQueued(j, start, heap, qs, done, b, n - 1);
      ScannedDone(j, start, qs, done, b, t);
    }
  }

  lemma ScannedDone(j: Job, start: Word, qs: seq<SaveQueue>, done: set<nat>, b: nat, t: nat)
    requires QueuesOk(j, start, qs) && DoneIs(qs, done) && (forall m: nat | m < MODES :: Drained(qs, m))
    requires InQueue(j, qs, b) && Target(j, b, t)
    ensures b in done
  {
    hide Reach;
    var m := QueueOf(j, b);
    assert ScansClass(m) && Drained(qs, m);
    var i: nat :| HoldsAt(qs[m], i, b);
    assert TakenAt(qs, m, i, b);
  }

  lemma QueuedIs(j: Job, start: Word, qs: seq<SaveQueue>, a: nat)
    requires QueuesOk(j, start, qs) && InQueue(j, qs, a)
    ensures Reach(j, start, a) && a in j.h && !Chained(j, a)
  {
    hide Reach;
    var m := QueueOf(j, a);
    var i: nat :| HoldsAt(qs[m], i, a);
    assert QueueOk(j, start, qs[m], m);
    assert EntryOk(j, start, qs[m], m, i);
  }

  /** Following a pointer: replace_ptr finds the replacement the job names. */
  lemma PointsTo(j: Job, start: Word, heap: Heap, qs: seq<SaveQueue>, done: set<nat>, a: nat)
    requires TraversalOk(j, start, heap, qs, done) && a in j.h
    ensures a in heap && Rep(j, a) == if heap[a].cls.Replaced? then heap[a].cls.rep else a
    ensures Rep(j, a) in heap && Rep(j, a) in j.h && |qs| == QUEUES
  {
    assert |qs| == QUEUES;
    hide QueuesOk, InQueue, Expanded, Reach, ObjOk;
    if InQueue(j, qs, a) {
      QueuedIs(j, start, qs, a);
    }
  }

  /** The class word of what is reached that way tells what it is. */
  lemma PointsToKnown(j: Job, start: Word, heap: Heap, qs: seq<SaveQueue>, done: set<nat>, a: nat)
    requires TraversalOk(j, start, heap, qs, done) && a in j.h && Reach(j, start, Rep(j, a))
    ensures Known(j, heap, qs, Rep(j, a)) && QueueOf(j, Rep(j, a)) < QUEUES
  {
    QueueInRange(j, Rep(j, a));
    hide QueuesOk, InQueue, Expanded, Reach, ObjOk;
    ReachedOk(j, start, Rep(j, a));
    if InQueue(j, qs, Rep(j, a)) {
      QueuedIs(j, start, qs, Rep(j, a));
    }
    IsKnown(j, heap, qs, Rep(j, a));
  }

  /** What the class word of an object the traversal meets says. */
  ghost predicate Known(j: Job, heap: Heap, qs: seq<SaveQueue>, a: nat) {
    && a in heap && a in j.h
    && (heap[a].cls == Reached <==> InQueue(j, qs, a))
    && (a in j.refs ==> QueueOf(j, a) == REFS)
    && (heap[a].cls != Reached ==> (heap[a].cls == RefMark <==> a in j.refs))
    && (heap[a].cls.Replaced? <==> Chained(j, a))
    && (heap[a].cls != Reached && a !in j.refs && !Chained(j, a) ==> heap[a].cls == Class(ClassOf(j, a)) && ClassOf(j, a) in j.h)
  }

  lemma IsKnown(j: Job, heap: Heap, qs: seq<SaveQueue>, a: nat)
    requires Marked(j, heap, qs) && a in j.h && (InQueue(j, qs, a) ==> !Chained(j, a))
    requires a !in j.refs && !Chained(j, a) ==> ObjOk(j, a)
    ensures Known(j, heap, qs, a)
  {
    hide InQueue;
  }

  lemma SameMode(j: Job, start: Word, heap: Heap, qs: seq<SaveQueue>, done: set<nat>, a: nat, c: nat)
    requires TraversalOk(j, start, heap, qs, done) && a in j.h && a !in j.refs && c == Rep(j, ClassOf(j, a))
    ensures Legal(ImageMode(heap, c)) == QueueOf(j, a)
  {
    hide InQueue, QueuesOk, Expanded, JobOk;
    assert Rep(j, ClassOf(j, a)) in heap ==> heap[c].body == j.h[c].body;
    hide Marked, Rep;
  }

  lemma ClassTarget(j: Job, start: Word, a: nat)
    requires JobOk(j, start) && a in j.h && a !in j.refs && !Chained(j, a) && Reach(j, start, a) && ScansClass(Mode(j, a))
    ensures ClassOf(j, a) in j.h && Reach(j, start, Rep(j, ClassOf(j, a)))
  {
    ReachedOk(j, start, a);
    ReachStep(j, start, a, ClassOf(j, a));
  }

  lemma SlotTarget(j: Job, start: Word, a: nat, i: nat)
    requires JobOk(j, start) && a in j.h && a !in j.refs && !Chained(j, a) && Reach(j, start, a) && ScansSlots(Mode(j, a))
    requires j.h[a].body.Slots? && i < |j.h[a].body.s| && j.h[a].body.s[i].Ptr?
    ensures j.h[a].body.s[i].at in j.h && Reach(j, start, Rep(j, j.h[a].body.s[i].at))
  {
    var t := j.h[a].body.s[i].at;
    ReachedOk(j, start, a);
    assert Ptr(t) in j.h[a].body.s;
    ReachStep(j, start, a, t);
  }

  lemma BodyKept(j: Job, start: Word, heap: Heap, qs: seq<SaveQueue>, a: nat)
    requires JobOk(j, start) && Marked(j, heap, qs) && a in j.h && a !in j.refs && !Chained(j, a) && Reach(j, start, a)
    ensures a in heap && heap[a].body == j.h[a].body && (ScansSlots(Mode(j, a)) ==> heap[a].body.Slots?)
  {
    ReachedOk(j, start, a);
  }

  lemma OneExpanded(j: Job, qs: seq<SaveQueue>, done: set<nat>, x: nat)
    requires Expanded(j, qs, done) && x in j.h && InQueue(j, qs, Rep(j, ClassOf(j, x)))
    requires ScansSlots(Mode(j, x)) && j.h[x].body.Slots? ==>
      (forall k: nat | k < |j.h[x].body.s| && j.h[x].body.s[k].Ptr? :: InQueue(j, qs, Rep(j, j.h[x].body.s[k].at)))
    ensures Expanded(j, qs, done + {x})
  {
    hide InQueue;
    forall t | Target(j, x, t) ensures InQueue(j, qs, Rep(j, t)) {
      if ScansSlots(Mode(j, x)) && j.h[x].body.Slots? && Ptr(t) in j.h[x].body.s {
        var k: nat :| k < |j.h[x].body.s| && j.h[x].body.s[k] == Ptr(t);
      }
    }
  }
}
