/** Setting up, naming and cleaning up around the traversal of an image save
    (handc/heapi/savetrav.c). */
module ImageNames {
  import opened Options
  import opened HeapImages
  import opened ImageTraversals

  // ------------------------------------------------------------------ the order of names

  function Things(q: SaveQueue): seq<nat> { seq(|q.items|, i requires 0 <= i < |q.items| => q.items[i].thing) }

  function ThingsFrom(qs: seq<SaveQueue>, m: nat): seq<nat>
    requires m <= MODES && |qs| == QUEUES
    decreases MODES - m
  {
    if m == MODES then [] else Things(qs[m]) + ThingsFrom(qs, m + 1)
  }

  /** References first, then the modes in order: object number n of the image. */
  function Order(qs: seq<SaveQueue>): seq<nat>
    requires |qs| == QUEUES
  {
    Things(qs[REFS]) + ThingsFrom(qs, 0)
  }

  ghost predicate Distinct(s: seq<nat>) {
    forall i, k | 0 <= i < k < |s| :: s[i] != s[k]
  }

  lemma ThingsAre(j: Job, start: Word, qs: seq<SaveQueue>, m: nat)
    requires QueuesOk(j, start, qs) && m < QUEUES
    ensures Distinct(Things(qs[m])) && forall a :: a in Things(qs[m]) <==> QueueOf(j, a) == m && InQueue(j, qs, a)
    ensures forall a | a in Things(qs[m]) :: a in j.h
  {
    hide Reach;
    assert QueueOk(j, start, qs[m], m);
    forall a ensures a in Things(qs[m]) <==> QueueOf(j, a) == m && InQueue(j, qs, a) {
      if a in Things(qs[m]) {
        var i: nat :| i < |qs[m].items| && Things(qs[m])[i] == a;
        assert EntryOk(j, start, qs[m], m, i) && HoldsAt(qs[m], i, a);
      }
      if QueueOf(j, a) == m && InQueue(j, qs, a) {
        var i: nat :| HoldsAt(qs[m], i, a);
        assert Things(qs[m])[i] == a;
      }
    }
    forall a | a in Things(qs[m]) ensures a in j.h {
      var i: nat :| i < |qs[m].items| && Things(qs[m])[i] == a;
      assert EntryOk(j, start, qs[m], m, i);
    }
  }

  lemma DistinctConcat(s: seq<nat>, t: seq<nat>)
    requires Distinct(s) && Distinct(t) && forall a | a in s :: a !in t
    ensures Distinct(s + t)
  {
    var u := s + t;
    forall i, k | 0 <= i < k < |u| ensures u[i] != u[k] {
      if i < |s| {
        assert u[i] in s;
        if k >= |s| { assert u[k] == t[k - |s|] && u[k] in t; }
      } else {
        assert u[i] == t[i - |s|] && u[k] == t[k - |s|];
      }
    }
  }

  lemma {:induction false} ThingsFromAre(j: Job, start: Word, qs: seq<SaveQueue>, m: nat)
    requires QueuesOk(j, start, qs) && m <= MODES
    ensures Distinct(ThingsFrom(qs, m)) && forall a :: a in ThingsFrom(qs, m) <==> m <= QueueOf(j, a) < MODES && InQueue(j, qs, a)
    decreases MODES - m
  {
    hide Reach, InQueue;
    if m < MODES {
      ThingsAre(j, start, qs, m);
      ThingsFromAre(j, start, qs, m + 1);
      DistinctConcat(Things(qs[m]), ThingsFrom(qs, m + 1));
      hide QueuesOk, QueueOf;
    }
  }

  /** Every reached object gets a name, and no two the same. */
  lemma OrderIs(j: Job, start: Word, qs: seq<SaveQueue>)
    requires QueuesOk(j, start, qs)
    ensures Distinct(Order(qs)) && forall a :: a in Order(qs) <==> InQueue(j, qs, a)
    ensures forall a | a in Order(qs) :: a in j.h
  {
    hide Reach, InQueue;
    ThingsAre(j, start, qs, REFS);
    ThingsFromAre(j, start, qs, 0);
    DistinctConcat(Things(qs[REFS]), ThingsFrom(qs, 0));
    forall a ensures a in Order(qs) <==> InQueue(j, qs, a) {
      QueueInRange(j, a);
    }
    forall a | a in Order(qs) ensures a in j.h {
      QueuedIs(j, start, qs, a);
    }
  }

  /** The first n objects of the order have their names, the rest are still marked as reached. */
  ghost predicate NamedUpTo(j: Job, heap: Heap, order: seq<nat>, n: nat) {
    && n <= |order| && heap.Keys == j.h.Keys
    && (forall k: nat | k < |order| && order[k] in j.h ::
          heap[order[k]] == HObj(if k < n then Name(k) else Reached, j.h[order[k]].body))
    && (forall a | a in j.h && a !in order :: heap[a] == HObj(Initial(j, a), j.h[a].body))
  }

  ghost predicate Named(j: Job, heap: Heap, order: seq<nat>) {
    NamedUpTo(j, heap, order, |order|)
  }

  /** assign_queue_names */
  method AssignNames(s: ImageSaver, m: nat, name: nat, ghost j: Job, ghost order: seq<nat>) returns (name2: nat)
    requires |s.queues| == QUEUES && m < QUEUES && NamedUpTo(j, s.heap, order, name) && Distinct(order)
    requires name + |s.queues[m].items| <= |order| && order[name..name + |s.queues[m].items|] == Things(s.queues[m])
    requires forall a | a in order :: a in j.h
    modifies s`heap
    ensures name2 == name + |s.queues[m].items| && NamedUpTo(j, s.heap, order, name2)
  {
    name2 := name;
    ghost var ts := Things(s.queues[m]);
    for i := 0 to |s.queues[m].items|
      invariant name2 == name + i && NamedUpTo(j, s.heap, order, name2)
    {
      var x := s.queues[m].items[i].thing;
      assert ts[i] == x && order[name..name + |ts|][i] == order[name + i];
      assert x in order;
      s.heap := s.heap[x := s.heap[x].(cls := Name(name2))];
      name2 := name2 + 1;
    }
  }

  /** Phase 3: names for references, then for the modes in order. */
  method AssignAllNames(s: ImageSaver, ghost j: Job, ghost start: Word)
    requires Marked(j, s.heap, s.queues) && QueuesOk(j, start, s.queues)
    modifies s`heap
    ensures |s.queues| == QUEUES && Named(j, s.heap, Order(s.queues))
  {
    hide Reach, InQueue, QueuesOk, NamedUpTo, Distinct, Marked, Things, JobOk, Order, ThingsFrom;
    OrderIs(j, start, s.queues);
    HowMany(j, start, s.queues);
    ghost var order := Order(s.queues);
    NothingNamed(j, start, s.heap, s.queues);
    FirstNames(s.queues);
    var id: nat := AssignNames(s, REFS, 0, j, order);
    for m := 0 to MODES
      invariant |s.queues| == QUEUES && id <= |order| && NamedUpTo(j, s.heap, order, id)
      invariant order[id..] == ThingsFrom(s.queues, m)
    {
      NextNames(order, id, s.queues, m);
      id := AssignNames(s, m, id, j, order);
    }
    NoMoreNames(order, id, s.queues);
  }

  lemma FirstNames(qs: seq<SaveQueue>)
    requires |qs| == QUEUES
    ensures var n := |qs[REFS].items|;
      n <= |Order(qs)| && Order(qs)[0..0 + n] == Things(qs[REFS]) && Order(qs)[n..] == ThingsFrom(qs, 0)
  {
    ThingsLength(qs[REFS]);
  }

  lemma NextNames(order: seq<nat>, id: nat, qs: seq<SaveQueue>, m: nat)
    requires |qs| == QUEUES && m < MODES && id <= |order| && order[id..] == ThingsFrom(qs, m)
    ensures var n := |qs[m].items|;
      id + n <= |order| && order[id..id + n] == Things(qs[m]) && order[id + n..] == ThingsFrom(qs, m + 1)
  {
    SliceSplit(order, id, Things(qs[m]), ThingsFrom(qs, m + 1));
    ThingsLength(qs[m]);
  }

  lemma NoMoreNames(order: seq<nat>, id: nat, qs: seq<SaveQueue>)
    requires |qs| == QUEUES && id <= |order| && order[id..] == ThingsFrom(qs, MODES)
    ensures id == |order|
  {
    assert |order[id..]| == |order| - id;
  }

  lemma ThingsLength(q: SaveQueue)
    ensures |Things(q)| == |q.items|
  {
  }

  lemma SliceSplit(order: seq<nat>, n: nat, ts: seq<nat>, rest: seq<nat>)
    requires n <= |order| && order[n..] == ts + rest
    ensures n + |ts| <= |order| && order[n..n + |ts|] == ts && order[n + |ts|..] == rest
  {
    assert order[n..][..|ts|] == ts && order[n..][|ts|..] == rest;
  }

  lemma NothingNamed(j: Job, start: Word, heap: Heap, qs: seq<SaveQueue>)
    requires Marked(j, heap, qs) && QueuesOk(j, start, qs)
    ensures |qs| == QUEUES && NamedUpTo(j, heap, Order(qs), 0) && Order(qs)[0..] == Order(qs)
  {
    hide InQueue, QueuesOk;
    HowMany(j, start, qs);
    OrderIs(j, start, qs);
    hide Order;
    assert forall k: nat | k < |Order(qs)| :: Order(qs)[k] in Order(qs);
  }

  // ------------------------------------------------------------------ setting up

  /** The replacement table, in the order in which hashtable_foreach passes it. */
  type Table = seq<(nat, nat)>

  ghost predicate KeysDistinct(t: Table) {
    forall i, k | 0 <= i < k < |t| :: t[i].0 != t[k].0
  }

  function MapOf(t: Table): map<nat, nat> {
    if t == [] then map[] else MapOf(t[..|t| - 1])[t[|t| - 1].0 := t[|t| - 1].1]
  }

  lemma {:induction false} MapOfIs(t: Table)
    ensures forall a :: a in MapOf(t) <==> exists i: nat :: i < |t| && t[i].0 == a
    ensures KeysDistinct(t) ==> forall i: nat | i < |t| :: t[i].0 in MapOf(t) && MapOf(t)[t[i].0] == t[i].1
  {
    if t != [] {
      var n := |t| - 1;
      MapOfIs(t[..n]);
      forall a ensures a in MapOf(t) <==> exists i: nat :: i < |t| && t[i].0 == a {
        if i: nat :| i < |t| && t[i].0 == a {
          if i < n { assert t[..n][i].0 == a; }
        }
        if a in MapOf(t[..n]) {
          var i: nat :| i < n && t[..n][i].0 == a;
          assert t[i].0 == a;
        }
        if a == t[n].0 { assert t[n].0 == a; }
      }
      if KeysDistinct(t) {
        forall i: nat | i < |t| ensures t[i].0 in MapOf(t) && MapOf(t)[t[i].0] == t[i].1 {
          if i < n { assert t[..n][i] == t[i]; }
        }
      }
    }
  }

  function SetOf(s: seq<nat>): set<nat> { set a | a in s }

  ghost predicate Ordinary(heap: Heap) {
    forall a | a in heap :: heap[a].cls.Class?
  }

  /** What remains in the static queue of replaced objects. */
  ghost predicate QueueDistinct(q: SaveQueue) {
    forall i, k | 0 <= i < k < |q.items| :: q.items[i].thing != q.items[k].thing
  }

  /** setup_replacement_objects */
  method SetupReplacements(s: ImageSaver, t: Table)
    requires Ordinary(s.heap) && KeysDistinct(t) && forall i: nat | i < |t| :: t[i].0 in s.heap
    modifies s`heap, s`rplcQueue
    ensures s.heap.Keys == old(s.heap).Keys
    ensures forall a | a in old(s.heap) ::
      s.heap[a] == HObj(if a in MapOf(t) then Replaced(MapOf(t)[a]) else old(s.heap)[a].cls, old(s.heap)[a].body)
    ensures |s.rplcQueue.items| == |t|
    ensures forall i: nat | i < |t| :: s.rplcQueue.items[i] == QEntry(t[i].0, old(s.heap)[t[i].0].cls)
  {
    ghost var h := s.heap;
    s.rplcQueue := EMPTY_QUEUE;
    for i := 0 to |t|
      invariant s.heap.Keys == h.Keys
      invariant forall k: nat | k < |t| :: s.heap[t[k].0] == if k < i then HObj(Replaced(t[k].1), h[t[k].0].body) else h[t[k].0]
      invariant forall a | a in h && (forall k: nat | k < |t| :: t[k].0 != a) :: s.heap[a] == h[a]
      invariant |s.rplcQueue.items| == i
      invariant forall k: nat | k < i :: s.rplcQueue.items[k] == QEntry(t[k].0, h[t[k].0].cls)
    {
      var k, v := t[i].0, t[i].1;
      s.rplcQueue := s.rplcQueue.(items := s.rplcQueue.items + [QEntry(k, s.heap[k].cls)]);
      s.heap := s.heap[k := s.heap[k].(cls := Replaced(v))];
    }
    MapOfIs(t);
  }

  /** setup_reference_objects */
  method SetupReferences(s: ImageSaver, refVec: seq<nat>) returns (saved: seq<ClassWord>)
    requires forall i: nat | i < |refVec| :: refVec[i] in s.heap
    modifies s`heap
    ensures s.heap.Keys == old(s.heap).Keys
    ensures forall a | a in old(s.heap) ::
      s.heap[a] == if a in refVec then old(s.heap)[a].(cls := RefMark) else old(s.heap)[a]
    ensures SavedOk(saved, old(s.heap), refVec, |refVec|)
  {
    hide SavedOk;
    saved := [];
    ghost var h := s.heap;
    NoneSaved(h, refVec);
    for i := 0 to |refVec|
      invariant s.heap.Keys == h.Keys && |saved| == i
      invariant forall a | a in h :: s.heap[a] == if a in refVec[..i] then h[a].(cls := RefMark) else h[a]
      invariant SavedOk(saved, h, refVec, i)
    {
      OneSaved(saved, h, refVec, i, s.heap[refVec[i]].cls);
      saved := saved + [s.heap[refVec[i]].cls];
      s.heap := s.heap[refVec[i] := s.heap[refVec[i]].(cls := RefMark)];
      assert refVec[..i + 1] == refVec[..i] + [refVec[i]];
    }
    assert refVec[..|refVec|] == refVec;
  }

  /** The class words saved for the first n references: a repeated one was already marked. */
  ghost predicate SavedOk(saved: seq<ClassWord>, h: Heap, v: seq<nat>, n: nat) {
    && n <= |v| && |saved| == n
    && forall i: nat | i < n && v[i] in h :: saved[i] == if Repeated(v, i) then RefMark else h[v[i]].cls
  }

  ghost predicate Repeated(v: seq<nat>, i: nat)
    requires i < |v|
  {
    v[i] in v[..i]
  }

  lemma NoneSaved(h: Heap, v: seq<nat>)
    ensures SavedOk([], h, v, 0)
  {
  }

  lemma OneSaved(saved: seq<ClassWord>, h: Heap, v: seq<nat>, i: nat, c: ClassWord)
    requires SavedOk(saved, h, v, i) && i < |v| && v[i] in h && c == if v[i] in v[..i] then RefMark else h[v[i]].cls
    ensures SavedOk(saved + [c], h, v, i + 1)
  {
    hide Repeated;
    assert Repeated(v, i) <==> v[i] in v[..i] by { RepeatedIs(v, i); }
  }

  lemma RepeatedIs(v: seq<nat>, i: nat)
    requires i < |v|
    ensures Repeated(v, i) <==> v[i] in v[..i]
  {
  }

  // ------------------------------------------------------------------ cleaning up

  ghost predicate Holds(q: SaveQueue, a: nat) {
    exists i: nat :: HoldsAt(q, i, a)
  }

  /** cleanup_queued_objects: every object of the queue gets its recorded class word back. */
  method CleanupQueue(s: ImageSaver, q: SaveQueue)
    requires QueueDistinct(q) && forall i: nat | i < |q.items| :: q.items[i].thing in s.heap
    modifies s`heap
    ensures s.heap.Keys == old(s.heap).Keys
    ensures forall i: nat | i < |q.items| :: s.heap[q.items[i].thing] == old(s.heap)[q.items[i].thing].(cls := q.items[i].orig)
    ensures forall a | a in old(s.heap) && !Holds(q, a) :: s.heap[a] == old(s.heap)[a]
  {
    ghost var h := s.heap;
    for i := 0 to |q.items|
      invariant s.heap.Keys == h.Keys
      invariant forall k: nat | k < |q.items| ::
        s.heap[q.items[k].thing] == if k < i then h[q.items[k].thing].(cls := q.items[k].orig) else h[q.items[k].thing]
      invariant forall a | a in h && !Holds(q, a) :: s.heap[a] == h[a]
    {
      assert HoldsAt(q, i, q.items[i].thing);
      s.heap := s.heap[q.items[i].thing := s.heap[q.items[i].thing].(cls := q.items[i].orig)];
    }
  }

  /** The last position of an object in a vector. */
  ghost predicate LastAt(v: seq<nat>, i: nat, a: nat) {
    i < |v| && v[i] == a && forall k: nat | i < k < |v| :: v[k] != a
  }

  /** cleanup_reference_objects */
  method CleanupReferences(s: ImageSaver, refVec: seq<nat>, saved: seq<ClassWord>)
    requires |saved| == |refVec| && forall i: nat | i < |refVec| :: refVec[i] in s.heap
    modifies s`heap
    ensures s.heap.Keys == old(s.heap).Keys
    ensures forall i: nat, a | LastAt(refVec, i, a) :: s.heap[a] == old(s.heap)[a].(cls := saved[i])
    ensures forall a | a in old(s.heap) && a !in refVec :: s.heap[a] == old(s.heap)[a]
  {
    ghost var h := s.heap;
    for i := 0 to |refVec|
      invariant s.heap.Keys == h.Keys
      invariant forall k: nat, a | LastAt(refVec[..i], k, a) :: s.heap[a] == h[a].(cls := saved[k])
      invariant forall a | a in h && a !in refVec[..i] :: s.heap[a] == h[a]
    {
      var a := refVec[i];
      ghost var h1 := s.heap;
      s.heap := s.heap[a := s.heap[a].(cls := saved[i])];
      RestoreOne(h, h1, refVec, saved, i);
    }
    assert refVec[..|refVec|] == refVec;
  }

  lemma RestoreOne(h: Heap, h1: Heap, v: seq<nat>, saved: seq<ClassWord>, i: nat)
    requires i < |v| == |saved| && h1.Keys == h.Keys && v[i] in h
    requires forall k: nat, a | LastAt(v[..i], k, a) :: a in h && h1[a] == h[a].(cls := saved[k])
    requires forall a | a in h && a !in v[..i] :: h1[a] == h[a]
    ensures var h2 := h1[v[i] := h1[v[i]].(cls := saved[i])];
      && (forall k: nat, a | LastAt(v[..i + 1], k, a) :: a in h && h2[a] == h[a].(cls := saved[k]))
      && (forall a | a in h && a !in v[..i + 1] :: h2[a] == h[a])
  {
    var h2 := h1[v[i] := h1[v[i]].(cls := saved[i])];
    var w := v[..i + 1];
    forall k: nat, a | LastAt(w, k, a) ensures a in h && h2[a] == h[a].(cls := saved[k]) {
      if k < i {
        assert w[i] != a;
        assert LastAt(v[..i], k, a);
      } else if a in v[..i] {
        var l := Last(v[..i], a);
      }
    }
    assert w == v[..i] + [v[i]];
  }

  lemma {:induction false} LastExists(v: seq<nat>, a: nat)
    requires a in v
    ensures exists i: nat :: LastAt(v, i, a)
  {
    var n := |v| - 1;
    if v[n] == a {
      assert LastAt(v, n, a);
    } else {
      LastExists(v[..n], a);
      var i: nat :| LastAt(v[..n], i, a);
      assert LastAt(v, i, a);
    }
  }

  ghost function Last(v: seq<nat>, a: nat): (i: nat)
    requires a in v
    ensures LastAt(v, i, a)
  {
    LastExists(v, a);
    var i: nat :| LastAt(v, i, a);
    i
  }
}
