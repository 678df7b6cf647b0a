/** Writing a named heap as an image (handc/heapi/savewrit.c). */
module ImageWriters {
  import opened Options
  import opened HeapImages
  import opened ImageTraversals
  import opened ImageNames
  import opened ImageFiles

  /** The header's fields, the frames, and the lists of names to swizzle, for the useful modes
      in the order in which they are written. */
  datatype Image = Image(count: nat, entry: nat, data: seq<byte>, counts: seq<nat>, tables: seq<byte>)

  /** The six load2 modes: class only, gvec, template, part continuation, mixvec, bignum. */
  const USEFUL: nat := 6

  /** The queues whose objects a useful mode swizzles. */
  function QueuesOfMode(i: nat): seq<nat> {
    if i == 0 then [1, 6, 7] else if i == 1 then [0] else if i == 2 then [4] else if i == 3 then [5]
    else if i == 4 then [8] else [9]
  }

  /** unswizzle: the name of what a pointer stands for. */
  function Unswizzle(hn: Heap, w: Word): nat {
    if w.Imm? then w.bits
    else
      var t := if w.at in hn && hn[w.at].cls.Replaced? then hn[w.at].cls.rep else w.at;
      if t in hn && hn[t].cls.Name? then WordOf(Ptr(hn[t].cls.n)) else 0
  }

  function UnswizzleClass(hn: Heap, c: ClassWord): nat {
    if c.Class? then Unswizzle(hn, Ptr(c.c)) else 0
  }

  /** The text of a symbol: the bytes of the string in its slot 0. */
  function TextOf(h: Heap, a: nat): seq<byte> {
    if a in h && h[a].body.Slots? && |h[a].body.s| > 0 && h[a].body.s[0].Ptr? && h[a].body.s[0].at in h
       && h[h[a].body.s[0].at].body.Bytes?
    then h[h[a].body.s[0].at].body.b else []
  }

  function SlotWords(hn: Heap, s: seq<Word>): seq<nat> { seq(|s|, i requires 0 <= i < |s| => Unswizzle(hn, s[i])) }

  /** The modes whose objects this model writes. */
  predicate Writable(m: nat) { m == 0 || m == 1 || m == 2 || m == 5 || m == REFS }

  /** What is written of an object fits the words of its frame, and it has the shape its mode says. */
  ghost predicate SizeOk(j: Job, a: nat)
    requires a in j.h
  {
    && Writable(QueueOf(j, a))
    && (if QueueOf(j, a) == 2 then |TextOf(j.h, a)| < WORD
        else if j.h[a].body.Slots? then
          4 * |j.h[a].body.s| < WORD && forall i | 0 <= i < |j.h[a].body.s| && j.h[a].body.s[i].Imm? :: WordOk(j.h[a].body.s[i])
        else |j.h[a].body.b| < WORD)
    && (QueueOf(j, a) == 1 ==> j.h[a].body.Bytes?)
  }

  ghost predicate SizesOk(j: Job, start: Word) {
    forall a | a in j.h && Reach(j, start, a) && a !in j.refs && !Chained(j, a) :: SizeOk(j, a)
  }

  /** The objects that are named can be written. */
  ghost predicate OrderOk(j: Job, order: seq<nat>) {
    forall a | a in order :: a in j.h && (a !in j.refs ==> ObjOk(j, a) && SizeOk(j, a))
  }

  lemma ReachedOrderOk(j: Job, start: Word, qs: seq<SaveQueue>)
    requires JobOk(j, start) && SizesOk(j, start) && QueuesOk(j, start, qs) && |qs| == QUEUES
    ensures OrderOk(j, Order(qs))
  {
    hide Reach, InQueue, Order, SizeOk, ObjOk;
    OrderIs(j, start, qs);
    forall a | a in Order(qs) ensures a in j.h && (a !in j.refs ==> ObjOk(j, a) && SizeOk(j, a)) {
      QueuedIs(j, start, qs, a);
      ReachedOk(j, start, a);
    }
  }

  /** The strings of the used references, by name. */
  ghost predicate RefTexts(j: Job, order: seq<nat>, texts: seq<seq<byte>>) {
    && (forall k: nat | k < |order| && order[k] in j.refs :: k < |texts|)
    && (forall k: nat | k < |texts| :: |texts[k]| < WORD)
  }

  function RefText(hn: Heap, texts: seq<seq<byte>>, a: nat): seq<byte> {
    if a in hn && hn[a].cls.Name? && hn[a].cls.n < |texts| then texts[hn[a].cls.n] else []
  }

  /** The words written for the slots of an object, if its queue writes them. */
  function BodyWords(hn: Heap, a: nat, m: nat): seq<nat> {
    if m != REFS && m != 2 && a in hn && hn[a].body.Slots? then SlotWords(hn, hn[a].body.s) else []
  }

  /** What the writer of each queue puts out for an object. */
  function FrameOf(hn: Heap, texts: seq<seq<byte>>, hash: seq<byte> -> nat, a: nat, orig: ClassWord, m: nat): Frame
    requires a in hn && Words32(BodyWords(hn, a, m))
  {
    if m == REFS then
      var text := RefText(hn, texts, a);
      Frame(|text|, LOAD1_REF, hash(text), text)
    else if m == 2 then
      Frame(|TextOf(hn, a)|, LOAD1_SYMBOL, 0, TextOf(hn, a))
    else if hn[a].body.Bytes? then
      Frame(|hn[a].body.b|, LOAD1_ARRAY8, UnswizzleClass(hn, orig), hn[a].body.b)
    else
      Frame(4 * |hn[a].body.s|, LOAD1_ARRAY32, UnswizzleClass(hn, orig), EncWords(SlotWords(hn, hn[a].body.s)))
  }

  /** The class word recorded with a queued object. */
  ghost function OrigOf(j: Job, a: nat): ClassWord
    requires a in j.h
  {
    if a in j.refs then RefMark else j.h[a].cls
  }

  /** Everything the writer relies on. */
  ghost predicate WriterOk(j: Job, hn: Heap, order: seq<nat>, texts: seq<seq<byte>>, hash: seq<byte> -> nat) {
    && HeapOk(j) && OrderOk(j, order) && Named(j, hn, order) && Distinct(order) && |order| < 0x4000_0000
    && (forall a | a in order :: a in j.h) && RefTexts(j, order, texts) && (forall s :: hash(s) < WORD)
    && (forall k: nat | k < |texts| :: |texts[k]| < WORD)
  }

  lemma NameOf(j: Job, hn: Heap, order: seq<nat>, k: nat)
    requires Named(j, hn, order) && k < |order| && order[k] in j.h
    ensures order[k] in hn && hn[order[k]] == HObj(Name(k), j.h[order[k]].body)
  {
  }

  /** A name is a position in the order. */
  lemma NameIs(j: Job, hn: Heap, order: seq<nat>, t: nat)
    requires HeapOk(j) && Named(j, hn, order) && t in hn && hn[t].cls.Name?
    ensures hn[t].cls.n < |order| && order[hn[t].cls.n] == t
  {
    if t in order {
      var k: nat :| k < |order| && order[k] == t;
      NameOf(j, hn, order, k);
    } else {
      OrdinaryClass(j, t);
    }
  }

  lemma OrdinaryClass(j: Job, a: nat)
    requires HeapOk(j) && a in j.h
    ensures j.h[a].cls.Class? && ClassOf(j, a) == j.h[a].cls.c
  {
  }

  /** A pointer of a job's object unswizzles to a word that fits. */
  lemma UnswizzleOk(j: Job, hn: Heap, order: seq<nat>, w: Word)
    requires HeapOk(j) && Named(j, hn, order) && |order| < 0x4000_0000 && (w.Imm? ==> w.bits < WORD)
    ensures Unswizzle(hn, w) < WORD
  {
    hide Named, HeapOk;
    if w.Ptr? {
      var t := if w.at in hn && hn[w.at].cls.Replaced? then hn[w.at].cls.rep else w.at;
      if t in hn && hn[t].cls.Name? {
        NameIs(j, hn, order, t);
      }
    }
  }

  // ------------------------------------------------------------------ frames

  /** The frame of an object, by its queue and recorded class word. */
  ghost function FrameFor(j: Job, hn: Heap, texts: seq<seq<byte>>, hash: seq<byte> -> nat, a: nat): Frame {
    if a in j.h && a in hn && Words32(BodyWords(hn, a, QueueOf(j, a))) then
      FrameOf(hn, texts, hash, a, OrigOf(j, a), QueueOf(j, a))
    else Frame(0, 0, 0, [])
  }

  ghost function FramesFor(j: Job, hn: Heap, texts: seq<seq<byte>>, hash: seq<byte> -> nat, ts: seq<nat>): seq<Frame> {
    seq(|ts|, i requires 0 <= i < |ts| => FrameFor(j, hn, texts, hash, ts[i]))
  }

  lemma SlotWordsOk(j: Job, hn: Heap, order: seq<nat>, a: nat)
    requires HeapOk(j) && Named(j, hn, order) && |order| < 0x4000_0000 && a in j.h && (a !in j.refs ==> SizeOk(j, a))
    ensures a in hn && hn[a].body == j.h[a].body
    ensures Words32(BodyWords(hn, a, QueueOf(j, a)))
    ensures UnswizzleClass(hn, j.h[a].cls) < WORD
  {
    hide HeapOk;
    BodyOf(j, hn, order, a);
    hide NamedUpTo;
    UnswizzleOk(j, hn, order, Ptr(ClassOf(j, a)));
    var m := QueueOf(j, a);
    if m != REFS && m != 2 && j.h[a].body.Slots? {
      var s := j.h[a].body.s;
      forall i | 0 <= i < |s| ensures Unswizzle(hn, s[i]) < WORD {
        UnswizzleOk(j, hn, order, s[i]);
      }
    }
  }

  lemma BodyOf(j: Job, hn: Heap, order: seq<nat>, a: nat)
    requires Named(j, hn, order) && a in j.h
    ensures a in hn && hn[a].body == j.h[a].body
  {
    if a in order {
      var k: nat :| k < |order| && order[k] == a;
      NameOf(j, hn, order, k);
    }
  }

  lemma TextFits(j: Job, hn: Heap, order: seq<nat>, a: nat)
    requires Named(j, hn, order) && a in j.h
    ensures TextOf(hn, a) == TextOf(j.h, a)
  {
    BodyOf(j, hn, order, a);
    if j.h[a].body.Slots? && |j.h[a].body.s| > 0 && j.h[a].body.s[0].Ptr? {
      var t := j.h[a].body.s[0].at;
      if t in j.h {
        BodyOf(j, hn, order, t);
      } else {
        assert t !in hn;
      }
    }
  }

  /** Every named object has a frame that fits its header words. */
  lemma FrameForOk(j: Job, hn: Heap, order: seq<nat>, texts: seq<seq<byte>>, hash: seq<byte> -> nat, a: nat)
    requires WriterOk(j, hn, order, texts, hash) && a in order
    ensures a in j.h && a in hn && Words32(BodyWords(hn, a, QueueOf(j, a)))
    ensures FrameOk(FrameFor(j, hn, texts, hash, a))
  {
    hide ObjOk;
    SlotWordsOk(j, hn, order, a);
    TextFits(j, hn, order, a);
    RefTextFits(j, hn, order, texts, a);
    hide HeapOk, Named, RefTexts, TextOf, Unswizzle, UnswizzleClass, SlotWords, QueueOf, RefText, EncWords, BodyWords;
    if a !in j.refs {
      ModeIsNotRefs(j, a);
    }
    QueueIsRefs(j, a);
    FrameOfOk(hn, texts, hash, a, OrigOf(j, a), QueueOf(j, a));
  }

  lemma QueueIsRefs(j: Job, a: nat)
    ensures QueueOf(j, a) == REFS <==> a in j.refs
  {
  }

  lemma ModeIsNotRefs(j: Job, a: nat)
    requires a !in j.refs
    ensures QueueOf(j, a) < REFS
  {
  }

  lemma FrameOfOk(hn: Heap, texts: seq<seq<byte>>, hash: seq<byte> -> nat, a: nat, orig: ClassWord, m: nat)
    requires a in hn && Words32(BodyWords(hn, a, m))
    requires (forall s :: hash(s) < WORD) && |RefText(hn, texts, a)| < WORD && (m == 2 ==> |TextOf(hn, a)| < WORD)
    requires m != REFS ==> UnswizzleClass(hn, orig) < WORD
    requires m != REFS && m != 2 ==> if hn[a].body.Slots? then 4 * |hn[a].body.s| < WORD else |hn[a].body.b| < WORD
    ensures FrameOk(FrameOf(hn, texts, hash, a, orig, m))
  {
    hide TextOf, Unswizzle, UnswizzleClass, SlotWords, RefText;
    assert hn[a].body.Slots? ==> |SlotWords(hn, hn[a].body.s)| == |hn[a].body.s| by { SlotWordsLength(hn, hn[a]); }
  }

  lemma SlotWordsLength(hn: Heap, x: HObj)
    ensures x.body.Slots? ==> |SlotWords(hn, x.body.s)| == |x.body.s|
  {
  }

  lemma RefTextFits(j: Job, hn: Heap, order: seq<nat>, texts: seq<seq<byte>>, a: nat)
    requires forall k: nat | k < |texts| :: |texts[k]| < WORD
    ensures |RefText(hn, texts, a)| < WORD
  {
  }

  lemma FramesForOk(j: Job, hn: Heap, order: seq<nat>, texts: seq<seq<byte>>, hash: seq<byte> -> nat, ts: seq<nat>)
    requires WriterOk(j, hn, order, texts, hash) && forall a | a in ts :: a in order
    ensures FramesOk(FramesFor(j, hn, texts, hash, ts))
  {
    hide WriterOk, FrameFor;
    forall i | 0 <= i < |ts| ensures FrameOk(FramesFor(j, hn, texts, hash, ts)[i]) {
      FrameForOk(j, hn, order, texts, hash, ts[i]);
    }
  }

  lemma {:induction false} EncConcat(fs: seq<Frame>, gs: seq<Frame>)
    requires FramesOk(fs) && FramesOk(gs)
    ensures FramesOk(fs + gs) && EncAll(fs + gs) == EncAll(fs) + EncAll(gs)
  {
    EncNone();
    hide EncFrame, FrameOk, EncAll;
    if gs == [] {
      assert fs + gs == fs;
    } else {
      var n := |gs| - 1;
      var g := gs[n];
      EncConcat(fs, gs[..n]);
      EncNext(fs + gs[..n], g);
      EncNext(gs[..n], g);
      assert gs == gs[..n] + [g];
      assert fs + gs == (fs + gs[..n]) + [g];
    }
  }

  lemma EncNone()
    ensures EncAll([]) == []
  {
  }

  /** The slots of an object, unswizzled word by word. */
  method GvecPayload(hn: Heap, s: seq<Word>) returns (b: seq<byte>)
    requires Words32(SlotWords(hn, s))
    ensures b == EncWords(SlotWords(hn, s))
  {
    b := [];
    ghost var ws := SlotWords(hn, s);
    for i := 0 to |s|
      invariant b == EncWords(ws[..i])
    {
      EncWordsNext(ws[..i], ws[i]);
      assert ws[..i + 1] == ws[..i] + [ws[i]];
      b := b + Enc32(Unswizzle(hn, s[i]));
    }
    assert ws[..|s|] == ws;
  }

  /** write_ref, write_gvec, write_symbol and write_array_8, as the queue's writer selects them. */
  method WriteObject(out: OutputBuffer, hn: Heap, texts: seq<seq<byte>>, hash: seq<byte> -> nat, e: QEntry, m: nat,
                     ghost j: Job, ghost order: seq<nat>)
    requires out.Valid() && WriterOk(j, hn, order, texts, hash) && e.thing in order && e.thing in j.h
    requires m == QueueOf(j, e.thing) && e.orig == OrigOf(j, e.thing)
    modifies out
    ensures out.Valid() && FrameOk(FrameFor(j, hn, texts, hash, e.thing))
    ensures out.Contents() == old(out.Contents()) + EncFrame(FrameFor(j, hn, texts, hash, e.thing))
  {
    FrameForOk(j, hn, order, texts, hash, e.thing);
    assert e.thing !in j.refs ==> SizeOk(j, e.thing);
    hide HeapOk, Named, RefTexts, OrderOk, WriterOk;
    var x := hn[e.thing];
    var f: Frame;
    if m == REFS {
      var text := RefText(hn, texts, e.thing);
      f := Frame(|text|, LOAD1_REF, hash(text), text);
    } else if m == 2 {
      var text := TextOf(hn, e.thing);
      f := Frame(|text|, LOAD1_SYMBOL, 0, text);
    } else if x.body.Bytes? {
      f := Frame(|x.body.b|, LOAD1_ARRAY8, UnswizzleClass(hn, e.orig), x.body.b);
    } else {
      var payload := GvecPayload(hn, x.body.s);
      f := Frame(4 * |x.body.s|, LOAD1_ARRAY32, UnswizzleClass(hn, e.orig), payload);
    }
    out.Put(EncFrame(f));
  }

  /** queue_write */
  method WriteQueue(out: OutputBuffer, hn: Heap, q: SaveQueue, m: nat, texts: seq<seq<byte>>, hash: seq<byte> -> nat,
                    ghost j: Job, ghost start: Word, ghost order: seq<nat>)
    requires out.Valid() && WriterOk(j, hn, order, texts, hash) && m < QUEUES && QueueOk(j, start, q, m)
    requires forall a | a in Things(q) :: a in order
    modifies out
    ensures out.Valid() && FramesOk(FramesFor(j, hn, texts, hash, Things(q)))
    ensures out.Contents() == old(out.Contents()) + EncAll(FramesFor(j, hn, texts, hash, Things(q)))
  {
    hide WriterOk, FrameFor, Reach, EncAll, EncFrame, FrameOk, QueueOf, OrigOf;
    ghost var fs := FramesFor(j, hn, texts, hash, Things(q));
    EncNone();
    ThingsInHeap(j, start, q, m);
    FramesForOk(j, hn, order, texts, hash, Things(q));
    for i := 0 to |q.items|
      invariant out.Valid() && out.Contents() == old(out.Contents()) + EncAll(fs[..i])
    {
      assert EntryOk(j, start, q, m, i);
      OrigIs(j, start, q, m, i);
      EncNext(fs[..i], fs[i]);
      assert fs[..i + 1] == fs[..i] + [fs[i]];
      assert Things(q)[i] in order;
      WriteObject(out, hn, texts, hash, q.items[i], m, j, order);
    }
    assert fs[..|q.items|] == fs;
  }

  lemma ThingsInHeap(j: Job, start: Word, q: SaveQueue, m: nat)
    requires QueueOk(j, start, q, m)
    ensures forall a | a in Things(q) :: a in j.h
  {
    hide Reach;
    forall i | 0 <= i < |q.items| ensures Things(q)[i] in j.h {
      assert EntryOk(j, start, q, m, i);
    }
  }

  lemma OrigIs(j: Job, start: Word, q: SaveQueue, m: nat, i: nat)
    requires i < |q.items| && EntryOk(j, start, q, m, i) && m < QUEUES
    ensures q.items[i].orig == OrigOf(j, q.items[i].thing) && m == QueueOf(j, q.items[i].thing)
  {
    hide Reach;
    var a := q.items[i].thing;
    if a !in j.refs { assert Mode(j, a) < MODES; }
  }

  /** The frames of all queues, in name order; their number is what the header says. */
  method WriteFrames(out: OutputBuffer, hn: Heap, qs: seq<SaveQueue>, texts: seq<seq<byte>>, hash: seq<byte> -> nat,
                     ghost j: Job, ghost start: Word) returns (count: nat)
    requires out.Valid() && out.Contents() == [] && QueuesOk(j, start, qs)
    requires WriterOk(j, hn, Order(qs), texts, hash)
    modifies out
    ensures out.Valid() && FramesOk(FramesFor(j, hn, texts, hash, Order(qs)))
    ensures out.Contents() == EncAll(FramesFor(j, hn, texts, hash, Order(qs))) && count == |Order(qs)|
  {
    hide WriterOk, FrameFor, Reach, Things, Order, ThingsFrom, QueueOk, FramesFor, EncAll;
    ghost var order := Order(qs);
    FirstNames(qs);
    WriteQueue(out, hn, qs[REFS], REFS, texts, hash, j, start, order);
    count := |qs[REFS].items|;
    FirstWritten(j, hn, texts, hash, order, qs);
    for m := 0 to MODES
      invariant out.Valid() && count <= |order| && order[count..] == ThingsFrom(qs, m)
      invariant FramesOk(FramesFor(j, hn, texts, hash, order[..count]))
      invariant out.Contents() == EncAll(FramesFor(j, hn, texts, hash, order[..count]))
    {
      NextNames(order, count, qs, m);
      WriteQueue(out, hn, qs[m], m, texts, hash, j, start, order);
      MoreWritten(j, hn, texts, hash, order, count, Things(qs[m]));
      ThingsLength(qs[m]);
      count := count + |qs[m].items|;
    }
    NoMoreNames(order, count, qs);
    assert order[..count] == order;
  }

  lemma FirstWritten(j: Job, hn: Heap, texts: seq<seq<byte>>, hash: seq<byte> -> nat, order: seq<nat>, qs: seq<SaveQueue>)
    requires |qs| == QUEUES && order == Order(qs) && FramesOk(FramesFor(j, hn, texts, hash, Things(qs[REFS])))
    ensures var n := |qs[REFS].items|; n <= |order| && order[..n] == Things(qs[REFS])
  {
    FirstNames(qs);
  }

  lemma MoreWritten(j: Job, hn: Heap, texts: seq<seq<byte>>, hash: seq<byte> -> nat, order: seq<nat>, n: nat, ts: seq<nat>)
    requires n + |ts| <= |order| && order[n..n + |ts|] == ts
    requires FramesOk(FramesFor(j, hn, texts, hash, order[..n])) && FramesOk(FramesFor(j, hn, texts, hash, ts))
    ensures FramesOk(FramesFor(j, hn, texts, hash, order[..n + |ts|]))
    ensures EncAll(FramesFor(j, hn, texts, hash, order[..n + |ts|]))
      == EncAll(FramesFor(j, hn, texts, hash, order[..n])) + EncAll(FramesFor(j, hn, texts, hash, ts))
  {
    assert order[..n + |ts|] == order[..n] + ts;
    FramesConcat(j, hn, texts, hash, order[..n], ts);
    EncConcat(FramesFor(j, hn, texts, hash, order[..n]), FramesFor(j, hn, texts, hash, ts));
  }

  lemma FramesConcat(j: Job, hn: Heap, texts: seq<seq<byte>>, hash: seq<byte> -> nat, s: seq<nat>, t: seq<nat>)
    ensures FramesFor(j, hn, texts, hash, s + t) == FramesFor(j, hn, texts, hash, s) + FramesFor(j, hn, texts, hash, t)
  {
    hide FrameFor;
  }

  // ------------------------------------------------------------------ the lists of names to swizzle

  function NameWord(hn: Heap, a: nat): nat {
    if a in hn && hn[a].cls.Name? then WordOf(Ptr(hn[a].cls.n)) else 0
  }

  function NameWords(hn: Heap, ts: seq<nat>): seq<nat> { seq(|ts|, i requires 0 <= i < |ts| => NameWord(hn, ts[i])) }

  function Cat(qs: seq<SaveQueue>, ms: seq<nat>): seq<nat>
    requires |qs| == QUEUES
  {
    if ms == [] then [] else Cat(qs, ms[..|ms| - 1]) + if ms[|ms| - 1] < QUEUES then Things(qs[ms[|ms| - 1]]) else []
  }

  /** The objects listed for the first i useful modes. */
  function Listed(qs: seq<SaveQueue>, i: nat): seq<nat>
    requires |qs| == QUEUES
  {
    if i == 0 then [] else Listed(qs, i - 1) + Cat(qs, QueuesOfMode(i - 1))
  }

  lemma NameWordOk(j: Job, hn: Heap, order: seq<nat>, a: nat)
    requires HeapOk(j) && Named(j, hn, order) && |order| < 0x4000_0000
    ensures NameWord(hn, a) < WORD
  {
    hide HeapOk, Named;
    if a in hn && hn[a].cls.Name? {
      NameIs(j, hn, order, a);
    }
  }

  lemma NameWordsOk(j: Job, hn: Heap, order: seq<nat>, ts: seq<nat>)
    requires HeapOk(j) && Named(j, hn, order) && |order| < 0x4000_0000
    ensures Words32(NameWords(hn, ts))
  {
    hide HeapOk, Named, NameWord;
    forall i | 0 <= i < |ts| ensures NameWords(hn, ts)[i] < WORD {
      NameWordOk(j, hn, order, ts[i]);
    }
  }

  lemma WordsNone()
    ensures EncWords([]) == []
  {
  }

  lemma {:induction false} WordsConcat(s: seq<nat>, t: seq<nat>)
    requires Words32(s) && Words32(t)
    ensures Words32(s + t) && EncWords(s + t) == EncWords(s) + EncWords(t)
  {
    WordsNone();
    hide EncWords, Enc32;
    if t == [] {
      assert s + t == s;
    } else {
      var n := |t| - 1;
      WordsConcat(s, t[..n]);
      EncWordsNext(s + t[..n], t[n]);
      EncWordsNext(t[..n], t[n]);
      assert s + t == (s + t[..n]) + [t[n]] && t == t[..n] + [t[n]];
    }
  }

  lemma ListedMore(hn: Heap, s: seq<nat>, t: seq<nat>)
    requires Words32(NameWords(hn, s)) && Words32(NameWords(hn, t))
    ensures Words32(NameWords(hn, s + t)) && EncWords(NameWords(hn, s + t)) == EncWords(NameWords(hn, s)) + EncWords(NameWords(hn, t))
  {
    hide NameWord;
    assert NameWords(hn, s + t) == NameWords(hn, s) + NameWords(hn, t);
    WordsConcat(NameWords(hn, s), NameWords(hn, t));
  }

  /** The inner loop of hi_output_mode2: the names of one queue. */
  method WriteNames(out: OutputBuffer, hn: Heap, q: SaveQueue)
    requires out.Valid() && Words32(NameWords(hn, Things(q)))
    modifies out
    ensures out.Valid() && out.Contents() == old(out.Contents()) + EncWords(NameWords(hn, Things(q)))
  {
    ghost var ws := NameWords(hn, Things(q));
    for i := 0 to |q.items|
      invariant out.Valid() && out.Contents() == old(out.Contents()) + EncWords(ws[..i])
    {
      EncWordsNext(ws[..i], ws[i]);
      assert ws[..i + 1] == ws[..i] + [ws[i]];
      out.Put(Enc32(NameWord(hn, q.items[i].thing)));
    }
    assert ws[..|q.items|] == ws;
  }

  /** hi_output_mode2, for one useful mode. */
  method WriteMode(out: OutputBuffer, hn: Heap, qs: seq<SaveQueue>, ms: seq<nat>) returns (cnt: nat)
    requires out.Valid() && |qs| == QUEUES && (forall i | 0 <= i < |ms| :: ms[i] < QUEUES) && forall ts :: Words32(NameWords(hn, ts))
    modifies out
    ensures out.Valid() && out.Contents() == old(out.Contents()) + EncWords(NameWords(hn, Cat(qs, ms))) && cnt == |Cat(qs, ms)|
  {
    hide NameWords, EncWords, Things;
    cnt := 0;
    NoNames(hn);
    for k := 0 to |ms|
      invariant out.Valid() && cnt == |Cat(qs, ms[..k])|
      invariant out.Contents() == old(out.Contents()) + EncWords(NameWords(hn, Cat(qs, ms[..k])))
    {
      WriteNames(out, hn, qs[ms[k]]);
      ListedMore(hn, Cat(qs, ms[..k]), Things(qs[ms[k]]));
      assert ms[..k + 1][..k] == ms[..k];
      ThingsLength(qs[ms[k]]);
      cnt := cnt + |qs[ms[k]].items|;
    }
    assert ms[..|ms|] == ms;
  }

  lemma NoNames(hn: Heap)
    ensures EncWords(NameWords(hn, [])) == []
  {
  }

  /** The second half of do_file_output: the lists of all useful modes, and their lengths. */
  method WriteTables(out: OutputBuffer, hn: Heap, qs: seq<SaveQueue>) returns (counts: seq<nat>)
    requires out.Valid() && |qs| == QUEUES && forall ts :: Words32(NameWords(hn, ts))
    modifies out
    ensures out.Valid() && out.Contents() == old(out.Contents()) + EncWords(NameWords(hn, Listed(qs, USEFUL)))
    ensures |counts| == USEFUL && forall i: nat | i < USEFUL :: counts[i] == |Cat(qs, QueuesOfMode(i))|
  {
    hide NameWords, EncWords, Cat;
    counts := [];
    NoNames(hn);
    for i := 0 to USEFUL
      invariant out.Valid() && |counts| == i
      invariant forall k: nat | k < i :: counts[k] == |Cat(qs, QueuesOfMode(k))|
      invariant out.Contents() == old(out.Contents()) + EncWords(NameWords(hn, Listed(qs, i)))
    {
      var cnt := WriteMode(out, hn, qs, QueuesOfMode(i));
      ListedMore(hn, Listed(qs, i), Cat(qs, QueuesOfMode(i)));
      counts := counts + [cnt];
    }
  }

  /** The string table of hi_init_output: each used reference has the string at its last position
      in the reference vector. */
  method BuildRefTexts(hn: Heap, refVec: seq<nat>, names: seq<seq<byte>>, n: nat, ghost j: Job, ghost order: seq<nat>)
      returns (texts: seq<seq<byte>>)
    requires |names| == |refVec| && n <= |order| && HeapOk(j) && Named(j, hn, order) && Distinct(order)
    requires j.refs == SetOf(refVec) && forall k: nat | k < |order| :: k < n <==> order[k] in j.refs
    ensures |texts| == n
    ensures forall k: nat | k < n :: order[k] in refVec && texts[k] == names[Last(refVec, order[k])]
  {
    hide ObjOk, Distinct;
    texts := seq(n, i => []);
    for i := 0 to |refVec|
      invariant |texts| == n
      invariant forall k: nat, p: nat | k < n && LastAt(refVec[..i], p, order[k]) :: texts[k] == names[p]
    {
      var key := refVec[i];
      assert key in j.refs;
      RefClass(j, hn, order, n, key);
      ghost var texts0 := texts;
      if hn[key].cls != RefMark {
        texts := texts[hn[key].cls.n := names[i]];
      }
      RefStep(hn, refVec, names, n, j, order, texts0, texts, i);
    }
    assert refVec[..|refVec|] == refVec;
    forall k: nat | k < n ensures order[k] in refVec && texts[k] == names[Last(refVec, order[k])] {
      assert order[k] in j.refs;
      assert LastAt(refVec, Last(refVec, order[k]), order[k]);
    }
  }

  lemma RefClass(j: Job, hn: Heap, order: seq<nat>, n: nat, a: nat)
    requires HeapOk(j) && Named(j, hn, order) && a in j.refs && forall k: nat | k < |order| :: k < n <==> order[k] in j.refs
    ensures a in hn && (hn[a].cls != RefMark ==> hn[a].cls.Name? && hn[a].cls.n < n && hn[a].cls.n < |order| && order[hn[a].cls.n] == a)
    ensures hn[a].cls == RefMark ==> a !in order
  {
    if a in order {
      var k: nat :| k < |order| && order[k] == a;
      NameOf(j, hn, order, k);
    }
  }

  lemma RefStep(hn: Heap, refVec: seq<nat>, names: seq<seq<byte>>, n: nat, j: Job, order: seq<nat>,
                texts0: seq<seq<byte>>, texts: seq<seq<byte>>, i: nat)
    requires i < |refVec| == |names| && n <= |order| && |texts0| == n && refVec[i] in hn && Distinct(order)
    requires hn[refVec[i]].cls != RefMark ==> hn[refVec[i]].cls.Name? && hn[refVec[i]].cls.n < n && order[hn[refVec[i]].cls.n] == refVec[i]
    requires hn[refVec[i]].cls == RefMark ==> refVec[i] !in order
    requires texts == if hn[refVec[i]].cls != RefMark then texts0[hn[refVec[i]].cls.n := names[i]] else texts0
    requires forall k: nat, p: nat | k < n && LastAt(refVec[..i], p, order[k]) :: texts0[k] == names[p]
    ensures forall k: nat, p: nat | k < n && LastAt(refVec[..i + 1], p, order[k]) :: texts[k] == names[p]
  {
    forall k: nat, p: nat | k < n && LastAt(refVec[..i + 1], p, order[k]) ensures texts[k] == names[p] {
      if p < i {
        assert refVec[..i + 1][i] != order[k];
        assert LastAt(refVec[..i], p, order[k]);
      } else {
        assert refVec[i] == order[k] && order[k] in order;
      }
    }
  }
}
