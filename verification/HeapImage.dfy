/** Heap objects and what a save of them is to do (handc/heapi). */
module HeapImages {

  datatype Word = Ptr(at: nat) | Imm(bits: nat)

  /** pob_class: the class, or what a save overwrites it with. */
  datatype ClassWord =
    | Class(c: nat)
    | Reached              // FX(0): in one of the queues
    | RefMark              // FX(1): a reference object that has not been reached
    | Replaced(rep: nat)    // an immob holding the replacement
    | Name(n: nat)         // the name in the image

  type byte = x: int | 0 <= x < 256

  datatype Body = Slots(s: seq<Word>) | Bytes(b: seq<byte>)

  datatype HObj = HObj(cls: ClassWord, body: Body)

  type Heap = map<nat, HObj>

  /** A save: the heap before it, the replacements, and the objects written as references. */
  datatype Job = Job(h: Heap, rplc: map<nat, nat>, refs: set<nat>)

  const MODES: nat := 10    // NUM_CLASS_MODES
  const REFS: nat := 10     // the index of used_refs among the queues
  const QUEUES: nat := 11

  /** replace_ptr: one step, not transitive; a reference object stands for itself. */
  function Rep(j: Job, a: nat): nat {
    if a in j.rplc && a !in j.refs then j.rplc[a] else a
  }

  function ClassOf(j: Job, a: nat): nat {
    if a in j.h && j.h[a].cls.Class? then j.h[a].cls.c else 0
  }

  /** class_image_mode, from slot 2 of the class. */
  function ImageMode(h: Heap, c: nat): int {
    if c in h && h[c].body.Slots? && |h[c].body.s| > 2 && h[c].body.s[2].Imm? then
      (if h[c].body.s[2].bits < 0x80000000 then h[c].body.s[2].bits else h[c].body.s[2].bits - 0x1_0000_0000) / 4
    else 0
  }

  /** An illegal mode is treated as 0. */
  function Legal(m: int): (r: nat)
    ensures r < MODES
  {
    if m < 0 || m >= MODES then 0 else m
  }

  /** Slot 2 of a class holds the mode as a fixnum, shifted left twice into 32 bits. */
  lemma ModeOfFixnum(h: Heap, c: nat, n: int)
    requires c in h && h[c].body.Slots? && |h[c].body.s| > 2 && -0x2000_0000 <= n < 0x2000_0000
    requires h[c].body.s[2] == Imm(if n < 0 then 4 * n + 0x1_0000_0000 else 4 * n)
    ensures Legal(ImageMode(h, c)) == if 0 <= n < 10 then n else 0
  {
    assert ImageMode(h, c) == 4 * n / 4;
  }

  function Mode(j: Job, a: nat): nat { Legal(ImageMode(j.h, Rep(j, ClassOf(j, a)))) }

  function QueueOf(j: Job, a: nat): nat {
    if a in j.refs then REFS else Mode(j, a)
  }

  predicate ScansSlots(m: nat) { m == 0 || m == 5 }

  predicate ScansClass(m: nat) { m == 0 || m == 5 || m == 1 || m == 6 || m == 7 }

  /** The modes this model covers: all but templates, allocation areas and bignums. */
  predicate Covered(m: nat) { m < MODES && m != 4 && m != 8 && m != 9 }

  /** A replacement that is itself replaced: its class word is no class when the traversal meets it. */
  predicate Chained(j: Job, a: nat) { a in j.rplc && a !in j.refs }

  /** What the scan of an object spots, before replacement. */
  ghost predicate Target(j: Job, a: nat, t: nat) {
    && a in j.h && a !in j.refs && !Chained(j, a)
    && (|| (ScansClass(Mode(j, a)) && t == ClassOf(j, a))
        || (ScansSlots(Mode(j, a)) && j.h[a].body.Slots? && Ptr(t) in j.h[a].body.s))
  }

  /** An object the traversal takes: of a covered mode, and what it reads of it is in the heap. */
  ghost predicate ObjOk(j: Job, a: nat)
    requires a in j.h
  {
    && j.h[a].cls.Class? && j.h[a].cls.c in j.h && Covered(Mode(j, a))
    && (ScansSlots(Mode(j, a)) ==> j.h[a].body.Slots? && forall t | Ptr(t) in j.h[a].body.s :: t in j.h)
  }

  /** Between saves every class word is a class; replacements and references are objects. */
  ghost predicate HeapOk(j: Job) {
    && (forall a | a in j.h :: j.h[a].cls.Class?)
    && (forall k | k in j.rplc :: k in j.h && j.rplc[k] in j.h)
    && (forall a | a in j.refs :: a in j.h)
  }

  /** What is asked of the objects a save takes: nothing is asked of those it does not reach, nor of
      what is in a reference. */
  ghost predicate JobOk(j: Job, start: Word) {
    && HeapOk(j) && (start.Ptr? ==> start.at in j.h)
    && forall a | a in j.h && Reach(j, start, a) && a !in j.refs && !Chained(j, a) :: ObjOk(j, a)
  }

  /** The traversal meets a replacement that is itself replaced, and an assertion stops the program. */
  ghost predicate MeetsChain(j: Job, start: Word) {
    exists a :: Reach(j, start, a) && Chained(j, a)
  }

  /** The class words once replacements and references are marked. */
  function Initial(j: Job, a: nat): ClassWord
    requires a in j.h
  {
    if a in j.refs then RefMark else if a in j.rplc then Replaced(j.rplc[a]) else j.h[a].cls
  }

  ghost predicate ReachIn(j: Job, start: Word, a: nat, n: nat)
    decreases n
  {
    if n == 0 then start.Ptr? && a == Rep(j, start.at)
    else exists b, t :: ReachIn(j, start, b, n - 1) && Target(j, b, t) && a == Rep(j, t)
  }

  /** Reachable from the root along classes and slots, replacements applied, stopping at references. */
  ghost predicate Reach(j: Job, start: Word, a: nat) {
    exists n: nat :: ReachIn(j, start, a, n)
  }

  lemma ReachStep(j: Job, start: Word, a: nat, t: nat)
    requires Reach(j, start, a) && Target(j, a, t)
    ensures Reach(j, start, Rep(j, t))
  {
    var n: nat :| ReachIn(j, start, a, n);
    assert ReachIn(j, start, Rep(j, t), n + 1);
  }

  lemma {:induction false} ReachedIn(j: Job, start: Word, a: nat, n: nat)
    requires JobOk(j, start) && ReachIn(j, start, a, n)
    ensures a in j.h
    decreases n
  {
    if n > 0 {
      var b, t :| ReachIn(j, start, b, n - 1) && Target(j, b, t) && a == Rep(j, t);
      ReachedIn(j, start, b, n - 1);
      assert Reach(j, start, b) && ObjOk(j, b);
    }
  }

  /** Whatever is reached is an object of the heap, and if it is not a reference, one a save can take. */
  lemma ReachedOk(j: Job, start: Word, a: nat)
    requires JobOk(j, start) && Reach(j, start, a)
    ensures a in j.h && (a !in j.refs && !Chained(j, a) ==> ObjOk(j, a))
  {
    var n: nat :| ReachIn(j, start, a, n);
    ReachedIn(j, start, a, n);
  }
}
