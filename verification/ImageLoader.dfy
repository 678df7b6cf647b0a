/** Loading an image: every frame becomes an object or is bound by name, then the class words and
    slots are swizzled in place (handc/heapi/loadimag.c). */
module ImageLoaders {
  import opened HeapImages
  import opened ImageFiles

  /** An object of the loading heap. */
  datatype LObj = LObj(cls: Word, body: Body)

  const FALSE_OBJ: Word := Imm(2)

  predicate IsArray(f: Frame) { f.mode == LOAD1_ARRAY8 || f.mode == LOAD1_ARRAY32 }

  predicate KnownMode(f: Frame) { f.mode == LOAD1_REF || f.mode == LOAD1_SYMBOL || IsArray(f) }

  function RawSlots(b: seq<byte>): seq<Word> {
    seq(|b| / 4, i requires 0 <= i < |b| / 4 => RawWord(Dec32(b, 4 * i)))
  }

  /** What pass I makes of an array frame: names still stand where pointers will. */
  function RawObj(f: Frame): LObj {
    LObj(RawWord(f.preamble), if f.mode == LOAD1_ARRAY8 then Bytes(f.payload) else Slots(RawSlots(f.payload)))
  }

  /** load_ref: an unbound reference loads as #f. */
  function Bound(refs: map<seq<byte>, Word>, name: seq<byte>): Word {
    if name in refs then refs[name] else FALSE_OBJ
  }

  /** What a reference with this name is to load as. */
  predicate BoundTo(refs: map<seq<byte>, Word>, name: seq<byte>, w: Word) {
    && (name in refs ==> w == refs[name])
    && (name !in refs ==> w == Imm(2))
  }

  /** What pass I puts into the object table for a frame. */
  ghost predicate ItemOk(f: Frame, w: Word, heap: map<nat, LObj>, base: nat, refs: map<seq<byte>, Word>, intern: seq<byte> -> nat) {
    if f.mode == LOAD1_REF then BoundTo(refs, f.payload, w)
    else if f.mode == LOAD1_SYMBOL then w == Ptr(intern(f.payload))
    else w.Ptr? && w.at >= base && w.at in heap
  }

  /** The first n frames are in the table, array objects each at an address of their own. */
  ghost predicate TableOk(fs: seq<Frame>, table: seq<Word>, heap: map<nat, LObj>, base: nat, next: nat,
                          refs: map<seq<byte>, Word>, intern: seq<byte> -> nat) {
    && |table| <= |fs|
    && (forall i: nat | i < |table| :: ItemOk(fs[i], table[i], heap, base, refs, intern))
    && (forall i: nat | i < |table| && IsArray(fs[i]) :: table[i].Ptr? && table[i].at < next)
    && (forall i: nat, k: nat | i < k < |table| && IsArray(fs[i]) && IsArray(fs[k]) :: table[i] != table[k])
  }

  /** swizzle */
  function Swz(table: seq<Word>, w: Word): Word {
    if w.Ptr? && w.at < |table| then table[w.at] else w
  }

  function SwzSlots(table: seq<Word>, s: seq<Word>): seq<Word> { seq(|s|, i requires 0 <= i < |s| => Swz(table, s[i])) }

  function SwzObj(table: seq<Word>, x: LObj): LObj {
    LObj(Swz(table, x.cls), if x.body.Slots? then Slots(SwzSlots(table, x.body.s)) else x.body)
  }

  /** Names in the object stay inside the table. */
  ghost predicate NamesIn(x: LObj, n: nat) {
    && (x.cls.Ptr? ==> x.cls.at < n)
    && (x.body.Slots? ==> forall i | 0 <= i < |x.body.s| && x.body.s[i].Ptr? :: x.body.s[i].at < n)
  }

  function Flat(lists: seq<seq<nat>>): seq<nat> {
    if lists == [] then [] else Flat(lists[..|lists| - 1]) + lists[|lists| - 1]
  }

  function NameWs(names: seq<nat>): seq<nat> { seq(|names|, i requires 0 <= i < |names| => WordOf(Ptr(names[i]))) }

  /** After swizzling the objects named in done. */
  ghost predicate SwizzledFor(fs: seq<Frame>, table: seq<Word>, heap0: map<nat, LObj>, heap: map<nat, LObj>, done: seq<nat>) {
    && heap.Keys == heap0.Keys && |table| == |fs|
    && (forall k: nat | k < |table| && IsArray(fs[k]) && table[k].Ptr? && table[k].at in heap ::
          heap[table[k].at] == if k in done then SwzObj(table, RawObj(fs[k])) else RawObj(fs[k]))
    && (forall a | a in heap && (forall k: nat | k < |table| && IsArray(fs[k]) :: table[k] != Ptr(a)) :: heap[a] == heap0[a])
  }

  /** Array objects are as pass I made them. */
  ghost predicate LoadedObjs(fs: seq<Frame>, table: seq<Word>, heap: map<nat, LObj>) {
    forall k: nat | k < |table| && k < |fs| && IsArray(fs[k]) && table[k].Ptr? && table[k].at in heap :: heap[table[k].at] == RawObj(fs[k])
  }

  class ImageLoader {
    var heap: map<nat, LObj>
    var next: nat
    /** obj_table */
    var table: seq<Word>

    constructor ()
      ensures heap == map[] && table == []
    {
      heap, next, table := map[], 0, [];
    }

    ghost predicate HeapOk()
      reads this
    {
      forall a | a in heap :: a < next
    }

    /** load_array_32 */
    method LoadArray32(b: seq<byte>, at: nat, len: nat) returns (s: seq<Word>)
      requires at + len <= |b|
      ensures s == RawSlots(b[at..at + len])
    {
      s := [];
      ghost var p := b[at..at + len];
      for i := 0 to len / 4
        invariant s == RawSlots(p)[..i]
      {
        DecIn(b, at, len, i);
        s := s + [RawWord(Dec32(b, at + 4 * i))];
      }
      assert RawSlots(p)[..len / 4] == RawSlots(p);
    }

    /** Pass I. */
    method LoadFrames(data: seq<byte>, n: nat, refs: map<seq<byte>, Word>, intern: seq<byte> -> nat, ghost fs: seq<Frame>)
      requires HeapOk() && FramesOk(fs) && data == EncAll(fs) && n == |fs| && forall i | 0 <= i < n :: KnownMode(fs[i])
      modifies this
      ensures HeapOk() && |table| == n && TableOk(fs, table, heap, old(next), next, refs, intern)
      ensures forall a | a in old(heap) :: a in heap && heap[a] == old(heap)[a]
      ensures LoadedObjs(fs, table, heap)
      ensures forall k: nat | k < n && fs[k].mode == LOAD1_REF ::
        (fs[k].payload in refs ==> table[k] == refs[fs[k].payload]) && (fs[k].payload !in refs ==> table[k] == FALSE_OBJ)
    {
      hide EncAll, EncFrame, Enc32, Dec32, RawSlots, Start, TableOk, ItemOk, RawObj, LoadedObjs, FrameOk;
      table := [];
      var at := 0;
      ghost var heap0, base := heap, next;
      StartZero(fs);
      NothingLoaded(fs, heap, base, refs, intern);
      for i := 0 to n
        invariant HeapOk() && next >= base && |table| == i && at == Start(fs, i)
        invariant TableOk(fs, table, heap, base, next, refs, intern)
        invariant forall a | a in heap0 :: a in heap && heap[a] == heap0[a]
        invariant LoadedObjs(fs, table, heap)
      {
        ghost var f, h1, next1 := fs[i], heap, next;
        assert FrameOk(f);
        FrameAt(fs, i);
        ReadFrame(data, at, f);
        var len, mode, preamble := Dec32(data, at), Dec32(data, at + 4), Dec32(data, at + 8);
        var item: Word;
        if mode == LOAD1_REF {
          item := Bound(refs, data[at + 12..at + 12 + len]);
        } else if mode == LOAD1_SYMBOL {
          item := Ptr(intern(data[at + 12..at + 12 + len]));
        } else {
          var body: Body;
          if mode == LOAD1_ARRAY8 {
            body := Bytes(data[at + 12..at + 12 + len]);
          } else {
            var s := LoadArray32(data, at + 12, len);
            body := Slots(s);
          }
          RawObjIs(f, body);
          item := Ptr(next);
          heap := heap[next := LObj(RawWord(preamble), body)];
          next := next + 1;
        }
        OneLoaded(fs, table, item, h1, heap, base, next1, next, refs, intern);
        table := table + [item];
        at := at + RoundUp(len + 12);
      }
      RefsBound(fs, table, heap, base, next, refs, intern);
    }

    /** swizzle_class_only and swizzle_gvec */
    method SwizzleObject(a: nat, classOnly: bool)
      requires a in heap && (classOnly <==> heap[a].body.Bytes?) && NamesIn(heap[a], |table|)
      modifies this`heap
      ensures heap == old(heap)[a := SwzObj(table, old(heap)[a])]
    {
      heap := heap[a := heap[a].(cls := Swz(table, heap[a].cls))];
      if !classOnly {
        var s := SwizzleSlots(table, heap[a].body.s);
        heap := heap[a := heap[a].(body := Slots(s))];
      }
    }

    /** Pass II: every listed object is swizzled, and as the names are distinct, once. */
    method SwizzleAll(counts: seq<nat>, tables: seq<byte>, ghost lists: seq<seq<nat>>, ghost fs: seq<Frame>, ghost heap0: map<nat, LObj>)
      requires |table| == |fs| && SwizzledFor(fs, table, heap0, heap, []) && ArraysIn(fs, table, heap)
      requires |lists| == |counts| && (forall i: nat | i < |counts| :: counts[i] == |lists[i]|)
      requires Words32(NameWs(Flat(lists))) && tables == EncWords(NameWs(Flat(lists)))
      requires ListsOk(fs, lists) && NoTwice(Flat(lists))
      modifies this`heap
      ensures SwizzledFor(fs, table, heap0, heap, Flat(lists))
    {
      hide SwizzledFor, EncWords, NameWs, NoTwice, ArraysIn;
      var at := 0;
      ghost var flat := Flat(lists);
      assert Flat(lists[..0]) == [] == flat[..0];
      for i := 0 to |counts|
        invariant ArraysIn(fs, table, heap)
        invariant at == |Flat(lists[..i])| <= |flat| && flat[..at] == Flat(lists[..i])
        invariant SwizzledFor(fs, table, heap0, heap, flat[..at])
      {
        ghost var at0 := at;
        FlatNext(lists, i);
        for k := 0 to counts[i]
          invariant ArraysIn(fs, table, heap)
          invariant at == at0 + k && at0 + counts[i] <= |flat| && flat[at0..at0 + counts[i]] == lists[i]
          invariant SwizzledFor(fs, table, heap0, heap, flat[..at])
        {
          NameAt(flat, at);
          ListedOk(fs, lists, flat, i, k, at0);
          var t := Swz(table, RawWord(Dec32(tables, 4 * at)));
          ItemAt(fs, table, heap0, heap, flat, at);
          ghost var h1 := heap;
          SwizzleObject(t.at, i == 0);
          SwizzledMore(fs, table, heap0, h1, heap, flat, at);
          at := at + 1;
        }
        assert flat[..at] == flat[..at0] + lists[i];
      }
      assert lists[..|counts|] == lists && flat[..at] == flat;
    }

    /** load_image_file, on frames and lists as a save writes them. */
    method Load(count: nat, entry: nat, data: seq<byte>, counts: seq<nat>, tables: seq<byte>,
                refs: map<seq<byte>, Word>, intern: seq<byte> -> nat, ghost fs: seq<Frame>, ghost lists: seq<seq<nat>>)
        returns (result: Word)
      requires HeapOk() && FramesOk(fs) && data == EncAll(fs) && count == |fs| && forall i | 0 <= i < count :: KnownMode(fs[i])
      requires |lists| == |counts| && (forall i: nat | i < |counts| :: counts[i] == |lists[i]|)
      requires Words32(NameWs(Flat(lists))) && tables == EncWords(NameWs(Flat(lists)))
      requires ListsOk(fs, lists) && NoTwice(Flat(lists))
      modifies this
      ensures Loaded(fs, Flat(lists), table, heap, old(next), refs, intern)
      ensures result == Swz(table, RawWord(entry))
      ensures forall k: nat | k < count && fs[k].mode == LOAD1_REF ::
        (fs[k].payload in refs ==> table[k] == refs[fs[k].payload]) && (fs[k].payload !in refs ==> table[k] == FALSE_OBJ)
      ensures forall k: nat | k < count && fs[k].mode == LOAD1_SYMBOL :: table[k] == Ptr(intern(fs[k].payload))
      ensures forall a | a in old(heap) :: a in heap && heap[a] == old(heap)[a]
    {
      hide SwizzledFor, EncWords, NameWs, NoTwice, ArraysIn, TableOk, LoadedObjs, ListsOk, EncAll, FramesOk;
      ghost var base := next;
      LoadFrames(data, count, refs, intern, fs);
      ghost var heap1, next1 := heap, next;
      StartSwizzling(fs, table, heap1, base, next1, refs, intern);
      SwizzleAll(counts, tables, lists, fs, heap1);
      AllLoaded(fs, Flat(lists), table, heap1, heap, base, next1, refs, intern);
      OldUntouched(fs, Flat(lists), table, heap1, heap, base, next1, refs, intern);
      result := Swz(table, RawWord(entry));
      SymbolsInterned(fs, Flat(lists), table, heap, base, refs, intern);
    }
  }

  /** What a load leaves: bound names, and array objects swizzled if they were listed. */
  ghost predicate Loaded(fs: seq<Frame>, names: seq<nat>, table: seq<Word>, heap: map<nat, LObj>, base: nat,
                         refs: map<seq<byte>, Word>, intern: seq<byte> -> nat) {
    && |table| == |fs|
    && (forall k: nat | k < |fs| :: ItemOk(fs[k], table[k], heap, base, refs, intern))
    && (forall i: nat, k: nat | i < k < |fs| && IsArray(fs[i]) && IsArray(fs[k]) :: table[i] != table[k])
    && (forall k: nat | k < |fs| && IsArray(fs[k]) && k in names && table[k].Ptr? && table[k].at in heap ::
          heap[table[k].at] == SwzObj(table, RawObj(fs[k])))
  }

  lemma RefsBound(fs: seq<Frame>, table: seq<Word>, heap: map<nat, LObj>, base: nat, next: nat,
                  refs: map<seq<byte>, Word>, intern: seq<byte> -> nat)
    requires TableOk(fs, table, heap, base, next, refs, intern)
    ensures forall k: nat | k < |table| && fs[k].mode == LOAD1_REF :: BoundTo(refs, fs[k].payload, table[k])
  {
    forall k: nat | k < |table| && fs[k].mode == LOAD1_REF ensures BoundTo(refs, fs[k].payload, table[k]) {
      assert ItemOk(fs[k], table[k], heap, base, refs, intern);
    }
  }

  lemma SymbolsInterned(fs: seq<Frame>, names: seq<nat>, table: seq<Word>, heap: map<nat, LObj>, base: nat,
                        refs: map<seq<byte>, Word>, intern: seq<byte> -> nat)
    requires Loaded(fs, names, table, heap, base, refs, intern)
    ensures forall k: nat | k < |fs| && fs[k].mode == LOAD1_SYMBOL :: table[k] == Ptr(intern(fs[k].payload))
  {
    forall k: nat | k < |fs| && fs[k].mode == LOAD1_SYMBOL ensures table[k] == Ptr(intern(fs[k].payload)) {
      assert ItemOk(fs[k], table[k], heap, base, refs, intern) && fs[k].mode != LOAD1_REF;
    }
  }

  lemma StartSwizzling(fs: seq<Frame>, table: seq<Word>, heap: map<nat, LObj>, base: nat, next: nat,
                       refs: map<seq<byte>, Word>, intern: seq<byte> -> nat)
    requires |table| == |fs| && TableOk(fs, table, heap, base, next, refs, intern) && LoadedObjs(fs, table, heap)
    requires forall i | 0 <= i < |fs| :: KnownMode(fs[i])
    ensures SwizzledFor(fs, table, heap, heap, []) && ArraysIn(fs, table, heap)
  {
    hide RawObj, SwzObj, Bound;
    assert forall i: nat | i < |table| :: ItemOk(fs[i], table[i], heap, base, refs, intern);
  }

  lemma AllLoaded(fs: seq<Frame>, names: seq<nat>, table: seq<Word>, heap1: map<nat, LObj>, heap: map<nat, LObj>, base: nat, next: nat,
                  refs: map<seq<byte>, Word>, intern: seq<byte> -> nat)
    requires |table| == |fs| && TableOk(fs, table, heap1, base, next, refs, intern) && SwizzledFor(fs, table, heap1, heap, names)
    ensures Loaded(fs, names, table, heap, base, refs, intern)
  {
    hide RawObj, SwzObj, Bound;
    forall k: nat | k < |fs| ensures ItemOk(fs[k], table[k], heap, base, refs, intern) {
      assert ItemOk(fs[k], table[k], heap1, base, refs, intern);
    }
  }

  lemma OldUntouched(fs: seq<Frame>, names: seq<nat>, table: seq<Word>, heap1: map<nat, LObj>, heap: map<nat, LObj>, base: nat, next: nat,
                     refs: map<seq<byte>, Word>, intern: seq<byte> -> nat)
    requires |table| == |fs| && TableOk(fs, table, heap1, base, next, refs, intern) && SwizzledFor(fs, table, heap1, heap, names)
    requires forall i | 0 <= i < |fs| :: KnownMode(fs[i])
    ensures forall a | a in heap1 && a < base :: a in heap && heap[a] == heap1[a]
  {
    hide RawObj, SwzObj, Bound;
    forall a | a in heap1 && a < base ensures a in heap && heap[a] == heap1[a] {
      forall k: nat | k < |table| && IsArray(fs[k]) ensures table[k] != Ptr(a) {
        assert ItemOk(fs[k], table[k], heap1, base, refs, intern);
      }
    }
  }

  lemma RawObjIs(f: Frame, body: Body)
    requires body == if f.mode == LOAD1_ARRAY8 then Bytes(f.payload) else Slots(RawSlots(f.payload))
    ensures RawObj(f) == LObj(RawWord(f.preamble), body)
  {
  }

  lemma NothingLoaded(fs: seq<Frame>, heap: map<nat, LObj>, base: nat, refs: map<seq<byte>, Word>, intern: seq<byte> -> nat)
    ensures TableOk(fs, [], heap, base, base, refs, intern) && LoadedObjs(fs, [], heap)
  {
  }

  lemma OneLoaded(fs: seq<Frame>, table: seq<Word>, item: Word, h1: map<nat, LObj>, h2: map<nat, LObj>, base: nat, next1: nat, next2: nat,
                  refs: map<seq<byte>, Word>, intern: seq<byte> -> nat)
    requires |table| < |fs| && TableOk(fs, table, h1, base, next1, refs, intern) && LoadedObjs(fs, table, h1) && base <= next1 <= next2
    requires var f := fs[|table|];
      && KnownMode(f)
      && (f.mode == LOAD1_REF ==> item == Bound(refs, f.payload)) && (f.mode == LOAD1_SYMBOL ==> item == Ptr(intern(f.payload)))
      && (IsArray(f) ==> item == Ptr(next1) && next2 > next1 && h2 == h1[next1 := RawObj(f)])
      && (!IsArray(f) ==> h2 == h1)
    ensures TableOk(fs, table + [item], h2, base, next2, refs, intern) && LoadedObjs(fs, table + [item], h2)
  {
    hide RawObj;
    var t := table + [item];
    forall k: nat | k < |t| ensures ItemOk(fs[k], t[k], h2, base, refs, intern) {
      assert k < |table| ==> ItemOk(fs[k], table[k], h1, base, refs, intern);
    }
  }

  /** The loop of swizzle_gvec over an object's slots. */
  method SwizzleSlots(table: seq<Word>, s: seq<Word>) returns (t: seq<Word>)
    ensures t == SwzSlots(table, s)
  {
    t := s;
    for i := 0 to |s|
      invariant |t| == |s|
      invariant forall k: nat | k < |s| :: t[k] == if k < i then Swz(table, s[k]) else s[k]
    {
      t := t[i := Swz(table, t[i])];
    }
  }

  lemma StartZero(fs: seq<Frame>)
    requires FramesOk(fs)
    ensures Start(fs, 0) == 0
  {
  }

  lemma DecIn(b: seq<byte>, at: nat, len: nat, i: nat)
    requires at + len <= |b| && i < len / 4
    ensures Dec32(b, at + 4 * i) == Dec32(b[at..at + len], 4 * i)
  {
  }

  /** Array objects are in the heap, at different addresses. */
  ghost predicate ArraysIn(fs: seq<Frame>, table: seq<Word>, heap: map<nat, LObj>) {
    && |table| == |fs|
    && (forall k: nat | k < |table| && IsArray(fs[k]) :: table[k].Ptr? && table[k].at in heap)
    && (forall i: nat, k: nat | i < k < |table| && IsArray(fs[i]) && IsArray(fs[k]) :: table[i] != table[k])
  }

  /** Listed names are array frames; the first list holds the byte vectors. */
  ghost predicate ListsOk(fs: seq<Frame>, lists: seq<seq<nat>>) {
    forall i: nat, k: nat | i < |lists| && k < |lists[i]| :: ListEntryOk(fs, lists[i][k], i)
  }

  ghost predicate ListEntryOk(fs: seq<Frame>, n: nat, i: nat) {
    n < |fs| && n < 0x4000_0000 && IsArray(fs[n]) && (i == 0 <==> fs[n].mode == LOAD1_ARRAY8) && NamesIn(RawObj(fs[n]), |fs|)
  }

  ghost predicate NoTwice(s: seq<nat>) {
    forall i, k | 0 <= i < k < |s| :: s[i] != s[k]
  }

  lemma {:induction false} FlatPrefix(lists: seq<seq<nat>>, i: nat)
    requires i <= |lists|
    ensures Flat(lists[..i]) <= Flat(lists)
  {
    if i < |lists| {
      FlatPrefix(lists[..|lists| - 1], i);
      assert lists[..|lists| - 1][..i] == lists[..i];
    } else {
      assert lists[..i] == lists;
    }
  }

  lemma FlatNext(lists: seq<seq<nat>>, i: nat)
    requires i < |lists|
    ensures var at := |Flat(lists[..i])|;
      && Flat(lists[..i + 1]) == Flat(lists[..i]) + lists[i]
      && at + |lists[i]| <= |Flat(lists)| && Flat(lists)[at..at + |lists[i]|] == lists[i]
      && Flat(lists)[..at + |lists[i]|] == Flat(lists[..i + 1])
  {
    assert lists[..i + 1][..i] == lists[..i];
    FlatPrefix(lists, i + 1);
    var a, b := Flat(lists[..i + 1]), Flat(lists);
    var at := |Flat(lists[..i])|;
    assert a[at..] == lists[i];
    assert b[..|a|] == a;
    assert b[at..|a|] == a[at..];
  }

  lemma NameAt(flat: seq<nat>, at: nat)
    requires at < |flat| && Words32(NameWs(flat))
    ensures 4 * at + 4 <= |EncWords(NameWs(flat))|
    ensures RawWord(Dec32(EncWords(NameWs(flat)), 4 * at)) == Ptr(flat[at])
  {
    WordAt(NameWs(flat), at);
    hide EncWords, Dec32;
  }

  lemma ListedOk(fs: seq<Frame>, lists: seq<seq<nat>>, flat: seq<nat>, i: nat, k: nat, at0: nat)
    requires ListsOk(fs, lists) && i < |lists| && k < |lists[i]| && at0 + |lists[i]| <= |flat| && flat[at0..at0 + |lists[i]|] == lists[i]
    ensures ListEntryOk(fs, flat[at0 + k], i)
  {
    assert lists[i][k] == flat[at0 + k];
  }

  /** The next listed object has not been swizzled yet. */
  lemma ItemAt(fs: seq<Frame>, table: seq<Word>, heap0: map<nat, LObj>, heap: map<nat, LObj>, flat: seq<nat>, at: nat)
    requires at < |flat| && SwizzledFor(fs, table, heap0, heap, flat[..at]) && ArraysIn(fs, table, heap) && NoTwice(flat)
    requires flat[at] < |fs| && IsArray(fs[flat[at]])
    ensures table[flat[at]].Ptr? && table[flat[at]].at in heap && heap[table[flat[at]].at] == RawObj(fs[flat[at]])
  {
    hide RawObj, SwzObj;
    assert forall k | 0 <= k < at :: flat[..at][k] == flat[k] != flat[at];
  }

  lemma SwizzledMore(fs: seq<Frame>, table: seq<Word>, heap0: map<nat, LObj>, h1: map<nat, LObj>, h2: map<nat, LObj>,
                     flat: seq<nat>, at: nat)
    requires at < |flat| && SwizzledFor(fs, table, heap0, h1, flat[..at]) && ArraysIn(fs, table, h1)
    requires flat[at] < |fs| && IsArray(fs[flat[at]]) && table[flat[at]].Ptr? && table[flat[at]].at in h1
    requires h1[table[flat[at]].at] == RawObj(fs[flat[at]])
    requires h2 == h1[table[flat[at]].at := SwzObj(table, h1[table[flat[at]].at])]
    ensures SwizzledFor(fs, table, heap0, h2, flat[..at + 1]) && ArraysIn(fs, table, h2)
  {
    hide RawObj, SwzObj;
    var n := flat[at];
    assert flat[..at + 1] == flat[..at] + [n];
    forall k: nat | k < |table| && IsArray(fs[k])
      ensures h2[table[k].at] == if k in flat[..at + 1] then SwzObj(table, RawObj(fs[k])) else RawObj(fs[k])
    {
      if k != n { assert table[k] != table[n]; }
    }
  }
}
