/** The persistent page allocator (packages/rstore/areas.c).

    A page is a map from offsets to block headers.  Each size class has a list of the pages
    that hold a free block of that class; the list is threaded through the pages, the link
    being kept in the highest-addressed free block of the class on each page.  */
module PageAreas {
  import opened Options
  import opened SizeClasses

  datatype Kind =
    | Normal                                    // PFLAGS_NORMAL_OBJ
    | Large                                     // PFLAGS_LARGE_OBJ
    | Area                                      // PFLAGS_ALLOC_AREA
    | Free(sc: nat, last: bool, next: nat)      // PFLAGS_FREE_OBJ with its PFreeBlock

  /** A block header; a memSize of 0 marks the end of a page's blocks. */
  datatype Header = Header(memSize: nat, kind: Kind)

  datatype Page = Page(nth: nat, hdrs: map<nat, Header>)

  datatype Addr = Addr(page: nat, off: nat)

  const MARKER: Header := Header(0, Normal)

  // ------------------------------------------------------------------ one page

  function End(pg: Page): nat { pg.nth * PAGE }

  ghost predicate IsFree(pg: Page, x: nat, sc: nat) {
    x in pg.hdrs && pg.hdrs[x].memSize > 0 && pg.hdrs[x].kind.Free? && pg.hdrs[x].kind.sc == sc
  }

  ghost predicate HasFree(pg: Page, sc: nat) {
    exists x :: IsFree(pg, x, sc)
  }

  ghost predicate IsLive(pg: Page, x: nat) {
    x in pg.hdrs && pg.hdrs[x].memSize > 0 && !pg.hdrs[x].kind.Free?
  }

  /** A block ends at the end of the page or where another header starts. */
  ghost predicate BlockOk(pg: Page, x: nat)
    requires x in pg.hdrs
  {
    && PAGE_HDR <= x < End(pg)
    && (pg.hdrs[x].memSize > 0 ==> x + pg.hdrs[x].memSize == End(pg) || x + pg.hdrs[x].memSize in pg.hdrs)
    && x + pg.hdrs[x].memSize <= End(pg)
  }

  /** Blocks tile the page without overlap, from its header up to the zero marker or its end. */
  ghost predicate Tiles(pg: Page) {
    && pg.nth >= 1 && PAGE_HDR in pg.hdrs
    && (forall x {:trigger BlockOk(pg, x)} | x in pg.hdrs :: BlockOk(pg, x))
    && (forall x, y | x in pg.hdrs && y in pg.hdrs && x < y :: pg.hdrs[x].memSize > 0 && x + pg.hdrs[x].memSize <= y)
  }

  /** A free block knows its class; only the highest of a class on the page carries the link. */
  ghost predicate FreeBlocksOk(pg: Page) {
    && (forall x: nat, sc: nat | IsFree(pg, x, sc) :: sc < NUM_CLASSES && sc == ClassDown(pg.hdrs[x].memSize))
    && (forall x: nat, sc: nat | IsFree(pg, x, sc) ::
          pg.hdrs[x].kind.last <==> forall y: nat | y > x :: !IsFree(pg, y, sc))
  }

  ghost predicate PageOk(pg: Page) {
    && Tiles(pg) && FreeBlocksOk(pg)
    && (pg.nth > 1 ==> pg.hdrs.Keys == {PAGE_HDR} && pg.hdrs[PAGE_HDR].kind.Large?)
    && (forall x | x in pg.hdrs && pg.hdrs[x].kind.Large? :: x == PAGE_HDR && PAGE_HDR + pg.hdrs[x].memSize == End(pg))
  }

  /** The highest free block of a class. */
  ghost predicate IsLast(pg: Page, x: nat, sc: nat) {
    IsFree(pg, x, sc) && forall y: nat | y > x :: !IsFree(pg, y, sc)
  }

  lemma {:induction false} LastExists(pg: Page, sc: nat, x: nat)
    requires Tiles(pg) && IsFree(pg, x, sc)
    ensures exists y: nat :: y >= x && IsLast(pg, y, sc)
    decreases End(pg) - x
  {
    assert BlockOk(pg, x);
    if !IsLast(pg, x, sc) {
      var y: nat :| y > x && IsFree(pg, y, sc);
      LastExists(pg, sc, y);
    }
  }

  /** The page after this one on the list of a class. */
  ghost function NextOf(pg: Page, sc: nat): nat {
    if exists x :: IsLast(pg, x, sc) then
      var x :| IsLast(pg, x, sc);
      pg.hdrs[x].kind.next
    else 0
  }

  lemma NextOfIs(pg: Page, x: nat, sc: nat)
    requires IsLast(pg, x, sc)
    ensures NextOf(pg, sc) == pg.hdrs[x].kind.next && HasFree(pg, sc)
  {
  }

  // ------------------------------------------------------------------ the lists

  ghost predicate Distinct(ch: seq<nat>) {
    forall i, j | 0 <= i < j < |ch| :: ch[i] != ch[j]
  }

  /** The list holds exactly the pages with a free block of the class. */
  ghost predicate Members(pages: map<nat, Page>, sc: nat, ch: seq<nat>) {
    && (forall p :: p in ch <==> p in pages && HasFree(pages[p], sc))
    && (forall i | 0 <= i < |ch| :: ch[i] != 0)
  }

  /** Each page of the list points to the next, the last one to 0. */
  ghost predicate Links(pages: map<nat, Page>, sc: nat, ch: seq<nat>) {
    forall i | 0 <= i < |ch| && ch[i] in pages :: NextOf(pages[ch[i]], sc) == At(ch, i + 1)
  }

  /** ch is the list of class sc: exactly the pages with a free block of the class, once each. */
  ghost predicate ListOk(pages: map<nat, Page>, head: nat, sc: nat, ch: seq<nat>) {
    Distinct(ch) && Members(pages, sc, ch) && head == At(ch, 0) && Links(pages, sc, ch)
  }

  function At(ch: seq<nat>, i: nat): nat { if i < |ch| then ch[i] else 0 }

  ghost predicate PagesOk(pages: map<nat, Page>) {
    0 !in pages && forall p | p in pages :: PageOk(pages[p])
  }

  /** The bump pointer is at the end marker of the current page, or forces a new page. */
  ghost predicate CurrentOk(pages: map<nat, Page>, page: nat, off: nat) {
    if page == 0 then off == PAGE - 1
    else
      && page in pages && pages[page].nth == 1 && off <= PAGE && off > PAGE_HDR
      && (forall y | y in pages[page].hdrs :: y <= off)
      && (if off < PAGE then off in pages[page].hdrs && pages[page].hdrs[off] == MARKER
          else off !in pages[page].hdrs)
  }

  /** Changing one page without changing what class sc sees of it keeps the list of sc. */
  lemma ListFrame(pages: map<nat, Page>, p: nat, pg: Page, head: nat, sc: nat, ch: seq<nat>)
    requires ListOk(pages, head, sc, ch)
    requires if p in pages then HasFree(pg, sc) == HasFree(pages[p], sc) && NextOf(pg, sc) == NextOf(pages[p], sc)
             else !HasFree(pg, sc)
    ensures ListOk(pages[p := pg], head, sc, ch)
  {
    hide HasFree, NextOf, Distinct;
    assert Members(pages[p := pg], sc, ch) by { hide Links; }
    assert forall q | q in ch :: q in pages;
  }

  /** The first page of a list stops having free blocks of the class. */
  lemma ListPop(pages: map<nat, Page>, p: nat, pg: Page, head: nat, sc: nat, ch: seq<nat>)
    requires ListOk(pages, head, sc, ch) && p in pages && head == p && p != 0
    requires !HasFree(pg, sc)
    ensures ch != [] && ListOk(pages[p := pg], NextOf(pages[p], sc), sc, ch[1..])
  {
    hide HasFree, NextOf, Members, Links;
    PopMembers(pages, p, pg, sc, ch);
    PopLinks(pages, p, pg, sc, ch);
  }

  lemma PopMembers(pages: map<nat, Page>, p: nat, pg: Page, sc: nat, ch: seq<nat>)
    requires Members(pages, sc, ch) && Distinct(ch) && ch != [] && ch[0] == p && !HasFree(pg, sc)
    ensures Members(pages[p := pg], sc, ch[1..]) && p !in ch[1..]
  {
    hide HasFree;
    forall q ensures q in ch[1..] <==> q in pages[p := pg] && HasFree(pages[p := pg][q], sc) {
      assert q in ch <==> q == ch[0] || q in ch[1..];
    }
  }

  lemma PopLinks(pages: map<nat, Page>, p: nat, pg: Page, sc: nat, ch: seq<nat>)
    requires Links(pages, sc, ch) && p in pages && ch != [] && ch[0] == p && p !in ch[1..]
    ensures Links(pages[p := pg], sc, ch[1..]) && NextOf(pages[p], sc) == At(ch[1..], 0)
  {
    hide NextOf;
    var ch2 := ch[1..];
    forall i | 0 <= i < |ch2| && ch2[i] in pages[p := pg]
      ensures NextOf(pages[p := pg][ch2[i]], sc) == At(ch2, i + 1)
    {
      assert ch2[i] == ch[i + 1] && ch2[i] in ch2;
      assert NextOf(pages[ch[i + 1]], sc) == At(ch, i + 1 + 1);
    }
    assert NextOf(pages[ch[0]], sc) == At(ch, 0 + 1);
  }

  /** A page gets its first free block of the class and goes to the front. */
  lemma ListPush(pages: map<nat, Page>, p: nat, pg: Page, head: nat, sc: nat, ch: seq<nat>)
    requires ListOk(pages, head, sc, ch) && p in pages && p != 0
    requires !HasFree(pages[p], sc) && HasFree(pg, sc) && NextOf(pg, sc) == head
    ensures ListOk(pages[p := pg], p, sc, [p] + ch)
  {
    hide HasFree, NextOf, Members, Links;
    PushMembers(pages, p, pg, sc, ch);
    PushLinks(pages, p, pg, sc, ch);
  }

  lemma PushMembers(pages: map<nat, Page>, p: nat, pg: Page, sc: nat, ch: seq<nat>)
    requires Members(pages, sc, ch) && p in pages && p != 0 && !HasFree(pages[p], sc) && HasFree(pg, sc)
    ensures Members(pages[p := pg], sc, [p] + ch) && p !in ch
  {
    hide HasFree;
    forall q ensures q in [p] + ch <==> q in pages[p := pg] && HasFree(pages[p := pg][q], sc) {
      assert q in [p] + ch <==> q == p || q in ch;
    }
  }

  lemma PushLinks(pages: map<nat, Page>, p: nat, pg: Page, sc: nat, ch: seq<nat>)
    requires Links(pages, sc, ch) && p !in ch && NextOf(pg, sc) == At(ch, 0)
    ensures Links(pages[p := pg], sc, [p] + ch)
  {
    hide NextOf;
    var ch2 := [p] + ch;
    forall i | 0 <= i < |ch2| && ch2[i] in pages[p := pg]
      ensures NextOf(pages[p := pg][ch2[i]], sc) == At(ch2, i + 1)
    {
      if i > 0 {
        assert ch2[i] == ch[i - 1] && ch[i - 1] in ch;
        assert NextOf(pages[ch[i - 1]], sc) == At(ch, i - 1 + 1);
      }
    }
  }

  ghost function Without(ch: seq<nat>, k: nat): seq<nat>
    requires k < |ch|
  {
    ch[..k] + ch[k + 1..]
  }

  /** pages2 differs from pages, for class sc, only in that the list skips the page at position k. */
  ghost predicate LinkedPast(pages: map<nat, Page>, pages2: map<nat, Page>, sc: nat, ch: seq<nat>, k: nat)
    requires k < |ch| && ch[k] in pages
  {
    && pages2.Keys == pages.Keys
    && (forall q | q in pages :: HasFree(pages2[q], sc) == HasFree(pages[q], sc))
    && (forall q | q in pages && (k == 0 || q != ch[k - 1]) :: NextOf(pages2[q], sc) == NextOf(pages[q], sc))
    && (k > 0 && ch[k - 1] in pages ==> NextOf(pages2[ch[k - 1]], sc) == NextOf(pages[ch[k]], sc))
  }

  /** The list while page p, at position k, is about to be dropped: its predecessor, if any,
      has been linked past it. */
  lemma ListRemove(pages: map<nat, Page>, pages2: map<nat, Page>, p: nat, head: nat, head2: nat, sc: nat, ch: seq<nat>, k: nat)
    requires ListOk(pages, head, sc, ch) && k < |ch| && ch[k] == p && p in pages
    requires LinkedPast(pages, pages2, sc, ch, k)
    requires head2 == if k == 0 then NextOf(pages[p], sc) else head
    ensures ListOk(pages2 - {p}, head2, sc, Without(ch, k))
  {
    hide HasFree, NextOf, Without, LinkedPast, Members, Links, Distinct;
    WithoutKeeps(ch, k);
    RemoveMembers(pages, pages2, sc, ch, k);
    RemoveLinks(pages, pages2, sc, ch, k);
    HeadAt(ch, k);
  }

  lemma HeadAt(ch: seq<nat>, k: nat)
    requires k < |ch|
    ensures At(Without(ch, k), 0) == if k == 0 then At(ch, 1) else At(ch, 0)
  {
  }

  lemma RemoveMembers(pages: map<nat, Page>, pages2: map<nat, Page>, sc: nat, ch: seq<nat>, k: nat)
    requires k < |ch| && ch[k] in pages && LinkedPast(pages, pages2, sc, ch, k)
    requires Distinct(ch) && Members(pages, sc, ch)
    ensures Members(pages2 - {ch[k]}, sc, Without(ch, k))
  {
    hide HasFree, NextOf;
    WithoutKeeps(ch, k);
    forall q ensures q in Without(ch, k) <==> q in pages2 - {ch[k]} && HasFree((pages2 - {ch[k]})[q], sc) {
      assert q in pages2 - {ch[k]} <==> q in pages && q != ch[k];
    }
  }

  lemma RemoveLinks(pages: map<nat, Page>, pages2: map<nat, Page>, sc: nat, ch: seq<nat>, k: nat)
    requires k < |ch| && ch[k] in pages && LinkedPast(pages, pages2, sc, ch, k)
    requires Distinct(ch) && Members(pages, sc, ch) && Links(pages, sc, ch)
    ensures Links(pages2 - {ch[k]}, sc, Without(ch, k))
    ensures NextOf(pages[ch[k]], sc) == At(ch, k + 1)
  {
    hide HasFree, NextOf, At;
    WithoutKeeps(ch, k);
    var m, ch2 := pages2 - {ch[k]}, Without(ch, k);
    forall i | 0 <= i < |ch2| && ch2[i] in m ensures NextOf(m[ch2[i]], sc) == At(ch2, i + 1) {
      var j := Skip(i, k);
      assert ch[j] in ch && ch[j] in pages;
      LinkPast(pages, pages2, sc, ch, k, j);
    }
  }

  /** Where a page that stays points once page k has been linked past. */
  lemma LinkPast(pages: map<nat, Page>, pages2: map<nat, Page>, sc: nat, ch: seq<nat>, k: nat, j: nat)
    requires k < |ch| && ch[k] in pages && j < |ch| && ch[j] in pages && LinkedPast(pages, pages2, sc, ch, k) && j != k
    requires Distinct(ch) && Links(pages, sc, ch)
    ensures NextOf(pages2[ch[j]], sc) == At(ch, if j + 1 == k then k + 1 else j + 1)
  {
    hide HasFree, NextOf, At;
    if j + 1 == k {
      assert NextOf(pages[ch[k]], sc) == At(ch, k + 1);
    } else {
      assert k > 0 ==> ch[j] != ch[k - 1];
      assert NextOf(pages[ch[j]], sc) == At(ch, j + 1);
    }
  }

  function Skip(i: nat, k: nat): nat { if i < k then i else i + 1 }

  lemma WithoutKeeps(ch: seq<nat>, k: nat)
    requires k < |ch| && Distinct(ch)
    ensures var ch2 := Without(ch, k);
      && Distinct(ch2)
      && |ch2| + 1 == |ch| && (forall i | 0 <= i < |ch2| :: ch2[i] == ch[Skip(i, k)])
      && (forall q :: q in ch2 <==> q in ch && q != ch[k])
      && (forall i: nat :: At(ch2, i) == At(ch, Skip(i, k)))
  {
    var ch2 := Without(ch, k);
    assert forall i | 0 <= i < |ch2| :: ch2[i] == ch[Skip(i, k)];
    forall q ensures q in ch2 <==> q in ch && q != ch[k] {
      if q in ch && q != ch[k] {
        var i :| 0 <= i < |ch| && ch[i] == q;
        assert ch2[if i < k then i else i - 1] == q;
      }
    }
  }

  /** Dropping a page that is not on the list of a class. */
  lemma ListDrop(pages: map<nat, Page>, p: nat, head: nat, sc: nat, ch: seq<nat>)
    requires ListOk(pages, head, sc, ch) && p !in ch
    ensures ListOk(pages - {p}, head, sc, ch)
  {
    hide HasFree, NextOf, Distinct;
  }

  // ------------------------------------------------------------------ changing one block

  function SetKind(pg: Page, x: nat, kind: Kind): Page
    requires x in pg.hdrs
  {
    pg.(hdrs := pg.hdrs[x := Header(pg.hdrs[x].memSize, kind)])
  }

  /** What class sc sees of a page. */
  ghost predicate SameClass(pg: Page, pg2: Page, sc: nat) {
    HasFree(pg2, sc) == HasFree(pg, sc) && NextOf(pg2, sc) == NextOf(pg, sc)
  }

  lemma SameFreeBlocks(pg: Page, pg2: Page, sc: nat)
    requires forall x: nat :: IsFree(pg2, x, sc) <==> IsFree(pg, x, sc)
    requires forall x: nat | IsFree(pg, x, sc) :: x in pg2.hdrs && pg2.hdrs[x] == pg.hdrs[x]
    ensures SameClass(pg, pg2, sc)
  {
    assert forall x: nat :: IsLast(pg2, x, sc) <==> IsLast(pg, x, sc);
    if exists x: nat :: IsLast(pg, x, sc) {
      var x: nat :| IsLast(pg, x, sc);
      NextOfIs(pg, x, sc);
      NextOfIs(pg2, x, sc);
    }
  }

  lemma SetKindTiles(pg: Page, x: nat, kind: Kind)
    requires Tiles(pg) && x in pg.hdrs && pg.hdrs[x].memSize > 0
    ensures Tiles(SetKind(pg, x, kind))
  {
    var pg2 := SetKind(pg, x, kind);
    forall y | y in pg2.hdrs ensures BlockOk(pg2, y) {
      assert BlockOk(pg, y);
    }
  }

  /** pg2 is pg with the free block x of class sc no longer free. */
  ghost predicate Unfreed(pg: Page, pg2: Page, x: nat, sc: nat) {
    forall y: nat, d: nat :: IsFree(pg2, y, d) <==> IsFree(pg, y, d) && y != x
  }

  lemma ReusePage(pg: Page, x: nat, sc: nat)
    requires PageOk(pg) && IsFree(pg, x, sc) && forall y: nat | y < x :: !IsFree(pg, y, sc)
    ensures PageOk(SetKind(pg, x, Normal)) && Unfreed(pg, SetKind(pg, x, Normal), x, sc)
  {
    SetKindTiles(pg, x, Normal);
    ReuseUnfrees(pg, x, sc);
    ReuseFlags(pg, x, sc);
    hide Tiles, Unfreed, FreeBlocksOk;
  }

  lemma ReuseUnfrees(pg: Page, x: nat, sc: nat)
    requires IsFree(pg, x, sc)
    ensures Unfreed(pg, SetKind(pg, x, Normal), x, sc)
  {
  }

  lemma ReuseFlags(pg: Page, x: nat, sc: nat)
    requires FreeBlocksOk(pg) && IsFree(pg, x, sc) && forall y: nat | y < x :: !IsFree(pg, y, sc)
    requires Unfreed(pg, SetKind(pg, x, Normal), x, sc)
    ensures FreeBlocksOk(SetKind(pg, x, Normal))
  {
    var pg2 := SetKind(pg, x, Normal);
    forall y: nat, d: nat | IsFree(pg2, y, d)
      ensures pg2.hdrs[y].kind.last <==> forall z: nat | z > y :: !IsFree(pg2, z, d)
    {
      assert IsFree(pg, y, d);
      assert d == sc ==> y > x;
    }
  }

  /** Reusing the lowest free block of a class. */
  lemma ReuseBlock(pg: Page, x: nat, sc: nat)
    requires PageOk(pg) && IsFree(pg, x, sc) && forall y: nat | y < x :: !IsFree(pg, y, sc)
    ensures var pg2 := SetKind(pg, x, Normal);
      && PageOk(pg2)
      && (forall d: nat | d != sc :: SameClass(pg, pg2, d))
      && (pg.hdrs[x].kind.last ==> !HasFree(pg2, sc) && NextOf(pg, sc) == pg.hdrs[x].kind.next)
      && (!pg.hdrs[x].kind.last ==> SameClass(pg, pg2, sc))
  {
    var pg2 := SetKind(pg, x, Normal);
    ReusePage(pg, x, sc);
    forall d: nat | d != sc ensures SameClass(pg, pg2, d) {
      SameFreeBlocks(pg, pg2, d);
    }
    ReuseClass(pg, x, sc);
  }

  lemma ReuseClass(pg: Page, x: nat, sc: nat)
    requires PageOk(pg) && IsFree(pg, x, sc) && forall y: nat | y < x :: !IsFree(pg, y, sc)
    requires Unfreed(pg, SetKind(pg, x, Normal), x, sc)
    ensures var pg2 := SetKind(pg, x, Normal);
      && (pg.hdrs[x].kind.last ==> !HasFree(pg2, sc) && NextOf(pg, sc) == pg.hdrs[x].kind.next)
      && (!pg.hdrs[x].kind.last ==> SameClass(pg, pg2, sc))
  {
    var pg2 := SetKind(pg, x, Normal);
    if pg.hdrs[x].kind.last {
      NextOfIs(pg, x, sc);
    } else {
      LastExists(pg, sc, x);
      var y: nat :| y >= x && IsLast(pg, y, sc);
      assert IsLast(pg2, y, sc);
      NextOfIs(pg, y, sc);
      NextOfIs(pg2, y, sc);
    }
  }

  /** pg2 is pg with x free in class sc. */
  ghost predicate Freed(pg: Page, pg2: Page, x: nat, sc: nat) {
    forall y: nat, d: nat :: IsFree(pg2, y, d) <==> IsFree(pg, y, d) || (y == x && d == sc)
  }

  lemma FreedPage(pg: Page, pg2: Page, x: nat, sc: nat, z: nat)
    requires PageOk(pg) && Tiles(pg2) && Freed(pg, pg2, x, sc) && pg2.nth == pg.nth == 1 && pg2.hdrs.Keys == pg.hdrs.Keys
    requires x in pg.hdrs && pg.hdrs[x].kind.Normal? && sc == ClassDown(pg.hdrs[x].memSize) && sc < NUM_CLASSES
    requires IsLast(pg, z, sc) && x != z
    requires forall y | y in pg.hdrs :: pg2.hdrs[y].memSize == pg.hdrs[y].memSize
    requires forall y | y in pg.hdrs && y != x && y != z :: pg2.hdrs[y] == pg.hdrs[y]
    requires pg2.hdrs[x].kind.Free? && pg2.hdrs[z].kind.Free?
    requires pg2.hdrs[x].kind.last == (x > z) && pg2.hdrs[z].kind.last == (z > x)
    ensures PageOk(pg2)
  {
    hide Tiles;
    forall y: nat, d: nat | IsFree(pg2, y, d)
      ensures pg2.hdrs[y].kind.last <==> forall w: nat | w > y :: !IsFree(pg2, w, d)
    {
      assert IsFree(pg2, z, sc) && IsFree(pg2, x, sc);
      if y != x {
        assert IsFree(pg, y, d);
      }
    }
  }

  lemma FreedOthers(pg: Page, pg2: Page, x: nat, sc: nat, z: nat)
    requires Freed(pg, pg2, x, sc) && IsFree(pg, z, sc) && pg2.hdrs.Keys == pg.hdrs.Keys
    requires x in pg.hdrs && pg.hdrs[x].kind.Normal?
    requires forall y | y in pg.hdrs && y != x && y != z :: pg2.hdrs[y] == pg.hdrs[y]
    ensures forall d: nat | d != sc :: SameClass(pg, pg2, d)
  {
    forall d: nat | d != sc ensures SameClass(pg, pg2, d) {
      SameFreeBlocks(pg, pg2, d);
    }
  }

  /** Freeing a block when the class already has a higher free block on the page. */
  lemma FreeBelow(pg: Page, x: nat, sc: nat, z: nat, next: nat)
    requires PageOk(pg) && x in pg.hdrs && pg.hdrs[x].kind.Normal? && pg.hdrs[x].memSize > 0
    requires sc == ClassDown(pg.hdrs[x].memSize) && sc < NUM_CLASSES && IsLast(pg, z, sc) && z > x && pg.nth == 1
    ensures var pg2 := SetKind(pg, x, Free(sc, false, next));
      PageOk(pg2) && SameBut(pg, pg2, x) && forall d: nat :: SameClass(pg, pg2, d)
  {
    hide SameBut, HasFree;
    SetBut(pg, x, Free(sc, false, next));
    var pg2 := SetKind(pg, x, Free(sc, false, next));
    SetKindTiles(pg, x, Free(sc, false, next));
    assert Freed(pg, pg2, x, sc);
    FreedPage(pg, pg2, x, sc, z);
    FreedOthers(pg, pg2, x, sc, z);
    assert IsLast(pg2, z, sc);
    NextOfIs(pg, z, sc);
    NextOfIs(pg2, z, sc);
  }

  /** Freeing a block above every other free block of its class: it takes over the link. */
  lemma FreeAbove(pg: Page, x: nat, sc: nat, z: nat)
    requires PageOk(pg) && x in pg.hdrs && pg.hdrs[x].kind.Normal? && pg.hdrs[x].memSize > 0
    requires sc == ClassDown(pg.hdrs[x].memSize) && sc < NUM_CLASSES && IsLast(pg, z, sc) && z < x && pg.nth == 1
    ensures var was := pg.hdrs[z].kind;
      var pg2 := SetKind(SetKind(pg, z, Free(sc, false, was.next)), x, Free(sc, true, was.next));
      PageOk(pg2) && SameBut(pg, pg2, x) && forall d: nat :: SameClass(pg, pg2, d)
  {
    hide Tiles, Freed, HasFree, SameBut;
    var was := pg.hdrs[z].kind;
    var pg1 := SetKind(pg, z, Free(sc, false, was.next));
    var pg2 := SetKind(pg1, x, Free(sc, true, was.next));
    SetKindTiles(pg, z, Free(sc, false, was.next));
    SetKindTiles(pg1, x, Free(sc, true, was.next));
    SetTwoBut(pg, x, z, Free(sc, false, was.next), Free(sc, true, was.next));
    FreeAboveSet(pg, pg2, x, sc, z);
    FreedPage(pg, pg2, x, sc, z);
    FreedOthers(pg, pg2, x, sc, z);
    NextOfIs(pg, z, sc);
    NextOfIs(pg2, x, sc);
  }

  lemma FreeAboveSet(pg: Page, pg2: Page, x: nat, sc: nat, z: nat)
    requires x in pg.hdrs && pg.hdrs[x].kind.Normal? && pg.hdrs[x].memSize > 0 && IsLast(pg, z, sc) && z < x
    requires var next := pg.hdrs[z].kind.next;
      pg2 == SetKind(SetKind(pg, z, Free(sc, false, next)), x, Free(sc, true, next))
    ensures pg2.hdrs.Keys == pg.hdrs.Keys && Freed(pg, pg2, x, sc) && IsLast(pg2, x, sc)
    ensures forall y | y in pg.hdrs :: pg2.hdrs[y].memSize == pg.hdrs[y].memSize
    ensures forall y | y in pg.hdrs && y != x && y != z :: pg2.hdrs[y] == pg.hdrs[y]
  {
  }

  lemma SetBut(pg: Page, x: nat, kind: Kind)
    requires x in pg.hdrs && kind.Free?
    ensures SameBut(pg, SetKind(pg, x, kind), x)
  {
  }

  lemma SetTwoBut(pg: Page, x: nat, z: nat, lower: Kind, upper: Kind)
    requires x in pg.hdrs && z in pg.hdrs && pg.hdrs[z].kind.Free? && lower.Free? && upper.Free?
    ensures SameBut(pg, SetKind(SetKind(pg, z, lower), x, upper), x)
  {
  }

  /** Freeing the first block of its class on the page. */
  lemma FreeFirst(pg: Page, x: nat, sc: nat, next: nat)
    requires PageOk(pg) && x in pg.hdrs && pg.hdrs[x].kind.Normal? && pg.hdrs[x].memSize > 0
    requires sc == ClassDown(pg.hdrs[x].memSize) && sc < NUM_CLASSES && !HasFree(pg, sc)
    ensures var pg2 := SetKind(pg, x, Free(sc, true, next));
      && PageOk(pg2) && SameBut(pg, pg2, x) && HasFree(pg2, sc) && NextOf(pg2, sc) == next
      && forall d: nat | d != sc :: SameClass(pg, pg2, d)
  {
    hide SameBut, Tiles;
    SetBut(pg, x, Free(sc, true, next));
    var pg2 := SetKind(pg, x, Free(sc, true, next));
    SetKindTiles(pg, x, Free(sc, true, next));
    assert forall y: nat, d: nat :: IsFree(pg2, y, d) <==> IsFree(pg, y, d) || (y == x && d == sc);
    assert IsLast(pg2, x, sc);
    NextOfIs(pg2, x, sc);
    forall d: nat | d != sc ensures SameClass(pg, pg2, d) {
      SameFreeBlocks(pg, pg2, d);
    }
  }

  /** Redirecting the link of a class. */
  lemma Relink(pg: Page, x: nat, sc: nat, next: nat)
    requires PageOk(pg) && IsLast(pg, x, sc)
    ensures var pg2 := SetKind(pg, x, Free(sc, true, next));
      && PageOk(pg2) && HasFree(pg2, sc) && NextOf(pg2, sc) == next
      && forall d: nat | d != sc :: SameClass(pg, pg2, d)
  {
    hide Tiles, HasFree, NextOf, SameClass, FreeBlocksOk;
    var pg2 := SetKind(pg, x, Free(sc, true, next));
    SetKindTiles(pg, x, Free(sc, true, next));
    RelinkFree(pg, x, sc, next);
    NextOfIs(pg2, x, sc);
    forall d: nat | d != sc ensures SameClass(pg, pg2, d) {
      SameFreeBlocks(pg, pg2, d);
    }
  }

  lemma RelinkFree(pg: Page, x: nat, sc: nat, next: nat)
    requires FreeBlocksOk(pg) && IsLast(pg, x, sc)
    ensures var pg2 := SetKind(pg, x, Free(sc, true, next));
      && FreeBlocksOk(pg2) && IsLast(pg2, x, sc)
      && forall y: nat, d: nat :: IsFree(pg2, y, d) <==> IsFree(pg, y, d)
  {
    var pg2 := SetKind(pg, x, Free(sc, true, next));
    assert forall y: nat, d: nat :: IsFree(pg2, y, d) <==> IsFree(pg, y, d);
  }

  /** Bumping: a block replaces the end marker, and the marker moves up. */
  function Bumped(pg: Page, off: nat, size: nat): Page {
    var h := pg.hdrs[off := Header(size, Normal)];
    pg.(hdrs := if off + size < PAGE then h[off + size := MARKER] else h)
  }

  lemma BumpKeeps(pg: Page, off: nat, size: nat)
    requires Tiles(pg) && off in pg.hdrs && pg.hdrs[off].memSize == 0 && size > 0
    ensures forall y | y in pg.hdrs && y != off ::
      y < off && y in Bumped(pg, off, size).hdrs && Bumped(pg, off, size).hdrs[y] == pg.hdrs[y]
  {
  }

  lemma BumpTiles(pg: Page, off: nat, size: nat)
    requires Tiles(pg) && pg.nth == 1 && off in pg.hdrs && pg.hdrs[off].memSize == 0
    requires size > 0 && off + size <= PAGE
    ensures Tiles(Bumped(pg, off, size))
  {
    hide Tiles;
    BumpKeeps(pg, off, size);
    BumpBlocks(pg, off, size);
    BumpDisjoint(pg, off, size);
    BumpIsTiled(pg, off, size);
  }

  lemma BumpHeaders(pg: Page, off: nat, size: nat)
    requires off in pg.hdrs
    ensures forall y | y in Bumped(pg, off, size).hdrs :: y == off || y in pg.hdrs || (y == off + size && off + size < PAGE)
  {
  }

  lemma BumpBlocks(pg: Page, off: nat, size: nat)
    requires Tiles(pg) && pg.nth == 1 && off in pg.hdrs && pg.hdrs[off].memSize == 0 && size > 0 && off + size <= PAGE
    ensures forall y | y in Bumped(pg, off, size).hdrs :: BlockOk(Bumped(pg, off, size), y)
  {
    BumpKeeps(pg, off, size);
    BumpHeaders(pg, off, size);
    assert BlockOk(pg, off);
    forall y | y in Bumped(pg, off, size).hdrs ensures BlockOk(Bumped(pg, off, size), y) {
      if y in pg.hdrs && y != off {
        assert BlockOk(pg, y);
      }
    }
  }

  lemma BumpDisjoint(pg: Page, off: nat, size: nat)
    requires Tiles(pg) && off in pg.hdrs && pg.hdrs[off].memSize == 0 && size > 0
    ensures var h := Bumped(pg, off, size).hdrs;
      forall x, y | x in h && y in h && x < y :: h[x].memSize > 0 && x + h[x].memSize <= y
  {
    hide BlockOk;
    BumpKeeps(pg, off, size);
    BumpHeaders(pg, off, size);
    hide Tiles;
    var h := Bumped(pg, off, size).hdrs;
    forall x, y | x in h && y in h && x < y ensures h[x].memSize > 0 && x + h[x].memSize <= y {
      if x in pg.hdrs && x != off {
        UpTo(pg, x, off);
        if y in pg.hdrs { UpTo(pg, x, y); }
      }
    }
  }

  lemma UpTo(pg: Page, x: nat, y: nat)
    requires Tiles(pg) && x in pg.hdrs && y in pg.hdrs && x < y
    ensures pg.hdrs[x].memSize > 0 && x + pg.hdrs[x].memSize <= y
  {
  }

  lemma BumpIsTiled(pg: Page, off: nat, size: nat)
    requires Tiles(pg)
    requires var pg2 := Bumped(pg, off, size);
      && (forall y | y in pg2.hdrs :: BlockOk(pg2, y))
      && forall x, y | x in pg2.hdrs && y in pg2.hdrs && x < y :: pg2.hdrs[x].memSize > 0 && x + pg2.hdrs[x].memSize <= y
    ensures Tiles(Bumped(pg, off, size))
  {
  }

  lemma BumpOk(pg: Page, off: nat, size: nat)
    requires PageOk(pg) && pg.nth == 1 && off in pg.hdrs && pg.hdrs[off] == MARKER
    requires size > 0 && off + size <= PAGE
    ensures PageOk(Bumped(pg, off, size))
    ensures forall d: nat :: SameClass(pg, Bumped(pg, off, size), d)
  {
    var pg2 := Bumped(pg, off, size);
    BumpTiles(pg, off, size);
    BumpKeeps(pg, off, size);
    NoLargeBelow(pg, off);
    hide Tiles;
    assert forall y: nat, d: nat :: IsFree(pg2, y, d) <==> IsFree(pg, y, d);
    forall d: nat ensures SameClass(pg, pg2, d) {
      SameFreeBlocks(pg, pg2, d);
    }
  }

  /** A page that still has its end marker holds no large object. */
  lemma NoLargeBelow(pg: Page, off: nat)
    requires PageOk(pg) && off in pg.hdrs && pg.hdrs[off].memSize == 0 && !pg.hdrs[off].kind.Large?
    ensures forall x | x in pg.hdrs :: !pg.hdrs[x].kind.Large?
  {
    assert BlockOk(pg, off);
  }

  const NEW_PAGE: Page := Page(1, map[PAGE_HDR := MARKER])

  function LargePage(n: nat): Page
    requires n >= 1
  {
    Page(n, map[PAGE_HDR := Header(n * PAGE - PAGE_HDR, Large)])
  }

  lemma FreshPagesOk(n: nat)
    requires n >= 1
    ensures PageOk(NEW_PAGE) && PageOk(LargePage(n))
    ensures forall d: nat :: !HasFree(NEW_PAGE, d) && !HasFree(LargePage(n), d)
  {
    assert BlockOk(NEW_PAGE, PAGE_HDR) && BlockOk(LargePage(n), PAGE_HDR);
  }

  // ------------------------------------------------------------------ the area

  ghost predicate LiveIn(pages: map<nat, Page>, a: Addr) {
    a.page in pages && IsLive(pages[a.page], a.off)
  }

  /** The header of a live object. */
  ghost function HeaderAt(pages: map<nat, Page>, a: Addr): Header
    requires LiveIn(pages, a)
  {
    pages[a.page].hdrs[a.off]
  }

  /** The live objects of `b` are those of `a` and the object at `r`; none was moved or resized. */
  ghost predicate OneMore(a: map<nat, Page>, b: map<nat, Page>, r: Addr) {
    && !LiveIn(a, r) && LiveIn(b, r)
    && (forall x :: x != r ==> (LiveIn(b, x) <==> LiveIn(a, x)))
    && (forall x | LiveIn(a, x) :: LiveIn(b, x) && HeaderAt(b, x) == HeaderAt(a, x))
    && a.Keys <= b.Keys && (forall p | p in a :: b[p].nth == a[p].nth)
  }

  /** The live objects of `b` are those of `a` except the object at `r`. */
  ghost predicate OneLess(a: map<nat, Page>, b: map<nat, Page>, r: Addr) {
    && LiveIn(a, r) && !LiveIn(b, r)
    && (forall x :: x != r ==> (LiveIn(b, x) <==> LiveIn(a, x)))
    && (forall x | LiveIn(b, x) && x != r :: LiveIn(a, x) && HeaderAt(b, x) == HeaderAt(a, x))
    && b.Keys <= a.Keys && (forall p | p in b :: b[p].nth == a[p].nth)
  }

  /** The same live objects, whatever happened to free blocks. */
  ghost predicate SameLive(a: map<nat, Page>, b: map<nat, Page>) {
    && (forall x :: (LiveIn(b, x) <==> LiveIn(a, x)) && (LiveIn(a, x) ==> HeaderAt(b, x) == HeaderAt(a, x)))
    && (forall p | p in a :: p in b && b[p].nth == a[p].nth)
  }

  /** A free block of m bytes; its class is ClassDown(m). */
  ghost predicate FreeAt(pages: map<nat, Page>, x: Addr, m: nat) {
    x.page in pages && FreeOn(pages[x.page], x.off, m)
  }

  ghost predicate FreeOn(pg: Page, x: nat, m: nat) {
    m > 0 && x in pg.hdrs && pg.hdrs[x].memSize == m && pg.hdrs[x].kind.Free?
  }

  /** The free blocks of `b` are those of `a` except the block at `r`. */
  ghost predicate FreeLess(a: map<nat, Page>, b: map<nat, Page>, r: Addr) {
    forall x: Addr, m: nat :: FreeAt(b, x, m) <==> FreeAt(a, x, m) && x != r
  }

  /** The free blocks of `b` are those of `a` and the block of n bytes at `r`. */
  ghost predicate FreeMore(a: map<nat, Page>, b: map<nat, Page>, r: Addr, n: nat) {
    forall x: Addr, m: nat :: FreeAt(b, x, m) <==> FreeAt(a, x, m) || (x == r && m == n)
  }

  /** The free blocks of `b` are those of `a` on other pages than p. */
  ghost predicate FreeElsewhere(a: map<nat, Page>, b: map<nat, Page>, p: nat) {
    forall x: Addr, m: nat :: FreeAt(b, x, m) <==> FreeAt(a, x, m) && x.page != p
  }

  /** The lowest free block of a class on a page. */
  ghost predicate Lowest(pg: Page, x: nat, sc: nat) {
    IsFree(pg, x, sc) && forall y: nat | y < x :: !IsFree(pg, y, sc)
  }

  ghost predicate OthersLive(pg: Page, x: nat) {
    exists y: nat :: y != x && IsLive(pg, y)
  }

  /** The block at `r` joins the free blocks while something else lives on its page, and else its page goes. */
  ghost predicate Given(a: map<nat, Page>, b: map<nat, Page>, r: Addr)
    requires LiveIn(a, r)
  {
    if OthersLive(a[r.page], r.off) then b.Keys == a.Keys && FreeMore(a, b, r, HeaderAt(a, r).memSize)
    else b.Keys == a.Keys - {r.page} && FreeElsewhere(a, b, r.page)
  }

  /** The lists after a block of class sc on page p became free: a page that had none goes to the front. */
  ghost predicate Listing(pages: map<nat, Page>, p: nat, sc: nat, chains: seq<seq<nat>>, chains2: seq<seq<nat>>)
    requires p in pages
  {
    && |chains2| == |chains|
    && forall d: nat | d < |chains| ::
         chains2[d] == if d == sc && !HasFree(pages[p], sc) then [p] + chains[d] else chains[d]
  }

  /** The lists after block x was taken: its page, the first, leaves when that was its only block of the class. */
  ghost predicate Popped(pg: Page, x: nat, sc: nat, chains: seq<seq<nat>>, chains2: seq<seq<nat>>) {
    && sc < |chains| && chains[sc] != []
    && chains2 == if exists y: nat :: y != x && IsFree(pg, y, sc) then chains else chains[sc := chains[sc][1..]]
  }

  /** A list without a page, in the same order. */
  function Except(ch: seq<nat>, p: nat): seq<nat> {
    if ch == [] then [] else (if ch[0] == p then [] else [ch[0]]) + Except(ch[1..], p)
  }

  ghost function Heads(vec: Option<seq<nat>>, sc: nat): nat {
    if vec.Some? && sc < |vec.value| then vec.value[sc] else 0
  }

  ghost predicate AllLists(pages: map<nat, Page>, vec: Option<seq<nat>>, chains: seq<seq<nat>>) {
    && |chains| == NUM_CLASSES && (vec.Some? ==> |vec.value| == NUM_CLASSES)
    && forall sc: nat | sc < NUM_CLASSES :: ListOk(pages, Heads(vec, sc), sc, chains[sc])
  }

  /** A page changed so that no class sees a difference. */
  lemma AllListsFrame(pages: map<nat, Page>, p: nat, pg: Page, vec: Option<seq<nat>>, chains: seq<seq<nat>>)
    requires AllLists(pages, vec, chains)
    requires if p in pages then forall d: nat :: SameClass(pages[p], pg, d) else forall d: nat :: !HasFree(pg, d)
    ensures AllLists(pages[p := pg], vec, chains)
  {
    hide ListOk, HasFree, NextOf;
    forall sc: nat | sc < NUM_CLASSES ensures ListOk(pages[p := pg], Heads(vec, sc), sc, chains[sc]) {
      assert p in pages ==> SameClass(pages[p], pg, sc);
      ListFrame(pages, p, pg, Heads(vec, sc), sc, chains[sc]);
    }
  }

  /** The list of one class was replaced, all others see no difference. */
  lemma AllListsUpdate(pages: map<nat, Page>, p: nat, pg: Page, vec: seq<nat>, chains: seq<seq<nat>>, sc: nat, head: nat, ch: seq<nat>)
    requires AllLists(pages, Some(vec), chains) && p in pages && sc < NUM_CLASSES
    requires forall d: nat | d != sc :: SameClass(pages[p], pg, d)
    requires ListOk(pages[p := pg], head, sc, ch)
    ensures AllLists(pages[p := pg], Some(vec[sc := head]), chains[sc := ch])
  {
    hide ListOk, HasFree, NextOf;
    var chains2 := chains[sc := ch];
    forall d: nat | d < NUM_CLASSES
      ensures ListOk(pages[p := pg], Heads(Some(vec[sc := head]), d), d, chains2[d])
    {
      if d != sc {
        assert SameClass(pages[p], pg, d);
        ListFrame(pages, p, pg, Heads(Some(vec), d), d, chains[d]);
      }
    }
  }

  /** A list that starts with 0 is empty; otherwise its first page has a free block. */
  lemma HeadOfList(pages: map<nat, Page>, head: nat, sc: nat, ch: seq<nat>)
    requires ListOk(pages, head, sc, ch)
    ensures head == 0 <==> ch == []
    ensures head != 0 ==> head == ch[0] && head in pages && HasFree(pages[head], sc)
  {
    if ch != [] { assert ch[0] in ch; }
  }

  /** No page is kept without a live object on it. */
  ghost predicate Occupied(pages: map<nat, Page>) {
    forall p | p in pages :: HasLive(pages[p])
  }

  ghost predicate HasLive(pg: Page) {
    exists x: nat :: IsLive(pg, x)
  }

  class PAllocArea {
    var pages: map<nat, Page>
    /** free_list_vec: the first page of every class's list, and the object that holds it. */
    var vec: Option<seq<nat>>
    var vecAt: Addr
    /** current_LR */
    var curPage: nat
    var curOff: nat
    ghost var chains: seq<seq<nat>>

    ghost predicate Valid()
      reads this
    {
      && PagesOk(pages) && Occupied(pages)
      && AllLists(pages, vec, chains)
      && CurrentOk(pages, curPage, curOff)
      && (vec.Some? ==> LiveIn(pages, vecAt) && HeaderAt(pages, vecAt).kind.Normal?)
    }

    /** make_alloc_area: the area's own object is the first on its first page. */
    constructor (first: nat)
      requires first != 0
      ensures Valid() && vec.None?
      ensures pages.Keys == {first}
      ensures forall a :: LiveIn(pages, a) <==> a == Addr(first, PAGE_HDR)
      ensures NothingFree(pages)
      ensures curPage == first && curOff == PAGE_HDR + RoundUp8(AREA_SIZE + BLOCK_HDR)
    {
      hide PageOk, HasFree;
      var size := RoundUp8(AREA_SIZE + BLOCK_HDR);
      pages := map[first := FirstPage(size)];
      vec := None;
      vecAt := Addr(0, 0);
      curPage, curOff := first, PAGE_HDR + size;
      chains := seq(NUM_CLASSES, i => []);
      new;
      FirstPageOk(size);
      assert LiveIn(pages, Addr(first, PAGE_HDR));
    }

    /** reusing_alloc: the lowest free block of the class on the first page of its list. */
    method Reuse(space: nat) returns (r: Option<Addr>)
      requires Valid() && vec.Some? && space < PAGE_SPACE
      modifies this`pages, this`vec, this`chains
      ensures Valid() && vec.Some? && pages.Keys == old(pages).Keys
      ensures r.None? <==> old(vec.value[ClassUp(space)]) == 0
      ensures r.None? ==> pages == old(pages) && vec == old(vec) && chains == old(chains)
      ensures r.Some? ==> OneMore(old(pages), pages, r.value) && r.value.page in pages
      ensures r.Some? ==> FreeLess(old(pages), pages, r.value)
      ensures r.Some? ==> r.value.page in old(pages) && Popped(old(pages[r.value.page]), r.value.off, ClassUp(space), old(chains), chains)
      ensures r.Some? ==> HeaderAt(pages, r.value).memSize >= space && HeaderAt(pages, r.value).kind.Normal?
      // it was the lowest free block of the class on the first page of the list
      ensures r.Some? ==> r.value.page == old(vec.value[ClassUp(space)]) && r.value.page in old(pages)
      ensures r.Some? ==> IsFree(old(pages)[r.value.page], r.value.off, ClassUp(space))
      ensures r.Some? ==> forall y: nat | y < r.value.off :: !IsFree(old(pages)[r.value.page], y, ClassUp(space))
      ensures r.Some? ==> HeaderAt(pages, r.value).memSize == old(pages)[r.value.page].hdrs[r.value.off].memSize
    {
      hide ListOk, PageOk, HasFree, OneMore, Occupied, CurrentOk, FreeLess, Popped;
      var sc := ClassUp(space);
      var p := vec.value[sc];
      HeadOfList(pages, Heads(vec, sc), sc, chains[sc]);
      if p == 0 {
        return None;
      }
      FreePageIsSingle(pages[p], sc);
      var x := FindLowest(pages[p], sc);
      FreeIsDown(pages[p], x, sc);
      ReusedBlockFits(space, pages[p].hdrs[x].memSize);
      TakeBlock(p, x, sc);
      return Some(Addr(p, x));
    }

    /** The end of reusing_alloc: the block stops being free, and if it was the last of its
        class on the page, the page leaves the list. */
    method TakeBlock(p: nat, x: nat, sc: nat)
      requires Valid() && vec.Some? && sc < NUM_CLASSES && vec.value[sc] == p && p in pages
      requires IsFree(pages[p], x, sc) && forall y: nat | y < x :: !IsFree(pages[p], y, sc)
      modifies this`pages, this`vec, this`chains
      ensures Valid() && vec.Some? && pages.Keys == old(pages).Keys
      ensures OneMore(old(pages), pages, Addr(p, x))
      ensures HeaderAt(pages, Addr(p, x)) == Header(old(pages[p].hdrs[x].memSize), Normal)
      ensures FreeLess(old(pages), pages, Addr(p, x)) && Popped(old(pages[p]), x, sc, old(chains), chains)
    {
      hide ListOk, PageOk, HasFree, NextOf, Occupied, CurrentOk, OneMore, SameClass, FreeLess;
      TakeFree(pages, p, x, sc);
      HighestIs(pages[p], x, sc);
      HeadOfList(pages, Heads(vec, sc), sc, chains[sc]);
      var fb := pages[p].hdrs[x].kind;
      var pg2 := SetKind(pages[p], x, Normal);
      ReuseBlock(pages[p], x, sc);
      TakeRest(pages, p, x, sc, curPage, curOff, vecAt);
      if fb.last {
        ListPop(pages, p, pg2, p, sc, chains[sc]);
        AllListsUpdate(pages, p, pg2, vec.value, chains, sc, fb.next, chains[sc][1..]);
        vec := Some(vec.value[sc := fb.next]);
        chains := chains[sc := chains[sc][1..]];
      } else {
        AllListsFrame(pages, p, pg2, vec, chains);
      }
      pages := pages[p := pg2];
    }

    /** The last part of parea_alloc_internal: the next block of the current page, or the first of
        a new one. */
    method Bump(space: nat, newPage: nat) returns (r: Addr)
      requires Valid() && 32 <= space <= PAGE_SPACE && newPage != 0 && newPage !in pages
      modifies this`pages, this`curPage, this`curOff
      ensures Valid() && pages.Keys == old(pages).Keys + {r.page}
      ensures r.page !in old(pages) ==> r.page == newPage && pages[newPage].nth == 1
      ensures OneMore(old(pages), pages, r) && HeaderAt(pages, r) == Header(space, Normal)
      ensures r == if old(curOff) + space <= PAGE then Addr(old(curPage), old(curOff)) else Addr(newPage, PAGE_HDR)
      ensures curPage == r.page && curOff == r.off + space
      ensures FreeLess(old(pages), pages, r)
    {
      hide ListOk, HasFree, NextOf, PageOk, OneMore, Occupied, FreeLess;
      ghost var pages0 := pages;
      if curOff + space > PAGE {
        FreshPagesOk(1);
        AllListsFrame(pages, newPage, NEW_PAGE, vec, chains);
        pages := pages[newPage := NEW_PAGE];
        curPage, curOff := newPage, PAGE_HDR;
      }
      ghost var pages1 := pages;
      var pg := pages[curPage];
      BumpOk(pg, curOff, space);
      BumpLive(pages1, curPage, curOff, space);
      AllListsFrame(pages, curPage, Bumped(pg, curOff, space), vec, chains);
      BumpCurrent(pages, curPage, curOff, space);
      r := Addr(curPage, curOff);
      pages := pages[curPage := Bumped(pg, curOff, space)];
      curOff := curOff + space;
      BumpFree(pages0, pages1, r.page, r.off, space);
      SameThenMore(pages0, pages1, pages, r);
      StaysOccupied(pages0, pages, r);
      OneMoreKeeps(pages0, pages, r, vecAt);
    }

    /** A large object gets pages of its own. */
    method AddLarge(n: nat, newPage: nat)
      requires Valid() && newPage != 0 && newPage !in pages && n >= 1
      modifies this`pages
      ensures Valid() && pages == old(pages)[newPage := LargePage(n)]
      ensures OneMore(old(pages), pages, Addr(newPage, PAGE_HDR))
      ensures FreeLess(old(pages), pages, Addr(newPage, PAGE_HDR))
    {
      hide ListOk, PageOk, OneMore, Occupied, CurrentOk;
      FreshPagesOk(n);
      AllListsFrame(pages, newPage, LargePage(n), vec, chains);
      LargeLive(pages, newPage, n);
      StaysOccupied(pages, pages[newPage := LargePage(n)], Addr(newPage, PAGE_HDR));
      CurrentFresh(pages, newPage, LargePage(n), curPage, curOff);
      OneMoreKeeps(pages, pages[newPage := LargePage(n)], Addr(newPage, PAGE_HDR), vecAt);
      pages := pages[newPage := LargePage(n)];
    }

    /** How many new pages an object may need. */
    function PagesFor(size: nat): (n: nat)
      ensures RoundUp8(size) + BLOCK_HDR + PAGE_HDR <= n * PAGE
      ensures n > 1 ==> (n - 1) * PAGE < RoundUp8(size) + BLOCK_HDR + PAGE_HDR
    {
      var space := RoundUp8(size) + BLOCK_HDR;
      if space >= PAGE - PAGE_HDR then (space + PAGE_HDR + (PAGE - 1)) / PAGE else 1
    }

    /** parea_alloc_internal: a new object where none was, at least as large as asked for. */
    method Alloc(size: nat, newPage: nat) returns (r: Addr)
      requires Valid() && newPage != 0 && newPage !in pages
      modifies this`pages, this`vec, this`chains, this`curPage, this`curOff
      ensures Valid() && vec.Some? == old(vec.Some?)
      ensures OneMore(old(pages), pages, r) && HeaderAt(pages, r).memSize >= size + BLOCK_HDR
      ensures pages.Keys == old(pages).Keys + {r.page}
      ensures old(Apart(pages) && Vacant(pages, newPage, PagesFor(size))) ==> Apart(pages)
      ensures HeaderAt(pages, r).kind == if RoundUp8(size) + BLOCK_HDR >= PAGE_SPACE then Large else Normal
      // where it goes: pages of its own, the first block of the free list, or the end of the current page
      ensures FreeLess(old(pages), pages, r)
      ensures RoundUp8(size) + BLOCK_HDR >= PAGE_SPACE ==>
        && pages == old(pages)[newPage := LargePage(PagesFor(size))] && r == Addr(newPage, PAGE_HDR)
        && curPage == old(curPage) && curOff == old(curOff) && vec == old(vec) && chains == old(chains)
      ensures RoundUp8(size) + BLOCK_HDR < PAGE_SPACE ==> var sc := ClassUp(RoundUp8(size) + BLOCK_HDR);
        if old(Heads(vec, sc)) != 0 then
          && r.page == old(Heads(vec, sc)) && r.page in old(pages) && Lowest(old(pages)[r.page], r.off, sc)
          && HeaderAt(pages, r).memSize == old(pages)[r.page].hdrs[r.off].memSize
          && Popped(old(pages)[r.page], r.off, sc, old(chains), chains)
          && curPage == old(curPage) && curOff == old(curOff)
        else
          && r == (if old(curOff) + SIZES[sc] <= PAGE then Addr(old(curPage), old(curOff)) else Addr(newPage, PAGE_HDR))
          && HeaderAt(pages, r).memSize == SIZES[sc]
          && curPage == r.page && curOff == r.off + SIZES[sc] && vec == old(vec) && chains == old(chains)
    {
      hide PagesOk, AllLists, OneMore, Occupied, CurrentOk, FreeBlocksOk, Tiles, Apart, Vacant, FreeLess, Popped;
      VectorSize(pages, vec, chains);
      var space := RoundUp8(size) + BLOCK_HDR;
      if space >= PAGE - PAGE_HDR {
        var n := (space + PAGE_HDR + (PAGE - 1)) / PAGE;
        AddLarge(n, newPage);
        AllocApart(old(pages), pages, Addr(newPage, PAGE_HDR), newPage, n);
        return Addr(newPage, PAGE_HDR);
      }
      if vec.Some? {
        var x := Reuse(space);
        if x.Some? {
          AllocApart(old(pages), pages, x.value, newPage, 1);
          return x.value;
        }
      }
      space := SpaceFor(space);
      r := Bump(space, newPage);
      AllocApart(old(pages), pages, r, newPage, 1);
    }

    /** parea_dealloc: the object is gone, nothing else is; a page without live objects is
        dropped. The first call also allocates the vector of list heads. */
    method Dealloc(a: Addr, newPage: nat) returns (ghost mid: map<nat, Page>)
      requires Valid() && newPage != 0 && newPage !in pages
      requires LiveIn(pages, a) && !HeaderAt(pages, a).kind.Area? && (vec.Some? ==> a != vecAt)
      modifies this
      ensures Valid()
      ensures old(vec.Some?) ==> vec.Some?
      ensures old(vec.Some?) || vec.None? ==> OneLess(old(pages), pages, a) && vecAt == old(vecAt)
      ensures old(vec.None?) && vec.Some? ==> OneMore(old(pages), mid, vecAt) && OneLess(mid, pages, a)
      ensures var at := if old(vec.None?) && vec.Some? then Addr(vecAt.page, vecAt.off + 160) else Addr(old(curPage), old(curOff));
        Addr(curPage, curOff) == if at.page == a.page && a.page !in pages then Addr(0, PAGE - 1) else at
      // mid: the pages after that first step
      ensures vec.Some? <==> old(vec.Some?) || old(pages)[a.page].nth == 1
      ensures if old(vec.Some?) || vec.None? then mid == old(pages) else FreeLess(old(pages), mid, vecAt)
      ensures old(vec.None?) && vec.Some? ==>
        && vecAt == (if old(curOff) + 160 <= PAGE then Addr(old(curPage), old(curOff)) else Addr(newPage, PAGE_HDR))
        && HeaderAt(mid, vecAt) == Header(160, Normal) && mid.Keys == old(pages).Keys + {vecAt.page}
      ensures LiveIn(mid, a) && HeaderAt(mid, a) == old(HeaderAt(pages, a)) && Given(mid, pages, a)
      ensures if OthersLive(mid[a.page], a.off) then Listing(mid, a.page, ClassDown(HeaderAt(mid, a).memSize), old(chains), chains)
              else |chains| == |old(chains)| && forall d | 0 <= d < |chains| :: chains[d] == Except(old(chains)[d], a.page)
      ensures old(Apart(pages) && Vacant(pages, newPage, 1)) ==> Apart(pages)
    {
      hide PagesOk, AllLists, OneMore, Occupied, CurrentOk, OneLess, Apart, Vacant, FreeLess, Given, Listing, OthersLive, Except;
      AtLeastOnePage(pages, a.page);
      mid := pages;
      if pages[a.page].nth > 1 {
        DropLarge(a);
        if old(Apart(pages)) { LessApart(old(pages), pages, a); }
        return;
      }
      if vec.None? {
        var v := Alloc(4 * NUM_CLASSES, newPage);
        VectorClass(pages, old(vec));
        OneMoreKeeps(old(pages), pages, v, a);
        OneMoreDiffers(old(pages), pages, v, a);
        mid := pages;
        FirstVector(v);
      }
      ghost var pages1 := pages;
      DeallocSmall(a);
      if Apart(pages1) { LessApart(pages1, pages, a); }
    }

    /** parea_dealloc_large */
    method DropLarge(a: Addr)
      requires Valid() && LiveIn(pages, a) && pages[a.page].nth > 1
      modifies this`pages
      ensures Valid() && OneLess(old(pages), pages, a)
      ensures !OthersLive(old(pages[a.page]), a.off) && Given(old(pages), pages, a) && curPage != a.page
      ensures forall d | 0 <= d < |chains| :: chains[d] == Except(chains[d], a.page)
    {
      hide ListOk, AllLists, HasFree, NextOf, OneLess, Occupied;
      LargeIsAlone(pages[a.page], a.off);
      GoneWithPage(pages, a);
      NotListed(pages, a.page, vec, chains);
      DropLists(pages, a.page, vec, chains);
      NothingExcept(pages, a.page, vec, chains);
      DropPage(pages, a);
      pages := pages - {a.page};
    }

    /** The first free: a vector of empty lists. */
    method FirstVector(v: Addr)
      requires Valid() && vec.None? && LiveIn(pages, v) && HeaderAt(pages, v).kind.Normal?
      modifies this`vec, this`vecAt
      ensures Valid() && vec == Some(seq(NUM_CLASSES, i => 0)) && vecAt == v
    {
      hide ListOk, PagesOk, Occupied, CurrentOk;
      vec := Some(seq(NUM_CLASSES, i => 0));
      vecAt := v;
    }

    /** parea_dealloc_small */
    method DeallocSmall(a: Addr)
      requires Valid() && vec.Some? && LiveIn(pages, a) && pages[a.page].nth == 1
      requires !HeaderAt(pages, a).kind.Area? && a != vecAt
      modifies this`pages, this`vec, this`chains, this`curPage, this`curOff
      ensures Valid() && OneLess(old(pages), pages, a) && vec.Some?
      ensures Given(old(pages), pages, a)
      ensures if OthersLive(old(pages[a.page]), a.off) then
                Listing(old(pages), a.page, ClassDown(old(HeaderAt(pages, a)).memSize), old(chains), chains)
              else |chains| == |old(chains)| && forall d | 0 <= d < |chains| :: chains[d] == Except(old(chains)[d], a.page)
      ensures Addr(curPage, curOff) ==
        if old(curPage) == a.page && a.page !in pages then Addr(0, PAGE - 1) else Addr(old(curPage), old(curOff))
    {
      hide ListOk, AllLists, HasFree, NextOf, OneLess, Occupied, Tiles, FreeBlocksOk, CurrentOk, Given, Listing, Except;
      var pg := pages[a.page];
      var sc := ClassDown(pg.hdrs[a.off].memSize);
      var lastIs, anyAlloced := ScanPage(pg, sc, a.off);
      if !anyAlloced {
        FreedLast(a);
        return;
      }
      LargeIsOnly(pg, a.off);
      FreeBlock(a, sc, lastIs);
    }

    /** The end of parea_dealloc_small: the block joins its class. */
    method FreeBlock(a: Addr, sc: nat, lastIs: Option<nat>)
      requires Valid() && vec.Some? && LiveIn(pages, a) && pages[a.page].nth == 1
      requires HeaderAt(pages, a).kind.Normal? && a != vecAt
      requires sc == ClassDown(HeaderAt(pages, a).memSize)
      requires if lastIs.Some? then IsLast(pages[a.page], lastIs.value, sc) else !HasFree(pages[a.page], sc)
      requires OthersLive(pages[a.page], a.off)
      modifies this`pages, this`vec, this`chains
      ensures Valid() && OneLess(old(pages), pages, a) && vec.Some?
      ensures pages.Keys == old(pages).Keys && Given(old(pages), pages, a)
      ensures Listing(old(pages), a.page, sc, old(chains), chains)
    {
      hide ListOk, AllLists, HasFree, NextOf, OneLess, Occupied, Tiles, FreeBlocksOk, CurrentOk, SameClass, Given, Listing, OthersLive, SameBut, PageOk;
      var p, pg, x := a.page, pages[a.page], a.off;
      VectorSize(pages, vec, chains);
      ListingIs(pages, p, sc, chains);
      var pg2: Page;
      if lastIs.Some? { NextOfIs(pg, lastIs.value, sc); }
      if lastIs.None? {
        var head := vec.value[sc];
        pg2 := SetKind(pg, x, Free(sc, true, head));
        FreeFirst(pg, x, sc, head);
        PushPage(pages, p, pg2, vec.value, chains, sc);
        vec := Some(vec.value[sc := p]);
        chains := chains[sc := [p] + chains[sc]];
      } else if lastIs.value > x {
        pg2 := SetKind(pg, x, Free(sc, false, SCRAMBLED));
        FreeBelow(pg, x, sc, lastIs.value, SCRAMBLED);
        AllListsFrame(pages, p, pg2, vec, chains);
      } else {
        var next := pg.hdrs[lastIs.value].kind.next;
        pg2 := SetKind(SetKind(pg, lastIs.value, Free(sc, false, next)), x, Free(sc, true, next));
        FreeAbove(pg, x, sc, lastIs.value);
        AllListsFrame(pages, p, pg2, vec, chains);
      }
      FreeRest(pages, a, pg2, curPage, curOff, vecAt);
      GivenBack(pages, a, pg2);
      pages := pages[p := pg2];
    }

    /** freed_last_object_on_page: the page leaves every list it is on, the bump pointer leaves
        the page, and the page is deleted. */
    method FreedLast(a: Addr)
      requires Valid() && vec.Some? && LiveIn(pages, a) && pages[a.page].nth == 1 && a != vecAt
      requires forall y: nat :: IsLive(pages[a.page], y) ==> y == a.off
      modifies this`pages, this`vec, this`chains, this`curPage, this`curOff
      ensures Valid() && OneLess(old(pages), pages, a) && vec.Some? && pages.Keys == old(pages).Keys - {a.page}
      ensures Given(old(pages), pages, a)
      ensures |chains| == |old(chains)| && forall d | 0 <= d < |chains| :: chains[d] == Except(old(chains)[d], a.page)
      ensures Addr(curPage, curOff) == if old(curPage) == a.page then Addr(0, PAGE - 1) else Addr(old(curPage), old(curOff))
    {
      hide ListOk, HasFree, NextOf, OneLess, Occupied, Tiles, FreeBlocksOk, CurrentOk, PageOk, Unlinked, Given, Except, FreeAt;
      var p, pg := a.page, pages[a.page];
      ghost var pages0 := pages;
      var hasfree, nextpg := Gather(pg);
      StartUnlinking(pages, p, vec.value, chains);
      for i := 0 to NUM_CLASSES
        invariant PagesOk(pages) && SameShape(pages0, pages) && pages[p] == pg
        invariant curPage == old(curPage) && curOff == old(curOff)
        invariant vec.Some? && Unlinked(pages, p, vec.value, chains, i)
        invariant |chains| == |old(chains)| == NUM_CLASSES
        invariant forall d | 0 <= d < NUM_CLASSES :: chains[d] == if d < i then Except(old(chains)[d], p) else old(chains)[d]
      {
        ghost var pages1, vec1, chains1 := pages, vec.value, chains;
        if hasfree[i] {
          ListOfClass(pages, p, vec.value, chains, i);
          RemovePage(p, i, nextpg[i]);
          SkipDone(pages1, pages, p, vec1, vec.value, chains1, chains, i);
          SameShapeTrans(pages0, pages1, pages);
        } else {
          SkipClass(pages, p, vec.value, chains, i);
          ExceptNone(pages, p, vec.value, chains, i);
        }
      }
      ShapeCurrent(pages0, pages, curPage, curOff);
      if curPage == p {
        curPage, curOff := 0, PAGE - 1;
      }
      DoneUnlinking(pages, p, vec.value, chains);
      DropShaped(pages0, pages, a);
      GivenWithPage(pages0, pages, a);
      DropCurrent(pages, p, curPage, curOff);
      pages := pages - {p};
      OneLessKeeps(pages0, pages, a, vecAt);
    }

    /** remove_page_from_free_list; neither of its errors can happen. */
    method RemovePage(p: nat, sc: nat, next: nat)
      requires PagesOk(pages) && vec.Some? && sc < NUM_CLASSES == |vec.value| == |chains|
      requires ListOk(pages, vec.value[sc], sc, chains[sc]) && p in pages && HasFree(pages[p], sc)
      requires next == NextOf(pages[p], sc)
      modifies this`pages, this`vec, this`chains
      ensures PagesOk(pages) && SameShape(old(pages), pages) && pages[p] == old(pages[p])
      ensures OnlyClass(old(pages), pages, sc)
      ensures vec.Some? && |vec.value| == |chains| == NUM_CLASSES
      ensures vec.value == old(vec.value)[sc := vec.value[sc]] && chains == old(chains)[sc := chains[sc]]
      ensures ListOk(pages - {p}, vec.value[sc], sc, chains[sc])
      ensures chains[sc] == Except(old(chains)[sc], p)
    {
      hide ListOk, HasFree, NextOf, PageOk, SamePage, SameClass, LinkedPast, Relinked, OnlyClass, SameShape;
      ghost var ch := chains[sc];
      ghost var pages0 := pages;
      ghost var k := Position(pages, vec.value[sc], sc, ch, p);
      NoChange(pages, sc);
      WithoutIsExcept(ch, k, pages, vec.value[sc], sc);
      if vec.value[sc] == p {
        FirstIsZero(pages, vec.value[sc], sc, ch, p, k);
        NotPast(pages, sc, ch);
        ListRemove(pages, pages, p, p, next, sc, ch, 0);
        vec := Some(vec.value[sc := next]);
        chains := chains[sc := Without(ch, 0)];
        return;
      }
      var q := vec.value[sc];
      ghost var j: nat := 0;
      FirstOf(pages, q, sc, ch);
      while q != 0
        invariant pages == pages0 && vec == old(vec) && chains == old(chains)
        invariant j < k && q == ch[j] && q != 0
        decreases k - j
      {
        Following(pages, vec.value[sc], sc, ch, j, k);
        var removed, q2 := RemoveOrNext(sc, q, p, next);
        if removed {
          assert j + 1 == k;
          PastPredecessor(pages0, pages, sc, ch, k, next);
          ListRemove(pages0, pages, p, vec.value[sc], vec.value[sc], sc, ch, k);
          chains := chains[sc := Without(ch, k)];
          return;
        }
        q := q2;
        j := j + 1;
      }
    }

    /** remove_page_from_free_list_or_next: the highest free block of the class carries the
        link, so the scan finds one. */
    method RemoveOrNext(sc: nat, q: nat, p: nat, next: nat) returns (removed: bool, after: nat)
      requires PagesOk(pages) && q in pages && HasFree(pages[q], sc)
      modifies this`pages
      ensures removed <==> NextOf(old(pages[q]), sc) == p
      ensures !removed ==> pages == old(pages) && after == NextOf(pages[q], sc)
      ensures removed ==> q in pages && pages == old(pages)[q := pages[q]] && Relinked(old(pages[q]), pages[q], sc, next)
    {
      hide HasFree, NextOf, PageOk, Relinked;
      var x := FindLink(pages[q], sc);
      NextOfIs(pages[q], x, sc);
      if pages[q].hdrs[x].kind.next == p {
        Relinks(pages[q], x, sc, next);
        pages := pages[q := SetKind(pages[q], x, Free(sc, true, next))];
        return true, q;
      }
      return false, pages[q].hdrs[x].kind.next;
    }
  }

  lemma SizeClass64()
    ensures ClassUp(64) == 3 && ClassDown(64) == 3 && SIZES[3] == 64 && RoundUp8(40) == 40 && RoundUp8(AREA_SIZE + BLOCK_HDR) == 80
  {
    RoundsUpUnique(64, ClassUp(64), 3);
    RoundsDownUnique(64, ClassDown(64), 3);
  }

  /** A new area with two objects of 40 bytes. */
  method TwoAllocated(first: nat, p: nat) returns (area: PAllocArea, a: Addr, b: Addr)
    requires first != 0 && p != 0 && p != first
    ensures area.Valid() && fresh(area) && area.vec.None? && NothingFree(area.pages) && area.pages.Keys == {first}
    ensures a == Addr(first, 96) && b == Addr(first, 160) && area.curPage == first && area.curOff == 224
    ensures LiveIn(area.pages, a) && HeaderAt(area.pages, a) == Header(64, Normal) && LiveIn(area.pages, b)
  {
    hide PagesOk, AllLists, Occupied, CurrentOk, Apart, Vacant, Popped, FreeLess, NothingFree, IsLive, Lowest;
    hide ClassUp, ClassDown, RoundUp8, OneMore;
    SizeClass64();
    area := new PAllocArea(first);
    ghost var pages0 := area.pages;
    a := area.Alloc(40, p);
    OneMoreKeeps(pages0, area.pages, a, a);
    StillNothingFree(pages0, area.pages, a);
    ghost var pages1 := area.pages;
    b := area.Alloc(40, p);
    OneMoreKeeps(pages1, area.pages, b, a);
    StillNothingFree(pages1, area.pages, b);
  }

  /** A freed block is the next one of its size that is given out. */
  method FreedIsReused(first: nat, p: nat) returns (a: Addr, b: Addr, c: Addr)
    requires first != 0 && p != 0 && p != first
    ensures a == Addr(first, 96) && b == Addr(first, 160) && c == a
  {
    hide PagesOk, AllLists, Occupied, CurrentOk, Apart, Vacant, Popped, Given, OthersLive, FreeLess, FreeAt, NothingFree, IsLive, Listing, Lowest;
    hide ClassUp, ClassDown, Except, RoundUp8, OneMore, OneLess;
    SizeClass64();
    var area;
    area, a, b := TwoAllocated(first, p);
    ghost var pages := area.pages;
    ghost var mid := area.Dealloc(a, p);
    if mid != pages {
      StillNothingFree(pages, mid, area.vecAt);
      OneMoreKeeps(pages, mid, area.vecAt, b);
    }
    ghost var m, vec, chains := area.pages, area.vec, area.chains;
    OnlyFreed(mid, m, vec, chains, a, b);
    c := area.Alloc(40, p);
    OnlyLowest(mid, m, a, b, c.off);
  }

  ghost predicate NothingFree(pages: map<nat, Page>) {
    forall x: Addr, m: nat :: !FreeAt(pages, x, m)
  }

  lemma StillNothingFree(a: map<nat, Page>, b: map<nat, Page>, r: Addr)
    requires NothingFree(a) && FreeLess(a, b, r)
    ensures NothingFree(b)
  {
    hide FreeAt;
  }

  /** An object of 64 bytes given back beside another is the only free block. */
  lemma OneFree(mid: map<nat, Page>, pages: map<nat, Page>, a: Addr, b: Addr)
    requires NothingFree(mid) && LiveIn(mid, a) && Given(mid, pages, a) && HeaderAt(mid, a).memSize == 64
    requires LiveIn(mid, b) && b != a && b.page == a.page
    ensures pages.Keys == mid.Keys && a.page in pages && FreeOn(pages[a.page], a.off, 64)
    ensures forall x: nat, m: nat | FreeOn(pages[a.page], x, m) :: x == a.off && m == 64
    ensures forall x: Addr, m: nat | FreeAt(pages, x, m) :: x == a
  {
    assert OthersLive(mid[a.page], a.off) by { assert IsLive(mid[b.page], b.off); }
    hide OthersLive, FreeOn, HeaderAt;
    assert FreeAt(pages, a, 64);
    forall x: nat, m: nat | FreeOn(pages[a.page], x, m) ensures x == a.off && m == 64 {
      assert FreeAt(pages, Addr(a.page, x), m);
    }
  }

  lemma FreeClass(pg: Page, x: nat, sc: nat)
    requires PageOk(pg)
    ensures IsFree(pg, x, sc) <==> x in pg.hdrs && FreeOn(pg, x, pg.hdrs[x].memSize) && ClassDown(pg.hdrs[x].memSize) == sc
  {
    hide Tiles;
    if x in pg.hdrs && pg.hdrs[x].memSize > 0 && pg.hdrs[x].kind.Free? {
      assert IsFree(pg, x, pg.hdrs[x].kind.sc);
    }
  }

  /** The list of its class then starts with its page. */
  lemma OnlyFreed(mid: map<nat, Page>, pages: map<nat, Page>, vec: Option<seq<nat>>, chains: seq<seq<nat>>, a: Addr, b: Addr)
    requires NothingFree(mid) && LiveIn(mid, a) && Given(mid, pages, a) && HeaderAt(mid, a).memSize == 64
    requires LiveIn(mid, b) && b != a && b.page == a.page
    requires PagesOk(pages) && AllLists(pages, vec, chains)
    ensures Heads(vec, 3) == a.page && a.page != 0 && pages.Keys == mid.Keys
  {
    hide Given, PageOk, ListOk, Heads;
    OneFree(mid, pages, a, b);
    SizeClass64();
    FreeClass(pages[a.page], a.off, 3);
    assert HasFree(pages[a.page], 3);
    var p := Heads(vec, 3);
    Listed(pages, a.page, p, 3, chains[3]);
    HeadOfList(pages, p, 3, chains[3]);
    var x: nat :| IsFree(pages[p], x, 3);
    FreeClass(pages[p], x, 3);
    assert FreeAt(pages, Addr(p, x), pages[p].hdrs[x].memSize);
  }

  lemma OnlyLowest(mid: map<nat, Page>, pages: map<nat, Page>, a: Addr, b: Addr, x: nat)
    requires NothingFree(mid) && LiveIn(mid, a) && Given(mid, pages, a) && HeaderAt(mid, a).memSize == 64
    requires LiveIn(mid, b) && b != a && b.page == a.page
    requires PagesOk(pages) && a.page in pages && Lowest(pages[a.page], x, 3)
    ensures x == a.off
  {
    hide Given, PageOk;
    OneFree(mid, pages, a, b);
    FreeClass(pages[a.page], x, 3);
  }

  /** What the fill of a freed block leaves in the link of a block that is not the last. */
  const SCRAMBLED: nat := 0xE5E5E5E5

  lemma AllocApart(a: map<nat, Page>, b: map<nat, Page>, r: Addr, newPage: nat, n: nat)
    requires OneMore(a, b, r) && b.Keys == a.Keys + {r.page}
    requires r.page !in a ==> r.page == newPage && b[newPage].nth == n
    ensures Apart(a) && Vacant(a, newPage, n) ==> Apart(b)
  {
    if Apart(a) && Vacant(a, newPage, n) { MoreApart(a, b, r); }
  }

  lemma OneMoreDiffers(a: map<nat, Page>, b: map<nat, Page>, r: Addr, v: Addr)
    requires OneMore(a, b, r) && LiveIn(a, v)
    ensures v != r && LiveIn(b, v) && b[v.page].nth == a[v.page].nth
  {
  }

  lemma AtLeastOnePage(pages: map<nat, Page>, p: nat)
    requires PagesOk(pages) && p in pages
    ensures pages[p].nth >= 1
  {
  }

  lemma ListingIs(pages: map<nat, Page>, p: nat, sc: nat, chains: seq<seq<nat>>)
    requires p in pages && sc < |chains|
    ensures if HasFree(pages[p], sc) then Listing(pages, p, sc, chains, chains)
            else Listing(pages, p, sc, chains, chains[sc := [p] + chains[sc]])
  {
    hide HasFree;
  }

  lemma TakeFree(pages: map<nat, Page>, p: nat, x: nat, sc: nat)
    requires p in pages && IsFree(pages[p], x, sc)
    ensures FreeLess(pages, pages[p := SetKind(pages[p], x, Normal)], Addr(p, x))
  {
  }

  lemma HighestIs(pg: Page, x: nat, sc: nat)
    requires PageOk(pg) && IsFree(pg, x, sc) && forall y: nat | y < x :: !IsFree(pg, y, sc)
    ensures pg.hdrs[x].kind.last <==> !exists y: nat :: y != x && IsFree(pg, y, sc)
  {
    hide Tiles;
  }

  lemma BumpFree(pages0: map<nat, Page>, pages1: map<nat, Page>, p: nat, off: nat, size: nat)
    requires p in pages1 && off in pages1[p].hdrs && pages1[p].hdrs[off] == MARKER && PageOk(pages1[p]) && size > 0
    requires pages1 == pages0 || (p !in pages0 && pages1 == pages0[p := NEW_PAGE])
    ensures FreeLess(pages0, pages1[p := Bumped(pages1[p], off, size)], Addr(p, off))
  {
    BumpKeeps(pages1[p], off, size);
    var b, pg2 := pages1[p := Bumped(pages1[p], off, size)], Bumped(pages1[p], off, size);
    hide PageOk;
    forall x: nat, m: nat ensures FreeOn(pg2, x, m) <==> FreeOn(pages1[p], x, m) && x != off {
    }
  }

  lemma VectorClass(pages: map<nat, Page>, vec: Option<seq<nat>>)
    ensures ClassUp(136) == 8 && RoundUp8(4 * NUM_CLASSES) + BLOCK_HDR == 136 && SIZES[8] == 160
  {
    RoundsUpUnique(136, ClassUp(136), 8);
  }

  lemma GoneWithPage(pages: map<nat, Page>, r: Addr)
    requires LiveIn(pages, r) && forall y: nat :: IsLive(pages[r.page], y) ==> y == r.off
    ensures !OthersLive(pages[r.page], r.off) && Given(pages, pages - {r.page}, r)
  {
  }

  lemma GivenWithPage(a: map<nat, Page>, b: map<nat, Page>, r: Addr)
    requires SameShape(a, b) && LiveIn(a, r) && forall y: nat :: IsLive(a[r.page], y) ==> y == r.off
    ensures Given(a, b - {r.page}, r)
  {
    forall x: Addr, m: nat ensures FreeAt(b - {r.page}, x, m) <==> FreeAt(a, x, m) && x.page != r.page {
      if x.page in a { assert SamePage(a[x.page], b[x.page]); }
    }
  }

  lemma GivenBack(pages: map<nat, Page>, r: Addr, pg2: Page)
    requires LiveIn(pages, r) && SameBut(pages[r.page], pg2, r.off) && OthersLive(pages[r.page], r.off)
    ensures Given(pages, pages[r.page := pg2], r)
  {
    forall x: nat, m: nat
      ensures FreeOn(pg2, x, m) <==> FreeOn(pages[r.page], x, m) || (x == r.off && m == HeaderAt(pages, r).memSize)
    {
    }
  }

  lemma {:induction false} ExceptAbsent(ch: seq<nat>, p: nat)
    requires p !in ch
    ensures Except(ch, p) == ch
  {
    if ch != [] {
      assert ch == [ch[0]] + ch[1..];
      ExceptAbsent(ch[1..], p);
    }
  }

  lemma {:induction false} ExceptAt(ch: seq<nat>, k: nat)
    requires Distinct(ch) && k < |ch|
    ensures Except(ch, ch[k]) == Without(ch, k)
  {
    var rest := ch[1..];
    if k == 0 {
      ExceptAbsent(rest, ch[0]);
      assert Without(ch, 0) == rest;
    } else {
      ExceptAt(rest, k - 1);
      assert Without(ch, k) == [ch[0]] + Without(rest, k - 1);
    }
  }

  lemma WithoutIsExcept(ch: seq<nat>, k: nat, pages: map<nat, Page>, head: nat, sc: nat)
    requires ListOk(pages, head, sc, ch) && k < |ch|
    ensures Without(ch, k) == Except(ch, ch[k])
  {
    ExceptAt(ch, k);
  }

  lemma ExceptNone(pages: map<nat, Page>, p: nat, vec: seq<nat>, chains: seq<seq<nat>>, i: nat)
    requires Unlinked(pages, p, vec, chains, i) && i < NUM_CLASSES && p in pages && !HasFree(pages[p], i)
    ensures |chains| == NUM_CLASSES && Except(chains[i], p) == chains[i]
  {
    hide HasFree, ListOk;
    ListOfClass(pages, p, vec, chains, i);
    Listed(pages, p, vec[i], i, chains[i]);
    ExceptAbsent(chains[i], p);
  }

  lemma NothingExcept(pages: map<nat, Page>, p: nat, vec: Option<seq<nat>>, chains: seq<seq<nat>>)
    requires AllLists(pages, vec, chains) && forall sc: nat | sc < NUM_CLASSES :: p !in chains[sc]
    ensures forall d | 0 <= d < |chains| :: chains[d] == Except(chains[d], p)
  {
    hide ListOk;
    forall d | 0 <= d < |chains| ensures chains[d] == Except(chains[d], p) {
      ExceptAbsent(chains[d], p);
    }
  }

  /** A page of several holds its large object only. */
  lemma LargeIsAlone(pg: Page, x: nat)
    requires PageOk(pg) && pg.nth > 1 && IsLive(pg, x)
    ensures forall y: nat :: IsLive(pg, y) <==> y == x
    ensures forall sc: nat :: !HasFree(pg, sc)
    ensures pg.hdrs[x].kind.Large?
  {
  }

  /** A large object on one page is alone there as well. */
  lemma LargeIsOnly(pg: Page, x: nat)
    requires PageOk(pg) && IsLive(pg, x)
    ensures pg.hdrs[x].kind.Large? ==> forall y: nat :: IsLive(pg, y) ==> y == x
  {
    if pg.hdrs[x].kind.Large? {
      forall y: nat | IsLive(pg, y) ensures y == x {
        assert BlockOk(pg, y);
      }
    }
  }

  lemma NotListed(pages: map<nat, Page>, p: nat, vec: Option<seq<nat>>, chains: seq<seq<nat>>)
    requires AllLists(pages, vec, chains) && p in pages && forall sc: nat :: !HasFree(pages[p], sc)
    ensures forall sc: nat | sc < NUM_CLASSES :: p !in chains[sc]
  {
    hide HasFree;
    forall sc: nat | sc < NUM_CLASSES ensures p !in chains[sc] {
      assert ListOk(pages, Heads(vec, sc), sc, chains[sc]);
    }
  }

  lemma VectorSize(pages: map<nat, Page>, vec: Option<seq<nat>>, chains: seq<seq<nat>>)
    requires AllLists(pages, vec, chains)
    ensures |chains| == NUM_CLASSES && (vec.Some? ==> |vec.value| == NUM_CLASSES)
  {
    hide ListOk;
  }

  /** The list invariant read off one page: it is on the list of a class exactly when it holds a
      free block of the class, it is there once, and only its highest such block is marked. */
  lemma OnListIffFree(pages: map<nat, Page>, vec: Option<seq<nat>>, chains: seq<seq<nat>>, p: nat, sc: nat)
    requires PagesOk(pages) && AllLists(pages, vec, chains) && p in pages && sc < NUM_CLASSES
    ensures p in chains[sc] <==> exists x: nat :: IsFree(pages[p], x, sc)
    ensures forall i, j | 0 <= i < j < |chains[sc]| :: !(chains[sc][i] == p == chains[sc][j])
    ensures p in chains[sc] ==> exists x: nat ::
      IsLast(pages[p], x, sc) && forall y: nat | IsFree(pages[p], y, sc) :: pages[p].hdrs[y].kind.last <==> y == x
  {
    assert ListOk(pages, Heads(vec, sc), sc, chains[sc]);
    Listed(pages, p, Heads(vec, sc), sc, chains[sc]);
    if p in chains[sc] {
      OneMarked(pages[p], sc);
    }
  }

  lemma OneMarked(pg: Page, sc: nat)
    requires PageOk(pg) && HasFree(pg, sc)
    ensures exists x: nat ::
      IsLast(pg, x, sc) && forall y: nat | IsFree(pg, y, sc) :: pg.hdrs[y].kind.last <==> y == x
  {
    var x := LastOf(pg, sc);
    forall y: nat | IsFree(pg, y, sc) ensures pg.hdrs[y].kind.last <==> y == x {
      LinkIsLast(pg, y, sc);
    }
  }

  /** No two live objects share a byte, nor do they reach into the header of a page. */
  lemma LiveObjectsDisjoint(pages: map<nat, Page>, a: Addr, b: Addr)
    requires PagesOk(pages) && Apart(pages) && LiveIn(pages, a) && LiveIn(pages, b) && a != b
    ensures Byte(a) + HeaderAt(pages, a).memSize <= Byte(b) || Byte(b) + HeaderAt(pages, b).memSize <= Byte(a)
    ensures PAGE_HDR <= a.off && a.off + HeaderAt(pages, a).memSize <= pages[a.page].nth * PAGE
  {
    assert BlockOk(pages[a.page], a.off) && BlockOk(pages[b.page], b.off);
    if a.page != b.page {
      var p, q, m, n := a.page, b.page, pages[a.page].nth, pages[b.page].nth;
      if p + m <= q { PagesBelow(p, m, q); } else { PagesBelow(q, n, p); }
    }
  }

  lemma PagesBelow(p: nat, m: nat, q: nat)
    requires p + m <= q
    ensures p * PAGE + m * PAGE <= q * PAGE
  {
  }

  /** The address of an object, pages being numbered through memory. */
  function Byte(a: Addr): nat { a.page * PAGE + a.off }

  /** The pages of the area, large ones with all they span, do not overlap. */
  ghost predicate Apart(pages: map<nat, Page>) {
    forall p, q | p in pages && q in pages && p != q :: p + pages[p].nth <= q || q + pages[q].nth <= p
  }

  /** n pages from p on that belong to no page of the area: what the page allocator gives out. */
  ghost predicate Vacant(pages: map<nat, Page>, p: nat, n: nat) {
    forall q | q in pages :: p + n <= q || q + pages[q].nth <= p
  }

  lemma MoreApart(a: map<nat, Page>, b: map<nat, Page>, r: Addr)
    requires OneMore(a, b, r) && b.Keys == a.Keys + {r.page} && Apart(a)
    requires r.page !in a ==> Vacant(a, r.page, b[r.page].nth)
    ensures Apart(b)
  {
  }

  lemma LessApart(a: map<nat, Page>, b: map<nat, Page>, r: Addr)
    requires OneLess(a, b, r) && Apart(a)
    ensures Apart(b)
  {
  }

  lemma DropLists(pages: map<nat, Page>, p: nat, vec: Option<seq<nat>>, chains: seq<seq<nat>>)
    requires AllLists(pages, vec, chains) && forall sc: nat | sc < NUM_CLASSES :: p !in chains[sc]
    ensures AllLists(pages - {p}, vec, chains)
  {
    hide ListOk;
    forall sc: nat | sc < NUM_CLASSES ensures ListOk(pages - {p}, Heads(vec, sc), sc, chains[sc]) {
      ListDrop(pages, p, Heads(vec, sc), sc, chains[sc]);
    }
  }

  /** Deleting the page of its only live object. */
  lemma DropPage(pages: map<nat, Page>, a: Addr)
    requires LiveIn(pages, a) && forall y: nat :: IsLive(pages[a.page], y) ==> y == a.off
    ensures OneLess(pages, pages - {a.page}, a)
    ensures Occupied(pages) ==> Occupied(pages - {a.page})
  {
    forall x: Addr ensures x != a ==> (LiveIn(pages - {a.page}, x) <==> LiveIn(pages, x)) {
      if x.page == a.page && IsLive(pages[a.page], x.off) {
        assert x.off == a.off;
      }
    }
  }

  lemma OneLessKeeps(a: map<nat, Page>, b: map<nat, Page>, r: Addr, v: Addr)
    requires OneLess(a, b, r) && v != r
    ensures LiveIn(a, v) ==> LiveIn(b, v) && HeaderAt(b, v) == HeaderAt(a, v)
  {
  }

  lemma FreeLive(pages: map<nat, Page>, a: Addr, pg2: Page)
    requires LiveIn(pages, a)
    requires SameBut(pages[a.page], pg2, a.off)
    ensures OneLess(pages, pages[a.page := pg2], a)
  {
  }

  lemma FreeCurrent(pages: map<nat, Page>, a: Addr, pg2: Page, page: nat, off: nat)
    requires CurrentOk(pages, page, off) && LiveIn(pages, a)
    requires SameBut(pages[a.page], pg2, a.off)
    ensures CurrentOk(pages[a.page := pg2], page, off)
  {
  }

  lemma FreeOccupied(a: map<nat, Page>, b: map<nat, Page>, r: Addr)
    requires Occupied(a) && OneLess(a, b, r) && a.Keys == b.Keys
    requires exists y: nat :: y != r.off && IsLive(a[r.page], y)
    ensures Occupied(b)
  {
    forall p | p in b ensures HasLive(b[p]) {
      var y: nat :| IsLive(a[p], y) && (p == r.page ==> y != r.off);
      assert LiveIn(a, Addr(p, y));
      assert LiveIn(b, Addr(p, y));
    }
  }

  /** What freeing a block of a page with other live objects leaves alone. */
  lemma FreeRest(pages: map<nat, Page>, a: Addr, pg2: Page, page: nat, off: nat, v: Addr)
    requires PagesOk(pages) && Occupied(pages) && CurrentOk(pages, page, off) && LiveIn(pages, a) && v != a
    requires PageOk(pg2) && SameBut(pages[a.page], pg2, a.off)
    requires OthersLive(pages[a.page], a.off)
    ensures var pages2 := pages[a.page := pg2];
      && PagesOk(pages2) && Occupied(pages2) && CurrentOk(pages2, page, off) && OneLess(pages, pages2, a)
      && (LiveIn(pages, v) ==> LiveIn(pages2, v) && HeaderAt(pages2, v) == HeaderAt(pages, v))
  {
    hide PageOk, Occupied, CurrentOk, OneLess;
    FreeLive(pages, a, pg2);
    FreeCurrent(pages, a, pg2, page, off);
    FreeOccupied(pages, pages[a.page := pg2], a);
    OneLessKeeps(pages, pages[a.page := pg2], a, v);
  }

  /** The block at x became free; besides, only links inside free blocks differ. */
  ghost predicate SameBut(pg: Page, pg2: Page, x: nat) {
    && pg2.nth == pg.nth && pg2.hdrs.Keys == pg.hdrs.Keys
    && (x in pg2.hdrs ==> pg2.hdrs[x].kind.Free?)
    && (forall y | y in pg.hdrs :: pg2.hdrs[y].memSize == pg.hdrs[y].memSize)
    && (forall y | y in pg.hdrs && y != x :: pg2.hdrs[y] == pg.hdrs[y] || (pg.hdrs[y].kind.Free? && pg2.hdrs[y].kind.Free?))
  }

  lemma PushPage(pages: map<nat, Page>, p: nat, pg2: Page, vec: seq<nat>, chains: seq<seq<nat>>, sc: nat)
    requires AllLists(pages, Some(vec), chains) && p in pages && p != 0 && sc < NUM_CLASSES
    requires !HasFree(pages[p], sc) && HasFree(pg2, sc) && NextOf(pg2, sc) == Heads(Some(vec), sc)
    requires forall d: nat | d != sc :: SameClass(pages[p], pg2, d)
    ensures AllLists(pages[p := pg2], Some(vec[sc := p]), chains[sc := [p] + chains[sc]])
  {
    hide ListOk, HasFree, NextOf, SameClass;
    ListPush(pages, p, pg2, Heads(Some(vec), sc), sc, chains[sc]);
    AllListsUpdate(pages, p, pg2, vec, chains, sc, p, [p] + chains[sc]);
  }

  // ------------------------------------------------------------------ dropping a page

  /** Only links inside free blocks differ. */
  ghost predicate SamePage(pg: Page, pg2: Page) {
    && pg2.nth == pg.nth && pg2.hdrs.Keys == pg.hdrs.Keys
    && (forall x | x in pg.hdrs :: pg2.hdrs[x].memSize == pg.hdrs[x].memSize)
    && (forall x | x in pg.hdrs :: pg2.hdrs[x] == pg.hdrs[x] || (pg.hdrs[x].kind.Free? && pg2.hdrs[x].kind.Free?))
  }

  ghost predicate SameShape(a: map<nat, Page>, b: map<nat, Page>) {
    a.Keys == b.Keys && forall q | q in a :: SamePage(a[q], b[q])
  }

  /** No class but sc sees a difference. */
  ghost predicate OnlyClass(a: map<nat, Page>, b: map<nat, Page>, sc: nat) {
    a.Keys == b.Keys && forall q, d: nat | q in a && d != sc :: SameClass(a[q], b[q], d)
  }

  ghost predicate Relinked(pg: Page, pg2: Page, sc: nat, next: nat) {
    && PageOk(pg2) && SamePage(pg, pg2) && HasFree(pg, sc) && HasFree(pg2, sc) && NextOf(pg2, sc) == next
    && forall d: nat | d != sc :: SameClass(pg, pg2, d)
  }

  /** Page p has left the lists of the classes below i. */
  ghost predicate Unlinked(pages: map<nat, Page>, p: nat, vec: seq<nat>, chains: seq<seq<nat>>, i: nat) {
    && |vec| == |chains| == NUM_CLASSES
    && forall sc: nat | sc < NUM_CLASSES :: ListOk(if sc < i then pages - {p} else pages, vec[sc], sc, chains[sc])
  }

  lemma StartUnlinking(pages: map<nat, Page>, p: nat, vec: seq<nat>, chains: seq<seq<nat>>)
    requires AllLists(pages, Some(vec), chains)
    ensures Unlinked(pages, p, vec, chains, 0)
  {
    hide ListOk;
    forall sc: nat | sc < NUM_CLASSES ensures ListOk(pages, vec[sc], sc, chains[sc]) {
      assert Heads(Some(vec), sc) == vec[sc];
    }
  }

  lemma DoneUnlinking(pages: map<nat, Page>, p: nat, vec: seq<nat>, chains: seq<seq<nat>>)
    requires Unlinked(pages, p, vec, chains, NUM_CLASSES)
    ensures AllLists(pages - {p}, Some(vec), chains)
  {
    hide ListOk;
  }

  lemma ListOfClass(pages: map<nat, Page>, p: nat, vec: seq<nat>, chains: seq<seq<nat>>, i: nat)
    requires Unlinked(pages, p, vec, chains, i) && i < NUM_CLASSES
    ensures |vec| == |chains| == NUM_CLASSES && ListOk(pages, vec[i], i, chains[i])
  {
    hide ListOk;
  }

  lemma Listed(pages: map<nat, Page>, p: nat, head: nat, sc: nat, ch: seq<nat>)
    requires ListOk(pages, head, sc, ch)
    ensures p in ch <==> p in pages && HasFree(pages[p], sc)
  {
    hide HasFree;
  }

  lemma SkipClass(pages: map<nat, Page>, p: nat, vec: seq<nat>, chains: seq<seq<nat>>, i: nat)
    requires Unlinked(pages, p, vec, chains, i) && i < NUM_CLASSES && p in pages && !HasFree(pages[p], i)
    ensures Unlinked(pages, p, vec, chains, i + 1)
  {
    hide HasFree, ListOk;
    ListOfClass(pages, p, vec, chains, i);
    Listed(pages, p, vec[i], i, chains[i]);
    ListDrop(pages, p, vec[i], i, chains[i]);
  }

  /** Changing every page without changing what class sc sees. */
  lemma ListFrameAll(pages: map<nat, Page>, pages2: map<nat, Page>, head: nat, sc: nat, ch: seq<nat>)
    requires ListOk(pages, head, sc, ch) && pages.Keys == pages2.Keys
    requires forall q | q in pages :: SameClass(pages[q], pages2[q], sc)
    ensures ListOk(pages2, head, sc, ch)
  {
    hide HasFree, NextOf;
  }

  lemma SkipDone(pages: map<nat, Page>, pages2: map<nat, Page>, p: nat, vec: seq<nat>, vec2: seq<nat>,
                 chains: seq<seq<nat>>, chains2: seq<seq<nat>>, i: nat)
    requires Unlinked(pages, p, vec, chains, i) && i < NUM_CLASSES == |vec2| == |chains2| && OnlyClass(pages, pages2, i)
    requires vec2 == vec[i := vec2[i]] && chains2 == chains[i := chains2[i]]
    requires ListOk(pages2 - {p}, vec2[i], i, chains2[i])
    ensures Unlinked(pages2, p, vec2, chains2, i + 1)
  {
    hide ListOk, SameClass;
    forall sc: nat | sc < NUM_CLASSES
      ensures ListOk(if sc < i + 1 then pages2 - {p} else pages2, vec2[sc], sc, chains2[sc])
    {
      if sc < i {
        ListFrameAll(pages - {p}, pages2 - {p}, vec[sc], sc, chains[sc]);
      } else if sc > i {
        ListFrameAll(pages, pages2, vec[sc], sc, chains[sc]);
      }
    }
  }

  lemma SameShapeTrans(a: map<nat, Page>, b: map<nat, Page>, c: map<nat, Page>)
    requires SameShape(a, b) && SameShape(b, c)
    ensures SameShape(a, c)
  {
    hide SamePage;
    forall q | q in a ensures SamePage(a[q], c[q]) {
      assert SamePage(a[q], b[q]) && SamePage(b[q], c[q]);
      SamePageTrans(a[q], b[q], c[q]);
    }
  }

  lemma SamePageTrans(a: Page, b: Page, c: Page)
    requires SamePage(a, b) && SamePage(b, c)
    ensures SamePage(a, c)
  {
  }

  lemma SamePageLive(a: Page, b: Page)
    requires SamePage(a, b)
    ensures forall x: nat :: IsLive(a, x) <==> (IsLive(b, x) && x in a.hdrs && a.hdrs[x] == b.hdrs[x])
    ensures forall x: nat :: IsLive(b, x) ==> IsLive(a, x)
  {
  }

  lemma ShapeCurrent(a: map<nat, Page>, b: map<nat, Page>, page: nat, off: nat)
    requires SameShape(a, b) && CurrentOk(a, page, off)
    ensures CurrentOk(b, page, off)
  {
    if page != 0 {
      assert SamePage(a[page], b[page]);
    }
  }

  lemma DropCurrent(pages: map<nat, Page>, p: nat, page: nat, off: nat)
    requires CurrentOk(pages, page, off) && page != p
    ensures CurrentOk(pages - {p}, page, off)
  {
  }

  lemma DropShaped(a: map<nat, Page>, b: map<nat, Page>, r: Addr)
    requires SameShape(a, b) && LiveIn(a, r) && forall y: nat :: IsLive(a[r.page], y) ==> y == r.off
    ensures OneLess(a, b - {r.page}, r)
    ensures Occupied(a) ==> Occupied(b - {r.page})
  {
    var c := b - {r.page};
    forall x: Addr ensures x != r ==> (LiveIn(c, x) <==> LiveIn(a, x))
                   ensures LiveIn(c, x) && x != r ==> LiveIn(a, x) && HeaderAt(c, x) == HeaderAt(a, x)
    {
      if x.page in a {
        SamePageLive(a[x.page], b[x.page]);
      }
    }
    if Occupied(a) {
      forall p | p in c ensures HasLive(c[p]) {
        SamePageLive(a[p], b[p]);
        assert HasLive(a[p]);
      }
    }
  }

  lemma NoChange(pages: map<nat, Page>, sc: nat)
    ensures SameShape(pages, pages) && OnlyClass(pages, pages, sc)
  {
  }

  ghost function Position(pages: map<nat, Page>, head: nat, sc: nat, ch: seq<nat>, p: nat): (k: nat)
    requires ListOk(pages, head, sc, ch) && p in pages && HasFree(pages[p], sc)
    ensures k < |ch| && ch[k] == p
  {
    hide HasFree;
    assert p in ch;
    var k :| 0 <= k < |ch| && ch[k] == p;
    k
  }

  lemma FirstIsZero(pages: map<nat, Page>, head: nat, sc: nat, ch: seq<nat>, p: nat, k: nat)
    requires ListOk(pages, head, sc, ch) && k < |ch| && ch[k] == p && head == p
    ensures k == 0
  {
  }

  lemma FirstOf(pages: map<nat, Page>, head: nat, sc: nat, ch: seq<nat>)
    requires ListOk(pages, head, sc, ch) && ch != []
    ensures head == ch[0] && head != 0
  {
  }

  lemma NotPast(pages: map<nat, Page>, sc: nat, ch: seq<nat>)
    requires ch != [] && ch[0] in pages
    ensures LinkedPast(pages, pages, sc, ch, 0)
  {
  }

  /** The page before p, and no other before it, links to p. */
  lemma Following(pages: map<nat, Page>, head: nat, sc: nat, ch: seq<nat>, j: nat, k: nat)
    requires ListOk(pages, head, sc, ch) && j < k < |ch|
    ensures ch[j] in pages && HasFree(pages[ch[j]], sc) && ch[j + 1] != 0
    ensures ch[j] != ch[k] && NextOf(pages[ch[j]], sc) == ch[j + 1] && (ch[j + 1] == ch[k] <==> j + 1 == k)
  {
    hide HasFree, NextOf;
    assert ch[j] in ch;
    assert NextOf(pages[ch[j]], sc) == At(ch, j + 1);
  }

  lemma PastPredecessor(pages: map<nat, Page>, pages2: map<nat, Page>, sc: nat, ch: seq<nat>, k: nat, next: nat)
    requires 0 < k < |ch| && ch[k] in pages && ch[k - 1] in pages && ch[k - 1] in pages2 && ch[k - 1] != ch[k]
    requires pages2 == pages[ch[k - 1] := pages2[ch[k - 1]]]
    requires PagesOk(pages) && Relinked(pages[ch[k - 1]], pages2[ch[k - 1]], sc, next) && next == NextOf(pages[ch[k]], sc)
    ensures LinkedPast(pages, pages2, sc, ch, k)
    ensures PagesOk(pages2) && SameShape(pages, pages2) && OnlyClass(pages, pages2, sc) && pages2[ch[k]] == pages[ch[k]]
  {
    hide HasFree, NextOf, PageOk;
  }

  lemma Relinks(pg: Page, x: nat, sc: nat, next: nat)
    requires PageOk(pg) && IsLast(pg, x, sc)
    ensures Relinked(pg, SetKind(pg, x, Free(sc, true, next)), sc, next)
  {
    hide NextOf, PageOk, SameClass;
    Relink(pg, x, sc, next);
  }

  ghost function LastOf(pg: Page, sc: nat): (y: nat)
    requires PageOk(pg) && HasFree(pg, sc)
    ensures IsLast(pg, y, sc) && IsFree(pg, y, sc)
  {
    var x: nat :| IsFree(pg, x, sc);
    LastExists(pg, sc, x);
    var y: nat :| y >= x && IsLast(pg, y, sc);
    y
  }

  lemma LinkIsLast(pg: Page, x: nat, sc: nat)
    requires PageOk(pg) && IsFree(pg, x, sc)
    ensures pg.hdrs[x].kind.last <==> IsLast(pg, x, sc)
  {
  }

  /** The scan of remove_page_from_free_list_or_next for the block with the link. */
  method FindLink(pg: Page, sc: nat) returns (x: nat)
    requires PageOk(pg) && HasFree(pg, sc)
    ensures IsLast(pg, x, sc)
  {
    hide FreeBlocksOk, HasFree;
    ghost var y := LastOf(pg, sc);
    LinkIsLast(pg, y, sc);
    FreePageIsSingle(pg, sc);
    FirstHeader(pg);
    x := PAGE_HDR;
    while x < PAGE && pg.hdrs[x].memSize > 0
      invariant x in pg.hdrs || x == PAGE
      invariant x <= y
      decreases PAGE - x
    {
      var h := pg.hdrs[x];
      if h.kind.Free? && h.kind.sc == sc && h.kind.last {
        LinkIsLast(pg, x, sc);
        return;
      }
      assert BlockOk(pg, x);
      x := x + h.memSize;
    }
    assert false;
  }

  /** The scan of parea_dealloc_small: the highest free block of the class, and whether another
      object lives on the page. */
  method ScanPage(pg: Page, sc: nat, x0: nat) returns (lastIs: Option<nat>, anyAlloced: bool)
    requires PageOk(pg) && pg.nth == 1
    ensures if lastIs.Some? then IsLast(pg, lastIs.value, sc) else !HasFree(pg, sc)
    ensures anyAlloced <==> exists y: nat :: y != x0 && IsLive(pg, y)
  {
    hide FreeBlocksOk;
    lastIs, anyAlloced := None, false;
    var x := PAGE_HDR;
    FirstHeader(pg);
    while x < PAGE && pg.hdrs[x].memSize > 0
      invariant x in pg.hdrs || x == PAGE
      invariant if lastIs.Some? then lastIs.value < x && IsFree(pg, lastIs.value, sc) else true
      invariant forall y: nat | y < x && IsFree(pg, y, sc) :: lastIs.Some? && y <= lastIs.value
      invariant anyAlloced <==> exists y: nat :: y < x && y != x0 && IsLive(pg, y)
      decreases PAGE - x
    {
      var h := pg.hdrs[x];
      assert BlockOk(pg, x);
      NoHeaderInside(pg, x);
      if h.kind.Free? {
        if h.kind.sc == sc {
          lastIs := Some(x);
        }
      } else if x != x0 {
        assert IsLive(pg, x);
        anyAlloced := true;
      }
      x := x + h.memSize;
    }
    assert forall y | y in pg.hdrs && pg.hdrs[y].memSize > 0 :: y < x;
  }

  lemma NoHeaderInside(pg: Page, x: nat)
    requires Tiles(pg) && x in pg.hdrs && pg.hdrs[x].memSize > 0
    ensures forall y | y in pg.hdrs :: y < x + pg.hdrs[x].memSize <==> y <= x
  {
  }

  ghost predicate SeenLast(pg: Page, x: nat, sc: nat) {
    exists y: nat :: y < x && IsLast(pg, y, sc)
  }

  /** The first half of freed_last_object_on_page: the page's links by class. */
  method Gather(pg: Page) returns (hasfree: seq<bool>, nextpg: seq<nat>)
    requires PageOk(pg) && pg.nth == 1
    ensures |hasfree| == |nextpg| == NUM_CLASSES
    ensures forall sc: nat | sc < NUM_CLASSES :: (hasfree[sc] <==> HasFree(pg, sc)) && (hasfree[sc] ==> nextpg[sc] == NextOf(pg, sc))
  {
    hide NextOf, HasFree, IsLast, IsFree, SeenLast, PageOk, BlockOk;
    SeenNone(pg);
    hasfree, nextpg := seq(NUM_CLASSES, i => false), seq(NUM_CLASSES, i => 0);
    var x := PAGE_HDR;
    while x < PAGE && pg.hdrs[x].memSize > 0
      invariant x <= PAGE && (x in pg.hdrs || x == PAGE)
      invariant |hasfree| == |nextpg| == NUM_CLASSES
      invariant forall sc: nat | sc < NUM_CLASSES :: hasfree[sc] <==> SeenLast(pg, x, sc)
      invariant forall sc: nat | sc < NUM_CLASSES :: hasfree[sc] ==> nextpg[sc] == NextOf(pg, sc)
      decreases PAGE - x
    {
      var h := pg.hdrs[x];
      SeenMore(pg, x);
      GatherStep(pg, x);
      if h.kind.Free? {
        if h.kind.last {
          hasfree, nextpg := hasfree[h.kind.sc := true], nextpg[h.kind.sc := h.kind.next];
        }
      }
      x := x + h.memSize;
    }
    SeenAll(pg, x);
  }

  lemma SeenNone(pg: Page)
    requires PageOk(pg)
    ensures PAGE_HDR in pg.hdrs && PAGE_HDR < End(pg) && forall sc: nat :: !SeenLast(pg, PAGE_HDR, sc)
  {
    FirstHeader(pg);
  }

  lemma GatherStep(pg: Page, x: nat)
    requires PageOk(pg) && pg.nth == 1 && x in pg.hdrs && pg.hdrs[x].memSize > 0
    ensures var y := x + pg.hdrs[x].memSize; y in pg.hdrs || y == PAGE
    ensures x + pg.hdrs[x].memSize <= PAGE
    ensures var k := pg.hdrs[x].kind; k.Free? ==> k.sc < NUM_CLASSES && (k.last ==> NextOf(pg, k.sc) == k.next)
  {
    hide NextOf, HasFree;
    assert BlockOk(pg, x);
    var k := pg.hdrs[x].kind;
    if k.Free? {
      assert IsFree(pg, x, k.sc);
      if k.last { NextOfIs(pg, x, k.sc); }
    }
  }

  lemma SeenMore(pg: Page, x: nat)
    requires PageOk(pg) && x in pg.hdrs && pg.hdrs[x].memSize > 0
    ensures forall sc: nat :: SeenLast(pg, x + pg.hdrs[x].memSize, sc) <==> SeenLast(pg, x, sc) || IsLast(pg, x, sc)
    ensures forall sc: nat :: IsLast(pg, x, sc) <==> pg.hdrs[x].kind.Free? && pg.hdrs[x].kind.sc == sc && pg.hdrs[x].kind.last
  {
    NoHeaderInside(pg, x);
    forall sc: nat ensures IsLast(pg, x, sc) <==> pg.hdrs[x].kind.Free? && pg.hdrs[x].kind.sc == sc && pg.hdrs[x].kind.last {
      if IsFree(pg, x, sc) {
        assert pg.hdrs[x].kind.last <==> forall y: nat | y > x :: !IsFree(pg, y, sc);
      }
    }
  }

  lemma SeenAll(pg: Page, x: nat)
    requires PageOk(pg) && pg.nth == 1 && if x < PAGE then x in pg.hdrs && pg.hdrs[x].memSize == 0 else x == PAGE
    ensures forall sc: nat :: SeenLast(pg, x, sc) <==> HasFree(pg, sc)
  {
    FirstHeader(pg);
    forall sc: nat ensures SeenLast(pg, x, sc) <==> HasFree(pg, sc) {
      if HasFree(pg, sc) {
        var y: nat :| IsFree(pg, y, sc);
        LastExists(pg, sc, y);
      }
    }
  }

  /** The scan of reusing_alloc; the page is known to hold a free block, so the scan never
      falls off its end. */
  method FindLowest(pg: Page, sc: nat) returns (x: nat)
    requires PageOk(pg) && pg.nth == 1 && HasFree(pg, sc)
    ensures IsFree(pg, x, sc) && forall y: nat | y < x :: !IsFree(pg, y, sc)
  {
    hide FreeBlocksOk;
    x := PAGE_HDR;
    FirstHeader(pg);
    while x < PAGE && pg.hdrs[x].memSize > 0
      invariant x in pg.hdrs || x == PAGE
      invariant forall y: nat | IsFree(pg, y, sc) :: y >= x
      decreases PAGE - x
    {
      var h := pg.hdrs[x];
      if h.kind.Free? && h.kind.sc == sc {
        return;
      }
      assert BlockOk(pg, x);
      x := x + h.memSize;
    }
    ghost var y: nat :| IsFree(pg, y, sc);
    assert false;
  }

  /** The block size a request is rounded up to. */
  function SpaceFor(space: nat): (r: nat)
    requires BLOCK_HDR <= space <= PAGE_SPACE
    ensures space <= r <= PAGE_SPACE && 32 <= r
  {
    SizesIncrease();
    SIZES[ClassUp(space)]
  }

  lemma FirstHeader(pg: Page)
    requires Tiles(pg)
    ensures forall y | y in pg.hdrs :: PAGE_HDR <= y < End(pg)
  {
    assert forall y | y in pg.hdrs :: BlockOk(pg, y);
  }

  lemma FreePageIsSingle(pg: Page, sc: nat)
    requires PageOk(pg) && HasFree(pg, sc)
    ensures pg.nth == 1
  {
  }

  lemma FreeIsDown(pg: Page, x: nat, sc: nat)
    requires PageOk(pg) && IsFree(pg, x, sc)
    ensures sc == ClassDown(pg.hdrs[x].memSize)
  {
  }

  function FirstPage(size: nat): Page {
    Page(1, map[PAGE_HDR := Header(size, Area), PAGE_HDR + size := MARKER])
  }

  lemma FirstPageOk(size: nat)
    requires 0 < size < PAGE - PAGE_HDR
    ensures PageOk(FirstPage(size)) && forall sc: nat :: !HasFree(FirstPage(size), sc)
    ensures forall x: nat :: IsLive(FirstPage(size), x) <==> x == PAGE_HDR
  {
    var pg := FirstPage(size);
    assert BlockOk(pg, PAGE_HDR) && BlockOk(pg, PAGE_HDR + size);
    assert forall x | x in pg.hdrs :: x == PAGE_HDR || x == PAGE_HDR + size;
    assert forall x: nat, sc: nat :: !IsFree(pg, x, sc);
  }

  lemma ReuseLive(pages: map<nat, Page>, p: nat, x: nat, sc: nat)
    requires p in pages && IsFree(pages[p], x, sc)
    ensures OneMore(pages, pages[p := SetKind(pages[p], x, Normal)], Addr(p, x))
  {
  }

  /** What reusing a block leaves alone. */
  lemma TakeRest(pages: map<nat, Page>, p: nat, x: nat, sc: nat, page: nat, off: nat, v: Addr)
    requires PagesOk(pages) && Occupied(pages) && CurrentOk(pages, page, off) && p in pages && IsFree(pages[p], x, sc)
    requires PageOk(SetKind(pages[p], x, Normal))
    ensures var pages2 := pages[p := SetKind(pages[p], x, Normal)];
      && PagesOk(pages2) && Occupied(pages2) && CurrentOk(pages2, page, off) && OneMore(pages, pages2, Addr(p, x))
      && (LiveIn(pages, v) ==> LiveIn(pages2, v) && HeaderAt(pages2, v) == HeaderAt(pages, v))
      && LiveIn(pages2, Addr(p, x)) && HeaderAt(pages2, Addr(p, x)) == Header(pages[p].hdrs[x].memSize, Normal)
  {
    hide PageOk, Occupied, OneMore;
    var pg2 := SetKind(pages[p], x, Normal);
    ReuseLive(pages, p, x, sc);
    CurrentFrame(pages, p, pg2, page, off);
    StaysOccupied(pages, pages[p := pg2], Addr(p, x));
    OneMoreKeeps(pages, pages[p := pg2], Addr(p, x), v);
  }

  lemma BumpLive(pages: map<nat, Page>, p: nat, off: nat, size: nat)
    requires p in pages && PageOk(pages[p]) && off in pages[p].hdrs && pages[p].hdrs[off] == MARKER && size > 0
    ensures OneMore(pages, pages[p := Bumped(pages[p], off, size)], Addr(p, off))
  {
    hide FreeBlocksOk;
    BumpKeeps(pages[p], off, size);
  }

  lemma BumpCurrent(pages: map<nat, Page>, p: nat, off: nat, size: nat)
    requires p in pages && p != 0 && pages[p].nth == 1 && PageOk(pages[p]) && off in pages[p].hdrs && pages[p].hdrs[off] == MARKER
    requires size > 0 && off + size <= PAGE
    ensures CurrentOk(pages[p := Bumped(pages[p], off, size)], p, off + size)
  {
    BumpKeeps(pages[p], off, size);
    FirstHeader(pages[p]);
  }

  lemma LargeLive(pages: map<nat, Page>, p: nat, n: nat)
    requires p !in pages && n >= 1
    ensures OneMore(pages, pages[p := LargePage(n)], Addr(p, PAGE_HDR))
  {
  }

  lemma SameThenMore(a: map<nat, Page>, b: map<nat, Page>, c: map<nat, Page>, r: Addr)
    requires SameLive(a, b) && OneMore(b, c, r)
    ensures OneMore(a, c, r)
  {
  }

  lemma OneMoreKeeps(a: map<nat, Page>, b: map<nat, Page>, r: Addr, v: Addr)
    requires OneMore(a, b, r)
    ensures LiveIn(a, v) ==> LiveIn(b, v) && HeaderAt(b, v) == HeaderAt(a, v)
    ensures LiveIn(b, r)
  {
  }

  lemma StaysOccupied(a: map<nat, Page>, b: map<nat, Page>, r: Addr)
    requires Occupied(a) && OneMore(a, b, r) && forall p | p in b :: p in a || p == r.page
    ensures Occupied(b)
  {
    forall p | p in b ensures HasLive(b[p]) {
      if p == r.page {
        assert IsLive(b[p], r.off);
      } else {
        var x: nat :| IsLive(a[p], x);
        assert LiveIn(a, Addr(p, x));
        assert LiveIn(b, Addr(p, x));
      }
    }
  }

  /** Changing kinds, not sizes, on a page leaves the bump pointer where it was. */
  lemma CurrentFrame(pages: map<nat, Page>, p: nat, pg: Page, page: nat, off: nat)
    requires CurrentOk(pages, page, off) && p in pages
    requires pg.nth == pages[p].nth && pg.hdrs.Keys == pages[p].hdrs.Keys
    requires forall x | x in pg.hdrs && pages[p].hdrs[x] == MARKER :: pg.hdrs[x] == MARKER
    ensures CurrentOk(pages[p := pg], page, off)
  {
  }

  lemma CurrentFresh(pages: map<nat, Page>, p: nat, pg: Page, page: nat, off: nat)
    requires CurrentOk(pages, page, off) && p !in pages
    ensures CurrentOk(pages[p := pg], page, off)
  {
  }
}
