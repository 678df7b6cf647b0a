/** The size classes of the persistent allocator (packages/rstore/areas.c:10-41, 943-972). */
module SizeClasses {

  const PAGE: nat := 8192             // MM_PAGE_SIZE
  const PAGE_HDR: nat := 16           // sizeof(struct FirstPageHdr)
  const BLOCK_HDR: nat := 24          // sizeof(struct PHeapHdr)
  const PAGE_SPACE: nat := 8176
  const NUM_CLASSES: nat := 27        // P_NUM_SIZE_CLASS
  const AREA_SIZE: nat := 56          // sizeof(PAllocArea)

  /** psizeclass_l: the block size of every class. */
  const SIZES: seq<nat> := [0, 32, 48, 64, 80, 96, 112,
                            128, 160, 192, 224,
                            256, 320, 384, 448,
                            512, 640, 768, 896,
                            1024, 1168, 1360, 1632, 2040, 2720, 4088,
                            PAGE_SPACE]

  lemma SizesIncrease()
    ensures |SIZES| == NUM_CLASSES
    ensures forall i, j | 0 <= i < j < NUM_CLASSES :: SIZES[i] < SIZES[j]
    ensures forall i | 0 <= i < NUM_CLASSES :: SIZES[i] % 8 == 0 && SIZES[i] <= PAGE_SPACE
  {
    assert forall i | 0 < i < NUM_CLASSES :: SIZES[i - 1] < SIZES[i];
    Increasing(NUM_CLASSES - 1);
  }

  lemma {:induction false} Increasing(n: nat)
    requires n < |SIZES| == NUM_CLASSES
    requires forall i | 0 < i < NUM_CLASSES :: SIZES[i - 1] < SIZES[i]
    ensures forall i, j | 0 <= i < j <= n :: SIZES[i] < SIZES[j]
  {
    if n > 0 {
      Increasing(n - 1);
      assert SIZES[n - 1] < SIZES[n];
    }
  }

  /** Class i is the smallest that can hold n bytes. */
  predicate RoundsUp(n: nat, i: nat) {
    i < |SIZES| && n <= SIZES[i] && (i > 0 ==> SIZES[i - 1] < n)
  }

  /** Class i is the largest whose blocks fit into n bytes. */
  predicate RoundsDown(n: nat, i: nat) {
    i < |SIZES| && SIZES[i] <= n && (i + 1 < |SIZES| ==> n < SIZES[i + 1])
  }

  /** memset on part of a table. */
  method Fill(t: array<nat>, from: nat, value: nat, len: nat)
    requires from + len <= t.Length
    modifies t
    ensures forall n | 0 <= n < t.Length :: t[n] == if from <= n < from + len then value else old(t[n])
  {
    for k := 0 to len
      invariant forall n | 0 <= n < t.Length :: t[n] == if from <= n < from + k then value else old(t[n])
    {
      t[from + k] := value;
    }
  }

  /** The first half of rstore_init_psizeclass: the request table rounds up. */
  method InitRequestTable(t: array<nat>)
    requires t.Length == PAGE + 1
    modifies t
    ensures forall n | 0 <= n <= PAGE_SPACE :: RoundsUp(n, t[n])
    ensures forall n | PAGE_SPACE < n < PAGE :: t[n] == NUM_CLASSES
    ensures t[PAGE] == 0xE5
  {
    SizesIncrease();
    t[PAGE] := 0xE5;
    var j := 0;
    for i := 0 to |SIZES|
      invariant j == if i == 0 then 0 else SIZES[i - 1] + 1
      invariant forall n | 0 <= n < j :: RoundsUp(n, t[n])
      invariant t[PAGE] == 0xE5
    {
      Fill(t, j, i, SIZES[i] + 1 - j);
      j := SIZES[i] + 1;
    }
    Fill(t, j, NUM_CLASSES, PAGE - j);
  }

  /** The second half: the table of what a block of a given size satisfies rounds down. */
  method InitActualTable(t: array<nat>)
    requires t.Length == PAGE + 1
    modifies t
    ensures forall n | 0 <= n < PAGE :: RoundsDown(n, t[n])
    ensures t[PAGE] == 0xE5
  {
    SizesIncrease();
    t[PAGE] := 0xE5;
    var j := 0;
    for i := 0 to |SIZES| - 1
      invariant j == SIZES[i]
      invariant forall n | 0 <= n < j :: RoundsDown(n, t[n])
      invariant t[PAGE] == 0xE5
    {
      Fill(t, j, i, SIZES[i + 1] - j);
      j := SIZES[i + 1];
    }
    Fill(t, j, |SIZES| - 1, PAGE - j);
  }

  /** What the two tables hold, as functions. */
  function ClassUp(n: nat): (i: nat)
    requires n <= PAGE_SPACE
    ensures RoundsUp(n, i)
  {
    SearchUp(n, 0)
  }

  function SearchUp(n: nat, i: nat): (r: nat)
    requires n <= PAGE_SPACE && i < |SIZES| && (i > 0 ==> SIZES[i - 1] < n)
    ensures RoundsUp(n, r)
    decreases |SIZES| - i
  {
    if n <= SIZES[i] then i else SearchUp(n, i + 1)
  }

  function ClassDown(n: nat): (i: nat)
    ensures RoundsDown(n, i)
  {
    SearchDown(n, 0)
  }

  function SearchDown(n: nat, i: nat): (r: nat)
    requires i < |SIZES| && SIZES[i] <= n
    ensures RoundsDown(n, r)
    decreases |SIZES| - i
  {
    if i + 1 < |SIZES| && SIZES[i + 1] <= n then SearchDown(n, i + 1) else i
  }

  lemma RoundsUpUnique(n: nat, i: nat, j: nat)
    requires RoundsUp(n, i) && RoundsUp(n, j)
    ensures i == j
  {
    SizesIncrease();
  }

  lemma RoundsDownUnique(n: nat, i: nat, j: nat)
    requires RoundsDown(n, i) && RoundsDown(n, j)
    ensures i == j
  {
    SizesIncrease();
  }

  /** Rounding requests up and blocks down makes every block of a class big enough for every
      request of that class. */
  lemma ReusedBlockFits(request: nat, block: nat)
    requires request <= PAGE_SPACE && ClassUp(request) == ClassDown(block)
    ensures request <= block
  {
  }

  /** round_up: to a multiple of 8, as the unsigned C expression computes it. */
  function RoundUp8(n: nat): (r: nat)
    ensures r % 8 == 0 && n <= r < n + 8
  {
    n + (8 - n % 8) % 8
  }
}
