/** What a client sees of a version 3 store (packages/lss/lssv3.c), and what its operations do to
    it: writes, deletes, allocations, commits and changes of generation. */
module LssViews {
  import opened Options
  import opened LssFormat

  datatype Op =
    | Put(recnum: nat, data: Bytes)
    | Remove(recnum: nat)
    | Take(minr: nat, cnt: nat)
    | Save(flag: int)
    | GoTo(gen: nat)

  /** What the client sees to: record numbers in range. */
  predicate OpOk(op: Op) {
    match op
    case Put(k, _) => k < MAX_RECNUM
    case Remove(k) => k < MAX_RECNUM
    case Take(minr, cnt) => minr < MAX_RECNUM && 1 <= cnt <= MAX_RECNUM - minr
    case _ => true
  }

  /** What the index part of a commit record stands for: records, the lines of its master index, and
      the numbers in its diff list. */
  datatype Snapshot = Snapshot(contents: Contents, lines: set<nat>, diffs: set<nat>)

  /** A generation that was committed; `prev` is the one it was committed from, 0 if none. */
  datatype Version = Version(image: Snapshot, generation: nat, prev: nat, bookmarks: seq<nat>)

  /** A store: its records, the lines of its index, how many lines its commit record counts, whether the
      logged index has been given up (stale) and what it says if not, the generations by position, and
      the one it stands at (0 before the first).  It is adrift when a failed change of generation
      has moved it without its records. */
  datatype View = View(
    live: Contents,
    lines: set<nat>,
    counted: nat,
    stale: bool,
    logged: Snapshot,
    versions: map<nat, Version>,
    at: nat,
    generation: nat,
    bookmarks: seq<nat>,
    adrift: bool)
  {
    function Mark(b: nat): nat { if 1 <= b <= |bookmarks| then bookmarks[b - 1] else 0 }

    /** What a commit records. */
    function Image(): Snapshot { if stale then Snapshot(live, lines, {}) else logged }

    function Pending(): Contents { Image().contents }
  }

  /** What the commit record counts and describes is what the index has. */
  ghost predicate InStep(x: View) {
    x.counted == |x.lines| && forall k: nat :: x.Pending()(k) == x.live(k)
  }

  /** The generations met by going back from p. */
  ghost predicate Trail(v: map<nat, Version>, p: nat, q: nat)
    decreases p
  {
    p in v && (q == p || (0 < v[p].prev < p && Trail(v, v[p].prev, q)))
  }

  ghost predicate Linked(v: map<nat, Version>, p: nat)
    requires p in v
  {
    && p != 0
    && (if v[p].prev == 0 then v[p].generation == FIRST_GENERATION
        else v[p].prev < p && v[p].prev in v && v[v[p].prev].generation + 1 == v[p].generation)
  }

  ghost predicate AllLinked(v: map<nat, Version>) {
    forall p {:trigger Linked(v, p)} | p in v :: Linked(v, p)
  }

  ghost predicate Sensible(x: View) {
    && AllLinked(x.versions)
    && (if x.at == 0 then x.generation + 1 == FIRST_GENERATION
        else x.at in x.versions && x.versions[x.at].generation == x.generation)
  }

  // ------------------------------------------------------------------ what an operation does to it

  function Updated(f: Contents, k: nat, value: Option<Bytes>): Contents {
    (j: nat) => if j == k then value else f(j)
  }

  /** One record changes.  A record in a line that the index does not have, and a full diff list, give
      the logged index up; otherwise the record changes in what a commit would record as well,
      whatever else that is. */
  function Changed(a: View, k: nat, value: Option<Bytes>): View {
    var added := value.Some? && k / LINE_SIZE !in a.lines;
    var stale := a.stale || added || |a.logged.diffs| >= MAX_DIFFS;
    a.(live := Updated(a.live, k, value),
       lines := if added then a.lines + {k / LINE_SIZE} else a.lines,
       counted := if added then a.counted + 1 else a.counted,
       stale := stale,
       logged := if stale then a.logged
                 else Snapshot(Updated(a.logged.contents, k, value), a.logged.lines, a.logged.diffs + {k}))
  }

  /** A new generation, of what a commit records. */
  ghost predicate Saved(a: View, flag: int, b: View) {
    && (a.stale ==> a.counted == |a.lines|)
    && b.at != 0 && (forall p | p in a.versions :: p < b.at)
    && (var marks := if 0 < flag <= |a.bookmarks| then a.bookmarks[flag - 1 := b.at] else a.bookmarks;
        b == a.(versions := a.versions[b.at := Version(a.Image(), a.generation + 1, a.at, marks)],
                at := b.at, generation := a.generation + 1, bookmarks := marks, stale := false, logged := a.Image()))
  }

  /** The lines with records that only the diff list has. */
  function Extra(z: Snapshot): set<nat> {
    set k | k in z.diffs && z.contents(k).Some? && k / LINE_SIZE !in z.lines :: k / LINE_SIZE
  }

  /** The index is read back; adding lines that only the diff list has gives the logged index up. */
  function Reindexed(a: View, z: Snapshot): View {
    var lines := z.lines + Extra(z);
    a.(live := z.contents, lines := lines, counted := |lines|, stale := Extra(z) != {}, logged := z, adrift := false)
  }

  function StandingAt(a: View, q: nat): View
    requires q in a.versions
  {
    a.(at := q, generation := a.versions[q].generation, bookmarks := a.versions[q].bookmarks)
  }

  /** The store of generation q again. */
  ghost predicate Arrived(a: View, q: nat, b: View) {
    q in a.versions && b == Reindexed(StandingAt(a, q), a.versions[q].image)
  }

  /** The commit record moved to generation r without the records. */
  ghost predicate Strayed(a: View, r: nat, b: View) {
    r in a.versions &&
    var z := a.versions[r].image;
    b == StandingAt(a, r).(counted := |z.lines|, stale := false, logged := z, adrift := true)
  }

  ghost predicate Moved(a: View, gen: nat, b: View) {
    if gen == a.generation then
      a.at != 0 && Arrived(a, a.at, b)
    else if gen == 0 then
      if a.at == 0 then b == a else !a.stale && b == Reindexed(a, a.logged)
    else if gen <= NUM_BOOKMARKS then
      a.Mark(gen) != 0 && Arrived(a, a.Mark(gen), b)
    else if FIRST_GENERATION <= gen <= a.generation then
      Trail(a.versions, a.at, b.at) && b.generation == gen && Arrived(a, b.at, b)
    else if a.at == 0 || (a.at in a.versions && a.versions[a.at].prev == 0) then
      b == a
    else
      Trail(a.versions, a.at, b.at) && b.at in a.versions && a.versions[b.at].prev == 0 && Strayed(a, b.at, b)
  }

  ghost predicate Step(a: View, op: Op, b: View) {
    match op
    case Put(k, data) => b == Changed(a, k, Some(data))
    case Remove(k) => b == Changed(a, k, None)
    case Take(_, _) => b == a
    case Save(flag) => Saved(a, flag, b)
    case GoTo(gen) => Moved(a, gen, b)
  }

  /** Where an assertion of the source stops the program: a commit that must log an index of another
      number of lines than its commit record counts; a generation to go to before there is any; a logged
      index to reload that has been given up; a bookmark that was never set. */
  ghost predicate Blocked(a: View, op: Op) {
    match op
    case Save(_) => a.stale && a.counted != |a.lines|
    case GoTo(gen) =>
      if gen == a.generation then a.at == 0
      else if gen == 0 then a.at != 0 && a.stale
      else gen <= NUM_BOOKMARKS && a.Mark(gen) == 0
    case _ => false
  }

  // ------------------------------------------------------------------ whole runs

  ghost predicate IsRun(trace: seq<View>, ops: seq<Op>, n: nat) {
    n <= |ops| && |trace| == n + 1 && forall i | 0 <= i < n :: Step(trace[i], ops[i], trace[i + 1])
  }

  /** Generations are never lost from the volume. */
  lemma StepKeepsVersions(a: View, op: Op, b: View)
    requires Sensible(a) && Step(a, op, b)
    ensures Sensible(b)
    ensures forall p | p in a.versions :: p in b.versions && b.versions[p] == a.versions[p]
  {
    match op {
      case Save(flag) =>
        SavedSensible(a, flag, b);
      case GoTo(gen) =>
        MovedSensible(a, gen, b);
      case _ =>
    }
  }

  lemma SavedSensible(a: View, flag: int, b: View)
    requires Sensible(a) && Saved(a, flag, b)
    ensures Sensible(b)
    ensures forall p | p in a.versions :: p in b.versions && b.versions[p] == a.versions[p]
  {
    forall p | p in b.versions ensures Linked(b.versions, p) {
      assert p in a.versions ==> Linked(a.versions, p);
    }
  }

  lemma MovedSensible(a: View, gen: nat, b: View)
    requires Sensible(a) && Moved(a, gen, b)
    ensures Sensible(b) && b.versions == a.versions
  {
    hide Trail;
    assert b.at in a.versions ==> Linked(a.versions, b.at);
  }

  lemma {:induction false} RunKeepsVersions(trace: seq<View>, ops: seq<Op>, n: nat, i: nat, j: nat)
    requires IsRun(trace, ops, n) && Sensible(trace[0]) && i <= j <= n
    ensures Sensible(trace[i]) && Sensible(trace[j])
    ensures forall p | p in trace[i].versions :: p in trace[j].versions && trace[j].versions[p] == trace[i].versions[p]
    decreases j
  {
    hide Step, Sensible;
    if j > 0 {
      RunKeepsVersions(trace, ops, n, if i < j then i else j - 1, j - 1);
      StepKeepsVersions(trace[j - 1], ops[j - 1], trace[j]);
    }
  }

  /** What a run without changes of generation leaves in record k. */
  function Net(ops: seq<Op>, k: nat, before: Option<Bytes>): Option<Bytes> {
    if ops == [] then before else NetOf(ops[|ops| - 1], k, Net(ops[..|ops| - 1], k, before))
  }

  function NetOf(op: Op, k: nat, before: Option<Bytes>): Option<Bytes> {
    match op
    case Put(r, data) => if r == k then Some(data) else before
    case Remove(r) => if r == k then None else before
    case _ => before
  }

  ghost predicate Straight(ops: seq<Op>) { forall i | 0 <= i < |ops| :: !ops[i].GoTo? }

  lemma Prefix(ops: seq<Op>, i: nat)
    requires 0 < i <= |ops|
    ensures ops[..i][..i - 1] == ops[..i - 1] && ops[..i][i - 1] == ops[i - 1]
  {
  }

  /** Every record is what the last write or delete before made of it, in a store adrift as well. */
  lemma {:induction false} StraightRun(trace: seq<View>, ops: seq<Op>, n: nat, i: nat, k: nat)
    requires IsRun(trace, ops, n) && i <= n && Straight(ops[..i])
    ensures trace[i].live(k) == Net(ops[..i], k, trace[0].live(k)) && trace[i].adrift == trace[0].adrift
    decreases i
  {
    if i > 0 {
      Prefix(ops, i);
      StraightRun(trace, ops, n, i - 1, k);
      assert Step(trace[i - 1], ops[i - 1], trace[i]);
    }
  }

  /** Commit record and index stay in step through everything but a change of generation that fails. */
  lemma StepInStep(a: View, op: Op, b: View)
    requires InStep(a) && Step(a, op, b) && !b.adrift
    ensures InStep(b) && !Blocked(a, Save(0))
  {
  }

  lemma {:induction false} StraightInStep(trace: seq<View>, ops: seq<Op>, n: nat, i: nat)
    requires IsRun(trace, ops, n) && i <= n && Straight(ops[..i]) && InStep(trace[0]) && !trace[0].adrift
    ensures InStep(trace[i]) && !trace[i].adrift
    decreases i
  {
    if i > 0 {
      Prefix(ops, i);
      StraightInStep(trace, ops, n, i - 1);
      assert Step(trace[i - 1], ops[i - 1], trace[i]);
      StepInStep(trace[i - 1], ops[i - 1], trace[i]);
    }
  }

  /** A commit adds the generation after the current one, with the records as they are, for good. */
  lemma SaveRecords(trace: seq<View>, ops: seq<Op>, n: nat, i: nat, j: nat)
    requires IsRun(trace, ops, n) && Sensible(trace[0]) && i < j <= n && ops[i].Save?
    ensures var p := trace[i + 1].at;
      && p !in trace[i].versions && p in trace[j].versions
      && trace[j].versions[p].image == trace[i].Image()
      && trace[j].versions[p].generation == trace[i].generation + 1
      && trace[j].versions[p].prev == trace[i].at
  {
    hide Sensible, Step;
    RunKeepsVersions(trace, ops, n, i, j);
    RunKeepsVersions(trace, ops, n, i + 1, j);
    SaveStep(trace[i], ops[i].flag, trace[i + 1]);
  }

  lemma SaveStep(a: View, flag: int, b: View)
    requires Step(a, Save(flag), b) && Sensible(a)
    ensures b.at !in a.versions && b.at in b.versions && b.generation == a.generation + 1
    ensures var v := b.versions[b.at]; v.image == a.Image() && v.generation == a.generation + 1 && v.prev == a.at
    ensures Trail(b.versions, b.at, b.at)
  {
  }

  // ------------------------------------------------------------------ the trail of generations

  lemma {:induction false} TrailFalls(v: map<nat, Version>, p: nat, q: nat)
    requires Trail(v, p, q) && AllLinked(v)
    ensures q in v && v[q].generation <= v[p].generation && (v[q].generation == v[p].generation ==> q == p)
    decreases p
  {
    assert Linked(v, p);
    if p != q { TrailFalls(v, v[p].prev, q); }
  }

  /** Of two generations on a trail the higher one leads to the lower. */
  lemma {:induction false} TrailOrder(v: map<nat, Version>, p: nat, q: nat, r: nat)
    requires Trail(v, p, q) && Trail(v, p, r) && q in v && r in v && AllLinked(v)
    requires v[r].generation <= v[q].generation
    ensures Trail(v, q, r)
    decreases p
  {
    TrailFalls(v, p, q);
    TrailFalls(v, p, r);
    if p != q && p != r { TrailOrder(v, v[p].prev, q, r); }
  }

  lemma {:induction false} TrailGrows(v: map<nat, Version>, w: map<nat, Version>, p: nat, q: nat)
    requires Trail(v, p, q) && forall r | r in v :: r in w && w[r] == v[r]
    ensures Trail(w, p, q)
    decreases p
  {
    if p != q { TrailGrows(v, w, v[p].prev, q); }
  }

  /** An operation that does not go back before generation g. */
  ghost predicate Stays(x: View, op: Op, g: nat) {
    !op.GoTo? || op.gen == 0 || g <= op.gen <= x.generation
  }

  /** Where the store can go back to, it still can after an operation that does not go back further. */
  lemma StaysOnTrail(a: View, op: Op, b: View, p: nat)
    requires Sensible(a) && Step(a, op, b) && Trail(a.versions, a.at, p) && p in a.versions
    requires Stays(a, op, a.versions[p].generation)
    ensures Trail(b.versions, b.at, p) && p in b.versions && b.versions[p] == a.versions[p]
  {
    StepKeepsVersions(a, op, b);
    assert Linked(a.versions, p);
    TrailFirst(a.versions, p);
    match op {
      case Save(flag) =>
        TrailGrows(a.versions, b.versions, a.at, p);
      case GoTo(gen) =>
        if gen != 0 && gen != a.generation {
          TrailOrder(a.versions, a.at, b.at, p);
        }
      case _ =>
    }
  }

  lemma {:induction false} TrailFirst(v: map<nat, Version>, p: nat)
    requires p in v && AllLinked(v)
    ensures v[p].generation >= FIRST_GENERATION
    decreases p
  {
    assert Linked(v, p);
    if v[p].prev != 0 { TrailFirst(v, v[p].prev); }
  }

  lemma {:induction false} StillOnTrail(trace: seq<View>, ops: seq<Op>, n: nat, i: nat, j: nat)
    requires IsRun(trace, ops, n) && Sensible(trace[0]) && i < j <= n && ops[i].Save?
    requires forall m | i < m < j :: Stays(trace[m], ops[m], trace[i + 1].generation)
    ensures Sensible(trace[j])
    ensures var p := trace[i + 1].at; Trail(trace[j].versions, trace[j].at, p) && p in trace[j].versions
    decreases j
  {
    hide Sensible, Step;
    RunKeepsVersions(trace, ops, n, i, j);
    SaveRecords(trace, ops, n, i, j);
    SaveStep(trace[i], ops[i].flag, trace[i + 1]);
    if j > i + 1 {
      StillOnTrail(trace, ops, n, i, j - 1);
      SaveRecords(trace, ops, n, i, j - 1);
      StaysOnTrail(trace[j - 1], ops[j - 1], trace[j], trace[i + 1].at);
    }
  }

  /** Going to the generation a commit made brings back what it recorded, however the store was changed,
      committed and moved since, as long as it did not go back further or to a bookmark and no change of
      generation failed. */
  lemma GoBack(trace: seq<View>, ops: seq<Op>, n: nat, i: nat, j: nat)
    requires IsRun(trace, ops, n) && Sensible(trace[0]) && i < j < n && ops[i].Save?
    requires forall m | i < m < j :: Stays(trace[m], ops[m], trace[i + 1].generation)
    requires ops[j] == GoTo(trace[i + 1].generation)
    ensures trace[j + 1].at == trace[i + 1].at && !trace[j + 1].adrift
    ensures trace[j + 1].live == trace[i].Pending()
  {
    hide Step, Sensible, Linked;
    var p := trace[i + 1].at;
    StillOnTrail(trace, ops, n, i, j);
    SaveRecords(trace, ops, n, i, j);
    RunKeepsVersions(trace, ops, n, i, j);
    SaveStep(trace[i], ops[i].flag, trace[i + 1]);
    GoesTo(trace[j], p, trace[j + 1]);
  }

  /** The generation number of a version on the trail leads to it. */
  lemma GoesTo(a: View, p: nat, b: View)
    requires Sensible(a) && Trail(a.versions, a.at, p) && p in a.versions && Step(a, GoTo(a.versions[p].generation), b)
    ensures b.at == p && !b.adrift && b.live == a.versions[p].image.contents
  {
    TrailFalls(a.versions, a.at, p);
    TrailFirst(a.versions, p);
    assert Linked(a.versions, p);
    if a.versions[p].generation != a.generation {
      TrailFalls(a.versions, a.at, b.at);
      TrailOrder(a.versions, a.at, b.at, p);
      TrailFalls(a.versions, b.at, p);
    }
  }

  // ------------------------------------------------------------------ after a change of generation that failed

  /** After a change of generation that failed and moved the store, and a commit, only the new
      generation and the first one can be gone back to; the new one records the first. */
  lemma LostThenSave(a: View, gen: nat, b: View, flag: int, c: View)
    requires Sensible(a) && a.at != 0 && a.versions[a.at].prev != 0
    requires gen > a.generation || NUM_BOOKMARKS < gen < FIRST_GENERATION
    requires Step(a, GoTo(gen), b) && Step(b, Save(flag), c)
    ensures b.live == a.live && c.live == a.live
    ensures b.generation == FIRST_GENERATION && c.generation == FIRST_GENERATION + 1
    ensures c.versions[c.at].image == a.versions[b.at].image
    ensures forall q: nat :: Trail(c.versions, c.at, q) <==> q == c.at || q == b.at
  {
    TrailFirst(a.versions, a.at);
    assert Linked(a.versions, b.at);
    assert c.versions[c.at].prev == b.at && c.versions[b.at] == a.versions[b.at];
    forall q: nat ensures Trail(c.versions, c.at, q) <==> q == c.at || q == b.at {
      assert Trail(c.versions, b.at, q) <==> q == b.at;
    }
  }

  /** How many lines the commit record fails to count. */
  function Uncounted(x: View): int { |x.lines| - x.counted }

  /** While a store adrift is not told to go anywhere, the lines its commit record fails to count stay as
      many; and until the logged index is given up, what a commit would record is what the operations
      make of the generation it strayed to. */
  lemma {:induction false} AdriftRun(trace: seq<View>, ops: seq<Op>, n: nat, i: nat)
    requires IsRun(trace, ops, n) && i <= n && Straight(ops[..i])
    ensures Uncounted(trace[i]) == Uncounted(trace[0])
    ensures (forall m | 0 <= m <= i :: !trace[m].stale) ==>
      forall k: nat :: trace[i].Pending()(k) == Net(ops[..i], k, trace[0].Pending()(k))
    decreases i
  {
    if i > 0 {
      Prefix(ops, i);
      AdriftRun(trace, ops, n, i - 1);
      assert Step(trace[i - 1], ops[i - 1], trace[i]);
    }
  }

  ghost predicate Touches(op: Op, k: nat) { (op.Put? || op.Remove?) && op.recnum == k }

  /** Some operation writes or deletes record k. */
  ghost predicate Touched(ops: seq<Op>, k: nat) {
    exists i :: 0 <= i < |ops| && Touches(ops[i], k)
  }

  lemma {:induction false} NetTouched(ops: seq<Op>, k: nat, x: Option<Bytes>, y: Option<Bytes>)
    ensures Net(ops, k, x) == Net(ops, k, y) <==> x == y || Touched(ops, k)
  {
    if ops != [] {
      var n := |ops| - 1;
      NetTouched(ops[..n], k, x, y);
      assert forall i | 0 <= i < n :: ops[..n][i] == ops[i];
      assert Touched(ops, k) <==> Touched(ops[..n], k) || Touches(ops[n], k);
    }
  }

  /** Exactly when a commit of such a store goes through, and exactly when it records the live records:
      once the logged index has been given up it does, if every line is counted; before that it does if
      every record in which the store differed from the generation it strayed to has been written or
      deleted since. */
  lemma AdriftSave(trace: seq<View>, ops: seq<Op>, n: nat, i: nat)
    requires IsRun(trace, ops, n) && i < |ops| && i <= n && Straight(ops[..i]) && ops[i].Save?
    ensures Blocked(trace[i], ops[i]) <==> trace[i].stale && Uncounted(trace[0]) != 0
    ensures i < n ==>
      (trace[i].stale ==> trace[i + 1].versions[trace[i + 1].at].image.contents == trace[i].live)
    ensures i < n && (forall m | 0 <= m <= i :: !trace[m].stale) ==>
      (var z := trace[i + 1].versions[trace[i + 1].at].image.contents;
       && (forall k: nat :: z(k) == Net(ops[..i], k, trace[0].Pending()(k)))
       && ((forall k: nat :: z(k) == trace[i].live(k)) <==>
           forall k: nat :: trace[0].Pending()(k) == trace[0].live(k) || Touched(ops[..i], k)))
  {
    AdriftRun(trace, ops, n, i);
    assert i < n ==> Step(trace[i], ops[i], trace[i + 1]);
    hide Step, Net;
    forall k: nat
      ensures trace[i].live(k) == Net(ops[..i], k, trace[0].live(k))
      ensures Net(ops[..i], k, trace[0].Pending()(k)) == Net(ops[..i], k, trace[0].live(k)) <==>
        trace[0].Pending()(k) == trace[0].live(k) || Touched(ops[..i], k)
    {
      StraightRun(trace, ops, n, i, k);
      NetTouched(ops[..i], k, trace[0].Pending()(k), trace[0].live(k));
    }
  }

  /** A store that has strayed to generation r: the gap is that between its lines and those of r, and
      what a commit would record is r. */
  lemma StrayedGap(a: View, gen: nat, b: View)
    requires Sensible(a) && a.at != 0 && a.versions[a.at].prev != 0
    requires gen > a.generation || NUM_BOOKMARKS < gen < FIRST_GENERATION
    requires Step(a, GoTo(gen), b)
    ensures b.at in a.versions && Uncounted(b) == |a.lines| - |a.versions[b.at].image.lines|
    ensures !b.stale && b.adrift && b.Pending() == a.versions[b.at].image.contents && b.live == a.live
  {
    TrailFirst(a.versions, a.at);
  }
}
