/** What the regex machine finds, said without its search: the moves an opcode allows, read off the
    program and the string, and the first trail of moves in the order of preference. */
module RegexTrails {
  import opened Options
  import opened RegexMachines

  // ------------------------------------------------------------------ moves

  function Unit(x: bool): nat { if x then 1 else 0 }

  /** The number with these binary digits, the highest first. */
  function Binary(bits: seq<bool>): nat {
    if bits == [] then 0 else 2 * Binary(bits[..|bits| - 1]) + Unit(bits[|bits| - 1])
  }

  ghost predicate Bits(b: byte, bits: seq<bool>) { |bits| == 8 && b == Binary(bits) }

  /** A character set has a bit for each character, eight to the byte. */
  ghost predicate Member(m: seq<byte>, at: nat, ch: byte)
    requires at + 32 <= |m|
  {
    exists bits :: Bits(m[at + ch / 8], bits) && bits[ch % 8]
  }

  /** The 16-bit operand at a place, the high byte first. */
  function Word(m: seq<byte>, at: nat): nat
    requires at + 1 < |m|
  {
    256 * m[at] as nat + m[at + 1] as nat
  }

  /** An opcode for one character, with its operands. */
  predicate OneChar(m: seq<byte>, at: nat) {
    && at < |m|
    && (m[at] == MATCH_ANY || (m[at] == MATCH1 && at + 2 <= |m|) || (m[at] == MATCH_SET && at + 33 <= |m|))
  }

  /** The opcode at a place takes the character. */
  ghost predicate Eats(m: seq<byte>, at: nat, ch: byte)
    requires OneChar(m, at)
  {
    || m[at] == MATCH_ANY
    || (m[at] == MATCH1 && ch == m[at + 1])
    || (m[at] == MATCH_SET && Member(m, at + 1, ch))
  }

  /** How many bytes of operands an opcode has; None for one the machine does not know. */
  function OperandCount(op: byte, first: byte): Option<nat> {
    if op == MATCH1 || op == SAVE_PLACE then Some(1)
    else if op == MATCH_ANY || op == ACCEPT || op == STR_END || op == STR_START || op == REJECT then Some(0)
    else if op == MATCH_SET then Some(32)
    else if op == MATCHN then Some(1 + first as nat)
    else if op == BRANCH || op == JUMP || op == MATCH_STAR || op == MATCH_PLUS then Some(2)
    else None
  }

  predicate Repeats(op: byte) { op == MATCH_STAR || op == MATCH_PLUS }

  /** No opcode the machine knows, operands that are not there, or a repetition of something else
      than one character. */
  predicate IllFormed(m: seq<byte>, pc: nat) {
    || pc >= |m|
    || OperandCount(m[pc], if pc + 1 < |m| then m[pc + 1] else 0).None?
    || pc + 1 + OperandCount(m[pc], if pc + 1 < |m| then m[pc + 1] else 0).value > |m|
    || (Repeats(m[pc]) && !OneChar(m, Word(m, pc + 1)))
  }

  /** One opcode leads from c to d. */
  ghost predicate Moves(m: seq<byte>, s: seq<byte>, c: Config, d: Config) {
    && !IllFormed(m, c.pc) && c.str <= |s|
    && (var op := m[c.pc];
        || (OneChar(m, c.pc) && c.str < |s| && Eats(m, c.pc, s[c.str])
            && d == Config(c.pc + (if op == MATCH_ANY then 1 else if op == MATCH1 then 2 else 33), c.str + 1))
        || (op == MATCHN && d == Config(c.pc + 2 + m[c.pc + 1], c.str + m[c.pc + 1]) && d.str <= |s|
            && s[c.str..d.str] == m[c.pc + 2..d.pc])
        || (op == STR_START && c.str == 0 && d == Config(c.pc + 1, c.str))
        || (op == STR_END && c.str == |s| && d == Config(c.pc + 1, c.str))
        || (op == SAVE_PLACE && d == Config(c.pc + 2, c.str))
        || (op == JUMP && d == Config(Word(m, c.pc + 1), c.str))
        || (op == BRANCH && (d == Config(Word(m, c.pc + 1), c.str) || d == Config(c.pc + 3, c.str)))
        || (Repeats(op) && d.pc == c.pc + 3 && c.str + Unit(op == MATCH_PLUS) <= d.str <= |s|
            && forall i | c.str <= i < d.str :: Eats(m, Word(m, c.pc + 1), s[i])))
  }

  /** Of two moves from c, the one preferred: the branch taken, the longer repetition. */
  predicate Preferred(m: seq<byte>, c: Config, d: Config, e: Config) {
    && !IllFormed(m, c.pc) && d != e
    && if m[c.pc] == BRANCH then d == Config(Word(m, c.pc + 1), c.str) else d.str > e.str
  }

  lemma MemberIs(m: seq<byte>, at: nat, ch: byte)
    requires at + 32 <= |m|
    ensures Member(m, at, ch) <==> InSet(m, at, ch)
  {
    var b := m[at + ch / 8];
    var bits := DigitsOf(b, 8);
    assert Bits(b, bits) by { assert Power(8) == 256 by { PowerIs(7); } }
    MaskIs(ch % 8);
    forall other | Bits(b, other) ensures other[ch % 8] <==> InSet(m, at, ch) {
      DigitIs(other, ch % 8);
    }
  }

  function Power(n: nat): (p: nat)
    ensures p > 0
  {
    if n == 0 then 1 else 2 * Power(n - 1)
  }

  lemma PowerIs(k: nat)
    requires k < 8
    ensures Power(k) == [1, 2, 4, 8, 16, 32, 64, 128][k] && Power(8) == 256
  {
    assert Power(3) == 8 && Power(6) == 8 * Power(3);
  }

  lemma MaskIs(k: nat)
    requires k < 8
    ensures BitMask(k) == Power(7 - k)
  {
    PowerIs(7 - k);
  }

  function DigitsOf(b: nat, n: nat): (bits: seq<bool>)
    requires b < Power(n)
    ensures |bits| == n && Binary(bits) == b
  {
    if n == 0 then [] else DigitsOf(b / 2, n - 1) + [b % 2 == 1]
  }

  lemma {:induction false} DigitIs(bits: seq<bool>, k: nat)
    requires k < |bits|
    ensures bits[k] <==> Binary(bits) / Power(|bits| - 1 - k) % 2 == 1
  {
    var n := |bits| - 1;
    var v := Binary(bits[..n]);
    if k < n {
      DigitIs(bits[..n], k);
      Halved(v, Unit(bits[n]), Power(n - 1 - k));
    }
  }

  lemma Halved(v: nat, u: nat, p: nat)
    requires u < 2 && p > 0
    ensures (2 * v + u) / (2 * p) == v / p
  {
    var q, r := v / p, v % p;
    assert v == q * p + r;
    assert 2 * v + u == q * (2 * p) + (2 * r + u);
    Quotient(2 * v + u, 2 * p, q, 2 * r + u);
  }

  lemma Quotient(x: nat, y: nat, q: nat, r: nat)
    requires y > 0 && r < y && x == q * y + r
    ensures x / y == q
  {
    var d := x / y - q;
    assert d * y == r - x % y;
  }

  lemma EatsIs(m: seq<byte>, at: nat, ch: byte)
    requires OneChar(m, at)
    ensures Repeatable(m, at) && (Eats(m, at, ch) <==> Takes(m, at, ch))
  {
    if m[at] == MATCH_SET { MemberIs(m, at + 1, ch); }
  }

  lemma {:induction false} DownAt(pc: nat, range: int, min: nat)
    ensures |Down(pc, range, min)| == if range < min then 0 else range - min + 1
    ensures forall k: nat | k < |Down(pc, range, min)| :: range - k >= 0 && Down(pc, range, min)[k] == Config(pc, range - k)
    decreases range
  {
    if range >= min { DownAt(pc, range - 1, min); }
  }

  /** The steps of the search are the moves, the preferred ones first. */
  lemma StepMoves(m: seq<byte>, s: seq<byte>, c: Config)
    requires c.str <= |s|
    ensures StepAt(m, s, c).Bad? <==> IllFormed(m, c.pc)
    ensures StepAt(m, s, c).Accepts? <==> c.pc < |m| && m[c.pc] == ACCEPT
    ensures StepAt(m, s, c).Tries? ==> var st := StepAt(m, s, c);
      && (forall d :: d in st.to <==> Moves(m, s, c, d))
      && (forall i: nat, j: nat | i < j < |st.to| && st.to[i] != st.to[j] :: Preferred(m, c, st.to[i], st.to[j]))
      && st.save == if m[c.pc] == SAVE_PLACE then Some(m[c.pc + 1]) else None
  {
    hide Member, Binary, Down, MaxRange, IsMaxRange, InSet, Bits;
    if c.pc < |m| {
      if Repeats(m[c.pc]) {
        if !IllFormed(m, c.pc) { KleeneMoves(m, s, c); }
      } else if OneChar(m, c.pc) && c.str < |s| {
        EatsIs(m, c.pc, s[c.str]);
      }
    }
  }

  lemma KleeneMoves(m: seq<byte>, s: seq<byte>, c: Config)
    requires c.str <= |s| && !IllFormed(m, c.pc) && Repeats(m[c.pc])
    ensures StepAt(m, s, c).Tries? && StepAt(m, s, c).save == None
    ensures var st := StepAt(m, s, c);
      && (forall d :: d in st.to <==> Moves(m, s, c, d))
      && (forall i: nat, j: nat | i < j < |st.to| && st.to[i] != st.to[j] :: Preferred(m, c, st.to[i], st.to[j]))
  {
    var sub, st := Word(m, c.pc + 1), StepAt(m, s, c);
    var min := c.str + Unit(m[c.pc] == MATCH_PLUS);
    forall i | 0 <= i < |s| ensures Eats(m, sub, s[i]) <==> Takes(m, sub, s[i]) { EatsIs(m, sub, s[i]); }
    hide Eats, Takes;
    var r := MaxRange(m, s, sub, c.str);
    assert st.to == Down(c.pc + 3, r, min);
    DownAt(c.pc + 3, r, min);
    forall d ensures d in st.to <==> Moves(m, s, c, d) {
      if Moves(m, s, c, d) {
        assert d.str <= r;
        assert st.to[r - d.str] == d;
      }
    }
  }

  // ------------------------------------------------------------------ trails

  /** Each configuration is a move away from the one before. */
  ghost predicate Trail(m: seq<byte>, s: seq<byte>, cs: seq<Config>) {
    cs != [] && (|cs| > 1 ==> Moves(m, s, cs[0], cs[1]) && Trail(m, s, cs[1..]))
  }

  predicate Accepting(m: seq<byte>, c: Config) { c.pc < |m| && m[c.pc] == ACCEPT }

  /** A trail from c that ends where the machine stops with an answer: it accepts, or the program is broken. */
  ghost predicate Full(m: seq<byte>, s: seq<byte>, c: Config, cs: seq<Config>) {
    Trail(m, s, cs) && cs[0] == c && (Accepting(m, cs[|cs| - 1]) || IllFormed(m, cs[|cs| - 1].pc))
  }

  /** Where they part, a takes the preferred move. */
  ghost predicate Prior(m: seq<byte>, a: seq<Config>, b: seq<Config>) {
    exists k: nat :: 0 < k < |a| && k < |b| && a[..k] == b[..k] && Preferred(m, a[k - 1], a[k], b[k])
  }

  ghost predicate FirstTrail(m: seq<byte>, s: seq<byte>, c: Config, cs: seq<Config>) {
    Full(m, s, c, cs) && forall es | Full(m, s, c, es) :: es == cs || Prior(m, cs, es)
  }

  /** The registers saved along a trail, each with the position it is passed at. */
  function SavesAlong(m: seq<byte>, cs: seq<Config>): seq<Save> {
    if cs == [] then []
    else
      (if cs[0].pc + 1 < |m| && m[cs[0].pc] == SAVE_PLACE then [Save(m[cs[0].pc + 1], cs[0].str)] else [])
        + SavesAlong(m, cs[1..])
  }

  /** What the machine is to answer when it comes to the end of a trail. */
  function Answer(m: seq<byte>, cs: seq<Config>): Result
    requires cs != []
  {
    var last := cs[|cs| - 1];
    if Accepting(m, last) then Found(last.str, SavesAlong(m, cs)) else Error
  }

  ghost predicate Answers(m: seq<byte>, s: seq<byte>, c: Config, cs: seq<Config>, r: Result) {
    FirstTrail(m, s, c, cs) && r == Answer(m, cs)
  }

  /** A result as the trails from c have it: the first full trail decides, and when there is none
      nothing matches; and fuel runs out only on a trail as long as the fuel. */
  ghost predicate Right(m: seq<byte>, s: seq<byte>, c: Config, fuel: nat, r: Result) {
    && (r.NoMatch? ==> forall es :: !Full(m, s, c, es))
    && (r.Found? || r.Error? ==> exists cs :: Answers(m, s, c, cs, r))
    && (r.OutOfFuel? ==> exists cs :: Trail(m, s, cs) && |cs| == fuel + 1 && cs[0] == c)
  }

  /** The search finds the first of all full trails: the branch taken before the one passed by, the
      longer repetition before the shorter. */
  lemma {:induction false} SearchIsFirstTrail(m: seq<byte>, s: seq<byte>, c: Config, fuel: nat)
    requires c.str <= |s|
    ensures Right(m, s, c, fuel, Search(m, s, c, fuel))
    decreases fuel, 0
  {
    var r := Search(m, s, c, fuel);
    hide FirstTrail, Moves;
    if fuel == 0 {
      assert Trail(m, s, [c]);
    } else {
      StepInside(m, s, c);
      StepMoves(m, s, c);
      var st := StepAt(m, s, c);
      hide StepAt, IllFormed;
      if st.Tries? {
        AllFirstTrail(m, s, st.to, fuel - 1);
        TriesRight(m, s, c, st.to, st.save, fuel, SearchAll(m, s, st.to, fuel - 1));
      } else {
        OnlyTrail(m, s, c);
        assert Answers(m, s, c, [c], r);
      }
    }
  }

  lemma OnlyTrail(m: seq<byte>, s: seq<byte>, c: Config)
    requires Accepting(m, c) || IllFormed(m, c.pc)
    ensures FirstTrail(m, s, c, [c]) && (Accepting(m, c) ==> SavesAlong(m, [c]) == [])
  {
    forall es | Full(m, s, c, es) ensures es == [c] {
      assert |es| > 1 ==> Moves(m, s, c, es[1]);
    }
    assert Trail(m, s, [c]);
  }

  /** The first of several configurations with a full trail. */
  ghost predicate FirstOfAll(m: seq<byte>, s: seq<byte>, ds: seq<Config>, i: nat, es: seq<Config>, r: Result) {
    i < |ds| && Answers(m, s, ds[i], es, r) && forall k: nat, hs | k < i :: !Full(m, s, ds[k], hs)
  }

  ghost predicate LongTrail(m: seq<byte>, s: seq<byte>, ds: seq<Config>, i: nat, cs: seq<Config>, fuel: nat) {
    i < |ds| && Trail(m, s, cs) && cs[0] == ds[i] && |cs| == fuel + 1
  }

  ghost predicate AllRight(m: seq<byte>, s: seq<byte>, ds: seq<Config>, fuel: nat, r: Result) {
    && (r.NoMatch? ==> forall k: nat, hs | k < |ds| :: !Full(m, s, ds[k], hs))
    && (r.Found? || r.Error? ==> exists i: nat, es :: FirstOfAll(m, s, ds, i, es, r))
    && (r.OutOfFuel? ==> exists i: nat, cs :: LongTrail(m, s, ds, i, cs, fuel))
  }

  lemma {:induction false} AllFirstTrail(m: seq<byte>, s: seq<byte>, ds: seq<Config>, fuel: nat)
    requires Inside(s, ds)
    ensures AllRight(m, s, ds, fuel, SearchAll(m, s, ds, fuel))
    decreases fuel, |ds|
  {
    hide Full, Answers, Trail;
    if ds != [] {
      SearchIsFirstTrail(m, s, ds[0], fuel);
      var r := Search(m, s, ds[0], fuel);
      if r.Found? || r.Error? {
        var es :| Answers(m, s, ds[0], es, r);
        assert FirstOfAll(m, s, ds, 0, es, r);
      } else if r.OutOfFuel? {
        var cs :| Trail(m, s, cs) && |cs| == fuel + 1 && cs[0] == ds[0];
        assert LongTrail(m, s, ds, 0, cs, fuel);
      } else {
        AllFirstTrail(m, s, ds[1..], fuel);
        RestRight(m, s, ds, fuel, SearchAll(m, s, ds[1..], fuel));
      }
    }
  }

  lemma RestRight(m: seq<byte>, s: seq<byte>, ds: seq<Config>, fuel: nat, r: Result)
    requires ds != [] && AllRight(m, s, ds[1..], fuel, r) && forall hs :: !Full(m, s, ds[0], hs)
    ensures AllRight(m, s, ds, fuel, r)
  {
    hide Full, Answers, Trail;
    var rest := ds[1..];
    assert forall k: nat | 0 < k < |ds| :: ds[k] == rest[k - 1];
    if r.Found? || r.Error? {
      var i: nat, es :| FirstOfAll(m, s, rest, i, es, r);
      forall k: nat, hs | k < i + 1 ensures !Full(m, s, ds[k], hs) {
        if k > 0 { assert !Full(m, s, rest[k - 1], hs); }
      }
      assert FirstOfAll(m, s, ds, i + 1, es, r);
    } else if r.OutOfFuel? {
      var i: nat, cs :| LongTrail(m, s, rest, i, cs, fuel);
      assert LongTrail(m, s, ds, i + 1, cs, fuel);
    }
  }

  /** The moves from c, the preferred first. */
  ghost predicate MovesFrom(m: seq<byte>, s: seq<byte>, c: Config, to: seq<Config>) {
    && (forall d :: d in to <==> Moves(m, s, c, d))
    && (forall i: nat, j: nat | i < j < |to| && to[i] != to[j] :: Preferred(m, c, to[i], to[j]))
  }

  lemma TriesRight(m: seq<byte>, s: seq<byte>, c: Config, to: seq<Config>, save: Option<byte>, fuel: nat, q: Result)
    requires fuel > 0 && MovesFrom(m, s, c, to) && !Accepting(m, c) && !IllFormed(m, c.pc)
    requires save == if m[c.pc] == SAVE_PLACE then Some(m[c.pc + 1]) else None
    requires AllRight(m, s, to, fuel - 1, q)
    ensures Right(m, s, c, fuel, WithSave(save, c.str, q))
  {
    hide Moves, Preferred, FirstTrail;
    var r := WithSave(save, c.str, q);
    if q.NoMatch? {
      forall es ensures !Full(m, s, c, es) {
        if Full(m, s, c, es) { var j := TailFull(m, s, c, to, es); }
      }
    } else if q.OutOfFuel? {
      var i: nat, cs :| LongTrail(m, s, to, i, cs, fuel - 1);
      assert to[i] in to && ([c] + cs)[1..] == cs;
      assert Trail(m, s, [c] + cs);
    } else {
      var i: nat, es :| FirstOfAll(m, s, to, i, es, q);
      FirstExtends(m, s, c, to, i, es, q);
      Extended(m, s, c, to, i, es, save, q);
      assert Answers(m, s, c, [c] + es, r);
    }
  }

  /** A full trail from where nothing is answered goes on as a full trail from one of the moves. */
  lemma TailFull(m: seq<byte>, s: seq<byte>, c: Config, to: seq<Config>, es: seq<Config>) returns (j: nat)
    requires MovesFrom(m, s, c, to) && !Accepting(m, c) && !IllFormed(m, c.pc) && Full(m, s, c, es)
    ensures |es| > 1 && j < |to| && to[j] == es[1] && Full(m, s, to[j], es[1..])
  {
    hide Moves, Preferred, IllFormed;
    assert |es| > 1;
    assert es[1] in to;
    j :| j < |to| && to[j] == es[1];
    assert es[1..][|es| - 2] == es[|es| - 1];
  }

  lemma FirstExtends(m: seq<byte>, s: seq<byte>, c: Config, to: seq<Config>, i: nat, es: seq<Config>, q: Result)
    requires MovesFrom(m, s, c, to) && !Accepting(m, c) && !IllFormed(m, c.pc) && FirstOfAll(m, s, to, i, es, q)
    ensures FirstTrail(m, s, c, [c] + es)
  {
    hide Moves, Preferred, IllFormed;
    var cs := [c] + es;
    assert to[i] in to && cs[1..] == es;
    assert Full(m, s, c, cs);
    forall hs | Full(m, s, c, hs) ensures hs == cs || Prior(m, cs, hs) {
      var j := TailFull(m, s, c, to, hs);
      var rest := hs[1..];
      assert hs == [c] + rest;
      if to[j] == to[i] {
        assert Full(m, s, to[i], rest);
        if rest != es { PriorLonger(m, c, es, rest); }
      } else {
        assert j >= i;
        assert Preferred(m, c, to[i], to[j]);
        assert cs[..1] == [c] == hs[..1];
      }
    }
  }

  lemma PriorLonger(m: seq<byte>, c: Config, a: seq<Config>, b: seq<Config>)
    requires Prior(m, a, b)
    ensures Prior(m, [c] + a, [c] + b)
  {
    hide Preferred;
    var k: nat :| 0 < k < |a| && k < |b| && a[..k] == b[..k] && Preferred(m, a[k - 1], a[k], b[k]);
    var x, y := [c] + a, [c] + b;
    assert x[..k + 1] == [c] + a[..k] && y[..k + 1] == [c] + b[..k];
    assert x[k] == a[k - 1] && x[k + 1] == a[k] && y[k + 1] == b[k];
  }

  lemma Extended(m: seq<byte>, s: seq<byte>, c: Config, to: seq<Config>, i: nat, es: seq<Config>, save: Option<byte>, q: Result)
    requires !IllFormed(m, c.pc) && FirstOfAll(m, s, to, i, es, q)
    requires save == if m[c.pc] == SAVE_PLACE then Some(m[c.pc + 1]) else None
    ensures WithSave(save, c.str, q) == Answer(m, [c] + es)
  {
    hide Moves, Prior, Accepting;
    var cs := [c] + es;
    assert cs[1..] == es && cs[|cs| - 1] == es[|es| - 1];
  }

  // ------------------------------------------------------------------ paths are trails

  /** The configurations that the choices of an accepting path go through are a trail, with its saves. */
  lemma {:induction false} PathIsTrail(m: seq<byte>, s: seq<byte>, c: Config, choices: seq<nat>, end: nat) returns (cs: seq<Config>)
    requires Path(m, s, c, choices, end)
    ensures Full(m, s, c, cs) && Accepting(m, cs[|cs| - 1]) && end == cs[|cs| - 1].str
    ensures |cs| == |choices| + 1 && SavesAlong(m, cs) == SavesOf(m, s, c, choices)
    decreases |choices|
  {
    StepMoves(m, s, c);
    if choices == [] {
      cs := [c];
    } else {
      var st := StepAt(m, s, c);
      hide StepAt, Moves;
      var d := st.to[choices[0]];
      var rest := PathIsTrail(m, s, d, choices[1..], end);
      cs := [c] + rest;
      assert cs[1..] == rest && d in st.to;
      assert cs[|cs| - 1] == rest[|rest| - 1];
      NotIll(m, s, c);
    }
  }

  lemma NotIll(m: seq<byte>, s: seq<byte>, c: Config)
    requires c.str <= |s|
    ensures StepAt(m, s, c).Tries? ==> !IllFormed(m, c.pc) && c.pc < |m| && (m[c.pc] == SAVE_PLACE ==> c.pc + 1 < |m|)
  {
    StepMoves(m, s, c);
    hide StepAt;
  }

  /** A trail that accepts is an accepting path. */
  lemma {:induction false} TrailIsPath(m: seq<byte>, s: seq<byte>, c: Config, cs: seq<Config>) returns (choices: seq<nat>)
    requires c.str <= |s| && Full(m, s, c, cs) && Accepting(m, cs[|cs| - 1])
    ensures Path(m, s, c, choices, cs[|cs| - 1].str)
    decreases |cs|
  {
    StepMoves(m, s, c);
    if |cs| == 1 {
      choices := [];
    } else {
      var st, d, rest := StepAt(m, s, c), cs[1], cs[1..];
      assert d.str <= |s|;
      assert !IllFormed(m, c.pc) && !Accepting(m, c);
      hide StepAt, Moves, IllFormed;
      assert rest[|rest| - 1] == cs[|cs| - 1];
      assert st.Tries? && d in st.to;
      var i: nat :| i < |st.to| && st.to[i] == d;
      var more := TrailIsPath(m, s, d, rest);
      choices := [i] + more;
      assert choices[1..] == more;
    }
  }

  // ------------------------------------------------------------------ some programs

  /** A star over 'a', then an 'a': the star gives one character back, and needs one. */
  method StarGivesBack() returns (two: Outcome, none: Outcome)
    ensures two == Ended(2) && none == Failed
  {
    var m: seq<byte> := [9, 0, 6, 1, 97, 5, 1, 97];
    StarRuns(m);
    hide Search;
    var x := new Machine(m, [97, 97]);
    two := x.RunMatch(0, 0, 10);
    var y := new Machine(m, []);
    none := y.RunMatch(0, 0, 10);
  }

  lemma StarRuns(m: seq<byte>)
    requires m == [9, 0, 6, 1, 97, 5, 1, 97]
    ensures Search(m, [97, 97], Config(0, 0), 10) == Found(2, [])
    ensures Search(m, [], Config(0, 0), 10) == NoMatch
  {
    var s: seq<byte> := [97, 97];
    assert MaxRange(m, s, 6, 2) == 2 && MaxRange(m, s, 6, 1) == 2 && MaxRange(m, s, 6, 0) == 2;
    DownAt(3, 2, 0);
    var to := Down(3, 2, 0);
    assert to == [Config(3, 2), Config(3, 1), Config(3, 0)];
    assert StepAt(m, s, Config(0, 0)) == Tries(to, None);
    assert SearchAll(m, s, [], 8) == NoMatch;
    assert Search(m, s, to[0], 9) == NoMatch;
    OneConfig(m, s, Config(5, 2), 8);
    assert Search(m, s, Config(5, 2), 8) == Found(2, []);
    assert Search(m, s, to[1], 9) == Found(2, []);
    assert SearchAll(m, s, to[1..], 9) == Found(2, []);
    NothingToStar(m);
  }

  lemma NothingToStar(m: seq<byte>)
    requires m == [9, 0, 6, 1, 97, 5, 1, 97]
    ensures Search(m, [], Config(0, 0), 10) == NoMatch
  {
    DownAt(3, 0, 0);
    assert Down(3, 0, 0) == [Config(3, 0)];
    assert MaxRange(m, [], 6, 0) == 0;
    assert StepAt(m, [], Config(0, 0)) == Tries([Config(3, 0)], None);
    OneConfig(m, [], Config(3, 0), 9);
    assert SearchAll(m, [], [], 8) == NoMatch;
  }

  /** The places before and after one character go into two registers. */
  method SavesTwoPlaces() returns (r: Outcome, a: nat, b: nat)
    ensures r == Ended(2) && a == 1 && b == 2
  {
    var m: seq<byte> := [7, 0, 2, 7, 1, 5];
    SavesRun(m);
    EarliestSave(map[], [Save(0, 1), Save(1, 2)], 0);
    EarliestSave(map[], [Save(0, 1), Save(1, 2)], 1);
    hide Search, Recorded;
    var x := new Machine(m, [97, 98]);
    r := x.RunMatch(1, 0, 10);
    a, b := x.saveArray[0], x.saveArray[1];
  }

  lemma SavesRun(m: seq<byte>)
    requires m == [7, 0, 2, 7, 1, 5]
    ensures Search(m, [97, 98], Config(0, 1), 10) == Found(2, [Save(0, 1), Save(1, 2)])
  {
    var s: seq<byte> := [97, 98];
    OneConfig(m, s, Config(5, 2), 7);
    OneConfig(m, s, Config(3, 2), 8);
    OneConfig(m, s, Config(2, 1), 9);
    assert Search(m, s, Config(5, 2), 7) == Found(2, []);
    assert Search(m, s, Config(3, 2), 8) == Found(2, [Save(1, 2)]);
    assert Search(m, s, Config(2, 1), 9) == Found(2, [Save(1, 2)]);
  }

  /** An opcode the machine does not know, and a jump to itself. */
  method BrokenAndEndless(fuel: nat) returns (broken: Outcome, endless: Outcome)
    requires fuel > 0
    ensures broken == Broken && endless == Exhausted
  {
    JumpRuns([14, 0, 0], fuel);
    var x := new Machine([0], [97]);
    broken := x.RunMatch(0, 0, fuel);
    var y := new Machine([14, 0, 0], [97]);
    endless := y.RunMatch(0, 0, fuel);
  }

  lemma {:induction false} JumpRuns(m: seq<byte>, fuel: nat)
    requires m == [14, 0, 0]
    ensures Search(m, [97], Config(0, 0), fuel) == OutOfFuel
  {
    if fuel > 0 {
      JumpRuns(m, fuel - 1);
      assert StepAt(m, [97], Config(0, 0)) == Tries([Config(0, 0)], None);
      OneConfig(m, [97], Config(0, 0), fuel - 1);
    }
  }
}
