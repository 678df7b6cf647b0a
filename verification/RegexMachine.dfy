/** The backtracking regex machine (modules/regex/runmatch.c), without the counter opcodes and
    with no end-of-string hook, so that running out of input fails. */
module RegexMachines {
  import opened Options

  type byte = x: int | 0 <= x < 256

  const MATCH1: byte := 1
  const MATCH_ANY: byte := 2
  const MATCH_SET: byte := 3
  const MATCHN: byte := 4
  const ACCEPT: byte := 5
  const BRANCH: byte := 6
  const SAVE_PLACE: byte := 7
  const MATCH_STAR: byte := 9
  const MATCH_PLUS: byte := 10
  const STR_END: byte := 11
  const STR_START: byte := 12
  const REJECT: byte := 13
  const JUMP: byte := 14

  /** Where the machine is: the next opcode and the position in the string. */
  datatype Config = Config(pc: nat, str: nat)

  /** What an opcode does: the configurations it tries, in order, and the register it saves. */
  datatype Step =
    | Accepts
    | Bad                                       // an internal error, or code that runs off its end
    | Tries(to: seq<Config>, save: Option<byte>)

  datatype Save = Save(reg: byte, at: nat)

  datatype Result =
    | Found(end: nat, saves: seq<Save>)         // the saves of the path, outermost first
    | NoMatch
    | Error
    | OutOfFuel

  function BitMask(k: nat): nat
    requires k < 8
  {
    [128, 64, 32, 16, 8, 4, 2, 1][k]
  }

  /** The test of a 32-byte character set. */
  predicate InSet(m: seq<byte>, at: nat, ch: byte)
    requires at + 32 <= |m|
  {
    m[at + ch / 8] / BitMask(ch % 8) % 2 == 1
  }

  predicate WordAt(m: seq<byte>, at: nat) { at + 2 <= |m| }

  function Target(m: seq<byte>, at: nat): nat
    requires WordAt(m, at)
  {
    (m[at] as nat) * 256 + m[at + 1] as nat
  }

  /** The opcodes a star can repeat, with their operands. */
  predicate Repeatable(m: seq<byte>, sub: nat) {
    sub < |m| && (m[sub] == MATCH_ANY || (m[sub] == MATCH1 && sub + 1 < |m|) || (m[sub] == MATCH_SET && sub + 33 <= |m|))
  }

  /** One character accepted by a repeatable opcode. */
  predicate Takes(m: seq<byte>, sub: nat, ch: byte)
    requires Repeatable(m, sub)
  {
    if m[sub] == MATCH_ANY then true else if m[sub] == MATCH1 then ch == m[sub + 1] else InSet(m, sub + 1, ch)
  }

  /** r is as far as the repeated opcode can get from str. */
  predicate IsMaxRange(m: seq<byte>, s: seq<byte>, sub: nat, str: nat, r: nat)
    requires Repeatable(m, sub)
  {
    && str <= r <= |s|
    && (forall i | str <= i < r :: Takes(m, sub, s[i]))
    && (r < |s| ==> !Takes(m, sub, s[r]))
  }

  function MaxRange(m: seq<byte>, s: seq<byte>, sub: nat, str: nat): (r: nat)
    requires Repeatable(m, sub) && str <= |s|
    ensures IsMaxRange(m, s, sub, str, r)
    decreases |s| - str
  {
    if str < |s| && Takes(m, sub, s[str]) then MaxRange(m, s, sub, str + 1) else str
  }

  lemma MaxRangeUnique(m: seq<byte>, s: seq<byte>, sub: nat, str: nat, r: nat, q: nat)
    requires Repeatable(m, sub) && IsMaxRange(m, s, sub, str, r) && IsMaxRange(m, s, sub, str, q)
    ensures r == q
  {
  }

  /** Longest first. */
  function Down(pc: nat, range: int, min: nat): seq<Config>
    decreases range
  {
    if range < min then [] else [Config(pc, range)] + Down(pc, range - 1, min)
  }

  function Go(pc: nat, str: nat): Step { Tries([Config(pc, str)], None) }

  const FAIL: Step := Tries([], None)

  /** What the opcode at a configuration does. */
  function StepAt(m: seq<byte>, s: seq<byte>, c: Config): Step
    requires c.str <= |s|
  {
    var pc, str := c.pc, c.str;
    if pc >= |m| then Bad
    else if m[pc] == MATCH1 then
      if pc + 1 >= |m| then Bad else if str < |s| && s[str] == m[pc + 1] then Go(pc + 2, str + 1) else FAIL
    else if m[pc] == MATCH_ANY then
      if str == |s| then FAIL else Go(pc + 1, str + 1)
    else if m[pc] == STR_END then
      if str != |s| then FAIL else Go(pc + 1, str)
    else if m[pc] == STR_START then
      if str != 0 then FAIL else Go(pc + 1, str)
    else if m[pc] == MATCH_SET then
      if pc + 33 > |m| then Bad else if str < |s| && InSet(m, pc + 1, s[str]) then Go(pc + 33, str + 1) else FAIL
    else if m[pc] == MATCHN then
      if pc + 1 >= |m| || pc + 2 + m[pc + 1] > |m| then Bad
      else if str + m[pc + 1] <= |s| && s[str..str + m[pc + 1]] == m[pc + 2..pc + 2 + m[pc + 1]] then
        Go(pc + 2 + m[pc + 1], str + m[pc + 1])
      else FAIL
    else if m[pc] == ACCEPT then Accepts
    else if m[pc] == BRANCH then
      if !WordAt(m, pc + 1) then Bad else Tries([Config(Target(m, pc + 1), str), Config(pc + 3, str)], None)
    else if m[pc] == SAVE_PLACE then
      if pc + 1 >= |m| then Bad else Tries([Config(pc + 2, str)], Some(m[pc + 1]))
    else if m[pc] == MATCH_STAR || m[pc] == MATCH_PLUS then
      if !WordAt(m, pc + 1) || !Repeatable(m, Target(m, pc + 1)) then Bad
      else Tries(Down(pc + 3, MaxRange(m, s, Target(m, pc + 1), str), if m[pc] == MATCH_PLUS then str + 1 else str), None)
    else if m[pc] == REJECT then FAIL
    else if m[pc] == JUMP then
      if !WordAt(m, pc + 1) then Bad else Go(Target(m, pc + 1), str)
    else Bad
  }

  lemma {:induction false} DownIs(pc: nat, range: int, min: nat)
    ensures forall c | c in Down(pc, range, min) :: c.pc == pc && min <= c.str <= range
    decreases range
  {
    if range >= min { DownIs(pc, range - 1, min); }
  }

  /** The position stays inside the string. */
  lemma StepInside(m: seq<byte>, s: seq<byte>, c: Config)
    requires c.str <= |s|
    ensures StepAt(m, s, c).Tries? ==> forall d | d in StepAt(m, s, c).to :: d.str <= |s|
  {
    if c.pc < |m| && (m[c.pc] == MATCH_STAR || m[c.pc] == MATCH_PLUS) && WordAt(m, c.pc + 1) && Repeatable(m, Target(m, c.pc + 1)) {
      DownIs(c.pc + 3, MaxRange(m, s, Target(m, c.pc + 1), c.str), if m[c.pc] == MATCH_PLUS then c.str + 1 else c.str);
    }
  }

  function WithSave(save: Option<byte>, str: nat, r: Result): Result {
    if save.Some? && r.Found? then Found(r.end, [Save(save.value, str)] + r.saves) else r
  }

  ghost predicate Inside(s: seq<byte>, cs: seq<Config>) { forall d | d in cs :: d.str <= |s| }

  /** The search: the first configuration that leads to acceptance. */
  function Search(m: seq<byte>, s: seq<byte>, c: Config, fuel: nat): Result
    requires c.str <= |s|
    decreases fuel, 0
  {
    if fuel == 0 then OutOfFuel
    else
      StepInside(m, s, c);
      match StepAt(m, s, c)
      case Accepts => Found(c.str, [])
      case Bad => Error
      case Tries(to, save) => WithSave(save, c.str, SearchAll(m, s, to, fuel - 1))
  }

  function SearchAll(m: seq<byte>, s: seq<byte>, cs: seq<Config>, fuel: nat): Result
    requires Inside(s, cs)
    decreases fuel, |cs|
  {
    if cs == [] then NoMatch
    else
      var r := Search(m, s, cs[0], fuel);
      if r.NoMatch? then SearchAll(m, s, cs[1..], fuel) else r
  }

  // ------------------------------------------------------------------ accepting paths

  /** The choices lead from c to acceptance at end. */
  ghost predicate Path(m: seq<byte>, s: seq<byte>, c: Config, choices: seq<nat>, end: nat)
    decreases |choices|
  {
    c.str <= |s| &&
    var st := StepAt(m, s, c);
    if choices == [] then st.Accepts? && end == c.str
    else st.Tries? && choices[0] < |st.to| && Path(m, s, st.to[choices[0]], choices[1..], end)
  }

  /** The saves made along a path, in order. */
  ghost function SavesOf(m: seq<byte>, s: seq<byte>, c: Config, choices: seq<nat>): seq<Save>
    decreases |choices|
  {
    if c.str > |s| || choices == [] then []
    else
      var st := StepAt(m, s, c);
      if st.Tries? && choices[0] < |st.to| then
        (if st.save.Some? then [Save(st.save.value, c.str)] else []) + SavesOf(m, s, st.to[choices[0]], choices[1..])
      else []
  }

  /** Branch order: at the first difference, the earlier choice. */
  ghost predicate Before(a: seq<nat>, b: seq<nat>) {
    exists k: nat :: k < |a| && k < |b| && a[..k] == b[..k] && a[k] < b[k]
  }

  ghost predicate IsFirst(m: seq<byte>, s: seq<byte>, c: Config, choices: seq<nat>, end: nat) {
    && Path(m, s, c, choices, end)
    && forall ch, e | Path(m, s, c, ch, e) :: ch == choices || Before(choices, ch)
  }

  /** A search that comes to an end finds a match exactly if there is an accepting path, and then
      the first path in branch order, longest repetition first, with that path's saves. */
  lemma {:induction false} SearchIsFirstPath(m: seq<byte>, s: seq<byte>, c: Config, fuel: nat)
    requires c.str <= |s|
    ensures Search(m, s, c, fuel).NoMatch? ==> forall ch, e :: !Path(m, s, c, ch, e)
    ensures Search(m, s, c, fuel).Found? ==> exists ch :: FirstFound(m, s, c, ch, Search(m, s, c, fuel))
    decreases fuel, 0
  {
    if fuel > 0 {
      StepInside(m, s, c);
      var st := StepAt(m, s, c);
      if st.Accepts? {
        assert FirstFound(m, s, c, [], Search(m, s, c, fuel));
      } else if st.Tries? {
        AllFirst(m, s, st.to, fuel - 1);
        TriesFirst(m, s, c, st.to, st.save, SearchAll(m, s, st.to, fuel - 1));
      }
    }
  }

  ghost predicate FirstFound(m: seq<byte>, s: seq<byte>, c: Config, ch: seq<nat>, r: Result) {
    r.Found? && IsFirst(m, s, c, ch, r.end) && r.saves == SavesOf(m, s, c, ch)
  }

  /** The first of several configurations that has a path. */
  ghost predicate FirstOf(m: seq<byte>, s: seq<byte>, cs: seq<Config>, i: nat, ch: seq<nat>, r: Result) {
    && i < |cs| && FirstFound(m, s, cs[i], ch, r)
    && forall k: nat, h, e | k < i :: !Path(m, s, cs[k], h, e)
  }

  lemma {:induction false} AllFirst(m: seq<byte>, s: seq<byte>, cs: seq<Config>, fuel: nat)
    requires Inside(s, cs)
    ensures SearchAll(m, s, cs, fuel).NoMatch? ==> forall k: nat, h, e | k < |cs| :: !Path(m, s, cs[k], h, e)
    ensures SearchAll(m, s, cs, fuel).Found? ==> exists i: nat, ch :: FirstOf(m, s, cs, i, ch, SearchAll(m, s, cs, fuel))
    decreases fuel, |cs|
  {
    hide Path, IsFirst, FirstFound;
    if cs != [] {
      SearchIsFirstPath(m, s, cs[0], fuel);
      var r := Search(m, s, cs[0], fuel);
      if r.Found? {
        var ch :| FirstFound(m, s, cs[0], ch, r);
        assert FirstOf(m, s, cs, 0, ch, r);
      } else if r.NoMatch? {
        var rest := cs[1..];
        AllFirst(m, s, rest, fuel);
        var q := SearchAll(m, s, rest, fuel);
        assert forall k: nat | 0 < k < |cs| :: cs[k] == rest[k - 1];
        if q.Found? {
          var i: nat, ch :| FirstOf(m, s, rest, i, ch, q);
          forall k: nat, h, e | k < i + 1 ensures !Path(m, s, cs[k], h, e) {
            if k > 0 { assert !Path(m, s, rest[k - 1], h, e); }
          }
          assert FirstOf(m, s, cs, i + 1, ch, q);
        }
      }
    }
  }

  lemma TriesFirst(m: seq<byte>, s: seq<byte>, c: Config, to: seq<Config>, save: Option<byte>, q: Result)
    requires c.str <= |s| && StepAt(m, s, c) == Tries(to, save)
    requires q.NoMatch? ==> forall k: nat, h, e | k < |to| :: !Path(m, s, to[k], h, e)
    requires q.Found? ==> exists i: nat, ch :: FirstOf(m, s, to, i, ch, q)
    ensures q.NoMatch? ==> forall ch, e :: !Path(m, s, c, ch, e)
    ensures q.Found? ==> exists ch :: FirstFound(m, s, c, ch, WithSave(save, c.str, q))
  {
    if q.NoMatch? {
      forall ch, e ensures !Path(m, s, c, ch, e) {
        if ch != [] && ch[0] < |to| { assert !Path(m, s, to[ch[0]], ch[1..], e); }
      }
    }
    if q.Found? {
      var i: nat, ch :| FirstOf(m, s, to, i, ch, q);
      var all := [i] + ch;
      assert all[1..] == ch;
      forall h, e | Path(m, s, c, h, e) ensures h == all || Before(all, h) {
        OnePath(m, s, c, to, save, i, ch, q, h, e);
      }
      assert FirstFound(m, s, c, all, WithSave(save, c.str, q));
    }
  }

  lemma OnePath(m: seq<byte>, s: seq<byte>, c: Config, to: seq<Config>, save: Option<byte>, i: nat, ch: seq<nat>, q: Result,
                h: seq<nat>, e: nat)
    requires c.str <= |s| && StepAt(m, s, c) == Tries(to, save) && FirstOf(m, s, to, i, ch, q) && Path(m, s, c, h, e)
    ensures h == [i] + ch || Before([i] + ch, h)
  {
    assert h != [] && h[0] < |to| && Path(m, s, to[h[0]], h[1..], e);
    hide StepAt;
    if h[0] > i {
      assert ([i] + ch)[..0] == h[..0] && ([i] + ch)[0] < h[0];
    } else {
      assert h[0] == i;
      if h[1..] == ch {
        assert h == [i] + ch;
      } else {
        Longer(i, ch, h[1..]);
        assert h == [i] + h[1..];
      }
    }
  }

  lemma Longer(i: nat, a: seq<nat>, b: seq<nat>)
    requires Before(a, b)
    ensures Before([i] + a, [i] + b)
  {
    var k: nat :| k < |a| && k < |b| && a[..k] == b[..k] && a[k] < b[k];
    var x, y := [i] + a, [i] + b;
    assert x[..k + 1] == [i] + a[..k] && y[..k + 1] == [i] + b[..k];
    assert x[k + 1] < y[k + 1];
  }

  /** More fuel does not change the outcome of a search that ended. */
  lemma {:induction false} MoreFuel(m: seq<byte>, s: seq<byte>, c: Config, fuel: nat, more: nat)
    requires c.str <= |s| && fuel <= more && !Search(m, s, c, fuel).OutOfFuel?
    ensures Search(m, s, c, more) == Search(m, s, c, fuel)
    decreases fuel, 0
  {
    StepInside(m, s, c);
    var st := StepAt(m, s, c);
    if st.Tries? {
      AllMoreFuel(m, s, st.to, fuel - 1, more - 1);
    }
  }

  lemma {:induction false} AllMoreFuel(m: seq<byte>, s: seq<byte>, cs: seq<Config>, fuel: nat, more: nat)
    requires Inside(s, cs) && fuel <= more && !SearchAll(m, s, cs, fuel).OutOfFuel?
    ensures SearchAll(m, s, cs, more) == SearchAll(m, s, cs, fuel)
    decreases fuel, |cs|
  {
    if cs != [] {
      MoreFuel(m, s, cs[0], fuel, more);
      if Search(m, s, cs[0], fuel).NoMatch? {
        AllMoreFuel(m, s, cs[1..], fuel, more);
      }
    }
  }

  // ------------------------------------------------------------------ the machine itself

  datatype Outcome = Ended(at: nat) | Failed | Broken | Exhausted

  function Shown(r: Result): Outcome {
    match r
    case Found(end, _) => Ended(end)
    case NoMatch => Failed
    case Error => Broken
    case OutOfFuel => Exhausted
  }

  /** save_array once the calls of a match have returned, the innermost first. */
  function Recorded(arr: map<byte, nat>, saves: seq<Save>): map<byte, nat> {
    if saves == [] then arr else Recorded(arr, saves[1..])[saves[0].reg := saves[0].at]
  }

  ghost predicate Earliest(saves: seq<Save>, i: nat) {
    i < |saves| && forall k: nat | k < i :: saves[k].reg != saves[i].reg
  }

  ghost predicate Saves(saves: seq<Save>, reg: byte) {
    exists k: nat :: k < |saves| && saves[k].reg == reg
  }

  /** Each register holds its earliest save on the path; registers without one are untouched. */
  lemma {:induction false} EarliestSave(arr: map<byte, nat>, saves: seq<Save>, i: nat)
    requires Earliest(saves, i)
    ensures saves[i].reg in Recorded(arr, saves) && Recorded(arr, saves)[saves[i].reg] == saves[i].at
  {
    if i > 0 {
      var rest := saves[1..];
      assert forall k: nat | k < |rest| :: rest[k] == saves[k + 1];
      EarliestSave(arr, rest, i - 1);
      assert saves[0].reg != saves[i].reg;
    }
  }

  lemma {:induction false} UnsavedRegister(arr: map<byte, nat>, saves: seq<Save>, reg: byte)
    requires !Saves(saves, reg)
    ensures (reg in Recorded(arr, saves) <==> reg in arr) && (reg in arr ==> Recorded(arr, saves)[reg] == arr[reg])
  {
    if saves != [] {
      var rest := saves[1..];
      assert forall k: nat | k < |rest| :: rest[k] == saves[k + 1];
      UnsavedRegister(arr, rest, reg);
      assert saves[0].reg != reg;
    }
  }

  lemma OneConfig(m: seq<byte>, s: seq<byte>, c: Config, fuel: nat)
    requires c.str <= |s|
    ensures SearchAll(m, s, [c], fuel) == Search(m, s, c, fuel)
  {
    assert SearchAll(m, s, [c][1..], fuel) == NoMatch;
  }

  lemma TwoConfigs(m: seq<byte>, s: seq<byte>, c: Config, d: Config, fuel: nat)
    requires c.str <= |s| && d.str <= |s|
    ensures SearchAll(m, s, [c, d], fuel) ==
      if Search(m, s, c, fuel).NoMatch? then Search(m, s, d, fuel) else Search(m, s, c, fuel)
  {
    OneConfig(m, s, d, fuel);
    assert [c, d][1..] == [d];
  }

  /** The loops of max_range. */
  method FindMaxRange(m: seq<byte>, s: seq<byte>, sub: nat, str: nat) returns (r: nat)
    requires Repeatable(m, sub) && str <= |s|
    ensures r == MaxRange(m, s, sub, str) && r <= |s|
  {
    r := str;
    if m[sub] == MATCH_ANY {
      MaxRangeUnique(m, s, sub, str, |s|, MaxRange(m, s, sub, str));
      return |s|;
    }
    while r < |s|
      invariant str <= r <= |s| && forall i | str <= i < r :: Takes(m, sub, s[i])
    {
      if if m[sub] == MATCH1 then s[r] != m[sub + 1] else !InSet(m, sub + 1, s[r]) {
        MaxRangeUnique(m, s, sub, str, r, MaxRange(m, s, sub, str));
        return;
      }
      r := r + 1;
    }
    MaxRangeUnique(m, s, sub, str, r, MaxRange(m, s, sub, str));
  }

  /** The loop of MATCHN. */
  method MatchAll(m: seq<byte>, s: seq<byte>, pc: nat, str: nat, n: nat) returns (ok: bool)
    requires pc + n <= |m| && str <= |s|
    ensures ok <==> str + n <= |s| && s[str..str + n] == m[pc..pc + n]
  {
    for i := 0 to n
      invariant str + i <= |s| && s[str..str + i] == m[pc..pc + i]
    {
      if str + i >= |s| {
        return false;
      }
      if s[str + i] != m[pc + i] {
        assert str + n <= |s| ==> s[str..str + n][i] == s[str + i] && m[pc..pc + n][i] == m[pc + i];
        return false;
      }
      assert s[str..str + i + 1] == s[str..str + i] + [s[str + i]] && m[pc..pc + i + 1] == m[pc..pc + i] + [m[pc + i]];
    }
    ok := true;
  }

  class Machine {
    const m: seq<byte>
    /** from rxmach_start to rxmach_limit */
    const s: seq<byte>
    var saveArray: map<byte, nat>

    constructor (m_: seq<byte>, s_: seq<byte>)
      ensures m == m_ && s == s_ && saveArray == map[]
    {
      m, s, saveArray := m_, s_, map[];
    }

    /** run_match */
    method RunMatch(str0: nat, pc0: nat, fuel0: nat) returns (r: Outcome)
      requires str0 <= |s|
      modifies this`saveArray
      ensures r == Shown(Search(m, s, Config(pc0, str0), fuel0))
      ensures saveArray ==
        var q := Search(m, s, Config(pc0, str0), fuel0); if q.Found? then Recorded(old(saveArray), q.saves) else old(saveArray)
      decreases fuel0, 0
    {
      hide StepAt, Down, MaxRange, IsMaxRange, Takes, InSet, Recorded, Repeatable, WordAt, SearchAll, HasOperands;
      var str: nat, pc: nat, fuel: nat := str0, pc0, fuel0;
      while fuel > 0
        invariant str <= |s| && fuel <= fuel0 && saveArray == old(saveArray)
        invariant Search(m, s, Config(pc, str), fuel) == Search(m, s, Config(pc0, str0), fuel0)
        decreases fuel
      {
        ghost var c := Config(pc, str);
        StepInside(m, s, c);
        OpcodeAt(m, s, c);
        Nothing(m, s, fuel - 1, saveArray);
        if pc >= |m| {
          return Broken;
        } else if m[pc] == ACCEPT {
          return Ended(str);
        } else if m[pc] == BRANCH && WordAt(m, pc + 1) {
          var subr := Target(m, pc + 1);
          TwoConfigs(m, s, Config(subr, str), Config(pc + 3, str), fuel - 1);
          r := RunMatch(str, subr, fuel - 1);
          if r != Failed {
            return;
          }
          pc := pc + 3;
        } else if m[pc] == SAVE_PLACE && pc + 1 < |m| {
          var reg := m[pc + 1];
          OneConfig(m, s, Config(pc + 2, str), fuel - 1);
          r := RunMatch(str, pc + 2, fuel - 1);
          if r.Ended? {
            RecordMore(m, s, c, reg, fuel, saveArray, old(saveArray));
            saveArray := saveArray[reg := str];
          }
          return;
        } else if (m[pc] == MATCH_STAR || m[pc] == MATCH_PLUS) && WordAt(m, pc + 1) && Repeatable(m, Target(m, pc + 1)) {
          var min := if m[pc] == MATCH_PLUS then str + 1 else str;
          var range := FindMaxRange(m, s, Target(m, pc + 1), str);
          DownInside(s, pc + 3, range, min);
          r := TryDown(pc + 3, range, min, fuel - 1);
          return;
        } else {
          var to := Simple(pc, str);
          match to {
            case Some(d) =>
              OneConfig(m, s, d, fuel - 1);
              pc, str := d.pc, d.str;
            case None =>
              if HasOperands(m, pc) {
                return Failed;
              }
              return Broken;
          }
        }
        fuel := fuel - 1;
      }
      r := Exhausted;
    }

    /** The loop of match_kleene, longest repetition first. */
    method TryDown(pc: nat, range0: nat, min: nat, fuel: nat) returns (r: Outcome)
      requires range0 <= |s|
      requires Inside(s, Down(pc, range0, min))
      modifies this`saveArray
      ensures r == Shown(SearchAll(m, s, Down(pc, range0, min), fuel))
      ensures saveArray ==
        var q := SearchAll(m, s, Down(pc, range0, min), fuel); if q.Found? then Recorded(old(saveArray), q.saves) else old(saveArray)
      decreases fuel, 1
    {
      var range: int := range0;
      while range >= min
        invariant range <= range0 && saveArray == old(saveArray) && Inside(s, Down(pc, range, min))
        invariant SearchAll(m, s, Down(pc, range, min), fuel) == SearchAll(m, s, Down(pc, range0, min), fuel)
        decreases range
      {
        DownInside(s, pc, range - 1, min);
        assert Down(pc, range, min)[0] == Config(pc, range) && Down(pc, range, min)[1..] == Down(pc, range - 1, min);
        r := RunMatch(range, pc, fuel);
        if r != Failed {
          return;
        }
        range := range - 1;
      }
      r := Failed;
    }

    /** The opcodes that look at the string or jump: where they go on, if they do. */
    method Simple(pc: nat, str: nat) returns (to: Option<Config>)
      requires pc < |m| && str <= |s| && IsSimple(m, pc)
      ensures to.Some? ==> StepAt(m, s, Config(pc, str)) == Tries([to.value], None) && to.value.str <= |s|
      ensures to.None? ==> StepAt(m, s, Config(pc, str)) == if HasOperands(m, pc) then FAIL else Bad
    {
      to := None;
      if !HasOperands(m, pc) {
        return;
      }
      if m[pc] == MATCH1 {
        if str < |s| && s[str] == m[pc + 1] { to := Some(Config(pc + 2, str + 1)); }
      } else if m[pc] == MATCH_ANY {
        if str != |s| { to := Some(Config(pc + 1, str + 1)); }
      } else if m[pc] == STR_END {
        if str == |s| { to := Some(Config(pc + 1, str)); }
      } else if m[pc] == STR_START {
        if str == 0 { to := Some(Config(pc + 1, str)); }
      } else if m[pc] == MATCH_SET {
        if str != |s| && InSet(m, pc + 1, s[str]) { to := Some(Config(pc + 33, str + 1)); }
      } else if m[pc] == MATCHN {
        var n: nat := m[pc + 1] as nat;
        var ok := MatchAll(m, s, pc + 2, str, n);
        if ok { to := Some(Config(pc + 2 + n, str + n)); }
      } else if m[pc] == JUMP {
        to := Some(Config(Target(m, pc + 1), str));
      }
    }
  }

  /** The opcode is one this model knows, and its operands are in the program. */
  predicate HasOperands(m: seq<byte>, pc: nat)
    requires pc < |m|
  {
    if m[pc] == MATCH1 then pc + 1 < |m|
    else if m[pc] == MATCH_SET then pc + 33 <= |m|
    else if m[pc] == MATCHN then pc + 1 < |m| && pc + 2 + m[pc + 1] as nat <= |m|
    else if m[pc] == JUMP then WordAt(m, pc + 1)
    else m[pc] == MATCH_ANY || m[pc] == STR_END || m[pc] == STR_START || m[pc] == REJECT
  }

  predicate IsSimple(m: seq<byte>, pc: nat)
    requires pc < |m|
  {
    && m[pc] != ACCEPT && !(m[pc] == BRANCH && WordAt(m, pc + 1)) && !(m[pc] == SAVE_PLACE && pc + 1 < |m|)
    && !((m[pc] == MATCH_STAR || m[pc] == MATCH_PLUS) && WordAt(m, pc + 1) && Repeatable(m, Target(m, pc + 1)))
  }

  /** The steps of the opcodes that try something else. */
  lemma OpcodeAt(m: seq<byte>, s: seq<byte>, c: Config)
    requires c.str <= |s|
    ensures c.pc >= |m| ==> StepAt(m, s, c) == Bad
    ensures c.pc < |m| ==>
      && (m[c.pc] == ACCEPT ==> StepAt(m, s, c) == Accepts)
      && (m[c.pc] == BRANCH && WordAt(m, c.pc + 1) ==>
            StepAt(m, s, c) == Tries([Config(Target(m, c.pc + 1), c.str), Config(c.pc + 3, c.str)], None))
      && (m[c.pc] == SAVE_PLACE && c.pc + 1 < |m| ==> StepAt(m, s, c) == Tries([Config(c.pc + 2, c.str)], Some(m[c.pc + 1])))
      && ((m[c.pc] == MATCH_STAR || m[c.pc] == MATCH_PLUS) && WordAt(m, c.pc + 1) && Repeatable(m, Target(m, c.pc + 1)) ==>
            StepAt(m, s, c) == Tries(Down(c.pc + 3, MaxRange(m, s, Target(m, c.pc + 1), c.str),
                                          if m[c.pc] == MATCH_PLUS then c.str + 1 else c.str), None))
  {
  }

  lemma Nothing(m: seq<byte>, s: seq<byte>, fuel: nat, arr: map<byte, nat>)
    ensures SearchAll(m, s, [], fuel) == NoMatch && Recorded(arr, []) == arr
  {
  }

  lemma DownInside(s: seq<byte>, pc: nat, range: int, min: nat)
    requires range <= |s|
    ensures Inside(s, Down(pc, range, min))
  {
    DownIs(pc, range, min);
  }

  lemma RecordMore(m: seq<byte>, s: seq<byte>, c: Config, reg: byte, fuel: nat, arr: map<byte, nat>, arr0: map<byte, nat>)
    requires c.str <= |s| && fuel > 0 && StepAt(m, s, c) == Tries([Config(c.pc + 2, c.str)], Some(reg))
    requires Search(m, s, Config(c.pc + 2, c.str), fuel - 1).Found?
    requires arr == Recorded(arr0, Search(m, s, Config(c.pc + 2, c.str), fuel - 1).saves)
    ensures Search(m, s, c, fuel).Found? && Recorded(arr0, Search(m, s, c, fuel).saves) == arr[reg := c.str]
  {
    OneConfig(m, s, Config(c.pc + 2, c.str), fuel - 1);
    var q := Search(m, s, Config(c.pc + 2, c.str), fuel - 1);
    assert ([Save(reg, c.str)] + q.saves)[1..] == q.saves;
  }
}
