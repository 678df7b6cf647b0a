/** 64-bit integers on four 16-bit digits (handc/runtime/longint.c). */
module LongInts {

  const BASE: nat := 0x1_0000
  const WORD: nat := 0x1_0000_0000
  const TWO63: nat := 0x8000_0000_0000_0000
  const TWO64: nat := 0x1_0000_0000_0000_0000

  ghost predicate IsInt64(d: seq<nat>) {
    |d| == 4 && forall i | 0 <= i < 4 :: d[i] < BASE
  }

  /** The digits of an INT_64, the most significant first. */
  type Int64 = d: seq<nat> | IsInt64(d) witness [0, 0, 0, 0]

  const ZERO: Int64 := [0, 0, 0, 0]
  const ONE: Int64 := [0, 0, 0, 1]

  function Power(k: nat): (p: nat)
    ensures p > 0
  {
    if k == 0 then 1 else BASE * Power(k - 1)
  }

  /** The value of the digits from i on. */
  function Low(d: seq<nat>, i: nat): nat
    decreases 4 - i
  {
    if i >= 4 || i >= |d| then 0 else d[i] * Power(3 - i) + Low(d, i + 1)
  }

  function Unsigned(d: Int64): nat { Low(d, 0) }

  function Signed(d: Int64): int {
    if d[0] >= 0x8000 then Unsigned(d) - TWO64 else Unsigned(d)
  }

  lemma Powers()
    ensures Power(0) == 1 && Power(1) == BASE && Power(2) == WORD && Power(3) == 0x1_0000_0000_0000 && Power(4) == TWO64
  {
    assert Power(0) == 1 && Power(1) == BASE * Power(0) && Power(2) == BASE * Power(1);
    assert Power(3) == BASE * Power(2) && Power(4) == BASE * Power(3);
  }

  lemma UnsignedIs(d: Int64)
    ensures Unsigned(d) == d[0] * 0x1_0000_0000_0000 + d[1] * WORD + d[2] * BASE + d[3] < TWO64
    ensures d[0] >= 0x8000 <==> Unsigned(d) >= TWO63
  {
    Powers();
    assert Low(d, 3) == d[3] * Power(0) + Low(d, 4);
    assert Low(d, 2) == d[2] * Power(1) + Low(d, 3);
    assert Low(d, 1) == d[1] * Power(2) + Low(d, 2);
    assert Low(d, 0) == d[0] * Power(3) + Low(d, 1);
  }

  lemma LowAt(d: seq<nat>, i: nat)
    requires |d| == 4 && i < 4
    ensures Low(d, i) == d[i] * Power(3 - i) + Low(d, i + 1)
  {
  }

  /** Digits below i do not depend on what is written above. */
  lemma {:induction false} LowSame(d: seq<nat>, e: seq<nat>, i: nat)
    requires |d| == |e| == 4 && i <= 4 && forall k | i <= k < 4 :: d[k] == e[k]
    ensures Low(d, i) == Low(e, i)
    decreases 4 - i
  {
    if i < 4 { LowSame(d, e, i + 1); }
  }

  lemma Carry(t: nat, p: nat)
    ensures t * p == t % BASE * p + t / BASE * (BASE * p)
  {
    assert t == t % BASE + t / BASE * BASE;
    assert t * p == t % BASE * p + (t / BASE * BASE) * p;
    assert (t / BASE * BASE) * p == t / BASE * (BASE * p);
  }

  /** x at digit place k. */
  function Up(x: nat, k: nat): nat { x * Power(k) }

  lemma UpZero(x: nat)
    ensures Up(x, 0) == x && Up(0, 0) == 0
  {
  }

  lemma LowUp(d: seq<nat>, i: nat)
    requires |d| == 4 && i < 4
    ensures Low(d, i) == Up(d[i], 3 - i) + Low(d, i + 1)
  {
  }

  /** int_64_add */
  method Add(a: Int64, b: Int64) returns (r: Int64)
    ensures Unsigned(r) == (Unsigned(a) + Unsigned(b)) % TWO64
  {
    var c: nat := 0;
    r := ZERO;
    var i: nat := 4;
    NothingLow(a, b, r);
    UpZero(0);
    hide Low, Power, Up;
    while i > 0
      invariant i <= 4 && c <= 1
      invariant Low(r, i) + Up(c, 4 - i) == Low(a, i) + Low(b, i)
    {
      i := i - 1;
      var t := a[i] + b[i] + c;
      ghost var r0 := r;
      r := r[i := t % BASE];
      LowSame(r, r0, i + 1);
      LowUp(r, i);
      LowUp(a, i);
      LowUp(b, i);
      AddDigit(a[i], b[i], c, 3 - i);
      c := t / BASE;
    }
    UpFour(c);
    UnsignedIs(r);
    Wrapped(Unsigned(r), c, Unsigned(a) + Unsigned(b));
  }

  lemma NothingLow(a: Int64, b: Int64, r: Int64)
    ensures Low(a, 4) == Low(b, 4) == Low(r, 4) == 0
  {
  }

  lemma AddDigit(x: nat, y: nat, c: nat, k: nat)
    requires x < BASE && y < BASE && c <= 1
    ensures Up(x, k) + Up(y, k) + Up(c, k) == Up((x + y + c) % BASE, k) + Up((x + y + c) / BASE, k + 1)
    ensures (x + y + c) / BASE <= 1
  {
    Carry(x + y + c, Power(k));
    Distribute(x, y, c, Power(k));
  }

  lemma UpFour(c: nat)
    ensures Up(c, 4) == c * TWO64
  {
    Powers();
  }

  lemma Wrapped(r: nat, c: nat, v: nat)
    requires r < TWO64 && r + c * TWO64 == v
    ensures r == v % TWO64
  {
  }

  /** int_64_neg */
  method Neg(a: Int64) returns (r: Int64)
    ensures Unsigned(r) == (TWO64 - Unsigned(a)) % TWO64
  {
    var n := [0xFFFF - a[0], 0xFFFF - a[1], 0xFFFF - a[2], 0xFFFF - a[3]];
    UnsignedIs(a);
    UnsignedIs(n);
    UnsignedIs(ONE);
    r := Add(n, ONE);
  }

  /** int_64_sub */
  method Sub(a: Int64, b: Int64) returns (r: Int64)
    ensures Unsigned(r) == (Unsigned(a) - Unsigned(b)) % TWO64
  {
    var n := Neg(b);
    r := Add(a, n);
    UnsignedIs(a);
    UnsignedIs(b);
    SubMod(Unsigned(a), Unsigned(b));
    hide Low;
  }

  lemma SubMod(x: nat, y: nat)
    requires x < TWO64 && y < TWO64
    ensures (x + (TWO64 - y) % TWO64) % TWO64 == (x - y) % TWO64
  {
    if y > 0 {
      assert (TWO64 - y) % TWO64 == TWO64 - y;
      if x >= y {
        assert x + (TWO64 - y) == (x - y) + TWO64;
      }
    }
  }

  predicate NegQ(a: Int64) { a[0] >= 0x8000 }

  predicate ZeroQ(a: Int64) { !(a[0] != 0 || a[1] != 0 || a[2] != 0 || a[3] != 0) }

  lemma ZeroIs(a: Int64)
    ensures ZeroQ(a) <==> Unsigned(a) == 0
  {
    UnsignedIs(a);
  }

  /** int_64_cmp compares unsigned values. */
  function Cmp(a: Int64, b: Int64): (c: int)
    ensures c == if Unsigned(a) < Unsigned(b) then -1 else if Unsigned(a) > Unsigned(b) then 1 else 0
  {
    UnsignedIs(a);
    UnsignedIs(b);
    if a[0] < b[0] then -1 else if a[0] > b[0] then 1
    else if a[1] < b[1] then -1 else if a[1] > b[1] then 1
    else if a[2] < b[2] then -1 else if a[2] > b[2] then 1
    else if a[3] < b[3] then -1 else if a[3] > b[3] then 1 else 0
  }

  /** int_64_add_u32: b is added shift digits up; what does not fit is lost. */
  method AddU32(a: Int64, b: nat, shift: nat) returns (r: Int64)
    requires b < WORD && shift <= 6
    ensures Unsigned(r) == (Unsigned(a) + Up(b, shift)) % TWO64
  {
    if shift >= 4 {
      UnsignedIs(a);
      AllLost(Unsigned(a), b, shift);
      return a;
    }
    ghost var c;
    r, c := AddWords(a, b, shift);
    UpFour(c);
    UnsignedIs(r);
    hide Low, Up;
    Wrapped(Unsigned(r), c, Unsigned(a) + Up(b, shift));
  }

  /** The loop of int_64_add_u32, with what is carried out of the top. */
  method AddWords(a: Int64, b: nat, shift: nat) returns (r: Int64, ghost out: nat)
    requires b < WORD && shift < 4
    ensures Unsigned(r) + Up(out, 4) == Unsigned(a) + Up(b, shift)
  {
    r := a;
    hide Low, Power, Up;
    var c: nat, rest: nat := 0, b;
    var i: nat := 4 - shift;
    while i > 0
      invariant i <= 4 - shift && c <= 1 && rest < WORD
      invariant forall k | 0 <= k < i :: r[k] == a[k]
      invariant Low(r, i) + Up(rest + c, 4 - i) == Low(a, i) + Up(b, shift)
    {
      i := i - 1;
      var t := r[i] + rest % BASE + c;
      ghost var r0 := r;
      r := r[i := t % BASE];
      LowSame(r, r0, i + 1);
      LowUp(r, i);
      LowUp(a, i);
      AddWordDigit(a[i], rest, c, 3 - i);
      c := t / BASE;
      rest := rest / BASE;
    }
    out := rest + c;
  }

  lemma AddWordDigit(x: nat, rest: nat, c: nat, k: nat)
    requires x < BASE && c <= 1
    ensures var t := x + rest % BASE + c;
      t / BASE <= 1 && Up(x, k) + Up(rest + c, k) == Up(t % BASE, k) + Up(rest / BASE + t / BASE, k + 1)
  {
    var t, p := x + rest % BASE + c, Power(k);
    Carry(t, p);
    Carry(rest, p);
    Distribute(x, rest % BASE, c, p);
    Distribute(rest, c, 0, p);
    Distribute(rest / BASE, t / BASE, 0, BASE * p);
  }

  lemma Distribute(x: nat, y: nat, z: nat, p: nat)
    ensures (x + y + z) * p == x * p + y * p + z * p
  {
  }

  lemma AllLost(u: nat, b: nat, shift: nat)
    requires u < TWO64 && 4 <= shift
    ensures (u + Up(b, shift)) % TWO64 == u
  {
    PowerSum(4, shift - 4);
    Powers();
    var n := b * Power(shift - 4);
    assert b * Power(shift) == n * TWO64 by { Swap(b, TWO64, Power(shift - 4)); }
  }

  lemma Swap(b: nat, m: nat, n: nat)
    ensures b * (m * n) == (b * n) * m
  {
  }

  lemma {:induction false} PowerSum(a: nat, b: nat)
    ensures Power(a + b) == Power(a) * Power(b)
  {
    if a > 0 {
      PowerSum(a - 1, b);
      Assoc(BASE, Power(a - 1), Power(b));
    }
  }

  lemma Assoc(x: nat, y: nat, z: nat)
    ensures x * (y * z) == (x * y) * z
  {
  }

  lemma ModPlus(x: nat, y: nat)
    ensures (x % TWO64 + y) % TWO64 == (x + y) % TWO64
  {
  }

  /** int_64_umul: the product modulo 2^64. */
  method UMul(a: Int64, b: Int64) returns (r: Int64)
    ensures Unsigned(r) == Unsigned(a) * Unsigned(b) % TWO64
  {
    r := ZERO;
    UnsignedIs(ZERO);
    var i: nat := 4;
    NothingLow(a, b, r);
    hide Low, Power, Row;
    while i > 0
      invariant i <= 4
      invariant Unsigned(r) == Low(a, i) * Unsigned(b) % TWO64
    {
      i := i - 1;
      r := UMulRow(r, a[i], i, b, Low(a, i + 1) * Unsigned(b));
      RowIs(Low(a, i + 1) * Unsigned(b), a[i], i, b);
      LowAt(a, i);
      Distribute(Low(a, i + 1), a[i] * Power(3 - i), 0, Unsigned(b));
    }
  }

  /** The inner loop of int_64_umul: one digit times b, at its place. */
  method UMulRow(r0: Int64, x: nat, i: nat, b: Int64, ghost v0: nat) returns (r: Int64)
    requires x < BASE && i < 4 && Unsigned(r0) == v0 % TWO64
    ensures Unsigned(r) == Row(v0, x, i, b, 0) % TWO64
  {
    r := r0;
    var j: nat := 4;
    RowStart(v0, x, i, b);
    hide Low, Power, Row, Up, Unsigned;
    assert IsRow(r, v0, x, i, b, 4);
    while j > 0
      invariant j <= 4 && IsRow(r, v0, x, i, b, j)
    {
      j := j - 1;
      r := UMulDigit(r, x, i, b, j, v0);
    }
  }

  /** One digit of b times x, added at its place. */
  method UMulDigit(r0: Int64, x: nat, i: nat, b: Int64, j: nat, ghost v0: nat) returns (r: Int64)
    requires x < BASE && i < 4 && j < 4 && IsRow(r0, v0, x, i, b, j + 1)
    ensures IsRow(r, v0, x, i, b, j)
  {
    hide Low, Power, Row, Up, Unsigned;
    Fits(x, b[j]);
    r := AddU32(r0, x * b[j], (3 - i) + (3 - j));
    RowNext(v0, x, i, b, j);
  }

  ghost predicate IsRow(r: Int64, v0: nat, x: nat, i: nat, b: Int64, j: nat)
    requires i < 4
  {
    Unsigned(r) == Row(v0, x, i, b, j) % TWO64
  }

  /** The sum after the digits of b from j on. */
  ghost function Row(v0: nat, x: nat, i: nat, b: Int64, j: nat): nat
    requires i < 4
  {
    v0 + (x * Power(3 - i)) * Low(b, j)
  }

  lemma RowStart(v0: nat, x: nat, i: nat, b: Int64)
    requires i < 4
    ensures Row(v0, x, i, b, 4) == v0
  {
  }

  lemma RowIs(v0: nat, x: nat, i: nat, b: Int64)
    requires i < 4
    ensures Row(v0, x, i, b, 0) == v0 + (x * Power(3 - i)) * Unsigned(b)
  {
  }

  lemma RowNext(v0: nat, x: nat, i: nat, b: Int64, j: nat)
    requires i < 4 && j < 4
    ensures (Row(v0, x, i, b, j + 1) % TWO64 + Up(x * b[j], (3 - i) + (3 - j))) % TWO64 == Row(v0, x, i, b, j) % TWO64
  {
    hide Low, Power;
    PowerSum(3 - i, 3 - j);
    LowAt(b, j);
    RowNextAt(v0, x, Power(3 - i), b[j], Power(3 - j), Low(b, j + 1), Row(v0, x, i, b, j + 1), Row(v0, x, i, b, j));
  }

  lemma RowNextAt(v0: nat, x: nat, p: nat, y: nat, q: nat, low: nat, before: nat, after: nat)
    requires before == v0 + (x * p) * low && after == v0 + (x * p) * (y * q + low)
    ensures (before % TWO64 + x * y * (p * q)) % TWO64 == after % TWO64
  {
    UMulStep(v0, x, p, y, q, low);
  }

  lemma UMulStep(v0: nat, x: nat, p: nat, y: nat, q: nat, low: nat)
    ensures ((v0 + (x * p) * low) % TWO64 + (x * y) * (p * q)) % TWO64 == (v0 + (x * p) * (y * q + low)) % TWO64
  {
    Partial(x, p, y, q, low);
    ModPlus(v0 + (x * p) * low, (x * y) * (p * q));
  }

  lemma Fits(x: nat, y: nat)
    requires x < BASE && y < BASE
    ensures x * y < WORD
  {
    AtMost(x, 0xFFFF, y);
  }

  lemma AtMost(x: nat, n: nat, y: nat)
    requires x <= n
    ensures x * y <= n * y
  {
  }

  lemma Partial(x: nat, p: nat, y: nat, q: nat, low: nat)
    ensures (x * p) * (y * q + low) == (x * p) * low + (x * y) * (p * q)
  {
    assert (x * p) * (y * q + low) == (x * p) * (y * q) + (x * p) * low;
    Assoc(x, p, y * q);
    Assoc(p, y, q);
    Assoc(x, y, p * q);
    Assoc(y, p, q);
  }

  // ------------------------------------------------------------------ division

  const TWO31: nat := 0x8000_0000

  datatype DivState = DivState(q: nat, t: nat, rem: nat)

  /** The subtraction as the code does it: with a borrow between the words, one is added to the
      high word where it should be taken away. */
  function Subtracted(t: nat, b: nat): nat
    requires b <= t < TWO64
  {
    if t % WORD >= b % WORD then t - b else (t - b + 2 * WORD) % TWO64
  }

  function DivStep(s: DivState, b: nat): DivState {
    var q, t, rem := 2 * s.q % TWO64, (2 * s.t + s.rem / TWO63) % TWO64, 2 * s.rem % TWO64;
    if t >= b then DivState(q + 1, Subtracted(t, b), rem) else DivState(q, t, rem)
  }

  /** What int_64_divu computes in n rounds. */
  function DivRun(a: nat, b: nat, n: nat): DivState {
    if n == 0 then DivState(0, 0, a) else DivStep(DivRun(a, b, n - 1), b)
  }

  function Two(n: nat): (p: nat)
    ensures p > 0
  {
    if n == 0 then 1 else 2 * Two(n - 1)
  }

  /** Exactly the divisors for which no borrow between the words can occur. */
  predicate NoBorrow(b: nat) { b <= TWO31 || b % WORD == 0 }

  ghost predicate Divides(a: nat, b: nat, s: DivState, n: nat) {
    && s.t < b && s.rem < TWO64 && (s.q * b + s.t) * TWO64 + s.rem == a * Two(n) && s.q < Two(n)
  }

  lemma {:induction false} RunDivides(a: nat, b: nat, n: nat)
    requires 1 <= b <= TWO63 && NoBorrow(b) && a < TWO64 && n <= 64
    ensures Divides(a, b, DivRun(a, b, n), n)
  {
    if n > 0 {
      RunDivides(a, b, n - 1);
      TwoBound(n);
      StepDivides(a, b, DivRun(a, b, n - 1), n - 1);
    }
  }

  lemma {:induction false} TwoBound(n: nat)
    requires n <= 64
    ensures Two(n) <= TWO64
  {
    TwoSum(n, 64 - n);
    Two64();
    AtMost(1, Two(64 - n), Two(n));
  }

  lemma Two64()
    ensures Two(64) == TWO64 && Two(63) == TWO63
  {
    assert Two(1) == 2 && Two(2) == 4 && Two(4) == 16;
    assert Two(64) == 2 * Two(63);
    hide Two;
    TwoSum(4, 4);
    TwoSum(8, 8);
    TwoSum(16, 16);
    TwoSum(32, 32);
  }

  lemma {:induction false} TwoSum(a: nat, b: nat)
    ensures Two(a + b) == Two(a) * Two(b)
  {
    if a > 0 {
      TwoSum(a - 1, b);
      Assoc(2, Two(a - 1), Two(b));
    }
  }

  lemma Doubling(qb: nat, t: nat, rem: nat, v: nat)
    requires (qb + t) * TWO64 + rem == v && rem < TWO64
    ensures (2 * qb + (2 * t + rem / TWO63)) * TWO64 + 2 * rem % TWO64 == 2 * v && rem / TWO63 <= 1
  {
    var bit := rem / TWO63;
    assert 2 * rem == bit * TWO64 + 2 * rem % TWO64;
  }

  lemma StepDivides(a: nat, b: nat, s: DivState, n: nat)
    requires 1 <= b <= TWO63 && NoBorrow(b) && n < 64 && Divides(a, b, s, n) && Two(n + 1) <= TWO64
    ensures Divides(a, b, DivStep(s, b), n + 1)
  {
    hide Two, DivStep, NoBorrow;
    TwoNext(a, n);
    TwoNext(1, n);
    Doubling(s.q * b, s.t, s.rem, a * Two(n));
    StepKeeps(s.q, s.t, s.rem, b);
    assert s == DivState(s.q, s.t, s.rem);
    StepSum(s.q, s.t, s.rem / TWO63, b, DivStep(s, b).q, DivStep(s, b).t);
  }

  /** A round doubles what quotient and remainder stand for, and takes in one bit. */
  lemma StepSum(q: nat, t: nat, bit: nat, b: nat, q2: nat, t2: nat)
    requires var t1 := 2 * t + bit; if t1 >= b then q2 == 2 * q + 1 && t2 == t1 - b else q2 == 2 * q && t2 == t1
    ensures q2 * b + t2 == 2 * (q * b) + (2 * t + bit)
  {
    Products(q, b);
  }

  lemma Products(q: nat, b: nat)
    ensures (2 * q) * b == 2 * (q * b) && (2 * q + 1) * b == 2 * (q * b) + b
  {
    Assoc(2, q, b);
    Distribute(2 * q, 1, 0, b);
  }

  lemma TwoNext(a: nat, n: nat)
    ensures Two(n + 1) == 2 * Two(n) && a * Two(n + 1) == 2 * (a * Two(n))
  {
    Assoc(2, a, Two(n));
    Assoc(a, 2, Two(n));
  }

  /** A round without a borrow, when nothing is shifted out. */
  lemma StepKeeps(q: nat, t: nat, rem: nat, b: nat)
    requires 1 <= b <= TWO63 && NoBorrow(b) && t < b && rem < TWO64 && 2 * q + 1 < TWO64
    ensures var t1 := 2 * t + rem / TWO63;
      DivStep(DivState(q, t, rem), b)
        == if t1 >= b then DivState(2 * q + 1, t1 - b, 2 * rem % TWO64) else DivState(2 * q, t1, 2 * rem % TWO64)
    ensures 2 * t + rem / TWO63 < 2 * b
  {
    var t1 := 2 * t + rem / TWO63;
    assert rem / TWO63 <= 1;
    assert t1 % TWO64 == t1;
    if t1 >= b {
      SmallOrWhole(t1, b);
    }
  }

  lemma SmallOrWhole(t: nat, b: nat)
    requires NoBorrow(b) && b <= t < 2 * b
    ensures t % WORD >= b % WORD
  {
  }

  lemma UniqueQuotient(a: nat, b: nat, q: nat, t: nat)
    requires q * b + t == a && t < b
    ensures q == a / b && t == a % b
  {
    var x, y := a / b, a % b;
    assert x * b + y == a && y < b;
    if x < q {
      AtMost(x + 1, q, b);
      Distribute(x, 1, 0, b);
    } else if q < x {
      AtMost(q + 1, x, b);
      Distribute(q, 1, 0, b);
    }
  }

  /** Without borrows the result is the quotient and the remainder. */
  lemma DivRight(a: nat, b: nat)
    requires 1 <= b <= TWO63 && NoBorrow(b) && a < TWO64
    ensures DivRun(a, b, 64).q == a / b && DivRun(a, b, 64).t == a % b
  {
    RunDivides(a, b, 64);
    Two64();
    var s := DivRun(a, b, 64);
    hide DivRun, Two;
    assert s.rem == 0 && s.q * b + s.t == a;
    UniqueQuotient(a, b, s.q, s.t);
  }

  lemma {:induction false} RunIdle(a: nat, b: nat, n: nat)
    requires a < TWO64 && b <= TWO63 && a * Two(n) < b * TWO64
    ensures var s := DivRun(a, b, n); s.q == 0 && s.t * TWO64 + s.rem == a * Two(n) && s.rem < TWO64
  {
    if n > 0 {
      TwoNext(a, n - 1);
      hide Two;
      RunIdle(a, b, n - 1);
      var s := DivRun(a, b, n - 1);
      Doubling(0, s.t, s.rem, a * Two(n - 1));
      IdleStep(s.t, s.rem, b);
    }
  }

  lemma IdleStep(t: nat, rem: nat, b: nat)
    requires rem < TWO64 && b <= TWO63 && (2 * t + rem / TWO63) * TWO64 + 2 * rem % TWO64 < b * TWO64
    ensures DivStep(DivState(0, t, rem), b) == DivState(0, 2 * t + rem / TWO63, 2 * rem % TWO64)
  {
    assert 2 * t + rem / TWO63 < b;
  }

  /** For every other divisor there is a dividend whose remainder comes out wrong. */
  lemma DivWrong(b: nat)
    requires 1 <= b <= TWO63 && !NoBorrow(b)
    ensures var a := (b / WORD + 1) * WORD; a < TWO64 && DivRun(a, b, 64).t != a % b
  {
    var a := (b / WORD + 1) * WORD;
    WholeAbove(b);
    Two64();
    hide Two, DivStep, NoBorrow;
    RunIdle(a, b, 63);
    LastRound(a, b, DivRun(a, b, 63));
  }

  /** The least multiple of a word above such a divisor. */
  lemma WholeAbove(b: nat)
    requires 1 <= b <= TWO63 && !NoBorrow(b)
    ensures var a := (b / WORD + 1) * WORD;
      b < a < 2 * b && a < TWO64 && a % WORD == 0 && b % WORD != 0 && a * TWO63 < b * TWO64
  {
    var bh, bl := b / WORD, b % WORD;
    assert b == bh * WORD + bl && 0 < bl < WORD;
    assert bh < TWO31;
  }

  lemma LastRound(a: nat, b: nat, s: DivState)
    requires 1 <= b <= TWO63 && b < a < 2 * b && a % WORD == 0 && b % WORD != 0 && a < TWO64
    requires s.q == 0 && s.t * TWO64 + s.rem == a * TWO63 && s.rem < TWO64
    ensures DivStep(s, b).t != a % b
  {
    hide DivStep, Subtracted;
    HalfState(a, s.t, s.rem);
    assert s == DivState(0, a / 2, 0);
    LastStep(a, b);
    UniqueQuotient(a, b, 1, a - b);
    Shifted(a, b);
  }

  lemma LastStep(a: nat, b: nat)
    requires b <= a < TWO64 && a % 2 == 0
    ensures DivStep(DivState(0, a / 2, 0), b).t == Subtracted(a, b)
  {
    hide Subtracted;
    assert 2 * (a / 2) == a;
  }

  lemma HalfState(a: nat, t: nat, rem: nat)
    requires a % 2 == 0 && t * TWO64 + rem == a * TWO63 && rem < TWO64
    ensures 2 * t == a && rem == 0
  {
    var h := a / 2;
    assert a == 2 * h && h * TWO64 + 0 == a * TWO63;
  }

  lemma Shifted(a: nat, b: nat)
    requires b < a < TWO64 && a % WORD == 0 && b % WORD != 0
    ensures Subtracted(a, b) != a - b
  {
    var d := a - b;
    assert (d + 2 * WORD) % TWO64 == if d + 2 * WORD < TWO64 then d + 2 * WORD else d + 2 * WORD - TWO64;
  }

  /** int_64_divu is right for all dividends exactly when its divisor needs no borrow. */
  lemma DivRightIff(b: nat)
    requires 1 <= b <= TWO63
    ensures (forall a: nat | a < TWO64 :: DivRun(a, b, 64).q == a / b && DivRun(a, b, 64).t == a % b) <==> NoBorrow(b)
  {
    if NoBorrow(b) {
      forall a: nat | a < TWO64 ensures DivRun(a, b, 64).q == a / b && DivRun(a, b, 64).t == a % b {
        DivRight(a, b);
      }
    } else {
      DivWrong(b);
    }
  }

  // ------------------------------------------------------------------ the loop of int_64_divu

  function Join(hi: nat, lo: nat): nat { hi * WORD + lo }

  lemma ShiftLeft(hi: nat, lo: nat, low: nat)
    requires hi < WORD && lo < WORD && low <= 1
    ensures var hi2, lo2 := 2 * hi % WORD + (if lo >= TWO31 then 1 else 0), 2 * lo % WORD + low;
      hi2 < WORD && lo2 < WORD && Join(hi2, lo2) == (2 * Join(hi, lo) + low) % TWO64
  {
    var c := if lo >= TWO31 then 1 else 0;
    assert 2 * lo == c * WORD + 2 * lo % WORD;
    var d := if hi >= TWO31 then 1 else 0;
    assert 2 * hi == d * WORD + 2 * hi % WORD;
  }

  lemma TopBit(hi: nat, lo: nat)
    requires hi < WORD && lo < WORD
    ensures Join(hi, lo) / TWO63 == if hi >= TWO31 then 1 else 0
  {
  }

  /** The digits of a double word. */
  function Digits(hi: nat, lo: nat): (r: Int64)
    requires hi < WORD && lo < WORD
    ensures Unsigned(r) == Join(hi, lo)
  {
    var r: Int64 := [hi / BASE, hi % BASE, lo / BASE, lo % BASE];
    UnsignedIs(r);
    r
  }

  lemma Words(a: Int64)
    ensures a[0] * BASE + a[1] < WORD && a[2] * BASE + a[3] < WORD
    ensures Unsigned(a) == Join(a[0] * BASE + a[1], a[2] * BASE + a[3])
  {
    UnsignedIs(a);
  }

  lemma SubtractWords(th: nat, tl: nat, bh: nat, bl: nat)
    requires th < WORD && tl < WORD && bh < WORD && bl < WORD && Join(th, tl) >= Join(bh, bl)
    ensures tl >= bl ==> th >= bh && Join(th - bh, tl - bl) == Subtracted(Join(th, tl), Join(bh, bl))
    ensures tl < bl ==> th > bh && tl - bl + WORD < WORD && Join((th - bh + 1) % WORD, tl - bl + WORD) == Subtracted(Join(th, tl), Join(bh, bl))
  {
    assert Join(th, tl) % WORD == tl && Join(bh, bl) % WORD == bl;
  }

  /** int_64_divu */
  method DivU(a: Int64, b: Int64) returns (q: Int64, r: Int64)
    ensures Unsigned(q) == DivRun(Unsigned(a), Unsigned(b), 64).q
    ensures Unsigned(r) == DivRun(Unsigned(a), Unsigned(b), 64).t
    ensures 1 <= Unsigned(b) <= TWO63 && NoBorrow(Unsigned(b)) ==>
      Unsigned(q) == Unsigned(a) / Unsigned(b) && Unsigned(r) == Unsigned(a) % Unsigned(b)
  {
    var qh: nat, ql: nat, th: nat, tl: nat := 0, 0, 0, 0;
    var bh, bl := b[0] * BASE + b[1], b[2] * BASE + b[3];
    var ah: nat, al: nat := a[0] * BASE + a[1], a[2] * BASE + a[3];
    Words(a);
    Words(b);
    ghost var x, y := Unsigned(a), Unsigned(b);
    hide Unsigned, Join, Subtracted, DivStep;
    JoinZero();
    for i := 0 to 64
      invariant qh < WORD && ql < WORD && th < WORD && tl < WORD && ah < WORD && al < WORD
      invariant DivRun(x, y, i) == DivState(Join(qh, ql), Join(th, tl), Join(ah, al))
    {
      qh, ql, th, tl, ah, al := Round(qh, ql, th, tl, ah, al, bh, bl);
    }
    q, r := Digits(qh, ql), Digits(th, tl);
    if 1 <= y <= TWO63 && NoBorrow(y) {
      UnsignedIs(a);
      DivRight(x, y);
    }
  }

  /** One round of int_64_divu, on words. */
  method Round(qh0: nat, ql0: nat, th0: nat, tl0: nat, ah0: nat, al0: nat, bh: nat, bl: nat)
      returns (qh: nat, ql: nat, th: nat, tl: nat, ah: nat, al: nat)
    requires qh0 < WORD && ql0 < WORD && th0 < WORD && tl0 < WORD && ah0 < WORD && al0 < WORD && bh < WORD && bl < WORD
    ensures qh < WORD && ql < WORD && th < WORD && tl < WORD && ah < WORD && al < WORD
    ensures DivState(Join(qh, ql), Join(th, tl), Join(ah, al))
      == DivStep(DivState(Join(qh0, ql0), Join(th0, tl0), Join(ah0, al0)), Join(bh, bl))
  {
    hide Join, Subtracted;
    qh, ql := Doubled(qh0, ql0, 0);
    th, tl := Doubled(th0, tl0, if ah0 >= TWO31 then 1 else 0);
    ah, al := Doubled(ah0, al0, 0);
    TopBit(ah0, al0);
    JoinOrder(th, tl, bh, bl);
    if th > bh || (th == bh && tl >= bl) {
      SetLowBit(qh, ql);
      ql := ql + 1;
      th, tl := SubtractDouble(th, tl, bh, bl);
    }
  }

  /** A double word shifted up by one bit. */
  method Doubled(hi: nat, lo: nat, low: nat) returns (h: nat, l: nat)
    requires hi < WORD && lo < WORD && low <= 1
    ensures h < WORD && l < WORD && l % 2 == low && Join(h, l) == (2 * Join(hi, lo) + low) % TWO64
  {
    ShiftLeft(hi, lo, low);
    hide Join;
    h, l := 2 * hi % WORD + (if lo >= TWO31 then 1 else 0), 2 * lo % WORD + low;
    EvenLow(lo, low);
  }

  lemma EvenLow(lo: nat, low: nat)
    requires low <= 1
    ensures (2 * lo % WORD + low) % 2 == low
  {
  }

  /** The subtraction of the words, with the borrow the wrong way. */
  method SubtractDouble(th: nat, tl: nat, bh: nat, bl: nat) returns (h: nat, l: nat)
    requires th < WORD && tl < WORD && bh < WORD && bl < WORD && Join(bh, bl) <= Join(th, tl) < TWO64
    ensures h < WORD && l < WORD && Join(h, l) == Subtracted(Join(th, tl), Join(bh, bl))
  {
    SubtractWords(th, tl, bh, bl);
    hide Join, Subtracted;
    if tl >= bl {
      h, l := th - bh, tl - bl;
    } else {
      h, l := (th - bh + 1) % WORD, tl - bl + WORD;
    }
  }

  lemma JoinZero()
    ensures Join(0, 0) == 0
  {
  }

  lemma JoinOrder(th: nat, tl: nat, bh: nat, bl: nat)
    requires tl < WORD && bl < WORD
    ensures Join(th, tl) >= Join(bh, bl) <==> th > bh || (th == bh && tl >= bl)
    ensures th < WORD ==> Join(th, tl) < TWO64
  {
  }

  lemma SetLowBit(hi: nat, lo: nat)
    requires lo % 2 == 0 && lo < WORD
    ensures lo + 1 < WORD && Join(hi, lo + 1) == Join(hi, lo) + 1
  {
  }
}
