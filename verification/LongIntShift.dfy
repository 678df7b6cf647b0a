/** Shifts of 64-bit integers, digit by digit (handc/runtime/longint.c:180-232). */
module LongIntShifts {
  import opened LongInts
  import opened LongIntTexts

  lemma SmallPowers(d: nat)
    requires d <= 16
    ensures Two(d) * Two(16 - d) == BASE && Two(16) == BASE
  {
    TwoSum(d, 16 - d);
    Two64();
    TwoSum(4, 4);
    TwoSum(8, 8);
    assert Two(1) == 2 && Two(2) == 4 && Two(4) == 16;
  }

  /** A digit in its upper 16 - d bits and its lower d. */
  function Upper(x: nat, d: nat): nat { Over(x, Two(d)) }

  function Over(x: nat, p: nat): nat
    requires p > 0
  {
    x / p
  }

  function Lower(x: nat, d: nat): nat { x % Two(d) }

  lemma Halves(x: nat, d: nat)
    requires x < BASE && d <= 16
    ensures x == Upper(x, d) * Two(d) + Lower(x, d)
    ensures Upper(x, d) < Two(16 - d) && Lower(x, d) < Two(d)
    ensures Lower(x, d) * Two(16 - d) + Upper(x, d) < BASE
    ensures x * Two(16 - d) % BASE == Lower(x, d) * Two(16 - d)
    ensures Lower(x, d) * Two(16 - d) * Two(d) == Lower(x, d) * BASE
  {
    SmallPowers(d);
    Quotient(x, Two(d));
    HalvesOf(x, Two(d), Two(16 - d), Upper(x, d), Lower(x, d));
    hide Two, Upper, Lower;
  }

  lemma HalvesOf(x: nat, p: nat, q: nat, u: nat, l: nat)
    requires x < BASE && p > 0 && q > 0 && p * q == BASE && x == u * p + l && l < p
    ensures u < q && l * q + u < BASE && x * q % BASE == l * q && l * q * p == l * BASE
  {
    if u >= q {
      AtMost(q, u, p);
      MulSwap(p, q);
    }
    AtMost(l, p - 1, q);
    Times(p, 1, q);
    Reassociate(u, l, p, q);
    ModBase(u, l * q, x * q);
  }

  lemma Times(p: nat, one: nat, q: nat)
    requires p >= one
    ensures (p - one) * q == p * q - one * q
  {
  }

  lemma Reassociate(u: nat, l: nat, p: nat, q: nat)
    ensures (u * p + l) * q == u * (p * q) + l * q && l * q * p == l * (p * q)
  {
    Assoc(u, p, q);
    Assoc(l, q, p);
  }

  lemma ModBase(u: nat, r: nat, t: nat)
    requires t == u * BASE + r && r < BASE
    ensures t % BASE == r
  {
  }

  /** The digit the right shifts compute: the upper part of one digit below the lower part of the
      next higher one. The bitwise or joins disjoint bits, so it is a sum. */
  function RightDigit(high: nat, x: nat, d: nat): nat
    requires d < 16
  {
    (x / Two(d) + high * Two(16 - d) % BASE) % BASE
  }

  function LeftDigit(x: nat, low: nat, d: nat): nat
    requires d < 16
  {
    (x * Two(d) % BASE + low / Two(16 - d)) % BASE
  }

  lemma RightDigitIs(high: nat, x: nat, d: nat)
    requires high < BASE && x < BASE && d < 16
    ensures RightDigit(high, x, d) == Upper(x, d) + Lower(high, d) * Two(16 - d) < BASE
    ensures RightDigit(high, x, d) * Two(d) + Lower(x, d) == x + Lower(high, d) * BASE
  {
    Halves(x, d);
    Halves(high, d);
    SmallPowers(d);
    JoinRight(Upper(x, d), Lower(x, d), Lower(high, d), Two(d), Two(16 - d), x);
    hide Two, Upper, Lower;
  }

  lemma JoinRight(u: nat, v: nat, l: nat, p: nat, q: nat, x: nat)
    requires u < q && l < p && p * q == BASE && x == u * p + v && l * q * p == l * BASE
    ensures (u + l * q) % BASE == u + l * q < BASE && (u + l * q) * p + v == x + l * BASE
  {
    Room(u, l, p, q);
    Distribute(u, l * q, 0, p);
    ModBase(0, u + l * q, u + l * q);
  }

  lemma Room(u: nat, l: nat, p: nat, q: nat)
    requires u < q && l < p && p * q == BASE
    ensures u + l * q < BASE
  {
    AtMost(l, p - 1, q);
    Times(p, 1, q);
  }

  lemma LeftDigitIs(x: nat, low: nat, d: nat)
    requires x < BASE && low < BASE && d < 16
    ensures LeftDigit(x, low, d) == Lower(x, 16 - d) * Two(d) + Upper(low, 16 - d) < BASE
    ensures LeftDigit(x, low, d) + Upper(x, 16 - d) * BASE == x * Two(d) + Upper(low, 16 - d)
  {
    Halves(x, 16 - d);
    Halves(low, 16 - d);
    SmallPowers(16 - d);
    JoinLeft(Upper(low, 16 - d), Upper(x, 16 - d), Lower(x, 16 - d), Two(16 - d), Two(d), x);
    hide Two, Upper, Lower;
  }

  lemma JoinLeft(u: nat, h: nat, l: nat, p: nat, q: nat, x: nat)
    requires u < q && l < p && p * q == BASE && x == h * p + l
    ensures (l * q + u) % BASE == l * q + u < BASE && l * q + u + h * BASE == x * q + u
  {
    Room(u, l, p, q);
    Reassociate(h, l, p, q);
    ModBase(0, l * q + u, l * q + u);
  }

  // ------------------------------------------------------------------ sums of digits

  lemma Scale(d: Int64, p: nat)
    ensures Unsigned(d) * p == d[0] * p * 0x1_0000_0000_0000 + d[1] * p * WORD + d[2] * p * BASE + d[3] * p
  {
    UnsignedIs(d);
    hide Low;
    ScaleSum(d[0], d[1], d[2], d[3], p);
  }

  lemma ScaleSum(a: nat, b: nat, c: nat, e: nat, p: nat)
    ensures (a * 0x1_0000_0000_0000 + b * WORD + c * BASE + e) * p == a * p * 0x1_0000_0000_0000 + b * p * WORD + c * p * BASE + e * p
  {
    Distribute(a * 0x1_0000_0000_0000, b * WORD, c * BASE + e, p);
    Distribute(c * BASE, e, 0, p);
    Swap2(a, 0x1_0000_0000_0000, p);
    Swap2(b, WORD, p);
    Swap2(c, BASE, p);
  }

  lemma Swap2(a: nat, k: nat, p: nat)
    ensures a * k * p == a * p * k
  {
  }

  /** Digits shifted right by d bits, s filling from above. */
  ghost predicate DownBits(y: Int64, r: Int64, d: nat, s: nat)
    requires d < 16 && s < BASE
  {
    && r[0] == RightDigit(s, y[0], d) && r[1] == RightDigit(y[0], y[1], d)
    && r[2] == RightDigit(y[1], y[2], d) && r[3] == RightDigit(y[2], y[3], d)
  }

  lemma DownSum(y: Int64, r: Int64, d: nat, s: nat)
    requires d < 16 && s < BASE && DownBits(y, r, d, s)
    ensures Unsigned(r) * Two(d) + Lower(y[3], d) == Unsigned(y) + Lower(s, d) * TWO64
  {
    hide Low, Lower, Two;
    DownDigit(s, y[0], d);
    DownDigit(y[0], y[1], d);
    DownDigit(y[1], y[2], d);
    DownDigit(y[2], y[3], d);
    hide RightDigit;
    Scale(r, Two(d));
    UnsignedIs(y);
    var p := Two(d);
    DownLinear(r[0] * p, r[1] * p, r[2] * p, r[3] * p, Lower(s, d), Lower(y[0], d), Lower(y[1], d), Lower(y[2], d), Lower(y[3], d),
               y[0], y[1], y[2], y[3]);
  }

  lemma DownDigit(h: nat, x: nat, d: nat)
    requires d < 16 && h < BASE && x < BASE
    ensures RightDigit(h, x, d) * Two(d) + Lower(x, d) == x + Lower(h, d) * BASE
  {
    RightDigitIs(h, x, d);
    hide Lower, Two, RightDigit;
  }

  /** The low bits of each digit reappear below. */
  lemma DownLinear(r0: nat, r1: nat, r2: nat, r3: nat, l: nat, l0: nat, l1: nat, l2: nat, l3: nat, y0: nat, y1: nat, y2: nat, y3: nat)
    requires r0 + l0 == y0 + l * BASE && r1 + l1 == y1 + l0 * BASE && r2 + l2 == y2 + l1 * BASE && r3 + l3 == y3 + l2 * BASE
    ensures r0 * 0x1_0000_0000_0000 + r1 * WORD + r2 * BASE + r3 + l3
      == y0 * 0x1_0000_0000_0000 + y1 * WORD + y2 * BASE + y3 + l * TWO64
  {
  }

  /** Whole digits moved down by c places, s filling from above. */
  function DigitsDown(a: Int64, c: nat, s: nat): (y: Int64)
    requires c <= 4 && s < BASE
  {
    match c
    case 0 => a
    case 1 => [s, a[0], a[1], a[2]]
    case 2 => [s, s, a[0], a[1]]
    case 3 => [s, s, s, a[0]]
    case _ => [s, s, s, s]
  }

  lemma DigitsDownIs(a: Int64, c: nat, s: nat) returns (low: nat)
    requires c <= 4 && (s == 0 || s == 0xFFFF)
    ensures low < Power(c) && Extended(a, s) == Extended(DigitsDown(a, c, s), s) * Power(c) + low
  {
    UnsignedIs(a);
    UnsignedIs(DigitsDown(a, c, s));
    Powers();
    hide Low, Power;
    low := LowDigits(a, c);
    DownValue(a[0], a[1], a[2], a[3], c, s, Unsigned(a), Unsigned(DigitsDown(a, c, s)), low);
  }

  function LowDigits(a: Int64, c: nat): nat
    requires c <= 4
  {
    match c
    case 0 => 0
    case 1 => a[3]
    case 2 => a[2] * BASE + a[3]
    case 3 => a[1] * WORD + a[2] * BASE + a[3]
    case _ => a[0] * 0x1_0000_0000_0000 + a[1] * WORD + a[2] * BASE + a[3]
  }

  function PowerOf(c: nat): nat {
    match c case 0 => 1 case 1 => BASE case 2 => WORD case 3 => 0x1_0000_0000_0000 case _ => TWO64
  }

  lemma DownValue(a0: nat, a1: nat, a2: nat, a3: nat, c: nat, s: nat, a: nat, y: nat, low: nat)
    requires c <= 4 && (s == 0 || s == 0xFFFF) && a0 < BASE && a1 < BASE && a2 < BASE && a3 < BASE
    requires a == a0 * 0x1_0000_0000_0000 + a1 * WORD + a2 * BASE + a3
    requires c == 0 ==> y == a && low == 0
    requires c == 1 ==> y == s * 0x1_0000_0000_0000 + a0 * WORD + a1 * BASE + a2 && low == a3
    requires c == 2 ==> y == s * 0x1_0000_0000_0000 + s * WORD + a0 * BASE + a1 && low == a2 * BASE + a3
    requires c == 3 ==> y == s * 0x1_0000_0000_0000 + s * WORD + s * BASE + a0 && low == a1 * WORD + a2 * BASE + a3
    requires c == 4 ==> y == s * 0x1_0000_0000_0000 + s * WORD + s * BASE + s && low == a
    ensures low < PowerOf(c)
    ensures if s == 0 then a == y * PowerOf(c) + low else a - TWO64 == (y - TWO64) * PowerOf(c) + low
  {
  }

  /** The number with ones above when the fill is ones. */
  function Extended(d: Int64, s: nat): int {
    if s == 0 then Unsigned(d) else Unsigned(d) - TWO64
  }

  /** Rounding toward minus infinity. */
  function Floor(x: int, p: nat): int
    requires p > 0
  {
    x / p
  }

  lemma FloorIs(x: int, p: nat, q: int, r: nat)
    requires p > 0 && x == q * p + r && r < p
    ensures Floor(x, p) == q
  {
    var k, m := x / p, x % p;
    Euclid(x, p);
    if k > q {
      Gap(k - q, p);
      Split(k, q, p);
    } else if k < q {
      Gap(q - k, p);
      Split(q, k, p);
    }
  }

  /** Two floors are one. */
  lemma FloorTwice(x: int, p: nat, q: nat)
    requires p > 0 && q > 0
    ensures p * q > 0 && Floor(Floor(x, p), q) == Floor(x, p * q)
  {
    Multiple(p, q);
    var y := x / p;
    var z := y / q;
    Euclid(x, p);
    Euclid(y, q);
    var r := y % q * p + x % p;
    AtMost(y % q + 1, q, p);
    Distribute(y % q, 1, 0, p);
    Nested(z, q, y % q, p, x % p);
    MulSwap(p, q);
    FloorIs(x, p * q, z, r);
  }

  lemma Multiple(p: nat, q: nat)
    requires p > 0 && q > 0
    ensures p * q > 0
  {
  }

  lemma MulSwap(p: nat, q: nat)
    ensures p * q == q * p
  {
  }

  lemma Nested(z: int, q: nat, y: nat, p: nat, x: nat)
    ensures (z * q + y) * p + x == z * (p * q) + (y * p + x)
  {
    assert (z * q + y) * p == z * q * p + y * p;
    assert z * q * p == z * (p * q);
  }

  lemma PowerIsTwo(c: nat)
    requires c <= 4
    ensures Power(c) == Two(16 * c)
  {
    if c > 0 {
      PowerIsTwo(c - 1);
      SmallPowers(16);
      TwoSum(16, 16 * (c - 1));
      assert 16 + 16 * (c - 1) == 16 * c;
      assert Power(c) == BASE * Power(c - 1);
    }
  }

  /** Both right shifts divide, rounding down. */
  lemma DownIsFloor(a: Int64, r: Int64, c: nat, d: nat, s: nat)
    requires c <= 4 && d < 16 && (s == 0 || s == 0xFFFF) && DownBits(DigitsDown(a, c, s), r, d, s)
    ensures Extended(r, s) == Floor(Extended(a, s), Two(16 * c + d))
  {
    var y := DigitsDown(a, c, s);
    DownSum(y, r, d, s);
    FillBits(s, d);
    BitsFloor(y, r, d, s);
    var low := DigitsDownIs(a, c, s);
    FloorIs(Extended(a, s), Power(c), Extended(y, s), low);
    FloorTwice(Extended(a, s), Power(c), Two(d));
    PowerIsTwo(c);
    TwoSum(16 * c, d);
  }

  lemma FillBits(s: nat, d: nat)
    requires d < 16 && (s == 0 || s == 0xFFFF)
    ensures Lower(s, d) == if s == 0 then 0 else Two(d) - 1
  {
    if s != 0 {
      SmallPowers(d);
      AllOnes(Two(d), Two(16 - d));
    }
    hide Two;
  }

  lemma AllOnes(p: nat, q: nat)
    requires p * q == BASE && p > 0 && q > 0
    ensures 0xFFFF % p == p - 1
  {
    Times(q, 1, p);
    MulSwap(p, q);
    UniqueQuotient(0xFFFF, p, q - 1, p - 1);
  }

  lemma BitsFloor(y: Int64, r: Int64, d: nat, s: nat)
    requires d < 16 && (s == 0 || s == 0xFFFF) && Lower(s, d) == if s == 0 then 0 else Two(d) - 1
    requires Unsigned(r) * Two(d) + Lower(y[3], d) == Unsigned(y) + Lower(s, d) * TWO64
    ensures Extended(r, s) == Floor(Extended(y, s), Two(d))
  {
    Halves(y[3], d);
    var p := Two(d);
    hide Unsigned, Two, Lower, Upper, Floor;
    if s != 0 {
      ShiftDownBy(Unsigned(r), p);
    }
    FloorIs(Extended(y, s), p, Extended(r, s), Lower(y[3], d));
  }

  lemma ShiftDownBy(u: nat, p: nat)
    requires p > 0
    ensures (u - TWO64) * p == u * p - TWO64 * p && (p - 1) * TWO64 == TWO64 * p - TWO64
  {
  }

  // ------------------------------------------------------------------ the operations

  /** int_64_lshr; the source writes past the digits for counts from 80 on. */
  method Lshr(a: Int64, b: nat) returns (r: Int64)
    requires b < 80
    ensures Unsigned(r) == Unsigned(a) / Two(b)
  {
    r := ShiftDown(a, b / 16, b % 16, 0);
    DownIsFloor(a, r, b / 16, b % 16, 0);
  }

  /** int_64_ashr */
  method Ashr(a: Int64, b: nat) returns (r: Int64)
    requires b < 80
    ensures Signed(r) == Floor(Signed(a), Two(b))
  {
    var s := if NegQ(a) then 0xFFFF else 0;
    r := ShiftDown(a, b / 16, b % 16, s);
    DownIsFloor(a, r, b / 16, b % 16, s);
    SignedIs(a);
    SignedIs(r);
    hide Unsigned, Two, DownBits;
    SameSignFloor(Signed(a), Two(b));
    SignedOf(r, Floor(Signed(a), Two(b)));
  }

  lemma SameSignFloor(x: int, p: nat)
    requires p > 0 && MIN64 <= x < TWO63
    ensures MIN64 <= Floor(x, p) < TWO63 && (x < 0 <==> Floor(x, p) < 0)
  {
    var q := x / p;
    Euclid(x, p);
    if q < 0 {
      assert -q >= 1;
      Gap(-q, p);
      assert (-q) * p == -(q * p);
      if q < MIN64 { Larger(-q, p); }
    } else {
      if q >= TWO63 { Larger(q, p); }
    }
  }

  lemma Larger(n: int, p: nat)
    requires n >= 0 && p > 0
    ensures n * p >= n
  {
  }

  /** int_64_shl */
  method Shl(a: Int64, b: nat) returns (r: Int64)
    requires b < 80
    ensures Unsigned(r) == Unsigned(a) * Two(b) % TWO64
  {
    hide Two, Low, UpBits, LeftAt;
    var c, d := b / 16, b % 16;
    r := ZERO;
    var i: nat := 0;
    while i < 4 - c
      invariant i <= 4 - c
      invariant forall k: nat | k < i :: r[k] == LeftAt(a, c, d, k)
    {
      var x := LeftAt(a, c, d, i);
      r := r[i := x];
      i := i + 1;
    }
    while i < 4
      invariant 4 - c <= i <= 4
      invariant forall k: nat | k < i :: r[k] == if k < 4 - c then LeftAt(a, c, d, k) else 0
    {
      r := r[i := 0];
      i := i + 1;
    }
    UpBitsOf(a, r, c, d);
    UpIsProduct(a, r, c, d);
  }

  /** The digit of the loop of int_64_shl. */
  function LeftAt(a: Int64, c: nat, d: nat, k: nat): (x: nat)
    requires c <= 4 && d < 16 && k < 4 - c
    ensures x < BASE
  {
    LeftDigitIs(a[k + c], if k + c + 1 > 3 then 0 else a[k + c + 1], d);
    LeftDigit(a[k + c], if k + c + 1 > 3 then 0 else a[k + c + 1], d)
  }

  /** Digits shifted left by d bits, zeros filling from below. */
  ghost predicate UpBits(z: Int64, r: Int64, d: nat)
    requires d < 16
  {
    && r[0] == LeftDigit(z[0], z[1], d) && r[1] == LeftDigit(z[1], z[2], d)
    && r[2] == LeftDigit(z[2], z[3], d) && r[3] == LeftDigit(z[3], 0, d)
  }

  function DigitsUp(a: Int64, c: nat): (z: Int64)
    requires c <= 4
  {
    match c
    case 0 => a
    case 1 => [a[1], a[2], a[3], 0]
    case 2 => [a[2], a[3], 0, 0]
    case 3 => [a[3], 0, 0, 0]
    case _ => [0, 0, 0, 0]
  }

  lemma ZeroLeft(d: nat)
    requires d < 16
    ensures LeftDigit(0, 0, d) == 0
  {
    LeftDigitIs(0, 0, d);
    Halves(0, 16 - d);
  }

  lemma UpBitsOf(a: Int64, r: Int64, c: nat, d: nat)
    requires c <= 4 && d < 16
    requires forall k: nat | k < 4 :: r[k] == if k < 4 - c then LeftAt(a, c, d, k) else 0
    ensures UpBits(DigitsUp(a, c), r, d)
  {
    ZeroLeft(d);
  }

  lemma UpSum(z: Int64, r: Int64, d: nat)
    requires d < 16 && UpBits(z, r, d)
    ensures Unsigned(r) + Upper(z[0], 16 - d) * TWO64 == Unsigned(z) * Two(d)
  {
    hide Low, Upper, Two;
    UpDigit(z[0], z[1], d);
    UpDigit(z[1], z[2], d);
    UpDigit(z[2], z[3], d);
    UpDigit(z[3], 0, d);
    hide LeftDigit;
    NoUpper(d);
    Scale(z, Two(d));
    UnsignedIs(r);
    var p := Two(d);
    UpLinear(z[0] * p, z[1] * p, z[2] * p, z[3] * p, Upper(z[0], 16 - d), Upper(z[1], 16 - d), Upper(z[2], 16 - d), Upper(z[3], 16 - d),
             r[0], r[1], r[2], r[3]);
  }

  lemma UpDigit(x: nat, l: nat, d: nat)
    requires d < 16 && x < BASE && l < BASE
    ensures LeftDigit(x, l, d) + Upper(x, 16 - d) * BASE == x * Two(d) + Upper(l, 16 - d)
  {
    LeftDigitIs(x, l, d);
    hide Upper, Two, LeftDigit;
  }

  lemma NoUpper(d: nat)
    requires d < 16
    ensures Upper(0, 16 - d) == 0
  {
    hide Two;
  }

  /** The high bits of each digit reappear above. */
  lemma UpLinear(z0: nat, z1: nat, z2: nat, z3: nat, h0: nat, h1: nat, h2: nat, h3: nat, r0: nat, r1: nat, r2: nat, r3: nat)
    requires r0 + h0 * BASE == z0 + h1 && r1 + h1 * BASE == z1 + h2 && r2 + h2 * BASE == z2 + h3 && r3 + h3 * BASE == z3
    ensures r0 * 0x1_0000_0000_0000 + r1 * WORD + r2 * BASE + r3 + h0 * TWO64
      == z0 * 0x1_0000_0000_0000 + z1 * WORD + z2 * BASE + z3
  {
  }

  lemma DigitsUpIs(a: Int64, c: nat) returns (k: nat)
    requires c <= 4
    ensures Unsigned(a) * Power(c) == Unsigned(DigitsUp(a, c)) + k * TWO64
  {
    UnsignedIs(a);
    UnsignedIs(DigitsUp(a, c));
    Powers();
    hide Low, Power;
    if c == 0 { k := 0; }
    else if c == 1 { k := a[0]; }
    else if c == 2 { k := a[0] * BASE + a[1]; }
    else if c == 3 { k := a[0] * WORD + a[1] * BASE + a[2]; }
    else { k := Unsigned(a); }
  }

  lemma UpIsProduct(a: Int64, r: Int64, c: nat, d: nat)
    requires c <= 4 && d < 16 && UpBits(DigitsUp(a, c), r, d)
    ensures Unsigned(r) == Unsigned(a) * Two(16 * c + d) % TWO64
  {
    hide Low, Two, Upper, UpBits;
    var z := DigitsUp(a, c);
    UpSum(z, r, d);
    var k := DigitsUpIs(a, c);
    PowerIsTwo(c);
    TwoSum(16 * c, d);
    UnsignedIs(r);
    Product(Unsigned(a), Power(c), Two(d), Unsigned(z), k);
    Wrapped(Unsigned(r), Upper(z[0], 16 - d) + k * Two(d), Unsigned(a) * (Power(c) * Two(d)));
  }

  lemma Product(u: nat, p: nat, q: nat, z: nat, k: nat)
    requires u * p == z + k * TWO64
    ensures u * (p * q) == z * q + (k * q) * TWO64
  {
    Assoc(u, p, q);
    Distribute(z, k * TWO64, 0, q);
    Swap2(k, TWO64, q);
  }

  /** The loops of both right shifts, with the digit that fills from above. */
  method ShiftDown(a: Int64, c: nat, d: nat, s: nat) returns (r: Int64)
    requires c <= 4 && d < 16 && s < BASE
    ensures s == 0 || s == 0xFFFF ==> DownBits(DigitsDown(a, c, s), r, d, s)
  {
    hide RightDigit, Two, Low, DownBits;
    r := ZERO;
    var i: nat := 0;
    while i < c
      invariant i <= c && IsInt64(r)
      invariant forall k: nat | k < i :: r[k] == s
    {
      r := r[i := s];
      i := i + 1;
    }
    while i < 4
      invariant c <= i <= 4
      invariant forall k: nat | k < i :: r[k] == if k < c then s else RightDigit(if k == c then s else a[k - c - 1], a[k - c], d)
    {
      RightDigitIs(if i == c then s else a[i - c - 1], a[i - c], d);
      r := r[i := RightDigit(if i == c then s else a[i - c - 1], a[i - c], d)];
      i := i + 1;
    }
    if s == 0 || s == 0xFFFF {
      DownBitsOf(a, r, c, d, s);
    }
  }

  lemma DownBitsOf(a: Int64, r: Int64, c: nat, d: nat, s: nat)
    requires c <= 4 && d < 16 && (s == 0 || s == 0xFFFF)
    requires forall i: nat | i < 4 :: r[i] == if i < c then s else RightDigit(if i == c then s else a[i - c - 1], a[i - c], d)
    ensures DownBits(DigitsDown(a, c, s), r, d, s)
  {
    RightDigitIs(s, s, d);
    FillBits(s, d);
    Halves(s, d);
    FillDigit(s, d);
  }

  /** A digit of fill bits shifts to itself. */
  lemma FillDigit(s: nat, d: nat)
    requires d < 16 && (s == 0 || s == 0xFFFF)
    ensures RightDigit(s, s, d) == s
  {
    RightDigitIs(s, s, d);
    FillBits(s, d);
    var p, x := Two(d), RightDigit(s, s, d);
    hide Lower, RightDigit, Two;
    if s != 0 {
      assert x * p == s * p by { Times(p, 1, BASE); }
      Same(x, s, p);
    } else {
      Same(x, 0, p);
    }
  }

  lemma Same(x: nat, y: nat, p: nat)
    requires p > 0 && x * p == y * p
    ensures x == y
  {
    if x < y {
      Strict(x, y, p);
    } else if y < x {
      Strict(y, x, p);
    }
  }

  lemma Strict(x: nat, y: nat, p: nat)
    requires p > 0 && x < y
    ensures x * p < y * p
  {
    AtMost(x + 1, y, p);
    Distribute(x, 1, 0, p);
  }
}
