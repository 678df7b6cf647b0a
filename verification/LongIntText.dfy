/** Signed arithmetic, parsing and printing of 64-bit integers (handc/runtime/longint.c). */
module LongIntTexts {
  import opened Options
  import opened LongInts

  // ------------------------------------------------------------------ signed arithmetic

  const MIN64: int := -0x8000_0000_0000_0000

  function Abs(x: int): nat { if x < 0 then -x else x }

  lemma SignedIs(a: Int64)
    ensures MIN64 <= Signed(a) < TWO63 && (NegQ(a) <==> Signed(a) < 0)
    ensures Unsigned(a) == Signed(a) % TWO64 && Unsigned(a) < TWO64
    ensures Unsigned(a) == if Signed(a) < 0 then Signed(a) + TWO64 else Signed(a)
  {
    UnsignedIs(a);
    hide Low;
  }

  /** The signed value of a result known modulo 2^64. */
  lemma SignedOf(r: Int64, x: int)
    requires Unsigned(r) == x % TWO64 && MIN64 <= x < TWO63
    ensures Signed(r) == x
  {
    SignedIs(r);
    hide Unsigned, Signed;
    assert x % TWO64 == if x < 0 then x + TWO64 else x;
  }

  /** What int_64_mul and int_64_div take first: the absolute value, 2^63 included. */
  method Magnitude(a: Int64) returns (m: Int64)
    ensures Unsigned(m) == Abs(Signed(a)) <= TWO63
  {
    SignedIs(a);
    m := a;
    if NegQ(a) {
      m := Neg(a);
    }
  }

  lemma NegMod(u: nat, x: int)
    requires u == x % TWO64
    ensures (TWO64 - u) % TWO64 == (-x) % TWO64
  {
    var k := x / TWO64;
    assert x == k * TWO64 + u;
    if u == 0 {
      assert -x == (-k) * TWO64;
    } else {
      assert -x == (-k - 1) * TWO64 + (TWO64 - u);
    }
  }

  /** int_64_mul: the product modulo 2^64, as a signed number when it fits. */
  method Mul(a: Int64, b: Int64) returns (r: Int64)
    ensures Unsigned(r) == (Signed(a) * Signed(b)) % TWO64
    ensures MIN64 <= Signed(a) * Signed(b) < TWO63 ==> Signed(r) == Signed(a) * Signed(b)
  {
    ghost var x, y := Signed(a), Signed(b);
    SignedIs(a);
    SignedIs(b);
    var m := Magnitude(a);
    var n := Magnitude(b);
    r := UMul(m, n);
    AbsProduct(x, y);
    hide Unsigned, Signed;
    if NegQ(a) != NegQ(b) {
      ghost var u := Unsigned(r);
      r := Neg(r);
      NegMod(u, Abs(x) * Abs(y));
    }
    if MIN64 <= x * y < TWO63 {
      SignedOf(r, x * y);
    }
  }

  lemma AbsProduct(x: int, y: int)
    ensures x * y == if (x < 0) != (y < 0) then -(Abs(x) * Abs(y)) else Abs(x) * Abs(y)
  {
  }

  /** Division rounding toward zero. */
  function Truncated(x: int, y: int): int
    requires y != 0
  {
    if (x < 0) != (y < 0) then -(Abs(x) / Abs(y)) else Abs(x) / Abs(y)
  }

  function Remainder(x: int, y: int): int
    requires y != 0
  {
    if x < 0 then -(Abs(x) % Abs(y)) else Abs(x) % Abs(y)
  }

  lemma TruncatedIs(x: int, y: int)
    requires y != 0
    ensures x == Truncated(x, y) * y + Remainder(x, y) && Abs(Remainder(x, y)) < Abs(y)
    ensures Remainder(x, y) == 0 || (Remainder(x, y) < 0 <==> x < 0)
  {
    Quotient(Abs(x), Abs(y));
    TruncatedAt(x, y, Abs(x) / Abs(y), Abs(x) % Abs(y));
  }

  lemma TruncatedAt(x: int, y: int, q: int, r: int)
    requires Abs(x) == q * Abs(y) + r
    ensures x == (if (x < 0) != (y < 0) then -q else q) * y + if x < 0 then -r else r
  {
    assert (-q) * y == -(q * y) && q * (-y) == -(q * y);
  }

  /** int_64_div, for divisors that need no borrow: the quotient wraps for -2^63 / -1 alone. */
  method Div(a: Int64, b: Int64) returns (q: Int64, r: Int64)
    requires Signed(b) != 0 && NoBorrow(Abs(Signed(b)))
    ensures Unsigned(q) == Truncated(Signed(a), Signed(b)) % TWO64
    ensures Signed(r) == Remainder(Signed(a), Signed(b))
  {
    ghost var x, y := Signed(a), Signed(b);
    SignedIs(a);
    SignedIs(b);
    var m := Magnitude(a);
    var n := Magnitude(b);
    q, r := DivU(m, n);
    hide Unsigned, Signed, DivRun;
    QuotientFits(Abs(x), Abs(y));
    ghost var u, v := Unsigned(q), Unsigned(r);
    if NegQ(a) != NegQ(b) {
      q := Neg(q);
      NegMod(u, u);
    }
    if NegQ(a) {
      r := Neg(r);
      NegMod(v, v);
    }
    SignedOf(r, Remainder(x, y));
  }

  lemma QuotientFits(x: nat, y: nat)
    requires y > 0 && x <= TWO63 && y <= TWO63
    ensures x / y <= TWO63 && x / y == x / y % TWO64 && x % y < TWO63 && x % y == x % y % TWO64
  {
    Quotient(x, y);
    AtMost(1, y, x / y);
    SmallMod(x / y);
    SmallMod(x % y);
  }

  lemma Quotient(x: nat, y: nat)
    requires y > 0
    ensures x == x / y * y + x % y && x % y < y
  {
  }

  lemma SmallMod(x: nat)
    requires x < TWO64
    ensures x % TWO64 == x
  {
  }

  /** The remainder with the sign of the divisor, as R4RS defines modulo. */
  function FloorMod(x: int, y: int): int
    requires y != 0
  {
    if y > 0 then x % y else -((-x) % (-y))
  }

  lemma FloorModIs(x: int, y: int)
    requires y != 0
    ensures exists k: int :: x == k * y + FloorMod(x, y)
    ensures if y > 0 then 0 <= FloorMod(x, y) < y else y < FloorMod(x, y) <= 0
  {
    if y > 0 {
      assert x == x / y * y + FloorMod(x, y);
    } else {
      var k := (-x) / (-y);
      assert -x == k * (-y) + (-x) % (-y);
      assert x == k * y + FloorMod(x, y);
    }
  }

  /** int_64_modulo */
  method Modulo(a: Int64, b: Int64) returns (r: Int64)
    requires Signed(b) != 0 && NoBorrow(Abs(Signed(b)))
    ensures Signed(r) == FloorMod(Signed(a), Signed(b))
  {
    ghost var x, y := Signed(a), Signed(b);
    SignedIs(a);
    SignedIs(b);
    var m := Magnitude(a);
    var n := Magnitude(b);
    var q, rem := DivU(m, n);
    ZeroIs(rem);
    hide Unsigned, Signed, DivRun;
    QuotientFits(Abs(x), Abs(y));
    ghost var v := Unsigned(rem);
    FloorFromAbs(x, y);
    AbsModIs(x, y);
    hide FloorMod, AbsMod;
    if ZeroQ(rem) {
      r := rem;
    } else if NegQ(a) {
      if NegQ(b) {
        r := Neg(rem);
        NegMod(v, v);
      } else {
        r := Sub(b, rem);
      }
    } else if NegQ(b) {
      r := Add(b, rem);
      NegSum(y, v);
    } else {
      r := rem;
    }
    SignedOf(r, FloorMod(x, y));
  }

  lemma NegSum(y: int, v: nat)
    requires MIN64 <= y < 0 && v < TWO64
    ensures (y + TWO64 + v) % TWO64 == (y + v) % TWO64
  {
  }

  function AbsMod(x: int, y: int): int
    requires y != 0
  {
    Abs(x) % Abs(y)
  }

  lemma AbsModIs(x: int, y: int)
    requires y != 0
    ensures AbsMod(x, y) == Abs(x) % Abs(y) < Abs(y) && (x == 0 ==> AbsMod(x, y) == 0)
  {
  }

  lemma FloorFromAbs(x: int, y: int)
    requires y != 0 && MIN64 <= y < TWO63
    ensures var v := AbsMod(x, y);
      && FloorMod(x, y) == (if v == 0 then 0 else if x < 0 then (if y < 0 then -v else y - v) else if y < 0 then y + v else v)
      && MIN64 <= FloorMod(x, y) < TWO63 && v < Abs(y)
  {
    hide FloorMod, AbsMod;
    AbsModIs(x, y);
    FloorModIs(x, y);
    if (x < 0) != (y < 0) && x != 0 {
      OppositeSign(x, y);
    } else {
      SameSign(x, y);
    }
  }

  lemma OppositeSign(x: int, y: int)
    requires y != 0 && ((x > 0 && y < 0) || (x < 0 && y > 0))
    ensures var v := AbsMod(x, y); FloorMod(x, y) == if v == 0 then 0 else if y > 0 then y - v else y + v
  {
    var v, k := Abs(x) % Abs(y), Abs(x) / Abs(y);
    Quotient(Abs(x), Abs(y));
    if x < 0 {
      ModOfNegative(x, y, k, v);
    } else {
      ModOfNegative(-x, -y, k, v);
    }
  }

  lemma SameSign(x: int, y: int)
    requires y != 0 && ((x >= 0 && y > 0) || (x <= 0 && y < 0))
    ensures FloorMod(x, y) == if y > 0 then AbsMod(x, y) else -AbsMod(x, y)
  {
  }

  lemma ModOfNegative(x: int, y: int, k: int, v: int)
    requires y > 0 && x == -(k * y + v) && 0 <= v < y
    ensures x % y == if v == 0 then 0 else y - v
  {
    var q := if v == 0 then -k else -k - 1;
    var r := if v == 0 then 0 else y - v;
    assert (-k) * y == -(k * y) && (-k - 1) * y == -(k * y) - y;
    assert x == q * y + r;
    IntQuotient(x, y, q, r);
  }

  lemma IntQuotient(x: int, y: int, q: int, r: int)
    requires y > 0 && x == q * y + r && 0 <= r < y
    ensures x % y == r
  {
    var p, s := x / y, x % y;
    Euclid(x, y);
    if p > q {
      Gap(p - q, y);
      Split(p, q, y);
    } else if p < q {
      Gap(q - p, y);
      Split(q, p, y);
    }
  }

  lemma Euclid(x: int, y: int)
    requires y > 0
    ensures x == x / y * y + x % y && 0 <= x % y < y
  {
  }

  lemma Gap(d: int, y: int)
    requires d >= 1 && y > 0
    ensures d * y >= y
  {
  }

  lemma Split(p: int, q: int, y: int)
    ensures p * y == q * y + (p - q) * y
  {
  }

  // ------------------------------------------------------------------ numerals

  /** digit_values: what a character stands for, 99 when it is not a digit. */
  function DigitValue(ch: nat): nat {
    if 48 <= ch <= 57 then ch - 48 else if 65 <= ch <= 90 then ch - 55 else if 97 <= ch <= 122 then ch - 87 else 99
  }

  /** value_digits */
  function DigitChar(v: nat): (ch: nat)
    requires v < 36
    ensures DigitValue(ch) == v && (48 <= ch <= 57 || 97 <= ch <= 122) && (ch == 48 <==> v == 0)
  {
    if v < 10 then 48 + v else 87 + v
  }

  /** The number a digit string stands for. */
  function DigitsValue(s: seq<nat>, radix: nat): Option<nat> {
    if s == [] then Some(0)
    else
      var v := DigitsValue(s[..|s| - 1], radix);
      if v.Some? && DigitValue(s[|s| - 1]) < radix then Some(v.value * radix + DigitValue(s[|s| - 1])) else None
  }

  /** A signed digit string: an optional sign and at least one digit. */
  function NumeralValue(s: seq<nat>, radix: nat): Option<int> {
    var digits := if s != [] && (s[0] == 45 || s[0] == 43) then s[1..] else s;
    if digits == [] then None
    else
      match DigitsValue(digits, radix)
      case None => None
      case Some(v) => Some(if s[0] == 45 then -(v as int) else v as int)
  }

  /** The characters of each digit: a decimal digit, or a letter of either case. */
  lemma DigitsAre(ch: nat, v: nat)
    requires v < 36
    ensures DigitValue(ch) == v <==> if v < 10 then ch == 48 + v else ch == 55 + v || ch == 87 + v
  {
  }

  /** What is no digit and no letter is above every radix. */
  lemma NoDigit(ch: nat)
    requires !(48 <= ch <= 57) && !(65 <= ch <= 90) && !(97 <= ch <= 122)
    ensures DigitValue(ch) >= 36
  {
  }

  /** Digits have their places: in front of n digits a string counts radix^n times. */
  lemma {:induction false} DigitsConcat(s: seq<nat>, t: seq<nat>, radix: nat)
    ensures DigitsValue(s + t, radix).Some? <==> DigitsValue(s, radix).Some? && DigitsValue(t, radix).Some?
    ensures DigitsValue(s + t, radix).Some? ==>
      DigitsValue(s + t, radix).value == DigitsValue(s, radix).value * RadixPower(radix, |t|) + DigitsValue(t, radix).value
  {
    if t == [] {
      assert s + t == s;
    } else {
      var n := |t| - 1;
      assert (s + t)[..|s + t| - 1] == s + t[..n] && (s + t)[|s + t| - 1] == t[n];
      DigitsConcat(s, t[..n], radix);
      if DigitsValue(s + t, radix).Some? {
        hide DigitValue;
        Shifted(DigitsValue(s, radix).value, RadixPower(radix, n), DigitsValue(t[..n], radix).value, radix, DigitValue(t[n]));
      }
    }
  }

  function RadixPower(radix: nat, n: nat): nat { if n == 0 then 1 else radix * RadixPower(radix, n - 1) }

  lemma Shifted(x: nat, p: nat, y: nat, radix: nat, d: nat)
    ensures (x * p + y) * radix + d == x * (radix * p) + (y * radix + d)
  {
    assert (x * p) * radix == x * (p * radix);
  }

  // ------------------------------------------------------------------ letter case

  function UpperChar(ch: nat): nat { if 97 <= ch <= 122 then ch - 32 else ch }

  function Upper(s: seq<nat>): seq<nat> { seq(|s|, i requires 0 <= i < |s| => UpperChar(s[i])) }

  lemma {:induction false} UpperDigits(s: seq<nat>, radix: nat)
    ensures DigitsValue(Upper(s), radix) == DigitsValue(s, radix)
  {
    if s != [] {
      var n := |s| - 1;
      assert Upper(s)[..n] == Upper(s[..n]);
      UpperDigits(s[..n], radix);
    }
  }

  /** The case of letters does not change what a numeral stands for. */
  lemma UpperNumeral(s: seq<nat>, radix: nat)
    ensures NumeralValue(Upper(s), radix) == NumeralValue(s, radix)
  {
    var u := Upper(s);
    if s != [] {
      assert u[1..] == Upper(s[1..]);
      UpperDigits(s[1..], radix);
    }
    UpperDigits(s, radix);
  }

  /** A longer digit string has no smaller value. */
  lemma {:induction false} PrefixNoLarger(s: seq<nat>, radix: nat, k: nat)
    requires k <= |s| && radix >= 1 && DigitsValue(s, radix).Some?
    ensures DigitsValue(s[..k], radix).Some? && DigitsValue(s[..k], radix).value <= DigitsValue(s, radix).value
  {
    if k < |s| {
      PrefixNoLarger(s[..|s| - 1], radix, k);
      assert s[..|s| - 1][..k] == s[..k];
      var v := DigitsValue(s[..|s| - 1], radix).value;
      AtMost(1, radix, v);
    } else {
      assert s[..k] == s;
    }
  }

  lemma NextDigit(s: seq<nat>, radix: nat, k: nat)
    requires k < |s| && DigitsValue(s[..k], radix).Some?
    ensures DigitsValue(s[..k + 1], radix) ==
      if DigitValue(s[k]) < radix then Some(DigitsValue(s[..k], radix).value * radix + DigitValue(s[k])) else None
  {
    var t := s[..k + 1];
    assert t[..|t| - 1] == s[..k] && t[|t| - 1] == s[k];
  }

  /** 2^63, the value before the sign that only a negative number may have. */
  function Limit(neg: bool): nat { if neg then TWO63 else TWO63 - 1 }

  /** The check against the precomputed quotient and remainder of 2^63 by the radix is exact. */
  lemma RoomLeft(v: nat, radix: nat, i: nat, neg: bool)
    requires radix >= 2 && i < radix
    ensures v * radix + i <= Limit(neg) <==>
      !(v > TWO63 / radix || (v == TWO63 / radix && (i > TWO63 % radix || (i == TWO63 % radix && !neg))))
  {
    var q, r := TWO63 / radix, TWO63 % radix;
    Quotient(TWO63, radix);
    if v > q {
      AtMost(q + 1, v, radix);
      Distribute(q, 1, 0, radix);
    } else if v < q {
      AtMost(v + 1, q, radix);
      Distribute(v, 1, 0, radix);
    }
  }

  /** An unsigned 16-bit number as an INT_64. */
  function Small(v: nat): (r: Int64)
    requires v < 0x8000
    ensures Unsigned(r) == v && Signed(r) == v
  {
    var r: Int64 := [0, 0, 0, v];
    UnsignedIs(r);
    r
  }

  class NumberReader {
    var radixCache: nat
    var preq: Int64
    var prem: nat

    /** The cached quotient and remainder belong to the cached radix. */
    ghost predicate Valid()
      reads this
    {
      radixCache == 0 || (2 <= radixCache <= 36 && Unsigned(preq) == TWO63 / radixCache && prem == TWO63 % radixCache)
    }

    constructor ()
      ensures Valid()
    {
      radixCache, preq, prem := 0, ZERO, 0;
    }

    /** The first part of string_to_int_64: after it the cache is never stale. */
    method FillCache(radix: nat)
      requires Valid() && 2 <= radix <= 36
      modifies this
      ensures Valid() && radixCache == radix
    {
      hide Unsigned, Signed, DivRun;
      if radixCache != radix {
        var top: Int64 := [0x8000, 0, 0, 0];
        TopIs(top);
        var q, r := DivU(top, Small(radix));
        LowDigit(r, radix);
        preq, prem, radixCache := q, r[2] * BASE + r[3], radix;
      }
    }

    /** string_to_int_64 accepts exactly the signed digit strings in range, and returns their value. */
    method Parse(str: seq<nat>, radix: nat) returns (ok: bool, v: Int64)
      requires Valid() && 2 <= radix <= 36
      modifies this
      ensures Valid()
      ensures ok <==> NumeralValue(str, radix).Some? && MIN64 <= NumeralValue(str, radix).value < TWO63
      ensures ok ==> NumeralValue(str, radix) == Some(Signed(v))
    {
      hide Unsigned, Signed, DigitsValue, DigitValue;
      v := ZERO;
      FillCache(radix);
      var neg := false;
      var s := str;
      if str != [] && str[0] == 45 {
        s, neg := str[1..], true;
      } else if str != [] && str[0] == 43 {
        s := str[1..];
      }
      if s == [] {
        return false, ZERO;
      }
      var accum: Int64 := ZERO;
      ZeroValue();
      NoDigits(s, radix);
      for k := 0 to |s|
        invariant Valid() && radixCache == radix
        invariant DigitsValue(s[..k], radix) == Some(Unsigned(accum)) && Unsigned(accum) <= Limit(neg)
      {
        var i := DigitValue(s[k]);
        NextDigit(s, radix, k);
        if i >= radix {
          NotDigits(s, radix, k + 1);
          return false, ZERO;
        }
        RoomLeft(Unsigned(accum), radix, i, neg);
        if Cmp(accum, preq) > 0 || (Cmp(accum, preq) == 0 && (i > prem || (i == prem && !neg))) {
          TooLarge(s, radix, k + 1, neg);
          return false, ZERO;
        }
        var p := UMul(accum, Small(radix));
        var n := Add(p, Small(i));
        Accumulated(Unsigned(accum), radix, i, Limit(neg));
        if Cmp(accum, n) > 0 {
          NoSmaller(Unsigned(accum), radix, i);
        }
        accum := n;
      }
      assert s[..|s|] == s;
      v := accum;
      if neg {
        v := Neg(accum);
      }
      FinalValue(accum, v, neg);
      ok := true;
    }
  }

  lemma TopIs(top: Int64)
    requires top == [0x8000, 0, 0, 0]
    ensures Unsigned(top) == TWO63
  {
    UnsignedIs(top);
  }

  lemma LowDigit(r: Int64, radix: nat)
    requires Unsigned(r) < radix <= 36
    ensures r[2] * BASE + r[3] == Unsigned(r)
  {
    UnsignedIs(r);
  }

  lemma ZeroValue()
    ensures Unsigned(ZERO) == 0
  {
    UnsignedIs(ZERO);
  }

  lemma NoDigits(s: seq<nat>, radix: nat)
    ensures DigitsValue(s[..0], radix) == Some(0)
  {
  }

  lemma NotDigits(s: seq<nat>, radix: nat, k: nat)
    requires k <= |s| && radix >= 1 && DigitsValue(s[..k], radix).None?
    ensures DigitsValue(s, radix).None?
  {
    if DigitsValue(s, radix).Some? { PrefixNoLarger(s, radix, k); }
  }

  lemma TooLarge(s: seq<nat>, radix: nat, k: nat, neg: bool)
    requires k <= |s| && radix >= 1 && DigitsValue(s[..k], radix).Some? && DigitsValue(s[..k], radix).value > Limit(neg)
    ensures DigitsValue(s, radix).Some? ==> DigitsValue(s, radix).value > Limit(neg)
  {
    if DigitsValue(s, radix).Some? { PrefixNoLarger(s, radix, k); }
  }

  /** Nothing wraps while the value stays in range. */
  lemma Accumulated(v: nat, radix: nat, i: nat, limit: nat)
    requires v * radix + i <= limit <= TWO63
    ensures (v * radix % TWO64 + i) % TWO64 == v * radix + i
  {
    var p := v * radix;
    SmallMod(p);
    SmallMod(p + i);
  }

  lemma NoSmaller(v: nat, radix: nat, i: nat)
    requires radix >= 1
    ensures v <= v * radix + i
  {
    AtMost(1, radix, v);
  }

  lemma FinalValue(accum: Int64, v: Int64, neg: bool)
    requires Unsigned(accum) <= Limit(neg)
    requires if neg then Unsigned(v) == (TWO64 - Unsigned(accum)) % TWO64 else v == accum
    ensures Signed(v) == if neg then -(Unsigned(accum) as int) else Unsigned(accum)
  {
    SignedIs(v);
    hide Unsigned, Signed;
    var u := Unsigned(accum);
    if neg {
      assert (TWO64 - u) % TWO64 == if u == 0 then 0 else TWO64 - u;
    }
  }

  // ------------------------------------------------------------------ printing

  function Render(n: nat, radix: nat): (s: seq<nat>)
    requires 2 <= radix <= 36
    ensures forall ch | ch in s :: 48 <= ch <= 57 || 97 <= ch <= 122
    ensures s == [] <==> n == 0
    ensures n > 0 ==> s[0] != 48
  {
    if n == 0 then [] else Render(n / radix, radix) + [DigitChar(n % radix)]
  }

  /** What int_64_to_string writes. */
  function Numeral(v: int, radix: nat): seq<nat>
    requires 2 <= radix <= 36
  {
    if v == 0 then [48] else if v < 0 then [45] + Render(Abs(v), radix) else Render(Abs(v), radix)
  }

  lemma {:induction false} RenderValue(n: nat, radix: nat)
    requires 2 <= radix <= 36
    ensures DigitsValue(Render(n, radix), radix) == Some(n)
  {
    if n > 0 {
      SmallerQuotient(n, radix);
      RenderValue(n / radix, radix);
      Quotient(n, radix);
      OneMoreDigit(Render(n / radix, radix), DigitChar(n % radix), radix);
      hide DigitsValue;
    }
  }

  lemma OneMoreDigit(s: seq<nat>, ch: nat, radix: nat)
    requires DigitsValue(s, radix).Some? && DigitValue(ch) < radix
    ensures DigitsValue(s + [ch], radix) == Some(DigitsValue(s, radix).value * radix + DigitValue(ch))
  {
    assert (s + [ch])[..|s|] == s;
  }

  /** Reading inverts printing, for every radix from 2 to 36 (section 6.5.6 of R4RS). */
  lemma NumeralRoundTrip(v: int, radix: nat)
    requires 2 <= radix <= 36
    ensures NumeralValue(Numeral(v, radix), radix) == Some(v)
  {
    var s, t := Numeral(v, radix), Render(Abs(v), radix);
    RenderValue(Abs(v), radix);
    OneDigit(48, radix);
    hide Render, DigitsValue;
    if v < 0 {
      assert s == [45] + t && s[1..] == t && t != [];
    } else if v > 0 {
      assert s == t && s[0] in t;
    }
  }

  /** Either letter case is read: the upper-case numeral of an integer gives it back too. */
  lemma UpperRoundTrip(v: int, radix: nat)
    requires 2 <= radix <= 36
    ensures NumeralValue(Upper(Numeral(v, radix)), radix) == Some(v)
  {
    NumeralRoundTrip(v, radix);
    UpperNumeral(Numeral(v, radix), radix);
  }

  lemma OneDigit(ch: nat, radix: nat)
    ensures DigitsValue([ch], radix) == if DigitValue(ch) < radix then Some(DigitValue(ch)) else None
  {
    assert [ch][..0] == [];
    assert [ch][|[ch]| - 1] == ch;
  }

  lemma TwoDigits(a: nat, b: nat, radix: nat)
    requires DigitValue(a) < radix && DigitValue(b) < radix
    ensures DigitsValue([a, b], radix) == Some(DigitValue(a) * radix + DigitValue(b))
  {
    assert [a, b][..1] == [a];
    OneDigit(a, radix);
  }

  /** "A", "-FF" and "+fF" in radix 16, "A" in radix 10, and "-" alone. */
  method ReadLetters(r: NumberReader) returns (a: Int64, b: Int64, c: Int64, decimal: bool, sign: bool)
    requires r.Valid()
    modifies r
    ensures r.Valid()
    ensures Signed(a) == 10 && Signed(b) == -255 && Signed(c) == 255 && !decimal && !sign
  {
    hide Unsigned, Signed;
    OneDigit(65, 16);
    OneDigit(65, 10);
    TwoDigits(70, 70, 16);
    TwoDigits(102, 70, 16);
    assert [45, 70, 70][1..] == [70, 70] && [43, 102, 70][1..] == [102, 70];
    var ok;
    ok, a := r.Parse([65], 16);
    ok, b := r.Parse([45, 70, 70], 16);
    ok, c := r.Parse([43, 102, 70], 16);
    var d;
    decimal, d := r.Parse([65], 10);
    sign, d := r.Parse([45], 10);
  }

  /** int_64_to_string fills its buffer from the right. */
  method ToString(value: Int64, radix: nat) returns (s: seq<nat>)
    requires 2 <= radix <= 36
    ensures s == Numeral(Signed(value), radix)
  {
    hide Unsigned, Signed, DivRun, Render;
    ghost var v := Signed(value);
    SignedIs(value);
    var neg := NegQ(value);
    var rest := Magnitude(value);
    ZeroIs(rest);
    if ZeroQ(rest) {
      return [48];
    }
    s := [];
    RenderZero(radix);
    while !ZeroQ(rest)
      invariant Unsigned(rest) <= TWO63
      invariant Render(Abs(v), radix) == Render(Unsigned(rest), radix) + s
      decreases Unsigned(rest)
    {
      ZeroIs(rest);
      var q, r := DivU(rest, Small(radix));
      LowDigit(r, radix);
      RenderNext(Unsigned(rest), radix);
      s := [DigitChar(r[2] * BASE + r[3])] + s;
      rest := q;
    }
    ZeroIs(rest);
    if neg {
      s := [45] + s;
    }
  }

  lemma RenderZero(radix: nat)
    requires 2 <= radix <= 36
    ensures Render(0, radix) == []
  {
  }

  lemma RenderNext(n: nat, radix: nat)
    requires 2 <= radix <= 36 && n > 0
    ensures Render(n, radix) == Render(n / radix, radix) + [DigitChar(n % radix)] && n / radix < n
  {
    SmallerQuotient(n, radix);
  }

  lemma SmallerQuotient(n: nat, radix: nat)
    requires radix >= 2 && n > 0
    ensures n / radix < n
  {
    Quotient(n, radix);
    AtMost(2, radix, n / radix);
  }
}
