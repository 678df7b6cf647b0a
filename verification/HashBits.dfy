/** Arithmetic on the bits of a hash: a directory of 2^d slots is indexed by the low d bits, and a
    bucket with b bits by the low b of them. */
module HashBits {

  function Pow2(n: nat): (p: nat)
    ensures p > 0
  {
    if n == 0 then 1 else 2 * Pow2(n - 1)
  }

  ghost predicate Congruent(i: nat, j: nat, bits: nat) {
    i % Pow2(bits) == j % Pow2(bits)
  }

  function Bit(h: nat, b: nat): nat { h / Pow2(b) % 2 }

  lemma UniqueQuotient(a: nat, c: nat, q: nat, r: nat, p: nat)
    requires a * p + c == q * p + r && c < p && r < p
    ensures a == q && c == r
  {
    if a < q {
      Apart(a, q, p);
    } else if q < a {
      Apart(q, a, p);
    }
  }

  lemma Apart(a: nat, q: nat, p: nat)
    requires a < q
    ensures a * p + p <= q * p
  {
    assert q * p == a * p + (q - a) * p;
    Multiple(q - a, p);
  }

  lemma Multiple(n: nat, p: nat)
    requires n > 0
    ensures n * p >= p
  {
  }

  lemma DivMod(q: nat, p: nat, r: nat)
    requires r < p
    ensures (q * p + r) / p == q && (q * p + r) % p == r
  {
    var t := q * p + r;
    DivIs(t, p);
    UniqueQuotient(t / p, t % p, q, r, p);
  }

  lemma DivIs(t: nat, p: nat)
    requires p > 0
    ensures t == t / p * p + t % p && t % p < p
  {
  }

  lemma Pow2Sum(a: nat, b: nat)
    ensures Pow2(a + b) == Pow2(a) * Pow2(b)
  {
    if a > 0 {
      Pow2Sum(a - 1, b);
      Twice(Pow2(a - 1), Pow2(b));
    }
  }

  lemma Twice(m: nat, n: nat)
    ensures 2 * m * n == 2 * (m * n)
  {
  }

  lemma ModOfMod(h: nat, p: nat, n: nat)
    requires p > 0 && n > 0
    ensures p * n > 0 && h % (p * n) % p == h % p
  {
    Multiple(n, p);
    var q, r := h / (p * n), h % (p * n);
    DivIs(h, p * n);
    DivIs(r, p);
    Regroup(q, p, n, r / p);
    DivMod(q * n + r / p, p, r % p);
  }

  lemma Regroup(q: nat, p: nat, n: nat, m: nat)
    ensures q * (p * n) + m * p == (q * n + m) * p
  {
    assert q * (p * n) == (q * n) * p;
  }

  /** A directory index keeps the low bits of the hash. */
  lemma IndexCongruent(h: nat, b: nat, d: nat)
    requires b <= d
    ensures Congruent(h % Pow2(d), h, b) && Congruent(h, h % Pow2(d), b)
  {
    Pow2Sum(b, d - b);
    ModOfMod(h, Pow2(b), Pow2(d - b));
  }

  lemma LowBits(h: nat, b: nat)
    ensures h % Pow2(b + 1) == h % Pow2(b) + Bit(h, b) * Pow2(b)
  {
    LowPart(h, Pow2(b));
  }

  lemma LowPart(h: nat, p: nat)
    requires p > 0
    ensures h % (2 * p) == h % p + h / p % 2 * p
  {
    var q := h / p;
    DivIs(h, p);
    DivIs(q, 2);
    Halve(q / 2, q % 2, p);
    DivMod(q / 2, 2 * p, q % 2 * p + h % p);
  }

  lemma Halve(m: nat, r: nat, p: nat)
    requires r < 2
    ensures (m * 2 + r) * p == m * (2 * p) + r * p && r * p <= p
  {
    assert (m * 2) * p == m * (2 * p);
  }

  /** One more bit tells the two halves of a split apart. */
  lemma OneMoreBit(i: nat, j: nat, b: nat)
    ensures Congruent(i, j, b + 1) <==> Congruent(i, j, b) && Bit(i, b) == Bit(j, b)
  {
    LowBits(i, b);
    LowBits(j, b);
    var p := Pow2(b);
    assert i % p < p && j % p < p;
    assert Bit(i, b) == 0 || Bit(i, b) == 1;
    assert Bit(j, b) == 0 || Bit(j, b) == 1;
  }
}
