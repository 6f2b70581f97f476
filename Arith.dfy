/** Integer facts shared by the bit-level modules: powers of two and the
    uniqueness of quotient and remainder. */
module Arith {
  /** 2 to the power k. */
  function Pow2(k: nat): (r: nat)
    ensures r >= 1
  {
    if k == 0 then 1 else 2 * Pow2(k - 1)
  }

  lemma MulAtLeast(d: nat, x: int)
    requires x >= 1
    ensures d * x >= d
  {
  }

  /** Quotient and remainder are the only pair with v == d * q + r, r < d. */
  lemma DivModUnique(v: int, d: nat, q: int, r: nat)
    requires d >= 1 && r < d && v == d * q + r
    ensures v / d == q && v % d == r
  {
    var q0, r0 := v / d, v % d;
    assert d * q0 + r0 == d * q + r;
    if q0 > q {
      MulAtLeast(d, q0 - q);
    } else if q0 < q {
      MulAtLeast(d, q - q0);
    }
  }

  /** The quotient of naturals is a natural. */
  lemma DivNonNeg(a: nat, d: nat)
    requires d >= 1
    ensures a / d >= 0
  {
  }

  /** Multiples of d stay multiples of d one step of d up or down. */
  lemma AlignedStep(a: nat, d: nat)
    requires d >= 1 && a % d == 0
    ensures (a + d) % d == 0
    ensures a >= d ==> (a - d) % d == 0
  {
    var q := a / d;
    assert a == d * q;
    Distrib(d, q, 1);
    DivModUnique(a + d, d, q + 1, 0);
    if a >= d {
      Distrib(d, q - 1, 1);
      DivModUnique(a - d, d, q - 1, 0);
    }
  }

  /** Dividing by 2p is halving and then dividing by p. */
  lemma ModHalf(v: nat, p: nat)
    requires p >= 1
    ensures v % (2 * p) == v % 2 + 2 * ((v / 2) % p)
    ensures v / 2 / p == v / (2 * p)
  {
    var q, r := (v / 2) / p, (v / 2) % p;
    assert v / 2 == p * q + r;
    assert v == (2 * p) * q + (v % 2 + 2 * r);
    DivModUnique(v, 2 * p, q, v % 2 + 2 * r);
  }

  lemma {:induction false} Pow2Add(a: nat, b: nat)
    ensures Pow2(a + b) == Pow2(a) * Pow2(b)
  {
    if a > 0 {
      Pow2Add(a - 1, b);
    }
  }

  lemma MulMono(a: nat, x: nat, y: nat)
    requires x <= y
    ensures a * x <= a * y
  {
  }

  lemma Distrib(a: int, x: int, y: int)
    ensures a * (x + y) == a * x + a * y
  {
  }

  lemma Assoc(a: int, b: int, c: int)
    ensures a * (b * c) == (a * b) * c
  {
  }

  /** Dividing by a and then by b is dividing by a * b. */
  lemma DivDiv(x: nat, a: nat, b: nat)
    requires a >= 1 && b >= 1
    ensures x / a / b == x / (a * b)
  {
    var q1, r1 := x / a, x % a;
    var q2, r2 := q1 / b, q1 % b;
    assert x == a * q1 + r1;
    assert q1 == b * q2 + r2;
    Distrib(a, b * q2, r2);
    Assoc(a, b, q2);
    MulMono(a, r2, b - 1);
    Distrib(a, b - 1, 1);
    DivModUnique(x, a * b, q2, a * r2 + r1);
  }

  /** Pow2 is monotone. */
  lemma {:induction false} Pow2Mono(i: nat, j: nat)
    requires i <= j
    ensures Pow2(i) <= Pow2(j)
  {
    if i < j {
      Pow2Mono(i, j - 1);
    }
  }

  lemma Pow2Of31()
    ensures Pow2(31) == 0x8000_0000
  {
    assert Pow2(1) == 2;
    Pow2Add(1, 1);
    Pow2Add(2, 2);
    Pow2Add(4, 4);
    Pow2Add(8, 8);
    Pow2Add(8, 4);
    Pow2Add(12, 2);
    Pow2Add(14, 1);
    Pow2Add(16, 15);
  }
  /** The quotient of naturals is at most the dividend and brackets it. */
  lemma DivBounds(l: nat, r: nat)
    requires r >= 1
    ensures l / r <= l
    ensures (l / r) * r <= l < (l / r) * r + r
  {
    var q := l / r;
    assert l == r * q + l % r;
    MulAtLeast(q, r);
  }

  /** A quotient equal to a positive dividend means a divisor of 1. */
  lemma DivSelf(x: nat, d: nat)
    requires d >= 1 && x >= 1 && x / d == x
    ensures d == 1
  {
    DivBounds(x, d);
    if d >= 2 {
      MulMono(x, 2, d);
    }
  }

  /** Floor division of a negative value, through a natural quotient. */
  lemma NegDiv(s: int, d: nat)
    requires d >= 1 && s < 0
    ensures s / d == -((-s - 1) / d) - 1
    ensures s <= s / d < 0
  {
    var t: nat := -s - 1;
    var a, b := t / d, t % d;
    assert t == d * a + b;
    Distrib(d, -a, -1);
    DivModUnique(s, d, -a - 1, d - b - 1);
    DivBounds(t, d);
  }

  /** Scaling a quotient-remainder split by P scales the remainder. */
  lemma MulModSplit(q: nat, r: nat, m: nat, p: nat)
    requires r < m && p >= 1
    ensures ((m * q + r) * p) % (m * p) == r * p
    ensures ((m * q + r) * p) / (m * p) == q
  {
    Distrib(p, m * q, r);
    Assoc(p, m, q);
    MulMono(p, r, m - 1);
    Distrib(p, m - 1, 1);
    DivModUnique((m * q + r) * p, m * p, q, r * p);
  }
  /** Multiplying by p and reducing modulo m * p keeps v modulo m, scaled. */
  lemma MulMod(v: nat, m: nat, p: nat)
    requires m >= 1 && p >= 1
    ensures (v * p) % (m * p) == (v % m) * p
  {
    var q, r := v / m, v % m;
    assert v == m * q + r;
    MulModSplit(q, r, m, p);
  }

  /** A value below m * p divided by m is below p. */
  lemma DivBelow(v: nat, m: nat, p: nat)
    requires m >= 1 && v < m * p
    ensures v / m < p
  {
    var q := v / m;
    assert v == m * q + v % m;
    if q >= p {
      MulMono(m, p, q);
    }
  }

  /** The high part of v (above m) and the low part moved up by p fit side
      by side below m * p. */
  lemma SwapFits(v: nat, m: nat, p: nat)
    requires m >= 1 && p >= 1 && v < m * p
    ensures v / m < p
    ensures (v % m) * p + v / m < m * p
  {
    DivBelow(v, m, p);
    MulMono(p, v % m, m - 1);
    Distrib(p, m - 1, 1);
  }

  /** Swapping the parts at m and then at p gives v back. */
  lemma SwapInverse(v: nat, m: nat, p: nat)
    requires m >= 1 && p >= 1 && v < m * p
    ensures ((v % m) * p + v / m) % p * m + ((v % m) * p + v / m) / p == v
  {
    var lo, hi := v % m, v / m;
    SwapFits(v, m, p);
    DivModUnique(lo * p + hi, p, lo, hi);
    assert v == m * hi + lo;
  }

  /** Floor division by d >= 1 keeps a value in [-p, p) and keeps its sign. */
  lemma FloorDivRange(s: int, d: nat, p: nat)
    requires d >= 1 && 0 <= s + p && s < p
    ensures 0 <= s / d + p && s / d < p
    ensures s / d < 0 <==> s < 0
  {
    if s < 0 {
      NegDiv(s, d);
    } else {
      DivBounds(s, d);
    }
  }
  /** Reducing modulo p * t and then modulo p is reducing modulo p. */
  lemma ModMod(s: int, p: nat, t: nat)
    requires p >= 1 && t >= 1
    ensures (s % (p * t)) % p == s % p
  {
    var q, r := s / (p * t), s % (p * t);
    assert s == (p * t) * q + r;
    assert r == p * (r / p) + r % p;
    Assoc(p, t, q);
    Distrib(p, t * q, r / p);
    DivModUnique(s, p, t * q + r / p, r % p);
  }
  /** Subtracting a multiple of d keeps the remainder modulo d. */
  lemma ModSubMultiple(v: int, d: nat, t: int)
    requires d >= 1
    ensures (v - d * t) % d == v % d
  {
    var q, r := v / d, v % d;
    assert v == d * q + r;
    Distrib(d, q, -t);
    DivModUnique(v - d * t, d, q - t, r);
  }

  /** A remainder of zero is an exact division. */
  lemma ExactDiv(s: int, d: nat)
    requires d >= 1
    ensures (s / d) * d == s <==> s % d == 0
  {
    assert s == d * (s / d) + s % d;
  }
}
