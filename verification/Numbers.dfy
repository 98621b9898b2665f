/** Quotients and powers of two. */
module Numbers {

  function Pow2(k: nat): (r: nat)
    ensures r > 0
  {
    if k == 0 then 1 else 2 * Pow2(k - 1)
  }

  // ---------------------------------------------------------------------------------------
  // Quotients.

  lemma MulMono(a: int, b: int, c: int)
    requires a <= b && c >= 0
    ensures a * c <= b * c
  {
  }

  /** A quotient is the only number whose multiple is the last one not above. */
  lemma Floor(a: int, b: int, q: int)
    requires b > 0 && q * b <= a < q * b + b
    ensures a / b == q
  {
    var t := a / b;
    assert t * b <= a < t * b + b;
    if t > q { MulMono(q + 1, t, b); }
    if t < q { MulMono(t + 1, q, b); }
  }

  lemma Bounds(a: int, b: int)
    requires b > 0
    ensures a / b * b <= a < a / b * b + b
  {
  }

  lemma Below(a: int, b: int, c: int)
    requires b > 0 && a < c * b
    ensures a / b < c
  {
    Bounds(a, b);
    if a / b >= c { MulMono(c, a / b, b); }
  }

  lemma DivMono(a: int, b: int, c: int)
    requires a <= b && c > 0
    ensures a / c <= b / c
  {
    Bounds(a, c);
    Bounds(b, c);
    if a / c > b / c { MulMono(b / c + 1, a / c, c); }
  }

  lemma AddMultiple(k: int, d: int, m: int)
    requires d > 0
    ensures (k * d + m) / d == k + m / d
  {
    Bounds(m, d);
    assert (k + m / d) * d == k * d + m / d * d;
    Floor(k * d + m, d, k + m / d);
  }

  lemma Nested(a: nat, b: nat, c: nat)
    requires b > 0 && c > 0
    ensures b * c > 0 && a / b / c == a / (b * c)
  {
    var p := a / b;
    var q := p / c;
    Bounds(a, b);
    Bounds(p, c);
    MulMono(q * c, p, b);
    MulMono(p + 1, q * c + c, b);
    assert q * c * b == q * (b * c) && (q * c + c) * b == q * (b * c) + b * c by { Regroup(q, b, c); }
    Floor(a, b * c, q);
  }

  lemma Regroup(q: int, b: int, c: int)
    ensures q * c * b == q * (b * c) && (q * c + c) * b == q * (b * c) + b * c
  {
    assert q * c * b == q * (c * b);
  }

  // ---------------------------------------------------------------------------------------
  // Powers of two.

  lemma {:induction false} Pow2Add(a: nat, b: nat)
    ensures Pow2(a + b) == Pow2(a) * Pow2(b)
  {
    if a > 0 {
      Pow2Add(a - 1, b);
      Double(Pow2(a - 1), Pow2(b));
    }
  }

  lemma Double(x: int, y: int)
    ensures 2 * (x * y) == (2 * x) * y
  {
  }

  lemma Pow2Values()
    ensures Pow2(0) == 1 && Pow2(1) == 2 && Pow2(2) == 4 && Pow2(4) == 16 && Pow2(8) == 0x100 && Pow2(16) == 0x1_0000
    ensures Pow2(31) == 0x8000_0000 && Pow2(32) == 0x1_0000_0000
  {
    Pow2Add(1, 1);
    Pow2Add(2, 2);
    Pow2Add(4, 4);
    Pow2Add(8, 8);
    Pow2Add(16, 16);
    assert Pow2(32) == 2 * Pow2(31);
  }
}
