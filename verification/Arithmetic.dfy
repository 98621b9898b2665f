/** The 64-bit division of src/lib/arithmetic.c, built on an instruction that divides 64 bits by 32
    and traps when the quotient does not fit 32 bits. Words are numbers; what the machine cuts off
    is cut off explicitly. */
module Arithmetic {
  import opened Numbers

  const B := 0x1_0000_0000                  // one more than the largest 32-bit word
  const W := 0x1_0000_0000_0000_0000        // one more than the largest 64-bit word

  // One conditional shift of nlz, by k bits, loses nothing.
  lemma Shifted(x0: nat, n: nat, x: nat, k: nat, c: nat)
    requires x == x0 * Pow2(n) && x * c < B && c == Pow2(k)
    ensures x * c % B == x * c == x0 * Pow2(n + k)
  {
    Pow2Add(n, k);
    assert x0 * (Pow2(n) * c) == x0 * Pow2(n) * c;
  }

  // ---------------------------------------------------------------------------------------
  // The routines.

  // One conditional shift of nlz: by k bits, c == 2^k, when the k leading bits are zero.
  method ShiftIfSmall(ghost x0: nat, n0: nat, y: nat, limit: nat, k: nat, c: nat) returns (n: nat, x: nat)
    requires y == x0 * Pow2(n0) && y < B && c == Pow2(k) && (limit + 1) * c == B
    ensures x == x0 * Pow2(n) && x < B
    ensures if y <= limit then n == n0 + k && x == y * c else n == n0 && x == y
  {
    n, x := n0, y;
    if x <= limit {
      MulMono(x, limit, c);
      Shifted(x0, n, x, k, c);
      n := n + k;
      x := x * c % B;
    }
  }

  /** nlz: the shift that brings the leading one to bit 31. */
  method Nlz(x0: nat) returns (n: nat)
    requires 0 < x0 < B
    ensures n <= 31 && 0x8000_0000 <= x0 * Pow2(n) < B
  {
    Pow2Values();
    var x := x0;
    n, x := ShiftIfSmall(x0, 0, x, 0x0000_FFFF, 16, 0x1_0000);
    n, x := ShiftIfSmall(x0, n, x, 0x00FF_FFFF, 8, 0x100);
    n, x := ShiftIfSmall(x0, n, x, 0x0FFF_FFFF, 4, 16);
    n, x := ShiftIfSmall(x0, n, x, 0x3FFF_FFFF, 2, 4);
    n, x := ShiftIfSmall(x0, n, x, 0x7FFF_FFFF, 1, 2);
  }

  /** divl: it traps unless the quotient fits, so its precondition is that it does. */
  method Divl(n: nat, d: nat) returns (q: nat)
    requires n < W && 0 < d < B && n / d < B
    ensures q == n / d
  {
    q := n / d;
  }

  lemma SmallDivisor(n1: nat, n0: nat, d: nat)
    requires n0 < B && d > 0
    ensures (B * (n1 % d) + n0) / d < B
    ensures (B * (n1 % d) + n0) / d + B * (n1 / d) == (B * n1 + n0) / d
  {
    var a, r := n1 / d, n1 % d;
    MulMono(r, d - 1, B);
    Below(B * r + n0, d, B);
    assert n1 == a * d + r;
    assert B * n1 + n0 == (B * a) * d + (B * r + n0);
    AddMultiple(B * a, d, B * r + n0);
  }

  lemma CancelFactor(a: int, b: int, t: int)
    requires t > 0
    ensures a * t < b * t ==> a < b
    ensures a * t <= b * t ==> a <= b
  {
    if a >= b { MulMono(b, a, t); }
    if a > b { MulMono(b + 1, a, t); }
  }

  lemma TopBits(d: nat, d1: nat, t: nat, p: nat)
    requires d1 == d / B && t > 0 && t * p == B && 0x8000_0000 <= d1 * t < B
    ensures 0x8000_0000 * B <= d * t < W
  {
    MulMono(d1 * B, d, t);
    assert d1 * B * t == d1 * t * B;
    MulMono(0x8000_0000, d1 * t, B);
    CancelFactor(d1, p, t);
    MulMono(d1 + 1, p, t);
    MulMono(d + 1, (d1 + 1) * B, t);
    assert (d1 + 1) * B * t == (d1 + 1) * t * B;
    MulMono((d1 + 1) * t, B, B);
  }

  lemma UpperHalf(x: nat, v: nat)
    requires 0x8000_0000 * B <= x < W && v == x / B
    ensures 0x8000_0000 <= v < B && v * B <= x < v * B + B
  {
    Bounds(x, B);
    Below(x, B, B);
  }

  // d shifted left until its top bit is set, then cut to its upper half.
  lemma Normalised(d: nat, d1: nat, s: nat, v: nat)
    requires d < W && d1 == d / B && s <= 31 && 0x8000_0000 <= d1 * Pow2(s) < B && v == d * Pow2(s) / B
    ensures d * Pow2(s) < W && 0x8000_0000 <= v < B
    ensures v * Pow2(32 - s) <= d < v * Pow2(32 - s) + Pow2(32 - s)
  {
    var t, p := Pow2(s), Pow2(32 - s);
    Pow2Values();
    Pow2Add(s, 32 - s);
    TopBits(d, d1, t, p);
    UpperHalf(d * t, v);
    assert v * B == v * p * t && v * B + B == (v * p + p) * t by { Regroup(v, t, p); }
    CancelFactor(v * p, d, t);
    CancelFactor(d, v * p + p, t);
  }

  lemma LeftSide(n: nat, e: nat, p: nat)
    requires p >= 2 && e <= p - 1
    ensures 4 * (n * e) <= n * (p * p)
  {
    Square(p);
    MulMono(4 * e, p * p, n);
  }

  lemma RightSide(h: nat, p: nat, m: nat, big: nat, d: nat)
    requires m == h * p && m <= big <= d
    ensures h * h * (p * p) <= d * big
  {
    assert h * h * (p * p) == (h * p) * (h * p);
    MulMono(m, d, m);
    MulMono(m, big, d);
  }

  lemma Strictly(n: nat, w: nat, k: nat)
    requires n < w && k > 0
    ensures n * k < w * k
  {
  }

  // The error of dividing by v * p, which is d with its low bits cleared, is less than one.
  lemma SmallError(n: nat, d: nat, v: nat, p: nat)
    requires n < W && p >= 2 && 0x8000_0000 <= v && v * p <= d < v * p + p
    ensures n * (d - v * p) < d * (v * p)
  {
    ghost var h: nat, k: nat := 0x8000_0000, p * p;
    MulMono(h, v, p);
    LeftSide(n, d - v * p, p);
    assert k > 0;
    Strictly(n, W, k);
    RightSide(h, p, h * p, v * p, d);
  }

  lemma Square(p: int)
    ensures 4 * (p - 1) <= p * p
  {
    assert (p - 2) * (p - 2) >= 0;
    assert (p - 2) * (p - 2) == p * p - 4 * p + 4;
  }

  // Dividing by less gives no less.
  lemma SmallerDivisor(n: nat, d: nat, big: nat)
    requires 0 < big <= d
    ensures n / d <= n / big
  {
    var q, t := n / d, n / big;
    Bounds(n, d);
    Bounds(n, big);
    MulMono(big, d, q);
    if t < q { MulMono(t + 1, q, big); }
  }

  /** The estimate n / big is the quotient or one more. */
  lemma Estimate(n: nat, d: nat, big: nat)
    requires 0 < big <= d && n * (d - big) < d * big
    ensures n / d <= n / big <= n / d + 1
  {
    SmallerDivisor(n, d, big);
    Bounds(n, d);
    Above(n, d, big, n / d);
    Below(n, big, n / d + 2);
  }

  lemma Above(n: nat, d: nat, big: nat, q: nat)
    requires 0 < big <= d && n * (d - big) < d * big && n < q * d + d
    ensures n < (q + 2) * big
  {
    assert n * d < (n + d) * big by { assert n * (d - big) == n * d - n * big && (n + d) * big == n * big + d * big; }
    assert (q + 2) * d == q * d + 2 * d;
    MulMono(n + d, (q + 2) * d, big);
    assert (q + 2) * d * big == (q + 2) * big * d;
    CancelFactor(n, (q + 2) * big, d);
  }

  // The two shifts around divl make one division.
  lemma OneDivision(n: nat, v: nat, s: nat)
    requires s <= 31 && v > 0
    ensures v * Pow2(32 - s) > 0 && n / 2 / v / Pow2(31 - s) == n / (v * Pow2(32 - s))
  {
    ThreeDivisions(n, v, Pow2(31 - s));
    assert Pow2(32 - s) == 2 * Pow2(31 - s);
  }

  lemma ThreeDivisions(n: nat, v: nat, h: nat)
    requires v > 0 && h > 0
    ensures v * (2 * h) > 0 && n / 2 / v / h == n / (v * (2 * h))
  {
    Nested(n, 2, v);
    Nested(n, 2 * v, h);
    Regrouped(v, h);
  }

  lemma Regrouped(v: int, h: int)
    ensures 2 * v * h == v * (2 * h)
  {
  }

  lemma NoTrap(n: nat, v: nat)
    requires n < W && 0x8000_0000 <= v
    ensures n / 2 / v < B
  {
    MulMono(0x8000_0000, v, B);
    Below(n / 2, v, B);
  }

  // Everything the second branch of udiv64 needs to know about its estimate.
  lemma EstimateOf(n: nat, d: nat, s: nat, v: nat)
    requires d <= n < W && B <= d && s <= 31 && 0x8000_0000 <= d / B * Pow2(s) < B && v == d * Pow2(s) / B
    ensures d * Pow2(s) < W && 0x8000_0000 <= v < B && n / 2 / v < B
    ensures 1 <= n / d <= n / 2 / v / Pow2(31 - s) <= n / d + 1
  {
    Normalised(d, d / B, s, v);
    NoTrap(n, v);
    var p := Pow2(32 - s);
    SmallError(n, d, v, p);
    OneDivision(n, v, s);
    Estimate(n, d, v * p);
    Floor(d, d, 1);
    AtLeastOne(n, d);
  }

  lemma AtLeastOne(n: nat, d: nat)
    requires 0 < d <= n
    ensures n / d >= 1
  {
    Bounds(n, d);
    if n / d < 1 { MulMono(n / d, 0, d); }
  }

  // The last line of udiv64: the remainder tells which of the two it is, without wrap-around.
  lemma Correction(n: nat, d: nat, q: nat)
    requires d <= n < W && d > 0 && 1 <= n / d <= q <= n / d + 1
    ensures 0 <= (q - 1) * d <= n
    ensures n - (q - 1) * d < d <==> q == n / d + 1
  {
    Bounds(n, d);
    assert (n / d - 1) * d == n / d * d - d;
  }

  lemma NothingCut(x: nat)
    requires x < W && x / B < B
    ensures x % W / B % B == x / B
  {
  }

  // The branch of udiv64 for divisors of more than 32 bits that are not above the dividend.
  method LongUdiv(n: nat, d: nat) returns (q: nat)
    requires B <= d <= n < W
    ensures q == n / d
  {
    var s := Nlz(d / B);
    var x := d * Pow2(s);
    EstimateOf(n, d, s, x / B);
    NothingCut(x);
    var e := Divl(n / 2, x % W / B % B);
    q := Corrected(n, d, e / Pow2(31 - s));
  }

  // The last line of udiv64.
  method Corrected(n: nat, d: nat, q: nat) returns (r: nat)
    requires 0 < d <= n < W && 1 <= n / d <= q <= n / d + 1
    ensures r == n / d
  {
    Correction(n, d, q);
    var rest := n - (q - 1) * d;
    r := if rest % W < d then q - 1 else q;
  }

  // The branch for divisors that fit 32 bits.
  method ShortUdiv(n: nat, d: nat) returns (q: nat)
    requires n < W && 0 < d < B
    ensures q == n / d
  {
    var n1, n0 := n / B, n % B;
    var r, a := n1 % d, n1 / d;
    ShortParts(n, d, n1, n0, r, a);
    var low := Divl(B * r + n0, d);
    q := low + B * a;
  }

  lemma ShortParts(n: nat, d: nat, n1: nat, n0: nat, r: nat, a: nat)
    requires n < W && 0 < d < B && n1 == n / B && n0 == n % B && r == n1 % d && a == n1 / d
    ensures B * r + n0 < W && (B * r + n0) / d < B && (B * r + n0) / d + B * a == n / d
  {
    TwoHalves(n);
    SmallDivisor(n1, n0, d);
    SmallDividend(r, n0, d);
  }

  lemma TwoHalves(n: nat)
    ensures n == B * (n / B) + n % B
  {
  }

  lemma SmallDividend(r: nat, n0: nat, d: nat)
    requires n0 < B && r < d < B
    ensures B * r + n0 < W
  {
  }

  /** udiv64: neither use of divl traps, and the result is the floor of the quotient. */
  method Udiv64(n: nat, d: nat) returns (q: nat)
    requires n < W && 0 < d < W
    ensures q == n / d
  {
    if d / B == 0 {
      q := ShortUdiv(n, d);
    } else if n < d {
      Floor(n, d, 0);
      q := 0;
    } else {
      q := LongUdiv(n, d);
    }
  }

  // ---------------------------------------------------------------------------------------
  // Signed division.

  const MIN := -0x8000_0000_0000_0000

  // A 64-bit word read as a two's complement number.
  function Signed(x: int): int {
    var w := x % W;
    if w < 0x8000_0000_0000_0000 then w else w - W
  }

  // r is n / d rounded toward zero.
  ghost predicate Truncated(n: int, d: int, r: int) {
    var rem := n - r * d;
    && (if d > 0 then -d < rem < d else d < rem < -d)
    && (rem != 0 ==> (rem < 0) == (n < 0))
  }

  lemma SignsRestored(n: int, d: int, a: nat, b: nat)
    requires d != 0 && a == (if n >= 0 then n else -n) && b == (if d >= 0 then d else -d)
    ensures Truncated(n, d, if (n < 0) == (d < 0) then a / b else -(a / b))
  {
    Bounds(a, b);
    var q := a / b;
    assert (-q) * d == -(q * d) && q * (-d) == -(q * d);
  }

  lemma QuotientAtMost(a: nat, b: nat)
    requires b > 0
    ensures a / b <= a
    ensures b >= 2 && a > 0 ==> a / b < a
  {
    Bounds(a, b);
    if b >= 2 { MulMono(2, b, a / b); }
    MulMono(1, b, a / b);
  }

  function Magnitude(n: int): nat {
    if n >= 0 then n else -n
  }

  lemma SignedBack(q: int)
    requires 0 <= q <= -MIN
    ensures Signed(q) == (if q == -MIN then MIN else q) && Signed(-Signed(q)) == -q
  {
    assert q % W == q;
    if 0 < q < -MIN {
      assert -q == (W - q) - W;
      assert (-q) % W == W - q;
    }
  }

  // Only one quotient has no 64-bit form.
  lemma QuotientFits(n: int, d: int, q: nat)
    requires MIN <= n < -MIN && d != 0 && q == Magnitude(n) / Magnitude(d)
    ensures q <= -MIN
    ensures (n < 0) == (d < 0) ==> (q == -MIN <==> n == MIN && d == -1)
  {
    QuotientAtMost(Magnitude(n), Magnitude(d));
  }

  lemma NotTruncated(n: int, d: int)
    requires n == MIN && d == -1
    ensures !Truncated(n, d, MIN)
  {
  }

  /** sdiv64: truncation toward zero, for every pair but the one whose quotient is no 64-bit number. */
  method Sdiv64(n: int, d: int) returns (r: int)
    requires MIN <= n < -MIN && MIN <= d < -MIN && d != 0
    ensures Truncated(n, d, r) <==> !(n == MIN && d == -1)
    ensures n == MIN && d == -1 ==> r == MIN
  {
    hide Truncated, Signed;
    var nAbs := Absolute(n);
    var dAbs := Absolute(d);
    var qAbs := Udiv64(nAbs, dAbs);
    SignedQuotient(n, d, qAbs);
    r := if (n < 0) == (d < 0) then Signed(qAbs) else Signed(-Signed(qAbs));
  }

  // n >= 0 ? n : -n in 64 bits.
  function Absolute(n: int): (a: nat)
    requires MIN <= n < -MIN
    ensures a == Magnitude(n)
  {
    if n >= 0 then n else (-n) % W
  }

  lemma SignedQuotient(n: int, d: int, q: nat)
    requires MIN <= n < -MIN && MIN <= d < -MIN && d != 0 && q == Magnitude(n) / Magnitude(d)
    ensures var r := if (n < 0) == (d < 0) then Signed(q) else Signed(-Signed(q));
      (Truncated(n, d, r) <==> !(n == MIN && d == -1)) && (n == MIN && d == -1 ==> r == MIN)
  {
    hide Truncated, Signed;
    QuotientFits(n, d, q);
    SignedBack(q);
    SignsRestored(n, d, Magnitude(n), Magnitude(d));
    if n == MIN && d == -1 {
      NotTruncated(n, d);
    }
  }
}
