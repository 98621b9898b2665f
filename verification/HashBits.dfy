/** The bit tricks of src/lib/kernel/hash.c, on numbers: masking by a power of two and turning off
    the lowest bit. */
module HashBits {
  import opened Numbers

  ghost predicate IsPow2(n: nat) {
    exists k: nat :: n == Pow2(k)
  }

  /** Bitwise and. */
  function And(x: nat, y: nat): nat {
    if x == 0 || y == 0 then 0 else 2 * And(x / 2, y / 2) + (if x % 2 == 1 && y % 2 == 1 then 1 else 0)
  }

  /** Masking by 2^k - 1 is the remainder. */
  lemma {:induction false} MaskIsRemainder(x: nat, k: nat)
    ensures And(x, Pow2(k) - 1) == x % Pow2(k)
    decreases k
  {
    if k > 0 {
      MaskIsRemainder(x / 2, k - 1);
      HalfMask(Pow2(k - 1));
      HalfRemainder(x, Pow2(k - 1));
    }
  }

  lemma HalfMask(p: nat)
    requires p > 0
    ensures (2 * p - 1) / 2 == p - 1 && (2 * p - 1) % 2 == 1
  {
  }

  lemma HalfRemainder(x: nat, p: nat)
    requires p > 0
    ensures x % (2 * p) == 2 * (x / 2 % p) + x % 2
  {
    var q, r := x / 2 / p, x / 2 % p;
    assert x / 2 == p * q + r;
    assert x == 2 * p * q + (2 * r + x % 2);
    Remainder(x, 2 * p, q, 2 * r + x % 2);
  }

  lemma Remainder(x: nat, m: nat, q: nat, r: nat)
    requires m > 0 && x == m * q + r && r < m
    ensures x % m == r
  {
    Floor(x, m, q);
  }

  /** turn_off_least_1bit. */
  function TurnOff(x: nat): nat
    requires x > 0
  {
    And(x, x - 1)
  }

  /** is_power_of_2. */
  predicate IsPowerOf2(x: nat) {
    x != 0 && TurnOff(x) == 0
  }

  lemma AndSelf(x: nat)
    ensures And(x, x) == x
  {
  }

  // Turning off the lowest one bit in terms of halves.
  lemma TurnOffHalves(x: nat)
    requires x > 0
    ensures x % 2 == 1 ==> TurnOff(x) == x - 1
    ensures x % 2 == 0 ==> TurnOff(x) == 2 * TurnOff(x / 2)
  {
    if x % 2 == 1 {
      assert (x - 1) / 2 == x / 2 && (x - 1) % 2 == 0;
      AndSelf(x / 2);
    } else {
      assert (x - 1) / 2 == x / 2 - 1;
    }
  }

  // Both bounds on the way down to the highest one bit.
  lemma {:induction false} TurnOffKeepsTop(x: nat, k: nat)
    requires Pow2(k) <= x < 2 * Pow2(k)
    ensures TurnOff(x) < x
    ensures TurnOff(x) == 0 <==> x == Pow2(k)
    ensures TurnOff(x) != 0 ==> Pow2(k) <= TurnOff(x)
    decreases k
  {
    TurnOffHalves(x);
    if x % 2 == 0 {
      TurnOffKeepsTop(x / 2, k - 1);
    } else if k > 0 {
      assert Pow2(k) == 2 * Pow2(k - 1);
    }
  }

  lemma {:induction false} TopBit(x: nat) returns (k: nat)
    requires x > 0
    ensures Pow2(k) <= x < 2 * Pow2(k)
  {
    if x == 1 {
      k := 0;
    } else {
      k := TopBit(x / 2);
      k := k + 1;
    }
  }

  /** is_power_of_2 tells powers of two. */
  lemma PowerOf2(x: nat)
    ensures IsPowerOf2(x) <==> IsPow2(x)
  {
    if x > 0 {
      var k := TopBit(x);
      TurnOffKeepsTop(x, k);
      if IsPow2(x) {
        var j: nat :| x == Pow2(j);
        TurnOffKeepsTop(x, j);
      }
    }
  }

  /** The loop in rehash: the greatest power of two that is not above n0. */
  method RoundDown(n0: nat) returns (n: nat)
    requires n0 > 0
    ensures IsPow2(n) && n <= n0 < 2 * n
  {
    n := n0;
    ghost var k := TopBit(n0);
    while !IsPowerOf2(n)
      invariant 0 < n <= n0 && Pow2(k) <= n && n0 < 2 * Pow2(k)
      decreases n
    {
      TurnOffKeepsTop(n, k);
      n := TurnOff(n);
    }
    TurnOffKeepsTop(n, k);
  }
}
