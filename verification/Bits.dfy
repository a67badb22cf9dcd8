/** Bitwise conjunction on natural numbers, the power-of-two test and masking. */
module Bits {

  function And(a: nat, b: nat): nat {
    if a == 0 || b == 0 then 0
    else (if a % 2 == 1 && b % 2 == 1 then 1 else 0) + 2 * And(a / 2, b / 2)
  }

  function Pow2(k: nat): (p: nat)
    ensures p > 0
  {
    if k == 0 then 1 else 2 * Pow2(k - 1)
  }

  lemma MultipleSpread(d: int, k: int)
    requires d > 0
    ensures k >= 1 ==> d * k >= d
    ensures k <= -1 ==> d * k <= -d
  {
  }

  lemma ModIs(x: int, d: int, q: int, r: int)
    requires 0 <= r < d && x == d * q + r
    ensures x % d == r
  {
    assert d * (q - x / d) == x % d - r;
    MultipleSpread(d, q - x / d);
  }

  lemma {:induction false} AndSelf(a: nat)
    ensures And(a, a) == a
  {
    if a > 0 { AndSelf(a / 2); }
  }

  lemma {:induction false} TestFindsPower(n: nat) returns (k: nat)
    requires n > 0 && And(n, n - 1) == 0
    ensures n == Pow2(k)
  {
    if n == 1 {
      k := 0;
    } else {
      AndSelf(n / 2);
      k := TestFindsPower(n / 2);
      k := k + 1;
    }
  }

  lemma {:induction false} PowerPassesTest(k: nat)
    ensures And(Pow2(k), Pow2(k) - 1) == 0
  {
    if k > 0 {
      PowerPassesTest(k - 1);
      assert (Pow2(k) - 1) / 2 == Pow2(k - 1) - 1;
    }
  }

  // size & (size - 1) == 0 recognises exactly the powers of two.
  lemma PowerOfTwoTest(n: nat)
    requires n > 0
    ensures And(n, n - 1) == 0 <==> exists k: nat :: n == Pow2(k)
  {
    if And(n, n - 1) == 0 {
      var k := TestFindsPower(n);
    }
    forall k: nat | n == Pow2(k) ensures And(n, n - 1) == 0 {
      PowerPassesTest(k);
    }
  }

  lemma HalvedModulo(s: nat, p: nat)
    requires p > 0
    ensures s % (2 * p) == 2 * ((s / 2) % p) + s % 2
  {
    var q, r := (s / 2) / p, (s / 2) % p;
    assert s / 2 == p * q + r;
    ModIs(s, 2 * p, q, 2 * r + s % 2);
  }

  lemma AndOdd(s: nat, p: nat)
    requires s > 0 && p > 0
    ensures And(s, 2 * p - 1) == s % 2 + 2 * And(s / 2, p - 1)
  {
    assert (2 * p - 1) % 2 == 1 && (2 * p - 1) / 2 == p - 1;
  }

  // Masking with 2^k - 1 is reduction modulo 2^k.
  lemma {:induction false} MaskIsModulo(s: nat, k: nat)
    ensures And(s, Pow2(k) - 1) == s % Pow2(k)
    decreases k
  {
    if k == 0 {
    } else if s == 0 {
      ModIs(s, Pow2(k), 0, 0);
    } else {
      var p := Pow2(k - 1);
      MaskIsModulo(s / 2, k - 1);
      HalvedModulo(s, p);
      AndOdd(s, p);
    }
  }

  lemma ApartModulo(s: int, t: int, n: int)
    requires 0 < t - s < n
    ensures s % n != t % n
  {
    MultipleSpread(n, t / n - s / n);
    assert n * (t / n - s / n) == t - s - (t % n - s % n);
  }
}
