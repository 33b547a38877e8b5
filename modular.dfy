/**
 * `negative_mod`: normalising a signed integer into `[0, modulus)`.
 * The source adds `modulus` until the value is non-negative and then takes
 * the remainder. `NegMod` is the same computation written as a recursive
 * function (so that pure code can use it); `NegativeMod` is the loop.
 */
module Modular {

  /** The loop of `negative_mod`, unrolled as recursion on the running value. */
  function NegMod(n: int, modulus: nat): (r: nat)
    requires modulus > 0
    ensures r < modulus
    decreases if n < 0 then -n else 0
  {
    if n < 0 then NegMod(n + modulus, modulus) else n % modulus
  }

  /** The result is the Euclidean remainder: the unique `r` in range congruent to `n`. */
  lemma {:induction false} NegModIsRemainder(n: int, modulus: nat)
    requires modulus > 0
    ensures NegMod(n, modulus) == n % modulus
    decreases if n < 0 then -n else 0
  {
    if n < 0 {
      NegModIsRemainder(n + modulus, modulus);
      AddModulus(n, modulus);
    }
  }

  lemma AddModulus(n: int, modulus: nat)
    requires modulus > 0
    ensures (n + modulus) % modulus == n % modulus
  {
    var q, r := n / modulus, n % modulus;
    assert n == q * modulus + r;
    assert n + modulus == (q + 1) * modulus + r;
    Unique(n + modulus, modulus, q + 1, r);
  }

  /** Euclidean division is unique. */
  lemma Unique(x: int, modulus: nat, q: int, r: int)
    requires modulus > 0 && 0 <= r < modulus && x == q * modulus + r
    ensures x % modulus == r && x / modulus == q
  {
    var q', r' := x / modulus, x % modulus;
    assert x == q' * modulus + r';
    var d := q - q';
    assert d * modulus == q * modulus - q' * modulus by { MulSub(q, q', modulus); }
    assert d * modulus == r' - r;
    if d > 0 {
      MulAtLeast(d, modulus);
    } else if d < 0 {
      MulAtLeast(-d, modulus);
    }
  }

  lemma MulSub(a: int, b: int, m: int)
    ensures (a - b) * m == a * m - b * m
  {
  }

  lemma MulAtLeast(k: int, m: nat)
    requires k >= 1
    ensures k * m >= m
  {
    assert k * m == (k - 1) * m + m by { MulSub(k, 1, m); }
    assert (k - 1) * m >= 0;
  }

  /** `n` and `NegMod(n)` differ by a whole number of moduli. */
  lemma NegModCongruent(n: int, modulus: nat)
    requires modulus > 0
    ensures (n - NegMod(n, modulus)) % modulus == 0
  {
    NegModIsRemainder(n, modulus);
    var q := n / modulus;
    assert n - n % modulus == q * modulus;
    Unique(n - n % modulus, modulus, q, 0);
  }

  /** Normalising twice is normalising once. */
  lemma NegModIdempotent(n: int, modulus: nat)
    requires modulus > 0
    ensures NegMod(NegMod(n, modulus), modulus) == NegMod(n, modulus)
  {
    NegModInRange(NegMod(n, modulus), modulus);
  }

  /** Two integers normalise to the same value exactly when they are congruent. */
  lemma NegModEqual(a: int, b: int, modulus: nat)
    requires modulus > 0
    ensures NegMod(a, modulus) == NegMod(b, modulus) <==> (a - b) % modulus == 0
  {
    NegModIsRemainder(a, modulus);
    NegModIsRemainder(b, modulus);
    var qa, ra := a / modulus, a % modulus;
    var qb, rb := b / modulus, b % modulus;
    assert a - b == (qa - qb) * modulus + (ra - rb);
    if ra == rb {
      Unique(a - b, modulus, qa - qb, 0);
    } else if ra > rb {
      Unique(a - b, modulus, qa - qb, ra - rb);
    } else {
      Unique(a - b, modulus, qa - qb - 1, ra - rb + modulus);
    }
  }

  /** Non-negative values below the modulus are left alone. */
  lemma NegModInRange(n: int, modulus: nat)
    requires modulus > 0 && 0 <= n < modulus
    ensures NegMod(n, modulus) == n
  {
    Unique(n, modulus, 0, n);
  }

  /** `k` copies of `m` added up: the amount the loop has added after `k` iterations. */
  ghost function Times(k: nat, m: nat): nat
  {
    if k == 0 then 0 else Times(k - 1, m) + m
  }

  /** `Times` is multiplication. */
  lemma {:induction false} TimesIsProduct(k: nat, m: nat)
    ensures Times(k, m) == k * m
  {
    if k > 0 {
      TimesIsProduct(k - 1, m);
      MulSub(k, 1, m);
    }
  }

  /**
   * `negative_mod(n, modulus)`. The ghost `adds` counts the loop's iterations:
   * none for non-negative `n`, otherwise just enough to reach a non-negative value.
   */
  method NegativeMod(n: int, modulus: nat) returns (r: nat, ghost adds: nat)
    requires modulus > 0
    ensures r == NegMod(n, modulus)
    ensures r < modulus && (n - r) % modulus == 0
    ensures n >= 0 ==> adds == 0 && r == n % modulus
    ensures 0 <= n + Times(adds, modulus)
    ensures adds > 0 ==> n + Times(adds - 1, modulus) < 0
  {
    var value := n;
    adds := 0;
    while value < 0
      invariant value == n + Times(adds, modulus)
      invariant NegMod(value, modulus) == NegMod(n, modulus)
      invariant adds > 0 ==> value - modulus < 0
      decreases -value
    {
      value := value + modulus;
      adds := adds + 1;
    }
    r := value % modulus;
    NegModIsRemainder(n, modulus);
    NegModCongruent(n, modulus);
  }
}
