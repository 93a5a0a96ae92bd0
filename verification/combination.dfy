/**
 * `Combination(n, k)` of src/test-exhaust.cpp: the binomial coefficient computed with
 * `uint64_t` arithmetic by the multiplicative formula, used as the exact expected number of
 * decodable sketches. The mathematical coefficient is defined by Pascal's rule.
 */
module Combinatorics {
  import opened Common
  import Selection

  /** The binomial coefficient by Pascal's rule; zero when `k > n`. */
  function Binom(n: nat, k: nat): nat {
    if k == 0 then 1
    else if n == 0 then 0
    else Binom(n - 1, k - 1) + Binom(n - 1, k)
  }

  lemma {:induction false} BinomAboveIsZero(n: nat, k: nat)
    requires k > n
    ensures Binom(n, k) == 0
  {
    if n > 0 {
      BinomAboveIsZero(n - 1, k - 1);
      BinomAboveIsZero(n - 1, k);
    }
  }

  lemma {:induction false} BinomDiagonal(n: nat)
    ensures Binom(n, n) == 1
  {
    if n > 0 {
      BinomDiagonal(n - 1);
      BinomAboveIsZero(n - 1, n);
    }
  }

  /** Symmetry: choosing `k` is choosing the `n - k` left out. */
  lemma {:induction false} BinomSymmetric(n: nat, k: nat)
    requires k <= n
    ensures Binom(n, k) == Binom(n, n - k)
  {
    if k == 0 {
      BinomDiagonal(n);
    } else if k == n {
      BinomDiagonal(n);
    } else {
      // Both sides unfold by Pascal's rule into the same two terms, swapped.
      BinomSymmetric(n - 1, k - 1);
      BinomSymmetric(n - 1, k);
      assert n - k - 1 == (n - 1) - k;
      assert Binom(n, n - k) == Binom(n - 1, n - k - 1) + Binom(n - 1, n - k);
    }
  }

  /** Absorption: `k * C(n, k) == n * C(n - 1, k - 1)`. */
  lemma {:induction false} BinomAbsorption(n: nat, k: nat)
    requires 1 <= k <= n
    ensures k * Binom(n, k) == n * Binom(n - 1, k - 1)
  {
    if k == n {
      BinomDiagonal(n);
      BinomDiagonal(n - 1);
    } else if k == 1 {
      BinomOne(n);
    } else {
      // Pascal's rule on C(n, k) and on C(n - 1, k - 1), then both parts by induction.
      BinomAbsorption(n - 1, k - 1);
      BinomAbsorption(n - 1, k);
      AbsorptionArith(n, k, Binom(n - 2, k - 2), Binom(n - 2, k - 1), Binom(n - 1, k));
    }
  }

  /** The arithmetic of the induction step of `BinomAbsorption`, with `c = a + b` by Pascal's rule. */
  lemma AbsorptionArith(n: int, k: int, a: int, b: int, d: int)
    requires (k - 1) * (a + b) == (n - 1) * a && k * d == (n - 1) * b
    ensures k * ((a + b) + d) == n * (a + b)
  {
    var c := a + b;
    assert k * (c + d) == (k - 1) * c + c + k * d;
    assert (n - 1) * a + (n - 1) * b == (n - 1) * c;
    assert n * c == (n - 1) * c + c;
  }

  lemma {:induction false} BinomOne(n: nat)
    ensures Binom(n, 1) == n
  {
    if n > 0 {
      BinomOne(n - 1);
    }
  }

  /**
   * The step of the multiplicative formula: `C(n, i - 1) * (n - i + 1) == i * C(n, i)`, so the
   * division by `i` in the loop is exact.
   */
  lemma MultiplicativeStep(n: nat, i: nat)
    requires 1 <= i <= n
    ensures Binom(n, i - 1) * (n - i + 1) == i * Binom(n, i)
  {
    // (n - j) * C(n, j) == n * C(n - 1, j) with j = i - 1, through symmetry and absorption.
    var j := i - 1;
    BinomAbsorption(n, i);
    BinomSymmetric(n, j);
    BinomSymmetric(n - 1, j);
    BinomAbsorption(n, n - j);
    assert n - j - 1 == (n - 1) - j;
    SymmetricAbsorption(n - j, Binom(n, j), Binom(n, n - j), n, Binom(n - 1, n - j - 1), Binom(n - 1, j));
  }

  /** The arithmetic of `MultiplicativeStep`: `k * a == m * d` once `a == b`, `k * b == m * c` and `c == d`. */
  lemma SymmetricAbsorption(k: int, a: int, b: int, m: int, c: int, d: int)
    requires a == b && k * b == m * c && c == d
    ensures a * k == m * d
  {
  }

  /** Iteration `i` of the loop turns `C(n0, i - 1)` into `C(n0, i)` when its product fits. */
  lemma ExactStep(n0: nat, i: nat, ret: nat, n: nat)
    requires 1 <= i <= n0 && ret == Binom(n0, i - 1) && n == n0 - (i - 1)
    requires StepProduct(n0, i) < U64
    ensures (ret * n) % U64 / i == Binom(n0, i)
  {
    MultiplicativeStep(n0, i);
    var x := ret * n;
    assert x == Binom(n0, i) * i + 0;
    assert x % U64 == x;
    Selection.DivModUnique(x, i, Binom(n0, i), 0);
  }

  /** `a - b` on `uint64_t`. */
  function Sub64(a: nat, b: nat): (r: nat)
    requires a < U64 && b < U64
    ensures r < U64
    ensures b <= a ==> r == a - b
    ensures b > a ==> r == a - b + U64
  {
    (a - b) % U64
  }

  /** The number of loop iterations: `k`, or `n - k` (as `uint64_t`) when that is smaller. */
  function EffectiveK(n: nat, k: nat): (e: nat)
    requires n < U64 && k < U64
    ensures k <= n ==> e == Min(k, n - k)
  {
    if Sub64(n, k) < k then Sub64(n, k) else k
  }

  /** The loop bound reaches `2^64 - 1`, so that the loop cannot end, for exactly one input pair. */
  lemma UnboundedLoopInput(n: nat, k: nat)
    requires n < U64 && k < U64
    ensures EffectiveK(n, k) == U64 - 1 <==> n == U64 - 2 && k == U64 - 1
  {
  }

  /** The product `ret * n` formed in iteration `i` when every earlier one was exact. */
  function StepProduct(n: nat, i: nat): int {
    if i == 0 then 0 else Binom(n, i - 1) * (n - i + 1)
  }

  /** No product `ret * n` of the loop, for `k <= n`, exceeds `uint64_t`. */
  predicate Fits(n: nat, k: nat)
    requires k <= n
  {
    forall i :: 1 <= i <= Min(k, n - k) ==> StepProduct(n, i) < U64
  }

  /**
   * The loop of `Combination`, with every `uint64_t` operation written out: the product
   * wraps modulo 2^64 and so does `--n`. Returns the result and the number of iterations run.
   * A loop bound of `2^64 - 1` would never end: `i <= k` holds for every `uint64_t` `i`, and
   * `i` wraps to 0 and divides by zero. Only `n = 2^64 - 2, k = 2^64 - 1` gives that bound.
   */
  method Combination(n0: nat, k0: nat) returns (ret: nat, iterations: nat)
    requires n0 < U64 && k0 < U64
    requires EffectiveK(n0, k0) < U64 - 1
    ensures ret < U64
    ensures iterations == EffectiveK(n0, k0)
    ensures k0 == 0 ==> ret == 1
    ensures k0 == n0 ==> ret == 1
    ensures k0 <= n0 ==> iterations == Min(k0, n0 - k0)
    ensures k0 <= n0 && Fits(n0, k0) ==> ret == Binom(n0, k0)
  {
    var k := EffectiveK(n0, k0);
    var n: nat := n0;
    ret := 1;
    var i := 1;
    while i <= k
      invariant 1 <= i <= k + 1
      invariant ret < U64 && n < U64
      invariant k0 <= n0 ==> n == n0 - (i - 1)
      invariant k0 <= n0 && Fits(n0, k0) ==> ret == Binom(n0, i - 1)
      decreases k + 1 - i
    {
      if k0 <= n0 && Fits(n0, k0) {
        assert StepProduct(n0, i) < U64;
        ExactStep(n0, i, ret, n);
      }
      Selection.DivIsAtMost((ret * n) % U64, i);
      ret := (ret * n) % U64 / i;
      n := Sub64(n, 1);
      i := i + 1;
    }
    iterations := i - 1;
    if k0 <= n0 && Fits(n0, k0) && k < k0 {
      BinomSymmetric(n0, k0);
    }
  }
}
