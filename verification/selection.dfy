/**
 * Counting facts behind the two peer-selection rules for low-fanout flooding:
 * the residue rule of `ShouldFloodTo` (a peer is chosen when its index and the
 * transaction hash agree modulo `reverse_probability`) and the cyclic-window rule
 * of `ShouldFanoutTo` (a peer is chosen when its rank lies in `[r, r + k)` modulo
 * the class size).
 */
module Selection {
  import opened Common

  /** Division with remainder is unique. */
  lemma DivModUnique(x: nat, p: nat, q: nat, s: nat)
    requires 0 <= s < p && x == q * p + s
    ensures x / p == q && x % p == s
  {
    var q', s' := x / p, x % p;
    assert (q - q') * p == s' - s;
    SmallMultipleIsZero(q - q', p);
  }

  /** A multiple of `p` strictly between `-p` and `p` is zero. */
  lemma SmallMultipleIsZero(a: int, p: int)
    requires p > 0 && -p < a * p < p
    ensures a == 0
  {
    MultipleSign(a, p);
  }

  lemma MultipleSign(a: int, p: int)
    requires p > 0
    ensures a >= 1 ==> a * p >= p
    ensures a <= -1 ==> a * p <= -p
  {
    if a >= 1 {
      assert a * p == p + (a - 1) * p;
    } else if a <= -1 {
      assert a * p == -p + (a + 1) * p;
    }
  }

  /** The quotient brackets the dividend: `(x / d) * d <= x < (x / d + 1) * d`. */
  lemma DivBounds(x: nat, d: nat)
    requires d > 0
    ensures (x / d) * d <= x < (x / d + 1) * d
  {
    var q, r := x / d, x % d;
    assert x == q * d + r;
    assert (q + 1) * d == q * d + d;
  }

  /** Dividing by a positive number never increases a natural number. */
  lemma DivIsAtMost(a: nat, b: nat)
    requires b >= 1
    ensures a / b <= a
  {
    var q := a / b;
    assert q * b == q + q * (b - 1);
  }

  // ---------------------------------------------------------------------------
  // Counting decisions

  /** Number of `true` entries among the first `m` decisions. */
  function CountTrue(bs: seq<bool>, m: nat): nat
    requires m <= |bs|
  {
    if m == 0 then 0 else CountTrue(bs, m - 1) + (if bs[m - 1] then 1 else 0)
  }

  // ---------------------------------------------------------------------------
  // Residue rule

  /** Number of indices `i < m` with `i % p == c`. */
  function CountResidue(m: nat, p: nat, c: nat): nat
    requires p > 0
  {
    if m == 0 then 0
    else CountResidue(m - 1, p, c) + (if (m - 1) % p == c then 1 else 0)
  }

  /** Stepping from `x` to `x + 1` either wraps the remainder to zero or increments it. */
  lemma DivModSucc(x: nat, p: nat)
    requires p > 0
    ensures x % p == p - 1 ==> (x + 1) / p == x / p + 1 && (x + 1) % p == 0
    ensures x % p < p - 1 ==> (x + 1) / p == x / p && (x + 1) % p == x % p + 1
  {
    var q, s := x / p, x % p;
    if s == p - 1 {
      assert x + 1 == (q + 1) * p + 0;
      DivModUnique(x + 1, p, q + 1, 0);
    } else {
      assert x + 1 == q * p + (s + 1);
      DivModUnique(x + 1, p, q, s + 1);
    }
  }

  /** Among the first `m` indices, residue `c` occurs `m / p` times, once more if `c < m % p`. */
  lemma {:induction false} CountResidueFormula(m: nat, p: nat, c: nat)
    requires p > 0 && c < p
    ensures CountResidue(m, p, c) == m / p + (if c < m % p then 1 else 0)
  {
    if m > 0 {
      CountResidueFormula(m - 1, p, c);
      DivModSucc(m - 1, p);
    }
  }

  /** Decisions that follow the residue rule are counted by `CountResidue`. */
  lemma {:induction false} CountTrueResidue(bs: seq<bool>, m: nat, p: nat, c: nat)
    requires p > 0 && m <= |bs|
    requires forall j :: 0 <= j < |bs| ==> (bs[j] <==> j % p == c)
    ensures CountTrue(bs, m) == CountResidue(m, p, c)
  {
    if m > 0 {
      CountTrueResidue(bs, m - 1, p, c);
    }
  }

  // ---------------------------------------------------------------------------
  // Cyclic-window rule

  /** Whether `rank` lies in the cyclic window `[r, r + k)` modulo `n`. */
  predicate InWindow(rank: nat, n: nat, r: nat, k: nat)
    requires n > 0
  {
    (rank - r) % n < k
  }

  /** Number of ranks `j < m` inside the window. */
  function CountInWindow(m: nat, n: nat, r: nat, k: nat): nat
    requires n > 0
  {
    if m == 0 then 0
    else CountInWindow(m - 1, n, r, k) + (if InWindow(m - 1, n, r, k) then 1 else 0)
  }

  /** Decisions that follow the window rule are counted by `CountInWindow`. */
  lemma {:induction false} CountTrueWindow(bs: seq<bool>, m: nat, n: nat, r: nat, k: nat)
    requires n > 0 && m <= |bs|
    requires forall j :: 0 <= j < |bs| ==> (bs[j] <==> InWindow(j, n, r, k))
    ensures CountTrue(bs, m) == CountInWindow(m, n, r, k)
  {
    if m > 0 {
      CountTrueWindow(bs, m - 1, n, r, k);
    }
  }

  /** Number of integers of `[a, b)` below `m` (for `a >= 0`). */
  function Clip(m: nat, a: nat, b: int): nat {
    var hi := Min(m, b);
    if hi <= a then 0 else hi - a
  }

  /** Inside `[0, n)` the cyclic window is the straight part `[r, r + k)` plus the wrapped part `[0, r + k - n)`. */
  lemma InWindowSplit(j: nat, n: nat, r: nat, k: nat)
    requires j < n && r < n && k <= n
    ensures InWindow(j, n, r, k) <==> (r <= j < r + k) || j < r + k - n
  {
    if j >= r {
      DivModUnique(j - r, n, 0, j - r);
    } else {
      assert j - r == -1 * n + (j - r + n);
      assert (j - r) % n == j - r + n;
    }
  }

  lemma {:induction false} CountInWindowPrefix(m: nat, n: nat, r: nat, k: nat)
    requires 0 < n && m <= n && r < n && k <= n
    ensures CountInWindow(m, n, r, k) == Clip(m, r, r + k) + Clip(m, 0, r + k - n)
  {
    if m > 0 {
      CountInWindowPrefix(m - 1, n, r, k);
      InWindowSplit(m - 1, n, r, k);
    }
  }

  /** The window picks exactly `k` of the `n` ranks, wherever it starts. */
  lemma WindowExactCount(n: nat, r: nat, k: nat)
    requires 0 < n && r < n && k <= n
    ensures CountInWindow(n, n, r, k) == k
  {
    CountInWindowPrefix(n, n, r, k);
  }
}
