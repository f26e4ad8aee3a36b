/** The arithmetic behind the Newton reciprocal and the division that uses it. Powers of B
    enter only as positive integers with the stated relations. */
module RecipMath {
  import opened Arith

  /** x is an approximate reciprocal of a at scale n2 = B^(2n). */
  ghost predicate Reciprocal(a: int, x: int, n2: int) {
    a * x < n2 < a * (x + 2)
  }

  /** An approximate reciprocal of a normalised number lies in [B^n, 2*B^n). */
  lemma {:induction false} ReciprocalRange(a: int, x: int, n: int)
    requires 0 < n <= 2 * a && a < n
    requires Reciprocal(a, x, n * n)
    ensures n <= x < 2 * n
  {
    if x >= 2 * n {
      MulLe(2 * n, x, a);
      Assoc(a, 2, n);
      MulLe(n, 2 * a, n);
      assert false;
    }
    if x <= n - 1 {
      MulLe(x + 2, n + 1, a);
      MulLe(a, n - 1, n + 1);
      Distrib(n, 1, n + 1);
      Distrib(n, 1, n);
      assert false;
    }
  }

  /** The small case: the exact quotient of B^(2n), lowered by one when the division is exact. */
  lemma {:induction false} BaseReciprocal(a: int, q: int, r: int, n2: int, x: int)
    requires 0 < a && 0 <= r < a && n2 == q * a + r
    requires x == if r == 0 then q - 1 else q
    ensures Reciprocal(a, x, n2)
  {
    Distrib(q, 1, a);
    Distrib(x, 2, a);
  }

  lemma {:induction false} BaseQuotientBound(a: int, q: int, n: int)
    requires 0 < n <= 2 * a && q * a <= n * n
    ensures q <= 2 * n
  {
    if q > 2 * n {
      MulLt(2 * n, q, a);
      Assoc(2, n, a);
      Assoc(n, 2, a);
      MulLe(n, 2 * a, n);
      assert false;
    }
  }

  /** The reciprocal of the high half, seen from the whole number. */
  lemma {:induction false} HighHalf(a: int, ah: int, al: int, x: int, hh: int, l: int)
    requires 0 < l && 0 <= al < l && a == ah * l + al && 0 <= x
    requires hh < ah * (x + 2)
    ensures hh * l < a * (x + 2)
  {
    MulLt(hh, ah * (x + 2), l);
    Assoc(ah, x + 2, l);
    MulLe(ah * l, a, x + 2);
  }

  /** One correction of the high half keeps the lower bound. */
  lemma {:induction false} Decrement(a: int, x: int, m: int)
    requires 0 < a && m <= a * x
    ensures m < a * (x - 1 + 2)
    ensures a * (x - 1) == a * x - a
    ensures m > 0 ==> x > 0
  {
    Distrib(x, 1, a);
    if m > 0 && x <= 0 {
      MulLe(x, 0, a);
      assert false;
    }
  }

  /** The Newton step. With N = H*L = B^n and K*L = H*H, from the error t of the high half
      x the corrected value x*L + f is a reciprocal of the whole a. */
  lemma {:induction false} NewtonStep(a: int, x: int, t: int, tm: int, t0: int, u: int, f: int, f0: int, H: int,
          L: int, N: int, K: int)
    requires 0 < H && 0 < L && 0 < K && N == H * L && K * L == H * H
    requires 10 * (L * L) <= N <= 2 * a && a < N && 0 <= x
    requires t == N * H - a * x && 0 < t < 2 * a
    requires t == tm * L + t0 && 0 <= t0 < L && 0 <= tm
    requires u == tm * x && u == f * K + f0 && 0 <= f0 < K
    ensures Reciprocal(a, x * L + f, N * N)
  {
    var c := tm * (K * (L * L));
    ErrorProduct(a, x, t, tm, u, H, L, N, K);
    ErrorSplit(t, tm, t0, L, K);
    ErrorSquare(t, tm, t0, a, H, L, N, K);
    Upper(a, t, tm, t0, u, f, f0, L, K, c);
    Lower(a, t, tm, t0, u, f, f0, L, K, N, c);
    ScaledHigh(a, x, t, H, L, N);
    NewtonFinish(a, x * L, f, t * L, N * N);
  }

  lemma {:induction false} ScaledHigh(a: int, x: int, t: int, H: int, L: int, N: int)
    requires N == H * L && t == N * H - a * x
    ensures a * (x * L) == N * N - t * L
  {
    Assoc(N, H, L);
    Assoc(a, x, L);
    Distrib(N * H, a * x, L);
  }

  lemma {:induction false} NewtonFinish(a: int, xl: int, f: int, tl: int, n2: int)
    requires a * xl == n2 - tl && a * f < tl < a * f + 2 * a
    ensures Reciprocal(a, xl + f, n2)
  {
    Distrib(xl, f, a);
    Distrib(xl + f, 2, a);
  }

  lemma {:induction false} ErrorProduct(a: int, x: int, t: int, tm: int, u: int, H: int, L: int, N: int, K: int)
    requires N == H * L && K * L == H * H
    requires t == N * H - a * x && u == tm * x
    ensures a * u == tm * (K * (L * L)) - tm * t
  {
    Assoc(a, tm, x);
    Distrib(N * H, t, tm);
    assert N * H == K * (L * L) by {
      Assoc(H, L, H);
      Assoc(K, L, L);
      Assoc(L, H, H);
    }
  }

  lemma {:induction false} ErrorSplit(t: int, tm: int, t0: int, L: int, K: int)
    requires t == tm * L + t0
    ensures (t * L) * K == tm * (K * (L * L)) + t0 * (L * K)
  {
    Distrib(tm * L, t0, L);
    Distrib((tm * L) * L, t0 * L, K);
    Assoc(tm, L, L);
    Assoc(tm, L * L, K);
    Assoc(t0, L, K);
  }

  lemma {:induction false} ErrorSquare(t: int, tm: int, t0: int, a: int, H: int, L: int, N: int, K: int)
    requires 0 < L && 0 < H && N == H * L && K * L == H * H
    requires 0 <= tm && 0 <= t0 && t == tm * L + t0 && 0 < t < 2 * a && a < N
    ensures tm * t <= 4 * (K * (L * L))
  {
    MulLe(tm * L, t, t);
    MulLe(t, 2 * N, t);
    MulLe(t, 2 * N, 2 * N);
    assert (2 * N) * (2 * N) == 4 * (N * N);
    assert N * N == (K * (L * L)) * L by {
      assert (H * L) * (H * L) == (H * H) * (L * L);
      Assoc(K, L, L * L);
      Assoc(K, L * L, L);
    }
    Assoc(tm, L, t);
    assert (tm * t) * L <= (4 * (K * (L * L))) * L;
    CancelLe(tm * t, 4 * (K * (L * L)), L);
  }

  lemma {:induction false} Upper(a: int, t: int, tm: int, t0: int, u: int, f: int, f0: int, L: int, K: int, c: int)
    requires 0 < L && 0 < K && 0 <= tm && 0 <= t0 && 0 < t && t == tm * L + t0 && 0 < a
    requires a * u == c - tm * t && (t * L) * K == c + t0 * (L * K)
    requires u == f * K + f0 && 0 <= f0
    ensures a * f < t * L
  {
    MulLe(f * K, u, a);
    Assoc(a, f, K);
    MulNonneg(tm, t);
    MulLe(1, L, K);
    MulNonneg(t0, L * K);
    if tm == 0 {
      MulLe(1, t0, L * K);
    } else {
      MulLe(1, tm, t);
    }
    CancelLt(a * f, t * L, K);
  }

  lemma {:induction false} Lower(a: int, t: int, tm: int, t0: int, u: int, f: int, f0: int, L: int, K: int, N: int,
          c: int)
    requires 0 < L && 0 < K && 0 <= t0 < L && 0 < a
    requires 10 * (L * L) <= N <= 2 * a
    requires a * u == c - tm * t && (t * L) * K == c + t0 * (L * K)
    requires tm * t <= 4 * (K * (L * L))
    requires u == f * K + f0 && f0 < K
    ensures t * L < a * f + 2 * a
  {
    Distrib(f, 1, K);
    MulLt(u, (f + 1) * K, a);
    Assoc(a, f + 1, K);
    assert c - tm * t < (a * (f + 1)) * K;
    assert t0 * (L * K) <= K * (L * L) by {
      MulLe(t0, L, L * K);
      Assoc(L, L, K);
      Assoc(K, L, L);
      MulLe(1, L, K);
    }
    MulLe(5 * (L * L), a, K);
    Assoc(5, L * L, K);
    Distrib(a * (f + 1), a, K);
    Distrib(f, 1, a);
    CancelLt(t * L, a * (f + 1) + a, K);
  }
}
