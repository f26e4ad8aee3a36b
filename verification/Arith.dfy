/** Elementary facts about products and quotients of integers, stated one at a time so that
    the larger proofs never have to search for them. */
module Arith {

  lemma {:induction false} MulLe(a: int, b: int, c: int)
    requires a <= b && 0 <= c
    ensures a * c <= b * c && c * a <= c * b
  {
  }

  lemma {:induction false} MulLt(a: int, b: int, c: int)
    requires a < b && 0 < c
    ensures a * c < b * c && c * a < c * b
  {
  }

  lemma {:induction false} MulNonneg(a: int, b: int)
    requires 0 <= a && 0 <= b
    ensures 0 <= a * b
  {
  }

  lemma {:induction false} Distrib(a: int, b: int, c: int)
    ensures (a + b) * c == a * c + b * c
    ensures c * (a + b) == c * a + c * b
    ensures (a - b) * c == a * c - b * c
    ensures c * (a - b) == c * a - c * b
  {
  }

  lemma {:induction false} Assoc(a: int, b: int, c: int)
    ensures (a * b) * c == a * (b * c)
    ensures a * (b * c) == b * (a * c)
    ensures a * (b * c) == c * (a * b)
  {
  }

  lemma {:induction false} TimesBit(p: int, k: int)
    requires 0 <= k <= 1
    ensures p * k == (if k == 0 then 0 else p) && k * p == p * k
  {
  }

  /** Cancelling a positive factor. */
  lemma {:induction false} CancelLt(a: int, b: int, c: int)
    requires 0 < c && a * c < b * c
    ensures a < b
  {
    if b <= a {
      MulLe(b, a, c);
      assert false;
    }
  }

  lemma {:induction false} CancelLe(a: int, b: int, c: int)
    requires 0 < c && a * c <= b * c
    ensures a <= b
  {
    if b < a {
      MulLt(b, a, c);
      assert false;
    }
  }

  /** Quotient and remainder are the only pair with these two properties. */
  lemma {:induction false} DivModUnique(a: int, d: int, q: int, r: int)
    requires 0 < d && a == q * d + r && 0 <= r < d
    ensures a / d == q && a % d == r
  {
    var q', r' := a / d, a % d;
    assert a == q' * d + r';
    Distrib(q, q', d);
    if q < q' {
      MulLe(1, q' - q, d);
      assert false;
    } else if q' < q {
      MulLe(1, q - q', d);
      assert false;
    }
  }

  /** The defining facts of Euclidean division by a positive divisor. */
  lemma {:induction false} DivMod(a: int, d: int)
    requires 0 < d
    ensures a == (a / d) * d + a % d && 0 <= a % d < d
    ensures 0 <= a ==> 0 <= a / d
  {
    if 0 <= a && a / d < 0 {
      MulLe(a / d, -1, d);
      assert false;
    }
  }

  /** r to the power n. */
  function Power(r: nat, n: nat): nat {
    if n == 0 then 1 else r * Power(r, n - 1)
  }
}
