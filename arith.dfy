/** Facts about multiplication and Euclidean division used for cell geometry. */
module Arith {

  lemma MulPos(d: int, t: int)
    requires d > 0
    ensures t >= 1 ==> d * t >= d
  {
  }

  /** A quotient and remainder in range are the quotient and remainder. */
  lemma DivUnique(x: int, d: int, q: int, r: int)
    requires d > 0 && 0 <= r < d && x == q * d + r
    ensures x / d == q && x % d == r
  {
    var q', r' := x / d, x % d;
    assert x == d * q' + r';
    MulPos(d, q - q');
    MulPos(d, q' - q);
    assert d * (q - q') == r' - r;
  }

  lemma MulDivExact(q: int, d: int)
    requires d > 0
    ensures (q * d) / d == q && (q * d) % d == 0
  {
    DivUnique(q * d, d, q, 0);
  }

  /** `ceil(a / b)` for a non-negative `a`. */
  function CeilDiv(a: nat, b: nat): nat
    requires b > 0
  {
    (a + b - 1) / b
  }

  /** `n` is `ceil(a / b)` when `n` blocks of `b` cover `a` and `n - 1` do not. */
  lemma CeilDivUnique(a: nat, b: nat, n: nat)
    requires b > 0
    requires b * n >= a
    requires n == 0 || b * (n - 1) < a
    ensures n == CeilDiv(a, b)
  {
    if n == 0 {
      DivUnique(a + b - 1, b, 0, b - 1);
    } else {
      assert b * (n - 1) == b * n - b;
      DivUnique(a + b - 1, b, n, a + b - 1 - n * b);
    }
  }

  /** A pixel coordinate inside the `c`-th block of side `s` belongs to cell `c`. */
  lemma DivInBlock(p: int, s: int, c: int)
    requires s > 0 && c * s <= p < c * s + s
    ensures p / s == c
  {
    DivUnique(p, s, c, p - c * s);
  }

  /** Row-major cell numbering: cell `cy * across + cx` sits in row `cy`, column `cx`. */
  lemma RowMajorIndex(cy: nat, cx: nat, across: nat)
    requires cx < across
    ensures (cy * across + cx) / across == cy && (cy * across + cx) % across == cx
  {
    DivUnique(cy * across + cx, across, cy, cx);
  }

  /** A multiple of `s` below `n * s` is at most `(n - 1) * s`. */
  lemma MultipleBelow(c: int, n: int, s: int)
    requires s > 0 && c * s < n * s
    ensures c + 1 <= n
  {
    MulPos(s, c - n + 1);
    assert s * (c - n + 1) == c * s - n * s + s;
  }

  lemma MulLe(a: int, b: int, s: int)
    requires s >= 0
    ensures a <= b ==> a * s <= b * s
  {
    assert b * s - a * s == (b - a) * s;
  }

  /**
   * A block anchored at `c * s` below `n * s` ends no later than `n * s`:
   * with `n * s` a frame dimension, the block fits in the frame.
   */
  lemma AnchorFits(c: int, n: int, s: int)
    requires s > 0 && c * s < n * s
    ensures c + 1 <= n && c * s + s <= n * s
  {
    MultipleBelow(c, n, s);
    MulLe(c + 1, n, s);
  }

  /** Stepping by `s` from 0 stops exactly at `n * s`. */
  lemma AnchorEnd(c: int, n: int, s: int)
    requires s > 0 && c <= n && c * s >= n * s
    ensures c == n
  {
    MulPos(s, n - c);
    assert s * (n - c) == n * s - c * s;
  }

  /**
   * `c * s` built by repeated addition, the way a loop stepping by `s`
   * builds it; loops state their positions with it and leave the
   * multiplication to the lemmas below.
   */
  function Times(c: nat, s: nat): nat
  {
    if c == 0 then 0 else Times(c - 1, s) + s
  }

  lemma {:induction false} TimesIsMul(c: nat, s: nat)
    ensures Times(c, s) == c * s
  {
    if c > 0 {
      TimesIsMul(c - 1, s);
    }
  }

  /** A loop stepping `c` times by `s` from 0 towards `n * s` stops exactly at `c == n`. */
  lemma TimesEnd(c: nat, n: nat, s: nat)
    requires s > 0 && c <= n && Times(c, s) >= Times(n, s)
    ensures c == n
  {
    TimesIsMul(c, s);
    TimesIsMul(n, s);
    AnchorEnd(c, n, s);
  }

  lemma MulSucc(c: int, s: int)
    ensures (c + 1) * s == c * s + s
  {
  }

  /** `Times` grows with its count. */
  lemma {:induction false} TimesMono(a: nat, b: nat, s: nat)
    requires a <= b
    ensures Times(a, s) <= Times(b, s)
    decreases b - a
  {
    if a < b {
      TimesMono(a, b - 1, s);
    }
  }

  /** A multiple of `s` is `s` added up `r / s` times. */
  lemma ExactMultiple(r: nat, s: nat)
    requires s > 0 && r % s == 0
    ensures Times(r / s, s) == r
  {
    TimesIsMul(r / s, s);
    assert r == (r / s) * s + r % s;
  }

  /** `a / b` by repeated subtraction. */
  function Quotient(a: nat, b: nat): nat
    requires b > 0
    decreases a
  {
    if a < b then 0 else 1 + Quotient(a - b, b)
  }

  lemma {:induction false} QuotientIsDiv(a: nat, b: nat)
    requires b > 0
    ensures Quotient(a, b) == a / b
    decreases a
  {
    if a < b {
      DivUnique(a, b, 0, a);
    } else {
      QuotientIsDiv(a - b, b);
      DivUnique(a, b, (a - b) / b + 1, (a - b) % b);
    }
  }
}
