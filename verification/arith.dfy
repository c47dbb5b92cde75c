/**
  Small facts about integers and reals shared by the framing, frame-count
  and cepstrum modules.
*/
module Arith {

  function Max(a: int, b: int): int { if a < b then b else a }

  function Min(a: int, b: int): int { if a < b then a else b }

  /** Multiplying by a positive factor preserves order both ways. */
  lemma ScaleMonotone(a: real, b: real, s: real)
    requires s > 0.0
    ensures s * a <= b * s <==> a <= b
  {
  }

  /** For s > 0, s * a <= n exactly when a <= n / s. */
  lemma AtMostQuotient(a: real, n: real, s: real)
    requires s > 0.0
    ensures s * a <= n <==> a <= n / s
  {
    var q := n / s;
    assert q * s == n;
    ScaleMonotone(a, q, s);
  }

  /** Casting to real commutes with multiplication. */
  lemma CastProduct(a: int, b: int)
    ensures (a * b) as real == a as real * b as real
  {
  }

  /** ScaleMonotone for integers, through the cast to real. */
  lemma ScaleMonotoneInt(h: int, a: int, b: int)
    requires h > 0
    ensures h * a <= h * b <==> a <= b
  {
    CastProduct(h, a);
    CastProduct(h, b);
    ScaleMonotone(a as real, b as real, h as real);
  }

  /** If n == h * q + r with 0 <= r < h, then q <= n / h < q + 1. */
  lemma DivisionWithRemainder(n: real, h: real, q: real, r: real)
    requires h > 0.0 && 0.0 <= r < h && n == h * q + r
    ensures q <= n / h < q + 1.0
  {
    var t := r / h;
    assert n / h == q + t;
    assert t * h == r;
    ScaleMonotone(1.0, t, h);
  }

  /** The product of two non-negative reals is non-negative. */
  lemma NonNegativeProduct(x: real, y: real)
    requires x >= 0.0 && y >= 0.0
    ensures x * y >= 0.0
  {
  }

  /** 0 <= s <= c * hi with c > 0 gives 0 <= s / c <= hi. */
  lemma QuotientBounded(c: real, s: real, hi: real)
    requires c > 0.0 && 0.0 <= s <= c * hi
    ensures 0.0 <= s / c <= hi
  {
    var m := s / c;
    assert m * c == s;
    assert (hi - m) * c == c * hi - s;
  }
}
